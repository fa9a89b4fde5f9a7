/** The command envelope passed between workers: the common header fields,
    the Paxos message with its two acceptor views, and the field mapping to
    and from the wire message (the byte encoding itself is not modelled). */
module Command {
  import opened Records
  import opened EntryStateSpec

  const kCmdPaxos: U8 := 1
  const kCmdRangeCatchup: U8 := 2
  const kCmdReplay: U8 := 11
  const kCmdRead: U8 := 12
  const kCmdWrite: U8 := 13
  const kCmdRecover: U8 := 14
  const kCmdCatchup: U8 := 15
  const kCmdLoad: U8 := 16
  const kCmdDumpEntry: U8 := 21

  /** The header of every message on the wire. */
  datatype CmdHeader = CmdHeader(uuid: U64, entityId: U64, entry: U64, result: I32)

  /** The fields of a Paxos message on the wire. */
  datatype PaxosMsg = PaxosMsg(
    header: CmdHeader,
    localAcceptorId: U32,
    peerAcceptorId: U32,
    localEntryRecord: Option<EntryRecord>,
    peerEntryRecord: Option<EntryRecord>,
    maxChosenEntry: U64,
    checkEmpty: bool,
    catchup: bool)

  /** Who sent what to whom: the two acceptor ids and their records. */
  datatype AcceptorView = AcceptorView(
    localAcceptorId: U32,
    peerAcceptorId: U32,
    local: Option<EntryRecord>,
    peer: Option<EntryRecord>)

  /** The command fields that never travel and that the view operations
      leave alone. */
  datatype Bookkeeping = Bookkeeping(
    plogLoad: bool,
    plogRangeLoad: bool,
    plogGetRecord: bool,
    plogSetRecord: bool,
    plogReturnMsg: bool,
    checkEmpty: bool,
    catchUp: bool,
    storedValueId: U64,
    maxCommittedRecord: U64,
    maxChosenEntry: U64)

  /** The view from the other end: ids and records change places. */
  function Swapped(v: AcceptorView): AcceptorView {
    AcceptorView(v.peerAcceptorId, v.localAcceptorId, v.peer, v.local)
  }

  /** Swapping is an involution, and it changes the view unless both ends
      already agree. */
  lemma SwappedInvolution(v: AcceptorView)
    ensures Swapped(Swapped(v)) == v
    ensures Swapped(v) == v <==> v.localAcceptorId == v.peerAcceptorId && v.local == v.peer
  {
  }

  /** Whether the payloads of a view can be stripped without dereferencing
      a nil record: the peer record is always read, and the local record
      only when the peer record carries a value. */
  predicate CanStrip(v: AcceptorView) {
    v.peer.Some? && (v.peer.value.valueId != 0 ==> v.local.Some?)
  }

  /** The view after the payloads have been stripped for sending: nothing
      happens for a peer record without a value; otherwise the peer record
      is reduced to its value id, and so is the local record when it carries
      the same value. */
  function WithoutValues(v: AcceptorView): AcceptorView
    requires CanStrip(v)
  {
    var peer := v.peer.value;
    if peer.valueId == 0 then v
    else
      var local := v.local.value;
      v.(local := Some(if local.valueId == peer.valueId then Stripped(local) else local),
         peer := Some(Stripped(peer)))
  }

  /** Stripping keeps ids, counters, value ids and chosen marks, keeps a nil
      local record nil, leaves the peer record id-only whenever it has a
      value, and is idempotent. */
  lemma {:induction false} WithoutValuesProperties(v: AcceptorView)
    requires CanStrip(v)
    ensures var w := WithoutValues(v);
      && w.localAcceptorId == v.localAcceptorId && w.peerAcceptorId == v.peerAcceptorId
      && w.peer.Some? && (w.local.Some? <==> v.local.Some?)
      && (v.local.Some? ==>
            w.local.value.(value := v.local.value.value, uuids := v.local.value.uuids,
                           hasValueIdOnly := v.local.value.hasValueIdOnly) == v.local.value)
      && w.peer.value.(value := v.peer.value.value, uuids := v.peer.value.uuids,
                       hasValueIdOnly := v.peer.value.hasValueIdOnly) == v.peer.value
      && (v.peer.value.valueId == 0 ==> w == v)
      && (v.peer.value.valueId != 0 ==> w.peer.value.hasValueIdOnly)
      && (v.peer.value.valueId != 0 && !v.peer.value.hasValueIdOnly ==>
            w.peer.value.value == [] && w.peer.value.uuids == [])
      && (v.local.Some? && v.local.value.valueId != v.peer.value.valueId ==> w.local == v.local)
      && CanStrip(w) && WithoutValues(w) == w
  {
    var peer := v.peer.value;
    if peer.valueId != 0 {
      StripIdempotent(peer);
      StripIdempotent(v.local.value);
    }
  }

  /** The header fields shared by every command. */
  class CmdBase {
    var cmdId: U8
    var uuid: U64
    var result: I32
    var entityId: U64
    var entry: U64
    var timestampUs: U64

    constructor(cmdId: U8)
      ensures this.cmdId == cmdId
      ensures uuid == 0 && result == 0 && entityId == 0 && entry == 0 && timestampUs == 0
    {
      this.cmdId := cmdId;
      uuid, result, entityId, entry, timestampUs := 0, 0, 0, 0, 0;
    }

    /** The header carrying this command's identity and result; the
        command kind and the timestamp do not travel. */
    function ToHeader(): (h: CmdHeader)
      reads this
      ensures h.uuid == uuid && h.entityId == entityId && h.entry == entry && h.result == result
    {
      CmdHeader(uuid, entityId, entry, result)
    }

    /** Takes identity and result from a received header; the command kind
        and the local timestamp are not part of the header. */
    method SetFromHeader(header: CmdHeader)
      modifies this
      ensures ToHeader() == header
      ensures cmdId == old(cmdId) && timestampUs == old(timestampUs)
    {
      uuid := header.uuid;
      entityId := header.entityId;
      entry := header.entry;
      result := header.result;
    }
  }

  /** A Paxos message between acceptors, with the worker bookkeeping. */
  class PaxosCmd {
    const base: CmdBase
    var localAcceptorId: U32
    var peerAcceptorId: U32
    var plogLoad: bool
    var plogRangeLoad: bool
    var plogGetRecord: bool
    var plogSetRecord: bool
    var plogReturnMsg: bool
    var checkEmpty: bool
    var catchUp: bool
    var storedValueId: U64
    var localEntryRecord: Option<EntryRecord>
    var peerEntryRecord: Option<EntryRecord>
    var maxCommittedRecord: U64
    var maxChosenEntry: U64

    /** A Paxos command addressed to one entry of one entity. */
    constructor(entityId: U64, entry: U64)
      ensures fresh(base)
      ensures base.cmdId == kCmdPaxos && base.entityId == entityId && base.entry == entry
      ensures base.uuid == 0 && base.result == 0 && base.timestampUs == 0
      ensures View() == AcceptorView(0, 0, None, None)
      ensures Kept() == Bookkeeping(false, false, false, false, false, false, false, 0, 0, 0)
    {
      var b := new CmdBase(kCmdPaxos);
      b.entityId := entityId;
      b.entry := entry;
      base := b;
      localAcceptorId, peerAcceptorId := 0, 0;
      plogLoad, plogRangeLoad, plogGetRecord, plogSetRecord, plogReturnMsg := false, false, false, false, false;
      checkEmpty, catchUp := false, false;
      storedValueId, maxCommittedRecord, maxChosenEntry := 0, 0, 0;
      localEntryRecord, peerEntryRecord := None, None;
    }

    function View(): AcceptorView
      reads this
    {
      AcceptorView(localAcceptorId, peerAcceptorId, localEntryRecord, peerEntryRecord)
    }

    function Kept(): Bookkeeping
      reads this
    {
      Bookkeeping(plogLoad, plogRangeLoad, plogGetRecord, plogSetRecord, plogReturnMsg,
                  checkEmpty, catchUp, storedValueId, maxCommittedRecord, maxChosenEntry)
    }

    /** The wire message, with every field the message carries taken from
        the command. */
    function SerializeToMsg(): (m: PaxosMsg)
      reads this, base
      ensures m.header == base.ToHeader()
      ensures AcceptorView(m.localAcceptorId, m.peerAcceptorId, m.localEntryRecord, m.peerEntryRecord) == View()
      ensures m.maxChosenEntry == maxChosenEntry && m.checkEmpty == checkEmpty && m.catchup == catchUp
    {
      PaxosMsg(base.ToHeader(), localAcceptorId, peerAcceptorId, localEntryRecord, peerEntryRecord,
               maxChosenEntry, checkEmpty, catchUp)
    }

    /** The wire message as coded: the peer acceptor id is never written, so
        it keeps the message default 0. */
    function SerializeToMsgAsWritten(): (m: PaxosMsg)
      reads this, base
      ensures m.peerAcceptorId == 0
      ensures m == SerializeToMsg().(peerAcceptorId := 0)
    {
      PaxosMsg(base.ToHeader(), localAcceptorId, 0, localEntryRecord, peerEntryRecord,
               maxChosenEntry, checkEmpty, catchUp)
    }

    /** As coded, a command parsed from a message with a non-zero peer id
        does not serialize back to that message; only the peer id differs. */
    lemma AsWrittenLosesPeerAcceptorId(msg: PaxosMsg)
      requires SerializeToMsg() == msg && msg.peerAcceptorId != 0
      ensures SerializeToMsgAsWritten() != msg
      ensures SerializeToMsgAsWritten() == msg.(peerAcceptorId := 0)
    {
    }

    /** Takes the message fields; the worker bookkeeping that never travels
        and the command kind and timestamp stay as they were. Serializing
        afterwards gives back the same message. */
    method ParseFromMsg(msg: PaxosMsg)
      modifies this, base
      ensures SerializeToMsg() == msg
      ensures base.cmdId == old(base.cmdId) && base.timestampUs == old(base.timestampUs)
      ensures plogLoad == old(plogLoad) && plogRangeLoad == old(plogRangeLoad)
      ensures plogGetRecord == old(plogGetRecord) && plogSetRecord == old(plogSetRecord)
      ensures plogReturnMsg == old(plogReturnMsg)
      ensures storedValueId == old(storedValueId) && maxCommittedRecord == old(maxCommittedRecord)
    {
      base.SetFromHeader(msg.header);
      localAcceptorId := msg.localAcceptorId;
      peerAcceptorId := msg.peerAcceptorId;
      localEntryRecord := msg.localEntryRecord;
      peerEntryRecord := msg.peerEntryRecord;
      maxChosenEntry := msg.maxChosenEntry;
      checkEmpty := msg.checkEmpty;
      catchUp := msg.catchup;
    }

    /** Turns a received message around so that "local" is this acceptor:
        refused (and nothing changes) unless the message was addressed to
        `localAcceptorId`. */
    method SwitchToLocalView(localAcceptorId: U32) returns (ok: bool)
      modifies this
      ensures ok <==> old(peerAcceptorId) == localAcceptorId
      ensures !ok ==> View() == old(View())
      ensures ok ==> View() == Swapped(old(View())) && this.localAcceptorId == localAcceptorId
      ensures Kept() == old(Kept())
    {
      if peerAcceptorId != localAcceptorId {
        return false;
      }
      this.localAcceptorId, peerAcceptorId := peerAcceptorId, this.localAcceptorId;
      localEntryRecord, peerEntryRecord := peerEntryRecord, localEntryRecord;
      return true;
    }

    /** Strips the payloads before sending, keeping only value ids. */
    method RemoveValueInRecord()
      requires CanStrip(View())
      modifies this
      ensures View() == WithoutValues(old(View()))
      ensures Kept() == old(Kept())
    {
      if peerEntryRecord.value.valueId == 0 {
        return;
      }
      var local, peer := localEntryRecord.value, peerEntryRecord.value;
      if local.valueId == peer.valueId && !local.hasValueIdOnly {
        local := local.(value := [], uuids := [], hasValueIdOnly := true);
      }
      if !peer.hasValueIdOnly {
        peer := peer.(value := [], uuids := [], hasValueIdOnly := true);
      }
      localEntryRecord, peerEntryRecord := Some(local), Some(peer);
    }

    /** Marks (or unmarks) the local record chosen. */
    method SetChosen(value: bool)
      requires localEntryRecord.Some?
      modifies this
      ensures View() == old(View()).(local := Some(old(localEntryRecord.value).(chosen := value)))
      ensures Kept() == old(Kept())
    {
      localEntryRecord := Some(localEntryRecord.value.(chosen := value));
    }
  }

  /** A client request: the header plus the value to propose. */
  class ClientCmd {
    const base: CmdBase
    var valueId: U64
    var timeoutMs: U64
    var value: seq<Byte>
    var uuids: seq<U64>

    /** As coded, the requested command id is ignored: every client command
        is a Paxos command. */
    constructor(cmdId: U8)
      ensures fresh(base) && base.cmdId == kCmdPaxos
      ensures base.uuid == 0 && base.result == 0 && base.entityId == 0 && base.entry == 0
      ensures base.timestampUs == 0
      ensures valueId == 0 && timeoutMs == 0 && value == [] && uuids == []
    {
      base := new CmdBase(kCmdPaxos);
      valueId, timeoutMs, value, uuids := 0, 0, [], [];
    }
  }

  /** The message fields determine everything the message carries: two
      commands that serialize alike agree on header and view. */
  lemma SerializeDeterminesCarriedFields(a: PaxosCmd, b: PaxosCmd)
    requires a.SerializeToMsg() == b.SerializeToMsg()
    ensures a.base.ToHeader() == b.base.ToHeader() && a.View() == b.View()
    ensures a.maxChosenEntry == b.maxChosenEntry && a.checkEmpty == b.checkEmpty && a.catchUp == b.catchUp
  {
  }
}
