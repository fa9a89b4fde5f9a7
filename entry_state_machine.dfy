/** The per-entry Paxos state machine: one record per acceptor held in an
    array, the derived entry state, and the read-path empty flags. Every
    operation is proved against the value-level functions of EntryStateSpec. */
module EntryStateMachines {
  import opened Records
  import opened EntryStateSpec

  class EntryStateMachine {
    const entityId: U64
    const entry: U64
    const acceptorNum: U32
    const localAcceptorId: U32
    const entryRecords: array<EntryRecord>
    const emptyFlags: array<bool>
    var entryState: EntryState

    /** One record and one flag per acceptor, and the local acceptor is one
        of them. */
    predicate Shape() {
      && entryRecords.Length == acceptorNum as int
      && emptyFlags.Length == acceptorNum as int
      && localAcceptorId < acceptorNum
    }

    /** The object invariant: the local record's counters are in the order
        the state computation asserts, the cached state is the one the
        records determine, and the local record is marked chosen exactly
        when the state is Chosen. */
    predicate Valid()
      reads this, entryRecords
    {
      && Shape()
      && CountersOrdered(entryRecords[localAcceptorId])
      && entryState == StateOf(entryRecords[..], localAcceptorId)
      && (entryRecords[localAcceptorId].chosen <==> entryState == Chosen)
    }

    constructor(entityId: U64, entry: U64, acceptorNum: U32, localAcceptorId: U32)
      requires localAcceptorId < acceptorNum
      ensures this.entityId == entityId && this.entry == entry
      ensures this.acceptorNum == acceptorNum && this.localAcceptorId == localAcceptorId
      ensures fresh(entryRecords) && fresh(emptyFlags)
      ensures entryRecords[..] == seq(acceptorNum, _ => EmptyRecord)
      ensures emptyFlags[..] == seq(acceptorNum, _ => false)
      ensures entryState == Normal && Valid()
    {
      this.entityId := entityId;
      this.entry := entry;
      this.acceptorNum := acceptorNum;
      this.localAcceptorId := localAcceptorId;
      entryRecords := new EntryRecord[acceptorNum](_ => EmptyRecord);
      emptyFlags := new bool[acceptorNum](_ => false);
      entryState := Normal;
      new;
    }

    /** The counting loop of the state computation: how many records carry
        `v` in counter `c`. */
    method CountRecordsWith(c: Counter, v: U32) returns (count: nat)
      requires Shape()
      ensures count == CountWith(entryRecords[..], c, v)
      ensures count <= acceptorNum as int
    {
      count := 0;
      var i: U32 := 0;
      while i < acceptorNum
        invariant i <= acceptorNum
        invariant count == CountWith(entryRecords[..i], c, v)
      {
        assert entryRecords[..i + 1][..i] == entryRecords[..i];
        if Num(entryRecords[i], c) == v {
          count := count + 1;
        }
        i := i + 1;
      }
      assert entryRecords[..i] == entryRecords[..];
    }

    /** Recomputes the state from the records; a local value accepted by a
        majority is marked chosen. */
    method CalcEntryState()
      requires Shape() && CountersOrdered(entryRecords[localAcceptorId])
      modifies this, entryRecords
      ensures entryRecords[..] == Settle(old(entryRecords[..]), localAcceptorId)
      ensures entryState == StateOf(old(entryRecords[..]), localAcceptorId)
      ensures Valid()
    {
      ghost var rs := entryRecords[..];
      SettleProperties(rs, localAcceptorId);
      entryState := Normal;
      var record := entryRecords[localAcceptorId];

      if record.chosen {
        entryState := Chosen;
        return;
      }

      if record.acceptedNum > 0 {
        var acceptedCount := CountRecordsWith(Accepted, record.acceptedNum);
        if acceptedCount >= acceptorNum / 2 + 1 {
          entryState := Chosen;
          entryRecords[localAcceptorId] := record.(chosen := true);
          return;
        }
      }

      if record.promisedNum > record.preparedNum {
        entryState := PromiseRemote;
        if record.acceptedNum == record.promisedNum {
          entryState := AcceptRemote;
        } else {
          assert record.acceptedNum < record.promisedNum;
        }
        return;
      }

      assert record.promisedNum == record.preparedNum;
      assert record.acceptedNum <= record.promisedNum;

      if record.promisedNum == 0 {
        entryState := Normal;
        return;
      }

      entryState := PromiseLocal;
      if record.acceptedNum == record.promisedNum {
        entryState := AcceptLocal;
        return;
      }

      var promisedCount := CountRecordsWith(Promised, record.promisedNum);
      if promisedCount >= acceptorNum / 2 + 1 {
        entryState := MajorityPromise;
        return;
      }
    }

    /** The payload and tokens of the first record carrying `valueId`, or
        NotFound. */
    method GetByValueId(valueId: U64) returns (value: seq<Byte>, uuids: seq<U64>, status: Status)
      requires Shape()
      ensures var i := FirstWithValueId(entryRecords[..], valueId);
        if i < acceptorNum as int
        then status == Ok && value == entryRecords[i].value && uuids == entryRecords[i].uuids
        else status == Fail(NotFound) && value == [] && uuids == []
    {
      var i: U32 := 0;
      while i < acceptorNum
        invariant i <= acceptorNum
        invariant forall j :: 0 <= j < i ==> entryRecords[j].valueId != valueId
      {
        if entryRecords[i].valueId == valueId {
          assert entryRecords[..][i].valueId == valueId;
          return entryRecords[i].value, entryRecords[i].uuids, Ok;
        }
        i := i + 1;
      }
      return [], [], Fail(NotFound);
    }

    /** Fills an id-only record with the payload cached under its value id;
        on a miss the record loses its payload and its chosen mark. */
    method RestoreValueInRecord(record: EntryRecord) returns (restored: EntryRecord, status: Status)
      requires Shape() && record.hasValueIdOnly
      ensures (restored, status) == RestoredRecord(entryRecords[..], record)
      ensures !restored.hasValueIdOnly
      ensures restored.valueId == record.valueId && restored.acceptedNum == record.acceptedNum
    {
      restored := record.(hasValueIdOnly := false);
      var value, uuids, err := GetByValueId(record.valueId);
      if err != Ok {
        restored := restored.(chosen := false, value := [], uuids := []);
        return restored, err;
      }
      restored := restored.(value := value, uuids := uuids);
      status := Ok;
    }

    /** The chosen value; only asked for once the local record is chosen. */
    function GetChosenValue(): (v: seq<Byte>)
      reads this, entryRecords
      requires Valid() && entryRecords[localAcceptorId].chosen
      ensures entryState == Chosen
      ensures v == entryRecords[localAcceptorId].value
    {
      entryRecords[localAcceptorId].value
    }

    /** Merges a peer's record. Out-of-range ids, id-only and invalid
        records are refused, a record that is not newer is ignored, and
        otherwise the records become UpdatedRecords of the old ones. */
    method Update(peerAcceptorId: U32, peerRecord: EntryRecord) returns (status: Status)
      requires Valid()
      modifies this, entryRecords
      ensures Valid()
      ensures peerAcceptorId >= acceptorNum ==>
        status == Fail(InvalidAcceptorId) && unchanged(this, entryRecords)
      ensures peerAcceptorId < acceptorNum && UpdateRejects(peerRecord) ==>
        status == Fail(InvalidRecord) && unchanged(this, entryRecords)
      ensures peerAcceptorId < acceptorNum && !UpdateRejects(peerRecord)
              && !IsRecordNewer(old(entryRecords[peerAcceptorId]), peerRecord) ==>
        status == Ok && unchanged(this, entryRecords)
      ensures peerAcceptorId < acceptorNum && !UpdateRejects(peerRecord)
              && IsRecordNewer(old(entryRecords[peerAcceptorId]), peerRecord) ==>
        status == Ok &&
        entryRecords[..] == UpdatedRecords(old(entryRecords[..]), localAcceptorId, peerAcceptorId, peerRecord)
    {
      if peerAcceptorId >= acceptorNum {
        return Fail(InvalidAcceptorId);
      }
      if peerRecord.hasValueIdOnly || !IsValidRecord(peerRecord) {
        return Fail(InvalidRecord);
      }
      if !IsRecordNewer(entryRecords[peerAcceptorId], peerRecord) {
        return Ok;
      }

      ghost var rs := entryRecords[..];
      UpdateRejectsMeaning(peerRecord);
      entryRecords[peerAcceptorId] := peerRecord;

      if peerAcceptorId == localAcceptorId {
        CalcEntryState();
        return Ok;
      }

      if entryState == Chosen {
        assert entryRecords[..] == rs[peerAcceptorId := peerRecord];
        return Ok;
      }

      var record := entryRecords[localAcceptorId];
      if record.promisedNum < peerRecord.promisedNum {
        record := record.(promisedNum := peerRecord.promisedNum);
      }
      if peerRecord.chosen ||
         (record.promisedNum <= peerRecord.acceptedNum && record.acceptedNum < peerRecord.acceptedNum) {
        record := record.(acceptedNum := peerRecord.acceptedNum, chosen := peerRecord.chosen);
        if record.valueId != peerRecord.valueId {
          record := record.(valueId := peerRecord.valueId, value := peerRecord.value, uuids := peerRecord.uuids);
        }
      }
      assert record == MergeLocal(rs[localAcceptorId], peerRecord);
      MergeLocalProperties(rs[localAcceptorId], peerRecord);
      entryRecords[localAcceptorId] := record;
      CalcEntryState();
      status := Ok;
    }

    /** Starts a new ballot: the next proposal number of the local acceptor
        becomes both its prepared and its promised number, and the call
        succeeds exactly when the entry then stands at PromiseLocal. The
        requirement is the counter order the state computation asserts,
        which only a uint32 wrap-around of the new number can break. */
    method Promise(preAuth: bool) returns (status: Status)
      requires Valid()
      requires entryRecords[localAcceptorId].acceptedNum <=
        NextProposalNum(entryRecords[localAcceptorId].promisedNum, acceptorNum, localAcceptorId, preAuth)
      modifies this, entryRecords
      ensures Valid()
      ensures var pn := NextProposalNum(old(entryRecords[localAcceptorId].promisedNum), acceptorNum, localAcceptorId, preAuth);
        && entryRecords[..] == Settle(WithBallot(old(entryRecords[..]), localAcceptorId, pn), localAcceptorId)
        && entryState == StateOf(WithBallot(old(entryRecords[..]), localAcceptorId, pn), localAcceptorId)
      ensures status == Ok <==> entryState == PromiseLocal
      ensures status != Ok ==> status == Fail(InvalidEntryState)
    {
      var record := entryRecords[localAcceptorId];
      var pn := NextProposalNum(record.promisedNum, acceptorNum, localAcceptorId, preAuth);
      entryRecords[localAcceptorId] := record.(preparedNum := pn, promisedNum := pn);
      CalcEntryState();
      if entryState != PromiseLocal {
        return Fail(InvalidEntryState);
      }
      return Ok;
    }

    /** Whether the local proposer may run phase 2: a majority promised our
        ballot, or our ballot is a pre-authorised one. */
    function IsLocalAcceptable(): (b: bool)
      reads this, entryRecords
      requires Valid()
      ensures b <==> entryState == MajorityPromise ||
                     (entryState == PromiseLocal && entryRecords[localAcceptorId].promisedNum <= acceptorNum)
      ensures b ==> var r := entryRecords[localAcceptorId];
        0 < r.preparedNum == r.promisedNum && r.acceptedNum < r.promisedNum
    {
      StateMeaning(entryRecords[..], localAcceptorId);
      entryState == MajorityPromise ||
      (entryState == PromiseLocal && entryRecords[localAcceptorId].promisedNum <= acceptorNum)
    }

    /** The scan of Accept: the first acceptor holding the largest accepted
        number. */
    method SelectMaxAccepted() returns (selected: U32)
      requires Shape() && acceptorNum > 0
      ensures selected as int == LowestMaxAccepted(entryRecords[..])
    {
      ghost var rs := entryRecords[..];
      selected := 0;
      var maxAcceptedNum := entryRecords[0].acceptedNum;
      var i: U32 := 1;
      while i < acceptorNum
        invariant 1 <= i <= acceptorNum
        invariant selected as int == LowestMaxAccepted(rs[..i])
        invariant maxAcceptedNum == rs[selected].acceptedNum
      {
        assert rs[..i + 1][..i] == rs[..i];
        if maxAcceptedNum < entryRecords[i].acceptedNum {
          selected := i;
          maxAcceptedNum := entryRecords[i].acceptedNum;
        }
        i := i + 1;
      }
      assert rs[..i] == rs;
    }

    /** Phase 2 on the local acceptor: accept our promised number with the
        value of the highest accepted record, or with the caller's value when
        nothing was accepted yet (`valueInstalled`). The requirement is the
        post-state assertion: our acceptance must not already complete a
        majority. */
    method Accept(value: seq<Byte>, valueId: U64, uuids: seq<U64>) returns (valueInstalled: bool, status: Status)
      requires Valid()
      requires IsLocalAcceptable() ==> AcceptStaysLocal(entryRecords[..], localAcceptorId)
      modifies this, entryRecords
      ensures Valid()
      ensures !old(IsLocalAcceptable()) ==>
        !valueInstalled && status == Fail(InvalidEntryState) && unchanged(this, entryRecords)
      ensures old(IsLocalAcceptable()) ==>
        && status == Ok && entryState == AcceptLocal
        && valueInstalled == NothingAccepted(old(entryRecords[..]))
        && entryRecords[..] == old(entryRecords[..])[localAcceptorId :=
             AcceptedRecord(old(entryRecords[..]), localAcceptorId, value, valueId, uuids)]
    {
      if entryState != MajorityPromise &&
         !(entryState == PromiseLocal && entryRecords[localAcceptorId].promisedNum <= acceptorNum) {
        return false, Fail(InvalidEntryState);
      }

      ghost var rs := entryRecords[..];
      var record := entryRecords[localAcceptorId];
      var promisedNum := record.promisedNum;
      assert promisedNum > 0;

      var selected := SelectMaxAccepted();
      var maxAcceptedNum := entryRecords[selected].acceptedNum;

      if maxAcceptedNum > 0 {
        var selectedRecord := entryRecords[selected];
        record := record.(acceptedNum := promisedNum, value := selectedRecord.value,
                          valueId := selectedRecord.valueId, uuids := selectedRecord.uuids);
        valueInstalled := false;
      } else {
        record := record.(acceptedNum := promisedNum, value := value, valueId := valueId, uuids := uuids);
        valueInstalled := true;
      }
      entryRecords[localAcceptorId] := record;

      AcceptOutcome(rs, localAcceptorId, value, valueId, uuids);
      CalcEntryState();
      assert entryState == AcceptLocal;
      status := Ok;
    }

    /** Whether the peer promised the local acceptor's own ballot: the peer
        then holds our prepared number as its promise, and the local
        acceptor itself qualifies exactly while its ballot is outstanding. */
    function HasPromisedMyProposal(peerAcceptorId: U32): (b: bool)
      reads this, entryRecords
      requires Shape() && peerAcceptorId < acceptorNum
      ensures b ==> entryRecords[peerAcceptorId].promisedNum == entryRecords[localAcceptorId].preparedNum
      ensures peerAcceptorId == localAcceptorId ==>
        (b <==> entryRecords[localAcceptorId].promisedNum == entryRecords[localAcceptorId].preparedNum)
    {
      entryRecords[localAcceptorId].promisedNum == entryRecords[peerAcceptorId].promisedNum &&
      entryRecords[localAcceptorId].promisedNum == entryRecords[localAcceptorId].preparedNum
    }

    /** Whether the peer accepted the local acceptor's own ballot: the peer
        then holds our prepared number as its accepted number, and the local
        acceptor itself qualifies exactly once it accepted its own ballot. */
    function HasAcceptedMyProposal(peerAcceptorId: U32): (b: bool)
      reads this, entryRecords
      requires Shape() && peerAcceptorId < acceptorNum
      ensures b ==> entryRecords[peerAcceptorId].acceptedNum == entryRecords[localAcceptorId].preparedNum
      ensures peerAcceptorId == localAcceptorId ==>
        (b <==> entryRecords[localAcceptorId].acceptedNum == entryRecords[localAcceptorId].preparedNum)
    {
      entryRecords[localAcceptorId].acceptedNum == entryRecords[peerAcceptorId].acceptedNum &&
      entryRecords[localAcceptorId].acceptedNum == entryRecords[localAcceptorId].preparedNum
    }

    /** While our ballot is outstanding, the entry is at MajorityPromise
        exactly when a majority of acceptors has promised our proposal. */
    lemma MajorityPromiseMeansQuorumOfPromises()
      requires Valid()
      requires entryState == PromiseLocal || entryState == MajorityPromise
      ensures HasPromisedMyProposal(localAcceptorId)
      ensures entryState == MajorityPromise <==>
        |set p: U32 | p < acceptorNum && HasPromisedMyProposal(p)| >= Quorum(acceptorNum as int)
    {
      var rs := entryRecords[..];
      StateMeaning(rs, localAcceptorId);
      CountWithIsCardinality(rs, Promised, rs[localAcceptorId].promisedNum);
      var promisers := set p: U32 | p < acceptorNum && HasPromisedMyProposal(p);
      assert promisers == Carriers(rs, Promised, rs[localAcceptorId].promisedNum);
    }

    /** Once our own ballot is accepted locally, a majority of acceptors
        accepting our proposal means the entry is chosen; while it stands at
        AcceptLocal no such majority exists. */
    lemma QuorumOfAcceptsMeansChosen()
      requires Valid()
      requires 0 < entryRecords[localAcceptorId].acceptedNum == entryRecords[localAcceptorId].preparedNum
      ensures |set p: U32 | p < acceptorNum && HasAcceptedMyProposal(p)| >= Quorum(acceptorNum as int) ==>
        entryState == Chosen
      ensures entryState == AcceptLocal ==>
        |set p: U32 | p < acceptorNum && HasAcceptedMyProposal(p)| < Quorum(acceptorNum as int)
    {
      var rs := entryRecords[..];
      CountWithIsCardinality(rs, Accepted, rs[localAcceptorId].acceptedNum);
      var acceptors := set p: U32 | p < acceptorNum && HasAcceptedMyProposal(p);
      assert acceptors == Carriers(rs, Accepted, rs[localAcceptorId].acceptedNum);
    }

    /** The entry is empty on this acceptor: nothing prepared, promised or
        accepted. */
    function IsLocalEmpty(): (b: bool)
      reads this, entryRecords
      requires Valid()
      ensures b <==> entryState == Normal
      ensures b ==> var r := entryRecords[localAcceptorId];
        r.preparedNum == 0 && r.promisedNum == 0 && r.acceptedNum == 0 && !r.chosen
    {
      StateMeaning(entryRecords[..], localAcceptorId);
      entryState == Normal
    }

    /** Starts an emptiness probe: only the local acceptor counts as empty. */
    method ResetEmptyFlags()
      requires Valid() && entryState == Normal
      modifies emptyFlags
      ensures emptyFlags[..] == seq(acceptorNum, i => i == localAcceptorId as int)
      ensures CountTrue(emptyFlags[..]) == 1
    {
      var i: U32 := 0;
      while i < acceptorNum
        invariant i <= acceptorNum
        invariant forall j :: 0 <= j < i ==> !emptyFlags[j]
      {
        emptyFlags[i] := false;
        i := i + 1;
      }
      emptyFlags[localAcceptorId] := true;
      assert emptyFlags[..] == seq(acceptorNum, i => i == localAcceptorId as int);
      CountTrueSingle(acceptorNum as int, localAcceptorId as int);
    }

    /** Records that a peer reported the entry empty. */
    method SetEmptyFlag(peerAcceptorId: U32)
      requires Shape() && peerAcceptorId < acceptorNum
      modifies emptyFlags
      ensures emptyFlags[..] == old(emptyFlags[..])[peerAcceptorId := true]
      ensures CountTrue(emptyFlags[..]) == CountTrue(old(emptyFlags[..])) + if old(emptyFlags[peerAcceptorId]) then 0 else 1
    {
      CountTrueSet(emptyFlags[..], peerAcceptorId as int);
      emptyFlags[peerAcceptorId] := true;
    }

    /** Whether a strict majority of acceptors reported the entry empty. */
    method IsMajorityEmpty() returns (b: bool)
      requires Shape()
      ensures b <==> CountTrue(emptyFlags[..]) > acceptorNum as int / 2
    {
      var count := 0;
      var i: U32 := 0;
      while i < acceptorNum
        invariant i <= acceptorNum
        invariant count == CountTrue(emptyFlags[..i])
      {
        assert emptyFlags[..i + 1][..i] == emptyFlags[..i];
        if emptyFlags[i] {
          count := count + 1;
        }
        i := i + 1;
      }
      assert emptyFlags[..i] == emptyFlags[..];
      return count > acceptorNum / 2;
    }
  }
}
