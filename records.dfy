/** Per-acceptor entry records of the per-entry Paxos state machine, the
    validity rule a peer record must pass, the "newer record" comparison used
    to ignore stale gossip, and Go's `copy` on slices. */
module Records {

  type U8 = x: int | 0 <= x < 0x100
  type U32 = x: int | 0 <= x < 0x1_0000_0000
  type U64 = x: int | 0 <= x < 0x1_0000_0000_0000_0000
  type I32 = x: int | -0x8000_0000 <= x < 0x8000_0000
  type Byte = x: int | 0 <= x < 0x100

  /** The error values of the paxos package; a Go `nil` error is `Ok`. */
  datatype Error = NotFound | InvalidAcceptorId | InvalidRecord | InvalidEntryState

  datatype Status = Ok | Fail(error: Error)

  /** A value that may be absent: a Go nil pointer, or a fault. */
  datatype Option<T> = None | Some(value: T)

  /** One acceptor's view of one entry: three ballot counters, the value
      handle and payload, the dedup tokens, and two flags. */
  datatype EntryRecord = EntryRecord(
    preparedNum: U32,
    promisedNum: U32,
    acceptedNum: U32,
    valueId: U64,
    value: seq<Byte>,
    uuids: seq<U64>,
    chosen: bool,
    hasValueIdOnly: bool)

  /** The zero record a fresh state machine holds for every acceptor. */
  const EmptyRecord := EntryRecord(0, 0, 0, 0, [], [], false, false)

  /** The ordering of counters that the state computation asserts for the
      local record: our own ballot never exceeds what we promised, and we
      never accepted above what we promised. */
  predicate CountersOrdered(r: EntryRecord) {
    r.preparedNum <= r.promisedNum && r.acceptedNum <= r.promisedNum
  }

  /** Record validity with the counter order the state computation relies
      on (accepted <= promised). This is the corrected rule; see
      IsValidRecordAsWritten for the rule as the code states it. */
  function IsValidRecord(r: EntryRecord): (b: bool)
    ensures b ==> CountersOrdered(r)
    ensures b && r.chosen ==> 0 < r.acceptedNum <= r.promisedNum && r.valueId > 0
  {
    && CountersOrdered(r)
    && (r.acceptedNum == 0 <==> r.valueId == 0)
    && (r.valueId == 0 ==> |r.value| == 0 && |r.uuids| == 0 && !r.chosen)
    && (r.hasValueIdOnly ==> |r.value| == 0 && |r.uuids| == 0)
  }

  /** Record validity exactly as coded: it demands promised <= accepted,
      the reverse of what the state computation asserts. */
  function IsValidRecordAsWritten(r: EntryRecord): (b: bool)
    ensures b ==> r.preparedNum <= r.acceptedNum
    ensures b && r.promisedNum > 0 ==> r.acceptedNum > 0 && r.valueId > 0
  {
    && r.preparedNum <= r.promisedNum
    && r.promisedNum <= r.acceptedNum
    && (r.acceptedNum == 0 <==> r.valueId == 0)
    && (r.valueId == 0 ==> |r.value| == 0 && |r.uuids| == 0 && !r.chosen)
    && (r.hasValueIdOnly ==> |r.value| == 0 && |r.uuids| == 0)
  }

  /** A record is rejected exactly when one of the listed defects is present. */
  lemma ValidRecordDefects(r: EntryRecord)
    ensures !IsValidRecord(r) <==>
      || r.preparedNum > r.promisedNum
      || r.acceptedNum > r.promisedNum
      || (r.acceptedNum == 0 && r.valueId > 0)
      || (r.acceptedNum > 0 && r.valueId == 0)
      || (r.valueId == 0 && (|r.value| > 0 || |r.uuids| > 0 || r.chosen))
      || (r.hasValueIdOnly && (|r.value| > 0 || |r.uuids| > 0))
  {
  }

  /** The all-zero record is valid, and a record that accepted something
      but carries no value handle is not. */
  lemma ValidityExamples(vid: U64)
    ensures IsValidRecord(EmptyRecord)
    ensures !IsValidRecord(EmptyRecord.(promisedNum := 5, acceptedNum := 5))
    ensures vid > 0 ==> IsValidRecord(EmptyRecord.(promisedNum := 5, acceptedNum := 5, valueId := vid))
  {
  }

  /** The coded validity rule has the counter order reversed: it calls a
      plain promise (prepared = promised = 4, nothing accepted) invalid, and
      a record that accepted 5 above its promise 3 valid. */
  lemma AsWrittenValidityReversesOrder()
    ensures var promise := EmptyRecord.(preparedNum := 4, promisedNum := 4);
      IsValidRecord(promise) && !IsValidRecordAsWritten(promise)
    ensures var overAccepted := EmptyRecord.(promisedNum := 3, acceptedNum := 5, valueId := 7);
      IsValidRecordAsWritten(overAccepted) && !IsValidRecord(overAccepted) && !CountersOrdered(overAccepted)
  {
  }

  /** Whether Update refuses a peer record with InvalidRecord: id-only
      records and invalid records are refused. This is the intended guard;
      UpdateRejectsAsWritten is the guard as coded. */
  predicate UpdateRejects(peer: EntryRecord) {
    peer.hasValueIdOnly || !IsValidRecord(peer)
  }

  /** The guard as coded: it refuses a record when the (as-written) validity
      check SUCCEEDS, the inverse of its evident purpose. */
  predicate UpdateRejectsAsWritten(peer: EntryRecord) {
    peer.hasValueIdOnly || IsValidRecordAsWritten(peer)
  }

  /** A peer's reply to our accept (it promised and accepted our number 4
      with value id 7) is a well-formed record, yet the coded guard refuses
      it, while the intended guard lets it through. A promise reply (nothing
      accepted) passes both. */
  lemma UpdateGuardRejectsAcceptReply()
    ensures var acceptReply := EmptyRecord.(promisedNum := 4, acceptedNum := 4, valueId := 7);
      && IsValidRecord(acceptReply)
      && UpdateRejectsAsWritten(acceptReply)
      && !UpdateRejects(acceptReply)
    ensures var promiseReply := EmptyRecord.(promisedNum := 4);
      && !UpdateRejectsAsWritten(promiseReply)
      && !UpdateRejects(promiseReply)
  {
  }

  /** The coded guard lets through records whose counters violate the order
      the state computation asserts, e.g. prepared 5 above promised 3. */
  lemma AsWrittenGuardAdmitsDisorderedRecord()
    ensures var r := EmptyRecord.(preparedNum := 5, promisedNum := 3);
      !UpdateRejectsAsWritten(r) && !CountersOrdered(r) && UpdateRejects(r)
  {
  }

  /** The intended guard admits exactly the valid, payload-carrying records,
      so every admitted record has its counters in the asserted order. */
  lemma UpdateRejectsMeaning(peer: EntryRecord)
    ensures !UpdateRejects(peer) <==> IsValidRecord(peer) && !peer.hasValueIdOnly
    ensures !UpdateRejects(peer) ==> CountersOrdered(peer)
  {
  }

  /** Whether `newRecord` should replace `oldRecord`: a chosen record is
      final, a chosen newcomer always wins, otherwise some counter must have
      grown. */
  function IsRecordNewer(oldRecord: EntryRecord, newRecord: EntryRecord): (b: bool)
    ensures b ==> !oldRecord.chosen && oldRecord != newRecord
    ensures !oldRecord.chosen && newRecord.chosen ==> b
  {
    if oldRecord.chosen then false
    else if newRecord.chosen then true
    else
      newRecord.preparedNum > oldRecord.preparedNum ||
      newRecord.promisedNum > oldRecord.promisedNum ||
      newRecord.acceptedNum > oldRecord.acceptedNum
  }

  /** Re-delivering a record never counts as news, so a repeated update is
      a no-op; and a record that is newer than the stored one is never
      older in every counter. */
  lemma {:induction false} NewerIsIrreflexiveAndProgressive(a: EntryRecord, b: EntryRecord)
    ensures !IsRecordNewer(a, a)
    ensures IsRecordNewer(a, b) ==> !a.chosen
    ensures IsRecordNewer(a, b) && !b.chosen ==>
      !(b.preparedNum <= a.preparedNum && b.promisedNum <= a.promisedNum && b.acceptedNum <= a.acceptedNum)
    ensures IsRecordNewer(a, b) && IsRecordNewer(b, a) ==> !a.chosen && !b.chosen
  {
  }

  /** Go's `copy(dst, src)`: overwrites the first min(len(dst), len(src))
      elements of `dst` and keeps its length. */
  function GoCopy(dst: seq<U64>, src: seq<U64>): (r: seq<U64>)
    ensures |r| == |dst|
    ensures forall i :: 0 <= i < |r| ==> r[i] == if i < |src| then src[i] else dst[i]
  {
    var k := if |dst| < |src| then |dst| else |src|;
    src[..k] + dst[k..]
  }

  /** Copying into a shorter slice loses tokens: into a nil slice it copies
      nothing at all. */
  lemma GoCopyLosesTokens(dst: seq<U64>, src: seq<U64>)
    requires |dst| < |src|
    ensures GoCopy(dst, src) != src
    ensures dst == [] ==> GoCopy(dst, src) == []
  {
  }
}
