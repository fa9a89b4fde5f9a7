/** The value-level specification of the per-entry Paxos state machine: the
    seven-way state classification, quorum counting, ballot generation, the
    max-accepted selection of phase 2, the merge of a peer record into the
    local one, and the value-id lookup. The class in
    entry_state_machine.dfy is proved against these functions. */
module EntryStateSpec {
  import opened Records

  datatype EntryState =
    | Normal
    | PromiseLocal
    | PromiseRemote
    | MajorityPromise
    | AcceptRemote
    | AcceptLocal
    | Chosen

  /** Smallest strict majority of `n` acceptors. */
  function Quorum(n: nat): nat {
    n / 2 + 1
  }

  /** The three ballot counters of a record. */
  datatype Counter = Prepared | Promised | Accepted

  function Num(r: EntryRecord, c: Counter): U32 {
    match c
    case Prepared => r.preparedNum
    case Promised => r.promisedNum
    case Accepted => r.acceptedNum
  }

  /** Number of records whose counter `c` equals `v`. */
  function CountWith(rs: seq<EntryRecord>, c: Counter, v: int): (k: nat)
    ensures k <= |rs|
  {
    if rs == [] then 0
    else
      var k := CountWith(rs[..|rs| - 1], c, v);
      k + if Num(rs[|rs| - 1], c) == v then 1 else 0
  }

  /** Replacing one record changes the count by what leaves and what enters. */
  lemma {:induction false} CountWithUpdate(rs: seq<EntryRecord>, i: nat, r: EntryRecord, c: Counter, v: int)
    requires i < |rs|
    ensures CountWith(rs[i := r], c, v) + (if Num(rs[i], c) == v then 1 else 0)
         == CountWith(rs, c, v) + (if Num(r, c) == v then 1 else 0)
  {
    var last := |rs| - 1;
    var rs' := rs[i := r];
    if i == last {
      assert rs'[..last] == rs[..last];
    } else {
      assert rs'[..last] == rs[..last][i := r];
      CountWithUpdate(rs[..last], i, r, c, v);
    }
  }

  /** The acceptor ids whose counter `c` carries `v`. */
  function Carriers(rs: seq<EntryRecord>, c: Counter, v: int): set<nat> {
    set i: nat | i < |rs| && Num(rs[i], c) == v
  }

  /** The carriers of a sequence are those of its front plus possibly the
      last index. */
  lemma CarriersStep(rs: seq<EntryRecord>, c: Counter, v: int)
    requires rs != []
    ensures var last := |rs| - 1;
      && last !in Carriers(rs[..last], c, v)
      && Carriers(rs, c, v) == Carriers(rs[..last], c, v) + (if Num(rs[last], c) == v then {last} else {})
  {
    var last := |rs| - 1;
    var front := rs[..last];
    assert forall i :: 0 <= i < last ==> front[i] == rs[i];
  }

  /** The count is the number of acceptor ids whose counter carries `v`. */
  lemma {:induction false} CountWithIsCardinality(rs: seq<EntryRecord>, c: Counter, v: int)
    ensures CountWith(rs, c, v) == |Carriers(rs, c, v)|
  {
    if rs != [] {
      CountWithIsCardinality(rs[..|rs| - 1], c, v);
      CarriersStep(rs, c, v);
    }
  }

  /** Records counted for two different numbers are disjoint. */
  lemma {:induction false} CountWithDisjoint(rs: seq<EntryRecord>, c: Counter, a: int, b: int)
    requires a != b
    ensures CountWith(rs, c, a) + CountWith(rs, c, b) <= |rs|
  {
    if rs != [] {
      CountWithDisjoint(rs[..|rs| - 1], c, a, b);
    }
  }

  /** Two quorums on the same counter agree: at most one accepted number
      (or promised number) can be shared by a majority of the records. */
  lemma QuorumNumberUnique(rs: seq<EntryRecord>, c: Counter, a: int, b: int)
    requires CountWith(rs, c, a) >= Quorum(|rs|)
    requires CountWith(rs, c, b) >= Quorum(|rs|)
    ensures a == b
  {
    if a != b {
      CountWithDisjoint(rs, c, a, b);
    }
  }

  /** Whether the local record's accepted number is shared by a majority. */
  predicate MajorityAccepted(rs: seq<EntryRecord>, local: nat)
    requires local < |rs|
  {
    rs[local].acceptedNum > 0 && CountWith(rs, Accepted, rs[local].acceptedNum) >= Quorum(|rs|)
  }

  /** The state of the entry as derived from the records, local record first:
      chosen dominates, a foreign higher promise pre-empts our proposal, and
      otherwise the progress of our own ballot decides. */
  function StateOf(rs: seq<EntryRecord>, local: nat): EntryState
    requires local < |rs|
  {
    var r := rs[local];
    if r.chosen || MajorityAccepted(rs, local) then Chosen
    else if r.promisedNum > r.preparedNum then
      (if r.acceptedNum == r.promisedNum then AcceptRemote else PromiseRemote)
    else if r.promisedNum == 0 then Normal
    else if r.acceptedNum == r.promisedNum then AcceptLocal
    else if CountWith(rs, Promised, r.promisedNum) >= Quorum(|rs|) then MajorityPromise
    else PromiseLocal
  }

  /** What each state means for the local record. */
  lemma StateMeaning(rs: seq<EntryRecord>, local: nat)
    requires local < |rs| && CountersOrdered(rs[local])
    ensures var r, s := rs[local], StateOf(rs, local);
      && (s == Normal ==> r.preparedNum == r.promisedNum == r.acceptedNum == 0 && !r.chosen)
      && (s == AcceptLocal ==> 0 < r.preparedNum == r.promisedNum == r.acceptedNum)
      && (s == MajorityPromise ==>
            0 < r.preparedNum == r.promisedNum && r.acceptedNum < r.promisedNum
            && CountWith(rs, Promised, r.promisedNum) >= Quorum(|rs|))
      && (s == PromiseLocal ==>
            0 < r.preparedNum == r.promisedNum && r.acceptedNum < r.promisedNum
            && CountWith(rs, Promised, r.promisedNum) < Quorum(|rs|))
      && (s == PromiseRemote || s == AcceptRemote ==> r.preparedNum < r.promisedNum)
      && (s == Chosen <==> r.chosen || MajorityAccepted(rs, local))
  {
  }

  /** The records after the state computation: a majority-accepted local
      record is marked chosen, nothing else changes. */
  function Settle(rs: seq<EntryRecord>, local: nat): (rs': seq<EntryRecord>)
    requires local < |rs|
    ensures |rs'| == |rs|
    ensures forall i :: 0 <= i < |rs| && i != local ==> rs'[i] == rs[i]
  {
    if !rs[local].chosen && MajorityAccepted(rs, local)
    then rs[local := rs[local].(chosen := true)]
    else rs
  }

  /** Settling keeps the state, marks the local record chosen exactly when
      the state is Chosen, and changes no counter, value or peer record. */
  lemma SettleProperties(rs: seq<EntryRecord>, local: nat)
    requires local < |rs|
    ensures var rs' := Settle(rs, local);
      && StateOf(rs', local) == StateOf(rs, local)
      && (rs'[local].chosen <==> StateOf(rs, local) == Chosen)
      && rs'[local] == rs[local].(chosen := rs'[local].chosen)
  {
  }

  // ---------------------------------------------------------------------
  // Ballot generation (Promise)

  /** Truncation to uint32, as Go's unsigned arithmetic does. */
  function Wrap32(x: int): U32 {
    x % 0x1_0000_0000
  }

  /** The proposal number Promise generates, in uint32 arithmetic: round the
      promised number up to a multiple of `n`, add `id + 1`, and add one more
      round when not pre-authorised and the number fell in the pre-auth band. */
  function NextProposalNum(pn: U32, n: U32, id: U32, preAuth: bool): U32
    requires n > 0
  {
    var rounded := RoundUp32(pn, n);
    var candidate := Wrap32(rounded + id + 1);
    if !preAuth && candidate <= n then Wrap32(candidate + n) else candidate
  }

  /** `pn` rounded up to a multiple of `n`, in uint32 arithmetic. */
  function RoundUp32(pn: U32, n: U32): U32
    requires n > 0
  {
    Wrap32(Wrap32(pn + n - 1) / n * n)
  }

  /** The computation of NextProposalNum stays below 2^32. */
  predicate NoBallotOverflow(pn: int, n: int) {
    pn + 2 * n < 0x1_0000_0000
  }

  lemma RoundUpBounds(pn: nat, n: nat)
    requires n > 0
    ensures pn <= (pn + n - 1) / n * n <= pn + n - 1
    ensures ((pn + n - 1) / n * n) % n == 0
  {
    var q, m := (pn + n - 1) / n, (pn + n - 1) % n;
    assert pn + n - 1 == q * n + m;
    DivModUnique(q * n, q, 0, n);
  }

  lemma {:induction false} MulLe(a: nat, b: nat, n: nat)
    requires a <= b
    ensures a * n <= b * n
  {
    if a < b {
      MulLe(a, b - 1, n);
      assert b * n == (b - 1) * n + n;
    }
  }

  /** Euclidean division is unique: a quotient and a remainder below `n`
      that rebuild `x` are the ones `/` and `%` compute. */
  lemma DivModUnique(x: nat, q: nat, r: nat, n: nat)
    requires n > 0 && r < n && x == q * n + r
    ensures x / n == q && x % n == r
  {
    var q', r' := x / n, x % n;
    assert x == q' * n + r';
    if q' < q {
      MulLe(q' + 1, q, n);
    } else if q' > q {
      MulLe(q + 1, q', n);
    }
  }

  lemma MultiplePlusMod(m: nat, k: nat, n: nat)
    requires n > 0 && m % n == 0
    ensures (m + k) % n == k % n
  {
    var q := m / n;
    assert m == q * n;
    var d, e := k / n, k % n;
    assert k == d * n + e;
    assert m + k == (q + d) * n + e;
    DivModUnique(m + k, q + d, e, n);
  }

  /** Without overflow the round-up does not wrap: it is the least multiple
      of `n` not below `pn`. */
  lemma RoundUp32Exact(pn: U32, n: U32)
    requires 0 < n && NoBallotOverflow(pn, n)
    ensures pn <= RoundUp32(pn, n) <= pn + n - 1
    ensures RoundUp32(pn, n) % n == 0
  {
    RoundUpBounds(pn, n);
    assert Wrap32(pn + n - 1) == pn + n - 1;
  }

  lemma RoundUp32Bounds(pn: U32, n: U32)
    requires 0 < n && NoBallotOverflow(pn, n)
    ensures pn <= RoundUp32(pn, n) <= pn + n - 1
  {
    RoundUp32Exact(pn, n);
  }

  /** Without overflow no step of NextProposalNum wraps: it is the
      round-up plus `id + 1`, bumped by `n` when not pre-authorised and
      inside the pre-auth band. */
  lemma NextProposalNumExact(pn: U32, n: U32, id: U32, preAuth: bool)
    requires 0 < n && id < n && NoBallotOverflow(pn, n)
    ensures var c := RoundUp32(pn, n) + id + 1;
      && pn < c < pn + 2 * n
      && NextProposalNum(pn, n, id, preAuth) == if !preAuth && c <= n then c + n else c
  {
    RoundUp32Bounds(pn, n);
    var rounded := RoundUp32(pn, n);
    var c := rounded + id + 1;
    assert pn < c < pn + 2 * n;
    Wrap32Small(c);
    assert NextProposalNum(pn, n, id, preAuth) == if !preAuth && c <= n then Wrap32(c + n) else c;
    if !preAuth && c <= n {
      Wrap32Small(c + n);
    }
  }

  lemma Wrap32Small(x: int)
    requires 0 <= x < 0x1_0000_0000
    ensures Wrap32(x) == x
  {
  }

  /** Without overflow the new number is strictly above the old promise,
      carries the acceptor's residue `id + 1` modulo `n`, and lies above the
      pre-auth band unless pre-authorised. */
  lemma {:induction false} NextProposalNumProperties(pn: U32, n: U32, id: U32, preAuth: bool)
    requires 0 < n && id < n && NoBallotOverflow(pn, n)
    ensures var r := NextProposalNum(pn, n, id, preAuth);
      && pn < r <= pn + 2 * n
      && r % n == (id + 1) % n
      && (!preAuth ==> r > n)
      && (r <= n ==> preAuth)
  {
    NextProposalNumExact(pn, n, id, preAuth);
    RoundUp32Exact(pn, n);
    var rounded := RoundUp32(pn, n);
    var candidate := rounded + id + 1;
    MultiplePlusMod(rounded, id + 1, n);
    if !preAuth && candidate <= n {
      assert (rounded + n) % n == 0 by { MultiplePlusMod(rounded, n, n); }
      MultiplePlusMod(rounded + n, id + 1, n);
      assert candidate + n == (rounded + n) + (id + 1);
    }
  }

  /** Two different acceptors never generate the same proposal number,
      whatever numbers they start from. */
  lemma BallotsDistinctAcrossAcceptors(pn1: U32, pn2: U32, n: U32, i: U32, j: U32, auth1: bool, auth2: bool)
    requires 0 < n && i < n && j < n && i != j
    requires NoBallotOverflow(pn1, n) && NoBallotOverflow(pn2, n)
    ensures NextProposalNum(pn1, n, i, auth1) != NextProposalNum(pn2, n, j, auth2)
  {
    NextProposalNumProperties(pn1, n, i, auth1);
    NextProposalNumProperties(pn2, n, j, auth2);
    ResidueDistinct(i, j, n);
  }

  lemma ResidueDistinct(i: nat, j: nat, n: nat)
    requires i < n && j < n && i != j
    ensures (i + 1) % n != (j + 1) % n
  {
    if i + 1 < n { DivModUnique(i + 1, 0, i + 1, n); } else { DivModUnique(i + 1, 1, 0, n); }
    if j + 1 < n { DivModUnique(j + 1, 0, j + 1, n); } else { DivModUnique(j + 1, 1, 0, n); }
  }

  /** With overflow the number wraps around and falls below the old promise. */
  lemma BallotWrapsAtLimit()
    ensures NextProposalNum(0xFFFF_FFFF, 3, 0, true) == 1
  {
  }

  /** At the wrap, distinct acceptors can generate the same number: with
      three acceptors, acceptor 0 from promise 0 and acceptor 1 from promise
      2^32-3 both generate 1. */
  lemma BallotsCollideAtWrap()
    ensures !NoBallotOverflow(0xFFFF_FFFD, 3)
    ensures NextProposalNum(0, 3, 0, true) == 1 == NextProposalNum(0xFFFF_FFFD, 3, 1, true)
  {
  }

  /** The records after Promise has written the new number `pn` into the
      local record's prepared and promised counters. */
  function WithBallot(rs: seq<EntryRecord>, local: nat, pn: U32): seq<EntryRecord>
    requires local < |rs|
  {
    rs[local := rs[local].(preparedNum := pn, promisedNum := pn)]
  }

  /** Promise reaches PromiseLocal exactly when the entry was not chosen
      and our fresh number is not already shared by a majority. */
  lemma PromiseOutcome(rs: seq<EntryRecord>, local: nat, pn: U32)
    requires local < |rs| && rs[local].acceptedNum < pn
    ensures StateOf(WithBallot(rs, local, pn), local) == PromiseLocal <==>
      && !(rs[local].chosen || MajorityAccepted(rs, local))
      && CountWith(WithBallot(rs, local, pn), Promised, pn) < Quorum(|rs|)
  {
    var r' := rs[local].(preparedNum := pn, promisedNum := pn);
    CountWithUpdate(rs, local, r', Accepted, rs[local].acceptedNum);
  }

  /** With a single acceptor its own promise is already a majority, so
      Promise can never end in PromiseLocal and always reports an error. */
  lemma SingleAcceptorPromiseFails(rs: seq<EntryRecord>, pn: U32)
    requires |rs| == 1 && rs[0].acceptedNum < pn
    ensures StateOf(WithBallot(rs, 0, pn), 0) != PromiseLocal
  {
    var rs' := WithBallot(rs, 0, pn);
    assert rs'[..0] == [];
    assert CountWith(rs', Promised, pn) == 1;
  }

  /** With at least two acceptors and no peer holding our number, a promise
      on an unchosen entry succeeds. */
  lemma PromiseSucceedsWhenUncontended(rs: seq<EntryRecord>, local: nat, pn: U32)
    requires |rs| >= 2 && local < |rs| && rs[local].acceptedNum < pn
    requires !(rs[local].chosen || MajorityAccepted(rs, local))
    requires forall i :: 0 <= i < |rs| && i != local ==> rs[i].promisedNum != pn
    ensures StateOf(WithBallot(rs, local, pn), local) == PromiseLocal
  {
    var rs' := WithBallot(rs, local, pn);
    var r' := rs'[local];
    CountWithUpdate(rs, local, r', Promised, pn);
    assert CountWith(rs, Promised, pn) == (if rs[local].promisedNum == pn then 1 else 0) by {
      CountOnlyAt(rs, local, Promised, pn);
    }
    PromiseOutcome(rs, local, pn);
  }

  /** No record carrying `v` means a zero count. */
  lemma {:induction false} CountWithNone(rs: seq<EntryRecord>, c: Counter, v: int)
    requires forall j :: 0 <= j < |rs| ==> Num(rs[j], c) != v
    ensures CountWith(rs, c, v) == 0
  {
    if rs != [] {
      CountWithNone(rs[..|rs| - 1], c, v);
    }
  }

  /** If only record `i` can carry `v`, it is counted at most once. */
  lemma {:induction false} CountOnlyAt(rs: seq<EntryRecord>, i: nat, c: Counter, v: int)
    requires i < |rs|
    requires forall j :: 0 <= j < |rs| && j != i ==> Num(rs[j], c) != v
    ensures CountWith(rs, c, v) == if Num(rs[i], c) == v then 1 else 0
  {
    var last := |rs| - 1;
    if i == last {
      CountWithNone(rs[..last], c, v);
    } else {
      CountOnlyAt(rs[..last], i, c, v);
    }
  }

  // ---------------------------------------------------------------------
  // Phase 2 (Accept)

  /** Index of the first record with the largest accepted number. */
  function LowestMaxAccepted(rs: seq<EntryRecord>): (k: nat)
    requires |rs| > 0
    ensures k < |rs|
    ensures forall j :: 0 <= j < |rs| ==> rs[j].acceptedNum <= rs[k].acceptedNum
    ensures forall j :: 0 <= j < k ==> rs[j].acceptedNum < rs[k].acceptedNum
  {
    if |rs| == 1 then 0
    else
      var k := LowestMaxAccepted(rs[..|rs| - 1]);
      assert forall j :: 0 <= j < |rs| - 1 ==> rs[..|rs| - 1][j] == rs[j];
      if rs[k].acceptedNum < rs[|rs| - 1].acceptedNum then |rs| - 1 else k
  }

  /** The local record after a successful Accept: it accepts its promised
      number, re-proposing the value of the highest accepted record when any
      record has accepted something and installing the caller's otherwise. */
  function AcceptedRecord(rs: seq<EntryRecord>, local: nat, value: seq<Byte>, valueId: U64, uuids: seq<U64>): EntryRecord
    requires local < |rs|
  {
    var top := rs[LowestMaxAccepted(rs)];
    var r := rs[local].(acceptedNum := rs[local].promisedNum);
    if top.acceptedNum > 0
    then r.(value := top.value, valueId := top.valueId, uuids := top.uuids)
    else r.(value := value, valueId := valueId, uuids := uuids)
  }

  /** Whether no record has accepted anything, i.e. the caller's value gets
      installed. */
  predicate NothingAccepted(rs: seq<EntryRecord>) {
    forall i :: 0 <= i < |rs| ==> rs[i].acceptedNum == 0
  }

  /** Paxos safety of the selection: once any record has accepted a value,
      and every accepted record carries the same value, Accept re-proposes
      that value and ignores the caller's. */
  lemma AcceptReproposesAcceptedValue(rs: seq<EntryRecord>, local: nat, value: seq<Byte>, valueId: U64, uuids: seq<U64>,
                                      v: seq<Byte>, vid: U64)
    requires local < |rs| && !NothingAccepted(rs)
    requires forall i :: 0 <= i < |rs| && rs[i].acceptedNum > 0 ==> rs[i].value == v && rs[i].valueId == vid
    ensures AcceptedRecord(rs, local, value, valueId, uuids).value == v
    ensures AcceptedRecord(rs, local, value, valueId, uuids).valueId == vid
  {
    var i :| 0 <= i < |rs| && rs[i].acceptedNum != 0;
    var k := LowestMaxAccepted(rs);
    assert rs[k].acceptedNum >= rs[i].acceptedNum > 0;
  }

  /** The count of records that would accept our number after the local
      record accepts it, which the post-state assertion of Accept requires to
      stay below a quorum. */
  predicate AcceptStaysLocal(rs: seq<EntryRecord>, local: nat)
    requires local < |rs|
  {
    CountWith(rs, Accepted, rs[local].promisedNum) + 1 < Quorum(|rs|)
  }

  /** From MajorityPromise or PromiseLocal, accepting our own number yields
      AcceptLocal exactly when no quorum accepts that number afterwards. */
  lemma AcceptOutcome(rs: seq<EntryRecord>, local: nat, value: seq<Byte>, valueId: U64, uuids: seq<U64>)
    requires local < |rs| && CountersOrdered(rs[local])
    requires StateOf(rs, local) == MajorityPromise || StateOf(rs, local) == PromiseLocal
    ensures var rs' := rs[local := AcceptedRecord(rs, local, value, valueId, uuids)];
      && CountersOrdered(rs'[local])
      && (StateOf(rs', local) == AcceptLocal <==> AcceptStaysLocal(rs, local))
      && (!AcceptStaysLocal(rs, local) ==> StateOf(rs', local) == Chosen)
  {
    var r' := AcceptedRecord(rs, local, value, valueId, uuids);
    CountWithUpdate(rs, local, r', Accepted, rs[local].promisedNum);
  }

  /** The local record after Accept as coded: `copy` into the local
      record's uuid slice keeps only as many tokens as that slice already
      had. */
  function AcceptedRecordAsWritten(rs: seq<EntryRecord>, local: nat, value: seq<Byte>, valueId: U64, uuids: seq<U64>): EntryRecord
    requires local < |rs|
  {
    var top := rs[LowestMaxAccepted(rs)];
    var r := rs[local].(acceptedNum := rs[local].promisedNum);
    if top.acceptedNum > 0
    then r.(value := top.value, valueId := top.valueId, uuids := GoCopy(rs[local].uuids, top.uuids))
    else r.(value := value, valueId := valueId, uuids := GoCopy(rs[local].uuids, uuids))
  }

  /** A freshly prepared local record holds no tokens, so as coded Accept
      installs the caller's value without the caller's dedup tokens, while
      the intended record carries them. */
  lemma AcceptAsWrittenDropsCallerTokens(rs: seq<EntryRecord>, local: nat, value: seq<Byte>, valueId: U64, uuids: seq<U64>)
    requires local < |rs| && NothingAccepted(rs) && rs[local].uuids == [] && uuids != []
    ensures AcceptedRecordAsWritten(rs, local, value, valueId, uuids).uuids == []
    ensures AcceptedRecord(rs, local, value, valueId, uuids).uuids == uuids
  {
    assert rs[LowestMaxAccepted(rs)].acceptedNum == 0;
  }

  /** With a single acceptor, accepting always reaches a majority at once,
      so the post-state is Chosen rather than AcceptLocal. */
  lemma SingleAcceptorAcceptIsChosen(rs: seq<EntryRecord>)
    requires |rs| == 1
    ensures !AcceptStaysLocal(rs, 0)
  {
  }

  // ---------------------------------------------------------------------
  // Update (merging a peer record into the local one)

  /** The local record after merging a newer peer record: raise the promise
      to the peer's, and adopt the peer's acceptance when the peer is chosen
      or its acceptance is at least our promise and newer than ours. */
  function MergeLocal(local: EntryRecord, peer: EntryRecord): EntryRecord {
    var promised := if local.promisedNum < peer.promisedNum then peer.promisedNum else local.promisedNum;
    var r := local.(promisedNum := promised);
    if peer.chosen || (promised <= peer.acceptedNum && local.acceptedNum < peer.acceptedNum) then
      var r2 := r.(acceptedNum := peer.acceptedNum, chosen := peer.chosen);
      if r2.valueId != peer.valueId
      then r2.(valueId := peer.valueId, value := peer.value, uuids := peer.uuids)
      else r2
    else r
  }

  /** The merge never lowers the promise or touches our own ballot, adopts
      a chosen peer's acceptance, and keeps the local counters ordered when
      the peer record is valid. */
  lemma MergeLocalProperties(local: EntryRecord, peer: EntryRecord)
    ensures var m := MergeLocal(local, peer);
      && m.promisedNum >= local.promisedNum && m.promisedNum >= peer.promisedNum
      && (m.promisedNum == local.promisedNum || m.promisedNum == peer.promisedNum)
      && m.preparedNum == local.preparedNum
      && m.hasValueIdOnly == local.hasValueIdOnly
      && (peer.chosen ==> m.chosen && m.acceptedNum == peer.acceptedNum && m.valueId == peer.valueId)
      && (m.acceptedNum != local.acceptedNum ==> m.acceptedNum == peer.acceptedNum)
      && (!peer.chosen ==> m.acceptedNum >= local.acceptedNum)
      && (CountersOrdered(local) && IsValidRecord(peer) ==> CountersOrdered(m))
  {
  }

  /** The records after Update has accepted a newer peer record: the peer's
      slot takes the record; a self-update only re-derives the state; a
      chosen entry keeps its local record; otherwise the local record merges
      the peer's and the state is re-derived. */
  function UpdatedRecords(rs: seq<EntryRecord>, local: nat, peerId: nat, peer: EntryRecord): seq<EntryRecord>
    requires local < |rs| && peerId < |rs|
  {
    var rs1 := rs[peerId := peer];
    if peerId == local then Settle(rs1, local)
    else if StateOf(rs, local) == Chosen then rs1
    else Settle(rs1[local := MergeLocal(rs1[local], peer)], local)
  }

  /** Update never regresses: a chosen entry stays chosen with its local
      record untouched, only the addressed slot and the local record can
      change, the local promise never drops, and the asserted counter order
      of the local record is kept. */
  lemma {:induction false} UpdatedRecordsProperties(rs: seq<EntryRecord>, local: nat, peerId: nat, peer: EntryRecord)
    requires local < |rs| && peerId < |rs|
    requires CountersOrdered(rs[local]) && !UpdateRejects(peer) && IsRecordNewer(rs[peerId], peer)
    requires rs[local].chosen <==> StateOf(rs, local) == Chosen
    ensures var rs' := UpdatedRecords(rs, local, peerId, peer);
      && |rs'| == |rs|
      && (forall i :: 0 <= i < |rs| && i != local && i != peerId ==> rs'[i] == rs[i])
      && (peerId != local ==> rs'[peerId] == peer)
      && CountersOrdered(rs'[local])
      && (rs'[local].chosen <==> StateOf(rs', local) == Chosen)
      && (StateOf(rs, local) == Chosen ==> StateOf(rs', local) == Chosen && rs'[local] == rs[local])
      && (peerId != local ==> rs'[local].promisedNum >= rs[local].promisedNum)
      && (peerId != local && peer.chosen ==> StateOf(rs', local) == Chosen)
  {
    UpdateRejectsMeaning(peer);
    var rs1 := rs[peerId := peer];
    if peerId == local {
      SettleProperties(rs1, local);
    } else if StateOf(rs, local) == Chosen {
      assert rs1[local] == rs[local];
      assert StateOf(rs1, local) == Chosen;
    } else {
      MergeLocalProperties(rs1[local], peer);
      SettleProperties(rs1[local := MergeLocal(rs1[local], peer)], local);
    }
  }

  // ---------------------------------------------------------------------
  // Value indirection

  /** Index of the first record carrying value id `vid`, or |rs| if none. */
  function FirstWithValueId(rs: seq<EntryRecord>, vid: int): (i: nat)
    ensures i <= |rs|
    ensures i < |rs| ==> rs[i].valueId == vid
    ensures forall j :: 0 <= j < i ==> rs[j].valueId != vid
  {
    if rs == [] then 0
    else if rs[0].valueId == vid then 0
    else 1 + FirstWithValueId(rs[1..], vid)
  }

  /** GetByValueId as coded: the payload of the first record with the id,
      but the uuids copied into a nil slice, which keeps none of them. */
  function LookupByValueIdAsWritten(rs: seq<EntryRecord>, vid: U64): (seq<Byte>, seq<U64>, Status) {
    var i := FirstWithValueId(rs, vid);
    if i < |rs| then (rs[i].value, GoCopy([], rs[i].uuids), Ok) else ([], [], Fail(NotFound))
  }

  /** As coded, a hit never returns the record's tokens. */
  lemma LookupAsWrittenDropsTokens(rs: seq<EntryRecord>, vid: U64)
    requires FirstWithValueId(rs, vid) < |rs|
    ensures LookupByValueIdAsWritten(rs, vid).1 == []
    ensures rs[FirstWithValueId(rs, vid)].uuids != [] ==>
      LookupByValueIdAsWritten(rs, vid).1 != rs[FirstWithValueId(rs, vid)].uuids
  {
  }

  /** A record restored from the cached records: the payload of the first
      record with the same value id, or, on a miss, no payload, not chosen,
      and NotFound. The id-only flag is cleared either way. */
  function RestoredRecord(rs: seq<EntryRecord>, r: EntryRecord): (EntryRecord, Status) {
    var i := FirstWithValueId(rs, r.valueId);
    if i < |rs| then (r.(hasValueIdOnly := false, value := rs[i].value, uuids := rs[i].uuids), Ok)
    else (r.(hasValueIdOnly := false, chosen := false, value := [], uuids := []), Fail(NotFound))
  }

  /** Stripping the payload from an outgoing record, keeping only its id. */
  function Stripped(r: EntryRecord): (s: EntryRecord)
    ensures s.hasValueIdOnly && (r.hasValueIdOnly ==> s == r)
    ensures !r.hasValueIdOnly ==> s.value == [] && s.uuids == []
    ensures s.(value := r.value, uuids := r.uuids, hasValueIdOnly := r.hasValueIdOnly) == r
  {
    if r.hasValueIdOnly then r else r.(value := [], uuids := [], hasValueIdOnly := true)
  }

  /** Value indirection round trip: a record stripped to its id and restored
      against cached records whose first match for that id carries the same
      payload is the original record again. */
  lemma StripRestoreRoundTrip(rs: seq<EntryRecord>, r: EntryRecord)
    requires !r.hasValueIdOnly
    requires exists i :: 0 <= i < |rs| && rs[i].valueId == r.valueId
    requires var i := FirstWithValueId(rs, r.valueId);
      i < |rs| ==> rs[i].value == r.value && rs[i].uuids == r.uuids
    ensures RestoredRecord(rs, Stripped(r)) == (r, Ok)
  {
  }

  /** RestoreValueInRecord as coded: the tokens come from the coded lookup,
      which never returns any. */
  function RestoredRecordAsWritten(rs: seq<EntryRecord>, r: EntryRecord): (EntryRecord, Status) {
    var (value, uuids, status) := LookupByValueIdAsWritten(rs, r.valueId);
    if status == Ok then (r.(hasValueIdOnly := false, value := value, uuids := uuids), Ok)
    else (r.(hasValueIdOnly := false, chosen := false, value := [], uuids := []), Fail(NotFound))
  }

  /** As coded, the value indirection round trip loses the record's tokens:
      under the premises of StripRestoreRoundTrip, a record with tokens is
      restored with none. */
  lemma StripRestoreAsWrittenLosesTokens(rs: seq<EntryRecord>, r: EntryRecord)
    requires !r.hasValueIdOnly && r.uuids != []
    requires exists i :: 0 <= i < |rs| && rs[i].valueId == r.valueId
    requires var i := FirstWithValueId(rs, r.valueId);
      i < |rs| ==> rs[i].value == r.value && rs[i].uuids == r.uuids
    ensures RestoredRecordAsWritten(rs, Stripped(r)) == (r.(uuids := []), Ok)
    ensures RestoredRecordAsWritten(rs, Stripped(r)) != (r, Ok)
  {
  }

  /** Stripping is idempotent: a second strip changes nothing. */
  lemma StripIdempotent(r: EntryRecord)
    ensures Stripped(Stripped(r)) == Stripped(r)
  {
  }

  // ---------------------------------------------------------------------
  // Read-path empty flags

  /** Number of acceptors that have confirmed the entry empty. */
  function CountTrue(flags: seq<bool>): (k: nat)
    ensures k <= |flags|
  {
    if flags == [] then 0
    else CountTrue(flags[..|flags| - 1]) + if flags[|flags| - 1] then 1 else 0
  }

  /** Setting one flag raises the count by one exactly when it was clear. */
  lemma {:induction false} CountTrueSet(flags: seq<bool>, i: nat)
    requires i < |flags|
    ensures CountTrue(flags[i := true]) == CountTrue(flags) + if flags[i] then 0 else 1
  {
    var last := |flags| - 1;
    if i == last {
      assert flags[i := true][..last] == flags[..last];
    } else {
      assert flags[i := true][..last] == flags[..last][i := true];
      CountTrueSet(flags[..last], i);
    }
  }

  /** After a reset only the local acceptor is counted. */
  lemma {:induction false} CountTrueSingle(n: nat, local: nat)
    requires local < n
    ensures CountTrue(seq(n, i => i == local)) == 1
  {
    var s := seq(n, i => i == local);
    if n - 1 == local {
      assert s[..n - 1] == seq(n - 1, i => false);
      CountTrueNone(n - 1);
    } else {
      assert s[..n - 1] == seq(n - 1, i => i == local);
      CountTrueSingle(n - 1, local);
    }
  }

  lemma {:induction false} CountTrueNone(n: nat)
    ensures CountTrue(seq(n, i => false)) == 0
  {
    if n > 0 {
      assert seq(n, i => false)[..n - 1] == seq(n - 1, i => false);
      CountTrueNone(n - 1);
    }
  }
}
