/** The single-decree Paxos demo key-value store: ballots, the acceptor's
    Prepare and Accept rules over per-(key, version) instances, and the
    proposer's reply counting. Replies are passed in as sequences in place
    of the remote calls that produce them. */
module PaxosKv {
  import opened Records

  /** A ballot: round number, then proposer id as tie-breaker. */
  datatype BallotNum = BallotNum(n: int, proposerId: int)

  const ZeroBallot := BallotNum(0, 0)

  datatype Value = Value(vi64: int)

  datatype PaxosInstanceId = PaxosInstanceId(key: string, ver: int)

  /** The acceptor state of one instance: the highest ballot seen, and the
      last voted value with the ballot it was voted in. */
  datatype Acceptor = Acceptor(lastBal: BallotNum, val: Option<Value>, vBal: BallotNum)

  const FreshAcceptor := Acceptor(ZeroBallot, None, ZeroBallot)

  datatype PrepareResp = PrepareResp(lastBal: BallotNum, val: Option<Value>, vBal: BallotNum)

  datatype AcceptResp = AcceptResp(ok: bool, lastBal: BallotNum)

  /** Lexicographic order on (n, proposerId). */
  predicate BallotLess(a: BallotNum, b: BallotNum) {
    a.n < b.n || (a.n == b.n && a.proposerId < b.proposerId)
  }

  /** The ballot comparison: the difference of round numbers, or of
      proposer ids on equal rounds. Its sign is the ballot order. */
  function CompareBalNum(a: BallotNum, b: BallotNum): (c: int)
    ensures c > 0 <==> BallotLess(b, a)
    ensures c < 0 <==> BallotLess(a, b)
    ensures c == 0 <==> a == b
  {
    if a.n == b.n then a.proposerId - b.proposerId else a.n - b.n
  }

  /** BallotLess is a strict total order. */
  lemma BallotOrder(a: BallotNum, b: BallotNum, c: BallotNum)
    ensures !BallotLess(a, a)
    ensures BallotLess(a, b) && BallotLess(b, c) ==> BallotLess(a, c)
    ensures a == b || BallotLess(a, b) || BallotLess(b, a)
    ensures !(BallotLess(a, b) && BallotLess(b, a))
  {
  }

  // ---------------------------------------------------------------------
  // Acceptor

  /** The acceptor after a prepare with ballot `bal`: the promise rises to
      `bal` only when `bal` is strictly higher. */
  function AfterPrepare(a: Acceptor, bal: BallotNum): (a': Acceptor)
    ensures !BallotLess(a'.lastBal, a.lastBal)
    ensures a'.val == a.val && a'.vBal == a.vBal
  {
    if CompareBalNum(bal, a.lastBal) > 0 then a.(lastBal := bal) else a
  }

  /** A prepare only raises the promise, to the larger of the two ballots,
      and never touches the vote. */
  lemma PrepareRaisesPromise(a: Acceptor, bal: BallotNum)
    ensures var a' := AfterPrepare(a, bal);
      && !BallotLess(a'.lastBal, a.lastBal)
      && !BallotLess(a'.lastBal, bal)
      && (a'.lastBal == a.lastBal || a'.lastBal == bal)
      && a'.val == a.val && a'.vBal == a.vBal
  {
  }

  /** The acceptor and its reply after an accept of `val` at `bal`: it
      votes when `bal` is at least its promise, and otherwise changes
      nothing and reports its promise. */
  function AcceptStep(a: Acceptor, bal: BallotNum, val: Option<Value>): (r: (Acceptor, AcceptResp))
    ensures r.1.ok <==> !BallotLess(bal, a.lastBal)
    ensures r.1.lastBal == a.lastBal
  {
    if CompareBalNum(bal, a.lastBal) >= 0
    then (Acceptor(bal, val, bal), AcceptResp(true, a.lastBal))
    else (a, AcceptResp(false, a.lastBal))
  }

  /** The accept rule: success exactly when the ballot is not below the
      promise; success records the vote; failure leaves the acceptor as it
      was and returns a promise higher than the ballot. */
  lemma AcceptRule(a: Acceptor, bal: BallotNum, val: Option<Value>)
    ensures var (a', resp) := AcceptStep(a, bal, val);
      && (resp.ok <==> !BallotLess(bal, a.lastBal))
      && (resp.ok ==> a'.lastBal == bal && a'.vBal == bal && a'.val == val)
      && (!resp.ok ==> a' == a && BallotLess(bal, resp.lastBal))
      && !BallotLess(a'.lastBal, a.lastBal)
  {
  }

  /** A promise blocks every lower ballot: after preparing `bal`, an accept
      at a lower ballot is refused. */
  lemma PromiseBlocksLowerAccept(a: Acceptor, bal: BallotNum, lower: BallotNum, val: Option<Value>)
    requires BallotLess(lower, bal)
    ensures !AcceptStep(AfterPrepare(a, bal), lower, val).1.ok
  {
  }

  /** An acceptor never votes above its promise, and both steps keep it so. */
  predicate VoteBelowPromise(a: Acceptor) {
    !BallotLess(a.lastBal, a.vBal)
  }

  lemma StepsKeepVoteBelowPromise(a: Acceptor, bal: BallotNum, val: Option<Value>)
    requires VoteBelowPromise(a)
    ensures VoteBelowPromise(AfterPrepare(a, bal))
    ensures VoteBelowPromise(AcceptStep(a, bal, val).0)
  {
  }

  // ---------------------------------------------------------------------
  // Instance storage

  /** The storage after looking an instance up: a missing key or version is
      added with a fresh acceptor. */
  function WithInstance(storage: map<string, map<int, Acceptor>>, id: PaxosInstanceId): map<string, map<int, Acceptor>> {
    var instances := if id.key in storage then storage[id.key] else map[];
    if id.ver in instances then storage else storage[id.key := instances[id.ver := FreshAcceptor]]
  }

  /** Lookup inserts exactly the missing instance: it is present afterwards,
      an existing instance is returned untouched, a new one is fresh, and
      every other key and version keeps its instance. */
  lemma WithInstanceProperties(storage: map<string, map<int, Acceptor>>, id: PaxosInstanceId)
    ensures var s := WithInstance(storage, id);
      && id.key in s && id.ver in s[id.key]
      && (id.key in storage && id.ver in storage[id.key] ==> s == storage)
      && (!(id.key in storage && id.ver in storage[id.key]) ==> s[id.key][id.ver] == FreshAcceptor)
      && (forall k :: k in storage ==> k in s && forall v :: v in storage[k] ==> v in s[k] && s[k][v] == storage[k][v])
      && (forall k :: k in s && k != id.key ==> k in storage && s[k] == storage[k])
      && (forall v :: v in s[id.key] && v != id.ver ==> id.key in storage && v in storage[id.key])
      && WithInstance(s, id) == s
  {
  }

  /** The acceptor handlers over the instances of every key and version. */
  class KVServer {
    var storage: map<string, map<int, Acceptor>>

    constructor()
      ensures storage == map[]
    {
      storage := map[];
    }

    /** The acceptor of an instance, created on first use. */
    method GetInstance(id: PaxosInstanceId) returns (a: Acceptor)
      modifies this
      ensures storage == WithInstance(old(storage), id)
      ensures id.key in storage && id.ver in storage[id.key] && a == storage[id.key][id.ver]
    {
      var instances := if id.key in storage then storage[id.key] else map[];
      if id.key !in storage {
        storage := storage[id.key := instances];
      }
      if id.ver !in instances {
        instances := instances[id.ver := FreshAcceptor];
        storage := storage[id.key := instances];
      }
      a := instances[id.ver];
    }

    /** Phase 1 on the acceptor: reply with the state before the call, then
        raise the promise if the ballot is higher. */
    method Prepare(id: PaxosInstanceId, bal: BallotNum) returns (resp: PrepareResp)
      modifies this
      ensures var s := WithInstance(old(storage), id);
        var a := s[id.key][id.ver];
        && resp == PrepareResp(a.lastBal, a.val, a.vBal)
        && storage == s[id.key := s[id.key][id.ver := AfterPrepare(a, bal)]]
    {
      var a := GetInstance(id);
      resp := PrepareResp(a.lastBal, a.val, a.vBal);
      if CompareBalNum(bal, a.lastBal) > 0 {
        storage := storage[id.key := storage[id.key][id.ver := a.(lastBal := bal)]];
      } else {
        assert storage[id.key][id.ver := a] == storage[id.key];
        assert storage[id.key := storage[id.key]] == storage;
      }
    }

    /** Phase 2 on the acceptor: vote for `val` at `bal` unless a higher
        ballot was promised. */
    method Accept(id: PaxosInstanceId, bal: BallotNum, val: Option<Value>) returns (resp: AcceptResp)
      modifies this
      ensures var s := WithInstance(old(storage), id);
        var a := s[id.key][id.ver];
        && resp == AcceptStep(a, bal, val).1
        && storage == s[id.key := s[id.key][id.ver := AcceptStep(a, bal, val).0]]
    {
      var a := GetInstance(id);
      resp := AcceptResp(false, a.lastBal);
      if CompareBalNum(bal, a.lastBal) >= 0 {
        storage := storage[id.key := storage[id.key][id.ver := Acceptor(bal, val, bal)]];
        resp := resp.(ok := true);
      } else {
        assert storage[id.key][id.ver := a] == storage[id.key];
        assert storage[id.key := storage[id.key]] == storage;
      }
    }
  }

  // ---------------------------------------------------------------------
  // Proposer reply counting

  /** Whether a reply's promise does not exceed our ballot. */
  predicate Eligible(bal: BallotNum, lastBal: BallotNum) {
    !BallotLess(bal, lastBal)
  }

  /** The number of replies, given by their promises, that count for us. */
  function CountOk(bal: BallotNum, bs: seq<BallotNum>): (k: nat)
    ensures k <= |bs|
  {
    if bs == [] then 0
    else CountOk(bal, bs[..|bs| - 1]) + if Eligible(bal, bs[|bs| - 1]) then 1 else 0
  }

  lemma {:induction false} CountOkMonotone(bal: BallotNum, bs: seq<BallotNum>, j: nat, k: nat)
    requires j <= k <= |bs|
    ensures CountOk(bal, bs[..j]) <= CountOk(bal, bs[..k])
  {
    if j < k {
      CountOkMonotone(bal, bs, j, k - 1);
      assert bs[..k][..k - 1] == bs[..k - 1];
    }
  }

  /** The replies needed: the quorum, but at least one, since the count is
      compared only after a reply has been counted. */
  function Need(quorum: int): nat {
    if quorum < 1 then 1 else quorum
  }

  /** How many replies are read before the count first reaches `need`. */
  function FirstQuorum(bal: BallotNum, bs: seq<BallotNum>, need: nat): (k: nat)
    requires CountOk(bal, bs) >= need >= 1
    ensures 1 <= k <= |bs|
    ensures CountOk(bal, bs[..k]) >= need
    ensures forall j :: 0 <= j < k ==> CountOk(bal, bs[..j]) < need
  {
    assert bs[..|bs|] == bs;
    var prefix := bs[..|bs| - 1];
    if CountOk(bal, prefix) >= need then
      var k := FirstQuorum(bal, prefix, need);
      assert forall j :: 0 <= j <= |prefix| ==> prefix[..j] == bs[..j];
      k
    else
      assert forall j :: 0 <= j < |bs| ==> CountOk(bal, bs[..j]) <= CountOk(bal, prefix) by {
        forall j | 0 <= j < |bs| {
          CountOkMonotone(bal, bs, j, |bs| - 1);
        }
      }
      |bs|
  }

  /** Once the count of the first `k` replies reaches `need` when that of
      the first `k - 1` did not, the whole sequence has a quorum and `k` is
      where it was first reached. */
  lemma QuorumReachedAt(bal: BallotNum, bs: seq<BallotNum>, need: nat, k: nat)
    requires 1 <= k <= |bs| && need >= 1
    requires CountOk(bal, bs[..k - 1]) < need <= CountOk(bal, bs[..k])
    ensures CountOk(bal, bs) >= need
    ensures FirstQuorum(bal, bs, need) == k
  {
    CountOkMonotone(bal, bs, k, |bs|);
    assert bs[..|bs|] == bs;
    forall j | 0 <= j < k
      ensures CountOk(bal, bs[..j]) < need
    {
      CountOkMonotone(bal, bs, j, k - 1);
    }
  }

  /** The last promise above our ballot, or our ballot when there is none. */
  function LastHigher(bal: BallotNum, bs: seq<BallotNum>): (r: BallotNum)
    ensures r == bal || exists i :: 0 <= i < |bs| && BallotLess(bal, bs[i]) && r == bs[i]
    ensures !BallotLess(r, bal)
  {
    if bs == [] then bal
    else if !Eligible(bal, bs[|bs| - 1]) then bs[|bs| - 1]
    else
      var r := LastHigher(bal, bs[..|bs| - 1]);
      assert forall i :: 0 <= i < |bs| - 1 ==> bs[..|bs| - 1][i] == bs[i];
      r
  }

  /** Reading one more reply: it is counted if eligible and otherwise
      becomes the last higher ballot. */
  lemma CountStep(bal: BallotNum, bs: seq<BallotNum>, i: nat)
    requires i < |bs|
    ensures CountOk(bal, bs[..i + 1]) == CountOk(bal, bs[..i]) + if Eligible(bal, bs[i]) then 1 else 0
    ensures LastHigher(bal, bs[..i + 1]) == if Eligible(bal, bs[i]) then LastHigher(bal, bs[..i]) else bs[i]
  {
    assert bs[..i + 1][..i] == bs[..i];
  }

  /** The placeholder vote Phase1 starts from: no value, zero ballot. */
  const NoVote := PrepareResp(ZeroBallot, None, ZeroBallot)

  /** The eligible reply with the highest vote ballot, the earliest among
      equals, or NoVote when none beats the zero ballot. */
  function BestVoted(bal: BallotNum, rs: seq<PrepareResp>): (m: PrepareResp)
    ensures m == NoVote || (m in rs && Eligible(bal, m.lastBal))
    ensures !BallotLess(m.vBal, ZeroBallot)
    ensures forall i :: 0 <= i < |rs| && Eligible(bal, rs[i].lastBal) ==> !BallotLess(m.vBal, rs[i].vBal)
  {
    if rs == [] then NoVote
    else
      var m := BestVoted(bal, rs[..|rs| - 1]);
      var r := rs[|rs| - 1];
      assert forall i :: 0 <= i < |rs| - 1 ==> rs[..|rs| - 1][i] == rs[i];
      if Eligible(bal, r.lastBal) && CompareBalNum(r.vBal, m.vBal) > 0 then r else m
  }

  /** Reading one more reply: it becomes the best vote if eligible and
      voted strictly higher. */
  lemma BestVotedStep(bal: BallotNum, rs: seq<PrepareResp>, i: nat)
    requires i < |rs|
    ensures var m := BestVoted(bal, rs[..i]);
      BestVoted(bal, rs[..i + 1]) ==
        if Eligible(bal, rs[i].lastBal) && BallotLess(m.vBal, rs[i].vBal) then rs[i] else m
  {
    assert rs[..i + 1][..i] == rs[..i];
  }

  function PrepareLastBals(rs: seq<PrepareResp>): (bs: seq<BallotNum>)
    ensures |bs| == |rs| && forall i :: 0 <= i < |rs| ==> bs[i] == rs[i].lastBal
  {
    seq(|rs|, i requires 0 <= i < |rs| => rs[i].lastBal)
  }

  function AcceptLastBals(rs: seq<AcceptResp>): (bs: seq<BallotNum>)
    ensures |bs| == |rs| && forall i :: 0 <= i < |rs| ==> bs[i] == rs[i].lastBal
  {
    seq(|rs|, i requires 0 <= i < |rs| => rs[i].lastBal)
  }

  datatype Phase1Result = Promised(val: Option<Value>) | Phase1Rejected(higherBal: BallotNum)

  datatype Phase2Result = Chosen | Phase2Rejected(higherBal: BallotNum)

  /** What Phase1 concludes from the prepare replies. */
  function Phase1Outcome(bal: BallotNum, replies: seq<PrepareResp>, quorum: int): Phase1Result {
    var bs := PrepareLastBals(replies);
    if CountOk(bal, bs) >= Need(quorum)
    then Promised(BestVoted(bal, replies[..FirstQuorum(bal, bs, Need(quorum))]).val)
    else Phase1Rejected(LastHigher(bal, bs))
  }

  /** What Phase2 concludes from the accept replies. */
  function Phase2Outcome(bal: BallotNum, replies: seq<AcceptResp>, quorum: int): Phase2Result {
    var bs := AcceptLastBals(replies);
    if CountOk(bal, bs) >= Need(quorum) then Chosen else Phase2Rejected(LastHigher(bal, bs))
  }

  /** Phase 1 on the proposer: count the replies that promised no higher
      ballot, stop at a quorum and adopt the highest voted value seen so
      far; otherwise report the last higher ballot seen. */
  method Phase1(bal: BallotNum, replies: seq<PrepareResp>, quorum: int) returns (result: Phase1Result)
    ensures result == Phase1Outcome(bal, replies, quorum)
  {
    ghost var bs := PrepareLastBals(replies);
    var ok := 0;
    var higherBal := bal;
    var maxVoted := NoVote;
    var i := 0;
    while i < |replies|
      invariant 0 <= i <= |replies|
      invariant ok == CountOk(bal, bs[..i]) && ok < Need(quorum)
      invariant higherBal == LastHigher(bal, bs[..i])
      invariant maxVoted == BestVoted(bal, replies[..i])
    {
      var reply := replies[i];
      CountStep(bal, bs, i);
      BestVotedStep(bal, replies, i);
      if CompareBalNum(bal, reply.lastBal) < 0 {
        higherBal := reply.lastBal;
        i := i + 1;
        continue;
      }
      if CompareBalNum(reply.vBal, maxVoted.vBal) > 0 {
        maxVoted := reply;
      }
      ok := ok + 1;
      if ok >= quorum {
        QuorumReachedAt(bal, bs, Need(quorum), i + 1);
        return Promised(maxVoted.val);
      }
      i := i + 1;
    }
    assert bs[..i] == bs;
    return Phase1Rejected(higherBal);
  }

  /** Phase 2 on the proposer: succeed once a quorum of replies promised no
      higher ballot; otherwise report the last higher ballot seen. */
  method Phase2(bal: BallotNum, replies: seq<AcceptResp>, quorum: int) returns (result: Phase2Result)
    ensures result == Phase2Outcome(bal, replies, quorum)
  {
    ghost var bs := AcceptLastBals(replies);
    var ok := 0;
    var higherBal := bal;
    var i := 0;
    while i < |replies|
      invariant 0 <= i <= |replies|
      invariant ok == CountOk(bal, bs[..i]) && ok < Need(quorum)
      invariant higherBal == LastHigher(bal, bs[..i])
    {
      var reply := replies[i];
      CountStep(bal, bs, i);
      if CompareBalNum(bal, reply.lastBal) < 0 {
        higherBal := reply.lastBal;
        i := i + 1;
        continue;
      }
      ok := ok + 1;
      if ok >= quorum {
        QuorumReachedAt(bal, bs, Need(quorum), i + 1);
        return Chosen;
      }
      i := i + 1;
    }
    assert bs[..i] == bs;
    return Phase2Rejected(higherBal);
  }

  /** A successful Phase1 adopts the highest vote among the replies it
      counted: no counted reply voted at a higher ballot than the one whose
      value is adopted, and a value is adopted only if some counted reply
      carries it. */
  lemma Phase1AdoptsHighestVote(bal: BallotNum, replies: seq<PrepareResp>, quorum: int)
    requires Phase1Outcome(bal, replies, quorum).Promised?
    ensures var bs := PrepareLastBals(replies);
      var k := FirstQuorum(bal, bs, Need(quorum));
      var m := BestVoted(bal, replies[..k]);
      && CountOk(bal, bs[..k]) >= Need(quorum)
      && Phase1Outcome(bal, replies, quorum).val == m.val
      && (forall i :: 0 <= i < k && Eligible(bal, replies[i].lastBal) ==> !BallotLess(m.vBal, replies[i].vBal))
      && (m.val.Some? ==> exists i :: 0 <= i < k && Eligible(bal, replies[i].lastBal) && replies[i].val == m.val)
  {
    var bs := PrepareLastBals(replies);
    var k := FirstQuorum(bal, bs, Need(quorum));
    var m := BestVoted(bal, replies[..k]);
    assert forall i :: 0 <= i < k ==> replies[..k][i] == replies[i];
    if m.val.Some? {
      var i :| 0 <= i < k && replies[..k][i] == m;
    }
  }

  // ---------------------------------------------------------------------
  // One round of RunPaxos

  datatype Round = Round(prepareReplies: seq<PrepareResp>, acceptReplies: seq<AcceptResp>)

  datatype RoundOutcome = Decided(val: Option<Value>) | Retry(nextBal: BallotNum)

  /** The ballot of the next attempt: one round above the higher ballot
      reported, with our own proposer id. */
  function NextBallot(bal: BallotNum, higherBal: BallotNum): BallotNum {
    BallotNum(higherBal.n + 1, bal.proposerId)
  }

  /** A retry always uses a strictly higher ballot, above the reported one. */
  lemma NextBallotIncreases(bal: BallotNum, higherBal: BallotNum)
    requires !BallotLess(higherBal, bal)
    ensures BallotLess(bal, NextBallot(bal, higherBal))
    ensures BallotLess(higherBal, NextBallot(bal, higherBal))
    ensures NextBallot(bal, higherBal).n > bal.n
  {
  }

  /** One attempt of RunPaxos with `acceptorNum` acceptors: phase 1, value
      adoption, and phase 2 unless this is a read that found no vote. */
  method RunPaxosRound(bal: BallotNum, val: Option<Value>, acceptorNum: nat, round: Round) returns (outcome: RoundOutcome)
    ensures var quorum := acceptorNum / 2 + 1;
      var p1 := Phase1Outcome(bal, round.prepareReplies, quorum);
      var proposed := if p1.Promised? && p1.val.Some? then p1.val else val;
      && (p1.Phase1Rejected? ==> outcome == Retry(NextBallot(bal, p1.higherBal)))
      && (p1.Promised? && proposed.None? ==> outcome == Decided(None))
      && (p1.Promised? && proposed.Some? ==>
            var p2 := Phase2Outcome(bal, round.acceptReplies, quorum);
            outcome == if p2.Chosen? then Decided(proposed) else Retry(NextBallot(bal, p2.higherBal)))
    ensures outcome.Retry? ==> BallotLess(bal, outcome.nextBal) && outcome.nextBal.proposerId == bal.proposerId
    ensures outcome.Decided? && val.Some? ==> outcome.val.Some?
  {
    var quorum := acceptorNum / 2 + 1;
    var proposed := val;
    var p1 := Phase1(bal, round.prepareReplies, quorum);
    if p1.Phase1Rejected? {
      NextBallotIncreases(bal, p1.higherBal);
      return Retry(NextBallot(bal, p1.higherBal));
    }
    if p1.val.Some? {
      proposed := p1.val;
    }
    if proposed.None? {
      return Decided(None);
    }
    var p2 := Phase2(bal, round.acceptReplies, quorum);
    if p2.Phase2Rejected? {
      NextBallotIncreases(bal, p2.higherBal);
      return Retry(NextBallot(bal, p2.higherBal));
    }
    return Decided(proposed);
  }

  /** RunPaxos over the supplied rounds: retry with a higher ballot until a
      round decides. `decided` is None when the rounds run out first. */
  method RunPaxos(bal: BallotNum, val: Option<Value>, acceptorNum: nat, rounds: seq<Round>)
    returns (decided: Option<Option<Value>>, finalBal: BallotNum)
    ensures finalBal.proposerId == bal.proposerId
    ensures finalBal == bal || BallotLess(bal, finalBal)
    ensures decided.Some? && val.Some? ==> decided.value.Some?
  {
    finalBal := bal;
    var i := 0;
    while i < |rounds|
      invariant 0 <= i <= |rounds|
      invariant finalBal.proposerId == bal.proposerId
      invariant finalBal == bal || BallotLess(bal, finalBal)
    {
      var outcome := RunPaxosRound(finalBal, val, acceptorNum, rounds[i]);
      if outcome.Decided? {
        return Some(outcome.val), finalBal;
      }
      finalBal := outcome.nextBal;
      i := i + 1;
    }
    return None, finalBal;
  }
}
