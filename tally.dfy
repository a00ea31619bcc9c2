/** The proposer side's reading of the replicas' answers: how many granted or
    accepted, which previously accepted value has the highest id, and what a
    STATE_NACK does to the local state id. A replica whose remote call fails
    answers nothing. */
module Tallies {
  import opened JavaLang
  import opened SuggestionIds
  import opened Values
  import opened Acceptors

  /** The cluster has five replicas, so three make a majority. */
  const REPLICA_MAJORITY := 3

  /** The result of the permission phase: whether a majority granted, and
      the accepted value with the highest id (null if none). */
  datatype PermissionOutcome = PermissionOutcome(majority: bool, highestAcceptedValue: Value?)

  /** One replica's answer to requestPermission. After a STATE_NACK the
      proposer also asks that replica for its state id; stateIdCall is that
      second call's answer (None when it fails too). */
  datatype PermissionReply =
    | Unreachable
    | Replied(message: GrantedMessage, stateIdCall: Option<int>)

  /** The number of elements of s that satisfy p. */
  function Count<T>(s: seq<T>, p: T -> bool): (n: nat)
    ensures n <= |s|
    decreases |s|
  {
    if |s| == 0 then 0 else Count(s[..|s| - 1], p) + (if p(s[|s| - 1]) then 1 else 0)
  }

  /** The positions of s whose element satisfies p. */
  function Positions<T>(s: seq<T>, p: T -> bool): (r: set<int>) {
    set i | 0 <= i < |s| && p(s[i])
  }

  /** Count is the number of positions whose element satisfies p. */
  lemma {:induction false} CountIsCardinality<T>(s: seq<T>, p: T -> bool)
    ensures Count(s, p) == |Positions(s, p)|
    decreases |s|
  {
    if |s| > 0 {
      var t := s[..|s| - 1];
      CountIsCardinality(t, p);
      if p(s[|s| - 1]) {
        assert Positions(s, p) == Positions(t, p) + {|s| - 1};
      } else {
        assert Positions(s, p) == Positions(t, p);
      }
    }
  }

  /** Count of the concatenation is the sum of the counts. */
  lemma {:induction false} CountAppend<T>(a: seq<T>, b: seq<T>, p: T -> bool)
    ensures Count(a + b, p) == Count(a, p) + Count(b, p)
    decreases |b|
  {
    if |b| == 0 {
      assert a + b == a;
    } else {
      var b' := b[..|b| - 1];
      assert (a + b)[..|a + b| - 1] == a + b';
      CountAppend(a, b', p);
    }
  }

  predicate IsGranted(r: PermissionReply) {
    r.Replied? && r.message.Granted?
  }

  predicate IsStateNack(r: PermissionReply) {
    r.Replied? && r.message.StateNack?
  }

  /** The position of the first STATE_NACK, or |rs| if there is none. */
  function FirstStateNack(rs: seq<PermissionReply>): (k: nat)
    ensures k <= |rs|
    ensures forall i :: 0 <= i < k ==> !IsStateNack(rs[i])
    ensures k < |rs| ==> IsStateNack(rs[k])
    decreases |rs|
  {
    if |rs| == 0 then 0
    else if IsStateNack(rs[0]) then 0
    else 1 + FirstStateNack(rs[1..])
  }

  /** The running maximum of the permission loop: starting from (0,"") and
      null, a granted reply replaces the pair only when its id is strictly
      greater. */
  function Highest(rs: seq<PermissionReply>): (h: (SuggestionId, Value?))
    decreases |rs|
  {
    if |rs| == 0 then (Initial, null)
    else
      var h := Highest(rs[..|rs| - 1]);
      var r := rs[|rs| - 1];
      if IsGranted(r) && CompareTo(r.message.lastAcceptedId, h.0) > 0
      then (r.message.lastAcceptedId, r.message.lastAcceptedValue)
      else h
  }

  /** Highest picks the first granted reply of maximal id, provided that id
      is above (0,""); otherwise it keeps (0,"") and null. In both cases no
      granted id is above the result. */
  lemma {:induction false} HighestIsFirstMaximum(rs: seq<PermissionReply>)
    ensures AtLeast(Highest(rs).0, Initial)
    ensures forall i :: 0 <= i < |rs| && IsGranted(rs[i]) ==> AtLeast(Highest(rs).0, rs[i].message.lastAcceptedId)
    ensures || Highest(rs) == (Initial, null)
            || exists j :: 0 <= j < |rs| && IsGranted(rs[j])
                 && Highest(rs) == (rs[j].message.lastAcceptedId, rs[j].message.lastAcceptedValue)
                 && CompareTo(Highest(rs).0, Initial) > 0
                 && forall i :: 0 <= i < j && IsGranted(rs[i]) ==> CompareTo(rs[i].message.lastAcceptedId, Highest(rs).0) < 0
    decreases |rs|
  {
    if |rs| == 0 {
      CompareReflexive(Initial);
    } else {
      var t := rs[..|rs| - 1];
      HighestIsFirstMaximum(t);
      var h := Highest(t);
      var r := rs[|rs| - 1];
      assert forall i :: 0 <= i < |t| ==> rs[i] == t[i];
      if IsGranted(r) && CompareTo(r.message.lastAcceptedId, h.0) > 0 {
        var n := r.message.lastAcceptedId;
        CompareAntisymmetric(n, h.0);
        CompareStrictTransitive(Initial, h.0, n);
        CompareAntisymmetric(n, Initial);
        forall i | 0 <= i < |rs| && IsGranted(rs[i])
          ensures AtLeast(n, rs[i].message.lastAcceptedId)
        {
          if i < |t| {
            CompareAntisymmetric(h.0, t[i].message.lastAcceptedId);
            CompareTransitive(t[i].message.lastAcceptedId, h.0, n);
            CompareAntisymmetric(n, t[i].message.lastAcceptedId);
          } else {
            CompareReflexive(n);
          }
        }
        forall i | 0 <= i < |t| && IsGranted(rs[i])
          ensures CompareTo(rs[i].message.lastAcceptedId, n) < 0
        {
          CompareAntisymmetric(h.0, t[i].message.lastAcceptedId);
          CompareStrictTransitive(t[i].message.lastAcceptedId, h.0, n);
        }
        assert Highest(rs) == (n, r.message.lastAcceptedValue);
      } else {
        assert Highest(rs) == h;
        if IsGranted(r) {
          CompareAntisymmetric(r.message.lastAcceptedId, h.0);
        }
        if h != (Initial, null) {
          var j :| 0 <= j < |t| && IsGranted(t[j])
                 && h == (t[j].message.lastAcceptedId, t[j].message.lastAcceptedValue)
                 && CompareTo(h.0, Initial) > 0
                 && forall i :: 0 <= i < j && IsGranted(t[i]) ==> CompareTo(t[i].message.lastAcceptedId, h.0) < 0;
          assert IsGranted(rs[j]) && forall i :: 0 <= i < j && IsGranted(rs[i]) ==> CompareTo(rs[i].message.lastAcceptedId, h.0) < 0;
        }
      }
    }
  }

  /** What sendPermissionMessages returns for the given replies in list
      order: no majority as soon as a STATE_NACK arrives; otherwise a
      majority exactly when at least three granted, with the highest
      accepted value. */
  function PermissionOutcomeOf(rs: seq<PermissionReply>): (o: PermissionOutcome)
    ensures !o.majority ==> o.highestAcceptedValue == null
  {
    var k := FirstStateNack(rs);
    if k < |rs| then PermissionOutcome(false, null)
    else if Count(rs, IsGranted) >= REPLICA_MAJORITY then PermissionOutcome(true, Highest(rs).1)
    else PermissionOutcome(false, null)
  }

  /** The local state id after sendPermissionMessages: at the first
      STATE_NACK it becomes that replica's state id if the follow-up call
      succeeds; otherwise it is unchanged. */
  function StateIdAfterPermission(rs: seq<PermissionReply>, current: int): (n: int)
    ensures (forall i :: 0 <= i < |rs| ==> !IsStateNack(rs[i])) ==> n == current
    ensures n == current || exists i :: 0 <= i < |rs| && IsStateNack(rs[i]) && rs[i].stateIdCall == Some(n)
  {
    var k := FirstStateNack(rs);
    if k < |rs| && rs[k].stateIdCall.Some? then rs[k].stateIdCall.value else current
  }

  /** The majority bit in both directions. */
  lemma PermissionMajorityMeaning(rs: seq<PermissionReply>)
    ensures PermissionOutcomeOf(rs).majority <==>
      (forall i :: 0 <= i < |rs| ==> !IsStateNack(rs[i]))
      && |set i | 0 <= i < |rs| && IsGranted(rs[i])| >= REPLICA_MAJORITY
  {
    CountIsCardinality(rs, IsGranted);
    assert Positions(rs, IsGranted) == set i | 0 <= i < |rs| && IsGranted(rs[i]);
  }

  /** Unreachable replicas change neither the outcome nor the state id,
      wherever they sit in the list. */
  lemma {:induction false} UnreachableIgnored(a: seq<PermissionReply>, b: seq<PermissionReply>, current: int)
    ensures PermissionOutcomeOf(a + [Unreachable] + b) == PermissionOutcomeOf(a + b)
    ensures StateIdAfterPermission(a + [Unreachable] + b, current) == StateIdAfterPermission(a + b, current)
  {
    FirstStateNackSkip(a, b);
    CountAppend(a + [Unreachable], b, IsGranted);
    CountAppend(a, [Unreachable], IsGranted);
    CountAppend(a, b, IsGranted);
    assert Count([Unreachable], IsGranted) == 0 by {
      assert [Unreachable][..0] == [];
    }
    HighestSkip(a, b);
  }

  lemma {:induction false} FirstStateNackSkip(a: seq<PermissionReply>, b: seq<PermissionReply>)
    ensures FirstStateNack(a + [Unreachable] + b) == if FirstStateNack(a) < |a| then FirstStateNack(a) else FirstStateNack(a + b) + 1
    ensures FirstStateNack(a + b) < |a + b| <==> FirstStateNack(a + [Unreachable] + b) < |a + [Unreachable] + b|
    ensures FirstStateNack(a + b) < |a + b| ==>
      (a + b)[FirstStateNack(a + b)] == (a + [Unreachable] + b)[FirstStateNack(a + [Unreachable] + b)]
    decreases |a|
  {
    if |a| == 0 {
      assert a + [Unreachable] + b == [Unreachable] + b;
      assert ([Unreachable] + b)[1..] == b;
      assert a + b == b;
    } else {
      assert (a + [Unreachable] + b)[0] == a[0] && (a + b)[0] == a[0];
      assert (a + [Unreachable] + b)[1..] == a[1..] + [Unreachable] + b;
      assert (a + b)[1..] == a[1..] + b;
      FirstStateNackSkip(a[1..], b);
    }
  }

  lemma {:induction false} HighestSkip(a: seq<PermissionReply>, b: seq<PermissionReply>)
    ensures Highest(a + [Unreachable] + b) == Highest(a + b)
    decreases |b|
  {
    if |b| == 0 {
      assert a + [Unreachable] + b == a + [Unreachable];
      assert (a + [Unreachable])[..|a|] == a;
      assert a + b == a;
    } else {
      var b' := b[..|b| - 1];
      assert (a + [Unreachable] + b)[..|a + [Unreachable] + b| - 1] == a + [Unreachable] + b';
      assert (a + b)[..|a + b| - 1] == a + b';
      HighestSkip(a, b');
    }
  }

  /** The answers a cluster of acceptors gives to one permission request:
      None stands for a replica that cannot be reached. */
  function PermissionRepliesOf(cluster: seq<Option<AcceptorState>>, id: SuggestionId, stateId: int): (rs: seq<PermissionReply>)
    ensures |rs| == |cluster|
    ensures forall i :: 0 <= i < |rs| ==> (rs[i].Unreachable? <==> cluster[i].None?)
  {
    seq(|cluster|, i requires 0 <= i < |cluster| =>
      if cluster[i].None? then Unreachable
      else Replied(RequestPermissionSpec(cluster[i].value, id, stateId).1, Some(cluster[i].value.queueStateId)))
  }

  /** With these acceptors the STATE_NACK branch never runs: the outcome
      depends only on the number of grants, and the local state id is never
      changed by the permission phase. */
  lemma StateNackBranchUnreachable(cluster: seq<Option<AcceptorState>>, id: SuggestionId, stateId: int, current: int)
    ensures FirstStateNack(PermissionRepliesOf(cluster, id, stateId)) == |cluster|
    ensures StateIdAfterPermission(PermissionRepliesOf(cluster, id, stateId), current) == current
    ensures PermissionOutcomeOf(PermissionRepliesOf(cluster, id, stateId)).majority <==>
      Count(PermissionRepliesOf(cluster, id, stateId), IsGranted) >= REPLICA_MAJORITY
  {
    var rs := PermissionRepliesOf(cluster, id, stateId);
    assert forall i :: 0 <= i < |rs| ==> !IsStateNack(rs[i]);
  }

  /** A proposer whose state id is behind every reachable replica gets no
      grant at all, so it never reaches a majority and, the STATE_NACK
      branch being dead, its state id stays where it was. */
  lemma StaleProposerStaysStale(cluster: seq<Option<AcceptorState>>, id: SuggestionId, stateId: int)
    requires forall i :: 0 <= i < |cluster| && cluster[i].Some? ==> stateId < cluster[i].value.queueStateId
    ensures !PermissionOutcomeOf(PermissionRepliesOf(cluster, id, stateId)).majority
    ensures StateIdAfterPermission(PermissionRepliesOf(cluster, id, stateId), stateId) == stateId
  {
    var rs := PermissionRepliesOf(cluster, id, stateId);
    StateNackBranchUnreachable(cluster, id, stateId, stateId);
    CountIsCardinality(rs, IsGranted);
    assert Positions(rs, IsGranted) == {};
  }

  /** sendSuggestionMessages' verdict on the replies: at least three true
      answers; a failed call counts as no answer. */
  predicate SuggestionAccepted(replies: seq<Option<bool>>) {
    Count(replies, IsYes) >= REPLICA_MAJORITY
  }

  predicate IsYes(r: Option<bool>) {
    r == Some(true)
  }

  /** The acceptance verdict counts distinct replicas that said yes. */
  lemma SuggestionAcceptedMeaning(replies: seq<Option<bool>>)
    ensures SuggestionAccepted(replies) <==>
      |set i | 0 <= i < |replies| && IsYes(replies[i])| >= REPLICA_MAJORITY
  {
    CountIsCardinality(replies, IsYes);
    assert Positions(replies, IsYes) == set i | 0 <= i < |replies| && IsYes(replies[i]);
  }

  /** The answers of a cluster of acceptors to one suggestion. */
  function SuggestionRepliesOf(cluster: seq<Option<AcceptorState>>, id: SuggestionId, v: Value?, stateId: int): (rs: seq<Option<bool>>)
    ensures |rs| == |cluster|
    ensures forall i :: 0 <= i < |rs| ==> (rs[i].None? <==> cluster[i].None?)
  {
    seq(|cluster|, i requires 0 <= i < |cluster| =>
      if cluster[i].None? then None else Some(SuggestValueSpec(cluster[i].value, id, v, stateId).1))
  }

  predicate IsReachable(c: Option<AcceptorState>) {
    c.Some?
  }

  /** Three acceptors that promised a higher id than the suggestion defeat
      it whenever no more than five entries of the replica list can be
      reached (the list may also hold stubs of crashed or re-registered
      replicas): at most two can say yes. */
  lemma OutrankedSuggestionFails(cluster: seq<Option<AcceptorState>>, id: SuggestionId, v: Value?, stateId: int,
                                 blockers: set<nat>)
    requires |Positions(cluster, IsReachable)| <= 5
    requires |blockers| >= 3
    requires forall i :: i in blockers ==> i < |cluster| && cluster[i].Some? && CompareTo(id, cluster[i].value.lastPermittedId) < 0
    ensures !SuggestionAccepted(SuggestionRepliesOf(cluster, id, v, stateId))
  {
    var rs := SuggestionRepliesOf(cluster, id, v, stateId);
    SuggestionAcceptedMeaning(rs);
    var yes := set i | 0 <= i < |rs| && IsYes(rs[i]);
    var all := Positions(cluster, IsReachable);
    forall i | i in blockers ensures i !in yes {
      CompareAntisymmetric(id, cluster[i].value.lastPermittedId);
    }
    assert yes <= all - blockers;
    assert blockers <= all;
    assert |all - blockers| == |all| - |blockers| by {
      assert all == (all - blockers) + blockers;
    }
    SubsetSize(yes, all - blockers);
  }

  lemma SubsetSize<T>(a: set<T>, b: set<T>)
    requires a <= b
    ensures |a| <= |b|
  {
    assert b == a + (b - a);
  }
}
