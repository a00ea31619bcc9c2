/** The acceptor role of a replica: it promises not to accept suggestions
    ranked below the last id it permitted, and remembers the last value it
    accepted together with the consensus slot (state id) it belongs to. */
module Acceptors {
  import opened SuggestionIds
  import opened Values
  import opened ProposalQueues

  /** An acceptor's answer to a permission request. GRANTED carries the last
      accepted id and value; NACK carries neither. */
  datatype GrantedMessage =
    | Granted(lastAcceptedId: SuggestionId, lastAcceptedValue: Value?)
    | Nack
    | StateNack

  /** Everything a request can read or change: the four acceptor fields and
      the state id of the replica's proposal queue. */
  datatype AcceptorState = AcceptorState(
    lastPermittedId: SuggestionId,
    lastAcceptedId: SuggestionId,
    lastAcceptedValue: Value?,
    lastAcceptedStateId: int,
    queueStateId: int)

  /** The fields of a new acceptor, next to a queue at the given state id. */
  function InitialState(queueStateId: int): (s: AcceptorState) {
    AcceptorState(Initial, Initial, null, 0, queueStateId)
  }

  /** requestPermission, as a transition of the acceptor and queue state. */
  function RequestPermissionSpec(s: AcceptorState, id: SuggestionId, senderStateId: int): (res: (AcceptorState, GrantedMessage))
    // A sender behind the queue is refused, and nothing changes.
    ensures senderStateId < s.queueStateId ==> res == (s, Nack)
    // Otherwise the queue catches up with the sender; it never goes back.
    ensures senderStateId >= s.queueStateId ==> res.0.queueStateId == senderStateId
    ensures res.0.queueStateId >= s.queueStateId
    // The grant condition, in both directions.
    ensures res.1.Granted? <==> senderStateId >= s.queueStateId && AtLeast(id, s.lastPermittedId)
    // This acceptor never answers STATE_NACK.
    ensures !res.1.StateNack?
    // A grant raises the promise to the requested id; a refusal keeps it.
    ensures res.0.lastPermittedId == (if res.1.Granted? then id else s.lastPermittedId)
    ensures res.0.lastAcceptedId == s.lastAcceptedId && res.0.lastAcceptedStateId == s.lastAcceptedStateId
    // A request for a newer slot clears the accepted value, even when refused.
    ensures res.0.lastAcceptedValue ==
      if senderStateId >= s.queueStateId && senderStateId > s.lastAcceptedStateId then null else s.lastAcceptedValue
    // A grant reports the accepted id and the value left after clearing.
    ensures res.1.Granted? ==> res.1 == Granted(s.lastAcceptedId, res.0.lastAcceptedValue)
  {
    if senderStateId < s.queueStateId then (s, Nack)
    else
      var s1 := s.(queueStateId := senderStateId);
      var s2 := if senderStateId > s.lastAcceptedStateId then s1.(lastAcceptedValue := null) else s1;
      if CompareTo(id, s.lastPermittedId) >= 0 then
        (s2.(lastPermittedId := id), Granted(s2.lastAcceptedId, s2.lastAcceptedValue))
      else (s2, Nack)
  }

  /** suggestValue, as a transition of the acceptor and queue state. */
  function SuggestValueSpec(s: AcceptorState, id: SuggestionId, value: Value?, senderStateId: int): (res: (AcceptorState, bool))
    // Accepted exactly when the sender is not behind and the id keeps the promise.
    ensures res.1 <==> senderStateId >= s.queueStateId && AtLeast(id, s.lastPermittedId)
    // A refusal changes nothing.
    ensures !res.1 ==> res.0 == s
    // An acceptance records id, value and slot, and leaves the promise and the queue alone.
    ensures res.1 ==> res.0 == s.(lastAcceptedId := id, lastAcceptedValue := value, lastAcceptedStateId := senderStateId)
  {
    if senderStateId < s.queueStateId then (s, false)
    else if CompareTo(id, s.lastPermittedId) >= 0 then
      (s.(lastAcceptedId := id, lastAcceptedValue := value, lastAcceptedStateId := senderStateId), true)
    else (s, false)
  }

  class Acceptor {
    var lastPermittedId: SuggestionId
    var lastAcceptedId: SuggestionId
    var lastAcceptedValue: Value?
    var lastAcceptedStateId: int

    /** The acceptor's fields with the state id of the given queue. */
    function View(queue: ProposalQueue): AcceptorState
      reads this, queue
    {
      AcceptorState(lastPermittedId, lastAcceptedId, lastAcceptedValue, lastAcceptedStateId, queue.stateId)
    }

    /** A new acceptor has permitted and accepted nothing. */
    constructor ()
      ensures lastPermittedId == Initial && lastAcceptedId == Initial
      ensures lastAcceptedValue == null && lastAcceptedStateId == 0
    {
      lastPermittedId := Initial;
      lastAcceptedId := Initial;
      lastAcceptedValue := null;
      lastAcceptedStateId := 0;
    }

    /** requestPermission: the promise phase. It may raise the queue's state
        id to the sender's. */
    method RequestPermission(id: SuggestionId, senderStateId: int, queue: ProposalQueue) returns (r: GrantedMessage)
      modifies this, queue
      ensures (View(queue), r) == RequestPermissionSpec(old(View(queue)), id, senderStateId)
      ensures queue.items == old(queue.items)
    {
      if senderStateId < queue.stateId {
        return Nack;
      }
      if senderStateId > queue.stateId {
        queue.SetStateId(senderStateId);
      }
      if senderStateId > lastAcceptedStateId {
        lastAcceptedValue := null;
      }
      if CompareTo(id, lastPermittedId) >= 0 {
        lastPermittedId := id;
        return Granted(lastAcceptedId, lastAcceptedValue);
      }
      return Nack;
    }

    /** suggestValue: the accept phase. It never changes the queue. */
    method SuggestValue(id: SuggestionId, value: Value?, senderStateId: int, queue: ProposalQueue) returns (accepted: bool)
      modifies this
      ensures (View(queue), accepted) == SuggestValueSpec(old(View(queue)), id, value, senderStateId)
    {
      if senderStateId < queue.stateId {
        return false;
      }
      if CompareTo(id, lastPermittedId) >= 0 {
        lastAcceptedId := id;
        lastAcceptedValue := value;
        lastAcceptedStateId := senderStateId;
        return true;
      }
      return false;
    }
  }

  /** The calls that reach an acceptor and its queue: the two Paxos messages
      and a direct change of the queue's state id (the learner and the
      proposer both set it). */
  datatype AcceptorEvent =
    | RequestPermissionCall(id: SuggestionId, senderStateId: int)
    | SuggestValueCall(id: SuggestionId, value: Value?, senderStateId: int)
    | SetStateIdCall(stateId: int)

  function Apply(s: AcceptorState, e: AcceptorEvent): (t: AcceptorState) {
    match e
    case RequestPermissionCall(id, sst) => RequestPermissionSpec(s, id, sst).0
    case SuggestValueCall(id, v, sst) => SuggestValueSpec(s, id, v, sst).0
    case SetStateIdCall(n) => s.(queueStateId := n)
  }

  /** The state after a sequence of calls, in order. */
  function Run(s: AcceptorState, es: seq<AcceptorEvent>): (t: AcceptorState)
    decreases |es|
  {
    if |es| == 0 then s else Run(Apply(s, es[0]), es[1..])
  }

  /** The promise only ever rises: whatever calls follow, the last permitted
      id is ranked at least as high as before. */
  lemma {:induction false} PermittedIdNeverDecreases(s: AcceptorState, es: seq<AcceptorEvent>)
    ensures AtLeast(Run(s, es).lastPermittedId, s.lastPermittedId)
    decreases |es|
  {
    if |es| == 0 {
      CompareReflexive(s.lastPermittedId);
    } else {
      var s1 := Apply(s, es[0]);
      PermittedIdNeverDecreases(s1, es[1..]);
      CompareAntisymmetric(s1.lastPermittedId, s.lastPermittedId);
      CompareAntisymmetric(Run(s1, es[1..]).lastPermittedId, s1.lastPermittedId);
      CompareTransitive(s.lastPermittedId, s1.lastPermittedId, Run(s1, es[1..]).lastPermittedId);
      CompareAntisymmetric(Run(s1, es[1..]).lastPermittedId, s.lastPermittedId);
    }
  }

  /** The Paxos promise: once permission was granted to p, every later
      suggestion and every later permission request ranked below p is
      refused, whatever happened in between. */
  lemma PromiseKept(s: AcceptorState, p: SuggestionId, sst: int, es: seq<AcceptorEvent>,
                    id: SuggestionId, v: Value?, sst2: int)
    requires RequestPermissionSpec(s, p, sst).1.Granted?
    requires CompareTo(id, p) < 0
    ensures !SuggestValueSpec(Run(RequestPermissionSpec(s, p, sst).0, es), id, v, sst2).1
    ensures !RequestPermissionSpec(Run(RequestPermissionSpec(s, p, sst).0, es), id, sst2).1.Granted?
  {
    var t := Run(RequestPermissionSpec(s, p, sst).0, es);
    PermittedIdNeverDecreases(RequestPermissionSpec(s, p, sst).0, es);
    CompareAntisymmetric(t.lastPermittedId, p);
    CompareStrictTransitive(id, p, t.lastPermittedId);
  }

  /** An accepted value is reported back: a later grant for the same slot,
      with nothing in between, carries the id and the value just accepted. */
  lemma AcceptedValueReported(s: AcceptorState, id: SuggestionId, v: Value?, sst: int, id2: SuggestionId)
    requires SuggestValueSpec(s, id, v, sst).1
    requires RequestPermissionSpec(SuggestValueSpec(s, id, v, sst).0, id2, sst).1.Granted?
    ensures RequestPermissionSpec(SuggestValueSpec(s, id, v, sst).0, id2, sst).1 == Granted(id, v)
  {
  }

  /** A request for a later slot forgets the previous slot's value: the grant
      carries null, so the proposer is free to suggest its own value. */
  lemma NewSlotClearsValue(s: AcceptorState, id: SuggestionId, sst: int)
    requires sst > s.lastAcceptedStateId && sst >= s.queueStateId
    ensures RequestPermissionSpec(s, id, sst).0.lastAcceptedValue == null
    ensures RequestPermissionSpec(s, id, sst).1.Granted? ==> RequestPermissionSpec(s, id, sst).1.lastAcceptedValue == null
  {
  }
}
