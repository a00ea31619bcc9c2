/** A replica of the key/value store: the map itself, the proposal queue its
    clients feed, its acceptor, and the messenger side that sends the Paxos
    messages to every registered replica and tallies their answers. */
module KeyValueStores {
  import opened JavaLang
  import opened SuggestionIds
  import opened Values
  import opened ProposalQueues
  import opened Acceptors
  import opened Tallies

  /** The map of a HashMap<String, String>: both a key and a value may be
      null, written None. */
  type Entries = map<Option<string>, Option<string>>

  /** HashMap.get: the stored value, or null for a missing key. */
  function Lookup(kv: Entries, key: Option<string>): (r: Option<string>) {
    if key in kv then kv[key] else None
  }

  /** executeValue on a non-null value: PUT stores the value under the key,
      DELETE removes the key, NO_OP changes nothing. No other entry changes. */
  function Execute(kv: Entries, command: Command, key: Option<string>, value: Option<string>): (r: Entries)
    ensures r - {key} == kv - {key}
    ensures command == PUT ==> key in r && r[key] == value
    ensures command == DELETE ==> key !in r
    ensures command == NO_OP ==> r == kv
  {
    match command
    case PUT => kv[key := value]
    case DELETE => kv - {key}
    case NO_OP => kv
  }

  /** What a GET sees after a decided command. */
  lemma LookupAfterExecute(kv: Entries, command: Command, key: Option<string>, value: Option<string>, k: Option<string>)
    ensures Lookup(Execute(kv, command, key, value), k) ==
      if k != key || command == NO_OP then Lookup(kv, k)
      else if command == PUT then value
      else None
  {
    if k != key {
      assert k in Execute(kv, command, key, value) <==> k in kv by {
        assert k in Execute(kv, command, key, value) - {key} <==> k in kv - {key};
      }
      if k in kv {
        assert (Execute(kv, command, key, value) - {key})[k] == (kv - {key})[k];
      }
    }
  }

  /** Executing the same command twice is the same as once, so a replica
      that hears a consensus report twice ends with the same map. */
  lemma ExecuteIdempotent(kv: Entries, command: Command, key: Option<string>, value: Option<string>)
    ensures Execute(Execute(kv, command, key, value), command, key, value) == Execute(kv, command, key, value)
  {
  }

  /** Commands on different keys commute. */
  lemma ExecuteCommutes(kv: Entries, c1: Command, k1: Option<string>, v1: Option<string>,
                        c2: Command, k2: Option<string>, v2: Option<string>)
    requires k1 != k2
    ensures Execute(Execute(kv, c1, k1, v1), c2, k2, v2) == Execute(Execute(kv, c2, k2, v2), c1, k1, v1)
  {
  }

  /** One reportConsensus call of the consensus broadcast: the position of
      the replica called in the replica list, and what it was told. */
  datatype ConsensusCall = ConsensusCall(replica: nat, value: Value?, stateId: int)

  class KeyValueStore {
    var kv: Entries
    const queue: ProposalQueue
    const acceptor: Acceptor
    /** Server id to host, for the other replicas named in the configuration. */
    const registrationData: map<string, string>
    /** The ids of the replicas registered so far, in registration order. */
    var replicas: seq<string>

    /** A store with an empty map, a fresh queue and a fresh acceptor;
        registrationData stands for what the configuration file lists. */
    constructor (registrationData: map<string, string>)
      ensures kv == map[] && replicas == [] && this.registrationData == registrationData
      ensures fresh(queue) && queue.items == [] && queue.stateId == 1
      ensures fresh(acceptor) && acceptor.View(queue) == InitialState(1)
    {
      kv := map[];
      queue := new ProposalQueue();
      acceptor := new Acceptor();
      this.registrationData := registrationData;
      replicas := [];
    }

    /** registerThisId: refuses an id the configuration does not list;
        otherwise registers it when the registry lookup (bound) succeeds. */
    method RegisterThisId(id: string, bound: bool) returns (ok: bool)
      modifies this
      ensures ok <==> id in registrationData && bound
      ensures replicas == if ok then old(replicas) + [id] else old(replicas)
      ensures kv == old(kv)
    {
      if id !in registrationData {
        return false;
      }
      if !bound {
        return false;
      }
      replicas := replicas + [id];
      return true;
    }

    /** put: queues a PUT for the proposer and returns it; the caller then
        waits until it is executed. */
    method Put(key: string, value: string) returns (pending: Value)
      modifies queue
      ensures fresh(pending) && pending.NotExecuted()
      ensures pending.command == PUT && pending.key == Some(key) && pending.value == Some(value)
      ensures queue.items == old(queue.items) + [pending] && queue.stateId == old(queue.stateId)
    {
      pending := new Value(PUT, Some(key), Some(value));
      queue.AddTask(pending);
    }

    /** delete: queues a DELETE, whose value field is null. */
    method Delete(key: string) returns (pending: Value)
      modifies queue
      ensures fresh(pending) && pending.NotExecuted()
      ensures pending.command == DELETE && pending.key == Some(key) && pending.value == None
      ensures queue.items == old(queue.items) + [pending] && queue.stateId == old(queue.stateId)
    {
      pending := new Value(DELETE, Some(key), None);
      queue.AddTask(pending);
    }

    /** get: reads the local map, without any consensus round; null both
        for a missing key and for a key stored with a null value. */
    function Get(key: string): (r: Option<string>)
      reads this
      ensures Some(key) !in kv ==> r == None
      ensures Some(key) in kv ==> r == kv[Some(key)]
    {
      Lookup(kv, Some(key))
    }

    /** requestPermission, answered by this replica's acceptor. */
    method RequestPermission(id: SuggestionId, senderStateId: int) returns (r: GrantedMessage)
      modifies acceptor, queue
      ensures (acceptor.View(queue), r) == RequestPermissionSpec(old(acceptor.View(queue)), id, senderStateId)
      ensures queue.items == old(queue.items)
    {
      r := acceptor.RequestPermission(id, senderStateId, queue);
    }

    /** suggestValue, answered by this replica's acceptor. */
    method SuggestValue(id: SuggestionId, value: Value?, senderStateId: int) returns (accepted: bool)
      modifies acceptor
      ensures (acceptor.View(queue), accepted) == SuggestValueSpec(old(acceptor.View(queue)), id, value, senderStateId)
    {
      accepted := acceptor.SuggestValue(id, value, senderStateId, queue);
    }

    /** executeValue: applies a decided value to the map. A null value
        throws a NullPointerException and leaves the map as it was. */
    method ExecuteValue(value: Value?) returns (r: Outcome<()>)
      modifies this
      ensures value == null ==> r == Thrown(NullPointer) && kv == old(kv)
      ensures value != null ==> r == Returned(()) && kv == Execute(old(kv), value.command, value.key, value.value)
      ensures replicas == old(replicas)
    {
      if value == null {
        return Thrown(NullPointer);
      }
      kv := Execute(kv, value.command, value.key, value.value);
      return Returned(());
    }

    /** reportConsensus: the learner. The queue moves past a slot it has not
        passed yet, drops its head if that is the decided value, and the
        value is applied to the map. */
    method ReportConsensus(value: Value?, stateId: int) returns (r: Outcome<()>)
      modifies this, queue, queue.Head()
      ensures queue.stateId == if stateId >= old(queue.stateId) then stateId + 1 else old(queue.stateId)
      ensures old(queue.items) == [] ==> queue.items == []
      ensures old(queue.items) != [] && old(queue.items)[0].Equals(value) ==>
        queue.items == old(queue.items)[1..] && old(queue.items)[0].executed
      ensures old(queue.items) != [] && !old(queue.items)[0].Equals(value) ==>
        queue.items == old(queue.items) && unchanged(old(queue.items)[0])
      ensures value == null ==> r == Thrown(NullPointer) && kv == old(kv)
      ensures value != null ==> r == Returned(()) && kv == Execute(old(kv), value.command, value.key, value.value)
      ensures replicas == old(replicas)
    {
      if stateId >= queue.stateId {
        queue.SetStateId(stateId + 1);
      }
      queue.Dequeue(value);
      r := ExecuteValue(value);
    }

    /** sendPermissionMessages: asks every registered replica, in order, for
        permission. replies[i] is the answer of the i-th replica. */
    method SendPermissionMessages(id: SuggestionId, stateId: int, replies: seq<PermissionReply>)
      returns (outcome: PermissionOutcome)
      requires |replies| == |replicas|
      modifies queue
      ensures outcome == PermissionOutcomeOf(replies)
      ensures queue.stateId == StateIdAfterPermission(replies, old(queue.stateId))
      ensures queue.items == old(queue.items)
    {
      var numGranted := 0;
      var highestAcceptedId := Initial;
      var highestAcceptedValue: Value? := null;
      for i := 0 to |replies|
        invariant numGranted == Count(replies[..i], IsGranted)
        invariant (highestAcceptedId, highestAcceptedValue) == Highest(replies[..i])
        invariant forall j :: 0 <= j < i ==> !IsStateNack(replies[j])
        invariant queue.stateId == old(queue.stateId) && queue.items == old(queue.items)
      {
        var response := replies[i];
        assert replies[..i + 1][..i] == replies[..i];
        if response.Replied? {
          if response.message.Granted? {
            numGranted := numGranted + 1;
            if CompareTo(response.message.lastAcceptedId, highestAcceptedId) > 0 {
              highestAcceptedId := response.message.lastAcceptedId;
              highestAcceptedValue := response.message.lastAcceptedValue;
            }
          }
          if response.message.StateNack? {
            FirstStateNackAt(replies, i);
            if response.stateIdCall.Some? {
              queue.SetStateId(response.stateIdCall.value);
            }
            return PermissionOutcome(false, null);
          }
        }
      }
      assert replies[..|replies|] == replies;
      if numGranted >= REPLICA_MAJORITY {
        return PermissionOutcome(true, highestAcceptedValue);
      }
      return PermissionOutcome(false, null);
    }

    /** sendSuggestionMessages: suggests the value to every registered
        replica and reports whether at least three accepted. */
    method SendSuggestionMessages(id: SuggestionId, value: Value?, stateId: int, replies: seq<Option<bool>>)
      returns (accepted: bool)
      requires |replies| == |replicas|
      ensures accepted <==> SuggestionAccepted(replies)
    {
      var numAccepted := 0;
      for i := 0 to |replies|
        invariant numAccepted == Count(replies[..i], IsYes)
      {
        assert replies[..i + 1][..i] == replies[..i];
        if replies[i].Some? && replies[i].value {
          numAccepted := numAccepted + 1;
        }
      }
      assert replies[..|replies|] == replies;
      return numAccepted >= REPLICA_MAJORITY;
    }

    /** sendConsensusMessages: calls reportConsensus(value, stateId) on
        every registered replica in list order; reached[i] says whether the
        call to the i-th replica gets through. A failed call is skipped. A
        null value makes the learner of the first replica reached throw a
        NullPointerException (see ReportConsensus), which is not a
        RemoteException and so ends the broadcast there. */
    method SendConsensusMessages(value: Value?, stateId: int, reached: seq<bool>)
      returns (calls: seq<ConsensusCall>, r: Outcome<()>)
      requires |reached| == |replicas|
      // Every call carries the decided value and slot to a replica it got
      // through to, one call per replica, in list order.
      ensures forall k :: 0 <= k < |calls| ==>
        calls[k].value == value && calls[k].stateId == stateId && calls[k].replica < |reached| && reached[calls[k].replica]
      ensures forall a, b :: 0 <= a < b < |calls| ==> calls[a].replica < calls[b].replica
      // A non-null value reaches every replica that can be reached.
      ensures value != null ==> r == Returned(())
      ensures value != null ==> forall i: nat :: i < |reached| && reached[i] ==> ConsensusCall(i, value, stateId) in calls
      // A null value: the broadcast throws exactly when some replica is
      // reached, and then only the first of them was called.
      ensures r.Thrown? <==> value == null && true in reached
      ensures r.Thrown? ==> r.exception == NullPointer && |calls| == 1
      ensures r.Thrown? ==> forall j :: 0 <= j < calls[0].replica ==> !reached[j]
      ensures value == null && r.Returned? ==> calls == []
    {
      calls := [];
      for i := 0 to |reached|
        invariant forall k :: 0 <= k < |calls| ==>
          calls[k].value == value && calls[k].stateId == stateId && calls[k].replica < i && reached[calls[k].replica]
        invariant forall a, b :: 0 <= a < b < |calls| ==> calls[a].replica < calls[b].replica
        invariant value != null ==> forall j: nat :: j < i && reached[j] ==> ConsensusCall(j, value, stateId) in calls
        invariant value == null ==> calls == [] && forall j :: 0 <= j < i ==> !reached[j]
      {
        if reached[i] {
          calls := calls + [ConsensusCall(i, value, stateId)];
          if value == null {
            return calls, Thrown(NullPointer);
          }
        }
      }
      return calls, Returned(());
    }
  }

  /** The first STATE_NACK sits at i when none comes before it. */
  lemma {:induction false} FirstStateNackAt(rs: seq<PermissionReply>, i: nat)
    requires i < |rs| && IsStateNack(rs[i])
    requires forall j :: 0 <= j < i ==> !IsStateNack(rs[j])
    ensures FirstStateNack(rs) == i
    decreases i
  {
    if i > 0 {
      FirstStateNackAt(rs[1..], i - 1);
    }
  }
}
