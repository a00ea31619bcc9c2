/** The proposer of one replica, which also acts as the designated learner:
    each round it asks the cluster for permission, suggests a value and, on
    acceptance, reports the consensus. */
module Proposers {
  import opened JavaLang
  import opened SuggestionIds
  import opened Values
  import opened ProposalQueues
  import opened Tallies
  import opened KeyValueStores

  /** The three broadcasts a round can make, in the order it makes them. */
  datatype Message =
    | PermissionMessages(id: SuggestionId, stateId: int)
    | SuggestionMessages(id: SuggestionId, value: Value?, stateId: int)
    | ConsensusMessages(value: Value?, stateId: int)

  class Proposer {
    const queue: ProposalQueue
    const messenger: KeyValueStore
    const servId: string
    /** The round counter; the round's id is (suggestionId, servId). */
    var suggestionId: int

    constructor (queue: ProposalQueue, messenger: KeyValueStore, servId: string)
      ensures this.queue == queue && this.messenger == messenger && this.servId == servId
      ensures suggestionId == 0
    {
      this.queue := queue;
      this.messenger := messenger;
      this.servId := servId;
      suggestionId := 0;
    }

    /** chooseSuggestion: the highest value accepted earlier, if any came
        back; otherwise the head of the queue, which is null on an empty
        queue. It never builds a new value. */
    function ChooseSuggestion(outcome: PermissionOutcome): (v: Value?)
      reads this, queue
      ensures outcome.highestAcceptedValue != null ==> v == outcome.highestAcceptedValue
      ensures outcome.highestAcceptedValue == null ==> v == queue.Peek()
      ensures v == null <==> outcome.highestAcceptedValue == null && queue.items == []
      ensures v != null ==> v == outcome.highestAcceptedValue || v == queue.items[0]
    {
      if outcome.highestAcceptedValue != null then outcome.highestAcceptedValue else queue.Peek()
    }

    /** One iteration of the proposer's loop. The loop only starts one on a
        non-empty queue; the model does not require it (the busy wait is left
        out) and shows instead what an empty queue leads to. The answers of
        the registered replicas to the three phases are parameters; the
        results are the broadcasts made and how the iteration ends: a
        NullPointerException from the consensus broadcast is not caught by
        the loop and ends the proposer thread. */
    method Step(permissionReplies: seq<PermissionReply>, suggestionReplies: seq<Option<bool>>, reached: seq<bool>)
      returns (trace: seq<Message>, r: Outcome<()>)
      requires |permissionReplies| == |suggestionReplies| == |reached| == |messenger.replicas|
      modifies this, messenger.queue
      ensures suggestionId == old(suggestionId) + 1
      // Every broadcast of the round carries the id of the new round and
      // the state id read when it started.
      ensures 1 <= |trace| <= 3
      ensures trace[0] == PermissionMessages(SuggestionId(suggestionId, servId), old(queue.stateId))
      // No majority: nothing else is sent.
      ensures |trace| == 1 <==> !PermissionOutcomeOf(permissionReplies).majority
      ensures |trace| >= 2 ==>
        trace[1] == SuggestionMessages(SuggestionId(suggestionId, servId),
                                       ChooseSuggestion(PermissionOutcomeOf(permissionReplies)), old(queue.stateId))
      // Consensus is reported exactly when the suggestion was accepted, with the suggested value.
      ensures |trace| == 3 <==> PermissionOutcomeOf(permissionReplies).majority && SuggestionAccepted(suggestionReplies)
      ensures |trace| == 3 ==> trace[2] == ConsensusMessages(trace[1].value, old(queue.stateId))
      // The round throws exactly when a null value is decided and some
      // replica is reached, which needs an empty queue.
      ensures r.Thrown? <==> |trace| == 3 && trace[2].value == null && true in reached
      ensures r.Thrown? ==> r.exception == NullPointer && queue.items == []
      // The messenger's queue only changes through the permission phase.
      ensures messenger.queue.stateId == StateIdAfterPermission(permissionReplies, old(messenger.queue.stateId))
      // The queued values are unchanged only because the replica's own
      // learner is not run by the broadcast here: in the program the
      // consensus report to the replica itself dequeues a matching head.
      ensures messenger.queue.items == old(messenger.queue.items)
      ensures queue.items == old(queue.items)
      ensures queue != messenger.queue ==> queue.stateId == old(queue.stateId)
    {
      suggestionId := suggestionId + 1;
      var stateId := queue.stateId;
      var suggestNum := SuggestionId(suggestionId, servId);
      var outcome := messenger.SendPermissionMessages(suggestNum, stateId, permissionReplies);
      trace := [PermissionMessages(suggestNum, stateId)];
      r := Returned(());
      if !outcome.majority {
        return;
      }
      var suggestedValue := ChooseSuggestion(outcome);
      var suggestionAccepted := messenger.SendSuggestionMessages(suggestNum, suggestedValue, stateId, suggestionReplies);
      trace := trace + [SuggestionMessages(suggestNum, suggestedValue, stateId)];
      if suggestionAccepted {
        var _, sent := messenger.SendConsensusMessages(suggestedValue, stateId, reached);
        r := sent;
        trace := trace + [ConsensusMessages(suggestedValue, stateId)];
      }
    }
  }
}
