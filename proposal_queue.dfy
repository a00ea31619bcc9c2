/** The queue of client requests a server's proposer draws from, together with
    the state id: the number of the consensus slot the server is working on
    (the first agreed operation has state id 1, the second 2, and so on). */
module ProposalQueues {
  import opened Values

  class ProposalQueue {
    /** The queued values, head first. */
    var items: seq<Value>
    var stateId: int

    /** An empty queue working on slot 1. */
    constructor ()
      ensures items == [] && stateId == 1
    {
      items := [];
      stateId := 1;
    }

    /** The objects Dequeue may change: the head value, if there is one. */
    function Head(): set<Value>
      reads this
    {
      if items == [] then {} else {items[0]}
    }

    /** addTask: appends at the tail. */
    method AddTask(t: Value)
      modifies this
      ensures items == old(items) + [t]
      ensures stateId == old(stateId)
    {
      items := items + [t];
    }

    /** setStateId: stores any id, a lower one included; the queue itself
        does not keep the state id monotonic. */
    method SetStateId(id: int)
      modifies this
      ensures stateId == id
      ensures items == old(items)
    {
      stateId := id;
    }

    /** peek: the head, or null on an empty queue (it never throws). */
    function Peek(): (v: Value?)
      reads this
      ensures v == null <==> items == []
      ensures v != null ==> v == items[0]
    {
      if |items| == 0 then null else items[0]
    }

    /** isEmpty: the queue holds no value. */
    function IsEmpty(): (b: bool)
      reads this
      ensures b <==> |items| == 0
    {
      |items| == 0
    }

    /** dequeue(value): drops the head and marks it executed when the head
        equals value; otherwise, and on an empty queue, changes nothing. */
    method Dequeue(value: Value?)
      modifies this, Head()
      ensures stateId == old(stateId)
      ensures old(items) == [] ==> items == []
      ensures old(items) != [] && old(items)[0].Equals(value) ==>
        items == old(items)[1..] && old(items)[0].executed
      ensures old(items) != [] && !old(items)[0].Equals(value) ==>
        items == old(items) && unchanged(old(items)[0])
    {
      if |items| == 0 {
        return;
      }
      var head := items[0];
      if head.Equals(value) {
        head.SetExecuted();
        items := items[1..];
      }
    }
  }
}
