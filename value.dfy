/** Paxos values: the client commands the cluster agrees on, each with a flag
    that records whether the cluster has executed it. */
module Values {
  import opened JavaLang

  datatype Command = PUT | DELETE | NO_OP

  /** A proposed command. Command, key and value never change after
      construction; only the executed flag is updated in place. A null key or
      value is None. */
  class Value {
    const command: Command
    const key: Option<string>
    const value: Option<string>
    var executed: bool

    /** Value(command, key, value): a command that has not been executed. */
    constructor (command: Command, key: Option<string>, value: Option<string>)
      ensures this.command == command && this.key == key && this.value == value
      ensures NotExecuted()
    {
      this.command := command;
      this.key := key;
      this.value := value;
      executed := false;
    }

    /** Value(): the no-op command, with null key and null value. */
    constructor NoOp()
      ensures command == NO_OP && key == None && value == None
      ensures NotExecuted()
    {
      command := NO_OP;
      key := None;
      value := None;
      executed := false;
    }

    /** Marks the value executed. No operation ever clears the flag again. */
    method SetExecuted()
      modifies this
      ensures executed
    {
      executed := true;
    }

    /** notExecuted: the cluster has not yet executed this value. */
    predicate NotExecuted()
      reads this
    {
      !executed
    }

    /** Value.equals: the same object, or another value whose key and value
        are both non-null and equal to this one's and whose command matches.
        A value with a null key or a null value (a DELETE or a NO_OP) is
        therefore equal to no object but itself. */
    predicate Equals(other: Value?)
      ensures this == other ==> Equals(other)
      ensures (key.None? || value.None?) ==> (Equals(other) <==> this == other)
    {
      || this == other
      || (other != null && key.Some? && key == other.key && value.Some? && value == other.value
          && command == other.command)
    }
  }

  /** Between two different objects, equality is content equality with
      non-null key and value. */
  lemma EqualsDistinct(a: Value, b: Value)
    requires a != b
    ensures a.Equals(b) <==> a.key.Some? && a.value.Some? && a.key == b.key && a.value == b.value && a.command == b.command
  {
  }

  /** Equality is symmetric ... */
  lemma EqualsSymmetric(a: Value, b: Value)
    ensures a.Equals(b) <==> b.Equals(a)
  {
  }

  /** ... and transitive, on the values it relates. */
  lemma EqualsTransitive(a: Value, b: Value, c: Value)
    requires a.Equals(b) && b.Equals(c)
    ensures a.Equals(c)
  {
  }

  /** Two separately built DELETE values for the same key never match, while
      two separately built PUT values with the same key and value do. */
  method DeleteCopiesDoNotMatch(key: string, v: string) returns (deletesMatch: bool, putsMatch: bool)
    ensures !deletesMatch && putsMatch
  {
    var d1 := new Value(DELETE, Some(key), None);
    var d2 := new Value(DELETE, Some(key), None);
    deletesMatch := d1.Equals(d2);
    var p1 := new Value(PUT, Some(key), Some(v));
    var p2 := new Value(PUT, Some(key), Some(v));
    putsMatch := p1.Equals(p2);
  }
}
