/** Paxos suggestion ids: a round number with the proposing server's id as the
    tiebreaker. */
module SuggestionIds {
  import opened JavaLang

  datatype SuggestionId = SuggestionId(suggestNum: int, serverId: string)

  /** The id every acceptor starts from, and the starting point of the
      proposer's search for the highest accepted id. */
  const Initial := SuggestionId(0, "")

  /** SuggestionId.compareTo: the round decides; equal rounds fall back to
      String.compareTo on the server ids. */
  function CompareTo(a: SuggestionId, b: SuggestionId): (c: int)
    ensures a.suggestNum > b.suggestNum ==> c == 1
    ensures a.suggestNum < b.suggestNum ==> c == -1
    ensures a.suggestNum == b.suggestNum ==>
      (c == 0 <==> a.serverId == b.serverId) && (c < 0 <==> LexLess(a.serverId, b.serverId))
  {
    CompareStringsMeaning(a.serverId, b.serverId);
    if a.suggestNum > b.suggestNum then 1
    else if a.suggestNum < b.suggestNum then -1
    else CompareStrings(a.serverId, b.serverId)
  }

  /** a is ranked at least as high as b. */
  predicate AtLeast(a: SuggestionId, b: SuggestionId) {
    CompareTo(a, b) >= 0
  }

  /** Every id compares equal to itself. */
  lemma CompareReflexive(a: SuggestionId)
    ensures CompareTo(a, a) == 0
  {
  }

  /** The comparison is zero exactly on equal ids. */
  lemma CompareZeroIffEqual(a: SuggestionId, b: SuggestionId)
    ensures CompareTo(a, b) == 0 <==> a == b
  {
  }

  /** Swapping the arguments negates the result, so the two signs are
      opposite. */
  lemma CompareAntisymmetric(a: SuggestionId, b: SuggestionId)
    ensures CompareTo(a, b) == -CompareTo(b, a)
  {
    CompareStringsAntisymmetric(a.serverId, b.serverId);
  }

  /** "At most" is transitive, so the order is a total preorder that can
      serve as a watermark. */
  lemma CompareTransitive(a: SuggestionId, b: SuggestionId, c: SuggestionId)
    requires CompareTo(a, b) <= 0 && CompareTo(b, c) <= 0
    ensures CompareTo(a, c) <= 0
  {
    if a.suggestNum == b.suggestNum == c.suggestNum {
      CompareStringsTransitive(a.serverId, b.serverId, c.serverId);
    }
  }

  /** A strict step followed by a weak one is strict. */
  lemma CompareStrictTransitive(a: SuggestionId, b: SuggestionId, c: SuggestionId)
    requires (CompareTo(a, b) < 0 && CompareTo(b, c) <= 0) || (CompareTo(a, b) <= 0 && CompareTo(b, c) < 0)
    ensures CompareTo(a, c) < 0
  {
    CompareTransitive(a, b, c);
    if CompareTo(a, c) == 0 {
      assert a == c;
      CompareAntisymmetric(a, b);
    }
  }

  /** The order is total: of two ids, one is at least the other. */
  lemma CompareTotal(a: SuggestionId, b: SuggestionId)
    ensures AtLeast(a, b) || AtLeast(b, a)
  {
    CompareAntisymmetric(a, b);
  }
}
