/** The client's checks on its own input: on each argument token, and on
    the port it is given. */
module Clients {
  import opened JavaLang

  const PORT_MIN := 1024
  const PORT_MAX := 65535
  /** The longest argument token the protocol admits. */
  const MAX_INPUT_LENGTH := 25

  /** Characters of the regular-expression class \s: space, tab, newline,
      vertical tab, form feed and carriage return. */
  predicate IsWhitespace(c: char) {
    c == ' ' || c == '\t' || c == '\n' || c == '\U{0B}' || c == '\U{0C}' || c == '\r'
  }

  /** The line terminators that the regular-expression dot does not match. */
  predicate IsLineTerminator(c: char) {
    c == '\n' || c == '\r' || c == '\U{85}' || c == '\U{2028}' || c == '\U{2029}'
  }

  predicate AllWhitespace(s: string) {
    forall k :: 0 <= k < |s| ==> IsWhitespace(s[k])
  }

  predicate NoLineTerminator(s: string) {
    forall k :: 0 <= k < |s| ==> !IsLineTerminator(s[k])
  }

  /** String.matches(".*\\s+.*"): the whole string is a run without line
      terminators, one or more whitespace characters, and another run
      without line terminators. */
  predicate MatchesWhitespaceRegex(s: string) {
    exists i, j :: 0 <= i < j <= |s| && NoLineTerminator(s[..i]) && AllWhitespace(s[i..j]) && NoLineTerminator(s[j..])
  }

  /** isInvalid: a null token, a token longer than 25 UTF-16 code units,
      or one the whitespace pattern matches. */
  predicate IsInvalid(input: Option<string>)
    ensures input.None? ==> IsInvalid(input)
    ensures input.Some? && |input.value| > MAX_INPUT_LENGTH ==> IsInvalid(input)
  {
    || input.None?
    || Utf16Length(input.value) > MAX_INPUT_LENGTH
    || MatchesWhitespaceRegex(input.value)
  }

  /** On a token without line terminators, the pattern matches exactly when
      the token contains some whitespace character. */
  lemma IsInvalidMeaning(s: string)
    requires NoLineTerminator(s)
    ensures IsInvalid(Some(s)) <==> Utf16Length(s) > MAX_INPUT_LENGTH || exists k :: 0 <= k < |s| && IsWhitespace(s[k])
  {
    WhitespaceRegexMeaning(s);
  }

  lemma WhitespaceRegexMeaning(s: string)
    requires NoLineTerminator(s)
    ensures MatchesWhitespaceRegex(s) <==> exists k :: 0 <= k < |s| && IsWhitespace(s[k])
  {
    if exists k :: 0 <= k < |s| && IsWhitespace(s[k]) {
      var k :| 0 <= k < |s| && IsWhitespace(s[k]);
      assert s[k..k + 1] == [s[k]];
      assert NoLineTerminator(s[..k]) && AllWhitespace(s[k..k + 1]) && NoLineTerminator(s[k + 1..]);
    }
    if MatchesWhitespaceRegex(s) {
      var i, j :| 0 <= i < j <= |s| && NoLineTerminator(s[..i]) && AllWhitespace(s[i..j]) && NoLineTerminator(s[j..]);
      assert s[i..j][0] == s[i];
    }
  }

  /** Whatever the pattern matches contains whitespace, and a token can
      only be valid if it is at most 25 UTF-16 code units long. */
  lemma ValidTokenBounds(s: string)
    requires !IsInvalid(Some(s))
    ensures Utf16Length(s) <= MAX_INPUT_LENGTH && |s| <= MAX_INPUT_LENGTH
    ensures NoLineTerminator(s) ==> forall k :: 0 <= k < |s| ==> !IsWhitespace(s[k])
  {
    if NoLineTerminator(s) {
      IsInvalidMeaning(s);
    }
  }

  /** Because the dot stops at line terminators, a token whose whitespace
      characters are all line terminators with text between and around
      them passes the check. */
  lemma NewlinesPassTheCheck()
    ensures !IsInvalid(Some("a\nb\nc"))
  {
    var s := "a\nb\nc";
    forall i, j | 0 <= i < j <= |s|
      ensures !(NoLineTerminator(s[..i]) && AllWhitespace(s[i..j]) && NoLineTerminator(s[j..]))
    {
      if i >= 2 {
        assert s[..i][1] == '\n';
      } else if j <= 3 {
        assert s[j..][3 - j] == '\n';
      } else {
        assert s[i..j][2 - i] == 'b';
      }
    }
  }

  /** Thirteen emoji are thirteen characters but twenty-six UTF-16 code
      units, so the length check refuses them. */
  lemma AstralTokenTooLong()
    ensures var s := seq(13, _ => '\U{1F600}'); |s| == 13 && Utf16Length(s) == 26 && IsInvalid(Some(s))
  {
    var s := seq(13, _ => '\U{1F600}');
    assert forall k :: 0 <= k < |s| ==> s[k] as int > MAX_BMP_CHAR;
  }

  /** validatePort: a port outside 1024..65535 throws IllegalArgumentException.
      The server checks its port the same way. */
  function ValidatePort(port: int): (r: Outcome<()>)
    ensures r.Thrown? <==> port < PORT_MIN || port > PORT_MAX
    ensures r.Thrown? ==> r.exception == IllegalArgument
  {
    if port < PORT_MIN || port > PORT_MAX then Thrown(IllegalArgument) else Returned(())
  }
}
