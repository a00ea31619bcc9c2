/** The pieces of java.lang that the key/value store depends on: nullable
    references to immutable values, unchecked exceptions, String.compareTo and
    String.split(" "). */
module JavaLang {

  /** A reference to an immutable value that may be null. */
  datatype Option<T> = None | Some(value: T)

  /** The unchecked exceptions that the modelled code can throw. */
  datatype Exception = NullPointer | ArrayIndexOutOfBounds | IllegalArgument

  /** The end of a call: a normal return or a thrown exception. */
  datatype Outcome<T> = Returned(value: T) | Thrown(exception: Exception)

  // ---------------------------------------------------------------------------
  // String.length
  // ---------------------------------------------------------------------------

  /** The highest character held in a single UTF-16 code unit. */
  const MAX_BMP_CHAR := 0xFFFF

  /** String.length: the number of UTF-16 code units, so a character above
      the Basic Multilingual Plane counts twice. */
  function Utf16Length(s: string): (n: nat)
    ensures |s| <= n <= 2 * |s|
    ensures (forall k :: 0 <= k < |s| ==> s[k] as int <= MAX_BMP_CHAR) ==> n == |s|
    ensures (forall k :: 0 <= k < |s| ==> s[k] as int > MAX_BMP_CHAR) ==> n == 2 * |s|
    decreases |s|
  {
    if |s| == 0 then 0
    else Utf16Length(s[..|s| - 1]) + (if s[|s| - 1] as int > MAX_BMP_CHAR then 2 else 1)
  }

  // ---------------------------------------------------------------------------
  // String.compareTo
  // ---------------------------------------------------------------------------

  /** String.compareTo: the difference of the first pair of characters that
      differ, or the difference of the lengths when one string is a prefix of
      the other. */
  function CompareStrings(a: string, b: string): (c: int)
    decreases |a|
  {
    if |a| == 0 || |b| == 0 then |a| - |b|
    else if a[0] != b[0] then a[0] as int - b[0] as int
    else CompareStrings(a[1..], b[1..])
  }

  /** Lexicographic order, defined without CompareStrings: a is a proper
      prefix of b, or a has the smaller character at the first difference. */
  ghost predicate LexLess(a: string, b: string) {
    || (|a| < |b| && a == b[..|a|])
    || exists k :: 0 <= k < |a| && k < |b| && a[..k] == b[..k] && a[k] < b[k]
  }

  /** Two non-empty strings with the same first character are ordered as
      their tails are. */
  lemma LexLessTails(a: string, b: string)
    requires |a| > 0 && |b| > 0 && a[0] == b[0]
    ensures LexLess(a, b) <==> LexLess(a[1..], b[1..])
  {
    if LexLess(a, b) {
      LexLessDropHead(a, b);
    }
    if LexLess(a[1..], b[1..]) {
      LexLessAddHead(a, b);
    }
  }

  lemma LexLessDropHead(a: string, b: string)
    requires |a| > 0 && |b| > 0 && a[0] == b[0] && LexLess(a, b)
    ensures LexLess(a[1..], b[1..])
  {
    if |a| < |b| && a == b[..|a|] {
      forall i | 0 <= i < |a| - 1
        ensures a[1..][i] == b[1..][..|a| - 1][i]
      {
        assert a[i + 1] == b[..|a|][i + 1];
      }
      assert a[1..] == b[1..][..|a[1..]|];
    } else {
      var k :| 0 <= k < |a| && k < |b| && a[..k] == b[..k] && a[k] < b[k];
      assert k != 0;
      assert a[1..][..k - 1] == a[..k][1..] == b[..k][1..] == b[1..][..k - 1];
      assert a[1..][k - 1] < b[1..][k - 1];
    }
  }

  lemma LexLessAddHead(a: string, b: string)
    requires |a| > 0 && |b| > 0 && a[0] == b[0] && LexLess(a[1..], b[1..])
    ensures LexLess(a, b)
  {
    if |a[1..]| < |b[1..]| && a[1..] == b[1..][..|a[1..]|] {
      assert a == [a[0]] + a[1..] == [b[0]] + b[1..][..|a| - 1] == b[..|a|];
    } else {
      var k :| 0 <= k < |a[1..]| && k < |b[1..]| && a[1..][..k] == b[1..][..k] && a[1..][k] < b[1..][k];
      assert a[..k + 1] == [a[0]] + a[1..][..k] == [b[0]] + b[1..][..k] == b[..k + 1];
      assert a[k + 1] < b[k + 1];
    }
  }

  /** CompareStrings is zero exactly on equal strings and negative exactly
      when the first string precedes the second lexicographically. */
  lemma {:induction false} CompareStringsMeaning(a: string, b: string)
    ensures CompareStrings(a, b) == 0 <==> a == b
    ensures CompareStrings(a, b) < 0 <==> LexLess(a, b)
    decreases |a|
  {
    if |a| == 0 || |b| == 0 {
      if |a| == 0 && |b| > 0 {
        assert a == b[..0];
      }
    } else if a[0] != b[0] {
      if a[0] < b[0] {
        assert a[..0] == b[..0];
      }
      if LexLess(a, b) && !(|a| < |b| && a == b[..|a|]) {
        var k :| 0 <= k < |a| && k < |b| && a[..k] == b[..k] && a[k] < b[k];
        if k > 0 {
          assert a[..k][0] == b[..k][0];
        }
      }
    } else {
      CompareStringsMeaning(a[1..], b[1..]);
      LexLessTails(a, b);
      assert a == [a[0]] + a[1..] && b == [b[0]] + b[1..];
    }
  }

  /** Swapping the arguments negates the result. */
  lemma {:induction false} CompareStringsAntisymmetric(a: string, b: string)
    ensures CompareStrings(a, b) == -CompareStrings(b, a)
    decreases |a|
  {
    if |a| > 0 && |b| > 0 && a[0] == b[0] {
      CompareStringsAntisymmetric(a[1..], b[1..]);
    }
  }

  /** "At most" on strings is transitive. */
  lemma {:induction false} CompareStringsTransitive(a: string, b: string, c: string)
    requires CompareStrings(a, b) <= 0 && CompareStrings(b, c) <= 0
    ensures CompareStrings(a, c) <= 0
    decreases |a|
  {
    if |a| > 0 && |b| > 0 && |c| > 0 && a[0] == b[0] && b[0] == c[0] {
      CompareStringsTransitive(a[1..], b[1..], c[1..]);
    }
  }

  // ---------------------------------------------------------------------------
  // String.split(" ")
  // ---------------------------------------------------------------------------

  /** The pieces of s between its spaces, empty pieces included: a string
      with n spaces has n + 1 pieces. */
  function Pieces(s: string): (r: seq<string>)
    ensures |r| >= 1
    ensures forall k :: 0 <= k < |r| ==> ' ' !in r[k]
    decreases |s|
  {
    if |s| == 0 then [""]
    else
      var rest := Pieces(s[1..]);
      if s[0] == ' ' then [""] + rest
      else [[s[0]] + rest[0]] + rest[1..]
  }

  /** The tokens with one space between neighbours; the inverse of Pieces. */
  function Join(ts: seq<string>): (s: string)
    decreases |ts|
  {
    if |ts| == 0 then ""
    else if |ts| == 1 then ts[0]
    else ts[0] + " " + Join(ts[1..])
  }

  /** A run of m spaces. */
  function Spaces(m: nat): (r: string)
    ensures |r| == m && forall k :: 0 <= k < m ==> r[k] == ' '
  {
    seq(m, _ => ' ')
  }

  /** m empty strings. */
  function Empties(m: nat): (r: seq<string>)
    ensures |r| == m && forall k :: 0 <= k < m ==> r[k] == ""
  {
    seq(m, _ => "")
  }

  /** Joining the pieces gives back the string. */
  lemma {:induction false} JoinPieces(s: string)
    ensures Join(Pieces(s)) == s
    decreases |s|
  {
    if |s| > 0 {
      var rest := Pieces(s[1..]);
      JoinPieces(s[1..]);
      if s[0] == ' ' {
        assert s == [' '] + s[1..];
      } else {
        if |rest| == 1 {
          assert s == [s[0]] + s[1..];
        } else {
          assert Join(rest) == rest[0] + " " + Join(rest[1..]);
          assert [[s[0]] + rest[0]] + rest[1..] == [[s[0]] + rest[0]] + rest[1..];
          assert ([[s[0]] + rest[0]] + rest[1..])[1..] == rest[1..];
          assert s == [s[0]] + s[1..];
        }
      }
    }
  }

  /** Prefixing a space-free string only extends the first piece. */
  lemma {:induction false} PiecesOfPrefix(a: string, b: string)
    requires ' ' !in a
    ensures Pieces(a + b) == [a + Pieces(b)[0]] + Pieces(b)[1..]
    decreases |a|
  {
    if |a| > 0 {
      assert (a + b)[1..] == a[1..] + b;
      PiecesOfPrefix(a[1..], b);
      var rest := Pieces(a[1..] + b);
      assert a[0] != ' ' && (a + b)[0] == a[0];
      assert rest[0] == a[1..] + Pieces(b)[0] && rest[1..] == Pieces(b)[1..];
      assert Pieces(a + b) == [[a[0]] + rest[0]] + rest[1..];
      assert [a[0]] + (a[1..] + Pieces(b)[0]) == a + Pieces(b)[0];
    } else {
      assert a + b == b;
      assert a + Pieces(b)[0] == Pieces(b)[0];
      assert [Pieces(b)[0]] + Pieces(b)[1..] == Pieces(b);
    }
  }

  /** Pieces inverts Join on space-free tokens. */
  lemma {:induction false} PiecesJoin(ts: seq<string>)
    requires |ts| >= 1
    requires forall k :: 0 <= k < |ts| ==> ' ' !in ts[k]
    ensures Pieces(Join(ts)) == ts
    decreases |ts|
  {
    if |ts| == 1 {
      PiecesOfPrefix(ts[0], "");
      assert ts[0] + "" == ts[0];
    } else {
      PiecesJoin(ts[1..]);
      assert Join(ts) == ts[0] + (" " + Join(ts[1..]));
      PiecesOfPrefix(ts[0], " " + Join(ts[1..]));
      assert (" " + Join(ts[1..]))[1..] == Join(ts[1..]);
      assert Pieces(" " + Join(ts[1..])) == [""] + ts[1..];
      assert ts[0] + "" == ts[0];
      assert ts == [ts[0]] + ts[1..];
    }
  }

  /** Joining trailing empty tokens appends one space per empty token. */
  lemma {:induction false} JoinTrailingEmpties(ts: seq<string>, m: nat)
    requires |ts| >= 1
    ensures Join(ts + Empties(m)) == Join(ts) + Spaces(m)
    decreases |ts|, m
  {
    if |ts| == 1 {
      if m == 0 {
        assert ts + Empties(0) == ts;
      } else {
        JoinTrailingEmpties([""], m - 1);
        assert ([""] + Empties(m - 1)) == Empties(m);
        assert ts + Empties(m) == [ts[0]] + Empties(m);
        assert Join([""]) + Spaces(m - 1) == Spaces(m - 1);
        assert ts[0] + " " + Spaces(m - 1) == ts[0] + Spaces(m);
      }
    } else {
      JoinTrailingEmpties(ts[1..], m);
      assert (ts + Empties(m))[1..] == ts[1..] + Empties(m);
    }
  }

  /** The pieces with trailing empty pieces removed. */
  function DropTrailingEmpty(ts: seq<string>): (r: seq<string>)
    ensures |r| <= |ts| && r == ts[..|r|]
    ensures r == [] || r[|r| - 1] != ""
    ensures forall k :: |r| <= k < |ts| ==> ts[k] == ""
    decreases |ts|
  {
    if |ts| > 0 && ts[|ts| - 1] == "" then DropTrailingEmpty(ts[..|ts| - 1]) else ts
  }

  /** String.split(" ") with the default limit 0: a string without a space
      is its own only token; otherwise every space separates two tokens,
      leading and interior empty tokens are kept and trailing ones dropped. */
  function Split(s: string): (r: seq<string>)
    ensures forall k :: 0 <= k < |r| ==> ' ' !in r[k]
    ensures ' ' in s && r != [] ==> r[|r| - 1] != ""
    ensures ' ' !in s ==> r == [s]
  {
    if ' ' !in s then [s] else DropTrailingEmpty(Pieces(s))
  }

  /** Two or more space-free tokens, the last non-empty, come back from
      split exactly for the joined tokens followed by any run of spaces. */
  lemma SplitCharacterisation(s: string, ts: seq<string>)
    requires |ts| >= 2 && ts[|ts| - 1] != ""
    requires forall k :: 0 <= k < |ts| ==> ' ' !in ts[k]
    ensures Split(s) == ts <==> exists m: nat :: s == Join(ts) + Spaces(m)
  {
    assert Join(ts) == ts[0] + " " + Join(ts[1..]);
    assert Join(ts)[|ts[0]|] == ' ';
    if Split(s) == ts {
      assert ' ' in s;
      var p := Pieces(s);
      var m: nat := |p| - |ts|;
      assert p == ts + Empties(m);
      JoinPieces(s);
      JoinTrailingEmpties(ts, m);
      assert s == Join(ts) + Spaces(m);
    }
    if exists m: nat :: s == Join(ts) + Spaces(m) {
      var m: nat :| s == Join(ts) + Spaces(m);
      JoinTrailingEmpties(ts, m);
      var all := ts + Empties(m);
      assert forall k :: 0 <= k < |all| ==> ' ' !in all[k];
      PiecesJoin(all);
      assert s[|ts[0]|] == ' ';
      assert Pieces(s) == all;
      DropEmptiesAfter(ts, m);
    }
  }

  /** Dropping the trailing empties of tokens followed by m empties leaves the
      tokens when their last one is non-empty. */
  lemma {:induction false} DropEmptiesAfter(ts: seq<string>, m: nat)
    requires |ts| >= 1 && ts[|ts| - 1] != ""
    ensures DropTrailingEmpty(ts + Empties(m)) == ts
    decreases m
  {
    if m == 0 {
      assert ts + Empties(0) == ts;
    } else {
      assert (ts + Empties(m))[..|ts| + m - 1] == ts + Empties(m - 1);
      DropEmptiesAfter(ts, m - 1);
    }
  }

  /** A line made only of spaces (at least one) splits into no tokens at all. */
  lemma {:induction false} SplitOfBlankLine(s: string)
    requires |s| > 0 && forall k :: 0 <= k < |s| ==> s[k] == ' '
    ensures Split(s) == []
  {
    assert s[0] == ' ';
    PiecesOfBlank(s);
    DropAllEmpty(Pieces(s));
  }

  lemma {:induction false} PiecesOfBlank(s: string)
    requires forall k :: 0 <= k < |s| ==> s[k] == ' '
    ensures forall k :: 0 <= k < |Pieces(s)| ==> Pieces(s)[k] == ""
    decreases |s|
  {
    if |s| > 0 {
      PiecesOfBlank(s[1..]);
    }
  }

  lemma DropAllEmpty(ts: seq<string>)
    requires forall k :: 0 <= k < |ts| ==> ts[k] == ""
    ensures DropTrailingEmpty(ts) == []
  {
  }
}
