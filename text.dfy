/**
 * The ordinal string operations the controller relies on: `StartsWith`,
 * `Contains`, `IndexOf`, `Split(..., RemoveEmptyEntries)` and `Trim`.
 * Strings are sequences of characters; every comparison is ordinal.
 */
module Text {
  import opened Wrappers

  /** `p` is a prefix of `s` (ordinal `s.StartsWith(p)`). */
  predicate IsPrefix(p: string, s: string)
  {
    |p| <= |s| && s[..|p|] == p
  }

  /** `d` occurs in `s` starting at index `i`. */
  predicate OccursAt(s: string, d: string, i: nat)
  {
    i + |d| <= |s| && s[i..i + |d|] == d
  }

  /** Ordinal `s.Contains(d)`. */
  predicate Contains(s: string, d: string)
  {
    exists i: nat | i <= |s| :: OccursAt(s, d, i)
  }

  /** An occurrence past the first character is an occurrence in the tail, one place earlier. */
  lemma OccursInTail(s: string, d: string, j: nat)
    requires s != [] && j > 0
    ensures OccursAt(s, d, j) <==> OccursAt(s[1..], d, j - 1)
  {
    if j + |d| <= |s| {
      assert s[j..j + |d|] == s[1..][j - 1..j - 1 + |d|];
    }
  }

  /** Ordinal `s.IndexOf(d)`: the first position where `d` occurs, if any. */
  function IndexOf(s: string, d: string): (r: Option<nat>)
    ensures r.Some? ==> OccursAt(s, d, r.value)
    ensures r.Some? ==> forall j: nat :: j < r.value ==> !OccursAt(s, d, j)
    ensures r.None? <==> !Contains(s, d)
    decreases |s|
  {
    if IsPrefix(d, s) then
      assert OccursAt(s, d, 0);
      Some(0)
    else if s == [] then None
    else
      var tail := IndexOf(s[1..], d);
      forall j: nat | 0 < j ensures OccursAt(s, d, j) <==> OccursAt(s[1..], d, j - 1) {
        OccursInTail(s, d, j);
      }
      assert !OccursAt(s, d, 0);
      if tail.None? then
        None
      else
        Some(tail.value + 1)
  }

  /** The inverse of `Split`: the pieces glued back together with `d` between them. */
  function Join(pieces: seq<string>, d: string): string
  {
    if |pieces| == 0 then []
    else if |pieces| == 1 then pieces[0]
    else pieces[0] + d + Join(pieces[1..], d)
  }

  /**
   * `s.Split(new[] { d }, StringSplitOptions.None)`: the pieces between the
   * leftmost non-overlapping occurrences of `d`, empty pieces included.
   */
  function Split(s: string, d: string): (pieces: seq<string>)
    requires d != []
    ensures |pieces| >= 1
    ensures Contains(s, d) <==> |pieces| > 1
    ensures forall k :: 0 <= k < |pieces| ==> !Contains(pieces[k], d)
    ensures Join(pieces, d) == s
    decreases |s|
  {
    match IndexOf(s, d)
    case None => [s]
    case Some(i) =>
      var rest := Split(s[i + |d|..], d);
      assert !Contains(s[..i], d) by {
        forall j: nat | OccursAt(s[..i], d, j) ensures false {
          assert s[..i][j..j + |d|] == s[j..j + |d|];
          assert OccursAt(s, d, j);
        }
      }
      assert s[..i] + d + s[i + |d|..] == s by {
        assert s == s[..i] + s[i..i + |d|] + s[i + |d|..];
      }
      [s[..i]] + rest
  }

  /** The `StringSplitOptions.RemoveEmptyEntries` filter. */
  function RemoveEmpty(pieces: seq<string>): (r: seq<string>)
    ensures |r| <= |pieces|
    ensures forall k :: 0 <= k < |r| ==> r[k] != []
    ensures forall x :: x in r <==> x in pieces && x != []
    ensures pieces != [] && pieces[0] != [] ==> r != [] && r[0] == pieces[0]
  {
    if pieces == [] then []
    else if pieces[0] == [] then RemoveEmpty(pieces[1..])
    else [pieces[0]] + RemoveEmpty(pieces[1..])
  }

  /** The filter works piece by piece: filtering a concatenation concatenates the filtered parts. */
  lemma {:induction false} RemoveEmptyConcat(a: seq<string>, b: seq<string>)
    ensures RemoveEmpty(a + b) == RemoveEmpty(a) + RemoveEmpty(b)
    decreases |a|
  {
    if a == [] {
      assert a + b == b;
    } else {
      assert (a + b)[1..] == a[1..] + b;
      RemoveEmptyConcat(a[1..], b);
    }
  }

  /** A single piece is kept exactly when it is not empty. */
  lemma RemoveEmptySingle(x: string)
    ensures RemoveEmpty([x]) == if x == [] then [] else [x]
  {
  }

  /** Pieces that are all non-empty pass the filter unchanged, in order and with repetitions. */
  lemma {:induction false} RemoveEmptyKeepsNonEmpty(pieces: seq<string>)
    requires forall k :: 0 <= k < |pieces| ==> pieces[k] != []
    ensures RemoveEmpty(pieces) == pieces
    decreases |pieces|
  {
    if pieces != [] {
      RemoveEmptyKeepsNonEmpty(pieces[1..]);
      assert [pieces[0]] + pieces[1..] == pieces;
    }
  }

  /** How many characters at the start of `s` belong to `cs`. */
  function LeadingIn(s: string, cs: set<char>): (n: nat)
    ensures n <= |s|
    ensures forall k :: 0 <= k < n ==> s[k] in cs
    ensures n < |s| ==> s[n] !in cs
  {
    if s != [] && s[0] in cs then
      var n := 1 + LeadingIn(s[1..], cs);
      assert forall k :: 1 <= k < n ==> s[k] == s[1..][k - 1];
      n
    else 0
  }

  /** How many characters at the end of `s` belong to `cs`. */
  function TrailingIn(s: string, cs: set<char>): (n: nat)
    ensures n <= |s|
    ensures forall k :: |s| - n <= k < |s| ==> s[k] in cs
    ensures n < |s| ==> s[|s| - n - 1] !in cs
  {
    if s != [] && s[|s| - 1] in cs then
      var n := 1 + TrailingIn(s[..|s| - 1], cs);
      assert forall k :: |s| - n <= k < |s| - 1 ==> s[k] == s[..|s| - 1][k];
      n
    else 0
  }

  /** `s.TrimStart(cs)`: drops the leading characters that belong to `cs`. */
  function TrimStart(s: string, cs: set<char>): string
  {
    s[LeadingIn(s, cs)..]
  }

  /** `s.TrimEnd(cs)`: drops the trailing characters that belong to `cs`. */
  function TrimEnd(s: string, cs: set<char>): string
  {
    s[..|s| - TrailingIn(s, cs)]
  }

  /** `s.Trim(cs)`: drops the leading and the trailing characters of `cs`. */
  function Trim(s: string, cs: set<char>): string
  {
    TrimEnd(TrimStart(s, cs), cs)
  }

  /** `n` copies of the character `c`. */
  function Repeat(c: char, n: nat): (r: string)
    ensures |r| == n && forall k :: 0 <= k < n ==> r[k] == c
  {
    if n == 0 then [] else [c] + Repeat(c, n - 1)
  }

  /** Padding in front of a text that does not start with a trimmed character is all trimmed. */
  lemma TrimStartRepeat(s: string, cs: set<char>, c: char, n: nat)
    requires c in cs && s != [] && s[0] !in cs
    ensures TrimStart(Repeat(c, n) + s, cs) == s
  {
    var padded := Repeat(c, n) + s;
    assert padded[n] == s[0];
    assert LeadingIn(padded, cs) == n;
    assert padded[n..] == s;
  }

  /** Padding after a text that does not end with a trimmed character is all trimmed. */
  lemma TrimEndRepeat(s: string, cs: set<char>, c: char, n: nat)
    requires c in cs && s != [] && s[|s| - 1] !in cs
    ensures TrimEnd(s + Repeat(c, n), cs) == s
  {
    var padded := s + Repeat(c, n);
    assert padded[|s| - 1] == s[|s| - 1];
    assert TrailingIn(padded, cs) == n;
    assert padded[..|s|] == s;
  }

  /** A character outside `cs` survives `TrimStart`, shifted by the number of characters trimmed. */
  lemma TrimStartKeeps(s: string, cs: set<char>, k: nat)
    requires k < |s| && s[k] !in cs
    ensures LeadingIn(s, cs) <= k && TrimStart(s, cs)[k - LeadingIn(s, cs)] == s[k]
  {
  }

  /** A character outside `cs` survives `TrimEnd`, at the same place. */
  lemma TrimEndKeeps(s: string, cs: set<char>, k: nat)
    requires k < |s| && s[k] !in cs
    ensures k < |TrimEnd(s, cs)| && TrimEnd(s, cs)[k] == s[k]
  {
  }

  /** A character outside `cs` survives `Trim`: it occurs in the trimmed text. */
  lemma TrimKeeps(s: string, cs: set<char>, k: nat)
    requires k < |s| && s[k] !in cs
    ensures exists j :: 0 <= j < |Trim(s, cs)| && Trim(s, cs)[j] == s[k]
  {
    TrimStartKeeps(s, cs, k);
    var j := k - LeadingIn(s, cs);
    TrimEndKeeps(TrimStart(s, cs), cs, j);
    assert Trim(s, cs)[j] == s[k];
  }

  /** A string that neither starts nor ends with a character of `cs` is its own trim. */
  lemma TrimUntouched(s: string, cs: set<char>)
    requires s != [] ==> s[0] !in cs && s[|s| - 1] !in cs
    ensures Trim(s, cs) == s
  {
  }
}
