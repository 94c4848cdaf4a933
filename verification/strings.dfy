/** The string operations the extractor relies on: Python's `str.strip()`
    and `str.join` with a one-character separator, with `str.split` as the
    inverse that states what a join keeps. */
module Strings {

  /** The characters Python's `str.isspace()` accepts; `str.strip()` with no
      argument removes exactly these from both ends of a string. */
  predicate IsSpace(c: char) {
    if c <= ' ' then '\t' <= c <= '\r' || '\U{1C}' <= c
    else if c < '\U{85}' then false
    else c == '\U{85}' || c == '\U{A0}' || c == '\U{1680}'
         || ('\U{2000}' <= c <= '\U{200A}')
         || c == '\U{2028}' || c == '\U{2029}' || c == '\U{202F}' || c == '\U{205F}'
         || c == '\U{3000}'
  }

  predicate AllSpace(s: string) {
    forall i :: 0 <= i < |s| ==> IsSpace(s[i])
  }

  /** Neither end of `s` is whitespace. */
  predicate IsStripped(s: string) {
    s == [] || (!IsSpace(s[0]) && !IsSpace(s[|s| - 1]))
  }

  /** `r` is what remains of `s` once the whitespace margins `s[..i]` and
      `s[j..]` are cut off, and neither end of `r` is whitespace. */
  predicate TrimsAt(s: string, r: string, i: nat, j: nat) {
    i <= j <= |s| && r == s[i..j] && AllSpace(s[..i]) && AllSpace(s[j..]) && IsStripped(r)
  }

  /** `r` is `s` with some whitespace margins cut off, and no whitespace at
      either of its own ends. */
  ghost predicate Trims(s: string, r: string) {
    exists i: nat, j: nat :: TrimsAt(s, r, i, j)
  }

  /** Python's `str.strip()` with no argument: whitespace is cut off both
      ends until neither end is whitespace. */
  function Strip(s: string): (r: string)
    ensures IsStripped(r) && |r| <= |s|
    decreases |s|
  {
    if s != [] && IsSpace(s[0]) then Strip(s[1..])
    else if s != [] && IsSpace(s[|s| - 1]) then Strip(s[..|s| - 1])
    else s
  }

  /** A leading whitespace character widens the left margin by one. */
  lemma MarginAfterSpace(s: string, r: string, i: nat, j: nat)
    requires s != [] && IsSpace(s[0]) && TrimsAt(s[1..], r, i, j)
    ensures TrimsAt(s, r, i + 1, j + 1)
  {
    var t := s[1..];
    assert r == s[i + 1..j + 1];
    assert s[j + 1..] == t[j..];
    var p := s[..i + 1];
    forall m | 0 <= m < i + 1 ensures IsSpace(p[m]) {
      if m > 0 {
        assert p[m] == t[..i][m - 1];
      }
    }
  }

  /** A trailing whitespace character widens the right margin by one. */
  lemma MarginBeforeSpace(s: string, r: string, i: nat, j: nat)
    requires s != [] && IsSpace(s[|s| - 1]) && TrimsAt(s[..|s| - 1], r, i, j)
    ensures TrimsAt(s, r, i, j)
  {
    var t := s[..|s| - 1];
    assert r == s[i..j];
    assert s[..i] == t[..i];
    var p := s[j..];
    forall m | 0 <= m < |p| ensures IsSpace(p[m]) {
      if j + m < |s| - 1 {
        assert p[m] == t[j..][m];
      }
    }
  }

  /** `Strip` cuts exactly the whitespace margins off. */
  lemma {:induction false} StripTrims(s: string)
    ensures Trims(s, Strip(s))
    decreases |s|
  {
    var r := Strip(s);
    if s != [] && IsSpace(s[0]) {
      StripTrims(s[1..]);
      var i: nat, j: nat :| TrimsAt(s[1..], r, i, j);
      MarginAfterSpace(s, r, i, j);
    } else if s != [] && IsSpace(s[|s| - 1]) {
      StripTrims(s[..|s| - 1]);
      var i: nat, j: nat :| TrimsAt(s[..|s| - 1], r, i, j);
      MarginBeforeSpace(s, r, i, j);
    } else {
      assert r == s[0..|s|] && s[..0] == [] && s[|s|..] == [];
      assert TrimsAt(s, r, 0, |s|);
    }
  }

  /** Two whitespace-only prefixes that each stop at a non-whitespace
      character stop at the same one. */
  lemma PrefixesMeet(s: string, i: nat, k: nat)
    requires i < |s| && k < |s|
    requires AllSpace(s[..i]) && AllSpace(s[..k])
    requires !IsSpace(s[i]) && !IsSpace(s[k])
    ensures i == k
  {
  }

  /** Two whitespace-only suffixes that each start after a non-whitespace
      character start at the same place. */
  lemma SuffixesMeet(s: string, j: nat, l: nat)
    requires 0 < j <= |s| && 0 < l <= |s|
    requires AllSpace(s[j..]) && AllSpace(s[l..])
    requires !IsSpace(s[j - 1]) && !IsSpace(s[l - 1])
    ensures j == l
  {
  }

  /** Whitespace before position `i` and from position `j` on, with nothing
      in between, is whitespace throughout. */
  lemma MarginsCover(s: string, i: nat, j: nat)
    requires i <= j <= |s|
    requires AllSpace(s[..i]) && AllSpace(s[j..])
    ensures i == j ==> AllSpace(s)
  {
    forall m | 0 <= m < |s| && i == j ensures IsSpace(s[m]) {
      assert m < i ==> s[..i][m] == s[m];
      assert j <= m ==> s[j..][m - j] == s[m];
    }
  }

  lemma InfixAllSpace(s: string, i: nat, j: nat)
    requires i <= j <= |s| && AllSpace(s)
    ensures AllSpace(s[i..j])
  {
    forall m | 0 <= m < j - i ensures IsSpace(s[i..j][m]) {
      assert s[i..j][m] == s[i + m];
    }
  }

  /** At most one string trims `s`, so `Trims` defines `Strip` independently
      of how it is computed. */
  lemma {:induction false} TrimsUnique(s: string, a: string, b: string)
    requires Trims(s, a) && Trims(s, b)
    ensures a == b
  {
    var i: nat, j: nat :| TrimsAt(s, a, i, j);
    var k: nat, l: nat :| TrimsAt(s, b, k, l);
    MarginsCover(s, i, j);
    MarginsCover(s, k, l);
    if AllSpace(s) {
      // A stripped infix of whitespace is empty.
      InfixAllSpace(s, i, j);
      InfixAllSpace(s, k, l);
    } else {
      // Both are non-empty: the first non-whitespace character of `s`
      // starts both, and the last one ends both.
      assert a[0] == s[i] && b[0] == s[k];
      PrefixesMeet(s, i, k);
      assert a[|a| - 1] == s[j - 1] && b[|b| - 1] == s[l - 1];
      SuffixesMeet(s, j, l);
    }
  }

  /** A string strips to nothing exactly when it is all whitespace. */
  lemma {:induction false} StripEmptyIffAllSpace(s: string)
    ensures Strip(s) == [] <==> AllSpace(s)
  {
    var r := Strip(s);
    StripTrims(s);
    var i: nat, j: nat :| TrimsAt(s, r, i, j);
    if r == [] {
      MarginsCover(s, i, j);
    }
  }

  /** Stripping is idempotent: a stripped string has no whitespace left at
      either end to cut. */
  lemma StripIdempotent(s: string)
    ensures Strip(Strip(s)) == Strip(s)
  {
  }

  /** The total length of the strings in `ts`. */
  function TotalLength(ts: seq<string>): nat
  {
    if ts == [] then 0 else |ts[0]| + TotalLength(ts[1..])
  }

  /** Python's `sep.join(ts)` for a one-character separator `sep`: the
      tokens in order, the first one leading, with one separator between
      each pair of neighbours. */
  function Join(ts: seq<string>, sep: char): (r: string)
    ensures |ts| >= 1 ==> |r| == TotalLength(ts) + |ts| - 1
    ensures |ts| >= 1 ==> r[..|ts[0]|] == ts[0]
    ensures |ts| >= 2 ==> r[|ts[0]|] == sep
  {
    if |ts| == 0 then ""
    else if |ts| == 1 then ts[0]
    else ts[0] + [sep] + Join(ts[1..], sep)
  }

  /** Python's `s.split(sep)`: the pieces between occurrences of `sep`. */
  function Split(s: string, sep: char): (r: seq<string>)
    ensures |r| >= 1
    ensures forall k :: 0 <= k < |r| ==> sep !in r[k]
  {
    if s == [] then [""]
    else
      var rest := Split(s[1..], sep);
      if s[0] == sep then [""] + rest
      else [[s[0]] + rest[0]] + rest[1..]
  }

  lemma {:induction false} SplitAfterPiece(a: string, sep: char, b: string)
    requires sep !in a
    ensures Split(a + [sep] + b, sep) == [a] + Split(b, sep)
    decreases |a|
  {
    var s := a + [sep] + b;
    if a == [] {
      assert s[1..] == b;
    } else {
      assert s[1..] == a[1..] + [sep] + b;
      SplitAfterPiece(a[1..], sep, b);
      assert [a[0]] + a[1..] == a;
    }
  }

  lemma {:induction false} SplitSinglePiece(a: string, sep: char)
    requires sep !in a
    ensures Split(a, sep) == [a]
    decreases |a|
  {
    if a != [] {
      SplitSinglePiece(a[1..], sep);
      assert [a[0]] + a[1..] == a;
    }
  }

  /** Splitting a join of separator-free tokens gives the tokens back. */
  lemma {:induction false} SplitJoin(ts: seq<string>, sep: char)
    requires |ts| >= 1
    requires forall k :: 0 <= k < |ts| ==> sep !in ts[k]
    ensures Split(Join(ts, sep), sep) == ts
    decreases |ts|
  {
    if |ts| == 1 {
      SplitSinglePiece(ts[0], sep);
    } else {
      SplitJoin(ts[1..], sep);
      SplitAfterPiece(ts[0], sep, Join(ts[1..], sep));
      assert [ts[0]] + ts[1..] == ts;
    }
  }

  /** Joining the pieces of a split gives the string back. */
  lemma {:induction false} JoinSplit(s: string, sep: char)
    ensures Join(Split(s, sep), sep) == s
    decreases |s|
  {
    if s != [] {
      var rest := Split(s[1..], sep);
      JoinSplit(s[1..], sep);
      if s[0] == sep {
        assert ([""] + rest)[1..] == rest;
      } else {
        var r := [[s[0]] + rest[0]] + rest[1..];
        assert r[1..] == rest[1..];
        if |rest| > 1 {
          assert Join(rest, sep) == rest[0] + [sep] + Join(rest[1..], sep);
        }
      }
    }
  }
}
