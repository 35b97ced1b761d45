/**
  The .NET string primitives the calculator relies on: `Char.IsWhiteSpace`,
  `String.IsNullOrWhiteSpace`, `String.Trim`, ordinal `StartsWith`/`EndsWith`
  and the search for the first occurrence of a character.
*/
module Text {

  /** `Char.IsWhiteSpace`: the Unicode space, line and paragraph separators,
      the control characters U+0009..U+000D, and U+0085. */
  predicate IsWhiteSpace(c: char) {
    || ('\t' <= c <= '\r')
    || c == ' '
    || c == '\U{85}'
    || c == '\U{A0}'
    || c == '\U{1680}'
    || ('\U{2000}' <= c <= '\U{200A}')
    || c == '\U{2028}'
    || c == '\U{2029}'
    || c == '\U{202F}'
    || c == '\U{205F}'
    || c == '\U{3000}'
  }

  /** `String.IsNullOrWhiteSpace` on a non-null string: empty, or whitespace only. */
  predicate IsBlank(s: string) {
    BlankBetween(s, 0, |s|)
  }

  /** Ordinal `s.StartsWith(p)`: `p` matches the start of `s` character by
      character. */
  function StartsWith(s: string, p: string): (b: bool)
    ensures b <==> |p| <= |s| && forall k :: 0 <= k < |p| ==> s[k] == p[k]
  {
    |p| <= |s| && s[..|p|] == p
  }

  /** Ordinal `s.EndsWith(p)`: `p` matches the end of `s` character by
      character. */
  function EndsWith(s: string, p: string): (b: bool)
    ensures b <==> |p| <= |s| && forall k :: 0 <= k < |p| ==> s[|s| - |p| + k] == p[k]
  {
    |p| <= |s| && s[|s| - |p|..] == p
  }

  /** Every character of `s` in the index range `lo..hi` is whitespace. */
  predicate BlankBetween(s: string, lo: nat, hi: nat)
    requires lo <= hi <= |s|
  {
    forall k :: lo <= k < hi ==> IsWhiteSpace(s[k])
  }

  /** The end of the whitespace run of `s` that starts at index `i`. */
  function SkipForward(s: string, i: nat): (j: nat)
    requires i <= |s|
    ensures i <= j <= |s| && BlankBetween(s, i, j)
    ensures j < |s| ==> !IsWhiteSpace(s[j])
    decreases |s| - i
  {
    if i < |s| && IsWhiteSpace(s[i]) then SkipForward(s, i + 1) else i
  }

  /** The start of the whitespace run of `s` that ends at index `j`,
      not going below `lo`. */
  function SkipBackward(s: string, lo: nat, j: nat): (b: nat)
    requires lo <= j <= |s|
    ensures lo <= b <= j && BlankBetween(s, b, j)
    ensures lo < b ==> !IsWhiteSpace(s[b - 1])
    decreases j
  {
    if lo < j && IsWhiteSpace(s[j - 1]) then SkipBackward(s, lo, j - 1) else j
  }

  /** `String.Trim()`: the infix of `s` left once the whitespace on both
      sides is removed; it neither starts nor ends with whitespace, and it
      is empty exactly when `s` is blank. */
  function Trim(s: string): (r: string)
    ensures exists a, b :: 0 <= a <= b <= |s| && r == s[a..b]
                           && BlankBetween(s, 0, a) && BlankBetween(s, b, |s|)
    ensures r != [] ==> !IsWhiteSpace(r[0]) && !IsWhiteSpace(r[|r| - 1])
    ensures r == [] <==> IsBlank(s)
  {
    var a := SkipForward(s, 0);
    var b := SkipBackward(s, a, |s|);
    s[a..b]
  }

  lemma {:induction false} SkipForwardPadded(s: string, i: nat, n: nat)
    requires i <= n < |s| && BlankBetween(s, i, n) && !IsWhiteSpace(s[n])
    ensures SkipForward(s, i) == n
    decreases n - i
  {
    if i < n {
      SkipForwardPadded(s, i + 1, n);
    }
  }

  lemma {:induction false} SkipBackwardPadded(s: string, lo: nat, m: nat, j: nat)
    requires lo < m <= j <= |s| && BlankBetween(s, m, j) && !IsWhiteSpace(s[m - 1])
    ensures SkipBackward(s, lo, j) == m
    decreases j
  {
    if m < j {
      SkipBackwardPadded(s, lo, m, j - 1);
    }
  }

  /** A text that neither starts nor ends with whitespace is its own trim. */
  lemma TrimUnpadded(x: string)
    requires x != [] && !IsWhiteSpace(x[0]) && !IsWhiteSpace(x[|x| - 1])
    ensures Trim(x) == x
  {
    SkipForwardPadded(x, 0, 0);
    SkipBackwardPadded(x, 0, |x|, |x|);
    assert x[0..|x|] == x;
  }

  /** Trimming removes exactly the whitespace padding around a text that
      neither starts nor ends with whitespace. */
  lemma TrimPadded(w1: string, x: string, w2: string)
    requires IsBlank(w1) && IsBlank(w2)
    requires x != [] && !IsWhiteSpace(x[0]) && !IsWhiteSpace(x[|x| - 1])
    ensures Trim(w1 + x + w2) == x
  {
    var s := w1 + x + w2;
    var n, m := |w1|, |w1| + |x|;
    assert forall k :: 0 <= k < n ==> s[k] == w1[k];
    assert forall k :: m <= k < |s| ==> s[k] == w2[k - m];
    assert s[n] == x[0] && s[m - 1] == x[|x| - 1];
    SkipForwardPadded(s, 0, n);
    SkipBackwardPadded(s, n, m, |s|);
    assert s[n..m] == x;
  }

  /** Index of the first occurrence of `c` in `s`, if any. */
  function IndexOf(s: string, c: char): (r: nat)
    ensures r <= |s|
    ensures r < |s| ==> s[r] == c
    ensures c !in s[..r]
  {
    if s == [] || s[0] == c then 0
    else
      var r := 1 + IndexOf(s[1..], c);
      assert s[..r] == [s[0]] + s[1..][..r - 1];
      r
  }

  /** The first occurrence of `c` lies right after a prefix without `c`. */
  lemma {:induction false} IndexOfAfter(u: string, c: char, v: string)
    requires c !in u
    ensures IndexOf(u + [c] + v, c) == |u|
    decreases |u|
  {
    if u != [] {
      assert (u + [c] + v)[1..] == u[1..] + [c] + v;
      IndexOfAfter(u[1..], c, v);
    }
  }
}
