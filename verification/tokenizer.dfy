/**
  `String.Split(string[] separators, StringSplitOptions.None)` as .NET
  implements it: the string is scanned left to right; at each position the
  separators are tried in array order and the FIRST one that occurs there is
  cut out, the scan resuming after it. Empty separators never match. Empty
  tokens are kept. An empty separator array splits on every character for
  which `Char.IsWhiteSpace` holds.
*/
module Tokenizer {
  import opened Wrappers
  import opened Text

  /** The result of a split: the tokens and, between each pair of neighbours,
      the separator text that was cut out there. */
  datatype Pieces = Pieces(tokens: seq<string>, separators: seq<string>)

  /** Separator `d` occurs in `s` at position `i`. */
  predicate OccursAt(s: string, i: nat, d: string) {
    d != [] && i + |d| <= |s| && s[i..i + |d|] == d
  }

  /** The index of the first separator in `seps[j..]` that occurs at `i`. */
  function FirstSeparatorFrom(s: string, i: nat, seps: seq<string>, j: nat): (r: Option<nat>)
    requires j <= |seps|
    ensures r.Some? ==> j <= r.value < |seps| && OccursAt(s, i, seps[r.value])
    ensures r.Some? ==> forall k :: j <= k < r.value ==> !OccursAt(s, i, seps[k])
    ensures r.None? ==> forall k :: j <= k < |seps| ==> !OccursAt(s, i, seps[k])
    decreases |seps| - j
  {
    if j == |seps| then None
    else if OccursAt(s, i, seps[j]) then Some(j)
    else FirstSeparatorFrom(s, i, seps, j + 1)
  }

  /** The text a split with `seps` cuts out at position `i`, if any. */
  function MatchAt(s: string, i: nat, seps: seq<string>): (m: Option<string>)
    requires i < |s|
    ensures m.Some? ==> OccursAt(s, i, m.value)
    ensures seps == [] ==> (m.Some? <==> IsWhiteSpace(s[i]))
    ensures seps == [] && m.Some? ==> |m.value| == 1
    ensures seps != [] ==> (m.None? <==> forall k :: 0 <= k < |seps| ==> !OccursAt(s, i, seps[k]))
    ensures seps != [] && m.Some? ==>
      exists k :: 0 <= k < |seps| && m.value == seps[k]
                  && forall k' :: 0 <= k' < k ==> !OccursAt(s, i, seps[k'])
  {
    if seps == [] then
      if IsWhiteSpace(s[i]) then Some([s[i]]) else None
    else
      match FirstSeparatorFrom(s, i, seps, 0)
      case Some(k) => Some(seps[k])
      case None => None
  }

  /** The text cut out at every position of `s`, were the scan to stop there. */
  function MatchTable(s: string, seps: seq<string>): (table: seq<Option<string>>)
    ensures |table| == |s|
    ensures forall q {:trigger MatchAt(s, q, seps)} :: 0 <= q < |s| ==> table[q] == MatchAt(s, q, seps)
    ensures Fits(s, table)
  {
    seq(|s|, q requires 0 <= q < |s| => MatchAt(s, q, seps))
  }

  /** Every entry of `table` is a non-empty text that fits in `s` where it starts. */
  predicate Fits(s: string, table: seq<Option<string>>) {
    && |table| == |s|
    && forall q :: 0 <= q < |s| && table[q].Some? ==>
         table[q].value != [] && q + |table[q].value| <= |s|
  }

  /** Every entry of `table` is text that occurs in `s` where it starts. */
  predicate Consistent(s: string, table: seq<Option<string>>) {
    && |table| == |s|
    && forall q :: 0 <= q < |s| && table[q].Some? ==> OccursAt(s, q, table[q].value)
  }

  lemma MatchTableConsistent(s: string, seps: seq<string>)
    ensures Consistent(s, MatchTable(s, seps))
  {
  }

  /** The left-to-right scan over `s[i..]` that cuts wherever `table` has an
      entry; the token in progress started at `start`. */
  function Scan(s: string, table: seq<Option<string>>, start: nat, i: nat): (p: Pieces)
    requires Fits(s, table) && start <= i <= |s|
    ensures |p.tokens| == |p.separators| + 1
    decreases |s| - i
  {
    if i == |s| then Pieces([s[start..]], [])
    else
      match table[i]
      case None => Scan(s, table, start, i + 1)
      case Some(m) =>
        var rest := Scan(s, table, i + |m|, i + |m|);
        Pieces([s[start..i]] + rest.tokens, [m] + rest.separators)
  }

  /** The tokens and the separator texts between them. */
  function SplitPieces(s: string, seps: seq<string>): (p: Pieces)
    ensures |p.tokens| == |p.separators| + 1
  {
    Scan(s, MatchTable(s, seps), 0, 0)
  }

  /** The token sequence `String.Split` returns. */
  function Split(s: string, seps: seq<string>): (tokens: seq<string>)
    ensures |tokens| >= 1
    ensures s == [] ==> tokens == [[]]
  {
    SplitPieces(s, seps).tokens
  }

  /** Puts the tokens back together with the separators between them. */
  function Join(tokens: seq<string>, separators: seq<string>): string
    requires |tokens| == |separators| + 1
    decreases |separators|
  {
    if separators == [] then tokens[0]
    else tokens[0] + separators[0] + Join(tokens[1..], separators[1..])
  }

  /** No separator of `seps` occurs anywhere inside `t`. */
  predicate FreeOfSeparators(t: string, seps: seq<string>) {
    if seps == [] then forall p :: 0 <= p < |t| ==> !IsWhiteSpace(t[p])
    else forall p, k :: 0 <= p < |t| && 0 <= k < |seps| ==> !OccursAt(t, p, seps[k])
  }

  /** `table` has no entry between `lo` and `hi`. */
  predicate NoCutBetween(table: seq<Option<string>>, lo: nat, hi: nat)
    requires hi <= |table|
  {
    forall q :: lo <= q < hi ==> table[q].None?
  }

  lemma {:induction false} ScanJoins(s: string, table: seq<Option<string>>, start: nat, i: nat)
    requires Consistent(s, table) && Fits(s, table) && start <= i <= |s|
    ensures var p := Scan(s, table, start, i); Join(p.tokens, p.separators) == s[start..]
    decreases |s| - i
  {
    if i < |s| {
      match table[i]
      case None => ScanJoins(s, table, start, i + 1);
      case Some(m) =>
        var j := i + |m|;
        ScanJoins(s, table, j, j);
        assert s[i..j] == m;
        assert s[start..] == s[start..i] + s[i..j] + s[j..];
    }
  }

  /** Splitting loses nothing: joining the tokens back with the separators
      that were cut out gives the original string. */
  lemma SplitJoins(s: string, seps: seq<string>)
    ensures var p := SplitPieces(s, seps);
      Split(s, seps) == p.tokens && Join(p.tokens, p.separators) == s
  {
    MatchTableConsistent(s, seps);
    ScanJoins(s, MatchTable(s, seps), 0, 0);
  }

  /** A text a split with `seps` may cut out: one of `seps`, or a single
      whitespace character when `seps` is empty. */
  predicate Cuttable(d: string, seps: seq<string>) {
    if seps == [] then |d| == 1 && IsWhiteSpace(d[0]) else d in seps
  }

  lemma {:induction false} ScanSeparatorsCuttable(s: string, table: seq<Option<string>>, seps: seq<string>, start: nat, i: nat)
    requires Fits(s, table) && start <= i <= |s|
    requires forall q :: 0 <= q < |s| && table[q].Some? ==> Cuttable(table[q].value, seps)
    ensures forall d :: d in Scan(s, table, start, i).separators ==> Cuttable(d, seps)
    decreases |s| - i
  {
    if i < |s| {
      match table[i]
      case None => ScanSeparatorsCuttable(s, table, seps, start, i + 1);
      case Some(m) => ScanSeparatorsCuttable(s, table, seps, i + |m|, i + |m|);
    }
  }

  /** Every separator a split cuts out is one of the listed ones, or a
      single whitespace character when none is listed. */
  lemma SplitSeparatorsCuttable(s: string, seps: seq<string>)
    ensures forall d :: d in SplitPieces(s, seps).separators ==> Cuttable(d, seps)
  {
    var table := MatchTable(s, seps);
    forall q | 0 <= q < |s| && table[q].Some?
      ensures Cuttable(table[q].value, seps)
    {
      var m := MatchAt(s, q, seps);
      assert table[q] == m;
      if seps == [] {
        assert m.value[0] == s[q];
      }
    }
    ScanSeparatorsCuttable(s, table, seps, 0, 0);
  }

  /** Every token of the scan lies in a stretch where `table` has no entry. */
  lemma {:induction false} ScanTokensUncut(s: string, table: seq<Option<string>>, start: nat, i: nat, t: string)
    requires Fits(s, table) && start <= i <= |s| && NoCutBetween(table, start, i)
    requires t in Scan(s, table, start, i).tokens
    ensures exists a, b :: 0 <= a <= b <= |s| && t == s[a..b] && NoCutBetween(table, a, b)
    decreases |s| - i
  {
    if i == |s| {
      assert t == s[start..i];
    } else {
      match table[i]
      case None => ScanTokensUncut(s, table, start, i + 1, t);
      case Some(m) =>
        var j := i + |m|;
        if t != s[start..i] {
          ScanTokensUncut(s, table, j, j, t);
        }
    }
  }

  /** An occurrence inside an infix of `s` is an occurrence in `s`. */
  lemma OccursInInfix(s: string, a: nat, b: nat, p: nat, d: string)
    requires a <= b <= |s|
    ensures OccursAt(s[a..b], p, d) ==> OccursAt(s, a + p, d)
  {
    if OccursAt(s[a..b], p, d) {
      SliceOfSlice(s, a, b, p, |d|);
    }
  }

  lemma SliceOfSlice(s: string, a: nat, b: nat, p: nat, n: nat)
    requires a <= b <= |s| && p + n <= b - a
    ensures s[a..b][p..p + n] == s[a + p..a + p + n]
  {
    var u := s[a..b][p..p + n];
    var v := s[a + p..a + p + n];
    forall x | 0 <= x < n
      ensures u[x] == v[x]
    {
      assert u[x] == s[a..b][p + x] == s[a + p + x];
    }
  }

  /** A match inside an infix of `s` is a match in `s`. */
  lemma MatchInInfix(s: string, a: nat, b: nat, p: nat, seps: seq<string>)
    requires a <= b <= |s| && p < b - a
    requires MatchAt(s, a + p, seps).None?
    ensures MatchAt(s[a..b], p, seps).None?
  {
    var t := s[a..b];
    assert t[p] == s[a + p];
    forall k | 0 <= k < |seps|
      ensures !OccursAt(t, p, seps[k])
    {
      OccursInInfix(s, a, b, p, seps[k]);
    }
  }

  lemma FreeBetween(s: string, seps: seq<string>, a: nat, b: nat)
    requires a <= b <= |s|
    requires NoCutBetween(MatchTable(s, seps), a, b)
    ensures FreeOfSeparators(s[a..b], seps)
  {
    var t := s[a..b];
    if seps == [] {
      forall p | 0 <= p < |t|
        ensures !IsWhiteSpace(t[p])
      {
        MatchInInfix(s, a, b, p, seps);
      }
    } else {
      forall p, k | 0 <= p < |t| && 0 <= k < |seps|
        ensures !OccursAt(t, p, seps[k])
      {
        MatchInInfix(s, a, b, p, seps);
      }
    }
  }

  /** No token returned by the split contains a separator: every occurrence
      was cut out. */
  lemma SplitTokensFree(s: string, seps: seq<string>)
    ensures forall t :: t in Split(s, seps) ==> FreeOfSeparators(t, seps)
  {
    var table := MatchTable(s, seps);
    MatchTableConsistent(s, seps);
    forall t | t in Split(s, seps)
      ensures FreeOfSeparators(t, seps)
    {
      ScanTokensUncut(s, table, 0, 0, t);
      var a, b :| 0 <= a <= b <= |s| && t == s[a..b] && NoCutBetween(table, a, b);
      FreeBetween(s, seps, a, b);
    }
  }

  /** The search returns the first occurring separator, whichever way it is found. */
  lemma {:induction false} FirstSeparatorIsFirst(s: string, i: nat, seps: seq<string>, j: nat, k: nat)
    requires j <= k < |seps| && OccursAt(s, i, seps[k])
    requires forall k' :: j <= k' < k ==> !OccursAt(s, i, seps[k'])
    ensures FirstSeparatorFrom(s, i, seps, j) == Some(k)
    decreases k - j
  {
    if j < k {
      FirstSeparatorIsFirst(s, i, seps, j + 1, k);
    }
  }

  lemma {:induction false} NoSeparatorFound(s: string, i: nat, seps: seq<string>, j: nat)
    requires j <= |seps|
    requires forall k :: j <= k < |seps| ==> !OccursAt(s, i, seps[k])
    ensures FirstSeparatorFrom(s, i, seps, j) == None
    decreases |seps| - j
  {
    if j < |seps| {
      NoSeparatorFound(s, i, seps, j + 1);
    }
  }

  /** Appending a separator already in the list changes no match: the earlier
      copy is always tried first. */
  lemma MatchIgnoresDuplicate(s: string, i: nat, seps: seq<string>, d: string)
    requires i < |s| && d in seps
    ensures MatchAt(s, i, seps + [d]) == MatchAt(s, i, seps)
  {
    var e := seps + [d];
    match FirstSeparatorFrom(s, i, seps, 0)
    case Some(k) =>
      forall k' | 0 <= k' < k
        ensures !OccursAt(s, i, e[k'])
      {
        assert e[k'] == seps[k'];
      }
      assert e[k] == seps[k];
      FirstSeparatorIsFirst(s, i, e, 0, k);
    case None =>
      forall k | 0 <= k < |e|
        ensures !OccursAt(s, i, e[k])
      {
        if k < |seps| {
          assert e[k] == seps[k];
        } else {
          var j :| 0 <= j < |seps| && seps[j] == d;
          assert !OccursAt(s, i, seps[j]);
        }
      }
      NoSeparatorFound(s, i, e, 0);
  }

  /** A duplicate separator is harmless: the split is the same without it. */
  lemma SplitIgnoresDuplicate(s: string, seps: seq<string>, d: string)
    requires d in seps
    ensures Split(s, seps + [d]) == Split(s, seps)
  {
    var t1, t2 := MatchTable(s, seps + [d]), MatchTable(s, seps);
    forall q | 0 <= q < |s|
      ensures t1[q] == t2[q]
    {
      MatchIgnoresDuplicate(s, q, seps, d);
    }
    assert t1 == t2;
  }

  /** Without any entry in `table` from `i` on, the rest is one token. */
  lemma {:induction false} ScanWithoutCut(s: string, table: seq<Option<string>>, start: nat, i: nat)
    requires Fits(s, table) && start <= i <= |s| && NoCutBetween(table, i, |s|)
    ensures Scan(s, table, start, i) == Pieces([s[start..]], [])
    decreases |s| - i
  {
    if i < |s| {
      ScanWithoutCut(s, table, start, i + 1);
    }
  }

  /** A string in which no separator occurs comes back as the only token. */
  lemma SplitWithoutMatch(s: string, seps: seq<string>)
    requires forall q :: 0 <= q < |s| ==> MatchAt(s, q, seps).None?
    ensures Split(s, seps) == [s]
  {
    MatchTableConsistent(s, seps);
    ScanWithoutCut(s, MatchTable(s, seps), 0, 0);
  }

  /** Matching looks only forward, so a prefix in front does not change it. */
  lemma MatchAfterPrefix(p: string, r: string, i: nat, seps: seq<string>)
    requires i < |r|
    ensures MatchAt(p + r, |p| + i, seps) == MatchAt(r, i, seps)
  {
    var s := p + r;
    assert s[|p| + i] == r[i];
    forall d | d != []
      ensures OccursAt(s, |p| + i, d) <==> OccursAt(r, i, d)
    {
      if i + |d| <= |r| {
        assert s[|p| + i..|p| + i + |d|] == r[i..i + |d|];
      }
    }
    if seps != [] {
      match FirstSeparatorFrom(r, i, seps, 0)
      case Some(k) => FirstSeparatorIsFirst(s, |p| + i, seps, 0, k);
      case None => NoSeparatorFound(s, |p| + i, seps, 0);
    }
  }

  /** The scan of `p + r` from inside `r` is the scan of `r` with the
      table shifted. */
  lemma {:induction false} ScanAfterPrefix(p: string, r: string, t: seq<Option<string>>, u: seq<Option<string>>, start: nat, i: nat)
    requires Fits(p + r, t) && Fits(r, u) && start <= i <= |r|
    requires forall q :: 0 <= q < |r| ==> t[|p| + q] == u[q]
    ensures Scan(p + r, t, |p| + start, |p| + i) == Scan(r, u, start, i)
    decreases |r| - i
  {
    var s := p + r;
    if i == |r| {
      assert s[|p| + start..] == r[start..];
    } else {
      assert t[|p| + i] == u[i];
      match u[i]
      case None => ScanAfterPrefix(p, r, t, u, start, i + 1);
      case Some(m) =>
        var j := i + |m|;
        assert s[|p| + start..|p| + i] == r[start..i];
        ScanAfterPrefix(p, r, t, u, j, j);
    }
  }

  lemma SplitAfterPrefix(p: string, r: string, seps: seq<string>)
    ensures var n := |p|;
      Scan(p + r, MatchTable(p + r, seps), n, n) == SplitPieces(r, seps)
  {
    var t, u := MatchTable(p + r, seps), MatchTable(r, seps);
    MatchTableConsistent(p + r, seps);
    MatchTableConsistent(r, seps);
    forall q | 0 <= q < |r|
      ensures t[|p| + q] == u[q]
    {
      MatchAfterPrefix(p, r, q, seps);
    }
    ScanAfterPrefix(p, r, t, u, 0, 0);
  }

  /** No separator of a non-empty list begins with any character of `t`. */
  predicate AvoidsSeparatorHeads(t: string, seps: seq<string>) {
    forall c, d :: c in t && d in seps && d != [] ==> d[0] != c
  }

  lemma AvoidingHeadsNoMatch(s: string, seps: seq<string>, lo: nat, hi: nat)
    requires lo <= hi <= |s| && seps != []
    requires AvoidsSeparatorHeads(s[lo..hi], seps)
    ensures forall q :: lo <= q < hi ==> MatchAt(s, q, seps).None?
  {
    forall q | lo <= q < hi
      ensures MatchAt(s, q, seps).None?
    {
      assert s[q] == s[lo..hi][q - lo];
      assert s[q] in s[lo..hi];
    }
  }

  /** A token whose characters begin no separator comes back whole. */
  lemma SplitSingleToken(t: string, seps: seq<string>)
    requires seps != [] && AvoidsSeparatorHeads(t, seps)
    ensures Split(t, seps) == [t]
  {
    assert t[0..|t|] == t;
    AvoidingHeadsNoMatch(t, seps, 0, |t|);
    SplitWithoutMatch(t, seps);
  }

  /** A separator whose first character differs from the one found at `i`
      does not occur there. */
  lemma HeadMismatch(s: string, i: nat, d: string, m: string)
    requires OccursAt(s, i, m) && (d != [] ==> d[0] != m[0])
    ensures !OccursAt(s, i, d)
  {
    assert s[i..i + |m|][0] == s[i];
    if d != [] && i + |d| <= |s| {
      assert s[i..i + |d|][0] == s[i];
    }
  }

  /** At the end of `t`, `seps[k]` is cut when no earlier listed separator
      occurs there. */
  lemma MatchAtSeparator(t: string, k: nat, rest: string, seps: seq<string>)
    requires k < |seps| && seps[k] != []
    requires forall j :: 0 <= j < k ==> !OccursAt(t + seps[k] + rest, |t|, seps[j])
    ensures MatchAt(t + seps[k] + rest, |t|, seps) == Some(seps[k])
  {
    var m := seps[k];
    var s := t + m + rest;
    assert s[|t|..|t| + |m|] == m;
    FirstSeparatorIsFirst(s, |t|, seps, 0, k);
  }

  /** Where the split cuts first: when nothing is cut inside `t` and
      `seps[k]` is the first listed separator that occurs right after it,
      `t` is the first token and the rest is split on its own. */
  lemma SplitAtSeparator(t: string, k: nat, rest: string, seps: seq<string>)
    requires k < |seps| && seps[k] != []
    requires forall q :: 0 <= q < |t| ==> MatchAt(t + seps[k] + rest, q, seps).None?
    requires forall j :: 0 <= j < k ==> !OccursAt(t + seps[k] + rest, |t|, seps[j])
    ensures Split(t + seps[k] + rest, seps) == [t] + Split(rest, seps)
  {
    FirstTokenCut(t, k, rest, seps);
    SplitAfterPrefix(t + seps[k], rest, seps);
  }

  /** A token whose characters begin no separator, then the separator
      `seps[k]`, which no earlier separator shares a first character with:
      the split cuts right after the token and goes on with the rest. */
  lemma SplitFirstToken(t: string, k: nat, rest: string, seps: seq<string>)
    requires k < |seps| && seps[k] != [] && AvoidsSeparatorHeads(t, seps)
    requires forall j :: 0 <= j < k ==> seps[j] == [] || seps[j][0] != seps[k][0]
    ensures Split(t + seps[k] + rest, seps) == [t] + Split(rest, seps)
  {
    var m := seps[k];
    var s := t + m + rest;
    assert s[0..|t|] == t;
    AvoidingHeadsNoMatch(s, seps, 0, |t|);
    assert s[|t|..|t| + |m|] == m;
    forall j | 0 <= j < k
      ensures !OccursAt(s, |t|, seps[j])
    {
      HeadMismatch(s, |t|, seps[j], m);
    }
    SplitAtSeparator(t, k, rest, seps);
  }

  lemma FirstTokenCut(t: string, k: nat, rest: string, seps: seq<string>)
    requires k < |seps| && seps[k] != []
    requires forall q :: 0 <= q < |t| ==> MatchAt(t + seps[k] + rest, q, seps).None?
    requires forall j :: 0 <= j < k ==> !OccursAt(t + seps[k] + rest, |t|, seps[j])
    ensures var s := t + seps[k] + rest; var n := |t + seps[k]|;
      var r := Scan(s, MatchTable(s, seps), n, n);
      Split(s, seps) == [t] + r.tokens
  {
    var s := t + seps[k] + rest;
    var table := MatchTable(s, seps);
    MatchTableConsistent(s, seps);
    MatchAtSeparator(t, k, rest, seps);
    assert s[0..|t|] == t;
    assert NoCutBetween(table, 0, |t|);
    assert table[|t|] == Some(seps[k]);
    ScanSkip(s, table, 0, 0, |t|, seps[k]);
    var n := |t + seps[k]|;
    assert n == |t| + |seps[k]|;
    var r := Scan(s, table, n, n);
    assert Scan(s, table, 0, 0) == Pieces([t] + r.tokens, [seps[k]] + r.separators);
    assert Split(s, seps) == Scan(s, table, 0, 0).tokens;
  }

  /** Once `table` has no entry from `i` to `j` and `m` at `j`, the token
      in progress ends at `j`. */
  lemma {:induction false} ScanSkip(s: string, table: seq<Option<string>>, start: nat, i: nat, j: nat, m: string)
    requires Fits(s, table) && start <= i <= j < |s|
    requires NoCutBetween(table, i, j) && table[j] == Some(m)
    ensures var rest := Scan(s, table, j + |m|, j + |m|);
      Scan(s, table, start, i) == Pieces([s[start..j]] + rest.tokens, [m] + rest.separators)
    decreases j - i
  {
    if i < j {
      ScanSkip(s, table, start, i + 1, j, m);
    }
  }

  /** One step of the scan: nothing is cut where `table` has no entry, and
      the token in progress ends where it has one. */
  lemma ScanStep(s: string, table: seq<Option<string>>, start: nat, i: nat)
    requires Fits(s, table) && start <= i < |s|
    ensures table[i].None? ==> Scan(s, table, start, i) == Scan(s, table, start, i + 1)
    ensures table[i].Some? ==> var j := i + |table[i].value|;
      Scan(s, table, start, i).tokens == [s[start..i]] + Scan(s, table, j, j).tokens
  {
  }

  /** The scan of `String.Split`: cut at each position where a separator
      matches, in one left-to-right pass. */
  method SplitScan(s: string, seps: seq<string>) returns (tokens: seq<string>)
    ensures tokens == Split(s, seps)
  {
    tokens := ScanTable(s, MatchTable(s, seps));
  }

  /** The loop behind `SplitScan`, over the matches of every position. */
  method ScanTable(s: string, table: seq<Option<string>>) returns (tokens: seq<string>)
    requires Fits(s, table)
    ensures tokens == Scan(s, table, 0, 0).tokens
  {
    tokens := [];
    var start: nat, i: nat := 0, 0;
    while i < |s|
      invariant start <= i <= |s|
      invariant tokens + Scan(s, table, start, i).tokens == Scan(s, table, 0, 0).tokens
      decreases |s| - i
    {
      ScanStep(s, table, start, i);
      match table[i]
      case Some(m) =>
        var token, j := s[start..i], i + |m|;
        assert tokens + [token] + Scan(s, table, j, j).tokens
            == tokens + Scan(s, table, start, i).tokens;
        tokens, i, start := tokens + [token], j, j;
      case None =>
        i := i + 1;
    }
    tokens := tokens + [s[start..]];
  }
}
