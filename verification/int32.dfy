/**
  The .NET `Int32` operations the calculator uses: `int.TryParse` on a
  trimmed token (NumberStyles.Integer, invariant-culture signs), its inverse
  `int.ToString()`, and the overflow-checked addition of `Enumerable.Sum`.
*/
module Int32 {
  import opened Wrappers
  import opened Sequences

  const MinValue: int := -0x8000_0000
  const MaxValue: int := 0x7FFF_FFFF

  predicate InRange(n: int) {
    MinValue <= n <= MaxValue
  }

  predicate IsDigit(c: char) {
    '0' <= c <= '9'
  }

  predicate AllDigits(s: string) {
    forall k :: 0 <= k < |s| ==> IsDigit(s[k])
  }

  function DigitValue(c: char): (d: nat)
    requires IsDigit(c)
    ensures d < 10
  {
    (c as int) - ('0' as int)
  }

  function DigitChar(d: nat): (c: char)
    requires d < 10
    ensures IsDigit(c) && DigitValue(c) == d
  {
    ('0' as int + d) as char
  }

  /** The value of a decimal numeral, most significant digit first. */
  function DigitsValue(ds: string): nat
    requires AllDigits(ds)
    decreases |ds|
  {
    if ds == [] then 0 else 10 * DigitsValue(ds[..|ds| - 1]) + DigitValue(ds[|ds| - 1])
  }

  /** Removes the NUL characters at the end of `s`, which the .NET number
      parser skips after the digits. */
  function DropTrailingNuls(s: string): (r: string)
    ensures |r| <= |s| && r == s[..|r|]
    ensures forall k :: |r| <= k < |s| ==> s[k] == '\0'
    ensures r != [] ==> r[|r| - 1] != '\0'
  {
    if s != [] && s[|s| - 1] == '\0' then
      var r := DropTrailingNuls(s[..|s| - 1]);
      assert s[..|s| - 1][..|r|] == s[..|r|];
      r
    else
      s
  }

  /** The white characters the .NET number parser skips around a number:
      the space and U+0009..U+000D. */
  predicate IsParseWhite(c: char) {
    c == ' ' || '\t' <= c <= '\r'
  }

  /** Removes the white characters at the end of `s`. */
  function DropTrailingWhite(s: string): (r: string)
    ensures |r| <= |s| && r == s[..|r|]
    ensures forall k :: |r| <= k < |s| ==> IsParseWhite(s[k])
    ensures r != [] ==> !IsParseWhite(r[|r| - 1])
  {
    if s != [] && IsParseWhite(s[|s| - 1]) then
      var r := DropTrailingWhite(s[..|s| - 1]);
      assert s[..|s| - 1][..|r|] == s[..|r|];
      r
    else
      s
  }

  /** Whether `t` starts with one of the two sign characters. */
  predicate HasSign(t: string) {
    t != [] && (t[0] == '-' || t[0] == '+')
  }

  /** The value of the unsigned part of a number: one or more ASCII digits,
      then possibly white characters and after them NULs. */
  function Magnitude(body: string): (m: Option<nat>)
    ensures body == [] ==> m.None?
  {
    var digits := DropTrailingWhite(DropTrailingNuls(body));
    if digits == [] || !AllDigits(digits) then None else Some(DigitsValue(digits))
  }

  /** `int.TryParse(t, out n)` for a token that does not start with
      whitespace: an optional `-` or `+`, the magnitude, and a value inside
      the Int32 range. */
  function TryParse(t: string): (r: Option<int>)
    ensures r.Some? ==> InRange(r.value)
    ensures t == [] ==> r.None?
    ensures r.Some? ==> r.value < 0 ==> t[0] == '-'
  {
    var body := if HasSign(t) then t[1..] else t;
    match Magnitude(body)
    case None => None
    case Some(magnitude) =>
      var v: int := if HasSign(t) && t[0] == '-' then 0 - magnitude else magnitude;
      if InRange(v) then Some(v) else None
  }

  /** The decimal numeral of `n`, without leading zeros. */
  function NatDigits(n: nat): (ds: string)
    ensures ds != [] && AllDigits(ds)
    ensures |ds| > 1 ==> ds[0] != '0'
    decreases n
  {
    if n < 10 then [DigitChar(n)] else NatDigits(n / 10) + [DigitChar(n % 10)]
  }

  /** `int.ToString()` in the invariant culture. */
  function Format(n: int): (s: string)
    ensures s != []
    ensures s[0] == '-' <==> n < 0
  {
    if n < 0 then "-" + NatDigits(-n) else NatDigits(n)
  }

  lemma {:induction false} NatDigitsValue(n: nat)
    ensures DigitsValue(NatDigits(n)) == n
    decreases n
  {
    if n >= 10 {
      var ds := NatDigits(n);
      assert ds[..|ds| - 1] == NatDigits(n / 10);
      NatDigitsValue(n / 10);
    }
  }

  lemma {:induction false} DropNulsPadding(x: string, z: string)
    requires x != [] && x[|x| - 1] != '\0'
    requires forall k :: 0 <= k < |z| ==> z[k] == '\0'
    ensures DropTrailingNuls(x + z) == x
    decreases |z|
  {
    if z == [] {
      assert x + z == x;
    } else {
      var z' := z[..|z| - 1];
      assert (x + z)[..|x + z| - 1] == x + z';
      DropNulsPadding(x, z');
    }
  }

  lemma {:induction false} DropWhitePadding(x: string, w: string)
    requires x != [] && !IsParseWhite(x[|x| - 1])
    requires forall k :: 0 <= k < |w| ==> IsParseWhite(w[k])
    ensures DropTrailingWhite(x + w) == x
    decreases |w|
  {
    if w == [] {
      assert x + w == x;
    } else {
      var w' := w[..|w| - 1];
      assert (x + w)[..|x + w| - 1] == x + w';
      DropWhitePadding(x, w');
    }
  }

  /** A numeral followed by white characters and then NULs has the
      numeral's value as its magnitude. */
  lemma MagnitudePadded(ds: string, w: string, z: string)
    requires ds != [] && AllDigits(ds)
    requires forall k :: 0 <= k < |w| ==> IsParseWhite(w[k])
    requires forall k :: 0 <= k < |z| ==> z[k] == '\0'
    ensures Magnitude(ds + w + z) == Some(DigitsValue(ds))
  {
    var x := ds + w;
    assert x[|x| - 1] != '\0' by {
      if w != [] {
        assert x[|x| - 1] == w[|w| - 1];
      } else {
        assert x[|x| - 1] == ds[|ds| - 1];
      }
    }
    DropNulsPadding(x, z);
    assert !IsParseWhite(ds[|ds| - 1]);
    DropWhitePadding(ds, w);
  }

  /** A body that starts with a digit parses to its magnitude, and with a
      `-` in front to the negated magnitude, inside the Int32 range. */
  lemma ParseSigned(body: string, m: nat)
    requires body != [] && IsDigit(body[0]) && Magnitude(body) == Some(m)
    ensures InRange(m) ==> TryParse(body) == Some(m)
    ensures InRange(0 - m) ==> TryParse("-" + body) == Some(0 - m)
  {
    assert ("-" + body)[1..] == body;
  }

  /** White characters and then NULs after a number are skipped: the
      rendering of any Int32 followed by them still parses back to it. */
  lemma ParseFormatPadded(n: int, w: string, z: string)
    requires InRange(n)
    requires forall k :: 0 <= k < |w| ==> IsParseWhite(w[k])
    requires forall k :: 0 <= k < |z| ==> z[k] == '\0'
    ensures TryParse(Format(n) + w + z) == Some(n)
  {
    var m: nat := if n < 0 then -n else n;
    var body := NatDigits(m) + w + z;
    NatDigitsValue(m);
    MagnitudePadded(NatDigits(m), w, z);
    ParseSigned(body, m);
    FormatPadded(n, w, z);
  }

  lemma FormatPadded(n: int, w: string, z: string)
    ensures n < 0 ==> Format(n) + w + z == "-" + (NatDigits(-n) + w + z)
    ensures n >= 0 ==> Format(n) + w + z == NatDigits(n) + w + z
  {
  }

  /** Parsing the rendering of any Int32 gives it back. */
  lemma ParseFormat(n: int)
    requires InRange(n)
    ensures TryParse(Format(n)) == Some(n)
  {
    ParseFormatPadded(n, [], []);
    assert Format(n) + [] + [] == Format(n);
  }

  /** The signs a number may start with: none, `+` or `-`. */
  predicate IsSign(sign: string) {
    sign == "" || sign == "+" || sign == "-"
  }

  /** The value a sign and a numeral stand for, range aside. */
  function SignedValue(sign: string, ds: string): int
    requires AllDigits(ds)
  {
    if sign == "-" then 0 - DigitsValue(ds) else DigitsValue(ds)
  }

  predicate WhiteRun(w: string) {
    forall k :: 0 <= k < |w| ==> IsParseWhite(w[k])
  }

  predicate NulRun(z: string) {
    forall k :: 0 <= k < |z| ==> z[k] == '\0'
  }

  /** `t` is a sign, a non-empty numeral, white characters and then NULs. */
  predicate NumberShape(t: string, sign: string, ds: string, w: string, z: string) {
    && IsSign(sign) && ds != [] && AllDigits(ds) && WhiteRun(w) && NulRun(z)
    && t == sign + ds + w + z
  }

  /** How `TryParse` reads a sign in front of a body that starts with a digit. */
  lemma SignSplit(sign: string, body: string)
    requires IsSign(sign) && body != [] && IsDigit(body[0])
    ensures HasSign(sign + body) <==> sign != ""
    ensures (if HasSign(sign + body) then (sign + body)[1..] else sign + body) == body
    ensures HasSign(sign + body) && (sign + body)[0] == '-' <==> sign == "-"
  {
    if sign == "" {
      assert sign + body == body;
    } else {
      assert (sign + body)[1..] == body;
      assert (sign + body)[0] == sign[0];
    }
  }

  /** Every text of the number shape parses to its value when that value is
      an Int32, and fails when it is not: an out-of-range numeral is
      rejected, never clamped, and a leading `+` is accepted. */
  lemma ParseNumeral(sign: string, ds: string, w: string, z: string)
    requires IsSign(sign) && ds != [] && AllDigits(ds) && WhiteRun(w) && NulRun(z)
    ensures var v := SignedValue(sign, ds);
      TryParse(sign + ds + w + z) == if InRange(v) then Some(v) else None
  {
    var body := ds + w + z;
    MagnitudePadded(ds, w, z);
    assert body[0] == ds[0];
    Regroup(sign, ds, w, z);
    SignedBody(sign, body, ds);
  }

  /** A sign in front of a body whose magnitude is the value of `ds` gives
      the signed value, if that is an Int32. */
  lemma SignedBody(sign: string, body: string, ds: string)
    requires IsSign(sign) && AllDigits(ds)
    requires body != [] && IsDigit(body[0]) && Magnitude(body) == Some(DigitsValue(ds))
    ensures var v := SignedValue(sign, ds);
      TryParse(sign + body) == if InRange(v) then Some(v) else None
  {
    SignSplit(sign, body);
  }

  lemma NulsSplit(s: string)
    ensures var n := DropTrailingNuls(s); s == n + s[|n|..] && NulRun(s[|n|..])
  {
    var n := DropTrailingNuls(s);
    assert forall k :: 0 <= k < |s| - |n| ==> s[|n|..][k] == s[|n| + k];
  }

  lemma WhiteSplit(s: string)
    ensures var d := DropTrailingWhite(s); s == d + s[|d|..] && WhiteRun(s[|d|..])
  {
    var d := DropTrailingWhite(s);
    assert forall k :: 0 <= k < |s| - |d| ==> s[|d|..][k] == s[|d| + k];
  }

  /** What a successful parse reads: the text after the sign has a
      non-empty numeral once its trailing NULs and white characters go. */
  lemma ParsedDigits(t: string)
    requires TryParse(t).Some?
    ensures var body := if HasSign(t) then t[1..] else t;
      var ds := DropTrailingWhite(DropTrailingNuls(body));
      ds != [] && AllDigits(ds)
  {
  }

  lemma Regroup(a: string, b: string, c: string, d: string)
    ensures a + (b + c + d) == a + b + c + d
  {
  }

  lemma SignOf(t: string)
    ensures var sign := if HasSign(t) then t[..1] else "";
      IsSign(sign) && t == sign + (if HasSign(t) then t[1..] else t)
  {
    if HasSign(t) {
      assert t == t[..1] + t[1..];
    }
  }

  /** A text whose body, once its trailing NULs and white characters go, is
      a non-empty numeral has the number shape. */
  lemma ShapeOf(t: string) returns (sign: string, ds: string, w: string, z: string)
    requires var body := if HasSign(t) then t[1..] else t;
      var d := DropTrailingWhite(DropTrailingNuls(body)); d != [] && AllDigits(d)
    ensures NumberShape(t, sign, ds, w, z)
    ensures ds == DropTrailingWhite(DropTrailingNuls(if HasSign(t) then t[1..] else t))
    ensures sign == "-" <==> HasSign(t) && t[0] == '-'
  {
    sign := if HasSign(t) then t[..1] else "";
    var body := if HasSign(t) then t[1..] else t;
    SignOf(t);
    var n := DropTrailingNuls(body);
    ds := DropTrailingWhite(n);
    NulsSplit(body);
    WhiteSplit(n);
    w := n[|ds|..];
    z := body[|n|..];
    assert body == ds + w + z;
    Regroup(sign, ds, w, z);
  }

  /** Conversely, whatever parses has the number shape, and its value is
      the one the shape stands for. */
  lemma ParsedShape(t: string)
    requires TryParse(t).Some?
    ensures exists sign, ds, w, z :: NumberShape(t, sign, ds, w, z)
                                     && TryParse(t) == Some(SignedValue(sign, ds))
  {
    ParsedDigits(t);
    var sign, ds, w, z := ShapeOf(t);
    ParseNumeral(sign, ds, w, z);
  }

  /** A numeral outside the Int32 range does not parse, whatever its sign. */
  lemma OutOfRangeRejected(sign: string, ds: string)
    requires IsSign(sign) && ds != [] && AllDigits(ds)
    requires !InRange(SignedValue(sign, ds))
    ensures TryParse(sign + ds) == None
  {
    ParseNumeral(sign, ds, [], []);
    assert sign + ds + [] + [] == sign + ds;
  }

  /** A character that is not a digit, not a NUL, not white and not a
      leading sign makes the parse fail. */
  lemma TryParseRejects(t: string, k: nat)
    requires k < |t|
    requires !IsDigit(t[k]) && t[k] != '\0' && !IsParseWhite(t[k])
    requires k == 0 ==> t[k] != '-' && t[k] != '+'
    ensures TryParse(t) == None
  {
    var body := if HasSign(t) then t[1..] else t;
    var trimmed := DropTrailingNuls(body);
    var digits := DropTrailingWhite(trimmed);
    var kb := if HasSign(t) then k - 1 else k;
    assert body[kb] == t[k];
    if kb < |trimmed| {
      assert trimmed[kb] == t[k];
      if kb < |digits| {
        assert digits[kb] == t[k];
      }
    }
  }

  /** `Enumerable.Sum` over Int32 from the accumulator `acc`: a left fold whose
      additions are `checked`, so it fails as soon as a partial sum leaves
      the Int32 range. */
  function CheckedSumFrom(acc: int, xs: seq<int>): (r: Option<int>)
    ensures r.Some? ==> r.value == acc + Sum(xs)
    ensures InRange(acc) && r.Some? ==> InRange(r.value)
    decreases |xs|
  {
    if xs == [] then Some(acc)
    else if !InRange(acc + xs[0]) then None
    else CheckedSumFrom(acc + xs[0], xs[1..])
  }

  /** A checked sum that succeeds is the mathematical sum, and an Int32. */
  function CheckedSum(xs: seq<int>): (r: Option<int>)
    ensures r.Some? ==> r.value == Sum(xs) && InRange(r.value)
  {
    CheckedSumFrom(0, xs)
  }

  lemma {:induction false} CheckedSumFromNaturals(acc: int, xs: seq<int>)
    requires 0 <= acc <= MaxValue
    requires forall k :: 0 <= k < |xs| ==> xs[k] >= 0
    ensures CheckedSumFrom(acc, xs) ==
      if acc + Sum(xs) <= MaxValue then Some(acc + Sum(xs)) else None
    decreases |xs|
  {
    if xs != [] {
      SumNonNegative(xs[1..]);
      if InRange(acc + xs[0]) {
        CheckedSumFromNaturals(acc + xs[0], xs[1..]);
      }
    }
  }

  /** For non-negative values the checked sum overflows exactly when the
      mathematical sum exceeds Int32.MaxValue, and otherwise equals it. */
  lemma CheckedSumOfNaturals(xs: seq<int>)
    requires forall k :: 0 <= k < |xs| ==> xs[k] >= 0
    ensures CheckedSum(xs) == if Sum(xs) <= MaxValue then Some(Sum(xs)) else None
  {
    CheckedSumFromNaturals(0, xs);
  }
}
