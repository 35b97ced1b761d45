/**
  `StringCalculator.Add`: a blank input gives 0; otherwise an optional
  `//spec\n` header may append one custom delimiter, the payload is split on
  the delimiters, every token is trimmed and parsed (a failed parse gives 0),
  any negative value rejects the call with all negatives, and the values not
  above the configured maximum are summed with Int32 overflow checking.
*/
module StringCalculator {
  import opened Wrappers
  import opened Text
  import opened Sequences
  import opened Tokenizer
  import Int32

  /** The settings `Add` reads: the base delimiter list (`None` stands for a
      null list, replaced by the default) and the largest value still added. */
  datatype Config = Config(delimiters: Option<seq<string>>, maxNumberValue: int)

  const DefaultDelimiters: seq<string> := [",", "\n"]

  /** The settings the unit tests run with. */
  const DefaultConfig: Config := Config(None, 1000)

  /** The result of a call: the sum, or the failure `Add` throws. */
  datatype Outcome =
    | Ok(value: int)
    | NegativesNotAllowed(negatives: seq<int>)
    | Overflow

  /** The delimiters in effect for a call and the text left to split. */
  datatype Header = Header(delimiters: seq<string>, payload: string)

  /** The delimiter list a call starts from: the configured one, or `,` and
      line feed when none is configured. */
  function BaseDelimiters(cfg: Config): (seps: seq<string>)
    ensures cfg.delimiters.Some? ==> seps == cfg.delimiters.value
    ensures cfg.delimiters.None? ==> seps == [",", "\n"]
  {
    cfg.delimiters.GetOr(DefaultDelimiters)
  }

  /** Whether a delimiter specification has the `[...]` form: it opens with
      `[` and closes with `]`, so it has at least the two brackets. */
  function IsBracketed(spec: string): (b: bool)
    ensures b <==> |spec| >= 2 && spec[0] == '[' && spec[|spec| - 1] == ']'
  {
    var open, close := "[", "]";
    assert |open| == 1 && open[0] == '[' && |close| == 1 && close[0] == ']';
    StartsWith(spec, open) && EndsWith(spec, close)
  }

  /** The delimiter a header specification contributes: the text between the
      brackets of `[...]`, or else the whole specification; never an empty one. */
  function CustomDelimiter(spec: string): (d: Option<string>)
    ensures d.Some? ==> d.value != []
    ensures d.Some? ==> if IsBracketed(spec) then spec == "[" + d.value + "]" else spec == d.value
    ensures d.None? <==> spec == [] || spec == "[]"
  {
    if IsBracketed(spec) then
      assert spec[0] == '[' && spec[|spec| - 1] == ']' by {
        assert spec[..1] == "[" && spec[|spec| - 1..] == "]";
      }
      var inner := spec[1..|spec| - 1];
      assert spec == "[" + inner + "]";
      if inner == [] then None else Some(inner)
    else if spec == [] then None
    else Some(spec)
  }

  /** The delimiters a header specification appends: none or one. */
  function Appended(spec: string): (extra: seq<string>)
    ensures |extra| <= 1
  {
    match CustomDelimiter(spec)
    case Some(d) => [d]
    case None => []
  }

  /** The header stage of `Add`: an input starting with `//` and holding a
      line feed is cut at the first line feed; what lies between `//` and it
      may append one delimiter to `base`, and the rest is the payload.
      Any other input is left whole, with `base` unchanged. */
  function ExtractHeader(numbers: string, base: seq<string>): (h: Header)
    ensures !StartsWith(numbers, "//") ==> h == Header(base, numbers)
    ensures '\n' !in numbers ==> h == Header(base, numbers)
    ensures |base| <= |h.delimiters| <= |base| + 1 && h.delimiters[..|base|] == base
    ensures forall k :: |base| <= k < |h.delimiters| ==> h.delimiters[k] != []
    ensures StartsWith(numbers, "//") && '\n' in numbers ==>
      var n := |numbers| - |h.payload| - 1;
      && 2 <= n && numbers[n] == '\n' && '\n' !in numbers[..n]
      && numbers == "//" + numbers[2..n] + "\n" + h.payload
      && h.delimiters == base + Appended(numbers[2..n])
  {
    if StartsWith(numbers, "//") then
      var n := IndexOf(numbers, '\n');
      if n < |numbers| then
        HeaderLine(numbers, n);
        Header(base + Appended(numbers[2..n]), numbers[n + 1..])
      else
        assert '\n' !in numbers by {
          assert numbers[..n] == numbers;
        }
        Header(base, numbers)
    else
      Header(base, numbers)
  }

  /** A text that starts with `//` and has its first line feed at `n` is
      `//`, the specification, the line feed and the payload. */
  lemma HeaderLine(numbers: string, n: nat)
    requires StartsWith(numbers, "//") && n < |numbers| && numbers[n] == '\n'
    ensures 2 <= n && numbers == "//" + numbers[2..n] + "\n" + numbers[n + 1..]
  {
    assert numbers[..2] == "//";
    assert numbers == numbers[..2] + numbers[2..];
    assert numbers[2..] == numbers[2..n] + "\n" + numbers[n + 1..];
  }

  /** `int.TryParse(token.Trim(), out var n) ? n : 0`. */
  function ParseOrZero(token: string): (n: int)
    ensures Int32.InRange(n)
    ensures IsBlank(token) ==> n == 0
  {
    match Int32.TryParse(Trim(token))
    case Some(v) => v
    case None => 0
  }

  /** Every token is mapped to exactly one value, in order. */
  function ParseAll(tokens: seq<string>): (values: seq<int>)
    ensures |values| == |tokens|
    ensures forall k :: 0 <= k < |tokens| ==> values[k] == ParseOrZero(tokens[k])
    decreases |tokens|
  {
    if tokens == [] then [] else [ParseOrZero(tokens[0])] + ParseAll(tokens[1..])
  }

  /** The tokens of a non-blank input: the payload split on the delimiters
      in effect. */
  function Tokens(numbers: string, cfg: Config): seq<string> {
    var h := ExtractHeader(numbers, BaseDelimiters(cfg));
    Split(h.payload, h.delimiters)
  }

  /** The parsed values of a non-blank input, one per token. */
  function Values(numbers: string, cfg: Config): seq<int> {
    ParseAll(Tokens(numbers, cfg))
  }

  predicate IsNegative(n: int) {
    n < 0
  }

  /** The negative values, in their original order. */
  function Negatives(values: seq<int>): (r: seq<int>)
    ensures forall v :: v in r <==> v in values && v < 0
  {
    Filter(values, IsNegative)
  }

  /** The values that take part in the sum: those not above `max`. */
  function Admitted(values: seq<int>, max: int): (r: seq<int>)
    ensures forall v :: v in r <==> v in values && v <= max
  {
    Filter(values, n => n <= max)
  }

  /** The validation and reduction stages: any negative value rejects the
      call; otherwise the values not above `max` are summed, with overflow
      checking. */
  function Evaluate(values: seq<int>, max: int): (r: Outcome)
    ensures r.Ok? ==> 0 <= r.value <= Int32.MaxValue
    ensures r.NegativesNotAllowed? ==>
      r.negatives != [] && forall k :: 0 <= k < |r.negatives| ==> r.negatives[k] < 0
  {
    var negatives := Negatives(values);
    if negatives != [] then
      assert forall k :: 0 <= k < |negatives| ==> IsNegative(negatives[k]);
      NegativesNotAllowed(negatives)
    else
      var admitted := Admitted(values, max);
      match Int32.CheckedSum(admitted)
      case Some(total) =>
        AdmittedNonNegative(values, max);
        Int32.CheckedSumOfNaturals(admitted);
        SumNonNegative(admitted);
        Ok(total)
      case None => Overflow
  }

  /** `StringCalculator.Add(numbers)` under the settings `cfg`. */
  function Add(numbers: string, cfg: Config): (r: Outcome)
    ensures IsBlank(numbers) ==> r == Ok(0)
    ensures r.Ok? ==> 0 <= r.value <= Int32.MaxValue
    ensures r.NegativesNotAllowed? ==>
      r.negatives != [] && forall k :: 0 <= k < |r.negatives| ==> r.negatives[k] < 0
  {
    if IsBlank(numbers) then Ok(0)
    else Evaluate(Values(numbers, cfg), cfg.maxNumberValue)
  }

  /** Once no value is negative, no admitted value is either. */
  lemma AdmittedNonNegative(values: seq<int>, max: int)
    requires Negatives(values) == []
    ensures forall k :: 0 <= k < |Admitted(values, max)| ==> Admitted(values, max)[k] >= 0
  {
    var admitted := Admitted(values, max);
    forall k | 0 <= k < |admitted|
      ensures admitted[k] >= 0
    {
      assert admitted[k] in values;
      assert admitted[k] !in Negatives(values);
    }
  }

  // ---------------------------------------------------------------------
  // Header stage

  /** Without a `//` prefix, or without a line feed to end the header, the
      whole input is split on the configured delimiters. */
  lemma NoHeaderUsesBaseDelimiters(numbers: string, cfg: Config)
    requires !StartsWith(numbers, "//") || '\n' !in numbers
    ensures Tokens(numbers, cfg) == Split(numbers, BaseDelimiters(cfg))
  {
  }

  /** `//[d]\n` followed by a payload appends `d`, whatever its length. */
  lemma BracketedHeader(d: string, payload: string, base: seq<string>)
    requires d != [] && '\n' !in d
    ensures ExtractHeader("//[" + d + "]\n" + payload, base) == Header(base + [d], payload)
  {
    var spec := "[" + d + "]";
    BracketedSpec(d);
    assert "//[" + d + "]\n" + payload == "//" + spec + "\n" + payload;
    HeaderOf(spec, payload, base);
  }

  lemma BracketedSpec(d: string)
    requires d != []
    ensures CustomDelimiter("[" + d + "]") == Some(d)
  {
    var spec := "[" + d + "]";
    assert spec[..1] == "[" && spec[|spec| - 1..] == "]";
    assert spec[1..|spec| - 1] == d;
  }

  /** `//d\n` followed by a payload appends `d` as it stands when `d` is not
      of the `[...]` form. */
  lemma PlainHeader(d: string, payload: string, base: seq<string>)
    requires d != [] && '\n' !in d && !IsBracketed(d)
    ensures ExtractHeader("//" + d + "\n" + payload, base) == Header(base + [d], payload)
  {
    HeaderOf(d, payload, base);
  }

  /** `//\n` and `//[]\n` only strip the header: no delimiter is appended. */
  lemma EmptyHeader(spec: string, payload: string, base: seq<string>)
    requires spec == [] || spec == "[]"
    ensures ExtractHeader("//" + spec + "\n" + payload, base) == Header(base, payload)
  {
    HeaderOf(spec, payload, base);
  }

  /** A header ends at its first line feed, so a specification without one
      is read back exactly, and the rest is the payload. */
  lemma HeaderOf(spec: string, payload: string, base: seq<string>)
    requires '\n' !in spec
    ensures ExtractHeader("//" + spec + "\n" + payload, base) == Header(base + Appended(spec), payload)
  {
    var numbers := "//" + spec + "\n" + payload;
    assert '\n' !in "//" + spec;
    assert numbers == ("//" + spec) + ['\n'] + payload;
    IndexOfAfter("//" + spec, '\n', payload);
    assert numbers[..2] == "//";
    assert numbers[2..2 + |spec|] == spec;
    assert numbers[3 + |spec|..] == payload;
  }

  // ---------------------------------------------------------------------
  // Coercion stage

  /** Any Int32, rendered and padded with whitespace, is parsed back. */
  lemma ParseOrZeroFormat(w1: string, n: int, w2: string)
    requires IsBlank(w1) && IsBlank(w2) && Int32.InRange(n)
    ensures ParseOrZero(w1 + Int32.Format(n) + w2) == n
  {
    var t := Int32.Format(n);
    assert Int32.IsDigit(t[|t| - 1]);
    TrimPadded(w1, t, w2);
    Int32.ParseFormat(n);
  }

  /** A whitespace-padded numeral with an optional sign counts as its value
      when that is an Int32, and as 0 when it is out of range. */
  lemma ParseOrZeroNumeral(w1: string, sign: string, ds: string, w2: string)
    requires IsBlank(w1) && IsBlank(w2)
    requires Int32.IsSign(sign) && ds != [] && Int32.AllDigits(ds)
    ensures var v := Int32.SignedValue(sign, ds);
      ParseOrZero(w1 + (sign + ds) + w2) == if Int32.InRange(v) then v else 0
  {
    var x, v := sign + ds, Int32.SignedValue(sign, ds);
    NumeralEnds(sign, ds);
    TrimPadded(w1, x, w2);
    Int32.ParseNumeral(sign, ds, [], []);
    assert sign + ds + [] + [] == x;
    assert Int32.TryParse(Trim(w1 + x + w2)) == if Int32.InRange(v) then Some(v) else None;
  }

  /** A signed numeral neither starts nor ends with whitespace. */
  lemma NumeralEnds(sign: string, ds: string)
    requires Int32.IsSign(sign) && ds != [] && Int32.AllDigits(ds)
    ensures var x := sign + ds; x != [] && !IsWhiteSpace(x[0]) && !IsWhiteSpace(x[|x| - 1])
  {
    var x := sign + ds;
    assert x[0] == (if sign == "" then ds[0] else sign[0]);
    assert x[|x| - 1] == ds[|ds| - 1];
  }

  /** A token whose trimmed text holds a character other than a digit, a
      NUL, whitespace or a sign in front counts as 0. */
  lemma MalformedTokenIsZero(token: string, k: nat)
    requires k < |Trim(token)|
    requires var c := Trim(token)[k]; !Int32.IsDigit(c) && c != '\0' && !IsWhiteSpace(c)
    requires k == 0 ==> Trim(token)[k] != '-' && Trim(token)[k] != '+'
    ensures ParseOrZero(token) == 0
  {
    Int32.TryParseRejects(Trim(token), k);
  }

  // ---------------------------------------------------------------------
  // Validation and reduction stages

  /** The negatives are reported in their original order. */
  lemma NegativesAppend(a: seq<int>, b: seq<int>)
    ensures Negatives(a + b) == Negatives(a) + Negatives(b)
  {
    FilterAppend(a, b, IsNegative);
  }

  /** The report names every negative value and nothing else. */
  lemma NegativesExactly(values: seq<int>)
    ensures forall v :: v in Negatives(values) <==> v in values && v < 0
    ensures Negatives(values) == [] <==> forall k :: 0 <= k < |values| ==> values[k] >= 0
  {
    if Negatives(values) == [] {
      forall k | 0 <= k < |values|
        ensures values[k] >= 0
      {
        assert values[k] !in Negatives(values);
      }
    } else {
      assert Negatives(values)[0] in values;
    }
  }

  /** A value above the maximum adds nothing to the sum, wherever it stands. */
  lemma AboveMaximumIgnored(a: seq<int>, v: int, b: seq<int>, max: int)
    requires v > max
    ensures Sum(Admitted(a + [v] + b, max)) == Sum(Admitted(a + b, max))
  {
    var keep := (n: int) => n <= max;
    FilterAppend(a + [v], b, keep);
    FilterAppend(a, [v], keep);
    FilterAppend(a, b, keep);
    assert Filter([v], keep) == [];
    assert Admitted(a + [v], max) == Admitted(a, max);
  }

  /** A value not above the maximum, the maximum itself included, is added. */
  lemma UpToMaximumAdded(a: seq<int>, v: int, b: seq<int>, max: int)
    requires v <= max
    ensures Sum(Admitted(a + [v] + b, max)) == Sum(Admitted(a + b, max)) + v
  {
    var keep := (n: int) => n <= max;
    FilterAppend(a + [v], b, keep);
    FilterAppend(a, [v], keep);
    FilterAppend(a, b, keep);
    assert Filter([v], keep) == [v];
    SumAppend(Admitted(a, max) + [v], Admitted(b, max));
    SumAppend(Admitted(a, max), [v]);
    SumAppend(Admitted(a, max), Admitted(b, max));
  }

  // ---------------------------------------------------------------------
  // The whole call

  /** The outcome of the last two stages: any negative rejects the call
      with exactly the negatives; otherwise the result is the sum of the
      values not above the maximum, unless that sum leaves the Int32 range. */
  lemma EvaluateOutcome(values: seq<int>, max: int)
    ensures var total := Sum(Admitted(values, max));
      var r := Evaluate(values, max);
      && (r.NegativesNotAllowed? <==> exists k :: 0 <= k < |values| && values[k] < 0)
      && (r.NegativesNotAllowed? ==> r.negatives == Negatives(values))
      && (r.Ok? <==> Negatives(values) == [] && total <= Int32.MaxValue)
      && (r.Ok? ==> r.value == total)
      && (r.Overflow? <==> Negatives(values) == [] && total > Int32.MaxValue)
  {
    NegativesExactly(values);
    if Negatives(values) == [] {
      var admitted := Admitted(values, max);
      AdmittedNonNegative(values, max);
      Int32.CheckedSumOfNaturals(admitted);
    }
  }

  /** The outcome of a non-blank call in terms of its parsed values. */
  lemma AddOutcome(numbers: string, cfg: Config)
    requires !IsBlank(numbers)
    ensures var values := Values(numbers, cfg);
      var total := Sum(Admitted(values, cfg.maxNumberValue));
      var r := Add(numbers, cfg);
      && (r.NegativesNotAllowed? <==> exists k :: 0 <= k < |values| && values[k] < 0)
      && (r.NegativesNotAllowed? ==> r.negatives == Negatives(values))
      && (r.Ok? <==> Negatives(values) == [] && total <= Int32.MaxValue)
      && (r.Ok? ==> r.value == total)
      && (r.Overflow? <==> Negatives(values) == [] && total > Int32.MaxValue)
  {
    EvaluateOutcome(Values(numbers, cfg), cfg.maxNumberValue);
  }
}
