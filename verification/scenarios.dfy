/**
  Concrete calls of `Add` under the default settings (delimiters `,` and
  line feed, maximum 1000): the cases the unit tests check, and calls that
  pin down the header and split rules.
*/
module CalculatorScenarios {
  import opened Wrappers
  import opened Text
  import opened Sequences
  import opened Tokenizer
  import opened StringCalculator
  import Int32

  // ---------------------------------------------------------------------
  // Helpers that let a concrete call be worked out stage by stage

  /** `s` does not start with `p`: they differ at position `k`. */
  lemma DiffersAt(s: string, p: string, k: nat)
    requires k < |p| && (k < |s| ==> s[k] != p[k])
    ensures !StartsWith(s, p)
  {
    if |p| <= |s| {
      assert s[..|p|][k] == s[k];
    }
  }

  /** How a token reads: the rendering of an Int32, or text whose first
      character can begin no number, which counts as 0. */
  predicate Reads(token: string, v: int) {
    || (Int32.InRange(v) && Int32.Format(v) == token)
    || (&& v == 0 && token != []
        && !IsWhiteSpace(token[0]) && !IsWhiteSpace(token[|token| - 1])
        && !Int32.IsDigit(token[0]) && token[0] != '-' && token[0] != '+' && token[0] != '\0')
  }

  predicate ReadsAll(tokens: seq<string>, values: seq<int>)
    decreases |tokens|
  {
    if tokens == [] then values == []
    else values != [] && Reads(tokens[0], values[0]) && ReadsAll(tokens[1..], values[1..])
  }

  lemma ReadsParse(token: string, v: int)
    requires Reads(token, v)
    ensures ParseOrZero(token) == v
  {
    if Int32.InRange(v) && Int32.Format(v) == token {
      assert Int32.IsDigit(token[|token| - 1]);
      TrimUnpadded(token);
      Int32.ParseFormat(v);
    } else {
      TrimUnpadded(token);
      MalformedTokenIsZero(token, 0);
    }
  }

  /** A token that is neither blank-padded nor starts like a number reads as 0. */
  lemma MalformedReadsZero(token: string)
    requires token != [] && !IsWhiteSpace(token[0]) && !IsWhiteSpace(token[|token| - 1])
    requires !Int32.IsDigit(token[0]) && token[0] != '-' && token[0] != '+' && token[0] != '\0'
    ensures Reads(token, 0)
  {
  }

  lemma {:induction false} ReadsEach(tokens: seq<string>, values: seq<int>)
    requires ReadsAll(tokens, values)
    ensures |values| == |tokens|
    ensures forall k :: 0 <= k < |tokens| ==> Reads(tokens[k], values[k])
    decreases |tokens|
  {
    if tokens != [] {
      ReadsEach(tokens[1..], values[1..]);
      forall k | 1 <= k < |tokens|
        ensures Reads(tokens[k], values[k])
      {
        assert tokens[k] == tokens[1..][k - 1] && values[k] == values[1..][k - 1];
      }
    }
  }

  lemma ReadsAllParse(tokens: seq<string>, values: seq<int>)
    requires ReadsAll(tokens, values)
    ensures ParseAll(tokens) == values
  {
    ReadsEach(tokens, values);
    forall k | 0 <= k < |tokens|
      ensures ParseOrZero(tokens[k]) == values[k]
    {
      ReadsParse(tokens[k], values[k]);
    }
  }

  /** `tokens` with `d` between neighbours. */
  function JoinWith(tokens: seq<string>, d: string): string
    requires tokens != []
    decreases |tokens|
  {
    if |tokens| == 1 then tokens[0] else tokens[0] + d + JoinWith(tokens[1..], d)
  }

  predicate AllAvoidHeads(tokens: seq<string>, seps: seq<string>)
    decreases |tokens|
  {
    tokens == [] || (AvoidsSeparatorHeads(tokens[0], seps) && AllAvoidHeads(tokens[1..], seps))
  }

  /** No separator listed before position `k` begins with `c`. */
  predicate HeadsDifferBefore(seps: seq<string>, k: nat, c: char)
    requires k <= |seps|
  {
    k == 0 || ((seps[k - 1] == [] || seps[k - 1][0] != c) && HeadsDifferBefore(seps, k - 1, c))
  }

  lemma {:induction false} HeadsDiffer(seps: seq<string>, k: nat, c: char)
    requires k <= |seps| && HeadsDifferBefore(seps, k, c)
    ensures forall j :: 0 <= j < k ==> seps[j] == [] || seps[j][0] != c
  {
    if k > 0 {
      HeadsDiffer(seps, k - 1, c);
    }
  }

  /** Tokens none of whose characters begins a separator, joined with
      `seps[k]`, split back into themselves. */
  lemma {:induction false} SplitJoinWith(tokens: seq<string>, k: nat, seps: seq<string>)
    requires tokens != [] && k < |seps| && seps[k] != []
    requires HeadsDifferBefore(seps, k, seps[k][0]) && AllAvoidHeads(tokens, seps)
    ensures Split(JoinWith(tokens, seps[k]), seps) == tokens
    decreases |tokens|
  {
    if |tokens| == 1 {
      SplitSingleToken(tokens[0], seps);
    } else {
      HeadsDiffer(seps, k, seps[k][0]);
      SplitJoinWith(tokens[1..], k, seps);
      SplitFirstToken(tokens[0], k, JoinWith(tokens[1..], seps[k]), seps);
      assert tokens == [tokens[0]] + tokens[1..];
    }
  }

  /** Under the default settings, `numbers` splits into `tokens`. */
  predicate Tokenizes(numbers: string, tokens: seq<string>) {
    Tokens(numbers, DefaultConfig) == tokens
  }

  /** `tokens` read as `values`, none negative, whose admitted ones sum to `total`. */
  predicate SumsTo(tokens: seq<string>, values: seq<int>, total: int) {
    ReadsAll(tokens, values) && Negatives(values) == [] &&
    Sum(Admitted(values, 1000)) == total <= Int32.MaxValue
  }

  /** `tokens` read as `values`, whose negatives are `negatives`. */
  predicate Rejects(tokens: seq<string>, values: seq<int>, negatives: seq<int>) {
    ReadsAll(tokens, values) && Negatives(values) == negatives != []
  }

  lemma RunOk(numbers: string, tokens: seq<string>, values: seq<int>, total: int)
    requires numbers != [] && !IsWhiteSpace(numbers[0])
    requires Tokenizes(numbers, tokens) && SumsTo(tokens, values, total)
    ensures Add(numbers, DefaultConfig) == Ok(total)
  {
    ReadsAllParse(tokens, values);
    AddOutcome(numbers, DefaultConfig);
  }

  lemma RunNegatives(numbers: string, tokens: seq<string>, values: seq<int>, negatives: seq<int>)
    requires numbers != [] && !IsWhiteSpace(numbers[0])
    requires Tokenizes(numbers, tokens) && Rejects(tokens, values, negatives)
    ensures Add(numbers, DefaultConfig) == NegativesNotAllowed(negatives)
  {
    ReadsAllParse(tokens, values);
    AddOutcome(numbers, DefaultConfig);
  }

  // ---------------------------------------------------------------------
  // The unit-test cases

  lemma BlankInputs()
    ensures Add("", DefaultConfig) == Ok(0)
    ensures Add("  ", DefaultConfig) == Ok(0)
  {
    var w := "  ";
    assert w[0] == ' ' && w[1] == ' ' && IsBlank(w);
  }

  lemma SingleNumberTokens()
    ensures Tokenizes("20", ["20"])
  {
    DiffersAt("20", "//", 0);
    assert "20" == JoinWith(["20"], DefaultDelimiters[0]);
    SplitJoinWith(["20"], 0, DefaultDelimiters);
  }

  lemma SingleNumberValues()
    ensures SumsTo(["20"], [20], 20)
  {
  }

  /** A single number is its own sum. */
  lemma SingleNumber()
    ensures Add("20", DefaultConfig) == Ok(20)
  {
    SingleNumberTokens();
    SingleNumberValues();
    RunOk("20", ["20"], [20], 20);
  }

  lemma TwoNumbersTokens()
    ensures Tokenizes("1,500", ["1", "500"])
  {
    DiffersAt("1,500", "//", 0);
    assert "1,500" == JoinWith(["1", "500"], DefaultDelimiters[0]);
    SplitJoinWith(["1", "500"], 0, DefaultDelimiters);
  }

  lemma TwoNumbersValues()
    ensures SumsTo(["1", "500"], [1, 500], 501)
  {
  }

  /** Comma-separated numbers are added. */
  lemma TwoNumbers()
    ensures Add("1,500", DefaultConfig) == Ok(501)
  {
    TwoNumbersTokens();
    TwoNumbersValues();
    RunOk("1,500", ["1", "500"], [1, 500], 501);
  }

  lemma OneNegativeTokens()
    ensures Tokenizes("4,-3", ["4", "-3"])
  {
    DiffersAt("4,-3", "//", 0);
    assert "4,-3" == JoinWith(["4", "-3"], DefaultDelimiters[0]);
    SplitJoinWith(["4", "-3"], 0, DefaultDelimiters);
  }

  lemma OneNegativeValues()
    ensures Rejects(["4", "-3"], [4, -3], [-3])
  {
  }

  /** A negative number is rejected and reported. */
  lemma OneNegative()
    ensures Add("4,-3", DefaultConfig) == NegativesNotAllowed([-3])
  {
    OneNegativeTokens();
    OneNegativeValues();
    RunNegatives("4,-3", ["4", "-3"], [4, -3], [-3]);
  }

  lemma AllNegativesInOrderTokens()
    ensures Tokenizes("1,-2,3,-4", ["1", "-2", "3", "-4"])
  {
    DiffersAt("1,-2,3,-4", "//", 0);
    assert "1,-2,3,-4" == JoinWith(["1", "-2", "3", "-4"], DefaultDelimiters[0]);
    SplitJoinWith(["1", "-2", "3", "-4"], 0, DefaultDelimiters);
  }

  lemma AllNegativesInOrderValues()
    ensures Rejects(["1", "-2", "3", "-4"], [1, -2, 3, -4], [-2, -4])
  {
  }

  /** Every negative is reported, in input order. */
  lemma AllNegativesInOrder()
    ensures Add("1,-2,3,-4", DefaultConfig) == NegativesNotAllowed([-2, -4])
  {
    AllNegativesInOrderTokens();
    AllNegativesInOrderValues();
    RunNegatives("1,-2,3,-4", ["1", "-2", "3", "-4"], [1, -2, 3, -4], [-2, -4]);
  }

  lemma InvalidNumberIsZeroTokens()
    ensures Tokenizes("5,tytyt", ["5", "tytyt"])
  {
    DiffersAt("5,tytyt", "//", 0);
    assert "5,tytyt" == JoinWith(["5", "tytyt"], DefaultDelimiters[0]);
    SplitJoinWith(["5", "tytyt"], 0, DefaultDelimiters);
  }

  lemma InvalidNumberIsZeroValues()
    ensures SumsTo(["5", "tytyt"], [5, 0], 5)
  {
  }

  /** A token that is not a number counts as 0. */
  lemma InvalidNumberIsZero()
    ensures Add("5,tytyt", DefaultConfig) == Ok(5)
  {
    InvalidNumberIsZeroTokens();
    InvalidNumberIsZeroValues();
    RunOk("5,tytyt", ["5", "tytyt"], [5, 0], 5);
  }

  lemma AboveMaximumIsIgnoredTokens()
    ensures Tokenizes("2,1001,6", ["2", "1001", "6"])
  {
    DiffersAt("2,1001,6", "//", 0);
    assert "2,1001,6" == JoinWith(["2", "1001", "6"], DefaultDelimiters[0]);
    SplitJoinWith(["2", "1001", "6"], 0, DefaultDelimiters);
  }

  lemma AboveMaximumIsIgnoredValues()
    ensures SumsTo(["2", "1001", "6"], [2, 1001, 6], 8)
  {
  }

  /** A number above the maximum is left out of the sum. */
  lemma AboveMaximumIsIgnored()
    ensures Add("2,1001,6", DefaultConfig) == Ok(8)
  {
    AboveMaximumIsIgnoredTokens();
    AboveMaximumIsIgnoredValues();
    RunOk("2,1001,6", ["2", "1001", "6"], [2, 1001, 6], 8);
  }

  lemma MaximumIsIncludedTokens()
    ensures Tokenizes("2,1000,6", ["2", "1000", "6"])
  {
    DiffersAt("2,1000,6", "//", 0);
    assert "2,1000,6" == JoinWith(["2", "1000", "6"], DefaultDelimiters[0]);
    SplitJoinWith(["2", "1000", "6"], 0, DefaultDelimiters);
  }

  lemma MaximumIsIncludedValues()
    ensures SumsTo(["2", "1000", "6"], [2, 1000, 6], 1008)
  {
  }

  /** The maximum itself is still added. */
  lemma MaximumIsIncluded()
    ensures Add("2,1000,6", DefaultConfig) == Ok(1008)
  {
    MaximumIsIncludedTokens();
    MaximumIsIncludedValues();
    RunOk("2,1000,6", ["2", "1000", "6"], [2, 1000, 6], 1008);
  }

  lemma SingleCharacterDelimiterHeader()
    ensures ExtractHeader("//#\n2#5", DefaultDelimiters) == Header(DefaultDelimiters + ["#"], "2#5")
  {
    assert "//#\n2#5" == "//" + "#" + "\n" + "2#5";
    DiffersAt("#", "[", 0);
    PlainHeader("#", "2#5", DefaultDelimiters);
  }

  lemma SingleCharacterDelimiterSplit()
    ensures Split("2#5", DefaultDelimiters + ["#"]) == ["2", "5"]
  {
    var seps := DefaultDelimiters + ["#"];
    assert "2#5" == JoinWith(["2", "5"], seps[2]);
    SplitJoinWith(["2", "5"], 2, seps);
  }

  lemma SingleCharacterDelimiterTokens()
    ensures Tokenizes("//#\n2#5", ["2", "5"])
  {
    SingleCharacterDelimiterHeader();
    SingleCharacterDelimiterSplit();
  }

  lemma SingleCharacterDelimiterValues()
    ensures SumsTo(["2", "5"], [2, 5], 7)
  {
  }

  /** A header `//d` followed by a line feed adds the delimiter `d`. */
  lemma SingleCharacterDelimiter()
    ensures Add("//#\n2#5", DefaultConfig) == Ok(7)
  {
    SingleCharacterDelimiterTokens();
    SingleCharacterDelimiterValues();
    RunOk("//#\n2#5", ["2", "5"], [2, 5], 7);
  }

  lemma MultiCharacterDelimiterHeader()
    ensures ExtractHeader("//[***]\n11***22***33", DefaultDelimiters) == Header(DefaultDelimiters + ["***"], "11***22***33")
  {
    assert "//[***]\n11***22***33" == "//[" + "***" + "]\n" + "11***22***33";
    BracketedHeader("***", "11***22***33", DefaultDelimiters);
  }

  lemma MultiCharacterDelimiterSplit()
    ensures Split("11***22***33", DefaultDelimiters + ["***"]) == ["11", "22", "33"]
  {
    var seps := DefaultDelimiters + ["***"];
    assert "11***22***33" == JoinWith(["11", "22", "33"], seps[2]);
    SplitJoinWith(["11", "22", "33"], 2, seps);
  }

  lemma MultiCharacterDelimiterTokens()
    ensures Tokenizes("//[***]\n11***22***33", ["11", "22", "33"])
  {
    MultiCharacterDelimiterHeader();
    MultiCharacterDelimiterSplit();
  }

  lemma MultiCharacterDelimiterValues()
    ensures SumsTo(["11", "22", "33"], [11, 22, 33], 66)
  {
  }

  /** A bracketed header declares a delimiter of any length. */
  lemma MultiCharacterDelimiter()
    ensures Add("//[***]\n11***22***33", DefaultConfig) == Ok(66)
  {
    MultiCharacterDelimiterTokens();
    MultiCharacterDelimiterValues();
    RunOk("//[***]\n11***22***33", ["11", "22", "33"], [11, 22, 33], 66);
  }

  lemma DuplicateDelimiterHeader()
    ensures ExtractHeader("//,\n2,ff,100", DefaultDelimiters) == Header(DefaultDelimiters + [","], "2,ff,100")
  {
    assert "//,\n2,ff,100" == "//" + "," + "\n" + "2,ff,100";
    DiffersAt(",", "[", 0);
    PlainHeader(",", "2,ff,100", DefaultDelimiters);
  }

  lemma DuplicateDelimiterBaseSplit()
    ensures Split("2,ff,100", DefaultDelimiters) == ["2", "ff", "100"]
  {
    assert "2,ff,100" == JoinWith(["2", "ff", "100"], DefaultDelimiters[0]);
    SplitJoinWith(["2", "ff", "100"], 0, DefaultDelimiters);
  }

  lemma DuplicateDelimiterSplit()
    ensures Split("2,ff,100", DefaultDelimiters + [","]) == ["2", "ff", "100"]
  {
    DuplicateDelimiterBaseSplit();
    SplitIgnoresDuplicate("2,ff,100", DefaultDelimiters, ",");
  }

  lemma DuplicateDelimiterTokens()
    ensures Tokenizes("//,\n2,ff,100", ["2", "ff", "100"])
  {
    DuplicateDelimiterHeader();
    DuplicateDelimiterSplit();
  }

  lemma DuplicateDelimiterValues()
    ensures SumsTo(["2", "ff", "100"], [2, 0, 100], 102)
  {
  }

  /** A header that repeats a configured delimiter is harmless. */
  lemma DuplicateDelimiter()
    ensures Add("//,\n2,ff,100", DefaultConfig) == Ok(102)
  {
    DuplicateDelimiterTokens();
    DuplicateDelimiterValues();
    RunOk("//,\n2,ff,100", ["2", "ff", "100"], [2, 0, 100], 102);
  }

  // ---------------------------------------------------------------------
  // The header and split rules

  /** Only one bracket pair is recognised: `//[a][b]` declares the single
      delimiter `a][b`. */
  lemma OneBracketPairOnly()
    ensures ExtractHeader("//[a][b]\n1a][b2", DefaultDelimiters) == Header(DefaultDelimiters + ["a][b"], "1a][b2")
  {
    assert "//[a][b]\n1a][b2" == "//[" + "a][b" + "]\n" + "1a][b2";
    BracketedHeader("a][b", "1a][b2", DefaultDelimiters);
  }

  lemma UnterminatedHeaderTokens()
    ensures Tokenizes("//;1;2", ["//;1;2"])
  {
    assert '\n' !in "//;1;2";
    NoHeaderUsesBaseDelimiters("//;1;2", DefaultConfig);
    SplitSingleToken("//;1;2", DefaultDelimiters);
  }

  lemma UnterminatedHeaderValues()
    ensures SumsTo(["//;1;2"], [0], 0)
  {
    MalformedReadsZero("//;1;2");
  }

  /** A header without a line feed is not a header: the whole input is one
      token, which does not parse. */
  lemma UnterminatedHeader()
    ensures Add("//;1;2", DefaultConfig) == Ok(0)
  {
    UnterminatedHeaderTokens();
    UnterminatedHeaderValues();
    RunOk("//;1;2", ["//;1;2"], [0], 0);
  }

  /** At each position the first separator in list order wins, not the
      longest: with `*` listed before `**`, `1**2` gives an empty middle token. */
  lemma FirstListedSeparatorWins()
    ensures Split("1**2", ["*", "**"]) == ["1", "", "2"]
  {
    var seps := ["*", "**"];
    assert "1**2" == JoinWith(["1", "", "2"], seps[0]);
    SplitJoinWith(["1", "", "2"], 0, seps);
  }

  /** `d` does not occur in `s` at `i`: they differ `k` characters in. */
  lemma AbsentAt(s: string, i: nat, d: string, k: nat)
    requires k < |d| && (i + k < |s| ==> s[i + k] != d[k])
    ensures !OccursAt(s, i, d)
  {
    if i + |d| <= |s| {
      assert s[i..i + |d|][k] == s[i + k];
    }
  }

  /** A separator listed first but absent is skipped: with `**` before `*`,
      `1*2` is cut at the single `*`. */
  lemma UnmatchedSeparatorSkipped()
    ensures Split("1*2", ["**", "*"]) == ["1", "2"]
  {
    var seps := ["**", "*"];
    assert "1*2" == "1" + seps[1] + "2";
    AbsentAt("1*2", 0, seps[0], 0);
    AbsentAt("1*2", 0, seps[1], 0);
    AbsentAt("1*2", 1, seps[0], 1);
    SplitAtSeparator("1", 1, "2", seps);
    SplitSingleToken("2", seps);
  }

  /** Nothing is cut inside `1*2`, though `*` begins `***`, and `***` is the
      first listed separator that occurs right after it. */
  lemma SeparatorHeadInsideTokenCut()
    ensures var s, seps := "1*2***3", DefaultDelimiters + ["***"];
      && (forall q :: 0 <= q < 3 ==> MatchAt(s, q, seps).None?)
      && !OccursAt(s, 3, seps[0]) && !OccursAt(s, 3, seps[1])
      && s == "1*2" + seps[2] + "3" && AvoidsSeparatorHeads("3", seps)
  {
    var s, seps := "1*2***3", DefaultDelimiters + ["***"];
    forall q, k | 0 <= q < 3 && 0 <= k < |seps|
      ensures !OccursAt(s, q, seps[k])
    {
      if q == 1 && k == 2 {
        AbsentAt(s, q, seps[k], 1);
      } else {
        AbsentAt(s, q, seps[k], 0);
      }
    }
    AbsentAt(s, 3, seps[0], 0);
    AbsentAt(s, 3, seps[1], 0);
    assert s == "1*2" + seps[2] + "3";
  }

  /** A separator's first character inside a token does not cut it when the
      separator does not occur there: `1*2***3` splits on `***` only once. */
  lemma SeparatorHeadInsideToken()
    ensures Split("1*2***3", DefaultDelimiters + ["***"]) == ["1*2", "3"]
  {
    var seps := DefaultDelimiters + ["***"];
    SeparatorHeadInsideTokenCut();
    SplitAtSeparator("1*2", 2, "3", seps);
    SplitSingleToken("3", seps);
  }
}
