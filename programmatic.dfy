/** The numeral reader for unpointed text: every leading ו is a conjunction. */
module Programmatic {
  import opened PyStr
  import opened SegmentAccumulator

  const UNITS_MAP: map<string, int> := map[
    "אחת" := 1, "אחד" := 1, "שתיים" := 2, "שתי" := 2, "שניים" := 2, "שני" := 2,
    "שלוש" := 3, "שלושה" := 3, "ארבע" := 4, "ארבעה" := 4, "חמש" := 5, "חמישה" := 5,
    "שש" := 6, "שישה" := 6, "שבע" := 7, "שבעה" := 7, "שמונה" := 8, "תשע" := 9, "תשעה" := 9,
    // construct forms
    "שלושת" := 3, "ארבעת" := 4, "חמשת" := 5, "ששת" := 6, "שבעת" := 7, "שמונת" := 8, "תשעת" := 9
  ]

  const TENS_MAP: map<string, int> := map[
    "עשר" := 10, "עשרה" := 10, "עשרים" := 20, "שלושים" := 30, "ארבעים" := 40,
    "חמישים" := 50, "שישים" := 60, "שבעים" := 70, "שמונים" := 80, "תשעים" := 90
  ]

  const HUNDREDS_MAP: map<string, int> := map["מאה" := 100, "מאת" := 100, "מאתיים" := 200]

  const THOUSANDS_MAP: map<string, int> := map["אלף" := 1000, "אלפיים" := 2000]

  const TENTHOUSANDS_MAP: map<string, int> := map["רבבה" := 10000, "ריבוא" := 10000]

  const PLURAL_MAP: map<string, int> := map["מאות" := 100, "אלפים" := 1000, "רבבות" := 10000]

  /** The year words, skipped while evaluating. */
  const IGNORE_WORDS: set<string> := {"שנה", "שנות", "שנים"}

  /** Python's `|`: on a shared key the right-hand map wins, as with Dafny's `+`. */
  const LEXICON := Lexicon(IGNORE_WORDS, UNITS_MAP + TENS_MAP, HUNDREDS_MAP,
                           PLURAL_MAP + TENTHOUSANDS_MAP + THOUSANDS_MAP)

  predicate PositiveMap(m: map<string, int>) {
    forall w :: w in m ==> m[w] > 0
  }

  lemma UnionPositive(a: map<string, int>, b: map<string, int>)
    requires PositiveMap(a) && PositiveMap(b)
    ensures PositiveMap(a + b)
  {
  }

  lemma UnitsPositive() ensures PositiveMap(UNITS_MAP) {}
  lemma TensPositive() ensures PositiveMap(TENS_MAP) {}
  lemma MultipliersPositive()
    ensures PositiveMap(HUNDREDS_MAP) && PositiveMap(PLURAL_MAP)
    ensures PositiveMap(TENTHOUSANDS_MAP) && PositiveMap(THOUSANDS_MAP)
  {
  }

  /** Every value in the tables is positive. */
  lemma LexiconPositive()
    ensures PositiveValues(LEXICON)
  {
    UnitsPositive();
    TensPositive();
    MultipliersPositive();
    UnionPositive(UNITS_MAP, TENS_MAP);
    UnionPositive(PLURAL_MAP, TENTHOUSANDS_MAP);
    UnionPositive(PLURAL_MAP + TENTHOUSANDS_MAP, THOUSANDS_MAP);
  }

  /** `k` copies of ו. */
  function Vavs(k: nat): string {
    seq(k, _ => 'ו')
  }

  /** A ו followed by ו's and `rest` is ו's followed by `rest`. */
  lemma VavThenRest(token: string, rest: string)
    requires StartsWith(token, "ו") && |rest| < |token|
    requires token[1..] == Vavs(|token| - 1 - |rest|) + rest
    ensures token == Vavs(|token| - |rest|) + rest
  {
    assert token == "ו" + token[1..];
    assert Vavs(|token| - |rest|) == "ו" + Vavs(|token| - 1 - |rest|);
  }

  /** The prefix stripping as a value: leading ו's are removed while more
      than one character is left, and the flag says whether any was. */
  function Preprocessed(token: string): (r: (string, bool))
    ensures |r.0| <= |token|
    ensures token == Vavs(|token| - |r.0|) + r.0
    ensures r.1 <==> |r.0| < |token|
    ensures token != [] ==> r.0 != []
    ensures StartsWith(r.0, "ו") ==> r.0 == "ו"
    decreases |token|
  {
    if StartsWith(token, "ו") && |token| > 1 then
      var rest := Preprocessed(token[1..]);
      VavThenRest(token, rest.0);
      (rest.0, true)
    else (token, false)
  }

  /** `preprocess_token`: strip leading ו's one at a time. */
  method PreprocessToken(token: string) returns (t: string, isConjunction: bool)
    ensures (t, isConjunction) == Preprocessed(token)
  {
    t, isConjunction := token, false;
    while StartsWith(t, "ו") && |t| > 1
      invariant Preprocessed(t).0 == Preprocessed(token).0
      invariant Preprocessed(token).1 == (isConjunction || Preprocessed(t).1)
      decreases |t|
    {
      t := t[1..];
      isConjunction := true;
    }
  }

  /** A stripped token is stripped: a second pass removes nothing. */
  lemma PreprocessIdempotent(token: string)
    ensures Preprocessed(Preprocessed(token).0) == (Preprocessed(token).0, false)
  {
  }

  /** One token of the loop in `hebrew_num_to_int`, over the tables `lex`. */
  function Step(lex: Lexicon, acc: Accumulator, raw: string): Accumulator {
    var p := Preprocessed(raw);
    Dispatch(lex, acc, p.0, p.1)
  }

  /** The loop over a prefix of the tokens. */
  function Run(lex: Lexicon, tokens: seq<string>): Accumulator
  {
    if tokens == [] then Initial else Step(lex, Run(lex, tokens[..|tokens| - 1]), tokens[|tokens| - 1])
  }

  /** `hebrew_num_to_int` as a value: `total` (0) plus the final segment. */
  function Evaluate(phrase: string): int {
    0 + Run(LEXICON, Split(phrase)).currentSegment
  }

  /** The accumulator stays consistent over any token sequence. */
  lemma {:induction false} RunConsistent(lex: Lexicon, tokens: seq<string>)
    requires PositiveValues(lex)
    ensures Consistent(Run(lex, tokens))
  {
    if tokens != [] {
      RunConsistent(lex, tokens[..|tokens| - 1]);
    }
  }

  /** Hence the value of every phrase is non-negative. */
  lemma EvaluateNonNegative(phrase: string)
    ensures Evaluate(phrase) >= 0
  {
    LexiconPositive();
    RunConsistent(LEXICON, Split(phrase));
    SumNonNegative(Run(LEXICON, Split(phrase)).segmentParts);
  }

  /** `hebrew_num_to_int`: split the phrase, run the branches over every
      token, and add the final segment to the total. The tables are those
      of `LEXICON`. */
  method HebrewNumToInt(phrase: string) returns (r: int)
    ensures r == Evaluate(phrase)
    ensures r >= 0
  {
    LexiconPositive();
    r := HebrewNumToIntWith(LEXICON, phrase);
  }

  /** One pass of the token loop: strip the token, then take its branch. */
  method StepToken(lex: Lexicon, acc: Accumulator, raw: string) returns (r: Accumulator)
    ensures r == Step(lex, acc, raw)
    ensures PositiveValues(lex) && Consistent(acc) ==> Consistent(r)
  {
    var token, isConjunction := PreprocessToken(raw);
    r := DispatchToken(lex, acc, token, isConjunction);
  }

  /** The loop over one more token is one more step. */
  lemma RunPrefix(lex: Lexicon, tokens: seq<string>, i: nat)
    requires i < |tokens|
    ensures Run(lex, tokens[..i + 1]) == Step(lex, Run(lex, tokens[..i]), tokens[i])
  {
    assert tokens[..i + 1][..i] == tokens[..i];
  }

  /** The loop of `hebrew_num_to_int` over given tables. */
  method HebrewNumToIntWith(lex: Lexicon, phrase: string) returns (r: int)
    requires PositiveValues(lex)
    ensures r == 0 + Run(lex, Split(phrase)).currentSegment
    ensures r >= 0
  {
    var tokens := Split(phrase);
    var total := 0;
    var acc := Initial;
    for i := 0 to |tokens|
      invariant acc == Run(lex, tokens[..i])
      invariant Consistent(acc)
    {
      RunPrefix(lex, tokens, i);
      acc := StepToken(lex, acc, tokens[i]);
    }
    assert tokens[..|tokens|] == tokens;
    SumNonNegative(acc.segmentParts);
    total := total + acc.currentSegment;
    return total;
  }

  /** The empty phrase is worth 0. */
  lemma EmptyPhraseIsZero()
    ensures Evaluate("") == 0
  {
  }

  /** Year words and unrecognised words leave the accumulator as it is. */
  lemma SkippedTokensChangeNothing(acc: Accumulator, raw: string)
    requires var t := Preprocessed(raw).0; t in IGNORE_WORDS || !Recognised(LEXICON, t)
    ensures Step(LEXICON, acc, raw) == acc
  {
  }

  // The worked examples of the module's documentation. Each is proved over
  // any tables that list its words as `LEXICON` does, so that the proofs do
  // not unfold the concrete maps; `ExampleWordsListed` supplies the facts.

  /** What the worked examples need to know about the tables. */
  predicate ExampleWords(lex: Lexicon) {
    && "ארבע" !in lex.skip && "ארבע" in lex.unitsAndTens && lex.unitsAndTens["ארבע"] == 4
    && "תשע" !in lex.skip && "תשע" in lex.unitsAndTens && lex.unitsAndTens["תשע"] == 9
    && "שבעים" !in lex.skip && "שבעים" in lex.unitsAndTens && lex.unitsAndTens["שבעים"] == 70
    && "שלושים" !in lex.skip && "שלושים" in lex.unitsAndTens && lex.unitsAndTens["שלושים"] == 30
    && "מאות" !in lex.skip && "מאות" !in lex.unitsAndTens && "מאות" !in lex.hundreds
    && "מאות" in lex.allPlural && lex.allPlural["מאות"] == 100
    && "אלף" !in lex.skip && "אלף" !in lex.unitsAndTens && "אלף" !in lex.hundreds
    && "אלף" in lex.allPlural && lex.allPlural["אלף"] == 1000
    && "שנה" in lex.skip
  }

  lemma InLeft(a: map<string, int>, b: map<string, int>, w: string)
    requires w in a && w !in b
    ensures w in a + b && (a + b)[w] == a[w]
  {
  }

  lemma InRight(a: map<string, int>, b: map<string, int>, w: string)
    requires w in b
    ensures w in a + b && (a + b)[w] == b[w]
  {
  }

  lemma InNeither(a: map<string, int>, b: map<string, int>, w: string)
    requires w !in a && w !in b
    ensures w !in a + b
  {
  }

  lemma UnitsHoldFourAndNine()
    ensures "ארבע" in UNITS_MAP && UNITS_MAP["ארבע"] == 4 && "ארבע" !in TENS_MAP
    ensures "תשע" in UNITS_MAP && UNITS_MAP["תשע"] == 9 && "תשע" !in TENS_MAP
  {
  }

  lemma TensHoldSeventyAndThirty()
    ensures "שבעים" in TENS_MAP && TENS_MAP["שבעים"] == 70
    ensures "שלושים" in TENS_MAP && TENS_MAP["שלושים"] == 30
  {
  }

  lemma NotNumberWords()
    ensures "מאות" !in UNITS_MAP && "מאות" !in TENS_MAP
    ensures "אלף" !in UNITS_MAP && "אלף" !in TENS_MAP
  {
  }

  lemma MultiplierWords()
    ensures "מאות" !in HUNDREDS_MAP && "מאות" in PLURAL_MAP && PLURAL_MAP["מאות"] == 100
    ensures "מאות" !in TENTHOUSANDS_MAP && "מאות" !in THOUSANDS_MAP
    ensures "אלף" !in HUNDREDS_MAP && "אלף" in THOUSANDS_MAP && THOUSANDS_MAP["אלף"] == 1000
  {
  }

  lemma NotYearWords()
    ensures "ארבע" !in IGNORE_WORDS && "תשע" !in IGNORE_WORDS
    ensures "שבעים" !in IGNORE_WORDS && "שלושים" !in IGNORE_WORDS
    ensures "מאות" !in IGNORE_WORDS && "אלף" !in IGNORE_WORDS
  {
  }

  lemma UnitsListed()
    ensures "ארבע" !in LEXICON.skip && "ארבע" in LEXICON.unitsAndTens && LEXICON.unitsAndTens["ארבע"] == 4
    ensures "תשע" !in LEXICON.skip && "תשע" in LEXICON.unitsAndTens && LEXICON.unitsAndTens["תשע"] == 9
  {
    NotYearWords();
    UnitsHoldFourAndNine();
    InLeft(UNITS_MAP, TENS_MAP, "ארבע");
    InLeft(UNITS_MAP, TENS_MAP, "תשע");
  }

  lemma TensListed()
    ensures "שבעים" !in LEXICON.skip && "שבעים" in LEXICON.unitsAndTens && LEXICON.unitsAndTens["שבעים"] == 70
    ensures "שלושים" !in LEXICON.skip && "שלושים" in LEXICON.unitsAndTens && LEXICON.unitsAndTens["שלושים"] == 30
  {
    NotYearWords();
    TensHoldSeventyAndThirty();
    InRight(UNITS_MAP, TENS_MAP, "שבעים");
    InRight(UNITS_MAP, TENS_MAP, "שלושים");
  }

  lemma HundredsWordListed()
    ensures "מאות" !in LEXICON.skip && "מאות" !in LEXICON.unitsAndTens && "מאות" !in LEXICON.hundreds
    ensures "מאות" in LEXICON.allPlural && LEXICON.allPlural["מאות"] == 100
  {
    NotYearWords();
    NotNumberWords();
    MultiplierWords();
    InNeither(UNITS_MAP, TENS_MAP, "מאות");
    InLeft(PLURAL_MAP, TENTHOUSANDS_MAP, "מאות");
    InLeft(PLURAL_MAP + TENTHOUSANDS_MAP, THOUSANDS_MAP, "מאות");
  }

  lemma ThousandListed()
    ensures "אלף" !in LEXICON.skip && "אלף" !in LEXICON.unitsAndTens && "אלף" !in LEXICON.hundreds
    ensures "אלף" in LEXICON.allPlural && LEXICON.allPlural["אלף"] == 1000
  {
    NotYearWords();
    NotNumberWords();
    MultiplierWords();
    InNeither(UNITS_MAP, TENS_MAP, "אלף");
    InRight(PLURAL_MAP + TENTHOUSANDS_MAP, THOUSANDS_MAP, "אלף");
  }

  /** `LEXICON` lists the words of the worked examples with their values. */
  lemma ExampleWordsListed()
    ensures ExampleWords(LEXICON)
  {
    UnitsListed();
    TensListed();
    HundredsWordListed();
    ThousandListed();
    assert "שנה" in IGNORE_WORDS;
  }

  /** A number word, once stripped, goes through `add_number`. */
  lemma StepNumberWord(lex: Lexicon, acc: Accumulator, raw: string, t: string, conj: bool, v: int)
    requires Preprocessed(raw) == (t, conj)
    requires t !in lex.skip && t in lex.unitsAndTens && lex.unitsAndTens[t] == v
    ensures Step(lex, acc, raw) == AddNumber(acc, v, conj)
  {
  }

  /** A multiplier without a conjunction goes through `multiply_last`. */
  lemma StepMultiplierWord(lex: Lexicon, acc: Accumulator, raw: string, v: int)
    requires Preprocessed(raw) == (raw, false)
    requires raw !in lex.skip && raw !in lex.unitsAndTens && raw !in lex.hundreds
    requires raw in lex.allPlural && lex.allPlural[raw] == v
    ensures Step(lex, acc, raw) == MultiplyLast(acc, v)
  {
  }

  lemma StepSkipWord(lex: Lexicon, acc: Accumulator, raw: string)
    requires Preprocessed(raw) == (raw, false) && raw in lex.skip
    ensures Step(lex, acc, raw) == acc
  {
  }

  /** The words of the examples without a leading ו are left as they are. */
  lemma PlainWords()
    ensures Preprocessed("ארבע") == ("ארבע", false)
    ensures Preprocessed("מאות") == ("מאות", false)
    ensures Preprocessed("תשע") == ("תשע", false)
    ensures Preprocessed("שנה") == ("שנה", false)
    ensures Preprocessed("אלף") == ("אלף", false)
  {
  }

  /** "and seventy" and "and thirty" lose their ו and count as conjunctions. */
  lemma ConjunctionWords()
    ensures Preprocessed("ושבעים") == ("שבעים", true)
    ensures Preprocessed("ושלושים") == ("שלושים", true)
  {
    assert "ושבעים"[1..] == "שבעים";
    assert "ושלושים"[1..] == "שלושים";
  }

  lemma RunThree(lex: Lexicon, a: string, b: string, c: string)
    ensures Run(lex, [a, b, c]) == Step(lex, Step(lex, Step(lex, Initial, a), b), c)
  {
    var ws := [a, b, c];
    assert ws[..2] == [a, b] && [a, b][..1] == [a] && [a][..0] == [];
    assert Run(lex, [a]) == Step(lex, Initial, a);
    assert Run(lex, [a, b]) == Step(lex, Run(lex, [a]), b);
  }

  lemma RunFour(lex: Lexicon, a: string, b: string, c: string, d: string)
    ensures Run(lex, [a, b, c, d]) == Step(lex, Run(lex, [a, b, c]), d)
  {
    assert [a, b, c, d][..3] == [a, b, c];
  }

  lemma RunFive(lex: Lexicon, a: string, b: string, c: string, d: string, e: string)
    ensures Run(lex, [a, b, c, d, e]) == Step(lex, Run(lex, [a, b, c, d]), e)
  {
    assert [a, b, c, d, e][..4] == [a, b, c, d];
  }

  lemma RunFourHundredSeventy(lex: Lexicon, a: string, b: string, c: string)
    requires ExampleWords(lex)
    requires a == "ארבע" && b == "מאות" && c == "ושבעים"
    ensures Run(lex, [a, b, c]) == Accumulator(470, [400, 70])
  {
    PlainWords();
    ConjunctionWords();
    StepNumberWord(lex, Initial, a, a, false, 4);
    assert AddNumber(Initial, 4, false) == Accumulator(4, [4]);
    StepMultiplierWord(lex, Accumulator(4, [4]), b, 100);
    StepNumberWord(lex, Accumulator(400, [400]), c, "שבעים", true, 70);
    RunThree(lex, a, b, c);
  }

  lemma FourHundredSeventyWith(lex: Lexicon, phrase: string)
    requires ExampleWords(lex)
    requires phrase == Join(" ", ["ארבע", "מאות", "ושבעים"])
    ensures Run(lex, Split(phrase)).currentSegment == 470
  {
    var ws := ["ארבע", "מאות", "ושבעים"];
    assert IsWord("ארבע") && IsWord("מאות") && IsWord("ושבעים");
    SplitJoin(ws);
    RunFourHundredSeventy(lex, "ארבע", "מאות", "ושבעים");
  }

  /** "four hundred and seventy": 4, times 100, plus 70. */
  lemma FourHundredSeventy(phrase: string)
    requires phrase == Join(" ", ["ארבע", "מאות", "ושבעים"])
    ensures Evaluate(phrase) == 470
  {
    ExampleWordsListed();
    FourHundredSeventyWith(LEXICON, phrase);
  }

  lemma RunNineHundredYears(lex: Lexicon, a: string, b: string, c: string)
    requires ExampleWords(lex)
    requires a == "תשע" && b == "מאות" && c == "שנה"
    ensures Run(lex, [a, b, c]) == Accumulator(900, [900])
  {
    PlainWords();
    StepNumberWord(lex, Initial, a, a, false, 9);
    assert AddNumber(Initial, 9, false) == Accumulator(9, [9]);
    StepMultiplierWord(lex, Accumulator(9, [9]), b, 100);
    StepSkipWord(lex, Accumulator(900, [900]), c);
    RunThree(lex, a, b, c);
  }

  lemma RunNineHundredThirty(lex: Lexicon, a: string, b: string, c: string, d: string, e: string)
    requires ExampleWords(lex)
    requires a == "תשע" && b == "מאות" && c == "שנה" && d == "ושלושים" && e == "שנה"
    ensures Run(lex, [a, b, c, d, e]) == Accumulator(930, [900, 30])
  {
    RunNineHundredYears(lex, a, b, c);
    RunFour(lex, a, b, c, d);
    ConjunctionWords();
    StepNumberWord(lex, Accumulator(900, [900]), d, "שלושים", true, 30);
    assert Run(lex, [a, b, c, d]) == Accumulator(930, [900, 30]);
    RunFive(lex, a, b, c, d, e);
    PlainWords();
    StepSkipWord(lex, Accumulator(930, [900, 30]), e);
  }

  lemma NineHundredThirtyWith(lex: Lexicon, phrase: string)
    requires ExampleWords(lex)
    requires phrase == Join(" ", ["תשע", "מאות", "שנה", "ושלושים", "שנה"])
    ensures Run(lex, Split(phrase)).currentSegment == 930
  {
    var ws := ["תשע", "מאות", "שנה", "ושלושים", "שנה"];
    assert IsWord("תשע") && IsWord("מאות") && IsWord("שנה") && IsWord("ושלושים");
    SplitJoin(ws);
    RunNineHundredThirty(lex, "תשע", "מאות", "שנה", "ושלושים", "שנה");
  }

  /** "nine hundred years and thirty years": 9, times 100, the year words
      skipped, plus 30. */
  lemma NineHundredThirty(phrase: string)
    requires phrase == Join(" ", ["תשע", "מאות", "שנה", "ושלושים", "שנה"])
    ensures Evaluate(phrase) == 930
  {
    ExampleWordsListed();
    NineHundredThirtyWith(LEXICON, phrase);
  }

  lemma RunFourHundredSeventyThousand(lex: Lexicon, a: string, b: string, c: string, d: string)
    requires ExampleWords(lex)
    requires a == "ארבע" && b == "מאות" && c == "ושבעים" && d == "אלף"
    ensures Run(lex, [a, b, c, d]) == Accumulator(70400, [400, 70000])
  {
    RunFourHundredSeventy(lex, a, b, c);
    RunFour(lex, a, b, c, d);
    PlainWords();
    StepMultiplierWord(lex, Accumulator(470, [400, 70]), d, 1000);
    var m := MultiplyLast(Accumulator(470, [400, 70]), 1000);
    assert [400, 70][..1] == [400];
    assert m == Accumulator(70400, [400, 70000]);
  }

  lemma ThousandScalesOnlyLastPartWith(lex: Lexicon, phrase: string)
    requires ExampleWords(lex)
    requires phrase == Join(" ", ["ארבע", "מאות", "ושבעים", "אלף"])
    ensures Run(lex, Split(phrase)).currentSegment == 70400
  {
    var ws := ["ארבע", "מאות", "ושבעים", "אלף"];
    assert IsWord("ארבע") && IsWord("מאות") && IsWord("ושבעים") && IsWord("אלף");
    SplitJoin(ws);
    RunFourHundredSeventyThousand(lex, "ארבע", "מאות", "ושבעים", "אלף");
  }

  /** A multiplier rescales only the last part: "four hundred and seventy
      thousand" reads as 400 + 70 * 1000, not (400 + 70) * 1000. */
  lemma ThousandScalesOnlyLastPart(phrase: string)
    requires phrase == Join(" ", ["ארבע", "מאות", "ושבעים", "אלף"])
    ensures Evaluate(phrase) == 70400
  {
    ExampleWordsListed();
    ThousandScalesOnlyLastPartWith(LEXICON, phrase);
  }
}
