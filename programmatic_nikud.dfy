/** The numeral reader for pointed text: at most one conjugate prefix is
    stripped, and the phrase extractor that groups number words of a verse. */
module ProgrammaticNikud {
  import opened Wrappers
  import opened PyStr
  import opened SegmentAccumulator

  const UNITS_MAP: map<string, int> := map[
    "אַחַת" := 1, "שְׁתַּיִם" := 2, "שָׁלוֹשׁ" := 3, "אַרְבַּע" := 4, "חָמֵשׁ" := 5,
    "שֵׁשׁ" := 6, "שֶׁבַע" := 7, "שְׁמוֹנֶה" := 8, "תֵּשַׁע" := 9, "אֶחָד" := 1,
    "שְׁנַיִם" := 2, "שְׁלוֹשָׁה" := 3, "אַרְבָּעָה" := 4, "חֲמִשָּׁה" := 5, "שִׁשָּׁה" := 6,
    "שִׁבְעָה" := 7, "שְׁמוֹנָה" := 8, "תִּשְׁעָה" := 9, "שְׁתֵּי" := 2, "שְׁנֵי" := 2,
    "שְׁלוֹשֶׁת" := 3, "אַרְבַּעַת" := 4, "חֲמֵשֶׁת" := 5, "שֵׁשֶׁת" := 6, "שִׁבְעַת" := 7,
    "שְׁמוֹנַת" := 8, "תִּשְׁעַת" := 9, "שְׁתֵּים" := 2, "שְׁנֵים" := 2
  ]

  const TENS_MAP: map<string, int> := map[
    "עֶשֶׂר" := 10, "עֲשָׂרָה" := 10, "עֶשְׂרִים" := 20, "שְׁלוֹשִׁים" := 30, "אַרְבָּעִים" := 40,
    "חֲמִשִּׁים" := 50, "שִׁשִּׁים" := 60, "שִׁבְעִים" := 70, "שְׁמוֹנִים" := 80, "תִּשְׁעִים" := 90
  ]

  const HUNDREDS_MAP: map<string, int> := map[
    "מֵאָה" := 100, "מְאַת" := 100, "מָאתַיִם" := 200
  ]

  const THOUSANDS_MAP: map<string, int> := map[
    "אֶלֶף" := 1000, "אַלְפַּיִם" := 2000
  ]

  const TENTHOUSANDS_MAP: map<string, int> := map[
    "רְבָבָה" := 10000, "רִבּוֹא" := 10000
  ]

  const PLURAL_MAP: map<string, int> := map[
    "מֵאוֹת" := 100, "אֲלָפִים" := 1000, "רְבָבוֹת" := 10000
  ]

  const UNITS_AND_TENS_MAP := UNITS_MAP + TENS_MAP

  /** Python's `|`: on a shared key the right-hand map wins, as with Dafny's `+`. */
  const ALL_PLURAL_MAP := PLURAL_MAP + TENTHOUSANDS_MAP + THOUSANDS_MAP

  /** The year and month words, skipped while evaluating. */
  const SHANA_WORDS: set<string> := {"שָׁנָה", "שָׁנוֹת", "חוֹדֶשׁ", "חוֹדְשִׁים", "שָׁנִים"}

  const LEXICON := Lexicon(SHANA_WORDS, UNITS_AND_TENS_MAP, HUNDREDS_MAP, ALL_PLURAL_MAP)

  /** The keys of the three tables. */
  function NumberWords(lex: Lexicon): set<string> {
    lex.unitsAndTens.Keys + lex.hundreds.Keys + lex.allPlural.Keys
  }

  const ALL_NUMBER_WORDS := NumberWords(LEXICON)

  /** The conjugate prefixes, each a letter with its point. */
  datatype ConjugateLetter =
    | BetSheva | BetChirik | BetPatach
    | VavSheva | VavShuruk | VavChirik | VavKamatz
    | HeyPatach | HeyKamatz | HeySegol
    | MemChirik | MemSegol | MemShuruk
    | LamedSheva | LamedChirik | LamedPatach
    | KafSheva | KafChirik | KafPatach
  {
    function Value(): string {
      match this
      case BetSheva => "\U{05D1}\U{05BC}\U{05B0}"
      case BetChirik => "\U{05D1}\U{05BC}\U{05B4}"
      case BetPatach => "\U{05D1}\U{05BC}\U{05B7}"
      case VavSheva => "\U{05D5}\U{05B0}"
      case VavShuruk => "\U{05D5}\U{05BC}"
      case VavChirik => "\U{05D5}\U{05B4}"
      case VavKamatz => "\U{05D5}\U{05B8}"
      case HeyPatach => "\U{05D4}\U{05B7}"
      case HeyKamatz => "\U{05D4}\U{05B8}"
      case HeySegol => "\U{05D4}\U{05B6}"
      case MemChirik => "\U{05DE}\U{05B4}"
      case MemSegol => "\U{05DE}\U{05B6}"
      case MemShuruk => "\U{05DE}\U{05D5}\U{05BC}"
      case LamedSheva => "\U{05DC}\U{05B0}"
      case LamedChirik => "\U{05DC}\U{05B4}"
      case LamedPatach => "\U{05DC}\U{05B7}"
      case KafSheva => "\U{05DB}\U{05BC}\U{05B0}"
      case KafChirik => "\U{05DB}\U{05BC}\U{05B4}"
      case KafPatach => "\U{05DB}\U{05BC}\U{05B7}"
    }
  }

  /** The enumeration in declaration order, the order a default search tries. */
  const CONJUGATE_LETTERS: seq<ConjugateLetter> := [
    BetSheva, BetChirik, BetPatach,
    VavSheva, VavShuruk, VavChirik, VavKamatz,
    HeyPatach, HeyKamatz, HeySegol,
    MemChirik, MemSegol, MemShuruk,
    LamedSheva, LamedChirik, LamedPatach,
    KafSheva, KafChirik, KafPatach
  ]

  const VAV_ONLY: seq<ConjugateLetter> := [VavSheva, VavShuruk]

  /** `preprocess_token`: the first letter of `letters` whose value starts
      `token` is cut off and returned with the rest; with no such letter the
      token comes back whole. Exactly one prefix goes, never two. */
  function PreprocessToken(token: string, letters: seq<ConjugateLetter>): (r: (string, Option<ConjugateLetter>))
    ensures r.1.None? ==> r.0 == token && forall i :: 0 <= i < |letters| ==> !StartsWith(token, letters[i].Value())
    ensures r.1.Some? ==>
              exists i :: 0 <= i < |letters| && letters[i] == r.1.value
                          && token == letters[i].Value() + r.0
                          && forall j :: 0 <= j < i ==> !StartsWith(token, letters[j].Value())
  {
    if letters == [] then (token, None)
    else
      var v := letters[0].Value();
      if StartsWith(token, v) then
        assert token == v + token[|v|..];
        (token[|v|..], Some(letters[0]))
      else
        var r := PreprocessToken(token, letters[1..]);
        assert forall i :: 1 <= i < |letters| ==> letters[i] == letters[1..][i - 1];
        r
  }

  /** `tokenize`: whitespace splitting. */
  function Tokenize(phrase: string): seq<string> {
    Split(phrase)
  }

  /** The token a raw token is read as, and its conjugate letter: a listed
      number word is taken as it is; otherwise one prefix is stripped, a
      waw only when `total` is non-zero. */
  function Prepare(lex: Lexicon, raw: string, total: int): (string, Option<ConjugateLetter>) {
    if raw in NumberWords(lex) then (raw, None)
    else if total != 0 then PreprocessToken(raw, VAV_ONLY)
    else PreprocessToken(raw, CONJUGATE_LETTERS)
  }

  /** One token of the loop in `hebrew_num_to_int`; any conjugate letter
      counts as a conjunction. */
  function Step(lex: Lexicon, acc: Accumulator, raw: string, total: int): Accumulator {
    var p := Prepare(lex, raw, total);
    Dispatch(lex, acc, p.0, p.1.Some?)
  }

  /** The loop over a prefix of the tokens; `total` is 0 throughout. */
  function Run(lex: Lexicon, tokens: seq<string>): Accumulator
  {
    if tokens == [] then Initial else Step(lex, Run(lex, tokens[..|tokens| - 1]), tokens[|tokens| - 1], 0)
  }

  /** `hebrew_num_to_int` as a value: `total` (0) plus the final segment. */
  function Evaluate(phrase: string): int {
    0 + Run(LEXICON, Tokenize(phrase)).currentSegment
  }

  predicate PositiveMap(m: map<string, int>) {
    forall w :: w in m ==> m[w] > 0
  }

  lemma UnionPositive(a: map<string, int>, b: map<string, int>)
    requires PositiveMap(a) && PositiveMap(b)
    ensures PositiveMap(a + b)
  {
  }

  lemma UnitsPositive() ensures PositiveMap(UNITS_MAP) {}
  lemma TensPositive() ensures PositiveMap(TENS_MAP) {}
  lemma MultipliersPositive()
    ensures PositiveMap(HUNDREDS_MAP) && PositiveMap(PLURAL_MAP)
    ensures PositiveMap(TENTHOUSANDS_MAP) && PositiveMap(THOUSANDS_MAP)
  {
  }

  /** Every value in the tables is positive. */
  lemma LexiconPositive()
    ensures PositiveValues(LEXICON)
  {
    UnitsPositive();
    TensPositive();
    MultipliersPositive();
    UnionPositive(UNITS_MAP, TENS_MAP);
    UnionPositive(PLURAL_MAP, TENTHOUSANDS_MAP);
    UnionPositive(PLURAL_MAP + TENTHOUSANDS_MAP, THOUSANDS_MAP);
  }

  /** The accumulator stays consistent over any token sequence. */
  lemma {:induction false} RunConsistent(lex: Lexicon, tokens: seq<string>)
    requires PositiveValues(lex)
    ensures Consistent(Run(lex, tokens))
  {
    if tokens != [] {
      RunConsistent(lex, tokens[..|tokens| - 1]);
    }
  }

  /** Hence the value of every phrase is non-negative. */
  lemma EvaluateNonNegative(phrase: string)
    ensures Evaluate(phrase) >= 0
  {
    LexiconPositive();
    RunConsistent(LEXICON, Tokenize(phrase));
    SumNonNegative(Run(LEXICON, Tokenize(phrase)).segmentParts);
  }

  /** `hebrew_num_to_int`: split the phrase, run the branches over every
      token, and add the final segment to the total, which the loop never
      changes. The tables are those of `LEXICON`. */
  method HebrewNumToInt(phrase: string) returns (r: int)
    ensures r == Evaluate(phrase)
    ensures r >= 0
  {
    LexiconPositive();
    r := HebrewNumToIntWith(LEXICON, phrase);
  }

  /** One pass of the token loop: a listed number word is read as it is,
      any other token loses one prefix, then the token takes its branch. */
  method StepToken(lex: Lexicon, acc: Accumulator, raw: string, total: int) returns (r: Accumulator)
    ensures r == Step(lex, acc, raw, total)
    ensures PositiveValues(lex) && Consistent(acc) ==> Consistent(r)
  {
    var token := raw;
    var conjugateLetter: Option<ConjugateLetter>;
    if token in NumberWords(lex) {
      conjugateLetter := None;
    } else if total != 0 {
      var p := PreprocessToken(token, VAV_ONLY);
      token, conjugateLetter := p.0, p.1;
    } else {
      var p := PreprocessToken(token, CONJUGATE_LETTERS);
      token, conjugateLetter := p.0, p.1;
    }
    assert (token, conjugateLetter) == Prepare(lex, raw, total);
    r := DispatchToken(lex, acc, token, conjugateLetter.Some?);
  }

  /** The loop over one more token is one more step. */
  lemma RunPrefix(lex: Lexicon, tokens: seq<string>, i: nat)
    requires i < |tokens|
    ensures Run(lex, tokens[..i + 1]) == Step(lex, Run(lex, tokens[..i]), tokens[i], 0)
  {
    assert tokens[..i + 1][..i] == tokens[..i];
  }

  /** The loop of `hebrew_num_to_int` over given tables. */
  method HebrewNumToIntWith(lex: Lexicon, phrase: string) returns (r: int)
    requires PositiveValues(lex)
    ensures r == 0 + Run(lex, Tokenize(phrase)).currentSegment
    ensures r >= 0
  {
    var tokens := Tokenize(phrase);
    var total := 0;
    var acc := Initial;
    for i := 0 to |tokens|
      invariant total == 0
      invariant acc == Run(lex, tokens[..i])
      invariant Consistent(acc)
    {
      RunPrefix(lex, tokens, i);
      acc := StepToken(lex, acc, tokens[i], total);
    }
    assert tokens[..|tokens|] == tokens;
    SumNonNegative(acc.segmentParts);
    total := total + acc.currentSegment;
    return total;
  }

  /** The first letter of the list that starts the token is the one cut off. */
  lemma {:induction false} PreprocessFirstMatch(token: string, letters: seq<ConjugateLetter>, i: nat)
    requires i < |letters| && StartsWith(token, letters[i].Value())
    requires forall j :: 0 <= j < i ==> !StartsWith(token, letters[j].Value())
    ensures PreprocessToken(token, letters) == (token[|letters[i].Value()|..], Some(letters[i]))
    decreases i
  {
    if i > 0 {
      assert !StartsWith(token, letters[0].Value());
      assert forall j :: 0 <= j < i - 1 ==> letters[1..][j] == letters[j + 1];
      PreprocessFirstMatch(token, letters[1..], i - 1);
    }
  }

  /** The waw with sheva is the first listed prefix that "and seventy" starts with. */
  lemma StripAndSeventy(token: string)
    requires token == "וְשִׁבְעִים"
    ensures PreprocessToken(token, CONJUGATE_LETTERS) == ("שִׁבְעִים", Some(VavSheva))
  {
    var t := CONJUGATE_LETTERS;
    assert token[0] == 'ו';
    assert t[0].Value()[0] == 'ב' && t[1].Value()[0] == 'ב' && t[2].Value()[0] == 'ב';
    assert t[3] == VavSheva && token[..2] == VavSheva.Value();
    PreprocessFirstMatch(token, t, 3);
    assert token[2..] == "שִׁבְעִים";
  }

  // Lexicon facts about the words of the worked example, one table at a time.

  lemma FourIsUnit()
    ensures "אַרְבַּע" !in SHANA_WORDS && "אַרְבַּע" in UNITS_MAP && "אַרְבַּע" !in TENS_MAP
  {
  }

  lemma HundredsIsPlural()
    ensures "מֵאוֹת" !in SHANA_WORDS && "מֵאוֹת" !in UNITS_MAP && "מֵאוֹת" !in TENS_MAP
    ensures "מֵאוֹת" !in HUNDREDS_MAP && "מֵאוֹת" in PLURAL_MAP
    ensures "מֵאוֹת" !in TENTHOUSANDS_MAP && "מֵאוֹת" !in THOUSANDS_MAP
  {
  }

  lemma SeventyIsTen()
    ensures "שִׁבְעִים" !in SHANA_WORDS && "שִׁבְעִים" in TENS_MAP
  {
  }

  lemma AndSeventyUnlisted()
    ensures "וְשִׁבְעִים" !in UNITS_MAP && "וְשִׁבְעִים" !in TENS_MAP && "וְשִׁבְעִים" !in HUNDREDS_MAP
    ensures "וְשִׁבְעִים" !in PLURAL_MAP && "וְשִׁבְעִים" !in TENTHOUSANDS_MAP && "וְשִׁבְעִים" !in THOUSANDS_MAP
  {
  }

  lemma StepFour()
    ensures Step(LEXICON, Initial, "אַרְבַּע", 0) == Accumulator(4, [4])
  {
    FourIsUnit();
  }

  lemma StepHundreds(acc: Accumulator)
    ensures Step(LEXICON, acc, "מֵאוֹת", 0) == MultiplyLast(acc, 100)
  {
    HundredsIsPlural();
  }

  lemma StepAndSeventy(acc: Accumulator)
    ensures Step(LEXICON, acc, "וְשִׁבְעִים", 0) == AppendPart(acc, 70)
  {
    AndSeventyUnlisted();
    StripAndSeventy("וְשִׁבְעִים");
    SeventyIsTen();
  }

  lemma RunThree(a: string, b: string, c: string)
    ensures Run(LEXICON, [a, b, c]) == Step(LEXICON, Step(LEXICON, Step(LEXICON, Initial, a, 0), b, 0), c, 0)
  {
    var ws := [a, b, c];
    assert ws[..2] == [a, b] && [a, b][..1] == [a] && [a][..0] == [];
    assert Run(LEXICON, [a]) == Step(LEXICON, Initial, a, 0);
    assert Run(LEXICON, [a, b]) == Step(LEXICON, Run(LEXICON, [a]), b, 0);
  }

  lemma SplitFourHundredSeventy(phrase: string)
    requires phrase == "אַרְבַּע מֵאוֹת וְשִׁבְעִים"
    ensures Tokenize(phrase) == ["אַרְבַּע", "מֵאוֹת", "וְשִׁבְעִים"]
  {
    var ws := ["אַרְבַּע", "מֵאוֹת", "וְשִׁבְעִים"];
    assert phrase == Join(" ", ws);
    SplitJoin(ws);
  }

  /** "four hundred and seventy", pointed: 4, times 100, and the waw with
      sheva makes 70 a new part. */
  lemma FourHundredSeventy(phrase: string)
    requires phrase == "אַרְבַּע מֵאוֹת וְשִׁבְעִים"
    ensures Evaluate(phrase) == 470
  {
    SplitFourHundredSeventy(phrase);
    RunThree("אַרְבַּע", "מֵאוֹת", "וְשִׁבְעִים");
    StepFour();
    StepHundreds(Accumulator(4, [4]));
    StepAndSeventy(Accumulator(400, [400]));
  }

  /** `iter_hebrew_numbers` as the set of words it yields: every listed word
      and, with the prefixes, the same word after a waw with sheva and after
      a shuruk. */
  function IterHebrewNumbers(words: set<string>, withHatayot: bool): set<string> {
    words +
    (if withHatayot
     then (set w | w in words :: VavSheva.Value() + w) + (set w | w in words :: VavShuruk.Value() + w)
     else {})
  }

  /** `is_word_in_hebrew_numbers` over a word list: the word is listed, or is
      a listed word after one of the two waw prefixes. */
  function IsWordIn(words: set<string>, word: string): (r: bool)
    ensures r <==>
              || word in words
              || (StartsWith(word, VavSheva.Value()) && word[|VavSheva.Value()|..] in words)
              || (StartsWith(word, VavShuruk.Value()) && word[|VavShuruk.Value()|..] in words)
  {
    var vs, vu := VavSheva.Value(), VavShuruk.Value();
    assert StartsWith(word, vs) ==> word == vs + word[|vs|..];
    assert StartsWith(word, vu) ==> word == vu + word[|vu|..];
    assert forall w :: word == vs + w ==> w == word[|vs|..];
    assert forall w :: word == vu + w ==> w == word[|vu|..];
    word in IterHebrewNumbers(words, true)
  }

  function IsWordInHebrewNumbers(word: string): bool {
    IsWordIn(ALL_NUMBER_WORDS, word)
  }

  /** Some piece is a number word. */
  function AnyNumberWord(words: set<string>, pieces: seq<string>): (r: bool)
    ensures r <==> exists i :: 0 <= i < |pieces| && IsWordIn(words, pieces[i])
  {
    if pieces == [] then false
    else IsWordIn(words, pieces[0]) || AnyNumberWord(words, pieces[1..])
  }

  /** `is_numbers_in_verse` over a word list: some piece of `verse.split(' ')`
      is a number word. */
  function IsNumbersInVerseOf(words: set<string>, verse: string): (r: bool)
    ensures r <==> exists p :: p in SplitOn(verse, ' ') && IsWordIn(words, p)
  {
    var pieces := SplitOn(verse, ' ');
    assert forall p :: p in pieces ==> exists i :: 0 <= i < |pieces| && pieces[i] == p;
    AnyNumberWord(words, pieces)
  }

  function IsNumbersInVerse(verse: string): bool {
    IsNumbersInVerseOf(ALL_NUMBER_WORDS, verse)
  }

  /** A verse that is a listed word with the waw-sheva prefix mentions a number. */
  lemma VavShevaWordRecognised(words: set<string>, w: string)
    requires w in words
    requires ' ' !in w
    ensures IsNumbersInVerseOf(words, VavSheva.Value() + w)
  {
    var v := VavSheva.Value() + w;
    assert ' ' !in v;
    SplitOnWithout(v, ' ');
    assert v[|VavSheva.Value()|..] == w;
  }

  // ----- Phrase extraction -----

  const EXCEPTIONS: seq<string> := ["האחת"]

  const EXCEPTION_BECAUSE_OF_PREVIOUS_WORD: seq<(string, string)> := [
    ("בְּאֵר", "שֶׁבַע"),
    ("קִרְיַת", "אַרְבַּע"),
    ("בִּגְדֵי", "שֵׁשׁ"),
    ("יְמֵי", "שֵׁנִי"),
    ("תוֹלַעַת", "שָׁנִי"),
    ("שָׁנִי", "וְשֵׁשׁ")
  ]

  const EXCEPTIONS_BECAUSE_OF_NEXT_WORD: seq<(string, string)> := [
    ("שְׁנֵי", "חַיֵי"),
    ("שְׁנֵי", "חַיֶּיךָ"),
    ("שְׁנֵי", "חַיָּיו")
  ]

  const UNALLOWED_PHRASES: seq<string> := []

  /** The tables the extractor consults. */
  datatype ExtractTables = ExtractTables(
    numberWords: set<string>,
    shanaWords: set<string>,
    letters: seq<ConjugateLetter>,
    exceptions: seq<string>,
    previousWord: seq<(string, string)>,
    nextWord: seq<(string, string)>,
    unallowed: seq<string>)

  const TABLES := ExtractTables(
    ALL_NUMBER_WORDS, SHANA_WORDS, CONJUGATE_LETTERS, EXCEPTIONS,
    EXCEPTION_BECAUSE_OF_PREVIOUS_WORD, EXCEPTIONS_BECAUSE_OF_NEXT_WORD, UNALLOWED_PHRASES)

  /** The token a raw token is read as: itself when listed, else with one
      prefix stripped. */
  function TokenOf(tab: ExtractTables, raw: string): string {
    if raw in tab.numberWords then raw else PreprocessToken(raw, tab.letters).0
  }

  /** The raw token, or what it strips to, is a number word. */
  predicate IsNumberToken(tab: ExtractTables, raw: string) {
    TokenOf(tab, raw) in tab.numberWords || raw in tab.numberWords
  }

  /** A year or month word that is not also a number word. */
  predicate IsYearToken(tab: ExtractTables, raw: string) {
    !IsNumberToken(tab, raw) && TokenOf(tab, raw) in tab.shanaWords
  }

  /** Token `j` is a number word. */
  predicate NumberAt(tab: ExtractTables, tokens: seq<string>, j: nat)
    requires j < |tokens|
  {
    IsNumberToken(tab, tokens[j])
  }

  /** Token `j` is a year or month word. */
  predicate YearAt(tab: ExtractTables, tokens: seq<string>, j: nat)
    requires j < |tokens|
  {
    IsYearToken(tab, tokens[j])
  }

  /** Token `j` is a number word equal to the raw token before it. */
  predicate RepeatsPrev(tab: ExtractTables, tokens: seq<string>, j: nat)
    requires 0 < j < |tokens|
  {
    NumberAt(tab, tokens, j) && tokens[j - 1] == tokens[j]
  }

  function PrevRaw(tokens: seq<string>, i: nat): Option<string>
    requires i <= |tokens|
  {
    if i == 0 then None else Some(tokens[i - 1])
  }

  function PrevToken(tab: ExtractTables, tokens: seq<string>, i: nat): Option<string>
    requires i <= |tokens|
  {
    if i == 0 then None else Some(TokenOf(tab, tokens[i - 1]))
  }

  function NextRaw(tokens: seq<string>, i: nat): Option<string>
    requires i < |tokens|
  {
    if i + 1 < |tokens| then Some(tokens[i + 1]) else None
  }

  /** Python's `(a, b) in pairs` where `None` matches no pair. */
  predicate PairIn(a: Option<string>, b: Option<string>, pairs: seq<(string, string)>) {
    a.Some? && b.Some? && (a.value, b.value) in pairs
  }

  /** Token `i` is an exception, or forms an exception pair with the word
      before it (raw or stripped) or with the word after it. */
  predicate Blocked(tab: ExtractTables, tokens: seq<string>, i: nat)
    requires i < |tokens|
  {
    var raw := tokens[i];
    || raw in tab.exceptions
    || PairIn(PrevToken(tab, tokens, i), Some(raw), tab.previousWord)
    || PairIn(PrevRaw(tokens, i), Some(raw), tab.previousWord)
    || PairIn(Some(raw), NextRaw(tokens, i), tab.nextWord)
  }

  /** The look-ahead: some later token strips to a year or month word. */
  function AnyStripsToYear(tab: ExtractTables, rest: seq<string>): (r: bool)
    ensures r <==> exists k :: 0 <= k < |rest| && PreprocessToken(rest[k], tab.letters).0 in tab.shanaWords
  {
    if rest == [] then false
    else PreprocessToken(rest[0], tab.letters).0 in tab.shanaWords || AnyStripsToYear(tab, rest[1..])
  }

  /** Token `i` is a year word with no year word after it anywhere in the
      verse: it closes its phrase. */
  predicate ClosesAt(tab: ExtractTables, tokens: seq<string>, i: nat)
    requires i < |tokens|
  {
    YearAt(tab, tokens, i) && !AnyStripsToYear(tab, tokens[i + 1..])
  }

  /** No token of `tokens[a..b]` is blocked. */
  predicate NoneBlocked(tab: ExtractTables, tokens: seq<string>, a: nat, b: nat)
    requires b <= |tokens|
  {
    forall j :: a <= j < b ==> !Blocked(tab, tokens, j)
  }

  /** Every token of `tokens[a..b]` is a number or year word. */
  predicate AllNumberOrYear(tab: ExtractTables, tokens: seq<string>, a: nat, b: nat)
    requires b <= |tokens|
  {
    forall j :: a <= j < b ==> NumberAt(tab, tokens, j) || YearAt(tab, tokens, j)
  }

  /** No number word after `a` repeats the token before it. */
  predicate NoRepeat(tab: ExtractTables, tokens: seq<string>, a: nat, b: nat)
    requires b <= |tokens|
  {
    forall j :: a < j < b ==> !RepeatsPrev(tab, tokens, j)
  }

  /** No token of `tokens[a..b]` closes a phrase. */
  predicate NoneCloses(tab: ExtractTables, tokens: seq<string>, a: nat, b: nat)
    requires b <= |tokens|
  {
    forall j :: a <= j < b ==> !ClosesAt(tab, tokens, j)
  }

  /** What a phrase `tokens[a..b]` looks like: it starts with a number word;
      none of its tokens is blocked; each is a number or year word; no number
      word repeats the token before it; and only its last token may be a
      closing year word. */
  predicate GoodSpan(tab: ExtractTables, tokens: seq<string>, a: nat, b: nat) {
    && a < b <= |tokens|
    && NumberAt(tab, tokens, a)
    && NoneBlocked(tab, tokens, a, b)
    && AllNumberOrYear(tab, tokens, a, b)
    && NoRepeat(tab, tokens, a, b)
    && NoneCloses(tab, tokens, a, b - 1)
  }

  /** Why a phrase ending before token `e` ends there: the verse ends, or
      token `e` could not join it. It is blocked, it is neither a number nor
      a year word, it is a number word repeating the token before it, or the
      token before it was a closing year word. */
  predicate EndsAt(tab: ExtractTables, tokens: seq<string>, e: nat)
    requires 0 < e <= |tokens|
  {
    || e == |tokens|
    || Blocked(tab, tokens, e)
    || !(NumberAt(tab, tokens, e) || YearAt(tab, tokens, e))
    || RepeatsPrev(tab, tokens, e)
    || ClosesAt(tab, tokens, e - 1)
  }

  /** Every phrase is the space-joined run of tokens of its span, the span
      is a good one that ends only where the next token cannot join it, and
      the spans are in order without overlap. */
  predicate SpansFit(tab: ExtractTables, tokens: seq<string>, phrases: seq<string>, spans: seq<(nat, nat)>) {
    && |spans| == |phrases|
    && (forall k :: 0 <= k < |spans| ==>
          && GoodSpan(tab, tokens, spans[k].0, spans[k].1)
          && EndsAt(tab, tokens, spans[k].1)
          && phrases[k] == Join(" ", tokens[spans[k].0..spans[k].1])
          && phrases[k] !in tab.unallowed)
    && (forall k :: 0 <= k < |spans| - 1 ==> spans[k].1 <= spans[k + 1].0)
  }

  predicate Covered(spans: seq<(nat, nat)>, j: nat) {
    exists k :: 0 <= k < |spans| && spans[k].0 <= j < spans[k].1
  }

  /** `terminate_phrase` on the phrase list: an open phrase is joined with
      spaces and kept unless it is disallowed. */
  function TerminatePhrase(tab: ExtractTables, phrases: seq<string>, current: seq<string>): (r: seq<string>)
    ensures current == [] ==> r == phrases
    ensures current != [] ==> r == phrases || r == phrases + [Join(" ", current)]
    ensures r == phrases + [Join(" ", current)] <==> current != [] && Join(" ", current) !in tab.unallowed
  {
    if current != [] && Join(" ", current) !in tab.unallowed then phrases + [Join(" ", current)] else phrases
  }

  /** Where the phrase kept by `TerminatePhrase` came from. */
  ghost function TerminateSpans(tab: ExtractTables, spans: seq<(nat, nat)>, current: seq<string>, openedAt: nat, end: nat): seq<(nat, nat)> {
    if current != [] && Join(" ", current) !in tab.unallowed then spans + [(openedAt, end)] else spans
  }

  /** The last span ends at or before `bound`. */
  predicate EndsBy(spans: seq<(nat, nat)>, bound: nat) {
    spans == [] || spans[|spans| - 1].1 <= bound
  }

  /** The open phrase is `tokens[openedAt..i]`, a good span that does not
      yet close, after every recorded span. */
  predicate OpenAt(tab: ExtractTables, tokens: seq<string>, i: nat, spans: seq<(nat, nat)>, current: seq<string>, openedAt: nat) {
    && openedAt < i <= |tokens|
    && current == tokens[openedAt..i]
    && GoodSpan(tab, tokens, openedAt, i)
    && !ClosesAt(tab, tokens, i - 1)
    && EndsBy(spans, openedAt)
  }

  /** The state of the extraction loop before token `i`. */
  ghost predicate Invariant(tab: ExtractTables, tokens: seq<string>, i: nat, phrases: seq<string>,
                            spans: seq<(nat, nat)>, current: seq<string>, openedAt: nat) {
    && i <= |tokens|
    && SpansFit(tab, tokens, phrases, spans)
    && (current == [] ==> EndsBy(spans, i))
    && (current != [] ==> OpenAt(tab, tokens, i, spans, current, openedAt))
    && NumbersCovered(tab, tokens, i, spans, current, openedAt)
  }

  /** Every number word before `i` that is not blocked lies in a recorded
      span or in the open phrase (when no phrase is disallowed). */
  predicate NumbersCovered(tab: ExtractTables, tokens: seq<string>, i: nat,
                           spans: seq<(nat, nat)>, current: seq<string>, openedAt: nat)
    requires i <= |tokens|
  {
    tab.unallowed == [] ==>
      forall j :: 0 <= j < i && NumberAt(tab, tokens, j) && !Blocked(tab, tokens, j) ==>
                    Covered(spans, j) || (current != [] && openedAt <= j)
  }

  /** The coverage condition carried past token `i`: what was covered stays
      covered, the old open phrase is now recorded or still open, and token
      `i`, when it counts, is covered too. */
  lemma CoverageCarried(tab: ExtractTables, tokens: seq<string>, i: nat,
                        spans: seq<(nat, nat)>, current: seq<string>, openedAt: nat,
                        spans': seq<(nat, nat)>, current': seq<string>, openedAt': nat)
    requires i < |tokens|
    requires NumbersCovered(tab, tokens, i, spans, current, openedAt)
    requires forall j :: Covered(spans, j) ==> Covered(spans', j)
    requires tab.unallowed == [] && current != [] ==>
               (current' != [] && openedAt' <= openedAt) || forall j :: openedAt <= j < i ==> Covered(spans', j)
    requires tab.unallowed == [] && NumberAt(tab, tokens, i) && !Blocked(tab, tokens, i) ==>
               current' != [] && openedAt' <= i
    ensures NumbersCovered(tab, tokens, i + 1, spans', current', openedAt')
  {
    if tab.unallowed == [] {
      forall j | 0 <= j < i + 1 && NumberAt(tab, tokens, j) && !Blocked(tab, tokens, j)
        ensures Covered(spans', j) || (current' != [] && openedAt' <= j)
      {
        if j < i {
          assert Covered(spans, j) || (current != [] && openedAt <= j);
        }
      }
    }
  }

  /** Recording one more good span after the others keeps the spans fitting. */
  lemma SpansFitAppend(tab: ExtractTables, tokens: seq<string>, phrases: seq<string>,
                       spans: seq<(nat, nat)>, a: nat, b: nat)
    requires SpansFit(tab, tokens, phrases, spans)
    requires GoodSpan(tab, tokens, a, b) && EndsAt(tab, tokens, b) && EndsBy(spans, a)
    requires Join(" ", tokens[a..b]) !in tab.unallowed
    ensures SpansFit(tab, tokens, phrases + [Join(" ", tokens[a..b])], spans + [(a, b)])
  {
    var p, s := phrases + [Join(" ", tokens[a..b])], spans + [(a, b)];
    forall k | 0 <= k < |s|
      ensures GoodSpan(tab, tokens, s[k].0, s[k].1) && EndsAt(tab, tokens, s[k].1)
      ensures p[k] == Join(" ", tokens[s[k].0..s[k].1]) && p[k] !in tab.unallowed
    {
      if k < |spans| {
        assert s[k] == spans[k] && p[k] == phrases[k];
      }
    }
    forall k | 0 <= k < |s| - 1 ensures s[k].1 <= s[k + 1].0 {
      if k < |spans| - 1 {
        assert s[k] == spans[k] && s[k + 1] == spans[k + 1];
      }
    }
  }

  /** Recording a span loses no covered token and covers the span's own. */
  lemma CoveredAppend(spans: seq<(nat, nat)>, a: nat, b: nat)
    ensures forall j :: Covered(spans, j) ==> Covered(spans + [(a, b)], j)
    ensures forall j :: a <= j < b ==> Covered(spans + [(a, b)], j)
  {
    var s := spans + [(a, b)];
    forall j | Covered(spans, j) ensures Covered(s, j) {
      var k :| 0 <= k < |spans| && spans[k].0 <= j < spans[k].1;
      assert s[k] == spans[k];
    }
    forall j | a <= j < b ensures Covered(s, j) {
      assert s[|spans|] == (a, b);
    }
  }

  /** Closing the open phrase at `end` keeps the recorded spans fitting,
      loses no covered token, and covers the tokens of the closed phrase. */
  lemma CloseKeeps(tab: ExtractTables, tokens: seq<string>, end: nat, phrases: seq<string>,
                   spans: seq<(nat, nat)>, current: seq<string>, openedAt: nat)
    requires end <= |tokens|
    requires SpansFit(tab, tokens, phrases, spans)
    requires current == [] ==> EndsBy(spans, end)
    requires current != [] ==>
               && openedAt < end && current == tokens[openedAt..end]
               && GoodSpan(tab, tokens, openedAt, end) && EndsAt(tab, tokens, end) && EndsBy(spans, openedAt)
    ensures var p, s := TerminatePhrase(tab, phrases, current), TerminateSpans(tab, spans, current, openedAt, end);
            && SpansFit(tab, tokens, p, s)
            && EndsBy(s, end)
            && (forall j :: Covered(spans, j) ==> Covered(s, j))
            && (tab.unallowed == [] && current != [] ==> forall j :: openedAt <= j < end ==> Covered(s, j))
  {
    if current != [] && Join(" ", current) !in tab.unallowed {
      SpansFitAppend(tab, tokens, phrases, spans, openedAt, end);
      CoveredAppend(spans, openedAt, end);
    }
  }

  /** The four conditions a span must meet, each extended by one token. */
  lemma ExtendUnblocked(tab: ExtractTables, tokens: seq<string>, a: nat, i: nat)
    requires a <= i < |tokens|
    requires NoneBlocked(tab, tokens, a, i) && !Blocked(tab, tokens, i)
    ensures NoneBlocked(tab, tokens, a, i + 1)
  {
  }

  lemma ExtendKinds(tab: ExtractTables, tokens: seq<string>, a: nat, i: nat)
    requires a <= i < |tokens|
    requires AllNumberOrYear(tab, tokens, a, i)
    requires NumberAt(tab, tokens, i) || YearAt(tab, tokens, i)
    ensures AllNumberOrYear(tab, tokens, a, i + 1)
  {
  }

  lemma ExtendNoRepeat(tab: ExtractTables, tokens: seq<string>, a: nat, i: nat)
    requires a <= i < |tokens|
    requires NoRepeat(tab, tokens, a, i)
    requires a < i && NumberAt(tab, tokens, i) ==> tokens[i - 1] != tokens[i]
    ensures NoRepeat(tab, tokens, a, i + 1)
  {
  }

  lemma ExtendNoClose(tab: ExtractTables, tokens: seq<string>, a: nat, i: nat)
    requires 0 < i <= |tokens|
    requires NoneCloses(tab, tokens, a, i - 1) && !ClosesAt(tab, tokens, i - 1)
    ensures NoneCloses(tab, tokens, a, i)
  {
  }

  /** A number word on its own is a good span. */
  lemma StartSpan(tab: ExtractTables, tokens: seq<string>, i: nat)
    requires i < |tokens| && NumberAt(tab, tokens, i) && !Blocked(tab, tokens, i)
    ensures [] + [tokens[i]] == tokens[i..i + 1]
    ensures GoodSpan(tab, tokens, i, i + 1)
  {
    assert NoneBlocked(tab, tokens, i, i + 1);
    assert AllNumberOrYear(tab, tokens, i, i + 1);
  }

  /** A token that may go there extends the open phrase to a good span. */
  lemma ExtendSpan(tab: ExtractTables, tokens: seq<string>, i: nat, spans: seq<(nat, nat)>,
                   current: seq<string>, openedAt: nat)
    requires i < |tokens|
    requires OpenAt(tab, tokens, i, spans, current, openedAt)
    requires !Blocked(tab, tokens, i)
    requires NumberAt(tab, tokens, i) || YearAt(tab, tokens, i)
    requires NumberAt(tab, tokens, i) ==> tokens[i - 1] != tokens[i]
    ensures current + [tokens[i]] == tokens[openedAt..i + 1]
    ensures GoodSpan(tab, tokens, openedAt, i + 1)
  {
    assert tokens[openedAt..i + 1] == tokens[openedAt..i] + [tokens[i]];
    assert GoodSpan(tab, tokens, openedAt, i);
    ExtendNoClose(tab, tokens, openedAt, i);
    ExtendUnblocked(tab, tokens, openedAt, i);
    ExtendKinds(tab, tokens, openedAt, i);
    ExtendNoRepeat(tab, tokens, openedAt, i);
  }

  /** Appending token `i` to the (possibly empty) open phrase gives a good
      span when the token may go there. */
  lemma ExtendKeeps(tab: ExtractTables, tokens: seq<string>, i: nat, spans: seq<(nat, nat)>,
                    current: seq<string>, openedAt: nat)
    requires i < |tokens|
    requires current == [] ==> openedAt == i && NumberAt(tab, tokens, i)
    requires current != [] ==> OpenAt(tab, tokens, i, spans, current, openedAt)
    requires !Blocked(tab, tokens, i)
    requires NumberAt(tab, tokens, i) || YearAt(tab, tokens, i)
    requires current != [] && NumberAt(tab, tokens, i) ==> tokens[i - 1] != tokens[i]
    ensures openedAt < i + 1 && current + [tokens[i]] == tokens[openedAt..i + 1]
    ensures GoodSpan(tab, tokens, openedAt, i + 1)
  {
    if current == [] {
      StartSpan(tab, tokens, i);
    } else {
      ExtendSpan(tab, tokens, i, spans, current, openedAt);
    }
  }

  /** A token that closes the open phrase without joining it: an exception,
      or a token that is not a number word and not a year word extending an
      open phrase. */
  lemma CloseStep(tab: ExtractTables, tokens: seq<string>, i: nat, phrases: seq<string>,
                  spans: seq<(nat, nat)>, current: seq<string>, openedAt: nat)
    requires i < |tokens|
    requires Invariant(tab, tokens, i, phrases, spans, current, openedAt)
    requires Blocked(tab, tokens, i) || (!NumberAt(tab, tokens, i) && (current != [] ==> !YearAt(tab, tokens, i)))
    ensures Invariant(tab, tokens, i + 1, TerminatePhrase(tab, phrases, current),
                      TerminateSpans(tab, spans, current, openedAt, i), [], openedAt)
  {
    var p, s := TerminatePhrase(tab, phrases, current), TerminateSpans(tab, spans, current, openedAt, i);
    CloseKeeps(tab, tokens, i, phrases, spans, current, openedAt);
    CoverageCarried(tab, tokens, i, spans, current, openedAt, s, [], openedAt);
  }

  /** A number word that repeats the token before it closes the open
      phrase and opens a new one. */
  lemma NumberAfterDuplicate(tab: ExtractTables, tokens: seq<string>, i: nat, phrases: seq<string>,
                             spans: seq<(nat, nat)>, current: seq<string>, openedAt: nat)
    requires i < |tokens|
    requires Invariant(tab, tokens, i, phrases, spans, current, openedAt)
    requires NumberAt(tab, tokens, i) && !Blocked(tab, tokens, i)
    requires PrevRaw(tokens, i) == Some(tokens[i])
    ensures Invariant(tab, tokens, i + 1, TerminatePhrase(tab, phrases, current),
                      TerminateSpans(tab, spans, current, openedAt, i), [] + [tokens[i]], i)
  {
    var p, s := TerminatePhrase(tab, phrases, current), TerminateSpans(tab, spans, current, openedAt, i);
    CloseKeeps(tab, tokens, i, phrases, spans, current, openedAt);
    ExtendKeeps(tab, tokens, i, s, [], i);
    assert !ClosesAt(tab, tokens, i);
    assert OpenAt(tab, tokens, i + 1, s, [] + [tokens[i]], i);
    CoverageCarried(tab, tokens, i, spans, current, openedAt, s, [] + [tokens[i]], i);
  }

  /** Any other number word joins the open phrase, or opens one. */
  lemma NumberJoins(tab: ExtractTables, tokens: seq<string>, i: nat, phrases: seq<string>,
                    spans: seq<(nat, nat)>, current: seq<string>, openedAt: nat)
    requires i < |tokens|
    requires Invariant(tab, tokens, i, phrases, spans, current, openedAt)
    requires NumberAt(tab, tokens, i) && !Blocked(tab, tokens, i)
    requires PrevRaw(tokens, i) != Some(tokens[i])
    ensures Invariant(tab, tokens, i + 1, phrases, spans, current + [tokens[i]],
                      if current == [] then i else openedAt)
  {
    var o := if current == [] then i else openedAt;
    ExtendKeeps(tab, tokens, i, spans, current, o);
    assert !ClosesAt(tab, tokens, i);
    assert OpenAt(tab, tokens, i + 1, spans, current + [tokens[i]], o);
    CoverageCarried(tab, tokens, i, spans, current, openedAt, spans, current + [tokens[i]], o);
  }

  /** A year word with another year word later in the verse joins the open
      phrase and leaves it open. */
  lemma YearKeepsOpen(tab: ExtractTables, tokens: seq<string>, i: nat, phrases: seq<string>,
                      spans: seq<(nat, nat)>, current: seq<string>, openedAt: nat)
    requires i < |tokens|
    requires Invariant(tab, tokens, i, phrases, spans, current, openedAt)
    requires current != [] && YearAt(tab, tokens, i) && !Blocked(tab, tokens, i)
    requires AnyStripsToYear(tab, tokens[i + 1..])
    ensures Invariant(tab, tokens, i + 1, phrases, spans, current + [tokens[i]], openedAt)
  {
    ExtendKeeps(tab, tokens, i, spans, current, openedAt);
    assert OpenAt(tab, tokens, i + 1, spans, current + [tokens[i]], openedAt);
    CoverageCarried(tab, tokens, i, spans, current, openedAt, spans, current + [tokens[i]], openedAt);
  }

  /** Closing a phrase loses no covered token and covers the closed phrase's own. */
  lemma TerminateCovers(tab: ExtractTables, spans: seq<(nat, nat)>, current: seq<string>, openedAt: nat, end: nat)
    ensures forall j :: Covered(spans, j) ==> Covered(TerminateSpans(tab, spans, current, openedAt, end), j)
    ensures tab.unallowed == [] && current != [] ==>
              forall j :: openedAt <= j < end ==> Covered(TerminateSpans(tab, spans, current, openedAt, end), j)
  {
    if current != [] && Join(" ", current) !in tab.unallowed {
      CoveredAppend(spans, openedAt, end);
    }
  }

  /** The phrase a closing year word ends is recorded in place. */
  lemma YearClosesSpans(tab: ExtractTables, tokens: seq<string>, i: nat, phrases: seq<string>,
                        spans: seq<(nat, nat)>, current: seq<string>, openedAt: nat)
    requires i < |tokens| && SpansFit(tab, tokens, phrases, spans)
    requires current != [] && OpenAt(tab, tokens, i, spans, current, openedAt)
    requires YearAt(tab, tokens, i) && !Blocked(tab, tokens, i)
    requires !AnyStripsToYear(tab, tokens[i + 1..])
    ensures var c := current + [tokens[i]];
            && SpansFit(tab, tokens, TerminatePhrase(tab, phrases, c), TerminateSpans(tab, spans, c, openedAt, i + 1))
            && EndsBy(TerminateSpans(tab, spans, c, openedAt, i + 1), i + 1)
  {
    var c := current + [tokens[i]];
    ExtendByYear(tab, tokens, i, spans, current, openedAt);
    YearEndsPhrase(tab, tokens, i);
    CloseOpenKeeps(tab, tokens, i + 1, phrases, spans, c, openedAt);
  }

  /** Closing a non-empty phrase that ends at `end` keeps the spans fitting. */
  lemma CloseOpenKeeps(tab: ExtractTables, tokens: seq<string>, end: nat, phrases: seq<string>,
                       spans: seq<(nat, nat)>, current: seq<string>, openedAt: nat)
    requires end <= |tokens| && SpansFit(tab, tokens, phrases, spans)
    requires current != [] && openedAt < end && current == tokens[openedAt..end]
    requires GoodSpan(tab, tokens, openedAt, end) && EndsAt(tab, tokens, end) && EndsBy(spans, openedAt)
    ensures && SpansFit(tab, tokens, TerminatePhrase(tab, phrases, current), TerminateSpans(tab, spans, current, openedAt, end))
            && EndsBy(TerminateSpans(tab, spans, current, openedAt, end), end)
  {
    CloseKeeps(tab, tokens, end, phrases, spans, current, openedAt);
  }

  /** A year word with no later year word ends the phrase it joins. */
  lemma YearEndsPhrase(tab: ExtractTables, tokens: seq<string>, i: nat)
    requires i < |tokens| && YearAt(tab, tokens, i)
    requires !AnyStripsToYear(tab, tokens[i + 1..])
    ensures EndsAt(tab, tokens, i + 1)
  {
    assert ClosesAt(tab, tokens, i);
  }

  /** A year word extends the open phrase to a good span after the recorded ones. */
  lemma ExtendByYear(tab: ExtractTables, tokens: seq<string>, i: nat,
                     spans: seq<(nat, nat)>, current: seq<string>, openedAt: nat)
    requires i < |tokens|
    requires current != [] && OpenAt(tab, tokens, i, spans, current, openedAt)
    requires YearAt(tab, tokens, i) && !Blocked(tab, tokens, i)
    ensures var c := current + [tokens[i]];
            && c != []
            && openedAt < i + 1 && c == tokens[openedAt..i + 1]
            && GoodSpan(tab, tokens, openedAt, i + 1) && EndsBy(spans, openedAt)
  {
    assert !NumberAt(tab, tokens, i);
    ExtendKeeps(tab, tokens, i, spans, current, openedAt);
  }

  /** Closing on a year word leaves every number word so far covered. */
  lemma YearClosesCovered(tab: ExtractTables, tokens: seq<string>, i: nat,
                          spans: seq<(nat, nat)>, current: seq<string>, openedAt: nat)
    requires i < |tokens| && NumbersCovered(tab, tokens, i, spans, current, openedAt)
    requires current != [] && YearAt(tab, tokens, i)
    ensures var c := current + [tokens[i]];
            NumbersCovered(tab, tokens, i + 1, TerminateSpans(tab, spans, c, openedAt, i + 1), [], openedAt)
  {
    var c := current + [tokens[i]];
    assert c != [];
    TerminateCovers(tab, spans, c, openedAt, i + 1);
    CoveredAfterYear(tab, tokens, i, spans, current, openedAt, TerminateSpans(tab, spans, c, openedAt, i + 1));
  }

  /** What a closing year word needs for the coverage condition: the old
      spans stay covered and the closed phrase, token `i` included, is too. */
  lemma CoveredAfterYear(tab: ExtractTables, tokens: seq<string>, i: nat,
                         spans: seq<(nat, nat)>, current: seq<string>, openedAt: nat, spans': seq<(nat, nat)>)
    requires i < |tokens| && NumbersCovered(tab, tokens, i, spans, current, openedAt)
    requires current != [] && YearAt(tab, tokens, i)
    requires forall j :: Covered(spans, j) ==> Covered(spans', j)
    requires tab.unallowed == [] && current + [tokens[i]] != [] ==> forall j :: openedAt <= j < i + 1 ==> Covered(spans', j)
    ensures NumbersCovered(tab, tokens, i + 1, spans', [], openedAt)
  {
    if tab.unallowed == [] {
      forall j | 0 <= j < i + 1 && NumberAt(tab, tokens, j) && !Blocked(tab, tokens, j)
        ensures Covered(spans', j)
      {
        if j < i {
          assert Covered(spans, j) || (current != [] && openedAt <= j);
        }
      }
    }
  }

  /** A year word with no year word after it joins the open phrase and
      closes it. */
  lemma YearCloses(tab: ExtractTables, tokens: seq<string>, i: nat, phrases: seq<string>,
                   spans: seq<(nat, nat)>, current: seq<string>, openedAt: nat)
    requires i < |tokens|
    requires Invariant(tab, tokens, i, phrases, spans, current, openedAt)
    requires current != [] && YearAt(tab, tokens, i) && !Blocked(tab, tokens, i)
    requires !AnyStripsToYear(tab, tokens[i + 1..])
    ensures var c := current + [tokens[i]];
            Invariant(tab, tokens, i + 1, TerminatePhrase(tab, phrases, c),
                      TerminateSpans(tab, spans, c, openedAt, i + 1), [], openedAt)
  {
    YearClosesSpans(tab, tokens, i, phrases, spans, current, openedAt);
    YearClosesCovered(tab, tokens, i, spans, current, openedAt);
  }

  /** A year word joins the open phrase, which it closes unless a year word
      follows later in the verse. */
  lemma YearStep(tab: ExtractTables, tokens: seq<string>, i: nat, phrases: seq<string>,
                 spans: seq<(nat, nat)>, current: seq<string>, openedAt: nat)
    requires i < |tokens|
    requires Invariant(tab, tokens, i, phrases, spans, current, openedAt)
    requires current != [] && YearAt(tab, tokens, i) && !Blocked(tab, tokens, i)
    ensures var c := current + [tokens[i]];
            if AnyStripsToYear(tab, tokens[i + 1..]) then Invariant(tab, tokens, i + 1, phrases, spans, c, openedAt)
            else Invariant(tab, tokens, i + 1, TerminatePhrase(tab, phrases, c),
                           TerminateSpans(tab, spans, c, openedAt, i + 1), [], openedAt)
  {
    if AnyStripsToYear(tab, tokens[i + 1..]) {
      YearKeepsOpen(tab, tokens, i, phrases, spans, current, openedAt);
    } else {
      YearCloses(tab, tokens, i, phrases, spans, current, openedAt);
    }
  }

  /** A blocked token lies in no recorded span: good spans hold none. */
  lemma BlockedUncovered(tab: ExtractTables, tokens: seq<string>, phrases: seq<string>, spans: seq<(nat, nat)>)
    requires SpansFit(tab, tokens, phrases, spans)
    ensures forall j :: 0 <= j < |tokens| && Blocked(tab, tokens, j) ==> !Covered(spans, j)
  {
    forall k | 0 <= k < |spans|
      ensures forall j :: spans[k].0 <= j < spans[k].1 ==> !Blocked(tab, tokens, j)
    {
      assert GoodSpan(tab, tokens, spans[k].0, spans[k].1);
      assert NoneBlocked(tab, tokens, spans[k].0, spans[k].1);
    }
  }

  /** One pass of the extraction loop, on token `i`: the exception test, then
      the number-word, year-word and other-token branches. It also returns
      the token as read, which becomes `prev_token`. */
  method ExtractStep(tab: ExtractTables, tokens: seq<string>, i: nat, phrases: seq<string>, ghost spans: seq<(nat, nat)>,
                     currentPhrase: seq<string>, ghost openedAt: nat, prevRawToken: Option<string>, prevToken: Option<string>)
    returns (phrases': seq<string>, ghost spans': seq<(nat, nat)>, currentPhrase': seq<string>, ghost openedAt': nat, token: string)
    requires i < |tokens|
    requires Invariant(tab, tokens, i, phrases, spans, currentPhrase, openedAt)
    requires prevRawToken == PrevRaw(tokens, i) && prevToken == PrevToken(tab, tokens, i)
    ensures Invariant(tab, tokens, i + 1, phrases', spans', currentPhrase', openedAt')
    ensures token == TokenOf(tab, tokens[i])
    ensures Blocked(tab, tokens, i) || (!NumberAt(tab, tokens, i) && !(YearAt(tab, tokens, i) && currentPhrase != [])) ==>
              phrases' == TerminatePhrase(tab, phrases, currentPhrase) && currentPhrase' == []
    ensures !Blocked(tab, tokens, i) && NumberAt(tab, tokens, i) ==>
              if PrevRaw(tokens, i) == Some(tokens[i])
              then phrases' == TerminatePhrase(tab, phrases, currentPhrase) && currentPhrase' == [tokens[i]]
              else phrases' == phrases && currentPhrase' == currentPhrase + [tokens[i]]
    ensures !Blocked(tab, tokens, i) && YearAt(tab, tokens, i) && currentPhrase != [] ==>
              if AnyStripsToYear(tab, tokens[i + 1..])
              then phrases' == phrases && currentPhrase' == currentPhrase + [tokens[i]]
              else phrases' == TerminatePhrase(tab, phrases, currentPhrase + [tokens[i]]) && currentPhrase' == []
  {
    var rawToken := tokens[i];
    if rawToken in tab.numberWords {
      token := rawToken;
    } else {
      token := PreprocessToken(rawToken, tab.letters).0;
    }
    var nextToken := if i + 1 < |tokens| then Some(tokens[i + 1]) else None;
    assert nextToken == NextRaw(tokens, i);
    openedAt' := openedAt;
    if rawToken in tab.exceptions
       || PairIn(prevToken, Some(rawToken), tab.previousWord)
       || PairIn(prevRawToken, Some(rawToken), tab.previousWord)
       || PairIn(Some(rawToken), nextToken, tab.nextWord)
    {
      CloseStep(tab, tokens, i, phrases, spans, currentPhrase, openedAt);
      phrases', spans' := TerminatePhrase(tab, phrases, currentPhrase), TerminateSpans(tab, spans, currentPhrase, openedAt, i);
      currentPhrase' := [];
    } else if token in tab.numberWords || rawToken in tab.numberWords {
      if prevRawToken == Some(rawToken) {
        NumberAfterDuplicate(tab, tokens, i, phrases, spans, currentPhrase, openedAt);
        phrases', spans' := TerminatePhrase(tab, phrases, currentPhrase), TerminateSpans(tab, spans, currentPhrase, openedAt, i);
        currentPhrase', openedAt' := [] + [rawToken], i;
      } else {
        NumberJoins(tab, tokens, i, phrases, spans, currentPhrase, openedAt);
        phrases', spans' := phrases, spans;
        if currentPhrase == [] {
          openedAt' := i;
        }
        currentPhrase' := currentPhrase + [rawToken];
      }
    } else if token in tab.shanaWords && currentPhrase != [] {
      YearStep(tab, tokens, i, phrases, spans, currentPhrase, openedAt);
      currentPhrase' := currentPhrase + [rawToken];
      var hasFollowingShana := AnyStripsToYear(tab, tokens[i + 1..]);
      if !hasFollowingShana {
        phrases', spans' := TerminatePhrase(tab, phrases, currentPhrase'), TerminateSpans(tab, spans, currentPhrase', openedAt, i + 1);
        currentPhrase' := [];
      } else {
        phrases', spans' := phrases, spans;
      }
    } else {
      CloseStep(tab, tokens, i, phrases, spans, currentPhrase, openedAt);
      phrases', spans' := TerminatePhrase(tab, phrases, currentPhrase), TerminateSpans(tab, spans, currentPhrase, openedAt, i);
      currentPhrase' := [];
    }
  }

  /** `extract_number_phrases` over given tables and tokens. Besides the
      phrases it returns, as ghost data, the token span of each. */
  method ExtractNumberPhrasesWith(tab: ExtractTables, tokens: seq<string>)
    returns (phrases: seq<string>, ghost spans: seq<(nat, nat)>)
    ensures SpansFit(tab, tokens, phrases, spans)
    ensures tab.unallowed == [] ==>
              forall j :: 0 <= j < |tokens| && NumberAt(tab, tokens, j) && !Blocked(tab, tokens, j) ==> Covered(spans, j)
    ensures forall j :: 0 <= j < |tokens| && Blocked(tab, tokens, j) ==> !Covered(spans, j)
  {
    phrases, spans := [], [];
    var currentPhrase: seq<string> := [];
    ghost var openedAt: nat := 0;
    var prevRawToken: Option<string> := None;
    var prevToken: Option<string> := None;
    for i := 0 to |tokens|
      invariant Invariant(tab, tokens, i, phrases, spans, currentPhrase, openedAt)
      invariant prevRawToken == PrevRaw(tokens, i) && prevToken == PrevToken(tab, tokens, i)
    {
      var token;
      phrases, spans, currentPhrase, openedAt, token :=
        ExtractStep(tab, tokens, i, phrases, spans, currentPhrase, openedAt, prevRawToken, prevToken);
      prevRawToken, prevToken := Some(tokens[i]), Some(token);
    }
    CloseKeeps(tab, tokens, |tokens|, phrases, spans, currentPhrase, openedAt);
    phrases, spans := TerminatePhrase(tab, phrases, currentPhrase), TerminateSpans(tab, spans, currentPhrase, openedAt, |tokens|);
    BlockedUncovered(tab, tokens, phrases, spans);
  }

  /** The words of a span, joined and split again, are the span. */
  lemma PhraseRetokenises(tokens: seq<string>, a: nat, b: nat)
    requires a < b <= |tokens|
    requires forall w :: w in tokens ==> IsWord(w)
    ensures Join(" ", tokens[a..b]) != []
    ensures Split(Join(" ", tokens[a..b])) == tokens[a..b]
  {
    var ws := tokens[a..b];
    assert forall w :: w in ws ==> w in tokens;
    SplitJoin(ws);
    assert ws[0] in tokens;
  }

  /** A phrase of words that starts with a number word and holds only number
      and year words. */
  predicate NumberPhrase(tab: ExtractTables, p: string) {
    var ws := Tokenize(p);
    && ws != [] && IsNumberToken(tab, ws[0])
    && forall w :: w in ws ==> IsNumberToken(tab, w) || IsYearToken(tab, w)
  }

  /** The words of a good span, joined, form a number phrase that splits
      back into the span. */
  lemma PhraseWords(tab: ExtractTables, tokens: seq<string>, a: nat, b: nat)
    requires GoodSpan(tab, tokens, a, b)
    requires forall w :: w in tokens ==> IsWord(w)
    ensures Join(" ", tokens[a..b]) != [] && Tokenize(Join(" ", tokens[a..b])) == tokens[a..b]
    ensures NumberPhrase(tab, Join(" ", tokens[a..b]))
  {
    PhraseRetokenises(tokens, a, b);
    assert AllNumberOrYear(tab, tokens, a, b);
    forall w | w in tokens[a..b] ensures IsNumberToken(tab, w) || IsYearToken(tab, w) {
      var j :| 0 <= j < b - a && tokens[a..b][j] == w;
      assert NumberAt(tab, tokens, a + j) || YearAt(tab, tokens, a + j);
    }
  }

  /** `extract_number_phrases`: the verse is split on whitespace and the
      phrases are collected with the module's tables. Each phrase is a
      non-empty run of the tokens, in order, that splits back into that run;
      every number word that is not blocked lands in a phrase, and no blocked
      token does. */
  method ExtractNumberPhrases(verse: string) returns (phrases: seq<string>, ghost spans: seq<(nat, nat)>)
    ensures var tokens := Tokenize(verse);
            && SpansFit(TABLES, tokens, phrases, spans)
            && (forall k :: 0 <= k < |phrases| ==>
                  phrases[k] != [] && Tokenize(phrases[k]) == tokens[spans[k].0..spans[k].1])
            && (forall j :: 0 <= j < |tokens| && NumberAt(TABLES, tokens, j) && !Blocked(TABLES, tokens, j) ==>
                  Covered(spans, j))
            && (forall j :: 0 <= j < |tokens| && Blocked(TABLES, tokens, j) ==> !Covered(spans, j))
    ensures forall k :: 0 <= k < |phrases| ==> NumberPhrase(TABLES, phrases[k])
  {
    var tokens := Tokenize(verse);
    SplitWords(verse);
    assert TABLES.unallowed == [];
    phrases, spans := ExtractNumberPhrasesWith(TABLES, tokens);
    forall k | 0 <= k < |phrases|
      ensures phrases[k] != [] && Tokenize(phrases[k]) == tokens[spans[k].0..spans[k].1]
      ensures NumberPhrase(TABLES, phrases[k])
    {
      PhraseWords(TABLES, tokens, spans[k].0, spans[k].1);
    }
  }

}
