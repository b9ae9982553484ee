# BibleNumbers in Dafny

A model of the rule-based Hebrew numeral reader of BibleNumbers, with proofs about it. The numeral reader evaluates phrases such as "ארבע מאות ושבעים" (four hundred and seventy) to integers. The model also covers the phrase extractor that groups number words in a pointed verse, and the `Time` duration algebra. It covers the mapping of quotations and number keywords onto spans of a verse that do not overlap. Finally, it covers the small string utilities the reader uses: tokenizing, searching, gematria, removing points, removing a conjugate letter, cleaning text, lexicon membership and result checks.

One Dafny module per Python file:

| module | file | source |
|---|---|---|
| `PyStr` | strings.dfy | the Python `str` operations used: `split`, `join`, `strip`, `find`, `count`, `replace`, `isspace` |
| `Wrappers` | wrappers.dfy | `Option` and `Result`, which stand for `None` and for raised exceptions |
| `SegmentAccumulator` | segment.dfy | `add_number`, `multiply_last` and the token branches common to both readers |
| `Programmatic` | programmatic.dfy | programmatic.py |
| `ProgrammaticNikud` | programmatic_nikud.dfy | programmatic_nikud.py |
| `BibleTypes` | bible_types.dfy | bible_types.py |
| `BibleUtils` | bible_utils.dfy | bible_utils.py |
| `Utils` | utils.dfy | utils.py |
| `LettersToNum` | letters_to_num.dfy | letters_to_num.py |
| `NikudUtils` | nikud_utils.dfy | nikud_utils.py |
| `ConjugateRemoval` | rr.dfy | rr.py |
| `ReadBible` | read_bible.dfy | read_bible.py |
| `NumbersInWords` | numbers_in_words.dfy | numbers_in_words.py |
| `ChatGpt` | chatgpt.dfy | chatgpt.py |
| `CheckResults` | check_results.dfy | check_results.py |

## How the model is built

**The numeral readers.** `hebrew_num_to_int` keeps its state in closures, which the model passes explicitly:
- The state is an `Accumulator` value: the current segment and its list of parts.
- The token loop is a `method`, proved equal to a fold `Run` over the tokens. The properties are lemmas about `Run`: the segment is always the sum of its parts, every part is positive, and the result is non-negative.
- The worked examples are lemmas about `Evaluate`.
- The `while` loop that strips ו's in programmatic.py is a method, proved equal to the function `Preprocessed`.

**The phrase extractor.** `extract_number_phrases` is a method whose loop body is its own method, `ExtractStep`.
- Ghost data records the token span of every phrase and of the open phrase.
- The loop invariant says what every recorded phrase is. It also says that every number word that is not blocked lies in a phrase.

**`map_numeric_hebrews`.** The model mirrors the source's nested loops over the `is_covered` array: passes over the quotations, one scan per quotation, then a scan per keyword.
- A ghost owner per position of the verse records which claim covers it.
- From these owners, the model proves that all recorded ranges are pairwise disjoint.

**Where the model follows the code, not the documented expectations:**
- **"ארבע מאות ושבעים אלף איש"** is annotated with 470000 at chatgpt.py:30.
  - `hebrew_num_to_int` gives 70400 for "ארבע מאות ושבעים אלף", because `multiply_last` rescales only the last part.
  - `Programmatic.ThousandScalesOnlyLastPart` proves the value the code computes.
- **Repeated year words.** The comment at programmatic_nikud.py:309 speaks of "שנים שנים", but the duplicate test sits only in the number-word branch. So two equal adjacent year words do stay in one phrase, and the model states the duplicate rule for number words only.
- **Plain integers.** `hebrew_num_to_int` returns a plain integer even for phrases with year words: "תשע מאות שנה ושלושים שנה" is 930, not a `Time`.
- **Quotations that do not occur.** In `map_numeric_hebrews`, such a quotation simply gets no index; nothing fails.

## Model

| member | source | states |
|---|---|---|
| PyStr.Find | utils.py:4 | `text.find(q, start)` is -1 or a match at or after `start`, and no match lies between `start` and the result: the lowest match, or none at all |
| PyStr.FindFromZero | utils.py:4-6 | searching from 0 reports -1 exactly when the pattern does not occur |
| PyStr.Count | check_results.py:11 | the empty pattern counts `len + 1`; any other pattern counts 0 exactly when it does not occur |
| PyStr.SplitWords | programmatic_nikud.py:138-139 | every piece of `split()` is a non-empty run without whitespace |
| PyStr.SplitSpaced | programmatic_nikud.py:138-139 | `split()` gives the words of the text in order: the text is its pieces interleaved with runs of whitespace, and every run between two pieces is non-empty |
| PyStr.SplitOn | numbers_in_words.py:19 | `split(',')` gives at least one piece, no piece holds the separator, and joining the pieces with it gives the text back |
| PyStr.SplitOnWithout | numbers_in_words.py:19 | text without the separator splits into itself alone |
| PyStr.Strip | read_bible.py:23 | `strip()` is a slice of the text with only whitespace outside it and no whitespace at either end |
| PyStr.ReplaceNotLonger | read_bible.py:24-25 | replacing a non-empty pattern by text no longer than it never lengthens the text |
| PyStr.SplitJoin | programmatic_nikud.py:283 | splitting the space-join of words gives the same words back |
| Utils.FindAllStartIndices | utils.py:1-8 | yields exactly the positions where `query` occurs, overlapping ones included, in strictly increasing order, and only terminates when `find` reports -1 |
| LettersToNum.ConvertHebrewLetterToNum | letters_to_num.py:1-31 | a value exactly for א..ת without the final forms; א..ט are 1..9, י כ ל מ נ ס ע פ צ are 10, 20, ..., 90, and ק..ת are 100..400 |
| LettersToNum.GematriaOf | letters_to_num.py:34-45 | succeeds exactly when every character is in the table; otherwise fails on the first character outside it |
| LettersToNum.Gematria | letters_to_num.py:34-45 | the same for the letter table: success exactly when every character has a value, failure naming the first character without one |
| LettersToNum.ConvertStringWith | letters_to_num.py:38-45 | the accumulating loop, with early exit on an invalid letter, equals `GematriaOf` |
| LettersToNum.ConvertHebrewStringToNum | letters_to_num.py:34-45 | `convert_hebrew_string_to_num` equals `Gematria`, so `""` gives 0 and an invalid letter is the `ValueError` |
| LettersToNum.GematriaAppend | letters_to_num.py:39-44 | on concatenations the first failure wins, and otherwise the values add |
| LettersToNum.SameLettersSameValidity | letters_to_num.py:40-44 | two strings with the same letters are both valid or both invalid |
| LettersToNum.GematriaRemoveOne | letters_to_num.py:39-42 | removing one letter from a valid string lowers its value by that letter's value |
| LettersToNum.GematriaPermutation | letters_to_num.py:39-42 | the value does not depend on the order of the letters |
| NikudUtils.RemoveNikud | nikud_utils.py:3-7 | the result is no longer than the input and holds no character in U+0590..U+05C7 |
| NikudUtils.RemoveNikudAppend | nikud_utils.py:6-7 | removal works character by character: it distributes over concatenation |
| NikudUtils.RemoveNikudOfPlain | nikud_utils.py:6-7 | text without points is left unchanged |
| NikudUtils.RemoveNikudIdempotent | nikud_utils.py:6-7 | removing twice is removing once |
| NikudUtils.RemoveNikudKeepsOthers | nikud_utils.py:3-7 | every character outside the range, Hebrew letters included, keeps its number of occurrences |
| NikudUtils.CompareWithStripped | nikud_utils.py:10-11 | a pointed text compares equal to its unpointed form |
| NikudUtils.CompareIsEquivalence | nikud_utils.py:10-11 | `compare_without_nikud` is reflexive, symmetric and transitive |
| ConjugateRemoval.MarkRun | rr.py:8 | the leading run of marks in U+05B0..U+05BC and U+05C1..U+05C2 is maximal |
| ConjugateRemoval.RemoveConjugateLetter | rr.py:3-12 | the result is a suffix of the token. Without the leading letter the token is unchanged. With it, the letter and the maximal run of marks after it are gone |
| ConjugateRemoval.RemovesOnlyOne | rr.py:9-11 | the pattern is anchored and not repeated: a token that starts with the letter twice keeps the second |
| ConjugateRemoval.RemoveVavExample | rr.py:15-19 | "וְּשְׁלוֹשִׁים" without its ו is "שְׁלוֹשִׁים" |
| ReadBible.KeepLettersAndSpaces | read_bible.py:26 | the filter keeps only the letters א..ת and spaces, and is no longer than its input |
| ReadBible.KeepPreservesLetters | read_bible.py:26 | the filter drops no letter and reorders none |
| ReadBible.KeepOfKept | read_bible.py:26 | text made of letters and spaces passes the filter unchanged |
| ReadBible.ReplacedHoldNoLetters | read_bible.py:24 | the six replaced substrings are non-empty and letter-free |
| ReadBible.StripKeepsLetters | read_bible.py:23 | `strip()` keeps every letter in order and never lengthens the text |
| ReadBible.ReplaceKeepsLetters | read_bible.py:24-25 | replacing a letter-free pattern by a space keeps the letters |
| ReadBible.CleanText | read_bible.py:22-27 | `clean_text` gives only letters and spaces. It keeps the letters of the input in order and is no longer than the input |
| ReadBible.CleanedOfClean | read_bible.py:22-27 | text already made of letters is left as it is |
| ReadBible.CleanedOfCleanForm | read_bible.py:22-27 | trimmed text of letters with single spaces between them is left as it is |
| ReadBible.SeparatorBecomesSpace | read_bible.py:22-27 | a hyphen, newline, carriage return, tab or maqaf between two runs of letters becomes one space |
| BibleUtils.Containing | bible_utils.py:13 | the verses kept are exactly those whose text contains the quote |
| BibleUtils.ContainingAppend | bible_utils.py:13 | the filter keeps the original order: it distributes over concatenation |
| BibleUtils.SearchInBible | bible_utils.py:9-16 | fails exactly when `expected` is given and differs from the number of hits; otherwise returns those verses |
| BibleUtils.SearchWithoutExpectedSucceeds | bible_utils.py:14-16 | without `expected` the search never fails |
| BibleUtils.SideRun | bible_utils.py:21-24 | the leading run of characters on one side of U+0590..U+05FF is maximal |
| BibleUtils.Parts | bible_utils.py:21-30 | the non-empty pieces of the regex split are maximal runs tagged with their side. Tags alternate, and the first tag follows the first character |
| BibleUtils.ReconstructParts | bible_utils.py:42-44 | joining the pieces gives the text back |
| BibleUtils.PartsAlternate | bible_utils.py:32-37 | words sit at the even positions exactly when the text is empty or starts in the block |
| BibleUtils.TokenizeWordsAndPunctuations | bible_utils.py:19-39 | the assertion fails (`None`) exactly when the text starts outside the block; otherwise the result is the alternating pieces |
| BibleUtils.TokenizeReconstruct | bible_utils.py:19-44 | `reconstruct(tokenize_words_and_punctuations(s)) == s` |
| NumbersInWords.StripAll | numbers_in_words.py:19 | the i-th result is the i-th piece stripped; it has no whitespace at either end and holds only characters of its piece |
| NumbersInWords.Words | numbers_in_words.py:19 | an entry gives, per comma-separated piece and in order, that piece stripped; none holds a comma |
| NumbersInWords.OneSpellings | numbers_in_words.py:3-19 | the entry for 1 gives exactly the spellings "אחד" and "אחת" |
| NumbersInWords.OneIsListed | numbers_in_words.py:3-19 | "אחד" is among the listed spellings |
| NumbersInWords.SpellingsTable | numbers_in_words.py:19 | the comprehension keeps each number and maps its entry through `Words` |
| NumbersInWords.GetHatayot | numbers_in_words.py:22-25 | `[w, 'ו' + w]` with inflections, `[w]` without |
| NumbersInWords.IterWordsMembership | numbers_in_words.py:29-33 | a word is yielded for one list exactly when it is listed, or, with inflections, is a listed word after ו |
| NumbersInWords.IterTableMembership | numbers_in_words.py:28-33 | the same for the whole table |
| NumbersInWords.IsWordIn | numbers_in_words.py:36-37 | `is_word_in_hebrew_numbers(w)` holds exactly when `w` is listed or is ו followed by a listed word |
| NumbersInWords.AnyNumberWord | numbers_in_words.py:41 | `any` holds exactly when some piece is a number word |
| NumbersInWords.IsNumbersInVerseOf | numbers_in_words.py:40-41 | holds exactly when some piece of `verse.split(' ')` is a number word |
| NumbersInWords.VavWordRecognised | numbers_in_words.py:22-41 | a verse that is ו followed by a listed word mentions a number |
| ChatGpt.CheckMatch | chatgpt.py:36-43 | `False` exactly for another location. `True` exactly when the location agrees and the cleaned quote occurs in the verse. `None` exactly when the location agrees and it does not |
| ChatGpt.QuoteFromVerseMatches | chatgpt.py:39-40 | a quote of plain letters taken from the verse it names matches it |
| ChatGpt.GetMatchingVerse | chatgpt.py:46-50 | the first verse for which `check_match` is true, and `None` exactly when there is none (`None` from `check_match` is no match) |
| ChatGpt.GetMatchingVerseAppend | chatgpt.py:46-50 | over two lists the first decides whenever it holds a match |
| ChatGpt.MatchingVerseHoldsQuote | chatgpt.py:46-50 | the verse found has the numeral's location and holds its cleaned quote |
| CheckResults.CheckMultiMatch | check_results.py:8-13 | true exactly when every cleaned quote occurs once by `str.count`; true with no numerals |
| CheckResults.CountOnce | check_results.py:11 | a count of one is a first occurrence with none after it |
| CheckResults.MultiMatchOccurs | check_results.py:8-13 | in a non-empty verse that passes, every cleaned quote is non-empty and occurs |
| CheckResults.SliceBound | check_results.py:20-22 | numpy's slice bound: in-range bounds are kept, negative ones count from the end, a bound below minus the length gives 0 and one above the length gives the length |
| CheckResults.CoverCountStep | check_results.py:22 | one more quote adds one exactly on its slice |
| CheckResults.AddOne | check_results.py:22 | `coverage[lo:hi] += 1` adds one inside the slice and changes nothing outside it |
| CheckResults.AddQuote | check_results.py:19-22 | one quote's turn takes the counts of the quotes before it to those up to it |
| CheckResults.CountCoverage | check_results.py:17-22 | each position ends up with the number of quote slices that hold it |
| CheckResults.AllAtMostOne | check_results.py:23 | `np.all(coverage <= 1)` |
| CheckResults.CheckOverlappingMatches | check_results.py:16-23 | true exactly when no position is held by two quote slices |
| CheckResults.CoverCountPairs | check_results.py:20-23 | a count of at most one is no two distinct slices holding the position |
| CheckResults.CoverCountZero | check_results.py:20-22 | a count of zero is no slice holding the position |
| CheckResults.NoNumeralsPass | check_results.py:17-23 | with no numerals the check passes |
| CheckResults.OverlapCheckIsDisjointness | check_results.py:16-23 | when every quote occurs, the check passes exactly when the first occurrences are pairwise disjoint spans |
| SegmentAccumulator.SumNonNegative | programmatic.py:78-102 | parts that are all positive have a non-negative sum, positive when there is a part |
| SegmentAccumulator.AppendPart | programmatic.py:89-90 | appends the value as the last part and keeps segment == sum of parts |
| SegmentAccumulator.AddNumber | programmatic.py:78-90 | keeps segment == sum of parts; on a consistent state both branches append the number |
| SegmentAccumulator.MultiplyLast | programmatic.py:92-102 | only the last part is scaled, earlier parts are unchanged, and with no parts the factor becomes the first part; segment == sum of parts is kept |
| SegmentAccumulator.Dispatch | programmatic.py:107-149 | keeps the accumulator consistent; skip words and unknown words change nothing |
| SegmentAccumulator.DispatchToken | programmatic_nikud.py:189-231 | the branches with their `continue`s compute `Dispatch` |
| SegmentAccumulator.TwoHundredAppends | programmatic.py:124-136 | a hundred-word other than 100 without a conjunction appends 200 in both branches |
| SegmentAccumulator.PluralBehaviour | programmatic.py:139-146 | a multiplier with ו is appended as a new part; without one it rescales only the last part |
| Programmatic.LexiconPositive | programmatic.py:1-56 | every value in the tables is positive |
| Programmatic.Preprocessed | programmatic.py:61-67 | the token is `k` ו's followed by the result, and the flag holds exactly when `k >= 1`. A non-empty token gives a non-empty result, which starts with ו only when it is exactly "ו" |
| Programmatic.PreprocessToken | programmatic.py:61-67 | the `while` loop computes `Preprocessed` |
| Programmatic.PreprocessIdempotent | programmatic.py:63-67 | a second pass strips nothing and reports no conjunction |
| Programmatic.RunConsistent | programmatic.py:78-146 | over any tokens the segment stays the sum of its parts, every part positive |
| Programmatic.EvaluateNonNegative | programmatic.py:70-152 | every phrase evaluates to a non-negative number |
| Programmatic.StepToken | programmatic.py:105-149 | one pass of the loop computes `Step` and keeps the accumulator consistent |
| Programmatic.RunPrefix | programmatic.py:104 | the loop over one more token is one more step |
| Programmatic.HebrewNumToIntWith | programmatic.py:70-152 | the loop gives `total` (0) plus the segment of the fold over the tokens, and the result is non-negative |
| Programmatic.HebrewNumToInt | programmatic.py:70-152 | `hebrew_num_to_int` equals `Evaluate` and is non-negative |
| Programmatic.EmptyPhraseIsZero | programmatic.py:72-76 | the empty phrase is 0 |
| Programmatic.SkippedTokensChangeNothing | programmatic.py:107-108 | a year word or an unrecognised word leaves the accumulator unchanged |
| Programmatic.ExampleWordsListed | programmatic.py:1-58 | the tables hold the words of the worked examples with their values and kinds |
| Programmatic.FourHundredSeventy | programmatic.py:104-152 | "ארבע מאות ושבעים" is 470 |
| Programmatic.NineHundredThirty | programmatic.py:104-152 | "תשע מאות שנה ושלושים שנה" is 930, the year words skipped |
| Programmatic.ThousandScalesOnlyLastPart | programmatic.py:92-102 | "ארבע מאות ושבעים אלף" is 70400: the thousand rescales only the last part |
| ProgrammaticNikud.PreprocessToken | programmatic_nikud.py:130-135 | with no letter starting the token, it comes back whole. Otherwise the first letter in the list's order is cut off, `letter + rest == token`, and only one prefix goes |
| ProgrammaticNikud.PreprocessFirstMatch | programmatic_nikud.py:130-135 | the first listed letter that starts the token is the one removed |
| ProgrammaticNikud.StripAndSeventy | programmatic_nikud.py:95-135 | "וְשִׁבְעִים" loses the waw with sheva, the first matching prefix in declaration order |
| ProgrammaticNikud.LexiconPositive | programmatic_nikud.py:6-86 | every value in the pointed tables is positive |
| ProgrammaticNikud.RunConsistent | programmatic_nikud.py:150-228 | over any tokens the segment stays the sum of its parts, every part positive |
| ProgrammaticNikud.EvaluateNonNegative | programmatic_nikud.py:142-234 | every phrase evaluates to a non-negative number |
| ProgrammaticNikud.StepToken | programmatic_nikud.py:180-231 | one pass: a listed number word is read as it is, any other token loses one prefix (waw only when `total` is non-zero), then takes its branch. It computes `Step` and keeps the accumulator consistent |
| ProgrammaticNikud.RunPrefix | programmatic_nikud.py:176 | the loop over one more token is one more step |
| ProgrammaticNikud.HebrewNumToIntWith | programmatic_nikud.py:142-234 | `total` stays 0 in the loop; the result is the final segment of the fold, non-negative |
| ProgrammaticNikud.HebrewNumToInt | programmatic_nikud.py:142-234 | `hebrew_num_to_int` equals `Evaluate` and is non-negative |
| ProgrammaticNikud.StepFour | programmatic_nikud.py:193-195 | "אַרְבַּע" on the initial state starts the segment `[4]` |
| ProgrammaticNikud.StepHundreds | programmatic_nikud.py:221-227 | "מֵאוֹת" without a prefix multiplies the last part by 100 |
| ProgrammaticNikud.StepAndSeventy | programmatic_nikud.py:184-194 | "וְשִׁבְעִים" appends 70 as a new part |
| ProgrammaticNikud.FourHundredSeventy | programmatic_nikud.py:142-234 | "אַרְבַּע מֵאוֹת וְשִׁבְעִים" is 470 |
| ProgrammaticNikud.IsWordIn | programmatic_nikud.py:237-247 | a word is yielded exactly when it is listed or is a listed word after the waw with sheva or with shuruk |
| ProgrammaticNikud.AnyNumberWord | programmatic_nikud.py:251 | `any` holds exactly when some piece is a number word |
| ProgrammaticNikud.IsNumbersInVerseOf | programmatic_nikud.py:250-251 | holds exactly when some piece of `verse.split(' ')` is a number word |
| ProgrammaticNikud.VavShevaWordRecognised | programmatic_nikud.py:237-251 | a verse that is a listed word after the waw with sheva mentions a number |
| ProgrammaticNikud.AnyStripsToYear | programmatic_nikud.py:319-320 | the look-ahead holds exactly when some later token strips to a year or month word |
| ProgrammaticNikud.TerminatePhrase | programmatic_nikud.py:281-286 | an empty phrase adds nothing; an open one is added, space-joined, exactly when it is not disallowed |
| ProgrammaticNikud.CloseStep | programmatic_nikud.py:299-305 | an exception, an exception pair or any other word closes the open phrase without joining it, and the loop invariant holds after it |
| ProgrammaticNikud.NumberAfterDuplicate | programmatic_nikud.py:310-313 | a number word equal to the raw token before it closes the open phrase and opens a new one with itself |
| ProgrammaticNikud.NumberJoins | programmatic_nikud.py:306-313 | any other number word joins the open phrase, or opens one |
| ProgrammaticNikud.YearKeepsOpen | programmatic_nikud.py:314-320 | a year word with another year word later in the verse joins the open phrase and keeps it open |
| ProgrammaticNikud.YearCloses | programmatic_nikud.py:314-322 | a year word with no later year word joins the open phrase and closes it |
| ProgrammaticNikud.YearStep | programmatic_nikud.py:314-322 | a year word only extends an already open phrase, and closes it unless a year word follows |
| ProgrammaticNikud.BlockedUncovered | programmatic_nikud.py:299-305 | no blocked token lies in a recorded phrase |
| ProgrammaticNikud.ExtractStep | programmatic_nikud.py:289-327 | one pass of the loop keeps the invariant: recorded phrases are good, ordered spans that end where the next token could not join, the open phrase is a good span, and every unblocked number word so far is covered. Per branch it gives the new phrase list and open phrase: a blocked or non-number token closes the phrase; a number word repeating the previous token closes it and opens a new one, otherwise it joins; a year word joins, and closes the phrase when no later token strips to a year word. It also returns the token as read |
| ProgrammaticNikud.ExtractNumberPhrasesWith | programmatic_nikud.py:275-330 | every phrase is the space-join of a good span of tokens, and the spans are in order. Each span is maximal: it ends at the end of the verse, or before a token that is blocked, is neither a number nor a year word, is a number word repeating its predecessor, or follows a closing year word. Every unblocked number word lies in a span (when no phrase is disallowed), and no blocked token does |
| ProgrammaticNikud.PhraseRetokenises | programmatic_nikud.py:277-283 | a phrase is non-empty and splits back into its run of tokens |
| ProgrammaticNikud.ExtractNumberPhrases | programmatic_nikud.py:275-330 | each phrase is a non-empty, contiguous run of the verse's tokens, in order, that splits back into that run, and it ends only where the next token could not join it. Each phrase splits into words whose first is a number word and all of which are number or year words. None of its tokens is an exception, and no number word in it repeats the token before it. Only its last token may be a closing year word. Every number word that is not blocked lands in a phrase |
| BibleTypes.OnlyPredicatesExclusive | bible_types.py:202-209 | `is_year_only`, `is_month_only` and `is_day_only` are mutually exclusive |
| BibleTypes.ConvertToTime | bible_types.py:211-226 | a `Time` comes back unchanged. 0 becomes zero in exactly the components `self` has. Another integer fills the one component of a single-component `self`, and otherwise is the `ValueError` |
| BibleTypes.ApplyOperationOrNone | bible_types.py:228-232 | absent exactly when both are absent, otherwise the operation with an absent side read as 0 |
| BibleTypes.ApplyOperation | bible_types.py:234-241 | fails exactly when the operand cannot be lifted. A component is absent exactly when absent on both sides, otherwise it is `op(a or 0, b or 0)`. `is_date` is the OR of both flags |
| BibleTypes.Mul | bible_types.py:249-256 | scalar `*` keeps each component's presence, multiplies the present ones and keeps `is_date` |
| BibleTypes.Equals | bible_types.py:262-264 | fails exactly when the operand cannot be lifted; otherwise compares all four fields |
| BibleTypes.ToNumberInDays | bible_types.py:266-275 | `to_number(in_days=True)` is `365*years + 30*months + days`, absent components counting 0 |
| BibleTypes.AddZeroIdentity | bible_types.py:243-247 | `t + 0`, `0 + t` and `t - 0` are `t` |
| BibleTypes.EqualsZeroIff | bible_types.py:262-264 | `t == 0` never fails, and holds exactly when every present component is 0 |
| BibleTypes.EqualsTimeIsStructural | bible_types.py:262-264 | against a `Time`, `==` is equality of years, months, days and `is_date` |
| BibleTypes.SubUndoesAdd | bible_types.py:243-247 | `(t + u) - u` has the values of `t`, with presence and `is_date` merged from both |
| BibleTypes.ToNumberInDaysLinear | bible_types.py:234-247 | the day count is additive over `+` and `-` |
| BibleTypes.ToNumberInDaysScales | bible_types.py:249-256 | the day count scales with scalar multiplication |
| BibleTypes.AddIntToYears | bible_types.py:220-225 | a non-zero integer added to a years-only `Time` adds years, clearing the date flag of the lifted side only |
| BibleTypes.AddIntToMixedFails | bible_types.py:220-226 | a non-zero integer against a `Time` with several or no components is the `ValueError` for `+` and `==` |
| BibleTypes.PaddedMatch | bible_types.py:98 | a keyword found in the space-padded verse occurs in the verse at the same index |
| BibleTypes.TotalLengthDecreases | bible_types.py:84-94 | a pass shortens some non-empty remaining list, so the `while any(...)` loop ends |
| BibleTypes.SetCovered | bible_types.py:92 | `is_covered[lo:hi] = True` sets the slice and keeps all else |
| BibleTypes.TakeFirstUncovered | bible_types.py:86-93 | scans the indices in order, skips those whose span is touched, and claims the first free one, dropping it and those before it |
| BibleTypes.TakeAllUncovered | bible_types.py:99-103 | first fit over the increasing occurrence list: the claimed indices come in increasing order; each was free of earlier claims and of the claims made before it in the scan; each index left out was already touched or starts inside an earlier claimed span. It claims none when all are touched |
| BibleTypes.ListOccurrences | bible_types.py:79-82 | every quote gets all its occurrences, in increasing order, and no index yet |
| BibleTypes.QuoteStep | bible_types.py:85-94 | one quote scan keeps the claims consistent: recorded indices are occurrences that own their span |
| BibleTypes.QuoteStepFirst | bible_types.py:85-94 | in the first pass, what a quote records is its first occurrence whose span no earlier claim overlaps |
| BibleTypes.ScanQuote | bible_types.py:85-94 | one quote's turn claims and records its next free occurrence, drops the scanned ones, and leaves the other quotes' lists alone |
| BibleTypes.MapQuotations | bible_types.py:76-96 | in the default mode each quote gets at most its first occurrence not overlapping an earlier claim. In the other mode every occurrence ends up touched |
| BibleTypes.KeywordStep | bible_types.py:97-105 | one keyword scan keeps the keyword claims, and records the keyword only when it claimed something |
| BibleTypes.MapKeywords | bible_types.py:97-105 | each keyword claims every free space-delimited occurrence, and its indices are recorded in increasing order; it is recorded only if one was free |
| BibleTypes.OwnersDisjoint | bible_types.py:90-105 | the owner map makes all recorded ranges, quotes and keywords, pairwise disjoint |
| BibleTypes.TouchedShared | bible_types.py:90-103 | a touched span shares a position with a recorded range |
| BibleTypes.MapNumericHebrews | bible_types.py:69-106 | every recorded quote index is an occurrence of the quote, and every keyword index a space-delimited occurrence. Only keywords that claimed something are recorded, each with its indices in increasing order. All ranges are pairwise disjoint. In the default mode a quote gets at most its first occurrence free of earlier claims. Every keyword occurrence, and in the other mode every quote occurrence, shares a position with a range |

## Left out

- Rendering (`_to_formatted_str`, `to_html`, `to_colored_text`, `NumericHebrew.to_string`, `Verse.__str__`, `Time.__str__`) produces display text only.
- File, HTML and JSON I/O, the drivers, module-level code and `get_verses_with_numbers` read files or print.
- The LLM client (`get_numbers_from_verses_using_llm`, `get_response`) is a network call.
- `Time.to_number(in_days=False)` and float values in `NumericHebrew` are floating point. The `number` field is an integer or a `Time`.
- `Time * Time` is not modelled. It is allowed silently at bible_types.py:250-252, and its result depends on Python's `int * Time` dispatch; `BibleTypes.Mul` takes an integer factor.
- The richer extractor `GetHebrewNumbers` is not part of this model. Recursive prefix stripping, date-starter words and day reclassification belong to it.
- `search_nikud_text_for_non_nikud_query` is not part of this model; it is used by a test but not defined in utils.py.
- Regular expressions are modelled by explicit character-range predicates and run functions: the niqqud class, the anchored conjugate pattern, and the Hebrew-block split. Strings are sequences of code points, with no normalisation.
- BibleTypes.MapNumericHebrews: the keyword list is a parameter. bible_types.py:74 imports `iter_hebrew_numbers` from programmatic.py, which does not define it.
- BibleTypes.MapNumericHebrews: the result is two maps, one from quote position to indices and one from keyword to indices, instead of one dict keyed by numeral or string. Numerals hash by identity (bible_types.py:47-48), so keying by position in the list matches the source when the numerals in the list are distinct objects. When the same numeral object occurs twice, the source keeps one dict entry and scans it once per round, so it claims one occurrence per round. The model scans both positions and can claim two occurrences per round.
- BibleTypes.MapQuotations: a quote whose every occurrence is covered keeps no index. The default mode, with its single pass, is the mode the source uses (bible_types.py:110).
- BibleTypes.MapQuotations: in the other mode (`show_only_one_match=False`) the contract states only that every occurrence ends up touched. Which occurrences the round-robin first fit of bible_types.py:84-94 claims, and in what order, is not specified.
- BibleTypes.MapKeywords: the first-fit choice (which occurrence of a keyword is claimed when two of them overlap) is stated per keyword scan, by `BibleTypes.TakeAllUncovered` against the positions held before that scan. The keyword pass and `BibleTypes.MapNumericHebrews` carry over only that the lists are increasing, are occurrences, are disjoint, and touch every occurrence.
- BibleTypes.MapNumericHebrews: as for `BibleTypes.MapKeywords`, the choice among overlapping occurrences of one keyword is not restated over the whole pass.
- `hebrew_num_to_int` in programmatic_nikud.py computes `is_last`, `is_first` and `next_token`, which nothing uses. They are not modelled.
- ProgrammaticNikud.StepToken: the branch that strips only a waw when `total` is non-zero is modelled (parameter `total`). It cannot be reached from `hebrew_num_to_int`, where `total` is 0 in the loop.
- ProgrammaticNikud.IsWordIn: `ALL_NUMBER_WORDS` is a Python set. `iter_hebrew_numbers` is modelled as the set of words it yields, because the order of the yields is unspecified.
- ProgrammaticNikud.ExtractNumberPhrases: the rule that two equal adjacent tokens never share a phrase is stated for number words only. The source's duplicate test sits in the number-word branch alone, so two equal adjacent year words do share a phrase.
- ProgrammaticNikud.ExtractNumberPhrasesWith: that every unblocked number word is covered is stated only for an empty list of disallowed phrases, which is the module's list; a disallowed phrase would drop its words.
- CheckResults.CheckOverlappingMatches: a quote that does not occur is not excluded. `find` gives -1, and the slice `coverage[-1:len-1]` is modelled with numpy's bound normalisation (`CheckResults.SliceBound`).
- The counts of a NumPy `int` array are unbounded naturals; overflow cannot occur for verse-sized inputs.
