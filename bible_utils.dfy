/** Searching verses for a quotation, and the lossless word/separator tokenizer. */
module BibleUtils {
  import opened Wrappers
  import opened PyStr
  import opened BibleTypes

  // ---------------------------------------------------------------------
  // search_in_bible
  // ---------------------------------------------------------------------

  /** The verses whose text contains `quote`, in their original order. */
  function Containing(quote: string, verses: seq<Verse>): (r: seq<Verse>)
    ensures |r| <= |verses|
    ensures forall v :: v in r <==> v in verses && Contains(v.text, quote)
  {
    if verses == [] then []
    else (if Contains(verses[0].text, quote) then [verses[0]] else []) + Containing(quote, verses[1..])
  }

  /** Filtering keeps the order: it distributes over concatenation. */
  lemma {:induction false} ContainingAppend(quote: string, a: seq<Verse>, b: seq<Verse>)
    ensures Containing(quote, a + b) == Containing(quote, a) + Containing(quote, b)
  {
    if a == [] {
      assert a + b == b;
    } else {
      assert (a + b)[0] == a[0];
      assert (a + b)[1..] == a[1..] + b;
      ContainingAppend(quote, a[1..], b);
    }
  }

  /** The `ValueError` raised when the number of hits is not the expected one. */
  datatype SearchError = UnexpectedCount(expected: int, found: nat)

  /** `search_in_bible`: the verses containing `quote`; an error when
      `expected` is given and differs from their number. */
  function SearchInBible(quote: string, verses: seq<Verse>, expected: Option<int>): (r: Result<seq<Verse>, SearchError>)
    ensures r.Failure? <==> expected.Some? && expected.value != |Containing(quote, verses)|
    ensures r.Success? ==> r.value == Containing(quote, verses)
    ensures r.Failure? ==> r.error == UnexpectedCount(expected.value, |Containing(quote, verses)|)
  {
    var found := Containing(quote, verses);
    if expected.Some? && |found| != expected.value then Failure(UnexpectedCount(expected.value, |found|))
    else Success(found)
  }

  /** Without an expected count the search never fails. */
  lemma SearchWithoutExpectedSucceeds(quote: string, verses: seq<Verse>)
    ensures SearchInBible(quote, verses, None) == Success(Containing(quote, verses))
  {
  }

  // ---------------------------------------------------------------------
  // tokenize_words_and_punctuations / reconstruct
  // ---------------------------------------------------------------------

  /** The Hebrew block U+0590 to U+05FF, of which words are made. */
  predicate InBlock(c: char) {
    '\U{0590}' <= c <= '\U{05FF}'
  }

  /** A tagged piece of text: a word (true) or a separator (false). */
  datatype Part = Part(isWord: bool, text: string)

  /** Length of the leading run of characters on the same side of the block as `s[0]`. */
  function SideRun(s: string, inBlock: bool): (n: nat)
    ensures n <= |s|
    ensures forall i :: 0 <= i < n ==> InBlock(s[i]) == inBlock
    ensures n == |s| || InBlock(s[n]) != inBlock
  {
    if s == [] || InBlock(s[0]) != inBlock then 0 else 1 + SideRun(s[1..], inBlock)
  }

  /** A part is a non-empty run of characters all on the side its tag says. */
  predicate WellTagged(p: Part) {
    p.text != [] && forall i :: 0 <= i < |p.text| ==> InBlock(p.text[i]) == p.isWord
  }

  /** The non-empty pieces of `re.split('([֐-׿]+)', s)`, tagged:
      maximal runs of block characters and maximal runs of the others. */
  function Parts(s: string): (r: seq<Part>)
    ensures forall i :: 0 <= i < |r| ==> WellTagged(r[i])
    ensures forall i :: 0 <= i < |r| - 1 ==> r[i + 1].isWord == !r[i].isWord
    ensures s == [] <==> r == []
    ensures s != [] ==> r[0].isWord == InBlock(s[0])
    decreases |s|
  {
    if s == [] then []
    else
      var w := InBlock(s[0]);
      var n := SideRun(s, w);
      var rest := Parts(s[n..]);
      assert rest != [] ==> rest[0].isWord == !w;
      [Part(w, s[..n])] + rest
  }

  /** `reconstruct`: the parts' texts, concatenated. */
  function Reconstruct(parts: seq<Part>): string
  {
    if parts == [] then [] else parts[0].text + Reconstruct(parts[1..])
  }

  /** Tokenizing loses nothing. */
  lemma {:induction false} ReconstructParts(s: string)
    ensures Reconstruct(Parts(s)) == s
    decreases |s|
  {
    if s != [] {
      var n := SideRun(s, InBlock(s[0]));
      ReconstructParts(s[n..]);
      assert s == s[..n] + s[n..];
    }
  }

  /** Words stand at even positions and separators at odd ones. */
  predicate Alternates(parts: seq<Part>) {
    forall i :: 0 <= i < |parts| ==> parts[i].isWord == (i % 2 == 0)
  }

  /** `tokenize_words_and_punctuations`: the tagged parts, or `None` where
      the source's assertion that words sit at the even positions fails. */
  function TokenizeWordsAndPunctuations(s: string): (r: Option<seq<Part>>)
    ensures r.Some? <==> s == [] || InBlock(s[0])
    ensures r.Some? ==> r.value == Parts(s) && Alternates(r.value)
  {
    var parts := Parts(s);
    PartsAlternate(s);
    if Alternates(parts) then Some(parts) else None
  }

  /** Text that is empty or starts in the block splits into alternating parts,
      words first; text that starts outside it puts a separator first. */
  lemma PartsAlternate(s: string)
    ensures Alternates(Parts(s)) <==> s == [] || InBlock(s[0])
  {
    var parts := Parts(s);
    if s != [] && InBlock(s[0]) {
      forall i | 0 <= i < |parts| ensures parts[i].isWord == (i % 2 == 0) {
        AlternationFromStart(parts, i);
      }
    }
  }

  /** Parts that start with a word and alternate sit at the right parity. */
  lemma {:induction false} AlternationFromStart(parts: seq<Part>, i: nat)
    requires parts != [] && parts[0].isWord
    requires forall j :: 0 <= j < |parts| - 1 ==> parts[j + 1].isWord == !parts[j].isWord
    requires i < |parts|
    ensures parts[i].isWord == (i % 2 == 0)
  {
    if i > 0 {
      AlternationFromStart(parts, i - 1);
    }
  }

  /** The round trip for a successful tokenization. */
  lemma TokenizeReconstruct(s: string)
    requires TokenizeWordsAndPunctuations(s).Some?
    ensures Reconstruct(TokenizeWordsAndPunctuations(s).value) == s
  {
    ReconstructParts(s);
  }
}
