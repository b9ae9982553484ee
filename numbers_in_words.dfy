/** The plain-letter number words and the lexicon-membership tests built on them. */
module NumbersInWords {
  import opened PyStr

  /** Each number with its spellings, comma separated, in the table's order. */
  const NUMBERS: seq<(int, string)> := [
    (1, "אחד, אחת"),
    (2, "שניים, שתיים, שני, שתי"),
    (3, "שלוש, שלושה, שלושת"),
    (4, "ארבע, ארבעה, ארבעת"),
    (5, "חמש, חמישה, חמשת"),
    (6, "שש, ששה\U{05BF}, ששת"),
    (7, "שבע, שיבעה, שבעת"),
    (8, "שמונה, שמונת"),
    (9, "תשע, תשעה, תשעת"),
    (10, "עשר"),
    (100, "מאה"),
    (1000, "אלף"),
    (10000, "רבבה")
  ]

  /** Every character of a stripped piece comes from the piece. */
  lemma StripKeepsChars(s: string)
    ensures forall c :: c in Strip(s) ==> c in s
  {
    var w := Strip(s);
    var a :| TrimmedAt(s, w, a);
    assert forall k :: 0 <= k < |w| ==> w[k] == s[a + k];
  }

  /** Each piece without its surrounding whitespace. */
  function StripAll(pieces: seq<string>): (r: seq<string>)
    ensures |r| == |pieces|
    ensures forall i :: 0 <= i < |r| ==> r[i] == Strip(pieces[i])
    ensures forall i :: 0 <= i < |r| ==> r[i] == [] || (!IsSpace(r[i][0]) && !IsSpace(r[i][|r[i]| - 1]))
    ensures forall i :: 0 <= i < |r| ==> forall c :: c in r[i] ==> c in pieces[i]
  {
    var r := seq(|pieces|, i requires 0 <= i < |pieces| => Strip(pieces[i]));
    assert forall i :: 0 <= i < |r| ==> forall c :: c in r[i] ==> c in pieces[i] by {
      forall i | 0 <= i < |r| {
        StripKeepsChars(pieces[i]);
      }
    }
    r
  }

  /** One entry's spellings: split on ',' and strip each piece. */
  function Words(hebrew: string): (r: seq<string>)
    ensures |r| == |SplitOn(hebrew, ',')|
    ensures forall i :: 0 <= i < |r| ==> r[i] == Strip(SplitOn(hebrew, ',')[i])
    ensures forall i :: 0 <= i < |r| ==> ',' !in r[i]
    ensures forall i :: 0 <= i < |r| ==> r[i] == [] || (!IsSpace(r[i][0]) && !IsSpace(r[i][|r[i]| - 1]))
  {
    var pieces := SplitOn(hebrew, ',');
    var r := StripAll(pieces);
    assert forall i :: 0 <= i < |r| ==> ',' !in r[i] by {
      forall i | 0 <= i < |r|
        ensures ',' !in r[i]
      {
        assert pieces[i] in pieces;
      }
    }
    r
  }

  /** The dictionary comprehension over any list of entries. */
  function SpellingsTable(entries: seq<(int, string)>): (r: seq<(int, seq<string>)>)
    ensures |r| == |entries|
    ensures forall i :: 0 <= i < |r| ==> r[i].0 == entries[i].0 && r[i].1 == Words(entries[i].1)
  {
    if entries == [] then [] else [(entries[0].0, Words(entries[0].1))] + SpellingsTable(entries[1..])
  }

  /** `NUMBERS_TO_HEBREW_NUMBERS`: each number with its list of spellings. */
  function NumbersToHebrewNumbers(): seq<(int, seq<string>)> {
    SpellingsTable(NUMBERS)
  }

  lemma OnePieces()
    ensures SplitOn(NUMBERS[0].1, ',') == ["אחד", " אחת"]
  {
    var e := NUMBERS[0].1;
    assert IndexOf(e, ',') == 3;
    assert e[..3] == "אחד" && e[4..] == " אחת";
    SplitOnWithout(" אחת", ',');
  }

  lemma OnePiecesStripped()
    ensures Strip("אחד") == "אחד" && Strip(" אחת") == "אחת"
  {
    assert SpaceRun("אחד") == 0 && TrailingSpaceRun("אחד") == 0;
    assert SpaceRun(" אחת") == 1;
    assert " אחת"[1..] == "אחת" && TrailingSpaceRun("אחת") == 0;
  }

  /** The first entry, "אחד, אחת", gives the spellings "אחד" and "אחת". */
  lemma OneSpellings()
    ensures Words(NUMBERS[0].1) == ["אחד", "אחת"]
  {
    OnePieces();
    OnePiecesStripped();
  }

  /** "אחד" is among the listed spellings. */
  lemma OneIsListed()
    ensures "אחד" in ListedWords(NumbersToHebrewNumbers())
  {
    OneSpellings();
    var t := NumbersToHebrewNumbers();
    assert t[0].1 == ["אחד", "אחת"];
    assert ListedWords(t) == t[0].1 + ListedWords(t[1..]);
  }

  /** `get_hatayot`: the word, and with inflections also the word with a leading ו. */
  function GetHatayot(hebrewNumber: string, withHatayot: bool): (r: seq<string>)
    ensures withHatayot ==> r == [hebrewNumber, "ו" + hebrewNumber]
    ensures !withHatayot ==> r == [hebrewNumber]
  {
    if withHatayot then [hebrewNumber, "ו" + hebrewNumber] else [hebrewNumber]
  }

  /** The yields for one list of spellings: each word, then its inflections
      (so with inflections every word is yielded twice). */
  function IterWords(ws: seq<string>, withHatayot: bool): seq<string>
  {
    if ws == [] then [] else [ws[0]] + GetHatayot(ws[0], withHatayot) + IterWords(ws[1..], withHatayot)
  }

  function IterTable(table: seq<(int, seq<string>)>, withHatayot: bool): seq<string>
  {
    if table == [] then [] else IterWords(table[0].1, withHatayot) + IterTable(table[1..], withHatayot)
  }

  /** Every spelling of the table, in order. */
  function ListedWords(table: seq<(int, seq<string>)>): seq<string>
  {
    if table == [] then [] else table[0].1 + ListedWords(table[1..])
  }

  /** `w` is the word `x` with a ו in front. */
  predicate VavPrefixed(w: string, x: string) {
    |w| >= 1 && w[0] == 'ו' && w[1..] == x
  }

  lemma {:induction false} IterWordsMembership(ws: seq<string>, withHatayot: bool, w: string)
    ensures w in IterWords(ws, withHatayot) <==>
              w in ws || (withHatayot && |w| >= 1 && w[0] == 'ו' && w[1..] in ws)
  {
    if ws != [] {
      IterWordsMembership(ws[1..], withHatayot, w);
      assert ws == [ws[0]] + ws[1..];
      if withHatayot && w == "ו" + ws[0] {
        assert VavPrefixed(w, ws[0]);
      }
      if withHatayot && |w| >= 1 && w[0] == 'ו' && w[1..] == ws[0] {
        assert w == "ו" + ws[0];
      }
    }
  }

  /** `iter_hebrew_numbers` yields exactly the listed words and, with
      inflections, the listed words with a leading ו. */
  lemma {:induction false} IterTableMembership(table: seq<(int, seq<string>)>, withHatayot: bool, w: string)
    ensures w in IterTable(table, withHatayot) <==>
              w in ListedWords(table)
              || (withHatayot && |w| >= 1 && w[0] == 'ו' && w[1..] in ListedWords(table))
  {
    if table != [] {
      IterWordsMembership(table[0].1, withHatayot, w);
      IterTableMembership(table[1..], withHatayot, w);
      if |w| >= 1 {
        assert w[1..] in ListedWords(table) <==> w[1..] in table[0].1 || w[1..] in ListedWords(table[1..]);
      }
    }
  }

  /** `iter_hebrew_numbers(with_hatayot)`. */
  function IterHebrewNumbers(withHatayot: bool): seq<string> {
    IterTable(NumbersToHebrewNumbers(), withHatayot)
  }

  /** Membership in a table's yields with inflections: a listed spelling,
      or one with a leading ו. */
  function IsWordIn(table: seq<(int, seq<string>)>, word: string): (r: bool)
    ensures r <==> word in ListedWords(table)
                   || (|word| >= 1 && word[0] == 'ו' && word[1..] in ListedWords(table))
  {
    IterTableMembership(table, true, word);
    word in IterTable(table, true)
  }

  /** `is_word_in_hebrew_numbers`. */
  function IsWordInHebrewNumbers(word: string): bool {
    IsWordIn(NumbersToHebrewNumbers(), word)
  }

  /** Python's `any` of the membership test over some pieces. */
  function AnyNumberWord(table: seq<(int, seq<string>)>, pieces: seq<string>): (r: bool)
    ensures r <==> exists i :: 0 <= i < |pieces| && IsWordIn(table, pieces[i])
  {
    if pieces == [] then false
    else IsWordIn(table, pieces[0]) || AnyNumberWord(table, pieces[1..])
  }

  /** The verse test over a table: some piece of `verse.split(' ')` is a
      number word. */
  function IsNumbersInVerseOf(table: seq<(int, seq<string>)>, verse: string): (r: bool)
    ensures r <==> exists p :: p in SplitOn(verse, ' ') && IsWordIn(table, p)
  {
    var pieces := SplitOn(verse, ' ');
    assert forall p :: p in pieces <==> exists i :: 0 <= i < |pieces| && pieces[i] == p;
    AnyNumberWord(table, pieces)
  }

  /** `is_numbers_in_verse`. */
  function IsNumbersInVerse(verse: string): bool {
    IsNumbersInVerseOf(NumbersToHebrewNumbers(), verse)
  }

  /** A verse that is one listed word with a leading ו is recognised. */
  lemma VavWordRecognised(table: seq<(int, seq<string>)>, w: string)
    requires w in ListedWords(table)
    requires ' ' !in w
    ensures IsNumbersInVerseOf(table, "ו" + w)
  {
    var v := "ו" + w;
    assert ' ' !in v;
    assert v[1..] == w;
    SplitOnWithout(v, ' ');
  }
}
