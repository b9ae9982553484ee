/** Matching a numeral reported by the language model back to a verse. */
module ChatGpt {
  import opened Wrappers
  import opened PyStr
  import opened BibleTypes
  import opened ReadBible

  /** The verse and the numeral name the same book, chapter and verse letter. */
  predicate SameLocation(v: Verse, nh: NumericHebrew) {
    v.book == nh.book && v.chapter == nh.chapter && v.letter == nh.letter
  }

  /** `check_match`: `Some(false)` for another location, `Some(true)` when the
      cleaned quotation occurs in the verse, and `None` (distinct from
      `false`) when the location agrees but the quotation does not occur. */
  function CheckMatch(v: Verse, nh: NumericHebrew): (r: Option<bool>)
    ensures r == Some(false) <==> !SameLocation(v, nh)
    ensures r == Some(true) <==> SameLocation(v, nh) && Contains(v.text, Cleaned(nh.quote))
    ensures r == None <==> SameLocation(v, nh) && !Contains(v.text, Cleaned(nh.quote))
  {
    if SameLocation(v, nh) then
      if Contains(v.text, Cleaned(nh.quote)) then Some(true) else None
    else
      Some(false)
  }

  /** Python truthiness of the result: only `True` counts as a match. */
  predicate Matches(v: Verse, nh: NumericHebrew) {
    CheckMatch(v, nh) == Some(true)
  }

  /** A quotation of plain letters copied from the verse it names matches it. */
  lemma QuoteFromVerseMatches(v: Verse, nh: NumericHebrew, i: nat)
    requires SameLocation(v, nh)
    requires forall k :: 0 <= k < |nh.quote| ==> IsLetter(nh.quote[k])
    requires MatchAt(v.text, nh.quote, i)
    ensures Matches(v, nh)
  {
    CleanedOfClean(nh.quote);
  }

  /** `get_matching_verse`: the first verse that matches, or `None`. */
  function GetMatchingVerse(verses: seq<Verse>, nh: NumericHebrew): (r: Option<Verse>)
    ensures r.None? <==> forall i :: 0 <= i < |verses| ==> !Matches(verses[i], nh)
    ensures r.Some? ==> exists i :: 0 <= i < |verses| && verses[i] == r.value && Matches(verses[i], nh)
                                    && forall j :: 0 <= j < i ==> !Matches(verses[j], nh)
  {
    if verses == [] then None
    else if Matches(verses[0], nh) then Some(verses[0])
    else
      var r := GetMatchingVerse(verses[1..], nh);
      assert forall i :: 1 <= i < |verses| ==> verses[i] == verses[1..][i - 1];
      r
  }

  /** The search over two lists of verses: the first list decides when it
      holds a match. */
  lemma {:induction false} GetMatchingVerseAppend(vs1: seq<Verse>, vs2: seq<Verse>, nh: NumericHebrew)
    ensures GetMatchingVerse(vs1 + vs2, nh) ==
              if GetMatchingVerse(vs1, nh).Some? then GetMatchingVerse(vs1, nh) else GetMatchingVerse(vs2, nh)
  {
    if vs1 == [] {
      assert vs1 + vs2 == vs2;
    } else {
      assert (vs1 + vs2)[0] == vs1[0];
      assert (vs1 + vs2)[1..] == vs1[1..] + vs2;
      if !Matches(vs1[0], nh) {
        GetMatchingVerseAppend(vs1[1..], vs2, nh);
      }
    }
  }

  /** The verse found has the numeral's location and holds its cleaned quotation. */
  lemma MatchingVerseHoldsQuote(verses: seq<Verse>, nh: NumericHebrew)
    requires GetMatchingVerse(verses, nh).Some?
    ensures SameLocation(GetMatchingVerse(verses, nh).value, nh)
    ensures Contains(GetMatchingVerse(verses, nh).value.text, Cleaned(nh.quote))
  {
    var i :| 0 <= i < |verses| && verses[i] == GetMatchingVerse(verses, nh).value && Matches(verses[i], nh);
  }
}
