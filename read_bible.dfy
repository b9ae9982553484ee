/** Cleaning the text of a verse read from the HTML edition of the Bible. */
module ReadBible {
  import opened PyStr

  /** The 27 letters from alef to tav, final forms included. */
  predicate IsLetter(c: char) {
    'א' <= c <= 'ת'
  }

  /** What survives cleaning: a letter or a plain space. */
  predicate Kept(c: char) {
    IsLetter(c) || c == ' '
  }

  predicate NoLetters(s: string) {
    forall i :: 0 <= i < |s| ==> !IsLetter(s[i])
  }

  /** The substrings replaced by one space, in this order: hyphen, newline,
      carriage return, tab, the Hebrew maqaf (U+05BE) and a double space. */
  const REPLACED_BY_SPACE: seq<string> := ["-", "\n", "\r", "\t", "\U{05BE}", "  "]

  /** The letters of `s`, in order. */
  function Letters(s: string): string
  {
    if s == [] then [] else (if IsLetter(s[0]) then [s[0]] else []) + Letters(s[1..])
  }

  lemma {:induction false} LettersAppend(s: string, t: string)
    ensures Letters(s + t) == Letters(s) + Letters(t)
  {
    if s == [] {
      assert s + t == t;
    } else {
      var h := if IsLetter(s[0]) then [s[0]] else [];
      assert (s + t)[0] == s[0];
      assert (s + t)[1..] == s[1..] + t;
      assert Letters(s + t) == h + Letters(s[1..] + t);
      LettersAppend(s[1..], t);
      assert Letters(s) == h + Letters(s[1..]);
    }
  }

  lemma {:induction false} LettersOfNoLetters(s: string)
    requires NoLetters(s)
    ensures Letters(s) == []
  {
    if s != [] {
      LettersOfNoLetters(s[1..]);
    }
  }

  /** The list comprehension keeping letters and spaces. */
  function KeepLettersAndSpaces(s: string): (r: string)
    ensures |r| <= |s|
    ensures forall i :: 0 <= i < |r| ==> Kept(r[i])
  {
    if s == [] then [] else (if Kept(s[0]) then [s[0]] else []) + KeepLettersAndSpaces(s[1..])
  }

  /** Filtering drops no letter and reorders nothing. */
  lemma {:induction false} KeepPreservesLetters(s: string)
    ensures Letters(KeepLettersAndSpaces(s)) == Letters(s)
  {
    if s != [] {
      var h := if Kept(s[0]) then [s[0]] else [];
      KeepPreservesLetters(s[1..]);
      LettersAppend(h, KeepLettersAndSpaces(s[1..]));
      if Kept(s[0]) {
        assert h[1..] == [];
      } else {
        assert h == [];
      }
    }
  }

  /** Text made only of letters and spaces passes the filter unchanged. */
  lemma {:induction false} KeepOfKept(s: string)
    requires forall i :: 0 <= i < |s| ==> Kept(s[i])
    ensures KeepLettersAndSpaces(s) == s
  {
    if s != [] {
      KeepOfKept(s[1..]);
    }
  }

  lemma SpacesHoldNoLetters(s: string)
    requires forall i :: 0 <= i < |s| ==> IsSpace(s[i])
    ensures NoLetters(s)
  {
  }

  /** Every replaced substring is non-empty and letter-free. */
  lemma ReplacedHoldNoLetters()
    ensures forall p :: p in REPLACED_BY_SPACE ==> p != [] && NoLetters(p)
  {
  }

  /** Whitespace holds no letters, so stripping keeps every letter. */
  lemma StripKeepsLetters(s: string)
    ensures Letters(Strip(s)) == Letters(s)
    ensures |Strip(s)| <= |s|
  {
    var r := Strip(s);
    var a :| TrimmedAt(s, r, a);
    var pre, post := s[..a], s[a + |r|..];
    assert s == pre + r + post;
    SpacesHoldNoLetters(pre);
    SpacesHoldNoLetters(post);
    LettersOfNoLetters(pre);
    LettersOfNoLetters(post);
    LettersAppend(pre + r, post);
    LettersAppend(pre, r);
  }

  /** Replacing a letter-free pattern by a letter-free text keeps the letters. */
  lemma {:induction false} ReplaceKeepsLetters(s: string, pat: string, rep: string)
    requires pat != [] && NoLetters(pat) && NoLetters(rep)
    ensures Letters(Replace(s, pat, rep)) == Letters(s)
    decreases |s|
  {
    LettersOfNoLetters(rep);
    if |s| < |pat| {
    } else if s[..|pat|] == pat {
      var rest := s[|pat|..];
      assert s == pat + rest;
      ReplaceKeepsLetters(rest, pat, rep);
      LettersAppend(rep, Replace(rest, pat, rep));
      LettersAppend(pat, rest);
      LettersOfNoLetters(pat);
    } else {
      ReplaceKeepsLetters(s[1..], pat, rep);
      var h := [s[0]];
      assert s == h + s[1..];
      LettersAppend(h, Replace(s[1..], pat, rep));
      LettersAppend(h, s[1..]);
    }
  }

  /** The replacements applied in order, each over the whole text. */
  function ReplaceEach(s: string, pats: seq<string>): string
    decreases |pats|
  {
    if pats == [] then s else Replace(ReplaceEach(s, pats[..|pats| - 1]), pats[|pats| - 1], " ")
  }

  /** One more replacement on top of the first `i`. */
  lemma ReplaceEachStep(s: string, pats: seq<string>, i: nat)
    requires i < |pats|
    ensures ReplaceEach(s, pats[..i + 1]) == Replace(ReplaceEach(s, pats[..i]), pats[i], " ")
  {
    assert pats[..i + 1][..i] == pats[..i];
  }

  /** `clean_text` as a value: strip, replace, then filter. */
  function Cleaned(s: string): string
  {
    KeepLettersAndSpaces(ReplaceEach(Strip(s), REPLACED_BY_SPACE))
  }

  /** `clean_text`: the result is `Cleaned(s)`, holds only letters and spaces,
      keeps every letter of `s` in order, and is no longer than `s`. */
  method CleanText(s: string) returns (r: string)
    ensures r == Cleaned(s)
    ensures forall i :: 0 <= i < |r| ==> Kept(r[i])
    ensures Letters(r) == Letters(s)
    ensures |r| <= |s|
  {
    r := Strip(s);
    StripKeepsLetters(s);
    ReplacedHoldNoLetters();
    for i := 0 to |REPLACED_BY_SPACE|
      invariant r == ReplaceEach(Strip(s), REPLACED_BY_SPACE[..i])
      invariant Letters(r) == Letters(s)
      invariant |r| <= |s|
    {
      var pat := REPLACED_BY_SPACE[i];
      assert pat in REPLACED_BY_SPACE;
      ReplaceKeepsLetters(r, pat, " ");
      ReplaceNotLonger(r, pat, " ");
      ReplaceEachStep(Strip(s), REPLACED_BY_SPACE, i);
      r := Replace(r, pat, " ");
    }
    assert REPLACED_BY_SPACE[..|REPLACED_BY_SPACE|] == REPLACED_BY_SPACE;
    KeepPreservesLetters(r);
    r := KeepLettersAndSpaces(r);
  }

  /** Text made only of letters is a fixed point of cleaning. */
  lemma CleanedOfClean(s: string)
    requires forall i :: 0 <= i < |s| ==> IsLetter(s[i])
    ensures Cleaned(s) == s
  {
    CleanedOfCleanForm(s);
  }

  lemma {:induction false} ReplaceNoMatch(s: string, pat: string, rep: string)
    requires forall i :: 0 <= i < |s| ==> IsLetter(s[i])
    requires pat != [] && NoLetters(pat)
    ensures Replace(s, pat, rep) == s
    decreases |s|
  {
    if |s| >= |pat| {
      assert s[..|pat|][0] == s[0];
      ReplaceNoMatch(s[1..], pat, rep);
    }
  }

  /** Text in the form cleaning produces: letters and single inner spaces,
      no space at either end. */
  predicate CleanForm(s: string) {
    && (forall i :: 0 <= i < |s| ==> Kept(s[i]))
    && (s != [] ==> IsLetter(s[0]) && IsLetter(s[|s| - 1]))
    && (forall i :: 0 < i < |s| ==> s[i - 1] != ' ' || s[i] != ' ')
  }

  /** Trimmed text of letters and single spaces is a fixed point of cleaning. */
  lemma CleanedOfCleanForm(s: string)
    requires CleanForm(s)
    ensures Cleaned(s) == s
  {
    StripLetterEnds(s);
    KeptSteps(s, |REPLACED_BY_SPACE|);
    assert REPLACED_BY_SPACE[..|REPLACED_BY_SPACE|] == REPLACED_BY_SPACE;
    KeepOfKept(s);
  }

  lemma {:induction false} KeptSteps(s: string, k: nat)
    requires CleanForm(s)
    requires k <= |REPLACED_BY_SPACE|
    ensures ReplaceEach(s, REPLACED_BY_SPACE[..k]) == s
  {
    if k > 0 {
      var m := k - 1;
      ReplaceEachStep(s, REPLACED_BY_SPACE, m);
      KeptSteps(s, m);
      KeptNoMatch(s, REPLACED_BY_SPACE[m]);
    }
  }

  /** Kept text without a double space holds none of the replaced substrings. */
  lemma {:induction false} KeptNoMatch(s: string, pat: string)
    requires forall i :: 0 <= i < |s| ==> Kept(s[i])
    requires forall i :: 0 < i < |s| ==> s[i - 1] != ' ' || s[i] != ' '
    requires pat in REPLACED_BY_SPACE
    ensures Replace(s, pat, " ") == s
    decreases |s|
  {
    if |s| >= |pat| {
      assert s[..|pat|][0] == s[0];
      if |pat| == 2 {
        assert s[..|pat|][1] == s[1];
      }
      KeptNoMatch(s[1..], pat);
    }
  }

  /** A separator between two words becomes one space. */
  lemma SeparatorBecomesSpace(a: string, b: string, p: string)
    requires p in REPLACED_BY_SPACE[..5]
    requires a != [] && forall i :: 0 <= i < |a| ==> IsLetter(a[i])
    requires b != [] && forall i :: 0 <= i < |b| ==> IsLetter(b[i])
    ensures Cleaned(a + p + b) == a + " " + b
  {
    var c := p[0];
    assert p == [c];
    var t := a + [c] + b;
    assert t[0] == a[0] && t[|t| - 1] == b[|b| - 1];
    StripLetterEnds(t);
    SeparatorSteps(a, c, b, |REPLACED_BY_SPACE|);
    assert REPLACED_BY_SPACE[..|REPLACED_BY_SPACE|] == REPLACED_BY_SPACE;
    assert [c] in REPLACED_BY_SPACE;
    KeepSpaced(a, b);
  }

  /** Text that starts and ends with a letter is its own strip. */
  lemma StripLetterEnds(s: string)
    requires s != [] ==> IsLetter(s[0]) && IsLetter(s[|s| - 1])
    ensures Strip(s) == s
  {
    var a :| TrimmedAt(s, Strip(s), a);
    if s != [] {
      assert !IsSpace(s[0]) && !IsSpace(s[|s| - 1]);
    }
  }

  lemma KeepSpaced(a: string, b: string)
    requires forall i :: 0 <= i < |a| ==> IsLetter(a[i])
    requires forall i :: 0 <= i < |b| ==> IsLetter(b[i])
    ensures KeepLettersAndSpaces(a + " " + b) == a + " " + b
  {
    KeptAppend(a, " ");
    KeptAppend(a + " ", b);
    KeepOfKept(a + " " + b);
  }

  lemma KeptAppend(x: string, y: string)
    requires forall i :: 0 <= i < |x| ==> Kept(x[i])
    requires forall i :: 0 <= i < |y| ==> Kept(y[i])
    ensures forall i :: 0 <= i < |x + y| ==> Kept((x + y)[i])
  {
  }

  lemma {:induction false} SeparatorSteps(a: string, c: char, b: string, k: nat)
    requires [c] in REPLACED_BY_SPACE[..5]
    requires forall i :: 0 <= i < |a| ==> IsLetter(a[i])
    requires b != [] && forall i :: 0 <= i < |b| ==> IsLetter(b[i])
    requires k <= |REPLACED_BY_SPACE|
    ensures ReplaceEach(a + [c] + b, REPLACED_BY_SPACE[..k])
         == a + [if [c] in REPLACED_BY_SPACE[..k] then ' ' else c] + b
  {
    if k > 0 {
      var m := k - 1;
      assert REPLACED_BY_SPACE[..k] == REPLACED_BY_SPACE[..m] + [REPLACED_BY_SPACE[m]];
      ReplaceEachStep(a + [c] + b, REPLACED_BY_SPACE, m);
      SeparatorSteps(a, c, b, m);
      var d := if [c] in REPLACED_BY_SPACE[..m] then ' ' else c;
      ReplacedHoldNoLetters();
      assert REPLACED_BY_SPACE[m] in REPLACED_BY_SPACE;
      ReplaceMidChar(a, d, b, REPLACED_BY_SPACE[m]);
    }
  }

  /** Replacing inside letters, one character `d`, letters: only `d` can match. */
  lemma ReplaceMidChar(a: string, d: char, b: string, pat: string)
    requires forall i :: 0 <= i < |a| ==> IsLetter(a[i])
    requires b != [] && forall i :: 0 <= i < |b| ==> IsLetter(b[i])
    requires pat != [] && NoLetters(pat)
    ensures Replace(a + [d] + b, pat, " ") == a + (if pat == [d] then " " else [d]) + b
  {
    var u := [d] + b;
    var mid := if pat == [d] then " " else [d];
    ConcatAssoc(a, [d], b);
    ReplacePrefixLetters(a, u, pat, " ");
    ReplaceCharThenLetters(d, b, pat);
    ConcatAssoc(a, mid, b);
  }

  /** One character `d` followed by letters: only `d` can match. */
  lemma ReplaceCharThenLetters(d: char, b: string, pat: string)
    requires b != [] && forall i :: 0 <= i < |b| ==> IsLetter(b[i])
    requires pat != [] && NoLetters(pat)
    ensures Replace([d] + b, pat, " ") == (if pat == [d] then " " else [d]) + b
  {
    var u := [d] + b;
    assert u[0] == d && u[1..] == b;
    ReplaceNoMatch(b, pat, " ");
    if |u| < |pat| {
      assert pat != [d];
    } else if |pat| == 1 {
      assert u[..|pat|] == [d];
    } else {
      assert u[..|pat|][1] == b[0];
      assert u[..|pat|] != pat;
    }
  }

  /** A run of letters in front passes through a replacement untouched. */
  lemma {:induction false} ReplacePrefixLetters(a: string, x: string, pat: string, rep: string)
    requires forall i :: 0 <= i < |a| ==> IsLetter(a[i])
    requires pat != [] && NoLetters(pat)
    ensures Replace(a + x, pat, rep) == a + Replace(x, pat, rep)
    decreases |a|
  {
    if a != [] {
      var s := a + x;
      assert s[0] == a[0];
      assert s[1..] == a[1..] + x;
      if |s| >= |pat| {
        assert s[..|pat|][0] == a[0];
        assert s[..|pat|] != pat;
        assert Replace(s, pat, rep) == [a[0]] + Replace(a[1..] + x, pat, rep);
        ReplacePrefixLetters(a[1..], x, pat, rep);
        ConcatAssoc([a[0]], a[1..], Replace(x, pat, rep));
        assert [a[0]] + a[1..] == a;
      } else {
        assert |x| < |pat|;
      }
    } else {
      assert a + x == x;
      assert a + Replace(x, pat, rep) == Replace(x, pat, rep);
    }
  }

  lemma ConcatAssoc(a: string, m: string, b: string)
    ensures a + (m + b) == a + m + b
  {
  }
}
