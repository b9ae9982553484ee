/** Gematria: the numeric value of Hebrew letters and of strings of them. */
module LettersToNum {
  import opened Wrappers

  const LETTERS_TO_NUM: map<char, nat> := map[
    'א' := 1, 'ב' := 2, 'ג' := 3, 'ד' := 4, 'ה' := 5, 'ו' := 6, 'ז' := 7, 'ח' := 8, 'ט' := 9,
    'י' := 10, 'כ' := 20, 'ל' := 30, 'מ' := 40, 'נ' := 50, 'ס' := 60, 'ע' := 70, 'פ' := 80, 'צ' := 90,
    'ק' := 100, 'ר' := 200, 'ש' := 300, 'ת' := 400
  ]

  /** The letters worth 10, 20, ..., 90, in order; the final forms between
      them are skipped. */
  const TENS := "יכלמנסעפצ"

  /** The five final letter forms, which the table leaves out. */
  predicate IsFinalForm(c: char) {
    c == 'ך' || c == 'ם' || c == 'ן' || c == 'ף' || c == 'ץ'
  }

  /** `table.get(c, None)`. */
  function Lookup(table: map<char, nat>, c: char): (r: Option<nat>)
    ensures r.Some? <==> c in table
    ensures r.Some? ==> r.value == table[c]
  {
    if c in table then Some(table[c]) else None
  }

  /** `convert_hebrew_letter_to_num`: the value of one letter, or `None` for
      anything outside the table. */
  function ConvertHebrewLetterToNum(c: char): (r: Option<nat>)
    ensures r.Some? <==> 'א' <= c <= 'ת' && !IsFinalForm(c)
    ensures 'א' <= c <= 'ט' ==> r == Some(c as int - 'א' as int + 1)
    ensures forall k :: 0 <= k < |TENS| && c == TENS[k] ==> r == Some(10 * (k + 1))
    ensures 'ק' <= c <= 'ת' ==> r == Some((c as int - 'צ' as int) * 100)
  {
    Lookup(LETTERS_TO_NUM, c)
  }

  /** The value of a string under `table`, read left to right: the sum of its
      letters' values, or the first character without a value (the
      `ValueError`). */
  function GematriaOf(table: map<char, nat>, s: string): (r: Result<nat, char>)
    ensures r.Success? <==> forall i :: 0 <= i < |s| ==> s[i] in table
    ensures r.Failure? ==> exists i :: 0 <= i < |s| && s[i] == r.error && s[i] !in table
                                       && forall j :: 0 <= j < i ==> s[j] in table
  {
    if s == [] then Success(0)
    else
      var init := s[..|s| - 1];
      var last := s[|s| - 1];
      assert forall i :: 0 <= i < |init| ==> init[i] == s[i];
      match GematriaOf(table, init)
      case Failure(c) => Failure(c)
      case Success(t) =>
        match Lookup(table, last)
        case None => Failure(last)
        case Some(v) => Success(t + v)
  }

  predicate HasValue(c: char) {
    ConvertHebrewLetterToNum(c).Some?
  }

  /** The value of a string of letters. */
  function Gematria(s: string): (r: Result<nat, char>)
    ensures r.Success? <==> forall i :: 0 <= i < |s| ==> HasValue(s[i])
    ensures r.Failure? ==> exists i :: 0 <= i < |s| && s[i] == r.error && !HasValue(s[i])
                                       && forall j :: 0 <= j < i ==> HasValue(s[j])
  {
    GematriaOf(LETTERS_TO_NUM, s)
  }

  /** The loop of `convert_hebrew_string_to_num` over any table: accumulate
      the total letter by letter and stop at the first character outside it. */
  method ConvertStringWith(table: map<char, nat>, s: string) returns (r: Result<nat, char>)
    ensures r == GematriaOf(table, s)
  {
    var total := 0;
    for i := 0 to |s|
      invariant GematriaOf(table, s[..i]) == Success(total)
    {
      assert s[..i + 1][..i] == s[..i];
      var num := Lookup(table, s[i]);
      if num.Some? {
        total := total + num.value;
      } else {
        return Failure(s[i]);
      }
    }
    assert s[..|s|] == s;
    return Success(total);
  }

  /** `convert_hebrew_string_to_num`. */
  method ConvertHebrewStringToNum(s: string) returns (r: Result<nat, char>)
    ensures r == Gematria(s)
  {
    r := ConvertStringWith(LETTERS_TO_NUM, s);
  }

  /** The value of a concatenation: the first failure wins, otherwise the values add. */
  lemma {:induction false} GematriaAppend(table: map<char, nat>, s: string, t: string)
    ensures GematriaOf(table, s).Failure? ==> GematriaOf(table, s + t) == GematriaOf(table, s)
    ensures GematriaOf(table, s).Success? && GematriaOf(table, t).Failure? ==>
              GematriaOf(table, s + t) == GematriaOf(table, t)
    ensures GematriaOf(table, s).Success? && GematriaOf(table, t).Success? ==>
              GematriaOf(table, s + t) == Success(GematriaOf(table, s).value + GematriaOf(table, t).value)
    decreases |t|
  {
    if t == [] {
      assert s + t == s;
    } else {
      var init := t[..|t| - 1];
      assert (s + t)[..|s + t| - 1] == s + init;
      assert (s + t)[|s + t| - 1] == t[|t| - 1];
      GematriaAppend(table, s, init);
    }
  }

  lemma GematriaSingle(table: map<char, nat>, c: char)
    ensures GematriaOf(table, [c]) == if c in table then Success(table[c]) else Failure(c)
  {
    assert [c][..0] == [];
  }

  /** Taking one valid letter out of a valid string lowers its value by that letter's value. */
  lemma GematriaRemoveOne(table: map<char, nat>, t1: string, c: char, t2: string)
    requires GematriaOf(table, t1 + [c] + t2).Success?
    ensures c in table && GematriaOf(table, t1 + t2).Success?
    ensures GematriaOf(table, t1 + [c] + t2).value == GematriaOf(table, t1 + t2).value + table[c]
  {
    GematriaSingle(table, c);
    GematriaAppend(table, t1, [c]);
    GematriaAppend(table, t1 + [c], t2);
    GematriaAppend(table, t1, t2);
  }

  /** Two strings with the same letters are valid together or not at all. */
  lemma SameLettersSameValidity(table: map<char, nat>, s: string, t: string)
    requires multiset(s) == multiset(t)
    ensures GematriaOf(table, s).Success? <==> GematriaOf(table, t).Success?
  {
    forall c ensures c in s <==> c in t {
      assert c in s <==> c in multiset(s);
      assert c in t <==> c in multiset(t);
    }
    if forall i :: 0 <= i < |s| ==> s[i] in table {
      forall i | 0 <= i < |t| ensures t[i] in table {
        assert t[i] in s;
      }
    }
    if forall i :: 0 <= i < |t| ==> t[i] in table {
      forall i | 0 <= i < |s| ensures s[i] in table {
        assert s[i] in t;
      }
    }
  }

  /** Removing the same letter from two strings with the same letters leaves
      strings with the same letters. */
  lemma RemoveSameLetter(init: string, c: char, t: string) returns (t1: string, t2: string)
    requires multiset(init + [c]) == multiset(t)
    ensures t == t1 + [c] + t2
    ensures multiset(init) == multiset(t1 + t2)
  {
    assert c in multiset(t) by {
      assert multiset(init + [c]) == multiset(init) + multiset{c};
    }
    var j :| 0 <= j < |t| && t[j] == c;
    t1, t2 := t[..j], t[j + 1..];
    SplitAround(t, j);
    assert multiset(init) == multiset(init + [c]) - multiset{c} by {
      assert multiset(init + [c]) == multiset(init) + multiset{c};
    }
  }

  /** Cutting one character out of a string, and what it leaves. */
  lemma SplitAround(t: string, j: nat)
    requires j < |t|
    ensures t == t[..j] + [t[j]] + t[j + 1..]
    ensures multiset(t[..j] + t[j + 1..]) == multiset(t) - multiset{t[j]}
  {
    var t1, t2 := t[..j], t[j + 1..];
    assert t == t1 + [t[j]] + t2;
    assert multiset(t) == multiset(t1) + multiset{t[j]} + multiset(t2);
    assert multiset(t1 + t2) == multiset(t1) + multiset(t2);
  }

  /** For valid strings the value does not depend on the order of the letters. */
  lemma {:induction false} GematriaPermutation(table: map<char, nat>, s: string, t: string)
    requires multiset(s) == multiset(t)
    ensures GematriaOf(table, s).Success? <==> GematriaOf(table, t).Success?
    ensures GematriaOf(table, s).Success? ==> GematriaOf(table, s).value == GematriaOf(table, t).value
    decreases |s|
  {
    SameLettersSameValidity(table, s, t);
    if s != [] && GematriaOf(table, s).Success? {
      var init, c := s[..|s| - 1], s[|s| - 1];
      assert s == init + [c];
      var t1, t2 := RemoveSameLetter(init, c, t);
      GematriaRemoveOne(table, init, c, []);
      GematriaRemoveOne(table, t1, c, t2);
      assert init + [] == init;
      assert init + [c] + [] == s;
      GematriaPermutation(table, init, t1 + t2);
    }
  }
}
