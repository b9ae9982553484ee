/** Removing one leading conjugate letter together with the points attached to it. */
module ConjugateRemoval {
  import opened PyStr

  /** The points the removal pattern accepts after the letter:
      U+05B0 to U+05BC and U+05C1 to U+05C2. */
  predicate IsPointMark(c: char) {
    ('\U{05B0}' <= c <= '\U{05BC}') || ('\U{05C1}' <= c <= '\U{05C2}')
  }

  /** Length of the leading run of point marks. */
  function MarkRun(s: string): (n: nat)
    ensures n <= |s|
    ensures forall i :: 0 <= i < n ==> IsPointMark(s[i])
    ensures n == |s| || !IsPointMark(s[n])
  {
    if s == [] || !IsPointMark(s[0]) then 0 else 1 + MarkRun(s[1..])
  }

  /** The anchored substitution `^letter[marks]*` -> "": when `token` starts
      with `letter`, drop it and the maximal run of marks after it; otherwise
      return `token` unchanged. The result is always a suffix of `token`. */
  function RemoveConjugateLetter(token: string, letter: string): (r: string)
    ensures |r| <= |token| && r == token[|token| - |r|..]
    ensures !StartsWith(token, letter) ==> r == token
    ensures StartsWith(token, letter) ==>
              && |r| <= |token| - |letter|
              && (forall i :: |letter| <= i < |token| - |r| ==> IsPointMark(token[i]))
              && (r == [] || !IsPointMark(r[0]))
  {
    if StartsWith(token, letter) then token[|letter| + MarkRun(token[|letter|..])..] else token
  }

  /** At most one letter goes: a token starting with the letter twice keeps the second. */
  lemma RemovesOnlyOne(token: string, letter: string)
    requires letter != [] && !IsPointMark(letter[0])
    requires StartsWith(token, letter + letter)
    ensures RemoveConjugateLetter(token, letter) == token[|letter|..]
  {
    assert token[..|letter|] == (letter + letter)[..|letter|] == letter;
    assert token[|letter|] == letter[0];
  }

  /** The example the source checks: "and thirty" written with the vav, a
      dagesh and a sheva gives "thirty". */
  lemma RemoveVavExample()
    ensures RemoveConjugateLetter("וְּשְׁלוֹשִׁים", "ו") == "שְׁלוֹשִׁים"
  {
    var token := "וְּשְׁלוֹשִׁים";
    assert StartsWith(token, "ו");
    var t := token[1..];
    assert t[0] == '\U{05BC}' && t[1..][0] == '\U{05B0}';
    assert t[1..][1..] == t[2..];
    assert t[2..][0] == 'ש';
    assert MarkRun(t) == 2;
    assert token[3..] == "שְׁלוֹשִׁים";
  }

}
