/** Removing the vowel points and cantillation marks (niqqud) from Hebrew text. */
module NikudUtils {

  /** The marks the removal pattern covers: U+0590 to U+05C7. */
  predicate IsNikud(c: char) {
    '\U{0590}' <= c <= '\U{05C7}'
  }

  predicate NoNikud(s: string) {
    forall i :: 0 <= i < |s| ==> !IsNikud(s[i])
  }

  /** `s` with every mark deleted and every other character kept, in order. */
  function RemoveNikud(s: string): (r: string)
    ensures |r| <= |s|
    ensures NoNikud(r)
  {
    if s == [] then []
    else
      (if IsNikud(s[0]) then [] else [s[0]]) + RemoveNikud(s[1..])
  }

  /** Removal works character by character: it distributes over concatenation. */
  lemma {:induction false} RemoveNikudAppend(s: string, t: string)
    ensures RemoveNikud(s + t) == RemoveNikud(s) + RemoveNikud(t)
  {
    if s == [] {
      assert s + t == t;
    } else {
      var h := if IsNikud(s[0]) then [] else [s[0]];
      assert (s + t)[0] == s[0];
      assert (s + t)[1..] == s[1..] + t;
      assert RemoveNikud(s + t) == h + RemoveNikud(s[1..] + t);
      RemoveNikudAppend(s[1..], t);
      assert RemoveNikud(s) == h + RemoveNikud(s[1..]);
    }
  }

  /** Text without marks is left as it is. */
  lemma {:induction false} RemoveNikudOfPlain(s: string)
    requires NoNikud(s)
    ensures RemoveNikud(s) == s
  {
    if s != [] {
      RemoveNikudOfPlain(s[1..]);
    }
  }

  lemma RemoveNikudIdempotent(s: string)
    ensures RemoveNikud(RemoveNikud(s)) == RemoveNikud(s)
  {
    RemoveNikudOfPlain(RemoveNikud(s));
  }

  /** Only marks go: every other character, Hebrew letters included, keeps
      its number of occurrences. */
  lemma {:induction false} RemoveNikudKeepsOthers(s: string, c: char)
    requires !IsNikud(c)
    ensures multiset(RemoveNikud(s))[c] == multiset(s)[c]
  {
    if s != [] {
      assert s == [s[0]] + s[1..];
      RemoveNikudKeepsOthers(s[1..], c);
    }
  }

  predicate CompareWithoutNikud(s1: string, s2: string) {
    RemoveNikud(s1) == RemoveNikud(s2)
  }

  /** A pointed text and its unpointed form compare equal. */
  lemma CompareWithStripped(s: string)
    ensures CompareWithoutNikud(s, RemoveNikud(s))
  {
    RemoveNikudIdempotent(s);
  }

  /** Comparison without marks is an equivalence relation. */
  lemma CompareIsEquivalence(a: string, b: string, c: string)
    ensures CompareWithoutNikud(a, a)
    ensures CompareWithoutNikud(a, b) ==> CompareWithoutNikud(b, a)
    ensures CompareWithoutNikud(a, b) && CompareWithoutNikud(b, c) ==> CompareWithoutNikud(a, c)
  {
  }
}
