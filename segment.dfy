/** The two-part accumulator shared by both numeral readers: the running
    value of the current segment and the list of parts it is made of.
    `add_number` and `multiply_last`, closures over that state in the source,
    take and return it explicitly here. */
module SegmentAccumulator {

  datatype Accumulator = Accumulator(currentSegment: int, segmentParts: seq<int>)

  /** The state before the first token. */
  const Initial := Accumulator(0, [])

  function Sum(s: seq<int>): int
  {
    if s == [] then 0 else Sum(s[..|s| - 1]) + s[|s| - 1]
  }

  /** The segment value is the sum of its parts, and every part is positive
      (all lexicon values and factors are). */
  predicate Consistent(acc: Accumulator) {
    && acc.currentSegment == Sum(acc.segmentParts)
    && forall i :: 0 <= i < |acc.segmentParts| ==> acc.segmentParts[i] > 0
  }

  lemma SumNonNegative(s: seq<int>)
    requires forall i :: 0 <= i < |s| ==> s[i] > 0
    ensures Sum(s) >= 0
    ensures s != [] ==> Sum(s) > 0
  {
    if s != [] {
      SumNonNegative(s[..|s| - 1]);
    }
  }

  /** `current_segment += v; segment_parts.append(v)`. */
  function AppendPart(acc: Accumulator, v: int): (r: Accumulator)
    ensures r.segmentParts == acc.segmentParts + [v]
    ensures acc.currentSegment == Sum(acc.segmentParts) ==> r.currentSegment == Sum(r.segmentParts)
    ensures Consistent(acc) && v > 0 ==> Consistent(r)
  {
    assert (acc.segmentParts + [v])[..|acc.segmentParts|] == acc.segmentParts;
    Accumulator(acc.currentSegment + v, acc.segmentParts + [v])
  }

  /** `add_number`: with a conjunction, append; without one, start a new
      segment `[num]` when the segment value is 0, else append. On a
      consistent state a zero segment has no parts, so both ways append. */
  function AddNumber(acc: Accumulator, num: int, isConjunction: bool): (r: Accumulator)
    ensures acc.currentSegment == Sum(acc.segmentParts) ==> r.currentSegment == Sum(r.segmentParts)
    ensures Consistent(acc) && num > 0 ==> r == AppendPart(acc, num) && Consistent(r)
  {
    if isConjunction then AppendPart(acc, num)
    else if acc.currentSegment == 0 then
      assert [num][..0] == [];
      assert Consistent(acc) ==> acc.segmentParts == [] by {
        if Consistent(acc) {
          SumNonNegative(acc.segmentParts);
        }
      }
      Accumulator(num, [num])
    else AppendPart(acc, num)
  }

  /** `multiply_last`: scale only the last part by `factor`, adjusting the
      segment value by the difference; with no parts, `factor` becomes the
      first part. */
  function MultiplyLast(acc: Accumulator, factor: int): (r: Accumulator)
    ensures acc.segmentParts == [] ==>
              r.segmentParts == [factor] && r.currentSegment == acc.currentSegment + factor
    ensures acc.segmentParts != [] ==>
              var n := |acc.segmentParts|;
              && |r.segmentParts| == n
              && r.segmentParts[..n - 1] == acc.segmentParts[..n - 1]
              && r.segmentParts[n - 1] == acc.segmentParts[n - 1] * factor
    ensures acc.currentSegment == Sum(acc.segmentParts) ==> r.currentSegment == Sum(r.segmentParts)
    ensures Consistent(acc) && factor > 0 ==> Consistent(r)
  {
    if acc.segmentParts == [] then AppendPart(acc, factor)
    else
      var n := |acc.segmentParts|;
      var last := acc.segmentParts[n - 1];
      var rest := acc.segmentParts[..n - 1];
      var newVal := last * factor;
      assert (rest + [newVal])[..n - 1] == rest;
      assert forall i :: 0 <= i < n - 1 ==> (rest + [newVal])[i] == acc.segmentParts[i];
      Accumulator(acc.currentSegment - last + newVal, rest + [newVal])
  }

  /** The word tables one reader consults, after prefix stripping: words to
      skip, units and tens, hundreds, and plural or thousand multipliers. */
  datatype Lexicon = Lexicon(
    skip: set<string>,
    unitsAndTens: map<string, int>,
    hundreds: map<string, int>,
    allPlural: map<string, int>)

  predicate PositiveValues(lex: Lexicon) {
    && (forall w :: w in lex.unitsAndTens ==> lex.unitsAndTens[w] > 0)
    && (forall w :: w in lex.hundreds ==> lex.hundreds[w] > 0)
    && (forall w :: w in lex.allPlural ==> lex.allPlural[w] > 0)
  }

  predicate Recognised(lex: Lexicon, token: string) {
    token in lex.unitsAndTens || token in lex.hundreds || token in lex.allPlural
  }

  /** The body of the token loop once the token is stripped: skip words and
      unknown words change nothing; units and tens go through `add_number`;
      hundreds append with a conjunction, otherwise a hundred multiplies the
      last part and any other hundred appends 200; multipliers append with a
      conjunction and otherwise go through `multiply_last`. */
  function Dispatch(lex: Lexicon, acc: Accumulator, token: string, isConjunction: bool): (r: Accumulator)
    ensures PositiveValues(lex) && Consistent(acc) ==> Consistent(r)
    ensures token in lex.skip || !Recognised(lex, token) ==> r == acc
  {
    if token in lex.skip then acc
    else if token in lex.unitsAndTens then AddNumber(acc, lex.unitsAndTens[token], isConjunction)
    else if token in lex.hundreds then
      var val := lex.hundreds[token];
      if isConjunction then AppendPart(acc, val)
      else if val == 100 then MultiplyLast(acc, 100)
      else if |acc.segmentParts| == 1 && acc.segmentParts[0] != 0 then AppendPart(acc, 200)
      else AppendPart(acc, 200)
    else if token in lex.allPlural then
      var value := lex.allPlural[token];
      if isConjunction then AppendPart(acc, value) else MultiplyLast(acc, value)
    else acc
  }

  /** The branches of the token loop, in the source's order, each ending
      the iteration as its `continue` does. */
  method DispatchToken(lex: Lexicon, acc: Accumulator, token: string, isConjunction: bool) returns (r: Accumulator)
    ensures r == Dispatch(lex, acc, token, isConjunction)
  {
    r := acc;
    if token in lex.skip {
      return;
    }
    if token in lex.unitsAndTens {
      r := AddNumber(acc, lex.unitsAndTens[token], isConjunction);
      return;
    }
    if token in lex.hundreds {
      var val := lex.hundreds[token];
      if isConjunction {
        r := AppendPart(acc, val);
      } else if val == 100 {
        r := MultiplyLast(acc, 100);
      } else if |acc.segmentParts| == 1 && acc.segmentParts[0] != 0 {
        r := AppendPart(acc, 200);
      } else {
        r := AppendPart(acc, 200);
      }
      return;
    }
    if token in lex.allPlural {
      var value := lex.allPlural[token];
      if isConjunction {
        r := AppendPart(acc, value);
      } else {
        r := MultiplyLast(acc, value);
      }
      return;
    }
  }

  /** A hundred-word other than 100 without a conjunction always appends 200:
      the two branches the source distinguishes do the same. */
  lemma TwoHundredAppends(lex: Lexicon, acc: Accumulator, token: string)
    requires token !in lex.skip && token !in lex.unitsAndTens && token in lex.hundreds
    requires lex.hundreds[token] != 100
    ensures Dispatch(lex, acc, token, false) == AppendPart(acc, 200)
  {
  }

  /** A multiplier with a conjunction is appended as a new part; without one
      it rescales only the last part. */
  lemma PluralBehaviour(lex: Lexicon, acc: Accumulator, token: string)
    requires token !in lex.skip && token !in lex.unitsAndTens && token !in lex.hundreds
    requires token in lex.allPlural
    ensures Dispatch(lex, acc, token, true).segmentParts == acc.segmentParts + [lex.allPlural[token]]
    ensures acc.segmentParts != [] ==>
              var n := |acc.segmentParts|;
              Dispatch(lex, acc, token, false).segmentParts ==
                acc.segmentParts[..n - 1] + [acc.segmentParts[n - 1] * lex.allPlural[token]]
  {
    var r := Dispatch(lex, acc, token, false);
    if acc.segmentParts != [] {
      var n := |acc.segmentParts|;
      assert r.segmentParts == r.segmentParts[..n - 1] + [r.segmentParts[n - 1]];
    }
  }
}
