/** Consistency checks over the numerals found in a verse. */
module CheckResults {
  import opened PyStr
  import opened BibleTypes
  import opened ReadBible

  /** The cleaned quotations of the numerals, in order. */
  function CleanedQuotes(nhs: seq<NumericHebrew>): (r: seq<string>)
    ensures |r| == |nhs| && forall k :: 0 <= k < |nhs| ==> r[k] == Cleaned(nhs[k].quote)
  {
    seq(|nhs|, k requires 0 <= k < |nhs| => Cleaned(nhs[k].quote))
  }

  /** `check_multi_match`: every cleaned quotation occurs exactly once in the
      verse, occurrences counted as `str.count` does; vacuously so for no
      numerals. */
  function CheckMultiMatch(v: Verse, nhs: seq<NumericHebrew>): (r: bool)
    ensures r <==> forall k :: 0 <= k < |nhs| ==> Count(v.text, Cleaned(nhs[k].quote)) == 1
    ensures nhs == [] ==> r
  {
    if nhs == [] then true
    else if Count(v.text, Cleaned(nhs[0].quote)) != 1 then false
    else
      assert forall k :: 1 <= k < |nhs| ==> nhs[k] == nhs[1..][k - 1];
      CheckMultiMatch(v, nhs[1..])
  }

  /** Occurring exactly once: a first occurrence, and none in the text after it. */
  lemma CountOnce(text: string, q: string)
    requires q != []
    ensures Count(text, q) == 1 <==>
              Contains(text, q) && !Contains(text[Find(text, q, 0) + |q|..], q)
  {
    FindFromZero(text, q);
  }

  /** In a non-empty verse that passes, every cleaned quotation is non-empty
      and occurs in the verse. */
  lemma MultiMatchOccurs(v: Verse, nhs: seq<NumericHebrew>, k: nat)
    requires CheckMultiMatch(v, nhs) && v.text != [] && k < |nhs|
    ensures Cleaned(nhs[k].quote) != [] && Contains(v.text, Cleaned(nhs[k].quote))
  {
    assert Count(v.text, Cleaned(nhs[k].quote)) == 1;
  }

  /** numpy's normalisation of a slice bound against a length `n`: negative
      bounds count from the end, and both sides are clipped to `[0, n]`. */
  function SliceBound(i: int, n: nat): (r: nat)
    ensures r <= n
    ensures 0 <= i <= n ==> r == i
    ensures i < 0 && -i <= n ==> r == n + i
    ensures i + n < 0 ==> r == 0
    ensures i > n ==> r == n
  {
    if i < 0 then (if i + n < 0 then 0 else i + n) else if i > n then n else i
  }

  /** Position `c` lies in `coverage[start:start + len(q)]`, where `start` is
      `text.find(q)` (possibly -1, which numpy reads from the end). */
  predicate InSlice(text: string, q: string, c: int) {
    var start := Find(text, q, 0);
    SliceBound(start, |text|) <= c < SliceBound(start + |q|, |text|)
  }

  /** How many quotations' slices hold position `c`. */
  function CoverCount(text: string, quotes: seq<string>, c: int): nat
  {
    if quotes == [] then 0
    else CoverCount(text, quotes[..|quotes| - 1], c) + (if InSlice(text, quotes[|quotes| - 1], c) then 1 else 0)
  }

  /** No position of the verse is counted twice. */
  predicate NoDoubleCoverage(text: string, quotes: seq<string>) {
    forall c :: 0 <= c < |text| ==> CoverCount(text, quotes, c) <= 1
  }

  /** `cov` holds, position by position, how many of `quotes` cover it. */
  predicate CountsCoverage(cov: seq<nat>, text: string, quotes: seq<string>) {
    |cov| == |text| && forall d :: 0 <= d < |text| ==> cov[d] == CoverCount(text, quotes, d)
  }

  /** One more quotation adds one to the count of each position of its slice. */
  lemma CoverCountStep(text: string, quotes: seq<string>, k: nat, d: int)
    requires k < |quotes|
    ensures CoverCount(text, quotes[..k + 1], d) ==
              CoverCount(text, quotes[..k], d) + (if InSlice(text, quotes[k], d) then 1 else 0)
  {
    assert quotes[..k + 1][..k] == quotes[..k];
  }

  /** `coverage[lo:hi] += 1`. */
  method AddOne(coverage: array<nat>, lo: nat, hi: nat)
    requires hi <= coverage.Length
    modifies coverage
    ensures forall d :: 0 <= d < coverage.Length ==> coverage[d] == old(coverage[d]) + (if lo <= d < hi then 1 else 0)
  {
    var c := lo;
    while c < hi
      invariant c == lo || lo <= c <= hi
      invariant forall d :: 0 <= d < coverage.Length ==> coverage[d] == old(coverage[d]) + (if lo <= d < c then 1 else 0)
    {
      coverage[c] := coverage[c] + 1;
      c := c + 1;
    }
  }

  /** One quotation's turn in the counting loop: `coverage` held the counts
      of the quotations before `k`, and now holds those up to `k`. */
  method AddQuote(text: string, ghost quotes: seq<string>, k: nat, quote: string, coverage: array<nat>)
    requires k < |quotes| && quote == quotes[k] && coverage.Length == |text|
    requires CountsCoverage(coverage[..], text, quotes[..k])
    modifies coverage
    ensures CountsCoverage(coverage[..], text, quotes[..k + 1])
  {
    var start := Find(text, quote, 0);
    var end := start + |quote|;
    AddOne(coverage, SliceBound(start, |text|), SliceBound(end, |text|));
    forall d | 0 <= d < |text|
      ensures coverage[d] == CoverCount(text, quotes[..k + 1], d)
    {
      CoverCountStep(text, quotes, k, d);
    }
  }

  /** The counting loop of `check_overlapping_matches`: each cleaned
      quotation adds one over the slice starting at its first occurrence. */
  method CountCoverage(text: string, nhs: seq<NumericHebrew>) returns (coverage: array<nat>)
    ensures fresh(coverage) && coverage.Length == |text|
    ensures forall d :: 0 <= d < |text| ==> coverage[d] == CoverCount(text, CleanedQuotes(nhs), d)
  {
    ghost var quotes := CleanedQuotes(nhs);
    coverage := new nat[|text|](_ => 0);
    for k := 0 to |nhs|
      invariant coverage.Length == |text|
      invariant CountsCoverage(coverage[..], text, quotes[..k])
    {
      var quote := CleanText(nhs[k].quote);
      AddQuote(text, quotes, k, quote, coverage);
    }
    assert quotes[..|nhs|] == quotes;
    assert CountsCoverage(coverage[..], text, quotes);
  }

  /** The acceptance test: no count above one. */
  method AllAtMostOne(coverage: array<nat>) returns (r: bool)
    ensures r <==> forall d :: 0 <= d < coverage.Length ==> coverage[d] <= 1
  {
    for c := 0 to coverage.Length
      invariant forall d :: 0 <= d < c ==> coverage[d] <= 1
    {
      if coverage[c] > 1 {
        return false;
      }
    }
    return true;
  }

  /** `check_overlapping_matches`: place each cleaned quotation at its first
      occurrence, count how many placements cover each position, and accept
      when no count exceeds one. */
  method CheckOverlappingMatches(v: Verse, nhs: seq<NumericHebrew>) returns (r: bool)
    ensures r == NoDoubleCoverage(v.text, CleanedQuotes(nhs))
  {
    var coverage := CountCoverage(v.text, nhs);
    r := AllAtMostOne(coverage);
  }

  /** A count above one is two distinct placements holding the position. */
  lemma {:induction false} CoverCountPairs(text: string, quotes: seq<string>, c: int)
    ensures CoverCount(text, quotes, c) <= 1 <==>
              forall k1, k2 :: 0 <= k1 < k2 < |quotes| ==> !(InSlice(text, quotes[k1], c) && InSlice(text, quotes[k2], c))
    decreases |quotes|
  {
    if quotes != [] {
      var init := quotes[..|quotes| - 1];
      CoverCountPairs(text, init, c);
      CoverCountZero(text, init, c);
      assert forall k :: 0 <= k < |init| ==> init[k] == quotes[k];
    }
  }

  /** A count of zero is no placement holding the position. */
  lemma {:induction false} CoverCountZero(text: string, quotes: seq<string>, c: int)
    ensures CoverCount(text, quotes, c) == 0 <==> forall k :: 0 <= k < |quotes| ==> !InSlice(text, quotes[k], c)
    decreases |quotes|
  {
    if quotes != [] {
      var init := quotes[..|quotes| - 1];
      CoverCountZero(text, init, c);
      assert forall k :: 0 <= k < |init| ==> init[k] == quotes[k];
    }
  }

  /** With no numerals the check passes. */
  lemma NoNumeralsPass(text: string)
    ensures NoDoubleCoverage(text, [])
  {
  }

  /** When every cleaned quotation occurs in the verse, the check passes
      exactly when the first occurrences, taken as spans, are pairwise
      disjoint. */
  lemma OverlapCheckIsDisjointness(text: string, quotes: seq<string>)
    requires forall k :: 0 <= k < |quotes| ==> Contains(text, quotes[k])
    ensures NoDoubleCoverage(text, quotes) <==>
              forall k1, k2 :: 0 <= k1 < k2 < |quotes| ==>
                !SpansOverlap(Find(text, quotes[k1], 0), |quotes[k1]|, Find(text, quotes[k2], 0), |quotes[k2]|)
  {
    forall k | 0 <= k < |quotes|
      ensures MatchAt(text, quotes[k], Find(text, quotes[k], 0))
      ensures forall c :: InSlice(text, quotes[k], c) <==>
                Find(text, quotes[k], 0) <= c < Find(text, quotes[k], 0) + |quotes[k]|
    {
      FindFromZero(text, quotes[k]);
    }
    forall c | 0 <= c < |text|
      ensures CoverCount(text, quotes, c) <= 1 <==>
                forall k1, k2 :: 0 <= k1 < k2 < |quotes| ==> !(InSlice(text, quotes[k1], c) && InSlice(text, quotes[k2], c))
    {
      CoverCountPairs(text, quotes, c);
    }
    if NoDoubleCoverage(text, quotes) {
      forall k1, k2 | 0 <= k1 < k2 < |quotes|
        ensures !SpansOverlap(Find(text, quotes[k1], 0), |quotes[k1]|, Find(text, quotes[k2], 0), |quotes[k2]|)
      {
        var i, j := Find(text, quotes[k1], 0), Find(text, quotes[k2], 0);
        var c := if i < j then j else i;
        assert 0 <= c < |text| ==> CoverCount(text, quotes, c) <= 1;
        assert 0 <= c < |text| ==> !(InSlice(text, quotes[k1], c) && InSlice(text, quotes[k2], c));
      }
    }
  }
}
