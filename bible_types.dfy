/** The verse and numeral records, the `Time` duration algebra, and the
    mapping of quotations and number keywords onto spans of a verse. */
module BibleTypes {
  import opened Wrappers
  import opened PyStr
  import Utils

  /** A verse: book name, chapter and verse letters, and the cleaned text. */
  datatype Verse = Verse(book: string, chapter: string, letter: string, text: string)

  /** The value a numeral phrase denotes (the float case is not modelled). */
  datatype Number = IntNumber(n: int) | TimeNumber(t: Time)

  /** One numeral found in a verse: its location, quotation, value and the
      counted entity. */
  datatype NumericHebrew = NumericHebrew(
    book: string, chapter: string, letter: string,
    quote: string, number: Number, entity: string)

  // ---------------------------------------------------------------------
  // Time
  // ---------------------------------------------------------------------

  /** A duration or a date: each of years, months and days may be absent. */
  datatype Time = Time(years: Option<int>, months: Option<int>, days: Option<int>, isDate: bool)

  predicate IsYearOnly(t: Time) {
    t.years.Some? && t.months.None? && t.days.None?
  }

  predicate IsMonthOnly(t: Time) {
    t.months.Some? && t.years.None? && t.days.None?
  }

  predicate IsDayOnly(t: Time) {
    t.days.Some? && t.years.None? && t.months.None?
  }

  /** At most one of the single-component predicates holds. */
  lemma OnlyPredicatesExclusive(t: Time)
    ensures !(IsYearOnly(t) && IsMonthOnly(t))
    ensures !(IsYearOnly(t) && IsDayOnly(t))
    ensures !(IsMonthOnly(t) && IsDayOnly(t))
  {
  }

  /** The right operand of an arithmetic operator or of `==`. */
  datatype Operand = OfTime(t: Time) | OfInt(n: int)

  /** The `ValueError("Invalid date")` raised when an integer cannot be lifted. */
  datatype TimeError = InvalidDate

  /** Zero in every component `t` has, absent elsewhere. */
  function ZeroLike(t: Time): Time {
    Time(if t.years.None? then None else Some(0),
         if t.months.None? then None else Some(0),
         if t.days.None? then None else Some(0),
         t.isDate)
  }

  /** `_convert_to_time`: a `Time` is taken as it is; 0 becomes zero in the
      components `self` has; another integer fills the one component of a
      single-component `self` and fails otherwise. */
  function ConvertToTime(self: Time, other: Operand): (r: Result<Time, TimeError>)
    ensures other.OfTime? ==> r == Success(other.t)
    ensures other == OfInt(0) ==>
              && r.Success?
              && (r.value.years.Some? <==> self.years.Some?)
              && (r.value.months.Some? <==> self.months.Some?)
              && (r.value.days.Some? <==> self.days.Some?)
              && (r.value.years.Some? ==> r.value.years.value == 0)
              && (r.value.months.Some? ==> r.value.months.value == 0)
              && (r.value.days.Some? ==> r.value.days.value == 0)
              && r.value.isDate == self.isDate
    ensures other.OfInt? && other.n != 0 ==>
              (r.Success? <==> IsYearOnly(self) || IsMonthOnly(self) || IsDayOnly(self))
    ensures other.OfInt? && other.n != 0 && r.Success? ==>
              && r.value.isDate == false
              && (r.value.years.Some? <==> IsYearOnly(self))
              && (r.value.months.Some? <==> IsMonthOnly(self))
              && (r.value.days.Some? <==> IsDayOnly(self))
              && (r.value.years.Some? ==> r.value.years.value == other.n)
              && (r.value.months.Some? ==> r.value.months.value == other.n)
              && (r.value.days.Some? ==> r.value.days.value == other.n)
  {
    match other
    case OfTime(t) => Success(t)
    case OfInt(n) =>
      if n == 0 then Success(ZeroLike(self))
      else if IsDayOnly(self) then Success(Time(None, None, Some(n), false))
      else if IsMonthOnly(self) then Success(Time(None, Some(n), None, false))
      else if IsYearOnly(self) then Success(Time(Some(n), None, None, false))
      else Failure(InvalidDate)
  }

  datatype Op = Plus | Minus

  function ApplyOp(op: Op, a: int, b: int): int {
    match op
    case Plus => a + b
    case Minus => a - b
  }

  /** Python's `a or 0` on an optional integer. */
  function OrZero(a: Option<int>): int {
    if a.Some? then a.value else 0
  }

  /** `_apply_operation_or_none`: absent when both are absent, otherwise
      the operation on the values with an absent one read as 0. */
  function ApplyOperationOrNone(a: Option<int>, b: Option<int>, op: Op): (r: Option<int>)
    ensures r.None? <==> a.None? && b.None?
    ensures a.Some? && b.None? ==> r == Some(ApplyOp(op, a.value, 0))
    ensures a.None? && b.Some? ==> r == Some(ApplyOp(op, 0, b.value))
    ensures a.Some? && b.Some? ==> r == Some(ApplyOp(op, a.value, b.value))
  {
    if a.None? && b.None? then None else Some(ApplyOp(op, OrZero(a), OrZero(b)))
  }

  /** `_apply_operation`: lift the right operand, then combine component by
      component; the result is a date when either side is. */
  function ApplyOperation(self: Time, other: Operand, op: Op): (r: Result<Time, TimeError>)
    ensures r.Success? <==> ConvertToTime(self, other).Success?
    ensures r.Success? ==>
              var o := ConvertToTime(self, other).value;
              && (r.value.years.None? <==> self.years.None? && o.years.None?)
              && (r.value.months.None? <==> self.months.None? && o.months.None?)
              && (r.value.days.None? <==> self.days.None? && o.days.None?)
              && (r.value.years.Some? ==> r.value.years.value == ApplyOp(op, OrZero(self.years), OrZero(o.years)))
              && (r.value.months.Some? ==> r.value.months.value == ApplyOp(op, OrZero(self.months), OrZero(o.months)))
              && (r.value.days.Some? ==> r.value.days.value == ApplyOp(op, OrZero(self.days), OrZero(o.days)))
              && r.value.isDate == (self.isDate || o.isDate)
  {
    match ConvertToTime(self, other)
    case Failure(e) => Failure(e)
    case Success(o) =>
      Success(Time(ApplyOperationOrNone(self.years, o.years, op),
                   ApplyOperationOrNone(self.months, o.months, op),
                   ApplyOperationOrNone(self.days, o.days, op),
                   self.isDate || o.isDate))
  }

  function Add(self: Time, other: Operand): Result<Time, TimeError> {
    ApplyOperation(self, other, Plus)
  }

  function Sub(self: Time, other: Operand): Result<Time, TimeError> {
    ApplyOperation(self, other, Minus)
  }

  /** `n + t` for an integer `n`: `__radd__` is `__add__`, so it is `t + n`. */
  function RAdd(n: int, t: Time): Result<Time, TimeError> {
    Add(t, OfInt(n))
  }

  /** Scalar `t * k`: present components are multiplied, absent ones stay
      absent, and the date flag is kept. (`__rmul__` is the same.) */
  function Mul(self: Time, k: int): (r: Time)
    ensures r.years.Some? <==> self.years.Some?
    ensures r.months.Some? <==> self.months.Some?
    ensures r.days.Some? <==> self.days.Some?
    ensures r.isDate == self.isDate
    ensures OrZero(r.years) == OrZero(self.years) * k
    ensures OrZero(r.months) == OrZero(self.months) * k
    ensures OrZero(r.days) == OrZero(self.days) * k
  {
    Time(if self.years.Some? then Some(self.years.value * k) else None,
         if self.months.Some? then Some(self.months.value * k) else None,
         if self.days.Some? then Some(self.days.value * k) else None,
         self.isDate)
  }

  /** `==`: lift the right operand, then compare all four fields. */
  function Equals(self: Time, other: Operand): (r: Result<bool, TimeError>)
    ensures r.Success? <==> ConvertToTime(self, other).Success?
    ensures r.Success? ==> (r.value <==> self == ConvertToTime(self, other).value)
  {
    match ConvertToTime(self, other)
    case Failure(e) => Failure(e)
    case Success(o) =>
      Success(self.years == o.years && self.months == o.months && self.days == o.days
              && self.isDate == o.isDate)
  }

  /** `to_number(in_days=True)`: a year counts 365 days and a month 30. */
  function ToNumberInDays(t: Time): (r: int)
    ensures r == 365 * OrZero(t.years) + 30 * OrZero(t.months) + OrZero(t.days)
  {
    var y := if t.years.Some? && t.years.value != 0 then t.years.value * 365 else 0;
    var m := if t.months.Some? && t.months.value != 0 then t.months.value * 30 else 0;
    var d := if t.days.Some? && t.days.value != 0 then t.days.value else 0;
    y + m + d
  }

  /** Adding or subtracting zero, from either side, gives the same `Time`. */
  lemma AddZeroIdentity(t: Time)
    ensures Add(t, OfInt(0)) == Success(t)
    ensures RAdd(0, t) == Success(t)
    ensures Sub(t, OfInt(0)) == Success(t)
  {
  }

  /** `t == 0` exactly when every component `t` has is zero. */
  lemma EqualsZeroIff(t: Time)
    ensures Equals(t, OfInt(0)).Success?
    ensures Equals(t, OfInt(0)).value <==>
              && (t.years.Some? ==> t.years.value == 0)
              && (t.months.Some? ==> t.months.value == 0)
              && (t.days.Some? ==> t.days.value == 0)
  {
  }

  /** Against another `Time`, `==` is structural equality. */
  lemma EqualsTimeIsStructural(t: Time, u: Time)
    ensures Equals(t, OfTime(u)) == Success(t == u)
  {
  }

  /** Subtraction undoes addition on the values of every component. */
  lemma SubUndoesAdd(t: Time, u: Time)
    ensures Sub(Add(t, OfTime(u)).value, OfTime(u)).value ==
              Time(if t.years.None? && u.years.None? then None else Some(OrZero(t.years)),
                   if t.months.None? && u.months.None? then None else Some(OrZero(t.months)),
                   if t.days.None? && u.days.None? then None else Some(OrZero(t.days)),
                   t.isDate || u.isDate)
  {
  }

  /** The day count is additive over `+` and `-` of two `Time` values. */
  lemma ToNumberInDaysLinear(t: Time, u: Time)
    ensures ToNumberInDays(Add(t, OfTime(u)).value) == ToNumberInDays(t) + ToNumberInDays(u)
    ensures ToNumberInDays(Sub(t, OfTime(u)).value) == ToNumberInDays(t) - ToNumberInDays(u)
  {
  }

  /** The day count scales with scalar multiplication. */
  lemma ToNumberInDaysScales(t: Time, k: int)
    ensures ToNumberInDays(Mul(t, k)) == ToNumberInDays(t) * k
  {
    var y, m, d := OrZero(t.years), OrZero(t.months), OrZero(t.days);
    calc {
      ToNumberInDays(Mul(t, k));
      365 * (y * k) + 30 * (m * k) + d * k;
      { assert 365 * (y * k) == (365 * y) * k; assert 30 * (m * k) == (30 * m) * k; }
      (365 * y) * k + (30 * m) * k + d * k;
      (365 * y + 30 * m + d) * k;
    }
  }

  /** Adding a non-zero integer to a `Time` of years only adds that many years. */
  lemma AddIntToYears(y: int, isDate: bool, n: int)
    requires n != 0
    ensures Add(Time(Some(y), None, None, isDate), OfInt(n)) == Success(Time(Some(y + n), None, None, isDate))
  {
  }

  /** An integer cannot be added to a `Time` with two or more components. */
  lemma AddIntToMixedFails(t: Time, n: int)
    requires n != 0
    requires !IsYearOnly(t) && !IsMonthOnly(t) && !IsDayOnly(t)
    ensures Add(t, OfInt(n)) == Failure(InvalidDate)
    ensures Equals(t, OfInt(n)) == Failure(InvalidDate)
  {
  }

  // ---------------------------------------------------------------------
  // Mapping quotations and keywords onto the verse
  // ---------------------------------------------------------------------

  /** A verse together with the numerals found in it. */
  datatype VerseAndNumericHebrews = VerseAndNumericHebrews(verse: Verse, numericHebrews: seq<NumericHebrew>)

  /** The quotations of the numerals, in order. */
  function Quotes(nhs: seq<NumericHebrew>): (r: seq<string>)
    ensures |r| == |nhs| && forall q :: 0 <= q < |nhs| ==> r[q] == nhs[q].quote
  {
    seq(|nhs|, q requires 0 <= q < |nhs| => nhs[q].quote)
  }

  /** The keyword search pads both the verse and the keyword with one space. */
  function Padded(s: string): string {
    [' '] + s + [' ']
  }

  /** A keyword found at `i` of the padded verse is the keyword at `i` of the verse. */
  lemma PaddedMatch(text: string, kw: string, i: int)
    requires MatchAt(Padded(text), Padded(kw), i)
    ensures MatchAt(text, kw, i)
  {
    var p := Padded(text);
    forall c | 0 <= c < |kw|
      ensures text[i + c] == kw[c]
    {
      assert p[i..i + |kw| + 2][c + 1] == Padded(kw)[c + 1];
    }
  }

  /** `(start, len)` spans that share at least one position. */
  predicate SpansOverlap(i: int, l1: int, j: int, l2: int) {
    0 < l1 && 0 < l2 && i < j + l2 && j < i + l1
  }

  /** numpy's `any(is_covered[lo:hi])`. */
  predicate AnyCovered(cov: seq<bool>, lo: int, hi: int) {
    exists c :: lo <= c < hi && 0 <= c < |cov| && cov[c]
  }

  predicate Increasing(r: seq<nat>) {
    forall a, b :: 0 <= a < b < |r| ==> r[a] < r[b]
  }

  /** `r` lists every occurrence of `quote` in `text`, in increasing order. */
  ghost predicate AllMatches(text: string, quote: string, r: seq<nat>) {
    (forall i: int :: i in r <==> MatchAt(text, quote, i)) && Increasing(r)
  }

  /** Python's `any(d.values())` over lists: some list is non-empty. */
  predicate AnyNonEmpty(ss: seq<seq<nat>>) {
    exists q :: 0 <= q < |ss| && ss[q] != []
  }

  function TotalLength(ss: seq<seq<nat>>): nat {
    if ss == [] then 0 else |ss[0]| + TotalLength(ss[1..])
  }

  /** Shortening one list and keeping the others shortens the total. */
  lemma {:induction false} TotalLengthDecreases(old_: seq<seq<nat>>, new_: seq<seq<nat>>)
    requires |old_| == |new_| && AnyNonEmpty(old_)
    requires forall q :: 0 <= q < |old_| ==> |new_[q]| <= |old_[q]|
    requires forall q :: 0 <= q < |old_| && old_[q] != [] ==> |new_[q]| < |old_[q]|
    ensures TotalLength(new_) < TotalLength(old_)
  {
    if old_[0] != [] {
      TotalLengthAtMost(old_[1..], new_[1..]);
    } else {
      assert AnyNonEmpty(old_[1..]) by {
        var q :| 0 <= q < |old_| && old_[q] != [];
        assert old_[1..][q - 1] == old_[q];
      }
      TotalLengthDecreases(old_[1..], new_[1..]);
    }
  }

  lemma {:induction false} TotalLengthAtMost(old_: seq<seq<nat>>, new_: seq<seq<nat>>)
    requires |old_| == |new_|
    requires forall q :: 0 <= q < |old_| ==> |new_[q]| <= |old_[q]|
    ensures TotalLength(new_) <= TotalLength(old_)
  {
    if old_ != [] {
      TotalLengthAtMost(old_[1..], new_[1..]);
    }
  }

  /** `is_covered[lo:hi] = True`. */
  method SetCovered(isCovered: array<bool>, lo: nat, hi: nat)
    requires lo <= hi <= isCovered.Length
    modifies isCovered
    ensures forall c :: 0 <= c < isCovered.Length ==> isCovered[c] == (old(isCovered[c]) || lo <= c < hi)
  {
    for c := lo to hi
      invariant forall d :: 0 <= d < isCovered.Length ==> isCovered[d] == (old(isCovered[d]) || lo <= d < c)
    {
      isCovered[c] := true;
    }
  }

  // The proofs track, for every position of the verse, which claim covers it.

  /** Who claimed a position: nobody, the `a`-th index recorded for quotation
      `q`, or the `a`-th index recorded for keyword `kw`. */
  datatype Owner = Free | QuoteOwner(q: nat, a: nat) | KeywordOwner(kw: string, a: nat)

  /** The covered positions are exactly the owned ones. */
  ghost predicate CoverMatches(cov: seq<bool>, owner: seq<Owner>) {
    |owner| == |cov| && forall c :: 0 <= c < |cov| ==> (cov[c] <==> owner[c] != Free)
  }

  /** `owner` with the positions `[s, s + len)` given to `who`. */
  ghost function Claim(owner: seq<Owner>, s: int, len: int, who: Owner): seq<Owner> {
    seq(|owner|, c requires 0 <= c < |owner| => if s <= c < s + len then who else owner[c])
  }

  /** Owned positions keep their owner. */
  ghost predicate Grows(owner0: seq<Owner>, owner: seq<Owner>) {
    |owner0| == |owner| && forall c :: 0 <= c < |owner| && owner0[c] != Free ==> owner[c] == owner0[c]
  }

  /** Some position of `[i, i + len)` is owned. */
  ghost predicate Touched(owner: seq<Owner>, i: int, len: int) {
    exists c :: i <= c < i + len && 0 <= c < |owner| && owner[c] != Free
  }

  lemma TouchedGrows(owner0: seq<Owner>, owner: seq<Owner>, i: int, len: int)
    requires Grows(owner0, owner) && Touched(owner0, i, len)
    ensures Touched(owner, i, len)
  {
    var c :| i <= c < i + len && 0 <= c < |owner0| && owner0[c] != Free;
    assert owner[c] != Free;
  }

  lemma CoveredIsTouched(cov: seq<bool>, owner: seq<Owner>, i: int, len: int)
    requires CoverMatches(cov, owner)
    ensures AnyCovered(cov, i, i + len) <==> Touched(owner, i, len)
  {
    if AnyCovered(cov, i, i + len) {
      var c :| i <= c < i + len && 0 <= c < |cov| && cov[c];
      assert owner[c] != Free;
    }
    if Touched(owner, i, len) {
      var c :| i <= c < i + len && 0 <= c < |owner| && owner[c] != Free;
      assert cov[c];
    }
  }

  /** Claiming an uncovered span keeps the correspondence and every earlier owner. */
  lemma ClaimFree(cov: seq<bool>, owner: seq<Owner>, s: int, len: int, who: Owner, cov': seq<bool>)
    requires CoverMatches(cov, owner) && who != Free && !AnyCovered(cov, s, s + len)
    requires |cov'| == |cov| && forall c :: 0 <= c < |cov| ==> cov'[c] == (cov[c] || s <= c < s + len)
    ensures CoverMatches(cov', Claim(owner, s, len, who))
    ensures Grows(owner, Claim(owner, s, len, who))
  {
  }

  /** What the scan of one quotation's remaining indices did: every index it
      dropped before `at` was already touched by a covered position; it claimed
      `all[at]` when `found` is set, and the list goes on after `at`. */
  ghost predicate TookFirst(cov: seq<bool>, all: seq<nat>, len: nat, owner: seq<Owner>, who: Owner,
                            found: Option<nat>, remaining: seq<nat>, at: nat, owner': seq<Owner>)
  {
    && (forall j :: 0 <= j < at && j < |all| ==> AnyCovered(cov, all[j], all[j] + len))
    && (found.None? ==> at == |all| && remaining == [] && owner' == owner)
    && (found.Some? ==> && at < |all| && found.value == all[at] && remaining == all[at + 1..]
                        && !AnyCovered(cov, all[at], all[at] + len)
                        && owner' == Claim(owner, all[at], len, who))
  }

  /** The inner scan over one quotation's start indices: each index is removed
      from the remaining list; the first whose span is entirely uncovered is
      claimed and the scan stops. */
  method TakeFirstUncovered(isCovered: array<bool>, all: seq<nat>, len: nat,
                            ghost owner: seq<Owner>, ghost who: Owner)
    returns (found: Option<nat>, remaining: seq<nat>, ghost at: nat, ghost owner': seq<Owner>)
    requires CoverMatches(isCovered[..], owner) && who != Free
    requires forall j :: 0 <= j < |all| ==> all[j] + len <= isCovered.Length
    modifies isCovered
    ensures CoverMatches(isCovered[..], owner')
    ensures TookFirst(old(isCovered[..]), all, len, owner, who, found, remaining, at, owner')
  {
    remaining := all;
    found := None;
    owner' := owner;
    at := |all|;
    for j := 0 to |all|
      invariant remaining == all[j..]
      invariant isCovered[..] == old(isCovered[..])
      invariant forall j' :: 0 <= j' < j ==> AnyCovered(isCovered[..], all[j'], all[j'] + len)
    {
      remaining := remaining[1..];
      var s := all[j];
      if !AnyCovered(isCovered[..], s, s + len) {
        ghost var cov := isCovered[..];
        SetCovered(isCovered, s, s + len);
        ClaimFree(cov, owner, s, len, who, isCovered[..]);
        found, at := Some(s), j;
        owner' := Claim(owner, s, len, who);
        break;
      }
    }
  }

  /** What the keyword scan did: it claimed the listed indices, each for the
      keyword, touched every occurrence, and changed no owned position. */
  ghost predicate TookAll(all: seq<nat>, len: nat, kw: string, available: seq<nat>,
                          owner: seq<Owner>, owner': seq<Owner>)
  {
    && Grows(owner, owner')
    && (forall a :: 0 <= a < |available| ==> available[a] in all)
    && (forall a :: 0 <= a < |available| ==> available[a] + len <= |owner'|)
    && (forall a, c :: 0 <= a < |available| && available[a] <= c < available[a] + len && c < |owner'| ==>
          owner'[c] == KeywordOwner(kw, a))
    && (forall c :: 0 <= c < |owner| && owner'[c] != owner[c] ==>
          exists a :: 0 <= a < |available| && available[a] <= c < available[a] + len && owner'[c] == KeywordOwner(kw, a))
    && (forall j :: 0 <= j < |all| && len > 0 ==> Touched(owner', all[j], len))
  }

  /** The keyword scan after its first `j` indices (`TookAll` over `all[..j]`). */
  ghost predicate TookSoFar(all: seq<nat>, j: nat, len: nat, kw: string, available: seq<nat>,
                            owner: seq<Owner>, owner': seq<Owner>)
    requires j <= |all|
  {
    && Grows(owner, owner')
    && (forall a :: 0 <= a < |available| ==> available[a] in all[..j])
    && (forall a :: 0 <= a < |available| ==> available[a] + len <= |owner'|)
    && (forall a, c :: 0 <= a < |available| && available[a] <= c < available[a] + len && c < |owner'| ==>
          owner'[c] == KeywordOwner(kw, a))
    && (forall c :: 0 <= c < |owner| && owner'[c] != owner[c] ==>
          exists a :: 0 <= a < |available| && available[a] <= c < available[a] + len && owner'[c] == KeywordOwner(kw, a))
    && (forall j' :: 0 <= j' < j && len > 0 ==> Touched(owner', all[j'], len))
  }

  /** One claimed keyword index keeps `TookSoFar`. */
  lemma TookClaim(cov: seq<bool>, cov': seq<bool>, all: seq<nat>, j: nat, len: nat, kw: string,
                  available: seq<nat>, owner: seq<Owner>, owner0: seq<Owner>)
    requires j < |all| && TookSoFar(all, j, len, kw, available, owner, owner0)
    requires CoverMatches(cov, owner0) && !AnyCovered(cov, all[j], all[j] + len) && all[j] + len <= |cov|
    requires |cov'| == |cov| && forall c :: 0 <= c < |cov| ==> cov'[c] == (cov[c] || all[j] <= c < all[j] + len)
    ensures CoverMatches(cov', Claim(owner0, all[j], len, KeywordOwner(kw, |available|)))
    ensures TookSoFar(all, j + 1, len, kw, available + [all[j]], owner,
                      Claim(owner0, all[j], len, KeywordOwner(kw, |available|)))
  {
    var s := all[j];
    var who := KeywordOwner(kw, |available|);
    var owner' := Claim(owner0, s, len, who);
    var av := available + [s];
    ClaimFree(cov, owner0, s, len, who, cov');
    assert forall a :: 0 <= a < |available| ==> available[a] in all[..j + 1] by {
      assert forall x :: x in all[..j] ==> x in all[..j + 1];
    }
    assert av[|available|] in all[..j + 1];
    assert forall a :: 0 <= a < |av| ==> av[a] + len <= |owner'|;
    forall a, c | 0 <= a < |av| && av[a] <= c < av[a] + len && c < |owner'|
      ensures owner'[c] == KeywordOwner(kw, a)
    {
      if a < |available| {
        assert owner0[c] == KeywordOwner(kw, a);
        assert cov[c];
      }
    }
    forall c | 0 <= c < |owner| && owner'[c] != owner[c]
      ensures exists a :: 0 <= a < |av| && av[a] <= c < av[a] + len && owner'[c] == KeywordOwner(kw, a)
    {
      if s <= c < s + len {
        assert av[|available|] == s;
      } else {
        var a :| 0 <= a < |available| && available[a] <= c < available[a] + len && owner0[c] == KeywordOwner(kw, a);
        assert av[a] == available[a];
      }
    }
    forall j' | 0 <= j' < j + 1 && len > 0
      ensures Touched(owner', all[j'], len)
    {
      if j' < j {
        TouchedGrows(owner0, owner', all[j'], len);
      } else {
        assert owner'[s] != Free;
      }
    }
  }

  /** An index whose span is already touched is skipped and keeps `TookSoFar`. */
  lemma TookSkip(all: seq<nat>, j: nat, len: nat, kw: string,
                 available: seq<nat>, owner: seq<Owner>, owner0: seq<Owner>)
    requires j < |all| && TookSoFar(all, j, len, kw, available, owner, owner0)
    requires Touched(owner0, all[j], len)
    ensures TookSoFar(all, j + 1, len, kw, available, owner, owner0)
  {
    assert forall x :: x in all[..j] ==> x in all[..j + 1];
  }

  /** First fit over `all` against the positions `owner` holds: `available`
      is increasing, each claimed index is free of `owner` and of the spans
      claimed before it, and each index left out is touched by `owner` or
      starts inside the span of an earlier claimed index. */
  ghost predicate FirstFit(owner: seq<Owner>, all: seq<nat>, len: nat, available: seq<nat>) {
    && Increasing(available)
    && (forall a :: 0 <= a < |available| ==> available[a] in all && !Touched(owner, available[a], len))
    && (forall a, b :: 0 <= a < b < |available| ==> available[a] + len <= available[b])
    && (forall j :: 0 <= j < |all| && all[j] !in available ==>
          Touched(owner, all[j], len) || exists a :: 0 <= a < |available| && available[a] < all[j] < available[a] + len)
  }

  /** Indices taken from the first `j` of an increasing list lie below `all[j]`. */
  lemma BelowNext(all: seq<nat>, j: nat, available: seq<nat>)
    requires Increasing(all) && j < |all|
    requires forall a :: 0 <= a < |available| ==> available[a] in all[..j]
    ensures forall a :: 0 <= a < |available| ==> available[a] < all[j]
    ensures all[j] !in available
  {
    forall a | 0 <= a < |available|
      ensures available[a] < all[j]
    {
      var i :| 0 <= i < j && all[..j][i] == available[a];
      assert all[i] == available[a];
    }
  }

  /** Claiming `s`, free at its turn and past every claimed index, keeps the first fit. */
  lemma FitClaim(pre: seq<nat>, s: nat, len: nat, kw: string, available: seq<nat>,
                 owner: seq<Owner>, owner0: seq<Owner>)
    requires FirstFit(owner, pre, len, available)
    requires forall a :: 0 <= a < |available| ==> available[a] < s
    requires Grows(owner, owner0)
    requires forall a, c :: 0 <= a < |available| && available[a] <= c < available[a] + len && c < |owner0| ==>
               owner0[c] == KeywordOwner(kw, a)
    requires !Touched(owner0, s, len) && s + len <= |owner0|
    ensures FirstFit(owner, pre + [s], len, available + [s])
  {
    var av, all' := available + [s], pre + [s];
    if Touched(owner, s, len) {
      TouchedGrows(owner, owner0, s, len);
    }
    ClearOfClaimed(available, len, kw, owner0, s);
    assert Increasing(av);
    forall a | 0 <= a < |av|
      ensures av[a] in all' && !Touched(owner, av[a], len)
    {
      if a < |available| {
        assert av[a] == available[a] && available[a] in pre;
      }
    }
    forall j' | 0 <= j' < |all'| && all'[j'] !in av
      ensures Touched(owner, all'[j'], len) || exists a :: 0 <= a < |av| && av[a] < all'[j'] < av[a] + len
    {
      assert j' < |pre| && all'[j'] == pre[j'];
      assert pre[j'] !in available;
      if !Touched(owner, pre[j'], len) {
        var a :| 0 <= a < |available| && available[a] < pre[j'] < available[a] + len;
        assert av[a] == available[a];
      }
    }
  }

  /** A free span after the claimed ones starts past the end of each of them. */
  lemma ClearOfClaimed(available: seq<nat>, len: nat, kw: string, owner0: seq<Owner>, s: nat)
    requires forall a :: 0 <= a < |available| ==> available[a] < s
    requires forall a, c :: 0 <= a < |available| && available[a] <= c < available[a] + len && c < |owner0| ==>
               owner0[c] == KeywordOwner(kw, a)
    requires !Touched(owner0, s, len) && s + len <= |owner0|
    ensures forall a :: 0 <= a < |available| ==> available[a] + len <= s
  {
    var atS := if s < |owner0| then owner0[s] else Free;
    forall a | 0 <= a < |available|
      ensures available[a] + len <= s
    {
      if s < available[a] + len {
        assert false;
      }
    }
  }

  /** Skipping `s`, touched at its turn and past every claimed index, keeps the first fit. */
  lemma FitSkip(pre: seq<nat>, s: nat, len: nat, kw: string, available: seq<nat>,
                owner: seq<Owner>, owner0: seq<Owner>)
    requires FirstFit(owner, pre, len, available)
    requires forall a :: 0 <= a < |available| ==> available[a] < s
    requires |owner| == |owner0|
    requires forall c :: 0 <= c < |owner| && owner0[c] != owner[c] ==>
               exists a :: 0 <= a < |available| && available[a] <= c < available[a] + len && owner0[c] == KeywordOwner(kw, a)
    requires Touched(owner0, s, len)
    ensures FirstFit(owner, pre + [s], len, available)
  {
    var all' := pre + [s];
    SkipReason(s, len, kw, available, owner, owner0);
    forall a | 0 <= a < |available|
      ensures available[a] in all'
    {
      assert available[a] in pre;
    }
    forall j' | 0 <= j' < |all'| && all'[j'] !in available
      ensures Touched(owner, all'[j'], len) || exists a :: 0 <= a < |available| && available[a] < all'[j'] < available[a] + len
    {
      if j' < |pre| {
        assert all'[j'] == pre[j'];
      }
    }
  }

  /** Why a touched index is skipped: `owner` touches it, or a claimed span holds its start. */
  lemma SkipReason(s: nat, len: nat, kw: string, available: seq<nat>, owner: seq<Owner>, owner0: seq<Owner>)
    requires forall a :: 0 <= a < |available| ==> available[a] < s
    requires |owner| == |owner0|
    requires forall c :: 0 <= c < |owner| && owner0[c] != owner[c] ==>
               exists a :: 0 <= a < |available| && available[a] <= c < available[a] + len && owner0[c] == KeywordOwner(kw, a)
    requires Touched(owner0, s, len)
    ensures s !in available
    ensures Touched(owner, s, len) || exists a :: 0 <= a < |available| && available[a] < s < available[a] + len
  {
    var c :| s <= c < s + len && 0 <= c < |owner0| && owner0[c] != Free;
    if owner[c] == Free {
      var a :| 0 <= a < |available| && available[a] <= c < available[a] + len && owner0[c] == KeywordOwner(kw, a);
      assert available[a] < s < available[a] + len;
    }
  }

  /** The keyword scan after its first `j` indices: the cover array matches
      the owners, `TookSoFar` holds and the claims are a first fit. */
  ghost predicate Scanned(cov: seq<bool>, all: seq<nat>, j: nat, len: nat, kw: string,
                          available: seq<nat>, owner: seq<Owner>, owner': seq<Owner>)
  {
    && j <= |all|
    && CoverMatches(cov, owner')
    && TookSoFar(all, j, len, kw, available, owner, owner')
    && FirstFit(owner, all[..j], len, available)
  }

  /** One claimed index keeps both `TookSoFar` and the first fit. */
  lemma ScanClaimStep(cov: seq<bool>, cov': seq<bool>, all: seq<nat>, j: nat, len: nat, kw: string,
                      available: seq<nat>, owner: seq<Owner>, owner0: seq<Owner>)
    requires Increasing(all) && j < |all|
    requires Scanned(cov, all, j, len, kw, available, owner, owner0)
    requires !AnyCovered(cov, all[j], all[j] + len) && all[j] + len <= |cov|
    requires |cov'| == |cov| && forall c :: 0 <= c < |cov| ==> cov'[c] == (cov[c] || all[j] <= c < all[j] + len)
    ensures Scanned(cov', all, j + 1, len, kw, available + [all[j]], owner,
                    Claim(owner0, all[j], len, KeywordOwner(kw, |available|)))
  {
    var s := all[j];
    CoveredIsTouched(cov, owner0, s, len);
    BelowNext(all, j, available);
    FitClaim(all[..j], s, len, kw, available, owner, owner0);
    assert all[..j + 1] == all[..j] + [s];
    TookClaim(cov, cov', all, j, len, kw, available, owner, owner0);
  }

  /** One skipped index keeps both `TookSoFar` and the first fit. */
  lemma ScanSkipStep(cov: seq<bool>, all: seq<nat>, j: nat, len: nat, kw: string,
                     available: seq<nat>, owner: seq<Owner>, owner0: seq<Owner>)
    requires Increasing(all) && j < |all|
    requires Scanned(cov, all, j, len, kw, available, owner, owner0)
    requires AnyCovered(cov, all[j], all[j] + len)
    ensures Scanned(cov, all, j + 1, len, kw, available, owner, owner0)
  {
    CoveredIsTouched(cov, owner0, all[j], len);
    var s := all[j];
    BelowNext(all, j, available);
    FitSkip(all[..j], s, len, kw, available, owner, owner0);
    assert all[..j + 1] == all[..j] + [s];
    TookSkip(all, j, len, kw, available, owner, owner0);
  }

  /** One pass of the keyword scan: claim `all[j]` when its span is entirely
      uncovered, otherwise skip it. */
  method ScanIndex(isCovered: array<bool>, all: seq<nat>, j: nat, len: nat, ghost kw: string,
                   available: seq<nat>, ghost owner: seq<Owner>, ghost owner0: seq<Owner>)
    returns (available': seq<nat>, ghost owner': seq<Owner>)
    requires Increasing(all) && j < |all| && all[j] + len <= isCovered.Length
    requires Scanned(isCovered[..], all, j, len, kw, available, owner, owner0)
    modifies isCovered
    ensures Scanned(isCovered[..], all, j + 1, len, kw, available', owner, owner')
  {
    var s := all[j];
    if !AnyCovered(isCovered[..], s, s + len) {
      ghost var cov := isCovered[..];
      SetCovered(isCovered, s, s + len);
      ScanClaimStep(cov, isCovered[..], all, j, len, kw, available, owner, owner0);
      owner' := Claim(owner0, s, len, KeywordOwner(kw, |available|));
      available' := available + [s];
    } else {
      ScanSkipStep(isCovered[..], all, j, len, kw, available, owner, owner0);
      owner', available' := owner0, available;
    }
  }

  /** The keyword scan: claim, in order, every start index whose span is still
      entirely uncovered. */
  method TakeAllUncovered(isCovered: array<bool>, all: seq<nat>, len: nat,
                          ghost owner: seq<Owner>, ghost kw: string)
    returns (available: seq<nat>, ghost owner': seq<Owner>)
    requires CoverMatches(isCovered[..], owner) && Increasing(all)
    requires forall j :: 0 <= j < |all| ==> all[j] + len <= isCovered.Length
    modifies isCovered
    ensures CoverMatches(isCovered[..], owner')
    ensures TookAll(all, len, kw, available, owner, owner')
    ensures FirstFit(owner, all, len, available)
    ensures (forall j :: 0 <= j < |all| ==> Touched(owner, all[j], len)) ==> available == [] && owner' == owner
  {
    available := [];
    owner' := owner;
    ScanStart(isCovered[..], all, len, kw, owner);
    for j := 0 to |all|
      invariant Scanned(isCovered[..], all, j, len, kw, available, owner, owner')
    {
      available, owner' := ScanIndex(isCovered, all, j, len, kw, available, owner, owner');
    }
    ScanEnd(isCovered[..], all, len, kw, available, owner, owner');
  }

  lemma ScanStart(cov: seq<bool>, all: seq<nat>, len: nat, kw: string, owner: seq<Owner>)
    requires CoverMatches(cov, owner)
    ensures Scanned(cov, all, 0, len, kw, [], owner, owner)
  {
    assert all[..0] == [];
  }

  /** The whole scan done: `TookAll`, the first fit, and nothing claimed when nothing was free. */
  lemma ScanEnd(cov: seq<bool>, all: seq<nat>, len: nat, kw: string, available: seq<nat>,
                owner: seq<Owner>, owner': seq<Owner>)
    requires Scanned(cov, all, |all|, len, kw, available, owner, owner')
    ensures CoverMatches(cov, owner')
    ensures TookAll(all, len, kw, available, owner, owner')
    ensures FirstFit(owner, all, len, available)
    ensures (forall j :: 0 <= j < |all| ==> Touched(owner, all[j], len)) ==> available == [] && owner' == owner
  {
    assert all[..|all|] == all;
    NothingFree(all, len, kw, available, owner, owner');
  }

  /** When every index is touched already, the scan claims nothing. */
  lemma NothingFree(all: seq<nat>, len: nat, kw: string, available: seq<nat>, owner: seq<Owner>, owner': seq<Owner>)
    requires TookAll(all, len, kw, available, owner, owner') && FirstFit(owner, all, len, available)
    ensures (forall j :: 0 <= j < |all| ==> Touched(owner, all[j], len)) ==> available == [] && owner' == owner
  {
    var first := if available != [] then available[0] else 0;
    if forall j :: 0 <= j < |all| ==> Touched(owner, all[j], len) {
      if available != [] {
        assert false;
      }
      assert |owner'| == |owner|;
      forall c | 0 <= c < |owner|
        ensures owner'[c] == owner[c]
      {
        if owner'[c] != owner[c] {
          assert false;
        }
      }
    }
  }

  /** Every recorded quotation index is an occurrence of its quotation. */
  ghost predicate QuoteIndicesMatch(text: string, quotes: seq<string>, qi: seq<seq<nat>>) {
    |qi| == |quotes| && forall q, a :: 0 <= q < |qi| && 0 <= a < |qi[q]| ==> MatchAt(text, quotes[q], qi[q][a])
  }

  /** Every recorded keyword index is an occurrence of the keyword between
      spaces, or between a space and an end of the verse. */
  ghost predicate KeywordIndicesMatch(text: string, kmap: map<string, seq<nat>>) {
    forall w, a :: w in kmap && 0 <= a < |kmap[w]| ==> MatchAt(Padded(text), Padded(w), kmap[w][a])
  }

  /** Every position a quotation owns lies in the span of the index it names,
      and every recorded quotation index is an occurrence that owns its span. */
  ghost predicate QuoteClaims(text: string, quotes: seq<string>, qi: seq<seq<nat>>, owner: seq<Owner>) {
    && QuoteIndicesMatch(text, quotes, qi)
    && (forall c :: 0 <= c < |owner| && owner[c].QuoteOwner? ==>
          && owner[c].q < |quotes| && owner[c].a < |qi[owner[c].q]|
          && qi[owner[c].q][owner[c].a] <= c < qi[owner[c].q][owner[c].a] + |quotes[owner[c].q]|)
    && (forall q, a, c :: 0 <= q < |qi| && 0 <= a < |qi[q]| && qi[q][a] <= c < qi[q][a] + |quotes[q]| && c < |owner| ==>
          owner[c] == QuoteOwner(q, a))
  }

  /** The same for keywords, whose indices are occurrences in the padded verse. */
  ghost predicate KeywordClaims(text: string, kmap: map<string, seq<nat>>, owner: seq<Owner>) {
    && (forall c :: 0 <= c < |owner| && owner[c].KeywordOwner? ==>
          && owner[c].kw in kmap && owner[c].a < |kmap[owner[c].kw]|
          && kmap[owner[c].kw][owner[c].a] <= c < kmap[owner[c].kw][owner[c].a] + |owner[c].kw|)
    && KeywordIndicesMatch(text, kmap)
    && (forall w, a, c :: w in kmap && 0 <= a < |kmap[w]| && kmap[w][a] <= c < kmap[w][a] + |w| && c < |owner| ==>
          owner[c] == KeywordOwner(w, a))
  }

  /** The state of the quotation passes: `allIdx[q]` is what is left of the
      occurrences of quotation `q`, and every occurrence already dropped is
      touched by a claim. */
  ghost predicate QuotePhase(text: string, quotes: seq<string>, qi: seq<seq<nat>>, allIdx: seq<seq<nat>>,
                             owner: seq<Owner>, cov: seq<bool>)
  {
    && |owner| == |text| && CoverMatches(cov, owner)
    && |allIdx| == |quotes|
    && QuoteClaims(text, quotes, qi, owner)
    && (forall c :: 0 <= c < |owner| ==> !owner[c].KeywordOwner?)
    && (forall q :: 0 <= q < |quotes| ==> Increasing(allIdx[q]))
    && (forall q, j :: 0 <= q < |quotes| && 0 <= j < |allIdx[q]| ==> MatchAt(text, quotes[q], allIdx[q][j]))
    && (forall q, i :: 0 <= q < |quotes| && |quotes[q]| > 0 && MatchAt(text, quotes[q], i) && i !in allIdx[q] ==>
          Touched(owner, i, |quotes[q]|))
  }

  /** Quotations from `q` on are untouched: nothing recorded, every occurrence left. */
  ghost predicate FreshFrom(text: string, quotes: seq<string>, qi: seq<seq<nat>>, allIdx: seq<seq<nat>>, q: int) {
    && |qi| == |quotes| && |allIdx| == |quotes|
    && forall q' :: q <= q' < |quotes| && 0 <= q' ==> qi[q'] == [] && AllMatches(text, quotes[q'], allIdx[q'])
  }

  /** An occurrence of quotation `q` at `i` shares a position with an index
      recorded for an earlier quotation. */
  ghost predicate EarlierOverlaps(quotes: seq<string>, qi: seq<seq<nat>>, q: int, i: int) {
    0 <= q < |quotes| &&
    exists q', a :: 0 <= q' < q && q' < |qi| && 0 <= a < |qi[q']| &&
      SpansOverlap(i, |quotes[q]|, qi[q'][a], |quotes[q']|)
  }

  /** The default mode's promise for quotation `q`: at most one index, and
      every occurrence before it (every occurrence, when it has none) shares a
      position with an index recorded for an earlier quotation. */
  ghost predicate FirstFree(text: string, quotes: seq<string>, qi: seq<seq<nat>>, q: int) {
    && 0 <= q < |qi| && q < |quotes| && |qi[q]| <= 1
    && forall i :: MatchAt(text, quotes[q], i) && (qi[q] == [] || i < qi[q][0]) ==> EarlierOverlaps(quotes, qi, q, i)
  }

  /** The indices after the scan of quotation `q`: its claim, if any, appended. */
  function Record(qi: seq<seq<nat>>, q: nat, found: Option<nat>): seq<seq<nat>>
    requires q < |qi|
  {
    if found.Some? then qi[q := qi[q] + [found.value]] else qi
  }

  /** Claiming an occurrence for quotation `q` keeps the quotation claims. */
  lemma QuoteClaimsAfterClaim(text: string, quotes: seq<string>, qi: seq<seq<nat>>, owner: seq<Owner>,
                              cov: seq<bool>, q: nat, s: nat)
    requires QuoteClaims(text, quotes, qi, owner) && CoverMatches(cov, owner) && |owner| == |text|
    requires q < |quotes| && MatchAt(text, quotes[q], s) && !AnyCovered(cov, s, s + |quotes[q]|)
    ensures QuoteClaims(text, quotes, qi[q := qi[q] + [s]], Claim(owner, s, |quotes[q]|, QuoteOwner(q, |qi[q]|)))
  {
    var len := |quotes[q]|;
    var qi' := qi[q := qi[q] + [s]];
    var owner' := Claim(owner, s, len, QuoteOwner(q, |qi[q]|));
    forall c | 0 <= c < |owner'| && owner'[c].QuoteOwner?
      ensures owner'[c].q < |quotes| && owner'[c].a < |qi'[owner'[c].q]|
      ensures qi'[owner'[c].q][owner'[c].a] <= c < qi'[owner'[c].q][owner'[c].a] + |quotes[owner'[c].q]|
    {
      if !(s <= c < s + len) {
        var q1, a1 := owner[c].q, owner[c].a;
        assert qi'[q1][a1] == qi[q1][a1];
      }
    }
    forall q1, a1, c | 0 <= q1 < |qi'| && 0 <= a1 < |qi'[q1]| && qi'[q1][a1] <= c < qi'[q1][a1] + |quotes[q1]| && c < |owner'|
      ensures owner'[c] == QuoteOwner(q1, a1)
    {
      if q1 != q || a1 < |qi[q]| {
        assert qi'[q1][a1] == qi[q1][a1];
        assert owner[c] == QuoteOwner(q1, a1);
        assert cov[c];
      }
    }
  }

  /** Every dropped occurrence of quotation `q` is touched after the scan. */
  lemma DroppedTouched(text: string, quotes: seq<string>, qi: seq<seq<nat>>, allIdx: seq<seq<nat>>,
                       owner: seq<Owner>, cov: seq<bool>, q: nat,
                       found: Option<nat>, remaining: seq<nat>, at: nat, owner': seq<Owner>)
    requires QuotePhase(text, quotes, qi, allIdx, owner, cov) && q < |quotes| && Grows(owner, owner')
    requires TookFirst(cov, allIdx[q], |quotes[q]|, owner, QuoteOwner(q, |qi[q]|), found, remaining, at, owner')
    ensures forall i :: |quotes[q]| > 0 && MatchAt(text, quotes[q], i) && i !in remaining ==>
              Touched(owner', i, |quotes[q]|)
  {
    var all, len := allIdx[q], |quotes[q]|;
    forall i | len > 0 && MatchAt(text, quotes[q], i) && i !in remaining
      ensures Touched(owner', i, len)
    {
      if i !in all {
        TouchedGrows(owner, owner', i, len);
      } else {
        var j :| 0 <= j < |all| && all[j] == i;
        if j < at {
          CoveredIsTouched(cov, owner, i, len);
          TouchedGrows(owner, owner', i, len);
        } else {
          assert found.Some? ==> forall j' :: at < j' < |all| ==> all[j'] == remaining[j' - at - 1];
          assert found.Some? && j == at;
          assert owner'[i] != Free;
        }
      }
    }
  }

  /** One quotation scan keeps the state of the passes. */
  lemma QuoteStep(text: string, quotes: seq<string>, qi: seq<seq<nat>>, allIdx: seq<seq<nat>>,
                  owner: seq<Owner>, cov: seq<bool>, q: nat,
                  found: Option<nat>, remaining: seq<nat>, at: nat, owner': seq<Owner>, cov': seq<bool>)
    requires QuotePhase(text, quotes, qi, allIdx, owner, cov) && q < |quotes|
    requires CoverMatches(cov', owner')
    requires TookFirst(cov, allIdx[q], |quotes[q]|, owner, QuoteOwner(q, |qi[q]|), found, remaining, at, owner')
    ensures QuotePhase(text, quotes, Record(qi, q, found),
                       allIdx[q := remaining], owner', cov')
  {
    var qi' := Record(qi, q, found);
    var allIdx' := allIdx[q := remaining];
    var all, len := allIdx[q], |quotes[q]|;
    if found.Some? {
      assert MatchAt(text, quotes[q], all[at]);
      ClaimFreeGrows(cov, owner, all[at], len, QuoteOwner(q, |qi[q]|));
      QuoteClaimsAfterClaim(text, quotes, qi, owner, cov, q, all[at]);
      assert forall j :: 0 <= j < |remaining| ==> remaining[j] == all[at + 1 + j];
    }
    DroppedTouched(text, quotes, qi, allIdx, owner, cov, q, found, remaining, at, owner');
    forall q1, i | 0 <= q1 < |quotes| && |quotes[q1]| > 0 && MatchAt(text, quotes[q1], i) && i !in allIdx'[q1]
      ensures Touched(owner', i, |quotes[q1]|)
    {
      if q1 != q {
        TouchedGrows(owner, owner', i, |quotes[q1]|);
      }
    }
  }

  /** Claiming an uncovered span gives a growing owner map. */
  lemma ClaimFreeGrows(cov: seq<bool>, owner: seq<Owner>, s: int, len: int, who: Owner)
    requires CoverMatches(cov, owner) && !AnyCovered(cov, s, s + len)
    ensures Grows(owner, Claim(owner, s, len, who))
  {
  }

  /** A covered position in the span of an occurrence of quotation `q`, on the
      first pass, belongs to an earlier quotation. */
  lemma CoveredByEarlier(text: string, quotes: seq<string>, qi: seq<seq<nat>>, allIdx: seq<seq<nat>>,
                         owner: seq<Owner>, cov: seq<bool>, q: nat, i: int)
    requires QuotePhase(text, quotes, qi, allIdx, owner, cov) && FreshFrom(text, quotes, qi, allIdx, q)
    requires q < |quotes| && AnyCovered(cov, i, i + |quotes[q]|)
    ensures EarlierOverlaps(quotes, qi, q, i)
  {
    var c :| i <= c < i + |quotes[q]| && 0 <= c < |cov| && cov[c];
    assert owner[c].QuoteOwner?;
    var q1, a1 := owner[c].q, owner[c].a;
    assert q1 < q;
    assert SpansOverlap(i, |quotes[q]|, qi[q1][a1], |quotes[q1]|);
  }

  /** Recording an index for quotation `q` keeps every overlap with earlier
      indices of the quotations up to `q`. */
  lemma RecordKeepsOverlap(quotes: seq<string>, qi: seq<seq<nat>>, q: nat, found: Option<nat>, q1: int, i: int)
    requires q < |qi| && q1 <= q && EarlierOverlaps(quotes, qi, q1, i)
    ensures EarlierOverlaps(quotes, Record(qi, q, found), q1, i)
  {
    var qi' := Record(qi, q, found);
    var q2, a2 :| 0 <= q2 < q1 && q2 < |qi| && 0 <= a2 < |qi[q2]| &&
                  SpansOverlap(i, |quotes[q1]|, qi[q2][a2], |quotes[q2]|);
    assert qi'[q2] == qi[q2];
  }

  /** So the promise for an earlier quotation survives the scan of `q`. */
  lemma RecordKeepsFirstFree(text: string, quotes: seq<string>, qi: seq<seq<nat>>, q: nat, found: Option<nat>, q1: int)
    requires q < |qi| && 0 <= q1 < q && FirstFree(text, quotes, qi, q1)
    ensures FirstFree(text, quotes, Record(qi, q, found), q1)
  {
    var qi' := Record(qi, q, found);
    assert qi'[q1] == qi[q1];
    forall i | MatchAt(text, quotes[q1], i) && (qi'[q1] == [] || i < qi'[q1][0])
      ensures EarlierOverlaps(quotes, qi', q1, i)
    {
      RecordKeepsOverlap(quotes, qi, q, found, q1, i);
    }
  }

  /** On the first pass the scan of quotation `q` makes its own promise. */
  lemma FirstScanFirstFree(text: string, quotes: seq<string>, qi: seq<seq<nat>>, allIdx: seq<seq<nat>>,
                           owner: seq<Owner>, cov: seq<bool>, q: nat,
                           found: Option<nat>, remaining: seq<nat>, at: nat, owner': seq<Owner>)
    requires QuotePhase(text, quotes, qi, allIdx, owner, cov) && q < |quotes|
    requires FreshFrom(text, quotes, qi, allIdx, q)
    requires TookFirst(cov, allIdx[q], |quotes[q]|, owner, QuoteOwner(q, |qi[q]|), found, remaining, at, owner')
    ensures FirstFree(text, quotes, Record(qi, q, found), q)
  {
    var qi' := Record(qi, q, found);
    var all := allIdx[q];
    assert qi[q] == [] && AllMatches(text, quotes[q], all);
    assert found.Some? ==> qi'[q] == [all[at]];
    forall i | MatchAt(text, quotes[q], i) && (qi'[q] == [] || i < qi'[q][0])
      ensures EarlierOverlaps(quotes, qi', q, i)
    {
      assert i in all;
      var j :| 0 <= j < |all| && all[j] == i;
      assert j < at;
      CoveredByEarlier(text, quotes, qi, allIdx, owner, cov, q, i);
      RecordKeepsOverlap(quotes, qi, q, found, q, i);
    }
  }

  /** The scan of quotation `q` leaves the later quotations untouched. */
  lemma FirstScanFresh(text: string, quotes: seq<string>, qi: seq<seq<nat>>, allIdx: seq<seq<nat>>,
                       q: nat, found: Option<nat>, remaining: seq<nat>)
    requires q < |quotes| && FreshFrom(text, quotes, qi, allIdx, q)
    ensures FreshFrom(text, quotes, Record(qi, q, found), allIdx[q := remaining], q + 1)
  {
  }

  /** On the first pass, the scan of quotation `q` keeps the earlier promises
      and makes the one for `q`. */
  lemma QuoteStepFirst(text: string, quotes: seq<string>, qi: seq<seq<nat>>, allIdx: seq<seq<nat>>,
                       owner: seq<Owner>, cov: seq<bool>, q: nat,
                       found: Option<nat>, remaining: seq<nat>, at: nat, owner': seq<Owner>)
    requires QuotePhase(text, quotes, qi, allIdx, owner, cov) && q < |quotes|
    requires FreshFrom(text, quotes, qi, allIdx, q)
    requires forall q' :: 0 <= q' < q ==> FirstFree(text, quotes, qi, q')
    requires TookFirst(cov, allIdx[q], |quotes[q]|, owner, QuoteOwner(q, |qi[q]|), found, remaining, at, owner')
    ensures FreshFrom(text, quotes, Record(qi, q, found),
                      allIdx[q := remaining], q + 1)
    ensures forall q' :: 0 <= q' <= q ==>
              FirstFree(text, quotes, Record(qi, q, found), q')
  {
    FirstScanFresh(text, quotes, qi, allIdx, q, found, remaining);
    forall q1 | 0 <= q1 < q
      ensures FirstFree(text, quotes, Record(qi, q, found), q1)
    {
      RecordKeepsFirstFree(text, quotes, qi, q, found, q1);
    }
    FirstScanFirstFree(text, quotes, qi, allIdx, owner, cov, q, found, remaining, at, owner');
  }

  /** The first loop of the quotation passes: every quotation's occurrences,
      and no index recorded yet. */
  method ListOccurrences(text: string, quotes: seq<string>) returns (indices: seq<seq<nat>>, allIndices: seq<seq<nat>>)
    ensures FreshFrom(text, quotes, indices, allIndices, 0)
  {
    indices, allIndices := [], [];
    for q := 0 to |quotes|
      invariant |indices| == q && |allIndices| == q
      invariant forall q' :: 0 <= q' < q ==> indices[q'] == [] && AllMatches(text, quotes[q'], allIndices[q'])
    {
      var all := Utils.FindAllStartIndices(text, quotes[q]);
      allIndices := allIndices + [all];
      indices := indices + [[]];
    }
  }

  /** One quotation's turn in a pass: its next occurrence whose span is
      entirely uncovered, if any, is claimed and recorded, and the occurrences
      scanned are dropped from its list. */
  method ScanQuote(text: string, quotes: seq<string>, indices: seq<seq<nat>>, allIndices: seq<seq<nat>>,
                   ghost owner: seq<Owner>, isCovered: array<bool>, q: nat, ghost firstPass: bool)
    returns (indices': seq<seq<nat>>, allIndices': seq<seq<nat>>, ghost owner': seq<Owner>)
    requires q < |quotes|
    requires QuotePhase(text, quotes, indices, allIndices, owner, isCovered[..])
    requires firstPass ==> FreshFrom(text, quotes, indices, allIndices, q)
    requires firstPass ==> forall q' :: 0 <= q' < q ==> FirstFree(text, quotes, indices, q')
    modifies isCovered
    ensures QuotePhase(text, quotes, indices', allIndices', owner', isCovered[..])
    ensures |allIndices'| == |allIndices| && |allIndices'[q]| <= |allIndices[q]|
    ensures allIndices[q] != [] ==> |allIndices'[q]| < |allIndices[q]|
    ensures forall q' :: 0 <= q' < |allIndices| && q' != q ==> allIndices'[q'] == allIndices[q']
    ensures firstPass ==> FreshFrom(text, quotes, indices', allIndices', q + 1)
    ensures firstPass ==> forall q' :: 0 <= q' <= q ==> FirstFree(text, quotes, indices', q')
  {
    var all := allIndices[q];
    forall j | 0 <= j < |all|
      ensures all[j] + |quotes[q]| <= isCovered.Length
    {
      assert MatchAt(text, quotes[q], all[j]);
    }
    ghost var cov := isCovered[..];
    var found, remaining, at, o := TakeFirstUncovered(isCovered, all, |quotes[q]|, owner, QuoteOwner(q, |indices[q]|));
    QuoteStep(text, quotes, indices, allIndices, owner, cov, q, found, remaining, at, o, isCovered[..]);
    if firstPass {
      QuoteStepFirst(text, quotes, indices, allIndices, owner, cov, q, found, remaining, at, o);
    }
    indices' := indices;
    if found.Some? {
      indices' := indices[q := indices[q] + [found.value]];
    }
    owner' := o;
    allIndices' := allIndices[q := remaining];
  }

  /** The quotation passes of `map_numeric_hebrews`: every quotation's
      occurrences are listed; then, pass after pass, each quotation claims its
      next occurrence whose span is entirely uncovered. In the default mode
      only the first pass runs. */
  method MapQuotations(text: string, quotes: seq<string>, showOnlyOneMatch: bool, isCovered: array<bool>)
    returns (indices: seq<seq<nat>>, ghost owner: seq<Owner>)
    requires isCovered.Length == |text| && forall c :: 0 <= c < |text| ==> !isCovered[c]
    modifies isCovered
    ensures |owner| == |text| && CoverMatches(isCovered[..], owner)
    ensures QuoteClaims(text, quotes, indices, owner)
    ensures forall c :: 0 <= c < |owner| ==> !owner[c].KeywordOwner?
    ensures showOnlyOneMatch ==> forall q :: 0 <= q < |quotes| ==> FirstFree(text, quotes, indices, q)
    ensures !showOnlyOneMatch ==>
              forall q, i :: 0 <= q < |quotes| && |quotes[q]| > 0 && MatchAt(text, quotes[q], i) ==>
                Touched(owner, i, |quotes[q]|)
  {
    owner := seq(|text|, _ => Free);
    var allIndices;
    indices, allIndices := ListOccurrences(text, quotes);
    ghost var firstPass := true;
    while AnyNonEmpty(allIndices)
      invariant QuotePhase(text, quotes, indices, allIndices, owner, isCovered[..])
      invariant showOnlyOneMatch ==> firstPass
      invariant firstPass ==> FreshFrom(text, quotes, indices, allIndices, 0)
      decreases TotalLength(allIndices)
    {
      ghost var start := allIndices;
      for q := 0 to |quotes|
        invariant QuotePhase(text, quotes, indices, allIndices, owner, isCovered[..])
        invariant |allIndices| == |start|
        invariant forall q' :: 0 <= q' < q ==> |allIndices[q']| <= |start[q']|
        invariant forall q' :: 0 <= q' < q && start[q'] != [] ==> |allIndices[q']| < |start[q']|
        invariant forall q' :: q <= q' < |quotes| ==> allIndices[q'] == start[q']
        invariant firstPass ==> FreshFrom(text, quotes, indices, allIndices, q)
        invariant firstPass ==> forall q' :: 0 <= q' < q ==> FirstFree(text, quotes, indices, q')
      {
        indices, allIndices, owner := ScanQuote(text, quotes, indices, allIndices, owner, isCovered, q, firstPass);
      }
      TotalLengthDecreases(start, allIndices);
      if showOnlyOneMatch {
        break;
      }
      firstPass := false;
    }
    if !showOnlyOneMatch {
      forall q, i | 0 <= q < |quotes| && |quotes[q]| > 0 && MatchAt(text, quotes[q], i)
        ensures Touched(owner, i, |quotes[q]|)
      {
        assert allIndices[q] == [] by {
          assert !AnyNonEmpty(allIndices);
        }
      }
    } else if firstPass {
      forall q | 0 <= q < |quotes|
        ensures FirstFree(text, quotes, indices, q)
      {
        assert allIndices[q] == [] || FirstFree(text, quotes, indices, q);
      }
    }
  }

  /** The keyword scan changes only free positions, so the quotation claims stay. */
  lemma QuoteClaimsKeep(text: string, quotes: seq<string>, qi: seq<seq<nat>>, owner: seq<Owner>,
                        all: seq<nat>, len: nat, kw: string, available: seq<nat>, owner': seq<Owner>)
    requires QuoteClaims(text, quotes, qi, owner) && TookAll(all, len, kw, available, owner, owner')
    ensures QuoteClaims(text, quotes, qi, owner')
  {
    forall c | 0 <= c < |owner'| && owner'[c].QuoteOwner?
      ensures owner'[c] == owner[c]
    {
    }
  }

  /** The keyword scan for `kw` keeps the keyword claims once its indices are
      recorded (only when there are some). */
  lemma KeywordStep(text: string, kmap: map<string, seq<nat>>, owner: seq<Owner>,
                    all: seq<nat>, kw: string, available: seq<nat>, owner': seq<Owner>)
    requires KeywordClaims(text, kmap, owner)
    requires forall j :: 0 <= j < |all| ==> MatchAt(Padded(text), Padded(kw), all[j])
    requires TookAll(all, |kw|, kw, available, owner, owner')
    requires kw in kmap && |kw| > 0 ==> available == [] && owner' == owner
    ensures KeywordClaims(text, if available != [] then kmap[kw := available] else kmap, owner')
  {
    var kmap' := if available != [] then kmap[kw := available] else kmap;
    forall c | 0 <= c < |owner| && owner'[c] != owner[c]
      ensures owner'[c] == KeywordOwner(kw, owner'[c].a) && owner'[c].a < |available|
      ensures available[owner'[c].a] <= c < available[owner'[c].a] + |kw|
    {
      var a :| 0 <= a < |available| && available[a] <= c < available[a] + |kw| && owner'[c] == KeywordOwner(kw, a);
    }
    forall c | 0 <= c < |owner'| && owner'[c].KeywordOwner?
      ensures owner'[c].kw in kmap' && owner'[c].a < |kmap'[owner'[c].kw]|
      ensures kmap'[owner'[c].kw][owner'[c].a] <= c < kmap'[owner'[c].kw][owner'[c].a] + |owner'[c].kw|
    {
      if owner'[c] == owner[c] {
        var w := owner[c].kw;
        assert w != kw || |kw| > 0;
      }
    }
    forall w, a | w in kmap' && 0 <= a < |kmap'[w]|
      ensures MatchAt(Padded(text), Padded(w), kmap'[w][a])
    {
      if w == kw && available != [] {
        var j :| 0 <= j < |all| && all[j] == available[a];
      }
    }
    forall w, a, c | w in kmap' && 0 <= a < |kmap'[w]| && kmap'[w][a] <= c < kmap'[w][a] + |w| && c < |owner'|
      ensures owner'[c] == KeywordOwner(w, a)
    {
      if w != kw || available == [] {
        assert owner[c] == KeywordOwner(w, a);
      }
    }
  }

  /** The state of the keyword pass after the first `k` keywords. */
  ghost predicate KeywordPhase(text: string, keywords: seq<string>, k: int, quotes: seq<string>, qi: seq<seq<nat>>,
                               owner0: seq<Owner>, owner: seq<Owner>, kmap: map<string, seq<nat>>, cov: seq<bool>)
  {
    && 0 <= k <= |keywords|
    && |owner| == |text| && CoverMatches(cov, owner) && Grows(owner0, owner)
    && QuoteClaims(text, quotes, qi, owner)
    && KeywordClaims(text, kmap, owner)
    && (forall w :: w in kmap ==> w in keywords[..k] && kmap[w] != [])
    && (forall w :: w in kmap ==> Increasing(kmap[w]))
    && (forall k', i :: 0 <= k' < k && |keywords[k']| > 0 && MatchAt(Padded(text), Padded(keywords[k']), i) ==>
          Touched(owner, i, |keywords[k']|))
  }

  /** A keyword met again finds each of its occurrences touched already. */
  lemma AlreadyTouched(text: string, keywords: seq<string>, k: int, quotes: seq<string>, qi: seq<seq<nat>>,
                       owner0: seq<Owner>, owner: seq<Owner>, kmap: map<string, seq<nat>>, cov: seq<bool>,
                       all: seq<nat>)
    requires KeywordPhase(text, keywords, k, quotes, qi, owner0, owner, kmap, cov) && k < |keywords|
    requires keywords[k] in kmap && |keywords[k]| > 0
    requires forall j :: 0 <= j < |all| ==> MatchAt(Padded(text), Padded(keywords[k]), all[j])
    ensures forall j :: 0 <= j < |all| ==> Touched(owner, all[j], |keywords[k]|)
  {
    var k' :| 0 <= k' < k && keywords[k'] == keywords[k];
    forall j | 0 <= j < |all|
      ensures Touched(owner, all[j], |keywords[k]|)
    {
      assert MatchAt(Padded(text), Padded(keywords[k']), all[j]);
    }
  }

  /** One keyword scan keeps the state of the keyword pass. */
  lemma KeywordPhaseStep(text: string, keywords: seq<string>, k: int, quotes: seq<string>, qi: seq<seq<nat>>,
                         owner0: seq<Owner>, owner: seq<Owner>, kmap: map<string, seq<nat>>, cov: seq<bool>,
                         all: seq<nat>, available: seq<nat>, owner': seq<Owner>, cov': seq<bool>)
    requires KeywordPhase(text, keywords, k, quotes, qi, owner0, owner, kmap, cov) && k < |keywords|
    requires AllMatches(Padded(text), Padded(keywords[k]), all)
    requires CoverMatches(cov', owner')
    requires TookAll(all, |keywords[k]|, keywords[k], available, owner, owner') && Increasing(available)
    requires keywords[k] in kmap && |keywords[k]| > 0 ==> available == [] && owner' == owner
    ensures KeywordPhase(text, keywords, k + 1, quotes, qi, owner0, owner',
                         if available != [] then kmap[keywords[k] := available] else kmap, cov')
  {
    var kw := keywords[k];
    QuoteClaimsKeep(text, quotes, qi, owner, all, |kw|, kw, available, owner');
    KeywordStep(text, kmap, owner, all, kw, available, owner');
    KeywordsTouchedAfter(text, keywords, k, quotes, qi, owner0, owner, kmap, cov, all, available, owner');
    RecordedKeywordsListed(keywords, k, kmap, available);
  }

  /** After keyword `k`, every occurrence of keywords up to `k` is touched. */
  lemma KeywordsTouchedAfter(text: string, keywords: seq<string>, k: int, quotes: seq<string>, qi: seq<seq<nat>>,
                             owner0: seq<Owner>, owner: seq<Owner>, kmap: map<string, seq<nat>>, cov: seq<bool>,
                             all: seq<nat>, available: seq<nat>, owner': seq<Owner>)
    requires KeywordPhase(text, keywords, k, quotes, qi, owner0, owner, kmap, cov) && k < |keywords|
    requires AllMatches(Padded(text), Padded(keywords[k]), all)
    requires TookAll(all, |keywords[k]|, keywords[k], available, owner, owner')
    ensures forall k1, i :: 0 <= k1 < k + 1 && |keywords[k1]| > 0 && MatchAt(Padded(text), Padded(keywords[k1]), i) ==>
              Touched(owner', i, |keywords[k1]|)
  {
    forall k1, i | 0 <= k1 < k + 1 && |keywords[k1]| > 0 && MatchAt(Padded(text), Padded(keywords[k1]), i)
      ensures Touched(owner', i, |keywords[k1]|)
    {
      if k1 < k {
        TouchedGrows(owner, owner', i, |keywords[k1]|);
      } else {
        assert i in all;
      }
    }
  }

  /** Recording keyword `k` keeps the recorded keywords among those seen. */
  lemma RecordedKeywordsListed(keywords: seq<string>, k: int, kmap: map<string, seq<nat>>, available: seq<nat>)
    requires 0 <= k < |keywords|
    requires forall w :: w in kmap ==> w in keywords[..k] && kmap[w] != []
    ensures var kmap' := if available != [] then kmap[keywords[k] := available] else kmap;
            forall w :: w in kmap' ==> w in keywords[..k + 1] && kmap'[w] != []
  {
    assert forall w :: w in keywords[..k] ==> w in keywords[..k + 1];
    assert keywords[k] in keywords[..k + 1];
  }

  /** The keyword pass of `map_numeric_hebrews`: each keyword, delimited by
      spaces or the ends of the verse, claims every occurrence whose span is
      entirely uncovered; it is recorded only when it claimed something. */
  method MapKeywords(text: string, keywords: seq<string>, isCovered: array<bool>,
                     ghost quotes: seq<string>, ghost qi: seq<seq<nat>>, ghost owner0: seq<Owner>)
    returns (kmap: map<string, seq<nat>>, ghost owner: seq<Owner>)
    requires isCovered.Length == |text| && |owner0| == |text| && CoverMatches(isCovered[..], owner0)
    requires QuoteClaims(text, quotes, qi, owner0)
    requires forall c :: 0 <= c < |owner0| ==> !owner0[c].KeywordOwner?
    modifies isCovered
    ensures KeywordPhase(text, keywords, |keywords|, quotes, qi, owner0, owner, kmap, isCovered[..])
  {
    kmap := map[];
    owner := owner0;
    for k := 0 to |keywords|
      invariant KeywordPhase(text, keywords, k, quotes, qi, owner0, owner, kmap, isCovered[..])
    {
      var kw := keywords[k];
      var all := Utils.FindAllStartIndices(Padded(text), Padded(kw));
      forall j | 0 <= j < |all|
        ensures all[j] + |kw| <= isCovered.Length
      {
        assert MatchAt(Padded(text), Padded(kw), all[j]);
      }
      if kw in kmap && |kw| > 0 {
        AlreadyTouched(text, keywords, k, quotes, qi, owner0, owner, kmap, isCovered[..], all);
      }
      ghost var ownerB := owner;
      ghost var covB := isCovered[..];
      var available;
      available, owner := TakeAllUncovered(isCovered, all, |kw|, owner, kw);
      KeywordPhaseStep(text, keywords, k, quotes, qi, owner0, ownerB, kmap, covB, all, available, owner, isCovered[..]);
      if available != [] {
        kmap := kmap[kw := available];
      }
    }
  }

  /** No two recorded spans, quotation or keyword, share a position. */
  ghost predicate ClaimsDisjoint(quotes: seq<string>, qi: seq<seq<nat>>, kmap: map<string, seq<nat>>) {
    && (forall q1, a1, q2, a2 ::
          0 <= q1 < |qi| && q1 < |quotes| && 0 <= a1 < |qi[q1]| &&
          0 <= q2 < |qi| && q2 < |quotes| && 0 <= a2 < |qi[q2]| && (q1 != q2 || a1 != a2) ==>
            !SpansOverlap(qi[q1][a1], |quotes[q1]|, qi[q2][a2], |quotes[q2]|))
    && (forall q, a, w, b ::
          0 <= q < |qi| && q < |quotes| && 0 <= a < |qi[q]| && w in kmap && 0 <= b < |kmap[w]| ==>
            !SpansOverlap(qi[q][a], |quotes[q]|, kmap[w][b], |w|))
    && (forall w1, b1, w2, b2 ::
          w1 in kmap && 0 <= b1 < |kmap[w1]| && w2 in kmap && 0 <= b2 < |kmap[w2]| && (w1 != w2 || b1 != b2) ==>
            !SpansOverlap(kmap[w1][b1], |w1|, kmap[w2][b2], |w2|))
  }

  /** Position `c` lies in some recorded span. */
  ghost predicate CellClaimed(quotes: seq<string>, qi: seq<seq<nat>>, kmap: map<string, seq<nat>>, c: int) {
    || (exists q, a :: 0 <= q < |qi| && q < |quotes| && 0 <= a < |qi[q]| && qi[q][a] <= c < qi[q][a] + |quotes[q]|)
    || (exists w, a :: w in kmap && 0 <= a < |kmap[w]| && kmap[w][a] <= c < kmap[w][a] + |w|)
  }

  /** Some position of `[i, i + len)` lies in a recorded span. */
  ghost predicate SpanShared(quotes: seq<string>, qi: seq<seq<nat>>, kmap: map<string, seq<nat>>, i: int, len: int) {
    exists c :: i <= c < i + len && CellClaimed(quotes, qi, kmap, c)
  }

  /** Two spans whose positions have different owners share no position. */
  lemma OwnedApart(owner: seq<Owner>, i: nat, l1: nat, who1: Owner, j: nat, l2: nat, who2: Owner)
    requires who1 != who2 && i + l1 <= |owner| && j + l2 <= |owner|
    requires forall c :: i <= c < i + l1 ==> owner[c] == who1
    requires forall c :: j <= c < j + l2 ==> owner[c] == who2
    ensures !SpansOverlap(i, l1, j, l2)
  {
    var c := if i < j then j else i;
    assert c < |owner| ==> (i <= c < i + l1 ==> owner[c] == who1) && (j <= c < j + l2 ==> owner[c] == who2);
  }

  /** The owner map makes the recorded spans pairwise disjoint. */
  lemma OwnersDisjoint(text: string, quotes: seq<string>, qi: seq<seq<nat>>, kmap: map<string, seq<nat>>,
                       owner: seq<Owner>)
    requires |owner| == |text| && QuoteClaims(text, quotes, qi, owner) && KeywordClaims(text, kmap, owner)
    ensures ClaimsDisjoint(quotes, qi, kmap)
  {
    forall q1, a1, q2, a2 |
      0 <= q1 < |qi| && q1 < |quotes| && 0 <= a1 < |qi[q1]| &&
      0 <= q2 < |qi| && q2 < |quotes| && 0 <= a2 < |qi[q2]| && (q1 != q2 || a1 != a2)
      ensures !SpansOverlap(qi[q1][a1], |quotes[q1]|, qi[q2][a2], |quotes[q2]|)
    {
      assert MatchAt(text, quotes[q1], qi[q1][a1]) && MatchAt(text, quotes[q2], qi[q2][a2]);
      OwnedApart(owner, qi[q1][a1], |quotes[q1]|, QuoteOwner(q1, a1), qi[q2][a2], |quotes[q2]|, QuoteOwner(q2, a2));
    }
    forall q, a, w, b |
      0 <= q < |qi| && q < |quotes| && 0 <= a < |qi[q]| && w in kmap && 0 <= b < |kmap[w]|
      ensures !SpansOverlap(qi[q][a], |quotes[q]|, kmap[w][b], |w|)
    {
      assert MatchAt(text, quotes[q], qi[q][a]) && MatchAt(Padded(text), Padded(w), kmap[w][b]);
      OwnedApart(owner, qi[q][a], |quotes[q]|, QuoteOwner(q, a), kmap[w][b], |w|, KeywordOwner(w, b));
    }
    forall w1, b1, w2, b2 |
      w1 in kmap && 0 <= b1 < |kmap[w1]| && w2 in kmap && 0 <= b2 < |kmap[w2]| && (w1 != w2 || b1 != b2)
      ensures !SpansOverlap(kmap[w1][b1], |w1|, kmap[w2][b2], |w2|)
    {
      assert MatchAt(Padded(text), Padded(w1), kmap[w1][b1]) && MatchAt(Padded(text), Padded(w2), kmap[w2][b2]);
      OwnedApart(owner, kmap[w1][b1], |w1|, KeywordOwner(w1, b1), kmap[w2][b2], |w2|, KeywordOwner(w2, b2));
    }
  }

  /** A touched span shares a position with a recorded span. */
  lemma TouchedShared(text: string, quotes: seq<string>, qi: seq<seq<nat>>, kmap: map<string, seq<nat>>,
                      owner: seq<Owner>, i: int, len: int)
    requires QuoteClaims(text, quotes, qi, owner) && KeywordClaims(text, kmap, owner) && Touched(owner, i, len)
    ensures SpanShared(quotes, qi, kmap, i, len)
  {
    var c :| i <= c < i + len && 0 <= c < |owner| && owner[c] != Free;
    assert CellClaimed(quotes, qi, kmap, c) by {
      if owner[c].QuoteOwner? {
        var q, a := owner[c].q, owner[c].a;
        assert qi[q][a] <= c < qi[q][a] + |quotes[q]|;
      } else {
        var w, a := owner[c].kw, owner[c].a;
        assert kmap[w][a] <= c < kmap[w][a] + |w|;
      }
    }
  }

  /** `map_numeric_hebrews`: the indices of each numeral's quotation (by
      position in `numericHebrews`) and of each number keyword in the verse.
      All recorded spans are occurrences and pairwise disjoint; in the default
      mode each quotation gets at most its first occurrence not overlapping an
      earlier quotation's span; otherwise, and for keywords in both modes, no
      occurrence is left without a position in some recorded span. */
  method MapNumericHebrews(v: VerseAndNumericHebrews, keywords: seq<string>, showOnlyOneMatch: bool)
    returns (quoteIndices: seq<seq<nat>>, keywordIndices: map<string, seq<nat>>)
    ensures QuoteIndicesMatch(v.verse.text, Quotes(v.numericHebrews), quoteIndices)
    ensures KeywordIndicesMatch(v.verse.text, keywordIndices)
    ensures forall w :: w in keywordIndices ==> w in keywords && keywordIndices[w] != []
    ensures forall w :: w in keywordIndices ==> Increasing(keywordIndices[w])
    ensures ClaimsDisjoint(Quotes(v.numericHebrews), quoteIndices, keywordIndices)
    ensures showOnlyOneMatch ==>
              forall q :: 0 <= q < |v.numericHebrews| ==>
                FirstFree(v.verse.text, Quotes(v.numericHebrews), quoteIndices, q)
    ensures !showOnlyOneMatch ==>
              forall q, i :: 0 <= q < |v.numericHebrews| && |v.numericHebrews[q].quote| > 0 &&
                             MatchAt(v.verse.text, v.numericHebrews[q].quote, i) ==>
                SpanShared(Quotes(v.numericHebrews), quoteIndices, keywordIndices, i, |v.numericHebrews[q].quote|)
    ensures forall k, i :: 0 <= k < |keywords| && |keywords[k]| > 0 &&
                           MatchAt(Padded(v.verse.text), Padded(keywords[k]), i) ==>
              SpanShared(Quotes(v.numericHebrews), quoteIndices, keywordIndices, i, |keywords[k]|)
  {
    var text := v.verse.text;
    var quotes := Quotes(v.numericHebrews);
    var isCovered := new bool[|text|](_ => false);
    ghost var owner0;
    quoteIndices, owner0 := MapQuotations(text, quotes, showOnlyOneMatch, isCovered);
    ghost var owner;
    keywordIndices, owner := MapKeywords(text, keywords, isCovered, quotes, quoteIndices, owner0);
    OwnersDisjoint(text, quotes, quoteIndices, keywordIndices, owner);
    if !showOnlyOneMatch {
      forall q, i | 0 <= q < |quotes| && |quotes[q]| > 0 && MatchAt(text, quotes[q], i)
        ensures SpanShared(quotes, quoteIndices, keywordIndices, i, |quotes[q]|)
      {
        TouchedGrows(owner0, owner, i, |quotes[q]|);
        TouchedShared(text, quotes, quoteIndices, keywordIndices, owner, i, |quotes[q]|);
      }
    }
    forall k, i | 0 <= k < |keywords| && |keywords[k]| > 0 && MatchAt(Padded(text), Padded(keywords[k]), i)
      ensures SpanShared(quotes, quoteIndices, keywordIndices, i, |keywords[k]|)
    {
      TouchedShared(text, quotes, quoteIndices, keywordIndices, owner, i, |keywords[k]|);
    }
  }
}
