/** The quota period around a moment, found by stepping from the period start with month ends clamped. */
module QuotaPeriods {

  /** A moment: calendar date and time of day. */
  datatype Stamp = Stamp(year: nat, month: nat, day: nat, time: nat)

  predicate Leap(year: nat) {
    year % 4 == 0 && (year % 100 != 0 || year % 400 == 0)
  }

  function DaysIn(year: nat, month: nat): nat {
    if month == 2 then (if Leap(year) then 29 else 28)
    else if month in {4, 6, 9, 11} then 30
    else 31
  }

  predicate Valid(s: Stamp) {
    1 <= s.year && 1 <= s.month <= 12 && 1 <= s.day <= DaysIn(s.year, s.month)
  }

  /** The Gregorian calendar: every fourth year is a leap year, except three in a cycle of 400 years. */
  lemma LeapExactly(year: nat)
    ensures Leap(year + 400) == Leap(year)
    ensures Leap(year) <==> year % 4 == 0 && year % 400 != 100 && year % 400 != 200 && year % 400 != 300
  {
    var cycle := year % 400;
    assert year % 4 == cycle % 4 && year % 100 == cycle % 100;
  }

  lemma MonthLengths(year: nat)
    ensures DaysIn(year, 1) == 31 && DaysIn(year, 2) == (if Leap(year) then 29 else 28) && DaysIn(year, 3) == 31
    ensures DaysIn(year, 4) == 30 && DaysIn(year, 5) == 31 && DaysIn(year, 6) == 30
    ensures DaysIn(year, 7) == 31 && DaysIn(year, 8) == 31 && DaysIn(year, 9) == 30
    ensures DaysIn(year, 10) == 31 && DaysIn(year, 11) == 30 && DaysIn(year, 12) == 31
  {
  }

  /** Months since the beginning of the calendar. */
  function Index(s: Stamp): int {
    12 * s.year + s.month - 1
  }

  function DaysAt(index: nat): nat {
    DaysIn(index / 12, index % 12 + 1)
  }

  predicate Before(a: Stamp, b: Stamp) {
    || Index(a) < Index(b)
    || (Index(a) == Index(b) && (a.day < b.day || (a.day == b.day && a.time < b.time)))
  }

  /** Year, month, day and time of day decide, in this order. */
  lemma BeforeExactly(a: Stamp, b: Stamp)
    requires Valid(a) && Valid(b)
    ensures Before(a, b) <==>
              || a.year < b.year
              || (a.year == b.year && a.month < b.month)
              || (a.year == b.year && a.month == b.month && a.day < b.day)
              || (a.year == b.year && a.month == b.month && a.day == b.day && a.time < b.time)
  {
  }

  function Min(a: nat, b: nat): nat {
    if a <= b then a else b
  }

  /** relativedelta: move by months and clamp the day to the length of the month reached. */
  function AddMonths(s: Stamp, months: int): Stamp
    requires Index(s) + months >= 0
  {
    var index := Index(s) + months;
    Stamp(index / 12, index % 12 + 1, Min(s.day, DaysAt(index)), s.time)
  }

  /** relativedelta subtracted from a moment. */
  function SubtractMonths(s: Stamp, months: nat): Stamp
    requires Index(s) >= months
  {
    AddMonths(s, -(months as int))
  }

  /** Moving by a year keeps the month and clamps 29 February. */
  lemma AddYear(s: Stamp)
    requires Valid(s)
    ensures AddMonths(s, 12) == Stamp(s.year + 1, s.month, Min(s.day, DaysIn(s.year + 1, s.month)), s.time)
  {
  }

  lemma AddMonthsIndex(s: Stamp, months: int)
    requires Index(s) + months >= 0 && 1 <= s.day && Index(s) + months >= 12
    ensures Index(AddMonths(s, months)) == Index(s) + months && Valid(AddMonths(s, months))
  {
  }

  /** The first boundary that is not before `now`. */
  function PeriodEnd(s: Stamp, now: Stamp, months: nat): (end: Stamp)
    requires Valid(s) && months > 0
    ensures Valid(end) && !Before(end, now)
    decreases Index(now) - Index(s) + 1
  {
    if Before(s, now) then
      AddMonthsIndex(s, months);
      PeriodEnd(AddMonths(s, months), now, months)
    else s
  }

  /** k steps from s. */
  function Boundary(s: Stamp, months: nat, k: nat): Stamp
    requires Valid(s)
    ensures Valid(Boundary(s, months, k)) && Index(Boundary(s, months, k)) == Index(s) + k * months
    ensures Boundary(s, months, k).time == s.time
  {
    if k == 0 then s
    else
      var prior := Boundary(s, months, k - 1);
      AddMonthsIndex(prior, months);
      AddMonths(prior, months)
  }

  /** Shortest of the months reached by up to k steps, and the day to begin with. */
  function ShortestDay(s: Stamp, months: nat, k: nat): nat
    requires Valid(s)
  {
    if k == 0 then s.day
    else
      assert k * months >= 0;
      Min(ShortestDay(s, months, k - 1), DaysAt(Index(s) + k * months))
  }

  /** The day of a boundary is the smallest of the original day and the lengths of all months stepped on: once
      clamped it never recovers. */
  lemma {:induction false} BoundaryDay(s: Stamp, months: nat, k: nat)
    requires Valid(s)
    ensures Boundary(s, months, k).day == ShortestDay(s, months, k)
  {
    if k > 0 {
      BoundaryDay(s, months, k - 1);
      assert Index(Boundary(s, months, k - 1)) + months == Index(s) + k * months;
    }
  }

  lemma {:induction false} BoundaryShift(s: Stamp, months: nat, k: nat)
    requires Valid(s)
    ensures Index(s) + months >= 0 && Valid(AddMonths(s, months))
    ensures Boundary(AddMonths(s, months), months, k) == Boundary(s, months, k + 1)
  {
    AddMonthsIndex(s, months);
    if k > 0 {
      BoundaryShift(s, months, k - 1);
    } else {
      assert Boundary(s, months, 0) == s;
    }
  }

  /** The end of the period is a boundary, the first that is not before `now`. */
  lemma {:induction false} PeriodEndIsFirst(s: Stamp, now: Stamp, months: nat) returns (k: nat)
    requires Valid(s) && months > 0
    ensures PeriodEnd(s, now, months) == Boundary(s, months, k)
    ensures !Before(Boundary(s, months, k), now)
    ensures forall j | 0 <= j < k :: Before(Boundary(s, months, j), now)
    decreases Index(now) - Index(s) + 1
  {
    if Before(s, now) {
      AddMonthsIndex(s, months);
      var next := AddMonths(s, months);
      var n := PeriodEndIsFirst(next, now, months);
      k := n + 1;
      BoundaryShift(s, months, n);
      forall j | 0 <= j < k
        ensures Before(Boundary(s, months, j), now)
      {
        if j > 0 {
          BoundaryShift(s, months, j - 1);
        }
      }
    } else {
      k := 0;
    }
  }

  /** The reported start, one step back from a boundary, is at or before the boundary stepped from, and is that
      boundary exactly when the step did not clamp the day. */
  lemma StepBack(s: Stamp, months: nat)
    requires Valid(s)
    ensures Valid(AddMonths(s, months)) && Index(AddMonths(s, months)) >= months
    ensures !Before(s, SubtractMonths(AddMonths(s, months), months))
    ensures SubtractMonths(AddMonths(s, months), months) == s <==> AddMonths(s, months).day == s.day
  {
  }

  /** A period that began lies around `now`: start < now <= end. */
  lemma PeriodContainsNow(s: Stamp, now: Stamp, months: nat)
    requires Valid(s) && months > 0 && Before(s, now)
    ensures var end := PeriodEnd(s, now, months);
            Valid(end) && Index(end) >= months && Before(SubtractMonths(end, months), now) && !Before(end, now)
  {
    var k := PeriodEndIsFirst(s, now, months);
    assert Boundary(s, months, 0) == s;
    assert k > 0 && Before(Boundary(s, months, k - 1), now);
    StepBack(Boundary(s, months, k - 1), months);
  }

  /** Exactly when two neighbouring periods meet: the reported start of the later one is the end of the earlier
      one unless the day was clamped in between; then they overlap. */
  lemma PeriodsMeetExactly(s: Stamp, months: nat, k: nat)
    requires Valid(s) && months > 0
    ensures Index(Boundary(s, months, k + 1)) >= months
    ensures !Before(Boundary(s, months, k), SubtractMonths(Boundary(s, months, k + 1), months))
    ensures SubtractMonths(Boundary(s, months, k + 1), months) == Boundary(s, months, k)
        <==> ShortestDay(s, months, k + 1) == ShortestDay(s, months, k)
  {
    var earlier := Boundary(s, months, k);
    StepBack(earlier, months);
    assert Boundary(s, months, k + 1) == AddMonths(earlier, months);
    BoundaryDay(s, months, k);
    BoundaryDay(s, months, k + 1);
  }

  predicate LaterDay(a: Stamp, b: Stamp) {
    Index(a) > Index(b) || (Index(a) == Index(b) && a.day > b.day)
  }

  /** What the usage queries count: dates from the first day of the period to the last, both included. */
  predicate Counted(d: Stamp, start: Stamp, end: Stamp) {
    !LaterDay(start, d) && !LaterDay(d, end)
  }

  /** Exactly which days two neighbouring periods both count: from the start of the later one to the end of the
      earlier one. So the boundary day always counts in both, and it alone does when they meet exactly. */
  lemma CountedTwiceExactly(s: Stamp, months: nat, k: nat, d: Stamp)
    requires Valid(s) && months > 0 && Index(Boundary(s, months, k)) >= months
    ensures Index(Boundary(s, months, k + 1)) >= months
    ensures var end, next := Boundary(s, months, k), Boundary(s, months, k + 1);
            var start, later := SubtractMonths(end, months), SubtractMonths(next, months);
            && (Counted(d, start, end) && Counted(d, later, next) <==> !LaterDay(later, d) && !LaterDay(d, end))
            && Counted(end, start, end) && Counted(end, later, next)
            && (later == end ==> (Counted(d, start, end) && Counted(d, later, next) <==>
                                    Index(d) == Index(end) && d.day == end.day))
  {
    var end := Boundary(s, months, k);
    StepBack(end, months);
    assert Boundary(s, months, k + 1) == AddMonths(end, months);
    AddMonthsIndex(end, months);
  }

  /** A period that starts on the 31st of January: the second month's window begins three days early. */
  lemma JanuaryExample()
    ensures var s := Stamp(2023, 1, 31, 0);
            && PeriodEnd(s, Stamp(2023, 2, 10, 0), 1) == Stamp(2023, 2, 28, 0)
            && SubtractMonths(Stamp(2023, 2, 28, 0), 1) == Stamp(2023, 1, 28, 0)
            && PeriodEnd(s, Stamp(2023, 3, 10, 0), 1) == Stamp(2023, 3, 28, 0)
  {
  }

  // ---------- The loops ----------

  /** The periods get_quota_usage counts in. */
  method QuotaPeriodsAt(periodStart: Stamp, now: Stamp)
    returns (startYear: Stamp, endYear: Stamp, startMonth: Stamp, endMonth: Stamp)
    requires Valid(periodStart)
    ensures endYear == PeriodEnd(periodStart, now, 12) && endMonth == PeriodEnd(periodStart, now, 1)
    ensures startYear == SubtractMonths(endYear, 12) && startMonth == SubtractMonths(endMonth, 1)
    ensures Before(periodStart, now) ==>
              && Before(startYear, now) && !Before(endYear, now)
              && Before(startMonth, now) && !Before(endMonth, now)
  {
    endYear := periodStart;
    while Before(endYear, now)
      invariant Valid(endYear) && PeriodEnd(endYear, now, 12) == PeriodEnd(periodStart, now, 12)
      decreases Index(now) - Index(endYear) + 1
    {
      AddMonthsIndex(endYear, 12);
      endYear := AddMonths(endYear, 12);
    }
    startYear := SubtractMonths(endYear, 12);
    endMonth := periodStart;
    while Before(endMonth, now)
      invariant Valid(endMonth) && PeriodEnd(endMonth, now, 1) == PeriodEnd(periodStart, now, 1)
      decreases Index(now) - Index(endMonth) + 1
    {
      AddMonthsIndex(endMonth, 1);
      endMonth := AddMonths(endMonth, 1);
    }
    startMonth := SubtractMonths(endMonth, 1);
    if Before(periodStart, now) {
      PeriodContainsNow(periodStart, now, 12);
      PeriodContainsNow(periodStart, now, 1);
    }
  }

  /** get_next_quota_payment: the end of the yearly period. */
  method NextQuotaPayment(periodStart: Stamp, now: Stamp) returns (next: Stamp)
    requires Valid(periodStart)
    ensures next == PeriodEnd(periodStart, now, 12)
  {
    next := periodStart;
    while Before(next, now)
      invariant Valid(next) && PeriodEnd(next, now, 12) == PeriodEnd(periodStart, now, 12)
      decreases Index(now) - Index(next) + 1
    {
      AddMonthsIndex(next, 12);
      next := AddMonths(next, 12);
    }
  }
}
