/**
 * The calendar checks of the filename-date fixer: the Gregorian leap-year
 * rule (the one ISO 8601 uses) and the day-of-month validity test, together
 * with the month-length table they are measured against.
 */
module Calendar {

  const JANUARY := 1
  const FEBRUARY := 2
  const MARCH := 3
  const MAY := 5
  const JULY := 7
  const AUGUST := 8
  const OCTOBER := 10
  const DECEMBER := 12

  /**
   * Divisible by 4, but not by 100 unless also by 400. Java's `%` truncates
   * where Dafny's is Euclidean, but the two agree on whether the remainder is
   * zero, which is all this test looks at.
   */
  predicate IsLeap(year: int) {
    if year % 4 != 0 then false
    else if year % 100 != 0 then true
    else if year % 400 != 0 then false
    else true
  }

  /** Length of a month in the proleptic Gregorian calendar (java.time.Month.length). */
  function DaysInMonth(year: int, month: int): (n: int)
    requires JANUARY <= month <= DECEMBER
    ensures 28 <= n <= 31
    ensures month == FEBRUARY ==> (n == 29 <==> IsLeap(year))
  {
    if month == FEBRUARY then (if IsLeap(year) then 29 else 28)
    else if month == 4 || month == 6 || month == 9 || month == 11 then 30
    else 31
  }

  predicate IsValidDate(year: int, month: int, day: int) {
    JANUARY <= month <= DECEMBER && 1 <= day <= DaysInMonth(year, month)
  }

  /**
   * The switch of isInvalidDay as written, including the February case that
   * has no `break` and so falls through into the 30-day test of `default`.
   */
  predicate IsInvalidDay(month: int, day: int, year: int) {
    if month < JANUARY || month > DECEMBER then true
    else if month in {JANUARY, MARCH, MAY, JULY, AUGUST, OCTOBER, DECEMBER} then
      day < 1 || day > 31
    else if month == FEBRUARY then
      var lastValidDay := if IsLeap(year) then 29 else 28;
      if day < 1 || day > lastValidDay then true
      else day < 1 || day > 30
    else
      day < 1 || day > 30
  }

  lemma LeapRule(year: int)
    ensures IsLeap(year) <==> year % 4 == 0 && (year % 100 != 0 || year % 400 == 0)
    ensures IsLeap(year) == IsLeap(year + 400)
  {
  }

  lemma LeapExamples()
    ensures IsLeap(2000) && IsLeap(2024) && IsLeap(0)
    ensures !IsLeap(1900) && !IsLeap(2023)
  {
  }

  /** A month outside 1..12 is invalid whatever the day. */
  lemma InvalidMonth(month: int, day: int, year: int)
    requires month < JANUARY || month > DECEMBER
    ensures IsInvalidDay(month, day, year)
  {
  }

  lemma ThirtyOneDayMonths(month: int, day: int, year: int)
    requires month in {JANUARY, MARCH, MAY, JULY, AUGUST, OCTOBER, DECEMBER}
    ensures IsInvalidDay(month, day, year) <==> day < 1 || day > 31
  {
  }

  lemma ThirtyDayMonths(month: int, day: int, year: int)
    requires month in {4, 6, 9, 11}
    ensures IsInvalidDay(month, day, year) <==> day < 1 || day > 30
  {
  }

  /** The fall-through from February into the 30-day test never changes the answer. */
  lemma FebruaryFallThrough(day: int, year: int)
    ensures IsInvalidDay(FEBRUARY, day, year) <==> day < 1 || day > (if IsLeap(year) then 29 else 28)
  {
  }

  /** isInvalidDay is exactly the negation of "a real calendar date". */
  lemma InvalidDayExactly(month: int, day: int, year: int)
    ensures IsInvalidDay(month, day, year) <==> !IsValidDate(year, month, day)
  {
  }

  lemma FebruaryExamples()
    ensures !IsInvalidDay(FEBRUARY, 29, 2000) && !IsInvalidDay(FEBRUARY, 29, 2024)
    ensures IsInvalidDay(FEBRUARY, 29, 1900) && IsInvalidDay(FEBRUARY, 30, 2024)
  {
  }

  // The 400-year cycle of the Gregorian rule.

  /** The number of leap years among year, year + 1, ..., year + n - 1. */
  function LeapYearsIn(year: int, n: nat): nat {
    if n == 0 then 0 else LeapYearsIn(year, n - 1) + (if IsLeap(year + n - 1) then 1 else 0)
  }

  /** Multiples of 4, less those of 100, plus those of 400, among the years before `x` (counted from 0). */
  function LeapCountBelow(x: int): int {
    (x + 3) / 4 - (x + 99) / 100 + (x + 399) / 400
  }

  lemma LeapCountStep(x: int)
    ensures LeapCountBelow(x + 1) - LeapCountBelow(x) == if IsLeap(x) then 1 else 0
  {
    assert (x + 4) / 4 - (x + 3) / 4 == if x % 4 == 0 then 1 else 0;
    assert (x + 100) / 100 - (x + 99) / 100 == if x % 100 == 0 then 1 else 0;
    assert (x + 400) / 400 - (x + 399) / 400 == if x % 400 == 0 then 1 else 0;
  }

  lemma {:induction false} LeapYearsInCount(year: int, n: nat)
    ensures LeapYearsIn(year, n) == LeapCountBelow(year + n) - LeapCountBelow(year)
  {
    if n > 0 {
      LeapYearsInCount(year, n - 1);
      LeapCountStep(year + n - 1);
    }
  }

  /** Any 400 consecutive years hold exactly 97 leap years, so 146097 days. */
  lemma LeapYearsPerCycle(year: int)
    ensures LeapYearsIn(year, 400) == 97
    ensures 365 * 400 + LeapYearsIn(year, 400) == 146097
  {
    LeapYearsInCount(year, 400);
    assert (year + 403) / 4 == (year + 3) / 4 + 100;
    assert (year + 499) / 100 == (year + 99) / 100 + 4;
    assert (year + 799) / 400 == (year + 399) / 400 + 1;
  }
}
