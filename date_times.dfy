/**
 * The part of java.time.LocalDateTime the filename-date fixer uses: a
 * date-time record and the three adjusters withYear, withMonth and
 * withDayOfMonth. An adjuster that would throw DateTimeException returns None.
 */
module DateTimes {
  import opened Wrappers
  import opened Calendar

  const MIN_YEAR := -999_999_999
  const MAX_YEAR := 999_999_999

  datatype DateTime = DateTime(year: int, month: int, day: int,
                               hour: int, minute: int, second: int, nano: int)
  {
    /** Every value a LocalDateTime can hold. */
    predicate Valid() {
      && MIN_YEAR <= year <= MAX_YEAR
      && IsValidDate(year, month, day)
      && 0 <= hour < 24 && 0 <= minute < 60 && 0 <= second < 60
      && 0 <= nano < 1_000_000_000
    }

    /** Same hour, minute, second and nano as `other`. */
    predicate SameTimeOfDay(other: DateTime) {
      hour == other.hour && minute == other.minute && second == other.second && nano == other.nano
    }
  }

  /** What File.lastModified() reads as 0 ms, shown here in UTC. */
  const Epoch := DateTime(1970, 1, 1, 0, 0, 0, 0)

  /** LocalDateTime.isBefore: `a` comes first in the order of year, month, day, hour, minute, second, nano. */
  predicate IsBefore(a: DateTime, b: DateTime) {
    if a.year != b.year then a.year < b.year
    else if a.month != b.month then a.month < b.month
    else if a.day != b.day then a.day < b.day
    else if a.hour != b.hour then a.hour < b.hour
    else if a.minute != b.minute then a.minute < b.minute
    else if a.second != b.second then a.second < b.second
    else a.nano < b.nano
  }

  /** The instant of `t`, read in UTC, has a negative number of epoch milliseconds. */
  predicate BeforeEpoch(t: DateTime) {
    IsBefore(t, Epoch)
  }

  /** A LocalDateTime lies before the epoch exactly when its year is before 1970. */
  lemma BeforeEpochYear(t: DateTime)
    requires t.Valid()
    ensures BeforeEpoch(t) <==> t.year < 1970
  {
  }

  /**
   * LocalDate.resolvePreviousValid: keep the day unless it runs past the end
   * of a 30-day month or of February in `year`.
   */
  function ResolvePreviousValid(year: int, month: int, day: int): (d: int)
    ensures JANUARY <= month <= DECEMBER && day <= 31 ==> d == if DaysInMonth(year, month) < day then DaysInMonth(year, month) else day
  {
    if month == FEBRUARY then (if day < DaysInMonth(year, FEBRUARY) then day else DaysInMonth(year, FEBRUARY))
    else if month == 4 || month == 6 || month == 9 || month == 11 then (if day < 30 then day else 30)
    else day
  }

  function WithYear(t: DateTime, year: int): Option<DateTime> {
    if year < MIN_YEAR || MAX_YEAR < year then None
    else Some(t.(year := year, day := ResolvePreviousValid(year, t.month, t.day)))
  }

  function WithMonth(t: DateTime, month: int): Option<DateTime> {
    if month < JANUARY || DECEMBER < month then None
    else Some(t.(month := month, day := ResolvePreviousValid(t.year, month, t.day)))
  }

  function WithDayOfMonth(t: DateTime, day: int): Option<DateTime> {
    if JANUARY <= t.month <= DECEMBER && IsValidDate(t.year, t.month, day) then Some(t.(day := day))
    else None
  }

  /** lastModified.withYear(year).withMonth(month).withDayOfMonth(day). */
  function ReplaceDate(t: DateTime, year: int, month: int, day: int): Option<DateTime> {
    match WithYear(t, year)
    case None => None
    case Some(t1) =>
      match WithMonth(t1, month)
      case None => None
      case Some(t2) => WithDayOfMonth(t2, day)
  }

  /**
   * The clamping done by withYear and withMonth never reaches the result:
   * for an in-range year the chain succeeds exactly on a real calendar date,
   * and then yields that date with the old time of day.
   */
  lemma ReplaceDateExact(t: DateTime, year: int, month: int, day: int)
    requires MIN_YEAR <= year <= MAX_YEAR
    ensures ReplaceDate(t, year, month, day).Some? <==> IsValidDate(year, month, day)
    ensures ReplaceDate(t, year, month, day).Some? ==>
      ReplaceDate(t, year, month, day).value == t.(year := year, month := month, day := day)
  {
  }

  /** The adjusted value is again a LocalDateTime. */
  lemma ReplaceDateValid(t: DateTime, year: int, month: int, day: int)
    requires t.Valid()
    requires ReplaceDate(t, year, month, day).Some?
    ensures ReplaceDate(t, year, month, day).value.Valid()
    ensures ReplaceDate(t, year, month, day).value.SameTimeOfDay(t)
  {
  }
}
