/** The proleptic Gregorian calendar on integer day ordinals.

    A day ordinal counts whole days from 1970-01-01, which is ordinal 0.  For
    a date of a year before 0 or after 99 it is the number
    `Date.UTC(year, month, day) / MS_PER_DAY`; `Date.UTC` reads the years 0
    to 99 as 1900 to 1999, which module Timeline models.  A `CivilDate` is the same day as the JavaScript `Date`
    accessors report it: `getFullYear()`, `getMonth()` (0 = January ... 11 =
    December) and `getDate()` (the day of the month, from 1). */
module Calendar {

  datatype CivilDate = CivilDate(year: int, month: int, day: int)

  /** A (year, month index) pair: the key `${getFullYear()}-${getMonth()}`
      under which the timeline counts days. */
  datatype MonthKey = MonthKey(year: int, month: int)

  predicate IsLeapYear(year: int) {
    year % 4 == 0 && (year % 100 != 0 || year % 400 == 0)
  }

  function DaysInYear(year: int): int {
    if IsLeapYear(year) then 366 else 365
  }

  function DaysInMonth(year: int, month: int): int
    requires 0 <= month < 12
  {
    if month == 1 then (if IsLeapYear(year) then 29 else 28)
    else if month == 3 || month == 5 || month == 8 || month == 10 then 30
    else 31
  }

  predicate ValidDate(d: CivilDate) {
    0 <= d.month < 12 && 1 <= d.day <= DaysInMonth(d.year, d.month)
  }

  /** Days of `year` that lie before the first day of month index `month`. */
  function DaysBeforeMonth(year: int, month: int): (days: int)
    requires 0 <= month <= 12
    ensures 28 * month <= days <= 31 * month
  {
    if month == 0 then 0 else DaysBeforeMonth(year, month - 1) + DaysInMonth(year, month - 1)
  }

  /** Days from 1970-01-01 to the first of January of `year` (negative before 1970). */
  function DaysBeforeYear(year: int): int {
    365 * (year - 1970) + (year - 1) / 4 - (year - 1) / 100 + (year - 1) / 400 - 477
  }

  /** The day ordinal of a date; for a year outside 0 to 99 it is
      `Date.UTC(year, month, day)` divided by the length of a day. A day
      beyond the end of the month counts on into the following month. */
  function DaysFromCivil(d: CivilDate): int
    requires 0 <= d.month < 12
  {
    DaysBeforeYear(d.year) + DaysBeforeMonth(d.year, d.month) + d.day - 1
  }

  /** The year that the `Date` constructor and `Date.UTC` count for the
      year argument `year`: they read the years 0 to 99 as 1900 to 1999 and
      every other year as it is. */
  function FullYear(year: int): int {
    if 0 <= year <= 99 then 1900 + year else year
  }

  lemma DaysBeforeYearStep(year: int)
    ensures DaysBeforeYear(year + 1) == DaysBeforeYear(year) + DaysInYear(year)
  {
    QuotientStep4(year);
    QuotientStep100(year);
    QuotientStep400(year);
    CenturyDivisibility(year);
  }

  lemma QuotientStep4(year: int)
    ensures year / 4 - (year - 1) / 4 == if year % 4 == 0 then 1 else 0
  {
  }

  lemma QuotientStep100(year: int)
    ensures year / 100 - (year - 1) / 100 == if year % 100 == 0 then 1 else 0
  {
  }

  lemma QuotientStep400(year: int)
    ensures year / 400 - (year - 1) / 400 == if year % 400 == 0 then 1 else 0
  {
  }

  lemma CenturyDivisibility(year: int)
    ensures year % 100 == 0 ==> year % 4 == 0
    ensures year % 400 == 0 ==> year % 100 == 0
  {
    if year % 100 == 0 {
      assert year == 4 * (25 * (year / 100));
    }
    if year % 400 == 0 {
      assert year == 100 * (4 * (year / 400));
    }
  }

  /** The first days of later years have larger ordinals. */
  lemma {:induction false} DaysBeforeYearMonotone(a: int, b: int)
    requires a < b
    ensures DaysBeforeYear(a + 1) <= DaysBeforeYear(b)
    decreases b - a
  {
    if a + 1 < b {
      DaysBeforeYearMonotone(a + 1, b);
      DaysBeforeYearStep(a + 1);
    }
  }

  /** The months of a year fill the year exactly. */
  lemma MonthsFillYear(year: int)
    ensures DaysBeforeMonth(year, 12) == DaysInYear(year)
  {
    assert DaysBeforeMonth(year, 1) == 31;
    assert DaysBeforeMonth(year, 2) == if IsLeapYear(year) then 60 else 59;
    assert DaysBeforeMonth(year, 3) == if IsLeapYear(year) then 91 else 90;
    assert DaysBeforeMonth(year, 4) == if IsLeapYear(year) then 121 else 120;
    assert DaysBeforeMonth(year, 5) == if IsLeapYear(year) then 152 else 151;
    assert DaysBeforeMonth(year, 6) == if IsLeapYear(year) then 182 else 181;
    assert DaysBeforeMonth(year, 7) == if IsLeapYear(year) then 213 else 212;
    assert DaysBeforeMonth(year, 8) == if IsLeapYear(year) then 244 else 243;
    assert DaysBeforeMonth(year, 9) == if IsLeapYear(year) then 274 else 273;
    assert DaysBeforeMonth(year, 10) == if IsLeapYear(year) then 305 else 304;
    assert DaysBeforeMonth(year, 11) == if IsLeapYear(year) then 335 else 334;
  }

  /** The first days of later months of one year have larger day-of-year numbers. */
  lemma {:induction false} DaysBeforeMonthMonotone(year: int, a: int, b: int)
    requires 0 <= a < b <= 12
    ensures DaysBeforeMonth(year, a + 1) <= DaysBeforeMonth(year, b)
    decreases b - a
  {
    if a + 1 < b {
      DaysBeforeMonthMonotone(year, a + 1, b);
    }
  }

  /** The calendar day after `d`. */
  function NextDay(d: CivilDate): (e: CivilDate)
    requires ValidDate(d)
    ensures ValidDate(e)
  {
    if d.day < DaysInMonth(d.year, d.month) then CivilDate(d.year, d.month, d.day + 1)
    else if d.month < 11 then CivilDate(d.year, d.month + 1, 1)
    else CivilDate(d.year + 1, 0, 1)
  }

  /** The calendar day before `d`. */
  function PrevDay(d: CivilDate): (e: CivilDate)
    requires ValidDate(d)
    ensures ValidDate(e)
  {
    if d.day > 1 then CivilDate(d.year, d.month, d.day - 1)
    else if d.month > 0 then CivilDate(d.year, d.month - 1, DaysInMonth(d.year, d.month - 1))
    else CivilDate(d.year - 1, 11, 31)
  }

  /** The day after has the next ordinal. */
  lemma NextDayOrdinal(d: CivilDate)
    requires ValidDate(d)
    ensures DaysFromCivil(NextDay(d)) == DaysFromCivil(d) + 1
  {
    if d.day == DaysInMonth(d.year, d.month) {
      if d.month < 11 {
        assert DaysBeforeMonth(d.year, d.month + 1) == DaysBeforeMonth(d.year, d.month) + DaysInMonth(d.year, d.month);
      } else {
        YearEnd(d.year);
      }
    }
  }

  /** The day before has the previous ordinal. */
  lemma PrevDayOrdinal(d: CivilDate)
    requires ValidDate(d)
    ensures DaysFromCivil(PrevDay(d)) == DaysFromCivil(d) - 1
  {
    if d.day == 1 {
      if d.month > 0 {
        assert DaysBeforeMonth(d.year, d.month) == DaysBeforeMonth(d.year, d.month - 1) + DaysInMonth(d.year, d.month - 1);
      } else {
        YearEnd(d.year - 1);
      }
    }
  }

  /** The day after 31 December is 1 January of the next year. */
  lemma YearEnd(year: int)
    ensures DaysBeforeYear(year) + DaysBeforeMonth(year, 11) + 31 == DaysBeforeYear(year + 1)
  {
    DaysBeforeYearStep(year);
    MonthsFillYear(year);
  }

  /** Stepping back a day and then forward again returns to the same date. */
  lemma NextOfPrevDay(d: CivilDate)
    requires ValidDate(d)
    ensures NextDay(PrevDay(d)) == d
  {
  }

  /** The calendar date of day ordinal `n`: 1 January 1970 stepped `n` days
      forward (or back, for a negative `n`). This is what the `Date`
      accessors report for the day. */
  function CivilFromDays(n: int): (d: CivilDate)
    ensures ValidDate(d)
    decreases if n < 0 then -n else n
  {
    if n == 0 then CivilDate(1970, 0, 1)
    else if n > 0 then NextDay(CivilFromDays(n - 1))
    else PrevDay(CivilFromDays(n + 1))
  }

  /** The date of an ordinal has that ordinal. */
  lemma {:induction false} CivilFromDaysInverse(n: int)
    ensures ValidDate(CivilFromDays(n))
    ensures DaysFromCivil(CivilFromDays(n)) == n
    decreases if n < 0 then -n else n
  {
    if n > 0 {
      CivilFromDaysInverse(n - 1);
      NextDayOrdinal(CivilFromDays(n - 1));
    } else if n < 0 {
      CivilFromDaysInverse(n + 1);
      PrevDayOrdinal(CivilFromDays(n + 1));
    }
  }

  /** The ordinal of a valid date lies within the days of its year. */
  lemma DaysFromCivilInYear(d: CivilDate)
    requires ValidDate(d)
    ensures DaysBeforeYear(d.year) <= DaysFromCivil(d) < DaysBeforeYear(d.year + 1)
  {
    DaysBeforeYearStep(d.year);
    MonthsFillYear(d.year);
    assert DaysBeforeMonth(d.year, d.month + 1) == DaysBeforeMonth(d.year, d.month) + DaysInMonth(d.year, d.month);
    if d.month < 11 { DaysBeforeMonthMonotone(d.year, d.month, 12); }
  }

  /** Distinct valid dates have distinct ordinals. */
  lemma DaysFromCivilInjective(c: CivilDate, d: CivilDate)
    requires ValidDate(c) && ValidDate(d)
    requires DaysFromCivil(c) == DaysFromCivil(d)
    ensures c == d
  {
    DaysFromCivilInYear(c);
    DaysFromCivilInYear(d);
    if c.year < d.year {
      DaysBeforeYearMonotone(c.year, d.year);
    } else if d.year < c.year {
      DaysBeforeYearMonotone(d.year, c.year);
    }
    assert c.year == d.year;
    if c.month < d.month {
      DaysBeforeMonthMonotone(c.year, c.month, d.month);
    } else if d.month < c.month {
      DaysBeforeMonthMonotone(c.year, d.month, c.month);
    }
  }

  /** Ordinals and valid calendar dates are in one-to-one correspondence. */
  lemma CivilFromDaysOfCivil(d: CivilDate)
    requires ValidDate(d)
    ensures CivilFromDays(DaysFromCivil(d)) == d
  {
    CivilFromDaysInverse(DaysFromCivil(d));
    DaysFromCivilInjective(CivilFromDays(DaysFromCivil(d)), d);
  }

  /** The ordinal of the first day of the month that holds ordinal `t`. */
  function MonthStart(t: int): int {
    var d := CivilFromDays(t);
    DaysFromCivil(CivilDate(d.year, d.month, 1))
  }

  /** A month starts `day - 1` days before its day number `day`. */
  lemma MonthStartOffset(t: int)
    ensures MonthStart(t) == t - CivilFromDays(t).day + 1
  {
    CivilFromDaysInverse(t);
  }

  /** The ordinal of `t` with its day of the month set to `dayOfMonth`, as
      `Date.setDate` does it: the result is counted from the first of the
      month, so a day beyond the month's end rolls over into the following
      months and a day below 1 into the preceding ones. */
  function SetDate(t: int, dayOfMonth: int): (r: int)
    ensures r == MonthStart(t) + dayOfMonth - 1
  {
    MonthStartOffset(t);
    t - CivilFromDays(t).day + dayOfMonth
  }

  /** Setting the day of the month one past the current one moves to the next day. */
  lemma SetDateNext(t: int)
    ensures SetDate(t, CivilFromDays(t).day + 1) == t + 1
  {
  }

  /** Setting a day that the month has gives exactly that date. */
  lemma SetDateInMonth(t: int, dayOfMonth: int)
    requires 1 <= dayOfMonth <= DaysInMonth(CivilFromDays(t).year, CivilFromDays(t).month)
    ensures CivilFromDays(SetDate(t, dayOfMonth)) == CivilDate(CivilFromDays(t).year, CivilFromDays(t).month, dayOfMonth)
  {
    var d := CivilFromDays(t);
    var e := CivilDate(d.year, d.month, dayOfMonth);
    DaysFromCivilOfDay(d.year, d.month, dayOfMonth);
    assert SetDate(t, dayOfMonth) == DaysFromCivil(e);
    CivilFromDaysOfCivil(e);
  }

  /** Within a month, ordinals go up with the day number. */
  lemma DaysFromCivilOfDay(year: int, month: int, day: int)
    requires 0 <= month < 12
    ensures DaysFromCivil(CivilDate(year, month, day)) == DaysFromCivil(CivilDate(year, month, 1)) + day - 1
  {
  }

  /** Stepping an ordinal by one steps its calendar date by one day. */
  lemma CivilFromDaysNext(n: int)
    ensures CivilFromDays(n + 1) == NextDay(CivilFromDays(n))
  {
    if n < 0 {
      NextOfPrevDay(CivilFromDays(n + 1));
    }
  }

  /** The month key of a day ordinal. */
  function KeyOf(n: int): MonthKey {
    var d := CivilFromDays(n);
    MonthKey(d.year, d.month)
  }

  /** Chronological order of months. */
  predicate KeyBefore(a: MonthKey, b: MonthKey) {
    a.year < b.year || (a.year == b.year && a.month < b.month)
  }

  /** From one day to the next, either the month stays and the day of the
      month goes up by one, or the month ends, a later month begins, and the
      new day is its first. */
  lemma KeyStep(n: int)
    ensures KeyOf(n + 1) == KeyOf(n) ==> CivilFromDays(n + 1).day == CivilFromDays(n).day + 1
    ensures KeyOf(n + 1) != KeyOf(n) ==>
              KeyBefore(KeyOf(n), KeyOf(n + 1)) && CivilFromDays(n + 1).day == 1 &&
              CivilFromDays(n).day == DaysInMonth(KeyOf(n).year, KeyOf(n).month)
  {
    CivilFromDaysNext(n);
  }
}
