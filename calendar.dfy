/**
 * The proleptic Gregorian calendar as Python's `date` sees it: a date is a
 * valid (year, month, day) triple, dates compare lexicographically, and day
 * arithmetic moves along the ordinal day count (1 January of year 1 is day 1).
 */
module Calendar {

  datatype YearMonthDay = YearMonthDay(year: int, month: int, day: int)

  predicate IsLeapYear(year: int) {
    year % 4 == 0 && (year % 100 != 0 || year % 400 == 0)
  }

  function DaysInMonth(year: int, month: int): (n: int)
    requires 1 <= month <= 12
    ensures 28 <= n <= 31
    ensures n == 29 <==> month == 2 && IsLeapYear(year)
  {
    if month == 2 then (if IsLeapYear(year) then 29 else 28)
    else if month == 4 || month == 6 || month == 9 || month == 11 then 30
    else 31
  }

  predicate IsValid(d: YearMonthDay) {
    1 <= d.month <= 12 && 1 <= d.day <= DaysInMonth(d.year, d.month)
  }

  /** A calendar date; like Python's `date`, it cannot hold 30 February. */
  type Date = d: YearMonthDay | IsValid(d) witness YearMonthDay(1970, 1, 1)

  function DaysInYear(year: int): int {
    if IsLeapYear(year) then 366 else 365
  }

  /** Days in the years before `year` (Python's `_days_before_year`, floor division). */
  function DaysBeforeYear(year: int): int {
    var y := year - 1;
    y * 365 + y / 4 - y / 100 + y / 400
  }

  /** Days in the months of `year` before `month`. */
  function DaysBeforeMonth(year: int, month: int): int
    requires 1 <= month <= 12
  {
    if month == 1 then 0 else DaysBeforeMonth(year, month - 1) + DaysInMonth(year, month - 1)
  }

  /** Python's `date.toordinal`: 1 January of year 1 is day 1. */
  function Ordinal(d: Date): int {
    DaysBeforeYear(d.year) + DaysBeforeMonth(d.year, d.month) + d.day
  }

  /** Python's `<` on dates: lexicographic on (year, month, day). */
  predicate Before(a: Date, b: Date) {
    a.year < b.year
    || (a.year == b.year && a.month < b.month)
    || (a.year == b.year && a.month == b.month && a.day < b.day)
  }

  function NextDay(d: Date): Date {
    if d.day < DaysInMonth(d.year, d.month) then YearMonthDay(d.year, d.month, d.day + 1)
    else if d.month < 12 then YearMonthDay(d.year, d.month + 1, 1)
    else YearMonthDay(d.year + 1, 1, 1)
  }

  function PrevDay(d: Date): Date {
    if 1 < d.day then YearMonthDay(d.year, d.month, d.day - 1)
    else if 1 < d.month then YearMonthDay(d.year, d.month - 1, DaysInMonth(d.year, d.month - 1))
    else YearMonthDay(d.year - 1, 12, 31)
  }

  /**
   * `d + relativedelta(days=n)` for a date `d`; `n` may be negative.
   * Adding `n` days moves the ordinal day count by exactly `n`.
   */
  function AddDays(d: Date, n: int): (r: Date)
    ensures Ordinal(r) == Ordinal(d) + n
    decreases if n < 0 then -n else n
  {
    if n == 0 then d
    else if 0 < n then
      NextDayOrdinal(d);
      AddDays(NextDay(d), n - 1)
    else
      PrevDayOrdinal(d);
      AddDays(PrevDay(d), n + 1)
  }

  // ---------------------------------------------------------------------
  // The ordinal day count

  /** Floor division by a positive constant steps up exactly at multiples. */
  lemma QuotientStep4(y: int)
    ensures (y + 1) / 4 == y / 4 + (if (y + 1) % 4 == 0 then 1 else 0)
  {
  }

  lemma QuotientStep100(y: int)
    ensures (y + 1) / 100 == y / 100 + (if (y + 1) % 100 == 0 then 1 else 0)
  {
  }

  lemma QuotientStep400(y: int)
    ensures (y + 1) / 400 == y / 400 + (if (y + 1) % 400 == 0 then 1 else 0)
  {
  }

  /** Multiples of 400 are multiples of 100, and multiples of 100 are multiples of 4. */
  lemma CenturyDivisors(year: int)
    ensures year % 400 == 0 ==> year % 100 == 0
    ensures year % 100 == 0 ==> year % 4 == 0
  {
  }

  lemma DaysBeforeYearStep(year: int)
    ensures DaysBeforeYear(year + 1) == DaysBeforeYear(year) + DaysInYear(year)
  {
    var y := year - 1;
    QuotientStep4(y);
    QuotientStep100(y);
    QuotientStep400(y);
    assert y + 1 == year;
    assert year * 365 == y * 365 + 365;
    var step4 := if year % 4 == 0 then 1 else 0;
    var step100 := if year % 100 == 0 then 1 else 0;
    var step400 := if year % 400 == 0 then 1 else 0;
    assert DaysBeforeYear(year + 1) - DaysBeforeYear(year) == 365 + step4 - step100 + step400;
    CenturyDivisors(year);
  }

  lemma DaysBeforeDecember(year: int)
    ensures DaysBeforeMonth(year, 12) + 31 == DaysInYear(year)
  {
    var leap := if IsLeapYear(year) then 1 else 0;
    assert DaysBeforeMonth(year, 2) == 31;
    assert DaysBeforeMonth(year, 3) == 59 + leap;
    assert DaysBeforeMonth(year, 4) == 90 + leap;
    assert DaysBeforeMonth(year, 5) == 120 + leap;
    assert DaysBeforeMonth(year, 6) == 151 + leap;
    assert DaysBeforeMonth(year, 7) == 181 + leap;
    assert DaysBeforeMonth(year, 8) == 212 + leap;
    assert DaysBeforeMonth(year, 9) == 243 + leap;
    assert DaysBeforeMonth(year, 10) == 273 + leap;
    assert DaysBeforeMonth(year, 11) == 304 + leap;
  }

  lemma {:induction false} NextDayOrdinal(d: Date)
    ensures Ordinal(NextDay(d)) == Ordinal(d) + 1
  {
    if d.day == DaysInMonth(d.year, d.month) && d.month == 12 {
      DaysBeforeYearStep(d.year);
      DaysBeforeDecember(d.year);
    }
  }

  lemma {:induction false} PrevDayOrdinal(d: Date)
    ensures Ordinal(PrevDay(d)) == Ordinal(d) - 1
  {
    if d.day == 1 && d.month == 1 {
      DaysBeforeYearStep(d.year - 1);
      DaysBeforeDecember(d.year - 1);
    }
  }

  // ---------------------------------------------------------------------
  // Lexicographic order agrees with the ordinal day count

  lemma {:induction false} DaysBeforeMonthIncreasing(year: int, m: int, n: int)
    requires 1 <= m <= n <= 12
    ensures DaysBeforeMonth(year, m) + (if m < n then DaysInMonth(year, m) else 0) <= DaysBeforeMonth(year, n)
    decreases n - m
  {
    if m < n {
      DaysBeforeMonthIncreasing(year, m + 1, n);
    }
  }

  lemma {:induction false} DaysBeforeYearIncreasing(a: int, b: int)
    requires a < b
    ensures DaysBeforeYear(a) + DaysInYear(a) <= DaysBeforeYear(b)
    decreases b - a
  {
    DaysBeforeYearStep(a);
    if a + 1 < b {
      DaysBeforeYearIncreasing(a + 1, b);
    }
  }

  /** The last ordinal of a year stays below the first of any later year. */
  lemma YearBound(d: Date)
    ensures DaysBeforeYear(d.year) < Ordinal(d) <= DaysBeforeYear(d.year) + DaysInYear(d.year)
  {
    DaysBeforeMonthIncreasing(d.year, 1, d.month);
    DaysBeforeMonthIncreasing(d.year, d.month, 12);
    DaysBeforeDecember(d.year);
  }

  lemma {:induction false} BeforeIsOrdinalLess(a: Date, b: Date)
    ensures Before(a, b) <==> Ordinal(a) < Ordinal(b)
  {
    if a.year < b.year {
      YearBound(a);
      YearBound(b);
      DaysBeforeYearIncreasing(a.year, b.year);
    } else if b.year < a.year {
      YearBound(a);
      YearBound(b);
      DaysBeforeYearIncreasing(b.year, a.year);
    } else if a.month < b.month {
      DaysBeforeMonthIncreasing(a.year, a.month, b.month);
    } else if b.month < a.month {
      DaysBeforeMonthIncreasing(a.year, b.month, a.month);
    }
  }

  // ---------------------------------------------------------------------
  // The monthly cadence

  /**
   * The day count `addmonthlychore` uses: the day of the month of the day
   * before the first of month `month % 12 + 1` of the same year.
   */
  function MonthLengthAsComputed(today: Date): (n: int)
    ensures n == DaysInMonth(today.year, today.month)
    ensures 28 <= n <= 31
  {
    var firstOfFollowing: Date := YearMonthDay(today.year, today.month % 12 + 1, 1);
    PrevDay(firstOfFollowing).day
  }
}
