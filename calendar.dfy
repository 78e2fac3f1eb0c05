/** The calendar arithmetic behind ECMAScript `Date` and `Intl.DateTimeFormat` as the birthday code
    uses them: instants are milliseconds since 1970-01-01T00:00Z, days are counted from that epoch, and
    dates are proleptic Gregorian year/month/day triples. */
module Calendar {


  /** A calendar date as `{ year, month, day }` (months 1 to 12). */
  datatype Ymd = Ymd(year: int, month: int, day: int)

  /** The Gregorian leap-year rule: every fourth year, except centuries not divisible by 400. The
      source tests remainders against zero, so truncating and flooring remainder agree here. */
  predicate IsLeapYear(year: int) {
    if year % 400 == 0 then true
    else if year % 100 == 0 then false
    else year % 4 == 0
  }

  function YearLength(year: int): (n: int)
    ensures n == 365 || n == 366
  {
    if IsLeapYear(year) then 366 else 365
  }

  function DaysInMonth(year: int, month: int): (n: int)
    requires 1 <= month <= 12
    ensures 28 <= n <= 31
  {
    if month == 2 then (if IsLeapYear(year) then 29 else 28)
    else if month == 4 || month == 6 || month == 9 || month == 11 then 30
    else 31
  }

  /** A date that exists in the calendar. */
  predicate IsRealDate(d: Ymd) {
    1 <= d.month <= 12 && 1 <= d.day <= DaysInMonth(d.year, d.month)
  }

  /** Days in the months of `year` before `month` (`month == 13` gives the whole year). */
  function DaysBeforeMonth(year: int, month: int): int
    requires 1 <= month <= 13
  {
    var common :=
      if month == 1 then 0 else if month == 2 then 31 else if month == 3 then 59
      else if month == 4 then 90 else if month == 5 then 120 else if month == 6 then 151
      else if month == 7 then 181 else if month == 8 then 212 else if month == 9 then 243
      else if month == 10 then 273 else if month == 11 then 304 else if month == 12 then 334
      else 365;
    common + (if month > 2 && IsLeapYear(year) then 1 else 0)
  }

  /** The cumulative month table agrees with the month lengths and with the year length. */
  lemma DaysBeforeMonthStep(year: int, month: int)
    requires 1 <= month <= 12
    ensures DaysBeforeMonth(year, month + 1) == DaysBeforeMonth(year, month) + DaysInMonth(year, month)
    ensures DaysBeforeMonth(year, 13) == YearLength(year)
  {
  }

  /** Leap years in 1..n (for negative `n`, minus those in n+1..0), with flooring division. */
  function Leaps(n: int): int {
    n / 4 - n / 100 + n / 400
  }

  /** Days from 1970-01-01 to January 1st of `year` (negative before 1970), year by year. */
  function DaysBeforeYear(year: int): int
    decreases if year < 1970 then 1970 - year else year - 1970
  {
    if year == 1970 then 0
    else if year > 1970 then DaysBeforeYear(year - 1) + YearLength(year - 1)
    else DaysBeforeYear(year + 1) - YearLength(year)
  }

  /** Consecutive year starts are one year length apart. */
  lemma YearStep(year: int)
    ensures DaysBeforeYear(year + 1) == DaysBeforeYear(year) + YearLength(year)
  {
  }

  lemma DivStep(y: int, k: int)
    requires k == 4 || k == 100 || k == 400
    ensures y / k - (y - 1) / k == if y % k == 0 then 1 else 0
  {
  }

  lemma MultipleMod(y: int, k: int, q: int)
    requires k == 4 || k == 100
    requires y == k * q
    ensures y % k == 0
  {
  }

  /** Divisibility by 400 implies divisibility by 100, which implies divisibility by 4. */
  lemma CenturyDivisibility(year: int)
    ensures year % 400 == 0 ==> year % 100 == 0
    ensures year % 100 == 0 ==> year % 4 == 0
  {
    if year % 400 == 0 {
      MultipleMod(year, 100, 4 * (year / 400));
    }
    if year % 100 == 0 {
      MultipleMod(year, 4, 25 * (year / 100));
    }
  }

  /** Going from the leap-year count up to `year - 1` to the count up to `year` adds one exactly when
      `year` is a leap year: the closed-form count and the leap-year rule agree. */
  lemma LeapsStep(year: int)
    ensures Leaps(year) - Leaps(year - 1) == if IsLeapYear(year) then 1 else 0
  {
    DivStep(year, 4);
    DivStep(year, 100);
    DivStep(year, 400);
    CenturyDivisibility(year);
  }

  /** The year-by-year count in closed form: 365 days a year plus one per leap year in between. */
  lemma {:induction false} DaysBeforeYearClosedForm(year: int)
    ensures DaysBeforeYear(year) == 365 * (year - 1970) + Leaps(year - 1) - Leaps(1969)
    decreases if year < 1970 then 1970 - year else year - 1970
  {
    if year > 1970 {
      DaysBeforeYearClosedForm(year - 1);
      LeapsStep(year - 1);
    } else if year < 1970 {
      DaysBeforeYearClosedForm(year + 1);
      LeapsStep(year);
    }
  }

  /** Every 400 years the calendar repeats: 146097 days. */
  lemma CycleStart(q: int)
    ensures DaysBeforeYear(1970 + 400 * q) == 146097 * q
  {
    DaysBeforeYearClosedForm(1970 + 400 * q);
    assert 1969 + 400 * q == 4 * (492 + 100 * q) + 1;
    assert (1969 + 400 * q) / 4 == 492 + 100 * q;
    assert 1969 + 400 * q == 100 * (19 + 4 * q) + 69;
    assert (1969 + 400 * q) / 100 == 19 + 4 * q;
    assert 1969 + 400 * q == 400 * (4 + q) + 369;
    assert (1969 + 400 * q) / 400 == 4 + q;
  }

  lemma {:induction false} DaysBeforeYearMonotone(a: int, b: int)
    requires a <= b
    ensures DaysBeforeYear(a) <= DaysBeforeYear(b)
    ensures a < b ==> DaysBeforeYear(a + 1) <= DaysBeforeYear(b)
    decreases b - a
  {
    if a < b {
      YearStep(a);
      DaysBeforeYearMonotone(a + 1, b);
    }
  }

  /** `new Date("YYYY-MM-DDT00:00:00Z")` as a day number: the year start, the months before, then the day.
      A day past the end of its month rolls over into the next month, as V8's date parser does. */
  function DaysFromCivil(d: Ymd): int
    requires 1 <= d.month <= 12
  {
    DaysBeforeYear(d.year) + DaysBeforeMonth(d.year, d.month) + d.day - 1
  }

  datatype YearDay = YearDay(year: int, dayOfYear: int)

  /** Walks whole years forward from `year` until fewer days than a year remain. */
  function FindYear(year: int, days: int): (r: YearDay)
    requires days >= 0
    ensures r.year >= year
    ensures 0 <= r.dayOfYear < YearLength(r.year)
    ensures DaysBeforeYear(r.year) + r.dayOfYear == DaysBeforeYear(year) + days
    decreases days
  {
    if days < YearLength(year) then YearDay(year, days)
    else
      YearStep(year);
      FindYear(year + 1, days - YearLength(year))
  }

  datatype MonthDayOfYear = MonthDayOfYear(month: int, day: int)

  /** Walks whole months forward from `month` until fewer days than the month remain. */
  function FindMonth(year: int, month: int, days: int): (r: MonthDayOfYear)
    requires 1 <= month <= 12 && 0 <= days
    requires DaysBeforeMonth(year, month) + days < YearLength(year)
    ensures 1 <= r.month <= 12 && 1 <= r.day <= DaysInMonth(year, r.month)
    ensures DaysBeforeMonth(year, r.month) + r.day - 1 == DaysBeforeMonth(year, month) + days
    decreases 12 - month
  {
    DaysBeforeMonthStep(year, month);
    if days < DaysInMonth(year, month) then MonthDayOfYear(month, days + 1)
    else FindMonth(year, month + 1, days - DaysInMonth(year, month))
  }

  /** The calendar date of a day number (what `Intl.DateTimeFormat` prints for the day): a real date whose
      day number is `n`. */
  function CivilFromDays(n: int): (r: Ymd)
    ensures IsRealDate(r)
    ensures DaysFromCivil(r) == n
  {
    var q := n / 146097;
    CycleStart(q);
    var yd := FindYear(1970 + 400 * q, n % 146097);
    var md := FindMonth(yd.year, 1, yd.dayOfYear);
    Ymd(yd.year, md.month, md.day)
  }

  /** The days of a real date's year are exactly the day numbers from its January 1st to the next one. */
  lemma RealDateInYear(d: Ymd)
    requires IsRealDate(d)
    ensures DaysBeforeYear(d.year) <= DaysFromCivil(d) < DaysBeforeYear(d.year + 1)
  {
    YearStep(d.year);
    DaysBeforeMonthStep(d.year, d.month);
    MonthTableMonotone(d.year, d.month + 1, 13);
  }

  lemma {:induction false} MonthTableMonotone(year: int, a: int, b: int)
    requires 1 <= a <= b <= 13
    ensures DaysBeforeMonth(year, a) <= DaysBeforeMonth(year, b)
    ensures a < b ==> DaysBeforeMonth(year, a + 1) <= DaysBeforeMonth(year, b)
    decreases b - a
  {
    if a < b {
      DaysBeforeMonthStep(year, a);
      MonthTableMonotone(year, a + 1, b);
    }
  }

  /** Different real dates have different day numbers. */
  lemma DaysFromCivilInjective(a: Ymd, b: Ymd)
    requires IsRealDate(a) && IsRealDate(b)
    requires DaysFromCivil(a) == DaysFromCivil(b)
    ensures a == b
  {
    RealDateInYear(a);
    RealDateInYear(b);
    if a.year < b.year {
      DaysBeforeYearMonotone(a.year, b.year);
    } else if b.year < a.year {
      DaysBeforeYearMonotone(b.year, a.year);
    }
    assert a.year == b.year;
    DaysBeforeMonthStep(a.year, a.month);
    DaysBeforeMonthStep(b.year, b.month);
    if a.month < b.month {
      MonthTableMonotone(a.year, a.month, b.month);
    } else if b.month < a.month {
      MonthTableMonotone(a.year, b.month, a.month);
    }
  }

  /** Reading a real date's day number back gives the date: `CivilFromDays` inverts `DaysFromCivil`. */
  lemma CivilRoundTrip(d: Ymd)
    requires IsRealDate(d)
    ensures CivilFromDays(DaysFromCivil(d)) == d
  {
    DaysFromCivilInjective(CivilFromDays(DaysFromCivil(d)), d);
  }

  /** The day number of a year, month and day reads back as the same triple exactly when that date exists. */
  lemma ReadBackIffReal(d: Ymd)
    requires 1 <= d.month <= 12
    ensures CivilFromDays(DaysFromCivil(d)) == d <==> IsRealDate(d)
  {
    if IsRealDate(d) {
      CivilRoundTrip(d);
    }
  }

  /** A day number lies in the range of one year only. */
  lemma YearRangeUnique(n: int, a: int, b: int)
    requires DaysBeforeYear(a) <= n < DaysBeforeYear(a + 1)
    requires DaysBeforeYear(b) <= n < DaysBeforeYear(b + 1)
    ensures a == b
  {
    if a < b {
      DaysBeforeYearMonotone(a, b);
    } else if b < a {
      DaysBeforeYearMonotone(b, a);
    }
  }

  /** The year shown for day `n` is `year` exactly when `n` lies between that year's January 1st and the next. */
  lemma CivilYearIff(n: int, year: int)
    ensures CivilFromDays(n).year == year <==> DaysBeforeYear(year) <= n < DaysBeforeYear(year + 1)
  {
    var c := CivilFromDays(n);
    RealDateInYear(c);
    if DaysBeforeYear(year) <= n < DaysBeforeYear(year + 1) {
      YearRangeUnique(n, c.year, year);
    }
  }

  /** The same month and day a year later is 365 or 366 days on. */
  lemma SameDayNextYear(year: int, month: int, day: int)
    requires 1 <= month <= 12
    ensures 365 <= DaysFromCivil(Ymd(year + 1, month, day)) - DaysFromCivil(Ymd(year, month, day)) <= 366
  {
    YearStep(year);
  }

  /** The leap year 2000 has every month at its longest, so it has the month and day of every real date. */
  lemma RealInLeapYear(d: Ymd)
    requires IsRealDate(d)
    ensures IsRealDate(Ymd(2000, d.month, d.day))
  {
    assert IsLeapYear(2000);
  }

  /** Among any eight consecutive years after `year` there is a leap year. */
  lemma LeapYearWithinEight(year: int)
    ensures exists y :: year < y <= year + 8 && IsLeapYear(y)
  {
    var a := 4 * (year / 4) + 4;
    MultipleMod(a, 4, year / 4 + 1);
    CenturyDivisibility(a);
    if a % 100 != 0 {
      assert IsLeapYear(a);
    } else {
      var b := a + 4;
      MultipleMod(b, 4, year / 4 + 2);
      assert b == 100 * (a / 100) + 4;
      assert b % 100 == 4;
      CenturyDivisibility(b);
      assert IsLeapYear(b);
    }
  }
}
