/** Birthdays in Japan Standard Time: parsing `MM-DD`, today's date in Asia/Tokyo, and the number of days
    until the next birthday. */
module Birthday {
  import opened Common
  import opened Strings
  import opened Calendar

  // Instants are in milliseconds: a day is 86400000 of them. Japan Standard Time is UTC+9 all year
  // round (no daylight saving), 32400000 milliseconds ahead of UTC.

  /** The JST calendar day an instant falls in, counted from 1970-01-01. */
  function DayNumberJst(instant: int): int {
    (instant + 32400000) / 86400000
  }

  /** An instant that is midnight in Japan. */
  predicate IsJstMidnight(instant: int) {
    (instant + 32400000) % 86400000 == 0
  }

  /** `startOfDayJst({ year, month, day })`: the instant of `YYYY-MM-DDT00:00:00+09:00`. */
  function StartOfDayJst(d: Ymd): int
    requires 1 <= d.month <= 12
  {
    DaysFromCivil(d) * 86400000 - 32400000
  }

  /** Every instant of the JST day `n`, `ms` milliseconds after its midnight, lies in day `n`. */
  lemma DayNumberWithinDay(n: int, ms: int)
    requires 0 <= ms < 86400000
    ensures DayNumberJst(n * 86400000 - 32400000 + ms) == n
  {
  }

  /** The start of a day is a JST midnight, and it lies in that day. */
  lemma StartOfDayJstIsMidnight(d: Ymd)
    requires 1 <= d.month <= 12
    ensures IsJstMidnight(StartOfDayJst(d))
    ensures DayNumberJst(StartOfDayJst(d)) == DaysFromCivil(d)
  {
    DayNumberWithinDay(DaysFromCivil(d), 0);
  }

  /** `getTodayJst(now)`: the date Asia/Tokyo shows at `now`, which is the real date whose JST day
      contains `now`. */
  function GetTodayJst(now: int): (r: Ymd)
    ensures IsRealDate(r) && DaysFromCivil(r) == DayNumberJst(now)
  {
    CivilFromDays(DayNumberJst(now))
  }

  /** `now` lies between the start of the day it shows and the start of the next day. */
  lemma GetTodayJstBracket(now: int)
    ensures StartOfDayJst(GetTodayJst(now)) <= now < StartOfDayJst(GetTodayJst(now)) + 86400000
  {
  }

  /** JST midnight of a real date shows that date again. */
  lemma StartOfDayJstRoundTrip(d: Ymd)
    requires IsRealDate(d)
    ensures GetTodayJst(StartOfDayJst(d)) == d
  {
    StartOfDayJstIsMidnight(d);
    CivilRoundTrip(d);
  }

  /** A JST midnight is the start of the day it shows. */
  lemma JstMidnightIsStartOfDay(instant: int)
    requires IsJstMidnight(instant)
    ensures instant == StartOfDayJst(GetTodayJst(instant))
  {
  }

  /** A birthday without a year. */
  datatype MonthDay = MonthDay(month: int, day: int)

  predicate ValidMonthDay(md: MonthDay) {
    1 <= md.month <= 12 && 1 <= md.day <= 31
  }

  /** The `MM-DD` spelling of a month and day. */
  function FormatMmdd(md: MonthDay): (s: string)
    requires ValidMonthDay(md)
    ensures |s| == 5 && s[2] == '-'
  {
    Pad2(md.month) + "-" + Pad2(md.day)
  }

  /** The text `/^(\d{2})-(\d{2})$/` accepts: two ASCII digits, a hyphen, two ASCII digits. */
  predicate IsMmddShape(s: string) {
    |s| == 5 && s[2] == '-' && AllDigits(s[..2]) && AllDigits(s[3..])
  }

  /** `parseMmdd(mmdd)`: the month and day of an `MM-DD` text with a month 1 to 12 and a day 1 to 31. */
  function ParseMmdd(s: string): (r: Option<MonthDay>)
    ensures r.Some? ==> ValidMonthDay(r.value)
  {
    if !IsMmddShape(s) then None
    else
      var month := DecimalValue(s[..2]);
      var day := DecimalValue(s[3..]);
      if month < 1 || month > 12 then None
      else if day < 1 || day > 31 then None
      else Some(MonthDay(month, day))
  }

  /** The two number fields of an `MM-DD` spelling read back as the month and the day. */
  lemma FormatMmddReadsBack()
    ensures forall md :: ValidMonthDay(md) ==>
      var s := FormatMmdd(md);
      IsMmddShape(s) && DecimalValue(s[..2]) == md.month && DecimalValue(s[3..]) == md.day
  {
    forall md | ValidMonthDay(md)
      ensures var s := FormatMmdd(md);
        IsMmddShape(s) && DecimalValue(s[..2]) == md.month && DecimalValue(s[3..]) == md.day
    {
      var s := FormatMmdd(md);
      assert s[..2] == Pad2(md.month);
      assert s[3..] == Pad2(md.day);
    }
  }

  /** Five characters with a hyphen in the middle and ASCII digits around it parse exactly when the two
      numbers are a month 1 to 12 and a day 1 to 31. */
  lemma ParseMmddOfDigits(a: char, b: char, c: char, d: char)
    requires IsAsciiDigit(a) && IsAsciiDigit(b) && IsAsciiDigit(c) && IsAsciiDigit(d)
    ensures var month := 10 * DigitValue(a) + DigitValue(b); var day := 10 * DigitValue(c) + DigitValue(d);
      ParseMmdd([a, b, '-', c, d]) == if 1 <= month <= 12 && 1 <= day <= 31 then Some(MonthDay(month, day)) else None
  {
    var s := [a, b, '-', c, d];
    DecimalValueTwoDigits(a, b);
    DecimalValueTwoDigits(c, d);
    assert s[..2] == [a, b] && s[3..] == [c, d];
  }

  /** A text parses to a month and day exactly when it is that month and day's `MM-DD` spelling. */
  lemma ParseMmddIsFormat(s: string, md: MonthDay)
    ensures ParseMmdd(s) == Some(md) <==> ValidMonthDay(md) && FormatMmdd(md) == s
  {
    FormatMmddReadsBack();
    if ParseMmdd(s) == Some(md) {
      Pad2OfDigits(s[..2]);
      Pad2OfDigits(s[3..]);
      assert s == s[..2] + "-" + s[3..];
    }
  }

  /** `dateFromYmdJst(year, month, day)`: JST midnight of the date, or nothing when the date does not
      exist (V8 rolls the day over, and the noon re-read shows another date). */
  function DateFromYmdJst(year: int, month: int, day: int): (r: Option<int>)
    requires 1 <= month <= 12 && 1 <= day <= 31
    ensures r.Some? <==> IsRealDate(Ymd(year, month, day))
    ensures r.Some? ==> r.value == StartOfDayJst(Ymd(year, month, day))
  {
    var d := StartOfDayJst(Ymd(year, month, day));
    var check := d + 43200000;  // the same date at T12:00:00+09:00
    var n := DaysFromCivil(Ymd(year, month, day));
    DayNumberWithinDay(n, 43200000);
    assert check == n * 86400000 - 32400000 + 43200000;
    var c := GetTodayJst(check);
    assert c == CivilFromDays(n);
    ReadBackIffReal(Ymd(year, month, day));
    if c.year != year || c.month != month || c.day != day then None else Some(d)
  }

  /** Day number `n` is the `md` of some year: the calendar has a date with that month and day whose day
      number is `n`. */
  ghost predicate FallsOn(n: int, md: MonthDay) {
    1 <= md.month <= 12 &&
    exists year :: IsRealDate(Ymd(year, md.month, md.day)) && DaysFromCivil(Ymd(year, md.month, md.day)) == n
  }

  /** No day from `from` up to (not including) `to` is an `md`. */
  ghost predicate NoneBetween(from: int, to: int, md: MonthDay) {
    forall n :: from <= n < to ==> !FallsOn(n, md)
  }

  /** The next birthday from day `today` is `k` days away: day `today + k` is an `md` and no earlier day
      from `today` on is. */
  ghost predicate IsNextBirthday(today: int, md: MonthDay, k: int) {
    k >= 0 && FallsOn(today + k, md) && NoneBetween(today, today + k, md)
  }

  /** A month and day that some year has: 2000 is a leap year, so it has every month at its longest. */
  predicate OccursInSomeYear(md: MonthDay) {
    1 <= md.month <= 12 && IsRealDate(Ymd(2000, md.month, md.day))
  }

  /** Day `n` is an `md` exactly when the date Japan shows on that day has month and day `md`. */
  lemma FallsOnShownDate(n: int, md: MonthDay)
    requires 1 <= md.month <= 12
    ensures FallsOn(n, md) <==> CivilFromDays(n).month == md.month && CivilFromDays(n).day == md.day
  {
    var c := CivilFromDays(n);
    if FallsOn(n, md) {
      var year :| IsRealDate(Ymd(year, md.month, md.day)) && DaysFromCivil(Ymd(year, md.month, md.day)) == n;
      DaysFromCivilInjective(c, Ymd(year, md.month, md.day));
    }
    if c.month == md.month && c.day == md.day {
      assert c == Ymd(c.year, md.month, md.day);
    }
  }

  /** There is at most one next birthday. */
  lemma NextBirthdayUnique(today: int, md: MonthDay, k1: int, k2: int)
    requires IsNextBirthday(today, md, k1) && IsNextBirthday(today, md, k2)
    ensures k1 == k2
  {
  }

  /** An `md` day within year `year` is that year's `md`. */
  lemma FallsOnInYear(n: int, md: MonthDay, year: int)
    requires FallsOn(n, md) && DaysBeforeYear(year) <= n < DaysBeforeYear(year + 1)
    ensures IsRealDate(Ymd(year, md.month, md.day)) && n == DaysFromCivil(Ymd(year, md.month, md.day))
  {
    var y :| IsRealDate(Ymd(y, md.month, md.day)) && DaysFromCivil(Ymd(y, md.month, md.day)) == n;
    RealDateInYear(Ymd(y, md.month, md.day));
    YearRangeUnique(n, y, year);
  }

  /** Passing over a year whose `md` is missing or before `today` keeps "no `md` yet". */
  lemma YearSkip(today: int, md: MonthDay, year: int)
    requires 1 <= md.month <= 12
    requires NoneBetween(today, DaysBeforeYear(year), md)
    requires IsRealDate(Ymd(year, md.month, md.day)) ==> DaysFromCivil(Ymd(year, md.month, md.day)) < today
    ensures NoneBetween(today, DaysBeforeYear(year + 1), md)
  {
    forall n | today <= n < DaysBeforeYear(year + 1) ensures !FallsOn(n, md) {
      if n >= DaysBeforeYear(year) && FallsOn(n, md) {
        FallsOnInYear(n, md, year);
      }
    }
  }

  /** The `md` of `year`, when it exists, is not before `today` and nothing earlier was an `md`, is the
      next birthday. */
  lemma YearHit(today: int, md: MonthDay, year: int)
    requires 1 <= md.month <= 12
    requires NoneBetween(today, DaysBeforeYear(year), md)
    requires IsRealDate(Ymd(year, md.month, md.day))
    requires today <= DaysFromCivil(Ymd(year, md.month, md.day))
    ensures IsNextBirthday(today, md, DaysFromCivil(Ymd(year, md.month, md.day)) - today)
  {
    var target := DaysFromCivil(Ymd(year, md.month, md.day));
    RealDateInYear(Ymd(year, md.month, md.day));
    forall n | today <= n < target ensures !FallsOn(n, md) {
      if n >= DaysBeforeYear(year) && FallsOn(n, md) {
        FallsOnInYear(n, md, year);
      }
    }
  }

  /** A month and day no year has is never a birthday. */
  lemma NeverOccurs(today: int, md: MonthDay)
    requires !OccursInSomeYear(md)
    ensures forall k :: !IsNextBirthday(today, md, k)
  {
    forall n ensures !FallsOn(n, md) {
      if FallsOn(n, md) {
        ShownOccurs(n, md);
      }
    }
  }

  /** A day that is an `md` makes `md` a month and day some year has. */
  lemma ShownOccurs(n: int, md: MonthDay)
    requires FallsOn(n, md)
    ensures OccursInSomeYear(md)
  {
    var y :| IsRealDate(Ymd(y, md.month, md.day)) && DaysFromCivil(Ymd(y, md.month, md.day)) == n;
    RealInLeapYear(Ymd(y, md.month, md.day));
  }

  /** Apart from February 29, a month and day exists in every year or in none. */
  lemma SameEveryYear(md: MonthDay, year: int)
    requires ValidMonthDay(md) && !(md.month == 2 && md.day == 29)
    ensures IsRealDate(Ymd(year, md.month, md.day)) <==> OccursInSomeYear(md)
  {
  }

  /** The next birthday of a month and day other than February 29 that some year has, from a day of
      `year`: this year's date when it is not before today, otherwise next year's. */
  lemma CommonNext(today: int, md: MonthDay, year: int)
    requires ValidMonthDay(md) && OccursInSomeYear(md) && !(md.month == 2 && md.day == 29)
    requires DaysBeforeYear(year) <= today < DaysBeforeYear(year + 1)
    ensures var thisYear := DaysFromCivil(Ymd(year, md.month, md.day));
      IsNextBirthday(today, md, if today <= thisYear then thisYear - today
                                else DaysFromCivil(Ymd(year + 1, md.month, md.day)) - today)
  {
    SameEveryYear(md, year);
    SameEveryYear(md, year + 1);
    if today <= DaysFromCivil(Ymd(year, md.month, md.day)) {
      YearHit(today, md, year);
    } else {
      YearSkip(today, md, year);
      RealDateInYear(Ymd(year + 1, md.month, md.day));
      YearHit(today, md, year + 1);
    }
  }

  /** Year `year` ends the February 29 search from day `today`: it is a leap year and its February 29 is
      not before that day. */
  predicate LeapDayHit(today: int, year: int) {
    IsLeapYear(year) && today <= DaysFromCivil(Ymd(year, 2, 29))
  }

  /** The search the source runs for February 29: the first of the `n + 1` years from `year` on that is a
      leap year whose February 29 is not before day `today` (the last year tried when none is). */
  function LeapDayYearFrom(today: int, year: int, n: nat): (found: int)
    ensures year <= found <= year + n
    decreases n
  {
    if n == 0 || LeapDayHit(today, year) then year
    else LeapDayYearFrom(today, year + 1, n - 1)
  }

  /** Searching on from `year` finds the year `found`, with however many years left to try. */
  ghost predicate SearchReaches(today: int, year: int, found: int) {
    exists n: nat :: LeapDayYearFrom(today, year, n) == found
  }

  /** A search that skips `year` has years left and goes on to the next year. */
  lemma LeapDaySkip(today: int, year: int, n: nat, found: int)
    requires LeapDayYearFrom(today, year, n) == found && LeapDayHit(today, found)
    requires !LeapDayHit(today, year)
    ensures n > 0 && LeapDayYearFrom(today, year + 1, n - 1) == found
  {
  }

  /** When some year `leap` within reach ends the search, the search ends, at `leap` or earlier. */
  lemma {:induction false} LeapSearchHits(today: int, year: int, n: nat, leap: int)
    requires year <= leap <= year + n && LeapDayHit(today, leap)
    ensures LeapDayYearFrom(today, year, n) <= leap && LeapDayHit(today, LeapDayYearFrom(today, year, n))
    decreases n
  {
    if !LeapDayHit(today, year) {
      LeapSearchHits(today, year + 1, n - 1, leap);
    }
  }

  /** A search that ends from `year`, with no February 29 from day `today` up to that year, finds the next
      February 29. */
  lemma {:induction false} LeapSearchFirst(today: int, year: int, n: nat)
    requires NoneBetween(today, DaysBeforeYear(year), MonthDay(2, 29))
    requires LeapDayHit(today, LeapDayYearFrom(today, year, n))
    ensures IsNextBirthday(today, MonthDay(2, 29),
                           DaysFromCivil(Ymd(LeapDayYearFrom(today, year, n), 2, 29)) - today)
    decreases n
  {
    if LeapDayHit(today, year) {
      RealDateInYear(Ymd(year, 2, 29));
      YearHit(today, MonthDay(2, 29), year);
    } else {
      YearSkip(today, MonthDay(2, 29), year);
      LeapSearchFirst(today, year + 1, n - 1);
    }
  }

  /** From a day of `year`, the search over eight more years ends: a leap year comes within eight years, and
      its February 29 is after every day of `year`. */
  lemma LeapSearchEnds(today: int, year: int)
    requires DaysBeforeYear(year) <= today < DaysBeforeYear(year + 1)
    ensures LeapDayHit(today, LeapDayYearFrom(today, year, 8))
  {
    LeapYearWithinEight(year);
    var leap :| year < leap <= year + 8 && IsLeapYear(leap);
    DaysBeforeYearMonotone(year + 1, leap);
    RealDateInYear(Ymd(leap, 2, 29));
    LeapSearchHits(today, year, 8, leap);
  }

  /** From a day of `year`, the next February 29 is that of a leap year at most eight years on. */
  lemma LeapDayNext(today: int, year: int)
    requires DaysBeforeYear(year) <= today < DaysBeforeYear(year + 1)
    ensures var found := LeapDayYearFrom(today, year, 8);
      && year <= found <= year + 8 && IsLeapYear(found) && today <= DaysFromCivil(Ymd(found, 2, 29))
      && IsNextBirthday(today, MonthDay(2, 29), DaysFromCivil(Ymd(found, 2, 29)) - today)
  {
    LeapSearchEnds(today, year);
    LeapSearchFirst(today, year, 8);
  }

  /** Every month and day that some year has comes round again. */
  lemma NextBirthdayExists(today: int, md: MonthDay)
    requires ValidMonthDay(md) && OccursInSomeYear(md)
    ensures exists k :: IsNextBirthday(today, md, k)
  {
    var year := CivilFromDays(today).year;
    CivilYearIff(today, year);
    if md.month == 2 && md.day == 29 {
      LeapDayNext(today, year);
    } else {
      CommonNext(today, md, year);
    }
  }

  /** The date the source settles on for the next birthday of `md` from `today`: for February 29 the one
      the leap-year search finds; otherwise nothing when this year has no such date, this year's date when
      it is not before today, and next year's when it is. */
  function NextBirthdayDate(today: Ymd, md: MonthDay): (r: Option<Ymd>)
    requires IsRealDate(today) && ValidMonthDay(md)
    ensures r.Some? ==> r.value.month == md.month && r.value.day == md.day
  {
    if md.month == 2 && md.day == 29 then Some(Ymd(LeapDayYearFrom(DaysFromCivil(today), today.year, 8), 2, 29))
    else if !IsRealDate(Ymd(today.year, md.month, md.day)) then None
    else if DaysFromCivil(today) <= DaysFromCivil(Ymd(today.year, md.month, md.day)) then
      Some(Ymd(today.year, md.month, md.day))
    else Some(Ymd(today.year + 1, md.month, md.day))
  }

  /** The date the source settles on exists exactly when some year has `md`; it is a real date with month
      and day `md`, not before today, and no day from today up to it is an `md`: it is the next birthday. */
  lemma NextBirthdayDateIsNext(today: Ymd, md: MonthDay)
    requires IsRealDate(today) && ValidMonthDay(md)
    ensures NextBirthdayDate(today, md).Some? <==> OccursInSomeYear(md)
    ensures NextBirthdayDate(today, md).Some? ==>
      var d := NextBirthdayDate(today, md).value;
      && IsRealDate(d) && d.month == md.month && d.day == md.day
      && today.year <= d.year <= today.year + 8
      && IsNextBirthday(DaysFromCivil(today), md, DaysFromCivil(d) - DaysFromCivil(today))
  {
    if md.month == 2 && md.day == 29 {
      LeapDayDateIsNext(today);
    } else {
      CommonDateIsNext(today, md);
    }
  }

  /** The February 29 case: the leap-year search always settles on the next February 29. */
  lemma LeapDayDateIsNext(today: Ymd)
    requires IsRealDate(today)
    ensures var d := Ymd(LeapDayYearFrom(DaysFromCivil(today), today.year, 8), 2, 29);
      && IsRealDate(d) && today.year <= d.year <= today.year + 8
      && IsNextBirthday(DaysFromCivil(today), MonthDay(2, 29), DaysFromCivil(d) - DaysFromCivil(today))
  {
    RealDateInYear(today);
    LeapDayNext(DaysFromCivil(today), today.year);
  }

  /** The other months and days: a date is settled on exactly when some year has `md`, and it is the next
      birthday. */
  lemma CommonDateIsNext(today: Ymd, md: MonthDay)
    requires IsRealDate(today) && ValidMonthDay(md) && !(md.month == 2 && md.day == 29)
    ensures NextBirthdayDate(today, md).Some? <==> OccursInSomeYear(md)
    ensures NextBirthdayDate(today, md).Some? ==>
      var d := NextBirthdayDate(today, md).value;
      && IsRealDate(d) && today.year <= d.year <= today.year + 1
      && IsNextBirthday(DaysFromCivil(today), md, DaysFromCivil(d) - DaysFromCivil(today))
  {
    RealDateInYear(today);
    SameEveryYear(md, today.year);
    if OccursInSomeYear(md) {
      SameEveryYear(md, today.year + 1);
      CommonNext(DaysFromCivil(today), md, today.year);
    }
  }

  /** What `diffDaysToNextBirthday` answers: nothing when the text is not `MM-DD` or no date is settled
      on, otherwise the days from today (JST) to the date the source settles on. */
  function NextBirthdayDiff(mmdd: string, now: int): Option<int> {
    match ParseMmdd(mmdd)
    case None => None
    case Some(md) => var today := GetTodayJst(now); DaysUntil(today, NextBirthdayDate(today, md))
  }

  /** Days from `today` to the date `next`, when there is one. */
  function DaysUntil(today: Ymd, next: Option<Ymd>): Option<int>
    requires 1 <= today.month <= 12 && (next.Some? ==> 1 <= next.value.month <= 12)
  {
    match next
    case None => None
    case Some(d) => Some(DaysFromCivil(d) - DaysFromCivil(today))
  }

  /** The JST midnight of the date `next`, when there is one. */
  function MidnightOf(next: Option<Ymd>): Option<int>
    requires next.Some? ==> 1 <= next.value.month <= 12
  {
    match next
    case None => None
    case Some(d) => Some(StartOfDayJst(d))
  }

  /** The answer exists exactly when the text is an `MM-DD` spelling of a month and day some year has,
      and then it is `k` exactly when the next birthday from today (JST) is `k` days away. */
  lemma NextBirthdayDiffIsNext(mmdd: string, now: int)
    ensures NextBirthdayDiff(mmdd, now).Some? <==> ParseMmdd(mmdd).Some? && OccursInSomeYear(ParseMmdd(mmdd).value)
    ensures forall k :: NextBirthdayDiff(mmdd, now) == Some(k) <==>
      ParseMmdd(mmdd).Some? && IsNextBirthday(DayNumberJst(now), ParseMmdd(mmdd).value, k)
  {
    if ParseMmdd(mmdd).Some? {
      var md := ParseMmdd(mmdd).value;
      var today := GetTodayJst(now);
      NextBirthdayDateIsNext(today, md);
      if !OccursInSomeYear(md) {
        NeverOccurs(DayNumberJst(now), md);
      } else {
        var d := NextBirthdayDate(today, md).value;
        forall k ensures NextBirthdayDiff(mmdd, now) == Some(k) <==> IsNextBirthday(DayNumberJst(now), md, k) {
          if IsNextBirthday(DayNumberJst(now), md, k) {
            NextBirthdayUnique(DayNumberJst(now), md, k, DaysFromCivil(d) - DaysFromCivil(today));
          }
        }
      }
    }
  }

  /** For a month and day other than February 29 the days until the date settled on are between 0 and 365:
      this year's date when it is not before today, otherwise next year's, which is less than a year on. */
  lemma CommonDaysAtMost365(today: Ymd, md: MonthDay)
    requires IsRealDate(today) && ValidMonthDay(md) && !(md.month == 2 && md.day == 29)
    ensures DaysUntil(today, NextBirthdayDate(today, md)).Some? ==>
      0 <= DaysUntil(today, NextBirthdayDate(today, md)).value <= 365
  {
    SameDayNextYear(today.year, md.month, md.day);
  }

  /** The answer for a birthday other than February 29, when there is one, is between 0 and 365. */
  lemma NextBirthdayDiffAtMost365(mmdd: string, now: int)
    requires ParseMmdd(mmdd).Some? && !(ParseMmdd(mmdd).value.month == 2 && ParseMmdd(mmdd).value.day == 29)
    ensures NextBirthdayDiff(mmdd, now).Some? ==> 0 <= NextBirthdayDiff(mmdd, now).value <= 365
  {
    CommonDaysAtMost365(GetTodayJst(now), ParseMmdd(mmdd).value);
  }

  /** The answer is 0 exactly when the text parses and the date Japan shows at `now` has that month and
      day. */
  lemma NextBirthdayDiffZeroIff(mmdd: string, now: int)
    ensures NextBirthdayDiff(mmdd, now) == Some(0) <==>
      && ParseMmdd(mmdd).Some?
      && GetTodayJst(now).month == ParseMmdd(mmdd).value.month
      && GetTodayJst(now).day == ParseMmdd(mmdd).value.day
  {
    NextBirthdayDiffIsNext(mmdd, now);
    if ParseMmdd(mmdd).Some? {
      var md := ParseMmdd(mmdd).value;
      FallsOnShownDate(DayNumberJst(now), md);
      assert IsNextBirthday(DayNumberJst(now), md, 0) <==> FallsOn(DayNumberJst(now), md);
    }
  }

  /** From February 10 of a common year, February 9 is 364 days away: a year on, less the one day. */
  lemma FebruaryTenthToNinth(year: int)
    requires !IsLeapYear(year)
    ensures DaysUntil(Ymd(year, 2, 10), NextBirthdayDate(Ymd(year, 2, 10), MonthDay(2, 9))) == Some(364)
  {
    var today := Ymd(year, 2, 10);
    var before := Ymd(year, 2, 9);
    var next := Ymd(year + 1, 2, 9);
    assert DaysFromCivil(today) == DaysFromCivil(before) + 1;
    assert NextBirthdayDate(today, MonthDay(2, 9)) == Some(next);
    YearStep(year);
    assert DaysFromCivil(next) == DaysFromCivil(before) + 365;
  }

  /** From February 10 of a year two before a leap year (2026, say), February 29 is 749 days away: the
      search passes over two common years. */
  lemma FebruaryTenthToLeapDay(year: int)
    requires !IsLeapYear(year) && !IsLeapYear(year + 1) && IsLeapYear(year + 2)
    ensures DaysUntil(Ymd(year, 2, 10), NextBirthdayDate(Ymd(year, 2, 10), MonthDay(2, 29))) == Some(749)
  {
    var t := DaysFromCivil(Ymd(year, 2, 10));
    YearStep(year);
    YearStep(year + 1);
    assert !LeapDayHit(t, year) && !LeapDayHit(t, year + 1) && LeapDayHit(t, year + 2);
    assert LeapDayYearFrom(t, year, 8) == year + 2;
  }

  /** 2026 is two years before the leap year 2028, as the examples below need. */
  lemma Year2026BeforeLeap()
    ensures !IsLeapYear(2026) && !IsLeapYear(2027) && IsLeapYear(2028)
  {
  }

  lemma ParseFebruary10()
    ensures ParseMmdd("02-10") == Some(MonthDay(2, 10))
  {
    ParseMmddOfDigits('0', '2', '1', '0');
  }

  lemma ParseFebruary9()
    ensures ParseMmdd("02-09") == Some(MonthDay(2, 9))
  {
    ParseMmddOfDigits('0', '2', '0', '9');
  }

  lemma ParseFebruary29()
    ensures ParseMmdd("02-29") == Some(MonthDay(2, 29))
  {
    ParseMmddOfDigits('0', '2', '2', '9');
  }

  /** "02-30" and "04-31" have the `MM-DD` shape and numbers in range, so they parse. */
  lemma ParseNonexistent()
    ensures ParseMmdd("02-30") == Some(MonthDay(2, 30))
    ensures ParseMmdd("04-31") == Some(MonthDay(4, 31))
  {
    ParseMmddOfDigits('0', '2', '3', '0');
    ParseMmddOfDigits('0', '4', '3', '1');
  }

  /** On February 10 in Japan (2026-02-10, say), "02-10" is today. */
  lemma ExampleSameDay(now: int)
    requires GetTodayJst(now).month == 2 && GetTodayJst(now).day == 10
    ensures NextBirthdayDiff("02-10", now) == Some(0)
  {
    ParseFebruary10();
    NextBirthdayDiffZeroIff("02-10", now);
  }

  /** On February 10 of a common year (2026-02-10, say), "02-09" is 364 days away. */
  lemma ExampleDayBefore(now: int, year: int)
    requires GetTodayJst(now) == Ymd(year, 2, 10) && !IsLeapYear(year)
    ensures NextBirthdayDiff("02-09", now) == Some(364)
  {
    ParseFebruary9();
    FebruaryTenthToNinth(year);
  }

  /** On February 10 of a year two before a leap year (2026-02-10, say), "02-29" is 749 days away. */
  lemma ExampleLeapDay(now: int, year: int)
    requires GetTodayJst(now) == Ymd(year, 2, 10)
    requires !IsLeapYear(year) && !IsLeapYear(year + 1) && IsLeapYear(year + 2)
    ensures NextBirthdayDiff("02-29", now) == Some(749)
  {
    ParseFebruary29();
    FebruaryTenthToLeapDay(year);
  }

  /** "02-30" and "04-31" never have an answer: no year has those dates. */
  lemma ExampleNonexistent(now: int)
    ensures NextBirthdayDiff("02-30", now) == None
    ensures NextBirthdayDiff("04-31", now) == None
  {
    ParseNonexistent();
  }

  /** `Math.round(ms / 86400000)`: the whole number of days nearest to `ms`, halves rounded up. */
  function RoundToDays(ms: int): (r: int)
    ensures 172800000 * r - 86400000 <= 2 * ms < 172800000 * r + 86400000
  {
    (2 * ms + 86400000) / 172800000
  }

  /** `Math.round` of a whole number of days in milliseconds is that number of days. */
  lemma RoundWholeDays(ms: int, k: int)
    requires ms == 86400000 * k
    ensures RoundToDays(ms) == k
  {
    assert 2 * ms + 86400000 == 172800000 * k + 86400000;
  }

  /** Two JST midnights lie a whole number of days apart: the difference of their day numbers. */
  lemma MidnightDistance(d: Ymd, from: Ymd)
    requires 1 <= d.month <= 12 && 1 <= from.month <= 12
    ensures StartOfDayJst(d) - StartOfDayJst(from) == 86400000 * (DaysFromCivil(d) - DaysFromCivil(from))
  {
  }

  /** From a real date, the eight-year search for February 29 ends. */
  lemma LeapDayFound(today: Ymd)
    requires IsRealDate(today)
    ensures LeapDayHit(DaysFromCivil(today), LeapDayYearFrom(DaysFromCivil(today), today.year, 8))
  {
    RealDateInYear(today);
    LeapSearchEnds(DaysFromCivil(today), today.year);
  }

  /** One turn of the February 29 loop of `diffDaysToNextBirthday`: in a leap year `y`, the JST midnight of
      its February 29 when that is not before the start of today, otherwise nothing. */
  method LeapDayCandidate(today: Ymd, startToday: int, y: int) returns (d: Option<int>)
    requires IsRealDate(today) && startToday == StartOfDayJst(today)
    ensures d.Some? <==> LeapDayHit(DaysFromCivil(today), y)
    ensures d.Some? ==> d.value == StartOfDayJst(Ymd(y, 2, 29))
  {
    d := None;
    if IsLeapYear(y) {
      var midnight := DateFromYmdJst(y, 2, 29);
      MidnightDistance(Ymd(y, 2, 29), today);
      if midnight.Some? && midnight.value >= startToday {
        d := midnight;
      }
    }
  }

  /** The rounded distance between two JST midnights is the distance of their day numbers. */
  lemma MidnightDays(d: Ymd, from: Ymd, ms: int)
    requires 1 <= d.month <= 12 && 1 <= from.month <= 12
    requires ms == StartOfDayJst(d) - StartOfDayJst(from)
    ensures RoundToDays(ms) == DaysFromCivil(d) - DaysFromCivil(from)
  {
    MidnightDistance(d, from);
    RoundWholeDays(ms, DaysFromCivil(d) - DaysFromCivil(from));
  }

  /** Rounding the distance from today's JST midnight to that of a date gives the days until the date. */
  lemma RoundedMidnight(today: Ymd, next: Option<Ymd>, ms: int)
    requires 1 <= today.month <= 12 && next.Some? && 1 <= next.value.month <= 12
    requires ms == MidnightOf(next).value - StartOfDayJst(today)
    ensures DaysUntil(today, next) == Some(RoundToDays(ms))
  {
    MidnightDays(next.value, today, ms);
  }

  /** The February 29 loop of `diffDaysToNextBirthday`: from today's year on, the JST midnight of the first
      leap year's February 29 that is not before the start of today. */
  method NextLeapDayMidnight(today: Ymd, startToday: int) returns (candidate: Option<int>)
    requires IsRealDate(today) && startToday == StartOfDayJst(today)
    ensures candidate == Some(StartOfDayJst(Ymd(LeapDayYearFrom(DaysFromCivil(today), today.year, 8), 2, 29)))
  {
    ghost var t := DaysFromCivil(today);
    ghost var found := LeapDayYearFrom(t, today.year, 8);
    LeapDayFound(today);
    var y := today.year;
    while true
      invariant y <= found && SearchReaches(t, y, found)
      decreases found - y
    {
      var d := LeapDayCandidate(today, startToday, y);
      ghost var n: nat :| LeapDayYearFrom(t, y, n) == found;
      if d.Some? {
        return d;
      }
      LeapDaySkip(t, y, n, found);
      y := y + 1;
    }
  }

  /** The other branch of `diffDaysToNextBirthday`: this year's date when it exists and is not before the
      start of today, otherwise next year's; nothing when this year has no such date. */
  method ThisOrNextYearMidnight(today: Ymd, startToday: int, month: int, day: int) returns (candidate: Option<int>)
    requires IsRealDate(today) && startToday == StartOfDayJst(today)
    requires ValidMonthDay(MonthDay(month, day)) && !(month == 2 && day == 29)
    ensures candidate == MidnightOf(NextBirthdayDate(today, MonthDay(month, day)))
  {
    candidate := DateFromYmdJst(today.year, month, day);
    if candidate.None? {
      return;
    }
    MidnightDistance(Ymd(today.year, month, day), today);
    if candidate.value < startToday {
      SameEveryYear(MonthDay(month, day), today.year);
      SameEveryYear(MonthDay(month, day), today.year + 1);
      candidate := DateFromYmdJst(today.year + 1, month, day);
    }
  }

  /** The candidate of `diffDaysToNextBirthday`: the February 29 loop for a February 29 birthday,
      this year's or next year's date otherwise. */
  method CandidateMidnight(today: Ymd, startToday: int, md: MonthDay) returns (candidate: Option<int>)
    requires IsRealDate(today) && startToday == StartOfDayJst(today) && ValidMonthDay(md)
    ensures candidate == MidnightOf(NextBirthdayDate(today, md))
  {
    if md.month == 2 && md.day == 29 {
      candidate := NextLeapDayMidnight(today, startToday);
    } else {
      candidate := ThisOrNextYearMidnight(today, startToday, md.month, md.day);
    }
  }

  /** The steps of `diffDaysToNextBirthday` after parsing: the candidate midnight minus today's
      midnight, rounded to whole days. */
  method DaysFromToday(today: Ymd, md: MonthDay) returns (r: Option<int>)
    requires IsRealDate(today) && ValidMonthDay(md)
    ensures r == DaysUntil(today, NextBirthdayDate(today, md))
  {
    ghost var next := NextBirthdayDate(today, md);
    var startToday := StartOfDayJst(today);
    var candidate := CandidateMidnight(today, startToday, md);
    if candidate.None? {
      return None;
    }
    var diffMs := candidate.value - startToday;
    RoundedMidnight(today, next, diffMs);
    r := Some(RoundToDays(diffMs));
  }

  /** `diffDaysToNextBirthday(birthdayMmdd, now)`, with `NaN` as `None`. */
  method DiffDaysToNextBirthday(birthdayMmdd: string, now: int) returns (r: Option<int>)
    ensures r == NextBirthdayDiff(birthdayMmdd, now)
  {
    var md := ParseMmdd(birthdayMmdd);
    if md.None? {
      return None;
    }
    var today := GetTodayJst(now);
    r := DaysFromToday(today, md.value);
  }
}
