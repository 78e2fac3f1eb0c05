/** The day windows of `src/lib/birthday-filters.ts`: days until the birthday attached to each idol,
    records without a usable birthday dropped, and the picks for today and for the six days after. */
module BirthdayFilters {
  import opened Common
  import opened Birthday
  import opened Sheets
  import opened Seqs
  import opened BirthdaySort

  /** One idol of `attachDiffDays`: the record with its days attached, kept only when the days are a
      number (not `NaN`) and not negative. */
  function WithDiff(idol: Idol, now: int): Option<IdolWithDiff> {
    match NextBirthdayDiff(idol.birthdayMmdd, now)
    case None => None
    case Some(d) => if d >= 0 then Some(IdolWithDiff(idol, d)) else None
  }

  /** `WithDiff` at one `now`, as a function value. */
  function WithDiffAt(now: int): Idol -> Option<IdolWithDiff> {
    (idol: Idol) => WithDiff(idol, now)
  }

  /** The mapped list, each entry present or dropped. */
  function Attached(idols: seq<Idol>, now: int): (r: seq<Option<IdolWithDiff>>)
    ensures |r| == |idols|
    ensures forall i :: 0 <= i < |idols| ==> r[i] == WithDiff(idols[i], now)
  {
    MapSeq(idols, WithDiffAt(now))
  }

  /** `attachDiffDays(idols, now)`: the `map` and then the `filter`, for the one `now` given. */
  function AttachDiffDays(idols: seq<Idol>, now: int): (r: seq<IdolWithDiff>)
    ensures |r| <= |idols|
  {
    Values(Attached(idols, now))
  }

  /** A record is dropped exactly when its days are `NaN`, that is when its birthday text is not the
      `MM-DD` of a date some year has: the days are never negative, so the `>= 0` test drops nothing
      more. A kept record is the idol unchanged, with the days `diffDaysToNextBirthday` gives. */
  lemma WithDiffDropsOnlyUnknown(idol: Idol, now: int)
    ensures WithDiff(idol, now).None? <==> NextBirthdayDiff(idol.birthdayMmdd, now).None?
    ensures WithDiff(idol, now).None? <==>
      !(ParseMmdd(idol.birthdayMmdd).Some? && OccursInSomeYear(ParseMmdd(idol.birthdayMmdd).value))
    ensures WithDiff(idol, now).Some? ==>
      WithDiff(idol, now).value.idol == idol &&
      NextBirthdayDiff(idol.birthdayMmdd, now) == Some(WithDiff(idol, now).value.diffDays)
  {
    NextBirthdayDiffIsNext(idol.birthdayMmdd, now);
  }

  /** The records come out in the order of the idols: the output for two runs of idols is the two
      outputs one after the other. */
  lemma AttachDiffDaysAppend(a: seq<Idol>, b: seq<Idol>, now: int)
    ensures AttachDiffDays(a + b, now) == AttachDiffDays(a, now) + AttachDiffDays(b, now)
  {
    MapSeqAppend(a, b, WithDiffAt(now));
    ValuesAppend(Attached(a, now), Attached(b, now));
  }

  /** One idol gives its record, or nothing when its days are `NaN`. */
  lemma AttachDiffDaysSingle(idol: Idol, now: int)
    ensures NextBirthdayDiff(idol.birthdayMmdd, now).None? ==> AttachDiffDays([idol], now) == []
    ensures NextBirthdayDiff(idol.birthdayMmdd, now).Some? ==>
      AttachDiffDays([idol], now) == [IdolWithDiff(idol, NextBirthdayDiff(idol.birthdayMmdd, now).value)]
  {
    WithDiffDropsOnlyUnknown(idol, now);
    assert Attached([idol], now) == [WithDiff(idol, now)];
    assert Attached([idol], now)[..0] == [];
  }

  /** Every record of the output is one of the idols with its own days attached, and those days
      are a number of days, never negative. */
  lemma AttachDiffDaysMembers(idols: seq<Idol>, now: int, x: IdolWithDiff)
    ensures x in AttachDiffDays(idols, now) <==>
      x.idol in idols && NextBirthdayDiff(x.idol.birthdayMmdd, now) == Some(x.diffDays) && x.diffDays >= 0
  {
    ValuesMembers(Attached(idols, now), x);
    if x.idol in idols && NextBirthdayDiff(x.idol.birthdayMmdd, now) == Some(x.diffDays) && x.diffDays >= 0 {
      var i :| 0 <= i < |idols| && idols[i] == x.idol;
      assert Attached(idols, now)[i] == Some(x);
    }
  }

  /** `sortBySoonest` is `sortByUpcoming`. */
  method SortBySoonest(list: seq<IdolWithDiff>) returns (r: seq<IdolWithDiff>)
    ensures r == SortSpec(list)
  {
    r := SortByUpcoming(list);
  }

  predicate IsToday(x: IdolWithDiff) {
    x.diffDays == 0
  }

  /** "This week": from tomorrow to six days ahead, today left out. */
  predicate InThisWeek(x: IdolWithDiff) {
    1 <= x.diffDays <= 6
  }

  /** `pickToday`. */
  function PickToday(list: seq<IdolWithDiff>): seq<IdolWithDiff> {
    Filter(list, IsToday)
  }

  /** `pickThisWeek`. */
  function PickThisWeek(list: seq<IdolWithDiff>): seq<IdolWithDiff> {
    Filter(list, InThisWeek)
  }

  /** `pickToday` keeps exactly the records 0 days away, in list order; `pickThisWeek` exactly those
      1 to 6 days away, in list order; no record is in both. */
  lemma PicksCharacterized(list: seq<IdolWithDiff>, x: IdolWithDiff)
    ensures x in PickToday(list) <==> x in list && x.diffDays == 0
    ensures x in PickThisWeek(list) <==> x in list && 1 <= x.diffDays <= 6
    ensures IsSubsequence(PickToday(list), list) && IsSubsequence(PickThisWeek(list), list)
    ensures !(x in PickToday(list) && x in PickThisWeek(list))
  {
    FilterMembers(list, IsToday, x);
    FilterMembers(list, InThisWeek, x);
    FilterIsSubsequence(list, IsToday);
    FilterIsSubsequence(list, InThisWeek);
  }

  /** A record picked for today is an idol whose birthday text names the month and day that Japan
      shows at `now`. */
  lemma PickTodayIsBirthdayToday(idols: seq<Idol>, now: int, x: IdolWithDiff)
    requires x in PickToday(AttachDiffDays(idols, now))
    ensures x.idol in idols && ParseMmdd(x.idol.birthdayMmdd).Some?
    ensures GetTodayJst(now).month == ParseMmdd(x.idol.birthdayMmdd).value.month
    ensures GetTodayJst(now).day == ParseMmdd(x.idol.birthdayMmdd).value.day
  {
    PicksCharacterized(AttachDiffDays(idols, now), x);
    AttachDiffDaysMembers(idols, now, x);
    NextBirthdayDiffZeroIff(x.idol.birthdayMmdd, now);
  }

  /** A record picked for this week is an idol whose next birthday is `diffDays` days after today
      (JST), from 1 to 6, with none today or in between. */
  lemma PickThisWeekIsNextBirthday(idols: seq<Idol>, now: int, x: IdolWithDiff)
    requires x in PickThisWeek(AttachDiffDays(idols, now))
    ensures x.idol in idols && ParseMmdd(x.idol.birthdayMmdd).Some?
    ensures 1 <= x.diffDays <= 6
    ensures IsNextBirthday(DayNumberJst(now), ParseMmdd(x.idol.birthdayMmdd).value, x.diffDays)
  {
    PicksCharacterized(AttachDiffDays(idols, now), x);
    AttachDiffDaysMembers(idols, now, x);
    NextBirthdayDiffIsNext(x.idol.birthdayMmdd, now);
  }
}
