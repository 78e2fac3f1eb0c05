/** The calendar timeline of `src/components/BirthdayTimeline.tsx`: month headings and counts, the
    `MM/DD` label, the favourites filter and its toggle, and the grouping of the sorted records into
    runs of the same birth month. */
module Timeline {
  import opened Common
  import opened Strings
  import opened Birthday
  import opened Sheets
  import opened Seqs
  import opened BirthdaySort

  /** A number followed by a one-character unit, as the labels show counts and months. */
  function NumberWithUnit(n: int, unit: char): (r: string)
    ensures r != [] && r[|r| - 1] == unit
    ensures n >= 0 ==> ParseDecimal(r[..|r| - 1]) == Some(n)
  {
    var r := IntToString(n) + [unit];
    assert r[..|r| - 1] == IntToString(n);
    r
  }

  /** `monthLabel`: the month followed by 월 in Korean and 月 otherwise. */
  function MonthLabel(lang: Lang, month: int): string {
    NumberWithUnit(month, if lang == Ko then '월' else '月')
  }

  /** `monthCountLabel`: the count followed by 명 in Korean and 人 otherwise. */
  function MonthCountLabel(lang: Lang, n: int): string {
    NumberWithUnit(n, if lang == Ko then '명' else '人')
  }

  /** A month label ends in the language's month sign and reads back as its month; a count label
      ends in the language's counter and reads back as its count. */
  lemma LabelsReadBack(lang: Lang, n: nat)
    ensures var r := MonthLabel(lang, n);
      r[|r| - 1] == (if lang == Ko then '월' else '月') && ParseDecimal(r[..|r| - 1]) == Some(n)
    ensures var r := MonthCountLabel(lang, n);
      r[|r| - 1] == (if lang == Ko then '명' else '人') && ParseDecimal(r[..|r| - 1]) == Some(n)
  {
  }

  /** `mmddLabel`: an `MM-DD` text with its hyphen turned into a slash; any other text unchanged. */
  function MmddLabel(mmdd: string): (r: string)
    ensures |r| == |mmdd|
  {
    if IsMmddShape(mmdd) then mmdd[..2] + "/" + mmdd[3..] else mmdd
  }

  /** Only the hyphen of an `MM-DD` text changes, to a slash; the label of a label is the label, and
      putting the hyphen back gives the text the label was made from. */
  lemma MmddLabelCharacterized(mmdd: string)
    ensures !IsMmddShape(mmdd) ==> MmddLabel(mmdd) == mmdd
    ensures IsMmddShape(mmdd) ==>
      var r := MmddLabel(mmdd);
      && (forall i :: 0 <= i < 5 && i != 2 ==> r[i] == mmdd[i])
      && r[2] == '/'
      && r[..2] + "-" + r[3..] == mmdd
    ensures MmddLabel(MmddLabel(mmdd)) == MmddLabel(mmdd)
  {
    if IsMmddShape(mmdd) {
      var r := MmddLabel(mmdd);
      assert r[..2] == mmdd[..2] && r[3..] == mmdd[3..];
      assert mmdd == mmdd[..2] + "-" + mmdd[3..];
      assert !IsMmddShape(r);
    }
  }

  /** The label of a normalised birthday is its month and day, two digits each, around a slash. */
  lemma MmddLabelOfFormat(md: MonthDay)
    requires ValidMonthDay(md)
    ensures MmddLabel(FormatMmdd(md)) == Pad2(md.month) + "/" + Pad2(md.day)
  {
    FormatMmddReadsBack();
    var s := FormatMmdd(md);
    assert s[..2] == Pad2(md.month) && s[3..] == Pad2(md.day);
  }

  /** The records shown: all of them, or with "favourites only" on, those whose id is a favourite. */
  function Favourites(idols: seq<IdolWithDiff>, oshiOnly: bool, oshiIds: set<string>): seq<IdolWithDiff> {
    if !oshiOnly then idols else Filter(idols, (x: IdolWithDiff) => x.idol.id in oshiIds)
  }

  /** Off, the filter changes nothing; on, it keeps exactly the favourites, in order. */
  lemma FavouritesCharacterized(idols: seq<IdolWithDiff>, oshiOnly: bool, oshiIds: set<string>, x: IdolWithDiff)
    ensures !oshiOnly ==> Favourites(idols, oshiOnly, oshiIds) == idols
    ensures oshiOnly ==> (x in Favourites(idols, oshiOnly, oshiIds) <==> x in idols && x.idol.id in oshiIds)
    ensures IsSubsequence(Favourites(idols, oshiOnly, oshiIds), idols)
  {
    var keep := (x: IdolWithDiff) => x.idol.id in oshiIds;
    if oshiOnly {
      FilterMembers(idols, keep, x);
      FilterIsSubsequence(idols, keep);
    } else {
      SubsequenceRefl(idols);
    }
  }

  /** The favourites after `toggleOshi(id)`. */
  function Toggled(ids: set<string>, id: string): set<string> {
    if id in ids then ids - {id} else ids + {id}
  }

  /** `toggleOshi`: a copy of the set with `id` removed when present and added when absent. */
  method ToggleOshi(prev: set<string>, id: string) returns (next: set<string>)
    ensures next == Toggled(prev, id)
  {
    next := prev;
    if id in next {
      next := next - {id};
    } else {
      next := next + {id};
    }
  }

  /** Toggling flips whether `id` is a favourite and leaves every other id as it was; toggling twice
      gives the set back. */
  lemma ToggledCharacterized(ids: set<string>, id: string)
    ensures id in Toggled(ids, id) <==> id !in ids
    ensures forall other :: other != id ==> (other in Toggled(ids, id) <==> other in ids)
    ensures Toggled(Toggled(ids, id), id) == ids
  {
  }

  /** `MonthGroup`: a birth month and the records listed under it. */
  datatype MonthGroup = MonthGroup(month: int, idols: seq<IdolWithDiff>)

  /** `parseMmdd(idol.birthday_mmdd)?.month`. */
  function MonthOf(x: IdolWithDiff): (r: Option<int>)
    ensures r.Some? <==> ParseMmdd(x.idol.birthdayMmdd).Some?
    ensures r.Some? ==> 1 <= r.value <= 12
  {
    match ParseMmdd(x.idol.birthdayMmdd)
    case None => None
    case Some(md) => Some(md.month)
  }

  predicate HasMonth(x: IdolWithDiff) {
    MonthOf(x).Some?
  }

  /** One turn of the grouping loop: a record without a month is skipped; one whose month differs
      from the last group's (or that comes first) opens a group; any other joins the last group. */
  function AddToGroups(groups: seq<MonthGroup>, x: IdolWithDiff): seq<MonthGroup> {
    match MonthOf(x)
    case None => groups
    case Some(m) =>
      if groups == [] || groups[|groups| - 1].month != m then groups + [MonthGroup(m, [x])]
      else groups[..|groups| - 1] + [MonthGroup(m, groups[|groups| - 1].idols + [x])]
  }

  /** What `groupByUpcomingMonth` returns: each record handed to the loop in turn. */
  function GroupSpec(list: seq<IdolWithDiff>): seq<MonthGroup> {
    if list == [] then [] else AddToGroups(GroupSpec(list[..|list| - 1]), list[|list| - 1])
  }

  /** `groupByUpcomingMonth`. `current` is the group last pushed onto `groups`; the source appends to
      it through that shared reference, here by replacing the last group with the grown one. */
  method GroupByUpcomingMonth(list: seq<IdolWithDiff>) returns (groups: seq<MonthGroup>)
    ensures groups == GroupSpec(list)
  {
    groups := [];
    var current: Option<MonthGroup> := None;
    for i := 0 to |list|
      invariant groups == GroupSpec(list[..i])
      invariant current.None? <==> groups == []
      invariant current.Some? ==> current.value == groups[|groups| - 1]
    {
      assert list[..i + 1][..i] == list[..i];
      var idol := list[i];
      ghost var expected := AddToGroups(groups, idol);
      var md := ParseMmdd(idol.idol.birthdayMmdd);
      if md.Some? {
        var month := md.value.month;
        assert MonthOf(idol) == Some(month);
        if current.None? || current.value.month != month {
          assert expected == groups + [MonthGroup(month, [idol])];
          assert [] + [idol] == [idol];
          current := Some(MonthGroup(month, []));
          groups := groups + [current.value];
        }
        current := Some(current.value.(idols := current.value.idols + [idol]));
        groups := groups[..|groups| - 1] + [current.value];
      }
      assert groups == expected;
    }
    assert list[..|list|] == list;
  }

  /** The records of all groups, group after group. */
  function Flatten(groups: seq<MonthGroup>): seq<IdolWithDiff> {
    if groups == [] then [] else Flatten(groups[..|groups| - 1]) + groups[|groups| - 1].idols
  }

  /** Every group has records, and every record in a group has that group's month. */
  predicate Uniform(groups: seq<MonthGroup>) {
    forall i :: 0 <= i < |groups| ==>
      groups[i].idols != [] &&
      forall j :: 0 <= j < |groups[i].idols| ==> MonthOf(groups[i].idols[j]) == Some(groups[i].month)
  }

  /** Groups next to each other have different months. */
  predicate AdjacentDiffer(groups: seq<MonthGroup>) {
    forall i :: 0 < i < |groups| ==> groups[i - 1].month != groups[i].month
  }

  /** One turn adds the record to the end of the flattened groups exactly when it has a month. */
  lemma AddToGroupsFlatten(groups: seq<MonthGroup>, x: IdolWithDiff)
    ensures Flatten(AddToGroups(groups, x)) == Flatten(groups) + (if HasMonth(x) then [x] else [])
  {
    if HasMonth(x) {
      var m := MonthOf(x).value;
      if groups == [] || groups[|groups| - 1].month != m {
        DropLast(groups, MonthGroup(m, [x]));
      } else {
        var front := groups[..|groups| - 1];
        var last := groups[|groups| - 1];
        DropLast(front, MonthGroup(m, last.idols + [x]));
        AppendAssoc(Flatten(front), last.idols, [x]);
      }
    }
  }

  /** One turn keeps the groups non-empty and uniform in month, and neighbours different. */
  lemma AddToGroupsInvariant(groups: seq<MonthGroup>, x: IdolWithDiff)
    requires Uniform(groups) && AdjacentDiffer(groups)
    ensures Uniform(AddToGroups(groups, x)) && AdjacentDiffer(AddToGroups(groups, x))
  {
    if HasMonth(x) {
      var m := MonthOf(x).value;
      var r := AddToGroups(groups, x);
      if !(groups == [] || groups[|groups| - 1].month != m) {
        var last := groups[|groups| - 1];
        var grown := r[|r| - 1].idols;
        assert grown == last.idols + [x];
        forall j | 0 <= j < |grown| ensures MonthOf(grown[j]) == Some(m) {
          if j < |last.idols| {
            assert grown[j] == last.idols[j];
          }
        }
      }
    }
  }

  /** The groups, read one after another, are the list without the records whose birthday
      `parseMmdd` rejects, in list order. */
  lemma {:induction false} GroupSpecFlatten(list: seq<IdolWithDiff>)
    ensures Flatten(GroupSpec(list)) == Filter(list, HasMonth)
  {
    if list != [] {
      var front := list[..|list| - 1];
      var x := list[|list| - 1];
      GroupSpecFlatten(front);
      AddToGroupsFlatten(GroupSpec(front), x);
      FilterSnoc(front, x, HasMonth);
      assert front + [x] == list;
    }
  }

  /** Every group is non-empty and holds only records of its month, and neighbouring groups have
      different months. */
  lemma {:induction false} GroupSpecShape(list: seq<IdolWithDiff>)
    ensures Uniform(GroupSpec(list)) && AdjacentDiffer(GroupSpec(list))
  {
    if list != [] {
      GroupSpecShape(list[..|list| - 1]);
      AddToGroupsInvariant(GroupSpec(list[..|list| - 1]), list[|list| - 1]);
    }
  }

  /** No records, no groups. */
  lemma GroupSpecEmpty()
    ensures GroupSpec([]) == []
  {
  }

  /** A month may come back after another one: it then opens a new group. */
  lemma MonthComesBack(a: IdolWithDiff, b: IdolWithDiff, c: IdolWithDiff)
    requires MonthOf(a) == Some(1) && MonthOf(b) == Some(2) && MonthOf(c) == Some(1)
    ensures GroupSpec([a, b, c]) == [MonthGroup(1, [a]), MonthGroup(2, [b]), MonthGroup(1, [c])]
  {
    assert [a, b, c][..2] == [a, b];
    assert [a, b][..1] == [a];
    assert [a][..0] == [];
    assert GroupSpec([a]) == [MonthGroup(1, [a])];
    assert GroupSpec([a, b]) == [MonthGroup(1, [a]), MonthGroup(2, [b])];
  }

  /** A record with the same month as the one before joins its group. */
  lemma SameMonthJoins(a: IdolWithDiff, b: IdolWithDiff)
    requires MonthOf(a).Some? && MonthOf(a) == MonthOf(b)
    ensures GroupSpec([a, b]) == [MonthGroup(MonthOf(a).value, [a, b])]
  {
    assert [a, b][..1] == [a];
    assert [a][..0] == [];
    var m := MonthOf(a).value;
    assert GroupSpec([a]) == [MonthGroup(m, [a])];
    assert [MonthGroup(m, [a])][..0] == [];
    assert [a] + [b] == [a, b];
  }
}
