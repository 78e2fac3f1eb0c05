/** The pure helpers of `src/components/IdolCard.tsx`: the group name split into aliases, the label
    for the days to a birthday, and the test that marks the selected alias. The `MM-DD` to `MM/DD`
    label is `Timeline.MmddLabel`, which has the same definition. */
module IdolCard {
  import opened Common
  import opened Strings
  import opened Seqs

  /** The separators of `/[\/／]/`: the ASCII slash and the full-width slash. */
  const AliasSeparators: set<char> := {'/', '\U{FF0F}'}

  /** `filter(Boolean)` on strings keeps the non-empty ones. */
  predicate NonEmpty(s: string) {
    s != ""
  }

  /** The trimmed, non-empty parts of the group name, repeats included. */
  function AliasParts(groupName: Option<string>): seq<string> {
    var raw := Trim(groupName.GetOr(""));
    if raw == "" then [] else Filter(TrimEach(SplitBy(raw, AliasSeparators)), NonEmpty)
  }

  /** `splitGroupAliases(groupName)`: the parts, each kept at its first occurrence only, as
      `Array.from(new Set(parts))` keeps them in insertion order. */
  function SplitGroupAliases(groupName: Option<string>): (r: seq<string>)
    ensures NoDuplicates(r)
    ensures forall a :: a in r <==> a in AliasParts(groupName)
  {
    Dedup(AliasParts(groupName))
  }

  /** Every alias is non-empty, has no white space at either end, holds no separator, and is made of
      characters of the group name. */
  lemma AliasesClean(groupName: Option<string>, a: string)
    requires a in SplitGroupAliases(groupName)
    ensures a != "" && Trim(a) == a
    ensures forall c :: c in a ==> c !in AliasSeparators && c in groupName.GetOr("")
  {
    var raw := Trim(groupName.GetOr(""));
    var pieces := SplitBy(raw, AliasSeparators);
    FilterMembers(TrimEach(pieces), NonEmpty, a);
    var i :| 0 <= i < |pieces| && TrimEach(pieces)[i] == a;
    TrimIdempotent(pieces[i]);
    SplitByPiecesPlain(raw, AliasSeparators);
    forall c | c in a ensures c !in AliasSeparators && c in groupName.GetOr("") {
      TrimChars(pieces[i], c);
      TrimChars(groupName.GetOr(""), c);
    }
  }

  /** Nothing but white space and separators is lost: every other character of the group name is in
      some alias. */
  lemma AliasesComplete(groupName: Option<string>, c: char)
    requires c in groupName.GetOr("") && c !in JsWhitespace && c !in AliasSeparators
    ensures exists a :: a in SplitGroupAliases(groupName) && c in a
  {
    var raw := Trim(groupName.GetOr(""));
    TrimKeeps(groupName.GetOr(""), JsWhitespace, c);
    SplitByKeeps(raw, AliasSeparators, c);
    var p :| p in SplitBy(raw, AliasSeparators) && c in p;
    TrimKeeps(p, JsWhitespace, c);
    var pieces := SplitBy(raw, AliasSeparators);
    var i :| 0 <= i < |pieces| && pieces[i] == p;
    assert TrimEach(pieces)[i] == Trim(p);
    FilterMembers(TrimEach(pieces), NonEmpty, Trim(p));
  }

  /** There are no aliases exactly when the group name is missing or holds only white space and
      separators; in particular a missing, empty or blank name gives none. */
  lemma SplitGroupAliasesEmptyIff(groupName: Option<string>)
    ensures SplitGroupAliases(groupName) == [] <==>
      forall c :: c in groupName.GetOr("") ==> c in JsWhitespace || c in AliasSeparators
    ensures groupName.None? || Trim(groupName.value) == "" ==> SplitGroupAliases(groupName) == []
  {
    var r := SplitGroupAliases(groupName);
    var g := groupName.GetOr("");
    if r != [] {
      AliasesClean(groupName, r[0]);
      var a := r[0];
      assert a[0] !in JsWhitespace;
      assert a[0] in g && a[0] !in AliasSeparators;
    }
    if c :| c in g && c !in JsWhitespace && c !in AliasSeparators {
      AliasesComplete(groupName, c);
    }
    if groupName.Some? && Trim(groupName.value) == "" {
      assert AliasParts(groupName) == [];
    }
  }

  /** The aliases are the parts in their order, without repeats; a list of parts without repeats is
      returned as it is. */
  lemma SplitGroupAliasesOrder(groupName: Option<string>)
    ensures IsSubsequence(SplitGroupAliases(groupName), AliasParts(groupName))
    ensures InFirstOccurrenceOrder(SplitGroupAliases(groupName), AliasParts(groupName))
    ensures NoDuplicates(AliasParts(groupName)) ==> SplitGroupAliases(groupName) == AliasParts(groupName)
  {
    DedupIsSubsequence([], AliasParts(groupName));
    DedupOrder(AliasParts(groupName));
    if NoDuplicates(AliasParts(groupName)) {
      assert [] + AliasParts(groupName) == AliasParts(groupName);
      DedupNoDuplicates([], AliasParts(groupName));
    }
  }

  /** The two parts of a name repeated around a slash. */
  lemma AliasPartsRepeated(g: string)
    requires g != [] && forall i :: 0 <= i < |g| ==> 'A' <= g[i] <= 'z'
    ensures AliasParts(Some(g + "/" + g)) == [g, g]
  {
    var raw := g + "/" + g;
    TrimVisibleAscii(raw);
    TrimVisibleAscii(g);
    assert raw == g + ['/'] + g;
    SplitByOnce(g, '/', g, AliasSeparators);
    assert TrimEach([g, g]) == [g, g];
    FilterSnoc([g], g, NonEmpty);
    FilterSnoc([], g, NonEmpty);
    assert [] + [g] == [g] && [g] + [g] == [g, g];
  }

  /** A name repeated around a slash gives that name once: `"GroupA/GroupA"` gives `["GroupA"]`. */
  lemma SplitGroupAliasesRepeated(g: string)
    requires g != [] && forall i :: 0 <= i < |g| ==> 'A' <= g[i] <= 'z'
    ensures SplitGroupAliases(Some(g + "/" + g)) == [g]
  {
    AliasPartsRepeated(g);
    DedupTwice(g);
  }

  /** A name made of ASCII letters (and the few signs between `Z` and `a`). */
  predicate Letters(s: string) {
    s != [] && forall i :: 0 <= i < |s| ==> 'A' <= s[i] <= 'z'
  }

  /** A name, a second name and the first name again, around slashes, have nothing to trim. */
  lemma ThreeNamesTrimmed(a: string, b: string)
    requires Letters(a) && Letters(b)
    ensures Trim(a + "/" + b + "/" + a) == a + "/" + b + "/" + a
  {
    var raw := a + "/" + b + "/" + a;
    forall i | 0 <= i < |raw| ensures '!' <= raw[i] <= '~' {
      if i < |a| {
        assert raw[i] == a[i];
      } else if |a| < i < |a| + 1 + |b| {
        assert raw[i] == b[i - |a| - 1];
      } else if i > |a| + 1 + |b| {
        assert raw[i] == a[i - |a| - 2 - |b|];
      }
    }
    TrimVisibleAscii(raw);
  }

  /** Splitting `a/b/a` at the slashes. */
  lemma ThreeNamesSplit(a: string, b: string)
    requires Letters(a) && Letters(b)
    ensures SplitBy(a + "/" + b + "/" + a, AliasSeparators) == [a, b, a]
  {
    var tail := b + ['/'] + a;
    assert a + "/" + b + "/" + a == a + ['/'] + tail;
    SplitByCons(a, '/', tail, AliasSeparators);
    SplitByOnce(b, '/', a, AliasSeparators);
  }

  /** The three parts of a name, a second name and the first name again, around slashes. */
  lemma AliasPartsThree(a: string, b: string)
    requires Letters(a) && Letters(b)
    ensures AliasParts(Some(a + "/" + b + "/" + a)) == [a, b, a]
  {
    ThreeNamesTrimmed(a, b);
    ThreeNamesSplit(a, b);
    TrimVisibleAscii(a);
    TrimVisibleAscii(b);
    var parts := [a, b, a];
    assert TrimEach(parts) == parts;
    FilterAll(parts, NonEmpty);
  }

  /** A name that comes back after another keeps its first place: `"A/B/A"` gives `["A", "B"]`. */
  lemma SplitGroupAliasesFirstKept(a: string, b: string)
    requires Letters(a) && Letters(b) && a != b
    ensures SplitGroupAliases(Some(a + "/" + b + "/" + a)) == [a, b]
  {
    AliasPartsThree(a, b);
    DedupFirstKept(a, b);
  }

  /** The label for today. */
  function TodayWord(lang: Lang): string {
    if lang == Ko then "오늘" else "今日"
  }

  /** The label for yesterday. */
  function YesterdayWord(lang: Lang): string {
    if lang == Ko then "어제" else "昨日"
  }

  /** The unit after a number of days ahead. */
  function AheadUnit(lang: Lang): string {
    if lang == Ko then "일" else "日"
  }

  /** What follows a number of days ago. */
  function AgoSuffix(lang: Lang): string {
    if lang == Ko then "일 전" else "日前"
  }

  /** `formatRemainingDays(lang, diffDays)`, with `None` for a number that is not finite. */
  function FormatRemainingDays(lang: Lang, diffDays: Option<int>): string {
    match diffDays
    case None => ""
    case Some(n) =>
      if n == 0 then TodayWord(lang)
      else if n > 0 then "+" + NatToString(n) + AheadUnit(lang)
      else
        var ago := -n;
        if ago == 1 then YesterdayWord(lang) else NatToString(ago) + AgoSuffix(lang)
  }

  /** Reads a label back: the partner of `FormatRemainingDays`. */
  function ReadRemainingDays(lang: Lang, s: string): Option<int> {
    var suffix := AgoSuffix(lang);
    if s == TodayWord(lang) then Some(0)
    else if s == YesterdayWord(lang) then Some(0 - 1 as int)
    else if |s| >= 2 && s[0] == '+' && s[|s| - 1..] == AheadUnit(lang) then
      match ParseDecimal(s[1..|s| - 1])
      case Some(n) => Some(n)
      case None => None
    else if |s| > |suffix| && s[|s| - |suffix|..] == suffix then
      match ParseDecimal(s[..|s| - |suffix|])
      case Some(n) => Some(0 - n as int)
      case None => None
    else None
  }

  /** Decimal text read back gives its number. */
  lemma ParseNatToString(n: nat)
    ensures ParseDecimal(NatToString(n)) == Some(n)
  {
  }

  /** The label of a number of days ahead reads back as that number. */
  lemma ReadAhead(lang: Lang, n: nat)
    requires n > 0
    ensures ReadRemainingDays(lang, FormatRemainingDays(lang, Some(n))) == Some(n)
  {
    var digits := NatToString(n);
    var s := "+" + digits + AheadUnit(lang);
    assert s[0] == '+';
    assert s != TodayWord(lang) by {
      assert TodayWord(lang)[0] != '+';
    }
    assert s != YesterdayWord(lang) by {
      assert YesterdayWord(lang)[0] != '+';
    }
    assert s[|s| - 1..] == AheadUnit(lang);
    assert s[1..|s| - 1] == digits;
    ParseNatToString(n);
  }

  /** The label of a number of days ago, two or more, reads back as that number. */
  lemma ReadAgo(lang: Lang, ago: int)
    requires ago > 1
    ensures ReadRemainingDays(lang, FormatRemainingDays(lang, Some(-ago))) == Some(-ago)
  {
    var digits := NatToString(ago);
    var suffix := AgoSuffix(lang);
    var s := digits + suffix;
    assert FormatRemainingDays(lang, Some(-ago)) == s;
    assert s[0] == digits[0] && IsAsciiDigit(s[0]);
    assert s != TodayWord(lang) by {
      assert !IsAsciiDigit(TodayWord(lang)[0]);
    }
    assert s != YesterdayWord(lang) by {
      assert !IsAsciiDigit(YesterdayWord(lang)[0]);
    }
    assert s[|s| - |suffix|..] == suffix;
    assert s[..|s| - |suffix|] == digits;
    ParseNatToString(ago);
  }

  /** Every label reads back as the days it was made from, and "" as no number at all. */
  lemma RemainingDaysRoundTrip(lang: Lang, diffDays: Option<int>)
    ensures ReadRemainingDays(lang, FormatRemainingDays(lang, diffDays)) == diffDays
  {
    match diffDays
    case None =>
    case Some(n) =>
      if n > 0 {
        ReadAhead(lang, n);
      } else if n < -1 {
        ReadAgo(lang, -n);
      }
  }

  /** Different days never share a label. */
  lemma FormatRemainingDaysInjective(lang: Lang, a: Option<int>, b: Option<int>)
    requires FormatRemainingDays(lang, a) == FormatRemainingDays(lang, b)
    ensures a == b
  {
    RemainingDaysRoundTrip(lang, a);
    RemainingDaysRoundTrip(lang, b);
  }

  /** The kind of label tells the kind of day: "" only for no number, a leading `+` exactly for days
      ahead, a leading digit exactly for two or more days ago. */
  lemma FormatRemainingDaysShape(lang: Lang, diffDays: Option<int>)
    ensures FormatRemainingDays(lang, diffDays) == "" <==> diffDays.None?
    ensures var s := FormatRemainingDays(lang, diffDays);
      s != "" && s[0] == '+' <==> diffDays.Some? && diffDays.value > 0
    ensures var s := FormatRemainingDays(lang, diffDays);
      s != "" && IsAsciiDigit(s[0]) <==> diffDays.Some? && diffDays.value < -1
  {
    var s := FormatRemainingDays(lang, diffDays);
    if diffDays.Some? && diffDays.value < -1 {
      assert s[0] == NatToString(-diffDays.value)[0];
    }
  }

  /** The test that marks an alias as the selected group: an active token is set (a non-empty
      string) and the alias and the token normalise to the same text. */
  predicate IsActive(norm: string -> string, token: string, activeGroupToken: Option<string>) {
    activeGroupToken.Some? && activeGroupToken.value != "" && norm(token) == norm(activeGroupToken.value)
  }

  /** With no token set nothing is marked; the selected token's own alias is marked; aliases that
      normalise alike are marked together. */
  lemma IsActiveProperties(norm: string -> string, token: string, other: string, active: Option<string>)
    ensures active.None? || active == Some("") ==> !IsActive(norm, token, active)
    ensures active.Some? && active.value != "" ==> IsActive(norm, active.value, active)
    ensures norm(token) == norm(other) ==> (IsActive(norm, token, active) <==> IsActive(norm, other, active))
  {
  }
}
