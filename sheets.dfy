/** The idol record read from the published spreadsheet, its display name, birthday normalisation
    and the byte-order-mark strip in front of CSV parsing (`src/lib/sheets.ts`). */
module Sheets {
  import opened Common
  import opened Strings
  import opened Birthday
  import Seqs

  /** One idol. Optional properties are `Option`s; `birthdayMmdd` is normalised `MM-DD` text when the
      record comes out of the row mapping. */
  datatype Idol = Idol(
    id: string,
    nameJa: Option<string>,
    nameKo: Option<string>,
    slug: string,
    groupName: Option<string>,
    groupSlug: Option<string>,
    birthdayMmdd: string,
    xUrl: Option<string>,
    sourceUrl: Option<string>,
    status: string)

  /** `name?.trim()`, with a missing name read as the empty string: both are falsy for `||`. */
  function TrimmedName(name: Option<string>): string {
    match name
    case None => ""
    case Some(n) => Trim(n)
  }

  /** The candidates `getIdolDisplayName` tries, in order: the name in the page language, the name
      in the other language, the slug and the id. */
  function DisplayNameCandidates(idol: Idol, lang: Lang): (c: seq<string>)
    ensures |c| == 4
  {
    var ja := TrimmedName(idol.nameJa);
    var ko := TrimmedName(idol.nameKo);
    if lang == Ja then [ja, ko, idol.slug, idol.id] else [ko, ja, idol.slug, idol.id]
  }

  /** `a || b` on strings: `a` unless it is empty. */
  function OrElse(a: string, b: string): string {
    if a != "" then a else b
  }

  /** The first non-empty candidate; the id when every candidate before it is empty. */
  function GetIdolDisplayName(idol: Idol, lang: Lang): (r: string)
    ensures var c := DisplayNameCandidates(idol, lang);
      exists i :: 0 <= i < 4 && r == c[i] && (r != "" || i == 3) && forall j :: 0 <= j < i ==> c[j] == ""
  {
    var c := DisplayNameCandidates(idol, lang);
    var r := OrElse(c[0], OrElse(c[1], OrElse(c[2], c[3])));
    assert r == c[0] || (c[0] == "" && r == c[1]) || (c[0] == c[1] == "" && r == c[2])
      || (c[0] == c[1] == c[2] == "" && r == c[3]);
    r
  }

  /** A record with a slug always has a non-empty display name. */
  lemma DisplayNameNonEmpty(idol: Idol, lang: Lang)
    requires idol.slug != ""
    ensures GetIdolDisplayName(idol, lang) != ""
  {
    assert DisplayNameCandidates(idol, lang)[2] == idol.slug;
  }

  /** A name given in the page language is shown as written, trimmed. */
  lemma DisplayNamePrefersLanguage(idol: Idol, lang: Lang)
    requires TrimmedName(if lang == Ja then idol.nameJa else idol.nameKo) != ""
    ensures GetIdolDisplayName(idol, lang) == TrimmedName(if lang == Ja then idol.nameJa else idol.nameKo)
  {
    assert DisplayNameCandidates(idol, lang)[0] == TrimmedName(if lang == Ja then idol.nameJa else idol.nameKo);
  }

  /** With no name in the page language, the other language's name is shown before the slug. */
  lemma DisplayNameFallsBackToOtherLanguage(idol: Idol, lang: Lang)
    requires TrimmedName(if lang == Ja then idol.nameJa else idol.nameKo) == ""
    requires TrimmedName(if lang == Ja then idol.nameKo else idol.nameJa) != ""
    ensures GetIdolDisplayName(idol, lang) == TrimmedName(if lang == Ja then idol.nameKo else idol.nameJa)
  {
    var c := DisplayNameCandidates(idol, lang);
    assert c[0] == TrimmedName(if lang == Ja then idol.nameJa else idol.nameKo);
    assert c[1] == TrimmedName(if lang == Ja then idol.nameKo else idol.nameJa);
  }

  /** The separator `normalizeMmdd` splits on: `-` whenever the text holds one, else `/`, else none. */
  function Separator(raw: string): (sep: Option<char>)
    ensures sep == Some('-') <==> '-' in raw
    ensures sep == Some('/') <==> '-' !in raw && '/' in raw
    ensures sep == None <==> '-' !in raw && '/' !in raw
  {
    if '-' in raw then Some('-') else if '/' in raw then Some('/') else None
  }

  /** Month and day text after splitting and trimming: both decimal integers in range, else nothing. */
  function NormalizeParts(monthText: string, dayText: string): (r: Option<string>)
    ensures r.Some? <==> (ParseDecimal(monthText).Some? && ParseDecimal(dayText).Some?
      && 1 <= ParseDecimal(monthText).value <= 12 && 1 <= ParseDecimal(dayText).value <= 31)
    ensures r.Some? ==> r.value == FormatMmdd(MonthDay(ParseDecimal(monthText).value, ParseDecimal(dayText).value))
  {
    match (ParseDecimal(monthText), ParseDecimal(dayText))
    case (Some(m), Some(d)) =>
      if m < 1 || m > 12 then None
      else if d < 1 || d > 31 then None
      else Some(FormatMmdd(MonthDay(m, d)))
    case _ => None
  }

  /** The two pieces of the split, each trimmed, read as month and day; any other number of pieces
      gives nothing. */
  function NormalizePieces(parts: seq<string>): (r: Option<string>)
    ensures |parts| != 2 ==> r.None?
    ensures r.Some? ==> exists md :: ValidMonthDay(md) && r.value == FormatMmdd(md)
  {
    if |parts| != 2 then None
    else
      var r := NormalizeParts(Trim(parts[0]), Trim(parts[1]));
      assert r.Some? ==> ValidMonthDay(MonthDay(ParseDecimal(Trim(parts[0])).value, ParseDecimal(Trim(parts[1])).value));
      r
  }

  /** Normalising text that is already trimmed. */
  function NormalizeTrimmed(raw: string): (r: Option<string>)
    ensures raw == [] ==> r.None?
    ensures '-' !in raw && '/' !in raw ==> r.None?
    ensures r.Some? ==> exists md :: ValidMonthDay(md) && r.value == FormatMmdd(md)
  {
    if raw == [] then None
    else
      match Separator(raw)
      case None => None
      case Some(sep) => NormalizePieces(SplitBy(raw, {sep}))
  }

  /** `normalizeMmdd`: `M-D`, `MM-DD`, `M/D` or `MM/DD`, surrounded by any white space, becomes
      `MM-DD`. Blank text and text without a separator give nothing, and so does anything whose
      pieces are not two integers with a month in 1..12 and a day in 1..31. */
  function NormalizeMmdd(input: string): (r: Option<string>)
    ensures Trim(input) == [] ==> r.None?
    ensures '-' !in Trim(input) && '/' !in Trim(input) ==> r.None?
    ensures r.Some? ==> exists md :: ValidMonthDay(md) && r.value == FormatMmdd(md)
  {
    NormalizeTrimmed(Trim(input))
  }

  /** Digits are printable ASCII and so never trimmed. */
  lemma TrimDigits(s: string)
    requires AllDigits(s)
    ensures Trim(s) == s
  {
    TrimVisibleAscii(s);
  }

  /** Two digit strings as the pieces read as month and day exactly when the values are in range. */
  lemma NormalizePiecesOfDigits(monthText: string, dayText: string)
    requires monthText != [] && AllDigits(monthText) && dayText != [] && AllDigits(dayText)
    ensures var m := DecimalValue(monthText); var d := DecimalValue(dayText);
      NormalizePieces([monthText, dayText])
        == if 1 <= m <= 12 && 1 <= d <= 31 then Some(FormatMmdd(MonthDay(m, d))) else None
  {
    TrimDigits(monthText);
    TrimDigits(dayText);
  }

  /** Text with exactly one separator, `-` or `/`, and digits around it is split at that separator. */
  lemma NormalizeTrimmedSplits(raw: string, monthText: string, sep: char, dayText: string)
    requires sep == '-' || sep == '/'
    requires AllDigits(monthText) && AllDigits(dayText)
    requires raw == monthText + [sep] + dayText
    ensures NormalizeTrimmed(raw) == NormalizePieces([monthText, dayText])
  {
    assert '-' !in monthText && '-' !in dayText && '/' !in monthText && '/' !in dayText;
    assert raw[|monthText|] == sep;
    assert Separator(raw) == Some(sep);
    SplitByOnce(monthText, sep, dayText, {sep});
  }

  /** Trimmed text is split at its first separator into `m` and `d`: a second separator in `d`
      makes three or more pieces and gives nothing; otherwise the two pieces, each trimmed, are read
      as month and day. */
  lemma NormalizeTrimmedAtSeparator(raw: string, m: string, sep: char, d: string)
    requires Separator(raw) == Some(sep)
    requires raw == m + [sep] + d && sep !in m
    ensures NormalizeTrimmed(raw) == if sep in d then None else NormalizeParts(Trim(m), Trim(d))
  {
    assert raw != [] && NormalizeTrimmed(raw) == NormalizePieces(SplitBy(raw, {sep}));
    assert forall i :: 0 <= i < |m| ==> m[i] !in {sep};
    SplitByCons(m, sep, d, {sep});
    if sep in d {
      SplitHoldingSeparator(d, sep);
      assert |SplitBy(raw, {sep})| != 2;
    } else {
      assert forall i :: 0 <= i < |d| ==> d[i] !in {sep};
      SplitByPlain(d, {sep});
      assert SplitBy(raw, {sep}) == [m, d];
    }
  }

  /** Text holding the separator splits into at least two pieces. */
  lemma SplitHoldingSeparator(d: string, sep: char)
    requires sep in d
    ensures |SplitBy(d, {sep})| >= 2
  {
    var k := Seqs.FirstIndex(d, sep);
    assert d == d[..k] + [sep] + d[k + 1..];
    assert forall i :: 0 <= i < k ==> d[..k][i] !in {sep};
    SplitByCons(d[..k], sep, d[k + 1..], {sep});
  }

  /** `normalizeMmdd` in full: after trimming, the text must hold its separator exactly once; the
      text before it and the text after it, each trimmed, are read as month and day. */
  lemma NormalizeMmddAtSeparator(input: string, m: string, sep: char, d: string)
    requires Separator(Trim(input)) == Some(sep)
    requires Trim(input) == m + [sep] + d && sep !in m
    ensures NormalizeMmdd(input) == if sep in d then None else NormalizeParts(Trim(m), Trim(d))
  {
    NormalizeTrimmedAtSeparator(Trim(input), m, sep, d);
  }

  /** Three pieces give nothing: `"1-2-3"` does not normalise. */
  lemma NormalizeMmddThreePieces()
    ensures NormalizeMmdd("1-2-3").None?
  {
    TrimVisibleAscii("1-2-3");
    assert "1-2-3" == "1" + ['-'] + "2-3";
    NormalizeMmddAtSeparator("1-2-3", "1", '-', "2-3");
  }

  /** Spaces at both ends of `" 1 - 2 "` are trimmed, and the inner ones kept. */
  lemma TrimInnerSpaces()
    ensures Trim(" 1 - 2 ") == "1 - 2"
  {
    var s := " 1 - 2 ";
    assert ' ' in JsWhitespace && '1' !in JsWhitespace && '2' !in JsWhitespace;
    assert TrimStartIndex(s, JsWhitespace, 1) == 1;
    assert TrimStartIndex(s, JsWhitespace, 0) == 1;
    assert TrimEndIndex(s, JsWhitespace, 1, 6) == 6;
    assert TrimEndIndex(s, JsWhitespace, 1, 7) == 6;
  }

  /** The pieces `"1 "` and `" 2"` trim to `"1"` and `"2"`. */
  lemma TrimSpacedDigits()
    ensures Trim("1 ") == "1" && Trim(" 2") == "2"
  {
    assert ' ' in JsWhitespace && '1' !in JsWhitespace && '2' !in JsWhitespace;
    assert TrimEndIndex("1 ", JsWhitespace, 0, 1) == 1;
    assert TrimStartIndex(" 2", JsWhitespace, 1) == 1;
  }

  /** White space around the separator is trimmed from each piece: `" 1 - 2 "` gives `"01-02"`. */
  lemma NormalizeMmddInnerSpaces()
    ensures NormalizeMmdd(" 1 - 2 ") == Some("01-02")
  {
    TrimInnerSpaces();
    assert "1 - 2" == "1 " + ['-'] + " 2";
    NormalizeMmddAtSeparator(" 1 - 2 ", "1 ", '-', " 2");
    TrimSpacedDigits();
    NormalizePartsOneTwo();
  }

  /** The pieces `"1"` and `"2"` read as January 2, written `"01-02"`. */
  lemma NormalizePartsOneTwo()
    ensures NormalizeParts("1", "2") == Some("01-02")
  {
    assert AllDigits("1") && AllDigits("2");
    assert DecimalValue("1") == 1 && DecimalValue("2") == 2;
    assert ValidMonthDay(MonthDay(1, 2));
    FormatJanuarySecond();
  }

  /** January 2 is written `"01-02"`. */
  lemma FormatJanuarySecond()
    ensures FormatMmdd(MonthDay(1, 2)) == "01-02"
  {
    assert Pad2(1) == "01" && Pad2(2) == "02";
  }

  /** Month digits, a separator and day digits, after trimming, normalise to the zero-padded form
      exactly when the values are in range. */
  lemma NormalizeMmddOfDigits(input: string, monthText: string, sep: char, dayText: string)
    requires sep == '-' || sep == '/'
    requires monthText != [] && AllDigits(monthText) && dayText != [] && AllDigits(dayText)
    requires Trim(input) == monthText + [sep] + dayText
    ensures var m := DecimalValue(monthText); var d := DecimalValue(dayText);
      NormalizeMmdd(input) == if 1 <= m <= 12 && 1 <= d <= 31 then Some(FormatMmdd(MonthDay(m, d))) else None
  {
    NormalizeTrimmedSplits(Trim(input), monthText, sep, dayText);
    NormalizePiecesOfDigits(monthText, dayText);
  }

  /** Normalising a normalised birthday changes nothing. */
  lemma NormalizeMmddIdempotent(input: string)
    requires NormalizeMmdd(input).Some?
    ensures NormalizeMmdd(NormalizeMmdd(input).value) == NormalizeMmdd(input)
  {
    var t := NormalizeMmdd(input).value;
    var md :| ValidMonthDay(md) && t == FormatMmdd(md);
    var mm := Pad2(md.month);
    var dd := Pad2(md.day);
    assert t == mm + ['-'] + dd;
    TrimAroundSeparator(mm, '-', dd);
    NormalizeTrimmedSplits(t, mm, '-', dd);
    NormalizePiecesOfDigits(mm, dd);
  }

  /** Digits on both sides of a printable separator leave nothing to trim. */
  lemma TrimAroundSeparator(monthText: string, sep: char, dayText: string)
    requires AllDigits(monthText) && AllDigits(dayText) && '!' <= sep <= '~'
    ensures Trim(monthText + [sep] + dayText) == monthText + [sep] + dayText
  {
    var s := monthText + [sep] + dayText;
    forall i | 0 <= i < |s| ensures '!' <= s[i] <= '~' {
      if i < |monthText| {
        assert s[i] == monthText[i];
      } else if i > |monthText| {
        assert s[i] == dayText[i - |monthText| - 1];
      }
    }
    TrimVisibleAscii(s);
  }

  /** Every normalised birthday is accepted by `parseMmdd`, and reads back as the month and day it
      was normalised from. */
  lemma NormalizeMmddParses(input: string)
    requires NormalizeMmdd(input).Some?
    ensures var t := NormalizeMmdd(input).value;
      ParseMmdd(t).Some? && FormatMmdd(ParseMmdd(t).value) == t
  {
    var t := NormalizeMmdd(input).value;
    var md :| ValidMonthDay(md) && t == FormatMmdd(md);
    ParseMmddIsFormat(t, md);
  }

  /** The short form `M/D` or `M-D` of any month and day in range normalises to `MM-DD`. */
  lemma NormalizeMmddShortForm(md: MonthDay, sep: char)
    requires ValidMonthDay(md) && (sep == '-' || sep == '/')
    ensures NormalizeMmdd(NatToString(md.month) + [sep] + NatToString(md.day)) == Some(FormatMmdd(md))
  {
    TrimAroundSeparator(NatToString(md.month), sep, NatToString(md.day));
    NormalizeMmddOfDigits(NatToString(md.month) + [sep] + NatToString(md.day), NatToString(md.month), sep, NatToString(md.day));
  }

  /** Two pieces one of which holds a `/` never read as a month and a day. */
  lemma NormalizePiecesWithSlash(parts: seq<string>, p: string)
    requires p in parts && '/' in p
    ensures NormalizePieces(parts).None?
  {
    if |parts| == 2 {
      VisibleAsciiNotWhitespace('/');
      TrimKeeps(p, JsWhitespace, '/');
      assert !AllDigits(Trim(p));
      assert ParseDecimal(Trim(p)).None?;
      assert p == parts[0] || p == parts[1];
    }
  }

  /** Text holding both separators never normalises: splitting on `-` leaves the `/` inside a piece,
      which is then not a number. */
  lemma NormalizeMmddBothSeparators(input: string)
    requires '-' in Trim(input) && '/' in Trim(input)
    ensures NormalizeMmdd(input).None?
  {
    var raw := Trim(input);
    assert Separator(raw) == Some('-');
    SplitByKeeps(raw, {'-'}, '/');
    var p :| p in SplitBy(raw, {'-'}) && '/' in p;
    NormalizePiecesWithSlash(SplitBy(raw, {'-'}), p);
  }

  const Bom: char := '\U{FEFF}'

  /** `stripBom`: a leading byte-order mark is dropped, and nothing else changes. */
  function StripBom(s: string): (r: string)
    ensures s != [] && s[0] == Bom ==> s == [Bom] + r
    ensures s == [] || s[0] != Bom ==> r == s
  {
    if s != [] && s[0] == Bom then s[1..] else s
  }
}
