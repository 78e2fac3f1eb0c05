/** `fetchIdols` (`src/lib/sheets.ts`): the published sheet's CSV becomes the list of active idols.
    The environment variable and the HTTP response are parameters; the header row names the columns,
    and each later row gives at most one idol. */
module SheetsRows {
  import opened Common
  import opened Strings
  import opened Birthday
  import opened Sheets
  import opened SheetsCsv
  import opened Seqs

  /** Why `fetchIdols` throws. */
  datatype FetchError =
    | MissingUrl              // SHEET_CSV_URL is unset or empty
    | HttpFailure(code: int)  // the response status is not 2xx
    | HeaderMismatch          // one of id, slug, status, birthday_mmdd has no column

  /** What the fetch of the CSV URL answered: `res.ok`, `res.status` and `res.text()`. */
  datatype HttpResponse = HttpResponse(ok: bool, code: int, body: string)

  /** `header.indexOf(key)`: the first column holding `key`, or -1 when none does. */
  function IndexOf(header: seq<string>, key: string): (r: int)
    ensures -1 <= r < |header|
    ensures r == -1 <==> key !in header
    ensures r >= 0 ==> header[r] == key && key !in header[..r]
  {
    if header == [] then -1
    else if header[0] == key then 0
    else
      var k := IndexOf(header[1..], key);
      if k == -1 then -1
      else
        assert header[..k + 1] == [header[0]] + header[1..][..k];
        k + 1
  }

  /** `row[idx] ?? ""`: a column the row is too short for, or a missing column, reads as "". */
  function Cell(row: seq<string>, idx: int): (r: string)
    ensures 0 <= idx < |row| ==> r == row[idx]
    ensures !(0 <= idx < |row|) ==> r == ""
  {
    if 0 <= idx < |row| then row[idx] else ""
  }

  /** `(idx !== -1 ? row[idx] : "")?.trim() || undefined`: the trimmed cell, or nothing when that is
      empty, the column is missing or the row is too short. */
  function OptionalCell(row: seq<string>, idx: int): (r: Option<string>)
    ensures r.None? <==> Trim(Cell(row, idx)) == ""
    ensures r.Some? ==> r.value == Trim(Cell(row, idx)) && r.value != ""
  {
    var t := Trim(Cell(row, idx));
    if t == "" then None else Some(t)
  }

  /** `lower`: trimmed, then lower-cased. */
  function Lower(s: string): string {
    ToLowerAscii(Trim(s))
  }

  /** The positions of the columns the mapping reads, each -1 when the header lacks it. */
  datatype Columns = Columns(
    id: int, slug: int, status: int, birthday: int,
    nameJa: int, nameKo: int, legacyName: int,
    groupName: int, groupSlug: int, xUrl: int, sourceUrl: int)

  function ColumnsOf(header: seq<string>): Columns {
    Columns(
      IndexOf(header, "id"), IndexOf(header, "slug"), IndexOf(header, "status"),
      IndexOf(header, "birthday_mmdd"),
      IndexOf(header, "name_ja"), IndexOf(header, "name_ko"), IndexOf(header, "name"),
      IndexOf(header, "group_name"), IndexOf(header, "group_slug"), IndexOf(header, "x_url"),
      IndexOf(header, "source_url"))
  }

  /** All four required columns were found. */
  predicate HasRequired(c: Columns) {
    c.id != -1 && c.slug != -1 && c.status != -1 && c.birthday != -1
  }

  /** The mapping goes ahead exactly when the header names id, slug, status and birthday_mmdd. */
  lemma HasRequiredIff(header: seq<string>)
    ensures HasRequired(ColumnsOf(header)) <==>
      ("id" in header && "slug" in header && "status" in header && "birthday_mmdd" in header)
  {
  }

  /** The legacy `name` column fills in the Japanese name only when neither language has one. */
  function NameJa(c: Columns, row: seq<string>): Option<string> {
    var nameJa := OptionalCell(row, c.nameJa);
    var legacy := Trim(Cell(row, c.legacyName));
    if nameJa.None? && OptionalCell(row, c.nameKo).None? && c.legacyName != -1 && legacy != ""
    then Some(legacy)
    else nameJa
  }

  /** The idol one data row describes, or nothing when the row is skipped: the status is not
      "active", the birthday does not normalise, or the id or the slug is blank. */
  function RowToIdol(c: Columns, row: seq<string>): (r: Option<Idol>)
    ensures r.Some? <==>
      Lower(Cell(row, c.status)) == "active" && NormalizeMmdd(Cell(row, c.birthday)).Some? &&
      Trim(Cell(row, c.id)) != "" && Trim(Cell(row, c.slug)) != ""
  {
    var status := Cell(row, c.status);
    var birthday := NormalizeMmdd(Cell(row, c.birthday));
    var id := Trim(Cell(row, c.id));
    var slug := Trim(Cell(row, c.slug));
    if Lower(status) != "active" || birthday.None? || id == "" || slug == "" then None
    else
      Some(Idol(
        id, NameJa(c, row), OptionalCell(row, c.nameKo), slug,
        OptionalCell(row, c.groupName), OptionalCell(row, c.groupSlug),
        birthday.value,
        OptionalCell(row, c.xUrl), OptionalCell(row, c.sourceUrl),
        Trim(status)))
  }

  /** The mapping of one data row, as a function value. */
  function RowMapper(c: Columns): seq<string> -> Option<Idol> {
    (row: seq<string>) => RowToIdol(c, row)
  }

  /** What each data row gives, row by row. */
  function RowResults(c: Columns, rows: seq<seq<string>>): (r: seq<Option<Idol>>)
    ensures |r| == |rows|
    ensures forall k :: 0 <= k < |rows| ==> r[k] == RowToIdol(c, rows[k])
  {
    MapSeq(rows, RowMapper(c))
  }

  lemma RowResultsSnoc(c: Columns, rows: seq<seq<string>>, i: nat)
    requires i < |rows|
    ensures RowResults(c, rows[..i + 1]) == RowResults(c, rows[..i]) + [RowToIdol(c, rows[i])]
  {
    MapSeqSnoc(rows, RowMapper(c), i);
  }

  /** The idols of the data rows, in row order. */
  function IdolsFrom(c: Columns, rows: seq<seq<string>>): (r: seq<Idol>)
    ensures |r| <= |rows|
  {
    Values(RowResults(c, rows))
  }

  /** What the mapping makes of parsed rows: nothing from nothing, an error for a header without
      the required columns, else the idols of the rows after the header. */
  function RowsToIdols(rows: seq<seq<string>>): Result<seq<Idol>, FetchError> {
    if rows == [] then Ok([])
    else
      var c := ColumnsOf(TrimEach(rows[0]));
      if !HasRequired(c) then Err(HeaderMismatch) else Ok(IdolsFrom(c, rows[1..]))
  }

  /** What `fetchIdols` gives back for an environment value and the answer to its request. */
  function FetchIdolsSpec(url: Option<string>, response: HttpResponse): Result<seq<Idol>, FetchError> {
    if url.None? || url.value == "" then Err(MissingUrl)
    else if !response.ok then Err(HttpFailure(response.code))
    else RowsToIdols(ParseCsvSpec(response.body))
  }

  /** One turn of the row loop of `fetchIdols`: the checks that skip the row, then the record, into
      which the legacy name is patched as the source does. */
  method MapRow(c: Columns, row: seq<string>) returns (r: Option<Idol>)
    ensures r == RowToIdol(c, row)
  {
    var status := Cell(row, c.status);
    if Lower(status) != "active" {
      return None;
    }
    var birthday := NormalizeMmdd(Cell(row, c.birthday));
    if birthday.None? {
      return None;
    }
    var id := Trim(Cell(row, c.id));
    var slug := Trim(Cell(row, c.slug));
    if id == "" || slug == "" {
      return None;
    }
    var idol := Idol(
      id, OptionalCell(row, c.nameJa), OptionalCell(row, c.nameKo), slug,
      OptionalCell(row, c.groupName), OptionalCell(row, c.groupSlug),
      birthday.value,
      OptionalCell(row, c.xUrl), OptionalCell(row, c.sourceUrl),
      Trim(status));
    if idol.nameJa.None? && idol.nameKo.None? && c.legacyName != -1 {
      var legacy := Trim(Cell(row, c.legacyName));
      if legacy != "" {
        idol := idol.(nameJa := Some(legacy));
      }
    }
    return Some(idol);
  }

  /** The row loop of `fetchIdols`: the idols of the rows after the header, pushed in row order. */
  method MapRows(c: Columns, body: seq<seq<string>>) returns (out: seq<Idol>)
    ensures out == IdolsFrom(c, body)
  {
    out := [];
    for i := 0 to |body|
      invariant out == IdolsFrom(c, body[..i])
    {
      var r := MapRow(c, body[i]);
      RowResultsSnoc(c, body, i);
      ValuesAppend(RowResults(c, body[..i]), [r]);
      if r.Some? {
        out := out + [r.value];
      }
    }
    assert body[..|body|] == body;
  }

  /** `fetchIdols` with its environment and network reads turned into parameters. */
  method FetchIdols(url: Option<string>, response: HttpResponse) returns (r: Result<seq<Idol>, FetchError>)
    ensures r == FetchIdolsSpec(url, response)
  {
    if url.None? || url.value == "" {
      return Err(MissingUrl);
    }
    if !response.ok {
      return Err(HttpFailure(response.code));
    }
    var rows := ParseCsv(response.body);
    if |rows| == 0 {
      return Ok([]);
    }
    var header := TrimEach(rows[0]);
    var c := ColumnsOf(header);
    if c.id == -1 || c.slug == -1 || c.status == -1 || c.birthday == -1 {
      return Err(HeaderMismatch);
    }
    var out := MapRows(c, rows[1..]);
    return Ok(out);
  }

  /** What every idol coming out of the mapping satisfies. */
  predicate WellFormedIdol(idol: Idol) {
    && idol.id != "" && idol.slug != ""
    && Trim(idol.id) == idol.id && Trim(idol.slug) == idol.slug
    && ToLowerAscii(idol.status) == "active"
    && ParseMmdd(idol.birthdayMmdd).Some?
    && NormalizeMmdd(idol.birthdayMmdd) == Some(idol.birthdayMmdd)
  }

  /** An emitted idol has a trimmed non-blank id and slug, an active status and a birthday already in
      normal `MM-DD` form that `parseMmdd` accepts. */
  lemma RowToIdolWellFormed(c: Columns, row: seq<string>)
    requires RowToIdol(c, row).Some?
    ensures WellFormedIdol(RowToIdol(c, row).value)
  {
    var raw := Cell(row, c.birthday);
    NormalizeMmddIdempotent(raw);
    NormalizeMmddParses(raw);
    TrimIdempotent(Cell(row, c.id));
    TrimIdempotent(Cell(row, c.slug));
  }

  /** The names: Korean straight from its column; Japanese from its column, or from the legacy
      `name` column when neither language column has a name. */
  lemma RowToIdolNames(c: Columns, row: seq<string>)
    requires RowToIdol(c, row).Some?
    ensures var idol := RowToIdol(c, row).value;
      && idol.nameKo == OptionalCell(row, c.nameKo)
      && (OptionalCell(row, c.nameJa).Some? || OptionalCell(row, c.nameKo).Some? ==>
            idol.nameJa == OptionalCell(row, c.nameJa))
      && (OptionalCell(row, c.nameJa).None? && OptionalCell(row, c.nameKo).None? && c.legacyName != -1 ==>
            idol.nameJa == OptionalCell(row, c.legacyName))
  {
  }

  /** An optional property that is present is non-empty and has no outer white space. */
  predicate TrimmedOrAbsent(o: Option<string>) {
    o.Some? ==> o.value != "" && Trim(o.value) == o.value
  }

  lemma OptionalCellTrimmed(row: seq<string>, idx: int)
    ensures TrimmedOrAbsent(OptionalCell(row, idx))
  {
    TrimIdempotent(Cell(row, idx));
  }

  /** Optional properties are never the empty string and never carry outer white space. */
  lemma RowToIdolOptionalTrimmed(c: Columns, row: seq<string>)
    requires RowToIdol(c, row).Some?
    ensures var idol := RowToIdol(c, row).value;
      && TrimmedOrAbsent(idol.nameJa) && TrimmedOrAbsent(idol.nameKo)
      && TrimmedOrAbsent(idol.groupName) && TrimmedOrAbsent(idol.groupSlug)
      && TrimmedOrAbsent(idol.xUrl) && TrimmedOrAbsent(idol.sourceUrl)
  {
    OptionalCellTrimmed(row, c.nameJa);
    OptionalCellTrimmed(row, c.nameKo);
    OptionalCellTrimmed(row, c.legacyName);
    OptionalCellTrimmed(row, c.groupName);
    OptionalCellTrimmed(row, c.groupSlug);
    OptionalCellTrimmed(row, c.xUrl);
    OptionalCellTrimmed(row, c.sourceUrl);
  }

  /** The mapping distributes over consecutive runs of rows: rows are handled one at a time and the
      output keeps their order. */
  lemma IdolsFromAppend(c: Columns, a: seq<seq<string>>, b: seq<seq<string>>)
    ensures IdolsFrom(c, a + b) == IdolsFrom(c, a) + IdolsFrom(c, b)
  {
    MapSeqAppend(a, b, RowMapper(c));
    ValuesAppend(RowResults(c, a), RowResults(c, b));
  }

  /** Every idol in the output comes from some data row, and every row that gives an idol has it
      in the output. */
  lemma IdolsFromMembers(c: Columns, rows: seq<seq<string>>, idol: Idol)
    ensures idol in IdolsFrom(c, rows) <==> exists k :: 0 <= k < |rows| && RowToIdol(c, rows[k]) == Some(idol)
  {
    ValuesMembers(RowResults(c, rows), idol);
  }

  /** Every idol the mapping emits is well formed. */
  lemma {:induction false} IdolsFromWellFormed(c: Columns, rows: seq<seq<string>>)
    ensures forall idol :: idol in IdolsFrom(c, rows) ==> WellFormedIdol(idol)
  {
    forall idol | idol in IdolsFrom(c, rows) ensures WellFormedIdol(idol) {
      IdolsFromMembers(c, rows, idol);
      var k :| 0 <= k < |rows| && RowToIdol(c, rows[k]) == Some(idol);
      RowToIdolWellFormed(c, rows[k]);
    }
  }

  /** The only errors are the missing URL, a failed response and a header lacking a required column;
      whatever `fetchIdols` returns is well formed and so has a non-empty display name in both
      languages. */
  lemma FetchIdolsOutcome(url: Option<string>, response: HttpResponse)
    ensures var r := FetchIdolsSpec(url, response);
      && (r == Err(MissingUrl) <==> url.None? || url.value == "")
      && (r.Err? && r.error.HttpFailure? ==> !response.ok && r.error.code == response.code)
      && (r.Ok? ==> forall idol :: idol in r.value ==>
            WellFormedIdol(idol) && GetIdolDisplayName(idol, Ja) != "" && GetIdolDisplayName(idol, Ko) != "")
  {
    var r := FetchIdolsSpec(url, response);
    if r.Ok? {
      var rows := ParseCsvSpec(response.body);
      if rows != [] {
        var c := ColumnsOf(TrimEach(rows[0]));
        IdolsFromWellFormed(c, rows[1..]);
        forall idol | idol in r.value
          ensures GetIdolDisplayName(idol, Ja) != "" && GetIdolDisplayName(idol, Ko) != ""
        {
          DisplayNameNonEmpty(idol, Ja);
          DisplayNameNonEmpty(idol, Ko);
        }
      }
    }
  }

  /** A header whose cells name the required columns, padded with white space or not, lets the
      mapping go ahead. */
  lemma RowsToIdolsHeader(rows: seq<seq<string>>)
    requires rows != []
    ensures RowsToIdols(rows).Err? <==>
      var h := TrimEach(rows[0]);
      !("id" in h && "slug" in h && "status" in h && "birthday_mmdd" in h)
  {
    HasRequiredIff(TrimEach(rows[0]));
  }

  /** A successful response with no text at all gives no idols rather than a header error. */
  lemma FetchIdolsEmptyBody(url: string, code: int)
    requires url != ""
    ensures FetchIdolsSpec(Some(url), HttpResponse(true, code, "")) == Ok([])
  {
    ParseCsvEmpty();
  }
}
