/** `parseCsv` (`src/lib/sheets.ts`): a character-level state machine over the text of a published
    spreadsheet, with double-quoted fields, `""` escapes inside quotes, comma-separated fields and
    newline-separated rows. */
module SheetsCsv {
  import opened Sheets
  import opened Seqs
  import opened Strings

  /** What the parser carries from one character to the next: the rows finished so far, the fields
      of the current row, the current field and whether it is inside quotes. */
  datatype CsvState = CsvState(rows: seq<seq<string>>, row: seq<string>, field: string, inQuotes: bool)

  const Start := CsvState([], [], "", false)

  /** `field.replace(/\r$/, "")`: one trailing carriage return is dropped. */
  function StripCr(field: string): (r: string)
    ensures field != [] && field[|field| - 1] == '\r' ==> field == r + ['\r']
    ensures field == [] || field[|field| - 1] != '\r' ==> r == field
  {
    if field != [] && field[|field| - 1] == '\r' then field[..|field| - 1] else field
  }

  /** Ending a row: a row that is a single empty field is not kept. */
  function EndRow(rows: seq<seq<string>>, row: seq<string>): (r: seq<seq<string>>)
    ensures row == [""] ==> r == rows
    ensures row != [""] ==> r == rows + [row]
  {
    if row == [""] then rows else rows + [row]
  }

  /** The rows the parser returns when `t` is the text still to read and `st` its state. */
  function Run(t: string, st: CsvState): seq<seq<string>>
    decreases |t|
  {
    if t == [] then EndRow(st.rows, st.row + [StripCr(st.field)])
    else
      var ch := t[0];
      if st.inQuotes then
        if ch == '"' then
          if |t| > 1 && t[1] == '"' then Run(t[2..], st.(field := st.field + ['"']))
          else Run(t[1..], st.(inQuotes := false))
        else Run(t[1..], st.(field := st.field + [ch]))
      else if ch == '"' then Run(t[1..], st.(inQuotes := true))
      else if ch == ',' then Run(t[1..], st.(row := st.row + [st.field], field := ""))
      else if ch == '\n' then Run(t[1..], CsvState(EndRow(st.rows, st.row + [StripCr(st.field)]), [], "", false))
      else Run(t[1..], st.(field := st.field + [ch]))
  }

  /** The rows of `text`, after a leading byte-order mark is dropped. */
  function ParseCsvSpec(text: string): seq<seq<string>> {
    Run(StripBom(text), Start)
  }

  /** `parseCsv`: one pass over the characters, pushing fields and rows as separators are met; a
      doubled quote inside quotes consumes two characters. */
  method ParseCsv(text: string) returns (rows: seq<seq<string>>)
    ensures rows == ParseCsvSpec(text)
  {
    var s := StripBom(text);
    rows := [];
    var row: seq<string> := [];
    var field: string := "";
    var inQuotes := false;
    var i := 0;
    while i < |s|
      invariant 0 <= i <= |s|
      invariant Run(s[i..], CsvState(rows, row, field, inQuotes)) == Run(s, Start)
      decreases |s| - i
    {
      var ch := s[i];
      if inQuotes {
        if ch == '"' {
          if i + 1 < |s| && s[i + 1] == '"' {
            field := field + ['"'];
            i := i + 1;
          } else {
            inQuotes := false;
          }
        } else {
          field := field + [ch];
        }
      } else if ch == '"' {
        inQuotes := true;
      } else if ch == ',' {
        row := row + [field];
        field := "";
      } else if ch == '\n' {
        row := row + [StripCr(field)];
        field := "";
        rows := EndRow(rows, row);
        row := [];
      } else {
        field := field + [ch];
      }
      i := i + 1;
    }
    row := row + [StripCr(field)];
    rows := EndRow(rows, row);
  }

  /** A row of the result is never the single empty field, and never has no fields. */
  predicate GoodRows(rows: seq<seq<string>>) {
    forall k :: 0 <= k < |rows| ==> rows[k] != [] && rows[k] != [""]
  }

  /** Running the parser from rows that are good ends with good rows. */
  lemma {:induction false} RunKeepsGoodRows(t: string, st: CsvState)
    requires GoodRows(st.rows)
    ensures GoodRows(Run(t, st))
    decreases |t|
  {
    if t != [] {
      var ch := t[0];
      if st.inQuotes {
        if ch == '"' {
          if |t| > 1 && t[1] == '"' {
            RunKeepsGoodRows(t[2..], st.(field := st.field + ['"']));
          } else {
            RunKeepsGoodRows(t[1..], st.(inQuotes := false));
          }
        } else {
          RunKeepsGoodRows(t[1..], st.(field := st.field + [ch]));
        }
      } else if ch == '"' {
        RunKeepsGoodRows(t[1..], st.(inQuotes := true));
      } else if ch == ',' {
        RunKeepsGoodRows(t[1..], st.(row := st.row + [st.field], field := ""));
      } else if ch == '\n' {
        RunKeepsGoodRows(t[1..], CsvState(EndRow(st.rows, st.row + [StripCr(st.field)]), [], "", false));
      } else {
        RunKeepsGoodRows(t[1..], st.(field := st.field + [ch]));
      }
    }
  }

  /** Every parsed row has at least one field and is not a lone empty field. */
  lemma ParseCsvGoodRows(text: string)
    ensures GoodRows(ParseCsvSpec(text))
  {
    RunKeepsGoodRows(StripBom(text), Start);
  }

  /** Empty text has no rows. */
  lemma ParseCsvEmpty()
    ensures ParseCsvSpec("") == []
  {
    assert Run("", Start) == EndRow([], [""]);
  }

  /** A leading byte-order mark is ignored. */
  lemma ParseCsvIgnoresBom(text: string)
    requires text == [] || text[0] != Bom
    ensures ParseCsvSpec([Bom] + text) == ParseCsvSpec(text)
  {
    assert StripBom([Bom] + text) == text;
  }

  // Writing rows as CSV text, to state what the parser reads back.

  /** How rows are written: every field in quotes or every field bare, and `\r\n` or `\n` after each
      row. */
  datatype CsvStyle = CsvStyle(quoted: bool, crlf: bool)

  /** A field's content with each `"` doubled. */
  function Escape(f: string): (e: string)
    ensures |e| >= |f|
  {
    if f == [] then [] else (if f[0] == '"' then ['"', '"'] else [f[0]]) + Escape(f[1..])
  }

  /** A character a bare field may hold: no quote, comma or newline, and no byte-order mark. */
  predicate PlainChar(c: char) {
    c != '"' && c != ',' && c != '\n' && c != Bom
  }

  predicate PlainField(f: string) {
    forall k :: 0 <= k < |f| ==> PlainChar(f[k])
  }

  function EncodeField(f: string, style: CsvStyle): string {
    if style.quoted then ['"'] + Escape(f) + ['"'] else f
  }

  function LineEnd(style: CsvStyle): string {
    if style.crlf then ['\r', '\n'] else ['\n']
  }

  /** The fields of a row separated by commas. */
  function EncodeRow(row: seq<string>, style: CsvStyle): string
    requires row != []
  {
    EncodeField(row[0], style) + if |row| == 1 then [] else [','] + EncodeRow(row[1..], style)
  }

  /** The rows, each followed by a line end. */
  function Encode(rows: seq<seq<string>>, style: CsvStyle): string
    requires forall k :: 0 <= k < |rows| ==> rows[k] != []
  {
    if rows == [] then [] else EncodeRow(rows[0], style) + LineEnd(style) + Encode(rows[1..], style)
  }

  /** Rows the parser can give back exactly: good rows whose last field does not end in a carriage
      return (the parser strips one there), with only plain fields when they are written bare. */
  predicate Encodable(rows: seq<seq<string>>, style: CsvStyle) {
    && GoodRows(rows)
    && (forall k :: 0 <= k < |rows| ==> StripCr(rows[k][|rows[k]| - 1]) == rows[k][|rows[k]| - 1])
    && (!style.quoted ==> forall k, f :: 0 <= k < |rows| && f in rows[k] ==> PlainField(f))
  }

  /** Inside quotes, the closing quote ends the field when no quote follows it. */
  lemma ClosingQuoteRun(rest: string, st: CsvState)
    requires rest == [] || rest[0] != '"'
    requires st.inQuotes
    ensures Run(['"'] + rest, st) == Run(rest, st.(inQuotes := false))
  {
    var t := ['"'] + rest;
    assert t[1..] == rest;
    assert |t| > 1 ==> t[1] == rest[0];
  }

  /** Inside quotes, the first escaped character of a field is read as that character. */
  lemma EscapedCharRun(f: string, u: string, st: CsvState)
    requires f != [] && st.inQuotes
    ensures Run(Escape(f) + u, st) == Run(Escape(f[1..]) + u, st.(field := st.field + [f[0]]))
  {
    var t := Escape(f) + u;
    var v := Escape(f[1..]) + u;
    if f[0] == '"' {
      assert t == ['"', '"'] + v;
      assert t[2..] == v;
    } else {
      assert t == [f[0]] + v;
      assert t[1..] == v;
    }
  }


  /** Inside quotes, an escaped field followed by the closing quote is read as the field itself. */
  lemma {:induction false} QuotedRun(f: string, rest: string, st: CsvState)
    requires rest == [] || rest[0] != '"'
    requires st.inQuotes
    ensures Run(Escape(f) + ['"'] + rest, st) == Run(rest, st.(field := st.field + f, inQuotes := false))
    decreases f
  {
    if f == [] {
      assert Escape(f) == [] && st.field + f == st.field;
      ClosingQuoteRun(rest, st);
    } else {
      AppendAssoc(Escape(f), ['"'], rest);
      EscapedCharRun(f, ['"'] + rest, st);
      AppendAssoc(Escape(f[1..]), ['"'], rest);
      QuotedRun(f[1..], rest, st.(field := st.field + [f[0]]));
      AppendFirst(st.field, f);
    }
  }

  /** A quoted field, starting from an empty unquoted field, is read as the field. */
  lemma QuotedFieldRun(f: string, rest: string, st: CsvState)
    requires rest == [] || rest[0] != '"'
    requires !st.inQuotes && st.field == ""
    ensures Run(['"'] + Escape(f) + ['"'] + rest, st) == Run(rest, st.(field := f))
  {
    var u := Escape(f) + ['"'] + rest;
    assert ['"'] + Escape(f) + ['"'] + rest == ['"'] + u;
    assert (['"'] + u)[1..] == u;
    QuotedRun(f, rest, st.(inQuotes := true));
    assert "" + f == f;
  }

  /** Text with no quote, comma or newline: outside quotes it only adds to the current field. */
  predicate FieldText(f: string) {
    forall k :: 0 <= k < |f| ==> f[k] != '"' && f[k] != ',' && f[k] != '\n'
  }

  /** Outside quotes, characters other than a quote, a comma or a newline are added to the field. */
  lemma {:induction false} PlainRun(f: string, rest: string, st: CsvState)
    requires FieldText(f) && !st.inQuotes
    ensures Run(f + rest, st) == Run(rest, st.(field := st.field + f))
    decreases f
  {
    if f == [] {
      assert f + rest == rest && st.field + f == st.field;
    } else {
      assert f[0] != '"' && f[0] != ',' && f[0] != '\n';
      assert (f + rest)[0] == f[0];
      assert (f + rest)[1..] == f[1..] + rest;
      PlainRun(f[1..], rest, st.(field := st.field + [f[0]]));
      AppendFirst(st.field, f);
    }
  }

  /** A written field, starting from an empty unquoted field, is read as the field. */
  lemma FieldRun(f: string, style: CsvStyle, rest: string, st: CsvState)
    requires style.quoted ==> rest == [] || rest[0] != '"'
    requires !style.quoted ==> PlainField(f)
    requires !st.inQuotes && st.field == ""
    ensures Run(EncodeField(f, style) + rest, st) == Run(rest, st.(field := f))
  {
    if style.quoted {
      QuotedFieldRun(f, rest, st);
    } else {
      assert FieldText(f) by {
        forall k | 0 <= k < |f| ensures f[k] != '"' && f[k] != ',' && f[k] != '\n' {
          assert PlainChar(f[k]);
        }
      }
      PlainRun(f, rest, st);
      assert "" + f == f;
    }
  }

  /** Outside quotes, a comma ends the field. */
  lemma CommaRun(rest: string, st: CsvState)
    requires !st.inQuotes
    ensures Run([','] + rest, st) == Run(rest, st.(row := st.row + [st.field], field := ""))
  {
    assert ([','] + rest)[1..] == rest;
  }

  /** Outside quotes, a newline ends the field and the row. */
  lemma NewlineRun(rest: string, st: CsvState)
    requires !st.inQuotes
    ensures Run(['\n'] + rest, st) == Run(rest, CsvState(EndRow(st.rows, st.row + [StripCr(st.field)]), [], "", false))
  {
    assert (['\n'] + rest)[1..] == rest;
  }

  /** Outside quotes, a line end ends the row with the field as it is; the carriage return of a
      `\r\n` is the one the parser strips. */
  lemma LineEndRun(style: CsvStyle, rest: string, st: CsvState)
    requires !st.inQuotes && StripCr(st.field) == st.field
    ensures Run(LineEnd(style) + rest, st) == Run(rest, CsvState(EndRow(st.rows, st.row + [st.field]), [], "", false))
  {
    if style.crlf {
      var t := ['\r', '\n'] + rest;
      assert t[0] == '\r' && t[1..] == ['\n'] + rest;
      NewlineRun(rest, st.(field := st.field + ['\r']));
      assert StripCr(st.field + ['\r']) == st.field;
    } else {
      NewlineRun(rest, st);
    }
  }

  /** The last field of a row, then the line end. */
  lemma LastFieldRun(row: seq<string>, style: CsvStyle, rest: string, st: CsvState)
    requires |row| == 1 && StripCr(row[0]) == row[0]
    requires !style.quoted ==> PlainField(row[0])
    requires !st.inQuotes && st.field == ""
    ensures Run(EncodeRow(row, style) + LineEnd(style) + rest, st)
      == Run(rest, CsvState(EndRow(st.rows, st.row + row), [], "", false))
  {
    var field := EncodeField(row[0], style);
    assert EncodeRow(row, style) == field;
    AppendAssoc(field, LineEnd(style), rest);
    FieldRun(row[0], style, LineEnd(style) + rest, st);
    LineEndRun(style, rest, st.(field := row[0]));
    assert [row[0]] == row;
  }

  /** A field that is not the last of its row, then the comma. */
  lemma NextFieldRun(row: seq<string>, style: CsvStyle, rest: string, st: CsvState)
    requires |row| > 1
    requires !style.quoted ==> PlainField(row[0])
    requires !st.inQuotes && st.field == ""
    ensures Run(EncodeRow(row, style) + LineEnd(style) + rest, st)
      == Run(EncodeRow(row[1..], style) + LineEnd(style) + rest, st.(row := st.row + [row[0]], field := ""))
  {
    var more := EncodeRow(row[1..], style) + LineEnd(style) + rest;
    EncodeRowCons(row, style, rest);
    FieldRun(row[0], style, [','] + more, st);
    CommaRun(more, st.(field := row[0]));
  }

  /** A row of several fields is written as its first field, a comma and the rest of the row. */
  lemma EncodeRowCons(row: seq<string>, style: CsvStyle, rest: string)
    requires |row| > 1
    ensures EncodeRow(row, style) + LineEnd(style) + rest
      == EncodeField(row[0], style) + ([','] + (EncodeRow(row[1..], style) + LineEnd(style) + rest))
  {
    var field, tail := EncodeField(row[0], style), EncodeRow(row[1..], style);
    assert EncodeRow(row, style) == field + ([','] + tail);
    AppendRegroup(field, [','], tail, LineEnd(style), rest);
  }

  /** A row the writer can emit: non-empty, no carriage return closing its last field, and plain
      fields only when the style does not quote. */
  predicate RowWritable(row: seq<string>, style: CsvStyle) {
    && row != [] && StripCr(row[|row| - 1]) == row[|row| - 1]
    && (!style.quoted ==> forall f :: f in row ==> PlainField(f))
  }

  /** The first field of a writable row is plain when it must be, and the rest is writable. */
  lemma RowWritableTail(row: seq<string>, style: CsvStyle)
    requires RowWritable(row, style) && |row| > 1
    ensures !style.quoted ==> PlainField(row[0])
    ensures RowWritable(row[1..], style)
  {
    assert row[0] in row;
    assert forall f :: f in row[1..] ==> f in row;
  }

  /** A written row followed by its line end is read as that row. */
  lemma {:induction false} RowRun(row: seq<string>, style: CsvStyle, rest: string, st: CsvState)
    requires RowWritable(row, style)
    requires !st.inQuotes && st.field == ""
    ensures Run(EncodeRow(row, style) + LineEnd(style) + rest, st)
      == Run(rest, CsvState(EndRow(st.rows, st.row + row), [], "", false))
    decreases |row|
  {
    if |row| == 1 {
      assert row[0] in row;
      LastFieldRun(row, style, rest, st);
    } else {
      RowWritableTail(row, style);
      NextFieldRun(row, style, rest, st);
      RowRun(row[1..], style, rest, st.(row := st.row + [row[0]], field := ""));
      AppendFirst(st.row, row);
    }
  }

  /** What `Encodable` says about the first row, and that the other rows are encodable too. */
  lemma EncodableSplit(rows: seq<seq<string>>, style: CsvStyle)
    requires rows != [] && Encodable(rows, style)
    ensures var row := rows[0];
      && row != [] && row != [""] && StripCr(row[|row| - 1]) == row[|row| - 1]
      && (!style.quoted ==> forall f :: f in row ==> PlainField(f))
    ensures Encodable(rows[1..], style)
  {
    forall k | 0 <= k < |rows[1..]| ensures rows[1..][k] == rows[k + 1] { }
  }

  /** Written rows are read back, after the rows already read. */
  lemma {:induction false} RowsRun(rows: seq<seq<string>>, style: CsvStyle, done: seq<seq<string>>)
    requires Encodable(rows, style)
    ensures Run(Encode(rows, style), CsvState(done, [], "", false)) == done + rows
    decreases |rows|
  {
    if rows == [] {
      assert done + rows == done;
    } else {
      var row := rows[0];
      EncodableSplit(rows, style);
      RowRun(row, style, Encode(rows[1..], style), CsvState(done, [], "", false));
      assert [] + row == row;
      RowsRun(rows[1..], style, done + [row]);
      AppendFirst(done, rows);
    }
  }

  predicate NoBomStart(t: string) {
    t == [] || t[0] != Bom
  }

  lemma NoBomStartAppend(a: string, b: string)
    requires NoBomStart(a) && NoBomStart(b)
    ensures NoBomStart(a + b)
  {
    if a == [] {
      assert a + b == b;
    } else {
      assert (a + b)[0] == a[0];
    }
  }

  /** A written row never starts with a byte-order mark. */
  lemma {:induction false} EncodeRowNoBom(row: seq<string>, style: CsvStyle)
    requires row != []
    requires !style.quoted ==> forall f :: f in row ==> PlainField(f)
    ensures NoBomStart(EncodeRow(row, style))
    decreases |row|
  {
    var field := EncodeField(row[0], style);
    if !style.quoted && field != [] {
      assert row[0] in row;
      assert PlainChar(row[0][0]);
    }
    if |row| == 1 {
      assert EncodeRow(row, style) == field + [];
      NoBomStartAppend(field, []);
    } else {
      var tail := [','] + EncodeRow(row[1..], style);
      assert tail[0] == ',';
      NoBomStartAppend(field, tail);
    }
  }

  /** Written text never starts with a byte-order mark. */
  lemma EncodeNoBom(rows: seq<seq<string>>, style: CsvStyle)
    requires Encodable(rows, style)
    ensures NoBomStart(Encode(rows, style))
  {
    if rows != [] {
      EncodableSplit(rows, style);
      EncodeRowNoBom(rows[0], style);
      var end := LineEnd(style) + Encode(rows[1..], style);
      assert end[0] == LineEnd(style)[0];
      NoBomStartAppend(EncodeRow(rows[0], style), end);
      AppendAssoc(EncodeRow(rows[0], style), LineEnd(style), Encode(rows[1..], style));
    }
  }

  /** Writing rows and reading them back gives the rows: quotes, commas and newlines inside a quoted
      field survive, a doubled quote reads as one, an unquoted comma or newline separates fields or
      rows, the carriage return of a `\r\n` line end is dropped, and each row gets back exactly its
      fields. */
  lemma ParseCsvRoundTrip(rows: seq<seq<string>>, style: CsvStyle)
    requires Encodable(rows, style)
    ensures ParseCsvSpec(Encode(rows, style)) == rows
  {
    EncodeNoBom(rows, style);
    RowsRun(rows, style, []);
    assert [] + rows == rows;
  }

  /** The separators of the fields of a line. */
  const Commas: set<char> := {','}

  /** The row a line of quote-free text gives: the line without one trailing carriage return,
      split at its commas. */
  function LineRow(line: string): (r: seq<string>)
    ensures |r| >= 1
  {
    SplitBy(StripCr(line), Commas)
  }

  /** The last piece of a line, when not empty, ends where the line ends. */
  lemma LastPieceEndsLine(line: string)
    ensures var pieces := SplitBy(line, Commas); var last := pieces[|pieces| - 1];
      last != [] ==> line != [] && line[|line| - 1] == last[|last| - 1]
  {
    var pieces := SplitBy(line, Commas);
    if pieces[|pieces| - 1] != [] {
      JoinSplitBy(line, ',');
      JoinEndsWithLast(pieces, ',');
    }
  }

  /** A carriage return after a line is added to its last piece. */
  lemma SplitWithCr(l0: string)
    ensures var p0 := SplitBy(l0, Commas);
      SplitBy(l0 + "\r", Commas) == p0[..|p0| - 1] + [p0[|p0| - 1] + "\r"]
  {
    var p0 := SplitBy(l0, Commas);
    var p1 := p0[..|p0| - 1] + [p0[|p0| - 1] + "\r"];
    JoinSplitBy(l0, ',');
    JoinExtendLast(p0, ',', "\r");
    SplitByPiecesPlain(l0, Commas);
    forall k, m | 0 <= k < |p1| && 0 <= m < |p1[k]| ensures p1[k][m] != ',' {
      assert p0[k] in p0;
      if m < |p0[k]| {
        assert p1[k][m] == p0[k][m] && p0[k][m] in p0[k];
      }
    }
    SplitByJoin(p1, ',');
  }

  /** The row of a line ending in a carriage return, built the parser's way. */
  lemma LineRowPiecesCr(line: string)
    requires line != [] && line[|line| - 1] == '\r'
    ensures var pieces := SplitBy(line, Commas);
      LineRow(line) == pieces[..|pieces| - 1] + [StripCr(pieces[|pieces| - 1])]
  {
    var pieces := SplitBy(line, Commas);
    var l0 := StripCr(line);
    var p0 := SplitBy(l0, Commas);
    SplitWithCr(l0);
    assert pieces[..|pieces| - 1] == p0[..|p0| - 1];
    assert p0 == p0[..|p0| - 1] + [p0[|p0| - 1]];
  }

  /** The row of a line not ending in a carriage return, built the parser's way. */
  lemma LineRowPiecesNoCr(line: string)
    requires line == [] || line[|line| - 1] != '\r'
    ensures var pieces := SplitBy(line, Commas);
      LineRow(line) == pieces[..|pieces| - 1] + [StripCr(pieces[|pieces| - 1])]
  {
    var pieces := SplitBy(line, Commas);
    LastPieceEndsLine(line);
    assert pieces == pieces[..|pieces| - 1] + [pieces[|pieces| - 1]];
  }

  /** The parser's way of building the row: the pieces of the line as it is, with one carriage
      return dropped from the last piece, give the same row. */
  lemma LineRowPieces(line: string)
    ensures var pieces := SplitBy(line, Commas);
      LineRow(line) == pieces[..|pieces| - 1] + [StripCr(pieces[|pieces| - 1])]
  {
    if line != [] && line[|line| - 1] == '\r' {
      LineRowPiecesCr(line);
    } else {
      LineRowPiecesNoCr(line);
    }
  }

  /** A row is kept unless it is the single empty field. */
  predicate KeptRow(row: seq<string>) {
    row != [""]
  }

  /** Outside quotes, from an empty field, field text and a comma push the text to the row. */
  lemma PieceThenComma(piece: string, after: string, st: CsvState)
    requires FieldText(piece) && !st.inQuotes && st.field == ""
    ensures Run(piece + ([','] + after), st) == Run(after, st.(row := st.row + [piece], field := ""))
  {
    PlainRun(piece, [','] + after, st);
    assert "" + piece == piece;
    CommaRun(after, st.(field := piece));
  }

  /** The state after the pieces of a line: all but the last pushed to the row, the last one the
      current field. */
  function AfterPieces(st: CsvState, pieces: seq<string>): CsvState
    requires pieces != []
  {
    st.(row := st.row + pieces[..|pieces| - 1], field := pieces[|pieces| - 1])
  }

  /** Reading one more piece in front first pushes it to the row. */
  lemma AfterPiecesCons(st: CsvState, piece: string, more: seq<string>)
    requires more != []
    ensures AfterPieces(st, [piece] + more) == AfterPieces(st.(row := st.row + [piece], field := ""), more)
  {
    var pieces := [piece] + more;
    assert pieces[..|pieces| - 1] == [piece] + more[..|more| - 1];
    assert st.row + [piece] + more[..|more| - 1] == st.row + ([piece] + more[..|more| - 1]);
  }

  /** Comma-free field text joined with commas, read outside quotes from an empty field: all but
      the last piece are pushed to the row, and the last one is the current field. */
  lemma {:induction false} JoinedPiecesRun(pieces: seq<string>, rest: string, st: CsvState)
    requires pieces != [] && forall k :: 0 <= k < |pieces| ==> FieldText(pieces[k])
    requires !st.inQuotes && st.field == ""
    ensures Run(Join(pieces, ',') + rest, st) == Run(rest, AfterPieces(st, pieces))
  {
    var p := pieces[0];
    assert FieldText(p);
    if |pieces| == 1 {
      PlainRun(p, rest, st);
      assert "" + p == p && st.row + pieces[..0] == st.row;
    } else {
      var more := pieces[1..];
      assert pieces == [p] + more;
      var joined := Join(more, ',');
      assert Join(pieces, ',') + rest == p + ([','] + (joined + rest));
      PieceThenComma(p, joined + rest, st);
      JoinedPiecesRun(more, rest, st.(row := st.row + [p], field := ""));
      AfterPiecesCons(st, p, more);
    }
  }

  /** A line with no quote and no newline, read outside quotes from an empty field: the pieces
      between its commas, all but the last pushed to the row, the last one the current field. */
  lemma LineRun(line: string, rest: string, st: CsvState)
    requires '"' !in line && '\n' !in line
    requires !st.inQuotes && st.field == ""
    ensures Run(line + rest, st) == Run(rest, AfterPieces(st, SplitBy(line, Commas)))
  {
    var pieces := SplitBy(line, Commas);
    JoinSplitBy(line, ',');
    SplitByPiecesPlain(line, Commas);
    forall k | 0 <= k < |pieces| ensures FieldText(pieces[k]) {
      forall m | 0 <= m < |pieces[k]| ensures pieces[k][m] != '"' && pieces[k][m] != ',' && pieces[k][m] != '\n' {
        assert pieces[k][m] in pieces[k];
      }
    }
    JoinedPiecesRun(pieces, rest, st);
  }

  /** A quote-free line at the end of the text ends its row: the row is the line's pieces between
      commas, with one carriage return dropped from the last, and it is kept unless it is the
      single empty field. */
  lemma LineEndsText(line: string, rows: seq<seq<string>>)
    requires '"' !in line && '\n' !in line
    ensures Run(line, CsvState(rows, [], "", false)) == EndRow(rows, LineRow(line))
  {
    var st := CsvState(rows, [], "", false);
    var pieces := SplitBy(line, Commas);
    LineRowPieces(line);
    LineRun(line, [], st);
    assert line + [] == line;
    assert [] + pieces[..|pieces| - 1] == pieces[..|pieces| - 1];
  }

  /** A quote-free line followed by a newline ends its row the same way, and reading goes on after
      the newline from an empty row. */
  lemma LineEndsRow(line: string, rest: string, rows: seq<seq<string>>)
    requires '"' !in line && '\n' !in line
    ensures Run(line + ['\n'] + rest, CsvState(rows, [], "", false))
      == Run(rest, CsvState(EndRow(rows, LineRow(line)), [], "", false))
  {
    var st := CsvState(rows, [], "", false);
    var pieces := SplitBy(line, Commas);
    var after := AfterPieces(st, pieces);
    LineRun(line, ['\n'] + rest, st);
    NewlineRun(rest, after);
    AppendAssoc(line, ['\n'], rest);
    LineRowPieces(line);
    assert after.row == pieces[..|pieces| - 1];
  }

  /** One quote-free line is one row: its pieces between commas after one trailing carriage return
      is dropped, or no row at all when that is the single empty field. */
  lemma ParseCsvOneLine(line: string)
    requires '"' !in line && '\n' !in line && (line == [] || line[0] != Bom)
    ensures ParseCsvSpec(line) == if LineRow(line) == [""] then [] else [SplitBy(StripCr(line), Commas)]
  {
    LineEndsText(line, []);
  }

  /** Quote-free lines joined with newlines are read line by line: each line gives its row, and the
      rows that are the single empty field are dropped. */
  lemma {:induction false} LinesRun(lines: seq<string>, rows: seq<seq<string>>)
    requires lines != [] && forall k :: 0 <= k < |lines| ==> '"' !in lines[k] && '\n' !in lines[k]
    ensures Run(Join(lines, '\n'), CsvState(rows, [], "", false))
      == rows + Filter(MapSeq(lines, LineRow), KeptRow)
  {
    var l := lines[0];
    var more := lines[1..];
    FilterMapCons(lines, LineRow, KeptRow);
    var kept := if KeptRow(LineRow(l)) then [LineRow(l)] else [];
    assert EndRow(rows, LineRow(l)) == rows + kept;
    if |lines| == 1 {
      LineEndsText(l, rows);
      assert more == [];
    } else {
      LineEndsRow(l, Join(more, '\n'), rows);
      LinesRun(more, rows + kept);
      assert Join(lines, '\n') == l + ['\n'] + Join(more, '\n');
      AppendAssoc(rows, kept, Filter(MapSeq(more, LineRow), KeptRow));
    }
  }

  /** Text without quotes: each line, between newlines, gives the row of its comma-separated pieces
      (one carriage return dropped from the last), and rows that are the single empty field are
      dropped; a leading byte-order mark is ignored. So every row has one field more than its line has
      commas. */
  lemma ParseCsvQuoteFree(text: string)
    requires '"' !in text
    ensures ParseCsvSpec(text) == Filter(MapSeq(SplitBy(StripBom(text), {'\n'}), LineRow), KeptRow)
  {
    var t := StripBom(text);
    var lines := SplitBy(t, {'\n'});
    JoinSplitBy(t, '\n');
    SplitByPiecesPlain(t, {'\n'});
    assert forall k :: 0 <= k < |lines| ==> lines[k] in lines;
    LinesRun(lines, []);
    assert [] + Filter(MapSeq(lines, LineRow), KeptRow) == Filter(MapSeq(lines, LineRow), KeptRow);
  }
}
