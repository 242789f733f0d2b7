/** The inventory feed's CSV tokenizer (parseCsv in js/app.js).

    A single pass over the text with four pieces of state: the finished rows,
    the row being built, the cell being built and whether a double quote is
    open. Quoting follows rules 5 to 7 of section 2 of RFC 4180 (a quoted
    field may hold commas and line breaks; `""` inside quotes is one quote),
    with three departures: a bare CR also ends a row, a quote anywhere toggles
    quote mode (not only at the start of a field), and rows whose cells are
    all blank after trimming are dropped. Ending inside an open quote is a
    format error. */
module Csv {
  import opened Strings
  import opened Seqs

  type Row = seq<string>

  /** The structural errors of the feed: the tokenizer's unmatched quote and
      the header and column-count errors of the row conversion. */
  datatype FormatError =
    | UnmatchedQuote
    | EmptyFile
    | BadHeader
    | BadColumnCount(rowNumber: nat, columns: nat)

  datatype Result<T> = Ok(value: T) | Err(error: FormatError)

  /** The tokenizer's variables: rows, row, cell and inQuotes. */
  datatype Scanner = Scanner(rows: seq<Row>, row: Row, cell: string, inQuotes: bool)

  const Start := Scanner([], [], "", false)

  /** Some cell is not blank after trimming (`row.some((v) => v.trim() !== '')`). */
  predicate HasContent(row: Row) {
    exists k :: 0 <= k < |row| && Trim(row[k]) != ""
  }

  function AppendIfContent(rows: seq<Row>, row: Row): seq<Row> {
    if HasContent(row) then rows + [row] else rows
  }

  /** An unquoted line break: the cell ends the row, which is kept unless blank. */
  function EndRow(s: Scanner): Scanner {
    Scanner(AppendIfContent(s.rows, s.row + [s.cell]), [], "", s.inQuotes)
  }

  /** The state after scanning text from state s, one loop iteration per step.
      A step looks one character ahead for `""` inside quotes and for CR LF. */
  function Run(text: string, s: Scanner): Scanner
    decreases |text|
  {
    if text == [] then s
    else
      var ch := text[0];
      if ch == '"' then
        if s.inQuotes && |text| > 1 && text[1] == '"' then Run(text[2..], s.(cell := s.cell + ['"']))
        else Run(text[1..], s.(inQuotes := !s.inQuotes))
      else if ch == ',' && !s.inQuotes then
        Run(text[1..], s.(row := s.row + [s.cell], cell := ""))
      else if (ch == '\n' || ch == '\r') && !s.inQuotes then
        Run(if ch == '\r' && |text| > 1 && text[1] == '\n' then text[2..] else text[1..], EndRow(s))
      else
        Run(text[1..], s.(cell := s.cell + [ch]))
  }

  /** After the last character: a pending cell or row becomes a last row. */
  function Flush(s: Scanner): seq<Row> {
    if |s.cell| > 0 || |s.row| > 0 then AppendIfContent(s.rows, s.row + [s.cell]) else s.rows
  }

  /** What parseCsv returns or throws for a text. */
  function Parse(text: string): Result<seq<Row>> {
    var s := Run(text, Start);
    if s.inQuotes then Err(UnmatchedQuote) else Ok(Flush(s))
  }

  /** The tokenizer loop itself: it computes exactly Parse. */
  method ParseCsv(text: string) returns (result: Result<seq<Row>>)
    ensures result == Parse(text)
  {
    var rows: seq<Row> := [];
    var row: Row := [];
    var cell := "";
    var inQuotes := false;
    var i := 0;
    while i < |text|
      invariant 0 <= i <= |text|
      invariant Run(text[i..], Scanner(rows, row, cell, inQuotes)) == Run(text, Start)
      decreases |text| - i
    {
      ghost var s := Scanner(rows, row, cell, inQuotes);
      ghost var rest := text[i..];
      assert rest[0] == text[i] && rest[1..] == text[i + 1..];
      assert |rest| > 1 ==> rest[1] == text[i + 1] && rest[2..] == text[i + 2..];
      var ch := text[i];
      if ch == '"' {
        if inQuotes && i + 1 < |text| && text[i + 1] == '"' {
          cell := cell + ['"'];
          i := i + 1;
        } else {
          inQuotes := !inQuotes;
        }
      } else if ch == ',' && !inQuotes {
        row := row + [cell];
        cell := "";
      } else if (ch == '\n' || ch == '\r') && !inQuotes {
        if ch == '\r' && i + 1 < |text| && text[i + 1] == '\n' {
          i := i + 1;
        }
        row := row + [cell];
        cell := "";
        if HasContent(row) {
          rows := rows + [row];
        }
        row := [];
      } else {
        cell := cell + [ch];
      }
      i := i + 1;
    }
    if |cell| > 0 || |row| > 0 {
      row := row + [cell];
      if HasContent(row) {
        rows := rows + [row];
      }
    }
    if inQuotes {
      return Err(UnmatchedQuote);
    }
    return Ok(rows);
  }

  // ---------------------------------------------------------------------
  // One iteration of the loop at a time, case by case.

  lemma StepToggle(text: string, s: Scanner)
    requires text != [] && text[0] == '"'
    requires !(s.inQuotes && |text| > 1 && text[1] == '"')
    ensures Run(text, s) == Run(text[1..], s.(inQuotes := !s.inQuotes))
  {
  }

  lemma StepEscapedQuote(text: string, s: Scanner)
    requires |text| > 1 && text[0] == '"' && text[1] == '"' && s.inQuotes
    ensures Run(text, s) == Run(text[2..], s.(cell := s.cell + ['"']))
  {
  }

  lemma StepComma(text: string, s: Scanner)
    requires text != [] && text[0] == ',' && !s.inQuotes
    ensures Run(text, s) == Run(text[1..], s.(row := s.row + [s.cell], cell := ""))
  {
  }

  lemma StepLineBreak(text: string, s: Scanner)
    requires text != [] && (text[0] == '\n' || text[0] == '\r') && !s.inQuotes
    ensures Run(text, s) ==
      Run(if text[0] == '\r' && |text| > 1 && text[1] == '\n' then text[2..] else text[1..], EndRow(s))
  {
  }

  lemma StepChar(text: string, s: Scanner)
    requires text != [] && text[0] != '"'
    requires s.inQuotes || (text[0] != ',' && text[0] != '\n' && text[0] != '\r')
    ensures Run(text, s) == Run(text[1..], s.(cell := s.cell + [text[0]]))
  {
  }

  /** Text without quotes, and without separators unless quote mode is open,
      is appended to the cell as it is. */
  lemma {:induction false} RunPlain(t: string, rest: string, s: Scanner)
    requires '"' !in t
    requires !s.inQuotes ==> ',' !in t && '\n' !in t && '\r' !in t
    ensures Run(t + rest, s) == Run(rest, s.(cell := s.cell + t))
    decreases |t|
  {
    if t == [] {
      assert t + rest == rest;
      assert s.cell + t == s.cell;
    } else {
      var text := t + rest;
      assert text[0] == t[0] && text[1..] == t[1..] + rest;
      StepChar(text, s);
      RunPlain(t[1..], rest, s.(cell := s.cell + [t[0]]));
      assert s.cell + [t[0]] + t[1..] == s.cell + t;
    }
  }

  /** A quoted stretch: the quotes toggle quote mode on and off, and what lies
      between them joins the cell. */
  lemma RunQuotedStretch(b: string, c: string, s: Scanner, text: string)
    requires !s.inQuotes && '"' !in b && (c == [] || c[0] != '"')
    requires text == "\"" + (b + ("\"" + c))
    ensures Run(text, s) == Run(c, s.(cell := s.cell + b))
  {
    StepToggle(text, s);
    var s2 := s.(inQuotes := true);
    RunPlain(b, "\"" + c, s2);
    var t3 := "\"" + c;
    var s3 := s2.(cell := s.cell + b);
    assert t3[1..] == c;
    StepToggle(t3, s3);
    assert s3.(inQuotes := false) == s.(cell := s.cell + b);
  }

  lemma RunMidField(a: string, b: string, c: string, text: string)
    requires '"' !in a && ',' !in a && '\n' !in a && '\r' !in a
    requires '"' !in b
    requires '"' !in c && ',' !in c && '\n' !in c && '\r' !in c
    requires text == a + "\"" + b + "\"" + c
    ensures Run(text, Start) == Scanner([], [], a + b + c, false)
  {
    var t1 := "\"" + (b + ("\"" + c));
    assert text == a + t1;
    RunPlain(a, t1, Start);
    var s1 := Scanner([], [], a, false);
    assert Start.(cell := Start.cell + a) == s1;
    assert c != [] ==> c[0] != '"';
    RunQuotedStretch(b, c, s1, t1);
    var s4 := Scanner([], [], a + b, false);
    assert s1.(cell := s1.cell + b) == s4;
    assert c + "" == c;
    RunPlain(c, "", s4);
  }

  /** A quote may open and close anywhere in a field: the quotes vanish, and
      between them commas and line breaks stay in the cell. */
  lemma ParseQuotedMidField(a: string, b: string, c: string)
    requires '"' !in a && ',' !in a && '\n' !in a && '\r' !in a
    requires '"' !in b
    requires '"' !in c && ',' !in c && '\n' !in c && '\r' !in c
    requires Trim(a + b + c) != ""
    ensures Parse(a + "\"" + b + "\"" + c) == Ok([[a + b + c]])
  {
    var text := a + "\"" + b + "\"" + c;
    RunMidField(a, b, c, text);
    var cell := a + b + c;
    var s := Scanner([], [], cell, false);
    assert cell != "" by { assert Trim("") == ""; }
    var row: Row := s.row + [s.cell];
    assert row == [cell];
    assert Trim(row[0]) != "";
    assert HasContent(row);
    assert Flush(s) == [row];
    assert Parse(text) == Ok(Flush(s));
  }

  // ---------------------------------------------------------------------
  // An inverse: writing rows as CSV that quotes every field.

  /** Doubles every quote of a cell. */
  function EscapeQuotes(c: string): string {
    if c == [] then ""
    else (if c[0] == '"' then "\"\"" else [c[0]]) + EscapeQuotes(c[1..])
  }

  function QuoteField(c: string): string {
    "\"" + EscapeQuotes(c) + "\""
  }

  /** A row's quoted fields, separated by commas. */
  function EncodeFields(r: Row): string
    requires |r| >= 1
  {
    if |r| == 1 then QuoteField(r[0]) else QuoteField(r[0]) + "," + EncodeFields(r[1..])
  }

  predicate IsLineBreak(eol: string) {
    eol == "\n" || eol == "\r\n" || eol == "\r"
  }

  predicate AllNonEmpty(rows: seq<Row>) {
    forall k :: 0 <= k < |rows| ==> |rows[k]| >= 1
  }

  /** Every row written out and terminated by eol. */
  function Encode(rows: seq<Row>, eol: string): string
    requires AllNonEmpty(rows)
  {
    if rows == [] then "" else EncodeFields(rows[0]) + eol + Encode(rows[1..], eol)
  }

  lemma {:induction false} RunEscaped(c: string, rest: string, s: Scanner)
    requires s.inQuotes
    requires rest == [] || rest[0] != '"'
    ensures Run(EscapeQuotes(c) + "\"" + rest, s) == Run(rest, s.(cell := s.cell + c, inQuotes := false))
    decreases |c|
  {
    var text := EscapeQuotes(c) + "\"" + rest;
    if c == [] {
      assert text == "\"" + rest;
      assert text[1..] == rest;
      StepToggle(text, s);
      assert s.cell + c == s.cell;
    } else if c[0] == '"' {
      var tail := EscapeQuotes(c[1..]) + "\"" + rest;
      assert text == "\"\"" + tail;
      assert text[2..] == tail;
      StepEscapedQuote(text, s);
      RunEscaped(c[1..], rest, s.(cell := s.cell + ['"']));
      assert s.cell + ['"'] + c[1..] == s.cell + c;
    } else {
      var tail := EscapeQuotes(c[1..]) + "\"" + rest;
      assert text == [c[0]] + tail;
      assert text[1..] == tail;
      StepChar(text, s);
      RunEscaped(c[1..], rest, s.(cell := s.cell + [c[0]]));
      assert s.cell + [c[0]] + c[1..] == s.cell + c;
    }
  }

  /** A quoted field adds its content, unescaped, to the current cell. */
  lemma RunQuoted(c: string, rest: string, s: Scanner)
    requires !s.inQuotes
    requires rest == [] || rest[0] != '"'
    ensures Run(QuoteField(c) + rest, s) == Run(rest, s.(cell := s.cell + c))
  {
    var text := QuoteField(c) + rest;
    var tail := EscapeQuotes(c) + "\"" + rest;
    assert text == "\"" + tail;
    assert text[1..] == tail;
    StepToggle(text, s);
    RunEscaped(c, rest, s.(inQuotes := true));
  }

  lemma {:induction false} RunFields(r: Row, rest: string, s: Scanner)
    requires |r| >= 1 && !s.inQuotes && s.cell == ""
    requires rest == [] || rest[0] != '"'
    ensures Run(EncodeFields(r) + rest, s) == Run(rest, s.(row := s.row + r[..|r| - 1], cell := r[|r| - 1]))
    decreases |r|
  {
    if |r| == 1 {
      assert EncodeFields(r) == QuoteField(r[0]);
      RunQuoted(r[0], rest, s);
      assert s.row + r[..0] == s.row;
      assert s.cell + r[0] == r[0];
    } else {
      var tail := "," + EncodeFields(r[1..]) + rest;
      var s2 := s.(row := s.row + [r[0]], cell := "");
      RunFirstField(r, rest, s, tail);
      RunFields(r[1..], rest, s2);
      assert s.row + [r[0]] + r[1..][..|r| - 2] == s.row + r[..|r| - 1];
    }
  }

  /** The first quoted field of a row of several and the comma after it. */
  lemma RunFirstField(r: Row, rest: string, s: Scanner, tail: string)
    requires |r| >= 2 && !s.inQuotes && s.cell == ""
    requires tail == "," + EncodeFields(r[1..]) + rest
    ensures Run(EncodeFields(r) + rest, s) == Run(EncodeFields(r[1..]) + rest, s.(row := s.row + [r[0]], cell := ""))
  {
    assert EncodeFields(r) + rest == QuoteField(r[0]) + tail;
    RunQuoted(r[0], tail, s);
    var s1 := s.(cell := r[0]);
    assert s.cell + r[0] == r[0];
    assert tail[0] == ',' && tail[1..] == EncodeFields(r[1..]) + rest;
    StepComma(tail, s1);
  }

  lemma EndOfLine(eol: string, rest: string, s: Scanner)
    requires IsLineBreak(eol) && !s.inQuotes
    requires rest == [] || rest[0] == '"'
    ensures Run(eol + rest, s) == Run(rest, EndRow(s))
  {
    var text := eol + rest;
    if eol == "\r\n" {
      assert text[0] == '\r' && text[1] == '\n' && text[2..] == rest;
    } else {
      assert text[0] == eol[0] && text[1..] == rest;
    }
    StepLineBreak(text, s);
  }

  /** One written row and its line break: the row is finished and kept
      exactly when it has content, whichever of LF, CR LF or CR ends it. */
  lemma RunRow(r: Row, eol: string, rest: string, s: Scanner, text: string)
    requires |r| >= 1 && IsLineBreak(eol)
    requires s.row == [] && s.cell == "" && !s.inQuotes
    requires rest == [] || rest[0] == '"'
    requires text == EncodeFields(r) + (eol + rest)
    ensures Run(text, s) == Run(rest, Scanner(AppendIfContent(s.rows, r), [], "", false))
  {
    var s1 := Scanner(s.rows, r[..|r| - 1], r[|r| - 1], false);
    EndOfLine(eol, rest, s1);
    assert (eol + rest)[0] != '"';
    RunFields(r, eol + rest, s);
    assert s.row + r[..|r| - 1] == r[..|r| - 1];
    assert s.(row := s.row + r[..|r| - 1], cell := r[|r| - 1]) == s1;
    assert r[..|r| - 1] + [r[|r| - 1]] == r;
    assert EndRow(s1) == Scanner(AppendIfContent(s.rows, r), [], "", false);
  }

  lemma {:induction false} RunRows(rows: seq<Row>, eol: string, rest: string, s: Scanner, text: string)
    requires AllNonEmpty(rows) && IsLineBreak(eol)
    requires s.row == [] && s.cell == "" && !s.inQuotes
    requires rest == [] || rest[0] == '"'
    requires text == Encode(rows, eol) + rest
    ensures Run(text, s) == Run(rest, Scanner(s.rows + Filter(rows, HasContent), [], "", false))
    decreases |rows|
  {
    if rows == [] {
      assert text == rest;
      assert s.rows + Filter(rows, HasContent) == s.rows;
      assert s == Scanner(s.rows, [], "", false);
    } else {
      var tail := Encode(rows[1..], eol) + rest;
      EncodeFront(rows, eol, rest);
      RunRow(rows[0], eol, tail, s, text);
      var s1 := Scanner(AppendIfContent(s.rows, rows[0]), [], "", false);
      RunRows(rows[1..], eol, rest, s1, tail);
      KeepFirst(s.rows, rows);
    }
  }

  /** The text of the first row, its line break and the text after them. */
  lemma EncodeFront(rows: seq<Row>, eol: string, rest: string)
    requires AllNonEmpty(rows) && rows != []
    requires rest == [] || rest[0] == '"'
    ensures Encode(rows, eol) + rest == EncodeFields(rows[0]) + (eol + (Encode(rows[1..], eol) + rest))
    ensures var tail := Encode(rows[1..], eol) + rest; tail == [] || tail[0] == '"'
  {
    var tail := Encode(rows[1..], eol) + rest;
    if rows[1..] != [] {
      assert tail[0] == EncodeFields(rows[1..][0])[0];
    } else {
      assert tail == rest;
    }
  }

  /** Keeping or dropping the first row, then filtering the others. */
  lemma KeepFirst(done: seq<Row>, rows: seq<Row>)
    requires rows != []
    ensures AppendIfContent(done, rows[0]) + Filter(rows[1..], HasContent) == done + Filter(rows, HasContent)
  {
    FilterAppend([rows[0]], rows[1..], HasContent);
    assert [rows[0]] + rows[1..] == rows;
    assert Filter([rows[0]], HasContent) == (if HasContent(rows[0]) then [rows[0]] else []) by {
      assert [rows[0]][..0] == [];
    }
  }

  /** Writing rows with any of the three line breaks and parsing the text gives
      back exactly the rows that have content, in order: commas, quotes, CR
      and LF inside a field survive, and blank rows are dropped. */
  lemma ParseEncoded(rows: seq<Row>, eol: string)
    requires AllNonEmpty(rows) && IsLineBreak(eol)
    ensures Parse(Encode(rows, eol)) == Ok(Filter(rows, HasContent))
  {
    assert Encode(rows, eol) + "" == Encode(rows, eol);
    RunRows(rows, eol, "", Start, Encode(rows, eol));
    assert [] + Filter(rows, HasContent) == Filter(rows, HasContent);
  }

  /** A last line with no line break after it is still emitted. */
  lemma ParseEncodedUnterminated(rows: seq<Row>, last: Row, eol: string)
    requires AllNonEmpty(rows) && IsLineBreak(eol) && |last| >= 1
    ensures Parse(Encode(rows, eol) + EncodeFields(last)) == Ok(Filter(rows + [last], HasContent))
  {
    var text := Encode(rows, eol) + EncodeFields(last);
    var s1 := Scanner(Filter(rows, HasContent), [], "", false);
    var s2 := Scanner(Filter(rows, HasContent), last[..|last| - 1], last[|last| - 1], false);
    assert EncodeFields(last)[0] == '"';
    assert Start.rows + Filter(rows, HasContent) == Filter(rows, HasContent);
    RunRows(rows, eol, EncodeFields(last), Start, text);
    assert EncodeFields(last) + "" == EncodeFields(last);
    RunFields(last, "", s1);
    assert s1.(row := s1.row + last[..|last| - 1], cell := last[|last| - 1]) == s2;
    FlushLast(Filter(rows, HasContent), rows, last);
  }

  lemma FlushLast(done: seq<Row>, rows: seq<Row>, last: Row)
    requires |last| >= 1 && done == Filter(rows, HasContent)
    ensures Flush(Scanner(done, last[..|last| - 1], last[|last| - 1], false)) == Filter(rows + [last], HasContent)
  {
    assert last[..|last| - 1] + [last[|last| - 1]] == last;
    FilterAppend(rows, [last], HasContent);
    assert Filter([last], HasContent) == (if HasContent(last) then [last] else []) by {
      assert [last][..0] == [];
    }
    if |last| == 1 && last[0] == "" {
      assert Trim("") == "";
      assert !HasContent(last);
    }
  }

  /** Rows that all have content survive writing and parsing unchanged. */
  lemma ParseEncodedRoundTrip(rows: seq<Row>, eol: string)
    requires AllNonEmpty(rows) && IsLineBreak(eol)
    requires forall k :: 0 <= k < |rows| ==> HasContent(rows[k])
    ensures Parse(Encode(rows, eol)) == Ok(rows)
  {
    ParseEncoded(rows, eol);
    FilterAllKept(rows, HasContent);
  }

  // ---------------------------------------------------------------------
  // Quote parity: the parse fails exactly when the text has an odd number of
  // double quotes, since a doubled quote inside quotes consumes two without
  // toggling and every other quote toggles.

  lemma CountFront<T>(s: seq<T>, x: T)
    requires s != []
    ensures Count(s, x) == (if s[0] == x then 1 else 0) + Count(s[1..], x)
  {
    CountAppend([s[0]], s[1..], x);
    assert [s[0]] + s[1..] == s;
    assert [s[0]][..0] == [];
  }

  lemma {:induction false} RunQuoteParity(text: string, s: Scanner)
    ensures Run(text, s).inQuotes == (s.inQuotes != (Count(text, '"') % 2 == 1))
    decreases |text|
  {
    if text != [] {
      CountFront(text, '"');
      var ch := text[0];
      if ch == '"' {
        if s.inQuotes && |text| > 1 && text[1] == '"' {
          CountFront(text[1..], '"');
          assert text[1..][1..] == text[2..];
          RunQuoteParity(text[2..], s.(cell := s.cell + ['"']));
        } else {
          RunQuoteParity(text[1..], s.(inQuotes := !s.inQuotes));
        }
      } else if ch == ',' && !s.inQuotes {
        RunQuoteParity(text[1..], s.(row := s.row + [s.cell], cell := ""));
      } else if (ch == '\n' || ch == '\r') && !s.inQuotes {
        if ch == '\r' && |text| > 1 && text[1] == '\n' {
          CountFront(text[1..], '"');
          assert text[1..][1..] == text[2..];
          RunQuoteParity(text[2..], EndRow(s));
        } else {
          RunQuoteParity(text[1..], EndRow(s));
        }
      } else {
        RunQuoteParity(text[1..], s.(cell := s.cell + [ch]));
      }
    }
  }

  /** parseCsv throws "unmatched quote" (and returns no rows) exactly when the
      text holds an odd number of double quotes. */
  lemma ParseFailsIffOddQuotes(text: string)
    ensures Parse(text).Err? <==> Count(text, '"') % 2 == 1
    ensures Parse(text).Err? ==> Parse(text) == Err(UnmatchedQuote)
  {
    RunQuoteParity(text, Start);
  }

  // ---------------------------------------------------------------------
  // No returned row is blank.

  predicate AllHaveContent(rows: seq<Row>) {
    forall k :: 0 <= k < |rows| ==> HasContent(rows[k])
  }

  lemma {:induction false} RunKeepsContent(text: string, s: Scanner)
    requires AllHaveContent(s.rows)
    ensures AllHaveContent(Run(text, s).rows)
    decreases |text|
  {
    if text != [] {
      var ch := text[0];
      if ch == '"' {
        if s.inQuotes && |text| > 1 && text[1] == '"' {
          RunKeepsContent(text[2..], s.(cell := s.cell + ['"']));
        } else {
          RunKeepsContent(text[1..], s.(inQuotes := !s.inQuotes));
        }
      } else if ch == ',' && !s.inQuotes {
        RunKeepsContent(text[1..], s.(row := s.row + [s.cell], cell := ""));
      } else if (ch == '\n' || ch == '\r') && !s.inQuotes {
        RunKeepsContent(if ch == '\r' && |text| > 1 && text[1] == '\n' then text[2..] else text[1..], EndRow(s));
      } else {
        RunKeepsContent(text[1..], s.(cell := s.cell + [ch]));
      }
    }
  }

  /** Every row parseCsv returns has a cell that is not blank after trimming. */
  lemma ParseRowsHaveContent(text: string)
    ensures Parse(text).Ok? ==> AllHaveContent(Parse(text).value)
  {
    RunKeepsContent(text, Start);
  }

  // ---------------------------------------------------------------------
  // A quote reaches a cell only as the doubled escape: the cells hold at most
  // half as many quotes as the text.

  function QuotesInRow(r: Row): nat {
    if r == [] then 0 else QuotesInRow(r[..|r| - 1]) + Count(r[|r| - 1], '"')
  }

  function QuotesInRows(rows: seq<Row>): nat {
    if rows == [] then 0 else QuotesInRows(rows[..|rows| - 1]) + QuotesInRow(rows[|rows| - 1])
  }

  function QuotesIn(s: Scanner): nat {
    QuotesInRows(s.rows) + QuotesInRow(s.row) + Count(s.cell, '"')
  }

  lemma EndRowQuotes(s: Scanner)
    ensures QuotesIn(EndRow(s)) <= QuotesIn(s)
  {
    var row := s.row + [s.cell];
    assert row[..|row| - 1] == s.row;
    if HasContent(row) {
      var rows := s.rows + [row];
      assert rows[..|rows| - 1] == s.rows;
    }
  }

  lemma {:induction false} RunQuoteBound(text: string, s: Scanner)
    ensures 2 * QuotesIn(Run(text, s)) <= 2 * QuotesIn(s) + Count(text, '"')
    decreases |text|
  {
    if text != [] {
      CountFront(text, '"');
      var ch := text[0];
      if ch == '"' {
        if s.inQuotes && |text| > 1 && text[1] == '"' {
          CountFront(text[1..], '"');
          assert text[1..][1..] == text[2..];
          var c := s.cell + ['"'];
          assert c[..|c| - 1] == s.cell;
          RunQuoteBound(text[2..], s.(cell := c));
        } else {
          RunQuoteBound(text[1..], s.(inQuotes := !s.inQuotes));
        }
      } else if ch == ',' && !s.inQuotes {
        var row := s.row + [s.cell];
        assert row[..|row| - 1] == s.row;
        RunQuoteBound(text[1..], s.(row := row, cell := ""));
      } else if (ch == '\n' || ch == '\r') && !s.inQuotes {
        EndRowQuotes(s);
        if ch == '\r' && |text| > 1 && text[1] == '\n' {
          CountFront(text[1..], '"');
          assert text[1..][1..] == text[2..];
          RunQuoteBound(text[2..], EndRow(s));
        } else {
          RunQuoteBound(text[1..], EndRow(s));
        }
      } else {
        var c := s.cell + [ch];
        assert c[..|c| - 1] == s.cell;
        RunQuoteBound(text[1..], s.(cell := c));
      }
    }
  }

  lemma {:induction false} NoQuotesInRows(rows: seq<Row>)
    requires QuotesInRows(rows) == 0
    ensures forall k, j :: 0 <= k < |rows| && 0 <= j < |rows[k]| ==> '"' !in rows[k][j]
  {
    if rows != [] {
      NoQuotesInRows(rows[..|rows| - 1]);
      NoQuotesInRow(rows[|rows| - 1]);
      assert forall k :: 0 <= k < |rows| - 1 ==> rows[k] == rows[..|rows| - 1][k];
    }
  }

  lemma {:induction false} NoQuotesInRow(r: Row)
    requires QuotesInRow(r) == 0
    ensures forall j :: 0 <= j < |r| ==> '"' !in r[j]
  {
    if r != [] {
      NoQuotesInRow(r[..|r| - 1]);
      CountPositive(r[|r| - 1], '"');
      assert forall j :: 0 <= j < |r| - 1 ==> r[j] == r[..|r| - 1][j];
    }
  }

  /** Each quote in the output stands for two quotes of the text, so a text
      without quotes yields cells without quotes. */
  lemma ParseQuoteBound(text: string)
    ensures Parse(text).Ok? ==> 2 * QuotesInRows(Parse(text).value) <= Count(text, '"')
    ensures Parse(text).Ok? && Count(text, '"') == 0 ==>
      forall k, j :: 0 <= k < |Parse(text).value| && 0 <= j < |Parse(text).value[k]| ==>
        '"' !in Parse(text).value[k][j]
  {
    var s := Run(text, Start);
    RunQuoteBound(text, Start);
    if |s.cell| > 0 || |s.row| > 0 {
      var row := s.row + [s.cell];
      assert row[..|row| - 1] == s.row;
      if HasContent(row) {
        var rows := s.rows + [row];
        assert rows[..|rows| - 1] == s.rows;
      }
    }
    if Parse(text).Ok? && Count(text, '"') == 0 {
      NoQuotesInRows(Parse(text).value);
    }
  }
}
