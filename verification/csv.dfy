/**
 * `parseCSV` of the word-list converter: a character-by-character scanner
 * with an in-quotes flag, following the quoting rules 6 and 7 of section 2
 * of RFC 4180 leniently. A carriage return and a line feed each end a row,
 * and a row with no field and no text is never emitted.
 *
 * The scanner is a fold over the text with the explicit state
 * `(rows, current, field, inQuotes)`; a writer that quotes only the fields
 * that need it is its partner, and the two round-trip.
 */
module Csv {
  import opened Text

  datatype Scan = Scan(rows: seq<seq<string>>, current: seq<string>, field: string, inQuotes: bool)

  /** The state before the first character. */
  const Start := Scan([], [], [], false)

  predicate IsEol(c: char) { c == '\n' || c == '\r' }

  /**
   * Closes the row in progress: the field joins the row and the row joins the
   * rows, unless the field is empty and the row has no field yet.
   */
  function EndRow(st: Scan): Scan {
    if st.field != [] || |st.current| > 0 then Scan(st.rows + [st.current + [st.field]], [], [], st.inQuotes)
    else st
  }

  /** The scanner, run from state `st` over the remaining text `rest`. */
  function Parse(rest: string, st: Scan): seq<seq<string>>
    decreases |rest|
  {
    if rest == [] then EndRow(st).rows
    else
      var c := rest[0];
      if c == '"' then
        if st.inQuotes && |rest| > 1 && rest[1] == '"' then Parse(rest[2..], st.(field := st.field + ['"']))
        else Parse(rest[1..], st.(inQuotes := !st.inQuotes))
      else if c == ',' && !st.inQuotes then Parse(rest[1..], st.(current := st.current + [st.field], field := []))
      else if IsEol(c) && !st.inQuotes then Parse(rest[1..], EndRow(st))
      else Parse(rest[1..], st.(field := st.field + [c]))
  }

  /** `parseCSV(text)`. */
  function ParseCsv(text: string): seq<seq<string>> {
    Parse(text, Start)
  }

  // ---------------------------------------------------------------------
  // No empty rows

  /** A row the scanner can emit: at least one field, and not one empty field. */
  predicate GoodRow(row: seq<string>) { |row| >= 1 && row != [[]] }

  predicate GoodRows(rows: seq<seq<string>>) { forall i :: 0 <= i < |rows| ==> GoodRow(rows[i]) }

  lemma {:induction false} EndRowGood(st: Scan)
    requires GoodRows(st.rows)
    ensures GoodRows(EndRow(st).rows)
  {
    if st.field != [] || |st.current| > 0 {
      var row := st.current + [st.field];
      assert row[|st.current|] == st.field;
      assert EndRow(st).rows == st.rows + [row];
      assert GoodRow(row);
    }
  }

  lemma {:induction false} ParseGoodRows(rest: string, st: Scan)
    requires GoodRows(st.rows)
    ensures GoodRows(Parse(rest, st))
    decreases |rest|
  {
    if rest == [] {
      EndRowGood(st);
    } else {
      var c := rest[0];
      if c == '"' {
        if st.inQuotes && |rest| > 1 && rest[1] == '"' {
          ParseGoodRows(rest[2..], st.(field := st.field + ['"']));
        } else {
          ParseGoodRows(rest[1..], st.(inQuotes := !st.inQuotes));
        }
      } else if c == ',' && !st.inQuotes {
        ParseGoodRows(rest[1..], st.(current := st.current + [st.field], field := []));
      } else if IsEol(c) && !st.inQuotes {
        EndRowGood(st);
        ParseGoodRows(rest[1..], EndRow(st));
      } else {
        ParseGoodRows(rest[1..], st.(field := st.field + [c]));
      }
    }
  }

  /**
   * `parseCSV` never emits a row without fields or a row that is one empty
   * field, so blank lines and the line feed of a CRLF pair add no rows.
   */
  lemma {:induction false} ParseCsvGoodRows(text: string)
    ensures GoodRows(ParseCsv(text))
  {
    ParseGoodRows(text, Start);
  }

  lemma {:induction false} CommaStep(tail: string, st: Scan)
    requires !st.inQuotes
    ensures Parse([','] + tail, st) == Parse(tail, st.(current := st.current + [st.field], field := []))
  {
    assert ([','] + tail)[1..] == tail;
  }

  lemma {:induction false} EolStep(c: char, tail: string, st: Scan)
    requires IsEol(c) && !st.inQuotes
    ensures Parse([c] + tail, st) == Parse(tail, EndRow(st))
  {
    assert ([c] + tail)[1..] == tail;
  }

  /** Line breaks between rows, outside quotes, are skipped. */
  lemma {:induction false} LineBreaksSkipped(w: string, tail: string, rows: seq<seq<string>>)
    requires forall i :: 0 <= i < |w| ==> IsEol(w[i])
    ensures Parse(w + tail, Scan(rows, [], [], false)) == Parse(tail, Scan(rows, [], [], false))
    decreases |w|
  {
    if w == [] {
      assert w + tail == tail;
    } else {
      var st := Scan(rows, [], [], false);
      assert w + tail == [w[0]] + (w[1..] + tail);
      EolStep(w[0], w[1..] + tail, st);
      assert EndRow(st) == st;
      LineBreaksSkipped(w[1..], tail, rows);
    }
  }

  // ---------------------------------------------------------------------
  // Fields

  /** A field that needs no quotes: no `"`, `,`, CR or LF. */
  predicate Clean(f: string) {
    forall i :: 0 <= i < |f| ==> f[i] != '"' && f[i] != ',' && !IsEol(f[i])
  }

  /** Doubles every `"` of a field (rule 7). */
  function Escape(f: string): (r: string)
    ensures |r| >= |f|
  {
    if f == [] then []
    else (if f[0] == '"' then ['"', '"'] else [f[0]]) + Escape(f[1..])
  }

  /** A field in double quotes (rule 6). */
  function Quote(f: string): string {
    ['"'] + Escape(f) + ['"']
  }

  /** A field as the writer emits it: quoted only when it must be. */
  function WriteField(f: string): string {
    if Clean(f) then f else Quote(f)
  }

  /** Outside quotes, the characters of a clean field are appended to the field. */
  lemma {:induction false} PlainThen(f: string, tail: string, st: Scan)
    requires Clean(f) && !st.inQuotes
    ensures Parse(f + tail, st) == Parse(tail, st.(field := st.field + f))
    decreases |f|
  {
    if f == [] {
      assert f + tail == tail;
      assert st.field + f == st.field;
    } else {
      assert f + tail == [f[0]] + (f[1..] + tail);
      CharStep(f[0], f[1..] + tail, st);
      PlainThen(f[1..], tail, st.(field := st.field + [f[0]]));
      assert st.field + [f[0]] + f[1..] == st.field + f;
    }
  }

  /**
   * Inside quotes, a doubled `"` yields one literal `"`, and commas, CR and
   * LF are kept in the field.
   */
  lemma {:induction false} EscapedThen(f: string, tail: string, st: Scan)
    requires st.inQuotes
    ensures Parse(Escape(f) + tail, st) == Parse(tail, st.(field := st.field + f))
    decreases |f|
  {
    if f == [] {
      assert Escape(f) + tail == tail;
      assert st.field + f == st.field;
    } else {
      EscapedStep(f, tail, st);
      EscapedThen(f[1..], tail, st.(field := st.field + [f[0]]));
      assert st.field + [f[0]] + f[1..] == st.field + f;
    }
  }

  /** Inside quotes, the escaped first character of a field is appended to the field. */
  lemma {:induction false} EscapedStep(f: string, tail: string, st: Scan)
    requires st.inQuotes && f != []
    ensures Parse(Escape(f) + tail, st) == Parse(Escape(f[1..]) + tail, st.(field := st.field + [f[0]]))
  {
    var e := Escape(f[1..]) + tail;
    EscapeSplit(f, tail);
    if f[0] == '"' {
      QuotePairStep(e, st);
    } else {
      CharStep(f[0], e, st);
    }
  }

  lemma {:induction false} EscapeSplit(f: string, tail: string)
    requires f != []
    ensures f[0] == '"' ==> Escape(f) + tail == ['"', '"'] + (Escape(f[1..]) + tail)
    ensures f[0] != '"' ==> Escape(f) + tail == [f[0]] + (Escape(f[1..]) + tail)
  {
  }

  /** Inside quotes, a doubled `"` stands for one literal `"`. */
  lemma {:induction false} QuotePairStep(e: string, st: Scan)
    requires st.inQuotes
    ensures Parse(['"', '"'] + e, st) == Parse(e, st.(field := st.field + ['"']))
  {
    assert (['"', '"'] + e)[2..] == e;
  }

  /** Any other character is stored, except a comma or line break outside quotes. */
  lemma {:induction false} CharStep(c: char, e: string, st: Scan)
    requires c != '"' && (st.inQuotes || (c != ',' && !IsEol(c)))
    ensures Parse([c] + e, st) == Parse(e, st.(field := st.field + [c]))
  {
    assert ([c] + e)[1..] == e;
  }

  /**
   * Outside quotes, a `"` only toggles the mode and is never stored: a quoted
   * field reads back as its content, provided the next character is not
   * another `"`.
   */
  lemma {:induction false} QuotedThen(f: string, tail: string, st: Scan)
    requires !st.inQuotes
    requires tail == [] || tail[0] != '"'
    ensures Parse(Quote(f) + tail, st) == Parse(tail, st.(field := st.field + f))
  {
    var q := st.(inQuotes := true);
    assert Quote(f) + tail == ['"'] + (Escape(f) + (['"'] + tail));
    EscapedThen(f, ['"'] + tail, q);
    var q' := q.(field := st.field + f);
    assert (['"'] + tail)[1..] == tail;
    assert Parse(['"'] + tail, q') == Parse(tail, q'.(inQuotes := false));
  }

  lemma {:induction false} FieldThen(f: string, tail: string, st: Scan)
    requires !st.inQuotes
    requires tail == [] || tail[0] != '"'
    ensures Parse(WriteField(f) + tail, st) == Parse(tail, st.(field := st.field + f))
  {
    if Clean(f) {
      PlainThen(f, tail, st);
    } else {
      QuotedThen(f, tail, st);
    }
  }

  // ---------------------------------------------------------------------
  // Rows and files

  function Fields(row: seq<string>): (r: seq<string>)
    ensures |r| == |row|
  {
    seq(|row|, i requires 0 <= i < |row| => WriteField(row[i]))
  }

  /** A row as the writer emits it: its fields joined by commas. */
  function WriteRow(row: seq<string>): string {
    Join(Fields(row), ',')
  }

  /** All rows, each followed by the line ending `eol`. */
  function WriteTerminated(rows: seq<seq<string>>, eol: string): string {
    if rows == [] then [] else WriteRow(rows[0]) + eol + WriteTerminated(rows[1..], eol)
  }

  function Lines(rows: seq<seq<string>>): (r: seq<string>)
    ensures |r| == |rows|
  {
    seq(|rows|, i requires 0 <= i < |rows| => WriteRow(rows[i]))
  }

  /** All rows joined by line feeds, with no line feed after the last one. */
  function WriteCsv(rows: seq<seq<string>>): string {
    Join(Lines(rows), '\n')
  }

  lemma {:induction false} WriteRowUnfold(row: seq<string>)
    requires |row| > 1
    ensures WriteRow(row) == WriteField(row[0]) + [','] + WriteRow(row[1..])
  {
    assert Fields(row)[1..] == Fields(row[1..]);
  }

  /**
   * Reading a written row leaves its last field open, with the others pushed
   * on the row in progress.
   */
  lemma {:induction false} RowThen(row: seq<string>, tail: string, st: Scan)
    requires |row| >= 1 && st.field == [] && !st.inQuotes
    requires tail == [] || tail[0] != '"'
    ensures Parse(WriteRow(row) + tail, st)
         == Parse(tail, st.(current := st.current + row[..|row| - 1], field := row[|row| - 1]))
    decreases |row|
  {
    if |row| == 1 {
      FieldThen(row[0], tail, st);
      assert st.current + row[..0] == st.current;
      assert st.field + row[0] == row[0];
    } else {
      var st2 := st.(current := st.current + [row[0]]);
      calc {
        Parse(WriteRow(row) + tail, st);
        == { RowThenStep(row, tail, st); }
        Parse(WriteRow(row[1..]) + tail, st2);
        == { RowThen(row[1..], tail, st2); }
        Parse(tail, st2.(current := st2.current + row[1..][..|row| - 2], field := row[1..][|row| - 2]));
        == { assert st2.current + row[1..][..|row| - 2] == st.current + row[..|row| - 1]; }
        Parse(tail, st.(current := st.current + row[..|row| - 1], field := row[|row| - 1]));
      }
    }
  }

  lemma {:induction false} RowThenStep(row: seq<string>, tail: string, st: Scan)
    requires |row| > 1 && st.field == [] && !st.inQuotes
    ensures Parse(WriteRow(row) + tail, st) == Parse(WriteRow(row[1..]) + tail, st.(current := st.current + [row[0]]))
  {
    RowSplit(row, tail);
    FieldComma(row[0], WriteRow(row[1..]) + tail, st);
  }

  lemma {:induction false} RowSplit(row: seq<string>, tail: string)
    requires |row| > 1
    ensures WriteRow(row) + tail == WriteField(row[0]) + ([','] + (WriteRow(row[1..]) + tail))
  {
    WriteRowUnfold(row);
  }

  /** A written field followed by a comma is pushed on the row in progress. */
  lemma {:induction false} FieldComma(f: string, later: string, st: Scan)
    requires st.field == [] && !st.inQuotes
    ensures Parse(WriteField(f) + ([','] + later), st) == Parse(later, st.(current := st.current + [f]))
  {
    FieldThen(f, [','] + later, st);
    assert st.field + f == f;
    CommaStep(later, st.(field := f));
  }

  /** The row in progress after reading a written row is closed as that row. */
  lemma {:induction false} CloseRow(row: seq<string>, rows: seq<seq<string>>)
    requires GoodRow(row)
    ensures EndRow(Scan(rows, row[..|row| - 1], row[|row| - 1], false)) == Scan(rows + [row], [], [], false)
  {
    assert row[..|row| - 1] + [row[|row| - 1]] == row;
  }

  /** A written row followed by a line ending is read back as that row. */
  lemma {:induction false} RowLine(row: seq<string>, eol: string, tail: string, rows: seq<seq<string>>)
    requires GoodRow(row)
    requires eol == "\n" || eol == "\r" || eol == "\r\n"
    ensures Parse(WriteRow(row) + (eol + tail), Scan(rows, [], [], false))
         == Parse(tail, Scan(rows + [row], [], [], false))
  {
    var st := Scan(rows, [], [], false);
    var open := Scan(rows, row[..|row| - 1], row[|row| - 1], false);
    calc {
      Parse(WriteRow(row) + (eol + tail), st);
      == { assert (eol + tail)[0] == eol[0];
           RowThen(row, eol + tail, st);
           assert st.(current := st.current + row[..|row| - 1], field := row[|row| - 1]) == open; }
      Parse(eol + tail, open);
      == { assert eol + tail == [eol[0]] + (eol[1..] + tail); EolStep(eol[0], eol[1..] + tail, open); }
      Parse(eol[1..] + tail, EndRow(open));
      == { CloseRow(row, rows); }
      Parse(eol[1..] + tail, Scan(rows + [row], [], [], false));
      == { LineBreaksSkipped(eol[1..], tail, rows + [row]); }
      Parse(tail, Scan(rows + [row], [], [], false));
    }
  }

  lemma {:induction false} TerminatedThen(rows: seq<seq<string>>, eol: string, tail: string, done: seq<seq<string>>)
    requires GoodRows(rows)
    requires eol == "\n" || eol == "\r" || eol == "\r\n"
    ensures Parse(WriteTerminated(rows, eol) + tail, Scan(done, [], [], false))
         == Parse(tail, Scan(done + rows, [], [], false))
    decreases |rows|
  {
    if rows == [] {
      assert done + rows == done;
      assert WriteTerminated(rows, eol) + tail == tail;
    } else {
      var later := WriteTerminated(rows[1..], eol) + tail;
      TerminatedSplit(rows, eol, tail);
      RowLine(rows[0], eol, later, done);
      TerminatedThen(rows[1..], eol, tail, done + [rows[0]]);
      ConsSplit(done, rows);
    }
  }

  lemma {:induction false} TerminatedSplit(rows: seq<seq<string>>, eol: string, tail: string)
    requires rows != []
    ensures WriteTerminated(rows, eol) + tail == WriteRow(rows[0]) + (eol + (WriteTerminated(rows[1..], eol) + tail))
  {
  }

  lemma {:induction false} ConsSplit<T>(done: seq<T>, rows: seq<T>)
    requires rows != []
    ensures done + [rows[0]] + rows[1..] == done + rows
  {
    assert [rows[0]] + rows[1..] == rows;
  }

  /**
   * Rows written with a line ending after every row, be it LF, CR or CRLF,
   * read back as the same rows.
   */
  lemma {:induction false} TerminatedRoundTrip(rows: seq<seq<string>>, eol: string)
    requires GoodRows(rows)
    requires eol == "\n" || eol == "\r" || eol == "\r\n"
    ensures ParseCsv(WriteTerminated(rows, eol)) == rows
  {
    TerminatedThen(rows, eol, [], []);
    assert WriteTerminated(rows, eol) + [] == WriteTerminated(rows, eol);
  }

  lemma {:induction false} JoinedThen(rows: seq<seq<string>>, done: seq<seq<string>>)
    requires |rows| >= 1 && GoodRows(rows)
    ensures Parse(WriteCsv(rows), Scan(done, [], [], false)) == done + rows
    decreases |rows|
  {
    var st := Scan(done, [], [], false);
    var row := rows[0];
    if |rows| == 1 {
      var open := Scan(done, row[..|row| - 1], row[|row| - 1], false);
      calc {
        Parse(WriteCsv(rows), st);
        == { assert WriteCsv(rows) == WriteRow(row) + []; }
        Parse(WriteRow(row) + [], st);
        == { RowThen(row, [], st);
             assert st.(current := st.current + row[..|row| - 1], field := row[|row| - 1]) == open; }
        Parse([], open);
        == { CloseRow(row, done); }
        done + [row];
      }
      assert [row] == rows;
    } else {
      var later := WriteCsv(rows[1..]);
      JoinedSplit(rows);
      RowLine(row, "\n", later, done);
      JoinedThen(rows[1..], done + [row]);
      ConsSplit(done, rows);
    }
  }

  lemma {:induction false} JoinedSplit(rows: seq<seq<string>>)
    requires |rows| > 1
    ensures WriteCsv(rows) == WriteRow(rows[0]) + ("\n" + WriteCsv(rows[1..]))
  {
    assert Lines(rows)[1..] == Lines(rows[1..]);
  }

  /** Rows joined by line feeds, with no final line feed, read back as the same rows. */
  lemma {:induction false} CsvRoundTrip(rows: seq<seq<string>>)
    requires GoodRows(rows)
    ensures ParseCsv(WriteCsv(rows)) == rows
  {
    if rows != [] {
      JoinedThen(rows, []);
      assert [] + rows == rows;
    }
  }

  // ---------------------------------------------------------------------
  // Plain files

  /** Each row as its fields joined with commas. */
  function PlainLines(rows: seq<seq<string>>): (r: seq<string>)
    ensures |r| == |rows|
  {
    seq(|rows|, i requires 0 <= i < |rows| => Join(rows[i], ','))
  }

  predicate CleanRows(rows: seq<seq<string>>) {
    forall i, j :: 0 <= i < |rows| && 0 <= j < |rows[i]| ==> Clean(rows[i][j])
  }

  /** The writer emits clean fields unquoted, so it joins clean rows plainly. */
  lemma {:induction false} WriteClean(rows: seq<seq<string>>)
    requires CleanRows(rows)
    ensures WriteCsv(rows) == Join(PlainLines(rows), '\n')
  {
    forall i | 0 <= i < |rows| ensures Lines(rows)[i] == PlainLines(rows)[i] {
      assert Fields(rows[i]) == rows[i];
    }
    assert Lines(rows) == PlainLines(rows);
  }

  /**
   * Rows of fields without `"`, `,`, CR or LF, none of them the single empty
   * field, joined with `,` and `\n` read back as the same rows, with or
   * without a final line feed.
   */
  lemma {:induction false} PlainRoundTrip(rows: seq<seq<string>>)
    requires CleanRows(rows) && GoodRows(rows)
    ensures ParseCsv(Join(PlainLines(rows), '\n')) == rows
    ensures ParseCsv(Join(PlainLines(rows), '\n') + "\n") == rows
  {
    WriteClean(rows);
    CsvRoundTrip(rows);
    if rows != [] {
      JoinedThenNewline(rows);
    } else {
      assert Join(PlainLines(rows), '\n') + "\n" == "\n" + [];
      LineBreaksSkipped("\n", [], []);
    }
  }

  lemma {:induction false} JoinedThenNewline(rows: seq<seq<string>>)
    requires |rows| >= 1 && GoodRows(rows)
    ensures ParseCsv(WriteCsv(rows) + "\n") == rows
  {
    TerminatedJoined(rows);
    TerminatedRoundTrip(rows, "\n");
  }

  /** Joining with line feeds and adding one at the end terminates every row. */
  lemma {:induction false} TerminatedJoined(rows: seq<seq<string>>)
    requires |rows| >= 1
    ensures WriteCsv(rows) + "\n" == WriteTerminated(rows, "\n")
    decreases |rows|
  {
    if |rows| == 1 {
      assert WriteTerminated(rows[1..], "\n") == [];
    } else {
      assert Lines(rows)[1..] == Lines(rows[1..]);
      TerminatedJoined(rows[1..]);
    }
  }
}
