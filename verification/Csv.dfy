/**
 The CSV reader behind the SQL console (PostgreSQL's `--csv` output) and the
 truncation of its rows. The format is RFC 4180, section 2.
 */
module Csv {
  import Text

  type Row = seq<string>

  const MAX_ROWS := 1000

  datatype Table = Table(columns: Row, rows: seq<Row>)

  datatype QueryResult = QueryResult(columns: Row, rows: seq<Row>, rowCount: nat, truncated: bool)

  /** The variables of the scanning loop. */
  datatype Scan = Scan(records: seq<Row>, record: Row, field: string, inQuotes: bool)

  const START := Scan([], [], "", false)

  function PushField(st: Scan): Scan {
    st.(record := st.record + [st.field], field := "")
  }

  function EndRecord(st: Scan): Scan {
    st.(records := st.records + [st.record + [st.field]], record := [], field := "")
  }

  /** One character outside quotes. */
  function Plain(st: Scan, c: char): Scan {
    match c
    case '"' => st.(inQuotes := true)
    case ',' => PushField(st)
    case '\n' => EndRecord(st)
    case '\r' => st
    case _ => st.(field := st.field + [c])
  }

  /** The scanning loop run to the end of the text. */
  function ScanAll(s: string, st: Scan): Scan
    decreases |s|
  {
    if s == [] then st
    else if st.inQuotes then
      if s[0] != '"' then ScanAll(s[1..], st.(field := st.field + [s[0]]))
      else if |s| > 1 && s[1] == '"' then ScanAll(s[2..], st.(field := st.field + "\""))
      else ScanAll(s[1..], st.(inQuotes := false))
    else ScanAll(s[1..], Plain(st, s[0]))
  }

  /** The last record, when the text does not end with a line feed. */
  function Flush(st: Scan): seq<Row> {
    if st.field == "" && st.record == [] then st.records
    else
      var record := st.record + [st.field];
      if (exists f <- record :: f != "") || |record| > 1 then st.records + [record] else st.records
  }

  function CommandTags(): seq<string> {
    ["INSERT", "UPDATE", "DELETE", "CREATE", "ALTER", "DROP", "TRUNCATE", "GRANT", "REVOKE"]
  }

  /** A lone cell that PostgreSQL prints instead of a table. */
  predicate IsCommandTag(records: seq<Row>) {
    |records| == 1 && |records[0]| == 1 && exists tag <- CommandTags() :: tag <= records[0][0]
  }

  function ToTable(records: seq<Row>): Table {
    if records == [] || IsCommandTag(records) then Table([], []) else Table(records[0], records[1..])
  }

  function Parse(s: string): Table {
    ToTable(Flush(ScanAll(s, START)))
  }

  // ---- The loop -----------------------------------------------------------

  method ParseCsv(output: string) returns (table: Table)
    ensures table == Parse(output)
  {
    var records: seq<Row>, field, record: Row, inQuotes := [], "", [], false;
    var i := 0;
    while i < |output|
      invariant i <= |output|
      invariant ScanAll(output[i..], Scan(records, record, field, inQuotes)) == ScanAll(output, START)
    {
      var c := output[i];
      ghost var here := Scan(records, record, field, inQuotes);
      assert output[i..][1..] == output[i + 1..];
      i := i + 1;
      if inQuotes {
        if c == '"' {
          if i < |output| && output[i] == '"' {
            assert output[i - 1..][2..] == output[i + 1..];
            i := i + 1;
            field := field + "\"";
          } else {
            inQuotes := false;
          }
        } else {
          field := field + [c];
        }
      } else {
        match c {
          case '"' => inQuotes := true;
          case ',' => record, field := record + [field], "";
          case '\n' =>
            record, field := record + [field], "";
            if record != [] {
              records, record := records + [record], [];
            }
          case '\r' =>
          case _ => field := field + [c];
        }
        assert Scan(records, record, field, inQuotes) == Plain(here, c);
      }
    }
    if field != "" || record != [] {
      record := record + [field];
      if (exists f <- record :: f != "") || |record| > 1 {
        records := records + [record];
      }
    }
    if records == [] || IsCommandTag(records) {
      return Table([], []);
    }
    table := Table(records[0], records[1..]);
  }

  /** A result that is the longest prefix of a table's rows within the limit, and says whether rows are missing. */
  predicate Shows(result: QueryResult, table: Table) {
    && result.columns == table.columns
    && result.rows <= table.rows
    && result.rowCount == |result.rows| <= 1000
    && (result.truncated <==> |result.rows| < |table.rows|)
    && (result.truncated ==> |result.rows| == 1000)
  }

  /** The tail of `execute_query` for PostgreSQL: parse, then keep the first MAX_ROWS rows. */
  method ExecuteQuery(stdout: string) returns (result: QueryResult)
    ensures Shows(result, Parse(stdout))
  {
    var table := ParseCsv(stdout);
    var rows := table.rows;
    var truncated := |rows| > MAX_ROWS;
    if truncated {
      rows := rows[..MAX_ROWS];
    }
    result := QueryResult(table.columns, rows, |rows|, truncated);
  }

  // ---- Printing, as RFC 4180 prescribes it --------------------------------

  /** A cell and the writer's choice whether to quote it. */
  datatype Cell = Cell(text: string, quoted: bool) {
    /** Cells holding a comma, a quote, CR or LF must be quoted. */
    predicate Valid() {
      quoted || forall i | 0 <= i < |text| :: text[i] !in {',', '"', '\r', '\n'}
    }
  }

  /** A record and the writer's choice of line ending. */
  datatype Record = Record(cells: seq<Cell>, crlf: bool) {
    predicate Valid() {
      cells != [] && AllValid(cells)
    }
  }

  predicate AllValid(cells: seq<Cell>) {
    forall i | 0 <= i < |cells| :: cells[i].Valid()
  }

  predicate Printable(records: seq<Record>) {
    forall i | 0 <= i < |records| :: records[i].Valid()
  }

  function Doubled(s: string): string {
    if s == "" then "" else (if s[0] == '"' then "\"\"" else [s[0]]) + Doubled(s[1..])
  }

  function PrintCell(cell: Cell): string {
    if cell.quoted then "\"" + Doubled(cell.text) + "\"" else cell.text
  }

  function PrintCells(cells: seq<Cell>): string {
    if cells == [] then ""
    else if |cells| == 1 then PrintCell(cells[0]) else PrintCell(cells[0]) + "," + PrintCells(cells[1..])
  }

  function LineEnd(crlf: bool): string {
    if crlf then "\r\n" else "\n"
  }

  function Print(records: seq<Record>): string {
    if records == [] then ""
    else PrintCells(records[0].cells) + LineEnd(records[0].crlf) + Print(records[1..])
  }

  function Texts(cells: seq<Cell>): Row {
    if cells == [] then [] else [cells[0].text] + Texts(cells[1..])
  }

  function Rows(records: seq<Record>): seq<Row> {
    if records == [] then [] else [Texts(records[0].cells)] + Rows(records[1..])
  }

  // ---- Reading back -------------------------------------------------------

  lemma {:induction false} ScanQuoted(text: string, rest: string, st: Scan)
    requires st.inQuotes && (rest == "" || rest[0] != '"')
    ensures ScanAll(Doubled(text) + "\"" + rest, st)
         == ScanAll(rest, st.(field := st.field + text, inQuotes := false))
  {
    var s := Doubled(text) + "\"" + rest;
    if text == "" {
      assert s[1..] == rest;
      assert st.field + text == st.field;
    } else {
      var one := if text[0] == '"' then "\"\"" else [text[0]];
      var next := st.(field := st.field + [text[0]]);
      assert s == one + (Doubled(text[1..]) + "\"" + rest);
      assert s[|one|..] == Doubled(text[1..]) + "\"" + rest;
      ScanQuoted(text[1..], rest, next);
      assert next.field + text[1..] == st.field + text;
    }
  }

  lemma {:induction false} ScanUnquoted(text: string, rest: string, st: Scan)
    requires !st.inQuotes && Cell(text, false).Valid()
    ensures ScanAll(text + rest, st) == ScanAll(rest, st.(field := st.field + text))
  {
    if text == "" {
      assert text + rest == rest && st.field + text == st.field;
    } else {
      var next := st.(field := st.field + [text[0]]);
      assert text[0] in text;
      assert (text + rest)[1..] == text[1..] + rest;
      ScanUnquoted(text[1..], rest, next);
      assert next.field + text[1..] == st.field + text;
    }
  }

  /** Reading one printed cell adds exactly its text to an empty field. */
  lemma {:induction false} ScanCell(cell: Cell, rest: string, st: Scan)
    requires cell.Valid() && !st.inQuotes && st.field == "" && (rest == "" || rest[0] != '"')
    ensures ScanAll(PrintCell(cell) + rest, st) == ScanAll(rest, st.(field := cell.text))
  {
    if cell.quoted {
      var s := PrintCell(cell) + rest;
      assert s == "\"" + (Doubled(cell.text) + "\"" + rest);
      assert s[1..] == Doubled(cell.text) + "\"" + rest;
      ScanQuoted(cell.text, rest, st.(inQuotes := true));
      assert st.field + cell.text == cell.text;
    } else {
      ScanUnquoted(cell.text, rest, st);
      assert st.field + cell.text == cell.text;
    }
  }

  /** The scan state after the cells of a record, before its end. */
  function Feed(cells: seq<Cell>, st: Scan): Scan
    requires cells != []
  {
    var after := st.(field := cells[0].text);
    if |cells| == 1 then after else Feed(cells[1..], PushField(after))
  }

  lemma TextsCons(cells: seq<Cell>)
    requires cells != []
    ensures Texts(cells) == [cells[0].text] + Texts(cells[1..])
    ensures |cells| == 1 ==> Texts(cells) == [cells[0].text]
  {
  }

  lemma AddText(before: Row, text: string, after: Row)
    ensures (before + [text]) + after == before + ([text] + after)
  {
  }

  lemma {:induction false} FeedIsTexts(cells: seq<Cell>, st: Scan)
    requires cells != []
    ensures var fed := Feed(cells, st);
            fed.record + [fed.field] == st.record + Texts(cells) && fed.records == st.records &&
              fed.inQuotes == st.inQuotes
  {
    hide Texts;
    TextsCons(cells);
    if |cells| > 1 {
      var text := cells[0].text;
      FeedIsTexts(cells[1..], PushField(st.(field := text)));
      AddText(st.record, text, Texts(cells[1..]));
    }
  }

  lemma {:induction false} ScanCells(cells: seq<Cell>, rest: string, st: Scan)
    requires cells != [] && AllValid(cells)
    requires !st.inQuotes && st.field == "" && (rest == "" || rest[0] != '"')
    ensures ScanAll(PrintCells(cells) + rest, st) == ScanAll(rest, Feed(cells, st))
  {
    if |cells| == 1 {
      ScanCell(cells[0], rest, st);
    } else {
      ScanCellsStep(cells, rest, st);
      ScanCells(cells[1..], rest, PushField(st.(field := cells[0].text)));
    }
  }

  lemma ScanCellsStep(cells: seq<Cell>, rest: string, st: Scan)
    requires |cells| > 1 && cells[0].Valid() && !st.inQuotes && st.field == ""
    ensures ScanAll(PrintCells(cells) + rest, st)
         == ScanAll(PrintCells(cells[1..]) + rest, PushField(st.(field := cells[0].text)))
  {
    hide ScanAll;
    var more := PrintCells(cells[1..]) + rest;
    assert PrintCells(cells) + rest == PrintCell(cells[0]) + ("," + more);
    ScanCell(cells[0], "," + more, st);
    ScanComma(more, st.(field := cells[0].text));
  }

  lemma ScanComma(rest: string, st: Scan)
    requires !st.inQuotes
    ensures ScanAll("," + rest, st) == ScanAll(rest, PushField(st))
  {
    assert ("," + rest)[1..] == rest;
  }

  lemma ScanLineEnd(crlf: bool, rest: string, st: Scan)
    requires !st.inQuotes
    ensures ScanAll(LineEnd(crlf) + rest, st) == ScanAll(rest, EndRecord(st))
  {
    var s := LineEnd(crlf) + rest;
    if crlf {
      assert s[1..] == "\n" + rest && s[1..][1..] == rest;
    } else {
      assert s[1..] == rest;
    }
  }

  lemma ScanRecord(r: Record, rest: string, st: Scan)
    requires r.Valid() && !st.inQuotes && st.field == "" && st.record == []
    ensures ScanAll(PrintCells(r.cells) + LineEnd(r.crlf) + rest, st)
         == ScanAll(rest, st.(records := st.records + [Texts(r.cells)]))
  {
    var tail := LineEnd(r.crlf) + rest;
    assert PrintCells(r.cells) + LineEnd(r.crlf) + rest == PrintCells(r.cells) + tail;
    ScanCells(r.cells, tail, st);
    FeedIsTexts(r.cells, st);
    ScanLineEnd(r.crlf, rest, Feed(r.cells, st));
    assert st.record + Texts(r.cells) == Texts(r.cells);
  }

  lemma PrintStep(records: seq<Record>, rest: string)
    requires records != [] && Printable(records)
    ensures records[0].Valid() && Printable(records[1..])
    ensures Print(records) + rest
         == PrintCells(records[0].cells) + LineEnd(records[0].crlf) + (Print(records[1..]) + rest)
    ensures Rows(records) == [Texts(records[0].cells)] + Rows(records[1..])
  {
    hide PrintCells, Texts, LineEnd;
    Text.Associative(PrintCells(records[0].cells) + LineEnd(records[0].crlf), Print(records[1..]), rest);
  }

  lemma {:induction false} ScanRecords(records: seq<Record>, rest: string, st: Scan)
    requires Printable(records)
    requires !st.inQuotes && st.field == "" && st.record == []
    ensures ScanAll(Print(records) + rest, st) == ScanAll(rest, st.(records := st.records + Rows(records)))
  {
    if records == [] {
      assert Print(records) + rest == rest && st.records + Rows(records) == st.records;
    } else {
      hide *;
      PrintStep(records, rest);
      ScanRecord(records[0], Print(records[1..]) + rest, st);
      var row := Texts(records[0].cells);
      var next := st.(records := st.records + [row]);
      ScanRecords(records[1..], rest, next);
      AddRow(st.records, row, Rows(records[1..]));
    }
  }

  lemma AddRow(before: seq<Row>, row: Row, after: seq<Row>)
    ensures before + [row] + after == before + ([row] + after)
  {
  }

  /** Whatever the quoting and the line endings, printing and parsing gives the records back. */
  lemma RoundTrip(records: seq<Record>)
    requires Printable(records)
    ensures Parse(Print(records)) == ToTable(Rows(records))
    ensures records != [] && !IsCommandTag(Rows(records)) ==>
              Parse(Print(records)) == Table(Rows(records)[0], Rows(records)[1..])
  {
    ScanRecords(records, "", START);
    assert Print(records) + "" == Print(records);
    assert START.records + Rows(records) == Rows(records);
  }

  /**
   The header and rows come back if and only if they are not a lone command tag:
   for a command tag the reader answers an empty table instead.
   */
  lemma RoundTripExactly(records: seq<Record>)
    requires records != [] && Printable(records)
    ensures Parse(Print(records)) == Table(Rows(records)[0], Rows(records)[1..]) <==> !IsCommandTag(Rows(records))
  {
    RoundTrip(records);
    assert records[0].Valid();
    assert Rows(records)[0] == Texts(records[0].cells) != [];
  }

  /** A table of one column named like a command, without rows, is answered as an empty table. */
  lemma CommandTagExample()
    ensures var records := [Record([Cell("INSERTED", false)], false)];
            Printable(records) && Parse(Print(records)) != Table(["INSERTED"], [])
  {
    var cells := [Cell("INSERTED", false)];
    var records := [Record(cells, false)];
    assert cells[0].Valid();
    assert Texts(cells) == ["INSERTED"] by { assert cells[1..] == []; }
    assert Rows(records) == [["INSERTED"]] by { assert records[1..] == []; }
    assert CommandTags()[0] <= Rows(records)[0][0] && CommandTags()[0] in CommandTags();
    hide Print, Parse, Texts, Rows, CommandTags;
    RoundTripExactly(records);
  }

  /** One character between quotes. */
  lemma ScanDoubled(c: char, rest: string, st: Scan)
    requires st.inQuotes
    ensures ScanAll((if c == '"' then "\"\"" else [c]) + rest, st) == ScanAll(rest, st.(field := st.field + [c]))
  {
    var s := (if c == '"' then "\"\"" else [c]) + rest;
    assert c != '"' ==> s[1..] == rest;
    assert c == '"' ==> s[2..] == rest;
  }

  lemma {:induction false} ScanUnclosed(text: string, st: Scan)
    requires st.inQuotes
    ensures ScanAll(Doubled(text), st) == st.(field := st.field + text)
  {
    if text == "" {
      assert st.field + text == st.field;
    } else {
      hide ScanAll;
      var next := st.(field := st.field + [text[0]]);
      ScanDoubled(text[0], Doubled(text[1..]), st);
      ScanUnclosed(text[1..], next);
      assert next.field + text[1..] == st.field + text;
    }
  }

  /** A quote that is never closed takes the rest of the input as one cell, doubled quotes at its end included. */
  lemma {:induction false} UnclosedQuote(text: string)
    ensures Flush(ScanAll("\"" + Doubled(text), START)) == if text == "" then [] else [[text]]
  {
    var s := "\"" + Doubled(text);
    assert s[1..] == Doubled(text);
    var open := START.(inQuotes := true);
    assert ScanAll(s, START) == ScanAll(Doubled(text), open);
    ScanUnclosed(text, open);
    hide ScanAll, Doubled;
    assert "" + text == text && [] + [text] == [text];
    assert text != "" ==> text in [text];
  }

  /**
   A lone cell, quoted or not, gives an empty table if and only if it starts with one of nine words, and a
   header else.
   */
  lemma LoneCellExactly(cell: Cell, crlf: bool)
    requires cell.Valid()
    ensures var t := cell.text;
            var command := "INSERT" <= t || "UPDATE" <= t || "DELETE" <= t || "CREATE" <= t || "ALTER" <= t
                           || "DROP" <= t || "TRUNCATE" <= t || "GRANT" <= t || "REVOKE" <= t;
            Parse(Print([Record([cell], crlf)])) == Table(if command then [] else [t], [])
  {
    var records := [Record([cell], crlf)];
    assert records[0].Valid();
    assert Texts([cell]) == [cell.text] by { assert [cell][1..] == []; }
    assert Rows(records) == [[cell.text]] by { assert records[1..] == []; }
    TagsWritten(cell.text);
    hide Print, Texts, Rows, CommandTags, Cell.Valid;
    RoundTrip(records);
  }

  lemma OneOfNine(tags: seq<string>, t: string)
    requires |tags| == 9
    ensures (exists tag <- tags :: tag <= t) <==>
              tags[0] <= t || tags[1] <= t || tags[2] <= t || tags[3] <= t || tags[4] <= t || tags[5] <= t
              || tags[6] <= t || tags[7] <= t || tags[8] <= t
  {
    if i :| 0 <= i < 9 && tags[i] <= t {
      assert tags[i] in tags;
    }
  }

  lemma TagsWritten(t: string)
    ensures (exists tag <- CommandTags() :: tag <= t) <==>
              "INSERT" <= t || "UPDATE" <= t || "DELETE" <= t || "CREATE" <= t || "ALTER" <= t || "DROP" <= t
              || "TRUNCATE" <= t || "GRANT" <= t || "REVOKE" <= t
  {
    var tags := CommandTags();
    assert tags == ["INSERT", "UPDATE", "DELETE", "CREATE", "ALTER", "DROP", "TRUNCATE", "GRANT", "REVOKE"];
    hide CommandTags;
    OneOfNine(tags, t);
  }

  /**
   RFC 4180 lets the last record go without a line ending. Then it is read back
   if and only if it is not a single empty cell.
   */
  lemma {:induction false} RoundTripUnterminated(records: seq<Record>, last: seq<Cell>)
    requires Printable(records)
    requires Record(last, false).Valid()
    ensures Flush(ScanAll(Print(records) + PrintCells(last), START))
         == Rows(records) + (if Texts(last) == [""] then [] else [Texts(last)])
  {
    ScanRecords(records, PrintCells(last), START);
    var st := START.(records := START.records + Rows(records));
    assert st.records == Rows(records);
    ScanCells(last, "", st);
    assert PrintCells(last) + "" == PrintCells(last);
    FeedIsTexts(last, st);
    FlushFed(Feed(last, st), Texts(last));
  }

  lemma FlushFed(st: Scan, row: Row)
    requires st.record + [st.field] == row
    ensures Flush(st) == st.records + (if row == [""] then [] else [row])
  {
    if |row| == 1 {
      assert row[0] == st.field;
      assert st.field != "" ==> st.field in row;
    }
  }

  /** What the SQL console shows of a printed result set. */
  lemma {:induction false} ConsoleShowsPrefix(records: seq<Record>, result: QueryResult)
    requires records != [] && Printable(records) && !IsCommandTag(Rows(records))
    requires Shows(result, Parse(Print(records)))
    ensures result.columns == Texts(records[0].cells)
    ensures |Rows(records)| == |records|
    ensures result.rows == Rows(records)[1..][..if |records| - 1 < 1000 then |records| - 1 else 1000]
    ensures result.truncated <==> |records| - 1 > 1000
  {
    RoundTrip(records);
    RowsLength(records);
  }

  lemma RowsLength(records: seq<Record>)
    ensures |Rows(records)| == |records|
  {
  }
}
