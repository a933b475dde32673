/** The CSV export of the audit log, and a reader of comma-separated values as section 2 of
    RFC 4180 describes them, which also accepts a bare LF as the end of a row. */
module AuditCsv {
  import opened Wrappers
  import Audit
  import Text

  type Row = seq<string>

  // ------------------------------------------------------------------ the writer

  predicate NeedsQuotes(s: string) {
    ',' in s || '"' in s || '\n' in s || '\r' in s
  }

  function DoubleQuotes(s: string): string {
    if s == "" then "" else (if s[0] == '"' then "\"\"" else [s[0]]) + DoubleQuotes(s[1..])
  }

  function CsvEscape(s: string): string {
    if NeedsQuotes(s) then "\"" + DoubleQuotes(s) + "\"" else s
  }

  const HEADER: Row := ["time", "user", "action", "detail", "ip", "ok"]

  function OkText(ok: bool): string {
    if ok then "true" else "false"
  }

  /** The row of an entry; `format` renders times. */
  function EntryRow(e: Audit.Entry, format: int -> string): Row {
    [format(e.time), e.user, e.action, e.detail, e.ip, OkText(e.ok)]
  }

  function EntryRows(entries: seq<Audit.Entry>, format: int -> string): (rows: seq<Row>)
    ensures |rows| == |entries|
  {
    if entries == [] then [] else [EntryRow(entries[0], format)] + EntryRows(entries[1..], format)
  }

  /** Rendered times never need quotes. */
  ghost predicate PlainTimes(format: int -> string) {
    forall t: int :: !NeedsQuotes(format(t))
  }

  method AuditLogExport(entries: seq<Audit.Entry>, format: int -> string) returns (w: string)
    requires PlainTimes(format)
    ensures w == WriteTable([HEADER] + EntryRows(entries, format), "\n")
  {
    ghost var rows := EntryRows(entries, format);
    w := WriteHeader(rows);
    for i := 0 to |entries|
      invariant w == WrittenTo(rows, i)
    {
      var e := entries[i];
      EntryLine(entries, i, format);
      w := w + EntryText(e, format);
    }
    assert rows[..|rows|] == rows;
  }

  method WriteHeader(ghost rows: seq<Row>) returns (w: string)
    ensures w == WrittenTo(rows, 0)
  {
    HeaderLine(rows);
    w := "time,user,action,detail,ip,ok\n";
  }

  /** The line of an entry: the time and the flag as they are, the texts escaped. */
  function EntryText(e: Audit.Entry, format: int -> string): string {
    Line(format(e.time), e.user, e.action, e.detail, e.ip, OkText(e.ok))
  }

  /** The header and the first `i` rows. */
  function WrittenTo(rows: seq<Row>, i: nat): string
    requires i <= |rows|
  {
    WriteTable([HEADER] + rows[..i], "\n")
  }

  lemma {:induction false} EntryLine(entries: seq<Audit.Entry>, i: nat, format: int -> string)
    requires PlainTimes(format) && i < |entries|
    ensures var rows := EntryRows(entries, format);
            WrittenTo(rows, i + 1) == WrittenTo(rows, i) + EntryText(entries[i], format)
  {
    var rows, e := EntryRows(entries, format), entries[i];
    EntryRowsAreFull(entries, format);
    Lowercase(OkText(e.ok));
    SixFields(format(e.time), e.user, e.action, e.detail, e.ip, OkText(e.ok));
    NextRow([HEADER], rows, i);
  }

  lemma {:induction false} NextRow(head: seq<Row>, rows: seq<Row>, i: nat)
    requires i < |rows|
    ensures WriteTable(head + rows[..i + 1], "\n") == WriteTable(head + rows[..i], "\n") + WriteRow(rows[i], "\n")
  {
    assert head + rows[..i] + [rows[i]] == head + rows[..i + 1];
    TableSnoc(head + rows[..i], rows[i], "\n");
  }

  /** A row as the export writes one: escaped fields, commas between them, a line end. */
  function WriteRow(row: Row, eol: string): string {
    if row == [] then eol
    else if |row| == 1 then CsvEscape(row[0]) + eol
    else CsvEscape(row[0]) + ("," + WriteRow(row[1..], eol))
  }

  function WriteTable(rows: seq<Row>, eol: string): string {
    if rows == [] then "" else WriteTable(rows[..|rows| - 1], eol) + WriteRow(rows[|rows| - 1], eol)
  }

  lemma {:induction false} TableSnoc(rows: seq<Row>, row: Row, eol: string)
    ensures WriteTable(rows + [row], eol) == WriteTable(rows, eol) + WriteRow(row, eol)
  {
    assert (rows + [row])[..|rows|] == rows;
  }

  /** The line of six values, the first and the last as they are. */
  function Line(a: string, b: string, c: string, d: string, e: string, f: string): string {
    a + ("," + (CsvEscape(b) + ("," + (CsvEscape(c) + ("," + (CsvEscape(d) + ("," + (CsvEscape(e) + ("," + (f + "\n"))))))))))
  }

  lemma {:induction false} WriteRowCons(f: string, row: Row, eol: string)
    requires row != []
    ensures WriteRow([f] + row, eol) == CsvEscape(f) + ("," + WriteRow(row, eol))
  {
    assert ([f] + row)[1..] == row;
  }

  lemma {:induction false} SixFields(a: string, b: string, c: string, d: string, e: string, f: string)
    requires !NeedsQuotes(a) && !NeedsQuotes(f)
    ensures WriteRow([a, b, c, d, e, f], "\n") == Line(a, b, c, d, e, f)
  {
    WriteRowCons(e, [f], "\n");
    WriteRowCons(d, [e, f], "\n");
    WriteRowCons(c, [d, e, f], "\n");
    WriteRowCons(b, [c, d, e, f], "\n");
    WriteRowCons(a, [b, c, d, e, f], "\n");
    assert [e] + [f] == [e, f] && [d] + [e, f] == [d, e, f] && [c] + [d, e, f] == [c, d, e, f];
    assert [b] + [c, d, e, f] == [b, c, d, e, f] && [a] + [b, c, d, e, f] == [a, b, c, d, e, f];
  }

  lemma {:induction false} HeaderTail()
    ensures "detail" + ("," + ("ip" + ("," + ("ok" + "\n")))) == "detail,ip,ok\n"
  {
    assert "ip" + ("," + ("ok" + "\n")) == "ip,ok\n";
  }

  lemma {:induction false} HeaderMiddle()
    ensures "action" + ("," + "detail,ip,ok\n") == "action,detail,ip,ok\n"
  {
  }

  lemma {:induction false} HeaderHead()
    ensures "time" + ("," + ("user" + ("," + "action,detail,ip,ok\n"))) == "time,user,action,detail,ip,ok\n"
  {
    assert "user" + ("," + "action,detail,ip,ok\n") == "user,action,detail,ip,ok\n";
  }

  lemma {:induction false} PlainWords()
    ensures CsvEscape("user") == "user" && CsvEscape("action") == "action"
    ensures CsvEscape("detail") == "detail" && CsvEscape("ip") == "ip"
  {
    Lowercase("user");
    Lowercase("action");
    Lowercase("detail");
    Lowercase("ip");
  }

  lemma {:induction false} Lowercase(s: string)
    requires forall i | 0 <= i < |s| :: 'a' <= s[i] <= 'z'
    ensures !NeedsQuotes(s)
  {
  }

  lemma {:induction false} HeaderText()
    ensures Line("time", "user", "action", "detail", "ip", "ok") == "time,user,action,detail,ip,ok\n"
  {
    PlainWords();
    HeaderTail();
    HeaderMiddle();
    HeaderHead();
  }

  lemma {:induction false} HeaderLine(rows: seq<Row>)
    ensures WrittenTo(rows, 0) == "time,user,action,detail,ip,ok\n"
  {
    SixFields("time", "user", "action", "detail", "ip", "ok");
    HeaderText();
    assert [HEADER] + rows[..0] == [] + [HEADER];
    TableSnoc([], HEADER, "\n");
  }

  // ------------------------------------------------------------------ the reader

  /** Where the reader is: before a field, in an unquoted or quoted field, after a quote inside a
      quoted field, or after a CR that must begin a row end. */
  datatype Mode = Start | Plain | Quoted | AfterQuote | AfterCr | Broken

  datatype Reader = Reader(mode: Mode, field: string, row: Row, rows: seq<Row>)

  const BEGIN := Reader(Start, "", [], [])

  function EndField(r: Reader): Reader {
    Reader(Start, "", r.row + [r.field], r.rows)
  }

  function EndRow(r: Reader): Reader {
    Reader(Start, "", [], r.rows + [r.row + [r.field]])
  }

  function Add(r: Reader, mode: Mode, c: char): Reader {
    r.(mode := mode, field := r.field + [c])
  }

  function Read(r: Reader, c: char): Reader {
    match r.mode
    case Broken => r
    case Quoted => if c == '"' then r.(mode := AfterQuote) else Add(r, Quoted, c)
    case AfterCr => if c == '\n' then EndRow(r) else r.(mode := Broken)
    case Start =>
      if c == '"' then r.(mode := Quoted)
      else if c == ',' then EndField(r)
      else if c == '\n' then EndRow(r)
      else if c == '\r' then r.(mode := AfterCr)
      else Add(r, Plain, c)
    case Plain =>
      if c == '"' then r.(mode := Broken)
      else if c == ',' then EndField(r)
      else if c == '\n' then EndRow(r)
      else if c == '\r' then r.(mode := AfterCr)
      else Add(r, Plain, c)
    case AfterQuote =>
      if c == '"' then Add(r, Quoted, '"')
      else if c == ',' then EndField(r)
      else if c == '\n' then EndRow(r)
      else if c == '\r' then r.(mode := AfterCr)
      else r.(mode := Broken)
  }

  function ReadAll(r: Reader, s: string): Reader
    decreases |s|
  {
    if s == "" then r else ReadAll(Read(r, s[0]), s[1..])
  }

  /** The rows of a text; the last row may lack its line end. */
  function ReadTable(s: string): Option<seq<Row>> {
    var r := ReadAll(BEGIN, s);
    match r.mode
    case Broken => None
    case Quoted => None
    case AfterCr => None
    case Start => if r.row == [] then Some(r.rows) else Some(EndRow(r).rows)
    case _ => Some(EndRow(r).rows)
  }

  // -------------------------------------------------------------- the round trip

  lemma {:induction false} ReadConcat(r: Reader, a: string, b: string)
    ensures ReadAll(r, a + b) == ReadAll(ReadAll(r, a), b)
    decreases |a|
  {
    if a == "" {
      assert a + b == b;
    } else {
      assert (a + b)[0] == a[0] && (a + b)[1..] == a[1..] + b;
      ReadConcat(Read(r, a[0]), a[1..], b);
    }
  }

  lemma {:induction false} ReadOne(r: Reader, c: char)
    ensures ReadAll(r, [c]) == Read(r, c)
  {
    assert [c][1..] == "";
  }

  /** Inside quotes, doubled quotes read as the original text. */
  lemma {:induction false} ReadDoubled(r: Reader, s: string)
    requires r.mode == Quoted
    ensures ReadAll(r, DoubleQuotes(s)) == r.(field := r.field + s)
    decreases |s|
  {
    if s == "" {
      assert r.field + s == r.field;
    } else {
      var first := if s[0] == '"' then "\"\"" else [s[0]];
      var next := Add(r, Quoted, s[0]);
      assert ReadAll(r, first) == next by {
        if s[0] == '"' {
          assert "\"\""[0] == '"' && "\"\""[1..] == ['"'];
          ReadOne(r.(mode := AfterQuote), '"');
        } else {
          ReadOne(r, s[0]);
        }
      }
      ReadConcat(r, first, DoubleQuotes(s[1..]));
      ReadDoubled(next, s[1..]);
      assert r.field + s == next.field + s[1..];
    }
  }

  lemma {:induction false} ReadPlain(r: Reader, s: string)
    requires r.mode == Plain && !NeedsQuotes(s)
    ensures ReadAll(r, s) == r.(field := r.field + s)
    decreases |s|
  {
    if s == "" {
      assert r.field + s == r.field;
    } else {
      assert s[0] in s && forall c | c in s[1..] :: c in s;
      ReadPlain(Add(r, Plain, s[0]), s[1..]);
      assert r.field + s == r.field + [s[0]] + s[1..];
    }
  }

  /** Reading an escaped field, in whichever mode it leaves the reader, collects the field. */
  lemma {:induction false} ReadField(r: Reader, f: string)
    requires r.mode == Start && r.field == ""
    ensures ReadAll(r, CsvEscape(f)) ==
            r.(field := f, mode := if NeedsQuotes(f) then AfterQuote else if f == "" then Start else Plain)
  {
    if NeedsQuotes(f) {
      var quoted := r.(mode := Quoted);
      ReadDoubled(quoted, f);
      assert quoted.field + f == f;
      ReadOne(quoted.(field := f), '"');
      ReadConcat(quoted, DoubleQuotes(f), "\"");
      var text := "\"" + DoubleQuotes(f) + "\"";
      assert text[0] == '"' && text[1..] == DoubleQuotes(f) + "\"";
    } else if f != "" {
      assert f[0] in f && forall c | c in f[1..] :: c in f;
      ReadPlain(Add(r, Plain, f[0]), f[1..]);
      assert "" + [f[0]] + f[1..] == f;
    }
  }

  predicate IsEol(eol: string) {
    eol == "\n" || eol == "\r\n"
  }

  lemma {:induction false} ReadEol(r: Reader, eol: string)
    requires IsEol(eol) && r.mode in {Start, Plain, AfterQuote}
    ensures ReadAll(r, eol) == EndRow(r)
  {
    if eol == "\n" {
      ReadOne(r, '\n');
    } else {
      assert eol[0] == '\r' && eol[1..] == ['\n'];
      ReadOne(r.(mode := AfterCr), '\n');
    }
  }

  lemma {:induction false} ReadRow(r: Reader, row: Row, eol: string)
    requires r.mode == Start && r.field == "" && row != [] && IsEol(eol)
    ensures ReadAll(r, WriteRow(row, eol)) == Reader(Start, "", [], r.rows + [r.row + row])
    decreases |row|
  {
    var after := ReadAll(r, CsvEscape(row[0]));
    ReadField(r, row[0]);
    if |row| == 1 {
      ReadEol(after, eol);
      ReadConcat(r, CsvEscape(row[0]), eol);
      assert row == [row[0]];
    } else {
      var next := EndField(after);
      ReadOne(after, ',');
      ReadRow(next, row[1..], eol);
      ReadConcat(after, ",", WriteRow(row[1..], eol));
      ReadConcat(r, CsvEscape(row[0]), "," + WriteRow(row[1..], eol));
      assert r.row + row == next.row + row[1..];
    }
  }

  /** Reading back what was written returns every row and field, whatever the fields hold. */
  lemma {:induction false} TableRoundTrip(rows: seq<Row>, eol: string)
    requires (forall i | 0 <= i < |rows| :: rows[i] != []) && IsEol(eol)
    ensures ReadAll(BEGIN, WriteTable(rows, eol)) == Reader(Start, "", [], rows)
    ensures ReadTable(WriteTable(rows, eol)) == Some(rows)
  {
    if rows != [] {
      var init, last := rows[..|rows| - 1], rows[|rows| - 1];
      TableRoundTrip(init, eol);
      ReadRow(Reader(Start, "", [], init), last, eol);
      ReadConcat(BEGIN, WriteTable(init, eol), WriteRow(last, eol));
      assert [] + last == last && init + [last] == rows;
    }
  }

  lemma {:induction false} EntryRowsAreFull(entries: seq<Audit.Entry>, format: int -> string)
    ensures |EntryRows(entries, format)| == |entries|
    ensures forall i | 0 <= i < |entries| :: EntryRows(entries, format)[i] == EntryRow(entries[i], format)
  {
    if entries != [] {
      EntryRowsAreFull(entries[1..], format);
    }
  }

  /** The export reads back as its header and one row for each entry. */
  lemma {:induction false} ExportRoundTrip(entries: seq<Audit.Entry>, format: int -> string)
    ensures ReadTable(WriteTable([HEADER] + EntryRows(entries, format), "\n")) ==
            Some([HEADER] + EntryRows(entries, format))
  {
    EntryRowsAreFull(entries, format);
    TableRoundTrip([HEADER] + EntryRows(entries, format), "\n");
  }

  // ------------------------------------------------------------- what is written

  /** A field is quoted exactly when it holds a comma, a quote, or a line break character. */
  lemma {:induction false} EscapeMeans(s: string)
    ensures CsvEscape(s) == s <==> ',' !in s && '"' !in s && '\n' !in s && '\r' !in s
    ensures CsvEscape(s) != s ==> CsvEscape(s) == ['"'] + DoubleQuotes(s) + ['"']
  {
    if NeedsQuotes(s) {
      DoubledLength(s);
    }
  }

  lemma {:induction false} DoubledLength(s: string)
    ensures |DoubleQuotes(s)| >= |s|
  {
    if s != "" {
      DoubledLength(s[1..]);
    }
  }

  /** Quotes are doubled, and nothing else is changed. */
  lemma {:induction false} QuotesAreDoubled(a: string, b: string)
    ensures '"' !in a ==> DoubleQuotes(a) == a
    ensures DoubleQuotes(a + ['"'] + b) == DoubleQuotes(a) + ['"', '"'] + DoubleQuotes(b)
  {
    var s := a + ['"'] + b;
    if a == "" {
      assert s[1..] == b;
    } else {
      assert s[1..] == a[1..] + ['"'] + b;
      QuotesAreDoubled(a[1..], b);
      assert forall c | c in a[1..] :: c in a;
      var first := if a[0] == '"' then "\"\"" else [a[0]];
      assert first + (DoubleQuotes(a[1..]) + ['"', '"'] + DoubleQuotes(b)) ==
             first + DoubleQuotes(a[1..]) + ['"', '"'] + DoubleQuotes(b);
    }
  }

  /** The export reads back as the six column names and, for each entry, its six values in that order. */
  lemma {:induction false} ExportReadsBack(entries: seq<Audit.Entry>, format: int -> string) returns (rows: seq<Row>)
    ensures ReadTable(WriteTable([HEADER] + EntryRows(entries, format), "\n")) == Some(rows)
    ensures |rows| == |entries| + 1 && rows[0] == ["time", "user", "action", "detail", "ip", "ok"]
    ensures forall i | 0 <= i < |entries| ::
              var e := entries[i];
              rows[i + 1] == [format(e.time), e.user, e.action, e.detail, e.ip, if e.ok then "true" else "false"]
  {
    rows := [HEADER] + EntryRows(entries, format);
    EntryRowsAreFull(entries, format);
    ExportRoundTrip(entries, format);
  }

  function Escaped(row: Row): seq<string> {
    if row == [] then [] else [CsvEscape(row[0])] + Escaped(row[1..])
  }

  /** A row is its escaped fields with commas between them, and the line end. */
  lemma {:induction false} RowText(row: Row, eol: string)
    ensures WriteRow(row, eol) == Text.Join(Escaped(row), [',']) + eol
  {
    if row == [] {
      assert "" + eol == eol;
    } else if |row| == 1 {
      assert Escaped(row[1..]) == [];
    } else {
      RowText(row[1..], eol);
      var first, rest := CsvEscape(row[0]), Text.Join(Escaped(row[1..]), [',']);
      assert Escaped(row)[1..] == Escaped(row[1..]) && |Escaped(row)| > 1;
      assert first + ("," + (rest + eol)) == first + [','] + rest + eol;
    }
  }
}
