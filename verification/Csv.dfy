/** The CSV printer, against a parser for section 2 of RFC 4180 with LF as the line break. */
module Csv {

  /** What a cell holds: a string, or another value that is written as its text. A missing
      value is written as the empty text. */
  datatype Cell = Str(s: string) | Raw(text: string)

  predicate Special(c: char) {
    c == ',' || c == '"' || c == '\n'
  }

  predicate Clean(s: string) {
    forall i :: 0 <= i < |s| ==> !Special(s[i])
  }

  function DoubleQuotes(s: string): string {
    if s == [] then []
    else DoubleQuotes(s[..|s| - 1]) + if s[|s| - 1] == '"' then "\"\"" else [s[|s| - 1]]
  }

  function Encode(s: string): string {
    if Clean(s) then s else "\"" + DoubleQuotes(s) + "\""
  }

  function Written(cell: Cell): string {
    match cell
    case Str(s) => Encode(s)
    case Raw(text) => text
  }

  function TextOf(cell: Cell): string {
    match cell
    case Str(s) => s
    case Raw(text) => text
  }

  function Join(parts: seq<string>, separator: char): string {
    if parts == [] then ""
    else if |parts| == 1 then parts[0]
    else Join(parts[..|parts| - 1], separator) + [separator] + parts[|parts| - 1]
  }

  type Row = map<string, Cell>

  function CellAt(row: Row, key: string): Cell {
    if key in row then row[key] else Raw("")
  }

  function Cells(row: Row, keys: seq<string>): (r: seq<Cell>)
    ensures |r| == |keys| && forall i :: 0 <= i < |keys| ==> r[i] == CellAt(row, keys[i])
  {
    seq(|keys|, i requires 0 <= i < |keys| => CellAt(row, keys[i]))
  }

  /** The header is a row of raw texts. */
  function Header(keys: seq<string>): (r: seq<Cell>)
    ensures |r| == |keys| && forall i :: 0 <= i < |keys| ==> r[i] == Raw(keys[i])
  {
    seq(|keys|, i requires 0 <= i < |keys| => Raw(keys[i]))
  }

  function Table(data: seq<Row>, keys: seq<string>): (t: seq<seq<Cell>>)
    ensures |t| == |data| + 1 && t[0] == Header(keys)
    ensures forall i :: 0 <= i < |data| ==> t[i + 1] == Cells(data[i], keys)
  {
    [Header(keys)] + seq(|data|, i requires 0 <= i < |data| => Cells(data[i], keys))
  }

  function Map<A, B>(f: A -> B, s: seq<A>): (r: seq<B>)
    ensures |r| == |s| && forall i :: 0 <= i < |s| ==> r[i] == f(s[i])
  {
    seq(|s|, i requires 0 <= i < |s| => f(s[i]))
  }

  function PrintRow(row: seq<Cell>): string {
    Join(Map(Written, row), ',')
  }

  function Print(table: seq<seq<Cell>>): string {
    Join(Map(PrintRow, table), '\n')
  }

  lemma HeaderIsWrittenRaw(keys: seq<string>)
    ensures Map(Written, Header(keys)) == keys
  {
  }

  method CreateCSVData(data: seq<Row>, keys: seq<string>) returns (csv: string)
    ensures csv == if data == [] then "" else Print(Table(data, keys))
    ensures data != [] && keys != [] && NeedsNoQuotes(data, keys) ==> Parse(csv) == Parsed(Records(data, keys))
  {
    if |data| == 0 {
      return "";
    }
    hide Join, Written, NeedsNoQuotes, Records, Parse;
    ghost var table := Table(data, keys);
    var csvRows := [Join(keys, ',')];
    HeaderIsWrittenRaw(keys);
    for i := 0 to |data|
      invariant |csvRows| == i + 1 && forall k :: 0 <= k <= i ==> csvRows[k] == PrintRow(table[k])
    {
      var values := Map(Written, Cells(data[i], keys));
      csvRows := csvRows + [Join(values, ',')];
    }
    assert csvRows == Map(PrintRow, table);
    csv := Join(csvRows, '\n');
    RoundTrip(data, keys);
  }

  // The parser: one character at a time.

  datatype Mode = FieldStart | Unquoted | Quoted | AfterQuote

  datatype State =
    | Reading(records: seq<seq<string>>, record: seq<string>, field: string, mode: Mode)
    | Malformed

  datatype Parsed = Parsed(records: seq<seq<string>>) | Error

  function EndField(s: State): State
    requires s.Reading?
  {
    Reading(s.records, s.record + [s.field], "", FieldStart)
  }

  function EndRecord(s: State): State
    requires s.Reading?
  {
    Reading(s.records + [s.record + [s.field]], [], "", FieldStart)
  }

  /** A quote opens a field only at its start; inside a quoted field two quotes stand for one;
      after the closing quote the field must end. */
  function Step(s: State, c: char): State {
    if s.Malformed? then s
    else if s.mode == Quoted then
      if c == '"' then s.(mode := AfterQuote) else s.(field := s.field + [c])
    else if c == ',' then EndField(s)
    else if c == '\n' then EndRecord(s)
    else if c == '"' then
      if s.mode == FieldStart then s.(mode := Quoted)
      else if s.mode == AfterQuote then s.(field := s.field + [c], mode := Quoted)
      else Malformed
    else if s.mode == AfterQuote then Malformed
    else s.(field := s.field + [c], mode := Unquoted)
  }

  function Scan(s: State, text: string): State {
    if text == [] then s else Step(Scan(s, text[..|text| - 1]), text[|text| - 1])
  }

  const BEGIN := Reading([], [], "", FieldStart)

  function Parse(text: string): Parsed {
    var s := Scan(BEGIN, text);
    if s.Malformed? || s.mode == Quoted then Error else Parsed(EndRecord(s).records)
  }

  lemma {:induction false} ScanConcat(s: State, a: string, b: string)
    ensures Scan(s, a + b) == Scan(Scan(s, a), b)
  {
    if b == [] {
      assert a + b == a;
    } else {
      var n := |b| - 1;
      ScanConcat(s, a, b[..n]);
      assert (a + b)[..|a + b| - 1] == a + b[..n];
    }
  }

  // What the parser makes of what is printed.

  lemma {:induction false} ScanClean(records: seq<seq<string>>, record: seq<string>, text: string)
    requires Clean(text)
    ensures Scan(Reading(records, record, "", FieldStart), text) ==
            Reading(records, record, text, if text == [] then FieldStart else Unquoted)
  {
    if text != [] {
      var n := |text| - 1;
      ScanClean(records, record, text[..n]);
      assert text == text[..n] + [text[n]];
    }
  }

  lemma DoubleQuotesOneMore(text: string)
    requires text != []
    ensures var n := |text| - 1;
            DoubleQuotes(text) == DoubleQuotes(text[..n]) + if text[n] == '"' then ['"', '"'] else [text[n]]
  {
  }

  lemma {:induction false} ScanQuoted(records: seq<seq<string>>, record: seq<string>, text: string)
    ensures Scan(Reading(records, record, "", Quoted), DoubleQuotes(text)) == Reading(records, record, text, Quoted)
  {
    if text != [] {
      hide Scan, DoubleQuotes;
      var n := |text| - 1;
      var s, inner := Reading(records, record, "", Quoted), DoubleQuotes(text[..n]);
      ScanQuoted(records, record, text[..n]);
      DoubleQuotesOneMore(text);
      assert text == text[..n] + [text[n]];
      var reached := Reading(records, record, text[..n], Quoted);
      if text[n] == '"' {
        ScanConcat(s, inner, ['"', '"']);
        ScanTwo(reached, '"', '"');
      } else {
        ScanConcat(s, inner, [text[n]]);
        ScanOne(reached, text[n]);
      }
    }
  }

  lemma ScanOne(s: State, c: char)
    ensures Scan(s, [c]) == Step(s, c)
  {
    assert [c][..0] == [];
  }

  lemma ScanTwo(s: State, c: char, d: char)
    ensures Scan(s, [c, d]) == Step(Step(s, c), d)
  {
    ScanOne(s, c);
    assert [c, d][..1] == [c];
  }

  /** A printed cell is read as its text, and the reader is where a field may end. */
  lemma ScanWritten(records: seq<seq<string>>, record: seq<string>, cell: Cell)
    requires cell.Raw? ==> Clean(cell.text)
    ensures var s := Scan(Reading(records, record, "", FieldStart), Written(cell));
            s.Reading? && s.mode != Quoted && s == Reading(records, record, TextOf(cell), s.mode)
  {
    var text := TextOf(cell);
    var s := Reading(records, record, "", FieldStart);
    if Clean(text) {
      ScanClean(records, record, text);
    } else {
      var inner := DoubleQuotes(text);
      ScanConcat(s, "\"" + inner, "\"");
      ScanConcat(s, "\"", inner);
      ScanOne(s, '"');
      ScanQuoted(records, record, text);
      ScanOne(Reading(records, record, text, Quoted), '"');
    }
  }

  ghost predicate RawIsClean(row: seq<Cell>) {
    forall i :: 0 <= i < |row| && row[i].Raw? ==> Clean(row[i].text)
  }

  lemma PrintRowOneMore(row: seq<Cell>)
    requires |row| > 1
    ensures var n := |row| - 1; PrintRow(row) == PrintRow(row[..n]) + [','] + Written(row[n])
  {
    assert Map(Written, row)[..|row| - 1] == Map(Written, row[..|row| - 1]);
  }

  lemma {:induction false} ScanRow(records: seq<seq<string>>, row: seq<Cell>)
    requires row != [] && RawIsClean(row)
    ensures var s := Scan(Reading(records, [], "", FieldStart), PrintRow(row));
            s.Reading? && s.mode != Quoted && s.records == records && s.record + [s.field] == Map(TextOf, row)
  {
    hide Scan, Written, Join;
    var n := |row| - 1;
    var begin := Reading(records, [], "", FieldStart);
    if n == 0 {
      ScanWritten(records, [], row[0]);
      PrintOneCell(row);
      assert Map(TextOf, row) == [] + [TextOf(row[0])];
    } else {
      var init, printed := row[..n], PrintRow(row[..n]);
      hide PrintRow;
      ScanRow(records, init);
      PrintRowOneMore(row);
      ScanConcat(begin, printed + [','], Written(row[n]));
      ScanConcat(begin, printed, [',']);
      ScanOne(Scan(begin, printed), ',');
      ScanWritten(records, Map(TextOf, init), row[n]);
      assert Map(TextOf, row) == Map(TextOf, init) + [TextOf(row[n])];
    }
  }

  lemma PrintOneCell(row: seq<Cell>)
    requires |row| == 1
    ensures PrintRow(row) == Written(row[0])
  {
  }

  ghost predicate WellFormed(table: seq<seq<Cell>>) {
    forall i :: 0 <= i < |table| ==> table[i] != [] && RawIsClean(table[i])
  }

  function Texts(table: seq<seq<Cell>>): seq<seq<string>> {
    Map(row => Map(TextOf, row), table)
  }

  lemma {:induction false} ScanTable(table: seq<seq<Cell>>)
    requires table != [] && WellFormed(table)
    ensures var s := Scan(BEGIN, Print(table));
            s.Reading? && s.mode != Quoted && s.records + [s.record + [s.field]] == Texts(table)
  {
    hide Scan, PrintRow;
    var n := |table| - 1;
    if n == 0 {
      ScanRow([], table[0]);
      assert Texts(table) == [] + [Map(TextOf, table[0])];
    } else {
      var init := table[..n];
      ScanTable(init);
      assert Map(PrintRow, table)[..n] == Map(PrintRow, init);
      assert Texts(table) == Texts(init) + [Map(TextOf, table[n])];
      var s := Scan(BEGIN, Print(init));
      ScanConcat(BEGIN, Print(init) + "\n", PrintRow(table[n]));
      ScanConcat(BEGIN, Print(init), "\n");
      ScanOne(s, '\n');
      ScanRow(Texts(init), table[n]);
    }
  }

  // Why nothing else can be read back: a table needs a text of at least a certain length.

  function Quotes(s: string): nat {
    if s == [] then 0 else Quotes(s[..|s| - 1]) + if s[|s| - 1] == '"' then 1 else 0
  }

  /** The length of the shortest text that is read as this field. */
  function FieldSize(s: string): nat {
    if Clean(s) then |s| else |s| + Quotes(s) + 2
  }

  /** Every field counts one more, for the separator after it. */
  function RecordSize(record: seq<string>): nat {
    if record == [] then 0 else RecordSize(record[..|record| - 1]) + FieldSize(record[|record| - 1]) + 1
  }

  function TableSize(records: seq<seq<string>>): nat {
    if records == [] then 0 else TableSize(records[..|records| - 1]) + RecordSize(records[|records| - 1])
  }

  function OpenSize(field: string, mode: Mode): nat {
    match mode
    case FieldStart => 0
    case Unquoted => |field|
    case Quoted => |field| + Quotes(field) + 1
    case AfterQuote => |field| + Quotes(field) + 2
  }

  ghost predicate Consistent(s: State) {
    s.Reading? ==> (s.mode == FieldStart ==> s.field == "") && (s.mode == Unquoted ==> Clean(s.field))
  }

  function Size(s: State): nat
    requires s.Reading?
  {
    TableSize(s.records) + RecordSize(s.record) + OpenSize(s.field, s.mode)
  }

  lemma QuotesOneMore(s: string, c: char)
    ensures Quotes(s + [c]) == Quotes(s) + if c == '"' then 1 else 0
    ensures Quotes("") == 0
  {
    assert (s + [c])[..|s|] == s;
  }

  lemma RecordSizeOneMore(record: seq<string>, field: string)
    ensures RecordSize(record + [field]) == RecordSize(record) + FieldSize(field) + 1
    ensures RecordSize([]) == 0
  {
    assert (record + [field])[..|record|] == record;
  }

  lemma TableSizeOneMore(records: seq<seq<string>>, record: seq<string>)
    ensures TableSize(records + [record]) == TableSize(records) + RecordSize(record)
  {
    assert (records + [record])[..|records|] == records;
  }

  /** Each character read accounts for at most one unit of size. */
  lemma StepGrowsByOne(s: State, c: char)
    requires s.Reading? && Consistent(s)
    ensures var s' := Step(s, c); Consistent(s') && (s'.Reading? ==> Size(s') <= Size(s) + 1)
  {
    hide Quotes, RecordSize, TableSize;
    QuotesOneMore(s.field, c);
    RecordSizeOneMore(s.record, s.field);
    TableSizeOneMore(s.records, s.record + [s.field]);
  }

  lemma {:induction false} ScanIsLongEnough(text: string)
    ensures var s := Scan(BEGIN, text); Consistent(s) && (s.Reading? ==> Size(s) <= |text|)
  {
    if text != [] {
      var n := |text| - 1;
      ScanIsLongEnough(text[..n]);
      var s := Scan(BEGIN, text[..n]);
      if s.Reading? {
        StepGrowsByOne(s, text[n]);
      }
    }
  }

  lemma ParsedIsNoLarger(text: string)
    requires Parse(text).Parsed?
    ensures TableSize(Parse(text).records) <= |text| + 1
  {
    ScanIsLongEnough(text);
    var s := Scan(BEGIN, text);
    RecordSizeOneMore(s.record, s.field);
    TableSizeOneMore(s.records, s.record + [s.field]);
  }

  // What is printed has exactly that length, less what is missing around dirty raw texts.

  lemma {:induction false} DoubledLength(s: string)
    ensures |DoubleQuotes(s)| == |s| + Quotes(s)
  {
    if s != [] {
      DoubledLength(s[..|s| - 1]);
    }
  }

  lemma WrittenSize(cell: Cell)
    ensures |Written(cell)| <= FieldSize(TextOf(cell))
    ensures cell.Raw? && !Clean(cell.text) ==> |Written(cell)| < FieldSize(cell.text)
  {
    DoubledLength(TextOf(cell));
  }

  lemma {:induction false} PrintedRowSize(row: seq<Cell>)
    requires row != []
    ensures |PrintRow(row)| + 1 <= RecordSize(Map(TextOf, row))
    ensures !RawIsClean(row) ==> |PrintRow(row)| + 1 < RecordSize(Map(TextOf, row))
  {
    hide Written, FieldSize, Join, RecordSize;
    var n := |row| - 1;
    var init, last := row[..n], TextOf(row[n]);
    WrittenSize(row[n]);
    assert Map(TextOf, row) == Map(TextOf, init) + [last];
    RecordSizeOneMore(Map(TextOf, init), last);
    if n == 0 {
      PrintOneCell(row);
      assert Map(TextOf, init) == [];
    } else {
      hide PrintRow;
      PrintedRowSize(init);
      PrintRowOneMore(row);
      assert !RawIsClean(row) ==> !RawIsClean(init) || (row[n].Raw? && !Clean(row[n].text));
    }
  }

  lemma PrintOneMore(table: seq<seq<Cell>>)
    requires |table| > 1
    ensures var n := |table| - 1; Print(table) == Print(table[..n]) + ['\n'] + PrintRow(table[n])
  {
    assert Map(PrintRow, table)[..|table| - 1] == Map(PrintRow, table[..|table| - 1]);
  }

  lemma PrintOneRow(table: seq<seq<Cell>>)
    requires |table| == 1
    ensures Print(table) == PrintRow(table[0])
  {
  }

  lemma {:induction false} PrintedSize(table: seq<seq<Cell>>)
    requires table != [] && forall i :: 0 <= i < |table| ==> table[i] != []
    ensures |Print(table)| + 1 <= TableSize(Texts(table))
    ensures !WellFormed(table) ==> |Print(table)| + 1 < TableSize(Texts(table))
  {
    hide PrintRow, Join, RecordSize, TableSize;
    var n := |table| - 1;
    var init := table[..n];
    PrintedRowSize(table[n]);
    assert Texts(table) == Texts(init) + [Map(TextOf, table[n])];
    TableSizeOneMore(Texts(init), Map(TextOf, table[n]));
    if n == 0 {
      PrintOneRow(table);
      assert Texts(init) == [];
      NoRecords();
    } else {
      hide Print;
      PrintedSize(init);
      PrintOneMore(table);
      assert !WellFormed(table) ==> !WellFormed(init) || !RawIsClean(table[n]);
    }
  }

  lemma NoRecords()
    ensures TableSize([]) == 0
  {
  }

  lemma LastRecordHasField(text: string)
    ensures var p := Parse(text); p.Parsed? ==> p.records != [] && p.records[|p.records| - 1] != []
  {
  }

  lemma ParsedTable(table: seq<seq<Cell>>)
    requires table != [] && WellFormed(table)
    ensures Parse(Print(table)) == Parsed(Texts(table))
  {
    hide Print, Scan;
    ScanTable(table);
  }

  /** A table that is not well-formed is printed too short to be read back. */
  lemma DirtyTableIsLost(table: seq<seq<Cell>>)
    requires table != [] && (forall i :: 0 <= i < |table| ==> table[i] != []) && !WellFormed(table)
    ensures Parse(Print(table)) != Parsed(Texts(table))
  {
    hide Print, Parse, Texts, TableSize, WellFormed;
    PrintedSize(table);
    if Parse(Print(table)).Parsed? {
      ParsedIsNoLarger(Print(table));
    }
  }

  lemma EmptyRowIsLost(table: seq<seq<Cell>>)
    requires table != [] && table[|table| - 1] == []
    ensures Parse(Print(table)) != Parsed(Texts(table))
  {
    hide Print, Parse;
    LastRecordHasField(Print(table));
    assert Texts(table)[|table| - 1] == [];
  }

  /** The records that a reader of the file expects: the keys, and for each row the text of its
      value for each key, empty where it has none. */
  ghost function Records(data: seq<Row>, keys: seq<string>): (r: seq<seq<string>>)
    ensures |r| == |data| + 1 && r[0] == keys
    ensures forall i :: 1 <= i <= |data| ==> |r[i]| == |keys|
    ensures forall i, j :: 1 <= i <= |data| && 0 <= j < |keys| ==>
              r[i][j] == if keys[j] in data[i - 1] then TextOf(data[i - 1][keys[j]]) else ""
  {
    [keys] + seq(|data|, i requires 0 <= i < |data| =>
                   seq(|keys|, j requires 0 <= j < |keys| => if keys[j] in data[i] then TextOf(data[i][keys[j]]) else ""))
  }

  /** Every key, and every value under a key that is not a string, is free of commas, quotes and
      line breaks. */
  ghost predicate NeedsNoQuotes(data: seq<Row>, keys: seq<string>) {
    && (forall j :: 0 <= j < |keys| ==> Clean(keys[j]))
    && (forall i, j :: 0 <= i < |data| && 0 <= j < |keys| && keys[j] in data[i] && data[i][keys[j]].Raw? ==>
          Clean(data[i][keys[j]].text))
  }

  lemma TextsAreRecords(data: seq<Row>, keys: seq<string>)
    ensures Texts(Table(data, keys)) == Records(data, keys)
  {
    var t, r := Texts(Table(data, keys)), Records(data, keys);
    forall i | 0 <= i < |r|
      ensures t[i] == r[i]
    {
      if i > 0 {
        assert t[i] == Map(TextOf, Cells(data[i - 1], keys));
        assert forall j :: 0 <= j < |keys| ==> t[i][j] == r[i][j];
      } else {
        assert t[0] == Map(TextOf, Header(keys));
      }
    }
  }

  lemma CleanTable(data: seq<Row>, keys: seq<string>)
    ensures (forall i :: 0 <= i < |Table(data, keys)| ==> RawIsClean(Table(data, keys)[i])) <==> NeedsNoQuotes(data, keys)
  {
    var t := Table(data, keys);
    CleanHeader(keys);
    forall i | 1 <= i < |t|
      ensures RawIsClean(t[i]) <==>
              forall j :: 0 <= j < |keys| && keys[j] in data[i - 1] && data[i - 1][keys[j]].Raw? ==>
                Clean(data[i - 1][keys[j]].text)
    {
      CleanRow(data[i - 1], keys);
      assert t[i] == t[i - 1 + 1];
    }
    CleanFrom(t, data, keys);
  }

  lemma CleanFrom(t: seq<seq<Cell>>, data: seq<Row>, keys: seq<string>)
    requires |t| == |data| + 1 && (RawIsClean(t[0]) <==> forall j :: 0 <= j < |keys| ==> Clean(keys[j]))
    requires forall i :: 1 <= i < |t| ==>
               (RawIsClean(t[i]) <==>
                forall j :: 0 <= j < |keys| && keys[j] in data[i - 1] && data[i - 1][keys[j]].Raw? ==>
                  Clean(data[i - 1][keys[j]].text))
    ensures (forall i :: 0 <= i < |t| ==> RawIsClean(t[i])) <==> NeedsNoQuotes(data, keys)
  {
    hide RawIsClean, Clean;
    if forall i :: 0 <= i < |t| ==> RawIsClean(t[i]) {
      forall i, j | 0 <= i < |data| && 0 <= j < |keys| && keys[j] in data[i] && data[i][keys[j]].Raw?
        ensures Clean(data[i][keys[j]].text)
      {
        assert RawIsClean(t[i + 1]);
      }
    }
  }

  lemma CleanHeader(keys: seq<string>)
    ensures RawIsClean(Header(keys)) <==> forall j :: 0 <= j < |keys| ==> Clean(keys[j])
  {
    hide Clean;
    var h := Header(keys);
    assert forall j :: 0 <= j < |keys| ==> h[j] == Raw(keys[j]);
  }

  lemma CleanRow(row: Row, keys: seq<string>)
    ensures RawIsClean(Cells(row, keys)) <==>
            forall j :: 0 <= j < |keys| && keys[j] in row && row[keys[j]].Raw? ==> Clean(row[keys[j]].text)
  {
    assert Clean("");
    hide Clean;
    var cells := Cells(row, keys);
    assert forall j :: 0 <= j < |keys| ==> cells[j] == if keys[j] in row then row[keys[j]] else Raw("");
  }

  /** Parsing what was printed gives back the keys and, field by field, the values of the rows
      exactly when there is a column and every raw text, that is every key and every value that
      is not a string, is free of commas, quotes and line breaks. */
  lemma RoundTrip(data: seq<Row>, keys: seq<string>)
    requires data != []
    ensures Parse(Print(Table(data, keys))) == Parsed(Records(data, keys)) <==> keys != [] && NeedsNoQuotes(data, keys)
  {
    hide Print, Parse, Texts, RawIsClean, NeedsNoQuotes, Records;
    var table := Table(data, keys);
    TextsAreRecords(data, keys);
    CleanTable(data, keys);
    assert forall i :: 0 <= i < |table| ==> |table[i]| == |keys|;
    if keys == [] {
      EmptyRowIsLost(table);
    } else if WellFormed(table) {
      ParsedTable(table);
    } else {
      DirtyTableIsLost(table);
    }
  }

  /** The printer wastes nothing: no text at all that parses as these records is shorter than
      what it prints. */
  lemma OutputIsShortest(data: seq<Row>, keys: seq<string>, text: string)
    requires data != [] && keys != [] && Parse(text) == Parsed(Records(data, keys))
    ensures |Print(Table(data, keys))| <= |text|
  {
    hide Print, Parse, Texts, TableSize, Records;
    var table := Table(data, keys);
    TextsAreRecords(data, keys);
    assert forall i :: 0 <= i < |table| ==> |table[i]| == |keys|;
    PrintedSize(table);
    ParsedIsNoLarger(text);
  }

  // A final line break.

  /** A reader that takes a line break at the very end as the end of the last record. */
  function ParseIgnoringFinalBreak(text: string): Parsed {
    if text != [] && text[|text| - 1] == '\n' && Parse(text[..|text| - 1]).Parsed? then Parse(text[..|text| - 1])
    else Parse(text)
  }

  lemma WrittenEnd(cell: Cell)
    requires cell.Raw? ==> Clean(cell.text)
    ensures Written(cell) == "" <==> TextOf(cell) == ""
    ensures Written(cell) != "" ==> Written(cell)[|Written(cell)| - 1] != '\n'
  {
  }

  lemma PrintedRowEnd(row: seq<Cell>)
    requires row != [] && RawIsClean(row)
    ensures PrintRow(row) == "" <==> |row| == 1 && TextOf(row[0]) == ""
    ensures PrintRow(row) != "" ==> PrintRow(row)[|PrintRow(row)| - 1] != '\n'
  {
    hide Written, Join;
    var n := |row| - 1;
    WrittenEnd(row[n]);
    if n == 0 {
      PrintOneCell(row);
    } else {
      PrintRowOneMore(row);
    }
  }

  /** Such a reader loses the last row exactly when it is a single empty cell. */
  lemma FinalBreakLosesEmptyCell(data: seq<Row>, keys: seq<string>)
    requires data != [] && keys != [] && NeedsNoQuotes(data, keys)
    ensures ParseIgnoringFinalBreak(Print(Table(data, keys))) == Parsed(Records(data, keys)) <==>
            !(|keys| == 1 && Records(data, keys)[|data|][0] == "")
  {
    hide Print, PrintRow, Parse;
    var table := Table(data, keys);
    var n := |table| - 1;
    var text, row := Print(table), table[n];
    PrintedRowEnd(row);
    PrintOneMore(table);
    RoundTrip(data, keys);
    if PrintRow(row) == "" {
      var init := table[..n];
      assert text[..|text| - 1] == Print(init);
      ParsedTable(init);
      assert |Texts(init)| != |Texts(table)|;
    }
  }
}
