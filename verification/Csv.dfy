/** The CSV text built for a download, against a quoted-field reader (section 2 of RFC 4180, with a
    line feed between records). */
module Csv {
  import opened Sequences

  /* ----- printing ----- */

  predicate NeedsQuotes(s: string) { ',' in s || '\n' in s || '"' in s }

  /** JavaScript's `s.replace(/"/g, '""')`. */
  function DoubleQuotes(s: string): string {
    if s == "" then "" else (if s[0] == '"' then "\"\"" else [s[0]]) + DoubleQuotes(s[1..])
  }

  function PrintField(s: string): string {
    if NeedsQuotes(s) then "\"" + DoubleQuotes(s) + "\"" else s
  }

  /** A row object: a missing key and a null both print as the empty text. */
  type Row = map<string, Option<string>>

  function CellText(row: Row, header: string): string {
    if header in row && row[header].Some? then row[header].value else ""
  }

  function CellTexts(row: Row, headers: seq<string>): (r: seq<string>)
    ensures |r| == |headers|
  {
    seq(|headers|, i requires 0 <= i < |headers| => CellText(row, headers[i]))
  }

  function PrintRecord(fields: seq<string>): string {
    Join(seq(|fields|, i requires 0 <= i < |fields| => PrintField(fields[i])), ",")
  }

  /** The whole text: the header names go out unquoted. */
  function CsvText(headers: seq<string>, rows: seq<Row>): string {
    Join([Join(headers, ",")] +
         seq(|rows|, i requires 0 <= i < |rows| => PrintRecord(CellTexts(rows[i], headers))), "\n")
  }

  /* ----- reading ----- */

  /** The value of the field at the front of `s`, and what follows the field. */
  function ReadField(s: string): (r: Option<(string, string)>)
    ensures r.Some? ==> |r.value.1| <= |s|
  {
    if s != "" && s[0] == '"' then ReadQuoted(s[1..]) else ReadBare(s)
  }

  /** A bare field runs to the next comma or line feed and has no quote in it. */
  function ReadBare(s: string): (r: Option<(string, string)>)
    ensures r.Some? ==> |r.value.1| <= |s|
  {
    if s == "" || s[0] == ',' || s[0] == '\n' then Some(("", s))
    else if s[0] == '"' then None
    else match ReadBare(s[1..])
      case None => None
      case Some((value, rest)) => Some(([s[0]] + value, rest))
  }

  /** A quoted field runs to its closing quote; two quotes stand for one. */
  function ReadQuoted(s: string): (r: Option<(string, string)>)
    ensures r.Some? ==> |r.value.1| < |s|
  {
    if s == "" then None
    else if s[0] != '"' then
      match ReadQuoted(s[1..])
      case None => None
      case Some((value, rest)) => Some(([s[0]] + value, rest))
    else if |s| > 1 && s[1] == '"' then
      match ReadQuoted(s[2..])
      case None => None
      case Some((value, rest)) => Some(("\"" + value, rest))
    else Some(("", s[1..]))
  }

  function Read(s: string): (r: Option<seq<seq<string>>>)
    ensures r.Some? ==> Tabular(r.value)
    decreases |s|
  {
    match ReadField(s)
    case None => None
    case Some((value, rest)) =>
      if rest == "" then Some([[value]])
      else if rest[0] != ',' && rest[0] != '\n' then None
      else match Read(rest[1..])
        case None => None
        case Some(records) => Some(Prepend(value, rest[0], records))
  }

  /** Some records, each with some field. */
  predicate Tabular(records: seq<seq<string>>) { |records| > 0 && forall i | 0 <= i < |records| :: |records[i]| > 0 }

  /** Put a field before the first field of `records`, in the same record after a comma, else in its own. */
  function Prepend(value: string, separator: char, records: seq<seq<string>>): (r: seq<seq<string>>)
    requires Tabular(records)
    ensures Tabular(r)
  {
    if separator == ',' then [[value] + records[0]] + records[1..] else [[value]] + records
  }

  /* ----- printing every field the way the rows are printed ----- */

  function Print(records: seq<seq<string>>): string {
    Join(seq(|records|, i requires 0 <= i < |records| => PrintRecord(records[i])), "\n")
  }

  lemma PrintRecordStep(value: string, fields: seq<string>)
    requires fields != []
    ensures PrintRecord([value] + fields) == PrintField(value) + "," + PrintRecord(fields)
  {
    var texts := seq(|fields|, i requires 0 <= i < |fields| => PrintField(fields[i]));
    var all := [value] + fields;
    assert seq(|all|, i requires 0 <= i < |all| => PrintField(all[i])) == [PrintField(value)] + texts;
    assert ([PrintField(value)] + texts)[1..] == texts;
  }

  lemma PrintSplit(record: seq<string>, records: seq<seq<string>>)
    ensures Print([record] + records) == if records == [] then PrintRecord(record)
                                         else PrintRecord(record) + "\n" + Print(records)
  {
    var texts := seq(|records|, i requires 0 <= i < |records| => PrintRecord(records[i]));
    var all := [record] + records;
    assert seq(|all|, i requires 0 <= i < |all| => PrintRecord(all[i])) == [PrintRecord(record)] + texts;
    assert ([PrintRecord(record)] + texts)[1..] == texts;
  }

  lemma PrintOne(value: string)
    ensures PrintRecord([value]) == PrintField(value) && Print([[value]]) == PrintField(value)
  {
    PrintSplit([value], []);
    assert [[value]] == [[value]] + [];
  }

  lemma PrintPrepend(value: string, separator: char, records: seq<seq<string>>)
    requires Tabular(records) && (separator == ',' || separator == '\n')
    ensures Print(Prepend(value, separator, records)) == PrintField(value) + [separator] + Print(records)
  {
    var first, others := records[0], records[1..];
    assert records == [first] + others;
    PrintSplit(first, others);
    if separator == ',' {
      PrintRecordStep(value, first);
      PrintSplit([value] + first, others);
      if others != [] {
        assert PrintField(value) + "," + PrintRecord(first) + "\n" + Print(others) ==
               PrintField(value) + "," + (PrintRecord(first) + "\n" + Print(others));
      }
    } else {
      PrintOne(value);
      PrintSplit([value], records);
    }
  }

  /* ----- reading back ----- */

  /** What may follow a field. */
  predicate FieldEnd(rest: string) { rest == "" || rest[0] == ',' || rest[0] == '\n' }

  lemma {:induction false} ReadsBareBack(value: string, rest: string)
    requires !NeedsQuotes(value) && FieldEnd(rest)
    ensures ReadBare(value + rest) == Some((value, rest))
  {
    if value == "" {
      assert value + rest == rest;
    } else {
      assert (value + rest)[1..] == value[1..] + rest;
      ReadsBareBack(value[1..], rest);
      assert value == [value[0]] + value[1..];
    }
  }

  lemma {:induction false} ReadsQuotedBack(value: string, rest: string)
    requires FieldEnd(rest)
    ensures ReadQuoted(DoubleQuotes(value) + "\"" + rest) == Some((value, rest))
  {
    var text := DoubleQuotes(value) + "\"" + rest;
    if value == "" {
      assert text == "\"" + rest && text[1..] == rest;
    } else {
      ReadsQuotedBack(value[1..], rest);
      var tail := DoubleQuotes(value[1..]) + "\"" + rest;
      assert value == [value[0]] + value[1..];
      if value[0] == '"' {
        assert text == "\"\"" + tail && text[2..] == tail;
      } else {
        assert text == [value[0]] + tail && text[1..] == tail;
      }
    }
  }

  lemma ReadsFieldBack(value: string, rest: string)
    requires FieldEnd(rest)
    ensures ReadField(PrintField(value) + rest) == Some((value, rest))
  {
    if NeedsQuotes(value) {
      var body := DoubleQuotes(value) + "\"" + rest;
      assert PrintField(value) + rest == "\"" + body && ("\"" + body)[1..] == body;
      ReadsQuotedBack(value, rest);
    } else {
      ReadsBareBack(value, rest);
      assert value != "" ==> (value + rest)[0] == value[0] && value[0] in value;
    }
  }

  /** Cut the first field off a table. */
  lemma FirstField(records: seq<seq<string>>) returns (separator: char, remaining: seq<seq<string>>)
    requires Tabular(records) && records != [[records[0][0]]]
    ensures Tabular(remaining) && (separator == ',' || separator == '\n')
    ensures records == Prepend(records[0][0], separator, remaining)
    ensures Fields(remaining) < Fields(records)
  {
    var value, first := records[0][0], records[0];
    assert first == [value] + first[1..] && records == [first] + records[1..];
    if |first| > 1 {
      separator, remaining := ',', [first[1..]] + records[1..];
      assert remaining[1..] == records[1..];
    } else {
      separator, remaining := '\n', records[1..];
      assert first == [value];
    }
  }

  ghost function Fields(records: seq<seq<string>>): nat {
    if records == [] then 0 else |records[0]| + Fields(records[1..])
  }

  lemma ReadUnfolds(s: string, value: string, separator: char, tail: string)
    requires separator == ',' || separator == '\n'
    requires ReadField(s) == Some((value, [separator] + tail)) && Read(tail).Some?
    ensures Read(s) == Some(Prepend(value, separator, Read(tail).value))
  {
    assert ([separator] + tail)[1..] == tail;
  }

  lemma ReadsPrependBack(value: string, separator: char, remaining: seq<seq<string>>)
    requires Tabular(remaining) && (separator == ',' || separator == '\n')
    requires Read(Print(remaining)) == Some(remaining)
    ensures Read(Print(Prepend(value, separator, remaining))) == Some(Prepend(value, separator, remaining))
  {
    var tail := Print(remaining);
    PrintPrepend(value, separator, remaining);
    ReadsHeadBack(value, separator, tail);
    ReadUnfolds(PrintField(value) + [separator] + tail, value, separator, tail);
  }

  lemma ReadsHeadBack(value: string, separator: char, tail: string)
    requires separator == ',' || separator == '\n'
    ensures ReadField(PrintField(value) + [separator] + tail) == Some((value, [separator] + tail))
  {
    ReadsFieldBack(value, [separator] + tail);
    assert PrintField(value) + ([separator] + tail) == PrintField(value) + [separator] + tail;
  }

  lemma {:induction false} ReadsBack(records: seq<seq<string>>)
    requires Tabular(records)
    ensures Read(Print(records)) == Some(records)
    decreases Fields(records)
  {
    var value := records[0][0];
    if records == [[value]] {
      PrintOne(value);
      ReadsFieldBack(value, "");
      assert PrintField(value) + "" == PrintField(value);
    } else {
      var separator, remaining := FirstField(records);
      ReadsBack(remaining);
      ReadsPrependBack(value, separator, remaining);
    }
  }

  /* ----- no shorter text reads the same ----- */

  lemma {:induction false} DoubleQuotesGrows(s: string)
    ensures |DoubleQuotes(s)| >= |s|
  {
    if s != "" { DoubleQuotesGrows(s[1..]); }
  }

  lemma {:induction false} BareFieldLength(s: string)
    requires ReadBare(s).Some?
    ensures var (value, rest) := ReadBare(s).value; !NeedsQuotes(value) && |s| == |value| + |rest|
  {
    if s != "" && s[0] != ',' && s[0] != '\n' { BareFieldLength(s[1..]); }
  }

  lemma {:induction false} QuotedFieldLength(s: string)
    requires ReadQuoted(s).Some?
    ensures var (value, rest) := ReadQuoted(s).value; |s| == |DoubleQuotes(value)| + 1 + |rest|
  {
    if s[0] != '"' {
      QuotedFieldLength(s[1..]);
      var value := ReadQuoted(s[1..]).value.0;
      assert ([s[0]] + value)[1..] == value;
    } else if |s| > 1 && s[1] == '"' {
      QuotedFieldLength(s[2..]);
      var value := ReadQuoted(s[2..]).value.0;
      assert ("\"" + value)[1..] == value;
    }
  }

  lemma FieldLength(s: string)
    requires ReadField(s).Some?
    ensures var (value, rest) := ReadField(s).value; |s| >= |PrintField(value)| + |rest|
  {
    if s != "" && s[0] == '"' {
      QuotedFieldLength(s[1..]);
      DoubleQuotesGrows(ReadField(s).value.0);
    } else {
      BareFieldLength(s);
    }
  }

  /** Of all texts that read as a table, the quoted printing is among the shortest. */
  lemma {:induction false} PrintIsShortest(s: string)
    requires Read(s).Some?
    ensures |Print(Read(s).value)| <= |s|
    decreases |s|
  {
    var (value, rest) := ReadField(s).value;
    FieldLength(s);
    if rest == "" {
      PrintOne(value);
    } else {
      PrintIsShortest(rest[1..]);
      PrintPrepend(value, rest[0], Read(rest[1..]).value);
    }
  }

  /* ----- the downloaded text ----- */

  function Table(headers: seq<string>, rows: seq<Row>): seq<seq<string>> {
    [headers] + seq(|rows|, i requires 0 <= i < |rows| => CellTexts(rows[i], headers))
  }

  lemma {:induction false} HeaderQuotesCost(headers: seq<string>)
    ensures |Join(headers, ",")| <= |PrintRecord(headers)|
    ensures |Join(headers, ",")| == |PrintRecord(headers)| ==> forall h | h in headers :: !NeedsQuotes(h)
    ensures (forall h | h in headers :: !NeedsQuotes(h)) ==> Join(headers, ",") == PrintRecord(headers)
  {
    if |headers| == 1 {
      PrintOne(headers[0]);
      assert headers == [headers[0]];
      DoubleQuotesGrows(headers[0]);
    } else if |headers| > 1 {
      HeaderQuotesCost(headers[1..]);
      DoubleQuotesGrows(headers[0]);
      PrintRecordStep(headers[0], headers[1..]);
      assert headers == [headers[0]] + headers[1..];
    }
  }

  lemma CsvTextIsPrinted(headers: seq<string>, rows: seq<Row>)
    ensures |CsvText(headers, rows)| == |Print(Table(headers, rows))| - |PrintRecord(headers)| + |Join(headers, ",")|
    ensures Join(headers, ",") == PrintRecord(headers) ==> CsvText(headers, rows) == Print(Table(headers, rows))
  {
    var cells := seq(|rows|, i requires 0 <= i < |rows| => CellTexts(rows[i], headers));
    var texts := seq(|rows|, i requires 0 <= i < |rows| => PrintRecord(CellTexts(rows[i], headers)));
    assert texts == seq(|cells|, i requires 0 <= i < |cells| => PrintRecord(cells[i]));
    PrintSplit(headers, cells);
    assert ([Join(headers, ",")] + texts)[1..] == texts;
  }

  /** The text reads back as the header row and the rows of cell texts exactly when there is a header
      and no header name holds a comma, a quote or a line feed. */
  lemma CsvReadsBackIffPlainHeaders(headers: seq<string>, rows: seq<Row>)
    ensures Read(CsvText(headers, rows)) == Some(Table(headers, rows)) <==>
            headers != [] && forall h | h in headers :: !NeedsQuotes(h)
  {
    var text, table := CsvText(headers, rows), Table(headers, rows);
    HeaderQuotesCost(headers);
    CsvTextIsPrinted(headers, rows);
    if headers != [] && forall h | h in headers :: !NeedsQuotes(h) {
      ReadsBack(table);
    }
    if Read(text) == Some(table) {
      assert table[0] == headers && table[0] in table;
      PrintIsShortest(text);
    }
  }

  /** With plain header names a reader of the text finds the header row, and then, row by row and column by
      column, the value the row has under the column's name, or nothing if it has none. */
  lemma CellsReadBack(headers: seq<string>, rows: seq<Row>)
    requires headers != [] && forall h | h in headers :: !NeedsQuotes(h)
    ensures var read := Read(CsvText(headers, rows));
            && read.Some? && |read.value| == |rows| + 1 && read.value[0] == headers
            && forall i, j | 0 <= i < |rows| && 0 <= j < |headers| ::
                 && |read.value[i + 1]| == |headers|
                 && (forall text | headers[j] in rows[i] && rows[i][headers[j]] == Some(text) ::
                       read.value[i + 1][j] == text)
                 && (headers[j] !in rows[i] || rows[i][headers[j]] == None ==> read.value[i + 1][j] == "")
  {
    CsvReadsBackIffPlainHeaders(headers, rows);
  }

  /** Tables with plain header names never print alike unless their texts agree cell by cell. */
  lemma DifferentTablesPrintDifferently(h1: seq<string>, rows1: seq<Row>, h2: seq<string>, rows2: seq<Row>)
    requires h1 != [] && h2 != [] && forall h | h in h1 + h2 :: !NeedsQuotes(h)
    requires CsvText(h1, rows1) == CsvText(h2, rows2)
    ensures h1 == h2 && Table(h1, rows1) == Table(h2, rows2)
  {
    assert (forall h | h in h1 :: h in h1 + h2) && (forall h | h in h2 :: h in h1 + h2);
    CsvReadsBackIffPlainHeaders(h1, rows1);
    CsvReadsBackIffPlainHeaders(h2, rows2);
    assert Table(h1, rows1)[0] == h1 && Table(h2, rows2)[0] == h2;
  }
}
