/** The CSV report of the renderer (renderer.js, the report button handler):
    field escaping, the eleven-column row layout and the document layout. The
    quoting follows rules 6 and 7 of section 2 of RFC 4180 (enclose a field that
    holds a special character in double quotes, double every embedded quote), with
    `;` as the delimiter and a bare `\n` as the line separator.

    A lenient reader for that dialect is the partner of the writer: reading a
    report back yields the header and, for each task, its eleven values, as long
    as no task's link (which is written unescaped) holds a special character. */
module Csv {
  import opened Basics
  import opened Text
  import opened Schema
  import opened Tasks

  // ---------------------------------------------------------------------------
  // escapeCsvField
  // ---------------------------------------------------------------------------

  /** The characters that force a field into quotes. */
  predicate Special(c: char) {
    c == ';' || c == '"' || c == '\n'
  }

  /** A field that can be written as it is. */
  predicate Plain(s: string) {
    ';' !in s && '"' !in s && '\n' !in s
  }

  /** `str.includes(';') || str.includes('"') || str.includes('\n')`. */
  predicate NeedsQuoting(s: string) {
    Contains(s, ";") || Contains(s, "\"") || Contains(s, "\n")
  }

  /** `str.replace(/"/g, '""')`. */
  function Double(s: string): string
    decreases |s|
  {
    if |s| == 0 then ""
    else (if s[0] == '"' then "\"\"" else [s[0]]) + Double(s[1..])
  }

  /** The inverse of `Double`: `None` when some quote is not part of a `""` pair. */
  function Undouble(t: string): Option<string>
    decreases |t|
  {
    if |t| == 0 then Some("")
    else if t[0] == '"' then
      if |t| >= 2 && t[1] == '"' then
        match Undouble(t[2..])
        case Some(rest) => Some("\"" + rest)
        case None => None
      else None
    else
      match Undouble(t[1..])
      case Some(rest) => Some([t[0]] + rest)
      case None => None
  }

  /** `escapeCsvField(field)` on a string. Every call site passes a string (a
      stored text column, or a `join` result), so `String(field || '')` is the
      identity here. */
  function EscapeCsvField(s: string): (r: string)
    ensures !NeedsQuoting(s) ==> r == s
    ensures NeedsQuoting(s) ==>
      && |r| >= 2 && r[0] == '"' && r[|r| - 1] == '"'
      && Undouble(r[1..|r| - 1]) == Some(s)
  {
    if NeedsQuoting(s) then
      var r := "\"" + Double(s) + "\"";
      assert r[1..|r| - 1] == Double(s);
      UndoubleDouble(s);
      r
    else s
  }

  /** A one-character pattern occurs exactly when the character does. */
  lemma ContainsChar(s: string, c: char)
    ensures Contains(s, [c]) <==> c in s
  {
    ContainsIffOccurs(s, [c]);
    if c in s {
      var i :| 0 <= i < |s| && s[i] == c;
      assert s[i..i + 1] == [c];
      assert OccursAt(s, [c], i);
    }
    if i :| OccursAt(s, [c], i) {
      assert s[i] == s[i..i + 1][0];
    }
  }

  /** The three `includes` tests of `escapeCsvField` in `renderer.js`, read character by character. */
  lemma NeedsQuotingIffSpecial(s: string)
    ensures NeedsQuoting(s) <==> !Plain(s)
  {
    ContainsChar(s, ';');
    ContainsChar(s, '"');
    ContainsChar(s, '\n');
  }

  /** Un-doubling recovers the doubled text, so no information is lost. */
  lemma {:induction false} UndoubleDouble(s: string)
    ensures Undouble(Double(s)) == Some(s)
    decreases |s|
  {
    if |s| > 0 {
      UndoubleDouble(s[1..]);
      var d := Double(s);
      if s[0] == '"' {
        assert d[2..] == Double(s[1..]);
      } else {
        assert d[1..] == Double(s[1..]);
      }
      assert s == [s[0]] + s[1..];
    }
  }

  /** The quoted case, stated the way RFC 4180 states it: strip the outer quotes,
      collapse each `""`, and the input comes back; every quote inside is paired. */
  lemma QuotedFieldRoundTrip(s: string)
    requires !Plain(s)
    ensures EscapeCsvField(s) == "\"" + Double(s) + "\""
    ensures Undouble(Double(s)) == Some(s)
  {
    NeedsQuotingIffSpecial(s);
    UndoubleDouble(s);
  }

  /** The plain case: a field without `;`, `"` or a newline is written unchanged;
      in particular the empty field stays empty. */
  lemma PlainFieldUnchanged(s: string)
    requires Plain(s)
    ensures EscapeCsvField(s) == s
  {
    NeedsQuotingIffSpecial(s);
  }

  // ---------------------------------------------------------------------------
  // Row and document assembly
  // ---------------------------------------------------------------------------

  /** The header line's cells, in column order. */
  const Headers: seq<string> := [
    "ID", "Название", "Сложность", "Ссылка на Polygon", "Готова для CF",
    "Готова для YC", "Условие", "Идея", "Примечание", "Контесты", "Теги"]

  /** `flag ? 'Да' : 'Нет'`. */
  function YesNo(flag: bool): string {
    if flag then "Да" else "Нет"
  }

  /** `task.Difficulty || ''`: a NULL (or 0) difficulty prints as nothing. */
  function DifficultyText(d: Option<int>): string {
    if d.Some? && d.value != 0 then DecimalString(d.value) else ""
  }

  /** `items.map(x => x.Title)`: the title of each joined tag or contest, in order. */
  function Titles<T>(items: seq<T>, title: T -> string): (r: seq<string>)
    ensures |r| == |items| && forall i :: 0 <= i < |items| ==> r[i] == title(items[i])
    decreases |items|
  {
    if |items| == 0 then [] else [title(items[0])] + Titles(items[1..], title)
  }

  /** The separator inside the contests and tags cells. */
  const ListSeparator := "; "

  /** What each cell of a task's row stands for, before escaping. */
  function RowValues(v: TaskView): seq<string> {
    [ DecimalString(v.id), v.row.title, DifficultyText(v.row.difficulty), v.row.link,
      YesNo(v.row.cfReady), YesNo(v.row.ycReady), v.row.condition, v.row.idea, v.row.note,
      JoinWith(Titles(v.contests, (c: ContestRef) => c.title), ListSeparator),
      JoinWith(Titles(v.tags, (t: TagRef) => t.title), ListSeparator) ]
  }

  /** The cells the row handler joins: the id, difficulty, link and the two flags
      are written as they are; every other cell goes through `escapeCsvField`. */
  function CellsOf(values: seq<string>): (cells: seq<string>)
    requires |values| == |Headers|
    ensures |cells| == |Headers|
  {
    [ values[0], EscapeCsvField(values[1]), values[2], values[3], values[4], values[5],
      EscapeCsvField(values[6]), EscapeCsvField(values[7]), EscapeCsvField(values[8]),
      EscapeCsvField(values[9]), EscapeCsvField(values[10]) ]
  }

  /** A task's row, cell by cell. */
  function RowCells(v: TaskView): (cells: seq<string>)
    ensures |cells| == |Headers|
  {
    CellsOf(RowValues(v))
  }

  /** One data line: the cells joined by `;`. */
  function RowLine(v: TaskView): string {
    JoinWith(RowCells(v), ";")
  }

  function RowLines(tasks: seq<TaskView>): (r: seq<string>)
    ensures |r| == |tasks| && forall i :: 0 <= i < |tasks| ==> r[i] == RowLine(tasks[i])
    decreases |tasks|
  {
    if |tasks| == 0 then [] else [RowLine(tasks[0])] + RowLines(tasks[1..])
  }

  /** The report text: the header line and one line per task in the order the
      listing returned them, joined by `\n`. An empty listing produces no report
      (the handler alerts and returns). */
  function Report(tasks: seq<TaskView>): (r: Option<string>)
    ensures r.None? <==> |tasks| == 0
  {
    if |tasks| == 0 then None else Some(DocumentText(Headers, tasks))
  }

  /** `[headers.join(';'), ...rows].join('\n')`. */
  function DocumentText(header: seq<string>, tasks: seq<TaskView>): string {
    JoinWith([JoinWith(header, ";")] + RowLines(tasks), "\n")
  }

  /** Any contest or tag list of two or more titles is quoted, because the list
      separator itself contains `;`. */
  lemma MultiItemListQuoted(titles: seq<string>)
    requires |titles| >= 2
    ensures EscapeCsvField(JoinWith(titles, ListSeparator))[0] == '"'
  {
    var j := JoinWith(titles, ListSeparator);
    JoinShowsSeparator(titles, ListSeparator);
    assert j[|titles[0]|] == ';';
    assert !Plain(j);
    NeedsQuotingIffSpecial(j);
  }

  // ---------------------------------------------------------------------------
  // Reading the dialect back
  // ---------------------------------------------------------------------------

  /** What may follow a field: nothing, or the delimiter, or a line break. */
  predicate Delimited(rest: string) {
    rest == "" || rest[0] == ';' || rest[0] == '\n'
  }

  /** An unquoted field: everything up to the next `;` or `\n`. */
  function ReadPlain(s: string): (r: (string, string))
    ensures r.0 + r.1 == s && Delimited(r.1)
    decreases |s|
  {
    if |s| == 0 || s[0] == ';' || s[0] == '\n' then ("", s)
    else
      var (v, rest) := ReadPlain(s[1..]);
      Associate([s[0]], v, rest);
      assert [s[0]] + s[1..] == s;
      ([s[0]] + v, rest)
  }

  /** The body of a quoted field: `""` is a quote, a lone `"` closes the field.
      Lenient where the dialect is not: text between the closing quote and the next
      delimiter is kept, and a missing closing quote ends the field at the end of
      the input. */
  function ReadQuoted(s: string): (r: (string, string))
    ensures |r.1| <= |s| && Delimited(r.1)
    decreases |s|
  {
    if |s| == 0 then ("", "")
    else if s[0] == '"' then
      if |s| >= 2 && s[1] == '"' then
        var (v, rest) := ReadQuoted(s[2..]);
        ("\"" + v, rest)
      else ReadPlain(s[1..])
    else
      var (v, rest) := ReadQuoted(s[1..]);
      ([s[0]] + v, rest)
  }

  /** One field and what follows it. */
  function ReadField(s: string): (r: (string, string))
    ensures |r.1| <= |s| && Delimited(r.1)
  {
    if |s| > 0 && s[0] == '"' then ReadQuoted(s[1..]) else ReadPlain(s)
  }

  /** One record: fields up to a line break or the end. The flag says whether a
      line break ended it (so another record follows). */
  function ReadRecord(s: string): (r: (seq<string>, string, bool))
    ensures |r.0| > 0
    ensures r.2 ==> |r.1| < |s|
    decreases |s|
  {
    var (v, rest) := ReadField(s);
    if |rest| > 0 && rest[0] == ';' then
      var (vs, after, more) := ReadRecord(rest[1..]);
      ([v] + vs, after, more)
    else if |rest| > 0 then ([v], rest[1..], true)
    else ([v], "", false)
  }

  /** The records of a whole document. */
  function ParseDocument(s: string): (r: seq<seq<string>>)
    ensures |r| > 0
    decreases |s|
  {
    var (fields, rest, more) := ReadRecord(s);
    [fields] + (if more then ParseDocument(rest) else [])
  }

  // ---------------------------------------------------------------------------
  // The writer and the reader agree
  // ---------------------------------------------------------------------------

  lemma {:induction false} ReadPlainOf(v: string, rest: string)
    requires Plain(v) && Delimited(rest)
    ensures ReadPlain(v + rest) == (v, rest)
    decreases |v|
  {
    if |v| > 0 {
      assert v[0] in v;
      assert (v + rest)[0] == v[0] && !Special(v[0]);
      assert (v + rest)[1..] == v[1..] + rest;
      ReadPlainOf(v[1..], rest);
      assert [v[0]] + v[1..] == v;
    } else {
      assert v + rest == rest;
    }
  }

  /** A lone quote followed by a delimiter closes an empty remainder. */
  lemma ReadQuotedClose(rest: string)
    requires Delimited(rest)
    ensures ReadQuoted("\"" + rest) == ("", rest)
  {
    var s := "\"" + rest;
    assert s[1..] == rest;
    ReadPlainOf("", rest);
    assert "" + rest == rest;
  }

  /** `""` reads as one quote. */
  lemma ReadQuotedPair(tail: string)
    ensures ReadQuoted("\"\"" + tail) == ("\"" + ReadQuoted(tail).0, ReadQuoted(tail).1)
  {
    var s := "\"\"" + tail;
    assert s[0] == '"' && s[1] == '"' && s[2..] == tail;
  }

  /** Any other character reads as itself. */
  lemma ReadQuotedOther(c: char, tail: string)
    requires c != '"'
    ensures ReadQuoted([c] + tail) == ([c] + ReadQuoted(tail).0, ReadQuoted(tail).1)
  {
    var s := [c] + tail;
    assert s[0] == c && s[1..] == tail;
  }

  lemma {:induction false} ReadQuotedOf(v: string, rest: string)
    requires Delimited(rest)
    ensures ReadQuoted(Double(v) + "\"" + rest) == (v, rest)
    decreases |v|
  {
    if |v| == 0 {
      assert Double(v) + "\"" + rest == "\"" + rest;
      ReadQuotedClose(rest);
    } else {
      ReadQuotedOf(v[1..], rest);
      ReadQuotedStep(v, rest);
    }
  }

  /** One step of `ReadQuotedOf`: reading the doubled first character. */
  lemma ReadQuotedStep(v: string, rest: string)
    requires |v| > 0
    requires ReadQuoted(Double(v[1..]) + "\"" + rest) == (v[1..], rest)
    ensures ReadQuoted(Double(v) + "\"" + rest) == (v, rest)
  {
    var tail := Double(v[1..]) + "\"" + rest;
    if v[0] == '"' {
      DoubleQuoteFirst(v, rest);
      ReadQuotedPair(tail);
      assert "\"" + v[1..] == v;
    } else {
      DoubleOtherFirst(v, rest);
      ReadQuotedOther(v[0], tail);
      assert [v[0]] + v[1..] == v;
    }
  }

  lemma DoubleQuoteFirst(v: string, rest: string)
    requires |v| > 0 && v[0] == '"'
    ensures Double(v) + "\"" + rest == "\"\"" + (Double(v[1..]) + "\"" + rest)
  {
    var pair, d := "\"\"", Double(v[1..]);
    assert Double(v) == pair + d;
    Regroup(pair, d, "\"", rest);
  }

  lemma DoubleOtherFirst(v: string, rest: string)
    requires |v| > 0 && v[0] != '"'
    ensures Double(v) + "\"" + rest == [v[0]] + (Double(v[1..]) + "\"" + rest)
  {
    var head, d := [v[0]], Double(v[1..]);
    assert Double(v) == head + d;
    Regroup(head, d, "\"", rest);
  }

  /** Concatenation is associative. */
  lemma Associate(a: string, b: string, c: string)
    ensures a + b + c == a + (b + c)
  {
  }

  /** Concatenation regrouped around its first part. */
  lemma Regroup(a: string, b: string, c: string, d: string)
    ensures a + b + c + d == a + (b + c + d)
  {
  }

  /** `cell` is a way the writer may put `value` into the file: as itself when it
      is plain, or quoted with its quotes doubled. */
  predicate Encodes(cell: string, value: string) {
    (Plain(value) && cell == value) || cell == "\"" + Double(value) + "\""
  }

  /** A plain value is its own encoding. */
  lemma PlainEncodesItself(v: string)
    requires Plain(v)
    ensures Encodes(v, v)
  {
  }

  /** `escapeCsvField` always produces an encoding of its input. */
  lemma EscapeEncodes(v: string)
    ensures Encodes(EscapeCsvField(v), v)
  {
    NeedsQuotingIffSpecial(v);
  }

  /** The reader reads every encoded field back. */
  lemma ReadFieldOf(cell: string, v: string, rest: string)
    requires Encodes(cell, v) && Delimited(rest)
    ensures ReadField(cell + rest) == (v, rest)
  {
    if Plain(v) && cell == v {
      ReadPlainOf(v, rest);
      if |v| > 0 {
        assert v[0] in v;
        assert (v + rest)[0] == v[0];
      }
    } else {
      var s := "\"" + Double(v) + "\"" + rest;
      assert cell + rest == s;
      assert s[1..] == Double(v) + "\"" + rest;
      ReadQuotedOf(v, rest);
    }
  }

  /** What may follow a record: nothing, or a line break. */
  predicate EndsRecord(rest: string) {
    rest == "" || rest[0] == '\n'
  }

  /** Each cell encodes the value at the same position. */
  ghost predicate EncodesAll(cells: seq<string>, values: seq<string>) {
    |cells| == |values| && forall i :: 0 <= i < |values| ==> Encodes(cells[i], values[i])
  }

  lemma {:induction false} ReadRecordOf(cells: seq<string>, values: seq<string>, rest: string)
    requires |values| > 0 && EncodesAll(cells, values) && EndsRecord(rest)
    ensures ReadRecord(JoinWith(cells, ";") + rest)
      == (values, if rest == "" then "" else rest[1..], rest != "")
    decreases |values|
  {
    if |values| == 1 {
      ReadFieldOf(cells[0], values[0], rest);
      assert values == [values[0]];
    } else {
      var after := JoinWith(cells[1..], ";") + rest;
      assert JoinWith(cells, ";") + rest == cells[0] + (";" + after);
      ReadFieldOf(cells[0], values[0], ";" + after);
      assert (";" + after)[1..] == after;
      assert EncodesAll(cells[1..], values[1..]) by {
        forall i | 0 <= i < |values| - 1 ensures Encodes(cells[1..][i], values[1..][i]) {
          assert cells[1..][i] == cells[i + 1] && values[1..][i] == values[i + 1];
        }
      }
      ReadRecordOf(cells[1..], values[1..], rest);
      assert [values[0]] + values[1..] == values;
    }
  }

  /** Each record's text: its cells joined by `;`. */
  function RecordTexts(lines: seq<seq<string>>): (r: seq<string>)
    ensures |r| == |lines| && forall i :: 0 <= i < |lines| ==> r[i] == JoinWith(lines[i], ";")
    decreases |lines|
  {
    if |lines| == 0 then [] else [JoinWith(lines[0], ";")] + RecordTexts(lines[1..])
  }

  /** Every line of cells encodes the record at the same position. */
  ghost predicate EncodesRecords(lines: seq<seq<string>>, records: seq<seq<string>>) {
    && |lines| == |records|
    && forall i :: 0 <= i < |records| ==> |records[i]| > 0 && EncodesAll(lines[i], records[i])
  }

  /** Reading a document written record by record gives back the records. */
  lemma {:induction false} ParseDocumentOf(lines: seq<seq<string>>, records: seq<seq<string>>)
    requires |records| > 0 && EncodesRecords(lines, records)
    ensures ParseDocument(JoinWith(RecordTexts(lines), "\n")) == records
    decreases |records|
  {
    var texts := RecordTexts(lines);
    if |records| == 1 {
      assert JoinWith(texts, "\n") == JoinWith(lines[0], ";") + "";
      ReadRecordOf(lines[0], records[0], "");
      assert records == [records[0]];
    } else {
      var after := JoinWith(RecordTexts(lines[1..]), "\n");
      assert RecordTexts(lines[1..]) == texts[1..];
      assert JoinWith(texts, "\n") == JoinWith(lines[0], ";") + ("\n" + after);
      ReadRecordOf(lines[0], records[0], "\n" + after);
      assert ("\n" + after)[1..] == after;
      assert EncodesRecords(lines[1..], records[1..]) by {
        forall i | 0 <= i < |records| - 1
          ensures |records[1..][i]| > 0 && EncodesAll(lines[1..][i], records[1..][i])
        {
          assert lines[1..][i] == lines[i + 1] && records[1..][i] == records[i + 1];
        }
      }
      ParseDocumentOf(lines[1..], records[1..]);
      assert [records[0]] + records[1..] == records;
    }
  }

  /** A decimal numeral holds only digits and perhaps a minus sign. */
  lemma DecimalStringPlain(n: int)
    ensures Plain(DecimalString(n))
  {
    var d := Digits(if n < 0 then -n else n);
    forall c | c in d ensures IsDigit(c) {
      var i :| 0 <= i < |d| && d[i] == c;
    }
  }

  /** When the unescaped columns hold plain values, every cell encodes its value. */
  lemma CellsEncodeValues(values: seq<string>)
    requires |values| == |Headers|
    requires Plain(values[0]) && Plain(values[2]) && Plain(values[3])
    requires Plain(values[4]) && Plain(values[5])
    ensures EncodesAll(CellsOf(values), values)
  {
    var cells := CellsOf(values);
    forall i | 0 <= i < |values| ensures Encodes(cells[i], values[i]) {
      if i in {0, 2, 3, 4, 5} {
        PlainEncodesItself(values[i]);
      } else {
        EscapeEncodes(values[i]);
      }
    }
  }

  /** The id, difficulty and flag columns are always plain; the link column is
      plain when the link is. */
  lemma UnescapedColumnsPlain(v: TaskView)
    requires Plain(v.row.link)
    ensures Plain(RowValues(v)[0]) && Plain(RowValues(v)[2]) && Plain(RowValues(v)[3])
    ensures Plain(RowValues(v)[4]) && Plain(RowValues(v)[5])
  {
    DecimalStringPlain(v.id);
    if v.row.difficulty.Some? && v.row.difficulty.value != 0 {
      DecimalStringPlain(v.row.difficulty.value);
    }
  }

  /** With a plain link, every cell of a row encodes its value. */
  lemma RowCellsEncodeValues(v: TaskView)
    requires Plain(v.row.link)
    ensures EncodesAll(RowCells(v), RowValues(v))
  {
    UnescapedColumnsPlain(v);
    CellsEncodeValues(RowValues(v));
  }

  /** No header holds a special character. */
  lemma HeadersPlain()
    ensures forall i :: 0 <= i < |Headers| ==> Plain(Headers[i])
  {
    assert Plain(Headers[0]);
    assert Plain(Headers[1]);
    assert Plain(Headers[2]);
    assert Plain(Headers[3]);
    assert Plain(Headers[4]);
    assert Plain(Headers[5]);
    assert Plain(Headers[6]);
    assert Plain(Headers[7]);
    assert Plain(Headers[8]);
    assert Plain(Headers[9]);
    assert Plain(Headers[10]);
  }

  function AllRowCells(tasks: seq<TaskView>): (r: seq<seq<string>>)
    ensures |r| == |tasks| && forall i :: 0 <= i < |tasks| ==> r[i] == RowCells(tasks[i])
    decreases |tasks|
  {
    if |tasks| == 0 then [] else [RowCells(tasks[0])] + AllRowCells(tasks[1..])
  }

  function AllRowValues(tasks: seq<TaskView>): (r: seq<seq<string>>)
    ensures |r| == |tasks| && forall i :: 0 <= i < |tasks| ==> r[i] == RowValues(tasks[i])
    decreases |tasks|
  {
    if |tasks| == 0 then [] else [RowValues(tasks[0])] + AllRowValues(tasks[1..])
  }

  /** A document of a header line and task lines reads back as the header values
      and each task's values, when the header is plain and no link holds a special
      character. */
  lemma {:induction false} DocumentRoundTrip(header: seq<string>, tasks: seq<TaskView>)
    requires |header| > 0 && forall i :: 0 <= i < |header| ==> Plain(header[i])
    requires forall i :: 0 <= i < |tasks| ==> Plain(tasks[i].row.link)
    ensures ParseDocument(DocumentText(header, tasks)) == [header] + AllRowValues(tasks)
  {
    forall i | 0 <= i < |header| ensures Encodes(header[i], header[i]) {
      PlainEncodesItself(header[i]);
    }
    var lines := [header] + AllRowCells(tasks);
    var records := [header] + AllRowValues(tasks);
    forall i | 0 <= i < |tasks| ensures EncodesAll(RowCells(tasks[i]), RowValues(tasks[i])) {
      RowCellsEncodeValues(tasks[i]);
    }
    assert EncodesRecords(lines, records) by {
      forall i | 0 <= i < |records| ensures |records[i]| > 0 && EncodesAll(lines[i], records[i]) {
        if i > 0 {
          assert lines[i] == RowCells(tasks[i - 1]) && records[i] == RowValues(tasks[i - 1]);
        }
      }
    }
    assert RecordTexts(lines) == [JoinWith(header, ";")] + RowLines(tasks);
    ParseDocumentOf(lines, records);
  }

  /** `DocumentRoundTrip` as an implication, for use at the literal header row,
      where the plainness facts are established by the caller. */
  lemma DocumentReadsBack(header: seq<string>, tasks: seq<TaskView>)
    ensures (|header| > 0 && (forall i :: 0 <= i < |header| ==> Plain(header[i]))
             && (forall i :: 0 <= i < |tasks| ==> Plain(tasks[i].row.link)))
      ==> ParseDocument(DocumentText(header, tasks)) == [header] + AllRowValues(tasks)
  {
    if |header| > 0 && (forall i :: 0 <= i < |header| ==> Plain(header[i]))
      && (forall i :: 0 <= i < |tasks| ==> Plain(tasks[i].row.link)) {
      DocumentRoundTrip(header, tasks);
    }
  }

  /** The report reads back as the header followed by each task's eleven values, in
      order, whenever no link holds `;`, `"` or a line break. */
  lemma ReportRoundTrip(tasks: seq<TaskView>)
    requires |tasks| > 0
    requires forall i :: 0 <= i < |tasks| ==> Plain(tasks[i].row.link)
    ensures ParseDocument(Report(tasks).value) == [Headers] + AllRowValues(tasks)
  {
    HeaderDocumentRoundTrip(tasks);
  }

  /** The document with the report's own header line reads back. */
  lemma HeaderDocumentRoundTrip(tasks: seq<TaskView>)
    requires forall i :: 0 <= i < |tasks| ==> Plain(tasks[i].row.link)
    ensures ParseDocument(DocumentText(Headers, tasks)) == [Headers] + AllRowValues(tasks)
  {
    HeadersPlain();
    DocumentReadsBack(Headers, tasks);
  }
}
