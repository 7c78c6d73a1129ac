/** CSV export of the three collections (every field quoted, embedded quotes doubled, as in
    section 2 of RFC 4180) and the roster CSV reader, which is much simpler than RFC 4180:
    it splits on every comma and strips one leading and one trailing quote from each cell. */
module Csv {
  import opened Strings
  import opened Seqs
  import opened Entities

  /** A cell value before rendering: text, or a number such as a budget amount. */
  datatype Value = Str(s: string) | Num(n: int)

  /** One record: header name to value; a header without a key is a missing value. */
  type Row = map<string, Value>

  /** `(r[h] || '').toString()`: a missing value and the falsy values "" and 0 render as "". */
  function CellText(row: Row, h: string): (r: string)
    ensures h !in row ==> r == []
    ensures h in row && row[h] == Num(0) ==> r == []
    ensures h in row && row[h].Str? ==> r == row[h].s
    ensures h in row && row[h].Num? && row[h].n != 0 ==> r == IntToDecimal(row[h].n)
  {
    if h !in row then []
    else match row[h]
      case Str(s) => s
      case Num(n) => if n == 0 then [] else IntToDecimal(n)
  }

  /** `.replace(/"/g, '""')`: every quote doubled, so the result is longer by exactly the
      number of quotes. */
  function DoubleQuotes(s: string): (r: string)
    ensures |r| >= |s|
    ensures |r| == |s| + multiset(s)['"']
    ensures '"' !in s ==> r == s
    ensures forall c :: c in r ==> c in s
  {
    if s == [] then []
    else
      var rest := DoubleQuotes(s[1..]);
      assert s == [s[0]] + s[1..];
      (if s[0] == '"' then "\"\"" else [s[0]]) + rest
  }

  /** How an RFC 4180 reader reads the inside of a quoted field (section 2, rule 7): each pair
      of quotes is one quote, and a quote not followed by another makes the field invalid. */
  function UndoubleQuotes(s: string): Option<string>
    decreases |s|
  {
    if s == [] then Some([])
    else if s[0] != '"' then
      match UndoubleQuotes(s[1..])
      case None => None
      case Some(t) => Some([s[0]] + t)
    else if |s| >= 2 && s[1] == '"' then
      match UndoubleQuotes(s[2..])
      case None => None
      case Some(t) => Some("\"" + t)
    else None
  }

  /** Undoubling is the inverse of doubling. */
  lemma {:induction false} UndoubleDouble(s: string)
    ensures UndoubleQuotes(DoubleQuotes(s)) == Some(s)
  {
    if s != [] {
      var rest := DoubleQuotes(s[1..]);
      UndoubleDouble(s[1..]);
      if s[0] == '"' {
        assert DoubleQuotes(s) == "\"\"" + rest;
        assert ("\"\"" + rest)[2..] == rest;
      } else {
        assert DoubleQuotes(s) == [s[0]] + rest;
        assert ([s[0]] + rest)[1..] == rest;
      }
      assert s == [s[0]] + s[1..];
    }
  }

  /** Every text the reader accepts inside a field is the doubling of what it reads: doubling
      is the only way to write a value, so every quote of the value must be doubled. */
  lemma {:induction false} DoubleUndouble(x: string)
    ensures UndoubleQuotes(x).Some? ==> DoubleQuotes(UndoubleQuotes(x).value) == x
  {
    if x != [] && UndoubleQuotes(x).Some? {
      var t := UndoubleQuotes(x).value;
      if x[0] != '"' {
        DoubleUndouble(x[1..]);
        var t' := UndoubleQuotes(x[1..]).value;
        assert t == [x[0]] + t';
        assert t[1..] == t';
        assert x == [x[0]] + x[1..];
      } else {
        DoubleUndouble(x[2..]);
        var t' := UndoubleQuotes(x[2..]).value;
        assert t == "\"" + t';
        assert t[1..] == t';
        assert x == "\"\"" + x[2..];
      }
    }
  }

  /** One exported field: the value between quotes, its own quotes doubled. */
  function QuoteField(s: string): (r: string)
    ensures |r| >= 2 && r[0] == '"' && r[|r| - 1] == '"' && r[1..|r| - 1] == DoubleQuotes(s)
    ensures forall c :: c in r ==> c == '"' || c in s
  {
    "\"" + DoubleQuotes(s) + "\""
  }

  /** How an RFC 4180 reader reads a quoted field: None for a field that is not between
      quotes or holds a quote that is not doubled. */
  function UnquoteField(f: string): Option<string> {
    if |f| >= 2 && f[0] == '"' && f[|f| - 1] == '"' then UndoubleQuotes(f[1..|f| - 1]) else None
  }

  /** The reader refuses a field with a lone quote inside, such as `"a"b"`. */
  lemma LoneQuoteRejected()
    ensures UnquoteField("\"a\"b\"") == None
  {
    var f := "\"a\"b\"";
    assert f[1..|f| - 1] == "a\"b";
    assert "a\"b"[1..] == "\"b";
  }

  /** A field the reader accepts is exactly the export's field for the value it reads. */
  lemma UnquoteQuoteField(f: string)
    ensures UnquoteField(f).Some? ==> QuoteField(UnquoteField(f).value) == f
  {
    if UnquoteField(f).Some? {
      var inner := f[1..|f| - 1];
      DoubleUndouble(inner);
      assert DoubleQuotes(UnquoteField(f).value) == inner;
      Enclosed(f);
    }
  }

  /** A text of two or more characters is its first character, its inside and its last. */
  lemma Enclosed(f: string)
    requires |f| >= 2
    ensures f == [f[0]] + f[1..|f| - 1] + [f[|f| - 1]]
  {
  }

  /** An exported field reads back, by the rules of RFC 4180, as the value written. */
  lemma QuoteFieldRoundTrip(s: string)
    ensures UnquoteField(QuoteField(s)) == Some(s)
  {
    UndoubleDouble(s);
  }

  /** The quoted fields of one record, in header order. */
  function QuotedCells(row: Row, headers: seq<string>): (r: seq<string>)
    ensures |r| == |headers|
    ensures forall i :: 0 <= i < |r| ==> UnquoteField(r[i]) == Some(CellText(row, headers[i]))
    ensures AllQuoted(r)
  {
    var r := seq(|headers|, i requires 0 <= i < |headers| => QuoteField(CellText(row, headers[i])));
    assert forall i :: 0 <= i < |r| ==> UnquoteField(r[i]) == Some(CellText(row, headers[i])) by {
      forall i | 0 <= i < |r| ensures UnquoteField(r[i]) == Some(CellText(row, headers[i])) {
        QuoteFieldRoundTrip(CellText(row, headers[i]));
      }
    }
    r
  }

  /** `headers.map(...).join(',')` for one record. */
  function RowLine(row: Row, headers: seq<string>): string {
    Join(QuotedCells(row, headers), ',')
  }

  /** A record's line starts with the opening quote of its first field and ends with the
      closing quote of its last. */
  lemma RowLineQuoted(row: Row, headers: seq<string>)
    requires |headers| >= 1
    ensures var l := RowLine(row, headers); l != [] && l[0] == '"' && l[|l| - 1] == '"'
  {
    JoinQuoted(QuotedCells(row, headers));
  }

  /** Every field starts and ends with a quote. */
  predicate AllQuoted(q: seq<string>) {
    forall i :: 0 <= i < |q| ==> |q[i]| >= 2 && q[i][0] == '"' && q[i][|q[i]| - 1] == '"'
  }

  /** Quoted fields joined by commas make a line that starts and ends with a quote. */
  lemma JoinQuoted(q: seq<string>)
    requires |q| >= 1 && AllQuoted(q)
    ensures var j := Join(q, ','); j != [] && j[0] == '"' && j[|j| - 1] == '"'
  {
    JoinFirst(q, ',');
    JoinLast(q, ',');
  }

  function RowLines(rows: seq<Row>, headers: seq<string>): (r: seq<string>)
    ensures |r| == |rows|
  {
    seq(|rows|, i requires 0 <= i < |rows| => RowLine(rows[i], headers))
  }

  /** exportCSV's text: the comma-joined header names, then one line per record. It starts
      with the header line, followed by a line feed when there is a record. */
  function ExportCSV(rows: seq<Row>, headers: seq<string>): (r: string)
    ensures Join(headers, ',') <= r
    ensures |rows| >= 1 ==> |r| > |Join(headers, ',')| && r[|Join(headers, ',')|] == '\n'
  {
    Join([Join(headers, ',')] + RowLines(rows, headers), '\n')
  }

  /** No header and no rendered value holds a line break. */
  predicate NoLineBreaks(rows: seq<Row>, headers: seq<string>) {
    (forall j :: 0 <= j < |headers| ==> '\n' !in headers[j]) &&
    (forall i, j :: 0 <= i < |rows| && 0 <= j < |headers| ==> '\n' !in CellText(rows[i], headers[j]))
  }

  /** A record's line holds a line break only if one of its values does. */
  lemma RowLineNoBreak(row: Row, headers: seq<string>)
    requires forall j :: 0 <= j < |headers| ==> '\n' !in CellText(row, headers[j])
    ensures '\n' !in RowLine(row, headers)
  {
    var q := QuotedCells(row, headers);
    forall j | 0 <= j < |q| ensures '\n' !in q[j] {
      assert q[j] == QuoteField(CellText(row, headers[j]));
    }
    JoinFree(q, ',', '\n');
  }

  /** When no value holds a line break, the export has exactly one line per record plus the
      header line: the header names joined by commas, then each record's quoted fields. */
  lemma ExportCSVLines(rows: seq<Row>, headers: seq<string>)
    requires NoLineBreaks(rows, headers)
    ensures var lines := Split(ExportCSV(rows, headers), '\n');
            |lines| == |rows| + 1 && lines[0] == Join(headers, ',') &&
            forall i :: 0 <= i < |rows| ==> lines[i + 1] == RowLine(rows[i], headers)
  {
    var all := [Join(headers, ',')] + RowLines(rows, headers);
    JoinFree(headers, ',', '\n');
    RowLinesNoBreak(rows, headers);
    forall i | 0 <= i < |all| ensures '\n' !in all[i] {
      if i > 0 {
        assert all[i] == RowLines(rows, headers)[i - 1];
      }
    }
    SplitJoin(all, '\n');
    assert Split(ExportCSV(rows, headers), '\n') == all;
    forall i | 0 <= i < |rows| ensures all[i + 1] == RowLine(rows[i], headers) {
      assert all[i + 1] == RowLines(rows, headers)[i];
    }
  }

  /** No record's line holds a line break when no value does. */
  lemma RowLinesNoBreak(rows: seq<Row>, headers: seq<string>)
    requires NoLineBreaks(rows, headers)
    ensures forall k :: 0 <= k < |rows| ==> '\n' !in RowLines(rows, headers)[k]
  {
    forall k | 0 <= k < |rows| ensures '\n' !in RowLines(rows, headers)[k] {
      RowLineNoBreak(rows[k], headers);
    }
  }

  /** When no value holds a comma, each record's line splits on commas into its quoted fields,
      and each of them reads back, by the rules of RFC 4180, as the value exported. */
  lemma RowLineFields(row: Row, headers: seq<string>)
    requires |headers| >= 1
    requires forall j :: 0 <= j < |headers| ==> ',' !in CellText(row, headers[j])
    ensures var fields := Split(RowLine(row, headers), ',');
            |fields| == |headers| &&
            forall j :: 0 <= j < |headers| ==> UnquoteField(fields[j]) == Some(CellText(row, headers[j]))
  {
    var q := QuotedCells(row, headers);
    forall j | 0 <= j < |q| ensures ',' !in q[j] && UnquoteField(q[j]) == Some(CellText(row, headers[j])) {
      assert q[j] == QuoteField(CellText(row, headers[j]));
      QuoteFieldRoundTrip(CellText(row, headers[j]));
    }
    SplitJoin(q, ',');
  }

  /** The records and columns of the three CSV downloads. */
  const TaskHeaders: seq<string> := ["task", "category", "owner", "status", "deadline"]
  const RosterHeaders: seq<string> := ["name", "role", "contact"]
  const BudgetHeaders: seq<string> := ["item", "category", "estimated", "actual"]

  function TaskRow(t: Task): (r: Row)
    ensures CellText(r, "task") == t.task && CellText(r, "category") == t.category
    ensures CellText(r, "owner") == t.owner && CellText(r, "status") == StatusText(t.status)
    ensures CellText(r, "deadline") == t.deadline
  {
    map["task" := Str(t.task), "category" := Str(t.category), "owner" := Str(t.owner),
        "status" := Str(StatusText(t.status)), "deadline" := Str(t.deadline)]
  }

  function RosterRow(p: RosterEntry): (r: Row)
    ensures CellText(r, "name") == p.name && CellText(r, "role") == p.role
    ensures CellText(r, "contact") == p.contact
  {
    map["name" := Str(p.name), "role" := Str(p.role), "contact" := Str(p.contact)]
  }

  function BudgetRow(b: BudgetItem): (r: Row)
    ensures CellText(r, "item") == b.item && CellText(r, "category") == b.category
    ensures CellText(r, "estimated") == if b.estimated == 0 then [] else IntToDecimal(b.estimated)
    ensures CellText(r, "actual") == if b.actual == 0 then [] else IntToDecimal(b.actual)
  {
    map["item" := Str(b.item), "category" := Str(b.category), "estimated" := Num(b.estimated),
        "actual" := Num(b.actual)]
  }

  /** tasks.csv: the task header line first, then one line per task. */
  function ExportTasksCSV(tasks: seq<Task>): (r: string)
    ensures Join(TaskHeaders, ',') <= r
    ensures |tasks| >= 1 ==> |r| > |Join(TaskHeaders, ',')| && r[|Join(TaskHeaders, ',')|] == '\n'
  {
    ExportCSV(seq(|tasks|, i requires 0 <= i < |tasks| => TaskRow(tasks[i])), TaskHeaders)
  }

  /** roster.csv: the roster header line first, then one line per participant. */
  function ExportRosterCSV(roster: seq<RosterEntry>): (r: string)
    ensures Join(RosterHeaders, ',') <= r
    ensures |roster| >= 1 ==> |r| > |Join(RosterHeaders, ',')| && r[|Join(RosterHeaders, ',')|] == '\n'
  {
    ExportCSV(seq(|roster|, i requires 0 <= i < |roster| => RosterRow(roster[i])), RosterHeaders)
  }

  /** budget.csv: the budget header line first, then one line per budget line. */
  function ExportBudgetCSV(budget: seq<BudgetItem>): (r: string)
    ensures Join(BudgetHeaders, ',') <= r
    ensures |budget| >= 1 ==> |r| > |Join(BudgetHeaders, ',')| && r[|Join(BudgetHeaders, ',')|] == '\n'
  {
    ExportCSV(seq(|budget|, i requires 0 <= i < |budget| => BudgetRow(budget[i])), BudgetHeaders)
  }

  /** A budget amount of 0 is falsy and is exported as an empty field, not as "0". */
  lemma ZeroAmountExportsEmpty(b: BudgetItem)
    requires b.estimated == 0
    ensures QuotedCells(BudgetRow(b), BudgetHeaders)[2] == "\"\""
  {
  }

  // ---------------------------------------------------------------- roster import

  /** Drops the `\r` of a `\r\n` line ending. */
  function DropCR(l: string): (r: string)
    ensures r == l || (l == r + "\r")
  {
    if l != [] && l[|l| - 1] == '\r' then l[..|l| - 1] else l
  }

  /** `s.split(/\r?\n/)`: split on line feeds, each one taking a carriage return just before it along. */
  function SplitLines(s: string): (r: seq<string>)
    ensures |r| == |Split(s, '\n')|
    ensures forall i :: 0 <= i < |r| ==> '\n' !in r[i]
  {
    var pieces := Split(s, '\n');
    seq(|pieces|, i requires 0 <= i < |pieces| => if i < |pieces| - 1 then DropCR(pieces[i]) else pieces[i])
  }

  /** `Boolean` as a filter on strings. */
  predicate NonEmpty(l: string) { l != [] }

  /** `text.trim().split(/\r?\n/).filter(Boolean)`: the lines the reader looks at. */
  function CsvLines(text: string): (r: seq<string>)
    ensures forall i :: 0 <= i < |r| ==> r[i] != []
  {
    Filter(SplitLines(Trim(text)), NonEmpty)
  }

  /** `lines.shift()` throws on a text with no line at all, which is exactly a blank text. */
  lemma CsvLinesEmpty(text: string)
    ensures CsvLines(text) == [] <==> Trim(text) == []
  {
    var t := Trim(text);
    var lines := SplitLines(t);
    if t != [] {
      var pieces := Split(t, '\n');
      assert IsSpace('\n');
      assert t[0] != '\n';
      assert pieces[0] != [] && pieces[0][0] == t[0];
      assert lines[0] != [] && NonEmpty(lines[0]);
      FilterCount(lines, NonEmpty);
      assert multiset(CsvLines(text))[lines[0]] > 0;
    }
  }

  /** The data lines: every line after the header line. */
  function DataLines(text: string): seq<string> {
    var lines := CsvLines(text);
    if lines == [] then [] else lines[1..]
  }

  /** `line.split(',').map(h => h.trim().toLowerCase())` */
  function HeaderNames(line: string): (r: seq<string>)
    ensures |r| == |Split(line, ',')|
    ensures forall i :: 0 <= i < |r| ==> Trimmed(r[i])
    ensures forall i :: 0 <= i < |r| ==> (forall j :: 0 <= j < |r[i]| ==> !('A' <= r[i][j] <= 'Z'))
  {
    var parts := Split(line, ',');
    seq(|parts|, i requires 0 <= i < |parts| => Lower(Trim(parts[i])))
  }

  /** `c.replace(/^"|"$/g, '')`: one leading and one trailing quote removed. */
  function StripQuotes(c: string): (r: string)
    ensures |r| <= |c|
    ensures forall x :: x in r ==> x in c
    ensures |c| >= 2 && c[0] == '"' && c[|c| - 1] == '"' ==> r == c[1..|c| - 1]
    ensures c == "\"" ==> r == []
    ensures |c| >= 1 && c[0] == '"' && c[|c| - 1] != '"' ==> r == c[1..]
    ensures |c| >= 1 && c[0] != '"' && c[|c| - 1] == '"' ==> r == c[..|c| - 1]
    ensures c == [] || (c[0] != '"' && c[|c| - 1] != '"') ==> r == c
  {
    var a := if c != [] && c[0] == '"' then c[1..] else c;
    if a != [] && a[|a| - 1] == '"' then a[..|a| - 1] else a
  }

  /** `line.split(',').map(c => c.replace(/^"|"$/g, '').trim())` */
  function CellValues(line: string): (r: seq<string>)
    ensures |r| == |Split(line, ',')|
    ensures forall i :: 0 <= i < |r| ==> Trimmed(r[i]) && ',' !in r[i]
  {
    var parts := Split(line, ',');
    seq(|parts|, i requires 0 <= i < |parts| => Trim(StripQuotes(parts[i])))
  }

  /** A field written between quotes reads back without them. */
  lemma StripOuterQuotes(x: string)
    ensures StripQuotes("\"" + x + "\"") == x
  {
    var c := "\"" + x + "\"";
    assert c[1..|c| - 1] == x;
  }

  /** The cells of a line made of comma-free cells are those cells, each with its outer
      quotes removed and then trimmed. */
  lemma CellValuesOfJoin(cells: seq<string>)
    requires |cells| >= 1
    requires forall i :: 0 <= i < |cells| ==> ',' !in cells[i]
    ensures CellValues(Join(cells, ',')) == seq(|cells|, i requires 0 <= i < |cells| => Trim(StripQuotes(cells[i])))
  {
    SplitJoin(cells, ',');
  }

  /** `cols[i] || ''` */
  function CellAt(cols: seq<string>, i: nat): string {
    if i < |cols| then cols[i] else []
  }

  /** `row[key]` after `headers.forEach((h, i) => row[h] = cols[i] || '')`: the cell under the
      last header named `key`, or "" when no header has that name. */
  function Column(headers: seq<string>, cols: seq<string>, key: string): (r: string)
    ensures r == [] || r in cols
    ensures (forall i :: 0 <= i < |headers| ==> headers[i] != key) ==> r == []
    ensures forall i :: (0 <= i < |headers| && headers[i] == key &&
                         (forall j :: i < j < |headers| ==> headers[j] != key)) ==> r == CellAt(cols, i)
    decreases |headers|
  {
    if headers == [] then []
    else if headers[|headers| - 1] == key then CellAt(cols, |headers| - 1)
    else Column(headers[..|headers| - 1], cols, key)
  }

  /** The roster entry for one data line: name defaults to "Unknown", role and contact to "". */
  function ImportedEntry(headers: seq<string>, line: string, id: string): (r: RosterEntry)
    ensures r.id == id && r.name != [] && r.attendance.None? && r.notes.None?
    ensures var name := Column(headers, CellValues(line), "name");
            r.name == if name == [] then "Unknown" else name
    ensures r.role == Column(headers, CellValues(line), "role")
    ensures r.contact == Column(headers, CellValues(line), "contact")
  {
    var cols := CellValues(line);
    var name := Column(headers, cols, "name");
    RosterEntry(id, if name == [] then "Unknown" else name, Column(headers, cols, "role"),
                Column(headers, cols, "contact"), None, None)
  }

  /** The entries appended for the data lines `data` under `headers`, `ids[i]` being the id
      generated for the i-th. */
  function ImportEntries(headers: seq<string>, data: seq<string>, ids: seq<string>): (r: seq<RosterEntry>)
    requires |ids| >= |data|
    ensures |r| == |data|
    ensures forall i :: 0 <= i < |r| ==> r[i].id == ids[i] && r[i].name != []
  {
    seq(|data|, i requires 0 <= i < |data| => ImportedEntry(headers, data[i], ids[i]))
  }

  /** The entries importRosterCSV appends for `text`: one per data line, in file order. */
  function ImportedRoster(text: string, ids: seq<string>): (r: seq<RosterEntry>)
    requires |ids| >= |DataLines(text)|
    ensures |r| == |DataLines(text)|
    ensures Trim(text) == [] ==> r == []
    ensures forall i :: 0 <= i < |r| ==> r[i].id == ids[i] && r[i].name != []
  {
    var lines := CsvLines(text);
    CsvLinesEmpty(text);
    if lines == [] then [] else ImportEntries(HeaderNames(lines[0]), lines[1..], ids)
  }

  // ---------------------------------------------------------------- export, then import

  /** A value the roster reader's comma split and line split leave in one piece, and that
      its trim leaves alone. */
  predicate CsvSafe(s: string) {
    ',' !in s && '\n' !in s && Trimmed(s)
  }

  /** Doubling quotes keeps the first and the last character. */
  lemma {:induction false} DoubleQuotesEnds(s: string)
    requires s != []
    ensures var d := DoubleQuotes(s); d != [] && d[0] == s[0] && d[|d| - 1] == s[|s| - 1]
  {
    var rest := DoubleQuotes(s[1..]);
    var head := if s[0] == '"' then "\"\"" else [s[0]];
    assert DoubleQuotes(s) == head + rest;
    if s[1..] != [] {
      DoubleQuotesEnds(s[1..]);
    }
  }

  /** The reader's cell clean-up undoes the outer quotes of an exported field, but not the doubling. */
  lemma ReadExportedCell(x: string)
    requires Trimmed(x)
    ensures Trim(StripQuotes(QuoteField(x))) == DoubleQuotes(x)
  {
    var d := DoubleQuotes(x);
    var q := QuoteField(x);
    assert q == "\"" + d + "\"";
    assert q[1..] == d + "\"";
    assert (d + "\"")[..|d|] == d;
    assert StripQuotes(q) == d;
    if x != [] {
      DoubleQuotesEnds(x);
    }
    assert Trimmed(d);
    TrimOfTrimmed(d);
  }

  /** The reader's cells for an exported line are the record's values with their quotes
      doubled, when no value holds a comma or has spaces at its ends. */
  lemma ReadExportedLine(row: Row, hs: seq<string>)
    requires |hs| >= 1
    requires forall j :: 0 <= j < |hs| ==> CsvSafe(CellText(row, hs[j]))
    ensures var cols := CellValues(RowLine(row, hs));
            |cols| == |hs| && forall j :: 0 <= j < |hs| ==> cols[j] == DoubleQuotes(CellText(row, hs[j]))
  {
    var q := QuotedCells(row, hs);
    forall j | 0 <= j < |q| ensures ',' !in q[j] {
      assert q[j] == QuoteField(CellText(row, hs[j]));
    }
    SplitJoin(q, ',');
    var cols := CellValues(RowLine(row, hs));
    forall j | 0 <= j < |hs| ensures cols[j] == DoubleQuotes(CellText(row, hs[j])) {
      assert q[j] == QuoteField(CellText(row, hs[j]));
      ReadExportedCell(CellText(row, hs[j]));
    }
  }

  /** A header name made of lower-case letters reads back as itself. */
  lemma ReadPlainHeader(h: string)
    requires forall i :: 0 <= i < |h| ==> 'a' <= h[i] <= 'z'
    ensures ',' !in h
    ensures Lower(Trim(h)) == h
  {
    assert Trimmed(h);
    TrimOfTrimmed(h);
    LowerOfLower(h);
  }

  /** A header line written as comma-free names reads as those names, each trimmed and
      lower-cased: a column headed ` Name ` is found under `name`. */
  lemma ReadHeaderLine(hs: seq<string>)
    requires |hs| >= 1
    requires forall j :: 0 <= j < |hs| ==> ',' !in hs[j]
    ensures HeaderNames(Join(hs, ',')) == seq(|hs|, j requires 0 <= j < |hs| => Lower(Trim(hs[j])))
  {
    SplitJoin(hs, ',');
  }

  /** A header line of lower-case names reads back as those names. */
  lemma ReadPlainHeaderLine(hs: seq<string>)
    requires |hs| >= 1
    requires forall j, i :: 0 <= j < |hs| && 0 <= i < |hs[j]| ==> 'a' <= hs[j][i] <= 'z'
    ensures HeaderNames(Join(hs, ',')) == hs
  {
    forall j | 0 <= j < |hs| ensures ',' !in hs[j] && Lower(Trim(hs[j])) == hs[j] {
      ReadPlainHeader(hs[j]);
    }
    ReadHeaderLine(hs);
  }

  /** The columns of roster.csv are named by lower-case letters. */
  lemma RosterHeadersPlain()
    ensures |RosterHeaders| == 3
    ensures forall j, i :: 0 <= j < |RosterHeaders| && 0 <= i < |RosterHeaders[j]| ==> 'a' <= RosterHeaders[j][i] <= 'z'
  {
  }

  /** Under roster.csv's header names, each column is found at its own position. */
  lemma RosterColumns(cols: seq<string>)
    requires |cols| == 3
    ensures Column(RosterHeaders, cols, "name") == cols[0]
    ensures Column(RosterHeaders, cols, "role") == cols[1]
    ensures Column(RosterHeaders, cols, "contact") == cols[2]
  {
    var h := RosterHeaders;
    assert h[0] == "name" && h[1] == "role" && h[2] == "contact";
    assert h[1] != "name" && h[2] != "name" && h[2] != "role";
  }

  /** Lines that are non-empty and trimmed, joined by line feeds, make a trimmed text. */
  lemma JoinedLinesTrimmed(ls: seq<string>)
    requires |ls| >= 1
    requires forall i :: 0 <= i < |ls| ==> ls[i] != [] && Trimmed(ls[i])
    ensures Trim(Join(ls, '\n')) == Join(ls, '\n')
  {
    JoinFirst(ls, '\n');
    JoinLast(ls, '\n');
    TrimOfTrimmed(Join(ls, '\n'));
  }

  /** Splitting lines joined by line feeds gives them back, when none holds a line feed or
      ends with a carriage return. */
  lemma SplitLinesOfJoin(ls: seq<string>)
    requires |ls| >= 1
    requires forall i :: 0 <= i < |ls| ==> '\n' !in ls[i] && (ls[i] == [] || ls[i][|ls[i]| - 1] != '\r')
    ensures SplitLines(Join(ls, '\n')) == ls
  {
    SplitJoin(ls, '\n');
  }

  /** Lines written with CRLF endings: a carriage return after every line but the last. */
  function WithCR(ls: seq<string>): (r: seq<string>)
    ensures |r| == |ls|
    ensures forall i :: 0 <= i < |ls| - 1 ==> r[i] == ls[i] + "\r"
    ensures |ls| >= 1 ==> r[|ls| - 1] == ls[|ls| - 1]
  {
    seq(|ls|, i requires 0 <= i < |ls| => if i < |ls| - 1 then ls[i] + "\r" else ls[i])
  }

  /** The line split reads a text with CRLF line endings as the lines written. */
  lemma SplitLinesCRLF(ls: seq<string>)
    requires |ls| >= 1
    requires forall i :: 0 <= i < |ls| ==> '\n' !in ls[i]
    ensures SplitLines(Join(WithCR(ls), '\n')) == ls
  {
    var w := WithCR(ls);
    forall i | 0 <= i < |w| ensures '\n' !in w[i] {
      if i < |ls| - 1 {
        assert forall c :: c in w[i] ==> c in ls[i] || c == '\r';
      }
    }
    SplitJoin(w, '\n');
    var r := SplitLines(Join(w, '\n'));
    forall i | 0 <= i < |ls| - 1 ensures r[i] == ls[i] {
      assert w[i][..|w[i]| - 1] == ls[i];
    }
  }

  /** Lines that are non-empty, free of line feeds, and neither start nor end with a space. */
  predicate CleanLines(ls: seq<string>) {
    forall i :: 0 <= i < |ls| ==> ls[i] != [] && '\n' !in ls[i] && Trimmed(ls[i])
  }

  /** The reader's lines of a text written line by line are those lines, when each is
      non-empty, free of line feeds, and neither starts nor ends with a space. */
  lemma CsvLinesOfJoin(ls: seq<string>)
    requires |ls| >= 1
    requires CleanLines(ls)
    ensures CsvLines(Join(ls, '\n')) == ls
  {
    JoinedLinesTrimmed(ls);
    assert IsSpace('\r');
    SplitLinesOfJoin(ls);
    assert forall i :: 0 <= i < |ls| ==> NonEmpty(ls[i]);
  }

  /** `filter(Boolean)` drops only empty lines: between a first line that does not start
      with a space and a last line that does not end with one, lines of spaces are kept. */
  lemma CsvLinesKeepBlank(ls: seq<string>)
    requires |ls| >= 1
    requires forall i :: 0 <= i < |ls| ==> ls[i] != [] && '\n' !in ls[i] && ls[i][|ls[i]| - 1] != '\r'
    requires !IsSpace(ls[0][0]) && !IsSpace(ls[|ls| - 1][|ls[|ls| - 1]| - 1])
    ensures CsvLines(Join(ls, '\n')) == ls
  {
    JoinFirst(ls, '\n');
    JoinLast(ls, '\n');
    TrimOfTrimmed(Join(ls, '\n'));
    SplitLinesOfJoin(ls);
    assert forall i :: 0 <= i < |ls| ==> NonEmpty(ls[i]);
  }

  /** A roster file with a line of spaces between two names keeps that line as a data line. */
  lemma BlankLineKept()
    ensures CsvLines(Join(["name", "   ", "Bob"], '\n')) == ["name", "   ", "Bob"]
  {
    CsvLinesKeepBlank(["name", "   ", "Bob"]);
  }

  /** A header line of lower-case names is non-empty, free of line feeds, and trimmed. */
  lemma HeaderLineClean(hs: seq<string>)
    requires |hs| >= 1
    requires forall j, i :: 0 <= j < |hs| && 0 <= i < |hs[j]| ==> 'a' <= hs[j][i] <= 'z'
    requires hs[0] != [] && hs[|hs| - 1] != []
    ensures var h := Join(hs, ','); h != [] && '\n' !in h && Trimmed(h)
  {
    forall j | 0 <= j < |hs| ensures '\n' !in hs[j] {
      assert forall i :: 0 <= i < |hs[j]| ==> hs[j][i] != '\n';
    }
    JoinFree(hs, ',', '\n');
    JoinFirst(hs, ',');
    JoinLast(hs, ',');
    var lastName := hs[|hs| - 1];
    assert 'a' <= lastName[|lastName| - 1] <= 'z';
  }

  /** A record's exported line is non-empty, free of line feeds, and trimmed, when no value
      holds a line break or has spaces at its ends. */
  lemma RowLineClean(row: Row, hs: seq<string>)
    requires |hs| >= 1
    requires forall j :: 0 <= j < |hs| ==> CsvSafe(CellText(row, hs[j]))
    ensures var l := RowLine(row, hs); l != [] && '\n' !in l && Trimmed(l)
  {
    RowLineQuoted(row, hs);
    RowLineNoBreak(row, hs);
  }

  /** Every line an export writes is non-empty, free of line feeds, and trimmed. */
  lemma ExportedLinesClean(rows: seq<Row>, hs: seq<string>)
    requires |hs| >= 1
    requires forall j, i :: 0 <= j < |hs| && 0 <= i < |hs[j]| ==> 'a' <= hs[j][i] <= 'z'
    requires hs[0] != [] && hs[|hs| - 1] != []
    requires forall i, j :: 0 <= i < |rows| && 0 <= j < |hs| ==> CsvSafe(CellText(rows[i], hs[j]))
    ensures CleanLines([Join(hs, ',')] + RowLines(rows, hs))
  {
    var lines := RowLines(rows, hs);
    HeaderLineClean(hs);
    forall i | 0 <= i < |lines| ensures lines[i] != [] && '\n' !in lines[i] && Trimmed(lines[i]) {
      RowLineClean(rows[i], hs);
    }
  }

  /** The lines the roster reader sees in an export are exactly the lines the export wrote. */
  lemma ReadExportedLines(rows: seq<Row>, hs: seq<string>)
    requires |hs| >= 1
    requires forall j, i :: 0 <= j < |hs| && 0 <= i < |hs[j]| ==> 'a' <= hs[j][i] <= 'z'
    requires hs[0] != [] && hs[|hs| - 1] != []
    requires forall i, j :: 0 <= i < |rows| && 0 <= j < |hs| ==> CsvSafe(CellText(rows[i], hs[j]))
    ensures CsvLines(ExportCSV(rows, hs)) == [Join(hs, ',')] + RowLines(rows, hs)
  {
    var all := [Join(hs, ',')] + RowLines(rows, hs);
    ExportedLinesClean(rows, hs);
    assert ExportCSV(rows, hs) == Join(all, '\n');
    CsvLinesOfJoin(all);
  }

  /** What the roster reader makes of the exported line of one entry: its values with their
      quotes doubled, and "Unknown" for an empty name. */
  lemma ReadExportedRosterEntry(p: RosterEntry, id: string)
    requires CsvSafe(p.name) && CsvSafe(p.role) && CsvSafe(p.contact)
    ensures ImportedEntry(RosterHeaders, RowLine(RosterRow(p), RosterHeaders), id) ==
            RosterEntry(id, if p.name == [] then "Unknown" else DoubleQuotes(p.name),
                        DoubleQuotes(p.role), DoubleQuotes(p.contact), None, None)
  {
    var hs := RosterHeaders;
    var row := RosterRow(p);
    RosterHeadersPlain();
    assert hs[0] == "name" && hs[1] == "role" && hs[2] == "contact";
    ReadExportedLine(row, hs);
    var cols := CellValues(RowLine(row, hs));
    RosterColumns(cols);
    if p.name != [] {
      DoubleQuotesEnds(p.name);
    }
  }

  /** Every entry of the roster has values the roster reader keeps in one piece. */
  predicate RosterCsvSafe(roster: seq<RosterEntry>) {
    forall i :: 0 <= i < |roster| ==>
      CsvSafe(roster[i].name) && CsvSafe(roster[i].role) && CsvSafe(roster[i].contact)
  }

  /** roster.csv, as the roster reader sees it: the header names, then one line per entry. */
  lemma ReadRosterCsv(roster: seq<RosterEntry>)
    requires RosterCsvSafe(roster)
    ensures var rows := seq(|roster|, i requires 0 <= i < |roster| => RosterRow(roster[i]));
            CsvLines(ExportRosterCSV(roster)) == [Join(RosterHeaders, ',')] + RowLines(rows, RosterHeaders)
    ensures HeaderNames(Join(RosterHeaders, ',')) == RosterHeaders
  {
    var hs := RosterHeaders;
    var rows := seq(|roster|, i requires 0 <= i < |roster| => RosterRow(roster[i]));
    RosterHeadersPlain();
    assert hs[0] == "name" && hs[2] == "contact";
    forall i, j | 0 <= i < |rows| && 0 <= j < |hs| ensures CsvSafe(CellText(rows[i], hs[j])) {
      assert rows[i] == RosterRow(roster[i]);
    }
    ReadExportedLines(rows, hs);
    ReadPlainHeaderLine(hs);
  }

  /** Reading roster.csv back with the roster import gives one entry per exported entry, in
      order, with the name, role and contact written, except that every quote in them comes
      back doubled (the reader does not undo the doubling) and an empty name comes back as
      "Unknown". */
  lemma RosterCsvReimport(roster: seq<RosterEntry>, ids: seq<string>)
    requires RosterCsvSafe(roster)
    requires |ids| >= |roster|
    ensures |DataLines(ExportRosterCSV(roster))| == |roster|
    ensures var back := ImportedRoster(ExportRosterCSV(roster), ids);
            |back| == |roster| &&
            forall i :: 0 <= i < |roster| ==>
              back[i] == RosterEntry(ids[i], if roster[i].name == [] then "Unknown" else DoubleQuotes(roster[i].name),
                                     DoubleQuotes(roster[i].role), DoubleQuotes(roster[i].contact), None, None)
  {
    var hs := RosterHeaders;
    var rows := seq(|roster|, i requires 0 <= i < |roster| => RosterRow(roster[i]));
    var lines := RowLines(rows, hs);
    ReadRosterCsv(roster);
    var back := ImportedRoster(ExportRosterCSV(roster), ids);
    assert back == ImportEntries(hs, lines, ids);
    forall i | 0 <= i < |roster|
      ensures back[i] == RosterEntry(ids[i], if roster[i].name == [] then "Unknown" else DoubleQuotes(roster[i].name),
                                     DoubleQuotes(roster[i].role), DoubleQuotes(roster[i].contact), None, None)
    {
      ReadExportedRosterEntry(roster[i], ids[i]);
      assert lines[i] == RowLine(RosterRow(roster[i]), hs);
    }
  }

  /** Values without quotes survive the trip through roster.csv unchanged. */
  lemma RosterCsvRoundTrip(roster: seq<RosterEntry>, ids: seq<string>)
    requires RosterCsvSafe(roster)
    requires forall i :: 0 <= i < |roster| ==>
               roster[i].name != [] && '"' !in roster[i].name && '"' !in roster[i].role && '"' !in roster[i].contact
    requires |ids| >= |roster|
    ensures |DataLines(ExportRosterCSV(roster))| == |roster|
    ensures var back := ImportedRoster(ExportRosterCSV(roster), ids);
            |back| == |roster| &&
            forall i :: 0 <= i < |roster| ==>
              back[i].name == roster[i].name && back[i].role == roster[i].role &&
              back[i].contact == roster[i].contact
  {
    RosterCsvReimport(roster, ids);
  }

  /** Doubling lengthens every string that holds a quote. */
  lemma {:induction false} DoubleQuotesLonger(s: string)
    requires '"' in s
    ensures |DoubleQuotes(s)| > |s|
  {
    if s[0] != '"' {
      assert s == [s[0]] + s[1..];
      DoubleQuotesLonger(s[1..]);
    }
  }

  /** A roster value with a quote in it does not survive export and re-import: the entry that
      comes back has a longer name (or role, or contact) than the one written. */
  lemma QuotedValueNotRecovered(roster: seq<RosterEntry>, ids: seq<string>, i: nat)
    requires RosterCsvSafe(roster)
    requires |ids| >= |roster| && i < |roster|
    requires '"' in roster[i].name
    ensures |DataLines(ExportRosterCSV(roster))| == |roster|
    ensures var back := ImportedRoster(ExportRosterCSV(roster), ids);
            i < |back| && back[i].name != roster[i].name
  {
    RosterCsvReimport(roster, ids);
    var back := ImportedRoster(ExportRosterCSV(roster), ids);
    assert roster[i].name != [];
    assert back[i].name == DoubleQuotes(roster[i].name);
    DoubleQuotesLonger(roster[i].name);
  }

  /** No value the reader produces holds a comma: it splits every line on every comma. */
  lemma ImportedCommaFree(text: string, ids: seq<string>)
    requires |ids| >= |DataLines(text)|
    ensures var back := ImportedRoster(text, ids);
            forall j :: 0 <= j < |back| ==>
              ',' !in back[j].name && ',' !in back[j].role && ',' !in back[j].contact
  {
    var back := ImportedRoster(text, ids);
    var lines := CsvLines(text);
    if lines != [] {
      var headers := HeaderNames(lines[0]);
      forall j | 0 <= j < |back|
        ensures ',' !in back[j].name && ',' !in back[j].role && ',' !in back[j].contact
      {
        var e := ImportedEntry(headers, lines[1..][j], ids[j]);
        assert back[j] == e;
        var cols := CellValues(lines[1..][j]);
        assert ',' !in "Unknown";
        assert forall k :: k in cols ==> ',' !in k;
      }
    }
  }

  /** A roster value with a comma in it does not survive export and re-import: the reader
      splits the field at the comma, so no entry that comes back carries that name. */
  lemma CommaValueNotRecovered(roster: seq<RosterEntry>, ids: seq<string>, i: nat)
    requires i < |roster| && ',' in roster[i].name
    requires |ids| >= |DataLines(ExportRosterCSV(roster))|
    ensures var back := ImportedRoster(ExportRosterCSV(roster), ids);
            forall j :: 0 <= j < |back| ==> back[j].name != roster[i].name
  {
    ImportedCommaFree(ExportRosterCSV(roster), ids);
  }
}
