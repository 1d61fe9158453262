/**
 The import and export formats of the record layer: the CSV text `convertToCSV`
 writes, the row parser of the CSV importer, the mapping of parsed JSON elements to
 entries used by the JSON file and paste importers, the JSON value the exports hand
 to `JSON.stringify`, and the two downloadable templates.
 */
module Codec {
  import opened Text
  import opened Records

  /** The column names, in the order the export writes them. */
  const Header: seq<string> := ["type", "title", "description", "date", "grade", "institution", "category"]

  /** The first line of every exported file. */
  const HeaderLine: string := Join(Header, ',')

  /** The entry's values in header order (`item[header] || ''`: a missing optional
      field is already the empty string). */
  function Fields(e: Entry): (f: seq<string>)
    ensures |f| == |Header|
  {
    [e.kind, e.title, e.description, e.date, e.grade, e.institution, e.category]
  }

  // ---------------------------------------------------------------------------
  // CSV export

  /** `value.replace(/"/g, '""')`: every quote doubled, every other character kept. */
  function DoubleQuotes(s: string): (r: string)
    ensures '"' !in s ==> r == s
    ensures forall c :: c != '"' ==> (c in r <==> c in s)
    ensures |r| >= |s|
    ensures '"' in s ==> |r| > |s|
  {
    if s == [] then []
    else
      assert s == [s[0]] + s[1..];
      (if s[0] == '"' then "\"\"" else [s[0]]) + DoubleQuotes(s[1..])
  }

  /** Quotes are doubled piece by piece. */
  lemma {:induction false} DoubleQuotesAppend(a: string, b: string)
    ensures DoubleQuotes(a + b) == DoubleQuotes(a) + DoubleQuotes(b)
  {
    if a != [] {
      var head := if a[0] == '"' then "\"\"" else [a[0]];
      assert (a + b)[0] == a[0];
      assert (a + b)[1..] == a[1..] + b;
      DoubleQuotesAppend(a[1..], b);
      assert DoubleQuotes(a + b) == head + DoubleQuotes(a[1..] + b);
      assert DoubleQuotes(a) == head + DoubleQuotes(a[1..]);
    } else {
      assert a + b == b;
    }
  }

  /** Reads a doubled-quote encoding back: a pair of quotes stands for one quote. */
  function Undouble(s: string): string {
    if s == [] then []
    else if |s| >= 2 && s[0] == '"' && s[1] == '"' then ['"'] + Undouble(s[2..])
    else [s[0]] + Undouble(s[1..])
  }

  /** Doubling quotes loses nothing: reading the pairs back gives the original value. */
  lemma {:induction false} UndoubleDoubleQuotes(s: string)
    ensures Undouble(DoubleQuotes(s)) == s
  {
    if s != [] {
      UndoubleDoubleQuotes(s[1..]);
      var rest := DoubleQuotes(s[1..]);
      if s[0] == '"' {
        assert ("\"\"" + rest)[2..] == rest;
      } else {
        assert ([s[0]] + rest)[1..] == rest;
      }
      assert s == [s[0]] + s[1..];
    }
  }

  /** One exported field: the value, quotes doubled, wrapped in quotes. */
  function Quote(s: string): (r: string)
    ensures |r| >= 2 && r[0] == '"' && r[|r| - 1] == '"'
    ensures forall c :: c != '"' ==> (c in r <==> c in s)
  {
    ['"'] + DoubleQuotes(s) + ['"']
  }

  /** The quoted fields of one exported row, in header order. */
  function QuotedFields(e: Entry): (q: seq<string>)
    ensures |q| == |Header|
  {
    var f := Fields(e);
    seq(|f|, i requires 0 <= i < |f| => Quote(f[i]))
  }

  /** One exported row: the quoted fields joined by commas. It opens and closes with
      a quote. */
  function RowText(e: Entry): (row: string)
    ensures |row| >= 2 && row[0] == '"' && row[|row| - 1] == '"'
  {
    var q := QuotedFields(e);
    JoinEnds(q, ',');
    Join(q, ',')
  }

  function Rows(data: seq<Record>): (rows: seq<string>)
    ensures |rows| == |data|
  {
    seq(|data|, i requires 0 <= i < |data| => RowText(data[i].data))
  }

  /** The text `convertToCSV` returns: the header line, then one row per record,
      joined by newlines. */
  function CsvText(data: seq<Record>): (csv: string)
    ensures IsPrefix(HeaderLine, csv)
    ensures data == [] ==> csv == HeaderLine
  {
    var lines := [HeaderLine] + Rows(data);
    JoinEnds(lines, '\n');
    assert data == [] ==> lines == [HeaderLine];
    Join(lines, '\n')
  }

  lemma RowsAppend(data: seq<Record>, i: nat)
    requires i < |data|
    ensures Rows(data[..i + 1]) == Rows(data[..i]) + [RowText(data[i].data)]
  {
    var a, b := Rows(data[..i + 1]), Rows(data[..i]) + [RowText(data[i].data)];
    assert forall k :: 0 <= k < |a| ==> a[k] == b[k];
  }

  /** `convertToCSV`: pushes the header, then one row per record, and joins the lines. */
  method ConvertToCsv(data: seq<Record>) returns (csv: string)
    ensures csv == CsvText(data)
  {
    var csvRows := [HeaderLine];
    var i := 0;
    while i < |data|
      invariant 0 <= i <= |data|
      invariant csvRows == [HeaderLine] + Rows(data[..i])
    {
      RowsAppend(data, i);
      csvRows := csvRows + [RowText(data[i].data)];
      i := i + 1;
    }
    assert data[..i] == data;
    csv := Join(csvRows, '\n');
  }

  /** No field of the entry holds the character `c`. */
  predicate FieldsAvoid(e: Entry, c: char) {
    forall f :: f in Fields(e) ==> c !in f
  }

  /** The header is a single line. */
  lemma HeaderOneLine()
    ensures '\n' !in HeaderLine
  {
    JoinAvoids(Header, ',', '\n');
  }

  /** The header line splits back into the seven column names. */
  lemma HeaderColumns()
    ensures Split(HeaderLine, ',') == Header
  {
    SplitJoin(Header, ',');
  }

  lemma RowAvoids(e: Entry, c: char)
    requires c != ',' && c != '"' && FieldsAvoid(e, c)
    ensures c !in RowText(e)
  {
    var q := QuotedFields(e);
    forall p | p in q ensures c !in p {
      var i :| 0 <= i < |q| && q[i] == p;
      assert Fields(e)[i] in Fields(e);
    }
    JoinAvoids(q, ',', c);
  }

  /** When no field holds a newline, the exported text splits into exactly
      `data.length + 1` lines: the fixed header, then each record's row in order. */
  lemma CsvLines(data: seq<Record>)
    requires forall r :: r in data ==> FieldsAvoid(r.data, '\n')
    ensures Split(CsvText(data), '\n') == [HeaderLine] + Rows(data)
    ensures |Split(CsvText(data), '\n')| == |data| + 1
  {
    LinesAvoidNewline(data);
    SplitJoin([HeaderLine] + Rows(data), '\n');
  }

  /** No line of the export, header included, holds a line break of its own. */
  lemma LinesAvoidNewline(data: seq<Record>)
    requires forall r :: r in data ==> FieldsAvoid(r.data, '\n')
    ensures forall i :: 0 <= i < |data| + 1 ==> '\n' !in ([HeaderLine] + Rows(data))[i]
  {
    var lines := [HeaderLine] + Rows(data);
    HeaderOneLine();
    forall i | 1 <= i < |lines| ensures '\n' !in lines[i] {
      assert data[i - 1] in data;
      RowAvoids(data[i - 1].data, '\n');
    }
  }

  /** When no field holds a comma, a row splits into its seven quoted fields, each the
      value wrapped in quotes with its quotes doubled. */
  lemma RowFields(e: Entry)
    requires FieldsAvoid(e, ',')
    ensures Split(RowText(e), ',') == QuotedFields(e)
    ensures forall i :: 0 <= i < |Header| ==> Undouble(QuotedFields(e)[i][1..|QuotedFields(e)[i]| - 1]) == Fields(e)[i]
  {
    var q := QuotedFields(e);
    forall i | 0 <= i < |q| ensures ',' !in q[i] {
      assert Fields(e)[i] in Fields(e);
    }
    SplitJoin(q, ',');
    forall i | 0 <= i < |Header|
      ensures Undouble(q[i][1..|q[i]| - 1]) == Fields(e)[i]
    {
      assert q[i][1..|q[i]| - 1] == DoubleQuotes(Fields(e)[i]);
      UndoubleDoubleQuotes(Fields(e)[i]);
    }
  }

  // ---------------------------------------------------------------------------
  // CSV import

  /** `.replace(/^"|"$/g, '')`: drops a leading quote and a trailing quote, each on
      its own. */
  function StripQuotes(s: string): (r: string)
    ensures |r| <= |s|
    ensures |s| >= 2 && s[0] == '"' && s[|s| - 1] == '"' ==> r == s[1..|s| - 1]
    ensures |s| >= 1 && s[0] == '"' && (|s| == 1 || s[|s| - 1] != '"') ==> r == s[1..]
    ensures |s| >= 1 && s[0] != '"' && s[|s| - 1] == '"' ==> r == s[..|s| - 1]
    ensures s == [] || (s[0] != '"' && s[|s| - 1] != '"') ==> r == s
  {
    var t := if |s| > 0 && s[0] == '"' then s[1..] else s;
    if |t| > 0 && t[|t| - 1] == '"' then t[..|t| - 1] else t
  }

  /** One comma-separated piece as the importer reads it: trimmed, then unquoted. */
  function Clean(v: string): (r: string)
    ensures |r| <= |v|
    ensures v != [] && !IsSpace(v[0]) && !IsSpace(v[|v| - 1]) && v[0] != '"' && v[|v| - 1] != '"' ==> r == v
  {
    StripQuotes(Trim(v))
  }

  /** `values[i]`, where reading past the end gives `undefined`, a falsy value. */
  function At(values: seq<string>, i: nat): (v: string)
    ensures i < |values| ==> v == values[i]
    ensures |values| <= i ==> v == ""
  {
    if i < |values| then values[i] else ""
  }

  /** `v || d` on strings: the empty string is falsy. */
  function Or(v: string, d: string): (r: string)
    ensures v != "" ==> r == v
    ensures v == "" ==> r == d
  {
    if v != "" then v else d
  }

  /** The pieces of a line as the importer reads them: split on every comma, each
      piece trimmed and unquoted. */
  function Values(line: string): (vs: seq<string>)
    ensures |vs| == |Split(line, ',')| && |vs| >= 1
    ensures ',' !in line ==> vs == [Clean(line)]
  {
    var pieces := Split(line, ',');
    if ',' !in line then
      SplitNoSeparator(line, ',');
      [Clean(line)]
    else
      seq(|pieces|, i requires 0 <= i < |pieces| => Clean(pieces[i]))
  }

  /** The entry built from the pieces, each missing or empty piece replaced by its
      default; `today` is the `YYYY-MM-DD` date a missing date defaults to. */
  function EntryOfValues(values: seq<string>, today: string): (e: Entry)
    ensures e.kind != "" && e.title != ""
    ensures today != "" ==> e.date != ""
  {
    Entry(
      Or(At(values, 0), "achievement"),
      Or(At(values, 1), "Untitled"),
      Or(At(values, 2), ""),
      Or(At(values, 3), today),
      Or(At(values, 4), ""),
      Or(At(values, 5), ""),
      Or(At(values, 6), ""))
  }

  /** The entry the CSV importer builds from one non-blank line. */
  function ParseRow(line: string, today: string): (e: Entry)
    ensures e.kind != "" && e.title != ""
    ensures today != "" ==> e.date != ""
  {
    EntryOfValues(Values(line), today)
  }

  /** A line the importer skips: one made of white space only. */
  predicate Blank(line: string)
    ensures line == [] ==> Blank(line)
    ensures Blank(line) ==> '"' !in line && ',' !in line
  {
    forall i | 0 <= i < |line| :: IsSpace(line[i])
  }

  /** `Blank` is the source's test `!lines[i].trim()`: the line's trim is empty. */
  lemma BlankIsEmptyTrim(line: string)
    ensures Blank(line) <==> Trim(line) == ""
  {
  }

  /** The row parser for a given default date, as a function value. */
  function RowParser(today: string): string -> Entry {
    (l: string) => ParseRow(l, today)
  }

  /** The lines the importer does not skip. */
  function NonBlank(): string -> bool {
    (l: string) => !Blank(l)
  }

  /** What the importer's loop adds for one line: nothing for a blank line, else the
      line's parsed entry. */
  function LineEntries(line: string, today: string): (es: seq<Entry>)
    ensures |es| <= 1
  {
    if Blank(line) then [] else [ParseRow(line, today)]
  }

  /** What the importer's loop adds for a run of lines: the non-blank lines, in order,
      each parsed into an entry. */
  function ImportLines(lines: seq<string>, today: string): (es: seq<Entry>)
    ensures |es| <= |lines|
  {
    Map(Select(lines, NonBlank()), RowParser(today))
  }

  /** The entries a CSV file produces: line 0 is discarded whatever it holds, and every
      later non-blank line gives one entry. */
  function CsvEntries(text: string, today: string): (es: seq<Entry>)
    ensures |es| < |Split(text, '\n')|
  {
    ImportLines(Split(text, '\n')[1..], today)
  }

  /** Every entry a CSV file produces has a type and a title. */
  lemma CsvEntriesNamed(text: string, today: string)
    ensures forall e :: e in CsvEntries(text, today) ==> e.kind != "" && e.title != ""
  {
    var es := CsvEntries(text, today);
    forall e | e in es ensures e.kind != "" && e.title != "" {
      var i :| 0 <= i < |es| && es[i] == e;
      var kept := Select(Split(text, '\n')[1..], NonBlank());
      MapAt(kept, RowParser(today), i);
    }
  }

  /** Lines are imported independently of each other: a blank line adds nothing, and
      any other line adds exactly its own parsed entry, in place. */
  lemma ImportLinesSplice(a: seq<string>, line: string, b: seq<string>, today: string)
    ensures ImportLines(a + [line] + b, today) == ImportLines(a, today) + LineEntries(line, today) + ImportLines(b, today)
  {
    MapSelectSplice(a, line, b, NonBlank(), RowParser(today));
  }

  /** The importer's loop, line by line: the entries of the first `k` lines, each line
      adding its own after those of the lines before it. */
  function ImportPrefix(lines: seq<string>, k: nat, today: string): seq<Entry>
    requires k <= |lines|
  {
    if k == 0 then [] else ImportPrefix(lines, k - 1, today) + LineEntries(lines[k - 1], today)
  }

  lemma ImportNextLine(lines: seq<string>, k: nat, today: string)
    requires k < |lines|
    ensures ImportLines(lines[..k + 1], today) == ImportLines(lines[..k], today) + LineEntries(lines[k], today)
  {
    assert lines[..k + 1] == lines[..k] + [lines[k]] + [];
    ImportLinesSplice(lines[..k], lines[k], [], today);
    var a, b := ImportLines(lines[..k], today), LineEntries(lines[k], today);
    assert a + b + [] == a + b;
  }

  /** Importing line by line gives what importing the run of lines at once gives. */
  lemma {:induction false} ImportPrefixLines(lines: seq<string>, k: nat, today: string)
    requires k <= |lines|
    ensures ImportPrefix(lines, k, today) == ImportLines(lines[..k], today)
  {
    if k == 0 {
      assert lines[..0] == [];
    } else {
      ImportPrefixLines(lines, k - 1, today);
      ImportNextLine(lines, k - 1, today);
    }
  }

  /** Line 0 is dropped unconditionally, so a file of a single line, such as a bare
      header, imports nothing. */
  /** The loop's running result over all lines after the first is the file's import. */
  lemma ImportPrefixWhole(text: string, today: string)
    ensures var body := Split(text, '\n')[1..];
      ImportPrefix(body, |body|, today) == CsvEntries(text, today)
  {
    var body := Split(text, '\n')[1..];
    ImportPrefixLines(body, |body|, today);
    assert body[..|body|] == body;
  }

  lemma SingleLineImportsNothing(text: string, today: string)
    requires '\n' !in text
    ensures CsvEntries(text, today) == []
  {
    SplitNoSeparator(text, '\n');
  }

  /** Whatever the first line holds, it does not change what the rest imports. */
  lemma FirstLineIgnored(first: string, rest: string, today: string)
    requires '\n' !in first
    ensures CsvEntries(first + "\n" + rest, today) == ImportLines(Split(rest, '\n'), today)
  {
    SplitAfterPiece(first, '\n', rest);
  }

  /** A field read back from its exported form: the enclosing quotes the export added
      are removed, and the quotes it doubled stay doubled. */
  lemma CleanQuoted(f: string)
    ensures Clean(Quote(f)) == DoubleQuotes(f)
  {
    var q := Quote(f);
    assert Trim(q) == q;
    assert q[1..|q| - 1] == DoubleQuotes(f);
  }

  /** The values the importer reads from an exported row are the entry's fields with
      their quotes still doubled. */
  lemma RowValues(e: Entry)
    requires FieldsAvoid(e, ',')
    ensures |Values(RowText(e))| == |Header|
    ensures forall i :: 0 <= i < |Header| ==> Values(RowText(e))[i] == DoubleQuotes(Fields(e)[i])
  {
    RowFields(e);
    forall i | 0 <= i < |Header| ensures Values(RowText(e))[i] == DoubleQuotes(Fields(e)[i]) {
      CleanQuoted(Fields(e)[i]);
    }
  }

  /** An entry safe for the CSV round trip: no field holds a comma, a quote or a newline,
      and the fields the importer defaults (type, title, date) are non-empty. */
  predicate CsvSafe(e: Entry) {
    && FieldsAvoid(e, ',') && FieldsAvoid(e, '"') && FieldsAvoid(e, '\n')
    && e.kind != "" && e.title != "" && e.date != ""
  }

  /** Importing an exported row gives back the entry it was written from. */
  lemma ParseRowText(e: Entry, today: string)
    requires CsvSafe(e)
    ensures ParseRow(RowText(e), today) == e
  {
    RowValues(e);
    forall i | 0 <= i < |Header| ensures Values(RowText(e))[i] == Fields(e)[i] {
      assert Fields(e)[i] in Fields(e);
    }
  }

  lemma RowNotBlank(e: Entry)
    ensures !Blank(RowText(e))
  {
    var q := QuotedFields(e);
    assert RowText(e)[0] == '"' by {
      assert q == [q[0]] + q[1..];
    }
  }

  lemma ImportRows(data: seq<Record>, today: string)
    requires forall r :: r in data ==> CsvSafe(r.data)
    ensures ImportLines(Rows(data), today) == Entries(data)
  {
    forall row | row in Rows(data) ensures NonBlank()(row) {
      var i :| 0 <= i < |data| && Rows(data)[i] == row;
      RowNotBlank(data[i].data);
    }
    SelectAll(Rows(data), NonBlank());
    forall i | 0 <= i < |data| ensures ParseRow(Rows(data)[i], today) == data[i].data {
      assert data[i] in data;
      ParseRowText(data[i].data, today);
    }
  }

  /** Exporting to CSV and importing the file gives back the entries of the records, in
      order, provided no field holds a comma, a quote or a newline and type, title and
      date are non-empty. */
  lemma CsvRoundTrip(data: seq<Record>, today: string)
    requires forall r :: r in data ==> CsvSafe(r.data)
    ensures CsvEntries(CsvText(data), today) == Entries(data)
  {
    CsvLines(data);
    assert ([HeaderLine] + Rows(data))[1..] == Rows(data);
    ImportRows(data, today);
  }

  /** The importer does not read doubled quotes back: a title holding a quote comes
      back with every quote doubled, so it differs from the one exported. */
  lemma ImportKeepsDoubledQuotes(e: Entry, today: string)
    requires FieldsAvoid(e, ',') && '"' in e.title
    ensures ParseRow(RowText(e), today).title == DoubleQuotes(e.title)
    ensures ParseRow(RowText(e), today).title != e.title
  {
    RowValues(e);
  }

  /** `Clean` on a piece that keeps only the opening quote of its field. */
  lemma CleanHalfQuoted(x: string)
    requires x != [] && '"' !in x && !IsSpace(x[|x| - 1])
    ensures Clean(['"'] + x) == x
  {
    var v := ['"'] + x;
    assert v[1..] == x;
    assert Trim(v) == v by {
      assert v[|v| - 1] == x[|x| - 1];
    }
    assert x[|x| - 1] in x;
  }

  /** Quoting `x,y` puts the comma right after the opening quote and `x`. */
  lemma QuoteSplitsAtComma(x: string, y: string)
    requires '"' !in x
    ensures Quote(x + [','] + y) == (['"'] + x) + [','] + (DoubleQuotes(y) + ['"'])
  {
    DoubleQuotesAtComma(x, y);
    Regroup(['"'], x, [','], DoubleQuotes(y), ['"']);
  }

  lemma DoubleQuotesAtComma(x: string, y: string)
    requires '"' !in x
    ensures DoubleQuotes(x + [','] + y) == x + ([','] + DoubleQuotes(y))
  {
    assert DoubleQuotes([','] + y) == [','] + DoubleQuotes(y) by {
      assert ([','] + y)[1..] == y;
    }
    DoubleQuotesAppend(x, [','] + y);
    assert x + [','] + y == x + ([','] + y);
  }

  lemma Regroup(a: string, b: string, c: string, d: string, e: string)
    ensures a + (b + (c + d)) + e == (a + b) + c + (d + e)
  {
  }

  /** The importer splits on every comma, quoted or not: a title `x,y` comes back as its
      part before the comma (the quote the export opened it with is dropped). */
  lemma ImportSplitsQuotedCommas(e: Entry, x: string, y: string, today: string)
    requires e.title == x + [','] + y && ',' !in e.kind
    requires x != [] && ',' !in x && '"' !in x && !IsSpace(x[|x| - 1])
    ensures ParseRow(RowText(e), today).title == x
  {
    var q := QuotedFields(e);
    QuoteSplitsAtComma(x, y);
    assert q[1] == (['"'] + x) + [','] + (DoubleQuotes(y) + ['"']);
    var tail := Join(q[2..], ',');
    assert q[1..][1..] == q[2..];
    var rest := DoubleQuotes(y) + ['"'] + [','] + tail;
    assert Join(q[1..], ',') == (['"'] + x) + [','] + rest;
    assert RowText(e) == q[0] + [','] + ((['"'] + x) + [','] + rest);
    SplitAfterPiece(q[0], ',', (['"'] + x) + [','] + rest);
    SplitAfterPiece(['"'] + x, ',', rest);
    CleanHalfQuoted(x);
  }

  // ---------------------------------------------------------------------------
  // JSON import and export

  /** A value `JSON.parse` can return. Numbers are integers here; only whether a value
      is falsy matters to the importers. */
  datatype Json =
    | JNull
    | JBool(b: bool)
    | JNum(n: int)
    | JStr(s: string)
    | JArr(items: seq<Json>)
    | JObj(fields: map<string, Json>)

  /** JavaScript truthiness: `null`, `false`, `0` and `""` are falsy. */
  predicate Truthy(j: Json)
    ensures Truthy(j) ==> j != JNull
    ensures j.JStr? ==> (Truthy(j) <==> j.s != "")
    ensures j.JArr? || j.JObj? ==> Truthy(j)
  {
    match j
    case JNull => false
    case JBool(b) => b
    case JNum(n) => n != 0
    case JStr(s) => s != ""
    case _ => true
  }

  /** `entry[key]`: `None` is `undefined`. A non-object element has none of the keys. */
  function Prop(e: Json, key: string): (p: Option<Json>)
    ensures p.Some? <==> e.JObj? && key in e.fields
    ensures p.Some? ==> p.value == e.fields[key]
  {
    if e.JObj? && key in e.fields then Some(e.fields[key]) else None
  }

  /** An element the importers map to an entry: not `null` (reading a property of `null`
      throws), and each of the seven keys, when truthy, holds a string. */
  predicate Importable(e: Json) {
    && e != JNull
    && forall k :: k in Header && Prop(e, k).Some? && Truthy(Prop(e, k).value) ==> Prop(e, k).value.JStr?
  }

  /** `entry[key] || d`. */
  function FieldOr(e: Json, key: string, d: string): (r: string)
    requires Importable(e) && key in Header
    ensures Prop(e, key).Some? && Truthy(Prop(e, key).value) ==> r == Prop(e, key).value.s && r != ""
    ensures !(Prop(e, key).Some? && Truthy(Prop(e, key).value)) ==> r == d
  {
    var p := Prop(e, key);
    if p.Some? && Truthy(p.value) then p.value.s else d
  }

  /** The per-element mapping of the JSON file and paste importers. */
  function EntryFromJson(e: Json, today: string): (r: Entry)
    requires Importable(e)
    ensures r.kind != "" && r.title != ""
    ensures today != "" ==> r.date != ""
  {
    Entry(
      FieldOr(e, "type", "achievement"),
      FieldOr(e, "title", "Untitled"),
      FieldOr(e, "description", ""),
      FieldOr(e, "date", today),
      FieldOr(e, "grade", ""),
      FieldOr(e, "institution", ""),
      FieldOr(e, "category", ""))
  }

  /** An element that is not an object (a number, a string, an array, a boolean) gives
      the all-defaults entry. */
  lemma NonObjectGetsDefaults(e: Json, today: string)
    requires e != JNull && !e.JObj?
    ensures Importable(e)
    ensures EntryFromJson(e, today) == Entry("achievement", "Untitled", "", today, "", "", "")
  {
  }

  /** An element whose values are all falsy gets the same defaults. */
  lemma FalsyFieldsGetDefaults(e: Json, today: string)
    requires e.JObj?
    requires forall k :: k in Header && k in e.fields ==> !Truthy(e.fields[k])
    ensures Importable(e)
    ensures EntryFromJson(e, today) == Entry("achievement", "Untitled", "", today, "", "", "")
  {
  }

  function JsonEntries(items: seq<Json>, today: string): (es: seq<Entry>)
    requires forall e :: e in items ==> Importable(e)
    ensures |es| == |items|
  {
    seq(|items|, i requires 0 <= i < |items| => EntryFromJson(items[i], today))
  }

  lemma JsonEntriesNext(items: seq<Json>, i: nat, today: string)
    requires i < |items| && forall e :: e in items ==> Importable(e)
    ensures JsonEntries(items[..i + 1], today) == JsonEntries(items[..i], today) + [EntryFromJson(items[i], today)]
  {
    assert items[i] in items;
  }

  /** A record as `JSON.stringify` sees it: `{ id, ...data }`. */
  function ToJson(r: Record): (j: Json)
    ensures j.JObj? && "id" in j.fields && j.fields["id"] == JStr(r.id)
  {
    JObj(map[
      "id" := JStr(r.id),
      "type" := JStr(r.data.kind),
      "title" := JStr(r.data.title),
      "description" := JStr(r.data.description),
      "date" := JStr(r.data.date),
      "grade" := JStr(r.data.grade),
      "institution" := JStr(r.data.institution),
      "category" := JStr(r.data.category)])
  }

  /** The array the JSON export and the filtered export serialise. */
  function ToJsonArray(data: seq<Record>): (j: Json)
    ensures j.JArr? && |j.items| == |data|
  {
    JArr(seq(|data|, i requires 0 <= i < |data| => ToJson(data[i])))
  }

  /** An exported record has exactly the keys `id` and the seven column names, the
      document id under `id` and each field under its column name. */
  lemma ToJsonKeys(r: Record)
    ensures forall k :: k in ToJson(r).fields <==> k == "id" || k in Header
    ensures forall i :: 0 <= i < |Header| ==> Prop(ToJson(r), Header[i]) == Some(JStr(Fields(r.data)[i]))
  {
  }

  /** Every exported element carries its record's document id under `id`. */
  lemma ExportCarriesIds(data: seq<Record>)
    ensures forall i :: 0 <= i < |data| ==> Prop(ToJsonArray(data).items[i], "id") == Some(JStr(data[i].id))
  {
  }

  /** Importing an exported record gives back its entry (the `id` is ignored), when type,
      title and date are non-empty. */
  lemma JsonRoundTrip(r: Record, today: string)
    requires r.data.kind != "" && r.data.title != "" && r.data.date != ""
    ensures Importable(ToJson(r))
    ensures EntryFromJson(ToJson(r), today) == r.data
  {
    var j := ToJson(r);
    assert Importable(j) by {
      forall k | k in Header ensures Prop(j, k).Some? && Prop(j, k).value.JStr? { }
    }
    assert FieldOr(j, "type", "achievement") == r.data.kind;
    assert FieldOr(j, "title", "Untitled") == r.data.title;
    assert FieldOr(j, "date", today) == r.data.date;
  }

  /** Exporting to JSON and importing the array gives back the entries, in order. */
  lemma JsonExportImport(data: seq<Record>, today: string)
    requires forall r :: r in data ==> r.data.kind != "" && r.data.title != "" && r.data.date != ""
    ensures forall e :: e in ToJsonArray(data).items ==> Importable(e)
    ensures JsonEntries(ToJsonArray(data).items, today) == Entries(data)
  {
    var items := ToJsonArray(data).items;
    forall i | 0 <= i < |data| ensures Importable(items[i]) && EntryFromJson(items[i], today) == data[i].data {
      assert data[i] in data;
      JsonRoundTrip(data[i], today);
    }
  }

  /** `new Date().toISOString().split('T')[0]`, for the ISO timestamp `now`: the date part. */
  function IsoDay(now: string): (d: string)
    ensures 'T' !in d
  {
    var parts := Split(now, 'T');
    assert parts[0] in parts;
    parts[0]
  }

  lemma IsoDayOfTimestamp(day: string, time: string)
    requires 'T' !in day
    ensures IsoDay(day + "T" + time) == day
  {
    SplitAfterPiece(day, 'T', time);
  }

  // ---------------------------------------------------------------------------
  // Templates

  /** The sample entry of the downloadable templates. */
  const ExampleEntry := Entry("achievement", "Example Achievement", "This is a sample description",
    "2025-01-15", "A+", "University Name", "Computer Science")

  /** The JSON template, before `JSON.stringify`. */
  const JsonTemplate: Json := JArr([JObj(map[
    "type" := JStr("achievement"),
    "title" := JStr("Example Achievement"),
    "description" := JStr("This is a sample description"),
    "date" := JStr("2025-01-15"),
    "grade" := JStr("A+"),
    "institution" := JStr("University Name"),
    "category" := JStr("Computer Science")])])

  /** The JSON template imports as exactly its sample entry. */
  lemma JsonTemplateImports(today: string)
    ensures forall e :: e in JsonTemplate.items ==> Importable(e)
    ensures JsonEntries(JsonTemplate.items, today) == [ExampleEntry]
  {
  }
}
