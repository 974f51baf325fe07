/** parseCSV of markets.js: a line-oriented comma splitter without quoting.
    The trimmed text is cut into lines at LF or CRLF, the first line is
    cut at commas into column names, and every later line becomes a record
    whose property named by the i-th column holds the line's i-th
    comma-separated part. */
module Csv {
  import opened JsText

  /** What a record's property holds: a part of the line, or undefined when
      the line had fewer parts than the header has columns. */
  datatype Value = Str(text: string) | Undefined

  /** A record's own properties. */
  type Record = map<string, Value>

  /** Assigning a string or undefined to this name goes through the accessor
      that every plain object inherits, which ignores anything that is not an
      object, so the record gets no own property of that name. */
  const ProtoKey: string := "__proto__"

  /** Reading a property: a name the record does not have reads as undefined.
      (Reading __proto__ would give the prototype instead; no caller asks.) */
  function Field(rec: Record, name: string): (v: Value)
    requires name != ProtoKey
    ensures v.Str? ==> name in rec
    ensures name in rec ==> v == rec[name]
  {
    if name in rec then rec[name] else Undefined
  }

  /** The i-th element of the parts array: undefined past its end. */
  function Cell(parts: seq<string>, i: nat): (v: Value)
    ensures v.Str? <==> i < |parts|
    ensures v.Str? ==> v.text == parts[i]
  {
    if i < |parts| then Str(parts[i]) else Undefined
  }

  /** The last position of c in cols. */
  function LastIndexOf(cols: seq<string>, c: string): (i: nat)
    requires c in cols
    ensures i < |cols| && cols[i] == c
    ensures forall j :: i < j < |cols| ==> cols[j] != c
  {
    if cols[|cols| - 1] == c then |cols| - 1 else LastIndexOf(cols[..|cols| - 1], c)
  }

  /** The record a line with the given parts becomes, stated declaratively:
      one property per column name (except __proto__), holding the part at
      the LAST position where that name occurs in the header, since a later
      assignment overwrites an earlier one. */
  function RecordOf(cols: seq<string>, parts: seq<string>): (rec: Record)
    ensures rec.Keys == (set c | c in cols) - {ProtoKey}
  {
    map c | c in cols && c != ProtoKey :: Cell(parts, LastIndexOf(cols, c))
  }

  /** Adding one more column to the header changes the record only at that
      column's name, where the new position's part now wins. */
  lemma RecordOfSnoc(cols: seq<string>, parts: seq<string>, i: nat)
    requires i < |cols|
    ensures RecordOf(cols[..i + 1], parts) ==
      if cols[i] == ProtoKey then RecordOf(cols[..i], parts)
      else RecordOf(cols[..i], parts)[cols[i] := Cell(parts, i)]
  {
    var longer, shorter := cols[..i + 1], cols[..i];
    assert longer == shorter + [cols[i]];
    var m1 := RecordOf(longer, parts);
    var m0 := RecordOf(shorter, parts);
    forall c | c in m1 && c != cols[i]
      ensures c in m0 && m1[c] == m0[c]
    {
      LastIndexOfSnoc(shorter, cols[i], c);
    }
    if cols[i] != ProtoKey {
      assert LastIndexOf(longer, cols[i]) == i;
      MapUpdateExt(m1, m0, cols[i], Cell(parts, i));
    } else {
      MapSameExt(m1, m0);
    }
  }

  /** A name other than the appended one keeps its last position. */
  lemma LastIndexOfSnoc(cols: seq<string>, d: string, c: string)
    requires c in cols + [d] && c != d
    ensures c in cols && LastIndexOf(cols + [d], c) == LastIndexOf(cols, c)
  {
    assert (cols + [d])[..|cols|] == cols;
  }

  lemma MapUpdateExt<K, V>(m1: map<K, V>, m0: map<K, V>, k: K, v: V)
    requires m1.Keys == m0.Keys + {k} && k in m1 && m1[k] == v
    requires forall key :: key in m1 && key != k ==> key in m0 && m1[key] == m0[key]
    ensures m1 == m0[k := v]
  {
  }

  lemma MapSameExt<K, V>(m1: map<K, V>, m0: map<K, V>)
    requires m1.Keys == m0.Keys
    requires forall key :: key in m1 ==> m1[key] == m0[key]
    ensures m1 == m0
  {
  }

  /** The body of the forEach callback, run over the header in order:
      obj[c] = parts[i] for each column c at position i. */
  method FillRecord(cols: seq<string>, parts: seq<string>) returns (obj: Record)
    ensures obj == RecordOf(cols, parts)
  {
    obj := map[];
    var i := 0;
    while i < |cols|
      invariant 0 <= i <= |cols|
      invariant obj == RecordOf(cols[..i], parts)
    {
      RecordOfSnoc(cols, parts, i);
      if cols[i] != ProtoKey {
        obj := obj[cols[i] := Cell(parts, i)];
      }
      i := i + 1;
    }
    assert cols[..i] == cols;
  }

  /** The lines of the trimmed text: the header first, then one per record. */
  function Lines(csv: string): (lines: seq<string>)
    ensures |lines| >= 1
  {
    SplitLines(Trim(csv))
  }

  /** The header's column names. */
  function Columns(csv: string): seq<string> {
    Split(Lines(csv)[0], ',')
  }

  /** What parseCSV returns, as a value: one record per line after the
      header, in order, each built from that line's comma-separated parts. */
  function CsvRecords(csv: string): seq<Record> {
    var lines := Lines(csv);
    seq(|lines| - 1, k requires 0 <= k < |lines| - 1 =>
      RecordOf(Columns(csv), Split(lines[k + 1], ',')))
  }

  /** parseCSV: the header/rows destructuring and rows.map, one record per
      row, each filled by FillRecord. */
  method ParseCsv(csv: string) returns (records: seq<Record>)
    ensures records == CsvRecords(csv)
  {
    var lines := SplitLines(Trim(csv));
    var header, rows := lines[0], lines[1..];
    var cols := Split(header, ',');
    records := [];
    var k := 0;
    while k < |rows|
      invariant 0 <= k <= |rows|
      invariant |records| == k
      invariant forall j :: 0 <= j < k ==> records[j] == RecordOf(cols, Split(rows[j], ','))
    {
      var parts := Split(rows[k], ',');
      var obj := FillRecord(cols, parts);
      records := records + [obj];
      k := k + 1;
    }
    assert cols == Columns(csv);
    assert forall j :: 0 <= j < |rows| ==> rows[j] == Lines(csv)[j + 1];
  }

  // ---------------------------------------------------------------------------
  // What a record holds

  /** The part at position i is what the record holds for cols[i], unless the
      same name comes again later in the header; a position past the line's
      parts gives undefined. */
  lemma RecordFieldAt(cols: seq<string>, parts: seq<string>, i: nat)
    requires i < |cols| && cols[i] != ProtoKey
    requires forall j :: i < j < |cols| ==> cols[j] != cols[i]
    ensures cols[i] in RecordOf(cols, parts)
    ensures i < |parts| ==> RecordOf(cols, parts)[cols[i]] == Str(parts[i])
    ensures i >= |parts| ==> RecordOf(cols, parts)[cols[i]] == Undefined
  {
    assert LastIndexOf(cols, cols[i]) == i;
  }

  /** With a repeated column name, the later position wins. */
  lemma RecordDuplicateColumn(cols: seq<string>, parts: seq<string>, i: nat, j: nat)
    requires i < j < |cols| && cols[i] == cols[j] && cols[j] != ProtoKey
    requires forall k :: j < k < |cols| ==> cols[k] != cols[j]
    ensures RecordOf(cols, parts)[cols[i]] == Cell(parts, j)
  {
    RecordFieldAt(cols, parts, j);
  }

  /** Parts past the last column are dropped. */
  lemma RecordIgnoresExtraParts(cols: seq<string>, parts: seq<string>)
    requires |parts| >= |cols|
    ensures RecordOf(cols, parts) == RecordOf(cols, parts[..|cols|])
  {
    var m1, m2 := RecordOf(cols, parts), RecordOf(cols, parts[..|cols|]);
    forall c | c in m1 ensures m1[c] == m2[c] {
      var i := LastIndexOf(cols, c);
      assert parts[..|cols|][i] == parts[i];
    }
  }

  /** Header names that are distinct and ordinary; every line then maps
      position for position onto the record. */
  predicate PlainColumns(cols: seq<string>) {
    (forall i, j :: 0 <= i < j < |cols| ==> cols[i] != cols[j])
    && (forall i :: 0 <= i < |cols| ==> cols[i] != ProtoKey)
  }

  /** The parts of a full line can be read back from its record, column by
      column. */
  lemma {:induction false} RecordReadsBack(cols: seq<string>, parts: seq<string>)
    requires PlainColumns(cols) && |parts| == |cols|
    ensures forall i :: 0 <= i < |cols| ==> cols[i] in RecordOf(cols, parts)
    ensures seq(|cols|, i requires 0 <= i < |cols| => RecordOf(cols, parts)[cols[i]].text) == parts
  {
    forall i | 0 <= i < |cols| ensures RecordOf(cols, parts)[cols[i]] == Str(parts[i]) {
      RecordFieldAt(cols, parts, i);
    }
  }

  // ---------------------------------------------------------------------------
  // How many records, from which lines

  /** One record per line break in the trimmed text, i.e. per line after the
      header. */
  lemma RecordCount(csv: string)
    ensures |CsvRecords(csv)| == CountChar(Trim(csv), '\n')
  {
    SplitLinesCount(Trim(csv));
  }

  /** An empty or blank input has no records. */
  lemma BlankInputNoRecords(csv: string)
    requires Blank(csv)
    ensures CsvRecords(csv) == []
  {
    TrimBlank(csv);
    assert Lines(csv) == [""];
  }

  /** Blank lines and spaces around the text are removed before splitting,
      so they produce no records and change none. */
  lemma PaddingIgnored(w1: string, csv: string, w2: string)
    requires Blank(w1) && Blank(w2)
    ensures CsvRecords(w1 + csv + w2) == CsvRecords(csv)
  {
    TrimIgnoresPadding(w1, csv, w2);
    assert Lines(w1 + csv + w2) == Lines(csv);
    assert Columns(w1 + csv + w2) == Columns(csv);
  }

  /** No line of the trimmed text ends in CR unless the text holds CR CR LF:
      the last field of a CRLF-terminated row carries no CR. */
  lemma LinesCarryNoFinalCR(csv: string)
    requires !HasCrCrLf(Trim(csv))
    ensures forall k :: 0 <= k < |Lines(csv)| ==> DropCR(Lines(csv)[k]) == Lines(csv)[k]
  {
    LinesEndWithoutCR(Trim(csv));
  }

  /** Conversely, CR CR LF in the trimmed text leaves a line ending in CR. */
  lemma LinesKeepFinalCR(csv: string)
    requires HasCrCrLf(Trim(csv))
    ensures exists k :: 0 <= k < |Lines(csv)| && DropCR(Lines(csv)[k]) != Lines(csv)[k]
  {
    LinesKeepCR(Trim(csv));
    assert Lines(csv) == SplitLines(Trim(csv));
  }

  // ---------------------------------------------------------------------------
  // Round trip

  /** A cell that survives the plain comma/line splitting unchanged. */
  predicate PlainCell(s: string) {
    ',' !in s && '\n' !in s && '\r' !in s
  }

  /** A header line and data lines written out with commas and line breaks. */
  function CsvText(cols: seq<string>, rows: seq<seq<string>>, eol: string): string
    requires |cols| >= 1
    requires forall k :: 0 <= k < |rows| ==> |rows[k]| >= 1
  {
    JoinLines(CsvLines(cols, rows), eol)
  }

  /** The line for a row of plain cells contains no LF and no CR. */
  lemma JoinedLinePlain(cells: seq<string>)
    requires |cells| >= 1
    requires forall i :: 0 <= i < |cells| ==> PlainCell(cells[i])
    ensures '\n' !in Join(cells, ',') && '\r' !in Join(cells, ',')
    decreases |cells|
  {
    if |cells| > 1 {
      JoinedLinePlain(cells[1..]);
    }
  }

  /** The lines of a written-out table. */
  function CsvLines(cols: seq<string>, rows: seq<seq<string>>): (lines: seq<string>)
    requires |cols| >= 1
    requires forall k :: 0 <= k < |rows| ==> |rows[k]| >= 1
    ensures |lines| == |rows| + 1
  {
    [Join(cols, ',')] + seq(|rows|, k requires 0 <= k < |rows| => Join(rows[k], ','))
  }

  /** No written line holds a line break character. */
  lemma CsvLinesPlain(cols: seq<string>, rows: seq<seq<string>>)
    requires |cols| >= 1
    requires forall i :: 0 <= i < |cols| ==> PlainCell(cols[i])
    requires forall k :: 0 <= k < |rows| ==> |rows[k]| == |cols|
    requires forall k, i :: 0 <= k < |rows| && 0 <= i < |cols| ==> PlainCell(rows[k][i])
    ensures forall k :: 0 <= k < |CsvLines(cols, rows)| ==>
      '\n' !in CsvLines(cols, rows)[k] && '\r' !in CsvLines(cols, rows)[k]
  {
    var lines := CsvLines(cols, rows);
    forall k | 0 <= k < |lines| ensures '\n' !in lines[k] && '\r' !in lines[k] {
      if k == 0 {
        JoinedLinePlain(cols);
      } else {
        assert lines[k] == Join(rows[k - 1], ',');
        JoinedLinePlain(rows[k - 1]);
      }
    }
  }

  /** Trimming and line splitting recover the written lines. */
  lemma CsvTextLines(cols: seq<string>, rows: seq<seq<string>>, eol: string)
    requires |cols| >= 1
    requires forall i :: 0 <= i < |cols| ==> PlainCell(cols[i])
    requires forall k :: 0 <= k < |rows| ==> |rows[k]| == |cols|
    requires forall k, i :: 0 <= k < |rows| && 0 <= i < |cols| ==> PlainCell(rows[k][i])
    requires eol == "\n" || eol == "\r\n"
    requires Bare(CsvText(cols, rows, eol))
    ensures Lines(CsvText(cols, rows, eol)) == CsvLines(cols, rows)
  {
    var text := CsvText(cols, rows, eol);
    var lines := CsvLines(cols, rows);
    TrimPadded("", text, "");
    assert "" + text + "" == text;
    CsvLinesPlain(cols, rows);
    assert forall k :: 0 <= k < |lines| ==> DropCR(lines[k]) == lines[k];
    JoinLinesThenSplit(lines, eol);
  }

  /** Writing a table out and parsing it gives the table back: one record per
      row, and each row's cell under its column name. */
  lemma {:induction false} CsvRoundTrip(cols: seq<string>, rows: seq<seq<string>>, eol: string)
    requires |cols| >= 1 && PlainColumns(cols)
    requires forall i :: 0 <= i < |cols| ==> PlainCell(cols[i])
    requires forall k :: 0 <= k < |rows| ==> |rows[k]| == |cols|
    requires forall k, i :: 0 <= k < |rows| && 0 <= i < |cols| ==> PlainCell(rows[k][i])
    requires eol == "\n" || eol == "\r\n"
    requires Bare(CsvText(cols, rows, eol))
    ensures |CsvRecords(CsvText(cols, rows, eol))| == |rows|
    ensures forall k, i :: 0 <= k < |rows| && 0 <= i < |cols| ==>
      cols[i] in CsvRecords(CsvText(cols, rows, eol))[k] &&
      CsvRecords(CsvText(cols, rows, eol))[k][cols[i]] == Str(rows[k][i])
  {
    var text := CsvText(cols, rows, eol);
    var lines := CsvLines(cols, rows);
    CsvTextLines(cols, rows, eol);
    JoinThenSplit(cols, ',');
    assert Columns(text) == cols;
    forall k, i | 0 <= k < |rows| && 0 <= i < |cols|
      ensures cols[i] in CsvRecords(text)[k] && CsvRecords(text)[k][cols[i]] == Str(rows[k][i])
    {
      JoinThenSplit(rows[k], ',');
      assert lines[k + 1] == Join(rows[k], ',');
      assert CsvRecords(text)[k] == RecordOf(cols, rows[k]);
      RecordFieldAt(cols, rows[k], i);
    }
  }
}
