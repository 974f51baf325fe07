/** The quote table of the markets handler in markets.js: the parsed records
    are walked in order and keyed by their upper-cased Symbol, a later record
    overwriting an earlier one with the same key; a record without a Symbol
    makes toUpperCase throw, and the catch answers with an empty object. The
    reply carries only the SPY, DIA and QQQ entries, and JSON serialisation
    leaves out those the table does not have. */
module Markets {
  import opened JsText
  import opened Csv

  datatype Option<T> = None | Some(value: T)

  /** What the handler stores per symbol. Price, change and changePct are
      floating-point functions of these two raw fields; the model keeps the
      fields themselves and does not interpret them as numbers. */
  datatype Quote = Quote(open: Value, close: Value)

  /** The outcome of the loop over the records: the table it built, or the
      TypeError thrown by reading toUpperCase of an undefined Symbol. */
  datatype TableOutcome = Built(out: map<string, Quote>) | Threw

  /** The HTTP reply: its status and its JSON body. */
  datatype Reply = Reply(status: nat, body: map<string, Quote>)

  /** The three index proxies the reply picks out. */
  const IndexSymbols: set<string> := {"SPY", "DIA", "QQQ"}

  /** row.Symbol is a string, so toUpperCase can be called on it. */
  predicate HasSymbol(row: Record) {
    Field(row, "Symbol").Str?
  }

  predicate AllHaveSymbol(rows: seq<Record>) {
    forall j :: 0 <= j < |rows| ==> HasSymbol(rows[j])
  }

  /** The key a record is stored under: its Symbol, upper-cased. */
  function KeyOf(row: Record): (key: string)
    requires HasSymbol(row)
    ensures |key| == |Field(row, "Symbol").text|
    ensures forall i :: 0 <= i < |key| ==> !IsAsciiLower(key[i])
    ensures forall i :: 0 <= i < |key| ==> key[i] == UpperChar(Field(row, "Symbol").text[i])
  {
    AsciiUpper(Field(row, "Symbol").text)
  }

  /** What is stored for a record: its raw Open and Close fields. */
  function QuoteOf(row: Record): Quote {
    Quote(Field(row, "Open"), Field(row, "Close"))
  }

  /** The keys the records are stored under. */
  function Symbols(rows: seq<Record>): set<string>
    requires AllHaveSymbol(rows)
  {
    set j | 0 <= j < |rows| :: KeyOf(rows[j])
  }

  lemma SymbolsOfPrefix(rows: seq<Record>, key: string)
    requires |rows| > 0 && AllHaveSymbol(rows) && key in Symbols(rows)
    requires KeyOf(rows[|rows| - 1]) != key
    ensures AllHaveSymbol(rows[..|rows| - 1]) && key in Symbols(rows[..|rows| - 1])
  {
    var j :| 0 <= j < |rows| && KeyOf(rows[j]) == key;
    assert rows[..|rows| - 1][j] == rows[j];
  }

  /** The position of the last record stored under key. */
  function LastWithKey(rows: seq<Record>, key: string): (k: nat)
    requires AllHaveSymbol(rows) && key in Symbols(rows)
    ensures k < |rows| && KeyOf(rows[k]) == key
    ensures forall j :: k < j < |rows| ==> KeyOf(rows[j]) != key
    decreases |rows|
  {
    var n := |rows| - 1;
    if KeyOf(rows[n]) == key then n
    else
      SymbolsOfPrefix(rows, key);
      LastWithKey(rows[..n], key)
  }

  /** The table the loop builds, stated declaratively: one entry per distinct
      upper-cased Symbol, holding the quote of the LAST record with it. */
  function TableOf(rows: seq<Record>): map<string, Quote>
    requires AllHaveSymbol(rows)
  {
    map key | key in Symbols(rows) :: QuoteOf(rows[LastWithKey(rows, key)])
  }

  /** The loop's outcome: it throws as soon as a record lacks a Symbol, so
      it throws exactly when some record does. */
  function QuoteTable(rows: seq<Record>): TableOutcome {
    if AllHaveSymbol(rows) then Built(TableOf(rows)) else Threw
  }

  /** One more record adds its own key to the keys. */
  lemma SymbolsSnoc(rows: seq<Record>, row: Record)
    requires AllHaveSymbol(rows) && HasSymbol(row)
    ensures AllHaveSymbol(rows + [row])
    ensures Symbols(rows + [row]) == Symbols(rows) + {KeyOf(row)}
  {
    var all := rows + [row];
    assert all[|rows|] == row;
    forall key | key in Symbols(all) ensures key in Symbols(rows) || key == KeyOf(row) {
      var j :| 0 <= j < |all| && KeyOf(all[j]) == key;
      if j < |rows| {
        assert rows[j] == all[j];
      }
    }
    forall key | key in Symbols(rows) ensures key in Symbols(all) {
      var j :| 0 <= j < |rows| && KeyOf(rows[j]) == key;
      assert all[j] == rows[j];
    }
  }

  /** One more record sets its own key and leaves the other entries alone. */
  lemma TableOfSnoc(rows: seq<Record>, row: Record)
    requires AllHaveSymbol(rows) && HasSymbol(row)
    ensures AllHaveSymbol(rows + [row])
    ensures TableOf(rows + [row]) == TableOf(rows)[KeyOf(row) := QuoteOf(row)]
  {
    TableOfSnocKeys(rows, row);
    TableOfSnocNew(rows, row);
    var m1, m0 := TableOf(rows + [row]), TableOf(rows);
    forall key | key in m1 && key != KeyOf(row) ensures key in m0 && m1[key] == m0[key] {
      LastWithKeySnoc(rows, row, key);
    }
    MapUpdateExt(m1, m0, KeyOf(row), QuoteOf(row));
  }

  lemma TableOfSnocKeys(rows: seq<Record>, row: Record)
    requires AllHaveSymbol(rows) && HasSymbol(row)
    ensures AllHaveSymbol(rows + [row])
    ensures TableOf(rows + [row]).Keys == TableOf(rows).Keys + {KeyOf(row)}
  {
    SymbolsSnoc(rows, row);
  }

  lemma TableOfSnocNew(rows: seq<Record>, row: Record)
    requires AllHaveSymbol(rows) && HasSymbol(row)
    ensures AllHaveSymbol(rows + [row])
    ensures KeyOf(row) in TableOf(rows + [row]) && TableOf(rows + [row])[KeyOf(row)] == QuoteOf(row)
  {
    SymbolsSnoc(rows, row);
    assert LastWithKey(rows + [row], KeyOf(row)) == |rows|;
  }

  /** A key the new record does not have is still last held where it was. */
  lemma LastWithKeySnoc(rows: seq<Record>, row: Record, key: string)
    requires AllHaveSymbol(rows) && HasSymbol(row) && key in Symbols(rows) && key != KeyOf(row)
    ensures AllHaveSymbol(rows + [row]) && key in Symbols(rows + [row])
    ensures LastWithKey(rows + [row], key) == LastWithKey(rows, key)
  {
    var all := rows + [row];
    SymbolsSnoc(rows, row);
    assert all[..|rows|] == rows;
  }

  /** The for loop of the handler: out[sym] = { price, change, changePct }
      for each record in order, where reading toUpperCase of a missing Symbol
      throws. */
  method BuildTable(rows: seq<Record>) returns (result: TableOutcome)
    ensures result == QuoteTable(rows)
  {
    var out: map<string, Quote> := map[];
    var k := 0;
    while k < |rows|
      invariant 0 <= k <= |rows|
      invariant AllHaveSymbol(rows[..k])
      invariant out == TableOf(rows[..k])
    {
      var symbol := Field(rows[k], "Symbol");
      if symbol.Undefined? {
        assert !HasSymbol(rows[k]);
        return Threw;
      }
      assert rows[..k + 1] == rows[..k] + [rows[k]];
      TableOfSnoc(rows[..k], rows[k]);
      out := out[AsciiUpper(symbol.text) := QuoteOf(rows[k])];
      k := k + 1;
    }
    assert rows[..k] == rows;
    return Built(out);
  }

  /** The reply body { SPY: out['SPY'], DIA: out['DIA'], QQQ: out['QQQ'] }
      after JSON serialisation, which drops the undefined entries. */
  function Published(out: map<string, Quote>): (body: map<string, Quote>)
    ensures body.Keys == out.Keys * IndexSymbols
    ensures forall s :: s in body ==> body[s] == out[s]
  {
    map s | s in IndexSymbols && s in out :: out[s]
  }

  /** The handler's reply for the fetched text (None when fetching or reading
      the body failed): status 200 either way, an empty object when anything
      threw. */
  function Respond(fetched: Option<string>): (reply: Reply)
    ensures reply.status == 200
    ensures reply.body.Keys <= IndexSymbols
  {
    match fetched
    case None => Reply(200, map[])
    case Some(csv) =>
      match QuoteTable(CsvRecords(csv))
      case Threw => Reply(200, map[])
      case Built(out) => Reply(200, Published(out))
  }

  /** The handler with the fetch abstracted: parse the text, build the table,
      and answer with the three index entries, or with {} from the catch. */
  method Handler(fetched: Option<string>) returns (reply: Reply)
    ensures reply == Respond(fetched)
  {
    if fetched.None? {
      return Reply(200, map[]);
    }
    var rows := ParseCsv(fetched.value);
    var table := BuildTable(rows);
    if table.Threw? {
      return Reply(200, map[]);
    }
    reply := Reply(200, Published(table.out));
  }

  // ---------------------------------------------------------------------------
  // Properties of the table

  /** A record that no later record shares a key with is what its key holds. */
  lemma TableLastWins(rows: seq<Record>, k: nat)
    requires AllHaveSymbol(rows) && k < |rows|
    requires forall j :: k < j < |rows| ==> KeyOf(rows[j]) != KeyOf(rows[k])
    ensures KeyOf(rows[k]) in TableOf(rows)
    ensures TableOf(rows)[KeyOf(rows[k])] == QuoteOf(rows[k])
  {
    assert KeyOf(rows[k]) in Symbols(rows);
  }

  /** Every entry is the quote of some record stored under that key. */
  lemma TableEntriesFromRecords(rows: seq<Record>, key: string)
    requires AllHaveSymbol(rows) && key in TableOf(rows)
    ensures exists j :: 0 <= j < |rows| && KeyOf(rows[j]) == key && TableOf(rows)[key] == QuoteOf(rows[j])
  {
    var j := LastWithKey(rows, key);
    assert KeyOf(rows[j]) == key && TableOf(rows)[key] == QuoteOf(rows[j]);
  }

  /** At most one entry per record. */
  lemma {:induction false} TableSize(rows: seq<Record>)
    requires AllHaveSymbol(rows)
    ensures |TableOf(rows)| <= |rows|
    decreases |rows|
  {
    if |rows| > 0 {
      var n := |rows| - 1;
      assert rows == rows[..n] + [rows[n]];
      assert AllHaveSymbol(rows[..n]);
      TableSize(rows[..n]);
      TableOfSnoc(rows[..n], rows[n]);
    }
  }

  // ---------------------------------------------------------------------------
  // Properties of the reply

  /** Any failure answers with an empty object: a failed fetch, or a record
      without a Symbol anywhere in the text. */
  lemma FailureRepliesEmpty(fetched: Option<string>)
    requires fetched.None? || !AllHaveSymbol(CsvRecords(fetched.value))
    ensures Respond(fetched).body == map[]
  {
  }

  /** Otherwise each of SPY, DIA and QQQ is in the body exactly when some
      record's Symbol upper-cases to it, with the quote of the last such record. */
  lemma ReplyCarriesIndexEntries(csv: string, s: string)
    requires AllHaveSymbol(CsvRecords(csv)) && s in IndexSymbols
    ensures s in Respond(Some(csv)).body <==> s in Symbols(CsvRecords(csv))
    ensures s in Respond(Some(csv)).body ==>
      Respond(Some(csv)).body[s] == QuoteOf(CsvRecords(csv)[LastWithKey(CsvRecords(csv), s)])
  {
  }

  /** A header without a Symbol column gives an empty reply: with no data
      line the table is empty, and otherwise the first record has no Symbol
      and the loop throws. */
  lemma NoSymbolColumnRepliesEmpty(csv: string)
    requires "Symbol" !in Columns(csv)
    ensures Respond(Some(csv)).body == map[]
  {
    if |CsvRecords(csv)| == 0 {
      assert Symbols(CsvRecords(csv)) == {};
      assert TableOf(CsvRecords(csv)) == map[];
      return;
    }
    var first := CsvRecords(csv)[0];
    assert first == RecordOf(Columns(csv), Split(Lines(csv)[1], ','));
    assert "Symbol" !in first;
    assert !HasSymbol(first);
  }
}
