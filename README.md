# Market quotes endpoint: CSV parsing and the quote table

This project models the market-quotes serverless endpoint in `markets.js` and proves properties of the model. The endpoint fetches a CSV quote sheet for the SPY, DIA and QQQ exchange-traded funds. It parses the sheet into records and keys each record by its upper-cased `Symbol`. It answers with the entries for the three index proxies, or with an empty object when anything throws.

The project has three modules:

- `JsText` (`jstext.dfy`) holds the JavaScript string operations the parser relies on:
  - `String.prototype.trim`, with its exact whitespace and line-terminator set;
  - `split` on a single character;
  - `split(/\r?\n/)`;
  - `toUpperCase`, restricted to ASCII.
- `Csv` (`csv.dfy`) models `parseCSV`:
  - `FillRecord` is the `forEach` that fills one object;
  - `ParseCsv` is the `map` over the data lines.

  Both are loops proved against declarative specifications (`RecordOf`, `CsvRecords`). A record is a map from property name to `Str(text)` or `Undefined`. A column past the end of a line still creates its property, holding `undefined`. A repeated column name keeps the later position. A `__proto__` column creates no own property, because the inherited accessor ignores non-object values.
- `Markets` (`markets.dfy`) models the handler:
  - `BuildTable` is the `for` loop over the records. It throws, as `Threw`, when a record has no `Symbol`. It is proved equal to `QuoteTable`, which keeps one entry per upper-cased symbol, from the last record carrying it.
  - `Handler` and `Respond` produce the reply. A failed fetch is the parameter value `None`. The body is a map holding only the index symbols that are present, because JSON serialisation drops `undefined` members.

One record without a `Symbol` throws in the loop and empties the whole reply; the loop does not skip just that row.

Splitting on `/\r?\n/` does not remove every carriage return. When the trimmed text contains CR CR LF, the line before that break ends in CR. `LinesCarryNoFinalCR` and `LinesKeepFinalCR` together prove that no line ends in CR exactly when the trimmed text has no such triple.

## Model

| member | source | states |
|---|---|---|
| JsText.Trim | markets.js:2 | The result has no leading or trailing whitespace. It is the slice of the input that starts after the leading whitespace. Everything cut off on either side is whitespace. |
| JsText.TrimPadded | markets.js:2 | Trimming whitespace + bare text + whitespace gives back exactly the bare text. |
| JsText.TrimIdempotent | markets.js:2 | Trimming twice is the same as trimming once. |
| JsText.TrimIgnoresPadding | markets.js:2 | Extra whitespace around the text does not change what trim returns. |
| JsText.TrimBlank | markets.js:2 | A text made only of whitespace trims to the empty string. |
| JsText.Split | markets.js:3 | `split(',')` returns at least one piece, and no piece contains the separator. |
| JsText.SplitCount | markets.js:3 | `split` gives one more piece than the text has separators. |
| JsText.SplitThenJoin | markets.js:3 | Joining the pieces with the separator gives back the original text. |
| JsText.SplitPrefix | markets.js:3 | A separator-free prefix merges into the first piece of the rest. |
| JsText.JoinThenSplit | markets.js:3 | Splitting pieces that were joined, none holding the separator, gives back those pieces. |
| JsText.SplitLines | markets.js:2 | Splitting on `/\r?\n/` returns at least one line, and no line contains LF. |
| JsText.SplitLinesBySplit | markets.js:2 | The regex split equals splitting at LF and then dropping one final CR from every piece except the last. |
| JsText.SplitLinesCount | markets.js:2 | There is one more line than there are LF characters. |
| JsText.SplitLinesPrefix | markets.js:2 | A line fragment without LF, not ending in CR before an LF, merges into the first line of the rest. |
| JsText.JoinLinesThenSplit | markets.js:2 | Lines joined with LF or CRLF split back into the same lines. With LF, every line but the last must not end in CR. |
| JsText.LinesEndWithoutCR | markets.js:2 | If the text has no CR CR LF and does not end in CR, no resulting line ends in CR. |
| JsText.LinesKeepCR | markets.js:2 | If the text holds CR CR LF, some resulting line ends in CR: the first CR is not followed by LF, so the pattern leaves it in its line. |
| JsText.AsciiUpper | markets.js:20 | The result has the same length. Lowercase letters become their uppercase letter, every other character stays the same, and no lowercase letter remains. |
| JsText.AsciiUpperFixes | markets.js:20 | A text with no lowercase letter is left unchanged. |
| JsText.AsciiUpperIdempotent | markets.js:20 | Upper-casing twice is the same as upper-casing once. |
| Csv.Field | markets.js:20-22 | A property the record has reads as its value. One it lacks reads as undefined. |
| Csv.Cell | markets.js:7 | `parts[i]` is a string exactly when `i` is within the parts, and then it is that part. |
| Csv.LastIndexOf | markets.js:7 | This is the position of the last column with the name. No later column has the name. |
| Csv.RecordOf | markets.js:6-8 | The record has one property per distinct column name, `__proto__` excepted. |
| Csv.RecordOfSnoc | markets.js:7 | One more `forEach` step sets that column's property to that part, overwriting any earlier value. A `__proto__` column changes nothing. |
| Csv.FillRecord | markets.js:6-8 | The `forEach` loop builds exactly `RecordOf(cols, parts)`. |
| Csv.Lines | markets.js:2 | The trimmed text always has at least one line, the header. |
| Csv.ParseCsv | markets.js:1-10 | The records are, in order, one `RecordOf(header columns, comma parts)` per line after the header. |
| Csv.RecordFieldAt | markets.js:7 | A column that no later column repeats holds the line's part at its position, or undefined when the line is short. |
| Csv.RecordDuplicateColumn | markets.js:7 | A repeated column name holds the part at its last position. |
| Csv.RecordIgnoresExtraParts | markets.js:5-7 | Parts past the number of columns do not affect the record. |
| Csv.RecordReadsBack | markets.js:5-7 | With distinct, ordinary column names and a full line, the parts can be read back column by column. |
| Csv.RecordCount | markets.js:2-4 | There is one record per LF in the trimmed text. |
| Csv.BlankInputNoRecords | markets.js:2-4 | A text made only of whitespace yields no records. |
| Csv.PaddingIgnored | markets.js:2 | Whitespace around the whole text does not change the records. |
| Csv.LinesCarryNoFinalCR | markets.js:2 | If the trimmed text has no CR CR LF, no line keeps a final CR. |
| Csv.LinesKeepFinalCR | markets.js:2 | If the trimmed text holds CR CR LF, some line keeps a final CR. |
| Csv.CsvLines | markets.js:2-5 | The inverse of the parse at these lines, a writer used by the round trip: a sheet written out has one line per row plus the header line. |
| Csv.CsvTextLines | markets.js:2 | A sheet of plain cells, written with LF or CRLF and not padded, splits back into its written lines. |
| Csv.CsvRoundTrip | markets.js:1-10 | Parsing such a sheet gives one record per row, and each record holds each cell under its column name. |
| Markets.LastWithKey | markets.js:19-25 | This is the last record whose upper-cased symbol is the key. No later record has that key. |
| Markets.KeyOf | markets.js:20 | The key is the record's `Symbol` upper-cased character by character: the same length, each character its upper-case form, and no lowercase letter left. |
| Markets.SymbolsSnoc | markets.js:20 | One more record adds exactly its own key to the set of keys. |
| Markets.TableOfSnoc | markets.js:25 | One more record sets its own key to its quote and leaves every other entry as it was. |
| Markets.BuildTable | markets.js:18-26 | The loop throws exactly when some record has no `Symbol`. Otherwise it builds `TableOf(rows)`. |
| Markets.Published | markets.js:29 | The body holds exactly those of SPY, DIA and QQQ that the table has, each with the table's value. The others are dropped, as JSON serialisation drops undefined members. |
| Markets.Respond | markets.js:29-31 | The status is 200 on every path. The body holds only keys among SPY, DIA and QQQ. |
| Markets.Handler | markets.js:11-33 | Parsing, the loop, and the reply, or `{}` from the catch, together give `Respond(fetched)`. |
| Markets.TableLastWins | markets.js:19-25 | A record that no later record shares a key with is what its key holds. |
| Markets.TableEntriesFromRecords | markets.js:25 | Every entry is the quote of some record whose upper-cased symbol is the entry's key. |
| Markets.TableSize | markets.js:19-25 | The table has at most one entry per record. |
| Markets.FailureRepliesEmpty | markets.js:30-31 | A failed fetch, or any record without a `Symbol`, gives the empty body. |
| Markets.ReplyCarriesIndexEntries | markets.js:29 | With every symbol present, SPY, DIA and QQQ are each in the body exactly when some record has that key. The value is the quote of the last such record. |
| Markets.NoSymbolColumnRepliesEmpty | markets.js:3-7 | A header with no `Symbol` column always gives the empty body. With no data line the table is empty; otherwise the first record makes the loop throw. |

## Left out

- The fetch itself is not modelled: the URL, the `User-Agent` header and awaiting the response. The fetched text is a parameter, and `None` stands for a rejected fetch or body read.
- The `Access-Control-Allow-Origin` and `Cache-Control` headers are not modelled. They are set only on the success path.
- The order of keys in the JSON body is not modelled. The body is a map.
- `parseFloat`, `price`, `change` and `changePct` (markets.js:21-24) are not modelled, because they are floating-point arithmetic. A `Quote` keeps the raw `Open` and `Close` fields they are computed from.
- With these floating-point steps left out, the model does not capture two facts about markets.js:21-24. `changePct` divides by `Open` with no guard against zero. A non-numeric `Open` or `Close` does not fail its row; it becomes `NaN`.
- AsciiUpper: upper-cases ASCII letters only, not the full Unicode case mapping of `toUpperCase`.
- Field: does not model reading a property named `__proto__`, which would return the prototype. The handler reads only `Symbol`, `Open` and `Close`.
- Properties inherited from `Object.prototype` are not modelled. None of `Symbol`, `Open` and `Close` is inherited, so a record without one of them reads it as undefined.
- `script.js`, `fetch.js`, `rss.js` and `revgeo.js` are not part of this model.
