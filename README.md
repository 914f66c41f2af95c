# Funding-rate dashboard: a verified model of the aggregation pipeline

This project models the data path of a small funding-rate dashboard written in
TypeScript/JavaScript on top of an exchange library. Four source files make up the core:

- **src/combinedFunding.ts**: the combined table. It has two halves.
  - History half: for every contract symbol of three exchanges, the funding rates of the last 1, 2, 3, 5 and 7 days are summed and divided by the number of days.
  - Live half: the current funding rate, funding interval and mark price of every contract.
  - The history rows that carry some non-zero number are scaled to percent. They are then fully outer-joined with the live rows on `exchange||symbol` and written as an 11-column CSV with quote escaping.
- **src/fetchFunding.ts**: the snapshot collector.
  - Each configured exchange is fetched through its bulk funding-rate call, falling back to one call per derivative market.
  - An exchange gets two attempts. Nothing is written when nothing was collected.
  - Everything else becomes an exchange-by-symbol table of percentages with two decimals.
- **index.js**: the older collector. It has the same fetch with three differences:
  - an unknown exchange id gives no entries;
  - it makes no retry;
  - a failing `loadMarkets` aborts the update, and the table is written even when it is empty.
- **src/index.ts**: the read side. Both CSV files are turned into header-keyed records by a plain split on line breaks and commas.

Every network answer is an input. The answer of `loadMarkets`, of the bulk and per-market
funding-rate calls, of `fetchFundingRateHistory` and of `fetchFundingIntervals` each
appears as a value that either throws or returns. Repeated attempts are indexed by their
attempt number. The clock (`Date.now()`) and the date formatter (`toLocaleString`) are
parameters. Numbers are exact reals with an explicit NaN.

Modules, one per file:

| module | what it holds |
|---|---|
| `Common` | `Option`; `Fetch` (throws or returns); `Number` (NaN or a real); NaN-absorbing `Plus`; two sequence helpers |
| `Text` | JavaScript `split`/`join` on one character, and `trim` |
| `Decimal` | `toFixed`, `parseFloat` on plain decimals, and `String(number)` for values with at most four decimals |
| `Lex` | the default string sort, and `Array.from(new Set(xs)).sort()` |
| `Adapter` | what the exchange library answers: markets, bulk items, unknown exchange ids |
| `History` | window averages, `getFuturesSymbols`, `processExchangeFunding` |
| `Live` | the three `fetch…FundingRatesCurrent` functions and `processCurrentFundingRates` |
| `Combined` | the post-filter, the scaling, the outer join, the CSV rendering and `updateCombinedData` |
| `Matrix` | the exchange-by-symbol table that both collectors build |
| `Collector` | src/fetchFunding.ts |
| `Legacy` | index.js |
| `Reader` | the parse inside both data endpoints of src/index.ts |
| `RoundTrip` | what the reader gets back from each writer's output |

Each imperative part of the source is a method. Each method has a loop with invariants
and is proved equal to a specification function, and the properties are lemmas about
that function. The imperative parts are:

- the window loop;
- the per-exchange loops;
- the two `map.set` passes of the join;
- the CSV line loop;
- the retry loop;
- the bulk and per-market loops;
- the table fill.

## Model

| member | source | states |
|---|---|---|
| Decimal.ParseToFixed | src/combinedFunding.ts:295-300 | `parseFloat` of `x.toFixed(f)` is exactly x rounded to f decimals, half away from zero: the printed text loses nothing beyond the rounding |
| Decimal.RoundClose | src/combinedFunding.ts:367 | the rounded value is within half a unit in the last place of x, and keeps the sign of x |
| Decimal.RoundIdempotent | src/combinedFunding.ts:367 | rounding an already rounded value changes nothing |
| Decimal.Fixed | src/combinedFunding.ts:293-301 | a missing value prints as "" and only a missing one does; a present value prints only digits, '.' and '-' |
| Decimal.FixedValue | src/combinedFunding.ts:293-301 | a present value's text reads back as the value rounded to f decimals |
| Decimal.ParseNumberString | src/combinedFunding.ts:393 | `String(v)` of a value rounded to four decimals reads back as that value |
| Decimal.NumberStringShape | src/combinedFunding.ts:393 | `String(NaN)` is "NaN"; a finite value prints only digits, '.' and '-', so it is never quoted |
| Decimal.PercentageExamples | src/fetchFunding.ts:118 | over exact reals, a rate of 0.00015 prints "0.0150" with four decimals and "0.02" with two (the half rounded up); see "## Left out" for what JavaScript prints |
| Text.Split | src/index.ts:25-28 | `split` gives one more piece than there are separators, no piece holds the separator, and joining the pieces gives the text back |
| Text.SplitOfJoin | src/index.ts:25-28 | splitting the join of separator-free pieces gives the pieces back |
| Text.TrimUnchanged | src/index.ts:25 | `trim` leaves text with no whitespace at either end unchanged |
| Lex.LessTotal | src/fetchFunding.ts:106 | any two different strings are ordered one way or the other by the default sort order |
| Lex.LessTransitive | src/fetchFunding.ts:106 | the default sort order is transitive |
| Lex.Insert | src/fetchFunding.ts:106 | adding one string to a strictly increasing sequence keeps it strictly increasing and adds exactly that string |
| Lex.SortedDistinct | src/fetchFunding.ts:106 | `Array.from(new Set(xs)).sort()` is strictly increasing and holds exactly the elements of xs |
| Lex.SortedUnique | src/fetchFunding.ts:106 | two strictly increasing sequences with the same elements are equal, so the rows are fixed by the set of symbols |
| History.Filtered | src/combinedFunding.ts:123 | the window keeps only entries whose timestamp is defined and not before `since`, and every such entry |
| History.Total | src/combinedFunding.ts:124 | the sum is NaN exactly when some counted entry has no rate, and 0 for no entries |
| History.CalculateAverages | src/combinedFunding.ts:110-134 | the result has exactly the five periods as keys; when the history fetch throws, every window is NaN; otherwise each window is the sum of the counted rates divided by its number of days |
| History.UndatedNeverCounted | src/combinedFunding.ts:123 | removing an entry whose timestamp is undefined changes no window |
| History.WindowsNest | src/combinedFunding.ts:122-123 | for d1 ≤ d2, the entries counted in window d1 are among those counted in window d2 (as multisets) |
| History.EmptyWindowIsZero | src/combinedFunding.ts:124-125 | a window in which no entry counts is exactly 0, not NaN |
| History.ContractSymbols | src/combinedFunding.ts:98-100 | the listed symbols are exactly those of the markets that are contracts |
| History.FilteredAppend | src/combinedFunding.ts:123 | filtering a concatenation filters each part |
| History.FilteredLeading | src/combinedFunding.ts:123 | when exactly the first n entries count, the window keeps exactly those n |
| History.WindowExampleShort | src/combinedFunding.ts:121-126 | on a four-entry history, the 1-, 2- and 3-day windows are 0.0001, 0.00015 and 0.0001; the 3-day value divides two rates by three days, not by two entries |
| History.WindowExampleLong | src/combinedFunding.ts:121-126 | on the same history, the 5- and 7-day windows are 0.00012 and 0.001/7 |
| History.FuturesSymbols | src/combinedFunding.ts:95-105 | a failed `loadMarkets` gives no symbols; otherwise the symbols are exactly those of the contract markets |
| History.ExchangeRows | src/combinedFunding.ts:156-172 | one row per symbol of `getFuturesSymbols`, in order, labelled with the exchange and keyed by exactly the five periods; a symbol whose history fetch throws still has its row, with every window NaN; otherwise each window is that window's summed rates over its number of days |
| History.ProcessExchangeFunding | src/combinedFunding.ts:143-180 | the loop over the symbols yields exactly `ExchangeRows` |
| Live.FindInterval | src/combinedFunding.ts:200 | `find` yields nothing exactly when no interval record has the symbol, and otherwise the first record that has it |
| Live.DefaultInterval | src/combinedFunding.ts:200-201 | a symbol with no interval record gets "8h" |
| Live.LiveFetchShape | src/combinedFunding.ts:190-253 | when the exchange offers funding rates and neither call throws, the fetch keeps every reported rate, in order, each tagged with the exchange id and unchanged apart from the interval, which with the interval lookup is the looked-up one or "8h"; in every other case it gives nothing |
| Live.FormatLive | src/combinedFunding.ts:287-303 | the formatted row keeps the exchange, and the symbol or "" when it is missing. The datetime is the formatted timestamp, or "" when it is missing or 0. The rate and mark price are "" exactly when missing; the interval is "" exactly when it is missing or empty |
| Live.FormatLiveValues | src/combinedFunding.ts:294-301 | a present rate prints as the rate in percent rounded to four decimals; a present mark price prints as the price rounded to four decimals |
| Live.LiveOutageIsolated | src/combinedFunding.ts:272-285 | an exchange that offers no funding rates, or whose rate or interval fetch throws, adds no row, and the other exchanges' rows are unchanged |
| Combined.Scale | src/combinedFunding.ts:367 | NaN stays NaN; a number becomes the value that `toFixed(4)` prints for it in percent |
| Combined.PostFilter | src/combinedFunding.ts:364-369 | the filter never adds rows; what it keeps is stated by PostFilterSound and PostFilterComplete |
| Combined.PostFilterSound | src/combinedFunding.ts:364-369 | every row the post-filter keeps is the scaled copy of an input row with some non-zero number in a window |
| Combined.PostFilterComplete | src/combinedFunding.ts:364-369 | every input row with some non-zero number in a window is kept, scaled |
| Combined.TinyRowPrintsZeros | src/combinedFunding.ts:365-367 | the filter tests the values before scaling: a row whose only non-zero window is 4e-7 survives, yet all its windows become 0 |
| Combined.KeyInjective | src/combinedFunding.ts:377-380 | `exchange||symbol` determines the pair when exchange ids hold no '|' |
| Combined.KeyBarAt | src/combinedFunding.ts:377-380 | when two pairs share a key and their exchange ids differ in length, the longer id holds a '|' |
| Combined.Dedup | src/combinedFunding.ts:375-384 | the `Map`'s key order holds every key exactly once |
| Combined.LastHist | src/combinedFunding.ts:376-378 | the history row a key ends with: none exactly when no history row has that key; otherwise a row with that key |
| Combined.LastLive | src/combinedFunding.ts:379-383 | the live row a key ends with: none exactly when no live row has that key; otherwise a row with that key |
| Combined.Joined | src/combinedFunding.ts:379-383 | a joined record has its key. Its live fields are those of the last live row with the key. Exchange and symbol come from that live row, or else from the history row. Windows are present exactly when a history row has the key, and are then that row's windows |
| Combined.OrderStep | src/combinedFunding.ts:377 | `map.set` appends a new key to the iteration order and leaves the order alone for a key it already holds |
| Combined.HistStep | src/combinedFunding.ts:376-378 | one `map.set` of a history row keeps the join invariant. The key order is the de-duplicated keys so far, the map's keys are that order, and each record is the joined record of its key |
| Combined.LiveStep | src/combinedFunding.ts:379-383 | one `map.set(key, {...prev, ...r})` of a live row keeps the join invariant |
| Combined.JoinHistory | src/combinedFunding.ts:376-378 | after the history pass the `Map` holds the join of the history rows alone |
| Combined.JoinLive | src/combinedFunding.ts:379-383 | after the live pass the `Map` holds the join of both halves |
| Combined.JoinFinish | src/combinedFunding.ts:384 | reading the `Map` in insertion order gives the joined table |
| Combined.OuterJoin | src/combinedFunding.ts:375-384 | the join produces exactly one joined record per distinct key, in order of first occurrence |
| Combined.JoinedPairsDistinct | src/combinedFunding.ts:375-384 | no two records of the joined table share exchange and symbol |
| Combined.JoinCovers | src/combinedFunding.ts:375-384 | every surviving history key and every live key has its joined record in the table |
| Combined.JoinMatchesPairs | src/combinedFunding.ts:379-383 | when exchange ids hold no '|', a record with both halves joins a history row and a live row of the same exchange and symbol |
| Combined.DoubleQuotes | src/combinedFunding.ts:394 | doubling the quotes lengthens the text by its number of quotes |
| Combined.UndoubleDouble | src/combinedFunding.ts:394 | doubled quotes read back as the original text |
| Combined.Escape | src/combinedFunding.ts:394 | the cell starts with a quote exactly when the value holds a comma or a quote |
| Combined.UnescapeEscape | src/combinedFunding.ts:392-394 | a quote-aware reader gets every value back from its cell |
| Combined.Cells | src/combinedFunding.ts:390-395 | every record prints exactly one cell per column of the header |
| Combined.RecordLines | src/combinedFunding.ts:389-396 | one CSV line per combined record |
| Combined.CsvLines | src/combinedFunding.ts:387-397 | the file has one line more than there are records, and its first line splits back into exactly the eleven column names |
| Combined.WindowCellReadsBack | src/combinedFunding.ts:391-394 | a scaled window prints unquoted and reads back as its scaled value |
| Combined.MissingSideEmpty | src/combinedFunding.ts:391-392 | a record with no history row prints its five window cells empty; a record with no live row prints its four live cells empty |
| Combined.RenderCombined | src/combinedFunding.ts:387-401 | the line loop and the final join produce exactly the header plus one escaped line per record |
| Combined.UpdateCombinedData | src/combinedFunding.ts:341-401 | the whole update writes the CSV of the join of the post-filtered history rows, exchange by exchange, with the formatted live rows |
| Matrix.LastRate | src/fetchFunding.ts:108-111 | a cell is empty exactly when no entry matches it; otherwise it holds the rate of the last matching entry |
| Matrix.LastWriteWins | src/fetchFunding.ts:108-111 | recording one more entry overwrites its own cell and no other |
| Matrix.Record | src/fetchFunding.ts:109-110 | one assignment `map[symbol][exchange] = rate` changes exactly that cell |
| Matrix.FillTable | src/fetchFunding.ts:107-111 | after the `forEach`, every cell of the nested table holds the last rate of its symbol and exchange |
| Matrix.RateCell | src/fetchFunding.ts:117-118 | a cell is "" exactly when there is no rate, and never holds a comma or a line break |
| Matrix.RateCellValue | src/fetchFunding.ts:118 | a rate's cell reads back as the rate in percent rounded to two decimals |
| Matrix.RowCells | src/fetchFunding.ts:116-119 | looking the row up in the filled table gives exactly those cells |
| Matrix.CellMeaning | src/fetchFunding.ts:116-119 | a cell is empty exactly when nothing was collected for that symbol on that exchange; otherwise it reads back as the last collected rate in percent |
| Matrix.RowsSortedDistinct | src/fetchFunding.ts:106 | the row symbols are strictly increasing, distinct, and exactly the collected symbols |
| Matrix.RowsBySymbolSet | src/fetchFunding.ts:106 | the rows depend only on which symbols were collected, not on order or repetition |
| Matrix.HeaderColumns | src/fetchFunding.ts:113-114 | the header splits into "symbol" followed by the exchange ids |
| Matrix.RowColumns | src/fetchFunding.ts:115-120 | a row splits into its symbol and one cell per exchange |
| Matrix.MatrixColumns | index.js:84-88 | every line has 1 + (number of exchanges) columns when no id or symbol holds a comma |
| Matrix.BuildMatrix | src/fetchFunding.ts:105-121 | the table fill and the row loop produce exactly the table's lines |
| Collector.BulkEntries | src/fetchFunding.ts:48-52 | each bulk entry is tagged with the exchange id and has a non-empty symbol; every qualifying element yields its entry |
| Collector.BulkEntriesSound | src/fetchFunding.ts:48-52 | every bulk entry comes from an element with a symbol and a non-null rate |
| Collector.FallbackEntries | src/fetchFunding.ts:59-70 | every entry carries the exchange id, there are at most as many entries as markets, and every derivative market whose call returns a rate yields its entry with the market's own symbol |
| Collector.FallbackEntriesSound | src/fetchFunding.ts:59-66 | every per-market entry comes from a derivative market whose call returned a rate, and carries that market's symbol and rate |
| Collector.FallbackCalls | src/fetchFunding.ts:59-63 | the per-market path asks for exactly the markets that are a contract or a future |
| Collector.FallbackConcat | src/fetchFunding.ts:59-70 | the per-market path goes market by market: a list's entries are its parts' entries, in order |
| Collector.FallbackIsolation | src/fetchFunding.ts:60-69 | a market that fails, or is neither contract nor future, takes nothing away from the others |
| Collector.FetchExchangeFundingRates | src/fetchFunding.ts:37-72 | the bulk loop and, when the bulk call is missing or throws, the per-market loop yield exactly the exchange's answer `Fetched` and ask for exactly `PerMarketCalls`; a successful bulk call makes no per-market call |
| Collector.FetchWithRetry | src/fetchFunding.ts:81-91 | the retry loop keeps the first answer that returns, at most two attempts, and nothing when both throw |
| Collector.CollectedConcat | src/fetchFunding.ts:79-97 | collection is exchange by exchange: the entries of a list of exchanges are those of its parts, in order |
| Collector.OutageContributesNothing | src/fetchFunding.ts:92-96 | an exchange that fails both attempts contributes nothing, and the exchanges around it are unaffected |
| Collector.AttemptCountsMeaning | src/fetchFunding.ts:83-91 | one attempt count per exchange, each the attempts made for it |
| Collector.CollectAll | src/fetchFunding.ts:79-97 | the exchange loop collects exactly the contributions in configuration order, and records each exchange's number of attempts |
| Collector.UpdateData | src/fetchFunding.ts:74-123 | nothing is written exactly when nothing was collected; otherwise the text is the table of what was collected |
| Legacy.FirstNull | index.js:47-48 | the position up to which the bulk loop runs: every element before it is present, and the element there is `null` |
| Legacy.FetchExchangeFundingRates | index.js:36-67 | the bulk loop, which throws at the first `null` while keeping what it pushed, and then the per-market loop yield exactly `LegacyFetched` and ask for exactly `LegacyCalls` |
| Legacy.AgreesWithCollector | index.js:36-67 | the two collectors give the same entries and the same per-market calls on every known exchange whose bulk answer holds no `null`; on an unknown id this one gives no entries where the other throws |
| Legacy.AbortIff | index.js:72-76 | the update is abandoned exactly when some exchange's `loadMarkets` fails |
| Legacy.NothingCollected | index.js:37-38 | when no configured exchange is known to the library, nothing is collected and nothing throws |
| Legacy.EmptyTableWritten | index.js:77-89 | with nothing collected the header line is still written |
| Legacy.UpdateCsv | index.js:69-89 | the text is `LegacyCsv`; when it is written every exchange was fetched once; when nothing is written the loop stopped at the first exchange whose fetch throws, all before it having returned |
| Reader.RowRecord | src/index.ts:29-30 | a record's keys are exactly the header names |
| Reader.LastColumnWins | src/index.ts:29-30 | a header name maps to the column of its last occurrence, "" when the line is shorter |
| Reader.ParseTableShape | src/index.ts:25-32 | one record per line after the header, each keyed by exactly the header line's names |
| Reader.RecordsOfCells | src/index.ts:29-30 | with distinct header names, each record maps every name to its row's cell |
| Reader.TableSplits | src/index.ts:25 | trimming and splitting a table's text on line breaks gives its lines back |
| Reader.ReadBack | src/index.ts:24-32 | parsing the text of a readable table gives the records it stands for |
| RoundTrip.HeadersReadable | src/combinedFunding.ts:387 | the combined header names are distinct and hold no comma or line break |
| RoundTrip.PlainCells | src/combinedFunding.ts:389-396 | a record whose values hold no comma, quote or line break prints each value unquoted, as is |
| RoundTrip.CombinedReadable | src/combinedFunding.ts:387-397 | the combined file of such records is a table the naive reader can read |
| RoundTrip.CombinedReadsBack | src/index.ts:42-50 | the combined-data endpoint reads back one record per combined record, built from the printed cells |
| RoundTrip.CombinedFields | src/index.ts:45-49 | in those records each column name maps to the value the writer printed for it |
| RoundTrip.QuotedCellSplits | src/index.ts:46 | a value with a comma is quoted by the writer and still cut in two by the reader |
| RoundTrip.MatrixTable | src/fetchFunding.ts:113-121 | the snapshot's lines are the header "symbol" plus the ids, then each row's symbol and cells |
| RoundTrip.MatrixHeaderReadable | src/fetchFunding.ts:113 | the snapshot header is readable when the ids are distinct, differ from "symbol" and hold no comma or line break |
| RoundTrip.MatrixCellsPlain | src/fetchFunding.ts:115-120 | no snapshot cell holds a comma or a line break when no collected symbol does |
| RoundTrip.MatrixReadable | src/fetchFunding.ts:113-121 | under those conditions the snapshot is a table the naive reader can read |
| RoundTrip.MatrixReadsBack | src/index.ts:24-32 | the data endpoint reads back one record per row symbol, built from its cells |
| RoundTrip.MatrixSymbolField | src/index.ts:28-30 | in a record read back, "symbol" maps to the row's symbol |
| RoundTrip.MatrixRateField | src/index.ts:28-30 | in a record read back, each exchange id maps to the cell of the last rate collected for that symbol there |

## Left out

- The exchange library and the network. Every call is an oracle answer given as input. This covers `loadMarkets`, `fetchFundingRates`, `fetchFundingRate`, `fetchFundingRateHistory` and `fetchFundingIntervals`, and constructing an exchange from its id. The model does not capture the order of the calls or their arguments: the symbol list passed to `fetchFundingRates`, and the `since` passed to the history call.
- File writes and directory creation, cron scheduling, the module-load side effects, the Express servers and routes, the HTML table of index.js, and the browser scripts. These are I/O and UI. Each writer's result is the text it would write, or `None` when it writes nothing.
- The `console` redirection in `processExchangeFunding` and the `console.table` helpers `fetch{Binance,Bybit,Hyperliquid}FundingRates`. They only print, and they catch every error, so they cannot change a result.
- `toLocaleString` in Asia/Shanghai: the date formatter is a parameter `fmtDate`.
- IEEE-754 doubles. Rates are exact reals, NaN is explicit, and there are no infinities. `toFixed` is modelled exactly over reals, rounding half away from zero, and only for magnitudes below 10^21 (above that JavaScript prints exponent notation). `String(number)` is modelled for values with at most four decimals, which are the only ones printed.
- `Number(...)` of values that are not numbers. A rate or mark price that is `undefined`, `null` or NaN is `None`. A history rate that is `undefined` makes the sum NaN, and such a window prints "NaN" in the combined CSV.
- The sort order of strings. `Lex.Less` compares characters by code; JavaScript compares UTF-16 code units. The two agree for the ASCII symbols in use.
- The key order of `Object.keys`/`Object.values` for keys that look like integers. Answers are taken in the order the library lists them.
- The three hard-coded exchanges of the combined table and the configured exchange lists. They become lists of sources or of exchange ids, of any length.
- The raw `info` payload of live records. It is dropped before anything is printed, so the model never carries it.
- Decimal.PercentageExamples: the model computes with exact reals. In IEEE doubles, 0.00015 * 100 is slightly below 0.015, so `toFixed(2)` in src/fetchFunding.ts:118 prints "0.01" where the model prints "0.02". The four-decimal text "0.0150" is the same in both.
- Combined.PostFilter: its own ensures only bounds the length. The full meaning is in PostFilterSound and PostFilterComplete.
- Combined.Escape: line breaks in a value are not quoted. This follows the code, not section 2 of RFC 4180.
- Reader.ParseTable: quoted cells are not unescaped, and a quoted comma splits the cell (`RoundTrip.QuotedCellSplits`). The round trips are stated for values free of commas, quotes, line breaks and boundary whitespace.
- Live.FormatLive: `record.symbol || ""` is kept, and a missing symbol prints as "". The model does not distinguish other falsy values.
