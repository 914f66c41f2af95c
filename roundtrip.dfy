/** What the read side gets back from the two files the writers produce: with cells free
    of commas, quotes and line breaks, every record of the combined file and every row of
    the rate table comes back cell for cell; a cell the writer had to quote does not. */
module RoundTrip {
  import opened Common
  import opened Text
  import Reader
  import Combined
  import Matrix
  import opened Adapter

  /** The combined file's header names are eleven distinct names, none holding a comma or a
      line break. */
  lemma {:induction false} HeadersReadable()
    ensures Reader.ReadableHeader(Combined.Headers)
  {
    HeadersDistinct();
    HeadersPlain();
  }

  lemma {:induction false} HeadersDistinct()
    ensures forall i, j :: 0 <= i < j < |Combined.Headers| ==> Combined.Headers[i] != Combined.Headers[j]
  {
  }

  lemma {:induction false} HeadersPlain()
    ensures forall i :: 0 <= i < |Combined.Headers| ==> Reader.Plain(Combined.Headers[i])
  {
  }

  /** The value a field prints as, "" when it is undefined. */
  function Shown(rec: Combined.CombinedRecord, c: nat): string
    requires c < |Combined.Headers|
  {
    var f := Combined.Field(rec, c);
    if f.None? then "" else f.value
  }

  /** A record none of whose printed values holds a comma, a quote or a line break. */
  predicate PlainRecord(rec: Combined.CombinedRecord)
  {
    forall c :: 0 <= c < |Combined.Headers| ==> Reader.Plain(Shown(rec, c)) && '"' !in Shown(rec, c)
  }

  /** The cells of every record, as the combined writer prints them. */
  function CellRows(records: seq<Combined.CombinedRecord>): (rows: seq<seq<string>>)
    ensures |rows| == |records|
    ensures forall k :: 0 <= k < |rows| ==> rows[k] == Combined.Cells(records[k])
  {
    seq(|records|, k requires 0 <= k < |records| => Combined.Cells(records[k]))
  }

  /** A plain record prints each value as it is, without quotes. */
  lemma {:induction false} PlainCells(records: seq<Combined.CombinedRecord>)
    requires forall k :: 0 <= k < |records| ==> PlainRecord(records[k])
    ensures Combined.CsvLines(records) == Reader.TableLines(Combined.Headers, CellRows(records))
    ensures forall k, c :: 0 <= k < |records| && 0 <= c < |Combined.Headers| ==>
      CellRows(records)[k][c] == Shown(records[k], c)
    ensures forall k, c :: 0 <= k < |records| && 0 <= c < |CellRows(records)[k]| ==>
      Reader.Plain(CellRows(records)[k][c])
  {
    var rows := CellRows(records);
    assert Combined.RecordLines(records) == Reader.TableLines(Combined.Headers, rows)[1..];
    forall k, c | 0 <= k < |records| && 0 <= c < |Combined.Headers|
      ensures rows[k][c] == Shown(records[k], c)
    {
      assert rows[k][c] == Combined.Cell(records[k], c);
    }
  }

  /** The combined file read back: one record per combined record, each mapping every
      column name to the value the writer printed for it. */
  lemma {:induction false} CombinedReadsBack(records: seq<Combined.CombinedRecord>)
    requires forall k :: 0 <= k < |records| ==> PlainRecord(records[k])
    requires var text := Join(Combined.CsvLines(records), '\n'); !IsSpace(text[|text| - 1])
    ensures Reader.ParseTable(Join(Combined.CsvLines(records), '\n')) == Reader.RecordsOf(Combined.Headers, CellRows(records))
  {
    PlainCells(records);
    CombinedReadable(records);
    Reader.ReadBack(Combined.Headers, CellRows(records));
  }

  /** In the records read back, each column name maps to the value the writer printed. */
  lemma {:induction false} CombinedFields(records: seq<Combined.CombinedRecord>, k: nat, c: nat)
    requires forall k :: 0 <= k < |records| ==> PlainRecord(records[k])
    requires k < |records| && c < |Combined.Headers|
    ensures var parsed := Reader.RecordsOf(Combined.Headers, CellRows(records));
      Combined.Headers[c] in parsed[k] && parsed[k][Combined.Headers[c]] == Shown(records[k], c)
  {
    PlainCells(records);
    HeadersReadable();
    Reader.RecordsOfCells(Combined.Headers, CellRows(records), k, c);
  }

  lemma {:induction false} CombinedReadable(records: seq<Combined.CombinedRecord>)
    requires forall k :: 0 <= k < |records| ==> PlainRecord(records[k])
    requires var text := Join(Combined.CsvLines(records), '\n'); !IsSpace(text[|text| - 1])
    ensures Reader.Readable(Combined.Headers, CellRows(records))
  {
    PlainCells(records);
    HeadersReadable();
  }

  /** A symbol with a comma is quoted by the writer, and the naive split cuts the quoted
      cell in two, shifting every later column. */
  lemma {:induction false} QuotedCellSplits()
    ensures Combined.Escape("a,b") == "\"a,b\""
    ensures Split(Combined.Escape("a,b"), ',') == ["\"a", "b\""]
  {
    assert ',' in "a,b";
    assert Combined.DoubleQuotes("a,b") == "a,b";
    var parts := ["\"a", "b\""];
    assert Join(parts, ',') == "\"a,b\"";
    SplitOfJoin(parts, ',');
  }

  /** The rate table's rows as cells: each row symbol, then its cell for every exchange. */
  function MatrixRows(ids: seq<string>, all: seq<FundingEntry>): (rows: seq<seq<string>>)
    ensures |rows| == |Matrix.RowSymbols(all)|
    ensures forall k :: 0 <= k < |rows| ==>
      rows[k] == [Matrix.RowSymbols(all)[k]] + Matrix.Cells(all, ids, Matrix.RowSymbols(all)[k])
  {
    var syms := Matrix.RowSymbols(all);
    seq(|syms|, k requires 0 <= k < |syms| => [syms[k]] + Matrix.Cells(all, ids, syms[k]))
  }

  /** The rate table's lines are the header "symbol" plus the ids, then its rows. */
  lemma {:induction false} MatrixTable(ids: seq<string>, all: seq<FundingEntry>)
    ensures Matrix.MatrixLines(ids, all) == Reader.TableLines(["symbol"] + ids, MatrixRows(ids, all))
  {
    var lines, table := Matrix.MatrixLines(ids, all), Reader.TableLines(["symbol"] + ids, MatrixRows(ids, all));
    assert |lines| == |table|;
    forall k | 0 <= k < |lines|
      ensures lines[k] == table[k]
    {
    }
  }

  /** The rate table's header names are distinct when the ids are distinct and none is
      "symbol". */
  lemma {:induction false} MatrixHeaderDistinct(ids: seq<string>)
    requires forall j :: 0 <= j < |ids| ==> ids[j] != "symbol"
    requires forall i, j :: 0 <= i < j < |ids| ==> ids[i] != ids[j]
    ensures forall a, b :: 0 <= a < b < |["symbol"] + ids| ==> (["symbol"] + ids)[a] != (["symbol"] + ids)[b]
  {
    var header := ["symbol"] + ids;
    forall a, b | 0 <= a < b < |header|
      ensures header[a] != header[b]
    {
      assert header[b] == ids[b - 1];
      if a > 0 {
        assert header[a] == ids[a - 1];
      }
    }
  }

  /** The rate table's header is readable when the ids are distinct, differ from "symbol"
      and hold no comma or line break. */
  lemma {:induction false} MatrixHeaderReadable(ids: seq<string>)
    requires forall j :: 0 <= j < |ids| ==> Reader.Plain(ids[j]) && ids[j] != "symbol"
    requires forall i, j :: 0 <= i < j < |ids| ==> ids[i] != ids[j]
    ensures Reader.ReadableHeader(["symbol"] + ids)
  {
    var header := ["symbol"] + ids;
    MatrixHeaderDistinct(ids);
    forall i | 0 <= i < |header|
      ensures Reader.Plain(header[i])
    {
      if i > 0 {
        assert header[i] == ids[i - 1];
      }
    }
  }

  /** A row's cells hold no comma or line break when its symbol holds none. */
  lemma {:induction false} RowPlain(all: seq<FundingEntry>, ids: seq<string>, symbol: string)
    requires Reader.Plain(symbol)
    ensures forall c :: 0 <= c < |[symbol] + Matrix.Cells(all, ids, symbol)| ==>
      Reader.Plain(([symbol] + Matrix.Cells(all, ids, symbol))[c])
  {
    var cells := Matrix.Cells(all, ids, symbol);
    var row := [symbol] + cells;
    forall c | 0 <= c < |row|
      ensures Reader.Plain(row[c])
    {
      if c > 0 {
        assert row[c] == cells[c - 1];
      }
    }
  }

  /** No cell of the rate table holds a comma or a line break when no collected symbol does. */
  lemma {:induction false} MatrixCellsPlain(ids: seq<string>, all: seq<FundingEntry>)
    requires forall i :: 0 <= i < |all| ==> Reader.Plain(all[i].symbol)
    ensures forall k, c :: 0 <= k < |MatrixRows(ids, all)| && 0 <= c < |MatrixRows(ids, all)[k]| ==>
      Reader.Plain(MatrixRows(ids, all)[k][c])
  {
    var syms := Matrix.RowSymbols(all);
    var rows := MatrixRows(ids, all);
    Matrix.RowsSortedDistinct(all);
    forall k | 0 <= k < |rows|
      ensures forall c :: 0 <= c < |rows[k]| ==> Reader.Plain(rows[k][c])
    {
      assert syms[k] in syms;
      RowPlain(all, ids, syms[k]);
    }
  }

  /** The rate table is readable when ids are distinct, differ from "symbol" and hold no
      comma or line break, and no collected symbol holds one either. */
  lemma {:induction false} MatrixReadable(ids: seq<string>, all: seq<FundingEntry>)
    requires forall j :: 0 <= j < |ids| ==> Reader.Plain(ids[j]) && ids[j] != "symbol"
    requires forall i, j :: 0 <= i < j < |ids| ==> ids[i] != ids[j]
    requires forall i :: 0 <= i < |all| ==> Reader.Plain(all[i].symbol)
    requires var text := Join(Matrix.MatrixLines(ids, all), '\n'); !IsSpace(text[|text| - 1])
    ensures Reader.Readable(["symbol"] + ids, MatrixRows(ids, all))
  {
    MatrixTable(ids, all);
    MatrixHeaderReadable(ids);
    MatrixCellsPlain(ids, all);
  }

  /** The rate table read back gives one record per row symbol, built from its cells. */
  lemma {:induction false} MatrixReadsBack(ids: seq<string>, all: seq<FundingEntry>)
    requires forall j :: 0 <= j < |ids| ==> Reader.Plain(ids[j]) && ids[j] != "symbol"
    requires forall i, j :: 0 <= i < j < |ids| ==> ids[i] != ids[j]
    requires forall i :: 0 <= i < |all| ==> Reader.Plain(all[i].symbol)
    requires var text := Join(Matrix.MatrixLines(ids, all), '\n'); !IsSpace(text[|text| - 1])
    ensures Reader.ParseTable(Join(Matrix.MatrixLines(ids, all), '\n'))
      == Reader.RecordsOf(["symbol"] + ids, MatrixRows(ids, all))
  {
    MatrixTable(ids, all);
    MatrixReadable(ids, all);
    Reader.ReadBack(["symbol"] + ids, MatrixRows(ids, all));
  }

  /** In the rate table read back, "symbol" maps to the row's symbol. */
  lemma {:induction false} MatrixSymbolField(ids: seq<string>, all: seq<FundingEntry>, k: nat)
    requires forall j :: 0 <= j < |ids| ==> ids[j] != "symbol"
    requires forall i, j :: 0 <= i < j < |ids| ==> ids[i] != ids[j]
    requires k < |Matrix.RowSymbols(all)|
    ensures var parsed := Reader.RecordsOf(["symbol"] + ids, MatrixRows(ids, all));
      "symbol" in parsed[k] && parsed[k]["symbol"] == Matrix.RowSymbols(all)[k]
  {
    var header := ["symbol"] + ids;
    var rows := MatrixRows(ids, all);
    MatrixHeaderDistinct(ids);
    Reader.RecordsOfCells(header, rows, k, 0);
    assert header[0] == "symbol";
    var row := rows[k];
    assert row[0] == Matrix.RowSymbols(all)[k];
  }

  /** In the rate table read back, each exchange id maps to the cell of the last rate
      collected for the row's symbol there. */
  lemma {:induction false} MatrixRateField(ids: seq<string>, all: seq<FundingEntry>, k: nat, j: nat)
    requires forall j :: 0 <= j < |ids| ==> ids[j] != "symbol"
    requires forall i, j :: 0 <= i < j < |ids| ==> ids[i] != ids[j]
    requires k < |Matrix.RowSymbols(all)| && j < |ids|
    ensures var parsed := Reader.RecordsOf(["symbol"] + ids, MatrixRows(ids, all));
      ids[j] in parsed[k]
      && parsed[k][ids[j]] == Matrix.RateCell(Matrix.LastRate(all, Matrix.RowSymbols(all)[k], ids[j]))
  {
    MatrixHeaderDistinct(ids);
    MatrixRowCell(ids, all, k, j);
    Reader.RecordsOfCells(["symbol"] + ids, MatrixRows(ids, all), k, j + 1);
  }

  lemma {:induction false} MatrixRowCell(ids: seq<string>, all: seq<FundingEntry>, k: nat, j: nat)
    requires k < |Matrix.RowSymbols(all)| && j < |ids|
    ensures (["symbol"] + ids)[j + 1] == ids[j]
    ensures |MatrixRows(ids, all)[k]| == |ids| + 1
    ensures MatrixRows(ids, all)[k][j + 1] == Matrix.RateCell(Matrix.LastRate(all, Matrix.RowSymbols(all)[k], ids[j]))
  {
    var sym := Matrix.RowSymbols(all)[k];
    assert MatrixRows(ids, all)[k] == [sym] + Matrix.Cells(all, ids, sym);
  }
}
