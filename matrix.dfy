/** The exchange-by-symbol table of current funding rates that both collectors write
    (src/fetchFunding.ts:104-123 and index.js:77-89): one row per distinct symbol in
    sorted order, one column per configured exchange, each cell the rate of the last
    collected entry for that symbol on that exchange, in percent with two decimals. */
module Matrix {
  import opened Common
  import opened Text
  import opened Adapter
  import Lex
  import Decimal

  /** Whether `e` is an entry for `symbol` on `exchange`. */
  predicate Matches(e: FundingEntry, symbol: string, exchange: string)
  {
    e.symbol == symbol && e.exchange == exchange
  }

  /** The value `map[symbol][exchange]` holds once every entry is recorded in order: the
      rate of the last matching entry, none when no entry matches. */
  function LastRate(all: seq<FundingEntry>, symbol: string, exchange: string): (r: Option<real>)
    ensures r.None? <==> forall i :: 0 <= i < |all| ==> !Matches(all[i], symbol, exchange)
    ensures r.Some? ==> exists i :: (0 <= i < |all| && Matches(all[i], symbol, exchange)
      && all[i].fundingRate == r.value
      && forall j :: i < j < |all| ==> !Matches(all[j], symbol, exchange))
  {
    if |all| == 0 then None
    else
      var init, e := all[..|all| - 1], all[|all| - 1];
      if Matches(e, symbol, exchange) then Some(e.fundingRate)
      else
        var r := LastRate(init, symbol, exchange);
        assert forall i :: 0 <= i < |init| ==> all[i] == init[i];
        r
  }

  /** Recording one more entry overwrites its own cell and no other. */
  lemma {:induction false} LastWriteWins(all: seq<FundingEntry>, e: FundingEntry, symbol: string, exchange: string)
    ensures LastRate(all + [e], symbol, exchange)
      == if Matches(e, symbol, exchange) then Some(e.fundingRate) else LastRate(all, symbol, exchange)
  {
    assert (all + [e])[..|all|] == all;
  }

  /** The nested record `map` of the collectors: symbol, then exchange, then rate. */
  type Table = map<string, map<string, real>>

  /** `map[symbol][exchange]`, none when either key is absent. */
  function Lookup(t: Table, symbol: string, exchange: string): Option<real>
  {
    if symbol in t && exchange in t[symbol] then Some(t[symbol][exchange]) else None
  }

  /** One step of the `forEach` that fills the table: the entry's cell is set, creating
      the symbol's row when it is not there yet. */
  function Record(t: Table, e: FundingEntry): (t': Table)
    ensures forall s, x :: Lookup(t', s, x) == if Matches(e, s, x) then Some(e.fundingRate) else Lookup(t, s, x)
  {
    var row := if e.symbol in t then t[e.symbol] else map[];
    t[e.symbol := row[e.exchange := e.fundingRate]]
  }

  /** The symbol of every entry, in order. */
  function Symbols(all: seq<FundingEntry>): (r: seq<string>)
    ensures |r| == |all|
    ensures forall i :: 0 <= i < |r| ==> r[i] == all[i].symbol
  {
    seq(|all|, i requires 0 <= i < |all| => all[i].symbol)
  }

  /** `Array.from(new Set(all.map(e => e.symbol))).sort()`. */
  function RowSymbols(all: seq<FundingEntry>): seq<string>
  {
    Lex.SortedDistinct(Symbols(all))
  }

  /** A cell: the rate in percent with two decimals (`(v * 100).toFixed(2)`), "" when no
      rate was collected. */
  function RateCell(r: Option<real>): (s: string)
    ensures s == "" <==> r.None?
    ensures ',' !in s && '\n' !in s
  {
    var s := Decimal.Fixed(if r.Some? then Some(r.value * 100.0) else None, 2);
    assert forall i :: 0 <= i < |s| ==> s[i] != ',' && s[i] != '\n';
    s
  }

  /** A cell with a rate reads back as the rate in percent, rounded to two decimals. */
  lemma {:induction false} RateCellValue(r: Option<real>)
    requires r.Some?
    ensures Decimal.ParseDecimal(RateCell(r)) == Some(Decimal.Round(r.value * 100.0, 2))
  {
    Decimal.FixedValue(Some(r.value * 100.0), 2);
  }

  /** The header line: "symbol" and then the exchange ids in configuration order. */
  function Header(ids: seq<string>): string
  {
    Join(["symbol"] + ids, ',')
  }

  /** The cells of a symbol's row after the symbol itself, one per exchange. */
  function Cells(all: seq<FundingEntry>, ids: seq<string>, symbol: string): (cells: seq<string>)
    ensures |cells| == |ids|
    ensures forall j :: 0 <= j < |ids| ==> cells[j] == RateCell(LastRate(all, symbol, ids[j]))
  {
    seq(|ids|, j requires 0 <= j < |ids| => RateCell(LastRate(all, symbol, ids[j])))
  }

  lemma {:induction false} CellsStep(all: seq<FundingEntry>, ids: seq<string>, symbol: string, j: nat)
    requires j < |ids|
    ensures Cells(all, ids[..j + 1], symbol) == Cells(all, ids[..j], symbol) + [RateCell(LastRate(all, symbol, ids[j]))]
  {
    var a, b := Cells(all, ids[..j + 1], symbol), Cells(all, ids[..j], symbol);
    assert forall m :: 0 <= m < j ==> a[m] == b[m];
  }

  function RowLine(all: seq<FundingEntry>, ids: seq<string>, symbol: string): string
  {
    Join([symbol] + Cells(all, ids, symbol), ',')
  }

  /** The lines of the table: the header, then one line per row symbol. */
  function MatrixLines(ids: seq<string>, all: seq<FundingEntry>): (lines: seq<string>)
    ensures |lines| == 1 + |RowSymbols(all)|
    ensures lines[0] == Header(ids)
    ensures forall k :: 0 <= k < |RowSymbols(all)| ==> lines[k + 1] == RowLine(all, ids, RowSymbols(all)[k])
  {
    var rows := RowSymbols(all);
    [Header(ids)] + seq(|rows|, k requires 0 <= k < |rows| => RowLine(all, ids, rows[k]))
  }

  /** The rows are the distinct collected symbols, each once, in increasing order. */
  lemma {:induction false} RowsSortedDistinct(all: seq<FundingEntry>)
    ensures Lex.StrictlySorted(RowSymbols(all))
    ensures forall i, j :: 0 <= i < j < |RowSymbols(all)| ==> RowSymbols(all)[i] != RowSymbols(all)[j]
    ensures forall s :: s in RowSymbols(all) <==> exists i :: 0 <= i < |all| && all[i].symbol == s
  {
    var rows := RowSymbols(all);
    Lex.StrictlySortedDistinct(rows);
    forall s
      ensures s in rows <==> exists i :: 0 <= i < |all| && all[i].symbol == s
    {
      if s in rows {
        var i :| 0 <= i < |all| && Symbols(all)[i] == s;
      }
      if exists i :: 0 <= i < |all| && all[i].symbol == s {
        var i :| 0 <= i < |all| && all[i].symbol == s;
        assert Symbols(all)[i] == s;
      }
    }
  }

  /** The rows depend only on which symbols were collected, not on the order or the number
      of times they were collected. */
  lemma {:induction false} RowsBySymbolSet(a: seq<FundingEntry>, b: seq<FundingEntry>)
    requires forall s :: s in Symbols(a) <==> s in Symbols(b)
    ensures RowSymbols(a) == RowSymbols(b)
  {
    Lex.SortedUnique(RowSymbols(a), RowSymbols(b));
  }

  /** Read back with a comma split, the header gives "symbol" and the exchange ids, as
      long as no id holds a comma. */
  lemma {:induction false} HeaderColumns(ids: seq<string>)
    requires forall j :: 0 <= j < |ids| ==> ',' !in ids[j]
    ensures Split(Header(ids), ',') == ["symbol"] + ids
  {
    var head := ["symbol"] + ids;
    forall j | 0 <= j < |head|
      ensures ',' !in head[j]
    {
      if j > 0 {
        assert head[j] == ids[j - 1];
      }
    }
    SplitOfJoin(head, ',');
  }

  /** Read back with a comma split, a row line gives its symbol and exactly one cell per
      exchange, as long as the symbol holds no comma. */
  lemma {:induction false} RowColumns(all: seq<FundingEntry>, ids: seq<string>, symbol: string)
    requires ',' !in symbol
    ensures Split(RowLine(all, ids, symbol), ',') == [symbol] + Cells(all, ids, symbol)
    ensures |Split(RowLine(all, ids, symbol), ',')| == 1 + |ids|
  {
    var parts := [symbol] + Cells(all, ids, symbol);
    forall j | 0 <= j < |parts|
      ensures ',' !in parts[j]
    {
      if j > 0 {
        assert parts[j] == RateCell(LastRate(all, symbol, ids[j - 1]));
      }
    }
    SplitOfJoin(parts, ',');
  }

  /** Every line of the table splits into 1 + (number of exchanges) columns when no id and
      no collected symbol holds a comma. */
  lemma {:induction false} MatrixColumns(ids: seq<string>, all: seq<FundingEntry>)
    requires forall j :: 0 <= j < |ids| ==> ',' !in ids[j]
    requires forall i :: 0 <= i < |all| ==> ',' !in all[i].symbol
    ensures forall k :: 0 <= k < |MatrixLines(ids, all)| ==> |Split(MatrixLines(ids, all)[k], ',')| == 1 + |ids|
  {
    var lines, rows := MatrixLines(ids, all), RowSymbols(all);
    HeaderColumns(ids);
    RowsSortedDistinct(all);
    forall k | 1 <= k < |lines|
      ensures |Split(lines[k], ',')| == 1 + |ids|
    {
      assert rows[k - 1] in rows;
      RowColumns(all, ids, rows[k - 1]);
    }
  }

  /** A cell is empty exactly when no entry for that symbol was collected from that
      exchange; otherwise it reads back as the last such rate in percent, rounded to two
      decimals. */
  lemma {:induction false} CellMeaning(all: seq<FundingEntry>, ids: seq<string>, symbol: string, j: nat)
    requires j < |ids|
    ensures Cells(all, ids, symbol)[j] == "" <==> forall i :: 0 <= i < |all| ==> !Matches(all[i], symbol, ids[j])
    ensures forall i :: (0 <= i < |all| && Matches(all[i], symbol, ids[j])
      && forall k :: i < k < |all| ==> !Matches(all[k], symbol, ids[j])) ==>
      Decimal.ParseDecimal(Cells(all, ids, symbol)[j]) == Some(Decimal.Round(all[i].fundingRate * 100.0, 2))
  {
    var r := LastRate(all, symbol, ids[j]);
    var cell := Cells(all, ids, symbol)[j];
    assert cell == RateCell(r);
    forall i | 0 <= i < |all| && Matches(all[i], symbol, ids[j])
      && (forall k :: i < k < |all| ==> !Matches(all[k], symbol, ids[j]))
      ensures Decimal.ParseDecimal(cell) == Some(Decimal.Round(all[i].fundingRate * 100.0, 2))
    {
      var i' :| 0 <= i' < |all| && Matches(all[i'], symbol, ids[j]) && all[i'].fundingRate == r.value
        && forall k :: i' < k < |all| ==> !Matches(all[k], symbol, ids[j]);
      assert i' == i;
      RateCellValue(r);
    }
  }

  /** The `forEach` that fills the nested table entry by entry: afterwards every cell
      holds the rate of the last entry recorded for it. */
  method FillTable(all: seq<FundingEntry>) returns (table: Table)
    ensures forall s, x :: Lookup(table, s, x) == LastRate(all, s, x)
  {
    table := map[];
    for i := 0 to |all|
      invariant forall s, x :: Lookup(table, s, x) == LastRate(all[..i], s, x)
    {
      assert all[..i + 1] == all[..i] + [all[i]];
      forall s, x
        ensures Lookup(Record(table, all[i]), s, x) == LastRate(all[..i + 1], s, x)
      {
        LastWriteWins(all[..i], all[i], s, x);
      }
      table := Record(table, all[i]);
    }
    assert all[..|all|] == all;
  }

  /** The cells of one row, looked up in the filled table exchange by exchange. */
  method RowCells(table: Table, all: seq<FundingEntry>, ids: seq<string>, sym: string) returns (cells: seq<string>)
    requires forall x :: Lookup(table, sym, x) == LastRate(all, sym, x)
    ensures cells == Cells(all, ids, sym)
  {
    cells := [];
    for j := 0 to |ids|
      invariant cells == Cells(all, ids[..j], sym)
    {
      var rate := Lookup(table, sym, ids[j]);
      assert rate == LastRate(all, sym, ids[j]);
      CellsStep(all, ids, sym, j);
      cells := cells + [RateCell(rate)];
    }
    assert ids[..|ids|] == ids;
  }

  /** The table-building part of the collectors: fill the nested table, then emit the
      header and one line per sorted symbol, each cell looked up in the table. */
  method BuildMatrix(ids: seq<string>, all: seq<FundingEntry>) returns (lines: seq<string>)
    ensures lines == MatrixLines(ids, all)
  {
    var table := FillTable(all);
    var rows := RowSymbols(all);
    lines := [Header(ids)];
    for k := 0 to |rows|
      invariant |lines| == k + 1
      invariant lines[0] == Header(ids)
      invariant forall m :: 0 <= m < k ==> lines[m + 1] == RowLine(all, ids, rows[m])
    {
      var cells := RowCells(table, all, ids, rows[k]);
      lines := lines + [Join([rows[k]] + cells, ',')];
    }
  }
}
