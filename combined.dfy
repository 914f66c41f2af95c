/** `updateCombinedData` (src/combinedFunding.ts): the history rows that say something,
    scaled to percent, joined with the live rows on (exchange, symbol), and written as
    one CSV file. */
module Combined {
  import opened Common
  import opened Text
  import Decimal
  import opened Adapter
  import opened History
  import opened Live

  // ----- post-filter and scaling of the history rows -----

  /** `Number(r[p])`: a window that is absent reads as NaN. */
  function Window(w: map<nat, Number>, p: nat): Number
  {
    if p in w then w[p] else NaN
  }

  /** The post-filter test, on the values as computed: some window is a number other than 0. */
  predicate Meaningful(r: HistRow)
  {
    exists k :: 0 <= k < |Periods| && Window(r.windows, Periods[k]).Finite? && Window(r.windows, Periods[k]).value != 0.0
  }

  /** `parseFloat((Number(v) * 100).toFixed(4))`: the value in percent, rounded to four
      decimals as `toFixed` rounds it and read back; NaN stays NaN. */
  function Scale(v: Number): (r: Number)
    ensures r.NaN? <==> v.NaN?
    ensures v.Finite? ==> Decimal.ParseDecimal(Decimal.ToFixed(v.value * 100.0, 4)) == Some(r.value)
  {
    if v.NaN? then NaN
    else
      Decimal.ParseToFixed(v.value * 100.0, 4);
      Finite(Decimal.Round(v.value * 100.0, 4))
  }

  /** `periods.forEach(p => { r[p] = ... })`: every period's window replaced by its scaled value. */
  function Scaled(r: HistRow): (s: HistRow)
    ensures s.exchange == r.exchange && s.symbol == r.symbol
    ensures forall k :: 0 <= k < |Periods| ==> Periods[k] in s.windows && s.windows[Periods[k]] == Scale(Window(r.windows, Periods[k]))
  {
    r.(windows := r.windows + map p | p in Periods :: Scale(Window(r.windows, p)))
  }

  /** `allHist.filter(Meaningful).map(Scaled)`: the rows with a non-zero number in some
      window, in their order, scaled. */
  function PostFilter(rows: seq<HistRow>): (out: seq<HistRow>)
    ensures |out| <= |rows|
  {
    if |rows| == 0 then []
    else
      var init, last := rows[..|rows| - 1], rows[|rows| - 1];
      var rest := PostFilter(init);
      if Meaningful(last) then rest + [Scaled(last)] else rest
  }

  /** Every row the post-filter keeps is the scaled copy of a meaningful input row. */
  lemma {:induction false} PostFilterSound(rows: seq<HistRow>, x: HistRow)
    requires x in PostFilter(rows)
    ensures exists i :: 0 <= i < |rows| && Meaningful(rows[i]) && x == Scaled(rows[i])
  {
    var init, last := rows[..|rows| - 1], rows[|rows| - 1];
    if x in PostFilter(init) {
      PostFilterSound(init, x);
      var i :| 0 <= i < |init| && Meaningful(init[i]) && x == Scaled(init[i]);
      assert rows[i] == init[i];
    } else {
      assert Meaningful(last) && x == Scaled(last);
    }
  }

  /** Every meaningful input row is kept, scaled. */
  lemma {:induction false} PostFilterComplete(rows: seq<HistRow>, i: nat)
    requires i < |rows| && Meaningful(rows[i])
    ensures Scaled(rows[i]) in PostFilter(rows)
  {
    var init := rows[..|rows| - 1];
    if i < |rows| - 1 {
      assert rows[i] == init[i];
      PostFilterComplete(init, i);
    }
  }

  /** The filter looks at the values before scaling: a row whose only non-zero window is
      below 0.5e-6 survives, yet every window it prints is 0. */
  lemma {:induction false} TinyRowPrintsZeros(r: HistRow)
    requires forall k :: 0 <= k < |Periods| ==> Periods[k] in r.windows && r.windows[Periods[k]] == Finite(0.0)
    ensures var t := r.(windows := r.windows[1 := Finite(0.0000004)]);
      Meaningful(t) && forall k :: 0 <= k < |Periods| ==> Scaled(t).windows[Periods[k]] == Finite(0.0)
  {
    var t := r.(windows := r.windows[1 := Finite(0.0000004)]);
    assert Window(t.windows, Periods[0]) == Finite(0.0000004);
    assert Decimal.Pow10(4) == 10000;
    assert Decimal.ScaledUnits(0.0000004 * 100.0, 4) == 0;
    assert Decimal.ScaledUnits(0.0 * 100.0, 4) == 0;
    forall k | 0 <= k < |Periods|
      ensures Scaled(t).windows[Periods[k]] == Finite(0.0)
    {
      if k > 0 {
        assert Window(t.windows, Periods[k]) == Finite(0.0);
      }
    }
  }

  // ----- full outer join on "exchange||symbol" -----

  /** `${exchange}||${symbol}` */
  function Key(exchange: string, symbol: string): string
  {
    exchange + "||" + symbol
  }

  /** Keys identify the pair as long as exchange ids hold no '|'. */
  lemma {:induction false} KeyInjective(e1: string, s1: string, e2: string, s2: string)
    requires '|' !in e1 && '|' !in e2
    requires Key(e1, s1) == Key(e2, s2)
    ensures e1 == e2 && s1 == s2
  {
    var k := Key(e1, s1);
    if |e1| < |e2| {
      KeyBarAt(e1, s1, e2, s2);
      assert false;
    } else if |e2| < |e1| {
      KeyBarAt(e2, s2, e1, s1);
      assert false;
    } else {
      assert e1 == k[..|e1|] == e2;
      assert s1 == k[|e1| + 2..] == s2;
    }
  }

  /** When one exchange id is shorter than the other, the longer one has a '|' where the
      shorter one's separator starts. */
  lemma {:induction false} KeyBarAt(e1: string, s1: string, e2: string, s2: string)
    requires Key(e1, s1) == Key(e2, s2) && |e1| < |e2|
    ensures '|' in e2
  {
    assert e2[|e1|] == Key(e2, s2)[|e1|] == Key(e1, s1)[|e1|] == '|';
  }

  /** A row of the combined table: the history windows when a history row has the key,
      and the live fields when a live row has it. */
  datatype CombinedRecord = CombinedRecord(
    exchange: string,
    symbol: string,
    windows: Option<map<nat, Number>>,
    live: Option<LiveRow>)

  function HistKeys(hist: seq<HistRow>): seq<string>
  {
    seq(|hist|, i requires 0 <= i < |hist| => Key(hist[i].exchange, hist[i].symbol))
  }

  function LiveKeys(live: seq<LiveRow>): seq<string>
  {
    seq(|live|, i requires 0 <= i < |live| => Key(live[i].exchange, live[i].symbol))
  }

  /** The keys in order of first occurrence, each once: the iteration order of a `Map`
      whose `set` keeps the position of a key already present. */
  function Dedup(ks: seq<string>): (r: seq<string>)
    ensures forall k :: k in r <==> k in ks
    ensures forall i, j :: 0 <= i < j < |r| ==> r[i] != r[j]
  {
    if |ks| == 0 then []
    else
      var init := ks[..|ks| - 1];
      assert ks == init + [ks[|ks| - 1]];
      var d := Dedup(init);
      if ks[|ks| - 1] in d then d else d + [ks[|ks| - 1]]
  }

  /** The last history row with key `k`. */
  function LastHist(hist: seq<HistRow>, k: string): (r: Option<HistRow>)
    ensures r.None? <==> k !in HistKeys(hist)
    ensures r.Some? ==> r.value in hist && Key(r.value.exchange, r.value.symbol) == k
  {
    if |hist| == 0 then None
    else
      var init, last := hist[..|hist| - 1], hist[|hist| - 1];
      assert HistKeys(hist) == HistKeys(init) + [Key(last.exchange, last.symbol)];
      if Key(last.exchange, last.symbol) == k then Some(last) else LastHist(init, k)
  }

  /** The last live row with key `k`. */
  function LastLive(live: seq<LiveRow>, k: string): (r: Option<LiveRow>)
    ensures r.None? <==> k !in LiveKeys(live)
    ensures r.Some? ==> r.value in live && Key(r.value.exchange, r.value.symbol) == k
  {
    if |live| == 0 then None
    else
      var init, last := live[..|live| - 1], live[|live| - 1];
      assert LiveKeys(live) == LiveKeys(init) + [Key(last.exchange, last.symbol)];
      if Key(last.exchange, last.symbol) == k then Some(last) else LastLive(init, k)
  }

  /** The record the join holds for key `k`: the last history row with that key sets the
      windows (a later one replaces an earlier one whole), and the last live row with that
      key sets the live fields, its exchange and its symbol. */
  function Joined(hist: seq<HistRow>, live: seq<LiveRow>, k: string): (r: CombinedRecord)
    requires k in HistKeys(hist) || k in LiveKeys(live)
    ensures Key(r.exchange, r.symbol) == k
    ensures r.live == LastLive(live, k)
    ensures r.live.Some? ==> r.exchange == r.live.value.exchange && r.symbol == r.live.value.symbol
    ensures r.live.None? ==> r.exchange == LastHist(hist, k).value.exchange && r.symbol == LastHist(hist, k).value.symbol
    ensures r.windows.Some? <==> k in HistKeys(hist)
    ensures r.windows.Some? ==> r.windows.value == LastHist(hist, k).value.windows
  {
    var h := LastHist(hist, k);
    var l := LastLive(live, k);
    if l.Some? then
      CombinedRecord(l.value.exchange, l.value.symbol, if h.Some? then Some(h.value.windows) else None, l)
    else
      CombinedRecord(h.value.exchange, h.value.symbol, Some(h.value.windows), None)
  }

  /** `Array.from(map.values())` after the join: one record per key, in order of first occurrence. */
  function JoinAll(hist: seq<HistRow>, live: seq<LiveRow>): (rs: seq<CombinedRecord>)
  {
    var keys := Dedup(HistKeys(hist) + LiveKeys(live));
    assert forall k :: k in keys ==> k in HistKeys(hist) || k in LiveKeys(live);
    seq(|keys|, i requires 0 <= i < |keys| => Joined(hist, live, keys[i]))
  }

  lemma {:induction false} DedupSnoc(ks: seq<string>, k: string)
    ensures Dedup(ks + [k]) == if k in ks then Dedup(ks) else Dedup(ks) + [k]
  {
    assert (ks + [k])[..|ks|] == ks;
  }

  lemma {:induction false} LastHistSnoc(hist: seq<HistRow>, h: HistRow, k: string)
    ensures LastHist(hist + [h], k) == if Key(h.exchange, h.symbol) == k then Some(h) else LastHist(hist, k)
  {
    assert (hist + [h])[..|hist|] == hist;
  }

  lemma {:induction false} LastLiveSnoc(live: seq<LiveRow>, r: LiveRow, k: string)
    ensures LastLive(live + [r], k) == if Key(r.exchange, r.symbol) == k then Some(r) else LastLive(live, k)
  {
    assert (live + [r])[..|live|] == live;
  }

  /** The `Map` after the rows `hist` and `live` went in: its keys in insertion order and
      the record of each. */
  ghost predicate JoinState(hist: seq<HistRow>, live: seq<LiveRow>, order: seq<string>, records: map<string, CombinedRecord>)
  {
    && order == Dedup(HistKeys(hist) + LiveKeys(live))
    && (forall k :: k in records <==> k in order)
    && RecordsJoined(hist, live, records)
  }

  /** Every record in the `Map` is the joined record of its key. */
  ghost predicate RecordsJoined(hist: seq<HistRow>, live: seq<LiveRow>, records: map<string, CombinedRecord>)
  {
    forall k :: k in records ==> (k in HistKeys(hist) || k in LiveKeys(live)) && records[k] == Joined(hist, live, k)
  }

  /** Setting a key in the `Map` appends it to the iteration order when it is new and
      leaves the order alone when it is already there. */
  lemma {:induction false} OrderStep(ks: seq<string>, key: string, order: seq<string>, records: map<string, CombinedRecord>)
    requires order == Dedup(ks) && forall k :: k in records <==> k in order
    ensures (if key in records then order else order + [key]) == Dedup(ks + [key])
    ensures forall k :: k in records || k == key <==> k in (if key in records then order else order + [key])
  {
    DedupSnoc(ks, key);
  }

  /** `map.set(key, { ...r })` for one more history row. */
  lemma {:induction false} HistStep(hist: seq<HistRow>, r: HistRow, order: seq<string>, records: map<string, CombinedRecord>,
                                    order': seq<string>, records': map<string, CombinedRecord>)
    requires JoinState(hist, [], order, records)
    requires var key := Key(r.exchange, r.symbol);
      && order' == (if key in records then order else order + [key])
      && records' == records[key := CombinedRecord(r.exchange, r.symbol, Some(r.windows), None)]
    ensures JoinState(hist + [r], [], order', records')
  {
    var key := Key(r.exchange, r.symbol);
    assert HistKeys(hist + [r]) + LiveKeys([]) == (HistKeys(hist) + LiveKeys([])) + [key];
    OrderStep(HistKeys(hist) + LiveKeys([]), key, order, records);
    HistRecords(hist, r, records);
  }

  /** After one more history row, every record is still the joined record of its key. */
  lemma {:induction false} HistRecords(hist: seq<HistRow>, r: HistRow, records: map<string, CombinedRecord>)
    requires RecordsJoined(hist, [], records)
    ensures var key := Key(r.exchange, r.symbol);
      RecordsJoined(hist + [r], [], records[key := CombinedRecord(r.exchange, r.symbol, Some(r.windows), None)])
  {
    var key := Key(r.exchange, r.symbol);
    var records' := records[key := CombinedRecord(r.exchange, r.symbol, Some(r.windows), None)];
    assert HistKeys(hist + [r]) == HistKeys(hist) + [key];
    forall k | k in records'
      ensures k in HistKeys(hist + [r]) || k in LiveKeys([])
      ensures records'[k] == Joined(hist + [r], [], k)
    {
      LastHistSnoc(hist, r, k);
      if k != key {
        assert records'[k] == records[k];
      }
    }
  }

  /** `map.set(key, { ...prev, ...r })` for one more live row, `prev` being the record
      under the key or one holding only the exchange and the symbol. */
  lemma {:induction false} LiveStep(hist: seq<HistRow>, live: seq<LiveRow>, r: LiveRow, order: seq<string>, records: map<string, CombinedRecord>,
                                    order': seq<string>, records': map<string, CombinedRecord>)
    requires JoinState(hist, live, order, records)
    requires var key := Key(r.exchange, r.symbol);
      var prev := if key in records then records[key] else CombinedRecord(r.exchange, r.symbol, None, None);
      && order' == (if key in records then order else order + [key])
      && records' == records[key := CombinedRecord(r.exchange, r.symbol, prev.windows, Some(r))]
    ensures JoinState(hist, live + [r], order', records')
  {
    var key := Key(r.exchange, r.symbol);
    assert HistKeys(hist) + LiveKeys(live + [r]) == (HistKeys(hist) + LiveKeys(live)) + [key];
    OrderStep(HistKeys(hist) + LiveKeys(live), key, order, records);
    HistKeysKept(hist, live, order, records);
    LiveRecords(hist, live, r, records);
  }

  /** Every key of a history row is in the `Map` while the live rows go in. */
  lemma {:induction false} HistKeysKept(hist: seq<HistRow>, live: seq<LiveRow>, order: seq<string>, records: map<string, CombinedRecord>)
    requires JoinState(hist, live, order, records)
    ensures forall k :: k in HistKeys(hist) ==> k in records
  {
    forall k | k in HistKeys(hist)
      ensures k in records
    {
      assert k in HistKeys(hist) + LiveKeys(live);
    }
  }

  /** After one more live row, every record is still the joined record of its key. */
  lemma {:induction false} LiveRecords(hist: seq<HistRow>, live: seq<LiveRow>, r: LiveRow, records: map<string, CombinedRecord>)
    requires RecordsJoined(hist, live, records)
    requires forall k :: k in HistKeys(hist) ==> k in records
    ensures var key := Key(r.exchange, r.symbol);
      var prev := if key in records then records[key] else CombinedRecord(r.exchange, r.symbol, None, None);
      RecordsJoined(hist, live + [r], records[key := CombinedRecord(r.exchange, r.symbol, prev.windows, Some(r))])
  {
    var key := Key(r.exchange, r.symbol);
    var prev := if key in records then records[key] else CombinedRecord(r.exchange, r.symbol, None, None);
    var records' := records[key := CombinedRecord(r.exchange, r.symbol, prev.windows, Some(r))];
    assert LiveKeys(live + [r]) == LiveKeys(live) + [key];
    forall k | k in records'
      ensures k in HistKeys(hist) || k in LiveKeys(live + [r])
      ensures records'[k] == Joined(hist, live + [r], k)
    {
      LastLiveSnoc(live, r, k);
      if k == key {
        assert prev.windows.Some? <==> k in HistKeys(hist);
        assert prev.windows.Some? ==> prev.windows.value == LastHist(hist, k).value.windows;
      } else {
        assert records'[k] == records[k];
      }
    }
  }

  /** The records of a finished join, read in insertion order, are the joined table. */
  lemma {:induction false} JoinFinish(hist: seq<HistRow>, live: seq<LiveRow>, order: seq<string>, records: map<string, CombinedRecord>)
    requires JoinState(hist, live, order, records)
    ensures forall k :: k in order ==> k in records
    ensures seq(|order|, i requires 0 <= i < |order| => if order[i] in records then records[order[i]] else CombinedRecord("", "", None, None)) == JoinAll(hist, live)
  {
  }

  /** The first loop of the join: every history row put in the `Map` under its key,
      replacing the record of an earlier row with the same key. */
  method JoinHistory(hist: seq<HistRow>) returns (order: seq<string>, records: map<string, CombinedRecord>)
    ensures JoinState(hist, [], order, records)
  {
    order := [];
    records := map[];
    assert HistKeys([]) + LiveKeys([]) == [];
    for i := 0 to |hist|
      invariant JoinState(hist[..i], [], order, records)
    {
      var r := hist[i];
      var key := Key(r.exchange, r.symbol);
      assert hist[..i + 1] == hist[..i] + [r];
      var order' := if key in records then order else order + [key];
      var records' := records[key := CombinedRecord(r.exchange, r.symbol, Some(r.windows), None)];
      HistStep(hist[..i], r, order, records, order', records');
      order, records := order', records';
    }
    assert hist[..|hist|] == hist;
  }

  /** The second loop of the join: every live row merged into the record of its key, or
      starting one. */
  method JoinLive(hist: seq<HistRow>, live: seq<LiveRow>, order0: seq<string>, records0: map<string, CombinedRecord>)
    returns (order: seq<string>, records: map<string, CombinedRecord>)
    requires JoinState(hist, [], order0, records0)
    ensures JoinState(hist, live, order, records)
  {
    order, records := order0, records0;
    assert live[..0] == [];
    for j := 0 to |live|
      invariant JoinState(hist, live[..j], order, records)
    {
      var r := live[j];
      var key := Key(r.exchange, r.symbol);
      assert live[..j + 1] == live[..j] + [r];
      var prev := if key in records then records[key] else CombinedRecord(r.exchange, r.symbol, None, None);
      var order' := if key in records then order else order + [key];
      var records' := records[key := CombinedRecord(r.exchange, r.symbol, prev.windows, Some(r))];
      LiveStep(hist, live[..j], r, order, records, order', records');
      order, records := order', records';
    }
    assert live[..|live|] == live;
  }

  /** The join of `updateCombinedData`: the history rows are put in a `Map` by key, then
      every live row is merged into the record of its key, or starts one; the records are
      read out in insertion order. */
  method OuterJoin(hist: seq<HistRow>, live: seq<LiveRow>) returns (combined: seq<CombinedRecord>)
    ensures combined == JoinAll(hist, live)
  {
    var order0, records0 := JoinHistory(hist);
    var order, records := JoinLive(hist, live, order0, records0);
    JoinFinish(hist, live, order, records);
    combined := seq(|order|, i requires 0 <= i < |order| => if order[i] in records then records[order[i]] else CombinedRecord("", "", None, None));
  }

  /** No two rows of the joined table have the same exchange and symbol. */
  lemma {:induction false} JoinedPairsDistinct(hist: seq<HistRow>, live: seq<LiveRow>, i: nat, j: nat)
    requires i < j < |JoinAll(hist, live)|
    ensures var rs := JoinAll(hist, live);
      rs[i].exchange != rs[j].exchange || rs[i].symbol != rs[j].symbol
  {
    var keys := Dedup(HistKeys(hist) + LiveKeys(live));
    assert keys[i] in HistKeys(hist) + LiveKeys(live) && keys[j] in HistKeys(hist) + LiveKeys(live);
    assert keys[i] != keys[j];
  }

  /** As long as no exchange id holds a '|', a record that has both sides joins a history
      row and a live row of the same exchange and symbol. */
  lemma {:induction false} JoinMatchesPairs(hist: seq<HistRow>, live: seq<LiveRow>, k: string)
    requires forall r :: r in hist ==> '|' !in r.exchange
    requires forall r :: r in live ==> '|' !in r.exchange
    requires k in HistKeys(hist) && k in LiveKeys(live)
    ensures var h, l := LastHist(hist, k).value, LastLive(live, k).value;
      h.exchange == l.exchange && h.symbol == l.symbol
  {
    var h, l := LastHist(hist, k).value, LastLive(live, k).value;
    KeyInjective(h.exchange, h.symbol, l.exchange, l.symbol);
  }

  /** Every meaningful history row and every live row ends up in exactly the record of its key. */
  lemma {:induction false} JoinCovers(hist: seq<HistRow>, live: seq<LiveRow>, k: string)
    requires k in HistKeys(hist) || k in LiveKeys(live)
    ensures exists i :: 0 <= i < |JoinAll(hist, live)| && JoinAll(hist, live)[i] == Joined(hist, live, k)
  {
    var keys := Dedup(HistKeys(hist) + LiveKeys(live));
    assert k in HistKeys(hist) + LiveKeys(live);
    var i :| 0 <= i < |keys| && keys[i] == k;
    assert JoinAll(hist, live)[i] == Joined(hist, live, k);
  }

  // ----- CSV rendering -----

  const Headers: seq<string> := ["exchange", "symbol", "1d", "2d", "3d", "5d", "7d", "datetime", "fundingRate", "interval", "markPrice"]

  /** `rec[h]` for the column `c`, as a string: `None` when it is undefined. A window is
      printed with `String(number)` ("NaN" for NaN). */
  function Field(rec: CombinedRecord, c: nat): Option<string>
    requires c < |Headers|
  {
    if c == 0 then Some(rec.exchange)
    else if c == 1 then Some(rec.symbol)
    else if c < 7 then
      if rec.windows.Some? && Periods[c - 2] in rec.windows.value
      then Some(Decimal.NumberString(rec.windows.value[Periods[c - 2]])) else None
    else if rec.live.None? then None
    else if c == 7 then Some(rec.live.value.datetime)
    else if c == 8 then Some(rec.live.value.fundingRate)
    else if c == 9 then Some(rec.live.value.interval)
    else Some(rec.live.value.markPrice)
  }

  /** `s.replace(/"/g, '""')` */
  function DoubleQuotes(s: string): (r: string)
    ensures |r| == |s| + Count(s, '"')
  {
    if |s| == 0 then ""
    else if s[0] == '"' then "\"\"" + DoubleQuotes(s[1..])
    else [s[0]] + DoubleQuotes(s[1..])
  }

  /** Reads a doubled quote back as one quote. */
  function Undouble(r: string): string
  {
    if |r| == 0 then ""
    else if |r| >= 2 && r[0] == '"' && r[1] == '"' then "\"" + Undouble(r[2..])
    else [r[0]] + Undouble(r[1..])
  }

  lemma {:induction false} UndoubleDouble(s: string)
    ensures Undouble(DoubleQuotes(s)) == s
  {
    if |s| > 0 {
      UndoubleDouble(s[1..]);
      var t := DoubleQuotes(s[1..]);
      if s[0] == '"' {
        assert ("\"\"" + t)[2..] == t;
      } else {
        assert ([s[0]] + t)[1..] == t;
      }
      assert s == [s[0]] + s[1..];
    }
  }

  /** A cell: the text in double quotes, with its quotes doubled, when it holds a comma or
      a quote; otherwise the text itself. */
  function Escape(s: string): (r: string)
    ensures (',' in s || '"' in s) <==> (|r| >= 2 && r[0] == '"')
  {
    if ',' in s || '"' in s then "\"" + DoubleQuotes(s) + "\"" else s
  }

  /** Reading a cell back. */
  function Unescape(cell: string): string
  {
    if |cell| >= 2 && cell[0] == '"' && cell[|cell| - 1] == '"' then Undouble(cell[1..|cell| - 1]) else cell
  }

  lemma {:induction false} UnescapeEscape(s: string)
    ensures Unescape(Escape(s)) == s
  {
    if ',' in s || '"' in s {
      var d := DoubleQuotes(s);
      assert ("\"" + d + "\"")[1..|d| + 1] == d;
      UndoubleDouble(s);
    } else if |s| >= 2 {
      assert s[0] in s;
    }
  }

  /** The cell of column `c`: "" for an undefined value. */
  function Cell(rec: CombinedRecord, c: nat): string
    requires c < |Headers|
  {
    var f := Field(rec, c);
    if f.None? then "" else Escape(f.value)
  }

  function Cells(rec: CombinedRecord): (cs: seq<string>)
    ensures |cs| == |Headers|
  {
    seq(|Headers|, c requires 0 <= c < |Headers| => Cell(rec, c))
  }

  function RecordLines(records: seq<CombinedRecord>): (lines: seq<string>)
    ensures |lines| == |records|
  {
    seq(|records|, i requires 0 <= i < |records| => Join(Cells(records[i]), ','))
  }

  /** The lines of the combined CSV: the header, then one line per record. The header
      line splits back into exactly the eleven column names. */
  function CsvLines(records: seq<CombinedRecord>): (lines: seq<string>)
    ensures |lines| == |records| + 1
    ensures Split(lines[0], ',') == Headers && |Split(lines[0], ',')| == 11
  {
    assert forall i :: 0 <= i < |Headers| ==> ',' !in Headers[i];
    SplitOfJoin(Headers, ',');
    [Join(Headers, ',')] + RecordLines(records)
  }

  /** A window cell reads back as the scaled value: it is printed unquoted and its
      decimal text parses to the number. */
  lemma {:induction false} WindowCellReadsBack(rec: CombinedRecord, c: nat, x: real)
    requires 2 <= c < 7 && rec.windows.Some? && Periods[c - 2] in rec.windows.value
    requires rec.windows.value[Periods[c - 2]] == Finite(Decimal.Round(x, 4))
    ensures Decimal.ParseDecimal(Cell(rec, c)) == Some(Decimal.Round(x, 4))
  {
    var v := rec.windows.value[Periods[c - 2]];
    Decimal.NumberStringShape(v);
    Decimal.ParseNumberString(x);
  }

  /** A record with no history row prints its five window cells empty, and one with no
      live row prints its four live cells empty. */
  lemma {:induction false} MissingSideEmpty(rec: CombinedRecord, c: nat)
    requires c < |Headers|
    ensures rec.windows.None? && 2 <= c < 7 ==> Cell(rec, c) == ""
    ensures rec.live.None? && 7 <= c ==> Cell(rec, c) == ""
  {
  }

  lemma {:induction false} CsvLinesSnoc(records: seq<CombinedRecord>, rec: CombinedRecord)
    ensures CsvLines(records + [rec]) == CsvLines(records) + [Join(Cells(rec), ',')]
  {
    assert RecordLines(records + [rec]) == RecordLines(records) + [Join(Cells(rec), ',')];
  }

  lemma {:induction false} CsvLinesNext(records: seq<CombinedRecord>, i: nat)
    requires i < |records|
    ensures CsvLines(records[..i + 1]) == CsvLines(records[..i]) + [Join(Cells(records[i]), ',')]
  {
    assert records[..i + 1] == records[..i] + [records[i]];
    CsvLinesSnoc(records[..i], records[i]);
  }

  /** `lines.forEach(...)` then `lines.join('\n')`: the text written to the combined file. */
  method RenderCombined(records: seq<CombinedRecord>) returns (content: string)
    ensures content == Join(CsvLines(records), '\n')
  {
    var lines := [Join(Headers, ',')];
    for i := 0 to |records|
      invariant lines == CsvLines(records[..i])
    {
      lines := lines + [Join(Cells(records[i]), ',')];
      assert lines == CsvLines(records[..i + 1]) by {
        CsvLinesNext(records, i);
      }
    }
    assert records[..|records|] == records;
    content := Join(lines, '\n');
  }

  // ----- the whole update -----

  /** An exchange of the history half: its label, its markets and its history oracle. */
  datatype HistSource = HistSource(name: string, markets: Fetch<seq<Market>>, history: string -> HistoryCall)

  function AllHist(sources: seq<HistSource>): seq<HistRow>
  {
    if |sources| == 0 then []
    else
      var s := sources[|sources| - 1];
      AllHist(sources[..|sources| - 1]) + ExchangeRows(s.name, s.markets, s.history)
  }

  /** The text `updateCombinedData` writes. */
  function CombinedCsv(hs: seq<HistSource>, ls: seq<LiveSource>, fmtDate: int -> string): string
  {
    Join(CsvLines(JoinAll(PostFilter(AllHist(hs)), CurrentRows(ls, fmtDate))), '\n')
  }

  /** `updateCombinedData`: history rows exchange by exchange, the post-filter, the live
      rows, the join and the file text. */
  method UpdateCombinedData(hs: seq<HistSource>, ls: seq<LiveSource>, fmtDate: int -> string) returns (content: string)
    ensures content == CombinedCsv(hs, ls, fmtDate)
  {
    var allHist: seq<HistRow> := [];
    for i := 0 to |hs|
      invariant allHist == AllHist(hs[..i])
    {
      var rows := ProcessExchangeFunding(hs[i].name, hs[i].markets, hs[i].history);
      assert hs[..i + 1][..i] == hs[..i];
      allHist := allHist + rows;
    }
    assert hs[..|hs|] == hs;
    var filtered := PostFilter(allHist);
    var current := CurrentRows(ls, fmtDate);
    var combined := OuterJoin(filtered, current);
    content := RenderCombined(combined);
  }
}
