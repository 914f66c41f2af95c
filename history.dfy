/** The history half of the combined table: per symbol, the funding rates of the last
    seven days reduced to five trailing windows (src/combinedFunding.ts). */
module History {
  import opened Common
  import opened Adapter

  const MsPerDay: int := 24 * 60 * 60 * 1000

  /** The window lengths, in days, in the order the windows are computed. */
  const Periods: seq<nat> := [1, 2, 3, 5, 7]

  /** One entry of `fetchFundingRateHistory`: its timestamp in milliseconds and its rate,
      each possibly `undefined`. */
  datatype HistoryEntry = HistoryEntry(timestamp: Option<int>, fundingRate: Option<real>)

  /** One call for one symbol: the clock reading `Date.now()` taken first, then what the
      history fetch answered. */
  datatype HistoryCall = HistoryCall(now: int, answer: Fetch<seq<HistoryEntry>>)

  /** A history record: exchange label, symbol and the value of each window, keyed by its length in days. */
  datatype HistRow = HistRow(exchange: string, symbol: string, windows: map<nat, Number>)

  /** The entry is counted in a window starting at `since`: its timestamp is defined and not earlier. */
  predicate Counted(e: HistoryEntry, since: int)
  {
    e.timestamp.Some? && e.timestamp.value >= since
  }

  /** `history.filter(item => item.timestamp !== undefined && item.timestamp >= since)` */
  function Filtered(h: seq<HistoryEntry>, since: int): (r: seq<HistoryEntry>)
    ensures |r| <= |h|
    ensures forall e :: e in r ==> e in h && Counted(e, since)
    ensures forall i :: 0 <= i < |h| && Counted(h[i], since) ==> h[i] in r
  {
    if |h| == 0 then []
    else
      var init, last := h[..|h| - 1], h[|h| - 1];
      assert forall i :: 0 <= i < |h| - 1 ==> h[i] == init[i];
      var rest := Filtered(init, since);
      if Counted(last, since) then rest + [last] else rest
  }

  /** `Number(rate)`: an undefined rate is NaN. */
  function RateNumber(rate: Option<real>): Number
  {
    if rate.Some? then Finite(rate.value) else NaN
  }

  /** `entries.reduce((acc, cur) => acc + Number(cur.fundingRate), 0)`: NaN exactly when
      some entry has no rate, and 0 for no entries. */
  function Total(s: seq<HistoryEntry>): (t: Number)
    ensures t.NaN? <==> exists i :: 0 <= i < |s| && s[i].fundingRate.None?
    ensures |s| == 0 ==> t == Finite(0.0)
  {
    if |s| == 0 then Finite(0.0)
    else
      var init := s[..|s| - 1];
      assert forall i :: 0 <= i < |s| - 1 ==> s[i] == init[i];
      Plus(Total(init), RateNumber(s[|s| - 1].fundingRate))
  }

  /** `total / days` */
  function Divide(t: Number, days: nat): Number
    requires days > 0
  {
    if t.NaN? then NaN else Finite(t.value / days as real)
  }

  /** The value of the `days`-day window at time `now`: the summed rates of the entries
      stamped at or after `now - days * MsPerDay`, divided by the number of days (not by
      the number of entries). */
  function WindowValue(h: seq<HistoryEntry>, now: int, days: nat): Number
    requires days > 0
  {
    Divide(Total(Filtered(h, now - days * MsPerDay)), days)
  }

  /** The five windows of one symbol: all NaN when the history fetch threw. */
  function Averages(call: HistoryCall): (w: map<nat, Number>)
  {
    map d | d in Periods :: if call.answer.Throws? then NaN else WindowValue(call.answer.value, call.now, d)
  }

  /** `calculateAvgFundingRatesForSymbol`: fills one value per period. When the history
      fetch fails every window is NaN; otherwise each window is its summed rates over its
      number of days. */
  method CalculateAverages(call: HistoryCall) returns (result: map<nat, Number>)
    ensures result.Keys == set d | d in Periods
    ensures call.answer.Throws? ==> forall d :: d in result ==> result[d] == NaN
    ensures call.answer.Returns? ==>
      forall d :: d in result ==> d > 0 && result[d] == WindowValue(call.answer.value, call.now, d)
  {
    result := map[];
    if call.answer.Returns? {
      var history := call.answer.value;
      for k := 0 to |Periods|
        invariant result.Keys == set j | 0 <= j < k :: Periods[j]
        invariant forall d :: d in result ==> d > 0 && result[d] == WindowValue(history, call.now, d)
      {
        var days := Periods[k];
        var since := call.now - days * MsPerDay;
        var filtered := Filtered(history, since);
        var total := Total(filtered);
        result := result[days := Divide(total, days)];
      }
    } else {
      for k := 0 to |Periods|
        invariant result.Keys == set j | 0 <= j < k :: Periods[j]
        invariant forall d :: d in result ==> result[d] == NaN
      {
        result := result[Periods[k] := NaN];
      }
    }
  }

  /** Filtering a concatenation filters each part. */
  lemma {:induction false} FilteredAppend(a: seq<HistoryEntry>, b: seq<HistoryEntry>, since: int)
    ensures Filtered(a + b, since) == Filtered(a, since) + Filtered(b, since)
  {
    if |b| > 0 {
      var b' := b[..|b| - 1];
      assert (a + b)[..|a + b| - 1] == a + b';
      FilteredAppend(a, b', since);
    } else {
      assert a + b == a;
    }
  }

  /** An entry whose timestamp is undefined counts in no window: removing it changes no window. */
  lemma {:induction false} UndatedNeverCounted(h1: seq<HistoryEntry>, e: HistoryEntry, h2: seq<HistoryEntry>, now: int, days: nat)
    requires e.timestamp.None? && days > 0
    ensures WindowValue(h1 + [e] + h2, now, days) == WindowValue(h1 + h2, now, days)
  {
    var since := now - days * MsPerDay;
    FilteredAppend(h1 + [e], h2, since);
    FilteredSnoc(h1, e, since);
    FilteredAppend(h1, h2, since);
    assert Filtered(h1, since) + [] == Filtered(h1, since);
  }

  /** The entries counted by a window are among those counted by any longer window. */
  lemma {:induction false} WindowsNest(h: seq<HistoryEntry>, now: int, d1: nat, d2: nat)
    requires 0 < d1 <= d2
    ensures multiset(Filtered(h, now - d1 * MsPerDay)) <= multiset(Filtered(h, now - d2 * MsPerDay))
  {
    if |h| > 0 {
      var init, last := h[..|h| - 1], h[|h| - 1];
      var s1, s2 := now - d1 * MsPerDay, now - d2 * MsPerDay;
      WindowsNest(init, now, d1, d2);
      assert s2 <= s1;
      SnocSplit([], h);
      FilteredSnoc(init, last, s1);
      FilteredSnoc(init, last, s2);
    }
  }

  /** A window in which no entry counts is exactly 0 (not NaN), unlike a failed fetch. */
  lemma {:induction false} EmptyWindowIsZero(h: seq<HistoryEntry>, now: int, days: nat)
    requires days > 0
    requires forall i :: 0 <= i < |h| ==> !Counted(h[i], now - days * MsPerDay)
    ensures WindowValue(h, now, days) == Finite(0.0)
  {
    FilteredNone(h, now - days * MsPerDay);
  }

  lemma {:induction false} FilteredNone(h: seq<HistoryEntry>, since: int)
    requires forall i :: 0 <= i < |h| ==> !Counted(h[i], since)
    ensures Filtered(h, since) == []
  {
    if |h| > 0 {
      FilteredNone(h[..|h| - 1], since);
    }
  }

  /** Four entries 0.5, 1.5, 4 and 6 days before `now`, with rates 0.0001 to 0.0004. */
  function ExampleHistory(now: int): seq<HistoryEntry>
  {
    [HistoryEntry(Some(now - MsPerDay / 2), Some(0.0001)),
     HistoryEntry(Some(now - 3 * MsPerDay / 2), Some(0.0002)),
     HistoryEntry(Some(now - 4 * MsPerDay), Some(0.0003)),
     HistoryEntry(Some(now - 6 * MsPerDay), Some(0.0004))]
  }

  /** The sum over the first `n` entries of the example, and the window it falls in. */
  lemma {:induction false} ExamplePrefix(now: int, days: nat, n: nat)
    requires days > 0 && n <= 4
    requires forall k :: 0 <= k < 4 ==> (Counted(ExampleHistory(now)[k], now - days * MsPerDay) <==> k < n)
    ensures Filtered(ExampleHistory(now), now - days * MsPerDay) == ExampleHistory(now)[..n]
  {
    FilteredLeading(ExampleHistory(now), now - days * MsPerDay, n);
  }

  /** When exactly the first `n` entries count, the filter keeps exactly those. */
  lemma {:induction false} FilteredLeading(h: seq<HistoryEntry>, since: int, n: nat)
    requires n <= |h|
    requires forall k :: 0 <= k < |h| ==> (Counted(h[k], since) <==> k < n)
    ensures Filtered(h, since) == h[..n]
  {
    if |h| > 0 {
      var init := h[..|h| - 1];
      assert h == init + [h[|h| - 1]];
      FilteredSnoc(init, h[|h| - 1], since);
      if n == |h| {
        FilteredLeading(init, since, n - 1);
        assert init[..n - 1] + [h[|h| - 1]] == h[..n];
      } else {
        FilteredLeading(init, since, n);
        assert init[..n] == h[..n];
      }
    }
  }

  /** The running sums of the example's rates. */
  lemma {:induction false} ExampleTotals(now: int)
    ensures var h := ExampleHistory(now);
      Total(h[..1]) == Finite(0.0001) && Total(h[..2]) == Finite(0.0003)
      && Total(h[..3]) == Finite(0.0006) && Total(h[..4]) == Finite(0.001)
  {
    var h := ExampleHistory(now);
    assert Total(h[..1]) == Finite(0.0001) by {
      assert h[..1] == [] + [h[0]];
      TotalSnoc([], h[0]);
    }
    assert Total(h[..2]) == Finite(0.0003) by {
      assert h[..2] == h[..1] + [h[1]];
      TotalSnoc(h[..1], h[1]);
    }
    assert Total(h[..3]) == Finite(0.0006) by {
      assert h[..3] == h[..2] + [h[2]];
      TotalSnoc(h[..2], h[2]);
    }
    assert Total(h[..4]) == Finite(0.001) by {
      assert h[..4] == h[..3] + [h[3]];
      TotalSnoc(h[..3], h[3]);
    }
  }

  /** Windows of the example: 1 day gives 0.0001, 2 days 0.00015, 3 days 0.0001. */
  lemma {:induction false} WindowExampleShort(now: int)
    ensures WindowValue(ExampleHistory(now), now, 1) == Finite(0.0001)
    ensures WindowValue(ExampleHistory(now), now, 2) == Finite(0.00015)
    ensures WindowValue(ExampleHistory(now), now, 3) == Finite(0.0001)
  {
    ExamplePrefix(now, 1, 1);
    ExamplePrefix(now, 2, 2);
    ExamplePrefix(now, 3, 2);
    ExampleTotals(now);
  }

  /** Windows of the example: 5 days gives 0.00012, 7 days 0.001 / 7. */
  lemma {:induction false} WindowExampleLong(now: int)
    ensures WindowValue(ExampleHistory(now), now, 5) == Finite(0.00012)
    ensures WindowValue(ExampleHistory(now), now, 7) == Finite(0.001 / 7.0)
  {
    ExamplePrefix(now, 5, 3);
    ExamplePrefix(now, 7, 4);
    ExampleTotals(now);
  }

  lemma {:induction false} FilteredAll(h: seq<HistoryEntry>, since: int)
    requires forall i :: 0 <= i < |h| ==> Counted(h[i], since)
    ensures Filtered(h, since) == h
  {
    if |h| > 0 {
      FilteredAll(h[..|h| - 1], since);
    }
  }

  lemma {:induction false} FilteredSnoc(h: seq<HistoryEntry>, e: HistoryEntry, since: int)
    ensures Filtered(h + [e], since) == Filtered(h, since) + (if Counted(e, since) then [e] else [])
  {
    assert (h + [e])[..|h|] == h;
  }

  lemma {:induction false} TotalSnoc(s: seq<HistoryEntry>, e: HistoryEntry)
    ensures Total(s + [e]) == Plus(Total(s), RateNumber(e.fundingRate))
  {
    assert (s + [e])[..|s|] == s;
  }

  /** `getFuturesSymbols`: the symbols of the contract markets, in listing order; none at
      all when loading the markets fails. */
  function FuturesSymbols(markets: Fetch<seq<Market>>): (r: seq<string>)
    ensures markets.Throws? ==> r == []
    ensures markets.Returns? ==> forall s :: s in r <==> exists m :: m in markets.value && m.contract && m.symbol == s
  {
    if markets.Throws? then [] else ContractSymbols(markets.value)
  }

  function ContractSymbols(ms: seq<Market>): (r: seq<string>)
    ensures forall s :: s in r <==> exists m :: m in ms && m.contract && m.symbol == s
  {
    if |ms| == 0 then []
    else
      var init, last := ms[..|ms| - 1], ms[|ms| - 1];
      assert ms == init + [last];
      var rest := ContractSymbols(init);
      if last.contract then rest + [last.symbol] else rest
  }

  /** The history rows of one exchange: one per contract symbol, in listing order,
      labelled with the exchange; a symbol whose history fetch fails keeps its row, with
      every window NaN. */
  function ExchangeRows(exchange: string, markets: Fetch<seq<Market>>, history: string -> HistoryCall): (rows: seq<HistRow>)
    ensures |rows| == |FuturesSymbols(markets)|
    ensures forall i :: 0 <= i < |rows| ==>
      rows[i].exchange == exchange && rows[i].symbol == FuturesSymbols(markets)[i]
      && rows[i].windows.Keys == set d | d in Periods
    ensures forall i, d :: 0 <= i < |rows| && d in rows[i].windows && history(rows[i].symbol).answer.Throws? ==>
      rows[i].windows[d] == NaN
    ensures forall i, d :: 0 <= i < |rows| && d in rows[i].windows && history(rows[i].symbol).answer.Returns? ==>
      d > 0 && rows[i].windows[d] == WindowValue(history(rows[i].symbol).answer.value, history(rows[i].symbol).now, d)
  {
    var symbols := FuturesSymbols(markets);
    seq(|symbols|, i requires 0 <= i < |symbols| => HistRow(exchange, symbols[i], Averages(history(symbols[i]))))
  }

  /** `processExchangeFunding`: the symbols, then their averages one symbol at a time. */
  method ProcessExchangeFunding(exchange: string, markets: Fetch<seq<Market>>, history: string -> HistoryCall)
    returns (rows: seq<HistRow>)
    ensures rows == ExchangeRows(exchange, markets, history)
  {
    var symbols := FuturesSymbols(markets);
    rows := [];
    for i := 0 to |symbols|
      invariant |rows| == i
      invariant forall j :: 0 <= j < i ==> rows[j] == HistRow(exchange, symbols[j], Averages(history(symbols[j])))
    {
      var call := history(symbols[i]);
      var averages := CalculateAverages(call);
      assert averages == Averages(call);
      rows := rows + [HistRow(exchange, symbols[i], averages)];
    }
  }
}
