/** The snapshot collector of src/fetchFunding.ts: for every configured exchange, fetch the
    current funding rates (the bulk call when the exchange offers it, otherwise one call
    per derivative market), retrying a failed exchange once, and write the
    exchange-by-symbol table unless nothing at all was collected. */
module Collector {
  import opened Common
  import opened Text
  import opened Adapter
  import Matrix

  /** `o?.symbol && o.fundingRate != null`: a present element with a non-empty symbol and a
      present rate. */
  predicate Qualifies(o: Item)
  {
    o.Item? && o.symbol.Some? && o.symbol.value != "" && o.fundingRate.Some?
  }

  /** The entry a qualifying element becomes. */
  function Entry(id: string, o: Item): FundingEntry
    requires Qualifies(o)
  {
    FundingEntry(id, o.symbol.value, o.fundingRate.value)
  }

  /** The bulk path: the qualifying elements of the bulk answer, in order, tagged with the
      exchange id. */
  function BulkEntries(id: string, items: seq<Item>): (out: seq<FundingEntry>)
    ensures |out| <= |items|
    ensures forall e :: e in out ==> e.exchange == id && e.symbol != ""
    ensures forall i :: 0 <= i < |items| && Qualifies(items[i]) ==> Entry(id, items[i]) in out
  {
    if |items| == 0 then []
    else
      var init, o := items[..|items| - 1], items[|items| - 1];
      var out := BulkEntries(id, init) + (if Qualifies(o) then [Entry(id, o)] else []);
      assert forall i :: 0 <= i < |init| ==> items[i] == init[i];
      out
  }

  /** Every bulk entry comes from a qualifying element. */
  lemma {:induction false} BulkEntriesSound(id: string, items: seq<Item>, e: FundingEntry)
    requires e in BulkEntries(id, items)
    ensures exists i :: 0 <= i < |items| && Qualifies(items[i]) && Entry(id, items[i]) == e
  {
    var init, o := items[..|items| - 1], items[|items| - 1];
    if e in BulkEntries(id, init) {
      BulkEntriesSound(id, init, e);
      var i :| 0 <= i < |init| && Qualifies(init[i]) && Entry(id, init[i]) == e;
      assert items[i] == init[i];
    } else {
      assert Qualifies(o) && Entry(id, o) == e;
    }
  }

  /** `!m.contract && !m.future` markets are skipped by the per-market path. */
  predicate Derivative(m: Market)
  {
    m.contract || m.future
  }

  /** What one market adds on the per-market path: its rate when it is a derivative, its
      `fetchFundingRate` returns, and the answer carries a rate; nothing otherwise (a
      failing call is swallowed). The entry carries the market's own symbol. */
  function MarketEntry(id: string, m: Market): seq<FundingEntry>
  {
    if Yields(m) then [MarketFunding(id, m)] else []
  }

  /** A market the per-market path takes a rate from: a derivative whose `fetchFundingRate`
      returns an answer with a rate. */
  predicate Yields(m: Market)
  {
    Derivative(m) && m.rate.Returns? && m.rate.value.Item? && m.rate.value.fundingRate.Some?
  }

  /** The entry of such a market: the exchange id, the market's symbol and the rate. */
  function MarketFunding(id: string, m: Market): FundingEntry
    requires Yields(m)
  {
    FundingEntry(id, m.symbol, m.rate.value.fundingRate.value)
  }

  /** The per-market path over the markets in `ex.symbols` order. */
  function FallbackEntries(id: string, markets: seq<Market>): (out: seq<FundingEntry>)
    ensures |out| <= |markets|
    ensures forall e :: e in out ==> e.exchange == id
    ensures forall i :: 0 <= i < |markets| && Yields(markets[i]) ==> MarketFunding(id, markets[i]) in out
  {
    if |markets| == 0 then []
    else
      var init := markets[..|markets| - 1];
      assert forall i :: 0 <= i < |init| ==> markets[i] == init[i];
      FallbackEntries(id, init) + MarketEntry(id, markets[|markets| - 1])
  }

  /** Every per-market entry comes from a market that yields it. */
  lemma {:induction false} FallbackEntriesSound(id: string, markets: seq<Market>, e: FundingEntry)
    requires e in FallbackEntries(id, markets)
    ensures exists i :: 0 <= i < |markets| && Yields(markets[i]) && MarketFunding(id, markets[i]) == e
  {
    var init, m := markets[..|markets| - 1], markets[|markets| - 1];
    if e in FallbackEntries(id, init) {
      FallbackEntriesSound(id, init, e);
      var i :| 0 <= i < |init| && Yields(init[i]) && MarketFunding(id, init[i]) == e;
      assert markets[i] == init[i];
    } else {
      assert Yields(m) && MarketFunding(id, m) == e;
    }
  }

  /** The symbols the per-market path calls `fetchFundingRate` for: the derivative markets. */
  function FallbackCalls(markets: seq<Market>): (calls: seq<string>)
    ensures |calls| <= |markets|
    ensures forall s :: s in calls <==> exists i :: 0 <= i < |markets| && Derivative(markets[i]) && markets[i].symbol == s
  {
    if |markets| == 0 then []
    else
      var init, m := markets[..|markets| - 1], markets[|markets| - 1];
      assert forall i :: 0 <= i < |init| ==> markets[i] == init[i];
      FallbackCalls(init) + (if Derivative(m) then [m.symbol] else [])
  }

  /** The per-market path is market by market: the entries of a list of markets are those
      of its parts, in order. */
  lemma {:induction false} FallbackConcat(id: string, a: seq<Market>, b: seq<Market>)
    ensures FallbackEntries(id, a + b) == FallbackEntries(id, a) + FallbackEntries(id, b)
    decreases |b|
  {
    if |b| == 0 {
      assert a + b == a;
    } else {
      var init := b[..|b| - 1];
      assert (a + b)[..|a + b| - 1] == a + init;
      FallbackConcat(id, a, init);
    }
  }

  /** One market's failure, or its not being a derivative, takes nothing away from the
      entries of the markets around it. */
  lemma {:induction false} FallbackIsolation(id: string, pre: seq<Market>, m: Market, post: seq<Market>)
    requires !Derivative(m) || m.rate.Throws?
    ensures FallbackEntries(id, pre + [m] + post) == FallbackEntries(id, pre) + FallbackEntries(id, post)
  {
    assert (pre + [m])[..|pre|] == pre;
    assert FallbackEntries(id, pre + [m]) == FallbackEntries(id, pre);
    FallbackConcat(id, pre + [m], post);
  }

  /** What one call of `fetchExchangeFundingRates(id)` settles to: it throws when the
      library has no such exchange or `loadMarkets` fails; it returns the bulk entries when
      the bulk call is offered and succeeds; otherwise the per-market entries. */
  function Fetched(id: string, ex: Exchange): Fetch<seq<FundingEntry>>
  {
    if ex.Unknown? || ex.markets.Throws? then Throws
    else if ex.hasBulk && ex.bulk.Returns? then Returns(BulkEntries(id, ex.bulk.value))
    else Returns(FallbackEntries(id, ex.markets.value))
  }

  /** The per-market calls that one call of `fetchExchangeFundingRates` makes. */
  function PerMarketCalls(ex: Exchange): seq<string>
  {
    if ex.Unknown? || ex.markets.Throws? || (ex.hasBulk && ex.bulk.Returns?) then []
    else FallbackCalls(ex.markets.value)
  }

  /** `fetchExchangeFundingRates`: the bulk loop, and when the bulk call is not offered or
      throws, the per-market loop. */
  method FetchExchangeFundingRates(id: string, ex: Exchange) returns (r: Fetch<seq<FundingEntry>>, calls: seq<string>)
    ensures r == Fetched(id, ex)
    ensures calls == PerMarketCalls(ex)
    ensures ex.Exchange? && ex.markets.Returns? && ex.hasBulk && ex.bulk.Returns? ==> calls == []
  {
    calls := [];
    if ex.Unknown? || ex.markets.Throws? {
      return Throws, calls;
    }
    var out: seq<FundingEntry> := [];
    if ex.hasBulk && ex.bulk.Returns? {
      var items := ex.bulk.value;
      for i := 0 to |items|
        invariant out == BulkEntries(id, items[..i])
      {
        assert items[..i + 1][..i] == items[..i];
        if Qualifies(items[i]) {
          out := out + [Entry(id, items[i])];
        }
      }
      assert items[..|items|] == items;
      return Returns(out), calls;
    }
    var markets := ex.markets.value;
    for i := 0 to |markets|
      invariant out == FallbackEntries(id, markets[..i])
      invariant calls == FallbackCalls(markets[..i])
    {
      assert markets[..i + 1][..i] == markets[..i];
      var m := markets[i];
      if !Derivative(m) {
        continue;
      }
      calls := calls + [m.symbol];
      if m.rate.Returns? && m.rate.value.Item? && m.rate.value.fundingRate.Some? {
        out := out + [FundingEntry(id, m.symbol, m.rate.value.fundingRate.value)];
      }
    }
    assert markets[..|markets|] == markets;
    r := Returns(out);
  }

  /** What the library answers on the `attempt`-th construction of exchange `id`. */
  type Network = (string, nat) -> Exchange

  /** What one configured exchange adds to the snapshot: the entries of the first of at
      most two attempts that returns, nothing when both throw. */
  function Contribution(id: string, net: Network): seq<FundingEntry>
  {
    match Fetched(id, net(id, 1))
    case Returns(list) => list
    case Throws =>
      match Fetched(id, net(id, 2))
      case Returns(list) => list
      case Throws => []
  }

  /** The attempts made for one exchange: one when the first returns, two otherwise. */
  function Attempts(id: string, net: Network): (n: nat)
    ensures 1 <= n <= 2 && (n == 1 <==> Fetched(id, net(id, 1)).Returns?)
  {
    if Fetched(id, net(id, 1)).Returns? then 1 else 2
  }

  /** Everything collected, exchange by exchange in configuration order. */
  function Collected(ids: seq<string>, net: Network): seq<FundingEntry>
  {
    if |ids| == 0 then []
    else Collected(ids[..|ids| - 1], net) + Contribution(ids[|ids| - 1], net)
  }

  lemma {:induction false} CollectedSnoc(ids: seq<string>, id: string, net: Network)
    ensures Collected(ids + [id], net) == Collected(ids, net) + Contribution(id, net)
  {
    assert (ids + [id])[..|ids|] == ids;
  }

  lemma {:induction false} CollectedStep(ids: seq<string>, k: nat, net: Network)
    requires k < |ids|
    ensures Collected(ids[..k + 1], net) == Collected(ids[..k], net) + Contribution(ids[k], net)
  {
    assert ids[..k + 1] == ids[..k] + [ids[k]];
    CollectedSnoc(ids[..k], ids[k], net);
  }

  /** The snapshot is exchange by exchange: what a list of exchanges collects is what its
      parts collect, in order. */
  lemma {:induction false} CollectedConcat(a: seq<string>, b: seq<string>, net: Network)
    ensures Collected(a + b, net) == Collected(a, net) + Collected(b, net)
    decreases |b|
  {
    if |b| == 0 {
      assert a + b == a;
    } else {
      var init, last := b[..|b| - 1], b[|b| - 1];
      CollectedConcat(a, init, net);
      SnocSplit(a, b);
      CollectedSnoc(a + init, last, net);
      CollectedSnoc(init, last, net);
      AppendAssoc(Collected(a, net), Collected(init, net), Contribution(last, net));
    }
  }

  /** An exchange that fails both attempts contributes nothing, and the exchanges around it
      contribute what they would have without it. */
  lemma {:induction false} OutageContributesNothing(pre: seq<string>, id: string, post: seq<string>, net: Network)
    requires Fetched(id, net(id, 1)).Throws? && Fetched(id, net(id, 2)).Throws?
    ensures Collected(pre + [id] + post, net) == Collected(pre, net) + Collected(post, net)
  {
    CollectedSnoc(pre, id, net);
    var before := Collected(pre, net);
    assert Collected(pre + [id], net) == before + [];
    assert before + [] == before;
    CollectedConcat(pre + [id], post, net);
  }

  /** The text `updateData` writes, or `None` when nothing was collected and it returns
      without writing. */
  function Snapshot(ids: seq<string>, net: Network): Option<string>
  {
    var all := Collected(ids, net);
    if |all| == 0 then None else Some(Join(Matrix.MatrixLines(ids, all), '\n'))
  }

  /** The retry loop of `updateData` for one exchange: at most two attempts, stopping at
      the first that returns. */
  method FetchWithRetry(id: string, net: Network) returns (list: seq<FundingEntry>, tries: nat)
    ensures list == Contribution(id, net)
    ensures tries == Attempts(id, net)
    ensures 1 <= tries <= 2
  {
    list := [];
    var success := false;
    var attempt := 1;
    while attempt <= 2
      invariant 1 <= attempt <= 3
      invariant !success && list == []
      invariant attempt > 1 ==> Fetched(id, net(id, 1)).Throws?
      invariant attempt > 2 ==> Fetched(id, net(id, 2)).Throws?
    {
      var r, _ := FetchExchangeFundingRates(id, net(id, attempt));
      if r.Returns? {
        list := r.value;
        success := true;
        break;
      }
      attempt := attempt + 1;
    }
    tries := if success then attempt else 2;
  }

  /** The attempt counts of the exchanges, in configuration order. */
  function AttemptCounts(ids: seq<string>, net: Network): seq<nat>
  {
    if |ids| == 0 then [] else AttemptCounts(ids[..|ids| - 1], net) + [Attempts(ids[|ids| - 1], net)]
  }

  lemma {:induction false} AttemptCountsStep(ids: seq<string>, k: nat, net: Network)
    requires k < |ids|
    ensures AttemptCounts(ids[..k + 1], net) == AttemptCounts(ids[..k], net) + [Attempts(ids[k], net)]
  {
    assert ids[..k + 1][..k] == ids[..k];
  }

  /** One count per exchange, each the attempts made for it. */
  lemma {:induction false} AttemptCountsMeaning(ids: seq<string>, net: Network)
    ensures |AttemptCounts(ids, net)| == |ids|
    ensures forall i :: 0 <= i < |ids| ==> AttemptCounts(ids, net)[i] == Attempts(ids[i], net)
  {
    if |ids| > 0 {
      var init := ids[..|ids| - 1];
      AttemptCountsMeaning(init, net);
      assert forall i :: 0 <= i < |init| ==> ids[i] == init[i];
    }
  }

  /** The exchange loop of `updateData`: every configured exchange in order, each with its
      retry, appending what it returns. */
  method CollectAll(ids: seq<string>, net: Network) returns (all: seq<FundingEntry>, tries: seq<nat>)
    ensures all == Collected(ids, net)
    ensures |tries| == |ids|
    ensures forall i :: 0 <= i < |ids| ==> tries[i] == Attempts(ids[i], net)
  {
    all := [];
    tries := [];
    for k := 0 to |ids|
      invariant all == Collected(ids[..k], net)
      invariant tries == AttemptCounts(ids[..k], net)
    {
      var list, n := FetchWithRetry(ids[k], net);
      CollectedStep(ids, k, net);
      AttemptCountsStep(ids, k, net);
      all := all + list;
      tries := tries + [n];
    }
    assert ids[..|ids|] == ids;
    AttemptCountsMeaning(ids, net);
  }

  /** `updateData`: collect, skip the write when nothing was collected, otherwise build
      the table and join its lines. */
  method UpdateData(ids: seq<string>, net: Network) returns (content: Option<string>)
    ensures content == Snapshot(ids, net)
    ensures content.None? <==> |Collected(ids, net)| == 0
  {
    var all, _ := CollectAll(ids, net);
    if |all| == 0 {
      return None;
    }
    var lines := Matrix.BuildMatrix(ids, all);
    content := Some(Join(lines, '\n'));
  }
}
