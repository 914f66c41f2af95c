/** The collector of the original server (index.js): the same bulk-then-per-market fetch,
    but an unknown exchange id yields no entries instead of an error, an element of the
    bulk answer that is `null` makes the bulk loop throw part-way, there is no retry, a
    failing `loadMarkets` aborts the whole update, and the table is written even when
    nothing was collected. */
module Legacy {
  import opened Common
  import opened Text
  import opened Adapter
  import Collector
  import Matrix

  /** The position of the first `null` element of a bulk answer, its length when there is none. */
  function FirstNull(items: seq<Item>): (k: nat)
    ensures k <= |items|
    ensures forall i :: 0 <= i < k ==> items[i].Item?
    ensures k < |items| ==> items[k].NullItem?
  {
    if |items| == 0 then 0
    else if items[0].NullItem? then 0
    else
      var k := FirstNull(items[1..]);
      assert forall i :: 1 <= i < |items| ==> items[i] == items[1..][i - 1];
      k + 1
  }

  /** What one call of index.js's `fetchExchangeFundingRates(id)` settles to. An unknown
      id returns no entries; a failing `loadMarkets` throws. On the bulk path, reading
      `o.symbol` of a `null` element throws inside the bulk `try`: the entries pushed
      before it are kept and the per-market entries are appended after them. */
  function LegacyFetched(id: string, ex: Exchange): Fetch<seq<FundingEntry>>
  {
    if ex.Unknown? then Returns([])
    else if ex.markets.Throws? then Throws
    else if ex.hasBulk && ex.bulk.Returns? && FirstNull(ex.bulk.value) == |ex.bulk.value| then
      Returns(Collector.BulkEntries(id, ex.bulk.value))
    else if ex.hasBulk && ex.bulk.Returns? then
      var items := ex.bulk.value;
      Returns(Collector.BulkEntries(id, items[..FirstNull(items)]) + Collector.FallbackEntries(id, ex.markets.value))
    else Returns(Collector.FallbackEntries(id, ex.markets.value))
  }

  /** The per-market calls one call of index.js's `fetchExchangeFundingRates` makes. */
  function LegacyCalls(ex: Exchange): seq<string>
  {
    if ex.Unknown? || ex.markets.Throws? then []
    else if ex.hasBulk && ex.bulk.Returns? && FirstNull(ex.bulk.value) == |ex.bulk.value| then []
    else Collector.FallbackCalls(ex.markets.value)
  }

  /** The two collectors agree on every known exchange whose bulk answer holds no `null`;
      they differ on an unknown id, which throws in src/fetchFunding.ts and yields no
      entries here. */
  lemma {:induction false} AgreesWithCollector(id: string, ex: Exchange)
    ensures ex.Unknown? ==> LegacyFetched(id, ex) == Returns([]) && Collector.Fetched(id, ex) == Throws
    ensures ex.Exchange? && (!ex.hasBulk || ex.bulk.Throws? || NullItem !in ex.bulk.value) ==>
      LegacyFetched(id, ex) == Collector.Fetched(id, ex) && LegacyCalls(ex) == Collector.PerMarketCalls(ex)
  {
  }

  /** index.js's `fetchExchangeFundingRates`: the bulk loop, which stops with a throw at
      the first `null` element, then the per-market loop when the bulk call is not offered
      or threw. */
  method FetchExchangeFundingRates(id: string, ex: Exchange) returns (r: Fetch<seq<FundingEntry>>, calls: seq<string>)
    ensures r == LegacyFetched(id, ex)
    ensures calls == LegacyCalls(ex)
  {
    calls := [];
    if ex.Unknown? {
      return Returns([]), calls;
    }
    if ex.markets.Throws? {
      return Throws, calls;
    }
    var entries: seq<FundingEntry> := [];
    if ex.hasBulk && ex.bulk.Returns? {
      var items := ex.bulk.value;
      var threw := false;
      var i := 0;
      while i < |items|
        invariant 0 <= i <= FirstNull(items)
        invariant entries == Collector.BulkEntries(id, items[..i])
        invariant threw ==> i == FirstNull(items) < |items|
      {
        if items[i].NullItem? {
          threw := true;
          break;
        }
        assert items[..i + 1][..i] == items[..i];
        if Collector.Qualifies(items[i]) {
          entries := entries + [Collector.Entry(id, items[i])];
        }
        i := i + 1;
      }
      if !threw {
        assert items[..|items|] == items;
        return Returns(entries), calls;
      }
      assert entries == Collector.BulkEntries(id, items[..FirstNull(items)]);
    } else {
      assert entries == [];
    }
    var markets := ex.markets.value;
    var fallback: seq<FundingEntry> := [];
    for i := 0 to |markets|
      invariant fallback == Collector.FallbackEntries(id, markets[..i])
      invariant calls == Collector.FallbackCalls(markets[..i])
    {
      assert markets[..i + 1][..i] == markets[..i];
      var m := markets[i];
      if !Collector.Derivative(m) {
        continue;
      }
      calls := calls + [m.symbol];
      if m.rate.Returns? && m.rate.value.Item? && m.rate.value.fundingRate.Some? {
        fallback := fallback + [FundingEntry(id, m.symbol, m.rate.value.fundingRate.value)];
      }
    }
    assert markets[..|markets|] == markets;
    assert entries == [] ==> entries + fallback == fallback;
    r := Returns(entries + fallback);
  }

  /** What the library answers to the construction of exchange `id`. */
  type Network = string -> Exchange

  /** The entries of `updateCsv`'s exchange loop, or `Throws` when a fetch rejects and the
      update is abandoned. */
  function LegacyCollect(ids: seq<string>, net: Network): Fetch<seq<FundingEntry>>
  {
    if |ids| == 0 then Returns([])
    else
      match LegacyCollect(ids[..|ids| - 1], net)
      case Throws => Throws
      case Returns(all) =>
        match LegacyFetched(ids[|ids| - 1], net(ids[|ids| - 1]))
        case Throws => Throws
        case Returns(list) => Returns(all + list)
  }

  lemma {:induction false} LegacyCollectStep(ids: seq<string>, k: nat, net: Network)
    requires k < |ids|
    ensures LegacyCollect(ids[..k + 1], net) ==
      match LegacyCollect(ids[..k], net)
      case Throws => Throws
      case Returns(all) =>
        match LegacyFetched(ids[k], net(ids[k]))
        case Throws => Throws
        case Returns(list) => Returns(all + list)
  {
    assert ids[..k + 1][..k] == ids[..k];
  }

  /** The update is abandoned exactly when some exchange's `loadMarkets` fails. */
  lemma {:induction false} AbortIff(ids: seq<string>, net: Network)
    ensures LegacyCollect(ids, net).Throws? <==>
      exists i :: 0 <= i < |ids| && net(ids[i]).Exchange? && net(ids[i]).markets.Throws?
  {
    if |ids| > 0 {
      var init := ids[..|ids| - 1];
      AbortIff(init, net);
      assert forall i :: 0 <= i < |init| ==> init[i] == ids[i];
    }
  }

  /** The text `updateCsv` writes, or `None` when it is abandoned and nothing is written. */
  function LegacyCsv(ids: seq<string>, net: Network): Option<string>
  {
    match LegacyCollect(ids, net)
    case Throws => None
    case Returns(all) => Some(Join(Matrix.MatrixLines(ids, all), '\n'))
  }

  /** With no exchange known to the library nothing is collected, and the header line is
      still written. */
  lemma {:induction false} EmptyTableWritten(ids: seq<string>, net: Network)
    requires forall i :: 0 <= i < |ids| ==> net(ids[i]).Unknown?
    ensures LegacyCsv(ids, net) == Some(Matrix.Header(ids))
  {
    NothingCollected(ids, net);
    assert Matrix.RowSymbols([]) == [];
  }

  lemma {:induction false} NothingCollected(ids: seq<string>, net: Network)
    requires forall i :: 0 <= i < |ids| ==> net(ids[i]).Unknown?
    ensures LegacyCollect(ids, net) == Returns([])
  {
    if |ids| > 0 {
      var init := ids[..|ids| - 1];
      assert forall i :: 0 <= i < |init| ==> init[i] == ids[i];
      NothingCollected(init, net);
      assert net(ids[|ids| - 1]).Unknown?;
      assert LegacyFetched(ids[|ids| - 1], net(ids[|ids| - 1])) == Returns([]);
      var none: seq<FundingEntry> := [];
      assert none + none == none;
    }
  }

  /** `updateCsv`: every exchange fetched once, in configuration order, until a fetch
      rejects; then the table. `fetched` is how many exchanges were asked. */
  method UpdateCsv(ids: seq<string>, net: Network) returns (content: Option<string>, fetched: nat)
    ensures content == LegacyCsv(ids, net)
    ensures content.Some? ==> fetched == |ids|
    ensures content.None? ==> (1 <= fetched <= |ids|
      && LegacyFetched(ids[fetched - 1], net(ids[fetched - 1])).Throws?
      && forall i :: 0 <= i < fetched - 1 ==> LegacyFetched(ids[i], net(ids[i])).Returns?)
  {
    var all: seq<FundingEntry> := [];
    for k := 0 to |ids|
      invariant LegacyCollect(ids[..k], net) == Returns(all)
      invariant forall i :: 0 <= i < k ==> LegacyFetched(ids[i], net(ids[i])).Returns?
    {
      LegacyCollectStep(ids, k, net);
      var rates, _ := FetchExchangeFundingRates(ids[k], net(ids[k]));
      if rates.Throws? {
        assert LegacyCollect(ids, net) == Throws by {
          AbortIff(ids[..k + 1], net);
          AbortIff(ids, net);
          var i :| 0 <= i < k + 1 && net(ids[..k + 1][i]).Exchange? && net(ids[..k + 1][i]).markets.Throws?;
          assert ids[..k + 1][i] == ids[i];
        }
        return None, k + 1;
      }
      all := all + rates.value;
    }
    assert ids[..|ids|] == ids;
    var lines := Matrix.BuildMatrix(ids, all);
    content := Some(Join(lines, '\n'));
    fetched := |ids|;
  }
}
