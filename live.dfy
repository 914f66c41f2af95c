/** The live half of the combined table: the current funding rate of every contract, as
    each exchange reports it, formatted for the CSV (src/combinedFunding.ts). */
module Live {
  import opened Common
  import Decimal

  /** One record of `fetchFundingRates`, after its raw `info` payload is dropped (nothing of
      it is ever printed). A `None` rate or price is `undefined`, `null` or NaN; a `None`
      timestamp is `undefined`, `null` or NaN. */
  datatype RawRate = RawRate(
    symbol: Option<string>,
    timestamp: Option<int>,
    fundingRate: Option<real>,
    markPrice: Option<real>,
    interval: Option<string>)

  /** One record of `fetchFundingIntervals`. */
  datatype IntervalInfo = IntervalInfo(symbol: Option<string>, interval: Option<string>)

  /** Whether the fetcher of an exchange asks for funding intervals (only Binance's does,
      and only when the exchange offers them), and what that call answers. */
  datatype IntervalSupport = NoIntervals | Intervals(answer: Fetch<seq<IntervalInfo>>)

  /** An exchange as the live fetchers see it: its id, whether it offers
      `fetchFundingRates`, what that call answers, and the interval lookup. */
  datatype LiveSource = LiveSource(
    id: string,
    hasFundingRates: bool,
    rates: Fetch<seq<RawRate>>,
    intervals: IntervalSupport)

  /** A record tagged with the id of the exchange that reported it. */
  datatype Tagged = Tagged(exchange: string, rate: RawRate)

  /** The CSV record `FundingRateData`: six strings. */
  datatype LiveRow = LiveRow(
    exchange: string,
    symbol: string,
    datetime: string,
    fundingRate: string,
    interval: string,
    markPrice: string)

  /** `fundingIntervals.find(i => i.symbol === symbol)`. */
  function FindInterval(infos: seq<IntervalInfo>, symbol: Option<string>): (r: Option<IntervalInfo>)
    ensures r.None? <==> forall i :: 0 <= i < |infos| ==> infos[i].symbol != symbol
    ensures r.Some? ==> exists i :: (0 <= i < |infos| && infos[i] == r.value && infos[i].symbol == symbol
      && forall j :: 0 <= j < i ==> infos[j].symbol != symbol)
  {
    if |infos| == 0 then None
    else if infos[0].symbol == symbol then Some(infos[0])
    else
      var r := FindInterval(infos[1..], symbol);
      assert forall i :: 1 <= i < |infos| ==> infos[i] == infos[1..][i - 1];
      r
  }

  /** `intervalData?.interval ?? "8h"`: the interval of the first matching record, and
      "8h" when there is none or it has no interval. */
  function IntervalFor(infos: seq<IntervalInfo>, symbol: Option<string>): string
  {
    var found := FindInterval(infos, symbol);
    if found.Some? && found.value.interval.Some? then found.value.interval.value else "8h"
  }

  function Tag(id: string, rates: seq<RawRate>): (r: seq<Tagged>)
    ensures |r| == |rates|
    ensures forall i :: 0 <= i < |r| ==> r[i] == Tagged(id, rates[i])
  {
    seq(|rates|, i requires 0 <= i < |rates| => Tagged(id, rates[i]))
  }

  /** `fetch{Binance,Bybit,Hyperliquid}FundingRatesCurrent`: the exchange's records tagged
      with its id, the interval replaced by the looked-up one where intervals are asked
      for; nothing at all when the exchange does not offer funding rates or when either
      call throws. */
  function LiveFetch(src: LiveSource): (r: seq<Tagged>)
  {
    if !src.hasFundingRates || src.rates.Throws? then []
    else
      match src.intervals
      case NoIntervals => Tag(src.id, src.rates.value)
      case Intervals(answer) =>
        if answer.Throws? then []
        else
          var rs := src.rates.value;
          Tag(src.id, seq(|rs|, i requires 0 <= i < |rs| => rs[i].(interval := Some(IntervalFor(answer.value, rs[i].symbol)))))
  }

  /** The shape of a live fetch: one record per reported rate, in order, each tagged with
      the exchange id and otherwise unchanged, except that with the interval lookup every
      record carries the interval of the first matching lookup record or "8h". */
  lemma {:induction false} LiveFetchShape(src: LiveSource)
    ensures var r := LiveFetch(src);
      var ok := src.hasFundingRates && src.rates.Returns? && !(src.intervals.Intervals? && src.intervals.answer.Throws?);
      (ok ==> |r| == |src.rates.value|)
      && (!ok ==> r == [])
      && forall i :: 0 <= i < |r| ==> (r[i].exchange == src.id
        && r[i].rate.(interval := src.rates.value[i].interval) == src.rates.value[i]
        && (src.intervals.Intervals? ==> r[i].rate.interval == Some(IntervalFor(src.intervals.answer.value, src.rates.value[i].symbol)))
        && (src.intervals.NoIntervals? ==> r[i].rate == src.rates.value[i]))
  {
  }

  /** A record whose symbol has no interval record gets the default of eight hours. */
  lemma {:induction false} DefaultInterval(infos: seq<IntervalInfo>, symbol: Option<string>)
    requires forall i :: 0 <= i < |infos| ==> infos[i].symbol != symbol
    ensures IntervalFor(infos, symbol) == "8h"
  {
  }

  /** The `processCurrentFundingRates` formatting of one record: the timestamp as local
      date text (`fmtDate`, `toLocaleString` in Asia/Shanghai) unless it is missing or 0;
      the rate in percent with four decimals; the interval unless missing or empty; the
      mark price with four decimals; each missing value as "". */
  function FormatLive(t: Tagged, fmtDate: int -> string): (row: LiveRow)
    ensures row.exchange == t.exchange
    ensures row.symbol == (if t.rate.symbol.Some? then t.rate.symbol.value else "")
    ensures row.datetime == (if t.rate.timestamp.None? || t.rate.timestamp.value == 0 then "" else fmtDate(t.rate.timestamp.value))
    ensures row.fundingRate == "" <==> t.rate.fundingRate.None?
    ensures row.markPrice == "" <==> t.rate.markPrice.None?
    ensures row.interval == "" <==> t.rate.interval.None? || t.rate.interval.value == ""
  {
    var r := t.rate;
    var datetime := if r.timestamp.None? || r.timestamp.value == 0 then "" else fmtDate(r.timestamp.value);
    var rate := if r.fundingRate.Some? then Some(r.fundingRate.value * 100.0) else None;
    LiveRow(
      t.exchange,
      if r.symbol.Some? then r.symbol.value else "",
      datetime,
      Decimal.Fixed(rate, 4),
      if r.interval.Some? then r.interval.value else "",
      Decimal.Fixed(r.markPrice, 4))
  }

  /** The rate reads back as the rate in percent and the mark price as the mark price,
      each rounded to four decimals. */
  lemma {:induction false} FormatLiveValues(t: Tagged, fmtDate: int -> string)
    ensures t.rate.fundingRate.Some? ==>
      Decimal.ParseDecimal(FormatLive(t, fmtDate).fundingRate) == Some(Decimal.Round(t.rate.fundingRate.value * 100.0, 4))
    ensures t.rate.markPrice.Some? ==>
      Decimal.ParseDecimal(FormatLive(t, fmtDate).markPrice) == Some(Decimal.Round(t.rate.markPrice.value, 4))
  {
    if t.rate.fundingRate.Some? {
      Decimal.FixedValue(Some(t.rate.fundingRate.value * 100.0), 4);
    }
    if t.rate.markPrice.Some? {
      Decimal.FixedValue(t.rate.markPrice, 4);
    }
  }

  /** All live records of all exchanges, in exchange order. */
  function AllLive(sources: seq<LiveSource>): (r: seq<Tagged>)
  {
    if |sources| == 0 then [] else AllLive(sources[..|sources| - 1]) + LiveFetch(sources[|sources| - 1])
  }

  /** `processCurrentFundingRates`: every exchange's live records, concatenated in
      exchange order and formatted one by one. */
  function CurrentRows(sources: seq<LiveSource>, fmtDate: int -> string): (rows: seq<LiveRow>)
  {
    var all := AllLive(sources);
    seq(|all|, i requires 0 <= i < |all| => FormatLive(all[i], fmtDate))
  }

  lemma {:induction false} AllLiveSnoc(sources: seq<LiveSource>, src: LiveSource)
    ensures AllLive(sources + [src]) == AllLive(sources) + LiveFetch(src)
  {
    assert (sources + [src])[..|sources|] == sources;
  }

  /** An exchange whose live fetch fails contributes no row; the other exchanges' rows
      are unaffected. */
  lemma {:induction false} LiveOutageIsolated(pre: seq<LiveSource>, src: LiveSource, post: seq<LiveSource>)
    requires !src.hasFundingRates || src.rates.Throws? || (src.intervals.Intervals? && src.intervals.answer.Throws?)
    ensures AllLive(pre + [src] + post) == AllLive(pre + post)
  {
    assert LiveFetch(src) == [];
    if |post| == 0 {
      AllLiveSnoc(pre, src);
      assert pre + [src] + post == pre + [src];
      assert pre + post == pre;
    } else {
      var init := post[..|post| - 1];
      var last := post[|post| - 1];
      assert pre + [src] + post == (pre + [src] + init) + [last];
      assert pre + post == (pre + init) + [last];
      AllLiveSnoc(pre + [src] + init, last);
      AllLiveSnoc(pre + init, last);
      LiveOutageIsolated(pre, src, init);
    }
  }
}
