/** What an exchange, reached through the exchange library, answers. Every network call is
    an oracle here: what it returns, or that it throws, is part of the input of the
    operation that makes the call. */
module Adapter {
  import opened Common

  /** One element of a funding-rate answer; `NullItem` is a `null` in the array. A symbol
      or rate that is `null` or `undefined` is `None`. */
  datatype Item = NullItem | Item(symbol: Option<string>, fundingRate: Option<real>)

  /** A market as `loadMarkets` lists it (its symbol and whether it is a contract or a
      future), with what `fetchFundingRate(symbol)` answers for it. */
  datatype Market = Market(symbol: string, contract: bool, future: bool, rate: Fetch<Item>)

  /** An exchange of the configuration: `Unknown` when the library has no exchange of that
      id; otherwise the outcome of `loadMarkets`, whether it offers the bulk
      `fetchFundingRates`, and what that bulk call answers. */
  datatype Exchange =
    | Unknown
    | Exchange(markets: Fetch<seq<Market>>, hasBulk: bool, bulk: Fetch<seq<Item>>)

  /** One collected funding rate, tagged with the id of the exchange it came from. */
  datatype FundingEntry = FundingEntry(exchange: string, symbol: string, fundingRate: real)
}
