/** The records the solver works on (`Token`, `Pool`, `SwapRoute`). Amounts
    that the source keeps as `Decimal` are exact reals here. */
module Models {
  import opened Wrappers

  /** A token or pool address; compared exactly, as the dictionaries and the
      graph do. */
  type Address = string

  datatype Token = Token(
    address: Address,
    symbol: string,
    name: string,
    decimals: int,
    priceUsd: Option<real>)

  datatype Pool = Pool(
    address: Address,
    token0: Token,
    token1: Token,
    reserve0: real,
    reserve1: real)

  /** A route: `path` holds the token addresses visited, `pools` the pool
      used for each hop, `estimatedOutput` the amount of the last token. */
  datatype SwapRoute = SwapRoute(
    path: seq<Address>,
    pools: seq<Address>,
    estimatedOutput: real)
}
