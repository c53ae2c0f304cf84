/**
  The data the `/2h` handler reads and returns: swap events as stored in
  the `token_swap` table, and the per-swapper volume rows the aggregate
  query yields.
*/
module Swaps {
  import opened Wrappers
  import Hex

  /**
    A `swapper` value as the database client hands it to JavaScript: a
    byte buffer (the `bytea` address), `null` for a missing address, or
    a string or `undefined`, which the `bytea` column does not yield but
    the handler's guard on line 58 still passes through.
  */
  datatype SwapperValue = Buffer(bytes: seq<Hex.Byte>) | Text(text: string) | Null | Undefined

  /** JavaScript truthiness: every Buffer is an object and so truthy, even an empty one. */
  predicate Truthy(v: SwapperValue)
    ensures Truthy(v) <==> v != Null && v != Undefined && v != Text("")
  {
    match v
    case Buffer(_) => true
    case Text(t) => t != ""
    case Null => false
    case Undefined => false
  }

  /**
    One row of the swap-events table. `isBuy` and `usdValue` are nullable
    columns; `timestamp` is in epoch seconds.
  */
  datatype SwapEvent = SwapEvent(swapper: SwapperValue, isBuy: Option<bool>, usdValue: Option<int>, timestamp: int)

  /** One row of the aggregate result: volumes already divided by their scale. */
  datatype VolumeRow = VolumeRow(swapper: SwapperValue, buyUsd: real, sellUsd: real, totalUsd: real)
}
