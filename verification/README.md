# Two-hour swap volume API: verified model

A Dafny model of the logic inside the `/2h` endpoint of the swap-volume
service (`apis/src/index.ts`). The endpoint reads a `token_swap` table of
swap events and returns, per trading address (the *swapper*), the USD
volume bought, sold and traded in total over the last 120 minutes,
largest total first. The handler's logic is spread over five modules
here, plus a data model and a wrapper type:

- **`Identifiers`** (`identifiers.dfy`): building the table reference
  that is spliced into the SQL text. A name becomes a delimited
  identifier: it is wrapped in `"` and every embedded `"` is doubled,
  the form of ISO/IEC 9075-2 section 5.2 that PostgreSQL also uses. An
  optional schema from the `DB_SCHEMA_NAME` binding qualifies it as
  `"schema"."table"`. The schema test is JavaScript truthiness, so an
  empty schema counts as no schema. The module also has a decoder that
  reads a delimited identifier by its quoting rules (`""` is one quote,
  a lone `"` closes it); PostgreSQL's zero-length error and 63-byte
  truncation are not modelled. Proved: the
  escaped text reads back as exactly the escaped name, followed by the
  rest of the text, unless that rest begins with `"`. So a name can
  never close its quotes early. Escaping is injective. A table reference
  reads back as its schema and table, and every text the reader accepts
  is such a reference.
- **`Hex`** and **`Formatting`** (`hex.dfy`, `formatting.dfy`): result
  shaping. A swapper that arrives as a byte buffer becomes `0x` plus two
  lower-case hex digits per byte. Any other swapper value is passed
  through, and so is every other column. Proved: encoding and decoding
  round-trip in both directions, and the row map keeps length, order and
  every other column.
- **`Aggregate`** (`aggregate.dfy`): the aggregate SQL query as a pure
  reference function of the table's rows and the database time `now`.
  It keeps the rows with `timestamp >= now - 7200`, groups them by
  swapper, and computes a buy sum and a sell sum of
  `coalesce(usd_value, 0)` and a total that is `sum(usd_value)`, which
  skips nulls. It orders the groups by total, largest
  first. Then it divides buy by `10e6` (10,000,000) and sell and total
  by `1e6`. Proved: one row per active swapper and no other rows, each
  carrying its swapper's windowed sums. The rows are ordered by total.
  An event outside the window has no effect wherever it sits in the
  table. For one swapper, a 20,000,000 buy, a 1,000,000 sell and a
  null-valued buy come out as `buy_usd` 2, `sell_usd` 1 and `total_usd`
  21.
- **`TwoHourHandler`** (`handler.dfy`) composes the pieces: the table
  reference for a schema binding, and the formatted response rows.

`Swaps` (`swaps.dfy`) holds the data model: swap events, swapper values
as JavaScript sees them (buffer, string, `null`, `undefined`), and
result rows. `Wrappers` holds `Option`.

The handler does no allow-list validation; it only escapes (line 35).
So `TableName` accepts every string, and its safety rests on
`Identifiers.ParseEscaped`.

The buy/sell divisor asymmetry (`10e6` against `1e6`) is kept as written
in the query.

## Model

| member | source | states |
|---|---|---|
| Identifiers.DoubleQuotes | apis/src/index.ts:35 | doubling quotes lengthens the name by its number of quotes; a quote-free name is unchanged |
| Identifiers.EscapeIdentifier | apis/src/index.ts:35 | result is `"` + body + `"`, length `\|name\| + 2 + count of "`; its body has quotes only in pairs and collapses back to `name`; a quote-free name is simply wrapped |
| Identifiers.QuoteFreeIsWrapped | apis/src/index.ts:35 | a name containing no `"` escapes to the name between two quotes |
| Identifiers.DoubledIsPaired | apis/src/index.ts:35 | the escaped body of every name is well formed (quotes only as adjacent pairs) and collapsing `""` to `"` gives back the name |
| Identifiers.PairedIsDoubled | apis/src/index.ts:35 | conversely every well-formed body is the escaping of its collapse, so escaping is a bijection onto well-formed bodies |
| Identifiers.EscapeInjective | apis/src/index.ts:35 | two different names never escape to the same text |
| Identifiers.ScanDoubled | apis/src/index.ts:35 | the reader, given an escaped body followed by the closing quote, stops exactly at that quote and yields the name, when what follows the closing quote does not begin with `"` |
| Identifiers.ScanBodyInverse | apis/src/index.ts:35 | every body the reader accepts is the escaping of the name it reads, then the closing quote, then the rest it leaves |
| Identifiers.ParseQuotedInverse | apis/src/index.ts:35 | every delimited identifier the reader accepts is the escaping of the name it reads followed by the rest |
| Identifiers.ParseEscaped | apis/src/index.ts:35 | reading a delimited identifier from `escape(name) + rest` yields `name` and leaves exactly `rest` (when `rest` does not start with `"`): the quotes cannot be closed early |
| Identifiers.TableName | apis/src/index.ts:33-40 | without a (non-empty) schema the reference reads as the base name with nothing after it; with one, the first identifier read is the schema and what follows is `.` and the quoted base name |
| Identifiers.TableNameRoundTrip | apis/src/index.ts:36-39 | reading back the whole reference recovers the schema (absent when it was absent or empty) and the base name, with nothing but the `.` outside the quoted tokens |
| Identifiers.ParseTableNameInverse | apis/src/index.ts:36-39 | every text accepted as a table reference is exactly `escape(schema).escape(table)`, or `escape(table)` when it has no schema |
| Identifiers.TableNameInjective | apis/src/index.ts:36-39 | equal references come from equal base names and equal effective schemas |
| Identifiers.QuotedSchemaExample | apis/src/index.ts:36-37 | schema `a"b` with table `t` gives `"a""b"."t"` |
| TwoHourHandler.Target | apis/src/index.ts:36-49 | the query's table reference reads back as base table `token_swap`, qualified by the schema binding exactly when that is present and non-empty |
| TwoHourHandler.TargetUnqualified | apis/src/index.ts:36-39 | with the schema binding absent or empty, the query reads from `"token_swap"` |
| Hex.Digit | apis/src/index.ts:59 | every nibble maps to one of the sixteen lower-case hex digits |
| Hex.DigitValue | apis/src/index.ts:59 | a character has a value exactly when it is a lower-case hex digit, and that value's digit is the character |
| Hex.ToHex | apis/src/index.ts:59 | `2n` characters for `n` bytes |
| Hex.ToHexAt | apis/src/index.ts:59 | byte `i` gives digits `2i` (high nibble) and `2i+1` (low nibble), so bytes appear in order |
| Hex.ToHexLowerCase | apis/src/index.ts:59 | every character of the hex text is a lower-case hex digit |
| Hex.DigitRoundTrip | apis/src/index.ts:59 | reading the digit of a nibble gives the nibble back |
| Hex.ByteOfDigits | apis/src/index.ts:59 | the two digits of a byte read back as that byte |
| Hex.DigitsOfByte | apis/src/index.ts:59 | two digits the reader accepts as a byte are exactly that byte's two digits |
| Hex.FromHexToHex | apis/src/index.ts:59 | decoding the hex text of any bytes gives those bytes back |
| Hex.ToHexFromHex | apis/src/index.ts:59 | any text the decoder accepts has even length and is the hex text of the bytes it decodes to |
| Hex.HexTextCharacterisation | apis/src/index.ts:59 | the decoder accepts a string exactly when it is the hex text of some bytes |
| Formatting.RenderAddress | apis/src/index.ts:59 | a rendered address is `0x` followed by `2n` lower-case hex digits |
| Formatting.AddressRoundTrip | apis/src/index.ts:59 | reading back a rendered address gives the original bytes |
| Formatting.ParseAddressExact | apis/src/index.ts:59 | every text the address reader accepts is the rendering of the bytes it reads |
| Formatting.RenderAddressDigits | apis/src/index.ts:59 | byte `i` sits at offsets `2+2i` and `3+2i`, high nibble first, so bytes appear in order |
| Swaps.Truthy | apis/src/index.ts:58 | a swapper value is truthy unless it is `null`, `undefined` or the empty string; every buffer, even an empty one, is truthy |
| Formatting.FormatSwapper | apis/src/index.ts:58-60 | a buffer becomes text that reads back as its bytes, with length `2 + 2n`; a string, `null` or `undefined` is returned unchanged |
| Formatting.FormatSwapperInjective | apis/src/index.ts:58-60 | two swapper values that are not strings (buffers, `null`, `undefined`) never format to the same value |
| Formatting.FormatSwapperIdempotent | apis/src/index.ts:58-60 | formatting an already formatted swapper changes nothing |
| Formatting.RenderExample | apis/src/index.ts:59 | bytes `0xAB 0xCD` render as `0xabcd` |
| Formatting.EmptyBufferRenders | apis/src/index.ts:58 | an empty buffer is truthy in JavaScript and renders as `0x` |
| Formatting.FormatRow | apis/src/index.ts:56-61 | only the swapper column is formatted; buy, sell and total are kept |
| Formatting.FormatRows | apis/src/index.ts:56-61 | same number of rows, same order, each row formatted individually |
| Aggregate.Part | apis/src/index.ts:46-48 | an event adds its `usd_value` to the total, a null adding nothing as `sum(usd_value)` skips it; it adds `coalesce(usd_value, 0)` to buy only when `is_buy` is true and to sell only when it is false (a null `is_buy` adds to neither); a null value adds nothing |
| Aggregate.InWindow | apis/src/index.ts:50 | an event is in the window exactly when it is at most 7200 seconds older than `now` |
| Aggregate.WindowSum | apis/src/index.ts:46-51 | the windowed sum of a swapper with no event in the window is 0 |
| Aggregate.Window | apis/src/index.ts:50 | an event is kept exactly when it is in the table and not older than 120 minutes |
| Aggregate.WindowKeepsMultiplicity | apis/src/index.ts:50 | each in-window event is kept as many times as the table holds it, duplicates included, and every other event is dropped |
| Aggregate.WindowBoundary | apis/src/index.ts:50 | the window's lower bound is inclusive: 7200 seconds old counts, 7201 does not |
| Aggregate.WindowKeepsRecent | apis/src/index.ts:50 | a table whose events are all recent passes the filter whole |
| Aggregate.WindowAppend | apis/src/index.ts:50 | the filter distributes over concatenation of tables |
| Aggregate.StaleEventIgnored | apis/src/index.ts:50 | inserting an event older than the window anywhere in the table leaves the grouped sums and the query result unchanged |
| Aggregate.Swappers | apis/src/index.ts:51 | the group keys are distinct, every event's swapper is one, and each is some event's swapper |
| Aggregate.SingleSwapper | apis/src/index.ts:51 | a non-empty table of one swapper forms exactly one group |
| Aggregate.GroupIsActive | apis/src/index.ts:50-51 | every group of the windowed events belongs to a swapper with an event in the window |
| Aggregate.ActiveIsGroup | apis/src/index.ts:50-51 | every swapper with an event in the window has a group |
| Aggregate.SwappersOfWindow | apis/src/index.ts:50-51 | a swapper has a group exactly when it has an event in the window |
| Aggregate.Groups | apis/src/index.ts:51 | one group row per key, in key order, each with that key's three sums |
| Aggregate.GroupSumOfWindow | apis/src/index.ts:46-50 | filtering and then summing a group equals summing the swapper's in-window events directly |
| Aggregate.GroupRowFacts | apis/src/index.ts:46-51 | every grouped row belongs to an active swapper and carries its windowed buy, sell and total sums |
| Aggregate.Insert | apis/src/index.ts:52 | inserting into rows ordered by total keeps them ordered and adds exactly the new row (as a multiset) |
| Aggregate.InsertKeepsKeysDistinct | apis/src/index.ts:51-52 | inserting the row of a new swapper keeps one row per swapper |
| Aggregate.SortByTotal | apis/src/index.ts:52 | the sorted rows are ordered by non-increasing total and are a permutation of the input |
| Aggregate.SortKeepsKeysDistinct | apis/src/index.ts:51-52 | sorting keeps one row per swapper |
| Aggregate.AggregateSums | apis/src/index.ts:44-52 | the grouped sums come ordered by total, largest first, with one row per swapper |
| Aggregate.AggregateSpec | apis/src/index.ts:44-52 | the result has exactly one row per swapper active in the window; each row's buy, sell and total sums are that swapper's windowed sums; rows are ordered by total, largest first |
| Aggregate.WindowSumAppend | apis/src/index.ts:46-50 | a new event changes a swapper's windowed sum by its own part, and only if it is that swapper's and in the window |
| Aggregate.NullSideCountsInTotalOnly | apis/src/index.ts:46-48 | an in-window event with null `is_buy` adds to neither buy nor sell but adds its value to the total |
| Aggregate.SidedTotal | apis/src/index.ts:46-48 | when no event has a null `is_buy`, buy sum plus sell sum is the total sum |
| Aggregate.Scale | apis/src/index.ts:46-48 | `buy_usd` times 10,000,000, and `sell_usd` and `total_usd` times 1,000,000, give back the integer sums |
| Aggregate.ScaleRows | apis/src/index.ts:46-48 | every row is scaled, in the same order |
| Aggregate.TwoHourVolume | apis/src/index.ts:44-52 | the query's rows come in non-increasing `total_usd` order and no swapper appears twice |
| Aggregate.TwoHourVolumeSpec | apis/src/index.ts:44-52 | scaled rows come in non-increasing `total_usd` order with distinct swappers; each value is its swapper's windowed sum over its divisor; every active swapper has a row |
| Aggregate.WorkedExampleSums | apis/src/index.ts:46-48 | buys 20,000,000 and null plus a sell of 1,000,000 sum to 20,000,000 / 1,000,000 / 21,000,000 |
| Aggregate.WorkedExample | apis/src/index.ts:44-52 | those three events give `buy_usd` 2, `sell_usd` 1, `total_usd` 21 |
| TwoHourHandler.Response | apis/src/index.ts:56-65 | the response has as many rows as the aggregate query returns |
| TwoHourHandler.ResponseValues | apis/src/index.ts:44-65 | response row `i` belongs to the query's `i`-th swapper, which is active in the window: it shows that swapper as line 58 formats it, and its `buy_usd`, `sell_usd` and `total_usd` are the swapper's windowed sums over 10,000,000, 1,000,000 and 1,000,000 |
| TwoHourHandler.ResponseRowsAreActive | apis/src/index.ts:44-61 | every response swapper is either a non-buffer value (string, `null`, `undefined`) that is itself a swapper active in the window, or `0x` hex text that reads back to the bytes of an active buffer swapper |
| TwoHourHandler.ResponseOrdered | apis/src/index.ts:52-61 | `total_usd` never increases down the response |
| TwoHourHandler.ResponseDistinct | apis/src/index.ts:51-61 | when no swapper in the table is a string, no swapper value appears twice in the response |
| TwoHourHandler.ResponseCoversActive | apis/src/index.ts:51-61 | every swapper active in the window (buffer, string, `null` or `undefined`) has a response row showing it as line 58 formats it |
| TwoHourHandler.ResponseCoversActiveBuffer | apis/src/index.ts:51-61 | every active buffer swapper appears in the response as its rendered address |
| TwoHourHandler.NullSwapperKept | apis/src/index.ts:51-60 | a `null` swapper with an event in the window comes back as a `null` row |

## Left out

- The `/` endpoint (lines 9-25): it passes `limit(50)` to the ORM and returns whatever the database gives. There is no logic of its own to model.
- Application setup, routing and the authentication middleware (lines 6-7). These are framework plumbing.
- Running the query (`db.client(c).execute`, line 43) and the database clock. The table contents and `now()` are parameters of `Aggregate.TwoHourVolume`.
- `Response.json`, the HTTP 500 path and `console.error` (lines 18-23, 63-68). These are I/O and logging.
- Aggregate.AggregateSpec: a group whose `usd_value`s are all null gets SQL `sum` = NULL, and PostgreSQL sorts NULL first under `desc`. The model treats that sum as 0, so such a group sorts as 0.
- Aggregate.TwoHourVolumeSpec: for that all-null group `total_usd` is SQL NULL, which the response carries as JSON `null`; the model gives 0.0.
- Identifiers.ParseQuoted: reads a delimited identifier by its quoting rules only. PostgreSQL rejects the zero-length identifier `""` and truncates identifiers of 64 or more bytes; the reader accepts `""` and keeps every character, so the round trips hold for this reader, not for PostgreSQL's name resolution.
- Aggregate.Scale: the divisions are exact `real` divisions. PostgreSQL `numeric` precision and rounding are not modelled.
- Aggregate.SortByTotal: SQL leaves the order of equal totals unspecified. The model picks one order, stable by first appearance; the contracts state only what SQL guarantees (ordered by total, a permutation).
- Aggregate.InWindow: `timestamp` and `now` are whole epoch seconds. The fractional seconds that `extract(epoch from now() - ...)` can produce are not modelled.
- `usd_value` is an integer. A fractional `numeric` value is not modelled.
- Formatting.FormatRow: the row has the four columns of the query. The spread `...row` would also keep any other column, but the query produces none.
- TwoHourHandler.ResponseDistinct: holds only for tables with no string swapper. A string such as `"0xab"` and a buffer `ab` both come out as `"0xab"`, so distinct query rows can share a response swapper when strings occur.
