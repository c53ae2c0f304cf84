/**
  The `/2h` handler end to end, without the HTTP and database plumbing:
  the table reference it interpolates into the query text, and the rows
  it returns for a given table contents and database time.
*/
module TwoHourHandler {
  import opened Wrappers
  import opened Swaps
  import Identifiers
  import Aggregate
  import Formatting
  import Hex

  /**
    The table reference for the optional `DB_SCHEMA_NAME` binding; the
    base table of the query is always `token_swap` (line 49).
  */
  function Target(schema: Option<string>): (r: string)
    ensures Identifiers.ParseTableName(r)
            == Some((if Identifiers.SchemaGiven(schema) then schema else None, "token_swap"))
  {
    Identifiers.TableNameRoundTrip(schema, "token_swap");
    Identifiers.TableName(schema, "token_swap")
  }

  /** The `result` array of a successful response. */
  function Response(events: seq<SwapEvent>, now: int): (r: seq<VolumeRow>)
    ensures |r| == |Aggregate.TwoHourVolume(events, now)|
  {
    Formatting.FormatRows(Aggregate.TwoHourVolume(events, now))
  }

  /** No swapper of the table is a JavaScript string. */
  predicate NoTextSwappers(events: seq<SwapEvent>)
  {
    forall j :: 0 <= j < |events| ==> !events[j].swapper.Text?
  }

  /**
    Every response row names a swapper active in the window: a buffer
    swapper as `0x`-prefixed hex that reads back to its bytes, any other
    swapper value (a string, `null`, `undefined`) unchanged.
  */
  lemma ResponseRowsAreActive(events: seq<SwapEvent>, now: int)
    ensures var r := Response(events, now);
      forall i :: 0 <= i < |r| ==>
        || (!r[i].swapper.Buffer? && Aggregate.Active(events, now, r[i].swapper))
        || (&& r[i].swapper.Text?
            && Formatting.ParseAddress(r[i].swapper.text).Some?
            && Aggregate.Active(events, now, Buffer(Formatting.ParseAddress(r[i].swapper.text).value)))
  {
    Aggregate.TwoHourVolumeSpec(events, now);
  }

  /** `total_usd` never increases down the response. */
  lemma ResponseOrdered(events: seq<SwapEvent>, now: int)
    ensures var r := Response(events, now);
      forall i, j :: 0 <= i < j < |r| ==> r[i].totalUsd >= r[j].totalUsd
  {
  }

  /**
    When no swapper is a string (the `bytea` column yields buffers, and
    `null` for a missing address), no swapper value appears twice in the
    response. A string `"0x.."` could collide with a rendered buffer, so
    strings are excluded.
  */
  lemma ResponseDistinct(events: seq<SwapEvent>, now: int)
    requires NoTextSwappers(events)
    ensures var r := Response(events, now);
      forall i, j :: 0 <= i < j < |r| ==> r[i].swapper != r[j].swapper
  {
    var v := Aggregate.TwoHourVolume(events, now);
    var r := Response(events, now);
    Aggregate.TwoHourVolumeSpec(events, now);
    forall i | 0 <= i < |v| ensures !v[i].swapper.Text? {
      var j :| 0 <= j < |events| && Aggregate.InWindow(events[j], now) && events[j].swapper == v[i].swapper;
    }
    forall i, j | 0 <= i < j < |r| ensures r[i].swapper != r[j].swapper {
      if r[i].swapper == r[j].swapper {
        Formatting.FormatSwapperInjective(v[i].swapper, v[j].swapper);
        assert false;
      }
    }
  }

  /**
    `row` is the response row of swapper `k`: `k` is active in the window,
    the row shows `k` as line 58 formats it, and its three volumes are
    `k`'s windowed sums over the divisors of lines 46-48.
  */
  ghost predicate RowOf(events: seq<SwapEvent>, now: int, k: SwapperValue, row: VolumeRow)
  {
    && Aggregate.Active(events, now, k)
    && row.swapper == Formatting.FormatSwapper(k)
    && row.buyUsd == Aggregate.WindowSum(events, now, k, Aggregate.Buy) as real / 10_000_000.0
    && row.sellUsd == Aggregate.WindowSum(events, now, k, Aggregate.Sell) as real / 1_000_000.0
    && row.totalUsd == Aggregate.WindowSum(events, now, k, Aggregate.Total) as real / 1_000_000.0
  }

  /**
    Response row `i` is the row of the query's `i`-th swapper, which is
    active in the window: the spread `...row` keeps the query's three
    volume columns.
  */
  lemma ResponseValues(events: seq<SwapEvent>, now: int)
    ensures var v := Aggregate.TwoHourVolume(events, now); var r := Response(events, now);
      forall i :: 0 <= i < |r| ==> RowOf(events, now, v[i].swapper, r[i])
  {
    var v := Aggregate.TwoHourVolume(events, now);
    var r := Response(events, now);
    Aggregate.TwoHourVolumeSpec(events, now);
    forall i | 0 <= i < |r| ensures RowOf(events, now, v[i].swapper, r[i]) {
      assert r[i] == Formatting.FormatRow(v[i]);
    }
  }

  /**
    Every swapper active in the window has a response row, holding the
    swapper as line 58 formats it: a buffer as its rendered address, a
    string, `null` or `undefined` unchanged.
  */
  lemma ResponseCoversActive(events: seq<SwapEvent>, now: int, k: SwapperValue)
    requires Aggregate.Active(events, now, k)
    ensures var r := Response(events, now);
      exists i :: 0 <= i < |r| && r[i].swapper == Formatting.FormatSwapper(k)
  {
    var v := Aggregate.TwoHourVolume(events, now);
    var r := Response(events, now);
    Aggregate.TwoHourVolumeSpec(events, now);
    var i :| 0 <= i < |v| && v[i].swapper == k;
    assert r[i].swapper == Formatting.FormatSwapper(k);
  }

  /** In particular every active buffer swapper appears as its rendered address. */
  lemma ResponseCoversActiveBuffer(events: seq<SwapEvent>, now: int, bytes: seq<Hex.Byte>)
    requires Aggregate.Active(events, now, Buffer(bytes))
    ensures var r := Response(events, now);
      exists i :: 0 <= i < |r| && r[i].swapper == Text(Formatting.RenderAddress(bytes))
  {
    ResponseCoversActive(events, now, Buffer(bytes));
    assert Formatting.FormatSwapper(Buffer(bytes)) == Text(Formatting.RenderAddress(bytes));
  }

  /** A `null` swapper with an event in the window comes back as a `null` row. */
  lemma NullSwapperKept(events: seq<SwapEvent>, now: int)
    requires Aggregate.Active(events, now, Null)
    ensures var r := Response(events, now);
      exists i :: 0 <= i < |r| && r[i].swapper == Null
  {
    ResponseCoversActive(events, now, Null);
  }

  /** Without a schema, or with an empty one, the query reads `"token_swap"`. */
  lemma TargetUnqualified(schema: Option<string>)
    requires schema.None? || schema.value == ""
    ensures Target(schema) == "\"token_swap\""
  {
    BaseTableEscaped();
    assert Target(schema) == Identifiers.EscapeIdentifier("token_swap");
  }

  /** The base table name has no double quote, so escaping only wraps it. */
  lemma BaseTableEscaped()
    ensures Identifiers.EscapeIdentifier("token_swap") == "\"token_swap\""
  {
  }
}
