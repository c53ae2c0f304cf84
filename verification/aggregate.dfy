/**
  The 2-hour volume query of the `/2h` handler (apis/src/index.ts lines
  44-52) as a pure function over the rows of the swap-events table and
  the database's current time `now` (epoch seconds):

    - keep events with `timestamp >= now - 120 minutes`;
    - group them by swapper;
    - per group, sum `usd_value` of buys, of sells and of all events
      (a null `usd_value` counts as 0; a null `is_buy` is neither a buy
      nor a sell);
    - order groups by the total sum, largest first;
    - divide the buy sum by 10e6 and the sell and total sums by 1e6.

  The sums are kept as integers; the divisions are exact `real`s.
*/
module Aggregate {
  import opened Wrappers
  import opened Swaps

  /** `interval '120 minutes'`, in seconds. */
  const WindowSeconds: int := 120 * 60

  /** `10e6`, the divisor of `buy_usd`. */
  const BuyScale: real := 10_000_000.0
  /** `1e6`, the divisor of `sell_usd`. */
  const SellScale: real := 1_000_000.0
  /** `1e6`, the divisor of `total_usd`. */
  const TotalScale: real := 1_000_000.0

  /** The three sums the query computes per swapper. */
  datatype Column = Buy | Sell | Total

  /**
    `coalesce(usd_value, 0)`. The total `sum(usd_value)` skips nulls,
    which adds the same as counting them as 0 unless every value of a
    group is null.
  */
  function Coalesce(v: Option<int>): int
  {
    if v.Some? then v.value else 0
  }

  /**
    What one event contributes to a column's sum (lines 46-48): the total
    takes every event's value, a side takes only the events of that side,
    and an event with a null `is_buy` belongs to no side.
  */
  function Part(col: Column, e: SwapEvent): (r: int)
    ensures col == Total ==> r == Coalesce(e.usdValue)
    ensures col == Buy && e.isBuy != Some(true) ==> r == 0
    ensures col == Sell && e.isBuy != Some(false) ==> r == 0
    ensures col != Total && r != 0 ==> r == Coalesce(e.usdValue)
    ensures e.usdValue.None? ==> r == 0
  {
    match col
    case Buy => if e.isBuy == Some(true) then Coalesce(e.usdValue) else 0
    case Sell => if e.isBuy == Some(false) then Coalesce(e.usdValue) else 0
    case Total => Coalesce(e.usdValue)
  }

  /** The `where` clause of line 50: the lower bound is inclusive. */
  predicate InWindow(e: SwapEvent, now: int)
    ensures InWindow(e, now) <==> now - e.timestamp <= 7200
  {
    e.timestamp >= now - WindowSeconds
  }

  // ---------------------------------------------------------------------
  // Reference meaning of the query, read directly off the SQL

  /** Swapper `k` has at least one event inside the window. */
  ghost predicate Active(events: seq<SwapEvent>, now: int, k: SwapperValue)
  {
    exists j :: 0 <= j < |events| && InWindow(events[j], now) && events[j].swapper == k
  }

  /** The sum of `col` over the events of swapper `k` that fall inside the window. */
  function WindowSum(events: seq<SwapEvent>, now: int, k: SwapperValue, col: Column): (r: int)
    ensures !Active(events, now, k) ==> r == 0
  {
    if |events| == 0 then 0
    else
      var rest := WindowSum(events[1..], now, k, col);
      assert !Active(events, now, k) ==> !Active(events[1..], now, k) by {
        if Active(events[1..], now, k) {
          var j :| 0 <= j < |events[1..]| && InWindow(events[1..][j], now) && events[1..][j].swapper == k;
          assert events[j + 1] == events[1..][j];
        }
      }
      (if events[0].swapper == k && InWindow(events[0], now) then Part(col, events[0]) else 0) + rest
  }

  // ---------------------------------------------------------------------
  // The query, step by step

  /** The events inside the window, in table order. */
  function Window(events: seq<SwapEvent>, now: int): (r: seq<SwapEvent>)
    ensures |r| <= |events|
    ensures forall e :: e in r <==> e in events && InWindow(e, now)
  {
    if |events| == 0 then []
    else (if InWindow(events[0], now) then [events[0]] else []) + Window(events[1..], now)
  }

  /**
    The filter keeps every in-window event as often as the table holds
    it, duplicates included, and drops every other event.
  */
  lemma {:induction false} WindowKeepsMultiplicity(events: seq<SwapEvent>, now: int)
    ensures forall e :: multiset(Window(events, now))[e] == if InWindow(e, now) then multiset(events)[e] else 0
  {
    if |events| > 0 {
      WindowKeepsMultiplicity(events[1..], now);
      assert events == [events[0]] + events[1..];
    }
  }

  /** No value occurs twice. */
  predicate Distinct<T(==)>(s: seq<T>)
  {
    forall i, j :: 0 <= i < j < |s| ==> s[i] != s[j]
  }

  /** The distinct swappers of `events`, in order of first appearance. */
  function Swappers(events: seq<SwapEvent>): (r: seq<SwapperValue>)
    ensures Distinct(r)
    ensures forall j :: 0 <= j < |events| ==> events[j].swapper in r
    ensures forall i :: 0 <= i < |r| ==> exists j :: 0 <= j < |events| && events[j].swapper == r[i]
  {
    if |events| == 0 then []
    else
      var init := events[..|events| - 1];
      var prev := Swappers(init);
      var k := events[|events| - 1].swapper;
      assert forall j :: 0 <= j < |init| ==> events[j] == init[j];
      if k in prev then prev else prev + [k]
  }

  /** The sum of `col` over the events of swapper `k`. */
  function GroupSum(events: seq<SwapEvent>, k: SwapperValue, col: Column): int
  {
    if |events| == 0 then 0
    else (if events[0].swapper == k then Part(col, events[0]) else 0) + GroupSum(events[1..], k, col)
  }

  /** The three integer sums of one group, before scaling. */
  datatype GroupSums = GroupSums(swapper: SwapperValue, buySum: int, sellSum: int, totalSum: int)

  /** The row `group by swapper` produces for swapper `k`. */
  function Group(events: seq<SwapEvent>, k: SwapperValue): GroupSums
  {
    GroupSums(k, GroupSum(events, k, Buy), GroupSum(events, k, Sell), GroupSum(events, k, Total))
  }

  /** One group row per key, in key order. */
  function Groups(events: seq<SwapEvent>, keys: seq<SwapperValue>): (r: seq<GroupSums>)
    ensures |r| == |keys|
    ensures forall i :: 0 <= i < |keys| ==> r[i] == Group(events, keys[i])
  {
    if |keys| == 0 then []
    else [Group(events, keys[0])] + Groups(events, keys[1..])
  }

  /** `order by sum(usd_value) desc`: totals never increase along the rows. */
  predicate SortedByTotal(rows: seq<GroupSums>)
  {
    forall i, j :: 0 <= i < j < |rows| ==> rows[i].totalSum >= rows[j].totalSum
  }

  /** No swapper has two rows. */
  predicate KeysDistinct(rows: seq<GroupSums>)
  {
    forall i, j :: 0 <= i < j < |rows| ==> rows[i].swapper != rows[j].swapper
  }

  /** Places `g` before the first row whose total is smaller. */
  function Insert(g: GroupSums, rows: seq<GroupSums>): (r: seq<GroupSums>)
    requires SortedByTotal(rows)
    ensures SortedByTotal(r)
    ensures multiset(r) == multiset(rows) + multiset{g}
  {
    if |rows| == 0 then [g]
    else if g.totalSum >= rows[0].totalSum then [g] + rows
    else
      var tail := Insert(g, rows[1..]);
      assert rows == [rows[0]] + rows[1..];
      forall x | x in tail ensures x.totalSum <= rows[0].totalSum {
        InsertedOrKept(tail, rows[1..], g, x);
        if x != g {
          HeadIsLargest(rows, x);
        }
      }
      ConsSorted(rows[0], tail);
      assert multiset([rows[0]] + tail) == multiset{rows[0]} + multiset(tail);
      [rows[0]] + tail
  }

  /** The first of rows ordered by total has the largest total. */
  lemma HeadIsLargest(rows: seq<GroupSums>, x: GroupSums)
    requires SortedByTotal(rows)
    requires |rows| > 0 && x in rows[1..]
    ensures x.totalSum <= rows[0].totalSum
  {
    var k :| 0 <= k < |rows[1..]| && rows[1..][k] == x;
    assert rows[k + 1] == x;
  }

  /** A row no smaller than any of an ordered sequence may go in front of it. */
  lemma ConsSorted(h: GroupSums, tail: seq<GroupSums>)
    requires SortedByTotal(tail)
    requires forall x :: x in tail ==> x.totalSum <= h.totalSum
    ensures SortedByTotal([h] + tail)
  {
    var r := [h] + tail;
    forall i, j | 0 <= i < j < |r| ensures r[i].totalSum >= r[j].totalSum {
      if i == 0 {
        assert r[j] in tail;
      } else {
        assert r[i] == tail[i - 1] && r[j] == tail[j - 1];
      }
    }
  }

  /** An element of `b` plus `g` is `g` or an element of `b`. */
  lemma InsertedOrKept<T>(a: seq<T>, b: seq<T>, g: T, x: T)
    requires multiset(a) == multiset(b) + multiset{g}
    requires x in a
    ensures x == g || x in b
  {
    assert x in multiset(a);
  }

  /** Inserting a row for a new swapper keeps swappers distinct. */
  lemma {:induction false} InsertKeepsKeysDistinct(g: GroupSums, rows: seq<GroupSums>)
    requires SortedByTotal(rows) && KeysDistinct(rows)
    requires forall x :: x in rows ==> x.swapper != g.swapper
    ensures KeysDistinct(Insert(g, rows))
  {
    if |rows| > 0 && g.totalSum < rows[0].totalSum {
      var tail := Insert(g, rows[1..]);
      InsertKeepsKeysDistinct(g, rows[1..]);
      forall x | x in tail ensures x.swapper != rows[0].swapper {
        InsertedOrKept(tail, rows[1..], g, x);
        if x != g {
          assert x in rows[1..];
          var j :| 0 <= j < |rows[1..]| && rows[1..][j] == x;
          assert rows[j + 1] == x;
        }
      }
      var r := [rows[0]] + tail;
      forall i, j | 0 <= i < j < |r| ensures r[i].swapper != r[j].swapper {
        if i == 0 {
          assert r[j] in tail;
        } else {
          assert r[i] == tail[i - 1] && r[j] == tail[j - 1];
        }
      }
    }
  }

  /**
    Insertion sort by total, largest first. Rows with equal totals keep
    their relative order; SQL leaves that order unspecified, so this is
    one of the orders the database may return.
  */
  function SortByTotal(rows: seq<GroupSums>): (r: seq<GroupSums>)
    ensures SortedByTotal(r)
    ensures multiset(r) == multiset(rows)
  {
    if |rows| == 0 then []
    else
      assert rows == [rows[0]] + rows[1..];
      Insert(rows[0], SortByTotal(rows[1..]))
  }

  /** Sorting rows whose swappers are distinct keeps them distinct. */
  lemma {:induction false} SortKeepsKeysDistinct(rows: seq<GroupSums>)
    requires KeysDistinct(rows)
    ensures KeysDistinct(SortByTotal(rows))
  {
    if |rows| > 0 {
      var sorted := SortByTotal(rows[1..]);
      SortKeepsKeysDistinct(rows[1..]);
      forall x | x in sorted ensures x.swapper != rows[0].swapper {
        assert x in multiset(sorted);
        assert x in rows[1..];
        var j :| 0 <= j < |rows[1..]| && rows[1..][j] == x;
        assert rows[j + 1] == x;
      }
      InsertKeepsKeysDistinct(rows[0], sorted);
    }
  }

  /** The query's rows with their integer sums, before the divisions. */
  function AggregateSums(events: seq<SwapEvent>, now: int): (r: seq<GroupSums>)
    ensures SortedByTotal(r)
    ensures KeysDistinct(r)
  {
    var window := Window(events, now);
    var keys := Swappers(window);
    var groups := Groups(window, keys);
    assert KeysDistinct(groups) by {
      forall i, j | 0 <= i < j < |groups| ensures groups[i].swapper != groups[j].swapper {
        assert groups[i].swapper == keys[i] && groups[j].swapper == keys[j];
      }
    }
    SortKeepsKeysDistinct(groups);
    SortByTotal(groups)
  }

  /** Divides the sums by their scales (the `/10e6` and `/1e6` of lines 46-48). */
  function Scale(g: GroupSums): (r: VolumeRow)
    ensures r.swapper == g.swapper
    ensures r.buyUsd * BuyScale == g.buySum as real
    ensures r.sellUsd * SellScale == g.sellSum as real
    ensures r.totalUsd * TotalScale == g.totalSum as real
  {
    VolumeRow(g.swapper, g.buySum as real / BuyScale, g.sellSum as real / SellScale,
              g.totalSum as real / TotalScale)
  }

  function ScaleRows(rows: seq<GroupSums>): (r: seq<VolumeRow>)
    ensures |r| == |rows|
    ensures forall i :: 0 <= i < |rows| ==> r[i] == Scale(rows[i])
  {
    if |rows| == 0 then [] else [Scale(rows[0])] + ScaleRows(rows[1..])
  }

  /** The rows the aggregate query returns for `events` at time `now`. */
  function TwoHourVolume(events: seq<SwapEvent>, now: int): (r: seq<VolumeRow>)
    ensures forall i, j :: 0 <= i < j < |r| ==> r[i].totalUsd >= r[j].totalUsd && r[i].swapper != r[j].swapper
  {
    var g := AggregateSums(events, now);
    var r := ScaleRows(g);
    assert forall i, j :: 0 <= i < j < |r| ==> g[i].totalSum >= g[j].totalSum;
    assert forall i :: 0 <= i < |r| ==> r[i].totalUsd == g[i].totalSum as real / TotalScale;
    r
  }

  // ---------------------------------------------------------------------
  // Properties

  /** Filtering first and then summing a group is the windowed sum of the SQL. */
  lemma {:induction false} GroupSumOfWindow(events: seq<SwapEvent>, now: int, k: SwapperValue, col: Column)
    ensures GroupSum(Window(events, now), k, col) == WindowSum(events, now, k, col)
  {
    if |events| > 0 {
      GroupSumOfWindow(events[1..], now, k, col);
      var rest := Window(events[1..], now);
      if InWindow(events[0], now) {
        var w := [events[0]] + rest;
        assert w[1..] == rest;
      } else {
        assert Window(events, now) == rest;
      }
    }
  }

  /** A group of the windowed events belongs to an active swapper. */
  lemma GroupIsActive(events: seq<SwapEvent>, now: int, k: SwapperValue)
    requires k in Swappers(Window(events, now))
    ensures Active(events, now, k)
  {
    var window := Window(events, now);
    var keys := Swappers(window);
    var i :| 0 <= i < |keys| && keys[i] == k;
    var j :| 0 <= j < |window| && window[j].swapper == k;
    var e := window[j];
    assert e in window;
    assert e in events && InWindow(e, now);
    var m :| 0 <= m < |events| && events[m] == e;
    assert InWindow(events[m], now) && events[m].swapper == k;
  }

  /** An active swapper is a group of the windowed events. */
  lemma ActiveIsGroup(events: seq<SwapEvent>, now: int, k: SwapperValue)
    requires Active(events, now, k)
    ensures k in Swappers(Window(events, now))
  {
    var window := Window(events, now);
    var j :| 0 <= j < |events| && InWindow(events[j], now) && events[j].swapper == k;
    var e := events[j];
    assert e in events;
    assert e in window;
    var m :| 0 <= m < |window| && window[m] == e;
    assert window[m].swapper == k;
  }

  /** A swapper is a group of the windowed events exactly when it is active. */
  lemma SwappersOfWindow(events: seq<SwapEvent>, now: int, k: SwapperValue)
    ensures k in Swappers(Window(events, now)) <==> Active(events, now, k)
  {
    if k in Swappers(Window(events, now)) {
      GroupIsActive(events, now, k);
    }
    if Active(events, now, k) {
      ActiveIsGroup(events, now, k);
    }
  }

  /** Every row of the unsorted grouping is the group of an active swapper. */
  lemma GroupRowFacts(events: seq<SwapEvent>, now: int, g: GroupSums)
    requires g in Groups(Window(events, now), Swappers(Window(events, now)))
    ensures Active(events, now, g.swapper)
    ensures g.buySum == WindowSum(events, now, g.swapper, Buy)
    ensures g.sellSum == WindowSum(events, now, g.swapper, Sell)
    ensures g.totalSum == WindowSum(events, now, g.swapper, Total)
  {
    var window := Window(events, now);
    var keys := Swappers(window);
    var groups := Groups(window, keys);
    var m :| 0 <= m < |groups| && groups[m] == g;
    assert g == Group(window, keys[m]);
    SwappersOfWindow(events, now, keys[m]);
    GroupSumOfWindow(events, now, g.swapper, Buy);
    GroupSumOfWindow(events, now, g.swapper, Sell);
    GroupSumOfWindow(events, now, g.swapper, Total);
  }

  /**
    What the aggregate query returns: one row per active swapper and no
    other rows, each carrying the windowed buy, sell and total sums of
    its swapper, ordered by total, largest first.
  */
  lemma AggregateSpec(events: seq<SwapEvent>, now: int)
    ensures SortedByTotal(AggregateSums(events, now))
    ensures KeysDistinct(AggregateSums(events, now))
    ensures forall i :: 0 <= i < |AggregateSums(events, now)| ==>
              var g := AggregateSums(events, now)[i];
              && Active(events, now, g.swapper)
              && g.buySum == WindowSum(events, now, g.swapper, Buy)
              && g.sellSum == WindowSum(events, now, g.swapper, Sell)
              && g.totalSum == WindowSum(events, now, g.swapper, Total)
    ensures forall k :: Active(events, now, k) ==>
              exists i :: 0 <= i < |AggregateSums(events, now)| && AggregateSums(events, now)[i].swapper == k
  {
    var window := Window(events, now);
    var keys := Swappers(window);
    var groups := Groups(window, keys);
    var r := AggregateSums(events, now);
    assert r == SortByTotal(groups);
    assert KeysDistinct(groups) by {
      forall i, j | 0 <= i < j < |groups| ensures groups[i].swapper != groups[j].swapper {
        assert groups[i].swapper == keys[i] && groups[j].swapper == keys[j];
      }
    }
    SortKeepsKeysDistinct(groups);
    forall i | 0 <= i < |r|
      ensures Active(events, now, r[i].swapper)
      ensures r[i].buySum == WindowSum(events, now, r[i].swapper, Buy)
      ensures r[i].sellSum == WindowSum(events, now, r[i].swapper, Sell)
      ensures r[i].totalSum == WindowSum(events, now, r[i].swapper, Total)
    {
      assert r[i] in multiset(r);
      assert r[i] in groups;
      GroupRowFacts(events, now, r[i]);
    }
    forall k | Active(events, now, k)
      ensures exists i :: 0 <= i < |r| && r[i].swapper == k
    {
      SwappersOfWindow(events, now, k);
      var m :| 0 <= m < |keys| && keys[m] == k;
      assert groups[m] in multiset(groups);
      assert groups[m] in r;
      var i :| 0 <= i < |r| && r[i] == groups[m];
    }
  }

  /** Appending an event to the table changes a windowed sum by that event's part, if any. */
  lemma {:induction false} WindowSumAppend(events: seq<SwapEvent>, e: SwapEvent, now: int, k: SwapperValue, col: Column)
    ensures WindowSum(events + [e], now, k, col)
            == WindowSum(events, now, k, col) + (if e.swapper == k && InWindow(e, now) then Part(col, e) else 0)
  {
    if |events| > 0 {
      assert (events + [e])[1..] == events[1..] + [e];
      WindowSumAppend(events[1..], e, now, k, col);
    } else {
      assert ([e])[1..] == [];
    }
  }

  /**
    An event whose `is_buy` is null adds its value to the total only,
    and an event outside the window adds nothing.
  */
  lemma NullSideCountsInTotalOnly(events: seq<SwapEvent>, e: SwapEvent, now: int)
    requires e.isBuy.None? && InWindow(e, now)
    ensures WindowSum(events + [e], now, e.swapper, Buy) == WindowSum(events, now, e.swapper, Buy)
    ensures WindowSum(events + [e], now, e.swapper, Sell) == WindowSum(events, now, e.swapper, Sell)
    ensures WindowSum(events + [e], now, e.swapper, Total) == WindowSum(events, now, e.swapper, Total) + Coalesce(e.usdValue)
  {
    WindowSumAppend(events, e, now, e.swapper, Buy);
    WindowSumAppend(events, e, now, e.swapper, Sell);
    WindowSumAppend(events, e, now, e.swapper, Total);
  }

  /** When no event has a null `is_buy`, buys and sells make up the total. */
  lemma {:induction false} SidedTotal(events: seq<SwapEvent>, now: int, k: SwapperValue)
    requires forall j :: 0 <= j < |events| ==> events[j].isBuy.Some?
    ensures WindowSum(events, now, k, Total) == WindowSum(events, now, k, Buy) + WindowSum(events, now, k, Sell)
  {
    if |events| > 0 {
      assert forall j :: 0 <= j < |events[1..]| ==> events[1..][j] == events[j + 1];
      SidedTotal(events[1..], now, k);
      var e := events[0];
      if e.isBuy.value {
        assert Part(Buy, e) == Coalesce(e.usdValue) && Part(Sell, e) == 0;
      } else {
        assert Part(Buy, e) == 0 && Part(Sell, e) == Coalesce(e.usdValue);
      }
    }
  }

  /** The window filter distributes over concatenation of tables. */
  lemma {:induction false} WindowAppend(a: seq<SwapEvent>, b: seq<SwapEvent>, now: int)
    ensures Window(a + b, now) == Window(a, now) + Window(b, now)
  {
    if |a| > 0 {
      assert (a + b)[1..] == a[1..] + b;
      WindowAppend(a[1..], b, now);
    } else {
      assert a + b == b;
    }
  }

  /** An event older than the window has no effect on the query's result, wherever it sits in the table. */
  lemma StaleEventIgnored(a: seq<SwapEvent>, e: SwapEvent, b: seq<SwapEvent>, now: int)
    requires !InWindow(e, now)
    ensures AggregateSums(a + [e] + b, now) == AggregateSums(a + b, now)
    ensures TwoHourVolume(a + [e] + b, now) == TwoHourVolume(a + b, now)
  {
    WindowAppend(a + [e], b, now);
    WindowAppend(a, [e], now);
    WindowAppend(a, b, now);
    assert Window([e], now) == [];
    assert Window(a, now) + [] == Window(a, now);
    assert Window(a + [e] + b, now) == Window(a + b, now);
  }

  /** The window bound is inclusive: an event exactly 120 minutes old still counts. */
  lemma WindowBoundary(e: SwapEvent, now: int)
    ensures e.timestamp == now - 7200 ==> InWindow(e, now)
    ensures e.timestamp == now - 7201 ==> !InWindow(e, now)
  {
  }

  /**
    The scaled rows are in non-increasing `total_usd` order, with distinct
    swappers, each value its swapper's windowed sum over its divisor.
  */
  lemma TwoHourVolumeSpec(events: seq<SwapEvent>, now: int)
    ensures var r := TwoHourVolume(events, now);
      forall i, j :: 0 <= i < j < |r| ==> r[i].totalUsd >= r[j].totalUsd && r[i].swapper != r[j].swapper
    ensures var r := TwoHourVolume(events, now);
      forall i :: 0 <= i < |r| ==>
        && Active(events, now, r[i].swapper)
        && r[i].buyUsd == WindowSum(events, now, r[i].swapper, Buy) as real / 10_000_000.0
        && r[i].sellUsd == WindowSum(events, now, r[i].swapper, Sell) as real / 1_000_000.0
        && r[i].totalUsd == WindowSum(events, now, r[i].swapper, Total) as real / 1_000_000.0
    ensures var r := TwoHourVolume(events, now);
      forall k :: Active(events, now, k) ==> exists i :: 0 <= i < |r| && r[i].swapper == k
  {
    AggregateSpec(events, now);
    var g := AggregateSums(events, now);
    var r := TwoHourVolume(events, now);
    forall i, j | 0 <= i < j < |r| ensures r[i].totalUsd >= r[j].totalUsd
    {
      assert g[i].totalSum >= g[j].totalSum;
      assert r[i].totalUsd == g[i].totalSum as real / TotalScale;
      assert r[j].totalUsd == g[j].totalSum as real / TotalScale;
    }
    forall k | Active(events, now, k) ensures exists i :: 0 <= i < |r| && r[i].swapper == k
    {
      var i :| 0 <= i < |g| && g[i].swapper == k;
      assert r[i].swapper == k;
    }
  }

  /** A table whose events all fall inside the window passes the filter whole. */
  lemma {:induction false} WindowKeepsRecent(events: seq<SwapEvent>, now: int)
    requires forall j :: 0 <= j < |events| ==> InWindow(events[j], now)
    ensures Window(events, now) == events
  {
    if |events| > 0 {
      assert forall j :: 0 <= j < |events[1..]| ==> events[1..][j] == events[j + 1];
      WindowKeepsRecent(events[1..], now);
      assert InWindow(events[0], now);
      assert Window(events, now) == [events[0]] + Window(events[1..], now);
      assert events == [events[0]] + events[1..];
    }
  }

  /** A non-empty table of one swapper forms a single group. */
  lemma {:induction false} SingleSwapper(events: seq<SwapEvent>, x: SwapperValue)
    requires |events| > 0
    requires forall j :: 0 <= j < |events| ==> events[j].swapper == x
    ensures Swappers(events) == [x]
  {
    if |events| > 1 {
      var init := events[..|events| - 1];
      assert forall j :: 0 <= j < |init| ==> init[j] == events[j];
      SingleSwapper(init, x);
    }
  }

  /** The three sums of one swapper's 20,000,000 buy, 1,000,000 sell and null-valued buy. */
  lemma WorkedExampleSums(e0: SwapEvent, e1: SwapEvent, e2: SwapEvent, x: SwapperValue)
    requires e0.swapper == x && e0.isBuy == Some(true) && e0.usdValue == Some(20_000_000)
    requires e1.swapper == x && e1.isBuy == Some(false) && e1.usdValue == Some(1_000_000)
    requires e2.swapper == x && e2.isBuy == Some(true) && e2.usdValue.None?
    ensures Group([e0, e1, e2], x) == GroupSums(x, 20_000_000, 1_000_000, 21_000_000)
  {
    var events := [e0, e1, e2];
    assert events[1..] == [e1, e2] && [e1, e2][1..] == [e2] && [e2][1..] == [];
    assert GroupSum([e2], x, Buy) == 0 && GroupSum([e2], x, Sell) == 0 && GroupSum([e2], x, Total) == 0;
    assert GroupSum([e1, e2], x, Buy) == 0;
    assert GroupSum([e1, e2], x, Sell) == 1_000_000;
    assert GroupSum([e1, e2], x, Total) == 1_000_000;
  }

  /**
    An example for one swapper: a 20,000,000 buy, a 1,000,000
    sell and a buy with a null value give `buy_usd` 2, `sell_usd` 1 and
    `total_usd` 21 (the buy divisor is ten times the others).
  */
  lemma WorkedExample(x: SwapperValue, now: int)
    ensures TwoHourVolume([SwapEvent(x, Some(true), Some(20_000_000), now),
                           SwapEvent(x, Some(false), Some(1_000_000), now),
                           SwapEvent(x, Some(true), None, now)], now)
            == [VolumeRow(x, 2.0, 1.0, 21.0)]
  {
    var e0 := SwapEvent(x, Some(true), Some(20_000_000), now);
    var e1 := SwapEvent(x, Some(false), Some(1_000_000), now);
    var e2 := SwapEvent(x, Some(true), None, now);
    var events := [e0, e1, e2];
    WindowKeepsRecent(events, now);
    SingleSwapper(events, x);
    WorkedExampleSums(e0, e1, e2, x);
    var g := GroupSums(x, 20_000_000, 1_000_000, 21_000_000);
    assert Groups(events, [x]) == [g];
    assert AggregateSums(events, now) == [g];
    assert Scale(g) == VolumeRow(x, 2.0, 1.0, 21.0);
  }
}
