/** Expanding one higher-timeframe candle into deterministic one-minute candles, over the reals. */
module CandleExpansion {
  import opened Wrappers
  import opened Minutes
  import opened Candles

  function MaxR(a: real, b: real): real { if a >= b then a else b }

  function MinR(a: real, b: real): real { if a <= b then a else b }

  function Clamp(x: real, lo: real, hi: real): (r: real)
    ensures lo <= hi ==> lo <= r <= hi
    ensures lo <= x <= hi ==> r == x
  {
    MinR(MaxR(x, lo), hi)
  }

  /** High and low in order, open and close between them. */
  function Normalized(c: Candle): (r: Candle)
    ensures r.l <= r.o <= r.h && r.l <= r.c <= r.h
  {
    var h, l := MaxR(c.h, c.l), MinR(c.h, c.l);
    c.(h := h, l := l, o := Clamp(c.o, l, h), c := Clamp(c.c, l, h))
  }

  type Waypoint = (int, real)

  function PivotA(minutes: int): int { Min(minutes - 1, Max(1, minutes / 3)) }

  function PivotB(minutes: int): int { Min(minutes - 1, Max(PivotA(minutes) + 1, 2 * minutes / 3)) }

  /** A rising candle visits its low first, a falling one its high. */
  function Waypoints(c: Candle, minutes: int): seq<Waypoint> {
    var a, b, last := PivotA(minutes), PivotB(minutes), minutes - 1;
    if c.c >= c.o then [(0, c.o), (a, c.l), (b, c.h), (last, c.c)]
    else [(0, c.o), (a, c.h), (b, c.l), (last, c.c)]
  }

  function HighIndex(c: Candle, minutes: int): int {
    if c.c >= c.o then PivotB(minutes) else PivotA(minutes)
  }

  function LowIndex(c: Candle, minutes: int): int {
    if c.c >= c.o then PivotA(minutes) else PivotB(minutes)
  }

  /** A waypoint at an index already reached replaces the previous one. */
  function Deduped(w: seq<Waypoint>): seq<Waypoint>
    requires w != []
  {
    if |w| == 1 then w
    else
      var d, next := Deduped(w[..|w| - 1]), w[|w| - 1];
      if d == [] || next.0 > d[|d| - 1].0 then d + [next] else d[..|d| - 1] + [next]
  }

  function Interpolate(from: Waypoint, to: Waypoint, k: int): real
    requires from.0 < to.0
  {
    from.1 + (to.1 - from.1) * ((k - from.0) as real / (to.0 - from.0) as real)
  }

  predicate Rising(w: seq<Waypoint>) {
    forall i, j :: 0 <= i < j < |w| ==> w[i].0 < w[j].0
  }

  /** The piecewise linear path through the waypoints, clamped to the candle's range. */
  function PathAt(w: seq<Waypoint>, k: int, l: real, h: real): real
    requires w != [] && Rising(w)
  {
    var n := |w| - 1;
    if n == 0 then w[0].1
    else if k >= w[n - 1].0 then Clamp(Interpolate(w[n - 1], w[n], k), l, h)
    else PathAt(w[..n], k, l, h)
  }

  /** Minute `k` of the expansion of a normalised candle. */
  function MinuteOf(c: Candle, minutes: int, w: seq<Waypoint>, k: nat): Candle
    requires w != [] && Rising(w) && minutes > 0
  {
    var open := if k == 0 then c.o else PathAt(w, k - 1, c.l, c.h);
    var close := PathAt(w, k, c.l, c.h);
    var high, low := MaxR(open, close), MinR(open, close);
    Candle(
      c.ts + k * 60_000,
      open,
      if k == HighIndex(c, minutes) then MaxR(high, c.h) else high,
      if k == LowIndex(c, minutes) then MinR(low, c.l) else low,
      close,
      c.bv / (minutes as real))
  }

  lemma {:induction false} DedupedShape(c: Candle, minutes: int)
    requires minutes > 1
    ensures var w := Deduped(Waypoints(c, minutes));
      && |w| >= 2 && Rising(w)
      && w[0] == (0, c.o) && w[|w| - 1] == (minutes - 1, c.c)
  {
    Pivots(minutes);
    DedupedRises(Waypoints(c, minutes));
  }

  lemma {:induction false} Pivots(minutes: int)
    requires minutes > 1
    ensures 0 < PivotA(minutes) <= PivotB(minutes) <= minutes - 1
  {}

  /** Waypoints in order, the second behind the first: what is left rises and keeps both ends. */
  lemma {:induction false} DedupedRises(w: seq<Waypoint>)
    requires w != [] && (forall i :: 0 < i < |w| ==> w[i - 1].0 <= w[i].0)
    requires |w| > 1 ==> w[0].0 < w[1].0
    ensures var d := Deduped(w);
      && d != [] && (|w| > 1 ==> |d| > 1) && Rising(d)
      && d[0] == w[0] && d[|d| - 1] == w[|w| - 1]
  {
    if |w| > 1 {
      var init, next := w[..|w| - 1], w[|w| - 1];
      DedupedRises(init);
      var d := Deduped(init);
      assert d[|d| - 1] == init[|init| - 1] == w[|w| - 2];
      RisingNext(d, next);
      assert Deduped(w) == if next.0 > d[|d| - 1].0 then d + [next] else d[..|d| - 1] + [next];
    }
  }

  lemma {:induction false} RisingNext(d: seq<Waypoint>, next: Waypoint)
    requires d != [] && Rising(d) && d[|d| - 1].0 <= next.0
    ensures d[|d| - 1].0 < next.0 ==> Rising(d + [next])
    ensures d[|d| - 1].0 == next.0 ==> Rising(d[..|d| - 1] + [next])
  {}

  /** The expansion of one candle. */
  function Expansion(candle: Candle, minutes: int): (r: seq<Candle>)
    requires minutes > 0
    ensures |r| == minutes
  {
    var c := Normalized(candle);
    if minutes == 1 then [c]
    else
      DedupedShape(c, minutes);
      var w := Deduped(Waypoints(c, minutes));
      seq(minutes, k requires 0 <= k < minutes => MinuteOf(c, minutes, w, k))
  }

  /** `ohlcv_xm_to_1m`: refuses an empty period, else builds the path and then the minutes. */
  method ExpandToMinutes(candle: Candle, minutes: int) returns (r: Result<seq<Candle>, string>)
    ensures minutes <= 0 <==> r.Err?
    ensures r.Ok? ==> r.value == Expansion(candle, minutes)
  {
    if minutes <= 0 {
      return Err("minutes must be > 0");
    }
    var c := Normalized(candle);
    if minutes == 1 {
      assert c.bv / 1.0 == c.bv;
      return Ok([c]);
    }
    DedupedShape(c, minutes);
    var w := Deduped(Waypoints(c, minutes));
    var path := ClosePath(c, minutes, w);
    var rows := BuildMinutes(c, minutes, w, path);
    r := Ok(rows);
  }

  /** The minutes in order, each opening at the close before it. */
  method BuildMinutes(c: Candle, minutes: int, w: seq<Waypoint>, path: seq<real>) returns (out: seq<Candle>)
    requires minutes > 0 && w != [] && Rising(w) && |path| == minutes
    requires forall k :: 0 <= k < minutes ==> path[k] == PathAt(w, k, c.l, c.h)
    ensures out == seq(minutes, k requires 0 <= k < minutes => MinuteOf(c, minutes, w, k))
  {
    out := [];
    var prevClose := c.o;
    for k := 0 to minutes
      invariant |out| == k
      invariant prevClose == if k == 0 then c.o else path[k - 1]
      invariant forall i :: 0 <= i < k ==> out[i] == MinuteOf(c, minutes, w, i)
    {
      var open, close := prevClose, path[k];
      var high, low := MaxR(open, close), MinR(open, close);
      if k == HighIndex(c, minutes) {
        high := MaxR(high, c.h);
      }
      if k == LowIndex(c, minutes) {
        low := MinR(low, c.l);
      }
      out := out + [Candle(c.ts + k * 60_000, open, high, low, close, c.bv / (minutes as real))];
      prevClose := close;
    }
  }

  /** Fills the closes segment by segment; a shared waypoint is written twice with the same value. */
  method ClosePath(c: Candle, minutes: int, w: seq<Waypoint>) returns (path: seq<real>)
    requires minutes > 1 && |w| >= 2 && Rising(w)
    requires w[0] == (0, c.o) && w[|w| - 1].0 == minutes - 1
    ensures |path| == minutes
    ensures forall k :: 0 <= k < minutes ==> path[k] == PathAt(w, k, c.l, c.h)
  {
    path := seq(minutes, _ => c.o);
    for j := 0 to |w| - 1
      invariant |path| == minutes
      invariant forall k :: 0 <= k < w[j].0 ==> path[k] == PathAt(w[..j + 1], k, c.l, c.h)
      invariant j > 0 ==> path[w[j].0] == PathAt(w[..j + 1], w[j].0, c.l, c.h)
    {
      var from, to := w[j], w[j + 1];
      assert to.0 <= minutes - 1 by { assert j + 1 == |w| - 1 || w[j + 1].0 < w[|w| - 1].0; }
      assert 0 <= from.0 by { assert j == 0 || w[0].0 < w[j].0; }
      ghost var before, upTo := path, w[..j + 2];
      assert upTo[..j + 1] == w[..j + 1];
      for m := from.0 to to.0 + 1
        invariant |path| == minutes
        invariant forall k :: 0 <= k < from.0 ==> path[k] == before[k]
        invariant forall k :: from.0 <= k < m ==> path[k] == Clamp(Interpolate(from, to, k), c.l, c.h)
      {
        path := path[m := Clamp(Interpolate(from, to, m), c.l, c.h)];
      }
    }
    assert w[..|w|] == w;
  }

  // ---------- aggregating back ----------

  function Highest(rows: seq<Candle>): real
    requires rows != []
  {
    if |rows| == 1 then rows[0].h else MaxR(Highest(rows[..|rows| - 1]), rows[|rows| - 1].h)
  }

  function Lowest(rows: seq<Candle>): real
    requires rows != []
  {
    if |rows| == 1 then rows[0].l else MinR(Lowest(rows[..|rows| - 1]), rows[|rows| - 1].l)
  }

  function Volume(rows: seq<Candle>): real {
    if rows == [] then 0.0 else Volume(rows[..|rows| - 1]) + rows[|rows| - 1].bv
  }

  /** One candle for a run of candles: first open, last close, extremes, total volume. */
  function Aggregate(rows: seq<Candle>): Candle
    requires rows != []
  {
    Candle(rows[0].ts, rows[0].o, Highest(rows), Lowest(rows), rows[|rows| - 1].c, Volume(rows))
  }

  lemma {:induction false} HighestIs(rows: seq<Candle>, i: nat, h: real)
    requires i < |rows| && rows[i].h == h
    requires forall k :: 0 <= k < |rows| ==> rows[k].h <= h
    ensures Highest(rows) == h
  {
    HighestBelow(rows, h);
    if |rows| > 1 {
      HighestBelow(rows[..|rows| - 1], h);
      if i < |rows| - 1 { HighestIs(rows[..|rows| - 1], i, h); }
    }
  }

  lemma {:induction false} HighestBelow(rows: seq<Candle>, h: real)
    requires rows != [] && forall k :: 0 <= k < |rows| ==> rows[k].h <= h
    ensures Highest(rows) <= h
  {
    if |rows| > 1 { HighestBelow(rows[..|rows| - 1], h); }
  }

  lemma {:induction false} LowestIs(rows: seq<Candle>, i: nat, l: real)
    requires i < |rows| && rows[i].l == l
    requires forall k :: 0 <= k < |rows| ==> rows[k].l >= l
    ensures Lowest(rows) == l
  {
    LowestAbove(rows, l);
    if |rows| > 1 {
      LowestAbove(rows[..|rows| - 1], l);
      if i < |rows| - 1 { LowestIs(rows[..|rows| - 1], i, l); }
    }
  }

  lemma {:induction false} LowestAbove(rows: seq<Candle>, l: real)
    requires rows != [] && forall k :: 0 <= k < |rows| ==> rows[k].l >= l
    ensures Lowest(rows) >= l
  {
    if |rows| > 1 { LowestAbove(rows[..|rows| - 1], l); }
  }

  lemma {:induction false} EvenVolume(rows: seq<Candle>, v: real)
    requires forall k :: 0 <= k < |rows| ==> rows[k].bv == v
    ensures Volume(rows) == |rows| as real * v
  {
    if rows != [] { EvenVolume(rows[..|rows| - 1], v); }
  }

  lemma {:induction false} PathInRange(w: seq<Waypoint>, k: int, l: real, h: real)
    requires w != [] && Rising(w) && l <= w[0].1 <= h
    ensures l <= PathAt(w, k, l, h) <= h
  {
    if |w| > 1 && k < w[|w| - 2].0 { PathInRange(w[..|w| - 1], k, l, h); }
  }

  lemma {:induction false} PathStarts(w: seq<Waypoint>, l: real, h: real)
    requires |w| >= 1 && Rising(w) && w[0].0 == 0 && l <= w[0].1 <= h
    ensures PathAt(w, 0, l, h) == w[0].1
  {
    if |w| > 2 {
      PathStarts(w[..|w| - 1], l, h);
    } else if |w| == 2 {
      assert Interpolate(w[0], w[1], 0) == w[0].1;
    }
  }

  lemma {:induction false} PathEnds(w: seq<Waypoint>, l: real, h: real)
    requires |w| >= 2 && Rising(w) && l <= w[|w| - 1].1 <= h
    ensures PathAt(w, w[|w| - 1].0, l, h) == w[|w| - 1].1
  {
    var from, to := w[|w| - 2], w[|w| - 1];
    var d := (to.0 - from.0) as real;
    assert (to.0 - from.0) as real / d == 1.0;
    assert Interpolate(from, to, to.0) == to.1;
  }

  lemma {:induction false} MinuteInRange(c: Candle, minutes: int, w: seq<Waypoint>, k: nat)
    requires minutes > 0 && w != [] && Rising(w)
    requires c.l <= c.o <= c.h && c.l <= w[0].1 <= c.h
    ensures var m := MinuteOf(c, minutes, w, k);
      c.l <= m.l <= m.o <= m.h <= c.h && m.l <= m.c <= m.h
  {
    PathInRange(w, k, c.l, c.h);
    PathInRange(w, k - 1, c.l, c.h);
  }

  /** Each minute opens at the prior close and keeps its prices between its low and its high. */
  lemma {:induction false} MinutesAreChained(candle: Candle, minutes: int, k: nat)
    requires k < minutes
    ensures var rows := Expansion(candle, minutes);
      && rows[k].ts == candle.ts + k * 60_000
      && (k > 0 ==> rows[k].o == rows[k - 1].c)
      && rows[k].l <= rows[k].o <= rows[k].h && rows[k].l <= rows[k].c <= rows[k].h
      && Normalized(candle).l <= rows[k].l && rows[k].h <= Normalized(candle).h
  {
    if minutes > 1 {
      var c := Normalized(candle);
      DedupedShape(c, minutes);
      var w := Deduped(Waypoints(c, minutes));
      MinuteInRange(c, minutes, w, k);
    }
  }

  /** Expanding to any number of minutes and aggregating back returns the normalised candle. */
  lemma {:induction false} AggregateOfExpansion(candle: Candle, minutes: int)
    requires minutes > 0
    ensures Aggregate(Expansion(candle, minutes)) == Normalized(candle)
  {
    var c := Normalized(candle);
    if minutes == 1 {
      assert [c][..0] == [];
      assert Volume([c]) == c.bv;
    } else {
      DedupedShape(c, minutes);
      AggregateOfPath(c, minutes, Deduped(Waypoints(c, minutes)), Expansion(candle, minutes));
    }
  }

  lemma {:induction false} AggregateOfPath(c: Candle, minutes: int, w: seq<Waypoint>, rows: seq<Candle>)
    requires minutes > 1 && |w| >= 2 && Rising(w) && c.l <= c.o <= c.h && c.l <= c.c <= c.h
    requires w[0] == (0, c.o) && w[|w| - 1] == (minutes - 1, c.c)
    requires |rows| == minutes && forall k :: 0 <= k < minutes ==> rows[k] == MinuteOf(c, minutes, w, k)
    ensures Aggregate(rows) == c
  {
    ExtremesOfPath(c, minutes, w, rows);
    VolumeOfPath(c, minutes, w, rows);
    PathEnds(w, c.l, c.h);
    assert rows[0].o == c.o && rows[0].ts == c.ts;
    assert rows[minutes - 1].c == c.c;
  }

  lemma {:induction false} ExtremesOfPath(c: Candle, minutes: int, w: seq<Waypoint>, rows: seq<Candle>)
    requires minutes > 1 && |w| >= 2 && Rising(w) && c.l <= c.o <= c.h && w[0] == (0, c.o)
    requires |rows| == minutes && forall k :: 0 <= k < minutes ==> rows[k] == MinuteOf(c, minutes, w, k)
    ensures Highest(rows) == c.h && Lowest(rows) == c.l
  {
    forall k | 0 <= k < minutes ensures c.l <= rows[k].l && rows[k].h <= c.h {
      MinuteInRange(c, minutes, w, k);
    }
    var hi, lo := HighIndex(c, minutes), LowIndex(c, minutes);
    assert 0 <= hi < minutes && 0 <= lo < minutes;
    assert rows[hi].h >= c.h && rows[lo].l <= c.l;
    HighestIs(rows, hi, c.h);
    LowestIs(rows, lo, c.l);
  }

  lemma {:induction false} VolumeOfPath(c: Candle, minutes: int, w: seq<Waypoint>, rows: seq<Candle>)
    requires minutes > 1 && |w| >= 2 && Rising(w)
    requires |rows| == minutes && forall k :: 0 <= k < minutes ==> rows[k] == MinuteOf(c, minutes, w, k)
    ensures Volume(rows) == c.bv
  {
    forall k | 0 <= k < minutes ensures rows[k].bv == c.bv / (minutes as real) {
      assert rows[k] == MinuteOf(c, minutes, w, k);
    }
    VolumeOfShares(c.bv, minutes as real, rows);
  }

  lemma {:induction false} VolumeOfShares(volume: real, n: real, rows: seq<Candle>)
    requires rows != [] && n == |rows| as real && forall k :: 0 <= k < |rows| ==> rows[k].bv == volume / n
    ensures Volume(rows) == volume
  {
    EvenVolume(rows, volume / n);
    ShareTimes(n, volume);
  }

  lemma {:induction false} ShareTimes(n: real, volume: real)
    requires n != 0.0
    ensures n * (volume / n) == volume
  {}
  // ---------- the path, minute by minute ----------

  /** A close between two waypoints lies on the line between them, inside the candle's range. */
  lemma {:induction false} PathOnSegment(w: seq<Waypoint>, j: nat, k: int, l: real, h: real)
    requires Rising(w) && j + 1 < |w| && w[j].0 <= k < w[j + 1].0
    ensures PathAt(w, k, l, h) == Clamp(Interpolate(w[j], w[j + 1], k), l, h)
  {
    var n := |w| - 1;
    if j + 1 < n {
      assert w[j + 1].0 <= w[n - 1].0;
      PathOnSegment(w[..n], j, k, l, h);
    }
  }

  lemma {:induction false} PathAtWaypoint(w: seq<Waypoint>, j: nat, l: real, h: real)
    requires |w| >= 2 && Rising(w) && j < |w| && l <= w[j].1 <= h
    ensures PathAt(w, w[j].0, l, h) == w[j].1
  {
    if j + 1 < |w| {
      assert w[j].0 < w[j + 1].0;
      PathOnSegment(w, j, w[j].0, l, h);
      assert Interpolate(w[j], w[j + 1], w[j].0) == w[j].1;
    } else {
      PathEnds(w, l, h);
    }
  }

  /** Without coinciding indices all four waypoints stay. */
  lemma {:induction false} DistinctStay(w: seq<Waypoint>)
    requires w != [] && Rising(w)
    ensures Deduped(w) == w
  {
    if |w| > 1 {
      var init := w[..|w| - 1];
      DistinctStay(init);
      assert w == init + [w[|w| - 1]];
    }
  }

  /**
   * The path visits one extreme at a third and the other at two thirds of the period: a rising candle closes on its
   * low first and then on its high, a falling one the other way round.
   */
  lemma {:induction false} ExtremesInOrder(candle: Candle, minutes: int)
    requires minutes >= 4
    ensures var c, rows, a, b := Normalized(candle), Expansion(candle, minutes), minutes / 3, 2 * minutes / 3;
      && rows[a].c == (if c.o <= c.c then c.l else c.h)
      && rows[b].c == (if c.o <= c.c then c.h else c.l)
  {
    var c, w := Normalized(candle), Waypoints(Normalized(candle), minutes);
    Thirds(minutes);
    DistinctStay(w);
    PathAtWaypoint(w, 1, c.l, c.h);
    PathAtWaypoint(w, 2, c.l, c.h);
    assert Expansion(candle, minutes)[minutes / 3] == MinuteOf(c, minutes, w, minutes / 3);
    assert Expansion(candle, minutes)[2 * minutes / 3] == MinuteOf(c, minutes, w, 2 * minutes / 3);
  }

  lemma {:induction false} Thirds(minutes: int)
    requires minutes >= 4
    ensures PivotA(minutes) == minutes / 3 && PivotB(minutes) == 2 * minutes / 3
    ensures 0 < minutes / 3 < 2 * minutes / 3 < minutes - 1
  {}

  /** Open, the two extremes in their order, and close. */
  function Corners(c: Candle, minutes: int): seq<Waypoint> {
    var first, second := if c.o <= c.c then c.l else c.h, if c.o <= c.c then c.h else c.l;
    [(0, c.o), (minutes / 3, first), (2 * minutes / 3, second), (minutes - 1, c.c)]
  }

  /** Between these minutes the closes run straight. */
  lemma {:induction false} ClosesRunStraight(candle: Candle, minutes: int, j: nat, k: nat)
    requires minutes >= 4 && j < 3
    requires var corners := Corners(Normalized(candle), minutes); corners[j].0 <= k <= corners[j + 1].0 < minutes
    ensures var corners := Corners(Normalized(candle), minutes);
      corners[j].0 < corners[j + 1].0 && Expansion(candle, minutes)[k].c == Interpolate(corners[j], corners[j + 1], k)
  {
    var c, w := Normalized(candle), Waypoints(Normalized(candle), minutes);
    Thirds(minutes);
    DistinctStay(w);
    assert w == Corners(c, minutes);
    assert Expansion(candle, minutes)[k] == MinuteOf(c, minutes, w, k);
    if k == w[j + 1].0 {
      PathAtWaypoint(w, j + 1, c.l, c.h);
      LineEnds(w[j], w[j + 1]);
    } else {
      PathOnSegment(w, j, k, c.l, c.h);
      BetweenWaypoints(w[j], w[j + 1], k, c.l, c.h);
    }
  }

  lemma {:induction false} LineEnds(from: Waypoint, next: Waypoint)
    requires from.0 < next.0
    ensures Interpolate(from, next, next.0) == next.1
  {
    var d := (next.0 - from.0) as real;
    assert (next.0 - from.0) as real / d == 1.0;
  }

  /** A line between two values of a range stays in the range. */
  lemma {:induction false} BetweenWaypoints(from: Waypoint, next: Waypoint, k: int, l: real, h: real)
    requires from.0 <= k <= next.0 && from.0 < next.0 && l <= from.1 <= h && l <= next.1 <= h
    ensures l <= Interpolate(from, next, k) <= h
  {
    Ratio(k - from.0, next.0 - from.0);
    Blend(l, from.1, next.1, h, (k - from.0) as real / (next.0 - from.0) as real);
  }

  lemma {:induction false} Ratio(m: int, n: int)
    requires 0 <= m <= n && 0 < n
    ensures 0.0 <= m as real / n as real <= 1.0
  {}

  lemma {:induction false} Blend(l: real, a: real, b: real, h: real, x: real)
    requires l <= a <= h && l <= b <= h && 0.0 <= x <= 1.0
    ensures l <= a + (b - a) * x <= h
  {
    var d, y := b - a, (b - a) * x;
    if a <= b {
      Part(d, x);
      Between(l, a, b, h, y);
    } else {
      Part(-d, x);
      assert y == -(-d * x);
      Between(l, a, b, h, y);
    }
  }

  lemma {:induction false} Between(l: real, a: real, b: real, h: real, y: real)
    requires l <= a <= h && l <= b <= h
    requires if a <= b then 0.0 <= y <= b - a else b - a <= y <= 0.0
    ensures l <= a + y <= h
  {}

  lemma {:induction false} Part(d: real, x: real)
    requires 0.0 <= d && 0.0 <= x <= 1.0
    ensures 0.0 <= d * x <= d
  {
    if x < 1.0 { assert 0.0 <= d * (1.0 - x); }
  }
}
