/**
 * Where each coin's valid window and its first trading bar lie once the one-minute rows have been
 * aggregated into bars of `interval` minutes.
 */
module CandleWindows {
  import opened Minutes
  import opened Sorting

  /** A coin's rows with data, counted in one-minute rows before the leading trim, and its warmup in minutes. */
  datatype CoinMeta = CoinMeta(first: int, last: int, warmup: nat)

  datatype Setup = Setup(
    totalSteps: nat,
    interval: int,
    offset: int,
    timestamps: seq<int>,
    requestedStart: int,
    globalWarmup: nat)

  datatype CoinPlan = CoinPlan(first: int, last: int, warmup: nat, tradeStart: int)

  ghost predicate Sound(s: Setup) {
    s.interval >= 1 && NonDecreasing(s.timestamps) && (s.timestamps == [] || |s.timestamps| == s.totalSteps)
  }

  /** The minute, seen in the untrimmed rows, lies in the coin's range. */
  predicate HasData(s: Setup, m: CoinMeta, minute: int) { m.first <= s.offset + minute <= m.last }

  /** Every minute of the bar has data. */
  ghost predicate Whole(s: Setup, m: CoinMeta, bar: int) {
    && 0 <= bar < s.totalSteps
    && forall minute :: bar * s.interval <= minute < (bar + 1) * s.interval ==> HasData(s, m, minute)
  }

  predicate InWindow(p: CoinPlan, bar: int) { p.first <= bar <= p.last }

  /**
   * The inputs on which bar 0 is let in without data: no bars at all, or one-minute bars of a coin
   * whose range ended before the trimmed rows begin.
   */
  predicate Spurious(s: Setup, m: CoinMeta) {
    s.totalSteps == 0 || (s.interval == 1 && m.last < s.offset && m.first <= s.offset)
  }

  /** Up to that exception the window holds exactly the bars whose every minute has data. */
  ghost predicate WindowIsExact(s: Setup, m: CoinMeta, first: int, last: int) {
    forall bar :: first <= bar <= last <==> Whole(s, m, bar) || (bar == 0 && Spurious(s, m))
  }

  /** `math.ceil(a / k)`. */
  function CeilDiv(a: int, k: int): (q: int)
    requires k >= 1
    ensures (q - 1) * k < a <= q * k
  {
    var q := -((-a) / k);
    assert -a == (-a) / k * k + (-a) % k;
    assert (q - 1) * k == -((-a) / k * k) - k;
    q
  }

  lemma {:induction false} CeilDivIs(a: int, k: int, b: int)
    requires k >= 1
    ensures CeilDiv(a, k) <= b <==> a <= b * k
  {
    var q := CeilDiv(a, k);
    if q <= b { Scale(q, b, k); } else { Scale(b, q - 1, k); }
  }

  /** The last bar that ends at or before minute `c`. */
  lemma {:induction false} FloorDivIs(c: int, k: int, b: int)
    requires k >= 1
    ensures b <= c / k - 1 <==> (b + 1) * k <= c
  {
    assert c == c / k * k + c % k;
    if b + 1 <= c / k {
      Scale(b + 1, c / k, k);
    } else {
      Scale(c / k + 1, b + 1, k);
      assert (c / k + 1) * k == c / k * k + k;
    }
  }

  lemma {:induction false} Scale(a: int, b: int, k: int)
    requires a <= b && k >= 0
    ensures a * k <= b * k
  {
    assert (b - a) * k >= 0;
    assert (b - a) * k == b * k - a * k;
  }

  lemma {:induction false} WholeIs(s: Setup, m: CoinMeta, bar: int)
    requires s.interval >= 1
    ensures Whole(s, m, bar) <==>
      && 0 <= bar < s.totalSteps
      && m.first - s.offset <= bar * s.interval && (bar + 1) * s.interval <= m.last - s.offset + 1
  {
    var k := s.interval;
    assert (bar + 1) * k == bar * k + k;
    if Whole(s, m, bar) {
      assert HasData(s, m, bar * k) && HasData(s, m, bar * k + k - 1);
    }
  }

  /** Clamping to the rows there are keeps the comparison with a row inside them. */
  lemma {:induction false} BarIn(s: Setup, m: CoinMeta, first: int, last: int, bar: int)
    requires s.interval > 1
    requires first == Min(Max(m.first - s.offset, 0), s.totalSteps * s.interval)
    requires last == Min(Max(m.last - s.offset, 0), s.totalSteps * s.interval - 1)
    requires 0 <= bar < s.totalSteps
    ensures Whole(s, m, bar) <==> CeilDiv(first, s.interval) <= bar <= (last + 1) / s.interval - 1
  {
    var k := s.interval;
    WholeIs(s, m, bar);
    CeilDivIs(first, k, bar);
    FloorDivIs(last + 1, k, bar);
    Scale(0, bar, k);
    Scale(bar + 1, s.totalSteps, k);
    Scale(1, bar + 1, k);
    assert (bar + 1) * k == bar * k + k;
  }

  /** The aggregated indices, before they are kept inside the bars there are. */
  ghost predicate Aggregated(s: Setup, m: CoinMeta, first1m: int, last1m: int, first: int, last: int)
    requires s.interval >= 1
  {
    && first1m == Min(Max(m.first - s.offset, 0), s.totalSteps * s.interval)
    && last1m == Min(Max(m.last - s.offset, 0), s.totalSteps * s.interval - 1)
    && first == (if s.interval > 1 then CeilDiv(first1m, s.interval) else first1m)
    && last == (if s.interval > 1 then (last1m + 1) / s.interval - 1 else last1m)
  }

  lemma {:induction false} AggregatedBounds(s: Setup, m: CoinMeta, first1m: int, last1m: int, first: int, last: int)
    requires s.interval >= 1 && Aggregated(s, m, first1m, last1m, first, last)
    ensures 0 <= first <= s.totalSteps && -1 <= last < s.totalSteps
  {
    var k, total := s.interval, s.totalSteps;
    Scale(0, total, k);
    assert 0 <= first1m <= total * k && -1 <= last1m < total * k;
    if k > 1 {
      ScaledBounds(first1m, last1m, k, total);
    } else {
      assert total * k == total;
    }
  }

  lemma {:induction false} ScaledBounds(first: int, last: int, k: int, total: nat)
    requires k >= 1 && 0 <= first <= total * k && -1 <= last < total * k
    ensures 0 <= CeilDiv(first, k) <= total && 0 <= (last + 1) / k <= total
  {
    CeilDivIs(first, k, -1);
    CeilDivIs(first, k, total);
    FloorDivIs(last + 1, k, total);
    assert (total + 1) * k == total * k + k;
  }

  lemma {:induction false} OneMinuteBar(s: Setup, m: CoinMeta, first: int, last: int, bar: int)
    requires s.interval == 1 && 0 <= bar < s.totalSteps
    requires first == Min(Max(m.first - s.offset, 0), s.totalSteps)
    requires last == Min(Max(m.last - s.offset, 0), s.totalSteps - 1)
    ensures first <= bar <= last <==> Whole(s, m, bar) || (bar == 0 && Spurious(s, m))
  {
    WholeIs(s, m, bar);
    assert bar * s.interval == bar && (bar + 1) * s.interval == bar + 1;
  }

  lemma {:induction false} AggregatedBar(s: Setup, m: CoinMeta, first1m: int, last1m: int, first: int, last: int,
                                         bar: int)
    requires s.interval >= 1 && Aggregated(s, m, first1m, last1m, first, last) && 0 <= bar < s.totalSteps
    ensures first <= bar <= last <==> Whole(s, m, bar) || (bar == 0 && Spurious(s, m))
  {
    if s.interval > 1 {
      BarIn(s, m, first1m, last1m, bar);
    } else {
      assert s.totalSteps * s.interval == s.totalSteps;
      OneMinuteBar(s, m, first, last, bar);
    }
  }

  lemma {:induction false} AggregatedWindow(s: Setup, m: CoinMeta, first1m: int, last1m: int, first: int, last: int)
    requires s.interval >= 1 && Aggregated(s, m, first1m, last1m, first, last)
    ensures 0 <= first <= s.totalSteps && -1 <= last < s.totalSteps
    ensures s.totalSteps > 0 ==> WindowIsExact(s, m, first, last)
  {
    AggregatedBounds(s, m, first1m, last1m, first, last);
    forall bar | s.totalSteps > 0
      ensures first <= bar <= last <==> Whole(s, m, bar) || (bar == 0 && Spurious(s, m))
    {
      if 0 <= bar < s.totalSteps { AggregatedBar(s, m, first1m, last1m, first, last, bar); }
    }
  }

  /**
   * Both indices, also of an empty window: the first bar that starts with data and the last one that ends with it,
   * or when no aggregated bar ends with data the number of bars and zero. With one-minute bars the last index is
   * never below zero.
   */
  ghost predicate EndsExactly(s: Setup, m: CoinMeta, first: int, last: int) {
    if s.totalSteps == 0 then first == last == 0
    else if s.interval > 1 && m.last - s.offset + 1 < s.interval then first == s.totalSteps && last == 0
    else
      && 0 <= first <= s.totalSteps && 0 <= last < s.totalSteps
      && (forall bar :: 0 <= bar < s.totalSteps ==> (first <= bar <==> StartsWithData(s, m, bar)))
      && (forall bar :: 0 <= bar < s.totalSteps ==>
            (bar <= last <==> EndsWithData(s, m, bar) || (s.interval == 1 && bar == 0)))
  }

  predicate StartsWithData(s: Setup, m: CoinMeta, bar: int) { m.first <= s.offset + bar * s.interval }

  predicate EndsWithData(s: Setup, m: CoinMeta, bar: int) { s.offset + bar * s.interval + s.interval - 1 <= m.last }

  lemma {:induction false} AggregatedEnds(s: Setup, m: CoinMeta, first1m: int, last1m: int, first: int, last: int)
    requires s.interval >= 1 && Aggregated(s, m, first1m, last1m, first, last)
    ensures s.totalSteps == 0 ==> first == 0 && last == -1
    ensures s.totalSteps > 0 ==>
      if s.interval > 1 && m.last - s.offset + 1 < s.interval then last == -1 else EndsExactly(s, m, first, last)
  {
    AggregatedBounds(s, m, first1m, last1m, first, last);
    if s.totalSteps > 0 {
      if s.interval > 1 {
        Scale(1, s.totalSteps, s.interval);
        FloorDivIs(last1m + 1, s.interval, -1);
        FloorDivIs(last1m + 1, s.interval, 0);
      }
      forall bar | 0 <= bar < s.totalSteps
        ensures first <= bar <==> StartsWithData(s, m, bar)
        ensures bar <= last <==> EndsWithData(s, m, bar) || (s.interval == 1 && bar == 0)
      {
        EndOfBar(s, m, first1m, last1m, first, last, bar);
      }
    } else {
      assert s.totalSteps * s.interval == 0;
      if s.interval > 1 { CeilDivIs(0, s.interval, 0); }
    }
  }

  lemma {:induction false} EndOfBar(s: Setup, m: CoinMeta, first1m: int, last1m: int, first: int, last: int, bar: int)
    requires s.interval >= 1 && Aggregated(s, m, first1m, last1m, first, last) && 0 <= bar < s.totalSteps
    ensures first <= bar <==> StartsWithData(s, m, bar)
    ensures bar <= last <==> EndsWithData(s, m, bar) || (s.interval == 1 && bar == 0)
  {
    var k := s.interval;
    assert (bar + 1) * k == bar * k + k;
    Scale(0, bar, k);
    Scale(bar + 1, s.totalSteps, k);
    if k > 1 {
      CeilDivIs(first1m, k, bar);
      FloorDivIs(last1m + 1, k, bar);
    } else {
      assert s.totalSteps * k == s.totalSteps && bar * k == bar;
    }
  }

  /** The per-coin indices, step by step as they are reassigned. */
  method PlanWindow(s: Setup, m: CoinMeta) returns (first: int, last: int)
    requires s.interval >= 1
    ensures WindowIsExact(s, m, first, last)
    ensures 0 <= first <= s.totalSteps && 0 <= last <= Max(0, s.totalSteps - 1)
    ensures EndsExactly(s, m, first, last)
  {
    var source := s.totalSteps * s.interval;
    var first1m, last1m := m.first - s.offset, m.last - s.offset;
    if first1m < 0 {
      first1m := 0;
    }
    if last1m < 0 {
      last1m := 0;
    }
    if first1m >= source {
      first1m := source;
    }
    if last1m >= source {
      last1m := source - 1;
    }
    if s.interval > 1 {
      first := CeilDiv(first1m, s.interval);
      last := (last1m + 1) / s.interval - 1;
    } else {
      first, last := first1m, last1m;
    }
    AggregatedWindow(s, m, first1m, last1m, first, last);
    AggregatedEnds(s, m, first1m, last1m, first, last);
    if first >= s.totalSteps {
      first := s.totalSteps;
    }
    if last >= s.totalSteps {
      last := s.totalSteps - 1;
    }
    if last < 0 {
      assert s.totalSteps > 0 ==> !Whole(s, m, 0) && !Spurious(s, m);
      first := s.totalSteps;
      last := 0;
    }
  }

  /** Whenever the exception applies, bar 0 really is without data. */
  lemma {:induction false} SpuriousBarHasNoData(s: Setup, m: CoinMeta)
    requires s.interval >= 1
    ensures (forall bar :: Whole(s, m, bar) || (bar == 0 && Spurious(s, m)) <==> Whole(s, m, bar)) <==> !Spurious(s, m)
  {
    WholeIs(s, m, 0);
  }

  /** A coin with a negative last index and one-minute bars gets bar 0 without data. */
  lemma {:induction false} NegativeLastIndex(s: Setup, m: CoinMeta, first: int, last: int)
    requires s == Setup(1, 1, 0, [], 0, 0) && m == CoinMeta(0, -1, 0) && WindowIsExact(s, m, first, last)
    ensures first <= 0 <= last && !Whole(s, m, 0)
  {
    WholeIs(s, m, 0);
  }

  /** Without rows cut off in front, a coin whose last index is not negative has an exact window. */
  lemma {:induction false} OrdinaryCoinIsExact(s: Setup, m: CoinMeta, first: int, last: int)
    requires s.interval >= 1 && s.totalSteps > 0 && s.offset == 0 && m.last >= 0 && WindowIsExact(s, m, first, last)
    ensures forall bar :: first <= bar <= last <==> Whole(s, m, bar)
  {
    SpuriousBarHasNoData(s, m);
  }

  /** `requested_start_idx`: the first bar that does not start before the requested time. */
  method RequestedIndex(s: Setup) returns (r: int)
    requires Sound(s)
    ensures 0 <= r <= s.totalSteps
    ensures s.timestamps == [] ==> r == 0
    ensures s.timestamps != [] ==>
      forall i :: 0 <= i < |s.timestamps| ==> (r <= i <==> s.requestedStart <= s.timestamps[i])
  {
    r := 0;
    if s.timestamps != [] {
      r := SearchSorted(s.timestamps, s.requestedStart);
      r := Max(0, Min(s.totalSteps, r));
    }
  }

  /** The bar lies in the window, not before the request, with the whole warmup behind it. */
  predicate MayTrade(s: Setup, p: CoinPlan, requested: int, bar: int) {
    InWindow(p, bar) && requested <= bar && (bar - p.first) * s.interval >= p.warmup
  }

  /**
   * Trading starts on the first bar that may trade; with none, on the window's last bar. A request
   * behind the window is kept as it is, and without a window so is whichever of its start and the
   * request is later.
   */
  ghost predicate StartsWell(s: Setup, p: CoinPlan, requested: int) {
    if p.first > p.last then p.tradeStart == Max(p.first, requested)
    else if requested > p.last then p.tradeStart == requested
    else
      && InWindow(p, p.tradeStart) && requested <= p.tradeStart
      && (MayTrade(s, p, requested, p.tradeStart) || p.tradeStart == p.last)
      && forall bar :: MayTrade(s, p, requested, bar) ==> p.tradeStart <= bar
  }

  method TradeStart(s: Setup, first: int, last: int, warmup: nat, requested: int) returns (trade: int)
    requires s.interval >= 1
    ensures StartsWell(s, CoinPlan(first, last, warmup, trade), requested)
  {
    var warmBars: int := warmup;
    if s.interval > 1 {
      warmBars := CeilDiv(warmup, s.interval);
    }
    if first > last {
      trade := Max(first, requested);
    } else if requested > last {
      trade := requested;
    } else {
      trade := Min(last, Max(first + warmBars, requested));
    }
    ghost var p := CoinPlan(first, last, warmup, trade);
    WarmBars(warmup, s.interval, warmBars, trade - first);
    forall bar | first <= last && requested <= last && MayTrade(s, p, requested, bar) ensures trade <= bar {
      WarmBars(warmup, s.interval, warmBars, bar - first);
    }
  }

  lemma {:induction false} WarmBars(warmup: nat, k: int, warmBars: int, bars: int)
    requires k >= 1 && warmBars == if k > 1 then CeilDiv(warmup, k) else warmup
    ensures bars >= warmBars <==> bars * k >= warmup
    ensures warmBars >= 0
  {
    CeilDivIs(warmup, k, bars);
    CeilDivIs(warmup, k, -1);
  }

  ghost predicate WellPlanned(s: Setup, m: CoinMeta, p: CoinPlan, requested: int) {
    && WindowIsExact(s, m, p.first, p.last) && EndsExactly(s, m, p.first, p.last)
    && p.warmup == Max(m.warmup, s.globalWarmup)
    && StartsWell(s, p, requested)
  }

  /** The four per-coin lists of the payload. */
  method PlanCoins(s: Setup, coins: seq<CoinMeta>) returns (plans: seq<CoinPlan>, requested: int)
    requires Sound(s)
    ensures 0 <= requested <= s.totalSteps
    ensures s.timestamps != [] ==>
      forall i :: 0 <= i < |s.timestamps| ==> (requested <= i <==> s.requestedStart <= s.timestamps[i])
    ensures |plans| == |coins|
    ensures forall i :: 0 <= i < |coins| ==> WellPlanned(s, coins[i], plans[i], requested)
  {
    requested := RequestedIndex(s);
    plans := [];
    for i := 0 to |coins|
      invariant |plans| == i
      invariant forall j :: 0 <= j < i ==> WellPlanned(s, coins[j], plans[j], requested)
    {
      var first, last := PlanWindow(s, coins[i]);
      var warmup := Max(coins[i].warmup, s.globalWarmup);
      var trade := TradeStart(s, first, last, warmup, requested);
      var p := CoinPlan(first, last, warmup, trade);
      plans := plans + [p];
    }
  }
}
