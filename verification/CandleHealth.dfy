/**
 * Health of a window of completed one-minute candles: every missing minute is verified as no-trade,
 * deferred, or refreshable, and the three counts add up.
 */
module CandleHealth {
  import opened Minutes
  import opened Sorting
  import opened Spans
  import opened SpanAlgebra
  import opened GapRecords
  import opened RetryPolicy

  /** Who is asked, when, and what is known of candles before the window. */
  datatype Context = Context(
    hyperliquid: bool,
    kucoin: bool,
    now: int,
    earlierCandle: int -> bool)

  predicate TouchesWindow(gap: Gap, window: Span) {
    gap.end >= window.0 && gap.start <= window.1
  }

  /** A no-trades gap with a real candle on both sides, the later one inside the window. */
  predicate VerifiedGap(gap: Gap, rows: seq<int>, window: Span, ctx: Context)
    requires NonDecreasing(rows)
  {
    && TouchesWindow(gap, window)
    && gap.ev.reason.NoTrades?
    && gap.end < window.1
    && (SearchSorted(rows, gap.start) != 0 || ctx.earlierCandle(gap.start))
    && SearchSorted(rows, gap.end + 1) < |rows|
  }

  /** A gap with another reason whose retry, ordinary or contextual, is not due. */
  predicate DeferredGap(gap: Gap, window: Span, ctx: Context) {
    && TouchesWindow(gap, window)
    && !gap.ev.reason.NoTrades?
    && !ShouldRetryGap(ctx.hyperliquid, gap, ctx.now)
    && !(ctx.kucoin && KucoinContextualRetryDue(gap, ctx.now))
  }

  function Clip(gap: Gap, window: Span): Span {
    (Max(gap.start, window.0), Min(gap.end, window.1))
  }

  ghost predicate InVerified(gaps: seq<Gap>, rows: seq<int>, window: Span, ctx: Context, t: int)
    requires NonDecreasing(rows)
  {
    exists i :: 0 <= i < |gaps| && Covers(gaps[i], t) && VerifiedGap(gaps[i], rows, window, ctx)
  }

  ghost predicate InDeferred(gaps: seq<Gap>, window: Span, ctx: Context, t: int) {
    exists i :: 0 <= i < |gaps| && Covers(gaps[i], t) && DeferredGap(gaps[i], window, ctx)
  }

  /** The two mask lists, clipped to the window. */
  method Masks(gaps: seq<Gap>, rows: seq<int>, window: Span, ctx: Context)
    returns (verified: seq<Span>, deferred: seq<Span>)
    requires AllWellFormed(gaps) && NonDecreasing(rows) && GridSpan(window) && window.0 <= window.1
    ensures ProperSpans(verified) && ProperSpans(deferred)
    ensures forall t :: SpanCovers(window, t) ==>
      (InSpans(verified, t) <==> InVerified(gaps, rows, window, ctx, t))
    ensures forall t :: SpanCovers(window, t) ==> (InSpans(deferred, t) <==> InDeferred(gaps, window, ctx, t))
  {
    verified, deferred := [], [];
    for i := 0 to |gaps|
      invariant ProperSpans(verified) && ProperSpans(deferred)
      invariant forall t :: SpanCovers(window, t) ==>
        (InSpans(verified, t) <==> InVerified(gaps[..i], rows, window, ctx, t))
      invariant forall t :: SpanCovers(window, t) ==> (InSpans(deferred, t) <==> InDeferred(gaps[..i], window, ctx, t))
    {
      var gap := gaps[i];
      ghost var v, d, upTo := verified, deferred, gaps[..i + 1];
      assert upTo == gaps[..i] + [gap];
      assert WellFormed(gap);
      assert TouchesWindow(gap, window) ==> GridSpan(Clip(gap, window)) && Clip(gap, window).0 <= Clip(gap, window).1;
      if VerifiedGap(gap, rows, window, ctx) {
        verified := verified + [Clip(gap, window)];
      }
      if DeferredGap(gap, window, ctx) {
        deferred := deferred + [Clip(gap, window)];
      }
      forall t | SpanCovers(window, t)
        ensures InSpans(verified, t) <==> InVerified(upTo, rows, window, ctx, t)
        ensures InSpans(deferred, t) <==> InDeferred(upTo, window, ctx, t)
      {
        MaskAppend(gaps[..i], gap, rows, window, ctx, t);
        InSpansAppend(v, Clip(gap, window), t);
        InSpansAppend(d, Clip(gap, window), t);
      }
    }
    assert gaps[..|gaps|] == gaps;
  }

  lemma {:induction false} MaskAppend(gaps: seq<Gap>, gap: Gap, rows: seq<int>, window: Span, ctx: Context, t: int)
    requires NonDecreasing(rows)
    ensures InVerified(gaps + [gap], rows, window, ctx, t) <==>
      InVerified(gaps, rows, window, ctx, t) || (Covers(gap, t) && VerifiedGap(gap, rows, window, ctx))
    ensures InDeferred(gaps + [gap], window, ctx, t) <==>
      InDeferred(gaps, window, ctx, t) || (Covers(gap, t) && DeferredGap(gap, window, ctx))
  {
    var all := gaps + [gap];
    assert Covers(all[|gaps|], t) <==> Covers(gap, t);
    if InVerified(gaps, rows, window, ctx, t) {
      var i :| 0 <= i < |gaps| && Covers(gaps[i], t) && VerifiedGap(gaps[i], rows, window, ctx);
      assert Covers(all[i], t);
    }
    if InDeferred(gaps, window, ctx, t) {
      var i :| 0 <= i < |gaps| && Covers(gaps[i], t) && DeferredGap(gaps[i], window, ctx);
      assert Covers(all[i], t);
    }
  }

  datatype Report = Report(
    missing: seq<Span>,
    verified: seq<Span>,
    deferred: seq<Span>,
    refreshable: seq<Span>)

  /** The report names exactly the right minutes, each list without overlaps. */
  ghost predicate Classified(r: Report, gaps: seq<Gap>, rows: seq<int>, window: Span, ctx: Context)
    requires NonDecreasing(rows)
  {
    && OrderedSpans(r.missing) && OrderedSpans(r.verified)
    && OrderedSpans(r.deferred) && OrderedSpans(r.refreshable)
    && (forall t :: InSpans(r.missing, t) <==> SpanCovers(window, t) && !RowAt(rows, t))
    && (forall t :: InSpans(r.verified, t) <==> InSpans(r.missing, t) && InVerified(gaps, rows, window, ctx, t))
    && (forall t :: InSpans(r.deferred, t) <==> InSpans(r.missing, t) && InDeferred(gaps, window, ctx, t))
    && (forall t :: InSpans(r.refreshable, t) <==>
          InSpans(r.missing, t) && !InSpans(r.verified, t) && !InSpans(r.deferred, t))
  }

  /** The classification of `get_completed_candle_health` for one-minute candles. */
  method Classify(gaps: seq<Gap>, rows: seq<int>, window: Span, ctx: Context) returns (r: Report)
    requires AllWellFormed(gaps) && GridRows(rows) && NonDecreasing(rows) && GridSpan(window)
    ensures Classified(r, gaps, rows, window, ctx)
  {
    var missing := MissingSpans(rows, window.0, window.1);
    if missing == [] {
      r := Report([], [], [], []);
      assert r.missing == missing;
      return;
    }
    assert SpanCovers(missing[0], missing[0].0);
    assert InSpans(missing, missing[0].0);
    if window.1 < window.0 { GridStep(window.1, window.0); }
    var verifiedMasks, deferredMasks := Masks(gaps, rows, window, ctx);
    var merged := MergeSpans(missing);
    var mergedVerified := MergeSpans(verifiedMasks);
    var verified := IntersectSpans(merged, mergedVerified);
    var mergedDeferred := MergeSpans(deferredMasks);
    var deferred := IntersectSpans(merged, mergedDeferred);
    var masks := MergeSpans(verified + deferred);
    forall t ensures InSpans(verified + deferred, t) <==> InSpans(verified, t) || InSpans(deferred, t) {
      InSpansConcat(verified, deferred, t);
    }
    var refreshable := SubtractSpans(merged, masks);
    r := Report(missing, verified, deferred, refreshable);
  }

  // ---------- the verdict on one minute ----------

  /** No trades, with a real candle before the gap, here or earlier, and one behind it inside the window. */
  ghost predicate ProvenEmpty(g: Gap, rows: seq<int>, window: Span, ctx: Context) {
    && g.ev.reason == NoTrades && g.end < window.1
    && ((exists row :: row in rows && row < g.start) || ctx.earlierCandle(g.start))
    && (exists row :: row in rows && g.end < row)
  }

  /** Another reason, not due, nor on KuCoin due for its boundary proof: never asked, or five minutes ago. */
  predicate Waiting(g: Gap, ctx: Context) {
    && g.ev.reason != NoTrades && !ShouldRetryGap(ctx.hyperliquid, g, ctx.now)
    && !(ctx.kucoin && g.ev.reason in {AutoDetected, FetchFailed}
         && (g.ev.lastContextualRetryAt <= 0 || ctx.now - g.ev.lastContextualRetryAt >= 300_000))
  }

  predicate Over(g: Gap, t: int) { g.start <= t < g.end + 60_000 }

  /**
   * A minute of the window without a row is missing; a missing minute is verified under a proven record, deferred
   * under a waiting one, and refreshable under neither.
   */
  lemma {:induction false} MinuteVerdict(r: Report, gaps: seq<Gap>, rows: seq<int>, window: Span, ctx: Context, t: int)
    requires NonDecreasing(rows) && Classified(r, gaps, rows, window, ctx)
    requires AllWellFormed(gaps) && GridSpan(window)
    ensures InSpans(r.missing, t) <==>
      window.0 <= t < window.1 + 60_000 && forall row :: row in rows ==> !(row <= t < row + 60_000)
    ensures InSpans(r.verified, t) <==>
      InSpans(r.missing, t) && exists g :: g in gaps && Over(g, t) && ProvenEmpty(g, rows, window, ctx)
    ensures InSpans(r.deferred, t) <==>
      InSpans(r.missing, t) && exists g :: g in gaps && Over(g, t) && Waiting(g, ctx)
    ensures InSpans(r.refreshable, t) <==>
      && InSpans(r.missing, t)
      && forall g :: g in gaps && Over(g, t) ==> !ProvenEmpty(g, rows, window, ctx) && !Waiting(g, ctx)
  {
    assert RowAt(rows, t) <==> exists row :: row in rows && row <= t < row + 60_000 by { RowAtElement(rows, t); }
    if SpanCovers(window, t) {
      VerifiedElement(gaps, rows, window, ctx, t);
      DeferredElement(gaps, window, ctx, t);
    }
  }

  lemma {:induction false} RowAtElement(rows: seq<int>, t: int)
    ensures RowAt(rows, t) <==> exists row :: row in rows && row <= t < row + 60_000
  {
    if RowAt(rows, t) {
      var i :| 0 <= i < |rows| && RowCovers(rows[i], t);
      var row: int := rows[i];
      assert row in rows;
    }
    if exists row :: row in rows && row <= t < row + 60_000 {
      var row :| row in rows && row <= t < row + 60_000;
      var i :| 0 <= i < |rows| && rows[i] == row;
      assert RowCovers(rows[i], t);
    }
  }

  lemma {:induction false} VerifiedElement(gaps: seq<Gap>, rows: seq<int>, window: Span, ctx: Context, t: int)
    requires NonDecreasing(rows) && AllWellFormed(gaps) && GridSpan(window) && SpanCovers(window, t)
    ensures InVerified(gaps, rows, window, ctx, t) <==>
      exists g :: g in gaps && Over(g, t) && ProvenEmpty(g, rows, window, ctx)
  {
    forall i | 0 <= i < |gaps| && Covers(gaps[i], t)
      ensures VerifiedGap(gaps[i], rows, window, ctx) <==> ProvenEmpty(gaps[i], rows, window, ctx)
    {
      CoversTouches(gaps[i], window, t);
      RowsAround(rows, gaps[i].start, gaps[i].end);
    }
    if InVerified(gaps, rows, window, ctx, t) {
      var i :| 0 <= i < |gaps| && Covers(gaps[i], t) && VerifiedGap(gaps[i], rows, window, ctx);
      assert gaps[i] in gaps && Over(gaps[i], t);
    }
    if exists g :: g in gaps && Over(g, t) && ProvenEmpty(g, rows, window, ctx) {
      var g :| g in gaps && Over(g, t) && ProvenEmpty(g, rows, window, ctx);
      var i :| 0 <= i < |gaps| && gaps[i] == g;
      assert Covers(gaps[i], t);
    }
  }

  lemma {:induction false} DeferredElement(gaps: seq<Gap>, window: Span, ctx: Context, t: int)
    requires AllWellFormed(gaps) && GridSpan(window) && SpanCovers(window, t)
    ensures InDeferred(gaps, window, ctx, t) <==> exists g :: g in gaps && Over(g, t) && Waiting(g, ctx)
  {
    forall i | 0 <= i < |gaps| && Covers(gaps[i], t)
      ensures DeferredGap(gaps[i], window, ctx) <==> Waiting(gaps[i], ctx)
    {
      CoversTouches(gaps[i], window, t);
    }
    if InDeferred(gaps, window, ctx, t) {
      var i :| 0 <= i < |gaps| && Covers(gaps[i], t) && DeferredGap(gaps[i], window, ctx);
      assert gaps[i] in gaps && Over(gaps[i], t);
    }
    if exists g :: g in gaps && Over(g, t) && Waiting(g, ctx) {
      var g :| g in gaps && Over(g, t) && Waiting(g, ctx);
      var i :| 0 <= i < |gaps| && gaps[i] == g;
      assert Covers(gaps[i], t);
    }
  }

  lemma {:induction false} CoversTouches(g: Gap, window: Span, t: int)
    requires WellFormed(g) && GridSpan(window) && SpanCovers(window, t) && Covers(g, t)
    ensures TouchesWindow(g, window)
  {
    if g.end < window.0 { GridStep(g.end, window.0); }
    if window.1 < g.start { GridStep(window.1, g.start); }
  }

  /** What the two searches find. */
  lemma {:induction false} RowsAround(rows: seq<int>, start: int, end: int)
    requires NonDecreasing(rows)
    ensures SearchSorted(rows, start) != 0 <==> exists row :: row in rows && row < start
    ensures SearchSorted(rows, end + 1) < |rows| <==> exists row :: row in rows && end < row
  {
    var a, b := SearchSorted(rows, start), SearchSorted(rows, end + 1);
    if a != 0 { var row: int := rows[0]; assert row in rows && row < start; }
    if b < |rows| { var row: int := rows[b]; assert row in rows && end < row; }
    forall row | row in rows
      ensures row < start ==> a != 0
      ensures end < row ==> b < |rows|
    {
      var i :| 0 <= i < |rows| && rows[i] == row;
    }
  }

  /** `span_candle_count` of the four lists. */
  function Counts(r: Report): (int, int, int, int) {
    (SpanCount(r.missing), SpanCount(r.verified), SpanCount(r.deferred), SpanCount(r.refreshable))
  }

  /** Minutes that are both verified and deferred, as only overlapping records can make them. */
  ghost function BothIn(r: Report, lo: int, hi: int): nat
    decreases hi - lo
  {
    if hi <= lo then 0
    else
      BothIn(r, lo, hi - 1)
      + if InSpans(r.verified, (hi - 1) * 60_000) && InSpans(r.deferred, (hi - 1) * 60_000) then 1 else 0
  }

  lemma {:induction false} MinutesAddUp(r: Report, gaps: seq<Gap>, rows: seq<int>, window: Span, ctx: Context,
                                        lo: int, hi: int)
    requires NonDecreasing(rows) && Classified(r, gaps, rows, window, ctx)
    ensures MinutesIn(r.verified, lo, hi) + MinutesIn(r.deferred, lo, hi) + MinutesIn(r.refreshable, lo, hi)
         == MinutesIn(r.missing, lo, hi) + BothIn(r, lo, hi)
    decreases hi - lo
  {
    if lo < hi { MinutesAddUp(r, gaps, rows, window, ctx, lo, hi - 1); }
  }

  lemma {:induction false} InsideWindow(spans: seq<Span>, window: Span)
    requires OrderedSpans(spans) && GridSpan(window)
    requires forall t :: InSpans(spans, t) ==> SpanCovers(window, t)
    ensures Within(spans, window.0 / 60_000, window.1 / 60_000 + 1)
  {
    forall i | 0 <= i < |spans|
      ensures window.0 / 60_000 * 60_000 <= spans[i].0 && spans[i].1 < (window.1 / 60_000 + 1) * 60_000
    {
      assert SpanCovers(spans[i], spans[i].0) && SpanCovers(spans[i], spans[i].1);
      assert InSpans(spans, spans[i].0) && InSpans(spans, spans[i].1);
    }
  }

  /**
   * Conservation: the verified, deferred and refreshable counts exceed the missing count by the
   * doubly classified minutes, and with a normalised ledger there are none.
   */
  lemma {:induction false} CountsAddUp(r: Report, gaps: seq<Gap>, rows: seq<int>, window: Span, ctx: Context)
    requires NonDecreasing(rows) && GridSpan(window) && window.0 <= window.1
    requires Classified(r, gaps, rows, window, ctx)
    ensures var (missing, verified, deferred, refreshable) := Counts(r);
      && verified + deferred + refreshable
         == missing + BothIn(r, window.0 / 60_000, window.1 / 60_000 + 1)
      && (Normal(gaps) ==> verified + deferred + refreshable == missing)
      && missing <= (window.1 - window.0) / 60_000 + 1
  {
    var lo, hi := window.0 / 60_000, window.1 / 60_000 + 1;
    InsideWindow(r.missing, window);
    InsideWindow(r.verified, window);
    InsideWindow(r.deferred, window);
    InsideWindow(r.refreshable, window);
    SpanCountIsMinutes(r.missing, lo, hi);
    SpanCountIsMinutes(r.verified, lo, hi);
    SpanCountIsMinutes(r.deferred, lo, hi);
    SpanCountIsMinutes(r.refreshable, lo, hi);
    MinutesAddUp(r, gaps, rows, window, ctx, lo, hi);
    AtMostAll(r.missing, lo, hi);
    if Normal(gaps) { NothingTwice(r, gaps, rows, window, ctx, lo, hi); }
  }

  /** Under a verified and under a deferred record at once, as only overlapping records can put a minute. */
  ghost predicate DoublyClaimed(gaps: seq<Gap>, rows: seq<int>, window: Span, ctx: Context, t: int)
    requires NonDecreasing(rows)
  {
    && SpanCovers(window, t) && !RowAt(rows, t)
    && InVerified(gaps, rows, window, ctx, t) && InDeferred(gaps, window, ctx, t)
  }

  ghost predicate MinuteClaimed(gaps: seq<Gap>, rows: seq<int>, window: Span, ctx: Context, m: int)
    requires NonDecreasing(rows)
  {
    DoublyClaimed(gaps, rows, window, ctx, m * 60_000)
  }

  lemma {:induction false} BothInCounts(r: Report, gaps: seq<Gap>, rows: seq<int>, window: Span, ctx: Context,
                                        lo: int, hi: int)
    requires NonDecreasing(rows) && Classified(r, gaps, rows, window, ctx)
    ensures BothIn(r, lo, hi) == 0 <==>
      forall m :: lo <= m < hi ==> !MinuteClaimed(gaps, rows, window, ctx, m)
    decreases hi - lo
  {
    if lo < hi {
      BothInCounts(r, gaps, rows, window, ctx, lo, hi - 1);
      assert MinuteClaimed(gaps, rows, window, ctx, hi - 1) <==>
        InSpans(r.verified, (hi - 1) * 60_000) && InSpans(r.deferred, (hi - 1) * 60_000);
    }
  }

  /** The three counts sum to the missing count exactly when no missing minute of the window is doubly claimed. */
  lemma {:induction false} CountsAddUpIff(r: Report, gaps: seq<Gap>, rows: seq<int>, window: Span, ctx: Context)
    requires NonDecreasing(rows) && GridSpan(window) && window.0 <= window.1
    requires Classified(r, gaps, rows, window, ctx)
    ensures var (missing, verified, deferred, refreshable) := Counts(r);
      verified + deferred + refreshable == missing <==>
      forall t :: Aligned(t) ==> !DoublyClaimed(gaps, rows, window, ctx, t)
  {
    var lo, hi := window.0 / 60_000, window.1 / 60_000 + 1;
    CountsAddUp(r, gaps, rows, window, ctx);
    BothInCounts(r, gaps, rows, window, ctx, lo, hi);
    ClaimsOnGrid(gaps, rows, window, ctx);
  }

  /** Looking at the window's minute numbers is looking at all grid times. */
  lemma {:induction false} ClaimsOnGrid(gaps: seq<Gap>, rows: seq<int>, window: Span, ctx: Context)
    requires NonDecreasing(rows) && GridSpan(window)
    ensures (forall m ::
        window.0 / 60_000 <= m < window.1 / 60_000 + 1 ==> !MinuteClaimed(gaps, rows, window, ctx, m))
       <==> (forall t :: Aligned(t) ==> !DoublyClaimed(gaps, rows, window, ctx, t))
  {
    forall t | Aligned(t) && DoublyClaimed(gaps, rows, window, ctx, t)
      ensures exists m :: window.0 / 60_000 <= m < window.1 / 60_000 + 1 && MinuteClaimed(gaps, rows, window, ctx, m)
    {
      var m := t / 60_000;
      assert m * 60_000 == t;
      assert MinuteClaimed(gaps, rows, window, ctx, m);
    }
    forall m | MinuteClaimed(gaps, rows, window, ctx, m)
      ensures exists t :: Aligned(t) && DoublyClaimed(gaps, rows, window, ctx, t)
    {
      var t := m * 60_000;
      assert Aligned(t) && DoublyClaimed(gaps, rows, window, ctx, t);
    }
  }

  /** One missing minute under a no-trades record and a deferred record is counted twice. */
  lemma {:induction false} CountedTwice(r: Report)
    requires Classified(r, OverlappingRecords(), [0, 120_000], (0, 120_000), Context(false, false, 0, _ => false))
    ensures var (missing, verified, deferred, refreshable) := Counts(r); verified + deferred + refreshable != missing
  {
    var gaps, rows, window := OverlappingRecords(), [0, 120_000], (0, 120_000);
    var ctx := Context(false, false, 0, _ => false);
    assert Covers(gaps[0], 60_000) && VerifiedGap(gaps[0], rows, window, ctx);
    assert Covers(gaps[1], 60_000) && DeferredGap(gaps[1], window, ctx);
    assert DoublyClaimed(gaps, rows, window, ctx, 60_000);
    CountsAddUpIff(r, gaps, rows, window, ctx);
  }

  function OverlappingRecords(): seq<Gap> {
    [Gap(60_000, 60_000, Evidence(0, NoTrades, 0, 0, 0)),
     Gap(60_000, 60_000, Evidence(GAP_MAX_RETRIES, FetchFailed, 0, 0, 0))]
  }

  lemma {:induction false} AtMostAll(spans: seq<Span>, lo: int, hi: int)
    requires lo <= hi
    ensures MinutesIn(spans, lo, hi) <= hi - lo
    decreases hi - lo
  {
    if lo < hi { AtMostAll(spans, lo, hi - 1); }
  }

  lemma {:induction false} NothingTwice(r: Report, gaps: seq<Gap>, rows: seq<int>, window: Span, ctx: Context,
                                        lo: int, hi: int)
    requires NonDecreasing(rows) && Classified(r, gaps, rows, window, ctx) && Normal(gaps)
    ensures BothIn(r, lo, hi) == 0
    decreases hi - lo
  {
    if lo < hi {
      NothingTwice(r, gaps, rows, window, ctx, lo, hi - 1);
      var t := (hi - 1) * 60_000;
      if InSpans(r.verified, t) {
        var i :| 0 <= i < |gaps| && Covers(gaps[i], t) && VerifiedGap(gaps[i], rows, window, ctx);
        AtDisjoint(gaps, i, t);
      }
    }
  }
}
