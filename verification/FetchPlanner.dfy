/**
 * Two planners that decide what to fetch around known gaps whose retry is not due: one lists the
 * ranges that remain, the other finds only where fetching may begin.
 */
module FetchPlanner {
  import opened Wrappers
  import opened Minutes
  import opened Sorting
  import opened Spans
  import opened GapRecords
  import opened GapSweep
  import opened RetryPolicy

  /** Some record over `t` forbids fetching it now, whatever other records say. */
  ghost predicate Deferred(hyperliquid: bool, gaps: seq<Gap>, now: int, t: int) {
    exists i :: 0 <= i < |gaps| && Covers(gaps[i], t) && !ShouldRetryGap(hyperliquid, gaps[i], now)
  }

  /** The minutes of the request that may be fetched. */
  ghost predicate Fetchable(hyperliquid: bool, gaps: seq<Gap>, now: int, request: Span, t: int) {
    SpanCovers(request, t) && !Deferred(hyperliquid, gaps, now, t)
  }

  ghost predicate SortedByStart(gaps: seq<Gap>) {
    forall i, j :: 0 <= i < j < |gaps| ==> gaps[i].start <= gaps[j].start
  }

  lemma {:induction false} SortedCopy(gaps: seq<Gap>)
    ensures SortedByStart(Sort(gaps, StartLeq))
    ensures forall g :: g in Sort(gaps, StartLeq) <==> g in gaps
    ensures AllWellFormed(gaps) ==> AllWellFormed(Sort(gaps, StartLeq))
  {
    var sorted := Sort(gaps, StartLeq);
    StartPreorder();
    SortSorted(gaps, StartLeq);
    SameElements(gaps, sorted);
    forall i, j | 0 <= i < j < |sorted| ensures sorted[i].start <= sorted[j].start {
      assert StartLeq(sorted[i], sorted[j]);
    }
    if AllWellFormed(gaps) {
      forall i | 0 <= i < |sorted| ensures WellFormed(sorted[i]) {
        assert sorted[i] in sorted;
        var j :| 0 <= j < |gaps| && gaps[j] == sorted[i];
      }
    }
  }

  lemma {:induction false} DeferredSame(hyperliquid: bool, a: seq<Gap>, b: seq<Gap>, now: int, t: int)
    requires forall g :: g in a <==> g in b
    ensures Deferred(hyperliquid, a, now, t) <==> Deferred(hyperliquid, b, now, t)
  {
    if Deferred(hyperliquid, a, now, t) {
      var i :| 0 <= i < |a| && Covers(a[i], t) && !ShouldRetryGap(hyperliquid, a[i], now);
      assert a[i] in a;
      var j :| 0 <= j < |b| && b[j] == a[i];
      assert Covers(b[j], t);
    }
    if Deferred(hyperliquid, b, now, t) {
      var i :| 0 <= i < |b| && Covers(b[i], t) && !ShouldRetryGap(hyperliquid, b[i], now);
      assert b[i] in b;
      var j :| 0 <= j < |a| && a[j] == b[i];
      assert Covers(a[j], t);
    }
  }

  /** The records of a list that touch an inclusive range, in order. */
  function Touching(gaps: seq<Gap>, start: int, end: int): seq<Gap> {
    if gaps == [] then []
    else
      var g := gaps[|gaps| - 1];
      Touching(gaps[..|gaps| - 1], start, end) + (if g.start <= end && g.end >= start then [g] else [])
  }

  lemma {:induction false} TouchingNone(gaps: seq<Gap>, i: nat, start: int, end: int)
    requires i <= |gaps|
    requires forall j :: i <= j < |gaps| ==> gaps[j].start > end || gaps[j].end < start
    ensures Touching(gaps, start, end) == Touching(gaps[..i], start, end)
    decreases |gaps|
  {
    if i < |gaps| {
      var init := gaps[..|gaps| - 1];
      TouchingNone(init, i, start, end);
      assert init[..i] == gaps[..i];
    } else {
      assert gaps[..i] == gaps;
    }
  }

  /** Membership in `Touching`, and what it keeps of the list's order. */
  lemma {:induction false} TouchingElements(gaps: seq<Gap>, start: int, end: int)
    ensures forall g :: g in Touching(gaps, start, end) <==> g in gaps && g.start <= end && g.end >= start
    ensures SortedByStart(gaps) ==> SortedByStart(Touching(gaps, start, end))
  {
    if gaps != [] {
      var init, last := gaps[..|gaps| - 1], gaps[|gaps| - 1];
      TouchingElements(init, start, end);
      assert gaps == init + [last];
      if SortedByStart(gaps) { SortedAppend(init, last, Touching(init, start, end)); }
    }
  }

  lemma {:induction false} SortedAppend(init: seq<Gap>, last: Gap, part: seq<Gap>)
    requires SortedByStart(init + [last]) && forall g :: g in part ==> g in init
    requires SortedByStart(part)
    ensures SortedByStart(part + [last])
  {
    forall i | 0 <= i < |part| ensures part[i].start <= last.start {
      assert part[i] in part;
      var j :| 0 <= j < |init| && init[j] == part[i];
      assert (init + [last])[j].start <= (init + [last])[|init|].start;
    }
  }

  /** The running maximum of the ends. */
  method PrefixMaxima(gaps: seq<Gap>) returns (ends: seq<int>)
    ensures |ends| == |gaps| && NonDecreasing(ends)
    ensures forall i, j :: 0 <= j <= i < |gaps| ==> gaps[j].end <= ends[i]
  {
    ends := [];
    for i := 0 to |gaps|
      invariant |ends| == i && NonDecreasing(ends)
      invariant forall k, j :: 0 <= j <= k < i ==> gaps[j].end <= ends[k]
    {
      ends := ends + [if i == 0 then gaps[i].end else Max(ends[i - 1], gaps[i].end)];
    }
  }

  /** The index that serves overlap queries: the records by start, with the running maximum of their ends. */
  class KnownGapIndex {
    var gaps: seq<Gap>
    var prefixEnds: seq<int>

    ghost predicate Valid()
      reads this
    {
      && SortedByStart(gaps)
      && |prefixEnds| == |gaps|
      && NonDecreasing(prefixEnds)
      && forall i, j :: 0 <= j <= i < |gaps| ==> gaps[j].end <= prefixEnds[i]
    }

    constructor (records: seq<Gap>)
      ensures Valid()
      ensures forall g :: g in gaps <==> g in records
    {
      var sorted := Sort(records, StartLeq);
      SortedCopy(records);
      var ends := PrefixMaxima(sorted);
      gaps, prefixEnds := sorted, ends;
    }

    /** A query answers like a scan of all records. */
    method Overlapping(start: int, end: int) returns (found: seq<Gap>)
      requires Valid()
      ensures found == Touching(gaps, start, end)
    {
      found := [];
      var i := SearchSorted(prefixEnds, start);
      forall j | 0 <= j < i ensures gaps[j].end < start { assert prefixEnds[j] < start; }
      assert Touching(gaps[..i], start, end) == [] by {
        TouchingNone(gaps[..i], 0, start, end);
        assert gaps[..i][..0] == [];
      }
      while i < |gaps|
        invariant 0 <= i <= |gaps|
        invariant found == Touching(gaps[..i], start, end)
      {
        var gap := gaps[i];
        assert gaps[..i + 1][..i] == gaps[..i];
        if gap.start > end {
          break;
        }
        if gap.end >= start {
          found := found + [gap];
        }
        i := i + 1;
      }
      forall j | i <= j < |gaps| ensures gaps[j].start > end {
        assert j == i || gaps[i].start <= gaps[j].start;
      }
      TouchingNone(gaps, i, start, end);
    }
  }

  /** What the prefix planner promises: the first fetchable minute, or none. */
  ghost predicate FirstFetchable(hyperliquid: bool, gaps: seq<Gap>, now: int, request: Span, first: Option<int>) {
    match first
    case None => forall t :: !Fetchable(hyperliquid, gaps, now, request, t)
    case Some(f) =>
      && Aligned(f)
      && Fetchable(hyperliquid, gaps, now, request, f)
      && forall t :: t < f ==> !Fetchable(hyperliquid, gaps, now, request, t)
  }

  /** Skips the deferred prefix of a request (`_fetch_start_after_deferred_gap_prefix`). */
  method FetchStartAfterDeferredPrefix(hyperliquid: bool, index: KnownGapIndex, request: Span, now: int)
    returns (first: Option<int>)
    requires index.Valid() && AllWellFormed(index.gaps) && GridSpan(request)
    ensures FirstFetchable(hyperliquid, index.gaps, now, request, first)
  {
    var touching := index.Overlapping(request.0, request.1);
    TouchingElements(index.gaps, request.0, request.1);
    assert AllWellFormed(touching) by { SubsetWellFormed(index.gaps, touching); }
    var fetchStart := request.0;
    var i := 0;
    while i < |touching|
      invariant 0 <= i <= |touching|
      invariant Aligned(fetchStart) && request.0 <= fetchStart
      invariant forall t :: request.0 <= t < fetchStart ==> Deferred(hyperliquid, touching, now, t)
      invariant forall j :: 0 <= j < i ==>
        ShouldRetryGap(hyperliquid, touching[j], now) || touching[j].end < fetchStart
    {
      var gap := touching[i];
      assert WellFormed(gap);
      if fetchStart > request.1 {
        break;
      }
      if gap.end >= fetchStart {
        if gap.start > fetchStart {
          break;
        }
        if !ShouldRetryGap(hyperliquid, gap, now) {
          forall t | fetchStart <= t < gap.end + ONE_MIN_MS ensures Deferred(hyperliquid, touching, now, t) {
            assert Covers(touching[i], t);
          }
          GridNeighbours(gap.end);
          fetchStart := gap.end + ONE_MIN_MS;
        }
      }
      i := i + 1;
    }
    first := if fetchStart > request.1 then None else Some(fetchStart);
    PrefixResult(hyperliquid, index.gaps, touching, now, request, fetchStart, i);
  }

  lemma {:induction false} SubsetWellFormed(gaps: seq<Gap>, part: seq<Gap>)
    requires AllWellFormed(gaps) && forall g :: g in part ==> g in gaps
    ensures AllWellFormed(part)
  {
    forall i | 0 <= i < |part| ensures WellFormed(part[i]) {
      assert part[i] in part;
      var j :| 0 <= j < |gaps| && gaps[j] == part[i];
    }
  }

  lemma {:induction false} PrefixResult(hyperliquid: bool, gaps: seq<Gap>, touching: seq<Gap>, now: int, request: Span,
                                        fetchStart: int, i: nat)
    requires AllWellFormed(gaps) && AllWellFormed(touching) && GridSpan(request)
    requires forall g :: g in touching <==> g in gaps && g.start <= request.1 && g.end >= request.0
    requires SortedByStart(touching) && i <= |touching|
    requires Aligned(fetchStart) && request.0 <= fetchStart
    requires forall t :: request.0 <= t < fetchStart ==> Deferred(hyperliquid, touching, now, t)
    requires forall j :: 0 <= j < i ==> ShouldRetryGap(hyperliquid, touching[j], now) || touching[j].end < fetchStart
    requires i < |touching| ==> fetchStart > request.1 || touching[i].start > fetchStart
    ensures FirstFetchable(hyperliquid, gaps, now, request,
                           if fetchStart > request.1 then None else Some(fetchStart))
  {
    forall t | request.0 <= t < fetchStart ensures !Fetchable(hyperliquid, gaps, now, request, t) {
      assert Deferred(hyperliquid, touching, now, t);
      var j :| 0 <= j < |touching| && Covers(touching[j], t) && !ShouldRetryGap(hyperliquid, touching[j], now);
      assert touching[j] in touching;
      var k :| 0 <= k < |gaps| && gaps[k] == touching[j];
      assert Covers(gaps[k], t);
    }
    if fetchStart > request.1 {
      GridStep(request.1, fetchStart);
    } else {
      forall j | i <= j < |touching| ensures touching[j].start > fetchStart {
        assert touching[i].start <= touching[j].start;
      }
      forall k | 0 <= k < |gaps| && Covers(gaps[k], fetchStart)
        ensures ShouldRetryGap(hyperliquid, gaps[k], now)
      {
        if gaps[k].end < fetchStart { GridStep(gaps[k].end, fetchStart); }
        assert gaps[k] in gaps;
        assert gaps[k] in touching;
      }
    }
  }

  ghost predicate CutOut(ranges: seq<Span>, i: nat, gap: Gap, next: seq<Span>)
    requires i <= |ranges|
  {
    && GridSpans(next)
    && (forall t :: InSpans(next, t) <==> InSpans(ranges[..i], t) && !Covers(gap, t))
    && (OrderedSpans(ranges) ==> OrderedSpans(next))
    && (OrderedSpans(ranges) && next != [] ==> i > 0 && next[|next| - 1].1 <= ranges[i - 1].1)
  }

  lemma {:induction false} ExcludeStep(ranges: seq<Span>, i: nat, gap: Gap, was: seq<Span>)
    requires GridSpans(ranges) && WellFormed(gap) && i < |ranges|
    requires CutOut(ranges, i, gap, was)
    ensures CutOut(ranges, i + 1, gap, was + Pieces(ranges[i], gap))
  {
    var r := ranges[i];
    var pieces := Pieces(r, gap);
    var next, upTo := was + pieces, ranges[..i + 1];
    assert upTo == ranges[..i] + [r];
    PiecesShape(r, gap);
    ExcludedMinutes(ranges[..i], r, gap, was, pieces);
    if OrderedSpans(ranges) {
      assert i > 0 ==> ranges[i - 1].1 < r.0;
      OrderedConcat(was, pieces);
    }
  }

  lemma {:induction false} ExcludedMinutes(before: seq<Span>, r: Span, gap: Gap, was: seq<Span>, pieces: seq<Span>)
    requires GridSpan(r) && WellFormed(gap) && pieces == Pieces(r, gap)
    requires forall t :: InSpans(was, t) <==> InSpans(before, t) && !Covers(gap, t)
    ensures forall t :: InSpans(was + pieces, t) <==> InSpans(before + [r], t) && !Covers(gap, t)
  {
    forall t ensures InSpans(was + pieces, t) <==> InSpans(before + [r], t) && !Covers(gap, t) {
      InSpansAppend(before, r, t);
      PiecesOf(r, gap, t);
      InSpansConcat(was, pieces, t);
    }
  }

  /** The pieces stay inside the range, in order. */
  lemma {:induction false} PiecesShape(r: Span, gap: Gap)
    requires GridSpan(r) && WellFormed(gap)
    ensures GridSpans(Pieces(r, gap))
    ensures r.0 <= r.1 ==> OrderedSpans(Pieces(r, gap))
    ensures r.0 <= r.1 && Pieces(r, gap) != [] ==>
      r.0 <= Pieces(r, gap)[0].0 && Pieces(r, gap)[|Pieces(r, gap)| - 1].1 <= r.1
  {
    GridNeighbours(gap.start);
    GridNeighbours(gap.end);
    if r.0 < gap.start { GridStep(r.0, gap.start); }
    if gap.end < r.1 { GridStep(gap.end, r.1); }
  }

  /** One deferred gap cut out of all ranges so far (the inner loop of the range planner). */
  method ExcludeGap(ranges: seq<Span>, gap: Gap) returns (next: seq<Span>)
    requires GridSpans(ranges) && WellFormed(gap)
    ensures GridSpans(next)
    ensures forall t :: InSpans(next, t) <==> InSpans(ranges, t) && !Covers(gap, t)
    ensures OrderedSpans(ranges) ==> OrderedSpans(next)
    ensures |ranges| == 1 ==> next == Pieces(ranges[0], gap)
  {
    next := [];
    for i := 0 to |ranges|
      invariant CutOut(ranges, i, gap, next)
      invariant i == 0 ==> next == []
      invariant i == 1 ==> next == Pieces(ranges[0], gap)
    {
      var r := ranges[i];
      ghost var was := next;
      if gap.end < r.0 || gap.start > r.1 {
        next := next + [r];
      } else {
        if r.0 < gap.start {
          next := next + [(r.0, gap.start - ONE_MIN_MS)];
        }
        if gap.end < r.1 {
          next := next + [(gap.end + ONE_MIN_MS, r.1)];
        }
      }
      assert next == was + Pieces(r, gap);
      ExcludeStep(ranges, i, gap, was);
    }
    assert ranges[..|ranges|] == ranges;
  }

  /** What one range looks like without the gap. */
  ghost function Pieces(r: Span, gap: Gap): seq<Span> {
    if gap.end < r.0 || gap.start > r.1 then [r]
    else
      (if r.0 < gap.start then [(r.0, gap.start - ONE_MIN_MS)] else [])
      + (if gap.end < r.1 then [(gap.end + ONE_MIN_MS, r.1)] else [])
  }

  lemma {:induction false} PiecesOf(r: Span, gap: Gap, t: int)
    requires GridSpan(r) && WellFormed(gap)
    ensures InSpans(Pieces(r, gap), t) <==> SpanCovers(r, t) && !Covers(gap, t)
  {
    var left, right := (r.0, gap.start - ONE_MIN_MS), (gap.end + ONE_MIN_MS, r.1);
    var first: seq<Span> := if r.0 < gap.start then [left] else [];
    assert first + [] == first;
    InSpansAppend([], r, t);
    InSpansAppend([], left, t);
    InSpansAppend(first, right, t);
    assert [] + [r] == [r] && [] + [left] == [left];
    if gap.end < r.0 { GridStep(gap.end, r.0); }
    if r.1 < gap.start { GridStep(r.1, gap.start); }
    if r.0 < gap.start { GridStep(r.0, gap.start); }
    if gap.end < r.1 { GridStep(gap.end, r.1); }
  }

  /** Some undue record reaches over both ends of a reversed request. */
  ghost predicate Spanned(hyperliquid: bool, gaps: seq<Gap>, now: int, request: Span) {
    exists i :: 0 <= i < |gaps| && ReachesOver(gaps[i], request) && !ShouldRetryGap(hyperliquid, gaps[i], now)
  }

  predicate ReachesOver(gap: Gap, request: Span) {
    gap.start <= request.1 && request.0 <= gap.end
  }

  /**
   * What the range planner promises: exactly the fetchable minutes, in order; and for a reversed request,
   * which has no minute, nothing or the request itself.
   */
  ghost predicate Planned(hyperliquid: bool, gaps: seq<Gap>, now: int, request: Span, ranges: seq<Span>) {
    && GridSpans(ranges)
    && (forall t :: InSpans(ranges, t) <==> Fetchable(hyperliquid, gaps, now, request, t))
    && if request.0 <= request.1 then OrderedSpans(ranges)
       else ranges == if Spanned(hyperliquid, gaps, now, request) then [] else [request]
  }

  lemma {:induction false} PlanStart(hyperliquid: bool, now: int, request: Span)
    requires GridSpan(request)
    ensures Planned(hyperliquid, [], now, request, [request])
  {
    assert [] + [request] == [request];
    forall t ensures InSpans([request], t) <==> SpanCovers(request, t) { InSpansAppend([], request, t); }
  }

  /** A due record changes nothing. */
  lemma {:induction false} PlanSkips(hyperliquid: bool, gaps: seq<Gap>, g: Gap, now: int, request: Span,
                                     ranges: seq<Span>)
    requires Planned(hyperliquid, gaps, now, request, ranges) && ShouldRetryGap(hyperliquid, g, now)
    ensures Planned(hyperliquid, gaps + [g], now, request, ranges)
  {
    forall t ensures Deferred(hyperliquid, gaps + [g], now, t) <==> Deferred(hyperliquid, gaps, now, t) {
      DeferredAppend(hyperliquid, gaps, g, now, t);
    }
    SpannedAppend(hyperliquid, gaps, g, now, request);
  }

  /** An undue record is cut out. */
  lemma {:induction false} PlanCuts(hyperliquid: bool, gaps: seq<Gap>, g: Gap, now: int, request: Span,
                                    ranges: seq<Span>, next: seq<Span>)
    requires Planned(hyperliquid, gaps, now, request, ranges) && !ShouldRetryGap(hyperliquid, g, now)
    requires WellFormed(g) && ranges != [] && GridSpans(next)
    requires forall t :: InSpans(next, t) <==> InSpans(ranges, t) && !Covers(g, t)
    requires OrderedSpans(ranges) ==> OrderedSpans(next)
    requires |ranges| == 1 ==> next == Pieces(ranges[0], g)
    ensures Planned(hyperliquid, gaps + [g], now, request, next)
  {
    forall t ensures InSpans(next, t) <==> Fetchable(hyperliquid, gaps + [g], now, request, t) {
      DeferredAppend(hyperliquid, gaps, g, now, t);
    }
    SpannedAppend(hyperliquid, gaps, g, now, request);
  }

  lemma {:induction false} SpannedAppend(hyperliquid: bool, gaps: seq<Gap>, g: Gap, now: int, request: Span)
    ensures Spanned(hyperliquid, gaps + [g], now, request) <==>
      Spanned(hyperliquid, gaps, now, request) || (ReachesOver(g, request) && !ShouldRetryGap(hyperliquid, g, now))
  {
    var all := gaps + [g];
    assert all[|gaps|] == g;
    if Spanned(hyperliquid, gaps, now, request) {
      var i :| 0 <= i < |gaps| && ReachesOver(gaps[i], request) && !ShouldRetryGap(hyperliquid, gaps[i], now);
      assert ReachesOver(all[i], request);
    }
    assert ReachesOver(g, request) ==> ReachesOver(all[|gaps|], request);
  }

  lemma {:induction false} SpannedIn(hyperliquid: bool, part: seq<Gap>, gaps: seq<Gap>, now: int, request: Span)
    requires forall g :: g in part ==> g in gaps
    ensures Spanned(hyperliquid, part, now, request) ==> Spanned(hyperliquid, gaps, now, request)
  {
    if Spanned(hyperliquid, part, now, request) {
      var i :| 0 <= i < |part| && ReachesOver(part[i], request) && !ShouldRetryGap(hyperliquid, part[i], now);
      assert part[i] in part;
      var j :| 0 <= j < |gaps| && gaps[j] == part[i];
      assert ReachesOver(gaps[j], request);
    }
  }

  /** The request split around every deferred gap (`_fetch_ranges_excluding_deferred_gaps`). */
  method FetchRangesExcludingDeferred(hyperliquid: bool, gaps: seq<Gap>, request: Span, now: int)
    returns (ranges: seq<Span>)
    requires AllWellFormed(gaps) && GridSpan(request)
    ensures forall t :: InSpans(ranges, t) <==> Fetchable(hyperliquid, gaps, now, request, t)
    ensures request.0 <= request.1 ==> OrderedSpans(ranges)
    ensures request.1 < request.0 ==>
      ranges == if Spanned(hyperliquid, gaps, now, request) then [] else [request]
    ensures Planned(hyperliquid, gaps, now, request, ranges)
  {
    ranges := [request];
    var sorted := Sort(gaps, StartLeq);
    SortedCopy(gaps);
    PlanStart(hyperliquid, now, request);
    assert sorted[..0] == [];
    var i := 0;
    while i < |sorted| && ranges != []
      invariant 0 <= i <= |sorted|
      invariant Planned(hyperliquid, sorted[..i], now, request, ranges)
    {
      assert sorted[..i + 1] == sorted[..i] + [sorted[i]];
      if !ShouldRetryGap(hyperliquid, sorted[i], now) {
        ghost var was := ranges;
        ranges := ExcludeGap(ranges, sorted[i]);
        PlanCuts(hyperliquid, sorted[..i], sorted[i], now, request, was, ranges);
      } else {
        PlanSkips(hyperliquid, sorted[..i], sorted[i], now, request, ranges);
      }
      i := i + 1;
    }
    PlanComplete(hyperliquid, gaps, sorted, i, now, request, ranges);
  }

  /** Stopping early, with no range left, loses nothing. */
  lemma {:induction false} PlanComplete(hyperliquid: bool, gaps: seq<Gap>, sorted: seq<Gap>, i: nat, now: int,
                                        request: Span, ranges: seq<Span>)
    requires forall g :: g in sorted <==> g in gaps
    requires i <= |sorted| && (i < |sorted| ==> ranges == [])
    requires Planned(hyperliquid, sorted[..i], now, request, ranges)
    ensures Planned(hyperliquid, gaps, now, request, ranges)
  {
    forall t ensures InSpans(ranges, t) <==> Fetchable(hyperliquid, gaps, now, request, t) {
      DeferredSame(hyperliquid, gaps, sorted, now, t);
      DeferredPrefix(hyperliquid, sorted, i, now, t);
      assert sorted[..|sorted|] == sorted;
    }
    SpannedIn(hyperliquid, sorted[..i], gaps, now, request);
    if i == |sorted| {
      assert sorted[..i] == sorted;
      SpannedIn(hyperliquid, gaps, sorted, now, request);
    }
  }

  lemma {:induction false} DeferredAppend(hyperliquid: bool, gaps: seq<Gap>, g: Gap, now: int, t: int)
    ensures Deferred(hyperliquid, gaps + [g], now, t) <==>
      Deferred(hyperliquid, gaps, now, t) || (Covers(g, t) && !ShouldRetryGap(hyperliquid, g, now))
  {
    var all := gaps + [g];
    if Deferred(hyperliquid, gaps, now, t) {
      var i :| 0 <= i < |gaps| && Covers(gaps[i], t) && !ShouldRetryGap(hyperliquid, gaps[i], now);
      assert Covers(all[i], t);
    }
    if Covers(g, t) && !ShouldRetryGap(hyperliquid, g, now) { assert Covers(all[|gaps|], t); }
  }

  lemma {:induction false} DeferredPrefix(hyperliquid: bool, gaps: seq<Gap>, i: nat, now: int, t: int)
    requires i <= |gaps|
    ensures Deferred(hyperliquid, gaps[..i], now, t) ==> Deferred(hyperliquid, gaps, now, t)
  {
    if Deferred(hyperliquid, gaps[..i], now, t) {
      var j :| 0 <= j < i && Covers(gaps[..i][j], t) && !ShouldRetryGap(hyperliquid, gaps[..i][j], now);
      assert Covers(gaps[j], t);
    }
  }

  /** The prefix planner returns the first minute of an ordered range plan, and nothing else would do. */
  lemma {:induction false} FirstOfPlan(hyperliquid: bool, gaps: seq<Gap>, now: int, request: Span,
                                       ranges: seq<Span>, first: Option<int>)
    requires OrderedSpans(ranges)
    requires forall t :: InSpans(ranges, t) <==> Fetchable(hyperliquid, gaps, now, request, t)
    ensures FirstFetchable(hyperliquid, gaps, now, request, first) <==> first == FirstStart(ranges)
  {
    if ranges == [] {
      assert forall t :: !InSpans(ranges, t);
    } else {
      var f := ranges[0].0;
      assert SpanCovers(ranges[0], f);
      assert InSpans(ranges, f);
      forall t | t < f ensures !InSpans(ranges, t) {
        forall i | 0 <= i < |ranges| ensures f <= ranges[i].0 {
          assert i == 0 || ranges[0].1 < ranges[i].0;
        }
      }
    }
  }

  function FirstStart(ranges: seq<Span>): Option<int> {
    if ranges == [] then None else Some(ranges[0].0)
  }

  /**
   * The two planners agree exactly when the request is not reversed or an undue record reaches over both
   * of its ends.
   */
  lemma {:induction false} PlannersAgree(hyperliquid: bool, gaps: seq<Gap>, now: int, request: Span,
                                         ranges: seq<Span>, first: Option<int>)
    requires Planned(hyperliquid, gaps, now, request, ranges) && GridSpan(request)
    requires FirstFetchable(hyperliquid, gaps, now, request, first)
    ensures first == FirstStart(ranges) <==> request.0 <= request.1 || Spanned(hyperliquid, gaps, now, request)
  {
    if request.0 <= request.1 {
      FirstOfPlan(hyperliquid, gaps, now, request, ranges, first);
    } else {
      ReversedHasNone(hyperliquid, gaps, now, request, first);
    }
  }

  lemma {:induction false} ReversedHasNone(hyperliquid: bool, gaps: seq<Gap>, now: int, request: Span,
                                           first: Option<int>)
    requires GridSpan(request) && request.1 < request.0
    ensures FirstFetchable(hyperliquid, gaps, now, request, first) <==> first == None
  {
    GridStep(request.1, request.0);
  }

  /** No minute under a proof with all its attempts used up is planned, by either planner. */
  lemma {:induction false} ProofIsNeverPlanned(hyperliquid: bool, gaps: seq<Gap>, now: int, request: Span,
                                               ranges: seq<Span>, first: Option<int>, i: nat, t: int)
    requires forall m :: InSpans(ranges, m) <==> Fetchable(hyperliquid, gaps, now, request, m)
    requires FirstFetchable(hyperliquid, gaps, now, request, first)
    requires i < |gaps| && gaps[i].start <= t < gaps[i].end + ONE_MIN_MS
    requires gaps[i].ev.reason in {PreInception, NoArchive, Manual, NoTrades} && gaps[i].ev.retryCount >= 3
    ensures first != Some(t) && !InSpans(ranges, t)
  {
    ProofIsNeverDue(hyperliquid, gaps[i], now);
    assert Covers(gaps[i], t);
  }

  /** Every requested minute all of whose records are due is planned, and the prefix planner does not pass it. */
  lemma {:induction false} DueIsPlanned(hyperliquid: bool, gaps: seq<Gap>, now: int, request: Span,
                                        ranges: seq<Span>, first: Option<int>, t: int)
    requires forall m :: InSpans(ranges, m) <==> Fetchable(hyperliquid, gaps, now, request, m)
    requires FirstFetchable(hyperliquid, gaps, now, request, first)
    requires request.0 <= t < request.1 + ONE_MIN_MS
    requires forall i :: 0 <= i < |gaps| && gaps[i].start <= t < gaps[i].end + ONE_MIN_MS ==>
      ShouldRetryGap(hyperliquid, gaps[i], now)
    ensures InSpans(ranges, t) && first.Some? && first.value <= t
  {
    assert Fetchable(hyperliquid, gaps, now, request, t);
  }

  /** Both planners on one ledger. */
  method PlanBoth(hyperliquid: bool, gaps: seq<Gap>, request: Span, now: int)
    returns (first: Option<int>, ranges: seq<Span>)
    requires AllWellFormed(gaps) && GridSpan(request)
    ensures FirstFetchable(hyperliquid, gaps, now, request, first)
    ensures forall t :: InSpans(ranges, t) <==> Fetchable(hyperliquid, gaps, now, request, t)
    ensures first == FirstStart(ranges) <==> request.0 <= request.1 || Spanned(hyperliquid, gaps, now, request)
  {
    var index := new KnownGapIndex(gaps);
    SubsetWellFormed(gaps, index.gaps);
    first := FetchStartAfterDeferredPrefix(hyperliquid, index, request, now);
    SameFirst(hyperliquid, index.gaps, gaps, now, request, first);
    ranges := FetchRangesExcludingDeferred(hyperliquid, gaps, request, now);
    PlannersAgree(hyperliquid, gaps, now, request, ranges, first);
  }

  lemma {:induction false} SameFirst(hyperliquid: bool, a: seq<Gap>, b: seq<Gap>, now: int, request: Span,
                                     first: Option<int>)
    requires (forall g :: g in a <==> g in b) && FirstFetchable(hyperliquid, a, now, request, first)
    ensures FirstFetchable(hyperliquid, b, now, request, first)
  {
    forall t ensures Fetchable(hyperliquid, a, now, request, t) <==> Fetchable(hyperliquid, b, now, request, t) {
      DeferredSame(hyperliquid, a, b, now, t);
    }
  }

  /** An empty ledger and a reversed request: nothing to start with, and the request as the plan. */
  method ReversedDisagree(hyperliquid: bool, now: int) returns (first: Option<int>, ranges: seq<Span>)
    ensures first == None && ranges == [(60_000, 0)]
  {
    first, ranges := PlanBoth(hyperliquid, [], (60_000, 0), now);
    ReversedHasNone(hyperliquid, [], now, (60_000, 0), first);
    ranges := FetchRangesExcludingDeferred(hyperliquid, [], (60_000, 0), now);
  }
}
