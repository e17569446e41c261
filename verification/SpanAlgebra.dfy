/**
 * Coverage of a window of completed minutes: the missing spans and their classification into
 * verified no-trade, deferred and refreshable minutes by span algebra.
 */
module SpanAlgebra {
  import opened Minutes
  import opened Sorting
  import opened Spans

  /** The spans of [start, end] without a row (`_missing_spans`). */
  method MissingSpans(rows: seq<int>, start: int, end: int) returns (spans: seq<Span>)
    requires GridRows(rows) && NonDecreasing(rows) && Aligned(start) && Aligned(end)
    ensures OrderedSpans(spans)
    ensures forall t :: InSpans(spans, t) <==> SpanCovers((start, end), t) && !RowAt(rows, t)
  {
    spans := [];
    if start > end {
      GridStep(end, start);
      return;
    }
    var from, to := SearchSorted(rows, start), SearchSorted(rows, end + 1);
    assert to == |rows| || end < rows[to];
    var ts := rows[from..to];
    forall t | SpanCovers((start, end), t) ensures RowAt(rows, t) <==> RowAt(ts, t) {
      RowsInRange(rows, from, to, start, end, t);
    }
    if ts == [] {
      spans := [(start, end)];
      assert spans == [] + [(start, end)];
      forall t ensures InSpans(spans, t) <==> SpanCovers((start, end), t) { InSpansAppend([], (start, end), t); }
      return;
    }
    spans := SpansAround(ts, start, end);
  }

  /** The head, then every pair of neighbours, then the tail. */
  method SpansAround(ts: seq<int>, start: int, end: int) returns (spans: seq<Span>)
    requires GridRows(ts) && NonDecreasing(ts) && ts != [] && Aligned(start) && Aligned(end)
    requires start <= ts[0] && ts[|ts| - 1] <= end
    ensures OrderedSpans(spans)
    ensures forall t :: InSpans(spans, t) <==> SpanCovers((start, end), t) && !RowAt(ts, t)
  {
    spans := SpansBefore(ts, start);
    var last := ts[|ts| - 1];
    assert ts[0] <= last;
    assert ts[..|ts|] == ts;
    ScanLast(ts, last, start, end, spans);
    spans := AddPiece(spans, last + ONE_MIN_MS, end, last < end);
  }

  method SpansBefore(ts: seq<int>, start: int) returns (spans: seq<Span>)
    requires GridRows(ts) && NonDecreasing(ts) && ts != [] && Aligned(start) && start <= ts[0]
    ensures ScannedRows(ts, |ts|, start, spans)
  {
    ScanFirst(ts, start);
    spans := AddPiece([], start, ts[0] - ONE_MIN_MS, ts[0] > start);
    for i := 1 to |ts|
      invariant ScannedRows(ts, i, start, spans)
    {
      ScanRow(ts, i, start, spans);
      spans := AddPiece(spans, ts[i - 1] + ONE_MIN_MS, ts[i] - ONE_MIN_MS, ts[i] - ts[i - 1] > ONE_MIN_MS);
    }
  }

  ghost predicate ScannedRows(ts: seq<int>, i: nat, start: int, spans: seq<Span>) {
    0 < i <= |ts| && Scanned(ts[..i], ts[i - 1], start, spans)
  }

  lemma {:induction false} ScanRow(ts: seq<int>, i: nat, start: int, spans: seq<Span>)
    requires GridRows(ts) && NonDecreasing(ts) && ts != [] && Aligned(start) && start <= ts[0]
    requires i < |ts| && ScannedRows(ts, i, start, spans)
    ensures ScannedRows(ts, i + 1, start,
      AddPiece(spans, ts[i - 1] + ONE_MIN_MS, ts[i] - ONE_MIN_MS, ts[i] - ts[i - 1] > ONE_MIN_MS))
  {
    assert ts[..i + 1] == ts[..i] + [ts[i]];
    assert ts[0] <= ts[i - 1] <= ts[i];
    ScanNext(ts[..i], ts[..i + 1], ts[i - 1], ts[i], start, spans);
  }

  /** The rows scanned so far up to `last`, and the spans found before it. */
  ghost predicate Scanned(seen: seq<int>, last: int, start: int, spans: seq<Span>) {
    && OrderedSpans(spans)
    && (spans != [] ==> spans[|spans| - 1].1 < last)
    && (forall t :: InSpans(spans, t) <==> start <= t < last && !RowAt(seen, t))
    && (forall t :: RowAt(seen, t) ==> t < last + ONE_MIN_MS)
    && (forall t :: RowCovers(last, t) ==> RowAt(seen, t))
  }

  lemma {:induction false} ScanLast(ts: seq<int>, last: int, start: int, end: int, spans: seq<Span>)
    requires Scanned(ts, last, start, spans) && Aligned(last) && Aligned(end) && start <= last <= end
    ensures OrderedSpans(AddPiece(spans, last + ONE_MIN_MS, end, last < end))
    ensures forall t :: InSpans(AddPiece(spans, last + ONE_MIN_MS, end, last < end), t) <==>
      SpanCovers((start, end), t) && !RowAt(ts, t)
  {
    GridNeighbours(last);
    if last < end { GridStep(last, end); }
    AddedPiece(spans, last + ONE_MIN_MS, end, last < end);
  }

  lemma {:induction false} ScanFirst(ts: seq<int>, start: int)
    requires GridRows(ts) && Aligned(start) && ts != [] && start <= ts[0]
    ensures ScannedRows(ts, 1, start, AddPiece([], start, ts[0] - ONE_MIN_MS, ts[0] > start))
  {
    var row := ts[0];
    GridNeighbours(row);
    if start < row { GridStep(start, row); }
    AddedPiece([], start, row - ONE_MIN_MS, row > start);
    var one := ts[..1];
    assert one == [] + [row];
    forall t ensures RowAt(one, t) <==> RowCovers(row, t) { RowAtAppend([], row, t); }
  }

  lemma {:induction false} ScanNext(seen: seq<int>, upTo: seq<int>, last: int, row: int, start: int,
                                    spans: seq<Span>)
    requires upTo == seen + [row] && Scanned(seen, last, start, spans)
    requires Aligned(start) && Aligned(last) && Aligned(row) && start <= last <= row
    ensures Scanned(upTo, row, start,
      AddPiece(spans, last + ONE_MIN_MS, row - ONE_MIN_MS, row - last > ONE_MIN_MS))
  {
    Neighbours(last, row);
    var next := AddPiece(spans, last + ONE_MIN_MS, row - ONE_MIN_MS, row - last > ONE_MIN_MS);
    AddedPiece(spans, last + ONE_MIN_MS, row - ONE_MIN_MS, row - last > ONE_MIN_MS);
    forall t
      ensures InSpans(next, t) <==> start <= t < row && !RowAt(upTo, t)
      ensures RowAt(upTo, t) ==> t < row + ONE_MIN_MS
      ensures RowCovers(row, t) ==> RowAt(upTo, t)
    {
      RowAtAppend(seen, row, t);
      MinuteBetween(start, last, row, RowAt(seen, t), t);
    }
  }

  lemma {:induction false} Neighbours(a: int, b: int)
    requires Aligned(a) && Aligned(b) && a <= b
    ensures Aligned(a + ONE_MIN_MS) && Aligned(b - ONE_MIN_MS)
    ensures a == b || b - a == ONE_MIN_MS || a + ONE_MIN_MS <= b - ONE_MIN_MS
  {
    GridNeighbours(a);
    GridNeighbours(b);
    if a < b { GridStep(a, b); }
    if a + ONE_MIN_MS < b { GridStep(a + ONE_MIN_MS, b); }
  }

  /** A minute before row `b`, the next one after `a`: missed before `a` already, or between the two. */
  lemma {:induction false} MinuteBetween(start: int, a: int, b: int, seen: bool, t: int)
    requires Aligned(a) && Aligned(b) && start <= a <= b
    requires (seen ==> t < a + ONE_MIN_MS) && (RowCovers(a, t) ==> seen)
    ensures (start <= t < a && !seen) || (b - a > ONE_MIN_MS && SpanCovers((a + ONE_MIN_MS, b - ONE_MIN_MS), t)) <==>
      start <= t < b && !(seen || RowCovers(b, t))
  {
    Neighbours(a, b);
  }

  /** Appends a piece when the condition holds. */
  function AddPiece(spans: seq<Span>, start: int, end: int, nonempty: bool): seq<Span> {
    if nonempty then spans + [(start, end)] else spans
  }

  lemma {:induction false} AddedPiece(spans: seq<Span>, start: int, end: int, nonempty: bool)
    requires OrderedSpans(spans) && Aligned(start) && Aligned(end)
    requires nonempty ==> start <= end
    requires spans != [] ==> spans[|spans| - 1].1 < start
    ensures OrderedSpans(AddPiece(spans, start, end, nonempty))
    ensures forall t :: InSpans(AddPiece(spans, start, end, nonempty), t) <==>
      InSpans(spans, t) || (nonempty && SpanCovers((start, end), t))
  {
    if nonempty {
      LastIsGreatest(spans);
      forall t ensures InSpans(spans + [(start, end)], t) <==> InSpans(spans, t) || SpanCovers((start, end), t) {
        InSpansAppend(spans, (start, end), t);
      }
    }
  }

  lemma {:induction false} LastIsGreatest(spans: seq<Span>)
    requires OrderedSpans(spans)
    ensures forall i :: 0 <= i < |spans| ==> spans[i].1 <= spans[|spans| - 1].1
  {
    forall i | 0 <= i < |spans| ensures spans[i].1 <= spans[|spans| - 1].1 {
      assert i == |spans| - 1 || spans[i].1 < spans[|spans| - 1].0;
    }
  }

  lemma {:induction false} RowsInRange(rows: seq<int>, from: nat, to: nat, start: int, end: int, t: int)
    requires GridRows(rows) && Aligned(start) && Aligned(end) && from <= to <= |rows|
    requires forall i :: 0 <= i < from ==> rows[i] < start
    requires forall i :: to <= i < |rows| ==> end < rows[i]
    requires SpanCovers((start, end), t)
    ensures RowAt(rows, t) <==> RowAt(rows[from..to], t)
  {
    var ts := rows[from..to];
    if RowAt(rows, t) {
      var i :| 0 <= i < |rows| && RowCovers(rows[i], t);
      if i < from { GridStep(rows[i], start); }
      if to <= i { GridStep(end, rows[i]); }
      assert RowCovers(ts[i - from], t);
    }
    if RowAt(ts, t) {
      var i :| 0 <= i < |ts| && RowCovers(ts[i], t);
      assert RowCovers(rows[from + i], t);
    }
  }

  /** Sorts spans and joins those that overlap or touch (`merge_spans`). */
  method MergeSpans(spans: seq<Span>) returns (merged: seq<Span>)
    requires ProperSpans(spans)
    ensures OrderedSpans(merged)
    ensures forall t :: InSpans(merged, t) <==> InSpans(spans, t)
  {
    var sorted := Sort(spans, PairLeq);
    SortedMasks(spans);
    merged := [];
    for i := 0 to |sorted|
      invariant Joined(sorted, i, merged)
    {
      var s := sorted[i];
      if merged != [] && s.0 <= merged[|merged| - 1].1 + ONE_MIN_MS {
        JoinLast(sorted, i, merged);
        var last := merged[|merged| - 1];
        merged := merged[..|merged| - 1] + [(last.0, Max(last.1, s.1))];
      } else {
        JoinNone(sorted, i, merged);
        merged := merged + [s];
      }
    }
    assert sorted[..|sorted|] == sorted;
  }

  /** The first `i` spans of the sorted list, merged. */
  ghost predicate Joined(sorted: seq<Span>, i: nat, merged: seq<Span>) {
    && i <= |sorted|
    && OrderedSpans(merged)
    && (merged != [] ==> i > 0 && merged[|merged| - 1].0 <= sorted[i - 1].0)
    && (forall t :: InSpans(merged, t) <==> InSpans(sorted[..i], t))
  }

  lemma {:induction false} JoinLast(sorted: seq<Span>, i: nat, merged: seq<Span>)
    requires ProperSpans(sorted) && SortedStarts(sorted) && i < |sorted| && Joined(sorted, i, merged) && merged != []
    requires sorted[i].0 <= merged[|merged| - 1].1 + ONE_MIN_MS
    ensures var last := merged[|merged| - 1];
      Joined(sorted, i + 1, merged[..|merged| - 1] + [(last.0, Max(last.1, sorted[i].1))])
  {
    var init, last, s := merged[..|merged| - 1], merged[|merged| - 1], sorted[i];
    var joined := (last.0, Max(last.1, s.1));
    assert last.0 <= sorted[i - 1].0 <= s.0;
    assert sorted[..i + 1] == sorted[..i] + [s];
    assert merged == init + [last];
    forall t ensures InSpans(init + [joined], t) <==> InSpans(sorted[..i] + [s], t) {
      InSpansAppend(sorted[..i], s, t);
      InSpansAppend(init, last, t);
      InSpansAppend(init, joined, t);
    }
  }

  lemma {:induction false} JoinNone(sorted: seq<Span>, i: nat, merged: seq<Span>)
    requires ProperSpans(sorted) && SortedStarts(sorted) && i < |sorted| && Joined(sorted, i, merged)
    requires merged != [] ==> merged[|merged| - 1].1 + ONE_MIN_MS < sorted[i].0
    ensures Joined(sorted, i + 1, merged + [sorted[i]])
  {
    var s := sorted[i];
    LastIsGreatest(merged);
    assert sorted[..i + 1] == sorted[..i] + [s];
    forall t ensures InSpans(merged + [s], t) <==> InSpans(sorted[..i] + [s], t) {
      InSpansAppend(sorted[..i], s, t);
      InSpansAppend(merged, s, t);
    }
  }

  /** The loop with two cursors of `intersect_missing` on merged spans. */
  method IntersectSpans(a: seq<Span>, b: seq<Span>) returns (out: seq<Span>)
    requires OrderedSpans(a) && OrderedSpans(b)
    ensures OrderedSpans(out)
    ensures forall t :: InSpans(out, t) <==> InSpans(a, t) && InSpans(b, t)
  {
    out := [];
    var i, j := 0, 0;
    IntersectStart(a, b);
    while i < |a| && j < |b|
      invariant Intersected(a, b, i, j, out)
      decreases |a| + |b| - i - j
    {
      IntersectNext(a, b, i, j, out);
      var lo, hi := Max(a[i].0, b[j].0), Min(a[i].1, b[j].1);
      if lo <= hi {
        out := out + [(lo, hi)];
      }
      if a[i].1 < b[j].1 {
        i := i + 1;
      } else {
        j := j + 1;
      }
    }
    IntersectEnd(a, b, i, j, out);
  }

  lemma {:induction false} IntersectStart(a: seq<Span>, b: seq<Span>)
    ensures Intersected(a, b, 0, 0, [])
  {
    assert a[0..] == a && b[0..] == b;
  }

  lemma {:induction false} IntersectEnd(a: seq<Span>, b: seq<Span>, i: nat, j: nat, out: seq<Span>)
    requires Intersected(a, b, i, j, out) && (i == |a| || j == |b|)
    ensures forall t :: InSpans(out, t) <==> InSpans(a, t) && InSpans(b, t)
  {
    if i == |a| { assert a[i..] == []; } else { assert b[j..] == []; }
  }

  /** What the spans before the two cursors have in common is `out`; the rest is still to come. */
  ghost predicate Intersected(a: seq<Span>, b: seq<Span>, i: int, j: int, out: seq<Span>) {
    && 0 <= i <= |a| && 0 <= j <= |b|
    && OrderedSpans(out)
    && (i < |a| && j < |b| && out != [] ==> out[|out| - 1].1 < Max(a[i].0, b[j].0))
    && (forall t :: InSpans(a, t) && InSpans(b, t) <==>
          InSpans(out, t) || (InSpans(a[i..], t) && InSpans(b[j..], t)))
  }

  lemma {:induction false} IntersectNext(a: seq<Span>, b: seq<Span>, i: nat, j: nat, out: seq<Span>)
    requires OrderedSpans(a) && OrderedSpans(b) && i < |a| && j < |b| && Intersected(a, b, i, j, out)
    ensures var lo, hi := Max(a[i].0, b[j].0), Min(a[i].1, b[j].1);
      var next := AddPiece(out, lo, hi, lo <= hi);
      if a[i].1 < b[j].1 then Intersected(a, b, i + 1, j, next) else Intersected(a, b, i, j + 1, next)
  {
    var lo, hi := Max(a[i].0, b[j].0), Min(a[i].1, b[j].1);
    AddedPiece(out, lo, hi, lo <= hi);
    var i', j' := if a[i].1 < b[j].1 then i + 1 else i, if a[i].1 < b[j].1 then j else j + 1;
    var a1, b1 := a[i'..], b[j'..];
    forall t ensures InSpans(a[i..], t) && InSpans(b[j..], t) <==>
      (lo <= hi && SpanCovers((lo, hi), t)) || (InSpans(a1, t) && InSpans(b1, t))
    {
      IntersectStep(a, b, i, j, t);
    }
  }

  lemma {:induction false} DropFirst(a: seq<Span>, i: nat, t: int)
    requires i < |a|
    ensures InSpans(a[i..], t) <==> SpanCovers(a[i], t) || InSpans(a[i + 1..], t)
  {
    InSpansSplit(a[i..], 1, t);
    assert a[i..][..1] == [] + [a[i]] && a[i..][1..] == a[i + 1..];
    InSpansAppend([], a[i], t);
  }

  /** Later spans start behind the end of an earlier one. */
  lemma {:induction false} LaterSpans(a: seq<Span>, i: nat, t: int)
    requires OrderedSpans(a) && i < |a|
    ensures InSpans(a[i + 1..], t) ==> a[i].1 + ONE_MIN_MS <= t
  {
    if InSpans(a[i + 1..], t) {
      var k :| 0 <= k < |a| - i - 1 && SpanCovers(a[i + 1..][k], t);
      GridStep(a[i].1, a[i + 1 + k].0);
    }
  }

  lemma {:induction false} IntersectStep(a: seq<Span>, b: seq<Span>, i: nat, j: nat, t: int)
    requires OrderedSpans(a) && OrderedSpans(b) && i < |a| && j < |b|
    ensures
      var lo, hi := Max(a[i].0, b[j].0), Min(a[i].1, b[j].1);
      InSpans(a[i..], t) && InSpans(b[j..], t) <==>
        || (lo <= hi && SpanCovers((lo, hi), t))
        || (if a[i].1 < b[j].1 then InSpans(a[i + 1..], t) && InSpans(b[j..], t)
            else InSpans(a[i..], t) && InSpans(b[j + 1..], t))
  {
    DropFirst(a, i, t);
    DropFirst(b, j, t);
    LaterSpans(a, i, t);
    LaterSpans(b, j, t);
    var lo, hi := Max(a[i].0, b[j].0), Min(a[i].1, b[j].1);
    if hi < lo { GridStep(hi, lo); }
  }

  /** The state of one span's scan: the cut so far, in order. */
  ghost predicate Scanning(span: Span, masks: seq<Span>, i: nat, kept: seq<Span>, cursor: int) {
    && i <= |masks|
    && Cut(span, masks, i, kept, cursor)
    && OrderedSpans(kept)
    && (kept != [] ==> span.0 <= kept[0].0 && kept[|kept| - 1].1 < cursor && kept[|kept| - 1].1 <= span.1)
  }

  ghost predicate NonePasses(span: Span, masks: seq<Span>, n: nat) {
    n <= |masks| && forall j :: 0 <= j < n ==> masks[j].1 <= span.1
  }

  /** Only the piece from the cursor on is missing. */
  ghost predicate CutUpTo(span: Span, masks: seq<Span>, kept: seq<Span>, cursor: int) {
    && Aligned(cursor) && span.0 <= cursor
    && OrderedSpans(kept)
    && (kept != [] ==> span.0 <= kept[0].0 && kept[|kept| - 1].1 < cursor && kept[|kept| - 1].1 <= span.1)
    && forall t :: InSpans(AddPiece(kept, cursor, span.1, cursor <= span.1), t) <==>
         SpanCovers(span, t) && !InSpans(masks, t)
  }

  lemma {:induction false} ScanSkip(span: Span, masks: seq<Span>, i: nat, kept: seq<Span>, cursor: int)
    requires OrderedSpans(masks) && i < |masks| && masks[i].1 < cursor <= span.1
    requires Scanning(span, masks, i, kept, cursor) && NonePasses(span, masks, i)
    ensures Scanning(span, masks, i + 1, kept, cursor) && NonePasses(span, masks, i + 1)
  {
    CutSkip(span, masks, i, kept, cursor);
  }

  /** A mask that reaches the cursor: the piece before it is kept, and the order is too. */
  lemma {:induction false} ScanMask(span: Span, masks: seq<Span>, i: nat, kept: seq<Span>, cursor: int)
    requires OrderedSpans(masks) && GridSpan(span) && i < |masks|
    requires Scanning(span, masks, i, kept, cursor) && masks[i].1 >= cursor && cursor <= span.1
    ensures Scanning(span, masks, i + 1, KeptBefore(span, masks[i], kept, cursor), masks[i].1 + ONE_MIN_MS)
    ensures NonePasses(span, masks, i) && masks[i].1 <= span.1 ==> NonePasses(span, masks, i + 1)
  {
    var m := masks[i];
    CutStep(span, masks, i, kept, cursor);
    GridNeighbours(m.0);
    if m.0 > cursor {
      GridStep(cursor, m.0);
      AddedPiece(kept, cursor, Min(span.1, m.0 - ONE_MIN_MS), true);
    }
  }

  /** The scan ends where the cursor has passed the span or the next mask starts behind it. */
  lemma {:induction false} ScanDone(span: Span, masks: seq<Span>, i: nat, kept: seq<Span>, cursor: int)
    requires OrderedSpans(masks) && GridSpan(span) && Scanning(span, masks, i, kept, cursor)
    requires cursor > span.1 || i == |masks| || span.1 < masks[i].0
    ensures CutUpTo(span, masks, kept, cursor)
  {
    forall j | i <= j < |masks| ensures cursor > span.1 || span.1 < masks[j].0 {
      assert j == i || masks[i].1 < masks[j].0;
    }
    CutEnd(span, masks, i, kept, cursor);
  }

  /** One source span of `subtract_spans`: what the masks from `first` on leave of it. */
  method SubtractOne(span: Span, masks: seq<Span>, first: nat) returns (kept: seq<Span>, scan: nat)
    requires OrderedSpans(masks) && NonePasses(span, masks, first)
    requires GridSpan(span) && span.0 <= span.1
    requires forall j :: 0 <= j < first ==> masks[j].1 < span.0
    ensures first <= scan && NonePasses(span, masks, scan)
    ensures OrderedSpans(kept)
    ensures kept != [] ==> span.0 <= kept[0].0 && kept[|kept| - 1].1 <= span.1
    ensures forall t :: InSpans(kept, t) <==> SpanCovers(span, t) && !InSpans(masks, t)
  {
    StartCut(span, masks, first);
    var cursor;
    kept, scan, cursor := ScanMasks(span, masks, first);
    if cursor <= span.1 {
      AddedPiece(kept, cursor, span.1, true);
      kept := kept + [(cursor, span.1)];
    }
  }

  /** The inner loop: cuts masks until one starts behind the span or the cursor has passed its end. */
  method ScanMasks(span: Span, masks: seq<Span>, first: nat) returns (kept: seq<Span>, scan: nat, cursor: int)
    requires OrderedSpans(masks) && NonePasses(span, masks, first)
    requires GridSpan(span) && span.0 <= span.1 && Scanning(span, masks, first, [], span.0)
    ensures first <= scan && NonePasses(span, masks, scan)
    ensures CutUpTo(span, masks, kept, cursor)
  {
    kept, scan, cursor := [], first, span.0;
    while scan < |masks| && masks[scan].0 <= span.1
      invariant first <= scan && cursor <= span.1
      invariant Scanning(span, masks, scan, kept, cursor) && NonePasses(span, masks, scan)
    {
      var m := masks[scan];
      if m.1 < cursor {
        ScanSkip(span, masks, scan, kept, cursor);
      } else {
        ScanMask(span, masks, scan, kept, cursor);
        kept := KeptBefore(span, m, kept, cursor);
        cursor := Max(cursor, m.1 + ONE_MIN_MS);
        if cursor > span.1 {
          ScanDone(span, masks, scan + 1, kept, cursor);
          return;
        }
      }
      scan := scan + 1;
    }
    ScanDone(span, masks, scan, kept, cursor);
  }

  lemma {:induction false} StartCut(span: Span, masks: seq<Span>, first: nat)
    requires ProperSpans(masks) && GridSpan(span) && first <= |masks|
    requires forall j :: 0 <= j < first ==> masks[j].1 < span.0
    ensures Cut(span, masks, first, [], span.0)
  {
    forall t | InSpans(masks[..first], t) ensures t < span.0 {
      var j :| 0 <= j < first && SpanCovers(masks[..first][j], t);
      GridStep(masks[j].1, span.0);
    }
  }

  /** `subtract_spans` on merged spans; the mask cursor never goes back. */
  method SubtractSpans(source: seq<Span>, masks: seq<Span>) returns (remaining: seq<Span>)
    requires OrderedSpans(source) && OrderedSpans(masks)
    ensures OrderedSpans(remaining)
    ensures forall t :: InSpans(remaining, t) <==> InSpans(source, t) && !InSpans(masks, t)
  {
    remaining := [];
    var maskIndex := 0;
    for k := 0 to |source|
      invariant maskIndex <= |masks|
      invariant k < |source| ==> forall j :: 0 <= j < maskIndex ==> masks[j].1 < source[k].0
      invariant Subtracted(source, k, masks, remaining)
    {
      var span := source[k];
      while maskIndex < |masks| && masks[maskIndex].1 < span.0
        invariant maskIndex <= |masks|
        invariant forall j :: 0 <= j < maskIndex ==> masks[j].1 < span.0
      {
        maskIndex := maskIndex + 1;
      }
      var kept, scan := SubtractOne(span, masks, maskIndex);
      SubtractNext(source, k, masks, remaining, kept);
      remaining := remaining + kept;
      maskIndex := scan;
    }
    assert source[..|source|] == source;
  }

  ghost predicate Subtracted(source: seq<Span>, k: nat, masks: seq<Span>, remaining: seq<Span>) {
    && k <= |source|
    && OrderedSpans(remaining)
    && (remaining != [] ==> k > 0 && remaining[|remaining| - 1].1 <= source[k - 1].1)
    && (forall t :: InSpans(remaining, t) <==> InSpans(source[..k], t) && !InSpans(masks, t))
  }

  lemma {:induction false} SubtractNext(source: seq<Span>, k: nat, masks: seq<Span>, was: seq<Span>, kept: seq<Span>)
    requires OrderedSpans(source) && k < |source| && Subtracted(source, k, masks, was) && OrderedSpans(kept)
    requires kept != [] ==> source[k].0 <= kept[0].0 && kept[|kept| - 1].1 <= source[k].1
    requires forall t :: InSpans(kept, t) <==> SpanCovers(source[k], t) && !InSpans(masks, t)
    ensures Subtracted(source, k + 1, masks, was + kept)
  {
    assert source[..k + 1] == source[..k] + [source[k]];
    assert k > 0 ==> source[k - 1].1 < source[k].0;
    forall t ensures InSpans(was + kept, t) <==> InSpans(source[..k] + [source[k]], t) && !InSpans(masks, t) {
      InSpansAppend(source[..k], source[k], t);
      InSpansConcat(was, kept, t);
    }
    OrderedConcat(was, kept);
  }

  // ---------- counting minutes ----------

  /** `span_candle_count` at one-minute steps. */
  function SpanCount(spans: seq<Span>): int {
    if spans == [] then 0
    else
      var s := spans[|spans| - 1];
      SpanCount(spans[..|spans| - 1]) + ((s.1 - s.0) / 60_000 + 1)
  }

  /** How many of the minutes `lo .. hi - 1` (as minute numbers) lie in the spans. */
  ghost function MinutesIn(spans: seq<Span>, lo: int, hi: int): nat
    decreases hi - lo
  {
    if hi <= lo then 0
    else MinutesIn(spans, lo, hi - 1) + if InSpans(spans, (hi - 1) * 60_000) then 1 else 0
  }

  ghost predicate Within(spans: seq<Span>, lo: int, hi: int) {
    forall i :: 0 <= i < |spans| ==> lo * 60_000 <= spans[i].0 && spans[i].1 < hi * 60_000
  }

  /** Adding up span lengths counts the minutes, when no two spans overlap. */
  lemma {:induction false} SpanCountIsMinutes(spans: seq<Span>, lo: int, hi: int)
    requires OrderedSpans(spans) && Within(spans, lo, hi) && lo <= hi
    ensures SpanCount(spans) == MinutesIn(spans, lo, hi)
  {
    if spans == [] {
      NoMinutes(spans, lo, hi);
    } else {
      var n := |spans| - 1;
      var init, s := spans[..n], spans[n];
      assert forall i :: 0 <= i < n ==> init[i] == spans[i];
      SpanCountIsMinutes(init, lo, hi);
      MinuteNumbers(s);
      AddSpan(spans, lo, hi);
    }
  }

  /** An aligned span in minute numbers. */
  lemma {:induction false} MinuteNumbers(s: Span)
    requires GridSpan(s)
    ensures s.0 == s.0 / 60_000 * 60_000 && s.1 == s.1 / 60_000 * 60_000
    ensures (s.1 - s.0) / 60_000 == s.1 / 60_000 - s.0 / 60_000
    ensures forall m :: SpanCovers(s, m * 60_000) <==> s.0 / 60_000 <= m <= s.1 / 60_000
  {}

  lemma {:induction false} NoMinutes(spans: seq<Span>, lo: int, hi: int)
    requires spans == []
    ensures MinutesIn(spans, lo, hi) == 0
    decreases hi - lo
  {
    if lo < hi { NoMinutes(spans, lo, hi - 1); }
  }

  /** The last span contributes its own minutes: counted up to minute `hi`. */
  lemma {:induction false} AddSpan(spans: seq<Span>, lo: int, hi: int)
    requires OrderedSpans(spans) && spans != [] && lo <= spans[|spans| - 1].0 / 60_000
    ensures var s := spans[|spans| - 1];
      MinutesIn(spans, lo, hi) == MinutesIn(spans[..|spans| - 1], lo, hi) +
        Max(0, Min(hi, s.1 / 60_000 + 1) - s.0 / 60_000)
    decreases hi - lo
  {
    if lo < hi {
      AddSpan(spans, lo, hi - 1);
      OnlyLast(spans, (hi - 1) * 60_000);
      MinuteNumbers(spans[|spans| - 1]);
      assert SpanCovers(spans[|spans| - 1], (hi - 1) * 60_000) <==>
        spans[|spans| - 1].0 / 60_000 <= hi - 1 <= spans[|spans| - 1].1 / 60_000;
    }
  }

  /** A time is in the last span or in the ones before, never in both. */
  lemma {:induction false} OnlyLast(spans: seq<Span>, t: int)
    requires OrderedSpans(spans) && spans != []
    ensures var n := |spans| - 1;
      && (InSpans(spans, t) <==> InSpans(spans[..n], t) || SpanCovers(spans[n], t))
      && !(InSpans(spans[..n], t) && SpanCovers(spans[n], t))
  {
    var n := |spans| - 1;
    assert spans == spans[..n] + [spans[n]];
    InSpansAppend(spans[..n], spans[n], t);
    if InSpans(spans[..n], t) {
      var i :| 0 <= i < n && SpanCovers(spans[..n][i], t);
      GridStep(spans[i].1, spans[n].0);
    }
  }
}
