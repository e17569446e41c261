/** Inclusive minute spans and the set of times they stand for. */
module Spans {
  import opened Minutes
  import opened Sorting

  type Span = (int, int)

  predicate SpanCovers(s: Span, t: int) {
    s.0 <= t < s.1 + ONE_MIN_MS
  }

  predicate InSpans(spans: seq<Span>, t: int) {
    exists i :: 0 <= i < |spans| && SpanCovers(spans[i], t)
  }

  predicate GridSpan(s: Span) {
    Aligned(s.0) && Aligned(s.1)
  }

  predicate GridSpans(spans: seq<Span>) {
    forall i :: 0 <= i < |spans| ==> GridSpan(spans[i])
  }

  predicate ProperSpans(spans: seq<Span>) {
    forall i :: 0 <= i < |spans| ==> GridSpan(spans[i]) && spans[i].0 <= spans[i].1
  }

  /** Nonempty minute spans in order, none overlapping the next. */
  predicate OrderedSpans(spans: seq<Span>) {
    && ProperSpans(spans)
    && (forall i, j :: 0 <= i < j < |spans| ==> spans[i].1 < spans[j].0)
  }

  lemma {:induction false} InSpansAppend(spans: seq<Span>, s: Span, t: int)
    ensures InSpans(spans + [s], t) <==> InSpans(spans, t) || SpanCovers(s, t)
  {
    var all := spans + [s];
    if InSpans(spans, t) {
      var i :| 0 <= i < |spans| && SpanCovers(spans[i], t);
      assert SpanCovers(all[i], t);
    }
    if SpanCovers(s, t) { assert SpanCovers(all[|spans|], t); }
    if InSpans(all, t) {
      var i :| 0 <= i < |all| && SpanCovers(all[i], t);
      if i < |spans| { assert SpanCovers(spans[i], t); }
    }
  }

  lemma {:induction false} InSpansSplit(spans: seq<Span>, i: nat, t: int)
    requires i <= |spans|
    ensures InSpans(spans, t) <==> InSpans(spans[..i], t) || InSpans(spans[i..], t)
  {
    if InSpans(spans, t) {
      var j :| 0 <= j < |spans| && SpanCovers(spans[j], t);
      if j < i { assert SpanCovers(spans[..i][j], t); } else { assert SpanCovers(spans[i..][j - i], t); }
    }
    if InSpans(spans[..i], t) {
      var j :| 0 <= j < i && SpanCovers(spans[..i][j], t);
      assert SpanCovers(spans[j], t);
    }
    if InSpans(spans[i..], t) {
      var j :| 0 <= j < |spans| - i && SpanCovers(spans[i..][j], t);
      assert SpanCovers(spans[i + j], t);
    }
  }

  lemma {:induction false} SameSpans(a: seq<Span>, b: seq<Span>)
    requires forall s :: s in a <==> s in b
    ensures forall t :: InSpans(a, t) <==> InSpans(b, t)
    ensures ProperSpans(a) ==> ProperSpans(b)
  {
    forall t ensures InSpans(a, t) <==> InSpans(b, t) {
      if InSpans(a, t) { var i :| 0 <= i < |a| && SpanCovers(a[i], t); assert a[i] in b; }
      if InSpans(b, t) { var i :| 0 <= i < |b| && SpanCovers(b[i], t); assert b[i] in a; }
    }
    if ProperSpans(a) {
      forall i | 0 <= i < |b| ensures GridSpan(b[i]) && b[i].0 <= b[i].1 { assert b[i] in a; }
    }
  }

  predicate SortedStarts(spans: seq<Span>) {
    forall i, j :: 0 <= i < j < |spans| ==> spans[i].0 <= spans[j].0
  }

  /**
   * The cursor scan that cuts masks out of one span: after `i` masks the `kept` pieces are the
   * times of the span before the cursor that no mask so far covers.
   */
  ghost predicate Cut(span: Span, masks: seq<Span>, i: nat, kept: seq<Span>, cursor: int)
    requires i <= |masks|
  {
    && Aligned(cursor) && span.0 <= cursor
    && GridSpans(kept)
    && (forall t :: InSpans(kept, t) <==> SpanCovers(span, t) && t < cursor && !InSpans(masks[..i], t))
    && (forall t :: InSpans(masks[..i], t) ==> t < cursor)
    && (forall t :: InSpans(kept, t) ==> i > 0 && t < masks[i - 1].0)
  }

  /** A mask that ends before the cursor cuts nothing more. */
  lemma {:induction false} CutSkip(span: Span, masks: seq<Span>, i: nat, kept: seq<Span>, cursor: int)
    requires ProperSpans(masks) && SortedStarts(masks) && i < |masks|
    requires Cut(span, masks, i, kept, cursor) && masks[i].1 < cursor
    ensures Cut(span, masks, i + 1, kept, cursor)
  {
    var m := masks[i];
    var upTo := masks[..i + 1];
    assert upTo == masks[..i] + [m];
    GridStep(m.1, cursor);
    assert i > 0 ==> masks[i - 1].0 <= m.0;
    forall t ensures InSpans(upTo, t) <==> InSpans(masks[..i], t) || SpanCovers(m, t) {
      InSpansAppend(masks[..i], m, t);
    }
  }

  /** The pieces and the cursor after a mask that reaches the cursor. */
  function KeptBefore(span: Span, m: Span, kept: seq<Span>, cursor: int): seq<Span> {
    if m.0 > cursor then kept + [(cursor, Min(span.1, m.0 - ONE_MIN_MS))] else kept
  }

  lemma {:induction false} CutStep(span: Span, masks: seq<Span>, i: nat, kept: seq<Span>, cursor: int)
    requires GridSpan(span) && ProperSpans(masks) && SortedStarts(masks) && i < |masks|
    requires Cut(span, masks, i, kept, cursor) && masks[i].1 >= cursor
    ensures Cut(span, masks, i + 1, KeptBefore(span, masks[i], kept, cursor), masks[i].1 + ONE_MIN_MS)
  {
    var m := masks[i];
    var upTo := masks[..i + 1];
    assert upTo == masks[..i] + [m];
    GridNeighbours(m.0);
    GridNeighbours(m.1);
    var piece := (cursor, Min(span.1, m.0 - ONE_MIN_MS));
    var kept' := KeptBefore(span, m, kept, cursor);
    assert i > 0 ==> masks[i - 1].0 <= m.0;
    forall t ensures InSpans(kept', t) <==> InSpans(kept, t) || (cursor < m.0 && SpanCovers(piece, t)) {
      InSpansAppend(kept, piece, t);
    }
    forall t ensures InSpans(upTo, t) <==> InSpans(masks[..i], t) || SpanCovers(m, t) {
      InSpansAppend(masks[..i], m, t);
    }
  }

  /** When the scan stops, because the masks or the span are used up, the rest is kept too. */
  lemma {:induction false} CutEnd(span: Span, masks: seq<Span>, i: nat, kept: seq<Span>, cursor: int)
    requires GridSpan(span) && ProperSpans(masks) && SortedStarts(masks) && i <= |masks|
    requires Cut(span, masks, i, kept, cursor)
    requires cursor > span.1 || forall j :: i <= j < |masks| ==> span.1 < masks[j].0
    ensures forall t :: InSpans(if cursor <= span.1 then kept + [(cursor, span.1)] else kept, t) <==>
      SpanCovers(span, t) && !InSpans(masks, t)
  {
    var piece := (cursor, span.1);
    var out := if cursor <= span.1 then kept + [piece] else kept;
    if cursor > span.1 { GridStep(span.1, cursor); }
    forall t ensures InSpans(out, t) <==> SpanCovers(span, t) && !InSpans(masks, t) {
      InSpansAppend(kept, piece, t);
      InSpansSplit(masks, i, t);
      if InSpans(masks[i..], t) {
        var j :| 0 <= j < |masks| - i && SpanCovers(masks[i..][j], t);
        var m := masks[i + j];
        assert i > 0 ==> masks[i - 1].0 <= m.0;
        if span.1 < m.0 { GridStep(span.1, m.0); }
      }
    }
  }

  lemma {:induction false} InSpansConcat(a: seq<Span>, b: seq<Span>, t: int)
    ensures InSpans(a + b, t) <==> InSpans(a, t) || InSpans(b, t)
  {
    InSpansSplit(a + b, |a|, t);
    assert (a + b)[..|a|] == a && (a + b)[|a|..] == b;
  }

  lemma {:induction false} OrderedConcat(a: seq<Span>, b: seq<Span>)
    requires OrderedSpans(a) && OrderedSpans(b)
    requires a != [] && b != [] ==> a[|a| - 1].1 < b[0].0
    ensures OrderedSpans(a + b)
  {
    if a != [] && b != [] {
      forall i, j | 0 <= i < |a| && 0 <= j < |b| ensures a[i].1 < b[j].0 {
        assert i == |a| - 1 || a[i].1 < a[|a| - 1].0;
        assert j == 0 || b[0].1 < b[j].0;
      }
    }
  }

  lemma {:induction false} SortedMasks(masks: seq<Span>)
    ensures ProperSpans(masks) ==> ProperSpans(Sort(masks, PairLeq))
    ensures SortedStarts(Sort(masks, PairLeq))
    ensures forall t :: InSpans(Sort(masks, PairLeq), t) <==> InSpans(masks, t)
  {
    var sorted := Sort(masks, PairLeq);
    Preorders();
    SortSorted(masks, PairLeq);
    SameElements(masks, sorted);
    SameSpans(masks, sorted);
    forall i, j | 0 <= i < j < |sorted| ensures sorted[i].0 <= sorted[j].0 {
      assert PairLeq(sorted[i], sorted[j]);
    }
  }

  // ---------- rows ----------

  predicate RowCovers(row: int, t: int) {
    row <= t < row + ONE_MIN_MS
  }

  /** The minute that contains `t` has one of the stored rows. */
  predicate RowAt(rows: seq<int>, t: int) {
    exists i :: 0 <= i < |rows| && RowCovers(rows[i], t)
  }

  predicate GridRows(rows: seq<int>) {
    forall i :: 0 <= i < |rows| ==> Aligned(rows[i])
  }

  lemma {:induction false} RowAtAppend(rows: seq<int>, r: int, t: int)
    ensures RowAt(rows + [r], t) <==> RowAt(rows, t) || RowCovers(r, t)
  {
    var all := rows + [r];
    if RowAt(rows, t) {
      var i :| 0 <= i < |rows| && RowCovers(rows[i], t);
      assert RowCovers(all[i], t);
    }
    if RowCovers(r, t) { assert RowCovers(all[|rows|], t); }
  }

  lemma {:induction false} SameRows(a: seq<int>, b: seq<int>)
    requires forall r :: r in a <==> r in b
    ensures forall t :: RowAt(a, t) <==> RowAt(b, t)
    ensures GridRows(a) ==> GridRows(b)
  {
    forall t ensures RowAt(a, t) <==> RowAt(b, t) {
      if RowAt(a, t) { var i :| 0 <= i < |a| && RowCovers(a[i], t); assert a[i] in b; }
      if RowAt(b, t) { var i :| 0 <= i < |b| && RowCovers(b[i], t); assert b[i] in a; }
    }
    if GridRows(a) {
      forall i | 0 <= i < |b| ensures Aligned(b[i]) {
        var r: int := b[i];
        assert r in b;
        assert r in a;
        var j :| 0 <= j < |a| && a[j] == r;
      }
    }
  }
}
