/** Filling gaps of a materialised coin in place, and the coverage that is reported about it. */
module GapFiller {
  import opened ValidRuns

  datatype Row = Row(high: real, low: real, close: real, volume: real)

  /** A row without trading at one price. */
  function Flat(price: real): Row { Row(price, price, price, 0.0) }

  // ---------- what the fill must leave ----------

  /** The nearest valid row before `i`, or -1. */
  function LastValidBefore(valid: seq<bool>, i: nat): int
    requires i <= |valid|
  {
    if i == 0 then -1 else if valid[i - 1] then i - 1 else LastValidBefore(valid, i - 1)
  }

  /** The nearest valid row from `i` on, or the length. */
  function FirstValidFrom(valid: seq<bool>, i: nat): (r: nat)
    requires i <= |valid|
    ensures i <= r <= |valid|
    decreases |valid| - i
  {
    if i == |valid| || valid[i] then i else FirstValidFrom(valid, i + 1)
  }

  /** Rows between valid ones are filled, and those beside them when the edges are to be filled too. */
  predicate FilledFlag(valid: seq<bool>, edges: bool, i: nat)
    requires i < |valid|
  {
    var before, after := LastValidBefore(valid, i) >= 0, FirstValidFrom(valid, i) < |valid|;
    valid[i] || (before && after) || (edges && (before || after))
  }

  function FilledRow(rows: seq<Row>, valid: seq<bool>, edges: bool, i: nat): Row
    requires i < |rows| == |valid|
  {
    if valid[i] || !FilledFlag(valid, edges, i) then rows[i]
    else if LastValidBefore(valid, i) >= 0 then ValidBefore(valid, i); Flat(rows[LastValidBefore(valid, i)].close)
    else Flat(rows[FirstValidFrom(valid, i)].close)
  }

  function FilledFlags(valid: seq<bool>, edges: bool): seq<bool> {
    seq(|valid|, i requires 0 <= i < |valid| => FilledFlag(valid, edges, i))
  }

  function FilledRows(rows: seq<Row>, valid: seq<bool>, edges: bool): seq<Row>
    requires |rows| == |valid|
  {
    seq(|rows|, i requires 0 <= i < |rows| => FilledRow(rows, valid, edges, i))
  }

  lemma {:induction false} ValidBefore(valid: seq<bool>, i: nat)
    requires i <= |valid|
    ensures -1 <= LastValidBefore(valid, i) < i
    ensures LastValidBefore(valid, i) >= 0 ==> valid[LastValidBefore(valid, i)]
    ensures forall j :: LastValidBefore(valid, i) < j < i ==> !valid[j]
  {
    if i > 0 && !valid[i - 1] { ValidBefore(valid, i - 1); }
  }

  lemma {:induction false} ValidFrom(valid: seq<bool>, i: nat)
    requires i <= |valid|
    ensures FirstValidFrom(valid, i) < |valid| ==> valid[FirstValidFrom(valid, i)]
    ensures forall j :: i <= j < FirstValidFrom(valid, i) ==> !valid[j]
    decreases |valid| - i
  {
    if i < |valid| && !valid[i] { ValidFrom(valid, i + 1); }
  }

  /** The filled rows are the span from the first to the last valid row, or with edges all of them. */
  lemma {:induction false} FilledFlagIs(valid: seq<bool>, edges: bool, i: nat)
    requires i < |valid|
    ensures FilledFlag(valid, edges, i) <==>
      Count(valid) > 0 && (edges || ValidSpan(valid).first <= i <= ValidSpan(valid).last)
  {
    ValidSpanIs(valid);
    ValidBefore(valid, i);
    ValidFrom(valid, i);
    var s := ValidSpan(valid);
    if LastValidBefore(valid, i) >= 0 { assert At(valid, LastValidBefore(valid, i)); }
    if FirstValidFrom(valid, i) < |valid| { assert At(valid, FirstValidFrom(valid, i)); }
    if valid[i] { assert At(valid, i); }
  }

  /** A gap between two valid rows becomes flat at the close before it; the valid rows stay. */
  lemma {:induction false} GapIsFlat(rows: seq<Row>, valid: seq<bool>, edges: bool, a: nat, b: nat, i: nat)
    requires |rows| == |valid| && a < i < b < |valid| && valid[a] && valid[b]
    requires forall j :: a < j < b ==> !valid[j]
    ensures FilledRows(rows, valid, edges)[i] == Row(rows[a].close, rows[a].close, rows[a].close, 0.0)
    ensures FilledRows(rows, valid, edges)[a] == rows[a] && FilledRows(rows, valid, edges)[b] == rows[b]
    ensures FilledFlags(valid, edges)[i]
  {
    ValidBefore(valid, i);
    ValidFrom(valid, i);
  }

  /** Before the first and after the last valid row the rows stay, or with the edges repeat that row's close. */
  lemma {:induction false} EdgesAre(rows: seq<Row>, valid: seq<bool>, edges: bool, a: nat, i: nat)
    requires |rows| == |valid| && a < |valid| && valid[a] && i < |valid|
    requires (i < a && forall j :: 0 <= j < a ==> !valid[j]) || (a < i && forall j :: a < j < |valid| ==> !valid[j])
    ensures FilledFlags(valid, edges)[i] == edges
    ensures FilledRows(rows, valid, edges)[i] ==
      if edges then Row(rows[a].close, rows[a].close, rows[a].close, 0.0) else rows[i]
  {
    ValidBefore(valid, i);
    ValidFrom(valid, i);
  }

  /** Without the edges the longest valid stretch afterwards is the original span; with them, everything. */
  lemma {:induction false} LongestAfterFill(valid: seq<bool>)
    requires Count(valid) > 0
    ensures var s := ValidSpan(valid);
      LongestValidSpan(FilledFlags(valid, false)) == Span(s.first, s.last, s.last - s.first + 1)
    ensures LongestValidSpan(FilledFlags(valid, true)) == Span(0, |valid| - 1, |valid|)
  {
    ValidSpanIs(valid);
    var s := ValidSpan(valid);
    SolidSpan(valid, false, s.first, s.last);
    SolidSpan(valid, true, 0, |valid| - 1);
  }

  lemma {:induction false} SolidSpan(valid: seq<bool>, edges: bool, a: int, b: int)
    requires 0 <= a <= b < |valid|
    requires Count(valid) > 0
    requires if edges then a == 0 && b == |valid| - 1 else a == ValidSpan(valid).first && b == ValidSpan(valid).last
    ensures LongestValidSpan(FilledFlags(valid, edges)) == Span(a, b, b - a + 1)
  {
    var after := FilledFlags(valid, edges);
    forall i | 0 <= i < |valid| ensures after[i] <==> a <= i <= b { FilledFlagIs(valid, edges, i); }
    LongestOfOne(after, a, b);
  }

  /** The longest stretch of flags that form a single one. */
  lemma {:induction false} LongestOfOne(flags: seq<bool>, a: int, b: int)
    requires 0 <= a <= b < |flags| && forall i :: 0 <= i < |flags| ==> (flags[i] <==> a <= i <= b)
    ensures LongestValidSpan(flags) == Span(a, b, b - a + 1)
  {
    NoneIsLonger(flags, a, b);
    LongestIsValid(flags);
    ValidSpanIs(flags);
    assert At(flags, a);
    var s := LongestValidSpan(flags);
    assert flags[s.first] && flags[s.last];
  }

  /** Filling what was filled changes nothing. */
  lemma {:induction false} FillTwice(rows: seq<Row>, valid: seq<bool>, edges: bool)
    requires |rows| == |valid|
    ensures FilledFlags(FilledFlags(valid, edges), edges) == FilledFlags(valid, edges)
    ensures var once := FilledRows(rows, valid, edges);
      FilledRows(once, FilledFlags(valid, edges), edges) == once
  {
    var once := FilledFlags(valid, edges);
    forall i | 0 <= i < |valid| ensures FilledFlag(once, edges, i) == once[i] {
      FilledFlagIs(valid, edges, i);
      FilledFlagIs(once, edges, i);
      if !edges && Count(once) > 0 {
        ValidSpanIs(once);
        FilledFlagIs(valid, edges, ValidSpan(once).first);
        FilledFlagIs(valid, edges, ValidSpan(once).last);
      }
      if edges && Count(once) > 0 {
        ValidSpanIs(once);
        FilledFlagIs(valid, edges, ValidSpan(once).first);
      }
    }
  }

  // ---------- the gaps between the first and the last valid row ----------

  function Negated(flags: seq<bool>): seq<bool> {
    seq(|flags|, i requires 0 <= i < |flags| => !flags[i])
  }

  function Shifted(m: seq<int>, offset: int): seq<int> {
    seq(|m|, k requires 0 <= k < |m| => m[k] + offset)
  }

  /** The runs of `np.flatnonzero(~valid[first + 1 : last]) + first + 1`. */
  function InteriorGaps(valid: seq<bool>, first: int, last: int): seq<Run>
    requires 0 <= first <= last < |valid|
  {
    if first + 1 <= last - 1 then RunsOf(Shifted(FlatNonzero(Negated(valid[first + 1..last])), first + 1)) else []
  }

  ghost predicate MovedBy(inner: seq<Run>, runs: seq<Run>, offset: int) {
    && |inner| == |runs|
    && forall k :: 0 <= k < |inner| ==> runs[k] == Run(inner[k].start + offset, inner[k].end + offset)
  }

  lemma {:induction false} ShiftedRuns(m: seq<int>, offset: int)
    ensures MovedBy(RunsOf(m), RunsOf(Shifted(m, offset)), offset)
  {
    ShiftedBreaks(m, offset);
    forall k | 0 <= k < |RunsOf(m)|
      ensures RunsOf(Shifted(m, offset))[k] == Run(RunsOf(m)[k].start + offset, RunsOf(m)[k].end + offset)
    {
      ShiftedRun(m, offset, k);
    }
  }

  lemma {:induction false} ShiftedBreaks(m: seq<int>, offset: int)
    ensures Breaks(Shifted(m, offset)) == Breaks(m)
  {
    assert Steps(Shifted(m, offset)) == Steps(m);
  }

  lemma {:induction false} ShiftedRun(m: seq<int>, offset: int, k: nat)
    requires m != [] && k <= |Breaks(m)| == |Breaks(Shifted(m, offset))|
    ensures RunAt(Shifted(m, offset), k) == Run(RunAt(m, k).start + offset, RunAt(m, k).end + offset)
  {
    ShiftedBreaks(m, offset);
    BoundsInOrder(m, k, k + 1);
  }

  ghost predicate GapsOf(runs: seq<Run>, valid: seq<bool>, first: int, last: int)
    requires 0 <= first <= last < |valid|
  {
    && (forall k :: 0 <= k < |runs| ==> first < runs[k].start <= runs[k].end < last)
    && InSequence(runs)
    && forall i :: first < i < last ==> (!valid[i] <==> InRuns(runs, i))
  }

  lemma {:induction false} InteriorGapsAre(valid: seq<bool>, first: int, last: int)
    requires 0 <= first <= last < |valid|
    ensures GapsOf(InteriorGaps(valid, first, last), valid, first, last)
  {
    if first + 1 <= last - 1 {
      var flags := Negated(valid[first + 1..last]);
      var m := FlatNonzero(flags);
      RunsOfIndices(flags);
      ShiftedRuns(m, first + 1);
      ShiftedGaps(RunsOf(m), flags, InteriorGaps(valid, first, last), valid, first, last);
    }
  }

  lemma {:induction false} ShiftedGaps(inner: seq<Run>, flags: seq<bool>, runs: seq<Run>, valid: seq<bool>,
                                       first: int, last: int)
    requires 0 <= first < last < |valid| && flags == Negated(valid[first + 1..last]) && AreRuns(inner, flags)
    requires MovedBy(inner, runs, first + 1)
    ensures GapsOf(runs, valid, first, last)
  {
    forall i | first < i < last ensures !valid[i] <==> InRuns(runs, i) {
      assert flags[i - (first + 1)] == !valid[i];
      ShiftedMember(inner, runs, first + 1, i);
    }
    forall k, l | 0 <= k < l < |runs| ensures Before(runs[k], runs[l]) { assert Before(inner[k], inner[l]); }
  }

  lemma {:induction false} ShiftedMember(inner: seq<Run>, runs: seq<Run>, offset: int, i: int)
    requires MovedBy(inner, runs, offset)
    ensures InRuns(runs, i) <==> InRuns(inner, i - offset)
  {
    if InRuns(runs, i) {
      var k :| 0 <= k < |runs| && Within(runs[k], i);
      assert Within(inner[k], i - offset);
    }
    if InRuns(inner, i - offset) {
      var k :| 0 <= k < |inner| && Within(inner[k], i - offset);
      assert Within(runs[k], i);
    }
  }

  // ---------- the fill in place ----------

  /** `values[lo:hi] = flat, valid[lo:hi] = True`. */
  method FillRange(values: array<Row>, valid: array<bool>, lo: nat, hi: nat, close: real)
    requires lo <= hi <= values.Length == valid.Length
    modifies values, valid
    ensures forall i :: 0 <= i < values.Length ==> values[i] == if lo <= i < hi then Flat(close) else old(values[i])
    ensures forall i :: 0 <= i < valid.Length ==> valid[i] == (lo <= i < hi || old(valid[i]))
  {
    for i := lo to hi
      invariant forall j :: 0 <= j < values.Length ==> values[j] == if lo <= j < i then Flat(close) else old(values[j])
      invariant forall j :: 0 <= j < valid.Length ==> valid[j] == (lo <= j < i || old(valid[j]))
    {
      values[i], valid[i] := Flat(close), true;
    }
  }

  /** Below `bound` the fill is done, from there on nothing was touched. */
  ghost predicate FilledUpTo(rows: seq<Row>, valid: seq<bool>, edges: bool, bound: int, rows': seq<Row>,
                             valid': seq<bool>) {
    && |rows| == |valid| == |rows'| == |valid'|
    && forall i :: 0 <= i < |rows| ==>
      && rows'[i] == (if i < bound then FilledRow(rows, valid, edges, i) else rows[i])
      && valid'[i] == (if i < bound then FilledFlag(valid, edges, i) else valid[i])
  }

  /** Valid rows need no work. */
  lemma {:induction false} PassValid(rows: seq<Row>, valid: seq<bool>, edges: bool, bound: int, next: int,
                                     rows': seq<Row>, valid': seq<bool>)
    requires FilledUpTo(rows, valid, edges, bound, rows', valid') && 0 <= bound <= next <= |rows|
    requires forall i :: bound <= i < next ==> valid[i]
    ensures FilledUpTo(rows, valid, edges, next, rows', valid')
  {}

  /** One filled range; its rows must be the ones with this anchor. */
  lemma {:induction false} PassRange(rows: seq<Row>, valid: seq<bool>, edges: bool, lo: int, hi: int, close: real,
                                     rows': seq<Row>, valid': seq<bool>, rows'': seq<Row>, valid'': seq<bool>)
    requires FilledUpTo(rows, valid, edges, lo, rows', valid') && 0 <= lo <= hi <= |rows| == |rows''| == |valid''|
    requires forall i :: 0 <= i < |rows| ==> rows''[i] == if lo <= i < hi then Flat(close) else rows'[i]
    requires forall i :: 0 <= i < |rows| ==> valid''[i] == (lo <= i < hi || valid'[i])
    requires forall i :: lo <= i < hi ==>
      !valid[i] && FilledFlag(valid, edges, i) && FilledRow(rows, valid, edges, i) == Flat(close)
    ensures FilledUpTo(rows, valid, edges, hi, rows'', valid'')
    ensures Count(valid'') == Count(valid') + hi - lo
  {
    CountFill(valid', valid'', lo, hi);
  }

  lemma {:induction false} CountFill(a: seq<bool>, b: seq<bool>, lo: int, hi: int)
    requires 0 <= lo <= hi <= |a| == |b|
    requires forall i :: 0 <= i < |a| ==> b[i] == (lo <= i < hi || a[i])
    requires forall i :: lo <= i < hi ==> !a[i]
    ensures Count(b) == Count(a) + hi - lo
  {
    if lo == hi {
      assert a == b;
    } else {
      var n := |a| - 1;
      CountFill(a[..n], b[..n], lo, if hi == n + 1 then n else hi);
    }
  }

  /** The rows of one interior gap all have the row before it as their anchor. */
  lemma {:induction false} GapAnchor(rows: seq<Row>, valid: seq<bool>, edges: bool, r: Run, last: int)
    requires |rows| == |valid| && 1 <= r.start <= r.end < last < |rows| && valid[r.start - 1] && valid[last]
    requires forall i :: r.start <= i <= r.end ==> !valid[i]
    ensures forall i :: r.start <= i <= r.end ==>
      !valid[i] && FilledFlag(valid, edges, i) && FilledRow(rows, valid, edges, i) == Flat(rows[r.start - 1].close)
  {
    forall i | r.start <= i <= r.end
      ensures FilledFlag(valid, edges, i) && FilledRow(rows, valid, edges, i) == Flat(rows[r.start - 1].close)
    {
      ValidBefore(valid, i);
      ValidFrom(valid, i);
    }
  }

  /** The leading rows have the first valid row as their anchor, the trailing rows the last. */
  lemma {:induction false} EdgeAnchors(rows: seq<Row>, valid: seq<bool>)
    requires |rows| == |valid| && Count(valid) > 0
    ensures var s := ValidSpan(valid);
      && 0 <= s.first <= s.last < |valid| && valid[s.first] && valid[s.last]
      && (forall i :: 0 <= i < s.first ==>
        !valid[i] && FilledFlag(valid, true, i) && FilledRow(rows, valid, true, i) == Flat(rows[s.first].close))
      && (forall i :: s.last < i < |valid| ==>
        !valid[i] && FilledFlag(valid, true, i) && FilledRow(rows, valid, true, i) == Flat(rows[s.last].close))
  {
    ValidSpanIs(valid);
    var s := ValidSpan(valid);
    forall i | 0 <= i < s.first || s.last < i < |valid| ensures !valid[i] && FilledFlag(valid, true, i)
      && FilledRow(rows, valid, true, i) == Flat(rows[if i < s.first then s.first else s.last].close)
    {
      FilledFlagIs(valid, true, i);
      ValidBefore(valid, i);
      ValidFrom(valid, i);
      if valid[i] { assert At(valid, i); }
      if LastValidBefore(valid, i) >= 0 { assert At(valid, LastValidBefore(valid, i)); }
      if FirstValidFrom(valid, i) < |valid| { assert At(valid, FirstValidFrom(valid, i)); }
    }
  }

  /** Without edge fill the outer rows stay as they are. */
  lemma {:induction false} EdgesUntouched(rows: seq<Row>, valid: seq<bool>, i: nat)
    requires i < |rows| == |valid|
    requires Count(valid) > 0 ==> i < ValidSpan(valid).first || ValidSpan(valid).last < i
    ensures FilledRow(rows, valid, false, i) == rows[i] && FilledFlag(valid, false, i) == valid[i]
  {
    FilledFlagIs(valid, false, i);
  }

  /** `_fill_sparse_hlcv_gaps`. */
  method FillSparseGaps(values: array<Row>, valid: array<bool>, edges: bool) returns (filled: int)
    requires values.Length == valid.Length
    modifies values, valid
    ensures values[..] == FilledRows(old(values[..]), old(valid[..]), edges)
    ensures valid[..] == FilledFlags(old(valid[..]), edges)
    ensures filled == Count(valid[..]) - Count(old(valid[..]))
  {
    ghost var rows, flags := values[..], valid[..];
    var s := ValidSpan(valid[..]);
    filled := 0;
    if s.count == 0 {
      ValidSpanIs(flags);
      Unfilled(rows, flags, edges);
      return;
    }
    ValidSpanIs(flags);
    var leading := FillLeading(values, valid, s.first, edges);
    var interior := FillInterior(values, valid, s.first, s.last, rows, flags, edges);
    var trailing := FillTrailing(values, valid, s.last, edges, rows, flags);
    filled := leading + interior + trailing;
    FilledAll(rows, flags, edges, values[..], valid[..]);
  }

  lemma {:induction false} FilledAll(rows: seq<Row>, valid: seq<bool>, edges: bool, rows': seq<Row>, valid': seq<bool>)
    requires FilledUpTo(rows, valid, edges, |rows|, rows', valid')
    ensures rows' == FilledRows(rows, valid, edges) && valid' == FilledFlags(valid, edges)
  {}

  method FillLeading(values: array<Row>, valid: array<bool>, first: nat, edges: bool) returns (filled: int)
    requires values.Length == valid.Length && Count(valid[..]) > 0 && first == ValidSpan(valid[..]).first
    modifies values, valid
    ensures FilledUpTo(old(values[..]), old(valid[..]), edges, first, values[..], valid[..])
    ensures filled == Count(valid[..]) - Count(old(valid[..]))
  {
    ghost var rows, flags := values[..], valid[..];
    filled := 0;
    EdgeAnchors(rows, flags);
    if edges && first > 0 {
      FillRange(values, valid, 0, first, values[first].close);
      PassRange(rows, flags, edges, 0, first, rows[first].close, rows, flags, values[..], valid[..]);
      filled := filled + first;
    } else {
      LeadingDone(rows, flags, edges);
    }
  }

  method FillTrailing(values: array<Row>, valid: array<bool>, last: nat, edges: bool,
                      ghost rows: seq<Row>, ghost flags: seq<bool>) returns (filled: int)
    requires values.Length == valid.Length == |rows| == |flags| && Count(flags) > 0 && last == ValidSpan(flags).last
    requires last < |rows| && FilledUpTo(rows, flags, edges, last + 1, values[..], valid[..])
    modifies values, valid
    ensures FilledUpTo(rows, flags, edges, |rows|, values[..], valid[..])
    ensures filled == Count(valid[..]) - Count(old(valid[..]))
  {
    ghost var rows', flags' := values[..], valid[..];
    filled := 0;
    EdgeAnchors(rows, flags);
    if edges && last < valid.Length - 1 {
      LastUnchanged(rows, flags, edges, last, rows', flags');
      FillRange(values, valid, last + 1, valid.Length, values[last].close);
      PassRange(rows, flags, edges, last + 1, |rows|, rows[last].close, rows', flags', values[..], valid[..]);
      filled := filled + (valid.Length - (last + 1));
    } else {
      TrailingDone(rows, flags, edges, rows', flags');
    }
  }

  lemma {:induction false} LastUnchanged(rows: seq<Row>, valid: seq<bool>, edges: bool, i: nat,
                                         rows': seq<Row>, valid': seq<bool>)
    requires i < |rows| && FilledUpTo(rows, valid, edges, i + 1, rows', valid') && valid[i]
    ensures rows'[i] == rows[i]
  {}

  lemma {:induction false} Unfilled(rows: seq<Row>, valid: seq<bool>, edges: bool)
    requires |rows| == |valid| && Count(valid) == 0
    ensures FilledRows(rows, valid, edges) == rows && FilledFlags(valid, edges) == valid
  {
    ValidSpanIs(valid);
    forall i | 0 <= i < |valid| ensures FilledFlag(valid, edges, i) == valid[i] { FilledFlagIs(valid, edges, i); }
  }

  lemma {:induction false} LeadingDone(rows: seq<Row>, valid: seq<bool>, edges: bool)
    requires |rows| == |valid| && Count(valid) > 0 && (!edges || ValidSpan(valid).first <= 0)
    ensures FilledUpTo(rows, valid, edges, ValidSpan(valid).first, rows, valid)
  {
    ValidSpanIs(valid);
    forall i | 0 <= i < ValidSpan(valid).first
      ensures FilledRow(rows, valid, edges, i) == rows[i] && FilledFlag(valid, edges, i) == valid[i]
    {
      EdgesUntouched(rows, valid, i);
    }
  }

  lemma {:induction false} TrailingDone(rows: seq<Row>, valid: seq<bool>, edges: bool, rows': seq<Row>,
                                        valid': seq<bool>)
    requires |rows| == |valid| && Count(valid) > 0 && (!edges || ValidSpan(valid).last >= |valid| - 1)
    requires FilledUpTo(rows, valid, edges, ValidSpan(valid).last + 1, rows', valid')
    ensures FilledUpTo(rows, valid, edges, |rows|, rows', valid')
  {
    forall i | ValidSpan(valid).last < i < |rows|
      ensures FilledRow(rows, valid, edges, i) == rows[i] && FilledFlag(valid, edges, i) == valid[i]
    {
      ValidSpanIs(valid);
      EdgesUntouched(rows, valid, i);
    }
  }

  /** The gaps between valid rows, one after the other. */
  method FillInterior(values: array<Row>, valid: array<bool>, first: nat, last: nat,
                      ghost rows: seq<Row>, ghost flags: seq<bool>, ghost edges: bool) returns (filled: int)
    requires values.Length == valid.Length == |rows| == |flags|
    requires first <= last < valid.Length && flags[first] && flags[last]
    requires FilledUpTo(rows, flags, edges, first, values[..], valid[..])
    modifies values, valid
    ensures FilledUpTo(rows, flags, edges, last + 1, values[..], valid[..])
    ensures filled == Count(valid[..]) - Count(old(valid[..]))
  {
    filled := 0;
    var gaps := InteriorGaps(valid[..], first, last);
    GapsFound(rows, flags, edges, values[..], valid[..], first, last);
    ghost var bound: int := first;
    for k := 0 to |gaps|
      invariant bound == if k == 0 then first else gaps[k - 1].end + 1
      invariant FilledUpTo(rows, flags, edges, bound, values[..], valid[..])
      invariant filled == Count(valid[..]) - Count(old(valid[..]))
    {
      GapPlace(gaps, flags, first, last, k, bound);
      var n := FillGap(values, valid, gaps[k], last, rows, flags, edges, bound);
      filled := filled + n;
      bound := gaps[k].end + 1;
    }
    NoGapAfter(gaps, flags, first, last, bound);
    PassValid(rows, flags, edges, bound, last + 1, values[..], valid[..]);
  }

  /** The leading fill does not reach the interior, so the gaps there are the original ones. */
  lemma {:induction false} SameGaps(rows: seq<Row>, valid: seq<bool>, edges: bool,
                                    rows': seq<Row>, valid': seq<bool>, first: int, last: int)
    requires 0 <= first <= last < |valid| && FilledUpTo(rows, valid, edges, first, rows', valid')
    ensures InteriorGaps(valid', first, last) == InteriorGaps(valid, first, last)
  {
    if first + 1 <= last - 1 { assert valid'[first + 1..last] == valid[first + 1..last]; }
  }

  lemma {:induction false} GapsFound(rows: seq<Row>, valid: seq<bool>, edges: bool,
                                     rows': seq<Row>, valid': seq<bool>, first: int, last: int)
    requires 0 <= first <= last < |valid| && FilledUpTo(rows, valid, edges, first, rows', valid')
    ensures GapsOf(InteriorGaps(valid', first, last), valid, first, last)
  {
    SameGaps(rows, valid, edges, rows', valid', first, last);
    InteriorGapsAre(valid, first, last);
  }

  method FillGap(values: array<Row>, valid: array<bool>, gap: Run, ghost last: int,
                 ghost rows: seq<Row>, ghost flags: seq<bool>, ghost edges: bool, ghost bound: int)
    returns (filled: int)
    requires values.Length == valid.Length == |rows| == |flags|
    requires 0 <= bound < gap.start <= gap.end < last < |rows| && flags[last]
    requires forall i :: bound <= i < gap.start ==> flags[i]
    requires forall i :: gap.start <= i <= gap.end ==> !flags[i]
    requires FilledUpTo(rows, flags, edges, bound, values[..], valid[..])
    modifies values, valid
    ensures FilledUpTo(rows, flags, edges, gap.end + 1, values[..], valid[..])
    ensures filled == Count(valid[..]) - Count(old(valid[..]))
  {
    ghost var rows', flags' := values[..], valid[..];
    PassValid(rows, flags, edges, bound, gap.start, rows', flags');
    GapAnchor(rows, flags, edges, gap, last);
    FillRange(values, valid, gap.start, gap.end + 1, values[gap.start - 1].close);
    ghost var anchor := rows[gap.start - 1].close;
    PassRange(rows, flags, edges, gap.start, gap.end + 1, anchor, rows', flags', values[..], valid[..]);
    filled := gap.end - gap.start + 1;
  }

  /** Between the gaps everything is valid. */
  lemma {:induction false} GapPlace(gaps: seq<Run>, valid: seq<bool>, first: int, last: int, k: nat, bound: int)
    requires 0 <= first <= last < |valid| && GapsOf(gaps, valid, first, last) && k < |gaps| && valid[first]
    requires bound == if k == 0 then first else gaps[k - 1].end + 1
    ensures first <= bound <= gaps[k].start - 1 && gaps[k].end < last
    ensures forall i :: bound <= i < gaps[k].start ==> valid[i]
    ensures forall i :: gaps[k].start <= i <= gaps[k].end ==> !valid[i]
  {
    if k > 0 { assert Before(gaps[k - 1], gaps[k]); }
    forall i | bound <= i < gaps[k].start ensures valid[i] {
      if i > first && InRuns(gaps, i) {
        var l :| 0 <= l < |gaps| && Within(gaps[l], i);
        GapOrder(gaps, valid, first, last, k, l);
      }
    }
    forall i | gaps[k].start <= i <= gaps[k].end ensures !valid[i] {
      assert Within(gaps[k], i);
      assert InRuns(gaps, i);
    }
  }

  lemma {:induction false} GapOrder(gaps: seq<Run>, valid: seq<bool>, first: int, last: int, k: nat, l: nat)
    requires 0 <= first <= last < |valid| && GapsOf(gaps, valid, first, last) && k <= |gaps| && l < |gaps|
    ensures l < k ==> gaps[l].end <= gaps[k - 1].end
    ensures k <= l ==> gaps[k].start <= gaps[l].start
  {
    if l < k - 1 { assert Before(gaps[l], gaps[k - 1]); }
    if k < l { assert Before(gaps[k], gaps[l]); }
  }

  lemma {:induction false} NoGapAfter(gaps: seq<Run>, valid: seq<bool>, first: int, last: int, bound: int)
    requires 0 <= first <= last < |valid| && GapsOf(gaps, valid, first, last) && valid[first] && valid[last]
    requires bound == if gaps == [] then first else gaps[|gaps| - 1].end + 1
    ensures first <= bound <= last && forall i :: bound <= i <= last ==> valid[i]
  {
    forall i | bound <= i <= last ensures valid[i] {
      if first < i < last && InRuns(gaps, i) {
        var l :| 0 <= l < |gaps| && Within(gaps[l], i);
        GapOrder(gaps, valid, first, last, |gaps|, l);
      }
    }
  }
}

/** What is reported about a coin's rows before they are filled. */
module Coverage {
  import opened GapFiller
  import opened Minutes
  import opened ValidRuns
  import opened Wrappers

  datatype Metadata = Metadata(
    requestedStart: int,
    requestedEnd: int,
    validRows: int,
    invalidRows: int,
    gapCount: int,
    gapMinutes: int,
    trailing: int,
    leading: int,
    validStart: Option<int>,
    validEnd: Option<int>,
    windows: Option<seq<(int, int)>>)

  const MAX_WINDOWS: nat := 20

  function InMinutes(rows: int, intervalMs: int): int { rows * intervalMs / 60_000 }

  function TotalMinutes(runs: seq<Run>, intervalMs: int): int {
    if runs == [] then 0
    else TotalMinutes(runs[..|runs| - 1], intervalMs) + InMinutes(Length(runs[|runs| - 1]), intervalMs)
  }

  /** `_coverage_metadata`. */
  method CoverageMetadata(valid: seq<bool>, startTs: int, intervalMs: int) returns (c: Metadata)
    ensures c.requestedStart == startTs
    ensures c.requestedEnd == if valid == [] then startTs else startTs + (|valid| - 1) * intervalMs
    ensures c.validRows == Count(valid) && c.validRows + c.invalidRows == |valid|
    ensures c.validRows == 0 ==>
      && c.gapCount == c.gapMinutes == c.leading == c.trailing == 0
      && c.validStart.None? && c.validEnd.None? && c.windows.None?
    ensures c.validRows > 0 ==>
      var s := ValidSpan(valid);
      && 0 <= s.first <= s.last < |valid|
      && c.validStart == Some(startTs + s.first * intervalMs) && c.validEnd == Some(startTs + s.last * intervalMs)
      && c.leading == InMinutes(s.first, intervalMs) && c.trailing == InMinutes(|valid| - s.last - 1, intervalMs)
      && var gaps := InteriorGaps(valid, s.first, s.last);
      && c.gapCount == |gaps| && c.gapMinutes == TotalMinutes(gaps, intervalMs)
      && c.windows == if gaps == [] then None else Some(Windows(gaps, startTs, intervalMs)[..Min(|gaps|, 20)])
  {
    var s := ValidSpan(valid);
    ValidSpanIs(valid);
    c := Metadata(startTs, if |valid| > 0 then startTs + (|valid| - 1) * intervalMs else startTs,
      s.count, |valid| - s.count, 0, 0, 0, 0, None, None, None);
    if s.count <= 0 {
      return;
    }
    c := c.(
      validStart := Some(startTs + s.first * intervalMs),
      validEnd := Some(startTs + s.last * intervalMs),
      leading := InMinutes(s.first, intervalMs),
      trailing := InMinutes(|valid| - s.last - 1, intervalMs));
    var gaps := InteriorGaps(valid, s.first, s.last);
    if gaps != [] {
      var minutes, windows := CollectWindows(gaps, startTs, intervalMs);
      c := c.(gapCount := |gaps|, gapMinutes := minutes, windows := Some(windows));
    }
  }

  function Windows(gaps: seq<Run>, startTs: int, intervalMs: int): seq<(int, int)> {
    seq(|gaps|, k requires 0 <= k < |gaps| =>
      (startTs + gaps[k].start * intervalMs, startTs + gaps[k].end * intervalMs))
  }

  method CollectWindows(gaps: seq<Run>, startTs: int, intervalMs: int) returns (minutes: int, windows: seq<(int, int)>)
    ensures minutes == TotalMinutes(gaps, intervalMs)
    ensures windows == Windows(gaps, startTs, intervalMs)[..Min(|gaps|, MAX_WINDOWS)]
  {
    minutes, windows := 0, [];
    for k := 0 to |gaps|
      invariant minutes == TotalMinutes(gaps[..k], intervalMs)
      invariant windows == Windows(gaps, startTs, intervalMs)[..Min(k, MAX_WINDOWS)]
    {
      assert gaps[..k + 1][..k] == gaps[..k];
      minutes := minutes + InMinutes(Length(gaps[k]), intervalMs);
      if |windows| < MAX_WINDOWS {
        windows := windows + [(startTs + gaps[k].start * intervalMs, startTs + gaps[k].end * intervalMs)];
      }
    }
    assert gaps[..|gaps|] == gaps;
  }

  /** The gap windows hold the times of exactly the invalid rows with a valid one before and a valid one behind. */
  lemma {:induction false} WindowsAreGaps(valid: seq<bool>, startTs: int, intervalMs: int, r: int)
    requires Count(valid) > 0 && intervalMs > 0 && 0 <= r < |valid|
    ensures var s := ValidSpan(valid);
      && 0 <= s.first <= s.last < |valid|
      && var windows := Windows(InteriorGaps(valid, s.first, s.last), startTs, intervalMs);
      (exists k :: 0 <= k < |windows| && windows[k].0 <= startTs + r * intervalMs <= windows[k].1) <==>
      !valid[r] && (exists a :: 0 <= a < r && valid[a]) && (exists b :: r < b < |valid| && valid[b])
  {
    var s := ValidSpan(valid);
    ValidSpanIs(valid);
    var gaps := InteriorGaps(valid, s.first, s.last);
    var windows := Windows(gaps, startTs, intervalMs);
    InteriorGapsAre(valid, s.first, s.last);
    forall k | 0 <= k < |gaps|
      ensures windows[k].0 <= startTs + r * intervalMs <= windows[k].1 <==> Within(gaps[k], r)
    {
      SameOrder(gaps[k].start, r, intervalMs);
      SameOrder(r, gaps[k].end, intervalMs);
    }
    assert InRuns(gaps, r) <==>
      exists k :: 0 <= k < |windows| && windows[k].0 <= startTs + r * intervalMs <= windows[k].1;
    if valid[r] {
      assert At(valid, r) && !InRuns(gaps, r);
    } else {
      BetweenValid(valid, r);
    }
  }

  lemma {:induction false} SameOrder(a: int, b: int, step: int)
    requires step > 0
    ensures a <= b <==> a * step <= b * step
  {}

  lemma {:induction false} BetweenValid(valid: seq<bool>, r: int)
    requires Count(valid) > 0 && 0 <= r < |valid| && !valid[r]
    ensures ValidSpan(valid).first < r < ValidSpan(valid).last <==>
      (exists a :: 0 <= a < r && valid[a]) && (exists b :: r < b < |valid| && valid[b])
  {
    ValidSpanIs(valid);
    var s := ValidSpan(valid);
    assert At(valid, s.first) && At(valid, s.last);
    if exists a :: 0 <= a < r && valid[a] { var a :| 0 <= a < r && valid[a]; assert At(valid, a); }
    if exists b :: r < b < |valid| && valid[b] { var b :| r < b < |valid| && valid[b]; assert At(valid, b); }
  }

  // ---------- every row is accounted for ----------

  function TotalLength(runs: seq<Run>): int {
    if runs == [] then 0 else TotalLength(runs[..|runs| - 1]) + Length(runs[|runs| - 1])
  }

  /** With whole minutes to a row, minutes are rows times minutes. */
  lemma {:induction false} MinuteRows(runs: seq<Run>, minutes: nat)
    ensures TotalMinutes(runs, minutes * 60_000) == TotalLength(runs) * minutes
  {
    if runs != [] {
      MinuteRows(runs[..|runs| - 1], minutes);
      RowsInMinutes(Length(runs[|runs| - 1]), minutes);
    }
  }

  lemma {:induction false} RowsInMinutes(rows: int, minutes: nat)
    ensures InMinutes(rows, minutes * 60_000) == rows * minutes
  {
    assert rows * (minutes * 60_000) == rows * minutes * 60_000;
  }

  function WithRuns(valid: seq<bool>, runs: seq<Run>): seq<bool> {
    seq(|valid|, i requires 0 <= i < |valid| => valid[i] || InRuns(runs, i))
  }

  lemma {:induction false} CountWithRuns(valid: seq<bool>, runs: seq<Run>)
    requires Apart(runs, |valid|)
    requires forall i :: 0 <= i < |valid| && InRuns(runs, i) ==> !valid[i]
    ensures Count(WithRuns(valid, runs)) == Count(valid) + TotalLength(runs)
  {
    if runs == [] {
      assert WithRuns(valid, runs) == valid;
    } else {
      var n := |runs| - 1;
      var less := runs[..n];
      forall k, l | 0 <= k < l < n ensures Before(less[k], less[l]) { assert Before(runs[k], runs[l]); }
      forall i ensures InRuns(runs, i) <==> InRuns(less, i) || Within(runs[n], i) { OneRunMore(runs, i); }
      CountWithRuns(valid, less);
      forall i | runs[n].start <= i <= runs[n].end ensures !WithRuns(valid, less)[i] {
        assert Within(runs[n], i);
        NotInEarlierRun(runs, |valid|, i);
      }
      CountFill(WithRuns(valid, less), WithRuns(valid, runs), runs[n].start, runs[n].end + 1);
    }
  }

  lemma {:induction false} OneRunMore(runs: seq<Run>, i: int)
    requires runs != []
    ensures InRuns(runs, i) <==> InRuns(runs[..|runs| - 1], i) || Within(runs[|runs| - 1], i)
  {
    var n := |runs| - 1;
    if InRuns(runs, i) {
      var k :| 0 <= k < |runs| && Within(runs[k], i);
      if k < n { assert Within(runs[..n][k], i); }
    }
    if InRuns(runs[..n], i) {
      var k :| 0 <= k < n && Within(runs[..n][k], i);
      assert Within(runs[k], i);
    }
  }

  lemma {:induction false} NotInEarlierRun(runs: seq<Run>, n: int, i: int)
    requires Apart(runs, n) && runs != [] && Within(runs[|runs| - 1], i)
    ensures !InRuns(runs[..|runs| - 1], i)
  {
    var less := runs[..|runs| - 1];
    forall k | 0 <= k < |less| ensures !Within(less[k], i) { RunsFollow(runs, n, k, |runs| - 1); }
  }

  lemma {:induction false} CountNone(n: nat)
    ensures Count(seq(n, _ => false)) == 0
  {
    if n > 0 {
      CountNone(n - 1);
      assert seq(n, _ => false)[..n - 1] == seq(n - 1, _ => false);
    }
  }

  /**
   * At any number of minutes to a row, valid, leading, interior and trailing minutes make up all, and the
   * interior ones are what the fill without edges will add.
   */
  lemma {:induction false} RowsAddUp(valid: seq<bool>, minutes: nat)
    requires Count(valid) > 0
    ensures var s, ms := ValidSpan(valid), minutes * 60_000;
      && 0 <= s.first <= s.last < |valid|
      && var gapMinutes := TotalMinutes(InteriorGaps(valid, s.first, s.last), ms);
      && Count(valid) * minutes + InMinutes(s.first, ms) + gapMinutes + InMinutes(|valid| - s.last - 1, ms)
         == |valid| * minutes
      && gapMinutes == (Count(FilledFlags(valid, false)) - Count(valid)) * minutes
  {
    var s := ValidSpan(valid);
    ValidSpanIs(valid);
    MinuteRows(InteriorGaps(valid, s.first, s.last), minutes);
    RowsInMinutes(s.first, minutes);
    RowsInMinutes(|valid| - s.last - 1, minutes);
    FilledIsSpan(valid);
    FilledByGaps(valid);
    var gapRows := TotalLength(InteriorGaps(valid, s.first, s.last));
    InMinutesEach(Count(valid), s.first, gapRows, |valid| - s.last - 1, minutes);
    assert gapRows == Count(FilledFlags(valid, false)) - Count(valid);
  }

  lemma {:induction false} InMinutesEach(a: int, b: int, c: int, d: int, minutes: int)
    ensures (a + b + c + d) * minutes == a * minutes + b * minutes + c * minutes + d * minutes
  {}

  lemma {:induction false} FilledIsSpan(valid: seq<bool>)
    requires Count(valid) > 0
    ensures Count(FilledFlags(valid, false)) == ValidSpan(valid).last - ValidSpan(valid).first + 1
  {
    var s := ValidSpan(valid);
    ValidSpanIs(valid);
    forall i | 0 <= i < |valid| ensures FilledFlags(valid, false)[i] == (s.first <= i <= s.last) {
      FilledFlagIs(valid, false, i);
    }
    CountNone(|valid|);
    CountFill(seq(|valid|, _ => false), FilledFlags(valid, false), s.first, s.last + 1);
  }

  lemma {:induction false} FilledByGaps(valid: seq<bool>)
    requires Count(valid) > 0 && 0 <= ValidSpan(valid).first <= ValidSpan(valid).last < |valid|
    ensures Count(FilledFlags(valid, false)) ==
      Count(valid) + TotalLength(InteriorGaps(valid, ValidSpan(valid).first, ValidSpan(valid).last))
  {
    var s := ValidSpan(valid);
    var gaps := InteriorGaps(valid, s.first, s.last);
    InteriorGapsAre(valid, s.first, s.last);
    forall i | 0 <= i < |valid|
      ensures FilledFlag(valid, false, i) == WithRuns(valid, gaps)[i] && (InRuns(gaps, i) ==> !valid[i])
    {
      GapOrFilled(valid, gaps, i);
    }
    assert FilledFlags(valid, false) == WithRuns(valid, gaps);
    CountWithRuns(valid, gaps);
  }

  lemma {:induction false} GapOrFilled(valid: seq<bool>, gaps: seq<Run>, i: nat)
    requires i < |valid| && Count(valid) > 0
    requires 0 <= ValidSpan(valid).first <= ValidSpan(valid).last < |valid|
    requires GapsOf(gaps, valid, ValidSpan(valid).first, ValidSpan(valid).last)
    ensures FilledFlag(valid, false, i) == (ValidSpan(valid).first <= i <= ValidSpan(valid).last)
    ensures FilledFlag(valid, false, i) == (valid[i] || InRuns(gaps, i))
    ensures InRuns(gaps, i) ==> !valid[i]
  {
    ValidSpanIs(valid);
    FilledFlagIs(valid, false, i);
    var s := ValidSpan(valid);
    if valid[i] { assert At(valid, i); }
    if InRuns(gaps, i) {
      var k :| 0 <= k < |gaps| && Within(gaps[k], i);
      assert s.first < i < s.last;
    }
    assert At(valid, s.first) && At(valid, s.last);
  }
}

/** Writing the coins' frames into the time-major dataset, a bounded number of rows at a time. */
module FrameWriter {
  import opened Minutes

  /** Row `t` of the destination holds every coin's row `t`. */
  ghost predicate Stacked(destination: array3<real>, frames: seq<array2<real>>, t: int)
    requires 0 <= t < destination.Length0 && Fit(destination, frames)
    reads destination, frames
  {
    forall c, f :: 0 <= c < |frames| && 0 <= f < destination.Length2 ==> destination[t, c, f] == frames[c][t, f]
  }

  /** One frame for each coin, with rows enough and the destination's fields. */
  ghost predicate Fit(destination: array3<real>, frames: seq<array2<real>>) {
    && |frames| == destination.Length1
    && forall c :: 0 <= c < |frames| ==>
      frames[c].Length0 >= destination.Length0 && frames[c].Length1 == destination.Length2
  }

  /** `_write_time_major_frame_chunks`: for every chunk size the destination is the stack of the frames. */
  method WriteChunks(destination: array3<real>, frames: seq<array2<real>>, itemSize: nat, targetChunkBytes: int)
    returns (chunks: int)
    requires frames != [] ==> Fit(destination, frames)
    modifies destination
    ensures frames == [] ==> chunks == 0 && unchanged(destination)
    ensures frames != [] ==> forall t :: 0 <= t < destination.Length0 ==> Stacked(destination, frames, t)
    ensures chunks == 0 <==> frames == [] || destination.Length0 == 0
    ensures frames != [] && chunks > 0 ==>
      var rows := Max(1, targetChunkBytes / Max(1, |frames| * destination.Length2 * itemSize));
      (chunks - 1) * rows < destination.Length0 <= chunks * rows
  {
    if frames == [] {
      return 0;
    }
    var rowBytes := |frames| * destination.Length2 * itemSize;
    var chunkRows := Max(1, targetChunkBytes / Max(1, rowBytes));
    chunks := 0;
    var start := 0;
    while start < destination.Length0
      invariant 0 <= start <= destination.Length0 && 0 <= chunks
      invariant if chunks == 0 then start == 0 else (chunks - 1) * chunkRows < start <= chunks * chunkRows
      invariant start < destination.Length0 ==> start == chunks * chunkRows
      invariant forall t :: 0 <= t < start ==> Stacked(destination, frames, t)
    {
      var end := Min(destination.Length0, start + chunkRows);
      label before:
      WriteRows(destination, frames, start, end);
      forall t | 0 <= t < end ensures Stacked(destination, frames, t) {
        assert t < start ==> old@before(Stacked(destination, frames, t));
      }
      assert (chunks + 1) * chunkRows == chunks * chunkRows + chunkRows;
      chunks := chunks + 1;
      start := end;
    }
  }

  /** `destination[start:end] = np.stack([frame[start:end] for frame in frames], axis=1)`. */
  method WriteRows(destination: array3<real>, frames: seq<array2<real>>, start: nat, end: nat)
    requires Fit(destination, frames) && start <= end <= destination.Length0
    modifies destination
    ensures forall t, c, f ::
      0 <= t < destination.Length0 && 0 <= c < destination.Length1 && 0 <= f < destination.Length2 ==>
      destination[t, c, f] == if start <= t < end then frames[c][t, f] else old(destination[t, c, f])
  {
    forall t, c, f | start <= t < end && 0 <= c < destination.Length1 && 0 <= f < destination.Length2 {
      destination[t, c, f] := frames[c][t, f];
    }
  }
}
