/**
 * Gap standardisation: the runtime array over a minute range, with flat zero-volume candles
 * for missing minutes that may be represented.
 */
module StandardizeGaps {
  import opened Wrappers
  import opened Minutes
  import opened Sorting
  import opened Spans
  import opened Candles

  datatype Options = Options(
    start: Option<int>,
    end: Option<int>,
    strict: bool,
    fillLeading: bool,
    fillTrailing: bool,
    assumeSorted: bool,
    excluded: seq<Span>)

  predicate GridCandles(s: seq<Candle>) {
    forall i :: 0 <= i < |s| ==> Aligned(s[i].ts)
  }

  function Timestamps(s: seq<Candle>): (r: seq<int>)
    ensures |r| == |s| && forall i :: 0 <= i < |s| ==> r[i] == s[i].ts
  {
    seq(|s|, i requires 0 <= i < |s| => s[i].ts)
  }

  /** The array as the rest of the method sees it: sorted unless the caller vouches for it. */
  function Ordered(candles: seq<Candle>, opts: Options): seq<Candle> {
    if opts.assumeSorted || SortedTs(candles) then candles else SortByTs(candles)
  }

  /** First minute to represent: not before the first real candle, unless leading gaps are filled. */
  function EffectiveLo(s: seq<Candle>, opts: Options): int
    requires s != []
  {
    var lo := FloorMinute(if opts.start.Some? then opts.start.value else s[0].ts);
    if !opts.fillLeading && s[0].ts > lo then FloorMinute(s[0].ts) else lo
  }

  /** Last minute to represent: not after the last real candle, unless trailing gaps are filled. */
  function EffectiveHi(s: seq<Candle>, opts: Options): int
    requires s != []
  {
    var hi := FloorMinute(if opts.end.Some? then opts.end.value else s[|s| - 1].ts);
    if !opts.fillTrailing && s[|s| - 1].ts < hi then FloorMinute(s[|s| - 1].ts) else hi
  }

  predicate Excluded(ranges: seq<Span>, t: int) {
    exists i :: 0 <= i < |ranges| && ranges[i].0 <= t <= ranges[i].1
  }

  /** The nearest earlier row of a sorted array. */
  function Previous(s: seq<Candle>, t: int): Option<Candle> {
    if s == [] then None
    else if s[|s| - 1].ts < t then Some(s[|s| - 1])
    else Previous(s[..|s| - 1], t)
  }

  /** The close a synthetic candle at `t` repeats. */
  function Seed(s: seq<Candle>, t: int, fillLeading: bool): Option<real>
    requires s != []
  {
    match Previous(s, t)
    case Some(p) => Some(p.c)
    case None => if fillLeading then Some(s[0].c) else None
  }

  function Flat(t: int, close: real): Candle {
    Candle(t, close, close, close, close, 0.0)
  }

  /** What the result holds for one minute: the real row, nothing, or a flat row. */
  function MinuteRow(s: seq<Candle>, opts: Options, t: int): seq<Candle>
    requires s != []
  {
    if t in ToMap(s) then [ToMap(s)[t]]
    else if Excluded(opts.excluded, t) then []
    else
      match Seed(s, t, opts.fillLeading)
      case Some(close) => [Flat(t, close)]
      case None => []
  }

  /** All minutes of a range, one after the other. */
  function Filled(s: seq<Candle>, opts: Options, lo: int, hi: int): seq<Candle>
    requires s != []
    decreases hi - lo
  {
    if hi < lo then [] else Filled(s, opts, lo, hi - ONE_MIN_MS) + MinuteRow(s, opts, hi)
  }

  // ---------- the sorted array ----------

  lemma {:induction false} OrderedCorrect(candles: seq<Candle>, opts: Options)
    requires GridCandles(candles) && (opts.assumeSorted ==> SortedTs(candles))
    ensures SortedTs(Ordered(candles, opts)) && GridCandles(Ordered(candles, opts))
    ensures multiset(Ordered(candles, opts)) == multiset(candles)
    ensures SortedTs(candles) || UniqueTs(candles) ==> ToMap(Ordered(candles, opts)) == ToMap(candles)
  {
    if !SortedTs(candles) {
      var s := SortByTs(candles);
      SortedByFields(candles);
      SameElements(candles, s);
      forall i | 0 <= i < |s| ensures Aligned(s[i].ts) {
        assert s[i] in s;
        var j :| 0 <= j < |candles| && candles[j] == s[i];
      }
    }
  }

  /** In a sorted array the last row of a timestamp is the one that counts. */
  lemma {:induction false} LastOfItsTime(s: seq<Candle>, i: nat)
    requires SortedTs(s) && i < |s|
    requires i + 1 == |s| || s[i + 1].ts != s[i].ts
    ensures s[i].ts in ToMap(s) && ToMap(s)[s[i].ts] == s[i]
  {
    var n := |s| - 1;
    if i < n {
      assert s[i].ts < s[i + 1].ts <= s[n].ts;
      assert s[..n][i] == s[i];
      if i + 1 < n { assert s[..n][i + 1] == s[i + 1]; }
      LastOfItsTime(s[..n], i);
    }
  }

  /** `Previous` is the nearest earlier row. */
  lemma {:induction false} PreviousNearest(s: seq<Candle>, t: int)
    requires SortedTs(s)
    ensures Previous(s, t).None? ==> forall i :: 0 <= i < |s| ==> t <= s[i].ts
    ensures Previous(s, t).Some? ==>
      && Previous(s, t).value in s && Previous(s, t).value.ts < t
      && Previous(s, t).value.ts in ToMap(s) && Previous(s, t).value == ToMap(s)[Previous(s, t).value.ts]
      && forall i :: 0 <= i < |s| && s[i].ts < t ==> s[i].ts <= Previous(s, t).value.ts
  {
    if s != [] {
      var n := |s| - 1;
      var init := s[..n];
      PreviousNearest(init, t);
      if s[n].ts < t {
        LastOfItsTime(s, n);
      } else {
        assert forall i :: 0 <= i < n ==> init[i] == s[i];
        if Previous(init, t).Some? { ToMapKeys(init, Previous(init, t).value.ts); }
      }
    }
  }

  lemma {:induction false} PreviousSlice(s: seq<Candle>, t: int, k: nat)
    requires SortedTs(s) && k <= |s|
    requires forall i :: 0 <= i < k ==> s[i].ts < t
    requires forall i :: k <= i < |s| ==> t <= s[i].ts
    ensures Previous(s, t) == if k == 0 then None else Some(s[k - 1])
  {
    if k < |s| {
      var init := s[..|s| - 1];
      assert forall i :: 0 <= i < |init| ==> init[i] == s[i];
      PreviousSlice(init, t, k);
    }
  }

  /** One minute on, the nearest earlier row is the row of this minute, if there is one. */
  lemma {:induction false} PreviousStep(s: seq<Candle>, t: int)
    requires SortedTs(s) && GridCandles(s) && Aligned(t)
    ensures Previous(s, t + ONE_MIN_MS) == if t in ToMap(s) then Some(ToMap(s)[t]) else Previous(s, t)
  {
    if s != [] {
      var n := |s| - 1;
      var init := s[..n];
      assert forall i :: 0 <= i < n ==> init[i] == s[i];
      PreviousStep(init, t);
      if s[n].ts < t + ONE_MIN_MS {
        if t < s[n].ts { GridStep(t, s[n].ts); }
        if s[n].ts < t { ToMapKeys(s, t); }
      }
    }
  }

  // ---------- excluded ranges ----------

  predicate RangeLeq(a: Span, b: Span) { a.0 <= b.0 }

  lemma {:induction false} RangePreorder()
    ensures TotalPreorder(RangeLeq)
  {}

  /** The excluded ranges that touch [lo, hi], clipped to it. */
  function Clipped(ranges: seq<Span>, lo: int, hi: int): seq<Span> {
    if ranges == [] then []
    else
      var r := ranges[|ranges| - 1];
      Clipped(ranges[..|ranges| - 1], lo, hi)
      + (if r.0 <= hi && r.1 >= lo then [(Max(lo, r.0), Min(hi, r.1))] else [])
  }

  lemma {:induction false} ExcludedAppend(ranges: seq<Span>, r: Span, t: int)
    ensures Excluded(ranges + [r], t) <==> Excluded(ranges, t) || r.0 <= t <= r.1
  {
    var all := ranges + [r];
    if Excluded(ranges, t) {
      var i :| 0 <= i < |ranges| && ranges[i].0 <= t <= ranges[i].1;
      assert all[i] == ranges[i];
    }
    if r.0 <= t <= r.1 { assert all[|ranges|] == r; }
  }

  lemma {:induction false} ClippedSame(ranges: seq<Span>, lo: int, hi: int, t: int)
    requires lo <= t <= hi
    ensures Excluded(Clipped(ranges, lo, hi), t) <==> Excluded(ranges, t)
  {
    if ranges != [] {
      var init, r := ranges[..|ranges| - 1], ranges[|ranges| - 1];
      ClippedSame(init, lo, hi, t);
      assert ranges == init + [r];
      ExcludedAppend(init, r, t);
      ExcludedAppend(Clipped(init, lo, hi), (Max(lo, r.0), Min(hi, r.1)), t);
      assert Clipped(init, lo, hi) + [] == Clipped(init, lo, hi);
    }
  }

  /** The moving cursor answers plain membership, also when ranges overlap. */
  method ExcludedAt(ranges: seq<Span>, from: nat, t: int) returns (cursor: nat, excluded: bool)
    requires SortedBy(ranges, RangeLeq) && from <= |ranges|
    requires forall j :: 0 <= j < from ==> ranges[j].1 < t
    ensures from <= cursor <= |ranges|
    ensures forall j :: 0 <= j < cursor ==> ranges[j].1 < t
    ensures excluded <==> Excluded(ranges, t)
  {
    cursor := from;
    while cursor < |ranges| && ranges[cursor].1 < t
      invariant from <= cursor <= |ranges|
      invariant forall j :: 0 <= j < cursor ==> ranges[j].1 < t
    {
      cursor := cursor + 1;
    }
    excluded := cursor < |ranges| && ranges[cursor].0 <= t <= ranges[cursor].1;
    forall j | cursor < j < |ranges| ensures ranges[cursor].0 <= ranges[j].0 {
      assert RangeLeq(ranges[cursor], ranges[j]);
    }
  }

  lemma {:induction false} SortedRanges(ranges: seq<Span>, lo: int, hi: int)
    ensures SortedBy(Sort(Clipped(ranges, lo, hi), RangeLeq), RangeLeq)
    ensures forall t :: lo <= t <= hi ==>
      (Excluded(Sort(Clipped(ranges, lo, hi), RangeLeq), t) <==> Excluded(ranges, t))
  {
    var clipped := Clipped(ranges, lo, hi);
    var sorted := Sort(clipped, RangeLeq);
    RangePreorder();
    SortSorted(clipped, RangeLeq);
    SameElements(clipped, sorted);
    forall t | lo <= t <= hi ensures Excluded(sorted, t) <==> Excluded(ranges, t) {
      ClippedSame(ranges, lo, hi, t);
      ExcludedIn(sorted, clipped, t);
      ExcludedIn(clipped, sorted, t);
    }
  }

  lemma {:induction false} ExcludedIn(a: seq<Span>, b: seq<Span>, t: int)
    requires forall r :: r in a ==> r in b
    ensures Excluded(a, t) ==> Excluded(b, t)
  {
    if Excluded(a, t) {
      var i :| 0 <= i < |a| && a[i].0 <= t <= a[i].1;
      assert a[i] in b;
    }
  }

  // ---------- the method ----------

  /** Rows `i0 .. i1 - 1` fill the range minute by minute. */
  predicate CompleteSlice(complete: seq<Candle>, lo: int, hi: int)
    requires lo <= hi
  {
    && |complete| == (hi - lo) / 60_000 + 1
    && complete[0].ts == lo
    && complete[|complete| - 1].ts == hi
    && forall k :: 0 < k < |complete| ==> complete[k].ts - complete[k - 1].ts == ONE_MIN_MS
  }

  /** The general path: one pass over the expected minutes. */
  method FillMinutes(s: seq<Candle>, opts: Options, lo: int, hi: int) returns (out: seq<Candle>)
    requires s != [] && SortedTs(s) && GridCandles(s) && Aligned(lo) && Aligned(hi) && lo <= hi
    ensures out == Filled(s, opts, lo, hi)
  {
    var ranges := Sort(Clipped(opts.excluded, lo, hi), RangeLeq);
    SortedRanges(opts.excluded, lo, hi);
    var prevClose := InitialClose(s, opts, lo);
    var cursor, t := 0, lo;
    out := [];
    while t <= hi
      invariant Aligned(t) && lo <= t <= hi + ONE_MIN_MS
      invariant 0 <= cursor <= |ranges| && forall j :: 0 <= j < cursor ==> ranges[j].1 < t
      invariant out == Filled(s, opts, lo, t - ONE_MIN_MS)
      invariant t in ToMap(s) || prevClose == Seed(s, t, opts.fillLeading)
    {
      var rows;
      rows, cursor, prevClose := RepresentMinute(s, opts, ranges, cursor, t, prevClose);
      assert Filled(s, opts, lo, t) == out + rows;
      out := out + rows;
      NextMinute(t, hi);
      t := t + ONE_MIN_MS;
    }
    LastMinute(t, hi);
  }

  /** One minute of the pass: its row, if any, and what is carried on. */
  method RepresentMinute(s: seq<Candle>, opts: Options, ranges: seq<Span>, from: nat, t: int, seed: Option<real>)
    returns (rows: seq<Candle>, cursor: nat, prevClose: Option<real>)
    requires s != [] && SortedTs(s) && GridCandles(s) && Aligned(t)
    requires SortedBy(ranges, RangeLeq) && from <= |ranges|
    requires forall j :: 0 <= j < from ==> ranges[j].1 < t
    requires Excluded(ranges, t) <==> Excluded(opts.excluded, t)
    requires t in ToMap(s) || seed == Seed(s, t, opts.fillLeading)
    ensures rows == MinuteRow(s, opts, t)
    ensures cursor <= |ranges| && forall j :: 0 <= j < cursor ==> ranges[j].1 < t
    ensures prevClose == Seed(s, t + ONE_MIN_MS, opts.fillLeading)
  {
    rows, cursor, prevClose := [], from, seed;
    PreviousStep(s, t);
    if t in ToMap(s) {
      rows := [ToMap(s)[t]];
      prevClose := Some(ToMap(s)[t].c);
    } else {
      var excluded;
      cursor, excluded := ExcludedAt(ranges, from, t);
      if !excluded && prevClose.Some? {
        rows := [Flat(t, prevClose.value)];
      }
    }
  }

  lemma {:induction false} NextMinute(t: int, hi: int)
    requires Aligned(t) && Aligned(hi) && t <= hi
    ensures Aligned(t + ONE_MIN_MS) && t + ONE_MIN_MS <= hi + ONE_MIN_MS
  {}

  lemma {:induction false} LastMinute(t: int, hi: int)
    requires Aligned(t) && Aligned(hi) && hi < t <= hi + ONE_MIN_MS
    ensures t - ONE_MIN_MS == hi
  {}

  /** The close carried into the first minute. */
  method InitialClose(s: seq<Candle>, opts: Options, lo: int) returns (close: Option<real>)
    requires s != [] && SortedTs(s)
    ensures lo in ToMap(s) || close == Seed(s, lo, opts.fillLeading)
  {
    if lo in ToMap(s) {
      close := Some(ToMap(s)[lo].c);
    } else {
      var idx := SearchSorted(Timestamps(s), lo);
      PreviousSlice(s, lo, idx);
      if idx > 0 {
        close := Some(s[idx - 1].c);
      } else if opts.fillLeading {
        close := Some(s[0].c);
      } else {
        close := None;
      }
    }
  }

  /** The fast path is the general result: a complete slice needs nothing synthesised. */
  lemma {:induction false} CompleteIsFilled(s: seq<Candle>, opts: Options, i0: nat, i1: nat, lo: int, hi: int)
    requires s != [] && SortedTs(s) && GridCandles(s) && Aligned(lo) && Aligned(hi) && lo <= hi
    requires i0 <= i1 <= |s|
    requires forall i :: i1 <= i < |s| ==> hi < s[i].ts
    requires CompleteSlice(s[i0..i1], lo, hi)
    ensures s[i0..i1] == Filled(s, opts, lo, hi)
  {
    CompletePrefix(s, opts, i0, i1, lo, hi, i1 - i0 - 1);
    assert s[i0..i1][..i1 - i0] == s[i0..i1];
  }

  lemma {:induction false} CompletePrefix(s: seq<Candle>, opts: Options, i0: nat, i1: nat, lo: int, hi: int, k: nat)
    requires s != [] && SortedTs(s) && i0 <= i1 <= |s| && lo <= hi
    requires forall i :: i1 <= i < |s| ==> hi < s[i].ts
    requires CompleteSlice(s[i0..i1], lo, hi) && k < i1 - i0
    ensures s[i0 + k].ts == lo + k * 60_000
    ensures s[i0..i1][..k + 1] == Filled(s, opts, lo, s[i0 + k].ts)
  {
    var complete := s[i0..i1];
    CompleteRow(s, opts, i0, i1, lo, hi, k);
    assert complete[..k + 1] == complete[..k] + [s[i0 + k]];
    if k == 0 {
      assert Filled(s, opts, lo, lo - ONE_MIN_MS) == [];
    } else {
      CompletePrefix(s, opts, i0, i1, lo, hi, k - 1);
    }
  }

  /** Row `k` of a complete slice is the row of minute `k`. */
  lemma {:induction false} CompleteRow(s: seq<Candle>, opts: Options, i0: nat, i1: nat, lo: int, hi: int, k: nat)
    requires s != [] && SortedTs(s) && i0 <= i1 <= |s| && lo <= hi
    requires forall i :: i1 <= i < |s| ==> hi < s[i].ts
    requires CompleteSlice(s[i0..i1], lo, hi) && k < i1 - i0
    ensures s[i0 + k].ts == lo + k * 60_000
    ensures MinuteRow(s, opts, s[i0 + k].ts) == [s[i0 + k]]
  {
    var complete := s[i0..i1];
    CompleteTime(complete, lo, hi, k);
    assert complete[k] == s[i0 + k];
    assert i0 + k + 1 < i1 ==> complete[k + 1] == s[i0 + k + 1];
    assert s[i0 + k].ts <= hi by { assert complete[|complete| - 1] == s[i1 - 1]; }
    LastOfItsTime(s, i0 + k);
  }

  lemma {:induction false} CompleteTime(complete: seq<Candle>, lo: int, hi: int, k: nat)
    requires lo <= hi && CompleteSlice(complete, lo, hi) && k < |complete|
    ensures complete[k].ts == lo + k * 60_000
  {
    if k > 0 {
      CompleteTime(complete, lo, hi, k - 1);
      assert complete[k].ts - complete[k - 1].ts == ONE_MIN_MS;
    }
  }

  /** `standardize_gaps`. */
  method Standardize(candles: seq<Candle>, opts: Options) returns (out: seq<Candle>)
    requires GridCandles(candles) && (opts.assumeSorted ==> SortedTs(candles))
    ensures candles == [] ==> out == []
    ensures candles != [] ==>
      var s := Ordered(candles, opts);
      var lo, hi := EffectiveLo(s, opts), EffectiveHi(s, opts);
      if opts.strict then out == RowsWithin(s, lo, hi) else out == Filled(s, opts, lo, hi)
  {
    if candles == [] {
      return candles;
    }
    var s := Ordered(candles, opts);
    OrderedCorrect(candles, opts);
    var lo, hi := EffectiveLo(s, opts), EffectiveHi(s, opts);
    if hi < lo {
      NothingWithin(s, lo, hi);
      return [];
    }
    var i0, i1 := SearchSorted(Timestamps(s), lo), SearchSorted(Timestamps(s), hi + 1);
    assert i1 == |s| || hi < Timestamps(s)[i1];
    assert i0 <= i1;
    SliceWithin(s, lo, hi, i0, i1);
    if opts.strict {
      return s[i0..i1];
    }
    if i0 < i1 && CompleteSlice(s[i0..i1], lo, hi) {
      CompleteIsFilled(s, opts, i0, i1, lo, hi);
      return s[i0..i1];
    }
    out := FillMinutes(s, opts, lo, hi);
  }

  /** The rows whose timestamps lie in the range, in order. */
  function RowsWithin(s: seq<Candle>, lo: int, hi: int): seq<Candle> {
    if s == [] then []
    else
      RowsWithin(s[..|s| - 1], lo, hi)
      + (if lo <= s[|s| - 1].ts <= hi then [s[|s| - 1]] else [])
  }

  lemma {:induction false} NothingWithin(s: seq<Candle>, lo: int, hi: int)
    requires hi < lo
    ensures RowsWithin(s, lo, hi) == []
  {
    if s != [] { NothingWithin(s[..|s| - 1], lo, hi); }
  }

  lemma {:induction false} SliceWithin(s: seq<Candle>, lo: int, hi: int, i0: nat, i1: nat)
    requires i0 <= i1 <= |s|
    requires forall i :: 0 <= i < i0 ==> s[i].ts < lo
    requires forall i :: i0 <= i < i1 ==> lo <= s[i].ts <= hi
    requires forall i :: i1 <= i < |s| ==> hi < s[i].ts
    ensures RowsWithin(s, lo, hi) == s[i0..i1]
  {
    if s != [] {
      var n := |s| - 1;
      var init := s[..n];
      assert forall i :: 0 <= i < n ==> init[i] == s[i];
      var j0, j1 := Min(i0, n), Min(i1, n);
      SliceWithin(init, lo, hi, j0, j1);
      SplitLast(s, i0, i1);
    }
  }

  lemma {:induction false} SplitLast(s: seq<Candle>, i0: nat, i1: nat)
    requires s != [] && i0 <= i1 <= |s|
    ensures var n := |s| - 1;
      s[i0..i1] == s[..n][Min(i0, n)..Min(i1, n)] + if i0 <= n < i1 then [s[n]] else []
  {}

  // ---------- what the result means ----------

  /**
   * Exactly one row for every represented minute, in order: the real row where there is one, else a
   * flat row at the nearest earlier close unless the minute is excluded or nothing seeds it.
   */
  lemma {:induction false} FilledMeaning(s: seq<Candle>, opts: Options, lo: int, hi: int)
    requires s != [] && SortedTs(s) && GridCandles(s) && Aligned(lo) && Aligned(hi)
    ensures StrictTs(Filled(s, opts, lo, hi))
    ensures forall i :: 0 <= i < |Filled(s, opts, lo, hi)| ==>
      && lo <= Filled(s, opts, lo, hi)[i].ts <= hi
      && Aligned(Filled(s, opts, lo, hi)[i].ts)
      && MinuteRow(s, opts, Filled(s, opts, lo, hi)[i].ts) == [Filled(s, opts, lo, hi)[i]]
    ensures forall t :: Aligned(t) && lo <= t <= hi && MinuteRow(s, opts, t) != [] ==>
      MinuteRow(s, opts, t)[0] in Filled(s, opts, lo, hi)
    decreases hi - lo
  {
    if lo <= hi {
      GridNeighbours(hi);
      FilledMeaning(s, opts, lo, hi - ONE_MIN_MS);
      var before, all := Filled(s, opts, lo, hi - ONE_MIN_MS), Filled(s, opts, lo, hi);
      RowHasItsMinute(s, opts, hi);
      forall t | Aligned(t) && lo <= t <= hi && MinuteRow(s, opts, t) != []
        ensures MinuteRow(s, opts, t)[0] in all
      {
        if t < hi { GridStep(t, hi); assert MinuteRow(s, opts, t)[0] in before; }
      }
    }
  }

  lemma {:induction false} RowHasItsMinute(s: seq<Candle>, opts: Options, t: int)
    requires s != []
    ensures |MinuteRow(s, opts, t)| <= 1
    ensures MinuteRow(s, opts, t) != [] ==> MinuteRow(s, opts, t)[0].ts == t
  {
    ToMapKeys(s, t);
  }

  /** With both edge fills off, a synthetic row lies between two real candles. */
  lemma {:induction false} SyntheticIsBracketed(s: seq<Candle>, opts: Options, i: nat)
    requires s != [] && SortedTs(s) && GridCandles(s)
    requires !opts.fillLeading && !opts.fillTrailing
    requires i < |Filled(s, opts, EffectiveLo(s, opts), EffectiveHi(s, opts))|
    ensures var row := Filled(s, opts, EffectiveLo(s, opts), EffectiveHi(s, opts))[i];
      row.ts !in ToMap(s) ==>
      && s[0].ts < row.ts < s[|s| - 1].ts
      && exists p :: p in s && p.ts < row.ts && row == Flat(row.ts, p.c)
           && forall q :: q in s && q.ts < row.ts ==> q.ts <= p.ts
  {
    var lo, hi := EffectiveLo(s, opts), EffectiveHi(s, opts);
    FilledMeaning(s, opts, lo, hi);
    var row := Filled(s, opts, lo, hi)[i];
    if row.ts !in ToMap(s) {
      PreviousNearest(s, row.ts);
      var p := Previous(s, row.ts).value;
      ToMapKeys(s, row.ts);
      assert s[|s| - 1].ts != row.ts;
      forall q | q in s && q.ts < row.ts ensures q.ts <= p.ts {
        var j :| 0 <= j < |s| && s[j] == q;
      }
      assert row == Flat(row.ts, p.c);
    }
  }

  /** Every real candle of the represented range is in the result, unchanged. */
  lemma {:induction false} RealRowsKept(s: seq<Candle>, opts: Options, lo: int, hi: int, t: int)
    requires s != [] && SortedTs(s) && GridCandles(s) && Aligned(lo) && Aligned(hi)
    requires lo <= t <= hi && t in ToMap(s)
    ensures ToMap(s)[t] in Filled(s, opts, lo, hi)
  {
    ToMapKeys(s, t);
    assert Aligned(t);
    FilledMeaning(s, opts, lo, hi);
    assert MinuteRow(s, opts, t) == [ToMap(s)[t]];
  }
  // ---------- the result from options and rows alone ----------

  /**
   * The represented minutes: from the floored start to the floored end, and where no bound is given or that edge
   * is not filled, not before the first and not after the last real row.
   */
  ghost predicate Represented(s: seq<Candle>, opts: Options, t: int) {
    && (opts.start.Some? ==> FloorMinute(opts.start.value) <= t)
    && (opts.end.Some? ==> t <= FloorMinute(opts.end.value))
    && (opts.start.None? || !opts.fillLeading ==> exists c :: c in s && c.ts <= t)
    && (opts.end.None? || !opts.fillTrailing ==> exists c :: c in s && t <= c.ts)
  }

  lemma {:induction false} RangeIs(s: seq<Candle>, opts: Options, t: int)
    requires s != [] && SortedTs(s) && GridCandles(s)
    ensures EffectiveLo(s, opts) <= t <= EffectiveHi(s, opts) <==> Represented(s, opts, t)
  {
    assert s[0] in s && s[|s| - 1] in s;
    forall c | c in s ensures s[0].ts <= c.ts <= s[|s| - 1].ts {
      var i :| 0 <= i < |s| && s[i] == c;
    }
  }

  /** The row a real minute keeps: the last of its time in the sorted array. */
  predicate IsReal(s: seq<Candle>, row: Candle) {
    row.ts in ToMap(s) && row == ToMap(s)[row.ts]
  }

  /** Flat and without volume, at the nearest earlier close, or at the first row's when it is filled before that. */
  ghost predicate IsFlat(s: seq<Candle>, opts: Options, row: Candle) {
    && (forall c :: c in s ==> c.ts != row.ts)
    && row.o == row.h == row.l == row.c && row.bv == 0.0
    && ((exists p :: Nearest(s, p, row.ts) && row.c == p.c)
        || (opts.fillLeading && s != [] && row.ts < s[0].ts && row.c == s[0].c))
  }

  /** The latest real row before `t`. */
  ghost predicate Nearest(s: seq<Candle>, p: Candle, t: int) {
    IsReal(s, p) && p.ts < t && forall q :: q in s && q.ts < t ==> q.ts <= p.ts
  }

  /**
   * A row is in the result exactly when its minute is represented and it is the minute's real row, or for a minute
   * that is neither real nor excluded the flat one.
   */
  lemma {:induction false} StandardizedExactly(s: seq<Candle>, opts: Options, row: Candle)
    requires s != [] && SortedTs(s) && GridCandles(s)
    ensures row in Filled(s, opts, EffectiveLo(s, opts), EffectiveHi(s, opts)) <==>
      && Aligned(row.ts) && Represented(s, opts, row.ts)
      && (IsReal(s, row)
          || (IsFlat(s, opts, row) && forall r :: r in opts.excluded ==> !(r.0 <= row.ts <= r.1)))
  {
    var lo, hi := EffectiveLo(s, opts), EffectiveHi(s, opts);
    FilledMeaning(s, opts, lo, hi);
    RangeIs(s, opts, row.ts);
    MinuteRowIs(s, opts, row);
    var out := Filled(s, opts, lo, hi);
    if row in out { var i :| 0 <= i < |out| && out[i] == row; }
  }

  lemma {:induction false} MinuteRowIs(s: seq<Candle>, opts: Options, row: Candle)
    requires s != [] && SortedTs(s)
    ensures MinuteRow(s, opts, row.ts) == [row] <==>
      || IsReal(s, row)
      || (IsFlat(s, opts, row) && forall r :: r in opts.excluded ==> !(r.0 <= row.ts <= r.1))
  {
    var t := row.ts;
    ToMapKeys(s, t);
    assert Excluded(opts.excluded, t) <==> exists r :: r in opts.excluded && r.0 <= t <= r.1;
    if t !in ToMap(s) { SeedIs(s, opts, row); }
  }

  lemma {:induction false} SeedIs(s: seq<Candle>, opts: Options, row: Candle)
    requires s != [] && SortedTs(s) && row.ts !in ToMap(s)
    ensures Seed(s, row.ts, opts.fillLeading).Some? && row == Flat(row.ts, Seed(s, row.ts, opts.fillLeading).value) <==>
      IsFlat(s, opts, row)
  {
    var t := row.ts;
    ToMapKeys(s, t);
    PreviousNearest(s, t);
    forall c | c in s ensures c.ts != t && s[0].ts <= c.ts { var i :| 0 <= i < |s| && s[i] == c; }
    if Previous(s, t).Some? {
      var p := Previous(s, t).value;
      forall q | q in s && q.ts < t ensures q.ts <= p.ts { var i :| 0 <= i < |s| && s[i] == q; }
      assert Nearest(s, p, t);
      forall q | Nearest(s, q, t) ensures q == p { SameNearest(s, p, q, t); }
    } else {
      assert t <= s[0].ts;
      forall q ensures !Nearest(s, q, t) { if Nearest(s, q, t) { ToMapKeys(s, q.ts); } }
    }
  }

  lemma {:induction false} SameNearest(s: seq<Candle>, p: Candle, q: Candle, t: int)
    requires Nearest(s, p, t) && Nearest(s, q, t)
    ensures p == q
  {
    ToMapKeys(s, p.ts);
    ToMapKeys(s, q.ts);
  }

  /** In strict mode exactly the real rows of the represented minutes. */
  lemma {:induction false} StrictExactly(s: seq<Candle>, opts: Options, row: Candle)
    requires s != [] && SortedTs(s) && GridCandles(s)
    ensures row in RowsWithin(s, EffectiveLo(s, opts), EffectiveHi(s, opts)) <==>
      row in s && Represented(s, opts, row.ts)
  {
    RangeIs(s, opts, row.ts);
    WithinElements(s, EffectiveLo(s, opts), EffectiveHi(s, opts), row);
  }

  lemma {:induction false} WithinElements(s: seq<Candle>, lo: int, hi: int, row: Candle)
    ensures row in RowsWithin(s, lo, hi) <==> row in s && lo <= row.ts <= hi
  {
    if s != [] {
      var init, last := s[..|s| - 1], s[|s| - 1];
      WithinElements(init, lo, hi, row);
      assert s == init + [last];
    }
  }
}
