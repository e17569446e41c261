/**
 * Normalising a list of gap records: a sweep over the record boundaries that keeps the started
 * records in a heap and drops finished ones only when they reach the top, then a pass that joins
 * touching segments of equal evidence.
 */
module GapSweep {
  import opened Wrappers
  import opened Minutes
  import opened Sorting
  import opened GapRecords

  /** Heap key of a record: the least key is proof first, then the later input. */
  function Rank(gaps: seq<Gap>, i: int): (int, int)
    requires 0 <= i < |gaps|
  {
    (if NonExpiring(gaps[i].ev.reason) then -1 else 0, -i)
  }

  /** The record positions with their starts, before sorting. */
  function StartPairs(gaps: seq<Gap>): (r: seq<(int, int)>)
    ensures |r| == |gaps|
    ensures forall i :: 0 <= i < |gaps| ==> r[i] == (gaps[i].start, i)
  {
    seq(|gaps|, i requires 0 <= i < |gaps| => (gaps[i].start, i))
  }

  function Boundaries(gaps: seq<Gap>): (b: seq<int>)
    ensures Increasing(b)
  {
    if gaps == [] then []
    else
      var n := |gaps| - 1;
      InsertUnique(gaps[n].start, InsertUnique(gaps[n].end + ONE_MIN_MS, Boundaries(gaps[..n])))
  }

  lemma {:induction false} BoundaryOf(gaps: seq<Gap>, i: nat, x: int)
    requires i < |gaps| && (x == gaps[i].start || x == gaps[i].end + ONE_MIN_MS)
    ensures x in Boundaries(gaps)
  {
    var n := |gaps| - 1;
    var rest := Boundaries(gaps[..n]);
    var inner := InsertUnique(gaps[n].end + ONE_MIN_MS, rest);
    if i < n {
      BoundaryOf(gaps[..n], i, x);
      assert x in inner;
    }
  }

  lemma {:induction false} BoundaryAligned(gaps: seq<Gap>, x: int)
    requires AllWellFormed(gaps) && x in Boundaries(gaps)
    ensures Aligned(x)
  {
    var n := |gaps| - 1;
    assert WellFormed(gaps[n]);
    if x != gaps[n].start && x != gaps[n].end + ONE_MIN_MS { BoundaryAligned(gaps[..n], x); }
  }

  /** A record has at least two boundaries, and its ends never fall strictly inside a segment. */
  lemma {:induction false} RecordOutside(gaps: seq<Gap>, b: seq<int>, k: nat, i: nat)
    requires b == Boundaries(gaps) && AllWellFormed(gaps) && i < |gaps|
    ensures |b| >= 2
    ensures k + 1 < |b| ==> gaps[i].start <= b[k] || b[k + 1] <= gaps[i].start
    ensures k + 1 < |b| ==> gaps[i].end + ONE_MIN_MS <= b[k] || b[k + 1] <= gaps[i].end + ONE_MIN_MS
    ensures b[0] <= gaps[i].start && gaps[i].end + ONE_MIN_MS <= b[|b| - 1]
  {
    BoundaryOf(gaps, i, gaps[i].start);
    BoundaryOf(gaps, i, gaps[i].end + ONE_MIN_MS);
    assert WellFormed(gaps[i]);
    var x, y := gaps[i].start, gaps[i].end + ONE_MIN_MS;
    var p :| 0 <= p < |b| && b[p] == x;
    var q :| 0 <= q < |b| && b[q] == y;
    if k + 1 < |b| || |b| >= 2 {
      NotBetween(b, 0, x);
      NotBetween(b, 0, y);
      if k + 1 < |b| {
        NotBetween(b, k, x);
        NotBetween(b, k, y);
      }
    }
  }

  /** `prepared`: the records whose interval is not empty. */
  function Prepared(gaps: seq<Gap>): (r: seq<Gap>) {
    if gaps == [] then []
    else
      var n := |gaps| - 1;
      Prepared(gaps[..n]) + (if gaps[n].start <= gaps[n].end then [gaps[n]] else [])
  }

  predicate GridRecords(gaps: seq<Gap>) {
    forall i :: 0 <= i < |gaps| ==> Aligned(gaps[i].start) && Aligned(gaps[i].end)
  }

  lemma {:induction false} PreparedSame(gaps: seq<Gap>)
    requires GridRecords(gaps)
    ensures AllWellFormed(Prepared(gaps))
    ensures forall t :: At(Prepared(gaps), t) == At(gaps, t)
  {
    if gaps != [] {
      var n := |gaps| - 1;
      var init := gaps[..n];
      assert forall i :: 0 <= i < n ==> init[i] == gaps[i];
      PreparedSame(init);
      if gaps[n].start <= gaps[n].end {
        forall t ensures At(Prepared(gaps), t) == At(gaps, t) { AtAppend(Prepared(init), gaps[n], t); }
      } else {
        GridStep(gaps[n].end, gaps[n].start);
        assert Prepared(gaps) == Prepared(init);
      }
    }
  }

  /** The heap is sorted and holds only records that started no later than `front`. */
  ghost predicate HeapOf(gaps: seq<Gap>, active: seq<(int, int)>, front: int) {
    && SortedBy(active, PairLeq)
    && forall p :: p in active ==>
      0 <= -p.1 < |gaps| && p == Rank(gaps, -p.1) && gaps[-p.1].start <= front
  }

  /** Record `i` waits in the heap, or it ended before `limit`. */
  ghost predicate Kept(gaps: seq<Gap>, active: seq<(int, int)>, i: int, limit: int)
    requires 0 <= i < |gaps|
  {
    Rank(gaps, i) in active || gaps[i].end + ONE_MIN_MS < limit
  }

  /** Every record started by `front` is in the heap unless it ended before `limit`. */
  ghost predicate Retained(gaps: seq<Gap>, active: seq<(int, int)>, front: int, limit: int) {
    forall i {:trigger Kept(gaps, active, i, limit)} ::
      0 <= i < |gaps| && gaps[i].start <= front ==> Kept(gaps, active, i, limit)
  }

  ghost predicate Listed(gaps: seq<Gap>, starts: seq<(int, int)>, i: int)
    requires 0 <= i < |gaps|
  {
    (gaps[i].start, i) in starts
  }

  /** The records in the order in which the sweep starts them. */
  ghost predicate StartOrder(gaps: seq<Gap>, starts: seq<(int, int)>) {
    && SortedBy(starts, PairLeq)
    && (forall s :: 0 <= s < |starts| ==> 0 <= starts[s].1 < |gaps| && starts[s].0 == gaps[starts[s].1].start)
    && (forall i {:trigger Listed(gaps, starts, i)} :: 0 <= i < |gaps| ==> Listed(gaps, starts, i))
  }

  lemma {:induction false} StartsInOrder(gaps: seq<Gap>)
    ensures StartOrder(gaps, Sort(StartPairs(gaps), PairLeq))
  {
    var pairs := StartPairs(gaps);
    var starts := Sort(pairs, PairLeq);
    Preorders();
    SortSorted(pairs, PairLeq);
    SameElements(pairs, starts);
    forall s | 0 <= s < |starts|
      ensures 0 <= starts[s].1 < |gaps| && starts[s].0 == gaps[starts[s].1].start
    {
      assert starts[s] in pairs;
    }
    forall i | 0 <= i < |gaps| ensures Listed(gaps, starts, i) {
      assert pairs[i] in pairs;
    }
  }

  /** Pushes every record that starts by `front` (the first inner loop of the sweep). */
  method PushStarted(gaps: seq<Gap>, starts: seq<(int, int)>, from: nat, heap: seq<(int, int)>,
                     ghost before: int, front: int, ghost limit: int)
    returns (next: nat, active: seq<(int, int)>)
    requires StartOrder(gaps, starts) && from <= |starts| && before <= front
    requires forall s :: 0 <= s < from ==> starts[s].0 <= before
    requires forall s :: from <= s < |starts| ==> before < starts[s].0
    requires HeapOf(gaps, heap, before) && Retained(gaps, heap, before, limit)
    ensures next <= |starts|
    ensures forall s :: 0 <= s < next ==> starts[s].0 <= front
    ensures forall s :: next <= s < |starts| ==> front < starts[s].0
    ensures HeapOf(gaps, active, front) && Retained(gaps, active, front, limit)
  {
    next, active := from, heap;
    while next < |starts| && starts[next].0 <= front
      invariant Pushing(gaps, starts, from, next, active, front)
      invariant HeapOf(gaps, active, front) && Retained(gaps, active, before, limit)
    {
      PushNext(gaps, starts, from, next, active, before, front, limit);
      active := Insert(Rank(gaps, starts[next].1), active, PairLeq);
      next := next + 1;
    }
    AllStartedPushed(gaps, starts, from, next, active, before, front, limit);
  }

  /** The records `from` up to `next` of the start order started in time and are in the heap. */
  ghost predicate Pushing(gaps: seq<Gap>, starts: seq<(int, int)>, from: nat, next: nat, active: seq<(int, int)>,
                          front: int) {
    && from <= next <= |starts|
    && forall s :: from <= s < next ==>
         0 <= starts[s].1 < |gaps| && starts[s].0 <= front && Rank(gaps, starts[s].1) in active
  }

  lemma {:induction false} PushNext(gaps: seq<Gap>, starts: seq<(int, int)>, from: nat, next: nat,
                                    active: seq<(int, int)>, before: int, front: int, limit: int)
    requires StartOrder(gaps, starts) && Pushing(gaps, starts, from, next, active, front)
    requires next < |starts| && starts[next].0 <= front
    requires HeapOf(gaps, active, front) && Retained(gaps, active, before, limit)
    ensures 0 <= starts[next].1 < |gaps|
    ensures var pushed := Insert(Rank(gaps, starts[next].1), active, PairLeq);
      && Pushing(gaps, starts, from, next + 1, pushed, front)
      && HeapOf(gaps, pushed, front) && Retained(gaps, pushed, before, limit)
  {
    PushKeepsHeap(gaps, active, starts[next].1, front, before, limit);
  }

  lemma {:induction false} PushKeepsHeap(gaps: seq<Gap>, active: seq<(int, int)>, i: nat, front: int, before: int,
                                         limit: int)
    requires i < |gaps| && gaps[i].start <= front
    requires HeapOf(gaps, active, front) && Retained(gaps, active, before, limit)
    ensures HeapOf(gaps, Insert(Rank(gaps, i), active, PairLeq), front)
    ensures Retained(gaps, Insert(Rank(gaps, i), active, PairLeq), before, limit)
    ensures forall p :: p in Insert(Rank(gaps, i), active, PairLeq) <==> p == Rank(gaps, i) || p in active
  {
    Preorders();
    InsertSorted(Rank(gaps, i), active, PairLeq);
    InsertElements(Rank(gaps, i), active);
    forall j | 0 <= j < |gaps| && gaps[j].start <= before
      ensures Kept(gaps, Insert(Rank(gaps, i), active, PairLeq), j, limit)
    {
      assert Kept(gaps, active, j, limit);
    }
  }

  /** Once the next start lies behind `front`, every record started by `front` has been pushed. */
  lemma {:induction false} AllStartedPushed(gaps: seq<Gap>, starts: seq<(int, int)>, from: nat, next: nat,
                         active: seq<(int, int)>, before: int, front: int, limit: int)
    requires StartOrder(gaps, starts) && Pushing(gaps, starts, from, next, active, front) && before <= front
    requires next < |starts| ==> front < starts[next].0
    requires forall s :: 0 <= s < from ==> starts[s].0 <= before
    requires Retained(gaps, active, before, limit)
    ensures forall s :: 0 <= s < next ==> starts[s].0 <= front
    ensures forall s :: next <= s < |starts| ==> front < starts[s].0
    ensures Retained(gaps, active, front, limit)
  {
    forall s | next <= s < |starts| ensures front < starts[s].0 {
      if next < s { assert PairLeq(starts[next], starts[s]); }
    }
    forall i | 0 <= i < |gaps| && gaps[i].start <= front
      ensures Kept(gaps, active, i, limit)
    {
      assert Listed(gaps, starts, i);
      assert gaps[i].start <= before ==> Kept(gaps, active, i, limit);
      var s :| 0 <= s < |starts| && starts[s] == (gaps[i].start, i);
      assert s < next;
    }
  }

  lemma {:induction false} InsertElements(x: (int, int), s: seq<(int, int)>)
    ensures forall p :: p in Insert(x, s, PairLeq) <==> p == x || p in s
  {
    var r := Insert(x, s, PairLeq);
    forall p ensures p in r <==> p == x || p in s {
      assert p in r <==> p in multiset(r);
      assert p in s <==> p in multiset(s);
    }
  }

  /** Drops finished records from the top only (the second inner loop of the sweep). */
  method PopFinished(gaps: seq<Gap>, heap: seq<(int, int)>, front: int, end: int, ghost limit: int)
    returns (active: seq<(int, int)>)
    requires HeapOf(gaps, heap, front) && Retained(gaps, heap, front, limit)
    requires limit <= end + ONE_MIN_MS
    ensures HeapOf(gaps, active, front) && Retained(gaps, active, front, end + ONE_MIN_MS)
    ensures active != [] ==> 0 <= -active[0].1 < |gaps| && gaps[-active[0].1].end >= end
  {
    active := heap;
    WiderLimit(gaps, active, front, limit, end + ONE_MIN_MS);
    while active != []
      invariant HeapOf(gaps, active, front) && Retained(gaps, active, front, end + ONE_MIN_MS)
      decreases |active|
    {
      var winner := -active[0].1;
      assert active[0] in active;
      if gaps[winner].end >= end {
        break;
      }
      var rest := active[1..];
      assert active == [active[0]] + rest;
      forall i | 0 <= i < |gaps| && gaps[i].start <= front
        ensures Kept(gaps, rest, i, end + ONE_MIN_MS)
      {
        assert Kept(gaps, active, i, end + ONE_MIN_MS);
        if Rank(gaps, i) == active[0] { assert i == winner; }
      }
      active := rest;
    }
  }

  lemma {:induction false} WiderLimit(gaps: seq<Gap>, active: seq<(int, int)>, front: int, limit: int, wider: int)
    requires Retained(gaps, active, front, limit) && limit <= wider
    ensures Retained(gaps, active, front, wider)
  {
    forall i | 0 <= i < |gaps| && gaps[i].start <= front ensures Kept(gaps, active, i, wider) {
      assert Kept(gaps, active, i, limit);
    }
  }

  /** Neither end of the record falls strictly between `from` and `to`. */
  ghost predicate Clear(g: Gap, from: int, to: int) {
    && (g.start <= from || to <= g.start)
    && (g.end + ONE_MIN_MS <= from || to <= g.end + ONE_MIN_MS)
  }

  /** A stretch between two neighbouring boundaries. */
  ghost predicate Segment(gaps: seq<Gap>, from: int, to: int) {
    && Aligned(from) && Aligned(to - ONE_MIN_MS) && from <= to - ONE_MIN_MS
    && forall i {:trigger Clear(gaps[i], from, to)} :: 0 <= i < |gaps| ==> Clear(gaps[i], from, to)
  }

  lemma {:induction false} BoundarySegment(gaps: seq<Gap>, b: seq<int>, k: nat)
    requires AllWellFormed(gaps) && b == Boundaries(gaps) && k + 1 < |b|
    ensures Segment(gaps, b[k], b[k + 1])
  {
    BoundaryAligned(gaps, b[k]);
    BoundaryAligned(gaps, b[k + 1]);
    GridStep(b[k], b[k + 1]);
    GridNeighbours(b[k + 1]);
    forall i | 0 <= i < |gaps| ensures Clear(gaps[i], b[k], b[k + 1]) { RecordOutside(gaps, b, k, i); }
  }

  /** The heap after both inner loops: its top, if any, lasts through the segment. */
  ghost predicate Settled(gaps: seq<Gap>, active: seq<(int, int)>, from: int, to: int) {
    && HeapOf(gaps, active, from) && Retained(gaps, active, from, to)
    && (active != [] ==> 0 <= -active[0].1 < |gaps| && gaps[-active[0].1].end + ONE_MIN_MS >= to)
  }

  /** The evidence that counts throughout a segment is that of the heap's top. */
  lemma {:induction false} SegmentWinner(gaps: seq<Gap>, active: seq<(int, int)>, from: int, to: int, t: int)
    requires Segment(gaps, from, to) && Settled(gaps, active, from, to) && from <= t < to
    ensures At(gaps, t) == if active == [] then None else Some(gaps[-active[0].1].ev)
  {
    forall j | 0 <= j < |gaps| && Covers(gaps[j], t)
      ensures Rank(gaps, j) in active
    {
      assert Clear(gaps[j], from, to);
      assert Kept(gaps, active, j, to);
    }
    if active == [] {
      AtUncovered(gaps, t);
    } else {
      assert active[0] in active;
      var w := -active[0].1;
      forall j | 0 <= j < |gaps| && Covers(gaps[j], t) ensures Outranks(gaps, w, j) {
        var q :| 0 <= q < |active| && active[q] == Rank(gaps, j);
        assert q == 0 || PairLeq(active[0], active[q]);
      }
      AtStrongest(gaps, t, w);
    }
  }

  /** The sweep has dealt with everything before `limit`. */
  ghost predicate Swept(gaps: seq<Gap>, limit: int, normalized: seq<Gap>) {
    && AllWellFormed(normalized) && Disjoint(normalized)
    && (forall i :: 0 <= i < |normalized| ==> normalized[i].end + ONE_MIN_MS <= limit)
    && (forall t :: t < limit ==> At(normalized, t) == At(gaps, t))
  }

  ghost predicate Queue(gaps: seq<Gap>, starts: seq<(int, int)>, next: nat, active: seq<(int, int)>,
                        front: int, limit: int)
  {
    && next <= |starts| && front < limit
    && (forall s :: 0 <= s < next ==> starts[s].0 <= front)
    && (forall s :: next <= s < |starts| ==> front < starts[s].0)
    && HeapOf(gaps, active, front) && Retained(gaps, active, front, limit)
  }

  /** Every list of well-formed records becomes disjoint segments that carry the same evidence. */
  method Sweep(gaps: seq<Gap>) returns (normalized: seq<Gap>)
    requires AllWellFormed(gaps)
    ensures AllWellFormed(normalized) && Disjoint(normalized)
    ensures forall t :: At(normalized, t) == At(gaps, t)
  {
    var boundaries := Boundaries(gaps);
    var starts := Sort(StartPairs(gaps), PairLeq);
    StartsInOrder(gaps);
    BeforeFirst(gaps, boundaries, starts);
    normalized := [];
    if boundaries != [] {
      StartSweep(gaps, boundaries, starts);
      AllSegments(gaps, boundaries);
      normalized := SweepSegments(gaps, boundaries, starts);
    }
    AfterLast(gaps, boundaries, normalized);
  }

  lemma {:induction false} AllSegments(gaps: seq<Gap>, b: seq<int>)
    requires AllWellFormed(gaps) && b == Boundaries(gaps)
    ensures forall k {:trigger b[k]} :: 0 <= k < |b| - 1 ==> Segment(gaps, b[k], b[k + 1])
  {
    forall k {:trigger b[k]} | 0 <= k < |b| - 1 ensures Segment(gaps, b[k], b[k + 1]) { BoundarySegment(gaps, b, k); }
  }

  /** The loop over the segments between neighbouring boundaries. */
  method SweepSegments(gaps: seq<Gap>, boundaries: seq<int>, starts: seq<(int, int)>) returns (normalized: seq<Gap>)
    requires boundaries != [] && StartOrder(gaps, starts)
    requires forall k {:trigger boundaries[k]} :: 0 <= k < |boundaries| - 1 ==>
      Segment(gaps, boundaries[k], boundaries[k + 1])
    requires Queue(gaps, starts, 0, [], boundaries[0] - 1, boundaries[0]) && Swept(gaps, boundaries[0], [])
    ensures Swept(gaps, boundaries[|boundaries| - 1], normalized)
  {
    normalized := [];
    var active: seq<(int, int)> := [];
    var startIndex, k := 0, 0;
    ghost var front := boundaries[0] - 1;
    while k + 1 < |boundaries|
      invariant 0 <= k < |boundaries|
      invariant Queue(gaps, starts, startIndex, active, front, boundaries[k])
      invariant Swept(gaps, boundaries[k], normalized)
    {
      var segmentStart, segmentEnd := boundaries[k], boundaries[k + 1] - ONE_MIN_MS;
      startIndex, active :=
        PushStarted(gaps, starts, startIndex, active, front, segmentStart, boundaries[k]);
      active := PopFinished(gaps, active, segmentStart, segmentEnd, boundaries[k]);
      front := segmentStart;
      ghost var was := normalized;
      if active != [] {
        normalized := normalized + [gaps[-active[0].1].(start := segmentStart, end := segmentEnd)];
      }
      SegmentSwept(gaps, segmentStart, boundaries[k + 1], active, was, normalized);
      k := k + 1;
    }
  }

  /** The record, if any, that the sweep emits for a segment. */
  function SegmentRecord(gaps: seq<Gap>, active: seq<(int, int)>, from: int, to: int): Option<Gap>
    requires active != [] ==> 0 <= -active[0].1 < |gaps|
  {
    if active == [] then None else Some(gaps[-active[0].1].(start := from, end := to - ONE_MIN_MS))
  }

  lemma {:induction false} SegmentSwept(gaps: seq<Gap>, from: int, to: int, active: seq<(int, int)>, was: seq<Gap>,
                                        now: seq<Gap>)
    requires Segment(gaps, from, to) && Settled(gaps, active, from, to)
    requires Swept(gaps, from, was)
    requires now == match SegmentRecord(gaps, active, from, to) case None => was case Some(g) => was + [g]
    ensures Swept(gaps, to, now)
  {
    var record := SegmentRecord(gaps, active, from, to);
    forall t | from <= t < to
      ensures At(gaps, t) == if record.None? then None else Some(record.value.ev)
    {
      SegmentWinner(gaps, active, from, to, t);
    }
    SegmentAppended(gaps, from, to, record, was, now);
  }

  lemma {:induction false} SegmentAppended(gaps: seq<Gap>, from: int, to: int, record: Option<Gap>, was: seq<Gap>,
                                           now: seq<Gap>)
    requires Aligned(from) && Aligned(to - ONE_MIN_MS) && from <= to - ONE_MIN_MS
    requires record.Some? ==> record.value.start == from && record.value.end == to - ONE_MIN_MS
    requires now == match record case None => was case Some(g) => was + [g]
    requires AllWellFormed(was) && Disjoint(was)
    requires forall i :: 0 <= i < |was| ==> was[i].end + ONE_MIN_MS <= from
    requires forall t :: t < from ==> At(was, t) == At(gaps, t)
    requires forall t :: from <= t < to ==> At(gaps, t) == if record.None? then None else Some(record.value.ev)
    ensures AllWellFormed(now) && Disjoint(now)
    ensures forall i :: 0 <= i < |now| ==> now[i].end + ONE_MIN_MS <= to
    ensures forall t :: t < to ==> At(now, t) == At(gaps, t)
  {
    if record.Some? { AppendSegment(was, record.value); }
    ExtendReading(gaps, was, now, from, to);
  }

  lemma {:induction false} AppendSegment(was: seq<Gap>, g: Gap)
    requires AllWellFormed(was) && Disjoint(was) && WellFormed(g)
    requires forall i :: 0 <= i < |was| ==> was[i].end + ONE_MIN_MS <= g.start
    ensures AllWellFormed(was + [g]) && Disjoint(was + [g])
  {
    forall i | 0 <= i < |was| ensures was[i].end < g.start { assert was[i].end + ONE_MIN_MS <= g.start; }
  }

  lemma {:induction false} StartSweep(gaps: seq<Gap>, b: seq<int>, starts: seq<(int, int)>)
    requires AllWellFormed(gaps) && b == Boundaries(gaps) && b != [] && StartOrder(gaps, starts)
    ensures Queue(gaps, starts, 0, [], b[0] - 1, b[0])
    ensures Swept(gaps, b[0], [])
  {
    BeforeFirst(gaps, b, starts);
  }

  lemma {:induction false} BeforeFirst(gaps: seq<Gap>, b: seq<int>, starts: seq<(int, int)>)
    requires AllWellFormed(gaps) && b == Boundaries(gaps) && StartOrder(gaps, starts)
    ensures b == [] ==> gaps == []
    ensures b != [] ==> forall s :: 0 <= s < |starts| ==> b[0] <= starts[s].0
    ensures b != [] ==> forall i :: 0 <= i < |gaps| ==> b[0] <= gaps[i].start
    ensures b != [] ==> forall t :: t < b[0] ==> At(gaps, t) == At([], t)
  {
    if gaps != [] { RecordOutside(gaps, b, 0, 0); }
    if b != [] {
      forall i | 0 <= i < |gaps| ensures b[0] <= gaps[i].start { RecordOutside(gaps, b, 0, i); }
      forall t | t < b[0] ensures At(gaps, t) == At([], t) { AtUncovered(gaps, t); }
    }
  }

  /** Adding the segment's record (or none) extends the agreement up to the next boundary. */
  lemma {:induction false} ExtendReading(gaps: seq<Gap>, was: seq<Gap>, now: seq<Gap>, from: int, to: int)
    requires forall i :: 0 <= i < |was| ==> was[i].end + ONE_MIN_MS <= from
    requires forall t :: t < from ==> At(was, t) == At(gaps, t)
    requires now == was || (|now| == |was| + 1 && now[..|was|] == was &&
             now[|was|].start == from && now[|was|].end + ONE_MIN_MS == to)
    requires forall t :: from <= t < to ==>
      At(gaps, t) == if now == was then None else Some(now[|was|].ev)
    ensures forall t :: t < to ==> At(now, t) == At(gaps, t)
  {
    forall t | t < to ensures At(now, t) == At(gaps, t) {
      if from <= t { AtUncovered(was, t); }
      if now != was {
        assert now == was + [now[|was|]];
        AtAppend(was, now[|was|], t);
      }
    }
  }

  lemma {:induction false} AfterLast(gaps: seq<Gap>, b: seq<int>, out: seq<Gap>)
    requires AllWellFormed(gaps) && b == Boundaries(gaps)
    requires b == [] ==> gaps == [] && out == []
    requires b != [] ==> forall i :: 0 <= i < |out| ==> out[i].end + ONE_MIN_MS <= b[|b| - 1]
    requires b != [] ==> forall t :: t < b[|b| - 1] ==> At(out, t) == At(gaps, t)
    ensures forall t :: At(out, t) == At(gaps, t)
  {
    if b != [] {
      var e := b[|b| - 1];
      forall t ensures At(out, t) == At(gaps, t) {
        if e <= t {
          forall i | 0 <= i < |gaps| ensures !Covers(gaps[i], t) {
            RecordOutside(gaps, b, 0, i);
          }
          AtUncovered(gaps, t);
          AtUncovered(out, t);
        }
      }
    }
  }

  predicate StartLeq(a: Gap, b: Gap) { a.start <= b.start }

  lemma {:induction false} StartPreorder()
    ensures TotalPreorder(StartLeq)
  {}

  /** The record that replaces two touching records of equal evidence. */
  function Joined(prev: Gap, gap: Gap): Gap {
    Gap(prev.start, Max(prev.end, gap.end),
        Evidence(Max(prev.ev.retryCount, gap.ev.retryCount), prev.ev.reason,
                 Min(prev.ev.addedAt, gap.ev.addedAt),
                 Max(prev.ev.lastRetryAt, gap.ev.lastRetryAt),
                 Max(prev.ev.lastContextualRetryAt, gap.ev.lastContextualRetryAt)))
  }

  /** Joins touching records of equal reason and retry epoch; nothing else changes. */
  method MergeEqualNeighbours(gaps: seq<Gap>) returns (merged: seq<Gap>)
    requires AllWellFormed(gaps) && Disjoint(gaps)
    ensures Normal(merged)
    ensures forall t :: At(merged, t) == At(gaps, t)
  {
    merged := [];
    for i := 0 to |gaps|
      invariant Normal(merged)
      invariant forall t :: At(merged, t) == At(gaps[..i], t)
      invariant merged != [] ==> i > 0 && merged[|merged| - 1].end == gaps[i - 1].end
    {
      var gap := gaps[i];
      ghost var was := merged;
      assert gaps[..i + 1] == gaps[..i] + [gap];
      if merged == []
         || gap.start > merged[|merged| - 1].end + ONE_MIN_MS
         || gap.ev != merged[|merged| - 1].ev {
        AppendNormal(merged, gap);
        merged := merged + [gap];
        forall t ensures At(merged, t) == At(gaps[..i + 1], t) {
          AtAppend(was, gap, t);
          AtAppend(gaps[..i], gap, t);
        }
      } else {
        JoinNormal(merged, gap);
        merged := merged[..|merged| - 1] + [Joined(merged[|merged| - 1], gap)];
        forall t ensures At(merged, t) == At(gaps[..i + 1], t) {
          AtAppend(gaps[..i], gap, t);
        }
      }
    }
    assert gaps[..|gaps|] == gaps;
  }

  lemma {:induction false} AppendNormal(merged: seq<Gap>, gap: Gap)
    requires Normal(merged) && WellFormed(gap)
    requires merged != [] ==> merged[|merged| - 1].end < gap.start
    requires merged == [] || gap.start > merged[|merged| - 1].end + ONE_MIN_MS || gap.ev != merged[|merged| - 1].ev
    ensures Normal(merged + [gap])
  {
    var n := |merged|;
    forall i | 0 <= i < n ensures merged[i].end < gap.start {
      if i < n - 1 { assert merged[i].end < merged[n - 1].start <= merged[n - 1].end; }
    }
  }

  /** Extending the last record over a touching one of equal evidence reads like appending that one. */
  lemma {:induction false} JoinNormal(merged: seq<Gap>, gap: Gap)
    requires Normal(merged) && merged != [] && WellFormed(gap)
    requires merged[|merged| - 1].end < gap.start <= merged[|merged| - 1].end + ONE_MIN_MS
    requires gap.ev == merged[|merged| - 1].ev
    ensures Normal(merged[..|merged| - 1] + [Joined(merged[|merged| - 1], gap)])
    ensures forall t ::
      At(merged[..|merged| - 1] + [Joined(merged[|merged| - 1], gap)], t)
      == Prefer(At(merged, t), if Covers(gap, t) then Some(gap.ev) else None)
  {
    var n := |merged| - 1;
    var init, prev := merged[..n], merged[n];
    var joined := Joined(prev, gap);
    GridStep(prev.end, gap.start);
    assert joined == Gap(prev.start, gap.end, prev.ev);
    var out := init + [joined];
    assert AllWellFormed(out) && Disjoint(out);
    forall t ensures At(out, t) == Prefer(At(merged, t), if Covers(gap, t) then Some(gap.ev) else None) {
      JoinedMinute(merged, gap, joined, t);
    }
  }

  lemma {:induction false} JoinedMinute(merged: seq<Gap>, gap: Gap, joined: Gap, t: int)
    requires Normal(merged) && merged != [] && WellFormed(gap)
    requires var prev := merged[|merged| - 1];
      gap.start == prev.end + ONE_MIN_MS && gap.ev == prev.ev && joined == Gap(prev.start, gap.end, prev.ev)
    ensures At(merged[..|merged| - 1] + [joined], t)
         == Prefer(At(merged, t), if Covers(gap, t) then Some(gap.ev) else None)
  {
    var n := |merged| - 1;
    AtAppend(merged[..n], joined, t);
    if Covers(gap, t) { NothingBefore(merged, t); }
  }

  /** A time at or after the start of the last record is in no earlier one. */
  lemma {:induction false} NothingBefore(merged: seq<Gap>, t: int)
    requires Normal(merged) && merged != [] && t >= merged[|merged| - 1].start
    ensures At(merged[..|merged| - 1], t).None?
  {
    var n := |merged| - 1;
    forall i | 0 <= i < n ensures !Covers(merged[..n][i], t) {
      assert merged[i].end < merged[n].start;
      GridStep(merged[i].end, merged[n].start);
    }
    AtUncovered(merged[..n], t);
  }

  /** `out` is the stored form of `gaps`. */
  ghost predicate NormalFormOf(gaps: seq<Gap>, out: seq<Gap>) {
    && Normal(out)
    && forall t :: At(out, t) == At(gaps, t)
  }

  /** The whole of `_save_known_gaps_enhanced`: filter, sweep, sort, merge. */
  method Normalize(gaps: seq<Gap>) returns (out: seq<Gap>)
    requires GridRecords(gaps)
    ensures NormalFormOf(gaps, out)
  {
    PreparedSame(gaps);
    var segments := Sweep(Prepared(gaps));
    StartPreorder();
    assert SortedBy(segments, StartLeq) by {
      forall i, j | 0 <= i < j < |segments| ensures StartLeq(segments[i], segments[j]) {
        assert segments[i].end < segments[j].start;
      }
    }
    SortIdentity(segments, StartLeq);
    out := MergeEqualNeighbours(Sort(segments, StartLeq));
  }

  /** Every list has one stored form, and a stored form is its own. */
  lemma {:induction false} NormalFormUnique(gaps: seq<Gap>, a: seq<Gap>, b: seq<Gap>)
    requires NormalFormOf(gaps, a)
    ensures NormalFormOf(gaps, b) ==> a == b
    ensures NormalFormOf(a, b) ==> a == b
  {
    if NormalFormOf(gaps, b) || NormalFormOf(a, b) {
      forall t ensures At(a, t) == At(b, t) { assert At(a, t) == At(gaps, t); }
      NormalIsCanonical(a, b);
    }
  }
}
