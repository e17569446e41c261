/**
 * The ledger itself: adding or updating a gap, and trimming by stored rows. Each operation is
 * specified minute by minute; the theorems at the end are about whole runs.
 */
module GapLedger {
  import opened Wrappers
  import opened Minutes
  import opened Sorting
  import opened Spans
  import opened GapRecords
  import opened GapSweep
  import opened RetryPolicy

  /** One call of `_add_known_gap`; `retryCount` is the optional explicit count. */
  datatype Request = Request(
    start: int, end: int, reason: Reason, incrementRetry: bool, retryCount: Option<int>, now: int)

  predicate GridRequest(req: Request) {
    Aligned(req.start) && Aligned(req.end)
  }

  predicate Requested(req: Request, t: int) {
    req.start <= t < req.end + ONE_MIN_MS
  }

  predicate Compatible(existing: Reason, requested: Reason) {
    existing == requested || (!NonExpiring(existing) && !NonExpiring(requested))
  }

  /** Evidence of a minute the ledger did not know: a new retry epoch. */
  function FreshEvidence(req: Request): (ev: Evidence) {
    Evidence(
      match req.retryCount { case Some(n) => n case None => if req.incrementRetry then 1 else 0 },
      req.reason, req.now, req.now, 0)
  }

  /** Evidence of a known compatible minute after the request. */
  function UpdatedEvidence(hyperliquid: bool, gap: Gap, req: Request): (ev: Evidence) {
    var previous := gap.ev.retryCount;
    var counted :=
      if req.retryCount.Some? then
        gap.ev.(
          retryCount := req.retryCount.value,
          lastRetryAt := req.now,
          addedAt := if req.retryCount.value >= GAP_MAX_RETRIES && previous < GAP_MAX_RETRIES then req.now
                     else gap.ev.addedAt)
      else if req.incrementRetry && ShouldRetryGap(hyperliquid, gap, req.now) then
        gap.ev.(
          retryCount := Min(
            if previous >= GAP_MAX_RETRIES then
              (if IsRecentHyperliquidGap(hyperliquid, gap, req.now) then GAP_MAX_RETRIES else 1)
            else previous + 1,
            GAP_MAX_RETRIES),
          lastRetryAt := req.now,
          addedAt := req.now)
      else gap.ev;
    if req.reason.AutoDetected? then counted else counted.(reason := req.reason)
  }

  /** The last record of the list that covers `t`; in a disjoint list the only one. */
  function RecordAt(gaps: seq<Gap>, t: int): Option<Gap> {
    if gaps == [] then None
    else if Covers(gaps[|gaps| - 1], t) then Some(gaps[|gaps| - 1])
    else RecordAt(gaps[..|gaps| - 1], t)
  }

  /** What minute `t` of a normal ledger carries after the request. */
  function AddedAt(hyperliquid: bool, gaps: seq<Gap>, req: Request, t: int): Option<Evidence> {
    match RecordAt(gaps, t)
    case None => if Requested(req, t) then Some(FreshEvidence(req)) else None
    case Some(g) =>
      if !Requested(req, t) then Some(g.ev)
      else if Compatible(g.ev.reason, req.reason) then Some(UpdatedEvidence(hyperliquid, g, req))
      else if NonExpiring(g.ev.reason) && !NonExpiring(req.reason) then Some(g.ev)
      else Some(FreshEvidence(req))
  }

  lemma {:induction false} RecordAtDisjoint(gaps: seq<Gap>, t: int)
    requires AllWellFormed(gaps) && Disjoint(gaps)
    ensures RecordAt(gaps, t).None? <==> At(gaps, t).None?
    ensures RecordAt(gaps, t).Some? ==>
      Covers(RecordAt(gaps, t).value, t) && At(gaps, t) == Some(RecordAt(gaps, t).value.ev)
  {
    if gaps != [] {
      var n := |gaps| - 1;
      var init := gaps[..n];
      assert forall i :: 0 <= i < n ==> init[i] == gaps[i];
      RecordAtDisjoint(init, t);
      if Covers(gaps[n], t) { AtDisjoint(gaps, n, t); }
    }
  }

  /** What can happen to the ledger. */
  datatype Event = Add(req: Request) | Store(rows: seq<int>)

  /** One event takes the ledger from `before` to `after`. */
  ghost predicate Step(hyperliquid: bool, before: seq<Gap>, e: Event, after: seq<Gap>) {
    && Normal(after)
    && match e
       case Add(req) => forall t :: At(after, t) == AddedAt(hyperliquid, before, req, t)
       case Store(rows) => forall t :: At(after, t) == if RowAt(rows, t) then None else At(before, t)
  }

  class Ledger {
    const hyperliquid: bool
    var knownGaps: seq<Gap>

    constructor (hyperliquid: bool)
      ensures this.hyperliquid == hyperliquid && knownGaps == []
    {
      this.hyperliquid := hyperliquid;
      knownGaps := [];
    }

    ghost predicate Valid()
      reads this
    {
      Normal(knownGaps)
    }

    method Save(gaps: seq<Gap>)
      requires GridRecords(gaps)
      modifies this
      ensures Valid() && NormalFormOf(gaps, knownGaps)
    {
      knownGaps := Normalize(gaps);
    }

    /** The exact overlaps with compatible records, and the updated records for them. */
    method Overlaps(req: Request) returns (covered: seq<Span>, updates: seq<Gap>)
      requires Valid() && GridRequest(req)
      ensures GridRecords(updates) && ProperSpans(covered)
      ensures forall t :: InSpans(covered, t) <==> UpdateAt(hyperliquid, knownGaps, req, t).Some?
      ensures forall t :: At(updates, t) == UpdateAt(hyperliquid, knownGaps, req, t)
    {
      covered, updates := [], [];
      for i := 0 to |knownGaps|
        invariant GridRecords(updates) && ProperSpans(covered)
        invariant forall t :: InSpans(covered, t) <==> UpdateAt(hyperliquid, knownGaps[..i], req, t).Some?
        invariant forall t :: At(updates, t) == UpdateAt(hyperliquid, knownGaps[..i], req, t)
      {
        var gap := knownGaps[i];
        var overlapStart, overlapEnd := Max(gap.start, req.start), Min(gap.end, req.end);
        ghost var c, u := covered, updates;
        if Compatible(gap.ev.reason, req.reason) && overlapStart <= overlapEnd {
          covered := covered + [(overlapStart, overlapEnd)];
          updates := updates + [Gap(overlapStart, overlapEnd, UpdatedEvidence(hyperliquid, gap, req))];
        }
        OverlapStep(hyperliquid, knownGaps, i, req, c, u, covered, updates);
      }
      assert knownGaps[..|knownGaps|] == knownGaps;
    }

    /** Takes the minutes of stored rows out of the ledger. */
    method TrimCoveredByRows(rows: seq<int>) returns (changed: bool)
      requires Valid() && GridRows(rows)
      modifies this
      ensures Valid() && Step(hyperliquid, old(knownGaps), Store(rows), knownGaps)
      ensures changed <==> exists t :: RowAt(rows, t) && At(old(knownGaps), t).Some?
      ensures !changed ==> knownGaps == old(knownGaps)
    {
      if rows == [] || knownGaps == [] {
        return false;
      }
      var timestamps := UniqueSorted(rows);
      SameRows(rows, timestamps);
      assert rows[0] in timestamps;
      var retained: seq<Gap> := [];
      changed := false;
      for i := 0 to |knownGaps|
        invariant knownGaps == old(knownGaps)
        invariant Trimmed(knownGaps[..i], timestamps, retained, changed)
      {
        var pieces, trimmed := TrimOne(knownGaps[i], timestamps);
        assert knownGaps[..i + 1] == knownGaps[..i] + [knownGaps[i]];
        TrimStep(knownGaps[..i], knownGaps[i], timestamps, retained, changed, pieces, trimmed);
        retained, changed := retained + pieces, changed || trimmed;
      }
      assert knownGaps[..|knownGaps|] == knownGaps;
      if changed {
        Save(retained);
      }
    }

    method AddKnownGap(req: Request)
      requires Valid() && GridRequest(req)
      modifies this
      ensures Valid() && Step(hyperliquid, old(knownGaps), Add(req), knownGaps)
    {
      ghost var before := knownGaps;
      var covered, updates := Overlaps(req);
      SortedMasks(covered);
      var uncovered := Uncovered((req.start, req.end), Sort(covered, PairLeq));
      var novel := FreshRecords(uncovered, req);
      Save(knownGaps + updates + novel);
      forall t ensures At(knownGaps, t) == AddedAt(hyperliquid, before, req, t) {
        AddedMinute(hyperliquid, before, updates, novel, req, t);
      }
    }
  }

  /** The updated and the new records together decide as specified, minute by minute. */
  lemma {:induction false} AddedMinute(hyperliquid: bool, before: seq<Gap>, updates: seq<Gap>, novel: seq<Gap>,
                                       req: Request, t: int)
    requires Normal(before)
    requires At(updates, t) == UpdateAt(hyperliquid, before, req, t)
    requires At(novel, t) ==
      if Requested(req, t) && UpdateAt(hyperliquid, before, req, t).None? then Some(FreshEvidence(req)) else None
    ensures At(before + updates + novel, t) == AddedAt(hyperliquid, before, req, t)
  {
    AtConcat(before + updates, novel, t);
    AtConcat(before, updates, t);
    RecordAtDisjoint(before, t);
  }

  /** What is left of some records without the stored minutes, and whether any of them was in the way. */
  ghost predicate Trimmed(gaps: seq<Gap>, timestamps: seq<int>, retained: seq<Gap>, changed: bool) {
    && GridRecords(retained)
    && (forall t :: At(retained, t) == if RowAt(timestamps, t) then None else At(gaps, t))
    && (changed <==> exists t :: RowAt(timestamps, t) && At(gaps, t).Some?)
    && (!changed ==> retained == gaps)
  }

  lemma {:induction false} TrimStep(gaps: seq<Gap>, gap: Gap, timestamps: seq<int>, retained: seq<Gap>, changed: bool,
                                    pieces: seq<Gap>, trimmed: bool)
    requires Trimmed(gaps, timestamps, retained, changed)
    requires GridRecords(pieces)
    requires forall t :: At(pieces, t) == if Covers(gap, t) && !RowAt(timestamps, t) then Some(gap.ev) else None
    requires trimmed <==> exists t :: Covers(gap, t) && RowAt(timestamps, t)
    requires !trimmed ==> pieces == [gap]
    ensures Trimmed(gaps + [gap], timestamps, retained + pieces, changed || trimmed)
  {
    forall t
      ensures At(retained + pieces, t) == if RowAt(timestamps, t) then None else At(gaps + [gap], t)
      ensures At(gaps + [gap], t).Some? <==> At(gaps, t).Some? || Covers(gap, t)
    {
      AtConcat(retained, pieces, t);
      AtAppend(gaps, gap, t);
    }
  }

  /** What is left of one record when the stored minutes inside it are cut out. */
  method TrimRecord(gap: Gap, covered: seq<int>) returns (pieces: seq<Gap>)
    requires WellFormed(gap) && GridRows(covered) && Increasing(covered)
    requires forall i :: 0 <= i < |covered| ==> gap.start <= covered[i] <= gap.end
    ensures GridRecords(pieces)
    ensures forall t :: At(pieces, t) == if Covers(gap, t) && !RowAt(covered, t) then Some(gap.ev) else None
  {
    pieces := [];
    var nextStart := gap.start;
    for i := 0 to |covered|
      invariant GridRecords(pieces) && Aligned(nextStart)
      invariant nextStart == if i == 0 then gap.start else covered[i - 1] + ONE_MIN_MS
      invariant forall t ::
        At(pieces, t) == if gap.start <= t < nextStart && !RowAt(covered[..i], t) then Some(gap.ev) else None
      invariant forall t :: RowAt(covered[..i], t) ==> t < nextStart
    {
      var ts := covered[i];
      ghost var was, upTo := pieces, covered[..i + 1];
      assert upTo == covered[..i] + [ts];
      GridNeighbours(ts);
      if i > 0 { GridStep(covered[i - 1], ts); }
      var piece := gap.(start := nextStart, end := ts - ONE_MIN_MS);
      if nextStart <= ts - ONE_MIN_MS {
        pieces := pieces + [piece];
      } else {
        if nextStart < ts { GridStep(nextStart, ts); }
      }
      nextStart := ts + ONE_MIN_MS;
      forall t
        ensures At(pieces, t) == if gap.start <= t < nextStart && !RowAt(upTo, t) then Some(gap.ev) else None
        ensures RowAt(upTo, t) ==> t < nextStart
      {
        AtAppend(was, piece, t);
        RowAtAppend(covered[..i], ts, t);
      }
    }
    assert covered[..|covered|] == covered;
    ghost var was := pieces;
    var rest := gap.(start := nextStart);
    if nextStart <= gap.end {
      pieces := pieces + [rest];
    }
    forall t ensures At(pieces, t) == if Covers(gap, t) && !RowAt(covered, t) then Some(gap.ev) else None {
      AtAppend(was, rest, t);
      if gap.end < nextStart { GridStep(gap.end, nextStart); }
    }
  }

  /** The slice `timestamps[left:right]` holds every stored minute of the record. */
  lemma {:induction false} CoveredSlice(timestamps: seq<int>, gap: Gap, left: nat, right: nat, t: int)
    requires WellFormed(gap) && GridRows(timestamps) && left <= right <= |timestamps|
    requires forall i :: 0 <= i < left ==> timestamps[i] < gap.start
    requires forall i :: left <= i < right ==> gap.start <= timestamps[i] <= gap.end
    requires forall i :: right <= i < |timestamps| ==> gap.end < timestamps[i]
    requires Covers(gap, t)
    ensures RowAt(timestamps, t) <==> RowAt(timestamps[left..right], t)
  {
    var covered := timestamps[left..right];
    if RowAt(timestamps, t) {
      var i :| 0 <= i < |timestamps| && RowCovers(timestamps[i], t);
      if i < left { GridStep(timestamps[i], gap.start); }
      if right <= i { GridStep(gap.end, timestamps[i]); }
      assert RowCovers(covered[i - left], t);
    }
    if RowAt(covered, t) {
      var i :| 0 <= i < |covered| && RowCovers(covered[i], t);
      assert RowCovers(timestamps[left + i], t);
    }
  }

  /** The stored minutes inside a record, found by bisection. */
  method RowsInside(gap: Gap, timestamps: seq<int>) returns (covered: seq<int>)
    requires WellFormed(gap) && GridRows(timestamps) && Increasing(timestamps) && timestamps != []
    ensures GridRows(covered) && Increasing(covered)
    ensures forall i :: 0 <= i < |covered| ==> gap.start <= covered[i] <= gap.end
    ensures forall t | Covers(gap, t) :: RowAt(timestamps, t) <==> RowAt(covered, t)
    ensures gap.end < timestamps[0] || gap.start > timestamps[|timestamps| - 1] ==> covered == []
  {
    var left := SearchSorted(timestamps, gap.start);
    var right := SearchSorted(timestamps, gap.end + 1);
    assert right == |timestamps| || gap.end < timestamps[right];
    covered := timestamps[left..right];
    forall t | Covers(gap, t) ensures RowAt(timestamps, t) <==> RowAt(covered, t) {
      CoveredSlice(timestamps, gap, left, right, t);
    }
  }

  /** One record of the trim loop. */
  method TrimOne(gap: Gap, timestamps: seq<int>) returns (pieces: seq<Gap>, changed: bool)
    requires WellFormed(gap) && GridRows(timestamps) && Increasing(timestamps) && timestamps != []
    ensures GridRecords(pieces)
    ensures forall t :: At(pieces, t) == if Covers(gap, t) && !RowAt(timestamps, t) then Some(gap.ev) else None
    ensures changed <==> exists t :: Covers(gap, t) && RowAt(timestamps, t)
    ensures !changed ==> pieces == [gap]
  {
    var covered := RowsInside(gap, timestamps);
    if gap.end < timestamps[0] || gap.start > timestamps[|timestamps| - 1] || covered == [] {
      pieces, changed := [gap], false;
      assert [] + [gap] == [gap];
      forall t ensures At(pieces, t) == if Covers(gap, t) && !RowAt(timestamps, t) then Some(gap.ev) else None {
        AtAppend([], gap, t);
      }
    } else {
      changed := true;
      assert RowCovers(covered[0], covered[0]);
      assert Covers(gap, covered[0]) && RowAt(timestamps, covered[0]);
      pieces := TrimRecord(gap, covered);
    }
  }

  /** The updated evidence of `t`, if the request updates a record there. */
  function UpdateAt(hyperliquid: bool, gaps: seq<Gap>, req: Request, t: int): Option<Evidence> {
    match RecordAt(gaps, t)
    case None => None
    case Some(g) =>
      if Requested(req, t) && Compatible(g.ev.reason, req.reason) then Some(UpdatedEvidence(hyperliquid, g, req))
      else None
  }

  lemma {:induction false} OverlapStep(hyperliquid: bool, gaps: seq<Gap>, i: nat, req: Request,
                                       c: seq<Span>, u: seq<Gap>, covered: seq<Span>, updates: seq<Gap>)
    requires Normal(gaps) && i < |gaps| && GridRequest(req)
    requires forall t :: InSpans(c, t) <==> UpdateAt(hyperliquid, gaps[..i], req, t).Some?
    requires forall t :: At(u, t) == UpdateAt(hyperliquid, gaps[..i], req, t)
    requires var s := (Max(gaps[i].start, req.start), Min(gaps[i].end, req.end));
      if Compatible(gaps[i].ev.reason, req.reason) && s.0 <= s.1 then
        && covered == c + [s]
        && updates == u + [Gap(s.0, s.1, UpdatedEvidence(hyperliquid, gaps[i], req))]
      else covered == c && updates == u
    ensures forall t :: InSpans(covered, t) <==> UpdateAt(hyperliquid, gaps[..i + 1], req, t).Some?
    ensures forall t :: At(updates, t) == UpdateAt(hyperliquid, gaps[..i + 1], req, t)
  {
    var s := (Max(gaps[i].start, req.start), Min(gaps[i].end, req.end));
    var up := Gap(s.0, s.1, UpdatedEvidence(hyperliquid, gaps[i], req));
    forall t
      ensures InSpans(covered, t) <==> UpdateAt(hyperliquid, gaps[..i + 1], req, t).Some?
      ensures At(updates, t) == UpdateAt(hyperliquid, gaps[..i + 1], req, t)
    {
      InSpansAppend(c, s, t);
      AtAppend(u, up, t);
      OverlapMinutes(gaps[i], req, t);
      UpdateAppend(hyperliquid, gaps, i, req, t);
    }
  }

  /** The next record decides at its minutes, which no record before it covers. */
  lemma {:induction false} UpdateAppend(hyperliquid: bool, gaps: seq<Gap>, i: nat, req: Request, t: int)
    requires Normal(gaps) && i < |gaps|
    ensures Covers(gaps[i], t) ==> UpdateAt(hyperliquid, gaps[..i], req, t).None?
    ensures UpdateAt(hyperliquid, gaps[..i + 1], req, t) ==
      if Covers(gaps[i], t) && Requested(req, t) && Compatible(gaps[i].ev.reason, req.reason)
      then Some(UpdatedEvidence(hyperliquid, gaps[i], req)) else UpdateAt(hyperliquid, gaps[..i], req, t)
  {
    assert gaps[..i + 1][..i] == gaps[..i];
    if Covers(gaps[i], t) && RecordAt(gaps[..i], t).Some? {
      CoveredBefore(gaps, i, t);
    }
  }

  lemma {:induction false} CoveredBefore(gaps: seq<Gap>, i: nat, t: int)
    requires Normal(gaps) && i < |gaps| && RecordAt(gaps[..i], t).Some?
    ensures !Covers(gaps[i], t)
  {
    var prefix := gaps[..i];
    RecordAtMember(prefix, t);
    var j :| 0 <= j < i && prefix[j] == RecordAt(prefix, t).value;
    RecordAtDisjoint(prefix, t);
    assert gaps[j].end < gaps[i].start;
    GridStep(gaps[j].end, gaps[i].start);
  }

  lemma {:induction false} OverlapMinutes(gap: Gap, req: Request, t: int)
    requires WellFormed(gap) && GridRequest(req)
    ensures var s := (Max(gap.start, req.start), Min(gap.end, req.end));
      Covers(gap, t) && Requested(req, t) <==> s.0 <= s.1 && SpanCovers(s, t)
  {
    if req.end < gap.start { GridStep(req.end, gap.start); }
    if gap.end < req.start { GridStep(gap.end, req.start); }
  }

  /** The parts of a request that no covered span touches (the cursor loop of `_add_known_gap`). */
  method Uncovered(request: Span, sorted: seq<Span>) returns (uncovered: seq<Span>)
    requires GridSpan(request) && ProperSpans(sorted) && SortedStarts(sorted)
    ensures GridSpans(uncovered)
    ensures forall t :: InSpans(uncovered, t) <==> SpanCovers(request, t) && !InSpans(sorted, t)
  {
    uncovered := [];
    var cursor := request.0;
    var i := 0;
    while i < |sorted| && cursor <= request.1
      invariant 0 <= i <= |sorted|
      invariant Cut(request, sorted, i, uncovered, cursor)
    {
      var s := sorted[i];
      if s.1 < cursor {
        CutSkip(request, sorted, i, uncovered, cursor);
      } else {
        CutStep(request, sorted, i, uncovered, cursor);
        if s.0 > cursor {
          uncovered := uncovered + [(cursor, Min(request.1, s.0 - ONE_MIN_MS))];
        }
        cursor := Max(cursor, s.1 + ONE_MIN_MS);
      }
      i := i + 1;
    }
    CutEnd(request, sorted, i, uncovered, cursor);
    if cursor <= request.1 {
      uncovered := uncovered + [(cursor, request.1)];
    }
  }

  method FreshRecords(uncovered: seq<Span>, req: Request) returns (novel: seq<Gap>)
    requires GridSpans(uncovered)
    ensures GridRecords(novel)
    ensures forall t :: At(novel, t) == if InSpans(uncovered, t) then Some(FreshEvidence(req)) else None
  {
    novel := [];
    for i := 0 to |uncovered|
      invariant GridRecords(novel)
      invariant forall t :: At(novel, t) == if InSpans(uncovered[..i], t) then Some(FreshEvidence(req)) else None
    {
      var gap := Gap(uncovered[i].0, uncovered[i].1, FreshEvidence(req));
      forall t
        ensures At(novel + [gap], t) == if InSpans(uncovered[..i + 1], t) then Some(FreshEvidence(req)) else None
      {
        assert uncovered[..i + 1] == uncovered[..i] + [uncovered[i]];
        InSpansAppend(uncovered[..i], uncovered[i], t);
        AtAppend(novel, gap, t);
      }
      novel := novel + [gap];
    }
    assert uncovered[..|uncovered|] == uncovered;
  }

  // ---------- whole runs ----------

  /** `states[i]` is the ledger before `events[i]`. */
  ghost predicate Run(hyperliquid: bool, states: seq<seq<Gap>>, events: seq<Event>) {
    && |states| == |events| + 1
    && Normal(states[0])
    && forall i {:trigger events[i]} :: 0 <= i < |events| ==>
      Step(hyperliquid, states[i], events[i], states[i + 1])
  }

  lemma {:induction false} RunStep(hyperliquid: bool, states: seq<seq<Gap>>, events: seq<Event>, i: nat)
    requires Run(hyperliquid, states, events) && i < |events|
    ensures Normal(states[i])
    ensures Step(hyperliquid, states[i], events[i], states[i + 1])
  {
    if i > 0 { assert Step(hyperliquid, states[i - 1], events[i - 1], states[i]); }
  }

  /** Coverage replayed over the events alone: requests add their range, rows take their minutes. */
  predicate CoveredAfter(covered: bool, events: seq<Event>, t: int) {
    if events == [] then covered
    else
      var before := CoveredAfter(covered, events[..|events| - 1], t);
      match events[|events| - 1]
      case Add(req) => before || Requested(req, t)
      case Store(rows) => before && !RowAt(rows, t)
  }

  /** Over any run the ledger covers exactly the old coverage and the requests, less the stored rows. */
  lemma {:induction false} CoverageOfRun(hyperliquid: bool, states: seq<seq<Gap>>, events: seq<Event>, n: nat, t: int)
    requires Run(hyperliquid, states, events) && n <= |events|
    ensures At(states[n], t).Some? <==> CoveredAfter(At(states[0], t).Some?, events[..n], t)
  {
    if n > 0 {
      CoverageOfRun(hyperliquid, states, events, n - 1, t);
      RunStep(hyperliquid, states, events, n - 1);
      CoverageStep(hyperliquid, states[n - 1], events[n - 1], states[n], t);
      assert events[..n][..n - 1] == events[..n - 1];
    }
  }

  lemma {:induction false} CoverageStep(hyperliquid: bool, before: seq<Gap>, e: Event, after: seq<Gap>, t: int)
    requires Normal(before) && Step(hyperliquid, before, e, after)
    ensures At(after, t).Some? <==>
      match e
      case Add(req) => At(before, t).Some? || Requested(req, t)
      case Store(rows) => At(before, t).Some? && !RowAt(rows, t)
  {
    RecordAtDisjoint(before, t);
  }

  /** No event from `i` to `n` speaks about the minute. */
  predicate Unmentioned(events: seq<Event>, i: nat, n: nat, t: int)
    requires i <= n <= |events|
  {
    forall k :: i <= k < n ==>
      match events[k]
      case Add(req) => !Requested(req, t)
      case Store(rows) => !RowAt(rows, t)
  }

  /** A minute nobody mentions keeps its evidence exactly. */
  lemma {:induction false} UnmentionedKept(hyperliquid: bool, states: seq<seq<Gap>>, events: seq<Event>, i: nat,
                                           n: nat, t: int)
    requires Run(hyperliquid, states, events) && i <= n <= |events|
    requires Unmentioned(events, i, n, t)
    ensures At(states[n], t) == At(states[i], t)
    decreases n
  {
    if i < n {
      UnmentionedKept(hyperliquid, states, events, i, n - 1, t);
      RunStep(hyperliquid, states, events, n - 1);
      RecordAtDisjoint(states[n - 1], t);
      assert match events[n - 1] case Add(req) => !Requested(req, t) case Store(rows) => !RowAt(rows, t);
    }
  }

  predicate NoRowStored(events: seq<Event>, i: nat, n: nat, t: int)
    requires i <= n <= |events|
  {
    forall k :: i <= k < n && events[k].Store? ==> !RowAt(events[k].rows, t)
  }

  predicate OnlyRetryable(events: seq<Event>, i: nat, n: nat)
    requires i <= n <= |events|
  {
    forall k :: i <= k < n && events[k].Add? ==> !NonExpiring(events[k].req.reason)
  }

  /**
   * Proof is never lost: until a real row arrives a minute with a terminal reason keeps one, and
   * retryable requests do not even touch its clocks.
   */
  lemma {:induction false} ProofPersists(hyperliquid: bool, states: seq<seq<Gap>>, events: seq<Event>, i: nat,
                                         n: nat, t: int)
    requires Run(hyperliquid, states, events) && i <= n <= |events|
    requires At(states[i], t).Some? && NonExpiring(At(states[i], t).value.reason)
    requires NoRowStored(events, i, n, t)
    ensures At(states[n], t).Some? && NonExpiring(At(states[n], t).value.reason)
    ensures OnlyRetryable(events, i, n) ==> At(states[n], t) == At(states[i], t)
    decreases n
  {
    if i < n {
      ProofPersists(hyperliquid, states, events, i, n - 1, t);
      RunStep(hyperliquid, states, events, n - 1);
      RecordAtDisjoint(states[n - 1], t);
    }
  }

  predicate BoundedRetries(gaps: seq<Gap>) {
    forall i :: 0 <= i < |gaps| ==> gaps[i].ev.retryCount <= GAP_MAX_RETRIES
  }

  /** The request puts its own evidence on the minute: it is unknown, compatible, or no proof stands against it. */
  predicate TakesRequest(gaps: seq<Gap>, req: Request, t: int) {
    && Requested(req, t)
    && match RecordAt(gaps, t)
       case None => true
       case Some(g) =>
         Compatible(g.ev.reason, req.reason) || !NonExpiring(g.ev.reason) || NonExpiring(req.reason)
  }

  /** An explicit count above the maximum, and a minute that takes it. */
  ghost predicate OverCounted(gaps: seq<Gap>, req: Request) {
    && req.retryCount.Some? && req.retryCount.value > GAP_MAX_RETRIES
    && exists t :: TakesRequest(gaps, req, t)
  }

  ghost predicate OverCounts(gaps: seq<Gap>, e: Event) {
    e.Add? && OverCounted(gaps, e.req)
  }

  predicate BoundedAt(gaps: seq<Gap>, t: int) {
    At(gaps, t).Some? ==> At(gaps, t).value.retryCount <= GAP_MAX_RETRIES
  }

  lemma {:induction false} BoundedThere(gaps: seq<Gap>, t: int)
    requires BoundedRetries(gaps)
    ensures BoundedAt(gaps, t)
  {
    AtTerminalWitness(gaps, t);
  }

  lemma {:induction false} BoundedEverywhere(gaps: seq<Gap>)
    requires Normal(gaps) && forall t :: BoundedAt(gaps, t)
    ensures BoundedRetries(gaps)
  {
    forall i | 0 <= i < |gaps| ensures gaps[i].ev.retryCount <= GAP_MAX_RETRIES {
      AtDisjoint(gaps, i, gaps[i].start);
      assert BoundedAt(gaps, gaps[i].start);
    }
  }

  /** One event lets a count exceed the maximum exactly when it is a request that is over-counted there. */
  lemma {:induction false} StepBounded(hyperliquid: bool, before: seq<Gap>, e: Event, after: seq<Gap>)
    requires Normal(before) && BoundedRetries(before) && Step(hyperliquid, before, e, after)
    ensures BoundedRetries(after) <==> !OverCounts(before, e)
  {
    if OverCounts(before, e) {
      var t :| TakesRequest(before, e.req, t);
      TakenCount(hyperliquid, before, e.req, t);
      assert At(after, t) == AddedAt(hyperliquid, before, e.req, t);
      if BoundedRetries(after) { BoundedThere(after, t); }
    } else {
      forall t ensures BoundedAt(after, t) {
        BoundedThere(before, t);
        if e.Add? { TakenCount(hyperliquid, before, e.req, t); }
      }
      BoundedEverywhere(after);
    }
  }

  lemma {:induction false} TakenCount(hyperliquid: bool, gaps: seq<Gap>, req: Request, t: int)
    requires Normal(gaps) && BoundedRetries(gaps)
    ensures TakesRequest(gaps, req, t) ==> AddedAt(hyperliquid, gaps, req, t).Some?
    ensures TakesRequest(gaps, req, t) && req.retryCount.Some? ==>
      AddedAt(hyperliquid, gaps, req, t).value.retryCount == req.retryCount.value
    ensures AddedAt(hyperliquid, gaps, req, t).Some? && !(TakesRequest(gaps, req, t) && req.retryCount.Some?) ==>
      AddedAt(hyperliquid, gaps, req, t).value.retryCount <= GAP_MAX_RETRIES
  {
    if RecordAt(gaps, t).Some? { RecordAtMember(gaps, t); }
  }

  /** From a bounded ledger all counts of a run stay bounded exactly when no request is over-counted on its way. */
  lemma {:induction false} RetriesStayBounded(hyperliquid: bool, states: seq<seq<Gap>>, events: seq<Event>)
    requires Run(hyperliquid, states, events) && BoundedRetries(states[0])
    ensures (forall n :: 0 <= n < |states| ==> BoundedRetries(states[n])) <==>
      (forall k :: 0 <= k < |events| ==> !OverCounts(states[k], events[k]))
  {
    if forall n :: 0 <= n < |states| ==> BoundedRetries(states[n]) {
      forall k | 0 <= k < |events| ensures !OverCounts(states[k], events[k]) {
        RunStep(hyperliquid, states, events, k);
        StepBounded(hyperliquid, states[k], events[k], states[k + 1]);
      }
    }
    if forall k :: 0 <= k < |events| ==> !OverCounts(states[k], events[k]) {
      forall n | 0 <= n < |states| ensures BoundedRetries(states[n]) {
        BoundedUpTo(hyperliquid, states, events, n);
      }
    }
  }

  lemma {:induction false} BoundedUpTo(hyperliquid: bool, states: seq<seq<Gap>>, events: seq<Event>, n: nat)
    requires Run(hyperliquid, states, events) && n <= |events| && BoundedRetries(states[0])
    requires forall k :: 0 <= k < n ==> !OverCounts(states[k], events[k])
    ensures BoundedRetries(states[n])
  {
    if n > 0 {
      BoundedUpTo(hyperliquid, states, events, n - 1);
      RunStep(hyperliquid, states, events, n - 1);
      StepBounded(hyperliquid, states[n - 1], events[n - 1], states[n]);
    }
  }

  /** A new minute takes an explicit count of four, which is above the maximum. */
  lemma {:induction false} CountAboveMaximum(hyperliquid: bool, after: seq<Gap>)
    requires Step(hyperliquid, [], Add(Request(0, 0, FetchFailed, true, Some(4), 0)), after)
    ensures !BoundedRetries(after)
  {
    assert TakesRequest([], Request(0, 0, FetchFailed, true, Some(4), 0), 0);
    StepBounded(hyperliquid, [], Add(Request(0, 0, FetchFailed, true, Some(4), 0)), after);
  }

  lemma {:induction false} RecordAtMember(gaps: seq<Gap>, t: int)
    requires RecordAt(gaps, t).Some?
    ensures RecordAt(gaps, t).value in gaps
  {
    if !Covers(gaps[|gaps| - 1], t) { RecordAtMember(gaps[..|gaps| - 1], t); }
  }

  /** Field by field, what a request leaves at a minute the ledger did not know. */
  lemma {:induction false} UnknownMinute(hyperliquid: bool, before: seq<Gap>, req: Request, after: seq<Gap>, t: int)
    requires Normal(before) && Step(hyperliquid, before, Add(req), after)
    requires req.start <= t < req.end + ONE_MIN_MS && At(before, t).None?
    ensures At(after, t).Some? && var ev := At(after, t).value;
      && ev.reason == req.reason && ev.addedAt == ev.lastRetryAt == req.now && ev.lastContextualRetryAt == 0
      && ev.retryCount ==
           if req.retryCount.Some? then req.retryCount.value else if req.incrementRetry then 1 else 0
  {
    RecordAtDisjoint(before, t);
  }

  /**
   * At a minute whose record has the request's reason, or is like the request no proof: an explicit count is taken
   * over and restarts the clock, an attempt that was due counts and restarts both clocks, anything else leaves
   * count and clocks; a reason that is not automatic replaces the old one.
   */
  lemma {:induction false} CompatibleMinute(hyperliquid: bool, before: seq<Gap>, req: Request, after: seq<Gap>,
                                            i: nat, t: int)
    requires Normal(before) && Step(hyperliquid, before, Add(req), after)
    requires req.start <= t < req.end + ONE_MIN_MS
    requires i < |before| && before[i].start <= t < before[i].end + ONE_MIN_MS
    requires before[i].ev.reason == req.reason
      || (!NonExpiring(before[i].ev.reason) && !NonExpiring(req.reason))
    ensures At(after, t).Some? && var was, ev := before[i].ev, At(after, t).value;
      && ev.reason == (if req.reason == AutoDetected then was.reason else req.reason)
      && ev.lastContextualRetryAt == was.lastContextualRetryAt
      && match req.retryCount
         case Some(count) =>
           && ev.retryCount == count && ev.lastRetryAt == req.now
           && ev.addedAt == if count >= 3 && was.retryCount < 3 then req.now else was.addedAt
         case None =>
           if req.incrementRetry && ShouldRetryGap(hyperliquid, before[i], req.now) then
             && ev.lastRetryAt == ev.addedAt == req.now
             && ev.retryCount ==
                  if was.retryCount < 3 then was.retryCount + 1
                  else if IsRecentHyperliquidGap(hyperliquid, before[i], req.now) then 3 else 1
           else
             ev.retryCount == was.retryCount && ev.lastRetryAt == was.lastRetryAt && ev.addedAt == was.addedAt
  {
    RecordAtIs(before, i, t);
  }

  /** Other evidence: a proof stays against a retryable request, anything else is replaced by a new record. */
  lemma {:induction false} IncompatibleMinute(hyperliquid: bool, before: seq<Gap>, req: Request, after: seq<Gap>,
                                              i: nat, t: int)
    requires Normal(before) && Step(hyperliquid, before, Add(req), after)
    requires req.start <= t < req.end + ONE_MIN_MS
    requires i < |before| && before[i].start <= t < before[i].end + ONE_MIN_MS
    requires before[i].ev.reason != req.reason && (NonExpiring(before[i].ev.reason) || NonExpiring(req.reason))
    ensures At(after, t).Some? && var ev := At(after, t).value;
      if !NonExpiring(req.reason) then ev == before[i].ev
      else
        && ev.reason == req.reason && ev.addedAt == ev.lastRetryAt == req.now && ev.lastContextualRetryAt == 0
        && ev.retryCount ==
             if req.retryCount.Some? then req.retryCount.value else if req.incrementRetry then 1 else 0
  {
    RecordAtIs(before, i, t);
  }

  /** Outside the requested minutes nothing changes. */
  lemma {:induction false} UnrequestedMinute(hyperliquid: bool, before: seq<Gap>, req: Request, after: seq<Gap>, t: int)
    requires Normal(before) && Step(hyperliquid, before, Add(req), after)
    requires !(req.start <= t < req.end + ONE_MIN_MS)
    ensures At(after, t) == At(before, t)
  {
    RecordAtDisjoint(before, t);
  }

  lemma {:induction false} RecordAtIs(gaps: seq<Gap>, i: nat, t: int)
    requires Normal(gaps) && i < |gaps| && gaps[i].start <= t < gaps[i].end + ONE_MIN_MS
    ensures RecordAt(gaps, t) == Some(gaps[i])
  {
    AtDisjoint(gaps, i, t);
    RecordAtDisjoint(gaps, t);
    RecordAtMember(gaps, t);
    var j :| 0 <= j < |gaps| && gaps[j] == RecordAt(gaps, t).value;
    assert Covers(gaps[j], t);
  }

  /**
   * In any run a minute seen for the first time starts its own retry epoch, whatever its neighbours carry: the
   * request's reason, both clocks at its time, and the explicit count or one attempt or none.
   */
  lemma {:induction false} NewMinutesStartFresh(hyperliquid: bool, states: seq<seq<Gap>>, events: seq<Event>, i: nat,
                                                t: int)
    requires Run(hyperliquid, states, events) && i < |events| && events[i].Add?
    requires Requested(events[i].req, t) && At(states[i], t).None?
    ensures At(states[i + 1], t).Some? && var ev, req := At(states[i + 1], t).value, events[i].req;
      && ev.reason == req.reason && ev.addedAt == ev.lastRetryAt == req.now && ev.lastContextualRetryAt == 0
      && ev.retryCount ==
           if req.retryCount.Some? then req.retryCount.value else if req.incrementRetry then 1 else 0
  {
    RunStep(hyperliquid, states, events, i);
    UnknownMinute(hyperliquid, states[i], events[i].req, states[i + 1], t);
  }

  /** The ledger is a function of the history: the same events from the same ledger end in the same records. */
  lemma {:induction false} RunIsDeterministic(hyperliquid: bool, a: seq<seq<Gap>>, b: seq<seq<Gap>>,
                                              events: seq<Event>, n: nat)
    requires Run(hyperliquid, a, events) && Run(hyperliquid, b, events) && n <= |events|
    requires a[0] == b[0]
    ensures a[n] == b[n]
  {
    if n > 0 {
      RunIsDeterministic(hyperliquid, a, b, events, n - 1);
      RunStep(hyperliquid, a, events, n - 1);
      RunStep(hyperliquid, b, events, n - 1);
      NormalIsCanonical(a[n], b[n]);
    }
  }

  /** A fetch attempt that found nothing at `t`: counted, and not proof of anything. */
  predicate FailedAttempt(e: Event, t: int) {
    && e.Add? && Requested(e.req, t)
    && e.req.incrementRetry && e.req.retryCount.None? && !NonExpiring(e.req.reason)
  }

  /** The record of `t` before the attempt is due, so the attempt counts. */
  predicate Counted(hyperliquid: bool, gaps: seq<Gap>, e: Event, t: int) {
    e.Add? && RecordAt(gaps, t).Some? && ShouldRetryGap(hyperliquid, RecordAt(gaps, t).value, e.req.now)
  }

  /**
   * A failed attempt counts exactly when the record was due: its count rises by one up to the maximum, and from
   * there falls back to one unless the gap is a recent one on Hyperliquid. Otherwise count and clock stay.
   */
  lemma {:induction false} AttemptCounts(hyperliquid: bool, states: seq<seq<Gap>>, events: seq<Event>, i: nat, t: int)
    requires Run(hyperliquid, states, events) && i < |events| && FailedAttempt(events[i], t)
    requires At(states[i], t).Some? && !NonExpiring(At(states[i], t).value.reason)
    ensures At(states[i + 1], t).Some? && !NonExpiring(At(states[i + 1], t).value.reason)
    ensures var was, now := At(states[i], t).value, At(states[i + 1], t).value;
      if Counted(hyperliquid, states[i], events[i], t) then
        && now.lastRetryAt == events[i].req.now
        && now.retryCount ==
             if was.retryCount < GAP_MAX_RETRIES then was.retryCount + 1
             else if IsRecentHyperliquidGap(hyperliquid, RecordAt(states[i], t).value, events[i].req.now)
             then GAP_MAX_RETRIES else 1
      else now.retryCount == was.retryCount && now.lastRetryAt == was.lastRetryAt
  {
    RunStep(hyperliquid, states, events, i);
    RecordAtDisjoint(states[i], t);
  }

  /**
   * Three failed attempts make a new minute persistent exactly when the second and the third found it due. Its
   * record is then due again a week after the third attempt, or a quarter of an hour after it while it is a
   * recent gap on Hyperliquid.
   */
  lemma {:induction false} ThirdAttemptDefers(hyperliquid: bool, states: seq<seq<Gap>>, events: seq<Event>, i: nat,
                                              t: int)
    requires Run(hyperliquid, states, events) && i + 3 <= |events|
    requires At(states[i], t).None?
    requires forall k :: i <= k < i + 3 ==> FailedAttempt(events[k], t)
    ensures RecordAt(states[i + 3], t).Some?
    ensures events[i + 2].Add? && var record, third := RecordAt(states[i + 3], t).value, events[i + 2].req.now;
      if Counted(hyperliquid, states[i + 1], events[i + 1], t) && Counted(hyperliquid, states[i + 2], events[i + 2], t)
      then
        && record.ev.retryCount == GAP_MAX_RETRIES
        && forall now :: ShouldRetryGap(hyperliquid, record, now) <==>
             now - third >= if IsRecentHyperliquidGap(hyperliquid, record, now)
                            then HYPERLIQUID_RECENT_PERSISTENT_GAP_RETRY_MS else GAP_PERSISTENT_RETRY_MS
      else record.ev.retryCount < GAP_MAX_RETRIES
  {
    NewMinutesStartFresh(hyperliquid, states, events, i, t);
    AttemptCounts(hyperliquid, states, events, i + 1, t);
    AttemptCounts(hyperliquid, states, events, i + 2, t);
    RunStep(hyperliquid, states, events, i + 2);
    RecordAtDisjoint(states[i + 3], t);
  }

  /** Away from Hyperliquid a record below the maximum is always due, so every attempt counts. */
  lemma {:induction false} CountedElsewhere(gaps: seq<Gap>, e: Event, t: int)
    requires e.Add? && RecordAt(gaps, t).Some?
    requires RecordAt(gaps, t).value.ev.retryCount < GAP_MAX_RETRIES
    ensures Counted(false, gaps, e, t)
  {}

  /** A request for one minute leaves one record of that minute in an empty ledger. */
  lemma {:induction false} OneMinuteRecord(gaps: seq<Gap>, req: Request)
    requires Step(true, [], Add(req), gaps) && req.start == req.end && Aligned(req.start)
    ensures RecordAt(gaps, req.start).Some?
    ensures RecordAt(gaps, req.start).value.start == RecordAt(gaps, req.start).value.end == req.start
    ensures At(gaps, req.start) == Some(RecordAt(gaps, req.start).value.ev)
  {
    var m := req.start;
    forall t ensures At(gaps, t).Some? <==> m <= t < m + ONE_MIN_MS { assert At(gaps, t) == AddedAt(true, [], req, t); }
    RecordAtDisjoint(gaps, m);
    RecordAtMember(gaps, m);
    var k :| 0 <= k < |gaps| && gaps[k] == RecordAt(gaps, m).value;
    RecordOfMinute(gaps, k, m);
  }

  lemma {:induction false} RecordOfMinute(gaps: seq<Gap>, k: nat, m: int)
    requires Normal(gaps) && k < |gaps| && Aligned(m)
    requires forall t :: At(gaps, t).Some? ==> m <= t < m + ONE_MIN_MS
    ensures gaps[k].start == gaps[k].end == m
  {
    AtDisjoint(gaps, k, gaps[k].start);
    AtDisjoint(gaps, k, gaps[k].end);
    if m < gaps[k].start { GridStep(m, gaps[k].start); }
    if m < gaps[k].end { GridStep(m, gaps[k].end); }
  }

  /**
   * Two attempts on one new minute on Hyperliquid: the second counts exactly when five minutes have passed or the
   * minute is no longer recent.
   */
  lemma {:induction false} QuickAttemptNotCounted(states: seq<seq<Gap>>, events: seq<Event>, m: int, first: int,
                                                  second: int)
    requires Run(true, states, events) && states[0] == [] && Aligned(m)
    requires var attempt := Request(m, m, FetchFailed, true, None, first);
      events == [Add(attempt), Add(attempt.(now := second))]
    ensures At(states[2], m).Some?
    ensures At(states[2], m).value.retryCount == if second - first >= 300_000 || second - m > 7_200_000 then 2 else 1
  {
    NewMinutesStartFresh(true, states, events, 0, m);
    RunStep(true, states, events, 0);
    OneMinuteRecord(states[1], events[0].req);
    AttemptCounts(true, states, events, 1, m);
  }

}
