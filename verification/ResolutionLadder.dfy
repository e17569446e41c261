/**
 * Assembling candles from the finest available resolutions: exact one-minute candles, and before the
 * first of them expanded coarser candles, the finest source first.
 */
module ResolutionLadder {
  import opened Wrappers
  import opened Minutes
  import opened Sorting
  import opened Candles
  import opened CandleExpansion
  import opened StandardizeGaps

  /** Minutes of each step of the ladder: 1m, 5m, 15m, 1h. */
  const LADDER: seq<int> := [1, 5, 15, 60]

  datatype Fetched = Rows(rows: seq<Candle>) | Failed

  /** A request: aligned inclusive range, the supported steps, and the exchange's answers. */
  datatype Request = Request(
    start: int,
    end: int,
    supported: int -> bool,
    fetch: (int, int, int) -> Fetched)

  predicate GridAnswers(req: Request) {
    Aligned(req.start) && Aligned(req.end) && req.start <= req.end
  }

  /** Whatever is asked, rows come back on the minute grid. */
  ghost predicate AlignedAnswers(req: Request) {
    forall tf, from, to :: req.fetch(tf, from, to).Rows? ==> GridCandles(req.fetch(tf, from, to).rows)
  }

  /**
   * What has been assembled: rows and sources by minute, both also in the order in which they came
   * (as Python dictionaries keep them), and the precision boundary.
   */
  datatype State = State(
    rows: map<int, Candle>, sources: map<int, int>, arrived: seq<Candle>, tags: seq<int>, boundary: int)

  function ExpandAll(rows: seq<Candle>, tf: int): seq<Candle>
    requires tf > 0
  {
    if rows == [] then [] else ExpandAll(rows[..|rows| - 1], tf) + Expansion(rows[|rows| - 1], tf)
  }

  /** The coarse rows whose whole bucket ends at or before the boundary. */
  function CompleteBefore(rows: seq<Candle>, tf: int, boundary: int): seq<Candle> {
    if rows == [] then []
    else
      CompleteBefore(rows[..|rows| - 1], tf, boundary)
      + (if rows[|rows| - 1].ts + tf * 60_000 <= boundary then [rows[|rows| - 1]] else [])
  }

  /** One-minute candidates of step `i`; none when it is unsupported, fails or is empty. */
  function Candidates(req: Request, i: nat, boundary: int): seq<Candle>
    requires i < |LADDER|
  {
    var tf := LADDER[i];
    if !req.supported(tf) then []
    else
      match req.fetch(tf, req.start, if i == 0 then req.end else boundary - ONE_MIN_MS)
      case Failed => []
      case Rows(rows) =>
        if i == 0 then rows else SortByTs(ExpandAll(CompleteBefore(rows, tf, boundary), tf))
  }

  predicate InRange(req: Request, ts: int) {
    req.start <= ts <= req.end
  }

  /** The earliest candidate of the requested range, or the bound handed in. */
  function Earliest(req: Request, candidates: seq<Candle>, bound: int): int {
    if candidates == [] then bound
    else
      var before, last := Earliest(req, candidates[..|candidates| - 1], bound), candidates[|candidates| - 1].ts;
      if InRange(req, last) then Min(before, last) else before
  }

  /** A row of step `i` may be used at `ts`. */
  predicate Usable(req: Request, i: nat, boundary: int, ts: int) {
    InRange(req, ts) && (i > 0 ==> ts < boundary)
  }

  /** Takes the usable candidates, in order, where no row stands yet. */
  function Take(req: Request, st: State, i: nat, candidates: seq<Candle>): State
    requires i < |LADDER|
  {
    if candidates == [] then st
    else
      var before, row := Take(req, st, i, candidates[..|candidates| - 1]), candidates[|candidates| - 1];
      if Usable(req, i, st.boundary, row.ts) && row.ts !in before.rows then
        before.(rows := before.rows[row.ts := row], sources := before.sources[row.ts := LADDER[i]],
                arrived := before.arrived + [row], tags := before.tags + [LADDER[i]])
      else before
  }

  function Step(req: Request, st: State, i: nat): State
    requires i < |LADDER|
  {
    var candidates := Candidates(req, i, st.boundary);
    var boundary := if i == 0 then Earliest(req, candidates, st.boundary) else st.boundary;
    Take(req, st.(boundary := boundary), i, candidates)
  }

  /** Every step of the ladder from `i` on, without stopping early. */
  function AllSteps(req: Request, st: State, i: nat): State
    requires i <= |LADDER|
    decreases |LADDER| - i
  {
    if i == |LADDER| then st else AllSteps(req, Step(req, st, i), i + 1)
  }

  function Initial(req: Request): State {
    State(map[], map[], [], [], req.end + ONE_MIN_MS)
  }

  // ---------- one step, minute by minute ----------

  /** The first candidate for a minute. */
  function FirstAt(candidates: seq<Candle>, ts: int): Option<Candle> {
    if candidates == [] then None
    else
      var before := FirstAt(candidates[..|candidates| - 1], ts);
      if before.Some? then before
      else if candidates[|candidates| - 1].ts == ts then Some(candidates[|candidates| - 1])
      else None
  }

  /** What step `i` offers for a minute, given the boundary it works with. */
  function Offer(req: Request, i: nat, boundary: int, ts: int): Option<Candle>
    requires i < |LADDER|
  {
    if Usable(req, i, boundary, ts) then FirstAt(Candidates(req, i, boundary), ts) else None
  }

  lemma {:induction false} TakePointwise(req: Request, st: State, i: nat, candidates: seq<Candle>, ts: int)
    requires i < |LADDER| && st.rows.Keys == st.sources.Keys
    ensures var after := Take(req, st, i, candidates);
      && after.boundary == st.boundary && after.rows.Keys == after.sources.Keys
      && (ts in st.rows ==> ts in after.rows && after.rows[ts] == st.rows[ts] && after.sources[ts] == st.sources[ts])
      && (ts !in st.rows ==>
            var offer := if Usable(req, i, st.boundary, ts) then FirstAt(candidates, ts) else None;
            && (ts in after.rows <==> offer.Some?)
            && (offer.Some? ==> after.rows[ts] == offer.value && after.sources[ts] == LADDER[i]))
  {
    if candidates != [] {
      TakePointwise(req, st, i, candidates[..|candidates| - 1], ts);
    }
  }

  lemma {:induction false} FirstAtMember(candidates: seq<Candle>, ts: int)
    ensures FirstAt(candidates, ts).Some? ==>
      FirstAt(candidates, ts).value in candidates && FirstAt(candidates, ts).value.ts == ts
    ensures FirstAt(candidates, ts).None? ==> forall c :: c in candidates ==> c.ts != ts
  {
    if candidates != [] {
      var n := |candidates| - 1;
      FirstAtMember(candidates[..n], ts);
      assert candidates == candidates[..n] + [candidates[n]];
    }
  }

  lemma {:induction false} EarliestIs(req: Request, candidates: seq<Candle>, bound: int)
    ensures Earliest(req, candidates, bound) <= bound
    ensures forall c :: c in candidates && InRange(req, c.ts) ==> Earliest(req, candidates, bound) <= c.ts
    ensures Earliest(req, candidates, bound) == bound
      || exists c :: c in candidates && InRange(req, c.ts) && c.ts == Earliest(req, candidates, bound)
  {
    if candidates != [] {
      var n := |candidates| - 1;
      EarliestIs(req, candidates[..n], bound);
      assert candidates == candidates[..n] + [candidates[n]];
    }
  }

  // ---------- stopping early ----------

  /** Every minute before the boundary has a row. */
  ghost predicate PrefixFull(req: Request, st: State) {
    forall ts {:trigger ts in st.rows} :: Aligned(ts) && req.start <= ts < st.boundary ==> ts in st.rows
  }

  lemma {:induction false} FullTakesNothing(req: Request, st: State, i: nat, candidates: seq<Candle>)
    requires 0 < i < |LADDER| && PrefixFull(req, st) && GridCandles(candidates)
    ensures Take(req, st, i, candidates) == st
  {
    if candidates != [] {
      FullTakesNothing(req, st, i, candidates[..|candidates| - 1]);
    }
  }

  /** Once the prefix is full the remaining steps change nothing. */
  lemma {:induction false} FullIsFinal(req: Request, st: State, i: nat)
    requires 0 < i <= |LADDER| && GridAnswers(req) && AlignedAnswers(req) && PrefixFull(req, st)
    ensures AllSteps(req, st, i) == st
    decreases |LADDER| - i
  {
    if i < |LADDER| {
      CandidatesAligned(req, i, st.boundary);
      FullTakesNothing(req, st, i, Candidates(req, i, st.boundary));
      FullIsFinal(req, st, i + 1);
    }
  }

  lemma {:induction false} CandidatesAligned(req: Request, i: nat, boundary: int)
    requires i < |LADDER| && GridAnswers(req) && AlignedAnswers(req)
    ensures GridCandles(Candidates(req, i, boundary))
  {
    var tf := LADDER[i];
    var answer := req.fetch(tf, req.start, if i == 0 then req.end else boundary - ONE_MIN_MS);
    if req.supported(tf) && answer.Rows? && i > 0 {
      assert GridCandles(answer.rows);
      CompleteAligned(answer.rows, tf, boundary);
      var expanded := ExpandAll(CompleteBefore(answer.rows, tf, boundary), tf);
      ExpandAligned(CompleteBefore(answer.rows, tf, boundary), tf);
      SameElements(expanded, SortByTs(expanded));
      forall k | 0 <= k < |SortByTs(expanded)| ensures Aligned(SortByTs(expanded)[k].ts) {
        assert SortByTs(expanded)[k] in expanded;
      }
    }
  }

  lemma {:induction false} CompleteAligned(rows: seq<Candle>, tf: int, boundary: int)
    requires GridCandles(rows)
    ensures GridCandles(CompleteBefore(rows, tf, boundary))
  {
    if rows != [] { CompleteAligned(rows[..|rows| - 1], tf, boundary); }
  }

  lemma {:induction false} ExpandAligned(rows: seq<Candle>, tf: int)
    requires tf > 0 && GridCandles(rows)
    ensures GridCandles(ExpandAll(rows, tf))
  {
    if rows != [] {
      var last := rows[|rows| - 1];
      ExpandAligned(rows[..|rows| - 1], tf);
      ExpansionAligned(last, tf);
    }
  }

  lemma {:induction false} ExpansionAligned(c: Candle, tf: int)
    requires tf > 0 && Aligned(c.ts)
    ensures GridCandles(Expansion(c, tf))
  {
    forall k | 0 <= k < tf ensures Aligned(Expansion(c, tf)[k].ts) {
      MinutesAreChained(c, tf, k);
    }
  }

  // ---------- the method ----------

  /** The minutes between start and boundary all have rows. */
  method PrefixIsFull(req: Request, st: State) returns (full: bool)
    requires GridAnswers(req) && Aligned(st.boundary)
    ensures full <==> PrefixFull(req, st)
  {
    var ts := req.start;
    while ts < st.boundary
      invariant Aligned(ts) && req.start <= ts
      invariant forall t {:trigger t in st.rows} :: Aligned(t) && req.start <= t < ts ==> t in st.rows
    {
      if ts !in st.rows {
        return false;
      }
      GridNeighbours(ts);
      forall t | Aligned(t) && req.start <= t < ts + ONE_MIN_MS ensures t in st.rows {
        if ts < t { GridStep(ts, t); }
      }
      ts := ts + ONE_MIN_MS;
    }
    full := true;
  }

  /** The rows of one step are taken one after the other. */
  method TakeRows(req: Request, st: State, i: nat, candidates: seq<Candle>) returns (after: State)
    requires i < |LADDER|
    ensures after == Take(req, st, i, candidates)
  {
    after := st;
    for k := 0 to |candidates|
      invariant after == Take(req, st, i, candidates[..k])
    {
      assert candidates[..k + 1][..k] == candidates[..k];
      TakeBoundary(req, st, i, candidates[..k]);
      var row := candidates[k];
      if Usable(req, i, after.boundary, row.ts) && row.ts !in after.rows {
        after := after.(rows := after.rows[row.ts := row], sources := after.sources[row.ts := LADDER[i]],
                        arrived := after.arrived + [row], tags := after.tags + [LADDER[i]]);
      }
    }
    assert candidates[..|candidates|] == candidates;
  }

  lemma {:induction false} TakeBoundary(req: Request, st: State, i: nat, candidates: seq<Candle>)
    requires i < |LADDER|
    ensures Take(req, st, i, candidates).boundary == st.boundary
  {
    if candidates != [] { TakeBoundary(req, st, i, candidates[..|candidates| - 1]); }
  }

  /** One supported step of the ladder, and whether the prefix is complete after it. */
  method ClimbOne(req: Request, st: State, i: nat) returns (after: State, full: bool)
    requires GridAnswers(req) && AlignedAnswers(req) && i < |LADDER| && Aligned(st.boundary)
    ensures after == Step(req, st, i) && Aligned(after.boundary)
    ensures full ==> PrefixFull(req, after)
    ensures !full && !PrefixFull(req, st) ==> !PrefixFull(req, after)
  {
    var candidates := Candidates(req, i, st.boundary);
    CandidatesAligned(req, i, st.boundary);
    EarliestAligned(req, candidates, st.boundary);
    if candidates == [] {
      return st, false;
    }
    var boundary := if i == 0 then Earliest(req, candidates, st.boundary) else st.boundary;
    after := TakeRows(req, st.(boundary := boundary), i, candidates);
    TakeBoundary(req, st.(boundary := boundary), i, candidates);
    full := PrefixIsFull(req, after);
  }

  /** Step `i` was asked and its fetch failed. */
  predicate StepFails(req: Request, i: nat)
    requires i < |LADDER|
  {
    req.supported(LADDER[i])
    && req.fetch(LADDER[i], req.start, if i == 0 then req.end else BoundaryOf(req, i) - ONE_MIN_MS).Failed?
  }

  /** The failures of the first `n` steps, by minutes of the step. */
  function FailuresUpTo(req: Request, n: nat): set<int>
    requires n <= |LADDER|
  {
    set i | 0 <= i < n && StepFails(req, i) :: LADDER[i]
  }

  /** The state after the first `n` steps. */
  function StateAfter(req: Request, n: nat): State
    requires n <= |LADDER|
  {
    if n == 0 then Initial(req) else Step(req, StateAfter(req, n - 1), n - 1)
  }

  /** Before step `i`: the steps left lead to `final`, and the failures are those of the steps before. */
  ghost predicate Climbing(req: Request, final: State, st: State, failures: set<int>, i: nat) {
    && i <= |LADDER| && Aligned(st.boundary)
    && st.rows.Keys == st.sources.Keys && st.boundary == BoundaryOf(req, i)
    && st == StateAfter(req, i) && AllSteps(req, st, i) == final
    && failures == FailuresUpTo(req, i)
  }

  lemma {:induction false} ClimbStarts(req: Request)
    requires GridAnswers(req)
    ensures Climbing(req, AllSteps(req, Initial(req), 0), Initial(req), {}, 0)
    ensures !PrefixFull(req, Initial(req))
  {
    GridNeighbours(req.end);
    assert req.start !in Initial(req).rows;
  }

  /** An unsupported step offers nothing. */
  lemma {:induction false} ClimbSkips(req: Request, final: State, st: State, failures: set<int>, i: nat)
    requires i < |LADDER| && Climbing(req, final, st, failures, i) && !req.supported(LADDER[i])
    ensures Climbing(req, final, st, failures, i + 1)
  {
    StepPointwise(req, st, i, 0);
    assert Step(req, st, i) == st;
    FailuresNext(req, i);
  }

  lemma {:induction false} ClimbSteps(req: Request, final: State, st: State, failures: set<int>, i: nat)
    requires i < |LADDER| && Climbing(req, final, st, failures, i) && Aligned(Step(req, st, i).boundary)
    ensures Climbing(req, final, Step(req, st, i), failures + if StepFails(req, i) then {LADDER[i]} else {}, i + 1)
  {
    StepPointwise(req, st, i, 0);
    FailuresNext(req, i);
  }

  lemma {:induction false} FailuresNext(req: Request, i: nat)
    requires i < |LADDER|
    ensures FailuresUpTo(req, i + 1) == FailuresUpTo(req, i) + if StepFails(req, i) then {LADDER[i]} else {}
  {}

  /** The end of a climb: the state of the full ladder, and a step left out only with a full prefix. */
  ghost predicate Climbed(req: Request, final: State, st: State, failures: set<int>, asked: nat) {
    && st == final
    && asked <= |LADDER| && failures == FailuresUpTo(req, asked)
    && (asked < |LADDER| ==> PrefixFull(req, st))
    && st == StateAfter(req, asked) && Needed(req, asked)
  }

  /** Before step `i` some minute is still without a row. */
  ghost predicate Unfinished(req: Request, final: State, st: State, failures: set<int>, i: nat) {
    Climbing(req, final, st, failures, i) && !PrefixFull(req, st) && (i > 0 ==> Needed(req, i))
  }

  /** Before the last of the asked steps some minute was still without a row. */
  ghost predicate Needed(req: Request, asked: nat) {
    0 < asked <= |LADDER| && !PrefixFull(req, StateAfter(req, asked - 1))
  }

  /** With a full prefix, or behind the last step, the climb may stop. */
  lemma {:induction false} ClimbStops(req: Request, final: State, st: State, failures: set<int>, i: nat)
    requires GridAnswers(req) && AlignedAnswers(req) && Climbing(req, final, st, failures, i)
    requires i == |LADDER| || (0 < i && PrefixFull(req, st))
    ensures Needed(req, i) ==> Climbed(req, final, st, failures, i)
  {
    if i < |LADDER| { FullIsFinal(req, st, i); }
  }

  /**
   * The climb with its early exits: the state of the full ladder, and the failures of the steps it
   * asked. It leaves a step out only when every minute before the boundary has a row.
   */
  method Climb(req: Request) returns (st: State, failures: set<int>, ghost asked: nat)
    requires GridAnswers(req) && AlignedAnswers(req)
    ensures st == AllSteps(req, Initial(req), 0)
    ensures asked <= |LADDER| && failures == FailuresUpTo(req, asked)
    ensures asked < |LADDER| ==> PrefixFull(req, st)
    ensures st == StateAfter(req, asked) && Needed(req, asked)
  {
    ClimbStarts(req);
    st, failures, asked := ClimbFrom(req, Initial(req), AllSteps(req, Initial(req), 0));
  }

  /** The loop over the steps, from the empty state. */
  method ClimbFrom(req: Request, initial: State, ghost final: State)
    returns (st: State, failures: set<int>, ghost asked: nat)
    requires GridAnswers(req) && AlignedAnswers(req) && Climbing(req, final, initial, {}, 0)
    requires !PrefixFull(req, initial)
    ensures Climbed(req, final, st, failures, asked)
  {
    st, failures := initial, {};
    var i := 0;
    while i < |LADDER|
      invariant 0 <= i && Unfinished(req, final, st, failures, i)
    {
      var stop;
      st, failures, stop, asked := ClimbStep(req, st, failures, i, final);
      if stop {
        return;
      }
      i := i + 1;
    }
    asked := i;
    ClimbStops(req, final, st, failures, i);
  }

  /** One step of the ladder: left out, the end of the climb, or asked. */
  method ClimbStep(req: Request, st: State, failures: set<int>, i: nat, ghost final: State)
    returns (after: State, failed: set<int>, stop: bool, ghost asked: nat)
    requires GridAnswers(req) && AlignedAnswers(req)
    requires i < |LADDER| && Climbing(req, final, st, failures, i)
    ensures Unfinished(req, final, st, failures, i) ==>
      if stop then Climbed(req, final, after, failed, asked) else Unfinished(req, final, after, failed, i + 1)
  {
    after, failed, stop, asked := st, failures, false, i;
    assert st == StateAfter(req, i) && (!PrefixFull(req, st) ==> Needed(req, i + 1));
    if !req.supported(LADDER[i]) {
      ClimbSkips(req, final, st, failures, i);
    } else if i > 0 && st.boundary - ONE_MIN_MS < req.start {
      BoundaryAtStart(req, st);
      ClimbStops(req, final, st, failures, i);
      stop := true;
    } else {
      after, failed, stop := AskStep(req, st, failures, i, final);
      asked := i + 1;
      if stop { ClimbStops(req, final, after, failed, i + 1); }
    }
  }

  /** A supported step is asked, and its failure noted. */
  method AskStep(req: Request, st: State, failures: set<int>, i: nat, ghost final: State)
    returns (after: State, failed: set<int>, full: bool)
    requires GridAnswers(req) && AlignedAnswers(req)
    requires i < |LADDER| && Climbing(req, final, st, failures, i)
    ensures Climbing(req, final, after, failed, i + 1)
    ensures full ==> PrefixFull(req, after)
    ensures !full && !PrefixFull(req, st) ==> !PrefixFull(req, after)
  {
    failed := failures + if StepFails(req, i) then {LADDER[i]} else {};
    after, full := ClimbOne(req, st, i);
    ClimbSteps(req, final, st, failures, i);
  }

  lemma {:induction false} BoundaryAtStart(req: Request, st: State)
    requires Aligned(req.start) && Aligned(st.boundary) && st.boundary - ONE_MIN_MS < req.start
    ensures PrefixFull(req, st)
  {
    if req.start < st.boundary { GridStep(req.start, st.boundary); }
  }

  lemma {:induction false} EarliestAligned(req: Request, candidates: seq<Candle>, bound: int)
    requires GridCandles(candidates) && Aligned(bound)
    ensures Aligned(Earliest(req, candidates, bound))
  {
    if candidates != [] { EarliestAligned(req, candidates[..|candidates| - 1], bound); }
  }

  // ---------- what the ladder promises ----------

  /** The precision boundary: the first exact candle of the range, or just behind the range. */
  function PrecisionBoundary(req: Request): int {
    Earliest(req, Candidates(req, 0, req.end + ONE_MIN_MS), req.end + ONE_MIN_MS)
  }

  /** The boundary step `i` works with. */
  function BoundaryOf(req: Request, i: nat): int {
    if i == 0 then req.end + ONE_MIN_MS else PrecisionBoundary(req)
  }

  /** The finest step, from `i` on, that offers a row for the minute. */
  function FinestFrom(req: Request, i: nat, ts: int): Option<(int, Candle)>
    requires i <= |LADDER|
    decreases |LADDER| - i
  {
    if i == |LADDER| then None
    else
      match Offer(req, i, BoundaryOf(req, i), ts)
      case Some(row) => Some((LADDER[i], row))
      case None => FinestFrom(req, i + 1, ts)
  }

  lemma {:induction false} StepPointwise(req: Request, st: State, i: nat, ts: int)
    requires i < |LADDER| && st.rows.Keys == st.sources.Keys && st.boundary == BoundaryOf(req, i)
    ensures var after := Step(req, st, i);
      && after.boundary == BoundaryOf(req, i + 1) && after.rows.Keys == after.sources.Keys
      && (ts in st.rows ==> ts in after.rows && after.rows[ts] == st.rows[ts] && after.sources[ts] == st.sources[ts])
      && (ts !in st.rows ==>
            var offer := Offer(req, i, BoundaryOf(req, i), ts);
            && (ts in after.rows <==> offer.Some?)
            && (offer.Some? ==> after.rows[ts] == offer.value && after.sources[ts] == LADDER[i]))
  {
    var candidates := Candidates(req, i, st.boundary);
    TakePointwise(req, st.(boundary := BoundaryOf(req, i + 1)), i, candidates, ts);
  }

  lemma {:induction false} AllStepsPointwise(req: Request, st: State, i: nat, ts: int)
    requires i <= |LADDER| && st.rows.Keys == st.sources.Keys && st.boundary == BoundaryOf(req, i)
    ensures var final := AllSteps(req, st, i);
      && final.rows.Keys == final.sources.Keys
      && (ts in st.rows ==> ts in final.rows && final.rows[ts] == st.rows[ts] && final.sources[ts] == st.sources[ts])
      && (ts !in st.rows ==>
            match FinestFrom(req, i, ts)
            case None => ts !in final.rows
            case Some(f) => ts in final.rows && final.sources[ts] == f.0 && final.rows[ts] == f.1)
    decreases |LADDER| - i
  {
    if i < |LADDER| {
      StepPointwise(req, st, i, ts);
      AllStepsPointwise(req, Step(req, st, i), i + 1, ts);
    }
  }

  /** Every minute gets the finest source that offers it, and nothing else. */
  lemma {:induction false} FinestSourceWins(req: Request, ts: int)
    ensures var final := AllSteps(req, Initial(req), 0);
      && final.rows.Keys == final.sources.Keys
      && match FinestFrom(req, 0, ts)
         case None => ts !in final.rows
         case Some(f) => ts in final.rows && final.sources[ts] == f.0 && final.rows[ts] == f.1
  {
    AllStepsPointwise(req, Initial(req), 0, ts);
  }

  /**
   * Coarse rows never patch the exact part: a minute filled from a coarser step lies before the first
   * exact candle, inside a fetched bucket that ends at or before it.
   */
  lemma {:induction false} CoarseOnlyBeforeBoundary(req: Request, ts: int) returns (i: nat, bucket: Candle)
    requires FinestFrom(req, 0, ts).Some? && FinestFrom(req, 0, ts).value.0 != 1
    ensures 0 < i < |LADDER| && LADDER[i] == FinestFrom(req, 0, ts).value.0
    ensures FromBucket(req, i, bucket, ts)
    ensures forall c :: c in Candidates(req, 0, req.end + ONE_MIN_MS) && InRange(req, c.ts) ==> ts < c.ts
  {
    i := CoarseStep(req, 0, ts);
    bucket := CoarseBucket(req, i, ts);
    EarliestIs(req, Candidates(req, 0, req.end + ONE_MIN_MS), req.end + ONE_MIN_MS);
  }

  lemma {:induction false} CoarseBucket(req: Request, i: nat, ts: int) returns (bucket: Candle)
    requires 0 < i < |LADDER| && Offer(req, i, PrecisionBoundary(req), ts).Some?
    ensures FromBucket(req, i, bucket, ts)
  {
    bucket := OfferedBucket(req, i, PrecisionBoundary(req), ts);
  }

  lemma {:induction false} OfferedBucket(req: Request, i: nat, boundary: int, ts: int) returns (bucket: Candle)
    requires 0 < i < |LADDER| && Offer(req, i, boundary, ts).Some?
    ensures req.fetch(LADDER[i], req.start, boundary - ONE_MIN_MS).Rows?
    ensures bucket in req.fetch(LADDER[i], req.start, boundary - ONE_MIN_MS).rows
    ensures bucket.ts <= ts < bucket.ts + LADDER[i] * 60_000 <= boundary
    ensures Offer(req, i, boundary, ts).value in Expansion(bucket, LADDER[i])
  {
    var candidates := Candidates(req, i, boundary);
    FirstAtMember(candidates, ts);
    bucket := CandidateBucket(req, i, boundary, FirstAt(candidates, ts).value);
  }

  lemma {:induction false} CandidateBucket(req: Request, i: nat, boundary: int, row: Candle) returns (bucket: Candle)
    requires 0 < i < |LADDER| && row in Candidates(req, i, boundary)
    ensures req.fetch(LADDER[i], req.start, boundary - ONE_MIN_MS).Rows?
    ensures bucket in req.fetch(LADDER[i], req.start, boundary - ONE_MIN_MS).rows
    ensures bucket.ts <= row.ts < bucket.ts + LADDER[i] * 60_000 <= boundary && row in Expansion(bucket, LADDER[i])
  {
    var tf := LADDER[i];
    var rows := req.fetch(tf, req.start, boundary - ONE_MIN_MS).rows;
    var complete := CompleteBefore(rows, tf, boundary);
    var expanded := ExpandAll(complete, tf);
    SameElements(expanded, SortByTs(expanded));
    bucket := ExpandedFrom(complete, tf, row);
    CompleteMember(rows, tf, boundary, bucket);
  }

  /** A fetched coarse candle that contains the minute and ends at or before the boundary. */
  ghost predicate FromBucket(req: Request, i: nat, bucket: Candle, ts: int)
    requires i < |LADDER|
  {
    && req.fetch(LADDER[i], req.start, PrecisionBoundary(req) - ONE_MIN_MS).Rows?
    && bucket in req.fetch(LADDER[i], req.start, PrecisionBoundary(req) - ONE_MIN_MS).rows
    && bucket.ts <= ts < bucket.ts + LADDER[i] * 60_000 <= PrecisionBoundary(req)
  }

  lemma {:induction false} CoarseStep(req: Request, from: nat, ts: int) returns (i: nat)
    requires from <= |LADDER| && FinestFrom(req, from, ts).Some? && FinestFrom(req, from, ts).value.0 != 1
    ensures 0 < i < |LADDER| && LADDER[i] == FinestFrom(req, from, ts).value.0
    ensures Offer(req, i, PrecisionBoundary(req), ts) == Some(FinestFrom(req, from, ts).value.1)
    decreases |LADDER| - from
  {
    if Offer(req, from, BoundaryOf(req, from), ts).Some? {
      i := from;
    } else {
      i := CoarseStep(req, from + 1, ts);
    }
  }

  lemma {:induction false} ExpandedFrom(rows: seq<Candle>, tf: int, row: Candle) returns (bucket: Candle)
    requires tf > 0 && row in ExpandAll(rows, tf)
    ensures bucket in rows && bucket.ts <= row.ts < bucket.ts + tf * 60_000 && row in Expansion(bucket, tf)
  {
    var n := |rows| - 1;
    if row in Expansion(rows[n], tf) {
      bucket := rows[n];
      var k :| 0 <= k < tf && Expansion(bucket, tf)[k] == row;
      MinutesAreChained(bucket, tf, k);
    } else {
      bucket := ExpandedFrom(rows[..n], tf, row);
    }
  }

  lemma {:induction false} CompleteMember(rows: seq<Candle>, tf: int, boundary: int, bucket: Candle)
    requires bucket in CompleteBefore(rows, tf, boundary)
    ensures bucket in rows && bucket.ts + tf * 60_000 <= boundary
  {
    var n := |rows| - 1;
    if bucket in CompleteBefore(rows[..n], tf, boundary) {
      CompleteMember(rows[..n], tf, boundary, bucket);
    } else {
      assert bucket == rows[n];
    }
  }

  // ---------- completeness, from the fetched answers alone ----------

  /** The first exact candle of the range stands at `b`; without one, `b` is just behind the range. */
  ghost predicate FirstExact(req: Request, b: int) {
    && (forall c :: ExactRow(req, c) ==> b <= c.ts)
    && if exists c :: ExactRow(req, c) then exists c :: ExactRow(req, c) && c.ts == b else b == req.end + ONE_MIN_MS
  }

  /** A row of the one-minute answer inside the range. */
  predicate ExactRow(req: Request, c: Candle) {
    req.supported(1) && c in Answer(req, 1, req.end) && req.start <= c.ts <= req.end
  }

  /** What the exchange returned for a step asked up to `end`; nothing when it failed. */
  function Answer(req: Request, tf: int, end: int): seq<Candle> {
    match req.fetch(tf, req.start, end)
    case Rows(rows) => rows
    case Failed => []
  }

  /** The minute lies in this fetched candle; a coarse one counts only when it ends by the first exact candle. */
  predicate Holds(req: Request, b: int, tf: int, c: Candle, ts: int) {
    && req.supported(tf) && c.ts <= ts < c.ts + tf * 60_000
    && if tf == 1 then c in Answer(req, 1, req.end)
       else c in Answer(req, tf, b - ONE_MIN_MS) && c.ts + tf * 60_000 <= b
  }

  ghost predicate Supplied(req: Request, b: int, tf: int, ts: int) {
    exists c :: Holds(req, b, tf, c, ts)
  }

  lemma {:induction false} BoundaryIsFirstExact(req: Request, b: int)
    requires FirstExact(req, b)
    ensures PrecisionBoundary(req) == b
  {
    var candidates := Candidates(req, 0, req.end + ONE_MIN_MS);
    assert forall c :: ExactRow(req, c) <==> c in candidates && InRange(req, c.ts);
    EarliestIs(req, candidates, req.end + ONE_MIN_MS);
  }

  /** Expanding keeps every candle: its minutes are all there. */
  lemma {:induction false} ExpandedHas(rows: seq<Candle>, tf: int, c: Candle, k: nat)
    requires 0 < tf && k < tf && c in rows
    ensures Expansion(c, tf)[k] in ExpandAll(rows, tf)
  {
    var n := |rows| - 1;
    assert rows == rows[..n] + [rows[n]];
    if c in rows[..n] { ExpandedHas(rows[..n], tf, c, k); }
  }

  lemma {:induction false} CompleteHas(rows: seq<Candle>, tf: int, boundary: int, c: Candle)
    requires c in rows && c.ts + tf * 60_000 <= boundary
    ensures c in CompleteBefore(rows, tf, boundary)
  {
    var n := |rows| - 1;
    assert rows == rows[..n] + [rows[n]];
    if c in rows[..n] { CompleteHas(rows[..n], tf, boundary, c); }
  }

  /** A coarse step offers a row for every minute of its whole buckets. */
  lemma {:induction false} BucketOffered(req: Request, i: nat, b: int, c: Candle, ts: int) returns (row: Candle)
    requires 0 < i < |LADDER| && Aligned(c.ts) && Aligned(ts) && Holds(req, b, LADDER[i], c, ts)
    ensures row in Candidates(req, i, b) && row.ts == ts
  {
    var rows := Answer(req, LADDER[i], b - ONE_MIN_MS);
    row := BucketExpanded(rows, LADDER[i], b, c, ts);
    var expanded := ExpandAll(CompleteBefore(rows, LADDER[i], b), LADDER[i]);
    SameElements(expanded, SortByTs(expanded));
  }

  lemma {:induction false} BucketExpanded(rows: seq<Candle>, tf: int, b: int, c: Candle, ts: int) returns (row: Candle)
    requires tf > 0 && c in rows && Aligned(c.ts) && Aligned(ts)
    requires c.ts <= ts < c.ts + tf * 60_000 <= b
    ensures row in ExpandAll(CompleteBefore(rows, tf, b), tf) && row.ts == ts
  {
    var k := (ts - c.ts) / 60_000;
    MinuteOffset(c.ts, ts, tf);
    CompleteHas(rows, tf, b, c);
    ExpandedHas(CompleteBefore(rows, tf, b), tf, c, k);
    MinutesAreChained(c, tf, k);
    row := Expansion(c, tf)[k];
  }

  lemma {:induction false} MinuteOffset(from: int, ts: int, tf: int)
    requires Aligned(from) && Aligned(ts) && from <= ts < from + tf * 60_000
    ensures 0 <= (ts - from) / 60_000 < tf && from + (ts - from) / 60_000 * 60_000 == ts
  {}

  /** A step offers a row exactly for the usable minutes of its fetched candles. */
  lemma {:induction false} OfferIff(req: Request, i: nat, b: int, ts: int)
    requires i < |LADDER| && GridAnswers(req) && AlignedAnswers(req) && FirstExact(req, b)
    requires Aligned(ts) && req.start <= ts <= req.end
    ensures Offer(req, i, BoundaryOf(req, i), ts).Some? <==> Supplied(req, b, LADDER[i], ts)
  {
    BoundaryIsFirstExact(req, b);
    if i == 0 { ExactOfferIff(req, b, ts); } else { CoarseOfferIff(req, i, b, ts); }
  }

  lemma {:induction false} ExactOfferIff(req: Request, b: int, ts: int)
    requires GridAnswers(req) && AlignedAnswers(req) && Aligned(ts) && req.start <= ts <= req.end
    ensures Offer(req, 0, req.end + ONE_MIN_MS, ts).Some? <==> Supplied(req, b, 1, ts)
  {
    var candidates := Candidates(req, 0, req.end + ONE_MIN_MS);
    FirstAtMember(candidates, ts);
    CandidatesAligned(req, 0, req.end + ONE_MIN_MS);
    if FirstAt(candidates, ts).Some? { assert Holds(req, b, 1, FirstAt(candidates, ts).value, ts); }
    if Supplied(req, b, 1, ts) {
      var c :| Holds(req, b, 1, c, ts);
      assert c in candidates;
      var k :| 0 <= k < |candidates| && candidates[k] == c;
      if c.ts < ts { GridStep(c.ts, ts); }
    }
  }

  lemma {:induction false} CoarseOfferIff(req: Request, i: nat, b: int, ts: int)
    requires 0 < i < |LADDER| && GridAnswers(req) && AlignedAnswers(req)
    requires Aligned(ts) && req.start <= ts <= req.end
    ensures Offer(req, i, b, ts).Some? <==> Supplied(req, b, LADDER[i], ts)
  {
    if Offer(req, i, b, ts).Some? {
      var c := OfferedBucket(req, i, b, ts);
      assert Holds(req, b, LADDER[i], c, ts);
    }
    if Supplied(req, b, LADDER[i], ts) { BucketIsOffer(req, i, b, ts); }
  }

  lemma {:induction false} BucketIsOffer(req: Request, i: nat, b: int, ts: int)
    requires 0 < i < |LADDER| && AlignedAnswers(req) && Aligned(ts) && req.start <= ts <= req.end
    requires Supplied(req, b, LADDER[i], ts)
    ensures Offer(req, i, b, ts).Some?
  {
    var c :| Holds(req, b, LADDER[i], c, ts);
    AnswerAligned(req, LADDER[i], b - ONE_MIN_MS, c);
    var row := BucketOffered(req, i, b, c, ts);
    FirstAtMember(Candidates(req, i, b), ts);
  }

  lemma {:induction false} AnswerAligned(req: Request, tf: int, end: int, c: Candle)
    requires AlignedAnswers(req) && c in Answer(req, tf, end)
    ensures Aligned(c.ts)
  {
    var rows := Answer(req, tf, end);
    assert GridCandles(rows);
    var k :| 0 <= k < |rows| && rows[k] == c;
  }

  /**
   * Nothing fetched is lost: a minute of the range has a row exactly when a fetched candle holds it, an exact one or
   * a whole bucket that ends by the first exact candle, and its source is the finest step with such a candle.
   */
  lemma {:induction false} FetchedIsUsed(req: Request, b: int, ts: int)
    requires GridAnswers(req) && AlignedAnswers(req) && FirstExact(req, b)
    requires Aligned(ts) && req.start <= ts <= req.end
    ensures match FinestFrom(req, 0, ts)
      case None => forall tf :: tf in {1, 5, 15, 60} ==> !Supplied(req, b, tf, ts)
      case Some(f) =>
        f.0 in {1, 5, 15, 60} && Supplied(req, b, f.0, ts)
        && forall tf :: tf in {1, 5, 15, 60} && tf < f.0 ==> !Supplied(req, b, tf, ts)
  {
    assert LADDER[0] == 1 && LADDER[1] == 5 && LADDER[2] == 15 && LADDER[3] == 60;
    FinestIs(req, b, 0, ts);
  }

  ghost predicate FirstSupplier(req: Request, b: int, from: int, i: int, ts: int)
    requires 0 <= from && 0 <= i < |LADDER|
  {
    && from <= i && Supplied(req, b, LADDER[i], ts)
    && forall j :: from <= j < i ==> !Supplied(req, b, LADDER[j], ts)
  }

  /** The row itself is the exact candle, or the expansion's row of such a bucket. */
  lemma {:induction false} RowIsFetched(req: Request, b: int, ts: int) returns (c: Candle)
    requires GridAnswers(req) && AlignedAnswers(req) && FirstExact(req, b) && FinestFrom(req, 0, ts).Some?
    ensures Holds(req, b, FinestFrom(req, 0, ts).value.0, c, ts) && FinestFrom(req, 0, ts).value.1.ts == ts
    ensures var (tf, row) := FinestFrom(req, 0, ts).value;
      if tf == 1 then row == c else tf in {5, 15, 60} && row in Expansion(c, tf)
  {
    BoundaryIsFirstExact(req, b);
    var f := FinestFrom(req, 0, ts).value;
    if f.0 == 1 {
      c := ExactRowFetched(req, b, ts);
    } else {
      var i := CoarseStep(req, 0, ts);
      c := OfferedBucket(req, i, b, ts);
      FirstAtMember(Candidates(req, i, b), ts);
    }
  }

  lemma {:induction false} ExactRowFetched(req: Request, b: int, ts: int) returns (c: Candle)
    requires FinestFrom(req, 0, ts).Some? && FinestFrom(req, 0, ts).value.0 == 1
    ensures Holds(req, b, 1, c, ts) && c.ts == ts && FinestFrom(req, 0, ts).value.1 == c
  {
    var candidates := Candidates(req, 0, req.end + ONE_MIN_MS);
    if Offer(req, 0, req.end + ONE_MIN_MS, ts).None? { LaterIsCoarse(req, 1, ts); }
    FirstAtMember(candidates, ts);
    c := FirstAt(candidates, ts).value;
  }

  lemma {:induction false} LaterIsCoarse(req: Request, from: nat, ts: int)
    requires 0 < from <= |LADDER| && FinestFrom(req, from, ts).Some?
    ensures FinestFrom(req, from, ts).value.0 != 1
    decreases |LADDER| - from
  {
    if Offer(req, from, BoundaryOf(req, from), ts).None? { LaterIsCoarse(req, from + 1, ts); }
  }

  lemma {:induction false} FinestIs(req: Request, b: int, from: nat, ts: int)
    requires from <= |LADDER| && GridAnswers(req) && AlignedAnswers(req) && FirstExact(req, b)
    requires Aligned(ts) && req.start <= ts <= req.end
    ensures match FinestFrom(req, from, ts)
      case None => forall i :: from <= i < |LADDER| ==> !Supplied(req, b, LADDER[i], ts)
      case Some(f) =>
        exists i :: 0 <= i < |LADDER| && f.0 == LADDER[i] && FirstSupplier(req, b, from, i, ts)
    decreases |LADDER| - from
  {
    if from < |LADDER| {
      OfferIff(req, from, b, ts);
      FinestIs(req, b, from + 1, ts);
      if Supplied(req, b, LADDER[from], ts) {
        assert FirstSupplier(req, b, from, from, ts);
      } else if FinestFrom(req, from + 1, ts).Some? {
        var i :| 0 <= i < |LADDER| && FinestFrom(req, from + 1, ts).value.0 == LADDER[i]
          && FirstSupplier(req, b, from + 1, i, ts);
        assert FirstSupplier(req, b, from, i, ts);
      }
    }
  }

  /** The failures reported: the supported ones of the first `n` steps whose fetch failed. */
  lemma {:induction false} FailuresAre(req: Request, b: int, n: nat, tf: int)
    requires n <= |LADDER| && FirstExact(req, b)
    ensures tf in FailuresUpTo(req, n) <==>
      && (exists i :: 0 <= i < n && [1, 5, 15, 60][i] == tf) && req.supported(tf)
      && req.fetch(tf, req.start, if tf == 1 then req.end else b - ONE_MIN_MS).Failed?
  {
    BoundaryIsFirstExact(req, b);
    assert LADDER == [1, 5, 15, 60];
    if tf in FailuresUpTo(req, n) { var i :| 0 <= i < n && StepFails(req, i) && LADDER[i] == tf; }
    if exists i :: 0 <= i < n && [1, 5, 15, 60][i] == tf {
      var i :| 0 <= i < n && [1, 5, 15, 60][i] == tf;
      assert tf == 1 <==> i == 0;
      assert LADDER[i] == tf;
    }
  }

  /** One of the first `n` steps supplies the minute. */
  ghost predicate SuppliedBy(req: Request, b: int, n: nat, ts: int)
    requires n <= |LADDER|
  {
    exists i :: 0 <= i < n && Supplied(req, b, LADDER[i], ts)
  }

  lemma {:induction false} RowsAfter(req: Request, b: int, n: nat, ts: int)
    requires n <= |LADDER| && GridAnswers(req) && AlignedAnswers(req) && FirstExact(req, b)
    requires Aligned(ts) && req.start <= ts <= req.end
    ensures var st := StateAfter(req, n);
      && st.boundary == BoundaryOf(req, n) && st.rows.Keys == st.sources.Keys
      && (ts in st.rows <==> SuppliedBy(req, b, n, ts))
  {
    if n > 0 {
      RowsAfter(req, b, n - 1, ts);
      RowsStep(req, b, StateAfter(req, n - 1), n - 1, ts);
    }
  }

  lemma {:induction false} RowsStep(req: Request, b: int, st: State, i: nat, ts: int)
    requires i < |LADDER| && GridAnswers(req) && AlignedAnswers(req) && FirstExact(req, b)
    requires Aligned(ts) && req.start <= ts <= req.end
    requires st.boundary == BoundaryOf(req, i) && st.rows.Keys == st.sources.Keys
    requires ts in st.rows <==> SuppliedBy(req, b, i, ts)
    ensures var after := Step(req, st, i);
      && after.boundary == BoundaryOf(req, i + 1) && after.rows.Keys == after.sources.Keys
      && (ts in after.rows <==> SuppliedBy(req, b, i + 1, ts))
  {
    StepPointwise(req, st, i, ts);
    OfferIff(req, i, b, ts);
    OneMoreSupplier(req, b, i, ts);
  }

  lemma {:induction false} OneMoreSupplier(req: Request, b: int, i: nat, ts: int)
    requires i < |LADDER|
    ensures SuppliedBy(req, b, i + 1, ts) <==> SuppliedBy(req, b, i, ts) || Supplied(req, b, LADDER[i], ts)
  {}

  /**
   * The climb asks the next step exactly as long as some minute before the first exact candle lies in no fetched
   * candle of the steps before.
   */
  ghost predicate StopsInTime(req: Request, asked: nat) {
    && 0 < asked <= |LADDER|
    && forall b :: FirstExact(req, b) ==>
         && (asked > 1 ==> exists ts :: Aligned(ts) && req.start <= ts < b && !SuppliedBy(req, b, asked - 1, ts))
         && (asked < |LADDER| ==>
               forall ts :: Aligned(ts) && req.start <= ts < b ==> SuppliedBy(req, b, asked, ts))
  }

  lemma {:induction false} ClimbStopsInTime(req: Request, asked: nat)
    requires GridAnswers(req) && AlignedAnswers(req) && Needed(req, asked)
    requires asked < |LADDER| ==> PrefixFull(req, StateAfter(req, asked))
    ensures StopsInTime(req, asked)
  {
    forall b | FirstExact(req, b)
      ensures asked > 1 ==> exists ts :: Aligned(ts) && req.start <= ts < b && !SuppliedBy(req, b, asked - 1, ts)
      ensures asked < |LADDER| ==> forall ts :: Aligned(ts) && req.start <= ts < b ==> SuppliedBy(req, b, asked, ts)
    {
      if asked > 1 { PrefixAfter(req, b, asked - 1); }
      PrefixAfter(req, b, asked);
    }
  }

  /** After at least one step the prefix is full when every minute before the first exact candle is supplied. */
  lemma {:induction false} PrefixAfter(req: Request, b: int, n: nat)
    requires 0 < n <= |LADDER| && GridAnswers(req) && AlignedAnswers(req) && FirstExact(req, b)
    ensures PrefixFull(req, StateAfter(req, n)) <==>
      forall ts :: Aligned(ts) && req.start <= ts < b ==> SuppliedBy(req, b, n, ts)
  {
    BoundaryIsFirstExact(req, b);
    BoundaryInRange(req, b);
    var st := StateAfter(req, n);
    RowsAfter(req, b, n, req.start);
    forall ts | Aligned(ts) && req.start <= ts < b ensures ts in st.rows <==> SuppliedBy(req, b, n, ts) {
      RowsAfter(req, b, n, ts);
    }
  }

  lemma {:induction false} BoundaryInRange(req: Request, b: int)
    requires FirstExact(req, b) && GridAnswers(req)
    ensures b <= req.end + ONE_MIN_MS
    ensures forall ts :: Aligned(ts) && ts < b ==> ts <= req.end
  {
    forall ts | Aligned(ts) && ts < b ensures ts <= req.end {
      if req.end < ts { GridStep(req.end, ts); }
    }
  }

  // ---------- the result ----------

  /** How many minutes came from one step of the ladder. */
  function CountOf(sources: map<int, int>, tf: int): nat {
    |set ts | ts in sources && sources[ts] == tf|
  }

  /** The rows and tags in arrival order say what the maps say. */
  ghost predicate OrderFits(st: State) {
    && UniqueTs(st.arrived) && ToMap(st.arrived) == st.rows
    && st.rows.Keys == st.sources.Keys && |st.tags| == |st.arrived|
    && (forall k :: 0 <= k < |st.tags| ==> st.arrived[k].ts in st.sources && st.tags[k] == st.sources[st.arrived[k].ts])
    && (forall k :: 0 <= k < |st.tags| ==> st.tags[k] in LADDER)
  }

  lemma {:induction false} TakeOrder(req: Request, st: State, i: nat, candidates: seq<Candle>)
    requires i < |LADDER| && OrderFits(st)
    ensures OrderFits(Take(req, st, i, candidates))
  {
    if candidates != [] {
      var before, row := Take(req, st, i, candidates[..|candidates| - 1]), candidates[|candidates| - 1];
      TakeOrder(req, st, i, candidates[..|candidates| - 1]);
      if Usable(req, i, st.boundary, row.ts) && row.ts !in before.rows {
        ArrivalFits(before, row, LADDER[i]);
      }
    }
  }

  lemma {:induction false} ArrivalFits(st: State, row: Candle, source: int)
    requires OrderFits(st) && row.ts !in st.rows && source in LADDER
    ensures OrderFits(st.(rows := st.rows[row.ts := row], sources := st.sources[row.ts := source],
                          arrived := st.arrived + [row], tags := st.tags + [source]))
  {
    assert (st.arrived + [row])[..|st.arrived|] == st.arrived;
    forall k | 0 <= k < |st.arrived| ensures st.arrived[k].ts != row.ts {
      ToMapKeys(st.arrived, st.arrived[k].ts);
    }
  }

  lemma {:induction false} StepsOrder(req: Request, st: State, i: nat)
    requires i <= |LADDER| && OrderFits(st)
    ensures OrderFits(AllSteps(req, st, i))
    decreases |LADDER| - i
  {
    if i < |LADDER| {
      var candidates := Candidates(req, i, st.boundary);
      var boundary := if i == 0 then Earliest(req, candidates, st.boundary) else st.boundary;
      TakeOrder(req, st.(boundary := boundary), i, candidates);
      StepsOrder(req, Step(req, st, i), i + 1);
    }
  }

  lemma {:induction false} LadderConsistent(req: Request)
    ensures OrderFits(AllSteps(req, Initial(req), 0))
  {
    StepsOrder(req, Initial(req), 0);
  }

  /** How many of the first `n` rows came from one step. */
  function CountFirst(tags: seq<int>, n: nat, tf: int): nat
    requires n <= |tags|
  {
    if n == 0 then 0 else CountFirst(tags, n - 1, tf) + if tags[n - 1] == tf then 1 else 0
  }

  function Counted(counts: map<int, int>, tf: int): int {
    if tf in counts then counts[tf] else 0
  }

  /** The result: rows in time order and a count for every source that was used. */
  method Assemble(st: State) returns (candles: seq<Candle>, counts: map<int, int>)
    requires OrderFits(st)
    ensures StrictTs(candles) && ToMap(candles) == st.rows
    ensures forall tf :: Counted(counts, tf) == CountOf(st.sources, tf)
    ensures Counted(counts, 1) + Counted(counts, 5) + Counted(counts, 15) + Counted(counts, 60) == |candles|
  {
    candles := SortByTs(st.arrived);
    SortedByFields(st.arrived);
    counts := CountSources(st.tags);
    forall tf ensures Counted(counts, tf) == CountOf(st.sources, tf) { CountFirstAll(st, tf); }
    CountsAddUp(st.tags, |st.tags|);
  }

  method CountSources(tags: seq<int>) returns (counts: map<int, int>)
    ensures forall tf :: Counted(counts, tf) == CountFirst(tags, |tags|, tf)
  {
    counts := map[];
    for n := 0 to |tags|
      invariant forall tf :: Counted(counts, tf) == CountFirst(tags, n, tf)
    {
      ghost var was := counts;
      counts := counts[tags[n] := Counted(counts, tags[n]) + 1];
      assert forall tf :: Counted(counts, tf) == Counted(was, tf) + if tf == tags[n] then 1 else 0;
    }
  }

  ghost function Sourced(st: State, n: nat, tf: int): set<int>
    requires n <= |st.arrived|
  {
    set ts | ts in ToMap(st.arrived[..n]) && ts in st.sources && st.sources[ts] == tf
  }

  lemma {:induction false} CountFirstAll(st: State, tf: int)
    requires OrderFits(st)
    ensures CountFirst(st.tags, |st.tags|, tf) == CountOf(st.sources, tf)
  {
    CountFirstSet(st, |st.tags|, tf);
    assert st.arrived[..|st.tags|] == st.arrived;
    assert Sourced(st, |st.tags|, tf) == set ts | ts in st.sources && st.sources[ts] == tf;
  }

  lemma {:induction false} CountFirstSet(st: State, n: nat, tf: int)
    requires OrderFits(st) && n <= |st.tags|
    ensures CountFirst(st.tags, n, tf) == |Sourced(st, n, tf)|
  {
    if n > 0 {
      CountFirstSet(st, n - 1, tf);
      var row := st.arrived[n - 1];
      assert st.arrived[..n][..n - 1] == st.arrived[..n - 1];
      assert row.ts !in ToMap(st.arrived[..n - 1]) by { ToMapKeys(st.arrived[..n - 1], row.ts); }
      if st.tags[n - 1] == tf {
        assert Sourced(st, n, tf) == Sourced(st, n - 1, tf) + {row.ts};
      } else {
        assert Sourced(st, n, tf) == Sourced(st, n - 1, tf);
      }
    } else {
      assert Sourced(st, n, tf) == {};
    }
  }

  /** Every row is counted for exactly one step of the ladder. */
  lemma {:induction false} CountsAddUp(tags: seq<int>, n: nat)
    requires n <= |tags| && forall k :: 0 <= k < |tags| ==> tags[k] in LADDER
    ensures CountFirst(tags, n, 1) + CountFirst(tags, n, 5) + CountFirst(tags, n, 15) + CountFirst(tags, n, 60) == n
  {
    if n > 0 { CountsAddUp(tags, n - 1); }
  }

  /** The minutes that have their row from one step of the ladder. */
  ghost function MinutesFrom(req: Request, candles: seq<Candle>, tf: int): set<int> {
    set ts | ts in ToMap(candles) && FinestFrom(req, 0, ts).Some? && FinestFrom(req, 0, ts).value.0 == tf
  }

  /** The finest offered row at every minute, and a count for each source of the minutes it supplied. */
  ghost predicate Assembled(req: Request, candles: seq<Candle>, counts: map<int, int>) {
    && StrictTs(candles)
    && (forall ts ::
          match FinestFrom(req, 0, ts)
          case None => ts !in ToMap(candles)
          case Some(f) => ts in ToMap(candles) && ToMap(candles)[ts] == f.1)
    && (forall tf :: Counted(counts, tf) == |MinutesFrom(req, candles, tf)|)
    && Counted(counts, 1) + Counted(counts, 5) + Counted(counts, 15) + Counted(counts, 60) == |candles|
  }

  lemma {:induction false} FinalIsAssembled(req: Request, st: State, candles: seq<Candle>, counts: map<int, int>)
    requires st == AllSteps(req, Initial(req), 0) && StrictTs(candles) && ToMap(candles) == st.rows
    requires forall tf :: Counted(counts, tf) == CountOf(st.sources, tf)
    requires Counted(counts, 1) + Counted(counts, 5) + Counted(counts, 15) + Counted(counts, 60) == |candles|
    ensures Assembled(req, candles, counts)
  {
    forall ts
      ensures st.rows.Keys == st.sources.Keys
      ensures match FinestFrom(req, 0, ts)
        case None => ts !in st.rows
        case Some(f) => ts in st.rows && st.rows[ts] == f.1 && st.sources[ts] == f.0
    {
      FinestSourceWins(req, ts);
    }
    forall tf ensures CountOf(st.sources, tf) == |MinutesFrom(req, candles, tf)| {
      assert MinutesFrom(req, candles, tf) == set ts | ts in st.sources && st.sources[ts] == tf;
    }
  }

  /** `fetch_candles_with_resolution_ladder` on any two times: empty when they floor to a reversed range. */
  method FetchCandles(startTs: int, endTs: int, supported: int -> bool, fetch: (int, int, int) -> Fetched)
    returns (candles: seq<Candle>, counts: map<int, int>, failures: set<int>, ghost asked: nat)
    requires AlignedAnswers(Request(FloorMinute(startTs), FloorMinute(endTs), supported, fetch))
    ensures FloorMinute(endTs) < FloorMinute(startTs) ==> candles == [] && counts == map[] && failures == {}
    ensures FloorMinute(startTs) <= FloorMinute(endTs) ==>
      var req := Request(FloorMinute(startTs), FloorMinute(endTs), supported, fetch);
      && Assembled(req, candles, counts)
      && asked <= |LADDER| && failures == FailuresUpTo(req, asked)
      && StopsInTime(req, asked)
      && (asked < |LADDER| ==>
            forall ts :: Aligned(ts) && req.start <= ts < PrecisionBoundary(req) ==> FinestFrom(req, 0, ts).Some?)
  {
    var req := Request(FloorMinute(startTs), FloorMinute(endTs), supported, fetch);
    if req.end < req.start {
      return [], map[], {}, 0;
    }
    var st;
    st, failures, asked := Climb(req);
    LadderConsistent(req);
    candles, counts := Assemble(st);
    FinalIsAssembled(req, st, candles, counts);
    ClimbStopsInTime(req, asked);
    FinalBoundary(req, Initial(req), 0);
  }

  lemma {:induction false} FinalBoundary(req: Request, st: State, i: nat)
    requires i <= |LADDER| && st.rows.Keys == st.sources.Keys && st.boundary == BoundaryOf(req, i)
    ensures AllSteps(req, st, i).boundary == BoundaryOf(req, |LADDER|)
    decreases |LADDER| - i
  {
    if i < |LADDER| {
      StepPointwise(req, st, i, 0);
      FinalBoundary(req, Step(req, st, i), i + 1);
    }
  }
}
