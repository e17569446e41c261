/** Runs of consecutive set flags, found both ways the dataset materializer does it. */
module ValidRuns {
  import opened Minutes

  datatype Run = Run(start: int, end: int)

  /** First and last index, and how many. */
  datatype Span = Span(first: int, last: int, count: int)

  function Count(flags: seq<bool>): nat {
    if flags == [] then 0 else Count(flags[..|flags| - 1]) + if flags[|flags| - 1] then 1 else 0
  }

  /** `np.flatnonzero`. */
  function FlatNonzero(flags: seq<bool>): (r: seq<int>)
    ensures |r| == Count(flags)
    ensures forall k :: 0 <= k < |r| ==> 0 <= r[k] < |flags| && flags[r[k]]
  {
    if flags == [] then []
    else
      var n := |flags| - 1;
      var before := FlatNonzero(flags[..n]);
      if flags[n] then before + [n] else before
  }

  lemma {:induction false} FlatStep(flags: seq<bool>, i: nat)
    requires i < |flags|
    ensures FlatNonzero(flags[..i + 1]) == FlatNonzero(flags[..i]) + if flags[i] then [i] else []
  {
    assert flags[..i + 1][..i] == flags[..i];
  }

  /** Every set flag is listed. */
  lemma {:induction false} IndexOf(flags: seq<bool>, i: int) returns (k: nat)
    requires 0 <= i < |flags| && flags[i]
    ensures k < |FlatNonzero(flags)| && FlatNonzero(flags)[k] == i
  {
    var n := |flags| - 1;
    if i == n { k := |FlatNonzero(flags)| - 1; } else { k := IndexOf(flags[..n], i); }
  }

  /** The indices ascend. */
  lemma {:induction false} InOrder(flags: seq<bool>, x: int, y: int)
    requires 0 <= x <= y < |FlatNonzero(flags)|
    ensures FlatNonzero(flags)[x] <= FlatNonzero(flags)[y] && (x < y ==> FlatNonzero(flags)[x] < FlatNonzero(flags)[y])
  {
    var n := |flags| - 1;
    if y < |FlatNonzero(flags[..n])| { InOrder(flags[..n], x, y); }
  }

  predicate Within(r: Run, i: int) { r.start <= i <= r.end }

  predicate InRuns(runs: seq<Run>, i: int) {
    exists k :: 0 <= k < |runs| && Within(runs[k], i)
  }

  /** One run, a position that is in neither, then the other. */
  predicate Before(a: Run, b: Run) { a.end + 1 < b.start }

  ghost predicate InSequence(runs: seq<Run>) {
    forall k, l {:trigger Before(runs[k], runs[l])} :: 0 <= k < l < |runs| ==> Before(runs[k], runs[l])
  }

  /** The runs are nonempty, inside the first `n` positions, in order and apart from each other. */
  ghost predicate Apart(runs: seq<Run>, n: int) {
    && (forall k :: 0 <= k < |runs| ==> 0 <= runs[k].start <= runs[k].end < n)
    && InSequence(runs)
  }

  ghost predicate AreRuns(runs: seq<Run>, flags: seq<bool>) {
    && Apart(runs, |flags|)
    && forall i :: 0 <= i < |flags| ==> (flags[i] <==> InRuns(runs, i))
  }

  // ---------- runs by the gaps between indices ----------

  /** `np.diff(m) > 1`, at the later of the two indices. */
  function Steps(m: seq<int>): seq<bool> {
    seq(|m|, j requires 0 <= j < |m| => j >= 1 && m[j] - m[j - 1] > 1)
  }

  /** `np.flatnonzero(np.diff(m) > 1) + 1`. */
  function Breaks(m: seq<int>): seq<int> { FlatNonzero(Steps(m)) }

  /** Where run `k` begins in the list of indices: at 0, at the breaks, and the last one ends at the length. */
  function Bound(m: seq<int>, k: nat): int {
    var b := Breaks(m);
    if k == 0 then 0 else if k <= |b| then b[k - 1] else |m|
  }

  lemma {:induction false} BoundsInOrder(m: seq<int>, x: nat, y: nat)
    requires m != [] && x < y <= |Breaks(m)| + 1
    ensures 0 <= Bound(m, x) < Bound(m, y) <= |m|
  {
    if 0 < x && y <= |Breaks(m)| { InOrder(Steps(m), x - 1, y - 1); }
  }

  /** The indices from the start of a run to the one before the next break. */
  function RunAt(m: seq<int>, k: nat): Run
    requires m != [] && k <= |Breaks(m)|
  {
    BoundsInOrder(m, k, k + 1);
    Run(m[Bound(m, k)], m[Bound(m, k + 1) - 1])
  }

  /** `zip(np.r_[m[0], m[breaks]], np.r_[m[breaks - 1], m[-1]])`. */
  function RunsOf(m: seq<int>): seq<Run> {
    if m == [] then [] else seq(|Breaks(m)| + 1, k requires 0 <= k <= |Breaks(m)| => RunAt(m, k))
  }

  lemma {:induction false} BreakIsStep(m: seq<int>, k: nat)
    requires m != [] && 1 <= k <= |Breaks(m)|
    ensures 1 <= Bound(m, k) < |m| && m[Bound(m, k)] - m[Bound(m, k) - 1] > 1
  {
    assert Steps(m)[Breaks(m)[k - 1]];
  }

  /** Inside a run the indices follow each other. */
  lemma {:induction false} NoStepInside(m: seq<int>, k: nat, j: int)
    requires m != [] && k <= |Breaks(m)| && Bound(m, k) < j < Bound(m, k + 1)
    ensures 1 <= j < |m| && m[j] - m[j - 1] <= 1
  {
    BoundsInOrder(m, k, k + 1);
    if m[j] - m[j - 1] > 1 {
      var q := IndexOf(Steps(m), j);
      assert Bound(m, q + 1) == j;
      if q + 1 < k { BoundsInOrder(m, q + 1, k); }
      if k + 1 < q + 1 { BoundsInOrder(m, k + 1, q + 1); }
    }
  }

  lemma {:induction false} Consecutive(flags: seq<bool>, x: int, y: int)
    requires 0 <= x <= y < |FlatNonzero(flags)|
    requires forall j :: x < j <= y ==> FlatNonzero(flags)[j] - FlatNonzero(flags)[j - 1] <= 1
    ensures FlatNonzero(flags)[y] - FlatNonzero(flags)[x] == y - x
    decreases y
  {
    if x < y {
      Consecutive(flags, x, y - 1);
      InOrder(flags, y - 1, y);
    }
  }

  lemma {:induction false} RunIsConsecutive(flags: seq<bool>, k: nat, j: int)
    requires FlatNonzero(flags) != [] && k <= |Breaks(FlatNonzero(flags))|
    requires Bound(FlatNonzero(flags), k) <= j < Bound(FlatNonzero(flags), k + 1)
    ensures var m := FlatNonzero(flags);
      0 <= Bound(m, k) && j < |m| && m[j] - m[Bound(m, k)] == j - Bound(m, k)
  {
    var m := FlatNonzero(flags);
    BoundsInOrder(m, k, k + 1);
    forall i | Bound(m, k) < i <= j ensures m[i] - m[i - 1] <= 1 { NoStepInside(m, k, i); }
    Consecutive(flags, Bound(m, k), j);
  }

  /** Every position lies between two neighbouring bounds. */
  lemma {:induction false} FindBound(m: seq<int>, j: int, n: nat) returns (k: nat)
    requires m != [] && n <= |Breaks(m)| && 0 <= j < Bound(m, n + 1)
    ensures k <= n && Bound(m, k) <= j < Bound(m, k + 1)
    decreases n
  {
    if Bound(m, n) <= j { k := n; } else { k := FindBound(m, j, n - 1); }
  }

  lemma {:induction false} RunsOfIndices(flags: seq<bool>)
    ensures AreRuns(RunsOf(FlatNonzero(flags)), flags)
  {
    var runs := RunsOf(FlatNonzero(flags));
    forall k | 0 <= k < |runs| ensures 0 <= runs[k].start <= runs[k].end < |flags| { RunInside(flags, k); }
    forall k, l | 0 <= k < l < |runs| ensures Before(runs[k], runs[l]) { RunsApart(flags, k, l); }
    forall i | 0 <= i < |flags| ensures flags[i] <==> InRuns(runs, i) {
      if flags[i] { IndexInRun(flags, i); }
      if InRuns(runs, i) { RunHoldsIndices(flags, i); }
    }
  }

  lemma {:induction false} RunInside(flags: seq<bool>, k: nat)
    requires FlatNonzero(flags) != [] && k <= |Breaks(FlatNonzero(flags))|
    ensures var r := RunAt(FlatNonzero(flags), k); 0 <= r.start <= r.end < |flags|
  {
    var m := FlatNonzero(flags);
    BoundsInOrder(m, k, k + 1);
    InOrder(flags, Bound(m, k), Bound(m, k + 1) - 1);
  }

  lemma {:induction false} RunsApart(flags: seq<bool>, k: nat, l: nat)
    requires FlatNonzero(flags) != [] && k < l <= |Breaks(FlatNonzero(flags))|
    ensures Before(RunAt(FlatNonzero(flags), k), RunAt(FlatNonzero(flags), l))
  {
    EndsBeforeBreak(FlatNonzero(flags), k);
    StartsInOrder(flags, k + 1, l);
  }

  /** A run ends more than one position before the index at its break. */
  lemma {:induction false} EndsBeforeBreak(m: seq<int>, k: nat)
    requires m != [] && k < |Breaks(m)|
    ensures 0 <= Bound(m, k + 1) < |m| && RunAt(m, k).end + 1 < m[Bound(m, k + 1)]
  {
    BreakIsStep(m, k + 1);
  }

  lemma {:induction false} StartsInOrder(flags: seq<bool>, k: nat, l: nat)
    requires FlatNonzero(flags) != [] && k <= l <= |Breaks(FlatNonzero(flags))|
    ensures var m := FlatNonzero(flags);
      0 <= Bound(m, k) < |m| && m[Bound(m, k)] <= RunAt(m, l).start
  {
    var m := FlatNonzero(flags);
    BoundsInOrder(m, l, l + 1);
    if k < l { BoundsInOrder(m, k, l); }
    InOrder(flags, Bound(m, k), Bound(m, l));
  }

  lemma {:induction false} IndexInRun(flags: seq<bool>, i: int)
    requires 0 <= i < |flags| && flags[i]
    ensures InRuns(RunsOf(FlatNonzero(flags)), i)
  {
    var m := FlatNonzero(flags);
    var j := IndexOf(flags, i);
    var k := FindBound(m, j, |Breaks(m)|);
    BoundsInOrder(m, k, k + 1);
    InOrder(flags, Bound(m, k), j);
    InOrder(flags, j, Bound(m, k + 1) - 1);
    assert Within(RunsOf(m)[k], i);
  }

  lemma {:induction false} RunHoldsIndices(flags: seq<bool>, i: int)
    requires 0 <= i < |flags| && InRuns(RunsOf(FlatNonzero(flags)), i)
    ensures flags[i]
  {
    var m := FlatNonzero(flags);
    var k :| 0 <= k < |RunsOf(m)| && Within(RunsOf(m)[k], i);
    var x := PlaceInRun(flags, k, i);
  }

  lemma {:induction false} PlaceInRun(flags: seq<bool>, k: nat, i: int) returns (x: int)
    requires FlatNonzero(flags) != [] && k <= |Breaks(FlatNonzero(flags))|
    requires Within(RunAt(FlatNonzero(flags), k), i)
    ensures 0 <= x < |FlatNonzero(flags)| && FlatNonzero(flags)[x] == i
  {
    var m := FlatNonzero(flags);
    BoundsInOrder(m, k, k + 1);
    var first, last := Bound(m, k), Bound(m, k + 1) - 1;
    RunIsConsecutive(flags, k, last);
    x := first + (i - m[first]);
    RunIsConsecutive(flags, k, x);
  }

  // ---------- runs by the changes of a padded mask ----------

  predicate At(valid: seq<bool>, i: int) { 0 <= i < |valid| && valid[i] }

  /** `np.diff` of the mask padded with False on both sides, where it is 1. */
  function Rises(valid: seq<bool>): seq<bool> {
    seq(|valid| + 1, i => At(valid, i) && !At(valid, i - 1))
  }

  /** The same where it is -1. */
  function Falls(valid: seq<bool>): seq<bool> {
    seq(|valid| + 1, i => !At(valid, i) && At(valid, i - 1))
  }

  /** The changes before position `i` come in turns, a rise first. */
  ghost predicate Paired(valid: seq<bool>, s: seq<int>, e: seq<int>, i: int) {
    && |s| == |e| + (if At(valid, i - 1) then 1 else 0)
    && (forall k :: 0 <= k < |s| ==> 0 <= s[k] < i)
    && (forall k :: 0 <= k < |e| ==> s[k] < e[k] < i)
    && forall k :: 0 <= k < |e| && k + 1 < |s| ==> e[k] < s[k + 1]
  }

  /** Opened by a rise and not closed by its fall. */
  predicate Opened(s: seq<int>, e: seq<int>, j: int) {
    exists k :: 0 <= k < |s| && s[k] <= j && (k < |e| ==> j < e[k])
  }

  ghost predicate PairsCover(valid: seq<bool>, s: seq<int>, e: seq<int>, i: int) {
    forall j :: 0 <= j < i ==> (At(valid, j) <==> Opened(s, e, j))
  }

  ghost predicate AreChanges(valid: seq<bool>, rises: seq<bool>, falls: seq<bool>) {
    && |rises| == |falls| == |valid| + 1
    && forall i {:trigger rises[i]} {:trigger falls[i]} :: 0 <= i <= |valid| ==>
      rises[i] == (At(valid, i) && !At(valid, i - 1)) && falls[i] == (!At(valid, i) && At(valid, i - 1))
  }

  lemma {:induction false} PairedUpTo(valid: seq<bool>, rises: seq<bool>, falls: seq<bool>, i: nat)
    returns (s: seq<int>, e: seq<int>)
    requires AreChanges(valid, rises, falls) && i <= |valid| + 1
    ensures s == FlatNonzero(rises[..i]) && e == FlatNonzero(falls[..i])
    ensures Paired(valid, s, e, i) && PairsCover(valid, s, e, i)
  {
    if i == 0 {
      s, e := [], [];
    } else {
      s, e := PairedUpTo(valid, rises, falls, i - 1);
      FlatStep(rises, i - 1);
      FlatStep(falls, i - 1);
      s, e := PairStep(valid, s, e, i - 1);
    }
  }

  lemma {:induction false} PairStep(valid: seq<bool>, s: seq<int>, e: seq<int>, i: nat) returns (s': seq<int>,
                                    e': seq<int>)
    requires i <= |valid| && Paired(valid, s, e, i) && PairsCover(valid, s, e, i)
    ensures s' == s + if At(valid, i) && !At(valid, i - 1) then [i] else []
    ensures e' == e + if !At(valid, i) && At(valid, i - 1) then [i] else []
    ensures Paired(valid, s', e', i + 1) && PairsCover(valid, s', e', i + 1)
  {
    s', e' := s, e;
    if At(valid, i) && !At(valid, i - 1) {
      s' := s + [i];
      RiseCovers(valid, s, e, i);
    } else if !At(valid, i) && At(valid, i - 1) {
      e' := e + [i];
      FallCovers(valid, s, e, i);
    } else {
      SameCovers(valid, s, e, i);
    }
  }

  lemma {:induction false} RiseCovers(valid: seq<bool>, s: seq<int>, e: seq<int>, i: nat)
    requires Paired(valid, s, e, i) && PairsCover(valid, s, e, i) && At(valid, i) && !At(valid, i - 1)
    ensures PairsCover(valid, s + [i], e, i + 1)
  {
    forall j | 0 <= j < i + 1 ensures At(valid, j) <==> Opened(s + [i], e, j) {
      if Opened(s, e, j) {
        var k :| 0 <= k < |s| && s[k] <= j && (k < |e| ==> j < e[k]);
        assert (s + [i])[k] == s[k];
      }
      if j == i { assert (s + [i])[|s|] == i; }
    }
  }

  lemma {:induction false} FallCovers(valid: seq<bool>, s: seq<int>, e: seq<int>, i: nat)
    requires Paired(valid, s, e, i) && PairsCover(valid, s, e, i) && !At(valid, i) && At(valid, i - 1)
    ensures PairsCover(valid, s, e + [i], i + 1)
  {
    forall j | 0 <= j < i + 1 ensures At(valid, j) <==> Opened(s, e + [i], j) {
      if j < i && Opened(s, e, j) {
        var k :| 0 <= k < |s| && s[k] <= j && (k < |e| ==> j < e[k]);
        assert k < |e + [i]| ==> j < (e + [i])[k];
      }
      if Opened(s, e + [i], j) {
        var k :| 0 <= k < |s| && s[k] <= j && (k < |e + [i]| ==> j < (e + [i])[k]);
        assert k < |e| ==> e[k] == (e + [i])[k];
      }
    }
  }

  lemma {:induction false} SameCovers(valid: seq<bool>, s: seq<int>, e: seq<int>, i: nat)
    requires Paired(valid, s, e, i) && PairsCover(valid, s, e, i) && At(valid, i) == At(valid, i - 1)
    ensures PairsCover(valid, s, e, i + 1)
  {
    if At(valid, i) {
      assert s[|s| - 1] <= i;
      assert Opened(s, e, i);
    }
  }

  function ChangeRuns(valid: seq<bool>): seq<Run> {
    Zip(FlatNonzero(Rises(valid)), FlatNonzero(Falls(valid)))
  }

  /** The ends of a slice are one behind the last position. */
  function Zip(s: seq<int>, e: seq<int>): seq<Run> {
    seq(Min(|s|, |e|), k requires 0 <= k < Min(|s|, |e|) => Run(s[k], e[k] - 1))
  }

  lemma {:induction false} PairOrder(valid: seq<bool>, s: seq<int>, e: seq<int>, i: int, k: nat, l: nat)
    requires Paired(valid, s, e, i) && k < l < |s| && k < |e|
    ensures e[k] < s[l]
    decreases l
  {
    if k + 1 < l {
      PairOrder(valid, s, e, i, k, l - 1);
      assert s[l - 1] < e[l - 1];
      assert e[l - 1] < s[l - 1 + 1];
    }
  }

  lemma {:induction false} PairsAreRuns(valid: seq<bool>, s: seq<int>, e: seq<int>)
    requires Paired(valid, s, e, |valid| + 1) && PairsCover(valid, s, e, |valid| + 1)
    ensures |s| == |e| && AreRuns(Zip(s, e), valid)
  {
    var runs := Zip(s, e);
    forall k, l | 0 <= k < l < |runs| ensures Before(runs[k], runs[l]) {
      PairOrder(valid, s, e, |valid| + 1, k, l);
    }
    forall i | 0 <= i < |valid| ensures valid[i] <==> InRuns(runs, i) {
      assert At(valid, i) <==> Opened(s, e, i);
      OpenedIsInRun(s, e, runs, i);
    }
  }

  lemma {:induction false} ChangesAre(valid: seq<bool>)
    ensures AreChanges(valid, Rises(valid), Falls(valid))
  {
    forall i | 0 <= i <= |valid|
      ensures Rises(valid)[i] == (At(valid, i) && !At(valid, i - 1))
      ensures Falls(valid)[i] == (!At(valid, i) && At(valid, i - 1))
    {}
  }

  lemma {:induction false} ChangesPair(valid: seq<bool>)
    ensures var s, e := FlatNonzero(Rises(valid)), FlatNonzero(Falls(valid));
      |s| == |e| && Paired(valid, s, e, |valid| + 1) && PairsCover(valid, s, e, |valid| + 1)
  {
    var rises, falls := Rises(valid), Falls(valid);
    ChangesAre(valid);
    var s, e := PairedUpTo(valid, rises, falls, |valid| + 1);
    assert rises[..|valid| + 1] == rises && falls[..|valid| + 1] == falls;
  }

  lemma {:induction false} ChangeRunsAreRuns(valid: seq<bool>)
    ensures |FlatNonzero(Rises(valid))| == |FlatNonzero(Falls(valid))|
    ensures AreRuns(ChangeRuns(valid), valid)
  {
    ChangesPair(valid);
    PairsAreRuns(valid, FlatNonzero(Rises(valid)), FlatNonzero(Falls(valid)));
  }

  lemma {:induction false} OpenedIsInRun(s: seq<int>, e: seq<int>, runs: seq<Run>, i: int)
    requires |s| == |e| == |runs| && forall k :: 0 <= k < |s| ==> runs[k] == Run(s[k], e[k] - 1)
    ensures Opened(s, e, i) <==> InRuns(runs, i)
  {
    if Opened(s, e, i) {
      var k :| 0 <= k < |s| && s[k] <= i && (k < |e| ==> i < e[k]);
      assert Within(runs[k], i);
    }
    if InRuns(runs, i) {
      var k :| 0 <= k < |runs| && Within(runs[k], i);
      assert s[k] <= i && i < e[k];
    }
  }

  // ---------- spans ----------

  /** `_valid_span`. */
  function ValidSpan(valid: seq<bool>): Span {
    var indices := FlatNonzero(valid);
    if indices == [] then Span(|valid|, |valid|, 0) else Span(indices[0], indices[|indices| - 1], |indices|)
  }

  /** The first and the last valid row and how many there are; none is told by the length. */
  lemma {:induction false} ValidSpanIs(valid: seq<bool>)
    ensures var s := ValidSpan(valid);
      && s.count == Count(valid)
      && (s.count == 0 <==> forall i :: 0 <= i < |valid| ==> !valid[i])
      && (s.count > 0 ==> At(valid, s.first) && At(valid, s.last) && s.first <= s.last)
      && (s.count == 0 ==> s.first == s.last == |valid|)
      && forall i :: At(valid, i) ==> s.first <= i <= s.last
  {
    var m := FlatNonzero(valid);
    if m != [] {
      InOrder(valid, 0, |m| - 1);
      assert valid[m[0]];
    }
    forall i | 0 <= i < |valid| && valid[i] ensures m != [] { var q := IndexOf(valid, i); }
    forall i | At(valid, i) ensures ValidSpan(valid).count > 0 && ValidSpan(valid).first <= i <= ValidSpan(valid).last {
      var q := IndexOf(valid, i);
      InOrder(valid, 0, q);
      InOrder(valid, q, |m| - 1);
    }
  }

  function Length(r: Run): int { r.end - r.start + 1 }

  /** `np.argmax`: the first of the longest. */
  function Longest(runs: seq<Run>): (k: nat)
    requires runs != []
    ensures k < |runs|
  {
    var n := |runs| - 1;
    if n == 0 then 0
    else
      var k := Longest(runs[..n]);
      if Length(runs[n]) > Length(runs[k]) then n else k
  }

  lemma {:induction false} LongestIs(runs: seq<Run>, l: nat)
    requires l < |runs|
    ensures Length(runs[l]) <= Length(runs[Longest(runs)])
    ensures l < Longest(runs) ==> Length(runs[l]) < Length(runs[Longest(runs)])
  {
    var n := |runs| - 1;
    if n > 0 { LongestIs(runs[..n], if l < n then l else n - 1); }
  }

  /** `_longest_contiguous_valid_span`. */
  function LongestValidSpan(valid: seq<bool>): Span {
    var runs := ChangeRuns(valid);
    if runs == [] then Span(|valid|, |valid|, 0)
    else
      var best := runs[Longest(runs)];
      Span(best.start, best.end, Length(best))
  }

  predicate AllValid(valid: seq<bool>, a: int, b: int) {
    0 <= a <= b < |valid| && forall i :: a <= i <= b ==> valid[i]
  }

  lemma {:induction false} SameRun(runs: seq<Run>, n: int, k: nat, l: nat, i: int)
    requires Apart(runs, n) && k < |runs| && l < |runs|
    requires Within(runs[k], i) && (Within(runs[l], i) || Within(runs[l], i + 1))
    ensures k == l
  {
    if l < k { RunsFollow(runs, n, l, k); }
    if k < l { RunsFollow(runs, n, k, l); }
  }

  lemma {:induction false} RunsFollow(runs: seq<Run>, n: int, k: nat, l: nat)
    requires Apart(runs, n) && k < l < |runs|
    ensures runs[k].end + 1 < runs[l].start
  {
    assert Before(runs[k], runs[l]);
  }

  /** Consecutive set flags lie in one run. */
  lemma {:induction false} SpanInRun(runs: seq<Run>, valid: seq<bool>, a: int, b: int) returns (k: nat)
    requires AreRuns(runs, valid) && AllValid(valid, a, b)
    ensures k < |runs| && runs[k].start <= a && b <= runs[k].end
    decreases b
  {
    assert InRuns(runs, b);
    k :| 0 <= k < |runs| && Within(runs[k], b);
    if a < b {
      var l := SpanInRun(runs, valid, a, b - 1);
      SameRun(runs, |valid|, l, k, b - 1);
    }
  }

  lemma {:induction false} RunIsValid(runs: seq<Run>, valid: seq<bool>, k: nat)
    requires AreRuns(runs, valid) && k < |runs|
    ensures AllValid(valid, runs[k].start, runs[k].end)
  {
    forall i | runs[k].start <= i <= runs[k].end ensures valid[i] {
      assert Within(runs[k], i);
      assert InRuns(runs, i);
    }
  }

  /** The span found is a stretch of valid rows, if there is a valid row. */
  lemma {:induction false} LongestIsValid(valid: seq<bool>)
    ensures Count(valid) == 0 ==> LongestValidSpan(valid) == Span(|valid|, |valid|, 0)
    ensures Count(valid) > 0 ==>
      && AllValid(valid, LongestValidSpan(valid).first, LongestValidSpan(valid).last)
      && LongestValidSpan(valid).count == LongestValidSpan(valid).last - LongestValidSpan(valid).first + 1
  {
    var runs := ChangeRuns(valid);
    ChangeRunsAreRuns(valid);
    ValidSpanIs(valid);
    if runs == [] {
      forall i | 0 <= i < |valid| ensures !valid[i] { assert !InRuns(runs, i); }
    } else {
      RunIsValid(runs, valid, Longest(runs));
      assert valid[runs[0].start] by { RunIsValid(runs, valid, 0); }
    }
  }

  /** No stretch of valid rows is longer, and none as long begins earlier. */
  lemma {:induction false} NoneIsLonger(valid: seq<bool>, a: int, b: int)
    requires AllValid(valid, a, b)
    ensures b - a + 1 <= LongestValidSpan(valid).count
    ensures b - a + 1 == LongestValidSpan(valid).count ==> LongestValidSpan(valid).first <= a
  {
    var runs := ChangeRuns(valid);
    ChangeRunsAreRuns(valid);
    var k := SpanInRun(runs, valid, a, b);
    LongestBeats(runs, |valid|, k, a, b);
  }

  lemma {:induction false} LongestBeats(runs: seq<Run>, n: int, k: nat, a: int, b: int)
    requires Apart(runs, n) && k < |runs| && runs[k].start <= a <= b <= runs[k].end
    ensures var best := runs[Longest(runs)];
      b - a + 1 <= Length(best) && (b - a + 1 == Length(best) ==> best.start <= a)
  {
    LongestIs(runs, k);
    if Longest(runs) < k { RunsFollow(runs, n, Longest(runs), k); }
  }
}
