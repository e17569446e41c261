/** Optional and fallible results. */
module Wrappers {
  datatype Option<+T> = None | Some(value: T)

  datatype Result<+T, +E> = Ok(value: T) | Err(error: E)
}

/** The minute grid on which candles and gap records live. */
module Minutes {
  const ONE_MIN_MS: int := 60_000

  function Max(a: int, b: int): int { if a >= b then a else b }

  function Min(a: int, b: int): int { if a <= b then a else b }

  predicate Aligned(ts: int) {
    ts % 60_000 == 0
  }

  function FloorMinute(ms: int): (ts: int)
    ensures Aligned(ts) && ts <= ms < ts + ONE_MIN_MS
  {
    ms / 60_000 * 60_000
  }

  lemma {:induction false} GridNeighbours(ts: int)
    requires Aligned(ts)
    ensures Aligned(ts - ONE_MIN_MS) && Aligned(ts + ONE_MIN_MS)
  {}

  /** Two different grid points are at least a minute apart. */
  lemma {:induction false} GridStep(a: int, b: int)
    requires Aligned(a) && Aligned(b) && a < b
    ensures a + ONE_MIN_MS <= b
  {}
}

/** Stable sorting, as Python's `sorted` and numpy's stable `argsort` do it. */
module Sorting {
  ghost predicate TotalPreorder<T(!new)>(leq: (T, T) -> bool) {
    && (forall a, b :: leq(a, b) || leq(b, a))
    && (forall a, b, c :: leq(a, b) && leq(b, c) ==> leq(a, c))
  }

  ghost predicate SortedBy<T>(s: seq<T>, leq: (T, T) -> bool) {
    forall i, j :: 0 <= i < j < |s| ==> leq(s[i], s[j])
  }

  /** Places `x` behind every element of the sorted `s` that is not greater. */
  function Insert<T>(x: T, s: seq<T>, leq: (T, T) -> bool): (r: seq<T>)
    ensures |r| == |s| + 1
    ensures multiset(r) == multiset(s) + multiset{x}
  {
    if s == [] || !leq(s[0], x) then [x] + s
    else
      assert s == [s[0]] + s[1..];
      [s[0]] + Insert(x, s[1..], leq)
  }

  function Sort<T>(s: seq<T>, leq: (T, T) -> bool): (r: seq<T>)
    ensures |r| == |s|
    ensures multiset(r) == multiset(s)
  {
    if s == [] then []
    else
      assert s == s[..|s| - 1] + [s[|s| - 1]];
      Insert(s[|s| - 1], Sort(s[..|s| - 1], leq), leq)
  }

  lemma {:induction false} SameElements<T>(a: seq<T>, b: seq<T>)
    requires multiset(a) == multiset(b)
    ensures forall x :: x in a <==> x in b
  {
    forall x ensures x in a <==> x in b {
      assert x in a <==> x in multiset(a);
      assert x in b <==> x in multiset(b);
    }
  }

  lemma {:induction false} InsertSorted<T(!new)>(x: T, s: seq<T>, leq: (T, T) -> bool)
    requires TotalPreorder(leq) && SortedBy(s, leq)
    ensures SortedBy(Insert(x, s, leq), leq)
  {
    var r := Insert(x, s, leq);
    if s == [] {
    } else if !leq(s[0], x) {
      forall i, j | 0 <= i < j < |r| ensures leq(r[i], r[j]) {
        if i == 0 { assert leq(x, s[0]); assert r[j] == s[j - 1]; }
      }
    } else {
      var tail := Insert(x, s[1..], leq);
      InsertSorted(x, s[1..], leq);
      forall j | 0 <= j < |tail| ensures leq(s[0], tail[j]) {
        assert tail[j] in multiset(tail);
        assert tail[j] in multiset(s[1..]) + multiset{x};
        if tail[j] != x { assert tail[j] in s[1..]; }
      }
    }
  }

  lemma {:induction false} SortSorted<T(!new)>(s: seq<T>, leq: (T, T) -> bool)
    requires TotalPreorder(leq)
    ensures SortedBy(Sort(s, leq), leq)
  {
    if s != [] {
      SortSorted(s[..|s| - 1], leq);
      InsertSorted(s[|s| - 1], Sort(s[..|s| - 1], leq), leq);
    }
  }

  lemma {:induction false} InsertLast<T>(x: T, s: seq<T>, leq: (T, T) -> bool)
    requires forall i :: 0 <= i < |s| ==> leq(s[i], x)
    ensures Insert(x, s, leq) == s + [x]
  {
    if s != [] {
      InsertLast(x, s[1..], leq);
      assert s == [s[0]] + s[1..];
    }
  }

  /** Sorting leaves a sorted sequence as it is. */
  lemma {:induction false} SortIdentity<T>(s: seq<T>, leq: (T, T) -> bool)
    requires SortedBy(s, leq)
    ensures Sort(s, leq) == s
  {
    if s != [] {
      var init := s[..|s| - 1];
      SortIdentity(init, leq);
      InsertLast(s[|s| - 1], init, leq);
    }
  }

  /** Python's order on pairs. */
  predicate PairLeq(a: (int, int), b: (int, int)) {
    a.0 < b.0 || (a.0 == b.0 && a.1 <= b.1)
  }

  predicate IntLeq(a: int, b: int) { a <= b }

  lemma {:induction false} Preorders()
    ensures TotalPreorder(PairLeq)
    ensures TotalPreorder(IntLeq)
  {}

  ghost predicate Increasing(s: seq<int>) {
    forall i, j :: 0 <= i < j < |s| ==> s[i] < s[j]
  }

  lemma {:induction false} BetweenEnds(s: seq<int>, x: int)
    requires Increasing(s) && x in s
    ensures s[0] <= x <= s[|s| - 1]
  {
    var q :| 0 <= q < |s| && s[q] == x;
    assert q == 0 || s[0] < s[q];
    assert q == |s| - 1 || s[q] < s[|s| - 1];
  }

  /** No element lies strictly between two neighbours. */
  lemma {:induction false} NotBetween(s: seq<int>, k: nat, x: int)
    requires Increasing(s) && k + 1 < |s| && x in s
    ensures s[0] <= x <= s[|s| - 1]
    ensures x <= s[k] || s[k + 1] <= x
  {
    BetweenEnds(s, x);
    var q :| 0 <= q < |s| && s[q] == x;
    if q < k { assert s[q] < s[k]; }
    if k + 1 < q { assert s[k + 1] < s[q]; }
  }

  /** Adds `x` to an increasing sequence unless it is there: `sorted(set)` one element at a time. */
  function InsertUnique(x: int, s: seq<int>): (r: seq<int>)
    requires Increasing(s)
    ensures Increasing(r)
    ensures forall y :: y in r <==> y == x || y in s
  {
    if s == [] then [x]
    else if x < s[0] then [x] + s
    else if x == s[0] then s
    else
      var tail := InsertUnique(x, s[1..]);
      assert s == [s[0]] + s[1..];
      assert forall y :: y in tail <==> y == x || y in s[1..];
      assert forall k :: 0 <= k < |tail| ==> tail[k] in tail && s[0] < tail[k];
      [s[0]] + tail
  }

  /** `np.unique` on timestamps. */
  function UniqueSorted(s: seq<int>): (r: seq<int>)
    ensures Increasing(r)
    ensures forall y :: y in r <==> y in s
  {
    if s == [] then [] else
      assert s == s[..|s| - 1] + [s[|s| - 1]];
      InsertUnique(s[|s| - 1], UniqueSorted(s[..|s| - 1]))
  }

  ghost predicate NonDecreasing(s: seq<int>) {
    forall i, j :: 0 <= i < j < |s| ==> s[i] <= s[j]
  }

  /** `np.searchsorted(side="left")`; with `x + 1` for integers it is `side="right"` at `x`. */
  function SearchSorted(s: seq<int>, x: int): (k: nat)
    requires NonDecreasing(s)
    ensures k <= |s|
    ensures forall i :: 0 <= i < k ==> s[i] < x
    ensures forall i :: k <= i < |s| ==> x <= s[i]
  {
    if s == [] || x <= s[0] then 0 else 1 + SearchSorted(s[1..], x)
  }
}
