/** Candle arrays ordered by timestamp, and the overwrite merge of two of them. */
module Candles {
  import opened Sorting

  datatype Candle = Candle(ts: int, o: real, h: real, l: real, c: real, bv: real)

  predicate TsLeq(a: Candle, b: Candle) { a.ts <= b.ts }

  lemma {:induction false} TsPreorder()
    ensures TotalPreorder(TsLeq)
  {}

  /** `np.sort(order="ts")` on rows: the other fields, in their order, break ties. */
  predicate FieldLeq(a: Candle, b: Candle) {
    if a.ts != b.ts then a.ts < b.ts
    else if a.o != b.o then a.o < b.o
    else if a.h != b.h then a.h < b.h
    else if a.l != b.l then a.l < b.l
    else if a.c != b.c then a.c < b.c
    else a.bv <= b.bv
  }

  lemma {:induction false} FieldPreorder()
    ensures TotalPreorder(FieldLeq)
  {}

  function SortByTs(s: seq<Candle>): seq<Candle> { Sort(s, FieldLeq) }

  predicate FieldSorted(s: seq<Candle>) {
    forall i, j :: 0 <= i < j < |s| ==> FieldLeq(s[i], s[j])
  }

  predicate SortedTs(s: seq<Candle>) {
    forall i, j :: 0 <= i < j < |s| ==> s[i].ts <= s[j].ts
  }

  predicate StrictTs(s: seq<Candle>) {
    forall i, j :: 0 <= i < j < |s| ==> s[i].ts < s[j].ts
  }

  predicate UniqueTs(s: seq<Candle>) {
    forall i, j :: 0 <= i < j < |s| ==> s[i].ts != s[j].ts
  }

  /** The timestamp map an array stands for: a later row overrides an earlier one. */
  function ToMap(s: seq<Candle>): map<int, Candle> {
    if s == [] then map[]
    else
      var last := s[|s| - 1];
      ToMap(s[..|s| - 1])[last.ts := last]
  }

  /** `_sorted_candle_copy`: sorts only when the rows are not strictly increasing yet. */
  function SortedCandleCopy(s: seq<Candle>): seq<Candle> {
    if StrictTs(s) then s else SortByTs(s)
  }

  /** Keeps the last row of every run of equal timestamps. */
  function KeepLast(s: seq<Candle>): seq<Candle> {
    if |s| <= 1 then s
    else if s[0].ts == s[1].ts then KeepLast(s[1..])
    else [s[0]] + KeepLast(s[1..])
  }

  predicate FastMerge(a: seq<Candle>, b: seq<Candle>)
    requires a != [] && b != []
  {
    b[0].ts >= a[|a| - 1].ts && StrictTs(a) && StrictTs(b)
  }

  function AppendTail(a: seq<Candle>, b: seq<Candle>): seq<Candle>
    requires a != [] && b != []
  {
    (if b[0].ts == a[|a| - 1].ts then a[..|a| - 1] else a) + b
  }

  function StableMerge(a: seq<Candle>, b: seq<Candle>): seq<Candle> {
    KeepLast(Sort(a + b, TsLeq))
  }

  /** `_merge_overwrite`: rows of `b` replace rows of `a` at the same timestamp. */
  function MergeOverwrite(a: seq<Candle>, b: seq<Candle>): seq<Candle> {
    if a == [] then SortedCandleCopy(b)
    else if b == [] then SortedCandleCopy(a)
    else if FastMerge(a, b) then AppendTail(a, b)
    else StableMerge(a, b)
  }

  // ---------- the map view ----------

  lemma {:induction false} ToMapConcat(a: seq<Candle>, b: seq<Candle>)
    ensures ToMap(a + b) == ToMap(a) + ToMap(b)
  {
    if b == [] {
      assert a + b == a;
    } else {
      var n := |b| - 1;
      ToMapConcat(a, b[..n]);
      assert (a + b)[..|a + b| - 1] == a + b[..n];
    }
  }

  lemma {:induction false} ToMapKeys(s: seq<Candle>, ts: int)
    ensures ts in ToMap(s) <==> exists i :: 0 <= i < |s| && s[i].ts == ts
    ensures ts in ToMap(s) ==> ToMap(s)[ts].ts == ts && ToMap(s)[ts] in s
  {
    if s != [] {
      var n := |s| - 1;
      ToMapKeys(s[..n], ts);
      if ts in ToMap(s[..n]) {
        var i :| 0 <= i < n && s[..n][i].ts == ts;
        assert s[i].ts == ts;
      }
      if ts == s[n].ts { assert s[n] in s; }
      if exists i :: 0 <= i < |s| && s[i].ts == ts {
        var i :| 0 <= i < |s| && s[i].ts == ts;
        if i < n { assert s[..n][i].ts == ts; }
      }
    }
  }

  /** Without duplicates the map holds each row itself. */
  lemma {:induction false} ToMapAt(s: seq<Candle>, i: nat)
    requires UniqueTs(s) && i < |s|
    ensures s[i].ts in ToMap(s) && ToMap(s)[s[i].ts] == s[i]
  {
    var n := |s| - 1;
    if i < n {
      ToMapAt(s[..n], i);
      assert s[i].ts != s[n].ts;
    }
  }

  lemma {:induction false} ToMapOne(x: Candle)
    ensures ToMap([x]) == map[x.ts := x]
  {
    assert [x][..0] == [];
  }

  lemma {:induction false} UpdateOfSum(a: map<int, Candle>, b: map<int, Candle>, k: int, v: Candle)
    ensures a + b[k := v] == (a + b)[k := v]
    ensures k !in b ==> map[k := v] + b == b[k := v]
    ensures k in b ==> map[k := v] + b == b
  {}

  lemma {:induction false} ToMapCons(x: Candle, s: seq<Candle>)
    ensures ToMap([x] + s) == map[x.ts := x] + ToMap(s)
  {
    ToMapConcat([x], s);
    ToMapOne(x);
  }

  lemma {:induction false} SmallerIsNew(x: Candle, s: seq<Candle>)
    requires SortedBy(s, TsLeq) && s != [] && x.ts < s[0].ts
    ensures x.ts !in ToMap(s)
  {
    ToMapKeys(s, x.ts);
    forall i | 0 <= i < |s| ensures s[i].ts != x.ts { assert i == 0 || TsLeq(s[0], s[i]); }
  }

  /** Stable insertion puts the new row behind its equals, so it wins. */
  lemma {:induction false} InsertOverrides(x: Candle, s: seq<Candle>)
    requires SortedBy(s, TsLeq)
    ensures ToMap(Insert(x, s, TsLeq)) == ToMap(s)[x.ts := x]
  {
    if s == [] {
      assert [x] + s == [x];
      ToMapOne(x);
    } else if !TsLeq(s[0], x) {
      SmallerIsNew(x, s);
      ToMapCons(x, s);
      UpdateOfSum(map[], ToMap(s), x.ts, x);
    } else {
      var tail := s[1..];
      assert s == [s[0]] + tail;
      InsertOverrides(x, tail);
      ToMapCons(s[0], tail);
      ToMapCons(s[0], Insert(x, tail, TsLeq));
      UpdateOfSum(map[s[0].ts := s[0]], ToMap(tail), x.ts, x);
    }
  }

  lemma {:induction false} SortKeepsMap(s: seq<Candle>)
    ensures ToMap(Sort(s, TsLeq)) == ToMap(s)
  {
    if s != [] {
      var init := s[..|s| - 1];
      SortKeepsMap(init);
      TsPreorder();
      SortSorted(init, TsLeq);
      InsertOverrides(s[|s| - 1], Sort(init, TsLeq));
    }
  }

  lemma {:induction false} KeepLastFirst(s: seq<Candle>)
    requires SortedBy(s, TsLeq) && s != []
    ensures KeepLast(s) != [] && KeepLast(s)[0].ts == s[0].ts
  {
    if |s| > 1 && s[0].ts == s[1].ts { KeepLastFirst(s[1..]); }
  }

  lemma {:induction false} KeepLastCorrect(s: seq<Candle>)
    requires SortedBy(s, TsLeq)
    ensures StrictTs(KeepLast(s))
    ensures ToMap(KeepLast(s)) == ToMap(s)
  {
    if |s| > 1 {
      var tail := s[1..];
      KeepLastCorrect(tail);
      KeepLastFirst(tail);
      assert s == [s[0]] + tail;
      ToMapCons(s[0], tail);
      assert TsLeq(s[0], s[1]);
      if s[0].ts == s[1].ts {
        ToMapKeys(tail, s[0].ts);
        assert tail[0].ts == s[0].ts;
        UpdateOfSum(map[], ToMap(tail), s[0].ts, s[0]);
      } else {
        ToMapCons(s[0], KeepLast(tail));
        StrictConcat([s[0]], KeepLast(tail));
      }
    }
  }

  /** A strictly increasing array is determined by its map. */
  lemma {:induction false} StrictDeterminedByMap(a: seq<Candle>, b: seq<Candle>)
    requires StrictTs(a) && StrictTs(b) && ToMap(a) == ToMap(b)
    ensures a == b
  {
    if a == [] || b == [] {
      if a != [] { ToMapAt(a, 0); }
      if b != [] { ToMapAt(b, 0); }
    } else {
      var n, m := |a| - 1, |b| - 1;
      SameLastRow(a, b);
      StrictDeterminedByMap(a[..n], b[..m]);
      assert a == a[..n] + [a[n]] && b == b[..m] + [b[m]];
    }
  }

  lemma {:induction false} SameLastRow(a: seq<Candle>, b: seq<Candle>)
    requires StrictTs(a) && StrictTs(b) && ToMap(a) == ToMap(b) && a != [] && b != []
    ensures a[|a| - 1] == b[|b| - 1]
    ensures ToMap(a[..|a| - 1]) == ToMap(b[..|b| - 1])
  {
    LastKeyBelow(a, b);
    LastKeyBelow(b, a);
    ToMapAt(a, |a| - 1);
    ToMapAt(b, |b| - 1);
    DropLastKey(a);
    DropLastKey(b);
  }

  lemma {:induction false} LastKeyBelow(a: seq<Candle>, b: seq<Candle>)
    requires StrictTs(a) && StrictTs(b) && ToMap(a) == ToMap(b) && a != [] && b != []
    ensures a[|a| - 1].ts <= b[|b| - 1].ts
  {
    var ts := a[|a| - 1].ts;
    ToMapAt(a, |a| - 1);
    ToMapKeys(b, ts);
    assert forall i :: 0 <= i < |b| ==> b[i].ts <= b[|b| - 1].ts;
  }

  lemma {:induction false} DropLastKey(a: seq<Candle>)
    requires StrictTs(a) && a != []
    ensures ToMap(a[..|a| - 1]) == ToMap(a) - {a[|a| - 1].ts}
  {
    var n := |a| - 1;
    ToMapKeys(a[..n], a[n].ts);
  }

  // ---------- the merge ----------

  lemma {:induction false} SortedByFields(s: seq<Candle>)
    ensures FieldSorted(SortByTs(s)) && SortedTs(SortByTs(s))
    ensures multiset(SortByTs(s)) == multiset(s) && |SortByTs(s)| == |s|
    ensures StrictTs(SortByTs(s)) <==> UniqueTs(s)
    ensures UniqueTs(s) ==> ToMap(SortByTs(s)) == ToMap(s)
  {
    var sorted := SortByTs(s);
    FieldPreorder();
    SortSorted(s, FieldLeq);
    SortUniqueIff(s);
    if UniqueTs(s) { UniqueSortMap(s); }
  }

  /** The copy is sorted and holds the same rows; it is strictly increasing exactly without duplicates. */
  lemma {:induction false} SortedCopyCorrect(s: seq<Candle>)
    ensures SortedTs(SortedCandleCopy(s)) && multiset(SortedCandleCopy(s)) == multiset(s)
    ensures StrictTs(SortedCandleCopy(s)) <==> UniqueTs(s)
    ensures UniqueTs(s) ==> ToMap(SortedCandleCopy(s)) == ToMap(s)
    ensures FieldSorted(SortedCandleCopy(s))
  {
    SortedByFields(s);
  }

  /** Rows that are sorted already are only copied. */
  lemma {:induction false} SortedCopyIdentity(s: seq<Candle>)
    requires FieldSorted(s)
    ensures SortedCandleCopy(s) == s && SortByTs(s) == s
  {
    SortIdentity(s, FieldLeq);
  }

  lemma {:induction false} SortUniqueIff(s: seq<Candle>)
    ensures UniqueTs(SortByTs(s)) <==> UniqueTs(s)
  {
    if s != [] {
      var n := |s| - 1;
      var init, x := s[..n], s[n];
      SortUniqueIff(init);
      SameElements(init, SortByTs(init));
      InsertUniqueIff(x, SortByTs(init));
      UniqueSnoc(s);
    }
  }

  lemma {:induction false} UniqueSnoc(s: seq<Candle>)
    requires s != []
    ensures UniqueTs(s) <==> UniqueTs(s[..|s| - 1]) && forall y :: y in s[..|s| - 1] ==> y.ts != s[|s| - 1].ts
  {
    var n := |s| - 1;
    if UniqueTs(s[..n]) && forall y :: y in s[..n] ==> y.ts != s[n].ts {
      forall i, j | 0 <= i < j < |s| ensures s[i].ts != s[j].ts { assert s[..n][i] in s[..n]; }
    }
  }

  lemma {:induction false} UniqueCons(x: Candle, s: seq<Candle>)
    ensures UniqueTs([x] + s) <==> UniqueTs(s) && forall y :: y in s ==> y.ts != x.ts
  {
    var all := [x] + s;
    if UniqueTs(all) {
      forall i, j | 0 <= i < j < |s| ensures s[i].ts != s[j].ts { assert all[i + 1].ts != all[j + 1].ts; }
      forall y | y in s ensures y.ts != x.ts {
        var k :| 0 <= k < |s| && s[k] == y;
        assert all[0].ts != all[k + 1].ts;
      }
    }
    if UniqueTs(s) && forall y :: y in s ==> y.ts != x.ts {
      forall i, j | 0 <= i < j < |all| ensures all[i].ts != all[j].ts { assert s[j - 1] in s; }
    }
  }

  lemma {:induction false} InsertUniqueIff(x: Candle, s: seq<Candle>)
    ensures UniqueTs(Insert(x, s, FieldLeq)) <==> UniqueTs(s) && forall y :: y in s ==> y.ts != x.ts
  {
    if s == [] || !FieldLeq(s[0], x) {
      UniqueCons(x, s);
    } else {
      var tail := s[1..];
      var r := Insert(x, tail, FieldLeq);
      assert s == [s[0]] + tail;
      InsertUniqueIff(x, tail);
      UniqueCons(s[0], tail);
      UniqueCons(s[0], r);
      forall y ensures y in r <==> y == x || y in tail {
        assert y in r <==> y in multiset(r);
      }
    }
  }

  lemma {:induction false} UniqueSortMap(s: seq<Candle>)
    requires UniqueTs(s)
    ensures ToMap(SortByTs(s)) == ToMap(s)
  {
    if s != [] {
      var n := |s| - 1;
      UniqueSnoc(s);
      UniqueSortMap(s[..n]);
      ToMapKeys(s[..n], s[n].ts);
      InsertAnywhere(s[n], SortByTs(s[..n]));
    }
  }

  lemma {:induction false} InsertAnywhere(x: Candle, s: seq<Candle>)
    requires x.ts !in ToMap(s)
    ensures ToMap(Insert(x, s, FieldLeq)) == ToMap(s)[x.ts := x]
  {
    if s == [] || !FieldLeq(s[0], x) {
      ToMapCons(x, s);
      UpdateOfSum(map[], ToMap(s), x.ts, x);
    } else {
      var tail := s[1..];
      assert s == [s[0]] + tail;
      ToMapCons(s[0], tail);
      InsertAnywhere(x, tail);
      ToMapCons(s[0], Insert(x, tail, FieldLeq));
      UpdateOfSum(map[s[0].ts := s[0]], ToMap(tail), x.ts, x);
    }
  }

  /** With an empty side the other one is only copied, duplicates included. */
  predicate KeepsDuplicates(a: seq<Candle>, b: seq<Candle>) {
    (a == [] && !UniqueTs(b)) || (b == [] && !UniqueTs(a))
  }

  /** All paths: the merge is map override, strictly ordered, exactly unless an empty side lets duplicates through. */
  lemma {:induction false} MergeIsOverride(a: seq<Candle>, b: seq<Candle>)
    ensures StrictTs(MergeOverwrite(a, b)) <==> !KeepsDuplicates(a, b)
    ensures !KeepsDuplicates(a, b) ==> ToMap(MergeOverwrite(a, b)) == ToMap(a) + ToMap(b)
  {
    if a == [] {
      SortedCopyCorrect(b);
    } else if b == [] {
      SortedCopyCorrect(a);
    } else if FastMerge(a, b) {
      AppendTailCorrect(a, b);
    } else {
      StableMergeCorrect(a, b);
    }
  }

  /** Two rows of one minute merged into nothing are both kept. */
  lemma {:induction false} DuplicatesSurvive(x: Candle, y: Candle)
    requires x.ts == y.ts
    ensures |MergeOverwrite([], [x, y])| == 2 && !StrictTs(MergeOverwrite([], [x, y]))
  {
    assert [x, y][0].ts == [x, y][1].ts;
    SortedByFields([x, y]);
  }

  lemma {:induction false} StableMergeCorrect(a: seq<Candle>, b: seq<Candle>)
    ensures StrictTs(StableMerge(a, b)) && ToMap(StableMerge(a, b)) == ToMap(a) + ToMap(b)
  {
    TsPreorder();
    SortSorted(a + b, TsLeq);
    SortKeepsMap(a + b);
    KeepLastCorrect(Sort(a + b, TsLeq));
    ToMapConcat(a, b);
  }

  lemma {:induction false} AppendTailCorrect(a: seq<Candle>, b: seq<Candle>)
    requires a != [] && b != [] && FastMerge(a, b)
    ensures StrictTs(AppendTail(a, b)) && ToMap(AppendTail(a, b)) == ToMap(a) + ToMap(b)
  {
    var n := |a| - 1;
    if b[0].ts == a[n].ts {
      StrictConcat(a[..n], b);
      ToMapConcat(a[..n], b);
      ToMapAt(b, 0);
    } else {
      StrictConcat(a, b);
      ToMapConcat(a, b);
    }
  }

  lemma {:induction false} StrictConcat(a: seq<Candle>, b: seq<Candle>)
    requires StrictTs(a) && StrictTs(b)
    requires a != [] && b != [] ==> a[|a| - 1].ts < b[0].ts
    ensures StrictTs(a + b)
  {
    forall i, j | 0 <= i < |a| && 0 <= j < |b| ensures a[i].ts < b[j].ts {
      assert a[i].ts <= a[|a| - 1].ts && b[0].ts <= b[j].ts;
    }
  }

  /** The fast path computes what the general path would. */
  lemma {:induction false} FastPathAgrees(a: seq<Candle>, b: seq<Candle>)
    requires a != [] && b != [] && FastMerge(a, b)
    ensures AppendTail(a, b) == StableMerge(a, b)
  {
    AppendTailCorrect(a, b);
    StableMergeCorrect(a, b);
    StrictDeterminedByMap(AppendTail(a, b), StableMerge(a, b));
  }

  lemma {:induction false} StrictIsUnique(s: seq<Candle>)
    ensures StrictTs(s) ==> UniqueTs(s)
  {}

  lemma {:induction false} StrictIsSorted(s: seq<Candle>)
    ensures StrictTs(s) ==> FieldSorted(s)
  {}

  /** `r` is `a` overridden by `b`, in order. */
  ghost predicate Overrides(a: seq<Candle>, b: seq<Candle>, r: seq<Candle>) {
    StrictTs(r) && ToMap(r) == ToMap(a) + ToMap(b)
  }

  lemma {:induction false} OverridesAssociative(a: seq<Candle>, b: seq<Candle>, c: seq<Candle>,
                                                ab: seq<Candle>, bc: seq<Candle>, l: seq<Candle>, r: seq<Candle>)
    requires Overrides(a, b, ab) && Overrides(b, c, bc) && Overrides(ab, c, l) && Overrides(a, bc, r)
    ensures l == r
  {
    var x, y, z := ToMap(a), ToMap(b), ToMap(c);
    assert (x + y) + z == x + (y + z);
    StrictDeterminedByMap(l, r);
  }

  lemma {:induction false} MergeOverrides(a: seq<Candle>, b: seq<Candle>)
    requires UniqueTs(a) && UniqueTs(b)
    ensures Overrides(a, b, MergeOverwrite(a, b)) && UniqueTs(MergeOverwrite(a, b))
  {
    MergeIsOverride(a, b);
    StrictIsUnique(MergeOverwrite(a, b));
  }

  /** Merging is associative on arrays without duplicates. */
  lemma {:induction false} MergeAssociative(a: seq<Candle>, b: seq<Candle>, c: seq<Candle>)
    requires UniqueTs(a) && UniqueTs(b) && UniqueTs(c)
    ensures MergeOverwrite(MergeOverwrite(a, b), c) == MergeOverwrite(a, MergeOverwrite(b, c))
  {
    MergeOverrides(a, b);
    MergeOverrides(b, c);
    MergeOverrides(MergeOverwrite(a, b), c);
    MergeOverrides(a, MergeOverwrite(b, c));
    OverridesAssociative(a, b, c, MergeOverwrite(a, b), MergeOverwrite(b, c),
                         MergeOverwrite(MergeOverwrite(a, b), c), MergeOverwrite(a, MergeOverwrite(b, c)));
  }
  // ---------- equal timestamps ----------

  /** Open, high, low, close, volume. */
  function FieldsOf(c: Candle): seq<real> { [c.o, c.h, c.l, c.c, c.bv] }

  /** The first field in which two rows differ is smaller in the first of them. */
  predicate SmallerAt(a: Candle, b: Candle, k: nat)
    requires k < 5
  {
    FieldsOf(a)[..k] == FieldsOf(b)[..k] && FieldsOf(a)[k] < FieldsOf(b)[k]
  }

  /** Of several rows of one minute the sorted array keeps the greatest, field by field from the open on. */
  lemma {:induction false} GreatestCounts(s: seq<Candle>, c: Candle)
    requires c in s
    ensures var kept := ToMap(SortByTs(s));
      && c.ts in kept && kept[c.ts] in s && kept[c.ts].ts == c.ts
      && (kept[c.ts] == c || exists k: nat :: k < 5 && SmallerAt(c, kept[c.ts], k))
  {
    var sorted := SortByTs(s);
    SortedByFields(s);
    SameElements(s, sorted);
    var i :| 0 <= i < |sorted| && sorted[i] == c;
    LastIsGreatest(sorted, i);
    ToMapKeys(sorted, c.ts);
    FirstDifference(c, ToMap(sorted)[c.ts]);
  }

  lemma {:induction false} LastIsGreatest(s: seq<Candle>, i: nat)
    requires FieldSorted(s) && i < |s|
    ensures s[i].ts in ToMap(s) && FieldLeq(s[i], ToMap(s)[s[i].ts])
  {
    var n := |s| - 1;
    if i < n {
      assert s[..n][i] == s[i];
      LastIsGreatest(s[..n], i);
      assert FieldLeq(s[i], s[n]);
    }
  }

  lemma {:induction false} FirstDifference(a: Candle, b: Candle)
    requires FieldLeq(a, b) && a.ts == b.ts
    ensures a == b || exists k: nat :: k < 5 && SmallerAt(a, b, k)
  {
    var k := if a.o != b.o then 0 else if a.h != b.h then 1 else if a.l != b.l then 2 else if a.c != b.c then 3 else 4;
    if a != b { assert SmallerAt(a, b, k); }
  }
}
