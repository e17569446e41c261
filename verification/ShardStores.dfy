/** Candles on disk, one shard for each UTC day. */
module ShardStores {
  import opened Wrappers
  import opened Sorting
  import opened Candles

  const DAY_MS: int := 24 * 60 * 60 * 1000

  /** The day number that stands for the date key of a timestamp. */
  function Day(ts: int): (day: int)
    ensures day * DAY_MS <= ts < (day + 1) * DAY_MS
  {
    ts / 86_400_000
  }

  type Shards = map<int, seq<Candle>>

  ghost predicate ValidShards(shards: Shards) {
    forall d :: d in shards ==>
      FieldSorted(shards[d]) && forall i :: 0 <= i < |shards[d]| ==> Day(shards[d][i].ts) == d
  }

  /** No shard holds two rows of one minute. */
  ghost predicate AllStrict(shards: Shards) {
    forall d :: d in shards ==> StrictTs(shards[d])
  }

  /** The row stored for a timestamp, read across all shards. */
  function Lookup(shards: Shards, ts: int): Option<Candle> {
    if Day(ts) in shards && ts in ToMap(shards[Day(ts)]) then Some(ToMap(shards[Day(ts)])[ts]) else None
  }

  type Bucket = (int, seq<Candle>)

  /** Rows grouped by day, days ascending. */
  ghost predicate GoodBuckets(buckets: seq<Bucket>) {
    && (forall i :: 0 <= i < |buckets| ==> buckets[i].1 != [] && FieldSorted(buckets[i].1))
    && (forall i, j :: 0 <= i < |buckets| && 0 <= j < |buckets[i].1| ==> Day(buckets[i].1[j].ts) == buckets[i].0)
    && (forall i, j :: 0 <= i < j < |buckets| ==> buckets[i].0 < buckets[j].0)
  }

  function Flatten(buckets: seq<Bucket>): seq<Candle> {
    if buckets == [] then [] else Flatten(buckets[..|buckets| - 1]) + buckets[|buckets| - 1].1
  }

  /** The next row goes into the open bucket, or opens the bucket of a later day. */
  lemma {:induction false} ExtendBuckets(buckets: seq<Bucket>, key: int, bucket: seq<Candle>, row: Candle)
    requires GoodBuckets(buckets + [(key, bucket)])
    requires bucket != [] && FieldLeq(bucket[|bucket| - 1], row)
    ensures Day(row.ts) == key ==> GoodBuckets(buckets + [(key, bucket + [row])])
    ensures Day(row.ts) != key ==> GoodBuckets(buckets + [(key, bucket)] + [(Day(row.ts), [row])])
  {
    var n := |buckets|;
    var open := buckets + [(key, bucket)];
    assert open[n] == (key, bucket);
    FieldPreorder();
    forall j | 0 <= j < |bucket| ensures FieldLeq(bucket[j], row) && Day(bucket[j].ts) == key {
      assert Day(open[n].1[j].ts) == open[n].0;
      assert FieldLeq(bucket[j], bucket[|bucket| - 1]);
    }
    if Day(row.ts) == key {
      var next := buckets + [(key, bucket + [row])];
      forall i | 0 <= i < |next| ensures next[i].1 != [] && FieldSorted(next[i].1) && next[i].0 == open[i].0 {
        if i < n { assert next[i] == open[i]; }
      }
      forall i, j | 0 <= i < |next| && 0 <= j < |next[i].1| ensures Day(next[i].1[j].ts) == next[i].0 {
        if i < n { assert next[i] == open[i]; }
      }
    } else {
      assert key <= Day(row.ts);
      var next := open + [(Day(row.ts), [row])];
      forall i | 0 <= i < |open| ensures open[i].0 <= key { assert i == n || open[i].0 < open[n].0; }
    }
  }

  /** The rows seen so far, closed buckets and the open one. */
  ghost predicate Collecting(rows: seq<Candle>, i: nat, buckets: seq<Bucket>, key: int, bucket: seq<Candle>)
    requires 0 < i <= |rows|
  {
    && GoodBuckets(buckets + [(key, bucket)])
    && Flatten(buckets) + bucket == rows[..i]
    && bucket != [] && bucket[|bucket| - 1] == rows[i - 1]
  }

  lemma {:induction false} FirstRow(rows: seq<Candle>)
    requires rows != []
    ensures Collecting(rows, 1, [], Day(rows[0].ts), [rows[0]])
  {
    assert [] + [(Day(rows[0].ts), [rows[0]])] == [(Day(rows[0].ts), [rows[0]])];
  }

  lemma {:induction false} LastRow(rows: seq<Candle>, buckets: seq<Bucket>, key: int, bucket: seq<Candle>)
    requires rows != [] && Collecting(rows, |rows|, buckets, key, bucket)
    ensures GoodBuckets(buckets + [(key, bucket)]) && Flatten(buckets + [(key, bucket)]) == rows
  {
    assert rows[..|rows|] == rows;
    FlattenAppend(buckets, (key, bucket));
  }

  lemma {:induction false} CollectRow(rows: seq<Candle>, i: nat, buckets: seq<Bucket>, key: int, bucket: seq<Candle>)
    requires 0 < i < |rows| && FieldSorted(rows) && Collecting(rows, i, buckets, key, bucket)
    ensures Day(rows[i].ts) == key ==> Collecting(rows, i + 1, buckets, key, bucket + [rows[i]])
    ensures Day(rows[i].ts) != key ==>
      Collecting(rows, i + 1, buckets + [(key, bucket)], Day(rows[i].ts), [rows[i]])
  {
    ExtendBuckets(buckets, key, bucket, rows[i]);
    CollectedRows(rows, i, buckets, key, bucket);
  }

  lemma {:induction false} CollectedRows(rows: seq<Candle>, i: nat, buckets: seq<Bucket>, key: int, bucket: seq<Candle>)
    requires 0 < i < |rows| && Flatten(buckets) + bucket == rows[..i]
    ensures Flatten(buckets) + (bucket + [rows[i]]) == rows[..i + 1]
    ensures Flatten(buckets + [(key, bucket)]) + [rows[i]] == rows[..i + 1]
  {
    FlattenAppend(buckets, (key, bucket));
    assert Flatten(buckets) + (bucket + [rows[i]]) == (Flatten(buckets) + bucket) + [rows[i]];
  }

  lemma {:induction false} FlattenAppend(buckets: seq<Bucket>, b: Bucket)
    ensures Flatten(buckets + [b]) == Flatten(buckets) + b.1
  {
    assert (buckets + [b])[..|buckets|] == buckets;
  }

  /** The first pass of the save: one bucket for each run of rows with the same day. */
  method CollectBuckets(rows: seq<Candle>) returns (buckets: seq<Bucket>)
    requires FieldSorted(rows)
    ensures GoodBuckets(buckets) && Flatten(buckets) == rows
  {
    buckets := [];
    if rows == [] {
      return;
    }
    var key, bucket := Day(rows[0].ts), [rows[0]];
    FirstRow(rows);
    for i := 1 to |rows|
      invariant Collecting(rows, i, buckets, key, bucket)
    {
      CollectRow(rows, i, buckets, key, bucket);
      if Day(rows[i].ts) != key {
        buckets := buckets + [(key, bucket)];
        key, bucket := Day(rows[i].ts), [rows[i]];
      } else {
        bucket := bucket + [rows[i]];
      }
    }
    LastRow(rows, buckets, key, bucket);
    buckets := buckets + [(key, bucket)];
  }

  /** `after` is `before` overridden by the rows of days before `limit`. */
  ghost predicate SavedBelow(before: Shards, rows: seq<Candle>, limit: int, after: Shards) {
    forall ts ::
      Lookup(after, ts) == if ts in ToMap(rows) && Day(ts) < limit then Some(ToMap(rows)[ts]) else Lookup(before, ts)
  }

  ghost function DaysOf(rows: seq<Candle>): set<int> {
    set c | c in rows :: Day(c.ts)
  }

  lemma {:induction false} BucketsPrefix(buckets: seq<Bucket>)
    requires GoodBuckets(buckets) && buckets != []
    ensures GoodBuckets(buckets[..|buckets| - 1])
  {
    var init := buckets[..|buckets| - 1];
    assert forall i :: 0 <= i < |init| ==> init[i] == buckets[i];
  }

  /** Every stored timestamp belongs to the bucket of its day. */
  lemma {:induction false} BucketOf(buckets: seq<Bucket>, ts: int)
    requires GoodBuckets(buckets) && ts in ToMap(Flatten(buckets))
    ensures exists j :: 0 <= j < |buckets| && buckets[j].0 == Day(ts)
  {
    if buckets != [] {
      var n := |buckets| - 1;
      BucketsPrefix(buckets);
      ToMapConcat(Flatten(buckets[..n]), buckets[n].1);
      if ts in ToMap(buckets[n].1) {
        ToMapKeys(buckets[n].1, ts);
        var k :| 0 <= k < |buckets[n].1| && buckets[n].1[k].ts == ts;
        assert buckets[n].0 == Day(ts);
      } else {
        BucketOf(buckets[..n], ts);
        var j :| 0 <= j < n && buckets[..n][j].0 == Day(ts);
        assert buckets[j].0 == Day(ts);
      }
    }
  }

  /** On one day all rows and the day's bucket say the same. */
  lemma {:induction false} BucketLookup(buckets: seq<Bucket>, i: nat, ts: int)
    requires GoodBuckets(buckets) && i < |buckets| && buckets[i].0 == Day(ts)
    ensures ts in ToMap(Flatten(buckets)) <==> ts in ToMap(buckets[i].1)
    ensures ts in ToMap(buckets[i].1) ==> ToMap(Flatten(buckets))[ts] == ToMap(buckets[i].1)[ts]
  {
    var n := |buckets| - 1;
    var init := buckets[..n];
    BucketsPrefix(buckets);
    ToMapConcat(Flatten(init), buckets[n].1);
    if i < n {
      BucketLookup(init, i, ts);
      ToMapKeys(buckets[n].1, ts);
      assert buckets[i].0 < buckets[n].0;
    } else if ts in ToMap(Flatten(init)) {
      EarlierDays(buckets, ts);
    }
  }

  lemma {:induction false} EarlierDays(buckets: seq<Bucket>, ts: int)
    requires GoodBuckets(buckets) && buckets != [] && ts in ToMap(Flatten(buckets[..|buckets| - 1]))
    ensures Day(ts) < buckets[|buckets| - 1].0
  {
    BucketsPrefix(buckets);
    BucketOf(buckets[..|buckets| - 1], ts);
    var j :| 0 <= j < |buckets| - 1 && buckets[..|buckets| - 1][j].0 == Day(ts);
    assert buckets[j].0 == Day(ts);
  }

  /** The days of the rows are the keys of the buckets. */
  lemma {:induction false} DayIsKey(buckets: seq<Bucket>, d: int)
    requires GoodBuckets(buckets)
    ensures d in DaysOf(Flatten(buckets)) <==> exists j :: 0 <= j < |buckets| && buckets[j].0 == d
  {
    if buckets != [] {
      var n := |buckets| - 1;
      var init, last := buckets[..n], buckets[n];
      BucketsPrefix(buckets);
      DayIsKey(init, d);
      assert forall j :: 0 <= j < n ==> init[j] == buckets[j];
      KeyOfBucket(last, d);
      assert DaysOf(Flatten(init) + last.1) == DaysOf(Flatten(init)) + DaysOf(last.1);
    }
  }

  lemma {:induction false} KeyOfBucket(b: Bucket, d: int)
    requires b.1 != [] && forall j :: 0 <= j < |b.1| ==> Day(b.1[j].ts) == b.0
    ensures d in DaysOf(b.1) <==> d == b.0
  {
    assert b.1[0] in b.1;
    if d in DaysOf(b.1) {
      var c :| c in b.1 && Day(c.ts) == d;
      var k :| 0 <= k < |b.1| && b.1[k] == c;
    }
  }

  /** As many buckets as days. */
  lemma {:induction false} BucketCount(buckets: seq<Bucket>)
    requires GoodBuckets(buckets)
    ensures |buckets| == |DaysOf(Flatten(buckets))|
  {
    if buckets != [] {
      var init := buckets[..|buckets| - 1];
      BucketsPrefix(buckets);
      BucketCount(init);
      NewDay(buckets);
    } else {
      assert DaysOf([]) == {};
    }
  }

  /** The last bucket adds one day. */
  lemma {:induction false} NewDay(buckets: seq<Bucket>)
    requires GoodBuckets(buckets) && buckets != []
    ensures var n := |buckets| - 1;
      && buckets[n].0 !in DaysOf(Flatten(buckets[..n]))
      && DaysOf(Flatten(buckets)) == DaysOf(Flatten(buckets[..n])) + {buckets[n].0}
  {
    var n := |buckets| - 1;
    var before, last := Flatten(buckets[..n]), buckets[n];
    BucketsPrefix(buckets);
    DayIsKey(buckets[..n], last.0);
    forall d ensures d in DaysOf(last.1) <==> d == last.0 { KeyOfBucket(last, d); }
    assert DaysOf(before + last.1) == DaysOf(before) + DaysOf(last.1);
    assert DaysOf(last.1) == {last.0};
  }

  lemma {:induction false} SameDays(rows: seq<Candle>, buckets: seq<Bucket>)
    requires GoodBuckets(buckets) && Flatten(buckets) == SortByTs(rows)
    ensures |buckets| == |DaysOf(rows)|
  {
    BucketCount(buckets);
    SameElements(rows, SortByTs(rows));
    assert DaysOf(rows) == DaysOf(SortByTs(rows));
  }

  /** The first day that is not written yet after `i` buckets. */
  function LimitAt(buckets: seq<Bucket>, i: nat): int
    requires i <= |buckets|
  {
    if buckets == [] then 0 else if i < |buckets| then buckets[i].0 else buckets[i - 1].0 + 1
  }

  ghost function DaysBelow(rows: seq<Candle>, limit: int): set<int> {
    set d | d in DaysOf(rows) && d < limit
  }

  /** Before the day of the next bucket lie as many days as buckets. */
  lemma {:induction false} DaysWritten(rows: seq<Candle>, buckets: seq<Bucket>, i: nat)
    requires GoodBuckets(buckets) && Flatten(buckets) == SortByTs(rows) && i <= |buckets|
    ensures |DaysBelow(rows, LimitAt(buckets, i))| == i
  {
    var part, limit := buckets[..i], LimitAt(buckets, i);
    SameElements(rows, SortByTs(rows));
    assert DaysOf(rows) == DaysOf(SortByTs(rows));
    assert forall j :: 0 <= j < i ==> part[j] == buckets[j];
    BucketCount(part);
    forall d ensures d in DaysOf(Flatten(part)) <==> d in DaysBelow(rows, limit) {
      DayIsKey(part, d);
      DayIsKey(buckets, d);
      KeyBelow(buckets, i, d);
    }
    assert DaysOf(Flatten(part)) == DaysBelow(rows, limit);
  }

  lemma {:induction false} KeyBelow(buckets: seq<Bucket>, i: nat, d: int)
    requires GoodBuckets(buckets) && i <= |buckets|
    ensures (exists j :: 0 <= j < i && buckets[j].0 == d) <==>
      d < LimitAt(buckets, i) && exists j :: 0 <= j < |buckets| && buckets[j].0 == d
  {
    forall j | 0 <= j < |buckets| ensures buckets[j].0 < LimitAt(buckets, i) <==> j < i {
      if i < |buckets| {
        assert j < i ==> buckets[j].0 < buckets[i].0;
        assert i < j ==> buckets[i].0 < buckets[j].0;
      } else {
        assert j < i - 1 ==> buckets[j].0 < buckets[i - 1].0;
      }
    }
  }

  lemma {:induction false} NothingBelow(shards: Shards, buckets: seq<Bucket>)
    requires GoodBuckets(buckets)
    ensures SavedBelow(shards, Flatten(buckets), LimitAt(buckets, 0), shards)
  {
    forall ts | ts in ToMap(Flatten(buckets)) ensures Day(ts) >= LimitAt(buckets, 0) {
      BucketOf(buckets, ts);
      var j :| 0 <= j < |buckets| && buckets[j].0 == Day(ts);
      assert j == 0 || buckets[0].0 < buckets[j].0;
    }
  }

  lemma {:induction false} AllBelow(buckets: seq<Bucket>, ts: int)
    requires GoodBuckets(buckets) && ts in ToMap(Flatten(buckets))
    ensures Day(ts) < LimitAt(buckets, |buckets|)
  {
    BucketOf(buckets, ts);
    var j :| 0 <= j < |buckets| && buckets[j].0 == Day(ts);
    assert j == |buckets| - 1 || buckets[j].0 < buckets[|buckets| - 1].0;
  }

  /** One shard write: the bucket merged over what the day holds. */
  function Flushed(shards: Shards, b: Bucket): Shards {
    shards[b.0 := MergeOverwrite(if b.0 in shards then shards[b.0] else [], b.1)]
  }

  /** Merging bucket `i` into its shard moves the limit on to the next day with rows. */
  lemma {:induction false} FlushOne(before: Shards, was: Shards, buckets: seq<Bucket>, i: nat)
    requires ValidShards(was) && GoodBuckets(buckets) && i < |buckets|
    requires SavedBelow(before, Flatten(buckets), LimitAt(buckets, i), was)
    ensures ValidShards(Flushed(was, buckets[i]))
    ensures AllStrict(was) && UniqueTs(buckets[i].1) ==> AllStrict(Flushed(was, buckets[i]))
    ensures SavedBelow(before, Flatten(buckets), LimitAt(buckets, i + 1), Flushed(was, buckets[i]))
  {
    var limit, next := LimitAt(buckets, i), LimitAt(buckets, i + 1);
    MergedShard(was, buckets[i]);
    var rows, after := Flatten(buckets), Flushed(was, buckets[i]);
    forall ts
      ensures Lookup(after, ts)
           == if ts in ToMap(rows) && Day(ts) < next then Some(ToMap(rows)[ts]) else Lookup(before, ts)
    {
      assert Lookup(was, ts)
          == if ts in ToMap(rows) && Day(ts) < limit then Some(ToMap(rows)[ts]) else Lookup(before, ts);
      assert i + 1 < |buckets| ==> buckets[i].0 < buckets[i + 1].0;
      if Day(ts) == limit {
        BucketLookup(buckets, i, ts);
      } else if ts in ToMap(rows) {
        NoDayBetween(buckets, i, ts);
      }
    }
  }

  /** The merged shard is valid and looks up the bucket's rows first. */
  lemma {:induction false} MergedShard(was: Shards, b: Bucket)
    requires ValidShards(was) && FieldSorted(b.1) && b.1 != []
    requires forall j :: 0 <= j < |b.1| ==> Day(b.1[j].ts) == b.0
    ensures ValidShards(Flushed(was, b))
    ensures AllStrict(was) && UniqueTs(b.1) ==> AllStrict(Flushed(was, b))
    ensures forall ts ::
      Lookup(Flushed(was, b), ts)
      == if Day(ts) == b.0 && ts in ToMap(b.1) then Some(ToMap(b.1)[ts]) else Lookup(was, ts)
  {
    var existing := if b.0 in was then was[b.0] else [];
    var merged := MergeOverwrite(existing, b.1);
    MergedRows(existing, b.1);
    MergedDays(merged, existing, b);
    ShardReplaced(was, b.0, merged);
    assert ToMap(existing) == if b.0 in was then ToMap(was[b.0]) else map[];
    forall ts | ts in ToMap(b.1) ensures Day(ts) == b.0 { ToMapKeys(b.1, ts); }
  }

  lemma {:induction false} ShardReplaced(was: Shards, d: int, shard: seq<Candle>)
    requires ValidShards(was) && FieldSorted(shard) && forall k :: 0 <= k < |shard| ==> Day(shard[k].ts) == d
    ensures ValidShards(was[d := shard])
    ensures AllStrict(was) && StrictTs(shard) ==> AllStrict(was[d := shard])
    ensures forall ts ::
      Lookup(was[d := shard], ts)
      == if Day(ts) != d then Lookup(was, ts) else if ts in ToMap(shard) then Some(ToMap(shard)[ts]) else None
  {}

  lemma {:induction false} MergedRows(existing: seq<Candle>, rows: seq<Candle>)
    requires FieldSorted(existing) && FieldSorted(rows) && rows != []
    ensures FieldSorted(MergeOverwrite(existing, rows))
    ensures ToMap(MergeOverwrite(existing, rows)) == ToMap(existing) + ToMap(rows)
    ensures UniqueTs(rows) ==> StrictTs(MergeOverwrite(existing, rows))
  {
    MergeIsOverride(existing, rows);
    if existing == [] {
      SortedCopyIdentity(rows);
    } else {
      StrictIsSorted(MergeOverwrite(existing, rows));
    }
  }

  lemma {:induction false} MergedDays(merged: seq<Candle>, existing: seq<Candle>, b: Bucket)
    requires ToMap(merged) == ToMap(existing) + ToMap(b.1)
    requires forall j :: 0 <= j < |b.1| ==> Day(b.1[j].ts) == b.0
    requires forall j :: 0 <= j < |existing| ==> Day(existing[j].ts) == b.0
    ensures forall k :: 0 <= k < |merged| ==> Day(merged[k].ts) == b.0
  {
    forall k | 0 <= k < |merged| ensures Day(merged[k].ts) == b.0 {
      ToMapKeys(merged, merged[k].ts);
      ToMapKeys(existing, merged[k].ts);
      ToMapKeys(b.1, merged[k].ts);
    }
  }

  lemma {:induction false} NoDayBetween(buckets: seq<Bucket>, i: nat, ts: int)
    requires GoodBuckets(buckets) && i < |buckets| && ts in ToMap(Flatten(buckets)) && Day(ts) != buckets[i].0
    ensures Day(ts) < buckets[i].0 || (i + 1 < |buckets| && buckets[i + 1].0 <= Day(ts))
  {
    BucketOf(buckets, ts);
    var j :| 0 <= j < |buckets| && buckets[j].0 == Day(ts);
    assert j < i ==> buckets[j].0 < buckets[i].0;
    assert j > i + 1 ==> buckets[i + 1].0 < buckets[j].0;
  }

  /** The rows read so far are in order, and of days before `day`. */
  ghost predicate LoadedInOrder(shards: Shards, day: int, rows: seq<Candle>) {
    && FieldSorted(rows) && (AllStrict(shards) ==> StrictTs(rows))
    && forall i :: 0 <= i < |rows| ==> Day(rows[i].ts) < day
  }

  /** They are what the days from `first` up to, not including, `day` store. */
  ghost predicate LoadedDays(shards: Shards, first: int, day: int, stored: map<int, Candle>) {
    && (forall ts :: ts in stored <==> first <= Day(ts) < day && Lookup(shards, ts).Some?)
    && (forall ts :: ts in stored ==> Lookup(shards, ts) == Some(stored[ts]))
  }

  lemma {:induction false} LoadOne(shards: Shards, day: int, first: int, rows: seq<Candle>)
    requires ValidShards(shards) && first <= day
    requires LoadedInOrder(shards, day, rows) && LoadedDays(shards, first, day, ToMap(rows))
    ensures var all := if day in shards then rows + shards[day] else rows;
      LoadedInOrder(shards, day + 1, all) && LoadedDays(shards, first, day + 1, ToMap(all))
  {
    if day in shards {
      var shard := shards[day];
      DayAfter(rows, shard, day);
      ToMapConcat(rows, shard);
      forall ts | ts in ToMap(shard) ensures Day(ts) == day { ToMapKeys(shard, ts); }
      LoadDay(shards, day, first, ToMap(rows));
    } else {
      assert forall ts :: Day(ts) == day ==> Lookup(shards, ts).None?;
    }
  }

  lemma {:induction false} DayAfter(rows: seq<Candle>, shard: seq<Candle>, day: int)
    requires forall i :: 0 <= i < |rows| ==> Day(rows[i].ts) < day
    requires forall j :: 0 <= j < |shard| ==> Day(shard[j].ts) == day
    ensures FieldSorted(rows) && FieldSorted(shard) ==> FieldSorted(rows + shard)
    ensures StrictTs(rows) && StrictTs(shard) ==> StrictTs(rows + shard)
    ensures forall i :: 0 <= i < |rows + shard| ==> Day((rows + shard)[i].ts) < day + 1
  {
    forall i, j | 0 <= i < |rows| && 0 <= j < |shard| ensures rows[i].ts < shard[j].ts {
      assert Day(rows[i].ts) < Day(shard[j].ts);
    }
    LaterRows(rows, shard);
  }

  lemma {:induction false} LoadDay(shards: Shards, day: int, first: int, stored: map<int, Candle>)
    requires day in shards && first <= day && LoadedDays(shards, first, day, stored)
    requires forall ts :: ts in ToMap(shards[day]) ==> Day(ts) == day
    ensures LoadedDays(shards, first, day + 1, stored + ToMap(shards[day]))
  {}

  lemma {:induction false} LaterRows(a: seq<Candle>, b: seq<Candle>)
    requires forall i, j :: 0 <= i < |a| && 0 <= j < |b| ==> a[i].ts < b[j].ts
    ensures FieldSorted(a) && FieldSorted(b) ==> FieldSorted(a + b)
    ensures StrictTs(a) && StrictTs(b) ==> StrictTs(a + b)
  {}

  class ShardStore {
    var shards: Shards

    ghost predicate Valid()
      reads this
    {
      ValidShards(shards)
    }

    constructor ()
      ensures Valid() && shards == map[]
    {
      shards := map[];
    }

    /**
     * Saves rows day by day (`_save_range_incremental`). `accepted` is how many shard writes the
     * disk takes before one fails; a failure leaves the days already written. Of two rows of one minute
     * the greater by fields counts; without such rows no shard gets any.
     */
    method SaveRange(rows: seq<Candle>, accepted: nat) returns (ok: bool, ghost limit: int)
      requires Valid()
      modifies this
      ensures Valid()
      ensures SavedBelow(old(shards), SortByTs(rows), limit, shards)
      ensures UniqueTs(rows) ==> SavedBelow(old(shards), rows, limit, shards)
      ensures UniqueTs(rows) && AllStrict(old(shards)) ==> AllStrict(shards)
      ensures ok <==> |DaysOf(rows)| <= accepted
      ensures ok ==> forall ts :: ts in ToMap(rows) ==> Day(ts) < limit
      ensures !ok ==> |DaysBelow(rows, limit)| == accepted
    {
      var sorted := SortByTs(rows);
      SortedByFields(rows);
      var buckets := CollectBuckets(sorted);
      SameDays(rows, buckets);
      ghost var before := shards;
      NothingBelow(before, buckets);
      for i := 0 to |buckets|
        invariant Valid() && i <= accepted
        invariant SavedBelow(before, sorted, LimitAt(buckets, i), shards)
        invariant UniqueTs(rows) && AllStrict(before) ==> AllStrict(shards)
      {
        if i >= accepted {
          DaysWritten(rows, buckets, i);
          return false, LimitAt(buckets, i);
        }
        FlushOne(before, shards, buckets, i);
        if UniqueTs(rows) { BucketUnique(buckets, i); }
        shards := Flushed(shards, buckets[i]);
      }
      ok, limit := true, LimitAt(buckets, |buckets|);
      forall ts | ts in ToMap(rows) ensures Day(ts) < limit {
        SameKeys(rows, sorted, ts);
        AllBelow(buckets, ts);
      }
    }

    /** Reads the shards of days `first .. last` back, in date order. */
    method Load(first: int, last: int) returns (rows: seq<Candle>)
      requires Valid()
      ensures SortedTs(rows) && (AllStrict(shards) ==> StrictTs(rows))
      ensures forall ts :: ts in ToMap(rows) <==> first <= Day(ts) <= last && Lookup(shards, ts).Some?
      ensures forall ts :: ts in ToMap(rows) ==> Lookup(shards, ts) == Some(ToMap(rows)[ts])
    {
      rows := [];
      var day := first;
      while day <= last
        invariant first <= day && if first <= last then day <= last + 1 else day == first
        invariant LoadedInOrder(shards, day, rows) && LoadedDays(shards, first, day, ToMap(rows))
      {
        LoadOne(shards, day, first, rows);
        if day in shards {
          rows := rows + shards[day];
        }
        day := day + 1;
      }
      SortedCopyIdentity(rows);
      rows := SortedCandleCopy(rows);
    }
  }

  lemma {:induction false} SameKeys(rows: seq<Candle>, sorted: seq<Candle>, ts: int)
    requires multiset(rows) == multiset(sorted) && ts in ToMap(rows)
    ensures ts in ToMap(sorted)
  {
    ToMapKeys(rows, ts);
    SameElements(rows, sorted);
    var k :| 0 <= k < |sorted| && sorted[k] == ToMap(rows)[ts];
    ToMapKeys(sorted, ts);
    assert sorted[k].ts == ts;
  }

  /** A bucket of rows without duplicates has none. */
  lemma {:induction false} BucketUnique(buckets: seq<Bucket>, i: nat)
    requires i < |buckets| && UniqueTs(Flatten(buckets))
    ensures UniqueTs(buckets[i].1)
  {
    var n := |buckets| - 1;
    var init := Flatten(buckets[..n]);
    assert Flatten(buckets) == init + buckets[n].1;
    if i < n {
      UniquePart(init, [], buckets[n].1);
      assert [] + init + buckets[n].1 == Flatten(buckets);
      BucketUnique(buckets[..n], i);
    } else {
      UniquePart(buckets[n].1, init, []);
      assert init + buckets[n].1 + [] == Flatten(buckets);
    }
  }

  lemma {:induction false} UniquePart(part: seq<Candle>, before: seq<Candle>, after: seq<Candle>)
    ensures UniqueTs(before + part + after) ==> UniqueTs(part)
  {
    var all := before + part + after;
    if UniqueTs(all) {
      forall i, j | 0 <= i < j < |part| ensures part[i].ts != part[j].ts {
        assert all[|before| + i].ts != all[|before| + j].ts;
      }
    }
  }
}
