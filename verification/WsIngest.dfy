/**
 * Admission of live WebSocket candles. A frame of rows is compared with the frame before it; only
 * rows proven final by a fresh successor extend history, and disk is written before memory.
 */
module WsIngest {
  import opened Wrappers
  import opened Minutes
  import opened Candles
  import opened ShardStores

  const OBSERVATION_RETENTION_MS: int := 2 * 60 * 60_000

  /** A row of the last frame, and whether a fresh successor may seal it. */
  datatype Observation = Observation(row: Candle, eligible: bool)

  type Frame = map<int, Observation>

  /**
   * One symbol's candles: memory, the primary shards and the legacy shards on disk, the frame of the
   * running watcher session, and the last final timestamp kept in the index.
   */
  datatype Store = Store(
    cache: map<int, Candle>,
    primary: map<int, Candle>,
    legacy: map<int, Candle>,
    observations: Option<Frame>,
    lastFinalTs: int)

  /**
   * What the environment decides in one call: the clock, the range of the strict disk read (the first
   * and last candidate in dictionary order), and which disk operations fail. `writesFailFrom` is the
   * first day whose shard cannot be saved.
   */
  datatype Env = Env(
    now: int,
    readFrom: int,
    readTo: int,
    readFails: bool,
    writesFailFrom: Option<int>,
    readBackFails: bool)

  datatype Failure = ReadFailed | WriteFailed | ReadBackFailed | VerificationFailed

  function LatestFinalized(now: int): int { FloorMinute(now) - ONE_MIN_MS }

  predicate Recent(now: int, ts: int) {
    ts >= LatestFinalized(now) - OBSERVATION_RETENTION_MS + ONE_MIN_MS
  }

  /** The rows of a frame that are not too old, by timestamp. */
  function FrameRows(arr: seq<Candle>, now: int): map<int, Candle> {
    map ts | ts in ToMap(arr) && Recent(now, ts) :: ToMap(arr)[ts]
  }

  function FrameOf(observations: Option<Frame>): Frame {
    if observations.Some? then observations.value else map[]
  }

  /** New, or different from the frame before. */
  predicate Fresh(previous: Frame, rows: map<int, Candle>, ts: int) {
    ts in rows && (ts !in previous || previous[ts].row != rows[ts])
  }

  /** The first frame of a session trusts only rows still open; later frames trust what changed or was trusted. */
  predicate Eligible(observations: Option<Frame>, rows: map<int, Candle>, now: int, ts: int)
    requires ts in rows
  {
    if observations.None? then now < ts + ONE_MIN_MS
    else Fresh(observations.value, rows, ts) || observations.value[ts].eligible
  }

  function NextFrame(observations: Option<Frame>, rows: map<int, Candle>, now: int): Frame {
    map ts | ts in rows :: Observation(rows[ts], Eligible(observations, rows, now, ts))
  }

  /** A trusted row of the frame before whose next minute is fresh now. */
  predicate Proven(previous: Frame, rows: map<int, Candle>, ts: int) {
    ts in previous && previous[ts].eligible && Fresh(previous, rows, ts + ONE_MIN_MS)
  }

  /** Rows that may be persisted: the frame's fresh rows and the proven rows, none of an open minute. */
  function CandidateRows(previous: Frame, rows: map<int, Candle>, now: int): map<int, Candle> {
    map ts | ts in rows.Keys + previous.Keys
      && (Fresh(previous, rows, ts) || Proven(previous, rows, ts)) && ts <= LatestFinalized(now)
    :: if ts in rows then rows[ts] else previous[ts].row
  }

  // ---------- disk ----------

  function MinuteOfDay(day: int, minute: int): int { day * DAY_MS + minute * ONE_MIN_MS }

  /** The legacy shard of the day holds exactly the day's 1440 minutes. */
  predicate LegacyComplete(legacy: map<int, Candle>, day: int) {
    && (forall minute :: 0 <= minute < 1440 ==> MinuteOfDay(day, minute) in legacy)
    && forall ts :: ts in legacy && Day(ts) == day ==> Aligned(ts)
  }

  /** What a read of the disk shows: a legacy row wins, and a complete legacy day hides the primary shard. */
  function Visible(primary: map<int, Candle>, legacy: map<int, Candle>): map<int, Candle> {
    (map ts | ts in primary && !LegacyComplete(legacy, Day(ts)) :: primary[ts]) + legacy
  }

  function Disk(st: Store): map<int, Candle> { Visible(st.primary, st.legacy) }

  /** Shards of the days from `from`'s up to the last that starts by `to`. */
  function OnDays(disk: map<int, Candle>, from: int, to: int): map<int, Candle> {
    map ts | ts in disk && Day(from) <= Day(ts) && Day(ts) * DAY_MS <= to :: disk[ts]
  }

  function CacheAfterRead(st: Store, env: Env): map<int, Candle> {
    st.cache + OnDays(Disk(st), env.readFrom, env.readTo)
  }

  /** The canonical rows the call compares with. */
  function Canonical(st: Store, env: Env): map<int, Candle> {
    if OnDays(Disk(st), env.readFrom, env.readTo) == map[]
    then map ts | ts in st.cache && env.readFrom <= ts <= env.readTo :: st.cache[ts]
    else CacheAfterRead(st, env)
  }

  /** What is persisted: corrections of canonical rows, and new rows only when proven. */
  function AcceptedRows(st: Store, arr: seq<Candle>, env: Env): map<int, Candle> {
    var previous, rows := FrameOf(st.observations), FrameRows(arr, env.now);
    var candidates, canonical := CandidateRows(previous, rows, env.now), Canonical(st, env);
    map ts | ts in candidates
      && (ts in canonical || Proven(previous, rows, ts))
      && (ts !in canonical || canonical[ts] != candidates[ts])
    :: candidates[ts]
  }

  predicate WriteStops(env: Env, rows: map<int, Candle>) {
    env.writesFailFrom.Some? && exists ts :: ts in rows && Day(ts) >= env.writesFailFrom.value
  }

  /** The rows that reach a primary shard: days in order up to the failing one, complete legacy days skipped. */
  function SavedRows(legacy: map<int, Candle>, env: Env, rows: map<int, Candle>): map<int, Candle> {
    map ts | ts in rows && !LegacyComplete(legacy, Day(ts))
      && (env.writesFailFrom.Some? ==> Day(ts) < env.writesFailFrom.value) :: rows[ts]
  }

  /** All rows of the shards that were rewritten. */
  function RewrittenKeys(primary: map<int, Candle>, saved: map<int, Candle>): set<int> {
    set ts, s | ts in primary + saved && s in saved && Day(s) == Day(ts) :: ts
  }

  /** The later of `floor` and the latest key. */
  ghost predicate IsLatest(floor: int, keys: set<int>, r: int) {
    r >= floor && (forall k :: k in keys ==> k <= r) && (r == floor || r in keys)
  }

  lemma {:induction false} LatestStep(floor: int, seen: set<int>, r: int, k: int)
    requires IsLatest(floor, seen, r)
    ensures IsLatest(floor, seen + {k}, Max(r, k))
  {}

  lemma {:induction false} AnyOf<T>(s: set<T>) returns (x: T)
    requires s != {}
    ensures x in s
  {
    x :| x in s;
  }

  lemma {:induction false} LatestExists(floor: int, keys: set<int>) returns (r: int)
    ensures IsLatest(floor, keys, r)
    decreases |keys|
  {
    r := floor;
    if keys != {} {
      var k := AnyOf(keys);
      var earlier := LatestExists(floor, keys - {k});
      LatestStep(floor, keys - {k}, earlier, k);
      assert keys - {k} + {k} == keys;
      r := Max(earlier, k);
    }
  }

  lemma {:induction false} LatestUnique(floor: int, keys: set<int>, r: int)
    requires IsLatest(floor, keys, r)
    ensures r == Latest(floor, keys)
  {}

  ghost function Latest(floor: int, keys: set<int>): (r: int)
    ensures IsLatest(floor, keys, r)
  {
    assert exists r :: IsLatest(floor, keys, r) by { var r := LatestExists(floor, keys); }
    var r :| IsLatest(floor, keys, r);
    r
  }

  /** The store after the save: new primary rows, and the index no later than the last row of a rewritten shard. */
  ghost function Saved(st: Store, env: Env, rows: map<int, Candle>): Store {
    var saved := SavedRows(st.legacy, env, rows);
    st.(primary := st.primary + saved, lastFinalTs := Latest(st.lastFinalTs, RewrittenKeys(st.primary, saved)))
  }

  predicate ReadsBack(disk: map<int, Candle>, rows: map<int, Candle>) {
    forall ts :: ts in rows ==> ts in disk && disk[ts] == rows[ts]
  }

  /** `_persist_batch` for WebSocket rows: save, read back, compare, and only then memory. */
  ghost function Persisted(st: Store, env: Env, rows: map<int, Candle>): (Store, Option<Failure>) {
    var saved := Saved(st, env, rows);
    if WriteStops(env, rows) then (saved, Some(WriteFailed))
    else if env.readBackFails then (saved, Some(ReadBackFailed))
    else if !ReadsBack(Disk(saved), rows) then (saved, Some(VerificationFailed))
    else (saved.(cache := saved.cache + rows), None)
  }

  /** The whole call: the new store and the number of rows persisted, or the failure. */
  ghost function Ingested(st: Store, arr: seq<Candle>, env: Env): (Store, Result<nat, Failure>) {
    var rows := FrameRows(arr, env.now);
    if LatestFinalized(env.now) < 0 || rows == map[] then (st, Ok(0))
    else
      var committed := st.(observations := Some(NextFrame(st.observations, rows, env.now)));
      if st.observations.None? || st.lastFinalTs <= 0
         || CandidateRows(st.observations.value, rows, env.now) == map[] then (committed, Ok(0))
      else if env.readFails then (st, Err(ReadFailed))
      else
        var read := st.(cache := CacheAfterRead(st, env));
        var accepted := AcceptedRows(st, arr, env);
        if accepted == map[] then (read.(observations := committed.observations), Ok(0))
        else
          var (after, failure) := Persisted(read, env, accepted);
          match failure
          case Some(f) => (after, Err(f))
          case None => (after.(observations := committed.observations), Ok(|accepted|))
  }

  // ---------- the live object ----------

  class CandleFeed {
    var cache: map<int, Candle>
    var primary: map<int, Candle>
    var legacy: map<int, Candle>
    var observations: Option<Frame>
    var lastFinalTs: int

    ghost function State(): Store
      reads this
    {
      Store(cache, primary, legacy, observations, lastFinalTs)
    }

    constructor (legacy: map<int, Candle>)
      ensures State() == Store(map[], map[], legacy, None, 0)
    {
      cache, primary, this.legacy, observations, lastFinalTs := map[], map[], legacy, None, 0;
    }

    /** `clear_live_ws_ohlcv_state`: the watcher session ends, no candle is touched. */
    method ClearSession()
      modifies this`observations
      ensures State() == old(State()).(observations := None)
    {
      observations := None;
    }

    /** Writes the primary shards and advances the index to the last row of each (`_save_shard`). */
    method SaveRows(rows: map<int, Candle>, env: Env)
      modifies this`primary, this`lastFinalTs
      ensures State() == Saved(old(State()), env, rows)
    {
      var saved := SavedRows(legacy, env, rows);
      var keys := RewrittenKeys(primary, saved);
      primary := primary + saved;
      ghost var floor, all, seen := lastFinalTs, keys, {};
      while keys != {}
        invariant seen + keys == all && IsLatest(floor, seen, lastFinalTs)
        invariant primary == old(primary) + saved
      {
        var k: int :| k in keys;
        LatestStep(floor, seen, lastFinalTs, k);
        keys, seen := keys - {k}, seen + {k};
        lastFinalTs := Max(lastFinalTs, k);
      }
      LatestUnique(floor, all, lastFinalTs);
    }

    /**
     * Disk first, memory only after the rows were read back equal: a failure leaves memory as it was,
     * and without one every row is what a read of the disk shows.
     */
    method PersistBatch(rows: map<int, Candle>, env: Env) returns (failure: Option<Failure>)
      modifies this`cache, this`primary, this`lastFinalTs
      ensures (State(), failure) == Persisted(old(State()), env, rows)
      ensures failure.Some? ==> cache == old(cache)
      ensures failure.None? ==> cache == old(cache) + rows && ReadsBack(Visible(primary, legacy), rows)
    {
      SaveRows(rows, env);
      if WriteStops(env, rows) {
        return Some(WriteFailed);
      }
      if env.readBackFails {
        return Some(ReadBackFailed);
      }
      if !ReadsBack(Visible(primary, legacy), rows) {
        return Some(VerificationFailed);
      }
      cache := cache + rows;
      return None;
    }

    /** `ingest_live_ws_ohlcv` on the normalised rows of one update. */
    method Ingest(arr: seq<Candle>, env: Env) returns (r: Result<nat, Failure>)
      requires StrictTs(arr)
      modifies this
      ensures (State(), r) == Ingested(old(State()), arr, env)
    {
      if LatestFinalized(env.now) < 0 {
        return Ok(0);
      }
      var rows, current, changed := ObserveFrame(observations, arr, env.now);
      if rows == map[] {
        return Ok(0);
      }
      if observations.None? {
        observations := Some(current);
        return Ok(0);
      }
      var candidates := FindCandidates(observations.value, rows, changed, env.now);
      if lastFinalTs <= 0 || candidates == map[] {
        observations := Some(current);
        return Ok(0);
      }
      if env.readFails {
        return Err(ReadFailed);
      }
      ghost var st := State();
      var canonical := Canonical(Store(cache, primary, legacy, observations, lastFinalTs), env);
      cache := cache + OnDays(Visible(primary, legacy), env.readFrom, env.readTo);
      var previous := observations.value;
      var accepted := map ts | ts in candidates
        && (ts in canonical || Proven(previous, rows, ts))
        && (ts !in canonical || canonical[ts] != candidates[ts])
      :: candidates[ts];
      assert accepted == AcceptedRows(st, arr, env);
      if accepted == map[] {
        observations := Some(current);
        return Ok(0);
      }
      var failure := PersistBatch(accepted, env);
      if failure.Some? {
        return Err(failure.value);
      }
      observations := Some(current);
      return Ok(|accepted|);
    }
  }

  lemma {:induction false} FrameRowsStep(arr: seq<Candle>, i: nat, now: int)
    requires StrictTs(arr) && i < |arr|
    ensures arr[i].ts !in FrameRows(arr[..i], now)
    ensures FrameRows(arr[..i + 1], now)
         == if Recent(now, arr[i].ts) then FrameRows(arr[..i], now)[arr[i].ts := arr[i]] else FrameRows(arr[..i], now)
  {
    assert arr[..i + 1][..i] == arr[..i];
    ToMapKeys(arr[..i], arr[i].ts);
  }

  lemma {:induction false} NextFrameStep(observations: Option<Frame>, rows: map<int, Candle>, row: Candle, now: int)
    ensures var more := rows[row.ts := row];
      NextFrame(observations, more, now)
      == NextFrame(observations, rows, now)[row.ts := Observation(row, Eligible(observations, more, now, row.ts))]
  {}

  /** The first loop: the recent rows, the new frame, and which rows are new or changed. */
  method ObserveFrame(observations: Option<Frame>, arr: seq<Candle>, now: int)
    returns (rows: map<int, Candle>, current: Frame, changed: seq<int>)
    requires StrictTs(arr)
    ensures rows == FrameRows(arr, now)
    ensures current == NextFrame(observations, rows, now)
    ensures forall ts :: ts in changed <==> Fresh(FrameOf(observations), rows, ts)
  {
    rows, current, changed := map[], map[], [];
    var previous := FrameOf(observations);
    for i := 0 to |arr|
      invariant rows == FrameRows(arr[..i], now)
      invariant current == NextFrame(observations, rows, now)
      invariant forall ts :: ts in changed <==> Fresh(previous, rows, ts)
    {
      FrameRowsStep(arr, i, now);
      var row := arr[i];
      if Recent(now, row.ts) {
        rows := rows[row.ts := row];
        NextFrameStep(observations, FrameRows(arr[..i], now), row, now);
        var isFresh := row.ts !in previous || previous[row.ts].row != row;
        if isFresh {
          changed := changed + [row.ts];
        }
        var eligible := if observations.None? then now < row.ts + ONE_MIN_MS else isFresh || previous[row.ts].eligible;
        current := current[row.ts := Observation(row, eligible)];
      }
    }
    assert arr[..|arr|] == arr;
  }

  /** The second loop: predecessors that fresh rows seal, also those the frame no longer repeats. */
  method FindCandidates(previous: Frame, rows: map<int, Candle>, changed: seq<int>, now: int)
    returns (candidates: map<int, Candle>)
    requires forall ts :: ts in changed <==> Fresh(previous, rows, ts)
    ensures candidates == CandidateRows(previous, rows, now)
  {
    var all := rows;
    var proven: set<int> := {};
    for k := 0 to |changed|
      invariant forall ts :: ts in proven <==>
        ts in previous && previous[ts].eligible && ts + ONE_MIN_MS in changed[..k]
      invariant forall ts :: ts in all <==> ts in rows || ts in proven
      invariant forall ts :: ts in all ==> all[ts] == if ts in rows then rows[ts] else previous[ts].row
    {
      var predecessor := changed[k] - ONE_MIN_MS;
      assert changed[..k + 1] == changed[..k] + [changed[k]];
      if predecessor in previous && previous[predecessor].eligible {
        proven := proven + {predecessor};
        if predecessor !in all {
          all := all[predecessor := previous[predecessor].row];
        }
      }
    }
    assert changed[..|changed|] == changed;
    candidates := map ts | ts in all && ts <= LatestFinalized(now) && (ts in changed || ts in proven) :: all[ts];
  }

  // ---------- one call ----------

  lemma {:induction false} CanonicalKeys(st: Store, env: Env)
    ensures forall ts :: ts in Canonical(st, env) ==> ts in st.cache || ts in Disk(st)
    ensures forall ts :: ts in Canonical(st, env) ==>
      ts in CacheAfterRead(st, env) && Canonical(st, env)[ts] == CacheAfterRead(st, env)[ts]
  {
    if OnDays(Disk(st), env.readFrom, env.readTo) == map[] {
      assert CacheAfterRead(st, env) == st.cache;
    }
  }

  /** What a save adds to the visible disk: the saved rows of minutes without a legacy row. */
  lemma {:induction false} VisibleAfterSave(primary: map<int, Candle>, legacy: map<int, Candle>, env: Env,
                                            rows: map<int, Candle>)
    ensures var saved := SavedRows(legacy, env, rows);
      Visible(primary + saved, legacy) == Visible(primary, legacy) + map ts | ts in saved && ts !in legacy :: saved[ts]
  {}

  /** The call gets as far as saving rows. */
  ghost predicate Persisting(st: Store, arr: seq<Candle>, env: Env) {
    && LatestFinalized(env.now) >= 0 && st.observations.Some? && st.lastFinalTs > 0
    && !env.readFails && AcceptedRows(st, arr, env) != map[]
  }

  /** Rows are accepted only from a frame with candidates. */
  lemma {:induction false} AcceptedHaveCandidates(st: Store, arr: seq<Candle>, env: Env)
    requires st.observations.Some? && AcceptedRows(st, arr, env) != map[]
    ensures FrameRows(arr, env.now) != map[]
    ensures CandidateRows(st.observations.value, FrameRows(arr, env.now), env.now) != map[]
  {}

  /** A call that saves does as `Persisted` says on what the strict read left in memory. */
  lemma {:induction false} PersistingCall(st: Store, arr: seq<Candle>, env: Env)
    requires Persisting(st, arr, env)
    ensures var (after, failure) := Persisted(st.(cache := CacheAfterRead(st, env)), env, AcceptedRows(st, arr, env));
      Ingested(st, arr, env) == match failure
        case Some(f) => (after, Err(f))
        case None =>
          (after.(observations := Some(NextFrame(st.observations, FrameRows(arr, env.now), env.now))),
           Ok(|AcceptedRows(st, arr, env)|))
  {
    AcceptedHaveCandidates(st, arr, env);
  }

  /** Any other call leaves the disk and the index, and memory gains at most what the read brought. */
  lemma {:induction false} IdleCall(st: Store, arr: seq<Candle>, env: Env)
    requires !Persisting(st, arr, env)
    ensures var (after, r) := Ingested(st, arr, env);
      && after.primary == st.primary && after.legacy == st.legacy && after.lastFinalTs == st.lastFinalTs
      && (after.cache == st.cache || after.cache == CacheAfterRead(st, env))
      && (r.Err? ==> after == st && r.error == ReadFailed && env.readFails)
  {}

  /** The disk after a call: as before, or with part of the accepted rows saved. */
  lemma {:induction false} StoreAfter(st: Store, arr: seq<Candle>, env: Env)
    ensures var after := Ingested(st, arr, env).0;
      && after.legacy == st.legacy
      && (|| (after.primary == st.primary && after.lastFinalTs == st.lastFinalTs)
          || (&& Persisting(st, arr, env)
              && var saved := Saved(st, env, AcceptedRows(st, arr, env));
              && after.primary == saved.primary && after.lastFinalTs == saved.lastFinalTs))
  {
    if Persisting(st, arr, env) {
      PersistingCall(st, arr, env);
      SavedIgnoresCache(st, CacheAfterRead(st, env), env, AcceptedRows(st, arr, env));
      PersistedStore(st.(cache := CacheAfterRead(st, env)), env, AcceptedRows(st, arr, env));
    } else {
      IdleCall(st, arr, env);
    }
  }

  lemma {:induction false} SavedIgnoresCache(st: Store, cache: map<int, Candle>, env: Env, rows: map<int, Candle>)
    ensures Saved(st.(cache := cache), env, rows) == Saved(st, env, rows).(cache := cache)
  {}

  lemma {:induction false} PersistedStore(st: Store, env: Env, rows: map<int, Candle>)
    ensures var (after, failure) := Persisted(st, env, rows);
      && after.(cache := st.cache) == Saved(st, env, rows) && after.legacy == st.legacy
      && after.observations == st.observations && after.lastFinalTs >= st.lastFinalTs
      && after.cache == if failure.Some? then st.cache else st.cache + rows
  {}

  /**
   * Whatever a call changes on disk are accepted rows of minutes that are over, in a primed session with
   * a basis, and nothing on disk disappears.
   */
  lemma {:induction false} DiskChanges(st: Store, arr: seq<Candle>, env: Env)
    ensures var before, after := Disk(st), Disk(Ingested(st, arr, env).0);
      && (after != before ==> st.observations.Some? && st.lastFinalTs > 0)
      && (forall ts :: ts in before ==> ts in after)
      && (forall ts :: ts in after && (ts !in before || after[ts] != before[ts]) ==>
            && ts in AcceptedRows(st, arr, env) && after[ts] == AcceptedRows(st, arr, env)[ts]
            && ts <= LatestFinalized(env.now))
  {
    StoreAfter(st, arr, env);
    VisibleAfterSave(st.primary, st.legacy, env, AcceptedRows(st, arr, env));
  }

  /** The index never falls back, and no row that was newly written lies behind it. */
  lemma {:induction false} LastFinalAdvances(st: Store, arr: seq<Candle>, env: Env)
    ensures var after := Ingested(st, arr, env).0;
      && after.lastFinalTs >= st.lastFinalTs
      && (after.lastFinalTs > st.lastFinalTs ==> after.lastFinalTs in after.primary)
      && forall ts, k ::
           && ts in after.primary && (ts !in st.primary || after.primary[ts] != st.primary[ts])
           && k in after.primary && Day(k) == Day(ts) ==>
           k <= after.lastFinalTs
  {
    StoreAfter(st, arr, env);
    var saved := SavedRows(st.legacy, env, AcceptedRows(st, arr, env));
    var after := Ingested(st, arr, env).0;
    forall ts, k |
      && ts in after.primary && (ts !in st.primary || after.primary[ts] != st.primary[ts])
      && k in after.primary && Day(k) == Day(ts)
      ensures k <= after.lastFinalTs
    {
      RewrittenCovers(st, saved, ts, k);
    }
  }

  lemma {:induction false} RewrittenCovers(st: Store, saved: map<int, Candle>, ts: int, k: int)
    requires ts in saved && k in st.primary + saved && Day(k) == Day(ts)
    ensures k <= Latest(st.lastFinalTs, RewrittenKeys(st.primary, saved))
  {
    assert k in RewrittenKeys(st.primary, saved);
  }

  /**
   * A minute that is not canonical yet is persisted only when the frame before held it as eligible and
   * this frame carries a new or changed row for the next minute; it is over, and history has a basis.
   */
  lemma {:induction false} ExtensionIsProven(st: Store, arr: seq<Candle>, env: Env, ts: int)
    requires ts !in st.cache && ts !in Disk(st) && ts in Disk(Ingested(st, arr, env).0)
    ensures st.observations.Some? && st.lastFinalTs > 0
    ensures Proven(st.observations.value, FrameRows(arr, env.now), ts)
    ensures ts + ONE_MIN_MS <= FloorMinute(env.now)
    ensures Disk(Ingested(st, arr, env).0)[ts]
         == if ts in FrameRows(arr, env.now) then FrameRows(arr, env.now)[ts] else st.observations.value[ts].row
  {
    DiskChanges(st, arr, env);
    CanonicalKeys(st, env);
  }

  /** The first frame of a session and a store without a basis never write, to disk or to memory. */
  lemma {:induction false} ColdStartWritesNothing(st: Store, arr: seq<Candle>, env: Env)
    requires st.observations.None? || st.lastFinalTs <= 0
    ensures var (after, r) := Ingested(st, arr, env);
      r == Ok(0) && after.(observations := None) == st.(observations := None)
  {}

  /** Where each row in memory comes from after a call. */
  lemma {:induction false} WriteAhead(st: Store, arr: seq<Candle>, env: Env, ts: int)
    requires ts in Ingested(st, arr, env).0.cache
    ensures var (after, r) := Ingested(st, arr, env);
      || (ts in st.cache && after.cache[ts] == st.cache[ts])
      || (ts in Disk(st) && after.cache[ts] == Disk(st)[ts])
      || (r.Ok? && ts in Disk(after) && after.cache[ts] == Disk(after)[ts])
  {
    if ts in CacheAfterRead(st, env) { ReadRow(st, env, ts); }
    if Persisting(st, arr, env) {
      PersistingCall(st, arr, env);
      PersistedRow(st.(cache := CacheAfterRead(st, env)), env, AcceptedRows(st, arr, env), ts);
    } else {
      IdleCall(st, arr, env);
    }
  }

  lemma {:induction false} ReadRow(st: Store, env: Env, ts: int)
    requires ts in CacheAfterRead(st, env)
    ensures (ts in st.cache && CacheAfterRead(st, env)[ts] == st.cache[ts])
      || (ts in Disk(st) && CacheAfterRead(st, env)[ts] == Disk(st)[ts])
  {}

  lemma {:induction false} PersistedRow(st: Store, env: Env, rows: map<int, Candle>, ts: int)
    requires ts in Persisted(st, env, rows).0.cache
    ensures var (after, failure) := Persisted(st, env, rows);
      || (ts in st.cache && after.cache[ts] == st.cache[ts])
      || (failure.None? && ts in Disk(after) && after.cache[ts] == Disk(after)[ts])
  {}

  /** A failed call leaves the frame as it was, and only older disk rows may have come into memory. */
  lemma {:induction false} FailureIsRetryable(st: Store, arr: seq<Candle>, env: Env)
    requires Ingested(st, arr, env).1.Err?
    ensures var after := Ingested(st, arr, env).0;
      && after.observations == st.observations && after.lastFinalTs >= st.lastFinalTs
      && (after.cache == st.cache || after.cache == CacheAfterRead(st, env))
  {
    if Persisting(st, arr, env) { PersistingFails(st, arr, env); } else { IdleCall(st, arr, env); }
  }

  lemma {:induction false} PersistingFails(st: Store, arr: seq<Candle>, env: Env)
    requires Persisting(st, arr, env) && Ingested(st, arr, env).1.Err?
    ensures var after := Ingested(st, arr, env).0;
      && after.observations == st.observations && after.lastFinalTs >= st.lastFinalTs
      && after.cache == CacheAfterRead(st, env)
  {
    PersistingCall(st, arr, env);
    PersistedStore(st.(cache := CacheAfterRead(st, env)), env, AcceptedRows(st, arr, env));
  }

  lemma {:induction false} CompleteDayHas(legacy: map<int, Candle>, ts: int)
    requires Aligned(ts) && LegacyComplete(legacy, Day(ts))
    ensures ts in legacy
  {
    var minute := ts / 60_000 - Day(ts) * 1440;
    assert ts == ts / 60_000 * 60_000;
    assert 0 <= minute < 1440 && MinuteOfDay(Day(ts), minute) == ts;
  }

  /** A legacy day is complete when it holds the aligned times of the day and no other. */
  lemma {:induction false} CompleteExactly(legacy: map<int, Candle>, day: int)
    ensures LegacyComplete(legacy, day) <==> forall ts :: Day(ts) == day ==> (ts in legacy <==> Aligned(ts))
  {
    if LegacyComplete(legacy, day) {
      forall ts | Day(ts) == day && Aligned(ts) ensures ts in legacy { CompleteDayHas(legacy, ts); }
    }
    forall minute | 0 <= minute < 1440
      ensures Day(MinuteOfDay(day, minute)) == day && Aligned(MinuteOfDay(day, minute))
    {
      MinuteIsOfDay(day, minute);
    }
  }

  lemma {:induction false} MinuteIsOfDay(day: int, minute: int)
    requires 0 <= minute < 1440
    ensures Day(MinuteOfDay(day, minute)) == day && Aligned(MinuteOfDay(day, minute))
  {
    var ts := MinuteOfDay(day, minute);
    assert ts == (day * 1440 + minute) * 60_000;
  }

  /** A save that fails at a day keeps the days before it, less the complete legacy days, and nothing else changes. */
  lemma {:induction false} StoppedSave(st: Store, env: Env, rows: map<int, Candle>, day: int, ts: int)
    requires env.writesFailFrom == Some(day)
    ensures var (after, failure) := Persisted(st, env, rows);
      && (failure == Some(WriteFailed) <==> exists t :: t in rows && day * DAY_MS <= t)
      && var written := ts in rows && ts < day * DAY_MS && !LegacyComplete(st.legacy, Day(ts));
      && (ts in after.primary <==> written || ts in st.primary)
      && (ts in after.primary ==> after.primary[ts] == if written then rows[ts] else st.primary[ts])
  {
    PersistedStore(st, env, rows);
    forall t ensures Day(t) < day <==> t < day * DAY_MS {}
  }

  predicate WithoutFaults(env: Env) { !env.readFails && env.writesFailFrom.None? && !env.readBackFails }

  /** No accepted minute has another row in a legacy shard, complete or not. */
  predicate LegacyAgrees(st: Store, accepted: map<int, Candle>) {
    forall ts :: ts in accepted && ts in st.legacy ==> st.legacy[ts] == accepted[ts]
  }

  /**
   * Without faults a primed call on minute rows succeeds exactly when no accepted minute has another row
   * in a legacy shard; otherwise the read-back comparison fails.
   */
  lemma {:induction false} SucceedsIffLegacyAgrees(st: Store, arr: seq<Candle>, env: Env)
    requires WithoutFaults(env) && LatestFinalized(env.now) >= 0 && st.observations.Some? && st.lastFinalTs > 0
    requires forall ts :: ts in AcceptedRows(st, arr, env) ==> Aligned(ts)
    ensures Ingested(st, arr, env).1.Ok? <==> LegacyAgrees(st, AcceptedRows(st, arr, env))
    ensures Ingested(st, arr, env).1.Err? ==> Ingested(st, arr, env).1.error == VerificationFailed
  {
    var accepted := AcceptedRows(st, arr, env);
    SavedReadsBack(st.(cache := CacheAfterRead(st, env)), env, accepted);
    if Persisting(st, arr, env) { PersistingCall(st, arr, env); } else { IdleCall(st, arr, env); }
  }

  lemma {:induction false} SavedReadsBack(st: Store, env: Env, rows: map<int, Candle>)
    requires env.writesFailFrom.None? && forall ts :: ts in rows ==> Aligned(ts)
    ensures ReadsBack(Disk(Saved(st, env, rows)), rows) <==> LegacyAgrees(st, rows)
  {
    var disk := Disk(Saved(st, env, rows));
    forall ts | ts in rows
      ensures ts in disk && disk[ts] == if ts in st.legacy then st.legacy[ts] else rows[ts]
    {
      SavedRowShows(st, env, rows, ts);
    }
  }

  /** After a save without faults a minute shows its legacy row, if there is one, and else the saved row. */
  lemma {:induction false} SavedRowShows(st: Store, env: Env, rows: map<int, Candle>, ts: int)
    requires env.writesFailFrom.None? && ts in rows && Aligned(ts)
    ensures var disk := Disk(Saved(st, env, rows));
      ts in disk && disk[ts] == if ts in st.legacy then st.legacy[ts] else rows[ts]
  {
    VisibleAfterSave(st.primary, st.legacy, env, rows);
    if LegacyComplete(st.legacy, Day(ts)) { CompleteDayHas(st.legacy, ts); }
  }

  /** One legacy row on an incomplete day refuses a correction of its minute. */
  lemma {:induction false} PartialLegacyDayRefuses(legacyRow: Candle, correction: Candle)
    requires legacyRow.ts == correction.ts == DAY_MS && legacyRow != correction
    ensures var frame := map[DAY_MS := Observation(correction.(bv := correction.bv + 1.0), true)];
      var st := Store(map[], map[], map[DAY_MS := legacyRow], Some(frame), DAY_MS - ONE_MIN_MS);
      var env := Env(DAY_MS + 2 * ONE_MIN_MS, DAY_MS, DAY_MS, false, None, false);
      !LegacyComplete(st.legacy, 1) && Ingested(st, [correction], env).1 == Err(VerificationFailed)
  {
    var frame := map[DAY_MS := Observation(correction.(bv := correction.bv + 1.0), true)];
    var st := Store(map[], map[], map[DAY_MS := legacyRow], Some(frame), DAY_MS - ONE_MIN_MS);
    var env := Env(DAY_MS + 2 * ONE_MIN_MS, DAY_MS, DAY_MS, false, None, false);
    assert MinuteOfDay(1, 1) !in st.legacy;
    ToMapOne(correction);
    var rows := FrameRows([correction], env.now);
    assert rows[DAY_MS] == correction;
    assert DAY_MS in OnDays(Disk(st), DAY_MS, DAY_MS);
    assert AcceptedRows(st, [correction], env).Keys == {DAY_MS};
    assert AcceptedRows(st, [correction], env)[DAY_MS] == correction;
    SucceedsIffLegacyAgrees(st, [correction], env);
  }

  // ---------- what is delivered ----------

  /** The update carries this row, and the row is not older than two hours before the running minute. */
  predicate Carries(arr: seq<Candle>, now: int, ts: int, row: Candle) {
    row in arr && row.ts == ts && FloorMinute(now) - 120 * 60_000 <= ts
  }

  /** In a primed session the row is new, or another than the frame held. */
  predicate Brings(st: Store, arr: seq<Candle>, now: int, ts: int, row: Candle) {
    && Carries(arr, now, ts, row) && st.observations.Some?
    && (ts in st.observations.value ==> st.observations.value[ts].row != row)
  }

  /** The minute is over, the frame held it as eligible, and the update brings a row for the next one. */
  ghost predicate Sealed(st: Store, arr: seq<Candle>, now: int, ts: int) {
    && st.observations.Some? && ts in st.observations.value && st.observations.value[ts].eligible
    && ts + ONE_MIN_MS <= FloorMinute(now)
    && exists next :: BringsNext(st, arr, now, ts, next)
  }

  predicate BringsNext(st: Store, arr: seq<Candle>, now: int, ts: int, next: Candle) {
    Brings(st, arr, now, ts + ONE_MIN_MS, next)
  }

  /** The update's row of the minute, or the held one when it carries none. */
  ghost predicate LatestRow(st: Store, arr: seq<Candle>, now: int, ts: int, row: Candle) {
    || Carries(arr, now, ts, row)
    || (&& st.observations.Some? && ts in st.observations.value && st.observations.value[ts].row == row
        && forall c :: !Carries(arr, now, ts, c))
  }

  /** The row is sealed, or corrects a canonical minute that is over, and differs from what is canonical. */
  ghost predicate Earned(st: Store, arr: seq<Candle>, env: Env, ts: int, row: Candle) {
    && (|| (Sealed(st, arr, env.now, ts) && LatestRow(st, arr, env.now, ts, row))
        || (ts in Canonical(st, env) && Brings(st, arr, env.now, ts, row) && ts + ONE_MIN_MS <= FloorMinute(env.now)))
    && (ts in Canonical(st, env) ==> Canonical(st, env)[ts] != row)
  }

  lemma {:induction false} FrameRowsAre(arr: seq<Candle>, now: int, ts: int)
    requires StrictTs(arr)
    ensures ts in FrameRows(arr, now) <==> exists row :: Carries(arr, now, ts, row)
    ensures forall row :: Carries(arr, now, ts, row) <==> ts in FrameRows(arr, now) && FrameRows(arr, now)[ts] == row
  {
    ToMapKeys(arr, ts);
    forall row | Carries(arr, now, ts, row) ensures ts in FrameRows(arr, now) && FrameRows(arr, now)[ts] == row {
      var i :| 0 <= i < |arr| && arr[i] == row;
      ToMapAt(arr, i);
    }
    if ts in FrameRows(arr, now) { assert Carries(arr, now, ts, FrameRows(arr, now)[ts]); }
  }

  /** The day of `ts` overlaps the range of the strict read. */
  predicate ReadDay(env: Env, ts: int) {
    env.readFrom < (Day(ts) + 1) * DAY_MS && Day(ts) * DAY_MS <= env.readTo
  }

  lemma {:induction false} ReadDays(disk: map<int, Candle>, env: Env, ts: int)
    ensures ts in OnDays(disk, env.readFrom, env.readTo) <==> ts in disk && ReadDay(env, ts)
  {}

  /** What is canonical: disk rows of the days that were read, and rows in memory, in range if nothing was read. */
  lemma {:induction false} CanonicalIs(st: Store, env: Env, ts: int)
    ensures var nothingRead := forall t :: t in Disk(st) ==> !ReadDay(env, t);
      ts in Canonical(st, env) <==>
        || (ts in Disk(st) && ReadDay(env, ts))
        || (ts in st.cache && (nothingRead ==> env.readFrom <= ts <= env.readTo))
    ensures ts in Canonical(st, env) ==>
      Canonical(st, env)[ts] == if ts in Disk(st) && ReadDay(env, ts) then Disk(st)[ts] else st.cache[ts]
  {
    var read := OnDays(Disk(st), env.readFrom, env.readTo);
    forall t ensures t in read <==> t in Disk(st) && ReadDay(env, t) { ReadDays(Disk(st), env, t); }
    if read != map[] { var t := AnyOf(read.Keys); }
  }

  /** Accepted is exactly what is earned. */
  lemma {:induction false} AcceptedIsEarned(st: Store, arr: seq<Candle>, env: Env, ts: int, row: Candle)
    requires StrictTs(arr)
    requires st.observations.Some?
    ensures ts in AcceptedRows(st, arr, env) && AcceptedRows(st, arr, env)[ts] == row <==> Earned(st, arr, env, ts, row)
  {
    FrameRowsAre(arr, env.now, ts);
    FrameRowsAre(arr, env.now, ts + ONE_MIN_MS);
    ProvenIsSealed(st, arr, env.now, ts);
  }

  lemma {:induction false} ProvenIsSealed(st: Store, arr: seq<Candle>, now: int, ts: int)
    requires StrictTs(arr) && st.observations.Some?
    ensures Proven(st.observations.value, FrameRows(arr, now), ts) && ts <= LatestFinalized(now) <==>
      Sealed(st, arr, now, ts)
  {
    FrameRowsAre(arr, now, ts + ONE_MIN_MS);
    var rows := FrameRows(arr, now);
    if Fresh(st.observations.value, rows, ts + ONE_MIN_MS) {
      assert BringsNext(st, arr, now, ts, rows[ts + ONE_MIN_MS]);
    }
  }

  /** No earned row stands against another row in a legacy shard. */
  ghost predicate NoLegacyConflict(st: Store, arr: seq<Candle>, env: Env) {
    forall ts, row :: Earned(st, arr, env, ts, row) && ts in st.legacy ==> st.legacy[ts] == row
  }

  /** Update and frame lie on the minute grid. */
  ghost predicate GridUpdate(st: Store, arr: seq<Candle>) {
    && (forall c :: c in arr ==> Aligned(c.ts))
    && (st.observations.Some? ==> forall ts :: ts in st.observations.value ==> Aligned(ts))
  }

  lemma {:induction false} EarnedLegacy(st: Store, arr: seq<Candle>, env: Env)
    requires StrictTs(arr) && st.observations.Some? && GridUpdate(st, arr)
    ensures NoLegacyConflict(st, arr, env) <==> LegacyAgrees(st, AcceptedRows(st, arr, env))
    ensures forall ts :: ts in AcceptedRows(st, arr, env) ==> Aligned(ts)
  {
    var accepted := AcceptedRows(st, arr, env);
    forall ts, row ensures Earned(st, arr, env, ts, row) <==> ts in accepted && accepted[ts] == row {
      AcceptedIsEarned(st, arr, env, ts, row);
    }
    forall ts | ts in accepted
      ensures Aligned(ts) && Earned(st, arr, env, ts, accepted[ts])
    {
      EarnedOnGrid(st, arr, env, ts, accepted[ts]);
    }
  }

  lemma {:induction false} EarnedOnGrid(st: Store, arr: seq<Candle>, env: Env, ts: int, row: Candle)
    requires GridUpdate(st, arr) && Earned(st, arr, env, ts, row)
    ensures Aligned(ts)
  {}

  /** A session that runs, with a basis, past the first minute, and a call without faults. */
  predicate Primed(st: Store, env: Env) {
    st.observations.Some? && st.lastFinalTs > 0 && ONE_MIN_MS <= FloorMinute(env.now) && WithoutFaults(env)
  }

  /** The call succeeds, and the row is on disk and in memory. */
  ghost predicate Delivered(st: Store, arr: seq<Candle>, env: Env, ts: int, row: Candle) {
    var (after, r) := Ingested(st, arr, env);
    && r.Ok? && r.value > 0
    && ts in Disk(after) && Disk(after)[ts] == row
    && ts in after.cache && after.cache[ts] == row
  }

  /** Whatever is earned is delivered, exactly when no earned row stands against a legacy row. */
  lemma {:induction false} EarnedIsDelivered(st: Store, arr: seq<Candle>, env: Env, ts: int, row: Candle)
    requires StrictTs(arr) && GridUpdate(st, arr) && Primed(st, env) && Earned(st, arr, env, ts, row)
    ensures Delivered(st, arr, env, ts, row) <==> NoLegacyConflict(st, arr, env)
  {
    AcceptedIsEarned(st, arr, env, ts, row);
    EarnedLegacy(st, arr, env);
    SucceedsIffLegacyAgrees(st, arr, env);
    if Ingested(st, arr, env).1.Ok? { AcceptedIsDelivered(st, arr, env, ts); }
  }

  lemma {:induction false} AcceptedIsDelivered(st: Store, arr: seq<Candle>, env: Env, ts: int)
    requires Persisting(st, arr, env) && Ingested(st, arr, env).1.Ok? && ts in AcceptedRows(st, arr, env)
    ensures Delivered(st, arr, env, ts, AcceptedRows(st, arr, env)[ts])
  {
    var read, accepted := st.(cache := CacheAfterRead(st, env)), AcceptedRows(st, arr, env);
    PersistingCall(st, arr, env);
    PersistedStore(read, env, accepted);
    assert ts in accepted.Keys;
    assert ReadsBack(Disk(Persisted(read, env, accepted).0), accepted);
  }

  /** A call that succeeds returns how many rows it persisted: none unless the session was primed with a basis. */
  lemma {:induction false} ReturnsTheCount(st: Store, arr: seq<Candle>, env: Env)
    requires Ingested(st, arr, env).1.Ok?
    ensures Ingested(st, arr, env).1.value ==
      if LatestFinalized(env.now) >= 0 && st.observations.Some? && st.lastFinalTs > 0 then |AcceptedRows(st, arr, env)|
      else 0
  {
    if Persisting(st, arr, env) { PersistingCall(st, arr, env); }
  }

  /** A minute that closes is sealed: its row reaches disk and memory. */
  lemma {:induction false} ClosedMinuteIsSealed(st: Store, arr: seq<Candle>, env: Env, ts: int, row: Candle)
    requires StrictTs(arr) && GridUpdate(st, arr) && Primed(st, env) && NoLegacyConflict(st, arr, env)
    requires Sealed(st, arr, env.now, ts) && LatestRow(st, arr, env.now, ts, row)
    requires ts !in st.cache && ts !in Disk(st)
    ensures Delivered(st, arr, env, ts, row)
  {
    CanonicalKeys(st, env);
    EarnedIsDelivered(st, arr, env, ts, row);
  }

  /** A changed row of a canonical minute that is over corrects it. */
  lemma {:induction false} CorrectionIsDelivered(st: Store, arr: seq<Candle>, env: Env, ts: int, row: Candle)
    requires StrictTs(arr) && GridUpdate(st, arr) && Primed(st, env) && NoLegacyConflict(st, arr, env)
    requires Brings(st, arr, env.now, ts, row) && ts + ONE_MIN_MS <= FloorMinute(env.now)
    requires (ts in Disk(st) && ReadDay(env, ts) && Disk(st)[ts] != row)
      || (ts !in Disk(st) && ts in st.cache && env.readFrom <= ts <= env.readTo && st.cache[ts] != row)
    ensures Delivered(st, arr, env, ts, row)
  {
    CanonicalIs(st, env, ts);
    EarnedIsDelivered(st, arr, env, ts, row);
  }

  /** Repeating a failed update with the same read range delivers every row it had accepted. */
  lemma {:induction false} RetryDelivers(st: Store, arr: seq<Candle>, env: Env, again: Env, ts: int)
    requires Ingested(st, arr, env).1.Err?
    requires again.now == env.now && again.readFrom == env.readFrom && again.readTo == env.readTo
    requires Ingested(Ingested(st, arr, env).0, arr, again).1.Ok?
    requires ts in AcceptedRows(st, arr, env)
    ensures var final := Ingested(Ingested(st, arr, env).0, arr, again).0;
      ts in final.cache && final.cache[ts] == AcceptedRows(st, arr, env)[ts]
  {
    var mid := Ingested(st, arr, env).0;
    FailureIsRetryable(st, arr, env);
    var candidates := CandidateRows(FrameOf(st.observations), FrameRows(arr, env.now), env.now);
    assert ts in candidates;
    if ts in Canonical(st, env) { StillCanonical(st, arr, env, again, ts); }
    FailedWasPrimed(st, arr, env);
    if ts in AcceptedRows(mid, arr, again) {
      assert AcceptedRows(mid, arr, again)[ts] == candidates[ts];
    } else {
      assert ts in Canonical(mid, again) && Canonical(mid, again)[ts] == candidates[ts];
    }
    SuccessDelivers(mid, arr, again, ts);
  }

  lemma {:induction false} FailedWasPrimed(st: Store, arr: seq<Candle>, env: Env)
    requires Ingested(st, arr, env).1.Err?
    ensures LatestFinalized(env.now) >= 0 && st.observations.Some? && st.lastFinalTs > 0
    ensures CandidateRows(st.observations.value, FrameRows(arr, env.now), env.now) != map[]
  {}

  /** After a successful primed call memory holds the accepted rows, and the canonical rows it did not change. */
  lemma {:induction false} SuccessDelivers(st: Store, arr: seq<Candle>, env: Env, ts: int)
    requires LatestFinalized(env.now) >= 0 && st.observations.Some? && st.lastFinalTs > 0
    requires CandidateRows(st.observations.value, FrameRows(arr, env.now), env.now) != map[]
    requires Ingested(st, arr, env).1.Ok? && (ts in AcceptedRows(st, arr, env) || ts in Canonical(st, env))
    ensures var final := Ingested(st, arr, env).0;
      && ts in final.cache
      && final.cache[ts] == if ts in AcceptedRows(st, arr, env) then AcceptedRows(st, arr, env)[ts]
                            else Canonical(st, env)[ts]
  {
    CanonicalKeys(st, env);
    MemoryAfterSuccess(st, arr, env);
  }

  lemma {:induction false} MemoryAfterSuccess(st: Store, arr: seq<Candle>, env: Env)
    requires LatestFinalized(env.now) >= 0 && st.observations.Some? && st.lastFinalTs > 0
    requires CandidateRows(st.observations.value, FrameRows(arr, env.now), env.now) != map[]
    requires Ingested(st, arr, env).1.Ok?
    ensures Ingested(st, arr, env).0.cache == CacheAfterRead(st, env) + AcceptedRows(st, arr, env)
  {
    if AcceptedRows(st, arr, env) != map[] {
      PersistingCall(st, arr, env);
      PersistedStore(st.(cache := CacheAfterRead(st, env)), env, AcceptedRows(st, arr, env));
    } else {
      NothingAccepted(st, arr, env);
    }
  }

  lemma {:induction false} NothingAccepted(st: Store, arr: seq<Candle>, env: Env)
    requires LatestFinalized(env.now) >= 0 && st.observations.Some? && st.lastFinalTs > 0
    requires CandidateRows(st.observations.value, FrameRows(arr, env.now), env.now) != map[]
    requires Ingested(st, arr, env).1.Ok? && AcceptedRows(st, arr, env) == map[]
    ensures Ingested(st, arr, env).0.cache == CacheAfterRead(st, env)
  {}

  lemma {:induction false} StillCanonical(st: Store, arr: seq<Candle>, env: Env, again: Env, ts: int)
    requires Ingested(st, arr, env).1.Err?
    requires again.readFrom == env.readFrom && again.readTo == env.readTo
    requires ts in Canonical(st, env)
    ensures ts in Canonical(Ingested(st, arr, env).0, again)
  {
    var mid := Ingested(st, arr, env).0;
    FailureIsRetryable(st, arr, env);
    DiskChanges(st, arr, env);
    var before, now := OnDays(Disk(st), env.readFrom, env.readTo), OnDays(Disk(mid), env.readFrom, env.readTo);
    assert forall t :: t in before ==> t in now;
  }

  // ---------- whole runs ----------

  /** Besides updates: the session ends, or something else (REST, another manager) changes the store. */
  datatype Event =
    | Ingest(arr: seq<Candle>, env: Env)
    | Clear
    | Elsewhere(cache: map<int, Candle>, primary: map<int, Candle>, legacy: map<int, Candle>, lastFinalTs: int)

  ghost function Next(st: Store, e: Event): Store {
    match e
    case Ingest(arr, env) => Ingested(st, arr, env).0
    case Clear => st.(observations := None)
    case Elsewhere(cache, primary, legacy, lastFinalTs) =>
      st.(cache := cache, primary := primary, legacy := legacy, lastFinalTs := lastFinalTs)
  }

  ghost predicate Run(states: seq<Store>, events: seq<Event>) {
    && |states| == |events| + 1
    && states[0].observations.None?
    && forall i {:trigger events[i]} :: 0 <= i < |events| ==> states[i + 1] == Next(states[i], events[i])
  }

  /** An update whose frame became the session's frame. */
  ghost predicate Commits(st: Store, e: Event) {
    && e.Ingest? && LatestFinalized(e.env.now) >= 0 && FrameRows(e.arr, e.env.now) != map[]
    && Ingested(st, e.arr, e.env).1.Ok?
  }

  /** Update `e` brought this row for the minute while it could be trusted: still open, or new or changed. */
  ghost predicate SeenLive(st: Store, e: Event, ts: int, row: Candle) {
    && Commits(st, e)
    && ts in FrameRows(e.arr, e.env.now) && FrameRows(e.arr, e.env.now)[ts] == row
    && if st.observations.None? then e.env.now < ts + ONE_MIN_MS
       else Fresh(st.observations.value, FrameRows(e.arr, e.env.now), ts)
  }

  /** From update `i` to state `n` one session ran and every frame repeated the row. */
  ghost predicate HeldSince(states: seq<Store>, events: seq<Event>, i: nat, n: nat, ts: int, row: Candle)
    requires n < |states| && |states| == |events| + 1 && i < n
  {
    SeenLive(states[i], events[i], ts, row) && HeldBetween(states, events, i, n, ts, row)
  }

  ghost predicate HeldBetween(states: seq<Store>, events: seq<Event>, i: nat, n: nat, ts: int, row: Candle)
    requires n < |states| && |states| == |events| + 1
  {
    && (forall k :: i < k < n ==> !events[k].Clear?)
    && (forall k :: i < k <= n ==>
          && states[k].observations.Some? && ts in states[k].observations.value
          && states[k].observations.value[ts].row == row)
  }

  lemma {:induction false} FrameAfter(st: Store, e: Event)
    ensures Commits(st, e) ==>
      Next(st, e).observations == Some(NextFrame(st.observations, FrameRows(e.arr, e.env.now), e.env.now))
    ensures !Commits(st, e) && !e.Clear? ==> Next(st, e).observations == st.observations
  {}

  /** Every eligible row was seen live in this session and has been held, unchanged, since. */
  lemma {:induction false} EligibilityHasOrigin(states: seq<Store>, events: seq<Event>, n: nat,
                                                ts: int) returns (i: nat)
    requires Run(states, events) && n <= |events|
    requires states[n].observations.Some? && ts in states[n].observations.value
    requires states[n].observations.value[ts].eligible
    ensures i < n && HeldSince(states, events, i, n, ts, states[n].observations.value[ts].row)
    decreases n
  {
    var st, e := states[n - 1], events[n - 1];
    assert states[n] == Next(st, e);
    var row := states[n].observations.value[ts].row;
    if SeenLive(st, e, ts, row) {
      i := n - 1;
    } else {
      EligibleBefore(st, e, ts);
      i := EligibilityHasOrigin(states, events, n - 1, ts);
      HeldLonger(states, events, i, n, ts, row);
    }
  }

  /** An eligible row that this event did not bring was eligible before it, unchanged. */
  lemma {:induction false} EligibleBefore(st: Store, e: Event, ts: int)
    requires Next(st, e).observations.Some? && ts in Next(st, e).observations.value
    requires Next(st, e).observations.value[ts].eligible
    requires !SeenLive(st, e, ts, Next(st, e).observations.value[ts].row)
    ensures !e.Clear? && st.observations.Some? && ts in st.observations.value
    ensures st.observations.value[ts] == Next(st, e).observations.value[ts]
  {
    FrameAfter(st, e);
  }

  lemma {:induction false} HeldLonger(states: seq<Store>, events: seq<Event>, i: nat, n: nat, ts: int, row: Candle)
    requires 0 < n < |states| && |states| == |events| + 1
    requires HeldBetween(states, events, i, n - 1, ts, row) && !events[n - 1].Clear?
    requires states[n].observations.Some? && ts in states[n].observations.value
    requires states[n].observations.value[ts].row == row
    ensures HeldBetween(states, events, i, n, ts, row)
  {}

  /** And the other way round: a row seen live and held since is eligible. */
  lemma {:induction false} HeldIsEligible(states: seq<Store>, events: seq<Event>, i: nat, n: nat, ts: int, row: Candle)
    requires Run(states, events) && i < n <= |events| && HeldSince(states, events, i, n, ts, row)
    ensures states[n].observations.value[ts] == Observation(row, true)
  {
    assert states[i + 1] == Next(states[i], events[i]);
    StartsEligible(states[i], events[i], ts, row);
    KeepsEligible(states, events, i, n, ts, row);
  }

  lemma {:induction false} KeepsEligible(states: seq<Store>, events: seq<Event>, i: nat, n: nat, ts: int, row: Candle)
    requires Run(states, events) && i < n <= |events| && HeldBetween(states, events, i, n, ts, row)
    requires states[i + 1].observations.value[ts].eligible
    ensures states[n].observations.value[ts] == Observation(row, true)
    decreases n
  {
    if i + 1 < n {
      KeepsEligible(states, events, i, n - 1, ts, row);
      assert states[n] == Next(states[n - 1], events[n - 1]);
      StaysEligible(states[n - 1], events[n - 1], ts, row);
    }
  }

  lemma {:induction false} StartsEligible(st: Store, e: Event, ts: int, row: Candle)
    requires SeenLive(st, e, ts, row)
    ensures var frame := Next(st, e).observations;
      frame.Some? && ts in frame.value && frame.value[ts] == Observation(row, true)
  {
    FrameAfter(st, e);
  }

  /** An eligible row that the next frame repeats stays eligible. */
  lemma {:induction false} StaysEligible(st: Store, e: Event, ts: int, row: Candle)
    requires !e.Clear? && st.observations.Some? && ts in st.observations.value
    requires st.observations.value[ts] == Observation(row, true)
    requires Next(st, e).observations.Some? && ts in Next(st, e).observations.value
    requires Next(st, e).observations.value[ts].row == row
    ensures Next(st, e).observations.value[ts].eligible
  {
    FrameAfter(st, e);
  }

  /**
   * Delivery over whole runs. A row seen live in this session and held since is on disk and in memory after the
   * first update that brings a new or changed row for the next minute once the minute is over.
   */
  lemma {:induction false} DeliveryOverRuns(states: seq<Store>, events: seq<Event>, i: nat, n: nat, ts: int,
                                            held: Candle, row: Candle)
    requires Run(states, events) && i < n < |events| && HeldSince(states, events, i, n, ts, held)
    requires events[n].Ingest? && var st, arr, env := states[n], events[n].arr, events[n].env;
      && StrictTs(arr) && GridUpdate(st, arr) && st.lastFinalTs > 0 && WithoutFaults(env)
      && ONE_MIN_MS <= FloorMinute(env.now) && ts + ONE_MIN_MS <= FloorMinute(env.now)
      && (exists next :: BringsNext(st, arr, env.now, ts, next)) && LatestRow(st, arr, env.now, ts, row)
      && ts !in st.cache && ts !in Disk(st) && NoLegacyConflict(st, arr, env)
    ensures ts in Disk(states[n + 1]) && Disk(states[n + 1])[ts] == row
    ensures ts in states[n + 1].cache && states[n + 1].cache[ts] == row
  {
    HeldIsEligible(states, events, i, n, ts, held);
    assert states[n + 1] == Next(states[n], events[n]);
    ClosedMinuteIsSealed(states[n], events[n].arr, events[n].env, ts, row);
  }

  /**
   * Admission over whole runs. When update `n` puts a minute on disk that was canonical nowhere, its row
   * was seen live earlier in the same session and held by every frame up to the immediately preceding
   * one, and this update carries a new or changed row for the next minute.
   */
  lemma {:induction false} AdmissionOverRuns(states: seq<Store>, events: seq<Event>, n: nat, ts: int) returns (i: nat)
    requires Run(states, events) && n < |events| && events[n].Ingest?
    requires ts !in states[n].cache && ts !in Disk(states[n]) && ts in Disk(states[n + 1])
    ensures states[n].lastFinalTs > 0 && states[n].observations.Some? && ts in states[n].observations.value
    ensures Fresh(states[n].observations.value, FrameRows(events[n].arr, events[n].env.now), ts + ONE_MIN_MS)
    ensures ts + ONE_MIN_MS <= FloorMinute(events[n].env.now)
    ensures i < n && HeldSince(states, events, i, n, ts, states[n].observations.value[ts].row)
  {
    assert states[n + 1] == Next(states[n], events[n]);
    ExtensionIsProven(states[n], events[n].arr, events[n].env, ts);
    i := EligibilityHasOrigin(states, events, n, ts);
  }
}
