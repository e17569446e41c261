/**
 * Paginated fetching against an arbitrary exchange: it ends whatever the exchange answers, and against
 * an honest one it returns every candle of the requested range.
 */
module Paginator {
  import opened Minutes
  import opened Sorting
  import opened Candles

  /** How a client walks: candle period, candles of page overlap, and whether `since` is exclusive. */
  datatype Config = Config(periodMs: int, overlapCandles: nat, sinceExclusive: bool, raiseOnPartialEmptyPage: bool)

  /** A finished walk, or one that met an empty page too early. */
  datatype Outcome =
    | Finished(rows: seq<Candle>)
    | TerminalEmptyPage(rows: seq<Candle>, since: int)

  /** The answer to the `n`-th call, given its `since`: normalised rows, in time order. */
  type Exchange = (nat, int) -> seq<Candle>

  ghost predicate OrderedPages(exchange: Exchange) {
    forall n: nat, since: int :: SortedTs(exchange(n, since))
  }

  function BeforeEnd(page: seq<Candle>, end: int): seq<Candle> {
    if page == [] then []
    else BeforeEnd(page[..|page| - 1], end) + (if page[|page| - 1].ts < end then [page[|page| - 1]] else [])
  }

  /** Where the walk starts: one overlap earlier when the exchange leaves `since` out. */
  function FirstSince(cfg: Config, since: int): int {
    if cfg.sinceExclusive && cfg.overlapCandles > 0 && since > 0
    then Max(0, since - cfg.periodMs * cfg.overlapCandles)
    else since
  }

  function NextSince(cfg: Config, since: int, lastTs: int): int {
    if cfg.overlapCandles > 0
    then Max(lastTs - cfg.periodMs * cfg.overlapCandles, since + cfg.periodMs)
    else lastTs + cfg.periodMs
  }

  predicate EndCovered(cfg: Config, rows: seq<Candle>, end: int) {
    exists i :: 0 <= i < |rows| && rows[i].ts >= end - cfg.periodMs
  }

  lemma {:induction false} BeforeEndElements(page: seq<Candle>, end: int)
    ensures forall c :: c in BeforeEnd(page, end) <==> c in page && c.ts < end
    ensures SortedTs(page) ==> SortedTs(BeforeEnd(page, end))
  {
    if page != [] {
      var n := |page| - 1;
      var init := page[..n];
      BeforeEndElements(init, end);
      assert page == init + [page[n]];
      if SortedTs(page) {
        var kept := BeforeEnd(init, end);
        forall i | 0 <= i < |kept| ensures kept[i].ts <= page[n].ts {
          assert kept[i] in init;
          var j :| 0 <= j < n && init[j] == kept[i];
          assert page[j].ts <= page[n].ts;
        }
      }
    }
  }

  // ---------- an honest exchange ----------

  /** Does a query with `since` ask for a candle at `ts`? */
  predicate Asked(cfg: Config, since: int, ts: int) {
    if cfg.sinceExclusive then since < ts else since <= ts
  }

  /**
   * The exchange holds `candles` on the period grid. A page holds only asked-for candles, leaves out
   * none before its last one, and is empty below `end` only when nothing there is left.
   */
  ghost predicate HonestPage(cfg: Config, candles: set<Candle>, end: int, since: int, page: seq<Candle>) {
    && (forall c :: c in page ==> c in candles && Asked(cfg, since, c.ts))
    && (forall c :: c in candles && Asked(cfg, since, c.ts) && c.ts < end ==>
          BeforeEnd(page, end) != [] && (c.ts <= BeforeEnd(page, end)[|BeforeEnd(page, end)| - 1].ts ==> c in page))
  }

  ghost predicate Honest(cfg: Config, candles: set<Candle>, end: int, exchange: Exchange) {
    forall n: nat, since: int :: HonestPage(cfg, candles, end, since, exchange(n, since))
  }

  ghost predicate OnGrid(cfg: Config, candles: set<Candle>, since: int) {
    && cfg.periodMs > 0 && since % cfg.periodMs == 0
    && forall c :: c in candles ==> c.ts % cfg.periodMs == 0
  }

  /** Everything asked for so far and below `since` has been collected. */
  ghost predicate CollectedBelow(cfg: Config, candles: set<Candle>, start: int, end: int, since: int,
                                 rows: seq<Candle>) {
    forall c :: c in candles && start <= c.ts < end && !Asked(cfg, since, c.ts) ==> c in rows
  }

  /** One honest page: what it returns, and the step to the next `since`, skip no candle. */
  lemma {:induction false} HonestStep(cfg: Config, candles: set<Candle>, start: int, end: int, since: int,
                                      rows: seq<Candle>, page: seq<Candle>)
    requires OnGrid(cfg, candles, since) && SortedTs(page) && HonestPage(cfg, candles, end, since, page)
    requires cfg.sinceExclusive ==> cfg.overlapCandles == 1
    requires !cfg.sinceExclusive ==> cfg.overlapCandles == 0
    requires CollectedBelow(cfg, candles, start, end, since, rows)
    requires BeforeEnd(page, end) != []
    ensures var kept := BeforeEnd(page, end);
      var last := kept[|kept| - 1].ts;
      var next := NextSince(cfg, since, last);
      && CollectedBelow(cfg, candles, start, end, next, rows + kept)
      && OnGrid(cfg, candles, next) && next > since
      && (last >= end - cfg.periodMs ==>
            forall c :: c in candles && start <= c.ts < end ==> c in rows + kept)
  {
    var kept := BeforeEnd(page, end);
    var last := kept[|kept| - 1].ts;
    var next := NextSince(cfg, since, last);
    BeforeEndElements(page, end);
    assert kept[|kept| - 1] in page;
    PeriodStep(cfg.periodMs, since, last);
    forall c | c in candles && start <= c.ts < end && c.ts <= last ensures c in rows + kept {
      if Asked(cfg, since, c.ts) { assert c in page; }
    }
    forall c | c in candles && c.ts > last ensures last + cfg.periodMs <= c.ts {
      PeriodStep(cfg.periodMs, last, c.ts);
    }
  }

  lemma {:induction false} PeriodStep(p: int, a: int, b: int)
    requires p > 0 && a % p == 0 && b % p == 0
    ensures a < b ==> a + p <= b
    ensures (a + p) % p == 0 && (b - p) % p == 0 && (b + p) % p == 0
  {
    Apart(p, a / p, b / p);
    Multiple(p, a / p + 1, a + p);
    Multiple(p, b / p - 1, b - p);
    Multiple(p, b / p + 1, b + p);
  }

  lemma {:induction false} Apart(p: int, i: int, j: int)
    requires p > 0
    ensures p * i < p * j ==> p * i + p <= p * j
  {
    if i < j { TimesMonotone(p, i + 1, j); } else { TimesMonotone(p, j, i); }
  }

  lemma {:induction false} TimesMonotone(p: int, x: int, y: int)
    requires p > 0 && x <= y
    ensures p * x <= p * y
  {}

  lemma {:induction false} Multiple(p: int, k: int, x: int)
    requires p > 0 && x == p * k
    ensures x % p == 0
  {
    var q, r := x / p, x % p;
    assert x == p * q + r;
    assert r == p * (k - q);
    if k - q >= 1 { TimesMonotone(p, 1, k - q); }
    if k - q <= -1 { TimesMonotone(p, k - q, -1); }
  }

  // ---------- the walk ----------

  /** The candles of the range that an honest exchange can still be asked for at the start. */
  ghost predicate StartReached(cfg: Config, candles: set<Candle>, start: int) {
    forall c :: c in candles && start <= c.ts ==> Asked(cfg, FirstSince(cfg, start), c.ts)
  }

  /**
   * `_fetch_ohlcv_paginated`. It ends for every exchange: `since` strictly increases below `end`.
   * Nothing at or after `end` is returned, and an honest exchange is read completely. A walk that was told
   * to raise and has pages, but not up to the end, raises unless its last page led nowhere below the end;
   * with an honest exchange it always raises.
   */
  method FetchPaginated(cfg: Config, exchange: Exchange, start: int, end: int, ghost candles: set<Candle>)
    returns (result: Outcome, pages: nat, ghost last: int)
    requires cfg.periodMs > 0 && OrderedPages(exchange)
    ensures SortedTs(result.rows)
    ensures forall c :: c in result.rows ==> c.ts < end
    ensures result.TerminalEmptyPage? ==>
      cfg.raiseOnPartialEmptyPage && pages > 0 && !EndCovered(cfg, result.rows, end) && result.since < end
    ensures result.Finished? && cfg.raiseOnPartialEmptyPage && pages > 0 && !EndCovered(cfg, result.rows, end) ==>
      StalledAt(cfg, exchange, end, pages - 1, last)
    ensures ReadsCompletely(cfg, candles, start, end, exchange) ==>
      (result.TerminalEmptyPage? <==> cfg.raiseOnPartialEmptyPage && pages > 0 && !EndCovered(cfg, result.rows, end))
    ensures pages == 0 <==> result.rows == []
    ensures Honest(cfg, candles, end, exchange) ==> forall c :: c in result.rows ==> c in candles
    ensures Honest(cfg, candles, end, exchange) ==>
      forall c :: c in result.rows ==> Asked(cfg, FirstSince(cfg, start), c.ts)
    ensures ReadsCompletely(cfg, candles, start, end, exchange) ==>
      forall c :: c in candles && start <= c.ts < end ==> c in result.rows
    ensures ReadsHonestly(cfg, candles, start, end, exchange) ==> forall c :: c in result.rows ==> start <= c.ts
  {
    var rows, since, terminal;
    rows, pages, since, terminal, last := Walk(cfg, exchange, start, end, candles);
    SortedByTime(cfg, rows, end);
    if ReadsHonestly(cfg, candles, start, end, exchange) {
      forall c | c in rows ensures start <= c.ts { NothingBeforeStart(cfg, candles, start, c); }
    }
    if terminal {
      result := TerminalEmptyPage(SortByTs(rows), since);
    } else {
      result := Finished(SortByTs(rows));
    }
  }

  /** The loop over pages; `terminal` when it met an empty page too early and has to raise. */
  method Walk(cfg: Config, exchange: Exchange, start: int, end: int, ghost candles: set<Candle>)
    returns (rows: seq<Candle>, pages: nat, since: int, terminal: bool, ghost last: int)
    requires cfg.periodMs > 0 && OrderedPages(exchange)
    ensures Ended(cfg, candles, start, end, exchange, rows, pages, since, terminal)
    ensures RightlyQuiet(cfg, candles, start, end, exchange, rows, pages, terminal, last)
  {
    since := FirstSince(cfg, start);
    rows, pages, terminal, last := [], 0, false, since;
    WalkStart(cfg, candles, start, end, exchange);
    while since < end
      invariant Walking(cfg, candles, start, end, exchange, rows, pages, since, last)
      decreases end - since
    {
      var arr := BeforeEnd(exchange(pages, since), end);
      if arr == [] {
        EmptyPageEnds(cfg, candles, start, end, exchange, rows, pages, since, last);
        terminal := cfg.raiseOnPartialEmptyPage && pages > 0 && !EndCovered(cfg, rows, end);
        return;
      }
      ghost var was := since;
      var stop;
      rows, since, stop := TakePage(cfg, exchange, start, end, rows, pages, since, arr, candles, last);
      pages, last := pages + 1, was;
      if stop {
        return;
      }
    }
    GuardEnds(cfg, candles, start, end, exchange, rows, pages, since, last);
  }

  /** A page with rows: they are collected, and the walk stops or goes on behind them. */
  method TakePage(cfg: Config, exchange: Exchange, start: int, end: int, rows: seq<Candle>, pages: nat, since: int,
                  page: seq<Candle>, ghost candles: set<Candle>, ghost last: int)
    returns (all: seq<Candle>, next: int, stop: bool)
    requires cfg.periodMs > 0 && OrderedPages(exchange)
    requires Walking(cfg, candles, start, end, exchange, rows, pages, since, last)
    requires page == BeforeEnd(exchange(pages, since), end) && page != []
    ensures if stop then next == since else next > since
    ensures stop ==> Ended(cfg, candles, start, end, exchange, all, pages + 1, since, false)
    ensures stop ==> RightlyQuiet(cfg, candles, start, end, exchange, all, pages + 1, false, since)
    ensures !stop ==> Walking(cfg, candles, start, end, exchange, all, pages + 1, next, since)
  {
    var lastTs := page[|page| - 1].ts;
    next := NextSince(cfg, since, lastTs);
    PageStep(cfg, candles, start, end, exchange, rows, pages, since, last, next);
    all := rows + page;
    stop := lastTs >= end - cfg.periodMs || next <= since;
    if stop {
      next := since;
    }
  }

  /** Between two pages. */
  ghost predicate Walking(cfg: Config, candles: set<Candle>, start: int, end: int, exchange: Exchange,
                          rows: seq<Candle>, pages: nat, since: int, last: int)
  {
    && Walked(cfg, candles, start, end, exchange, since, rows)
    && (pages == 0 <==> rows == [])
    && (pages > 0 ==> Led(cfg, exchange, end, pages - 1, last, since))
    && (pages > 0 && ReadsCompletely(cfg, candles, start, end, exchange) ==> since < end)
  }

  /** What the loop leaves behind. */
  ghost predicate Ended(cfg: Config, candles: set<Candle>, start: int, end: int, exchange: Exchange,
                        rows: seq<Candle>, pages: nat, since: int, terminal: bool)
  {
    && Sound(cfg, candles, start, end, exchange, rows) && AllRead(cfg, candles, start, end, exchange, rows)
    && (pages == 0 <==> rows == [])
    && (terminal ==> cfg.raiseOnPartialEmptyPage && pages > 0 && !EndCovered(cfg, rows, end) && since < end)
  }

  /** A partial walk that does not raise has a last page that led nowhere, so the exchange is not honest. */
  ghost predicate RightlyQuiet(cfg: Config, candles: set<Candle>, start: int, end: int, exchange: Exchange,
                               rows: seq<Candle>, pages: nat, terminal: bool, last: int)
  {
    !terminal && cfg.raiseOnPartialEmptyPage && pages > 0 && !EndCovered(cfg, rows, end) ==>
      StalledAt(cfg, exchange, end, pages - 1, last) && !ReadsCompletely(cfg, candles, start, end, exchange)
  }

  /** A page with rows: the walk goes on behind it, or ends. */
  lemma {:induction false} PageStep(cfg: Config, candles: set<Candle>, start: int, end: int, exchange: Exchange,
                                    rows: seq<Candle>, pages: nat, since: int, last: int, next: int)
    requires cfg.periodMs > 0 && OrderedPages(exchange)
    requires Walking(cfg, candles, start, end, exchange, rows, pages, since, last)
    requires BeforeEnd(exchange(pages, since), end) != []
    requires next == NextSince(cfg, since, LastBelow(exchange(pages, since), end))
    ensures var all := rows + BeforeEnd(exchange(pages, since), end);
      if LastBelow(exchange(pages, since), end) >= end - cfg.periodMs || next <= since
      then
        && Ended(cfg, candles, start, end, exchange, all, pages + 1, since, false)
        && RightlyQuiet(cfg, candles, start, end, exchange, all, pages + 1, false, since)
      else Walking(cfg, candles, start, end, exchange, all, pages + 1, next, since)
  {
    WalkPage(cfg, candles, start, end, exchange, since, rows, pages);
    var arr := BeforeEnd(exchange(pages, since), end);
    var all := rows + arr;
    assert all[|all| - 1] == arr[|arr| - 1];
  }

  lemma {:induction false} EmptyPageEnds(cfg: Config, candles: set<Candle>, start: int, end: int, exchange: Exchange,
                                         rows: seq<Candle>, pages: nat, since: int, last: int)
    requires Walking(cfg, candles, start, end, exchange, rows, pages, since, last) && since < end
    requires BeforeEnd(exchange(pages, since), end) == []
    ensures var terminal := cfg.raiseOnPartialEmptyPage && pages > 0 && !EndCovered(cfg, rows, end);
      && Ended(cfg, candles, start, end, exchange, rows, pages, since, terminal)
      && RightlyQuiet(cfg, candles, start, end, exchange, rows, pages, terminal, last)
  {
    WalkDone(cfg, candles, start, end, exchange, since, rows, pages);
  }

  lemma {:induction false} GuardEnds(cfg: Config, candles: set<Candle>, start: int, end: int, exchange: Exchange,
                                     rows: seq<Candle>, pages: nat, since: int, last: int)
    requires Walking(cfg, candles, start, end, exchange, rows, pages, since, last) && since >= end
    ensures Ended(cfg, candles, start, end, exchange, rows, pages, since, false)
    ensures RightlyQuiet(cfg, candles, start, end, exchange, rows, pages, false, last)
  {}

  function LastBelow(page: seq<Candle>, end: int): int {
    if BeforeEnd(page, end) == [] then end else BeforeEnd(page, end)[|BeforeEnd(page, end)| - 1].ts
  }

  /** Page `n`, asked with `since`, has rows and leads to `next`. */
  predicate Led(cfg: Config, exchange: Exchange, end: int, n: nat, since: int, next: int) {
    && BeforeEnd(exchange(n, since), end) != []
    && next == NextSince(cfg, since, LastBelow(exchange(n, since), end))
  }

  /** A page with rows after which the walk has no next `since`, or none below the end. */
  predicate StalledAt(cfg: Config, exchange: Exchange, end: int, n: nat, since: int) {
    && BeforeEnd(exchange(n, since), end) != []
    && var next := NextSince(cfg, since, LastBelow(exchange(n, since), end)); next <= since || next >= end
  }

  /** What every collected row satisfies. */
  ghost predicate Sound(cfg: Config, candles: set<Candle>, start: int, end: int, exchange: Exchange,
                        rows: seq<Candle>) {
    && (forall c :: c in rows ==> c.ts < end)
    && (Honest(cfg, candles, end, exchange) ==>
          forall c :: c in rows ==> c in candles && Asked(cfg, FirstSince(cfg, start), c.ts))
  }

  ghost predicate Walked(cfg: Config, candles: set<Candle>, start: int, end: int, exchange: Exchange,
                         since: int, rows: seq<Candle>)
  {
    && FirstSince(cfg, start) <= since
    && Sound(cfg, candles, start, end, exchange, rows)
    && (ReadsCompletely(cfg, candles, start, end, exchange) ==>
          OnGrid(cfg, candles, since) && CollectedBelow(cfg, candles, start, end, since, rows))
  }

  ghost predicate AllRead(cfg: Config, candles: set<Candle>, start: int, end: int, exchange: Exchange,
                          rows: seq<Candle>) {
    ReadsCompletely(cfg, candles, start, end, exchange) ==>
      forall c :: c in candles && start <= c.ts < end ==> c in rows
  }

  lemma {:induction false} WalkStart(cfg: Config, candles: set<Candle>, start: int, end: int, exchange: Exchange)
    ensures Walking(cfg, candles, start, end, exchange, [], 0, FirstSince(cfg, start), FirstSince(cfg, start))
  {
    if ReadsCompletely(cfg, candles, start, end, exchange) { FirstSinceOnGrid(cfg, candles, start, end); }
  }

  /** A page without rows below the end: nothing is left to read. */
  lemma {:induction false} WalkDone(cfg: Config, candles: set<Candle>, start: int, end: int, exchange: Exchange,
                                    since: int, rows: seq<Candle>, n: nat)
    requires Walked(cfg, candles, start, end, exchange, since, rows)
    requires BeforeEnd(exchange(n, since), end) == []
    ensures AllRead(cfg, candles, start, end, exchange, rows)
  {
    if ReadsCompletely(cfg, candles, start, end, exchange) {
      assert HonestPage(cfg, candles, end, since, exchange(n, since));
    }
  }

  lemma {:induction false} WalkPage(cfg: Config, candles: set<Candle>, start: int, end: int, exchange: Exchange,
                                    since: int, rows: seq<Candle>, n: nat)
    requires cfg.periodMs > 0 && OrderedPages(exchange)
    requires Walked(cfg, candles, start, end, exchange, since, rows)
    requires BeforeEnd(exchange(n, since), end) != []
    ensures var arr := BeforeEnd(exchange(n, since), end);
      var last := arr[|arr| - 1].ts;
      var next := NextSince(cfg, since, last);
      && Sound(cfg, candles, start, end, exchange, rows + arr)
      && (next > since ==> Walked(cfg, candles, start, end, exchange, next, rows + arr))
      && (last >= end - cfg.periodMs || next <= since ==> AllRead(cfg, candles, start, end, exchange, rows + arr))
      && (ReadsCompletely(cfg, candles, start, end, exchange) && last < end - cfg.periodMs ==> since < next < end)
  {
    var page := exchange(n, since);
    BeforeEndElements(page, end);
    if Honest(cfg, candles, end, exchange) { assert HonestPage(cfg, candles, end, since, page); }
    if ReadsCompletely(cfg, candles, start, end, exchange) {
      HonestStep(cfg, candles, start, end, since, rows, page);
    }
  }

  /** An honest exchange read in one of the two configured ways. */
  ghost predicate ReadsHonestly(cfg: Config, candles: set<Candle>, start: int, end: int, exchange: Exchange) {
    && OnGrid(cfg, candles, start)
    && (if cfg.sinceExclusive then cfg.overlapCandles == 1 else cfg.overlapCandles == 0)
    && Honest(cfg, candles, end, exchange)
  }

  /**
   * What the next page is asked for: everything behind the last candle, and before it nothing; the last candle
   * itself at most by an exclusive walk, whose overlap is one candle.
   */
  lemma {:induction false} NextPageAsks(cfg: Config, candles: set<Candle>, since: int, last: Candle, c: Candle)
    requires OnGrid(cfg, candles, since) && last in candles && c in candles && Asked(cfg, since, last.ts)
    requires if cfg.sinceExclusive then cfg.overlapCandles == 1 else cfg.overlapCandles == 0
    ensures var next := NextSince(cfg, since, last.ts);
      && (last.ts < c.ts ==> Asked(cfg, next, c.ts))
      && (Asked(cfg, next, c.ts) ==> last.ts <= c.ts)
      && (Asked(cfg, next, c.ts) && !cfg.sinceExclusive ==> last.ts < c.ts)
      && (cfg.sinceExclusive && c.ts == last.ts ==>
            (Asked(cfg, next, c.ts) <==> since + cfg.periodMs < last.ts))
  {
    PeriodStep(cfg.periodMs, last.ts, c.ts);
    PeriodStep(cfg.periodMs, c.ts, last.ts);
    PeriodStep(cfg.periodMs, since, last.ts);
  }

  /** And from a start it can be asked for. */
  ghost predicate ReadsCompletely(cfg: Config, candles: set<Candle>, start: int, end: int, exchange: Exchange) {
    ReadsHonestly(cfg, candles, start, end, exchange) && StartReached(cfg, candles, start)
  }

  /** The overlap in front of the start brings no candle from before it. */
  lemma {:induction false} NothingBeforeStart(cfg: Config, candles: set<Candle>, start: int, c: Candle)
    requires OnGrid(cfg, candles, start) && c in candles && Asked(cfg, FirstSince(cfg, start), c.ts)
    requires if cfg.sinceExclusive then cfg.overlapCandles == 1 else cfg.overlapCandles == 0
    ensures start <= c.ts
  {
    if c.ts < start { PeriodStep(cfg.periodMs, c.ts, start); }
    if 0 < start { PeriodFromZero(cfg.periodMs, start); }
  }

  lemma {:induction false} PeriodFromZero(p: int, start: int)
    requires p > 0 && start % p == 0 && 0 < start
    ensures p <= start
  {
    Multiple(p, 0, 0);
    PeriodStep(p, 0, start);
  }

  lemma {:induction false} FirstSinceOnGrid(cfg: Config, candles: set<Candle>, start: int, end: int)
    requires OnGrid(cfg, candles, start) && StartReached(cfg, candles, start)
    requires if cfg.sinceExclusive then cfg.overlapCandles == 1 else cfg.overlapCandles == 0
    ensures OnGrid(cfg, candles, FirstSince(cfg, start))
    ensures CollectedBelow(cfg, candles, start, end, FirstSince(cfg, start), [])
  {
    PeriodStep(cfg.periodMs, start, start);
    Multiple(cfg.periodMs, 0, 0);
  }

  lemma {:induction false} SortedByTime(cfg: Config, rows: seq<Candle>, end: int)
    ensures EndCovered(cfg, SortByTs(rows), end) <==> EndCovered(cfg, rows, end)
    ensures SortedTs(SortByTs(rows))
    ensures forall c :: c in SortByTs(rows) <==> c in rows
  {
    var s := SortByTs(rows);
    SortedByFields(rows);
    SameElements(rows, s);
    if EndCovered(cfg, s, end) {
      var i :| 0 <= i < |s| && s[i].ts >= end - cfg.periodMs;
      assert s[i] in rows;
    }
    if EndCovered(cfg, rows, end) {
      var i :| 0 <= i < |rows| && rows[i].ts >= end - cfg.periodMs;
      assert rows[i] in s;
    }
  }

  /**
   * When the start can be asked for. An inclusive exchange: always. An exclusive one: every positive
   * start on the grid; a start at or before zero exactly when no candle lies on it.
   */
  lemma {:induction false} StartReachedIff(cfg: Config, candles: set<Candle>, start: int)
    requires OnGrid(cfg, candles, start)
    requires if cfg.sinceExclusive then cfg.overlapCandles == 1 else cfg.overlapCandles == 0
    ensures StartReached(cfg, candles, start) <==>
      !cfg.sinceExclusive || start > 0 || forall c :: c in candles ==> c.ts != start
  {
    if cfg.sinceExclusive && start > 0 {
      assert FirstSince(cfg, start) < start;
    }
    if StartReached(cfg, candles, start) && cfg.sinceExclusive && start <= 0 {
      forall c | c in candles ensures c.ts != start {
        assert start <= c.ts ==> Asked(cfg, FirstSince(cfg, start), c.ts);
      }
    }
  }

  /** An honest exchange with exclusive `since` and one candle, at time zero. */
  function OneCandleAtZero(c: Candle): Exchange {
    (n, since) => if since < 0 then [c] else []
  }

  /** Its candle is missed by a walk that starts on it. */
  method ZeroStartMissed(c: Candle) returns (result: Outcome)
    requires c.ts == 0
    ensures Honest(Config(60_000, 1, true, false), {c}, 60_000, OneCandleAtZero(c))
    ensures OnGrid(Config(60_000, 1, true, false), {c}, 0)
    ensures c !in result.rows
  {
    var cfg := Config(60_000, 1, true, false);
    forall n: nat, since: int ensures HonestPage(cfg, {c}, 60_000, since, OneCandleAtZero(c)(n, since)) {
      assert [c][..0] == [];
      BeforeEndElements([c], 60_000);
    }
    var pages: nat;
    ghost var last;
    result, pages, last := FetchPaginated(cfg, OneCandleAtZero(c), 0, 60_000, {c});
  }
}
