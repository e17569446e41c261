/** When a known gap may be fetched again. */
module RetryPolicy {
  import opened Minutes
  import opened GapRecords

  const GAP_MAX_RETRIES: int := 3
  const GAP_PERSISTENT_RETRY_MS: int := 7 * 24 * 60 * 60 * 1000
  const HYPERLIQUID_RECENT_GAP_HORIZON_MS: int := 2 * 60 * 60 * 1000
  const HYPERLIQUID_RECENT_GAP_MAX_SPAN_MS: int := 2 * 60 * 60 * 1000
  const HYPERLIQUID_RECENT_GAP_RETRY_MS: int := 5 * 60 * 1000
  const HYPERLIQUID_RECENT_PERSISTENT_GAP_RETRY_MS: int := 15 * 60 * 1000

  const KUCOIN_CONTEXTUAL_GAP_RETRY_MS: int := 5 * 60 * 1000

  /** A boundary proof of a sparse KuCoin gap is due on its own clock. */
  predicate KucoinContextualRetryDue(gap: Gap, now: int) {
    && (gap.ev.reason.AutoDetected? || gap.ev.reason.FetchFailed?)
    && (gap.ev.lastContextualRetryAt <= 0
        || now - gap.ev.lastContextualRetryAt >= KUCOIN_CONTEXTUAL_GAP_RETRY_MS)
  }

  /** `hyperliquid`: the exchange id contains that name. */
  predicate IsRecentHyperliquidGap(hyperliquid: bool, gap: Gap, now: int) {
    && hyperliquid
    && (gap.ev.reason.AutoDetected? || gap.ev.reason.FetchFailed?)
    && 0 < gap.end - gap.start + ONE_MIN_MS <= HYPERLIQUID_RECENT_GAP_MAX_SPAN_MS
    && gap.end >= now - HYPERLIQUID_RECENT_GAP_HORIZON_MS
  }

  predicate PersistentGapRetryDue(hyperliquid: bool, gap: Gap, now: int) {
    && !NonExpiring(gap.ev.reason)
    && gap.ev.retryCount >= GAP_MAX_RETRIES
    && now - gap.ev.lastRetryAt >=
       (if IsRecentHyperliquidGap(hyperliquid, gap, now) then HYPERLIQUID_RECENT_PERSISTENT_GAP_RETRY_MS
        else GAP_PERSISTENT_RETRY_MS)
  }

  predicate ShouldRetryGap(hyperliquid: bool, gap: Gap, now: int) {
    if gap.ev.retryCount < GAP_MAX_RETRIES then
      IsRecentHyperliquidGap(hyperliquid, gap, now) ==>
        now - gap.ev.lastRetryAt >= HYPERLIQUID_RECENT_GAP_RETRY_MS
    else
      PersistentGapRetryDue(hyperliquid, gap, now)
  }

  /**
   * When a record is due. Below three attempts: always, except that a gap of at most two hours on Hyperliquid that
   * reaches into the last two hours waits five minutes. From three attempts on: a week after the last one, such a
   * gap after fifteen minutes, and a proof never.
   */
  lemma {:induction false} DueExactly(hyperliquid: bool, gap: Gap, now: int)
    ensures var ev, waited := gap.ev, now - gap.ev.lastRetryAt;
      var recent := hyperliquid && (ev.reason == AutoDetected || ev.reason == FetchFailed)
        && gap.start < gap.end + 60_000 <= gap.start + 7_200_000 && now - gap.end <= 7_200_000;
      ShouldRetryGap(hyperliquid, gap, now) <==>
        || (ev.retryCount < 3 && (!recent || waited >= 300_000))
        || (ev.retryCount >= 3 && recent && waited >= 900_000)
        || (ev.retryCount >= 3 && waited >= 604_800_000
            && ev.reason !in {PreInception, NoArchive, Manual, NoTrades})
  {}

  /** Proof with all its attempts used up is not fetched again, ever. */
  lemma {:induction false} ProofIsNeverDue(hyperliquid: bool, gap: Gap, now: int)
    requires gap.ev.reason in {PreInception, NoArchive, Manual, NoTrades} && gap.ev.retryCount >= 3
    ensures !ShouldRetryGap(hyperliquid, gap, now)
  {
    DueExactly(hyperliquid, gap, now);
  }

  /**
   * A due gap stays due, with one exception: a persistent recent Hyperliquid gap is due after a
   * quarter of an hour, and once it is no longer recent it has to wait out the ordinary week.
   */
  lemma {:induction false} DueUntilNoLongerRecent(hyperliquid: bool, gap: Gap, now: int, later: int)
    requires ShouldRetryGap(hyperliquid, gap, now) && now <= later
    ensures ShouldRetryGap(hyperliquid, gap, later) <==>
      !(&& gap.ev.retryCount >= GAP_MAX_RETRIES
        && IsRecentHyperliquidGap(hyperliquid, gap, now)
        && !IsRecentHyperliquidGap(hyperliquid, gap, later)
        && later - gap.ev.lastRetryAt < GAP_PERSISTENT_RETRY_MS)
  {
    assert IsRecentHyperliquidGap(hyperliquid, gap, later) ==> IsRecentHyperliquidGap(hyperliquid, gap, now);
  }

  /** A persistent minute on Hyperliquid is due after a quarter of an hour and no longer due after three hours. */
  lemma {:induction false} DueThenNotDue()
    ensures var gap := Gap(0, 0, Evidence(GAP_MAX_RETRIES, AutoDetected, 0, 0, 0));
      && ShouldRetryGap(true, gap, 15 * 60 * 1000)
      && !ShouldRetryGap(true, gap, 3 * 60 * 60 * 1000)
  {}
}
