# Passivbot candle handling, modelled and proved in Dafny

The project models the parts of Passivbot that decide which one-minute candles are known, missing,
trusted or synthetic, and proves what those parts are for. `dafny verify dfyconfig.toml` checks it.

* **The known-gap ledger.** `GapRecords` gives the meaning of a list of overlapping gap records: at every
  minute the strongest covering record counts, proof (a terminal reason) before retryable state, later before
  earlier. `GapSweep` is the heap sweep with lazy deletion that stores a list in its one normal form.
  `GapLedger` is the ledger object with adding and trimming, and theorems about whole runs. `RetryPolicy` is
  the retry clock. `FetchPlanner` has the prefix-maximum index and the two fetch planners. `Spans`,
  `SpanAlgebra` and `CandleHealth` classify missing minutes.
* **Candles.** `Candles` and `ShardStores` are the overwrite merge and day-sharded saving, `StandardizeGaps` is
  gap standardisation, `CandleExpansion` and `ResolutionLadder` are the expansion of coarse candles and the
  ladder of resolutions, `Paginator` is the walk over an exchange that may answer anything.
* **The WebSocket admission protocol.** `WsIngest` is a state machine over sessions, frames, disk and memory.
* **Backtest preparation.** `WindowValidator` is the event sweep and chunked scan, `CandleWindows` the per-coin
  index arithmetic, `ValidRuns`, `GapFiller`, `Coverage` and `FrameWriter` are the dataset materializer,
  `NpyHash` is the hashing NPY writer (NEP 1, section "Format Specification: Version 1.0").
* `Common.dfy` holds the minute grid, stable sorting and numpy-style searches.

Timestamps are integer milliseconds. Gap records, stored rows and requests lie on the minute grid (multiples
of 60 000), as the callers of the ledger keep them. Prices are reals. A gap record covers its end minute, so
`Covers` is half-open one minute later. The clock is a parameter and every exchange is an arbitrary function.
Objects that the program updates in place are classes, its loops are loops, and each is proved against a
function or predicate about which the theorems are stated.

## What the proofs found

Each property listed here that does not hold everywhere has its exact condition and an input at which it fails.

* A gap that is due for a retry can stop being due without any attempt: a persistent recent Hyperliquid gap is
  due after fifteen minutes, and when it leaves the two-hour horizon it has to wait out the ordinary week.
  `RetryPolicy.DueUntilNoLongerRecent` gives the condition, `RetryPolicy.DueThenNotDue` a minute that is due
  after a quarter of an hour and not after three hours.
* A failed attempt on a retryable minute is counted exactly when its record is due (`GapLedger.AttemptCounts`).
  On Hyperliquid a second attempt within five minutes on a recent gap is therefore not counted
  (`GapLedger.QuickAttemptNotCounted`), and three attempts make a new minute persistent exactly when the second
  and the third found it due (`GapLedger.ThirdAttemptDefers`). Elsewhere they always do
  (`GapLedger.CountedElsewhere`).
* An explicit retry count is stored as given. From a bounded ledger the counts of a run stay within the maximum
  exactly when no request with a greater explicit count meets a requested minute that takes it: an unknown one,
  one with a compatible reason, or one whose record is not a proof against a retryable request
  (`GapLedger.RetriesStayBounded`). `GapLedger.CountAboveMaximum` is a request for one unknown minute with the
  count four.
* For a reversed request, which has no minute, the prefix planner answers that there is nothing to fetch, while
  the range planner returns the request itself unless an undue record reaches over both of its ends. The two
  planners agree exactly when the request is not reversed or there is such a record
  (`FetchPlanner.PlannersAgree`); `FetchPlanner.ReversedDisagree` runs both on an empty ledger.
* An exchange with exclusive `since` cannot be asked for a candle that lies exactly on a start at or before
  zero, because the one-candle overlap is subtracted only from a positive start. `Paginator.StartReachedIff`
  gives the condition, `Paginator.ZeroStartMissed` a walk that misses the only candle of an honest exchange.
* The counts of the candle-health report add up to the missing count exactly when no missing minute is under a
  verified no-trade record and a deferred record at once (`CandleHealth.CountsAddUpIff`), which a normalised
  ledger never has; `CandleHealth.CountedTwice` is a ledger of two overlapping records that does.
* With one-minute bars, a coin whose valid range ends before the first row still gets bar 0 as its window, and
  so does every coin when there are no bars. `CandleWindows.SpuriousBarHasNoData` gives the condition. At one
  minute nothing is trimmed in front, so such a range comes from a negative `last_valid_index`
  (`CandleWindows.NegativeLastIndex`) or from the metadata key `candle_interval_offset_bars`
  (src/backtest.py:1048); with a bar and without either, the window is exact (`CandleWindows.OrdinaryCoinIsExact`).
* The overwrite merge is strictly ordered map override except when one side is empty: then duplicate
  timestamps of the other side stay. `Candles.MergeIsOverride` gives the condition, `Candles.DuplicatesSurvive`
  two such rows.
* A WebSocket correction of a minute that has a different row in a legacy shard can never be persisted, whether
  the legacy day is complete or not. `WsIngest.SucceedsIffLegacyAgrees` says exactly when a call without faults
  succeeds, `WsIngest.PartialLegacyDayRefuses` is a day with one legacy row that refuses.
* The docstring of `_add_known_gap` says that reaching the maximum makes a gap persistent until it is force
  fetched. The code makes such a gap due again after a week, and a counted attempt then starts a new cycle;
  the model follows the code.
* The docstring of `standardize_gaps` says that strict mode raises at a gap. The code logs it and returns the real
  rows there are (src/candlestick_manager.py:6272-6325); the model follows the code.

## Model

| member | source | states |
|---|---|---|
| Minutes.FloorMinute | src/candlestick_manager.py:663-664 | the result is the grid point whose minute contains the time |
| GapRecords.AtStrongest | src/candlestick_manager.py:3299-3314 | where records overlap, the covering record that is greatest by (terminal reason, later position) gives the minute its evidence |
| GapRecords.AtUncovered | src/candlestick_manager.py:3273-3321 | a minute has no evidence exactly when no record covers it |
| GapRecords.NormalIsCanonical | src/candlestick_manager.py:3323-3371 | two normal ledgers that agree at every minute are the same list of records |
| GapSweep.PushStarted | src/candlestick_manager.py:3294-3306 | after the pushes every record started by the segment's start is in the heap unless it ended before |
| GapSweep.PopFinished | src/candlestick_manager.py:3307-3311 | popping finished records from the top only loses none that still matters and leaves a top that lasts through the segment |
| GapSweep.SegmentWinner | src/candlestick_manager.py:3307-3314 | the heap's top is the strongest covering record on every minute of the segment, although finished records may lie below it |
| GapSweep.SweepSegments | src/candlestick_manager.py:3287-3321 | the loop over segments yields disjoint records that read like the input up to the last boundary |
| GapSweep.Sweep | src/candlestick_manager.py:3268-3321 | the sweep output is disjoint and carries at every minute the evidence of the strongest input record |
| GapSweep.PreparedSame | src/candlestick_manager.py:3268-3272 | dropping empty intervals changes no minute |
| GapSweep.MergeEqualNeighbours | src/candlestick_manager.py:3323-3371 | joining touching records of equal reason and retry epoch gives the normal form and changes no minute |
| GapSweep.Normalize | src/candlestick_manager.py:3252-3391 | every list of records is stored sorted, disjoint, without two touching records that say the same, and pointwise exact |
| GapSweep.NormalFormUnique | src/candlestick_manager.py:3252-3391 | a list has one stored form, and normalising a stored form changes nothing |
| RetryPolicy.DueUntilNoLongerRecent | src/candlestick_manager.py:3928-3965 | a due gap stays due if and only if it does not leave the recent Hyperliquid horizon while persistent and younger than a week |
| RetryPolicy.DueThenNotDue | src/candlestick_manager.py:3928-3965 | a persistent minute on Hyperliquid that is due after fifteen minutes and not due after three hours |
| RetryPolicy.DueExactly | src/candlestick_manager.py:3688-3965 | the whole due condition by count, reason, last retry and recency: when a record below three attempts waits, and when one from three attempts on is due again |
| RetryPolicy.ProofIsNeverDue | src/candlestick_manager.py:3948-3953 | a record with a terminal reason and three attempts is never due, at any time |
| GapLedger.Ledger.constructor | src/candlestick_manager.py:3203-3250 | a new ledger knows no gaps |
| GapLedger.Ledger.Save | src/candlestick_manager.py:3252-3391 | the ledger afterwards is the normal form of the given records |
| GapLedger.Ledger.Overlaps | src/candlestick_manager.py:3491-3547 | the covered spans and updated records are exactly the requested minutes of compatible records, with their updated evidence |
| GapLedger.Uncovered | src/candlestick_manager.py:3549-3562 | the cursor loop returns exactly the requested minutes that no covered span holds |
| GapLedger.FreshRecords | src/candlestick_manager.py:3564-3588 | uncovered minutes, and only they, start a fresh retry epoch |
| GapLedger.Ledger.AddKnownGap | src/candlestick_manager.py:3453-3601 | the new normal ledger carries at every minute what the old evidence and the request determine; unrequested minutes keep theirs |
| GapLedger.TrimRecord | src/candlestick_manager.py:3425-3444 | the pieces of a record are its minutes without a stored row, with its evidence |
| GapLedger.TrimOne | src/candlestick_manager.py:3412-3444 | the same for any sorted timestamps, and it reports a change exactly when a stored row lies in the record |
| GapLedger.Ledger.TrimCoveredByRows | src/candlestick_manager.py:3393-3451 | exactly the stored minutes leave the ledger, all others keep their evidence, so no gap stays over a row just persisted; the result tells whether anything changed |
| GapLedger.CoverageOfRun | src/candlestick_manager.py:3476-3601 | after any run the covered minutes are those of the start and of the requests, less the stored rows, in order of the events |
| GapLedger.UnmentionedKept | src/candlestick_manager.py:3484-3507 | over any run a minute that no event mentions keeps its evidence exactly |
| GapLedger.ProofPersists | src/candlestick_manager.py:3484-3539 | over any run a minute with a terminal reason never becomes retryable before a row is stored for it, and retryable requests leave it untouched |
| GapLedger.StepBounded | src/candlestick_manager.py:3508-3588 | from a bounded ledger one event leads to a count above the maximum if and only if it is a request with a greater explicit count and some minute takes it |
| GapLedger.RetriesStayBounded | src/candlestick_manager.py:3508-3588 | over any run from a bounded ledger no retry count ever exceeds the maximum if and only if no request is over-counted at the ledger it meets |
| GapLedger.CountAboveMaximum | src/candlestick_manager.py:3564-3579 | a request for one unknown minute with an explicit count of four leaves a record above the maximum |
| GapLedger.UnknownMinute | src/candlestick_manager.py:3564-3579 | field by field, what a request leaves at a minute without a record: its reason, both clocks at its time, no contextual retry, and the explicit count or one attempt or none |
| GapLedger.CompatibleMinute | src/candlestick_manager.py:3491-3547 | field by field, what it leaves at a minute with a compatible record: when count and clocks move, with and without an explicit count, and which reason stands |
| GapLedger.IncompatibleMinute | src/candlestick_manager.py:3491-3500 | a proof is untouched by a retryable request, other evidence is replaced by a new record |
| GapLedger.UnrequestedMinute | src/candlestick_manager.py:3484-3502 | a minute outside the request keeps its evidence |
| GapLedger.NewMinutesStartFresh | src/candlestick_manager.py:3564-3579 | in any run a minute unknown before starts its own retry epoch with the request's reason, count and time, whatever its neighbours carry |
| GapLedger.RunIsDeterministic | src/candlestick_manager.py:3252-3391 | the same events from the same ledger end in the same list of records |
| GapLedger.AttemptCounts | src/candlestick_manager.py:3518-3537 | on every exchange a failed attempt on a retryable minute counts if and only if the record is due: the count rises by one, from the maximum it falls to one or stays for a recent Hyperliquid gap, and the clock restarts; otherwise count and clock stay |
| GapLedger.ThirdAttemptDefers | src/candlestick_manager.py:3508-3537 | on every exchange three failed attempts make a new minute persistent if and only if the second and third found it due; it is then due exactly a week after the third, or fifteen minutes after it while a recent Hyperliquid gap |
| GapLedger.QuickAttemptNotCounted | src/candlestick_manager.py:3508-3537 | two attempts on one new minute on Hyperliquid, at any times: the second counts if and only if five minutes have passed or the minute is more than two hours old |
| FetchPlanner.PrefixMaxima | src/candlestick_manager.py:273-278 | the running maxima ascend and bound every earlier end |
| FetchPlanner.KnownGapIndex.constructor | src/candlestick_manager.py:271-278 | the index holds the same records, by start |
| FetchPlanner.KnownGapIndex.Overlapping | src/candlestick_manager.py:280-288 | a query by bisection returns exactly the records that touch the range, also long early ones |
| FetchPlanner.FetchStartAfterDeferredPrefix | src/candlestick_manager.py:3730-3757 | the first minute of the request that no undue gap covers, or none when there is none, for overlapping records of mixed status |
| FetchPlanner.ExcludeGap | src/candlestick_manager.py:3914-3923 | cutting one gap out of all ranges removes exactly its minutes and keeps the order |
| FetchPlanner.FetchRangesExcludingDeferred | src/candlestick_manager.py:3894-3926 | exactly the requested minutes that no undue gap covers, as sorted disjoint ranges; for a reversed request nothing if an undue gap reaches over both ends, else the request itself |
| FetchPlanner.FirstOfPlan | src/candlestick_manager.py:3730-3926 | for an ordered plan the first minute of the plan, or none when it is empty, is the one answer the prefix planner's promise allows |
| FetchPlanner.PlannersAgree | src/candlestick_manager.py:3730-3926 | the prefix planner's answer is the first minute of the range plan if and only if the request is not reversed or an undue gap reaches over both of its ends |
| FetchPlanner.PlanBoth | src/candlestick_manager.py:3730-3926 | index, prefix planner and range planner run on one ledger, for any request: when the first answers with the first minute of the other's plan |
| FetchPlanner.ReversedDisagree | src/candlestick_manager.py:3730-3926 | an empty ledger and a reversed request: one planner answers none, the other returns the request |
| FetchPlanner.ProofIsNeverPlanned | src/candlestick_manager.py:3730-3926 | neither planner ever plans a minute under a proof with three attempts |
| FetchPlanner.DueIsPlanned | src/candlestick_manager.py:3730-3926 | every requested minute all of whose records are due is planned, and the prefix planner does not pass it |
| SpanAlgebra.MissingSpans | src/candlestick_manager.py:4080-4101 | ordered spans of exactly the minutes of the window without a row |
| SpanAlgebra.MergeSpans | src/candlestick_manager.py:4304-4318 | ordered spans of exactly the given minutes |
| SpanAlgebra.IntersectSpans | src/candlestick_manager.py:4320-4342 | the loop with two cursors is set intersection, ordered |
| SpanAlgebra.SubtractOne | src/candlestick_manager.py:4358-4378 | one span loses exactly the masked minutes, and skipping masks before the cursor is sound |
| SpanAlgebra.SubtractSpans | src/candlestick_manager.py:4344-4379 | the loop whose mask cursor never goes back is set difference, ordered |
| SpanAlgebra.SpanCountIsMinutes | src/candlestick_manager.py:4432-4441 | adding up the lengths of ordered spans counts their minutes |
| CandleHealth.Masks | src/candlestick_manager.py:4381-4423 | within the window the two mask lists are exactly the verified no-trade gaps and the undue gaps |
| CandleHealth.Classify | src/candlestick_manager.py:4288-4430 | every missing minute is verified, deferred or refreshable as its records say, each list ordered without overlaps |
| CandleHealth.MinuteVerdict | src/candlestick_manager.py:4381-4430 | minute by minute from rows and records: missing without a row; verified under a no-trades record with a candle before it and one behind it in the window; deferred under another record whose ordinary and contextual retries are not due; refreshable otherwise |
| CandleHealth.CountsAddUp | src/candlestick_manager.py:4297-4441 | the three counts sum to the missing count plus the doubly classified minutes, of which a normalised ledger has none |
| CandleHealth.CountsAddUpIff | src/candlestick_manager.py:4297-4441 | the three counts sum to the missing count if and only if no missing minute is under a verified and a deferred record |
| CandleHealth.CountedTwice | src/candlestick_manager.py:4297-4441 | two overlapping records for which the counts do not sum up |
| CandleHealth.NothingTwice | src/candlestick_manager.py:4381-4430 | with a normalised ledger no minute is verified and deferred at once |
| Candles.SortedCopyCorrect | src/candlestick_manager.py:673-683 | the copy is sorted and holds the same rows, and is strictly increasing exactly when no two rows share a timestamp |
| Candles.GreatestCounts | src/candlestick_manager.py:673-683 | of several rows of one minute the sorted array ends on the greatest, compared field by field from the open on |
| Candles.StableMergeCorrect | src/candlestick_manager.py:3143-3159 | stable sort and keep-last is map override, strictly increasing |
| Candles.FastPathAgrees | src/candlestick_manager.py:3136-3142 | the append fast path returns what the general path would |
| Candles.MergeIsOverride | src/candlestick_manager.py:3125-3159 | all paths are strictly ordered map override by the newer rows, exactly unless an empty side lets duplicates through |
| Candles.DuplicatesSurvive | src/candlestick_manager.py:3127-3130 | two rows of one minute merged into an empty array are both kept |
| Candles.MergeAssociative | src/candlestick_manager.py:3125-3159 | merging duplicate-free arrays is associative |
| Candles.StrictDeterminedByMap | src/candlestick_manager.py:3125-3159 | a strictly increasing array is determined by its timestamp map |
| ShardStores.CollectBuckets | src/candlestick_manager.py:2819-2834 | one bucket a day, days ascending, together the rows in order |
| ShardStores.FlushOne | src/candlestick_manager.py:2794-2817 | merging one bucket into its shard overrides exactly that day's timestamps |
| ShardStores.ShardStore.SaveRange | src/candlestick_manager.py:2771-2843 | saving overrides one flat timestamp map by the rows sorted by fields; after a failing write exactly the days before the failing one are saved, as many as writes were accepted; without duplicates no shard gets any |
| ShardStores.ShardStore.Load | src/candlestick_manager.py:2641-2679 | reading days back gives exactly their stored rows in order |
| StandardizeGaps.ExcludedAt | src/candlestick_manager.py:6344-6366 | the moving cursor answers plain membership in the excluded ranges, also when they overlap |
| StandardizeGaps.FillMinutes | src/candlestick_manager.py:6336-6404 | the general pass yields, minute by minute, the real row, nothing, or a flat row at the nearest earlier close |
| StandardizeGaps.CompleteIsFilled | src/candlestick_manager.py:6318-6334 | the complete-range fast path returns what the general pass would |
| StandardizeGaps.Standardize | src/candlestick_manager.py:6194-6404 | every mode returns the specified minutes of the effective range, for unsorted arrays and duplicates too: strict the real rows, otherwise the filled ones |
| StandardizeGaps.RangeIs | src/candlestick_manager.py:6240-6276 | the effective range from options and rows: floored bounds, cut to the first or last real row where no bound is given or that edge is not filled |
| StandardizeGaps.StandardizedExactly | src/candlestick_manager.py:6240-6404 | from options and rows alone: a row is in the result if and only if its minute is represented and it is the real row, or the flat one at the nearest earlier close of a minute neither real nor excluded |
| StandardizeGaps.StrictExactly | src/candlestick_manager.py:6278-6300 | in strict mode exactly the real rows of the represented minutes |
| StandardizeGaps.FilledMeaning | src/candlestick_manager.py:6388-6404 | exactly one row for each represented minute, strictly increasing, all inside the range |
| StandardizeGaps.SyntheticIsBracketed | src/candlestick_manager.py:6255-6281 | with both edge fills off a synthetic row lies between two real candles and is flat at the nearest earlier close |
| StandardizeGaps.RealRowsKept | src/candlestick_manager.py:6390-6394 | every real row of the range is in the result, unchanged |
| StandardizeGaps.PreviousNearest | src/candlestick_manager.py:6375-6386 | the seed is the latest of the earlier rows |
| CandleExpansion.ExpandToMinutes | src/candlestick_manager.py:362-436 | refuses exactly the nonpositive lengths, else returns the specified expansion |
| CandleExpansion.ClosePath | src/candlestick_manager.py:405-418 | filling segment by segment gives the piecewise linear path; shared waypoints are written twice with one value |
| CandleExpansion.ExtremesInOrder | src/candlestick_manager.py:393-401 | from four minutes on a rising candle closes on its low at a third and on its high at two thirds, a falling one the other way round |
| CandleExpansion.ClosesRunStraight | src/candlestick_manager.py:403-418 | between open, first extreme, second extreme and close the closes lie on straight lines |
| CandleExpansion.MinutesAreChained | src/candlestick_manager.py:420-434 | each minute opens at the prior close, low and high enclose open and close, and nothing leaves the candle's range |
| CandleExpansion.AggregateOfExpansion | src/candlestick_manager.py:374-436 | aggregating the expansion to any number of minutes returns the normalised candle: open, close, extremes and volume |
| ResolutionLadder.FullIsFinal | src/candlestick_manager.py:544-548 | once the prefix is complete the remaining steps change nothing, whatever they would fetch |
| ResolutionLadder.Climb | src/candlestick_manager.py:488-548 | the climb with its early exits ends in the state of the ladder without them, with the failures of exactly the steps it asked |
| ResolutionLadder.FinestSourceWins | src/candlestick_manager.py:493-542 | every minute has the row and source of the finest step that offers it, and no other minute has one |
| ResolutionLadder.CoarseOnlyBeforeBoundary | src/candlestick_manager.py:514-540 | a coarse row comes from a fetched bucket that ends at or before the first exact candle, and lies before it |
| ResolutionLadder.FetchedIsUsed | src/candlestick_manager.py:488-542 | nothing fetched is lost: a minute of the range has a row if and only if a fetched exact candle, or a fetched whole bucket that ends by the first exact candle, holds it, and its source is the finest such step |
| ResolutionLadder.RowIsFetched | src/candlestick_manager.py:510-542 | the row is that exact candle, or a row of that bucket's expansion |
| ResolutionLadder.FailuresAre | src/candlestick_manager.py:492-508 | the reported failures are the supported steps among those asked whose fetch failed |
| ResolutionLadder.ClimbStopsInTime | src/candlestick_manager.py:493-548 | a next step is asked if and only if some minute before the first exact candle lies in no candle fetched so far |
| ResolutionLadder.TakeRows | src/candlestick_manager.py:533-542 | taking rows one by one equals the specified step |
| ResolutionLadder.LadderConsistent | src/candlestick_manager.py:488-542 | the rows and tags kept in arrival order say what the two dictionaries say |
| ResolutionLadder.CountsAddUp | src/candlestick_manager.py:556-558 | every row is counted for exactly one step of the ladder |
| ResolutionLadder.Assemble | src/candlestick_manager.py:550-563 | the candles are the rows in time order, each count is its source's number of minutes, and the counts sum to the number of candles |
| ResolutionLadder.FetchCandles | src/candlestick_manager.py:460-563 | the whole call: the finest offered row at every minute, each source counted with the minutes it supplied, the failed steps, no step asked in vain, nothing for a reversed range |
| Paginator.HonestStep | src/candlestick_manager.py:6137-6170 | a page of an honest exchange and the step to the next `since` skip no candle, inclusive or exclusive with overlap |
| Paginator.FetchPaginated | src/candlestick_manager.py:5869-6190 | ends for every exchange, returns nothing at or after the end and from an honest exchange nothing before the start, reads an honest exchange completely, and raises on a partial walk: with an honest exchange exactly when the end is not covered |
| Paginator.NothingBeforeStart | src/candlestick_manager.py:5893-5897 | in both configurations the overlap in front of the start asks for no candle from before it |
| Paginator.NextPageAsks | src/candlestick_manager.py:6137-6170 | in both configurations the next page is asked for everything behind the last candle and nothing before it, and for that candle again only by an exclusive walk |
| Paginator.Walk | src/candlestick_manager.py:5929-6170 | the loop over pages with each of its exits |
| Paginator.StartReachedIff | src/candlestick_manager.py:5893-5897 | the start can be asked for if and only if `since` is inclusive, the start is positive, or no candle lies on it |
| Paginator.ZeroStartMissed | src/candlestick_manager.py:5893-5897 | a walk from time zero misses the candle of an honest exclusive exchange |
| WsIngest.ObserveFrame | src/candlestick_manager.py:5456-5490 | the loop builds the recent rows, the next frame with its eligibility marks, and the new or changed rows |
| WsIngest.FindCandidates | src/candlestick_manager.py:5501-5532 | candidates are the fresh rows and the proven predecessors of closed minutes, also those the frame no longer repeats |
| WsIngest.CandleFeed.ClearSession | src/candlestick_manager.py:5427-5429 | ending a session drops the frame and no candle |
| WsIngest.CandleFeed.SaveRows | src/candlestick_manager.py:10534-10581 | complete legacy days are skipped, and the index advances to the last row of every rewritten shard |
| WsIngest.VisibleAfterSave | src/candlestick_manager.py:2583-2658 | a save changes what a read shows only at minutes without a legacy row on days without a complete legacy shard |
| WsIngest.CompleteExactly | src/candlestick_manager.py:2486-2530 | a legacy day counts as complete if and only if it holds the aligned times of the day and no other |
| WsIngest.StoppedSave | src/candlestick_manager.py:2901-2944 | a save that fails at a day keeps exactly the days before it, less the complete legacy days |
| WsIngest.CandleFeed.PersistBatch | src/candlestick_manager.py:2901-2944 | memory changes only on success, and then every row is what a read of the disk shows; each failure leaves the specified store |
| WsIngest.CandleFeed.Ingest | src/candlestick_manager.py:5431-5582 | one update has exactly the specified effect on memory, disk, frame and result |
| WsIngest.DiskChanges | src/candlestick_manager.py:5520-5578 | what a call changes on disk are accepted rows of minutes that are over, in a primed session with a basis; nothing on disk disappears |
| WsIngest.LastFinalAdvances | src/candlestick_manager.py:10577-10581 | the last final timestamp never falls back, and no row of a day with a newly written row lies behind it, also when the call fails |
| WsIngest.ExtensionIsProven | src/candlestick_manager.py:5501-5571 | a minute not canonical before is persisted only if the frame before held it as eligible, this frame has a new or changed next minute, and the minute is over |
| WsIngest.ColdStartWritesNothing | src/candlestick_manager.py:5491-5518 | the first frame of a session and a store without basis write nothing |
| WsIngest.CanonicalIs | src/candlestick_manager.py:5535-5550 | canonical are the disk rows of the days that were read, before the rows in memory, which count in range only when nothing was read |
| WsIngest.AcceptedIsEarned | src/candlestick_manager.py:5456-5571 | from frame, update, clock, memory and disk: a row is accepted if and only if its minute is over and sealed by a new or changed row of the next, or it corrects a canonical minute that is over, and it differs from what is canonical |
| WsIngest.EarnedIsDelivered | src/candlestick_manager.py:5501-5582 | without faults an earned row is on disk and in memory after the call if and only if no earned row stands against a legacy row |
| WsIngest.ClosedMinuteIsSealed | src/candlestick_manager.py:5501-5582 | the converse of the extension rule: an eligible held minute that is over, brought a successor and not known yet, reaches disk and memory with the update's row, else the held one |
| WsIngest.CorrectionIsDelivered | src/candlestick_manager.py:5520-5582 | a changed row of a canonical minute that is over replaces it on disk and in memory |
| WsIngest.ReturnsTheCount | src/candlestick_manager.py:5491-5582 | a call that succeeds returns the number of rows it persisted |
| WsIngest.WriteAhead | src/candlestick_manager.py:2901-2949 | every row in memory was in memory or on disk before, or the call succeeded and the row is on disk |
| WsIngest.FailureIsRetryable | src/candlestick_manager.py:5572-5581 | a failed call leaves the frame unchanged and brings no WebSocket row into memory, although days already written stay and the index may have advanced |
| WsIngest.SucceedsIffLegacyAgrees | src/candlestick_manager.py:2904-2933 | without faults a primed call succeeds if and only if no accepted minute has another row in a legacy shard, complete or not |
| WsIngest.PartialLegacyDayRefuses | src/candlestick_manager.py:2583-2656 | one legacy row on an incomplete day makes a correction of its minute fail on read-back |
| WsIngest.RetryDelivers | src/candlestick_manager.py:5579-5582 | repeating a failed update delivers every row it had accepted |
| WsIngest.EligibilityHasOrigin | src/candlestick_manager.py:5468-5495 | in any run an eligible row was seen live earlier in the same session and held unchanged by every frame since |
| WsIngest.AdmissionOverRuns | src/candlestick_manager.py:5431-5582 | in any run of updates, session ends and outside changes, a new minute reaches disk only with such an origin and a fresh successor |
| WsIngest.HeldIsEligible | src/candlestick_manager.py:5468-5495 | in any run a row seen live in this session and held unchanged since is eligible |
| WsIngest.DeliveryOverRuns | src/candlestick_manager.py:5431-5582 | in any run such a row is on disk and in memory after the update that brings its successor once the minute is over |
| WindowValidator.CollectWindows | src/backtest.py:752-768 | the windows, or the first coin's metadata error |
| WindowValidator.WindowsInside | src/backtest.py:753-768 | clamped windows lie inside the grid |
| WindowValidator.EdgeErrorIs | src/backtest.py:778-798 | the edge check reports the first coin whose first declared row, or last one before a forced delisting, has no price, and none if and only if there is no such coin |
| WindowValidator.CollectEvents | src/backtest.py:800-806 | the event dictionary holds the net starts and ends of every row and column, and a row for each of them |
| WindowValidator.LiveSteps | src/backtest.py:808-816 | between two events the counts stand still and at the second change by its deltas |
| WindowValidator.CollectSegments | src/backtest.py:808-822 | segments are ordered, list exactly the columns with a live window on each of their rows, and cover every live row |
| WindowValidator.ContiguousColumns | src/backtest.py:844-852 | in a contiguous segment the offset of a column is its distance from the first |
| WindowValidator.PickCells | src/backtest.py:853-866 | sliced or indexed, every active column finds its own cell at its offset |
| WindowValidator.ScanChunk | src/backtest.py:859-876 | the flags of a chunk tell for every active column whether its cell is allowed |
| WindowValidator.UpdateWindow | src/backtest.py:878-893 | one window against one chunk extends its earliest bad row; its column is active wherever they overlap |
| WindowValidator.ScanSegment | src/backtest.py:841-893 | chunk by chunk, every coin's earliest bad row up to the segment's end |
| WindowValidator.ScanSegments | src/backtest.py:841-893 | all segments together find every coin's earliest bad row |
| WindowValidator.FirstBadIs | src/backtest.py:878-893 | the row-by-row scan finds the window's earliest disallowed row, or that there is none |
| WindowValidator.NaiveIs | src/backtest.py:895-912 | the naive outcome is the first failing coin and its earliest disallowed row, all coins before it clean |
| WindowValidator.Validate | src/backtest.py:721-912 | for every chunk size and all windows the outcome is that of the checks in order and the naive scan |
| WindowValidator.AcceptedIff | src/backtest.py:721-912 | from the request alone: accepted if and only if lengths, metadata, columns, interval and edge rows are in order and every row of the grid in a declared range is finite, or an allowed gap |
| WindowValidator.RejectedIff | src/backtest.py:742-912 | from the request alone: each error is reported if and only if it is the first due, with the first coin, that coin's earliest bad row and its first non-finite field |
| WindowValidator.ValidateTwice | src/backtest.py:842-852 | two runs that differ in item size and chunk bytes only have one outcome |
| CandleWindows.PlanWindow | src/backtest.py:1134-1161 | the window holds exactly the bars whose every minute has data, up to the stated exception, and both indices are told exactly, also those of an empty window |
| CandleWindows.SpuriousBarHasNoData | src/backtest.py:1141-1161 | the window is exact if and only if the exception does not apply |
| CandleWindows.NegativeLastIndex | src/backtest.py:1136-1163 | a coin with a negative last index and one-minute bars gets bar 0 without data |
| CandleWindows.OrdinaryCoinIsExact | src/backtest.py:1134-1161 | without an offset and with a nonnegative last index the window is exact |
| CandleWindows.RequestedIndex | src/backtest.py:1114-1125 | the index separates the bars that start before the requested time from the others |
| CandleWindows.TradeStart | src/backtest.py:1170-1180 | the first bar of the window at or after the request with the whole warmup behind it, the last bar if there is none, the request itself if it lies behind the window |
| CandleWindows.PlanCoins | src/backtest.py:1130-1180 | all per-coin lists have these properties, coin by coin |
| ValidRuns.RunsOfIndices | src/backtest_dataset_materializer.py:43-47 | splitting the indices where they jump gives the maximal runs of set flags |
| ValidRuns.ChangeRunsAreRuns | src/backtest_dataset_materializer.py:76-84 | the rises and falls of the padded mask pair up into the maximal runs |
| ValidRuns.ValidSpanIs | src/backtest_dataset_materializer.py:65-69 | first and last valid index and their number; without any, the length twice and zero |
| ValidRuns.LongestIsValid | src/backtest_dataset_materializer.py:72-86 | the span found is a stretch of valid rows with its length |
| ValidRuns.NoneIsLonger | src/backtest_dataset_materializer.py:82-86 | no stretch of valid rows is longer and none as long begins earlier |
| GapFiller.FillRange | src/backtest_dataset_materializer.py:52-54 | one assigned slice becomes flat and valid, the rest stays |
| GapFiller.InteriorGapsAre | src/backtest_dataset_materializer.py:40-47 | the gaps are the maximal runs of invalid rows between first and last valid row |
| GapFiller.FillInterior | src/backtest_dataset_materializer.py:38-55 | filling gap by gap completes the specified rows up to the last valid one and counts the newly valid |
| GapFiller.FillSparseGaps | src/backtest_dataset_materializer.py:20-62 | in place, both arrays become the specified filled ones and the result is the number of newly valid rows |
| GapFiller.FilledFlagIs | src/backtest_dataset_materializer.py:31-60 | the rows valid afterwards are the original first-to-last span, or all rows with edge fill |
| GapFiller.GapIsFlat | src/backtest_dataset_materializer.py:48-55 | a gap between two valid rows becomes flat at the close before it, valid rows stay as they are |
| GapFiller.EdgesAre | src/backtest_dataset_materializer.py:30-62 | before the first and after the last valid row the rows stay, or with edge fill become flat at that row's close |
| GapFiller.LongestAfterFill | src/backtest_dataset_materializer.py:305-321 | without edge fill the longest valid stretch is then the original span, with it everything |
| GapFiller.FillTwice | src/backtest_dataset_materializer.py:20-62 | filling again changes nothing |
| Coverage.CoverageMetadata | src/backtest_dataset_materializer.py:89-132 | every reported number, and the first twenty gap windows |
| Coverage.RowsAddUp | src/backtest_dataset_materializer.py:102-131 | at any whole number of minutes to a row, valid, leading, interior and trailing minutes sum to all, and the interior ones are what the fill adds |
| Coverage.WindowsAreGaps | src/backtest_dataset_materializer.py:108-131 | the gap windows hold the times of exactly the invalid rows between valid ones |
| FrameWriter.WriteChunks | src/backtest_dataset_materializer.py:150-171 | for every chunk size the destination is the stack of all frames, written in as many chunks as the size requires |
| NpyHash.LittleEndianRoundTrip | src/hlcvs_manifest.py:102-104 | the length field reads back as it was written |
| NpyHash.StreamLayout | src/hlcvs_manifest.py:86-107 | the format byte by byte: magic, version, a length field of two or four bytes, header, data |
| NpyHash.FormatIs | src/hlcvs_manifest.py:90-100 | headers of up to 65535 bytes in version 1, of up to four gigabytes in versions 2 and 3, and no other version |
| NpyHash.MalformedIsHopeless | src/hlcvs_manifest.py:86-100 | from the eighth byte on a stream is refused if and only if no NPY stream begins with it |
| NpyHash.HashInputIsInjective | src/hlcvs_manifest.py:61-67 | arrays with different dtype, shape or elements are hashed from different bytes |
| NpyHash.HeaderIsStable | src/hlcvs_manifest.py:86-107 | what the header has decided stays decided as the stream grows |
| NpyHash.CompleteIffNpy | src/hlcvs_manifest.py:86-115 | a stream has a complete header and this payload if and only if it is an NPY stream of these array bytes |
| NpyHash.HashingWriter.constructor | src/hlcvs_manifest.py:61-67 | a new writer has seen an empty stream |
| NpyHash.HashingWriter.HashStreamBytes | src/hlcvs_manifest.py:80-115 | the writer's state depends on the stream alone, however it is cut, and malformed headers are reported |
| NpyHash.HashingWriter.Write | src/hlcvs_manifest.py:69-78 | a short write is refused and hashes nothing, any other write extends the stream |
| NpyHash.HashingWriter.HexDigest | src/hlcvs_manifest.py:117-125 | a digest comes out if and only if the stream is an NPY stream of the declared length, and it is the logical hash of its bytes |
| NpyHash.Feed | src/hlcvs_manifest.py:69-115 | any cutting of an NPY stream is taken in whole unless the destination cuts a write short |
| NpyHash.SaveWithHash | src/hlcvs_manifest.py:128-134 | for any cutting into writes the digest is the array's logical hash, and a short write is never passed over |

## Left out

- The heap of the sweep is a sorted sequence; its binary layout in an array is not modelled.
- Gap records with missing keys and the legacy two-element form: every record carries all fields.
- Times off the minute grid in gap records, rows and requests.
- Index JSON, shard files, checksums, locks, directory migration, memory and disk retention: a locked region is one step, disk is a map.
- EMA caches, synthetic-timestamp tracking, observers, logging, progress and summary counters.
- `clear_known_gaps`, `_record_verified_gap`, the KuCoin contextual requests and their deferral stamps, and `_unverified_uncovered_gap_ranges`.
- `_missing_spans_step` for higher timeframes.
- The normalisation of raw exchange rows: rows arrive normalised, and a page in time order.
- Payload-gap recording, KuCoin synthesis, batch callbacks and the Bitget limit probe inside the paginated fetch; overlaps other than one candle for an exclusive exchange.
- Rounding of floats: prices, volumes and the expansion path are reals.
- Not-a-number and signed zeros in the field order that breaks ties of equal timestamps: fields are reals.
- The order in which a Python set iterates: the range of the strict disk read in the WebSocket call is a free parameter.
- The fallback of `get_last_final_ts` to the shard index when the metadata holds no positive value; `lastFinalTs` is the metadata value. Legacy shards that another process publishes in the middle of a call.
- The exceptions a ladder step failed with: `failures` is the set of the steps.
- The metadata of the last WebSocket row (`last_ws_final_ts`, `last_ws_persist_ms`).
- Download of coarser candles, archive sources and the callers of the ladder.
- Aggregating and trimming the backtest rows themselves (`align_and_aggregate_hlcvs`); the offset it returns is a parameter. Building the payload outside the per-coin index lists.
- The timestamp text, shape check and scan statistics of the window validator's messages.
- Memory maps, cancellation checks and the store reads of the materializer.
- SHA-256 is an arbitrary function of the absorbed bytes.
- Paginator.FetchPaginated: completeness is for an inclusive exchange without overlap and an exclusive one with one candle of overlap, the two configurations in use.
