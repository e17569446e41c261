/**
 * The HLCV window validator: an event sweep finds which columns are active on which rows, a chunked
 * scan visits those rows, and the outcome is that of a naive row-by-row scan.
 */
module WindowValidator {
  import opened Wrappers
  import opened Minutes
  import opened Sorting

  datatype Field = Finite(x: real) | NaN | Infinite

  datatype Cell = Cell(high: Field, low: Field, close: Field, volume: Field)

  /** Rows of columns; every row has the same number of columns. */
  type Grid = seq<seq<Cell>>

  predicate Rectangular(grid: Grid, cols: nat) {
    forall r :: 0 <= r < |grid| ==> |grid[r]| == cols
  }

  /** A coin's declared rows in a column; empty when `start > end`. */
  datatype Window = Window(col: int, start: int, end: int)

  datatype Invalid =
    | LengthMismatch
    | MissingMetadata(coin: nat)
    | ColumnOutside(coin: nat)
    | BadInterval
    | GapAtFirstValid(coin: nat)
    | GapAtForcedDelist(coin: nat)
    | NonFinite(coin: nat, row: int, field: nat)

  datatype Request = Request(
    grid: Grid,
    cols: nat,
    coins: nat,
    first: seq<int>,
    last: seq<int>,
    columns: Option<seq<int>>,
    itemSize: nat,
    targetChunkBytes: int,
    allowGaps: bool,
    interval: int)

  predicate GapCell(c: Cell) { c.high.NaN? && c.low.NaN? && c.close.NaN? }

  /** A cell that may stand inside a window. */
  predicate Allowed(c: Cell, allowGaps: bool) {
    || (c.high.Finite? && c.low.Finite? && c.close.Finite? && c.volume.Finite?)
    || (allowGaps && GapCell(c))
  }

  function FirstBadField(c: Cell): nat {
    if !c.high.Finite? then 0 else if !c.low.Finite? then 1 else if !c.close.Finite? then 2 else 3
  }

  // ---------- windows from metadata ----------

  function Columns(req: Request): seq<int> {
    match req.columns
    case Some(c) => c
    case None => seq(req.coins, i => i)
  }

  /** The window of one coin, clamped to the rows. */
  function WindowOf(req: Request, coin: nat): Result<Window, Invalid>
    requires coin < |Columns(req)|
  {
    if coin >= |req.first| || coin >= |req.last| then Err(MissingMetadata(coin))
    else
      var col := Columns(req)[coin];
      if col < 0 || col >= req.cols then Err(ColumnOutside(coin))
      else if req.first[coin] > req.last[coin] then Ok(Window(col, 1, 0))
      else Ok(Window(col, Max(0, req.first[coin]), Min(|req.grid| - 1, req.last[coin])))
  }

  function WindowsUpTo(req: Request, n: nat): Result<seq<Window>, Invalid>
    requires n <= |Columns(req)|
  {
    if n == 0 then Ok([])
    else
      match WindowsUpTo(req, n - 1)
      case Err(e) => Err(e)
      case Ok(ws) =>
        match WindowOf(req, n - 1)
        case Err(e) => Err(e)
        case Ok(w) => Ok(ws + [w])
  }

  predicate Nonempty(w: Window) { w.start <= w.end }

  predicate Fits(w: Window, rows: int, cols: int) {
    0 <= w.col < cols && (Nonempty(w) ==> 0 <= w.start && w.end < rows)
  }

  /** Windows that stay inside the grid. */
  predicate Inside(ws: seq<Window>, rows: int, cols: int) {
    forall p :: 0 <= p < |ws| ==> Fits(ws[p], rows, cols)
  }

  lemma {:induction false} WindowsInside(req: Request, n: nat)
    requires n <= |Columns(req)| && WindowsUpTo(req, n).Ok?
    ensures |WindowsUpTo(req, n).value| == n
    ensures Inside(WindowsUpTo(req, n).value, |req.grid|, req.cols)
  {
    if n > 0 { WindowsInside(req, n - 1); }
  }

  method CollectWindows(req: Request) returns (r: Result<seq<Window>, Invalid>)
    requires |Columns(req)| == req.coins
    ensures r == WindowsUpTo(req, req.coins)
  {
    var ws: seq<Window> := [];
    for coin := 0 to req.coins
      invariant WindowsUpTo(req, coin) == Ok(ws)
    {
      var w := WindowOf(req, coin);
      if w.Err? {
        WindowsFailed(req, coin + 1, req.coins);
        return Err(w.error);
      }
      ws := ws + [w.value];
    }
    r := Ok(ws);
  }

  lemma {:induction false} WindowsFailed(req: Request, n: nat, m: nat)
    requires n <= m <= |Columns(req)| && WindowsUpTo(req, n).Err?
    ensures WindowsUpTo(req, m) == WindowsUpTo(req, n)
    decreases m - n
  {
    if n < m { WindowsFailed(req, n + 1, m); }
  }

  // ---------- edge rows when gaps are allowed ----------

  /** The checks on one window's edge rows. */
  function EdgeError(req: Request, ws: seq<Window>, coin: nat): Option<Invalid>
    requires coin < |ws| && Inside(ws, |req.grid|, req.cols) && Rectangular(req.grid, req.cols)
  {
    var w := ws[coin];
    if !Nonempty(w) then None
    else if GapCell(req.grid[w.start][w.col]) then Some(GapAtFirstValid(coin))
    else if w.end + 1400 * req.interval < |req.grid| && GapCell(req.grid[w.end][w.col])
    then Some(GapAtForcedDelist(coin))
    else None
  }

  function EdgeErrorUpTo(req: Request, ws: seq<Window>, n: nat): Option<Invalid>
    requires n <= |ws| && Inside(ws, |req.grid|, req.cols) && Rectangular(req.grid, req.cols)
  {
    if n == 0 then None
    else if EdgeErrorUpTo(req, ws, n - 1).Some? then EdgeErrorUpTo(req, ws, n - 1)
    else EdgeError(req, ws, n - 1)
  }

  method CheckEdges(req: Request, ws: seq<Window>) returns (e: Option<Invalid>)
    requires Inside(ws, |req.grid|, req.cols) && Rectangular(req.grid, req.cols)
    ensures e == EdgeErrorUpTo(req, ws, |ws|)
  {
    for coin := 0 to |ws|
      invariant EdgeErrorUpTo(req, ws, coin).None?
    {
      e := EdgeError(req, ws, coin);
      if e.Some? {
        EdgeErrorStays(req, ws, coin + 1, |ws|);
        return;
      }
    }
    e := None;
  }

  lemma {:induction false} EdgeErrorStays(req: Request, ws: seq<Window>, n: nat, m: nat)
    requires n <= m <= |ws| && Inside(ws, |req.grid|, req.cols) && Rectangular(req.grid, req.cols)
    requires EdgeErrorUpTo(req, ws, n).Some?
    ensures EdgeErrorUpTo(req, ws, m) == EdgeErrorUpTo(req, ws, n)
    decreases m - n
  {
    if n < m { EdgeErrorStays(req, ws, n + 1, m); }
  }

  // ---------- the event sweep ----------

  /** The window is declared for this row of this column. */
  predicate LiveAt(w: Window, col: int, row: int) {
    w.col == col && w.start <= row <= w.end
  }

  /** How many windows are live on a row of a column. */
  function Live(ws: seq<Window>, col: int, row: int): nat {
    if ws == [] then 0
    else Live(ws[..|ws| - 1], col, row) + if LiveAt(ws[|ws| - 1], col, row) then 1 else 0
  }

  /** The change of the count at a row: starts there less ends just before it. */
  function Delta(ws: seq<Window>, col: int, row: int): int {
    if ws == [] then 0
    else
      var w := ws[|ws| - 1];
      Delta(ws[..|ws| - 1], col, row)
      + (if Nonempty(w) && w.col == col && w.start == row then 1 else 0)
      - (if Nonempty(w) && w.col == col && w.end + 1 == row then 1 else 0)
  }

  function EventRows(ws: seq<Window>): (r: seq<int>)
    ensures Increasing(r)
  {
    if ws == [] then []
    else
      var w, rest := ws[|ws| - 1], EventRows(ws[..|ws| - 1]);
      if Nonempty(w) then InsertUnique(w.start, InsertUnique(w.end + 1, rest)) else rest
  }

  function Get(m: map<int, int>, k: int): int {
    if k in m then m[k] else 0
  }

  function Bump(events: map<int, map<int, int>>, row: int, col: int, delta: int): map<int, map<int, int>> {
    var at := if row in events then events[row] else map[];
    events[row := at[col := Get(at, col) + delta]]
  }

  function EventAt(events: map<int, map<int, int>>, row: int, col: int): int {
    if row in events then Get(events[row], col) else 0
  }

  /** `column_events`: the changes by row and column. */
  method CollectEvents(ws: seq<Window>) returns (events: map<int, map<int, int>>)
    ensures forall row, col :: EventAt(events, row, col) == Delta(ws, col, row)
    ensures forall row :: row in events <==> row in EventRows(ws)
  {
    events := map[];
    for i := 0 to |ws|
      invariant forall row, col :: EventAt(events, row, col) == Delta(ws[..i], col, row)
      invariant forall row :: row in events <==> row in EventRows(ws[..i])
    {
      var w := ws[i];
      assert ws[..i + 1][..i] == ws[..i];
      if Nonempty(w) {
        var begun := Bump(events, w.start, w.col, 1);
        var next := Bump(begun, w.end + 1, w.col, -1);
        BumpTwice(events, w);
        events := next;
      }
    }
    assert ws[..|ws|] == ws;
  }

  /** The two events of a window change only their own entries. */
  lemma {:induction false} BumpTwice(events: map<int, map<int, int>>, w: Window)
    requires Nonempty(w)
    ensures var next := Bump(Bump(events, w.start, w.col, 1), w.end + 1, w.col, -1);
      && (forall row :: row in next <==> row in events || row == w.start || row == w.end + 1)
      && forall row, col ::
        EventAt(next, row, col) == EventAt(events, row, col)
        + (if col == w.col && row == w.start then 1 else 0) - (if col == w.col && row == w.end + 1 then 1 else 0)
  {}

  /** No window starts or ends strictly between two rows. */
  ghost predicate Quiet(ws: seq<Window>, from: int, to: int) {
    forall p :: 0 <= p < |ws| && Nonempty(ws[p]) ==>
      (ws[p].start <= from || to <= ws[p].start) && (ws[p].end + 1 <= from || to <= ws[p].end + 1)
  }

  lemma {:induction false} EventRowOf(ws: seq<Window>, p: nat)
    requires p < |ws| && Nonempty(ws[p])
    ensures ws[p].start in EventRows(ws) && ws[p].end + 1 in EventRows(ws)
  {
    var n := |ws| - 1;
    if p < n { EventRowOf(ws[..n], p); }
  }

  lemma {:induction false} BetweenEvents(ws: seq<Window>, rows: seq<int>, k: nat)
    requires rows == EventRows(ws) && k + 1 < |rows|
    ensures Quiet(ws, rows[k], rows[k + 1])
  {
    forall p | 0 <= p < |ws| && Nonempty(ws[p])
      ensures (ws[p].start <= rows[k] || rows[k + 1] <= ws[p].start)
           && (ws[p].end + 1 <= rows[k] || rows[k + 1] <= ws[p].end + 1)
    {
      EventRowOf(ws, p);
      NotBetween(rows, k, ws[p].start);
      NotBetween(rows, k, ws[p].end + 1);
    }
  }

  /** Between two events the counts stand still, and at the second they change by its deltas. */
  lemma {:induction false} LiveSteps(ws: seq<Window>, col: int, from: int, to: int, row: int)
    requires Quiet(ws, from, to) && from <= row < to
    ensures Live(ws, col, row) == Live(ws, col, from)
    ensures Live(ws, col, to) == Live(ws, col, from) + Delta(ws, col, to)
  {
    if ws != [] {
      var n := |ws| - 1;
      assert forall p :: 0 <= p < n ==> ws[..n][p] == ws[p];
      assert Nonempty(ws[n]) ==> (ws[n].start <= from || to <= ws[n].start);
      LiveSteps(ws[..n], col, from, to, row);
    }
  }

  /** Before the first event nothing is live; at it, exactly what starts. */
  lemma {:induction false} LiveAtFirst(ws: seq<Window>, col: int, row: int)
    requires forall p :: 0 <= p < |ws| && Nonempty(ws[p]) ==> row <= ws[p].start
    ensures Live(ws, col, row) == Delta(ws, col, row)
    ensures forall r :: r < row ==> Live(ws, col, r) == 0
  {
    if ws != [] {
      var n := |ws| - 1;
      assert forall p :: 0 <= p < n ==> ws[..n][p] == ws[p];
      LiveAtFirst(ws[..n], col, row);
    }
  }

  lemma {:induction false} LiveWindow(ws: seq<Window>, p: nat, row: int)
    requires p < |ws| && ws[p].start <= row <= ws[p].end
    ensures Live(ws, ws[p].col, row) > 0
  {
    if p < |ws| - 1 { LiveWindow(ws[..|ws| - 1], p, row); }
  }

  lemma {:induction false} LiveColumn(ws: seq<Window>, col: int, row: int) returns (p: nat)
    requires Live(ws, col, row) > 0
    ensures p < |ws| && LiveAt(ws[p], col, row)
  {
    if LiveAt(ws[|ws| - 1], col, row) { p := |ws| - 1; } else { p := LiveColumn(ws[..|ws| - 1], col, row); }
  }

  /** A run of rows on which the same columns are active. */
  datatype Segment = Segment(start: int, end: int, columns: seq<int>)

  /** `sorted(active)`: the columns with a count, ascending. */
  function ActiveColumns(active: map<int, int>, cols: nat): (r: seq<int>)
    ensures Increasing(r)
    ensures forall c :: c in r <==> 0 <= c < cols && c in active
  {
    if cols == 0 then []
    else
      var before := ActiveColumns(active, cols - 1);
      assert forall i :: 0 <= i < |before| ==> before[i] in before;
      if cols - 1 in active then before + [cols - 1] else before
  }

  /** The counts after one event row; columns that fall to zero are dropped. */
  function Applied(active: map<int, int>, deltas: map<int, int>): (r: map<int, int>)
    ensures forall c :: Get(r, c) == Get(active, c) + Get(deltas, c)
    ensures forall c :: c in r ==> r[c] != 0
  {
    map c | c in active.Keys + deltas.Keys && Get(active, c) + Get(deltas, c) != 0 :: Get(active, c) + Get(deltas, c)
  }

  ghost predicate GoodSegment(ws: seq<Window>, s: Segment) {
    && s.start < s.end && s.columns != [] && Increasing(s.columns)
    && forall row, c :: s.start <= row < s.end ==> (c in s.columns <==> Live(ws, c, row) > 0)
  }

  ghost predicate OrderedSegments(segments: seq<Segment>) {
    forall i, j :: 0 <= i < j < |segments| ==> segments[i].end <= segments[j].start
  }

  predicate InSegment(segments: seq<Segment>, row: int) {
    exists i :: 0 <= i < |segments| && segments[i].start <= row < segments[i].end
  }

  /** The segments cover exactly the rows below `limit` on which some window is live. */
  ghost predicate CoversLive(ws: seq<Window>, segments: seq<Segment>, limit: int) {
    && (forall i :: 0 <= i < |segments| ==> GoodSegment(ws, segments[i]) && segments[i].end <= limit)
    && OrderedSegments(segments)
    && forall row, c :: row < limit && Live(ws, c, row) > 0 ==> InSegment(segments, row)
  }

  lemma {:induction false} AddSegment(ws: seq<Window>, segments: seq<Segment>, from: int, to: int, columns: seq<int>)
    requires CoversLive(ws, segments, from) && from < to && Increasing(columns)
    requires forall row, c :: from <= row < to ==> (c in columns <==> Live(ws, c, row) > 0)
    ensures CoversLive(ws, if columns == [] then segments else segments + [Segment(from, to, columns)], to)
  {
    var s := Segment(from, to, columns);
    var all := if columns == [] then segments else segments + [s];
    forall row, c | row < to && Live(ws, c, row) > 0 ensures InSegment(all, row) {
      if row < from {
        var i :| 0 <= i < |segments| && segments[i].start <= row < segments[i].end;
        assert all[i] == segments[i];
      } else {
        assert c in columns;
        assert all[|segments|] == s;
      }
    }
    forall i | 0 <= i < |all| ensures GoodSegment(ws, all[i]) && all[i].end <= to {
      if i < |segments| { assert GoodSegment(ws, segments[i]) && segments[i].end <= from; }
    }
  }

  /** The sweep stands before event row `k`: earlier rows are cut into segments, `active` holds the counts before it. */
  ghost predicate Sweeping(ws: seq<Window>, eventRows: seq<int>, k: nat,
                           segments: seq<Segment>, active: map<int, int>)
  {
    && (forall c :: c in active ==> active[c] != 0)
    && if eventRows == [] then segments == []
       else
         && k < |eventRows| && CoversLive(ws, segments, eventRows[k])
         && forall c :: Get(active, c) + Delta(ws, c, eventRows[k]) == Live(ws, c, eventRows[k])
  }

  lemma {:induction false} SweepStep(ws: seq<Window>, eventRows: seq<int>, k: nat, rows: int, cols: nat,
                                     segments: seq<Segment>, active: map<int, int>, deltas: map<int, int>)
    requires Sweeping(ws, eventRows, k, segments, active) && eventRows == EventRows(ws) && k + 1 < |eventRows|
    requires Inside(ws, rows, cols) && forall c :: Get(deltas, c) == Delta(ws, c, eventRows[k])
    ensures var next := Applied(active, deltas);
      var columns := ActiveColumns(next, cols);
      Sweeping(ws, eventRows, k + 1,
               if columns == [] then segments else segments + [Segment(eventRows[k], eventRows[k + 1], columns)], next)
  {
    var from, to, next := eventRows[k], eventRows[k + 1], Applied(active, deltas);
    var columns := ActiveColumns(next, cols);
    SegmentColumns(ws, eventRows, k, rows, cols, next, columns);
    AddSegment(ws, segments, from, to, columns);
    BetweenEvents(ws, eventRows, k);
    forall c ensures Get(next, c) + Delta(ws, c, to) == Live(ws, c, to) { LiveSteps(ws, c, from, to, from); }
  }

  /** The sweep over the event rows. */
  method CollectSegments(ws: seq<Window>, rows: int, cols: nat) returns (segments: seq<Segment>)
    requires Inside(ws, rows, cols)
    ensures CoversLive(ws, segments, rows)
  {
    var events := CollectEvents(ws);
    var eventRows := EventRows(ws);
    segments := [];
    var active: map<int, int> := map[];
    SweepStart(ws, eventRows);
    var k := 0;
    while k + 1 < |eventRows|
      invariant 0 <= k && (eventRows != [] ==> k < |eventRows|)
      invariant Sweeping(ws, eventRows, k, segments, active)
    {
      assert eventRows[k] in events;
      ghost var at := eventRows[k];
      assert forall c :: EventAt(events, at, c) == Delta(ws, c, at);
      SweepStep(ws, eventRows, k, rows, cols, segments, active, events[eventRows[k]]);
      active := Applied(active, events[eventRows[k]]);
      var columns := ActiveColumns(active, cols);
      if columns != [] {
        segments := segments + [Segment(eventRows[k], eventRows[k + 1], columns)];
      }
      k := k + 1;
    }
    SweepEnd(ws, eventRows, segments, rows, cols);
  }

  lemma {:induction false} SweepStart(ws: seq<Window>, eventRows: seq<int>)
    requires eventRows == EventRows(ws)
    ensures eventRows != [] ==> CoversLive(ws, [], eventRows[0])
    ensures eventRows != [] ==> forall c :: Delta(ws, c, eventRows[0]) == Live(ws, c, eventRows[0])
  {
    if eventRows != [] {
      forall p | 0 <= p < |ws| && Nonempty(ws[p]) ensures eventRows[0] <= ws[p].start {
        EventRowOf(ws, p);
        BetweenEnds(eventRows, ws[p].start);
      }
      forall c ensures Live(ws, c, eventRows[0]) == Delta(ws, c, eventRows[0]) { LiveAtFirst(ws, c, eventRows[0]); }
      forall row, c | row < eventRows[0] ensures Live(ws, c, row) == 0 { LiveAtFirst(ws, c, eventRows[0]); }
    }
  }

  /** The columns of a segment are those with a live window, on each of its rows. */
  lemma {:induction false} SegmentColumns(ws: seq<Window>, eventRows: seq<int>, k: nat, rows: int, cols: nat,
                                          active: map<int, int>, columns: seq<int>)
    requires eventRows == EventRows(ws) && k + 1 < |eventRows| && Inside(ws, rows, cols)
    requires forall c :: Get(active, c) == Live(ws, c, eventRows[k])
    requires forall c :: c in active ==> active[c] != 0
    requires columns == ActiveColumns(active, cols)
    ensures forall row, c :: eventRows[k] <= row < eventRows[k + 1] ==> (c in columns <==> Live(ws, c, row) > 0)
  {
    BetweenEvents(ws, eventRows, k);
    forall row, c | eventRows[k] <= row < eventRows[k + 1] ensures c in columns <==> Live(ws, c, row) > 0 {
      LiveSteps(ws, c, eventRows[k], eventRows[k + 1], row);
      assert c in active <==> Live(ws, c, row) > 0;
      if Live(ws, c, row) > 0 { var p := LiveColumn(ws, c, row); }
    }
  }

  lemma {:induction false} SweepEnd(ws: seq<Window>, eventRows: seq<int>, segments: seq<Segment>, rows: int, cols: nat)
    requires eventRows == EventRows(ws) && Inside(ws, rows, cols)
    requires eventRows != [] ==> CoversLive(ws, segments, eventRows[|eventRows| - 1])
    requires eventRows == [] ==> segments == []
    ensures CoversLive(ws, segments, rows)
  {
    forall row, c | Live(ws, c, row) > 0 ensures InSegment(segments, row) {
      var p := LiveColumn(ws, c, row);
      EventRowOf(ws, p);
      BetweenEnds(eventRows, ws[p].end + 1);
    }
    if eventRows != [] { LastEventInside(ws, eventRows, rows, cols); }
  }

  lemma {:induction false} LastEventInside(ws: seq<Window>, eventRows: seq<int>, rows: int, cols: nat)
    requires eventRows == EventRows(ws) && Inside(ws, rows, cols) && eventRows != []
    ensures eventRows[|eventRows| - 1] <= rows
  {
    EventsInside(ws, eventRows[|eventRows| - 1], rows, cols);
  }

  lemma {:induction false} EventsInside(ws: seq<Window>, x: int, rows: int, cols: nat)
    requires Inside(ws, rows, cols) && x in EventRows(ws)
    ensures 0 <= x <= rows
  {
    var n := |ws| - 1;
    assert forall p :: 0 <= p < n ==> ws[..n][p] == ws[p];
    if x in EventRows(ws[..n]) { EventsInside(ws[..n], x, rows, cols); }
  }

  // ---------- the naive scan ----------

  /** The earliest disallowed row of a window below `limit`, looking at every row. */
  function FirstBad(grid: Grid, cols: nat, w: Window, allowGaps: bool, limit: int): Option<int>
    requires limit <= |grid| && Rectangular(grid, cols) && Fits(w, |grid|, cols)
    decreases limit - w.start
  {
    if !Nonempty(w) || limit <= w.start then None
    else
      var before := FirstBad(grid, cols, w, allowGaps, limit - 1);
      if before.Some? then before
      else if limit - 1 <= w.end && !Allowed(grid[limit - 1][w.col], allowGaps) then Some(limit - 1)
      else None
  }

  /** The first coin with a disallowed row, and that coin's earliest one. */
  function Naive(grid: Grid, cols: nat, ws: seq<Window>, allowGaps: bool, n: nat): Option<(nat, int)>
    requires n <= |ws| && Rectangular(grid, cols) && Inside(ws, |grid|, cols)
  {
    if n == 0 then None
    else if Naive(grid, cols, ws, allowGaps, n - 1).Some? then Naive(grid, cols, ws, allowGaps, n - 1)
    else
      match FirstBad(grid, cols, ws[n - 1], allowGaps, |grid|)
      case Some(row) => Some((n - 1, row))
      case None => None
  }

  lemma {:induction false} FirstBadIs(grid: Grid, cols: nat, w: Window, allowGaps: bool, limit: int)
    requires limit <= |grid| && Rectangular(grid, cols) && Fits(w, |grid|, cols)
    ensures match FirstBad(grid, cols, w, allowGaps, limit)
      case None => forall r :: w.start <= r <= w.end && r < limit ==> Allowed(grid[r][w.col], allowGaps)
      case Some(b) =>
        && w.start <= b <= w.end && b < limit && !Allowed(grid[b][w.col], allowGaps)
        && forall r :: w.start <= r < b ==> Allowed(grid[r][w.col], allowGaps)
    decreases limit - w.start
  {
    if Nonempty(w) && w.start < limit { FirstBadIs(grid, cols, w, allowGaps, limit - 1); }
  }

  /** The naive outcome, spelled out: the first failing coin, its earliest bad row, all coins before it clean. */
  lemma {:induction false} NaiveIs(grid: Grid, cols: nat, ws: seq<Window>, allowGaps: bool, n: nat)
    requires n <= |ws| && Rectangular(grid, cols) && Inside(ws, |grid|, cols)
    ensures match Naive(grid, cols, ws, allowGaps, n)
      case None => forall p, r :: 0 <= p < n && ws[p].start <= r <= ws[p].end ==> Allowed(grid[r][ws[p].col], allowGaps)
      case Some((coin, row)) =>
        && coin < n && ws[coin].start <= row <= ws[coin].end && !Allowed(grid[row][ws[coin].col], allowGaps)
        && (forall r :: ws[coin].start <= r < row ==> Allowed(grid[r][ws[coin].col], allowGaps))
        && forall p, r :: 0 <= p < coin && ws[p].start <= r <= ws[p].end ==> Allowed(grid[r][ws[p].col], allowGaps)
  {
    if n > 0 {
      NaiveIs(grid, cols, ws, allowGaps, n - 1);
      FirstBadIs(grid, cols, ws[n - 1], allowGaps, |grid|);
    }
  }

  // ---------- the chunked scan ----------

  predicate Contiguous(columns: seq<int>)
    requires columns != []
  {
    |columns| == columns[|columns| - 1] - columns[0] + 1
  }

  /** `column_offsets[c]`: defined for the segment's own columns only. */
  function Offset(columns: seq<int>, c: int): int
    requires columns != [] && c in columns
  {
    if Contiguous(columns) then c - columns[0] else Position(columns, c)
  }

  function Position(columns: seq<int>, c: int): (k: nat)
    requires c in columns
    ensures k < |columns| && columns[k] == c
  {
    if columns[0] == c then 0 else 1 + Position(columns[1..], c)
  }

  lemma {:induction false} ContiguousColumns(columns: seq<int>, k: nat)
    requires columns != [] && Increasing(columns) && Contiguous(columns) && k < |columns|
    ensures columns[k] == columns[0] + k
  {
    AtLeast(columns, 0, k);
    AtLeast(columns, k, |columns| - 1);
  }

  lemma {:induction false} AtLeast(s: seq<int>, i: nat, j: nat)
    requires Increasing(s) && i <= j < |s|
    ensures s[j] - s[i] >= j - i
    decreases j
  {
    if i < j { AtLeast(s, i, j - 1); }
  }

  /** At its offset every active column finds its own cell's verdict. */
  ghost predicate RowFlags(flags: seq<bool>, row: seq<Cell>, columns: seq<int>, allowGaps: bool)
    requires columns != [] && forall c :: c in columns ==> 0 <= c < |row|
  {
    forall c :: c in columns ==>
      0 <= Offset(columns, c) < |flags| && flags[Offset(columns, c)] == Allowed(row[c], allowGaps)
  }

  /** One chunk of rows: for each row whether the cell of each active column is allowed. */
  method ScanChunk(grid: Grid, from: int, to: int, columns: seq<int>, cols: nat,
                   allowGaps: bool) returns (finite: seq<seq<bool>>)
    requires Rectangular(grid, cols) && 0 <= from <= to <= |grid| && columns != [] && Increasing(columns)
    requires forall c :: c in columns ==> 0 <= c < cols
    ensures |finite| == to - from
    ensures forall i :: 0 <= i < |finite| ==> RowFlags(finite[i], grid[from + i], columns, allowGaps)
  {
    finite := [];
    while |finite| < to - from
      invariant |finite| <= to - from
      invariant forall i :: 0 <= i < |finite| ==> RowFlags(finite[i], grid[from + i], columns, allowGaps)
    {
      var cells := PickCells(grid[from + |finite|], columns, cols);
      var flags := seq(|cells|, k requires 0 <= k < |cells| => Allowed(cells[k], allowGaps));
      finite := finite + [flags];
    }
  }

  /** A row's cells of the active columns: a slice when they are contiguous, else one by one. */
  method PickCells(row: seq<Cell>, columns: seq<int>, cols: nat) returns (cells: seq<Cell>)
    requires |row| == cols && columns != [] && Increasing(columns)
    requires forall c :: c in columns ==> 0 <= c < cols
    ensures forall c :: c in columns ==> 0 <= Offset(columns, c) < |cells| && cells[Offset(columns, c)] == row[c]
  {
    assert columns[0] in columns && columns[|columns| - 1] in columns;
    AtLeast(columns, 0, |columns| - 1);
    if Contiguous(columns) {
      cells := row[columns[0]..columns[|columns| - 1] + 1];
      forall c | c in columns ensures 0 <= Offset(columns, c) < |cells| && cells[Offset(columns, c)] == row[c] {
        ContiguousColumns(columns, Position(columns, c));
      }
    } else {
      assert forall k :: 0 <= k < |columns| ==> columns[k] in columns;
      cells := seq(|columns|, k requires 0 <= k < |columns| => row[columns[k]]);
    }
  }

  /** `range(start, end, step)` chunk size: never less than one row. */
  function ChunkRows(req: Request, columns: seq<int>): (n: int)
    ensures n >= 1
  {
    Max(1, req.targetChunkBytes / Max(1, |columns| * 4 * req.itemSize))
  }

  /** Every coin's entry is its earliest disallowed row below `limit`. */
  ghost predicate ScannedTo(grid: Grid, cols: nat, ws: seq<Window>, allowGaps: bool, firstBad: seq<Option<int>>,
                            limit: int)
    requires limit <= |grid| && Rectangular(grid, cols) && Inside(ws, |grid|, cols)
  {
    && |firstBad| == |ws|
    && forall p :: 0 <= p < |ws| ==> firstBad[p] == FirstBad(grid, cols, ws[p], allowGaps, limit)
  }

  /** `r` is the earliest disallowed row of the window in `lo .. hi - 1`. */
  ghost predicate EarliestIn(grid: Grid, cols: nat, w: Window, allowGaps: bool, lo: int, hi: int, r: Option<int>)
    requires Rectangular(grid, cols) && 0 <= w.col < cols && 0 <= lo && hi <= |grid|
  {
    match r
    case None => forall i :: lo <= i < hi ==> Allowed(grid[i][w.col], allowGaps)
    case Some(b) =>
      && lo <= b < hi && !Allowed(grid[b][w.col], allowGaps)
      && forall i :: lo <= i < b ==> Allowed(grid[i][w.col], allowGaps)
  }

  /** Looking on from row `from` to row `to` when nothing was found before. */
  lemma {:induction false} FirstBadExtends(grid: Grid, cols: nat, w: Window, allowGaps: bool, from: int, to: int,
                                           r: Option<int>)
    requires 0 <= from <= to <= |grid| && Rectangular(grid, cols) && Fits(w, |grid|, cols) && Nonempty(w)
    requires FirstBad(grid, cols, w, allowGaps, from).None?
    requires EarliestIn(grid, cols, w, allowGaps, Max(w.start, from), Min(w.end + 1, to), r)
    ensures FirstBad(grid, cols, w, allowGaps, to) == r
  {
    FirstBadIs(grid, cols, w, allowGaps, from);
    FirstBadIs(grid, cols, w, allowGaps, to);
  }

  lemma {:induction false} FirstBadStays(grid: Grid, cols: nat, w: Window, allowGaps: bool, from: int, limit: int)
    requires from <= limit <= |grid| && Rectangular(grid, cols) && Fits(w, |grid|, cols)
    requires FirstBad(grid, cols, w, allowGaps, from).Some? || !Nonempty(w)
    ensures FirstBad(grid, cols, w, allowGaps, limit) == FirstBad(grid, cols, w, allowGaps, from)
    decreases limit - from
  {
    if from < limit { FirstBadStays(grid, cols, w, allowGaps, from, limit - 1); }
  }

  /** Rows on which nothing is live cannot change an entry. */
  lemma {:induction false} SkipRows(grid: Grid, cols: nat, ws: seq<Window>, allowGaps: bool,
                                    firstBad: seq<Option<int>>, from: int, to: int)
    requires 0 <= from <= to <= |grid| && Rectangular(grid, cols) && Inside(ws, |grid|, cols)
    requires forall row, c :: from <= row < to ==> Live(ws, c, row) == 0
    requires ScannedTo(grid, cols, ws, allowGaps, firstBad, from)
    ensures ScannedTo(grid, cols, ws, allowGaps, firstBad, to)
  {
    forall p | 0 <= p < |ws| ensures firstBad[p] == FirstBad(grid, cols, ws[p], allowGaps, to) {
      var w := ws[p];
      if firstBad[p].Some? || !Nonempty(w) {
        FirstBadStays(grid, cols, w, allowGaps, from, to);
      } else {
        if Max(w.start, from) < Min(w.end + 1, to) { LiveWindow(ws, p, Max(w.start, from)); }
        FirstBadExtends(grid, cols, w, allowGaps, from, to, None);
      }
    }
  }

  /** `np.flatnonzero(~finite)[0]` on one window's part of a chunk. */
  method FirstFalse(finite: seq<seq<bool>>, offset: nat, lo: nat, hi: nat) returns (r: Option<nat>)
    requires lo <= hi <= |finite|
    requires forall i :: lo <= i < hi ==> offset < |finite[i]|
    ensures r.None? ==> forall i :: lo <= i < hi ==> offset < |finite[i]| && finite[i][offset]
    ensures r.Some? ==> lo <= r.value < hi && !finite[r.value][offset]
    ensures r.Some? ==> forall i :: lo <= i < r.value ==> offset < |finite[i]| && finite[i][offset]
  {
    for i := lo to hi
      invariant forall j :: lo <= j < i ==> offset < |finite[j]| && finite[j][offset]
    {
      if !finite[i][offset] {
        return Some(i);
      }
    }
    r := None;
  }

  /** One window against one chunk; its column is among the active ones whenever they overlap. */
  method UpdateWindow(grid: Grid, cols: nat, ws: seq<Window>, p: nat, allowGaps: bool, s: Segment,
                      from: int, to: int, finite: seq<seq<bool>>, known: Option<int>) returns (r: Option<int>)
    requires Rectangular(grid, cols) && Inside(ws, |grid|, cols) && p < |ws|
    requires GoodSegment(ws, s) && 0 <= s.start <= from <= to <= s.end <= |grid| && |finite| == to - from
    requires forall c :: c in s.columns ==> 0 <= c < cols
    requires forall i :: 0 <= i < |finite| ==> RowFlags(finite[i], grid[from + i], s.columns, allowGaps)
    requires known == FirstBad(grid, cols, ws[p], allowGaps, from)
    ensures r == FirstBad(grid, cols, ws[p], allowGaps, to)
  {
    var w := ws[p];
    if known.Some? || !Nonempty(w) {
      FirstBadStays(grid, cols, w, allowGaps, from, to);
      return known;
    }
    var lo, hi := Max(w.start, from), Min(w.end + 1, to);
    if lo >= hi {
      FirstBadExtends(grid, cols, w, allowGaps, from, to, None);
      return None;
    }
    LiveWindow(ws, p, lo);
    assert w.col in s.columns;
    var offset := Offset(s.columns, w.col);
    forall i | lo - from <= i < hi - from
      ensures 0 <= offset < |finite[i]| && finite[i][offset] == Allowed(grid[from + i][w.col], allowGaps)
    {
      assert RowFlags(finite[i], grid[from + i], s.columns, allowGaps);
    }
    var found := FirstFalse(finite, offset, lo - from, hi - from);
    r := if found.None? then None else Some(from + found.value);
    forall i | lo <= i < hi ensures Allowed(grid[i][w.col], allowGaps) == finite[i - from][offset] {
      assert grid[from + (i - from)] == grid[i];
    }
    FirstBadExtends(grid, cols, w, allowGaps, from, to, r);
  }

  /** All windows against one chunk. */
  method UpdateChunk(grid: Grid, cols: nat, ws: seq<Window>, allowGaps: bool, s: Segment,
                     from: int, to: int, firstBad: seq<Option<int>>) returns (next: seq<Option<int>>)
    requires Rectangular(grid, cols) && Inside(ws, |grid|, cols)
    requires GoodSegment(ws, s) && 0 <= s.start <= from <= to <= s.end <= |grid|
    requires ScannedTo(grid, cols, ws, allowGaps, firstBad, from)
    ensures ScannedTo(grid, cols, ws, allowGaps, next, to)
  {
    forall c | c in s.columns ensures 0 <= c < cols {
      var p := LiveColumn(ws, c, s.start);
    }
    var finite := ScanChunk(grid, from, to, s.columns, cols, allowGaps);
    next := [];
    while |next| < |ws|
      invariant |next| <= |ws|
      invariant forall p :: 0 <= p < |next| ==> next[p] == FirstBad(grid, cols, ws[p], allowGaps, to)
    {
      var r := UpdateWindow(grid, cols, ws, |next|, allowGaps, s, from, to, finite, firstBad[|next|]);
      next := next + [r];
    }
  }

  /** The chunks of one segment. */
  method ScanSegment(req: Request, ws: seq<Window>, s: Segment,
                     firstBad: seq<Option<int>>) returns (next: seq<Option<int>>)
    requires Rectangular(req.grid, req.cols) && Inside(ws, |req.grid|, req.cols)
    requires GoodSegment(ws, s) && 0 <= s.start && s.end <= |req.grid|
    requires ScannedTo(req.grid, req.cols, ws, req.allowGaps, firstBad, s.start)
    ensures ScannedTo(req.grid, req.cols, ws, req.allowGaps, next, s.end)
  {
    next := firstBad;
    var chunkRows := ChunkRows(req, s.columns);
    var from := s.start;
    while from < s.end
      invariant s.start <= from <= s.end
      invariant ScannedTo(req.grid, req.cols, ws, req.allowGaps, next, from)
    {
      var to := Min(s.end, from + chunkRows);
      next := UpdateChunk(req.grid, req.cols, ws, req.allowGaps, s, from, to, next);
      from := to;
    }
  }

  /** Between the segments nothing is live. */
  lemma {:induction false} NothingBetween(ws: seq<Window>, segments: seq<Segment>, i: nat, from: int, to: int,
                                          limit: int)
    requires CoversLive(ws, segments, limit) && i <= |segments| && to <= limit
    requires from == if i == 0 then 0 else segments[i - 1].end
    requires i < |segments| ==> to == segments[i].start
    ensures forall row, c :: from <= row < to ==> Live(ws, c, row) == 0
  {
    forall row, c | from <= row < to ensures Live(ws, c, row) == 0 {
      if Live(ws, c, row) > 0 {
        var j :| 0 <= j < |segments| && segments[j].start <= row < segments[j].end;
        SegmentOrder(segments, i, j);
      }
    }
  }

  lemma {:induction false} SegmentOrder(segments: seq<Segment>, i: nat, j: nat)
    requires OrderedSegments(segments) && i <= |segments| && j < |segments|
    requires forall k :: 0 <= k < |segments| ==> segments[k].start < segments[k].end
    ensures j < i ==> segments[j].end <= segments[i - 1].end
    ensures i <= j ==> segments[i].start <= segments[j].start
  {
    if j < i - 1 { assert segments[j].end <= segments[i - 1].start; }
    if i < j { assert segments[i].end <= segments[j].start; }
  }

  lemma {:induction false} FirstBadAtZero(grid: Grid, cols: nat, w: Window, allowGaps: bool)
    requires Rectangular(grid, cols) && Fits(w, |grid|, cols)
    ensures FirstBad(grid, cols, w, allowGaps, 0) == None
  {}

  /** All segments, all chunks: every coin's earliest disallowed row. */
  method ScanSegments(req: Request, ws: seq<Window>) returns (firstBad: seq<Option<int>>)
    requires Rectangular(req.grid, req.cols) && Inside(ws, |req.grid|, req.cols)
    ensures ScannedTo(req.grid, req.cols, ws, req.allowGaps, firstBad, |req.grid|)
  {
    var segments := CollectSegments(ws, |req.grid|, req.cols);
    firstBad := seq(|ws|, _ => None);
    forall p | 0 <= p < |ws| ensures FirstBad(req.grid, req.cols, ws[p], req.allowGaps, 0) == None {
      FirstBadAtZero(req.grid, req.cols, ws[p], req.allowGaps);
    }
    ghost var rows := |req.grid|;
    ghost var done := 0;
    for i := 0 to |segments|
      invariant 0 <= done <= rows && done == if i == 0 then 0 else segments[i - 1].end
      invariant ScannedTo(req.grid, req.cols, ws, req.allowGaps, firstBad, done)
    {
      var s := segments[i];
      SegmentStart(ws, segments, i, rows, req.cols);
      NothingBetween(ws, segments, i, done, s.start, rows);
      SkipRows(req.grid, req.cols, ws, req.allowGaps, firstBad, done, s.start);
      firstBad := ScanSegment(req, ws, s, firstBad);
      done := s.end;
    }
    NothingBetween(ws, segments, |segments|, done, rows, rows);
    SkipRows(req.grid, req.cols, ws, req.allowGaps, firstBad, done, rows);
  }

  lemma {:induction false} SegmentStart(ws: seq<Window>, segments: seq<Segment>, i: nat, rows: int, cols: int)
    requires CoversLive(ws, segments, rows) && i < |segments| && Inside(ws, rows, cols)
    ensures 0 <= segments[i].start && segments[i].end <= rows && GoodSegment(ws, segments[i])
    ensures i > 0 ==> segments[i - 1].end <= segments[i].start
  {
    var s := segments[i];
    assert s.columns[0] in s.columns;
    var p := LiveColumn(ws, s.columns[0], s.start);
  }

  // ---------- the validator ----------

  /** The outcome the validator must have: checks in order, then the naive scan. */
  function Expected(req: Request): Result<(), Invalid>
    requires Rectangular(req.grid, req.cols)
  {
    if |Columns(req)| != req.coins then Err(LengthMismatch)
    else
      match WindowsUpTo(req, req.coins)
      case Err(e) => Err(e)
      case Ok(ws) =>
        WindowsInside(req, req.coins);
        if req.allowGaps && req.interval < 1 then Err(BadInterval)
        else
          var edge := if req.allowGaps then EdgeErrorUpTo(req, ws, |ws|) else None;
          if edge.Some? then Err(edge.value)
          else
            match Naive(req.grid, req.cols, ws, req.allowGaps, |ws|)
            case None => Ok(())
            case Some((coin, row)) =>
              NaiveIs(req.grid, req.cols, ws, req.allowGaps, |ws|);
              Err(NonFinite(coin, row, FirstBadField(req.grid[row][ws[coin].col])))
  }

  /** `_validate_hlcvs_valid_windows`: for every chunk size the outcome of the naive scan. */
  method Validate(req: Request) returns (r: Result<(), Invalid>)
    requires Rectangular(req.grid, req.cols)
    ensures r == Expected(req)
  {
    if |Columns(req)| != req.coins {
      return Err(LengthMismatch);
    }
    var collected := CollectWindows(req);
    if collected.Err? {
      return Err(collected.error);
    }
    var ws := collected.value;
    WindowsInside(req, req.coins);
    if req.allowGaps {
      if req.interval < 1 {
        return Err(BadInterval);
      }
      var edge := CheckEdges(req, ws);
      if edge.Some? {
        return Err(edge.value);
      }
    }
    var firstBad := ScanSegments(req, ws);
    for coin := 0 to |ws|
      invariant Naive(req.grid, req.cols, ws, req.allowGaps, coin).None?
    {
      if firstBad[coin].Some? {
        var row := firstBad[coin].value;
        NaiveStays(req.grid, req.cols, ws, req.allowGaps, coin + 1, |ws|);
        NaiveIs(req.grid, req.cols, ws, req.allowGaps, coin + 1);
        return Err(NonFinite(coin, row, FirstBadField(req.grid[row][ws[coin].col])));
      }
    }
    r := Ok(());
  }

  // ---------- the outcome from the request alone ----------

  predicate LengthsFit(req: Request) {
    req.columns.Some? ==> |req.columns.value| == req.coins
  }

  /** The coin's column: the one given, or without a list its own position. */
  function SourceColumn(req: Request, coin: nat): int
    requires LengthsFit(req) && coin < req.coins
  {
    if req.columns.Some? then req.columns.value[coin] else coin
  }

  predicate HasMetadata(req: Request, coin: nat) {
    coin < |req.first| && coin < |req.last|
  }

  /** The coin has metadata and a column of the grid. */
  predicate Described(req: Request, coin: nat)
    requires LengthsFit(req) && coin < req.coins
  {
    HasMetadata(req, coin) && 0 <= SourceColumn(req, coin) < req.cols
  }

  ghost predicate AllDescribed(req: Request, n: nat)
    requires LengthsFit(req) && n <= req.coins
  {
    forall coin :: 0 <= coin < n ==> Described(req, coin)
  }

  /** A row of the grid inside the declared range of the coin. */
  predicate Declared(req: Request, coin: nat, r: int) {
    HasMetadata(req, coin) && 0 <= r < |req.grid| && req.first[coin] <= r <= req.last[coin]
  }

  function CellAt(req: Request, coin: nat, r: int): Cell
    requires Rectangular(req.grid, req.cols) && LengthsFit(req) && coin < req.coins
    requires Described(req, coin) && Declared(req, coin, r)
  {
    req.grid[r][SourceColumn(req, coin)]
  }

  /** All four fields are finite, or gaps are allowed and high, low and close are all NaN. */
  predicate Clean(c: Cell, allowGaps: bool) {
    (forall f: nat :: f < 4 ==> FieldOf(c, f).Finite?) || (allowGaps && NoPrice(c))
  }

  predicate NoPrice(c: Cell) { forall f: nat :: f < 3 ==> FieldOf(c, f).NaN? }

  /** The coin's first declared row has no price. */
  ghost predicate NoPriceAtFirst(req: Request, coin: nat)
    requires Rectangular(req.grid, req.cols) && LengthsFit(req) && coin < req.coins && Described(req, coin)
  {
    exists r :: Declared(req, coin, r) && !Declared(req, coin, r - 1) && NoPrice(CellAt(req, coin, r))
  }

  /** The coin's last declared row has none, and the grid goes on for more than 1400 intervals. */
  ghost predicate NoPriceAtDelist(req: Request, coin: nat)
    requires Rectangular(req.grid, req.cols) && LengthsFit(req) && coin < req.coins && Described(req, coin)
  {
    exists r :: Declared(req, coin, r) && !Declared(req, coin, r + 1) && NoPrice(CellAt(req, coin, r))
      && r + 1400 * req.interval < |req.grid|
  }

  ghost predicate EdgesFit(req: Request, n: nat)
    requires Rectangular(req.grid, req.cols) && LengthsFit(req) && n <= req.coins && AllDescribed(req, n)
  {
    forall coin :: 0 <= coin < n ==> !NoPriceAtFirst(req, coin) && !NoPriceAtDelist(req, coin)
  }

  /** Every declared row of the first `n` coins is clean. */
  ghost predicate RowsClean(req: Request, n: nat)
    requires Rectangular(req.grid, req.cols) && LengthsFit(req) && n <= req.coins && AllDescribed(req, n)
  {
    forall coin, r :: 0 <= coin < n && Declared(req, coin, r) ==> Clean(CellAt(req, coin, r), req.allowGaps)
  }

  ghost predicate Acceptable(req: Request)
    requires Rectangular(req.grid, req.cols)
  {
    && LengthsFit(req) && AllDescribed(req, req.coins)
    && (req.allowGaps ==> req.interval >= 1 && EdgesFit(req, req.coins))
    && RowsClean(req, req.coins)
  }

  /** When each error is due: the checks in order, and in each the first coin. */
  ghost predicate Due(req: Request, e: Invalid)
    requires Rectangular(req.grid, req.cols)
  {
    match e
    case LengthMismatch => !LengthsFit(req)
    case MissingMetadata(coin) =>
      LengthsFit(req) && coin < req.coins && !HasMetadata(req, coin) && AllDescribed(req, coin)
    case ColumnOutside(coin) =>
      && LengthsFit(req) && coin < req.coins && HasMetadata(req, coin) && AllDescribed(req, coin)
      && !(0 <= SourceColumn(req, coin) < req.cols)
    case BadInterval => LengthsFit(req) && AllDescribed(req, req.coins) && req.allowGaps && req.interval < 1
    case GapAtFirstValid(coin) =>
      && LengthsFit(req) && coin < req.coins && AllDescribed(req, req.coins) && req.allowGaps && req.interval >= 1
      && EdgesFit(req, coin) && NoPriceAtFirst(req, coin)
    case GapAtForcedDelist(coin) =>
      && LengthsFit(req) && coin < req.coins && AllDescribed(req, req.coins) && req.allowGaps && req.interval >= 1
      && EdgesFit(req, coin) && !NoPriceAtFirst(req, coin) && NoPriceAtDelist(req, coin)
    case NonFinite(coin, row, field) =>
      && LengthsFit(req) && coin < req.coins && AllDescribed(req, req.coins)
      && (req.allowGaps ==> req.interval >= 1 && EdgesFit(req, req.coins))
      && RowsClean(req, coin) && FirstUnclean(req, coin, row)
      && FirstNonFinite(CellAt(req, coin, row), field)
  }

  /** The coin's earliest declared row that is not clean. */
  ghost predicate FirstUnclean(req: Request, coin: nat, row: int)
    requires Rectangular(req.grid, req.cols) && LengthsFit(req) && coin < req.coins && Described(req, coin)
  {
    && Declared(req, coin, row) && !Clean(CellAt(req, coin, row), req.allowGaps)
    && forall r :: r < row && Declared(req, coin, r) ==> Clean(CellAt(req, coin, r), req.allowGaps)
  }

  predicate FirstNonFinite(c: Cell, field: nat) {
    field < 4 && !FieldOf(c, field).Finite? && forall f: nat :: f < field ==> FieldOf(c, f).Finite?
  }

  lemma {:induction false} CleanIsAllowed(c: Cell, allowGaps: bool)
    ensures NoPrice(c) <==> GapCell(c)
    ensures Clean(c, allowGaps) <==> Allowed(c, allowGaps)
    ensures !Clean(c, allowGaps) ==> FirstNonFinite(c, FirstBadField(c))
  {
    assert FieldOf(c, 0) == c.high && FieldOf(c, 1) == c.low && FieldOf(c, 2) == c.close && FieldOf(c, 3) == c.volume;
  }

  /** The collected windows are the declared rows. */
  ghost predicate WindowsDeclared(req: Request, ws: seq<Window>)
    requires LengthsFit(req) && |ws| <= req.coins
  {
    forall p :: 0 <= p < |ws| ==>
      && Described(req, p) && ws[p].col == SourceColumn(req, p)
      && forall r :: ws[p].start <= r <= ws[p].end <==> Declared(req, p, r)
  }

  /** Collecting succeeds exactly when every coin is described; else it reports the first that is not, and why. */
  lemma {:induction false} CollectedFromRequest(req: Request, n: nat)
    requires LengthsFit(req) && n <= req.coins
    ensures |Columns(req)| == req.coins
    ensures match WindowsUpTo(req, n)
      case Ok(ws) => |ws| == n && WindowsDeclared(req, ws) && AllDescribed(req, n)
      case Err(MissingMetadata(coin)) => coin < n && !HasMetadata(req, coin) && AllDescribed(req, coin)
      case Err(ColumnOutside(coin)) =>
        && coin < n && HasMetadata(req, coin) && AllDescribed(req, coin)
        && !(0 <= SourceColumn(req, coin) < req.cols)
      case _ => false
  {
    if n > 0 { CollectedFromRequest(req, n - 1); }
  }

  /** An edge check on the windows is one on the request. */
  lemma {:induction false} EdgeFromRequest(req: Request, ws: seq<Window>, coin: nat)
    requires Rectangular(req.grid, req.cols) && LengthsFit(req) && coin < |ws| <= req.coins
    requires Inside(ws, |req.grid|, req.cols) && WindowsDeclared(req, ws)
    ensures EdgeError(req, ws, coin) ==
      if NoPriceAtFirst(req, coin) then Some(GapAtFirstValid(coin))
      else if NoPriceAtDelist(req, coin) then Some(GapAtForcedDelist(coin)) else None
  {
    FirstRowPrice(req, ws, coin);
    DelistRowPrice(req, ws, coin);
  }

  lemma {:induction false} FirstRowPrice(req: Request, ws: seq<Window>, coin: nat)
    requires Rectangular(req.grid, req.cols) && LengthsFit(req) && coin < |ws| <= req.coins
    requires Inside(ws, |req.grid|, req.cols) && WindowsDeclared(req, ws)
    ensures NoPriceAtFirst(req, coin) <==> Nonempty(ws[coin]) && GapCell(req.grid[ws[coin].start][ws[coin].col])
  {
    var w := ws[coin];
    if NoPriceAtFirst(req, coin) {
      var r :| Declared(req, coin, r) && !Declared(req, coin, r - 1) && NoPrice(CellAt(req, coin, r));
      EdgeRows(req, ws, coin, r);
      CleanIsAllowed(CellAt(req, coin, r), true);
    }
    if Nonempty(w) && GapCell(req.grid[w.start][w.col]) {
      EdgeRows(req, ws, coin, w.start);
      CleanIsAllowed(req.grid[w.start][w.col], true);
      assert NoPrice(CellAt(req, coin, w.start));
    }
  }

  lemma {:induction false} DelistRowPrice(req: Request, ws: seq<Window>, coin: nat)
    requires Rectangular(req.grid, req.cols) && LengthsFit(req) && coin < |ws| <= req.coins
    requires Inside(ws, |req.grid|, req.cols) && WindowsDeclared(req, ws)
    ensures NoPriceAtDelist(req, coin) <==>
      && Nonempty(ws[coin]) && GapCell(req.grid[ws[coin].end][ws[coin].col])
      && ws[coin].end + 1400 * req.interval < |req.grid|
  {
    var w := ws[coin];
    if NoPriceAtDelist(req, coin) {
      var r :| Declared(req, coin, r) && !Declared(req, coin, r + 1) && NoPrice(CellAt(req, coin, r))
        && r + 1400 * req.interval < |req.grid|;
      EdgeRows(req, ws, coin, r);
      CleanIsAllowed(CellAt(req, coin, r), true);
    }
    if Nonempty(w) && GapCell(req.grid[w.end][w.col]) {
      EdgeRows(req, ws, coin, w.end);
      CleanIsAllowed(req.grid[w.end][w.col], true);
      assert NoPrice(CellAt(req, coin, w.end));
    }
  }

  /** First and last declared row are the ends of the window. */
  lemma {:induction false} EdgeRows(req: Request, ws: seq<Window>, coin: nat, r: int)
    requires LengthsFit(req) && coin < |ws| <= req.coins && WindowsDeclared(req, ws)
    ensures Declared(req, coin, r) && !Declared(req, coin, r - 1) <==> Nonempty(ws[coin]) && r == ws[coin].start
    ensures Declared(req, coin, r) && !Declared(req, coin, r + 1) <==> Nonempty(ws[coin]) && r == ws[coin].end
  {
    var w := ws[coin];
    assert w.start <= r <= w.end <==> Declared(req, coin, r);
    assert w.start <= r - 1 <= w.end <==> Declared(req, coin, r - 1);
    assert w.start <= r + 1 <= w.end <==> Declared(req, coin, r + 1);
  }

  /** The edge check reports the first coin with such an edge row, and none exactly when there is no such coin. */
  lemma {:induction false} EdgeErrorIs(req: Request, ws: seq<Window>, n: nat)
    requires Rectangular(req.grid, req.cols) && LengthsFit(req) && n <= |ws| == req.coins
    requires Inside(ws, |req.grid|, req.cols) && WindowsDeclared(req, ws)
    ensures match EdgeErrorUpTo(req, ws, n)
      case None => EdgesFit(req, n)
      case Some(GapAtFirstValid(coin)) => coin < n && EdgesFit(req, coin) && NoPriceAtFirst(req, coin)
      case Some(GapAtForcedDelist(coin)) =>
        coin < n && EdgesFit(req, coin) && !NoPriceAtFirst(req, coin) && NoPriceAtDelist(req, coin)
      case _ => false
  {
    if n > 0 {
      EdgeErrorIs(req, ws, n - 1);
      EdgeFromRequest(req, ws, n - 1);
    }
  }

  lemma {:induction false} ScanFromRequest(req: Request, ws: seq<Window>)
    requires Rectangular(req.grid, req.cols) && LengthsFit(req) && |ws| == req.coins
    requires Inside(ws, |req.grid|, req.cols) && WindowsDeclared(req, ws)
    ensures match Naive(req.grid, req.cols, ws, req.allowGaps, |ws|)
      case None => RowsClean(req, req.coins)
      case Some((coin, row)) =>
        && coin < req.coins && RowsClean(req, coin) && FirstUnclean(req, coin, row)
        && CellAt(req, coin, row) == req.grid[row][ws[coin].col]
  {
    NaiveIs(req.grid, req.cols, ws, req.allowGaps, |ws|);
    forall c: Cell ensures Clean(c, req.allowGaps) <==> Allowed(c, req.allowGaps) { CleanIsAllowed(c, req.allowGaps); }
  }

  /** The outcome is what is due. */
  lemma {:induction false} OutcomeIsDue(req: Request)
    requires Rectangular(req.grid, req.cols)
    ensures match Expected(req) case Ok(_) => Acceptable(req) case Err(e) => Due(req, e)
  {
    if LengthsFit(req) {
      CollectedFromRequest(req, req.coins);
      if WindowsUpTo(req, req.coins).Ok? {
        var ws := WindowsUpTo(req, req.coins).value;
        WindowsInside(req, req.coins);
        EdgeErrorIs(req, ws, |ws|);
        ScanFromRequest(req, ws);
        forall c: Cell | !Clean(c, req.allowGaps) ensures FirstNonFinite(c, FirstBadField(c)) {
          CleanIsAllowed(c, req.allowGaps);
        }
      }
    }
  }

  /** At most one error is due. */
  lemma {:induction false} OneIsDue(req: Request, a: Invalid, b: Invalid)
    requires Rectangular(req.grid, req.cols) && Due(req, a) && Due(req, b)
    ensures a == b
  {
    if a.NonFinite? && b.NonFinite? {
      OneRowIsDue(req, a, b);
    } else if a.NonFinite? {
      EarlierIsDue(req, a, b);
    } else if b.NonFinite? {
      EarlierIsDue(req, b, a);
    } else {
      OneCheckIsDue(req, a, b);
    }
  }

  lemma {:induction false} OneCheckIsDue(req: Request, a: Invalid, b: Invalid)
    requires Rectangular(req.grid, req.cols) && Due(req, a) && Due(req, b) && !a.NonFinite? && !b.NonFinite?
    ensures a == b
  {
    Undescribed(req, a);
    Undescribed(req, b);
  }

  lemma {:induction false} OneRowIsDue(req: Request, a: Invalid, b: Invalid)
    requires Rectangular(req.grid, req.cols) && a.NonFinite? && b.NonFinite? && Due(req, a) && Due(req, b)
    ensures a == b
  {
    assert Declared(req, a.coin, a.row) && Declared(req, b.coin, b.row);
    assert a.coin == b.coin;
    assert a.row == b.row;
  }

  lemma {:induction false} EarlierIsDue(req: Request, row: Invalid, e: Invalid)
    requires Rectangular(req.grid, req.cols) && row.NonFinite? && Due(req, row) && Due(req, e)
    ensures e.NonFinite?
  {
    Undescribed(req, e);
  }

  lemma {:induction false} Undescribed(req: Request, e: Invalid)
    requires Rectangular(req.grid, req.cols) && Due(req, e)
    ensures e.MissingMetadata? || e.ColumnOutside? ==>
      LengthsFit(req) && e.coin < req.coins && !Described(req, e.coin)
  {}

  lemma {:induction false} NoneIsDue(req: Request, e: Invalid)
    requires Rectangular(req.grid, req.cols) && Due(req, e)
    ensures !Acceptable(req)
  {
    Undescribed(req, e);
  }

  /** Accepted exactly when every declared row is clean, with metadata, columns, interval and edges in order. */
  lemma {:induction false} AcceptedIff(req: Request)
    requires Rectangular(req.grid, req.cols)
    ensures Expected(req).Ok? <==> Acceptable(req)
  {
    OutcomeIsDue(req);
    if Expected(req).Err? { NoneIsDue(req, Expected(req).error); }
  }

  /** And each error exactly when it is due. */
  lemma {:induction false} RejectedIff(req: Request, e: Invalid)
    requires Rectangular(req.grid, req.cols)
    ensures Expected(req) == Err(e) <==> Due(req, e)
  {
    OutcomeIsDue(req);
    if Due(req, e) {
      NoneIsDue(req, e);
      if Expected(req).Err? { OneIsDue(req, e, Expected(req).error); }
    }
  }

  function FieldOf(c: Cell, field: nat): Field
    requires field < 4
  {
    if field == 0 then c.high else if field == 1 then c.low else if field == 2 then c.close else c.volume
  }

  /** Chunk size and item size decide nothing. */
  lemma {:induction false} ChunkingIsInvisible(a: Request, b: Request)
    requires b == a.(itemSize := b.itemSize, targetChunkBytes := b.targetChunkBytes)
    requires Rectangular(a.grid, a.cols)
    ensures Expected(a) == Expected(b)
  {
    if |Columns(a)| == a.coins {
      SameWindows(a, b, a.coins);
      if WindowsUpTo(a, a.coins).Ok? {
        WindowsInside(a, a.coins);
        SameEdges(a, b, WindowsUpTo(a, a.coins).value, a.coins);
      }
    }
  }

  lemma {:induction false} SameWindows(a: Request, b: Request, n: nat)
    requires b == a.(itemSize := b.itemSize, targetChunkBytes := b.targetChunkBytes) && n <= |Columns(a)|
    ensures WindowsUpTo(a, n) == WindowsUpTo(b, n)
  {
    if n > 0 { SameWindows(a, b, n - 1); }
  }

  lemma {:induction false} SameEdges(a: Request, b: Request, ws: seq<Window>, n: nat)
    requires b == a.(itemSize := b.itemSize, targetChunkBytes := b.targetChunkBytes)
    requires n <= |ws| && Inside(ws, |a.grid|, a.cols) && Rectangular(a.grid, a.cols)
    ensures EdgeErrorUpTo(a, ws, n) == EdgeErrorUpTo(b, ws, n)
  {
    if n > 0 { SameEdges(a, b, ws, n - 1); }
  }

  /** Two runs on requests that differ in item size and chunk bytes only have one outcome. */
  method ValidateTwice(a: Request, itemSize: nat, targetChunkBytes: int)
    returns (ra: Result<(), Invalid>, rb: Result<(), Invalid>)
    requires Rectangular(a.grid, a.cols)
    ensures ra == rb
  {
    var b := a.(itemSize := itemSize, targetChunkBytes := targetChunkBytes);
    ra := Validate(a);
    rb := Validate(b);
    ChunkingIsInvisible(a, b);
  }

  lemma {:induction false} NaiveStays(grid: Grid, cols: nat, ws: seq<Window>, allowGaps: bool, n: nat, m: nat)
    requires n <= m <= |ws| && Rectangular(grid, cols) && Inside(ws, |grid|, cols)
    requires Naive(grid, cols, ws, allowGaps, n).Some?
    ensures Naive(grid, cols, ws, allowGaps, m) == Naive(grid, cols, ws, allowGaps, n)
    decreases m - n
  {
    if n < m { NaiveStays(grid, cols, ws, allowGaps, n, m - 1); }
  }
}
