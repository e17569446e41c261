/**
 * Known-gap records and the reading of a list of them: which evidence a minute carries when several
 * records cover it, and the normal form in which the ledger is stored.
 */
module GapRecords {
  import opened Wrappers
  import opened Minutes

  datatype Reason =
    | AutoDetected
    | ExchangeDowntime
    | NoArchive
    | FetchFailed
    | Manual
    | NoTrades
    | PreInception
    | Other(name: string)

  /** Reasons that are proof about an interval rather than a state of retrying. */
  predicate NonExpiring(r: Reason) {
    r.PreInception? || r.NoArchive? || r.Manual? || r.NoTrades?
  }

  /** Everything a record says besides its interval. */
  datatype Evidence = Evidence(
    retryCount: int,
    reason: Reason,
    addedAt: int,
    lastRetryAt: int,
    lastContextualRetryAt: int)

  /** A record: both ends are minutes that belong to the gap. */
  datatype Gap = Gap(start: int, end: int, ev: Evidence)

  predicate WellFormed(g: Gap) {
    Aligned(g.start) && Aligned(g.end) && g.start <= g.end
  }

  /** The minute that contains `t` belongs to the gap. */
  predicate Covers(g: Gap, t: int) {
    g.start <= t < g.end + ONE_MIN_MS
  }

  predicate AllWellFormed(gaps: seq<Gap>) {
    forall i :: 0 <= i < |gaps| ==> WellFormed(gaps[i])
  }

  /** Of two pieces of evidence the newer counts, unless only the older is proof. */
  function Prefer(older: Option<Evidence>, newer: Option<Evidence>): Option<Evidence> {
    if newer.None? then older
    else if older.Some? && NonExpiring(older.value.reason) && !NonExpiring(newer.value.reason) then older
    else newer
  }

  /** The evidence a record list carries at `t`. */
  function At(gaps: seq<Gap>, t: int): Option<Evidence> {
    if gaps == [] then None
    else
      var last := gaps[|gaps| - 1];
      Prefer(At(gaps[..|gaps| - 1], t), if Covers(last, t) then Some(last.ev) else None)
  }

  predicate Disjoint(gaps: seq<Gap>) {
    forall i, j :: 0 <= i < j < |gaps| ==> gaps[i].end < gaps[j].start
  }

  /** Sorted, disjoint, and no two touching records that say the same. */
  predicate Normal(gaps: seq<Gap>) {
    && AllWellFormed(gaps)
    && Disjoint(gaps)
    && forall i :: 0 <= i < |gaps| - 1 && gaps[i].end + ONE_MIN_MS == gaps[i + 1].start ==>
      gaps[i].ev != gaps[i + 1].ev
  }

  lemma {:induction false} AtAppend(gaps: seq<Gap>, g: Gap, t: int)
    ensures At(gaps + [g], t) == Prefer(At(gaps, t), if Covers(g, t) then Some(g.ev) else None)
  {
    assert (gaps + [g])[..|gaps|] == gaps;
  }

  lemma {:induction false} AtConcat(a: seq<Gap>, b: seq<Gap>, t: int)
    ensures At(a + b, t) == Prefer(At(a, t), At(b, t))
  {
    if b == [] {
      assert a + b == a;
    } else {
      var init := b[..|b| - 1];
      AtConcat(a, init, t);
      assert a + b == (a + init) + [b[|b| - 1]];
      AtAppend(a + init, b[|b| - 1], t);
    }
  }

  lemma {:induction false} AtUncovered(gaps: seq<Gap>, t: int)
    ensures At(gaps, t).None? <==> forall i :: 0 <= i < |gaps| ==> !Covers(gaps[i], t)
  {
    if gaps != [] {
      var init := gaps[..|gaps| - 1];
      AtUncovered(init, t);
      assert forall i :: 0 <= i < |init| ==> init[i] == gaps[i];
    }
  }

  /** Record `i` is at least as strong as record `j`: proof first, then the later position. */
  predicate Outranks(gaps: seq<Gap>, i: nat, j: nat)
    requires i < |gaps| && j < |gaps|
  {
    || (NonExpiring(gaps[i].ev.reason) && !NonExpiring(gaps[j].ev.reason))
    || (NonExpiring(gaps[i].ev.reason) == NonExpiring(gaps[j].ev.reason) && j <= i)
  }

  /** The strongest covering record is the one whose evidence counts. */
  lemma {:induction false} AtStrongest(gaps: seq<Gap>, t: int, w: nat)
    requires w < |gaps| && Covers(gaps[w], t)
    requires forall j :: 0 <= j < |gaps| && Covers(gaps[j], t) ==> Outranks(gaps, w, j)
    ensures At(gaps, t) == Some(gaps[w].ev)
  {
    var n := |gaps| - 1;
    var init := gaps[..n];
    if w < n {
      assert forall j :: 0 <= j < n ==> init[j] == gaps[j];
      forall j | 0 <= j < |init| && Covers(init[j], t) ensures Outranks(init, w, j) {
        assert Covers(gaps[j], t) && Outranks(gaps, w, j);
      }
      AtStrongest(init, t, w);
      if Covers(gaps[n], t) { assert Outranks(gaps, w, n); }
    } else {
      AtTerminalWitness(init, t);
      if At(init, t).Some? && NonExpiring(At(init, t).value.reason) {
        var j :| 0 <= j < |init| && Covers(init[j], t) && At(init, t) == Some(init[j].ev);
        assert Covers(gaps[j], t) && Outranks(gaps, w, j);
      }
    }
  }

  /** Evidence never appears from nowhere. */
  lemma {:induction false} AtTerminalWitness(gaps: seq<Gap>, t: int)
    ensures At(gaps, t).Some? ==>
      exists j :: 0 <= j < |gaps| && Covers(gaps[j], t) && At(gaps, t) == Some(gaps[j].ev)
  {
    if gaps != [] {
      var n := |gaps| - 1;
      var init := gaps[..n];
      AtTerminalWitness(init, t);
      if At(init, t).Some? && At(gaps, t) == At(init, t) {
        var j :| 0 <= j < |init| && Covers(init[j], t) && At(init, t) == Some(init[j].ev);
        assert gaps[j] == init[j];
      } else if At(gaps, t).Some? {
        assert Covers(gaps[n], t);
      }
    }
  }

  /** In a disjoint list a covering record is the only one. */
  lemma {:induction false} AtDisjoint(gaps: seq<Gap>, i: nat, t: int)
    requires AllWellFormed(gaps) && Disjoint(gaps)
    requires i < |gaps| && Covers(gaps[i], t)
    ensures At(gaps, t) == Some(gaps[i].ev)
    ensures forall j :: 0 <= j < |gaps| && Covers(gaps[j], t) ==> j == i
  {
    forall j | 0 <= j < |gaps| && Covers(gaps[j], t) ensures j == i {
      if j < i { GridStep(gaps[j].end, gaps[i].start); }
      if i < j { GridStep(gaps[i].end, gaps[j].start); }
    }
    AtStrongest(gaps, t, i);
  }

  /** Two normal ledgers that agree at every minute end in the same record. */
  lemma {:induction false} NormalSameLast(a: seq<Gap>, b: seq<Gap>)
    requires Normal(a) && Normal(b) && a != [] && b != []
    requires forall t :: At(a, t) == At(b, t)
    ensures a[|a| - 1] == b[|b| - 1]
  {
    var x, y := a[|a| - 1], b[|b| - 1];
    NormalLastReaches(a, b);
    NormalLastReaches(b, a);
    assert x.end == y.end;
    AtDisjoint(a, |a| - 1, x.end);
    AtDisjoint(b, |b| - 1, x.end);
    assert At(a, x.end) == At(b, x.end);
    assert x.ev == y.ev;
    if x.start < y.start { NormalStartsEarlier(a, b); }
    if y.start < x.start { NormalStartsEarlier(b, a); }
  }

  lemma {:induction false} NormalLastReaches(a: seq<Gap>, b: seq<Gap>)
    requires Normal(a) && Normal(b) && a != [] && b != []
    requires forall t :: At(a, t) == At(b, t)
    ensures a[|a| - 1].end <= b[|b| - 1].end
  {
    var e := a[|a| - 1].end;
    AtDisjoint(a, |a| - 1, e);
    assert At(b, e).Some?;
    AtUncovered(b, e);
    var j :| 0 <= j < |b| && Covers(b[j], e);
    if b[j].end < e { GridStep(b[j].end, e); }
    if j < |b| - 1 { assert b[j].end < b[|b| - 1].start; }
  }

  lemma {:induction false} NormalStartsEarlier(a: seq<Gap>, b: seq<Gap>)
    requires Normal(a) && Normal(b) && a != [] && b != []
    requires forall t :: At(a, t) == At(b, t)
    requires a[|a| - 1].end == b[|b| - 1].end && a[|a| - 1].ev == b[|b| - 1].ev
    ensures a[|a| - 1].start >= b[|b| - 1].start
  {
    var n := |b| - 1;
    var x, y := a[|a| - 1], b[n];
    if x.start < y.start {
      var t := y.start - ONE_MIN_MS;
      GridStep(x.start, y.start);
      AtDisjoint(a, |a| - 1, t);
      assert At(b, t) == Some(x.ev);
      AtUncovered(b, t);
      var j :| 0 <= j < |b| && Covers(b[j], t);
      AtDisjoint(b, j, t);
      TouchesNext(b, j);
    }
  }

  /** A record of a normal ledger that reaches up to the last one is its neighbour and says otherwise. */
  lemma {:induction false} TouchesNext(b: seq<Gap>, j: nat)
    requires Normal(b) && j < |b| - 1
    requires Covers(b[j], b[|b| - 1].start - ONE_MIN_MS)
    ensures b[j].ev != b[|b| - 1].ev
  {
    var n := |b| - 1;
    assert b[j].end < b[n].start;
    GridStep(b[j].end, b[n].start);
    assert b[j].end + ONE_MIN_MS == b[n].start;
    if j < n - 1 { ApartFromLast(b, j); }
  }

  lemma {:induction false} ApartFromLast(b: seq<Gap>, j: nat)
    requires Normal(b) && j + 2 < |b|
    ensures b[j].end + ONE_MIN_MS < b[|b| - 1].start
  {
    assert b[j].end < b[j + 1].start <= b[j + 1].end < b[|b| - 1].start;
    GridStep(b[j].end, b[j + 1].start);
  }

  lemma {:induction false} NormalPrefix(a: seq<Gap>)
    requires Normal(a) && a != []
    ensures Normal(a[..|a| - 1])
    ensures forall t :: At(a[..|a| - 1], t) == if Covers(a[|a| - 1], t) then None else At(a, t)
  {
    var n := |a| - 1;
    var init := a[..n];
    assert forall i :: 0 <= i < n ==> init[i] == a[i];
    forall t ensures At(init, t) == if Covers(a[n], t) then None else At(a, t) {
      AtUncovered(init, t);
      if Covers(a[n], t) { AtDisjoint(a, n, t); }
    }
  }

  /** The normal form is canonical: it is determined by what each minute carries. */
  lemma {:induction false} NormalIsCanonical(a: seq<Gap>, b: seq<Gap>)
    requires Normal(a) && Normal(b)
    requires forall t :: At(a, t) == At(b, t)
    ensures a == b
  {
    if a == [] || b == [] {
      if a != [] { AtDisjoint(a, 0, a[0].start); }
      if b != [] { AtDisjoint(b, 0, b[0].start); }
    } else {
      NormalSameLast(a, b);
      NormalPrefix(a);
      NormalPrefix(b);
      var p, q := a[..|a| - 1], b[..|b| - 1];
      forall t ensures At(p, t) == At(q, t) { assert At(a, t) == At(b, t); }
      NormalIsCanonical(p, q);
      assert a == a[..|a| - 1] + [a[|a| - 1]];
      assert b == b[..|b| - 1] + [b[|b| - 1]];
    }
  }
}
