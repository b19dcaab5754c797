/** The seed's assignment lifecycle from end to end: factory, fill history, bench re-dating. */
module SeedLifecycle {
  import opened BenchAging
  import opened Calendar
  import opened Collections
  import opened FillHistory
  import opened Projects
  import opened SeedClock
  import opened StaffingFactory
  import S = Staffing

  /** The same rows up to their dates. */
  ghost predicate SameButDates(u: seq<Row>, v: seq<Row>) {
    |u| == |v| && forall k :: 0 <= k < |u| ==> u[k] == v[k].(occurredAt := u[k].occurredAt)
  }

  lemma {:induction false} PositionsKeepTheirRows(u: seq<Row>, v: seq<Row>, id: nat)
    requires SameButDates(u, v)
    ensures SameButDates(ForPosition(u, id), ForPosition(v, id))
  {
    if u != [] {
      PositionsKeepTheirRows(u[..|u| - 1], v[..|v| - 1], id);
    }
  }

  lemma {:induction false} ReplayIgnoresDates(u: seq<Row>, v: seq<Row>, from: FillStatus)
    requires SameButDates(u, v)
    ensures Replay(u, from) == Replay(v, from)
  {
    if u != [] && u[0].previousStatus == from {
      ReplayIgnoresDates(u[1..], v[1..], u[0].newStatus);
    }
  }

  /** Re-dating the bench breaks no position's history: each still replays to the same status. */
  lemma RedatingKeepsReplay(b: Bench, vals: seq<Row>, id: nat)
    requires S.InRange(b.rng)
    ensures Replay(ForPosition(Redated(b, vals), id), Open) == Replay(ForPosition(vals, id), Open)
  {
    hide Redated, Latest;
    BenchIsRecent(b, vals);
    PositionsKeepTheirRows(Redated(b, vals), vals, id);
    ReplayIgnoresDates(ForPosition(Redated(b, vals), id), ForPosition(vals, id), Open);
  }

  // ----- Time order over the whole output

  ghost predicate Timely(rows: seq<S.Assignment>) {
    forall k :: 0 <= k < |rows| ==> S.Emitted(rows[k]) && ReleasedAfterApproval(rows[k])
  }

  /** Long enough that no draw puts a release before its approval. */
  predicate LongEnough(d: S.Dataset, p: Project) { p.EndOr(d.now) - p.startsOn >= 49 * 86_400_000 }

  lemma {:induction false} ClosedSlotsAreTimely(d: S.Dataset, rows: seq<S.Assignment>, p: Project, idx: nat,
                                                pool: seq<string>, n: nat)
    requires S.InRange(d.rng) && pool != [] && LongEnough(d, p) && Timely(rows)
    ensures Timely(S.ClosedSlots(d, rows, p, idx, pool, n))
  {
    hide S.ClosedRow, S.Emitted, S.InRange;
    if n > 0 {
      ClosedSlotsAreTimely(d, rows, p, idx, pool, n - 1);
      LongProjectsReleaseInOrder(d, |S.ClosedSlots(d, rows, p, idx, pool, n - 1)| + 1, p, idx, n - 1, pool);
    }
  }

  lemma {:induction false} ClosedRowsAreTimely(d: S.Dataset, rows: seq<S.Assignment>, closed: seq<Project>,
                                               pool: seq<string>, k: nat)
    requires S.InRange(d.rng) && pool != [] && k <= |closed| && Timely(rows)
    requires forall i :: 0 <= i < |closed| ==> LongEnough(d, closed[i])
    ensures Timely(S.ClosedRows(d, rows, closed, pool, k))
  {
    hide S.ClosedSlots, S.InRange, Timely, LongEnough;
    if k > 0 {
      ClosedRowsAreTimely(d, rows, closed, pool, k - 1);
      var before := S.ClosedRows(d, rows, closed, pool, k - 1);
      ClosedSlotsAreTimely(d, before, closed[k - 1], k - 1, pool, S.ClosedTeamSize(k - 1));
    }
  }

  /** The terminated person's history too: it has no release when the project has no end date. */
  lemma FinalRowInOrder(d: S.Dataset, id: nat, person: string, p: Project)
    requires LongEnough(d, p)
    ensures InOrder(HistoryOf(S.FinalRow(id, person, p)))
  {
    hide AddDays;
    AddDaysShifts(p.startsOn, -7);
  }

  /** When every closed project lasts 49 days, every history of the output is in time order before the re-dating. */
  lemma AllHistoriesInOrder(d: S.Dataset, closed: seq<Project>, pool: seq<string>, terminated: string)
    requires d.Valid() && S.FinalActive(d).Some?
    requires pool != [] && 5 < |closed|
    requires forall i :: 0 <= i < |closed| ==> LongEnough(d, closed[i])
    ensures forall a :: a in AllRows(d, closed, pool, terminated) ==> InOrder(HistoryOf(a))
  {
    hide S.FinalActive, S.ClosedRows, S.FinalRow, S.Emitted, S.Load, InOrder, HistoryOf, S.Eligible, S.AllHaveRoom;
    S.ExactlyTheExportedExceedTheCap(d);
    var active := S.FinalActive(d).value.rows;
    var rows := S.ClosedRows(d, active, closed, pool, |closed|);
    ClosedRowsAreTimely(d, active, closed, pool, |closed|);
    FinalRowInOrder(d, |rows| + 1, terminated, closed[5]);
    forall a | a in rows ensures InOrder(HistoryOf(a)) {
      HistoryInOrder(a);
    }
  }

  /** In the whole output only the last row may be without an end. */
  lemma CompleteIffEmitted(d: S.Dataset, closed: seq<Project>, pool: seq<string>, terminated: string, k: nat)
    requires d.Valid() && S.FinalActive(d).Some? && pool != [] && 5 < |closed|
    requires k < |AllRows(d, closed, pool, terminated)|
    ensures var all := AllRows(d, closed, pool, terminated);
      Complete(all[k]) <==> k < |all| - 1 || closed[5].endsOn.Some?
  {
    hide S.FinalActive, S.ClosedRows, S.Load, AddDays;
    AllRowsInForm(d, closed, pool, terminated);
    var all := AllRows(d, closed, pool, terminated);
    if k < |all| - 1 { assert all[k] == all[..|all| - 1][k]; }
  }

  /** The closed projects as the seed makes them, at any offsets into its window. */
  ghost predicate GeneratedFrom(closed: seq<Project>, windowStart: Instant, offsets: seq<int>) {
    |offsets| == |closed| &&
    forall i :: 0 <= i < |closed| ==> closed[i] == ClosedProject(closed[i].id, windowStart, offsets[i], i)
  }

  /** The seed's own closed projects are long enough, so its histories are in time order whatever is drawn. */
  lemma GeneratedHistoriesInOrder(d: S.Dataset, closed: seq<Project>, windowStart: Instant, offsets: seq<int>,
                                  pool: seq<string>, terminated: string)
    requires d.Valid() && S.FinalActive(d).Some? && pool != [] && 5 < |closed|
    requires GeneratedFrom(closed, windowStart, offsets)
    ensures closed[5].endsOn.Some?
    ensures forall a :: a in AllRows(d, closed, pool, terminated) ==> InOrder(HistoryOf(a))
  {
    hide S.FinalActive, AllRows, InOrder, HistoryOf, ClosedProject;
    assert closed[5].endsOn.Some? by {
      ClosedProjectEnds(closed[5].id, windowStart, offsets[5], 5);
    }
    forall i | 0 <= i < |closed| ensures LongEnough(d, closed[i]) {
      ClosedProjectLasts(d, closed[i].id, windowStart, offsets[i], i);
    }
    AllHistoriesInOrder(d, closed, pool, terminated);
  }

  lemma ClosedProjectEnds(id: string, windowStart: Instant, endsOnOffset: int, i: nat)
    ensures ClosedProject(id, windowStart, endsOnOffset, i).endsOn.Some?
  {
    hide AddDays;
  }

  /**
    The whole seed of the staffing tables, unless the program throws.  The assignments are
    the three phases' rows, the history rows are their table re-dated, and in them every
    position replays to its fill status, the last one exactly when its project has an end
    date.  Everyone but the exported people is within the cap, and whoever sits on the bench
    was last released within 180 days, as everyone there with an ended assignment was.
  */
  method SeedStaffing(d: S.Dataset, closed: seq<Project>, pool: seq<string>, terminated: string,
                      activePeople: set<string>)
    returns (assignments: seq<S.Assignment>, rows: seq<HistoryRow>, overIds: Option<seq<string>>)
    requires d.Valid() && pool != [] && 5 < |closed|
    ensures overIds == if S.FinalActive(d).Some? then Some(S.OverAllocated(d)) else None
    ensures overIds.None? <==> |d.active| <= 3 && !S.AllHaveRoom(d)
    ensures overIds.Some? ==> (S.NoPairTwice(S.FinalActive(d).value.rows) <==> S.AllHaveRoom(d))
    ensures |S.Eligible(d)| >= 5 ==> S.AllHaveRoom(d)
    ensures overIds.Some? ==>
      && assignments == AllRows(d, closed, pool, terminated)
      && Values(rows) == Redated(Bench(StaffedNow(assignments), activePeople, d.now, d.rng), Table(assignments))
    ensures overIds.Some? ==> |overIds.value| <= 2 && forall p ::
      if p in overIds.value then 130 <= S.Load(assignments, p) <= 150 else S.Load(assignments, p) <= 100
    ensures overIds.Some? ==> forall k :: 0 <= k < |assignments| ==>
      (Replay(ForPosition(Values(rows), k + 1), Open) == Some(MapStatus(assignments[k].status))
       <==> k < |assignments| - 1 || closed[5].endsOn.Some?)
    ensures overIds.Some? ==> forall p, t ::
      p in activePeople && p !in StaffedNow(assignments) && IsLatestRelease(Values(rows), p, t) ==>
        d.now - 180 * 86_400_000 <= t
    ensures overIds.Some? ==> forall a ::
      a in assignments && a.status == S.Completed && a.validTo.Some?
      && a.personId in activePeople && a.personId !in StaffedNow(assignments) ==>
        exists t :: IsLatestRelease(Values(rows), a.personId, t) && d.now - 180 * 86_400_000 <= t
  {
    hide S.FinalActive, S.OverAllocated, S.Load, S.Eligible, S.NoPairTwice, S.AllHaveRoom;
    hide AllRows, Redated, Table, Replay, ForPosition, MapStatus;
    var factory := new Factory();
    overIds := factory.Run(d, closed, pool, terminated);
    if overIds.None? {
      return [], [], None;
    }
    assignments := factory.assignments;
    rows := History(assignments, activePeople, d.now, d.rng);
    var b := Bench(StaffedNow(assignments), activePeople, d.now, d.rng);
    forall k | 0 <= k < |assignments|
      ensures Replay(ForPosition(Values(rows), k + 1), Open) == Some(MapStatus(assignments[k].status))
         <==> k < |assignments| - 1 || closed[5].endsOn.Some?
    {
      FactoryHistoriesReplay(assignments, k);
      CompleteIffEmitted(d, closed, pool, terminated, k);
      RedatingKeepsReplay(b, Table(assignments), k + 1);
    }
  }
}
