/**
  The lean re-map: one position per assignment, with a fill-history row per lifecycle step.
*/
module FillHistory {
  import opened Calendar
  import opened Collections
  import opened Projects
  import opened SeedClock
  import R = StaffingRows
  import S = Staffing

  datatype FillStatus = Draft | Open | Proposed | Booked | Onboarding | Assigned | OnHold | Released

  /** The legacy status names the dataset uses; any other counts as assigned. */
  function MapStatus(s: S.Status): FillStatus {
    match s
    case Proposed => Proposed
    case Booked => Booked
    case Assigned => Assigned
    case Completed => Released
    case Other(_) => Assigned
  }

  /** Where the live state machine lets a position go. */
  function Destinations(s: FillStatus): set<FillStatus> {
    match s
    case Draft => {Open, Released}
    case Open => {Proposed, Released}
    case Proposed => {Booked, Open, Released}
    case Booked => {Onboarding, Assigned, Released}
    case Onboarding => {Assigned, OnHold, Released}
    case Assigned => {OnHold, Released}
    case OnHold => {Assigned, Released}
    case Released => {}
  }

  datatype Row = Row(
    positionId: nat, changeType: FillStatus, newPersonId: Option<string>, previousPersonId: Option<string>,
    previousStatus: FillStatus, newStatus: FillStatus, occurredAt: Instant)

  function ProposedRow(a: S.Assignment): Row {
    Row(a.id, Proposed, Some(a.personId), None, Open, Proposed, a.requestedAt)
  }

  function BookedRows(a: S.Assignment): seq<Row> {
    if a.approvedAt.Some? && MapStatus(a.status) != Proposed
    then [Row(a.id, Booked, Some(a.personId), None, Proposed, Booked, a.approvedAt.value)] else []
  }

  function AssignedRows(a: S.Assignment): seq<Row> {
    if MapStatus(a.status) == Assigned || MapStatus(a.status) == Released
    then [Row(a.id, Assigned, Some(a.personId), None, Booked, Assigned,
              if a.approvedAt.Some? then a.approvedAt.value else a.validFrom)] else []
  }

  function ReleasedRows(a: S.Assignment): seq<Row> {
    if MapStatus(a.status) == Released && a.validTo.Some?
    then [Row(a.id, Released, None, Some(a.personId), Assigned, Released, a.validTo.value)] else []
  }

  /** The rows one assignment gets. */
  function HistoryOf(a: S.Assignment): seq<Row> {
    [ProposedRow(a)] + BookedRows(a) + AssignedRows(a) + ReleasedRows(a)
  }

  function Table(assignments: seq<S.Assignment>): seq<Row> {
    if assignments == [] then []
    else Table(assignments[..|assignments| - 1]) + HistoryOf(assignments[|assignments| - 1])
  }

  // ----- Replaying a history

  /** The status a history leads to from `from`; nothing when a row does not continue the one before. */
  function Replay(rows: seq<Row>, from: FillStatus): Option<FillStatus> {
    if rows == [] then Some(from)
    else if rows[0].previousStatus != from then None
    else Replay(rows[1..], rows[0].newStatus)
  }

  predicate InOrder(rows: seq<Row>) {
    forall i, j :: 0 <= i < j < |rows| ==> rows[i].occurredAt <= rows[j].occurredAt
  }

  /** Approved, unless it is still proposed, and ended if it is released. */
  predicate Complete(a: S.Assignment) {
    && (MapStatus(a.status) == Proposed || a.approvedAt.Some?)
    && (MapStatus(a.status) == Released ==> a.validTo.Some?)
  }

  /**
    The rows replay from OPEN to the position's own fill status exactly when the assignment
    was approved, unless it is still proposed, and has an end date if it is released.
  */
  lemma ReplayReachesTheFillStatus(a: S.Assignment)
    ensures Replay(HistoryOf(a), Open) == Some(MapStatus(a.status)) <==> Complete(a)
  {
    ReplayFour(ProposedRow(a), BookedRows(a), AssignedRows(a), ReleasedRows(a), Open);
  }

  lemma ReplayStep(row: Row, rest: seq<Row>, from: FillStatus)
    ensures Replay([row] + rest, from) == if row.previousStatus != from then None else Replay(rest, row.newStatus)
  {
    assert ([row] + rest)[1..] == rest;
  }

  lemma ReplayFour(p: Row, b: seq<Row>, a: seq<Row>, r: seq<Row>, from: FillStatus)
    requires |b| <= 1 && |a| <= 1 && |r| <= 1
    ensures Replay([p] + b + a + r, from)
            == if p.previousStatus != from then None else ReplayOptional(b, a, r, p.newStatus)
  {
    assert [p] + b + a + r == [p] + (b + (a + r));
    ReplayStep(p, b + (a + r), from);
    if b != [] { ReplayStep(b[0], a + r, p.newStatus); assert b == [b[0]]; } else { assert b + (a + r) == a + r; }
    var after := if b == [] then p.newStatus else b[0].newStatus;
    if a != [] { ReplayStep(a[0], r, after); assert a == [a[0]]; } else { assert a + r == r; }
    var then' := if a == [] then after else a[0].newStatus;
    if r != [] { ReplayStep(r[0], [], then'); assert r == [r[0]] + []; }
  }

  function ReplayOptional(b: seq<Row>, a: seq<Row>, r: seq<Row>, from: FillStatus): Option<FillStatus> {
    if b != [] && b[0].previousStatus != from then None
    else
      var s := if b == [] then from else b[0].newStatus;
      if a != [] && a[0].previousStatus != s then None
      else
        var t := if a == [] then s else a[0].newStatus;
        if r != [] && r[0].previousStatus != t then None
        else Some(if r == [] then t else r[0].newStatus)
  }

  /** Every generated row takes an edge the live state machine has, and is named after where it leads. */
  lemma RowsTakeLiveEdges(a: S.Assignment)
    ensures forall r :: r in HistoryOf(a) ==>
      r.positionId == a.id && r.changeType == r.newStatus && r.newStatus in Destinations(r.previousStatus)
  {}

  /**
    What the rows of a complete assignment say: the steps it went through, the date of each,
    and whom it concerns.  Every step but a release puts the person in; a release names them
    as the one who leaves.
  */
  lemma HistoryTells(a: S.Assignment)
    requires Complete(a)
    ensures var h := HistoryOf(a);
      && |h| == (match a.status case Proposed => 1 case Booked => 2 case Completed => 4 case _ => 3)
      && h[0].newStatus == Proposed && h[0].occurredAt == a.requestedAt
      && (|h| > 1 ==> h[1].newStatus == Booked && Some(h[1].occurredAt) == a.approvedAt)
      && (|h| > 2 ==> h[2].newStatus == Assigned && Some(h[2].occurredAt) == a.approvedAt)
      && (|h| > 3 ==> h[3].newStatus == Released && Some(h[3].occurredAt) == a.validTo)
    ensures forall r :: r in HistoryOf(a) ==> Concerns(r, a.personId)
  {}

  /** The row puts the person in, or releases them and puts in nobody. */
  predicate Concerns(r: Row, person: string) {
    if r.newStatus == Released then r.newPersonId == None && r.previousPersonId == Some(person)
    else r.newPersonId == Some(person) && r.previousPersonId == None
  }

  /** Complete or not, a history has a release row exactly when the assignment is completed and has an end. */
  lemma ReleaseNamesThePerson(a: S.Assignment)
    ensures var h := HistoryOf(a);
      && h != []
      && (forall r :: r in h ==> r.positionId == a.id && Concerns(r, a.personId))
      && (forall j :: 0 <= j < |h| ==>
            (h[j].newStatus == Released <==> a.status == S.Completed && a.validTo.Some? && j == |h| - 1))
      && (a.status == S.Completed && a.validTo.Some? ==> h[|h| - 1].occurredAt == a.validTo.value)
  {}

  /** A factory row's history is in time order exactly when its release, if it has one, is not before its approval. */
  lemma HistoryInOrder(a: S.Assignment)
    requires S.Emitted(a)
    ensures InOrder(HistoryOf(a)) <==> (a.status == S.Completed ==> a.approvedAt.value <= a.validTo.value)
  {
    var h := HistoryOf(a);
    if a.status == S.Completed {
      assert h == [ProposedRow(a), BookedRows(a)[0], AssignedRows(a)[0], ReleasedRows(a)[0]];
      if InOrder(h) {
        assert h[2].occurredAt <= h[3].occurredAt;
      }
    }
  }

  // ----- Closed projects are long enough

  /** A closed project's dates: `lifespanDays` before its end, which falls at an offset into the seed window. */
  function ClosedProject(id: string, windowStart: Instant, endsOnOffset: int, i: nat): Project {
    var lifespanDays := 180 + (i * 37) % 360;
    var endsOn := AddDays(windowStart, endsOnOffset + lifespanDays);
    Project(id, AddDays(endsOn, -lifespanDays), Some(endsOn))
  }

  lemma ClosedProjectLasts(d: S.Dataset, id: string, windowStart: Instant, endsOnOffset: int, i: nat)
    ensures var p := ClosedProject(id, windowStart, endsOnOffset, i);
      && p.EndOr(d.now) - p.startsOn >= 180 * 86_400_000
      && p.startsOn == windowStart + endsOnOffset * 86_400_000
      && p.endsOn == Some(p.startsOn + (180 + (i * 37) % 360) * 86_400_000)
  {
    hide AddDays, DaysAgo;
    var lifespanDays := 180 + (i * 37) % 360;
    AddDaysShifts(windowStart, endsOnOffset + lifespanDays);
    AddDaysShifts(AddDays(windowStart, endsOnOffset + lifespanDays), -lifespanDays);
  }

  predicate ReleasedAfterApproval(a: S.Assignment)
    requires S.Emitted(a)
  {
    a.status == S.Completed ==> a.approvedAt.value <= a.validTo.value
  }

  /**
    Starts slip by up to 30 days, approvals by 5 more, ends come up to 14 days early: a
    project of 49 days or more always releases after approving.
  */
  lemma LongProjectsReleaseInOrder(d: S.Dataset, id: nat, p: Project, idx: nat, i: nat, pool: seq<string>)
    requires S.InRange(d.rng) && pool != [] && p.EndOr(d.now) - p.startsOn >= 49 * 86_400_000
    ensures var row := S.ClosedRow(d, id, p, idx, i, pool);
            S.Emitted(row) && ReleasedAfterApproval(row)
  {
    hide AddDays, DaysAgo, S.Emitted;
    S.ClosedRowIsEmitted(d, id, p, idx, i, pool);
    R.ClosedRowDates(d, id, p, idx, i, pool);
    var seed := (idx + 100) * 100 + i;
    var late, after, early := d.rng(0, 30, seed), d.rng(0, 5, seed), d.rng(0, 14, seed + 7);
    assert late <= 30 && after <= 5 && early <= 14;
  }

  /** 49 days is the exact bound: on a shorter project the largest draws release before approval. */
  lemma ShortProjectsMayNot(d: S.Dataset, id: nat, p: Project, idx: nat, i: nat, pool: seq<string>)
    requires pool != [] && p.EndOr(d.now) - p.startsOn < 49 * 86_400_000
    ensures var latest := d.(rng := (lo: int, hi: int, seed: int) => if lo <= hi then hi else lo);
      && S.InRange(latest.rng)
      && S.Emitted(S.ClosedRow(latest, id, p, idx, i, pool))
      && !ReleasedAfterApproval(S.ClosedRow(latest, id, p, idx, i, pool))
  {
    hide AddDays, DaysAgo, S.Emitted;
    var latest := d.(rng := (lo: int, hi: int, seed: int) => if lo <= hi then hi else lo);
    assert S.InRange(latest.rng);
    S.ClosedRowIsEmitted(latest, id, p, idx, i, pool);
    R.ClosedRowDates(latest, id, p, idx, i, pool);
  }

  // ----- The whole table

  function ForPosition(rows: seq<Row>, id: nat): seq<Row> {
    if rows == [] then []
    else ForPosition(rows[..|rows| - 1], id) + if rows[|rows| - 1].positionId == id then [rows[|rows| - 1]] else []
  }

  lemma {:induction false} ForPositionSplits(a: seq<Row>, b: seq<Row>, id: nat)
    ensures ForPosition(a + b, id) == ForPosition(a, id) + ForPosition(b, id)
  {
    if b == [] {
      assert a + b == a;
    } else {
      var n := |b| - 1;
      assert (a + b)[..|a| + n] == a + b[..n];
      ForPositionSplits(a, b[..n], id);
    }
  }

  lemma {:induction false} ForPositionOfOne(rows: seq<Row>, own: nat, id: nat)
    requires forall k :: 0 <= k < |rows| ==> rows[k].positionId == own
    ensures ForPosition(rows, id) == if id == own then rows else []
  {
    if rows != [] {
      ForPositionOfOne(rows[..|rows| - 1], own, id);
    }
  }

  /** In a table of numbered assignments each position's rows are exactly its own history. */
  lemma {:induction false} TableByPosition(assignments: seq<S.Assignment>, id: nat)
    requires S.InIdOrder(assignments)
    ensures ForPosition(Table(assignments), id)
            == if 1 <= id <= |assignments| then HistoryOf(assignments[id - 1]) else []
  {
    hide HistoryOf, ForPosition;
    if assignments == [] {
      EmptyTable(id);
    } else {
      var n := |assignments| - 1;
      TableByPosition(assignments[..n], id);
      var h := HistoryOf(assignments[n]);
      ForPositionSplits(Table(assignments[..n]), h, id);
      RowsTakeLiveEdges(assignments[n]);
      assert forall k :: 0 <= k < |h| ==> h[k] in h;
      ForPositionOfOne(h, n + 1, id);
    }
  }

  lemma EmptyTable(id: nat)
    ensures ForPosition(Table([]), id) == []
  {}

  /**
    Within the whole table an assignment replays from OPEN to its position's fill status
    exactly when it is complete, as every well-formed factory row is.
  */
  lemma FactoryHistoriesReplay(assignments: seq<S.Assignment>, k: nat)
    requires S.InIdOrder(assignments) && k < |assignments|
    ensures Replay(ForPosition(Table(assignments), k + 1), Open) == Some(MapStatus(assignments[k].status))
       <==> Complete(assignments[k])
    ensures S.Emitted(assignments[k]) ==> Complete(assignments[k])
  {
    hide Replay, HistoryOf, ForPosition, Table;
    TableByPosition(assignments, k + 1);
    ReplayReachesTheFillStatus(assignments[k]);
  }

  /** So it is in the whole table: the one release of a position is its last row and names the person who leaves. */
  lemma PositionTells(assignments: seq<S.Assignment>, k: nat)
    requires S.InIdOrder(assignments) && k < |assignments|
    ensures var a, rows := assignments[k], ForPosition(Table(assignments), k + 1);
      && rows != []
      && (forall r :: r in rows ==> Concerns(r, a.personId))
      && (forall j :: 0 <= j < |rows| ==>
            (rows[j].newStatus == Released <==> a.status == S.Completed && a.validTo.Some? && j == |rows| - 1))
      && (a.status == S.Completed && a.validTo.Some? ==> rows[|rows| - 1].occurredAt == a.validTo.value)
  {
    hide ForPosition, Table, Concerns;
    TableByPosition(assignments, k + 1);
    ReleaseNamesThePerson(assignments[k]);
  }

  predicate Releases(r: Row, person: string, t: Instant) {
    r.changeType == Released && r.previousPersonId == Some(person) && r.occurredAt == t
  }

  /** And in any table, numbered or not: a completed assignment with an end has its release among the rows. */
  lemma {:induction false} TableHasRelease(assignments: seq<S.Assignment>, a: S.Assignment)
    requires a in assignments && a.status == S.Completed && a.validTo.Some?
    ensures exists r :: r in Table(assignments) && Releases(r, a.personId, a.validTo.value)
  {
    hide HistoryOf;
    var n := |assignments| - 1;
    var own := HistoryOf(assignments[n]);
    if a in assignments[..n] {
      TableHasRelease(assignments[..n], a);
      var r :| r in Table(assignments[..n]) && Releases(r, a.personId, a.validTo.value);
      assert r in Table(assignments);
    } else {
      ReleaseNamesThePerson(a);
      RowsTakeLiveEdges(a);
      var last := own[|own| - 1];
      assert last in own && last in Table(assignments);
      assert Releases(last, a.personId, a.validTo.value);
    }
  }
}
