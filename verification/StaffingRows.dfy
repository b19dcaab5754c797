/** What the assignment factory puts in its rows, slot by slot, in percent and days. */
module StaffingRows {
  import opened Arithmetic
  import opened Calendar
  import opened Collections
  import opened Projects
  import opened RingProbe
  import opened SeedClock
  import opened Staffing

  // ----- Active projects

  /** Someone in the project's pool is off the team and has 25% free. */
  ghost predicate Fillable(d: Dataset, l: Ledger, k: nat)
    requires k < |d.active| == |d.pools|
  {
    exists c :: c in d.pools[k] && c !in TeamOf(l.teams, d.active[k].id) && Get(l.used, c) <= 75
  }

  /** The row slot `i` of project `k` gets when the tables are `l`. */
  ghost predicate SlotRow(d: Dataset, l: Ledger, k: nat, i: nat, row: Assignment)
    requires k < |d.active| == |d.pools|
  {
    var p, seed := d.active[k], k * 100 + i;
    var want, free := [100, 100, 80, 60, 50, 40, 25][i % 7], 100 - Get(l.used, row.personId);
    var from := p.startsOn + d.rng(0, 30, seed) * 86_400_000;
    && TakenInTurn(l.used, TeamOf(l.teams, p.id), d.pools[k], seed, if want <= free then want else 25, row.personId)
    && row.id == |l.rows| + 1 && row.projectId == p.id && row.allocationPercent == Min(want, free)
    && (row.status == Proposed <==> (k, i) in {(9, 0), (6, 1), (8, 2)})
    && (row.status == Booked <==> (k, i) in {(9, 1), (0, 2), (1, 2), (2, 2)})
    && (row.status == Assigned <==> row.status != Proposed && row.status != Booked)
    && row.validFrom == from && row.validTo == None && row.requestedAt == from - d.rng(2, 14, seed + 1) * 86_400_000
    && row.approvedAt == if row.status == Proposed then None else Some(from + d.rng(0, 5, seed) * 86_400_000)
  }

  lemma ActiveRowDates(d: Dataset, id: nat, k: nat, i: nat, person: string, alloc: int)
    requires k < |d.active|
    ensures var row, seed := ActiveRow(d, id, k, i, person, alloc), k * 100 + i;
      var from := d.active[k].startsOn + d.rng(0, 30, seed) * 86_400_000;
      && row.validFrom == from && row.validTo == None && row.requestedAt == from - d.rng(2, 14, seed + 1) * 86_400_000
      && row.approvedAt == (if row.status == Proposed then None else Some(from + d.rng(0, 5, seed) * 86_400_000))
      && row.status == StatusOf(k, i)
  {
    hide AddDays, DaysAgo, StatusOf;
    var seed := k * 100 + i;
    var from := AddDays(d.active[k].startsOn, d.rng(0, 30, seed));
    AddDaysShifts(d.active[k].startsOn, d.rng(0, 30, seed));
    AddDaysShifts(from, d.rng(0, 5, seed));
    AddDaysShifts(from, -d.rng(2, 14, seed + 1));
  }

  lemma SlotStatus(k: nat, i: nat)
    ensures StatusOf(k, i) == Proposed <==> (k, i) in {(9, 0), (6, 1), (8, 2)}
    ensures StatusOf(k, i) == Booked <==> (k, i) in {(9, 1), (0, 2), (1, 2), (2, 2)}
    ensures StatusOf(k, i) in {Proposed, Booked, Assigned}
  {}

  lemma SlotShare(i: nat)
    ensures PickAlloc(i) == [100, 100, 80, 60, 50, 40, 25][i % 7]
  {}

  lemma ActiveRowTells(d: Dataset, l: Ledger, k: nat, i: nat, person: string, alloc: int)
    requires k < |d.active| == |d.pools|
    requires var want, free := PickAlloc(i), 100 - Get(l.used, person);
      && alloc == Min(want, free)
      && TakenInTurn(l.used, TeamOf(l.teams, d.active[k].id), d.pools[k], k * 100 + i,
                     if want <= free then want else 25, person)
    ensures SlotRow(d, l, k, i, ActiveRow(d, |l.rows| + 1, k, i, person, alloc))
  {
    hide ActiveRow, StatusOf, PickAlloc, TakenInTurn, Get, TeamOf;
    ActiveRowFields(d, |l.rows| + 1, k, i, person, alloc);
    ActiveRowDates(d, |l.rows| + 1, k, i, person, alloc);
    SlotStatus(k, i);
    SlotShare(i);
  }

  lemma SlotStarts(d: Dataset, id: nat, k: nat, i: nat, person: string, alloc: int)
    requires k < |d.active|
    ensures ActiveRow(d, id, k, i, person, alloc).validFrom
            == d.active[k].startsOn + d.rng(0, 30, k * 100 + i) * 86_400_000
  {
    hide AddDays;
    AddDaysShifts(d.active[k].startsOn, d.rng(0, 30, k * 100 + i));
  }

  /**
    A slot adds its row exactly when someone can fill it and it does not start in the future;
    otherwise it changes nothing.
  */
  lemma SlotTells(d: Dataset, l: Ledger, k: nat, i: nat)
    requires d.Valid() && k < |d.active|
    ensures var after := Slot(d, l, k, i);
      if Fillable(d, l, k) && d.active[k].startsOn + d.rng(0, 30, k * 100 + i) * 86_400_000 <= d.now then
        |after.rows| == |l.rows| + 1 && l.rows == after.rows[..|l.rows|] && SlotRow(d, l, k, i, after.rows[|l.rows|])
      else
        after == l
  {
    hide Choose, ActiveRow, PickAlloc, TakenInTurn, SlotRow;
    var team := TeamOf(l.teams, d.active[k].id);
    PickAllocRange(i);
    ChoiceIsMaximal(l.used, team, d.pools[k], k * 100 + i, PickAlloc(i));
    ChoiceFollowsTheRing(l.used, team, d.pools[k], k * 100 + i, PickAlloc(i));
    match SlotChoice(d, l, k, i)
    case Unstaffed =>
    case Staff(person, alloc) =>
      SlotStarts(d, |l.rows| + 1, k, i, person, alloc);
      ActiveRowTells(d, l, k, i, person, alloc);
  }

  lemma SlotOnlyAppends(d: Dataset, l: Ledger, k: nat, i: nat)
    requires k < |d.active| == |d.pools|
    ensures l.rows <= Slot(d, l, k, i).rows
  {
    hide Choose, ActiveRow;
  }

  lemma {:induction false} SlotsOnlyAppend(d: Dataset, l: Ledger, k: nat, i: nat, n: nat)
    requires k < |d.active| == |d.pools| && i <= n
    ensures Slots(d, l, k, i).rows <= Slots(d, l, k, n).rows
    decreases n
  {
    hide Slot;
    if i < n {
      SlotsOnlyAppend(d, l, k, i, n - 1);
      SlotOnlyAppends(d, Slots(d, l, k, n - 1), k, n - 1);
    }
  }

  lemma {:induction false} StaffedOnlyAppends(d: Dataset, j: nat, k: nat)
    requires j <= k <= |d.active| == |d.pools|
    ensures Staffed(d, j).rows <= Staffed(d, k).rows
    decreases k
  {
    hide Slots;
    if j < k {
      StaffedOnlyAppends(d, j, k - 1);
      ProjectOnlyAppends(d, Staffed(d, k - 1), k - 1, TeamSize(k - 1));
    }
  }

  lemma ProjectOnlyAppends(d: Dataset, l: Ledger, k: nat, n: nat)
    requires k < |d.active| == |d.pools|
    ensures l.rows <= Slots(d, l, k, n).rows
  {
    hide Slot;
    SlotsOnlyAppend(d, l, k, 0, n);
  }

  /** Each of a project's 8, 10, 12 or 14 slots is filled from the tables before it, and its row is kept. */
  lemma EverySlotHasItsTurn(d: Dataset, k: nat, i: nat)
    requires d.Valid() && k < |d.active| && i < [8, 10, 12, 14][k % 4]
    ensures Slot(d, Slots(d, Staffed(d, k), k, i), k, i).rows <= Staffed(d, |d.active|).rows
    ensures Slots(d, Staffed(d, k), k, 0) == Staffed(d, k).(teams := Staffed(d, k).teams[d.active[k].id := {}])
    ensures Slots(d, Staffed(d, k), k, [8, 10, 12, 14][k % 4]) == Staffed(d, k + 1)
  {
    hide Slot;
    SlotsOnlyAppend(d, Staffed(d, k), k, i + 1, TeamSize(k));
    StaffedOnlyAppends(d, k + 1, |d.active|);
  }

  // ----- The order of the allocation map

  ghost predicate HasRow(rows: seq<Assignment>, person: string) {
    exists k :: 0 <= k < |rows| && rows[k].personId == person
  }

  /** `p` has a row before the first of `q`. */
  ghost predicate RowedBefore(rows: seq<Assignment>, p: string, q: string) {
    exists k :: 0 <= k < |rows| && rows[k].personId == p && forall m :: 0 <= m <= k ==> rows[m].personId != q
  }

  /** The map lists everyone with a row, in the order of their first rows. */
  ghost predicate InRowOrder(l: Ledger) {
    && (forall p :: p in l.order <==> HasRow(l.rows, p))
    && (forall p :: p in l.order <==> p in l.used)
    && (forall a, b :: 0 <= a < b < |l.order| ==> RowedBefore(l.rows, l.order[a], l.order[b]))
  }

  lemma MoreRows(rows: seq<Assignment>, row: Assignment, p: string, q: string)
    ensures HasRow(rows + [row], p) <==> HasRow(rows, p) || row.personId == p
    ensures RowedBefore(rows, p, q) ==> RowedBefore(rows + [row], p, q)
    ensures HasRow(rows, p) && !HasRow(rows, q) ==> RowedBefore(rows + [row], p, q)
  {
    var all := rows + [row];
    assert all[|rows|] == row;
    if HasRow(rows, p) {
      var k :| 0 <= k < |rows| && rows[k].personId == p;
      assert all[k].personId == p;
      if !HasRow(rows, q) { assert forall m :: 0 <= m <= k ==> all[m].personId != q; }
    }
    if RowedBefore(rows, p, q) {
      var k :| 0 <= k < |rows| && rows[k].personId == p && forall m :: 0 <= m <= k ==> rows[m].personId != q;
      assert all[k].personId == p && forall m :: 0 <= m <= k ==> all[m].personId != q;
    }
  }

  lemma RecordKeepsRowOrder(l: Ledger, row: Assignment)
    requires InRowOrder(l)
    ensures InRowOrder(Record(l, row))
  {
    hide HasRow, RowedBefore;
    forall p, q
      ensures HasRow(l.rows + [row], p) <==> HasRow(l.rows, p) || row.personId == p
      ensures RowedBefore(l.rows, p, q) ==> RowedBefore(l.rows + [row], p, q)
      ensures HasRow(l.rows, p) && !HasRow(l.rows, q) ==> RowedBefore(l.rows + [row], p, q)
    {
      MoreRows(l.rows, row, p, q);
    }
  }

  lemma {:induction false} SlotsKeepRowOrder(d: Dataset, l: Ledger, k: nat, n: nat)
    requires k < |d.active| == |d.pools| && InRowOrder(l)
    ensures InRowOrder(Slots(d, l, k, n))
  {
    hide Choose, ActiveRow, InRowOrder, Record;
    if n == 0 {
      SameRowOrder(l, Slots(d, l, k, 0));
    } else {
      SlotsKeepRowOrder(d, l, k, n - 1);
      var before := Slots(d, l, k, n - 1);
      match SlotChoice(d, before, k, n - 1)
      case Unstaffed =>
      case Staff(person, alloc) =>
        RecordKeepsRowOrder(before, ActiveRow(d, |before.rows| + 1, k, n - 1, person, alloc));
    }
  }

  lemma SameRowOrder(l: Ledger, m: Ledger)
    requires InRowOrder(l) && m.order == l.order && m.used == l.used && m.rows == l.rows
    ensures InRowOrder(m)
  {}

  /** The spillover walks the people in the order in which the staffing loop first gave them a row. */
  lemma {:induction false} StaffedInRowOrder(d: Dataset, k: nat)
    requires k <= |d.active| == |d.pools|
    ensures InRowOrder(Staffed(d, k))
  {
    hide Slots;
    if k > 0 {
      StaffedInRowOrder(d, k - 1);
      SlotsKeepRowOrder(d, Staffed(d, k - 1), k - 1, TeamSize(k - 1));
    }
  }

  // ----- The spillover

  /** The first active project, other than number 8, without the person; number 3 when there is none. */
  ghost predicate FirstFree(d: Dataset, l: Ledger, person: string, t: nat) {
    && t < |d.active|
    && if SomeFree(d, l, person) then
         && t != 8 && person !in TeamOf(l.teams, d.active[t].id)
         && forall j :: 0 <= j < t && j != 8 ==> person in TeamOf(l.teams, d.active[j].id)
       else t == 3
  }

  /** The k-th person's extra row: half their time on the first free project, from 2 - k months ago. */
  ghost predicate SpilledRow(d: Dataset, l: Ledger, person: string, k: nat, id: nat, row: Assignment) {
    exists t: nat :: FirstFree(d, l, person, t)
      && row == Assignment(id, person, d.active[t].id, Assigned, 50, MonthsAgo(d.now, 2 - k), None,
                           Some(MonthsAgo(d.now, 2 - k)), MonthsAgo(d.now, 2 - k))
  }

  lemma SpillOnceTells(d: Dataset, l: Ledger, person: string, k: nat)
    requires SpillOnce(d, l, person, k).Some?
    ensures var after := SpillOnce(d, l, person, k).value;
      && |after.rows| == |l.rows| + 1 && l.rows == after.rows[..|l.rows|]
      && SpilledRow(d, l, person, k, |l.rows| + 1, after.rows[|l.rows|])
  {
    hide MonthsAgo, Target;
    TargetSearch(d, l, person, 0);
    assert FirstFree(d, l, person, Target(d, l, person, 0));
  }

  lemma SpillKeepsTeams(d: Dataset, l: Ledger, person: string, k: nat, other: string)
    requires other != person && SpillOnce(d, l, person, k).Some?
    ensures forall q :: other in TeamOf(SpillOnce(d, l, person, k).value.teams, q) <==> other in TeamOf(l.teams, q)
  {
    hide MonthsAgo, Target;
  }

  lemma {:induction false} SpilledKeepsTeams(d: Dataset, l: Ledger, picked: seq<string>, n: nat, other: string)
    requires n <= |picked| && other !in picked[..n] && Spilled(d, l, picked, n).Some?
    ensures forall q :: other in TeamOf(Spilled(d, l, picked, n).value.teams, q) <==> other in TeamOf(l.teams, q)
  {
    hide SpillOnce, TeamOf;
    if n > 0 {
      assert picked[..n] == picked[..n - 1] + [picked[n - 1]];
      SpilledKeepsTeams(d, l, picked, n - 1, other);
      SpillKeepsTeams(d, Spilled(d, l, picked, n - 1).value, picked[n - 1], n - 1, other);
    }
  }

  lemma SameTeamsSameRow(d: Dataset, l: Ledger, m: Ledger, person: string, k: nat, id: nat, row: Assignment)
    requires forall q :: person in TeamOf(l.teams, q) <==> person in TeamOf(m.teams, q)
    requires SpilledRow(d, m, person, k, id, row)
    ensures SpilledRow(d, l, person, k, id, row)
  {
    hide MonthsAgo, TeamOf;
    var t: nat :| FirstFree(d, m, person, t)
      && row == Assignment(id, person, d.active[t].id, Assigned, 50, MonthsAgo(d.now, 2 - k), None,
                           Some(MonthsAgo(d.now, 2 - k)), MonthsAgo(d.now, 2 - k));
    assert SomeFree(d, l, person) <==> SomeFree(d, m, person);
    assert FirstFree(d, l, person, t);
  }

  /** The phase appends one row for each picked person, told from the tables before it. */
  lemma {:induction false} SpillPhaseTells(d: Dataset, l: Ledger, picked: seq<string>, n: nat)
    requires n <= |picked| && Distinct(picked) && Spilled(d, l, picked, n).Some?
    ensures var rows := Spilled(d, l, picked, n).value.rows;
      && |rows| == |l.rows| + n && rows[..|l.rows|] == l.rows
      && forall k :: 0 <= k < n ==> SpilledRow(d, l, picked[k], k, |l.rows| + k + 1, rows[|l.rows| + k])
  {
    hide SpillOnce, SpilledRow;
    if n > 0 {
      SpillPhaseTells(d, l, picked, n - 1);
      var before, p := Spilled(d, l, picked, n - 1).value, picked[n - 1];
      SpillOnceTells(d, before, p, n - 1);
      assert p !in picked[..n - 1];
      SpilledKeepsTeams(d, l, picked, n - 1, p);
      var rows := Spilled(d, l, picked, n).value.rows;
      SameTeamsSameRow(d, l, before, p, n - 1, |l.rows| + n, rows[|l.rows| + n - 1]);
      assert forall k :: 0 <= k < |before.rows| ==> rows[k] == before.rows[k];
    }
  }

  // ----- Closed projects

  lemma {:induction false} ClosedSlotsAt(d: Dataset, rows: seq<Assignment>, p: Project, idx: nat, pool: seq<string>,
                                         n: nat)
    requires pool != []
    ensures var all := ClosedSlots(d, rows, p, idx, pool, n);
      && |all| == |rows| + n && rows <= all
      && forall m :: |rows| <= m < |all| ==> all[m] == ClosedRow(d, m + 1, p, idx, m - |rows|, pool)
  {
    hide ClosedRow;
    if n > 0 {
      ClosedSlotsAt(d, rows, p, idx, pool, n - 1);
    }
  }

  lemma {:induction false} ClosedRowsGrow(d: Dataset, rows: seq<Assignment>, closed: seq<Project>, pool: seq<string>,
                                          j: nat, k: nat)
    requires pool != [] && j <= k <= |closed|
    ensures ClosedRows(d, rows, closed, pool, j) <= ClosedRows(d, rows, closed, pool, k)
    decreases k
  {
    hide ClosedSlots;
    if j < k {
      ClosedRowsGrow(d, rows, closed, pool, j, k - 1);
      ClosedSlotsAt(d, ClosedRows(d, rows, closed, pool, k - 1), closed[k - 1], k - 1, pool, ClosedTeamSize(k - 1));
    }
  }

  /** The row slot `i` of closed project number `idx` gets: the pool goes around, whoever is free or not. */
  ghost predicate ClosedSlotRow(d: Dataset, p: Project, idx: nat, i: nat, pool: seq<string>, row: Assignment)
    requires pool != []
  {
    var seed := (idx + 100) * 100 + i;
    var from := p.startsOn + d.rng(0, 30, seed) * 86_400_000;
    && row.personId == Ring(pool, seed)[0] && row.projectId == p.id && row.status == Completed
    && row.allocationPercent == [100, 100, 80, 60, 50, 40, 25][i % 7]
    && row.validFrom == from && row.approvedAt == Some(from + d.rng(0, 5, seed) * 86_400_000)
    && row.requestedAt == from - d.rng(2, 14, seed + 1) * 86_400_000
    && row.validTo == Some((if p.endsOn.Some? then p.endsOn.value else d.now) - d.rng(0, 14, seed + 7) * 86_400_000)
  }

  lemma ClosedRowTells(d: Dataset, id: nat, p: Project, idx: nat, i: nat, pool: seq<string>)
    requires pool != []
    ensures ClosedSlotRow(d, p, idx, i, pool, ClosedRow(d, id, p, idx, i, pool))
  {
    hide ClosedRow, Ring, PickAlloc;
    ClosedRowDates(d, id, p, idx, i, pool);
    ClosedRowFields(d, id, p, idx, i, pool);
    SlotShare(i);
  }

  lemma ClosedRowFields(d: Dataset, id: nat, p: Project, idx: nat, i: nat, pool: seq<string>)
    requires pool != []
    ensures var row, seed := ClosedRow(d, id, p, idx, i, pool), (idx + 100) * 100 + i;
      && row.personId == Ring(pool, seed)[0] && row.projectId == p.id && row.status == Completed
      && row.allocationPercent == PickAlloc(i)
      && row.requestedAt == row.validFrom - d.rng(2, 14, seed + 1) * 86_400_000
  {
    hide AddDays, DaysAgo, Ring, PickAlloc;
    var seed := (idx + 100) * 100 + i;
    AddDaysShifts(ClosedRow(d, id, p, idx, i, pool).validFrom, -d.rng(2, 14, seed + 1));
    ProbesFollowTheRing(pool, seed, 0);
  }

  lemma ClosedRowDates(d: Dataset, id: nat, p: Project, idx: nat, i: nat, pool: seq<string>)
    requires pool != []
    ensures var row, seed := ClosedRow(d, id, p, idx, i, pool), (idx + 100) * 100 + i;
      var from := p.startsOn + d.rng(0, 30, seed) * 86_400_000;
      && row.validFrom == from && row.approvedAt == Some(from + d.rng(0, 5, seed) * 86_400_000)
      && row.validTo == Some(p.EndOr(d.now) - d.rng(0, 14, seed + 7) * 86_400_000)
  {
    hide AddDays, DaysAgo;
    var seed := (idx + 100) * 100 + i;
    AddDaysShifts(p.startsOn, d.rng(0, 30, seed));
    AddDaysShifts(AddDays(p.startsOn, d.rng(0, 30, seed)), d.rng(0, 5, seed));
    AddDaysShifts(p.EndOr(d.now), -d.rng(0, 14, seed + 7));
  }

  /** Each closed project's 6 to 9 slots have their rows, in order, behind those of the projects before. */
  lemma EveryClosedSlotHasItsRow(d: Dataset, rows: seq<Assignment>, closed: seq<Project>, pool: seq<string>, idx: nat,
                                 i: nat)
    requires pool != [] && idx < |closed| && i < [6, 7, 8, 9][idx % 4]
    ensures var before, all := ClosedRows(d, rows, closed, pool, idx), ClosedRows(d, rows, closed, pool, |closed|);
      && |ClosedRows(d, rows, closed, pool, idx + 1)| == |before| + [6, 7, 8, 9][idx % 4]
      && before <= all && |before| + i < |all|
      && all[|before| + i].id == |before| + i + 1 && ClosedSlotRow(d, closed[idx], idx, i, pool, all[|before| + i])
  {
    hide ClosedRow, ClosedSlots, ClosedSlotRow;
    var before := ClosedRows(d, rows, closed, pool, idx);
    ClosedSlotsAt(d, before, closed[idx], idx, pool, ClosedTeamSize(idx));
    ClosedRowsGrow(d, rows, closed, pool, idx + 1, |closed|);
    ClosedRowTells(d, |before| + i + 1, closed[idx], idx, i, pool);
    ClosedRowIsCompleted(d, |before| + i + 1, closed[idx], idx, i, pool);
  }
}
