/** The assignment factory as the module-level tables and loops it is, proved against `Staffing`. */
module StaffingFactory {
  import opened Calendar
  import opened Collections
  import opened Projects
  import opened RingProbe
  import opened SeedClock
  import opened Staffing

  class Factory {
    var activeAllocByPerson: map<string, int>
    var insertionOrder: seq<string>
    var activeTeamByProject: map<string, set<string>>
    var assignments: seq<Assignment>
    var asgSeq: nat

    ghost predicate Valid()
      reads this
    {
      asgSeq == |assignments|
    }

    ghost function Tables(): Ledger
      reads this
    {
      Ledger(activeAllocByPerson, insertionOrder, activeTeamByProject, assignments)
    }

    constructor ()
      ensures Valid() && Tables() == Ledger(map[], [], map[], [])
    {
      activeAllocByPerson, insertionOrder, activeTeamByProject, assignments, asgSeq := map[], [], map[], [], 0;
    }

    method NextId() returns (id: nat)
      modifies this`asgSeq
      ensures id == asgSeq == old(asgSeq) + 1
    {
      asgSeq := asgSeq + 1;
      id := asgSeq;
    }

    /** Team, allocation map and rows, in the order the factory updates them. */
    method PushCurrent(row: Assignment)
      requires asgSeq == |assignments| + 1
      modifies this
      ensures Valid() && Tables() == Record(old(Tables()), row)
    {
      var team := TeamOf(activeTeamByProject, row.projectId);
      activeTeamByProject := activeTeamByProject[row.projectId := team + {row.personId}];
      if row.personId !in activeAllocByPerson {
        insertionOrder := insertionOrder + [row.personId];
      }
      var load := Get(activeAllocByPerson, row.personId);
      activeAllocByPerson := activeAllocByPerson[row.personId := load + row.allocationPercent];
      assignments := assignments + [row];
    }

    /** The two probing passes over the pool. */
    method FindPerson(team: set<string>, pool: seq<string>, seed: nat, wantAlloc: int) returns (choice: Choice)
      ensures choice == Choose(activeAllocByPerson, team, pool, seed, wantAlloc)
      ensures 25 <= wantAlloc && choice.Staff? ==>
        var free := if choice.alloc == wantAlloc then wantAlloc else 25;
        TakenInTurn(activeAllocByPerson, team, pool, seed, free, choice.person)
    {
      hide TakenInTurn;
      if 25 <= wantAlloc {
        ChoiceFollowsTheRing(activeAllocByPerson, team, pool, seed, wantAlloc);
      }
      ghost var fits := FitsWhole(activeAllocByPerson, team, wantAlloc);
      for probe := 0 to |pool|
        invariant RingFind(pool, seed, probe, fits) == RingFind(pool, seed, 0, fits)
      {
        var cand := RingAt(pool, seed, probe);
        if cand in team { continue; }
        var used := Get(activeAllocByPerson, cand);
        if used + wantAlloc <= 100 {
          return Staff(cand, wantAlloc);
        }
      }
      ghost var room := HasRoom(activeAllocByPerson, team);
      for probe := 0 to |pool|
        invariant RingFind(pool, seed, probe, room) == RingFind(pool, seed, 0, room)
      {
        var cand := RingAt(pool, seed, probe);
        if cand in team { continue; }
        var free := 100 - Get(activeAllocByPerson, cand);
        if free >= 25 {
          return Staff(cand, free);
        }
      }
      choice := Unstaffed;
    }

    method StaffSlot(d: Dataset, projIdx: nat, i: nat)
      requires Valid() && projIdx < |d.active| == |d.pools|
      modifies this
      ensures Valid() && Tables() == Slot(d, old(Tables()), projIdx, i)
    {
      hide AddDays, Choose, Record;
      var proj := d.active[projIdx];
      var seed := projIdx * 100 + i;
      var choice := FindPerson(TeamOf(activeTeamByProject, proj.id), d.pools[projIdx], seed, PickAlloc(i));
      if choice.Unstaffed? {
        return;
      }
      var row := ActiveRow(d, asgSeq + 1, projIdx, i, choice.person, choice.alloc);
      if row.validFrom > d.now {
        return;
      }
      var id := NextId();
      PushCurrent(row);
    }

    method StaffActiveProjects(d: Dataset)
      requires Valid() && d.Valid() && Tables() == Ledger(map[], [], map[], [])
      modifies this
      ensures Valid() && Tables() == Staffed(d, |d.active|)
      ensures Consistent(Tables()) && Capped(Tables())
    {
      hide Slot, Consistent, Capped;
      for projIdx := 0 to |d.active|
        invariant Valid() && Tables() == Staffed(d, projIdx)
      {
        ghost var before := Tables();
        activeTeamByProject := activeTeamByProject[d.active[projIdx].id := {}];
        var teamSize := TeamSize(projIdx);
        for i := 0 to teamSize
          invariant Valid() && Tables() == Slots(d, before, projIdx, i)
        {
          StaffSlot(d, projIdx, i);
        }
      }
      StaffingKeepsTheCap(d, |d.active|);
    }

    /** Picks the people to over-allocate by walking the allocation map in its order. */
    method PickOverAllocated(people: seq<string>) returns (picked: seq<string>)
      ensures picked == PickOver(Tables(), people, 0, [])
    {
      picked := [];
      var j := 0;
      while j < |insertionOrder|
        invariant j <= |insertionOrder|
        invariant PickOver(Tables(), people, j, picked) == PickOver(Tables(), people, 0, [])
      {
        if |picked| >= 2 { break; }
        var personId := insertionOrder[j];
        j := j + 1;
        if Get(activeAllocByPerson, personId) < 80 { continue; }
        if personId in people {
          picked := picked + [personId];
        }
      }
    }

    method FindTarget(d: Dataset, person: string) returns (t: nat)
      ensures t == Target(d, Tables(), person, 0)
    {
      for idx := 0 to |d.active|
        invariant Target(d, Tables(), person, idx) == Target(d, Tables(), person, 0)
      {
        if idx != 8 && person !in TeamOf(activeTeamByProject, d.active[idx].id) {
          return idx;
        }
      }
      t := 3;
    }

    /** The over-allocation phase; nothing when the fallback project does not exist and the program throws. */
    method OverAllocate(d: Dataset) returns (overIds: Option<seq<string>>)
      requires Valid()
      modifies this
      ensures var picked := PickOver(old(Tables()), d.people, 0, []);
        match Spilled(d, old(Tables()), picked, |picked|)
        case None => overIds == None
        case Some(after) => overIds == Some(picked) && Valid() && Tables() == after
    {
      hide PickOver, Target, MonthsAgo, Record;
      var picked := PickOverAllocated(d.people);
      ghost var before := Tables();
      for k := 0 to |picked|
        invariant Valid() && Spilled(d, before, picked, k) == Some(Tables())
      {
        var t := FindTarget(d, picked[k]);
        if t >= |d.active| {
          SpillStopsThere(d, before, picked, k + 1);
          return None;
        }
        var id := NextId();
        PushCurrent(SpillRow(d, id, picked[k], t, k));
      }
      overIds := Some(picked);
    }

    method StaffClosedProjects(d: Dataset, closed: seq<Project>, pool: seq<string>)
      requires Valid() && pool != []
      modifies this`assignments, this`asgSeq
      ensures Valid() && assignments == ClosedRows(d, old(assignments), closed, pool, |closed|)
    {
      hide ClosedRow;
      for idx := 0 to |closed|
        invariant Valid() && assignments == ClosedRows(d, old(assignments), closed, pool, idx)
      {
        ghost var before := assignments;
        var teamSize := ClosedTeamSize(idx);
        for i := 0 to teamSize
          invariant Valid() && assignments == ClosedSlots(d, before, closed[idx], idx, pool, i)
        {
          var id := NextId();
          assignments := assignments + [ClosedRow(d, id, closed[idx], idx, i, pool)];
        }
      }
    }

    /**
      The whole factory.  It throws exactly when one of the people to over-allocate has no
      free project and there are at most three.  Otherwise loads add up, exactly the exported
      people, at most two, exceed the cap, and nobody is twice on an active project exactly
      when all of them had a free one.  Every row is numbered in order and fit for the fill
      history, the last one if the terminated person's project has an end date.
    */
    method Run(d: Dataset, closed: seq<Project>, pool: seq<string>, terminated: string)
      returns (overIds: Option<seq<string>>)
      requires Valid() && d.Valid() && Tables() == Ledger(map[], [], map[], [])
      requires pool != [] && 5 < |closed|
      modifies this
      ensures overIds == if FinalActive(d).Some? then Some(OverAllocated(d)) else None
      ensures overIds.None? <==> |d.active| <= 3 && !AllHaveRoom(d)
      ensures overIds.Some? ==> (NoPairTwice(FinalActive(d).value.rows) <==> AllHaveRoom(d))
      ensures |Eligible(d)| >= 5 ==> AllHaveRoom(d)
      ensures overIds.Some? ==>
        && assignments == AllRows(d, closed, pool, terminated)
        && InIdOrder(assignments) && assignments != [] && Numbered(assignments[..|assignments| - 1])
        && (Emitted(assignments[|assignments| - 1]) <==> closed[5].endsOn.Some?)
        && |overIds.value| <= 2 && Distinct(overIds.value)
        && (forall p :: Get(activeAllocByPerson, p) == Load(assignments, p))
        && forall p ::
             if p in overIds.value then 130 <= Load(assignments, p) <= 150 else Load(assignments, p) <= 100
    {
      hide Staffed, Spilled, PickOver, ClosedRows, AddDays, Eligible, NoPairTwice, AllHaveRoom, Load, FinalRow;
      hide InIdOrder, Numbered, Emitted, Capped;
      ExactlyTheExportedExceedTheCap(d);
      StaffActiveProjects(d);
      overIds := OverAllocate(d);
      if overIds.None? {
        return;
      }
      assert Tables() == FinalActive(d).value;
      StaffClosedProjects(d, closed, pool);
      AllRowsInForm(d, closed, pool, terminated);
      var id := NextId();
      assignments := assignments + [FinalRow(id, terminated, closed[5])];
    }
  }

  /** Every assignment the three phases emit, in order. */
  function AllRows(d: Dataset, closed: seq<Project>, pool: seq<string>, terminated: string): seq<Assignment>
    requires |d.active| == |d.pools| && FinalActive(d).Some?
    requires pool != [] && 5 < |closed|
  {
    var rows := ClosedRows(d, FinalActive(d).value.rows, closed, pool, |closed|);
    rows + [FinalRow(|rows| + 1, terminated, closed[5])]
  }

  /** The rows are numbered, well-formed but for a last one without an end, and load nobody beyond the active ones. */
  lemma AllRowsInForm(d: Dataset, closed: seq<Project>, pool: seq<string>, terminated: string)
    requires d.Valid() && FinalActive(d).Some? && pool != [] && 5 < |closed|
    ensures var all := AllRows(d, closed, pool, terminated);
      && InIdOrder(all) && all != [] && Numbered(all[..|all| - 1])
      && (Emitted(all[|all| - 1]) <==> closed[5].endsOn.Some?)
      && forall p :: Load(all, p) == Load(FinalActive(d).value.rows, p)
  {
    hide FinalActive, ClosedRows, Load, Eligible, AllHaveRoom, Numbered, InIdOrder, AddDays, Emitted;
    ExactlyTheExportedExceedTheCap(d);
    var active := FinalActive(d).value;
    AgreesIsNumbered(active);
    var rows := ClosedRows(d, active.rows, closed, pool, |closed|);
    ClosedProjectsAddNoLoad(d, active.rows, closed, pool, |closed|);
    var last := FinalRow(|rows| + 1, terminated, closed[5]);
    FinalRowIsEmitted(|rows| + 1, terminated, closed[5]);
    CompletedRowKeeps(rows, last);
    assert (rows + [last])[..|rows|] == rows;
  }

  /** The last row of all is the terminated person's, over the sixth closed project from start to end. */
  lemma LastRowTells(d: Dataset, closed: seq<Project>, pool: seq<string>, terminated: string)
    requires |d.active| == |d.pools| && FinalActive(d).Some? && pool != [] && 5 < |closed|
    ensures var all, p := AllRows(d, closed, pool, terminated), closed[5];
      all != [] && all[|all| - 1] == Assignment(|all|, terminated, p.id, Completed, 100, p.startsOn, p.endsOn,
                                                Some(p.startsOn), p.startsOn - 7 * 86_400_000)
  {
    hide FinalActive, ClosedRows, AddDays;
    AddDaysShifts(closed[5].startsOn, -7);
  }

  lemma AgreesIsNumbered(l: Ledger)
    requires Agrees(l)
    ensures Numbered(l.rows)
  {}

  /** Once the phase has thrown there is no later state. */
  lemma {:induction false} SpillStopsThere(d: Dataset, l: Ledger, picked: seq<string>, k: nat)
    requires k <= |picked| && Spilled(d, l, picked, k).None?
    ensures Spilled(d, l, picked, |picked|).None?
    decreases |picked| - k
  {
    hide SpillOnce;
    if k < |picked| {
      SpillStopsThere(d, l, picked, k + 1);
    }
  }

  lemma FinalRowIsEmitted(id: nat, person: string, p: Project)
    ensures Emitted(FinalRow(id, person, p)) <==> p.endsOn.Some?
  {
    hide AddDays;
    AddDaysShifts(p.startsOn, -7);
  }
}
