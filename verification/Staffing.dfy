/**
  The assignment factory of the IT-company seed: greedy staffing of the active projects
  under a 100% cap per person, the deliberate over-allocation that follows it, and the
  closed projects' completed assignments.  Projects, pools, `now` and the random draws
  are arbitrary.
*/
module Staffing {
  import opened Calendar
  import opened Collections
  import opened Projects
  import opened RingProbe
  import opened SeedClock

  datatype Status = Proposed | Booked | Assigned | Completed | Other(name: string)

  datatype Assignment = Assignment(
    id: nat, personId: string, projectId: string, status: Status, allocationPercent: int,
    validFrom: Instant, validTo: Option<Instant>, approvedAt: Option<Instant>, requestedAt: Instant)

  /**
    What the factory is run on: `pools[k]` is the pool project k draws from,
    `rng(min, max, seed)` a number in [min, max].
  */
  datatype Dataset = Dataset(
    now: Instant, active: seq<Project>, pools: seq<seq<string>>, people: seq<string>, rng: (int, int, int) -> int)
  {
    ghost predicate Valid() {
      && |pools| == |active|
      && DistinctIds(active)
      && InRange(rng)
    }
  }

  ghost predicate InRange(rng: (int, int, int) -> int) {
    forall lo, hi, seed :: lo <= hi ==> lo <= rng(lo, hi, seed) <= hi
  }

  function PickAlloc(idx: nat): int {
    [100, 100, 80, 60, 50, 40, 25][idx % 7]
  }

  lemma PickAllocRange(idx: nat)
    ensures 25 <= PickAlloc(idx) <= 100
  {}

  /**
    The factory's tables.  `order` lists the keys of the allocation map in the order they
    were first set, which is the order its iteration follows.
  */
  datatype Ledger = Ledger(
    used: map<string, int>, order: seq<string>, teams: map<string, set<string>>, rows: seq<Assignment>)

  function Get(used: map<string, int>, person: string): int {
    if person in used then used[person] else 0
  }

  function TeamOf(teams: map<string, set<string>>, project: string): set<string> {
    if project in teams then teams[project] else {}
  }

  // ----- One slot

  datatype Choice = Unstaffed | Staff(person: string, alloc: int)

  /** First pass: not on the team and the whole slot fits under the cap. */
  function FitsWhole(used: map<string, int>, team: set<string>, want: int): string -> bool {
    c => c !in team && Get(used, c) + want <= 100
  }

  /** Fallback: not on the team and at least 25% free. */
  function HasRoom(used: map<string, int>, team: set<string>): string -> bool {
    c => c !in team && 100 - Get(used, c) >= 25
  }

  function Choose(used: map<string, int>, team: set<string>, pool: seq<string>, seed: nat, want: int): Choice {
    match RingFind(pool, seed, 0, FitsWhole(used, team, want))
    case Some(person) => Staff(person, want)
    case None =>
      match RingFind(pool, seed, 0, HasRoom(used, team))
      case Some(person) => Staff(person, 100 - Get(used, person))
      case None => Unstaffed
  }

  /**
    The search is maximal: whoever is taken is a pool member off the team and stays within
    the cap; a slot is downsized, to the member's whole remaining capacity, exactly when no
    pool member off the team fits it whole but one has 25% free; it is left unstaffed
    exactly when none has.
  */
  lemma ChoiceIsMaximal(used: map<string, int>, team: set<string>, pool: seq<string>, seed: nat, want: int)
    requires 25 <= want
    ensures var choice := Choose(used, team, pool, seed, want);
      && (choice.Staff? ==>
           && choice.person in pool && choice.person !in team
           && 25 <= choice.alloc <= want && Get(used, choice.person) + choice.alloc <= 100)
      && (choice.Staff? && choice.alloc == want <==>
           exists c :: c in pool && c !in team && Get(used, c) + want <= 100)
      && (choice.Staff? && choice.alloc < want ==> Get(used, choice.person) + choice.alloc == 100)
      && (choice.Unstaffed? <==> forall c :: c in pool && c !in team ==> 100 - Get(used, c) < 25)
  {
    RingFindIsComplete(pool, seed, FitsWhole(used, team, want));
    RingFindIsComplete(pool, seed, HasRoom(used, team));
  }

  /** `person` comes first, in ring order from `seed`, of those off the team with `free` percent to spare. */
  ghost predicate TakenInTurn(used: map<string, int>, team: set<string>, pool: seq<string>, seed: nat, free: int,
                              person: string) {
    exists q :: 0 <= q < |pool| && Ring(pool, seed)[q] == person && person !in team && Get(used, person) + free <= 100
      && forall r :: 0 <= r < q ==> Ring(pool, seed)[r] in team || Get(used, Ring(pool, seed)[r]) + free > 100
  }

  /**
    Where the search looks.  A slot given whole goes to the first place of the ring, counted
    from `seed`, that fits it whole; a downsized one to the first with 25% free.
  */
  lemma ChoiceFollowsTheRing(used: map<string, int>, team: set<string>, pool: seq<string>, seed: nat, want: int)
    requires 25 <= want
    ensures var choice := Choose(used, team, pool, seed, want);
      choice.Staff? ==> TakenInTurn(used, team, pool, seed, if choice.alloc == want then want else 25, choice.person)
  {
    hide Ring, RingFind;
    RingFindIsFirst(pool, seed, FitsWhole(used, team, want));
    RingFindIsFirst(pool, seed, HasRoom(used, team));
    ChoiceIsMaximal(used, team, pool, seed, want);
  }

  function StatusOf(projIdx: nat, i: nat): Status {
    if i == 0 && projIdx == 9 then Proposed
    else if i == 1 && projIdx == 6 then Proposed
    else if i == 2 && projIdx == 8 then Proposed
    else if i == 1 && projIdx == 9 then Booked
    else if i == 2 && projIdx < 3 then Booked
    else Assigned
  }

  /** Adds a row for a current assignment to all the tables. */
  function Record(l: Ledger, row: Assignment): Ledger {
    var p := row.personId;
    Ledger(l.used[p := Get(l.used, p) + row.allocationPercent],
           if p in l.used then l.order else l.order + [p],
           l.teams[row.projectId := TeamOf(l.teams, row.projectId) + {p}],
           l.rows + [row])
  }

  function ActiveRow(d: Dataset, id: nat, projIdx: nat, i: nat, person: string, alloc: int): Assignment
    requires projIdx < |d.active|
  {
    var seed := projIdx * 100 + i;
    var validFrom := AddDays(d.active[projIdx].startsOn, d.rng(0, 30, seed));
    var status := StatusOf(projIdx, i);
    Assignment(id, person, d.active[projIdx].id, status, alloc, validFrom, None,
               if status == Proposed then None else Some(AddDays(validFrom, d.rng(0, 5, seed))),
               AddDays(validFrom, -d.rng(2, 14, seed + 1)))
  }

  function SlotChoice(d: Dataset, l: Ledger, projIdx: nat, i: nat): Choice
    requires projIdx < |d.active| == |d.pools|
  {
    Choose(l.used, TeamOf(l.teams, d.active[projIdx].id), d.pools[projIdx], projIdx * 100 + i, PickAlloc(i))
  }

  function Slot(d: Dataset, l: Ledger, projIdx: nat, i: nat): Ledger
    requires projIdx < |d.active| == |d.pools|
  {
    match SlotChoice(d, l, projIdx, i)
    case Unstaffed => l
    case Staff(person, alloc) =>
      var row := ActiveRow(d, |l.rows| + 1, projIdx, i, person, alloc);
      if row.validFrom > d.now then l else Record(l, row)
  }

  // ----- The staffing loop

  function TeamSize(projIdx: nat): nat { 8 + (projIdx % 4) * 2 }

  /** Project `projIdx` after its first `n` slots. */
  function Slots(d: Dataset, l: Ledger, projIdx: nat, n: nat): Ledger
    requires projIdx < |d.active| == |d.pools|
  {
    if n == 0 then l.(teams := l.teams[d.active[projIdx].id := {}])
    else Slot(d, Slots(d, l, projIdx, n - 1), projIdx, n - 1)
  }

  /** The tables after the first `k` active projects. */
  function Staffed(d: Dataset, k: nat): Ledger
    requires k <= |d.active| == |d.pools|
  {
    if k == 0 then Ledger(map[], [], map[], [])
    else Slots(d, Staffed(d, k - 1), k - 1, TeamSize(k - 1))
  }

  // ----- What every step keeps

  /** Sum of a person's allocations over the rows that are not completed. */
  function Load(rows: seq<Assignment>, person: string): int {
    if rows == [] then 0
    else
      var row := rows[|rows| - 1];
      Load(rows[..|rows| - 1], person)
      + if row.personId == person && row.status != Completed then row.allocationPercent else 0
  }

  ghost predicate OnProject(rows: seq<Assignment>, person: string, project: string) {
    exists k :: 0 <= k < |rows| && rows[k].personId == person && rows[k].projectId == project
  }

  ghost predicate NoPairTwice(rows: seq<Assignment>) {
    forall i, j :: 0 <= i < j < |rows| ==>
      rows[i].personId != rows[j].personId || rows[i].projectId != rows[j].projectId
  }

  /** A row a factory may emit: its dates and approval are what the fill history needs. */
  predicate Emitted(a: Assignment) {
    && !a.status.Other?
    && (a.approvedAt.None? <==> a.status == Proposed)
    && (a.validTo.Some? <==> a.status == Completed)
    && (a.approvedAt.Some? ==> a.requestedAt <= a.approvedAt.value)
  }

  /** The tables agree with the rows: conservation of load, membership, numbered ids. */
  ghost predicate Agrees(l: Ledger) {
    && Distinct(l.order)
    && (forall p :: p in l.order <==> p in l.used)
    && (forall p :: Get(l.used, p) == Load(l.rows, p))
    && (forall p, q :: p in TeamOf(l.teams, q) <==> OnProject(l.rows, p, q))
    && (forall k :: 0 <= k < |l.rows| ==> l.rows[k].id == k + 1)
    && (forall k :: 0 <= k < |l.rows| ==>
          Emitted(l.rows[k]) && 25 <= l.rows[k].allocationPercent && l.rows[k].status != Completed)
  }

  ghost predicate Consistent(l: Ledger) {
    Agrees(l) && NoPairTwice(l.rows)
  }

  ghost predicate Capped(l: Ledger) {
    forall p :: Get(l.used, p) <= 100
  }

  lemma LoadAppend(rows: seq<Assignment>, row: Assignment, person: string)
    ensures Load(rows + [row], person)
            == Load(rows, person)
               + if row.personId == person && row.status != Completed then row.allocationPercent else 0
  {
    assert (rows + [row])[..|rows|] == rows;
  }

  /** Recording a row adds its share to one person's load, in the map as in the rows. */
  lemma RecordAddsLoad(l: Ledger, row: Assignment, p: string)
    requires row.status != Completed && Get(l.used, p) == Load(l.rows, p)
    ensures Get(Record(l, row).used, p) == Get(l.used, p) + if p == row.personId then row.allocationPercent else 0
    ensures Get(Record(l, row).used, p) == Load(Record(l, row).rows, p)
  {
    LoadAppend(l.rows, row, p);
  }

  lemma RecordJoinsTeam(l: Ledger, row: Assignment, p: string, q: string)
    requires p in TeamOf(l.teams, q) <==> OnProject(l.rows, p, q)
    ensures p in TeamOf(Record(l, row).teams, q) <==> OnProject(Record(l, row).rows, p, q)
  {
    var rows := Record(l, row).rows;
    assert rows[|l.rows|] == row;
    if OnProject(l.rows, p, q) {
      var k :| 0 <= k < |l.rows| && l.rows[k].personId == p && l.rows[k].projectId == q;
      assert rows[k] == l.rows[k];
    }
  }

  /** Recording any new current row keeps the tables in agreement and adds to one person's load. */
  lemma RecordAgrees(l: Ledger, row: Assignment)
    requires Agrees(l)
    requires Emitted(row) && row.status != Completed && 25 <= row.allocationPercent && row.id == |l.rows| + 1
    ensures Agrees(Record(l, row))
    ensures forall p ::
      Get(Record(l, row).used, p) == Get(l.used, p) + if p == row.personId then row.allocationPercent else 0
  {
    hide Emitted, Load;
    var r := Record(l, row);
    forall p
      ensures Get(r.used, p) == Get(l.used, p) + if p == row.personId then row.allocationPercent else 0
      ensures Get(r.used, p) == Load(r.rows, p)
    {
      RecordAddsLoad(l, row, p);
    }
    forall p, q ensures p in TeamOf(r.teams, q) <==> OnProject(r.rows, p, q) {
      RecordJoinsTeam(l, row, p, q);
    }
    hide Get, TeamOf;
    if row.personId !in l.used {
      DistinctAppend(l.order, [row.personId]);
    }
  }

  /** It repeats a pair exactly when one is repeated already or the person is on the project's team. */
  lemma RecordRepeatsAPair(l: Ledger, row: Assignment)
    requires Agrees(l)
    ensures NoPairTwice(Record(l, row).rows)
       <==> NoPairTwice(l.rows) && row.personId !in TeamOf(l.teams, row.projectId)
  {
    hide Emitted, Load, TeamOf;
    var after := Record(l, row).rows;
    assert after == l.rows + [row];
    assert row.personId in TeamOf(l.teams, row.projectId) <==> OnProject(l.rows, row.personId, row.projectId);
    if OnProject(l.rows, row.personId, row.projectId) {
      var i :| 0 <= i < |l.rows| && l.rows[i].personId == row.personId && l.rows[i].projectId == row.projectId;
      assert after[i] == l.rows[i] && after[|l.rows|] == row;
    }
    if NoPairTwice(after) {
      assert forall i :: 0 <= i < |l.rows| ==> after[i] == l.rows[i];
    }
  }

  lemma RecordKeeps(l: Ledger, row: Assignment)
    requires Consistent(l)
    requires row.personId !in TeamOf(l.teams, row.projectId)
    requires Emitted(row) && row.status != Completed && 25 <= row.allocationPercent && row.id == |l.rows| + 1
    ensures Consistent(Record(l, row))
    ensures forall p ::
      Get(Record(l, row).used, p) == Get(l.used, p) + if p == row.personId then row.allocationPercent else 0
  {
    hide Agrees, Record, Emitted;
    RecordAgrees(l, row);
    RecordRepeatsAPair(l, row);
  }

  lemma ActiveRowFields(d: Dataset, id: nat, projIdx: nat, i: nat, person: string, alloc: int)
    requires projIdx < |d.active|
    ensures var row := ActiveRow(d, id, projIdx, i, person, alloc);
      && row.id == id && row.personId == person && row.projectId == d.active[projIdx].id
      && row.allocationPercent == alloc && row.status != Completed
  {}

  lemma SlotKeeps(d: Dataset, l: Ledger, projIdx: nat, i: nat)
    requires d.Valid() && projIdx < |d.active| && Consistent(l) && Capped(l)
    ensures Consistent(Slot(d, l, projIdx, i)) && Capped(Slot(d, l, projIdx, i))
  {
    hide Choose, ActiveRow, Record, Consistent, Emitted, InRange;
    var team := TeamOf(l.teams, d.active[projIdx].id);
    PickAllocRange(i);
    ChoiceIsMaximal(l.used, team, d.pools[projIdx], projIdx * 100 + i, PickAlloc(i));
    match SlotChoice(d, l, projIdx, i)
    case Unstaffed =>
    case Staff(person, alloc) =>
      var row := ActiveRow(d, |l.rows| + 1, projIdx, i, person, alloc);
      ActiveRowIsEmitted(d, |l.rows| + 1, projIdx, i, person, alloc);
      ActiveRowFields(d, |l.rows| + 1, projIdx, i, person, alloc);
      RecordKeeps(l, row);
  }

  lemma ActiveRowIsEmitted(d: Dataset, id: nat, projIdx: nat, i: nat, person: string, alloc: int)
    requires d.Valid() && projIdx < |d.active|
    ensures Emitted(ActiveRow(d, id, projIdx, i, person, alloc))
  {
    hide AddDays, DaysAgo;
    var seed := projIdx * 100 + i;
    var validFrom := ActiveRow(d, id, projIdx, i, person, alloc).validFrom;
    var later, earlier := d.rng(0, 5, seed), d.rng(2, 14, seed + 1);
    assert 0 <= later && 2 <= earlier;
    AddDaysShifts(validFrom, later);
    AddDaysShifts(validFrom, -earlier);
  }

  ghost predicate OnlyFirst(d: Dataset, l: Ledger, k: nat)
    requires k <= |d.active|
  {
    forall r :: r in l.rows ==> exists j :: 0 <= j < k && d.active[j].id == r.projectId
  }

  lemma OpenTeamKeeps(d: Dataset, l: Ledger, projIdx: nat)
    requires d.Valid() && projIdx < |d.active|
    requires Consistent(l) && Capped(l) && OnlyFirst(d, l, projIdx)
    ensures var r := Slots(d, l, projIdx, 0);
            Consistent(r) && Capped(r) && OnlyFirst(d, r, projIdx + 1)
  {
    hide Emitted, Load;
    var id := d.active[projIdx].id;
    var r := Slots(d, l, projIdx, 0);
    forall k | 0 <= k < |l.rows| ensures l.rows[k].projectId != id {
      assert l.rows[k] in l.rows;
    }
    forall p, q ensures p in TeamOf(r.teams, q) <==> OnProject(r.rows, p, q) {
      assert p in TeamOf(l.teams, q) <==> OnProject(l.rows, p, q);
    }
  }

  lemma {:induction false} SlotsKeep(d: Dataset, l: Ledger, projIdx: nat, n: nat)
    requires d.Valid() && projIdx < |d.active|
    requires Consistent(l) && Capped(l) && OnlyFirst(d, l, projIdx)
    ensures var r := Slots(d, l, projIdx, n);
            Consistent(r) && Capped(r) && OnlyFirst(d, r, projIdx + 1)
  {
    hide Consistent, Capped, OnlyFirst, Slot;
    if n == 0 {
      OpenTeamKeeps(d, l, projIdx);
    } else {
      SlotsKeep(d, l, projIdx, n - 1);
      SlotKeeps(d, Slots(d, l, projIdx, n - 1), projIdx, n - 1);
      SlotAddsOwn(d, Slots(d, l, projIdx, n - 1), projIdx, n - 1);
    }
  }

  lemma SlotAddsOwn(d: Dataset, l: Ledger, projIdx: nat, i: nat)
    requires projIdx < |d.active| == |d.pools| && OnlyFirst(d, l, projIdx + 1)
    ensures OnlyFirst(d, Slot(d, l, projIdx, i), projIdx + 1)
  {
    hide SlotChoice;
    var r := Slot(d, l, projIdx, i);
    forall row | row in r.rows ensures exists j :: 0 <= j < projIdx + 1 && d.active[j].id == row.projectId {
      if row !in l.rows {
        assert row.projectId == d.active[projIdx].id;
      }
    }
  }

  /**
    At every point of the staffing loop each person's entry in the allocation map is the
    sum over their recorded rows and at most 100, the teams are the people on record, and
    no person is twice on one project.
  */
  lemma {:induction false} StaffingKeepsTheCap(d: Dataset, k: nat)
    requires d.Valid() && k <= |d.active|
    ensures Consistent(Staffed(d, k)) && Capped(Staffed(d, k)) && OnlyFirst(d, Staffed(d, k), k)
  {
    hide Consistent, Capped, OnlyFirst, Slots;
    if k > 0 {
      StaffingKeepsTheCap(d, k - 1);
      SlotsKeep(d, Staffed(d, k - 1), k - 1, TeamSize(k - 1));
    } else {
      EmptyTables(d);
    }
  }

  lemma EmptyTables(d: Dataset)
    requires |d.active| == |d.pools|
    ensures Consistent(Staffed(d, 0)) && Capped(Staffed(d, 0)) && OnlyFirst(d, Staffed(d, 0), 0)
  {}

  // ----- Deliberate over-allocation

  /** The first two people, in map order from position `j`, who are at 80% or more and are known. */
  function PickOver(l: Ledger, people: seq<string>, j: nat, picked: seq<string>): seq<string>
    decreases |l.order| - j
  {
    if j >= |l.order| || |picked| >= 2 then picked
    else if Get(l.used, l.order[j]) < 80 || l.order[j] !in people then PickOver(l, people, j + 1, picked)
    else PickOver(l, people, j + 1, picked + [l.order[j]])
  }

  ghost predicate Picked(l: Ledger, people: seq<string>, picked: seq<string>) {
    Distinct(picked) && |picked| <= 2 &&
    forall p :: p in picked ==> p in l.order && p in people && 80 <= Get(l.used, p)
  }

  predicate Qualifies(l: Ledger, people: seq<string>, person: string) {
    80 <= Get(l.used, person) && person in people
  }

  /** The first two who qualify are picked, and fewer only when everyone who qualifies is. */
  lemma {:induction false} PickOverPicks(l: Ledger, people: seq<string>, j: nat, picked: seq<string>)
    requires Distinct(l.order) && j <= |l.order| && Picked(l, people, picked)
    requires forall p :: p in picked ==> p in l.order[..j]
    requires |picked| < 2 ==> forall p :: p in l.order[..j] && Qualifies(l, people, p) ==> p in picked
    requires forall i, m :: 0 <= i < m < j && l.order[m] in picked && Qualifies(l, people, l.order[i]) ==>
      l.order[i] in picked
    ensures var r := PickOver(l, people, j, picked);
            && Picked(l, people, r)
            && (forall i, m :: 0 <= i < m < |l.order| && l.order[m] in r && Qualifies(l, people, l.order[i]) ==>
                  l.order[i] in r)
            && (|r| < 2 ==> forall p :: p in l.order && Qualifies(l, people, p) ==> p in r)
    decreases |l.order| - j
  {
    if j >= |l.order| {
      assert l.order[..j] == l.order;
    } else if |picked| < 2 {
      var p := l.order[j];
      assert l.order[..j + 1] == l.order[..j] + [p];
      if Get(l.used, p) < 80 || p !in people {
        PickOverPicks(l, people, j + 1, picked);
      } else {
        assert p !in picked;
        PickOverPicks(l, people, j + 1, picked + [p]);
      }
    }
  }

  /** The first active project from `idx` on, other than number 8, without the person; project 3 if there is none. */
  function Target(d: Dataset, l: Ledger, person: string, idx: nat): (t: nat)
    ensures t < |d.active| || t == 3
    decreases |d.active| - idx
  {
    if idx >= |d.active| then 3
    else if idx != 8 && person !in TeamOf(l.teams, d.active[idx].id) then idx
    else Target(d, l, person, idx + 1)
  }

  function SpillRow(d: Dataset, id: nat, person: string, projIdx: nat, k: nat): Assignment
    requires projIdx < |d.active|
  {
    var when := MonthsAgo(d.now, 2 - k);
    Assignment(id, person, d.active[projIdx].id, Assigned, 50, when, None, Some(when), when)
  }

  /** One picked person's extra assignment; `None` when there is no project 3 to fall back to and the program throws. */
  function SpillOnce(d: Dataset, l: Ledger, person: string, k: nat): Option<Ledger> {
    var t := Target(d, l, person, 0);
    if t < |d.active| then Some(Record(l, SpillRow(d, |l.rows| + 1, person, t, k))) else None
  }

  /** The tables after the first `n` picked people got their extra 50%. */
  function Spilled(d: Dataset, l: Ledger, picked: seq<string>, n: nat): Option<Ledger>
    requires n <= |picked|
  {
    if n == 0 then Some(l)
    else
      match Spilled(d, l, picked, n - 1)
      case None => None
      case Some(before) => SpillOnce(d, before, picked[n - 1], n - 1)
  }

  /** The active projects the spillover search considers. */
  ghost function Eligible(d: Dataset): set<string> {
    set k | 0 <= k < |d.active| && k != 8 :: d.active[k].id
  }

  function ProjectsOf(rows: seq<Assignment>, person: string): set<string> {
    if rows == [] then {}
    else
      var row := rows[|rows| - 1];
      ProjectsOf(rows[..|rows| - 1], person) + if row.personId == person then {row.projectId} else {}
  }

  /** Every project a person is on takes at least 25% of them. */
  lemma {:induction false} ProjectsCost(rows: seq<Assignment>, person: string)
    requires forall k :: 0 <= k < |rows| ==> 25 <= rows[k].allocationPercent && rows[k].status != Completed
    ensures 25 * |ProjectsOf(rows, person)| <= Load(rows, person)
  {
    if rows != [] {
      var n := |rows| - 1;
      ProjectsCost(rows[..n], person);
      var before := ProjectsOf(rows[..n], person);
      if rows[n].personId == person && rows[n].projectId !in before {
        assert |before + {rows[n].projectId}| == |before| + 1;
      } else if rows[n].personId == person {
        assert before + {rows[n].projectId} == before;
      } else {
        assert before + {} == before;
      }
    }
  }

  lemma {:induction false} ProjectsOfIsOnProject(rows: seq<Assignment>, person: string)
    ensures forall q :: q in ProjectsOf(rows, person) <==> OnProject(rows, person, q)
  {
    if rows != [] {
      var n := |rows| - 1;
      ProjectsOfIsOnProject(rows[..n], person);
      forall q ensures q in ProjectsOf(rows, person) <==> OnProject(rows, person, q) {
        if OnProject(rows, person, q) {
          var k :| 0 <= k < |rows| && rows[k].personId == person && rows[k].projectId == q;
          if k < n { assert rows[..n][k] == rows[k]; }
        }
        if OnProject(rows[..n], person, q) {
          var k :| 0 <= k < n && rows[..n][k].personId == person && rows[..n][k].projectId == q;
          assert rows[k] == rows[..n][k];
        }
      }
    }
  }

  /** There is an active project, other than number 8, that the person is not on. */
  ghost predicate SomeFree(d: Dataset, l: Ledger, person: string) {
    exists k :: 0 <= k < |d.active| && k != 8 && person !in TeamOf(l.teams, d.active[k].id)
  }

  /** Pigeonhole: someone within the cap is on at most four projects, so five eligible ones leave one free. */
  lemma SomeProjectIsFree(d: Dataset, l: Ledger, person: string)
    requires Agrees(l) && Get(l.used, person) <= 100 && |Eligible(d)| >= 5
    ensures SomeFree(d, l, person)
  {
    assert Get(l.used, person) == Load(l.rows, person);
    if forall k :: 0 <= k < |d.active| && k != 8 ==> person in TeamOf(l.teams, d.active[k].id) {
      ProjectsCost(l.rows, person);
      ProjectsOfIsOnProject(l.rows, person);
      forall q | q in Eligible(d) ensures q in ProjectsOf(l.rows, person) {
        assert person in TeamOf(l.teams, q) <==> OnProject(l.rows, person, q);
      }
      SubsetIsSmaller(Eligible(d), ProjectsOf(l.rows, person));
      assert false;
    }
  }

  lemma {:induction false} TargetSearch(d: Dataset, l: Ledger, person: string, idx: nat)
    ensures var t := Target(d, l, person, idx);
            if exists k :: idx <= k < |d.active| && k != 8 && person !in TeamOf(l.teams, d.active[k].id)
            then && idx <= t < |d.active| && t != 8 && person !in TeamOf(l.teams, d.active[t].id)
                 && forall k :: idx <= k < t && k != 8 ==> person in TeamOf(l.teams, d.active[k].id)
            else t == 3
    decreases |d.active| - idx
  {
    if idx < |d.active| && !(idx != 8 && person !in TeamOf(l.teams, d.active[idx].id)) {
      TargetSearch(d, l, person, idx + 1);
    }
  }

  /**
    The extra assignment, for any dataset: it throws exactly when no eligible project is free
    of the person and there is no project 3, and repeats a person and project exactly when
    none is free and there is one.
  */
  lemma SpillRepeatsAPairIffNoneIsFree(d: Dataset, l: Ledger, person: string, k: nat)
    requires Agrees(l)
    ensures var after := SpillOnce(d, l, person, k);
      && (after.None? <==> !SomeFree(d, l, person) && |d.active| <= 3)
      && (after.Some? ==> (NoPairTwice(after.value.rows) <==> NoPairTwice(l.rows) && SomeFree(d, l, person)))
  {
    hide Agrees, Target, MonthsAgo, Record, NoPairTwice;
    TargetSearch(d, l, person, 0);
    var t := Target(d, l, person, 0);
    if t < |d.active| {
      RecordRepeatsAPair(l, SpillRow(d, |l.rows| + 1, person, t, k));
    }
  }

  /** It puts nobody else on a project, and so leaves everyone else their free projects. */
  lemma SpillLeavesOthersFree(d: Dataset, l: Ledger, person: string, k: nat, other: string)
    requires other != person && SpillOnce(d, l, person, k).Some?
    ensures SomeFree(d, SpillOnce(d, l, person, k).value, other) <==> SomeFree(d, l, other)
  {
    hide Target, MonthsAgo;
    var after := SpillOnce(d, l, person, k).value;
    assert forall q :: other in TeamOf(after.teams, q) <==> other in TeamOf(l.teams, q);
  }

  /** It keeps the tables in agreement and adds exactly 50% to the person. */
  lemma SpillOnceAgrees(d: Dataset, l: Ledger, person: string, k: nat)
    requires Agrees(l) && SpillOnce(d, l, person, k).Some?
    ensures var after := SpillOnce(d, l, person, k).value;
      && Agrees(after)
      && forall p :: Get(after.used, p) == Get(l.used, p) + if p == person then 50 else 0
  {
    hide Agrees, Target, MonthsAgo, Record;
    RecordAgrees(l, SpillRow(d, |l.rows| + 1, person, Target(d, l, person, 0), k));
  }

  lemma {:induction false} SpillAgrees(d: Dataset, l: Ledger, picked: seq<string>, n: nat)
    requires n <= |picked| && Distinct(picked) && Agrees(l) && Spilled(d, l, picked, n).Some?
    ensures var after := Spilled(d, l, picked, n).value;
      && Agrees(after)
      && forall p :: Get(after.used, p) == Get(l.used, p) + if p in picked[..n] then 50 else 0
  {
    hide Agrees, SpillOnce;
    if n > 0 {
      SpillAgrees(d, l, picked, n - 1);
      assert picked[..n] == picked[..n - 1] + [picked[n - 1]];
      assert picked[n - 1] !in picked[..n - 1];
      SpillOnceAgrees(d, Spilled(d, l, picked, n - 1).value, picked[n - 1], n - 1);
    }
  }

  lemma {:induction false} SpilledLeavesOthersFree(d: Dataset, l: Ledger, picked: seq<string>, n: nat, other: string)
    requires n <= |picked| && other !in picked[..n] && Spilled(d, l, picked, n).Some?
    ensures SomeFree(d, Spilled(d, l, picked, n).value, other) <==> SomeFree(d, l, other)
  {
    hide SpillOnce, SomeFree;
    if n > 0 {
      assert picked[..n] == picked[..n - 1] + [picked[n - 1]];
      SpilledLeavesOthersFree(d, l, picked, n - 1, other);
      SpillLeavesOthersFree(d, Spilled(d, l, picked, n - 1).value, picked[n - 1], n - 1, other);
    }
  }

  /**
    The whole phase, told from the tables before it: it throws exactly when one of the picked
    people has no free project and there is no project 3, and otherwise repeats a person and
    project exactly when one of them has none.
  */
  lemma {:induction false} SpillPhase(d: Dataset, l: Ledger, picked: seq<string>, n: nat)
    requires n <= |picked| && Distinct(picked) && Agrees(l) && NoPairTwice(l.rows)
    ensures var after := Spilled(d, l, picked, n);
      && (after.None? <==> |d.active| <= 3 && exists p :: p in picked[..n] && !SomeFree(d, l, p))
      && (after.Some? ==> (NoPairTwice(after.value.rows) <==> forall p :: p in picked[..n] ==> SomeFree(d, l, p)))
  {
    hide Agrees, NoPairTwice, SpillOnce, SomeFree;
    if n > 0 {
      SpillPhase(d, l, picked, n - 1);
      assert picked[..n] == picked[..n - 1] + [picked[n - 1]];
      if Spilled(d, l, picked, n - 1).Some? {
        SpillPhaseStep(d, l, picked, n);
      }
    }
  }

  /** What the last of the first `n` adds. */
  lemma SpillPhaseStep(d: Dataset, l: Ledger, picked: seq<string>, n: nat)
    requires 0 < n <= |picked| && Distinct(picked) && Agrees(l) && Spilled(d, l, picked, n - 1).Some?
    ensures var before, after := Spilled(d, l, picked, n - 1).value, Spilled(d, l, picked, n);
      var free := SomeFree(d, l, picked[n - 1]);
      && (after.None? <==> |d.active| <= 3 && !free)
      && (after.Some? ==> (NoPairTwice(after.value.rows) <==> NoPairTwice(before.rows) && free))
  {
    hide Agrees, NoPairTwice, SpillOnce, SomeFree;
    var before, p := Spilled(d, l, picked, n - 1).value, picked[n - 1];
    assert p !in picked[..n - 1];
    SpillAgrees(d, l, picked, n - 1);
    SpilledLeavesOthersFree(d, l, picked, n - 1, p);
    SpillRepeatsAPairIffNoneIsFree(d, before, p, n - 1);
  }

  /**
    The tables once active projects are staffed and the over-allocated people have their
    extra assignment; nothing when the program throws.
  */
  function FinalActive(d: Dataset): Option<Ledger>
    requires |d.active| == |d.pools|
  {
    var l := Staffed(d, |d.active|);
    var picked := OverAllocated(d);
    Spilled(d, l, picked, |picked|)
  }

  /** `itCompanyOverAllocatedPersonIds`. */
  function OverAllocated(d: Dataset): seq<string>
    requires |d.active| == |d.pools|
  {
    PickOver(Staffed(d, |d.active|), d.people, 0, [])
  }

  /** Every exported person has a free project when the spillover starts. */
  ghost predicate AllHaveRoom(d: Dataset)
    requires |d.active| == |d.pools|
  {
    forall p :: p in OverAllocated(d) ==> SomeFree(d, Staffed(d, |d.active|), p)
  }

  /**
    After the spillover exactly the exported people, at most two, exceed 100%, each by 30
    to 50 points; everyone else is still within the cap, and every load is still the sum of
    that person's rows.  The phase throws exactly when one of them has no free project and
    there is no project 3, and otherwise puts nobody twice on a project exactly when all of
    them have one; five eligible projects are always enough.
  */
  lemma ExactlyTheExportedExceedTheCap(d: Dataset)
    requires d.Valid()
    ensures var final, over := FinalActive(d), OverAllocated(d);
      && |over| <= 2 && Distinct(over)
      && (final.Some? ==>
            && Agrees(final.value)
            && (forall p :: Get(final.value.used, p) > 100 <==> p in over)
            && (forall p :: p in over ==> 130 <= Get(final.value.used, p) <= 150))
      && (final.None? <==> |d.active| <= 3 && !AllHaveRoom(d))
      && (final.Some? ==> (NoPairTwice(final.value.rows) <==> AllHaveRoom(d)))
      && (|Eligible(d)| >= 5 ==> AllHaveRoom(d))
  {
    hide Staffed, Spilled, PickOver, Agrees, NoPairTwice, Eligible, SomeFree;
    var l, over := Staffed(d, |d.active|), OverAllocated(d);
    StaffingKeepsTheCap(d, |d.active|);
    OrderIsDistinct(l);
    PickOverPicks(l, d.people, 0, []);
    assert over[..|over|] == over;
    SpillPhase(d, l, over, |over|);
    if FinalActive(d).Some? {
      SpillAgrees(d, l, over, |over|);
    }
    if |Eligible(d)| >= 5 {
      forall p | p in over ensures SomeFree(d, l, p) {
        SomeProjectIsFree(d, l, p);
      }
    }
  }

  lemma OrderIsDistinct(l: Ledger)
    requires Agrees(l)
    ensures Distinct(l.order)
  {}

  // ----- Unstaffed seats stay unstaffable

  lemma SlotOnlyAdds(d: Dataset, l: Ledger, projIdx: nat, i: nat, person: string)
    requires d.Valid() && projIdx < |d.active| && Capped(l)
    ensures Get(l.used, person) <= Get(Slot(d, l, projIdx, i).used, person)
  {
    hide AddDays, MonthsAgo;
    PickAllocRange(i);
    ChoiceIsMaximal(l.used, TeamOf(l.teams, d.active[projIdx].id), d.pools[projIdx], projIdx * 100 + i, PickAlloc(i));
  }

  lemma {:induction false} SlotsOnlyAdd(d: Dataset, l: Ledger, projIdx: nat, i: nat, n: nat, person: string)
    requires d.Valid() && projIdx < |d.active| && i <= n
    requires Consistent(l) && Capped(l) && OnlyFirst(d, l, projIdx)
    ensures Get(Slots(d, l, projIdx, i).used, person) <= Get(Slots(d, l, projIdx, n).used, person)
    decreases n - i
  {
    hide Consistent, Capped, OnlyFirst, Slot;
    if i < n {
      SlotsKeep(d, l, projIdx, n - 1);
      SlotsOnlyAdd(d, l, projIdx, i, n - 1, person);
      SlotOnlyAdds(d, Slots(d, l, projIdx, n - 1), projIdx, n - 1, person);
    }
  }

  lemma {:induction false} ProjectsOnlyAdd(d: Dataset, j: nat, k: nat, person: string)
    requires d.Valid() && j <= k <= |d.active|
    ensures Get(Staffed(d, j).used, person) <= Get(Staffed(d, k).used, person)
    decreases k - j
  {
    hide Consistent, Capped, OnlyFirst, Slot;
    if j < k {
      ProjectsOnlyAdd(d, j, k - 1, person);
      StaffingKeepsTheCap(d, k - 1);
      SlotsOnlyAdd(d, Staffed(d, k - 1), k - 1, 0, TeamSize(k - 1), person);
    }
  }

  /** A slot left unstaffed could not be filled even after the whole run: nobody who was free for it has 25% left. */
  lemma UnstaffedStaysUnstaffable(d: Dataset, k: nat, i: nat, person: string)
    requires d.Valid() && k < |d.active| && i < TeamSize(k)
    ensures var before := Slots(d, Staffed(d, k), k, i);
      SlotChoice(d, before, k, i).Unstaffed? && person in d.pools[k] && person !in TeamOf(before.teams, d.active[k].id)
      ==> 100 - Get(Staffed(d, |d.active|).used, person) < 25
  {
    hide Consistent, Capped, OnlyFirst, Slots, Choose;
    var before := Slots(d, Staffed(d, k), k, i);
    PickAllocRange(i);
    ChoiceIsMaximal(before.used, TeamOf(before.teams, d.active[k].id), d.pools[k], k * 100 + i, PickAlloc(i));
    StaffingKeepsTheCap(d, k);
    SlotsOnlyAdd(d, Staffed(d, k), k, i, TeamSize(k), person);
    ProjectsOnlyAdd(d, k + 1, |d.active|, person);
  }

  // ----- Closed projects

  function ClosedRow(d: Dataset, id: nat, p: Project, idx: nat, i: nat, pool: seq<string>): Assignment
    requires pool != []
  {
    var seed := (idx + 100) * 100 + i;
    var validFrom := AddDays(p.startsOn, d.rng(0, 30, seed));
    Assignment(id, pool[seed % |pool|], p.id, Completed, PickAlloc(i), validFrom,
               Some(AddDays(p.EndOr(d.now), -d.rng(0, 14, seed + 7))),
               Some(AddDays(validFrom, d.rng(0, 5, seed))),
               AddDays(validFrom, -d.rng(2, 14, seed + 1)))
  }

  function ClosedTeamSize(idx: nat): nat { 6 + idx % 4 }

  /** The rows after `n` slots of one closed project. */
  function ClosedSlots(d: Dataset, rows: seq<Assignment>, p: Project, idx: nat, pool: seq<string>,
                       n: nat): seq<Assignment>
    requires pool != []
  {
    if n == 0 then rows
    else
      var before := ClosedSlots(d, rows, p, idx, pool, n - 1);
      before + [ClosedRow(d, |before| + 1, p, idx, n - 1, pool)]
  }

  function ClosedRows(d: Dataset, rows: seq<Assignment>, closed: seq<Project>, pool: seq<string>,
                      k: nat): seq<Assignment>
    requires pool != [] && k <= |closed|
  {
    if k == 0 then rows
    else ClosedSlots(d, ClosedRows(d, rows, closed, pool, k - 1), closed[k - 1], k - 1, pool, ClosedTeamSize(k - 1))
  }

  /** The terminated person's last assignment: completed, and ended when the closed project has an end date. */
  function FinalRow(id: nat, person: string, p: Project): Assignment {
    Assignment(id, person, p.id, Completed, 100, p.startsOn, p.endsOn, Some(p.startsOn), AddDays(p.startsOn, -7))
  }

  ghost predicate InIdOrder(rows: seq<Assignment>) {
    forall k :: 0 <= k < |rows| ==> rows[k].id == k + 1
  }

  ghost predicate Numbered(rows: seq<Assignment>) {
    InIdOrder(rows) && forall k :: 0 <= k < |rows| ==> Emitted(rows[k])
  }

  lemma CompletedRowKeeps(rows: seq<Assignment>, row: Assignment)
    requires Numbered(rows) && row.id == |rows| + 1 && row.status == Completed
    ensures InIdOrder(rows + [row]) && (Numbered(rows + [row]) <==> Emitted(row))
    ensures forall p :: Load(rows + [row], p) == Load(rows, p)
  {
    hide Emitted, Load;
    var all := rows + [row];
    assert all[|rows|] == row && forall k :: 0 <= k < |rows| ==> all[k] == rows[k];
    forall p ensures Load(rows + [row], p) == Load(rows, p) { LoadAppend(rows, row, p); }
  }

  lemma ClosedRowIsEmitted(d: Dataset, id: nat, p: Project, idx: nat, i: nat, pool: seq<string>)
    requires pool != [] && InRange(d.rng)
    ensures Emitted(ClosedRow(d, id, p, idx, i, pool))
  {
    hide AddDays, DaysAgo;
    var seed := (idx + 100) * 100 + i;
    var row := ClosedRow(d, id, p, idx, i, pool);
    var later, earlier := d.rng(0, 5, seed), d.rng(2, 14, seed + 1);
    assert 0 <= later && 2 <= earlier;
    AddDaysShifts(row.validFrom, later);
    AddDaysShifts(row.validFrom, -earlier);
  }

  lemma {:induction false} ClosedSlotsKeep(d: Dataset, rows: seq<Assignment>, p: Project, idx: nat,
                                           pool: seq<string>, n: nat)
    requires pool != [] && InRange(d.rng) && Numbered(rows)
    ensures var r := ClosedSlots(d, rows, p, idx, pool, n);
            Numbered(r) && forall q :: Load(r, q) == Load(rows, q)
  {
    hide ClosedRow, Emitted, Numbered, InRange;
    if n > 0 {
      ClosedSlotsKeep(d, rows, p, idx, pool, n - 1);
      var before := ClosedSlots(d, rows, p, idx, pool, n - 1);
      ClosedRowIsEmitted(d, |before| + 1, p, idx, n - 1, pool);
      var row := ClosedRow(d, |before| + 1, p, idx, n - 1, pool);
      ClosedRowIsCompleted(d, |before| + 1, p, idx, n - 1, pool);
      CompletedRowKeeps(before, row);
    }
  }

  lemma ClosedRowIsCompleted(d: Dataset, id: nat, p: Project, idx: nat, i: nat, pool: seq<string>)
    requires pool != []
    ensures ClosedRow(d, id, p, idx, i, pool).status == Completed && ClosedRow(d, id, p, idx, i, pool).id == id
  {}

  /** Completed rows, however many, leave every person's current load and every row's form as they were. */
  lemma {:induction false} ClosedProjectsAddNoLoad(d: Dataset, rows: seq<Assignment>, closed: seq<Project>,
                                                   pool: seq<string>, k: nat)
    requires pool != [] && InRange(d.rng) && Numbered(rows) && k <= |closed|
    ensures var r := ClosedRows(d, rows, closed, pool, k);
            Numbered(r) && forall q :: Load(r, q) == Load(rows, q)
  {
    hide ClosedSlots, Numbered, InRange;
    if k > 0 {
      ClosedProjectsAddNoLoad(d, rows, closed, pool, k - 1);
      ClosedSlotsKeep(d, ClosedRows(d, rows, closed, pool, k - 1), closed[k - 1], k - 1, pool, ClosedTeamSize(k - 1));
    }
  }

  // ----- The readers' notion of staffed: booked or assigned, with no end date

  function StaffedLoad(rows: seq<Assignment>, person: string): int {
    if rows == [] then 0
    else
      var row := rows[|rows| - 1];
      StaffedLoad(rows[..|rows| - 1], person)
      + if row.personId == person && (row.status == Booked || row.status == Assigned) && row.validTo.None?
        then row.allocationPercent else 0
  }

  function ProposedLoad(rows: seq<Assignment>, person: string): int {
    if rows == [] then 0
    else
      var row := rows[|rows| - 1];
      ProposedLoad(rows[..|rows| - 1], person)
      + if row.personId == person && row.status == Proposed then row.allocationPercent else 0
  }

  /** What the readers count and what is still proposed make up the factory's load. */
  lemma {:induction false} LoadSplits(rows: seq<Assignment>, person: string)
    requires forall k :: 0 <= k < |rows| ==> Emitted(rows[k])
    ensures StaffedLoad(rows, person) + ProposedLoad(rows, person) == Load(rows, person)
  {
    if rows != [] {
      LoadSplits(rows[..|rows| - 1], person);
      assert Emitted(rows[|rows| - 1]);
    }
  }
}
