/** Datasets on which the spillover of the assignment factory goes wrong. */
module StaffingExamples {
  import opened Arithmetic
  import opened Collections
  import opened Projects
  import opened SeedClock
  import opened Staffing

  /** The n-th project's id. */
  function Id(n: nat): (s: string)
    ensures |s| == n
  {
    seq(n, _ => 'x')
  }

  /**
    One person for `n` projects that start today.  The draws put every slot but number `slot`
    of a team into the future, where the factory leaves it out.
  */
  function Solo(n: nat, slot: nat): (d: Dataset)
    ensures d.Valid() && |d.active| == n
  {
    var active := seq(n, k requires 0 <= k < n => Project(Id(k), 0, None));
    assert forall k :: 0 <= k < n ==> |active[k].id| == k;
    Dataset(0, active, seq(n, _ => ["a"]), ["a"],
            (lo: int, hi: int, seed: int) => if seed % 100 == slot then lo else hi)
  }

  /** The row that slot `slot` of project `k` gets. */
  function SoloRow(n: nat, slot: nat, l: Ledger, k: nat): (row: Assignment)
    requires k < n
    ensures row.personId == "a" && row.projectId == Id(k) && row.allocationPercent == PickAlloc(slot)
  {
    ActiveRow(Solo(n, slot), |l.rows| + 1, k, slot, "a", PickAlloc(slot))
  }

  lemma SoloDraw(n: nat, slot: nat, lo: int, hi: int, k: nat, i: nat)
    requires i < 100
    ensures Solo(n, slot).rng(lo, hi, k * 100 + i) == if i == slot then lo else hi
  {
    ModOf(100, k, i);
  }

  lemma SoloStarts(n: nat, slot: nat, l: Ledger, k: nat, i: nat, alloc: int)
    requires k < n && i < 100
    ensures var d := Solo(n, slot);
      ActiveRow(d, |l.rows| + 1, k, i, "a", alloc).validFrom > d.now <==> i != slot
  {
    hide AddDays, StatusOf;
    var d := Solo(n, slot);
    assert d.active[k].startsOn == 0 && d.now == 0;
    SoloDraw(n, slot, 0, 30, k, i);
    AddDaysShifts(0, d.rng(0, 30, k * 100 + i));
  }

  lemma SoloSlot(n: nat, slot: nat, l: Ledger, k: nat, i: nat)
    requires k < n && i < 100 && slot < 100
    ensures var d := Solo(n, slot);
      && (i != slot ==> Slot(d, l, k, i) == l)
      && (i == slot && "a" !in TeamOf(l.teams, Id(k)) && Get(l.used, "a") + PickAlloc(slot) <= 100 ==>
            Slot(d, l, k, i) == Record(l, SoloRow(n, slot, l, k)))
  {
    hide Choose, ActiveRow, Record, PickAlloc;
    var d := Solo(n, slot);
    PickAllocRange(i);
    ChoiceIsMaximal(l.used, TeamOf(l.teams, Id(k)), ["a"], k * 100 + i, PickAlloc(i));
    match SlotChoice(d, l, k, i)
    case Unstaffed =>
    case Staff(person, alloc) => SoloStarts(n, slot, l, k, i, alloc);
  }

  lemma {:induction false} SoloSlots(n: nat, slot: nat, l: Ledger, k: nat, m: nat)
    requires k < n && m <= 100 && slot < 100 && Get(l.used, "a") + PickAlloc(slot) <= 100
    ensures var base := l.(teams := l.teams[Id(k) := {}]);
      Slots(Solo(n, slot), l, k, m) == if m <= slot then base else Record(base, SoloRow(n, slot, base, k))
  {
    hide PickAlloc, Slot, Record, SoloRow;
    if m > 0 {
      var base := l.(teams := l.teams[Id(k) := {}]);
      SoloSlots(n, slot, l, k, m - 1);
      SoloSlot(n, slot, Slots(Solo(n, slot), l, k, m - 1), k, m - 1);
    }
  }

  /** After `k` projects the one person is on each of them. */
  lemma {:induction false} SoloStaffed(n: nat, slot: nat, k: nat)
    requires k <= n && slot < 8 && n * PickAlloc(slot) <= 100
    ensures var l := Staffed(Solo(n, slot), k);
      && Get(l.used, "a") == k * PickAlloc(slot)
      && (forall j :: 0 <= j < k ==> "a" in TeamOf(l.teams, Id(j)))
      && l.order == (if k == 0 then [] else ["a"]) && ("a" in l.used <==> k > 0)
  {
    hide PickAlloc, Slots, SoloRow;
    if k > 0 {
      SoloStaffed(n, slot, k - 1);
      PickAllocRange(slot);
      SoloFits(n, k, PickAlloc(slot));
      SoloSlots(n, slot, Staffed(Solo(n, slot), k - 1), k - 1, TeamSize(k - 1));
    }
  }

  lemma SoloFits(n: nat, k: nat, alloc: int)
    requires 0 < k <= n && n * alloc <= 100 && 25 <= alloc
    ensures (k - 1) * alloc + alloc == k * alloc <= 100
  {
    assert n * alloc == k * alloc + (n - k) * alloc;
  }

  /** The person has no free project left, and is picked when they are booked to 80% or more. */
  lemma SoloHasNoRoom(n: nat, slot: nat)
    requires 0 < n && slot < 8 && 80 <= n * PickAlloc(slot) <= 100
    ensures OverAllocated(Solo(n, slot)) == ["a"] && !AllHaveRoom(Solo(n, slot))
  {
    hide PickAlloc, Staffed;
    var d := Solo(n, slot);
    var l := Staffed(d, n);
    SoloStaffed(n, slot, n);
    assert d.people == ["a"] && l.order == ["a"] && [] + ["a"] == ["a"];
    assert PickOver(l, d.people, 1, ["a"]) == ["a"];
    assert PickOver(l, d.people, 0, []) == ["a"];
    assert forall k :: 0 <= k < n ==> d.active[k].id == Id(k);
    assert !SomeFree(d, l, "a");
    assert "a" in OverAllocated(d);
  }

  /** One project, one person at 100%: no project is left for the spillover, and the factory throws. */
  lemma SpilloverMayThrow()
    ensures Solo(1, 0).Valid() && FinalActive(Solo(1, 0)) == None
  {
    SoloHasNoRoom(1, 0);
    ExactlyTheExportedExceedTheCap(Solo(1, 0));
  }

  /** Four projects with the same person at 25% each: the spillover puts them on one of the four a second time. */
  lemma SpilloverMayRepeatAPair()
    ensures Solo(4, 6).Valid() && FinalActive(Solo(4, 6)).Some?
    ensures !NoPairTwice(FinalActive(Solo(4, 6)).value.rows)
  {
    SoloHasNoRoom(4, 6);
    ExactlyTheExportedExceedTheCap(Solo(4, 6));
  }
}
