/**
  The bench re-dating pass.  The history rows are shared objects: the pass finds each
  person's latest release through a map of references and moves that row's date in place.
*/
module BenchAging {
  import opened Calendar
  import opened Collections
  import opened FillHistory
  import opened SeedClock
  import S = Staffing

  // ----- The pass on values

  predicate IsRelease(r: Row, person: string) {
    r.changeType == Released && r.previousPersonId == Some(person)
  }

  /** Index of each person's latest release among the first `n` rows; of equal dates the first. */
  function Latest(vals: seq<Row>, n: nat): (m: map<string, nat>)
    requires n <= |vals|
    ensures forall p :: p in m ==> m[p] < n && IsRelease(vals[m[p]], p)
  {
    if n == 0 then map[]
    else
      var m, r := Latest(vals, n - 1), vals[n - 1];
      if r.changeType != Released || r.previousPersonId.None? then m
      else
        var p := r.previousPersonId.value;
        if p !in m || r.occurredAt > vals[m[p]].occurredAt then m[p := n - 1] else m
  }

  /** The map's keys in the order they were first set. */
  function Order(vals: seq<Row>, n: nat): seq<string>
    requires n <= |vals|
  {
    if n == 0 then []
    else
      var rest, r := Order(vals, n - 1), vals[n - 1];
      if r.changeType == Released && r.previousPersonId.Some? && r.previousPersonId.value !in Latest(vals, n - 1) then
        rest + [r.previousPersonId.value]
      else rest
  }

  /** Who is where when the pass runs. */
  datatype Bench = Bench(staffed: set<string>, active: set<string>, now: Instant, rng: (int, int, int) -> int) {
    predicate Benched(person: string) { person !in staffed && person in active }

    function NewDate(benchSeq: nat): Instant { DaysAgo(now, rng(1, 180, benchSeq * 31 + 7)) }
  }

  datatype Pass = Pass(vals: seq<Row>, benchSeq: nat)

  /** The rows after the first `j` people of the map were visited. */
  function Redate(b: Bench, vals: seq<Row>, j: nat): (r: Pass)
    requires j <= |Order(vals, |vals|)|
    ensures |r.vals| == |vals|
  {
    if j == 0 then Pass(vals, 0)
    else
      var before, p := Redate(b, vals, j - 1), Order(vals, |vals|)[j - 1];
      OrderIsTheKeys(vals, |vals|);
      if !b.Benched(p) then before
      else
        var k := Latest(vals, |vals|)[p];
        Pass(before.vals[k := before.vals[k].(occurredAt := b.NewDate(before.benchSeq + 1))], before.benchSeq + 1)
  }

  lemma RedateStep(b: Bench, vals: seq<Row>, j: nat)
    requires j < |Order(vals, |vals|)|
    ensures var before, after, p := Redate(b, vals, j), Redate(b, vals, j + 1), Order(vals, |vals|)[j];
      && p in Latest(vals, |vals|)
      && after == if !b.Benched(p) then before
                  else
                    var k := Latest(vals, |vals|)[p];
                    Pass(before.vals[k := before.vals[k].(occurredAt := b.NewDate(before.benchSeq + 1))],
                         before.benchSeq + 1)
  {
    hide Latest, Order, DaysAgo;
    OrderIsTheKeys(vals, |vals|);
  }

  /** What scanning one more row does to the map and its order. */
  lemma ScanStep(vals: seq<Row>, i: nat)
    requires i < |vals|
    ensures var m, p := Latest(vals, i), vals[i].previousPersonId;
      if vals[i].changeType != Released || p.None? then Latest(vals, i + 1) == m && Order(vals, i + 1) == Order(vals, i)
      else
        && Latest(vals, i + 1)
           == (if p.value !in m || vals[i].occurredAt > vals[m[p.value]].occurredAt then m[p.value := i] else m)
        && Order(vals, i + 1) == Order(vals, i) + if p.value in m then [] else [p.value]
  {}

  function Redated(b: Bench, vals: seq<Row>): seq<Row> {
    Redate(b, vals, |Order(vals, |vals|)|).vals
  }

  lemma {:induction false} OrderIsTheKeys(vals: seq<Row>, n: nat)
    requires n <= |vals|
    ensures Distinct(Order(vals, n))
    ensures forall p :: p in Order(vals, n) <==> p in Latest(vals, n)
  {
    if n > 0 {
      OrderIsTheKeys(vals, n - 1);
      var r := vals[n - 1];
      if r.changeType == Released && r.previousPersonId.Some? && r.previousPersonId.value !in Latest(vals, n - 1) {
        DistinctAppend(Order(vals, n - 1), [r.previousPersonId.value]);
      }
    }
  }

  /** The map holds every person with a release, at the latest of them. */
  lemma {:induction false} LatestIsLatest(vals: seq<Row>, n: nat)
    requires n <= |vals|
    ensures forall p, i :: 0 <= i < n && IsRelease(vals[i], p) ==>
              p in Latest(vals, n) && vals[i].occurredAt <= vals[Latest(vals, n)[p]].occurredAt
  {
    hide Latest, Order;
    if n > 0 {
      LatestIsLatest(vals, n - 1);
      ScanStep(vals, n - 1);
    }
  }

  /** `p` has a release before the first of `q`. */
  ghost predicate ReleasedBefore(vals: seq<Row>, p: string, q: string) {
    exists k :: 0 <= k < |vals| && IsRelease(vals[k], p) && forall m :: 0 <= m <= k ==> !IsRelease(vals[m], q)
  }

  /** The map's order is that of each person's first release in the table. */
  lemma {:induction false} OrderIsByFirstRelease(vals: seq<Row>, n: nat)
    requires n <= |vals|
    ensures var order := Order(vals, n);
      forall a, b :: 0 <= a < b < |order| ==> ReleasedBefore(vals, order[a], order[b])
  {
    hide Latest, Order, ReleasedBefore;
    if n == 0 {
      NothingScanned(vals);
    } else {
      OrderIsByFirstRelease(vals, n - 1);
      ScanStep(vals, n - 1);
      OrderIsTheKeys(vals, n - 1);
      var order := Order(vals, n - 1);
      var q := vals[n - 1].previousPersonId;
      if q.Some? && q.value !in Latest(vals, n - 1) {
        forall a | 0 <= a < |order| ensures ReleasedBefore(vals, order[a], q.value) {
          KnownBefore(vals, n - 1, order[a], q.value);
        }
      }
    }
  }

  lemma KnownBefore(vals: seq<Row>, n: nat, p: string, q: string)
    requires n <= |vals| && p in Latest(vals, n) && q !in Latest(vals, n)
    ensures ReleasedBefore(vals, p, q)
  {
    hide Latest;
    LatestIsLatest(vals, n);
    assert IsRelease(vals[Latest(vals, n)[p]], p);
  }

  /** Row `k` is the latest release of someone on the bench. */
  ghost predicate Chosen(b: Bench, vals: seq<Row>, order: seq<string>, k: nat) {
    exists p :: p in order && b.Benched(p) && p in Latest(vals, |vals|) && Latest(vals, |vals|)[p] == k
  }

  predicate Recent(b: Bench, t: Instant) {
    b.now - 180 * 86_400_000 <= t <= b.now - 86_400_000
  }

  /** Only chosen rows change, only in their date, and to 1 to 180 days ago. */
  lemma {:induction false} RedateMovesChosenRows(b: Bench, vals: seq<Row>, j: nat)
    requires S.InRange(b.rng) && j <= |Order(vals, |vals|)|
    ensures var after, order := Redate(b, vals, j).vals, Order(vals, |vals|)[..j];
      forall k :: 0 <= k < |vals| ==>
        if Chosen(b, vals, order, k) then
          Recent(b, after[k].occurredAt) && after[k] == vals[k].(occurredAt := after[k].occurredAt)
        else after[k] == vals[k]
  {
    hide DaysAgo, Latest, Order, S.InRange;
    if j > 0 {
      RedateMovesChosenRows(b, vals, j - 1);
      var all := Order(vals, |vals|);
      var p := all[j - 1];
      OrderIsTheKeys(vals, |vals|);
      assert all[..j] == all[..j - 1] + [p];
      var before := Redate(b, vals, j - 1);
      NewDateIsRecent(b, before.benchSeq + 1);
      forall k | 0 <= k < |vals|
        ensures Chosen(b, vals, all[..j], k)
         <==> Chosen(b, vals, all[..j - 1], k) || (b.Benched(p) && Latest(vals, |vals|)[p] == k)
      {
        if Chosen(b, vals, all[..j - 1], k) {
          var q :| q in all[..j - 1] && b.Benched(q) && q in Latest(vals, |vals|) && Latest(vals, |vals|)[q] == k;
          assert q in all[..j];
        }
        if b.Benched(p) && Latest(vals, |vals|)[p] == k {
          assert p in all[..j];
        }
      }
    }
  }

  lemma NewDateIsRecent(b: Bench, benchSeq: nat)
    requires S.InRange(b.rng)
    ensures Recent(b, b.NewDate(benchSeq))
  {
    hide DaysAgo, AddDays;
    var n := b.rng(1, 180, benchSeq * 31 + 7);
    assert 1 <= n <= 180;
    AddDaysShifts(b.now, n);
  }

  ghost predicate IsLatestRelease(vals: seq<Row>, person: string, t: Instant) {
    (exists k :: 0 <= k < |vals| && IsRelease(vals[k], person) && vals[k].occurredAt == t)
    && forall k :: 0 <= k < |vals| && IsRelease(vals[k], person) ==> vals[k].occurredAt <= t
  }

  /**
    After the pass the latest release of every benched active person who has one is at most
    180 days old, and at least a day old if no release was younger before.  Exactly one row
    of theirs was moved; every other row, and everything but the date, is as before.
  */
  lemma BenchIsRecent(b: Bench, vals: seq<Row>)
    requires S.InRange(b.rng)
    ensures var after := Redated(b, vals);
      && |after| == |vals|
      && (forall k :: 0 <= k < |vals| ==> after[k] == vals[k].(occurredAt := after[k].occurredAt))
      && (forall k, p :: 0 <= k < |vals| && IsRelease(vals[k], p) && b.Benched(p) ==>
            && p in Latest(vals, |vals|)
            && if k == Latest(vals, |vals|)[p] then Recent(b, after[k].occurredAt) else after[k] == vals[k])
      && (forall k :: 0 <= k < |vals| && !(exists p :: IsRelease(vals[k], p) && b.Benched(p)) ==> after[k] == vals[k])
      && (forall p, t :: b.Benched(p) && IsLatestRelease(after, p, t) ==>
            && b.now - 180 * 86_400_000 <= t
            && ((forall k :: 0 <= k < |vals| && IsRelease(vals[k], p) ==> vals[k].occurredAt <= b.now - 86_400_000)
                ==> Recent(b, t)))
  {
    hide Latest, Order, Redate, S.InRange;
    var all := Order(vals, |vals|);
    var m := Latest(vals, |vals|);
    var after := Redated(b, vals);
    RedateMovesChosenRows(b, vals, |all|);
    assert all[..|all|] == all;
    OrderIsTheKeys(vals, |vals|);
    LatestIsLatest(vals, |vals|);
    forall k, p | 0 <= k < |vals| && IsRelease(vals[k], p) && b.Benched(p)
      ensures if k == m[p] then Recent(b, after[k].occurredAt) else after[k] == vals[k]
    {
      assert p in m;
      assert Chosen(b, vals, all, m[p]);
      if Chosen(b, vals, all, k) {
        var q :| q in all && q in m && m[q] == k;
        assert IsRelease(vals[k], q);
      }
    }
    forall p, t | b.Benched(p) && IsLatestRelease(after, p, t)
      ensures b.now - 180 * 86_400_000 <= t
      ensures (forall k :: 0 <= k < |vals| && IsRelease(vals[k], p) ==> vals[k].occurredAt <= b.now - 86_400_000)
              ==> Recent(b, t)
    {
      var k :| 0 <= k < |after| && IsRelease(after[k], p) && after[k].occurredAt == t;
      assert IsRelease(vals[k], p);
      assert IsRelease(after[m[p]], p);
    }
  }

  /** Whoever has a release has a latest one. */
  lemma LatestExists(vals: seq<Row>, k: nat, person: string)
    requires k < |vals| && IsRelease(vals[k], person)
    ensures exists t :: IsLatestRelease(vals, person, t)
  {
    hide Latest;
    LatestIsLatest(vals, |vals|);
    assert IsLatestRelease(vals, person, vals[Latest(vals, |vals|)[person]].occurredAt);
  }

  /** Someone on the bench after a completed assignment has a latest release, and it is at most 180 days old. */
  lemma ReleasedAreOnTheBench(assignments: seq<S.Assignment>, b: Bench, a: S.Assignment)
    requires S.InRange(b.rng) && a in assignments && a.status == S.Completed && a.validTo.Some? && b.Benched(a.personId)
    ensures exists t :: IsLatestRelease(Redated(b, Table(assignments)), a.personId, t)
                        && b.now - 180 * 86_400_000 <= t
  {
    hide Table, Latest, Redated, IsLatestRelease, Bench.Benched;
    var vals := Table(assignments);
    var after := Redated(b, vals);
    TableHasRelease(assignments, a);
    var r :| r in vals && Releases(r, a.personId, a.validTo.value);
    var m :| 0 <= m < |vals| && vals[m] == r;
    BenchIsRecent(b, vals);
    LatestExists(after, m, a.personId);
  }

  // ----- The draws

  /** How many of these people are on the bench. */
  function BenchCount(b: Bench, people: seq<string>): nat {
    if people == [] then 0
    else BenchCount(b, people[..|people| - 1]) + if b.Benched(people[|people| - 1]) then 1 else 0
  }

  lemma OwnDraw(b: Bench, vals: seq<Row>, j: nat)
    requires j < |Order(vals, |vals|)| && b.Benched(Order(vals, |vals|)[j])
    ensures var p := Order(vals, |vals|)[j];
      && p in Latest(vals, |vals|)
      && Redate(b, vals, j + 1).vals[Latest(vals, |vals|)[p]].occurredAt
         == b.NewDate(BenchCount(b, Order(vals, |vals|)[..j + 1]))
  {
    hide Latest, Order, Redate, DaysAgo, BenchCount, Bench.Benched;
    BenchSeqCounts(b, vals, j);
    CountOneMore(b, Order(vals, |vals|), j);
    RedateStep(b, vals, j);
  }

  lemma {:induction false} DrawIsKept(b: Bench, vals: seq<Row>, j: nat, n: nat)
    requires j < n <= |Order(vals, |vals|)| && Order(vals, |vals|)[j] in Latest(vals, |vals|)
    ensures var k := Latest(vals, |vals|)[Order(vals, |vals|)[j]];
      Redate(b, vals, n).vals[k] == Redate(b, vals, j + 1).vals[k]
  {
    hide Latest, Order, Redate;
    if j + 1 < n {
      OrderIsTheKeys(vals, |vals|);
      DrawIsKept(b, vals, j, n - 1);
      OthersKeepTheirDate(b, vals, n - 1, Order(vals, |vals|)[j]);
    }
  }

  /** Each benched person takes the next draw: the m-th in map order the draw seeded with 31 m + 7. */
  lemma DrawsInTurn(b: Bench, vals: seq<Row>, j: nat)
    requires j < |Order(vals, |vals|)| && b.Benched(Order(vals, |vals|)[j])
    ensures var order := Order(vals, |vals|);
      var m := BenchCount(b, order[..j + 1]);
      && order[j] in Latest(vals, |vals|)
      && Redated(b, vals)[Latest(vals, |vals|)[order[j]]].occurredAt
         == b.now - b.rng(1, 180, m * 31 + 7) * 86_400_000
  {
    hide Latest, Order, Redate, DaysAgo, BenchCount, Bench.Benched;
    OwnDraw(b, vals, j);
    DrawIsKept(b, vals, j, |Order(vals, |vals|)|);
    AddDaysShifts(b.now, b.rng(1, 180, BenchCount(b, Order(vals, |vals|)[..j + 1]) * 31 + 7));
  }

  lemma OthersKeepTheirDate(b: Bench, vals: seq<Row>, n: nat, person: string)
    requires n < |Order(vals, |vals|)| && person in Latest(vals, |vals|) && person != Order(vals, |vals|)[n]
    ensures var k := Latest(vals, |vals|)[person]; Redate(b, vals, n + 1).vals[k] == Redate(b, vals, n).vals[k]
  {
    hide Latest, Order, Redate, DaysAgo, Bench.Benched;
    RedateStep(b, vals, n);
  }

  lemma CountOneMore(b: Bench, people: seq<string>, n: nat)
    requires n < |people|
    ensures BenchCount(b, people[..n + 1]) == BenchCount(b, people[..n]) + if b.Benched(people[n]) then 1 else 0
  {
    assert people[..n + 1][..n] == people[..n];
  }

  lemma {:induction false} BenchSeqCounts(b: Bench, vals: seq<Row>, n: nat)
    requires n <= |Order(vals, |vals|)|
    ensures Redate(b, vals, n).benchSeq == BenchCount(b, Order(vals, |vals|)[..n])
  {
    hide Latest, Order, DaysAgo, Bench.Benched;
    if n == 0 {
      NothingMoved(b, vals);
    } else {
      BenchSeqCounts(b, vals, n - 1);
      CountOneMore(b, Order(vals, |vals|), n - 1);
    }
  }

  // ----- The pass on shared row objects

  class HistoryRow {
    const row: Row
    var occurredAt: Instant

    constructor (row: Row)
      ensures this.row == row && occurredAt == row.occurredAt
    {
      this.row, this.occurredAt := row, row.occurredAt;
    }

    function Value(): Row
      reads this
    {
      row.(occurredAt := occurredAt)
    }
  }

  /** What the row objects say now. */
  ghost function Values(rows: seq<HistoryRow>): (v: seq<Row>)
    reads rows
    ensures |v| == |rows| && forall k :: 0 <= k < |rows| ==> v[k] == rows[k].Value()
  {
    seq(|rows|, k requires 0 <= k < |rows| reads rows => rows[k].Value())
  }

  /** `positionFillHistory`: a fresh object for every row of the table. */
  method BuildHistory(assignments: seq<S.Assignment>) returns (rows: seq<HistoryRow>)
    ensures Values(rows) == Table(assignments)
    ensures Distinct(rows) && forall k :: 0 <= k < |rows| ==> fresh(rows[k])
  {
    hide HistoryOf;
    rows := [];
    for i := 0 to |assignments|
      invariant Values(rows) == Table(assignments[..i])
      invariant Distinct(rows) && forall k :: 0 <= k < |rows| ==> fresh(rows[k])
    {
      assert assignments[..i + 1][..i] == assignments[..i];
      ghost var before := Table(assignments[..i]);
      var own := HistoryOf(assignments[i]);
      for j := 0 to |own|
        invariant Values(rows) == before + own[..j]
        invariant Distinct(rows) && forall k :: 0 <= k < |rows| ==> fresh(rows[k])
      {
        var row := new HistoryRow(own[j]);
        rows := rows + [row];
        assert row.Value() == own[j];
      }
      assert own[..|own|] == own;
    }
    assert assignments[..|assignments|] == assignments;
  }

  lemma NothingScanned(vals: seq<Row>)
    ensures Latest(vals, 0) == map[] && Order(vals, 0) == []
  {}

  /** `latestReleasedByPerson`, with its keys in insertion order: its values are the table's own row objects. */
  method FindLatest(rows: seq<HistoryRow>) returns (latest: map<string, HistoryRow>, order: seq<string>)
    ensures order == Order(Values(rows), |rows|)
    ensures latest.Keys == Latest(Values(rows), |rows|).Keys
    ensures forall p :: p in Latest(Values(rows), |rows|) ==> latest[p] == rows[Latest(Values(rows), |rows|)[p]]
  {
    hide Latest, Order;
    ghost var vals := Values(rows);
    latest, order := map[], [];
    NothingScanned(vals);
    for i := 0 to |rows|
      invariant order == Order(vals, i)
      invariant latest.Keys == Latest(vals, i).Keys
      invariant forall p :: p in Latest(vals, i) ==> latest[p] == rows[Latest(vals, i)[p]]
    {
      var row := rows[i];
      assert row.Value() == vals[i];
      ScanStep(vals, i);
      if row.row.changeType != Released || row.row.previousPersonId.None? { continue; }
      var personId := row.row.previousPersonId.value;
      if personId !in latest {
        order := order + [personId];
        latest := latest[personId := row];
      } else {
        assert latest[personId].Value() == vals[Latest(vals, i)[personId]];
        if row.occurredAt > latest[personId].occurredAt {
          latest := latest[personId := row];
        }
      }
    }
  }

  lemma NothingMoved(b: Bench, vals: seq<Row>)
    ensures Redate(b, vals, 0) == Pass(vals, 0)
  {}

  /** Re-dates, in place, the row the map holds for each benched active person. */
  method RedateBench(rows: seq<HistoryRow>, b: Bench)
    requires Distinct(rows)
    modifies rows
    ensures Values(rows) == Redated(b, old(Values(rows)))
  {
    hide DaysAgo, Latest, Order, Redate;
    ghost var vals := Values(rows);
    var latest, order := FindLatest(rows);
    NothingMoved(b, vals);
    var benchSeq := 0;
    for j := 0 to |order|
      invariant Values(rows) == Redate(b, vals, j).vals && benchSeq == Redate(b, vals, j).benchSeq
    {
      var personId := order[j];
      RedateStep(b, vals, j);
      if personId in b.staffed || personId !in b.active { continue; }
      benchSeq := benchSeq + 1;
      ghost var k := Latest(vals, |vals|)[personId];
      SetDate(rows, k, latest[personId], b.NewDate(benchSeq));
    }
  }

  /** Moving one object's date moves one value: the row at its index. */
  method SetDate(rows: seq<HistoryRow>, ghost k: nat, row: HistoryRow, t: Instant)
    requires Distinct(rows) && k < |rows| && rows[k] == row
    modifies row
    ensures Values(rows) == old(Values(rows))[k := old(Values(rows))[k].(occurredAt := t)]
  {
    ghost var before := Values(rows);
    row.occurredAt := t;
    assert forall i :: 0 <= i < |rows| && i != k ==> rows[i].Value() == before[i];
  }

  /** Everyone the bench pass counts as staffed. */
  function StaffedNow(assignments: seq<S.Assignment>): set<string> {
    set a | a in assignments && (a.status == S.Booked || a.status == S.Assigned) :: a.personId
  }

  /** In a factory's output these are the people the readers count as staffed by load. */
  lemma {:induction false} StaffedNowHaveLoad(assignments: seq<S.Assignment>, person: string)
    requires forall k :: 0 <= k < |assignments| ==> S.Emitted(assignments[k]) && 0 < assignments[k].allocationPercent
    ensures 0 <= S.StaffedLoad(assignments, person)
    ensures person in StaffedNow(assignments) <==> 0 < S.StaffedLoad(assignments, person)
  {
    hide StaffedNow;
    if assignments == [] {
      NobodyStaffed();
    } else {
      var n := |assignments| - 1;
      StaffedNowHaveLoad(assignments[..n], person);
      assert S.Emitted(assignments[n]);
      assert assignments == assignments[..n] + [assignments[n]];
      StaffedOneMore(assignments[..n], assignments[n]);
    }
  }

  lemma NobodyStaffed()
    ensures StaffedNow([]) == {}
  {}

  lemma StaffedOneMore(assignments: seq<S.Assignment>, a: S.Assignment)
    ensures StaffedNow(assignments + [a])
            == StaffedNow(assignments) + if a.status == S.Booked || a.status == S.Assigned then {a.personId} else {}
  {}

  /** Build and re-date: from an emitted assignment list to the history the bench reader sees. */
  method History(assignments: seq<S.Assignment>, active: set<string>, now: Instant, rng: (int, int, int) -> int)
    returns (rows: seq<HistoryRow>)
    requires S.InRange(rng)
    ensures Values(rows) == Redated(Bench(StaffedNow(assignments), active, now, rng), Table(assignments))
    ensures forall p, t :: p !in StaffedNow(assignments) && p in active && IsLatestRelease(Values(rows), p, t)
              ==> now - 180 * 86_400_000 <= t
    ensures forall a :: a in assignments && a.status == S.Completed && a.validTo.Some?
                        && a.personId in active && a.personId !in StaffedNow(assignments) ==>
              exists t :: IsLatestRelease(Values(rows), a.personId, t) && now - 180 * 86_400_000 <= t
  {
    hide Redated, Table, IsLatestRelease, StaffedNow;
    var b := Bench(StaffedNow(assignments), active, now, rng);
    rows := BuildHistory(assignments);
    RedateBench(rows, b);
    BenchIsRecent(b, Table(assignments));
    forall a | a in assignments && a.status == S.Completed && a.validTo.Some? && b.Benched(a.personId)
      ensures exists t :: IsLatestRelease(Values(rows), a.personId, t) && now - 180 * 86_400_000 <= t
    {
      ReleasedAreOnTheBench(assignments, b, a);
    }
  }
}
