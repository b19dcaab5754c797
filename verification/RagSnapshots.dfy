/** The project RAG snapshot loops: twelve weekly rows and a longer-paced history for each project. */
module RagSnapshots {
  import opened Calendar
  import opened Collections
  import opened Projects
  import opened SeedClock

  datatype Snapshot = Snapshot(projectId: string, weekStarting: Instant)

  /** Weekly rows from `w` weeks ago up to this week, none before the project started. */
  function WeeklyFrom(startsOn: Instant, now: Instant, w: int): seq<Instant>
    decreases w
  {
    if w < 0 then []
    else
      var monday := MondayOf(WeekMonday(now, w));
      (if monday < startsOn then [] else [monday]) + WeeklyFrom(startsOn, now, w - 1)
  }

  /** The history cursor's stops: month on, back to Monday, until the bound. */
  function History(cursor: Instant, until: Instant): seq<Instant>
    requires IsMonday(cursor)
    decreases until - cursor
  {
    if cursor >= until then []
    else
      MonthThenMonday(cursor);
      [cursor] + History(MondayOf(AddMonths(cursor, 1)), until)
  }

  lemma MondayOfIsMonday(t: Instant)
    ensures IsMonday(MondayOf(t)) && MondayOf(t) <= t < MondayOf(t) + 7 * 86_400_000
  {
    MondayOfIsTheWeekStart(t, MondayOf(t));
  }

  /** The "monthly" history stops every 28 days from the first Monday, and ends just when the bound is reached. */
  lemma {:induction false} HistoryEveryFourWeeks(cursor: Instant, until: Instant)
    requires IsMonday(cursor)
    ensures forall i :: 0 <= i < |History(cursor, until)| ==>
              History(cursor, until)[i] == cursor + i * 28 * 86_400_000 < until
    ensures until <= cursor + |History(cursor, until)| * 28 * 86_400_000
    decreases until - cursor
  {
    hide MondayOf, AddMonths, IsMonday;
    if cursor < until {
      MonthThenMonday(cursor);
      HistoryEveryFourWeeks(cursor + 28 * 86_400_000, until);
    }
  }

  lemma {:induction false} HistoryAscends(cursor: Instant, until: Instant)
    requires IsMonday(cursor)
    ensures Distinct(History(cursor, until))
  {
    HistoryEveryFourWeeks(cursor, until);
  }

  lemma MondaysApart(m: Instant, n: Instant)
    requires IsMonday(m) && IsMonday(n) && m <= n < m + 7 * 86_400_000
    ensures m == n
  {
    MondayOfIsTheWeekStart(n, m);
    MondayOfIsTheWeekStart(n, n);
  }

  /** The weekly rows are just the Mondays of the last `w` weeks on or after the start. */
  lemma {:induction false} WeeklyIsTheMondays(startsOn: Instant, now: Instant, w: nat)
    ensures forall m :: m in WeeklyFrom(startsOn, now, w)
              <==> IsMonday(m) && startsOn <= m && MondayOf(now) - w * 7 * 86_400_000 <= m <= MondayOf(now)
  {
    hide MondayOf, WeekMonday, IsMonday;
    WeekMondaySteps(now, w);
    var monday := MondayOf(now) - w * 7 * 86_400_000;
    assert WeeklyFrom(startsOn, now, w)
        == (if monday < startsOn then [] else [monday]) + WeeklyFrom(startsOn, now, w - 1);
    if w > 0 {
      WeeklyIsTheMondays(startsOn, now, w - 1);
    }
    forall m
      ensures m in WeeklyFrom(startsOn, now, w) <==> IsMonday(m) && startsOn <= m && monday <= m <= MondayOf(now)
    {
      if IsMonday(m) && monday <= m < monday + 7 * 86_400_000 {
        MondaysApart(monday, m);
      }
    }
  }

  lemma {:induction false} WeeklyAscends(startsOn: Instant, now: Instant, w: nat)
    ensures forall i, j :: 0 <= i < j < |WeeklyFrom(startsOn, now, w)|
              ==> WeeklyFrom(startsOn, now, w)[i] < WeeklyFrom(startsOn, now, w)[j]
  {
    hide MondayOf, WeekMonday, IsMonday;
    WeekMondaySteps(now, w);
    var monday := WeekMonday(now, w);
    if w > 0 {
      WeeklyAscends(startsOn, now, w - 1);
      WeeklyIsTheMondays(startsOn, now, w - 1);
      var rest := WeeklyFrom(startsOn, now, w - 1);
      assert forall m :: m in rest ==> monday < m;
      assert forall i :: 0 <= i < |rest| ==> rest[i] in rest;
      assert WeeklyFrom(startsOn, now, w) == (if monday < startsOn then [] else [monday]) + rest;
    }
  }

  lemma {:induction false} WeeklyDistinct(startsOn: Instant, now: Instant, w: nat)
    ensures Distinct(WeeklyFrom(startsOn, now, w))
  {
    WeeklyAscends(startsOn, now, w);
  }

  /** History stops are at least 89 days old, weekly rows at most 83 days old: they never share a week. */
  lemma HistoryPrecedesWeekly(startsOn: Instant, now: Instant, h: Instant, m: Instant)
    ensures h in History(MondayStart(startsOn), MonthsAgo(now, 3)) && m in WeeklyFrom(startsOn, now, 11) ==> h < m
  {
    hide MondayOf, MonthsAgo, IsMonday;
    HistoryEveryFourWeeks(MondayStart(startsOn), MonthsAgo(now, 3));
    WeeklyIsTheMondays(startsOn, now, 11);
    QuarterAgo(now);
    MondayOfIsMonday(now);
    DaySplit(now);
  }

  /** The Monday a history starts from. */
  function MondayStart(t: Instant): (m: Instant)
    ensures IsMonday(m) && m <= t < m + 7 * 86_400_000
  {
    MondayOfIsMonday(t);
    MondayOf(t)
  }

  lemma HistoryStep(cursor: Instant, until: Instant)
    requires IsMonday(cursor) && cursor < until
    ensures var next := MondayOf(AddMonths(cursor, 1));
      next == cursor + 28 * 86_400_000 && IsMonday(next) && History(cursor, until) == [cursor] + History(next, until)
  {
    hide IsMonday, MondayOf, AddMonths;
    MonthThenMonday(cursor);
  }

  lemma HistoryEnd(cursor: Instant, until: Instant)
    requires IsMonday(cursor) && until <= cursor
    ensures History(cursor, until) == []
  {}

  lemma WeeklyStep(startsOn: Instant, now: Instant, w: nat)
    ensures WeeklyFrom(startsOn, now, w)
            == (if MondayOf(WeekMonday(now, w)) < startsOn then [] else [MondayOf(WeekMonday(now, w))])
               + WeeklyFrom(startsOn, now, w - 1)
    ensures WeeklyFrom(startsOn, now, -1) == []
  {
    hide MondayOf, WeekMonday;
  }

  lemma MondayStartIsMondayOf(t: Instant)
    ensures MondayStart(t) == MondayOf(t)
  {}

  // ----- The three loops and the table they fill

  datatype Feed = Weekly | ActiveHistory | ClosedHistory

  /** The weeks one feed records for one project. */
  function Weeks(feed: Feed, p: Project, now: Instant): seq<Instant> {
    match feed
    case Weekly => WeeklyFrom(p.startsOn, now, 11)
    case ActiveHistory => History(MondayStart(p.startsOn), MonthsAgo(now, 3))
    case ClosedHistory => History(MondayStart(p.startsOn), p.EndOr(p.startsOn))
  }

  function Tagged(id: string, weeks: seq<Instant>): (rows: seq<Snapshot>)
    ensures |rows| == |weeks| && forall i :: 0 <= i < |rows| ==> rows[i] == Snapshot(id, weeks[i])
  {
    seq(|weeks|, i requires 0 <= i < |weeks| => Snapshot(id, weeks[i]))
  }

  lemma TaggedAppend(id: string, weeks: seq<Instant>, week: Instant)
    ensures Tagged(id, weeks + [week]) == Tagged(id, weeks) + [Snapshot(id, week)]
  {}

  function Rows(feed: Feed, ps: seq<Project>, now: Instant): seq<Snapshot> {
    if ps == [] then []
    else Rows(feed, ps[..|ps| - 1], now) + Tagged(ps[|ps| - 1].id, Weeks(feed, ps[|ps| - 1], now))
  }

  class SnapshotTable {
    var rows: seq<Snapshot>

    constructor ()
      ensures rows == []
    {
      rows := [];
    }

    method PushWeekly(active: seq<Project>, now: Instant)
      modifies this
      ensures rows == old(rows) + Rows(Weekly, active, now)
    {
      hide WeeklyFrom;
      for k := 0 to |active|
        invariant rows == old(rows) + Rows(Weekly, active[..k], now)
      {
        PushWeeklyFor(active[k], now, 11);
        assert active[..k + 1][..k] == active[..k];
      }
      assert active[..|active|] == active;
    }

    method PushWeeklyFor(p: Project, now: Instant, weeksBack: nat)
      modifies this
      ensures rows == old(rows) + Tagged(p.id, WeeklyFrom(p.startsOn, now, weeksBack))
    {
      hide MondayOf, WeekMonday, WeeklyFrom, Tagged;
      ghost var done: seq<Instant> := [];
      var w: int := weeksBack;
      while w >= 0
        invariant -1 <= w <= weeksBack
        invariant rows == old(rows) + Tagged(p.id, done)
        invariant done + WeeklyFrom(p.startsOn, now, w) == WeeklyFrom(p.startsOn, now, weeksBack)
      {
        var monday := MondayOf(WeekMonday(now, w));
        WeeklyStep(p.startsOn, now, w);
        w := w - 1;
        if monday < p.startsOn {
          continue;
        }
        rows := rows + [Snapshot(p.id, monday)];
        TaggedAppend(p.id, done, monday);
        done := done + [monday];
      }
      WeeklyStep(p.startsOn, now, 0);
    }

    /** The loop both histories share, from the first Monday to `until`. */
    method PushHistory(p: Project, until: Instant)
      modifies this
      ensures rows == old(rows) + Tagged(p.id, History(MondayStart(p.startsOn), until))
    {
      hide IsMonday, MondayOf, AddMonths, MondayStart, History, Tagged;
      var cursor := MondayOf(p.startsOn);
      MondayStartIsMondayOf(p.startsOn);
      ghost var done: seq<Instant> := [];
      while cursor < until
        invariant IsMonday(cursor)
        invariant rows == old(rows) + Tagged(p.id, done)
        invariant done + History(cursor, until) == History(MondayStart(p.startsOn), until)
        decreases until - cursor
      {
        HistoryStep(cursor, until);
        rows := rows + [Snapshot(p.id, cursor)];
        TaggedAppend(p.id, done, cursor);
        done := done + [cursor];
        cursor := AddMonths(cursor, 1);
        cursor := MondayOf(cursor);
      }
      HistoryEnd(cursor, until);
    }

    method PushActiveHistory(active: seq<Project>, now: Instant)
      modifies this
      ensures rows == old(rows) + Rows(ActiveHistory, active, now)
    {
      hide MonthsAgo, MondayStart, History, IsMonday, Tagged, Project.EndOr;
      for k := 0 to |active|
        invariant rows == old(rows) + Rows(ActiveHistory, active[..k], now)
      {
        PushHistory(active[k], MonthsAgo(now, 3));
        assert active[..k + 1][..k] == active[..k];
      }
      assert active[..|active|] == active;
    }

    method PushClosedHistory(closed: seq<Project>, now: Instant)
      modifies this
      ensures rows == old(rows) + Rows(ClosedHistory, closed, now)
    {
      hide MonthsAgo, MondayStart, History, IsMonday, Tagged, Project.EndOr;
      for k := 0 to |closed|
        invariant rows == old(rows) + Rows(ClosedHistory, closed[..k], now)
      {
        var p := closed[k];
        PushHistory(p, p.EndOr(p.startsOn));
        assert closed[..k + 1][..k] == closed[..k];
      }
      assert closed[..|closed|] == closed;
    }

    /** The whole fill of the table: no project gets two rows for one week. */
    method Fill(active: seq<Project>, closed: seq<Project>, now: Instant)
      requires rows == []
      requires DistinctIds(active + closed)
      modifies this
      ensures rows == Rows(Weekly, active, now) + Rows(ActiveHistory, active, now) + Rows(ClosedHistory, closed, now)
      ensures Distinct(rows)
    {
      hide *;
      PushWeekly(active, now);
      PushActiveHistory(active, now);
      PushClosedHistory(closed, now);
      OneSnapshotPerWeek(active, closed, now);
    }
  }

  lemma WeeksDistinct(feed: Feed, p: Project, now: Instant)
    ensures Distinct(Weeks(feed, p, now))
  {
    match feed
    case Weekly => WeeklyDistinct(p.startsOn, now, 11);
    case ActiveHistory => HistoryAscends(MondayStart(p.startsOn), MonthsAgo(now, 3));
    case ClosedHistory => HistoryAscends(MondayStart(p.startsOn), p.EndOr(p.startsOn));
  }

  /** A feed's rows for several projects: each row is some project's, and no row occurs twice. */
  lemma {:induction false} RowsOfProjects(feed: Feed, ps: seq<Project>, now: Instant)
    ensures forall r :: r in Rows(feed, ps, now) ==>
              exists k :: 0 <= k < |ps| && ps[k].id == r.projectId && r.weekStarting in Weeks(feed, ps[k], now)
    ensures DistinctIds(ps) ==> Distinct(Rows(feed, ps, now))
  {
    hide Weeks;
    if ps != [] {
      var n := |ps| - 1;
      var init := Rows(feed, ps[..n], now);
      var tail := Tagged(ps[n].id, Weeks(feed, ps[n], now));
      RowsOfProjects(feed, ps[..n], now);
      WeeksDistinct(feed, ps[n], now);
      forall r: Snapshot | r in init + tail
        ensures exists k :: 0 <= k < |ps| && ps[k].id == r.projectId && r.weekStarting in Weeks(feed, ps[k], now)
      {
        if r in init {
          var k :| 0 <= k < n && ps[..n][k].id == r.projectId && r.weekStarting in Weeks(feed, ps[..n][k], now);
          assert ps[k] == ps[..n][k];
        } else {
          assert r.projectId == ps[n].id;
        }
      }
      if DistinctIds(ps) {
        DistinctAppend(init, tail);
      }
    }
  }

  // ----- Which weeks are in the table

  lemma {:induction false} RowsAreTheWeeks(feed: Feed, ps: seq<Project>, now: Instant, id: string, week: Instant)
    ensures Snapshot(id, week) in Rows(feed, ps, now)
       <==> exists k :: 0 <= k < |ps| && ps[k].id == id && week in Weeks(feed, ps[k], now)
  {
    hide Weeks;
    RowsOfProjects(feed, ps, now);
    if ps != [] {
      var n := |ps| - 1;
      RowsAreTheWeeks(feed, ps[..n], now, id, week);
      var weeks := Weeks(feed, ps[n], now);
      assert Rows(feed, ps, now) == Rows(feed, ps[..n], now) + Tagged(ps[n].id, weeks);
      if ps[n].id == id && week in weeks {
        var i :| 0 <= i < |weeks| && weeks[i] == week;
        assert Tagged(id, weeks)[i] == Snapshot(id, week);
      }
      if k :| 0 <= k < n && ps[k].id == id && week in Weeks(feed, ps[k], now) {
        assert ps[..n][k] == ps[k];
      }
    }
  }

  /** Every fourth Monday, counted from the Monday of the week of `startsOn`. */
  ghost predicate FourthMonday(startsOn: Instant, week: Instant) {
    exists m :: IsMonday(m) && m <= startsOn < m + 7 * 86_400_000 && m <= week && (week - m) % (28 * 86_400_000) == 0
  }

  lemma HistoryHasStop(m: Instant, until: Instant, week: Instant)
    requires IsMonday(m)
    ensures week in History(m, until) <==> m <= week < until && (week - m) % (28 * 86_400_000) == 0
  {
    hide IsMonday, History;
    HistoryEveryFourWeeks(m, until);
    var stops := History(m, until);
    if week in stops {
      var i :| 0 <= i < |stops| && stops[i] == week;
      assert week - m == i * (28 * 86_400_000);
    }
    if m <= week < until && (week - m) % (28 * 86_400_000) == 0 {
      var q := (week - m) / (28 * 86_400_000);
      assert stops[q] == week;
    }
  }

  lemma HistoryIsFourthMondays(startsOn: Instant, until: Instant, week: Instant)
    ensures week in History(MondayStart(startsOn), until) <==> FourthMonday(startsOn, week) && week < until
  {
    hide IsMonday, History, MondayStart;
    var m := MondayStart(startsOn);
    HistoryHasStop(m, until, week);
    forall n | IsMonday(n) && n <= startsOn < n + 7 * 86_400_000 ensures n == m {
      MondayOfIsTheWeekStart(startsOn, n);
      MondayOfIsTheWeekStart(startsOn, m);
    }
  }

  /** A Monday of this week or the eleven before, not before the start. */
  predicate RecentMonday(startsOn: Instant, now: Instant, week: Instant) {
    IsMonday(week) && startsOn <= week <= now < week + 84 * 86_400_000
  }

  lemma WeeklyIsRecent(startsOn: Instant, now: Instant, week: Instant)
    ensures week in WeeklyFrom(startsOn, now, 11) <==> RecentMonday(startsOn, now, week)
  {
    hide MondayOf, WeeklyFrom;
    WeeklyIsTheMondays(startsOn, now, 11);
    MondayOfIsMonday(now);
    if IsMonday(week) {
      MondaysDiffer(MondayOf(now), week);
    }
  }

  /** Mondays are whole weeks apart. */
  lemma MondaysDiffer(m: Instant, n: Instant)
    requires IsMonday(m) && IsMonday(n)
    ensures (m - n) % (7 * 86_400_000) == 0
  {
    hide IsMonday;
    MondayIsMidnight(m);
    MondayIsMidnight(n);
    WholeWeeks(m);
    WholeWeeks(n);
  }

  lemma WholeWeeks(m: Instant)
    requires IsMonday(m)
    ensures exists w :: m == (7 * w - 3) * 86_400_000
  {
    MondayIsMidnight(m);
    var w := (DayOf(m) + 3) / 7;
    assert DayOf(m) == 7 * w - 3;
    assert m == (7 * w - 3) * 86_400_000;
  }

  /**
    The whole table: an active project has a row for each of the last twelve Mondays since
    its start and for every fourth Monday from its start until three months ago, a closed one
    for every fourth Monday from its start until its own end, and nothing else has a row.
  */
  lemma SnapshotsExactly(active: seq<Project>, closed: seq<Project>, now: Instant, id: string, week: Instant)
    ensures Snapshot(id, week) in
              Rows(Weekly, active, now) + Rows(ActiveHistory, active, now) + Rows(ClosedHistory, closed, now)
      <==> || (exists k :: 0 <= k < |active| && active[k].id == id && RecentMonday(active[k].startsOn, now, week))
           || (exists k :: 0 <= k < |active| && active[k].id == id && FourthMonday(active[k].startsOn, week)
                 && week < MonthsAgo(now, 3))
           || (exists k :: 0 <= k < |closed| && closed[k].id == id && FourthMonday(closed[k].startsOn, week)
                 && match closed[k].endsOn case Some(end) => week < end case None => week < closed[k].startsOn)
  {
    hide Rows, FourthMonday, RecentMonday, History, WeeklyFrom, MonthsAgo, MondayStart;
    RowsAreTheWeeks(Weekly, active, now, id, week);
    RowsAreTheWeeks(ActiveHistory, active, now, id, week);
    RowsAreTheWeeks(ClosedHistory, closed, now, id, week);
    forall p: Project ensures week in Weeks(Weekly, p, now) <==> RecentMonday(p.startsOn, now, week) {
      WeeklyIsRecent(p.startsOn, now, week);
    }
    forall p: Project
      ensures week in Weeks(ActiveHistory, p, now) <==> FourthMonday(p.startsOn, week) && week < MonthsAgo(now, 3)
      ensures week in Weeks(ClosedHistory, p, now)
         <==> FourthMonday(p.startsOn, week)
              && match p.endsOn case Some(end) => week < end case None => week < p.startsOn
    {
      HistoryIsFourthMondays(p.startsOn, MonthsAgo(now, 3), week);
      HistoryIsFourthMondays(p.startsOn, p.EndOr(p.startsOn), week);
    }
  }

  /**
    In the finished table no project has two rows for one week, whatever `now`, start
    and end dates are, as long as the projects' ids differ.
  */
  lemma OneSnapshotPerWeek(active: seq<Project>, closed: seq<Project>, now: Instant)
    requires DistinctIds(active + closed)
    ensures Distinct(Rows(Weekly, active, now) + Rows(ActiveHistory, active, now) + Rows(ClosedHistory, closed, now))
  {
    hide Rows, Weeks;
    var weekly, history := Rows(Weekly, active, now), Rows(ActiveHistory, active, now);
    var ended := Rows(ClosedHistory, closed, now);
    var all := active + closed;
    assert forall i :: 0 <= i < |active| ==> active[i] == all[i];
    assert forall i :: 0 <= i < |closed| ==> closed[i] == all[|active| + i];
    RowsOfProjects(Weekly, active, now);
    RowsOfProjects(ActiveHistory, active, now);
    RowsOfProjects(ClosedHistory, closed, now);
    WeeklyApartFromHistory(active, now);
    DistinctAppend(weekly, history);
    OtherProjects(Weekly, active, closed, now);
    OtherProjects(ActiveHistory, active, closed, now);
    DistinctAppend(weekly + history, ended);
  }

  lemma WeeklyApartFromHistory(active: seq<Project>, now: Instant)
    requires DistinctIds(active)
    ensures forall r :: r in Rows(Weekly, active, now) ==> r !in Rows(ActiveHistory, active, now)
  {
    hide Rows, History, WeeklyFrom, MonthsAgo, MondayStart;
    RowsOfProjects(Weekly, active, now);
    RowsOfProjects(ActiveHistory, active, now);
    forall r | r in Rows(Weekly, active, now) ensures r !in Rows(ActiveHistory, active, now) {
      if r in Rows(ActiveHistory, active, now) {
        var i :| 0 <= i < |active| && active[i].id == r.projectId && r.weekStarting in Weeks(Weekly, active[i], now);
        var j :| 0 <= j < |active| && active[j].id == r.projectId
                 && r.weekStarting in Weeks(ActiveHistory, active[j], now);
        assert i == j;
        HistoryPrecedesWeekly(active[i].startsOn, now, r.weekStarting, r.weekStarting);
      }
    }
  }

  lemma OtherProjects(feed: Feed, active: seq<Project>, closed: seq<Project>, now: Instant)
    requires DistinctIds(active + closed)
    ensures forall r :: r in Rows(feed, active, now) ==> r !in Rows(ClosedHistory, closed, now)
  {
    hide Rows, Weeks;
    RowsOfProjects(feed, active, now);
    RowsOfProjects(ClosedHistory, closed, now);
    var all := active + closed;
    assert forall i :: 0 <= i < |active| ==> active[i] == all[i];
    assert forall i :: 0 <= i < |closed| ==> closed[i] == all[|active| + i];
  }
}
