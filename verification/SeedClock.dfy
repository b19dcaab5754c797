/** The seed profile's date helpers, each relative to an arbitrary `now`. */
module SeedClock {
  import opened Calendar

  function DaysAgo(now: Instant, n: int): Instant { SetUTCDate(now, GetUTCDate(now) - n) }

  function MonthsAgo(now: Instant, n: int): Instant { StartOfDay(SetUTCMonth(now, GetUTCMonth(now) - n)) }

  function AddDays(t: Instant, days: int): Instant { SetUTCDate(t, GetUTCDate(t) + days) }

  function AddMonths(t: Instant, months: int): Instant { SetUTCMonth(t, GetUTCMonth(t) + months) }

  /** Distance from a weekday (Sunday is 0) back to the Monday its week starts with. */
  function MondayDiff(day: int): int { if day == 0 then -6 else 1 - day }

  function WeekMonday(now: Instant, weeksAgo: int): Instant {
    StartOfDay(SetUTCDate(now, GetUTCDate(now) + MondayDiff(GetUTCDay(now)) - weeksAgo * 7))
  }

  function MondayOf(t: Instant): Instant {
    StartOfDay(SetUTCDate(t, GetUTCDate(t) + MondayDiff(GetUTCDay(t))))
  }

  /** Midnight at the start of a Monday. */
  predicate IsMonday(t: Instant) { GetUTCDay(t) == 1 && TimeWithinDay(t) == 0 }

  lemma AddDaysShifts(t: Instant, n: int)
    ensures AddDays(t, n) == t + n * 86_400_000
    ensures DaysAgo(t, n) == t - n * 86_400_000
  {
    hide SetUTCDate, GetUTCDate;
    SetDateShifts(t, n);
    SetDateShifts(t, -n);
  }

  /** The Monday on or before day `d`. */
  function MondayBefore(d: int): int { d - (d + 3) % 7 }

  lemma MondayOfDay(t: Instant, n: int)
    ensures StartOfDay(SetUTCDate(t, GetUTCDate(t) + MondayDiff(GetUTCDay(t)) + n))
            == MakeDate(MondayBefore(DayOf(t)) + n, 0)
  {
    hide SetUTCDate, GetUTCDate;
    var k := MondayDiff(GetUTCDay(t)) + n;
    SetDateShifts(t, k);
    assert SetUTCDate(t, GetUTCDate(t) + MondayDiff(GetUTCDay(t)) + n) == t + k * 86_400_000;
    WholeDays(t, k);
    BackToMonday(DayOf(t));
  }

  lemma BackToMonday(d: int)
    ensures MondayDiff((d + 4) % 7) == -((d + 3) % 7)
  {}

  lemma MidnightMonday(d: int)
    ensures IsMonday(MakeDate(d, 0)) <==> MondayBefore(d) == d
  {
    DayJoin(d, 0);
  }

  lemma MondayIsMidnight(m: Instant)
    requires IsMonday(m)
    ensures m == MakeDate(DayOf(m), 0)
  {
    DaySplit(m);
  }

  /** The Monday before a day is the one Monday of the seven days up to and including it. */
  lemma MondayBeforeIsUnique(d: int, e: int)
    ensures e == MondayBefore(d) <==> MondayBefore(e) == e && e <= d < e + 7
  {}

  lemma InTheWeekFrom(t: Instant, e: int)
    ensures MakeDate(e, 0) <= t < MakeDate(e, 0) + 7 * 86_400_000 <==> e <= DayOf(t) < e + 7
  {
    DaySplit(t);
  }

  /** `mondayOf` is the one Monday midnight of the seven days up to and including `t`. */
  lemma MondayOfIsTheWeekStart(t: Instant, m: Instant)
    ensures m == MondayOf(t) <==> IsMonday(m) && m <= t < m + 7 * 86_400_000
  {
    hide SetUTCDate, GetUTCDate, IsMonday, MondayBefore, MakeDate, DayOf;
    var e := MondayBefore(DayOf(t));
    MondayOfDay(t, 0);
    MondayBeforeIsUnique(DayOf(t), e);
    MidnightMonday(e);
    InTheWeekFrom(t, e);
    if IsMonday(m) && m <= t < m + 7 * 86_400_000 {
      MondayIsMidnight(m);
      MidnightMonday(DayOf(m));
      InTheWeekFrom(t, DayOf(m));
      MondayBeforeIsUnique(DayOf(t), DayOf(m));
    }
  }

  lemma WeekMondaySteps(now: Instant, w: int)
    ensures WeekMonday(now, w) == MondayOf(now) - w * 7 * 86_400_000
    ensures IsMonday(WeekMonday(now, w))
    ensures MondayOf(WeekMonday(now, w)) == WeekMonday(now, w)
  {
    hide SetUTCDate, GetUTCDate;
    MondayOfDay(now, 0);
    MondayOfDay(now, -w * 7);
    var d := MondayBefore(DayOf(now)) - w * 7;
    assert MondayBefore(d) == d;
    MidnightMonday(d);
    MondayOfIsTheWeekStart(WeekMonday(now, w), WeekMonday(now, w));
  }

  /**
    One month on and back to Monday is always exactly four weeks: months are 28 to 31
    days long, so the target lands in the fourth week after, whichever month it is.
  */
  lemma MonthThenMonday(cursor: Instant)
    requires IsMonday(cursor)
    ensures MondayOf(AddMonths(cursor, 1)) == cursor + 28 * 86_400_000
    ensures IsMonday(cursor + 28 * 86_400_000)
  {
    hide AddMonths, IsMonday, MondayOf;
    AMonthOn(cursor);
    FourWeeksOn(cursor);
    MondayOfIsTheWeekStart(AddMonths(cursor, 1), cursor + 28 * 86_400_000);
  }

  lemma AMonthOn(t: Instant)
    ensures t + 28 * 86_400_000 <= AddMonths(t, 1) <= t + 31 * 86_400_000
  {
    hide SetUTCMonth, GetUTCMonth, CivilFromDay, DayOf, DaysInMonth;
    SetMonthForward(t);
    var c := CivilFromDay(DayOf(t));
    MonthLengths(c.year, c.month);
  }

  lemma MonthLengths(y: int, m: nat)
    requires m < 12
    ensures 28 <= DaysInMonth(y, m) <= 31
  {}

  lemma FourWeeksOn(m: Instant)
    requires IsMonday(m)
    ensures IsMonday(m + 28 * 86_400_000)
  {
    DaySplit(m);
    DayJoin(DayOf(m) + 28, 0);
  }

  /** One, two or three months ago is the midnight of a day so many months' days back. */
  lemma MonthsAgoInDays(now: Instant, n: nat)
    requires 1 <= n <= 3
    ensures TimeWithinDay(MonthsAgo(now, n)) == 0
    ensures var least, most := [28, 59, 89][n - 1], [31, 62, 92][n - 1];
      StartOfDay(now) - most * 86_400_000 <= MonthsAgo(now, n) <= StartOfDay(now) - least * 86_400_000
  {
    hide SetUTCMonth, GetUTCMonth;
    var then' := SetUTCMonth(now, GetUTCMonth(now) - n);
    SetMonthBack(now, n);
    DayJoin(DayOf(then'), 0);
    MidnightsApart(now, then', [28, 59, 89][n - 1], [31, 62, 92][n - 1]);
  }

  /** Three months ago is the midnight of a day 89 to 92 days back. */
  lemma QuarterAgo(now: Instant)
    ensures StartOfDay(now) - 92 * 86_400_000 <= MonthsAgo(now, 3) <= StartOfDay(now) - 89 * 86_400_000
  {
    hide MonthsAgo, StartOfDay;
    MonthsAgoInDays(now, 3);
  }

  lemma MidnightsApart(t: Instant, u: Instant, least: int, most: int)
    requires t - most * 86_400_000 <= u <= t - least * 86_400_000
    ensures StartOfDay(t) - most * 86_400_000 <= StartOfDay(u) <= StartOfDay(t) - least * 86_400_000
  {}

  /** It is the same day of the month so many months back, or runs over into the month after. */
  lemma MonthsAgoIsByMonth(now: Instant, n: int)
    ensures var c := CivilFromDay(DayOf(now));
      var y, m := c.year + (c.month - n) / 12, (c.month - n) % 12;
      CivilFromDay(DayOf(MonthsAgo(now, n)))
      == if c.date <= DaysInMonth(y, m) then Civil(y, m, c.date) else Civil(y, m + 1, c.date - DaysInMonth(y, m))
  {
    hide CivilFromDay, DaysInMonth, SetUTCMonth, GetUTCMonth;
    var then' := SetUTCMonth(now, GetUTCMonth(now) - n);
    SetMonthMoves(now, -n);
    DayJoin(DayOf(then'), 0);
  }
}
