/**
  The proleptic Gregorian calendar over day numbers (day 0 is 1970-01-01), as
  ECMA-262 5.1 sections 15.9.1.2 to 15.9.1.13 define it, and the `Date` setters the
  program uses.  An `Instant` is a time value in milliseconds.
*/
module Calendar {

  type Instant = int

  function DayOf(t: Instant): int { t / 86_400_000 }

  function TimeWithinDay(t: Instant): int { t % 86_400_000 }

  function MakeDate(day: int, time: int): Instant { day * 86_400_000 + time }

  predicate LeapYear(y: int) { y % 4 == 0 && (y % 100 != 0 || y % 400 == 0) }

  function DaysInYear(y: int): int { if LeapYear(y) then 366 else 365 }

  function DayFromYear(y: int): int {
    365 * (y - 1970) + (y - 1969) / 4 - (y - 1901) / 100 + (y - 1601) / 400
  }

  lemma YearLength(y: int)
    ensures DayFromYear(y + 1) == DayFromYear(y) + DaysInYear(y)
  {
    assert (y - 1968) / 4 == (y - 1969) / 4 + if y % 4 == 0 then 1 else 0;
    assert (y - 1900) / 100 == (y - 1901) / 100 + if y % 100 == 0 then 1 else 0;
    assert (y - 1600) / 400 == (y - 1601) / 400 + if y % 400 == 0 then 1 else 0;
    LeapCounts(y);
  }

  lemma LeapCounts(y: int)
    ensures y % 400 == 0 ==> y % 100 == 0
    ensures y % 100 == 0 ==> y % 4 == 0
  {}

  lemma {:induction false} YearsAscend(y: int, z: int)
    requires y <= z
    ensures DayFromYear(y) + 365 * (z - y) <= DayFromYear(z)
    decreases z - y
  {
    if y < z {
      YearLength(z - 1);
      YearsAscend(y, z - 1);
    }
  }

  /** The year whose first day is the last first day not after `d`. */
  function YearFromDay(d: int): (y: int)
    ensures DayFromYear(y) <= d < DayFromYear(y + 1)
  {
    var guess := if d >= 0 then 1970 else 1969 + d;
    YearSearch(guess, d)
  }

  function YearSearch(y: int, d: int): (r: int)
    requires DayFromYear(y) <= d
    ensures DayFromYear(r) <= d < DayFromYear(r + 1)
    decreases d - DayFromYear(y)
  {
    YearLength(y);
    if d < DayFromYear(y + 1) then y else YearSearch(y + 1, d)
  }

  lemma YearUnique(y: int, d: int)
    requires DayFromYear(y) <= d < DayFromYear(y + 1)
    ensures YearFromDay(d) == y
  {
    hide DayFromYear, YearFromDay;
    var r := YearFromDay(d);
    if r < y { YearsAscend(r + 1, y); }
    if y < r { YearsAscend(y + 1, r); }
  }

  /** Days of the year that precede month `m` (0 is January, 12 the end of the year). */
  function DaysBeforeMonth(m: nat, y: int): nat
    requires m <= 12
  {
    var leap := if LeapYear(y) then 1 else 0;
    match m
    case 0 => 0
    case 1 => 31
    case 2 => 59 + leap
    case 3 => 90 + leap
    case 4 => 120 + leap
    case 5 => 151 + leap
    case 6 => 181 + leap
    case 7 => 212 + leap
    case 8 => 243 + leap
    case 9 => 273 + leap
    case 10 => 304 + leap
    case 11 => 334 + leap
    case 12 => 365 + leap
  }

  function DaysInMonth(y: int, m: nat): nat
    requires m < 12
  {
    DaysBeforeMonth(m + 1, y) - DaysBeforeMonth(m, y)
  }

  /** A calendar date; `month` counts from 0 and `date` from 1, as `Date` does. */
  datatype Civil = Civil(year: int, month: nat, date: int) {
    predicate Valid() {
      month < 12 && 1 <= date <= DaysInMonth(year, month)
    }

    predicate Before(other: Civil) {
      year < other.year ||
      (year == other.year && (month < other.month || (month == other.month && date < other.date)))
    }
  }

  function MonthOfYearDay(k: int, y: int): (m: nat)
    requires 0 <= k < DaysInYear(y)
    ensures m < 12 && DaysBeforeMonth(m, y) <= k < DaysBeforeMonth(m + 1, y)
  {
    if k < DaysBeforeMonth(1, y) then 0
    else if k < DaysBeforeMonth(2, y) then 1
    else if k < DaysBeforeMonth(3, y) then 2
    else if k < DaysBeforeMonth(4, y) then 3
    else if k < DaysBeforeMonth(5, y) then 4
    else if k < DaysBeforeMonth(6, y) then 5
    else if k < DaysBeforeMonth(7, y) then 6
    else if k < DaysBeforeMonth(8, y) then 7
    else if k < DaysBeforeMonth(9, y) then 8
    else if k < DaysBeforeMonth(10, y) then 9
    else if k < DaysBeforeMonth(11, y) then 10
    else 11
  }

  /** YearFromTime, MonthFromTime and DateFromTime together. */
  function CivilFromDay(d: int): (c: Civil)
    ensures c.Valid()
  {
    var y := YearFromDay(d);
    YearLength(y);
    var k := d - DayFromYear(y);
    var m := MonthOfYearDay(k, y);
    Civil(y, m, k - DaysBeforeMonth(m, y) + 1)
  }

  /** MakeDay: months outside 0..11 carry into the year, days outside the month just add. */
  function MakeDay(year: int, month: int, date: int): (day: int)
    ensures 0 <= month < 12 ==> day == DayFromYear(year) + DaysBeforeMonth(month, year) + date - 1
  {
    assert 0 <= month < 12 ==> month / 12 == 0 && month % 12 == month;
    var y := year + month / 12;
    DayFromYear(y) + DaysBeforeMonth(month % 12, y) + date - 1
  }

  lemma DayRoundTrip(d: int)
    ensures var c := CivilFromDay(d); MakeDay(c.year, c.month, c.date) == d
  {
    hide DayFromYear, DaysBeforeMonth, MakeDay;
  }

  lemma CivilRoundTrip(c: Civil)
    requires c.Valid()
    ensures CivilFromDay(MakeDay(c.year, c.month, c.date)) == c
  {
    hide DayFromYear, DaysBeforeMonth, MakeDay, YearFromDay, MonthOfYearDay;
    var d := MakeDay(c.year, c.month, c.date);
    var k := DaysBeforeMonth(c.month, c.year) + c.date - 1;
    assert d == DayFromYear(c.year) + k;
    InYear(c.year, c.month);
    YearLength(c.year);
    YearUnique(c.year, d);
    MonthUnique(c.year, c.month, k);
  }

  lemma InYear(y: int, m: nat)
    requires m < 12
    ensures 0 <= DaysBeforeMonth(m, y) && DaysBeforeMonth(m + 1, y) <= DaysInYear(y)
  {}

  lemma MonthUnique(y: int, m: nat, k: int)
    requires m < 12 && 0 <= k < DaysInYear(y)
    requires DaysBeforeMonth(m, y) <= k < DaysBeforeMonth(m + 1, y)
    ensures MonthOfYearDay(k, y) == m
  {
    MonthsAscend(y, m, MonthOfYearDay(k, y));
  }

  /** Each month's days lie wholly before the next month's. */
  lemma MonthsAscend(y: int, m: nat, n: nat)
    requires m < 12 && n < 12
    ensures m < n ==> DaysBeforeMonth(m + 1, y) <= DaysBeforeMonth(n, y)
    ensures n < m ==> DaysBeforeMonth(n + 1, y) <= DaysBeforeMonth(m, y)
  {}

  /** Chronological order of days is the field-by-field order of their dates. */
  lemma CivilOrder(d: int, e: int)
    ensures CivilFromDay(d).Before(CivilFromDay(e)) <==> d < e
  {
    var c, f := CivilFromDay(d), CivilFromDay(e);
    if c.Before(f) {
      BeforeIsEarlier(d, e);
    } else if f.Before(c) {
      BeforeIsEarlier(e, d);
    } else {
      DayRoundTrip(d);
      DayRoundTrip(e);
    }
  }

  lemma BeforeIsEarlier(d: int, e: int)
    ensures CivilFromDay(d).Before(CivilFromDay(e)) ==> d < e
  {
    hide CivilFromDay, DayFromYear, DaysBeforeMonth, MakeDay;
    var c, f := CivilFromDay(d), CivilFromDay(e);
    DayRoundTrip(d);
    DayRoundTrip(e);
    InYear(c.year, c.month);
    InYear(f.year, f.month);
    YearLength(c.year);
    if c.year < f.year {
      YearsAscend(c.year + 1, f.year);
    } else if c.year == f.year {
      MonthsAscend(c.year, c.month, f.month);
    }
  }

  // ----- Date getters and setters (UTC)

  function GetUTCMonth(t: Instant): int { CivilFromDay(DayOf(t)).month }

  function GetUTCDate(t: Instant): int { CivilFromDay(DayOf(t)).date }

  /** WeekDay: 0 is Sunday. */
  function GetUTCDay(t: Instant): int { (DayOf(t) + 4) % 7 }

  function SetUTCDate(t: Instant, date: int): Instant {
    var c := CivilFromDay(DayOf(t));
    MakeDate(MakeDay(c.year, c.month, date), TimeWithinDay(t))
  }

  function SetUTCMonth(t: Instant, month: int): Instant {
    var c := CivilFromDay(DayOf(t));
    MakeDate(MakeDay(c.year, month, c.date), TimeWithinDay(t))
  }

  /** `setUTCHours(0, 0, 0, 0)`. */
  function StartOfDay(t: Instant): Instant { MakeDate(DayOf(t), 0) }

  lemma DaySplit(t: Instant)
    ensures MakeDate(DayOf(t), TimeWithinDay(t)) == t && 0 <= TimeWithinDay(t) < 86_400_000
  {}

  lemma DayJoin(d: int, time: int)
    requires 0 <= time < 86_400_000
    ensures DayOf(MakeDate(d, time)) == d && TimeWithinDay(MakeDate(d, time)) == time
  {}

  lemma WholeDays(t: Instant, k: int)
    ensures DayOf(t + k * 86_400_000) == DayOf(t) + k
  {}

  /** Setting the day of the month to its value plus n moves the instant by n days, whatever months it crosses. */
  lemma SetDateShifts(t: Instant, n: int)
    ensures SetUTCDate(t, GetUTCDate(t) + n) == t + n * 86_400_000
  {
    hide CivilFromDay, DayFromYear, DaysBeforeMonth;
    DayRoundTrip(DayOf(t));
    DaySplit(t);
  }

  /**
    Stepping the month forward keeps the day of the month, and a day the next month
    lacks runs over into the month after: the step is always the length of the
    starting month.
  */
  lemma SetMonthForward(t: Instant)
    ensures var c := CivilFromDay(DayOf(t));
            SetUTCMonth(t, GetUTCMonth(t) + 1) == t + DaysInMonth(c.year, c.month) * 86_400_000
  {
    hide CivilFromDay, MakeDay, DaysInMonth;
    var c := CivilFromDay(DayOf(t));
    DayRoundTrip(DayOf(t));
    MonthCarry(c.year, c.month, c.date);
    DaySplit(t);
  }

  lemma MonthCarry(y: int, m: nat, d: int)
    requires m < 12
    ensures MakeDay(y, m + 1, d) == MakeDay(y, m, d) + DaysInMonth(y, m)
  {
    hide DayFromYear;
    if m == 11 {
      YearLength(y);
    }
  }

  /** Stepping back over one, two or three months moves an instant by the days of so many months. */
  lemma SetMonthBack(t: Instant, n: nat)
    requires 1 <= n <= 3
    ensures var least, most := [28, 59, 89][n - 1], [31, 62, 92][n - 1];
      t - most * 86_400_000 <= SetUTCMonth(t, GetUTCMonth(t) - n) <= t - least * 86_400_000
  {
    hide CivilFromDay, MakeDay;
    var c := CivilFromDay(DayOf(t));
    MonthsBack(c.year, c.month, c.date, n);
    DayRoundTrip(DayOf(t));
    DaySplit(t);
  }

  lemma MonthsBack(y: int, m: nat, d: int, n: nat)
    requires m < 12 && 1 <= n <= 3
    ensures MakeDay(y, m, d) - [31, 62, 92][n - 1] <= MakeDay(y, m - n, d) <= MakeDay(y, m, d) - [28, 59, 89][n - 1]
  {
    hide DayFromYear, DaysBeforeMonth;
    MonthsApart(y, m, n);
    if m < n {
      assert (m - n) / 12 == -1 && (m - n) % 12 == m + 12 - n;
      YearLength(y - 1);
    }
  }

  lemma MonthsApart(y: int, m: nat, n: nat)
    requires m < 12 && 1 <= n <= 3
    ensures var least, most := [28, 59, 89][n - 1], [31, 62, 92][n - 1];
      && (m >= n ==> least <= DaysBeforeMonth(m, y) - DaysBeforeMonth(m - n, y) <= most)
      && (m < n ==>
            least <= DaysBeforeMonth(m, y) + DaysInYear(y - 1) - DaysBeforeMonth(m + 12 - n, y - 1) <= most)
  {}

  /**
    Setting the month to its value plus n, forward or back, keeps the time and the day of the
    month; a day that the new month lacks becomes as many days of the month after.
  */
  lemma SetMonthMoves(t: Instant, n: int)
    ensures var c := CivilFromDay(DayOf(t));
      var y, m := c.year + (c.month + n) / 12, (c.month + n) % 12;
      var u := SetUTCMonth(t, GetUTCMonth(t) + n);
      && TimeWithinDay(u) == TimeWithinDay(t)
      && (c.date <= DaysInMonth(y, m) ==> CivilFromDay(DayOf(u)) == Civil(y, m, c.date))
      && (c.date > DaysInMonth(y, m) ==> CivilFromDay(DayOf(u)) == Civil(y, m + 1, c.date - DaysInMonth(y, m)))
  {
    hide CivilFromDay, DayFromYear, DaysBeforeMonth, DaysInMonth;
    var c := CivilFromDay(DayOf(t));
    var y, m := c.year + (c.month + n) / 12, (c.month + n) % 12;
    DaySplit(t);
    assert MakeDay(c.year, c.month + n, c.date) == MakeDay(y, m, c.date);
    DayJoin(MakeDay(y, m, c.date), TimeWithinDay(t));
    DateInMonth(c, y, m);
    if c.date <= DaysInMonth(y, m) {
      CivilRoundTrip(Civil(y, m, c.date));
    } else {
      MonthCarry(y, m, c.date - DaysInMonth(y, m));
      CivilRoundTrip(Civil(y, m + 1, c.date - DaysInMonth(y, m)));
    }
  }

  lemma DateInMonth(c: Civil, y: int, m: nat)
    requires c.Valid() && m < 12
    ensures c.date > DaysInMonth(y, m) ==> m < 11 && 1 <= c.date - DaysInMonth(y, m) <= DaysInMonth(y, m + 1)
  {}
}
