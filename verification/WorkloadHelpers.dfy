/** The workload timeline's helpers over `YYYY-MM-DD` strings. */
module WorkloadHelpers {
  import opened Arithmetic
  import opened Calendar
  import opened Collections
  import opened IsoDate

  /** The instants `Date` can hold. */
  predicate Holds(t: Instant) { -100_000_000 * 86_400_000 <= t <= 100_000_000 * 86_400_000 }

  /**
    What `new Date(s)` makes of a string: its instant, or nothing when that is no date.  Date-only
    strings are read as the standard says; with any other string an engine does as it likes.
  */
  type Reader = string -> Option<Instant>

  ghost predicate Standard(read: Reader) {
    && (forall s :: ReadDate(s).Some? ==>
          read(s) == if Representable(ReadDate(s).value) then Some(MakeDate(ReadDate(s).value, 0)) else None)
    && (forall s :: read(s).Some? ==> Holds(read(s).value))
  }

  /** The first ten characters of an instant's string; `None` where `toISOString()` throws a RangeError. */
  function Printed(t: Instant): Option<string> {
    if Holds(t) then HoldsItsDay(t); Some(DateOnly(DayOf(t))) else None
  }

  lemma HoldsItsDay(t: Instant)
    ensures Holds(t) ==> Representable(DayOf(t))
    ensures Holds(MakeDate(DayOf(t), 0)) <==> Representable(DayOf(t))
  {}

  function AddDays(read: Reader, dateStr: string, days: int): Option<string> {
    match read(dateStr)
    case None => None
    case Some(t) => Printed(SetUTCDate(t, GetUTCDate(t) + days))
  }

  lemma AddDaysMoves(read: Reader, dateStr: string, t: Instant, days: int)
    requires read(dateStr) == Some(t)
    ensures AddDays(read, dateStr, days) == Printed(t + days * 86_400_000)
  {
    hide SetUTCDate, GetUTCDate, Printed;
    SetDateShifts(t, days);
  }

  /** A printed day is read back at the midnight of the day it stands for. */
  lemma ReadBack(read: Reader, day: int)
    requires Standard(read) && Representable(day)
    ensures read(DateOnly(day))
            == if Representable(PrintedDay(day)) then Some(MakeDate(PrintedDay(day), 0)) else None
  {
    hide ReadDate, DateOnly, PrintedDay;
    ReadPrinted(day);
  }

  lemma PrintedDate(day: int, time: int)
    requires MIN_DAY <= day <= MAX_DAY && 0 <= time < 86_400_000
    ensures Representable(day) && Printed(MakeDate(day, time)) == Some(DateOnly(day))
  {
    hide DateOnly, MIN_DAY, MAX_DAY;
    CalendarIsShort();
    DayJoin(day, time);
  }

  lemma DaysLater(day: int, time: int, n: int)
    ensures MakeDate(day, time) + n * 86_400_000 == MakeDate(day + n, time)
  {}

  /** Adding `a` and then `b` days. */
  function AddTwice(read: Reader, dateStr: string, a: int, b: int): Option<string> {
    match AddDays(read, dateStr, a)
    case None => None
    case Some(stop) => AddDays(read, stop, b)
  }

  /** The second step starts at the midnight of the day that the first one's string stands for. */
  lemma AddTwiceMoves(read: Reader, dateStr: string, t: Instant, a: int, b: int)
    requires Standard(read) && read(dateStr) == Some(t)
    ensures var stop := t + a * 86_400_000;
      AddTwice(read, dateStr, a, b)
      == if Holds(stop) && Representable(PrintedDay(DayOf(stop))) then Printed(MakeDate(PrintedDay(DayOf(stop)) + b, 0))
         else None
  {
    hide Standard, AddDays, DateOnly, PrintedDay, DayOf, MakeDate;
    var stop := t + a * 86_400_000;
    AddDaysMoves(read, dateStr, t, a);
    HoldsItsDay(stop);
    if Holds(stop) {
      ReadBack(read, DayOf(stop));
      if Representable(PrintedDay(DayOf(stop))) {
        AddDaysMoves(read, DateOnly(DayOf(stop)), MakeDate(PrintedDay(DayOf(stop)), 0), b);
        DaysLater(PrintedDay(DayOf(stop)), 0, b);
      } else {
        NotADate(read, DateOnly(DayOf(stop)), b);
      }
    }
  }

  /**
    Adding days in two steps is adding their sum, whatever is added second, exactly when the
    stop between is a midnight in years 0..9999 or on the first of a month: the string of
    another stop has lost its time of day or its date.
  */
  lemma AddDaysAdds(read: Reader, dateStr: string, t: Instant, a: int)
    requires Standard(read) && read(dateStr) == Some(t) && Holds(t + a * 86_400_000)
    ensures var stop := t + a * 86_400_000;
      (forall b :: AddTwice(read, dateStr, a, b) == AddDays(read, dateStr, a + b))
      <==> TimeWithinDay(stop) == 0 && PrintedDay(DayOf(stop)) == DayOf(stop)
  {
    hide Standard, AddDays, AddTwice, Printed, PrintedDay, DayOf, TimeWithinDay;
    var stop := t + a * 86_400_000;
    var day := DayOf(stop);
    DaySplit(stop);
    HoldsItsDay(stop);
    forall b
      ensures AddTwice(read, dateStr, a, b)
              == if Representable(PrintedDay(day)) then Printed(MakeDate(PrintedDay(day) + b, 0)) else None
      ensures AddDays(read, dateStr, a + b) == Printed(MakeDate(day + b, TimeWithinDay(stop)))
    {
      AddTwiceMoves(read, dateStr, t, a, b);
      AddDaysMoves(read, dateStr, t, a + b);
      DaysLater(day, TimeWithinDay(stop), b);
    }
    if PrintedDay(day) != day {
      var b := LostDate(day, TimeWithinDay(stop));
      assert AddTwice(read, dateStr, a, b) != AddDays(read, dateStr, a + b);
    } else if TimeWithinDay(stop) != 0 {
      var b := LostTime(day, TimeWithinDay(stop));
      assert AddTwice(read, dateStr, a, b) != AddDays(read, dateStr, a + b);
    }
  }

  /** A stop whose date is cut off is told from the first of its month by going back to year 0. */
  lemma LostDate(day: int, time: int) returns (b: int)
    requires Representable(day) && PrintedDay(day) != day && 0 <= time < 86_400_000 && Holds(MakeDate(day, time))
    ensures Printed(MakeDate(day + b, time))
            != if Representable(PrintedDay(day)) then Printed(MakeDate(PrintedDay(day) + b, 0)) else None
  {
    hide DateOnly, PrintedDay, ParseDate, MIN_DAY, MAX_DAY, MakeDate, DayOf, CivilFromDay;
    PrintedDayIsExact(day);
    CalendarIsLong();
    if Representable(PrintedDay(day)) {
      b := MIN_DAY - PrintedDay(day);
      PrintedDate(day + b, time);
      PrintedDate(MIN_DAY, 0);
      ParsePrinted(MIN_DAY);
      ParsePrinted(day + b);
    } else {
      b := 0;
    }
  }

  /** A time of day that is cut off is missed on the last day `Date` can hold. */
  lemma LostTime(day: int, time: int) returns (b: int)
    requires Representable(day) && PrintedDay(day) == day && 0 < time < 86_400_000
    ensures Printed(MakeDate(day + b, time)) != Printed(MakeDate(PrintedDay(day) + b, 0))
  {
    hide DateOnly, PrintedDay;
    b := 100_000_000 - day;
  }

  /** From years 0..9999 to years 0..9999, adding days is additive, and adding none gives the string back. */
  lemma AddDaysInRange(read: Reader, dateStr: string, day: int, a: int, b: int)
    requires Standard(read) && ParseDate(dateStr) == Some(day) && MIN_DAY <= day + a <= MAX_DAY
    ensures AddDays(read, dateStr, 0) == Some(dateStr)
    ensures AddTwice(read, dateStr, a, b) == AddDays(read, dateStr, a + b)
  {
    hide Standard, ReadDate, ParseDate, AddDays, AddTwice, PrintedDay, DateOnly, MIN_DAY, MAX_DAY, DayOf;
    CalendarIsShort();
    PrintParsed(dateStr);
    ReadBack(read, day);
    PrintedDayIsExact(day);
    PrintedDayIsExact(day + a);
    DayJoin(day, 0);
    DayJoin(day + a, 0);
    AddDaysMoves(read, dateStr, MakeDate(day, 0), 0);
    AddDaysAdds(read, dateStr, MakeDate(day, 0), a);
  }

  /** `count` Mondays from `base`, any string at all; `None` when an `addDays` call throws. */
  method GenerateWeeks(read: Reader, count: int, base: string) returns (weeks: Option<seq<string>>)
    requires Standard(read)
    ensures count <= 0 ==> weeks == Some([])
    ensures count > 0 ==>
      weeks == match read(base)
               case None => None
               case Some(t) =>
                 if Holds(t + (count - 1) * 7 * 86_400_000) then Some(WeekStarts(DayOf(t), count)) else None
  {
    hide Standard, Holds, DateOnly, AddDays, DayOf;
    var out: seq<string> := [];
    var i := 0;
    while i < count
      invariant 0 <= i && (i <= count || i == 0)
      invariant i > 0 ==> read(base).Some? && Holds(read(base).value + (i - 1) * 7 * 86_400_000)
      invariant if read(base).Some? then |out| == i && out == WeekStarts(DayOf(read(base).value), i) else out == []
    {
      OneMoreWeek(read, base, i, count);
      var week := AddDays(read, base, i * 7);
      if week.None? {
        return None;
      }
      out := out + [week.value];
      i := i + 1;
    }
    weeks := Some(out);
  }

  /** A week past the range of `Date` stays past it. */
  lemma OneMoreWeek(read: Reader, base: string, i: nat, count: int)
    requires Standard(read) && i < count
    ensures read(base).None? ==> AddDays(read, base, i * 7) == None
    ensures read(base).Some? ==>
      var t := read(base).value;
      var week := AddDays(read, base, i * 7);
      && (week.None? <==> !Holds(t + i * 7 * 86_400_000))
      && (week.None? ==> !Holds(t + (count - 1) * 7 * 86_400_000))
      && (week.Some? ==> WeekStarts(DayOf(t), i + 1) == WeekStarts(DayOf(t), i) + [week.value])
  {
    hide DateOnly, ReadDate, SetUTCDate, GetUTCDate;
    if read(base).Some? {
      var t := read(base).value;
      AddDaysMoves(read, base, t, i * 7);
      HoldsItsDay(t + i * 7 * 86_400_000);
      assert DayOf(t + i * 7 * 86_400_000) == DayOf(t) + i * 7;
    }
  }

  /** The date strings of `n` weeks from day `b`. */
  function WeekStarts(b: int, n: nat): (weeks: seq<string>)
    ensures |weeks| == n
    decreases n
  {
    if n == 0 then []
    else WeekStarts(b, n - 1) + [if Representable(b + (n - 1) * 7) then DateOnly(b + (n - 1) * 7) else ""]
  }

  datatype Assignment = Assignment(allocationPercent: int, validFrom: string, validTo: Option<string>)

  const NO_END := "9999-12-31"

  function AssignmentOverlapsWeek(read: Reader, a: Assignment, weekStart: string): Option<bool> {
    match AddDays(read, weekStart, 7)
    case None => None
    case Some(weekEnd) =>
      var end := if a.validTo.Some? then a.validTo.value else NO_END;
      Some(StringLess(a.validFrom, weekEnd) && StringLess(weekStart, end))
  }

  /** A date, or a timestamp that starts with one. */
  predicate StartsWithDate(s: string) { |s| >= 10 && ParseDate(s[..10]).Some? }

  predicate Readable(a: Assignment) {
    StartsWithDate(a.validFrom) && (a.validTo.Some? ==> StartsWithDate(a.validTo.value))
  }

  function FromDay(a: Assignment): int
    requires Readable(a)
  {
    ParseDate(a.validFrom[..10]).value
  }

  /**
    The first day the assignment no longer reaches.  A bare end date is that day itself; an
    end with a time of day still reaches its own day.
  */
  function EndDay(a: Assignment): int
    requires Readable(a) && a.validTo.Some?
  {
    ParseDate(a.validTo.value[..10]).value + if |a.validTo.value| > 10 then 1 else 0
  }

  /** The overlap in days, with no string in sight; outside years 0..9999 there is none. */
  predicate OverlapsDay(a: Assignment, w: int)
    requires Readable(a)
  {
    MIN_DAY <= w && w + 7 <= MAX_DAY && FromDay(a) < w + 7 && (a.validTo.Some? ==> w < EndDay(a))
  }

  /**
    For every week start that `addDays` can print the string comparison decides exactly the
    overlap of days.  The sentinel end date is after every week start that passes the first
    test, so it always acts as "no end"; a week that starts before year 0 or ends after year
    9999 overlaps nothing, and one whose month begins before the range of `Date` throws.
  */
  lemma OverlapIsByDay(read: Reader, a: Assignment, w: int)
    requires Standard(read) && Readable(a) && Representable(w)
    ensures AssignmentOverlapsWeek(read, a, DateOnly(w))
            == if Representable(PrintedDay(w)) then Some(OverlapsDay(a, w)) else None
  {
    hide Standard, ParseDate, DateOnly, AddDays, MIN_DAY, MAX_DAY, StringLess, PrintedDay, Holds, DayOf;
    CalendarIsShort();
    PrintedDayIsExact(w);
    var first := PrintedDay(w);
    ReadBack(read, w);
    if Representable(first) {
      WeekEnd(read, w);
      if MIN_DAY <= w <= MAX_DAY {
        OverlapInRange(a, w);
      } else {
        OutsideSortsFirst(a.validFrom, FromDay(a), first + 7);
      }
    } else {
      NotADate(read, DateOnly(w), 7);
    }
  }

  lemma NotADate(read: Reader, s: string, days: int)
    requires read(s).None?
    ensures AddDays(read, s, days) == None
  {}

  /** A week starting outside years 0..9999 also ends outside them. */
  lemma WeekEnd(read: Reader, w: int)
    requires Standard(read) && Representable(w) && Representable(PrintedDay(w))
    ensures var end := PrintedDay(w) + 7;
      && Representable(end) && AddDays(read, DateOnly(w), 7) == Some(DateOnly(end))
      && (!(MIN_DAY <= w <= MAX_DAY) ==> !(MIN_DAY <= end <= MAX_DAY))
  {
    hide Standard, DateOnly, AddDays, MIN_DAY, MAX_DAY, PrintedDay, DayOf, CivilFromDay;
    CalendarIsShort();
    PrintedDayIsExact(w);
    var first := PrintedDay(w);
    ReadBack(read, w);
    AddDaysMoves(read, DateOnly(w), MakeDate(first, 0), 7);
    DayJoin(first + 7, 0);
    if !(MIN_DAY <= w <= MAX_DAY) {
      FirstWeekStaysOutside(w);
      MonthsEndEarly(first);
    }
  }

  lemma OverlapInRange(a: Assignment, w: int)
    requires Readable(a) && MIN_DAY <= w <= MAX_DAY
    ensures Representable(w) && Representable(w + 7)
    ensures var end := if a.validTo.Some? then a.validTo.value else NO_END;
      StringLess(a.validFrom, DateOnly(w + 7)) && StringLess(DateOnly(w), end) <==> OverlapsDay(a, w)
  {
    hide ParseDate, DateOnly, MIN_DAY, MAX_DAY, StringLess;
    CalendarIsShort();
    if w + 7 <= MAX_DAY {
      PrefixedOrder(a.validFrom, FromDay(a), w + 7);
      if a.validTo.Some? {
        PrefixedOrder(a.validTo.value, ParseDate(a.validTo.value[..10]).value, w);
      } else {
        SentinelIsLast();
        PrefixedOrder(NO_END, MAX_DAY, w);
      }
    } else {
      OutsideSortsFirst(a.validFrom, FromDay(a), w + 7);
    }
  }

  lemma ReadTwo(a: char, b: char)
    requires IsDigit(a) && IsDigit(b)
    ensures ReadDigits([a, b]) == 10 * (a as int - 48) + (b as int - 48)
  {
    ReadAppend([], a);
    ReadAppend([a], b);
    assert [] + [a] == [a] && [a] + [b] == [a, b];
  }

  lemma NinesAndTwelve()
    ensures AllDigits("9999") && AllDigits("12") && ReadDigits("9999") == 9999 && ReadDigits("12") == 12
  {
    hide ReadDigits;
    ReadTwo('9', '9');
    ReadTwo('1', '2');
    ReadAppend("99", '9');
    ReadAppend("999", '9');
    assert "99" + ['9'] == "999" && "999" + ['9'] == "9999";
  }

  lemma SentinelIsLast()
    ensures |NO_END| == 10 && NO_END[..10] == NO_END && ParseDate(NO_END) == Some(MAX_DAY)
  {
    hide ReadDigits, DayFromYear;
    NinesAndTwelve();
    ReadTwo('3', '1');
    assert NO_END[..4] == "9999" && NO_END[5..7] == "12" && NO_END[8..] == "31";
  }

  /** The days before the sentinel, by their date in its month. */
  lemma LateDecember(s: string, c: char, e: char)
    requires IsDigit(c) && IsDigit(e) && s == "9999-12-" + [c, e]
    ensures var d := 10 * (c as int - 48) + (e as int - 48);
      1 <= d <= 31 ==> ParseDate(s) == Some(MAX_DAY + d - 31)
  {
    hide ReadDigits, DayFromYear, DaysBeforeMonth, DaysInMonth, MakeDay;
    NinesAndTwelve();
    SentinelIsLast();
    ReadTwo('3', '1');
    ReadTwo(c, e);
    assert s[..4] == "9999" && s[5..7] == "12" && s[8..] == [c, e];
    assert NO_END[..4] == "9999" && NO_END[5..7] == "12" && NO_END[8..] == "31";
  }

  /** The week that ends after year 9999 is not overlapped even by an assignment without an end. */
  lemma NoEndMayEnd(read: Reader, a: Assignment)
    requires Standard(read) && Readable(a) && a.validTo.None?
    ensures AssignmentOverlapsWeek(read, a, "9999-12-27") == Some(false)
  {
    hide Standard, ParseDate, AssignmentOverlapsWeek, MAX_DAY, MIN_DAY, DateOnly, PrintedDay;
    CalendarIsShort();
    LateDecember("9999-12-27", '2', '7');
    PrintParsed("9999-12-27");
    PrintedDayIsExact(MAX_DAY - 4);
    OverlapIsByDay(read, a, MAX_DAY - 4);
  }

  /** Two days on from the last date of year 9999 and two days back is the day before. */
  lemma AddDaysMayLoseADay(read: Reader)
    requires Standard(read)
    ensures AddTwice(read, "9999-12-31", 2, -2) == Some("9999-12-30")
    ensures AddDays(read, "9999-12-31", 0) == Some("9999-12-31")
  {
    hide Standard, ParseDate, ReadDate, AddTwice, AddDays, MAX_DAY, MIN_DAY, DateOnly, PrintedDay, DayOf;
    var s, t := "9999-12-31", MakeDate(MAX_DAY, 0);
    CalendarIsShort();
    LateDecember(s, '3', '1');
    LateDecember("9999-12-30", '3', '0');
    PrintParsed(s);
    PrintParsed("9999-12-30");
    PrintedDayIsExact(MAX_DAY);
    ReadBack(read, MAX_DAY);
    SecondOfJanuary();
    DayJoin(MAX_DAY, 0);
    DayJoin(MAX_DAY - 1, 0);
    DayJoin(MAX_DAY + 2, 0);
    AddDaysMoves(read, s, t, 0);
    AddTwiceMoves(read, s, t, 2, -2);
  }

  lemma SecondOfJanuary()
    ensures PrintedDay(MAX_DAY + 2) == MAX_DAY + 1
  {
    hide CivilFromDay, DayFromYear;
    YearLength(9999);
    CivilRoundTrip(Civil(10000, 0, 2));
  }

  // ----- Weekly totals

  function GetTotalAllocationForWeek(read: Reader, assignments: seq<Assignment>, weekStart: string): Option<int> {
    if assignments == [] then Some(0)
    else
      var a := assignments[|assignments| - 1];
      var rest := GetTotalAllocationForWeek(read, assignments[..|assignments| - 1], weekStart);
      match (rest, AssignmentOverlapsWeek(read, a, weekStart))
      case (Some(sum), Some(overlaps)) => Some(if overlaps then sum + a.allocationPercent else sum)
      case _ => None
  }

  /** The totals of several weeks together. */
  function SumOfWeeks(read: Reader, assignments: seq<Assignment>, weeks: seq<string>): Option<int> {
    if weeks == [] then Some(0)
    else
      var rest := SumOfWeeks(read, assignments, weeks[..|weeks| - 1]);
      match (rest, GetTotalAllocationForWeek(read, assignments, weeks[|weeks| - 1]))
      case (Some(sum), Some(total)) => Some(sum + total)
      case _ => None
  }

  lemma TotalOfOneMore(read: Reader, assignments: seq<Assignment>, weekStart: string)
    requires assignments != []
    ensures var k := |assignments| - 1;
      var rest, own := GetTotalAllocationForWeek(read, assignments[..k], weekStart),
                       AssignmentOverlapsWeek(read, assignments[k], weekStart);
      GetTotalAllocationForWeek(read, assignments, weekStart)
      == if rest.Some? && own.Some? then Some(rest.value + if own.value then assignments[k].allocationPercent else 0)
         else None
  {
    hide AssignmentOverlapsWeek;
  }

  /** The total of one more week from day `b` on. */
  lemma SumOfOneMore(read: Reader, assignments: seq<Assignment>, b: int, n: nat)
    requires Representable(b + n * 7)
    ensures var rest := SumOfWeeks(read, assignments, WeekStarts(b, n));
      var own := GetTotalAllocationForWeek(read, assignments, DateOnly(b + n * 7));
      SumOfWeeks(read, assignments, WeekStarts(b, n + 1))
      == if rest.Some? && own.Some? then Some(rest.value + own.value) else None
  {
    hide GetTotalAllocationForWeek, DateOnly;
    var weeks := WeekStarts(b, n + 1);
    assert weeks[..n] == WeekStarts(b, n);
  }

  predicate AllReadable(assignments: seq<Assignment>) {
    forall i :: 0 <= i < |assignments| ==> Readable(assignments[i])
  }

  /** How many of the `n` weeks from day `b` an assignment overlaps. */
  function WeeksOverlapped(a: Assignment, b: int, n: nat): nat
    requires Readable(a)
  {
    if n == 0 then 0
    else WeeksOverlapped(a, b, n - 1) + if OverlapsDay(a, b + (n - 1) * 7) then 1 else 0
  }

  function Weighted(assignments: seq<Assignment>, b: int, n: nat): int
    requires AllReadable(assignments)
  {
    if assignments == [] then 0
    else
      var k := |assignments| - 1;
      Weighted(assignments[..k], b, n) + assignments[k].allocationPercent * WeeksOverlapped(assignments[k], b, n)
  }

  /** A week's total is what each assignment adds to the count of its weeks; without assignments nothing can throw. */
  lemma {:induction false} WeekAddsItsTotal(read: Reader, assignments: seq<Assignment>, b: int, n: nat)
    requires Standard(read) && AllReadable(assignments) && Representable(b + n * 7)
    ensures GetTotalAllocationForWeek(read, assignments, DateOnly(b + n * 7))
            == if assignments == [] || Representable(PrintedDay(b + n * 7))
               then Some(Weighted(assignments, b, n + 1) - Weighted(assignments, b, n)) else None
  {
    hide Standard, PrintedDay, DateOnly, OverlapsDay, AssignmentOverlapsWeek, Readable;
    if assignments != [] {
      var k := |assignments| - 1;
      WeekAddsItsTotal(read, assignments[..k], b, n);
      TotalOfOneMore(read, assignments, DateOnly(b + n * 7));
      var a := assignments[k];
      OverlapIsByDay(read, a, b + n * 7);
      OneMore(a.allocationPercent, WeeksOverlapped(a, b, n), WeeksOverlapped(a, b, n + 1));
    }
  }

  lemma OneMore(p: int, x: int, y: int)
    ensures y == x + 1 ==> p * y == p * x + p
  {}

  /**
    Double counting, over any weeks `Date` can hold: the weekly totals of the timeline add up
    to each assignment's percentage times the number of weeks it overlaps.  They throw only
    when there are assignments and the first week's month begins before the range of `Date`.
  */
  lemma {:induction false} TotalsByAssignment(read: Reader, assignments: seq<Assignment>, b: int, n: nat)
    requires Standard(read) && AllReadable(assignments)
    requires Representable(b) && (n > 0 ==> Representable(b + (n - 1) * 7))
    ensures SumOfWeeks(read, assignments, WeekStarts(b, n))
            == if n == 0 || assignments == [] || Representable(PrintedDay(b)) then Some(Weighted(assignments, b, n))
               else None
  {
    hide Standard, DateOnly, PrintedDay, GetTotalAllocationForWeek, SumOfWeeks, WeekStarts, Weighted, AllReadable;
    NoWeeks(assignments, b);
    if n == 0 {
      NoWeeksNoSum(read, assignments, b);
    } else {
      TotalsByAssignment(read, assignments, b, n - 1);
      SumOfOneMore(read, assignments, b, n - 1);
      WeekAddsItsTotal(read, assignments, b, n - 1);
      LaterWeeksAreReadable(b, n - 1);
    }
  }

  /** The weeks after a readable one are readable. */
  lemma LaterWeeksAreReadable(b: int, k: nat)
    requires Representable(b) && Representable(b + k * 7)
    ensures Representable(PrintedDay(b)) ==> Representable(PrintedDay(b + k * 7))
    ensures k == 0 ==> b + k * 7 == b
  {
    hide PrintedDay, CivilFromDay, MIN_DAY, MAX_DAY;
    PrintedDayAscends(b, b + k * 7);
    PrintedDayIsExact(b + k * 7);
  }

  lemma NoWeeksNoSum(read: Reader, assignments: seq<Assignment>, b: int)
    ensures SumOfWeeks(read, assignments, WeekStarts(b, 0)) == Some(0)
  {}

  lemma {:induction false} NoWeeks(assignments: seq<Assignment>, b: int)
    requires AllReadable(assignments)
    ensures Weighted(assignments, b, 0) == 0
  {
    hide Readable, OverlapsDay;
    if assignments != [] {
      NoWeeks(assignments[..|assignments| - 1], b);
    }
  }

  // ----- The weeks an assignment covers form one block

  /** The first week overlapped: not before the assignment starts, nor before year 0. */
  function FirstWeek(a: Assignment, b: int): int
    requires Readable(a)
  {
    Max((FromDay(a) - b) / 7, (MIN_DAY - b + 6) / 7)
  }

  /** The week after the last one overlapped: bounded by the end date and by year 9999. */
  function PastWeek(a: Assignment, b: int): int
    requires Readable(a)
  {
    var horizon := (MAX_DAY - b) / 7;
    if a.validTo.None? then horizon
    else
      var end := (EndDay(a) - b + 6) / 7;
      if end < horizon then end else horizon
  }

  lemma OverlapIsABlock(a: Assignment, b: int, i: int)
    requires Readable(a)
    ensures OverlapsDay(a, b + i * 7) <==> FirstWeek(a, b) <= i < PastWeek(a, b)
  {
    hide MAX_DAY, MIN_DAY, ParseDate;
    assert FromDay(a) < b + i * 7 + 7 <==> (FromDay(a) - b) / 7 <= i;
    assert MIN_DAY <= b + i * 7 <==> (MIN_DAY - b + 6) / 7 <= i;
  }

  /** The number of weeks overlapped, in closed form. */
  lemma {:induction false} WeeksOverlappedClosedForm(a: Assignment, b: int, n: nat)
    requires Readable(a)
    ensures WeeksOverlapped(a, b, n) == Max(0, Min(PastWeek(a, b), n) - Max(FirstWeek(a, b), 0))
  {
    hide OverlapsDay, FirstWeek, PastWeek;
    if n > 0 {
      WeeksOverlappedClosedForm(a, b, n - 1);
      OverlapIsABlock(a, b, n - 1);
    }
  }
}
