/** `addBusinessDays`: the SLA clock's walk over weekdays. */
module BusinessDays {
  import opened Calendar

  /** Days since Monday: 0 is Monday, 5 and 6 the weekend. */
  function FromMonday(t: Instant): (r: nat)
    ensures r <= 6
  {
    (DayOf(t) + 3) % 7
  }

  predicate IsWeekday(t: Instant) { FromMonday(t) <= 4 }

  /** How many of the k days after `start` are weekdays. */
  function WeekdaysAfter(start: Instant, k: nat): nat {
    if k == 0 then 0
    else WeekdaysAfter(start, k - 1) + if IsWeekday(start + k * 86_400_000) then 1 else 0
  }

  /**
    The walk's length in days, in closed form: every fifth weekday costs a weekend, and
    a weekend start behaves as the Friday before it.
  */
  function Shift(fromMonday: nat, n: nat): int {
    if n == 0 then 0
    else
      var first := if fromMonday < 4 then fromMonday else 4;
      n + 2 * ((first + n) / 5) - (fromMonday - first)
  }

  /** How many weekend days follow before the next weekday. */
  function WeekendAhead(fromMonday: nat): nat { if 4 <= fromMonday <= 6 then 6 - fromMonday else 0 }

  lemma DaysOn(t: Instant, k: int)
    ensures FromMonday(t + k * 86_400_000) == (FromMonday(t) + k) % 7
  {
    WholeDays(t, k);
    hide DayOf;
    ModSeven(DayOf(t) + 3, k);
  }

  lemma ModSeven(x: int, k: int)
    ensures (x + k) % 7 == (x % 7 + k) % 7
  {}

  lemma {:induction false} WeekdayCount(start: Instant, k: nat)
    ensures var p := FromMonday(start) + k;
            WeekdaysAfter(start, k)
            == 5 * (p / 7) + (if p % 7 < 4 then p % 7 else 4) - (if FromMonday(start) < 4 then FromMonday(start) else 4)
  {
    if k > 0 {
      WeekdayCount(start, k - 1);
      DaysOn(start, k);
    }
  }

  /** A weekday that is the n-th one after `start` lies exactly `Shift` days on: count and weekday fix the date. */
  lemma NthWeekday(start: Instant, k: nat, n: nat)
    requires n > 0 && WeekdaysAfter(start, k) == n
    requires IsWeekday(start + k * 86_400_000)
    ensures k == Shift(FromMonday(start), n)
  {
    WeekdayCount(start, k);
    DaysOn(start, k);
    ClosedForm(FromMonday(start), k, n);
  }

  lemma ClosedForm(f: nat, k: nat, n: nat)
    requires f <= 6 && n > 0 && (f + k) % 7 <= 4
    requires 5 * ((f + k) / 7) + (f + k) % 7 - (if f < 4 then f else 4) == n
    ensures k == Shift(f, n)
  {
    var first := if f < 4 then f else 4;
    assert (first + n) / 5 == (f + k) / 7;
  }

  /**
    The result is `days` weekdays after `start`, is itself a weekday, keeps the time of
    day, and is given by the closed form; no days, or a negative number, changes nothing.
  */
  method AddBusinessDays(start: Instant, days: int) returns (out: Instant)
    ensures days <= 0 ==> out == start
    ensures days > 0 ==>
      var k := Shift(FromMonday(start), days);
      k >= days && out == start + k * 86_400_000 && IsWeekday(out) && WeekdaysAfter(start, k) == days
  {
    hide SetUTCDate, GetUTCDate, GetUTCDay, DayOf, FromMonday, Shift;
    out := start;
    var remaining := days;
    ghost var k: nat := 0;
    while remaining > 0
      invariant out == start + k * 86_400_000
      invariant days <= 0 ==> remaining == days && k == 0
      invariant days > 0 ==> 0 <= remaining <= days && days - remaining <= k
      invariant days > 0 ==> WeekdaysAfter(start, k) == days - remaining
      invariant days > 0 && remaining == 0 ==> IsWeekday(out)
      decreases remaining, WeekendAhead(FromMonday(out))
    {
      StepDay(out);
      out := SetUTCDate(out, GetUTCDate(out) + 1);
      k := k + 1;
      var dow := GetUTCDay(out);
      if dow != 0 && dow != 6 {
        remaining := remaining - 1;
      }
    }
    if days > 0 {
      NthWeekday(start, k, days);
    }
  }

  lemma StepDay(t: Instant)
    ensures var u := SetUTCDate(t, GetUTCDate(t) + 1);
            && u == t + 86_400_000
            && FromMonday(u) == (FromMonday(t) + 1) % 7
            && (IsWeekday(u) <==> GetUTCDay(u) != 0 && GetUTCDay(u) != 6)
  {
    hide SetUTCDate, GetUTCDate;
    SetDateShifts(t, 1);
    DaysOn(t, 1);
  }

  /** Walking m and then n weekdays is walking m + n weekdays. */
  lemma ShiftAdds(start: Instant, m: nat, n: nat)
    ensures Shift(FromMonday(start), m + n)
            == Shift(FromMonday(start), m) + Shift(FromMonday(start + Shift(FromMonday(start), m) * 86_400_000), n)
  {
    var f := FromMonday(start);
    DaysOn(start, Shift(f, m));
    ShiftLands(f, m);
  }

  lemma ShiftLands(f: nat, m: nat)
    requires f <= 6
    ensures m > 0 ==> (f + Shift(f, m)) % 7 == ((if f < 4 then f else 4) + m) % 5
  {
    var p := (if f < 4 then f else 4) + m;
    if m > 0 {
      assert f + Shift(f, m) == 7 * (p / 5) + p % 5;
    }
  }
}
