/**
  The `YYYY-MM-DD` strings of ECMA-262 5.1 section 15.9.1.15 (`full-date` in section 5.6
  of RFC 3339): printing, reading, and the code-unit order JavaScript's `<` puts on them.
*/
module IsoDate {
  import opened Calendar
  import opened Collections

  const MIN_DAY: int := MakeDay(0, 0, 1)
  const MAX_DAY: int := MakeDay(9999, 11, 31)

  // ----- Digits

  predicate IsDigit(c: char) { '0' <= c <= '9' }

  function Pow10(k: nat): nat { if k == 0 then 1 else 10 * Pow10(k - 1) }

  /** `n` as `width` decimal digits, zero-padded. */
  function Digits(n: nat, width: nat): (s: string)
    ensures |s| == width && forall i :: 0 <= i < width ==> IsDigit(s[i])
  {
    if width == 0 then "" else Digits(n / 10, width - 1) + [(n % 10 + 48) as char]
  }

  function ReadDigits(s: string): (n: nat)
    requires forall i :: 0 <= i < |s| ==> IsDigit(s[i])
    ensures n < Pow10(|s|)
  {
    if s == [] then 0
    else
      assert IsDigit(s[|s| - 1]);
      10 * ReadDigits(s[..|s| - 1]) + (s[|s| - 1] as int - 48)
  }

  lemma {:induction false} ReadWritten(n: nat, width: nat)
    requires n < Pow10(width)
    ensures ReadDigits(Digits(n, width)) == n
  {
    if width > 0 {
      var s := Digits(n, width);
      assert s[..width - 1] == Digits(n / 10, width - 1);
      ReadWritten(n / 10, width - 1);
    }
  }

  lemma ReadAppend(s: string, c: char)
    requires IsDigit(c) && forall i :: 0 <= i < |s| ==> IsDigit(s[i])
    ensures ReadDigits(s + [c]) == 10 * ReadDigits(s) + (c as int - 48)
  {
    assert (s + [c])[..|s|] == s;
  }

  lemma LastDigit(r: nat, v: nat)
    requires v < 10
    ensures (10 * r + v) / 10 == r && (10 * r + v) % 10 == v
  {}

  lemma {:induction false} WriteRead(s: string)
    requires forall i :: 0 <= i < |s| ==> IsDigit(s[i])
    ensures Digits(ReadDigits(s), |s|) == s
  {
    if s != [] {
      var init, c := s[..|s| - 1], s[|s| - 1];
      WriteRead(init);
      assert IsDigit(c);
      LastDigit(ReadDigits(init), c as int - 48);
      assert s == init + [c];
    }
  }

  // ----- String order

  /** JavaScript's `a < b` on strings: code unit by code unit, a proper prefix first. */
  predicate StringLess(a: string, b: string) {
    if b == "" then false
    else if a == "" then true
    else a[0] < b[0] || (a[0] == b[0] && StringLess(a[1..], b[1..]))
  }

  lemma {:induction false} LessOfParts(a: string, b: string, x: string, y: string)
    requires |a| == |b|
    ensures StringLess(a + x, b + y) <==> StringLess(a, b) || (a == b && StringLess(x, y))
  {
    if a == "" {
      assert a + x == x && b + y == y;
    } else {
      assert (a + x)[1..] == a[1..] + x && (b + y)[1..] == b[1..] + y;
      assert (a == b) <==> (a[0] == b[0] && a[1..] == b[1..]) by {
        assert a == [a[0]] + a[1..] && b == [b[0]] + b[1..];
      }
      LessOfParts(a[1..], b[1..], x, y);
    }
  }

  lemma {:induction false} DigitOrder(m: nat, n: nat, width: nat)
    requires m < Pow10(width) && n < Pow10(width)
    ensures StringLess(Digits(m, width), Digits(n, width)) <==> m < n
    ensures Digits(m, width) == Digits(n, width) <==> m == n
  {
    hide ReadDigits;
    ReadWritten(m, width);
    ReadWritten(n, width);
    if width > 0 {
      DigitOrder(m / 10, n / 10, width - 1);
      var x, y := [(m % 10 + 48) as char], [(n % 10 + 48) as char];
      LessOfParts(Digits(m / 10, width - 1), Digits(n / 10, width - 1), x, y);
      assert StringLess(x, y) <==> m % 10 < n % 10;
    }
  }

  // ----- Dates

  /** The range of days `Date` can hold. */
  predicate Representable(day: int) { -100_000_000 <= day <= 100_000_000 }

  /** The first ten characters of `toISOString()`; years outside 0..9999 take a sign and six digits. */
  function DateOnly(day: int): (s: string)
    requires Representable(day)
    ensures |s| == 10
  {
    var c := CivilFromDay(day);
    if 0 <= c.year <= 9999 then FieldString(c)
    else SignOf(c.year) + (Digits(Magnitude(c.year), 6) + ("-" + Digits(c.month + 1, 2)))
  }

  /** A date of years 0..9999 in full. */
  function FieldString(c: Civil): (s: string)
    requires c.Valid() && 0 <= c.year
    ensures |s| == 10
  {
    Digits(c.year, 4) + ("-" + (Digits(c.month + 1, 2) + ("-" + Digits(c.date, 2))))
  }

  function SignOf(n: int): string { if n < 0 then "-" else "+" }

  function Magnitude(n: int): nat { if n < 0 then -n else n }

  predicate AllDigits(s: string) { forall i :: 0 <= i < |s| ==> IsDigit(s[i]) }

  predicate DateShaped(s: string) {
    |s| == 10 && s[4] == '-' && s[7] == '-' && AllDigits(s[..4]) && AllDigits(s[5..7]) && AllDigits(s[8..])
  }

  /** The day with the given year, month (from 1) and date, if there is one. */
  function DayWith(y: int, m: int, d: int): Option<int> {
    if 1 <= m <= 12 && 1 <= d <= DaysInMonth(y, m - 1) then Some(MakeDay(y, m - 1, d)) else None
  }

  /** The day a `YYYY-MM-DD` string names. */
  function ParseDate(s: string): Option<int> {
    if DateShaped(s) then DayWith(ReadDigits(s[..4]), ReadDigits(s[5..7]), ReadDigits(s[8..])) else None
  }

  // ----- Every date-only form: the year may be signed, with six digits; month and date may be missing

  function YearWidth(s: string): (n: nat)
    ensures n == 4 || n == 7
  {
    if s != "" && (s[0] == '+' || s[0] == '-') then 7 else 4
  }

  /** The year a string starts with; there is no year -0. */
  function ReadYear(s: string): Option<int> {
    if |s| < YearWidth(s) then None
    else if YearWidth(s) == 4 then if AllDigits(s[..4]) then Some(ReadDigits(s[..4])) else None
    else if !AllDigits(s[1..7]) || (s[0] == '-' && ReadDigits(s[1..7]) == 0) then None
    else
      var n: int := ReadDigits(s[1..7]);
      Some(if s[0] == '-' then -n else n)
  }

  /** The day in year `y` named by what follows the year. */
  function ReadInYear(y: int, rest: string): Option<int> {
    if rest == "" then DayWith(y, 1, 1)
    else if |rest| == 3 && rest[0] == '-' && AllDigits(rest[1..]) then DayWith(y, ReadDigits(rest[1..]), 1)
    else if |rest| == 6 && rest[0] == '-' && rest[3] == '-' && AllDigits(rest[1..3]) && AllDigits(rest[4..]) then
      DayWith(y, ReadDigits(rest[1..3]), ReadDigits(rest[4..]))
    else None
  }

  /** The day a date-only string names; nothing for a string of no such form. */
  function ReadDate(s: string): Option<int> {
    match ReadYear(s)
    case None => None
    case Some(y) => ReadInYear(y, s[YearWidth(s)..])
  }

  lemma YearRange(day: int)
    ensures 0 <= CivilFromDay(day).year <= 9999 <==> MIN_DAY <= day <= MAX_DAY
  {
    var c := CivilFromDay(day);
    assert MIN_DAY == DayFromYear(0);
    YearLength(9999);
    assert MAX_DAY + 1 == DayFromYear(10000);
    var y := YearFromDay(day);
    assert c.year == y;
    if y < 0 { YearsAscend(y + 1, 0); }
    if 0 <= y { YearsAscend(0, y); }
    if 9999 < y { YearsAscend(10000, y); }
    if y <= 9999 { YearsAscend(y + 1, 10000); }
  }

  lemma CalendarIsShort()
    ensures -100_000_000 <= MIN_DAY && MAX_DAY <= 10_000_000
  {}

  lemma CalendarIsLong()
    ensures MIN_DAY + 366 <= MAX_DAY
  {}

  lemma FieldsFit(c: Civil)
    requires c.Valid() && 0 <= c.year <= 9999
    ensures c.year < Pow10(4) && c.month + 1 < Pow10(2) && 0 <= c.date < Pow10(2)
  {
    assert Pow10(2) == 10 * Pow10(1) == 100;
    assert Pow10(4) == 10 * Pow10(3) == 100 * Pow10(2);
  }

  /** Every printed date in years 0..9999 is read back as the day it was printed from. */
  lemma ParsePrinted(day: int)
    requires MIN_DAY <= day <= MAX_DAY
    ensures Representable(day)
    ensures ParseDate(DateOnly(day)) == Some(day)
  {
    hide CivilFromDay, MakeDay, MIN_DAY, MAX_DAY, FieldString, ParseDate;
    CalendarIsShort();
    YearRange(day);
    ParseFields(CivilFromDay(day));
    DayRoundTrip(day);
  }

  lemma ParseFields(c: Civil)
    requires c.Valid() && 0 <= c.year <= 9999
    ensures ParseDate(FieldString(c)) == Some(MakeDay(c.year, c.month, c.date))
  {
    hide MakeDay, DaysInMonth, DaysBeforeMonth, Digits, ReadDigits, Pow10;
    FieldsFit(c);
    var s := FieldString(c);
    assert s[..4] == Digits(c.year, 4) && s[5..7] == Digits(c.month + 1, 2) && s[8..] == Digits(c.date, 2);
    ReadWritten(c.year, 4);
    ReadWritten(c.month + 1, 2);
    ReadWritten(c.date, 2);
  }

  lemma FourDigits(s: string)
    requires |s| == 4 && forall i :: 0 <= i < |s| ==> IsDigit(s[i])
    ensures ReadDigits(s) <= 9999
  {
    hide ReadDigits;
    assert Pow10(4) == 10 * Pow10(3) == 100 * Pow10(2) == 1000 * Pow10(1);
  }

  /** A string that reads as a day is the very string that day prints as. */
  lemma PrintParsed(s: string)
    requires ParseDate(s).Some?
    ensures MIN_DAY <= ParseDate(s).value <= MAX_DAY
    ensures Representable(ParseDate(s).value)
    ensures DateOnly(ParseDate(s).value) == s
  {
    hide CivilFromDay, MakeDay, DaysInMonth, DaysBeforeMonth, MIN_DAY, MAX_DAY, Digits, ReadDigits, Pow10;
    CalendarIsShort();
    var y, m, d := ReadDigits(s[..4]), ReadDigits(s[5..7]), ReadDigits(s[8..]);
    FourDigits(s[..4]);
    var c := Civil(y, m - 1, d);
    CivilRoundTrip(c);
    YearRange(MakeDay(y, m - 1, d));
    WriteRead(s[..4]);
    WriteRead(s[5..7]);
    WriteRead(s[8..]);
    assert s == s[..4] + ("-" + (s[5..7] + ("-" + s[8..])));
  }

  /** Reading any date-only form agrees with reading a full date. */
  lemma ReadParsed(s: string)
    requires ParseDate(s).Some?
    ensures ReadDate(s) == ParseDate(s)
  {
    hide ReadDigits, DayWith;
    PrintParsed(s);
    assert IsDigit(s[..4][0]);
    var rest := s[4..];
    assert rest[1..3] == s[5..7] && rest[4..] == s[8..];
  }

  lemma YearMagnitude(day: int)
    requires Representable(day)
    ensures Magnitude(CivilFromDay(day).year) < 1_000_000
  {
    hide YearFromDay;
    var y := YearFromDay(day);
    assert CivilFromDay(day).year == y;
    if y >= 1_000_000 {
      YearsAscend(1970, y);
    }
    if y <= -1_000_000 {
      YearsAscend(y + 1, 1970);
    }
  }

  /** The day a printed date stands for: past years 0..9999 the date of the month is cut off. */
  function PrintedDay(day: int): int {
    var c := CivilFromDay(day);
    if 0 <= c.year <= 9999 then day else MakeDay(c.year, c.month, 1)
  }

  /** A printed date stands for its own day exactly in years 0..9999 and on the first of a month. */
  lemma PrintedDayIsExact(day: int)
    ensures PrintedDay(day) == day <==> MIN_DAY <= day <= MAX_DAY || CivilFromDay(day).date == 1
    ensures PrintedDay(day) <= day <= PrintedDay(day) + 30
  {
    hide CivilFromDay, MIN_DAY, MAX_DAY, DaysInMonth, DayFromYear, DaysBeforeMonth;
    YearRange(day);
    DayRoundTrip(day);
    var c := CivilFromDay(day);
    MonthIsShort(c);
    assert MakeDay(c.year, c.month, c.date) == MakeDay(c.year, c.month, 1) + c.date - 1;
  }

  lemma MonthIsShort(c: Civil)
    requires c.Valid()
    ensures 1 <= c.date <= 31 && 28 <= DaysInMonth(c.year, c.month)
  {}

  /** The first week of a month outside years 0..9999 lies outside them too. */
  lemma FirstWeekStaysOutside(day: int)
    requires !(MIN_DAY <= day <= MAX_DAY)
    ensures var first := PrintedDay(day);
      && CivilFromDay(first).date == 1
      && (if day < MIN_DAY then first + 7 < MIN_DAY else MAX_DAY < first)
  {
    hide CivilFromDay, MIN_DAY, MAX_DAY, DaysInMonth, DayFromYear, DaysBeforeMonth;
    var c := CivilFromDay(day);
    var first := PrintedDay(day);
    YearRange(day);
    MonthIsShort(c);
    CivilRoundTrip(Civil(c.year, c.month, 1));
    CivilRoundTrip(Civil(c.year, c.month, 8));
    assert first + 7 == MakeDay(c.year, c.month, 8);
    PrintedDayIsExact(day);
    YearRange(first);
    YearRange(first + 7);
    CalendarIsLong();
  }

  /** The last day `Date` can hold is 13 September 275760. */
  lemma LastDay()
    ensures MakeDay(275_760, 8, 13) == 100_000_000
  {}

  /** No month begins in the last week `Date` can hold. */
  lemma MonthsEndEarly(day: int)
    requires Representable(day) && CivilFromDay(day).date == 1
    ensures Representable(day + 7)
  {
    hide CivilFromDay, DayFromYear, DaysBeforeMonth;
    if day + 7 > 100_000_000 {
      var c := Civil(275_760, 8, 13 - (100_000_000 - day));
      LastDay();
      SeptemberDays(c.date);
      CivilRoundTrip(c);
    }
  }

  lemma SeptemberDays(date: int)
    requires 1 <= date <= 30
    ensures Civil(275_760, 8, date).Valid()
    ensures MakeDay(275_760, 8, date) == MakeDay(275_760, 8, 13) + date - 13
  {}

  /** Later days stand for later days. */
  lemma PrintedDayAscends(d: int, e: int)
    requires d <= e
    ensures PrintedDay(d) <= PrintedDay(e)
  {
    hide CivilFromDay, MakeDay, DaysInMonth, MIN_DAY, MAX_DAY;
    var f := CivilFromDay(e);
    var first := MakeDay(f.year, f.month, 1);
    PrintedDayIsExact(d);
    PrintedDayIsExact(e);
    MonthIsShort(f);
    CivilRoundTrip(Civil(f.year, f.month, 1));
    CivilOrder(d, first);
    CivilOrder(e, d);
  }

  lemma SixDigits()
    ensures Pow10(6) == 1_000_000 && Pow10(2) == 100
  {
    assert Pow10(2) == 10 * Pow10(1) == 100;
    assert Pow10(6) == 10 * Pow10(5) == 100 * Pow10(4) == 1000 * Pow10(3);
  }

  lemma ReadSigned(y: int, month: nat)
    requires y < 0 || 9999 < y
    requires Magnitude(y) < 1_000_000 && month < 12
    ensures var s := SignOf(y) + (Digits(Magnitude(y), 6) + ("-" + Digits(month + 1, 2)));
      ReadYear(s) == Some(y) && ReadInYear(y, s[YearWidth(s)..]) == DayWith(y, month + 1, 1)
  {
    hide Digits, ReadDigits, DayWith, Pow10;
    SixDigits();
    ReadWritten(Magnitude(y), 6);
    ReadWritten(month + 1, 2);
    var year, rest := Digits(Magnitude(y), 6), "-" + Digits(month + 1, 2);
    var s := SignOf(y) + (year + rest);
    assert s[1..7] == year && s[7..] == rest && rest[1..] == Digits(month + 1, 2);
  }

  /** Every printed date is read back as the day it stands for. */
  lemma ReadPrinted(day: int)
    requires Representable(day)
    ensures ReadDate(DateOnly(day)) == Some(PrintedDay(day))
  {
    hide CivilFromDay, MakeDay, ParseDate, Digits, MIN_DAY, MAX_DAY, ReadYear, ReadInYear, DaysInMonth;
    YearRange(day);
    var c := CivilFromDay(day);
    if MIN_DAY <= day <= MAX_DAY {
      ParsePrinted(day);
      ReadParsed(DateOnly(day));
    } else {
      YearMagnitude(day);
      ReadSigned(c.year, c.month);
      assert c.Valid();
    }
  }

  lemma DashesAreEqual()
    ensures !StringLess("-", "-")
  {}

  lemma LessOfDates(y: string, m: string, d: string, z: string, n: string, e: string)
    requires |y| == |z| && |m| == |n| && |d| == |e|
    ensures StringLess(y + ("-" + (m + ("-" + d))), z + ("-" + (n + ("-" + e))))
      <==> StringLess(y, z) || (y == z && (StringLess(m, n) || (m == n && StringLess(d, e))))
  {
    hide StringLess;
    var rest, other := m + ("-" + d), n + ("-" + e);
    LessOfTwo(y, rest, z, other);
    LessOfTwo(m, d, n, e);
  }

  lemma LessOfTwo(m: string, d: string, n: string, e: string)
    requires |m| == |n|
    ensures StringLess(m + ("-" + d), n + ("-" + e)) <==> StringLess(m, n) || (m == n && StringLess(d, e))
  {
    hide StringLess;
    DashesAreEqual();
    LessOfParts("-", "-", d, e);
    LessOfParts(m, n, "-" + d, "-" + e);
  }

  /** Lexicographic order of printed dates is chronological order. */
  lemma PrintedOrder(d: int, e: int)
    requires MIN_DAY <= d <= MAX_DAY && MIN_DAY <= e <= MAX_DAY
    requires Representable(d) && Representable(e)
    ensures StringLess(DateOnly(d), DateOnly(e)) <==> d < e
  {
    hide CivilFromDay, MIN_DAY, MAX_DAY, FieldString, StringLess;
    YearRange(d);
    YearRange(e);
    FieldOrder(CivilFromDay(d), CivilFromDay(e));
    CivilOrder(d, e);
  }

  lemma FieldOrder(c: Civil, f: Civil)
    requires c.Valid() && 0 <= c.year <= 9999 && f.Valid() && 0 <= f.year <= 9999
    ensures StringLess(FieldString(c), FieldString(f)) <==> c.Before(f)
  {
    hide Digits, Pow10, StringLess, DaysInMonth;
    FieldsFit(c);
    FieldsFit(f);
    DigitOrder(c.year, f.year, 4);
    DigitOrder(c.month + 1, f.month + 1, 2);
    DigitOrder(c.date, f.date, 2);
    LessOfDates(Digits(c.year, 4), Digits(c.month + 1, 2), Digits(c.date, 2),
                Digits(f.year, 4), Digits(f.month + 1, 2), Digits(f.date, 2));
  }

  /**
    A string that starts with a date, such as a date or a full timestamp, compares with a
    plain date by that day, except that more characters after an equal date make it larger.
  */
  lemma PrefixedOrder(s: string, d: int, w: int)
    requires |s| >= 10 && ParseDate(s[..10]) == Some(d)
    requires MIN_DAY <= w <= MAX_DAY && Representable(w)
    ensures StringLess(s, DateOnly(w)) <==> d < w
    ensures StringLess(DateOnly(w), s) <==> w < d || (w == d && |s| > 10)
  {
    hide ParseDate, DateOnly, MIN_DAY, MAX_DAY;
    PrintParsed(s[..10]);
    PrintedOrder(d, w);
    PrintedOrder(w, d);
    ParsePrinted(w);
    var p := DateOnly(w);
    assert s == s[..10] + s[10..] && p == p + "";
    LessOfParts(s[..10], p, s[10..], "");
    LessOfParts(p, s[..10], "", s[10..]);
  }

  /** A date outside years 0..9999 prints with a leading sign, which sorts before every digit. */
  lemma OutsideSortsFirst(s: string, d: int, w: int)
    requires |s| >= 10 && ParseDate(s[..10]) == Some(d)
    requires !(MIN_DAY <= w <= MAX_DAY) && Representable(w)
    ensures !StringLess(s, DateOnly(w))
  {
    hide CivilFromDay, MIN_DAY, MAX_DAY, DayWith, ReadDigits, Digits;
    YearRange(w);
    assert IsDigit(s[..4][0]);
    assert DateOnly(w)[0] == '+' || DateOnly(w)[0] == '-';
  }
}
