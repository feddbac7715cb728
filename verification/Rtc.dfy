/** `rtc_get_unix_timestamp` of drivers/rtc.c: day counting and the 32-bit seconds since 1970. */
module Rtc {
  import opened Bytes

  datatype DateTime = DateTime(year: nat, month: nat, day: nat, hour: nat, minute: nat, second: nat)

  predicate IsLeap(y: nat) { (y % 4 == 0 && y % 100 != 0) || y % 400 == 0 }

  function DaysIn(y: nat, month: nat): nat {
    if month == 2 then (if IsLeap(y) then 29 else 28)
    else if month == 4 || month == 6 || month == 9 || month == 11 then 30
    else 31
  }

  predicate ValidDate(t: DateTime) {
    && 1970 <= t.year && 1 <= t.month <= 12 && 1 <= t.day <= DaysIn(t.year, t.month)
    && t.hour < 24 && t.minute < 60 && t.second < 60
  }

  // ---------------------------------------------------------------- closed forms

  /** The number of leap years from year 1 up to and including `y`. */
  function LeapsThrough(y: nat): int { y / 4 - y / 100 + y / 400 }

  /** Days from 1 January 1970 to 1 January of `y`. */
  function DaysBeforeYear(y: nat): int
    requires y >= 1970
  {
    365 * (y - 1970) + LeapsThrough(y - 1) - LeapsThrough(1969)
  }

  /** Days from 1 January to the first of the month. */
  function DaysBeforeMonth(y: nat, month: nat): nat
    requires 1 <= month <= 12
  {
    [0, 31, 59, 90, 120, 151, 181, 212, 243, 273, 304, 334][month - 1] + if month > 2 && IsLeap(y) then 1 else 0
  }

  function DayNumber(t: DateTime): int
    requires ValidDate(t)
  {
    DaysBeforeYear(t.year) + DaysBeforeMonth(t.year, t.month) + t.day - 1
  }

  /** Seconds since 1 January 1970 as a mathematical integer. */
  function Seconds(t: DateTime): int
    requires ValidDate(t)
  {
    86400 * DayNumber(t) + 3600 * t.hour + 60 * t.minute + t.second
  }

  lemma YearStep(y: nat)
    requires y >= 1970
    ensures DaysBeforeYear(y + 1) == DaysBeforeYear(y) + if IsLeap(y) then 366 else 365
  {
    FourthYears(y);
    HundredthYears(y);
    FourHundredthYears(y);
  }

  lemma FourthYears(y: nat)
    requires y > 0
    ensures y / 4 - (y - 1) / 4 == if y % 4 == 0 then 1 else 0
  {
  }

  lemma HundredthYears(y: nat)
    requires y > 0
    ensures y / 100 - (y - 1) / 100 == if y % 100 == 0 then 1 else 0
    ensures y % 100 == 0 ==> y % 4 == 0
  {
    if y % 100 == 0 {
      assert y == 4 * (25 * (y / 100));
    }
  }

  lemma FourHundredthYears(y: nat)
    requires y > 0
    ensures y / 400 - (y - 1) / 400 == if y % 400 == 0 then 1 else 0
    ensures y % 400 == 0 ==> y % 100 == 0
  {
    if y % 400 == 0 {
      assert y == 100 * (4 * (y / 400));
    }
  }

  lemma MonthStep(y: nat, month: nat)
    requires 1 <= month <= 11
    ensures DaysBeforeMonth(y, month + 1) == DaysBeforeMonth(y, month) + DaysIn(y, month)
  {
  }

  // ---------------------------------------------------------------- the code

  /** `x * y` and `+` on `uint32_t` */
  function Wrap(x: nat): U32 { x % 0x1_0000_0000 }

  /** The loop over the years. */
  method CountYears(year: nat) returns (days: U32)
    requires 1970 <= year < 0x1_0000
    ensures days == DaysBeforeYear(year) <= 366 * (year - 1970)
  {
    hide DaysBeforeYear;
    days := 0;
    var y := 1970;
    assert DaysBeforeYear(1970) == 0 by { EpochYear(); }
    while y < year
      invariant 1970 <= y <= year && days == DaysBeforeYear(y) <= 366 * (y - 1970)
    {
      YearStep(y);
      if (y % 4 == 0 && y % 100 != 0) || y % 400 == 0 {
        days := days + 366;
      } else {
        days := days + 365;
      }
      y := y + 1;
    }
  }

  lemma EpochYear()
    ensures DaysBeforeYear(1970) == 0
  {
  }

  /** The loop over the months, with February patched in a leap year. */
  method CountMonths(year: nat, month: nat) returns (days: nat)
    requires 1 <= month <= 12
    ensures days == DaysBeforeMonth(year, month) <= 335
  {
    var daysInMonth := new nat[12][31, 28, 31, 30, 31, 30, 31, 31, 30, 31, 30, 31];
    if (year % 4 == 0 && year % 100 != 0) || year % 400 == 0 {
      daysInMonth[1] := 29;
    }
    assert forall k | 0 <= k < 12 :: daysInMonth[k] == DaysIn(year, k + 1);
    hide DaysIn, IsLeap;
    days := 0;
    var m := 0;
    while m < month - 1
      invariant 0 <= m <= month - 1
      invariant forall k | 0 <= k < 12 :: daysInMonth[k] == DaysIn(year, k + 1)
      invariant days == DaysBeforeMonth(year, m + 1)
    {
      MonthStep(year, m + 1);
      days := days + daysInMonth[m];
      m := m + 1;
    }
  }

  /** The timestamp is the number of seconds modulo 2^32; the year is a `uint16_t`. */
  method UnixTimestamp(time: DateTime) returns (timestamp: U32)
    requires ValidDate(time) && time.year < 0x1_0000
    ensures timestamp == Seconds(time) % 0x1_0000_0000
  {
    hide DaysBeforeYear, DaysBeforeMonth, Wrap;
    var days: U32 := CountYears(time.year);
    var inYear := CountMonths(time.year, time.month);
    days := days + inYear;
    days := days + time.day - 1;
    timestamp := Wrap(days * 86400);
    WrapAdd(days * 86400, time.hour * 3600);
    timestamp := Wrap(timestamp + time.hour * 3600);
    WrapAdd(days * 86400 + time.hour * 3600, time.minute * 60);
    timestamp := Wrap(timestamp + time.minute * 60);
    WrapAdd(days * 86400 + time.hour * 3600 + time.minute * 60, time.second);
    timestamp := Wrap(timestamp + time.second);
    assert timestamp == Wrap(Seconds(time));
    WrapIs(Seconds(time));
  }

  lemma WrapAdd(x: nat, y: nat)
    ensures Wrap(Wrap(x) + y) == Wrap(x + y)
  {
    var q, r := x / 0x1_0000_0000, x % 0x1_0000_0000;
    assert x + y == (r + y) + q * 0x1_0000_0000;
    WrapPlus(r + y, q);
  }

  lemma WrapPlus(a: nat, q: nat)
    ensures Wrap(a + q * 0x1_0000_0000) == Wrap(a)
  {
    var b := a + q * 0x1_0000_0000;
    assert b == (a / 0x1_0000_0000 + q) * 0x1_0000_0000 + a % 0x1_0000_0000;
  }

  lemma WrapIs(x: nat)
    ensures Wrap(x) == x % 0x1_0000_0000
  {
  }

  // ---------------------------------------------------------------- order

  /** `a` comes before `b` in the calendar. */
  predicate Before(a: DateTime, b: DateTime) {
    a.year < b.year || (a.year == b.year &&
    (a.month < b.month || (a.month == b.month &&
    (a.day < b.day || (a.day == b.day &&
    (a.hour < b.hour || (a.hour == b.hour &&
    (a.minute < b.minute || (a.minute == b.minute && a.second < b.second)))))))))
  }

  lemma {:induction false} YearsGrow(a: nat, b: nat)
    requires 1970 <= a < b
    ensures DaysBeforeYear(a) + (if IsLeap(a) then 366 else 365) <= DaysBeforeYear(b)
    decreases b
  {
    YearStep(a);
    if a + 1 < b {
      YearsGrow(a, b - 1);
      YearStep(b - 1);
    }
  }

  lemma {:induction false} MonthsGrow(y: nat, a: nat, b: nat)
    requires 1 <= a < b <= 12
    ensures DaysBeforeMonth(y, a) + DaysIn(y, a) <= DaysBeforeMonth(y, b)
    decreases b
  {
    MonthStep(y, b - 1);
    if a + 1 < b {
      MonthsGrow(y, a, b - 1);
    }
  }

  lemma DaysGrow(a: DateTime, b: DateTime)
    requires ValidDate(a) && ValidDate(b)
    requires a.year < b.year || (a.year == b.year && (a.month < b.month || (a.month == b.month && a.day < b.day)))
    ensures DayNumber(a) < DayNumber(b)
  {
    if a.year < b.year {
      YearsGrow(a.year, b.year);
      MonthStep(a.year, 11);
      if a.month < 12 {
        MonthsGrow(a.year, a.month, 12);
      }
    } else if a.month < b.month {
      MonthsGrow(a.year, a.month, b.month);
    }
  }

  lemma SameDay(a: DateTime, b: DateTime)
    requires ValidDate(a) && ValidDate(b)
    ensures a.year == b.year && a.month == b.month && a.day == b.day ==> DayNumber(a) == DayNumber(b)
  {
  }

  /** Seconds grow strictly with the calendar. */
  lemma SecondsGrow(a: DateTime, b: DateTime)
    requires ValidDate(a) && ValidDate(b) && Before(a, b)
    ensures Seconds(a) < Seconds(b)
  {
    SameDay(a, b);
    hide DayNumber;
    if !(a.year == b.year && a.month == b.month && a.day == b.day) {
      DaysGrow(a, b);
    }
  }

  /** Different valid date-times have different numbers of seconds. */
  lemma SecondsInjective(a: DateTime, b: DateTime)
    requires ValidDate(a) && ValidDate(b) && Seconds(a) == Seconds(b)
    ensures a == b
  {
    hide Seconds, ValidDate;
    if Before(a, b) {
      SecondsGrow(a, b);
    } else if Before(b, a) {
      SecondsGrow(b, a);
    }
  }

  const LAST: DateTime := DateTime(2106, 2, 7, 6, 28, 15)

  lemma LastIsLargest()
    ensures ValidDate(LAST) && Seconds(LAST) == 0xFFFF_FFFF
  {
  }

  /** The 32-bit timestamp is exact precisely up to 7 February 2106, 06:28:15; one second later it is zero. */
  lemma ExactUntilLast(t: DateTime)
    requires ValidDate(t)
    ensures Seconds(t) >= 0
    ensures Seconds(t) % 0x1_0000_0000 == Seconds(t) <==> !Before(LAST, t)
  {
    hide Seconds;
    LastIsLargest();
    EpochIsLeast(t);
    if Before(LAST, t) {
      SecondsGrow(LAST, t);
    } else if t != LAST {
      SecondsGrow(t, LAST);
    }
  }

  lemma EpochIsLeast(t: DateTime)
    requires ValidDate(t)
    ensures Seconds(t) >= 0
  {
    if t.year > 1970 {
      YearsGrow(1970, t.year);
    }
  }

  /** Up to the year 2105 the 32-bit timestamps keep the calendar order. */
  lemma TimestampsOrdered(a: DateTime, b: DateTime)
    requires ValidDate(a) && ValidDate(b) && b.year <= 2105 && Before(a, b)
    ensures Seconds(a) % 0x1_0000_0000 < Seconds(b) % 0x1_0000_0000
  {
    hide Seconds;
    ExactUntilLast(a);
    ExactUntilLast(b);
    SecondsGrow(a, b);
  }

  // ---------------------------------------------------------------- one second later

  /** The next second of the calendar. */
  function Tick(t: DateTime): DateTime {
    if t.second < 59 then t.(second := t.second + 1)
    else if t.minute < 59 then t.(minute := t.minute + 1, second := 0)
    else if t.hour < 23 then t.(hour := t.hour + 1, minute := 0, second := 0)
    else if t.day < DaysIn(t.year, t.month) then DateTime(t.year, t.month, t.day + 1, 0, 0, 0)
    else if t.month < 12 then DateTime(t.year, t.month + 1, 1, 0, 0, 0)
    else DateTime(t.year + 1, 1, 1, 0, 0, 0)
  }

  /** Counting from the epoch second by second gives the timestamp: it starts at 0 and every second adds 1. */
  lemma TickIsOne(t: DateTime)
    requires ValidDate(t)
    ensures ValidDate(Tick(t)) && Seconds(Tick(t)) == Seconds(t) + 1
    ensures Seconds(DateTime(1970, 1, 1, 0, 0, 0)) == 0
  {
    EpochYear();
    if t.second == 59 && t.minute == 59 && t.hour == 23 && t.day == DaysIn(t.year, t.month) {
      if t.month < 12 {
        MonthStep(t.year, t.month);
      } else {
        YearStep(t.year);
      }
    }
  }

  // ---------------------------------------------------------------- the clock registers

  datatype Registers = Registers(second: Byte, minute: Byte, hour: Byte, day: Byte, month: Byte, year: Byte)

  /** Bit 2 of register B: binary rather than BCD; bit 1: 24 rather than 12 hours. */
  predicate Binary(b: Byte) { b / 4 % 2 == 1 }
  predicate Hours24(b: Byte) { b / 2 % 2 == 1 }

  /** `bcd_to_binary` */
  function FromBcd(x: Byte): Byte { x / 16 * 10 + x % 16 }

  /** `rtc_get_time`, once the clock is not updating. */
  method GetTime(r: Registers, b: Byte) returns (time: DateTime)
    ensures time == Decoded(r, b)
  {
    var second: nat, minute: nat, hour: nat, day: nat, month: nat, year: nat := r.second, r.minute, r.hour, r.day, r.month, r.year;
    if !Binary(b) {
      second := FromBcd(r.second);
      minute := FromBcd(r.minute);
      hour := FromBcd(r.hour);
      day := FromBcd(r.day);
      month := FromBcd(r.month);
      year := FromBcd(r.year);
    }
    if !Hours24(b) && hour >= 128 {
      hour := (hour % 128 + 12) % 24;
    }
    time := DateTime(2000 + year, month, day, hour, minute, second);
  }

  function Decoded(r: Registers, b: Byte): DateTime {
    var field := (x: Byte) => if Binary(b) then x else FromBcd(x);
    var hour := field(r.hour);
    DateTime(2000 + field(r.year), field(r.month), field(r.day),
      if !Hours24(b) && hour >= 128 then (hour % 128 + 12) % 24 else hour, field(r.minute), field(r.second))
  }

  /** A number below 100 as the clock stores it. */
  function Shown(n: nat, b: Byte): Byte
    requires n < 100
  {
    if Binary(b) then n else n / 10 * 16 + n % 10
  }

  /** The hour as the clock stores it: in 12-hour mode 12, 1, .. 11, with the top bit in the afternoon. */
  function ShownHour(hour: nat, b: Byte): Byte
    requires hour < 24
  {
    if Hours24(b) then Shown(hour, b)
    else Shown(if hour % 12 == 0 then 12 else hour % 12, b) + if hour >= 12 then 128 else 0
  }

  function ShownTime(t: DateTime, b: Byte): Registers
    requires ValidDate(t) && 2000 <= t.year < 2100
  {
    Registers(Shown(t.second, b), Shown(t.minute, b), ShownHour(t.hour, b), Shown(t.day, b), Shown(t.month, b), Shown(t.year - 2000, b))
  }

  lemma ShownRoundTrip(n: nat, b: Byte)
    requires n < 100
    ensures (if Binary(b) then Shown(n, b) else FromBcd(Shown(n, b))) == n
  {
  }

  /** Through 2099 the time is read right exactly when the clock is in 24-hour mode, as `rtc_init` sets it, or the hour is not
      12 and, in BCD, is before noon: the code converts from BCD before it looks at the afternoon bit, which is then lost, and
      takes 12 at night for noon and noon for midnight. */
  lemma ReadsRight(t: DateTime, b: Byte)
    requires ValidDate(t) && 2000 <= t.year < 2100
    ensures Decoded(ShownTime(t, b), b) == t <==>
      Hours24(b) || (t.hour % 12 != 0 && (Binary(b) || t.hour < 12))
  {
    ShownRoundTrip(t.second, b);
    ShownRoundTrip(t.minute, b);
    ShownRoundTrip(t.day, b);
    ShownRoundTrip(t.month, b);
    ShownRoundTrip(t.year - 2000, b);
    hide ValidDate;
    HourReadsRight(t.hour, b);
  }

  /** The hour alone, as decoded. */
  function DecodedHour(h: Byte, b: Byte): nat {
    var x := if Binary(b) then h else FromBcd(h);
    if !Hours24(b) && x >= 128 then (x % 128 + 12) % 24 else x
  }

  lemma HourReadsRight(hour: nat, b: Byte)
    requires hour < 24
    ensures DecodedHour(ShownHour(hour, b), b) == hour <==> Hours24(b) || (hour % 12 != 0 && (Binary(b) || hour < 12))
  {
    hide ShownHour, DecodedHour, Binary, Hours24;
    if Hours24(b) {
      HourIn24(hour, b);
    } else if Binary(b) {
      HourInBinary(hour, b);
    } else {
      HourInBcd(hour, b);
    }
  }

  lemma HourIn24(hour: nat, b: Byte)
    requires hour < 24 && Hours24(b)
    ensures DecodedHour(ShownHour(hour, b), b) == hour
  {
    ShownRoundTrip(hour, b);
  }

  lemma HourInBinary(hour: nat, b: Byte)
    requires hour < 24 && !Hours24(b) && Binary(b)
    ensures DecodedHour(ShownHour(hour, b), b) == hour <==> hour % 12 != 0
  {
    hide Binary, Hours24, FromBcd;
  }

  lemma HourInBcd(hour: nat, b: Byte)
    requires hour < 24 && !Hours24(b) && !Binary(b)
    ensures DecodedHour(ShownHour(hour, b), b) == hour <==> 0 < hour < 12
  {
    hide Binary, Hours24, FromBcd;
    TwelveInBcd(if hour % 12 == 0 then 12 else hour % 12);
  }

  /** The afternoon bit is no longer there after the conversion. */
  lemma TwelveInBcd(h12: nat)
    requires 1 <= h12 <= 12
    ensures var x: Byte := h12 / 10 * 16 + h12 % 10; x < 0x20 && FromBcd(x) == h12 && FromBcd(x + 128) == h12 + 80
  {
  }
}
