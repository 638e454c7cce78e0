/** The `DateTime` value type of MCP7940x.cpp / MCP7940x.h: a wall-clock
    timestamp counted from the epoch 2000-01-01 00:00:00, with the conversion
    from seconds (two subtraction loops), the conversion back (`date2days` and
    `time2long`), the component constructor and `dayOfWeek`.

    Leap years are the year offsets divisible by four, which is right for
    2000..2099 only. Every field is a `uint8_t`, `long` is 32 bits wide. */
module Calendar {
  import opened CTypes

  /** `SECONDS_PER_DAY`. */
  const SECONDS_PER_DAY: int := 86400

  /** `daysInMonth`: the month lengths of a common year, January first. */
  const DaysInMonth: seq<int> := [31, 28, 31, 30, 31, 30, 31, 31, 30, 31, 30, 31]

  /** The fields of a `DateTime`, as the C++ class stores them: the year as an
      offset from 2000, then month, day, hour, minute and second. The class is
      never changed after construction, so it is a value here; the accessors
      `month()` .. `second()` are the datatype's fields. */
  datatype DateTime = DateTime(yOff: uint8, m: uint8, d: uint8, hh: uint8, mm: uint8, ss: uint8)
  {
    /** `year()`: the full year. */
    function Year(): (y: uint16)
      ensures 2000 <= y <= 2255
      ensures y - 2000 == yOff
    {
      2000 + yOff
    }
  }

  // ---------------------------------------------------------------------
  // The calendar

  predicate IsLeap(yOff: int) {
    yOff % 4 == 0
  }

  /** The number of days in a month of a common or a leap year. */
  function MonthLength(month: int, leap: bool): (n: int)
    requires 1 <= month <= 12
    ensures 28 <= n <= 31
    ensures month == 2 ==> (n == 29 <==> leap)
    ensures month != 2 ==> n >= 30
  {
    DaysInMonth[month - 1] + (if leap && month == 2 then 1 else 0)
  }

  /** The days of a common year before the first of `month`: the sum that
      the loop of `date2days` accumulates over the table (0 for a month
      below 2). */
  function DaysBefore(month: int): (n: int)
    requires 0 <= month <= 13
    ensures 0 <= n <= 31 * month
  {
    if month <= 1 then 0 else DaysBefore(month - 1) + DaysInMonth[month - 2]
  }

  /** The days of the year before the first of `month`, counting a leap day
      after February. */
  function DaysBeforeIn(month: int, leap: bool): int
    requires 1 <= month <= 13
  {
    DaysBefore(month) + (if month > 2 && leap then 1 else 0)
  }

  function YearLength(yOff: int): int {
    if IsLeap(yOff) then 366 else 365
  }

  /** The days from the epoch to the first of January of year offset `y`,
      counted year by year. */
  function DaysInYears(y: nat): nat {
    if y == 0 then 0 else DaysInYears(y - 1) + YearLength(y - 1)
  }

  /** A calendar-valid timestamp of the years 2000..2099. */
  predicate IsValid(dt: DateTime) {
    && dt.yOff <= 99
    && 1 <= dt.m <= 12
    && 1 <= dt.d <= MonthLength(dt.m, IsLeap(dt.yOff))
    && dt.hh < 24 && dt.mm < 60 && dt.ss < 60
  }

  /** The twelve months, with the leap day, make up the whole year. */
  lemma {:induction false} MonthsFillTheYear(leap: bool)
    ensures DaysBeforeIn(13, leap) == if leap then 366 else 365
  {
    assert DaysBefore(4) == 90;
    assert DaysBefore(7) == 181;
    assert DaysBefore(10) == 273;
    assert DaysBefore(13) == 365;
  }

  /** One month further on in the year adds that month's length. */
  lemma MonthStep(month: int, leap: bool)
    requires 1 <= month <= 12
    ensures DaysBeforeIn(month + 1, leap) == DaysBeforeIn(month, leap) + MonthLength(month, leap)
  {
  }

  lemma {:induction false} DaysBeforeMonotone(i: int, j: int, leap: bool)
    requires 1 <= i < j <= 13
    ensures DaysBeforeIn(i, leap) + MonthLength(i, leap) <= DaysBeforeIn(j, leap)
  {
    if j > i + 1 {
      DaysBeforeMonotone(i, j - 1, leap);
      MonthStep(j - 1, leap);
    } else {
      MonthStep(i, leap);
    }
  }

  /** The closed form that `date2days` uses for the days of the years before
      `y`: 365 a year and one leap day for each of 0, 4, 8, .. below y. */
  lemma {:induction false} DaysInYearsClosedForm(y: nat)
    ensures DaysInYears(y) == 365 * y + (y + 3) / 4
  {
    if y > 0 {
      DaysInYearsClosedForm(y - 1);
    }
  }

  /** A day count splits into whole years and a day of the year in one way
      only. */
  lemma YearSplitUnique(a: nat, x: nat, b: nat, z: nat)
    requires x < YearLength(a) && z < YearLength(b)
    requires DaysInYears(a) + x == DaysInYears(b) + z
    ensures a == b && x == z
  {
    DaysInYearsClosedForm(a);
    DaysInYearsClosedForm(b);
    DaysInYearsClosedForm(a + 1);
    DaysInYearsClosedForm(b + 1);
  }

  /** A day of the year splits into a month and a day of the month in one
      way only. */
  lemma MonthSplitUnique(i: int, x: nat, j: int, z: nat, leap: bool)
    requires 1 <= i <= 12 && 1 <= j <= 12
    requires x < MonthLength(i, leap) && z < MonthLength(j, leap)
    requires DaysBeforeIn(i, leap) + x == DaysBeforeIn(j, leap) + z
    ensures i == j && x == z
  {
    if i < j {
      DaysBeforeMonotone(i, j, leap);
    } else if j < i {
      DaysBeforeMonotone(j, i, leap);
    }
  }

  // ---------------------------------------------------------------------
  // From seconds to fields: `DateTime(long t)`

  /** The year loop of `DateTime(long)`: starting at year offset `y`, take
      whole years off `days` while a whole year fits. Returns the year offset
      reached and the day of that year. */
  function SplitYears(days: nat, y: nat): (r: (nat, nat))
    ensures DaysInYears(r.0) + r.1 == DaysInYears(y) + days
    ensures y <= r.0 && r.1 < YearLength(r.0)
    ensures 365 * (r.0 - y) <= days
    decreases days
  {
    if days < YearLength(y) then (y, days)
    else SplitYears(days - YearLength(y), y + 1)
  }

  /** The month loop of `DateTime(long)`: starting at `month`, take whole
      months off `days` while a whole month fits. Returns the month reached
      and the day of that month counted from 0. */
  function SplitMonths(days: nat, month: int, leap: bool): (r: (int, nat))
    requires 1 <= month <= 12
    requires DaysBeforeIn(month, leap) + days < DaysBeforeIn(13, leap)
    ensures month <= r.0 <= 12
    ensures DaysBeforeIn(r.0, leap) + r.1 == DaysBeforeIn(month, leap) + days
    ensures r.1 < MonthLength(r.0, leap)
    decreases 12 - month
  {
    MonthStep(month, leap);
    if days < MonthLength(month, leap) then (month, days)
    else SplitMonths(days - MonthLength(month, leap), month + 1, leap)
  }

  /** Both loops of `DateTime(long)` together: a day count since the epoch
      as a year offset, a month, and a day of that month counted from 0. */
  function DaysToDate(days: nat): (r: (nat, int, nat))
    ensures 1 <= r.1 <= 12 && r.2 < MonthLength(r.1, IsLeap(r.0))
    ensures DayIndex(r.0, r.1, r.2 + 1) == days
    ensures 365 * r.0 <= days
  {
    var years := SplitYears(days, 0);
    var leap := IsLeap(years.0);
    MonthsFillTheYear(leap);
    var months := SplitMonths(years.1, 1, leap);
    (years.0, months.0, months.1)
  }

  /** The day number of date `y`-`m`-`d` (d from 1), counted day by day from
      the epoch through whole years and whole months. */
  function DayIndex(y: nat, m: int, d: int): int
    requires 1 <= m <= 12
  {
    DaysInYears(y) + DaysBeforeIn(m, IsLeap(y)) + d - 1
  }

  /** The seconds of `days` whole days and a time of day, without any
      machine width. */
  function Seconds(days: int, h: int, m: int, s: int): int {
    ((days * 24 + h) * 60 + m) * 60 + s
  }

  /** What `DateTime(long t)` stores, for every 32-bit `t`: the remainders
      and quotients are C's (toward zero), the day count is cut to
      `uint16_t`, the fields to `uint8_t`. */
  function SecondsToDateTime(t: int32): (dt: DateTime)
    ensures 1 <= dt.m <= 12 && 1 <= dt.d <= MonthLength(dt.m, IsLeap(dt.yOff))
    ensures 0 <= t ==> IsValid(dt)
    ensures 0 <= t ==> dt.ss == t % 60 && dt.mm == t / 60 % 60 && dt.hh == t / 60 / 60 % 24
  {
    var t1 := CDiv(t, 60);
    var t2 := CDiv(t1, 60);
    var date := DaysToDate(ToUint16(CDiv(t2, 24)));
    DateTime(ToUint8(date.0), ToUint8(date.1), ToUint8(date.2 + 1),
             ToUint8(CRem(t2, 24)), ToUint8(CRem(t1, 60)), ToUint8(CRem(t, 60)))
  }

  /** `DateTime(long t)`: peel off seconds, minutes and hours by division,
      then whole years and whole months by subtraction. */
  method FromSeconds(t: int32) returns (dt: DateTime)
    ensures dt == SecondsToDateTime(t)
    ensures 0 <= t ==> IsValid(dt) && Get(dt) == t
  {
    var s := t;
    var ss := ToUint8(CRem(s, 60));
    s := CDiv(s, 60);
    var mm := ToUint8(CRem(s, 60));
    s := CDiv(s, 60);
    var hh := ToUint8(CRem(s, 24));
    var days: uint16 := ToUint16(CDiv(s, 24));
    ghost var days0 := days;
    var yOff := 0;
    var leap := false;
    while true
      invariant DaysInYears(yOff) + days == days0
      decreases days
    {
      leap := IsLeap(yOff);
      if days < YearLength(yOff) {
        break;
      }
      days := days - YearLength(yOff);
      yOff := yOff + 1;
    }
    ghost var years := SplitYears(days0, 0);
    YearSplitUnique(yOff, days, years.0, years.1);
    MonthsFillTheYear(leap);
    ghost var doy := days;
    var m := 1;
    while true
      invariant 1 <= m <= 12
      invariant DaysBeforeIn(m, leap) + days == doy
      decreases 12 - m
    {
      var daysPerMonth := DaysInMonth[m - 1];
      if leap && m == 2 {
        daysPerMonth := daysPerMonth + 1;
      }
      assert daysPerMonth == MonthLength(m, leap);
      if days < daysPerMonth {
        break;
      }
      MonthStep(m, leap);
      days := days - daysPerMonth;
      m := m + 1;
    }
    ghost var months := SplitMonths(doy, 1, leap);
    MonthSplitUnique(m, days, months.0, months.1, leap);
    assert DaysToDate(days0) == (yOff, m, days as nat);
    dt := DateTime(ToUint8(yOff), ToUint8(m), ToUint8(days + 1), hh, mm, ss);
    if 0 <= t {
      SecondsRoundTrip(t);
    }
  }

  // ---------------------------------------------------------------------
  // From fields to seconds: `date2days`, `time2long`, `get()`

  /** What `date2days(y, m, d)` returns: the day number since 2000-01-01.
      A full year from 2000 on is first made an offset; the sum runs in
      16-bit arithmetic. Months above 13 would read past the 12-entry
      table. */
  function DayNumber(y: uint16, month: uint8, d: uint8): (n: uint16)
    requires month <= 13
    ensures 2000 <= y < 4000 ==> n == DayNumber(y - 2000, month, d)
    decreases y
  {
    var yy: int := if y >= 2000 then y - 2000 else y;
    var days := d + DaysBefore(month) + (if month > 2 && IsLeap(yy) then 1 else 0);
    ToUint16(days + 365 * yy + (yy + 3) / 4 - 1)
  }

  /** `date2days`: the day of the month plus the month lengths accumulated
      in a loop, the leap day, and the closed form for the whole years. */
  method Date2Days(y: uint16, month: uint8, d: uint8) returns (days: uint16)
    requires month <= 13
    ensures days == DayNumber(y, month, d)
  {
    var yy: int := y;
    if yy >= 2000 {
      yy := yy - 2000;
    }
    var acc: int := d;
    var i: int := 1;
    while i < month
      invariant 1 <= i && (i <= month || i == 1)
      invariant acc == d + DaysBefore(i)
    {
      assert DaysBefore(i + 1) == DaysBefore(i) + DaysInMonth[i - 1];
      acc := acc + DaysInMonth[i - 1];
      i := i + 1;
    }
    assert DaysBefore(i) == DaysBefore(month);
    if month > 2 && IsLeap(yy) {
      acc := acc + 1;
    }
    days := ToUint16(acc + 365 * yy + (yy + 3) / 4 - 1);
  }

  /** For a valid date the day number of `date2days` is the count of days
      from the epoch: whole years, whole months, then the day of the month. */
  lemma DayNumberCounts(y: uint16, month: uint8, d: uint8)
    requires y <= 99 && 1 <= month <= 12
    requires 1 <= d && d <= MonthLength(month, IsLeap(y))
    ensures DayNumber(y, month, d) == DaysInYears(y) + DaysBeforeIn(month, IsLeap(y)) + d - 1
  {
    DaysInYearsClosedForm(y);
  }

  /** `time2long`: days, hours, minutes and seconds to seconds, in 32-bit
      `long` arithmetic. */
  function Time2Long(days: uint16, h: uint8, m: uint8, s: uint8): (t: int32)
    ensures 0 <= Seconds(days, h, m, s) <= INT32_MAX ==> t == Seconds(days, h, m, s)
  {
    ToInt32(Seconds(days, h, m, s))
  }

  /** `get()`: seconds since the epoch. */
  function Get(dt: DateTime): (t: int32)
    requires dt.m <= 13
    ensures IsValid(dt) && dt.yOff < 68 ==> 0 <= t
  {
    DayNumberInYear(dt);
    Time2Long(DayNumber(dt.yOff, dt.m, dt.d), dt.hh, dt.mm, dt.ss)
  }

  /** The day number of a valid date is its day index, and lies before the
      first day of the next year. */
  lemma DayNumberInYear(dt: DateTime)
    requires dt.m <= 13
    ensures IsValid(dt) ==> DayNumber(dt.yOff, dt.m, dt.d) == DayIndex(dt.yOff, dt.m, dt.d)
    ensures IsValid(dt) ==> 0 <= DayIndex(dt.yOff, dt.m, dt.d) < 365 * (dt.yOff + 1) + (dt.yOff + 4) / 4
  {
    if IsValid(dt) {
      var leap := IsLeap(dt.yOff);
      DayNumberCounts(dt.yOff, dt.m, dt.d);
      DaysInYearsClosedForm(dt.yOff);
      MonthsFillTheYear(leap);
      if dt.m < 12 {
        DaysBeforeMonotone(dt.m, 13, leap);
      } else {
        MonthStep(12, leap);
      }
    }
  }

  /** `SECONDS_PER_DAY` is one day of `time2long`: a day more on the day
      count is 24 * 60 * 60 seconds more, while the result fits a `long`. */
  lemma Time2LongDay(days: uint16, h: uint8, m: uint8, s: uint8)
    requires days + 1 < 0x1_0000
    requires 0 <= ((days * 24 + h) * 60 + m) * 60 + s
    requires ((days * 24 + h) * 60 + m) * 60 + s + SECONDS_PER_DAY <= INT32_MAX
    ensures SECONDS_PER_DAY == 24 * 60 * 60
    ensures Time2Long(days + 1, h, m, s) == Time2Long(days, h, m, s) + SECONDS_PER_DAY
  {
  }

  /** `dayOfWeek()`: whole days since the epoch, shifted so that the epoch
      (a Saturday) gives 6; 0 is Sunday. The day count is a `uint16_t`, and
      `day + 6` is computed in AVR's 16-bit unsigned arithmetic. */
  function DayOfWeek(dt: DateTime): (w: uint8)
    requires dt.m <= 13
    ensures w < 7
  {
    var day := ToUint16(CDiv(Get(dt), SECONDS_PER_DAY));
    ToUint8(ToUint16(day + 6) % 7)
  }

  // ---------------------------------------------------------------------
  // The component constructor

  /** `DateTime(year, month, day, hour, min, sec)`: a full year from 2000
      on becomes an offset, any other value is kept as it is; the offset is
      stored into a `uint8_t`. The other fields are stored verbatim. */
  function FromComponents(year: uint16, month: uint8, day: uint8, hour: uint8, min: uint8, sec: uint8): (dt: DateTime)
    ensures 2000 <= year < 2256 ==> dt.yOff == year - 2000 && dt.Year() == year
    ensures year < 256 ==> dt.yOff == year
    ensures dt.m == month && dt.d == day && dt.hh == hour && dt.mm == min && dt.ss == sec
  {
    var y := if year >= 2000 then year - 2000 else year;
    DateTime(ToUint8(y), month, day, hour, min, sec)
  }

  /** The same constructor called with its defaults `hour = min = sec = 0`. */
  function FromDate(year: uint16, month: uint8, day: uint8): (dt: DateTime)
    ensures dt.hh == 0 && dt.mm == 0 && dt.ss == 0
    ensures dt.m == month && dt.d == day
    ensures 2000 <= year < 2256 ==> dt.Year() == year
  {
    FromComponents(year, month, day, 0, 0, 0)
  }

  // ---------------------------------------------------------------------
  // Properties

  /** Division by 60, 60 and 24 splits a non-negative count of seconds
      into days and a time of day that give it back. */
  lemma SplitSeconds(t: int)
    requires 0 <= t
    ensures t == Seconds(t / 60 / 60 / 24, t / 60 / 60 % 24, t / 60 % 60, t % 60)
  {
  }

  /** ... and that split is the only one. */
  lemma SplitSecondsUnique(days: nat, h: int, m: int, s: int)
    requires 0 <= h < 24 && 0 <= m < 60 && 0 <= s < 60
    ensures var t := Seconds(days, h, m, s);
      t % 60 == s && t / 60 % 60 == m && t / 60 / 60 % 24 == h && t / 60 / 60 / 24 == days
  {
    var t1 := (days * 24 + h) * 60 + m;
    var t := t1 * 60 + s;
    assert t / 60 == t1;
    assert t1 / 60 == days * 24 + h;
  }

  /** Counting forward from a date by whole years, whole months and days,
      the loops of `DateTime(long)` come back to that date. */
  lemma DaysToDateUnique(days: nat, y: nat, m: int, dd: nat)
    requires 1 <= m <= 12 && dd < MonthLength(m, IsLeap(y))
    requires days == DayIndex(y, m, dd + 1)
    ensures DaysToDate(days) == (y, m, dd)
  {
    var leap := IsLeap(y);
    MonthsFillTheYear(leap);
    if m < 12 {
      DaysBeforeMonotone(m, 13, leap);
    } else {
      MonthStep(12, leap);
    }
    var r := DaysToDate(days);
    var doy := DaysBeforeIn(r.1, IsLeap(r.0)) + r.2;
    MonthsFillTheYear(IsLeap(r.0));
    if r.1 < 12 {
      DaysBeforeMonotone(r.1, 13, IsLeap(r.0));
    } else {
      MonthStep(12, IsLeap(r.0));
    }
    YearSplitUnique(r.0, doy, y, DaysBeforeIn(m, leap) + dd);
    MonthSplitUnique(r.1, r.2, m, dd, leap);
  }

  /** For a valid timestamp `get()` is the exact count of seconds, wrapped
      to a `long`; the exact count is below 2^32. */
  lemma GetExact(dt: DateTime)
    requires IsValid(dt)
    ensures var e := Seconds(DayIndex(dt.yOff, dt.m, dt.d), dt.hh, dt.mm, dt.ss);
      0 <= e < 0x1_0000_0000 && Get(dt) == ToInt32(e)
  {
    DayNumberCounts(dt.yOff, dt.m, dt.d);
    DaysInYearsClosedForm(dt.yOff);
    DaysBeforeMonotone(dt.m, 13, IsLeap(dt.yOff));
    MonthsFillTheYear(IsLeap(dt.yOff));
  }

  /** Seconds to fields to seconds is exact for every non-negative `long`,
      and the fields are a valid timestamp. */
  lemma SecondsRoundTrip(t: int32)
    requires 0 <= t
    ensures IsValid(SecondsToDateTime(t))
    ensures Get(SecondsToDateTime(t)) == t
  {
    SplitSeconds(t);
    var days := t / 60 / 60 / 24;
    assert days < 24856;
    var date := DaysToDate(days);
    DaysInYearsClosedForm(date.0);
    assert date.0 <= 68;
    var dt := SecondsToDateTime(t);
    assert dt.yOff == date.0 && dt.m == date.1 && dt.d == date.2 + 1;
    assert dt.hh == t / 60 / 60 % 24 && dt.mm == t / 60 % 60 && dt.ss == t % 60;
    GetExact(dt);
  }

  /** Fields to seconds to fields gives the timestamp back, for every valid
      timestamp whose seconds fit a `long` (up to 2068-01-19 03:14:07). */
  lemma FieldsRoundTrip(dt: DateTime)
    requires IsValid(dt) && 0 <= Get(dt)
    ensures SecondsToDateTime(Get(dt)) == dt
  {
    var y, m, d := dt.yOff, dt.m, dt.d;
    GetExact(dt);
    var days := DayIndex(y, m, d);
    var t := Get(dt);
    assert t == Seconds(days, dt.hh, dt.mm, dt.ss);
    SplitSecondsUnique(days, dt.hh, dt.mm, dt.ss);
    assert days < 0x1_0000;
    assert ToUint16(CDiv(CDiv(CDiv(t, 60), 60), 24)) == days;
    DaysToDateUnique(days, y, m, d - 1);
    var date := DaysToDate(days);
    var r := SecondsToDateTime(t);
    assert r.yOff == ToUint8(date.0) && r.m == ToUint8(date.1) && r.d == ToUint8(date.2 + 1);
    assert r.yOff == y && r.m == m && r.d == d;
    assert r.hh == dt.hh && r.mm == dt.mm && r.ss == dt.ss;
  }

  /** For a non-negative count of seconds the 16-bit arithmetic of
      `dayOfWeek()` does not wrap: it is the day number plus six, modulo 7. */
  lemma DayOfWeekOfSeconds(dt: DateTime)
    requires dt.m <= 13 && 0 <= Get(dt)
    ensures DayOfWeek(dt) == (Get(dt) / SECONDS_PER_DAY + 6) % 7
  {
    var g := Get(dt);
    var day := g / SECONDS_PER_DAY;
    assert CDiv(g, SECONDS_PER_DAY) == day;
    assert day <= 24855;
    assert ToUint16(day) == day;
    assert ToUint16(day + 6) == day + 6;
  }

  /** The seconds count of the epoch. */
  const EPOCH: int32 := 0

  /** `date2days(2000, 1, 1)` is day 0. */
  lemma FirstDayNumber()
    ensures DayNumber(2000, 1, 1) == 0
  {
    assert DaysBefore(1) == 0;
  }

  /** 2000-01-01 00:00:00 from the component constructor is zero seconds. */
  lemma EpochSeconds()
    ensures FromDate(2000, 1, 1) == DateTime(0, 1, 1, 0, 0, 0)
    ensures Get(FromDate(2000, 1, 1)) == EPOCH
  {
    var dt := DateTime(0, 1, 1, 0, 0, 0);
    assert FromDate(2000, 1, 1) == dt;
    assert Get(dt) == 0;
  }

  /** 2000-01-01 is a Saturday: `dayOfWeek()` gives 6. */
  lemma EpochWeekday()
    ensures DayOfWeek(FromDate(2000, 1, 1)) == 6
  {
    var dt := DateTime(0, 1, 1, 0, 0, 0);
    assert FromDate(2000, 1, 1) == dt;
    assert Get(dt) == 0;
    WeekdayAtZero(dt);
  }

  /** Zero seconds is weekday 6. */
  lemma WeekdayAtZero(dt: DateTime)
    requires dt.m <= 13 && Get(dt) == 0
    ensures DayOfWeek(dt) == 6
  {
    DayOfWeekOfSeconds(dt);
    var q := Get(dt) / SECONDS_PER_DAY;
    assert q == 0;
    assert (q + 6) % 7 == 6;
  }

  /** 2000-01-02 is the next day of the week, a Sunday. */
  lemma SecondDay()
    ensures DayOfWeek(FromDate(2000, 1, 2)) == 0
  {
    var dt := DateTime(0, 1, 2, 0, 0, 0);
    assert FromDate(2000, 1, 2) == dt;
    assert Get(dt) == SECONDS_PER_DAY;
  }

  /** `DateTime(0)` is the epoch, the same value as the component
      constructor gives for 2000-01-01. */
  lemma Epoch()
    ensures SecondsToDateTime(EPOCH) == FromDate(2000, 1, 1)
  {
    var dt := DateTime(0, 1, 1, 0, 0, 0);
    assert IsValid(dt);
    EpochSeconds();
    FieldsRoundTrip(dt);
  }

  /** Adding one to a count of days moves its weekday on by one. */
  lemma WeekdayStep(q: int)
    ensures ((q + 6) % 7 + 1) % 7 == (q + 7) % 7
  {
  }

  /** Of two date-times a whole day apart, the later is on the next day of
      the week. */
  lemma DayOfWeekNextDay(a: DateTime, b: DateTime)
    requires a.m <= 13 && b.m <= 13 && 0 <= Get(a)
    requires Get(b) == Get(a) + SECONDS_PER_DAY
    ensures DayOfWeek(b) == (DayOfWeek(a) + 1) % 7
  {
    DayOfWeekOfSeconds(a);
    DayOfWeekOfSeconds(b);
    var q := Get(a) / SECONDS_PER_DAY;
    assert Get(b) / SECONDS_PER_DAY == q + 1;
    WeekdayStep(q);
  }

  /** A whole day later is the next day of the week. */
  lemma DayOfWeekAdvances(t: int32)
    requires 0 <= t && t + SECONDS_PER_DAY <= INT32_MAX
    ensures DayOfWeek(SecondsToDateTime(t + SECONDS_PER_DAY)) == (DayOfWeek(SecondsToDateTime(t)) + 1) % 7
  {
    var u: int32 := t + SECONDS_PER_DAY;
    var a, b := SecondsToDateTime(t), SecondsToDateTime(u);
    SecondsRoundTrip(t);
    SecondsRoundTrip(u);
    assert Get(b) == Get(a) + SECONDS_PER_DAY;
    DayOfWeekNextDay(a, b);
  }

  /** 2000 is a leap year: 29 February exists, and 1 March is one day after
      it. */
  lemma LeapDay2000()
    ensures IsValid(FromDate(2000, 2, 29))
    ensures Get(FromDate(2000, 3, 1)) - Get(FromDate(2000, 2, 29)) == SECONDS_PER_DAY
  {
    DayNumberCounts(0, 2, 29);
    DayNumberCounts(0, 3, 1);
    assert DaysBefore(2) == 31 && DaysBefore(3) == 59;
    assert Seconds(59, 0, 0, 0) == 59 * SECONDS_PER_DAY;
    assert Seconds(60, 0, 0, 0) == 60 * SECONDS_PER_DAY;
  }

  /** The build-time sample 2009-12-26 12:34:56 is 315146096 seconds, and a
      Saturday. */
  lemma Sample2009()
    ensures Get(FromComponents(2009, 12, 26, 12, 34, 56)) == 315146096
    ensures DayOfWeek(FromComponents(2009, 12, 26, 12, 34, 56)) == 6
  {
    assert FromComponents(2009, 12, 26, 12, 34, 56) == DateTime(9, 12, 26, 12, 34, 56);
    assert DaysBefore(6) == 151;
    assert DaysBefore(12) == 334;
  }

  /** The largest `long` is 2068-01-19 03:14:07 and back; one second later
      `get()` wraps to the smallest. */
  lemma LastRepresentableSeconds()
    ensures Get(FromComponents(2068, 1, 19, 3, 14, 7)) == INT32_MAX
    ensures Get(FromComponents(2068, 1, 19, 3, 14, 8)) == INT32_MIN
  {
    assert FromComponents(2068, 1, 19, 3, 14, 7) == DateTime(68, 1, 19, 3, 14, 7);
    assert FromComponents(2068, 1, 19, 3, 14, 8) == DateTime(68, 1, 19, 3, 14, 8);
  }

  /** `DateTime(LONG_MAX)` is 2068-01-19 03:14:07. */
  lemma LastRepresentable()
    ensures SecondsToDateTime(INT32_MAX) == FromComponents(2068, 1, 19, 3, 14, 7)
  {
    var dt := DateTime(68, 1, 19, 3, 14, 7);
    assert FromComponents(2068, 1, 19, 3, 14, 7) == dt;
    assert IsValid(dt);
    LastRepresentableSeconds();
    FieldsRoundTrip(dt);
  }
}
