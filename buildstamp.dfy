/** The `DateTime(const char* date, const char* time)` constructor of
    MCP7940x.cpp: it reads the compiler's build stamp, `__DATE__` as
    "Mmm dd yyyy" and `__TIME__` as "hh:mm:ss", with `conv2d` for every
    two-digit field and a switch on the letters of the month name.

    A C `char` is taken to be its character code; the build-stamp strings
    are ASCII. */
module BuildStamp {
  import opened CTypes
  import opened Calendar

  datatype Option<T> = None | Some(value: T)

  predicate IsDigit(c: char) {
    '0' <= c <= '9'
  }

  /** The value of a decimal digit character. */
  function Digit(c: char): int {
    c as int - '0' as int
  }

  /** `conv2d(p)`: the tens character counts only if it is a digit (a
      leading space reads as 0); the units character is taken as a digit
      whatever it is, and the sum is stored into a `uint8_t`. */
  function Conv2d(p: seq<char>): (r: uint8)
    requires |p| >= 2
    ensures IsDigit(p[0]) && IsDigit(p[1]) ==> r == 10 * Digit(p[0]) + Digit(p[1])
    ensures !IsDigit(p[0]) ==> r == ToUint8(Digit(p[1]))
    ensures !IsDigit(p[0]) && IsDigit(p[1]) ==> r == Digit(p[1])
  {
    var v: uint8 := if IsDigit(p[0]) then Digit(p[0]) else 0;
    ToUint8(10 * v + p[1] as int - '0' as int)
  }

  /** The switch on `date[0]`: the month number of a three-letter English
      month name. An unknown first letter leaves the month field as it was,
      which is `None` here. Only the letters the switch looks at matter. */
  function MonthFromName(date: seq<char>): (r: Option<uint8>)
    requires |date| >= 3
    ensures r.Some? ==> 1 <= r.value <= 12
    ensures r.Some? <==> date[0] in {'J', 'F', 'A', 'M', 'S', 'O', 'N', 'D'}
  {
    match date[0]
    case 'J' => Some(if date[1] == 'a' then 1 else if date[2] == 'n' then 6 else 7)
    case 'F' => Some(2)
    case 'A' => Some(if date[2] == 'r' then 4 else 8)
    case 'M' => Some(if date[2] == 'r' then 3 else 5)
    case 'S' => Some(9)
    case 'O' => Some(10)
    case 'N' => Some(11)
    case 'D' => Some(12)
    case _ => None
  }

  /** The whole constructor. The fields are filled from fixed positions:
      year offset from `date[9..10]` (the last two digits of the year, so
      no 2000 is taken off), day from `date[4..5]`, and the time from
      `time[0..1]`, `time[3..4]`, `time[6..7]`. `unsetMonth` stands for the
      uninitialised month field that an unknown month name leaves. */
  function FromBuildStamp(date: seq<char>, time: seq<char>, unsetMonth: uint8): (dt: DateTime)
    requires |date| >= 11 && |time| >= 8
    ensures dt.yOff == Conv2d(date[9..]) && dt.d == Conv2d(date[4..])
    ensures dt.hh == Conv2d(time) && dt.mm == Conv2d(time[3..]) && dt.ss == Conv2d(time[6..])
    ensures MonthFromName(date).Some? ==> dt.m == MonthFromName(date).value
    ensures MonthFromName(date).None? ==> dt.m == unsetMonth
  {
    var m := match MonthFromName(date)
      case Some(k) => k
      case None => unsetMonth;
    DateTime(Conv2d(date[9..]), m, Conv2d(date[4..]),
             Conv2d(time), Conv2d(time[3..]), Conv2d(time[6..]))
  }

  // ---------------------------------------------------------------------
  // The build stamp as the compiler writes it

  /** The month names in the order of the calendar. */
  const MonthNames: seq<string> :=
    ["Jan", "Feb", "Mar", "Apr", "May", "Jun", "Jul", "Aug", "Sep", "Oct", "Nov", "Dec"]

  /** The digit character of 0..9. */
  function DigitChar(v: int): (c: char)
    requires 0 <= v <= 9
    ensures IsDigit(c) && Digit(c) == v
  {
    (v + '0' as int) as char
  }

  /** A value 0..99 as two digits with a leading zero, as in `__TIME__`. */
  function TwoDigits(v: int): (s: string)
    requires 0 <= v <= 99
    ensures |s| == 2 && IsDigit(s[0]) && IsDigit(s[1])
  {
    [DigitChar(v / 10), DigitChar(v % 10)]
  }

  /** A day of the month as `__DATE__` writes it: a space instead of a
      leading zero. */
  function DayField(v: int): (s: string)
    requires 0 <= v <= 99
    ensures |s| == 2
  {
    if v < 10 then [' ', DigitChar(v)] else TwoDigits(v)
  }

  /** `__DATE__` of a timestamp of the years 2000..2099. */
  function DateString(dt: DateTime): (s: string)
    requires IsValid(dt)
    ensures |s| == 11
  {
    MonthNames[dt.m - 1] + " " + DayField(dt.d) + " 20" + TwoDigits(dt.yOff)
  }

  /** `__TIME__` of a timestamp. */
  function TimeString(dt: DateTime): (s: string)
    requires IsValid(dt)
    ensures |s| == 8
  {
    TwoDigits(dt.hh) + ":" + TwoDigits(dt.mm) + ":" + TwoDigits(dt.ss)
  }

  // ---------------------------------------------------------------------
  // Properties

  /** `conv2d` reads back every two-digit field. */
  lemma Conv2dTwoDigits(v: int)
    requires 0 <= v <= 99
    ensures Conv2d(TwoDigits(v)) == v
  {
    assert 10 * (v / 10) + v % 10 == v;
  }

  /** `conv2d` reads back every space-padded day. */
  lemma Conv2dDayField(v: int)
    requires 0 <= v <= 99
    ensures Conv2d(DayField(v)) == v
  {
    if v >= 10 {
      Conv2dTwoDigits(v);
    }
  }

  /** Each of the twelve month names gives its month number, and no two
      names give the same one. */
  lemma MonthNamesDecode(i: int)
    requires 0 <= i < 12
    ensures MonthFromName(MonthNames[i]) == Some(i + 1)
  {
  }

  /** Parsing the stamp the compiler writes for a timestamp of the years
      2000..2099 gives that timestamp again, whatever the uninitialised
      month field held. */
  lemma BuildStampRoundTrip(dt: DateTime, unsetMonth: uint8)
    requires IsValid(dt)
    ensures FromBuildStamp(DateString(dt), TimeString(dt), unsetMonth) == dt
  {
    var date := DateString(dt);
    var time := TimeString(dt);
    assert date[9..] == TwoDigits(dt.yOff);
    assert date[4..6] == DayField(dt.d);
    assert date[..3] == MonthNames[dt.m - 1];
    MonthNamesDecode(dt.m - 1);
    assert MonthFromName(date) == MonthFromName(MonthNames[dt.m - 1]);
    Conv2dTwoDigits(dt.yOff);
    Conv2dDayField(dt.d);
    assert Conv2d(date[4..]) == Conv2d(DayField(dt.d));
    assert time[..2] == TwoDigits(dt.hh);
    assert time[3..5] == TwoDigits(dt.mm);
    assert time[6..] == TwoDigits(dt.ss);
    Conv2dTwoDigits(dt.hh);
    Conv2dTwoDigits(dt.mm);
    Conv2dTwoDigits(dt.ss);
    assert Conv2d(time) == Conv2d(TwoDigits(dt.hh));
    assert Conv2d(time[3..]) == Conv2d(TwoDigits(dt.mm));
  }

  /** The sample of the source comment: "Dec 26 2009", "12:34:56". */
  lemma SampleStamp(unsetMonth: uint8)
    ensures FromBuildStamp("Dec 26 2009", "12:34:56", unsetMonth) == DateTime(9, 12, 26, 12, 34, 56)
  {
    var dt := DateTime(9, 12, 26, 12, 34, 56);
    assert DateString(dt) == "Dec 26 2009";
    assert TimeString(dt) == "12:34:56";
    BuildStampRoundTrip(dt, unsetMonth);
  }
}
