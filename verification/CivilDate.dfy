/** NTPClient::getFormattedDate and getFormattedTime: seconds since 1970 printed
    in the date-time format of section 5.6 of RFC 3339. */
module CivilDate {
  import opened CInts

  datatype Option<+T> = None | Some(value: T)

  // --------------------------------------------------------- the calendar

  /** The LEAP_YEAR macro, which is the leap rule of Appendix C of RFC 3339. */
  predicate Leap(y: nat) {
    y > 0 && y % 4 == 0 && (y % 100 != 0 || y % 400 == 0)
  }

  function YearLength(y: nat): nat {
    if Leap(y) then 366 else 365
  }

  /** Days from 1970-01-01 to the first of January of year y, by the Gregorian
      count of leap days. */
  function DaysToYear(y: nat): int
    requires y > 0
  {
    365 * (y - 1970) + (y - 1) / 4 - (y - 1) / 100 + (y - 1) / 400 - 477
  }

  lemma NextYear(y: nat)
    requires y > 0
    ensures DaysToYear(y + 1) == DaysToYear(y) + YearLength(y)
  {
    LeapDays(y);
  }

  /** One more multiple of d is counted just when y is one. */
  lemma Multiples(y: nat, d: nat)
    requires y > 0 && d > 0
    ensures y / d == (y - 1) / d + if y % d == 0 then 1 else 0
  {
    var q := y / d;
    assert y == q * d + y % d;
    if y % d == 0 {
      assert (q - 1) * d == q * d - d;
      DivUnique(y - 1, d, q - 1);
    } else {
      DivUnique(y - 1, d, q);
    }
  }

  /** A multiple of d * k is one of d. */
  lemma Divides(y: nat, d: nat, k: nat)
    requires 0 < d && 0 < k && y % (d * k) == 0
    ensures y % d == 0
  {
    var q := y / (d * k);
    assert y == q * (d * k) == (q * k) * d;
    DivUnique(y, d, q * k);
    assert y == (y / d) * d + y % d;
  }

  /** The leap day of year y is counted after February. */
  lemma LeapDays(y: nat)
    requires y > 0
    ensures y / 4 - y / 100 + y / 400 == (y - 1) / 4 - (y - 1) / 100 + (y - 1) / 400 + if Leap(y) then 1 else 0
  {
    Multiples(y, 4);
    Multiples(y, 100);
    Multiples(y, 400);
    if y % 400 == 0 {
      Divides(y, 100, 4);
    }
    if y % 100 == 0 {
      Divides(y, 4, 25);
    }
  }

  lemma {:induction false} YearsOrdered(y: nat, z: nat)
    requires 0 < y <= z
    ensures DaysToYear(y) + 365 * (z - y) <= DaysToYear(z)
    ensures y < z ==> DaysToYear(y) + YearLength(y) <= DaysToYear(z)
  {
    if y < z {
      YearsOrdered(y, z - 1);
      NextYear(z - 1);
    }
  }

  /** Section 5.7 of RFC 3339. */
  function MonthLength(y: nat, m: nat): nat
    requires 1 <= m <= 12
  {
    if m == 2 then (if Leap(y) then 29 else 28) else if m == 4 || m == 6 || m == 9 || m == 11 then 30 else 31
  }

  const BEFORE_MONTH: seq<nat> := [0, 31, 59, 90, 120, 151, 181, 212, 243, 273, 304, 334, 365]

  /** Days of the year before the first of month m; month 13 is the whole year. */
  function DaysToMonth(y: nat, m: nat): nat
    requires 1 <= m <= 13
  {
    BEFORE_MONTH[m - 1] + if m > 2 && Leap(y) then 1 else 0
  }

  lemma NextMonth(y: nat, m: nat)
    requires 1 <= m <= 12
    ensures DaysToMonth(y, m + 1) == DaysToMonth(y, m) + MonthLength(y, m)
    ensures DaysToMonth(y, 13) == YearLength(y)
  {
  }

  lemma {:induction false} MonthsOrdered(y: nat, m: nat, n: nat)
    requires 1 <= m < n <= 13
    ensures DaysToMonth(y, m) + MonthLength(y, m) <= DaysToMonth(y, n)
  {
    NextMonth(y, n - 1);
    if m < n - 1 {
      MonthsOrdered(y, m, n - 1);
    }
  }

  datatype Civil = Civil(year: nat, month: nat, day: nat, hour: nat, minute: nat, second: nat)

  predicate Valid(c: Civil) {
    && 1970 <= c.year <= 9999 && 1 <= c.month <= 12 && 1 <= c.day <= MonthLength(c.year, c.month)
    && c.hour < 24 && c.minute < 60 && c.second < 60
  }

  function Day(c: Civil): int
    requires Valid(c)
  {
    DaysToYear(c.year) + DaysToMonth(c.year, c.month) + c.day - 1
  }

  function SecondOfDay(c: Civil): nat {
    3600 * c.hour + 60 * c.minute + c.second
  }

  /** The second a civil date and time names. */
  function Instant(c: Civil): int
    requires Valid(c)
  {
    86400 * Day(c) + SecondOfDay(c)
  }

  /** No two dates name the same day, no two times the same second. */
  lemma DayUnique(c: Civil, d: Civil)
    requires Valid(c) && Valid(d)
    ensures Day(c) == Day(d) <==> c.year == d.year && c.month == d.month && c.day == d.day
  {
    InYear(c);
    InYear(d);
    if c.year < d.year {
      YearsOrdered(c.year, d.year);
    } else if d.year < c.year {
      YearsOrdered(d.year, c.year);
    } else if c.month < d.month {
      MonthsOrdered(c.year, c.month, d.month);
    } else if d.month < c.month {
      MonthsOrdered(c.year, d.month, c.month);
    }
  }

  lemma InYear(c: Civil)
    requires Valid(c)
    ensures DaysToYear(c.year) <= Day(c) < DaysToYear(c.year) + YearLength(c.year)
  {
    MonthsOrdered(c.year, c.month, 13);
    NextMonth(c.year, 12);
  }

  lemma InstantUnique(c: Civil, d: Civil)
    requires Valid(c) && Valid(d)
    ensures Instant(c) == Instant(d) <==> c == d
  {
    DayUnique(c, d);
    SecondUnique(c, d);
    SamePair(Day(c), SecondOfDay(c), Day(d), SecondOfDay(d));
  }

  lemma SecondUnique(c: Civil, d: Civil)
    requires Valid(c) && Valid(d)
    ensures SecondOfDay(c) < 86400 && SecondOfDay(d) < 86400
    ensures SecondOfDay(c) == SecondOfDay(d) <==> c.hour == d.hour && c.minute == d.minute && c.second == d.second
  {
    if SecondOfDay(c) == SecondOfDay(d) {
      SameTime(c.hour, c.minute, c.second, d.hour, d.minute, d.second);
    }
  }

  lemma SameTime(h: nat, m: nat, s: nat, h': nat, m': nat, s': nat)
    requires h < 24 && h' < 24 && m < 60 && m' < 60 && s < 60 && s' < 60
    requires 3600 * h + 60 * m + s == 3600 * h' + 60 * m' + s'
    ensures h == h' && m == m' && s == s'
  {
  }

  lemma SamePair(a: int, s: nat, b: int, t: nat)
    requires s < 86400 && t < 86400
    ensures 86400 * a + s == 86400 * b + t <==> a == b && s == t
  {
  }

  // ------------------------------------------------------------- the text

  function Digit(n: nat): char
    requires n < 10
  {
    ('0' as int + n) as char
  }

  predicate IsDigit(c: char) {
    '0' <= c <= '9'
  }

  function Value(c: char): nat
    requires IsDigit(c)
  {
    c as int - '0' as int
  }

  /** Arduino's String(n). */
  function Decimal(n: nat): string {
    if n < 10 then [Digit(n)] else Decimal(n / 10) + [Digit(n % 10)]
  }

  /** `n < 10 ? "0" + String(n) : String(n)`. */
  function Pad2(n: nat): string {
    if n < 10 then "0" + Decimal(n) else Decimal(n)
  }

  /** The digits are the ten characters in order, and are read as what they show. */
  lemma DigitShows(n: nat)
    requires n < 10
    ensures Decimal(n) == ["0123456789"[n]] && IsDigit("0123456789"[n]) && Value("0123456789"[n]) == n
  {
  }

  function TwoChars(n: nat): (s: string)
    requires n < 100
    ensures |s| == 2
  {
    [Digit(n / 10), Digit(n % 10)]
  }

  lemma PadTwo(n: nat)
    requires n < 100
    ensures Pad2(n) == TwoChars(n)
  {
    if n < 10 {
      assert Digit(n / 10) == '0' && n % 10 == n;
    } else {
      assert Decimal(n) == Decimal(n / 10) + [Digit(n % 10)];
    }
  }

  lemma DecimalFour(n: nat)
    requires 1000 <= n < 10000
    ensures Decimal(n) == TwoChars(n / 100) + TwoChars(n % 100)
  {
    var a, b := n / 10, n / 100;
    assert a / 10 == b && a % 10 == (n % 100) / 10 && n % 10 == (n % 100) % 10;
    assert Decimal(b) == TwoChars(b);
    assert Decimal(a) == Decimal(b) + [Digit(a % 10)];
    assert Decimal(n) == Decimal(a) + [Digit(n % 10)];
    assert TwoChars(b) + [Digit(a % 10)] + [Digit(n % 10)] == TwoChars(b) + TwoChars(n % 100);
  }

  function PrintTime(hour: nat, minute: nat, second: nat): string {
    Pad2(hour) + ":" + Pad2(minute) + ":" + Pad2(second)
  }

  function Print(c: Civil): string {
    Decimal(c.year) + "-" + Pad2(c.month) + "-" + Pad2(c.day) + "T" + PrintTime(c.hour, c.minute, c.second) + "Z"
  }

  /** A date-time as section 5.6 of RFC 3339 lays it out, in whole seconds of UTC. */
  predicate IsDateTime(s: string) {
    && |s| == 20
    && s[4] == '-' && s[7] == '-' && s[10] == 'T' && s[13] == ':' && s[16] == ':' && s[19] == 'Z'
    && IsDigit(s[0]) && IsDigit(s[1]) && IsDigit(s[2]) && IsDigit(s[3])
    && IsDigit(s[5]) && IsDigit(s[6]) && IsDigit(s[8]) && IsDigit(s[9])
    && IsDigit(s[11]) && IsDigit(s[12]) && IsDigit(s[14]) && IsDigit(s[15]) && IsDigit(s[17]) && IsDigit(s[18])
  }

  function Two(a: char, b: char): nat
    requires IsDigit(a) && IsDigit(b)
  {
    10 * Value(a) + Value(b)
  }

  function Fields(s: string): Civil
    requires IsDateTime(s)
  {
    Civil(100 * Two(s[0], s[1]) + Two(s[2], s[3]), Two(s[5], s[6]), Two(s[8], s[9]),
          Two(s[11], s[12]), Two(s[14], s[15]), Two(s[17], s[18]))
  }

  /** The second a text names, if it is a date-time of this form at all. */
  function Denotes(s: string): Option<int> {
    if IsDateTime(s) && Valid(Fields(s)) then Some(Instant(Fields(s))) else None
  }

  lemma TwoDigits(n: nat)
    requires n < 100
    ensures var s := TwoChars(n); IsDigit(s[0]) && IsDigit(s[1]) && Two(s[0], s[1]) == n
  {
  }

  lemma DigitsBack(a: char, b: char)
    requires IsDigit(a) && IsDigit(b)
    ensures Two(a, b) < 100 && TwoChars(Two(a, b)) == [a, b]
  {
  }

  /** The twenty characters of a date-time. */
  function Layout(c: Civil): (s: string)
    requires Valid(c)
    ensures |s| == 20
  {
    TwoChars(c.year / 100) + TwoChars(c.year % 100) + "-" + TwoChars(c.month) + "-" + TwoChars(c.day) + "T" +
    TwoChars(c.hour) + ":" + TwoChars(c.minute) + ":" + TwoChars(c.second) + "Z"
  }

  lemma PrintLayout(c: Civil)
    requires Valid(c)
    ensures Print(c) == Layout(c)
  {
    DecimalFour(c.year);
    PadTwo(c.month);
    PadTwo(c.day);
    PadTwo(c.hour);
    PadTwo(c.minute);
    PadTwo(c.second);
  }

  /** Reading what was printed gives the fields back. */
  lemma PrintRead(c: Civil)
    requires Valid(c)
    ensures IsDateTime(Print(c)) && Fields(Print(c)) == c
  {
    PrintLayout(c);
    ReadLayout(c, Print(c));
  }

  /** n stands in two digits from place i on. */
  predicate ShowsTwo(s: string, i: nat, n: nat) {
    i + 1 < |s| && n < 100 && s[i] == "0123456789"[n / 10] && s[i + 1] == "0123456789"[n % 10]
  }

  lemma TwoShown(s: string, i: nat, n: nat)
    requires i + 2 <= |s| && n < 100 && s[i..i + 2] == TwoChars(n)
    ensures ShowsTwo(s, i, n)
  {
    DigitShows(n / 10);
    DigitShows(n % 10);
    assert s[i] == s[i..i + 2][0] && s[i + 1] == s[i..i + 2][1];
  }

  /** Character by character, what is printed. */
  lemma PrintShows(c: Civil)
    requires Valid(c)
    ensures var s := Print(c);
      && |s| == 20 && s[4] == '-' && s[7] == '-' && s[10] == 'T' && s[13] == ':' && s[16] == ':' && s[19] == 'Z'
      && ShowsTwo(s, 0, c.year / 100) && ShowsTwo(s, 2, c.year % 100) && ShowsTwo(s, 5, c.month) && ShowsTwo(s, 8, c.day)
      && ShowsTwo(s, 11, c.hour) && ShowsTwo(s, 14, c.minute) && ShowsTwo(s, 17, c.second)
  {
    PrintLayout(c);
    PrintRead(c);
    LayoutShows(c, Print(c));
  }

  lemma LayoutShows(c: Civil, s: string)
    requires Valid(c) && s == Layout(c)
    ensures ShowsTwo(s, 0, c.year / 100) && ShowsTwo(s, 2, c.year % 100) && ShowsTwo(s, 5, c.month) && ShowsTwo(s, 8, c.day)
    ensures ShowsTwo(s, 11, c.hour) && ShowsTwo(s, 14, c.minute) && ShowsTwo(s, 17, c.second)
  {
    LayoutSlices(c, s);
    TwoShown(s, 0, c.year / 100);
    TwoShown(s, 2, c.year % 100);
    TwoShown(s, 5, c.month);
    TwoShown(s, 8, c.day);
    TwoShown(s, 11, c.hour);
    TwoShown(s, 14, c.minute);
    TwoShown(s, 17, c.second);
  }

  lemma LayoutSlices(c: Civil, s: string)
    requires Valid(c) && s == Layout(c)
    ensures s[0..2] == TwoChars(c.year / 100) && s[2..4] == TwoChars(c.year % 100)
    ensures s[5..7] == TwoChars(c.month) && s[8..10] == TwoChars(c.day)
    ensures s[11..13] == TwoChars(c.hour) && s[14..16] == TwoChars(c.minute) && s[17..19] == TwoChars(c.second)
  {
  }

  lemma ReadLayout(c: Civil, s: string)
    requires Valid(c) && s == Layout(c)
    ensures IsDateTime(s) && Fields(s) == c
  {
    LayoutSlices(c, s);
    TwoDigits(c.year / 100);
    TwoDigits(c.year % 100);
    TwoDigits(c.month);
    TwoDigits(c.day);
    TwoDigits(c.hour);
    TwoDigits(c.minute);
    TwoDigits(c.second);
  }

  /** Printing what was read gives the text back. */
  lemma ReadPrint(s: string)
    requires IsDateTime(s) && Valid(Fields(s))
    ensures Print(Fields(s)) == s
  {
    var c := Fields(s);
    PrintLayout(c);
    DigitsBack(s[0], s[1]);
    DigitsBack(s[2], s[3]);
    assert c.year / 100 == Two(s[0], s[1]) && c.year % 100 == Two(s[2], s[3]);
    DigitsBack(s[5], s[6]);
    DigitsBack(s[8], s[9]);
    DigitsBack(s[11], s[12]);
    DigitsBack(s[14], s[15]);
    DigitsBack(s[17], s[18]);
    Pieces(s);
  }

  lemma Pieces(s: string)
    requires IsDateTime(s)
    ensures s == [s[0], s[1]] + [s[2], s[3]] + "-" + [s[5], s[6]] + "-" + [s[8], s[9]] + "T" +
                 [s[11], s[12]] + ":" + [s[14], s[15]] + ":" + [s[17], s[18]] + "Z"
  {
  }

  /** Every second has one text. */
  lemma TextUnique(s: string, t: string)
    ensures Denotes(s) == Denotes(t) ==> Denotes(s) == None || s == t
  {
    if Denotes(s).Some? && Denotes(t).Some? {
      InstantUnique(Fields(s), Fields(t));
      ReadPrint(s);
      ReadPrint(t);
    }
  }

  // ---------------------------------------------------------- the printer

  /** A time of day in two-digit fields, */
  predicate IsTime(s: string) {
    && |s| == 8 && s[2] == ':' && s[5] == ':'
    && IsDigit(s[0]) && IsDigit(s[1]) && IsDigit(s[3]) && IsDigit(s[4]) && IsDigit(s[6]) && IsDigit(s[7])
    && Two(s[0], s[1]) < 24 && Two(s[3], s[4]) < 60 && Two(s[6], s[7]) < 60
  }

  /** and the second of the day it names. */
  function TimeDenotes(s: string): nat
    requires IsTime(s)
  {
    3600 * Two(s[0], s[1]) + 60 * Two(s[3], s[4]) + Two(s[6], s[7])
  }

  lemma TimeRead(hour: nat, minute: nat, second: nat)
    requires hour < 24 && minute < 60 && second < 60
    ensures var s := PrintTime(hour, minute, second);
      IsTime(s) && TimeDenotes(s) == 3600 * hour + 60 * minute + second
  {
    PadTwo(hour);
    PadTwo(minute);
    PadTwo(second);
    TwoDigits(hour);
    TwoDigits(minute);
    TwoDigits(second);
    var h, m, s := TwoChars(hour), TwoChars(minute), TwoChars(second);
    assert PrintTime(hour, minute, second) == [h[0], h[1], ':', m[0], m[1], ':', s[0], s[1]];
  }

  /** A second of the day has one such text. */
  lemma TimeUnique(s: string, hour: nat, minute: nat, second: nat)
    requires IsTime(s) && hour < 24 && minute < 60 && second < 60
    requires TimeDenotes(s) == 3600 * hour + 60 * minute + second
    ensures s == PrintTime(hour, minute, second)
  {
    PadTwo(hour);
    PadTwo(minute);
    PadTwo(second);
    DigitsBack(s[0], s[1]);
    DigitsBack(s[3], s[4]);
    DigitsBack(s[6], s[7]);
    assert Two(s[0], s[1]) == hour && Two(s[3], s[4]) == minute && Two(s[6], s[7]) == second;
    assert s == [s[0], s[1]] + ":" + [s[3], s[4]] + ":" + [s[6], s[7]];
  }

  /** getFormattedTime, the clock having been read if `secs` is zero: the second
      of the day, which no other text of this form names. */
  method GetFormattedTime(secs: uint32, clock: uint32) returns (s: string)
    ensures IsTime(s) && TimeDenotes(s) == (if secs != 0 then secs else clock) % 86400
  {
    var rawTime: uint32 := if secs != 0 then secs else clock;
    var hours := (rawTime % 86400) / 3600;
    var hoursStr := if hours < 10 then "0" + Decimal(hours) else Decimal(hours);
    var minutes := (rawTime % 3600) / 60;
    var minuteStr := if minutes < 10 then "0" + Decimal(minutes) else Decimal(minutes);
    var seconds := rawTime % 60;
    var secondStr := if seconds < 10 then "0" + Decimal(seconds) else Decimal(seconds);
    s := hoursStr + ":" + minuteStr + ":" + secondStr;
    SplitDay(rawTime);
    assert s == PrintTime(hours, minutes, seconds);
    TimeRead(hours, minutes, seconds);
  }

  /** The year loop: it stops at the year that holds the day, and turns the day
      into a day of that year. */
  method FindYear(day: uint32) returns (year: uint32, rest: uint32)
    requires day < 50000
    ensures 1970 <= year < 2108 && rest < YearLength(year) && DaysToYear(year) + rest == day
  {
    var days: uint32 := 0;
    year := 1970;
    days := days + YearLength(year);
    NextYear(1970);
    while days <= day
      invariant 1970 <= year < 2108 && days == DaysToYear(year + 1) <= day + 366
      invariant DaysToYear(year) <= day
      decreases day + 366 - days
    {
      YearsOrdered(1970, year + 1);
      year := year + 1;
      days := days + YearLength(year);
      NextYear(year);
    }
    NextYear(year);
    rest := day - (days - YearLength(year));
  }

  /** The month loop: it always breaks before the year runs out. */
  method FindMonth(year: uint32, day: uint32) returns (month: uint8, rest: uint32)
    requires day < YearLength(year)
    ensures 0 <= month < 12 && rest < MonthLength(year, month + 1)
    ensures DaysToMonth(year, month + 1) + rest == day
  {
    rest := day;
    month := 0;
    NextMonth(year, 12);
    while month < 12
      invariant 0 <= month <= 12 && DaysToMonth(year, month + 1) + rest == day
    {
      var monthLength: uint8 := if month == 1 then (if Leap(year) then 29 else 28) else MONTH_DAYS[month];
      NextMonth(year, month + 1);
      if rest < monthLength {
        break;
      }
      rest := rest - monthLength;
      month := month + 1;
    }
  }

  const MONTH_DAYS: seq<uint8> := [31, 28, 31, 30, 31, 30, 31, 31, 30, 31, 30, 31]

  /** getFormattedDate. With `secs` zero the clock is read twice, once for the
      date and once, in getFormattedTime, for the time. */
  method GetFormattedDate(secs: uint32, clock: uint32, clock': uint32) returns (s: string)
    ensures secs != 0 ==> Denotes(s) == Some(secs)
    ensures secs == 0 ==> Denotes(s) == Some(86400 * (clock / 86400) + clock' % 86400)
  {
    var rawTime: uint32 := (if secs != 0 then secs else clock) / 86400;
    ghost var c;
    s, c := PrintDate(rawTime, secs, clock');
    PrintRead(c);
  }

  method PrintDate(day: uint32, secs: uint32, clock: uint32) returns (s: string, ghost c: Civil)
    requires day < 50000
    ensures Valid(c) && s == Print(c)
    ensures Day(c) == day && SecondOfDay(c) == (if secs != 0 then secs else clock) % 86400
  {
    var year, rawTime := FindYear(day);
    var month;
    month, rawTime := FindMonth(year, rawTime);
    month := month + 1;
    var monthStr := if month < 10 then "0" + Decimal(month) else Decimal(month);
    rawTime := rawTime + 1;
    var dayStr := if rawTime < 10 then "0" + Decimal(rawTime) else Decimal(rawTime);
    var time := GetFormattedTime(if secs != 0 then secs else 0, clock);
    s := Decimal(year) + "-" + monthStr + "-" + dayStr + "T" + time + "Z";
    ghost var t := if secs != 0 then secs else clock;
    c := Civil(year, month, rawTime, t % 86400 / 3600, t % 3600 / 60, t % 60);
    SplitDay(t);
    TimeUnique(time, c.hour, c.minute, c.second);
  }

  lemma SplitDay(t: nat)
    ensures 3600 * (t % 86400 / 3600) + 60 * (t % 3600 / 60) + t % 60 == t % 86400
    ensures t % 86400 / 3600 < 24 && t % 3600 / 60 < 60
  {
    Remainders(t, 3600, 24, 86400);
    Remainders(t, 60, 60, 3600);
  }

  /** What is left of t over a * n is made of what is left of it over a. */
  lemma Remainders(t: nat, a: nat, n: nat, an: nat)
    requires a > 0 && n > 0 && an == a * n
    ensures t % an / a < n && t % an == t % an / a * a + t % a
  {
    var q, d := t / an, t % an;
    assert t == q * an + d;
    Regroup(q, n, a, d / a);
    SamePart(t, a, q * n + d / a, d, d / a, q * an);
    if d / a >= n {
      ProductMono(n, d / a, a);
    }
  }

  lemma SamePart(t: nat, a: nat, k: int, d: nat, h: int, whole: int)
    requires a > 0 && t == whole + d && h == d / a && k * a == whole + h * a
    ensures t % a == d - h * a && d == h * a + d % a
  {
    assert d == h * a + d % a;
    DivUnique(t, a, k);
    assert t == t / a * a + t % a;
  }

  lemma Regroup(q: int, n: int, a: int, r: int)
    ensures (q * n + r) * a == q * (a * n) + r * a
  {
  }

  /** The two readings print the later one's instant exactly when both fall on
      the same day; across midnight the text is a day behind. */
  lemma TornMidnight(clock: uint32, clock': uint32)
    requires clock <= clock'
    ensures 86400 * (clock / 86400) + clock' % 86400 == clock' <==> clock / 86400 == clock' / 86400
    ensures clock / 86400 + 1 == clock' / 86400 ==>
              86400 * (clock / 86400) + clock' % 86400 == clock' - 86400
  {
    assert clock' == 86400 * (clock' / 86400) + clock' % 86400;
  }

  /** Two readings, either side of the first midnight, that do: what is printed
      is the instant 0, */
  lemma TornAtMidnight(clock: uint32, clock': uint32)
    requires clock == 86399 && clock' == 86400
    ensures 86400 * (clock / 86400) + clock' % 86400 == 0 != clock'
  {
    DivUnique(clock, 86400, 0);
    DivUnique(clock', 86400, 1);
    TornMidnight(clock, clock');
  }

  /** and its text is the first second of 1970, a day gone by. */
  lemma EpochText(c: Civil)
    requires c == Civil(1970, 1, 1, 0, 0, 0)
    ensures Valid(c) && Denotes(Print(c)) == Some(0)
  {
    EpochIsZero(c);
    PrintRead(c);
  }

  lemma EpochIsZero(c: Civil)
    requires c.year == 1970 && c.month == 1 && c.day == 1 && c.hour == 0 && c.minute == 0 && c.second == 0
    ensures Valid(c) && Instant(c) == 0
  {
    assert MonthLength(c.year, c.month) == 31;
    assert Valid(c);
    EpochYear(c.year);
    assert DaysToMonth(c.year, c.month) == 0;
    assert Day(c) == 0;
  }

  lemma EpochYear(y: nat)
    requires y == 1970
    ensures DaysToYear(y) == 0
  {
    DivUnique(y - 1, 4, 492);
    DivUnique(y - 1, 100, 19);
    DivUnique(y - 1, 400, 4);
  }

  // ------------------------------------------------------------ day of week

  /** getDay: 0 is Sunday. */
  function GetDay(epoch: uint32): int {
    (epoch / 86400 + 4) % 7
  }

  const SAKAMOTO: seq<int> := [0, 3, 2, 5, 0, 3, 5, 1, 4, 6, 2, 4]

  /** Sakamoto's day-of-week rule, which knows nothing of an epoch. */
  function DayOfWeek(y: nat, m: nat, d: nat): int
    requires y > 0 && 1 <= m <= 12
  {
    var y' := if m < 3 then y - 1 else y;
    (y' + y' / 4 - y' / 100 + y' / 400 + SAKAMOTO[m - 1] + d) % 7
  }

  /** The day getDay names is the day of the week of the date printed. */
  lemma GetDayIsDayOfWeek(epoch: uint32, c: Civil)
    requires Valid(c) && Instant(c) == epoch
    ensures GetDay(epoch) == DayOfWeek(c.year, c.month, c.day)
  {
    assert epoch / 86400 == Day(c);
    var y' := if c.month < 3 then c.year - 1 else c.year;
    var sum := y' + y' / 4 - y' / 100 + y' / 400 + SAKAMOTO[c.month - 1] + c.day;
    WholeWeeks(c);
    SameWeekday(Day(c) + 4, WeeksBetween(c.year, c.month), sum);
  }

  lemma SameWeekday(a: int, w: int, b: int)
    requires a == 7 * w + b
    ensures a % 7 == b % 7
  {
  }

  lemma WholeWeeks(c: Civil)
    requires Valid(c)
    ensures var y' := if c.month < 3 then c.year - 1 else c.year;
      Day(c) + 4 == 7 * WeeksBetween(c.year, c.month)
                    + (y' + y' / 4 - y' / 100 + y' / 400 + SAKAMOTO[c.month - 1] + c.day)
  {
    LeapDays(c.year);
    WeeksExact(c.year, c.month);
  }

  /** How many whole weeks the two counts differ by. */
  function WeeksBetween(y: nat, m: nat): int
    requires y > 0 && 1 <= m <= 12
  {
    52 * y + (BEFORE_MONTH[m - 1] - SAKAMOTO[m - 1] + (if m < 3 then 1 else 0) - 719524) / 7
  }

  lemma WeeksExact(y: nat, m: nat)
    requires y > 0 && 1 <= m <= 12
    ensures 7 * WeeksBetween(y, m) ==
            364 * y + BEFORE_MONTH[m - 1] - SAKAMOTO[m - 1] + (if m < 3 then 1 else 0) - 719524
  {
    var rest := BEFORE_MONTH[m - 1] - SAKAMOTO[m - 1] + (if m < 3 then 1 else 0) - 719524;
    assert rest % 7 == 0;
  }
}
