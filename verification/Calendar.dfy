/** The calendar conversion of asn1.c: timestamps and the texts of UTCTime and GeneralizedTime. */
module Calendar {
  import opened Octets
  import Modular

  const ZERO: byte := 48
  const Z: byte := 90

  predicate Leap(year: int) { (year % 4 == 0 && year % 100 != 0) || year % 400 == 0 }

  function YearDays(year: int): nat { if Leap(year) then 366 else 365 }

  function MonthDays(year: int, month: int): nat {
    if month == 2 then (if Leap(year) then 29 else 28)
    else if month == 4 || month == 6 || month == 9 || month == 11 then 30
    else 31
  }

  datatype Time = Time(year: int, month: int, day: int, hour: int, minute: int, second: int)

  predicate Valid(t: Time) {
    t.year >= 1970 && 1 <= t.month <= 12 && 1 <= t.day <= MonthDays(t.year, t.month) &&
    0 <= t.hour <= 23 && 0 <= t.minute <= 59 && 0 <= t.second <= 59
  }

  /** Days from the start of 1970 to the start of a year, and from there to the start of a month. */
  function DaysToYear(year: int): nat { if year <= 1970 then 0 else DaysToYear(year - 1) + YearDays(year - 1) }

  function DaysToMonth(year: int, month: int): nat
    decreases month
  {
    if month <= 1 then 0 else DaysToMonth(year, month - 1) + MonthDays(year, month - 1)
  }

  function DayNumber(t: Time): int { DaysToYear(t.year) + DaysToMonth(t.year, t.month) + t.day - 1 }

  function SecondOfDay(t: Time): int { t.hour * 3600 + t.minute * 60 + t.second }

  /** Seconds since the start of 1970. */
  function Stamp(t: Time): int { DayNumber(t) * 86400 + SecondOfDay(t) }

  // ------------------------------------------------------------ the order of days

  lemma TwelveMonths(year: int)
    ensures DaysToMonth(year, 13) == YearDays(year)
  {
    assert DaysToMonth(year, 5) == 120 + if Leap(year) then 1 else 0;
    assert DaysToMonth(year, 9) == DaysToMonth(year, 5) + 123;
  }

  lemma {:induction false} MonthsGrow(year: int, m: int, n: int)
    requires 1 <= m <= n
    ensures m < n ==> DaysToMonth(year, m) + MonthDays(year, m) <= DaysToMonth(year, n)
    decreases n
  {
    if m < n - 1 { MonthsGrow(year, m, n - 1); }
  }

  lemma {:induction false} YearsGrow(y: int, z: int)
    requires 1970 <= y <= z
    ensures y < z ==> DaysToYear(y) + YearDays(y) <= DaysToYear(z)
    decreases z
  {
    if y < z - 1 { YearsGrow(y, z - 1); }
  }

  /** The day of the year of a valid date is in that year. */
  lemma InYear(t: Time)
    requires Valid(t)
    ensures DaysToYear(t.year) <= DayNumber(t) < DaysToYear(t.year) + YearDays(t.year)
  {
    MonthsGrow(t.year, t.month, 13);
    TwelveMonths(t.year);
  }

  /** Different dates are different days. */
  lemma DayOnce(s: Time, t: Time)
    requires Valid(s) && Valid(t) && DayNumber(s) == DayNumber(t)
    ensures s.year == t.year && s.month == t.month && s.day == t.day
  {
    InYear(s);
    InYear(t);
    if s.year <= t.year { YearsGrow(s.year, t.year); } else { YearsGrow(t.year, s.year); }
    assert s.year == t.year;
    if s.month <= t.month { MonthsGrow(s.year, s.month, t.month); } else { MonthsGrow(s.year, t.month, s.month); }
  }

  lemma SecondOnce(s: Time, t: Time)
    requires Valid(s) && Valid(t) && SecondOfDay(s) == SecondOfDay(t)
    ensures s.hour == t.hour && s.minute == t.minute && s.second == t.second
  {
  }

  /** A timestamp belongs to one valid time. */
  lemma StampOnce(s: Time, t: Time)
    requires Valid(s) && Valid(t) && Stamp(s) == Stamp(t)
    ensures s == t
  {
    assert 0 <= SecondOfDay(s) < 86400 && 0 <= SecondOfDay(t) < 86400;
    DayOnce(s, t);
    SecondOnce(s, t);
  }

  /** The years counted by the rule of the Gregorian calendar: every fourth, not every hundredth, every four hundredth. */
  lemma {:induction false} DaysByRule(year: int)
    requires year >= 1970
    ensures DaysToYear(year) == 365 * (year - 1970) + ((year - 1) / 4 - 492) - ((year - 1) / 100 - 19) + ((year - 1) / 400 - 4)
    decreases year
  {
    if year > 1970 {
      DaysByRule(year - 1);
      Quotients(year - 1, 4);
      Quotients(year - 1, 100);
      Quotients(year - 1, 400);
      Divisors(year - 1);
    }
  }

  /** The days in front of a month, by the rule with 367 twelfths; month 13 stands for the end of the year. */
  function MonthRule(year: int, m: int): int {
    (367 * m - 362) / 12 - if m <= 2 then 0 else if Leap(year) then 1 else 2
  }

  lemma {:induction false} MonthsByRule(year: int, m: int)
    requires 1 <= m <= 13
    ensures DaysToMonth(year, m) == MonthRule(year, m)
    decreases m
  {
    if m > 1 {
      MonthsByRule(year, m - 1);
      if m < 5 { } else if m < 8 { } else if m < 11 { }
    }
  }

  /** A date is valid exactly if its day comes before the start of the next month. */
  lemma ValidByRule(t: Time)
    ensures Valid(t) <==>
      t.year >= 1970 && 1 <= t.month <= 12 && t.day >= 1 && MonthRule(t.year, t.month) + t.day <= MonthRule(t.year, t.month + 1) &&
      0 <= t.hour < 24 && 0 <= t.minute < 60 && 0 <= t.second < 60
  {
    if 1 <= t.month <= 12 {
      MonthsByRule(t.year, t.month);
      MonthsByRule(t.year, t.month + 1);
    }
  }

  /** The timestamp by both rules. */
  lemma StampByRule(t: Time)
    requires Valid(t)
    ensures
      var y := t.year - 1;
      Stamp(t) == (365 * (t.year - 1970) + (y / 4 - 492) - (y / 100 - 19) + (y / 400 - 4) + MonthRule(t.year, t.month) + t.day - 1) * 86400 +
        t.hour * 3600 + t.minute * 60 + t.second
  {
    DaysByRule(t.year);
    MonthsByRule(t.year, t.month);
  }

  lemma Quotients(y: int, n: int)
    requires y > 0 && n > 1
    ensures y / n == (y - 1) / n + if y % n == 0 then 1 else 0
  {
    var q, r := y / n, y % n;
    assert y == q * n + r;
    if r == 0 {
      assert y - 1 == (q - 1) * n + (n - 1);
      Modular.DivUnique(y - 1, q - 1, n - 1, n);
    } else {
      Modular.DivUnique(y - 1, q, r - 1, n);
    }
  }

  lemma Divisors(y: int)
    ensures y % 400 == 0 ==> y % 100 == 0
    ensures y % 100 == 0 ==> y % 4 == 0
  {
  }

  // ------------------------------------------------------------ numbers of two digits

  function Two(n: int): bytes
    requires 0 <= n < 100
  {
    [ZERO + n / 10, ZERO + n % 10]
  }

  predicate Digit(a: byte) { ZERO <= a <= ZERO + 9 }

  function TwoOf(a: byte, b: byte): int { (a as int - 48) * 10 + (b as int - 48) }

  lemma TwoRead(n: int)
    requires 0 <= n < 100
    ensures var t := Two(n); |t| == 2 && TwoOf(t[0], t[1]) == n && Digit(t[0]) && Digit(t[1])
  {
  }

  lemma TwoWritten(a: byte, b: byte)
    requires Digit(a) && Digit(b)
    ensures 0 <= TwoOf(a, b) < 100 && Two(TwoOf(a, b)) == [a, b]
  {
  }

  predicate Small(ns: seq<int>) { forall i :: 0 <= i < |ns| ==> 0 <= ns[i] < 100 }

  predicate Digits(s: bytes) { forall i :: 0 <= i < |s| ==> Digit(s[i]) }

  function Pairs(ns: seq<int>): bytes
    requires Small(ns)
  {
    if ns == [] then [] else Two(ns[0]) + Pairs(ns[1..])
  }

  function Read(s: bytes): (ns: seq<int>)
    ensures |ns| == |s| / 2
  {
    if |s| < 2 then [] else [TwoOf(s[0], s[1])] + Read(s[2..])
  }

  lemma {:induction false} ReadAt(s: bytes, i: nat)
    requires 2 * i + 1 < |s|
    ensures Read(s)[i] == TwoOf(s[2 * i], s[2 * i + 1])
    decreases i
  {
    if i > 0 { ReadAt(s[2..], i - 1); }
  }

  lemma {:induction false} PairsRead(ns: seq<int>)
    requires Small(ns)
    ensures |Pairs(ns)| == 2 * |ns| && Digits(Pairs(ns)) && Read(Pairs(ns)) == ns
  {
    if ns != [] {
      var t, rest := Two(ns[0]), Pairs(ns[1..]);
      TwoRead(ns[0]);
      PairsRead(ns[1..]);
      assert (t + rest)[2..] == rest;
      assert [ns[0]] + ns[1..] == ns;
    }
  }

  lemma {:induction false} PairsWritten(s: bytes)
    requires Digits(s) && |s| % 2 == 0
    ensures Small(Read(s)) && Pairs(Read(s)) == s
    decreases |s|
  {
    if s != [] {
      TwoWritten(s[0], s[1]);
      PairsWritten(s[2..]);
      assert Read(s)[1..] == Read(s[2..]) && [s[0], s[1]] + s[2..] == s;
    }
  }

  // ------------------------------------------------------------ texts

  function MaxYear(utc: bool): int { if utc then 2050 else 9999 }

  /** The length of a text without its Z. */
  function Length(utc: bool): nat { if utc then 12 else 14 }

  /** The pairs of digits of a time. */
  function Numbers(utc: bool, t: Time): seq<int> {
    (if utc then [] else [t.year / 100]) + [t.year % 100, t.month, t.day, t.hour, t.minute, t.second]
  }

  lemma SmallNumbers(utc: bool, t: Time)
    requires Valid(t) && t.year <= MaxYear(utc)
    ensures Small(Numbers(utc, t))
  {
    assert 0 <= t.year % 100 < 100 && 0 <= t.year / 100 < 100;
  }

  function Text(utc: bool, t: Time): bytes
    requires Valid(t) && t.year <= MaxYear(utc)
  {
    SmallNumbers(utc, t);
    Pairs(Numbers(utc, t)) + [Z]
  }

  /** The characters of a text: the year with four digits or two, the other numbers with two, and a Z. */
  function Layout(utc: bool, t: Time): seq<int> {
    var year := if utc then YearLow(t.year) else YearHigh(t.year) + YearLow(t.year);
    year + Rest(t) + [90]
  }

  function YearHigh(y: int): seq<int> { [48 + y / 1000, 48 + y / 100 % 10] }

  function YearLow(y: int): seq<int> { [48 + y / 10 % 10, 48 + y % 10] }

  function Rest(t: Time): seq<int> {
    [48 + t.month / 10, 48 + t.month % 10, 48 + t.day / 10, 48 + t.day % 10, 48 + t.hour / 10, 48 + t.hour % 10,
     48 + t.minute / 10, 48 + t.minute % 10, 48 + t.second / 10, 48 + t.second % 10]
  }

  lemma TextIs(utc: bool, t: Time)
    requires Valid(t) && t.year <= MaxYear(utc)
    ensures Text(utc, t) == Layout(utc, t)
  {
    SmallNumbers(utc, t);
    YearPairs(t.year);
    var rest := [t.month, t.day, t.hour, t.minute, t.second];
    RestPairs(t);
    PairsCons(t.year % 100, rest);
    var ns := [t.year % 100] + rest;
    if utc {
      assert Numbers(utc, t) == ns;
    } else {
      PairsCons(t.year / 100, ns);
      assert Numbers(utc, t) == [t.year / 100] + ns;
      Assoc(Two(t.year / 100), Two(t.year % 100), Pairs(rest));
    }
  }

  lemma YearPairs(y: int)
    requires 0 <= y < 10000
    ensures Two(y / 100) == YearHigh(y) && Two(y % 100) == YearLow(y)
  {
    DivideTwice(y, 100, 10);
    var r := y % 100;
    YearEnd(y, y / 100, r / 10, r % 10);
  }

  lemma YearEnd(y: int, q: int, c: int, d: int)
    requires y == 100 * q + 10 * c + d && 0 <= c < 10 && 0 <= d < 10
    ensures y / 10 % 10 == c && y % 10 == d
  {
    assert y == (10 * q + c) * 10 + d;
    Modular.DivUnique(y, 10 * q + c, d, 10);
    Modular.ModUnique(y, 10 * q + c, d, 10);
    Modular.ModUnique(10 * q + c, q, c, 10);
  }

  lemma RestPairs(t: Time)
    requires Small([t.month, t.day, t.hour, t.minute, t.second])
    ensures Pairs([t.month, t.day, t.hour, t.minute, t.second]) == Rest(t)
  {
    FivePairs(t.month, t.day, t.hour, t.minute, t.second);
  }

  lemma PairsCons(n: int, ns: seq<int>)
    requires 0 <= n < 100 && Small(ns)
    ensures Small([n] + ns) && Pairs([n] + ns) == Two(n) + Pairs(ns)
  {
    assert ([n] + ns)[1..] == ns;
  }

  lemma FivePairs(a: int, b: int, c: int, d: int, e: int)
    requires Small([a, b, c, d, e])
    ensures Pairs([a, b, c, d, e]) ==
      [48 + a / 10, 48 + a % 10, 48 + b / 10, 48 + b % 10, 48 + c / 10, 48 + c % 10, 48 + d / 10, 48 + d % 10, 48 + e / 10, 48 + e % 10]
  {
    var s := [a, b, c, d, e];
    assert s[0] == a && s[1] == b && s[2] == c && s[3] == d && s[4] == e;
    assert [a, b, c, d, e] == [a] + [b, c, d, e] && [b, c, d, e] == [b] + [c, d, e] && [c, d, e] == [c] + [d, e] && [d, e] == [d] + [e];
    PairsCons(e, []);
    PairsCons(d, [e]);
    PairsCons(c, [d, e]);
    PairsCons(b, [c, d, e]);
    PairsCons(a, [b, c, d, e]);
  }

  /** Digits and a Z. */
  predicate Shaped(utc: bool, s: bytes) {
    |s| > Length(utc) && Digits(s[..Length(utc)]) && s[Length(utc)] == Z
  }

  /** In UTCTime two digits up to 50 are in this century. */
  function FromNumbers(utc: bool, ns: seq<int>): Time
    requires |ns| == if utc then 6 else 7
  {
    var k := if utc then 1 else 2;
    var year := if utc then (if ns[0] <= 50 then 2000 + ns[0] else 1900 + ns[0]) else ns[0] * 100 + ns[1];
    Time(year, ns[k], ns[k + 1], ns[k + 2], ns[k + 3], ns[k + 4])
  }

  function TimeOf(utc: bool, s: bytes): Time
    requires Shaped(utc, s)
  {
    FromNumbers(utc, Read(s[..Length(utc)]))
  }

  lemma NumbersBack(utc: bool, t: Time)
    requires Valid(t) && t.year <= MaxYear(utc)
    ensures FromNumbers(utc, Numbers(utc, t)) == t
  {
  }

  lemma NumbersForth(utc: bool, ns: seq<int>)
    requires |ns| == (if utc then 6 else 7) && Small(ns) && Valid(FromNumbers(utc, ns))
    ensures FromNumbers(utc, ns).year <= MaxYear(utc) && Numbers(utc, FromNumbers(utc, ns)) == ns
  {
  }

  /** What is written for a valid time reads as that time. */
  lemma TextRead(utc: bool, t: Time)
    requires Valid(t) && t.year <= MaxYear(utc)
    ensures Shaped(utc, Text(utc, t)) && TimeOf(utc, Text(utc, t)) == t
  {
    SmallNumbers(utc, t);
    var d := Pairs(Numbers(utc, t));
    PairsRead(Numbers(utc, t));
    assert (d + [Z])[..|d|] == d;
    NumbersBack(utc, t);
  }

  /** What reads as a valid time is what is written for it. */
  lemma TextWritten(utc: bool, s: bytes)
    requires Shaped(utc, s) && |s| == Length(utc) + 1 && Valid(TimeOf(utc, s))
    ensures TimeOf(utc, s).year <= MaxYear(utc) && Text(utc, TimeOf(utc, s)) == s
  {
    var d := s[..Length(utc)];
    PairsWritten(d);
    NumbersForth(utc, Read(d));
    assert s == d + [Z];
  }

  // ------------------------------------------------------------ the two functions

  /** The pairs of digits that a string starts with, as val(p[0]) * 10 + val(p[1]) reads them. */
  lemma PairsOf(s: bytes, n: nat)
    requires 2 * n <= |s|
    ensures forall i :: 0 <= i < n ==> Read(s[..2 * n])[i] == TwoOf(s[2 * i], s[2 * i + 1])
  {
    forall i | 0 <= i < n ensures Read(s[..2 * n])[i] == TwoOf(s[2 * i], s[2 * i + 1]) { ReadAt(s[..2 * n], i); }
  }

  /** A character of a string that ends with a zero byte. */
  function CharAt(s: bytes, i: nat): byte { if i < |s| then s[i] else 0 }

  /** asn1_time_from_str. */
  method FromStr(utc: bool, str: bytes) returns (ret: int, timestamp: int)
    ensures ret == if Shaped(utc, str) && Valid(TimeOf(utc, str)) then 1 else -1
    ensures ret == 1 ==> timestamp == Stamp(TimeOf(utc, str))
  {
    timestamp := 0;
    var i := 0;
    while i < Length(utc)
      invariant 0 <= i <= Length(utc) && i <= |str| && Digits(str[..i])
    {
      if !(ZERO <= CharAt(str, i) <= ZERO + 9) {
        if |str| > Length(utc) { assert !Digit(str[..Length(utc)][i]); }
        return -1, 0;
      }
      i := i + 1;
    }
    if CharAt(str, i) != Z {
      return -1, 0;
    }
    var t := ReadTime(utc, str);
    var Time(year, month, day, hour, minute, second) := t;
    if year < 1970 || month < 1 || month > 12 || day < 1 || day > MonthDays(year, month) ||
       hour < 0 || hour > 23 || minute < 0 || minute > 59 || second < 0 || second > 59 {
      return -1, 0;
    }
    day := CountDays(year, month, day - 1);
    timestamp := day * 86400 + hour * 3600 + minute * 60 + second;
    ret := 1;
  }

  /** The numbers of the text. */
  method ReadTime(utc: bool, str: bytes) returns (t: Time)
    requires Shaped(utc, str)
    ensures t == TimeOf(utc, str)
  {
    PairsOf(str, Length(utc) / 2);
    var year, p := TwoOf(str[0], str[1]), 2;
    if utc {
      year := if year <= 50 then year + 2000 else year + 1900;
    } else {
      year, p := year * 100 + TwoOf(str[2], str[3]), 4;
    }
    t := Time(year, TwoOf(str[p], str[p + 1]), TwoOf(str[p + 2], str[p + 3]), TwoOf(str[p + 4], str[p + 5]),
              TwoOf(str[p + 6], str[p + 7]), TwoOf(str[p + 8], str[p + 9]));
  }

  /** The two loops that count down the years and the months. */
  method CountDays(year0: int, month0: int, day0: int) returns (day: int)
    requires year0 >= 1970 && 1 <= month0 <= 12
    ensures day == day0 + DaysToYear(year0) + DaysToMonth(year0, month0)
  {
    day := day0;
    var year, month := year0, month0;
    while year > 1970
      invariant 1970 <= year <= year0 && day + DaysToYear(year) == day0 + DaysToYear(year0)
    {
      year := year - 1;
      day := day + YearDays(year);
    }
    while month > 1
      invariant 1 <= month <= month0 && day + DaysToMonth(year0, month) == day0 + DaysToYear(year0) + DaysToMonth(year0, month0)
    {
      month := month - 1;
      day := day + MonthDays(year0, month);
    }
  }

  /** The loop that counts up the years: the year of a day, or one more than the last, and the day of the year. */
  method FindYear(day0: int, maxYear: int) returns (year: int, day: int)
    requires day0 >= 0 && maxYear >= 1970
    ensures 1970 <= year <= maxYear + 1 && (year > maxYear <==> day0 >= DaysToYear(maxYear + 1))
    ensures year <= maxYear ==> 0 <= day < YearDays(year) && day0 == DaysToYear(year) + day
  {
    day, year := day0, 1970;
    while year <= maxYear && day >= YearDays(year)
      invariant 1970 <= year <= maxYear + 1 && day >= 0 && day0 == DaysToYear(year) + day
    {
      day := day - YearDays(year);
      year := year + 1;
    }
    YearsGrow(year, maxYear + 1);
  }

  /** The loop that counts up the months; the day counts from 1. */
  method FindMonth(year: int, day0: int) returns (month: int, day: int)
    requires 1 <= day0 <= YearDays(year)
    ensures 1 <= month <= 12 && 1 <= day <= MonthDays(year, month) && day0 == DaysToMonth(year, month) + day
  {
    day, month := day0, 1;
    TwelveMonths(year);
    while month <= 12 && day > MonthDays(year, month)
      invariant 1 <= month <= 13 && day >= 1 && day0 == DaysToMonth(year, month) + day
    {
      day := day - MonthDays(year, month);
      month := month + 1;
    }
  }

  /** The time of a timestamp that is not negative. */
  ghost predicate Dated(timestamp: int, t: Time) { Valid(t) && Stamp(t) == timestamp }

  /** asn1_time_to_str: a text for every timestamp up to the end of the last year. */
  method ToStr(utc: bool, timestamp: int) returns (ret: int, str: bytes, ghost t: Time)
    requires timestamp >= 0
    ensures ret == if timestamp < DaysToYear(MaxYear(utc) + 1) * 86400 then 1 else -1
    ensures ret == 1 ==> Dated(timestamp, t) && t.year <= MaxYear(utc) && str == Text(utc, t)
  {
    t, str := Time(0, 0, 0, 0, 0, 0), [];
    var day, second := timestamp / 86400, timestamp % 86400;
    var year, month;
    year, day := FindYear(day, MaxYear(utc));
    if year > MaxYear(utc) {
      return -1, [], t;
    }
    month, day := FindMonth(year, day + 1);
    var hour := second / 3600;
    second := second % 3600;
    var minute := second / 60;
    second := second % 60;
    t := Time(year, month, day, hour, minute, second);
    str := WriteTime(utc, year, month, day, hour, minute, second);
    ret := 1;
  }

  /** The digits of the numbers, one after the other. */
  method WriteTime(utc: bool, year: int, month: int, day: int, hour: int, minute: int, second: int) returns (str: bytes)
    requires Valid(Time(year, month, day, hour, minute, second)) && year <= MaxYear(utc)
    ensures str == Text(utc, Time(year, month, day, hour, minute, second))
  {
    var ns := [year % 100, month, day, hour, minute, second];
    SmallNumbers(utc, Time(year, month, day, hour, minute, second));
    if !utc {
      ns := [year / 100] + ns;
    }
    str := WritePairs(ns);
    str := str + [Z];
    assert [] + ns == ns;
  }

  method WritePairs(ns: seq<int>) returns (str: bytes)
    requires Small(ns)
    ensures str == Pairs(ns)
  {
    str := [];
    var i := 0;
    assert ns[0..] == ns;
    while i < |ns|
      invariant 0 <= i <= |ns| && Pairs(ns) == str + Pairs(ns[i..])
    {
      assert ns[i..][1..] == ns[i + 1..];
      Assoc(str, Two(ns[i]), Pairs(ns[i + 1..]));
      str := str + Two(ns[i]);
      i := i + 1;
    }
  }

  /** The text of every timestamp reads as that timestamp. */
  lemma StampRoundTrip(utc: bool, timestamp: int, t: Time)
    requires Dated(timestamp, t) && t.year <= MaxYear(utc)
    ensures var s := Text(utc, t); Shaped(utc, s) && Valid(TimeOf(utc, s)) && Stamp(TimeOf(utc, s)) == timestamp
  {
    TextRead(utc, t);
  }

  /** The timestamp of every text that is accepted is written as that text. */
  lemma TextRoundTrip(utc: bool, s: bytes, t: Time)
    requires Shaped(utc, s) && |s| == Length(utc) + 1 && Valid(TimeOf(utc, s)) && Dated(Stamp(TimeOf(utc, s)), t)
    ensures t.year <= MaxYear(utc) && Text(utc, t) == s && 0 <= Stamp(TimeOf(utc, s)) < DaysToYear(MaxYear(utc) + 1) * 86400
  {
    StampOnce(t, TimeOf(utc, s));
    TextWritten(utc, s);
    InYear(t);
    YearsGrow(t.year, MaxYear(utc) + 1);
  }
}
