/** The Mac's clock value: seconds since 1 January 1904, from a broken-down time. */
module MacDate {
  /** A local time; `yday` counts from 0. */
  datatype Time = Time(year: int, yday: nat, hour: nat, minute: nat, sec: nat)

  predicate IsLeap(y: int) {
    y % 4 == 0 && (y % 100 != 0 || y % 400 == 0)
  }

  function YearLength(y: int): nat {
    if IsLeap(y) then 366 else 365
  }

  predicate Valid(t: Time) {
    t.year >= 1904 && t.yday < YearLength(t.year) && t.hour < 24 && t.minute < 60 && t.sec < 60
  }

  // The reference: counting years and days

  function LeapYears(from: int, to: int): nat
    decreases to - from
  {
    if to <= from then 0 else LeapYears(from, to - 1) + if IsLeap(to - 1) then 1 else 0
  }

  function DaysBefore(year: int): nat
    decreases year - 1904
  {
    if year <= 1904 then 0 else DaysBefore(year - 1) + YearLength(year - 1)
  }

  function DayNumber(t: Time): nat {
    DaysBefore(t.year) + t.yday
  }

  function Seconds(t: Time): nat {
    t.sec + 60 * (t.minute + 60 * (t.hour + 24 * DayNumber(t)))
  }

  // The code's closed form

  /** Multiples of 4 up to, but not including, the year: `(y >> 2) - !(y & 3)`. */
  function Fours(y: int): int {
    y / 4 - if y % 4 == 0 then 1 else 0
  }

  /** C division of a number by 25, corrected to round down. */
  function By25(a: int): int {
    if a >= 0 then a / 25 else -(-a / 25) - if -a % 25 != 0 then 1 else 0
  }

  function LeapDays(y: int): int {
    var a4, b4 := Fours(y), Fours(1904);
    var a100, b100 := By25(a4), By25(b4);
    var a400, b400 := a100 / 4, b100 / 4;
    (a4 - b4) - (a100 - b100) + (a400 - b400)
  }

  function TimeToMacTime(t: Time): int {
    var days := (t.yday + 365 * (t.year - 1904) + LeapDays(t.year)) % 0x1_0000_0000;
    (t.sec + 60 * (t.minute + 60 * (t.hour + 24 * days))) % 0x1_0000_0000
  }

  lemma FoursNext(y: int)
    ensures Fours(y + 1) == Fours(y) + if y % 4 == 0 then 1 else 0
  {
    var q, r := y / 4, y % 4;
    assert y == 4 * q + r;
    if r == 3 {
      assert y + 1 == 4 * (q + 1);
    }
  }

  /** Of the multiples of 4, each 25th is a multiple of 100. */
  lemma HundredsNext(y: int)
    requires y >= 1904
    ensures By25(Fours(y + 1)) == By25(Fours(y)) + if y % 100 == 0 then 1 else 0
  {
    var c, r := y / 100, y % 100;
    var q, s := r / 4, r % 4;
    assert y == 4 * (25 * c + q) + s;
    FoursOf(y, 25 * c + q, s);
    FoursNext(y);
    By25Of(c, q);
    By25Of(c, q - 1);
  }

  lemma FoursOf(y: int, q: int, s: int)
    requires y == 4 * q + s && 0 <= s < 4
    ensures Fours(y) == q - (if s == 0 then 1 else 0) && y % 4 == s
  {
  }

  lemma By25Of(c: int, q: int)
    requires c >= 19 && -1 <= q < 25
    ensures By25(25 * c + q) == if q == -1 then c - 1 else c
  {
    if q == -1 {
      assert 25 * c + q == 25 * (c - 1) + 24;
    }
  }

  /** Of the multiples of 100, each fourth is a multiple of 400. */
  lemma FourHundredsNext(y: int)
    requires y >= 1904
    ensures By25(Fours(y + 1)) / 4 == By25(Fours(y)) / 4 + if y % 400 == 0 then 1 else 0
  {
    HundredsNext(y);
    var c, r := y / 100, y % 100;
    CenturiesBefore(y);
    var k, m := c / 4, c % 4;
    assert y == 400 * k + (100 * m + r);
    Residue400(y, k, 100 * m + r);
    if r == 0 {
      assert c - 1 == if m == 0 then 4 * (k - 1) + 3 else 4 * k + (m - 1);
    }
  }

  lemma Residue400(y: int, k: int, r: int)
    requires y == 400 * k + r && 0 <= r < 400
    ensures y % 400 == r
  {
  }

  lemma CenturiesBefore(y: int)
    requires y >= 1904
    ensures By25(Fours(y)) == if y % 100 == 0 then y / 100 - 1 else y / 100
  {
    var c, r := y / 100, y % 100;
    var q, s := r / 4, r % 4;
    assert y == 4 * (25 * c + q) + s;
    FoursOf(y, 25 * c + q, s);
    By25Of(c, q);
    By25Of(c, q - 1);
  }

  lemma Multiples(y: int)
    ensures y % 100 == 0 ==> y % 4 == 0
    ensures y % 400 == 0 ==> y % 100 == 0
  {
    HundredsAreFours(y / 100);
    FourHundredsAreHundreds(y / 400);
  }

  lemma HundredsAreFours(k: int)
    ensures 100 * k % 4 == 0
  {
    assert 100 * k == 4 * (25 * k);
  }

  lemma FourHundredsAreHundreds(k: int)
    ensures 400 * k % 100 == 0
  {
    assert 400 * k == 100 * (4 * k);
  }

  lemma LeapDaysNext(y: int)
    requires y >= 1904
    ensures LeapDays(y + 1) == LeapDays(y) + if IsLeap(y) then 1 else 0
  {
    FoursNext(y);
    HundredsNext(y);
    FourHundredsNext(y);
    Multiples(y);
    hide Fours, By25;
  }

  /** The closed form counts the Gregorian leap years since 1904. */
  lemma {:induction false} LeapDaysCount(year: int)
    requires year >= 1904
    ensures LeapDays(year) == LeapYears(1904, year)
    decreases year
  {
    if year > 1904 {
      LeapDaysCount(year - 1);
      LeapDaysNext(year - 1);
      hide LeapDays;
    }
  }

  lemma {:induction false} DaysOfYears(year: int)
    requires year >= 1904
    ensures DaysBefore(year) == 365 * (year - 1904) + LeapYears(1904, year)
    decreases year
  {
    if year > 1904 {
      DaysOfYears(year - 1);
    }
  }

  lemma WrapInside(days: int, rest: int)
    ensures (rest + 86400 * (days % 0x1_0000_0000)) % 0x1_0000_0000 == (rest + 86400 * days) % 0x1_0000_0000
  {
    var q := days / 0x1_0000_0000;
    assert rest + 86400 * days == rest + 86400 * (days % 0x1_0000_0000) + 0x1_0000_0000 * (86400 * q);
    WrapMultiple(rest + 86400 * (days % 0x1_0000_0000), 86400 * q);
  }

  lemma WrapMultiple(x: int, k: int)
    ensures (x + 0x1_0000_0000 * k) % 0x1_0000_0000 == x % 0x1_0000_0000
  {
  }

  /** The value is the number of seconds since 1904, modulo 2^32. */
  lemma CountsSeconds(t: Time)
    requires Valid(t)
    ensures TimeToMacTime(t) == Seconds(t) % 0x1_0000_0000
    ensures Seconds(t) < 0x1_0000_0000 ==> TimeToMacTime(t) == Seconds(t)
  {
    hide LeapDays, LeapYears, DaysBefore;
    LeapDaysCount(t.year);
    DaysOfYears(t.year);
    WrapInside(DayNumber(t), t.sec + 60 * (t.minute + 60 * t.hour));
  }

  predicate Earlier(t: Time, u: Time) {
    || t.year < u.year
    || (t.year == u.year && t.yday < u.yday)
    || (t.year == u.year && t.yday == u.yday
        && t.hour * 3600 + t.minute * 60 + t.sec < u.hour * 3600 + u.minute * 60 + u.sec)
  }

  lemma {:induction false} YearsAdd(y: int, z: int)
    requires 1904 <= y < z
    ensures DaysBefore(y) + YearLength(y) <= DaysBefore(z)
    decreases z
  {
    if y < z - 1 {
      YearsAdd(y, z - 1);
    }
  }

  /** Later times have more seconds. */
  lemma SecondsIncrease(t: Time, u: Time)
    requires Valid(t) && Valid(u)
    ensures Seconds(t) < Seconds(u) <==> Earlier(t, u)
  {
    if t.year < u.year {
      YearsAdd(t.year, u.year);
    } else if u.year < t.year {
      YearsAdd(u.year, t.year);
    }
    hide DaysBefore, YearLength;
  }

  /** 6 February 2040, 6:28:16, where 2^32 seconds have passed. */
  function Limit(): Time {
    Time(2040, 36, 6, 28, 16)
  }

  lemma LeapDays2040()
    ensures LeapDays(2040) == 34
  {
    assert Fours(2040) == 509 && Fours(1904) == 475;
    assert By25(509) == 20 && By25(475) == 19;
  }

  lemma LimitSeconds()
    ensures Valid(Limit()) && Seconds(Limit()) == 0x1_0000_0000
  {
    hide LeapYears, DaysBefore, LeapDays;
    DaysOfYears(2040);
    LeapDaysCount(2040);
    LeapDays2040();
  }

  /** The clock value is exact, and strictly increasing, up to that moment and not beyond. */
  lemma ExactUntilLimit(t: Time)
    requires Valid(t)
    ensures TimeToMacTime(t) == Seconds(t) <==> Earlier(t, Limit())
  {
    hide TimeToMacTime, Seconds, Earlier, Limit;
    CountsSeconds(t);
    LimitSeconds();
    SecondsIncrease(t, Limit());
  }

  lemma IncreasesUntilLimit(t: Time, u: Time)
    requires Valid(t) && Valid(u) && Earlier(t, u) && Earlier(u, Limit())
    ensures TimeToMacTime(t) < TimeToMacTime(u)
  {
    SecondsIncrease(t, u);
    SecondsIncrease(u, Limit());
    LimitSeconds();
    CountsSeconds(t);
    CountsSeconds(u);
    hide TimeToMacTime, Seconds, Earlier, Limit;
  }
}
