/**
 The proleptic Gregorian calendar that the cron search and the activity trail
 stand on.  Days are numbered from 0000-03-01 (day 0), so that a leap day is
 always the last day of its March-based year.

 `DayNumber` and `Civil` are the arithmetic that scheduling uses; `DaysIn`,
 `Exists` and `NextDay` are the calendar as people state it.  The lemmas below
 tie the two together.
 */
module Calendar {

  datatype Date = Date(year: int, month: int, day: int)

  predicate IsLeap(y: int) {
    y % 4 == 0 && (y % 100 != 0 || y % 400 == 0)
  }

  function DaysIn(y: int, m: int): (n: int)
    requires 1 <= m <= 12
  {
    if m == 2 then if IsLeap(y) then 29 else 28
    else if m == 4 || m == 6 || m == 9 || m == 11 then 30
    else 31
  }

  predicate Exists(d: Date) {
    1 <= d.month <= 12 && 1 <= d.day <= DaysIn(d.year, d.month)
  }

  function NextDay(d: Date): Date
    requires Exists(d)
  {
    if d.day < DaysIn(d.year, d.month) then Date(d.year, d.month, d.day + 1)
    else if d.month < 12 then Date(d.year, d.month + 1, 1)
    else Date(d.year + 1, 1, 1)
  }

  /** Number of days before 1 March of the March-based year y. */
  function YearStart(y: int): int {
    365 * y + y / 4 - y / 100 + y / 400
  }

  /** Days from 1 March to the first of the month, March being month 0. */
  function MonthStart(mp: int): int
    requires 0 <= mp <= 12
  {
    (153 * mp + 2) / 5
  }

  function DayNumber(d: Date): int
    requires 1 <= d.month <= 12
  {
    var y := if d.month <= 2 then d.year - 1 else d.year;
    var mp := if d.month <= 2 then d.month + 9 else d.month - 3;
    YearStart(y) + MonthStart(mp) + d.day - 1
  }

  /** The March-based year that contains day z. */
  function MarchYear(z: int): int {
    var estimate := 400 * z / 146097;
    if z < YearStart(estimate + 1) then estimate else estimate + 1
  }

  function Civil(z: int): Date {
    var y := MarchYear(z);
    var dayOfYear := z - YearStart(y);
    var mp := (5 * dayOfYear + 2) / 153;
    var day := dayOfYear - (153 * mp + 2) / 5 + 1;
    if mp < 10 then Date(y, mp + 3, day) else Date(y + 1, mp - 9, day)
  }

  /** 0 is Sunday, as in time.Weekday. */
  function Weekday(z: int): (w: int)
    ensures 0 <= w <= 6
  {
    (z + 3) % 7
  }

  // ----- year and month boundaries

  lemma YearLength(y: int)
    ensures YearStart(y + 1) - YearStart(y) == if IsLeap(y + 1) then 366 else 365
  {
    var q4, q100, q400 := (y + 1) / 4, (y + 1) / 100, (y + 1) / 400;
    assert y / 4 == if (y + 1) % 4 == 0 then q4 - 1 else q4;
    assert y / 100 == if (y + 1) % 100 == 0 then q100 - 1 else q100;
    assert y / 400 == if (y + 1) % 400 == 0 then q400 - 1 else q400;
    DivisibleDown(y + 1);
  }

  lemma DivisibleDown(y: int)
    ensures y % 400 == 0 ==> y % 100 == 0
    ensures y % 100 == 0 ==> y % 4 == 0
  {
    if y % 400 == 0 {
      Centuries(4 * (y / 400), 0);
    }
    if y % 100 == 0 {
      Quads(25 * (y / 100), 0);
    }
  }

  lemma Quads(k: int, r: int)
    requires 0 <= r < 4
    ensures (4 * k + r) % 4 == r && (4 * k + r) / 4 == k
  {
  }

  lemma Centuries(k: int, r: int)
    requires 0 <= r < 100
    ensures (100 * k + r) % 100 == r && (100 * k + r) / 100 == k
  {
  }

  /** 400 YearStart(y) stays within a small band around 146097 y. */
  lemma YearBand(y: int)
    ensures 146097 * y - 699 <= 400 * YearStart(y) <= 146097 * y + 396
  {
  }

  lemma MarchYearHolds(z: int)
    ensures YearStart(MarchYear(z)) <= z < YearStart(MarchYear(z) + 1)
  {
    var e := 400 * z / 146097;
    assert 146097 * e <= 400 * z < 146097 * (e + 1);
    YearBand(e);
    YearBand(e + 2);
  }

  lemma YearStartMonotone(a: int, b: int)
    requires a <= b
    ensures YearStart(a) + 365 * (b - a) <= YearStart(b) <= YearStart(a) + 366 * (b - a)
    decreases b - a
  {
    if a < b {
      YearLength(a);
      YearStartMonotone(a + 1, b);
    }
  }

  /** 29 February of y, counted as the day before 1 March of y. */
  function LeapDay(y: int): int {
    YearStart(y) - 1
  }

  lemma NotLeap(y: int)
    requires y % 4 != 0
    ensures !IsLeap(y)
  {
  }

  lemma FourYears(y: int)
    requires y % 4 == 0
    ensures YearStart(y + 4) - YearStart(y) == if IsLeap(y + 4) then 1461 else 1460
  {
    hide YearStart, IsLeap;
    NotLeap(y + 1);
    NotLeap(y + 2);
    NotLeap(y + 3);
    YearLength(y);
    YearLength(y + 1);
    YearLength(y + 2);
    YearLength(y + 3);
  }

  // ----- the two views agree

  lemma DayNumberOfCivil(z: int)
    ensures Exists(Civil(z))
    ensures DayNumber(Civil(z)) == z
  {
    hide YearStart, MarchYear;
    MarchYearHolds(z);
    var y := MarchYear(z);
    YearLength(y);
    var dayOfYear := z - YearStart(y);
    MonthOfDay(dayOfYear);
  }

  /** Locates a day of the March-based year inside its month. */
  lemma MonthOfDay(n: int)
    requires 0 <= n <= 365
    ensures var mp := (5 * n + 2) / 153;
            0 <= mp <= 11 && MonthStart(mp) <= n && (n < MonthStart(mp + 1) || mp == 11)
  {
  }

  /** The inverse question: a day inside month mp is found in month mp. */
  lemma MonthFound(mp: int, day: int)
    requires 0 <= mp <= 11
    requires 1 <= day <= if mp == 11 then 29 else MonthStart(mp + 1) - MonthStart(mp)
    ensures 0 <= MonthStart(mp) + day - 1 <= 365
    ensures (5 * (MonthStart(mp) + day - 1) + 2) / 153 == mp
  {
  }

  lemma MonthLengths(y: int, m: int)
    requires 1 <= m <= 12
    ensures var mp := if m <= 2 then m + 9 else m - 3;
            if mp == 11 then m == 2 else DaysIn(y, m) == MonthStart(mp + 1) - MonthStart(mp)
  {
  }

  lemma MarchYearUnique(z: int, y: int)
    requires YearStart(y) <= z < YearStart(y + 1)
    ensures MarchYear(z) == y
  {
    MarchYearHolds(z);
    var found := MarchYear(z);
    if found < y {
      YearStartMonotone(found + 1, y);
    } else if y < found {
      YearStartMonotone(y + 1, found);
    }
  }

  lemma CivilOfDayNumber(d: Date)
    requires Exists(d)
    ensures Civil(DayNumber(d)) == d
  {
    var y := if d.month <= 2 then d.year - 1 else d.year;
    var mp := if d.month <= 2 then d.month + 9 else d.month - 3;
    hide YearStart, IsLeap, MarchYear;
    MonthLengths(d.year, d.month);
    MonthFound(mp, d.day);
    YearLength(y);
    MarchYearUnique(DayNumber(d), y);
  }

  lemma DayNumberStep(d: Date)
    requires Exists(d)
    ensures Exists(NextDay(d)) && DayNumber(NextDay(d)) == DayNumber(d) + 1
  {
    hide YearStart, IsLeap;
    MonthLengths(d.year, d.month);
    if d.month == 2 {
      YearLength(d.year - 1);
    }
  }

  /** Counting up by one day is turning one leaf of the wall calendar. */
  lemma CivilStep(z: int)
    ensures Exists(Civil(z))
    ensures Civil(z + 1) == NextDay(Civil(z))
  {
    DayNumberOfCivil(z);
    DayNumberStep(Civil(z));
    CivilOfDayNumber(NextDay(Civil(z)));
  }

  lemma EpochYear()
    ensures YearStart(1969) == 719162
  {
  }

  lemma MarchZero()
    ensures YearStart(0) == MonthStart(0) == 0
  {
  }

  lemma EpochMonth()
    ensures MonthStart(10) == 306
  {
  }

  /** Fixes the numbering and the week to the world's calendar. */
  lemma Anchors()
    ensures Civil(719468) == Date(1970, 1, 1) && Weekday(719468) == 4
    ensures Civil(0) == Date(0, 3, 1)
  {
    hide Civil, IsLeap, YearStart, MonthStart;
    EpochYear();
    EpochMonth();
    CivilOfDayNumber(Date(1970, 1, 1));
    MarchZero();
    CivilOfDayNumber(Date(0, 3, 1));
  }
}
