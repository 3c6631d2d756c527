/**
 The minute-by-minute search of a compiled cron schedule, and exactly when its
 fixed window of 4 x 366 days is long enough.

 Time is UTC.  Instants are nanoseconds and minutes counted from the start of
 day 0 of module Calendar.
 */
module CronSearch {
  import opened Calendar
  import opened Masks
  import opened Outcomes

  /** Bit masks per field, as in the compiled schedule of the controller. */
  datatype Schedule = Schedule(
    minutes: nat, hours: nat, doms: nat, months: nat, dows: nat,
    domStar: bool, dowStar: bool)

  const NANOS_PER_MINUTE := 60_000_000_000
  const MINUTES_PER_DAY := 1440
  const WINDOW_DAYS := 4 * 366
  const WINDOW := WINDOW_DAYS * MINUTES_PER_DAY

  predicate Match(s: Schedule, t: int) {
    var date := Civil(t / 1440);
    DayNumberOfCivil(t / 1440);
    if !Bit(s.minutes, t % 60) then false
    else if !Bit(s.hours, t / 60 % 24) then false
    else if !Bit(s.months, date.month) then false
    else
      var domHit := Bit(s.doms, date.day);
      var dowHit := Bit(s.dows, Weekday(t / 1440));
      if s.domStar && s.dowStar then true
      else if s.domStar then dowHit
      else if s.dowStar then domHit
      else domHit || dowHit
  }

  /** The first whole minute strictly after an instant. */
  function FirstMinute(after: int): (t: int)
    ensures (t - 1) * NANOS_PER_MINUTE <= after < t * NANOS_PER_MINUTE
  {
    after / NANOS_PER_MINUTE + 1
  }

  ghost predicate Fires(s: Schedule, from: int, to: int) {
    exists t :: from <= t < to && Match(s, t)
  }

  /** The search: None stands for the zero time. */
  method Next(s: Schedule, after: int) returns (r: Option<int>)
    ensures r.Some? <==> Fires(s, FirstMinute(after), FirstMinute(after) + WINDOW)
    ensures r.Some? ==>
              && after < r.value * NANOS_PER_MINUTE
              && r.value < FirstMinute(after) + WINDOW
              && Match(s, r.value)
              && forall t | after < t * NANOS_PER_MINUTE && t < r.value :: !Match(s, t)
  {
    var t := FirstMinute(after);
    var limit := t + WINDOW;
    while t < limit
      invariant FirstMinute(after) <= t <= limit
      invariant forall u | FirstMinute(after) <= u < t :: !Match(s, u)
    {
      if Match(s, t) {
        return Some(t);
      }
      t := t + 1;
    }
    return None;
  }

  // ----- what a parsed schedule looks like

  /** The shape every parsed schedule has. */
  ghost predicate Compiled(s: Schedule) {
    && s.minutes != 0 && Below(s.minutes, 60)
    && s.hours != 0 && Below(s.hours, 24)
    && Below(s.doms, 32) && (exists d :: 1 <= d <= 31 && Bit(s.doms, d))
    && Below(s.months, 13) && (exists m :: 1 <= m <= 12 && Bit(s.months, m))
    && Below(s.dows, 7) && s.dows != 0
    && (s.domStar ==> forall d | 1 <= d <= 31 :: Bit(s.doms, d))
    && (s.dowStar ==> forall d | 0 <= d <= 6 :: Bit(s.dows, d))
  }

  /**
   The day rule: both date fields restricted fire on either, otherwise both
   must hold, a `*` holding on every day.
   */
  lemma DayRule(s: Schedule, t: int)
    requires Compiled(s)
    ensures var date, w := Civil(t / 1440), Weekday(t / 1440);
            Exists(date) &&
            (Match(s, t) <==>
             && Bit(s.minutes, t % 60) && Bit(s.hours, t / 60 % 24) && Bit(s.months, date.month)
             && (if !s.domStar && !s.dowStar then Bit(s.doms, date.day) || Bit(s.dows, w)
                 else Bit(s.doms, date.day) && Bit(s.dows, w)))
  {
    hide Civil, DayNumber, Weekday, Bit;
    DayNumberOfCivil(t / 1440);
  }

  predicate Selects(s: Schedule, m: int, d: int) {
    1 <= m <= 12 && 1 <= d <= 31 && Bit(s.months, m) && Bit(s.doms, d)
  }

  /** Month/day pairs that every year has. */
  predicate EveryYear(m: int, d: int) {
    1 <= m <= 12 && 1 <= d <= DaysIn(1, m)
  }

  ghost predicate SelectsEveryYear(s: Schedule) {
    exists m, d :: Selects(s, m, d) && EveryYear(m, d)
  }

  /** The date fields can only ever be met on a 29 February. */
  ghost predicate OnlyLeapDay(s: Schedule) {
    s.dowStar && !SelectsEveryYear(s) && Selects(s, 2, 29)
  }

  /** The date fields name no date of any year, such as 30 February. */
  ghost predicate NoRealDay(s: Schedule) {
    s.dowStar && !SelectsEveryYear(s) && !Selects(s, 2, 29)
  }

  // ----- minutes of the day

  function FirstTod(s: Schedule): (m: nat)
    requires s.minutes != 0 && s.hours != 0
  {
    60 * Lowest(s.hours) + Lowest(s.minutes)
  }

  function LastTod(s: Schedule): (m: nat)
    requires s.minutes != 0 && s.hours != 0
  {
    60 * Highest(s.hours) + Highest(s.minutes)
  }

  predicate TodSelected(s: Schedule, m: int) {
    0 <= m < 1440 && Bit(s.minutes, m % 60) && Bit(s.hours, m / 60)
  }

  lemma TodEnds(s: Schedule)
    requires Compiled(s)
    ensures TodSelected(s, FirstTod(s)) && TodSelected(s, LastTod(s))
    ensures FirstTod(s) <= LastTod(s)
  {
    var lo, hi := Lowest(s.hours), Highest(s.hours);
    var a, b := Lowest(s.minutes), Highest(s.minutes);
    assert (60 * lo + a) / 60 == lo && (60 * lo + a) % 60 == a;
    assert (60 * hi + b) / 60 == hi && (60 * hi + b) % 60 == b;
  }

  lemma TodBetween(s: Schedule, m: int)
    requires Compiled(s) && TodSelected(s, m)
    ensures FirstTod(s) <= m <= LastTod(s)
  {
    assert m == 60 * (m / 60) + m % 60;
  }

  lemma SplitMinute(z: int, m: int)
    requires 0 <= m < 1440
    ensures (1440 * z + m) / 1440 == z
    ensures (1440 * z + m) % 60 == m % 60
    ensures (1440 * z + m) / 60 % 24 == m / 60
  {
    DayDigit(z, m);
    MinuteDigit(24 * z + m / 60, m % 60);
    HourDigit(z, m / 60);
    assert 1440 * z + m == 60 * (24 * z + m / 60) + m % 60;
  }

  lemma DayDigit(z: int, m: int)
    requires 0 <= m < 1440
    ensures (1440 * z + m) / 1440 == z
  {
  }

  lemma MinuteDigit(k: int, i: int)
    requires 0 <= i < 60
    ensures (60 * k + i) / 60 == k && (60 * k + i) % 60 == i
  {
  }

  lemma HourDigit(z: int, h: int)
    requires 0 <= h < 24
    ensures (24 * z + h) % 24 == h
  {
  }

  predicate DaySelected(s: Schedule, z: int) {
    var date := Civil(z);
    DayNumberOfCivil(z);
    && Bit(s.months, date.month)
    && (if s.domStar && s.dowStar then true
        else if s.domStar then Bit(s.dows, Weekday(z))
        else if s.dowStar then Bit(s.doms, date.day)
        else Bit(s.doms, date.day) || Bit(s.dows, Weekday(z)))
  }

  /** A match is a selected day together with a selected minute of the day. */
  lemma MatchSplits(s: Schedule, z: int, m: int)
    requires 0 <= m < 1440
    ensures Match(s, 1440 * z + m) <==> DaySelected(s, z) && TodSelected(s, m)
  {
    SplitMinute(z, m);
  }

  // ----- years

  function NewYear(y: int): int {
    YearStart(y - 1) + 306
  }

  lemma InsideYear(d: Date)
    requires Exists(d)
    ensures NewYear(d.year) <= DayNumber(d) < NewYear(d.year + 1)
    ensures NewYear(d.year + 1) <= NewYear(d.year) + 366
  {
    YearLength(d.year - 1);
  }

  /** Any date of next year is ahead by at most 731 days. */
  lemma NextYearDate(z: int, d: Date)
    requires Exists(d) && d.year == Civil(z).year + 1
    ensures z < DayNumber(d) <= z + 731
  {
    hide DayNumber, Civil, NewYear;
    DayNumberOfCivil(z);
    InsideYear(Civil(z));
    InsideYear(d);
  }

  lemma LeapDayNumber(y: int)
    requires IsLeap(y)
    ensures Exists(Date(y, 2, 29)) && DayNumber(Date(y, 2, 29)) == LeapDay(y)
    ensures Civil(LeapDay(y)) == Date(y, 2, 29)
  {
    YearLength(y - 1);
    CivilOfDayNumber(Date(y, 2, 29));
  }

  // ----- the window suffices

  lemma FiresOn(s: Schedule, z: int, m: int, from: int)
    requires DaySelected(s, z) && TodSelected(s, m)
    requires from <= 1440 * z + m < from + WINDOW
    ensures Fires(s, from, from + WINDOW)
  {
    MatchSplits(s, z, m);
  }

  lemma WeekdayFires(s: Schedule, from: int)
    requires Compiled(s) && !s.dowStar
    ensures Fires(s, from, from + WINDOW)
  {
    hide DayNumber, Civil, Lowest, Highest, Bit;
    var m :| 1 <= m <= 12 && Bit(s.months, m);
    var w := Lowest(s.dows);
    var z := from / 1440;
    DayNumberOfCivil(z);
    var first := Date(Civil(z).year + 1, m, 1);
    NextYearDate(z, first);
    var ahead := (w - Weekday(DayNumber(first))) % 7;
    var hit := Date(first.year, m, 1 + ahead);
    DayShift(first, ahead);
    CivilOfDayNumber(hit);
    WeekdayShift(DayNumber(first), w);
    TodEnds(s);
    assert Weekday(DayNumber(hit)) == w;
    FiresOn(s, DayNumber(hit), FirstTod(s), from);
  }

  lemma WeekdayShift(z: int, w: int)
    requires 0 <= w <= 6
    ensures Weekday(z + (w - Weekday(z)) % 7) == w
  {
    var a := z + 3;
    var k := (w - a % 7) % 7;
    assert (a + k) % 7 == w by {
      if w >= a % 7 {
        assert k == w - a % 7;
      } else {
        assert k == w - a % 7 + 7;
      }
    }
  }

  lemma DayShift(d: Date, ahead: nat)
    requires 1 <= d.month <= 12
    ensures DayNumber(d.(day := d.day + ahead)) == DayNumber(d) + ahead
  {
  }

  lemma EveryYearFires(s: Schedule, m: int, d: int, from: int)
    requires Compiled(s) && s.dowStar && Selects(s, m, d) && EveryYear(m, d)
    ensures Fires(s, from, from + WINDOW)
  {
    hide DayNumber, Civil, Lowest, Highest, Bit;
    var z := from / 1440;
    var date := Date(Civil(z).year + 1, m, d);
    NextYearDate(z, date);
    CivilOfDayNumber(date);
    TodEnds(s);
    FiresOn(s, DayNumber(date), FirstTod(s), from);
  }

  // ----- schedules that need a leap day

  /** A selected day under a `*` day of week has a selected month and day. */
  lemma SelectedDate(s: Schedule, z: int)
    requires Compiled(s) && s.dowStar && DaySelected(s, z)
    ensures Exists(Civil(z)) && Selects(s, Civil(z).month, Civil(z).day)
    ensures EveryYear(Civil(z).month, Civil(z).day) || (Civil(z).month == 2 && Civil(z).day == 29)
  {
    hide Civil, Bit, DayNumber;
    DayNumberOfCivil(z);
  }

  lemma LeapDaySelected(s: Schedule, y: int)
    requires s.dowStar && Selects(s, 2, 29) && IsLeap(y)
    ensures DaySelected(s, LeapDay(y))
  {
    hide Bit;
    LeapDayNumber(y);
  }

  /** The century year a minute's blind stretch would belong to. */
  function CenturyAhead(t: int): int {
    100 * ((Civil(t / 1440).year + 99) / 100)
  }

  /**
   The search starts too late for the last leap day before a skipped one and
   too early to reach the next.
   */
  predicate Blind(s: Schedule, t: int)
    requires s.minutes != 0 && s.hours != 0
  {
    var c := CenturyAhead(t);
    && c % 400 != 0
    && 1440 * LeapDay(c - 4) + LastTod(s) < t
    && t <= 1440 * LeapDay(c + 4) + FirstTod(s) - WINDOW
  }

  lemma LeapDayFires(s: Schedule, y: int, m: int, from: int)
    requires Compiled(s) && s.dowStar && Selects(s, 2, 29)
    requires IsLeap(y) && TodSelected(s, m)
    requires from <= 1440 * LeapDay(y) + m < from + WINDOW
    ensures Fires(s, from, from + WINDOW)
  {
    LeapDaySelected(s, y);
    FiresOn(s, LeapDay(y), m, from);
  }

  lemma TodRange(s: Schedule)
    requires Compiled(s)
    ensures 0 <= FirstTod(s) <= LastTod(s) < 1440
  {
    TodEnds(s);
  }

  lemma LeapDayPlace(y: int)
    ensures LeapDay(y) == NewYear(y) + if IsLeap(y) then 59 else 58
  {
    YearLength(y - 1);
  }

  lemma YearsApart(a: int, b: int)
    requires a <= b
    ensures NewYear(a) + 365 * (b - a) <= NewYear(b) <= NewYear(a) + 366 * (b - a)
  {
    YearStartMonotone(a - 1, b - 1);
  }

  /** A multiple of four that is not leap is a skipped century. */
  lemma SkippedCentury(c: int, y: int)
    requires c % 4 == 0 && !IsLeap(c)
    requires c - 4 <= y <= c
    ensures c % 100 == 0 && c % 400 != 0
    ensures IsLeap(c - 4) && IsLeap(c + 4)
    ensures 100 * ((y + 99) / 100) == c
  {
    CenturyOrLeap(c);
    var k := c / 100;
    Quads(25 * k - 1, 0);
    Centuries(k - 1, 96);
    Quads(25 * k + 1, 0);
    Centuries(k, 4);
    Centuries(k, 99 - (c - y));
  }

  lemma CenturyOrLeap(c: int)
    requires c % 4 == 0 && !IsLeap(c)
    ensures c % 100 == 0 && c % 400 != 0 && c == 100 * (c / 100)
  {
  }

  /** The first multiple of four at or after the year of minute t. */
  function Quad(t: int): int {
    4 * ((Civil(t / 1440).year + 3) / 4)
  }

  lemma AroundQuad(t: int)
    ensures var q := Quad(t);
            && q % 4 == 0
            && q - 3 <= Civil(t / 1440).year <= q
            && LeapDay(q - 4) < t / 1440 < NewYear(q + 1)
            && LeapDay(q) <= t / 1440 + 1157
            && LeapDay(q) < NewYear(q + 1) <= LeapDay(q + 4)
            && LeapDay(q + 4) < LeapDay(q + 8)
            && (LeapDay(q) <= t / 1440 ==> Civil(t / 1440).year == q)
  {
    hide Civil, NewYear, LeapDay, IsLeap;
    var q, y := Quad(t), Civil(t / 1440).year;
    YearOfDay(t / 1440);
    YearsApart(q - 4, q - 3);
    YearsApart(q - 3, y);
    YearsApart(y, q);
    YearsApart(y + 1, q + 1);
    YearsApart(q, q + 1);
    YearsApart(q + 1, q + 4);
    YearsApart(q + 4, q + 8);
    LeapDayPlace(q - 4);
    LeapDayPlace(q);
    LeapDayPlace(q + 4);
    LeapDayPlace(q + 8);
  }

  lemma SightedFires(s: Schedule, t: int)
    requires Compiled(s) && s.dowStar && Selects(s, 2, 29)
    requires !Blind(s, t)
    ensures Fires(s, t, t + WINDOW)
  {
    hide Civil, LeapDay, NewYear, FirstTod, LastTod, Bit, TodSelected, Fires, Selects, IsLeap, Quad;
    TodEnds(s);
    TodRange(s);
    var q := Quad(t);
    AroundQuad(t);
    LeapDayStride(q);
    if IsLeap(q) && t <= 1440 * LeapDay(q) + LastTod(s) {
      LeapDayFires(s, q, LastTod(s), t);
    } else if IsLeap(q) && IsLeap(q + 4) {
      LeapDayFires(s, q + 4, FirstTod(s), t);
    } else if IsLeap(q) {
      SkippedCentury(q + 4, Civil(t / 1440).year);
      LeapDayFires(s, q + 8, FirstTod(s), t);
    } else {
      SkippedCentury(q, Civil(t / 1440).year);
      LeapDayFires(s, q + 4, FirstTod(s), t);
    }
  }

  lemma LeapDayStride(q: int)
    requires q % 4 == 0
    ensures IsLeap(q + 4) ==> LeapDay(q + 4) == LeapDay(q) + 1461
  {
    hide YearStart;
    FourYears(q);
  }

  lemma LeapDaysOrdered(a: int, b: int)
    requires a <= b
    ensures LeapDay(a) <= LeapDay(b)
  {
    YearStartMonotone(a, b);
  }

  lemma BlindMisses(s: Schedule, t: int)
    requires Compiled(s) && OnlyLeapDay(s)
    requires Blind(s, t)
    ensures !Fires(s, t, t + WINDOW)
  {
    hide Civil, DayNumber, LeapDay, FirstTod, LastTod, Bit, TodSelected, Compiled, IsLeap, DaySelected, Match;
    forall u | t <= u < t + WINDOW
      ensures !Match(s, u)
    {
      if Match(s, u) {
        var y := LeapMatch(s, u);
        var c := CenturyAhead(t);
        if y <= c - 4 {
          LeapDaysOrdered(y, c - 4);
        } else if c + 4 <= y {
          LeapDaysOrdered(c + 4, y);
        } else {
          NoLeapNear(c, y);
        }
      }
    }
  }

  lemma NoLeapNear(c: int, y: int)
    requires c % 100 == 0 && c % 400 != 0 && c - 4 < y < c + 4
    ensures !IsLeap(y)
  {
    assert c == 4 * (25 * (c / 100));
  }

  /** Every match of a leap-day schedule falls on some year's 29 February. */
  lemma LeapMatch(s: Schedule, u: int) returns (y: int)
    requires Compiled(s) && OnlyLeapDay(s) && Match(s, u)
    ensures IsLeap(y)
    ensures 1440 * LeapDay(y) + FirstTod(s) <= u <= 1440 * LeapDay(y) + LastTod(s)
  {
    hide Civil, DayNumber, LeapDay, FirstTod, LastTod, Bit, TodSelected, Compiled, DaySelected, Match;
    var z, m := u / 1440, u % 1440;
    MatchSplits(s, z, m);
    TodBetween(s, m);
    SelectedDate(s, z);
    y := Civil(z).year;
    DayNumberOfCivil(z);
    assert Civil(z) == Date(y, 2, 29);
    LeapDayNumber(y);
  }

  /**
   When the fixed window is long enough: Next finds a minute unless the date
   fields name no real date, or name only 29 February and the search starts in
   the blind stretch before a skipped century.
   */
  lemma WindowSuffices(s: Schedule, after: int)
    requires Compiled(s)
    ensures var t := FirstMinute(after);
            Fires(s, t, t + WINDOW) <==> !NoRealDay(s) && !(OnlyLeapDay(s) && Blind(s, t))
  {
    hide Match, Bit, Blind, FirstMinute, EveryYear;
    var t := FirstMinute(after);
    if !s.dowStar {
      WeekdayFires(s, t);
    } else if SelectsEveryYear(s) {
      var m, d :| Selects(s, m, d) && EveryYear(m, d);
      EveryYearFires(s, m, d, t);
    } else if !Selects(s, 2, 29) {
      NeverFires(s, t, t + WINDOW);
    } else if Blind(s, t) {
      BlindMisses(s, t);
    } else {
      SightedFires(s, t);
    }
  }

  lemma NeverFires(s: Schedule, from: int, to: int)
    requires Compiled(s) && NoRealDay(s)
    ensures !Fires(s, from, to)
  {
    hide Civil, DayNumber, Bit, TodSelected, Compiled, DaySelected, Match;
    forall u | from <= u < to
      ensures !Match(s, u)
    {
      MatchSplits(s, u / 1440, u % 1440);
      if Match(s, u) {
        SelectedDate(s, u / 1440);
      }
    }
  }

  /**
   The stretch in calendar dates, for the 2100 gap: a leap-day schedule is
   found from any start in 1900-03-01 .. 2096-02-29 (up to its last minute
   that day), missed from then until 2100-02-25, and found again after.
   */
  lemma LeapDayAround2100(s: Schedule, after: int)
    requires Compiled(s) && OnlyLeapDay(s)
    ensures var t := FirstMinute(after);
            var from1900 := 1440 * DayNumber(Date(1900, 3, 1));
            var last2096 := 1440 * DayNumber(Date(2096, 2, 29)) + LastTod(s);
            var again2100 := 1440 * DayNumber(Date(2100, 2, 25)) + FirstTod(s);
            var end2196 := 1440 * DayNumber(Date(2196, 2, 29)) + LastTod(s);
            && (from1900 <= t <= last2096 ==> Fires(s, t, t + WINDOW))
            && (last2096 < t <= again2100 ==> !Fires(s, t, t + WINDOW))
            && (again2100 < t <= end2196 ==> Fires(s, t, t + WINDOW))
  {
    hide Match, Bit, FirstMinute, Fires, FirstTod, LastTod, Civil, Selects, CenturyAhead, DayNumber, LeapDay, NewYear;
    var t := FirstMinute(after);
    WindowSuffices(s, after);
    TodRange(s);
    KnownDays();
    if NewYear(1900) <= t / 1440 < NewYear(1901) {
      CenturyOf(t, 1900);
    } else if NewYear(1901) <= t / 1440 < NewYear(2001) {
      CenturyOf(t, 2000);
    } else if NewYear(2001) <= t / 1440 < NewYear(2101) {
      CenturyOf(t, 2100);
    } else if NewYear(2101) <= t / 1440 < NewYear(2201) {
      CenturyOf(t, 2200);
    }
  }

  lemma KnownDays()
    ensures NewYear(1801) < NewYear(1900) < DayNumber(Date(1900, 3, 1)) < NewYear(1901) < NewYear(2001) < NewYear(2101)
    ensures LeapDay(1904) - WINDOW_DAYS < DayNumber(Date(1900, 3, 1)) - 1
    ensures LeapDay(2096) == DayNumber(Date(2096, 2, 29)) && NewYear(2001) < LeapDay(2096)
    ensures LeapDay(2096) < LeapDay(2104) - WINDOW_DAYS == DayNumber(Date(2100, 2, 25)) < NewYear(2101) - 1
    ensures LeapDay(2196) == DayNumber(Date(2196, 2, 29)) < NewYear(2201) - 1
  {
  }

  lemma CenturyOf(t: int, c: int)
    requires c % 100 == 0 && NewYear(c - 99) <= t / 1440 < NewYear(c + 1)
    ensures CenturyAhead(t) == c
  {
    hide Civil, NewYear;
    var y := Civil(t / 1440).year;
    YearOfDay(t / 1440);
    if y < c - 99 {
      YearsApart(y + 1, c - 99);
    } else if y > c {
      YearsApart(c + 1, y);
    }
  }

  lemma YearOfDay(z: int)
    ensures NewYear(Civil(z).year) <= z < NewYear(Civil(z).year + 1)
  {
    DayNumberOfCivil(z);
    InsideYear(Civil(z));
  }
}
