/**
 The names of the trail's files: they parse back to their day, nothing else
 parses, and sorting them as texts sorts them by day.
 */
module ActivityNames {
  import opened Outcomes
  import opened Text
  import opened Order
  import opened Calendar
  import ActivityStore

  const FILE_PREFIX := "activity-"
  const RAW_SUFFIX := ".ndjson"
  const GZ_SUFFIX := ".gz"

  // ----- dates as YYYY-MM-DD

  function Two(n: int): (s: string)
    requires 0 <= n <= 99
    ensures |s| == 2
  {
    [DigitChar(n / 10), DigitChar(n % 10)]
  }

  function Four(n: int): (s: string)
    requires 0 <= n <= 9999
    ensures |s| == 4
  {
    Two(n / 100) + Two(n % 100)
  }

  predicate FourDigitYear(d: Date) {
    0 <= d.year <= 9999
  }

  function DateText(d: Date): (s: string)
    requires Exists(d) && FourDigitYear(d)
    ensures |s| == 10
  {
    MonthHasTwoDigits(d);
    Four(d.year) + "-" + Two(d.month) + "-" + Two(d.day)
  }

  lemma MonthHasTwoDigits(d: Date)
    requires Exists(d)
    ensures 1 <= d.month <= 12 && 1 <= d.day <= 31
  {
  }

  /** Two digits as a number; None if they are not. */
  function ReadTwo(s: string): (n: Option<int>)
    requires |s| == 2
    ensures n.Some? ==> 0 <= n.value <= 99
  {
    if IsDigit(s[0]) && IsDigit(s[1]) then Some(10 * DigitValue(s[0]) + DigitValue(s[1])) else None
  }

  /** time.Parse with the layout 2006-01-02 */
  function ParseDate(s: string): (r: Option<Date>)
    ensures r.Some? ==> Exists(r.value) && FourDigitYear(r.value)
  {
    if |s| != 10 || s[4] != '-' || s[7] != '-' then None
    else
      var century, years, month, day := ReadTwo(s[..2]), ReadTwo(s[2..4]), ReadTwo(s[5..7]), ReadTwo(s[8..]);
      if century.None? || years.None? || month.None? || day.None? then None
      else
        var d := Date(100 * century.value + years.value, month.value, day.value);
        if Exists(d) then Some(d) else None
  }

  lemma DigitText(c: char)
    requires IsDigit(c)
    ensures DigitChar(DigitValue(c)) == c
  {
  }

  lemma TwoReadsBack(s: string, n: int)
    requires |s| == 2 && 0 <= n <= 99
    ensures ReadTwo(s) == Some(n) <==> s == Two(n)
  {
    if ReadTwo(s) == Some(n) {
      DigitText(s[0]);
      DigitText(s[1]);
    }
  }

  lemma Slices(year: string, month: string, day: string)
    requires |year| == 4 && |month| == 2 && |day| == 2
    ensures var s := year + "-" + month + "-" + day;
            && |s| == 10 && s[4] == '-' && s[7] == '-'
            && s[..2] == year[..2] && s[2..4] == year[2..] && s[5..7] == month && s[8..] == day
  {
  }

  lemma WrittenParses(d: Date)
    requires Exists(d) && FourDigitYear(d)
    ensures ParseDate(DateText(d)) == Some(d)
  {
    hide Exists, Two, ReadTwo;
    MonthHasTwoDigits(d);
    var c, y := d.year / 100, d.year % 100;
    assert Four(d.year)[..2] == Two(c) && Four(d.year)[2..] == Two(y);
    Slices(Four(d.year), Two(d.month), Two(d.day));
    TwoReadsBack(Two(c), c);
    TwoReadsBack(Two(y), y);
    TwoReadsBack(Two(d.month), d.month);
    TwoReadsBack(Two(d.day), d.day);
  }

  lemma ParsedIsWritten(s: string)
    requires ParseDate(s).Some?
    ensures s == DateText(ParseDate(s).value)
  {
    hide Exists, Two, ReadTwo;
    var d := ParseDate(s).value;
    MonthHasTwoDigits(d);
    TwoReadsBack(s[..2], d.year / 100);
    TwoReadsBack(s[2..4], d.year % 100);
    TwoReadsBack(s[5..7], d.month);
    TwoReadsBack(s[8..], d.day);
    assert s == s[..2] + s[2..4] + "-" + s[5..7] + "-" + s[8..];
  }

  /** A text parses as a date exactly when it is how that date is written. */
  lemma ParsesIffWritten(s: string, d: Date)
    ensures ParseDate(s) == Some(d) <==> Exists(d) && FourDigitYear(d) && s == DateText(d)
  {
    hide ParseDate, DateText, Exists;
    if ParseDate(s) == Some(d) { ParsedIsWritten(s); }
    if Exists(d) && FourDigitYear(d) { WrittenParses(d); }
  }

  // ----- file names

  function FileName(date: string): string {
    FILE_PREFIX + date + RAW_SUFFIX
  }

  function TrimSuffix(s: string, suffix: string): string {
    if HasSuffix(s, suffix) then s[..|s| - |suffix|] else s
  }

  function ParseFileDate(name: string): Option<string> {
    if !HasPrefix(name, FILE_PREFIX) then None
    else
      var rest := TrimSuffix(name[|FILE_PREFIX|..], GZ_SUFFIX);
      if !HasSuffix(rest, RAW_SUFFIX) then None
      else
        var date := TrimSuffix(rest, RAW_SUFFIX);
        if ParseDate(date).None? then None else Some(date)
  }

  lemma SuffixOf(s: string, suffix: string)
    ensures HasSuffix(s + suffix, suffix) && TrimSuffix(s + suffix, suffix) == s
  {
  }

  lemma LastOfSuffix(s: string, suffix: string)
    requires s != "" && suffix != "" && s[|s| - 1] != suffix[|suffix| - 1]
    ensures !HasSuffix(s, suffix)
  {
    if |suffix| <= |s| {
      assert s[|s| - |suffix|..][|suffix| - 1] == s[|s| - 1];
    }
  }

  lemma NameParts(date: string)
    ensures FileName(date)[|FILE_PREFIX|..] == date + RAW_SUFFIX
    ensures (FileName(date) + GZ_SUFFIX)[|FILE_PREFIX|..] == date + RAW_SUFFIX + GZ_SUFFIX
    ensures HasPrefix(FileName(date), FILE_PREFIX) && HasPrefix(FileName(date) + GZ_SUFFIX, FILE_PREFIX)
  {
    assert FileName(date) == FILE_PREFIX + (date + RAW_SUFFIX);
    assert FileName(date) + GZ_SUFFIX == FILE_PREFIX + (date + RAW_SUFFIX + GZ_SUFFIX);
  }

  lemma NameIsRead(date: string)
    requires ParseDate(date).Some?
    ensures ParseFileDate(FileName(date)) == ParseFileDate(FileName(date) + GZ_SUFFIX) == Some(date)
  {
    hide ParseDate, HasSuffix, HasPrefix, TrimSuffix, FileName;
    NameParts(date);
    var stem := date + RAW_SUFFIX;
    LastOfSuffix(stem, GZ_SUFFIX);
    assert TrimSuffix(stem, GZ_SUFFIX) == stem by { NotTrimmed(stem, GZ_SUFFIX); }
    SuffixOf(date, RAW_SUFFIX);
    SuffixOf(stem, GZ_SUFFIX);
  }

  lemma NotTrimmed(s: string, suffix: string)
    requires !HasSuffix(s, suffix)
    ensures TrimSuffix(s, suffix) == s
  {
  }

  lemma Trimmed(s: string, suffix: string)
    ensures s == TrimSuffix(s, suffix) || s == TrimSuffix(s, suffix) + suffix
    ensures HasSuffix(s, suffix) ==> s == TrimSuffix(s, suffix) + suffix
  {
    if HasSuffix(s, suffix) {
      assert s == s[..|s| - |suffix|] + s[|s| - |suffix|..];
    }
  }

  lemma ReadIsName(name: string)
    requires ParseFileDate(name).Some?
    ensures var date := ParseFileDate(name).value;
            ParseDate(date).Some? && (name == FileName(date) || name == FileName(date) + GZ_SUFFIX)
  {
    hide ParseDate, HasSuffix, TrimSuffix;
    var stem := name[|FILE_PREFIX|..];
    var rest := TrimSuffix(stem, GZ_SUFFIX);
    var date := TrimSuffix(rest, RAW_SUFFIX);
    Trimmed(stem, GZ_SUFFIX);
    Trimmed(rest, RAW_SUFFIX);
    assert name == FILE_PREFIX + stem;
    assert FILE_PREFIX + (date + RAW_SUFFIX) == FileName(date);
    assert FILE_PREFIX + (date + RAW_SUFFIX + GZ_SUFFIX) == FileName(date) + GZ_SUFFIX;
  }

  /** The names that count as history: a day's file, plain or gzipped, and no other. */
  lemma RecognisedIff(name: string, date: string)
    ensures ParseFileDate(name) == Some(date)
       <==> ParseDate(date).Some? && (name == FileName(date) || name == FileName(date) + GZ_SUFFIX)
  {
    hide ParseDate, ParseFileDate, FileName;
    if ParseFileDate(name) == Some(date) { ReadIsName(name); }
    if ParseDate(date).Some? { NameIsRead(date); }
  }

  // ----- days

  const EPOCH := 719468

  predicate InRange(day: int) {
    FourDigitYear(Civil(day + EPOCH))
  }

  /** The date text of a UTC day counted from 1970-01-01. */
  function DayText(day: int): string
    requires InRange(day)
  {
    DayNumberOfCivil(day + EPOCH);
    DateText(Civil(day + EPOCH))
  }

  predicate Named(n: ActivityStore.Name) {
    !n.Foreign? ==> InRange(n.day)
  }

  /** The file behind a name of the storage model. */
  function FileOf(n: ActivityStore.Name): string
    requires Named(n)
  {
    match n
    case Raw(day) => FileName(DayText(day))
    case Gz(day) => FileName(DayText(day)) + GZ_SUFFIX
    case Tmp(day) => FileName(DayText(day)) + GZ_SUFFIX + ".tmp"
    case Foreign(text) => text
  }

  lemma DayTextParses(day: int)
    requires InRange(day)
    ensures ParseDate(DayText(day)) == Some(Civil(day + EPOCH))
  {
    DayNumberOfCivil(day + EPOCH);
    ParsesIffWritten(DayText(day), Civil(day + EPOCH));
  }

  lemma TmpIsNotHistory(date: string)
    ensures ParseFileDate(FileName(date) + GZ_SUFFIX + ".tmp") == None
  {
    hide HasSuffix;
    var name := FileName(date) + GZ_SUFFIX + ".tmp";
    var stem := name[|FILE_PREFIX|..];
    assert stem[|stem| - 1] == 'p';
    LastOfSuffix(stem, GZ_SUFFIX);
    LastOfSuffix(stem, RAW_SUFFIX);
  }

  /** A plain or gzipped file is read as its own day; an unfinished .tmp is not read at all. */
  lemma FilesParseBack(n: ActivityStore.Name)
    requires Named(n)
    ensures n.Raw? || n.Gz? ==> ParseFileDate(FileOf(n)) == Some(DayText(n.day))
    ensures n.Tmp? ==> ParseFileDate(FileOf(n)) == None
  {
    hide ParseFileDate, FileName;
    if n.Raw? || n.Gz? {
      DayTextParses(n.day);
      RecognisedIff(FileOf(n), DayText(n.day));
    } else if n.Tmp? {
      TmpIsNotHistory(DayText(n.day));
    }
  }

  /** Whatever is read as history is the plain or the gzipped file of exactly one day. */
  lemma HistoryIsDayFiles(name: string)
    requires ParseFileDate(name).Some?
    ensures exists day :: InRange(day) && DayText(day) == ParseFileDate(name).value
              && (name == FileOf(ActivityStore.Raw(day)) || name == FileOf(ActivityStore.Gz(day)))
  {
    hide ParseFileDate, ParseDate, FileName, DateText, Civil, DayNumber;
    var date := ParseFileDate(name).value;
    RecognisedIff(name, date);
    var d := ParseDate(date).value;
    ParsesIffWritten(date, d);
    MonthHasTwoDigits(d);
    CivilOfDayNumber(d);
    var day := DayNumber(d) - EPOCH;
    assert Civil(day + EPOCH) == d;
    assert DayText(day) == date;
    assert name == FileOf(ActivityStore.Raw(day)) || name == FileOf(ActivityStore.Gz(day));
  }

  // ----- order

  /** Year, then month, then day. */
  predicate Earlier(a: Date, b: Date) {
    a.year < b.year || (a.year == b.year && (a.month < b.month || (a.month == b.month && a.day < b.day)))
  }

  lemma {:induction false} LessConcat(a: string, b: string, x: string, y: string)
    requires |a| == |b|
    ensures Less(a + x, b + y) <==> Less(a, b) || (a == b && Less(x, y))
    decreases |a|
  {
    if a == "" {
      assert a + x == x && b + y == y;
    } else {
      assert (a + x)[1..] == a[1..] + x && (b + y)[1..] == b[1..] + y;
      LessConcat(a[1..], b[1..], x, y);
      LessIsStrict(a[1..]);
      assert a == [a[0]] + a[1..] && b == [b[0]] + b[1..];
    }
  }

  lemma LessDigit(m: int, n: int)
    requires 0 <= m <= 9 && 0 <= n <= 9
    ensures Less([DigitChar(m)], [DigitChar(n)]) <==> m < n
    ensures DigitChar(m) < DigitChar(n) <==> m < n
    ensures DigitChar(m) == DigitChar(n) <==> m == n
  {
  }

  lemma LessTwo(m: int, n: int)
    requires 0 <= m <= 99 && 0 <= n <= 99
    ensures Less(Two(m), Two(n)) <==> m < n
    ensures Two(m) == Two(n) <==> m == n
  {
    TwoReadsBack(Two(m), m);
    TwoReadsBack(Two(n), n);
    LessDigit(m / 10, n / 10);
    LessDigit(m % 10, n % 10);
    assert Two(m)[1..] == [DigitChar(m % 10)] && Two(n)[1..] == [DigitChar(n % 10)];
    assert [DigitChar(m % 10)][1..] == "" && [DigitChar(n % 10)][1..] == "";
  }

  lemma LessFour(m: int, n: int)
    requires 0 <= m <= 9999 && 0 <= n <= 9999
    ensures Less(Four(m), Four(n)) <==> m < n
    ensures Four(m) == Four(n) <==> m == n
  {
    LessTwo(m / 100, n / 100);
    LessTwo(m % 100, n % 100);
    LessConcat(Two(m / 100), Two(n / 100), Two(m % 100), Two(n % 100));
    if Four(m) == Four(n) {
      assert Four(m)[..2] == Four(n)[..2] && Four(m)[2..] == Four(n)[2..];
    }
  }

  lemma LessDates(a: Date, b: Date)
    requires Exists(a) && FourDigitYear(a) && Exists(b) && FourDigitYear(b)
    ensures Less(DateText(a), DateText(b)) <==> Earlier(a, b)
  {
    hide Exists, Less, Two, Four;
    MonthHasTwoDigits(a);
    MonthHasTwoDigits(b);
    LessFour(a.year, b.year);
    LessTwo(a.month, b.month);
    LessTwo(a.day, b.day);
    var ta, tb := Two(a.month) + "-" + Two(a.day), Two(b.month) + "-" + Two(b.day);
    assert DateText(a) == Four(a.year) + ("-" + ta) && DateText(b) == Four(b.year) + ("-" + tb);
    LessConcat(Four(a.year), Four(b.year), "-" + ta, "-" + tb);
    LessConcat("-", "-", ta, tb);
    LessIsStrict("-");
    assert ta == Two(a.month) + ("-" + Two(a.day)) && tb == Two(b.month) + ("-" + Two(b.day));
    LessConcat(Two(a.month), Two(b.month), "-" + Two(a.day), "-" + Two(b.day));
    LessConcat("-", "-", Two(a.day), Two(b.day));
  }

  lemma {:induction false} MonthStartGrows(m: int, n: int)
    requires 0 <= m < n <= 11
    ensures MonthStart(m + 1) <= MonthStart(n)
  {
  }

  /** A day of a March-based year stays within its month, and the month within its year. */
  lemma WithinMonth(d: Date)
    requires Exists(d)
    ensures var y := if d.month <= 2 then d.year - 1 else d.year;
            var mp := if d.month <= 2 then d.month + 9 else d.month - 3;
            && 0 <= mp <= 11 && YearStart(y) + MonthStart(mp) <= DayNumber(d) < YearStart(y + 1)
            && (mp < 11 ==> DayNumber(d) < YearStart(y) + MonthStart(mp + 1))
  {
    hide YearStart, IsLeap;
    MonthLengths(d.year, d.month);
    YearLength(if d.month <= 2 then d.year - 1 else d.year);
    var mp := if d.month <= 2 then d.month + 9 else d.month - 3;
    MonthFound(mp, d.day);
    assert MonthStart(11) == 337;
    if mp < 11 { MonthStartGrows(mp, 11); }
  }

  lemma EarlierIsLess(a: Date, b: Date)
    requires Exists(a) && Exists(b) && Earlier(a, b)
    ensures DayNumber(a) < DayNumber(b)
  {
    hide YearStart, MonthStart, Exists;
    WithinMonth(a);
    WithinMonth(b);
    MonthHasTwoDigits(a);
    MonthHasTwoDigits(b);
    var ya, yb := if a.month <= 2 then a.year - 1 else a.year, if b.month <= 2 then b.year - 1 else b.year;
    var ma, mb := if a.month <= 2 then a.month + 9 else a.month - 3, if b.month <= 2 then b.month + 9 else b.month - 3;
    assert ya < yb || (ya == yb && ma < mb) || (ya == yb && ma == mb && a.day < b.day);
    if ya < yb {
      YearStartMonotone(ya + 1, yb);
      assert MonthStart(mb) >= 0 by { MonthStartFrom(mb); }
    } else if ma < mb {
      MonthStartGrows(ma, mb);
    }
  }

  lemma MonthStartFrom(m: int)
    requires 0 <= m <= 12
    ensures MonthStart(m) >= 0
  {
  }

  lemma EarlierIsTotal(a: Date, b: Date)
    ensures Earlier(a, b) || a == b || Earlier(b, a)
  {
  }

  /** Sorting day files by their date text sorts them by day. */
  lemma TextOrderIsDayOrder(a: int, b: int)
    requires InRange(a) && InRange(b)
    ensures Less(DayText(a), DayText(b)) <==> a < b
    ensures DayText(a) == DayText(b) <==> a == b
  {
    hide Civil, DayNumber, Exists, DateText, Less;
    DayNumberOfCivil(a + EPOCH);
    DayNumberOfCivil(b + EPOCH);
    var da, db := Civil(a + EPOCH), Civil(b + EPOCH);
    LessDates(da, db);
    EarlierIsTotal(da, db);
    if Earlier(da, db) { EarlierIsLess(da, db); }
    if Earlier(db, da) { EarlierIsLess(db, da); }
    ParsesIffWritten(DayText(a), da);
    ParsesIffWritten(DayText(a), db);
  }

  /** The file of day 0 in full. */
  lemma EpochFile()
    ensures InRange(0) && FileOf(ActivityStore.Raw(0)) == "activity-1970-01-01.ndjson"
    ensures FileOf(ActivityStore.Gz(0)) == "activity-1970-01-01.ndjson.gz"
  {
    Anchors();
    var d := Date(1970, 1, 1);
    EpochDigits();
    hide Two, Civil, DayNumber;
    assert DateText(d) == "19" + "70" + "-" + "01" + "-" + "01" == "1970-01-01";
  }

  lemma EpochDigits()
    ensures Two(19) == "19" && Two(70) == "70" && Two(1) == "01"
  {
  }
}
