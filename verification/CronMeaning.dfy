/**
 What a parsed schedule means in calendar terms: when it fires, which day a
 name stands for, and what each macro is short for.
 */
module CronMeaning {
  import opened Calendar
  import opened Masks
  import opened Outcomes
  import opened Text
  import opened CronCompile
  import opened CronParse
  import opened CronSearch

  // ----- when a schedule fires

  /** The columns of an expression that parsed. */
  function ColumnsOf(expr: string): Columns
    requires ReadColumns(Fields(Expand(TrimSpace(expr)))).Ok?
  {
    ReadColumns(Fields(Expand(TrimSpace(expr)))).value
  }

  /** A minute fires exactly if the lists hold its fields; two restricted day fields are alternatives. */
  lemma FiresIff(s: Schedule, expr: string, t: int)
    requires Means(s, expr)
    ensures var c, f := ColumnsOf(expr), Fields(Expand(TrimSpace(expr)));
            var date := Civil(t / 1440);
            var dom, dow := Listed(c.doms, date.day), DowListed(c.dows, Weekday(t / 1440));
            Match(s, t) <==>
              && Listed(c.minutes, t % 60) && Listed(c.hours, t / 60 % 24) && Listed(c.months, date.month)
              && (if f[2] != "*" && f[4] != "*" then dom || dow else dom && dow)
  {
    hide Fields, Expand, TrimSpace, ReadColumns, Listed, DowListed, Bit, Match, Civil, DayNumber, Weekday;
    DayRule(s, t);
    var date := Civil(t / 1440);
    assert date.day > 0 && date.month > 0;
    assert t % 60 >= 0 && t / 60 % 24 >= 0;
  }

  // ----- reading plain columns

  /** Text without spaces. */
  predicate Word(s: string) {
    s != "" && forall c | c in s :: !IsSpace(c)
  }

  lemma {:induction false} SpaceAfter(word: string, rest: string)
    requires forall c | c in word :: !IsSpace(c)
    ensures rest == "" || IsSpace(rest[0]) ==> SpaceAt(word + rest) == |word|
    decreases |word|
  {
    if word == "" {
      assert word + rest == rest;
    } else {
      assert (word + rest)[1..] == word[1..] + rest && (word + rest)[0] == word[0];
      SpaceAfter(word[1..], rest);
    }
  }

  lemma WordTrims(word: string)
    requires Word(word)
    ensures TrimSpace(word) == word
  {
    assert word[0] in word && word[|word| - 1] in word;
  }

  lemma OneField(word: string)
    requires Word(word)
    ensures Fields(word) == [word]
  {
    assert word[0] in word;
    SpaceAfter(word, "");
    assert word + "" == word && word[|word|..] == "";
    assert Fields("") == [];
  }

  lemma FieldsCons(word: string, rest: string)
    requires Word(word)
    ensures Fields(word + [' '] + rest) == [word] + Fields(rest)
  {
    var line := word + [' '] + rest;
    var tail := [' '] + rest;
    assert word[0] in word && line[0] == word[0] && line == word + tail;
    SpaceAfter(word, tail);
    assert line[..|word|] == word && line[|word|..] == tail;
    assert TrimLeft(line) == line;
    SkipSpace(rest);
  }

  lemma SkipSpace(rest: string)
    ensures Fields([' '] + rest) == Fields(rest)
  {
    assert ([' '] + rest)[1..] == rest;
    assert TrimLeft([' '] + rest) == TrimLeft(rest);
  }

  lemma FiveFields(a: string, b: string, c: string, d: string, e: string)
    requires Word(a) && Word(b) && Word(c) && Word(d) && Word(e)
    ensures Fields(a + [' '] + (b + [' '] + (c + [' '] + (d + [' '] + e)))) == [a, b, c, d, e]
  {
    hide *;
    OneField(e);
    FieldsCons(d, e);
    FieldsCons(c, d + [' '] + e);
    FieldsCons(b, c + [' '] + (d + [' '] + e));
    FieldsCons(a, b + [' '] + (c + [' '] + (d + [' '] + e)));
    assert [a] + ([b] + ([c] + ([d] + [e]))) == [a, b, c, d, e];
  }

  /** A single digit lists that value. */
  lemma DigitLists(d: int, min: int, max: int, v: int)
    requires 0 <= d <= 9 && 0 <= min <= d <= max < 64
    ensures ReadList([DigitChar(d)], min, max) == Some([Element(d, d, 1)])
    ensures AllInField([Element(d, d, 1)]) && (Listed([Element(d, d, 1)], v) <==> v == d)
  {
    var text := [DigitChar(d)];
    DigitReads(d, min, max);
    assert Split(text, ',') == [text];
    assert Word(text);
    WordTrims(text);
    OnePart(text, min, max);
    DigitMarks(d, v);
  }

  lemma DigitReads(d: int, min: int, max: int)
    requires 0 <= d <= 9 && min <= d <= max
    ensures ReadElement([DigitChar(d)], min, max) == Some(Element(d, d, 1))
  {
    hide Atoi;
    AtoiItoa(d);
    assert Itoa(d) == [DigitChar(d)];
    DigitsPlain(Itoa(d));
    assert Itoa(d)[..|Itoa(d)|] == Itoa(d);
  }

  lemma OnePart(text: string, min: int, max: int)
    requires text != "" && TrimSpace(text) == text && Split(text, ',') == [text]
    ensures ReadElement(text, min, max).Some? ==> ReadList(text, min, max) == Some([ReadElement(text, min, max).value])
  {
    hide TrimSpace, ReadElement;
    var parts := [text];
    assert parts[..|parts| - 1] == [];
    assert ReadParts([], min, max) == Some([]);
    if ReadElement(text, min, max).Some? {
      assert [] + [ReadElement(text, min, max).value] == [ReadElement(text, min, max).value];
    }
  }

  lemma DigitMarks(d: int, v: int)
    requires 0 <= d <= 9
    ensures Marks(Element(d, d, 1), v) <==> v == d
    ensures Listed([Element(d, d, 1)], v) <==> v == d
  {
    var e := Element(d, d, 1);
    if 0 <= v < d {
      DivUnique(d - v, Drop(1), 0, d - v);
    }
    assert e in [e];
  }

  // ----- the macros

  lemma StarLists(min: int, max: int, v: int)
    requires 0 <= min <= v <= max < 64
    ensures ReadList("*", min, max).Some? && AllInField(ReadList("*", min, max).value)
    ensures Listed(ReadList("*", min, max).value, v)
  {
    StarListsAll(min, max, v);
  }

  lemma DowDigit(d: int)
    requires 0 <= d <= 6
    ensures ReadDow([DigitChar(d)]) == ReadList([DigitChar(d)], 0, 7)
  {
    hide ReadList;
    var text := [DigitChar(d)];
    assert ToLower(text) == text;
    assert text[1..] == "" && Untile("") == Some("");
    assert StartsAlias(text) == 7 && !IsLower(text[0]);
    assert [text[0]] + "" == text;
  }

  /** Columns that hold a digit or a star. */
  predicate Simple(f: string, min: int, max: int) {
    f == "*" || (|f| == 1 && IsDigit(f[0]) && min <= DigitValue(f[0]) <= max)
  }

  predicate Takes(f: string, v: int)
    requires f == "*" || (|f| == 1 && IsDigit(f[0]))
  {
    f == "*" || v == DigitValue(f[0])
  }

  lemma SimpleLists(f: string, min: int, max: int, v: int)
    requires 0 <= min <= v <= max < 64 && Simple(f, min, max)
    ensures ReadList(f, min, max).Some? && AllInField(ReadList(f, min, max).value)
    ensures Listed(ReadList(f, min, max).value, v) <==> Takes(f, v)
  {
    hide ReadList, Listed;
    if f == "*" {
      StarLists(min, max, v);
    } else {
      DigitBack(f[0]);
      assert f == [DigitChar(DigitValue(f[0]))];
      DigitLists(DigitValue(f[0]), min, max, v);
    }
  }

  /** An expression of five simple columns fires exactly on the minutes that take all of them. */
  lemma SimpleFires(s: Schedule, expr: string, f: seq<string>, t: int)
    requires Means(s, expr) && Fields(Expand(TrimSpace(expr))) == f && |f| == 5
    requires Simple(f[0], 0, 59) && Simple(f[1], 0, 23) && Simple(f[2], 1, 31) && Simple(f[3], 1, 12)
    requires Simple(f[4], 0, 6) && (f[2] == "*" || f[4] == "*")
    ensures var date := Civil(t / 1440);
            Match(s, t) <==>
              && Takes(f[0], t % 60) && Takes(f[1], t / 60 % 24) && Takes(f[2], date.day) && Takes(f[3], date.month)
              && Takes(f[4], Weekday(t / 1440))
  {
    hide Fields, Expand, TrimSpace, ReadList, ReadDow, Listed, Bit, Match, Civil, DayNumber, Simple, Takes;
    FiresIff(s, expr, t);
    var date := Civil(t / 1440);
    DayNumberOfCivil(t / 1440);
    DaysFit(date);
    SimpleLists(f[0], 0, 59, t % 60);
    SimpleLists(f[1], 0, 23, t / 60 % 24);
    SimpleLists(f[2], 1, 31, date.day);
    SimpleLists(f[3], 1, 12, date.month);
    SimpleDow(f[4], Weekday(t / 1440));
  }

  lemma DaysFit(date: Date)
    requires Exists(date)
    ensures 1 <= date.month <= 12 && 1 <= date.day <= 31
  {
  }

  lemma SimpleDow(f: string, w: int)
    requires Simple(f, 0, 6) && 0 <= w <= 6
    ensures ReadDow(f).Some? && AllInField(ReadDow(f).value)
    ensures DowListed(ReadDow(f).value, w) <==> Takes(f, w)
  {
    hide ReadList, ReadDow, Listed;
    SimpleLists(f, 0, 7, w);
    SimpleLists(f, 0, 7, 7);
    if f == "*" {
      StarReadsAsDow();
    } else {
      DigitBack(f[0]);
      assert f == [DigitChar(DigitValue(f[0]))];
      DowDigit(DigitValue(f[0]));
    }
  }

  /** What each macro is short for. */
  lemma MacrosMean(s: Schedule, t: int)
    ensures Means(s, "@hourly") ==> (Match(s, t) <==> t % 60 == 0)
    ensures Means(s, "@daily") || Means(s, "@midnight") ==> (Match(s, t) <==> t % 1440 == 0)
    ensures Means(s, "@weekly") ==> (Match(s, t) <==> t % 1440 == 0 && Weekday(t / 1440) == 0)
    ensures Means(s, "@monthly") ==> (Match(s, t) <==> t % 1440 == 0 && Civil(t / 1440).day == 1)
    ensures Means(s, "@yearly") || Means(s, "@annually") ==>
              (Match(s, t) <==> t % 1440 == 0 && Civil(t / 1440).month == 1 && Civil(t / 1440).day == 1)
  {
    hide *;
    Midnight(t);
    Digits();
    if Means(s, "@hourly") { HourlyExpands(); MacroFires(s, "@hourly", ["0", "*", "*", "*", "*"], t); }
    if Means(s, "@daily") { DailyExpands(); MacroFires(s, "@daily", ["0", "0", "*", "*", "*"], t); }
    if Means(s, "@midnight") { DailyExpands(); MacroFires(s, "@midnight", ["0", "0", "*", "*", "*"], t); }
    if Means(s, "@weekly") { WeeklyExpands(); MacroFires(s, "@weekly", ["0", "0", "*", "*", "0"], t); }
    if Means(s, "@monthly") { MonthlyExpands(); MacroFires(s, "@monthly", ["0", "0", "1", "*", "*"], t); }
    if Means(s, "@yearly") { YearlyExpands(); MacroFires(s, "@yearly", ["0", "0", "1", "1", "*"], t); }
    if Means(s, "@annually") { YearlyExpands(); MacroFires(s, "@annually", ["0", "0", "1", "1", "*"], t); }
  }

  lemma Digits()
    ensures Simple("*", 0, 59) && Simple("*", 0, 23) && Simple("*", 1, 31) && Simple("*", 1, 12) && Simple("*", 0, 6)
    ensures Simple("0", 0, 59) && Simple("0", 0, 23) && Simple("1", 1, 31) && Simple("1", 1, 12) && Simple("0", 0, 6)
    ensures forall v :: Takes("*", v) && (Takes("0", v) <==> v == 0) && (Takes("1", v) <==> v == 1)
  {
  }

  lemma HourlyExpands()
    ensures Word("@hourly") && Expand("@hourly") == Spaced(["0", "*", "*", "*", "*"])
  {
  }

  lemma DailyExpands()
    ensures Word("@daily") && Expand("@daily") == Spaced(["0", "0", "*", "*", "*"])
    ensures Word("@midnight") && Expand("@midnight") == Spaced(["0", "0", "*", "*", "*"])
  {
  }

  lemma WeeklyExpands()
    ensures Word("@weekly") && Expand("@weekly") == Spaced(["0", "0", "*", "*", "0"])
  {
  }

  lemma MonthlyExpands()
    ensures Word("@monthly") && Expand("@monthly") == Spaced(["0", "0", "1", "*", "*"])
  {
  }

  lemma YearlyExpands()
    ensures Word("@yearly") && Expand("@yearly") == Spaced(["0", "0", "1", "1", "*"])
    ensures Word("@annually") && Expand("@annually") == Spaced(["0", "0", "1", "1", "*"])
  {
  }

  lemma Midnight(t: int)
    ensures t % 60 == 0 && t / 60 % 24 == 0 <==> t % 1440 == 0
  {
  }

  function Spaced(f: seq<string>): string
    requires |f| == 5
  {
    f[0] + [' '] + (f[1] + [' '] + (f[2] + [' '] + (f[3] + [' '] + f[4])))
  }

  lemma MacroFires(s: Schedule, macro: string, f: seq<string>, t: int)
    requires Means(s, macro) && Word(macro) && |f| == 5 && Expand(macro) == Spaced(f)
    requires Simple(f[0], 0, 59) && Simple(f[1], 0, 23) && Simple(f[2], 1, 31) && Simple(f[3], 1, 12)
    requires Simple(f[4], 0, 6) && (f[2] == "*" || f[4] == "*")
    ensures var date := Civil(t / 1440);
            Match(s, t) <==>
              && Takes(f[0], t % 60) && Takes(f[1], t / 60 % 24) && Takes(f[2], date.day) && Takes(f[3], date.month)
              && Takes(f[4], Weekday(t / 1440))
  {
    hide Match, Means, Expand, Civil, DayNumber, Weekday, Fields, TrimSpace, Takes;
    WordTrims(macro);
    assert Word(f[0]) && Word(f[1]) && Word(f[2]) && Word(f[3]) && Word(f[4]);
    hide Simple, Word;
    FiveFields(f[0], f[1], f[2], f[3], f[4]);
    assert f == [f[0], f[1], f[2], f[3], f[4]];
    SimpleFires(s, macro, f, t);
  }

  /** Every macro parses. */
  lemma MacrosParse(macro: string)
    requires macro in {"@hourly", "@daily", "@midnight", "@weekly", "@monthly", "@yearly", "@annually"}
    ensures ReadColumns(Fields(Expand(TrimSpace(macro)))).Ok?
  {
    hide Match, Means, Expand, Fields, TrimSpace, Takes, Simple, ReadColumns;
    Digits();
    HourlyExpands();
    DailyExpands();
    WeeklyExpands();
    MonthlyExpands();
    YearlyExpands();
    if macro == "@hourly" { MacroParses(macro, ["0", "*", "*", "*", "*"]); }
    else if macro == "@daily" || macro == "@midnight" { MacroParses(macro, ["0", "0", "*", "*", "*"]); }
    else if macro == "@weekly" { MacroParses(macro, ["0", "0", "*", "*", "0"]); }
    else if macro == "@monthly" { MacroParses(macro, ["0", "0", "1", "*", "*"]); }
    else { MacroParses(macro, ["0", "0", "1", "1", "*"]); }
  }

  lemma MacroParses(macro: string, f: seq<string>)
    requires Word(macro) && |f| == 5 && Expand(macro) == Spaced(f)
    requires Simple(f[0], 0, 59) && Simple(f[1], 0, 23) && Simple(f[2], 1, 31) && Simple(f[3], 1, 12)
    requires Simple(f[4], 0, 6)
    ensures ReadColumns(Fields(Expand(TrimSpace(macro)))).Ok?
  {
    hide Expand, Fields, TrimSpace, ReadList, ReadDow, Listed;
    WordTrims(macro);
    SimpleLists(f[0], 0, 59, 0);
    SimpleLists(f[1], 0, 23, 0);
    SimpleLists(f[2], 1, 31, 1);
    SimpleLists(f[3], 1, 12, 1);
    SimpleDow(f[4], 0);
    assert Word(f[0]) && Word(f[1]) && Word(f[2]) && Word(f[3]) && Word(f[4]);
    FiveFields(f[0], f[1], f[2], f[3], f[4]);
  }

  // ----- the names of days

  /** A weekday's name, in any case, stands for its number counted from Sunday. */
  lemma NameMeans(name: string, day: int)
    requires 0 <= day <= 6 && ToLower(name) == ["sun", "mon", "tue", "wed", "thu", "fri", "sat"][day]
    ensures ReadDow(name) == Some([Element(day, day, 1)])
  {
    hide ReadList;
    var lower := ToLower(name);
    assert StartsAlias(lower) == day && lower[3..] == "" && Untile("") == Some("");
    assert [DigitChar(day)] + "" == [DigitChar(day)];
    DigitLists(day, 0, 7, day);
  }
}
