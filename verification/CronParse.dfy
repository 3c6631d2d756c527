/**
 From a cron expression to a compiled schedule: macros, the five fields, comma
 lists, and weekday names.
 */
module CronParse {
  import opened Masks
  import opened Outcomes
  import opened Text
  import opened CronCompile
  import Search = CronSearch

  datatype Field = Minute | Hour | DayOfMonth | Month | DayOfWeek
  datatype Error = WrongFieldCount(count: nat) | BadField(field: Field)

  /** The elements each of the five fields lists. */
  datatype Columns = Columns(
    minutes: seq<Element>, hours: seq<Element>, doms: seq<Element>,
    months: seq<Element>, dows: seq<Element>)

  // ----- comma lists

  /** All parts read, or none at all. */
  function ReadParts(parts: seq<string>, min: int, max: int): (es: Option<seq<Element>>)
    ensures es.Some? ==> |es.value| == |parts|
                         && forall e | e in es.value :: min <= e.lo <= e.hi <= max && 0 < e.step <= MAX_INT
  {
    if |parts| == 0 then Some([])
    else
      var front := ReadParts(parts[..|parts| - 1], min, max);
      var part := TrimSpace(parts[|parts| - 1]);
      var last := if part == "" then None else ReadElement(part, min, max);
      if front.None? || last.None? then None else Some(front.value + [last.value])
  }

  function ReadList(field: string, min: int, max: int): (es: Option<seq<Element>>)
    ensures es.Some? ==> |es.value| > 0
                         && forall e | e in es.value :: min <= e.lo <= e.hi <= max && 0 < e.step <= MAX_INT
  {
    if field == "" then None else ReadParts(Split(field, ','), min, max)
  }

  predicate AllInField(es: seq<Element>) {
    forall e | e in es :: InField(e)
  }

  predicate Listed(es: seq<Element>, v: int)
    requires AllInField(es)
  {
    exists e | e in es :: Marks(e, v)
  }

  /** A mask holds exactly the values its list marks. */
  ghost predicate Holds(mask: nat, es: seq<Element>)
    requires AllInField(es)
  {
    forall v: nat :: Bit(mask, v) <==> Listed(es, v)
  }

  method ParseRange(part: string, min: int, max: int) returns (r: Option<nat>)
    requires 0 <= min <= max < 64
    ensures r.Some? <==> ReadElement(part, min, max).Some?
    ensures r.Some? ==> forall v: nat :: Bit(r.value, v) <==> Marks(ReadElement(part, min, max).value, v)
  {
    var e := ReadElement(part, min, max);
    if e.None? {
      return None;
    }
    var lo, hi, step := e.value.lo, e.value.hi, e.value.step;
    var bits, v := 0, lo;
    while v <= hi
      invariant Counter(v, hi, step)
      invariant Mark(v, hi, step, bits) == Mark(lo, hi, step, 0)
      decreases Remaining(v, hi, step)
    {
      CounterSteps(v, hi, step);
      bits := Or(bits, ShiftBy(v));
      v := AddInt(v, step);
    }
    forall u: nat
      ensures Bit(bits, u) <==> Marks(e.value, u)
    {
      MarkIsExact(e.value, u);
    }
    return Some(bits);
  }

  lemma HoldsMore(bits: nat, es: seq<Element>, mask: nat, e: Element)
    requires AllInField(es) && InField(e)
    requires Holds(bits, es)
    requires forall v: nat :: Bit(mask, v) <==> Marks(e, v)
    ensures AllInField(es + [e]) && Holds(Or(bits, mask), es + [e])
  {
    forall v: nat
      ensures Bit(Or(bits, mask), v) <==> Listed(es + [e], v)
    {
      BitOfOr(bits, mask, v);
      assert e in es + [e];
      if Listed(es, v) {
        var f :| f in es && Marks(f, v);
        assert f in es + [e];
      }
    }
  }

  method ParseField(field: string, min: int, max: int) returns (r: Option<nat>)
    requires 0 <= min <= max < 64
    ensures r.Some? <==> ReadList(field, min, max).Some?
    ensures r.Some? ==> Holds(r.value, ReadList(field, min, max).value)
  {
    hide Split, TrimSpace, ReadElement, Or, Marks;
    if field == "" {
      return None;
    }
    var parts := Split(field, ',');
    var bits := 0;
    forall v: nat
      ensures !Bit(0, v)
    {
      BitOfZero(v);
    }
    for i := 0 to |parts|
      invariant ReadParts(parts[..i], min, max).Some?
      invariant Holds(bits, ReadParts(parts[..i], min, max).value)
    {
      var part := TrimSpace(parts[i]);
      assert parts[..i + 1][..i] == parts[..i];
      if part == "" {
        ReadPartsStops(parts, i, min, max);
        return None;
      }
      var mask := ParseRange(part, min, max);
      if mask.None? {
        ReadPartsStops(parts, i, min, max);
        return None;
      }
      HoldsMore(bits, ReadParts(parts[..i], min, max).value, mask.value, ReadElement(part, min, max).value);
      bits := Or(bits, mask.value);
    }
    assert parts[..|parts|] == parts;
    return Some(bits);
  }

  lemma {:induction false} ReadPartsStops(parts: seq<string>, i: nat, min: int, max: int)
    requires i < |parts| && ReadParts(parts[..i + 1], min, max).None?
    ensures ReadParts(parts, min, max).None?
    decreases |parts|
  {
    if i + 1 == |parts| {
      assert parts[..i + 1] == parts;
    } else {
      var front := parts[..|parts| - 1];
      assert front[..i + 1] == parts[..i + 1];
      ReadPartsStops(front, i, min, max);
    }
  }

  // ----- weekday names

  /**
   unicode.ToLower as far as it can matter: besides A to Z, only the dotted
   capital I and the Kelvin sign have an ASCII lower case, and no list element
   reads with a letter outside ASCII.
   */
  function LowerChar(c: char): char {
    if 'A' <= c <= 'Z' then (c as int + 32) as char
    else if c == '\U{0130}' then 'i'
    else if c == '\U{212A}' then 'k'
    else c
  }

  /** strings.ToLower */
  function ToLower(s: string): string {
    seq(|s|, i requires 0 <= i < |s| => LowerChar(s[i]))
  }

  predicate IsLower(c: char) {
    'a' <= c <= 'z'
  }

  /** The weekday whose three-letter alias this is, or 7. */
  function AliasOf(a: char, b: char, c: char): (day: int)
    ensures 0 <= day <= 7
  {
    if a == 's' && b == 'u' && c == 'n' then 0
    else if a == 'm' && b == 'o' && c == 'n' then 1
    else if a == 't' && b == 'u' && c == 'e' then 2
    else if a == 'w' && b == 'e' && c == 'd' then 3
    else if a == 't' && b == 'h' && c == 'u' then 4
    else if a == 'f' && b == 'r' && c == 'i' then 5
    else if a == 's' && b == 'a' && c == 't' then 6
    else 7
  }

  /** The alias a string starts with, or 7. */
  function StartsAlias(s: string): (day: int)
    ensures 0 <= day <= 7
  {
    if |s| < 3 then 7 else AliasOf(s[0], s[1], s[2])
  }

  /** strings.ReplaceAll of one weekday's alias by its number. */
  function ReplaceAlias(s: string, day: int): string
    requires 0 <= day <= 6
  {
    if s == "" then ""
    else if StartsAlias(s) == day then [DigitChar(day)] + ReplaceAlias(s[3..], day)
    else [s[0]] + ReplaceAlias(s[1..], day)
  }

  /** Reads a text as a run of aliases and other characters; no other lower-case letter may occur. */
  function Untile(s: string): Option<string> {
    if s == "" then Some("")
    else
      var day := StartsAlias(s);
      var rest := Untile(if day < 7 then s[3..] else s[1..]);
      if day == 7 && IsLower(s[0]) then None
      else if rest.None? then None
      else Some([if day < 7 then DigitChar(day) else s[0]] + rest.value)
  }

  const ALL_DAYS: set<int> := {0, 1, 2, 3, 4, 5, 6}

  /** The same text with only some of the aliases replaced. */
  function Partly(s: string, done: set<int>): string {
    if s == "" then ""
    else
      var day := StartsAlias(s);
      if day == 7 then [s[0]] + Partly(s[1..], done)
      else if day in done then [DigitChar(day)] + Partly(s[3..], done)
      else s[..3] + Partly(s[3..], done)
  }

  /** Replacing an alias never changes how a text reads, or that it does not. */
  lemma {:induction false} ReplaceKeepsReading(s: string, day: int)
    requires 0 <= day <= 6
    ensures Untile(ReplaceAlias(s, day)) == Untile(s)
    decreases |s|
  {
    if s != "" {
      var here := StartsAlias(s);
      var t := ReplaceAlias(s, day);
      if here == day {
        ReplaceKeepsReading(s[3..], day);
        assert t[1..] == ReplaceAlias(s[3..], day);
      } else {
        ReplaceKeepsReading(s[1..], day);
        assert t[1..] == ReplaceAlias(s[1..], day);
        if here < 7 {
          ReplaceKeepsReading(s[3..], day);
          AliasSurvives(s, day);
        } else {
          ReplaceMakesNoAlias(s, day);
        }
      }
    }
  }

  /** Replacing inside a text that starts with another alias. */
  lemma AliasSurvives(s: string, day: int)
    requires 0 <= day <= 6 && StartsAlias(s) < 7 && StartsAlias(s) != day
    ensures if StartsAlias(s[2..]) == day
            then Untile(s) == None && Untile(ReplaceAlias(s, day)) == None
            else ReplaceAlias(s, day) == s[..3] + ReplaceAlias(s[3..], day)
  {
    var t := ReplaceAlias(s, day);
    assert s[1..][1..] == s[2..] && s[2..][1..] == s[3..];
    assert t == [s[0]] + ReplaceAlias(s[1..], day);
    if StartsAlias(s[2..]) == day {
      assert t[2] == DigitChar(day);
      assert IsLower(s[3]) && StartsAlias(s[3..]) == 7;
    } else {
      assert ReplaceAlias(s[1..], day) == [s[1]] + ReplaceAlias(s[2..], day);
      assert ReplaceAlias(s[2..], day) == [s[2]] + ReplaceAlias(s[3..], day);
    }
  }

  lemma ReplaceMakesNoAlias(s: string, day: int)
    requires 0 <= day <= 6 && s != "" && StartsAlias(s) == 7
    ensures StartsAlias(ReplaceAlias(s, day)) == 7
  {
    var t := ReplaceAlias(s, day);
    assert t[1..] == ReplaceAlias(s[1..], day);
    if |s| == 1 {
      assert |t| == 1;
    } else if |s| == 2 {
      assert |ReplaceAlias(s[1..], day)| == 1 + |ReplaceAlias(s[1..][1..], day)|;
    } else if StartsAlias(s[1..]) == day {
      assert t[1] == DigitChar(day);
    } else {
      assert s[1..][1..] == s[2..];
      assert t[1] == s[1] && t[2..] == ReplaceAlias(s[2..], day);
      if StartsAlias(s[2..]) == day {
        assert t[2] == DigitChar(day);
      } else {
        assert t[2] == s[2];
      }
    }
  }

  /** On a text that reads, one replacement does one alias everywhere. */
  lemma {:induction false} ReplaceIsPartly(s: string, done: set<int>, day: int)
    requires 0 <= day <= 6 && Untile(s).Some?
    ensures ReplaceAlias(Partly(s, done), day) == Partly(s, done + {day})
    decreases |s|
  {
    hide ReplaceAlias, AliasOf;
    if s == "" {
      ReplaceNothing(day);
    } else {
      var here := StartsAlias(s);
      var rest := if here < 7 then s[3..] else s[1..];
      ReplaceIsPartly(rest, done, day);
      var p := Partly(rest, done);
      if here == 7 {
        ReplaceAfterOther(s[0], p, day);
      } else if here in done {
        ReplaceAfterOther(DigitChar(here), p, day);
      } else {
        PartlyStart(rest, done);
        ReplaceAfterAlias(s[..3], p, day);
      }
    }
  }

  lemma ReplaceNothing(day: int)
    requires 0 <= day <= 6
    ensures ReplaceAlias("", day) == ""
  {
  }

  lemma ReplaceAfterOther(c: char, p: string, day: int)
    requires 0 <= day <= 6 && !IsLower(c)
    ensures ReplaceAlias([c] + p, day) == [c] + ReplaceAlias(p, day)
  {
    assert ([c] + p)[1..] == p;
  }

  lemma ReplaceAfterAlias(alias: string, p: string, day: int)
    requires 0 <= day <= 6 && |alias| == 3 && StartsAlias(alias) < 7
    requires p == "" || !IsLower(p[0]) || (|p| >= 3 && StartsAlias(p) < 7)
    ensures ReplaceAlias(alias + p, day) ==
            (if StartsAlias(alias) == day then [DigitChar(day)] else alias) + ReplaceAlias(p, day)
  {
    var t := alias + p;
    assert t[3..] == p && t[1..][1..] == t[2..] && t[2..][1..] == p;
    if StartsAlias(alias) != day {
      assert StartsAlias(t[1..]) != day && StartsAlias(t[2..]) != day;
      assert ReplaceAlias(t[2..], day) == [t[2]] + ReplaceAlias(p, day);
      assert ReplaceAlias(t[1..], day) == [t[1]] + ReplaceAlias(t[2..], day);
      assert ReplaceAlias(t, day) == [t[0]] + ReplaceAlias(t[1..], day);
    }
  }

  /** What follows an alias in a text that reads starts no alias halfway. */
  lemma PartlyStart(s: string, done: set<int>)
    requires Untile(s).Some?
    ensures var p := Partly(s, done);
            p == "" || !IsLower(p[0]) || (|p| >= 3 && StartsAlias(p) < 7)
  {
  }

  lemma {:induction false} PartlyAll(s: string)
    requires Untile(s).Some?
    ensures Partly(s, ALL_DAYS) == Untile(s).value
    ensures Partly(s, {}) == s
    decreases |s|
  {
    if s != "" {
      var here := StartsAlias(s);
      PartlyAll(if here < 7 then s[3..] else s[1..]);
    }
  }

  /** The day-of-week column as its text reads, whatever order aliases are replaced in. */
  function ReadDow(field: string): (es: Option<seq<Element>>)
    ensures es.Some? ==> |es.value| > 0
                         && forall e | e in es.value :: 0 <= e.lo <= e.hi <= 7 && 0 < e.step <= MAX_INT
  {
    var text := Untile(ToLower(field));
    if text.None? then None else ReadList(text.value, 0, 7)
  }

  /** The aliases live in a map, so they are visited in an arbitrary order. */
  method NormalizeDOW(field: string) returns (out: string)
    ensures ReadList(out, 0, 7) == ReadDow(field)
  {
    var lower := ToLower(field);
    out := lower;
    var left := ALL_DAYS;
    ghost var done: set<int> := {};
    if Untile(lower).Some? {
      PartlyAll(lower);
    }
    while left != {}
      invariant done + left == ALL_DAYS
      invariant Untile(out) == Untile(lower)
      invariant Untile(lower).Some? ==> out == Partly(lower, done)
      decreases left
    {
      var day :| day in left;
      ReplaceKeepsReading(out, day);
      if Untile(lower).Some? {
        ReplaceIsPartly(lower, done, day);
      }
      out := ReplaceAlias(out, day);
      left := left - {day};
      done := done + {day};
    }
    if Untile(lower).None? {
      UnreadableHasLetter(out);
      LetterFails(out, 0, 7);
    } else {
      assert done == ALL_DAYS;
    }
  }

  lemma {:induction false} UnreadableHasLetter(s: string)
    requires Untile(s).None?
    ensures exists c | c in s :: IsLower(c)
    decreases |s|
  {
    var day := StartsAlias(s);
    if day < 7 || IsLower(s[0]) {
      assert IsLower(s[0]);
    } else {
      UnreadableHasLetter(s[1..]);
    }
  }

  // ----- a left-over letter is always an error

  lemma LetterFails(field: string, min: int, max: int)
    requires exists c | c in field :: IsLower(c)
    ensures ReadList(field, min, max).None?
  {
    var c :| c in field && IsLower(c);
    SplitHolds(field, ',', c);
    var parts := Split(field, ',');
    var k :| 0 <= k < |parts| && c in parts[k];
    TrimKeeps(parts[k], c);
    LetterInPart(TrimSpace(parts[k]), c, min, max);
    assert parts[..k + 1][..k] == parts[..k];
    ReadPartsStops(parts, k, min, max);
  }

  lemma {:induction false} SplitHolds(s: string, sep: char, c: char)
    requires c in s && c != sep
    ensures exists k :: 0 <= k < |Split(s, sep)| && c in Split(s, sep)[k]
    decreases |s|
  {
    var i := IndexOf(s, sep);
    if i == |s| || c in s[..i] {
      assert c in Split(s, sep)[0];
    } else {
      assert s == s[..i] + [s[i]] + s[i + 1..];
      SplitHolds(s[i + 1..], sep, c);
      var k :| 0 <= k < |Split(s[i + 1..], sep)| && c in Split(s[i + 1..], sep)[k];
      assert Split(s, sep)[k + 1] == Split(s[i + 1..], sep)[k];
    }
  }

  lemma {:induction false} TrimKeeps(s: string, c: char)
    requires c in s && !IsSpace(c)
    ensures c in TrimSpace(s)
  {
    TrimLeftKeeps(s, c);
    TrimRightKeeps(TrimLeft(s), c);
  }

  lemma TrimLeftKeeps(s: string, c: char)
    requires c in s && !IsSpace(c)
    ensures c in TrimLeft(s)
  {
  }

  lemma TrimRightKeeps(s: string, c: char)
    requires c in s && !IsSpace(c)
    ensures c in TrimRight(s)
  {
  }

  lemma LetterInPart(part: string, c: char, min: int, max: int)
    requires c in part && IsLower(c)
    ensures ReadElement(part, min, max).None?
  {
    hide Atoi, IndexOf;
    var slash := IndexOf(part, '/');
    var range := part[..slash];
    if slash < |part| {
      assert part == range + [part[slash]] + part[slash + 1..];
    }
    if c !in range {
      LetterNoNumber(part[slash + 1..], c);
    } else {
      var dash := IndexOf(range, '-');
      LetterNoNumber(range, c);
      if 0 < dash < |range| {
        assert range == range[..dash] + [range[dash]] + range[dash + 1..];
        if c in range[..dash] {
          LetterNoNumber(range[..dash], c);
        } else {
          LetterNoNumber(range[dash + 1..], c);
        }
      }
    }
  }

  lemma LetterNoNumber(s: string, c: char)
    requires c in s && IsLower(c)
    ensures Atoi(s).None?
  {
    if s[0] == '+' || s[0] == '-' {
      assert s == [s[0]] + s[1..];
    }
  }

  // ----- the whole expression

  function Expand(canonical: string): string {
    if canonical == "@yearly" || canonical == "@annually" then "0 0 1 1 *"
    else if canonical == "@monthly" then "0 0 1 * *"
    else if canonical == "@weekly" then "0 0 * * 0"
    else if canonical == "@daily" || canonical == "@midnight" then "0 0 * * *"
    else if canonical == "@hourly" then "0 * * * *"
    else canonical
  }

  /** The columns an expression lists, or the first thing wrong with it. */
  function ReadColumns(f: seq<string>): Result<Columns, Error> {
    if |f| != 5 then Err(WrongFieldCount(|f|))
    else
      var m, h, d, mo, w :=
        ReadList(f[0], 0, 59), ReadList(f[1], 0, 23), ReadList(f[2], 1, 31),
        ReadList(f[3], 1, 12), ReadDow(f[4]);
      if m.None? then Err(BadField(Minute))
      else if h.None? then Err(BadField(Hour))
      else if d.None? then Err(BadField(DayOfMonth))
      else if mo.None? then Err(BadField(Month))
      else if w.None? then Err(BadField(DayOfWeek))
      else Ok(Columns(m.value, h.value, d.value, mo.value, w.value))
  }

  predicate ColumnsInField(c: Columns) {
    AllInField(c.minutes) && AllInField(c.hours) && AllInField(c.doms)
    && AllInField(c.months) && AllInField(c.dows)
  }

  /** Day of week 7 is Sunday, bit 0. */
  predicate DowListed(es: seq<Element>, v: int)
    requires AllInField(es)
  {
    v <= 6 && (Listed(es, v) || (v == 0 && Listed(es, 7)))
  }

  /** The schedule's five masks are exactly the five columns. */
  ghost predicate Compiles(s: Search.Schedule, c: Columns)
    requires ColumnsInField(c)
  {
    && Holds(s.minutes, c.minutes)
    && Holds(s.hours, c.hours)
    && Holds(s.doms, c.doms)
    && Holds(s.months, c.months)
    && forall v: nat :: Bit(s.dows, v) <==> DowListed(c.dows, v)
  }

  /** The schedule an expression parses to. */
  ghost predicate Means(s: Search.Schedule, expr: string) {
    var f := Fields(Expand(TrimSpace(expr)));
    && |f| == 5 && ReadColumns(f).Ok? && ColumnsInField(ReadColumns(f).value)
    && Compiles(s, ReadColumns(f).value) && Search.Compiled(s)
    && s.domStar == (f[2] == "*") && s.dowStar == (f[4] == "*")
  }

  /** A field's mask has a bit its field allows, and none above its maximum. */
  lemma HoldsInBounds(mask: nat, es: seq<Element>, min: nat, max: nat)
    requires |es| > 0 && max < 64
    requires forall e | e in es :: min <= e.lo <= e.hi <= max && 0 < e.step <= MAX_INT
    requires Holds(mask, es)
    ensures Below(mask, max + 1)
    ensures exists v :: min <= v <= max && Bit(mask, v)
    ensures mask != 0
  {
    var e := es[0];
    DivUnique(0, e.step, 0, 0);
    assert Marks(e, e.lo);
    assert Listed(es, e.lo);
    assert Bit(mask, e.lo);
    if mask == 0 {
      BitOfZero(e.lo);
    }
  }

  /** `*` alone lists the whole field. */
  lemma StarListsAll(min: int, max: int, v: int)
    requires 0 <= min <= v <= max < 64
    ensures ReadList("*", min, max).Some? && AllInField(ReadList("*", min, max).value)
    ensures Listed(ReadList("*", min, max).value, v)
  {
    assert Split("*", ',') == ["*"];
    var parts := ["*"];
    assert parts[..0] == [];
    assert TrimSpace("*") == "*";
    assert "*"[..IndexOf("*", '/')] == "*";
    var e := Element(min, max, 1);
    assert ReadElement("*", min, max) == Some(e);
    assert parts[..|parts| - 1] == [];
    assert ReadParts([], min, max) == Some([]);
    assert ReadParts(parts, min, max) == Some([] + [e]);
    assert Marks(e, v);
    assert e in ReadList("*", min, max).value;
  }

  lemma StarReadsAsDow()
    ensures ReadDow("*") == ReadList("*", 0, 7)
  {
    hide ReadList;
    StarUntiles();
  }

  lemma StarUntiles()
    ensures Untile(ToLower("*")) == Some("*")
  {
    var star := "*";
    assert ToLower(star) == star;
    assert star[1..] == "";
    assert Untile("") == Some("");
    assert StartsAlias(star) == 7 && !IsLower(star[0]);
    assert [star[0]] + "" == star;
  }

  /** Folds day 7 into day 0. */
  method FoldSunday(dows: nat, ghost es: seq<Element>) returns (r: nat)
    requires AllInField(es) && (forall e | e in es :: e.hi <= 7) && Holds(dows, es)
    ensures forall v: nat :: Bit(r, v) <==> DowListed(es, v)
  {
    r := dows;
    if Bit(dows, 7) {
      r := Or(AndNot(dows, Shl1(7)), 1);
      forall v: nat
        ensures Bit(r, v) <==> DowListed(es, v)
      {
        BitOfPow2(7, v);
        BitOfPow2(0, v);
        BitOfAndNot(dows, Shl1(7), v);
        BitOfOr(AndNot(dows, Shl1(7)), 1, v);
        assert Bit(dows, v) ==> v <= 7;
      }
    }
  }

  /** Time zones are not part of this model: the schedule runs in UTC. */
  method ParseSchedule(expr: string) returns (r: Result<Search.Schedule, Error>)
    ensures var columns := ReadColumns(Fields(Expand(TrimSpace(expr))));
            match columns
            case Err(e) => r == Err(e)
            case Ok(c) => r.Ok? && ColumnsInField(c) && Compiles(r.value, c) && Search.Compiled(r.value)
    ensures r.Ok? ==> Means(r.value, expr)
  {
    hide Expand, TrimSpace, Fields, ReadList, ReadDow, Bit, Listed, DowListed, Marks, Narrow, Search.Compiled;
    var canonical := Expand(TrimSpace(expr));
    var fields := Fields(canonical);
    if |fields| != 5 {
      return Err(WrongFieldCount(|fields|));
    }
    var mins := ParseField(fields[0], 0, 59);
    if mins.None? {
      return Err(BadField(Minute));
    }
    var hrs := ParseField(fields[1], 0, 23);
    if hrs.None? {
      return Err(BadField(Hour));
    }
    var doms := ParseField(fields[2], 1, 31);
    if doms.None? {
      return Err(BadField(DayOfMonth));
    }
    var months := ParseField(fields[3], 1, 12);
    if months.None? {
      return Err(BadField(Month));
    }
    var dowField := NormalizeDOW(fields[4]);
    var dows := ParseField(dowField, 0, 7);
    if dows.None? {
      return Err(BadField(DayOfWeek));
    }
    var folded := FoldSunday(dows.value, ReadDow(fields[4]).value);
    var schedule := Search.Schedule(
      mins.value, Narrow(hrs.value, 32), Narrow(doms.value, 32), Narrow(months.value, 16),
      Narrow(folded, 8), fields[2] == "*", fields[4] == "*");
    NarrowColumns(fields, mins.value, hrs.value, doms.value, months.value, folded);
    return Ok(schedule);
  }

  lemma NarrowColumns(f: seq<string>, mins: nat, hrs: nat, doms: nat, months: nat, dows: nat)
    requires |f| == 5 && ReadColumns(f).Ok?
    requires ColumnsInField(ReadColumns(f).value)
    requires Compiles(Search.Schedule(mins, hrs, doms, months, dows, f[2] == "*", f[4] == "*"), ReadColumns(f).value)
    ensures Narrow(hrs, 32) == hrs && Narrow(doms, 32) == doms
    ensures Narrow(months, 16) == months && Narrow(dows, 8) == dows
    ensures Search.Compiled(Search.Schedule(mins, hrs, doms, months, dows, f[2] == "*", f[4] == "*"))
  {
    hide ReadList, Bit, Narrow, Listed;
    var c := ReadColumns(f).value;
    HoldsInBounds(mins, c.minutes, 0, 59);
    HoldsInBounds(hrs, c.hours, 0, 23);
    HoldsInBounds(doms, c.doms, 1, 31);
    HoldsInBounds(months, c.months, 1, 12);
    DowsInBounds(dows, c.dows);
    NarrowKeeps(hrs, 32);
    NarrowKeeps(doms, 32);
    NarrowKeeps(months, 16);
    NarrowKeeps(dows, 8);
    if f[2] == "*" {
      forall v | 1 <= v <= 31 ensures Bit(doms, v) { StarListsAll(1, 31, v); }
    }
    if f[4] == "*" {
      StarReadsAsDow();
      forall v | 0 <= v <= 6 ensures Bit(dows, v) { StarListsAll(0, 7, v); }
    }
  }

  lemma DowsInBounds(dows: nat, es: seq<Element>)
    requires |es| > 0 && forall e | e in es :: 0 <= e.lo <= e.hi <= 7 && 0 < e.step <= MAX_INT
    requires forall v: nat :: Bit(dows, v) <==> DowListed(es, v)
    ensures dows != 0 && Below(dows, 7)
  {
    var e := es[0];
    DivUnique(0, e.step, 0, 0);
    assert Marks(e, e.lo);
    assert Listed(es, e.lo);
    var v := if e.lo == 7 then 0 else e.lo;
    assert Bit(dows, v);
    BitOfZero(v);
  }
}
