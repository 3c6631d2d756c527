/**
 The compiler from five text fields to a cron schedule's bit masks.

 Machine integers are 64 bits wide, as on the platforms the controller ships
 for; `v += step` wraps around, and shifting by a wrapped (huge unsigned)
 amount yields 0.
 */
module CronCompile {
  import opened Masks
  import opened Outcomes
  import opened Text

  // ----- list elements

  /** One list element: every step-th value of lo..hi. */
  datatype Element = Element(lo: int, hi: int, step: int)

  predicate Denotes(e: Element, v: int)
    requires e.step > 0
  {
    e.lo <= v <= e.hi && (v - e.lo) % e.step == 0
  }

  /** `*`, `a` or `a-b`. */
  function ReadRange(range: string, min: int, max: int): Option<(int, int)> {
    var dash := IndexOf(range, '-');
    if range == "*" then Some((min, max))
    else if 0 < dash < |range| then
      var lo, hi := Atoi(range[..dash]), Atoi(range[dash + 1..]);
      if lo.Some? && hi.Some? then Some((lo.value, hi.value)) else None
    else
      var n := Atoi(range);
      if n.Some? then Some((n.value, n.value)) else None
  }

  /** The text of one element, read and bounds-checked: a range, optionally followed by `/n`. */
  function ReadElement(part: string, min: int, max: int): (e: Option<Element>)
    ensures e.Some? ==> min <= e.value.lo <= e.value.hi <= max && 0 < e.value.step <= MAX_INT
  {
    var slash := IndexOf(part, '/');
    var step := if slash < |part| then Atoi(part[slash + 1..]) else Some(1);
    var bounds := ReadRange(part[..slash], min, max);
    if step.None? || step.value <= 0 || bounds.None? then None
    else
      var (lo, hi) := bounds.value;
      if lo < min || hi > max || lo > hi then None else Some(Element(lo, hi, step.value))
  }

  // ----- the grammar of an element

  ghost predicate RangeText(s: string, min: int, max: int, lo: int, hi: int) {
    || (s == "*" && lo == min && hi == max)
    || (lo == hi && Numeral(s, lo))
    || (exists a, b :: s == a + "-" + b && '-' !in a && Numeral(a, lo) && Numeral(b, hi))
  }

  ghost predicate StepText(s: string, step: int) {
    if s == "" then step == 1 else s[0] == '/' && Numeral(s[1..], step)
  }

  /** The texts of an element: a range and a step, within the bounds of the field. */
  ghost predicate Writes(part: string, min: int, max: int, e: Element) {
    && min <= e.lo <= e.hi <= max && e.step > 0
    && exists range, step :: part == range + step && RangeText(range, min, max, e.lo, e.hi) && StepText(step, e.step)
  }

  lemma NumeralHas(s: string, n: int)
    requires Numeral(s, n)
    ensures s != "" && s != "*" && '/' !in s && forall i | 0 < i < |s| :: s[i] != '-'
  {
    hide Numeral;
    AtoiIff(s, n);
    var unsigned := if s != "" && (s[0] == '+' || s[0] == '-') then s[1..] else s;
    assert forall c | c in unsigned :: IsDigit(c);
    assert forall i | 0 < i < |s| :: s[i] in unsigned;
  }

  lemma RangeIff(s: string, min: int, max: int, lo: int, hi: int)
    ensures ReadRange(s, min, max) == Some((lo, hi)) <==> RangeText(s, min, max, lo, hi)
  {
    hide Numeral, Atoi;
    var dash := IndexOf(s, '-');
    AtoiIff(s, lo);
    if Numeral(s, lo) { NumeralHas(s, lo); }
    if 0 < dash < |s| {
      AtoiIff(s[..dash], lo);
      AtoiIff(s[dash + 1..], hi);
      assert s == s[..dash] + "-" + s[dash + 1..];
    }
    if a, b :| s == a + "-" + b && '-' !in a && Numeral(a, lo) && Numeral(b, hi) {
      NumeralHas(a, lo);
      IndexOfAt(a, '-', b);
      assert s[..dash] == a && s[dash + 1..] == b;
    }
  }

  lemma RangeHasNoSlash(s: string, min: int, max: int, lo: int, hi: int)
    requires RangeText(s, min, max, lo, hi)
    ensures '/' !in s
  {
    hide Numeral;
    if lo == hi && Numeral(s, lo) { NumeralHas(s, lo); }
    if a, b :| s == a + "-" + b && '-' !in a && Numeral(a, lo) && Numeral(b, hi) {
      NumeralHas(a, lo);
      NumeralHas(b, hi);
    }
  }

  /** A text cut before its first slash reads as its two pieces do. */
  lemma ReadPieces(head: string, tail: string, min: int, max: int, e: Element)
    requires '/' !in head && (tail != "" ==> tail[0] == '/')
    ensures ReadElement(head + tail, min, max) == Some(e) <==>
      && min <= e.lo <= e.hi <= max && e.step > 0
      && RangeText(head, min, max, e.lo, e.hi) && StepText(tail, e.step)
  {
    hide Numeral, Atoi, ReadRange, RangeText, StepText;
    CutAtSlash(head, tail);
    assert tail != "" ==> tail[1..] == (head + tail)[|head| + 1..];
    RangeIff(head, min, max, e.lo, e.hi);
    StepIff(tail, e.step);
    var bounds := ReadRange(head, min, max);
    assert bounds.Some? ==> bounds.value == (bounds.value.0, bounds.value.1);
    assert e == Element(e.lo, e.hi, e.step);
    assert tail == "" ==> head + tail == head;
    var slash := IndexOf(head + tail, '/');
    assert (head + tail)[..slash] == head && (slash < |head + tail| <==> tail != "");
  }

  /** A text reads as an element exactly if the grammar writes that element so. */
  lemma ReadIff(part: string, min: int, max: int, e: Element)
    ensures ReadElement(part, min, max) == Some(e) <==> Writes(part, min, max, e)
  {
    hide Numeral, Atoi, ReadRange, RangeText, ReadElement;
    var slash := IndexOf(part, '/');
    assert part == part[..slash] + part[slash..];
    ReadPieces(part[..slash], part[slash..], min, max, e);
    if Writes(part, min, max, e) {
      var head, tail :| part == head + tail && RangeText(head, min, max, e.lo, e.hi) && StepText(tail, e.step);
      RangeHasNoSlash(head, min, max, e.lo, e.hi);
      ReadPieces(head, tail, min, max, e);
    }
  }

  lemma StepIff(s: string, step: int)
    requires s != "" ==> s[0] == '/'
    ensures StepText(s, step) <==> (if s == "" then Some(1) else Atoi(s[1..])) == Some(step)
  {
    hide Numeral, Atoi;
    if s != "" { AtoiIff(s[1..], step); }
  }

  lemma CutAtSlash(head: string, tail: string)
    requires '/' !in head && (tail != "" ==> tail[0] == '/')
    ensures IndexOf(head + tail, '/') == |head|
    ensures (head + tail)[..|head|] == head && (head + tail)[|head|..] == tail
  {
    hide *;
    if tail == "" {
      assert head + tail == head;
    } else {
      var rest := tail[1..];
      assert tail == ['/'] + rest;
      assert head + (['/'] + rest) == head + ['/'] + rest;
      IndexOfAt(head, '/', rest);
    }
  }

  // ----- marking the values of an element

  const TWO64: int := 0x1_0000_0000_0000_0000

  /** Signed 64-bit addition. */
  function AddInt(a: int, b: int): int {
    var s := a + b;
    if s > MAX_INT then s - TWO64 else if s < MIN_INT then s + TWO64 else s
  }

  /** uint64(1) << uint(v) for a signed v. */
  function ShiftBy(v: int): nat
    requires MIN_INT <= v <= MAX_INT
  {
    if v < 0 then Shl1(v + TWO64) else Shl1(v)
  }

  /** A step so large that adding it to a value of the field can wrap around. */
  predicate Huge(hi: int, step: int) {
    step > MAX_INT - hi
  }

  /** Two wrapping additions of a huge step move the counter down by this much. */
  function Drop(step: int): int {
    TWO64 - 2 * step
  }

  /** The values a marking loop's counter can take. */
  predicate Counter(v: int, hi: int, step: int) {
    && 0 <= hi < 64 && 0 < step <= MAX_INT && MIN_INT <= v <= MAX_INT
    && (v < 0 ==> Huge(hi, step) && (-64 < v || -64 < v + step <= hi - Drop(step)))
    && (!Huge(hi, step) ==> v <= hi + step)
  }

  function Remaining(v: int, hi: int, step: int): nat
    requires Counter(v, hi, step)
  {
    if v > hi then 0
    else if !Huge(hi, step) then hi - v + 1
    else if v >= 0 then 2 * v + 3
    else if v + step < 0 then 2
    else if v + step <= hi then 2 * (v + step) + 4
    else 1
  }

  /** What the marking loop leaves in `bits` when its counter starts at v. */
  function Mark(v: int, hi: int, step: int, bits: nat): nat
    requires Counter(v, hi, step)
    decreases Remaining(v, hi, step)
  {
    if v > hi then bits
    else Mark(AddInt(v, step), hi, step, Or(bits, ShiftBy(v)))
  }

  lemma CounterSteps(v: int, hi: int, step: int)
    requires Counter(v, hi, step)
    ensures v <= hi ==> Counter(AddInt(v, step), hi, step)
                        && Remaining(AddInt(v, step), hi, step) < Remaining(v, hi, step)
  {
  }

  lemma BitOfShift(v: int, u: nat)
    requires MIN_INT <= v < 64
    ensures Bit(ShiftBy(v), u) <==> u == v
  {
    if v < 0 {
      BitOfZero(u);
    } else {
      BitOfPow2(v, u);
    }
  }

  // A step that cannot wrap marks exactly the values the element denotes.

  lemma {:induction false} MarkPlain(v: int, hi: int, step: int, bits: nat, u: nat)
    requires Counter(v, hi, step) && !Huge(hi, step)
    ensures Bit(Mark(v, hi, step, bits), u) <==>
            Bit(bits, u) || (v <= u <= hi && (u - v) % step == 0)
    decreases Remaining(v, hi, step)
  {
    if v <= hi {
      MarkPlain(v + step, hi, step, Or(bits, ShiftBy(v)), u);
      BitOfOr(bits, ShiftBy(v), u);
      BitOfShift(v, u);
      ModStep(u - v - step, step);
      if v <= u < v + step {
        DivUnique(u - v, step, 0, u - v);
      }
    }
  }

  // A huge step marks the start, then walks down by Drop(step).

  lemma {:induction false} MarkHuge(v: int, hi: int, step: int, bits: nat, u: nat)
    requires Counter(v, hi, step) && Huge(hi, step)
    ensures var top := if v >= 0 then v else v + step;
            v <= hi ==>
            (Bit(Mark(v, hi, step, bits), u) <==>
             Bit(bits, u) || (u <= top <= hi && (top - u) % Drop(step) == 0))
    ensures v > hi ==> Mark(v, hi, step, bits) == bits
    decreases Remaining(v, hi, step)
  {
    if v <= hi {
      var next := AddInt(v, step);
      var more := Or(bits, ShiftBy(v));
      BitOfOr(bits, ShiftBy(v), u);
      BitOfShift(v, u);
      MarkHuge(next, hi, step, more, u);
      if v >= 0 {
        ModStep(v - Drop(step) - u, Drop(step));
        if v - Drop(step) < u <= v {
          DivUnique(v - u, Drop(step), 0, v - u);
        }
      }
    }
  }

  /** Values a wrapped counter marks below the start of the element. */
  predicate Stray(e: Element, v: int)
    requires 0 < e.step <= MAX_INT
  {
    0 <= v < e.lo && (e.lo - v) % Drop(e.step) == 0
  }

  predicate Marks(e: Element, v: int)
    requires 0 < e.step <= MAX_INT
  {
    Denotes(e, v) || Stray(e, v)
  }

  predicate InField(e: Element) {
    0 <= e.lo <= e.hi < 64 && 0 < e.step <= MAX_INT
  }

  /** Which values the two shapes of the loop mark. */
  lemma MarksOf(e: Element, v: nat)
    requires InField(e)
    ensures Huge(e.hi, e.step) ==>
              (Marks(e, v) <==> v <= e.lo && (e.lo - v) % Drop(e.step) == 0)
    ensures !Huge(e.hi, e.step) ==>
              (Marks(e, v) <==> e.lo <= v <= e.hi && (v - e.lo) % e.step == 0)
  {
    if Huge(e.hi, e.step) {
      DivUnique(0, Drop(e.step), 0, 0);
      if e.lo <= v <= e.hi {
        DivUnique(v - e.lo, e.step, 0, v - e.lo);
      }
    } else if v < e.lo {
      DivUnique(e.lo - v, Drop(e.step), 0, e.lo - v);
    }
  }

  /** The loop's mask, for every element: denoted values and strays, no other. */
  lemma MarkIsExact(e: Element, v: nat)
    requires InField(e)
    ensures Bit(Mark(e.lo, e.hi, e.step, 0), v) <==> Marks(e, v)
  {
    hide Mark, Marks, Drop, Bit;
    BitOfZero(v);
    MarksOf(e, v);
    if Huge(e.hi, e.step) {
      MarkHuge(e.lo, e.hi, e.step, 0, v);
    } else {
      MarkPlain(e.lo, e.hi, e.step, 0, v);
    }
  }

  /** An element compiles to exactly its values iff its counter cannot come back. */
  lemma ExactIffNoWrap(e: Element)
    requires InField(e)
    ensures (forall v: nat :: Bit(Mark(e.lo, e.hi, e.step, 0), v) <==> Denotes(e, v))
            <==> e.lo + 2 * e.step < TWO64
  {
    forall v: nat
      ensures Bit(Mark(e.lo, e.hi, e.step, 0), v) <==> Marks(e, v)
      ensures e.lo + 2 * e.step < TWO64 ==> !Stray(e, v)
    {
      MarkIsExact(e, v);
      if v < e.lo < Drop(e.step) {
        DivUnique(e.lo - v, Drop(e.step), 0, e.lo - v);
      }
    }
    if e.lo + 2 * e.step >= TWO64 {
      var v := e.lo - Drop(e.step);
      DivUnique(Drop(e.step), Drop(e.step), 1, 0);
      assert Stray(e, v) && !Denotes(e, v);
    }
  }

  /** `10/9223372036854775807` in the day-of-month field also fires on the 8th. */
  lemma StrayDays()
    ensures ReadElement(Itoa(10) + "/" + Itoa(MAX_INT), 1, 31) == Some(Element(10, 10, MAX_INT))
    ensures Bit(Mark(10, 10, MAX_INT, 0), 8) && Bit(Mark(10, 10, MAX_INT, 0), 0)
    ensures !Denotes(Element(10, 10, MAX_INT), 8)
  {
    hide Bit, Mark, Itoa, ReadElement;
    ReadStepped(10, MAX_INT, 1, 31);
    var e := Element(10, 10, MAX_INT);
    MarkIsExact(e, 8);
    MarkIsExact(e, 0);
  }

  lemma ReadStepped(n: nat, step: nat, min: int, max: int)
    requires min <= n <= max < 64 && 0 < step <= MAX_INT
    ensures ReadElement(Itoa(n) + "/" + Itoa(step), min, max) == Some(Element(n, n, step))
  {
    hide Itoa, Atoi;
    AtoiItoa(n);
    AtoiItoa(step);
    DigitsPlain(Itoa(n));
    SplitAt(Itoa(n), '/', Itoa(step));
  }

  // ----- every element can be written

  lemma DigitsPlain(s: string)
    requires AllDigits(s)
    ensures '/' !in s && '-' !in s && ',' !in s && s != "*"
    ensures IndexOf(s, '-') == |s| && IndexOf(s, '/') == |s|
  {
    assert s[0] in s;
  }

  lemma SplitAt(a: string, c: char, b: string)
    requires c !in a
    ensures var s := a + [c] + b;
            IndexOf(s, c) == |a| && s[..|a|] == a && s[|a| + 1..] == b
  {
    IndexOfAt(a, c, b);
  }

  function Render(e: Element): string
    requires InField(e)
  {
    Itoa(e.lo) + "-" + Itoa(e.hi) + "/" + Itoa(e.step)
  }

  /** Reading back what an operator writes for any element of the field. */
  lemma ReadRender(e: Element, min: int, max: int)
    requires InField(e) && 0 <= min <= e.lo && e.hi <= max < 64
    ensures ReadElement(Render(e), min, max) == Some(e)
  {
    hide Itoa, Atoi;
    var range := Itoa(e.lo) + "-" + Itoa(e.hi);
    AtoiItoa(e.lo);
    AtoiItoa(e.hi);
    AtoiItoa(e.step);
    DigitsPlain(Itoa(e.lo));
    DigitsPlain(Itoa(e.hi));
    assert '-' in range;
    SplitAt(range, '/', Itoa(e.step));
    SplitAt(Itoa(e.lo), '-', Itoa(e.hi));
  }

  // ----- arithmetic of remainders

  lemma NoGap(n: int, d: int, e: int)
    requires n > 0 && n * d == e && -n < e < n
    ensures d == 0
  {
    Multiples(n, d);
  }

  lemma Multiples(n: int, d: int)
    requires n > 0
    ensures d >= 1 ==> n * d >= n
    ensures d <= -1 ==> n * d <= -n
  {
    if d >= 1 {
      assert n * d == n * (d - 1) + n;
    } else {
      assert n * d == n * (d + 1) - n;
    }
  }

  lemma DivUnique(x: int, n: int, q: int, r: int)
    requires n > 0 && 0 <= r < n && x == n * q + r
    ensures x / n == q && x % n == r
  {
    var q', r' := x / n, x % n;
    assert n * (q - q') == r' - r;
    NoGap(n, q - q', r' - r);
  }

  lemma ModStep(x: int, n: int)
    requires n > 0
    ensures (x + n) % n == x % n
  {
    assert x + n == n * (x / n + 1) + x % n;
    DivUnique(x + n, n, x / n + 1, x % n);
  }
}
