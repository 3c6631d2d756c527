/**
 The string operations of Go's standard library that the modelled code calls.
 */
module Text {
  import opened Outcomes

  predicate HasPrefix(s: string, prefix: string) {
    prefix <= s
  }

  predicate HasSuffix(s: string, suffix: string) {
    |suffix| <= |s| && s[|s| - |suffix|..] == suffix
  }

  /** Position of the first c, or |s|. */
  function IndexOf(s: string, c: char): (i: nat)
    ensures i <= |s|
    ensures i < |s| ==> s[i] == c
    ensures c !in s[..i]
    ensures i == |s| <==> c !in s
  {
    if s == "" then 0
    else if s[0] == c then 0
    else
      var r := IndexOf(s[1..], c);
      assert s[..r + 1] == [s[0]] + s[1..][..r];
      r + 1
  }

  /** strings.Split on a one-character separator. */
  function Split(s: string, sep: char): (parts: seq<string>)
    ensures |parts| > 0
    ensures forall p | p in parts :: sep !in p
    decreases |s|
  {
    var i := IndexOf(s, sep);
    if i == |s| then [s] else [s[..i]] + Split(s[i + 1..], sep)
  }

  /** strings.Join with a one-character separator. */
  function Join(parts: seq<string>, sep: char): string {
    if |parts| == 0 then ""
    else if |parts| == 1 then parts[0]
    else parts[0] + [sep] + Join(parts[1..], sep)
  }

  lemma IndexOfAt(a: string, c: char, b: string)
    requires c !in a
    ensures IndexOf(a + [c] + b, c) == |a|
  {
    var s := a + [c] + b;
    var i := IndexOf(s, c);
    assert s[|a|] == c;
    assert s[..|a|] == a;
  }

  lemma {:induction false} SplitJoin(parts: seq<string>, sep: char)
    requires |parts| > 0 && forall p | p in parts :: sep !in p
    ensures Split(Join(parts, sep), sep) == parts
  {
    if |parts| > 1 {
      var rest := Join(parts[1..], sep);
      SplitJoin(parts[1..], sep);
      SplitCons(parts[0], rest, sep);
    }
  }

  lemma SplitCons(head: string, rest: string, sep: char)
    requires sep !in head
    ensures Split(head + [sep] + rest, sep) == [head] + Split(rest, sep)
  {
    hide IndexOf;
    IndexOfAt(head, sep, rest);
    var s := head + [sep] + rest;
    assert s[..|head|] == head && s[|head| + 1..] == rest;
  }

  /** unicode.IsSpace */
  predicate IsSpace(c: char) {
    var u := c as int;
    || 9 <= u <= 13 || u == 32 || u == 0x85 || u == 0xA0 || u == 0x1680
    || 0x2000 <= u <= 0x200A || u == 0x2028 || u == 0x2029 || u == 0x202F
    || u == 0x205F || u == 0x3000
  }

  function TrimLeft(s: string): string {
    if s != "" && IsSpace(s[0]) then TrimLeft(s[1..]) else s
  }

  function TrimRight(s: string): string {
    if s != "" && IsSpace(s[|s| - 1]) then TrimRight(s[..|s| - 1]) else s
  }

  function TrimSpace(s: string): string {
    TrimRight(TrimLeft(s))
  }

  /** Position of the first space, or |s|. */
  function SpaceAt(s: string): (i: nat)
    ensures i <= |s|
    ensures forall k | 0 <= k < i :: !IsSpace(s[k])
    ensures i < |s| ==> IsSpace(s[i])
  {
    if s == "" || IsSpace(s[0]) then 0 else 1 + SpaceAt(s[1..])
  }

  lemma TrimLeftShrinks(s: string)
    ensures |TrimLeft(s)| <= |s|
    ensures TrimLeft(s) != "" ==> !IsSpace(TrimLeft(s)[0])
  {
  }

  /** strings.Fields */
  function Fields(s: string): (fields: seq<string>)
    decreases |s|
  {
    TrimLeftShrinks(s);
    var t := TrimLeft(s);
    if t == "" then [] else [t[..SpaceAt(t)]] + Fields(t[SpaceAt(t)..])
  }

  // ----- quoting

  function HexDigit(d: nat): (c: char)
    requires d < 16
    ensures c != '\n' && c != '\r'
  {
    if d < 10 then (48 + d) as char else (87 + d) as char
  }

  function QuotedChar(c: char): (s: string)
    ensures '\n' !in s && '\r' !in s
  {
    var u := c as int;
    if c == '"' then "\\\""
    else if c == '\\' then "\\\\"
    else if u == 7 then "\\a"
    else if u == 8 then "\\b"
    else if u == 9 then "\\t"
    else if u == 10 then "\\n"
    else if u == 11 then "\\v"
    else if u == 12 then "\\f"
    else if u == 13 then "\\r"
    else if u < 32 || u == 127 then "\\x" + [HexDigit(u / 16), HexDigit(u % 16)]
    else [c]
  }

  function QuotedChars(s: string): (q: string)
    ensures '\n' !in q && '\r' !in q
  {
    if s == "" then "" else QuotedChar(s[0]) + QuotedChars(s[1..])
  }

  /** strconv.Quote on text whose characters outside ASCII are printable: always one row. */
  function Quoted(s: string): (q: string)
    ensures '\n' !in q && '\r' !in q
  {
    "\"" + QuotedChars(s) + "\""
  }

  // ----- decimal numbers

  const MAX_INT: int := 0x7FFF_FFFF_FFFF_FFFF
  const MIN_INT: int := -0x8000_0000_0000_0000

  predicate IsDigit(c: char) {
    '0' <= c <= '9'
  }

  predicate AllDigits(s: string) {
    s != "" && forall c | c in s :: IsDigit(c)
  }

  function DigitValue(c: char): (d: nat)
    requires IsDigit(c)
    ensures d <= 9
  {
    c as int - 48
  }

  function DigitsValue(s: string): nat
    requires forall c | c in s :: IsDigit(c)
  {
    if s == "" then 0
    else
      assert s[|s| - 1] in s;
      10 * DigitsValue(s[..|s| - 1]) + DigitValue(s[|s| - 1])
  }

  /** strconv.Atoi on a 64-bit platform; None is an error. */
  function Atoi(s: string): Option<int> {
    var unsigned := if s != "" && (s[0] == '+' || s[0] == '-') then s[1..] else s;
    if !AllDigits(unsigned) then None
    else
      var n := (if s[0] == '-' then -1 else 1) * DigitsValue(unsigned);
      if MIN_INT <= n <= MAX_INT then Some(n) else None
  }

  function DigitChar(d: int): (c: char)
    requires 0 <= d <= 9
    ensures IsDigit(c) && DigitValue(c) == d
  {
    (48 + d) as char
  }

  function Itoa(n: nat): (s: string)
    ensures AllDigits(s)
  {
    if n < 10 then [DigitChar(n)] else Itoa(n / 10) + [DigitChar(n % 10)]
  }

  function Zeros(k: nat): string {
    seq(k, _ => '0')
  }

  lemma {:induction false} LeadingZeros(k: nat, s: string)
    requires forall c | c in s :: IsDigit(c)
    ensures (forall c | c in Zeros(k) + s :: IsDigit(c)) && DigitsValue(Zeros(k) + s) == DigitsValue(s)
    decreases k + |s|
  {
    var padded := Zeros(k) + s;
    if s != "" {
      assert s[|s| - 1] in s;
      LeadingZeros(k, s[..|s| - 1]);
      assert padded[..|padded| - 1] == Zeros(k) + s[..|s| - 1];
    } else if k > 0 {
      LeadingZeros(k - 1, "");
      assert padded[..|padded| - 1] == Zeros(k - 1) + "";
    }
  }

  /** The digits of a number are those of Itoa after any number of zeros. */
  lemma {:induction false} DigitsOf(s: string)
    requires AllDigits(s)
    ensures exists k: nat :: s == Zeros(k) + Itoa(DigitsValue(s))
  {
    hide Itoa, DigitsValue, Zeros, DigitValue, DigitChar;
    var n, last := |s| - 1, s[|s| - 1];
    assert last in s && s == s[..n] + [last];
    ValueStep(s);
    ItoaStep(DigitsValue(s[..n]), DigitValue(last));
    ItoaZero();
    DigitBack(last);
    if n == 0 {
      ZerosMore(0);
      assert s == Zeros(0) + [last];
    } else {
      var front := DigitsValue(s[..n]);
      DigitsOf(s[..n]);
      var k: nat :| s[..n] == Zeros(k) + Itoa(front);
      ZerosMore(k);
      assert Zeros(k) + Itoa(front) + [last] == Zeros(k) + (Itoa(front) + [last]);
    }
  }

  lemma ZerosMore(k: nat)
    ensures Zeros(0) == "" && Zeros(k + 1) == Zeros(k) + "0"
  {
  }

  lemma ValueStep(s: string)
    requires AllDigits(s)
    ensures IsDigit(s[|s| - 1])
    ensures DigitsValue(s) == 10 * DigitsValue(s[..|s| - 1]) + DigitValue(s[|s| - 1])
    ensures |s| == 1 ==> DigitsValue(s[..|s| - 1]) == 0
  {
    assert s[|s| - 1] in s;
  }

  lemma ItoaZero()
    ensures Itoa(0) == "0"
  {
  }

  lemma DigitBack(c: char)
    requires IsDigit(c)
    ensures DigitChar(DigitValue(c)) == c
  {
  }

  lemma ItoaStep(front: nat, d: nat)
    requires d < 10
    ensures Itoa(10 * front + d) == (if front == 0 then "" else Itoa(front)) + [DigitChar(d)]
  {
    if front > 0 {
      var n := 10 * front + d;
      TenTimes(front, d);
      assert Itoa(n) == Itoa(n / 10) + [DigitChar(n % 10)];
    }
  }

  lemma TenTimes(front: nat, d: nat)
    requires d < 10
    ensures (10 * front + d) / 10 == front && (10 * front + d) % 10 == d
  {
  }

  lemma {:induction false} AtoiItoa(n: nat)
    ensures DigitsValue(Itoa(n)) == n
    ensures n <= MAX_INT ==> Atoi(Itoa(n)) == Some(n)
  {
    if n >= 10 {
      AtoiItoa(n / 10);
      var s := Itoa(n);
      assert s[..|s| - 1] == Itoa(n / 10);
    } else {
      assert Itoa(n)[..0] == "";
    }
    assert Itoa(n)[0] in Itoa(n);
  }

  predicate IsSign(sign: string, n: int) {
    (sign == "-" && n <= 0) || ((sign == "" || sign == "+") && n >= 0)
  }

  /** A decimal number as people may write it: a sign, then leading zeros. */
  ghost predicate Numeral(s: string, n: int) {
    MIN_INT <= n <= MAX_INT &&
    exists sign: string, k: nat :: IsSign(sign, n) && s == sign + (Zeros(k) + Itoa(if n < 0 then -n else n))
  }

  lemma AtoiSigned(sign: string, digits: string, n: int)
    requires AllDigits(digits) && IsSign(sign, n) && DigitsValue(digits) == if n < 0 then -n else n
    ensures Atoi(sign + digits) == if MIN_INT <= n <= MAX_INT then Some(n) else None
  {
    hide DigitsValue;
    var s := sign + digits;
    assert digits[0] in digits;
    if sign == "" {
      assert s == digits;
    } else {
      assert s[0] == sign[0] && s[1..] == digits;
    }
  }

  lemma AtoiReads(s: string)
    requires Atoi(s).Some?
    ensures exists sign, digits ::
      && s == sign + digits && AllDigits(digits) && IsSign(sign, Atoi(s).value)
      && DigitsValue(digits) == if Atoi(s).value < 0 then -Atoi(s).value else Atoi(s).value
  {
    hide DigitsValue;
    var n := Atoi(s).value;
    var signed := s[0] == '+' || s[0] == '-';
    var sign, digits := if signed then s[..1] else "", if signed then s[1..] else s;
    assert s == sign + digits && AllDigits(digits);
    assert IsSign(sign, n) && DigitsValue(digits) == if n < 0 then -n else n;
  }

  /** strconv.Atoi accepts exactly the numerals, each as the number it writes. */
  lemma AtoiIff(s: string, n: int)
    ensures Atoi(s) == Some(n) <==> Numeral(s, n)
  {
    hide Itoa, DigitsValue, Zeros, Atoi, IsSign;
    var m := if n < 0 then -n else n;
    if Atoi(s) == Some(n) {
      AtoiReads(s);
      var sign, digits :| s == sign + digits && AllDigits(digits) && IsSign(sign, n) && DigitsValue(digits) == m;
      DigitsOf(digits);
      AtoiInRange(s);
    }
    if Numeral(s, n) {
      var sign: string, k: nat :| IsSign(sign, n) && s == sign + (Zeros(k) + Itoa(m));
      PaddedDigits(k, m);
      AtoiSigned(sign, Zeros(k) + Itoa(m), n);
    }
  }

  lemma AtoiInRange(s: string)
    ensures Atoi(s).Some? ==> MIN_INT <= Atoi(s).value <= MAX_INT
  {
  }

  lemma PaddedDigits(k: nat, m: nat)
    ensures AllDigits(Zeros(k) + Itoa(m)) && DigitsValue(Zeros(k) + Itoa(m)) == m
  {
    AtoiItoa(m);
    LeadingZeros(k, Itoa(m));
  }
}
