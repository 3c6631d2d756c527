/**
 Rewriting cmd:sub tokens of a command line into cmd sub.
 */
module Dispatch {
  import opened Outcomes
  import opened Text

  // ----- tokens

  predicate IsIdentChar(c: char) {
    c == '-' || c == '_' || 'a' <= c <= 'z' || 'A' <= c <= 'Z' || '0' <= c <= '9'
  }

  predicate IsIdent(s: string) {
    s != "" && !HasPrefix(s, "-") && forall c | c in s :: IsIdentChar(c)
  }

  predicate TakesValue(flag: string) {
    '=' !in flag && flag in {"-a", "--app", "-f", "--file", "-r", "--remote", "-o", "--output",
                             "--controller-url", "--replicas", "--format"}
  }

  /** A flag whose value is the next token. */
  predicate WantsValue(tok: string) {
    HasPrefix(tok, "-") && '=' !in tok && TakesValue(tok)
  }

  function SplitCommandColon(tok: string): (r: Option<(string, string)>) {
    var idx := IndexOf(tok, ':');
    if idx == |tok| || idx == 0 || idx == |tok| - 1 then None
    else
      var left, right := tok[..idx], tok[idx + 1..];
      if '/' in right || '@' in right then None
      else if !IsIdent(left) then None
      else if exists chunk | chunk in Split(right, ':') :: !IsIdent(chunk) then None
      else Some((left, right))
  }

  predicate Splittable(tok: string) {
    SplitCommandColon(tok).Some?
  }

  /** Splitting cuts at the first colon and loses nothing else. */
  lemma SplitParts(tok: string)
    requires Splittable(tok)
    ensures var (left, right) := SplitCommandColon(tok).value;
            tok == left + ":" + right && ':' !in left && IsIdent(left)
            && right != "" && !HasPrefix(right, "-") && !HasPrefix(tok, "-")
  {
    var (left, right) := SplitCommandColon(tok).value;
    var parts := Split(right, ':');
    assert parts[0] in parts;
    assert IsIdent(parts[0]);
    assert parts[0] <= right;
  }

  /** The right part can be split again exactly when it has a colon. */
  lemma SplitsAgainIff(tok: string)
    requires Splittable(tok)
    ensures Splittable(SplitCommandColon(tok).value.1) <==> ':' in SplitCommandColon(tok).value.1
  {
    var right := SplitCommandColon(tok).value.1;
    var idx := IndexOf(right, ':');
    if idx < |right| {
      var parts, tail := Split(right, ':'), Split(right[idx + 1..], ':');
      assert parts == [right[..idx]] + tail;
      assert parts[0] in parts && tail[0] in parts;
      assert forall chunk | chunk in tail :: chunk in parts;
      assert forall c | c in right[idx + 1..] :: c in right;
    }
  }

  predicate IsRefFirstConfigVerb(verb: string) {
    verb == "set" || verb == "unset"
  }

  predicate LooksLikeKeyValue(tok: string) {
    '=' in tok
  }

  // ----- positions of a command line

  /** Token j is the value of the flag before it, reading from start. */
  predicate IsValue(argv: seq<string>, start: nat, j: nat)
    requires j <= |argv|
    decreases j
  {
    start < j && !IsValue(argv, start, j - 1) && WantsValue(argv[j - 1])
  }

  predicate IsPositional(argv: seq<string>, start: nat, j: nat)
    requires j <= |argv|
  {
    j < |argv| && !IsValue(argv, start, j) && !HasPrefix(argv[j], "-")
  }

  lemma {:induction false} StartFresh(argv: seq<string>, start: nat, later: nat, j: nat)
    requires start <= later <= j <= |argv| && !IsValue(argv, start, later)
    ensures IsValue(argv, start, j) == IsValue(argv, later, j)
  {
    if later < j { StartFresh(argv, start, later, j - 1); }
  }

  /** The first positional token from j on, |argv| when there is none. */
  function NextFrom(argv: seq<string>, start: nat, j: nat): (k: nat)
    requires start <= j <= |argv|
    ensures j <= k <= |argv|
    ensures k < |argv| ==> IsPositional(argv, start, k)
    ensures forall i | j <= i < k :: !IsPositional(argv, start, i)
    decreases |argv| - j
  {
    if j == |argv| || IsPositional(argv, start, j) then j else NextFrom(argv, start, j + 1)
  }

  /** The first "--" after the program name. */
  function Dash(argv: seq<string>): (d: nat)
    requires argv != []
    ensures 1 <= d <= |argv|
    ensures d < |argv| ==> argv[d] == "--"
    ensures forall i | 1 <= i < d :: argv[i] != "--"
  {
    DashFrom(argv, 1)
  }

  function DashFrom(argv: seq<string>, i: nat): (d: nat)
    requires i <= |argv|
    ensures i <= d <= |argv|
    ensures d < |argv| ==> argv[d] == "--"
    ensures forall k | i <= k < d :: argv[k] != "--"
    decreases |argv| - i
  {
    if i == |argv| || argv[i] == "--" then i else DashFrom(argv, i + 1)
  }

  /** A positional token before any "--" that splits. */
  predicate Rewritable(argv: seq<string>, i: nat)
    requires argv != []
  {
    1 <= i < Dash(argv) && IsPositional(argv, 1, i) && Splittable(argv[i])
  }

  function LeftOf(argv: seq<string>, i: nat): string
    requires argv != [] && Rewritable(argv, i)
  {
    SplitCommandColon(argv[i]).value.0
  }

  function RightOf(argv: seq<string>, i: nat): string
    requires argv != [] && Rewritable(argv, i)
  {
    SplitCommandColon(argv[i]).value.1
  }

  /** The positional token after i, past any "--" too. */
  function Target(argv: seq<string>, i: nat): (t: nat)
    requires i < |argv|
    ensures i < t <= |argv|
  {
    NextFrom(argv, 1, i + 1)
  }

  /** The shorthand that takes the next positional token with it. */
  predicate Moves(argv: seq<string>, i: nat)
    requires argv != []
  {
    && Rewritable(argv, i) && LeftOf(argv, i) == "config" && IsRefFirstConfigVerb(RightOf(argv, i))
    && Target(argv, i) < |argv| && !LooksLikeKeyValue(argv[Target(argv, i)])
  }

  /** Token t was moved by an earlier one. */
  predicate Moved(argv: seq<string>, t: nat)
    requires argv != []
  {
    exists i: nat | i < t :: Moves(argv, i) && Target(argv, i) == t
  }

  /** What takes the place of token i, before any "--". */
  function Emit(argv: seq<string>, i: nat): seq<string>
    requires argv != [] && 1 <= i < Dash(argv)
  {
    if Rewritable(argv, i) then
      if Moves(argv, i) then [LeftOf(argv, i), argv[Target(argv, i)], RightOf(argv, i)]
      else [LeftOf(argv, i), RightOf(argv, i)]
    else if IsPositional(argv, 1, i) && Moved(argv, i) then []
    else [argv[i]]
  }

  function EmitUpTo(argv: seq<string>, n: nat): seq<string>
    requires argv != [] && 1 <= n <= Dash(argv)
  {
    if n == 1 then [] else EmitUpTo(argv, n - 1) + Emit(argv, n - 1)
  }

  /** The rewritten line. */
  function Rewritten(argv: seq<string>): seq<string> {
    if argv == [] then []
    else [argv[0]] + EmitUpTo(argv, Dash(argv)) + argv[Dash(argv)..]
  }

  // ----- the program

  method NextPositional(argv: seq<string>, start: nat) returns (tok: string, idx: nat, found: bool)
    requires start <= |argv|
    ensures found <==> NextFrom(argv, start, start) < |argv|
    ensures found ==> idx == NextFrom(argv, start, start) && tok == argv[idx]
  {
    var skipNext := false;
    for j := start to |argv|
      invariant skipNext == IsValue(argv, start, j)
      invariant NextFrom(argv, start, start) == NextFrom(argv, start, j)
    {
      var t := argv[j];
      if skipNext {
        skipNext := false;
        continue;
      }
      if HasPrefix(t, "-") {
        if '=' !in t && TakesValue(t) { skipNext := true; }
        continue;
      }
      return t, j, true;
    }
    return "", 0, false;
  }

  method RewriteColonSyntax(argv: seq<string>) returns (out: seq<string>)
    ensures out == Rewritten(argv)
  {
    hide SplitCommandColon, NextFrom, DashFrom, TakesValue, LooksLikeKeyValue, IsRefFirstConfigVerb;
    hide HasPrefix, EmitUpTo;
    if |argv| == 0 { return argv; }
    NothingEmitted(argv);
    out := [argv[0]];
    var skipFlagValue := false;
    var consumed: seq<nat> := [];
    for i := 1 to |argv|
      invariant i <= Dash(argv)
      invariant out == [argv[0]] + EmitUpTo(argv, i)
      invariant skipFlagValue == IsValue(argv, 1, i)
      invariant forall t :: t in consumed <==> exists k: nat | k < i :: Moves(argv, k) && Target(argv, k) == t
    {
      var tok := argv[i];
      if i < Dash(argv) { EmitsAt(argv, i); }
      if tok == "--" {
        out := out + argv[i..];
        return;
      }
      assert i < Dash(argv);
      if skipFlagValue {
        out := out + [tok];
        skipFlagValue := false;
        continue;
      }
      if HasPrefix(tok, "-") {
        out := out + [tok];
        if '=' !in tok && TakesValue(tok) { skipFlagValue := true; }
        continue;
      }
      var split := SplitCommandColon(tok);
      if split.Some? {
        var (left, right) := split.value;
        if left == "config" && IsRefFirstConfigVerb(right) {
          var next, idx, found := NextPositional(argv, i + 1);
          SameTarget(argv, i);
          if found && !LooksLikeKeyValue(next) {
            assert Moves(argv, i);
            out := out + [left, next, right];
            consumed := consumed + [idx];
            continue;
          }
        }
        assert !Moves(argv, i);
        out := out + [left, right];
        continue;
      }
      if i in consumed { continue; }
      out := out + [tok];
    }
    assert argv[|argv|..] == [];
  }

  /** Scanning afresh after a positional token finds the target. */
  lemma SameTarget(argv: seq<string>, i: nat)
    requires 1 <= i < |argv| && IsPositional(argv, 1, i)
    ensures NextFrom(argv, i + 1, i + 1) == Target(argv, i)
  {
    var a, b := NextFrom(argv, i + 1, i + 1), Target(argv, i);
    var least := if a < b then a else b;
    StartFresh(argv, 1, i + 1, least);
    assert IsPositional(argv, 1, least) == IsPositional(argv, i + 1, least);
  }

  // ----- the tail is untouched

  /** Everything from the first "--" on comes out verbatim, at the end. */
  lemma SuffixVerbatim(argv: seq<string>)
    requires argv != []
    ensures var d, out := Dash(argv), Rewritten(argv);
            |argv| - d <= |out| && out[|out| - (|argv| - d)..] == argv[d..]
  {
    var d := Dash(argv);
    var head := [argv[0]] + EmitUpTo(argv, d);
    assert Rewritten(argv) == head + argv[d..];
  }

  // ----- conservation

  /** Token i, cut at its first colon if it is rewritable. */
  function Piece(argv: seq<string>, i: nat): seq<string>
    requires argv != [] && i < |argv|
  {
    if Rewritable(argv, i) then [LeftOf(argv, i), RightOf(argv, i)] else [argv[i]]
  }

  function Pieces(argv: seq<string>, n: nat): seq<string>
    requires argv != [] && 1 <= n <= Dash(argv)
  {
    if n == 1 then [] else Pieces(argv, n - 1) + Piece(argv, n - 1)
  }

  /** The moved token precedes any "--" and does not split itself. */
  predicate Clean(argv: seq<string>, i: nat)
    requires argv != [] && Moves(argv, i)
  {
    Target(argv, i) < Dash(argv) && !Splittable(argv[Target(argv, i)])
  }

  /** The token that comes out twice because of token i. */
  function Double(argv: seq<string>, i: nat): seq<string>
    requires argv != []
  {
    if Moves(argv, i) && !Clean(argv, i) then [argv[Target(argv, i)]] else []
  }

  function Doubled(argv: seq<string>, n: nat): seq<string>
    requires argv != [] && 1 <= n <= Dash(argv)
  {
    if n == 1 then [] else Doubled(argv, n - 1) + Double(argv, n - 1)
  }

  /** The token moved ahead of n, still to be passed over. */
  function InFlight(argv: seq<string>, n: nat): Option<nat>
    requires argv != [] && 1 <= n <= Dash(argv)
  {
    if n == 1 then None
    else if Moves(argv, n - 1) && Clean(argv, n - 1) then Some(Target(argv, n - 1))
    else if InFlight(argv, n - 1) == Some(n - 1) then None
    else InFlight(argv, n - 1)
  }

  lemma {:induction false} InFlightIsNext(argv: seq<string>, n: nat)
    requires argv != [] && 1 <= n <= Dash(argv)
    ensures InFlight(argv, n).Some? ==>
              var t := InFlight(argv, n).value;
              n <= t < Dash(argv) && !Splittable(argv[t]) && IsPositional(argv, 1, t)
              && forall i | n <= i < t :: !IsPositional(argv, 1, i)
    ensures forall t | n <= t < Dash(argv) && !Splittable(argv[t]) ::
              (InFlight(argv, n) == Some(t)) == (exists i: nat | i < n :: Moves(argv, i) && Target(argv, i) == t)
  {
    hide SplitCommandColon, LooksLikeKeyValue, IsRefFirstConfigVerb;
    if n > 1 {
      InFlightIsNext(argv, n - 1);
    }
  }

  function One(argv: seq<string>, t: Option<nat>): (m: multiset<string>)
    requires t.Some? ==> t.value < |argv|
  {
    if t.Some? then multiset{argv[t.value]} else multiset{}
  }

  /** A token is passed over exactly when it is the one in flight. */
  lemma PassedOverIff(argv: seq<string>, i: nat)
    requires argv != [] && 1 <= i < Dash(argv)
    ensures Rewritable(argv, i) ==> InFlight(argv, i).None?
    ensures !Rewritable(argv, i) ==> (IsPositional(argv, 1, i) && Moved(argv, i) <==> InFlight(argv, i) == Some(i))
  {
    hide SplitCommandColon, LooksLikeKeyValue, IsRefFirstConfigVerb, IsValue;
    InFlightIsNext(argv, i);
  }

  /** What one token adds, given what was in flight before it. */
  lemma ConservedStep(argv: seq<string>, i: nat)
    requires argv != [] && 1 <= i < Dash(argv)
    requires InFlight(argv, i).Some? ==> InFlight(argv, i).value < |argv|
    requires InFlight(argv, i + 1).Some? ==> InFlight(argv, i + 1).value < |argv|
    ensures multiset(Emit(argv, i)) + One(argv, InFlight(argv, i))
         == multiset(Piece(argv, i)) + multiset(Double(argv, i)) + One(argv, InFlight(argv, i + 1))
  {
    hide InFlight, Emit, Piece, Double, IsPositional, Rewritable, Moved, Dash;
    PassedOverIff(argv, i);
    if Rewritable(argv, i) {
      ConservedMove(argv, i);
    } else {
      ConservedOther(argv, i);
    }
  }

  lemma ConservedMove(argv: seq<string>, i: nat)
    requires argv != [] && Rewritable(argv, i) && InFlight(argv, i).None?
    requires InFlight(argv, i + 1).Some? ==> InFlight(argv, i + 1).value < |argv|
    ensures multiset(Emit(argv, i))
         == multiset(Piece(argv, i)) + multiset(Double(argv, i)) + One(argv, InFlight(argv, i + 1))
  {
    hide Splittable, SplitCommandColon, LooksLikeKeyValue, IsRefFirstConfigVerb, IsValue, Moved, LeftOf, RightOf;
    if Moves(argv, i) {
      ThreeOf(LeftOf(argv, i), argv[Target(argv, i)], RightOf(argv, i));
    }
  }

  lemma ThreeOf(a: string, b: string, c: string)
    ensures multiset([a, b, c]) == multiset([a, c]) + multiset([b])
    ensures multiset([b]) == multiset{b}
  {
    assert [a, b, c] == [a] + [b] + [c] && [a, c] == [a] + [c];
  }

  lemma ConservedOther(argv: seq<string>, i: nat)
    requires argv != [] && 1 <= i < Dash(argv) && !Rewritable(argv, i)
    requires InFlight(argv, i).Some? ==> InFlight(argv, i).value < |argv|
    requires IsPositional(argv, 1, i) && Moved(argv, i) <==> InFlight(argv, i) == Some(i)
    requires InFlight(argv, i + 1).Some? ==> InFlight(argv, i + 1).value < |argv|
    ensures multiset(Emit(argv, i)) + One(argv, InFlight(argv, i))
         == multiset(Piece(argv, i)) + One(argv, InFlight(argv, i + 1))
    ensures Double(argv, i) == []
  {
    hide Splittable, SplitCommandColon, LooksLikeKeyValue, IsRefFirstConfigVerb, IsValue, Moved, LeftOf, RightOf;
    ThreeOf("", argv[i], "");
  }

  lemma Exchange(e: multiset<string>, p: multiset<string>, d: multiset<string>, f: multiset<string>,
                 e1: multiset<string>, p1: multiset<string>, d1: multiset<string>, f1: multiset<string>)
    requires e == p + d + f && e1 + f == p1 + d1 + f1
    ensures e + e1 == (p + p1) + (d + d1) + f1
  {
    forall x ensures (e + e1)[x] == ((p + p1) + (d + d1) + f1)[x] {
      assert (e1 + f)[x] == (p1 + d1 + f1)[x];
    }
  }

  lemma {:induction false} ConservedUpTo(argv: seq<string>, n: nat)
    requires argv != [] && 1 <= n <= Dash(argv)
    requires InFlight(argv, n).Some? ==> InFlight(argv, n).value < |argv|
    ensures multiset(EmitUpTo(argv, n))
         == multiset(Pieces(argv, n)) + multiset(Doubled(argv, n)) + One(argv, InFlight(argv, n))
  {
    hide Emit, Piece, Double, One, InFlight, Dash;
    if n > 1 {
      var i := n - 1;
      InFlightIsNext(argv, i);
      ConservedUpTo(argv, i);
      ConservedStep(argv, i);
      Exchange(multiset(EmitUpTo(argv, i)), multiset(Pieces(argv, i)), multiset(Doubled(argv, i)),
               One(argv, InFlight(argv, i)), multiset(Emit(argv, i)), multiset(Piece(argv, i)),
               multiset(Double(argv, i)), One(argv, InFlight(argv, n)));
    } else {
      NothingInFlight(argv);
    }
  }

  lemma NothingInFlight(argv: seq<string>)
    requires argv != []
    ensures InFlight(argv, 1) == None && One(argv, None) == multiset{}
  {
  }

  /** The line as it would be with every rewritable token cut in place. */
  function AllPieces(argv: seq<string>): seq<string>
    requires argv != []
  {
    [argv[0]] + Pieces(argv, Dash(argv)) + argv[Dash(argv)..]
  }

  /** Every token comes out, cut or whole; besides, the moves that are not clean double theirs. */
  lemma TokensConserved(argv: seq<string>)
    requires argv != []
    ensures multiset(Rewritten(argv)) == multiset(AllPieces(argv)) + multiset(Doubled(argv, Dash(argv)))
  {
    InFlightIsNext(argv, Dash(argv));
    ConservedUpTo(argv, Dash(argv));
  }

  lemma {:induction false} DoubledEmptyIff(argv: seq<string>, n: nat)
    requires argv != [] && 1 <= n <= Dash(argv)
    ensures Doubled(argv, n) == [] <==> forall i: nat | i < n && Moves(argv, i) :: Clean(argv, i)
  {
    hide Moves, Clean, Dash;
    if n > 1 { DoubledEmptyIff(argv, n - 1); } else { MovesAreLater(argv); }
  }

  lemma MovesAreLater(argv: seq<string>)
    requires argv != []
    ensures forall i: nat | Moves(argv, i) :: 1 <= i < Dash(argv)
  {
  }

  /** Rewriting conserves the tokens if and only if every moved one precedes any "--" and does not split. */
  lemma ConservesIffClean(argv: seq<string>)
    requires argv != []
    ensures multiset(Rewritten(argv)) == multiset(AllPieces(argv))
       <==> forall i: nat | Moves(argv, i) :: Clean(argv, i)
  {
    TokensConserved(argv);
    DoubledEmptyIff(argv, Dash(argv));
    var doubled := Doubled(argv, Dash(argv));
    assert |multiset(doubled)| == |doubled|;
  }

  // ----- doing it twice

  lemma {:induction false} PiecesCount(argv: seq<string>, n: nat)
    requires argv != [] && 1 <= n <= Dash(argv)
    ensures |Pieces(argv, n)| >= n - 1
    ensures |Pieces(argv, n)| == n - 1 <==> forall i: nat | i < n :: !Rewritable(argv, i)
  {
    if n > 1 { PiecesCount(argv, n - 1); }
  }

  lemma {:induction false} NothingEmittedChanged(argv: seq<string>, n: nat)
    requires argv != [] && 1 <= n <= Dash(argv)
    requires forall i: nat :: !Rewritable(argv, i)
    ensures EmitUpTo(argv, n) == argv[1..n]
  {
    if n > 1 {
      NothingEmittedChanged(argv, n - 1);
      assert argv[1..n] == argv[1..n - 1] + [argv[n - 1]];
    }
  }

  /** Rewriting changes a line if and only if it has a rewritable token. */
  lemma UnchangedIff(argv: seq<string>)
    requires argv != []
    ensures Rewritten(argv) == argv <==> forall i: nat :: !Rewritable(argv, i)
  {
    var d := Dash(argv);
    if forall i: nat :: !Rewritable(argv, i) {
      NothingEmittedChanged(argv, d);
      assert argv == [argv[0]] + argv[1..d] + argv[d..];
    } else {
      PiecesCount(argv, d);
      TokensConserved(argv);
      assert |multiset(Rewritten(argv))| == |Rewritten(argv)|;
      assert |multiset(AllPieces(argv))| == |AllPieces(argv)| > |argv|;
    }
  }

  /** Whether the next token is a value, after reading s. */
  function ValueNext(s: seq<string>, skip: bool): bool
    decreases |s|
  {
    if s == [] then skip else ValueNext(s[1..], !skip && WantsValue(s[0]))
  }

  /** Some token of s, up to the first "--", would be rewritten. */
  predicate Live(s: seq<string>, skip: bool)
    decreases |s|
  {
    s != [] && s[0] != "--" &&
    ((!skip && !HasPrefix(s[0], "-") && Splittable(s[0])) || Live(s[1..], !skip && WantsValue(s[0])))
  }

  lemma {:induction false} LiveIsRewritable(argv: seq<string>, n: nat)
    requires argv != [] && 1 <= n <= Dash(argv)
    ensures Live(argv[n..], IsValue(argv, 1, n)) <==> exists i: nat | n <= i :: Rewritable(argv, i)
    decreases |argv| - n
  {
    hide SplitCommandColon;
    if n < Dash(argv) {
      LiveIsRewritable(argv, n + 1);
      var rest := argv[n..];
      assert rest[0] == argv[n] && rest[1..] == argv[n + 1..];
      assert IsValue(argv, 1, n + 1) == (!IsValue(argv, 1, n) && WantsValue(argv[n]));
      assert Live(rest, IsValue(argv, 1, n)) <==> Rewritable(argv, n) || Live(argv[n + 1..], IsValue(argv, 1, n + 1));
    }
  }

  lemma {:induction false} LiveConcat(a: seq<string>, b: seq<string>, skip: bool)
    requires "--" !in a
    ensures Live(a + b, skip) <==> Live(a, skip) || Live(b, ValueNext(a, skip))
    ensures ValueNext(a + b, skip) == ValueNext(b, ValueNext(a, skip))
    decreases |a|
  {
    if a == [] {
      assert a + b == b;
    } else {
      assert (a + b)[1..] == a[1..] + b;
      LiveConcat(a[1..], b, !skip && WantsValue(a[0]));
    }
  }

  /** Token i leaves something that would be rewritten again. */
  predicate Chained(argv: seq<string>, i: nat)
    requires argv != []
  {
    Rewritable(argv, i) && (':' in RightOf(argv, i) || (Moves(argv, i) && Splittable(argv[Target(argv, i)])))
  }

  lemma LiveEmit(argv: seq<string>, i: nat)
    requires argv != [] && 1 <= i < Dash(argv)
    ensures "--" !in Emit(argv, i)
    ensures Live(Emit(argv, i), IsValue(argv, 1, i)) <==> Chained(argv, i)
    ensures ValueNext(Emit(argv, i), IsValue(argv, 1, i)) == IsValue(argv, 1, i + 1)
  {
    var e := Emit(argv, i);
    if Rewritable(argv, i) {
      SplitParts(argv[i]);
      SplitsAgainIff(argv[i]);
      var left, right := LeftOf(argv, i), RightOf(argv, i);
      NotSplitAtAll(left);
      hide SplitCommandColon;
      assert !IsValue(argv, 1, i);
      assert e[0] == left && !HasPrefix(left, "-");
      if Moves(argv, i) {
        var t := argv[Target(argv, i)];
        LiveThree(left, t, right);
      } else {
        LiveTwo(left, right);
      }
    } else {
      hide SplitCommandColon;
      if e != [] { assert e == [argv[i]] && e[1..] == []; }
    }
  }

  lemma NotSplitAtAll(tok: string)
    requires ':' !in tok
    ensures !Splittable(tok)
  {
  }

  lemma LiveHead(a: string, rest: seq<string>)
    requires !HasPrefix(a, "-")
    ensures a != "--"
    ensures Live([a] + rest, false) <==> Splittable(a) || Live(rest, false)
    ensures ValueNext([a] + rest, false) == ValueNext(rest, false)
  {
    hide SplitCommandColon;
    assert HasPrefix("--", "-");
    assert ([a] + rest)[1..] == rest;
  }

  lemma LiveTwo(a: string, b: string)
    requires !HasPrefix(a, "-") && !HasPrefix(b, "-")
    ensures "--" !in [a, b]
    ensures Live([a, b], false) <==> Splittable(a) || Splittable(b)
    ensures ValueNext([a, b], false) == false
  {
    hide SplitCommandColon;
    LiveHead(b, []);
    LiveHead(a, [b]);
    assert [b] + [] == [b] && [a] + [b] == [a, b];
  }

  lemma LiveThree(a: string, b: string, c: string)
    requires !HasPrefix(a, "-") && !HasPrefix(b, "-") && !HasPrefix(c, "-")
    ensures "--" !in [a, b, c]
    ensures Live([a, b, c], false) <==> Splittable(a) || Splittable(b) || Splittable(c)
    ensures ValueNext([a, b, c], false) == false
  {
    hide SplitCommandColon;
    LiveTwo(b, c);
    LiveHead(a, [b, c]);
    assert [a] + [b, c] == [a, b, c];
  }

  lemma {:induction false} LiveUpTo(argv: seq<string>, n: nat)
    requires argv != [] && 1 <= n <= Dash(argv)
    ensures "--" !in EmitUpTo(argv, n)
    ensures Live(EmitUpTo(argv, n), false) <==> exists i: nat | i < n :: Chained(argv, i)
    ensures ValueNext(EmitUpTo(argv, n), false) == IsValue(argv, 1, n)
  {
    hide Emit, Chained;
    if n > 1 {
      LiveUpTo(argv, n - 1);
      LiveEmit(argv, n - 1);
      LiveConcat(EmitUpTo(argv, n - 1), Emit(argv, n - 1), false);
    } else {
      ChainedIsLive(argv, 0);
    }
  }

  lemma ChainedIsLive(argv: seq<string>, i: nat)
    requires argv != []
    ensures Chained(argv, i) ==> 1 <= i < Dash(argv)
  {
  }

  /** Rewriting twice is rewriting once, if and only if no right part has a colon and no moved token splits. */
  lemma IdempotentIff(argv: seq<string>)
    requires argv != []
    ensures Rewritten(Rewritten(argv)) == Rewritten(argv) <==> forall i: nat :: !Chained(argv, i)
  {
    hide *;
    var out := Rewritten(argv);
    RewrittenIsLine(argv);
    UnchangedIff(out);
    LiveIsRewritable(out, 1);
    FreshStart(out);
    LiveRewritten(argv);
    RewritableIsLater(out);
  }

  lemma RewrittenIsLine(argv: seq<string>)
    requires argv != []
    ensures Rewritten(argv) != [] && Rewritten(argv)[0] == argv[0]
    ensures Rewritten(argv)[1..] == EmitUpTo(argv, Dash(argv)) + argv[Dash(argv)..]
  {
    hide EmitUpTo, DashFrom, IsValue;
    var shown, tail := EmitUpTo(argv, Dash(argv)), argv[Dash(argv)..];
    assert Rewritten(argv) == [argv[0]] + (shown + tail);
  }

  lemma LiveRewritten(argv: seq<string>)
    requires argv != []
    ensures Rewritten(argv) != []
    ensures Live(Rewritten(argv)[1..], false) <==> exists i: nat :: Chained(argv, i)
  {
    hide Chained, EmitUpTo, IsValue, Splittable;
    var d := Dash(argv);
    RewrittenIsLine(argv);
    LiveUpTo(argv, d);
    LiveConcat(EmitUpTo(argv, d), argv[d..], false);
    assert !Live(argv[d..], IsValue(argv, 1, d));
    forall i: nat ensures Chained(argv, i) ==> 1 <= i < d { ChainedIsLive(argv, i); }
  }

  lemma FreshStart(argv: seq<string>)
    requires argv != []
    ensures !IsValue(argv, 1, 1)
  {
  }

  lemma RewritableIsLater(argv: seq<string>)
    requires argv != []
    ensures (exists i: nat | 1 <= i :: Rewritable(argv, i)) <==> exists i: nat :: Rewritable(argv, i)
  {
  }

  // ----- when it does not

  lemma SplitOf(left: string, right: string)
    requires IsIdent(left) && ':' !in left && IsIdent(right) && ':' !in right
    ensures SplitCommandColon(left + ":" + right) == Some((left, right))
  {
    var tok := left + ":" + right;
    IndexOfAt(left, ':', right);
    assert tok == left + [':'] + right;
    assert tok[..|left|] == left && tok[|left| + 1..] == right;
    assert Split(right, ':') == [right];
  }

  lemma ConfigSetSplits()
    ensures SplitCommandColon("config:set") == Some(("config", "set"))
    ensures !HasPrefix("config:set", "-")
  {
    assert "config"[0] == 'c' && "set"[0] == 's' && "config:set"[0] == 'c';
    SplitOf("config", "set");
    assert "config" + ":" + "set" == "config:set";
  }

  /** The line prog config:set ref: the shorthand takes the ref with it. */
  lemma ShorthandMoves(argv: seq<string>, t: nat)
    requires 2 <= t < |argv| && argv[1] == "config:set" && argv[2..t] == seq(t - 2, i => "--")
    requires !HasPrefix(argv[t], "-") && !LooksLikeKeyValue(argv[t])
    ensures Moves(argv, 1) && Target(argv, 1) == t
    ensures t > 2 ==> Dash(argv) == 2
  {
    hide SplitCommandColon;
    ConfigSetSplits();
    assert HasPrefix("--", "-");
    forall i | 2 <= i < t ensures argv[i] == "--" { assert argv[i] == argv[2..t][i - 2]; }
    NoValues(argv, t);
    assert Dash(argv) > 1 by { assert "config:set"[0] != "--"[0]; }
    assert IsPositional(argv, 1, 1) && IsPositional(argv, 1, t);
    assert forall i | 2 <= i < t :: !IsPositional(argv, 1, i);
    assert Target(argv, 1) == t;
  }

  lemma {:induction false} EmitGrows(argv: seq<string>, m: nat, n: nat)
    requires argv != [] && 1 <= m <= n <= Dash(argv)
    ensures EmitUpTo(argv, m) <= EmitUpTo(argv, n)
  {
    hide Emit;
    if m < n { EmitGrows(argv, m, n - 1); }
  }

  lemma ShorthandEmits(argv: seq<string>)
    requires 3 <= |argv| && argv[1] == "config:set"
    requires !HasPrefix(argv[2], "-") && !LooksLikeKeyValue(argv[2])
    ensures Dash(argv) > 2 && Emit(argv, 1) == ["config", argv[2], "set"]
    ensures !Splittable(argv[2]) ==> Emit(argv, 2) == []
  {
    hide SplitCommandColon, IsValue, NextFrom, LooksLikeKeyValue;
    assert argv[2..2] == [];
    ShorthandMoves(argv, 2);
    ConfigSetSplits();
    assert HasPrefix("--", "-");
    assert argv[1] != "--" && argv[2] != "--";
    assert Moved(argv, 2);
    assert IsPositional(argv, 1, 2);
  }

  /** The muscle-memory form config:set ref comes out ref first: config ref set. */
  lemma ShorthandIsRefFirst(argv: seq<string>)
    requires 3 <= |argv| && argv[1] == "config:set"
    requires !HasPrefix(argv[2], "-") && !LooksLikeKeyValue(argv[2])
    ensures [argv[0], "config", argv[2], "set"] <= Rewritten(argv)
    ensures Dash(argv) > 2 && (!Splittable(argv[2]) ==> EmitUpTo(argv, 3) == ["config", argv[2], "set"])
  {
    hide *;
    ShorthandEmits(argv);
    FirstEmits(argv);
    EmitGrows(argv, 2, Dash(argv));
    RewrittenIsLine(argv);
    Leads(Rewritten(argv), "config", argv[2], "set", EmitUpTo(argv, Dash(argv)), argv[Dash(argv)..]);
  }

  lemma FirstEmits(argv: seq<string>)
    requires argv != [] && Dash(argv) > 2
    ensures EmitUpTo(argv, 2) == Emit(argv, 1)
    ensures Emit(argv, 2) == [] ==> EmitUpTo(argv, 3) == Emit(argv, 1)
  {
    hide *;
    NothingEmitted(argv);
    EmitsAt(argv, 1);
    EmitsAt(argv, 2);
  }

  lemma Leads(line: seq<string>, a: string, b: string, c: string, shown: seq<string>, tail: seq<string>)
    requires line != [] && line[1..] == shown + tail && [a, b, c] <= shown
    ensures [line[0], a, b, c] <= line
  {
    assert line == [line[0]] + line[1..];
    assert shown[0] == a && shown[1] == b && shown[2] == c;
  }

  lemma EmitsAt(argv: seq<string>, i: nat)
    requires argv != [] && 1 <= i < Dash(argv)
    ensures EmitUpTo(argv, i + 1) == EmitUpTo(argv, i) + Emit(argv, i)
  {
  }

  lemma NothingEmitted(argv: seq<string>)
    requires argv != []
    ensures EmitUpTo(argv, 1) == []
  {
  }

  lemma {:induction false} NoValues(argv: seq<string>, n: nat)
    requires 2 <= n <= |argv| && argv[1] == "config:set" && forall i | 2 <= i < n :: argv[i] == "--"
    ensures forall i | 1 <= i <= n :: !IsValue(argv, 1, i)
  {
    if n > 2 { NoValues(argv, n - 1); }
    assert !IsValue(argv, 1, 1);
    assert !WantsValue("config:set") && !WantsValue("--");
  }

  /** A ref typed after "--" comes out in both places: config:set -- x. */
  lemma RefPastDashDoubles(prog: string, x: string)
    requires !HasPrefix(x, "-") && !LooksLikeKeyValue(x)
    ensures var argv := [prog, "config:set", "--", x];
            multiset(Rewritten(argv)) != multiset(AllPieces(argv))
  {
    hide Rewritten, AllPieces;
    var argv := [prog, "config:set", "--", x];
    assert argv[2..3] == ["--"];
    ShorthandMoves(argv, 3);
    assert !Clean(argv, 1);
    ConservesIffClean(argv);
  }

  /** A ref that splits comes out whole and cut: config:set a:b; and it is cut again next time. */
  lemma RefThatSplitsDoubles(prog: string, ref: string)
    requires Splittable(ref) && !LooksLikeKeyValue(ref)
    ensures var argv := [prog, "config:set", ref];
            && multiset(Rewritten(argv)) != multiset(AllPieces(argv))
            && Rewritten(Rewritten(argv)) != Rewritten(argv)
  {
    hide Rewritten, AllPieces, Splittable;
    var argv := [prog, "config:set", ref];
    SplitParts(ref);
    assert argv[2..2] == [];
    ShorthandMoves(argv, 2);
    assert !Clean(argv, 1) && Chained(argv, 1);
    ConservesIffClean(argv);
    IdempotentIff(argv);
  }

  // ----- the rewritten line in words

  /** A token splits exactly if it is two or more identifiers joined by colons. */
  lemma SplittableIff(tok: string)
    ensures Splittable(tok) <==> ':' in tok && forall chunk | chunk in Split(tok, ':') :: IsIdent(chunk)
  {
    hide IsIdent, IndexOf, IdentsAll;
    var idx := IndexOf(tok, ':');
    if idx < |tok| {
      var left, right := tok[..idx], tok[idx + 1..];
      IdentsCons(left, Split(right, ':'));
      if IdentsAll(Split(right, ':')) { IdentsJoined(right); }
      EmptyIsNone();
    }
    IdentsAre(Split(tok, ':'));
    if idx < |tok| { IdentsAre(Split(tok[idx + 1..], ':')); }
  }

  predicate IdentsAll(chunks: seq<string>) {
    forall chunk | chunk in chunks :: IsIdent(chunk)
  }

  lemma IdentsAre(chunks: seq<string>)
    ensures IdentsAll(chunks) <==> !exists chunk | chunk in chunks :: !IsIdent(chunk)
    ensures IdentsAll(chunks) <==> forall chunk | chunk in chunks :: IsIdent(chunk)
  {
    hide IsIdent;
  }

  lemma IdentsCons(head: string, rest: seq<string>)
    ensures IdentsAll([head] + rest) <==> IsIdent(head) && IdentsAll(rest)
  {
    hide IsIdent;
    assert ([head] + rest)[0] == head;
    forall chunk ensures chunk in [head] + rest <==> chunk == head || chunk in rest { }
  }

  lemma EmptyIsNone()
    ensures Split("", ':') == [""] && !IdentsAll([""]) && !IsIdent("")
  {
    assert "" in [""];
  }

  /** Identifiers joined by colons hold neither a slash nor an at sign. */
  lemma {:induction false} IdentsJoined(s: string)
    requires IdentsAll(Split(s, ':'))
    ensures '/' !in s && '@' !in s
    decreases |s|
  {
    hide IsIdent, IndexOf, IdentsAll;
    var idx := IndexOf(s, ':');
    if idx < |s| {
      var rest := s[idx + 1..];
      IdentsCons(s[..idx], Split(rest, ':'));
      IdentHas(s[..idx]);
      IdentsJoined(rest);
      assert s == s[..idx] + [':'] + rest;
    } else {
      assert [s] + [] == [s];
      IdentsCons(s, []);
      IdentHas(s);
    }
  }

  lemma IdentHas(s: string)
    requires IsIdent(s)
    ensures '/' !in s && '@' !in s
  {
  }

  /** What comes before and after the first colon of a token. */
  function Before(tok: string): string {
    tok[..IndexOf(tok, ':')]
  }

  function After(tok: string): string
    requires ':' in tok
  {
    tok[IndexOf(tok, ':') + 1..]
  }

  /** Token i is the shorthand with a ref, found anywhere later on the line, that is no assignment. */
  predicate TakesRef(argv: seq<string>, i: nat)
    requires argv != []
  {
    && Rewritable(argv, i) && (argv[i] == "config:set" || argv[i] == "config:unset")
    && Target(argv, i) < |argv| && '=' !in argv[Target(argv, i)]
  }

  /** What stands for token i: the shorthand's ref between its halves, a cut token in order, a taken ref nowhere. */
  function Slot(argv: seq<string>, i: nat): seq<string>
    requires argv != [] && i < |argv|
  {
    if TakesRef(argv, i) then [Before(argv[i]), argv[Target(argv, i)], After(argv[i])]
    else if Rewritable(argv, i) then SplitParts(argv[i]); [Before(argv[i]), After(argv[i])]
    else if IsPositional(argv, 1, i) && exists j: nat | j < i :: TakesRef(argv, j) && Target(argv, j) == i then []
    else [argv[i]]
  }

  function SlotsUpTo(argv: seq<string>, n: nat): seq<string>
    requires argv != [] && 1 <= n <= |argv|
  {
    if n == 1 then [] else SlotsUpTo(argv, n - 1) + Slot(argv, n - 1)
  }

  lemma TakesRefIff(argv: seq<string>, i: nat)
    requires argv != []
    ensures TakesRef(argv, i) <==> Moves(argv, i)
    ensures Rewritable(argv, i) ==>
              ':' in argv[i] && LeftOf(argv, i) == Before(argv[i]) && RightOf(argv, i) == After(argv[i])
  {
    if Rewritable(argv, i) {
      SplitParts(argv[i]);
      JoinedConfig(argv[i], LeftOf(argv, i), RightOf(argv, i));
    }
  }

  lemma JoinedConfig(tok: string, left: string, right: string)
    requires tok == left + ":" + right && ':' !in left
    ensures left == "config" && (right == "set" || right == "unset") <==> tok == "config:set" || tok == "config:unset"
  {
    assert "config" + ":" + "set" == "config:set" && "config" + ":" + "unset" == "config:unset";
    if tok == "config:set" { SameHalves(left, right, "config", "set"); }
    if tok == "config:unset" { SameHalves(left, right, "config", "unset"); }
  }

  lemma SameHalves(left: string, right: string, left': string, right': string)
    requires left + ":" + right == left' + ":" + right' && ':' !in left && ':' !in left'
    ensures left == left' && right == right'
  {
    var tok := left + [':'] + right;
    IndexOfAt(left, ':', right);
    IndexOfAt(left', ':', right');
    assert left == tok[..|left|] && left' == tok[..|left|];
    assert right == tok[|left| + 1..] && right' == tok[|left| + 1..];
  }

  lemma EmitIsSlot(argv: seq<string>, i: nat)
    requires argv != [] && 1 <= i < Dash(argv)
    ensures Emit(argv, i) == Slot(argv, i)
  {
    hide TakesRef, Moves, Rewritable, IsPositional, Before, After, LeftOf, RightOf, Dash;
    TakesRefIff(argv, i);
    forall j: nat | j < i ensures TakesRef(argv, j) <==> Moves(argv, j) { TakesRefIff(argv, j); }
    MovesIsRewritable(argv, i);
  }

  lemma MovesIsRewritable(argv: seq<string>, i: nat)
    requires argv != []
    ensures Moves(argv, i) ==> Rewritable(argv, i)
  {
  }

  lemma {:induction false} EmitsSlots(argv: seq<string>, n: nat)
    requires argv != [] && 1 <= n <= Dash(argv)
    ensures EmitUpTo(argv, n) == SlotsUpTo(argv, n)
  {
    hide Emit, Slot, Dash;
    if n > 1 {
      EmitsSlots(argv, n - 1);
      EmitIsSlot(argv, n - 1);
    }
  }

  /** The rewritten line, token by token and in order. */
  lemma RewritesInOrder(argv: seq<string>)
    requires argv != []
    ensures Rewritten(argv) == [argv[0]] + SlotsUpTo(argv, Dash(argv)) + argv[Dash(argv)..]
  {
    EmitsSlots(argv, Dash(argv));
  }

  lemma {:induction false} SlotsArePieces(argv: seq<string>, n: nat)
    requires argv != [] && 1 <= n <= Dash(argv) && forall i: nat :: !Moves(argv, i)
    ensures EmitUpTo(argv, n) == Pieces(argv, n)
  {
    hide Moves, Rewritable, LeftOf, RightOf, Dash;
    if n > 1 { SlotsArePieces(argv, n - 1); }
  }

  /** Without a shorthand that takes a ref, the line is its pieces in place. */
  lemma NoMovesInPlace(argv: seq<string>)
    requires argv != [] && forall i: nat :: !Moves(argv, i)
    ensures Rewritten(argv) == AllPieces(argv)
  {
    hide Moves;
    SlotsArePieces(argv, Dash(argv));
  }

  /** The plain form: the line prog cmd:sub comes out as prog cmd sub, in that order. */
  lemma SubcommandFollowsCommand(prog: string, left: string, right: string, rest: seq<string>)
    requires IsIdent(left) && ':' !in left && IsIdent(right) && ':' !in right
    requires left + ":" + right != "config:set" && left + ":" + right != "config:unset"
    ensures [prog, left, right] <= Rewritten([prog, left + ":" + right] + rest)
  {
    var tok := left + ":" + right;
    var argv := [prog, tok] + rest;
    SplitOf(left, right);
    SplitParts(tok);
    assert Dash(argv) > 1 && IsPositional(argv, 1, 1) && Rewritable(argv, 1);
    hide *;
    EmitIsSlot(argv, 1);
    PlainSlot(argv, left, right);
    NothingEmitted(argv);
    EmitsAt(argv, 1);
    EmitGrows(argv, 2, Dash(argv));
    RewrittenIsLine(argv);
    var shown, tail := EmitUpTo(argv, Dash(argv)), argv[Dash(argv)..];
    assert [left, right] <= shown;
    LeadsTwo(Rewritten(argv), left, right, shown, tail);
  }

  lemma PlainSlot(argv: seq<string>, left: string, right: string)
    requires |argv| > 1 && Rewritable(argv, 1) && argv[1] == left + ":" + right && ':' !in left
    requires argv[1] != "config:set" && argv[1] != "config:unset"
    ensures Slot(argv, 1) == [left, right]
  {
    hide Rewritable, Target;
    var tok := left + [':'] + right;
    IndexOfAt(left, ':', right);
    assert argv[1] == tok && tok[..|left|] == left && tok[|left| + 1..] == right;
  }

  lemma LeadsTwo(line: seq<string>, a: string, b: string, shown: seq<string>, tail: seq<string>)
    requires line != [] && line[1..] == shown + tail && [a, b] <= shown
    ensures [line[0], a, b] <= line
  {
    assert line == [line[0]] + line[1..];
    assert shown[0] == a && shown[1] == b;
  }

  /** The value of a flag that takes one stays as it is, whatever it looks like. */
  lemma FlagValueKept(prog: string, flag: string, value: string)
    requires flag in {"-a", "--app", "-f", "--file", "-r", "--remote", "-o", "--output",
                      "--controller-url", "--replicas", "--format"}
    requires value != "--"
    ensures Rewritten([prog, flag, value]) == [prog, flag, value]
  {
    var argv := [prog, flag, value];
    hide SplitCommandColon;
    assert '=' !in flag && HasPrefix(flag, "-") && flag != "--";
    assert !IsValue(argv, 1, 1) && IsValue(argv, 1, 2);
    forall i: nat ensures !Rewritable(argv, i) { }
    UnchangedIff(argv);
  }
}
