/**
 What the autoscaler's decisions add up to: rate bounds over arbitrary runs,
 and convergence, or its one possible cycle, under constant load.
 */
module ScalerDynamics {
  import opened Outcomes
  import opened Autoscaler

  // ----- arbitrary load

  /** One evaluation of a deployment: what it saw, when, and whether the store accepted the move. */
  datatype Observation = Observation(mean: real, current: int, now: int, applied: bool)

  function MoveAt(spec: Spec, st: ScaleState, o: Observation): Move {
    if o.applied then Decide(spec, o.mean, o.current, st, o.now) else Hold
  }

  /** Cooldown state after a history of evaluations. */
  function StateAfter(spec: Spec, history: seq<Observation>): ScaleState {
    if history == [] then NO_MOVES
    else
      var st := StateAfter(spec, history[..|history| - 1]);
      var o := history[|history| - 1];
      Noted(st, MoveAt(spec, st, o), o.now)
  }

  function MoveOf(spec: Spec, history: seq<Observation>, i: nat): Move
    requires i < |history|
  {
    MoveAt(spec, StateAfter(spec, history[..i]), history[i])
  }

  /** How many of the evaluations i..j moved up (down). */
  function Count(spec: Spec, history: seq<Observation>, move: Move, i: nat, j: nat): nat
    requires i <= j <= |history|
    decreases j - i
  {
    if i == j then 0
    else Count(spec, history, move, i, j - 1) + if MoveOf(spec, history, j - 1) == move then 1 else 0
  }

  function LastOf(st: ScaleState, move: Move): Option<int> {
    if move == Up then st.lastUp else st.lastDown
  }

  function Cooldown(spec: Spec, move: Move): nat {
    if move == Up then CooldownUp(spec) else CooldownDown(spec)
  }

  /** From one move on, each further move in that direction costs a whole cooldown. */
  lemma {:induction false} MovesCost(spec: Spec, history: seq<Observation>, move: Move, i: nat, j: nat)
    requires i < j <= |history| && move != Hold && MoveOf(spec, history, i) == move
    ensures var last := LastOf(StateAfter(spec, history[..j]), move);
            last.Some? &&
            last.value - history[i].now >= (Count(spec, history, move, i, j) - 1) * Cooldown(spec, move)
    decreases j - i
  {
    hide MoveAt, Cooldown;
    var st := StateAfter(spec, history[..j - 1]);
    var o := history[j - 1];
    assert history[..j][..j - 1] == history[..j - 1];
    MoveWaits(spec, st, o, move);
    if j == i + 1 {
      assert Count(spec, history, move, i, i) == 0;
      assert (1 - 1) * Cooldown(spec, move) == 0;
    } else {
      MovesCost(spec, history, move, i, j - 1);
      var n: int, c: int := Count(spec, history, move, i, j - 1), Cooldown(spec, move);
      assert (n + 1 - 1) * c == (n - 1) * c + c;
    }
  }

  /** A move waits out its cooldown and is noted; anything else leaves its timestamp alone. */
  lemma MoveWaits(spec: Spec, st: ScaleState, o: Observation, move: Move)
    requires move != Hold
    ensures var last, next := LastOf(st, move), LastOf(Noted(st, MoveAt(spec, st, o), o.now), move);
            if MoveAt(spec, st, o) == move
            then next == Some(o.now) && (last.Some? ==> o.now - last.value >= Cooldown(spec, move))
            else next == last
  {
  }

  /** Two moves in the same direction are at least a cooldown apart. */
  lemma GapIsCooldown(spec: Spec, history: seq<Observation>, move: Move, i: nat, j: nat)
    requires i < j < |history| && move != Hold
    requires MoveOf(spec, history, i) == move && MoveOf(spec, history, j) == move
    ensures history[j].now - history[i].now >= Cooldown(spec, move)
  {
    MovesCost(spec, history, move, i, j + 1);
    CountAtLeast(spec, history, move, i, j);
    hide Count, Cooldown, StateAfter, MoveAt;
    Mult(1, Count(spec, history, move, i, j + 1) - 1, Cooldown(spec, move));
    MoveIsStamped(spec, history, move, j);
  }

  /** A move leaves its own time behind. */
  lemma MoveIsStamped(spec: Spec, history: seq<Observation>, move: Move, j: nat)
    requires j < |history| && move != Hold && MoveOf(spec, history, j) == move
    ensures LastOf(StateAfter(spec, history[..j + 1]), move) == Some(history[j].now)
  {
    assert history[..j + 1][..j] == history[..j];
  }

  lemma {:induction false} CountAtLeast(spec: Spec, history: seq<Observation>, move: Move, i: nat, j: nat)
    requires i < j < |history|
    requires MoveOf(spec, history, i) == move && MoveOf(spec, history, j) == move
    ensures Count(spec, history, move, i, j + 1) >= 2
  {
    CountFirst(spec, history, move, i, j);
  }

  lemma {:induction false} CountFirst(spec: Spec, history: seq<Observation>, move: Move, i: nat, j: nat)
    requires i < j <= |history| && MoveOf(spec, history, i) == move
    ensures Count(spec, history, move, i, j) >= 1
    decreases j
  {
    if j > i + 1 {
      CountFirst(spec, history, move, i, j - 1);
    }
  }

  lemma {:induction false} CountSplitsFirst(spec: Spec, history: seq<Observation>, move: Move, i: nat, j: nat)
    requires i < j <= |history|
    ensures Count(spec, history, move, i, j) ==
            Count(spec, history, move, i + 1, j) + if MoveOf(spec, history, i) == move then 1 else 0
    decreases j
  {
    if i + 1 < j {
      CountSplitsFirst(spec, history, move, i, j - 1);
    } else {
      assert Count(spec, history, move, i, i) == 0;
      assert Count(spec, history, move, j, j) == 0;
    }
  }

  /** The evaluations i..j all fall in a window of this length. */
  predicate InWindow(history: seq<Observation>, i: nat, j: nat, window: nat)
    requires i <= j <= |history|
  {
    forall a, b | i <= a < j && i <= b < j :: history[b].now - history[a].now <= window
  }

  /** In any window of length T there are at most T / cooldown + 1 moves each way. */
  lemma {:induction false} RateBound(spec: Spec, history: seq<Observation>, move: Move, i: nat, j: nat, window: nat)
    requires i <= j <= |history| && move != Hold && Cooldown(spec, move) > 0
    requires InWindow(history, i, j, window)
    ensures Count(spec, history, move, i, j) <= window / Cooldown(spec, move) + 1
    decreases j - i
  {
    if i < j {
      if MoveOf(spec, history, i) != move {
        CountSplitsFirst(spec, history, move, i, j);
        RateBound(spec, history, move, i + 1, j, window);
      } else if MoveOf(spec, history, j - 1) != move {
        RateBound(spec, history, move, i, j - 1, window);
      } else {
        RateBetween(spec, history, move, i, j, window);
      }
    }
  }

  lemma RateBetween(spec: Spec, history: seq<Observation>, move: Move, i: nat, j: nat, window: nat)
    requires i < j <= |history| && move != Hold && Cooldown(spec, move) > 0
    requires InWindow(history, i, j, window)
    requires MoveOf(spec, history, i) == move && MoveOf(spec, history, j - 1) == move
    ensures Count(spec, history, move, i, j) <= window / Cooldown(spec, move) + 1
  {
    hide Count, MoveAt, Cooldown;
    MovesCost(spec, history, move, i, j);
    assert history[..j][..j - 1] == history[..j - 1];
    var n: int, c: int := Count(spec, history, move, i, j), Cooldown(spec, move);
    assert history[j - 1].now - history[i].now <= window;
    assert (n - 1) * c <= window;
    DivAtLeast(window, n - 1, c);
  }

  lemma DivAtLeast(a: int, q: int, c: int)
    requires c > 0 && q * c <= a
    ensures q <= a / c
  {
    if a / c < q {
      assert (a / c + 1) * c <= q * c by { Mult(a / c + 1, q, c); }
    }
  }

  lemma Mult(a: int, b: int, c: int)
    requires a <= b && c >= 0
    ensures a * c <= b * c
  {
    assert b * c - a * c == (b - a) * c;
  }

  function Distance(spec: Spec, n: int): int {
    if n < spec.min then spec.min - n else if n > spec.max then n - spec.max else 0
  }

  /** A move changes the count by one and never takes it further from its bounds. */
  lemma MovesStayInBounds(spec: Spec, st: ScaleState, o: Observation)
    requires spec.min <= spec.max
    ensures var next := Moved(o.current, MoveAt(spec, st, o));
            && Distance(spec, next) <= Distance(spec, o.current)
            && (MoveAt(spec, st, o) != Hold ==> next == o.current + 1 || next == o.current - 1)
  {
  }

  // ----- constant load, shared evenly

  /** Every pod reports its equal share of the load. */
  function Shares(load: real, n: nat): (cpu: seq<real>)
    requires n > 0
    ensures |cpu| == n
  {
    seq(n, _ => load / n as real)
  }

  function Times(k: nat, x: real): real {
    k as real * x
  }

  lemma OneMoreTime(k: nat, x: real)
    ensures Times(k + 1, x) == Times(k, x) + x && Times(0, x) == 0.0
  {
  }

  lemma {:induction false} SumOfEqual(cpu: seq<real>, x: real)
    requires forall i | 0 <= i < |cpu| :: cpu[i] == x
    ensures Sum(cpu) == Times(|cpu|, x)
    ensures x != 0.0 ==> Busy(cpu) == cpu
  {
    hide Times;
    OneMoreTime(if cpu == [] then 0 else |cpu| - 1, x);
    if cpu != [] {
      SumOfEqual(cpu[..|cpu| - 1], x);
    }
  }

  /** An evenly shared load has the obvious mean. */
  lemma MeanOfShares(load: real, n: nat)
    requires n > 0 && load >= 0.0
    ensures Mean(Shares(load, n)) == load / n as real
  {
    hide Sum, Busy;
    var cpu, x := Shares(load, n), load / n as real;
    SumOfEqual(cpu, x);
    Cancel(n as real, x);
    assert x >= 0.0;
    MeanOfKept(cpu, x > 0.0) by {
      assert x > 0.0 ==> cpu[0] > 0.0;
    }
  }

  lemma Cancel(n: real, x: real)
    requires n != 0.0
    ensures n * x / n == x
  {
  }

  /** The direction the load pushes n replicas, cooldowns aside. */
  function Wants(spec: Spec, load: real, n: int): Move
    requires n > 0
  {
    Decide(spec, load / n as real, n, NO_MOVES, 0)
  }

  datatype Loop = Loop(n: int, st: ScaleState)

  /** One tick of the closed loop: the count follows the last decision. */
  function Tick(spec: Spec, load: real, s: Loop, now: int): Loop
    requires s.n > 0
  {
    var move := Decide(spec, load / s.n as real, s.n, s.st, now);
    Loop(Moved(s.n, move), Noted(s.st, move, now))
  }

  predicate Sane(spec: Spec, load: real) {
    1 <= spec.min <= spec.max && load >= 0.0
  }

  predicate Within(spec: Spec, n: int) {
    spec.min <= n <= spec.max
  }

  function TickMove(spec: Spec, load: real, s: Loop, now: int): Move
    requires s.n > 0
  {
    Decide(spec, load / s.n as real, s.n, s.st, now)
  }

  /** The load that one replica finds too much and two find too little. */
  predicate Thrashes(spec: Spec, load: real) {
    && spec.min == 1 && spec.max >= 2
    && 1.1 * spec.cpuTarget as real < load < 1.4 * spec.cpuTarget as real
  }

  /** Scaling up never makes the load want down, nor the reverse, except from 1 to 2 and back. */
  lemma NoTurn(spec: Spec, load: real, n: int)
    requires Sane(spec, load) && Within(spec, n) && Within(spec, n + 1)
    ensures Wants(spec, load, n) == Up && Wants(spec, load, n + 1) == Down <==> n == 1 && Thrashes(spec, load)
  {
    var t := spec.cpuTarget as real;
    var up, down := t * SCALE_UP_FACTOR, t * SCALE_DOWN_FACTOR;
    Share(load, n, up);
    Share(load, n + 1, down);
    if n >= 2 {
      Scale(t, n);
      assert up * n as real >= down * (n + 1) as real;
    } else {
      assert up * 1.0 == 1.1 * t && down * 2.0 == 1.4 * t;
    }
  }

  lemma Share(load: real, n: int, bound: real)
    requires n > 0
    ensures load / n as real > bound <==> load > bound * n as real
    ensures load / n as real < bound <==> load < bound * n as real
  {
    var x := load / n as real;
    assert x * n as real == load;
    if x > bound {
      assert (x - bound) * n as real > 0.0;
    } else if x < bound {
      assert (bound - x) * n as real > 0.0;
    }
  }

  /** 1.1 n >= 0.7 (n + 1) from two replicas on. */
  lemma Scale(t: real, n: int)
    requires t >= 0.0 && n >= 2
    ensures t * SCALE_UP_FACTOR * n as real >= t * SCALE_DOWN_FACTOR * (n + 1) as real
  {
    var x := n as real;
    assert t * 1.1 * x - t * 0.7 * (x + 1.0) == t * (0.4 * x - 0.7);
  }

  // ----- runs of the closed loop

  function LoopAfter(spec: Spec, load: real, start: Loop, times: seq<int>): (s: Loop)
    requires Sane(spec, load) && Within(spec, start.n)
    ensures Within(spec, s.n)
  {
    if times == [] then start
    else Tick(spec, load, LoopAfter(spec, load, start, times[..|times| - 1]), times[|times| - 1])
  }

  function LoopMove(spec: Spec, load: real, start: Loop, times: seq<int>, i: nat): Move
    requires Sane(spec, load) && Within(spec, start.n) && i < |times|
  {
    TickMove(spec, load, LoopAfter(spec, load, start, times[..i]), times[i])
  }

  /** Ticks leave the count alone or take the step the load wants. */
  lemma TickFollows(spec: Spec, load: real, s: Loop, now: int)
    requires Sane(spec, load) && Within(spec, s.n)
    ensures var move := TickMove(spec, load, s, now);
            move == Hold || (move == Wants(spec, load, s.n) && Tick(spec, load, s, now).n == Moved(s.n, move))
    ensures TickMove(spec, load, s, now) == Hold ==> Tick(spec, load, s, now).n == s.n
  {
  }

  /** Once the load has pushed one way it never pushes the other. */
  lemma {:induction false} PushLasts(spec: Spec, load: real, start: Loop, times: seq<int>, i: nat, j: nat)
    requires Sane(spec, load) && Within(spec, start.n) && !Thrashes(spec, load)
    requires i < j <= |times| && LoopMove(spec, load, start, times, i) != Hold
    ensures var n := LoopAfter(spec, load, start, times[..j]).n;
            Wants(spec, load, n) == Hold || Wants(spec, load, n) == LoopMove(spec, load, start, times, i)
    decreases j
  {
    hide Wants, TickMove, Tick;
    var s := LoopAfter(spec, load, start, times[..j - 1]);
    assert times[..j][..j - 1] == times[..j - 1];
    TickFollows(spec, load, s, times[j - 1]);
    var n := LoopAfter(spec, load, start, times[..j]).n;
    if i < j - 1 {
      PushLasts(spec, load, start, times, i, j - 1);
    }
    if n == s.n + 1 {
      NoTurn(spec, load, s.n);
    } else if n == s.n - 1 {
      NoTurn(spec, load, n);
    }
  }

  /** Under constant load the scaler never reverses direction, outside the one thrashing band. */
  lemma NoReversal(spec: Spec, load: real, start: Loop, times: seq<int>, i: nat, j: nat)
    requires Sane(spec, load) && Within(spec, start.n) && !Thrashes(spec, load)
    requires i < j < |times|
    ensures LoopMove(spec, load, start, times, i) != Hold && LoopMove(spec, load, start, times, j) != Hold ==>
            LoopMove(spec, load, start, times, i) == LoopMove(spec, load, start, times, j)
  {
    hide Wants, TickMove, Tick;
    if LoopMove(spec, load, start, times, i) != Hold {
      PushLasts(spec, load, start, times, i, j);
      TickFollows(spec, load, LoopAfter(spec, load, start, times[..j]), times[j]);
    }
  }

  // ----- moves add up

  /** The step the load wants is not held back by its cooldown. */
  predicate Free(spec: Spec, load: real, s: Loop, now: int)
    requires s.n > 0
  {
    var last := LastOf(s.st, Wants(spec, load, s.n));
    last.Some? ==> now - last.value >= Cooldown(spec, Wants(spec, load, s.n))
  }

  /** How many of the ticks moved the count. */
  function MoveCount(spec: Spec, load: real, start: Loop, times: seq<int>): nat
    requires Sane(spec, load) && Within(spec, start.n)
  {
    if times == [] then 0
    else MoveCount(spec, load, start, times[..|times| - 1])
         + if LoopMove(spec, load, start, times, |times| - 1) != Hold then 1 else 0
  }

  /** How many of the ticks found the wanted step free to take. */
  function FreeCount(spec: Spec, load: real, start: Loop, times: seq<int>): nat
    requires Sane(spec, load) && Within(spec, start.n)
  {
    if times == [] then 0
    else
      var front := times[..|times| - 1];
      FreeCount(spec, load, start, front)
      + if Free(spec, load, LoopAfter(spec, load, start, front), times[|times| - 1]) then 1 else 0
  }

  /** A tick does what the load wants exactly when that is free. */
  lemma FreeTick(spec: Spec, load: real, s: Loop, now: int)
    requires Sane(spec, load) && Within(spec, s.n)
    ensures TickMove(spec, load, s, now) == if Free(spec, load, s, now) then Wants(spec, load, s.n) else Hold
    ensures Tick(spec, load, s, now) == Loop(Moved(s.n, TickMove(spec, load, s, now)),
                                             Noted(s.st, TickMove(spec, load, s, now), now))
  {
  }

  lemma WantsRoom(spec: Spec, load: real, n: int)
    requires Sane(spec, load) && Within(spec, n)
    ensures Wants(spec, load, n) == Up ==> n < spec.max
    ensures Wants(spec, load, n) == Down ==> n > spec.min
  {
  }

  /** The last tick of a run, seen on its own. */
  lemma LastTick(spec: Spec, load: real, start: Loop, times: seq<int>)
    requires Sane(spec, load) && Within(spec, start.n) && times != []
    ensures var s, now := LoopAfter(spec, load, start, times[..|times| - 1]), times[|times| - 1];
            && LoopMove(spec, load, start, times, |times| - 1) == TickMove(spec, load, s, now)
            && LoopAfter(spec, load, start, times) == Tick(spec, load, s, now)
  {
  }

  /** The count has gone k steps one way, and the load does not push it back. */
  predicate OneWay(spec: Spec, load: real, from: int, n: int, k: nat)
    requires n > 0
  {
    || (k == 0 && n == from)
    || (n == from + k && Wants(spec, load, n) != Down)
    || (n == from - k && Wants(spec, load, n) != Up)
  }

  lemma OneWayStep(spec: Spec, load: real, from: int, n: int, k: nat)
    requires Sane(spec, load) && Within(spec, n) && !Thrashes(spec, load) && OneWay(spec, load, from, n, k)
    ensures var next := Moved(n, Wants(spec, load, n));
            Wants(spec, load, n) != Hold ==> Within(spec, next) && OneWay(spec, load, from, next, k + 1)
  {
    WantsRoom(spec, load, n);
    hide Wants, Thrashes;
    if Wants(spec, load, n) == Up {
      NoTurn(spec, load, n);
    } else if Wants(spec, load, n) == Down {
      NoTurn(spec, load, n - 1);
    }
  }

  lemma {:induction false} MovesGoOneWay(spec: Spec, load: real, start: Loop, times: seq<int>)
    requires Sane(spec, load) && Within(spec, start.n) && !Thrashes(spec, load)
    ensures OneWay(spec, load, start.n, LoopAfter(spec, load, start, times).n, MoveCount(spec, load, start, times))
    decreases |times|
  {
    if times != [] {
      var front := times[..|times| - 1];
      var s := LoopAfter(spec, load, start, front);
      MovesGoOneWay(spec, load, start, front);
      LastTick(spec, load, start, times);
      FreeTick(spec, load, s, times[|times| - 1]);
      hide Wants, TickMove, Tick, Free, OneWay, Thrashes;
      OneWayStep(spec, load, start.n, s.n, MoveCount(spec, load, start, front));
    }
  }

  /**
   Under constant load, outside the thrashing band, every move of a run goes
   the same way: the count ends exactly as far from its start as there were
   moves, so there are at most max - min of them. Tick times and cooldown
   state are arbitrary.
   */
  lemma MovesAreBounded(spec: Spec, load: real, start: Loop, times: seq<int>)
    requires Sane(spec, load) && Within(spec, start.n) && !Thrashes(spec, load)
    ensures var n, k := LoopAfter(spec, load, start, times).n, MoveCount(spec, load, start, times);
            (n == start.n + k || n == start.n - k) && k <= spec.max - spec.min
  {
    MovesGoOneWay(spec, load, start, times);
  }

  // ----- convergence

  /** The load each of n replicas carries is neither above 1.1 nor below 0.7 of target, unless n is at the bound. */
  predicate AtRest(spec: Spec, load: real, n: int) {
    && (n == spec.max || load <= 1.1 * spec.cpuTarget as real * n as real)
    && (n == spec.min || load >= 0.7 * spec.cpuTarget as real * n as real)
  }

  lemma AtRestIff(spec: Spec, load: real, n: int)
    requires Sane(spec, load) && Within(spec, n)
    ensures AtRest(spec, load, n) <==> Wants(spec, load, n) == Hold
  {
    DecideInNumbers(spec, load / n as real, n, NO_MOVES, 0);
    var t := spec.cpuTarget as real;
    Share(load, n, 1.1 * t);
    Share(load, n, 0.7 * t);
    hide Decide, Wants;
    RestMeans(spec, load, n);
  }

  lemma RestMeans(spec: Spec, load: real, n: int)
    requires Sane(spec, load) && Within(spec, n)
    ensures Wants(spec, load, n) == Hold <==>
      !CallsUp(spec, load / n as real, n, NO_MOVES, 0) && !CallsDown(spec, load / n as real, n, NO_MOVES, 0)
  {
    hide Decide, CallsUp, CallsDown;
    DecideInNumbers(spec, load / n as real, n, NO_MOVES, 0);
  }

  lemma {:induction false} RestLasts(spec: Spec, load: real, start: Loop, times: seq<int>)
    requires Sane(spec, load) && Within(spec, start.n)
    requires Wants(spec, load, LoopAfter(spec, load, start, times).n) != Hold
    ensures MoveCount(spec, load, start, times) == FreeCount(spec, load, start, times)
    decreases |times|
  {
    if times != [] {
      var front := times[..|times| - 1];
      var s := LoopAfter(spec, load, start, front);
      LastTick(spec, load, start, times);
      FreeTick(spec, load, s, times[|times| - 1]);
      hide Wants, TickMove, Tick, Free;
      RestLasts(spec, load, start, front);
    }
  }

  /** The scaler is not at rest only while fewer than max - min ticks were free to move. */
  lemma Unrest(spec: Spec, load: real, start: Loop, times: seq<int>)
    requires Sane(spec, load) && Within(spec, start.n) && !Thrashes(spec, load)
    requires Wants(spec, load, LoopAfter(spec, load, start, times).n) != Hold
    ensures MoveCount(spec, load, start, times) == FreeCount(spec, load, start, times) < spec.max - spec.min
  {
    RestLasts(spec, load, start, times);
    MovesGoOneWay(spec, load, start, times);
    WantsRoom(spec, load, LoopAfter(spec, load, start, times).n);
  }

  /** Once max - min ticks, at whatever times, were past the pending cooldown, the scaler is at rest. */
  lemma Converges(spec: Spec, load: real, start: Loop, times: seq<int>)
    requires Sane(spec, load) && Within(spec, start.n) && !Thrashes(spec, load)
    requires FreeCount(spec, load, start, times) >= spec.max - spec.min
    ensures AtRest(spec, load, LoopAfter(spec, load, start, times).n)
  {
    hide AtRest;
    AtRestIff(spec, load, LoopAfter(spec, load, start, times).n);
    if Wants(spec, load, LoopAfter(spec, load, start, times).n) != Hold {
      Unrest(spec, load, start, times);
    }
  }

  /** Successive ticks are at least a period apart. */
  predicate Periodic(times: seq<int>, period: int) {
    forall i | 0 < i < |times| :: times[i] - times[i - 1] >= period
  }

  lemma {:induction false} PeriodsPass(times: seq<int>, period: nat, i: nat, j: nat)
    requires Periodic(times, period) && i <= j < |times|
    ensures times[j] - times[i] >= (j - i) * period
    decreases j
  {
    if i < j {
      PeriodsPass(times, period, i, j - 1);
      assert times[j] - times[j - 1] >= period;
      assert (j - i) * period == (j - 1 - i) * period + period;
    } else {
      assert (j - i) * period == 0;
    }
  }

  /** The last moves were not after the first tick. */
  predicate StampedBefore(st: ScaleState, times: seq<int>) {
    && (st.lastUp.Some? && times != [] ==> st.lastUp.value <= times[0])
    && (st.lastDown.Some? && times != [] ==> st.lastDown.value <= times[0])
  }

  /** A stamp no later than tick r. */
  predicate StampedBy(last: Option<int>, times: seq<int>, r: int) {
    last.Some? ==> times == [] || exists i: nat | i < |times| && i <= r :: last.value <= times[i]
  }

  /** How long a run can be that has not come to rest, and where its stamps lie. */
  predicate OnSchedule(spec: Spec, s: Loop, times: seq<int>, j: nat, k: nat, wait: nat) {
    && j <= (k + 1) * wait
    && StampedBy(s.st.lastUp, times, k * wait) && StampedBy(s.st.lastDown, times, k * wait)
  }

  lemma ScheduleStep(spec: Spec, load: real, s: Loop, times: seq<int>, period: nat, wait: nat, j: nat, k: nat)
    requires Sane(spec, load) && Within(spec, s.n) && Wants(spec, load, s.n) != Hold
    requires Periodic(times, period) && j < |times| && wait > 0
    requires wait * period >= CooldownUp(spec) && wait * period >= CooldownDown(spec)
    requires OnSchedule(spec, s, times, j, k, wait)
    ensures var t := Tick(spec, load, s, times[j]);
            OnSchedule(spec, t, times, j + 1, if Free(spec, load, s, times[j]) then k + 1 else k, wait)
  {
    FreeTick(spec, load, s, times[j]);
    var w := Wants(spec, load, s.n);
    assert (k + 1) * wait == k * wait + wait && (k + 2) * wait == (k + 1) * wait + wait;
    if !Free(spec, load, s, times[j]) {
      var last := LastOf(s.st, w);
      var r: nat :| r < |times| && r <= k * wait && last.value <= times[r];
      if r + wait <= j {
        PeriodsPass(times, period, r, j);
        Mult(wait, j - r, period);
        assert false;
      }
    } else {
      assert times[j] <= times[j];
    }
  }

  lemma ScheduleStarts(spec: Spec, start: Loop, times: seq<int>, wait: nat)
    requires StampedBefore(start.st, times)
    ensures OnSchedule(spec, start, times, 0, 0, wait)
  {
    assert 0 * wait == 0;
  }

  lemma {:induction false} ScheduleHolds(spec: Spec, load: real, start: Loop, times: seq<int>,
                                         period: nat, wait: nat, j: nat)
    requires Sane(spec, load) && Within(spec, start.n)
    requires Periodic(times, period) && StampedBefore(start.st, times) && j <= |times| && wait > 0
    requires wait * period >= CooldownUp(spec) && wait * period >= CooldownDown(spec)
    requires Wants(spec, load, LoopAfter(spec, load, start, times[..j]).n) != Hold
    ensures OnSchedule(spec, LoopAfter(spec, load, start, times[..j]), times, j,
                       MoveCount(spec, load, start, times[..j]), wait)
    decreases j
  {
    hide Wants, TickMove, Tick, Free, OnSchedule, Periodic, StampedBefore, CooldownUp, CooldownDown;
    if j == 0 {
      assert times[..0] == [];
      ScheduleStarts(spec, start, times, wait);
    } else {
      var now := times[..j];
      var s := LoopAfter(spec, load, start, times[..j - 1]);
      assert now[..j - 1] == times[..j - 1] && now[j - 1] == times[j - 1];
      LastTick(spec, load, start, now);
      FreeTick(spec, load, s, times[j - 1]);
      ScheduleHolds(spec, load, start, times, period, wait, j - 1);
      ScheduleStep(spec, load, s, times, period, wait, j - 1, MoveCount(spec, load, start, times[..j - 1]));
    }
  }

  /**
   On any schedule of ticks: if wait periods outlast both cooldowns, the scaler
   is at rest after (max - min) * wait + 1 ticks. With the default period of
   15 s and cooldowns of 30 s and 5 min, wait is 20.
   */
  lemma SettlesOnSchedule(spec: Spec, load: real, start: Loop, times: seq<int>, period: nat, wait: nat)
    requires Sane(spec, load) && Within(spec, start.n) && !Thrashes(spec, load)
    requires Periodic(times, period) && StampedBefore(start.st, times) && wait > 0
    requires wait * period >= CooldownUp(spec) && wait * period >= CooldownDown(spec)
    requires |times| > (spec.max - spec.min) * wait
    ensures AtRest(spec, load, LoopAfter(spec, load, start, times).n)
  {
    hide Wants, Periodic, StampedBefore, Thrashes, AtRest;
    AtRestIff(spec, load, LoopAfter(spec, load, start, times).n);
    assert times[..|times|] == times;
    if Wants(spec, load, LoopAfter(spec, load, start, times).n) != Hold {
      Unrest(spec, load, start, times);
      ScheduleHolds(spec, load, start, times, period, wait, |times|);
      Mult(MoveCount(spec, load, start, times) + 1, spec.max - spec.min, wait);
    }
  }

  // ----- the one band that never comes to rest

  /** In the thrashing band one replica is too few and any more are too many. */
  lemma ThrashWants(spec: Spec, load: real, n: int)
    requires Thrashes(spec, load) && Within(spec, n)
    ensures Sane(spec, load) && Wants(spec, load, n) == if n == 1 then Up else Down
  {
    var t := spec.cpuTarget as real;
    Share(load, n, t * SCALE_UP_FACTOR);
    Share(load, n, t * SCALE_DOWN_FACTOR);
    ThrashShares(t, load, n);
  }

  lemma ThrashShares(t: real, load: real, n: int)
    requires n >= 1 && t >= 0.0 && 1.1 * t < load < 1.4 * t
    ensures n == 1 ==> load > t * SCALE_UP_FACTOR * n as real
    ensures n >= 2 ==> load < t * SCALE_DOWN_FACTOR * n as real
    ensures n >= 2 ==> load <= t * SCALE_UP_FACTOR * n as real
  {
    var down, up := t * SCALE_DOWN_FACTOR, t * SCALE_UP_FACTOR;
    if n == 1 {
      assert up * 1.0 == up;
    } else {
      assert down + down == 1.4 * t;
      TwiceIsLess(load, down, n as real);
      TwiceIsLess(load, up, n as real);
    }
  }

  lemma TwiceIsLess(load: real, share: real, x: real)
    requires share >= 0.0 && x >= 2.0 && load < share + share
    ensures load < share * x
  {
    NotNegative(share, x - 2.0);
    assert share * x == share + share + share * (x - 2.0);
  }

  lemma NotNegative(a: real, b: real)
    requires a >= 0.0 && b >= 0.0
    ensures a * b >= 0.0
  {
  }

  /** Where k moves lead in that band: down to one replica, then up and down between one and two. */
  function ThrashCount(from: int, k: nat): int {
    if k < from - 1 then from - k else 1 + (k - (from - 1)) % 2
  }

  lemma ThrashStep(from: int, k: nat)
    requires from >= 1
    ensures ThrashCount(from, k + 1) == if ThrashCount(from, k) == 1 then 2 else ThrashCount(from, k) - 1
    ensures ThrashCount(from, 0) == from
  {
  }

  /**
   In the thrashing band the scaler never rests: every tick past the pending
   cooldown moves, any other holds, and the count after k such ticks is
   ThrashCount, from whatever count, cooldown state and tick times.
   */
  lemma {:induction false} ThrashesForEver(spec: Spec, load: real, start: Loop, times: seq<int>)
    requires Thrashes(spec, load) && Within(spec, start.n)
    ensures Sane(spec, load)
    ensures var n := LoopAfter(spec, load, start, times).n;
            && !AtRest(spec, load, n)
            && n == ThrashCount(start.n, FreeCount(spec, load, start, times))
    ensures MoveCount(spec, load, start, times) == FreeCount(spec, load, start, times)
    decreases |times|
  {
    hide Wants, TickMove, Tick, Free, Thrashes, ThrashCount, AtRest;
    ThrashWants(spec, load, start.n);
    AtRestIff(spec, load, LoopAfter(spec, load, start, times).n);
    ThrashWants(spec, load, LoopAfter(spec, load, start, times).n);
    ThrashStep(start.n, FreeCount(spec, load, start, if times == [] then [] else times[..|times| - 1]));
    if times != [] {
      var front := times[..|times| - 1];
      var s := LoopAfter(spec, load, start, front);
      ThrashWants(spec, load, s.n);
      LastTick(spec, load, start, times);
      FreeTick(spec, load, s, times[|times| - 1]);
      ThrashesForEver(spec, load, start, front);
    }
  }

  /** Once at one or two replicas the count stays there, and every free tick flips it. */
  lemma ThrashFlips(spec: Spec, load: real, s: Loop, now: int)
    requires Thrashes(spec, load) && 1 <= s.n <= 2
    ensures Tick(spec, load, s, now).n == if Free(spec, load, s, now) then 3 - s.n else s.n
  {
    ThrashWants(spec, load, s.n);
    FreeTick(spec, load, s, now);
  }
}
