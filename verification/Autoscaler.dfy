/**
 The CPU-driven autoscaler: one decision per deployment and tick, hysteresis
 bands around the target, asymmetric cooldowns, one replica per move.

 CPU percentages are exact reals; durations are nanoseconds.
 */
module Autoscaler {
  import opened Outcomes
  import opened Text
  import opened Json

  const SCALE_UP_FACTOR := 1.1
  const SCALE_DOWN_FACTOR := 0.7
  const DEFAULT_COOLDOWN_UP := 30 * 1_000_000_000
  const DEFAULT_COOLDOWN_DOWN := 300 * 1_000_000_000

  /** The autoscale block of a deployment; unparsable or negative durations are None. */
  datatype Spec = Spec(min: int, max: int, cpuTarget: nat, cooldownUp: Option<nat>, cooldownDown: Option<nat>)

  function CooldownUp(spec: Spec): nat {
    if spec.cooldownUp.Some? then spec.cooldownUp.value else DEFAULT_COOLDOWN_UP
  }

  function CooldownDown(spec: Spec): nat {
    if spec.cooldownDown.Some? then spec.cooldownDown.value else DEFAULT_COOLDOWN_DOWN
  }

  /** Last moves; None is the zero time, which every cooldown has long passed. */
  datatype ScaleState = ScaleState(lastUp: Option<int>, lastDown: Option<int>)

  const NO_MOVES := ScaleState(None, None)

  datatype Move = Up | Down | Hold

  // ----- the mean

  function Sum(cpu: seq<real>): real {
    if cpu == [] then 0.0 else Sum(cpu[..|cpu| - 1]) + cpu[|cpu| - 1]
  }

  function Busy(cpu: seq<real>): seq<real> {
    if cpu == [] then []
    else
      var front, last := Busy(cpu[..|cpu| - 1]), cpu[|cpu| - 1];
      if last == 0.0 then front else front + [last]
  }

  /** Rows at exactly zero are dropped when some row is above zero. */
  function Mean(cpu: seq<real>): real {
    if exists i :: 0 <= i < |cpu| && cpu[i] > 0.0
    then (if Busy(cpu) == [] then 0.0 else Sum(Busy(cpu)) / |Busy(cpu)| as real)
    else if cpu == [] then 0.0
    else Sum(cpu) / |cpu| as real
  }

  lemma OneMoreReplica(cpu: seq<real>, x: real)
    ensures Busy(cpu + [x]) == if x == 0.0 then Busy(cpu) else Busy(cpu) + [x]
    ensures Sum(cpu + [x]) == Sum(cpu) + x && Sum(Busy(cpu) + [x]) == Sum(Busy(cpu)) + x
  {
    assert (cpu + [x])[..|cpu|] == cpu && (Busy(cpu) + [x])[..|Busy(cpu)|] == Busy(cpu);
  }

  lemma NothingKept()
    ensures Busy([]) == [] && Sum([]) == 0.0
  {
  }

  lemma MeanOfKept(cpu: seq<real>, anyBusy: bool)
    requires anyBusy <==> exists i :: 0 <= i < |cpu| && cpu[i] > 0.0
    ensures var kept := if anyBusy then Busy(cpu) else cpu;
            Mean(cpu) == if |kept| == 0 then 0.0 else Sum(kept) / |kept| as real
  {
  }

  /** The rows that report something. */
  function BusyRows(cpu: seq<real>): set<nat> {
    set i: nat | i < |cpu| && cpu[i] != 0.0
  }

  lemma {:induction false} BusyInNumbers(cpu: seq<real>)
    ensures |Busy(cpu)| == |BusyRows(cpu)| && Sum(Busy(cpu)) == Sum(cpu)
  {
    hide Sum, Busy;
    NothingKept();
    if cpu == [] {
      assert BusyRows(cpu) == {};
    } else {
      var n := |cpu| - 1;
      BusyInNumbers(cpu[..n]);
      assert cpu == cpu[..n] + [cpu[n]];
      OneMoreReplica(cpu[..n], cpu[n]);
      OneMoreRow(cpu);
    }
  }

  lemma OneMoreRow(cpu: seq<real>)
    requires cpu != []
    ensures var n := |cpu| - 1; |BusyRows(cpu)| == |BusyRows(cpu[..n])| + if cpu[n] == 0.0 then 0 else 1
  {
    var n := |cpu| - 1;
    assert BusyRows(cpu) == BusyRows(cpu[..n]) + if cpu[n] == 0.0 then {} else {n};
  }

  /** The mean times the rows counted is the sum of all rows; zero rows count only if no row is above zero. */
  lemma MeanInNumbers(cpu: seq<real>)
    ensures var rows := if exists i :: 0 <= i < |cpu| && cpu[i] > 0.0 then |BusyRows(cpu)| else |cpu|;
            if cpu == [] then Mean(cpu) == 0.0 else rows > 0 && Mean(cpu) * rows as real == Sum(cpu)
  {
    hide Sum, Busy, Mean;
    BusyInNumbers(cpu);
    if i :| 0 <= i < |cpu| && cpu[i] > 0.0 {
      assert i in BusyRows(cpu);
    }
    MeanOfKept(cpu, exists i :: 0 <= i < |cpu| && cpu[i] > 0.0);
    NothingKept();
  }

  method MeanCPUPercent(cpu: seq<real>) returns (mean: real)
    ensures mean == Mean(cpu)
  {
    hide Mean, Sum, Busy;
    if |cpu| == 0 {
      MeanOfKept(cpu, false);
      return 0.0;
    }
    var hasNonZero := false;
    var i := 0;
    while i < |cpu|
      invariant 0 <= i <= |cpu|
      invariant !hasNonZero && forall k | 0 <= k < i :: cpu[k] <= 0.0
    {
      if cpu[i] > 0.0 {
        hasNonZero := true;
        break;
      }
      i := i + 1;
    }
    assert hasNonZero <==> exists k :: 0 <= k < |cpu| && cpu[k] > 0.0;
    var sum, count := 0.0, 0;
    NothingKept();
    for j := 0 to |cpu|
      invariant sum == Sum(if hasNonZero then Busy(cpu[..j]) else cpu[..j])
      invariant count == |if hasNonZero then Busy(cpu[..j]) else cpu[..j]|
    {
      assert cpu[..j + 1] == cpu[..j] + [cpu[j]];
      OneMoreReplica(cpu[..j], cpu[j]);
      if hasNonZero && cpu[j] == 0.0 {
        continue;
      }
      sum := sum + cpu[j];
      count := count + 1;
    }
    assert cpu[..|cpu|] == cpu;
    MeanOfKept(cpu, hasNonZero);
    if count == 0 {
      return 0.0;
    }
    mean := sum / count as real;
  }

  // ----- one decision

  function Decide(spec: Spec, mean: real, current: int, st: ScaleState, now: int): Move {
    var target := spec.cpuTarget as real;
    if mean > target * SCALE_UP_FACTOR && current < spec.max then
      if st.lastUp.Some? && now - st.lastUp.value < CooldownUp(spec) then Hold else Up
    else if mean < target * SCALE_DOWN_FACTOR && current > spec.min then
      if st.lastDown.Some? && now - st.lastDown.value < CooldownDown(spec) then Hold else Down
    else Hold
  }

  // The rule in numbers: a tenth above target scales up, three tenths below scales down.

  /** The last move that way, if any, is at least its cooldown ago. */
  predicate Rested(last: Option<int>, cooldown: Option<nat>, usual: nat, now: int) {
    last.Some? ==> now - last.value >= if cooldown.Some? then cooldown.value else usual
  }

  predicate CallsUp(spec: Spec, mean: real, current: int, st: ScaleState, now: int) {
    && mean > 1.1 * spec.cpuTarget as real && current < spec.max
    && Rested(st.lastUp, spec.cooldownUp, 30_000_000_000, now)
  }

  predicate CallsDown(spec: Spec, mean: real, current: int, st: ScaleState, now: int) {
    && mean < 0.7 * spec.cpuTarget as real && current > spec.min
    && Rested(st.lastDown, spec.cooldownDown, 300_000_000_000, now)
  }

  lemma DecideInNumbers(spec: Spec, mean: real, current: int, st: ScaleState, now: int)
    ensures Decide(spec, mean, current, st, now) == Up <==> CallsUp(spec, mean, current, st, now)
    ensures Decide(spec, mean, current, st, now) == Down <==> CallsDown(spec, mean, current, st, now)
  {
    var t := spec.cpuTarget as real;
    assert t * SCALE_UP_FACTOR == 1.1 * t && t * SCALE_DOWN_FACTOR == 0.7 * t;
  }

  function Moved(current: int, move: Move): int {
    match move
    case Up => current + 1
    case Down => current - 1
    case Hold => current
  }

  function Noted(st: ScaleState, move: Move, now: int): ScaleState {
    match move
    case Up => st.(lastUp := Some(now))
    case Down => st.(lastDown := Some(now))
    case Hold => st
  }

  function Key(scope: string, name: string): string {
    "deployment/" + scope + "/" + name
  }

  /** Scopes hold no slash, so two deployments never share a cooldown entry. */
  lemma KeyInjective(scope: string, name: string, scope': string, name': string)
    requires '/' !in scope && '/' !in scope'
    requires Key(scope, name) == Key(scope', name')
    ensures scope == scope' && name == name'
  {
    var head := "deployment/";
    assert Key(scope, name)[|head|..] == scope + ['/'] + name;
    assert Key(scope', name')[|head|..] == scope' + ['/'] + name';
    IndexOfAt(scope, '/', name);
    IndexOfAt(scope', '/', name');
    var s := scope + ['/'] + name;
    assert s[..|scope|] == scope && s[|scope| + 1..] == name;
    assert s[..|scope'|] == scope' && s[|scope'| + 1..] == name';
  }

  class Autoscaler {
    /** Cooldown timestamps per deployment; grows, never pruned. */
    var state: map<string, ScaleState>
    /** The stored specs, by key. */
    var specs: map<string, map<string, Json>>

    constructor ()
      ensures state == map[] && specs == map[]
    {
      state, specs := map[], map[];
    }

    function LoadState(scope: string, name: string): ScaleState
      reads this
    {
      if Key(scope, name) in state then state[Key(scope, name)] else NO_MOVES
    }

    /** Rewrites one field of a stored spec; a deployment deleted meanwhile is a silent success. */
    method SetReplicas(scope: string, name: string, replicas: int) returns (ok: bool)
      modifies this`specs
      ensures var k := Key(scope, name);
              specs == if ok && k in old(specs)
                       then old(specs)[k := old(specs)[k]["replicas" := Num(replicas as real)]]
                       else old(specs)
    {
      var k := Key(scope, name);
      if k !in specs {
        return true;
      }
      var spec := specs[k]["replicas" := Num(replicas as real)];
      ok := *;  // the store may refuse
      if ok {
        specs := specs[k := spec];
      }
    }

    /** One deployment, one tick: `cpu` holds one row per running pod. */
    method EvaluateOne(scope: string, name: string, spec: Spec, cpu: seq<real>, now: int) returns (ok: bool)
      modifies this
      ensures var k, st := Key(scope, name), old(LoadState(scope, name));
              var up := cpu != [] && CallsUp(spec, Mean(cpu), |cpu|, st, now);
              var down := cpu != [] && CallsDown(spec, Mean(cpu), |cpu|, st, now);
              && !(up && down)
              && (!up && !down ==> ok)
              && state == (if ok && up then old(state)[k := st.(lastUp := Some(now))]
                           else if ok && down then old(state)[k := st.(lastDown := Some(now))]
                           else old(state))
              && specs == if ok && (up || down) && k in old(specs)
                          then old(specs)[k := old(specs)[k]["replicas" :=
                                 Num((if up then |cpu| + 1 else |cpu| - 1) as real)]]
                          else old(specs)
    {
      if |cpu| > 0 {
        DecideInNumbers(spec, Mean(cpu), |cpu|, LoadState(scope, name), now);
      }
      if |cpu| == 0 {
        return true;
      }
      var mean := MeanCPUPercent(cpu);
      var current := |cpu|;
      var target := spec.cpuTarget as real;
      var st := LoadState(scope, name);
      if mean > target * SCALE_UP_FACTOR && current < spec.max {
        if st.lastUp.Some? && now - st.lastUp.value < CooldownUp(spec) {
          return true;
        }
        var next := current + 1;
        if next > spec.max {
          next := spec.max;
        }
        ok := SetReplicas(scope, name, next);
        if !ok {
          return;
        }
        state := state[Key(scope, name) := st.(lastUp := Some(now))];
      } else if mean < target * SCALE_DOWN_FACTOR && current > spec.min {
        if st.lastDown.Some? && now - st.lastDown.value < CooldownDown(spec) {
          return true;
        }
        var next := current - 1;
        if next < spec.min {
          next := spec.min;
        }
        ok := SetReplicas(scope, name, next);
        if !ok {
          return;
        }
        state := state[Key(scope, name) := st.(lastDown := Some(now))];
      } else {
        ok := true;
      }
    }
  }
}
