/**
 The three places that count the changes of a plan: the short-circuit of
 apply, the exit code of diff, and the renderer, which diffs assets redacted.
 */
module PlanCounts {
  import opened Json
  import opened Diff
  import opened DiffLaws
  import opened Outcomes
  import opened Redaction

  datatype Manifest = Manifest(kind: string, spec: Json)

  datatype Plan = Plan(applied: seq<Option<Manifest>>, current: seq<Option<Manifest>>, pruned: seq<string>)

  function CurrentAt(plan: Plan, i: nat): Option<Manifest> {
    if i < |plan.current| then plan.current[i] else None
  }

  /** A resource with a counterpart in the cluster. */
  predicate Paired(plan: Plan, i: nat) {
    i < |plan.applied| && plan.applied[i].Some? && CurrentAt(plan, i).Some?
  }

  /** Resource i has no counterpart, or a spec that differs from it. */
  ghost predicate Pending(plan: Plan, i: nat) {
    New(plan, i) || (Paired(plan, i) &&
      Changed(plan.applied[i].value.spec, CurrentAt(plan, i).value.spec))
  }

  predicate New(plan: Plan, i: nat) {
    i < |plan.applied| && plan.applied[i].Some? && CurrentAt(plan, i).None?
  }

  function Shown(d: Digests, kind: string, spec: Json): Json {
    if kind == "asset" then Redacted(d, spec) else spec
  }

  /** Resource i has a counterpart that differs as shown. */
  ghost predicate ShownModified(d: Digests, plan: Plan, i: nat) {
    Paired(plan, i) &&
    var kind := plan.applied[i].value.kind;
    Changed(Shown(d, kind, plan.applied[i].value.spec), Shown(d, kind, CurrentAt(plan, i).value.spec))
  }

  // ----- the resources each counter counts, among the first n

  ghost function PendingSet(plan: Plan, n: nat): set<nat> {
    set i: nat | i < n && Pending(plan, i)
  }

  ghost function NewSet(plan: Plan, n: nat): set<nat> {
    set i: nat | i < n && New(plan, i)
  }

  ghost function ModifiedSet(d: Digests, plan: Plan, n: nat): set<nat> {
    set i: nat | i < n && ShownModified(d, plan, i)
  }

  lemma NonePending(plan: Plan)
    ensures PendingSet(plan, 0) == {}
  {
  }

  lemma NoneYet(plan: Plan, d: Digests)
    ensures NewSet(plan, 0) == ModifiedSet(d, plan, 0) == {}
  {
  }

  lemma OnePendingMore(plan: Plan, n: nat)
    ensures |PendingSet(plan, n + 1)| == |PendingSet(plan, n)| + (if Pending(plan, n) then 1 else 0)
  {
    hide Pending;
    assert PendingSet(plan, n + 1) == PendingSet(plan, n) + (if Pending(plan, n) then {n} else {});
  }

  lemma OneNewMore(plan: Plan, n: nat)
    ensures |NewSet(plan, n + 1)| == |NewSet(plan, n)| + (if New(plan, n) then 1 else 0)
  {
    hide New;
    assert NewSet(plan, n + 1) == NewSet(plan, n) + (if New(plan, n) then {n} else {});
  }

  lemma OneModifiedMore(d: Digests, plan: Plan, n: nat)
    ensures |ModifiedSet(d, plan, n + 1)| == |ModifiedSet(d, plan, n)| + (if ShownModified(d, plan, n) then 1 else 0)
  {
    hide ShownModified;
    assert ModifiedSet(d, plan, n + 1) == ModifiedSet(d, plan, n) + (if ShownModified(d, plan, n) then {n} else {});
  }

  lemma DiffIsChange(out: seq<FieldChange>, l: Json, r: Json)
    requires IsDiff(out, l, r)
    ensures out != [] <==> Changed(l, r)
  {
    EmptyIffSilent(out, l, r);
  }

  // ----- the counters

  method PlanChangeCount(plan: Plan) returns (changes: nat)
    ensures changes == |plan.pruned| + |PendingSet(plan, |plan.applied|)|
  {
    hide PendingSet, Changed, IsDiff;
    changes := |plan.pruned|;
    NonePending(plan);
    for i := 0 to |plan.applied|
      invariant changes == |plan.pruned| + |PendingSet(plan, i)|
    {
      OnePendingMore(plan, i);
      if plan.applied[i].None? { continue; }
      var desired, current := plan.applied[i].value, CurrentAt(plan, i);
      var differs := current.None?;
      if current.Some? {
        var out := DiffSpec(desired.spec, current.value.spec);
        DiffIsChange(out, desired.spec, current.value.spec);
        differs := |out| > 0;
      }
      if differs { changes := changes + 1; }
    }
  }

  /** Whether the command exits with the changes-pending code. */
  method DetailedExitcodeFromPlan(enabled: bool, plan: Plan) returns (signal: bool)
    ensures signal <==> enabled && (plan.pruned != [] || exists i: nat :: Pending(plan, i))
  {
    hide Changed, IsDiff;
    if !enabled { return false; }
    var changes := |plan.pruned|;
    for i := 0 to |plan.applied|
      invariant changes >= |plan.pruned|
      invariant changes > 0 <==> plan.pruned != [] || exists j: nat | j < i :: Pending(plan, j)
    {
      if plan.applied[i].None? { continue; }
      var desired, current := plan.applied[i].value, CurrentAt(plan, i);
      var differs := current.None?;
      if current.Some? {
        var out := DiffSpec(desired.spec, current.value.spec);
        DiffIsChange(out, desired.spec, current.value.spec);
        differs := |out| > 0;
      }
      assert differs <==> Pending(plan, i);
      if differs { changes := changes + 1; }
    }
    signal := changes > 0;
  }

  method RenderApplyPlan(d: Digests, plan: Plan) returns (added: nat, modified: nat)
    ensures added == |NewSet(plan, |plan.applied|)|
    ensures modified == |ModifiedSet(d, plan, |plan.applied|)|
  {
    hide NewSet, ModifiedSet, Changed, IsDiff, Redacted;
    added, modified := 0, 0;
    NoneYet(plan, d);
    for i := 0 to |plan.applied|
      invariant added == |NewSet(plan, i)| && modified == |ModifiedSet(d, plan, i)|
    {
      OneNewMore(plan, i);
      OneModifiedMore(d, plan, i);
      if plan.applied[i].None? { continue; }
      var desired, current := plan.applied[i].value, CurrentAt(plan, i);
      var desiredSpec, currentSpec := desired.spec, if current.Some? then current.value.spec else Null;
      if desired.kind == "asset" {
        desiredSpec := RedactAssetContent(d, desiredSpec);
        currentSpec := RedactAssetContent(d, currentSpec);
      }
      if current.None? {
        added := added + 1;
        continue;
      }
      var changes := DiffSpec(desiredSpec, currentSpec);
      DiffIsChange(changes, desiredSpec, currentSpec);
      if |changes| == 0 { continue; }
      modified := modified + 1;
    }
  }

  // ----- they agree

  /** The command signals changes exactly when the count is positive. */
  lemma SignalIffCounted(plan: Plan)
    ensures (plan.pruned != [] || exists i: nat :: Pending(plan, i))
       <==> |plan.pruned| + |PendingSet(plan, |plan.applied|)| > 0
  {
    var pending := PendingSet(plan, |plan.applied|);
    if i: nat :| Pending(plan, i) {
      assert i in pending;
    }
    if |pending| > 0 {
      var i :| i in pending;
    }
  }

  /** Resource i counts in both or in neither. */
  ghost predicate SameVerdict(d: Digests, plan: Plan, i: nat) {
    Pending(plan, i) <==> New(plan, i) || ShownModified(d, plan, i)
  }

  lemma SumOfParts(d: Digests, plan: Plan, n: nat)
    ensures |NewSet(plan, n) + ModifiedSet(d, plan, n)| == |NewSet(plan, n)| + |ModifiedSet(d, plan, n)|
  {
    assert NewSet(plan, n) !! ModifiedSet(d, plan, n);
  }

  lemma SameVerdictsSameCount(d: Digests, plan: Plan)
    requires forall i: nat | i < |plan.applied| :: SameVerdict(d, plan, i)
    ensures |PendingSet(plan, |plan.applied|)|
         == |NewSet(plan, |plan.applied|)| + |ModifiedSet(d, plan, |plan.applied|)|
  {
    var n := |plan.applied|;
    SumOfParts(d, plan, n);
    forall i: nat ensures i in PendingSet(plan, n) <==> i in NewSet(plan, n) + ModifiedSet(d, plan, n) {
      assert i < n ==> SameVerdict(d, plan, i);
    }
    assert PendingSet(plan, n) == NewSet(plan, n) + ModifiedSet(d, plan, n);
  }

  predicate HasAssets(plan: Plan) {
    exists i: nat | i < |plan.applied| :: plan.applied[i].Some? && plan.applied[i].value.kind == "asset"
  }

  /** Without assets the short-circuit counts exactly what the renderer shows. */
  lemma CountersAgree(d: Digests, plan: Plan)
    requires !HasAssets(plan)
    ensures |PendingSet(plan, |plan.applied|)|
         == |NewSet(plan, |plan.applied|)| + |ModifiedSet(d, plan, |plan.applied|)|
  {
    SameVerdictsSameCount(d, plan);
  }

  predicate PairedAsset(plan: Plan, i: nat) {
    Paired(plan, i) && plan.applied[i].value.kind == "asset"
  }

  /** An asset without a plain line that gets one: some file entry clashes with its counterpart. */
  ghost predicate Adds(d: Digests, plan: Plan, i: nat) {
    PairedAsset(plan, i) &&
    var l, r := plan.applied[i].value.spec, CurrentAt(plan, i).value.spec;
    !Changed(l, r) && exists k :: EntryAdds(d, Entry(l, k), Entry(r, k))
  }

  /** An asset whose lines all lie in its file entries, none of which shows as redacted. */
  ghost predicate Hides(d: Digests, plan: Plan, i: nat) {
    PairedAsset(plan, i) &&
    var l, r := plan.applied[i].value.spec, CurrentAt(plan, i).value.spec;
    Changed(l, r) && !ChangedElsewhere(l, r) && forall k :: !EntryShows(d, Entry(l, k), Entry(r, k))
  }

  ghost function AddsSet(d: Digests, plan: Plan, n: nat): set<nat> {
    set i: nat | i < n && Adds(d, plan, i)
  }

  ghost function HidesSet(d: Digests, plan: Plan, n: nat): set<nat> {
    set i: nat | i < n && Hides(d, plan, i)
  }

  /** The renderer counts what the short-circuit counts, less the hidden and with the added. */
  lemma VerdictsSplit(d: Digests, plan: Plan, i: nat)
    ensures New(plan, i) || ShownModified(d, plan, i) <==> Adds(d, plan, i) || (Pending(plan, i) && !Hides(d, plan, i))
    ensures Adds(d, plan, i) ==> !Pending(plan, i)
    ensures Hides(d, plan, i) ==> Pending(plan, i)
  {
    hide Changed, ChangedElsewhere, EntryAdds, EntryShows, Redacted;
    if PairedAsset(plan, i) {
      var l, r := plan.applied[i].value.spec, CurrentAt(plan, i).value.spec;
      RedactionShowsIff(d, l, r);
      if !Changed(l, r) { RedactionAddsIff(d, l, r); }
    }
  }

  lemma CountsBalance(plain: set<nat>, shown: set<nat>, more: set<nat>, fewer: set<nat>)
    requires more !! plain && fewer <= plain && shown == more + (plain - fewer)
    ensures |plain| + |more| == |shown| + |fewer|
  {
    assert plain == fewer + (plain - fewer);
    assert |plain| == |fewer| + |plain - fewer|;
  }

  /** For every plan the two counts differ by the assets that gain a line and those that lose theirs. */
  lemma CountersBalance(d: Digests, plan: Plan)
    ensures |PendingSet(plan, |plan.applied|)| + |AddsSet(d, plan, |plan.applied|)|
         == |NewSet(plan, |plan.applied|)| + |ModifiedSet(d, plan, |plan.applied|)|
            + |HidesSet(d, plan, |plan.applied|)|
  {
    hide New, ShownModified, Adds, Hides, Pending;
    var n := |plan.applied|;
    SumOfParts(d, plan, n);
    var plain, shown := PendingSet(plan, n), NewSet(plan, n) + ModifiedSet(d, plan, n);
    var more, fewer := AddsSet(d, plan, n), HidesSet(d, plan, n);
    forall i: nat
      ensures i in shown <==> i in more + (plain - fewer)
      ensures i in more ==> i !in plain
      ensures i in fewer ==> i in plain
    {
      VerdictsSplit(d, plan, i);
    }
    assert shown == more + (plain - fewer);
    CountsBalance(plain, shown, more, fewer);
  }

  /** The short-circuit counts no fewer exactly when no more assets gain a line than lose theirs. */
  lemma CounterNeverSmaller(d: Digests, plan: Plan)
    ensures |PendingSet(plan, |plan.applied|)|
         >= |NewSet(plan, |plan.applied|)| + |ModifiedSet(d, plan, |plan.applied|)|
       <==> |AddsSet(d, plan, |plan.applied|)| <= |HidesSet(d, plan, |plan.applied|)|
    ensures (forall i: nat | i < |plan.applied| :: !Adds(d, plan, i)) ==>
      |PendingSet(plan, |plan.applied|)| >= |NewSet(plan, |plan.applied|)| + |ModifiedSet(d, plan, |plan.applied|)|
  {
    hide Adds, Hides, PendingSet, NewSet, ModifiedSet;
    CountersBalance(d, plan);
    if forall i: nat | i < |plan.applied| :: !Adds(d, plan, i) {
      assert AddsSet(d, plan, |plan.applied|) == {};
    }
  }

  /** Every paired asset's specs put no object against a scalar or an array. */
  ghost predicate CompatibleAssets(plan: Plan) {
    forall i: nat | PairedAsset(plan, i) ::
      Compatible(plan.applied[i].value.spec, CurrentAt(plan, i).value.spec)
  }

  /** Compatible assets never gain a line, so the short-circuit counts no fewer. */
  lemma CompatibleAssetsAddNothing(d: Digests, plan: Plan)
    requires CompatibleAssets(plan)
    ensures |PendingSet(plan, |plan.applied|)|
         >= |NewSet(plan, |plan.applied|)| + |ModifiedSet(d, plan, |plan.applied|)|
  {
    hide PendingSet, NewSet, ModifiedSet, EntryAdds, Redacted, Compatible, Changed;
    forall i: nat | i < |plan.applied| ensures !Adds(d, plan, i) {
      if Adds(d, plan, i) {
        RedactionAddsIff(d, plan.applied[i].value.spec, CurrentAt(plan, i).value.spec);
        RedactionAddsNothing(d, plan.applied[i].value.spec, CurrentAt(plan, i).value.spec);
        assert false;
      }
    }
    CounterNeverSmaller(d, plan);
  }

  /** The counts are equal exactly when as many assets gain a line as lose theirs. */
  lemma CountersAgreeIff(d: Digests, plan: Plan)
    ensures |PendingSet(plan, |plan.applied|)|
         == |NewSet(plan, |plan.applied|)| + |ModifiedSet(d, plan, |plan.applied|)|
       <==> |AddsSet(d, plan, |plan.applied|)| == |HidesSet(d, plan, |plan.applied|)|
  {
    hide AddsSet, HidesSet, PendingSet, NewSet, ModifiedSet;
    CountersBalance(d, plan);
  }

  /** The paired assets are tidy, and no two contents compared collide. */
  ghost predicate CollisionFreeAssets(d: Digests, plan: Plan) {
    forall i: nat | PairedAsset(plan, i) ::
      var l, r := plan.applied[i].value.spec, CurrentAt(plan, i).value.spec;
      Tidy(l) && Tidy(r) && CollisionFree(d, l, r)
  }

  /** They are when no two contents compared in the plan collide and file entries carry nothing else. */
  lemma CountersAgreeCollisionFree(d: Digests, plan: Plan)
    requires CompatibleAssets(plan) && CollisionFreeAssets(d, plan)
    ensures |PendingSet(plan, |plan.applied|)|
         == |NewSet(plan, |plan.applied|)| + |ModifiedSet(d, plan, |plan.applied|)|
  {
    hide Changed, Redacted, CollisionFree, Tidy, Compatible;
    forall i: nat | i < |plan.applied| ensures SameVerdict(d, plan, i) {
      if PairedAsset(plan, i) {
        var l, r := plan.applied[i].value.spec, CurrentAt(plan, i).value.spec;
        if Changed(l, r) { CollisionFreeHidesNothing(d, l, r); }
        if Changed(Redacted(d, l), Redacted(d, r)) { RedactionAddsNothing(d, l, r); }
      }
    }
    SameVerdictsSameCount(d, plan);
  }

  /** It can count fewer: one asset with a file entry against one whose _source is {}. */
  lemma RedactionCanAddALine(d: Digests)
    ensures exists plan: Plan :: |PendingSet(plan, |plan.applied|)| == 0 && |ModifiedSet(d, plan, |plan.applied|)| == 1
  {
    hide PendingSet, NewSet, ModifiedSet, Pending, ShownModified, Changed, Redacted, Single;
    var l, r := Single(SourceOnly(Str("file"))), Single(SourceOnly(Obj(map[])));
    ClashAddsLine(d);
    var plan := Plan([Some(Manifest("asset", l))], [Some(Manifest("asset", r))], []);
    NoneYet(plan, d);
    NonePending(plan);
    OnePendingMore(plan, 0);
    OneModifiedMore(d, plan, 0);
    VerdictsOfPair(d, plan);
    assert |PendingSet(plan, |plan.applied|)| == 0 && |ModifiedSet(d, plan, |plan.applied|)| == 1;
  }

  lemma VerdictsOfPair(d: Digests, plan: Plan)
    requires Paired(plan, 0)
    ensures Pending(plan, 0) <==> Changed(plan.applied[0].value.spec, CurrentAt(plan, 0).value.spec)
    ensures plan.applied[0].value.kind == "asset" ==>
      (ShownModified(d, plan, 0) <==>
        Changed(Redacted(d, plan.applied[0].value.spec), Redacted(d, CurrentAt(plan, 0).value.spec)))
  {
  }
}
