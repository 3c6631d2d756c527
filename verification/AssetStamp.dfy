/**
 Stamping the digests of the assets a spec uses into the spec itself.
 */
module AssetStamp {
  import opened Outcomes
  import opened Text
  import opened Json
  import opened AssetRefs
  import opened Order

  // ----- which references a spec uses

  predicate Skipped(k: string) {
    HasPrefix(k, "_") || k == "depends_on"
  }

  /** Some authored text of v, at any depth, contains the reference. */
  ghost predicate Mentions(v: Json, r: AssetRef)
    decreases v
  {
    match v
    case Str(s) => r in Refs(s)
    case Arr(items) => exists i | 0 <= i < |items| :: Mentions(items[i], r)
    case Obj(m) => exists k | k in m && !Skipped(k) :: Mentions(m[k], r)
    case _ => false
  }

  lemma {:induction false} MentionsAreValid(v: Json, r: AssetRef)
    requires Mentions(v, r)
    ensures ValidRef(r) && Separable(r)
    decreases v
  {
    match v
    case Str(s) =>
      RefsAreValid(s);
      FormatHas(r);
    case Arr(items) =>
      var i :| 0 <= i < |items| && Mentions(items[i], r);
      MentionsAreValid(items[i], r);
    case Obj(m) =>
      var k :| k in m && !Skipped(k) && Mentions(m[k], r);
      MentionsAreValid(m[k], r);
  }

  method WalkSpecForRefs(v: Json, out: seq<AssetRef>) returns (res: seq<AssetRef>)
    ensures forall r :: r in res <==> r in out || Mentions(v, r)
    decreases v
  {
    res := out;
    match v
    case Str(s) =>
      var found := FindAllRefs(s);
      res := res + found;
    case Arr(items) =>
      for n := 0 to |items|
        invariant forall r :: r in res <==> r in out || exists i | 0 <= i < n :: Mentions(items[i], r)
      {
        res := WalkSpecForRefs(items[n], res);
      }
    case Obj(m) =>
      var left := m.Keys;
      while left != {}
        invariant left <= m.Keys
        invariant forall r :: r in res <==>
                    r in out || exists k | k in m && k !in left && !Skipped(k) :: Mentions(m[k], r)
        decreases |left|
      {
        var k :| k in left;
        if !Skipped(k) {
          res := WalkSpecForRefs(m[k], res);
        }
        left := left - {k};
      }
    case _ =>
  }

  /** The entries of depends_on.assets. */
  function Deps(fields: map<string, Json>): seq<Json> {
    var dep := Get(fields, "depends_on");
    if dep.Obj? && Get(dep.fields, "assets").Arr? then Get(dep.fields, "assets").items else []
  }

  function DepRef(v: Json): Option<AssetRef> {
    if v.Str? then ParseDependsOnRef(v.s) else None
  }

  /** Some entry of depends_on.assets is no reference. */
  predicate BadDeps(spec: Json) {
    spec.Obj? && exists i | 0 <= i < |Deps(spec.fields)| :: DepRef(Deps(spec.fields)[i]).None?
  }

  ghost predicate Used(fields: map<string, Json>, r: AssetRef) {
    Mentions(Obj(fields), r) || exists i | 0 <= i < |Deps(fields)| :: DepRef(Deps(fields)[i]) == Some(r)
  }

  lemma UsedIsSeparable(fields: map<string, Json>, r: AssetRef)
    requires Used(fields, r)
    ensures Separable(r)
  {
    if Mentions(Obj(fields), r) {
      MentionsAreValid(Obj(fields), r);
    } else {
      var i :| 0 <= i < |Deps(fields)| && DepRef(Deps(fields)[i]) == Some(r);
      ParseIffFormat(Deps(fields)[i].s, r);
    }
  }

  // ----- where digests come from

  function AppID(scope: string, name: string): string {
    if scope == "" then name else scope + "-" + name
  }

  /** The digests of this apply, and those the status store holds per application id. */
  datatype Sources = Sources(batch: map<AssetRef, string>, status: map<string, map<string, string>>)

  function Resolve(src: Sources, r: AssetRef): Option<string> {
    var id := AppID(r.scope, r.name);
    if r in src.batch then Some(src.batch[r])
    else if id in src.status && r.key in src.status[id] && src.status[id][r.key] != ""
    then Some(src.status[id][r.key])
    else None
  }

  /** The digest of a reference: what this apply uploads goes before what was applied earlier. */
  predicate HasDigest(src: Sources, r: AssetRef, digest: string) {
    if r in src.batch then digest == src.batch[r]
    else
      var id := AppID(r.scope, r.name);
      digest != "" && id in src.status && r.key in src.status[id] && digest == src.status[id][r.key]
  }

  lemma ResolvesIff(src: Sources, r: AssetRef, digest: string)
    ensures Resolve(src, r) == Some(digest) <==> HasDigest(src, r, digest)
  {
  }

  lemma NoneResolves(src: Sources, r: AssetRef)
    ensures Resolve(src, r).None? <==> forall digest :: !HasDigest(src, r, digest)
  {
    if Resolve(src, r).Some? { ResolvesIff(src, r, Resolve(src, r).value); }
  }

  // ----- the stamped spec

  const STAMP := "_asset_digests"

  /** d holds the digest of every used reference, and nothing else. */
  ghost predicate IsDigests(d: map<string, Json>, fields: map<string, Json>, src: Sources) {
    && (forall f :: f in d <==> exists r :: Used(fields, r) && f == FormatAssetRef(r))
    && (forall r | Used(fields, r) && Resolve(src, r).Some? && FormatAssetRef(r) in d ::
          d[FormatAssetRef(r)] == Str(Resolve(src, r).value))
  }

  ghost predicate Stampable(spec: Option<Json>, src: Sources) {
    match spec
    case None => true
    case Some(Null) => true
    case Some(Obj(fields)) =>
      && (forall i | 0 <= i < |Deps(fields)| :: DepRef(Deps(fields)[i]).Some?)
      && (forall r | Used(fields, r) :: Resolve(src, r).Some?)
    case _ => false
  }

  /** after is before with its digests stamped, and otherwise the same. */
  ghost predicate IsStamped(before: Option<Json>, after: Option<Json>, src: Sources) {
    match before
    case Some(Obj(fields)) =>
      && after.Some? && after.value.Obj?
      && after.value.fields - {STAMP} == fields - {STAMP}
      && (if exists r :: Used(fields, r)
          then STAMP in after.value.fields && after.value.fields[STAMP].Obj?
               && IsDigests(after.value.fields[STAMP].fields, fields, src)
          else STAMP !in after.value.fields)
    case _ => after == before
  }

  // ----- stamping

  datatype StampError = BadSpec | BadDependency | Unresolved(ref: string)

  class Manifest {
    const kind: string
    const scope: string
    const name: string
    var spec: Option<Json>

    constructor (kind: string, scope: string, name: string, spec: Option<Json>)
      ensures this.kind == kind && this.scope == scope && this.name == name && this.spec == spec
    {
      this.kind, this.scope, this.name, this.spec := kind, scope, name, spec;
    }
  }

  method CollectDeps(fields: map<string, Json>, refs: seq<AssetRef>) returns (res: seq<AssetRef>, ok: bool)
    ensures ok <==> forall i | 0 <= i < |Deps(fields)| :: DepRef(Deps(fields)[i]).Some?
    ensures ok ==> forall r :: r in res <==>
              r in refs || exists i | 0 <= i < |Deps(fields)| :: DepRef(Deps(fields)[i]) == Some(r)
  {
    res, ok := refs, true;
    var deps := Deps(fields);
    for n := 0 to |deps|
      invariant forall i | 0 <= i < n :: DepRef(deps[i]).Some?
      invariant forall r :: r in res <==> r in refs || exists i | 0 <= i < n :: DepRef(deps[i]) == Some(r)
    {
      if !deps[n].Str? { return res, false; }
      var ref := ParseDependsOnRef(deps[n].s);
      if ref.None? { return res, false; }
      res := res + [ref.value];
    }
  }

  /** digests holds the digest of exactly these references. */
  ghost predicate Holds(digests: map<string, Json>, refs: seq<AssetRef>, src: Sources) {
    && (forall r | r in refs :: Resolve(src, r).Some?)
    && (forall f :: f in digests <==> exists r :: r in refs && f == FormatAssetRef(r))
    && (forall r | r in refs ::
          FormatAssetRef(r) in digests && digests[FormatAssetRef(r)] == Str(Resolve(src, r).value))
  }

  lemma HoldsOneMore(digests: map<string, Json>, refs: seq<AssetRef>, r: AssetRef, src: Sources)
    requires Holds(digests, refs, src) && Resolve(src, r).Some?
    requires Separable(r) && forall x | x in refs :: Separable(x)
    ensures Holds(digests[FormatAssetRef(r) := Str(Resolve(src, r).value)], refs + [r], src)
    ensures FormatAssetRef(r) in digests ==> Holds(digests, refs + [r], src)
  {
    hide FormatAssetRef, Separable, Resolve;
    var f := FormatAssetRef(r);
    forall x | x in refs && FormatAssetRef(x) == f ensures x == r {
      FormatInjective(x, r);
    }
    var more := digests[f := Str(Resolve(src, r).value)];
    forall g ensures g in more <==> exists x :: x in refs + [r] && g == FormatAssetRef(x) {
      if g == f {
        assert r in refs + [r];
      } else if g in digests {
        var x :| x in refs && g == FormatAssetRef(x);
        assert x in refs + [r];
      }
    }
    if f in digests {
      assert digests[f] == Str(Resolve(src, r).value);
      assert more == digests;
    }
  }

  /** The digest of every reference, or the first that has none. */
  method ResolveAll(refs: seq<AssetRef>, src: Sources)
    returns (digests: map<string, Json>, missing: Option<AssetRef>)
    requires forall r | r in refs :: Separable(r)
    ensures missing.Some? ==> missing.value in refs && forall digest :: !HasDigest(src, missing.value, digest)
    ensures missing.None? ==> Holds(digests, refs, src) && HoldsDigests(digests, refs, src)
  {
    hide FormatAssetRef, Separable, Holds;
    digests, missing := map[], None;
    NothingHeld(src);
    for n := 0 to |refs|
      invariant Holds(digests, refs[..n], src)
    {
      var ref := refs[n];
      var formatted := FormatAssetRef(ref);
      assert refs[..n + 1] == refs[..n] + [ref];
      if formatted in digests {
        AlreadyResolved(digests, refs[..n], ref, src);
        HoldsOneMore(digests, refs[..n], ref, src);
        continue;
      }
      if Resolve(src, ref).Some? { HoldsOneMore(digests, refs[..n], ref, src); }
      if ref in src.batch {
        digests := digests[formatted := Str(src.batch[ref])];
        continue;
      }
      var id := AppID(ref.scope, ref.name);
      if id in src.status {
        var files := src.status[id];
        if ref.key in files && files[ref.key] != "" {
          digests := digests[formatted := Str(files[ref.key])];
          continue;
        }
      }
      return digests, Some(ref);
    }
    assert refs[..|refs|] == refs;
    HeldAreDigests(digests, refs, src);
  }

  /** Every reference's entry is its digest. */
  ghost predicate HoldsDigests(digests: map<string, Json>, refs: seq<AssetRef>, src: Sources) {
    forall r | r in refs ::
      FormatAssetRef(r) in digests && digests[FormatAssetRef(r)].Str?
      && HasDigest(src, r, digests[FormatAssetRef(r)].s)
  }

  lemma HeldAreDigests(digests: map<string, Json>, refs: seq<AssetRef>, src: Sources)
    requires Holds(digests, refs, src)
    ensures HoldsDigests(digests, refs, src)
  {
    hide FormatAssetRef, Resolve, HasDigest;
    forall r | r in refs ensures HasDigest(src, r, digests[FormatAssetRef(r)].s) {
      ResolvesIff(src, r, digests[FormatAssetRef(r)].s);
    }
  }

  lemma NothingHeld(src: Sources)
    ensures Holds(map[], [], src)
  {
  }

  lemma AlreadyResolved(digests: map<string, Json>, refs: seq<AssetRef>, r: AssetRef, src: Sources)
    requires Holds(digests, refs, src) && FormatAssetRef(r) in digests
    requires Separable(r) && forall x | x in refs :: Separable(x)
    ensures Resolve(src, r).Some?
  {
    var x :| x in refs && FormatAssetRef(r) == FormatAssetRef(x);
    FormatInjective(r, x);
  }

  method StampConsumerSpec(m: Manifest, src: Sources) returns (err: Option<StampError>)
    modifies m
    ensures err.None? <==> Stampable(old(m.spec), src)
    ensures err.None? ==> IsStamped(old(m.spec), m.spec, src)
    ensures err.None? && old(m.spec).Some? && old(m.spec.value).Obj? ==>
              m.spec.Some? && m.spec.value.Obj? &&
              forall r | Used(old(m.spec.value.fields), r) :: CarriesDigest(m.spec.value.fields, r, src)
    ensures err.Some? ==> m.spec == old(m.spec)
    ensures err == Some(BadSpec) <==> old(m.spec).Some? && !old(m.spec.value).Null? && !old(m.spec.value).Obj?
    ensures err == Some(BadDependency) <==> (old(m.spec).Some? && BadDeps(old(m.spec.value)))
    ensures err.Some? && err.value.Unresolved? ==>
              old(m.spec).Some? && old(m.spec.value).Obj? &&
              exists r :: Used(old(m.spec.value.fields), r) && Resolve(src, r).None?
                       && err.value.ref == FormatAssetRef(r)
  {
    hide Used, Mentions, Deps, DepRef, Resolve, Holds, IsDigests, FormatAssetRef, Separable;
    hide HasDigest, HoldsDigests, CarriesDigest;
    if m.spec.None? || m.spec.value.Null? { return None; }
    if !m.spec.value.Obj? { return Some(BadSpec); }
    ghost var authored := m.spec.value.fields;
    var spec := m.spec.value.fields - {STAMP};
    DroppingTheStamp(authored);
    var refs := WalkSpecForRefs(Obj(spec), []);
    ghost var mentioned := refs;
    var ok;
    refs, ok := CollectDeps(spec, refs);
    if !ok { return Some(BadDependency); }
    CollectedAllUsed(spec, mentioned, refs);
    if |refs| == 0 {
      m.spec := Some(Obj(spec));
      return None;
    }
    assert refs[0] in refs;
    forall r | r in refs ensures Separable(r) { UsedIsSeparable(spec, r); }
    var digests, missing := ResolveAll(refs, src);
    if missing.Some? {
      NoneResolves(src, missing.value);
      return Some(Unresolved(FormatAssetRef(missing.value)));
    }
    HeldIsDigests(digests, refs, authored, src);
    m.spec := Some(Obj(spec[STAMP := Obj(digests)]));
    assert m.spec.value.fields - {STAMP} == spec;
    CarriesAll(m.spec.value.fields, digests, refs, src);
    return None;
  }

  /** The stamp names the reference with its digest. */
  predicate CarriesDigest(fields: map<string, Json>, r: AssetRef, src: Sources) {
    && STAMP in fields && fields[STAMP].Obj? && FormatAssetRef(r) in fields[STAMP].fields
    && fields[STAMP].fields[FormatAssetRef(r)].Str?
    && HasDigest(src, r, fields[STAMP].fields[FormatAssetRef(r)].s)
  }

  lemma CarriesAll(fields: map<string, Json>, digests: map<string, Json>, refs: seq<AssetRef>, src: Sources)
    requires STAMP in fields && fields[STAMP] == Obj(digests) && HoldsDigests(digests, refs, src)
    ensures forall r | r in refs :: CarriesDigest(fields, r, src)
  {
    hide FormatAssetRef, HasDigest;
  }

  lemma CollectedAllUsed(fields: map<string, Json>, mentioned: seq<AssetRef>, refs: seq<AssetRef>)
    requires forall r :: r in mentioned <==> r in [] || Mentions(Obj(fields), r)
    requires forall r :: r in refs <==>
               r in mentioned || exists i | 0 <= i < |Deps(fields)| :: DepRef(Deps(fields)[i]) == Some(r)
    ensures forall r :: r in refs <==> Used(fields, r)
  {
  }

  lemma HeldIsDigests(digests: map<string, Json>, refs: seq<AssetRef>, fields: map<string, Json>, src: Sources)
    requires Holds(digests, refs, src) && forall r :: r in refs <==> Used(fields, r)
    ensures IsDigests(digests, fields, src)
    ensures forall r | Used(fields, r) :: Resolve(src, r).Some?
  {
  }

  /** Neither the walk nor the dependencies look at an earlier stamp. */
  lemma DroppingTheStamp(fields: map<string, Json>)
    ensures Deps(fields - {STAMP}) == Deps(fields)
    ensures forall r :: Used(fields - {STAMP}, r) <==> Used(fields, r)
  {
    SameRefs(fields, fields - {STAMP});
  }

  lemma SameRefs(a: map<string, Json>, b: map<string, Json>)
    requires a - {STAMP} == b - {STAMP}
    ensures Deps(a) == Deps(b)
    ensures forall r :: Used(a, r) <==> Used(b, r)
  {
    assert Skipped(STAMP);
    forall k | k != STAMP ensures k in a <==> k in b
                          ensures k in a ==> a[k] == b[k]
    {
      assert k in a - {STAMP} <==> k in a;
      assert k in b - {STAMP} <==> k in b;
      assert k in a - {STAMP} ==> (a - {STAMP})[k] == a[k];
      assert k in b - {STAMP} ==> (b - {STAMP})[k] == b[k];
    }
  }

  // ----- a whole batch

  predicate IsConsumerKind(k: string) {
    k == "deployment" || k == "statefulset" || k == "job" || k == "cronjob"
  }

  ghost predicate Consumer(m: Manifest?) {
    m != null && IsConsumerKind(m.kind)
  }

  /** The second phase of an apply: every consumer gets the digests it uses. */
  method StampAssetDigests(manifests: seq<Manifest?>, src: Sources) returns (err: Option<StampError>)
    modifies set m | m in manifests && m != null
    ensures err.None? <==> forall m | m in manifests && Consumer(m) :: Stampable(old(m.spec), src)
    ensures err.None? ==> forall m | m in manifests && Consumer(m) :: IsStamped(old(m.spec), m.spec, src)
    ensures forall m | m in manifests && Consumer(m) ::
              m.spec == old(m.spec) || IsStamped(old(m.spec), m.spec, src)
    ensures forall m | m in manifests && m != null && !Consumer(m) :: m.spec == old(m.spec)
  {
    hide IsStamped, Stampable;
    for n := 0 to |manifests|
      invariant forall m | m in manifests[..n] && Consumer(m) ::
                  Stampable(old(m.spec), src) && IsStamped(old(m.spec), m.spec, src)
      invariant forall m | m in manifests && m != null && (m !in manifests[..n] || !Consumer(m)) ::
                  m.spec == old(m.spec)
    {
      var m := manifests[n];
      assert m in manifests && manifests[..n + 1] == manifests[..n] + [m];
      if m == null || !IsConsumerKind(m.kind) { continue; }
      ghost var before := m.spec;
      if m in manifests[..n] {
        StampAgain(old(m.spec), before, src);
      }
      err := StampConsumerSpec(m, src);
      if err.Some? { return; }
      if m in manifests[..n] {
        StampUnique(before, before, m.spec, src);
      }
    }
    assert manifests[..|manifests|] == manifests;
    err := None;
  }

  // ----- laws

  lemma DigestsUnique(d: map<string, Json>, e: map<string, Json>, fields: map<string, Json>, src: Sources)
    requires IsDigests(d, fields, src) && IsDigests(e, fields, src)
    requires forall r | Used(fields, r) :: Resolve(src, r).Some?
    ensures d == e
  {
    hide Used, Resolve, FormatAssetRef;
    forall f ensures f in d <==> f in e
             ensures f in d ==> d[f] == e[f]
    {
      if f in d {
        var r :| Used(fields, r) && f == FormatAssetRef(r);
      }
    }
  }

  lemma SameFields(a: map<string, Json>, b: map<string, Json>)
    requires a - {STAMP} == b - {STAMP}
    requires STAMP in a <==> STAMP in b
    requires STAMP in a ==> a[STAMP] == b[STAMP]
    ensures a == b
  {
    forall k ensures k in a <==> k in b
             ensures k in a ==> a[k] == b[k]
    {
      assert k != STAMP ==> (k in a <==> k in a - {STAMP});
      assert k != STAMP ==> (k in b <==> k in b - {STAMP});
      assert k != STAMP && k in a ==> (a - {STAMP})[k] == a[k];
      assert k != STAMP && k in b ==> (b - {STAMP})[k] == b[k];
    }
  }

  /** The stamped spec is determined: no order of the walk, of the keys or of the references shows in it. */
  lemma StampUnique(before: Option<Json>, a: Option<Json>, b: Option<Json>, src: Sources)
    requires Stampable(before, src) && IsStamped(before, a, src) && IsStamped(before, b, src)
    ensures a == b
  {
    hide Used, Resolve, IsDigests, Deps;
    match before
    case Some(Obj(fields)) =>
      if exists r :: Used(fields, r) {
        DigestsUnique(a.value.fields[STAMP].fields, b.value.fields[STAMP].fields, fields, src);
      }
      SameFields(a.value.fields, b.value.fields);
    case _ =>
  }

  /** A stamped spec can be stamped again, and is its own stamping. */
  lemma StampAgain(before: Option<Json>, after: Option<Json>, src: Sources)
    requires Stampable(before, src) && IsStamped(before, after, src)
    ensures Stampable(after, src) && IsStamped(after, after, src)
  {
    hide Used, Resolve, Deps, DepRef;
    match before
    case Some(Obj(fields)) =>
      SameRefs(fields, after.value.fields);
    case _ =>
  }

  /** Stamping is idempotent: whatever a second stamping leaves is what the first left. */
  lemma StampIsIdempotent(before: Option<Json>, after: Option<Json>, again: Option<Json>, src: Sources)
    requires Stampable(before, src) && IsStamped(before, after, src) && IsStamped(after, again, src)
    ensures again == after
  {
    StampAgain(before, after, src);
    StampUnique(after, after, again, src);
  }

  /** The stamp has exactly the used references as keys, each with its own digest. */
  lemma StampIsExact(fields: map<string, Json>, after: Option<Json>, src: Sources, r: AssetRef)
    requires Stampable(Some(Obj(fields)), src) && IsStamped(Some(Obj(fields)), after, src)
    requires Separable(r)
    ensures Used(fields, r) <==>
            var stamp := Get(after.value.fields, STAMP);
            stamp.Obj? && FormatAssetRef(r) in stamp.fields
    ensures Used(fields, r) ==> CarriesDigest(after.value.fields, r, src)
  {
    if Used(fields, r) { ResolvesIff(src, r, Resolve(src, r).value); }
    hide HasDigest;
    hide Resolve, Deps, DepRef, FormatAssetRef, Separable, Mentions;
    var stamp := Get(after.value.fields, STAMP);
    if stamp.Obj? && FormatAssetRef(r) in stamp.fields {
      assert STAMP in after.value.fields;
      var x :| Used(fields, x) && FormatAssetRef(r) == FormatAssetRef(x);
      UsedIsSeparable(fields, x);
      FormatInjective(r, x);
    }
  }

  /** Re-stamping changes the spec if and only if the digest of a used reference changed. */
  lemma RestampChangesIff(fields: map<string, Json>, first: Option<Json>, second: Option<Json>,
                          was: Sources, now: Sources)
    requires Stampable(Some(Obj(fields)), was) && IsStamped(Some(Obj(fields)), first, was)
    requires Stampable(first, now) && IsStamped(first, second, now)
    ensures first != second <==>
      exists r, digest :: Used(fields, r) && HasDigest(now, r, digest) && !HasDigest(was, r, digest)
  {
    hide Resolve, Deps, DepRef, FormatAssetRef, Separable, Mentions, Used, HasDigest;
    SameRefs(fields, first.value.fields);
    if r, digest :| Used(fields, r) && HasDigest(now, r, digest) && !HasDigest(was, r, digest) {
      UsedIsSeparable(fields, r);
      StampIsExact(fields, first, was, r);
      StampIsExact(first.value.fields, second, now, r);
      OneDigest(now, r, digest);
    } else {
      forall r | Used(fields, r) ensures Resolve(was, r) == Resolve(now, r) {
        ResolvesIff(now, r, Resolve(now, r).value);
        ResolvesIff(was, r, Resolve(now, r).value);
      }
      StampedAlike(fields, first, was, now);
      StampUnique(first, first, second, now);
    }
  }

  lemma OneDigest(src: Sources, r: AssetRef, digest: string)
    requires HasDigest(src, r, digest)
    ensures forall other | HasDigest(src, r, other) :: other == digest
  {
  }

  /**
   Uploading a used asset with a digest it did not have before changes every
   consumer's spec, whatever the status store still holds for it.
   */
  lemma UploadRolls(fields: map<string, Json>, first: Option<Json>, second: Option<Json>,
                    was: Sources, now: Sources, r: AssetRef)
    requires Stampable(Some(Obj(fields)), was) && IsStamped(Some(Obj(fields)), first, was)
    requires Stampable(first, now) && IsStamped(first, second, now)
    requires Used(fields, r) && r in now.batch
    requires if r in was.batch then was.batch[r] != now.batch[r]
             else var id := AppID(r.scope, r.name);
                  id in was.status && r.key in was.status[id] ==> was.status[id][r.key] != now.batch[r]
    ensures first != second && CarriesDigest(second.value.fields, r, now)
  {
    hide Resolve, Deps, DepRef, FormatAssetRef, Separable, Mentions, Used;
    RestampChangesIff(fields, first, second, was, now);
    assert HasDigest(now, r, now.batch[r]) && !HasDigest(was, r, now.batch[r]);
    SameRefs(fields, first.value.fields);
    UsedIsSeparable(fields, r);
    StampIsExact(first.value.fields, second, now, r);
  }

  lemma StampedAlike(fields: map<string, Json>, first: Option<Json>, was: Sources, now: Sources)
    requires Stampable(Some(Obj(fields)), was) && IsStamped(Some(Obj(fields)), first, was)
    requires forall r | Used(fields, r) :: Resolve(was, r) == Resolve(now, r)
    ensures IsStamped(first, first, now)
  {
    hide Resolve, Deps, DepRef, FormatAssetRef, Mentions, Used;
    SameRefs(fields, first.value.fields);
  }

  // ----- which references share a status entry

  /**
   The first pair's text carries one hyphen's worth more in front: its bare name
   is the other's scope and name, or its scope continues into the other's name.
   */
  ghost predicate Continues(scope: string, name: string, scope': string, name': string) {
    scope' != "" &&
    if scope == "" then name == scope' + "-" + name'
    else exists piece :: scope == scope' + "-" + piece && name' == piece + "-" + name
  }

  /** Two pairs of scope and name meet in one application id exactly if one continues the other. */
  lemma AppIDsMeetIff(scope: string, name: string, scope': string, name': string)
    ensures AppID(scope, name) == AppID(scope', name') <==>
      || (scope == scope' && name == name')
      || Continues(scope, name, scope', name') || Continues(scope', name', scope, name)
  {
    if scope != "" && scope' != "" {
      if |scope| > |scope'| {
        LongerScope(scope, name, scope', name');
      } else if |scope| < |scope'| {
        LongerScope(scope', name', scope, name);
      } else {
        SameScope(scope, name, scope', name');
      }
    }
  }

  lemma LongerScope(scope: string, name: string, scope': string, name': string)
    requires |scope| > |scope'| > 0
    ensures AppID(scope, name) == AppID(scope', name') <==> Continues(scope, name, scope', name')
  {
    var x, y := scope + "-" + name, scope' + "-" + name';
    if x == y {
      var at, piece := |scope'|, scope[|scope'| + 1..];
      assert scope[at] == x[at] == y[at] == '-';
      assert scope[..at] == x[..at] == y[..at] == scope';
      assert scope == scope' + "-" + piece;
      assert name' == y[at + 1..] == x[at + 1..] == piece + "-" + name;
    }
    if piece :| scope == scope' + "-" + piece && name' == piece + "-" + name {
      assert scope' + "-" + piece + "-" + name == scope' + "-" + (piece + "-" + name);
    }
  }

  lemma SameScope(scope: string, name: string, scope': string, name': string)
    requires |scope| == |scope'| > 0
    ensures AppID(scope, name) == AppID(scope', name') <==> scope == scope' && name == name'
    ensures !Continues(scope, name, scope', name') && !Continues(scope', name', scope, name)
  {
    var x, y := scope + "-" + name, scope' + "-" + name';
    if x == y {
      assert scope == x[..|scope|] == y[..|scope|] == scope';
      assert name == x[|scope| + 1..] == y[|scope| + 1..] == name';
    }
  }

  /**
   Two references outside the batch always resolve alike exactly if their keys
   are equal and their application ids meet.
   */
  lemma StatusEntryShared(a: AssetRef, b: AssetRef)
    ensures (forall src: Sources | a !in src.batch && b !in src.batch :: Resolve(src, a) == Resolve(src, b)) <==>
      a.key == b.key && AppID(a.scope, a.name) == AppID(b.scope, b.name)
  {
    hide AppID;
    if !(a.key == b.key && AppID(a.scope, a.name) == AppID(b.scope, b.name)) {
      var src := Sources(map[], map[AppID(a.scope, a.name) := map[a.key := "digest"]]);
      assert Resolve(src, a) == Some("digest") && Resolve(src, b) == None;
    }
  }

  predicate HyphenFree(s: string) {
    '-' !in s
  }

  /** Without hyphens in scopes and in bare names no two assets share an entry. */
  lemma HyphenFreeApart(scope: string, name: string, scope': string, name': string)
    requires if scope == "" then HyphenFree(name) else HyphenFree(scope)
    requires if scope' == "" then HyphenFree(name') else HyphenFree(scope')
    requires AppID(scope, name) == AppID(scope', name')
    ensures scope == scope' && name == name'
  {
    AppIDsMeetIff(scope, name, scope', name');
    if Continues(scope, name, scope', name') {
      HyphenAt(scope, name, scope', name');
    }
    if Continues(scope', name', scope, name) {
      HyphenAt(scope', name', scope, name);
    }
  }

  lemma HyphenAt(scope: string, name: string, scope': string, name': string)
    requires Continues(scope, name, scope', name')
    ensures if scope == "" then !HyphenFree(name) else !HyphenFree(scope)
  {
    if scope == "" {
      assert name[|scope'|] == '-';
    } else {
      assert scope[|scope'|] == '-';
    }
  }

  /** An asset has its id to itself exactly if it is bare and its name has no hyphen after a first character. */
  lemma SoleOwnerIff(scope: string, name: string)
    ensures (forall scope', name' :: AppID(scope', name') == AppID(scope, name) ==> scope' == scope && name' == name)
       <==> scope == "" && (name == "" || HyphenFree(name[1..]))
  {
    if scope != "" {
      assert AppID("", scope + "-" + name) == AppID(scope, name);
    } else if name != "" && !HyphenFree(name[1..]) {
      var i :| 0 <= i < |name[1..]| && name[1..][i] == '-';
      assert name == name[..i + 1] + "-" + name[i + 2..];
      assert AppID(name[..i + 1], name[i + 2..]) == AppID(scope, name);
    } else {
      forall scope', name' | AppID(scope', name') == AppID(scope, name) ensures scope' == scope && name' == name {
        if scope' != "" { HyphenInside(scope', name'); }
      }
    }
  }

  lemma HyphenInside(scope: string, name: string)
    requires scope != ""
    ensures !HyphenFree((scope + "-" + name)[1..])
  {
    assert (scope + "-" + name)[1..][|scope| - 1] == '-';
  }

  // ----- the digests in a spec hash

  /** One line per key. */
  function Lines(keys: seq<string>, digests: map<string, string>): (lines: seq<string>)
    requires forall k | k in keys :: k in digests
    ensures |lines| == |keys|
  {
    seq(|keys|, i requires 0 <= i < |keys| => keys[i] + "=" + digests[keys[i]])
  }

  method FlattenAssetDigests(digests: map<string, string>) returns (lines: seq<string>)
    ensures exists keys ::
              Increasing(keys) && (forall k :: k in keys <==> k in digests) && lines == Lines(keys, digests)
  {
    var sorted, left := [], digests.Keys;
    while left != {}
      invariant Increasing(sorted)
      invariant left <= digests.Keys && forall k :: k in digests <==> k in sorted || k in left
      invariant forall k | k in sorted :: k !in left
      decreases |left|
    {
      var k :| k in left;
      left := left - {k};
      sorted := InsertKey(sorted, k);
    }
    lines := [];
    for i := 0 to |sorted|
      invariant lines == Lines(sorted[..i], digests)
    {
      assert sorted[..i + 1] == sorted[..i] + [sorted[i]];
      lines := lines + [sorted[i] + "=" + digests[sorted[i]]];
    }
    assert sorted[..|sorted|] == sorted;
  }

  /** Keys without '=' can be read back, so equal lines mean equal digests: the hash input loses nothing. */
  lemma LinesDetermineDigests(keys: seq<string>, digests: map<string, string>,
                              others: seq<string>, other: map<string, string>)
    requires forall k :: k in keys <==> k in digests
    requires forall k :: k in others <==> k in other
    requires forall k | k in keys || k in others :: '=' !in k
    requires Lines(keys, digests) == Lines(others, other)
    ensures digests == other
  {
    forall i | 0 <= i < |keys| ensures keys[i] == others[i] && digests[keys[i]] == other[others[i]] {
      var line := Lines(keys, digests)[i];
      assert line == Lines(others, other)[i];
      assert line == keys[i] + ['='] + digests[keys[i]] == others[i] + ['='] + other[others[i]];
      IndexOfAt(keys[i], '=', digests[keys[i]]);
      IndexOfAt(others[i], '=', other[others[i]]);
      assert line[..|keys[i]|] == keys[i] && line[|keys[i]| + 1..] == digests[keys[i]];
      assert line[..|others[i]|] == others[i] && line[|others[i]| + 1..] == other[others[i]];
    }
    assert |keys| == |Lines(keys, digests)| == |others|;
    assert keys == others;
    forall k ensures k in digests <==> k in other
             ensures k in digests ==> digests[k] == other[k]
    {
      if k in digests {
        var i :| 0 <= i < |keys| && keys[i] == k;
      }
    }
  }
}
