/**
 What a diff of two specs is good for: it is determined by its inputs,
 swapping them mirrors it, it is empty exactly on specs that agree, and
 applying it to one spec rebuilds the other.
 */
module DiffLaws {
  import opened Json
  import opened JsonTree
  import opened Order
  import opened Diff

  // ----- one enumeration per pair

  lemma {:induction false} OrderedUnique(a: seq<Change>, b: seq<Change>)
    requires Ordered(a) && Ordered(b) && forall c :: c in a <==> c in b
    ensures a == b
  {
    HeadIsIn(b);
    if a != [] {
      assert a[0] in a;
      var i :| 0 <= i < |b| && b[i] == a[0];
      assert b[0] in b;
      var j :| 0 <= j < |a| && a[j] == b[0];
      PathLessIsStrict(a[0].path);
      if i > 0 {
        PathLessIsTransitive(b[0].path, a[0].path, a[j].path);
        PathLessIsStrict(b[0].path);
      }
      HeadOnce(a);
      HeadOnce(b);
      forall c ensures c in a[1..] <==> c in b[1..] {
        assert c in a <==> c == a[0] || c in a[1..];
        assert c in b <==> c == b[0] || c in b[1..];
      }
      OrderedUnique(a[1..], b[1..]);
    }
  }

  lemma HeadIsIn(a: seq<Change>)
    ensures a == [] || a[0] in a
  {
  }

  lemma HeadOnce(a: seq<Change>)
    requires Ordered(a) && a != []
    ensures a[0] !in a[1..]
  {
    PathLessIsStrict(a[0].path);
  }

  lemma WalkIsDetermined(a: seq<Change>, b: seq<Change>, l: Json, r: Json)
    requires Enumerates(a, l, r) && Enumerates(b, l, r)
    ensures a == b
  {
    forall c ensures c in a <==> c in b {
      assert c in a <==> Belongs(l, r, c);
    }
    OrderedUnique(a, b);
  }

  // ----- swapping the sides

  function Mirror(c: Change): Change {
    Change(c.path, if c.op == Add then Remove else if c.op == Remove then Add else Modify, c.after, c.before)
  }

  function MirrorAll(cs: seq<Change>): (ms: seq<Change>)
    ensures |ms| == |cs| && forall i | 0 <= i < |cs| :: ms[i] == Mirror(cs[i])
  {
    seq(|cs|, i requires 0 <= i < |cs| => Mirror(cs[i]))
  }

  lemma MirrorBelongs(l: Json, r: Json, c: Change)
    ensures Belongs(l, r, c) <==> Belongs(r, l, Mirror(c))
  {
  }

  /** Swapping the arguments of the walk mirrors every change, in the same order. */
  lemma SwapMirrors(cs: seq<Change>, ds: seq<Change>, l: Json, r: Json)
    requires Enumerates(cs, l, r) && Enumerates(ds, r, l)
    ensures ds == MirrorAll(cs)
  {
    hide Belongs, PathLess;
    var ms := MirrorAll(cs);
    forall c ensures c in ms <==> Belongs(r, l, c) {
      MirrorBelongs(r, l, c);
      if c in ms {
        var i :| 0 <= i < |ms| && ms[i] == c;
        assert cs[i] in cs;
        MirrorBelongs(l, r, cs[i]);
      }
      if Belongs(r, l, c) {
        var i :| 0 <= i < |cs| && cs[i] == Mirror(c);
        assert ms[i] == c;
      }
    }
    WalkIsDetermined(ms, ds, r, l);
  }

  // ----- when the diff is empty

  /** No object faces a scalar or an array, at any depth. */
  predicate Compatible(l: Json, r: Json)
    decreases l
  {
    if l.Obj? && r.Obj? then
      forall k | k in l.fields && k in r.fields :: Compatible(l.fields[k], r.fields[k])
    else
      (l.Obj? ==> r.Null?) && (r.Obj? ==> l.Null?)
  }

  ghost predicate Clash(l: Json, r: Json, path: seq<string>) {
    || (At(l, path).Obj? && !At(r, path).Obj? && !At(r, path).Null?)
    || (At(r, path).Obj? && !At(l, path).Obj? && !At(l, path).Null?)
  }

  lemma {:induction false} CompatibleHasNoClash(l: Json, r: Json, path: seq<string>)
    requires Compatible(l, r)
    ensures !Clash(l, r, path)
    decreases path
  {
    if path != [] {
      if l.Obj? && r.Obj? && path[0] in l.fields && path[0] in r.fields {
        CompatibleHasNoClash(Child(l, path[0]), Child(r, path[0]), path[1..]);
      } else {
        NothingUnderNull(path[1..]);
      }
    }
  }

  lemma {:induction false} NoClashIsCompatible(l: Json, r: Json)
    requires forall path :: !Clash(l, r, path)
    ensures Compatible(l, r)
    decreases l
  {
    assert !Clash(l, r, []);
    if l.Obj? && r.Obj? {
      forall k | k in l.fields && k in r.fields ensures Compatible(l.fields[k], r.fields[k]) {
        forall path ensures !Clash(l.fields[k], r.fields[k], path) {
          assert !Clash(l, r, [k] + path);
          assert ([k] + path)[1..] == path;
        }
        NoClashIsCompatible(l.fields[k], r.fields[k]);
      }
    }
  }

  /** A difference goes unreported exactly where an object faces a scalar or an array. */
  lemma MissedOnlyAtClash(l: Json, r: Json, path: seq<string>)
    ensures Leaf(l, path) != Leaf(r, path) && !Reported(l, r, path) <==> Clash(l, r, path)
  {
  }

  /** The diff reports every difference of a pair if and only if the pair is compatible. */
  lemma SeesEverythingIffCompatible(l: Json, r: Json)
    ensures Compatible(l, r)
       <==> forall path | Leaf(l, path) != Leaf(r, path) :: Reported(l, r, path)
  {
    forall path ensures Leaf(l, path) != Leaf(r, path) && !Reported(l, r, path) <==> Clash(l, r, path) {
      MissedOnlyAtClash(l, r, path);
    }
    if Compatible(l, r) {
      forall path ensures !Clash(l, r, path) {
        CompatibleHasNoClash(l, r, path);
      }
    } else if forall path | Leaf(l, path) != Leaf(r, path) :: Reported(l, r, path) {
      NoClashIsCompatible(l, r);
    }
  }

  /** l without the scalars and arrays that face an object of r. */
  function Hide(l: Json, r: Json): Json
    decreases l
  {
    if !r.Obj? then l
    else if !l.Obj? then Null
    else Obj(map k | k in l.fields :: Hide(l.fields[k], Get(r.fields, k)))
  }

  lemma {:induction false} HiddenLeaf(l: Json, r: Json, path: seq<string>)
    ensures Leaf(Hide(l, r), path) == if At(r, path).Obj? then Null else Leaf(l, path)
    decreases path
  {
    if path == [] {
    } else if !r.Obj? {
      NothingUnderNull(path[1..]);
    } else if !l.Obj? || path[0] !in l.fields {
      NothingUnderNull(path[1..]);
    } else {
      assert Child(Hide(l, r), path[0]) == Hide(Child(l, path[0]), Child(r, path[0]));
      HiddenLeaf(Child(l, path[0]), Child(r, path[0]), path[1..]);
    }
  }

  /** The walk reports nothing exactly when the parts it can see have one normal form. */
  lemma SilentIff(l: Json, r: Json)
    ensures (forall path :: !Reported(l, r, path)) <==> Norm(Hide(l, r)) == Norm(Hide(r, l))
  {
    forall path ensures Reported(l, r, path) <==> Leaf(Hide(l, r), path) != Leaf(Hide(r, l), path) {
      HiddenLeaf(l, r, path);
      HiddenLeaf(r, l, path);
    }
    NormIsTheLeaves(Hide(l, r), Hide(r, l));
  }

  lemma {:induction false} NothingHidden(l: Json, r: Json)
    requires Compatible(l, r)
    ensures Norm(Hide(l, r)) == Norm(l)
  {
    forall path ensures Leaf(Hide(l, r), path) == Leaf(l, path) {
      HiddenLeaf(l, r, path);
      CompatibleHasNoClash(l, r, path);
    }
    NormIsTheLeaves(Hide(l, r), l);
  }

  lemma EmptyIffSilent(out: seq<FieldChange>, l: Json, r: Json)
    requires IsDiff(out, l, r)
    ensures out == [] <==> forall path :: !Reported(l, r, path)
  {
    var cs: seq<Change> :| Enumerates(cs, l, r) && Sorted(out) && multiset(out) == multiset(Rendered("", cs));
    assert |multiset(out)| == |out| && |multiset(Rendered("", cs))| == |cs|;
    if cs != [] {
      assert cs[0] in cs;
      assert Reported(l, r, cs[0].path);
    } else {
      forall path ensures !Reported(l, r, path) {
        assert ChangeAt(l, r, path) !in cs;
      }
    }
  }

  /** For every pair: the printed diff is empty iff the visible parts agree up to nulls and {}. */
  lemma DiffEmptyIffVisibleEqual(out: seq<FieldChange>, l: Json, r: Json)
    requires IsDiff(out, l, r)
    ensures out == [] <==> Norm(Hide(l, r)) == Norm(Hide(r, l))
  {
    EmptyIffSilent(out, l, r);
    SilentIff(l, r);
  }

  /** With no object facing a scalar or array, that is equality after dropping nulls and {}. */
  lemma DiffEmptyIffEqual(out: seq<FieldChange>, l: Json, r: Json)
    requires IsDiff(out, l, r) && Compatible(l, r)
    ensures out == [] <==> Norm(l) == Norm(r)
  {
    DiffEmptyIffVisibleEqual(out, l, r);
    NothingHidden(l, r);
    forall path ensures !Clash(r, l, path) {
      CompatibleHasNoClash(l, r, path);
      assert Clash(l, r, path) <==> Clash(r, l, path);
    }
    NoClashIsCompatible(r, l);
    NothingHidden(r, l);
  }

  lemma SilentOnEmptyObject(n: real, path: seq<string>)
    ensures !Reported(Obj(map["a" := Obj(map[])]), Obj(map["a" := Num(n)]), path)
  {
    var l, r := Obj(map["a" := Obj(map[])]), Obj(map["a" := Num(n)]);
    if path != [] {
      assert At(l, path) == At(Child(l, path[0]), path[1..]);
      assert At(r, path) == At(Child(r, path[0]), path[1..]);
      NothingUnderNull(path[1..]);
      if |path| > 1 { NothingUnderNull(path[1..][1..]); }
    }
  }

  /** Without the premise it fails: {"a": {}} against {"a": n} prints nothing. */
  lemma EmptyObjectHidesScalar(out: seq<FieldChange>, n: real)
    requires IsDiff(out, Obj(map["a" := Obj(map[])]), Obj(map["a" := Num(n)]))
    ensures out == []
    ensures Norm(Obj(map["a" := Obj(map[])])) != Norm(Obj(map["a" := Num(n)]))
  {
    var l, r := Obj(map["a" := Obj(map[])]), Obj(map["a" := Num(n)]);
    forall path ensures !Reported(l, r, path) { SilentOnEmptyObject(n, path); }
    EmptyIffSilent(out, l, r);
    assert Leaf(l, ["a"]) != Leaf(r, ["a"]) by {
      assert ["a"][1..] == [];
    }
    NormIsTheLeaves(l, r);
  }
}
