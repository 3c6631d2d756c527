/**
 Reading a printed diff back: dotted paths are unambiguous on plain keys,
 the printed list is then unique, and applying it to the remote spec
 rebuilds the local one up to nulls and empty objects.
 */
module DiffApply {
  import opened Json
  import opened JsonTree
  import opened Order
  import opened Diff
  import opened DiffLaws
  import Text

  // ----- setting leaves

  function Fields(j: Json): map<string, Json> {
    if j.Obj? then j.fields else map[]
  }

  /** Puts v at a path, making objects on the way. */
  function SetAt(j: Json, path: seq<string>, v: Json): Json
    decreases path
  {
    if path == [] then v
    else Obj(Fields(j)[path[0] := SetAt(Child(j, path[0]), path[1..], v)])
  }

  function Apply(cs: seq<Change>, j: Json): Json {
    if cs == [] then j else Apply(cs[1..], SetAt(j, cs[0].path, cs[0].after))
  }

  /** No leaf of j lies below path. */
  ghost predicate Bare(j: Json, path: seq<string>) {
    forall rest | rest != [] :: Leaf(j, path + rest) == Null
  }

  lemma BareBelow(j: Json, path: seq<string>)
    requires path != [] && Bare(j, path)
    ensures Bare(Child(j, path[0]), path[1..])
  {
    forall rest: seq<string> | rest != [] ensures Leaf(Child(j, path[0]), path[1..] + rest) == Null {
      assert (path + rest)[1..] == path[1..] + rest;
      assert Leaf(j, path + rest) == Null;
    }
  }

  /** Where nothing lies below, setting a leaf clears the way to it and leaves the rest alone. */
  lemma {:induction false} SetLeaf(j: Json, path: seq<string>, v: Json, at: seq<string>)
    requires !v.Obj? && Bare(j, path)
    ensures Leaf(SetAt(j, path, v), at) == if at == path then v else if at < path then Null else Leaf(j, at)
    decreases path
  {
    hide Height;
    if path == [] {
      if at != [] {
        NothingUnderNull(at[1..]);
        assert path + at == at;
      }
    } else if at == [] {
      assert at < path;
    } else if at[0] == path[0] {
      BareBelow(j, path);
      SetLeaf(Child(j, path[0]), path[1..], v, at[1..]);
      PrefixOfTail(at, path);
      SetChild(j, path, v, at[0]);
    } else {
      SetChild(j, path, v, at[0]);
    }
  }

  lemma PrefixOfTail(at: seq<string>, path: seq<string>)
    requires at != [] && path != [] && at[0] == path[0]
    ensures at < path <==> at[1..] < path[1..]
    ensures at <= path <==> at[1..] <= path[1..]
    ensures at == path <==> at[1..] == path[1..]
  {
    assert at == [at[0]] + at[1..] && path == [path[0]] + path[1..];
  }

  lemma SetChild(j: Json, path: seq<string>, v: Json, k: string)
    requires path != []
    ensures Child(SetAt(j, path, v), k)
         == if k == path[0] then SetAt(Child(j, k), path[1..], v) else Child(j, k)
  {
  }

  // ----- applying a diff

  /** No leaf of l faces an object of r, and no object of l that holds nothing faces a leaf of r. */
  predicate Rebuildable(l: Json, r: Json)
    decreases l
  {
    if l.Obj? && r.Obj? then
      forall k | k in l.fields && k in r.fields :: Rebuildable(l.fields[k], r.fields[k])
    else
      (r.Obj? ==> l.Null?) && (l.Obj? && Norm(l).Null? ==> r.Null?)
  }

  /** At this path it fails. */
  ghost predicate Blocked(l: Json, r: Json, path: seq<string>) {
    var a, b := At(l, path), At(r, path);
    (b.Obj? && !a.Obj? && !a.Null?) || (a.Obj? && Norm(a).Null? && !b.Obj? && !b.Null?)
  }

  lemma {:induction false} RebuildableIff(l: Json, r: Json)
    ensures Rebuildable(l, r) <==> forall path :: !Blocked(l, r, path)
    decreases l
  {
    hide Norm, Height;
    NormOfNull();
    if l.Obj? && r.Obj? {
      forall k | k in l.fields && k in r.fields
        ensures Rebuildable(l.fields[k], r.fields[k]) <==> forall path :: !Blocked(l.fields[k], r.fields[k], path)
      {
        RebuildableIff(l.fields[k], r.fields[k]);
      }
      if Rebuildable(l, r) {
        forall path ensures !Blocked(l, r, path) {
          if path != [] { ChildNotBlocked(l, r, path); }
        }
      }
      if forall path :: !Blocked(l, r, path) {
        forall k | k in l.fields && k in r.fields ensures Rebuildable(l.fields[k], r.fields[k]) {
          forall path ensures !Blocked(l.fields[k], r.fields[k], path) {
            assert Child(l, k) == l.fields[k] && Child(r, k) == r.fields[k];
            assert ([k] + path)[1..] == path;
            assert !Blocked(l, r, [k] + path);
          }
        }
      }
    } else {
      assert Blocked(l, r, []) <==> !Rebuildable(l, r);
      forall path | path != [] && Blocked(l, r, path) ensures false {
        OneSideEmpty(l, r, path);
      }
    }
  }

  lemma ChildNotBlocked(l: Json, r: Json, path: seq<string>)
    requires l.Obj? && r.Obj? && path != []
    requires forall k | k in l.fields && k in r.fields :: forall rest :: !Blocked(l.fields[k], r.fields[k], rest)
    ensures !Blocked(l, r, path)
  {
    hide Norm;
    NothingUnderNull(path[1..]);
    var k := path[0];
    if k in l.fields && k in r.fields {
      assert !Blocked(l.fields[k], r.fields[k], path[1..]);
    }
  }

  lemma OneSideEmpty(l: Json, r: Json, path: seq<string>)
    requires path != [] && !(l.Obj? && r.Obj?)
    ensures !Blocked(l, r, path)
  {
    hide Norm;
    NothingUnderNull(path[1..]);
  }

  /** At the done paths and on the way to them j has the leaves of l, elsewhere those of r. */
  ghost predicate Partway(j: Json, l: Json, r: Json, done: set<seq<string>>) {
    forall path :: Leaf(j, path) == Leaf(if Reached(done, path) then l else r, path)
  }

  predicate Reached(done: set<seq<string>>, path: seq<string>) {
    exists p | p in done :: path <= p
  }

  /** Below a reported path neither side has a leaf; on the way to it the local side has none. */
  lemma ReportedIsBare(l: Json, r: Json, path: seq<string>)
    requires Rebuildable(l, r) && Reported(l, r, path)
    ensures Bare(l, path) && Bare(r, path)
    ensures forall at | at < path :: Leaf(l, at) == Null
  {
    hide Leaf, Norm;
    forall rest: seq<string> | rest != []
      ensures Leaf(l, path + rest) == Null && Leaf(r, path + rest) == Null
    {
      NothingUnderLeaf(l, path, rest);
      NothingUnderLeaf(r, path, rest);
      LeafOfNull(l, path + rest);
      LeafOfNull(r, path + rest);
    }
    RebuildableIff(l, r);
    forall at | at < path ensures Leaf(l, at) == Null {
      var rest := path[|at|..];
      assert path == at + rest;
      if !At(l, at).Obj? { NothingUnderLeaf(l, at, rest); }
      if !At(r, at).Obj? { NothingUnderLeaf(r, at, rest); }
      assert !Blocked(l, r, at);
      LeafWhenNone(l, at);
    }
  }

  lemma LeafOfNull(j: Json, path: seq<string>)
    ensures At(j, path) == Null ==> Leaf(j, path) == Null
  {
  }

  lemma LeafWhenNone(j: Json, path: seq<string>)
    ensures At(j, path).Obj? || At(j, path).Null? ==> Leaf(j, path) == Null
  {
  }

  lemma BarePartway(j: Json, l: Json, r: Json, done: set<seq<string>>, path: seq<string>)
    requires Partway(j, l, r, done) && Bare(l, path) && Bare(r, path)
    ensures Bare(j, path)
  {
    hide Leaf, Reached;
  }

  lemma ApplyOne(j: Json, l: Json, r: Json, done: set<seq<string>>, c: Change)
    requires Rebuildable(l, r) && Belongs(l, r, c) && Partway(j, l, r, done)
    ensures Partway(SetAt(j, c.path, c.after), l, r, done + {c.path})
  {
    hide SetAt, At, Bare, OpOf, Rebuildable, Reached;
    ReportedIsBare(l, r, c.path);
    BarePartway(j, l, r, done, c.path);
    forall path ensures Leaf(SetAt(j, c.path, c.after), path)
                     == Leaf(if Reached(done + {c.path}, path) then l else r, path)
    {
      ReachedMore(done, c.path, path);
      SetLeaf(j, c.path, c.after, path);
    }
  }

  lemma ReachedMore(done: set<seq<string>>, p: seq<string>, path: seq<string>)
    ensures Reached(done + {p}, path) <==> Reached(done, path) || path <= p
  {
  }

  /** Where nothing was reported at a path or below it, the two sides agree there. */
  lemma UnreportedAgree(l: Json, r: Json, path: seq<string>)
    requires Rebuildable(l, r) && forall p | Reported(l, r, p) :: !(path <= p)
    ensures Leaf(l, path) == Leaf(r, path)
  {
    hide Norm, Height;
    RebuildableIff(l, r);
    assert !Blocked(l, r, path) && !Reported(l, r, path);
    var a, b := At(l, path), At(r, path);
    if a.Obj? && !b.Obj? && !b.Null? {
      var rest := SomeLeaf(a);
      AtConcat(l, path, rest);
      AtConcat(r, path, rest);
      NothingUnderLeaf(r, path, rest);
      assert Reported(l, r, path + rest);
    }
  }

  lemma {:induction false} AtConcat(j: Json, path: seq<string>, rest: seq<string>)
    ensures At(j, path + rest) == At(At(j, path), rest)
    decreases path
  {
    if path == [] {
      assert path + rest == rest;
    } else {
      assert (path + rest)[1..] == path[1..] + rest;
      AtConcat(Child(j, path[0]), path[1..], rest);
    }
  }

  /** An object that holds something has a leaf. */
  lemma SomeLeaf(j: Json) returns (path: seq<string>)
    requires j.Obj? && !Norm(j).Null?
    ensures path != [] && Leaf(j, path) != Null
  {
    hide Norm, Height, Leaf;
    NormOfNull();
    NormIsTheLeaves(j, Null);
    path :| Leaf(j, path) != Leaf(Null, path);
    NothingUnderNull(path);
    LeafOfNull(Null, path);
    LeafOfObject(j);
  }

  lemma LeafOfObject(j: Json)
    requires j.Obj?
    ensures Leaf(j, []) == Null
  {
  }

  lemma {:induction false} ApplyRest(cs: seq<Change>, j: Json, l: Json, r: Json, done: set<seq<string>>)
    requires Rebuildable(l, r) && Partway(j, l, r, done)
    requires forall c | c in cs :: Belongs(l, r, c)
    requires forall path | Reported(l, r, path) :: path in done || ChangeAt(l, r, path) in cs
    ensures SameLeaves(Apply(cs, j), l)
    decreases |cs|
  {
    hide Rebuildable, Leaf, At, Reported;
    if cs == [] {
      forall path ensures Leaf(j, path) == Leaf(l, path) {
        if !Reached(done, path) {
          UnreportedAgree(l, r, path);
        }
      }
    } else {
      ApplyOne(j, l, r, done, cs[0]);
      forall path | Reported(l, r, path)
        ensures path in done + {cs[0].path} || ChangeAt(l, r, path) in cs[1..]
      {
        assert cs == [cs[0]] + cs[1..];
      }
      ApplyRest(cs[1..], SetAt(j, cs[0].path, cs[0].after), l, r, done + {cs[0].path});
    }
  }

  // What no change touches stays in the way.

  lemma {:induction false} SetKeepsObject(j: Json, path: seq<string>, v: Json, p: seq<string>)
    requires At(j, p).Obj? && !(path <= p)
    ensures At(SetAt(j, path, v), p).Obj?
    decreases p
  {
    hide Height;
    if p != [] {
      SetChild(j, path, v, p[0]);
      if p[0] == path[0] {
        PrefixOfTail(path, p);
        SetKeepsObject(Child(j, p[0]), path[1..], v, p[1..]);
      }
    }
  }

  lemma {:induction false} SetKeepsAt(j: Json, path: seq<string>, v: Json, p: seq<string>)
    requires !(path <= p) && !(p <= path)
    ensures At(SetAt(j, path, v), p) == At(j, p)
    decreases p
  {
    hide Height;
    SetChild(j, path, v, p[0]);
    if p[0] == path[0] {
      PrefixOfTail(path, p);
      PrefixOfTail(p, path);
      SetKeepsAt(Child(j, p[0]), path[1..], v, p[1..]);
    }
  }

  lemma {:induction false} ApplyKeepsObject(cs: seq<Change>, j: Json, p: seq<string>)
    requires At(j, p).Obj? && forall c | c in cs :: !(c.path <= p)
    ensures At(Apply(cs, j), p).Obj?
    decreases |cs|
  {
    if cs != [] {
      SetKeepsObject(j, cs[0].path, cs[0].after, p);
      ApplyKeepsObject(cs[1..], SetAt(j, cs[0].path, cs[0].after), p);
    }
  }

  lemma {:induction false} ApplyKeepsAt(cs: seq<Change>, j: Json, p: seq<string>)
    requires forall c | c in cs :: !(c.path <= p) && !(p <= c.path)
    ensures At(Apply(cs, j), p) == At(j, p)
    decreases |cs|
  {
    if cs != [] {
      SetKeepsAt(j, cs[0].path, cs[0].after, p);
      ApplyKeepsAt(cs[1..], SetAt(j, cs[0].path, cs[0].after), p);
    }
  }

  lemma BlockedStays(cs: seq<Change>, l: Json, r: Json, p: seq<string>)
    requires Blocked(l, r, p) && forall c | c in cs :: Belongs(l, r, c)
    ensures Leaf(Apply(cs, r), p) != Leaf(l, p)
  {
    hide Norm, Height, Apply;
    forall c | c in cs ensures !(c.path <= p) && (At(l, p).Obj? ==> !(p <= c.path)) {
      var path := c.path;
      if path <= p {
        OnTheWay(l, path, p);
        OnTheWay(r, path, p);
        assert false;
      }
      if p <= path && At(l, p).Obj? {
        BelowNothing(l, r, p, path);
        assert false;
      }
    }
    if At(r, p).Obj? {
      ApplyKeepsObject(cs, r, p);
    } else {
      ApplyKeepsAt(cs, r, p);
    }
  }

  /** On the way to something there is an object. */
  lemma OnTheWay(j: Json, path: seq<string>, p: seq<string>)
    requires path <= p && At(j, p) != Null
    ensures At(j, path) == At(j, p) || At(j, path).Obj?
    ensures path != p ==> At(j, path).Obj?
  {
    var rest := p[|path|..];
    assert p == path + rest;
    if rest != [] && !At(j, path).Obj? { NothingUnderLeaf(j, path, rest); }
    if rest == [] { assert p == path; }
  }

  lemma BelowNothing(l: Json, r: Json, p: seq<string>, path: seq<string>)
    requires p <= path && At(l, p).Obj? && Norm(At(l, p)).Null? && !At(r, p).Obj?
    ensures !Reported(l, r, path)
  {
    hide Norm, Height;
    var rest := path[|p|..];
    assert path == p + rest;
    AtConcat(l, p, rest);
    AtConcat(r, p, rest);
    NormOfNull();
    NormIsTheLeaves(At(l, p), Null);
    assert Leaf(At(l, p), rest) == Leaf(Null, rest);
    NothingUnderNull(rest);
    if rest != [] { NothingUnderLeaf(r, p, rest); }
  }

  /**
   Applying the changes to r, in any order, rebuilds l up to nulls and empty
   objects exactly if nothing the diff cannot see is in the way.
   */
  lemma ApplyRebuildsIff(cs: seq<Change>, l: Json, r: Json)
    requires forall c :: c in cs <==> Belongs(l, r, c)
    ensures Norm(Apply(cs, r)) == Norm(l) <==> Rebuildable(l, r)
  {
    hide Norm, Rebuildable, Apply, Leaf, Blocked;
    NormIsTheLeaves(Apply(cs, r), l);
    RebuildableIff(l, r);
    if Rebuildable(l, r) {
      assert Partway(r, l, r, {});
      ApplyRest(cs, r, l, r, {});
    } else {
      var p :| Blocked(l, r, p);
      BlockedStays(cs, l, r, p);
    }
  }

  /** Compatible trees always are. */
  lemma {:induction false} CompatibleIsRebuildable(l: Json, r: Json)
    requires Compatible(l, r)
    ensures Rebuildable(l, r)
    decreases l
  {
    if l.Obj? && r.Obj? {
      forall k | k in l.fields && k in r.fields ensures Rebuildable(l.fields[k], r.fields[k]) {
        CompatibleIsRebuildable(l.fields[k], r.fields[k]);
      }
    }
  }

  // ----- dotted paths

  /** A path whose dotted form can be read back. */
  predicate Readable(path: seq<string>) {
    && (forall k | k in path :: '.' !in k)
    && (path != [] ==> path[0] != "")
  }

  /** No key of any object outside arrays has a dot. */
  predicate DotFree(j: Json)
    decreases j
  {
    j.Obj? ==> forall k | k in j.fields :: '.' !in k && DotFree(j.fields[k])
  }

  /** Trees all of whose paths are readable. */
  predicate Plain(j: Json) {
    DotFree(j) && (j.Obj? ==> "" !in j.fields)
  }

  function ParsePath(s: string): seq<string> {
    if s == "" then [] else Text.Split(s, '.')
  }

  lemma {:induction false} DotIsJoin(prefix: string, path: seq<string>)
    requires prefix != ""
    ensures Dot(prefix, path) == if path == [] then prefix else prefix + ['.'] + Text.Join(path, '.')
    decreases path
  {
    if path != [] {
      var rest := Text.Join(path[1..], '.');
      DotIsJoin(Under(prefix, path[0]), path[1..]);
      assert prefix + "." + path[0] == prefix + ['.'] + path[0];
      if |path| > 1 {
        assert prefix + ['.'] + path[0] + ['.'] + rest == prefix + ['.'] + (path[0] + ['.'] + rest);
      }
    }
  }

  lemma ParseReadable(path: seq<string>)
    requires Readable(path)
    ensures ParsePath(Dot("", path)) == path
  {
    if path != [] {
      DotIsJoin(path[0], path[1..]);
      Text.SplitJoin(path, '.');
    }
  }

  lemma {:induction false} EmptyKeysVanish(path: seq<string>)
    requires forall k | k in path :: '.' !in k
    ensures |ParsePath(Dot("", path))| <= |path|
    ensures path != [] && path[0] == "" ==> |ParsePath(Dot("", path))| < |path|
  {
    if path != [] && path[0] == "" {
      EmptyKeysVanish(path[1..]);
    } else {
      ParseReadable(path);
    }
  }

  /** Splitting a printed path at its dots gives the keys back iff no key has a dot and the first is not empty. */
  lemma DottedPathReadsBackIff(path: seq<string>)
    ensures ParsePath(Dot("", path)) == path <==> Readable(path)
  {
    if Readable(path) {
      ParseReadable(path);
    } else if forall k | k in path :: '.' !in k {
      EmptyKeysVanish(path);
    }
  }

  /** Otherwise two paths can print alike. */
  lemma PrintedAlike(a: string, b: string)
    requires a != ""
    ensures Dot("", [a + "." + b]) == Dot("", [a, b])
    ensures Dot("", ["", a]) == Dot("", [a])
  {
    assert Dot("", [a + "." + b]) == Dot(a + "." + b, []) by { assert [a + "." + b][1..] == []; }
    assert Dot("", [a, b]) == Dot(a, [b]) by { assert [a, b][1..] == [b]; }
    assert Dot(a, [b]) == Dot(a + "." + b, []) by { assert [b][1..] == []; }
    assert ["", a][1..] == [a];
  }

  lemma {:induction false} DotFreePath(j: Json, path: seq<string>)
    requires DotFree(j) && At(j, path) != Null
    ensures forall k | k in path :: '.' !in k
    decreases path
  {
    if path != [] {
      NothingUnderNull(path[1..]);
      DotFreePath(Child(j, path[0]), path[1..]);
    }
  }

  lemma PlainReport(l: Json, r: Json, c: Change)
    requires Plain(l) && Plain(r) && Belongs(l, r, c)
    ensures Readable(c.path)
    ensures ParsePath(Dot("", c.path)) == c.path
  {
    if c.path != [] { NothingUnderNull(c.path[1..]); }
    if At(l, c.path) != Null { DotFreePath(l, c.path); } else { DotFreePath(r, c.path); }
    ParseReadable(c.path);
  }

  // ----- the printed diff

  function Read(f: FieldChange): Change {
    Change(ParsePath(f.path), f.op, f.before, f.after)
  }

  function Parsed(fs: seq<FieldChange>): (cs: seq<Change>)
    ensures |cs| == |fs|
    ensures forall i | 0 <= i < |fs| :: cs[i] == Read(fs[i])
  {
    seq(|fs|, i requires 0 <= i < |fs| => Read(fs[i]))
  }

  /** Printed and walked changes of plain specs correspond. */
  lemma PrintedIff(out: seq<FieldChange>, l: Json, r: Json, f: FieldChange)
    requires IsDiff(out, l, r) && Plain(l) && Plain(r)
    ensures f in out <==> Belongs(l, r, Read(f)) && f == Render("", Read(f))
  {
    hide Belongs, Plain, Dot, ParsePath, Ordered, Sorted;
    var cs: seq<Change> :| Enumerates(cs, l, r) && Sorted(out)
                           && multiset(out) == multiset(Rendered("", cs));
    var rendered := Rendered("", cs);
    assert f in out <==> f in multiset(out);
    assert f in rendered <==> f in multiset(rendered);
    if f in rendered {
      var j :| 0 <= j < |cs| && rendered[j] == f;
      assert cs[j] in cs;
      PlainReport(l, r, cs[j]);
    }
    if Belongs(l, r, Read(f)) && f == Render("", Read(f)) {
      assert Read(f) in cs;
      var j :| 0 <= j < |cs| && cs[j] == Read(f);
      assert rendered[j] == f;
    }
  }

  lemma ParsedIff(out: seq<FieldChange>, l: Json, r: Json, c: Change)
    requires IsDiff(out, l, r) && Plain(l) && Plain(r)
    ensures c in Parsed(out) <==> Belongs(l, r, c)
  {
    hide Plain, IsDiff;
    if c in Parsed(out) {
      var i :| 0 <= i < |out| && Parsed(out)[i] == c;
      PrintedIff(out, l, r, out[i]);
    }
    if Belongs(l, r, c) {
      PlainReport(l, r, c);
      PrintedIff(out, l, r, Render("", c));
      var i :| 0 <= i < |out| && out[i] == Render("", c);
      assert Parsed(out)[i] == c;
    }
  }

  /** The round trip: the printed diff, read back and applied to remote, rebuilds local exactly if it can. */
  lemma DiffRebuildsIff(out: seq<FieldChange>, local: Json, remote: Json)
    requires IsDiff(out, local, remote) && Plain(local) && Plain(remote)
    ensures Norm(Apply(Parsed(out), remote)) == Norm(local) <==> Rebuildable(local, remote)
  {
    hide Norm, Rebuildable, Apply, Plain;
    forall c ensures c in Parsed(out) <==> Belongs(local, remote, c) {
      ParsedIff(out, local, remote, c);
    }
    ApplyRebuildsIff(Parsed(out), local, remote);
  }

  // ----- the printed diff is unique, and mirrors

  ghost predicate OnePerPath(fs: seq<FieldChange>) {
    forall x, y | x in fs && y in fs && x.path == y.path :: x == y
  }

  lemma Counts(fs: seq<FieldChange>, f: FieldChange)
    requires fs != []
    ensures multiset(fs) == multiset{fs[0]} + multiset(fs[1..])
    ensures multiset(fs)[f] == (if fs[0] == f then 1 else 0) + multiset(fs[1..])[f]
  {
    assert fs == [fs[0]] + fs[1..];
  }

  lemma {:induction false} SortedUnique(a: seq<FieldChange>, b: seq<FieldChange>)
    requires Sorted(a) && Sorted(b) && OnePerPath(a) && multiset(a) == multiset(b)
    ensures a == b
  {
    hide Less, OnePerPath;
    SameSize(a, b);
    if a != [] {
      SameFirst(a, b);
      TailOf(a);
      TailOf(b);
      assert OnePerPath(a[1..]) by { TailOnePerPath(a); }
      SortedUnique(a[1..], b[1..]);
      assert a == [a[0]] + a[1..] && b == [b[0]] + b[1..];
    }
  }

  lemma TailOf(fs: seq<FieldChange>)
    requires fs != []
    ensures multiset(fs[1..]) == multiset(fs) - multiset{fs[0]}
  {
    assert fs == [fs[0]] + fs[1..];
  }

  lemma SameSize(a: seq<FieldChange>, b: seq<FieldChange>)
    requires multiset(a) == multiset(b)
    ensures |a| == |b|
  {
    assert |multiset(a)| == |a| && |multiset(b)| == |b|;
  }

  lemma TailOnePerPath(a: seq<FieldChange>)
    requires OnePerPath(a) && a != []
    ensures OnePerPath(a[1..])
  {
  }

  lemma SameFirst(a: seq<FieldChange>, b: seq<FieldChange>)
    requires Sorted(a) && Sorted(b) && OnePerPath(a) && multiset(a) == multiset(b)
    requires a != [] && b != []
    ensures a[0] == b[0]
  {
    hide Less, Sorted;
    assert b[0] in multiset(b) && a[0] in multiset(a);
    assert b[0] in a && a[0] in b;
    FirstIsLeast(a, b[0]);
    FirstIsLeast(b, a[0]);
    LessIsTotal(a[0].path, b[0].path);
  }

  lemma FirstIsLeast(a: seq<FieldChange>, x: FieldChange)
    requires Sorted(a) && x in a
    ensures !Less(x.path, a[0].path)
  {
    LessIsStrict(x.path);
  }

  lemma PlainOnePerPath(out: seq<FieldChange>, l: Json, r: Json)
    requires IsDiff(out, l, r) && Plain(l) && Plain(r)
    ensures OnePerPath(out)
  {
    forall x, y | x in out && y in out && x.path == y.path ensures x == y {
      PrintedIff(out, l, r, x);
      PrintedIff(out, l, r, y);
    }
  }

  /** Plain specs have exactly one printed diff. */
  lemma PrintedDiffUnique(a: seq<FieldChange>, b: seq<FieldChange>, l: Json, r: Json)
    requires IsDiff(a, l, r) && IsDiff(b, l, r) && Plain(l) && Plain(r)
    ensures a == b
  {
    var cs: seq<Change> :| Enumerates(cs, l, r) && multiset(a) == multiset(Rendered("", cs));
    var ds: seq<Change> :| Enumerates(ds, l, r) && multiset(b) == multiset(Rendered("", ds));
    WalkIsDetermined(cs, ds, l, r);
    PlainOnePerPath(a, l, r);
    SortedUnique(a, b);
  }

  function MirrorField(f: FieldChange): FieldChange {
    FieldChange(f.path, if f.op == Add then Remove else if f.op == Remove then Add else Modify, f.after, f.before)
  }

  function MirrorFields(fs: seq<FieldChange>): (ms: seq<FieldChange>)
    ensures |ms| == |fs| && forall i | 0 <= i < |fs| :: ms[i] == MirrorField(fs[i])
  {
    seq(|fs|, i requires 0 <= i < |fs| => MirrorField(fs[i]))
  }

  lemma {:induction false} MirrorCounts(fs: seq<FieldChange>, f: FieldChange)
    ensures multiset(MirrorFields(fs))[f] == multiset(fs)[MirrorField(f)]
  {
    if fs != [] {
      MirrorCounts(fs[1..], f);
      Counts(fs, MirrorField(f));
      Counts(MirrorFields(fs), f);
      assert MirrorFields(fs)[1..] == MirrorFields(fs[1..]);
      assert MirrorField(fs[0]) == f <==> fs[0] == MirrorField(f);
    }
  }

  lemma RenderMirror(cs: seq<Change>)
    ensures Rendered("", MirrorAll(cs)) == MirrorFields(Rendered("", cs))
  {
  }

  /** The mirrored list of a diff is a diff of the swapped pair. */
  lemma MirrorIsDiff(out: seq<FieldChange>, back: seq<FieldChange>, l: Json, r: Json)
    requires IsDiff(out, l, r) && IsDiff(back, r, l)
    ensures multiset(back) == multiset(MirrorFields(out))
    ensures Sorted(MirrorFields(out))
  {
    var cs: seq<Change> :| Enumerates(cs, l, r) && multiset(out) == multiset(Rendered("", cs));
    var ds: seq<Change> :| Enumerates(ds, r, l) && multiset(back) == multiset(Rendered("", ds));
    SwapMirrors(cs, ds, l, r);
    RenderMirror(cs);
    forall f ensures multiset(back)[f] == multiset(MirrorFields(out))[f] {
      MirrorCounts(out, f);
      MirrorCounts(Rendered("", cs), f);
    }
  }

  /** On plain specs, line by line. */
  lemma SwapMirrorsPrinted(out: seq<FieldChange>, back: seq<FieldChange>, l: Json, r: Json)
    requires IsDiff(out, l, r) && IsDiff(back, r, l) && Plain(l) && Plain(r)
    ensures back == MirrorFields(out)
  {
    MirrorIsDiff(out, back, l, r);
    PlainOnePerPath(back, r, l);
    SortedUnique(back, MirrorFields(out));
  }
}
