/**
 The structural diff of two specs. The reference definition is per path: a
 path is reported exactly when neither side holds an object there and the
 values differ. The walker enumerates those paths in order, and everything
 the diff is used for follows from the definition.
 */
module Diff {
  import opened Json
  import opened JsonTree
  import opened Order

  datatype Op = Modify | Add | Remove

  /** A change at a path of keys: before is the remote value, after the local. */
  datatype Change = Change(path: seq<string>, op: Op, before: Json, after: Json)

  /** A change as printed, its path dotted. */
  datatype FieldChange = FieldChange(path: string, op: Op, before: Json, after: Json)

  // ----- what is reported

  ghost predicate Reported(l: Json, r: Json, path: seq<string>) {
    !At(l, path).Obj? && !At(r, path).Obj? && At(l, path) != At(r, path)
  }

  function OpOf(before: Json, after: Json): Op {
    if after.Null? then Remove else if before.Null? then Add else Modify
  }

  function ChangeAt(l: Json, r: Json, path: seq<string>): Change {
    Change(path, OpOf(At(r, path), At(l, path)), At(r, path), At(l, path))
  }

  ghost predicate Ordered(cs: seq<Change>) {
    forall i, j | 0 <= i < j < |cs| :: PathLess(cs[i].path, cs[j].path)
  }

  ghost predicate Belongs(l: Json, r: Json, c: Change) {
    Reported(l, r, c.path) && c == ChangeAt(l, r, c.path)
  }

  /** cs lists every reported change once, in path order. */
  ghost predicate Enumerates(cs: seq<Change>, l: Json, r: Json) {
    Ordered(cs) && forall c :: c in cs <==> Belongs(l, r, c)
  }

  // ----- how it is printed

  /** The dotted path of a child. */
  function Under(prefix: string, k: string): string {
    if prefix != "" then prefix + "." + k else k
  }

  function Dot(prefix: string, path: seq<string>): string
    decreases path
  {
    if path == [] then prefix else Dot(Under(prefix, path[0]), path[1..])
  }

  function Render(prefix: string, c: Change): FieldChange {
    FieldChange(Dot(prefix, c.path), c.op, c.before, c.after)
  }

  function Rendered(prefix: string, cs: seq<Change>): (fs: seq<FieldChange>)
    ensures |fs| == |cs|
    ensures forall i | 0 <= i < |cs| :: fs[i] == Render(prefix, cs[i])
  {
    seq(|cs|, i requires 0 <= i < |cs| => Render(prefix, cs[i]))
  }

  /** Changes of the child k, seen from its parent. */
  ghost function Lifted(k: string, cs: seq<Change>): (up: seq<Change>)
    ensures |up| == |cs|
    ensures forall i | 0 <= i < |cs| :: up[i] == cs[i].(path := [k] + cs[i].path)
  {
    seq(|cs|, i requires 0 <= i < |cs| => cs[i].(path := [k] + cs[i].path))
  }

  lemma RenderLifted(prefix: string, k: string, cs: seq<Change>)
    ensures Rendered(Under(prefix, k), cs) == Rendered(prefix, Lifted(k, cs))
  {
    forall i | 0 <= i < |cs|
      ensures Render(Under(prefix, k), cs[i]) == Render(prefix, Lifted(k, cs)[i])
    {
      assert ([k] + cs[i].path)[1..] == cs[i].path;
    }
  }

  // ----- the walker

  method UnionKeys(a: map<string, Json>, b: map<string, Json>) returns (keys: seq<string>)
    ensures Increasing(keys)
    ensures forall k :: k in keys <==> k in a || k in b
  {
    var seen := a.Keys + b.Keys;
    keys := [];
    while seen != {}
      invariant Increasing(keys)
      invariant forall k | k in keys :: k !in seen
      invariant forall k :: k in a || k in b <==> k in keys || k in seen
      decreases |seen|
    {
      var k :| k in seen;
      seen := seen - {k};
      keys := InsertKey(keys, k);
    }
  }

  /** What the loop over the sorted keys has produced after done of them. */
  ghost predicate WalkedKeys(cs: seq<Change>, l: Json, r: Json, done: seq<string>) {
    && Ordered(cs)
    && (forall c :: c in cs <==> Belongs(l, r, c) && c.path != [] && c.path[0] in done)
  }

  lemma BelongsToChild(l: Json, r: Json, k: string, c: Change)
    ensures Belongs(Child(l, k), Child(r, k), c) <==> Belongs(l, r, c.(path := [k] + c.path))
  {
    assert ([k] + c.path)[1..] == c.path;
  }

  lemma WalkOneMore(cs: seq<Change>, more: seq<Change>, l: Json, r: Json, done: seq<string>, k: string)
    requires WalkedKeys(cs, l, r, done) && Enumerates(more, Child(l, k), Child(r, k))
    requires forall d | d in done :: Less(d, k)
    ensures WalkedKeys(cs + Lifted(k, more), l, r, done + [k])
  {
    var up := Lifted(k, more);
    forall i, j | 0 <= i < j < |cs + up|
      ensures PathLess((cs + up)[i].path, (cs + up)[j].path)
    {
      if i < |cs| <= j {
        assert cs[i] in cs;
      } else if |cs| <= i {
        assert PathLess(more[i - |cs|].path, more[j - |cs|].path);
        assert up[i - |cs|].path[1..] == more[i - |cs|].path;
        assert up[j - |cs|].path[1..] == more[j - |cs|].path;
      }
    }
    forall c ensures c in up <==> Belongs(l, r, c) && c.path != [] && c.path[0] == k {
      if c in up {
        var i :| 0 <= i < |up| && up[i] == c;
        assert more[i] in more;
        BelongsToChild(l, r, k, more[i]);
      }
      if Belongs(l, r, c) && c.path != [] && c.path[0] == k {
        var low := c.(path := c.path[1..]);
        assert c.path == [k] + low.path;
        BelongsToChild(l, r, k, low);
        var i :| 0 <= i < |more| && more[i] == low;
        assert up[i] == c;
      }
    }
    forall c ensures c in cs + up <==> Belongs(l, r, c) && c.path != [] && c.path[0] in done + [k] {
      assert c in cs + up <==> c in cs || c in up;
      assert c.path != [] ==> (c.path[0] in done + [k] <==> c.path[0] in done || c.path[0] == k);
    }
  }

  /** With an object on some side, every reported path goes through a key. */
  lemma WalkedAllKeys(cs: seq<Change>, l: Json, r: Json, keys: seq<string>)
    requires (l.Obj? || r.Obj?) && WalkedKeys(cs, l, r, keys)
    requires forall k :: k in keys <==> (l.Obj? && k in l.fields) || (r.Obj? && k in r.fields)
    ensures Enumerates(cs, l, r)
  {
    forall c | Belongs(l, r, c) ensures c.path != [] && c.path[0] in keys {
      if c.path != [] { NothingUnderNull(c.path[1..]); }
    }
  }

  /** Without one, only the roots can differ. */
  lemma WalkedLeaves(l: Json, r: Json)
    requires !l.Obj? && !r.Obj?
    ensures Enumerates(if l == r then [] else [ChangeAt(l, r, [])], l, r)
  {
    forall c | Belongs(l, r, c) ensures c.path == [] {
    }
  }

  /** res is out followed by the printed form of the reported changes, in path order. */
  ghost predicate Appended(res: seq<FieldChange>, out: seq<FieldChange>, prefix: string, l: Json, r: Json) {
    exists cs :: Enumerates(cs, l, r) && res == out + Rendered(prefix, cs)
  }

  /** Appends to the shared list, descending while some side is an object. */
  method WalkFields(prefix: string, local: Json, remote: Json, out: seq<FieldChange>) returns (res: seq<FieldChange>)
    ensures Appended(res, out, prefix, local, remote)
    decreases Height(local) + Height(remote)
  {
    hide Enumerates, WalkedKeys, Increasing, At, Child, Height, Dot, Render, Rendered, Get;
    res := out;
    if local == Null && remote == Null {
      WalkedLeaves(local, remote);
      NothingRendered(out, prefix);
      return;
    }
    if local.Obj? || remote.Obj? {
      var lMap := if local.Obj? then local.fields else map[];
      var rMap := if remote.Obj? then remote.fields else map[];
      var keys := UnionKeys(lMap, rMap);
      ghost var changes: seq<Change> := [];
      NothingWalked(local, remote);
      NothingRendered(out, prefix);
      for i := 0 to |keys|
        invariant res == out + Rendered(prefix, changes)
        invariant WalkedKeys(changes, local, remote, keys[..i])
      {
        var k := keys[i];
        ChildrenAreLower(local, remote, lMap, rMap, k);
        res := WalkFields(Under(prefix, k), Get(lMap, k), Get(rMap, k), res);
        ghost var more :| Enumerates(more, Get(lMap, k), Get(rMap, k))
                          && res == out + Rendered(prefix, changes) + Rendered(Under(prefix, k), more);
        KeysBelow(keys, i);
        WalkOneMore(changes, more, local, remote, keys[..i], k);
        assert keys[..i + 1] == keys[..i] + [k];
        AppendRendered(out, prefix, changes, k, more);
        changes := changes + Lifted(k, more);
      }
      assert keys[..|keys|] == keys;
      WalkedAllKeys(changes, local, remote, keys);
      return;
    }
    WalkedLeaves(local, remote);
    if local == Null {
      res := res + [FieldChange(prefix, Remove, remote, Null)];
    } else if remote == Null {
      res := res + [FieldChange(prefix, Add, Null, local)];
    } else if local == remote {
      NothingRendered(out, prefix);
      return;
    } else {
      res := res + [FieldChange(prefix, Modify, remote, local)];
    }
    RootChange(prefix, local, remote);
  }

  lemma NothingRendered(out: seq<FieldChange>, prefix: string)
    ensures out == out + Rendered(prefix, [])
  {
  }

  lemma RootChange(prefix: string, l: Json, r: Json)
    ensures Rendered(prefix, [ChangeAt(l, r, [])]) ==
            [FieldChange(prefix, if l.Null? then Remove else if r.Null? then Add else Modify, r, l)]
  {
  }

  lemma ChildrenAreLower(l: Json, r: Json, lMap: map<string, Json>, rMap: map<string, Json>, k: string)
    requires l.Obj? || r.Obj?
    requires lMap == if l.Obj? then l.fields else map[]
    requires rMap == if r.Obj? then r.fields else map[]
    ensures Get(lMap, k) == Child(l, k) && Get(rMap, k) == Child(r, k)
    ensures Height(Get(lMap, k)) + Height(Get(rMap, k)) < Height(l) + Height(r)
  {
    assert Get(lMap, k) == Child(l, k) && Get(rMap, k) == Child(r, k);
  }

  lemma NothingWalked(l: Json, r: Json)
    ensures WalkedKeys([], l, r, [])
  {
  }

  lemma KeysBelow(keys: seq<string>, i: nat)
    requires Increasing(keys) && i < |keys|
    ensures forall d | d in keys[..i] :: Less(d, keys[i])
  {
  }

  lemma AppendRendered(out: seq<FieldChange>, prefix: string, cs: seq<Change>, k: string, more: seq<Change>)
    ensures out + Rendered(prefix, cs) + Rendered(Under(prefix, k), more)
         == out + Rendered(prefix, cs + Lifted(k, more))
  {
    RenderLifted(prefix, k, more);
    assert Rendered(prefix, cs + Lifted(k, more))
        == Rendered(prefix, cs) + Rendered(prefix, Lifted(k, more));
  }

  // ----- the sorted result

  ghost predicate Sorted(fs: seq<FieldChange>) {
    forall i, j | 0 <= i < j < |fs| :: !Less(fs[j].path, fs[i].path)
  }

  method SortByPath(fs: seq<FieldChange>) returns (res: seq<FieldChange>)
    ensures Sorted(res) && multiset(res) == multiset(fs)
  {
    res := [];
    for n := 0 to |fs|
      invariant Sorted(res) && multiset(res) == multiset(fs[..n])
    {
      var x, i := fs[n], 0;
      while i < |res| && !Less(x.path, res[i].path)
        invariant 0 <= i <= |res|
        invariant forall j | 0 <= j < i :: !Less(x.path, res[j].path)
      {
        i := i + 1;
      }
      Inserted(res, i, x);
      assert fs[..n + 1] == fs[..n] + [x];
      res := res[..i] + [x] + res[i..];
    }
    assert fs[..|fs|] == fs;
  }

  lemma Inserted(fs: seq<FieldChange>, i: nat, x: FieldChange)
    requires Sorted(fs) && i <= |fs|
    requires forall j | 0 <= j < i :: !Less(x.path, fs[j].path)
    requires i < |fs| ==> Less(x.path, fs[i].path)
    ensures Sorted(fs[..i] + [x] + fs[i..])
    ensures multiset(fs[..i] + [x] + fs[i..]) == multiset(fs) + multiset{x}
  {
    assert fs == fs[..i] + fs[i..];
    var res := fs[..i] + [x] + fs[i..];
    forall a, b | 0 <= a < b < |res| ensures !Less(res[b].path, res[a].path) {
      InsertedPair(fs, i, x, a, b);
    }
  }

  lemma InsertedPair(fs: seq<FieldChange>, i: nat, x: FieldChange, a: nat, b: nat)
    requires Sorted(fs) && i <= |fs| && a < b <= |fs|
    requires forall j | 0 <= j < i :: !Less(x.path, fs[j].path)
    requires i < |fs| ==> Less(x.path, fs[i].path)
    ensures !Less((fs[..i] + [x] + fs[i..])[b].path, (fs[..i] + [x] + fs[i..])[a].path)
  {
    hide Less;
    if a == i {
      LessIsStrict(fs[i].path);
      NotBelow(x.path, fs[i].path, fs[b - 1].path);
    }
  }

  lemma NotBelow(x: string, y: string, z: string)
    requires Less(x, y) && !Less(z, y)
    ensures !Less(z, x)
  {
    if Less(z, x) { LessIsTransitive(z, x, y); }
  }

  /** out is a diff of l against r: the reported changes, printed, sorted by path. */
  ghost predicate IsDiff(out: seq<FieldChange>, l: Json, r: Json) {
    exists cs :: Enumerates(cs, l, r) && Sorted(out) && multiset(out) == multiset(Rendered("", cs))
  }

  /** A missing side is null. */
  method DiffSpec(local: Json, remote: Json) returns (out: seq<FieldChange>)
    ensures IsDiff(out, local, remote)
  {
    out := WalkFields("", local, remote, []);
    ghost var changes :| Enumerates(changes, local, remote) && out == [] + Rendered("", changes);
    assert out == Rendered("", changes);
    out := SortByPath(out);
  }
}
