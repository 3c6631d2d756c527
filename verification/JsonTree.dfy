/**
 Paths into a JSON tree, its leaves, and its normal form.
 */
module JsonTree {
  import opened Json

  // ----- height, for recursions that descend two trees at once

  ghost function Height(j: Json): nat
    decreases j
  {
    match j
    case Obj(m) => 1 + Tallest(j, m, m.Keys)
    case _ => 0
  }

  ghost function Tallest(j: Json, m: map<string, Json>, keys: set<string>): (h: nat)
    requires j == Obj(m) && keys <= m.Keys
    ensures forall k | k in keys :: Height(m[k]) <= h
    decreases j, keys
  {
    if keys == {} then 0
    else
      var k :| k in keys;
      var h, rest := Height(m[k]), Tallest(j, m, keys - {k});
      if h > rest then h else rest
  }

  /** The child under k; a leaf has none. */
  function Child(j: Json, k: string): (c: Json)
    ensures Height(c) <= Height(j)
    ensures j.Obj? ==> Height(c) < Height(j)
  {
    match j
    case Obj(m) =>
      assert k in m ==> Height(m[k]) <= Tallest(j, m, m.Keys);
      Get(m, k)
    case _ => Null
  }

  /** The value at a path of keys; nothing there reads as null. */
  function At(j: Json, path: seq<string>): Json
    decreases path
  {
    if path == [] then j else At(Child(j, path[0]), path[1..])
  }

  /** The scalar or array at a path, null when there is an object or nothing. */
  function Leaf(j: Json, path: seq<string>): Json {
    var v := At(j, path);
    if v.Obj? then Null else v
  }

  /** Two trees hold the same scalars and arrays at the same paths. */
  ghost predicate SameLeaves(a: Json, b: Json) {
    forall path :: Leaf(a, path) == Leaf(b, path)
  }

  lemma {:induction false} NothingUnderNull(path: seq<string>)
    ensures At(Null, path) == Null
  {
    if path != [] { NothingUnderNull(path[1..]); }
  }

  lemma {:induction false} NothingUnderLeaf(j: Json, path: seq<string>, rest: seq<string>)
    requires !At(j, path).Obj? && rest != []
    ensures At(j, path + rest) == Null
    decreases path
  {
    if path == [] {
      assert path + rest == rest;
      NothingUnderNull(rest[1..]);
    } else {
      assert (path + rest)[1..] == path[1..] + rest;
      NothingUnderLeaf(Child(j, path[0]), path[1..], rest);
    }
  }

  // ----- normal form

  /** Drops nulls and objects that hold nothing. */
  function Norm(j: Json): (n: Json)
    decreases j
  {
    match j
    case Obj(m) =>
      var kept := map k | k in m && !Norm(m[k]).Null? :: Norm(m[k]);
      if kept == map[] then Null else Obj(kept)
    case _ => j
  }

  lemma NormOfNull()
    ensures Norm(Null) == Null
  {
  }

  lemma NormChild(j: Json, k: string)
    ensures Child(Norm(j), k) == Norm(Child(j, k))
  {
    if j.Obj? {
      var kept := map k | k in j.fields && !Norm(j.fields[k]).Null? :: Norm(j.fields[k]);
      assert k in kept <==> k in j.fields && !Norm(j.fields[k]).Null?;
      assert kept == map[] ==> k !in kept;
    }
  }

  /** The normal form of an object, or of nothing, is determined by those of the children. */
  lemma NormFromChildren(a: Json, b: Json)
    requires (a.Obj? || a.Null?) && (b.Obj? || b.Null?)
    requires forall k :: Norm(Child(a, k)) == Norm(Child(b, k))
    ensures Norm(a) == Norm(b)
  {
    hide Norm, Height;
    forall k ensures Child(Norm(a), k) == Child(Norm(b), k) {
      NormChild(a, k);
      NormChild(b, k);
    }
    NormIsFilled(a);
    NormIsFilled(b);
    FilledByChildren(Norm(a), Norm(b));
  }

  /** Null, or an object that has fields, none of them null. */
  predicate Filled(n: Json) {
    n.Null? || (n.Obj? && n.fields != map[] && forall k | k in n.fields :: !n.fields[k].Null?)
  }

  lemma NormIsFilled(j: Json)
    requires j.Obj? || j.Null?
    ensures Filled(Norm(j))
  {
  }

  lemma FilledByChildren(a: Json, b: Json)
    requires Filled(a) && Filled(b)
    requires forall k :: Child(a, k) == Child(b, k)
    ensures a == b
  {
    hide Height;
    SameKeys(a, b);
    SameKeys(b, a);
    if a.Obj? && b.Obj? {
      assert forall k | k in a.fields :: a.fields[k] == Child(b, k);
      assert a.fields == b.fields;
    }
  }

  lemma SameKeys(a: Json, b: Json)
    requires Filled(a) && Filled(b)
    requires forall k :: Child(a, k) == Child(b, k)
    ensures a.Obj? ==> b.Obj? && a.fields.Keys <= b.fields.Keys
  {
    hide Height;
    if a.Obj? {
      forall k | k in a.fields ensures b.Obj? && k in b.fields {
        assert Child(b, k) == a.fields[k];
      }
      var k :| k in a.fields;
    }
  }

  lemma {:induction false} NormKeepsLeaves(j: Json, path: seq<string>)
    ensures Leaf(Norm(j), path) == Leaf(j, path)
    decreases path
  {
    if path != [] {
      if j.Obj? {
        NormChild(j, path[0]);
        NormKeepsLeaves(Child(j, path[0]), path[1..]);
      }
    }
  }

  lemma SameChildren(a: Json, b: Json, k: string)
    requires SameLeaves(a, b)
    ensures SameLeaves(Child(a, k), Child(b, k))
  {
    forall path ensures Leaf(Child(a, k), path) == Leaf(Child(b, k), path) {
      assert ([k] + path)[1..] == path;
      assert Leaf(a, [k] + path) == Leaf(b, [k] + path);
    }
  }

  lemma {:induction false} NormFromLeaves(a: Json, b: Json)
    requires SameLeaves(a, b)
    ensures Norm(a) == Norm(b)
    decreases Height(a) + Height(b)
  {
    assert Leaf(a, []) == Leaf(b, []);
    if a.Obj? || b.Obj? {
      forall k ensures Norm(Child(a, k)) == Norm(Child(b, k)) {
        SameChildren(a, b, k);
        NormFromLeaves(Child(a, k), Child(b, k));
      }
      NormFromChildren(a, b);
    }
  }

  /** The normal form is exactly what the leaves of a tree determine. */
  lemma NormIsTheLeaves(a: Json, b: Json)
    ensures Norm(a) == Norm(b) <==> SameLeaves(a, b)
  {
    if Norm(a) == Norm(b) {
      forall path ensures Leaf(a, path) == Leaf(b, path) {
        NormKeepsLeaves(a, path);
        NormKeepsLeaves(b, path);
      }
    } else if SameLeaves(a, b) {
      NormFromLeaves(a, b);
    }
  }
}
