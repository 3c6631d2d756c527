/**
 Lexicographic order of strings, as Go's < and sort.Strings use it, and the
 same order one level up, on paths of keys.
 */
module Order {

  predicate Less(a: string, b: string) {
    && b != ""
    && (a == "" || a[0] < b[0] || (a[0] == b[0] && Less(a[1..], b[1..])))
  }

  lemma {:induction false} LessIsStrict(a: string)
    ensures !Less(a, a)
  {
    if a != "" { LessIsStrict(a[1..]); }
  }

  lemma {:induction false} LessIsTransitive(a: string, b: string, c: string)
    requires Less(a, b) && Less(b, c)
    ensures Less(a, c)
  {
    if a != "" && a[0] == b[0] == c[0] { LessIsTransitive(a[1..], b[1..], c[1..]); }
  }

  lemma {:induction false} LessIsTotal(a: string, b: string)
    ensures Less(a, b) || a == b || Less(b, a)
  {
    if a != "" && b != "" && a[0] == b[0] {
      LessIsTotal(a[1..], b[1..]);
      assert a == [a[0]] + a[1..] && b == [b[0]] + b[1..];
    }
  }

  predicate PathLess(p: seq<string>, q: seq<string>) {
    && q != []
    && (p == [] || Less(p[0], q[0]) || (p[0] == q[0] && PathLess(p[1..], q[1..])))
  }

  lemma {:induction false} PathLessIsStrict(p: seq<string>)
    ensures !PathLess(p, p)
  {
    if p != [] {
      LessIsStrict(p[0]);
      PathLessIsStrict(p[1..]);
    }
  }

  lemma {:induction false} PathLessIsTransitive(p: seq<string>, q: seq<string>, r: seq<string>)
    requires PathLess(p, q) && PathLess(q, r)
    ensures PathLess(p, r)
  {
    if p != [] {
      LessIsStrict(p[0]);
      if p[0] == q[0] == r[0] {
        PathLessIsTransitive(p[1..], q[1..], r[1..]);
      } else if p[0] != q[0] && q[0] != r[0] {
        LessIsTransitive(p[0], q[0], r[0]);
      }
    }
  }

  /** Strictly increasing strings. */
  ghost predicate Increasing(keys: seq<string>) {
    forall i, j | 0 <= i < j < |keys| :: Less(keys[i], keys[j])
  }

  /** One insertion step of sort.Strings; k is new. */
  method InsertKey(keys: seq<string>, k: string) returns (res: seq<string>)
    requires Increasing(keys) && k !in keys
    ensures Increasing(res)
    ensures forall x :: x in res <==> x in keys || x == k
  {
    var i := 0;
    while i < |keys| && Less(keys[i], k)
      invariant 0 <= i <= |keys|
      invariant forall j | 0 <= j < i :: Less(keys[j], k)
    {
      i := i + 1;
    }
    forall j | i <= j < |keys| ensures Less(k, keys[j]) {
      LessIsTotal(keys[i], k);
      if i < j { LessIsTransitive(k, keys[i], keys[j]); }
    }
    res := keys[..i] + [k] + keys[i..];
  }
}
