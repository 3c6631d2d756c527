/**
 The ${asset.…} references: their shape, the scan of a string for them, and
 their interpolation.
 */
module AssetRefs {
  import opened Outcomes
  import opened Text

  /** scope is empty for the three-segment form. */
  datatype AssetRef = AssetRef(scope: string, name: string, key: string)

  predicate IsAlnum(c: char) {
    'A' <= c <= 'Z' || 'a' <= c <= 'z' || '0' <= c <= '9'
  }

  predicate IsWord(c: char) {
    IsAlnum(c) || c == '_' || c == '-'
  }

  predicate Ident(s: string) {
    s != "" && IsAlnum(s[0]) && forall c | c in s :: IsWord(c)
  }

  predicate ValidRef(r: AssetRef) {
    (r.scope == "" || Ident(r.scope)) && Ident(r.name) && Ident(r.key)
  }

  function FormatAssetRef(r: AssetRef): string {
    if r.scope == "" then r.name + "." + r.key else r.scope + "." + r.name + "." + r.key
  }

  const OPENING := "${asset."

  /** How a reference is written. */
  function Token(r: AssetRef): (t: string)
    ensures |t| > 0 && t[0] == '$'
  {
    OPENING + FormatAssetRef(r) + "}"
  }

  /** The reference at the very start of s: what the pattern matches there. */
  function ReadRef(s: string): Option<AssetRef> {
    if !HasPrefix(s, OPENING) then None
    else
      var rest := s[|OPENING|..];
      var close := IndexOf(rest, '}');
      if close == |rest| then None
      else
        var parts := Split(rest[..close], '.');
        if |parts| == 2 && Ident(parts[0]) && Ident(parts[1])
        then Some(AssetRef("", parts[0], parts[1]))
        else if |parts| == 3 && Ident(parts[0]) && Ident(parts[1]) && Ident(parts[2])
        then Some(AssetRef(parts[0], parts[1], parts[2]))
        else None
  }

  // ----- formatting and parsing

  predicate DotFree(s: string) {
    s != "" && '.' !in s
  }

  /** Parts a formatted reference can be taken apart into. */
  predicate Separable(r: AssetRef) {
    (r.scope == "" || DotFree(r.scope)) && DotFree(r.name) && DotFree(r.key)
  }

  function PartsOf(r: AssetRef): seq<string> {
    if r.scope == "" then [r.name, r.key] else [r.scope, r.name, r.key]
  }

  lemma FormatIsJoin(r: AssetRef)
    ensures FormatAssetRef(r) == Join(PartsOf(r), '.')
  {
    var p := PartsOf(r);
    assert p[1..] == if r.scope == "" then [r.key] else [r.name, r.key];
    if r.scope != "" {
      assert p[1..][1..] == [r.key];
      assert Join(p[1..], '.') == r.name + ['.'] + r.key;
      assert r.scope + ['.'] + (r.name + ['.'] + r.key) == r.scope + "." + r.name + "." + r.key;
    }
  }

  /** parseDependsOnRef; None is an error. */
  function ParseDependsOnRef(s: string): Option<AssetRef> {
    var parts := Split(s, '.');
    if |parts| == 2 then
      if parts[0] == "" || parts[1] == "" then None else Some(AssetRef("", parts[0], parts[1]))
    else if |parts| == 3 then
      if parts[0] == "" || parts[1] == "" || parts[2] == "" then None
      else Some(AssetRef(parts[0], parts[1], parts[2]))
    else None
  }

  lemma {:induction false} JoinSplit(s: string, sep: char)
    ensures Join(Split(s, sep), sep) == s
    decreases |s|
  {
    hide IndexOf;
    var i := IndexOf(s, sep);
    if i < |s| {
      var rest := s[i + 1..];
      JoinSplit(rest, sep);
      JoinCons(s[..i], Split(rest, sep), sep);
      assert s == s[..i] + [sep] + rest;
    }
  }

  lemma JoinCons(head: string, parts: seq<string>, sep: char)
    requires parts != []
    ensures Join([head] + parts, sep) == head + [sep] + Join(parts, sep)
  {
    assert ([head] + parts)[1..] == parts;
  }

  /** Parsing inverts formatting, in both directions, on every string and every separable reference. */
  lemma ParseIffFormat(s: string, r: AssetRef)
    ensures ParseDependsOnRef(s) == Some(r) <==> Separable(r) && s == FormatAssetRef(r)
  {
    FormatIsJoin(r);
    if Separable(r) && s == FormatAssetRef(r) {
      SplitJoin(PartsOf(r), '.');
    }
    if ParseDependsOnRef(s) == Some(r) {
      JoinSplit(s, '.');
      assert PartsOf(r) == Split(s, '.');
    }
  }

  lemma FormatInjective(a: AssetRef, b: AssetRef)
    requires Separable(a) && Separable(b) && FormatAssetRef(a) == FormatAssetRef(b)
    ensures a == b
  {
    ParseIffFormat(FormatAssetRef(a), a);
    ParseIffFormat(FormatAssetRef(b), b);
  }

  // ----- what the pattern matches

  lemma IdentHas(s: string)
    requires Ident(s)
    ensures DotFree(s) && '}' !in s && '/' !in s && '$' !in s
  {
  }

  lemma FormatHas(r: AssetRef)
    requires ValidRef(r)
    ensures Separable(r)
    ensures '}' !in FormatAssetRef(r) && '/' !in FormatAssetRef(r) && '$' !in FormatAssetRef(r)
  {
    if r.scope != "" { IdentHas(r.scope); }
    IdentHas(r.name);
    IdentHas(r.key);
  }

  lemma IdentIsNotEmpty(s: string)
    ensures Ident(s) ==> s != ""
  {
  }

  lemma ReadIsToken(s: string, r: AssetRef)
    requires ReadRef(s) == Some(r)
    ensures ValidRef(r) && Token(r) <= s
  {
    hide IndexOf, Split, Join, Ident;
    var rest := s[|OPENING|..];
    var close := IndexOf(rest, '}');
    var parts := Split(rest[..close], '.');
    JoinSplit(rest[..close], '.');
    FormatIsJoin(r);
    assert PartsOf(r) == parts by { IdentIsNotEmpty(parts[0]); }
    assert rest[..close] == FormatAssetRef(r);
    assert s == OPENING + rest[..close] + "}" + rest[close + 1..];
  }

  lemma TokenIsRead(s: string, r: AssetRef)
    requires ValidRef(r) && Token(r) <= s
    ensures ReadRef(s) == Some(r)
  {
    FormatHas(r);
    var f, after := FormatAssetRef(r), s[|Token(r)|..];
    assert s == OPENING + f + "}" + after;
    var rest := s[|OPENING|..];
    assert rest == f + ['}'] + after;
    IndexOfAt(f, '}', after);
    assert rest[..|f|] == f;
    ParseIffFormat(f, r);
    ReadAfterOpening(s, |f|, r);
  }

  /** Between the opening and the first brace stands what depends_on would parse, made of identifiers. */
  lemma ReadAfterOpening(s: string, close: nat, r: AssetRef)
    requires HasPrefix(s, OPENING)
    requires var rest := s[|OPENING|..]; close < |rest| && IndexOf(rest, '}') == close
    requires ParseDependsOnRef(s[|OPENING|..][..close]) == Some(r) && ValidRef(r)
    ensures ReadRef(s) == Some(r)
  {
    hide IndexOf, Split;
  }

  /** The scanner accepts exactly the strings that start with a written reference. */
  lemma ReadsIffToken(s: string, r: AssetRef)
    ensures ReadRef(s) == Some(r) <==> ValidRef(r) && Token(r) <= s
  {
    if ReadRef(s) == Some(r) { ReadIsToken(s, r); }
    if ValidRef(r) && Token(r) <= s { TokenIsRead(s, r); }
  }

  lemma ReadConsumes(s: string)
    requires ReadRef(s).Some?
    ensures Token(ReadRef(s).value) <= s
  {
    ReadsIffToken(s, ReadRef(s).value);
  }

  // ----- scanning

  /** Every reference of s, leftmost first, none overlapping. */
  function Refs(s: string): seq<AssetRef>
    decreases |s|
  {
    match ReadRef(s)
    case Some(r) => ReadConsumes(s); [r] + Refs(s[|Token(r)|..])
    case None => if s == "" then [] else Refs(s[1..])
  }

  lemma {:induction false} RefsAreValid(s: string)
    ensures forall r | r in Refs(s) :: ValidRef(r)
    decreases |s|
  {
    match ReadRef(s)
    case Some(r) =>
      ReadsIffToken(s, r);
      RefsAreValid(s[|Token(r)|..]);
    case None =>
      if s != "" { RefsAreValid(s[1..]); }
  }

  method FindAllRefs(s: string) returns (refs: seq<AssetRef>)
    ensures refs == Refs(s)
  {
    refs := [];
    var rest := s;
    while rest != ""
      invariant refs + Refs(rest) == Refs(s)
      decreases |rest|
    {
      var m := ReadRef(rest);
      if m.Some? {
        ReadConsumes(rest);
        assert refs + ([m.value] + Refs(rest[|Token(m.value)|..]))
            == (refs + [m.value]) + Refs(rest[|Token(m.value)|..]);
        refs, rest := refs + [m.value], rest[|Token(m.value)|..];
      } else {
        rest := rest[1..];
      }
    }
  }

  /** The references of several texts, one text after the other. */
  function RefsOfAll(values: seq<string>): seq<AssetRef> {
    if values == [] then [] else RefsOfAll(values[..|values| - 1]) + Refs(values[|values| - 1])
  }

  method CollectAssetRefs(values: seq<string>) returns (refs: seq<AssetRef>)
    ensures refs == RefsOfAll(values)
    ensures forall r :: r in refs <==> exists i | 0 <= i < |values| :: r in Refs(values[i])
  {
    hide Refs;
    refs := [];
    for n := 0 to |values|
      invariant refs == RefsOfAll(values[..n])
      invariant forall r :: r in refs <==> exists i | 0 <= i < n :: r in Refs(values[i])
    {
      assert values[..n + 1][..n] == values[..n];
      var found := FindAllRefs(values[n]);
      refs := refs + found;
    }
    assert values[..|values|] == values;
  }

  // ----- interpolation

  type Lookup = AssetRef -> Option<string>

  function Value(lookup: Lookup, r: AssetRef): string {
    match lookup(r) case Some(v) => v case None => Token(r)
  }

  function Expand(s: string, lookup: Lookup): string
    decreases |s|
  {
    match ReadRef(s)
    case Some(r) => ReadConsumes(s); Value(lookup, r) + Expand(s[|Token(r)|..], lookup)
    case None => if s == "" then "" else [s[0]] + Expand(s[1..], lookup)
  }

  /** The references the lookup does not know, as an error lists them. */
  function Missing(refs: seq<AssetRef>, lookup: Lookup): seq<string> {
    if refs == [] then []
    else (if lookup(refs[0]).None? then [FormatAssetRef(refs[0])] else []) + Missing(refs[1..], lookup)
  }

  lemma {:induction false} MissingIff(refs: seq<AssetRef>, lookup: Lookup)
    ensures Missing(refs, lookup) == [] <==> forall r | r in refs :: lookup(r).Some?
  {
    if refs != [] {
      MissingIff(refs[1..], lookup);
      assert refs == [refs[0]] + refs[1..];
    }
  }

  method InterpolateAssetRefs(src: string, lookup: Lookup) returns (res: Result<string, seq<string>>)
    ensures res.Ok? <==> forall r | r in Refs(src) :: lookup(r).Some?
    ensures res.Ok? ==> res.value == Expand(src, lookup)
    ensures res.Err? ==> res.error == Missing(Refs(src), lookup)
  {
    hide ReadRef, Token, FormatAssetRef, Missing, Value;
    var out, missing, rest := "", [], src;
    while rest != ""
      invariant out + Expand(rest, lookup) == Expand(src, lookup)
      invariant missing + Missing(Refs(rest), lookup) == Missing(Refs(src), lookup)
      decreases |rest|
    {
      var m := ReadRef(rest);
      if m.None? {
        assert out + ([rest[0]] + Expand(rest[1..], lookup)) == (out + [rest[0]]) + Expand(rest[1..], lookup);
        out, rest := out + [rest[0]], rest[1..];
      } else {
        var r := m.value;
        ReadConsumes(rest);
        var after := rest[|Token(r)|..];
        MissingStep(r, Refs(after), missing, lookup);
        if lookup(r).None? {
          missing := missing + [FormatAssetRef(r)];
        }
        assert out + (Value(lookup, r) + Expand(after, lookup)) == (out + Value(lookup, r)) + Expand(after, lookup);
        out, rest := out + Value(lookup, r), after;
      }
    }
    NothingInEmpty(lookup);
    MissingIff(Refs(src), lookup);
    MissingIff([], lookup);
    res := if |missing| > 0 then Err(missing) else Ok(out);
  }

  lemma NothingInEmpty(lookup: Lookup)
    ensures Refs("") == [] && Expand("", lookup) == ""
  {
  }

  lemma MissingStep(r: AssetRef, refs: seq<AssetRef>, missing: seq<string>, lookup: Lookup)
    ensures missing + Missing([r] + refs, lookup)
         == (if lookup(r).None? then missing + [FormatAssetRef(r)] else missing) + Missing(refs, lookup)
  {
    assert ([r] + refs)[1..] == refs;
  }

  // ----- what is replaced, and what is not

  /** Texts with one word between each two. */
  function Weave(texts: seq<string>, words: seq<string>): string
    requires |texts| == |words| + 1
  {
    if words == [] then texts[0] else texts[0] + words[0] + Weave(texts[1..], words[1..])
  }

  function TokensOf(refs: seq<AssetRef>): (ts: seq<string>)
    ensures |ts| == |refs|
  {
    seq(|refs|, i requires 0 <= i < |refs| => Token(refs[i]))
  }

  function ValuesOf(refs: seq<AssetRef>, lookup: Lookup): (vs: seq<string>)
    ensures |vs| == |refs|
  {
    seq(|refs|, i requires 0 <= i < |refs| => Value(lookup, refs[i]))
  }

  /** The texts between the references of s. */
  function Texts(s: string): (ts: seq<string>)
    ensures |ts| == |Refs(s)| + 1
    decreases |s|
  {
    match ReadRef(s)
    case Some(r) => ReadConsumes(s); [""] + Texts(s[|Token(r)|..])
    case None =>
      if s == "" then [""]
      else var ts := Texts(s[1..]); [[s[0]] + ts[0]] + ts[1..]
  }

  lemma WeaveLonger(c: char, texts: seq<string>, words: seq<string>)
    requires |texts| == |words| + 1
    ensures Weave([[c] + texts[0]] + texts[1..], words) == [c] + Weave(texts, words)
  {
    assert ([[c] + texts[0]] + texts[1..])[1..] == texts[1..];
  }

  lemma WeaveFirst(word: string, texts: seq<string>, words: seq<string>)
    requires |texts| == |words| + 1
    ensures Weave([""] + texts, [word] + words) == word + Weave(texts, words)
  {
    hide Weave;
    var ts, ws := [""] + texts, [word] + words;
    assert ts[1..] == texts && ws[1..] == words;
    assert "" + word == word;
    WeaveStep(ts, ws);
  }

  lemma WeaveStep(texts: seq<string>, words: seq<string>)
    requires |texts| == |words| + 1 > 1
    ensures Weave(texts, words) == texts[0] + words[0] + Weave(texts[1..], words[1..])
  {
  }

  /** A string is its texts woven with its references; interpolation weaves the values in their place. */
  lemma {:induction false} OnlyReferencesChange(s: string, lookup: Lookup)
    ensures s == Weave(Texts(s), TokensOf(Refs(s)))
    ensures Expand(s, lookup) == Weave(Texts(s), ValuesOf(Refs(s), lookup))
    decreases |s|
  {
    hide ReadRef, Token, Value;
    var tokens, values := TokensOf(Refs(s)), ValuesOf(Refs(s), lookup);
    match ReadRef(s)
    case Some(r) =>
      ReadConsumes(s);
      var after := s[|Token(r)|..];
      OnlyReferencesChange(after, lookup);
      assert Texts(s) == [""] + Texts(after);
      assert tokens == [Token(r)] + TokensOf(Refs(after));
      assert values == [Value(lookup, r)] + ValuesOf(Refs(after), lookup);
      WeaveFirst(Token(r), Texts(after), TokensOf(Refs(after)));
      WeaveFirst(Value(lookup, r), Texts(after), ValuesOf(Refs(after), lookup));
      assert s == Token(r) + after;
    case None =>
      if s != "" {
        OnlyReferencesChange(s[1..], lookup);
        WeaveLonger(s[0], Texts(s[1..]), tokens);
        WeaveLonger(s[0], Texts(s[1..]), values);
        assert s == [s[0]] + s[1..];
      }
  }

  // ----- one pass is enough

  /** The values a lookup gives are paths. */
  ghost predicate GivesPaths(lookup: Lookup) {
    forall r | ValidRef(r) && lookup(r).Some? :: PathLike(lookup(r).value)
  }

  predicate PathLike(v: string) {
    v != "" && v[0] == '/' && '$' !in v
  }

  predicate AllResolve(s: string, lookup: Lookup) {
    forall r | r in Refs(s) :: lookup(r).Some?
  }

  /** A slash-free prefix of the result comes unchanged from the source. */
  lemma {:induction false} PrefixIsLiteral(s: string, lookup: Lookup, t: string)
    requires GivesPaths(lookup) && AllResolve(s, lookup)
    requires t <= Expand(s, lookup) && '/' !in t
    ensures t <= s
    decreases |s|
  {
    hide ReadRef, Token;
    RefsAreValid(s);
    if t != "" {
      assert t[0] in t && t[0] == Expand(s, lookup)[0];
      match ReadRef(s)
      case Some(r) =>
        ReadConsumes(s);
        assert r in Refs(s);
      case None =>
        assert s != "" && t[0] == s[0];
        PrefixIsLiteral(s[1..], lookup, t[1..]);
        assert t == [t[0]] + t[1..] && s == [s[0]] + s[1..];
    }
  }

  lemma TokenHasNoSlash(r: AssetRef)
    requires ValidRef(r)
    ensures '/' !in Token(r)
  {
    FormatHas(r);
  }

  /** No reference starts inside a path. */
  lemma {:induction false} PathHidesNothing(path: string, rest: string)
    requires '$' !in path
    ensures Refs(path + rest) == Refs(rest)
  {
    if path == "" {
      assert path + rest == rest;
    } else {
      var all := path + rest;
      assert all[0] == path[0] && path[0] in path;
      if ReadRef(all).Some? {
        ReadConsumes(all);
        assert false;
      }
      assert all[1..] == path[1..] + rest;
      PathHidesNothing(path[1..], rest);
    }
  }

  /** A successful result contains no reference. */
  lemma {:induction false} ResultHasNoReference(s: string, lookup: Lookup)
    requires GivesPaths(lookup) && AllResolve(s, lookup)
    ensures Refs(Expand(s, lookup)) == []
    decreases |s|
  {
    match ReadRef(s)
    case Some(r) =>
      ReadConsumes(s);
      var after := s[|Token(r)|..];
      assert Refs(s) == [r] + Refs(after);
      RefsAreValid(s);
      ResultHasNoReference(after, lookup);
      PathHidesNothing(Value(lookup, r), Expand(after, lookup));
    case None =>
      if s != "" {
        var out := Expand(s, lookup);
        ResultHasNoReference(s[1..], lookup);
        assert out[1..] == Expand(s[1..], lookup);
        if ReadRef(out).Some? {
          var r := ReadRef(out).value;
          ReadsIffToken(out, r);
          TokenHasNoSlash(r);
          PrefixIsLiteral(s, lookup, Token(r));
          ReadsIffToken(s, r);
          assert false;
        }
      }
  }

  lemma {:induction false} NothingToExpand(s: string, lookup: Lookup)
    requires Refs(s) == []
    ensures Expand(s, lookup) == s
    decreases |s|
  {
    if s != "" {
      assert ReadRef(s).None?;
      NothingToExpand(s[1..], lookup);
      assert s == [s[0]] + s[1..];
    }
  }

  /** Interpolating a successful result again, with any lookup, changes nothing. */
  lemma InterpolationIsIdempotent(s: string, lookup: Lookup, other: Lookup)
    requires GivesPaths(lookup) && AllResolve(s, lookup)
    ensures AllResolve(Expand(s, lookup), other)
    ensures Expand(Expand(s, lookup), other) == Expand(s, lookup)
  {
    ResultHasNoReference(s, lookup);
    NothingToExpand(Expand(s, lookup), other);
  }

  // ----- what the premise rests on, and why both halves are needed

  /** Where an asset file is kept, under a clean root. */
  function AssetFile(root: string, r: AssetRef): string {
    root + "/assets" + (if r.scope == "" then "" else "/" + r.scope) + "/" + r.name + "/" + r.key
  }

  /** The controller's own lookup: declared assets resolve to their conventional path. */
  lemma ConventionGivesPaths(root: string, declared: AssetRef -> bool)
    requires PathLike(root)
    ensures GivesPaths(r => if declared(r) then Some(AssetFile(root, r)) else None)
  {
    forall r | ValidRef(r) ensures PathLike(AssetFile(root, r)) {
      if r.scope != "" { IdentHas(r.scope); }
      IdentHas(r.name);
      IdentHas(r.key);
      assert AssetFile(root, r)[0] == root[0];
    }
  }

  lemma RefsOfToken(r: AssetRef, rest: string)
    requires ValidRef(r)
    ensures Refs(Token(r) + rest) == [r] + Refs(rest)
    ensures forall lookup: Lookup :: Expand(Token(r) + rest, lookup) == Value(lookup, r) + Expand(rest, lookup)
  {
    hide ReadRef;
    ReadsIffToken(Token(r) + rest, r);
    assert (Token(r) + rest)[|Token(r)|..] == rest;
  }

  /** A path with a '$' can carry a reference into the result. */
  lemma DollarReintroduces(r: AssetRef, other: AssetRef, lookup: Lookup)
    requires ValidRef(r) && ValidRef(other) && lookup(r) == Some("/" + Token(other))
    ensures Refs(Expand(Token(r), lookup)) == [other]
  {
    hide ReadRef, Token;
    RefsOfToken(r, "");
    assert Token(r) + "" == Token(r);
    NothingInEmpty(lookup);
    RefsOfToken(other, "");
    assert Token(other) + "" == Token(other);
    PathHidesNothing("/", Token(other));
    assert "/" + Token(other) + "" == "/" + Token(other);
  }

  /** A value without the leading '/' can join the texts around it into a reference. */
  lemma EmptyValueJoins(r: AssetRef, other: AssetRef, lookup: Lookup)
    requires ValidRef(r) && ValidRef(other) && lookup(r) == Some("")
    ensures var s := "$" + Token(r) + Token(other)[1..];
            Refs(s) == [r] && Refs(Expand(s, lookup)) == [other]
  {
    hide Refs, Expand;
    var tail := Token(other)[1..];
    var s := "$" + Token(r) + tail;
    assert s[1..] == Token(r) + tail;
    assert s[1] == '$';
    StepOver(s, lookup);
    RefsOfToken(r, tail);
    FormatHas(other);
    assert '$' !in tail;
    NothingInEmpty(lookup);
    PathHidesNothing(tail, "");
    assert tail + "" == tail;
    NothingToExpand(tail, lookup);
    assert "" + tail == tail && "$" + tail == Token(other);
    RefsOfToken(other, "");
    assert Token(other) + "" == Token(other);
  }

  lemma StepOver(s: string, lookup: Lookup)
    requires |s| > 1 && s[1] != '{'
    ensures Refs(s) == Refs(s[1..]) && Expand(s, lookup) == [s[0]] + Expand(s[1..], lookup)
  {
    assert OPENING[1] == '{';
  }

  /** A reference is written scope first, key last, and without a dot for a missing scope. */
  lemma WrittenForm(scope: string, name: string, key: string)
    ensures Token(AssetRef("", name, key)) == "${asset." + name + "." + key + "}"
    ensures scope != "" ==> Token(AssetRef(scope, name, key)) == "${asset." + scope + "." + name + "." + key + "}"
  {
    assert OPENING + (name + "." + key) == OPENING + name + "." + key;
    assert OPENING + (scope + "." + name + "." + key) == OPENING + scope + "." + name + "." + key;
  }
}
