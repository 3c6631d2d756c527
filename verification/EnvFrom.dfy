/**
 The variables a manifest file is interpolated with: config buckets fetched
 through a cache, layered under the operator's shell.
 */
module EnvFrom {
  import opened Outcomes

  type Env = map<string, string>

  /** The refs found in one file; interpolates is whether it has a "${" at all. */
  datatype Source = Source(envFrom: seq<string>, resources: seq<string>, interpolates: bool)

  function OwnRefs(file: Source): seq<string> {
    if file.interpolates then file.resources else []
  }

  function AllRefs(file: Source): seq<string> {
    file.envFrom + OwnRefs(file)
  }

  // ----- the plain definition

  /** The value of the last reference that defines k. */
  function LastDefining(refs: seq<string>, buckets: map<string, Env>, k: string): Option<string> {
    if refs == [] then None
    else
      var last := refs[|refs| - 1];
      if last in buckets && k in buckets[last] then Some(buckets[last][k])
      else LastDefining(refs[..|refs| - 1], buckets, k)
  }

  /** The shell's value, or else that of the last reference that defines k. */
  function Layered(refs: seq<string>, buckets: map<string, Env>, shell: Env, k: string): Option<string> {
    if k in shell then Some(shell[k]) else LastDefining(refs, buckets, k)
  }

  ghost predicate IsLayered(env: Env, refs: seq<string>, buckets: map<string, Env>, shell: Env) {
    forall k :: (if k in env then Some(env[k]) else None) == Layered(refs, buckets, shell, k)
  }

  lemma LayeredUnique(a: Env, b: Env, refs: seq<string>, buckets: map<string, Env>, shell: Env)
    requires IsLayered(a, refs, buckets, shell) && IsLayered(b, refs, buckets, shell)
    ensures a == b
  {
    forall k ensures k in a <==> k in b
             ensures k in a ==> a[k] == b[k]
    {
      assert (if k in a then Some(a[k]) else None) == (if k in b then Some(b[k]) else None);
    }
  }

  // ----- the backend and the cache

  /** What the backend answers to the i-th call, if that asks for the ref; None is a failure. */
  type Answers = (string, nat) -> Option<Env>

  /** Call i asked for ref and was answered. */
  predicate Fetched(answer: Answers, calls: seq<string>, ref: string, i: nat) {
    i < |calls| && calls[i] == ref && answer(ref, i).Some?
  }

  /** Some call asked for ref and failed. */
  ghost predicate Failed(answer: Answers, calls: seq<string>, ref: string) {
    exists i: nat | i < |calls| :: calls[i] == ref && answer(ref, i).None?
  }

  /**
   Of the calls from since on, one fetched each cached bucket, with the cached
   content, and none fetched any other; once fetched, a bucket is not asked
   for again.
   */
  ghost predicate Tracked(answer: Answers, calls: seq<string>, since: nat, entries: map<string, Env>) {
    && since <= |calls|
    && (forall ref | ref in entries :: exists i: nat | since <= i :: Fetched(answer, calls, ref, i))
    && (forall ref, i: nat | since <= i && Fetched(answer, calls, ref, i) ::
          ref in entries && answer(ref, i) == Some(entries[ref]))
    && (forall ref, i: nat, j: nat | since <= i < j < |calls| && Fetched(answer, calls, ref, i) :: calls[j] != ref)
  }

  lemma OneMoreCall(answer: Answers, calls: seq<string>, since: nat, entries: map<string, Env>, ref: string)
    requires Tracked(answer, calls, since, entries) && ref !in entries
    ensures var got := answer(ref, |calls|);
            Tracked(answer, calls + [ref], since, if got.Some? then entries[ref := got.value] else entries)
    ensures answer(ref, |calls|).None? ==> Failed(answer, calls + [ref], ref)
  {
    var n, more, got := |calls|, calls + [ref], answer(ref, |calls|);
    var after := if got.Some? then entries[ref := got.value] else entries;
    assert more[n] == ref;
    forall r, i: nat
      ensures Fetched(answer, more, r, i) <==> Fetched(answer, calls, r, i) || (i == n && r == ref && got.Some?)
    {
    }
    forall r | r in after ensures exists i: nat | since <= i :: Fetched(answer, more, r, i) {
      if r == ref {
        assert Fetched(answer, more, ref, n);
      } else {
        var i: nat :| since <= i && Fetched(answer, calls, r, i);
        assert Fetched(answer, more, r, i);
      }
    }
  }

  lemma StillFailed(answer: Answers, calls: seq<string>, more: seq<string>, ref: string)
    requires calls <= more && Failed(answer, calls, ref)
    ensures Failed(answer, more, ref)
  {
    var i: nat :| i < |calls| && calls[i] == ref && answer(ref, i).None?;
    assert more[i] == ref;
  }

  class Backend {
    const answer: Answers
    var calls: seq<string>

    constructor (answer: Answers)
      ensures this.answer == answer && calls == []
    {
      this.answer, calls := answer, [];
    }

    method Fetch(ref: string) returns (r: Option<Env>)
      modifies this
      ensures calls == old(calls) + [ref] && r == answer(ref, |old(calls)|)
    {
      r := answer(ref, |calls|);
      calls := calls + [ref];
    }
  }

  /** Cached buckets stay as they are. */
  ghost predicate Extends(before: map<string, Env>, after: map<string, Env>) {
    forall r | r in before :: r in after && after[r] == before[r]
  }

  class BucketCache {
    var entries: map<string, Env>
    /** How many calls had been made when the cache was created. */
    ghost const since: nat

    constructor (backend: Backend)
      ensures entries == map[] && Tracks(backend) && since == |backend.calls|
    {
      entries, since := map[], |backend.calls|;
    }

    ghost predicate Tracks(backend: Backend)
      reads this, backend
    {
      Tracked(backend.answer, backend.calls, since, entries)
    }

    method Fetch(backend: Backend, ref: string) returns (vars: Option<Env>)
      requires Tracks(backend)
      modifies this, backend
      ensures Tracks(backend) && old(backend.calls) <= backend.calls
      ensures Extends(old(entries), entries)
      ensures forall r | r in entries && r != ref :: r in old(entries)
      ensures vars == if ref in entries then Some(entries[ref]) else None
      ensures vars.None? ==> Failed(backend.answer, backend.calls, ref)
    {
      hide Tracked, Failed;
      if ref in entries { return Some(entries[ref]); }
      OneMoreCall(backend.answer, backend.calls, since, entries, ref);
      vars := backend.Fetch(ref);
      if vars.None? { return; }
      entries := entries[ref := vars.value];
    }
  }

  // ----- merging

  method MergeBucketEnv(refs: seq<string>, buckets: map<string, Env>, shell: Env) returns (out: Env)
    ensures IsLayered(out, refs, buckets, shell)
  {
    out := map[];
    for n := 0 to |refs|
      invariant forall k :: (if k in out then Some(out[k]) else None) == LastDefining(refs[..n], buckets, k)
    {
      assert refs[..n + 1][..n] == refs[..n];
      if refs[n] in buckets {
        out := out + buckets[refs[n]];
      }
    }
    assert refs[..|refs|] == refs;
    out := out + shell;
  }

  // ----- one file

  /** Only the referenced buckets matter. */
  lemma {:induction false} OnlyReferenced(refs: seq<string>, a: map<string, Env>, b: map<string, Env>, k: string)
    requires forall r | r in refs :: (r in a <==> r in b) && (r in a ==> a[r] == b[r])
    ensures LastDefining(refs, a, k) == LastDefining(refs, b, k)
  {
    if refs != [] {
      assert refs[|refs| - 1] in refs;
      OnlyReferenced(refs[..|refs| - 1], a, b, k);
    }
  }

  lemma SameLayers(env: Env, refs: seq<string>, a: map<string, Env>, b: map<string, Env>, shell: Env)
    requires IsLayered(env, refs, a, shell)
    requires forall r | r in refs :: (r in a <==> r in b) && (r in a ==> a[r] == b[r])
    ensures IsLayered(env, refs, b, shell)
  {
    forall k ensures Layered(refs, a, shell, k) == Layered(refs, b, shell, k) {
      OnlyReferenced(refs, a, b, k);
    }
  }

  /** The buckets read so far for the given refs: exactly the cached ones, the others having failed. */
  ghost predicate ReadSoFar(buckets: map<string, Env>, refs: seq<string>, entries: map<string, Env>,
                            answer: Answers, calls: seq<string>)
  {
    && (forall r | r in buckets :: r in entries && buckets[r] == entries[r])
    && (forall r | r in refs && r !in buckets :: r !in entries && Failed(answer, calls, r))
  }

  lemma ReadOneMore(buckets: map<string, Env>, refs: seq<string>, ref: string, before: map<string, Env>,
                    answer: Answers, calls: seq<string>, vars: Option<Env>, after: map<string, Env>, more: seq<string>)
    requires ReadSoFar(buckets, refs, before, answer, calls)
    requires Extends(before, after) && calls <= more
    requires forall r | r in after && r != ref :: r in before
    requires vars == (if ref in after then Some(after[ref]) else None)
    requires vars.None? ==> Failed(answer, more, ref)
    ensures vars.Some? ==> ReadSoFar(buckets[ref := vars.value], refs + [ref], after, answer, more)
    ensures vars.None? && ref !in buckets ==> ReadSoFar(buckets, refs + [ref], after, answer, more)
  {
    hide Failed;
    forall r | r in refs && r !in buckets ensures Failed(answer, more, r) {
      StillFailed(answer, calls, more, r);
    }
  }

  /**
   The environment of one file: the plain definition over what the cache
   holds afterwards, where every referenced bucket is, except own ones that
   failed. An error names an env_from bucket that failed.
   */
  method EnrichEnv(backend: Backend, file: Source, shell: Env, cache: BucketCache) returns (res: Result<Env, string>)
    requires cache.Tracks(backend)
    modifies cache, backend
    ensures cache.Tracks(backend) && old(backend.calls) <= backend.calls
    ensures Extends(old(cache.entries), cache.entries)
    ensures res.Ok? ==> IsLayered(res.value, AllRefs(file), cache.entries, shell)
    ensures res.Ok? ==> forall r | r in file.envFrom :: r in cache.entries
    ensures res.Ok? ==> forall r | r in AllRefs(file) && r !in cache.entries :: Failed(backend.answer, backend.calls, r)
    ensures res.Err? ==> res.error in file.envFrom && Failed(backend.answer, backend.calls, res.error)
  {
    hide Tracked, Failed, LastDefining;
    var ownRefs := if file.interpolates then file.resources else [];
    if |file.envFrom| == 0 && |ownRefs| == 0 {
      NothingLayered(shell, cache.entries);
      assert AllRefs(file) == [];
      return Ok(shell);
    }
    var allRefs := file.envFrom + ownRefs;
    var buckets: map<string, Env> := map[];
    for n := 0 to |file.envFrom|
      invariant cache.Tracks(backend) && old(backend.calls) <= backend.calls
      invariant Extends(old(cache.entries), cache.entries)
      invariant forall r | r in file.envFrom[..n] :: r in buckets
      invariant ReadSoFar(buckets, file.envFrom[..n], cache.entries, backend.answer, backend.calls)
    {
      var ref := file.envFrom[n];
      ghost var before, calls := cache.entries, backend.calls;
      var vars := cache.Fetch(backend, ref);
      if vars.None? { return Err(ref); }
      ReadOneMore(buckets, file.envFrom[..n], ref, before, backend.answer, calls, vars, cache.entries, backend.calls);
      assert file.envFrom[..n + 1] == file.envFrom[..n] + [ref];
      buckets := buckets[ref := vars.value];
    }
    assert file.envFrom[..|file.envFrom|] == file.envFrom;
    for n := 0 to |ownRefs|
      invariant cache.Tracks(backend) && old(backend.calls) <= backend.calls
      invariant Extends(old(cache.entries), cache.entries)
      invariant forall r | r in file.envFrom :: r in buckets
      invariant ReadSoFar(buckets, file.envFrom + ownRefs[..n], cache.entries, backend.answer, backend.calls)
    {
      var ref := ownRefs[n];
      assert file.envFrom + ownRefs[..n + 1] == file.envFrom + ownRefs[..n] + [ref];
      if ref in buckets { continue; }
      ghost var before, calls := cache.entries, backend.calls;
      var vars := cache.Fetch(backend, ref);
      ReadOneMore(buckets, file.envFrom + ownRefs[..n], ref, before, backend.answer, calls,
                  vars, cache.entries, backend.calls);
      if vars.None? { continue; }
      buckets := buckets[ref := vars.value];
    }
    assert ownRefs[..|ownRefs|] == ownRefs;
    var env := MergeBucketEnv(allRefs, buckets, shell);
    SameLayers(env, allRefs, buckets, cache.entries, shell);
    return Ok(env);
  }

  lemma NothingLayered(shell: Env, entries: map<string, Env>)
    ensures IsLayered(shell, [], entries, shell)
  {
  }

  // ----- a session over many files, with a stable backend

  /** The content of every bucket the backend has. */
  ghost predicate Stable(answer: Answers, content: string -> Option<Env>) {
    forall ref, i: nat :: answer(ref, i) == content(ref)
  }

  /** Fetching every bucket each time it is referenced, and no cache. */
  ghost predicate IsPlain(env: Env, file: Source, content: string -> Option<Env>, shell: Env) {
    forall k :: (if k in env then Some(env[k]) else None)
             == if k in shell then Some(shell[k]) else LastOf(AllRefs(file), content, k)
  }

  function LastOf(refs: seq<string>, content: string -> Option<Env>, k: string): Option<string> {
    if refs == [] then None
    else
      var got := content(refs[|refs| - 1]);
      if got.Some? && k in got.value then Some(got.value[k]) else LastOf(refs[..|refs| - 1], content, k)
  }

  lemma CacheHoldsContent(answer: Answers, content: string -> Option<Env>, calls: seq<string>, since: nat,
                          entries: map<string, Env>, ref: string)
    requires Tracked(answer, calls, since, entries) && Stable(answer, content)
    ensures ref in entries ==> content(ref) == Some(entries[ref])
    ensures Failed(answer, calls, ref) ==> content(ref) == None
  {
    if ref in entries {
      var i: nat :| since <= i && Fetched(answer, calls, ref, i);
      assert answer(ref, i) == content(ref);
    }
  }

  lemma {:induction false} LayersArePlain(refs: seq<string>, entries: map<string, Env>,
                                          content: string -> Option<Env>, k: string)
    requires forall r | r in refs :: content(r) == if r in entries then Some(entries[r]) else None
    ensures LastDefining(refs, entries, k) == LastOf(refs, content, k)
  {
    if refs != [] {
      assert refs[|refs| - 1] in refs;
      LayersArePlain(refs[..|refs| - 1], entries, content, k);
    }
  }

  /** Enriching with the cache refines the plain definition. */
  lemma CachedIsPlain(env: Env, file: Source, shell: Env, entries: map<string, Env>,
                      answer: Answers, content: string -> Option<Env>, calls: seq<string>, since: nat)
    requires Tracked(answer, calls, since, entries) && Stable(answer, content)
    requires IsLayered(env, AllRefs(file), entries, shell)
    requires forall r | r in AllRefs(file) && r !in entries :: Failed(answer, calls, r)
    ensures IsPlain(env, file, content, shell)
  {
    forall r | r in AllRefs(file) ensures content(r) == if r in entries then Some(entries[r]) else None {
      CacheHoldsContent(answer, content, calls, since, entries, r);
    }
    forall k ensures LastDefining(AllRefs(file), entries, k) == LastOf(AllRefs(file), content, k) {
      LayersArePlain(AllRefs(file), entries, content, k);
    }
  }

  /** One apply: every file in turn, through one cache. */
  method EnrichAll(backend: Backend, files: seq<Source>, shell: Env, ghost content: string -> Option<Env>)
    returns (envs: seq<Env>, ok: bool, cache: BucketCache)
    requires Stable(backend.answer, content)
    modifies backend
    ensures cache.Tracks(backend) && cache.since == |old(backend.calls)|
    ensures forall i, j | |old(backend.calls)| <= i < j < |backend.calls| && backend.calls[i] == backend.calls[j] ::
              backend.answer(backend.calls[i], i).None?
    ensures |envs| <= |files| && (ok ==> |envs| == |files|)
    ensures forall i | 0 <= i < |envs| :: IsPlain(envs[i], files[i], content, shell)
    ensures ok <==> forall i, ref | 0 <= i < |files| && ref in files[i].envFrom :: content(ref).Some?
  {
    hide Tracked, IsLayered, Failed, IsPlain;
    cache := new BucketCache(backend);
    envs, ok := [], true;
    for n := 0 to |files|
      invariant cache.Tracks(backend) && fresh(cache) && cache.since == |old(backend.calls)|
      invariant |envs| == n && forall i | 0 <= i < n :: IsPlain(envs[i], files[i], content, shell)
      invariant forall i, ref | 0 <= i < n && ref in files[i].envFrom :: content(ref).Some?
    {
      var res := EnrichEnv(backend, files[n], shell, cache);
      forall ref ensures ref in cache.entries ==> content(ref).Some?
                 ensures Failed(backend.answer, backend.calls, ref) ==> content(ref).None?
      {
        CacheHoldsContent(backend.answer, content, backend.calls, cache.since, cache.entries, ref);
      }
      if res.Err? {
        OnceOnly(backend.answer, backend.calls, cache.since, cache.entries);
        return envs, false, cache;
      }
      CachedIsPlain(res.value, files[n], shell, cache.entries, backend.answer, content, backend.calls, cache.since);
      envs := envs + [res.value];
    }
    OnceOnly(backend.answer, backend.calls, cache.since, cache.entries);
  }

  /** A bucket asked for again had failed before: none is fetched twice. */
  lemma OnceOnly(answer: Answers, calls: seq<string>, since: nat, entries: map<string, Env>)
    requires Tracked(answer, calls, since, entries)
    ensures forall i, j | since <= i < j < |calls| && calls[i] == calls[j] :: answer(calls[i], i).None?
  {
    forall i, j | since <= i < j < |calls| && calls[i] == calls[j] ensures answer(calls[i], i).None? {
      assert Fetched(answer, calls, calls[i], i) <==> answer(calls[i], i).Some?;
    }
  }

  // ----- which value wins

  predicate Defines(refs: seq<string>, buckets: map<string, Env>, k: string, i: nat) {
    i < |refs| && refs[i] in buckets && k in buckets[refs[i]]
  }

  ghost predicate SomeDefines(refs: seq<string>, buckets: map<string, Env>, k: string) {
    exists i: nat :: Defines(refs, buckets, k, i)
  }

  /** value is what the last of these references to define k gives it. */
  ghost predicate LastGives(refs: seq<string>, buckets: map<string, Env>, k: string, value: string) {
    exists i: nat :: Defines(refs, buckets, k, i) && buckets[refs[i]][k] == value
                     && forall j: nat | i < j :: !Defines(refs, buckets, k, j)
  }

  lemma {:induction false} LastDefiningIff(refs: seq<string>, buckets: map<string, Env>, k: string)
    ensures LastDefining(refs, buckets, k).Some? <==> SomeDefines(refs, buckets, k)
    ensures LastDefining(refs, buckets, k).Some? ==>
              LastGives(refs, buckets, k, LastDefining(refs, buckets, k).value)
  {
    if refs != [] {
      var n := |refs| - 1;
      LastDefiningIff(refs[..n], buckets, k);
      forall i: nat | i < n ensures Defines(refs, buckets, k, i) <==> Defines(refs[..n], buckets, k, i) { }
      if Defines(refs, buckets, k, n) {
        assert LastGives(refs, buckets, k, buckets[refs[n]][k]);
      } else if LastDefining(refs[..n], buckets, k).Some? {
        var i: nat :| Defines(refs[..n], buckets, k, i)
                      && buckets[refs[..n][i]][k] == LastDefining(refs[..n], buckets, k).value
                      && forall j: nat | i < j :: !Defines(refs[..n], buckets, k, j);
        assert Defines(refs, buckets, k, i) && buckets[refs[i]][k] == LastDefining(refs, buckets, k).value;
        forall j: nat | i < j ensures !Defines(refs, buckets, k, j) {
          if j < n { assert !Defines(refs[..n], buckets, k, j); }
        }
      }
    }
  }

  lemma {:induction false} LastOfTwo(a: seq<string>, b: seq<string>, buckets: map<string, Env>, k: string)
    ensures LastDefining(a + b, buckets, k) ==
            if LastDefining(b, buckets, k).Some? then LastDefining(b, buckets, k) else LastDefining(a, buckets, k)
    decreases |b|
  {
    if b == [] {
      assert a + b == a;
    } else {
      assert (a + b)[..|a + b| - 1] == a + b[..|b| - 1];
      LastOfTwo(a, b[..|b| - 1], buckets, k);
    }
  }

  /**
   Who defines a variable of a file: the shell first; then the file's own
   buckets, if it interpolates at all; then its env_from buckets; and among
   several buckets the last that has it.
   */
  lemma OwnBucketsWin(env: Env, file: Source, buckets: map<string, Env>, shell: Env, k: string)
    requires IsLayered(env, AllRefs(file), buckets, shell)
    ensures var own := file.interpolates && SomeDefines(file.resources, buckets, k);
            && (k in env <==> k in shell || own || SomeDefines(file.envFrom, buckets, k))
            && (k in env ==>
                  if k in shell then env[k] == shell[k]
                  else if own then LastGives(file.resources, buckets, k, env[k])
                  else LastGives(file.envFrom, buckets, k, env[k]))
  {
    hide LastDefining, SomeDefines, LastGives;
    LastOfTwo(file.envFrom, OwnRefs(file), buckets, k);
    LastDefiningIff(file.envFrom, buckets, k);
    LastDefiningIff(OwnRefs(file), buckets, k);
    NothingDefines(buckets, k);
    assert (if k in env then Some(env[k]) else None) == Layered(AllRefs(file), buckets, shell, k);
  }

  lemma NothingDefines(buckets: map<string, Env>, k: string)
    ensures LastDefining([], buckets, k) == None
  {
  }
}
