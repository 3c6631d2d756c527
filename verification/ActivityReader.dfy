/**
 Reading the trail: day files in date order, and the newest-first query that
 stops as soon as its limit is met.
 */
module ActivityReader {
  import opened Outcomes
  import opened ActivityStore
  import opened ActivityRuns

  datatype Opts = Opts(
    start: Option<int>, end: Option<int>,
    actions: seq<string>, origins: seq<string>, statuses: seq<string>,
    scope: string, kind: string, name: string, limit: int)

  const DEFAULT_QUERY_LIMIT := 200

  predicate Matches(rec: Record, opts: Opts) {
    && (opts.start.Some? ==> opts.start.value <= rec.ts)
    && (opts.end.Some? ==> rec.ts < opts.end.value)
    && (opts.scope != "" ==> rec.scope == opts.scope)
    && (opts.kind != "" ==> rec.kind == opts.kind)
    && (opts.name != "" ==> rec.name == opts.name)
    && (opts.actions != [] ==> rec.action in opts.actions)
    && (opts.origins != [] ==> rec.origin in opts.origins)
    && (opts.statuses != [] ==> rec.status in opts.statuses)
  }

  // ----- sequences

  function Select(rs: seq<Record>, opts: Opts): seq<Record> {
    if rs == [] then []
    else
      var front, last := Select(rs[..|rs| - 1], opts), rs[|rs| - 1];
      if Matches(last, opts) then front + [last] else front
  }

  function Reverse<T>(s: seq<T>): (r: seq<T>)
    ensures |r| == |s|
    ensures forall i | 0 <= i < |s| :: r[i] == s[|s| - 1 - i]
  {
    if s == [] then [] else [s[|s| - 1]] + Reverse(s[..|s| - 1])
  }

  function Take<T>(s: seq<T>, n: nat): seq<T> {
    if n < |s| then s[..n] else s
  }

  lemma {:induction false} SelectConcat(a: seq<Record>, b: seq<Record>, opts: Opts)
    ensures Select(a + b, opts) == Select(a, opts) + Select(b, opts)
    decreases |b|
  {
    if b == [] {
      assert a + b == a;
    } else {
      assert (a + b)[..|a + b| - 1] == a + b[..|b| - 1];
      SelectConcat(a, b[..|b| - 1], opts);
    }
  }

  lemma ReverseConcat<T>(a: seq<T>, b: seq<T>)
    ensures Reverse(a + b) == Reverse(b) + Reverse(a)
  {
  }

  // ----- the day files of a directory

  /** A day's file holding some records; gzipped and raw files read the same. */
  datatype DayFile = DayFile(date: int, file: Name)

  predicate IsDayFile(n: Name) {
    n.Raw? || n.Gz?
  }

  function RecordsAt(fs: FS, n: Name): seq<Record>
    requires WellFormed(fs) && n in fs.names
  {
    var c := At(fs, n);
    if c.Partial? then [] else c.records
  }

  predicate Sorted(files: seq<DayFile>) {
    forall i, j | 0 <= i < j < |files| :: files[i].date <= files[j].date
  }

  /** Exactly the directory's day files, each once, in date order. */
  ghost predicate Listing(fs: FS, files: seq<DayFile>) {
    && Sorted(files) && Distinct(files)
    && (forall f | f in files :: IsDayFile(f.file) && f.file in fs.names && f.date == f.file.day)
    && (forall n | n in fs.names && IsDayFile(n) :: DayFile(n.day, n) in files)
  }

  function Insert(f: DayFile, files: seq<DayFile>): (out: seq<DayFile>)
    ensures |out| == |files| + 1
    ensures multiset(out) == multiset(files) + multiset{f}
  {
    if files == [] || f.date <= files[0].date then [f] + files
    else
      assert files == [files[0]] + files[1..];
      [files[0]] + Insert(f, files[1..])
  }

  lemma InsertHas(f: DayFile, files: seq<DayFile>)
    ensures forall g :: g in Insert(f, files) <==> g == f || g in files
  {
    hide Insert;
    forall g ensures g in Insert(f, files) <==> g == f || g in files {
      assert g in Insert(f, files) <==> g in multiset(Insert(f, files));
    }
  }

  lemma SortedCons(first: DayFile, rest: seq<DayFile>)
    requires Sorted(rest) && forall g | g in rest :: first.date <= g.date
    ensures Sorted([first] + rest)
  {
    var out := [first] + rest;
    forall i, j | 0 <= i < j < |out| ensures out[i].date <= out[j].date {
      assert out[j] == rest[j - 1] && rest[j - 1] in rest;
    }
  }

  lemma SortedTail(files: seq<DayFile>)
    requires Sorted(files) && files != []
    ensures Sorted(files[1..]) && forall g | g in files[1..] :: files[0].date <= g.date
  {
  }

  lemma {:induction false} InsertSorted(f: DayFile, files: seq<DayFile>)
    requires Sorted(files)
    ensures Sorted(Insert(f, files))
    ensures forall g :: g in Insert(f, files) <==> g == f || g in files
    decreases |files|
  {
    InsertHas(f, files);
    if files == [] {
      assert Insert(f, files) == [f];
    } else {
      InsertHas(f, files[1..]);
      SortedTail(files);
      assert files == [files[0]] + files[1..];
      if f.date <= files[0].date {
        hide Sorted;
        SortedCons(f, files);
      } else {
        hide Sorted;
        InsertSorted(f, files[1..]);
        SortedCons(files[0], Insert(f, files[1..]));
      }
    }
  }

  predicate Distinct(files: seq<DayFile>) {
    forall i, j | 0 <= i < j < |files| :: files[i] != files[j]
  }

  lemma DistinctCons(f: DayFile, files: seq<DayFile>)
    requires f !in files && Distinct(files)
    ensures Distinct([f] + files)
  {
  }

  lemma {:induction false} InsertDistinct(f: DayFile, files: seq<DayFile>)
    requires f !in files && Distinct(files)
    ensures Distinct(Insert(f, files))
    ensures forall g | g in Insert(f, files) :: g == f || g in files
  {
    if files == [] || f.date <= files[0].date {
      DistinctCons(f, files);
    } else {
      assert files == [files[0]] + files[1..];
      InsertDistinct(f, files[1..]);
      DistinctCons(files[0], Insert(f, files[1..]));
    }
  }

  /** Lists a directory that yields its entries in any order. */
  method DayFiles(fs: FS) returns (files: seq<DayFile>)
    ensures Listing(fs, files)
  {
    files := [];
    var left := fs.names.Keys;
    while left != {}
      invariant left <= fs.names.Keys
      invariant Sorted(files) && Distinct(files)
      invariant forall f | f in files ::
                  IsDayFile(f.file) && f.file in fs.names && f.date == f.file.day && f.file !in left
      invariant forall n | n in fs.names && IsDayFile(n) && n !in left :: DayFile(n.day, n) in files
      decreases left
    {
      var n :| n in left;
      left := left - {n};
      if IsDayFile(n) {
        var f := DayFile(n.day, n);
        InsertSorted(f, files);
        InsertDistinct(f, files);
        files := Insert(f, files);
      }
    }
  }

  ghost predicate OneFilePerDate(fs: FS) {
    forall d :: !(Raw(d) in fs.names && Gz(d) in fs.names)
  }

  /** With one file per date the listing is determined by the directory. */
  lemma {:induction false} ListingUnique(fs: FS, a: seq<DayFile>, b: seq<DayFile>)
    requires Listing(fs, a) && Listing(fs, b) && OneFilePerDate(fs)
    ensures a == b
  {
    StrictDates(fs, a);
    StrictDates(fs, b);
    SameElements(fs, a, b);
    SortedUnique(a, b);
  }

  lemma StrictDates(fs: FS, a: seq<DayFile>)
    requires Listing(fs, a) && OneFilePerDate(fs)
    ensures forall i, j | 0 <= i < j < |a| :: a[i].date < a[j].date
  {
    forall i, j | 0 <= i < j < |a|
      ensures a[i].date < a[j].date
    {
      assert a[i] in a && a[j] in a;
    }
  }

  lemma SameElements(fs: FS, a: seq<DayFile>, b: seq<DayFile>)
    requires Listing(fs, a) && Listing(fs, b)
    ensures forall f :: f in a <==> f in b
  {
    forall f
      ensures f in a <==> f in b
    {
      assert f in a || f in b ==> f == DayFile(f.file.day, f.file);
    }
  }

  lemma TailElements(a: seq<DayFile>)
    requires a != [] && forall i, j | 0 <= i < j < |a| :: a[i].date < a[j].date
    ensures forall f :: f in a[1..] <==> f in a && f != a[0]
  {
    assert a == [a[0]] + a[1..];
  }

  lemma {:induction false} SortedUnique(a: seq<DayFile>, b: seq<DayFile>)
    requires forall i, j | 0 <= i < j < |a| :: a[i].date < a[j].date
    requires forall i, j | 0 <= i < j < |b| :: b[i].date < b[j].date
    requires forall f :: f in a <==> f in b
    ensures a == b
    decreases |a|
  {
    if b != [] {
      assert b[0] in b;
    }
    if a != [] {
      assert a[0] in b && b[0] in a;
      assert a[0] == b[0];
      TailElements(a);
      TailElements(b);
      SortedUnique(a[1..], b[1..]);
    }
  }

  // ----- the query

  /** All records of the files from position i on, oldest first. */
  function RecordsFrom(fs: FS, files: seq<DayFile>, i: nat): seq<Record>
    requires WellFormed(fs) && i <= |files| && forall f | f in files :: f.file in fs.names
    decreases |files| - i
  {
    if i == |files| then [] else RecordsAt(fs, files[i].file) + RecordsFrom(fs, files, i + 1)
  }

  method QueryFile(records: seq<Record>, opts: Opts) returns (out: seq<Record>)
    ensures out == Select(records, opts)
  {
    out := [];
    for i := 0 to |records|
      invariant out == Select(records[..i], opts)
    {
      assert records[..i + 1][..i] == records[..i];
      if Matches(records[i], opts) {
        out := out + [records[i]];
      }
    }
    assert records[..|records|] == records;
  }

  /** The plain meaning: everything, filtered, newest first, cut to the limit. */
  function Answer(fs: FS, files: seq<DayFile>, opts: Opts): seq<Record>
    requires WellFormed(fs) && forall f | f in files :: f.file in fs.names
  {
    var limit := if opts.limit <= 0 then DEFAULT_QUERY_LIMIT else opts.limit;
    Take(Reverse(Select(RecordsFrom(fs, files, 0), opts)), limit)
  }

  /** Adds one file's results newest first, until the limit is reached. */
  method AppendNewest(newer: seq<Record>, recs: seq<Record>, limit: nat) returns (out: seq<Record>, full: bool)
    requires |newer| < limit
    ensures out == Take(newer + Reverse(recs), limit)
    ensures full <==> |newer| + |recs| >= limit
  {
    out := newer;
    var j := |recs|;
    while j > 0
      invariant 0 <= j <= |recs|
      invariant out == newer + Reverse(recs)[..|recs| - j]
      invariant |out| < limit
    {
      j := j - 1;
      out := out + [recs[j]];
      if |out| >= limit {
        return out, true;
      }
    }
    full := false;
  }

  /** Reads newest file first and stops as soon as the limit is met. */
  method Query(fs: FS, opts: Opts) returns (out: seq<Record>)
    requires WellFormed(fs)
    ensures exists files :: Listing(fs, files) && out == Answer(fs, files, opts)
  {
    hide Select, Reverse, At, Matches, Sorted, Distinct;
    var limit := if opts.limit <= 0 then DEFAULT_QUERY_LIMIT else opts.limit;
    var files := DayFiles(fs);
    out := [];
    EmptyAnswer(opts);
    var i := |files|;
    while i > 0
      invariant 0 <= i <= |files|
      invariant out == Reverse(Select(RecordsFrom(fs, files, i), opts))
      invariant |out| < limit
    {
      i := i - 1;
      assert files[i] in files;
      var recs := QueryFile(RecordsAt(fs, files[i].file), opts);
      var full;
      SelectConcat(RecordsAt(fs, files[i].file), RecordsFrom(fs, files, i + 1), opts);
      ReverseConcat(recs, Select(RecordsFrom(fs, files, i + 1), opts));
      out, full := AppendNewest(out, recs, limit);
      if full {
        StopsEarly(fs, files, i, opts, out, limit);
        return;
      }
    }
  }

  lemma EmptyAnswer(opts: Opts)
    ensures Reverse(Select([], opts)) == []
  {
  }

  /** The newest results of the newest files are the newest results overall. */
  lemma StopsEarly(fs: FS, files: seq<DayFile>, i: nat, opts: Opts, out: seq<Record>, limit: nat)
    requires WellFormed(fs) && i <= |files| && forall f | f in files :: f.file in fs.names
    requires |out| == limit && out <= Reverse(Select(RecordsFrom(fs, files, i), opts))
    ensures out == Take(Reverse(Select(RecordsFrom(fs, files, 0), opts)), limit)
    decreases i
  {
    hide Select, Reverse, RecordsAt;
    if i > 0 {
      var a, b := RecordsAt(fs, files[i - 1].file), RecordsFrom(fs, files, i);
      SelectConcat(a, b, opts);
      ReverseConcat(Select(a, opts), Select(b, opts));
      StopsEarly(fs, files, i - 1, opts, out, limit);
    }
  }

  // ----- the dump

  /** The records strictly newer than since, in the order they stand. */
  function Newer(rs: seq<Record>, since: Option<int>): seq<Record> {
    if rs == [] then []
    else
      var front, last := Newer(rs[..|rs| - 1], since), rs[|rs| - 1];
      if since.Some? && last.ts <= since.value then front else front + [last]
  }

  lemma {:induction false} NewerConcat(a: seq<Record>, b: seq<Record>, since: Option<int>)
    ensures Newer(a + b, since) == Newer(a, since) + Newer(b, since)
    decreases |b|
  {
    if b == [] {
      assert a + b == a;
    } else {
      assert (a + b)[..|a + b| - 1] == a + b[..|b| - 1];
      NewerConcat(a, b[..|b| - 1], since);
    }
  }

  method DumpFile(out: seq<Record>, records: seq<Record>, since: Option<int>) returns (res: seq<Record>)
    ensures res == out + Newer(records, since)
  {
    res := out;
    for i := 0 to |records|
      invariant res == out + Newer(records[..i], since)
    {
      assert records[..i + 1][..i] == records[..i];
      if since.Some? && records[i].ts <= since.value { continue; }
      res := res + [records[i]];
    }
    assert records[..|records|] == records;
  }

  /** Streams the records newer than since, file after file in date order. */
  method Dump(fs: FS, since: Option<int>) returns (out: seq<Record>)
    requires WellFormed(fs)
    ensures exists files :: Listing(fs, files) && out == Newer(RecordsFrom(fs, files, 0), since)
  {
    hide Newer, At, Sorted, Distinct, WellFormed, RecordsFrom;
    var files := DayFiles(fs);
    out := [];
    for i := 0 to |files|
      invariant out + Newer(RecordsFrom(fs, files, i), since) == Newer(RecordsFrom(fs, files, 0), since)
    {
      assert files[i] in files;
      DumpStep(fs, files, i, since, out);
      out := DumpFile(out, RecordsAt(fs, files[i].file), since);
    }
    NothingNewer(since);
    assert RecordsFrom(fs, files, |files|) == [] by { NoneAfterLast(fs, files); }
  }

  lemma DumpStep(fs: FS, files: seq<DayFile>, i: nat, since: Option<int>, out: seq<Record>)
    requires WellFormed(fs) && i < |files| && forall f | f in files :: f.file in fs.names
    requires files[i].file in fs.names
    ensures out + Newer(RecordsFrom(fs, files, i), since)
         == out + Newer(RecordsAt(fs, files[i].file), since) + Newer(RecordsFrom(fs, files, i + 1), since)
  {
    NewerConcat(RecordsAt(fs, files[i].file), RecordsFrom(fs, files, i + 1), since);
  }

  lemma NoneAfterLast(fs: FS, files: seq<DayFile>)
    requires WellFormed(fs) && forall f | f in files :: f.file in fs.names
    ensures RecordsFrom(fs, files, |files|) == []
  {
  }

  lemma NothingNewer(since: Option<int>)
    ensures Newer([], since) == []
  {
  }

  // ----- days never go forward

  lemma {:induction false} SelectHolds(rs: seq<Record>, opts: Opts)
    ensures forall r | r in Select(rs, opts) :: r in rs && Matches(r, opts)
  {
    if rs != [] {
      SelectHolds(rs[..|rs| - 1], opts);
    }
  }

  predicate DaysAscend(rs: seq<Record>) {
    forall i, j | 0 <= i < j < |rs| :: DayOf(rs[i].ts) <= DayOf(rs[j].ts)
  }

  lemma {:induction false} FilesAscend(fs: FS, files: seq<DayFile>, i: nat)
    requires WellFormed(fs) && DaysPure(fs) && Listing(fs, files) && i <= |files|
    ensures DaysAscend(RecordsFrom(fs, files, i))
    ensures i < |files| ==> forall r | r in RecordsFrom(fs, files, i) :: DayOf(r.ts) >= files[i].date
    decreases |files| - i
  {
    if i < |files| {
      FilesAscend(fs, files, i + 1);
      assert files[i] in files;
    }
  }

  lemma {:induction false} SelectAscends(rs: seq<Record>, opts: Opts)
    requires DaysAscend(rs)
    ensures DaysAscend(Select(rs, opts))
  {
    if rs != [] {
      var front := rs[..|rs| - 1];
      SelectAscends(front, opts);
      SelectHolds(front, opts);
      forall r | r in Select(front, opts)
        ensures DayOf(r.ts) <= DayOf(rs[|rs| - 1].ts)
      {
        assert r in front;
      }
    }
  }

  /**
   On the directory of any timely run, a query never steps forward to a later
   day, whatever its filter and limit.
   */
  lemma AnswerNeverGoesForward(actions: seq<Action>, files: seq<DayFile>, opts: Opts)
    requires TimelyRun(actions) && WellFormed(Run(actions).sys.fs) && Listing(Run(actions).sys.fs, files)
    ensures var rs := Answer(Run(actions).sys.fs, files, opts);
            forall i, j | 0 <= i < j < |rs| :: DayOf(rs[i].ts) >= DayOf(rs[j].ts)
  {
    hide Run;
    var fs := Run(actions).sys.fs;
    TimelyDaysPure(actions);
    FilesAscend(fs, files, 0);
    SelectAscends(RecordsFrom(fs, files, 0), opts);
  }

  // ----- what is read is what was written

  /** The written records of the listed days, day after day. */
  function HistoryFrom(written: seq<Record>, files: seq<DayFile>, i: nat): seq<Record>
    requires i <= |files|
    decreases |files| - i
  {
    if i == |files| then [] else Of(written, files[i].date) + HistoryFrom(written, files, i + 1)
  }

  lemma {:induction false} ReadsHistory(t: Trail, files: seq<DayFile>, i: nat)
    requires Faithful(t) && Listing(t.sys.fs, files) && i <= |files|
    ensures RecordsFrom(t.sys.fs, files, i) == HistoryFrom(t.written, files, i)
    decreases |files| - i
  {
    hide Of, HandleFaithful, JobFaithful, Sorted, Distinct;
    if i < |files| {
      ReadsHistory(t, files, i + 1);
      assert files[i] in files;
      assert DayFaithful(t, files[i].date);
    }
  }

  /** On timely runs the whole trail reads as the records of each listed day in writing order. */
  lemma AllRecordsAreHistory(actions: seq<Action>, files: seq<DayFile>)
    requires TimelyRun(actions) && WellFormed(Run(actions).sys.fs) && Listing(Run(actions).sys.fs, files)
    ensures RecordsFrom(Run(actions).sys.fs, files, 0) == HistoryFrom(Run(actions).written, files, 0)
  {
    RunsFaithful(actions);
    ReadsHistory(Run(actions), files, 0);
  }

  /** How many files of a day there are. */
  function Copies(fs: FS, d: int): nat {
    (if Raw(d) in fs.names then 1 else 0) + (if Gz(d) in fs.names then 1 else 0)
  }

  function CountDate(files: seq<DayFile>, i: nat, d: int): nat
    requires i <= |files|
    decreases |files| - i
  {
    if i == |files| then 0 else (if files[i].date == d then 1 else 0) + CountDate(files, i + 1, d)
  }

  lemma {:induction false} OfCounts(written: seq<Record>, d: int, r: Record)
    ensures multiset(Of(written, d))[r] == if DayOf(r.ts) == d then multiset(written)[r] else 0
  {
    if written != [] {
      var front, last := written[..|written| - 1], written[|written| - 1];
      OfCounts(front, d, r);
      assert written == front + [last];
    }
  }

  lemma {:induction false} HistoryCounts(written: seq<Record>, files: seq<DayFile>, i: nat, r: Record)
    requires i <= |files|
    ensures multiset(HistoryFrom(written, files, i))[r] == CountDate(files, i, DayOf(r.ts)) * multiset(written)[r]
    decreases |files| - i
  {
    hide Of, DayOf;
    if i < |files| {
      HistoryCounts(written, files, i + 1, r);
      OfCounts(written, files[i].date, r);
      CountsAdd(Of(written, files[i].date), HistoryFrom(written, files, i + 1), r);
      OneMoreTime(CountDate(files, i + 1, DayOf(r.ts)), multiset(written)[r]);
    } else {
      NoTimes(multiset(written)[r]);
    }
  }

  lemma CountsAdd(a: seq<Record>, b: seq<Record>, r: Record)
    ensures multiset(a + b)[r] == multiset(a)[r] + multiset(b)[r]
  {
  }

  lemma OneMoreTime(k: nat, m: nat)
    ensures (1 + k) * m == m + k * m
  {
  }

  lemma NoTimes(m: nat)
    ensures 0 * m == 0
  {
  }

  lemma {:induction false} DistinctOnce(files: seq<DayFile>, f: DayFile)
    requires Distinct(files)
    ensures multiset(files)[f] == if f in files then 1 else 0
  {
    if files != [] {
      assert files == [files[0]] + files[1..];
      DistinctOnce(files[1..], f);
    }
  }

  lemma {:induction false} DatesAreFiles(files: seq<DayFile>, i: nat, d: int)
    requires i <= |files| && forall f | f in files :: IsDayFile(f.file) && f.date == f.file.day
    ensures CountDate(files, i, d) == multiset(files[i..])[DayFile(d, Raw(d))] + multiset(files[i..])[DayFile(d, Gz(d))]
    decreases |files| - i
  {
    if i < |files| {
      DatesAreFiles(files, i + 1, d);
      assert files[i] in files;
      assert files[i..] == [files[i]] + files[i + 1..];
    }
  }

  lemma ListedCopies(fs: FS, files: seq<DayFile>, d: int)
    requires Listing(fs, files)
    ensures CountDate(files, 0, d) == Copies(fs, d)
  {
    hide Distinct, Sorted;
    DatesAreFiles(files, 0, d);
    assert files[0..] == files;
    DistinctOnce(files, DayFile(d, Raw(d)));
    DistinctOnce(files, DayFile(d, Gz(d)));
  }

  lemma ReadableHasFile(fs: FS, r: Record)
    requires WellFormed(fs) && Readable(fs, r)
    ensures Copies(fs, DayOf(r.ts)) > 0
  {
  }

  /**
   On timely runs every record is read once per write and file of its day: twice
   as often as written exactly while a day has both its files, and a retained
   one at least as often.
   */
  lemma ReadAsOftenAsWritten(actions: seq<Action>, files: seq<DayFile>, r: Record)
    requires TimelyRun(actions) && WellFormed(Run(actions).sys.fs) && Listing(Run(actions).sys.fs, files)
    ensures multiset(RecordsFrom(Run(actions).sys.fs, files, 0))[r]
         == Copies(Run(actions).sys.fs, DayOf(r.ts)) * multiset(Run(actions).written)[r]
    ensures r in Run(actions).written && Retained(actions, r.ts) ==> Copies(Run(actions).sys.fs, DayOf(r.ts)) > 0
  {
    hide Run, RecordsFrom, HistoryFrom, Copies, Listing;
    AllRecordsAreHistory(actions, files);
    HistoryCounts(Run(actions).written, files, 0, r);
    ListedCopies(Run(actions).sys.fs, files, DayOf(r.ts));
    if r in Run(actions).written && Retained(actions, r.ts) {
      NothingLost(actions, r);
      ReadableHasFile(Run(actions).sys.fs, r);
    }
  }

  // ----- what a query selects, and how much

  /** A record is selected exactly if it was read and every filter that is set admits it; the end is exclusive. */
  lemma SelectedIff(rs: seq<Record>, opts: Opts, r: Record)
    ensures r in Select(rs, opts) <==>
      && r in rs
      && (opts.start.None? || opts.start.value <= r.ts) && (opts.end.None? || r.ts < opts.end.value)
      && (opts.actions == [] || r.action in opts.actions)
      && (opts.origins == [] || r.origin in opts.origins)
      && (opts.statuses == [] || r.status in opts.statuses)
      && (opts.scope == "" || r.scope == opts.scope)
      && (opts.kind == "" || r.kind == opts.kind) && (opts.name == "" || r.name == opts.name)
  {
    hide Select;
    SelectHolds(rs, opts);
    if r in rs && Matches(r, opts) { SelectKeeps(rs, opts, r); }
  }

  lemma {:induction false} SelectKeeps(rs: seq<Record>, opts: Opts, r: Record)
    requires r in rs && Matches(r, opts)
    ensures r in Select(rs, opts)
  {
    hide Matches;
    var n := |rs| - 1;
    if r != rs[n] {
      assert rs == rs[..n] + [rs[n]];
      SelectKeeps(rs[..n], opts, r);
    }
  }

  /** An answer holds as many of the selected records as the limit allows, 200 if none is set, newest first. */
  lemma AnswerLimit(fs: FS, files: seq<DayFile>, opts: Opts)
    requires WellFormed(fs) && forall f | f in files :: f.file in fs.names
    ensures var all, limit := Select(RecordsFrom(fs, files, 0), opts), if opts.limit > 0 then opts.limit else 200;
            var out := Answer(fs, files, opts);
            && |out| == (if |all| < limit then |all| else limit)
            && forall i | 0 <= i < |out| :: out[i] == all[|all| - 1 - i]
  {
    hide Select, RecordsFrom;
  }
}
