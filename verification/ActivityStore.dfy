/**
 The activity trail as a storage protocol: one append-only file per UTC day, a
 writer that keeps a handle open, and a cleanup pass that gzips and deletes
 without taking the writer's lock.

 Every system call is one step; steps of the writer, of the cleanup and crashes
 of the process interleave freely.
 */
module ActivityStore {
  import opened Outcomes

  datatype Record = Record(
    ts: int, action: string, origin: string, status: string,
    scope: string, kind: string, name: string)

  const NANOS_PER_DAY := 86_400_000_000_000

  /** The UTC day of an instant. */
  function DayOf(ts: int): int {
    ts / NANOS_PER_DAY
  }

  // ----- the file system

  /** activity-D.ndjson, activity-D.ndjson.gz, activity-D.ndjson.gz.tmp, and files of others. */
  datatype Name = Raw(day: int) | Gz(day: int) | Tmp(day: int) | Foreign(text: string)

  datatype Content = Lines(records: seq<Record>) | Zipped(records: seq<Record>) | Partial

  datatype FS = FS(names: map<Name, nat>, inodes: map<nat, Content>, next: nat)

  const EMPTY_FS := FS(map[], map[], 0)

  predicate WellFormed(fs: FS) {
    && (forall n | n in fs.names :: fs.names[n] in fs.inodes)
    && (forall i | i in fs.inodes :: i < fs.next)
    && (forall a, b | a in fs.names && b in fs.names && fs.names[a] == fs.names[b] :: a == b)
  }

  function At(fs: FS, n: Name): Content
    requires WellFormed(fs) && n in fs.names
  {
    fs.inodes[fs.names[n]]
  }

  /** open(O_CREATE|O_TRUNC) followed by writing c. */
  function Overwrite(fs: FS, n: Name, c: Content): FS {
    if n in fs.names then fs.(inodes := fs.inodes[fs.names[n] := c])
    else FS(fs.names[n := fs.next], fs.inodes[fs.next := c], fs.next + 1)
  }

  /** open(O_APPEND|O_CREATE) */
  function OpenAppend(fs: FS, n: Name): FS {
    if n in fs.names then fs else Overwrite(fs, n, Lines([]))
  }

  function Unlink(fs: FS, n: Name): FS {
    fs.(names := fs.names - {n})
  }

  function Rename(fs: FS, from: Name, to: Name): FS
    requires from in fs.names
  {
    fs.(names := (fs.names - {from})[to := fs.names[from]])
  }

  // What each call changes, and that it changes nothing else.

  lemma OverwriteEffect(fs: FS, n: Name, c: Content)
    requires WellFormed(fs)
    ensures var u := Overwrite(fs, n, c);
            && WellFormed(u)
            && u.names.Keys == fs.names.Keys + {n} && At(u, n) == c
            && (forall m | m in fs.names :: u.names[m] == fs.names[m])
            && (forall m | m in fs.names && m != n :: At(u, m) == At(fs, m))
            && (forall i | i in fs.inodes :: i in u.inodes)
  {
  }

  lemma UnlinkEffect(fs: FS, n: Name)
    requires WellFormed(fs)
    ensures var u := Unlink(fs, n);
            && WellFormed(u) && u.inodes == fs.inodes
            && u.names.Keys == fs.names.Keys - {n}
            && (forall m | m in u.names :: u.names[m] == fs.names[m] && At(u, m) == At(fs, m))
  {
  }

  lemma RenameEffect(fs: FS, from: Name, to: Name)
    requires WellFormed(fs) && from in fs.names && from != to
    ensures var u := Rename(fs, from, to);
            && WellFormed(u) && u.inodes == fs.inodes
            && u.names.Keys == fs.names.Keys - {from} + {to}
            && At(u, to) == At(fs, from)
            && (forall m | m in u.names && m != to :: u.names[m] == fs.names[m] && At(u, m) == At(fs, m))
  {
  }

  /** One write(2) of a whole line on an append handle, linked or not. */
  function AppendLine(fs: FS, inode: nat, r: Record): FS
    requires inode in fs.inodes
  {
    if fs.inodes[inode].Lines?
    then fs.(inodes := fs.inodes[inode := Lines(fs.inodes[inode].records + [r])])
    else fs
  }

  // ----- the running system

  datatype Handle = Handle(day: int, inode: nat)

  /** Where a cleanup pass stands; one stage is one system call. */
  datatype Stage =
    | Pick
    | Removing(name: Name)
    | Creating(day: int)
    | Opening(day: int)
    | Copying(day: int, source: nat)
    | Finishing(day: int, copied: seq<Record>)
    | Renaming(day: int)

  datatype Job = Idle | Sweep(today: int, cutoff: int, todo: seq<Name>, stage: Stage)

  datatype Sys = Sys(fs: FS, handle: Option<Handle>, pending: Option<Record>, job: Job)

  datatype Action =
    | OpenFor(record: Record)   // the writer takes its lock and opens the record's day
    | Append                    // and writes the line
    | CloseWriter
    | BeginCleanup(now: int, retention: int, listing: seq<Name>)
    | CleanupStep
    | Crash                     // of the process; what is on disk stays

  const DEFAULT_RETENTION := 30 * NANOS_PER_DAY

  /** The oldest instant a cleanup keeps. */
  function Bound(now: int, retention: int): int {
    now - if retention <= 0 then DEFAULT_RETENTION else retention
  }

  // Retention as an operator counts it, in nanoseconds.

  /** UTC day d had ended at instant t. */
  predicate Over(d: int, t: int) {
    (d + 1) * 86_400_000_000_000 <= t
  }

  /** At `now` the whole of day d is older than the retention, or than 30 days where none is set. */
  predicate Expired(now: int, retention: int, d: int) {
    Over(d, now - if retention > 0 then retention else 30 * 86_400_000_000_000)
  }

  /** A cleanup's day comparisons say just that. */
  lemma CutoffInNanos(now: int, retention: int, d: int)
    ensures d < DayOf(Bound(now, retention)) <==> Expired(now, retention, d)
    ensures d < DayOf(now) <==> Over(d, now)
    ensures Expired(now, retention, d) ==> Over(d, now)
  {
  }

  /** A record no older than the retention is never of an expired day. */
  lemma YoungIsNotExpired(now: int, retention: int, ts: int)
    requires retention > 0 ==> now - ts <= retention
    requires retention <= 0 ==> now - ts <= 30 * 86_400_000_000_000
    ensures !Expired(now, retention, DayOf(ts))
  {
  }

  /** What to do about one directory entry. */
  function Classify(fs: FS, n: Name, today: int, cutoff: int): Stage {
    match n
    case Raw(d) =>
      if d < cutoff then Removing(n)
      else if d < today then if Gz(d) in fs.names then Removing(n) else Creating(d)
      else Pick
    case Gz(d) => if d < cutoff then Removing(n) else Pick
    case Tmp(_) => Pick
    case Foreign(_) => Pick
  }

  function SweepStep(fs: FS, job: Job): (FS, Job)
    requires job.Sweep?
  {
    match job.stage
    case Pick =>
      if job.todo == [] then (fs, Idle)
      else (fs, job.(todo := job.todo[1..], stage := Classify(fs, job.todo[0], job.today, job.cutoff)))
    case Removing(n) => (Unlink(fs, n), job.(stage := Pick))
    case Creating(d) => (Overwrite(fs, Tmp(d), Partial), job.(stage := Opening(d)))
    case Opening(d) =>
      if Raw(d) in fs.names then (fs, job.(stage := Copying(d, fs.names[Raw(d)])))
      else (fs, job.(stage := Pick))
    case Copying(d, source) =>
      if source in fs.inodes && fs.inodes[source].Lines?
      then (fs, job.(stage := Finishing(d, fs.inodes[source].records)))
      else (fs, job.(stage := Pick))
    case Finishing(d, rs) => (Overwrite(fs, Tmp(d), Zipped(rs)), job.(stage := Renaming(d)))
    case Renaming(d) =>
      if Tmp(d) in fs.names then (Rename(fs, Tmp(d), Gz(d)), job.(stage := Removing(Raw(d))))
      else (fs, job.(stage := Pick))
  }

  /** The writer picks its file by the record's own day. */
  function EnsureOpen(s: Sys, day: int): Sys {
    if s.handle.Some? && s.handle.value.day == day then s
    else
      var fs := OpenAppend(s.fs, Raw(day));
      s.(fs := fs, handle := Some(Handle(day, fs.names[Raw(day)])))
  }

  function Step(s: Sys, a: Action): Sys {
    match a
    case OpenFor(r) => if s.pending.Some? then s else EnsureOpen(s, DayOf(r.ts)).(pending := Some(r))
    case Append =>
      if s.pending.Some? && s.handle.Some? && s.handle.value.inode in s.fs.inodes
      then s.(fs := AppendLine(s.fs, s.handle.value.inode, s.pending.value), pending := None)
      else s
    case CloseWriter => if s.pending.Some? then s else s.(handle := None)
    case BeginCleanup(now, retention, listing) =>
      if s.job.Sweep? then s
      else s.(job := Sweep(DayOf(now), DayOf(Bound(now, retention)), listing, Pick))
    case CleanupStep =>
      if s.job.Sweep? then
        var (fs, job) := SweepStep(s.fs, s.job);
        s.(fs := fs, job := job)
      else s
    case Crash => Sys(s.fs, None, None, Idle)
  }

  const BOOT := Sys(EMPTY_FS, None, None, Idle)

  // ----- what a reader finds

  /** A reader merges a day's raw and gzipped files. */
  predicate Readable(fs: FS, r: Record)
    requires WellFormed(fs)
  {
    var d := DayOf(r.ts);
    || (Raw(d) in fs.names && At(fs, Raw(d)).Lines? && r in At(fs, Raw(d)).records)
    || (Gz(d) in fs.names && At(fs, Gz(d)).Zipped? && r in At(fs, Gz(d)).records)
  }

  /** No .gz name ever shows an unfinished stream. */
  predicate GzWhole(fs: FS)
    requires WellFormed(fs)
  {
    forall n | n in fs.names && n.Gz? :: At(fs, n).Zipped?
  }
}
