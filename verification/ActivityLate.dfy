/**
 Records written for days that are already past: exactly which of them last,
 over every run, and the whole cleanup pass as steps.
 */
module ActivityLate {
  import opened Outcomes
  import opened ActivityStore
  import opened ActivityRuns
  import opened ActivityCleanup

  // ----- a pass running out

  function StageRank(stage: Stage): nat {
    match stage
    case Pick => 0
    case Removing(_) => 1
    case Renaming(_) => 2
    case Finishing(_, _) => 3
    case Copying(_, _) => 4
    case Opening(_) => 5
    case Creating(_) => 6
  }

  /** An upper bound on the system calls a pass still has to make. */
  function JobSize(job: Job): nat {
    match job
    case Idle => 0
    case Sweep(_, _, todo, stage) => 7 * |todo| + StageRank(stage) + 1
  }

  /** The pass goes on undisturbed until it is done. */
  function RunOut(s: Sys): Sys
    decreases JobSize(s.job)
  {
    if s.job.Idle? then s else RunOut(Step(s, CleanupStep))
  }

  // ----- what holds in every run, timely or not

  function RecordsOf(c: Content): seq<Record> {
    if c.Partial? then [] else c.records
  }

  predicate JobSound(s: Sys)
    requires WellFormed(s.fs)
  {
    var names := s.fs.names;
    s.job.Sweep? ==>
      match s.job.stage
      case Pick => true
      case Removing(n) => (n.Raw? || n.Gz?) && (n.day < s.job.cutoff || (n.Raw? && Gz(n.day) in names))
      case Creating(d) => Gz(d) !in names
      case Opening(d) => Gz(d) !in names && Tmp(d) in names
      case Copying(d, source) => Gz(d) !in names && Raw(d) in names && Tmp(d) in names && names[Raw(d)] == source
      case Finishing(d, rs) =>
        Gz(d) !in names && Raw(d) in names && Tmp(d) in names && rs <= RecordsOf(At(s.fs, Raw(d)))
      case Renaming(d) =>
        && Gz(d) !in names && Raw(d) in names && Tmp(d) in names && At(s.fs, Tmp(d)).Zipped?
        && RecordsOf(At(s.fs, Tmp(d))) <= RecordsOf(At(s.fs, Raw(d)))
  }

  ghost predicate Sound(s: Sys) {
    && WellFormed(s.fs) && RawsAreLines(s.fs) && GzWhole(s.fs)
    && LinkedOrOrphan(s.fs, s.handle)
    && (s.pending.Some? ==> s.handle.Some? && s.handle.value.day == DayOf(s.pending.value.ts))
    && JobSound(s)
  }

  lemma OpenSound(s: Sys, r: Record)
    requires Sound(s)
    ensures Sound(Step(s, OpenFor(r)))
  {
    hide Overwrite;
    var d := DayOf(r.ts);
    OverwriteEffect(s.fs, Raw(d), Lines([]));
  }

  lemma AppendSound(s: Sys)
    requires Sound(s)
    ensures Sound(Step(s, Append))
  {
  }

  /** Writing a .tmp touches no file of the writer. */
  lemma TmpWritten(fs: FS, handle: Option<Handle>, d: int, c: Content)
    requires WellFormed(fs) && RawsAreLines(fs) && GzWhole(fs) && LinkedOrOrphan(fs, handle)
    ensures var u := Overwrite(fs, Tmp(d), c);
            && WellFormed(u) && RawsAreLines(u) && GzWhole(u) && LinkedOrOrphan(u, handle)
            && u.names.Keys == fs.names.Keys + {Tmp(d)} && At(u, Tmp(d)) == c
            && forall m | m in fs.names && m != Tmp(d) :: u.names[m] == fs.names[m] && At(u, m) == At(fs, m)
  {
    OverwriteEffect(fs, Tmp(d), c);
  }

  /** Nor does renaming it, to a name that is free. */
  lemma TmpRenamed(fs: FS, handle: Option<Handle>, d: int)
    requires WellFormed(fs) && RawsAreLines(fs) && GzWhole(fs) && LinkedOrOrphan(fs, handle)
    requires Tmp(d) in fs.names && Gz(d) !in fs.names && At(fs, Tmp(d)).Zipped?
    ensures var u := Rename(fs, Tmp(d), Gz(d));
            && WellFormed(u) && RawsAreLines(u) && GzWhole(u) && LinkedOrOrphan(u, handle)
            && u.names.Keys == fs.names.Keys - {Tmp(d)} + {Gz(d)} && At(u, Gz(d)) == At(fs, Tmp(d))
            && forall m | m in u.names && m != Gz(d) :: u.names[m] == fs.names[m] && At(u, m) == At(fs, m)
  {
    RenameEffect(fs, Tmp(d), Gz(d));
  }

  lemma NameRemoved(fs: FS, handle: Option<Handle>, n: Name)
    requires WellFormed(fs) && RawsAreLines(fs) && GzWhole(fs) && LinkedOrOrphan(fs, handle)
    ensures var u := Unlink(fs, n);
            && WellFormed(u) && RawsAreLines(u) && GzWhole(u) && LinkedOrOrphan(u, handle)
            && u.names.Keys == fs.names.Keys - {n}
            && forall m | m in u.names :: u.names[m] == fs.names[m] && At(u, m) == At(fs, m)
  {
    UnlinkEffect(fs, n);
  }

  lemma SweepSound(s: Sys)
    requires Sound(s)
    ensures Sound(Step(s, CleanupStep))
  {
    hide Overwrite, Rename, Unlink, WellFormed, RawsAreLines, GzWhole, LinkedOrOrphan;
    if s.job.Sweep? {
      match s.job.stage
      case Pick =>
      case Removing(n) => NameRemoved(s.fs, s.handle, n);
      case Creating(d) => TmpWritten(s.fs, s.handle, d, Partial);
      case Opening(_) =>
      case Copying(_, _) => CopySound(s);
      case Finishing(d, rs) => TmpWritten(s.fs, s.handle, d, Zipped(rs));
      case Renaming(d) => TmpRenamed(s.fs, s.handle, d);
    }
  }

  lemma CopySound(s: Sys)
    requires Sound(s) && s.job.Sweep? && s.job.stage.Copying?
    ensures Sound(Step(s, CleanupStep))
  {
  }

  lemma StepSound(s: Sys, a: Action)
    requires Sound(s)
    ensures Sound(Step(s, a))
  {
    match a
    case OpenFor(r) => OpenSound(s, r);
    case Append => AppendSound(s);
    case CleanupStep => SweepSound(s);
    case _ =>
  }

  lemma {:induction false} RunsSound(actions: seq<Action>)
    ensures Sound(Run(actions).sys)
  {
    hide Sound;
    if actions == [] {
      BootSound();
    } else {
      RunsSound(actions[..|actions| - 1]);
      StepSound(Run(actions[..|actions| - 1]).sys, actions[|actions| - 1]);
    }
  }

  lemma BootSound()
    ensures Sound(BOOT)
  {
  }

  // ----- records that nothing can take away

  /** Some file or unfinished copy holds the record. */
  ghost predicate Present(s: Sys, r: Record) {
    || (exists i | i in s.fs.inodes :: r in RecordsOf(s.fs.inodes[i]))
    || (s.job.Sweep? && s.job.stage.Finishing? && r in s.job.stage.copied)
  }

  /** Every record there is was written. */
  ghost predicate AllWritten(t: Trail) {
    forall r | Present(t.sys, r) :: r in t.written
  }

  lemma StepWritten(t: Trail, a: Action)
    requires Sound(t.sys) && AllWritten(t)
    ensures AllWritten(Advance(t, a))
  {
    var u := Advance(t, a);
    forall r | Present(u.sys, r) ensures r in u.written {
      StepPresent(t.sys, a, r);
    }
  }

  /** A step makes no record appear but the pending one. */
  lemma StepPresent(s: Sys, a: Action, r: Record)
    requires Sound(s) && Present(Step(s, a), r)
    ensures Present(s, r)
         || (a.Append? && s.pending == Some(r) && s.handle.Some? && s.handle.value.inode in s.fs.inodes)
  {
    hide WellFormed, RawsAreLines, GzWhole;
    var t := Step(s, a);
    if !(t.job.Sweep? && t.job.stage.Finishing? && r in t.job.stage.copied) {
      var i :| i in t.fs.inodes && r in RecordsOf(t.fs.inodes[i]);
      assert i in s.fs.inodes ==> r in RecordsOf(s.fs.inodes[i]) ==> Present(s, r);
    }
  }

  lemma {:induction false} RunsWritten(actions: seq<Action>)
    ensures AllWritten(Run(actions))
  {
    if actions != [] {
      hide AllWritten;
      var front := actions[..|actions| - 1];
      RunsWritten(front);
      RunsSound(front);
      StepWritten(Run(front), actions[|actions| - 1]);
    }
  }

  /** The record is where no cleanup that keeps its day can lose it. */
  predicate Secure(s: Sys, r: Record)
    requires WellFormed(s.fs)
  {
    var d, names := DayOf(r.ts), s.fs.names;
    if Gz(d) in names then r in RecordsOf(At(s.fs, Gz(d)))
    else
      && Raw(d) in names && r in RecordsOf(At(s.fs, Raw(d)))
      && (s.job.Sweep? && s.job.stage.Finishing? && s.job.stage.day == d ==> r in s.job.stage.copied)
      && (s.job.Sweep? && s.job.stage == Renaming(d) ==>
            Tmp(d) in names && r in RecordsOf(At(s.fs, Tmp(d))))
  }

  /** The pass under way, if any, keeps the day. */
  predicate Spares(job: Job, d: int) {
    job.Sweep? ==> job.cutoff <= d
  }

  predicate SparingAction(a: Action, d: int) {
    a.BeginCleanup? ==> !Expired(a.now, a.retention, d)
  }

  lemma SecureIsReadable(s: Sys, r: Record)
    requires Sound(s) && Secure(s, r)
    ensures Readable(s.fs, r)
  {
  }

  lemma SweepSecure(s: Sys, r: Record)
    requires Sound(s) && Spares(s.job, DayOf(r.ts))
    ensures Sound(Step(s, CleanupStep))
    ensures Secure(Step(s, CleanupStep), r) <==> Secure(s, r)
  {
    SweepSound(s);
    hide Sound, Secure;
    if s.job.Sweep? {
      match s.job.stage
      case Pick => QuietSecure(s, r);
      case Removing(n) => RemoveSecure(s, n, r);
      case Creating(d) => CreateSecure(s, d, r);
      case Opening(_) => QuietSecure(s, r);
      case Copying(_, _) => CopySecure(s, r);
      case Finishing(d, rs) => FinishSecure(s, d, rs, r);
      case Renaming(d) => RenameSecure(s, d, r);
    }
  }

  lemma QuietSecure(s: Sys, r: Record)
    requires Sound(s) && s.job.Sweep? && (s.job.stage.Pick? || s.job.stage.Opening?)
    ensures WellFormed(Step(s, CleanupStep).fs)
    ensures Secure(Step(s, CleanupStep), r) <==> Secure(s, r)
  {
    hide WellFormed, RawsAreLines, GzWhole, LinkedOrOrphan;
  }

  lemma RemoveSecure(s: Sys, n: Name, r: Record)
    requires Sound(s) && s.job.Sweep? && s.job.stage == Removing(n) && Spares(s.job, DayOf(r.ts))
    ensures WellFormed(Step(s, CleanupStep).fs)
    ensures Secure(Step(s, CleanupStep), r) <==> Secure(s, r)
  {
    hide Unlink, WellFormed, RawsAreLines, GzWhole, LinkedOrOrphan;
    NameRemoved(s.fs, s.handle, n);
  }

  lemma CreateSecure(s: Sys, d: int, r: Record)
    requires Sound(s) && s.job.Sweep? && s.job.stage == Creating(d)
    ensures WellFormed(Step(s, CleanupStep).fs)
    ensures Secure(Step(s, CleanupStep), r) <==> Secure(s, r)
  {
    hide Overwrite, WellFormed, RawsAreLines, GzWhole, LinkedOrOrphan;
    TmpWritten(s.fs, s.handle, d, Partial);
  }

  lemma FinishSecure(s: Sys, d: int, rs: seq<Record>, r: Record)
    requires Sound(s) && s.job.Sweep? && s.job.stage == Finishing(d, rs)
    ensures WellFormed(Step(s, CleanupStep).fs)
    ensures Secure(Step(s, CleanupStep), r) <==> Secure(s, r)
  {
    hide Overwrite, WellFormed, RawsAreLines, GzWhole, LinkedOrOrphan;
    TmpWritten(s.fs, s.handle, d, Zipped(rs));
  }

  lemma RenameSecure(s: Sys, d: int, r: Record)
    requires Sound(s) && s.job.Sweep? && s.job.stage == Renaming(d)
    ensures WellFormed(Step(s, CleanupStep).fs)
    ensures Secure(Step(s, CleanupStep), r) <==> Secure(s, r)
  {
    hide Rename, WellFormed, RawsAreLines, GzWhole, LinkedOrOrphan;
    TmpRenamed(s.fs, s.handle, d);
  }

  lemma CopySecure(s: Sys, r: Record)
    requires Sound(s) && s.job.Sweep? && s.job.stage.Copying?
    ensures WellFormed(Step(s, CleanupStep).fs)
    ensures Secure(Step(s, CleanupStep), r) <==> Secure(s, r)
  {
  }

  lemma StepSecure(s: Sys, a: Action, r: Record)
    requires Sound(s) && Secure(s, r) && Spares(s.job, DayOf(r.ts)) && SparingAction(a, DayOf(r.ts))
    ensures Sound(Step(s, a)) && Secure(Step(s, a), r) && Spares(Step(s, a).job, DayOf(r.ts))
  {
    StepSound(s, a);
    match a
    case OpenFor(x) => OpenSecure(s, x, r);
    case Append => AppendSecure(s, r);
    case CleanupStep => SweepSecure(s, r);
    case _ =>
  }

  lemma OpenSecure(s: Sys, x: Record, r: Record)
    requires Sound(s) && Secure(s, r)
    ensures Sound(Step(s, OpenFor(x))) && Secure(Step(s, OpenFor(x)), r)
  {
    hide Overwrite;
    OpenSound(s, x);
    OverwriteEffect(s.fs, Raw(DayOf(x.ts)), Lines([]));
  }

  lemma AppendSecure(s: Sys, r: Record)
    requires Sound(s) && Secure(s, r)
    ensures Sound(Step(s, Append)) && Secure(Step(s, Append), r)
  {
    AppendSound(s);
  }

  function StepAll(s: Sys, actions: seq<Action>): Sys {
    if actions == [] then s else Step(StepAll(s, actions[..|actions| - 1]), actions[|actions| - 1])
  }

  /** A secure record can be read for ever, whatever happens, as long as every cleanup keeps its day. */
  lemma {:induction false} SecureForEver(s: Sys, actions: seq<Action>, r: Record)
    requires Sound(s) && Secure(s, r) && Spares(s.job, DayOf(r.ts))
    requires forall a | a in actions :: SparingAction(a, DayOf(r.ts))
    ensures var u := StepAll(s, actions);
            Sound(u) && Secure(u, r) && Spares(u.job, DayOf(r.ts)) && Readable(u.fs, r)
  {
    hide Sound, Step, Readable;
    if actions == [] {
      SecureIsReadable(s, r);
    } else {
      var front, last := actions[..|actions| - 1], actions[|actions| - 1];
      assert actions == front + [last];
      SecureForEver(s, front, r);
      StepSecure(StepAll(s, front), last, r);
      SecureIsReadable(StepAll(s, actions), r);
    }
  }

  // ----- what a write makes of its record

  /**
   The line goes into the file of its day, the file has not been superseded,
   and no pass has copied it already.
   */
  predicate Lands(s: Sys, d: int) {
    && s.handle.Some?
    && Gz(d) !in s.fs.names
    && Raw(d) in s.fs.names && s.fs.names[Raw(d)] == s.handle.value.inode
    && !(s.job.Sweep? && (s.job.stage == Renaming(d) || (s.job.stage.Finishing? && s.job.stage.day == d)))
  }

  /** Writing a new record makes it secure exactly when it lands. */
  lemma AppendSecuresIff(s: Sys, r: Record)
    requires Sound(s) && s.pending == Some(r) && !Present(s, r)
    ensures Sound(Step(s, Append))
    ensures Secure(Step(s, Append), r) <==> Lands(s, DayOf(r.ts))
  {
    AppendSound(s);
    var d, t := DayOf(r.ts), Step(s, Append);
    forall n | n in s.fs.names ensures r !in RecordsOf(At(s.fs, n)) {
      assert s.fs.names[n] in s.fs.inodes;
    }
    assert t.fs.inodes[s.handle.value.inode].records[|t.fs.inodes[s.handle.value.inode].records| - 1] == r;
  }

  lemma {:induction false} RunOutSecure(s: Sys, r: Record)
    requires Sound(s) && Spares(s.job, DayOf(r.ts))
    ensures Sound(RunOut(s)) && RunOut(s).job.Idle?
    ensures Secure(RunOut(s), r) <==> Secure(s, r)
    decreases JobSize(s.job)
  {
    hide Sound, Secure;
    if s.job.Sweep? {
      SweepSecure(s, r);
      RunOutSecure(Step(s, CleanupStep), r);
    }
  }

  // ----- an undisturbed pass

  lemma {:induction false} RunOutSound(s: Sys)
    requires Sound(s)
    ensures Sound(RunOut(s)) && RunOut(s).job.Idle?
    decreases JobSize(s.job)
  {
    hide Sound;
    if s.job.Sweep? {
      SweepSound(s);
      RunOutSound(Step(s, CleanupStep));
    }
  }

  /** The calls of one gzip, taken one after the other. */
  lemma GzipRunsOut(s: Sys, d: int)
    requires Sound(s) && s.job.Sweep? && s.job.stage == Creating(d) && Raw(d) in s.fs.names
    ensures At(s.fs, Raw(d)).Lines?
    ensures RunOut(s) == RunOut(s.(fs := GzipOf(s.fs, d), job := s.job.(stage := Pick)))
  {
    hide Overwrite, Unlink, Rename, WellFormed, RawsAreLines, GzWhole, LinkedOrOrphan;
    assert At(s.fs, Raw(d)).Lines? by { RawHasLines(s.fs, d); }
    StepsAreGzip(s, d);
    var s1 := Step(s, CleanupStep);
    TmpWritten(s.fs, s.handle, d, Partial);
    assert s1.job.stage == Opening(d) && Raw(d) in s1.fs.names;
    var s2 := Step(s1, CleanupStep);
    assert s2.job.stage.Copying?;
    var s3 := Step(s2, CleanupStep);
    SweepSound(s);
    SweepSound(s1);
    SweepSound(s2);
    assert s3.job.stage.Finishing? by { CopyFinishes(s2); }
    var s4 := Step(s3, CleanupStep);
    SweepSound(s3);
    assert s4.job.stage.Renaming?;
    var s5 := Step(s4, CleanupStep);
    assert s5.job.stage.Removing?;
    hide Step, GzipOf;
    OneStep(s);
    OneStep(s1);
    OneStep(s2);
    OneStep(s3);
    OneStep(s4);
    OneStep(s5);
  }

  lemma OneStep(s: Sys)
    requires s.job.Sweep?
    ensures RunOut(s) == RunOut(Step(s, CleanupStep))
  {
  }

  lemma RawHasLines(fs: FS, d: int)
    requires WellFormed(fs) && RawsAreLines(fs) && Raw(d) in fs.names
    ensures At(fs, Raw(d)).Lines?
  {
  }

  lemma CopyFinishes(s: Sys)
    requires Sound(s) && s.job.Sweep? && s.job.stage.Copying?
    ensures Step(s, CleanupStep).job.Sweep? && Step(s, CleanupStep).job.stage.Finishing?
  {
  }

  /** One directory entry of an undisturbed pass. */
  lemma EntryRunsOut(s: Sys) returns (t: Sys)
    requires Sound(s) && s.job.Sweep? && s.job.stage == Pick && s.job.todo != []
    requires s.job.todo[0].Raw? ==> s.job.todo[0] in s.fs.names
    ensures Sound(t) && RunOut(s) == RunOut(t)
    ensures t.job == s.job.(todo := s.job.todo[1..])
    ensures Handled(s.fs, t.fs, s.job.todo[0], s.job.today, s.job.cutoff)
  {
    hide Overwrite, Unlink, Rename, LinkedOrOrphan, GzippedDay;
    var n := s.job.todo[0];
    t := Step(s, CleanupStep);
    SweepSound(s);
    match t.job.stage
    case Pick =>
    case Removing(_) =>
      UnlinkFrame(t.fs, n);
      var u := Step(t, CleanupStep);
      SweepSound(t);
      if n.Raw? && n.day >= s.job.cutoff {
        DropIsGzipped(s.fs, n.day);
      }
      t := u;
    case Creating(d) =>
      GzipRunsOut(t, d);
      GzippedEffect(t.fs, d);
      var u := t.(fs := GzipOf(t.fs, d), job := t.job.(stage := Pick));
      GzipSound(t, d);
      t := u;
  }

  lemma DropIsGzipped(fs: FS, d: int)
    requires WellFormed(fs) && Gz(d) in fs.names
    ensures WellFormed(Unlink(fs, Raw(d))) && GzippedDay(fs, Unlink(fs, Raw(d)), d)
  {
    hide Unlink;
    UnlinkFrame(fs, Raw(d));
  }

  lemma GzipSound(s: Sys, d: int)
    requires Sound(s) && s.job.Sweep? && s.job.stage == Creating(d) && Raw(d) in s.fs.names && At(s.fs, Raw(d)).Lines?
    ensures Sound(s.(fs := GzipOf(s.fs, d), job := s.job.(stage := Pick)))
  {
    hide Sound, GzipOf;
    SoundParts(s);
    StepsAreGzip(s, d);
    SweepSound(s);
    var s2 := Step(Step(s, CleanupStep), CleanupStep);
    SweepSound(Step(s, CleanupStep));
    SweepSound(s2);
    SweepSound(Step(s2, CleanupStep));
    SweepSound(Step(Step(s2, CleanupStep), CleanupStep));
    SweepSound(Step(Step(Step(s2, CleanupStep), CleanupStep), CleanupStep));
  }

  ghost predicate Distinct(todo: seq<Name>) {
    forall i, j | 0 <= i < j < |todo| :: todo[i] != todo[j]
  }

  /** A pass in the middle, between two entries. */
  lemma {:induction false} RestRunsOut(before: FS, s: Sys, done: set<Name>)
    requires WellFormed(before) && Sound(s) && s.job.Sweep? && s.job.stage == Pick && Distinct(s.job.todo)
    requires forall n :: n in before.names <==> n in done || n in s.job.todo
    requires forall n | n in s.job.todo :: n !in done
    requires PartlySwept(before, s.fs, done, s.job.today, s.job.cutoff)
    ensures Sound(RunOut(s)) && Swept(before, RunOut(s).fs, s.job.today, s.job.cutoff)
    decreases |s.job.todo|
  {
    hide Sound, Handled, SameFile, WellFormed;
    RunOutSound(s);
    SoundParts(s);
    SoundParts(RunOut(s));
    if s.job.todo == [] {
      assert RunOut(s) == RunOut(Step(s, CleanupStep));
      PartlyIsSwept(before, s.fs, done, s.job.today, s.job.cutoff);
    } else {
      var n := s.job.todo[0];
      EntryUntouched(before, s, done);
      var t := EntryRunsOut(s);
      SoundParts(t);
      EntryHandled(before, s.fs, t.fs, n, s.job.today, s.job.cutoff, done);
      assert s.job.todo == [n] + s.job.todo[1..];
      RestRunsOut(before, t, done + {n});
    }
  }

  lemma SoundParts(s: Sys)
    requires Sound(s)
    ensures WellFormed(s.fs) && RawsAreLines(s.fs)
  {
  }

  lemma EntryUntouched(before: FS, s: Sys, done: set<Name>)
    requires WellFormed(before) && WellFormed(s.fs) && s.job.Sweep? && s.job.todo != []
    requires s.job.todo[0] in before.names && s.job.todo[0] !in done
    requires PartlySwept(before, s.fs, done, s.job.today, s.job.cutoff)
    ensures s.job.todo[0].Raw? ==> s.job.todo[0] in s.fs.names
  {
    var n := s.job.todo[0];
    if n.Raw? {
      assert DayPartly(before, s.fs, done, s.job.today, s.job.cutoff, n.day);
    }
  }

  lemma PartlyIsSwept(before: FS, now: FS, done: set<Name>, today: int, cutoff: int)
    requires WellFormed(before) && WellFormed(now) && PartlySwept(before, now, done, today, cutoff)
    requires forall n :: n in before.names <==> n in done
    ensures Swept(before, now, today, cutoff)
  {
    forall d ensures DaySwept(before, now, today, cutoff, d) {
      assert DayPartly(before, now, done, today, cutoff, d);
    }
  }

  /** The directory as a pass lists it, in any order. */
  ghost predicate Lists(listing: seq<Name>, fs: FS) {
    Distinct(listing) && forall n :: n in listing <==> n in fs.names
  }

  function FullPass(s: Sys, now: int, retention: int, listing: seq<Name>): Sys {
    RunOut(Step(s, BeginCleanup(now, retention, listing)))
  }

  /** The step machine's own undisturbed pass does what the sequential one does. */
  lemma PassSweeps(s: Sys, now: int, retention: int, listing: seq<Name>)
    requires Sound(s) && s.job.Idle? && Lists(listing, s.fs)
    ensures Sound(FullPass(s, now, retention, listing))
    ensures Swept(s.fs, FullPass(s, now, retention, listing).fs, DayOf(now), DayOf(Bound(now, retention)))
    ensures SweptAt(s.fs, FullPass(s, now, retention, listing).fs, now, retention)
  {
    hide Sound;
    var t := Step(s, BeginCleanup(now, retention, listing));
    StepSound(s, BeginCleanup(now, retention, listing));
    SoundParts(s);
    RestRunsOut(s.fs, t, {});
    SoundParts(FullPass(s, now, retention, listing));
    SweptInNanos(s.fs, FullPass(s, now, retention, listing).fs, now, retention);
  }

  /**
   In every run, timely or not: a record about to be written survives the pass
   under way and a full one after it if and only if it lands; that is, the
   writer is on its day's file, the day has no .gz yet, and no pass is between
   having copied the file and having removed it.
   */
  lemma LateWriteSurvivesIff(actions: seq<Action>, r: Record, now: int, retention: int, listing: seq<Name>)
    requires Run(actions).sys.pending == Some(r) && r !in Run(actions).written
    requires Spares(Run(actions).sys.job, DayOf(r.ts))
    requires Over(DayOf(r.ts), now) && !Expired(now, retention, DayOf(r.ts))
    requires Lists(listing, RunOut(Step(Run(actions).sys, Append)).fs)
    ensures var after := FullPass(RunOut(Step(Run(actions).sys, Append)), now, retention, listing);
            WellFormed(after.fs) && (Readable(after.fs, r) <==> Lands(Run(actions).sys, DayOf(r.ts)))
  {
    hide Run, Sound, Secure, Swept, Readable, Lands, Lists;
    var s := Run(actions).sys;
    RunsSound(actions);
    RunsWritten(actions);
    NotPresent(Run(actions), r);
    AppendSecuresIff(s, r);
    var t := RunOut(Step(s, Append));
    RunOutSecure(Step(s, Append), r);
    PassSweeps(t, now, retention, listing);
    var begun := Step(t, BeginCleanup(now, retention, listing));
    BeginSecure(t, BeginCleanup(now, retention, listing), r);
    RunOutSecure(begun, r);
    SoundParts(RunOut(begun));
    CutoffInNanos(now, retention, DayOf(r.ts));
    SweptReadableIff(t.fs, RunOut(begun), r, DayOf(now), DayOf(Bound(now, retention)));
  }

  lemma NotPresent(t: Trail, r: Record)
    requires AllWritten(t) && r !in t.written
    ensures !Present(t.sys, r)
  {
  }

  lemma BeginSecure(s: Sys, a: Action, r: Record)
    requires Sound(s) && s.job.Idle? && a.BeginCleanup?
    ensures Sound(Step(s, a)) && (Secure(Step(s, a), r) <==> Secure(s, r))
  {
  }

  /** With no plain file left of its day, a record is readable exactly when it is secure. */
  lemma SweptReadableIff(before: FS, s: Sys, r: Record, today: int, cutoff: int)
    requires WellFormed(before) && Sound(s) && s.job.Idle? && Swept(before, s.fs, today, cutoff)
    requires cutoff <= DayOf(r.ts) < today
    ensures Readable(s.fs, r) <==> Secure(s, r)
  {
    assert DaySwept(before, s.fs, today, cutoff, DayOf(r.ts));
  }

  /** And one that lands is readable at every later moment of every continuation that keeps its day. */
  lemma LandedForEver(actions: seq<Action>, r: Record, later: seq<Action>)
    requires Run(actions).sys.pending == Some(r) && r !in Run(actions).written
    requires Spares(Run(actions).sys.job, DayOf(r.ts)) && Lands(Run(actions).sys, DayOf(r.ts))
    requires forall a | a in later :: SparingAction(a, DayOf(r.ts))
    ensures var u := StepAll(Step(Run(actions).sys, Append), later);
            WellFormed(u.fs) && Readable(u.fs, r)
  {
    hide Run, Sound, Secure, Readable, Lands;
    RunsSound(actions);
    RunsWritten(actions);
    NotPresent(Run(actions), r);
    AppendSecuresIff(Run(actions).sys, r);
    SecureForEver(Step(Run(actions).sys, Append), later, r);
    SoundParts(StepAll(Step(Run(actions).sys, Append), later));
  }

  // ----- the third way to lose a record

  /** A pass has copied day 0's file; then a line is written; then the pass goes on. */
  const TOO_LATE: seq<Action> :=
    GZIP_RUN[..7] + [OpenFor(EventAt(1))] + [Append] + [CleanupStep] + [CleanupStep] + [CleanupStep]

  /**
   Without timeliness, third way: the record goes into the linked file of a
   day that has no .gz, but after the pass has copied it.
   */
  lemma LateRecordMissesCopy()
    ensures Retained(TOO_LATE, 1)
    ensures var t := Run(TOO_LATE);
            EventAt(1) in t.written && WellFormed(t.sys.fs) && !Readable(t.sys.fs, EventAt(1))
  {
    hide Run, Advance, GzipStates;
    CopiedReached();
    var a := GZIP_RUN[..7];
    Extend(a, OpenFor(EventAt(1)));
    Extend(a + [OpenFor(EventAt(1))], Append);
    Extend(a + [OpenFor(EventAt(1))] + [Append], CleanupStep);
    Extend(a + [OpenFor(EventAt(1))] + [Append] + [CleanupStep], CleanupStep);
    Extend(a + [OpenFor(EventAt(1))] + [Append] + [CleanupStep] + [CleanupStep], CleanupStep);
    MissedSteps();
  }

  lemma CopiedReached()
    ensures Run(GZIP_RUN[..7]) == GzipStates()[7]
  {
    hide Leads, Run;
    OpeningStep();
    WritingStep();
    ListingSteps();
    CopyingSteps();
    ZippingSteps();
    forall i | 0 <= i < 7 ensures Leads(GzipStates()[..8], GZIP_RUN[..7], i) {
      assert Leads(GzipStates(), GZIP_RUN, i);
      SameLeads(i);
    }
    Replay(GZIP_RUN[..7], GzipStates()[..8]);
  }

  lemma SameLeads(i: nat)
    requires i < 7 && Leads(GzipStates(), GZIP_RUN, i)
    ensures Leads(GzipStates()[..8], GZIP_RUN[..7], i)
  {
    hide Advance, Timely;
  }

  /** The line is in the plain file, and not in the copy. */
  function Missed(): Trail {
    var r, e := EventAt(0), EventAt(1);
    Trail(
      Sys(FS(map[Raw(0) := 0, Tmp(0) := 1], map[0 := Lines([r, e]), 1 := Partial], 2),
          Some(Handle(0, 0)), None, Sweep(1, -29, [], Finishing(0, [r]))),
      [r, e], Some(Horizon(1, NANOS_PER_DAY - DEFAULT_RETENTION)))
  }

  lemma MissedWrite()
    ensures Advance(Advance(GzipStates()[7], OpenFor(EventAt(1))), Append) == Missed()
  {
    assert [EventAt(0)] + [EventAt(1)] == [EventAt(0), EventAt(1)];
  }

  lemma MissedPass()
    ensures var t := Advance(Advance(Advance(Missed(), CleanupStep), CleanupStep), CleanupStep);
            && t.written == [EventAt(0), EventAt(1)]
            && t.sys.fs.names == map[Gz(0) := 1] && t.sys.fs.next == 2
            && t.sys.fs.inodes == map[0 := Lines([EventAt(0), EventAt(1)]), 1 := Zipped([EventAt(0)])]
  {
  }

  lemma MissedSteps()
    ensures var t := Advance(Advance(Advance(Advance(Advance(GzipStates()[7],
                       OpenFor(EventAt(1))), Append), CleanupStep), CleanupStep), CleanupStep);
            EventAt(1) in t.written && WellFormed(t.sys.fs) && !Readable(t.sys.fs, EventAt(1))
  {
    MissedWrite();
    MissedPass();
    hide Advance, GzipStates, Missed;
  }
}
