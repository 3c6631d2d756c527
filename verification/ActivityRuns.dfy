/**
 Safety of the activity trail over whole runs: which records stay readable
 under every interleaving of writes, cleanup steps and crashes.
 */
module ActivityRuns {
  import opened Outcomes
  import opened ActivityStore

  /** What the cleanups begun so far stand for: the latest day called today and the latest bound. */
  datatype Horizon = Horizon(today: int, bound: int)

  /** A running system together with its history. */
  datatype Trail = Trail(sys: Sys, written: seq<Record>, horizon: Option<Horizon>)

  const NEW_TRAIL := Trail(BOOT, [], None)

  function Widen(h: Option<Horizon>, now: int, retention: int): Option<Horizon> {
    var today, bound := DayOf(now), Bound(now, retention);
    match h
    case None => Some(Horizon(today, bound))
    case Some(o) => Some(Horizon(if today > o.today then today else o.today,
                                 if bound > o.bound then bound else o.bound))
  }

  function Advance(t: Trail, a: Action): Trail {
    Trail(
      Step(t.sys, a),
      if a.Append? && t.sys.pending.Some? && t.sys.handle.Some? && t.sys.handle.value.inode in t.sys.fs.inodes
      then t.written + [t.sys.pending.value] else t.written,
      if a.BeginCleanup? && t.sys.job.Idle? then Widen(t.horizon, a.now, a.retention) else t.horizon)
  }

  function Run(actions: seq<Action>): Trail {
    if actions == [] then NEW_TRAIL
    else Advance(Run(actions[..|actions| - 1]), actions[|actions| - 1])
  }

  /** A day some cleanup has already seen end. */
  predicate Past(h: Option<Horizon>, day: int) {
    h.Some? && day < h.value.today
  }

  /** A day every cleanup so far keeps. */
  predicate Kept(h: Option<Horizon>, day: int) {
    h.None? || day >= DayOf(h.value.bound)
  }

  /** The premise: no write touches a day already past when a cleanup ran. */
  predicate Timely(t: Trail, a: Action) {
    match a
    case OpenFor(r) => t.sys.pending.None? ==> !Past(t.horizon, DayOf(r.ts))
    case Append => t.sys.pending.Some? ==> !Past(t.horizon, DayOf(t.sys.pending.value.ts))
    case _ => true
  }

  predicate TimelyRun(actions: seq<Action>) {
    forall i | 0 <= i < |actions| :: Timely(Run(actions[..i]), actions[i])
  }

  /** The records of one day, in writing order. */
  function Of(written: seq<Record>, day: int): (rs: seq<Record>)
  {
    if written == [] then []
    else
      var front, last := Of(written[..|written| - 1], day), written[|written| - 1];
      if DayOf(last.ts) == day then front + [last] else front
  }

  // ----- the invariant

  /** A day's files hold exactly that day's records; a kept day with records has a file. */
  predicate DayFaithful(t: Trail, d: int)
    requires WellFormed(t.sys.fs)
  {
    var raw, gz := Raw(d) in t.sys.fs.names, Gz(d) in t.sys.fs.names;
    && (raw ==> At(t.sys.fs, Raw(d)) == Lines(Of(t.written, d)))
    && (gz ==> At(t.sys.fs, Gz(d)) == Zipped(Of(t.written, d)) && Past(t.horizon, d))
    && (!raw && !gz && Kept(t.horizon, d) ==> Of(t.written, d) == [])
  }

  ghost predicate FilesFaithful(t: Trail)
    requires WellFormed(t.sys.fs)
  {
    forall d :: DayFaithful(t, d)
  }

  /** The writer's handle is on the linked file, unless its day is past. */
  predicate HandleFaithful(t: Trail) {
    && (t.sys.handle.Some? ==>
          var h := t.sys.handle.value;
          h.inode in t.sys.fs.inodes &&
          (Past(t.horizon, h.day) || (Raw(h.day) in t.sys.fs.names && t.sys.fs.names[Raw(h.day)] == h.inode)))
    && (t.sys.pending.Some? ==> t.sys.handle.Some? && t.sys.handle.value.day == DayOf(t.sys.pending.value.ts))
  }

  predicate StageFaithful(t: Trail, stage: Stage)
    requires WellFormed(t.sys.fs)
  {
    var names := t.sys.fs.names;
    match stage
    case Pick => true
    case Removing(n) =>
      (n.Raw? || n.Gz?) && (!Kept(t.horizon, n.day) || (n.Raw? && Gz(n.day) in names))
    case Creating(d) => Past(t.horizon, d)
    case Opening(d) => Past(t.horizon, d) && Tmp(d) in names
    case Copying(d, source) =>
      Past(t.horizon, d) && Tmp(d) in names && Raw(d) in names && names[Raw(d)] == source
    case Finishing(d, rs) => Past(t.horizon, d) && Tmp(d) in names && rs == Of(t.written, d)
    case Renaming(d) =>
      Past(t.horizon, d) && Tmp(d) in names && At(t.sys.fs, Tmp(d)) == Zipped(Of(t.written, d))
  }

  predicate JobFaithful(t: Trail)
    requires WellFormed(t.sys.fs)
  {
    t.sys.job.Sweep? ==>
      && t.horizon.Some?
      && t.sys.job.today <= t.horizon.value.today
      && t.sys.job.cutoff <= DayOf(t.horizon.value.bound)
      && StageFaithful(t, t.sys.job.stage)
  }

  /** Nothing is dropped before its day is over. */
  predicate HorizonOrdered(h: Option<Horizon>) {
    h.Some? ==> DayOf(h.value.bound) <= h.value.today
  }

  ghost predicate Faithful(t: Trail) {
    && WellFormed(t.sys.fs)
    && HorizonOrdered(t.horizon)
    && FilesFaithful(t)
    && HandleFaithful(t)
    && JobFaithful(t)
  }

  // ----- each step keeps it

  lemma OpenKeeps(t: Trail, r: Record)
    requires Faithful(t) && Timely(t, OpenFor(r))
    ensures Faithful(Advance(t, OpenFor(r)))
  {
    hide Overwrite;
    var day := DayOf(r.ts);
    OverwriteEffect(t.sys.fs, Raw(day), Lines([]));
    var u := Advance(t, OpenFor(r));
    assert DayFaithful(t, day);
    assert WellFormed(u.sys.fs);
    assert FilesFaithful(u) by { OpenKeepsDays(t, r); }
  }

  lemma OpenKeepsDays(t: Trail, r: Record)
    requires Faithful(t) && Timely(t, OpenFor(r)) && WellFormed(Advance(t, OpenFor(r)).sys.fs)
    ensures FilesFaithful(Advance(t, OpenFor(r)))
  {
    hide Overwrite, HandleFaithful, JobFaithful;
    OverwriteEffect(t.sys.fs, Raw(DayOf(r.ts)), Lines([]));
    forall d
      ensures DayFaithful(Advance(t, OpenFor(r)), d)
    {
      assert DayFaithful(t, d);
    }
  }

  lemma AppendKeeps(t: Trail)
    requires Faithful(t) && Timely(t, Append)
    ensures Faithful(Advance(t, Append))
  {
    var u := Advance(t, Append);
    if t.sys.pending.Some? {
      var r := t.sys.pending.value;
      assert u.written[..|u.written| - 1] == t.written;
      assert DayFaithful(t, DayOf(r.ts));
      forall d
        ensures DayFaithful(u, d)
      {
        assert DayFaithful(t, d);
      }
    }
  }

  lemma BeginKeeps(t: Trail, now: int, retention: int, listing: seq<Name>)
    requires Faithful(t)
    ensures Faithful(Advance(t, BeginCleanup(now, retention, listing)))
  {
    var u := Advance(t, BeginCleanup(now, retention, listing));
    forall d
      ensures DayFaithful(u, d)
    {
      assert DayFaithful(t, d);
    }
  }

  ghost predicate Staged(t: Trail, stage: Stage) {
    Faithful(t) && t.sys.job.Sweep? && t.sys.job.stage == stage
  }

  lemma PickKeeps(t: Trail)
    requires Staged(t, Pick)
    ensures Faithful(Advance(t, CleanupStep))
  {
    var u := Advance(t, CleanupStep);
    forall day
      ensures DayFaithful(u, day)
    {
      assert DayFaithful(t, day);
    }
  }

  lemma RemovingKeeps(t: Trail, n: Name)
    requires Staged(t, Removing(n))
    ensures Faithful(Advance(t, CleanupStep))
  {
    hide Unlink;
    UnlinkEffect(t.sys.fs, n);
    assert DayFaithful(t, n.day);
    var u := Advance(t, CleanupStep);
    forall day
      ensures DayFaithful(u, day)
    {
      assert DayFaithful(t, day);
    }
  }

  lemma CreatingKeeps(t: Trail, d: int)
    requires Staged(t, Creating(d))
    ensures Faithful(Advance(t, CleanupStep))
  {
    hide Overwrite;
    OverwriteEffect(t.sys.fs, Tmp(d), Partial);
    var u := Advance(t, CleanupStep);
    forall day
      ensures DayFaithful(u, day)
    {
      assert DayFaithful(t, day);
    }
  }

  lemma ReadingKeeps(t: Trail, d: int, source: nat)
    requires Staged(t, Opening(d)) || Staged(t, Copying(d, source))
    ensures Faithful(Advance(t, CleanupStep))
  {
    assert DayFaithful(t, d);
    var u := Advance(t, CleanupStep);
    forall day
      ensures DayFaithful(u, day)
    {
      assert DayFaithful(t, day);
    }
  }

  lemma FinishingKeeps(t: Trail, d: int, rs: seq<Record>)
    requires Staged(t, Finishing(d, rs))
    ensures Faithful(Advance(t, CleanupStep))
  {
    hide Overwrite;
    OverwriteEffect(t.sys.fs, Tmp(d), Zipped(rs));
    var u := Advance(t, CleanupStep);
    forall day
      ensures DayFaithful(u, day)
    {
      assert DayFaithful(t, day);
    }
  }

  lemma RenamingKeeps(t: Trail, d: int)
    requires Staged(t, Renaming(d))
    ensures Faithful(Advance(t, CleanupStep))
  {
    hide Rename;
    RenameEffect(t.sys.fs, Tmp(d), Gz(d));
    var u := Advance(t, CleanupStep);
    forall day
      ensures DayFaithful(u, day)
    {
      assert DayFaithful(t, day);
    }
  }

  lemma CleanupKeeps(t: Trail)
    requires Faithful(t)
    ensures Faithful(Advance(t, CleanupStep))
  {
    hide Advance, Faithful;
    if t.sys.job.Sweep? {
      match t.sys.job.stage
      case Pick => PickKeeps(t);
      case Removing(n) => RemovingKeeps(t, n);
      case Creating(d) => CreatingKeeps(t, d);
      case Opening(d) => ReadingKeeps(t, d, 0);
      case Copying(d, source) => ReadingKeeps(t, d, source);
      case Finishing(d, rs) => FinishingKeeps(t, d, rs);
      case Renaming(d) => RenamingKeeps(t, d);
    } else {
      IdleKeeps(t);
    }
  }

  lemma IdleKeeps(t: Trail)
    requires Faithful(t) && t.sys.job.Idle?
    ensures Faithful(Advance(t, CleanupStep))
  {
    var u := Advance(t, CleanupStep);
    forall day
      ensures DayFaithful(u, day)
    {
      assert DayFaithful(t, day);
    }
  }

  lemma StepKeeps(t: Trail, a: Action)
    requires Faithful(t) && Timely(t, a)
    ensures Faithful(Advance(t, a))
  {
    match a
    case OpenFor(r) => OpenKeeps(t, r);
    case Append => AppendKeeps(t);
    case BeginCleanup(now, retention, listing) => BeginKeeps(t, now, retention, listing);
    case CleanupStep => CleanupKeeps(t);
    case CloseWriter => SameFilesKeeps(t, a);
    case Crash => SameFilesKeeps(t, a);
  }

  lemma SameFilesKeeps(t: Trail, a: Action)
    requires Faithful(t) && (a == CloseWriter || a == Crash)
    ensures Faithful(Advance(t, a))
  {
    var u := Advance(t, a);
    forall day
      ensures DayFaithful(u, day)
    {
      assert DayFaithful(t, day);
    }
  }

  lemma {:induction false} RunsFaithful(actions: seq<Action>)
    requires TimelyRun(actions)
    ensures Faithful(Run(actions))
  {
    if actions != [] {
      var front := actions[..|actions| - 1];
      forall i | 0 <= i < |front|
        ensures Timely(Run(front[..i]), front[i])
      {
        assert front[..i] == actions[..i];
      }
      RunsFaithful(front);
      StepKeeps(Run(front), actions[|actions| - 1]);
    }
  }

  // ----- what it means for readers

  lemma {:induction false} OfHolds(written: seq<Record>, day: int, r: Record)
    ensures r in Of(written, day) <==> r in written && DayOf(r.ts) == day
  {
    if written != [] {
      var front := written[..|written| - 1];
      OfHolds(front, day, r);
      assert written == front + [written[|written| - 1]];
    }
  }

  /** No cleanup of the run found the record's day expired. */
  ghost predicate Retained(actions: seq<Action>, ts: int) {
    forall a | a in actions && a.BeginCleanup? :: !Expired(a.now, a.retention, ts / 86_400_000_000_000)
  }

  /** The record is no older than the retention of any cleanup of the run. */
  ghost predicate Young(actions: seq<Action>, ts: int) {
    forall a | a in actions && a.BeginCleanup? ::
      && (a.retention > 0 ==> a.now - ts <= a.retention)
      && (a.retention <= 0 ==> a.now - ts <= 30 * 86_400_000_000_000)
  }

  lemma YoungIsRetained(actions: seq<Action>, ts: int)
    requires Young(actions, ts)
    ensures Retained(actions, ts)
  {
    hide Expired;
    forall a | a in actions && a.BeginCleanup? ensures !Expired(a.now, a.retention, ts / 86_400_000_000_000) {
      YoungIsNotExpired(a.now, a.retention, ts);
    }
  }

  /** Action i is a cleanup that begins: no other is under way. */
  ghost predicate Begins(actions: seq<Action>, i: nat) {
    i < |actions| && actions[i].BeginCleanup? && Run(actions[..i]).sys.job.Idle?
  }

  /** The horizon in nanoseconds: a day is past, or no longer kept, when some begun cleanup found it so. */
  lemma {:induction false} HorizonInNanos(actions: seq<Action>, d: int)
    ensures Past(Run(actions).horizon, d) <==> exists i: nat :: Begins(actions, i) && Over(d, actions[i].now)
    ensures Kept(Run(actions).horizon, d) <==>
      forall i: nat | Begins(actions, i) :: !Expired(actions[i].now, actions[i].retention, d)
  {
    hide Over, Expired, Run, Advance, Widen, Past, Kept, DayOf, Bound;
    if actions == [] {
      NoHorizon(d);
    } else {
      var n := |actions| - 1;
      var front, last := actions[..n], actions[n];
      HorizonInNanos(front, d);
      BeginsInFront(actions);
      if last.BeginCleanup? {
        CutoffInNanos(last.now, last.retention, d);
        WidenedDays(Run(front).horizon, last.now, last.retention, d);
      }
      RunLast(actions, d);
    }
  }

  lemma NoHorizon(d: int)
    ensures !Past(Run([]).horizon, d) && Kept(Run([]).horizon, d)
  {
  }

  lemma BeginsInFront(actions: seq<Action>)
    requires actions != []
    ensures var n := |actions| - 1; forall i: nat | i < n :: Begins(actions, i) <==> Begins(actions[..n], i)
  {
    hide Run;
    var n := |actions| - 1;
    forall i: nat | i < n ensures Begins(actions, i) <==> Begins(actions[..n], i) {
      assert actions[..i] == actions[..n][..i];
    }
  }

  lemma WidenedDays(h: Option<Horizon>, now: int, retention: int, d: int)
    ensures Past(Widen(h, now, retention), d) <==> Past(h, d) || d < DayOf(now)
    ensures Kept(Widen(h, now, retention), d) <==> Kept(h, d) && !(d < DayOf(Bound(now, retention)))
  {
  }

  lemma RunLast(actions: seq<Action>, d: int)
    requires actions != []
    ensures var n := |actions| - 1;
            Run(actions).horizon ==
              if Begins(actions, n) then Widen(Run(actions[..n]).horizon, actions[n].now, actions[n].retention)
              else Run(actions[..n]).horizon
  {
  }

  lemma RetainedIsKept(actions: seq<Action>, ts: int)
    requires Retained(actions, ts)
    ensures Kept(Run(actions).horizon, DayOf(ts))
  {
    hide Run, Expired, Over, Kept;
    HorizonInNanos(actions, DayOf(ts));
  }

  /**
   Over every interleaving of writes, cleanup steps and crashes: a record whose
   day no cleanup found expired can be read, no unfinished .gz is ever visible,
   and every day's files hold only records of that day.
   */
  lemma NothingLost(actions: seq<Action>, r: Record)
    requires TimelyRun(actions) && Retained(actions, r.ts)
    ensures var t := Run(actions);
            && WellFormed(t.sys.fs)
            && (r in t.written ==> Readable(t.sys.fs, r))
            && GzWhole(t.sys.fs)
            && DaysPure(t.sys.fs)
  {
    hide Run, Advance;
    RunsFaithful(actions);
    RetainedIsKept(actions, r.ts);
    TimelyDaysPure(actions);
    var t, d := Run(actions), DayOf(r.ts);
    assert DayFaithful(t, d);
    OfHolds(t.written, d, r);
    forall n | n in t.sys.fs.names && n.Gz?
      ensures At(t.sys.fs, n).Zipped?
    {
      assert DayFaithful(t, n.day);
    }
  }

  lemma TimelyDaysPure(actions: seq<Action>)
    requires TimelyRun(actions)
    ensures WellFormed(Run(actions).sys.fs) && DaysPure(Run(actions).sys.fs)
  {
    hide Run;
    RunsFaithful(actions);
    var t := Run(actions);
    forall n | n in t.sys.fs.names && (n.Raw? || n.Gz?)
      ensures At(t.sys.fs, n) != Partial
      ensures forall x | x in At(t.sys.fs, n).records :: DayOf(x.ts) == n.day
    {
      assert DayFaithful(t, n.day);
      forall x | x in Of(t.written, n.day)
        ensures DayOf(x.ts) == n.day
      {
        OfHolds(t.written, n.day, x);
      }
    }
  }

  /** Every record in the file of day D carries a timestamp on UTC day D. */
  ghost predicate DaysPure(fs: FS)
    requires WellFormed(fs)
  {
    forall n | n in fs.names && (n.Raw? || n.Gz?) ::
      At(fs, n) != Partial && forall x | x in At(fs, n).records :: DayOf(x.ts) == n.day
  }

  // ----- the premise is needed

  function EventAt(ts: int): Record {
    Record(ts, "apply", "api", "", "", "", "")
  }

  /** One record on day 0, then a cleanup on day 1 that gzips it. */
  const GZIP_RUN: seq<Action> :=
    [OpenFor(EventAt(0)), Append, BeginCleanup(NANOS_PER_DAY, 0, [Raw(0)]),
     CleanupStep, CleanupStep, CleanupStep, CleanupStep, CleanupStep, CleanupStep, CleanupStep, CleanupStep]

  /** The writer still holds day 0's file, which is now an orphaned inode. */
  const GZIPPED: Trail :=
    Trail(
      Sys(FS(map[Gz(0) := 1], map[0 := Lines([EventAt(0)]), 1 := Zipped([EventAt(0)])], 2),
          Some(Handle(0, 0)), None, Idle),
      [EventAt(0)], Some(Horizon(1, NANOS_PER_DAY - DEFAULT_RETENTION)))

  /** The states the run goes through. */
  function GzipStates(): seq<Trail> {
    var r := EventAt(0);
    var h := Some(Horizon(1, NANOS_PER_DAY - DEFAULT_RETENTION));
    var atOpen := Sys(FS(map[Raw(0) := 0], map[0 := Lines([])], 1), Some(Handle(0, 0)), Some(r), Idle);
    var written := Sys(FS(map[Raw(0) := 0], map[0 := Lines([r])], 1), Some(Handle(0, 0)), None, Idle);
    var partial := FS(map[Raw(0) := 0, Tmp(0) := 1], map[0 := Lines([r]), 1 := Partial], 2);
    var done := map[0 := Lines([r]), 1 := Zipped([r])];
    var both := FS(map[Raw(0) := 0, Gz(0) := 1], done, 2);
    var swept := FS(map[Gz(0) := 1], done, 2);
    var at := (fs: FS, stage: Stage) =>
      Trail(Sys(fs, Some(Handle(0, 0)), None, Sweep(1, -29, [], stage)), [r], h);
    [NEW_TRAIL,
     Trail(atOpen, [], None),
     Trail(written, [r], None),
     Trail(written.(job := Sweep(1, -29, [Raw(0)], Pick)), [r], h),
     at(written.fs, Creating(0)),
     at(partial, Opening(0)),
     at(partial, Copying(0, 0)),
     at(partial, Finishing(0, [r])),
     at(partial.(inodes := done), Renaming(0)),
     at(both, Removing(Raw(0))),
     at(swept, Pick),
     GZIPPED]
  }

  predicate Leads(ts: seq<Trail>, actions: seq<Action>, i: nat)
    requires i < |actions| < |ts|
  {
    Advance(ts[i], actions[i]) == ts[i + 1] && Timely(ts[i], actions[i])
  }

  lemma OpeningStep()
    ensures Leads(GzipStates(), GZIP_RUN, 0)
  {
  }

  lemma WritingStep()
    ensures Leads(GzipStates(), GZIP_RUN, 1)
  {
    assert [] + [EventAt(0)] == [EventAt(0)];
  }

  lemma ListingSteps()
    ensures Leads(GzipStates(), GZIP_RUN, 2) && Leads(GzipStates(), GZIP_RUN, 3)
  {
    assert [Raw(0)][1..] == [];
  }

  lemma CopyingSteps()
    ensures Leads(GzipStates(), GZIP_RUN, 4) && Leads(GzipStates(), GZIP_RUN, 5)
  {
  }

  lemma ZippingSteps()
    ensures Leads(GzipStates(), GZIP_RUN, 6) && Leads(GzipStates(), GZIP_RUN, 7)
  {
  }

  lemma LinkingStep()
    ensures Leads(GzipStates(), GZIP_RUN, 8)
  {
  }

  lemma RemovingSteps()
    ensures Leads(GzipStates(), GZIP_RUN, 9) && Leads(GzipStates(), GZIP_RUN, 10)
  {
  }

  lemma GzipRunEnds()
    ensures Run(GZIP_RUN) == GZIPPED && TimelyRun(GZIP_RUN)
  {
    hide Leads;
    OpeningStep();
    WritingStep();
    ListingSteps();
    CopyingSteps();
    ZippingSteps();
    LinkingStep();
    RemovingSteps();
    Replay(GZIP_RUN, GzipStates());
  }

  /** A listed sequence of states is the run, when each step leads to the next. */
  lemma {:induction false} Replay(actions: seq<Action>, ts: seq<Trail>)
    requires |ts| == |actions| + 1 && ts[0] == NEW_TRAIL
    requires forall i | 0 <= i < |actions| :: Leads(ts, actions, i)
    ensures Run(actions) == ts[|actions|] && TimelyRun(actions)
    decreases |actions|
  {
    hide Advance, Timely;
    if actions != [] {
      var n := |actions| - 1;
      var front, states := actions[..n], ts[..n + 1];
      forall i | 0 <= i < n
        ensures Leads(states, front, i)
      {
        assert Leads(ts, actions, i);
      }
      Replay(front, states);
      assert Leads(ts, actions, n);
      forall i | 0 <= i < |actions|
        ensures Timely(Run(actions[..i]), actions[i])
      {
        if i < n {
          assert Timely(Run(front[..i]), front[i]);
          assert front[..i] == actions[..i];
        } else {
          assert actions[..i] == front;
        }
      }
    }
  }

  lemma Extend(actions: seq<Action>, a: Action)
    ensures Run(actions + [a]) == Advance(Run(actions), a)
  {
    assert (actions + [a])[..|actions|] == actions;
  }

  /**
   Without the premise, first way: the record goes to the orphaned inode.  It
   is young enough to be kept, was written without an error, and is gone.
   */
  lemma LateRecordOrphaned()
    ensures var actions := GZIP_RUN + [OpenFor(EventAt(1))] + [Append];
            var t := Run(actions);
            && Retained(actions, 1) && EventAt(1) in t.written
            && WellFormed(t.sys.fs) && !Readable(t.sys.fs, EventAt(1))
  {
    hide Run, Advance;
    GzipRunEnds();
    Extend(GZIP_RUN, OpenFor(EventAt(1)));
    Extend(GZIP_RUN + [OpenFor(EventAt(1))], Append);
    OrphanedWrite();
  }

  lemma OrphanedWrite()
    ensures var t := Advance(Advance(GZIPPED, OpenFor(EventAt(1))), Append);
            && t.written == [EventAt(0), EventAt(1)]
            && t.sys.fs.names == map[Gz(0) := 1] && t.sys.fs.next == 2
            && t.sys.fs.inodes == map[0 := Lines([EventAt(0), EventAt(1)]), 1 := Zipped([EventAt(0)])]
  {
    assert [EventAt(0)] + [EventAt(1)] == [EventAt(0), EventAt(1)];
  }

  /** The late record in a new raw file beside the day's .gz. */
  const DOUBLED: Trail :=
    Trail(
      Sys(FS(map[Gz(0) := 1, Raw(0) := 2],
             map[0 := Lines([EventAt(0)]), 1 := Zipped([EventAt(0)]), 2 := Lines([EventAt(1)])], 3),
          Some(Handle(0, 2)), None, Idle),
      [EventAt(0), EventAt(1)], Some(Horizon(1, NANOS_PER_DAY - DEFAULT_RETENTION)))

  lemma DoubledReached()
    ensures Run(GZIP_RUN + [CloseWriter] + [OpenFor(EventAt(1))] + [Append]) == DOUBLED
  {
    hide Run;
    GzipRunEnds();
    var e := EventAt(1);
    Extend(GZIP_RUN, CloseWriter);
    Extend(GZIP_RUN + [CloseWriter], OpenFor(e));
    Extend(GZIP_RUN + [CloseWriter] + [OpenFor(e)], Append);
    assert [] + [e] == [e] && [EventAt(0)] + [e] == [EventAt(0), e];
  }

  const SECOND_SWEEP: seq<Action> :=
    GZIP_RUN + [CloseWriter] + [OpenFor(EventAt(1))] + [Append]
    + [BeginCleanup(NANOS_PER_DAY, 0, [Raw(0), Gz(0)])] + [CleanupStep] + [CleanupStep]

  lemma DoubledSwept()
    ensures var t := Run(SECOND_SWEEP);
            && t.sys.fs == Unlink(DOUBLED.sys.fs, Raw(0)) && t.written == DOUBLED.written
  {
    hide Run, Unlink;
    DoubledReached();
    var late := GZIP_RUN + [CloseWriter] + [OpenFor(EventAt(1))] + [Append];
    var begin := BeginCleanup(NANOS_PER_DAY, 0, [Raw(0), Gz(0)]);
    Extend(late, begin);
    Extend(late + [begin], CleanupStep);
    Extend(late + [begin] + [CleanupStep], CleanupStep);
  }

  lemma SecondSweepKeepsIt()
    ensures Retained(SECOND_SWEEP, 1)
  {
  }

  /**
   Second way: the record lands in a fresh raw file, and the next cleanup
   removes that file because the day's .gz already exists.
   */
  lemma LateRecordSuperseded()
    ensures WellFormed(DOUBLED.sys.fs) && Readable(DOUBLED.sys.fs, EventAt(1))
    ensures var t := Run(SECOND_SWEEP);
            && Retained(SECOND_SWEEP, 1) && EventAt(1) in t.written
            && WellFormed(t.sys.fs) && !Readable(t.sys.fs, EventAt(1))
  {
    hide Run;
    DoubledSwept();
    SecondSweepKeepsIt();
    hide Retained;
    assert At(DOUBLED.sys.fs, Raw(0)) == Lines([EventAt(1)]);
    var t := Run(SECOND_SWEEP);
    UnlinkEffect(DOUBLED.sys.fs, Raw(0));
    assert At(t.sys.fs, Gz(0)) == Zipped([EventAt(0)]);
  }
}
