/**
 The cleanup pass run to its end, and the writer, as the program's own loops.

 The pass restores one file per retained past day whatever a crash left
 behind, and a second pass finds nothing to do.
 */
module ActivityCleanup {
  import opened Outcomes
  import opened ActivityStore
  import opened ActivityRuns

  /** The directory a pass over `before` leaves: the files of past days merged, expired ones gone. */
  ghost predicate Swept(before: FS, after: FS, today: int, cutoff: int)
    requires WellFormed(before) && WellFormed(after)
  {
    forall d :: DaySwept(before, after, today, cutoff, d)
  }

  /**
   The same in nanoseconds: exactly the expired days lose their files, days not
   over keep theirs as they were, and no day that is over has a plain file.
   */
  ghost predicate SweptAt(before: FS, after: FS, now: int, retention: int)
    requires WellFormed(before) && WellFormed(after)
  {
    forall d ::
      && (Raw(d) !in after.names && Gz(d) !in after.names <==>
            (Raw(d) !in before.names && Gz(d) !in before.names) || Expired(now, retention, d))
      && (Over(d, now) ==> Raw(d) !in after.names)
      && (!Over(d, now) ==> SameFile(before, after, Raw(d)) && SameFile(before, after, Gz(d)))
  }

  lemma SweptInNanos(before: FS, after: FS, now: int, retention: int)
    requires WellFormed(before) && WellFormed(after)
    requires Swept(before, after, DayOf(now), DayOf(Bound(now, retention)))
    ensures SweptAt(before, after, now, retention)
  {
    hide Expired, Over, DayOf, Bound, WellFormed;
    forall d
      ensures Raw(d) !in after.names && Gz(d) !in after.names <==>
                (Raw(d) !in before.names && Gz(d) !in before.names) || Expired(now, retention, d)
      ensures Over(d, now) ==> Raw(d) !in after.names
      ensures !Over(d, now) ==> SameFile(before, after, Raw(d)) && SameFile(before, after, Gz(d))
    {
      CutoffInNanos(now, retention, d);
      assert DaySwept(before, after, DayOf(now), DayOf(Bound(now, retention)), d);
    }
  }

  predicate SameFile(before: FS, after: FS, n: Name)
    requires WellFormed(before) && WellFormed(after)
  {
    && (n in before.names <==> n in after.names)
    && (n in before.names ==> before.names[n] == after.names[n] && At(before, n) == At(after, n))
  }

  predicate DaySwept(before: FS, after: FS, today: int, cutoff: int, d: int)
    requires WellFormed(before) && WellFormed(after)
  {
    if d < cutoff then Raw(d) !in after.names && Gz(d) !in after.names
    else if d >= today then SameFile(before, after, Raw(d)) && SameFile(before, after, Gz(d))
    else
      && Raw(d) !in after.names
      && (if Gz(d) in before.names then SameFile(before, after, Gz(d))
          else if Raw(d) in before.names then
            Gz(d) in after.names && At(before, Raw(d)).Lines?
            && At(after, Gz(d)) == Zipped(At(before, Raw(d)).records)
          else Gz(d) !in after.names)
  }

  /** Nothing in the directory is expired or waits to be gzipped. */
  ghost predicate Settled(fs: FS, today: int, cutoff: int) {
    && (forall d | d < cutoff :: Raw(d) !in fs.names && Gz(d) !in fs.names)
    && (forall d | d < today :: Raw(d) !in fs.names)
  }

  /** Raw files hold lines; everything else a directory entry can be is allowed. */
  ghost predicate RawsAreLines(fs: FS)
    requires WellFormed(fs)
  {
    forall n | n in fs.names && n.Raw? :: At(fs, n).Lines?
  }

  /** What one gzip call leaves for its own day; every other entry but its .tmp is untouched. */
  ghost predicate GzippedDay(before: FS, after: FS, d: int)
    requires WellFormed(before) && WellFormed(after)
  {
    && (forall n | n != Raw(d) && n != Gz(d) && n != Tmp(d) :: SameFile(before, after, n))
    && (Gz(d) in before.names || Raw(d) in before.names ==> DaySwept(before, after, d + 1, d, d))
  }

  // Frames of the file operations, entry by entry.

  lemma UnlinkFrame(fs: FS, n: Name)
    requires WellFormed(fs)
    ensures WellFormed(Unlink(fs, n)) && n !in Unlink(fs, n).names
    ensures forall m | m != n :: SameFile(fs, Unlink(fs, n), m)
  {
    UnlinkEffect(fs, n);
  }

  lemma OverwriteFrame(fs: FS, n: Name, c: Content)
    requires WellFormed(fs)
    ensures WellFormed(Overwrite(fs, n, c)) && n in Overwrite(fs, n, c).names && At(Overwrite(fs, n, c), n) == c
    ensures forall m | m != n :: SameFile(fs, Overwrite(fs, n, c), m)
  {
    OverwriteEffect(fs, n, c);
  }

  lemma RenameFrame(fs: FS, from: Name, to: Name)
    requires WellFormed(fs) && from in fs.names && from != to
    ensures WellFormed(Rename(fs, from, to)) && from !in Rename(fs, from, to).names
    ensures to in Rename(fs, from, to).names && At(Rename(fs, from, to), to) == At(fs, from)
    ensures forall m | m != from && m != to :: SameFile(fs, Rename(fs, from, to), m)
  {
    RenameEffect(fs, from, to);
  }

  /** The whole of a gzip that meets no .gz: tmp, copy, rename, unlink. */
  function GzipOf(fs: FS, d: int): FS
    requires WellFormed(fs) && Raw(d) in fs.names && At(fs, Raw(d)).Lines?
  {
    var rs := At(fs, Raw(d)).records;
    var zipped := Overwrite(Overwrite(fs, Tmp(d), Partial), Tmp(d), Zipped(rs));
    OverwriteFrame(fs, Tmp(d), Partial);
    OverwriteFrame(Overwrite(fs, Tmp(d), Partial), Tmp(d), Zipped(rs));
    Unlink(Rename(zipped, Tmp(d), Gz(d)), Raw(d))
  }

  lemma GzippedEffect(fs: FS, d: int)
    requires WellFormed(fs) && Raw(d) in fs.names && At(fs, Raw(d)).Lines? && Gz(d) !in fs.names
    ensures WellFormed(GzipOf(fs, d)) && GzippedDay(fs, GzipOf(fs, d), d)
    ensures forall i | i in fs.inodes :: i in GzipOf(fs, d).inodes
  {
    hide Overwrite, Unlink, Rename;
    var rs := At(fs, Raw(d)).records;
    OverwriteFrame(fs, Tmp(d), Partial);
    OverwriteEffect(fs, Tmp(d), Partial);
    var a := Overwrite(fs, Tmp(d), Partial);
    OverwriteFrame(a, Tmp(d), Zipped(rs));
    OverwriteEffect(a, Tmp(d), Zipped(rs));
    var b := Overwrite(a, Tmp(d), Zipped(rs));
    RenameFrame(b, Tmp(d), Gz(d));
    RenameEffect(b, Tmp(d), Gz(d));
    var c := Rename(b, Tmp(d), Gz(d));
    UnlinkFrame(c, Raw(d));
    UnlinkEffect(c, Raw(d));
    var after := Unlink(c, Raw(d));
    forall n | n != Raw(d) && n != Gz(d) && n != Tmp(d)
      ensures SameFile(fs, after, n)
    {
      assert SameFile(fs, a, n) && SameFile(a, b, n) && SameFile(b, c, n) && SameFile(c, after, n);
    }
    assert SameFile(c, after, Gz(d));
  }

  /** Entries other than a day's own keep what the invariant needs. */
  lemma GzippedKeeps(before: FS, after: FS, d: int)
    requires WellFormed(before) && WellFormed(after) && GzippedDay(before, after, d)
    requires Raw(d) in before.names
    ensures RawsAreLines(before) ==> RawsAreLines(after)
    ensures GzWhole(before) ==> GzWhole(after)
  {
    forall n | n in after.names
      ensures n.Raw? && RawsAreLines(before) ==> At(after, n).Lines?
      ensures n.Gz? && GzWhole(before) ==> At(after, n).Zipped?
    {
      if n != Raw(d) && n != Gz(d) && n != Tmp(d) {
        assert SameFile(before, after, n);
      }
    }
  }

  /** A pass that has handled the entries `done`: an entry not yet handled is as it was. */
  predicate DayPartly(before: FS, now: FS, done: set<Name>, today: int, cutoff: int, d: int)
    requires WellFormed(before) && WellFormed(now)
  {
    if d < cutoff then
      && (if Raw(d) in done then Raw(d) !in now.names else SameFile(before, now, Raw(d)))
      && (if Gz(d) in done then Gz(d) !in now.names else SameFile(before, now, Gz(d)))
    else if d >= today || Raw(d) !in done then SameFile(before, now, Raw(d)) && SameFile(before, now, Gz(d))
    else DaySwept(before, now, today, cutoff, d)
  }

  ghost predicate PartlySwept(before: FS, now: FS, done: set<Name>, today: int, cutoff: int)
    requires WellFormed(before) && WellFormed(now)
  {
    forall d :: DayPartly(before, now, done, today, cutoff, d)
  }

  /** What handling one entry does to the directory. */
  ghost predicate Handled(was: FS, now: FS, n: Name, today: int, cutoff: int)
    requires WellFormed(was) && WellFormed(now)
  {
    if (n.Raw? || n.Gz?) && n.day < cutoff then n !in now.names && forall m | m != n :: SameFile(was, now, m)
    else if n.Raw? && n.day < today then GzippedDay(was, now, n.day)
    else now == was
  }

  /** One more entry of a pass. */
  lemma EntryHandled(before: FS, was: FS, now: FS, n: Name, today: int, cutoff: int, done: set<Name>)
    requires WellFormed(before) && WellFormed(was) && WellFormed(now) && n in before.names && n !in done
    requires PartlySwept(before, was, done, today, cutoff) && Handled(was, now, n, today, cutoff)
    ensures PartlySwept(before, now, done + {n}, today, cutoff)
  {
    forall d
      ensures DayPartly(before, now, done + {n}, today, cutoff, d)
    {
      assert DayPartly(before, was, done, today, cutoff, d);
      assert SameFile(was, now, Raw(d)) || n == Raw(d) || n == Gz(d);
      assert SameFile(was, now, Gz(d)) || n == Raw(d) || n == Gz(d);
    }
  }

  class TrailDir {
    var fs: FS
    var handle: Option<Handle>

    ghost predicate Valid()
      reads this
    {
      && WellFormed(fs) && RawsAreLines(fs)
      && (handle.Some? ==> handle.value.inode in fs.inodes)
    }

    constructor ()
      ensures Valid() && fs == EMPTY_FS && handle == None
    {
      fs, handle := EMPTY_FS, None;
    }

    /** Appends one record to the file of its own day, opening or rotating as needed. */
    method Write(rec: Record)
      requires Valid()
      modifies this
      ensures Valid() && handle.Some? && handle.value.day == DayOf(rec.ts)
      ensures var s := EnsureOpen(Sys(old(fs), old(handle), None, Idle), DayOf(rec.ts));
              handle == s.handle && fs == AppendLine(s.fs, s.handle.value.inode, rec)
    {
      var day := DayOf(rec.ts);
      if handle.None? || handle.value.day != day {
        handle := None;
        OverwriteEffect(fs, Raw(day), Lines([]));
        fs := OpenAppend(fs, Raw(day));
        handle := Some(Handle(day, fs.names[Raw(day)]));
      }
      fs := AppendLine(fs, handle.value.inode, rec);
    }

    /** Compresses a day's raw file, or drops it when the .gz is already there. */
    method GzipFile(d: int)
      requires Valid() && Raw(d) in fs.names
      modifies this`fs
      ensures Valid() && GzippedDay(old(fs), fs, d)
      ensures GzWhole(old(fs)) ==> GzWhole(fs)
    {
      hide Overwrite, Unlink, Rename;
      ghost var before := fs;
      if Gz(d) in fs.names {
        UnlinkFrame(fs, Raw(d));
        UnlinkEffect(fs, Raw(d));
        fs := Unlink(fs, Raw(d));
        GzippedKeeps(before, fs, d);
        return;
      }
      GzippedEffect(fs, d);
      var copied := At(fs, Raw(d)).records;
      OverwriteFrame(fs, Tmp(d), Partial);
      fs := Overwrite(fs, Tmp(d), Partial);
      OverwriteFrame(fs, Tmp(d), Zipped(copied));
      fs := Overwrite(fs, Tmp(d), Zipped(copied));
      fs := Rename(fs, Tmp(d), Gz(d));
      fs := Unlink(fs, Raw(d));
      assert fs == GzipOf(before, d);
      GzippedKeeps(before, fs, d);
    }

    /** The retention and rotation pass; entries come in no particular order. */
    method Cleanup(now: int, retention: int)
      requires Valid()
      modifies this`fs
      ensures Valid()
      ensures Swept(old(fs), fs, DayOf(now), DayOf(Bound(now, retention)))
      ensures SweptAt(old(fs), fs, now, retention)
      ensures forall n | n in old(fs).names && n.Foreign? :: SameFile(old(fs), fs, n)
      ensures GzWhole(old(fs)) ==> GzWhole(fs)
      ensures Settled(old(fs), DayOf(now), DayOf(Bound(now, retention))) ==> fs == old(fs)
    {
      var today, cutoff := DayOf(now), DayOf(Bound(now, retention));
      ghost var before := fs;
      var left := fs.names.Keys;
      ghost var done: set<Name> := {};
      while left != {}
        invariant Valid() && done + left == before.names.Keys && done !! left
        invariant PartlySwept(before, fs, done, today, cutoff)
        invariant forall n | n in before.names && n.Foreign? :: SameFile(before, fs, n)
        invariant GzWhole(before) ==> GzWhole(fs)
        invariant Settled(before, today, cutoff) ==> fs == before
        decreases left
      {
        var n :| n in left;
        left := left - {n};
        HandleEntry(n, today, cutoff, before, done);
        done := done + {n};
      }
      forall d
        ensures DaySwept(before, fs, today, cutoff, d)
      {
        assert DayPartly(before, fs, done, today, cutoff, d);
      }
      SweptInNanos(before, fs, now, retention);
    }

    /** One directory entry: too old wins over should be gzipped. */
    method HandleEntry(n: Name, today: int, cutoff: int, ghost before: FS, ghost done: set<Name>)
      requires Valid() && WellFormed(before) && n in before.names && n !in done
      requires PartlySwept(before, fs, done, today, cutoff)
      requires forall m | m in before.names && m.Foreign? :: SameFile(before, fs, m)
      modifies this`fs
      ensures Valid()
      ensures PartlySwept(before, fs, done + {n}, today, cutoff)
      ensures forall m | m in before.names && m.Foreign? :: SameFile(before, fs, m)
      ensures GzWhole(old(fs)) ==> GzWhole(fs)
      ensures Settled(before, today, cutoff) ==> fs == old(fs)
    {
      ghost var was := fs;
      match n {
        case Raw(d) =>
          assert DayPartly(before, was, done, today, cutoff, d);
          if d < cutoff {
            Remove(n);
          } else if d < today {
            GzipFile(d);
          }
        case Gz(d) =>
          assert DayPartly(before, was, done, today, cutoff, d);
          if d < cutoff {
            Remove(n);
          }
        case _ =>
      }
      EntryHandled(before, was, fs, n, today, cutoff, done);
      forall m | m in before.names && m.Foreign?
        ensures SameFile(before, fs, m)
      {
        assert SameFile(before, was, m) && SameFile(was, fs, m);
      }
    }

    /** os.Remove */
    method Remove(n: Name)
      requires Valid()
      modifies this`fs
      ensures Valid() && fs.inodes == old(fs).inodes && n !in fs.names
      ensures forall m | m != n :: SameFile(old(fs), fs, m)
      ensures GzWhole(old(fs)) ==> GzWhole(fs)
    {
      hide Unlink;
      UnlinkFrame(fs, n);
      UnlinkEffect(fs, n);
      fs := Unlink(fs, n);
    }
  }

  // ----- consequences

  lemma BoundBeforeNow(now: int, retention: int)
    ensures DayOf(Bound(now, retention)) <= DayOf(now)
  {
  }

  /** After one pass there is nothing left for a second one at the same time to do. */
  lemma SweptIsSettled(before: FS, after: FS, now: int, retention: int)
    requires WellFormed(before) && WellFormed(after)
    requires Swept(before, after, DayOf(now), DayOf(Bound(now, retention)))
    ensures Settled(after, DayOf(now), DayOf(Bound(now, retention)))
  {
    var today, cutoff := DayOf(now), DayOf(Bound(now, retention));
    BoundBeforeNow(now, retention);
    forall d
      ensures d < cutoff ==> Raw(d) !in after.names && Gz(d) !in after.names
      ensures d < today ==> Raw(d) !in after.names
    {
      assert DaySwept(before, after, today, cutoff, d);
    }
  }

  /**
   Whatever steps, crashes and half-done passes came before, one full pass
   leaves each retained past day with exactly one file, the complete .gz.
   */
  lemma OneFilePerPastDay(actions: seq<Action>, after: FS, now: int, retention: int, d: int)
    requires TimelyRun(actions) && WellFormed(after) && WellFormed(Run(actions).sys.fs)
    requires Swept(Run(actions).sys.fs, after, DayOf(now), DayOf(Bound(now, retention)))
    requires Over(d, now) && !Expired(now, retention, d)
    requires forall a | a in actions && a.BeginCleanup? :: !Expired(a.now, a.retention, d)
    ensures Raw(d) !in after.names
    ensures Of(Run(actions).written, d) != [] ==> Gz(d) in after.names
    ensures Gz(d) in after.names ==> At(after, Gz(d)) == Zipped(Of(Run(actions).written, d))
  {
    hide Run, Of, Over, Expired, DayOf, Bound;
    RunsFaithful(actions);
    CutoffInNanos(now, retention, d);
    HorizonInNanos(actions, d);
    var t := Run(actions);
    assert DayFaithful(t, d);
    assert DaySwept(t.sys.fs, after, DayOf(now), DayOf(Bound(now, retention)), d);
  }

  /** A handle that is not on its day's file is on no file at all. */
  ghost predicate LinkedOrOrphan(fs: FS, handle: Option<Handle>) {
    handle.Some? ==>
      && handle.value.inode in fs.inodes && fs.inodes[handle.value.inode].Lines?
      && forall n | n in fs.names && fs.names[n] == handle.value.inode :: n == Raw(handle.value.day)
  }

  /** Uninterrupted, the six calls of the step machine are the gzip of the pass. */
  lemma StepsAreGzip(s: Sys, d: int)
    requires WellFormed(s.fs) && s.job.Sweep? && s.job.stage == Creating(d)
    requires Raw(d) in s.fs.names && At(s.fs, Raw(d)).Lines?
    ensures var t := Step(Step(Step(Step(Step(Step(s, CleanupStep), CleanupStep), CleanupStep),
                                    CleanupStep), CleanupStep), CleanupStep);
            t == s.(fs := GzipOf(s.fs, d), job := s.job.(stage := Pick))
  {
    hide Overwrite, Unlink, Rename;
    var rs := At(s.fs, Raw(d)).records;
    OverwriteFrame(s.fs, Tmp(d), Partial);
    var a := Overwrite(s.fs, Tmp(d), Partial);
    assert SameFile(s.fs, a, Raw(d));
    var s1 := Step(s, CleanupStep);
    assert s1 == s.(fs := a, job := s.job.(stage := Opening(d)));
    var s3 := Step(Step(s1, CleanupStep), CleanupStep);
    assert s3 == s1.(job := s.job.(stage := Finishing(d, rs)));
    OverwriteFrame(a, Tmp(d), Zipped(rs));
    var s4 := Step(s3, CleanupStep);
    assert s4 == s1.(fs := Overwrite(a, Tmp(d), Zipped(rs)), job := s.job.(stage := Renaming(d)));
  }
}
