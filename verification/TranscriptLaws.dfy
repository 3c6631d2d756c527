/**
 What the fold of module Transcript commits, read off the frames themselves:
 which step is open, what ended it, and the rows each frame leaves with their
 marks spelled out.
 */
module TranscriptLaws {
  import opened Text
  import opened Terminal
  import opened Transcript

  // ----- the history of a stream

  /** A step with a title starts here. */
  predicate Opens(f: Frame) {
    f.Decoded? && f.event.StepStart? && f.event.title != ""
  }

  /** An open step of this id ends here: at its own end, at the next start, or at a summary. */
  predicate Ends(f: Frame, id: string) {
    f.Decoded? && (f.event.StepStart? || f.event.Summary? || (f.event.StepEnd? && f.event.id == id))
  }

  /** The step that started at frame i is open when frame n comes. */
  predicate OpenFrom(frames: seq<Frame>, i: nat, n: nat)
    requires n <= |frames|
  {
    i < n && Opens(frames[i]) && forall k | i < k < n :: !Ends(frames[k], frames[i].event.id)
  }

  ghost predicate SomeOpen(frames: seq<Frame>, n: nat)
    requires n <= |frames|
  {
    exists i: nat :: OpenFrom(frames, i, n)
  }

  predicate BuildSummary(f: Frame) {
    f.Decoded? && f.event.Summary? && HasPrefix(f.event.text, "Build completed")
  }

  predicate DeploySummary(f: Frame) {
    f.Decoded? && f.event.Summary? && !BuildSummary(f) && HasPrefix(f.event.text, "Deploy completed successfully")
  }

  /** A build has completed before frame n. */
  predicate Built(frames: seq<Frame>, n: nat)
    requires n <= |frames|
  {
    exists k | 0 <= k < n :: BuildSummary(frames[k])
  }

  /** The flow a step started ends with a build summary, or with a deploy summary before any. */
  predicate EndsFlow(frames: seq<Frame>, k: nat)
    requires k < |frames|
  {
    BuildSummary(frames[k]) || (DeploySummary(frames[k]) && !Built(frames, k))
  }

  predicate Starts(f: Frame) {
    f.Decoded? && f.event.StepStart?
  }

  /** Between the start of some step and the end of its flow. */
  predicate Flowing(frames: seq<Frame>, n: nat)
    requires n <= |frames|
  {
    exists i | 0 <= i < n :: Starts(frames[i]) && forall k | i < k < n :: !EndsFlow(frames, k)
  }

  /** A line of output beneath a step. */
  function Output(f: Frame): seq<string> {
    match f
    case RawLine(line) => if Sanitize(line) == "" then [] else [Sanitize(line)]
    case Decoded(Log(Info, text)) => if Sanitize(text) == "" then [] else [Sanitize(text)]
    case _ => []
  }

  /** The output lines between frames i and n. */
  function Said(frames: seq<Frame>, i: nat, n: nat): seq<string>
    requires n <= |frames|
  {
    if n <= i + 1 then [] else Said(frames, i, n - 1) + Output(frames[n - 1])
  }

  function LastTen(s: seq<string>): seq<string> {
    if |s| > 10 then s[|s| - 10..] else s
  }

  // ----- the rows a frame leaves

  function LinesOf(rows: seq<string>): seq<string> {
    if rows == [] then [] else LinesOf(rows[..|rows| - 1]) + Lines(rows[|rows| - 1])
  }

  /** Title and running time of the step that started at frame i, as frame n finds them. */
  function Headline(frames: seq<Frame>, i: nat, n: nat, clock: Clock): string
    requires n <= |frames| && OpenFrom(frames, i, n)
  {
    frames[i].event.title + " (" + Elapsed(clock(n).now - clock(i).now) + ")"
  }

  ghost function Passed(frames: seq<Frame>, n: nat, clock: Clock): seq<string>
    requires n <= |frames|
  {
    if SomeOpen(frames, n) then
      var i: nat :| OpenFrom(frames, i, n);
      Lines("\U{2713} " + Headline(frames, i, n, clock))
    else []
  }

  ghost function FailedRows(frames: seq<Frame>, n: nat, error: string, clock: Clock): seq<string>
    requires n <= |frames| && SomeOpen(frames, n)
  {
    var i: nat :| OpenFrom(frames, i, n);
    Lines("\U{2717} " + Headline(frames, i, n, clock))
    + LinesOf(Indented(LastTen(Said(frames, i, n)), clock(n).width))
    + if error == "" then [] else Lines("  " + error)
  }

  function Indented(lines: seq<string>, width: int): (rows: seq<string>)
    ensures |rows| == |lines|
  {
    seq(|lines|, k requires 0 <= k < |lines| => "  " + Fitted(lines[k], width - 2))
  }

  /** Text cut to fit, an ellipsis taking the last place. */
  function Fitted(s: string, room: int): string {
    if room <= 1 then "" else if |s| > room then s[..room - 1] + "\U{2026}" else s
  }

  /** The step that is open has this id. */
  ghost predicate OpenWith(frames: seq<Frame>, n: nat, id: string)
    requires n <= |frames|
  {
    exists i: nat :: OpenFrom(frames, i, n) && frames[i].event.id == id
  }

  /** What frame n commits. */
  ghost function Rows(frames: seq<Frame>, n: nat, clock: Clock): seq<string>
    requires n < |frames|
  {
    match frames[n]
    case BlankLine => if SomeOpen(frames, n) then [] else Lines("")
    case RawLine(line) => if Flowing(frames, n) || Built(frames, n) then [] else Lines(line)
    case Decoded(e) =>
      match e
      case Hello(protocol) => if protocol == "ndjson/1" then [] else Lines(Warning(protocol))
      case StepStart(_, _) => Passed(frames, n, clock)
      case StepEnd(id, status, error) =>
        if !OpenWith(frames, n, id) || status.StatusCancel? then []
        else if status.StatusFail? then FailedRows(frames, n, error, clock)
        else Passed(frames, n, clock)
      case Log(Warn, text) => Lines("\U{26A0} " + text)
      case Log(Error, text) => Lines("\U{2717} " + text)
      case Log(Info, text) => if Flowing(frames, n) then [] else Lines(text)
      case Result(kind, scope, name, action) =>
        Lines("\U{2713} " + (if scope == "" then kind + "/" + name else kind + "/" + scope + "/" + name) + " " + action)
      case Summary(text) =>
        Passed(frames, n, clock) + SummaryRows(frames, n)
      case Unknown => []
  }

  function Warning(protocol: string): string {
    "voodu: protocol mismatch (server=" + Quoted(protocol) + ", client=" + Quoted("ndjson/1")
    + "), continuing with best-effort rendering"
  }

  /** The rows of the first n frames, in order. */
  ghost function RowsUpTo(frames: seq<Frame>, n: nat, clock: Clock): seq<string>
    requires n <= |frames|
  {
    if n == 0 then [] else RowsUpTo(frames, n - 1, clock) + Rows(frames, n - 1, clock)
  }

  ghost predicate StepAt(v: View, frames: seq<Frame>, i: nat, n: nat, clock: Clock)
    requires n <= |frames| && OpenFrom(frames, i, n)
  {
    && v.title == frames[i].event.title && v.id == frames[i].event.id
    && v.started == clock(i).now && v.tail == LastTen(Said(frames, i, n))
  }

  /** The view agrees with the history. */
  ghost predicate Agrees(v: View, frames: seq<Frame>, n: nat, clock: Clock)
    requires n <= |frames|
  {
    && (v.active <==> Flowing(frames, n))
    && (v.buildClosed <==> Built(frames, n))
    && (v.title != "" <==> SomeOpen(frames, n))
    && (v.title != "" ==> v.active)
    && (forall i: nat | OpenFrom(frames, i, n) :: StepAt(v, frames, i, n, clock))
  }

  lemma OneOpen(frames: seq<Frame>, i: nat, j: nat, n: nat)
    requires n <= |frames| && OpenFrom(frames, i, n) && OpenFrom(frames, j, n)
    ensures i == j
  {
  }

  // ----- one frame more of history

  lemma OpenNext(frames: seq<Frame>, i: nat, n: nat)
    requires n < |frames|
    ensures OpenFrom(frames, i, n + 1) <==>
      (i == n && Opens(frames[n])) || (OpenFrom(frames, i, n) && !Ends(frames[n], frames[i].event.id))
  {
  }

  lemma BuiltNext(frames: seq<Frame>, n: nat)
    requires n < |frames|
    ensures Built(frames, n + 1) <==> Built(frames, n) || BuildSummary(frames[n])
  {
    hide BuildSummary;
  }

  lemma FlowingNext(frames: seq<Frame>, n: nat)
    requires n < |frames|
    ensures Flowing(frames, n + 1) <==> Starts(frames[n]) || (Flowing(frames, n) && !EndsFlow(frames, n))
    ensures Starts(frames[n]) ==> !EndsFlow(frames, n)
  {
    hide EndsFlow;
    StartsEndNothing(frames, n);
    if Starts(frames[n]) {
      assert Flowing(frames, n + 1);
    } else if Flowing(frames, n) && !EndsFlow(frames, n) {
      var i :| 0 <= i < n && Starts(frames[i]) && forall k | i < k < n :: !EndsFlow(frames, k);
      assert forall k | i < k < n + 1 :: !EndsFlow(frames, k);
    }
  }

  lemma StartsEndNothing(frames: seq<Frame>, n: nat)
    requires n < |frames|
    ensures Starts(frames[n]) ==> !EndsFlow(frames, n)
  {
  }

  lemma LastTenMore(s: seq<string>, raw: string)
    ensures Pushed(LastTen(s), raw) == LastTen(s + if Sanitize(raw) == "" then [] else [Sanitize(raw)])
  {
    hide Sanitize;
  }

  lemma {:induction false} PrintRowsLeave(v: View, rows: seq<string>)
    ensures PrintRows(v, rows) == v.(committed := v.committed + LinesOf(rows))
  {
    hide Lines;
    if rows != [] {
      PrintRowsLeave(v, rows[..|rows| - 1]);
    }
  }

  lemma TailIsIndented(tail: seq<string>, width: int)
    ensures TailRows(tail, width) == Indented(tail, width)
  {
  }

  /** The open step is the one the rows are about. */
  lemma PassedIs(frames: seq<Frame>, i: nat, n: nat, error: string, clock: Clock)
    requires n <= |frames| && OpenFrom(frames, i, n)
    ensures SomeOpen(frames, n)
    ensures Passed(frames, n, clock) == Lines("\U{2713} " + Headline(frames, i, n, clock))
    ensures FailedRows(frames, n, error, clock)
         == Lines("\U{2717} " + Headline(frames, i, n, clock))
            + LinesOf(Indented(LastTen(Said(frames, i, n)), clock(n).width))
            + if error == "" then [] else Lines("  " + error)
  {
    hide OpenFrom, Headline, Lines, LinesOf, Indented, LastTen, Said;
    forall j: nat | OpenFrom(frames, j, n) ensures j == i { OneOpen(frames, i, j, n); }
  }

  lemma NonePassed(frames: seq<Frame>, n: nat, clock: Clock)
    requires n <= |frames| && !SomeOpen(frames, n)
    ensures Passed(frames, n, clock) == []
  {
  }

  /** Closing an open step commits its check-marked row. */
  lemma CloseLeaves(v: View, frames: seq<Frame>, n: nat, clock: Clock)
    requires n < |frames| && Agrees(v, frames, n, clock)
    ensures CloseStep(v, clock(n)).committed == v.committed + Passed(frames, n, clock)
  {
    hide *;
    if v.title != "" {
      var i := StepOf(v, frames, n, clock);
      ClosedStep(v, frames, i, n, clock);
    } else {
      NoStepOf(v, frames, n, clock);
      NonePassed(frames, n, clock);
      NothingToClose(v, clock(n));
    }
  }

  lemma StepOf(v: View, frames: seq<Frame>, n: nat, clock: Clock) returns (i: nat)
    requires n <= |frames| && Agrees(v, frames, n, clock) && v.title != ""
    ensures OpenFrom(frames, i, n) && StepAt(v, frames, i, n, clock) && v.active
  {
    hide OpenFrom, StepAt, Flowing, Built;
    i :| OpenFrom(frames, i, n);
  }

  lemma NoStepOf(v: View, frames: seq<Frame>, n: nat, clock: Clock)
    requires n <= |frames| && Agrees(v, frames, n, clock)
    ensures v.title != "" <==> SomeOpen(frames, n)
    ensures v.active <==> Flowing(frames, n)
    ensures v.buildClosed <==> Built(frames, n)
    ensures v.title != "" ==> v.active
  {
    hide SomeOpen, StepAt, Flowing, Built;
  }

  lemma NothingToClose(v: View, env: Env)
    requires v.title == ""
    ensures CloseStep(v, env) == v && v.committed + [] == v.committed
  {
  }

  lemma ClosedStep(v: View, frames: seq<Frame>, i: nat, n: nat, clock: Clock)
    requires n < |frames| && OpenFrom(frames, i, n) && StepAt(v, frames, i, n, clock) && v.title != ""
    ensures CloseStep(v, clock(n)).committed == v.committed + Passed(frames, n, clock)
  {
    hide *;
    MarkedAlike(v, frames, i, n, clock);
    PassedIs(frames, i, n, "", clock);
    CloseIs(v, clock(n));
  }

  lemma CloseIs(v: View, env: Env)
    requires v.title != ""
    ensures CloseStep(v, env).committed == v.committed + Lines(StepLine(v.title, env.now - v.started))
  {
    hide Lines, StepLine;
  }

  lemma MarkedAlike(v: View, frames: seq<Frame>, i: nat, n: nat, clock: Clock)
    requires n <= |frames| && OpenFrom(frames, i, n) && StepAt(v, frames, i, n, clock)
    ensures StepLine(v.title, clock(n).now - v.started) == "\U{2713} " + Headline(frames, i, n, clock)
    ensures FailLine(v.title, clock(n).now - v.started) == "\U{2717} " + Headline(frames, i, n, clock)
  {
    hide Elapsed;
    var d := Elapsed(clock(n).now - v.started);
    Regroup("\U{2713} ", v.title, " (", d, ")");
    Regroup("\U{2717} ", v.title, " (", d, ")");
  }

  lemma Regroup(a: string, b: string, c: string, d: string, e: string)
    ensures a + b + c + d + e == a + (b + c + d + e)
  {
  }

  /** Neither the start nor the end of a step. */
  predicate Quiet(f: Frame) {
    !(f.Decoded? && (f.event.StepStart? || f.event.StepEnd? || f.event.Summary?))
  }

  lemma QuietNext(v: View, frames: seq<Frame>, n: nat, clock: Clock)
    requires n < |frames| && Agrees(v, frames, n, clock) && Quiet(frames[n])
    ensures Agrees(Advance(v, frames[n], clock(n)), frames, n + 1, clock)
  {
    hide Lines, Sanitize, MismatchLine, Said, LastTen, Pushed, Flowing, Built, OpenFrom;
    var u, m := Advance(v, frames[n], clock(n)), n + 1;
    FlowingNext(frames, n);
    BuiltNext(frames, n);
    forall i: nat ensures OpenFrom(frames, i, m) <==> OpenFrom(frames, i, n) { OpenNext(frames, i, n); }
    forall i: nat | OpenFrom(frames, i, m) ensures StepAt(u, frames, i, m, clock) {
      OpenNext(frames, i, n);
      assert StepAt(v, frames, i, n, clock);
      OpenIsEarlier(frames, i, n);
      TailNext(v, frames, i, n, clock);
    }
    assert Agrees(u, frames, m, clock);
  }

  lemma OpenIsEarlier(frames: seq<Frame>, i: nat, n: nat)
    requires n <= |frames| && OpenFrom(frames, i, n)
    ensures i < n
  {
  }

  lemma TailNext(v: View, frames: seq<Frame>, i: nat, n: nat, clock: Clock)
    requires i < n < |frames| && Quiet(frames[n]) && v.title != "" && v.active
    requires v.tail == LastTen(Said(frames, i, n))
    ensures Advance(v, frames[n], clock(n)).tail == LastTen(Said(frames, i, n + 1))
  {
    hide Lines, Sanitize, MismatchLine, LastTen, Pushed;
    var said := Said(frames, i, n);
    var f := frames[n];
    assert said + [] == said;
    if f.RawLine? {
      LastTenMore(said, f.line);
    } else if f.Decoded? && f.event.Log? && f.event.level.Info? {
      LastTenMore(said, f.event.text);
    }
  }

  lemma StartNext(v: View, frames: seq<Frame>, n: nat, clock: Clock)
    requires n < |frames| && Agrees(v, frames, n, clock) && Starts(frames[n])
    ensures Agrees(Advance(v, frames[n], clock(n)), frames, n + 1, clock)
  {
    hide Lines, Sanitize, Flowing, Built, OpenFrom;
    var u, m := Advance(v, frames[n], clock(n)), n + 1;
    FlowingNext(frames, n);
    BuiltNext(frames, n);
    forall i: nat ensures OpenFrom(frames, i, m) <==> i == n && Opens(frames[n]) { OpenNext(frames, i, n); }
    assert Said(frames, n, m) == [];
    assert u.title != "" <==> OpenFrom(frames, n, m);
    assert Agrees(u, frames, m, clock);
  }

  lemma EndNext(v: View, frames: seq<Frame>, n: nat, clock: Clock)
    requires n < |frames| && Agrees(v, frames, n, clock)
    requires frames[n].Decoded? && (frames[n].event.StepEnd? || frames[n].event.Summary?)
    ensures Agrees(Advance(v, frames[n], clock(n)), frames, n + 1, clock)
  {
    hide Lines, Sanitize, Flowing, Built, OpenFrom, Said, LastTen, StepLine, FailLine, PrintRows, HasPrefix;
    var f, u, m := frames[n], Advance(v, frames[n], clock(n)), n + 1;
    FlowingNext(frames, n);
    BuiltNext(frames, n);
    if f.event.StepEnd? && f.event.status.StatusFail? {
      FailedKeeps(v, f.event.error, clock(n).now - v.started, clock(n));
    }
    forall i: nat
      ensures OpenFrom(frames, i, m) <==> OpenFrom(frames, i, n) && f.event.StepEnd? && f.event.id != v.id
      ensures OpenFrom(frames, i, m) ==> StepAt(u, frames, i, m, clock)
    {
      OpenNext(frames, i, n);
      if OpenFrom(frames, i, n) {
        assert StepAt(v, frames, i, n, clock);
        OpenIsEarlier(frames, i, n);
        NothingSaid(frames, i, n);
      }
    }
    StillOpen(v, u, frames, n, m, clock);
    assert Agrees(u, frames, m, clock);
  }

  lemma StillOpen(v: View, u: View, frames: seq<Frame>, n: nat, m: nat, clock: Clock)
    requires n < |frames| && Agrees(v, frames, n, clock) && u == Advance(v, frames[n], clock(n))
    requires frames[n].Decoded? && (frames[n].event.StepEnd? || frames[n].event.Summary?)
    requires m == n + 1 && forall i: nat :: OpenFrom(frames, i, m) <==>
               OpenFrom(frames, i, n) && frames[n].event.StepEnd? && frames[n].event.id != v.id
    ensures u.title != "" <==> SomeOpen(frames, m)
  {
    hide Lines, Sanitize, Flowing, Built, OpenFrom, Said, LastTen, StepLine, FailLine, PrintRows, HasPrefix;
    if frames[n].event.StepEnd? && frames[n].event.status.StatusFail? {
      FailedKeeps(v, frames[n].event.error, clock(n).now - v.started, clock(n));
    }
    if u.title != "" {
      var i: nat :| OpenFrom(frames, i, n);
      assert OpenFrom(frames, i, m);
    }
    if i: nat :| OpenFrom(frames, i, m) {
      assert OpenFrom(frames, i, n);
    }
  }

  lemma FailedKeeps(v: View, error: string, d: int, env: Env)
    ensures Failed(v, error, d, env) == v.(committed := Failed(v, error, d, env).committed)
  {
    hide Lines, FailLine;
    PrintRowsLeave(Print(v, FailLine(v.title, d)), TailRows(v.tail, env.width));
  }

  lemma NothingSaid(frames: seq<Frame>, i: nat, n: nat)
    requires i < n < |frames| && frames[n].Decoded? && !frames[n].event.Log?
    ensures Said(frames, i, n + 1) == Said(frames, i, n)
  {
    assert Said(frames, i, n) + [] == Said(frames, i, n);
  }

  // ----- what one frame commits

  lemma OpenWithIs(v: View, frames: seq<Frame>, n: nat, id: string, clock: Clock)
    requires n <= |frames| && Agrees(v, frames, n, clock)
    ensures OpenWith(frames, n, id) <==> v.id == id && v.title != ""
  {
    hide Flowing, Built, Said;
    if v.title != "" {
      var i := StepOf(v, frames, n, clock);
      assert v.id == id ==> OpenWith(frames, n, id);
    }
    if i: nat :| OpenFrom(frames, i, n) && frames[i].event.id == id {
      assert StepAt(v, frames, i, n, clock);
      assert SomeOpen(frames, n);
      NoStepOf(v, frames, n, clock);
    }
  }

  lemma FailureLeaves(v: View, frames: seq<Frame>, n: nat, error: string, clock: Clock)
    requires n < |frames| && Agrees(v, frames, n, clock) && v.title != ""
    ensures SomeOpen(frames, n)
    ensures Failed(v, error, clock(n).now - v.started, clock(n)).committed
         == v.committed + FailedRows(frames, n, error, clock)
  {
    hide *;
    var i := StepOf(v, frames, n, clock);
    MarkedAlike(v, frames, i, n, clock);
    PassedIs(frames, i, n, error, clock);
    TailAt(v, frames, i, n, clock);
    FailureRows(v, error, clock(n).now - v.started, clock(n));
    TailIsIndented(v.tail, clock(n).width);
    Gather(v.committed, Lines(FailLine(v.title, clock(n).now - v.started)),
           LinesOf(Indented(v.tail, clock(n).width)), if error == "" then [] else Lines("  " + error));
  }

  lemma TailAt(v: View, frames: seq<Frame>, i: nat, n: nat, clock: Clock)
    requires n <= |frames| && OpenFrom(frames, i, n) && StepAt(v, frames, i, n, clock)
    ensures v.tail == LastTen(Said(frames, i, n))
  {
  }

  lemma FailureRows(v: View, error: string, d: int, env: Env)
    ensures Failed(v, error, d, env).committed
         == v.committed + Lines(FailLine(v.title, d)) + LinesOf(TailRows(v.tail, env.width))
            + if error == "" then [] else Lines("  " + error)
  {
    hide Lines, FailLine, LinesOf, PrintRows, TailRows;
    PrintRowsLeave(Print(v, FailLine(v.title, d)), TailRows(v.tail, env.width));
  }

  lemma Gather<T>(a: seq<T>, b: seq<T>, c: seq<T>, d: seq<T>)
    ensures a + b + c + d == a + (b + c + d)
  {
  }

  lemma StepEndLeaves(v: View, frames: seq<Frame>, n: nat, clock: Clock)
    requires n < |frames| && Agrees(v, frames, n, clock) && frames[n].Decoded? && frames[n].event.StepEnd?
    ensures Advance(v, frames[n], clock(n)).committed == v.committed + Rows(frames, n, clock)
  {
    hide Agrees, Lines, OpenWith, Passed, FailedRows, Failed, StepLine, SomeOpen;
    OpenWithIs(v, frames, n, frames[n].event.id, clock);
    if v.title != "" {
      FailureLeaves(v, frames, n, frames[n].event.error, clock);
      CloseLeaves(v, frames, n, clock);
      CloseIs(v, clock(n));
    }
    assert v.committed + [] == v.committed;
  }

  lemma SummaryLeaves(v: View, frames: seq<Frame>, n: nat, clock: Clock)
    requires n < |frames| && Agrees(v, frames, n, clock) && frames[n].Decoded? && frames[n].event.Summary?
    ensures Advance(v, frames[n], clock(n)).committed == v.committed + Rows(frames, n, clock)
  {
    hide Agrees, Lines, Passed, CloseStep, HasPrefix, Built;
    NoStepOf(v, frames, n, clock);
    CloseLeaves(v, frames, n, clock);
    SummaryAdds(v, frames[n].event.text, clock(n));
    Regrouped(v.committed, Passed(frames, n, clock), SummaryRows(frames, n));
  }

  /** The row of a summary itself. */
  function SummaryRows(frames: seq<Frame>, n: nat): seq<string>
    requires n < |frames| && frames[n].Decoded? && frames[n].event.Summary?
  {
    if BuildSummary(frames[n]) || (DeploySummary(frames[n]) && Built(frames, n)) then []
    else Lines("\U{2713} " + frames[n].event.text)
  }

  lemma Regrouped<T>(a: seq<T>, b: seq<T>, c: seq<T>)
    ensures a + b + c == a + (b + c)
  {
  }

  lemma SummaryAdds(v: View, text: string, env: Env)
    ensures AdvanceEvent(v, Summary(text), env).committed
         == CloseStep(v, env).committed
            + if HasPrefix(text, "Build completed")
                 || (HasPrefix(text, "Deploy completed successfully") && v.buildClosed) then []
              else Lines("\U{2713} " + text)
  {
    hide Lines, CloseStep, HasPrefix;
    assert CloseStep(v, env).committed + [] == CloseStep(v, env).committed;
  }

  lemma LogLeaves(v: View, frames: seq<Frame>, n: nat, clock: Clock)
    requires n < |frames| && Agrees(v, frames, n, clock) && Quiet(frames[n])
    requires frames[n].Decoded? ==> !frames[n].event.Hello? && !frames[n].event.Result?
    ensures Advance(v, frames[n], clock(n)).committed == v.committed + Rows(frames, n, clock)
  {
    hide Agrees, Lines, SomeOpen, Flowing, Built, Pushed;
    NoStepOf(v, frames, n, clock);
    assert v.committed + [] == v.committed;
  }

  lemma PlainLeaves(v: View, frames: seq<Frame>, n: nat, clock: Clock)
    requires n < |frames| && frames[n].Decoded? && (frames[n].event.Hello? || frames[n].event.Result?)
    ensures Advance(v, frames[n], clock(n)).committed == v.committed + Rows(frames, n, clock)
  {
    hide Lines, MismatchLine, Warning, ResultLine;
    assert v.committed + [] == v.committed;
    match frames[n].event
    case Hello(protocol) => WarningIs(protocol);
    case Result(kind, scope, name, action) => ResultIs(kind, scope, name, action);
  }

  lemma WarningIs(protocol: string)
    ensures MismatchLine(protocol) == Warning(protocol)
  {
    hide Quoted;
    var a, b := "voodu: protocol mismatch (server=" + Quoted(protocol), Quoted("ndjson/1");
    assert "), continuing with " + "best-effort rendering" == "), continuing with best-effort rendering";
  }

  lemma ResultIs(kind: string, scope: string, name: string, action: string)
    ensures ResultLine(kind, scope, name, action) ==
      "\U{2713} " + (if scope == "" then kind + "/" + name else kind + "/" + scope + "/" + name) + " " + action
  {
  }

  lemma FrameLeaves(v: View, frames: seq<Frame>, n: nat, clock: Clock)
    requires n < |frames| && Agrees(v, frames, n, clock)
    ensures Advance(v, frames[n], clock(n)).committed == v.committed + Rows(frames, n, clock)
    ensures Agrees(Advance(v, frames[n], clock(n)), frames, n + 1, clock)
  {
    hide Agrees, Advance, Rows;
    var f := frames[n];
    if f.Decoded? && f.event.StepStart? {
      StartLeaves(v, frames, n, clock);
      StartNext(v, frames, n, clock);
    } else if f.Decoded? && f.event.StepEnd? {
      StepEndLeaves(v, frames, n, clock);
      EndNext(v, frames, n, clock);
    } else if f.Decoded? && f.event.Summary? {
      SummaryLeaves(v, frames, n, clock);
      EndNext(v, frames, n, clock);
    } else {
      QuietNext(v, frames, n, clock);
      if f.Decoded? && (f.event.Hello? || f.event.Result?) {
        PlainLeaves(v, frames, n, clock);
      } else {
        LogLeaves(v, frames, n, clock);
      }
    }
  }

  lemma StartLeaves(v: View, frames: seq<Frame>, n: nat, clock: Clock)
    requires n < |frames| && Agrees(v, frames, n, clock) && Starts(frames[n])
    ensures Advance(v, frames[n], clock(n)).committed == v.committed + Rows(frames, n, clock)
  {
    hide Agrees, Lines, Passed;
    CloseLeaves(v, frames, n, clock);
  }

  // ----- whole streams

  lemma NothingYet(frames: seq<Frame>, clock: Clock)
    ensures Agrees(START, frames, 0, clock)
  {
  }

  /** Over every stream: what the fold has committed after n frames is the rows of those frames, in order. */
  lemma {:induction false} TranscriptIsRows(frames: seq<Frame>, n: nat, clock: Clock)
    requires n <= |frames|
    ensures AdvanceAll(START, frames[..n], clock).committed == RowsUpTo(frames, n, clock)
    ensures Agrees(AdvanceAll(START, frames[..n], clock), frames, n, clock)
  {
    hide Agrees, Advance, Rows;
    if n == 0 {
      NothingYet(frames, clock);
    } else {
      TranscriptIsRows(frames, n - 1, clock);
      assert frames[..n][..n - 1] == frames[..n - 1];
      FrameLeaves(AdvanceAll(START, frames[..n - 1], clock), frames, n - 1, clock);
    }
  }

  /** A step ends at most once. */
  lemma EndsOnce(frames: seq<Frame>, i: nat, j: nat, k: nat)
    requires j < |frames| && k < |frames| && OpenFrom(frames, i, j) && OpenFrom(frames, i, k)
    requires Ends(frames[j], frames[i].event.id) && Ends(frames[k], frames[i].event.id)
    ensures j == k
  {
  }

  /**
   What becomes of a step, for every stream: failed, it leaves a cross, its
   last ten lines of output and the error; cancelled, nothing; ended in any
   other way, or by the next step or a summary, one row with a check mark.
   */
  lemma FateOfStep(frames: seq<Frame>, i: nat, n: nat, clock: Clock)
    requires n < |frames| && OpenFrom(frames, i, n) && Ends(frames[n], frames[i].event.id)
    ensures var e, before := frames[n].event, AdvanceAll(START, frames[..n], clock).committed;
            var after := AdvanceAll(START, frames[..n + 1], clock).committed;
            var headline := Headline(frames, i, n, clock);
            if e.StepEnd? && e.status.StatusFail? then
              after == before + (Lines("\U{2717} " + headline)
                                 + LinesOf(Indented(LastTen(Said(frames, i, n)), clock(n).width))
                                 + if e.error == "" then [] else Lines("  " + e.error))
            else if e.StepEnd? && e.status.StatusCancel? then after == before
            else after == before + (Lines("\U{2713} " + headline) + if e.Summary? then SummaryRows(frames, n) else [])
  {
    hide *;
    TranscriptIsRows(frames, n, clock);
    TranscriptIsRows(frames, n + 1, clock);
    RowsOfEnd(frames, i, n, clock);
    OneMoreFrameRows(frames, n, clock);
  }

  lemma OneMoreFrameRows(frames: seq<Frame>, n: nat, clock: Clock)
    requires n < |frames|
    ensures RowsUpTo(frames, n + 1, clock) == RowsUpTo(frames, n, clock) + Rows(frames, n, clock)
    ensures RowsUpTo(frames, n, clock) + [] == RowsUpTo(frames, n, clock)
  {
    hide Rows;
  }

  lemma RowsOfEnd(frames: seq<Frame>, i: nat, n: nat, clock: Clock)
    requires n < |frames| && OpenFrom(frames, i, n) && Ends(frames[n], frames[i].event.id)
    ensures var e := frames[n].event;
            Rows(frames, n, clock) ==
              if e.StepEnd? && e.status.StatusFail? then
                Lines("\U{2717} " + Headline(frames, i, n, clock))
                + LinesOf(Indented(LastTen(Said(frames, i, n)), clock(n).width))
                + if e.error == "" then [] else Lines("  " + e.error)
              else if e.StepEnd? && e.status.StatusCancel? then []
              else Lines("\U{2713} " + Headline(frames, i, n, clock))
                   + if e.Summary? then SummaryRows(frames, n) else []
  {
    hide *;
    EndIsOfStep(frames, i, n);
    EndRows(frames, n, clock);
    PassedIs(frames, i, n, if frames[n].event.StepEnd? then frames[n].event.error else "", clock);
    AndNothing(Passed(frames, n, clock));
  }

  lemma AndNothing<T>(s: seq<T>)
    ensures s + [] == s
  {
  }

  lemma EndIsOfStep(frames: seq<Frame>, i: nat, n: nat)
    requires n < |frames| && OpenFrom(frames, i, n) && Ends(frames[n], frames[i].event.id)
    ensures frames[n].Decoded?
    ensures var e := frames[n].event; e.StepStart? || e.Summary? || (e.StepEnd? && OpenWith(frames, n, e.id))
  {
    if frames[n].event.StepEnd? { assert OpenWith(frames, n, frames[n].event.id); }
  }

  lemma EndRows(frames: seq<Frame>, n: nat, clock: Clock)
    requires n < |frames| && frames[n].Decoded?
    ensures var e := frames[n].event;
            && (e.StepStart? ==> Rows(frames, n, clock) == Passed(frames, n, clock))
            && (e.Summary? ==> Rows(frames, n, clock) == Passed(frames, n, clock) + SummaryRows(frames, n))
            && (e.StepEnd? && OpenWith(frames, n, e.id) ==>
                  && SomeOpen(frames, n)
                  && Rows(frames, n, clock) ==
                       if e.status.StatusCancel? then []
                       else if e.status.StatusFail? then FailedRows(frames, n, e.error, clock)
                       else Passed(frames, n, clock))
  {
    hide Lines, Passed, FailedRows, SummaryRows, OpenFrom;
  }

  /** Results are counted. */
  function Results(frames: seq<Frame>, n: nat): nat
    requires n <= |frames|
  {
    if n == 0 then 0
    else Results(frames, n - 1) + if frames[n - 1].Decoded? && frames[n - 1].event.Result? then 1 else 0
  }

  lemma {:induction false} ResourcesAreResults(frames: seq<Frame>, n: nat, clock: Clock)
    requires n <= |frames|
    ensures AdvanceAll(START, frames[..n], clock).resources == Results(frames, n)
  {
    hide Advance;
    if n > 0 {
      ResourcesAreResults(frames, n - 1, clock);
      assert frames[..n][..n - 1] == frames[..n - 1];
      OneMoreResult(AdvanceAll(START, frames[..n - 1], clock), frames[n - 1], clock(n - 1));
    }
  }

  lemma OneMoreResult(v: View, f: Frame, env: Env)
    ensures Advance(v, f, env).resources == v.resources + if f.Decoded? && f.event.Result? then 1 else 0
  {
    hide Lines, Sanitize, Pushed, MismatchLine, ResultLine, StepLine, FailLine, Failed, CloseStep, HasPrefix;
    ClosedKeeps(v, env);
    if f.Decoded? && f.event.StepEnd? && f.event.status.StatusFail? {
      FailedKeeps(v, f.event.error, env.now - v.started, env);
    }
  }

  lemma ClosedKeeps(v: View, env: Env)
    ensures CloseStep(v, env).resources == v.resources
  {
    hide Lines, StepLine;
  }

  // ----- texts as they are shown

  /** A character that stands for itself on a row. */
  predicate Printable(c: char) {
    ' ' <= c && c != '\U{7F}'
  }

  lemma {:induction false} NothingToStrip(s: string)
    requires forall c | c in s :: Printable(c)
    ensures StripCsi(s) == s && DropControls(s) == s
  {
    if s != "" {
      assert s[0] in s && s == [s[0]] + s[1..];
      NothingToStrip(s[1..]);
    }
  }

  /** Printable text without trailing blanks is shown as it is; so sanitizing twice is sanitizing once. */
  lemma SanitizeKeeps(s: string)
    ensures (forall c | c in s :: Printable(c)) && (s == "" || s[|s| - 1] != ' ') ==> Sanitize(s) == s
    ensures Sanitize(Sanitize(s)) == Sanitize(s)
  {
    hide Sanitize, OneRow;
    if (forall c | c in s :: Printable(c)) && (s == "" || s[|s| - 1] != ' ') { CleanIsKept(s); }
    SanitizedIsClean(s);
    CleanIsKept(Sanitize(s));
  }

  lemma SanitizedIsClean(s: string)
    ensures forall c | c in Sanitize(s) :: Printable(c)
    ensures Sanitize(s) != "" ==> Sanitize(s)[|Sanitize(s)| - 1] != ' '
  {
    hide StripCsi, DropControls, TrimBlanks, OneRow;
  }

  lemma CleanIsKept(s: string)
    requires forall c | c in s :: Printable(c)
    requires s == "" || s[|s| - 1] != ' '
    ensures Sanitize(s) == s
  {
    hide StripCsi, DropControls, TrimBlanks, OneRow;
    NothingToStrip(s);
    NothingToTrim(s);
  }

  lemma NothingToTrim(s: string)
    requires s == "" || s[|s| - 1] != ' '
    ensures TrimBlanks(s) == s
  {
  }

  lemma {:induction false} ParamsSpan(params: string, rest: string)
    requires forall c | c in params :: IsCsiParam(c)
    requires rest != "" && !IsCsiParam(rest[0])
    ensures SpanParams(params + rest) == |params|
    decreases |params|
  {
    if params == "" {
      assert params + rest == rest;
    } else {
      assert (params + rest)[1..] == params[1..] + rest;
      ParamsSpan(params[1..], rest);
    }
  }

  /** A colour sequence in front of a text does not show. */
  lemma ColourDropped(params: string, s: string)
    requires forall c | c in params :: IsCsiParam(c)
    ensures Sanitize("\U{1B}[" + params + "m" + s) == Sanitize(s)
  {
    var whole, tail := "\U{1B}[" + params + "m" + s, "m" + s;
    assert whole[2..] == params + tail;
    ParamsSpan(params, tail);
    var p := 2 + |params|;
    assert whole[p..] == tail && tail[0] == 'm';
    assert CsiLength(whole) == p + 1 && whole[p + 1..] == s;
  }

  /** A running time reads as hours, minutes and seconds, leading zeros left out. */
  lemma ElapsedReads(h: nat, m: nat, s: nat)
    requires m < 60 && s < 60
    ensures Elapsed((3600 * h + 60 * m + s) * 1_000_000_000) ==
      if h > 0 then Itoa(h) + "h" + Itoa(m) + "m" + Itoa(s) + "s"
      else if m > 0 then Itoa(m) + "m" + Itoa(s) + "s" else Itoa(s) + "s"
  {
    hide *;
    var n := 3600 * h + 60 * m + s;
    ElapsedRounds(n, 0);
    Clockwork(h, m, s);
    SecondsReads(n);
  }

  lemma SecondsReads(n: nat)
    ensures Seconds(n) ==
      if n / 3600 > 0 then Itoa(n / 3600) + "h" + Itoa(n / 60 % 60) + "m" + Itoa(n % 60) + "s"
      else if n / 60 % 60 > 0 then Itoa(n / 60 % 60) + "m" + Itoa(n % 60) + "s" else Itoa(n % 60) + "s"
  {
    hide Itoa, OneRow;
    var a, b, c := Itoa(n / 3600), Itoa(n / 60 % 60), Itoa(n % 60);
    assert n / 3600 == n / 60 / 60;
    assert Seconds(n) == (if n >= 3600 then a + "h" else "") + (if n >= 60 then b + "m" else "") + c + "s";
    assert [] + [] + c + "s" == c + "s" && [] + (b + "m") + c + "s" == b + "m" + c + "s";
    assert a + "h" + (b + "m") + c + "s" == a + "h" + b + "m" + c + "s";
  }

  lemma Clockwork(h: nat, m: nat, s: nat)
    requires m < 60 && s < 60
    ensures var n := 3600 * h + 60 * m + s; n / 3600 == h && n / 60 % 60 == m && n % 60 == s
  {
    var n := 3600 * h + 60 * m + s;
    assert n / 60 == 60 * h + m;
  }

  /** It is rounded to the nearest second, halves away from zero. */
  lemma ElapsedRounds(n: nat, part: int)
    requires -500_000_000 <= part < 500_000_000 && n * 1_000_000_000 + part >= 0
    ensures Elapsed(n * 1_000_000_000 + part) == Seconds(n)
  {
    hide Seconds;
  }
}
