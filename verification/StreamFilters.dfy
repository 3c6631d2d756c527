/**
 The legacy text filters: the progress filter, which turns phase banners into
 a live spinner, and the filter that dresses the result lines of an apply.
 */
module StreamFilters {
  import opened Text
  import opened Terminal
  import opened Framing
  import Transcript
  import EventRenderer

  // ----- what a text stream should leave in the scrollback

  const PHASE_PREFIX := "-----> "
  const BUILD_DONE := "-----> Build completed"
  const DEPLOY_DONE := "-----> Deploy completed successfully"

  const STEP_BANNERS: seq<string> :=
    ["checking ", "Checking ", "Shipping ", "Receiving ", "Creating release", "Building release",
     "packing ", "streaming over ssh", "extracting release", "building release"]
  const PASSTHROUGH_BANNERS: seq<string> := ["pruned ", "Pruned "]

  predicate MatchesAny(s: string, patterns: seq<string>) {
    exists p | p in patterns :: HasPrefix(s, p)
  }

  /** step is the headline of the open step, empty when there is none. */
  datatype TextView = TextView(committed: seq<string>, step: string, started: int, buildClosed: bool)

  const START := TextView([], "", 0, false)

  function Print(v: TextView, text: string): TextView {
    v.(committed := v.committed + Lines(text))
  }

  function CloseStep(v: TextView, now: int): TextView {
    if v.step == "" then v else Print(v, Transcript.StepLine(v.step, now - v.started)).(step := "")
  }

  function BannerOf(trimmed: string): string
    requires HasPrefix(trimmed, PHASE_PREFIX)
  {
    trimmed[|PHASE_PREFIX|..]
  }

  /** What one line does: no spinner, no cursor, no ticks. */
  function Advance(v: TextView, line: string, now: int): TextView {
    var trimmed := TrimSpace(line);
    if HasPrefix(trimmed, BUILD_DONE) then CloseStep(v, now).(buildClosed := true)
    else if HasPrefix(trimmed, DEPLOY_DONE) then
      if v.buildClosed then v else Print(CloseStep(v, now), line)
    else if HasPrefix(trimmed, PHASE_PREFIX) then
      var banner := BannerOf(trimmed);
      if MatchesAny(banner, STEP_BANNERS) then CloseStep(v, now).(step := banner, started := now)
      else if MatchesAny(banner, PASSTHROUGH_BANNERS) then Print(v, "\U{2713} " + banner)
      else if v.step != "" then v
      else Print(v, line)
    else if v.step != "" then v
    else Print(v, line)
  }

  /** The time read for each line of a write. */
  type Clock = nat -> int

  function AdvanceAll(v: TextView, lines: seq<string>, clock: Clock): TextView {
    if lines == [] then v
    else
      var n := |lines| - 1;
      Advance(AdvanceAll(v, lines[..n], clock), lines[n], clock(n))
  }

  /** The banners that open a step. */
  predicate OpensStep(banner: string) {
    exists head | head in {"checking ", "Checking ", "Shipping ", "Receiving ", "Creating release", "Building release",
                           "packing ", "streaming over ssh", "extracting release", "building release"} ::
      HasPrefix(banner, head)
  }

  /** The rows the open step leaves when it is over. */
  function Passed(v: TextView, now: int): seq<string> {
    if v.step == "" then []
    else Lines("\U{2713} " + v.step + " (" + Transcript.Elapsed(now - v.started) + ")")
  }

  lemma ClosedLeaves(v: TextView, now: int)
    ensures CloseStep(v, now) == v.(committed := v.committed + Passed(v, now), step := "")
  {
    hide Lines, Transcript.Elapsed;
    assert v.committed + [] == v.committed;
  }

  lemma OpensIff(banner: string)
    ensures MatchesAny(banner, STEP_BANNERS) <==> OpensStep(banner)
    ensures MatchesAny(banner, PASSTHROUGH_BANNERS) <==> HasPrefix(banner, "pruned ") || HasPrefix(banner, "Pruned ")
  {
    hide HasPrefix;
    assert forall p :: p in STEP_BANNERS <==>
      p in {"checking ", "Checking ", "Shipping ", "Receiving ", "Creating release", "Building release",
            "packing ", "streaming over ssh", "extracting release", "building release"};
    assert PASSTHROUGH_BANNERS[0] == "pruned " && PASSTHROUGH_BANNERS[1] == "Pruned ";
  }

  /** What each kind of line does to the open step and to the scrollback. */
  lemma LineLeaves(v: TextView, line: string, now: int)
    ensures var t, u := TrimSpace(line), Advance(v, line, now);
            if HasPrefix(t, "-----> Build completed") then
              u == v.(committed := v.committed + Passed(v, now), step := "", buildClosed := true)
            else if HasPrefix(t, "-----> Deploy completed successfully") then
              u == if v.buildClosed then v
                   else v.(committed := v.committed + Passed(v, now) + Lines(line), step := "")
            else if HasPrefix(t, "-----> ") && OpensStep(t[7..]) then
              u == v.(committed := v.committed + Passed(v, now), step := t[7..], started := now)
            else if HasPrefix(t, "-----> ") && (HasPrefix(t[7..], "pruned ") || HasPrefix(t[7..], "Pruned ")) then
              u == v.(committed := v.committed + Lines("\U{2713} " + t[7..]))
            else u == if v.step != "" then v else v.(committed := v.committed + Lines(line))
  {
    hide Lines, TrimSpace, Passed, CloseStep, OpensStep, MatchesAny;
    var t := TrimSpace(line);
    ClosedLeaves(v, now);
    if HasPrefix(t, "-----> ") { OpensIff(t[7..]); }
  }

  lemma TrimmedIn(s: string)
    ensures forall c | c in TrimSpace(s) :: c in s
  {
    TrimLeftIn(s);
    TrimRightIn(TrimLeft(s));
  }

  lemma {:induction false} TrimLeftIn(s: string)
    ensures forall c | c in TrimLeft(s) :: c in s
  {
    if s != "" && IsSpace(s[0]) { TrimLeftIn(s[1..]); }
  }

  lemma {:induction false} TrimRightIn(s: string)
    ensures forall c | c in TrimRight(s) :: c in s
  {
    if s != "" && IsSpace(s[|s| - 1]) { TrimRightIn(s[..|s| - 1]); }
  }

  // ----- the screen operations

  /** A CR and an erase-line on a one-row block leave no block. */
  lemma EraseBlock(t: Terminal, committed: seq<string>, block: seq<string>)
    requires |block| <= 1 && Shows(t, committed, block)
    ensures Shows(ExecAll(t, [CR, EraseLine]), committed, [])
  {
    ExecConcat(t, [CR], [EraseLine]);
    assert [CR] + [EraseLine] == [CR, EraseLine];
    ExecOne(t, CR);
    ExecOne(Exec(t, CR), EraseLine);
    var u := ExecAll(t, [CR, EraseLine]);
    forall i: nat ensures RowAt(u.rows, i) == RowAt(committed + [], i) {
      assert RowAt(t.rows, i) == RowAt(committed + block, i);
    }
  }

  /** Paints the spinner row, and keeps the row below it blank. */
  function SpinnerOps(row: string): seq<Op> {
    [CR, EraseLine] + Glyphs(row) + [LF, EraseLine, CursorUp(1)]
  }

  /** On screen this is a repaint of the row with a blank one beneath. */
  lemma SpinnerIsPaint(t: Terminal, row: string)
    ensures ExecAll(t, PaintOps([row, ""])) == Exec(ExecAll(t, SpinnerOps(row)), CR)
    ensures ExecAll(t, SpinnerOps(row)).col == 0
  {
    var tail := [LF, EraseLine, CursorUp(1)];
    assert PaintDown([""]) == [LF] + PaintRow("") + PaintDown([]) == [LF, EraseLine];
    assert [row, ""][1..] == [""];
    assert Rise(1) == [CursorUp(1)];
    assert PaintOps([row, ""]) == SpinnerOps(row) + [CR];
    ExecConcat(t, SpinnerOps(row), [CR]);
    ExecOne(ExecAll(t, SpinnerOps(row)), CR);
    ExecConcat(t, [CR, EraseLine] + Glyphs(row), tail);
    TailReturns(ExecAll(t, [CR, EraseLine] + Glyphs(row)));
  }

  lemma TailReturns(t: Terminal)
    ensures ExecAll(t, [LF, EraseLine, CursorUp(1)]).col == 0
  {
    var ops := [LF, EraseLine, CursorUp(1)];
    assert ops[1..] == [EraseLine, CursorUp(1)] && ops[1..][1..] == [CursorUp(1)];
    ExecOne(Exec(Exec(t, LF), EraseLine), CursorUp(1));
    assert ExecAll(t, ops) == ExecAll(Exec(t, LF), ops[1..]);
    assert ExecAll(Exec(t, LF), ops[1..]) == ExecAll(Exec(Exec(t, LF), EraseLine), [CursorUp(1)]);
  }

  lemma SpinnerShows(t: Terminal, committed: seq<string>, block: seq<string>, row: string)
    requires |block| <= 1 && Shows(t, committed, block) && '\n' !in row
    ensures Shows(ExecAll(t, SpinnerOps(row)), committed, [Settled(row)])
  {
    hide SpinnerOps, PaintOps, ExecAll, Settled;
    SpinnerIsPaint(t, row);
    PaintShows(t, committed, block, [row, ""]);
    BlankSettles();
    var u := ExecAll(t, SpinnerOps(row));
    forall i: nat ensures RowAt(u.rows, i) == RowAt(committed + [Settled(row)], i) {
      assert RowAt(u.rows, i) == RowAt(committed + AllSettled([row, ""]), i);
    }
  }

  // ----- the progress filter, on a tty and not verbose

  class ProgressFilter {
    var term: Terminal
    var leftover: string
    var active: bool
    var currentStep: string
    var stepStarted: int
    var buildClosed: bool
    var frame: nat

    ghost var committed: seq<string>
    ghost var block: seq<string>

    ghost function View(): TextView
      reads this
    {
      TextView(committed, currentStep, stepStarted, buildClosed)
    }

    /** The ticker runs exactly while a step is open, and only its row is live. */
    ghost predicate Valid()
      reads this
    {
      && Shows(term, committed, block)
      && '\n' !in leftover && '\n' !in currentStep
      && (active <==> currentStep != "")
      && |block| <= 1 && (block != [] ==> active)
    }

    constructor ()
      ensures Valid() && View() == START && leftover == ""
    {
      term, leftover, active, currentStep := BLANK, "", false, "";
      stepStarted, buildClosed, frame, committed, block := 0, false, 0, [], [];
    }

    method Println(text: string)
      requires Shows(term, committed, [])
      modifies `term, `committed, `block
      ensures Shows(term, committed, []) && block == []
      ensures committed == old(committed) + Lines(text)
    {
      Commit(term, committed, text);
      term := ExecAll(term, Glyphs(text) + [LF]);
      committed, block := committed + Lines(text), [];
    }

    method EraseRow()
      requires Valid()
      modifies `term, `block
      ensures Valid() && block == [] && View() == old(View())
    {
      EraseBlock(term, committed, block);
      term := ExecAll(term, [CR, EraseLine]);
      block := [];
    }

    method RenderSpinner(now: int)
      requires Valid()
      modifies `term, `block
      ensures Valid() && View() == old(View())
      ensures active ==> block == [Settled(EventRenderer.SpinnerRow(frame, currentStep, now - stepStarted))]
    {
      hide Shows, SpinnerOps, ExecAll, Settled, EventRenderer.SpinnerRow;
      if !active || currentStep == "" { return; }
      var row := EventRenderer.SpinnerRow(frame, currentStep, now - stepStarted);
      SpinnerShows(term, committed, block, row);
      term := ExecAll(term, SpinnerOps(row));
      block := [Settled(row)];
    }

    method AdvanceAndRender(now: int)
      requires Valid()
      modifies this
      ensures Valid() && View() == old(View()) && leftover == old(leftover) && active == old(active)
      ensures active ==> block == [Settled(EventRenderer.SpinnerRow(frame, currentStep, now - stepStarted))]
      ensures frame == if active then (old(frame) + 1) % EventRenderer.FRAME_COUNT else old(frame)
    {
      hide Shows, Settled, EventRenderer.SpinnerRow;
      if !active || currentStep == "" { return; }
      frame := (frame + 1) % EventRenderer.FRAME_COUNT;
      RenderSpinner(now);
    }

    /** One beat of the ticker goroutine. */
    method Tick(now: int)
      requires Valid()
      modifies this
      ensures Valid() && View() == old(View()) && leftover == old(leftover)
    {
      AdvanceAndRender(now);
    }

    /** Commits the open step; active is left for the caller to settle. */
    method CloseCurrentStep(now: int)
      requires Valid()
      modifies `term, `committed, `block, `currentStep
      ensures Shows(term, committed, []) && block == [] && currentStep == ""
      ensures View() == CloseStep(old(View()), now)
    {
      hide Shows, Transcript.StepLine, Lines;
      if currentStep == "" { return; }
      EraseRow();
      Println(Transcript.StepLine(currentStep, now - stepStarted));
      currentStep := "";
    }

    /** The step is closed and the ticker stopped; a late tick finds no step to paint. */
    method CommitStep(now: int)
      requires Valid()
      modifies this
      ensures Valid() && View() == CloseStep(old(View()), now) && leftover == old(leftover)
      ensures !active && block == []
    {
      CloseCurrentStep(now);
      active := false;
    }

    method OpenStep(msg: string, now: int)
      requires Shows(term, committed, []) && block == [] && currentStep == ""
      requires msg != "" && '\n' !in msg && '\n' !in leftover
      modifies this
      ensures Valid() && View() == old(View()).(step := msg, started := now) && leftover == old(leftover)
      ensures block == [Settled(EventRenderer.SpinnerRow(frame, msg, 0))]
    {
      active := true;
      currentStep, stepStarted := msg, now;
      RenderSpinner(now);
    }

    method ProcessLine(line: string, now: int)
      requires Valid() && '\n' !in line
      modifies this
      ensures Valid() && View() == Advance(old(View()), line, now) && leftover == old(leftover)
    {
      hide Shows, Lines, EventRenderer.SpinnerRow, Transcript.StepLine, TrimSpace;
      var trimmed := TrimSpace(line);
      TrimmedIn(line);
      if HasPrefix(trimmed, BUILD_DONE) {
        CommitStep(now);
        buildClosed := true;
        return;
      }
      if HasPrefix(trimmed, DEPLOY_DONE) {
        if buildClosed { return; }
        CommitStep(now);
        Println(line);
        return;
      }
      if HasPrefix(trimmed, PHASE_PREFIX) {
        var msg := trimmed[|PHASE_PREFIX|..];
        assert forall c | c in msg :: c in trimmed;
        if MatchesAny(msg, STEP_BANNERS) {
          BannersAreNotEmpty(msg);
          CloseCurrentStep(now);
          OpenStep(msg, now);
        } else if MatchesAny(msg, PASSTHROUGH_BANNERS) {
          if active { EraseRow(); }
          Println("\U{2713} " + msg);
        } else if active {
          AdvanceAndRender(now);
        } else {
          Println(line);
        }
        return;
      }
      if active {
        AdvanceAndRender(now);
        return;
      }
      Println(line);
    }

    /** Every line of the write reads the clock for itself. */
    method Write(p: string, clock: Clock)
      requires Valid()
      modifies this
      ensures Valid() && leftover == Rest(old(leftover) + p)
      ensures View() == AdvanceAll(old(View()), Complete(old(leftover) + p), clock)
    {
      hide Shows, Complete, Rest, Advance, IndexOf;
      var data := leftover + p;
      var done := 0;  // lines handled so far
      ghost var v, lines := View(), Complete(data);
      Conserves(data);
      while '\n' in data
        invariant Valid() && leftover == old(leftover)
        invariant 0 <= done <= |lines|
        invariant lines[done..] == Complete(data) && Rest(data) == Rest(old(leftover) + p)
        invariant View() == AdvanceAll(v, lines[..done], clock)
        decreases |data|
      {
        var idx := IndexOf(data, '\n');
        var line := data[..idx];
        FrameStep(line, data[idx + 1..]);
        assert data == line + ['\n'] + data[idx + 1..];
        data := data[idx + 1..];
        assert line == lines[done] && lines[done..][1..] == lines[done + 1..];
        assert lines[..done + 1][..done] == lines[..done];
        assert line in lines;
        ProcessLine(line, clock(done));
        done := done + 1;
      }
      FrameNone(data);
      assert done == |lines| && lines[..done] == lines;
      leftover := data;
    }

    /** An open step is wiped without a check mark; a partial line comes out as it is. */
    method Close()
      requires Valid()
      modifies this
      ensures Lists(term, old(committed) + if old(leftover) == "" then [] else [Settled(old(leftover))])
      ensures !active && currentStep == "" && leftover == ""
    {
      if active {
        var pending: nat := *;
        while pending > 0
          invariant Valid() && View() == old(View()) && leftover == old(leftover)
        {
          var now: int := *;
          Tick(now);
          pending := pending - 1;
        }
        EraseRow();
        active, currentStep := false, "";
      }
      assert block == [];
      if leftover != "" {
        EventRenderer.PrintPartial(term, committed, leftover);
        term := ExecAll(term, Glyphs(leftover));
        leftover := "";
      }
    }
  }

  lemma BannersAreNotEmpty(msg: string)
    requires MatchesAny(msg, STEP_BANNERS)
    ensures msg != ""
  {
    assert forall p | p in STEP_BANNERS :: |p| > 0;
  }

  // ----- whole sessions of the progress filter

  datatype Input = Bytes(chunk: string, clock: Clock) | Beat(now: int)

  datatype State = State(view: TextView, left: string)

  const FRESH := State(START, "")

  function PlayAll(s: State, script: seq<Input>): State {
    if script == [] then s
    else
      var before := PlayAll(s, script[..|script| - 1]);
      match script[|script| - 1]
      case Beat(_) => before
      case Bytes(chunk, clock) =>
        State(AdvanceAll(before.view, Complete(before.left + chunk), clock), Rest(before.left + chunk))
  }

  /** Runs a session; the final screen lists exactly what the fold commits. */
  method RunProgress(script: seq<Input>) returns (f: ProgressFilter)
    ensures fresh(f)
    ensures var s := PlayAll(FRESH, script);
            Lists(f.term, s.view.committed + if s.left == "" then [] else [Settled(s.left)])
  {
    hide AdvanceAll, Complete, Rest;
    f := new ProgressFilter();
    for i := 0 to |script|
      invariant fresh(f) && f.Valid()
      invariant State(f.View(), f.leftover) == PlayAll(FRESH, script[..i])
    {
      assert script[..i + 1][..i] == script[..i];
      match script[i] {
        case Beat(now) => f.Tick(now);
        case Bytes(chunk, clock) => f.Write(chunk, clock);
      }
    }
    assert script[..|script|] == script;
    f.Close();
  }

  // ----- the result filter

  const RESULT_TOKENS: seq<string> := [" applied", " created", " unchanged", " deleted", " pruned"]

  predicate Contains(s: string, sub: string) {
    HasPrefix(s, sub) || (s != "" && Contains(s[1..], sub))
  }

  predicate IsResultLine(line: string) {
    var trimmed := TrimSpace(line);
    '/' in trimmed && exists tok | tok in RESULT_TOKENS :: Contains(trimmed, tok)
  }

  function Dress(line: string): string {
    if IsResultLine(line) then "\U{2713} " + line else line
  }

  lemma {:induction false} ContainsIff(s: string, sub: string)
    ensures Contains(s, sub) <==> exists a, b :: s == a + sub + b
  {
    if HasPrefix(s, sub) {
      assert s == "" + sub + s[|sub|..];
    } else if s != "" {
      ContainsIff(s[1..], sub);
      if a, b :| s[1..] == a + sub + b {
        assert s == ([s[0]] + a) + sub + b;
      }
      if a, b :| s == a + sub + b {
        assert a == "" ==> a + sub + b == sub + b;
        assert s[1..] == a[1..] + sub + b;
      }
    }
  }

  /** A line gets its mark exactly if it names a resource and says what became of it. */
  lemma MarkedIff(line: string)
    ensures var result := '/' in TrimSpace(line) &&
              exists a, verb, b :: verb in {" applied", " created", " unchanged", " deleted", " pruned"}
                                   && TrimSpace(line) == a + verb + b;
            Dress(line) == if result then "\U{2713} " + line else line
  {
    hide Contains, TrimSpace;
    var t := TrimSpace(line);
    forall verb ensures Contains(t, verb) <==> exists a, b :: t == a + verb + b { ContainsIff(t, verb); }
    assert forall verb :: verb in RESULT_TOKENS <==>
      verb in {" applied", " created", " unchanged", " deleted", " pruned"};
    if verb :| verb in RESULT_TOKENS && Contains(t, verb) {
      var a, b :| t == a + verb + b;
    }
    if a, verb, b :| verb in {" applied", " created", " unchanged", " deleted", " pruned"} && t == a + verb + b {
      assert Contains(t, verb);
    }
  }

  function DressAll(lines: seq<string>): (out: seq<string>)
    ensures |out| == |lines| && forall i | 0 <= i < |lines| :: out[i] == Dress(lines[i])
  {
    seq(|lines|, i requires 0 <= i < |lines| => Dress(lines[i]))
  }

  function CountResults(lines: seq<string>): nat {
    if lines == [] then 0
    else CountResults(lines[..|lines| - 1]) + if IsResultLine(lines[|lines| - 1]) then 1 else 0
  }

  class ApplyResultFilter {
    const passthrough: bool  // verbose, or the output is not a tty
    var out: string
    var leftover: string
    var resourceCount: nat

    /** Every byte written so far. */
    ghost var stream: string

    /** The output is the stream's complete lines, dressed; the rest is held back. */
    ghost predicate Valid()
      reads this
    {
      if passthrough then out == stream
      else out == Unframe(DressAll(Complete(stream))) && leftover == Rest(stream)
           && resourceCount == CountResults(Complete(stream))
    }

    constructor (passthrough: bool)
      ensures Valid() && stream == "" && this.passthrough == passthrough
    {
      this.passthrough := passthrough;
      out, leftover, resourceCount, stream := "", "", 0, "";
      new;
      FrameNone("");
    }

    method Write(p: string)
      requires Valid()
      modifies this
      ensures Valid() && stream == old(stream) + p
    {
      hide Complete, Rest, IsResultLine, IndexOf, Unframe, CountResults, DressAll;
      if passthrough {
        out, stream := out + p, stream + p;
        return;
      }
      FrameTwice(stream, p);
      var data := leftover + p;
      ghost var before, lines, done := Complete(stream), Complete(data), 0;
      assert before + lines[..done] == before;
      while '\n' in data
        invariant 0 <= done <= |lines| && stream == old(stream) && leftover == old(leftover)
        invariant lines[done..] == Complete(data) && Rest(data) == Rest(leftover + p)
        invariant out == Unframe(DressAll(before + lines[..done]))
        invariant resourceCount == CountResults(before + lines[..done])
        decreases |data|
      {
        var idx := IndexOf(data, '\n');
        var line := data[..idx];
        FrameStep(line, data[idx + 1..]);
        assert data == line + ['\n'] + data[idx + 1..];
        data := data[idx + 1..];
        assert line == lines[done] && lines[done..][1..] == lines[done + 1..];
        ghost var sofar := before + lines[..done];
        assert before + lines[..done + 1] == sofar + [line];
        OneMoreLine(sofar, line);
        if IsResultLine(line) {
          out := out + "\U{2713} " + line + "\n";
          resourceCount := resourceCount + 1;
        } else {
          out := out + line + "\n";
        }
        done := done + 1;
      }
      FrameNone(data);
      assert lines[..done] == lines;
      leftover, stream := data, stream + p;
    }

    /** The held-back tail comes out at the end. */
    method Close()
      requires Valid()
      modifies this
      ensures passthrough ==> out == stream
      ensures !passthrough ==> out == Unframe(DressAll(Complete(stream))) + Rest(stream)
      ensures !passthrough ==> resourceCount == CountResults(Complete(stream))
      ensures stream == old(stream)
    {
      if passthrough { return; }
      if leftover != "" {
        out := out + leftover;
        leftover := "";
      }
    }
  }

  lemma {:induction false} UnframeLast(lines: seq<string>, last: string)
    ensures Unframe(lines + [last]) == Unframe(lines) + last + ['\n']
  {
    if lines == [] {
      assert lines + [last] == [last];
      assert last + ['\n'] + "" == "" + last + ['\n'];
    } else {
      assert (lines + [last])[1..] == lines[1..] + [last];
      UnframeLast(lines[1..], last);
    }
  }

  lemma OneMoreLine(lines: seq<string>, line: string)
    ensures Unframe(DressAll(lines + [line])) == Unframe(DressAll(lines)) + Dress(line) + ['\n']
    ensures CountResults(lines + [line]) == CountResults(lines) + if IsResultLine(line) then 1 else 0
  {
    assert DressAll(lines + [line]) == DressAll(lines) + [Dress(line)];
    UnframeLast(DressAll(lines), Dress(line));
    assert (lines + [line])[..|lines|] == lines;
  }

  /** Presentation only: line for line, the output is the stream, some lines with a mark in front. */
  lemma DressedLineForLine(stream: string)
    ensures var out := Unframe(DressAll(Complete(stream))) + Rest(stream);
            Complete(out) == DressAll(Complete(stream)) && Rest(out) == Rest(stream)
  {
    Conserves(stream);
    UnframedFrames(DressAll(Complete(stream)), Rest(stream));
  }

  lemma {:induction false} UnframedFrames(lines: seq<string>, rest: string)
    requires '\n' !in rest && forall line | line in lines :: '\n' !in line
    ensures Complete(Unframe(lines) + rest) == lines && Rest(Unframe(lines) + rest) == rest
  {
    if lines == [] {
      assert "" + rest == rest;
      FrameNone(rest);
    } else {
      assert Unframe(lines) + rest == lines[0] + ['\n'] + (Unframe(lines[1..]) + rest);
      FrameStep(lines[0], Unframe(lines[1..]) + rest);
      UnframedFrames(lines[1..], rest);
      assert [lines[0]] + lines[1..] == lines;
    }
  }
}
