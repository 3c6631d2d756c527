/**
 The live terminal renderer: a spinner row with a tail of build output beneath,
 repainted in place while frames and ticker ticks interleave.

 Every method is proved against the fold of module Transcript, and keeps the
 screen equal to the committed transcript followed by the live block.
 */
module EventRenderer {
  import opened Text
  import opened Terminal
  import opened Framing
  import opened Transcript

  const FRAME_COUNT := 8

  function Braille(frame: nat): (c: char)
    ensures c != '\n' && c != '\r'
  {
    var k := frame % FRAME_COUNT;
    if k == 0 then '\U{2802}' else if k == 1 then '\U{2812}' else if k == 2 then '\U{281A}'
    else if k == 3 then '\U{281E}' else if k == 4 then '\U{281F}' else if k == 5 then '\U{280F}'
    else if k == 6 then '\U{2807}' else '\U{2803}'
  }

  function SpinnerRow(frame: nat, title: string, d: int): (row: string)
    ensures '\n' in title <==> '\n' in row
  {
    hide Braille, Elapsed;
    [Braille(frame)] + " " + title + " (" + Elapsed(d) + ")"
  }

  class EventRenderer {
    const decode: Decoder
    const passthrough: bool  // verbose, or the output is not a tty

    var term: Terminal
    var raw: string          // bytes passed through untouched
    var leftover: string
    var handshakeOK: bool
    var active: bool
    var currentStepID: string
    var currentStepLabel: string
    var stepStarted: int
    var buildClosed: bool
    var frame: nat
    var tail: seq<string>
    var blockRows: nat
    var resourceCount: nat
    var spinning: bool       // the ticker goroutine is running

    ghost var committed: seq<string>
    ghost var block: seq<string>

    ghost function View(): View
      reads this
    {
      Transcript.View(committed, handshakeOK, active, currentStepID, currentStepLabel,
                      stepStarted, tail, buildClosed, resourceCount)
    }

    /** The ticker runs exactly while the renderer is active. */
    ghost predicate Valid()
      reads this
    {
      Shape() && (spinning <==> active) && '\n' !in currentStepLabel
    }

    ghost predicate Shape()
      reads this
    {
      && Shows(term, committed, block)
      && '\n' !in leftover
      && Unbroken(tail) && |tail| <= BUILD_TAIL_N
      && |block| <= 1 + |tail|
      && (block != [] ==> active && currentStepLabel != "" && |block| <= blockRows)
    }

    /** The live block on screen is the spinner over the current tail. */
    ghost predicate Painted(env: Env)
      reads this
    {
      block == AllSettled(BlockRows(env))
    }

    /** Spinner and tail as they are painted. */
    ghost function BlockRows(env: Env): (rows: seq<string>)
      reads this
      ensures |rows| == 1 + |tail|
    {
      [SpinnerRow(frame, currentStepLabel, env.now - stepStarted)] + TailRows(tail, env.width)
    }

    lemma BlockBreaks(env: Env)
      requires Shape()
      ensures Unbroken(BlockRows(env)) <==> '\n' !in currentStepLabel
    {
      hide Shows, SpinnerRow, TailRow;
      var rows := BlockRows(env);
      assert rows[0] in rows;
      forall r | r in TailRows(tail, env.width) ensures '\n' !in r {
        var i :| 0 <= i < |tail| && r == TailRow(tail[i], env.width);
        assert tail[i] in tail;
      }
    }

    /** A valid renderer's screen lists its transcript. */
    lemma ValidIsClean()
      requires Valid()
      ensures Clean(term, committed)
    {
    }

    constructor (decode: Decoder, passthrough: bool)
      ensures Valid() && View() == START && leftover == "" && raw == ""
      ensures this.decode == decode && this.passthrough == passthrough
    {
      this.decode, this.passthrough := decode, passthrough;
      term, raw, leftover := BLANK, "", "";
      handshakeOK, active, buildClosed, spinning := false, false, false, false;
      currentStepID, currentStepLabel, stepStarted, frame := "", "", 0, 0;
      tail, blockRows, resourceCount := [], 0, 0;
      committed, block := [], [];
    }

    method Println(text: string)
      requires Valid() && block == []
      modifies `term, `committed
      ensures Valid() && View() == Print(old(View()), text)
    {
      Commit(term, committed, text);
      term := ExecAll(term, Glyphs(text) + [LF]);
      committed := committed + Lines(text);
    }

    /**
     The greeting's warning is printed without wiping the block first: clean
     exactly if it covers what it is printed on.
     */
    method PrintWarning(protocol: string)
      requires Valid()
      modifies `term, `committed, `block
      ensures View() == Print(old(View()), MismatchLine(protocol))
      ensures if old(WarningFits(protocol)) then Valid() else !Clean(term, committed)
    {
      hide MismatchLine, Shows, Clean, ExecAll, Glyphs, Lines;
      var text := MismatchLine(protocol);
      if block == [] {
        Commit(term, committed, text);
      } else {
        LinesOfRow(text);
        PrintOverBlock(term, committed, block, text);
      }
      term := ExecAll(term, Glyphs(text) + [LF]);
      committed, block := committed + Lines(text), if block == [] then [] else block[1..];
    }

    /** The warning covers the whole row it is printed on. */
    ghost predicate WarningFits(protocol: string)
      reads this
    {
      block == [] || |block[0]| <= |MismatchLine(protocol)|
    }

    /** What the renderer needs of a frame: an unbroken title, and a greeting that fits. */
    ghost predicate Fits(f: Frame)
      reads this
    {
      match f
      case Decoded(Hello(p)) => p == PROTOCOL_VERSION || WarningFits(p)
      case Decoded(StepStart(_, title)) => '\n' !in title
      case _ => true
    }

    /** Wipes the live block. */
    method ClearBlock()
      requires Shape()
      modifies `term, `block, `blockRows
      ensures Shape() && block == [] && View() == old(View())
    {
      hide Shows, ExecAll, PaintOps;
      BlankSettles();
      var rows := [""];
      var i := 1;
      while i < blockRows
        invariant 1 <= i && (blockRows <= 1 ==> i == 1) && (blockRows > 1 ==> i <= blockRows)
        invariant rows == seq(i, _ => "")
      {
        rows := rows + [""];
        i := i + 1;
      }
      PaintShows(term, committed, block, rows);
      assert AllSettled(rows) == seq(i, _ => "");
      term := ExecAll(term, PaintOps(rows));
      BlankBlock(term, committed, i);
      block := [];
      blockRows := 1;
    }

    /**
     Paints spinner and tail over whatever of the block is on screen: clean
     exactly if the title has no line break.
     */
    method RenderBlock(env: Env)
      requires Shape()
      modifies `term, `block, `blockRows
      ensures View() == old(View()) && frame == old(frame)
      ensures if Live(View()) then block == AllSettled(BlockRows(env)) else block == old(block)
      ensures if Live(View()) && '\n' in currentStepLabel then !Clean(term, committed) else Shape()
    {
      hide Shows, Clean, ExecAll, PaintOps, SpinnerRow, TailRow, AllSettled;
      if !active || currentStepLabel == "" {
        return;
      }
      var rows := [SpinnerRow(frame, currentStepLabel, env.now - stepStarted)];
      for i := 0 to |tail|
        invariant rows == BlockRows(env)[..i + 1]
      {
        rows := rows + [TailRow(tail[i], env.width)];
      }
      BlockBreaks(env);
      PaintCleanIff(term, committed, block, rows);
      if '\n' !in currentStepLabel {
        PaintShows(term, committed, block, rows);
      }
      term := ExecAll(term, PaintOps(rows));
      block := AllSettled(rows);
      blockRows := 1 + |tail|;
    }

    method PushTail(raw_: string, env: Env)
      requires Valid()
      modifies `term, `block, `blockRows, `tail, `frame
      ensures Valid() && View() == old(View()).(tail := Pushed(old(tail), raw_))
      ensures frame == (old(frame) + 1) % FRAME_COUNT
      ensures if Live(View()) then Painted(env) else block == old(block)
    {
      hide Shows, Clean, AllSettled, SpinnerRow, TailRow, Sanitize;
      frame := (frame + 1) % FRAME_COUNT;
      var line := Sanitize(raw_);
      if line != "" {
        tail := tail + [line];
        if |tail| > BUILD_TAIL_N {
          tail := tail[|tail| - BUILD_TAIL_N..];
        }
      }
      RenderBlock(env);
    }

    method AdvanceAndRender(env: Env)
      requires Valid()
      modifies `term, `block, `blockRows, `frame
      ensures Valid() && View() == old(View())
      ensures if Live(View()) then Painted(env) && frame == (old(frame) + 1) % FRAME_COUNT
              else block == old(block) && frame == old(frame)
    {
      if !active || currentStepLabel == "" {
        return;
      }
      frame := (frame + 1) % FRAME_COUNT;
      RenderBlock(env);
    }

    /** One beat of the ticker goroutine. */
    method Tick(env: Env)
      requires Valid()
      modifies `term, `block, `blockRows, `frame
      ensures Valid() && View() == old(View())
      ensures if Live(View()) then Painted(env) && frame == (old(frame) + 1) % FRAME_COUNT
              else block == old(block) && frame == old(frame)
    {
      AdvanceAndRender(env);
    }

    /** No step is open any more. */
    method ForgetStep()
      requires Valid() && block == []
      modifies `tail, `currentStepID, `currentStepLabel
      ensures Valid() && currentStepLabel == "" && View() == EndStep(old(View()))
    {
      tail, currentStepID, currentStepLabel := [], "", "";
    }

    method CloseCurrentStep(env: Env)
      requires Valid()
      modifies `term, `committed, `block, `blockRows, `tail, `currentStepID, `currentStepLabel
      ensures Valid() && currentStepLabel == "" && block == []
      ensures View() == CloseStep(old(View()), env)
    {
      hide Shows, SpinnerRow, Elapsed, StepLine, FailLine, ResultLine, MismatchLine, Lines, Sanitize, ExecAll, Glyphs;
      if currentStepLabel == "" {
        return;
      }
      ClearBlock();
      Println(StepLine(currentStepLabel, env.now - stepStarted));
      ForgetStep();
    }

    /**
     Stops the ticker goroutine.  The lock is released while waiting for it, so
     any number of ticks can still happen.
     */
    method StopSpinner()
      requires Valid()
      modifies `term, `block, `blockRows, `frame, `spinning
      ensures Shape() && !spinning && View() == old(View())
      ensures old(block) == [] && old(currentStepLabel) == "" ==> block == []
    {
      if !spinning {
        return;
      }
      var pending: nat := *;
      while pending > 0
        invariant Valid() && View() == old(View())
      {
        var env: Env := *;
        Tick(env);
        pending := pending - 1;
      }
      spinning := false;
    }

    /** The ticker starts with the first step. */
    method OpenStep(id: string, title: string, now: int)
      requires Valid() && block == []
      modifies `active, `spinning, `currentStepID, `currentStepLabel, `stepStarted, `tail
      ensures Shape() && (spinning <==> active) && active && block == []
      ensures View() == old(View()).(active := true, id := id, title := title, started := now, tail := [])
    {
      if !active {
        active := true;
        spinning := true;
      }
      currentStepID := id;
      currentStepLabel := title;
      stepStarted := now;
      tail := [];
    }

    method HandleStepStart(id: string, title: string, env: Env)
      requires Valid()
      modifies this
      ensures View() == AdvanceEvent(old(View()), StepStart(id, title), env)
      ensures leftover == old(leftover) && raw == old(raw)
      ensures if '\n' in title then !Clean(term, committed)
              else Valid() && if title != "" then Painted(env) else block == []
    {
      hide Shape, CloseStep, SpinnerRow, TailRow, AllSettled, Clean;
      CloseCurrentStep(env);
      OpenStep(id, title, env.now);
      RenderBlock(env);
    }

    /** A failed step keeps its tail on screen, above the error. */
    method PrintFailure(error: string, elapsed: int, env: Env)
      requires Valid() && block == []
      modifies `term, `committed
      ensures Valid() && View() == Failed(old(View()), error, elapsed, env)
    {
      hide Shows, Elapsed, FailLine, Lines, ExecAll, Glyphs, Transcript.TailRow;
      hide Shape;
      ghost var rows := TailRows(tail, env.width);
      Println(FailLine(currentStepLabel, elapsed));
      ghost var failed := View();
      for i := 0 to |tail|
        invariant Valid()
        invariant View() == PrintRows(failed, rows[..i])
      {
        assert rows[..i + 1][..i] == rows[..i];
        Println(TailRow(tail[i], env.width));
      }
      assert rows[..|tail|] == rows;
      if error != "" {
        Println("  " + error);
      }
    }

    method HandleStepEnd(id: string, status: Status, error: string, env: Env)
      requires Valid()
      modifies this
      ensures Valid() && View() == AdvanceEvent(old(View()), StepEnd(id, status, error), env)
      ensures leftover == old(leftover) && raw == old(raw)
    {
      hide Shape, SpinnerRow, Elapsed, StepLine, FailLine, Lines, EndStep, Transcript.Failed, Print;
      if currentStepID != id || currentStepLabel == "" {
        return;
      }
      var elapsed := env.now - stepStarted;
      ClearBlock();
      match status {
        case StatusFail =>
          PrintFailure(error, elapsed, env);
        case StatusCancel =>
        case _ =>
          Println(StepLine(currentStepLabel, elapsed));
      }
      ForgetStep();
    }

    method HandleLog(level: Level, text: string, env: Env)
      requires Valid()
      modifies this
      ensures Valid() && View() == AdvanceEvent(old(View()), Log(level, text), env)
      ensures leftover == old(leftover) && raw == old(raw)
    {
      hide Shows, SpinnerRow, Elapsed, StepLine, FailLine, ResultLine, MismatchLine, Lines, Sanitize, ExecAll, Glyphs;
      match level {
        case Warn =>
          if active {
            ClearBlock();
          }
          Println("\U{26A0} " + text);
        case Error =>
          if active {
            ClearBlock();
          }
          Println("\U{2717} " + text);
        case Info =>
          if active {
            PushTail(text, env);
            return;
          }
          Println(text);
      }
    }

    method HandleResult(kind: string, scope: string, name: string, action: string)
      requires Valid()
      modifies this
      ensures Valid()
      ensures forall env :: View() == AdvanceEvent(old(View()), Result(kind, scope, name, action), env)
      ensures leftover == old(leftover) && raw == old(raw)
    {
      hide Shows, SpinnerRow, Elapsed, StepLine, FailLine, ResultLine, MismatchLine, Lines, Sanitize, ExecAll, Glyphs;
      if active {
        ClearBlock();
      }
      Println(ResultLine(kind, scope, name, action));
      resourceCount := resourceCount + 1;
    }

    /** A bare CR and erase-line: harmless on a row that is already clean. */
    method EraseRow()
      requires Valid() && block == []
      modifies `term
      ensures Valid() && block == [] && View() == old(View())
    {
      EraseClean(term, committed);
      term := ExecAll(term, [CR, EraseLine]);
    }

    /** Between steps the ticker stops and nothing is left to wipe. */
    method GoIdle()
      requires Valid() && block == [] && currentStepLabel == ""
      modifies `term, `block, `blockRows, `frame, `spinning, `active
      ensures Valid() && block == [] && View() == old(View()).(active := false)
    {
      if active {
        StopSpinner();
        active := false;
      }
    }

    method HandleSummary(text: string, env: Env)
      requires Valid()
      modifies this
      ensures Valid() && View() == AdvanceEvent(old(View()), Summary(text), env)
      ensures leftover == old(leftover) && raw == old(raw)
    {
      hide Shows, CloseStep, Print;
      CloseCurrentStep(env);
      if HasPrefix(text, "Build completed") {
        GoIdle();
        buildClosed := true;
      } else if HasPrefix(text, "Deploy completed successfully") {
        if buildClosed {
          return;
        }
        GoIdle();
        Println("\U{2713} " + text);
      } else {
        // "Pruned ..." and every other summary
        if active {
          EraseRow();
        }
        Println("\U{2713} " + text);
      }
    }

    method ProcessLine(line: string, env: Env)
      requires Valid()
      modifies this
      ensures View() == Advance(old(View()), FrameOf(decode, line), env)
      ensures if old(Fits(FrameOf(decode, line))) then Valid() else !Clean(term, committed)
      ensures leftover == old(leftover) && raw == old(raw)
    {
      hide Shows, Clean, SpinnerRow, Elapsed, StepLine, FailLine, ResultLine, MismatchLine, Lines, Sanitize;
      hide ExecAll, Glyphs;
      var trimmed := TrimSpace(line);
      if trimmed == "" {
        if active && currentStepLabel != "" {
          return;
        }
        Println("");
        return;
      }
      var e := decode(trimmed);
      if e.None? {
        if active && currentStepLabel != "" {
          PushTail(line, env);
          return;
        }
        if active || buildClosed {
          return;
        }
        Println(line);
        return;
      }
      match e.value {
        case Hello(protocol) =>
          if protocol != PROTOCOL_VERSION {
            PrintWarning(protocol);
          }
          handshakeOK := true;
        case StepStart(id, title) => HandleStepStart(id, title, env);
        case StepEnd(id, status, error) => HandleStepEnd(id, status, error, env);
        case Log(level, text) => HandleLog(level, text, env);
        case Result(kind, scope, name, action) => HandleResult(kind, scope, name, action);
        case Summary(text) => HandleSummary(text, env);
        case Unknown =>
      }
    }

    /** The frames a write completes. */
    ghost function Incoming(p: string): seq<Frame>
      reads this
    {
      FramesOf(decode, Complete(leftover + p))
    }

    /** A tame frame fits whatever the ticker has painted. */
    lemma TameFits(f: Frame)
      requires Valid() && Tame(View(), f)
      ensures Fits(f)
    {
    }

    /** Keeps an unfinished line for the next write. */
    method Carry(data: string)
      requires Valid() && '\n' !in data
      modifies `leftover
      ensures Valid() && leftover == data
    {
      leftover := data;
    }

    /** Every line of the write reads the clock for itself. */
    method Write(p: string, clock: Clock)
      requires Valid() && (!passthrough ==> TameAll(View(), Incoming(p), clock))
      modifies this
      ensures Valid()
      ensures passthrough ==>
                raw == old(raw) + p && View() == old(View()) && leftover == old(leftover)
      ensures !passthrough ==>
                && View() == AdvanceAll(old(View()), old(Incoming(p)), clock)
                && leftover == Rest(old(leftover) + p)
                && raw == old(raw)
    {
      hide Shows, Clean, ExecAll, Complete, Rest, Advance, Tame, Fits, FrameOf, IndexOf;
      if passthrough {
        raw := raw + p;
        return;
      }
      hide Shape, AdvanceAll, TameAll;
      var data := leftover + p;
      var done := 0;  // lines handled so far
      ghost var v, lines := View(), Complete(data);
      ghost var frames := FramesOf(decode, lines);
      NoFrames(v, clock);
      while '\n' in data
        invariant Valid() && leftover == old(leftover) && raw == old(raw)
        invariant 0 <= done <= |lines|
        invariant lines[done..] == Complete(data) && Rest(data) == Rest(old(leftover) + p)
        invariant View() == AdvanceAll(v, frames[..done], clock)
        decreases |data|
      {
        var idx := IndexOf(data, '\n');
        var line := data[..idx];
        FrameStep(line, data[idx + 1..]);
        assert data == line + ['\n'] + data[idx + 1..];
        data := data[idx + 1..];
        assert line == lines[done] && lines[done..][1..] == lines[done + 1..];
        OneMoreFrame(v, frames, done, clock);
        TameFits(frames[done]);
        ProcessLine(line, clock(done));
        done := done + 1;
      }
      FrameNone(data);
      assert done == |lines| && frames[..done] == frames;
      Carry(data);
    }

    /** Flushes a partial line and shuts the spinner down without a false check mark. */
    method Close()
      requires Valid()
      modifies this
      ensures passthrough ==> Valid() && View() == old(View())
      ensures !passthrough ==>
                && Lists(term, old(committed) + if old(leftover) == "" then [] else [Settled(old(leftover))])
                && committed == old(committed) && resourceCount == old(resourceCount)
                && !active && leftover == ""
    {
      if passthrough {
        return;
      }
      if active {
        StopSpinner();
        ClearBlock();
        active := false;
        tail, currentStepID, currentStepLabel := [], "", "";
      }
      FlushPartial();
    }

    /** A partial line comes out without a newline. */
    method FlushPartial()
      requires Shows(term, committed, []) && '\n' !in leftover
      modifies `term, `leftover
      ensures Lists(term, committed + if old(leftover) == "" then [] else [Settled(old(leftover))])
      ensures leftover == ""
    {
      hide ExecAll, Glyphs, Settled, RowAt;
      if leftover != "" {
        PrintPartial(term, committed, leftover);
        term := ExecAll(term, Glyphs(leftover));
        leftover := "";
      }
    }
  }

  lemma NoFrames(v: View, clock: Clock)
    ensures AdvanceAll(v, [], clock) == v
  {
  }

  lemma OneMoreFrame(v: View, frames: seq<Frame>, done: nat, clock: Clock)
    requires done < |frames|
    ensures AdvanceAll(v, frames[..done + 1], clock)
         == Advance(AdvanceAll(v, frames[..done], clock), frames[done], clock(done))
    ensures TameAll(v, frames, clock) ==> Tame(AdvanceAll(v, frames[..done], clock), frames[done])
  {
    assert frames[..done + 1][..done] == frames[..done];
  }

  lemma EraseClean(t: Terminal, committed: seq<string>)
    requires Shows(t, committed, [])
    ensures Shows(ExecAll(t, [CR, EraseLine]), committed, [])
  {
    ExecConcat(t, [CR], [EraseLine]);
    assert [CR] + [EraseLine] == [CR, EraseLine];
    ExecOne(t, CR);
    ExecOne(Exec(t, CR), EraseLine);
    var u := ExecAll(t, [CR, EraseLine]);
    forall i: nat
      ensures RowAt(u.rows, i) == RowAt(committed + [], i)
    {
      assert RowAt(t.rows, i) == RowAt(committed + [], i);
    }
  }

  lemma PrintPartial(t: Terminal, committed: seq<string>, s: string)
    requires '\n' !in s && Shows(t, committed, [])
    ensures Lists(ExecAll(t, Glyphs(s)), committed + [Settled(s)])
  {
    hide Glyphs, ExecAll, Overprint;
    var u := ExecAll(t, Glyphs(s));
    assert RowAt(t.rows, t.row) == RowAt(committed + [], t.row);
    PrintLine(t, s);
    forall i: nat
      ensures RowAt(u.rows, i) == RowAt(committed + [Settled(s)], i)
    {
      assert RowAt(t.rows, i) == RowAt(committed + [], i);
    }
  }
}
