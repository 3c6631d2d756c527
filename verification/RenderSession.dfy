/**
 Whole sessions of the event renderer: any stream, cut into any writes, with
 ticker ticks anywhere in between, ends on the same screen as a plain fold.
 */
module RenderSession {
  import opened Terminal
  import opened Framing
  import opened Transcript
  import opened TranscriptLaws
  import opened EventRenderer

  /** What can happen to the renderer between construction and Close. */
  datatype Input = Bytes(chunk: string, clock: Clock) | Beat(env: Env)

  datatype State = State(view: View, left: string)

  /** One input on the tick-free specification; a tick does nothing to it. */
  function Play(decode: Decoder, s: State, input: Input): State {
    match input
    case Beat(_) => s
    case Bytes(chunk, clock) =>
      State(AdvanceAll(s.view, FramesOf(decode, Complete(s.left + chunk)), clock), Rest(s.left + chunk))
  }

  function PlayAll(decode: Decoder, s: State, script: seq<Input>): State {
    if script == [] then s
    else Play(decode, PlayAll(decode, s, script[..|script| - 1]), script[|script| - 1])
  }

  predicate TameInput(decode: Decoder, s: State, input: Input) {
    input.Bytes? ==> TameAll(s.view, FramesOf(decode, Complete(s.left + input.chunk)), input.clock)
  }

  const FRESH := State(START, "")

  predicate TameScript(decode: Decoder, script: seq<Input>) {
    forall i | 0 <= i < |script| :: TameInput(decode, PlayAll(decode, FRESH, script[..i]), script[i])
  }

  /** The transcript, plus an unfinished last line if the stream broke off inside one. */
  function FinalRows(decode: Decoder, script: seq<Input>): seq<string> {
    var s := PlayAll(decode, FRESH, script);
    s.view.committed + if s.left == "" then [] else [Settled(s.left)]
  }

  /** Runs a session on a tty; the final screen lists exactly the transcript. */
  method Run(decode: Decoder, script: seq<Input>) returns (r: EventRenderer)
    requires TameScript(decode, script)
    ensures fresh(r)
    ensures Lists(r.term, FinalRows(decode, script)) && FinalRows(decode, script) == HistoryRows(decode, script)
    ensures r.resourceCount == PlayAll(decode, FRESH, script).view.resources
  {
    hide TameAll, AdvanceAll;
    r := new EventRenderer(decode, false);
    for i := 0 to |script|
      invariant fresh(r) && r.Valid() && r.decode == decode && !r.passthrough
      invariant State(r.View(), r.leftover) == PlayAll(decode, FRESH, script[..i])
    {
      assert script[..i + 1][..i] == script[..i];
      assert TameInput(decode, PlayAll(decode, FRESH, script[..i]), script[i]);
      match script[i] {
        case Beat(env) => r.Tick(env);
        case Bytes(chunk, clock) => r.Write(chunk, clock);
      }
    }
    assert script[..|script|] == script;
    FinalRowsAreHistory(decode, script);
    r.Close();
  }

  // ----- neither ticks nor chunking show

  function WithoutBeats(script: seq<Input>): seq<Input> {
    if script == [] then []
    else
      var front, last := WithoutBeats(script[..|script| - 1]), script[|script| - 1];
      if last.Beat? then front else front + [last]
  }

  lemma {:induction false} BeatsPlayNothing(decode: Decoder, script: seq<Input>)
    ensures PlayAll(decode, FRESH, WithoutBeats(script)) == PlayAll(decode, FRESH, script)
  {
    if script != [] {
      var front, last := script[..|script| - 1], script[|script| - 1];
      BeatsPlayNothing(decode, front);
      if last.Bytes? {
        var kept := WithoutBeats(front) + [last];
        assert kept[..|kept| - 1] == WithoutBeats(front);
      }
    }
  }

  lemma {:induction false} TameWithoutBeats(decode: Decoder, script: seq<Input>)
    requires TameScript(decode, script)
    ensures TameScript(decode, WithoutBeats(script))
  {
    hide TameInput, PlayAll;
    if script != [] {
      var front, last := script[..|script| - 1], script[|script| - 1];
      forall i | 0 <= i < |front| ensures TameInput(decode, PlayAll(decode, FRESH, front[..i]), front[i]) {
        assert front[..i] == script[..i];
      }
      TameWithoutBeats(decode, front);
      var kept := WithoutBeats(front);
      BeatsPlayNothing(decode, front);
      assert TameInput(decode, PlayAll(decode, FRESH, script[..|front|]), last);
      forall i | 0 <= i <= |kept|
        ensures (kept + [last])[..i] == kept[..i]
      {
      }
      assert kept[..|kept|] == kept;
    }
  }

  /** Two runs of one session, with its ticks and without them, end on the same screen. */
  method TicksDoNotShow(decode: Decoder, script: seq<Input>) returns (ticked: EventRenderer, still: EventRenderer)
    requires TameScript(decode, script)
    ensures forall i: nat :: RowAt(ticked.term.rows, i) == RowAt(still.term.rows, i)
    ensures Lists(still.term, FinalRows(decode, script))
  {
    hide TameInput, PlayAll, WithoutBeats, RowAt;
    ticked := Run(decode, script);
    TameWithoutBeats(decode, script);
    BeatsPlayNothing(decode, script);
    still := Run(decode, WithoutBeats(script));
  }

  /** A clock after n lines. */
  function After(clock: Clock, n: nat): Clock {
    (i: nat) => clock(n + i)
  }

  /** One write a chunk; line i of the whole stream is handled at clock(i). */
  function Writes(chunks: seq<string>, clock: Clock): (script: seq<Input>)
    ensures |script| == |chunks|
  {
    if chunks == [] then []
    else
      var front, last := chunks[..|chunks| - 1], chunks[|chunks| - 1];
      Writes(front, clock) + [Bytes(last, After(clock, |Complete(Concat(front))|))]
  }

  lemma {:induction false} AdvanceConcat(v: View, a: seq<Frame>, b: seq<Frame>, clock: Clock)
    ensures AdvanceAll(v, a + b, clock) == AdvanceAll(AdvanceAll(v, a, clock), b, After(clock, |a|))
    decreases |b|
  {
    hide Advance;
    if b == [] {
      assert a + b == a;
    } else {
      var front := b[..|b| - 1];
      assert (a + b)[..|a + b| - 1] == a + front;
      AdvanceConcat(v, a, front, clock);
    }
  }

  lemma {:induction false} ConcatLast(front: seq<string>, last: string)
    ensures Concat(front + [last]) == Concat(front) + last
  {
    if front == [] {
      assert front + [last] == [last] && [last][1..] == [];
    } else {
      assert (front + [last])[1..] == front[1..] + [last];
      ConcatLast(front[1..], last);
    }
  }

  lemma FramesConcat(decode: Decoder, a: seq<string>, b: seq<string>)
    ensures FramesOf(decode, a + b) == FramesOf(decode, a) + FramesOf(decode, b)
  {
    hide FrameOf;
  }

  /** However the stream is cut into writes, the session ends in the same state. */
  lemma {:induction false} ChunksDoNotShow(decode: Decoder, chunks: seq<string>, clock: Clock)
    ensures PlayAll(decode, FRESH, Writes(chunks, clock)) ==
            State(AdvanceAll(START, FramesOf(decode, Complete(Concat(chunks))), clock), Rest(Concat(chunks)))
    decreases |chunks|
  {
    hide Complete, Rest, FramesOf, AdvanceAll;
    var script := Writes(chunks, clock);
    if chunks == [] {
      FrameNone("");
      NoFrames(START, clock);
    } else {
      var front, last := chunks[..|chunks| - 1], chunks[|chunks| - 1];
      ChunksDoNotShow(decode, front, clock);
      assert script[..|script| - 1] == Writes(front, clock);
      ConcatLast(front, last);
      assert chunks == front + [last];
      var stream := Concat(front);
      FrameTwice(stream, last);
      var a, b := FramesOf(decode, Complete(stream)), FramesOf(decode, Complete(Rest(stream) + last));
      FramesConcat(decode, Complete(stream), Complete(Rest(stream) + last));
      AdvanceConcat(START, a, b, clock);
    }
  }

  // ----- a session is one stream

  /** All bytes of a session. */
  function BytesOf(script: seq<Input>): string {
    if script == [] then ""
    else
      var front, last := BytesOf(script[..|script| - 1]), script[|script| - 1];
      if last.Beat? then front else front + last.chunk
  }

  /** The clock of a session: each write brings its own, for the lines it completes. */
  function ClockOf(script: seq<Input>): Clock {
    if script == [] then (i: nat) => Env(0, 0)
    else
      var front, last := script[..|script| - 1], script[|script| - 1];
      if last.Beat? then ClockOf(front) else Spliced(ClockOf(front), |Complete(BytesOf(front))|, last.clock)
  }

  function Spliced(first: Clock, n: nat, second: Clock): Clock {
    (i: nat) => if i < n then first(i) else second(i - n)
  }

  lemma {:induction false} SameClock(v: View, frames: seq<Frame>, a: Clock, b: Clock)
    requires forall i: nat | i < |frames| :: a(i) == b(i)
    ensures AdvanceAll(v, frames, a) == AdvanceAll(v, frames, b)
  {
    hide Advance;
    if frames != [] { SameClock(v, frames[..|frames| - 1], a, b); }
  }

  /** Any session, ticks and all, ends where its whole stream in one write would. */
  lemma {:induction false} SessionIsOneStream(decode: Decoder, script: seq<Input>)
    ensures PlayAll(decode, FRESH, script) ==
              State(AdvanceAll(START, FramesOf(decode, Complete(BytesOf(script))), ClockOf(script)),
                    Rest(BytesOf(script)))
  {
    hide Complete, Rest, FramesOf, AdvanceAll;
    if script == [] {
      FrameNone("");
      NoFrames(START, ClockOf(script));
      assert FramesOf(decode, []) == [];
    } else {
      var front, last := script[..|script| - 1], script[|script| - 1];
      SessionIsOneStream(decode, front);
      if last.Bytes? {
        OneMoreWrite(decode, BytesOf(front), last.chunk, ClockOf(front), last.clock);
      }
    }
  }

  lemma OneMoreWrite(decode: Decoder, stream: string, chunk: string, first: Clock, second: Clock)
    ensures Rest(stream + chunk) == Rest(Rest(stream) + chunk)
    ensures AdvanceAll(START, FramesOf(decode, Complete(stream + chunk)), Spliced(first, |Complete(stream)|, second))
         == AdvanceAll(AdvanceAll(START, FramesOf(decode, Complete(stream)), first),
                       FramesOf(decode, Complete(Rest(stream) + chunk)), second)
  {
    hide Complete, Rest, FramesOf, AdvanceAll;
    FrameTwice(stream, chunk);
    var n, both := |Complete(stream)|, Spliced(first, |Complete(stream)|, second);
    var a, b := FramesOf(decode, Complete(stream)), FramesOf(decode, Complete(Rest(stream) + chunk));
    FramesConcat(decode, Complete(stream), Complete(Rest(stream) + chunk));
    AdvanceConcat(START, a, b, both);
    SameClock(START, a, both, first);
    SameClock(AdvanceAll(START, a, first), b, After(both, n), second);
  }

  /** The rows a session ends on, read off its frames: each frame's own, then an unfinished last line. */
  ghost function HistoryRows(decode: Decoder, script: seq<Input>): seq<string> {
    var frames := FramesOf(decode, Complete(BytesOf(script)));
    RowsUpTo(frames, |frames|, ClockOf(script))
    + if Rest(BytesOf(script)) == "" then [] else [Settled(Rest(BytesOf(script)))]
  }

  lemma FinalRowsAreHistory(decode: Decoder, script: seq<Input>)
    ensures FinalRows(decode, script) == HistoryRows(decode, script)
  {
    hide Complete, Rest, FramesOf, AdvanceAll, RowsUpTo;
    SessionIsOneStream(decode, script);
    var frames := FramesOf(decode, Complete(BytesOf(script)));
    TranscriptIsRows(frames, |frames|, ClockOf(script));
    assert frames[..|frames|] == frames;
  }
}
