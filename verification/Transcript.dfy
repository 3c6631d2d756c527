/**
 What an NDJSON event stream should leave in the scrollback: a fold over the
 frames that knows nothing of spinners, cursors or ticks.
 */
module Transcript {
  import opened Outcomes
  import opened Text
  import opened Terminal

  const PROTOCOL_VERSION := "ndjson/1"
  const BUILD_TAIL_N := 10

  datatype Status = StatusOk | StatusFail | StatusCancel | StatusOther
  datatype Level = Warn | Error | Info

  /** One decoded JSON line. */
  datatype Event =
    | Hello(protocol: string)
    | StepStart(id: string, title: string)
    | StepEnd(id: string, status: Status, error: string)
    | Log(level: Level, text: string)
    | Result(kind: string, scope: string, name: string, action: string)
    | Summary(text: string)
    | Unknown

  /** One line of the server's output: blank, not JSON, or an event. */
  datatype Frame = BlankLine | RawLine(line: string) | Decoded(event: Event)

  /** The clock and the terminal width at the moment a line is handled. */
  datatype Env = Env(now: int, width: int)

  /** JSON decoding, taken as given. */
  type Decoder = string -> Option<Event>

  function FrameOf(decode: Decoder, line: string): Frame {
    var trimmed := TrimSpace(line);
    if trimmed == "" then BlankLine
    else match decode(trimmed)
         case None => RawLine(line)
         case Some(e) => Decoded(e)
  }

  function FramesOf(decode: Decoder, lines: seq<string>): (frames: seq<Frame>)
    ensures |frames| == |lines|
    ensures forall i | 0 <= i < |lines| :: frames[i] == FrameOf(decode, lines[i])
  {
    seq(|lines|, i requires 0 <= i < |lines| => FrameOf(decode, lines[i]))
  }

  // ----- line dressing (colours left out)

  const NANOS_PER_SECOND := 1_000_000_000

  /** Duration.Round(time.Second).String() */
  function Elapsed(d: int): (s: string)
    ensures OneRow(s)
  {
    if d < 0 then "-" + Seconds((500_000_000 - d) / NANOS_PER_SECOND)
    else Seconds((d + 500_000_000) / NANOS_PER_SECOND)
  }

  function Seconds(n: nat): (s: string)
    ensures OneRow(s)
  {
    DigitsOneRow(n / 3600);
    DigitsOneRow(n / 60 % 60);
    DigitsOneRow(n % 60);
    (if n >= 3600 then Itoa(n / 3600) + "h" else "")
    + (if n >= 60 then Itoa(n / 60 % 60) + "m" else "")
    + Itoa(n % 60) + "s"
  }

  lemma DigitsOneRow(n: nat)
    ensures OneRow(Itoa(n))
  {
    var s := Itoa(n);
    assert forall c | c in s :: IsDigit(c);
  }

  function StepLine(title: string, d: int): string {
    "\U{2713} " + title + " (" + Elapsed(d) + ")"
  }

  function FailLine(title: string, d: int): string {
    "\U{2717} " + title + " (" + Elapsed(d) + ")"
  }

  function ResultLine(kind: string, scope: string, name: string, action: string): string {
    var ref := if scope == "" then kind + "/" + name else kind + "/" + scope + "/" + name;
    "\U{2713} " + ref + " " + action
  }

  const MISMATCH_HEAD := "voodu: protocol mismatch (server="
  const MISMATCH_TAIL := "), continuing with " + "best-effort rendering"

  function MismatchLine(protocol: string): (s: string)
    ensures OneRow(s)
  {
    hide Quoted;
    HeadIsOneRow();
    TailIsOneRow();
    MISMATCH_HEAD + Quoted(protocol) + ", client=" + Quoted(PROTOCOL_VERSION) + MISMATCH_TAIL
  }

  lemma HeadIsOneRow()
    ensures OneRow(MISMATCH_HEAD)
  {
  }

  lemma TailIsOneRow()
    ensures OneRow(MISMATCH_TAIL)
  {
    assert OneRow("), continuing with ");
    assert OneRow("best-effort rendering");
  }

  // ----- tail lines

  predicate IsCsiParam(c: char) {
    '0' <= c <= '9' || c == ';' || c == '?' || c == ':'
  }

  function SpanParams(s: string): (n: nat)
    ensures n <= |s|
  {
    if s != "" && IsCsiParam(s[0]) then 1 + SpanParams(s[1..]) else 0
  }

  function SpanIntermediates(s: string): (n: nat)
    ensures n <= |s|
  {
    if s != "" && ' ' <= s[0] <= '/' then 1 + SpanIntermediates(s[1..]) else 0
  }

  /** Length of the CSI sequence at the start of s, or 0. */
  function CsiLength(s: string): (n: nat)
    ensures n <= |s|
  {
    if |s| < 2 || s[0] != '\U{1B}' || s[1] != '[' then 0
    else
      var p := 2 + SpanParams(s[2..]);
      var i := p + SpanIntermediates(s[p..]);
      if i < |s| && '@' <= s[i] <= '~' then i + 1 else 0
  }

  /** Drops CSI sequences. */
  function StripCsi(s: string): string
    decreases |s|
  {
    if s == "" then ""
    else if CsiLength(s) > 0 then StripCsi(s[CsiLength(s)..])
    else [s[0]] + StripCsi(s[1..])
  }

  /** Tabs become spaces, other control characters go. */
  function DropControls(s: string): (out: string)
    ensures forall c | c in out :: ' ' <= c && c != '\U{7F}'
  {
    if s == "" then ""
    else if s[0] == '\t' then " " + DropControls(s[1..])
    else if s[0] < ' ' || s[0] == '\U{7F}' then DropControls(s[1..])
    else [s[0]] + DropControls(s[1..])
  }

  function TrimBlanks(s: string): (out: string)
    ensures out <= s && forall c | c in out :: c in s
    ensures out != "" ==> out[|out| - 1] != ' '
  {
    if s != "" && s[|s| - 1] == ' ' then TrimBlanks(s[..|s| - 1]) else s
  }

  function Sanitize(s: string): (out: string)
    ensures forall c | c in out :: ' ' <= c && c != '\U{7F}'
    ensures OneRow(out)
  {
    TrimBlanks(DropControls(StripCsi(s)))
  }

  function Truncate(s: string, max: int): (out: string)
    ensures '\n' !in s ==> '\n' !in out
    ensures |out| <= if max < 1 then 0 else max
  {
    if max <= 1 then ""
    else if |s| <= max then s
    else s[..max - 1] + "\U{2026}"
  }

  function TailRow(s: string, width: int): (row: string)
    ensures '\n' !in s ==> '\n' !in row
  {
    "  " + Truncate(s, width - 2)
  }

  function KeepLast(tail: seq<string>, n: nat): (kept: seq<string>)
    ensures |kept| <= n
    ensures forall t | t in kept :: t in tail
    ensures |tail| <= n ==> kept == tail
  {
    if |tail| > n then tail[|tail| - n..] else tail
  }

  function Pushed(tail: seq<string>, raw: string): seq<string> {
    var line := Sanitize(raw);
    if line == "" then tail else KeepLast(tail + [line], BUILD_TAIL_N)
  }

  // ----- the fold

  datatype View = View(
    committed: seq<string>, handshake: bool, active: bool, id: string, title: string,
    started: int, tail: seq<string>, buildClosed: bool, resources: nat)

  const START := View([], false, false, "", "", 0, [], false, 0)

  /** A step is on screen. */
  predicate Live(v: View) {
    v.active && v.title != ""
  }

  function Print(v: View, text: string): View {
    v.(committed := v.committed + Lines(text))
  }

  function EndStep(v: View): View {
    v.(tail := [], id := "", title := "")
  }

  /** The previous step, if any, counts as succeeded. */
  function CloseStep(v: View, env: Env): View {
    if v.title == "" then v
    else EndStep(Print(v, StepLine(v.title, env.now - v.started)))
  }

  function PrintRows(v: View, rows: seq<string>): View {
    if rows == [] then v else Print(PrintRows(v, rows[..|rows| - 1]), rows[|rows| - 1])
  }

  function TailRows(tail: seq<string>, width: int): (rows: seq<string>)
    ensures |rows| == |tail|
    ensures forall i | 0 <= i < |tail| :: rows[i] == TailRow(tail[i], width)
  {
    seq(|tail|, i requires 0 <= i < |tail| => TailRow(tail[i], width))
  }

  function Failed(v: View, error: string, d: int, env: Env): View {
    var shown := PrintRows(Print(v, FailLine(v.title, d)), TailRows(v.tail, env.width));
    if error == "" then shown else Print(shown, "  " + error)
  }

  function Advance(v: View, f: Frame, env: Env): View {
    match f
    case BlankLine => if Live(v) then v else Print(v, "")
    case RawLine(line) =>
      if Live(v) then v.(tail := Pushed(v.tail, line))
      else if v.active || v.buildClosed then v
      else Print(v, line)
    case Decoded(e) => AdvanceEvent(v, e, env)
  }

  function AdvanceEvent(v: View, e: Event, env: Env): View {
    match e
    case Hello(protocol) =>
      (if protocol == PROTOCOL_VERSION then v else Print(v, MismatchLine(protocol))).(handshake := true)
    case StepStart(id, title) =>
      CloseStep(v, env).(active := true, id := id, title := title, started := env.now, tail := [])
    case StepEnd(id, status, error) =>
      if v.id != id || v.title == "" then v
      else
        var d := env.now - v.started;
        EndStep(
          match status
          case StatusFail => Failed(v, error, d, env)
          case StatusCancel => v
          case _ => Print(v, StepLine(v.title, d)))
    case Log(level, text) =>
      (match level
       case Warn => Print(v, "\U{26A0} " + text)
       case Error => Print(v, "\U{2717} " + text)
       case Info => if v.active then v.(tail := Pushed(v.tail, text)) else Print(v, text))
    case Result(kind, scope, name, action) =>
      Print(v, ResultLine(kind, scope, name, action)).(resources := v.resources + 1)
    case Summary(text) =>
      var closed := CloseStep(v, env);
      if HasPrefix(text, "Build completed") then closed.(active := false, buildClosed := true)
      else if HasPrefix(text, "Deploy completed successfully") then
        if v.buildClosed then closed else Print(closed.(active := false), "\U{2713} " + text)
      else Print(closed, "\U{2713} " + text)
    case Unknown => v
  }

  /** The clock and the width read for each line of a write. */
  type Clock = nat -> Env

  function AdvanceAll(v: View, frames: seq<Frame>, clock: Clock): View {
    if frames == [] then v
    else
      var n := |frames| - 1;
      Advance(AdvanceAll(v, frames[..n], clock), frames[n], clock(n))
  }

  // ----- what the renderer relies on

  /** A step's title holds no line break, and no mismatching hello arrives while a step is live. */
  predicate Tame(v: View, f: Frame) {
    match f
    case Decoded(Hello(p)) => p == PROTOCOL_VERSION || !Live(v)
    case Decoded(StepStart(_, title)) => '\n' !in title
    case _ => true
  }

  predicate TameAll(v: View, frames: seq<Frame>, clock: Clock) {
    forall i | 0 <= i < |frames| :: Tame(AdvanceAll(v, frames[..i], clock), frames[i])
  }
}
