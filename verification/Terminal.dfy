/**
 A terminal reduced to what the live renderers use: printing, CR, LF,
 erase-line and cursor-up (ECMA-48 sections 8.3.15, 8.3.74, 8.3.41 and 8.3.22).

 The output side of a tty maps LF to CR LF, so LF also returns to column 0.
 Rows and columns are unbounded: nothing scrolls and nothing wraps.
 */
module Terminal {
  import opened Text

  datatype Terminal = Terminal(rows: seq<string>, row: nat, col: nat)

  datatype Op = Put(c: char) | CR | LF | EraseLine | CursorUp(n: nat)

  const BLANK := Terminal([], 0, 0)

  /** Rows never written are blank. */
  function RowAt(rows: seq<string>, i: nat): string {
    if i < |rows| then rows[i] else ""
  }

  function SetRow(rows: seq<string>, i: nat, s: string): (out: seq<string>)
    ensures forall k: nat :: RowAt(out, k) == if k == i then s else RowAt(rows, k)
  {
    if i < |rows| then rows[i := s]
    else rows + seq(i - |rows|, _ => "") + [s]
  }

  function PutAt(row: string, col: nat, c: char): string {
    if col < |row| then row[col := c]
    else row + seq(col - |row|, _ => ' ') + [c]
  }

  function Exec(t: Terminal, op: Op): Terminal {
    match op
    case Put(c) => Terminal(SetRow(t.rows, t.row, PutAt(RowAt(t.rows, t.row), t.col, c)), t.row, t.col + 1)
    case CR => t.(col := 0)
    case LF => t.(row := t.row + 1, col := 0)
    case EraseLine => t.(rows := SetRow(t.rows, t.row, ""))
    case CursorUp(n) => t.(row := if n <= t.row then t.row - n else 0)
  }

  function ExecAll(t: Terminal, ops: seq<Op>): Terminal
    decreases |ops|
  {
    if ops == [] then t else ExecAll(Exec(t, ops[0]), ops[1..])
  }

  lemma {:induction false} ExecConcat(t: Terminal, a: seq<Op>, b: seq<Op>)
    ensures ExecAll(t, a + b) == ExecAll(ExecAll(t, a), b)
    decreases |a|
  {
    if a == [] {
      assert a + b == b;
    } else {
      assert (a + b)[1..] == a[1..] + b;
      ExecConcat(Exec(t, a[0]), a[1..], b);
    }
  }

  /** Printing a string. */
  function Glyphs(s: string): (ops: seq<Op>) {
    if s == "" then []
    else [if s[0] == '\n' then LF else if s[0] == '\r' then CR else Put(s[0])] + Glyphs(s[1..])
  }

  /** Text that stays on one row. */
  predicate OneRow(s: string) {
    '\r' !in s && '\n' !in s
  }

  // ----- what the screen shows

  /**
   The screen lists the committed lines, then the rows of a live block, and
   nothing below; the cursor rests on the block's top row, column 0.
   */
  ghost predicate Shows(t: Terminal, committed: seq<string>, block: seq<string>) {
    && t.row == |committed| && t.col == 0
    && Lists(t, committed + block)
  }

  /** The screen holds these rows from the top and is blank below them. */
  ghost predicate Lists(t: Terminal, rows: seq<string>) {
    forall i: nat :: RowAt(t.rows, i) == RowAt(rows, i)
  }

  // ----- printing

  /** A row after printing s from a column of it. */
  function Overlay(row: string, col: nat, s: string): string
    requires col <= |row|
  {
    row[..col] + s + if col + |s| < |row| then row[col + |s|..] else ""
  }

  /** A row after printing s from column 0: each carriage return starts over on top. */
  function Overprint(row: string, s: string): string
    decreases |s|
  {
    var i := IndexOf(s, '\r');
    var over := Overlay(row, 0, s[..i]);
    if i == |s| then over else Overprint(over, s[i + 1..])
  }

  /** The row a printed line settles into. */
  function Settled(s: string): string {
    Overprint("", s)
  }

  /** The rows a printed text settles into. */
  function Lines(s: string): (lines: seq<string>)
    ensures |lines| == |Split(s, '\n')|
    ensures forall i | 0 <= i < |lines| :: lines[i] == Settled(Split(s, '\n')[i])
  {
    var pieces := Split(s, '\n');
    seq(|pieces|, i requires 0 <= i < |pieces| => Settled(pieces[i]))
  }

  /** Without carriage returns a line settles into itself. */
  lemma SettledAsIs(s: string)
    ensures '\r' !in s ==> Settled(s) == s
  {
  }

  lemma {:induction false} PrintRow(t: Terminal, s: string)
    requires OneRow(s) && t.col <= |RowAt(t.rows, t.row)|
    ensures var u := ExecAll(t, Glyphs(s));
            && u.row == t.row && u.col == t.col + |s|
            && forall i: nat :: RowAt(u.rows, i) ==
                 if i == t.row then Overlay(RowAt(t.rows, t.row), t.col, s) else RowAt(t.rows, i)
    decreases |s|
  {
    if s != "" {
      hide *;
      var next := Exec(t, Put(s[0]));
      FirstGlyph(t, s);
      PutEffect(t, s[0]);
      OverlayStep(RowAt(t.rows, t.row), t.col, s);
      PrintRow(next, s[1..]);
    } else {
      OverlayNothing(RowAt(t.rows, t.row), t.col);
    }
  }

  lemma OverlayNothing(row: string, col: nat)
    requires col <= |row|
    ensures Overlay(row, col, "") == row
  {
  }

  lemma PutEffect(t: Terminal, c: char)
    ensures var u := Exec(t, Put(c));
            && u.row == t.row && u.col == t.col + 1
            && forall i: nat :: RowAt(u.rows, i) ==
                 if i == t.row then PutAt(RowAt(t.rows, t.row), t.col, c) else RowAt(t.rows, i)
  {
    hide PutAt;
  }

  lemma FirstGlyph(t: Terminal, s: string)
    requires OneRow(s) && s != ""
    ensures ExecAll(t, Glyphs(s)) == ExecAll(Exec(t, Put(s[0])), Glyphs(s[1..]))
    ensures OneRow(s[1..])
  {
    hide Exec;
    assert s[0] in s;
    assert Glyphs(s)[1..] == Glyphs(s[1..]);
  }

  lemma OverlayStep(row: string, col: nat, s: string)
    requires col <= |row| && s != ""
    ensures col + 1 <= |PutAt(row, col, s[0])|
    ensures Overlay(PutAt(row, col, s[0]), col + 1, s[1..]) == Overlay(row, col, s)
  {
    assert s == [s[0]] + s[1..];
  }

  lemma {:induction false} GlyphsConcat(a: string, b: string)
    ensures Glyphs(a + b) == Glyphs(a) + Glyphs(b)
    decreases |a|
  {
    if a == "" {
      assert a + b == b;
    } else {
      assert (a + b)[1..] == a[1..] + b;
      GlyphsConcat(a[1..], b);
    }
  }

  lemma GlyphsAround(a: string, c: char, b: string)
    ensures Glyphs(a + [c] + b) == Glyphs(a) + (Glyphs([c]) + Glyphs(b))
  {
    assert a + [c] + b == a + ([c] + b);
    GlyphsConcat(a, [c] + b);
    GlyphsConcat([c], b);
  }

  /** Printing within one row, carriage returns and all. */
  lemma {:induction false} PrintLine(t: Terminal, s: string)
    requires '\n' !in s && t.col == 0
    ensures var u := ExecAll(t, Glyphs(s));
            && u.row == t.row
            && forall i: nat :: RowAt(u.rows, i) ==
                 if i == t.row then Overprint(RowAt(t.rows, t.row), s) else RowAt(t.rows, i)
    decreases |s|
  {
    hide Glyphs, ExecAll, Overlay, RowAt;
    var i := IndexOf(s, '\r');
    PrintRow(t, s[..i]);
    if i < |s| {
      var rest := s[i + 1..];
      var u := ExecAll(t, Glyphs(s[..i]));
      assert s == s[..i] + ['\r'] + rest;
      GlyphsAround(s[..i], '\r', rest);
      ReturnGlyph();
      ExecConcat(t, Glyphs(s[..i]), [CR] + Glyphs(rest));
      ExecConcat(u, [CR], Glyphs(rest));
      ExecOne(u, CR);
      PrintLine(Exec(u, CR), rest);
    } else {
      assert s[..i] == s;
    }
  }

  lemma ReturnGlyph()
    ensures Glyphs(['\r']) == [CR]
  {
    assert Glyphs(['\r']) == [CR] + Glyphs(['\r'][1..]);
  }

  lemma CommitRow(t: Terminal, committed: seq<string>, s: string)
    requires '\n' !in s && Shows(t, committed, [])
    ensures Shows(ExecAll(t, Glyphs(s) + [LF]), committed + [Settled(s)], [])
  {
    hide Glyphs, ExecAll, Overprint;
    assert RowAt(t.rows, t.row) == RowAt(committed + [], t.row);
    PrintLine(t, s);
    var u := ExecAll(t, Glyphs(s));
    ExecConcat(t, Glyphs(s), [LF]);
    ExecOne(u, LF);
    forall i: nat
      ensures RowAt(u.rows, i) == RowAt(committed + [Settled(s)] + [], i)
    {
      assert RowAt(t.rows, i) == RowAt(committed + [], i);
    }
  }

  lemma CommitOps(head: string, tail: string)
    ensures Glyphs(head + ['\n'] + tail) + [LF] == (Glyphs(head) + [LF]) + (Glyphs(tail) + [LF])
  {
    GlyphsAround(head, '\n', tail);
    LineGlyph();
  }

  lemma LinesOfRow(s: string)
    requires OneRow(s)
    ensures Lines(s) == [s]
  {
    LastLine(s);
    SettledAsIs(s);
  }

  lemma LastLine(s: string)
    requires '\n' !in s
    ensures Lines(s) == [Settled(s)]
  {
    hide Settled;
    assert Split(s, '\n') == [s];
  }

  lemma FirstLine(head: string, tail: string)
    requires '\n' !in head
    ensures Lines(head + ['\n'] + tail) == [Settled(head)] + Lines(tail)
  {
    hide Settled, Split;
    SplitCons(head, tail, '\n');
  }

  /** fmt.Fprintln at a clean cursor adds the text's lines to the transcript. */
  lemma {:induction false} Commit(t: Terminal, committed: seq<string>, s: string)
    requires Shows(t, committed, [])
    ensures Shows(ExecAll(t, Glyphs(s) + [LF]), committed + Lines(s), [])
    decreases |s|
  {
    hide *;
    var i := IndexOf(s, '\n');
    if i == |s| {
      CommitRow(t, committed, s);
      LastLine(s);
    } else {
      var head, tail := s[..i], s[i + 1..];
      assert s == head + ['\n'] + tail;
      CommitRow(t, committed, head);
      var u := ExecAll(t, Glyphs(head) + [LF]);
      Commit(u, committed + [Settled(head)], tail);
      CommitOps(head, tail);
      ExecConcat(t, Glyphs(head) + [LF], Glyphs(tail) + [LF]);
      FirstLine(head, tail);
      assert committed + [Settled(head)] + Lines(tail) == committed + ([Settled(head)] + Lines(tail));
    }
  }

  // ----- repainting a block in place

  /** Paints one row over whatever it held. */
  function PaintRow(s: string): seq<Op> {
    [EraseLine] + Glyphs(s)
  }

  /** Walks down painting the remaining rows. */
  function PaintDown(rows: seq<string>): seq<Op> {
    if rows == [] then [] else [LF] + PaintRow(rows[0]) + PaintDown(rows[1..])
  }

  function Rise(n: nat): seq<Op> {
    if n > 0 then [CursorUp(n)] else []
  }

  /** Repaints a block from its top row and returns there. */
  function PaintOps(rows: seq<string>): seq<Op>
    requires rows != []
  {
    [CR] + PaintRow(rows[0]) + PaintDown(rows[1..]) + Rise(|rows| - 1) + [CR]
  }

  /** No row breaks into two. */
  predicate Unbroken(rows: seq<string>) {
    forall r | r in rows :: '\n' !in r
  }

  /** What the rows settle into. */
  function AllSettled(rows: seq<string>): (shown: seq<string>)
    ensures |shown| == |rows| && forall i | 0 <= i < |rows| :: shown[i] == Settled(rows[i])
  {
    seq(|rows|, i requires 0 <= i < |rows| => Settled(rows[i]))
  }

  lemma PaintOne(t: Terminal, s: string)
    requires '\n' !in s && t.col == 0
    ensures var u := ExecAll(t, PaintRow(s));
            && u.row == t.row
            && forall i: nat :: RowAt(u.rows, i) == if i == t.row then Settled(s) else RowAt(t.rows, i)
  {
    hide Glyphs, Overprint;
    var erased := Exec(t, EraseLine);
    PrintLine(erased, s);
    assert PaintRow(s)[1..] == Glyphs(s);
  }

  lemma {:induction false} PaintRest(t: Terminal, rows: seq<string>)
    requires Unbroken(rows)
    ensures var u := ExecAll(t, PaintDown(rows));
            && u.row == t.row + |rows|
            && (forall k | 0 <= k < |rows| :: RowAt(u.rows, t.row + 1 + k) == Settled(rows[k]))
            && (forall i: nat | i <= t.row || t.row + |rows| < i :: RowAt(u.rows, i) == RowAt(t.rows, i))
    decreases |rows|
  {
    hide PaintRow, RowAt, Settled;
    if rows != [] {
      var rest := rows[1..];
      var down := Exec(t, LF);
      PaintOne(down, rows[0]);
      var u := ExecAll(down, PaintRow(rows[0]));
      PaintRest(u, rest);
      PaintDownStep(t, rows);
      var v := ExecAll(u, PaintDown(rest));
      forall k | 0 <= k < |rows|
        ensures RowAt(v.rows, t.row + 1 + k) == Settled(rows[k])
      {
        if k > 0 {
          assert RowAt(v.rows, u.row + 1 + (k - 1)) == Settled(rest[k - 1]);
        }
      }
    }
  }

  lemma PaintDownStep(t: Terminal, rows: seq<string>)
    requires rows != []
    ensures ExecAll(t, PaintDown(rows)) ==
            ExecAll(ExecAll(Exec(t, LF), PaintRow(rows[0])), PaintDown(rows[1..]))
  {
    hide PaintRow;
    var a, b := PaintRow(rows[0]), PaintDown(rows[1..]);
    assert PaintDown(rows) == [LF] + (a + b);
    hide PaintDown;
    ExecConcat(t, [LF], a + b);
    ExecOne(t, LF);
    ExecConcat(Exec(t, LF), a, b);
  }

  lemma ExecOne(t: Terminal, op: Op)
    ensures ExecAll(t, [op]) == Exec(t, op)
  {
    assert [op][1..] == [];
  }

  lemma RiseBack(t: Terminal, n: nat)
    requires n <= t.row
    ensures ExecAll(t, Rise(n)) == t.(row := t.row - n)
  {
    if n > 0 {
      assert Rise(n)[1..] == [];
    }
  }

  lemma PaintOpsStep(t: Terminal, rows: seq<string>)
    requires rows != []
    ensures var u := ExecAll(Exec(t, CR), PaintRow(rows[0]));
            var v := ExecAll(ExecAll(u, PaintDown(rows[1..])), Rise(|rows| - 1));
            ExecAll(t, PaintOps(rows)) == Exec(v, CR)
  {
    hide PaintRow, PaintDown, Rise;
    var a, b, c := PaintRow(rows[0]), PaintDown(rows[1..]), Rise(|rows| - 1);
    assert PaintOps(rows) == [CR] + (a + (b + (c + [CR])));
    hide PaintOps;
    var start := Exec(t, CR);
    ExecConcat(t, [CR], a + (b + (c + [CR])));
    ExecOne(t, CR);
    ExecConcat(start, a, b + (c + [CR]));
    var u := ExecAll(start, a);
    ExecConcat(u, b, c + [CR]);
    ExecConcat(ExecAll(u, b), c, [CR]);
    ExecOne(ExecAll(ExecAll(u, b), c), CR);
  }

  /** What a repaint does to the screen, whatever was there. */
  lemma PaintEffect(t: Terminal, rows: seq<string>)
    requires Unbroken(rows) && 0 < |rows|
    ensures var u := ExecAll(t, PaintOps(rows));
            && u.row == t.row && u.col == 0
            && forall i: nat :: RowAt(u.rows, i) ==
                 if t.row <= i < t.row + |rows| then AllSettled(rows)[i - t.row] else RowAt(t.rows, i)
  {
    hide Settled, PaintRow, PaintDown, Rise, RowAt, ExecAll, PaintOps;
    var start := Exec(t, CR);
    PaintOne(start, rows[0]);
    var u := ExecAll(start, PaintRow(rows[0]));
    PaintRest(u, rows[1..]);
    var v := ExecAll(u, PaintDown(rows[1..]));
    RiseBack(v, |rows| - 1);
    PaintOpsStep(t, rows);
    forall i: nat
      ensures RowAt(v.rows, i) == if t.row <= i < t.row + |rows| then Settled(rows[i - t.row]) else RowAt(t.rows, i)
    {
      if t.row < i < t.row + |rows| {
        assert RowAt(v.rows, u.row + 1 + (i - t.row - 1)) == Settled(rows[1..][i - t.row - 1]);
      }
    }
  }

  /**
   Repainting replaces the old block, leaves nothing of it behind and brings
   the cursor back, exactly when the new block covers the old one's last row.
   */
  lemma PaintReplaces(t: Terminal, committed: seq<string>, block: seq<string>, rows: seq<string>)
    requires Shows(t, committed, block)
    requires Unbroken(rows) && 0 < |rows|
    requires block != [] ==> block[|block| - 1] != ""
    ensures Shows(ExecAll(t, PaintOps(rows)), committed, AllSettled(rows)) <==> |block| <= |rows|
  {
    hide PaintOps, ExecAll, Settled;
    PaintEffect(t, rows);
    var u := ExecAll(t, PaintOps(rows));
    if |block| <= |rows| {
      PaintCovers(t, committed, block, AllSettled(rows), u);
    } else {
      var last := |committed| + |block| - 1;
      assert RowAt(t.rows, last) == RowAt(committed + block, last);
      assert RowAt(u.rows, last) != RowAt(committed + AllSettled(rows), last);
    }
  }

  lemma PaintCovers(t: Terminal, committed: seq<string>, block: seq<string>, rows: seq<string>, u: Terminal)
    requires Shows(t, committed, block) && 0 < |rows| && |block| <= |rows|
    requires u.row == t.row && u.col == 0
    requires forall i: nat :: RowAt(u.rows, i) ==
               if t.row <= i < t.row + |rows| then rows[i - t.row] else RowAt(t.rows, i)
    ensures Shows(u, committed, rows)
  {
    forall i: nat
      ensures RowAt(u.rows, i) == RowAt(committed + rows, i)
    {
      assert RowAt(t.rows, i) == RowAt(committed + block, i);
    }
  }

  /** A repaint at least as tall always replaces the block. */
  lemma PaintShows(t: Terminal, committed: seq<string>, block: seq<string>, rows: seq<string>)
    requires Shows(t, committed, block)
    requires Unbroken(rows) && 0 < |rows| && |block| <= |rows|
    ensures Shows(ExecAll(t, PaintOps(rows)), committed, AllSettled(rows))
  {
    hide PaintOps, ExecAll, Settled;
    PaintEffect(t, rows);
    PaintCovers(t, committed, block, AllSettled(rows), ExecAll(t, PaintOps(rows)));
  }

  // ----- rows that break

  /** The line breaks in a row. */
  function Breaks(s: string): nat {
    if s == "" then 0 else (if s[0] == '\n' then 1 else 0) + Breaks(s[1..])
  }

  function AllBreaks(rows: seq<string>): nat {
    if rows == [] then 0 else Breaks(rows[0]) + AllBreaks(rows[1..])
  }

  lemma {:induction false} BreaksIff(s: string)
    ensures Breaks(s) == 0 <==> '\n' !in s
  {
    if s != "" {
      BreaksIff(s[1..]);
      assert s == [s[0]] + s[1..];
    }
  }

  lemma {:induction false} AllBreaksIff(rows: seq<string>)
    ensures AllBreaks(rows) == 0 <==> Unbroken(rows)
  {
    if rows != [] {
      BreaksIff(rows[0]);
      AllBreaksIff(rows[1..]);
      assert rows == [rows[0]] + rows[1..];
    }
  }

  lemma {:induction false} GlyphsFall(t: Terminal, s: string)
    ensures ExecAll(t, Glyphs(s)).row == t.row + Breaks(s)
    decreases |s|
  {
    if s != "" {
      assert Glyphs(s)[1..] == Glyphs(s[1..]);
      GlyphsFall(Exec(t, Glyphs(s)[0]), s[1..]);
    }
  }

  lemma PaintRowFalls(t: Terminal, s: string)
    ensures ExecAll(t, PaintRow(s)).row == t.row + Breaks(s)
  {
    hide Glyphs;
    assert PaintRow(s)[1..] == Glyphs(s);
    GlyphsFall(Exec(t, EraseLine), s);
  }

  lemma {:induction false} PaintDownFalls(t: Terminal, rows: seq<string>)
    ensures ExecAll(t, PaintDown(rows)).row == t.row + |rows| + AllBreaks(rows)
    decreases |rows|
  {
    hide PaintRow, Breaks;
    if rows != [] {
      PaintDownStep(t, rows);
      var down := Exec(t, LF);
      PaintRowFalls(down, rows[0]);
      PaintDownFalls(ExecAll(down, PaintRow(rows[0])), rows[1..]);
    }
  }

  /** A repaint comes back as many rows too low as its rows have line breaks. */
  lemma PaintFalls(t: Terminal, rows: seq<string>)
    requires rows != []
    ensures var u := ExecAll(t, PaintOps(rows)); u.row == t.row + AllBreaks(rows) && u.col == 0
  {
    hide PaintRow, PaintDown, Rise, PaintOps, ExecAll, Breaks;
    PaintOpsStep(t, rows);
    var start := Exec(t, CR);
    PaintRowFalls(start, rows[0]);
    var u := ExecAll(start, PaintRow(rows[0]));
    PaintDownFalls(u, rows[1..]);
    RiseBack(ExecAll(u, PaintDown(rows[1..])), |rows| - 1);
  }

  /** The screen lists this transcript above some block, with the cursor between them. */
  ghost predicate Clean(t: Terminal, committed: seq<string>) {
    exists block :: Shows(t, committed, block)
  }

  /** A repaint at least as tall as the block is clean exactly if none of its rows breaks. */
  lemma PaintCleanIff(t: Terminal, committed: seq<string>, block: seq<string>, rows: seq<string>)
    requires Shows(t, committed, block) && 0 < |rows| && |block| <= |rows|
    ensures Clean(ExecAll(t, PaintOps(rows)), committed) <==> Unbroken(rows)
  {
    hide PaintOps, ExecAll;
    PaintFalls(t, rows);
    AllBreaksIff(rows);
    if Unbroken(rows) {
      PaintShows(t, committed, block, rows);
    }
  }

  /** With every repaint a broken block falls further below its transcript. */
  lemma {:induction false} RepaintsFall(t: Terminal, rows: seq<string>, n: nat)
    requires rows != []
    ensures ExecAll(t, Repeated(PaintOps(rows), n)).row == t.row + n * AllBreaks(rows)
  {
    hide PaintOps, ExecAll, AllBreaks;
    if n == 0 {
      ExecNone(t);
    } else {
      RepaintsFall(t, rows, n - 1);
      var before := Repeated(PaintOps(rows), n - 1);
      ExecConcat(t, before, PaintOps(rows));
      PaintFalls(ExecAll(t, before), rows);
    }
  }

  lemma BlankSettles()
    ensures Settled("") == ""
  {
  }

  /** A block of blank rows is no block at all. */
  lemma BlankBlock(t: Terminal, committed: seq<string>, n: nat)
    requires Shows(t, committed, seq(n, _ => ""))
    ensures Shows(t, committed, [])
  {
    forall i: nat
      ensures RowAt(t.rows, i) == RowAt(committed + [], i)
    {
      assert RowAt(t.rows, i) == RowAt(committed + seq(n, _ => ""), i);
    }
  }

  /**
   Printing a line straight over a live block: the cursor lands on the block's
   second row, and the printed row is clean exactly when it is at least as long
   as the row it covers.
   */
  lemma PrintOverBlock(t: Terminal, committed: seq<string>, block: seq<string>, s: string)
    requires OneRow(s) && block != [] && Shows(t, committed, block)
    ensures Clean(ExecAll(t, Glyphs(s) + [LF]), committed + [s]) <==> |block[0]| <= |s|
    ensures |block[0]| <= |s| ==> Shows(ExecAll(t, Glyphs(s) + [LF]), committed + [s], block[1..])
  {
    hide ExecAll, Glyphs, Lists, RowAt, Overlay;
    PrintOver(t, committed, block, s);
    OverlayAtStart(block[0], s);
    var u, over := ExecAll(t, Glyphs(s) + [LF]), Overlay(block[0], 0, s);
    if over != s {
      forall other ensures !Shows(u, committed + [s], other) {
        OtherRow(u, committed, over, s, block[1..], other);
      }
    }
  }

  lemma OverlayAtStart(row: string, s: string)
    ensures Overlay(row, 0, s) == s <==> |row| <= |s|
  {
    assert Overlay(row, 0, s) == s + if |s| < |row| then row[|s|..] else "";
  }

  lemma OtherRow(t: Terminal, above: seq<string>, row: string, other: string, below: seq<string>, below': seq<string>)
    requires Lists(t, above + [row] + below) && row != other
    ensures !Lists(t, above + [other] + below')
  {
    var i := |above|;
    assert RowAt(t.rows, i) == RowAt(above + [row] + below, i) == row;
    assert RowAt(above + [other] + below', i) == other;
  }

  lemma PrintOver(t: Terminal, committed: seq<string>, block: seq<string>, s: string)
    requires OneRow(s) && block != [] && Shows(t, committed, block)
    ensures Shows(ExecAll(t, Glyphs(s) + [LF]), committed + [Overlay(block[0], 0, s)], block[1..])
  {
    hide ExecAll, Glyphs, Overlay;
    assert RowAt(t.rows, t.row) == RowAt(committed + block, t.row) == block[0];
    PrintRow(t, s);
    var u := ExecAll(t, Glyphs(s));
    ExecConcat(t, Glyphs(s), [LF]);
    ExecOne(u, LF);
    var over := Overlay(block[0], 0, s);
    forall i: nat
      ensures RowAt(u.rows, i) == RowAt(committed + [over] + block[1..], i)
    {
      assert RowAt(t.rows, i) == RowAt(committed + block, i);
    }
  }

  // ----- a title of two rows

  lemma TwoRowOps(t: Terminal, head: string, tail: string)
    ensures var u := ExecAll(Exec(t, CR), PaintRow(head));
            ExecAll(t, PaintOps([head + ['\n'] + tail])) == Exec(ExecAll(Exec(u, LF), Glyphs(tail)), CR)
  {
    hide Glyphs, ExecAll;
    var title := head + ['\n'] + tail;
    GlyphsAround(head, '\n', tail);
    LineGlyph();
    assert PaintRow(title) == PaintRow(head) + ([LF] + Glyphs(tail));
    PaintOpsStep(t, [title]);
    assert [title][1..] == [] && PaintDown([]) == [] && Rise(0) == [];
    hide PaintRow, PaintOps, PaintDown, Rise;
    var start := Exec(t, CR);
    ExecNone(ExecAll(start, PaintRow(title)));
    ExecConcat(start, PaintRow(head), [LF] + Glyphs(tail));
    var u := ExecAll(start, PaintRow(head));
    ExecConcat(u, [LF], Glyphs(tail));
    ExecOne(u, LF);
  }

  lemma ExecNone(t: Terminal)
    ensures ExecAll(t, []) == t
  {
  }

  lemma LineGlyph()
    ensures Glyphs(['\n']) == [LF]
  {
    assert Glyphs(['\n']) == [LF] + Glyphs(['\n'][1..]);
  }

  /** A repaint of a two-row title comes back only to its second row: the first stays behind. */
  lemma TwoRowTitleClimbs(t: Terminal, committed: seq<string>, block: seq<string>, head: string, tail: string)
    requires |block| <= 1 && Shows(t, committed, block) && OneRow(head) && OneRow(tail)
    ensures Shows(ExecAll(t, PaintOps([head + ['\n'] + tail])), committed + [head], [tail])
  {
    hide ExecAll, Glyphs, PaintRow, PaintOps, Overlay;
    TwoRowOps(t, head, tail);
    PaintOne(Exec(t, CR), head);
    SettledAsIs(head);
    var u := Exec(ExecAll(Exec(t, CR), PaintRow(head)), LF);
    assert RowAt(t.rows, t.row + 1) == RowAt(committed + block, t.row + 1) == "";
    PrintRow(u, tail);
    OverlayAtStart("", tail);
    var v := Exec(ExecAll(u, Glyphs(tail)), CR);
    forall i: nat ensures RowAt(v.rows, i) == RowAt(committed + [head] + [tail], i) {
      assert RowAt(t.rows, i) == RowAt(committed + block, i);
    }
  }

  function Repeated(ops: seq<Op>, n: nat): seq<Op> {
    if n == 0 then [] else Repeated(ops, n - 1) + ops
  }

  /** With every beat of the ticker the transcript grows by the title's first row. */
  lemma {:induction false} TwoRowTitleRepeats(t: Terminal, committed: seq<string>, head: string, tail: string, n: nat)
    requires Shows(t, committed, []) && OneRow(head) && OneRow(tail)
    ensures Shows(ExecAll(t, Repeated(PaintOps([head + ['\n'] + tail]), n)),
                  committed + seq(n, _ => head), if n == 0 then [] else [tail])
  {
    hide ExecAll, PaintOps, Shows;
    var ops := PaintOps([head + ['\n'] + tail]);
    if n == 0 {
      ExecNone(t);
      assert committed + seq(n, _ => head) == committed;
    } else {
      TwoRowTitleRepeats(t, committed, head, tail, n - 1);
      var before := Repeated(ops, n - 1);
      ExecConcat(t, before, ops);
      TwoRowTitleClimbs(ExecAll(t, before), committed + seq(n - 1, _ => head),
                        if n == 1 then [] else [tail], head, tail);
      assert committed + seq(n - 1, _ => head) + [head] == committed + seq(n, _ => head);
    }
  }
}
