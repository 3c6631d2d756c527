/**
 Line framing of a byte stream that arrives in arbitrary chunks, as the event
 renderer, the progress filter and the apply-result filter all do it: complete
 lines are handed on, the unfinished tail is carried to the next write.
 */
module Framing {
  import opened Text

  /** The complete lines of a stream so far. */
  function Complete(data: string): (lines: seq<string>)
    decreases |data|
  {
    var i := IndexOf(data, '\n');
    if i == |data| then [] else [data[..i]] + Complete(data[i + 1..])
  }

  /** The unfinished line at its end. */
  function Rest(data: string): (rest: string)
    ensures '\n' !in rest
    decreases |data|
  {
    var i := IndexOf(data, '\n');
    if i == |data| then data else Rest(data[i + 1..])
  }

  function Concat(chunks: seq<string>): string {
    if chunks == [] then "" else chunks[0] + Concat(chunks[1..])
  }

  /** Framing a write that finds `left` carried over from the previous ones. */
  function FramedLines(left: string, chunks: seq<string>): seq<string>
    decreases |chunks|
  {
    if chunks == [] then []
    else Complete(left + chunks[0]) + FramedLines(Rest(left + chunks[0]), chunks[1..])
  }

  function FramedRest(left: string, chunks: seq<string>): string
    decreases |chunks|
  {
    if chunks == [] then left
    else FramedRest(Rest(left + chunks[0]), chunks[1..])
  }

  /** The lines back as a stream, each with its newline. */
  function Unframe(lines: seq<string>): string {
    if lines == [] then "" else lines[0] + ['\n'] + Unframe(lines[1..])
  }

  lemma FrameNone(data: string)
    requires '\n' !in data
    ensures Complete(data) == [] && Rest(data) == data
  {
  }

  lemma FrameStep(head: string, tail: string)
    requires '\n' !in head
    ensures Complete(head + ['\n'] + tail) == [head] + Complete(tail)
    ensures Rest(head + ['\n'] + tail) == Rest(tail)
  {
    hide IndexOf;
    var data := head + ['\n'] + tail;
    IndexOfAt(head, '\n', tail);
    assert data[..|head|] == head && data[|head| + 1..] == tail;
  }

  lemma CutAtNewline(data: string) returns (head: string, tail: string)
    requires '\n' in data
    ensures '\n' !in head && data == head + ['\n'] + tail
  {
    var i := IndexOf(data, '\n');
    head, tail := data[..i], data[i + 1..];
  }

  /** Nothing of the stream is lost or invented by framing. */
  lemma {:induction false} Conserves(data: string)
    ensures data == Unframe(Complete(data)) + Rest(data)
    ensures forall line | line in Complete(data) :: '\n' !in line
    decreases |data|
  {
    hide Complete, Rest;
    if '\n' !in data {
      FrameNone(data);
    } else {
      var head, tail := CutAtNewline(data);
      FrameStep(head, tail);
      Conserves(tail);
      assert ([head] + Complete(tail))[1..] == Complete(tail);
    }
  }

  lemma {:induction false} FrameTwice(a: string, b: string)
    ensures Complete(a + b) == Complete(a) + Complete(Rest(a) + b)
    ensures Rest(a + b) == Rest(Rest(a) + b)
    decreases |a|
  {
    hide Complete, Rest;
    if '\n' !in a {
      FrameNone(a);
    } else {
      var head, tail := CutAtNewline(a);
      FrameStep(head, tail);
      assert a + b == head + ['\n'] + (tail + b);
      FrameStep(head, tail + b);
      FrameTwice(tail, b);
    }
  }

  /** However a stream is cut into writes, the lines and the tail are the same. */
  lemma {:induction false} ChunksDoNotMatter(left: string, chunks: seq<string>)
    requires '\n' !in left
    ensures FramedLines(left, chunks) == Complete(left + Concat(chunks))
    ensures FramedRest(left, chunks) == Rest(left + Concat(chunks))
    decreases |chunks|
  {
    if chunks == [] {
      assert left + "" == left;
    } else {
      var now, later := left + chunks[0], Concat(chunks[1..]);
      assert left + Concat(chunks) == now + later;
      FrameTwice(now, later);
      ChunksDoNotMatter(Rest(now), chunks[1..]);
    }
  }
}
