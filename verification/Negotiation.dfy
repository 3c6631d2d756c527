/**
 The writer that peeks at the server's first line and then routes the whole
 stream to one of two renderers.
 */
module Negotiation {
  import opened Outcomes
  import opened Text
  import opened Framing
  import Transcript

  /** A downstream writer; a failed write delivers nothing. */
  class Sink {
    var received: string
    var closed: bool

    constructor ()
      ensures received == "" && !closed
    {
      received, closed := "", false;
    }

    method Write(p: string) returns (ok: bool)
      modifies this
      ensures received == (if ok then old(received) + p else old(received)) && closed == old(closed)
    {
      ok := *;
      if ok {
        received := received + p;
      }
    }

    method Close()
      modifies this
      ensures received == old(received) && closed
    {
      closed := true;
    }
  }

  /** Line one is a hello with exactly the client's protocol version. */
  predicate IsHello(decode: Transcript.Decoder, line: string) {
    decode(TrimSpace(line)) == Some(Transcript.Hello(Transcript.PROTOCOL_VERSION))
  }

  /** The renderer a stream belongs to: NDJSON, or else the legacy one. */
  predicate SpeaksNdjson(decode: Transcript.Decoder, stream: string) {
    '\n' in stream && IsHello(decode, stream[..IndexOf(stream, '\n')])
  }

  /** Nothing after the first newline can change the choice. */
  lemma LineOneDecides(decode: Transcript.Decoder, stream: string, more: string)
    requires '\n' in stream
    ensures SpeaksNdjson(decode, stream + more) == SpeaksNdjson(decode, stream)
  {
    var i := IndexOf(stream, '\n');
    var line, rest := stream[..i], stream[i + 1..];
    assert stream + more == line + ['\n'] + (rest + more);
    IndexOfAt(line, '\n', rest + more);
    assert (stream + more)[..i] == line;
  }

  /** NDJSON is chosen exactly if the first line is complete and decodes to a hello with protocol ndjson/1. */
  lemma SpeaksNdjsonIff(decode: Transcript.Decoder, stream: string)
    ensures SpeaksNdjson(decode, stream) <==>
      exists line, rest :: stream == line + "\n" + rest && '\n' !in line
                           && decode(TrimSpace(line)) == Some(Transcript.Hello("ndjson/1"))
  {
    var i := IndexOf(stream, '\n');
    if i < |stream| {
      assert stream == stream[..i] + "\n" + stream[i + 1..];
    }
    if line, rest :| stream == line + "\n" + rest && '\n' !in line
                     && decode(TrimSpace(line)) == Some(Transcript.Hello("ndjson/1")) {
      IndexOfAt(line, '\n', rest);
      assert stream == line + ['\n'] + rest && stream[..|line|] == line;
    }
  }

  class NegotiatingWriter {
    const decode: Transcript.Decoder
    const legacy: Sink
    const ndjson: Sink

    var decided: bool
    var target: Sink
    var peek: string

    ghost var stream: string  // every byte written so far
    ghost var failed: bool    // some write downstream returned an error

    ghost function Chosen(): Sink
      reads this
    {
      if SpeaksNdjson(decode, stream) then ndjson else legacy
    }

    ghost function Other(): Sink
      reads this
    {
      if SpeaksNdjson(decode, stream) then legacy else ndjson
    }

    ghost predicate Valid()
      reads this, legacy, ndjson
    {
      && legacy != ndjson
      && (!decided ==> '\n' !in stream && peek == stream && !failed
                       && legacy.received == "" && ndjson.received == "")
      && (decided ==> target == Chosen() && peek == "" && Other().received == "")
      && (decided && !failed ==> target.received == stream)
    }

    constructor (decode: Transcript.Decoder, legacy: Sink, ndjson: Sink)
      requires legacy != ndjson && legacy.received == "" && ndjson.received == ""
      ensures Valid() && stream == "" && !failed && !decided
      ensures this.decode == decode && this.legacy == legacy && this.ndjson == ndjson
    {
      this.decode, this.legacy, this.ndjson := decode, legacy, ndjson;
      decided, target, peek := false, legacy, "";
      stream, failed := "", false;
    }

    method Write(p: string) returns (ok: bool)
      requires Valid() && (decided ==> '\n' in stream)
      modifies this, legacy, ndjson
      ensures Valid() && (decided <==> '\n' in stream)
      ensures stream == old(stream) + p
      ensures failed == (old(failed) || !ok)
      ensures legacy.closed == old(legacy.closed) && ndjson.closed == old(ndjson.closed)
    {
      if decided {
        LineOneDecides(decode, stream, p);
        ok := target.Write(p);
        stream, failed := stream + p, failed || !ok;
        return;
      }
      peek := peek + p;
      stream := stream + p;
      var idx := IndexOf(peek, '\n');
      if idx == |peek| {
        return true;
      }
      var firstLine, rest := peek[..idx], peek[idx + 1..];
      if IsHello(decode, firstLine) {
        decided, target := true, ndjson;
        var flush := firstLine + ['\n'] + rest;
        assert flush == stream;
        ok := ndjson.Write(flush);
      } else {
        decided, target := true, legacy;
        ok := legacy.Write(peek);
      }
      peek := "";
      failed := !ok;
    }

    /** A stream that never finished line one falls back to the legacy renderer. */
    method Close()
      requires Valid() && (decided ==> '\n' in stream)
      modifies this, legacy, ndjson
      ensures Valid() && decided && stream == old(stream) && legacy.closed && ndjson.closed
    {
      if !decided {
        if peek != "" {
          var ok := legacy.Write(peek);
          failed := !ok;
          peek := "";
        }
        decided, target := true, legacy;
      }
      legacy.Close();
      ndjson.Close();
    }
  }

  /**
   However the server's bytes are cut, one renderer gets all of them in order
   and the other gets none; which one, line one alone decides.
   */
  method Relay(decode: Transcript.Decoder, chunks: seq<string>) returns (w: NegotiatingWriter)
    ensures fresh(w) && w.legacy != w.ndjson
    ensures var stream := Concat(chunks);
            var ndjson := SpeaksNdjson(decode, stream);
            var chosen, other := if ndjson then w.ndjson else w.legacy, if ndjson then w.legacy else w.ndjson;
            && other.received == ""
            && (!w.failed ==> chosen.received == stream)
            && chosen.closed && other.closed
  {
    hide SpeaksNdjson, Concat;
    assert chunks[0..] == chunks;
    ConcatNone();
    var legacy := new Sink();
    var ndjson := new Sink();
    w := new NegotiatingWriter(decode, legacy, ndjson);
    for i := 0 to |chunks|
      invariant fresh(w) && fresh(w.legacy) && fresh(w.ndjson) && w.Valid() && w.decode == decode
      invariant w.stream + Concat(chunks[i..]) == Concat(chunks)
      invariant w.decided ==> '\n' in w.stream
    {
      ConcatFrom(chunks, i);
      ghost var before := w.stream;
      var ok := w.Write(chunks[i]);
      assert before + (chunks[i] + Concat(chunks[i + 1..])) == w.stream + Concat(chunks[i + 1..]);
    }
    assert chunks[|chunks|..] == [] && w.stream + "" == w.stream;
    w.Close();
  }

  lemma ConcatFrom(chunks: seq<string>, i: nat)
    requires i < |chunks|
    ensures Concat(chunks[i..]) == chunks[i] + Concat(chunks[i + 1..])
  {
    assert chunks[i..][1..] == chunks[i + 1..];
  }

  lemma ConcatNone()
    ensures Concat([]) == ""
  {
  }
}
