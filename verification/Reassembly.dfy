/** Reassembling frames from a byte stream that arrives in arbitrary chunks: the pure part of the
    ingestion service's connection loop. */
module Reassembly {
  import opened Common
  import opened Framing

  /** All frames at the front of a buffer, and what is left: an incomplete frame, or bytes that start
      with an unknown tag. */
  datatype Parse = Parse(frames: seq<Frame>, rest: seq<Byte>, desync: bool)

  function ParseAll(buffer: seq<Byte>): Parse
    decreases |buffer|
  {
    match DecodeFrame(buffer)
    case Incomplete => Parse([], buffer, false)
    case UnknownTag => Parse([], buffer, true)
    case Decoded(f, consumed) =>
      var tail := ParseAll(buffer[consumed..]);
      Parse([f] + tail.frames, tail.rest, tail.desync)
  }

  /** State of one connection: the unparsed buffer, the frames handled so far, and how many of them
      came before the first unknown tag, once there was one. */
  datatype Conn = Conn(buffer: seq<Byte>, handled: seq<Frame>, beforeBad: Option<nat>)

  const OPENED := Conn([], [], None)

  /** One drain of the buffer. An unknown tag clears the buffer, and the connection stays open. */
  function Drain(c: Conn): Conn {
    var p := ParseAll(c.buffer);
    Conn(
      if p.desync then [] else p.rest,
      c.handled + p.frames,
      if c.beforeBad.None? && p.desync then Some(|c.handled + p.frames|) else c.beforeBad)
  }

  function Receive(c: Conn, chunk: seq<Byte>): Conn {
    Drain(c.(buffer := c.buffer + chunk))
  }

  function ReceiveAll(c: Conn, chunks: seq<seq<Byte>>): Conn
    decreases |chunks|
  {
    if chunks == [] then c else ReceiveAll(Receive(c, chunks[0]), chunks[1..])
  }

  function Concat(chunks: seq<seq<Byte>>): seq<Byte> {
    if chunks == [] then [] else chunks[0] + Concat(chunks[1..])
  }

  /** What the service logs when the peer closes. */
  datatype EofReport = CleanEof | TruncatedFrame | PartialFrame

  function ReportEof(buffer: seq<Byte>): EofReport {
    if |buffer| >= HEADER_LENGTH then PartialFrame
    else if |buffer| > 0 then TruncatedFrame
    else CleanEof
  }

  // ---------- parsing in two goes

  function Prepend(f: Frame, p: Parse): Parse {
    p.(frames := [f] + p.frames)
  }

  /** `whole` is what parsing gives when the bytes `more` arrive after those of `part`. */
  ghost predicate Continues(part: Parse, more: seq<Byte>, whole: Parse) {
    if part.desync then whole == part.(rest := part.rest + more)
    else var q := ParseAll(part.rest + more); whole == q.(frames := part.frames + q.frames)
  }

  lemma {:induction false} ParseExtends(a: seq<Byte>, b: seq<Byte>)
    ensures Continues(ParseAll(a), b, ParseAll(a + b))
    decreases |a|
  {
    hide ParseAll, Continues;
    var d := DecodeFrame(a);
    if d.Decoded? {
      ParseExtends(a[d.consumed..], b);
      ParseFrameExtends(a, b);
      ContinuesPrepend(d.frame, ParseAll(a[d.consumed..]), b, ParseAll(a[d.consumed..] + b));
    } else {
      ParseStops(a, b);
    }
  }

  lemma ParseStops(a: seq<Byte>, b: seq<Byte>)
    requires !DecodeFrame(a).Decoded?
    ensures Continues(ParseAll(a), b, ParseAll(a + b))
  {
    if DecodeFrame(a).UnknownTag? {
      DecodeExtends(a, b);
    } else {
      assert [] + ParseAll(a + b).frames == ParseAll(a + b).frames;
    }
  }

  lemma ParseFrameExtends(a: seq<Byte>, b: seq<Byte>)
    requires DecodeFrame(a).Decoded?
    ensures var d := DecodeFrame(a);
            && ParseAll(a) == Prepend(d.frame, ParseAll(a[d.consumed..]))
            && ParseAll(a + b) == Prepend(d.frame, ParseAll(a[d.consumed..] + b))
  {
    hide DecodeFrame;
    var d := DecodeFrame(a);
    DecodeExtends(a, b);
    assert (a + b)[d.consumed..] == a[d.consumed..] + b;
  }

  lemma ContinuesPrepend(f: Frame, part: Parse, more: seq<Byte>, whole: Parse)
    requires Continues(part, more, whole)
    ensures Continues(Prepend(f, part), more, Prepend(f, whole))
  {
    hide ParseAll;
    Associative([f], part.frames, ParseAll(part.rest + more).frames);
  }

  /** The parse accounts for every byte, and the remainder cannot be parsed further. */
  lemma {:induction false} ParseIsExact(s: seq<Byte>)
    ensures var p := ParseAll(s);
            && AllFit(p.frames)
            && s == Stream(p.frames) + p.rest
            && DecodeFrame(p.rest) == if p.desync then UnknownTag else Incomplete
    decreases |s|
  {
    if DecodeFrame(s).Decoded? {
      var d := DecodeFrame(s);
      DecodedIsEncoded(s);
      ParseIsExact(s[d.consumed..]);
      var tail := ParseAll(s[d.consumed..]);
      StreamCons(d.frame, tail.frames, tail.rest);
    }
  }

  /** A stream of whole frames followed by a cut one parses back to those frames. */
  lemma {:induction false} ParseStream(fs: seq<Frame>, tail: seq<Byte>)
    requires AllFit(fs) && CutTail(tail)
    ensures ParseAll(Stream(fs) + tail) == Parse(fs, tail, false)
  {
    if fs == [] {
      assert Stream(fs) + tail == tail;
      CutTailIsIncomplete(tail);
    } else {
      StartsWithFrame(fs, tail);
      ParseStream(fs[1..], tail);
    }
  }

  /** Any prefix of such a stream parses to a prefix of the frames, and never loses its place. */
  lemma ParsePrefix(fs: seq<Frame>, tail: seq<Byte>, s: seq<Byte>)
    requires AllFit(fs) && CutTail(tail) && s <= Stream(fs) + tail
    ensures !ParseAll(s).desync && ParseAll(s).frames <= fs
  {
    var more := (Stream(fs) + tail)[|s|..];
    assert s + more == Stream(fs) + tail;
    ParseExtends(s, more);
    ParseStream(fs, tail);
  }

  // ---------- chunks in two goes

  lemma {:induction false} ConcatAppend(a: seq<seq<Byte>>, b: seq<seq<Byte>>)
    ensures Concat(a + b) == Concat(a) + Concat(b)
  {
    if a == [] {
      assert a + b == b;
    } else {
      ConcatAppend(a[1..], b);
      assert (a + b)[1..] == a[1..] + b;
      Associative(a[0], Concat(a[1..]), Concat(b));
    }
  }

  lemma {:induction false} ReceiveAppend(c: Conn, a: seq<seq<Byte>>, b: seq<seq<Byte>>)
    ensures ReceiveAll(c, a + b) == ReceiveAll(ReceiveAll(c, a), b)
    decreases |a|
  {
    hide Receive;
    if a == [] {
      assert a + b == b;
    } else {
      assert (a + b)[1..] == a[1..] + b;
      ReceiveAppend(Receive(c, a[0]), a[1..], b);
    }
  }

  lemma OneChunk(c: Conn, chunk: seq<Byte>)
    ensures Concat([chunk]) == chunk && ReceiveAll(c, [chunk]) == Receive(c, chunk)
  {
    hide Receive;
    assert [chunk][1..] == [] && chunk + Concat([]) == chunk;
    assert ReceiveAll(c, [chunk]) == ReceiveAll(Receive(c, chunk), []);
  }

  lemma ReceiveLast(c: Conn, chunks: seq<seq<Byte>>, chunk: seq<Byte>)
    ensures ReceiveAll(c, chunks + [chunk]) == Receive(ReceiveAll(c, chunks), chunk)
    ensures Concat(chunks + [chunk]) == Concat(chunks) + chunk
  {
    hide Receive, ReceiveAll, Concat;
    ReceiveAppend(c, chunks, [chunk]);
    ConcatAppend(chunks, [chunk]);
    OneChunk(ReceiveAll(c, chunks), chunk);
  }

  // ---------- chunk invariance

  /** The connection has seen exactly the bytes `s`, as far as the first unknown tag. */
  ghost predicate Tracks(c: Conn, s: seq<Byte>) {
    var p := ParseAll(s);
    && (c.beforeBad.Some? <==> p.desync)
    && (!p.desync ==> c.handled == p.frames && c.buffer == p.rest)
    && (p.desync ==> p.frames <= c.handled && c.beforeBad.value == |p.frames|)
  }

  lemma ReceiveTracks(c: Conn, s: seq<Byte>, chunk: seq<Byte>)
    requires Tracks(c, s)
    ensures Tracks(Receive(c, chunk), s + chunk)
  {
    ParseExtends(s, chunk);
  }

  lemma {:induction false} ReceiveAllTracks(c: Conn, s: seq<Byte>, chunks: seq<seq<Byte>>)
    requires Tracks(c, s)
    ensures Tracks(ReceiveAll(c, chunks), s + Concat(chunks))
    decreases |chunks|
  {
    if chunks == [] {
      assert s + Concat(chunks) == s;
    } else {
      ReceiveTracks(c, s, chunks[0]);
      Associative(s, chunks[0], Concat(chunks[1..]));
      ReceiveAllTracks(Receive(c, chunks[0]), s + chunks[0], chunks[1..]);
    }
  }

  /** However the stream is cut into chunks, the frames handled before the first unknown tag are those of a
      one-shot parse; with no unknown tag nothing else is handled and the buffer is the unparsed suffix. */
  lemma ChunkInvariance(chunks: seq<seq<Byte>>)
    ensures var p, c := ParseAll(Concat(chunks)), ReceiveAll(OPENED, chunks);
            && (c.beforeBad.Some? <==> p.desync)
            && (!p.desync ==> c.handled == p.frames && c.buffer == p.rest)
            && (p.desync ==> p.frames <= c.handled && c.beforeBad.value == |p.frames|)
  {
    ReceiveAllTracks(OPENED, [], chunks);
    assert [] + Concat(chunks) == Concat(chunks);
  }

  /** At end of stream, the report is decided by how much of the next frame had arrived. */
  lemma EofReportExactly(fs: seq<Frame>, tail: seq<Byte>, chunks: seq<seq<Byte>>)
    requires AllFit(fs) && CutTail(tail) && Concat(chunks) == Stream(fs) + tail
    ensures var c := ReceiveAll(OPENED, chunks);
            && c.handled == fs && c.buffer == tail && c.beforeBad == None
            && (ReportEof(c.buffer) == CleanEof <==> tail == [])
            && (ReportEof(c.buffer) == TruncatedFrame <==> 0 < |tail| < HEADER_LENGTH)
            && (ReportEof(c.buffer) == PartialFrame <==> |tail| >= HEADER_LENGTH)
  {
    ChunkInvariance(chunks);
    ParseStream(fs, tail);
  }
}
