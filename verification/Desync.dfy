/** What a connection handles after an unknown tag: its buffer is dropped, but it goes on reading. */
module Desync {
  import opened Common
  import opened Framing
  import opened Reassembly

  const READ_CHUNK_SIZE := 65536

  /** Every chunk is what one read can return before the end of the stream. */
  ghost predicate ReadSizes(chunks: seq<seq<Byte>>) {
    forall c <- chunks :: 1 <= |c| <= READ_CHUNK_SIZE
  }

  ghost predicate Reads(chunks: seq<seq<Byte>>, s: seq<Byte>) {
    Concat(chunks) == s && ReadSizes(chunks)
  }

  /** Every way of reading the stream handles the frames before its first unknown tag and no others. */
  ghost predicate NothingBeyondTag(s: seq<Byte>) {
    forall chunks :: Reads(chunks, s) ==> ReceiveAll(OPENED, chunks).handled == ParseAll(s).frames
  }

  /** Some byte of `u[from..from + READ_CHUNK_SIZE]` is no known tag. */
  ghost predicate BadTagWithin(u: seq<Byte>, from: nat)
    requires from + READ_CHUNK_SIZE <= |u|
  {
    exists k :: from <= k < from + READ_CHUNK_SIZE && TagOf(u[k]).None?
  }

  /** Where the buffer can be empty when `u` starts with an unknown tag: no stretch before `i` as long as a full
      read consists of known tags only. Within one read of the start, that is everywhere. */
  ghost predicate CanBeEmptyAt(u: seq<Byte>, i: nat) {
    1 <= i <= |u| && forall from: nat :: from + READ_CHUNK_SIZE <= i ==> BadTagWithin(u, from)
  }

  /** No frame can be read from a position of `u` at which the buffer can be empty. */
  ghost predicate NoFrameWhereEmpty(u: seq<Byte>) {
    forall i: nat :: CanBeEmptyAt(u, i) ==> !DecodeFrame(u[i..]).Decoded?
  }

  // ---------- reads that lead to a frame beyond the tag

  /** The stream read one byte at a time. */
  function Singles(s: seq<Byte>): (chunks: seq<seq<Byte>>)
    ensures ReadSizes(chunks)
  {
    if s == [] then [] else [[s[0]]] + Singles(s[1..])
  }

  lemma {:induction false} SinglesConcat(s: seq<Byte>)
    ensures Concat(Singles(s)) == s
  {
    if s != [] {
      SinglesConcat(s[1..]);
      assert Singles(s)[1..] == Singles(s[1..]);
    }
  }

  /** A chunk that starts with an unknown tag and meets an empty buffer is dropped. */
  lemma BadChunkDropped(c: Conn, chunk: seq<Byte>)
    requires c.buffer == [] && chunk != [] && TagOf(chunk[0]).None?
    ensures Receive(c, chunk).buffer == [] && Receive(c, chunk).handled == c.handled
  {
    assert [] + chunk == chunk && c.handled + [] == c.handled;
  }

  /** Reads of `u[..i]` that leave the buffer empty and handle nothing. */
  lemma {:induction false} ReadsToEmpty(u: seq<Byte>, i: nat, c: Conn) returns (chunks: seq<seq<Byte>>)
    requires CanBeEmptyAt(u, i) && TagOf(u[0]).None? && c.buffer == []
    ensures Reads(chunks, u[..i])
    ensures ReceiveAll(c, chunks).buffer == [] && ReceiveAll(c, chunks).handled == c.handled
  {
    hide Receive, ReceiveAll, Concat, TagOf;
    if i <= READ_CHUNK_SIZE {
      chunks := [u[..i]];
      BadChunkDropped(c, u[..i]);
      OneChunk(c, u[..i]);
    } else {
      assert BadTagWithin(u, i - READ_CHUNK_SIZE);
      var k :| i - READ_CHUNK_SIZE <= k < i && TagOf(u[k]).None?;
      var earlier := ReadsToEmpty(u, k, c);
      chunks := earlier + [u[k..i]];
      BadChunkDropped(ReceiveAll(c, earlier), u[k..i]);
      ReceiveLast(c, earlier, u[k..i]);
      assert u[..k] + u[k..i] == u[..i];
    }
  }

  /** What was handled before has no influence on what is handled next. */
  lemma {:induction false} HandledShift(h: seq<Frame>, c: Conn, d: Conn, chunks: seq<seq<Byte>>)
    requires c.buffer == d.buffer && c.handled == h + d.handled
    ensures ReceiveAll(c, chunks).handled == h + ReceiveAll(d, chunks).handled
    decreases |chunks|
  {
    hide ParseAll;
    if chunks != [] {
      Associative(h, d.handled, ParseAll(d.buffer + chunks[0]).frames);
      HandledShift(h, Receive(c, chunks[0]), Receive(d, chunks[0]), chunks[1..]);
    }
  }

  /** Whole frames, read byte by byte, leave an empty buffer. */
  lemma ReadsToTag(fs: seq<Frame>)
    requires AllFit(fs)
    ensures var c := ReceiveAll(OPENED, Singles(Stream(fs))); c.buffer == [] && c.handled == fs
  {
    hide ReceiveAll, ParseAll, Stream;
    EmptyTailIsCut();
    ParseStream(fs, []);
    assert Stream(fs) + [] == Stream(fs);
    SinglesConcat(Stream(fs));
    ChunkInvariance(Singles(Stream(fs)));
  }

  /** A frame at the start of what is read with an empty buffer is handled. */
  lemma ReadsFrame(c: Conn, s: seq<Byte>)
    requires c.buffer == [] && DecodeFrame(s).Decoded?
    ensures |ReceiveAll(c, Singles(s)).handled| > |c.handled|
  {
    assert ParseAll(s).frames != [];
    hide ReceiveAll, ParseAll;
    SinglesConcat(s);
    ChunkInvariance(Singles(s));
    assert c.handled + [] == c.handled;
    HandledShift(c.handled, c, OPENED, Singles(s));
  }

  lemma FrameBeyondBadTag(s: seq<Byte>, i: nat)
    requires ParseAll(s).desync && CanBeEmptyAt(ParseAll(s).rest, i) && DecodeFrame(ParseAll(s).rest[i..]).Decoded?
    ensures !NothingBeyondTag(s)
  {
    var p := ParseAll(s);
    ParseIsExact(s);
    DecodeExactly(p.rest);
    hide ParseAll, ReceiveAll, DecodeFrame, Concat, Stream, TagOf;
    var first, u := Singles(Stream(p.frames)), p.rest;
    ReadsToTag(p.frames);
    var skip := ReadsToEmpty(u, i, ReceiveAll(OPENED, first));
    var last := Singles(u[i..]);
    ReadsFrame(ReceiveAll(ReceiveAll(OPENED, first), skip), u[i..]);
    ReceiveAppend(OPENED, first, skip);
    ReceiveAppend(OPENED, first + skip, last);
    ConcatAppend(first, skip);
    ConcatAppend(first + skip, last);
    SinglesConcat(Stream(p.frames));
    SinglesConcat(u[i..]);
    Associative(Stream(p.frames), u[..i], u[i..]);
    assert u[..i] + u[i..] == u;
    assert Reads(first + skip + last, s);
  }

  // ---------- no reads do

  /** The buffer is a stretch of `u` before `j`, from a position where it can be empty, and starts no frame. */
  ghost predicate Lingers(buffer: seq<Byte>, u: seq<Byte>, j: nat) {
    j <= |u| && exists i: nat :: CanBeEmptyAt(u, i) && LingersFrom(buffer, u, i, j)
  }

  ghost predicate LingersFrom(buffer: seq<Byte>, u: seq<Byte>, i: nat, j: nat)
    requires j <= |u|
  {
    i <= j && buffer == u[i..j] && (i < j ==> TagOf(u[i]).Some?)
  }

  /** Until the bad tag the connection tracks the stream; after it, nothing more is handled. */
  ghost predicate BeforeOrBeyond(c: Conn, seen: seq<Byte>, s: seq<Byte>) {
    var p := ParseAll(s);
    var start := |Stream(p.frames)|;
    && seen <= s
    && if |seen| <= start then Tracks(c, seen)
       else c.handled == p.frames && Lingers(c.buffer, p.rest, |seen| - start)
  }

  lemma {:induction false} NothingBeyondBadTag(c: Conn, seen: seq<Byte>, chunks: seq<seq<Byte>>, s: seq<Byte>)
    requires ParseAll(s).desync && NoFrameWhereEmpty(ParseAll(s).rest)
    requires BeforeOrBeyond(c, seen, s) && seen + Concat(chunks) == s && ReadSizes(chunks)
    ensures ReceiveAll(c, chunks).handled == ParseAll(s).frames
    decreases |chunks|
  {
    if chunks == [] {
      assert seen == s;
      ParseIsExact(s);
    } else {
      var more := seen + chunks[0];
      assert more + Concat(chunks[1..]) == s;
      assert chunks[0] in chunks && forall c <- chunks[1..] :: c in chunks;
      StaysBeyond(c, seen, chunks[0], s);
      hide BeforeOrBeyond, NoFrameWhereEmpty;
      NothingBeyondBadTag(Receive(c, chunks[0]), more, chunks[1..], s);
    }
  }

  lemma ChunkWithin(front: seq<Byte>, rest: seq<Byte>, seen: seq<Byte>, chunk: seq<Byte>)
    requires seen + chunk <= front + rest
    ensures |seen| > |front| ==> chunk == rest[|seen| - |front|..|seen| + |chunk| - |front|]
    ensures |seen| + |chunk| > |front| ==> seen + chunk == front + rest[..|seen| + |chunk| - |front|]
  {
    var n := |seen| + |chunk|;
    assert seen + chunk == (front + rest)[..n];
    if |seen| > |front| {
      assert chunk == (seen + chunk)[|seen|..] == (front + rest)[|seen|..n];
    }
  }

  lemma StaysBeyond(c: Conn, seen: seq<Byte>, chunk: seq<Byte>, s: seq<Byte>)
    requires ParseAll(s).desync && NoFrameWhereEmpty(ParseAll(s).rest)
    requires BeforeOrBeyond(c, seen, s) && seen + chunk <= s && 1 <= |chunk| <= READ_CHUNK_SIZE
    ensures BeforeOrBeyond(Receive(c, chunk), seen + chunk, s)
  {
    var p, more := ParseAll(s), seen + chunk;
    var start := |Stream(p.frames)|;
    ParseIsExact(s);
    hide ParseAll, Receive, NoFrameWhereEmpty, Lingers, Stream;
    ChunkWithin(Stream(p.frames), p.rest, seen, chunk);
    if |seen| > start {
      LingersOn(c, p.rest, |seen| - start, |more| - start);
    } else {
      ReceiveTracks(c, seen, chunk);
      if |more| > start {
        FirstBeyond(c, seen, chunk, p.frames, p.rest, |more| - start);
      }
    }
  }

  /** The chunk that brings the bad tag: the buffer is dropped. */
  lemma BadTagDrops(c: Conn, seen: seq<Byte>, chunk: seq<Byte>, fs: seq<Frame>, u: seq<Byte>, j: nat)
    requires AllFit(fs) && DecodeFrame(u) == UnknownTag && 1 <= j <= |u|
    requires |seen| <= |Stream(fs)| && seen + chunk == Stream(fs) + u[..j] && Tracks(c, seen)
    ensures Receive(c, chunk).handled == fs && Receive(c, chunk).buffer == []
  {
    BadTagStays(u, j);
    hide ParseAll, Receive, Stream, DecodeFrame, Tracks, CutTail, AllFit, TagOf;
    ParseThenBad(fs, u[..j]);
    PrefixOfWhole(seen, chunk, Stream(fs), u[..j]);
    EmptyTailIsCut();
    ParsePrefix(fs, [], seen);
    DesyncDrops(c, seen, chunk);
  }

  lemma FirstBeyond(c: Conn, seen: seq<Byte>, chunk: seq<Byte>, fs: seq<Frame>, u: seq<Byte>, j: nat)
    requires AllFit(fs) && DecodeFrame(u) == UnknownTag && 1 <= j <= |u| && j <= READ_CHUNK_SIZE
    requires |seen| <= |Stream(fs)| && seen + chunk == Stream(fs) + u[..j] && Tracks(c, seen)
    ensures Receive(c, chunk).handled == fs && Lingers(Receive(c, chunk).buffer, u, j)
  {
    BadTagStays(u, j);
    hide Receive, Stream, DecodeFrame, Tracks, CanBeEmptyAt, TagOf;
    BadTagDrops(c, seen, chunk, fs, u, j);
    EmptyNearTag(u, j);
    assert LingersFrom([], u, j, j);
  }

  lemma PrefixOfWhole(seen: seq<Byte>, chunk: seq<Byte>, a: seq<Byte>, b: seq<Byte>)
    requires |seen| <= |a| && seen + chunk == a + b
    ensures seen <= a + []
  {
    assert seen == (a + b)[..|seen|] == a[..|seen|] && a + [] == a;
  }

  lemma BadTagStays(u: seq<Byte>, j: nat)
    requires DecodeFrame(u) == UnknownTag && 1 <= j <= |u|
    ensures DecodeFrame(u[..j]) == UnknownTag && TagOf(u[0]).None?
  {
  }

  lemma EmptyNearTag(u: seq<Byte>, j: nat)
    requires 1 <= j <= |u| && j <= READ_CHUNK_SIZE && TagOf(u[0]).None?
    ensures CanBeEmptyAt(u, j)
  {
    forall from: nat | from + READ_CHUNK_SIZE <= j
      ensures BadTagWithin(u, from)
    {
      assert from == 0;
    }
  }

  lemma DesyncDrops(c: Conn, seen: seq<Byte>, chunk: seq<Byte>)
    requires Tracks(c, seen) && !ParseAll(seen).desync && ParseAll(seen + chunk).desync
    ensures Receive(c, chunk).handled == ParseAll(seen + chunk).frames && Receive(c, chunk).buffer == []
  {
    hide ParseAll;
    ParseExtends(seen, chunk);
  }

  lemma {:induction false} ParseThenBad(fs: seq<Frame>, bad: seq<Byte>)
    requires AllFit(fs) && DecodeFrame(bad) == UnknownTag
    ensures ParseAll(Stream(fs) + bad) == Parse(fs, bad, true)
  {
    hide DecodeFrame, FrameBytes;
    if fs == [] {
      assert Stream(fs) + bad == bad;
    } else {
      StartsWithFrame(fs, bad);
      ParseThenBad(fs[1..], bad);
    }
  }

  lemma LingersOn(c: Conn, u: seq<Byte>, j: nat, e: nat)
    requires NoFrameWhereEmpty(u) && Lingers(c.buffer, u, j) && j < e <= |u| && e - j <= READ_CHUNK_SIZE
    ensures Receive(c, u[j..e]).handled == c.handled && Lingers(Receive(c, u[j..e]).buffer, u, e)
  {
    hide Receive, DecodeFrame;
    var i: nat :| CanBeEmptyAt(u, i) && LingersFrom(c.buffer, u, i, j);
    NotDecoded(u, i, e);
    DecodeExactly(u[i..e]);
    hide NoFrameWhereEmpty, CanBeEmptyAt;
    assert c.buffer + u[j..e] == u[i..e];
    ReceiveNoFrame(c, u[j..e]);
    if TagOf(u[i]).None? {
      EmptyFurther(u, i, e);
      assert LingersFrom([], u, e, e);
    } else {
      assert LingersFrom(u[i..e], u, i, e);
    }
  }

  lemma NotDecoded(u: seq<Byte>, i: nat, e: nat)
    requires NoFrameWhereEmpty(u) && CanBeEmptyAt(u, i) && i <= e <= |u|
    ensures !DecodeFrame(u[i..e]).Decoded?
  {
    assert u[i..e] + u[e..] == u[i..];
    if DecodeFrame(u[i..e]).Decoded? {
      DecodeExtends(u[i..e], u[e..]);
    }
  }

  lemma EmptyFurther(u: seq<Byte>, i: nat, e: nat)
    requires CanBeEmptyAt(u, i) && i < e <= |u| && e - i <= READ_CHUNK_SIZE && TagOf(u[i]).None?
    ensures CanBeEmptyAt(u, e)
  {
    forall from: nat | from + READ_CHUNK_SIZE <= e
      ensures BadTagWithin(u, from)
    {
      if from + READ_CHUNK_SIZE > i {
        assert from <= i < from + READ_CHUNK_SIZE;
      }
    }
  }

  lemma ReceiveNoFrame(c: Conn, chunk: seq<Byte>)
    requires !DecodeFrame(c.buffer + chunk).Decoded?
    ensures var d := Receive(c, chunk);
            && d.handled == c.handled
            && d.buffer == if DecodeFrame(c.buffer + chunk).UnknownTag? then [] else c.buffer + chunk
  {
    assert c.handled + [] == c.handled;
  }

  // ---------- the condition

  /** A stream is read as if the connection had been dropped at its first unknown tag, whatever the reads, exactly
      when it has none, or no frame starts at a position beyond it where some sequence of reads leaves the buffer
      empty. */
  lemma NothingBeyondTagExactly(s: seq<Byte>)
    ensures NothingBeyondTag(s) <==> !ParseAll(s).desync || NoFrameWhereEmpty(ParseAll(s).rest)
  {
    var p := ParseAll(s);
    hide ParseAll, ReceiveAll, DecodeFrame, Reads;
    if !p.desync {
      forall chunks | Reads(chunks, s)
        ensures ReceiveAll(OPENED, chunks).handled == p.frames
      {
        ReadsConcat(chunks, s);
        ChunkInvariance(chunks);
      }
    } else if NoFrameWhereEmpty(p.rest) {
      forall chunks | Reads(chunks, s)
        ensures ReceiveAll(OPENED, chunks).handled == p.frames
      {
        ReadsConcat(chunks, s);
        NewConnection(s);
        NothingBeyondBadTag(OPENED, [], chunks, s);
      }
    } else {
      var i: nat :| CanBeEmptyAt(p.rest, i) && DecodeFrame(p.rest[i..]).Decoded?;
      FrameBeyondBadTag(s, i);
    }
  }

  lemma ReadsConcat(chunks: seq<seq<Byte>>, s: seq<Byte>)
    requires Reads(chunks, s)
    ensures Concat(chunks) == s == [] + Concat(chunks) && ReadSizes(chunks)
  {
  }

  lemma NewConnection(s: seq<Byte>)
    ensures BeforeOrBeyond(OPENED, [], s)
  {
  }

  /** A stream whose handled frames depend on how it was read: an unknown tag followed by an empty frame. */
  lemma BadTagDependsOnChunks()
    ensures var frame := Frame(SampleBatchTag, []);
            var s := [9] + FrameBytes(frame);
            && Reads([s], s) && ReceiveAll(OPENED, [s]).handled == []
            && Reads([[9], FrameBytes(frame)], s) && ReceiveAll(OPENED, [[9], FrameBytes(frame)]).handled == [frame]
  {
    var frame := Frame(SampleBatchTag, []);
    var bytes := FrameBytes(frame);
    BadChunkDropped(OPENED, [9] + bytes);
    BadChunkDropped(OPENED, [9]);
    ParseOneFrame(frame);
    hide ReceiveAll, Receive, ParseAll, FrameBytes, Concat;
    OneChunk(OPENED, [9] + bytes);
    OneChunk(OPENED, [9]);
    ReceiveLast(OPENED, [[9]], bytes);
    assert [[9]] + [bytes] == [[9], bytes];
    ReceiveWhole(Receive(OPENED, [9]), bytes);
    assert [] + [frame] == [frame];
  }

  lemma ParseOneFrame(f: Frame)
    requires Fits(f)
    ensures ParseAll(FrameBytes(f)) == Parse([f], [], false)
  {
    EmptyTailIsCut();
    ParseStream([f], []);
    assert [f][1..] == [] && Stream([f]) + [] == FrameBytes(f);
  }

  lemma ReceiveWhole(c: Conn, chunk: seq<Byte>)
    requires c.buffer == []
    ensures Receive(c, chunk).handled == c.handled + ParseAll(chunk).frames
  {
    assert [] + chunk == chunk;
  }

  /** Beyond 65536 known tags the same frame is out of reach, so this stream is safe. */
  lemma FarFrameIsSafe()
    ensures var s := [9] + seq(65_536, _ => 1) + FrameBytes(Frame(SampleBatchTag, []));
            NothingBeyondTag(s) && DecodeFrame(s[65_537..]).Decoded?
  {
    var frame, ones := Frame(SampleBatchTag, []), seq(65_536, _ => 1);
    var s := [9] + ones + FrameBytes(frame);
    assert s[65_537..] == FrameBytes(frame) + [];
    DecodeEncoded(frame, []);
    assert DecodeFrame(s) == UnknownTag && ParseAll(s) == Parse([], s, true);
    hide FrameBytes, ParseAll;
    NothingBeyondTagExactly(s);
    OnesAreKnownTags(s);
    forall i: nat | CanBeEmptyAt(s, i)
      ensures !DecodeFrame(s[i..]).Decoded?
    {
      OnesAhead(s[i..]);
    }
  }

  /** With one byte less before it, a read that ends where the frame starts reaches it. */
  lemma NearFrameIsNot()
    ensures !NothingBeyondTag([9] + seq(65_535, _ => 1) + FrameBytes(Frame(SampleBatchTag, [])))
  {
    var frame, ones := Frame(SampleBatchTag, []), seq(65_535, _ => 1);
    var s := [9] + ones + FrameBytes(frame);
    assert s[65_536..] == FrameBytes(frame) + [];
    DecodeEncoded(frame, []);
    assert DecodeFrame(s) == UnknownTag && ParseAll(s) == Parse([], s, true);
    hide FrameBytes, ParseAll;
    NothingBeyondTagExactly(s);
    EmptyNearTag(s, 65_536);
  }

  lemma OnesAhead(s: seq<Byte>)
    requires 5 <= |s| < 0x100_0000 && s[0] == s[1] == 1
    ensures !DecodeFrame(s).Decoded?
  {
  }

  lemma OnesAreKnownTags(s: seq<Byte>)
    requires |s| > READ_CHUNK_SIZE && forall k :: 1 <= k <= READ_CHUNK_SIZE ==> s[k] == 1
    ensures forall i: nat :: CanBeEmptyAt(s, i) ==> i <= READ_CHUNK_SIZE
  {
    assert !BadTagWithin(s, 1);
  }
}
