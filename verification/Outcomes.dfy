/** Everything that reading a stream with unknown tags can lead to, and when all reads lead to the same. */
module Outcomes {
  import opened Common
  import opened Framing
  import opened Reassembly
  import opened Desync

  /** What the service handles of a stream is one of these sequences: the frames up to the first unknown tag, and
      then an outcome of the bytes beyond some position that the read which brings the tag can end at. */
  predicate MayHandle(s: seq<Byte>, handled: seq<Frame>)
    decreases |s|
  {
    ParseShrinks(s);
    var p := ParseAll(s);
    p.frames <= handled &&
    if !p.desync then handled == p.frames
    else exists e :: 1 <= e <= |p.rest| && e <= READ_CHUNK_SIZE && MayHandle(p.rest[e..], handled[|p.frames|..])
  }

  /** One of the outcomes: on an unknown tag, skip one byte. */
  function Skip(s: seq<Byte>): seq<Frame>
    decreases |s|
  {
    ParseShrinks(s);
    var p := ParseAll(s);
    if !p.desync then p.frames else p.frames + Skip(p.rest[1..])
  }

  /** At every unknown tag that parsing comes to, it makes no difference where the read that brings it ends. */
  predicate Settled(s: seq<Byte>)
    decreases |s|
  {
    ParseShrinks(s);
    var p := ParseAll(s);
    p.desync ==>
      forall e :: 1 <= e <= |p.rest| && e <= READ_CHUNK_SIZE ==>
        Skip(p.rest[e..]) == Skip(p.rest[1..]) && Settled(p.rest[e..])
  }

  lemma ParseShrinks(s: seq<Byte>)
    ensures |ParseAll(s).rest| <= |s|
    ensures ParseAll(s).desync ==> ParseAll(s).rest != []
  {
    ParseIsExact(s);
  }

  /** Two ways of reading the stream handle the same frames, whichever they are. */
  ghost predicate ReadsAgree(s: seq<Byte>) {
    forall a, b :: Reads(a, s) && Reads(b, s) ==> ReceiveAll(OPENED, a).handled == ReceiveAll(OPENED, b).handled
  }

  // ---------- every outcome is reached by some reads

  /** Reads of whole frames and an unknown tag, with what is dropped along with it. */
  lemma ReadsThroughTag(fs: seq<Frame>, u: seq<Byte>, e: nat) returns (chunks: seq<seq<Byte>>)
    requires AllFit(fs) && DecodeFrame(u) == UnknownTag && 1 <= e <= |u| && e <= READ_CHUNK_SIZE
    ensures Reads(chunks, Stream(fs) + u[..e])
    ensures ReceiveAll(OPENED, chunks).buffer == [] && ReceiveAll(OPENED, chunks).handled == fs
  {
    BadTagStays(u, e);
    hide ParseAll, Receive, ReceiveAll, DecodeFrame, Concat, Stream, TagOf;
    var first := Singles(Stream(fs));
    ReadsToTag(fs);
    SinglesConcat(Stream(fs));
    BadChunkDropped(ReceiveAll(OPENED, first), u[..e]);
    ReceiveLast(OPENED, first, u[..e]);
    chunks := first + [u[..e]];
  }

  lemma JoinReads(a: seq<Byte>, b: seq<Byte>, front: seq<seq<Byte>>, back: seq<seq<Byte>>)
    requires Reads(front, a) && Reads(back, b) && ReceiveAll(OPENED, front).buffer == []
    ensures Reads(front + back, a + b)
    ensures ReceiveAll(OPENED, front + back).handled
            == ReceiveAll(OPENED, front).handled + ReceiveAll(OPENED, back).handled
  {
    hide Receive, ReceiveAll, Concat;
    ConcatAppend(front, back);
    ReceiveAppend(OPENED, front, back);
    var c := ReceiveAll(OPENED, front);
    assert c.handled + [] == c.handled;
    HandledShift(c.handled, c, OPENED, back);
  }

  lemma {:induction false} OutcomeIsReached(s: seq<Byte>, handled: seq<Frame>) returns (chunks: seq<seq<Byte>>)
    requires MayHandle(s, handled)
    ensures Reads(chunks, s) && ReceiveAll(OPENED, chunks).handled == handled
    decreases |s|
  {
    var p := ParseAll(s);
    ParseIsExact(s);
    hide ParseAll, ReceiveAll, DecodeFrame, Stream, Concat;
    if !p.desync {
      chunks := Singles(s);
      SinglesConcat(s);
      ChunkInvariance(chunks);
    } else {
      var later := handled[|p.frames|..];
      var e :| 1 <= e <= |p.rest| && e <= READ_CHUNK_SIZE && MayHandle(p.rest[e..], later);
      var last := OutcomeIsReached(p.rest[e..], later);
      var front := ReadsThroughTag(p.frames, p.rest, e);
      hide Reads;
      JoinReads(Stream(p.frames) + p.rest[..e], p.rest[e..], front, last);
      TagSplit(Stream(p.frames), p.rest, e);
      chunks := front + last;
    }
  }

  lemma TagSplit(front: seq<Byte>, u: seq<Byte>, e: nat)
    requires e <= |u|
    ensures front + u[..e] + u[e..] == front + u
  {
    assert u[..e] + u[e..] == u;
  }

  // ---------- every way of reading has one of the outcomes

  /** The chunk that contains the byte at position `at`. */
  lemma {:induction false} Crossing(chunks: seq<seq<Byte>>, at: nat) returns (k: nat)
    requires at < |Concat(chunks)|
    ensures k < |chunks| && |Concat(chunks[..k])| <= at < |Concat(chunks[..k])| + |chunks[k]|
    decreases |chunks|
  {
    if at < |chunks[0]| {
      k := 0;
    } else {
      k := Crossing(chunks[1..], at - |chunks[0]|);
      k := k + 1;
      assert chunks[..k] == [chunks[0]] + chunks[1..][..k - 1];
      assert chunks[..k][1..] == chunks[1..][..k - 1];
    }
  }

  /** Reads of a stream, split at the chunk that brings its first unknown tag. */
  lemma SplitReads(s: seq<Byte>, chunks: seq<seq<Byte>>) returns (e: nat, last: seq<seq<Byte>>)
    requires ParseAll(s).desync && Reads(chunks, s)
    ensures var p := ParseAll(s);
            && 1 <= e <= |p.rest| && e <= READ_CHUNK_SIZE && Reads(last, p.rest[e..])
            && ReceiveAll(OPENED, chunks).handled == p.frames + ReceiveAll(OPENED, last).handled
  {
    var p := ParseAll(s);
    ParseIsExact(s);
    ParseShrinks(s);
    hide ParseAll, Receive, ReceiveAll, DecodeFrame, Stream, Tracks, Reads;
    ReadsConcat(chunks, s);
    var start := |Stream(p.frames)|;
    var k := Crossing(chunks, start);
    hide Concat;
    var seen, chunk := Concat(chunks[..k]), chunks[k];
    last := chunks[k + 1..];
    e := |seen| + |chunk| - start;
    CutAt(chunks, k, s);
    ChunkWithin(Stream(p.frames), p.rest, seen, chunk);
    NothingSeen();
    ReceiveAllTracks(OPENED, [], chunks[..k]);
    assert [] + seen == seen;
    BadTagDrops(ReceiveAll(OPENED, chunks[..k]), seen, chunk, p.frames, p.rest, e);
    assert p.frames + [] == p.frames;
    HandledShift(p.frames, ReceiveAll(OPENED, chunks[..k + 1]), OPENED, last);
    assert s[|seen| + |chunk|..] == p.rest[e..];
  }

  lemma NothingSeen()
    ensures Tracks(OPENED, [])
  {
  }

  lemma CutAt(chunks: seq<seq<Byte>>, k: nat, s: seq<Byte>)
    requires k < |chunks| && Concat(chunks) == s && ReadSizes(chunks)
    ensures var seen, chunk := Concat(chunks[..k]), chunks[k];
            && seen + chunk <= s && 1 <= |chunk| <= READ_CHUNK_SIZE
            && Reads(chunks[k + 1..], s[|seen| + |chunk|..])
            && ReceiveAll(OPENED, chunks[..k + 1]) == Receive(ReceiveAll(OPENED, chunks[..k]), chunk)
            && ReceiveAll(OPENED, chunks) == ReceiveAll(ReceiveAll(OPENED, chunks[..k + 1]), chunks[k + 1..])
  {
    hide Concat, Receive, ReceiveAll;
    var front, back := chunks[..k + 1], chunks[k + 1..];
    assert front == chunks[..k] + [chunks[k]] && chunks == front + back;
    assert chunks[k] in chunks && forall c <- back :: c in chunks;
    ReceiveLast(OPENED, chunks[..k], chunks[k]);
    ReceiveAppend(OPENED, front, back);
    ConcatAppend(front, back);
  }

  lemma {:induction false} ReadsHaveOutcome(s: seq<Byte>, chunks: seq<seq<Byte>>)
    requires Reads(chunks, s)
    ensures MayHandle(s, ReceiveAll(OPENED, chunks).handled)
    decreases |s|
  {
    ParseShrinks(s);
    var p, handled := ParseAll(s), ReceiveAll(OPENED, chunks).handled;
    hide ParseAll, ReceiveAll;
    if !p.desync {
      ReadsConcat(chunks, s);
      ChunkInvariance(chunks);
    } else {
      var e, last := SplitReads(s, chunks);
      ReadsHaveOutcome(p.rest[e..], last);
      assert handled[|p.frames|..] == ReceiveAll(OPENED, last).handled;
    }
  }

  /** The frames that some way of reading the stream handles are exactly its outcomes. */
  lemma OutcomesExactly(s: seq<Byte>, handled: seq<Frame>)
    ensures MayHandle(s, handled) <==>
            exists chunks :: Reads(chunks, s) && ReceiveAll(OPENED, chunks).handled == handled
  {
    hide MayHandle, Reads, ReceiveAll;
    if MayHandle(s, handled) {
      var chunks := OutcomeIsReached(s, handled);
    }
    if chunks :| Reads(chunks, s) && ReceiveAll(OPENED, chunks).handled == handled {
      ReadsHaveOutcome(s, chunks);
    }
  }

  // ---------- when there is only one outcome

  lemma {:induction false} SkipIsOutcome(s: seq<Byte>)
    ensures MayHandle(s, Skip(s))
    decreases |s|
  {
    ParseShrinks(s);
    var p := ParseAll(s);
    hide ParseAll;
    if p.desync {
      SkipIsOutcome(p.rest[1..]);
      assert Skip(s)[|p.frames|..] == Skip(p.rest[1..]);
    }
  }

  lemma {:induction false} SettledIsUnique(s: seq<Byte>, handled: seq<Frame>)
    requires Settled(s) && MayHandle(s, handled)
    ensures handled == Skip(s)
    decreases |s|
  {
    ParseShrinks(s);
    var p := ParseAll(s);
    hide ParseAll;
    if p.desync {
      var later := handled[|p.frames|..];
      var e :| 1 <= e <= |p.rest| && e <= READ_CHUNK_SIZE && MayHandle(p.rest[e..], later);
      SettledIsUnique(p.rest[e..], later);
      assert handled == p.frames + later;
    }
  }

  /** An outcome beyond the tag is the tail of an outcome. */
  lemma OutcomeBeyond(s: seq<Byte>, e: nat, later: seq<Frame>)
    requires ParseAll(s).desync && 1 <= e <= |ParseAll(s).rest| && e <= READ_CHUNK_SIZE
    requires MayHandle(ParseAll(s).rest[e..], later)
    ensures MayHandle(s, ParseAll(s).frames + later)
  {
    var p := ParseAll(s);
    hide ParseAll;
    assert (p.frames + later)[|p.frames|..] == later;
  }

  lemma {:induction false} UniqueIsSettled(s: seq<Byte>)
    requires forall handled :: MayHandle(s, handled) ==> handled == Skip(s)
    ensures Settled(s)
    decreases |s|
  {
    ParseShrinks(s);
    var p := ParseAll(s);
    if p.desync {
      var next := Skip(p.rest[1..]);
      assert Skip(s) == p.frames + next;
      hide ParseAll;
      forall e | 1 <= e <= |p.rest| && e <= READ_CHUNK_SIZE
        ensures Skip(p.rest[e..]) == next && Settled(p.rest[e..])
      {
        forall later | MayHandle(p.rest[e..], later)
          ensures later == next
        {
          OutcomeBeyond(s, e, later);
          assert (p.frames + later)[|p.frames|..] == later && (p.frames + next)[|p.frames|..] == next;
        }
        SkipIsOutcome(p.rest[e..]);
        UniqueIsSettled(p.rest[e..]);
      }
    }
  }

  /** All ways of reading a stream handle the same frames exactly when the stream is settled. */
  lemma ReadsAgreeExactly(s: seq<Byte>)
    ensures ReadsAgree(s) <==> Settled(s)
    ensures Settled(s) ==> forall chunks :: Reads(chunks, s) ==> ReceiveAll(OPENED, chunks).handled == Skip(s)
  {
    hide MayHandle, Settled, Skip, Reads, ReceiveAll;
    if Settled(s) {
      forall chunks | Reads(chunks, s)
        ensures ReceiveAll(OPENED, chunks).handled == Skip(s)
      {
        ReadsHaveOutcome(s, chunks);
        SettledIsUnique(s, ReceiveAll(OPENED, chunks).handled);
      }
    }
    if ReadsAgree(s) {
      SkipIsOutcome(s);
      var bytewise := OutcomeIsReached(s, Skip(s));
      forall handled | MayHandle(s, handled)
        ensures handled == Skip(s)
      {
        var chunks := OutcomeIsReached(s, handled);
      }
      UniqueIsSettled(s);
    }
  }

  /** Where nothing is ever handled beyond the tag, all reads agree. */
  lemma NothingBeyondIsSettled(s: seq<Byte>)
    requires NothingBeyondTag(s)
    ensures Settled(s)
  {
    ReadsAgreeExactly(s);
    hide Settled, Reads, ReceiveAll, ParseAll;
  }

  // ---------- a stream with a frame beyond the tag that all reads handle

  const ONE_LENGTH := 0x0101_0101 // the length that four bytes of value 1 announce

  function Ones(n: nat): (s: seq<Byte>)
    ensures |s| == n && forall i :: 0 <= i < n ==> s[i] == 1
  {
    seq(n, _ => 1)
  }

  /** A run of ones that is long enough for one frame, but not for two. */
  lemma ParseOnes(s: seq<Byte>)
    requires HEADER_LENGTH + ONE_LENGTH <= |s| < 2 * (HEADER_LENGTH + ONE_LENGTH) && s == Ones(|s|)
    ensures ParseAll(s).frames == [Frame(SampleBatchTag, Ones(ONE_LENGTH))] && !ParseAll(s).desync
  {
    var total := HEADER_LENGTH + ONE_LENGTH;
    var rest := s[total..];
    DecodeOnes(s);
    assert rest == Ones(|rest|);
    OnesIncomplete(rest);
    assert ParseAll(rest) == Parse([], rest, false);
    assert s[HEADER_LENGTH..total] == Ones(ONE_LENGTH);
    hide DecodeFrame;
  }

  lemma DecodeOnes(s: seq<Byte>)
    requires HEADER_LENGTH + ONE_LENGTH <= |s| && s[0] == s[1] == s[2] == s[3] == s[4] == 1
    ensures var total := HEADER_LENGTH + ONE_LENGTH;
            DecodeFrame(s) == Decoded(Frame(SampleBatchTag, s[HEADER_LENGTH..total]), total)
  {
  }

  lemma OnesIncomplete(s: seq<Byte>)
    requires |s| < HEADER_LENGTH + ONE_LENGTH && s == Ones(|s|)
    ensures DecodeFrame(s) == Incomplete
  {
  }

  /** Agreeing does not mean stopping at the tag: this stream has a frame beyond it that all reads handle. */
  lemma AllReadsHandleBeyond()
    ensures var s, frame := [9] + Ones(17_000_000), Frame(SampleBatchTag, Ones(ONE_LENGTH));
            && (forall chunks :: Reads(chunks, s) ==> ReceiveAll(OPENED, chunks).handled == [frame])
            && !NothingBeyondTag(s)
  {
    var s, frame := [9] + Ones(17_000_000), Frame(SampleBatchTag, Ones(ONE_LENGTH));
    assert DecodeFrame(s) == UnknownTag && ParseAll(s) == Parse([], s, true);
    hide ParseAll, DecodeFrame, ReceiveAll, Reads;
    forall e | 1 <= e <= READ_CHUNK_SIZE
      ensures Skip(s[e..]) == [frame] && Settled(s[e..])
    {
      assert s[e..] == Ones(|s| - e);
      ParseOnes(s[e..]);
    }
    ReadsAgreeExactly(s);
    assert [] + Skip(s[1..]) == [frame];
    var chunks := Singles(s);
    SinglesRead(s);
    assert ReceiveAll(OPENED, chunks).handled != ParseAll(s).frames;
  }

  lemma SinglesRead(s: seq<Byte>)
    ensures Reads(Singles(s), s)
  {
    SinglesConcat(s);
  }
}
