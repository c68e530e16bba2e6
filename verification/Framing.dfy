/** The wire framing: a 1-byte tag, a 4-byte big-endian length, then the payload.
    The agent (C++) and the ingestion service (Python) each have their own decoder. */
module Framing {
  import opened Common

  const HEADER_LENGTH := 5
  const WORD := 0x1_0000_0000 // the length field is a uint32

  datatype FrameTag = SampleBatchTag | PhaseEventTag

  datatype Frame = Frame(tag: FrameTag, payload: seq<Byte>)

  datatype DecodeResult = Incomplete | UnknownTag | Decoded(frame: Frame, consumed: nat)

  function TagByte(tag: FrameTag): Byte {
    match tag
    case SampleBatchTag => 1
    case PhaseEventTag => 2
  }

  function TagOf(b: Byte): Option<FrameTag> {
    if b == 1 then Some(SampleBatchTag) else if b == 2 then Some(PhaseEventTag) else None
  }

  function BigEndian(n: nat): (word: seq<Byte>)
    requires n < WORD
    ensures |word| == 4
  {
    var high, low := n / 0x1_0000, n % 0x1_0000;
    [high / 0x100, high % 0x100, low / 0x100, low % 0x100]
  }

  function FromBigEndian(word: seq<Byte>): (n: nat)
    requires |word| == 4
    ensures n < WORD
  {
    var high: nat, low: nat := word[0] as nat * 0x100 + word[1], word[2] as nat * 0x100 + word[3];
    high * 0x1_0000 + low
  }

  lemma BigEndianInverse(n: nat, word: seq<Byte>)
    requires n < WORD && |word| == 4
    ensures FromBigEndian(BigEndian(n)) == n
    ensures BigEndian(FromBigEndian(word)) == word
  {
    var high: nat, low: nat := word[0] as nat * 0x100 + word[1], word[2] as nat * 0x100 + word[3];
    assert FromBigEndian(word) / 0x1_0000 == high && FromBigEndian(word) % 0x1_0000 == low;
  }

  /** The bytes of one frame. The length field keeps the low 32 bits of the payload size. */
  function FrameBytes(f: Frame): seq<Byte> {
    [TagByte(f.tag)] + BigEndian(|f.payload| % WORD) + f.payload
  }

  /** The payload size is representable in the length field. */
  predicate Fits(f: Frame) {
    |f.payload| < WORD
  }

  method EncodeFrame(tag: FrameTag, payload: seq<Byte>) returns (frame: seq<Byte>)
    ensures frame == FrameBytes(Frame(tag, payload))
  {
    frame := [];
    frame := frame + [TagByte(tag)];
    var length := |payload| % WORD;
    frame := frame + BigEndian(length);
    frame := frame + payload;
  }

  /** The ingestion service's decoder. It looks at the tag before it has the whole header. */
  function DecodeFrame(buffer: seq<Byte>): (r: DecodeResult)
    ensures r.Decoded? ==> HEADER_LENGTH <= r.consumed <= |buffer|
  {
    if |buffer| < 1 then Incomplete
    else if TagOf(buffer[0]).None? then UnknownTag
    else if |buffer| < HEADER_LENGTH then Incomplete
    else
      var total := HEADER_LENGTH + FromBigEndian(buffer[1..HEADER_LENGTH]);
      if |buffer| < total then Incomplete
      else Decoded(Frame(TagOf(buffer[0]).value, buffer[HEADER_LENGTH..total]), total)
  }

  /** The agent's decoder. It waits for the whole header before it looks at the tag, and has no
      separate answer for an unknown tag. */
  method DecodeFrameAgent(buffer: seq<Byte>) returns (result: Option<Frame>, consumed: nat)
    ensures result.Some? <==> DecodeFrame(buffer).Decoded?
    ensures result.Some? ==> DecodeFrame(buffer) == Decoded(result.value, consumed)
    ensures result.None? ==> consumed == 0
  {
    consumed := 0;
    if |buffer| < HEADER_LENGTH {
      return None, consumed;
    }
    var rawTag := buffer[0];
    if rawTag != TagByte(SampleBatchTag) && rawTag != TagByte(PhaseEventTag) {
      return None, consumed;
    }
    var length := FromBigEndian(buffer[1..5]);
    if |buffer| < HEADER_LENGTH + length {
      return None, consumed;
    }
    var tag := if rawTag == 1 then SampleBatchTag else PhaseEventTag;
    consumed := HEADER_LENGTH + length;
    return Some(Frame(tag, buffer[HEADER_LENGTH..HEADER_LENGTH + length])), consumed;
  }

  // ---------- decoding inverts encoding

  lemma DecodeEncoded(f: Frame, rest: seq<Byte>)
    requires Fits(f)
    ensures DecodeFrame(FrameBytes(f) + rest) == Decoded(f, |FrameBytes(f)|)
  {
    hide BigEndian, FromBigEndian;
    var buffer := FrameBytes(f) + rest;
    assert buffer[1..HEADER_LENGTH] == BigEndian(|f.payload|);
    BigEndianInverse(|f.payload|, BigEndian(|f.payload|));
    assert buffer[HEADER_LENGTH..HEADER_LENGTH + |f.payload|] == f.payload;
  }

  /** Whatever decodes is the encoding of the decoded frame, followed by the unread bytes. */
  lemma DecodedIsEncoded(buffer: seq<Byte>)
    requires DecodeFrame(buffer).Decoded?
    ensures var d := DecodeFrame(buffer);
            Fits(d.frame) && d.consumed == |FrameBytes(d.frame)| &&
            buffer == FrameBytes(d.frame) + buffer[d.consumed..]
  {
    hide BigEndian, FromBigEndian;
    var d := DecodeFrame(buffer);
    var word := buffer[1..HEADER_LENGTH];
    var n := FromBigEndian(word);
    assert |d.frame.payload| == n && d.consumed == HEADER_LENGTH + n;
    assert BigEndian(n % WORD) == word by {
      BigEndianInverse(n, word);
    }
    assert FrameBytes(d.frame) == [buffer[0]] + word + d.frame.payload;
    assert buffer[..d.consumed] == [buffer[0]] + word + d.frame.payload;
  }

  /** Encoding then decoding gives the frame back exactly when the size fits the length field:
      a longer payload loses its high length bits. */
  lemma RoundTripExactly(f: Frame)
    ensures DecodeFrame(FrameBytes(f)) == Decoded(f, |FrameBytes(f)|) <==> Fits(f)
    ensures DecodeFrame(FrameBytes(f)).Decoded?
    ensures DecodeFrame(FrameBytes(f)).frame == Frame(f.tag, f.payload[..|f.payload| % WORD])
  {
    hide BigEndian, FromBigEndian;
    var n := |f.payload| % WORD;
    var kept := Frame(f.tag, f.payload[..n]);
    DecodeEncoded(kept, f.payload[n..]);
    assert FrameBytes(kept) + f.payload[n..] == FrameBytes(f);
  }

  /** The header: the tag, then the payload size with its most significant byte first. */
  lemma HeaderLayout(f: Frame)
    requires Fits(f)
    ensures var b := FrameBytes(f);
            && |b| == 5 + |f.payload| && b[0] == (if f.tag == SampleBatchTag then 1 else 2)
            && b[1] as nat * 0x100_0000 + b[2] as nat * 0x1_0000 + b[3] as nat * 0x100 + b[4] == |f.payload|
  {
    hide BigEndian;
    var b, word := FrameBytes(f), BigEndian(|f.payload|);
    BigEndianInverse(|f.payload|, word);
    assert b[1] == word[0] && b[2] == word[1] && b[3] == word[2] && b[4] == word[3];
  }

  /** A buffer decodes exactly when it starts with some frame, and is rejected exactly when its first byte is
      no tag. */
  lemma DecodeExactly(buffer: seq<Byte>)
    ensures DecodeFrame(buffer).Decoded? <==> exists f :: Fits(f) && FrameBytes(f) <= buffer
    ensures DecodeFrame(buffer).UnknownTag? <==> buffer != [] && TagOf(buffer[0]).None?
  {
    hide FrameBytes;
    if DecodeFrame(buffer).Decoded? {
      DecodedIsEncoded(buffer);
      assert Fits(DecodeFrame(buffer).frame) && FrameBytes(DecodeFrame(buffer).frame) <= buffer;
    }
    if f :| Fits(f) && FrameBytes(f) <= buffer {
      DecodeEncoded(f, buffer[|FrameBytes(f)|..]);
      assert buffer == FrameBytes(f) + buffer[|FrameBytes(f)|..];
    }
  }

  /** A frame cut short anywhere never decodes and is never mistaken for a bad tag. */
  lemma CutFrameIsIncomplete(f: Frame, cut: seq<Byte>)
    requires Fits(f) && StrictPrefix(cut, FrameBytes(f))
    ensures DecodeFrame(cut) == Incomplete
  {
    hide BigEndian, FromBigEndian;
    if |cut| >= HEADER_LENGTH {
      assert cut[1..HEADER_LENGTH] == FrameBytes(f)[1..HEADER_LENGTH] == BigEndian(|f.payload|);
      BigEndianInverse(|f.payload|, BigEndian(|f.payload|));
    }
  }

  /** More bytes after a decodable frame, or after a bad tag, change nothing. */
  lemma DecodeExtends(a: seq<Byte>, b: seq<Byte>)
    requires !DecodeFrame(a).Incomplete?
    ensures DecodeFrame(a + b) == DecodeFrame(a)
  {
    if DecodeFrame(a).Decoded? {
      var d := DecodeFrame(a);
      DecodedIsEncoded(a);
      DecodeEncoded(d.frame, a[d.consumed..] + b);
      assert a + b == FrameBytes(d.frame) + (a[d.consumed..] + b);
    }
  }

  // ---------- streams of frames

  function Stream(fs: seq<Frame>): seq<Byte> {
    if fs == [] then [] else FrameBytes(fs[0]) + Stream(fs[1..])
  }

  ghost predicate AllFit(fs: seq<Frame>) {
    forall f <- fs :: Fits(f)
  }

  /** What an interrupted sender leaves at the end of a stream: a frame cut short, or nothing. */
  ghost predicate CutTail(tail: seq<Byte>) {
    exists f :: Fits(f) && StrictPrefix(tail, FrameBytes(f))
  }

  lemma EmptyTailIsCut()
    ensures CutTail([])
  {
    assert StrictPrefix([], FrameBytes(Frame(SampleBatchTag, [])));
  }

  lemma {:induction false} StreamAppend(fs: seq<Frame>, gs: seq<Frame>)
    ensures Stream(fs + gs) == Stream(fs) + Stream(gs)
  {
    if fs == [] {
      assert fs + gs == gs;
    } else {
      StreamAppend(fs[1..], gs);
      assert (fs + gs)[1..] == fs[1..] + gs;
      Associative(FrameBytes(fs[0]), Stream(fs[1..]), Stream(gs));
    }
  }

  lemma StreamCons(f: Frame, fs: seq<Frame>, tail: seq<Byte>)
    ensures Stream([f] + fs) + tail == FrameBytes(f) + (Stream(fs) + tail)
  {
    assert ([f] + fs)[1..] == fs;
    Associative(FrameBytes(f), Stream(fs), tail);
  }

  /** No frame is a strict prefix of another. */
  lemma PrefixFree(f: Frame, g: Frame)
    requires Fits(f) && Fits(g) && FrameBytes(f) <= FrameBytes(g)
    ensures f == g
  {
    DecodeEncoded(f, FrameBytes(g)[|FrameBytes(f)|..]);
    DecodeEncoded(g, []);
    assert FrameBytes(g) + [] == FrameBytes(g) == FrameBytes(f) + FrameBytes(g)[|FrameBytes(f)|..];
  }

  /** Unique decodability: a byte stream determines its frames, and the cut frame after them. */
  lemma {:induction false} UniqueDecoding(fs: seq<Frame>, p: seq<Byte>, gs: seq<Frame>, q: seq<Byte>)
    requires AllFit(fs) && AllFit(gs) && CutTail(p) && CutTail(q)
    requires Stream(fs) + p == Stream(gs) + q
    ensures fs == gs && p == q
  {
    if fs == [] && gs == [] {
      assert Stream(fs) + p == p && Stream(gs) + q == q;
    } else if fs == [] {
      StartsWithFrame(gs, q);
      CutTailIsIncomplete(p);
    } else if gs == [] {
      StartsWithFrame(fs, p);
      CutTailIsIncomplete(q);
    } else {
      StartsWithFrame(fs, p);
      StartsWithFrame(gs, q);
      assert fs[0] == gs[0];
      var s := Stream(fs) + p;
      assert s[|FrameBytes(fs[0])|..] == Stream(fs[1..]) + p == Stream(gs[1..]) + q;
      UniqueDecoding(fs[1..], p, gs[1..], q);
    }
  }

  lemma CutTailIsIncomplete(tail: seq<Byte>)
    requires CutTail(tail)
    ensures DecodeFrame(tail) == Incomplete
  {
    var f :| Fits(f) && StrictPrefix(tail, FrameBytes(f));
    CutFrameIsIncomplete(f, tail);
  }

  lemma StartsWithFrame(fs: seq<Frame>, tail: seq<Byte>)
    requires fs != [] && AllFit(fs)
    ensures DecodeFrame(Stream(fs) + tail) == Decoded(fs[0], |FrameBytes(fs[0])|)
    ensures (Stream(fs) + tail)[|FrameBytes(fs[0])|..] == Stream(fs[1..]) + tail
  {
    hide DecodeFrame, FrameBytes;
    DecodeEncoded(fs[0], Stream(fs[1..]) + tail);
    Associative(FrameBytes(fs[0]), Stream(fs[1..]), tail);
  }
}
