/** The ingestion service's connection loop: bytes in, rows and phase events into the store. */
module Ingest {
  import opened Common
  import opened Framing
  import opened Reassembly
  import opened Samples
  import opened Store
  import opened Validation

  datatype Batch = Batch(schemaVersion: nat, producer: string, samples: seq<WireSample>)

  /** The generated protobuf code, taken as given. */
  datatype Codec = Codec(
    encodeBatch: Batch -> seq<Byte>,
    decodeBatch: seq<Byte> -> Batch,
    decodeReport: seq<Byte> -> PhaseReport)

  /** The clock readings made while one frame is handled: for validation, and for the received rows. */
  datatype Instant = Instant(now: int, recv: int)

  /** The tables the wire protocol writes. */
  datatype Tables = Tables(samples: SampleTable, phaseEvents: PhaseTable)

  function RowOf(s: WireSample, recv: int, producer: string): SampleRow {
    SampleRow(SampleKey(s.node, s.metric, s.ts), SampleCells(s.mono, recv, s.value, producer))
  }

  function RowsOf(accepted: seq<WireSample>, recv: int, producer: string): (rows: seq<SampleRow>)
    ensures |rows| == |accepted|
    ensures forall i :: 0 <= i < |rows| ==> rows[i] == RowOf(accepted[i], recv, producer)
  {
    seq(|accepted|, i requires 0 <= i < |accepted| => RowOf(accepted[i], recv, producer))
  }

  /** The rows a decoded batch adds: none if its schema version is not supported. */
  function BatchRows(b: Batch, at: Instant): seq<SampleRow> {
    RowsOf(Validated(b.schemaVersion, b.samples, at.now).accepted, at.recv, b.producer)
  }

  function HandleFrame(t: Tables, codec: Codec, f: Frame, at: Instant): Tables {
    match f.tag
    case SampleBatchTag => t.(samples := InsertRows(t.samples, BatchRows(codec.decodeBatch(f.payload), at)))
    case PhaseEventTag => t.(phaseEvents := InsertReport(t.phaseEvents, codec.decodeReport(f.payload)))
  }

  /** The effect of frames handled in order; the first of them is handled at `clock(base)`. */
  function HandleFrames(t: Tables, codec: Codec, clock: nat -> Instant, base: nat, fs: seq<Frame>): Tables {
    if fs == [] then t
    else
      var n := |fs| - 1;
      HandleFrame(HandleFrames(t, codec, clock, base, fs[..n]), codec, fs[n], clock(base + n))
  }

  /** The phase events among the frames, in order. */
  function ReportsIn(codec: Codec, fs: seq<Frame>): seq<PhaseReport> {
    if fs == [] then []
    else
      var n := |fs| - 1;
      ReportsIn(codec, fs[..n]) + if fs[n].tag == PhaseEventTag then [codec.decodeReport(fs[n].payload)] else []
  }

  /** A phase event is stored under its key unless that key has a report, and touches nothing else. */
  lemma PhaseEventIsStored(t: Tables, codec: Codec, payload: seq<Byte>, at: Instant)
    ensures var r, u := codec.decodeReport(payload), HandleFrame(t, codec, Frame(PhaseEventTag, payload), at);
            && u.samples == t.samples
            && u.phaseEvents == (if r.key in t.phaseEvents then t.phaseEvents else t.phaseEvents[r.key := r.cells])
  {
  }

  /** After any frames, the phase table has the reports among them, the first of each key, and what it had. */
  lemma {:induction false} PhaseEventsExactly(t: Tables, codec: Codec, clock: nat -> Instant, base: nat, fs: seq<Frame>)
    ensures HandleFrames(t, codec, clock, base, fs).phaseEvents == InsertReports(t.phaseEvents, ReportsIn(codec, fs))
  {
    if fs != [] {
      var n := |fs| - 1;
      PhaseEventsExactly(t, codec, clock, base, fs[..n]);
      var earlier := ReportsIn(codec, fs[..n]);
      if fs[n].tag == PhaseEventTag {
        assert (earlier + [codec.decodeReport(fs[n].payload)])[..|earlier|] == earlier;
      } else {
        assert earlier + [] == earlier;
      }
    }
  }

  lemma HandleNothing(t: Tables, codec: Codec, clock: nat -> Instant, base: nat)
    ensures HandleFrames(t, codec, clock, base, []) == t
  {
  }

  lemma HandleOneMore(t: Tables, codec: Codec, clock: nat -> Instant, base: nat, fs: seq<Frame>, f: Frame)
    ensures HandleFrames(t, codec, clock, base, fs + [f])
            == HandleFrame(HandleFrames(t, codec, clock, base, fs), codec, f, clock(base + |fs|))
  {
    assert (fs + [f])[..|fs|] == fs;
  }

  lemma {:induction false} HandleFramesAppend(
    t: Tables, codec: Codec, clock: nat -> Instant, base: nat, fs: seq<Frame>, gs: seq<Frame>)
    ensures HandleFrames(t, codec, clock, base, fs + gs)
            == HandleFrames(HandleFrames(t, codec, clock, base, fs), codec, clock, base + |fs|, gs)
  {
    hide HandleFrame;
    if gs == [] {
      assert fs + gs == fs;
    } else {
      var n := |gs| - 1;
      HandleFramesAppend(t, codec, clock, base, fs, gs[..n]);
      assert fs + gs == fs + gs[..n] + [gs[n]];
      HandleOneMore(t, codec, clock, base, fs + gs[..n], gs[n]);
    }
  }

  /** The chunks read before the empty read that marks the end of the stream. */
  function BeforeEof(received: seq<seq<Byte>>): seq<seq<Byte>> {
    if received == [] || received[0] == [] then [] else [received[0]] + BeforeEof(received[1..])
  }

  /** What is left to parse after the frames in `done` have been taken from the front of `buffer`. */
  ghost predicate ParsedSoFar(buffer: seq<Byte>, done: seq<Frame>, left: seq<Byte>) {
    var p, q := ParseAll(buffer), ParseAll(left);
    p.frames == done + q.frames && p.rest == q.rest && p.desync == q.desync
  }

  lemma ParsedNothing(buffer: seq<Byte>)
    ensures ParsedSoFar(buffer, [], buffer)
  {
  }

  lemma ParseOneMore(buffer: seq<Byte>, done: seq<Frame>, left: seq<Byte>)
    requires ParsedSoFar(buffer, done, left) && DecodeFrame(left).Decoded?
    ensures var d := DecodeFrame(left); ParsedSoFar(buffer, done + [d.frame], left[d.consumed..])
  {
    var d := DecodeFrame(left);
    Associative(done, [d.frame], ParseAll(left[d.consumed..]).frames);
  }

  lemma DrainEnds(c: Conn, done: seq<Frame>, left: seq<Byte>)
    requires ParsedSoFar(c.buffer, done, left) && !DecodeFrame(left).Decoded?
    ensures ParseAll(c.buffer).frames == done
    ensures var bad, handled := DecodeFrame(left).UnknownTag?, c.handled + done;
            Drain(c) == Conn(
              if bad then [] else left,
              handled,
              if bad && c.beforeBad.None? then Some(|handled|) else c.beforeBad)
  {
    assert done + [] == done;
  }

  class Connection {
    var buffer: seq<Byte>
    var ticks: nat // frames handled so far, which index the clock
    const store: TsdbStore
    const codec: Codec
    const clock: nat -> Instant

    ghost var handled: seq<Frame>
    ghost var beforeBad: Option<nat>

    constructor (store: TsdbStore, codec: Codec, clock: nat -> Instant)
      ensures Valid() && State() == OPENED && this.store == store && this.codec == codec && this.clock == clock
    {
      this.store, this.codec, this.clock := store, codec, clock;
      buffer, ticks, handled, beforeBad := [], 0, [], None;
    }

    ghost predicate Valid()
      reads this
    {
      ticks == |handled|
    }

    ghost function State(): Conn
      reads this
    {
      Conn(buffer, handled, beforeBad)
    }

    ghost function StoreTables(): Tables
      reads store
    {
      Tables(store.samples, store.phaseEvents)
    }

    method HandleSampleBatch(payload: seq<Byte>, at: Instant)
      modifies store`samples
      ensures store.samples == InsertRows(old(store.samples), BatchRows(codec.decodeBatch(payload), at))
    {
      var batch := codec.decodeBatch(payload);
      var result := ValidateBatch(batch.schemaVersion, batch.samples, at.now);
      if result.schemaMismatch {
        return;
      }
      if result.accepted == [] {
        return;
      }
      var rows := RowsOf(result.accepted, at.recv, batch.producer);
      var inserted := store.InsertSamples(rows);
    }

    method Dispatch(frame: Frame)
      requires Valid()
      modifies this`ticks, this`handled, store`samples, store`phaseEvents
      ensures Valid() && handled == old(handled) + [frame]
      ensures StoreTables() == HandleFrame(old(StoreTables()), codec, frame, clock(old(ticks)))
    {
      match frame.tag {
        case SampleBatchTag => HandleSampleBatch(frame.payload, clock(ticks));
        case PhaseEventTag => store.InsertPhaseEvent(codec.decodeReport(frame.payload));
      }
      ticks, handled := ticks + 1, handled + [frame];
    }

    /** Handles every complete frame at the front of the buffer, in order. */
    method DrainFrames()
      requires Valid()
      modifies this, store`samples, store`phaseEvents
      ensures Valid() && State() == Drain(old(State()))
      ensures StoreTables() == HandleFrames(old(StoreTables()), codec, clock, old(ticks), ParseAll(old(buffer)).frames)
    {
      hide DecodeFrame, HandleFrame, ParseAll, Drain, ParsedSoFar;
      ghost var done: seq<Frame> := [];
      ParsedNothing(buffer);
      while true
        invariant Valid() && handled == old(handled) + done && beforeBad == old(beforeBad)
        invariant ParsedSoFar(old(buffer), done, buffer)
        invariant StoreTables() == HandleFrames(old(StoreTables()), codec, clock, old(ticks), done)
        decreases |buffer|
      {
        var result := DecodeFrame(buffer);
        if !result.Decoded? {
          DrainEnds(old(State()), done, buffer);
          if result.UnknownTag? {
            buffer := [];
            beforeBad := if beforeBad.None? then Some(|handled|) else beforeBad;
          }
          return;
        }
        ParseOneMore(old(buffer), done, buffer);
        HandleOneMore(old(StoreTables()), codec, clock, old(ticks), done, result.frame);
        Associative(old(handled), done, [result.frame]);
        buffer := buffer[result.consumed..];
        Dispatch(result.frame);
        done := done + [result.frame];
      }
    }

    method ReceiveChunk(chunk: seq<Byte>)
      requires Valid()
      modifies this, store`samples, store`phaseEvents
      ensures Valid() && State() == Receive(old(State()), chunk) && old(handled) <= handled
      ensures StoreTables() == HandleFrames(old(StoreTables()), codec, clock, old(ticks), handled[|old(handled)|..])
    {
      buffer := buffer + chunk;
      ghost var parsed := ParseAll(buffer).frames;
      DrainFrames();
      assert handled[|old(handled)|..] == parsed;
    }

    /** The whole life of a connection. `received` are the results of the socket reads; an empty one is the
        end of the stream. `eof` is what is reported then, or nothing if the stream is still open. */
    method HandleConnection(received: seq<seq<Byte>>) returns (eof: Option<EofReport>)
      requires Valid() && State() == OPENED
      modifies this, store`samples, store`phaseEvents
      ensures Valid() && State() == ReceiveAll(OPENED, BeforeEof(received))
      ensures StoreTables() == HandleFrames(old(StoreTables()), codec, clock, 0, handled)
      ensures eof == if [] in received then Some(ReportEof(buffer)) else None
    {
      hide HandleFrames, Receive;
      eof := None;
      var i := 0;
      assert received[0..] == received;
      HandleNothing(StoreTables(), codec, clock, 0);
      while i < |received|
        invariant i <= |received| && forall j :: 0 <= j < i ==> received[j] != []
        invariant Valid() && ReceiveAll(State(), BeforeEof(received[i..])) == ReceiveAll(OPENED, BeforeEof(received))
        invariant StoreTables() == HandleFrames(old(StoreTables()), codec, clock, 0, handled)
      {
        var chunk := received[i];
        if chunk == [] {
          eof := Some(ReportEof(buffer));
          return;
        }
        ghost var earlier := handled;
        ReceiveOneMore(State(), received[i..]);
        ReceiveChunk(chunk);
        HandleFramesAppend(old(StoreTables()), codec, clock, 0, earlier, handled[|earlier|..]);
        assert earlier + handled[|earlier|..] == handled && received[i..][1..] == received[i + 1..];
        i := i + 1;
      }
    }
  }

  lemma ReceiveOneMore(c: Conn, received: seq<seq<Byte>>)
    requires received != [] && received[0] != []
    ensures ReceiveAll(c, BeforeEof(received)) == ReceiveAll(Receive(c, received[0]), BeforeEof(received[1..]))
  {
    assert BeforeEof(received)[1..] == BeforeEof(received[1..]);
  }
}
