/** A run in which a record makes its way from the agent's queue into the table. */
module Arrival {
  import opened Common
  import opened Framing
  import opened Reassembly
  import opened Desync
  import opened Validation
  import opened Samples
  import opened Sender
  import opened Accounting
  import opened Ingest
  import opened Delivery
  import opened Persistence

  /** The agent's steps for one record, and the world after each. */
  function Steps(r: SampleRecord, size: nat): seq<Event> {
    [Enqueue(r), Snapshot, ConnectOk, Write(size), Finish]
  }

  function WorldAfter(r: SampleRecord, bytes: seq<Byte>, steps: nat): World {
    var queued := SenderState([r], 0, false, [], [], 0);
    if steps == 0 then QUIET
    else if steps == 1 then World(Ledger(queued, [r], 0, {}, [], false), [], [])
    else if steps == 2 then World(Ledger(queued.(batch := [r]), [r], 0, {}, [], false), [], [])
    else if steps == 3 then
      World(Ledger(SenderState([r], 0, true, [[]], [r], 0), [r], 0, {}, [], false), [0], [[]])
    else if steps == 4 then
      World(Ledger(SenderState([r], 0, true, [bytes], [r], |bytes|), [r], 0, {}, [], false), [0], [[]])
    else
      World(Ledger(SenderState([], 0, true, [bytes], [], 0), [r], 0, {}, [Range(0, 1)], false), [0], [[]])
  }

  lemma StepLeads(cap: nat, frameOf: Framer, r: SampleRecord, bytes: seq<Byte>, i: nat)
    requires cap >= 1 && bytes == FrameBytes(frameOf([r])) && i < 5
    ensures var w, e := WorldAfter(r, bytes, i), AgentStep(Steps(r, |bytes|)[i]);
            CanStep(frameOf, w, e) && WorldStep(cap, frameOf, w, e) == WorldAfter(r, bytes, i + 1)
  {
    hide FrameBytes;
    FrameNotEmpty(frameOf([r]));
    assert [r][..1] == [r] && [r][1..] == [] && bytes[0..|bytes|] == bytes;
    if i == 3 {
      WriteAll([[]], bytes);
    }
  }

  lemma FrameNotEmpty(f: Frame)
    ensures |FrameBytes(f)| >= 5
  {
  }

  lemma SiteNext(cap: nat, node: string, codec: Codec, events: seq<SiteEvent>, r: Site, e: SiteEvent, s: Site)
    requires cap >= 1 && SiteHappens(cap, node, codec, events, r) && SiteMoves(cap, node, codec, r, e, s)
    ensures SiteHappens(cap, node, codec, events + [e], s)
  {
    hide SiteMoves;
    assert (events + [e])[..|events|] == events;
  }

  /** The agent sends the record; the service has not read anything yet. */
  lemma RecordIsSent(cap: nat, node: string, codec: Codec, r: SampleRecord, at: Instant)
    returns (events: seq<SiteEvent>)
    requires cap >= 1
    ensures var bytes := FrameBytes(FramerOf(node, codec)([r]));
            SiteHappens(cap, node, codec, events, Site(WorldAfter(r, bytes, 5), NO_ROWS, []))
  {
    var bytes := FrameBytes(FramerOf(node, codec)([r]));
    events := [];
    for i := 0 to 5
      invariant SiteHappens(cap, node, codec, events, Site(WorldAfter(r, bytes, i), NO_ROWS, []))
    {
      StepLeads(cap, FramerOf(node, codec), r, bytes, i);
      var e := SiteEvent(AgentStep(Steps(r, |bytes|)[i]), _ => at);
      SiteNext(cap, node, codec, events, Site(WorldAfter(r, bytes, i), NO_ROWS, []), e,
               Site(WorldAfter(r, bytes, i + 1), NO_ROWS, []));
      events := events + [e];
    }
  }

  /** The row that one record's batch adds to an empty table. */
  lemma OneRow(node: string, codec: Codec, r: SampleRecord, at: Instant)
    requires Faithful(node, codec, [r])
    requires 1 <= r.metric <= 10 && 0 <= r.ts <= at.now + 86_400_000_000_000
    ensures HandleFrame(NO_ROWS, codec, FramerOf(node, codec)([r]), at).samples
            == map[SampleKey(node, r.metric, r.ts) := SampleCells(r.mono, at.recv, r.value, "hpctel-agent-0.1")]
  {
    assert Batchable([r], Range(0, 1)) && Records([r], Range(0, 1)) == [r];
    var m := WireSampleOf(node, r);
    RecordOnWire(node, r, at.now);
    var b := BatchOf(node, [r]);
    assert b.samples == [m] && codec.decodeBatch(codec.encodeBatch(b)) == b;
    assert Accepted([m], at.now) == [m];
    var rows := BatchRows(b, at);
    assert rows == [RowOf(m, at.recv, PRODUCER)];
    assert InsertRows(map[], rows) == InsertRow(InsertRows(map[], []), rows[0]);
  }

  /** A record that passes validation can get into the table: there is a run after which the table holds its row
      and nothing else, and the agent's queue is empty. */
  lemma RecordCanArrive(cap: nat, node: string, codec: Codec, r: SampleRecord, at: Instant)
    returns (events: seq<SiteEvent>, s: Site)
    requires cap >= 1 && Faithful(node, codec, [r])
    requires 1 <= r.metric <= 10 && 0 <= r.ts <= at.now + 86_400_000_000_000
    ensures SiteHappens(cap, node, codec, events, s)
    ensures s.world.ledger.history == [r] && s.world.ledger.sender.queue == []
    ensures s.tables.samples
            == map[SampleKey(node, r.metric, r.ts) := SampleCells(r.mono, at.recv, r.value, "hpctel-agent-0.1")]
  {
    var frameOf := FramerOf(node, codec);
    var frame := frameOf([r]);
    var bytes := FrameBytes(frame);
    events := RecordIsSent(cap, node, codec, r, at);
    var sent := Site(WorldAfter(r, bytes, 5), NO_ROWS, []);
    var e := SiteEvent(Read(0, |bytes|), _ => at);
    FrameIsRead(cap, node, codec, r, at);
    s := SiteStep(cap, node, codec, sent, e);
    SiteNext(cap, node, codec, events, sent, e, s);
    events := events + [e];
    OneRow(node, codec, r, at);
  }

  /** Reading the frame handles it. */
  lemma FrameIsRead(cap: nat, node: string, codec: Codec, r: SampleRecord, at: Instant)
    requires cap >= 1 && Faithful(node, codec, [r])
    ensures var frame := FramerOf(node, codec)([r]);
            var bytes := FrameBytes(frame);
            var sent, e := Site(WorldAfter(r, bytes, 5), NO_ROWS, []), SiteEvent(Read(0, |bytes|), _ => at);
            && CanStep(FramerOf(node, codec), sent.world, e.net)
            && var s := SiteStep(cap, node, codec, sent, e);
               s.tables == HandleFrame(NO_ROWS, codec, frame, at) && s.world.ledger == sent.world.ledger
  {
    var frameOf := FramerOf(node, codec);
    var frame := frameOf([r]);
    var bytes := FrameBytes(frame);
    var sent, e := Site(WorldAfter(r, bytes, 5), NO_ROWS, []), SiteEvent(Read(0, |bytes|), _ => at);
    FrameNotEmpty(frame);
    assert Batchable([r], Range(0, 1)) && Records([r], Range(0, 1)) == [r];
    assert Fits(frame);
    ParseOneFrame(frame);
    hide FrameBytes, ParseAll, HandleFrame, Receive, FramerOf;
    assert Concat([]) == [] && bytes[0..|bytes|] == bytes && [] + [bytes] == [bytes];
    var w, v := sent.world, WorldStep(cap, frameOf, sent.world, e.net);
    assert v.received == [[bytes]];
    assert ReceiveAll(OPENED, []) == OPENED;
    OneChunk(OPENED, bytes);
    ReceiveWhole(OPENED, bytes);
    assert Server(v, 0).handled == [frame] && Server(w, 0).handled == [];
    assert NewFrames(w, v, 0) == [frame];
    HandleOneMore(NO_ROWS, codec, e.clock, 0, [], frame);
    HandleNothing(NO_ROWS, codec, e.clock, 0);
    assert [] + [frame] == [frame];
  }
}
