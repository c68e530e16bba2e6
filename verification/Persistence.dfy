/** From the agent's queue to the sample table: what is stored after any run of the delivery protocol. */
module Persistence {
  import opened Framing
  import opened Reassembly
  import opened Validation
  import opened Samples
  import opened Rollups
  import opened Sender
  import opened Accounting
  import opened Ingest
  import opened Delivery

  const PRODUCER := "hpctel-agent-0.1"
  const SCHEMA_VERSION := 1

  function WireSampleOf(node: string, r: SampleRecord): WireSample {
    WireSample(node, r.metric, r.ts, r.mono, r.value)
  }

  function BatchOf(node: string, records: seq<SampleRecord>): (b: Batch)
    ensures |b.samples| == |records|
    ensures forall i :: 0 <= i < |records| ==> b.samples[i] == WireSampleOf(node, records[i])
  {
    Batch(SCHEMA_VERSION, PRODUCER, seq(|records|, i requires 0 <= i < |records| => WireSampleOf(node, records[i])))
  }

  function FramerOf(node: string, codec: Codec): Framer {
    records => Frame(SampleBatchTag, codec.encodeBatch(BatchOf(node, records)))
  }

  /** The protobuf code gives back every batch taken from this history, in less than 2^32 bytes. */
  ghost predicate Faithful(node: string, codec: Codec, history: seq<SampleRecord>) {
    forall r :: Batchable(history, r) ==>
      var b := BatchOf(node, Records(history, r));
      codec.decodeBatch(codec.encodeBatch(b)) == b && |codec.encodeBatch(b)| < WORD
  }

  function KeyOf(s: WireSample): SampleKey {
    SampleKey(s.node, s.metric, s.ts)
  }

  // ---------- the store, as the frames fill it

  /** One frame handled by the service: on which connection, and what the clock said then. */
  datatype Handling = Handling(link: nat, frame: Frame, at: Instant)

  /** The network, the service's tables, and every frame the service has handled, in order. */
  datatype Site = Site(world: World, tables: Tables, log: seq<Handling>)

  const IDLE := Site(QUIET, NO_ROWS, [])
  const NO_ROWS := Tables(map[], map[])

  /** A network event, with the clock the service reads while it handles the frames that event completes. */
  datatype SiteEvent = SiteEvent(net: NetEvent, clock: nat -> Instant)

  /** The frames that reading from connection `c` completes. */
  function NewFrames(w: World, v: World, c: nat): seq<Frame>
    requires c < |w.received| && c < |v.received| && |Server(w, c).handled| <= |Server(v, c).handled|
  {
    Server(v, c).handled[|Server(w, c).handled|..]
  }

  function Handlings(c: nat, fs: seq<Frame>, clock: nat -> Instant): (hs: seq<Handling>)
    ensures |hs| == |fs| && forall i :: 0 <= i < |fs| ==> hs[i] == Handling(c, fs[i], clock(i))
  {
    seq(|fs|, i requires 0 <= i < |fs| => Handling(c, fs[i], clock(i)))
  }

  /** Reading extends what has been handled on that connection and leaves the others alone. */
  lemma ReadExtends(cap: nat, frameOf: Framer, w: World, c: nat, n: nat)
    requires cap >= 1 && CanStep(frameOf, w, Read(c, n))
    ensures var v := WorldStep(cap, frameOf, w, Read(c, n));
            && |v.received| == |w.received|
            && Server(w, c).handled <= Server(v, c).handled
            && forall d: nat :: d < |w.received| && d != c ==> Server(v, d) == Server(w, d)
  {
    var at, v := |Concat(w.received[c])|, WorldStep(cap, frameOf, w, Read(c, n));
    var chunk := w.ledger.sender.streams[c][at..at + n];
    hide Concat, ReceiveAll, ParseAll;
    ReceiveLast(OPENED, w.received[c], chunk);
    assert v.received == w.received[c := w.received[c] + [chunk]];
    hide WorldStep, CanStep;
  }

  function SiteStep(cap: nat, node: string, codec: Codec, s: Site, e: SiteEvent): Site
    requires cap >= 1 && CanStep(FramerOf(node, codec), s.world, e.net)
  {
    var w, v := s.world, WorldStep(cap, FramerOf(node, codec), s.world, e.net);
    if e.net.Read? then
      ReadExtends(cap, FramerOf(node, codec), w, e.net.link, e.net.n);
      var fs := NewFrames(w, v, e.net.link);
      Site(v, HandleFrames(s.tables, codec, e.clock, 0, fs), s.log + Handlings(e.net.link, fs, e.clock))
    else Site(v, s.tables, s.log)
  }

  ghost predicate SiteMoves(cap: nat, node: string, codec: Codec, r: Site, e: SiteEvent, s: Site)
    requires cap >= 1
  {
    CanStep(FramerOf(node, codec), r.world, e.net) && s == SiteStep(cap, node, codec, r, e)
  }

  ghost predicate SiteHappens(cap: nat, node: string, codec: Codec, events: seq<SiteEvent>, s: Site)
    requires cap >= 1
  {
    if events == [] then s == IDLE
    else
      var n := |events| - 1;
      exists r :: SiteHappens(cap, node, codec, events[..n], r) && SiteMoves(cap, node, codec, r, events[n], s)
  }

  function NetEvents(events: seq<SiteEvent>): seq<NetEvent> {
    if events == [] then [] else NetEvents(events[..|events| - 1]) + [events[|events| - 1].net]
  }

  lemma {:induction false} SiteIsWorld(cap: nat, node: string, codec: Codec, events: seq<SiteEvent>, s: Site)
    requires cap >= 1 && SiteHappens(cap, node, codec, events, s)
    ensures Happens(cap, FramerOf(node, codec), NetEvents(events), s.world)
  {
    hide CanStep, WorldStep, HandleFrames;
    if events != [] {
      var n := |events| - 1;
      var r :| SiteHappens(cap, node, codec, events[..n], r) && SiteMoves(cap, node, codec, r, events[n], s);
      SiteIsWorld(cap, node, codec, events[..n], r);
      assert NetEvents(events)[..|NetEvents(events)| - 1] == NetEvents(events[..n]);
    }
  }

  // ---------- the log of handled frames

  function FramesOn(log: seq<Handling>, c: nat): seq<Frame> {
    if log == [] then []
    else
      var n := |log| - 1;
      FramesOn(log[..n], c) + if log[n].link == c then [log[n].frame] else []
  }

  /** How many frames had been handled on its connection before entry `i`. */
  function Rank(log: seq<Handling>, i: nat): nat
    requires i < |log|
  {
    |FramesOn(log[..i], log[i].link)|
  }

  lemma {:induction false} FramesOnAppend(a: seq<Handling>, b: seq<Handling>, c: nat)
    ensures FramesOn(a + b, c) == FramesOn(a, c) + FramesOn(b, c)
  {
    if b == [] {
      assert a + b == a;
    } else {
      var n := |b| - 1;
      FramesOnAppend(a, b[..n], c);
      assert (a + b)[..|a| + n] == a + b[..n];
    }
  }

  lemma FramesOnOne(h: Handling, c: nat)
    ensures FramesOn([h], c) == if h.link == c then [h.frame] else []
  {
    assert [h][..0] == [];
  }

  lemma {:induction false} FramesOnHandlings(c: nat, fs: seq<Frame>, clock: nat -> Instant, d: nat)
    ensures FramesOn(Handlings(c, fs, clock), d) == if d == c then fs else []
  {
    if fs != [] {
      var n := |fs| - 1;
      FramesOnHandlings(c, fs[..n], clock, d);
      assert Handlings(c, fs, clock)[..n] == Handlings(c, fs[..n], clock);
      assert fs == fs[..n] + [fs[n]];
    }
  }

  lemma {:induction false} FramesOnNone(log: seq<Handling>, c: nat)
    requires forall h <- log :: h.link != c
    ensures FramesOn(log, c) == []
  {
    if log != [] {
      FramesOnNone(log[..|log| - 1], c);
    }
  }

  lemma RankSplits(log: seq<Handling>, i: nat)
    requires i < |log|
    ensures FramesOn(log, log[i].link)
            == FramesOn(log[..i], log[i].link) + [log[i].frame] + FramesOn(log[i + 1..], log[i].link)
  {
    hide FramesOn;
    var c, a, b := log[i].link, log[..i], log[i + 1..];
    FramesOnAppend(a, [log[i]], c);
    FramesOnAppend(a + [log[i]], b, c);
    FramesOnOne(log[i], c);
    assert log == a + [log[i]] + b;
  }

  /** An entry is the frame of its rank on its connection. */
  lemma RankIs(log: seq<Handling>, i: nat)
    requires i < |log|
    ensures Rank(log, i) < |FramesOn(log, log[i].link)| && FramesOn(log, log[i].link)[Rank(log, i)] == log[i].frame
  {
    hide FramesOn;
    RankSplits(log, i);
  }

  lemma RanksDiffer(log: seq<Handling>, i: nat, j: nat)
    requires i < j < |log| && log[i].link == log[j].link
    ensures Rank(log, i) < Rank(log, j)
  {
    hide FramesOn;
    RankSplits(log[..j], i);
    assert log[..j][..i] == log[..i];
  }

  lemma {:induction false} EntryOfRank(log: seq<Handling>, c: nat, rank: nat) returns (i: nat)
    requires rank < |FramesOn(log, c)|
    ensures i < |log| && log[i].link == c && Rank(log, i) == rank
  {
    var n := |log| - 1;
    if rank < |FramesOn(log[..n], c)| {
      i := EntryOfRank(log[..n], c, rank);
      assert log[..n][..i] == log[..i];
    } else {
      i := n;
    }
  }

  // ---------- the table is the log, replayed

  function Replay(codec: Codec, log: seq<Handling>): Tables {
    if log == [] then NO_ROWS
    else
      var n := |log| - 1;
      HandleFrame(Replay(codec, log[..n]), codec, log[n].frame, log[n].at)
  }

  lemma {:induction false} ReplayMore(codec: Codec, log: seq<Handling>, c: nat, fs: seq<Frame>, clock: nat -> Instant)
    ensures Replay(codec, log + Handlings(c, fs, clock)) == HandleFrames(Replay(codec, log), codec, clock, 0, fs)
  {
    hide HandleFrame;
    if fs == [] {
      assert log + Handlings(c, fs, clock) == log;
    } else {
      var n, more := |fs| - 1, log + Handlings(c, fs, clock);
      ReplayMore(codec, log, c, fs[..n], clock);
      assert more[..|log| + n] == log + Handlings(c, fs[..n], clock);
      assert more[|more| - 1] == Handling(c, fs[n], clock(n));
    }
  }

  ghost predicate SiteInv(codec: Codec, s: Site) {
    && s.tables == Replay(codec, s.log)
    && (forall h <- s.log :: h.link < |s.world.received|)
    && (forall c: nat :: c < |s.world.received| ==> FramesOn(s.log, c) == Server(s.world, c).handled)
  }

  lemma AgentKeepsSite(cap: nat, node: string, codec: Codec, r: Site, e: SiteEvent, s: Site)
    requires cap >= 1 && SiteMoves(cap, node, codec, r, e, s) && SiteInv(codec, r) && e.net.AgentStep?
    ensures SiteInv(codec, s)
  {
    var w, v := r.world, s.world;
    assert v.received == w.received || v.received == w.received + [[]];
    hide WorldStep, CanStep, Replay, FramesOn, Receive;
    forall c: nat | c < |v.received|
      ensures FramesOn(s.log, c) == Server(v, c).handled
    {
      if c == |w.received| {
        assert forall h <- r.log :: h.link != c;
        FramesOnNone(r.log, c);
        assert ReceiveAll(OPENED, []) == OPENED;
      } else {
        assert v.received[c] == w.received[c];
      }
    }
  }

  lemma ReadKeepsSite(cap: nat, node: string, codec: Codec, r: Site, e: SiteEvent, s: Site)
    requires cap >= 1 && SiteMoves(cap, node, codec, r, e, s) && SiteInv(codec, r) && e.net.Read?
    ensures SiteInv(codec, s)
  {
    var w, v, c := r.world, s.world, e.net.link;
    assert c < |w.received|;
    ReadExtends(cap, FramerOf(node, codec), w, c, e.net.n);
    var fs := NewFrames(w, v, c);
    hide WorldStep, CanStep, Replay, FramesOn, Server, HandleFrames, FramerOf;
    assert Server(v, c).handled == Server(w, c).handled + fs;
    ReplayMore(codec, r.log, c, fs, e.clock);
    forall d: nat | d < |v.received|
      ensures FramesOn(s.log, d) == Server(v, d).handled
    {
      FramesOnAppend(r.log, Handlings(c, fs, e.clock), d);
      FramesOnHandlings(c, fs, e.clock, d);
    }
  }

  lemma {:induction false} SiteHappensInv(cap: nat, node: string, codec: Codec, events: seq<SiteEvent>, s: Site)
    requires cap >= 1 && SiteHappens(cap, node, codec, events, s)
    ensures SiteInv(codec, s)
  {
    hide SiteMoves, SiteInv;
    if events == [] {
      IdleInv(codec);
    } else {
      var n := |events| - 1;
      var r :| SiteHappens(cap, node, codec, events[..n], r) && SiteMoves(cap, node, codec, r, events[n], s);
      SiteHappensInv(cap, node, codec, events[..n], r);
      if events[n].net.Read? {
        ReadKeepsSite(cap, node, codec, r, events[n], s);
      } else {
        AgentKeepsSite(cap, node, codec, r, events[n], s);
      }
    }
  }

  lemma IdleInv(codec: Codec)
    ensures SiteInv(codec, IDLE)
  {
  }

  // ---------- which rows a log leaves

  /** Sample `q` of entry `i` passes validation at the time that entry is handled, and has key `k`. */
  ghost predicate Accepts(codec: Codec, log: seq<Handling>, i: nat, q: nat, k: SampleKey) {
    i < |log| && log[i].frame.tag == SampleBatchTag &&
    var b := codec.decodeBatch(log[i].frame.payload);
    && b.schemaVersion in SUPPORTED_SCHEMA_VERSIONS && q < |b.samples|
    && KeyOf(b.samples[q]) == k && Fault(b.samples[q], log[i].at.now).None?
  }

  /** No sample with that key was accepted earlier. */
  ghost predicate AcceptsFirst(codec: Codec, log: seq<Handling>, i: nat, q: nat, k: SampleKey) {
    Accepts(codec, log, i, q, k) &&
    forall j: nat, r: nat :: Accepts(codec, log, j, r, k) ==> i < j || (i == j && q <= r)
  }

  lemma FirstIndex(rows: seq<SampleRow>, k: SampleKey) returns (i: nat)
    requires HasKey(rows, k)
    ensures FirstWith(rows, i, k)
  {
    i := 0;
    while rows[i].key != k
      invariant i < |rows| && forall j :: 0 <= j < i ==> rows[j].key != k
      decreases |rows| - i
    {
      var h :| 0 <= h < |rows| && rows[h].key == k;
      i := i + 1;
    }
  }

  /** The first row of a batch with a key is that of the first accepted sample with that key. */
  lemma FirstAccepted(samples: seq<WireSample>, at: Instant, producer: string, k: SampleKey) returns (q: nat, x: nat)
    requires HasKey(RowsOf(Accepted(samples, at.now), at.recv, producer), k)
    ensures q < |samples| && KeyOf(samples[q]) == k && Fault(samples[q], at.now).None?
    ensures forall r :: 0 <= r < q && Fault(samples[r], at.now).None? ==> KeyOf(samples[r]) != k
    ensures var rows := RowsOf(Accepted(samples, at.now), at.recv, producer);
            FirstWith(rows, x, k) && rows[x] == RowOf(samples[q], at.recv, producer)
  {
    var accepted := Accepted(samples, at.now);
    var rows := RowsOf(accepted, at.recv, producer);
    x := FirstIndex(rows, k);
    var kept, lost := SplitKeepsOrder(samples, at.now);
    q := kept[x];
    assert accepted[x] in accepted;
    hide Accepted, DroppedReasons, Fault;
    forall r | 0 <= r < q && Fault(samples[r], at.now).None?
      ensures KeyOf(samples[r]) != k
    {
      assert r in kept;
      var y :| 0 <= y < |kept| && kept[y] == r;
      assert rows[y].key != k;
    }
  }

  /** Handling one entry keeps the rows there are, and adds those of its accepted samples. */
  lemma EntryAdds(codec: Codec, log: seq<Handling>, k: SampleKey)
    requires log != []
    ensures var n := |log| - 1;
            var t, u := Replay(codec, log[..n]).samples, Replay(codec, log).samples;
            && (k in t ==> k in u && u[k] == t[k])
            && (k in u ==> k in t || exists q: nat :: Accepts(codec, log, n, q, k))
            && (forall q: nat :: Accepts(codec, log, n, q, k) ==> k in u)
  {
    var n := |log| - 1;
    var t, h := Replay(codec, log[..n]).samples, log[n];
    if h.frame.tag == SampleBatchTag {
      var b := codec.decodeBatch(h.frame.payload);
      InsertRowsExactly(t, BatchRows(b, h.at));
      hide InsertRows, Replay, Accepted, DroppedReasons, Fault;
      if HasKey(BatchRows(b, h.at), k) {
        var q, x := FirstAccepted(b.samples, h.at, b.producer, k);
        assert Accepts(codec, log, n, q, k);
      }
      forall q: nat | Accepts(codec, log, n, q, k)
        ensures HasKey(BatchRows(b, h.at), k)
      {
        AcceptedHasRow(b, h.at, q);
      }
    }
  }

  lemma AcceptedHasRow(b: Batch, at: Instant, q: nat)
    requires b.schemaVersion in SUPPORTED_SCHEMA_VERSIONS && q < |b.samples| && Fault(b.samples[q], at.now).None?
    ensures HasKey(BatchRows(b, at), KeyOf(b.samples[q]))
  {
    var accepted := Accepted(b.samples, at.now);
    assert b.samples[q] in accepted;
    var i :| 0 <= i < |accepted| && accepted[i] == b.samples[q];
    assert BatchRows(b, at)[i].key == KeyOf(b.samples[q]);
  }

  lemma {:induction false} AcceptedIsStored(codec: Codec, log: seq<Handling>, i: nat, q: nat, k: SampleKey)
    requires Accepts(codec, log, i, q, k)
    ensures k in Replay(codec, log).samples
  {
    hide Replay;
    EntryAdds(codec, log, k);
    var n := |log| - 1;
    if i < n {
      assert log[..n][i] == log[i] && Accepts(codec, log[..n], i, q, k);
      AcceptedIsStored(codec, log[..n], i, q, k);
    }
  }

  /** A stored row is that of the first accepted sample with its key. */
  lemma {:induction false} StoredIsFirst(codec: Codec, log: seq<Handling>, k: SampleKey) returns (i: nat, q: nat)
    requires k in Replay(codec, log).samples
    ensures AcceptsFirst(codec, log, i, q, k)
    ensures var b, at := codec.decodeBatch(log[i].frame.payload), log[i].at;
            Replay(codec, log).samples[k] == RowOf(b.samples[q], at.recv, b.producer).cells
  {
    var n := |log| - 1;
    EntryAdds(codec, log, k);
    if k in Replay(codec, log[..n]).samples {
      hide Replay, Accepts;
      i, q := StoredIsFirst(codec, log[..n], k);
      assert log[..n][i] == log[i];
      forall j: nat, r: nat
        ensures Accepts(codec, log[..n], j, r, k) <==> Accepts(codec, log, j, r, k) && j < n
      {
        EarlierAccepts(codec, log, j, r, k);
      }
      AcceptedInLog(codec, log, k);
    } else {
      i := n;
      q := StoredInLast(codec, log, k);
    }
  }

  lemma EarlierAccepts(codec: Codec, log: seq<Handling>, j: nat, r: nat, k: SampleKey)
    requires log != []
    ensures Accepts(codec, log[..|log| - 1], j, r, k) <==> Accepts(codec, log, j, r, k) && j < |log| - 1
  {
  }

  lemma AcceptedInLog(codec: Codec, log: seq<Handling>, k: SampleKey)
    ensures forall j: nat, r: nat :: Accepts(codec, log, j, r, k) ==> j < |log|
  {
  }

  lemma StoredInLast(codec: Codec, log: seq<Handling>, k: SampleKey) returns (q: nat)
    requires log != [] && k in Replay(codec, log).samples && k !in Replay(codec, log[..|log| - 1]).samples
    ensures var n := |log| - 1;
            && AcceptsFirst(codec, log, n, q, k)
            && var b, at := codec.decodeBatch(log[n].frame.payload), log[n].at;
               Replay(codec, log).samples[k] == RowOf(b.samples[q], at.recv, b.producer).cells
  {
    var n := |log| - 1;
    var t, h := Replay(codec, log[..n]).samples, log[n];
    var b := codec.decodeBatch(h.frame.payload);
    assert h.frame.tag == SampleBatchTag;
    InsertRowsExactly(t, BatchRows(b, h.at));
    var x;
    q, x := FirstAccepted(b.samples, h.at, b.producer, k);
    hide Accepted, DroppedReasons, Fault, InsertRows;
    assert Accepts(codec, log, n, q, k);
    forall j: nat, r: nat | Accepts(codec, log, j, r, k)
      ensures j == n && q <= r
    {
      if j < n {
        EarlierAccepts(codec, log, j, r, k);
        AcceptedIsStored(codec, log[..n], j, r, k);
      }
    }
  }

  /** Ingested rows never have a negative timestamp, so every rollup bucket starts at or before its rows. */
  lemma IngestedBucketsAreAligned(
    cap: nat, node: string, codec: Codec, events: seq<SiteEvent>, s: Site, k: SampleKey, width: nat)
    requires cap >= 1 && SiteHappens(cap, node, codec, events, s) && k in s.tables.samples && width > 0
    ensures BucketStart(k.ts, width) <= k.ts < BucketStart(k.ts, width) + width
  {
    SiteHappensInv(cap, node, codec, events, s);
    hide SiteHappens, Replay, BucketStart;
    var i, q := StoredIsFirst(codec, s.log, k);
    assert k.ts >= 0;
    FloorAlignedExactly(k.ts, width);
  }

  // ---------- handled records

  /** Entry `i` of the log is a batch that holds the record at position `p` of the history. */
  ghost predicate HandledWhen(frameOf: Framer, s: Site, i: nat, p: nat) {
    && LinksInv(s.world) && i < |s.log| && s.log[i].link < |s.world.received| && p < |s.world.ledger.history|
    && Rank(s.log, i) < |CompleteOn(frameOf, s.world, s.log[i].link)|
    && var r := CompleteOn(frameOf, s.world, s.log[i].link)[Rank(s.log, i)];
       r.first <= p < r.first + r.size
  }

  /** The frames handled in a run are those of the handled batches. */
  lemma FramesAreBatches(cap: nat, node: string, codec: Codec, events: seq<NetEvent>, w: World, c: nat)
    requires cap >= 1 && Happens(cap, FramerOf(node, codec), events, w) && c < |w.received|
    requires Faithful(node, codec, w.ledger.history)
    ensures var frameOf := FramerOf(node, codec);
            && LinksInv(w)
            && |Server(w, c).handled| <= |CompleteOn(frameOf, w, c)|
            && Server(w, c).handled == FramesOf(frameOf, w.ledger.history, HandledOn(frameOf, w, c))
            && (forall r <- CompleteOn(frameOf, w, c) :: Batchable(w.ledger.history, r))
  {
    var frameOf := FramerOf(node, codec);
    FaithfulIsSendable(node, codec, w.ledger.history);
    hide Happens, Faithful, FramerOf;
    HandledAtMostOnce(cap, frameOf, events, w, c, c);
    HappensInv(cap, frameOf, events, w);
    CompleteFits(cap, frameOf, w, c);
  }

  lemma FaithfulIsSendable(node: string, codec: Codec, history: seq<SampleRecord>)
    requires Faithful(node, codec, history)
    ensures Sendable(FramerOf(node, codec), history)
  {
  }

  /** The batch of an entry. */
  function RangeAt(frameOf: Framer, s: Site, i: nat): Range
    requires LinksInv(s.world) && i < |s.log| && s.log[i].link < |s.world.received|
    requires Rank(s.log, i) < |CompleteOn(frameOf, s.world, s.log[i].link)|
  {
    CompleteOn(frameOf, s.world, s.log[i].link)[Rank(s.log, i)]
  }

  /** Every entry of the log is the frame of a batch of the history. */
  lemma EntryIsBatch(cap: nat, node: string, codec: Codec, events: seq<SiteEvent>, s: Site, i: nat)
    requires cap >= 1 && SiteHappens(cap, node, codec, events, s) && Faithful(node, codec, s.world.ledger.history)
    requires i < |s.log|
    ensures LinksInv(s.world) && s.log[i].link < |s.world.received|
    ensures Rank(s.log, i) < |Server(s.world, s.log[i].link).handled|
            <= |CompleteOn(FramerOf(node, codec), s.world, s.log[i].link)|
    ensures var r := RangeAt(FramerOf(node, codec), s, i);
            && Batchable(s.world.ledger.history, r)
            && s.log[i].frame == FramerOf(node, codec)(Records(s.world.ledger.history, r))
  {
    var c := s.log[i].link;
    SiteHappensInv(cap, node, codec, events, s);
    SiteIsWorld(cap, node, codec, events, s);
    assert s.log[i] in s.log;
    hide SiteHappens, Happens, Faithful, FramerOf, Replay, FramesOn, Server, CompleteOn, Batchable, Rank;
    RankIs(s.log, i);
    FramesAreBatches(cap, node, codec, NetEvents(events), s.world, c);
  }

  /** What the frame of a batch carries is its records, in order. */
  lemma BatchCarries(node: string, codec: Codec, history: seq<SampleRecord>, r: Range)
    requires Faithful(node, codec, history) && Batchable(history, r)
    ensures var f := FramerOf(node, codec)(Records(history, r));
            var b := codec.decodeBatch(f.payload);
            && f.tag == SampleBatchTag && b.schemaVersion in SUPPORTED_SCHEMA_VERSIONS && b.producer == PRODUCER
            && |b.samples| == r.size
            && forall q :: 0 <= q < r.size ==> b.samples[q] == WireSampleOf(node, history[r.first + q])
  {
    var b := BatchOf(node, Records(history, r));
    assert codec.decodeBatch(codec.encodeBatch(b)) == b;
  }

  /** When entry `i` was handled, the record at position `p` of its batch had a known metric and a timestamp from
      zero to a day ahead of the clock of that moment; its key is `k`. */
  ghost predicate AcceptedWhen(node: string, codec: Codec, s: Site, i: nat, p: nat, k: SampleKey) {
    HandledWhen(FramerOf(node, codec), s, i, p) &&
    var m := s.world.ledger.history[p];
    && k == SampleKey(node, m.metric, m.ts)
    && 1 <= m.metric <= 10 && 0 <= m.ts <= s.log[i].at.now + 86_400_000_000_000
  }

  /** Entry `i` is the batch `r`: the positions it covers and the samples it carries. */
  ghost predicate EntryCarries(node: string, codec: Codec, s: Site, i: nat, r: Range) {
    && i < |s.log| && r.first + r.size <= |s.world.ledger.history|
    && (forall p: nat :: HandledWhen(FramerOf(node, codec), s, i, p) <==> r.first <= p < r.first + r.size)
    && s.log[i].frame.tag == SampleBatchTag
    && var b := codec.decodeBatch(s.log[i].frame.payload);
       && b.schemaVersion in SUPPORTED_SCHEMA_VERSIONS && b.producer == PRODUCER && |b.samples| == r.size
       && forall q :: 0 <= q < r.size ==> b.samples[q] == WireSampleOf(node, s.world.ledger.history[r.first + q])
  }

  lemma EntryRange(cap: nat, node: string, codec: Codec, events: seq<SiteEvent>, s: Site, i: nat) returns (r: Range)
    requires cap >= 1 && SiteHappens(cap, node, codec, events, s) && Faithful(node, codec, s.world.ledger.history)
    requires i < |s.log|
    ensures EntryCarries(node, codec, s, i, r)
  {
    hide SiteHappens, Faithful, FramerOf, CompleteOn, LinksInv, Server, Rank;
    hide WireSampleOf, Records, HandledWhen, RangeAt;
    EntryIsBatch(cap, node, codec, events, s, i);
    EntryPositions(FramerOf(node, codec), s, i);
    r := RangeAt(FramerOf(node, codec), s, i);
    BatchCarries(node, codec, s.world.ledger.history, r);
  }

  lemma EntryPositions(frameOf: Framer, s: Site, i: nat)
    requires LinksInv(s.world) && i < |s.log| && s.log[i].link < |s.world.received|
    requires Rank(s.log, i) < |CompleteOn(frameOf, s.world, s.log[i].link)|
    requires Batchable(s.world.ledger.history, RangeAt(frameOf, s, i))
    ensures var r := RangeAt(frameOf, s, i);
            forall p: nat :: HandledWhen(frameOf, s, i, p) <==> r.first <= p < r.first + r.size
  {
    hide LinksInv, Rank, CompleteOn;
  }

  /** Samples of an entry are positions of the history. */
  lemma SampleIsPosition(node: string, codec: Codec, s: Site, i: nat, r: Range, q: nat, k: SampleKey)
    requires EntryCarries(node, codec, s, i, r)
    ensures Accepts(codec, s.log, i, q, k) <==> q < r.size && AcceptedWhen(node, codec, s, i, r.first + q, k)
    ensures Accepts(codec, s.log, i, q, k) ==>
              var b := codec.decodeBatch(s.log[i].frame.payload);
              b.producer == PRODUCER && b.samples[q] == WireSampleOf(node, s.world.ledger.history[r.first + q])
  {
    if q < r.size {
      RecordOnWire(node, s.world.ledger.history[r.first + q], s.log[i].at.now);
    }
    hide HandledWhen, FramerOf, Fault, KeyOf, WireSampleOf;
  }

  lemma RecordOnWire(node: string, m: SampleRecord, now: int)
    ensures KeyOf(WireSampleOf(node, m)) == SampleKey(node, m.metric, m.ts)
    ensures Fault(WireSampleOf(node, m), now).None? <==>
            1 <= m.metric <= 10 && 0 <= m.ts <= now + 86_400_000_000_000
  {
    FaultExactly(WireSampleOf(node, m), now);
  }

  lemma PositionIsSample(node: string, codec: Codec, s: Site, i: nat, r: Range, p: nat, k: SampleKey)
    requires EntryCarries(node, codec, s, i, r) && AcceptedWhen(node, codec, s, i, p, k)
    ensures r.first <= p && Accepts(codec, s.log, i, p - r.first, k)
  {
    hide HandledWhen, FramerOf, Fault, KeyOf, WireSampleOf;
    assert r.first <= p < r.first + r.size;
    SampleIsPosition(node, codec, s, i, r, p - r.first, k);
  }

  ghost predicate IsBatch(node: string, codec: Codec, s: Site, i: nat) {
    exists r :: EntryCarries(node, codec, s, i, r)
  }

  ghost function BatchAt(node: string, codec: Codec, s: Site, i: nat): (r: Range)
    requires IsBatch(node, codec, s, i)
    ensures EntryCarries(node, codec, s, i, r)
  {
    var r :| EntryCarries(node, codec, s, i, r); r
  }

  /** Every entry of the log is some batch of the history. */
  ghost predicate AllBatches(node: string, codec: Codec, s: Site) {
    forall i: nat :: i < |s.log| ==> IsBatch(node, codec, s, i)
  }

  lemma RunBatches(cap: nat, node: string, codec: Codec, events: seq<SiteEvent>, s: Site)
    requires cap >= 1 && SiteHappens(cap, node, codec, events, s) && Faithful(node, codec, s.world.ledger.history)
    ensures AllBatches(node, codec, s) && s.tables == Replay(codec, s.log)
  {
    hide SiteHappens, Faithful, EntryCarries, Replay;
    SiteHappensInv(cap, node, codec, events, s);
    hide SiteInv;
    assert s.tables == Replay(codec, s.log) by {
      TablesReplay(codec, s);
    }
    forall i: nat | i < |s.log|
      ensures IsBatch(node, codec, s, i)
    {
      var r := EntryRange(cap, node, codec, events, s, i);
    }
  }

  lemma TablesReplay(codec: Codec, s: Site)
    requires SiteInv(codec, s)
    ensures s.tables == Replay(codec, s.log)
  {
  }

  lemma AcceptedPosition(node: string, codec: Codec, s: Site, i: nat, p: nat, k: SampleKey) returns (q: nat)
    requires AllBatches(node, codec, s) && AcceptedWhen(node, codec, s, i, p, k)
    ensures IsBatch(node, codec, s, i) && Accepts(codec, s.log, i, q, k) && p == BatchAt(node, codec, s, i).first + q
  {
    AcceptedInSite(node, codec, s, i, p, k);
    hide Accepts, EntryCarries, AcceptedWhen;
    var r := BatchAt(node, codec, s, i);
    PositionIsSample(node, codec, s, i, r, p, k);
    q := p - r.first;
  }

  lemma AcceptedInSite(node: string, codec: Codec, s: Site, i: nat, p: nat, k: SampleKey)
    requires AcceptedWhen(node, codec, s, i, p, k)
    ensures i < |s.log| && p < |s.world.ledger.history|
  {
  }

  /** The row of a log's first accepted sample with a key, in terms of the history. */
  lemma FirstPosition(node: string, codec: Codec, s: Site, k: SampleKey) returns (i: nat, p: nat)
    requires AllBatches(node, codec, s) && k in Replay(codec, s.log).samples
    ensures AcceptedWhen(node, codec, s, i, p, k) && i < |s.log| && p < |s.world.ledger.history|
    ensures forall j: nat, q: nat :: AcceptedWhen(node, codec, s, j, q, k) ==> i < j || (i == j && p <= q)
    ensures var m := s.world.ledger.history[p];
            Replay(codec, s.log).samples[k] == SampleCells(m.mono, s.log[i].at.recv, m.value, "hpctel-agent-0.1")
  {
    hide Replay, Accepts, AcceptedWhen, EntryCarries;
    var at;
    i, at := StoredIsFirst(codec, s.log, k);
    AcceptedInLog(codec, s.log, k);
    var r := BatchAt(node, codec, s, i);
    SampleIsPosition(node, codec, s, i, r, at, k);
    p := r.first + at;
    AcceptedInSite(node, codec, s, i, p, k);
    hide AllBatches;
    forall j: nat, q: nat | AcceptedWhen(node, codec, s, j, q, k)
      ensures i < j || (i == j && p <= q)
    {
      var other := AcceptedPosition(node, codec, s, j, q, k);
    }
  }

  /** End to end, over every run and every clock: a key is in the table exactly when some enqueued record with
      that key was handled and passed validation at the moment it was handled. */
  lemma StoredExactly(cap: nat, node: string, codec: Codec, events: seq<SiteEvent>, s: Site, k: SampleKey)
    requires cap >= 1 && SiteHappens(cap, node, codec, events, s) && Faithful(node, codec, s.world.ledger.history)
    ensures k in s.tables.samples <==> exists i: nat, p: nat :: AcceptedWhen(node, codec, s, i, p, k)
  {
    RunBatches(cap, node, codec, events, s);
    hide SiteHappens, Faithful, Replay, Accepts, AcceptedWhen, AllBatches;
    if k in s.tables.samples {
      var i, p := FirstPosition(node, codec, s, k);
    }
    if i: nat, p: nat :| AcceptedWhen(node, codec, s, i, p, k) {
      var q := AcceptedPosition(node, codec, s, i, p, k);
      AcceptedIsStored(codec, s.log, i, q, k);
    }
  }

  /** The row under a key is that of the first such record in the order of handling, with the time of arrival
      read then. */
  lemma FirstHandledWins(cap: nat, node: string, codec: Codec, events: seq<SiteEvent>, s: Site, k: SampleKey)
    returns (i: nat, p: nat)
    requires cap >= 1 && SiteHappens(cap, node, codec, events, s) && Faithful(node, codec, s.world.ledger.history)
    requires k in s.tables.samples
    ensures AcceptedWhen(node, codec, s, i, p, k) && i < |s.log| && p < |s.world.ledger.history|
    ensures forall j: nat, q: nat :: AcceptedWhen(node, codec, s, j, q, k) ==> i < j || (i == j && p <= q)
    ensures var m := s.world.ledger.history[p];
            s.tables.samples[k] == SampleCells(m.mono, s.log[i].at.recv, m.value, "hpctel-agent-0.1")
  {
    RunBatches(cap, node, codec, events, s);
    hide SiteHappens, Faithful, Replay, AcceptedWhen, AllBatches;
    i, p := FirstPosition(node, codec, s, k);
  }

  /** Two entries that hold the same record are the same entry. */
  lemma HandledOnce(cap: nat, node: string, codec: Codec, events: seq<SiteEvent>, s: Site, i: nat, j: nat, p: nat)
    requires cap >= 1 && SiteHappens(cap, node, codec, events, s) && Faithful(node, codec, s.world.ledger.history)
    requires HandledWhen(FramerOf(node, codec), s, i, p) && HandledWhen(FramerOf(node, codec), s, j, p)
    ensures i == j
  {
    if i != j {
      if s.log[i].link < s.log[j].link || (s.log[i].link == s.log[j].link && i < j) {
        EntriesAdvance(cap, node, codec, events, s, i, j);
      } else {
        EntriesAdvance(cap, node, codec, events, s, j, i);
      }
    }
  }

  /** Entries of one connection advance through the history, and those of earlier connections come first. */
  lemma EntriesAdvance(cap: nat, node: string, codec: Codec, events: seq<SiteEvent>, s: Site, i: nat, j: nat)
    requires cap >= 1 && SiteHappens(cap, node, codec, events, s) && Faithful(node, codec, s.world.ledger.history)
    requires i < |s.log| && j < |s.log|
    requires s.log[i].link < s.log[j].link || (s.log[i].link == s.log[j].link && i < j)
    ensures var frameOf := FramerOf(node, codec);
            forall p: nat, q: nat :: HandledWhen(frameOf, s, i, p) && HandledWhen(frameOf, s, j, q) ==> p < q
  {
    EntryIsBatch(cap, node, codec, events, s, i);
    EntryIsBatch(cap, node, codec, events, s, j);
    RangesAdvance(cap, node, codec, events, s, i, j);
    hide SiteHappens, Faithful, FramerOf, CompleteOn, LinksInv, Server, Rank;
  }

  lemma RangesAdvance(cap: nat, node: string, codec: Codec, events: seq<SiteEvent>, s: Site, i: nat, j: nat)
    requires cap >= 1 && SiteHappens(cap, node, codec, events, s) && Faithful(node, codec, s.world.ledger.history)
    requires i < |s.log| && j < |s.log|
    requires s.log[i].link < s.log[j].link || (s.log[i].link == s.log[j].link && i < j)
    requires LinksInv(s.world) && s.log[i].link < |s.world.received| && s.log[j].link < |s.world.received|
    requires Rank(s.log, i) < |Server(s.world, s.log[i].link).handled|
             <= |CompleteOn(FramerOf(node, codec), s.world, s.log[i].link)|
    requires Rank(s.log, j) < |Server(s.world, s.log[j].link).handled|
             <= |CompleteOn(FramerOf(node, codec), s.world, s.log[j].link)|
    ensures Before(RangeAt(FramerOf(node, codec), s, i), RangeAt(FramerOf(node, codec), s, j))
  {
    hide SiteHappens, Happens, Sendable, FramerOf, CompleteOn, LinksInv, Server, Rank, Before;
    var frameOf, c, d := FramerOf(node, codec), s.log[i].link, s.log[j].link;
    SiteIsWorld(cap, node, codec, events, s);
    FaithfulIsSendable(node, codec, s.world.ledger.history);
    if c == d {
      RanksDiffer(s.log, i, j);
    }
    hide Faithful;
    HandledAtMostOnce(cap, frameOf, NetEvents(events), s.world, c, d);
    assert RangeAt(frameOf, s, i) == HandledOn(frameOf, s.world, c)[Rank(s.log, i)];
    assert RangeAt(frameOf, s, j) == HandledOn(frameOf, s.world, d)[Rank(s.log, j)];
  }

  /** The log has every record that the service has handled. */
  lemma LogIsComplete(cap: nat, node: string, codec: Codec, events: seq<SiteEvent>, s: Site, p: nat)
    requires cap >= 1 && SiteHappens(cap, node, codec, events, s) && Faithful(node, codec, s.world.ledger.history)
    ensures HandledAt(FramerOf(node, codec), s.world, p) <==>
            exists i: nat :: HandledWhen(FramerOf(node, codec), s, i, p)
  {
    hide SiteHappens, Faithful, HandledAt, HandledWhen;
    if HandledAt(FramerOf(node, codec), s.world, p) {
      var i := HandledHasEntry(cap, node, codec, events, s, p);
    }
    if i: nat :| HandledWhen(FramerOf(node, codec), s, i, p) {
      EntryIsHandled(cap, node, codec, events, s, i, p);
    }
  }

  lemma LogFrames(codec: Codec, s: Site)
    requires SiteInv(codec, s)
    ensures forall c: nat :: c < |s.world.received| ==> FramesOn(s.log, c) == Server(s.world, c).handled
  {
  }

  lemma HandledHasEntry(cap: nat, node: string, codec: Codec, events: seq<SiteEvent>, s: Site, p: nat) returns (i: nat)
    requires cap >= 1 && SiteHappens(cap, node, codec, events, s) && HandledAt(FramerOf(node, codec), s.world, p)
    ensures HandledWhen(FramerOf(node, codec), s, i, p)
  {
    hide SiteHappens, FramerOf, CompleteOn, LinksInv, Server, Rank, Replay, FramesOn, SiteInv;
    SiteHappensInv(cap, node, codec, events, s);
    LogFrames(codec, s);
    var frameOf := FramerOf(node, codec);
    var c: nat, r :| InHandled(frameOf, s.world, c, r) && r.first <= p < r.first + r.size;
    var rank :| 0 <= rank < |HandledOn(frameOf, s.world, c)| && HandledOn(frameOf, s.world, c)[rank] == r;
    i := EntryOfRank(s.log, c, rank);
  }

  lemma EntryIsHandled(cap: nat, node: string, codec: Codec, events: seq<SiteEvent>, s: Site, i: nat, p: nat)
    requires cap >= 1 && SiteHappens(cap, node, codec, events, s) && Faithful(node, codec, s.world.ledger.history)
    requires HandledWhen(FramerOf(node, codec), s, i, p)
    ensures HandledAt(FramerOf(node, codec), s.world, p)
  {
    EntryIsBatch(cap, node, codec, events, s, i);
    hide SiteHappens, Faithful, FramerOf, CompleteOn, LinksInv, Server, Rank;
    var frameOf, c := FramerOf(node, codec), s.log[i].link;
    assert HandledOn(frameOf, s.world, c)[Rank(s.log, i)] == RangeAt(frameOf, s, i);
    assert InHandled(frameOf, s.world, c, RangeAt(frameOf, s, i));
  }
}
