/** The delivery protocol end to end: one agent, its connections, and the ingestion service reading them in
    arbitrary pieces, over every interleaving. */
module Delivery {
  import opened Common
  import opened Framing
  import opened Reassembly
  import opened Sender
  import opened Accounting

  /** The agent with its ledger; for each connection, how many batches had been sent before it was opened
      and the pieces the service has read from it. */
  datatype World = World(ledger: Ledger, firsts: seq<nat>, received: seq<seq<seq<Byte>>>)

  const QUIET := World(FRESH, [], [])

  datatype NetEvent = AgentStep(e: Event) | Read(link: nat, n: nat)

  /** How a batch becomes a frame. */
  type Framer = seq<SampleRecord> -> Frame

  function WireOf(frameOf: Framer): Wire {
    batch => FrameBytes(frameOf(batch))
  }

  predicate CanStep(frameOf: Framer, w: World, e: NetEvent) {
    var s := w.ledger.sender;
    match e
    case AgentStep(a) => Gone(w.ledger) >= 0 && Enabled(WireOf(frameOf), s, a)
    case Read(c, n) =>
      c < |w.received| && c < |s.streams| && 1 <= n <= |s.streams[c]| - |Concat(w.received[c])|
  }

  function WorldStep(cap: nat, frameOf: Framer, w: World, e: NetEvent): World
    requires cap >= 1 && CanStep(frameOf, w, e)
  {
    match e
    case AgentStep(a) =>
      var next := w.(ledger := LedgerStep(cap, WireOf(frameOf), w.ledger, a));
      if a.ConnectOk? then next.(firsts := w.firsts + [|w.ledger.log|], received := w.received + [[]]) else next
    case Read(c, n) =>
      var at := |Concat(w.received[c])|;
      w.(received := w.received[c := w.received[c] + [w.ledger.sender.streams[c][at..at + n]]])
  }

  ghost predicate Happens(cap: nat, frameOf: Framer, events: seq<NetEvent>, w: World)
    requires cap >= 1
  {
    if events == [] then w == QUIET
    else
      var n := |events| - 1;
      exists v :: Happens(cap, frameOf, events[..n], v) && CanStep(frameOf, v, events[n]) &&
                  w == WorldStep(cap, frameOf, v, events[n])
  }

  // ---------- what is on each connection

  function Records(history: seq<SampleRecord>, r: Range): seq<SampleRecord> {
    if r.first + r.size <= |history| then history[r.first..r.first + r.size] else []
  }

  function FramesOf(frameOf: Framer, history: seq<SampleRecord>, log: seq<Range>): (fs: seq<Frame>)
    ensures |fs| == |log|
    ensures forall i :: 0 <= i < |fs| ==> fs[i] == frameOf(Records(history, log[i]))
  {
    seq(|log|, i requires 0 <= i < |log| => frameOf(Records(history, log[i])))
  }

  ghost predicate Batchable(history: seq<SampleRecord>, r: Range) {
    r.size <= MAX_BATCH_SIZE && r.first + r.size <= |history|
  }

  /** Every batch the sender could take from this history serializes to a payload the length field can hold. */
  ghost predicate Sendable(frameOf: Framer, history: seq<SampleRecord>) {
    forall r :: Batchable(history, r) ==> Fits(frameOf(Records(history, r)))
  }

  lemma SendablePrefix(frameOf: Framer, history: seq<SampleRecord>, more: seq<SampleRecord>)
    requires Sendable(frameOf, history + more)
    ensures Sendable(frameOf, history)
  {
    forall r | Batchable(history, r)
      ensures Fits(frameOf(Records(history, r)))
    {
      assert Batchable(history + more, r);
      assert Records(history + more, r) == Records(history, r);
    }
  }

  /** How many batches had been sent when connection `c` was left for the next one. */
  function Until(w: World, c: nat): nat
    requires c < |w.firsts|
  {
    if c + 1 < |w.firsts| then w.firsts[c + 1] else |w.ledger.log|
  }

  /** The batches sent on connection `c`. */
  function SentOn(w: World, c: nat): seq<Range>
    requires c < |w.firsts| && w.firsts[c] <= Until(w, c) <= |w.ledger.log|
  {
    w.ledger.log[w.firsts[c]..Until(w, c)]
  }

  predicate Live(w: World, c: nat) {
    w.ledger.sender.connected && c + 1 == |w.firsts|
  }

  /** The part of the held batch that the socket has accepted. */
  function Partial(frameOf: Framer, l: Ledger): seq<Byte> {
    var s := l.sender;
    if s.batch == [] || s.written > |WireOf(frameOf)(s.batch)| then []
    else WireOf(frameOf)(s.batch)[..s.written]
  }

  ghost predicate LinksInv(w: World) {
    && |w.firsts| == |w.received| == |w.ledger.sender.streams|
    && (w.ledger.sender.connected ==> w.firsts != [])
    && (if w.firsts == [] then w.ledger.log == [] else w.firsts[0] == 0)
    && (forall c :: 0 <= c < |w.firsts| ==> w.firsts[c] <= Until(w, c) <= |w.ledger.log|)
  }

  ghost predicate StreamIs(frameOf: Framer, w: World, c: nat)
    requires LinksInv(w) && c < |w.firsts|
  {
    var fs, stream := FramesOf(frameOf, w.ledger.history, SentOn(w, c)), w.ledger.sender.streams[c];
    if Live(w, c) then stream == Stream(fs) + Partial(frameOf, w.ledger)
    else exists tail :: CutTail(tail) && stream == Stream(fs) + tail
  }

  ghost predicate StreamsInv(frameOf: Framer, w: World) {
    && LinksInv(w)
    && (forall c: nat :: c < |w.firsts| ==> StreamIs(frameOf, w, c))
    && (forall c: nat :: c < |w.firsts| ==> Concat(w.received[c]) <= w.ledger.sender.streams[c])
  }

  ghost predicate WorldInv(cap: nat, frameOf: Framer, w: World) {
    Inv(cap, WireOf(frameOf), w.ledger) && StreamsInv(frameOf, w)
  }

  // ---------- every step keeps the invariant

  lemma ReadLinks(cap: nat, frameOf: Framer, w: World, c: nat, n: nat)
    requires cap >= 1 && LinksInv(w) && CanStep(frameOf, w, Read(c, n))
    ensures var v := WorldStep(cap, frameOf, w, Read(c, n));
            && LinksInv(v) && v.ledger == w.ledger && |v.received| == |w.received|
            && (forall d: nat :: d < |w.firsts| ==> SentOn(v, d) == SentOn(w, d) && (Live(v, d) <==> Live(w, d)))
            && (forall d: nat :: d < |w.firsts| && d != c ==> v.received[d] == w.received[d])
  {
    hide Concat;
  }

  /** The bytes read from a connection are a prefix of those on it. */
  lemma ReadBytes(cap: nat, frameOf: Framer, w: World, c: nat, n: nat)
    requires cap >= 1 && CanStep(frameOf, w, Read(c, n)) && Concat(w.received[c]) <= w.ledger.sender.streams[c]
    ensures var v := WorldStep(cap, frameOf, w, Read(c, n));
            c < |v.received| && Concat(v.received[c]) <= w.ledger.sender.streams[c]
  {
    hide Concat, ReceiveAll, Receive;
    var at, stream := |Concat(w.received[c])|, w.ledger.sender.streams[c];
    ReceiveLast(OPENED, w.received[c], stream[at..at + n]);
    assert stream[..at] + stream[at..at + n] == stream[..at + n];
  }

  lemma ReadKeeps(cap: nat, frameOf: Framer, w: World, c: nat, n: nat)
    requires cap >= 1 && WorldInv(cap, frameOf, w) && CanStep(frameOf, w, Read(c, n))
    ensures WorldInv(cap, frameOf, WorldStep(cap, frameOf, w, Read(c, n)))
  {
    var v := WorldStep(cap, frameOf, w, Read(c, n));
    ReadLinks(cap, frameOf, w, c, n);
    ReadBytes(cap, frameOf, w, c, n);
    hide Inv, Concat, WorldStep, CanStep, SentOn, Live, FramesOf, Partial, Stream;
    forall d: nat | d < |w.firsts|
      ensures StreamIs(frameOf, v, d)
    {
      assert StreamIs(frameOf, w, d);
    }
  }

  lemma FramesKept(frameOf: Framer, history: seq<SampleRecord>, r: SampleRecord, log: seq<Range>)
    requires forall g <- log :: g.first + g.size <= |history|
    ensures FramesOf(frameOf, history + [r], log) == FramesOf(frameOf, history, log)
  {
    forall i | 0 <= i < |log|
      ensures Records(history + [r], log[i]) == Records(history, log[i])
    {
      assert log[i] in log;
      SliceKept(history, r, log[i].first, log[i].size);
    }
  }

  lemma EnqueueLinks(cap: nat, frameOf: Framer, w: World, r: SampleRecord)
    requires cap >= 1 && LinksInv(w) && CanStep(frameOf, w, AgentStep(Enqueue(r)))
    ensures var v := WorldStep(cap, frameOf, w, AgentStep(Enqueue(r)));
            && LinksInv(v) && v.ledger.history == w.ledger.history + [r] && v.received == w.received
            && v.ledger.sender.streams == w.ledger.sender.streams
            && Partial(frameOf, v.ledger) == Partial(frameOf, w.ledger)
            && forall c: nat :: c < |w.firsts| ==> SentOn(v, c) == SentOn(w, c) && (Live(v, c) <==> Live(w, c))
  {
    hide FrameBytes;
  }

  lemma EnqueueKeeps(cap: nat, frameOf: Framer, w: World, r: SampleRecord)
    requires cap >= 1 && WorldInv(cap, frameOf, w) && CanStep(frameOf, w, AgentStep(Enqueue(r)))
    ensures StreamsInv(frameOf, WorldStep(cap, frameOf, w, AgentStep(Enqueue(r))))
  {
    var v := WorldStep(cap, frameOf, w, AgentStep(Enqueue(r)));
    EnqueueLinks(cap, frameOf, w, r);
    assert LogInv(w.ledger) && Frontier(w.ledger) <= |w.ledger.history|;
    hide Inv, LogInv, WorldStep, CanStep, SentOn, Live, FramesOf, Partial, Stream, Concat;
    forall c: nat | c < |w.firsts|
      ensures StreamIs(frameOf, v, c)
    {
      assert StreamIs(frameOf, w, c);
      SentWithin(w, c);
      FramesKept(frameOf, w.ledger.history, r, SentOn(w, c));
    }
  }

  /** Sent batches lie within the history. */
  lemma SentWithin(w: World, c: nat)
    requires LogInv(w.ledger) && Frontier(w.ledger) <= |w.ledger.history|
    requires LinksInv(w) && c < |w.firsts|
    ensures forall g <- SentOn(w, c) :: g.first + g.size <= |w.ledger.history|
  {
    forall g | g in SentOn(w, c)
      ensures g in w.ledger.log
    {
    }
  }

  lemma NothingWritten(cap: nat, wire: Wire, l: Ledger)
    requires Inv(cap, wire, l)
    ensures !l.sender.connected || l.sender.batch == [] ==> l.sender.written == 0
  {
  }

  lemma ConnectLinks(cap: nat, frameOf: Framer, w: World)
    requires cap >= 1 && LinksInv(w) && CanStep(frameOf, w, AgentStep(ConnectOk))
    ensures var v, last := WorldStep(cap, frameOf, w, AgentStep(ConnectOk)), |w.firsts|;
            && LinksInv(v) && |v.firsts| == last + 1 && v.ledger.history == w.ledger.history
            && v.received == w.received + [[]] && v.ledger.sender.streams == w.ledger.sender.streams + [[]]
            && SentOn(v, last) == [] && Live(v, last) && v.ledger.sender.written == w.ledger.sender.written
            && forall c: nat :: c < last ==> SentOn(v, c) == SentOn(w, c) && !Live(w, c) && !Live(v, c)
  {
  }

  lemma ConnectKeeps(cap: nat, frameOf: Framer, w: World)
    requires cap >= 1 && WorldInv(cap, frameOf, w) && CanStep(frameOf, w, AgentStep(ConnectOk))
    ensures StreamsInv(frameOf, WorldStep(cap, frameOf, w, AgentStep(ConnectOk)))
  {
    var v, last := WorldStep(cap, frameOf, w, AgentStep(ConnectOk)), |w.firsts|;
    NothingWritten(cap, WireOf(frameOf), w.ledger);
    ConnectLinks(cap, frameOf, w);
    assert Partial(frameOf, v.ledger) == [] && Concat([]) == [] && Stream([]) + [] == [];
    hide Inv, FramesOf, FrameBytes, Records, WorldStep, SentOn, Live, Partial, Concat, Stream;
    forall c: nat | c < last
      ensures StreamIs(frameOf, v, c)
    {
      assert StreamIs(frameOf, w, c);
    }
    assert StreamIs(frameOf, v, last);
  }

  /** A step that leaves the log and the streams alone, and what is partly written on the open connection. */
  lemma QuietLinks(cap: nat, frameOf: Framer, w: World, e: Event)
    requires cap >= 1 && LinksInv(w) && CanStep(frameOf, w, AgentStep(e)) && (e.Snapshot? || e.ConnectFail?)
    ensures var v := WorldStep(cap, frameOf, w, AgentStep(e));
            && LinksInv(v) && v.ledger.history == w.ledger.history && v.received == w.received
            && v.ledger.sender.streams == w.ledger.sender.streams
            && (e.ConnectFail? ==> !w.ledger.sender.connected && !v.ledger.sender.connected)
            && (e.Snapshot? ==> w.ledger.sender.batch == [] && v.ledger.sender.written == 0)
            && forall c: nat :: c < |w.firsts| ==> SentOn(v, c) == SentOn(w, c) && (Live(v, c) <==> Live(w, c))
  {
  }

  lemma QuietKeeps(cap: nat, frameOf: Framer, w: World, e: Event)
    requires cap >= 1 && WorldInv(cap, frameOf, w) && CanStep(frameOf, w, AgentStep(e))
    requires e.Snapshot? || e.ConnectFail?
    ensures StreamsInv(frameOf, WorldStep(cap, frameOf, w, AgentStep(e)))
  {
    var v := WorldStep(cap, frameOf, w, AgentStep(e));
    QuietLinks(cap, frameOf, w, e);
    assert e.Snapshot? ==> Partial(frameOf, w.ledger) == Partial(frameOf, v.ledger) == [];
    assert forall c :: e.ConnectFail? ==> !Live(w, c);
    hide Inv, Stream, FramesOf, FrameBytes, Concat, WorldStep, SentOn, Live, Partial;
    forall c: nat | c < |w.firsts|
      ensures StreamIs(frameOf, v, c)
    {
      assert StreamIs(frameOf, w, c);
    }
  }

  lemma WriteKeeps(cap: nat, frameOf: Framer, w: World, n: nat)
    requires cap >= 1 && WorldInv(cap, frameOf, w) && CanStep(frameOf, w, AgentStep(Write(n)))
    ensures StreamsInv(frameOf, WorldStep(cap, frameOf, w, AgentStep(Write(n))))
  {
    hide Inv;
    var v, s := WorldStep(cap, frameOf, w, AgentStep(Write(n))), w.ledger.sender;
    var last := |w.firsts| - 1;
    var bytes, at := WireOf(frameOf)(s.batch), s.written;
    assert bytes[..at] + bytes[at..at + n] == bytes[..at + n];
    forall c: nat | c < |w.firsts|
      ensures StreamIs(frameOf, v, c)
    {
      assert StreamIs(frameOf, w, c);
      assert SentOn(v, c) == SentOn(w, c);
      if c == last {
        Associative(Stream(FramesOf(frameOf, w.ledger.history, SentOn(w, c))), bytes[..at], bytes[at..at + n]);
      }
    }
  }

  /** The whole frame of the held batch has been written. */
  lemma HeldIsWritten(cap: nat, frameOf: Framer, l: Ledger)
    requires Inv(cap, WireOf(frameOf), l) && Enabled(WireOf(frameOf), l.sender, Finish)
    ensures Records(l.history, Range(l.start, |l.sender.batch|)) == l.sender.batch
    ensures Partial(frameOf, l) == FrameBytes(frameOf(l.sender.batch))
  {
    var bytes := WireOf(frameOf)(l.sender.batch);
    assert bytes[..|bytes|] == bytes;
  }

  lemma FinishWorld(cap: nat, frameOf: Framer, w: World)
    requires cap >= 1 && CanStep(frameOf, w, AgentStep(Finish))
    ensures var v, l := WorldStep(cap, frameOf, w, AgentStep(Finish)), w.ledger;
            && l.sender.connected && v.ledger.sender.connected && v.ledger.sender.batch == []
            && v.ledger.history == l.history && v.ledger.sender.streams == l.sender.streams
            && v.ledger.log == l.log + [Range(l.start, |l.sender.batch|)]
            && v.firsts == w.firsts && v.received == w.received
  {
  }

  /** What finishing a send does to the connections: the open one gets one more batch. */
  lemma FinishLinks(cap: nat, frameOf: Framer, w: World)
    requires cap >= 1 && LinksInv(w) && CanStep(frameOf, w, AgentStep(Finish))
    ensures var v, l, last := WorldStep(cap, frameOf, w, AgentStep(Finish)), w.ledger, |w.firsts| - 1;
            && LinksInv(v) && last >= 0 && Live(w, last) && Live(v, last) && Partial(frameOf, v.ledger) == []
            && SentOn(v, last) == SentOn(w, last) + [Range(l.start, |l.sender.batch|)]
            && forall c: nat :: c < last ==> SentOn(v, c) == SentOn(w, c) && !Live(w, c) && !Live(v, c)
  {
    hide WorldStep, CanStep, LedgerStep, FrameBytes;
    FinishWorld(cap, frameOf, w);
  }

  lemma FinishKeeps(cap: nat, frameOf: Framer, w: World)
    requires cap >= 1 && WorldInv(cap, frameOf, w) && CanStep(frameOf, w, AgentStep(Finish))
    ensures StreamsInv(frameOf, WorldStep(cap, frameOf, w, AgentStep(Finish)))
  {
    var v, l, last := WorldStep(cap, frameOf, w, AgentStep(Finish)), w.ledger, |w.firsts| - 1;
    HeldIsWritten(cap, frameOf, l);
    FinishWorld(cap, frameOf, w);
    FinishLinks(cap, frameOf, w);
    hide Inv, WorldStep, CanStep, FramesOf, FrameBytes, Stream, Records, Partial, SentOn, Live;
    OneMoreFrame(frameOf, l.history, SentOn(w, last), Range(l.start, |l.sender.batch|));
    forall c: nat | c < |w.firsts|
      ensures StreamIs(frameOf, v, c)
    {
      assert StreamIs(frameOf, w, c);
    }
  }

  lemma OneMoreFrame(frameOf: Framer, history: seq<SampleRecord>, log: seq<Range>, r: Range)
    ensures FramesOf(frameOf, history, log + [r]) == FramesOf(frameOf, history, log) + [frameOf(Records(history, r))]
    ensures Stream(FramesOf(frameOf, history, log + [r])) + []
            == Stream(FramesOf(frameOf, history, log)) + FrameBytes(frameOf(Records(history, r)))
  {
    var fs, f := FramesOf(frameOf, history, log), frameOf(Records(history, r));
    assert FramesOf(frameOf, history, log + [r]) == fs + [f];
    StreamAppend(fs, [f]);
    assert [f][1..] == [];
    assert Stream([f]) == FrameBytes(f);
  }

  lemma HeldFits(cap: nat, frameOf: Framer, l: Ledger)
    requires Inv(cap, WireOf(frameOf), l) && Sendable(frameOf, l.history) && l.sender.batch != []
    ensures var r := Range(l.start, |l.sender.batch|);
            Batchable(l.history, r) && Records(l.history, r) == l.sender.batch
    ensures Fits(frameOf(l.sender.batch))
  {
  }

  lemma FailKeeps(cap: nat, frameOf: Framer, w: World)
    requires cap >= 1 && WorldInv(cap, frameOf, w) && CanStep(frameOf, w, AgentStep(Fail))
    requires Sendable(frameOf, w.ledger.history)
    ensures StreamsInv(frameOf, WorldStep(cap, frameOf, w, AgentStep(Fail)))
  {
    HeldFits(cap, frameOf, w.ledger);
    hide Inv;
    var v, s := WorldStep(cap, frameOf, w, AgentStep(Fail)), w.ledger.sender;
    assert CutTail(Partial(frameOf, w.ledger)) by {
      assert StrictPrefix(Partial(frameOf, w.ledger), FrameBytes(frameOf(s.batch)));
    }
    forall c: nat | c < |w.firsts|
      ensures StreamIs(frameOf, v, c)
    {
      assert StreamIs(frameOf, w, c);
      assert SentOn(v, c) == SentOn(w, c);
    }
  }

  lemma StepKeeps(cap: nat, frameOf: Framer, w: World, e: NetEvent)
    requires cap >= 1 && WorldInv(cap, frameOf, w) && CanStep(frameOf, w, e)
    requires Sendable(frameOf, w.ledger.history)
    ensures WorldInv(cap, frameOf, WorldStep(cap, frameOf, w, e))
  {
    match e
    case Read(c, n) => ReadKeeps(cap, frameOf, w, c, n);
    case AgentStep(a) =>
      InvStep(cap, WireOf(frameOf), w.ledger, a);
      hide Inv, StreamsInv;
      match a {
        case Enqueue(r) => EnqueueKeeps(cap, frameOf, w, r);
        case ConnectOk => ConnectKeeps(cap, frameOf, w);
        case Write(n) => WriteKeeps(cap, frameOf, w, n);
        case Finish => FinishKeeps(cap, frameOf, w);
        case Fail => FailKeeps(cap, frameOf, w);
        case _ => QuietKeeps(cap, frameOf, w, a);
      }
  }

  lemma HistoryGrows(cap: nat, frameOf: Framer, w: World, e: NetEvent)
    requires cap >= 1 && CanStep(frameOf, w, e) && Sendable(frameOf, WorldStep(cap, frameOf, w, e).ledger.history)
    ensures Sendable(frameOf, w.ledger.history)
  {
    var earlier, later := w.ledger.history, WorldStep(cap, frameOf, w, e).ledger.history;
    assert later == earlier + later[|earlier|..];
    SendablePrefix(frameOf, earlier, later[|earlier|..]);
  }

  lemma {:induction false} HappensInv(cap: nat, frameOf: Framer, events: seq<NetEvent>, w: World)
    requires cap >= 1 && Happens(cap, frameOf, events, w) && Sendable(frameOf, w.ledger.history)
    ensures WorldInv(cap, frameOf, w)
  {
    if events != [] {
      var n := |events| - 1;
      var v :| Happens(cap, frameOf, events[..n], v) && CanStep(frameOf, v, events[n]) &&
               w == WorldStep(cap, frameOf, v, events[n]);
      HistoryGrows(cap, frameOf, v, events[n]);
      hide WorldStep, CanStep, Sendable, WorldInv;
      HappensInv(cap, frameOf, events[..n], v);
      StepKeeps(cap, frameOf, v, events[n]);
    }
  }

  // ---------- what the service handles

  /** The batches whose frame is complete on connection `c`: those sent, and the held one once its last byte
      is on the wire, even though the sender has not erased it yet. */
  function CompleteOn(frameOf: Framer, w: World, c: nat): seq<Range>
    requires c < |w.firsts| && w.firsts[c] <= Until(w, c) <= |w.ledger.log|
  {
    var l := w.ledger;
    SentOn(w, c) +
    if Live(w, c) && l.sender.batch != [] && l.sender.written == |WireOf(frameOf)(l.sender.batch)|
    then [Range(l.start, |l.sender.batch|)] else []
  }

  ghost predicate WholeFramesThenCut(frameOf: Framer, w: World, c: nat)
    requires LinksInv(w) && c < |w.firsts|
  {
    var fs := FramesOf(frameOf, w.ledger.history, CompleteOn(frameOf, w, c));
    exists tail :: CutTail(tail) && w.ledger.sender.streams[c] == Stream(fs) + tail
  }

  lemma StreamShape(cap: nat, frameOf: Framer, w: World, c: nat)
    requires cap >= 1 && WorldInv(cap, frameOf, w) && Sendable(frameOf, w.ledger.history) && c < |w.firsts|
    ensures WholeFramesThenCut(frameOf, w, c)
  {
    var l, sent := w.ledger, SentOn(w, c);
    var s := l.sender;
    assert StreamIs(frameOf, w, c);
    if Live(w, c) && s.batch != [] {
      var f := frameOf(s.batch);
      HeldFits(cap, frameOf, l);
      if s.written == |FrameBytes(f)| {
        OneMoreFrame(frameOf, l.history, sent, Range(l.start, |s.batch|));
        EmptyTailIsCut();
      } else {
        assert sent + [] == sent;
        assert StrictPrefix(Partial(frameOf, l), FrameBytes(f));
      }
    } else {
      assert sent + [] == sent;
      EmptyTailIsCut();
    }
  }

  lemma CompleteFits(cap: nat, frameOf: Framer, w: World, c: nat)
    requires cap >= 1 && WorldInv(cap, frameOf, w) && Sendable(frameOf, w.ledger.history) && c < |w.firsts|
    ensures forall r <- CompleteOn(frameOf, w, c) :: Batchable(w.ledger.history, r)
    ensures AllFit(FramesOf(frameOf, w.ledger.history, CompleteOn(frameOf, w, c)))
  {
    var l, complete := w.ledger, CompleteOn(frameOf, w, c);
    forall r | r in complete
      ensures Batchable(l.history, r)
    {
      if r in SentOn(w, c) {
        assert r in l.log;
      }
    }
    forall i | 0 <= i < |complete|
      ensures Fits(frameOf(Records(l.history, complete[i])))
    {
      assert complete[i] in complete;
    }
  }

  function Server(w: World, c: nat): Conn
    requires c < |w.received|
  {
    ReceiveAll(OPENED, w.received[c])
  }

  /** In every run, whatever the service has handled on a connection is the batches completely sent on it, in
      order and from the first on: a cut frame is never handled, and the stream never loses its place. */
  lemma HandledArePrefix(cap: nat, frameOf: Framer, events: seq<NetEvent>, w: World, c: nat)
    requires cap >= 1 && Happens(cap, frameOf, events, w) && Sendable(frameOf, w.ledger.history)
    requires c < |w.received|
    ensures LinksInv(w)
    ensures Server(w, c).handled <= FramesOf(frameOf, w.ledger.history, CompleteOn(frameOf, w, c))
    ensures Server(w, c).beforeBad == None
  {
    HappensInv(cap, frameOf, events, w);
    StreamShape(cap, frameOf, w, c);
    var fs := FramesOf(frameOf, w.ledger.history, CompleteOn(frameOf, w, c));
    var tail :| CutTail(tail) && w.ledger.sender.streams[c] == Stream(fs) + tail;
    CompleteFits(cap, frameOf, w, c);
    hide ReceiveAll, ParseAll, Stream;
    ParsePrefix(fs, tail, Concat(w.received[c]));
    ChunkInvariance(w.received[c]);
  }

  /** Once the service has read everything on a connection, it has handled every batch sent there. */
  lemma AllReadAllHandled(cap: nat, frameOf: Framer, events: seq<NetEvent>, w: World, c: nat)
    requires cap >= 1 && Happens(cap, frameOf, events, w) && Sendable(frameOf, w.ledger.history)
    requires c < |w.received| && c < |w.ledger.sender.streams| && Concat(w.received[c]) == w.ledger.sender.streams[c]
    ensures LinksInv(w)
    ensures Server(w, c).handled == FramesOf(frameOf, w.ledger.history, CompleteOn(frameOf, w, c))
  {
    HappensInv(cap, frameOf, events, w);
    StreamShape(cap, frameOf, w, c);
    CompleteFits(cap, frameOf, w, c);
    var fs := FramesOf(frameOf, w.ledger.history, CompleteOn(frameOf, w, c));
    var tail :| CutTail(tail) && w.ledger.sender.streams[c] == Stream(fs) + tail;
    hide ReceiveAll, ParseAll, Stream;
    ParseStream(fs, tail);
    ChunkInvariance(w.received[c]);
  }

  /** The batches the service has handled on connection `c`. */
  function HandledOn(frameOf: Framer, w: World, c: nat): seq<Range>
    requires LinksInv(w) && c < |w.received|
    requires |Server(w, c).handled| <= |CompleteOn(frameOf, w, c)|
  {
    CompleteOn(frameOf, w, c)[..|Server(w, c).handled|]
  }

  predicate Before(r: Range, q: Range) {
    r.first + r.size <= q.first
  }

  /** No record is handled twice: on each connection the handled batches advance through the history without
      overlap, and every batch handled on an earlier connection ends before any handled on a later one. */
  lemma HandledAtMostOnce(cap: nat, frameOf: Framer, events: seq<NetEvent>, w: World, c: nat, d: nat)
    requires cap >= 1 && Happens(cap, frameOf, events, w) && Sendable(frameOf, w.ledger.history)
    requires c <= d < |w.received|
    ensures LinksInv(w)
    ensures |Server(w, c).handled| <= |CompleteOn(frameOf, w, c)|
    ensures |Server(w, d).handled| <= |CompleteOn(frameOf, w, d)|
    ensures Server(w, c).handled == FramesOf(frameOf, w.ledger.history, HandledOn(frameOf, w, c))
    ensures var a, b := HandledOn(frameOf, w, c), HandledOn(frameOf, w, d);
            forall i, j :: 0 <= i < |a| && 0 <= j < |b| && (c < d || i < j) ==> Before(a[i], b[j])
  {
    HandledArePrefix(cap, frameOf, events, w, c);
    HandledArePrefix(cap, frameOf, events, w, d);
    HappensInv(cap, frameOf, events, w);
    CompleteAdvance(frameOf, w, c, d);
    hide Happens, WorldInv, CompleteOn, FramesOf, Server, Before;
    var handled := Server(w, c).handled;
    FramesTake(frameOf, w.ledger.history, CompleteOn(frameOf, w, c), |handled|);
    assert handled == FramesOf(frameOf, w.ledger.history, CompleteOn(frameOf, w, c))[..|handled|];
  }

  lemma FramesTake(frameOf: Framer, history: seq<SampleRecord>, log: seq<Range>, n: nat)
    requires n <= |log|
    ensures FramesOf(frameOf, history, log[..n]) == FramesOf(frameOf, history, log)[..n]
  {
  }

  lemma {:induction false} FirstsGrow(w: World, c: nat, d: nat)
    requires LinksInv(w) && c < d < |w.firsts|
    ensures Until(w, c) <= w.firsts[d]
    decreases d - c
  {
    if c + 1 < d {
      FirstsGrow(w, c + 1, d);
    }
  }

  /** The batches sent, and then the one that is held. */
  function LogAndHeld(l: Ledger): seq<Range> {
    l.log + if l.sender.batch != [] then [Range(l.start, |l.sender.batch|)] else []
  }

  lemma LogAdvances(l: Ledger, i: nat, j: nat)
    requires LogInv(l) && i < j < |LogAndHeld(l)|
    ensures Before(LogAndHeld(l)[i], LogAndHeld(l)[j])
  {
    assert l.log[i] in l.log;
  }

  lemma CompleteIndex(frameOf: Framer, w: World, c: nat, i: nat)
    requires LinksInv(w) && c < |w.firsts| && i < |CompleteOn(frameOf, w, c)|
    ensures w.firsts[c] + i < |LogAndHeld(w.ledger)|
    ensures CompleteOn(frameOf, w, c)[i] == LogAndHeld(w.ledger)[w.firsts[c] + i]
    ensures c + 1 < |w.firsts| ==> w.firsts[c] + i < Until(w, c)
  {
    hide FrameBytes;
  }

  lemma CompleteAdvance(frameOf: Framer, w: World, c: nat, d: nat)
    requires LogInv(w.ledger) && LinksInv(w) && c <= d < |w.firsts|
    ensures var a, b := CompleteOn(frameOf, w, c), CompleteOn(frameOf, w, d);
            forall i, j :: 0 <= i < |a| && 0 <= j < |b| && (c < d || i < j) ==> Before(a[i], b[j])
  {
    if c < d {
      FirstsGrow(w, c, d);
    }
    hide LogInv, CompleteOn, LogAndHeld, Before;
    var a, b := CompleteOn(frameOf, w, c), CompleteOn(frameOf, w, d);
    forall i, j | 0 <= i < |a| && 0 <= j < |b| && (c < d || i < j)
      ensures Before(a[i], b[j])
    {
      CompleteIndex(frameOf, w, c, i);
      CompleteIndex(frameOf, w, d, j);
      LogAdvances(w.ledger, w.firsts[c] + i, w.firsts[d] + j);
    }
  }

  // ---------- nothing goes missing between the agent and the service

  /** The service has handled a batch that holds the record at position `p` of the history. */
  ghost predicate HandledAt(frameOf: Framer, w: World, p: nat) {
    LinksInv(w) && p < |w.ledger.history| &&
    exists c: nat, r :: InHandled(frameOf, w, c, r) && r.first <= p < r.first + r.size
  }

  ghost predicate InHandled(frameOf: Framer, w: World, c: nat, r: Range)
    requires LinksInv(w)
  {
    && c < |w.received|
    && |Server(w, c).handled| <= |CompleteOn(frameOf, w, c)|
    && r in HandledOn(frameOf, w, c)
  }
}
