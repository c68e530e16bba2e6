/** Counting records from the agent's queue to the service: none is unaccounted for. */
module Balance {
  import opened Common
  import opened Framing
  import opened Reassembly
  import opened Sender
  import opened Accounting
  import opened Delivery

  ghost function HandledPositions(frameOf: Framer, w: World): set<nat> {
    set p: nat | p < |w.ledger.history| && HandledAt(frameOf, w, p)
  }

  /** Every whole frame that was sent on connection `c` has been read to its end. */
  ghost predicate FramesRead(frameOf: Framer, w: World, c: nat) {
    && LinksInv(w) && c < |w.received|
    && |Concat(w.received[c])| >= |Stream(FramesOf(frameOf, w.ledger.history, SentOn(w, c)))|
  }

  // ---------- how many frames have been handled

  /** A prefix of a stream of frames parses to all of them exactly when it reaches to the end of the last one. */
  lemma WholeFramesParsed(fs: seq<Frame>, tail: seq<Byte>, s: seq<Byte>)
    requires AllFit(fs) && CutTail(tail) && s <= Stream(fs) + tail
    ensures !ParseAll(s).desync && ParseAll(s).frames <= fs
    ensures |ParseAll(s).frames| == |fs| <==> |s| >= |Stream(fs)|
  {
    hide ParseAll, Stream, DecodeFrame, FrameBytes;
    ParsePrefix(fs, tail, s);
    ParseIsExact(s);
    if |ParseAll(s).frames| == |fs| {
      assert ParseAll(s).frames == fs;
    }
    if |s| >= |Stream(fs)| {
      var cut := tail[..|s| - |Stream(fs)|];
      assert s == Stream(fs) + cut;
      ShorterTail(tail, cut);
      ParseStream(fs, cut);
    }
  }

  lemma ShorterTail(tail: seq<Byte>, cut: seq<Byte>)
    requires CutTail(tail) && cut <= tail
    ensures CutTail(cut)
  {
    hide FrameBytes;
    var f :| Fits(f) && StrictPrefix(tail, FrameBytes(f));
    assert StrictPrefix(cut, FrameBytes(f));
  }

  /** With no batch held, a connection has handled a prefix of what was sent on it, and all of it exactly when
      its whole frames have been read. */
  lemma HandledOfSent(cap: nat, frameOf: Framer, events: seq<NetEvent>, w: World, c: nat)
    requires cap >= 1 && Happens(cap, frameOf, events, w) && Sendable(frameOf, w.ledger.history)
    requires w.ledger.sender.batch == [] && c < |w.received|
    ensures LinksInv(w) && |Server(w, c).handled| <= |SentOn(w, c)| && CompleteOn(frameOf, w, c) == SentOn(w, c)
    ensures |Server(w, c).handled| == |SentOn(w, c)| <==> FramesRead(frameOf, w, c)
  {
    HappensInv(cap, frameOf, events, w);
    StreamShape(cap, frameOf, w, c);
    CompleteFits(cap, frameOf, w, c);
    assert SentOn(w, c) + [] == SentOn(w, c);
    var fs := FramesOf(frameOf, w.ledger.history, SentOn(w, c));
    var tail :| CutTail(tail) && w.ledger.sender.streams[c] == Stream(fs) + tail;
    assert Concat(w.received[c]) <= w.ledger.sender.streams[c];
    hide Happens, WorldInv, ReceiveAll, ParseAll, Stream, Concat, SentOn, CompleteOn;
    WholeFramesParsed(fs, tail, Concat(w.received[c]));
    ChunkInvariance(w.received[c]);
  }

  // ---------- the log and the connections

  lemma {:induction false} SentSetMembers(log: seq<Range>, p: nat)
    ensures p in SentSet(log) <==> exists r <- log :: r.first <= p < r.first + r.size
  {
    if log != [] {
      SentSetMembers(log[..|log| - 1], p);
    }
  }

  /** Every sent batch was sent on some connection. */
  lemma SentSomewhere(w: World, i: nat) returns (c: nat)
    requires LinksInv(w) && i < |w.ledger.log|
    ensures c < |w.received| && w.firsts[c] <= i < Until(w, c)
  {
    c := |w.firsts| - 1;
    while w.firsts[c] > i
      invariant c < |w.firsts| && i < Until(w, c)
      decreases c
    {
      c := c - 1;
    }
  }

  /** The sent batches have the same places on their connections and in the log. */
  lemma SentPlace(w: World, c: nat, k: nat)
    requires LinksInv(w) && c < |w.received| && k < |SentOn(w, c)|
    ensures c < |w.firsts| && w.firsts[c] + k < Until(w, c) <= |w.ledger.log|
    ensures SentOn(w, c)[k] == w.ledger.log[w.firsts[c] + k]
  {
  }

  /** A place in the log belongs to one connection only. */
  lemma SamePlace(w: World, c: nat, k: nat, d: nat, j: nat)
    requires LinksInv(w) && c < |w.received| && d < |w.received|
    requires w.firsts[c] + k < Until(w, c) && w.firsts[d] + j < Until(w, d) && w.firsts[c] + k == w.firsts[d] + j
    ensures c == d && k == j
  {
    if c < d {
      FirstsGrow(w, c, d);
    } else if d < c {
      FirstsGrow(w, d, c);
    }
  }

  lemma SentBatch(cap: nat, frameOf: Framer, events: seq<NetEvent>, w: World, i: nat)
    requires cap >= 1 && Happens(cap, frameOf, events, w) && Sendable(frameOf, w.ledger.history)
    requires i < |w.ledger.log|
    ensures LinksInv(w) && w.ledger.log[i].size > 0
    ensures w.ledger.log[i].first + w.ledger.log[i].size <= |w.ledger.history|
    ensures forall j :: 0 <= j < i ==> Before(w.ledger.log[j], w.ledger.log[i])
  {
    HappensInv(cap, frameOf, events, w);
    hide Happens, Sendable;
    assert LogInv(w.ledger) && Frontier(w.ledger) <= |w.ledger.history| && w.ledger.log[i] in w.ledger.log;
  }

  // ---------- handled and sent

  /** A handled position lies in a batch at a handled place of its connection. */
  lemma HandledPlace(cap: nat, frameOf: Framer, events: seq<NetEvent>, w: World, p: nat) returns (c: nat, k: nat)
    requires cap >= 1 && Happens(cap, frameOf, events, w) && Sendable(frameOf, w.ledger.history)
    requires w.ledger.sender.batch == [] && HandledAt(frameOf, w, p)
    ensures LinksInv(w) && c < |w.received| && k < |Server(w, c).handled| <= |SentOn(w, c)|
    ensures SentOn(w, c)[k].first <= p < SentOn(w, c)[k].first + SentOn(w, c)[k].size
  {
    hide Happens, Sendable, LinksInv, SentOn, Server, CompleteOn;
    var r;
    c, r :| InHandled(frameOf, w, c, r) && r.first <= p < r.first + r.size;
    HandledOfSent(cap, frameOf, events, w, c);
    k :| 0 <= k < |HandledOn(frameOf, w, c)| && HandledOn(frameOf, w, c)[k] == r;
  }

  lemma HandledIsSent(cap: nat, frameOf: Framer, events: seq<NetEvent>, w: World, p: nat)
    requires cap >= 1 && Happens(cap, frameOf, events, w) && Sendable(frameOf, w.ledger.history)
    requires w.ledger.sender.batch == [] && HandledAt(frameOf, w, p)
    ensures p in SentSet(w.ledger.log)
  {
    hide Happens, Sendable, LinksInv, SentOn, Server, SentSet;
    var c, k := HandledPlace(cap, frameOf, events, w, p);
    SentPlace(w, c, k);
    assert SentOn(w, c)[k] in w.ledger.log;
    SentSetMembers(w.ledger.log, p);
  }

  /** What is sent on a connection whose frames have been read is handled. */
  lemma ReadIsHandled(cap: nat, frameOf: Framer, events: seq<NetEvent>, w: World, p: nat)
    requires cap >= 1 && Happens(cap, frameOf, events, w) && Sendable(frameOf, w.ledger.history)
    requires w.ledger.sender.batch == [] && p in SentSet(w.ledger.log)
    requires forall c: nat :: c < |w.received| ==> FramesRead(frameOf, w, c)
    ensures p < |w.ledger.history| && HandledAt(frameOf, w, p)
  {
    SentSetMembers(w.ledger.log, p);
    hide Happens, Sendable, LinksInv, Server, CompleteOn, SentSet, FramesRead, Before;
    var i :| 0 <= i < |w.ledger.log| && w.ledger.log[i].first <= p < w.ledger.log[i].first + w.ledger.log[i].size;
    SentBatch(cap, frameOf, events, w, i);
    var c := SentSomewhere(w, i);
    HandledOfSent(cap, frameOf, events, w, c);
    HandledSent(frameOf, w, c, i);
    assert InHandled(frameOf, w, c, w.ledger.log[i]);
  }

  lemma HandledSent(frameOf: Framer, w: World, c: nat, i: nat)
    requires LinksInv(w) && c < |w.received| && w.firsts[c] <= i < Until(w, c)
    requires CompleteOn(frameOf, w, c) == SentOn(w, c) && |Server(w, c).handled| == |SentOn(w, c)|
    ensures w.ledger.log[i] in HandledOn(frameOf, w, c)
  {
    hide CompleteOn, Server;
    assert SentOn(w, c)[i - w.firsts[c]] == w.ledger.log[i];
  }

  /** A connection with a frame not read to its end has a sent record that is not handled. */
  lemma UnreadIsUnhandled(cap: nat, frameOf: Framer, events: seq<NetEvent>, w: World, c: nat) returns (p: nat)
    requires cap >= 1 && Happens(cap, frameOf, events, w) && Sendable(frameOf, w.ledger.history)
    requires w.ledger.sender.batch == [] && c < |w.received| && !FramesRead(frameOf, w, c)
    ensures p in SentSet(w.ledger.log) && !HandledAt(frameOf, w, p)
  {
    hide Happens, Sendable, LinksInv, Server, SentOn, SentSet, FramesRead, HandledAt;
    HandledOfSent(cap, frameOf, events, w, c);
    var k := |Server(w, c).handled|;
    SentPlace(w, c, k);
    var i := w.firsts[c] + k;
    SentBatch(cap, frameOf, events, w, i);
    p := w.ledger.log[i].first;
    SentSetMembers(w.ledger.log, p);
    if HandledAt(frameOf, w, p) {
      var d, j := HandledPlace(cap, frameOf, events, w, p);
      SentPlace(w, d, j);
      SentBatch(cap, frameOf, events, w, w.firsts[d] + j);
      SamePlace(w, c, k, d, j);
    }
  }

  /** Conservation from the agent's queue to the service, with no batch held: each enqueued record is queued,
      handled, sent but not handled yet, or counted as dropped; and none is left between the two exactly when
      every whole frame on every connection has been read to its end. */
  lemma EverythingAccounted(cap: nat, frameOf: Framer, events: seq<NetEvent>, w: World)
    requires cap >= 1 && Happens(cap, frameOf, events, w) && Sendable(frameOf, w.ledger.history)
    requires w.ledger.sender.batch == []
    ensures var handled, sent := HandledPositions(frameOf, w), SentSet(w.ledger.log);
            && handled <= sent
            && |w.ledger.history|
               == |w.ledger.sender.queue| + |handled| + |sent - handled| + w.ledger.sender.dropped
            && (sent - handled == {} <==> forall c: nat :: c < |w.received| ==> FramesRead(frameOf, w, c))
  {
    HappensInv(cap, frameOf, events, w);
    assert Inv(cap, WireOf(frameOf), w.ledger);
    hide Happens, Sendable, SentSet, HandledAt, FramesRead, Inv, WorldInv;
    InvConserves(cap, WireOf(frameOf), w.ledger);
    var handled, sent := HandledPositions(frameOf, w), SentSet(w.ledger.log);
    forall p | p in handled
      ensures p in sent
    {
      HandledIsSent(cap, frameOf, events, w, p);
    }
    assert sent == handled + (sent - handled);
    DisjointSizes(handled, sent - handled);
    if forall c: nat :: c < |w.received| ==> FramesRead(frameOf, w, c) {
      forall p | p in sent
        ensures p in handled
      {
        ReadIsHandled(cap, frameOf, events, w, p);
      }
    } else {
      var c: nat :| c < |w.received| && !FramesRead(frameOf, w, c);
      var p := UnreadIsUnhandled(cap, frameOf, events, w, c);
      assert p in sent - handled;
    }
  }

  // ---------- reading can always catch up

  /** What can happen next in a state that a run has led to: any step of the sender that its own state allows, and
      reading any number of the unread bytes of any connection. */
  lemma CanStepExactly(cap: nat, frameOf: Framer, events: seq<NetEvent>, w: World, e: NetEvent)
    requires cap >= 1 && Happens(cap, frameOf, events, w) && Sendable(frameOf, w.ledger.history)
    ensures e.AgentStep? ==> (CanStep(frameOf, w, e) <==> Enabled(WireOf(frameOf), w.ledger.sender, e.e))
    ensures e.Read? ==>
              (CanStep(frameOf, w, e) <==>
                e.link < |w.received| == |w.ledger.sender.streams| && e.n > 0 &&
                |Concat(w.received[e.link])| + e.n <= |w.ledger.sender.streams[e.link]|)
  {
    HappensInv(cap, frameOf, events, w);
    hide Happens, Sendable, Concat;
  }

  lemma HappensOneMore(cap: nat, frameOf: Framer, events: seq<NetEvent>, w: World, e: NetEvent)
    requires cap >= 1 && Happens(cap, frameOf, events, w) && CanStep(frameOf, w, e)
    ensures Happens(cap, frameOf, events + [e], WorldStep(cap, frameOf, w, e))
  {
    hide CanStep, WorldStep;
    assert (events + [e])[..|events|] == events;
  }

  lemma ReadSoFar(cap: nat, frameOf: Framer, events: seq<NetEvent>, w: World, c: nat)
    requires cap >= 1 && Happens(cap, frameOf, events, w) && Sendable(frameOf, w.ledger.history)
    requires c < |w.received| == |w.ledger.sender.streams|
    ensures LinksInv(w) && |w.firsts| == |w.received| && Concat(w.received[c]) <= w.ledger.sender.streams[c]
  {
    HappensInv(cap, frameOf, events, w);
    hide Happens, Sendable;
  }

  lemma ReadAll(cap: nat, frameOf: Framer, w: World, c: nat)
    requires cap >= 1 && c < |w.received| && c < |w.ledger.sender.streams|
    requires Concat(w.received[c]) <= w.ledger.sender.streams[c]
    requires var n := |w.ledger.sender.streams[c]| - |Concat(w.received[c])|; n > 0 && CanStep(frameOf, w, Read(c, n))
    ensures var n := |w.ledger.sender.streams[c]| - |Concat(w.received[c])|;
            var v := WorldStep(cap, frameOf, w, Read(c, n));
            c < |v.received| && Concat(v.received[c]) == w.ledger.sender.streams[c]
  {
    hide Concat, ReceiveAll, Receive;
    var stream, at := w.ledger.sender.streams[c], |Concat(w.received[c])|;
    ReceiveLast(OPENED, w.received[c], stream[at..|stream|]);
    assert stream[..at] + stream[at..|stream|] == stream;
  }

  /** Reading the rest of one connection. */
  lemma ReadRest(cap: nat, frameOf: Framer, events: seq<NetEvent>, w: World, c: nat)
    returns (more: seq<NetEvent>, v: World)
    requires cap >= 1 && Happens(cap, frameOf, events, w) && Sendable(frameOf, w.ledger.history)
    requires c < |w.received| == |w.ledger.sender.streams|
    ensures Happens(cap, frameOf, more, v) && v.ledger == w.ledger && |v.received| == |w.received|
    ensures Concat(v.received[c]) == w.ledger.sender.streams[c]
    ensures forall d: nat :: d < |w.received| && d != c ==> v.received[d] == w.received[d]
  {
    hide Happens, Sendable, Concat, WorldStep, CanStep, LinksInv, Live, SentOn;
    var stream, at := w.ledger.sender.streams[c], |Concat(w.received[c])|;
    ReadSoFar(cap, frameOf, events, w, c);
    if at == |stream| {
      more, v := events, w;
    } else {
      var e := Read(c, |stream| - at);
      CanStepExactly(cap, frameOf, events, w, e);
      HappensOneMore(cap, frameOf, events, w, e);
      more, v := events + [e], WorldStep(cap, frameOf, w, e);
      ReadLinks(cap, frameOf, w, c, |stream| - at);
      ReadAll(cap, frameOf, w, c);
    }
  }

  /** From every state that a run leads to, reading alone leads to one in which everything on the wire is read. */
  lemma EverythingCanBeRead(cap: nat, frameOf: Framer, events: seq<NetEvent>, w: World)
    returns (more: seq<NetEvent>, v: World)
    requires cap >= 1 && Happens(cap, frameOf, events, w) && Sendable(frameOf, w.ledger.history)
    ensures Happens(cap, frameOf, more, v) && v.ledger == w.ledger
    ensures |v.received| == |w.received| == |w.ledger.sender.streams|
    ensures forall c: nat :: c < |v.received| ==> Concat(v.received[c]) == w.ledger.sender.streams[c]
  {
    HappensInv(cap, frameOf, events, w);
    assert |w.received| == |w.ledger.sender.streams|;
    hide Happens, Sendable, WorldInv, Concat;
    more, v := events, w;
    for c := 0 to |w.received|
      invariant Happens(cap, frameOf, more, v) && v.ledger == w.ledger && |v.received| == |w.received|
      invariant forall d: nat :: d < c ==> Concat(v.received[d]) == w.ledger.sender.streams[d]
    {
      more, v := ReadRest(cap, frameOf, more, v, c);
    }
  }
}
