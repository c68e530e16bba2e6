/** Several agents writing into one table. */
module Fleet {
  import opened Common
  import opened Framing
  import opened Samples
  import opened Ingest
  import opened Delivery
  import opened Persistence

  datatype AgentConfig = AgentConfig(node: string, cap: nat)

  /** A handled frame, and whose it was. */
  datatype Entry = Entry(agent: nat, handling: Handling)

  /** Each agent with its connections, and the table that it would have alone; the tables that the agents share;
      and every frame that the service has handled, in order. */
  datatype Fleet = Fleet(sites: seq<Site>, tables: Tables, log: seq<Entry>)

  /** An event at one of the agents or its connections. */
  datatype FleetEvent = FleetEvent(agent: nat, event: SiteEvent)

  predicate ValidAgents(agents: seq<AgentConfig>) {
    forall a <- agents :: a.cap >= 1
  }

  function Tagged(x: nat, hs: seq<Handling>): (es: seq<Entry>)
    ensures |es| == |hs| && forall i :: 0 <= i < |hs| ==> es[i] == Entry(x, hs[i])
  {
    seq(|hs|, i requires 0 <= i < |hs| => Entry(x, hs[i]))
  }

  function Untagged(log: seq<Entry>): (hs: seq<Handling>)
    ensures |hs| == |log| && forall i :: 0 <= i < |log| ==> hs[i] == log[i].handling
  {
    seq(|log|, i requires 0 <= i < |log| => log[i].handling)
  }

  /** The frames of one agent. */
  function Own(log: seq<Entry>, x: nat): seq<Handling> {
    if log == [] then []
    else
      var n := |log| - 1;
      Own(log[..n], x) + if log[n].agent == x then [log[n].handling] else []
  }

  predicate FleetCanStep(agents: seq<AgentConfig>, codec: Codec, f: Fleet, e: FleetEvent) {
    && |agents| == |f.sites| && e.agent < |agents|
    && CanStep(FramerOf(agents[e.agent].node, codec), f.sites[e.agent].world, e.event.net)
  }

  function FleetStep(agents: seq<AgentConfig>, codec: Codec, f: Fleet, e: FleetEvent): Fleet
    requires ValidAgents(agents) && FleetCanStep(agents, codec, f, e)
  {
    var a, s, net := agents[e.agent], f.sites[e.agent], e.event.net;
    assert a in agents;
    var t := SiteStep(a.cap, a.node, codec, s, e.event);
    if net.Read? then
      ReadExtends(a.cap, FramerOf(a.node, codec), s.world, net.link, net.n);
      var fs := NewFrames(s.world, t.world, net.link);
      Fleet(f.sites[e.agent := t], HandleFrames(f.tables, codec, e.event.clock, 0, fs),
            f.log + Tagged(e.agent, Handlings(net.link, fs, e.event.clock)))
    else Fleet(f.sites[e.agent := t], f.tables, f.log)
  }

  ghost predicate FleetMoves(agents: seq<AgentConfig>, codec: Codec, g: Fleet, e: FleetEvent, f: Fleet)
    requires ValidAgents(agents)
  {
    FleetCanStep(agents, codec, g, e) && f == FleetStep(agents, codec, g, e)
  }

  function Assembled(agents: seq<AgentConfig>): Fleet {
    Fleet(seq(|agents|, _ => IDLE), NO_ROWS, [])
  }

  ghost predicate FleetHappens(agents: seq<AgentConfig>, codec: Codec, events: seq<FleetEvent>, f: Fleet)
    requires ValidAgents(agents)
  {
    if events == [] then f == Assembled(agents)
    else
      var n := |events| - 1;
      exists g :: FleetHappens(agents, codec, events[..n], g) && FleetMoves(agents, codec, g, events[n], f)
  }

  // ---------- each agent on its own

  function EventsOf(events: seq<FleetEvent>, x: nat): seq<SiteEvent> {
    if events == [] then []
    else
      var n := |events| - 1;
      EventsOf(events[..n], x) + if events[n].agent == x then [events[n].event] else []
  }

  lemma MoveOfOne(agents: seq<AgentConfig>, codec: Codec, g: Fleet, e: FleetEvent, f: Fleet, x: nat)
    requires ValidAgents(agents) && FleetMoves(agents, codec, g, e, f) && x < |agents|
    ensures |g.sites| == |f.sites| == |agents| && agents[x].cap >= 1
    ensures if e.agent == x then SiteMoves(agents[x].cap, agents[x].node, codec, g.sites[x], e.event, f.sites[x])
            else f.sites[x] == g.sites[x]
  {
    hide CanStep, SiteStep, HandleFrames;
    assert agents[x] in agents;
  }

  lemma SiteHappensMore(
    cap: nat, node: string, codec: Codec, events: seq<SiteEvent>, r: Site, e: SiteEvent, s: Site)
    requires cap >= 1 && SiteHappens(cap, node, codec, events, r) && SiteMoves(cap, node, codec, r, e, s)
    ensures SiteHappens(cap, node, codec, events + [e], s)
  {
    hide SiteMoves;
    assert (events + [e])[..|events|] == events;
  }

  lemma OwnRunMore(
    agents: seq<AgentConfig>, codec: Codec, events: seq<FleetEvent>, g: Fleet, e: FleetEvent, f: Fleet, x: nat)
    requires ValidAgents(agents) && FleetMoves(agents, codec, g, e, f) && x < |agents|
    requires |g.sites| == |agents| && agents[x].cap >= 1
    requires SiteHappens(agents[x].cap, agents[x].node, codec, EventsOf(events, x), g.sites[x])
    ensures |f.sites| == |agents|
    ensures SiteHappens(agents[x].cap, agents[x].node, codec, EventsOf(events + [e], x), f.sites[x])
  {
    hide FleetMoves, SiteMoves, SiteHappens;
    var a, own := agents[x], EventsOf(events, x);
    assert (events + [e])[..|events|] == events && own + [] == own;
    MoveOfOne(agents, codec, g, e, f, x);
    if e.agent == x {
      SiteHappensMore(a.cap, a.node, codec, own, g.sites[x], e.event, f.sites[x]);
    }
  }

  lemma AloneAtFirst(agents: seq<AgentConfig>, codec: Codec, x: nat)
    requires ValidAgents(agents) && x < |agents|
    ensures agents[x].cap >= 1
    ensures SiteHappens(agents[x].cap, agents[x].node, codec, EventsOf([], x), Assembled(agents).sites[x])
  {
    assert agents[x] in agents;
  }

  /** What one agent and its connections do is a run of their own. */
  lemma {:induction false} OwnRun(
    agents: seq<AgentConfig>, codec: Codec, events: seq<FleetEvent>, f: Fleet, x: nat)
    requires ValidAgents(agents) && FleetHappens(agents, codec, events, f) && x < |agents|
    ensures |f.sites| == |agents| && agents[x].cap >= 1
    ensures SiteHappens(agents[x].cap, agents[x].node, codec, EventsOf(events, x), f.sites[x])
  {
    hide FleetMoves, SiteHappens, EventsOf;
    AloneAtFirst(agents, codec, x);
    if events != [] {
      var n := |events| - 1;
      var g :| FleetHappens(agents, codec, events[..n], g) && FleetMoves(agents, codec, g, events[n], f);
      OwnRun(agents, codec, events[..n], g, x);
      OwnRunMore(agents, codec, events[..n], g, events[n], f, x);
      assert events[..n] + [events[n]] == events;
    }
  }

  // ---------- the shared log

  ghost predicate FleetInv(agents: seq<AgentConfig>, codec: Codec, f: Fleet) {
    && |f.sites| == |agents|
    && f.tables == Replay(codec, Untagged(f.log))
    && (forall e <- f.log :: e.agent < |agents|)
    && (forall x: nat :: x < |agents| ==> Own(f.log, x) == f.sites[x].log)
  }

  lemma OwnOneMore(log: seq<Entry>, e: Entry, x: nat)
    ensures Own(log + [e], x) == Own(log, x) + if e.agent == x then [e.handling] else []
  {
    assert (log + [e])[..|log|] == log;
  }

  lemma {:induction false} OwnTagged(log: seq<Entry>, y: nat, hs: seq<Handling>, x: nat)
    ensures Own(log + Tagged(y, hs), x) == Own(log, x) + if x == y then hs else []
  {
    hide Own;
    if hs == [] {
      assert log + Tagged(y, hs) == log;
    } else {
      var n := |hs| - 1;
      var earlier, last := Tagged(y, hs[..n]), Entry(y, hs[n]);
      OwnTagged(log, y, hs[..n], x);
      assert Tagged(y, hs) == earlier + [last] && hs[..n] + [hs[n]] == hs;
      Associative(log, earlier, [last]);
      OwnOneMore(log + earlier, last, x);
      Associative(Own(log, x), hs[..n], [hs[n]]);
    }
  }

  lemma ReadLogs(agents: seq<AgentConfig>, codec: Codec, g: Fleet, e: FleetEvent, f: Fleet)
    returns (fs: seq<Frame>, hs: seq<Handling>)
    requires ValidAgents(agents) && FleetMoves(agents, codec, g, e, f) && e.event.net.Read?
    ensures hs == Handlings(e.event.net.link, fs, e.event.clock)
    ensures f.tables == HandleFrames(g.tables, codec, e.event.clock, 0, fs) && f.log == g.log + Tagged(e.agent, hs)
    ensures |f.sites| == |g.sites| && e.agent < |g.sites|
    ensures forall x: nat :: x < |g.sites| ==>
              f.sites[x].log == g.sites[x].log + if x == e.agent then hs else []
  {
    var a, s, net := agents[e.agent], g.sites[e.agent], e.event.net;
    assert a in agents;
    ReadExtends(a.cap, FramerOf(a.node, codec), s.world, net.link, net.n);
    fs := NewFrames(s.world, f.sites[e.agent].world, net.link);
    hs := Handlings(net.link, fs, e.event.clock);
    hide HandleFrames, WorldStep, CanStep, Server;
    assert forall x: nat :: x < |g.sites| && x != e.agent ==> g.sites[x].log + [] == f.sites[x].log;
  }

  lemma ReadKeepsFleet(agents: seq<AgentConfig>, codec: Codec, g: Fleet, e: FleetEvent, f: Fleet)
    requires ValidAgents(agents) && FleetMoves(agents, codec, g, e, f) && FleetInv(agents, codec, g)
    requires e.event.net.Read?
    ensures FleetInv(agents, codec, f)
  {
    hide FleetMoves, HandleFrames, Replay, Own;
    var fs, hs := ReadLogs(agents, codec, g, e, f);
    ReplayMore(codec, Untagged(g.log), e.event.net.link, fs, e.event.clock);
    assert Untagged(f.log) == Untagged(g.log) + hs;
    forall x: nat | x < |agents|
      ensures Own(f.log, x) == f.sites[x].log
    {
      OwnTagged(g.log, e.agent, hs, x);
      assert g.sites[x].log + [] == g.sites[x].log;
    }
  }

  lemma AgentKeepsFleet(agents: seq<AgentConfig>, codec: Codec, g: Fleet, e: FleetEvent, f: Fleet)
    requires ValidAgents(agents) && FleetMoves(agents, codec, g, e, f) && FleetInv(agents, codec, g)
    requires e.event.net.AgentStep?
    ensures FleetInv(agents, codec, f)
  {
    hide HandleFrames, Replay, Own, WorldStep, CanStep, Untagged;
    assert f.log == g.log && f.tables == g.tables && |f.sites| == |g.sites|;
    assert forall x: nat :: x < |agents| ==> f.sites[x].log == g.sites[x].log;
    hide FleetMoves;
  }

  lemma {:induction false} FleetHappensInv(agents: seq<AgentConfig>, codec: Codec, events: seq<FleetEvent>, f: Fleet)
    requires ValidAgents(agents) && FleetHappens(agents, codec, events, f)
    ensures FleetInv(agents, codec, f)
  {
    hide FleetMoves;
    if events != [] {
      var n := |events| - 1;
      var g :| FleetHappens(agents, codec, events[..n], g) && FleetMoves(agents, codec, g, events[n], f);
      FleetHappensInv(agents, codec, events[..n], g);
      hide FleetInv, FleetHappens;
      if events[n].event.net.Read? {
        ReadKeepsFleet(agents, codec, g, events[n], f);
      } else {
        AgentKeepsFleet(agents, codec, g, events[n], f);
      }
    }
  }

  // ---------- the rows of one node

  /** The tables agree on one key. */
  ghost predicate AgreeAt(t: SampleTable, u: SampleTable, k: SampleKey) {
    (k in t <==> k in u) && (k in t ==> t[k] == u[k])
  }

  lemma {:induction false} InsertAgrees(t: SampleTable, u: SampleTable, rows: seq<SampleRow>, k: SampleKey)
    requires AgreeAt(t, u, k)
    ensures AgreeAt(InsertRows(t, rows), InsertRows(u, rows), k)
  {
    if rows != [] {
      InsertAgrees(t, u, rows[..|rows| - 1], k);
    }
  }

  lemma HandleAgrees(t: Tables, u: Tables, codec: Codec, f: Frame, at: Instant, k: SampleKey)
    requires AgreeAt(t.samples, u.samples, k)
    ensures AgreeAt(HandleFrame(t, codec, f, at).samples, HandleFrame(u, codec, f, at).samples, k)
  {
    if f.tag == SampleBatchTag {
      InsertAgrees(t.samples, u.samples, BatchRows(codec.decodeBatch(f.payload), at), k);
    }
  }

  /** Only the frames of agent `x` carry acceptable samples with key `k`. */
  ghost predicate OnlyFrom(codec: Codec, log: seq<Entry>, x: nat, k: SampleKey) {
    forall i: nat, q: nat :: Accepts(codec, Untagged(log), i, q, k) ==> i < |log| && log[i].agent == x
  }

  lemma {:induction false} OwnRows(codec: Codec, log: seq<Entry>, x: nat, k: SampleKey)
    requires OnlyFrom(codec, log, x, k)
    ensures AgreeAt(Replay(codec, Untagged(log)).samples, Replay(codec, Own(log, x)).samples, k)
  {
    if log != [] {
      var n := |log| - 1;
      var all, h := Untagged(log), log[n].handling;
      assert all[..n] == Untagged(log[..n]);
      forall i: nat, q: nat | Accepts(codec, all[..n], i, q, k)
        ensures i < n && log[..n][i].agent == x
      {
        EarlierAccepts(codec, all, i, q, k);
      }
      OwnRows(codec, log[..n], x, k);
      EntryAdds(codec, all, k);
      if log[n].agent == x {
        HandleAgrees(Replay(codec, all[..n]), Replay(codec, Own(log[..n], x)), codec, h.frame, h.at, k);
        assert Own(log, x)[..|Own(log, x)| - 1] == Own(log[..n], x);
      } else {
        assert Own(log[..n], x) + [] == Own(log[..n], x);
      }
    }
  }

  /** An agent's batches carry its own node id. */
  lemma AcceptsOwnNode(node: string, codec: Codec, s: Site, i: nat, q: nat, k: SampleKey)
    requires AllBatches(node, codec, s) && Accepts(codec, s.log, i, q, k)
    ensures k.node == node
  {
    AcceptedInLog(codec, s.log, k);
    hide HandledWhen;
    assert IsBatch(node, codec, s, i);
    var r := BatchAt(node, codec, s, i);
  }

  /** An entry of the shared log is an entry of its agent's. */
  lemma {:induction false} OwnIndex(log: seq<Entry>, i: nat) returns (j: nat)
    requires i < |log|
    ensures j < |Own(log, log[i].agent)| && Own(log, log[i].agent)[j] == log[i].handling
  {
    var n := |log| - 1;
    if i < n {
      j := OwnIndex(log[..n], i);
    } else {
      j := |Own(log[..n], log[n].agent)|;
    }
  }

  lemma SameAccepts(codec: Codec, log: seq<Handling>, i: nat, own: seq<Handling>, j: nat, q: nat, k: SampleKey)
    requires i < |log| && j < |own| && log[i] == own[j]
    ensures Accepts(codec, log, i, q, k) <==> Accepts(codec, own, j, q, k)
  {
  }

  ghost predicate AllFaithful(agents: seq<AgentConfig>, codec: Codec, f: Fleet) {
    |f.sites| == |agents| &&
    forall x: nat :: x < |agents| ==> Faithful(agents[x].node, codec, f.sites[x].world.ledger.history)
  }

  /** A sample accepted from the shared log is one of the agent whose entry it is. */
  lemma AcceptedOfAgent(
    agents: seq<AgentConfig>, codec: Codec, events: seq<FleetEvent>, f: Fleet, e: nat, q: nat, k: SampleKey)
    returns (x: nat, i: nat)
    requires ValidAgents(agents) && FleetHappens(agents, codec, events, f) && AllFaithful(agents, codec, f)
    requires Accepts(codec, Untagged(f.log), e, q, k)
    ensures e < |f.log| && x == f.log[e].agent && x < |agents| == |f.sites|
    ensures Accepts(codec, f.sites[x].log, i, q, k) && AllBatches(agents[x].node, codec, f.sites[x])
  {
    FleetHappensInv(agents, codec, events, f);
    AcceptedInLog(codec, Untagged(f.log), k);
    assert f.log[e] in f.log;
    hide FleetHappens, SiteHappens, Faithful, Replay, Accepts, AllBatches;
    x := f.log[e].agent;
    OwnRun(agents, codec, events, f, x);
    i := OwnIndex(f.log, e);
    SameAccepts(codec, Untagged(f.log), e, f.sites[x].log, i, q, k);
    RunBatches(agents[x].cap, agents[x].node, codec, EventsOf(events, x), f.sites[x]);
  }

  /** Samples are accepted at positions of the history. */
  lemma AcceptedAtPosition(node: string, codec: Codec, s: Site, i: nat, q: nat, k: SampleKey) returns (p: nat)
    requires AllBatches(node, codec, s) && Accepts(codec, s.log, i, q, k)
    ensures AcceptedWhen(node, codec, s, i, p, k)
  {
    AcceptedInLog(codec, s.log, k);
    assert IsBatch(node, codec, s, i);
    hide Accepts, EntryCarries, AcceptedWhen;
    var r := BatchAt(node, codec, s, i);
    SampleIsPosition(node, codec, s, i, r, q, k);
    p := r.first + q;
  }

  /** Agents with different node ids do not disturb each other: in the shared table the rows under an agent's node
      id are those it would have alone. */
  lemma FleetRows(agents: seq<AgentConfig>, codec: Codec, events: seq<FleetEvent>, f: Fleet, x: nat, k: SampleKey)
    requires ValidAgents(agents) && FleetHappens(agents, codec, events, f) && AllFaithful(agents, codec, f)
    requires x < |agents| && k.node == agents[x].node
    requires forall y: nat :: y < |agents| && y != x ==> agents[y].node != agents[x].node
    ensures AgreeAt(f.tables.samples, f.sites[x].tables.samples, k)
  {
    FleetHappensInv(agents, codec, events, f);
    OwnRun(agents, codec, events, f, x);
    assert f.tables == Replay(codec, Untagged(f.log)) && Own(f.log, x) == f.sites[x].log;
    hide FleetHappens, SiteHappens, AllFaithful, FleetInv, Replay, Accepts;
    forall i: nat, q: nat | Accepts(codec, Untagged(f.log), i, q, k)
      ensures i < |f.log| && f.log[i].agent == x
    {
      var y, j := AcceptedOfAgent(agents, codec, events, f, i, q, k);
      AcceptsOwnNode(agents[y].node, codec, f.sites[y], j, q, k);
    }
    OwnRows(codec, f.log, x, k);
    SiteHappensInv(agents[x].cap, agents[x].node, codec, EventsOf(events, x), f.sites[x]);
  }

  /** An entry of an agent is an entry of the shared log. */
  lemma {:induction false} SharedIndex(log: seq<Entry>, x: nat, j: nat) returns (i: nat)
    requires j < |Own(log, x)|
    ensures i < |log| && log[i].agent == x && log[i].handling == Own(log, x)[j]
  {
    var n := |log| - 1;
    if j < |Own(log[..n], x)| {
      i := SharedIndex(log[..n], x, j);
    } else {
      i := n;
    }
  }

  lemma StoredHasRecord(agents: seq<AgentConfig>, codec: Codec, events: seq<FleetEvent>, f: Fleet, k: SampleKey)
    returns (x: nat, i: nat, p: nat)
    requires ValidAgents(agents) && FleetHappens(agents, codec, events, f) && AllFaithful(agents, codec, f)
    requires k in f.tables.samples
    ensures x < |agents| && AcceptedWhen(agents[x].node, codec, f.sites[x], i, p, k)
  {
    FleetHappensInv(agents, codec, events, f);
    assert f.tables == Replay(codec, Untagged(f.log));
    hide FleetHappens, AllFaithful, FleetInv, Replay, Accepts, AllBatches, AcceptedWhen;
    var e, q := StoredIsFirst(codec, Untagged(f.log), k);
    x, i := AcceptedOfAgent(agents, codec, events, f, e, q, k);
    p := AcceptedAtPosition(agents[x].node, codec, f.sites[x], i, q, k);
  }

  lemma RecordIsStored(
    agents: seq<AgentConfig>, codec: Codec, events: seq<FleetEvent>, f: Fleet, k: SampleKey, x: nat, i: nat, p: nat)
    requires ValidAgents(agents) && FleetHappens(agents, codec, events, f) && AllFaithful(agents, codec, f)
    requires x < |agents| && AcceptedWhen(agents[x].node, codec, f.sites[x], i, p, k)
    ensures k in f.tables.samples
  {
    FleetHappensInv(agents, codec, events, f);
    OwnRun(agents, codec, events, f, x);
    AcceptedInSite(agents[x].node, codec, f.sites[x], i, p, k);
    hide FleetHappens, SiteHappens, Faithful, Replay, Accepts, AllBatches, AcceptedWhen, EntryCarries;
    RunBatches(agents[x].cap, agents[x].node, codec, EventsOf(events, x), f.sites[x]);
    var q := AcceptedPosition(agents[x].node, codec, f.sites[x], i, p, k);
    var e := SharedIndex(f.log, x, i);
    SameAccepts(codec, Untagged(f.log), e, f.sites[x].log, i, q, k);
    AcceptedIsStored(codec, Untagged(f.log), e, q, k);
  }

  /** End to end for the whole fleet: a key is in the shared table exactly when some agent enqueued a record with
      that key that was handled and passed validation at that moment. */
  lemma FleetStoredExactly(
    agents: seq<AgentConfig>, codec: Codec, events: seq<FleetEvent>, f: Fleet, k: SampleKey)
    requires ValidAgents(agents) && FleetHappens(agents, codec, events, f) && AllFaithful(agents, codec, f)
    ensures k in f.tables.samples <==>
            exists x: nat, i: nat, p: nat ::
              x < |agents| && AcceptedWhen(agents[x].node, codec, f.sites[x], i, p, k)
  {
    hide FleetHappens, Faithful, AcceptedWhen;
    if k in f.tables.samples {
      var x, i, p := StoredHasRecord(agents, codec, events, f, k);
    }
    if x: nat, i: nat, p: nat :| x < |agents| && AcceptedWhen(agents[x].node, codec, f.sites[x], i, p, k) {
      RecordIsStored(agents, codec, events, f, k, x, i, p);
    }
  }
}
