/** The agent's sender as code: the fields of SampleSender and the two threads that change them. */
module Agent {
  import opened Common
  import opened Sender
  import opened Accounting

  /** What happens around one round of the sender thread: the records enqueued before its snapshot, between
      that and the connection attempt, and from then on until the lock is taken again; whether connecting works;
      and the results of the send calls. */
  datatype Round = Round(
    before: seq<SampleRecord>, connecting: seq<SampleRecord>, sending: seq<SampleRecord>,
    connects: bool, sendResult: nat -> int)

  function ArrivalsIn(round: Round): seq<SampleRecord> {
    round.before + round.connecting + round.sending
  }

  function Arrivals(rounds: seq<Round>): seq<SampleRecord> {
    if rounds == [] then []
    else
      var n := |rounds| - 1;
      Arrivals(rounds[..n]) + ArrivalsIn(rounds[n])
  }

  // ---------- what a round does

  /** The last `cap` elements: what is left of a bounded drop-oldest queue. */
  function LastOf<T>(cap: nat, s: seq<T>): (t: seq<T>)
    ensures |t| == if |s| <= cap then |s| else cap
  {
    if |s| <= cap then s else s[|s| - cap..]
  }

  lemma LastOfAppend<T>(cap: nat, s: seq<T>, t: seq<T>)
    ensures LastOf(cap, LastOf(cap, s) + t) == LastOf(cap, s + t)
  {
  }

  /** One round of the sender thread, between two rounds. The batch is what the first lock section takes: at most
      256 records at the front of the queue as the records before it have left it. If there are none, or there is
      no connection, the records that arrive are all that changes. Otherwise the open connection, or a new one,
      carries as much of the batch's frame as the calls accept. With all of it accepted the batch leaves the
      queue, in numbers; if not, the connection is given up. */
  function AfterRound(cap: nat, wire: Wire, s: SenderState, round: Round): (t: SenderState)
    requires s.connected ==> s.streams != []
    ensures t.connected ==> t.streams != []
  {
    var atSnapshot := LastOf(cap, s.queue + round.before);
    var batch := atSnapshot[..if |atSnapshot| < 256 then |atSnapshot| else 256];
    var arrived := LastOf(cap, s.queue + ArrivalsIn(round));
    var dropped := s.dropped + |s.queue + ArrivalsIn(round)| - |arrived|;
    if batch == [] || (!s.connected && !round.connects) then
      SenderState(arrived, dropped, s.connected, s.streams, [], 0)
    else
      var streams := if s.connected then s.streams else s.streams + [[]];
      var last, n := |streams| - 1, AcceptedBytes(|wire(batch)|, round.sendResult, 0);
      var grown := streams[last := streams[last] + wire(batch)[..n]];
      if n == |wire(batch)| then SenderState(arrived[|batch|..], dropped, true, grown, [], 0)
      else SenderState(arrived, dropped, false, grown, [], 0)
  }

  function AfterRounds(cap: nat, wire: Wire, s: SenderState, rounds: seq<Round>): (t: SenderState)
    requires s.connected ==> s.streams != []
    ensures t.connected ==> t.streams != []
  {
    if rounds == [] then s
    else
      var n := |rounds| - 1;
      AfterRound(cap, wire, AfterRounds(cap, wire, s, rounds[..n]), rounds[n])
  }

  /** Nothing arrives, connecting works and every call accepts something. */
  ghost predicate Undisturbed(round: Round) {
    ArrivalsIn(round) == [] && round.before == [] && round.connects && forall i: nat :: round.sendResult(i) > 0
  }

  lemma {:induction false} WillingSocket(n: nat, sendResult: nat -> int, call: nat)
    requires forall i: nat :: sendResult(i) > 0
    ensures AcceptedBytes(n, sendResult, call) == n
    decreases n
  {
    if n > 0 {
      WillingSocket(n - Min(sendResult(call), n), sendResult, call + 1);
    }
  }

  lemma UndisturbedRound(cap: nat, wire: Wire, s: SenderState, round: Round)
    requires (s.connected ==> s.streams != []) && |s.queue| <= cap && Undisturbed(round)
    ensures var t := AfterRound(cap, wire, s, round);
            && t.queue == s.queue[if |s.queue| < 256 then |s.queue| else 256..] && t.dropped == s.dropped
            && (s.queue != [] ==> t.connected)
  {
    assert s.queue + [] == s.queue;
    var batch := s.queue[..if |s.queue| < 256 then |s.queue| else 256];
    WillingSocket(|wire(batch)|, round.sendResult, 0);
  }

  /** Undisturbed rounds deliver the queue, 256 records each, and lose nothing. */
  lemma {:induction false} RoundsDrainQueue(cap: nat, wire: Wire, s: SenderState, rounds: seq<Round>)
    requires (s.connected ==> s.streams != []) && |s.queue| <= cap && forall r <- rounds :: Undisturbed(r)
    ensures var t, sent := AfterRounds(cap, wire, s, rounds), 256 * |rounds|;
            t.dropped == s.dropped && t.queue == s.queue[if |s.queue| < sent then |s.queue| else sent..]
  {
    hide AfterRound;
    if rounds != [] {
      var n := |rounds| - 1;
      RoundsDrainQueue(cap, wire, s, rounds[..n]);
      UndisturbedRound(cap, wire, AfterRounds(cap, wire, s, rounds[..n]), rounds[n]);
    }
  }

  class SampleSender {
    const maxQueueSize: nat
    const wire: Wire
    var queue: seq<SampleRecord>
    var droppedCount: nat
    var connected: bool
    var streams: seq<seq<Byte>> // the bytes each connection's socket accepted
    var batch: seq<SampleRecord> // what the sender thread holds between its two lock sections
    var written: nat

    ghost var events: seq<Event> // every step taken so far
    ghost var ledger: Ledger

    ghost function State(): SenderState
      reads this
    {
      SenderState(queue, droppedCount, connected, streams, batch, written)
    }

    /** Everything done so far is a run of the step system. */
    ghost predicate Valid()
      reads this
    {
      && maxQueueSize >= 1
      && Reaches(maxQueueSize, wire, events, ledger)
      && ledger.sender == State()
      && (connected ==> streams != [])
    }

    constructor (maxQueueSize: nat, wire: Wire)
      requires maxQueueSize >= 1
      ensures Valid() && ledger == FRESH && this.maxQueueSize == maxQueueSize && this.wire == wire
    {
      this.maxQueueSize, this.wire := maxQueueSize, wire;
      queue, droppedCount, connected, streams, batch, written := [], 0, false, [], [], 0;
      events, ledger := [], FRESH;
    }

    /** Enters a step that the code has just taken in the ledger. */
    ghost method Took(e: Event)
      requires maxQueueSize >= 1 && Reaches(maxQueueSize, wire, events, ledger)
      requires Enabled(wire, ledger.sender, e) && State() == Step(maxQueueSize, wire, ledger.sender, e)
      requires connected ==> streams != []
      modifies this`events, this`ledger
      ensures Valid() && events == old(events) + [e] && Gone(old(ledger)) >= 0
      ensures ledger == LedgerStep(maxQueueSize, wire, old(ledger), e)
    {
      QueueIsSuffix(maxQueueSize, wire, events, ledger);
      ReachesOneMore(maxQueueSize, wire, events, ledger, e);
      events, ledger := events + [e], LedgerStep(maxQueueSize, wire, ledger, e);
    }

    /** Never blocks: a full queue loses its oldest record, and the drop is counted. */
    method Enqueue(record: SampleRecord)
      requires Valid()
      modifies this`queue, this`droppedCount, this`events, this`ledger
      ensures Valid() && ledger.history == old(ledger.history) + [record]
      ensures queue == (if |old(queue)| >= maxQueueSize then old(queue)[1..] else old(queue)) + [record]
      ensures droppedCount == old(droppedCount) + if |old(queue)| >= maxQueueSize then 1 else 0
    {
      if |queue| >= maxQueueSize {
        queue := queue[1..];
        droppedCount := droppedCount + 1;
      }
      queue := queue + [record];
      Took(Event.Enqueue(record));
    }

    method EnqueueAll(records: seq<SampleRecord>)
      requires Valid()
      modifies this`queue, this`droppedCount, this`events, this`ledger
      ensures Valid() && ledger.history == old(ledger.history) + records
      ensures queue == LastOf(maxQueueSize, old(queue) + records)
      ensures droppedCount == old(droppedCount) + |old(queue) + records| - |queue|
    {
      hide Reaches, LastOf;
      ghost var before := queue;
      QueueIsSuffix(maxQueueSize, wire, events, ledger);
      ShortQueue(maxQueueSize, before);
      for i := 0 to |records|
        invariant Valid() && ledger.history == old(ledger.history) + records[..i]
        invariant queue == LastOf(maxQueueSize, before + records[..i])
        invariant droppedCount == old(droppedCount) + |before| + i - |queue|
      {
        EnqueueLast(maxQueueSize, before + records[..i], records[i]);
        assert before + records[..i] + [records[i]] == before + records[..i + 1];
        Enqueue(records[i]);
        assert records[..i + 1] == records[..i] + [records[i]];
      }
      assert records[..|records|] == records;
    }

    /** The first lock section: copies the front of the queue and leaves it there. */
    method TakeBatch()
      requires Valid() && batch == []
      modifies this`batch, this`written, this`events, this`ledger
      ensures Valid() && batch == queue[..Min(|queue|, MAX_BATCH_SIZE)] && written == 0
      ensures ledger.history == old(ledger.history)
    {
      var take := Min(|queue|, MAX_BATCH_SIZE);
      batch, written := queue[..take], 0;
      Took(Snapshot);
    }

    /** The second lock section: erases by count, whatever the front of the queue is by now. */
    method EraseSent()
      requires Valid() && Enabled(wire, State(), Finish)
      modifies this`queue, this`batch, this`written, this`events, this`ledger
      ensures Valid() && batch == [] && written == 0
      ensures |old(batch)| <= |old(queue)| && queue == old(queue)[|old(batch)|..]
      ensures ledger.history == old(ledger.history)
    {
      QueueIsSuffix(maxQueueSize, wire, events, ledger);
      var eraseCount := Min(|batch|, |queue|);
      queue, batch, written := queue[eraseCount..], [], 0;
      Took(Finish);
    }

    method ConnectIfNeeded(connects: bool) returns (ok: bool)
      requires Valid() && batch != []
      modifies this`connected, this`streams, this`batch, this`events, this`ledger
      ensures Valid() && ledger.history == old(ledger.history)
      ensures connected == ok && (ok <==> old(connected) || connects)
      ensures streams == if ok && !old(connected) then old(streams) + [[]] else old(streams)
      ensures batch == if ok then old(batch) else []
    {
      if connected {
        return true;
      }
      ok := connects;
      if ok {
        connected, streams := true, streams + [[]];
        Took(ConnectOk);
      } else {
        batch := [];
        Took(ConnectFail);
      }
    }

    method SendBatch(sendResult: nat -> int) returns (ok: bool)
      requires Valid() && connected && batch != [] && written == 0
      modifies this`streams, this`written, this`events, this`ledger
      ensures Valid() && ledger.history == old(ledger.history)
      ensures written == AcceptedBytes(|wire(batch)|, sendResult, 0) && (ok <==> written == |wire(batch)|)
      ensures var last := |old(streams)| - 1;
              streams == old(streams)[last := old(streams)[last] + wire(batch)[..written]]
    {
      hide Reaches, EnqueueStep, SnapshotStep, FinishStep;
      var accepted;
      ok, accepted := SendAll(wire(batch), sendResult);
      if accepted != [] {
        var last := |streams| - 1;
        streams := streams[last := streams[last] + accepted];
        written := |accepted|;
        assert accepted == wire(batch)[0..|accepted|];
        Took(Write(|accepted|));
      } else {
        assert streams[|streams| - 1] + [] == streams[|streams| - 1];
      }
    }

    method Disconnect()
      requires Valid() && Enabled(wire, State(), Fail)
      modifies this`connected, this`batch, this`written, this`events, this`ledger
      ensures Valid() && batch == [] && !connected && written == 0 && ledger.history == old(ledger.history)
    {
      connected, batch, written := false, [], 0;
      Took(Fail);
    }

    /** One round of the sender thread, with the sampling thread interleaved where the lock is free. Nothing a
        send does depends on the queue, so records that arrive between its socket calls count as `sending`. */
    method RunRound(round: Round)
      requires Valid() && batch == []
      modifies this
      ensures Valid() && batch == []
      ensures ledger.history == old(ledger.history) + round.before + round.connecting + round.sending
      ensures old(connected) ==> old(streams) != []
      ensures State() == AfterRound(maxQueueSize, wire, old(State()), round)
    {
      hide Reaches, LastOf;
      ghost var s := State();
      assert s.queue + ArrivalsIn(round) == s.queue + round.before + round.connecting + round.sending;
      LastOfAppend(maxQueueSize, queue + round.before, round.connecting);
      LastOfAppend(maxQueueSize, queue + round.before + round.connecting, round.sending);
      EnqueueAll(round.before);
      TakeBatch();
      EnqueueAll(round.connecting);
      if batch == [] {
        EnqueueAll(round.sending);
        return;
      }
      SendHeld(round);
    }

    /** What the round does with the batch it holds. */
    method SendHeld(round: Round)
      requires Valid() && batch != [] && written == 0
      modifies this
      ensures Valid() && batch == [] && written == 0 && ledger.history == old(ledger.history) + round.sending
      ensures var arrived := LastOf(maxQueueSize, old(queue) + round.sending);
              var base := if old(connected) then old(streams) else old(streams) + [[]];
              var last, n := |base| - 1, AcceptedBytes(|wire(old(batch))|, round.sendResult, 0);
              && droppedCount == old(droppedCount) + |old(queue) + round.sending| - |arrived|
              && if !old(connected) && !round.connects
                 then queue == arrived && !connected && streams == old(streams)
                 else && last >= 0 && streams == base[last := base[last] + wire(old(batch))[..n]]
                      && (connected <==> n == |wire(old(batch))|) && |old(batch)| <= |arrived|
                      && queue == if connected then arrived[|old(batch)|..] else arrived
    {
      hide Reaches, LastOf;
      var ready := ConnectIfNeeded(round.connects);
      if !ready {
        EnqueueAll(round.sending);
        return;
      }
      var sent := SendBatch(round.sendResult);
      EnqueueAll(round.sending);
      QueueIsSuffix(maxQueueSize, wire, events, ledger);
      if sent {
        EraseSent();
      } else {
        Disconnect();
      }
    }

    /** The sender thread: every record that arrived is then still queued, was in a batch that was sent, or is
        counted as dropped. */
    method RunLoop(rounds: seq<Round>)
      requires Valid() && batch == []
      modifies this
      ensures Valid() && batch == []
      ensures ledger.history == old(ledger.history) + Arrivals(rounds)
      ensures old(connected) ==> old(streams) != []
      ensures State() == AfterRounds(maxQueueSize, wire, old(State()), rounds)
      ensures |queue| <= maxQueueSize && |queue| <= |ledger.history|
      ensures queue == ledger.history[|ledger.history| - |queue|..]
      ensures |ledger.history| == |queue| + |SentSet(ledger.log)| + droppedCount
    {
      hide Reaches;
      for i := 0 to |rounds|
        invariant Valid() && batch == []
        invariant ledger.history == old(ledger.history) + Arrivals(rounds[..i])
        invariant State() == AfterRounds(maxQueueSize, wire, old(State()), rounds[..i])
      {
        ArrivalsOneMore(old(ledger.history), rounds, i + 1);
        assert rounds[..i + 1][..i] == rounds[..i];
        RunRound(rounds[i]);
      }
      assert rounds[..|rounds|] == rounds;
      QueueIsSuffix(maxQueueSize, wire, events, ledger);
      Conservation(maxQueueSize, wire, events, ledger);
    }
  }

  lemma ShortQueue(cap: nat, queue: seq<SampleRecord>)
    requires |queue| <= cap
    ensures LastOf(cap, queue + []) == queue
  {
    assert queue + [] == queue;
  }

  lemma EnqueueLast(cap: nat, s: seq<SampleRecord>, r: SampleRecord)
    requires cap >= 1
    ensures var queue := LastOf(cap, s);
            LastOf(cap, s + [r]) == (if |queue| >= cap then queue[1..] else queue) + [r]
  {
  }

  lemma ArrivalsOneMore(history: seq<SampleRecord>, rounds: seq<Round>, i: nat)
    requires 1 <= i <= |rounds|
    ensures var round := rounds[i - 1];
            history + Arrivals(rounds[..i])
            == history + Arrivals(rounds[..i - 1]) + round.before + round.connecting + round.sending
  {
    assert rounds[..i][..i - 1] == rounds[..i - 1];
    var earlier, round := history + Arrivals(rounds[..i - 1]), rounds[i - 1];
    Associative(history, Arrivals(rounds[..i - 1]), ArrivalsIn(round));
    Associative(earlier, round.before + round.connecting, round.sending);
    Associative(earlier, round.before, round.connecting);
  }
}
