/** Sender accounting over whole runs: which enqueued records are still queued, sent or lost. */
module Accounting {
  import opened Common
  import opened Sender

  /** A sent batch: the records `history[first..first + size]`. */
  datatype Range = Range(first: nat, size: nat)

  /** The sender with its bookkeeping. `history` is every record ever enqueued, `start` the position of the
      batch the sender thread holds, `popped` the positions lost to overflow, `log` the batches whose send
      succeeded, `overlapped` whether an overflow ever fell inside a send that succeeded. */
  datatype Ledger = Ledger(
    sender: SenderState,
    history: seq<SampleRecord>,
    start: nat,
    popped: set<nat>,
    log: seq<Range>,
    overlapped: bool)

  const FRESH := Ledger(STARTED, [], 0, {}, [], false)

  /** How many records have left the front of the queue. */
  function Gone(l: Ledger): int {
    |l.history| - |l.sender.queue|
  }

  function LedgerStep(cap: nat, wire: Wire, l: Ledger, e: Event): Ledger
    requires cap >= 1 && Enabled(wire, l.sender, e) && Gone(l) >= 0
  {
    var s := l.sender;
    var next := l.(sender := Step(cap, wire, s, e));
    match e
    case Enqueue(r) =>
      next.(history := l.history + [r], popped := if |s.queue| >= cap then l.popped + {Gone(l)} else l.popped)
    case Snapshot => next.(start := Gone(l))
    case Finish =>
      next.(log := l.log + [Range(l.start, |s.batch|)], overlapped := l.overlapped || Gone(l) > l.start)
    case _ => next
  }

  /** Running the sender from the start with its bookkeeping reaches `l`. */
  ghost predicate Reaches(cap: nat, wire: Wire, events: seq<Event>, l: Ledger)
    requires cap >= 1
  {
    if events == [] then l == FRESH
    else
      var n := |events| - 1;
      exists k :: Reaches(cap, wire, events[..n], k) && Gone(k) >= 0 && Enabled(wire, k.sender, events[n]) &&
                  l == LedgerStep(cap, wire, k, events[n])
  }

  function Shipped(log: seq<Range>): nat {
    if log == [] then 0 else Shipped(log[..|log| - 1]) + log[|log| - 1].size
  }

  function Interval(first: nat, size: nat): (positions: set<nat>)
    ensures forall i: nat :: i in positions <==> first <= i < first + size
    ensures |positions| == size
  {
    if size == 0 then {} else Interval(first, size - 1) + {first + size - 1}
  }

  /** The positions that some sent batch covered. */
  function SentSet(log: seq<Range>): set<nat> {
    if log == [] then {}
    else
      var last := log[|log| - 1];
      SentSet(log[..|log| - 1]) + Interval(last.first, last.size)
  }

  /** The positions that left the queue without ever being sent. */
  function Lost(l: Ledger): set<nat>
    requires Gone(l) >= 0
  {
    Interval(0, Gone(l)) - SentSet(l.log)
  }

  // ---------- invariants

  ghost predicate QueueInv(cap: nat, wire: Wire, l: Ledger) {
    var s := l.sender;
    && 0 <= Gone(l) && |s.queue| <= cap
    && s.queue == l.history[Gone(l)..]
    && (!s.connected || s.batch == [] ==> s.written == 0)
    && (s.batch != [] ==> InFlight(wire, l))
  }

  /** The batch the sender thread holds is a stretch of the history, and the queue still has as many records. */
  ghost predicate InFlight(wire: Wire, l: Ledger) {
    var s := l.sender;
    && l.start <= Gone(l)
    && |s.batch| <= |s.queue| && |s.batch| <= MAX_BATCH_SIZE
    && l.start + |s.batch| <= |l.history|
    && s.batch == l.history[l.start..l.start + |s.batch|]
    && s.written <= |wire(s.batch)|
  }

  /** Where the next batch may begin at the earliest. */
  function Frontier(l: Ledger): int {
    if l.sender.batch != [] then l.start else Gone(l)
  }

  ghost predicate LogInv(l: Ledger) {
    && (forall r <- l.log :: 0 < r.size <= MAX_BATCH_SIZE && r.first + r.size <= Frontier(l))
    && (forall i, j :: 0 <= i < j < |l.log| ==> l.log[i].first + l.log[i].size <= l.log[j].first)
  }

  /** The popped positions, when `gone` records have left the queue and a batch taken at `start` is held. */
  ghost predicate PopsInv(popped: set<nat>, sent: set<nat>, overlapped: bool, start: int, gone: int) {
    && (forall i <- popped :: i < gone)
    && (forall i: nat :: start <= i < gone ==> i in popped)
    && (overlapped <==> popped * sent != {})
  }

  ghost predicate DropInv(l: Ledger) {
    && l.sender.dropped + Shipped(l.log) == Gone(l)
    && |l.popped| == l.sender.dropped
    && PopsInv(l.popped, SentSet(l.log), l.overlapped, Frontier(l), Gone(l))
  }

  ghost predicate Inv(cap: nat, wire: Wire, l: Ledger) {
    QueueInv(cap, wire, l) && LogInv(l) && DropInv(l)
  }

  lemma ReachesNothing(cap: nat, wire: Wire)
    requires cap >= 1
    ensures Reaches(cap, wire, [], FRESH)
  {
  }

  lemma ReachesOneMore(cap: nat, wire: Wire, events: seq<Event>, l: Ledger, e: Event)
    requires cap >= 1 && Reaches(cap, wire, events, l) && Enabled(wire, l.sender, e) && Gone(l) >= 0
    ensures Reaches(cap, wire, events + [e], LedgerStep(cap, wire, l, e))
  {
    assert (events + [e])[..|events|] == events;
  }

  lemma TailKept<T>(s: seq<T>, x: T, n: nat, m: nat)
    requires n <= m <= |s|
    ensures s[n..][m - n..] + [x] == (s + [x])[m..]
  {
  }

  /** The ledger after a record has arrived: only a full queue loses one. */
  lemma EnqueueLedger(cap: nat, wire: Wire, l: Ledger, r: SampleRecord)
    requires cap >= 1 && 0 <= Gone(l)
    ensures var m, lost := LedgerStep(cap, wire, l, Enqueue(r)), if |l.sender.queue| >= cap then 1 else 0;
            && m.history == l.history + [r] && m.start == l.start
            && m.sender.queue == l.sender.queue[lost..] + [r] && m.sender.batch == l.sender.batch
            && m.sender.written == l.sender.written && m.sender.connected == l.sender.connected
            && m.log == l.log && m.overlapped == l.overlapped
            && m.sender.dropped == l.sender.dropped + lost && Gone(m) == Gone(l) + lost
            && m.popped == (if lost == 1 then l.popped + {Gone(l)} else l.popped)
            && Frontier(m) == if l.sender.batch != [] then Frontier(l) else Gone(m)
  {
  }

  lemma QueueEnqueue(cap: nat, wire: Wire, l: Ledger, r: SampleRecord)
    requires cap >= 1 && QueueInv(cap, wire, l)
    ensures QueueInv(cap, wire, LedgerStep(cap, wire, l, Enqueue(r)))
  {
    EnqueueLedger(cap, wire, l, r);
    hide LedgerStep;
    var m := LedgerStep(cap, wire, l, Enqueue(r));
    TailKept(l.history, r, Gone(l), Gone(m));
    if l.sender.batch != [] {
      SliceKept(l.history, r, l.start, |l.sender.batch|);
    }
  }

  lemma SliceKept<T>(s: seq<T>, x: T, first: nat, size: nat)
    requires first + size <= |s|
    ensures (s + [x])[first..first + size] == s[first..first + size]
  {
  }

  /** The ledger after a send that succeeded: the whole batch has left the queue. */
  lemma FinishLedger(cap: nat, wire: Wire, l: Ledger)
    requires cap >= 1 && QueueInv(cap, wire, l) && Enabled(wire, l.sender, Finish)
    ensures var m := LedgerStep(cap, wire, l, Finish);
            && m.sender.dropped == l.sender.dropped && m.popped == l.popped && m.history == l.history
            && m.sender.queue == l.sender.queue[|l.sender.batch|..]
            && m.sender.batch == [] && m.sender.written == 0
            && m.log == l.log + [Range(l.start, |l.sender.batch|)]
            && m.overlapped == (l.overlapped || Gone(l) > l.start)
            && Frontier(m) == Gone(m) == Gone(l) + |l.sender.batch|
  {
  }

  lemma DropTwice<T>(s: seq<T>, n: nat, k: nat)
    requires n + k <= |s|
    ensures s[n..][k..] == s[n + k..]
  {
  }

  lemma QueueFinish(cap: nat, wire: Wire, l: Ledger)
    requires cap >= 1 && QueueInv(cap, wire, l) && Enabled(wire, l.sender, Finish)
    ensures QueueInv(cap, wire, LedgerStep(cap, wire, l, Finish))
  {
    FinishLedger(cap, wire, l);
    hide LedgerStep;
    DropTwice(l.history, Gone(l), |l.sender.batch|);
  }

  lemma QueueStep(cap: nat, wire: Wire, l: Ledger, e: Event)
    requires cap >= 1 && QueueInv(cap, wire, l) && Enabled(wire, l.sender, e)
    ensures QueueInv(cap, wire, LedgerStep(cap, wire, l, e))
  {
    if e.Enqueue? {
      QueueEnqueue(cap, wire, l, e.record);
    } else if e.Finish? {
      QueueFinish(cap, wire, l);
    }
  }

  lemma LogGrows(log: seq<Range>, r: Range)
    requires forall i, j :: 0 <= i < j < |log| ==> log[i].first + log[i].size <= log[j].first
    requires forall q <- log :: q.first + q.size <= r.first
    ensures forall i, j :: 0 <= i < j < |log + [r]| ==>
              (log + [r])[i].first + (log + [r])[i].size <= (log + [r])[j].first
  {
  }

  lemma LogStep(cap: nat, wire: Wire, l: Ledger, e: Event)
    requires cap >= 1 && QueueInv(cap, wire, l) && LogInv(l) && Enabled(wire, l.sender, e)
    ensures LogInv(LedgerStep(cap, wire, l, e))
  {
    if e.Enqueue? {
      EnqueueLedger(cap, wire, l, e.record);
      hide LedgerStep;
    } else if e.Finish? {
      FinishLedger(cap, wire, l);
      hide LedgerStep;
      LogGrows(l.log, Range(l.start, |l.sender.batch|));
    }
  }

  lemma {:induction false} SentBelow(log: seq<Range>, bound: int)
    requires forall r <- log :: r.first + r.size <= bound
    ensures forall i <- SentSet(log) :: i < bound
  {
    if log != [] {
      SentBelow(log[..|log| - 1], bound);
    }
  }

  lemma SentNothing()
    ensures SentSet([]) == {} && Shipped([]) == 0
  {
  }

  lemma SentOneMore(log: seq<Range>, r: Range)
    ensures SentSet(log + [r]) == SentSet(log) + Interval(r.first, r.size)
    ensures Shipped(log + [r]) == Shipped(log) + r.size
  {
    assert (log + [r])[..|log|] == log;
  }

  /** Sent batches do not overlap. */
  lemma {:induction false} SentSize(log: seq<Range>)
    requires forall i, j :: 0 <= i < j < |log| ==> log[i].first + log[i].size <= log[j].first
    ensures |SentSet(log)| == Shipped(log)
  {
    hide SentSet, Shipped, Interval;
    if log == [] {
      SentNothing();
    } else {
      var n := |log| - 1;
      SentSize(log[..n]);
      SentOneMore(log[..n], log[n]);
      assert log[..n] + [log[n]] == log;
      SentBelow(log[..n], log[n].first);
      DisjointSizes(SentSet(log[..n]), Interval(log[n].first, log[n].size));
    }
  }

  lemma DisjointSizes(a: set<nat>, b: set<nat>)
    requires a !! b
    ensures |a + b| == |a| + |b|
  {
  }

  lemma PopOne(popped: set<nat>, sent: set<nat>, overlapped: bool, start: int, later: int, gone: nat)
    requires PopsInv(popped, sent, overlapped, start, gone) && forall i <- sent :: i < start
    requires start <= later && start <= gone
    ensures |popped + {gone}| == |popped| + 1
    ensures PopsInv(popped + {gone}, sent, overlapped, later, gone + 1)
  {
    assert gone !in popped && gone !in sent;
    assert (popped + {gone}) * sent == popped * sent;
  }

  lemma SentBelowFrontier(l: Ledger)
    requires LogInv(l)
    ensures forall i <- SentSet(l.log) :: i < Frontier(l)
  {
    SentBelow(l.log, Frontier(l));
  }

  lemma DropEnqueue(cap: nat, wire: Wire, l: Ledger, r: SampleRecord)
    requires cap >= 1 && LogInv(l) && DropInv(l)
    requires 0 <= Gone(l) && Frontier(l) <= Gone(l)
    ensures DropInv(LedgerStep(cap, wire, l, Enqueue(r)))
  {
    hide SentSet, Shipped, PopsInv, LogInv, LedgerStep;
    SentBelowFrontier(l);
    EnqueueLedger(cap, wire, l, r);
    var m := LedgerStep(cap, wire, l, Enqueue(r));
    PopOne(l.popped, SentSet(l.log), l.overlapped, Frontier(l), Frontier(m), Gone(l));
  }

  lemma SendOne(popped: set<nat>, earlier: set<nat>, now: set<nat>, overlapped: bool, start: nat, gone: nat)
    requires PopsInv(popped, earlier, overlapped, start, gone) && start <= gone
    requires start in now && forall i <- now :: start <= i
    ensures PopsInv(popped, earlier + now, overlapped || gone > start, gone + |now|, gone + |now|)
  {
    if gone > start {
      assert start in popped * (earlier + now);
    } else {
      assert popped * (earlier + now) == popped * earlier;
    }
  }

  lemma DropFinish(cap: nat, wire: Wire, l: Ledger)
    requires cap >= 1 && QueueInv(cap, wire, l) && DropInv(l) && Enabled(wire, l.sender, Finish)
    ensures DropInv(LedgerStep(cap, wire, l, Finish))
  {
    FinishLedger(cap, wire, l);
    hide PopsInv, SentSet, Shipped, Interval, LedgerStep;
    var size := |l.sender.batch|;
    SentOneMore(l.log, Range(l.start, size));
    SendOne(l.popped, SentSet(l.log), Interval(l.start, size), l.overlapped, l.start, Gone(l));
  }

  lemma DropStep(cap: nat, wire: Wire, l: Ledger, e: Event)
    requires cap >= 1 && Inv(cap, wire, l) && Enabled(wire, l.sender, e)
    ensures DropInv(LedgerStep(cap, wire, l, e))
  {
    if e.Enqueue? {
      DropEnqueue(cap, wire, l, e.record);
    } else if e.Finish? {
      DropFinish(cap, wire, l);
    }
  }

  lemma InvStep(cap: nat, wire: Wire, l: Ledger, e: Event)
    requires cap >= 1 && Inv(cap, wire, l) && Enabled(wire, l.sender, e)
    ensures Inv(cap, wire, LedgerStep(cap, wire, l, e))
  {
    QueueStep(cap, wire, l, e);
    LogStep(cap, wire, l, e);
    DropStep(cap, wire, l, e);
  }

  lemma {:induction false} ReachesInv(cap: nat, wire: Wire, events: seq<Event>, l: Ledger)
    requires cap >= 1 && Reaches(cap, wire, events, l)
    ensures Inv(cap, wire, l)
  {
    if events != [] {
      var n := |events| - 1;
      var k :| Reaches(cap, wire, events[..n], k) && Gone(k) >= 0 && Enabled(wire, k.sender, events[n]) &&
               l == LedgerStep(cap, wire, k, events[n]);
      ReachesInv(cap, wire, events[..n], k);
      InvStep(cap, wire, k, events[n]);
    }
  }

  // ---------- the accounting

  /** The queue is a suffix of everything enqueued and never longer than its limit; while a batch is held the
      queue keeps at least that many records, so a finished send erases exactly the batch size. */
  lemma QueueIsSuffix(cap: nat, wire: Wire, events: seq<Event>, l: Ledger)
    requires cap >= 1 && Reaches(cap, wire, events, l)
    ensures 0 <= Gone(l) && l.sender.queue == l.history[Gone(l)..] && |l.sender.queue| <= cap
    ensures Min(|l.sender.batch|, |l.sender.queue|) == |l.sender.batch|
  {
    ReachesInv(cap, wire, events, l);
  }

  /** Whenever no batch is held: every enqueued record is queued, sent or lost; as many are lost as the drop
      counter says, whatever overflowed when; and the lost ones are exactly the popped ones unless an overflow
      fell inside a send that succeeded. */
  lemma Conservation(cap: nat, wire: Wire, events: seq<Event>, l: Ledger)
    requires cap >= 1 && Reaches(cap, wire, events, l) && l.sender.batch == []
    ensures |l.history| == |l.sender.queue| + |SentSet(l.log)| + l.sender.dropped
    ensures 0 <= Gone(l) && SentSet(l.log) <= Interval(0, Gone(l))
    ensures |Lost(l)| == l.sender.dropped
    ensures Lost(l) == l.popped <==> !l.overlapped
  {
    ReachesInv(cap, wire, events, l);
    InvConserves(cap, wire, l);
  }

  lemma InvConserves(cap: nat, wire: Wire, l: Ledger)
    requires Inv(cap, wire, l) && l.sender.batch == []
    ensures |l.history| == |l.sender.queue| + |SentSet(l.log)| + l.sender.dropped
    ensures 0 <= Gone(l) && SentSet(l.log) <= Interval(0, Gone(l))
    ensures |Lost(l)| == l.sender.dropped
    ensures Lost(l) == l.popped <==> !l.overlapped
  {
    hide SentSet, Shipped, Interval;
    SentSize(l.log);
    SentBelow(l.log, Gone(l));
    LostSize(Interval(0, Gone(l)), SentSet(l.log), l.popped);
  }

  lemma LostSize(gone: set<nat>, sent: set<nat>, popped: set<nat>)
    requires sent <= gone && popped <= gone && |popped| + |sent| == |gone|
    ensures |gone - sent| == |popped|
    ensures gone - sent == popped <==> popped * sent == {}
  {
    DisjointSizes(gone - sent, sent);
    assert gone == (gone - sent) + sent;
    if popped * sent == {} {
      EqualSizeSubset(popped, gone - sent);
    } else {
      var i := Pick(popped * sent);
      assert i in popped && i !in gone - sent;
    }
  }

  /** An overflow inside a successful send: the record that is popped has been sent, and the one that pushed it
      out is erased in its place, unsent. */
  lemma OverflowDuringSend(wire: Wire, a: SampleRecord, b: SampleRecord) returns (events: seq<Event>, l: Ledger)
    requires |wire([a])| >= 1
    ensures Reaches(1, wire, events, l) && l.sender.batch == [] && l.history == [a, b]
    ensures l.overlapped && l.popped == {0} && SentSet(l.log) == {0} && Lost(l) == {1}
  {
    hide Reaches, SentSet;
    var bytes := wire([a]);
    var held;
    events, held := BatchHeld(wire, a);
    var full := Ledger(SenderState([b], 1, true, [[]], [a], 0), [a, b], 0, {0}, [], false);
    var written := full.(sender := full.sender.(streams := [bytes], written := |bytes|));
    l := Ledger(SenderState([], 1, true, [bytes], [], 0), [a, b], 0, {0}, [Range(0, 1)], true);
    events := ReachesNext(wire, events, held, Enqueue(b), full);
    WriteAll([[]], bytes);
    events := ReachesNext(wire, events, full, Write(|bytes|), written);
    assert [b][1..] == [];
    events := ReachesNext(wire, events, written, Finish, l);
    SentOneMore([], Range(0, 1));
    SentNothing();
  }

  /** The sender has connected and holds the only record. */
  lemma BatchHeld(wire: Wire, a: SampleRecord) returns (events: seq<Event>, l: Ledger)
    ensures l == Ledger(SenderState([a], 0, true, [[]], [a], 0), [a], 0, {}, [], false)
    ensures Reaches(1, wire, events, l)
  {
    hide Reaches;
    var queued := Ledger(SenderState([a], 0, false, [], [], 0), [a], 0, {}, [], false);
    var taken := queued.(sender := queued.sender.(batch := [a]));
    l := taken.(sender := taken.sender.(connected := true, streams := [[]]));
    ReachesNothing(1, wire);
    events := ReachesNext(wire, [], FRESH, Enqueue(a), queued);
    assert [a][..1] == [a];
    events := ReachesNext(wire, events, queued, Snapshot, taken);
    events := ReachesNext(wire, events, taken, ConnectOk, l);
  }

  lemma WriteAll(streams: seq<seq<Byte>>, bytes: seq<Byte>)
    requires streams == [[]]
    ensures streams[0 := streams[0] + bytes[0..|bytes|]] == [bytes]
  {
    assert [] + bytes[0..|bytes|] == bytes;
  }

  lemma ReachesNext(wire: Wire, events: seq<Event>, l: Ledger, e: Event, m: Ledger) returns (more: seq<Event>)
    requires Reaches(1, wire, events, l) && Gone(l) >= 0 && Enabled(wire, l.sender, e) && m == LedgerStep(1, wire, l, e)
    ensures Reaches(1, wire, more, m)
  {
    ReachesOneMore(1, wire, events, l, e);
    more := events + [e];
  }
}
