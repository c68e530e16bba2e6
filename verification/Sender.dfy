/** The agent's sender: a bounded drop-oldest queue filled by the sampling thread and drained by a sender
    thread that snapshots a batch, sends it unlocked, and then erases as many records as it sent. */
module Sender {
  import opened Common

  const MAX_BATCH_SIZE := 256

  datatype SampleRecord = SampleRecord(metric: nat, ts: int, mono: int, value: real)

  /** The sender's fields, the batch the sender thread holds, how many bytes of it the socket has
      accepted, and all bytes accepted on each connection so far (the last one is the open one). */
  datatype SenderState = SenderState(
    queue: seq<SampleRecord>,
    dropped: nat,
    connected: bool,
    streams: seq<seq<Byte>>,
    batch: seq<SampleRecord>,
    written: nat)

  const STARTED := SenderState([], 0, false, [], [], 0)

  function Min(a: nat, b: nat): nat {
    if a < b then a else b
  }

  // ---------- atomic steps

  datatype Event =
    | Enqueue(record: SampleRecord) // the sampling thread, under the lock
    | Snapshot // the first lock section of a round
    | ConnectOk
    | ConnectFail
    | Write(n: nat) // the socket accepts n more bytes
    | Finish // the whole frame was accepted: the second lock section
    | Fail // a send failed: disconnect

  /** The bytes SendBatch puts on the wire for a batch. */
  type Wire = seq<SampleRecord> -> seq<Byte>

  predicate Enabled(wire: Wire, s: SenderState, e: Event) {
    match e
    case Enqueue(_) => true
    case Snapshot => s.batch == []
    case ConnectOk => s.batch != [] && !s.connected
    case ConnectFail => s.batch != [] && !s.connected
    case Write(n) => s.batch != [] && s.connected && s.streams != [] && 1 <= n <= |wire(s.batch)| - s.written
    case Finish => s.batch != [] && s.connected && s.written == |wire(s.batch)|
    case Fail => s.batch != [] && s.connected && s.written < |wire(s.batch)|
  }

  function EnqueueStep(cap: nat, s: SenderState, r: SampleRecord): SenderState
    requires cap >= 1
  {
    if |s.queue| >= cap then s.(queue := s.queue[1..] + [r], dropped := s.dropped + 1)
    else s.(queue := s.queue + [r])
  }

  function SnapshotStep(s: SenderState): SenderState {
    s.(batch := s.queue[..Min(|s.queue|, MAX_BATCH_SIZE)], written := 0)
  }

  function WriteStep(s: SenderState, bytes: seq<Byte>): SenderState
    requires s.streams != []
  {
    var last := |s.streams| - 1;
    s.(streams := s.streams[last := s.streams[last] + bytes], written := s.written + |bytes|)
  }

  function FinishStep(s: SenderState): SenderState {
    s.(queue := s.queue[Min(|s.batch|, |s.queue|)..], batch := [], written := 0)
  }

  function Step(cap: nat, wire: Wire, s: SenderState, e: Event): SenderState
    requires cap >= 1 && Enabled(wire, s, e)
  {
    match e
    case Enqueue(r) => EnqueueStep(cap, s, r)
    case Snapshot => SnapshotStep(s)
    case ConnectOk => s.(connected := true, streams := s.streams + [[]])
    case ConnectFail => s.(batch := [])
    case Write(n) => WriteStep(s, wire(s.batch)[s.written..s.written + n])
    case Finish => FinishStep(s)
    case Fail => s.(connected := false, batch := [], written := 0)
  }

  // ---------- the socket

  /** How many of `n` bytes the calls from number `call` on accept before one of them fails. The i-th call accepts
      `sendResult(i)` bytes, but never more than it is offered. */
  function AcceptedBytes(n: nat, sendResult: nat -> int, call: nat): (accepted: nat)
    ensures accepted <= n
  {
    if n == 0 || sendResult(call) <= 0 then 0
    else
      var took := Min(sendResult(call), n);
      took + AcceptedBytes(n - took, sendResult, call + 1)
  }

  /** What `calls` calls could accept together. */
  function Offered(sendResult: nat -> int, call: nat, calls: nat): int
    decreases calls
  {
    if calls == 0 then 0 else sendResult(call) + Offered(sendResult, call + 1, calls - 1)
  }

  ghost predicate CallsSuffice(n: nat, sendResult: nat -> int, call: nat, calls: nat) {
    Offered(sendResult, call, calls) >= n && forall i :: call <= i < call + calls ==> sendResult(i) > 0
  }

  /** All bytes are accepted exactly when some number of successful calls can take that many. */
  lemma {:induction false} AllAcceptedExactly(n: nat, sendResult: nat -> int, call: nat)
    ensures AcceptedBytes(n, sendResult, call) == n <==> exists calls: nat :: CallsSuffice(n, sendResult, call, calls)
    decreases n
  {
    if n == 0 {
      assert CallsSuffice(0, sendResult, call, 0);
    } else if sendResult(call) <= 0 {
      forall calls: nat
        ensures !CallsSuffice(n, sendResult, call, calls)
      {
        assert sendResult(call) <= 0;
      }
    } else {
      var took := Min(sendResult(call), n);
      var left, next := n - took, call + 1;
      AllAcceptedExactly(left, sendResult, next);
      if calls: nat :| CallsSuffice(left, sendResult, next, calls) {
        assert CallsSuffice(n, sendResult, call, calls + 1);
      }
      if calls: nat :| CallsSuffice(n, sendResult, call, calls) {
        assert CallsSuffice(left, sendResult, next, if took == n then 0 else calls - 1);
      }
    }
  }

  /** Sends until every byte is accepted or a call fails. `accepted` is what the socket took. */
  method SendAll(data: seq<Byte>, sendResult: nat -> int) returns (ok: bool, accepted: seq<Byte>)
    ensures accepted == data[..AcceptedBytes(|data|, sendResult, 0)]
    ensures ok <==> |accepted| == |data|
    ensures ok ==> accepted == data
    ensures !ok ==> StrictPrefix(accepted, data)
  {
    var sent, call := 0, 0;
    accepted := [];
    while sent < |data|
      invariant sent <= |data| && accepted == data[..sent]
      invariant AcceptedBytes(|data|, sendResult, 0) == sent + AcceptedBytes(|data| - sent, sendResult, call)
    {
      var n := sendResult(call);
      if n <= 0 {
        return false, accepted;
      }
      call := call + 1;
      var took := Min(n, |data| - sent);
      accepted := accepted + data[sent..sent + took];
      sent := sent + took;
    }
    return true, accepted;
  }
}
