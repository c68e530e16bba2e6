/** Schema and timestamp checks on one decoded sample batch. */
module Validation {
  import opened Common

  const ONE_DAY_NS := 24 * 60 * 60 * 1_000_000_000
  const SUPPORTED_SCHEMA_VERSIONS: set<nat> := {1}

  datatype WireSample = WireSample(node: string, metric: nat, ts: int, mono: int, value: real)

  datatype Reason = UnknownMetricId | InvalidTimestamp

  datatype ValidationResult = ValidationResult(accepted: seq<WireSample>, dropped: seq<Reason>, schemaMismatch: bool)

  /** The ten metrics of the canonical table. */
  predicate KnownMetric(metric: nat) {
    1 <= metric <= 10
  }

  /** Why one sample is dropped, if it is; an unknown metric is reported before a bad timestamp. */
  function Fault(s: WireSample, now: int): Option<Reason> {
    if !KnownMetric(s.metric) then Some(UnknownMetricId)
    else if s.ts < 0 || s.ts > now + ONE_DAY_NS then Some(InvalidTimestamp)
    else None
  }

  /** The checks in the numbers of the metric table and the clock: ten metrics, and up to a day ahead. */
  lemma FaultExactly(s: WireSample, now: int)
    ensures Fault(s, now) == None <==> 1 <= s.metric <= 10 && 0 <= s.ts <= now + 86_400_000_000_000
    ensures Fault(s, now) == Some(UnknownMetricId) <==> s.metric < 1 || s.metric > 10
    ensures Fault(s, now) == Some(InvalidTimestamp) <==>
            1 <= s.metric <= 10 && (s.ts < 0 || s.ts > now + 86_400_000_000_000)
  {
  }

  function Accepted(samples: seq<WireSample>, now: int): (kept: seq<WireSample>)
    ensures forall s :: s in kept <==> s in samples && Fault(s, now).None?
  {
    if samples == [] then []
    else
      var last := samples[|samples| - 1];
      Accepted(samples[..|samples| - 1], now) + if Fault(last, now).None? then [last] else []
  }

  function DroppedReasons(samples: seq<WireSample>, now: int): seq<Reason> {
    if samples == [] then []
    else
      var last := samples[|samples| - 1];
      DroppedReasons(samples[..|samples| - 1], now) + if Fault(last, now).None? then [] else [Fault(last, now).value]
  }

  function Validated(schemaVersion: nat, samples: seq<WireSample>, now: int): ValidationResult {
    if schemaVersion !in SUPPORTED_SCHEMA_VERSIONS then ValidationResult([], [], true)
    else ValidationResult(Accepted(samples, now), DroppedReasons(samples, now), false)
  }

  /** Exactly the known metrics with a timestamp from zero to a day ahead of the clock are accepted. */
  method ValidateBatch(schemaVersion: nat, samples: seq<WireSample>, now: int) returns (r: ValidationResult)
    ensures r == Validated(schemaVersion, samples, now)
    ensures r.schemaMismatch <==> schemaVersion != 1
    ensures r.schemaMismatch ==> r.accepted == [] && r.dropped == []
    ensures !r.schemaMismatch ==>
              forall s :: s in r.accepted <==>
                          s in samples && 1 <= s.metric <= 10 && 0 <= s.ts <= now + 86_400_000_000_000
  {
    if schemaVersion !in SUPPORTED_SCHEMA_VERSIONS {
      return ValidationResult([], [], true);
    }
    var accepted, dropped := [], [];
    for i := 0 to |samples|
      invariant accepted == Accepted(samples[..i], now)
      invariant dropped == DroppedReasons(samples[..i], now)
    {
      assert samples[..i + 1][..i] == samples[..i];
      var s := samples[i];
      if !KnownMetric(s.metric) {
        dropped := dropped + [UnknownMetricId];
        continue;
      }
      if s.ts < 0 || s.ts > now + ONE_DAY_NS {
        dropped := dropped + [InvalidTimestamp];
        continue;
      }
      accepted := accepted + [s];
    }
    assert samples[..|samples|] == samples;
    forall s | s in samples
      ensures Fault(s, now).None? <==> 1 <= s.metric <= 10 && 0 <= s.ts <= now + 86_400_000_000_000
    {
      FaultExactly(s, now);
    }
    return ValidationResult(accepted, dropped, false);
  }

  ghost predicate Ascending(indices: seq<nat>, bound: nat) {
    && (forall i :: 0 <= i < |indices| ==> indices[i] < bound)
    && (forall i, j :: 0 <= i < j < |indices| ==> indices[i] < indices[j])
  }

  /** The accepted samples are the ones at `kept`, in order. */
  ghost predicate KeptAt(samples: seq<WireSample>, kept: seq<nat>, accepted: seq<WireSample>) {
    Ascending(kept, |samples|) && |kept| == |accepted| &&
    forall i :: 0 <= i < |kept| ==> accepted[i] == samples[kept[i]]
  }

  /** The reason codes belong to the samples at `lost`, in order. */
  ghost predicate LostAt(samples: seq<WireSample>, now: int, lost: seq<nat>, reasons: seq<Reason>) {
    Ascending(lost, |samples|) && |lost| == |reasons| &&
    forall i :: 0 <= i < |lost| ==> Fault(samples[lost[i]], now) == Some(reasons[i])
  }

  /** Validation splits the batch in order: every sample is either kept or lost, and never both. */
  lemma {:induction false} SplitKeepsOrder(samples: seq<WireSample>, now: int) returns (kept: seq<nat>, lost: seq<nat>)
    ensures KeptAt(samples, kept, Accepted(samples, now))
    ensures LostAt(samples, now, lost, DroppedReasons(samples, now))
    ensures forall i :: 0 <= i < |samples| ==> (i in kept) != (i in lost)
    ensures |Accepted(samples, now)| + |DroppedReasons(samples, now)| == |samples|
  {
    if samples == [] {
      kept, lost := [], [];
    } else {
      var n := |samples| - 1;
      var before := samples[..n];
      kept, lost := SplitKeepsOrder(before, now);
      NotAmong(before, now, kept, lost);
      hide KeptAt, LostAt;
      OneMoreSample(samples, now);
      hide Accepted, DroppedReasons;
      if Fault(samples[n], now).None? {
        KeepLast(samples, kept, Accepted(before, now));
        LongerBatch(samples, now, lost, DroppedReasons(before, now));
        kept := kept + [n];
      } else {
        LoseLast(samples, now, lost, DroppedReasons(before, now));
        KeepLast(samples, kept, Accepted(before, now));
        lost := lost + [n];
      }
    }
  }

  /** The split in numbers: an accepted position holds a known metric with an acceptable timestamp, and the code of
      a dropped one says which of the two it lacks, the metric being looked at first. */
  lemma ValidationExactly(samples: seq<WireSample>, now: int) returns (kept: seq<nat>, lost: seq<nat>)
    ensures var accepted, dropped := Accepted(samples, now), DroppedReasons(samples, now);
            && Ascending(kept, |samples|) && Ascending(lost, |samples|)
            && |kept| == |accepted| && |lost| == |dropped| && |kept| + |lost| == |samples|
            && (forall i :: 0 <= i < |kept| ==> accepted[i] == samples[kept[i]])
            && (forall i :: 0 <= i < |samples| ==>
                  (i in kept <==> 1 <= samples[i].metric <= 10 && 0 <= samples[i].ts <= now + 86_400_000_000_000))
            && (forall i :: 0 <= i < |samples| ==> (i in lost <==> i !in kept))
            && (forall i :: 0 <= i < |lost| ==>
                  dropped[i] == if 1 <= samples[lost[i]].metric <= 10 then InvalidTimestamp else UnknownMetricId)
  {
    kept, lost := SplitKeepsOrder(samples, now);
    var accepted := Accepted(samples, now);
    forall i | 0 <= i < |samples|
      ensures i in kept <==> 1 <= samples[i].metric <= 10 && 0 <= samples[i].ts <= now + 86_400_000_000_000
    {
      FaultExactly(samples[i], now);
      if i in kept {
        var j :| 0 <= j < |kept| && kept[j] == i;
        assert accepted[j] in accepted;
      }
    }
    hide Accepted, DroppedReasons;
    forall i | 0 <= i < |lost|
      ensures DroppedReasons(samples, now)[i]
              == if 1 <= samples[lost[i]].metric <= 10 then InvalidTimestamp else UnknownMetricId
    {
      FaultExactly(samples[lost[i]], now);
    }
  }

  lemma OneMoreSample(samples: seq<WireSample>, now: int)
    requires samples != []
    ensures var n := |samples| - 1;
            if Fault(samples[n], now).None?
            then && Accepted(samples, now) == Accepted(samples[..n], now) + [samples[n]]
                 && DroppedReasons(samples, now) == DroppedReasons(samples[..n], now)
            else && Accepted(samples, now) == Accepted(samples[..n], now)
                 && DroppedReasons(samples, now) == DroppedReasons(samples[..n], now) + [Fault(samples[n], now).value]
  {
  }

  lemma NotAmong(samples: seq<WireSample>, now: int, kept: seq<nat>, lost: seq<nat>)
    requires KeptAt(samples, kept, Accepted(samples, now)) && LostAt(samples, now, lost, DroppedReasons(samples, now))
    ensures |samples| !in kept && |samples| !in lost
  {
  }

  lemma KeepLast(samples: seq<WireSample>, kept: seq<nat>, accepted: seq<WireSample>)
    requires samples != [] && KeptAt(samples[..|samples| - 1], kept, accepted)
    ensures KeptAt(samples, kept, accepted)
    ensures KeptAt(samples, kept + [|samples| - 1], accepted + [samples[|samples| - 1]])
  {
  }

  lemma LongerBatch(samples: seq<WireSample>, now: int, lost: seq<nat>, reasons: seq<Reason>)
    requires samples != [] && LostAt(samples[..|samples| - 1], now, lost, reasons)
    ensures LostAt(samples, now, lost, reasons)
  {
  }

  lemma LoseLast(samples: seq<WireSample>, now: int, lost: seq<nat>, reasons: seq<Reason>)
    requires samples != [] && LostAt(samples[..|samples| - 1], now, lost, reasons)
    requires Fault(samples[|samples| - 1], now).Some?
    ensures LostAt(samples, now, lost + [|samples| - 1], reasons + [Fault(samples[|samples| - 1], now).value])
  {
  }
}
