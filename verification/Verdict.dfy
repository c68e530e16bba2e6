/** What the summary of the trials says, counted over the manifest's result files. */
module Verdict {
  import opened Common
  import opened Wilson
  import opened Decision
  import opened Straggler
  import opened Evaluation

  /** The trials of the manifest with a completed result that satisfies `p`. */
  ghost function Where(files: Files, p: Trial -> bool): (found: set<nat>)
    ensures forall i: nat :: i in found <==>
              i < |files| && files[i].Some? && files[i].value.Completed? && p(files[i].value)
    ensures |found| <= |files|
  {
    var found := set i: nat | i < |files| && files[i].Some? && files[i].value.Completed? && p(files[i].value);
    AtMost(found, |files|);
    found
  }

  lemma {:induction false} AtMost(s: set<nat>, n: nat)
    requires forall i <- s :: i < n
    ensures |s| <= n
  {
    if n == 0 {
      assert s == {};
    } else {
      AtMost(s - {n - 1}, n - 1);
    }
  }

  // ---------- counting

  lemma CountFirst(p: Trial -> bool, files: Files)
    requires files != []
    ensures var hit := files[0].Some? && files[0].value.Completed?;
            && |CompletedTrials(files)| == |CompletedTrials(files[1..])| + (if hit then 1 else 0)
            && Count(p, CompletedTrials(files))
               == Count(p, CompletedTrials(files[1..])) + if hit && p(files[0].value) then 1 else 0
  {
    var rest := LoadResults(files[1..]);
    if files[0].Some? {
      var t := files[0].value;
      assert LoadResults(files) == [t] + rest && ([t] + rest)[1..] == rest;
      if t.Completed? {
        CountCons(p, t, Filter(Finished, rest));
      } else {
        assert [] + Filter(Finished, rest) == Filter(Finished, rest);
      }
    } else {
      assert [] + rest == rest;
    }
  }

  lemma WhereFirst(p: Trial -> bool, files: Files)
    requires files != []
    ensures |Where(files, p)| == |Where(files[1..], p)| +
              if files[0].Some? && files[0].value.Completed? && p(files[0].value) then 1 else 0
  {
    var later, all := Where(files[1..], p), Where(files, p);
    ShiftedSize(later);
    forall i: nat
      ensures i in all - {0} <==> i in Shifted(later)
    {
      assert i > 0 && i < |files| ==> files[1..][i - 1] == files[i];
    }
    assert all - {0} == Shifted(later);
  }

  ghost function Shifted(s: set<nat>): (t: set<nat>)
    ensures forall j: nat :: j in t <==> j > 0 && j - 1 in s
  {
    var t := set i: nat | i in s :: i + 1;
    assert forall i: nat :: i in s ==> i + 1 in t;
    t
  }

  lemma {:induction false} ShiftedSize(s: set<nat>)
    ensures |Shifted(s)| == |s|
    decreases s
  {
    if s == {} {
      assert Shifted(s) == {};
    } else {
      var x := Pick(s);
      ShiftedSize(s - {x});
      assert Shifted(s - {x}) == Shifted(s) - {x + 1};
      assert x + 1 in Shifted(s);
    }
  }

  /** Counting over the loaded results is counting over the manifest. */
  lemma {:induction false} CountExactly(p: Trial -> bool, files: Files)
    ensures Count(p, CompletedTrials(files)) == |Where(files, p)|
  {
    hide CompletedTrials, Count;
    if files == [] {
      NothingCounted(p);
    } else {
      CountFirst(p, files);
      WhereFirst(p, files);
      CountExactly(p, files[1..]);
    }
  }

  lemma NothingCounted(p: Trial -> bool)
    ensures Count(p, CompletedTrials([])) == 0 && CompletedTrials([]) == []
    ensures Where([], p) == {}
  {
  }

  /** How many trials completed. */
  lemma {:induction false} CompletedExactly(files: Files)
    ensures |CompletedTrials(files)| == |Where(files, _ => true)|
  {
    hide CompletedTrials, Count;
    if files == [] {
      NothingCounted(_ => true);
    } else {
      CountFirst(_ => true, files);
      WhereFirst(_ => true, files);
      CompletedExactly(files[1..]);
    }
  }

  lemma {:induction false} AllCompleted(files: Files)
    ensures |Where(files, _ => true)| == |files| <==>
            forall i :: 0 <= i < |files| ==> files[i].Some? && files[i].value.Completed?
  {
    if files == [] {
      NothingCounted(_ => true);
    } else {
      var rest := files[1..];
      WhereFirst(_ => true, files);
      AllCompleted(rest);
      assert forall i :: 0 <= i < |rest| ==> rest[i] == files[i + 1];
      assert forall i :: 0 < i < |files| ==> files[i] == rest[i - 1];
    }
  }

  // ---------- the estimands

  /** The trials can be summarised: there was a detection, and there are no-fault trials. */
  predicate Summarizable(faultFiles: Files, noFaultFiles: Files) {
    noFaultFiles != [] && Count(Detected, CompletedTrials(faultFiles)) > 0
  }

  predicate OnTop(t: Trial) {
    t.Completed? && t.report.status == Ranked && t.report.top == t.expected
  }

  predicate OtherFlagged(t: Trial) {
    t.Completed? && t.report.status == Ranked &&
    exists j :: 0 <= j < |t.report.ranked| && t.report.ranked[j].flagged && Some(t.report.ranked[j].node) != t.expected
  }

  predicate SomeFlagged(t: Trial) {
    t.Completed? && t.report.status == Ranked && exists j :: 0 <= j < |t.report.ranked| && t.report.ranked[j].flagged
  }

  predicate NaiveOnTop(t: Trial) {
    t.Completed? && t.report.naive == t.expected
  }

  /** A detection with the tag of its fault type; any other type has none. */
  predicate RightTag(t: Trial) {
    OnTop(t) &&
    t.rootCause == if t.faultType == Some("cpu_contention") then Some("CPU_CONTENTION")
                   else if t.faultType == Some("io_stall") then Some("IO_STALL") else None
  }

  function OfType(faultType: string): Trial -> bool {
    (t: Trial) => t.Completed? && t.faultType == Some(faultType)
  }

  function TopOfType(faultType: string): Trial -> bool {
    (t: Trial) => t.Completed? && t.faultType == Some(faultType) && t.report.top == t.expected
  }

  lemma {:induction false} CountWithin(p: Trial -> bool, q: Trial -> bool, both: Trial -> bool, s: seq<Trial>)
    requires forall t <- s :: both(t) <==> p(t) && q(t)
    ensures Count(p, Filter(q, s)) == Count(both, s)
  {
    if s != [] {
      FilterFirst(p, q, s);
      CountWithin(p, q, both, s[1..]);
    }
  }

  lemma CountSame(p: Trial -> bool, q: Trial -> bool, files: Files)
    requires forall t: Trial :: t.Completed? ==> p(t) == q(t)
    ensures Count(p, CompletedTrials(files)) == |Where(files, q)|
  {
    CountExactly(p, files);
    assert Where(files, p) == Where(files, q);
  }

  lemma CountBoth(p: Trial -> bool, q: Trial -> bool, both: Trial -> bool, files: Files)
    requires forall t: Trial :: t.Completed? ==> (both(t) <==> p(t) && q(t))
    ensures Count(p, Filter(q, CompletedTrials(files))) == |Where(files, both)|
  {
    CountWithin(p, q, both, CompletedTrials(files));
    CountExactly(both, files);
  }

  lemma FlagsSame(t: Trial)
    requires t.Completed?
    ensures FalsePositive(t) == OtherFlagged(t) && AnyFlagged(t) == SomeFlagged(t)
  {
    var ranked := t.report.ranked;
    if FalsePositive(t) {
      var r :| r in ranked && r.flagged && Some(r.node) != t.expected;
      var j :| 0 <= j < |ranked| && ranked[j] == r;
      assert OtherFlagged(t);
    }
    if AnyFlagged(t) {
      var r :| r in ranked && r.flagged;
      var j :| 0 <= j < |ranked| && ranked[j] == r;
      assert SomeFlagged(t);
    }
  }

  /** The estimands over all completed trials: detections, fault trials with another node flagged, no-fault trials
      with any node flagged, and the naive baseline's detections. */
  lemma EstimandsExactly(faultFiles: Files, noFaultFiles: Files, sqrt: real -> real)
    requires Summarizable(faultFiles, noFaultFiles)
    ensures Summarize(faultFiles, noFaultFiles, sqrt).Some?
    ensures var s := Summarize(faultFiles, noFaultFiles, sqrt).value;
            var n, planned := |Where(faultFiles, _ => true)|, |faultFiles|;
            var controls, plannedControls := |Where(noFaultFiles, _ => true)|, |noFaultFiles|;
            && Reported(s.detection, |Where(faultFiles, OnTop)|, n, planned, false, 0.75, sqrt)
            && Reported(s.falsePositive, |Where(faultFiles, OtherFlagged)|, n, planned, true, 0.15, sqrt)
            && Reported(s.noFault, |Where(noFaultFiles, SomeFlagged)|, controls, plannedControls, true, 0.10, sqrt)
            && Reported(s.naive, |Where(faultFiles, NaiveOnTop)|, n, planned, false, 0.75, sqrt)
  {
    var n, planned := |CompletedTrials(faultFiles)|, |faultFiles|;
    forall t: Trial | t.Completed?
      ensures FalsePositive(t) == OtherFlagged(t) && AnyFlagged(t) == SomeFlagged(t)
    {
      FlagsSame(t);
    }
    SummarizeRaisesExactly(faultFiles, noFaultFiles, sqrt);
    hide Decide, Reported, CompletedTrials, Count, Filter, Where, Upper, Lower, OtherFlagged, SomeFlagged;
    hide FalsePositive, AnyFlagged;
    CompletedExactly(faultFiles);
    CompletedExactly(noFaultFiles);
    CountSame(Detected, OnTop, faultFiles);
    CountSame(FalsePositive, OtherFlagged, faultFiles);
    CountSame(AnyFlagged, SomeFlagged, noFaultFiles);
    CountSame(NaiveDetected, NaiveOnTop, faultFiles);
    DecideReports(|Where(faultFiles, OnTop)|, n, planned, false, 0.75, sqrt);
    DecideReports(|Where(faultFiles, OtherFlagged)|, n, planned, true, 0.15, sqrt);
    DecideReports(
      |Where(noFaultFiles, SomeFlagged)|, |CompletedTrials(noFaultFiles)|, |noFaultFiles|, true, 0.10, sqrt);
    DecideReports(|Where(faultFiles, NaiveOnTop)|, n, planned, false, 0.75, sqrt);
  }

  lemma CountIsFilter(p: Trial -> bool, s: seq<Trial>)
    ensures Count(p, s) == |Filter(p, s)|
  {
  }

  /** The conditional estimands are decisions too: the tag accuracy over the detections, with their own number as the
      planned one, and each fault type over its own trials, forty being planned. */
  lemma ConditionalEstimands(faultFiles: Files, noFaultFiles: Files, sqrt: real -> real)
    requires Summarizable(faultFiles, noFaultFiles)
    ensures Summarize(faultFiles, noFaultFiles, sqrt).Some?
    ensures var s, completed := Summarize(faultFiles, noFaultFiles, sqrt).value, CompletedTrials(faultFiles);
            var detections := Filter(Detected, completed);
            var cpu, io := Filter(HasType("cpu_contention"), completed), Filter(HasType("io_stall"), completed);
            && s.tagAccuracy == Decide(Count(TagMatches, detections), |detections|, |detections|, false, 0.0, sqrt)
            && s.cpu == Decide(Count(TopMatches, cpu), |cpu|, 40, false, 0.75, sqrt)
            && s.io == Decide(Count(TopMatches, io), |io|, 40, false, 0.75, sqrt)
  {
    SummarizeRaisesExactly(faultFiles, noFaultFiles, sqrt);
    hide Decide, CompletedTrials, Filter, Count, Raises;
  }

  /** Their counts over the manifest: the detections and those with the tag of their fault type; and the completed
      trials of a fault type and those with the target on top. */
  lemma ConditionalCounts(files: Files, faultType: string)
    ensures var completed := CompletedTrials(files);
            var detections, typed := Filter(Detected, completed), Filter(HasType(faultType), completed);
            && |detections| == |Where(files, OnTop)| && Count(TagMatches, detections) == |Where(files, RightTag)|
            && |typed| == |Where(files, OfType(faultType))|
            && Count(TopMatches, typed) == |Where(files, TopOfType(faultType))|
  {
    hide CompletedTrials, Filter, Where, Count;
    CountSame(Detected, OnTop, files);
    CountIsFilter(Detected, CompletedTrials(files));
    CountBoth(TagMatches, Detected, RightTag, files);
    CountSame(HasType(faultType), OfType(faultType), files);
    CountIsFilter(HasType(faultType), CompletedTrials(files));
    CountBoth(TopMatches, HasType(faultType), TopOfType(faultType), files);
  }

  lemma SupportedMeans(faultFiles: Files, noFaultFiles: Files, sqrt: real -> real)
    requires Summarizable(faultFiles, noFaultFiles)
    ensures Summarize(faultFiles, noFaultFiles, sqrt).Some?
    ensures var s := Summarize(faultFiles, noFaultFiles, sqrt).value;
            s.primaryClaimSupported <==>
            s.detection.Decided? && s.detection.pass && s.falsePositive.Decided? && s.falsePositive.pass
  {
    SummarizeRaisesExactly(faultFiles, noFaultFiles, sqrt);
    hide Decide, CompletedTrials, Count, ByType, Raises;
  }

  lemma PassMeans(
    r: Outcome, successes: nat, n: nat, planned: nat, upperRule: bool, threshold: real, sqrt: real -> real)
    requires Reported(r, successes, n, planned, upperRule, threshold, sqrt) && n <= planned
    ensures r.Decided? && r.pass <==>
            && n == planned > 0 && successes <= n
            && if upperRule then Upper(successes, n, 1.959963984540054, sqrt) <= threshold
               else Lower(successes, n, 1.959963984540054, sqrt) >= threshold
  {
    hide Upper, Lower;
  }

  /** The fault trials that were ranked with the target on top. */
  ghost function DetectedTrials(files: Files): (found: set<nat>)
    ensures forall i: nat :: i in found <==>
              && i < |files| && files[i].Some? && files[i].value.Completed?
              && files[i].value.report.status == Ranked && files[i].value.report.top == files[i].value.expected
    ensures |found| <= |files|
  {
    Where(files, OnTop)
  }

  /** The fault trials that were ranked with some node other than the target flagged. */
  ghost function MistakenTrials(files: Files): (found: set<nat>)
    ensures forall i: nat :: i in found <==>
              && i < |files| && files[i].Some? && files[i].value.Completed?
              && files[i].value.report.status == Ranked
              && exists j :: 0 <= j < |files[i].value.report.ranked| &&
                   files[i].value.report.ranked[j].flagged &&
                   Some(files[i].value.report.ranked[j].node) != files[i].value.expected
    ensures |found| <= |files|
  {
    Where(files, OtherFlagged)
  }

  /** The headline: the primary claim is supported exactly when there are fault trials, all of them completed, the
      lower bound of the 95 percent interval for those ranked with the target on top is at least 0.75, and the upper
      bound for those with some other node flagged is at most 0.15. */
  lemma PrimaryClaimExactly(faultFiles: Files, noFaultFiles: Files, sqrt: real -> real)
    requires Summarizable(faultFiles, noFaultFiles)
    ensures Summarize(faultFiles, noFaultFiles, sqrt).Some?
    ensures var n := |faultFiles|;
            Summarize(faultFiles, noFaultFiles, sqrt).value.primaryClaimSupported <==>
              && n > 0 && (forall i :: 0 <= i < n ==> faultFiles[i].Some? && faultFiles[i].value.Completed?)
              && Lower(|DetectedTrials(faultFiles)|, n, 1.959963984540054, sqrt) >= 0.75
              && Upper(|MistakenTrials(faultFiles)|, n, 1.959963984540054, sqrt) <= 0.15
  {
    hide Summarize, Reported, Upper, Lower, OtherFlagged;
    EstimandsExactly(faultFiles, noFaultFiles, sqrt);
    AllCompleted(faultFiles);
    SupportedMeans(faultFiles, noFaultFiles, sqrt);
    var n, s := |faultFiles|, Summarize(faultFiles, noFaultFiles, sqrt).value;
    var completed := |Where(faultFiles, _ => true)|;
    PassMeans(s.detection, |Where(faultFiles, OnTop)|, completed, n, false, 0.75, sqrt);
    PassMeans(s.falsePositive, |Where(faultFiles, OtherFlagged)|, completed, n, true, 0.15, sqrt);
  }
}
