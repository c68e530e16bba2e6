/** Summarising the fault-injection trials into the estimands of the statistical contract. */
module Evaluation {
  import opened Common
  import opened Wilson
  import opened Decision
  import opened Straggler
  import opened StragglerProperties

  const DETECTION_LOWER_BOUND_THRESHOLD := 0.75
  const FP_UPPER_BOUND_THRESHOLD := 0.15
  const NO_FAULT_FP_UPPER_BOUND_THRESHOLD := 0.10
  const TRIALS_PER_FAULT_TYPE := 40

  /** One result file. */
  datatype Trial =
    | Completed(faultType: Option<string>, expected: Option<string>, report: Report, rootCause: Option<string>)
    | Aborted

  /** For each trial of the manifest, its result file if there is one. */
  type Files = seq<Option<Trial>>

  function LoadResults(files: Files): (trials: seq<Trial>)
    ensures |trials| <= |files|
  {
    if files == [] then []
    else (if files[0].Some? then [files[0].value] else []) + LoadResults(files[1..])
  }

  function Filter<T>(p: T -> bool, s: seq<T>): (r: seq<T>)
    ensures |r| <= |s|
    ensures forall x <- r :: x in s && p(x)
  {
    if s == [] then [] else (if p(s[0]) then [s[0]] else []) + Filter(p, s[1..])
  }

  function Count<T>(p: T -> bool, s: seq<T>): nat {
    |Filter(p, s)|
  }

  predicate Finished(t: Trial) {
    t.Completed?
  }

  predicate TopMatches(t: Trial) {
    t.Completed? && t.report.top == t.expected
  }

  predicate Detected(t: Trial) {
    TopMatches(t) && t.report.status == Ranked
  }

  predicate NaiveDetected(t: Trial) {
    t.Completed? && t.report.naive == t.expected
  }

  predicate FalsePositive(t: Trial) {
    t.Completed? && t.report.status == Ranked && exists r <- t.report.ranked :: r.flagged && Some(r.node) != t.expected
  }

  predicate AnyFlagged(t: Trial) {
    t.Completed? && t.report.status == Ranked && exists r <- t.report.ranked :: r.flagged
  }

  function ExpectedTag(faultType: Option<string>): Option<string> {
    if faultType == Some("cpu_contention") then Some("CPU_CONTENTION")
    else if faultType == Some("io_stall") then Some("IO_STALL")
    else None
  }

  predicate TagMatches(t: Trial) {
    t.Completed? && t.rootCause == ExpectedTag(t.faultType)
  }

  function HasType(faultType: string): Trial -> bool {
    (t: Trial) => t.Completed? && t.faultType == Some(faultType)
  }

  datatype Summary = Summary(
    detection: Outcome, falsePositive: Outcome, noFault: Outcome, tagAccuracy: Outcome, naive: Outcome,
    cpu: Outcome, io: Outcome, primaryClaimSupported: bool)

  function ByType(faultType: string, completed: seq<Trial>, sqrt: real -> real): Outcome {
    var subset := Filter(HasType(faultType), completed);
    Decide(Count(TopMatches, subset), |subset|, TRIALS_PER_FAULT_TYPE, false, DETECTION_LOWER_BOUND_THRESHOLD, sqrt)
  }

  predicate Raises(o: Outcome) {
    o.RaisesValueError? || o.RaisesZeroDivision?
  }

  predicate Passes(o: Outcome) {
    o.Decided? && o.pass
  }

  function CompletedTrials(files: Files): (trials: seq<Trial>)
    ensures |trials| <= |files|
  {
    Filter(Finished, LoadResults(files))
  }

  /** The summary of the trials, or None when computing one of the estimands raises. */
  function Summarize(faultFiles: Files, noFaultFiles: Files, sqrt: real -> real): Option<Summary> {
    var completed, completedNoFault := CompletedTrials(faultFiles), CompletedTrials(noFaultFiles);
    var n := |completed|;
    var detection := Decide(Count(Detected, completed), n, |faultFiles|, false, DETECTION_LOWER_BOUND_THRESHOLD, sqrt);
    var falsePositive := Decide(Count(FalsePositive, completed), n, |faultFiles|, true, FP_UPPER_BOUND_THRESHOLD, sqrt);
    var noFault := Decide(
      Count(AnyFlagged, completedNoFault), |completedNoFault|, |noFaultFiles|, true,
      NO_FAULT_FP_UPPER_BOUND_THRESHOLD, sqrt);
    var truePositives := Filter(Detected, completed);
    var tagAccuracy := Decide(Count(TagMatches, truePositives), |truePositives|, |truePositives|, false, 0.0, sqrt);
    var naive := Decide(Count(NaiveDetected, completed), n, |faultFiles|, false, DETECTION_LOWER_BOUND_THRESHOLD, sqrt);
    var cpu, io := ByType("cpu_contention", completed, sqrt), ByType("io_stall", completed, sqrt);
    if Raises(detection) || Raises(falsePositive) || Raises(noFault) || Raises(tagAccuracy) || Raises(naive)
       || Raises(cpu) || Raises(io)
    then None
    else Some(Summary(detection, falsePositive, noFault, tagAccuracy, naive, cpu, io,
                      Passes(detection) && Passes(falsePositive)))
  }

  /** Summarising raises exactly when no completed trial was a detection, or there are no no-fault trials: the
      tag accuracy is decided over the detections with their own number as the predeclared one. */
  lemma SummarizeRaisesExactly(faultFiles: Files, noFaultFiles: Files, sqrt: real -> real)
    ensures Summarize(faultFiles, noFaultFiles, sqrt).None? <==>
            noFaultFiles == [] || Count(Detected, CompletedTrials(faultFiles)) == 0
  {
    var completed, completedNoFault := CompletedTrials(faultFiles), CompletedTrials(noFaultFiles);
    var truePositives := Filter(Detected, completed);
    hide Filter, CompletedTrials, Upper, Lower, WilsonInterval, Decide;
    RaisesExactly(Count(Detected, completed), |completed|, |faultFiles|, false, DETECTION_LOWER_BOUND_THRESHOLD, sqrt);
    RaisesExactly(Count(FalsePositive, completed), |completed|, |faultFiles|, true, FP_UPPER_BOUND_THRESHOLD, sqrt);
    RaisesExactly(Count(AnyFlagged, completedNoFault), |completedNoFault|, |noFaultFiles|, true,
                  NO_FAULT_FP_UPPER_BOUND_THRESHOLD, sqrt);
    RaisesExactly(Count(TagMatches, truePositives), |truePositives|, |truePositives|, false, 0.0, sqrt);
    RaisesExactly(Count(NaiveDetected, completed), |completed|, |faultFiles|, false,
                  DETECTION_LOWER_BOUND_THRESHOLD, sqrt);
    forall faultType: string
      ensures !Raises(ByType(faultType, completed, sqrt))
    {
      var subset := Filter(HasType(faultType), completed);
      RaisesExactly(Count(TopMatches, subset), |subset|, TRIALS_PER_FAULT_TYPE, false,
                    DETECTION_LOWER_BOUND_THRESHOLD, sqrt);
    }
  }

  lemma {:induction false} NoResultFiles(files: Files)
    requires forall f <- files :: f.None?
    ensures LoadResults(files) == []
  {
    if files != [] {
      assert files[0] in files;
      NoResultFiles(files[1..]);
    }
  }

  /** The full manifest of 80 fault trials and 16 no-fault trials cannot be summarised before any has run. */
  lemma NoResultsRaises(sqrt: real -> real)
    ensures Summarize(seq(80, _ => None), seq(16, _ => None), sqrt).None?
  {
    var faultFiles: Files, noFaultFiles: Files := seq(80, _ => None), seq(16, _ => None);
    NoResultFiles(faultFiles);
    SummarizeRaisesExactly(faultFiles, noFaultFiles, sqrt);
  }

  lemma RaisesExactly(successes: nat, n: nat, predeclared: nat, upperRule: bool, threshold: real, sqrt: real -> real)
    requires successes <= n
    ensures Raises(Decide(successes, n, predeclared, upperRule, threshold, sqrt)) <==> n == 0 && predeclared == 0
  {
    DecideExactly(successes, n, predeclared, upperRule, threshold, sqrt);
  }

  // ---------- comparisons between estimands

  /** The trial's report is the ranking of some durations, without a tie for the slowest. */
  ghost predicate Untied(t: Trial) {
    t.Completed? && t.expected.Some? &&
    exists d :: IsDict(d) && t.report == RankStragglers(d) && (|d| >= MIN_REPORTING_NODES ==> UniqueSlowest(d))
  }

  lemma DetectionIsNaive(t: Trial)
    requires Untied(t) && Detected(t)
    ensures NaiveDetected(t)
  {
    var d :| IsDict(d) && t.report == RankStragglers(d) && (|d| >= MIN_REPORTING_NODES ==> UniqueSlowest(d));
    BaselineDominance(d);
  }

  lemma {:induction false} CountMonotone<T>(p: T -> bool, q: T -> bool, s: seq<T>)
    requires forall x <- s :: p(x) ==> q(x)
    ensures Count(p, s) <= Count(q, s)
  {
    if s != [] {
      CountMonotone(p, q, s[1..]);
    }
  }

  /** Without ties every detection is a naive detection; so when the ranking passes its rule, the naive
      baseline passes it too. */
  lemma NaiveDominates(completed: seq<Trial>, predeclared: nat, sqrt: real -> real)
    requires IsSqrt(sqrt) && forall t <- completed :: Untied(t)
    ensures Count(Detected, completed) <= Count(NaiveDetected, completed)
    ensures var n := |completed|;
            var rule := (k: nat) => Decide(k, n, predeclared, false, DETECTION_LOWER_BOUND_THRESHOLD, sqrt);
            Passes(rule(Count(Detected, completed))) ==> Passes(rule(Count(NaiveDetected, completed)))
  {
    forall t | t in completed && Detected(t)
      ensures NaiveDetected(t)
    {
      DetectionIsNaive(t);
    }
    CountMonotone(Detected, NaiveDetected, completed);
    var a, b, n := Count(Detected, completed), Count(NaiveDetected, completed), |completed|;
    hide Count, Upper, Lower, WilsonInterval, Decide, IsSqrt;
    DecideExactly(a, n, predeclared, false, DETECTION_LOWER_BOUND_THRESHOLD, sqrt);
    CountAtMost(NaiveDetected, completed);
    DecideExactly(b, n, predeclared, false, DETECTION_LOWER_BOUND_THRESHOLD, sqrt);
    if n > 0 && a < b {
      WilsonMonotone(a, b, n, Z_95, sqrt);
    }
  }

  /** In the summary: if no fault trial had a tie, a passing detection rate means a passing naive baseline; and
      the no-fault estimand cannot pass when its predeclared number of trials N has N t < z^2 (1 - t), as the
      16 trials of the manifest do at t = 0.10. */
  lemma SummaryImplications(faultFiles: Files, noFaultFiles: Files, sqrt: real -> real)
    requires IsSqrt(sqrt) && Summarize(faultFiles, noFaultFiles, sqrt).Some?
    ensures var s := Summarize(faultFiles, noFaultFiles, sqrt).value;
            && ((forall t <- CompletedTrials(faultFiles) :: Untied(t)) && Passes(s.detection) ==> Passes(s.naive))
            && (Passes(s.noFault) ==>
                  |noFaultFiles| as real * NO_FAULT_FP_UPPER_BOUND_THRESHOLD
                  >= Square(Z_95) * (1.0 - NO_FAULT_FP_UPPER_BOUND_THRESHOLD))
            && (|noFaultFiles| == 16 ==> !Passes(s.noFault))
  {
    hide Count, IsSqrt, Decide, Filter, CompletedTrials, Untied, ByType, Raises, Passes, Square;
    var completed, controls := CompletedTrials(faultFiles), CompletedTrials(noFaultFiles);
    if forall t <- completed :: Untied(t) {
      NaiveDominates(completed, |faultFiles|, sqrt);
    }
    NoFaultBound(Count(AnyFlagged, controls), |controls|, |noFaultFiles|, sqrt);
  }

  lemma NoFaultBound(flags: nat, n: nat, predeclared: nat, sqrt: real -> real)
    requires IsSqrt(sqrt) && n <= predeclared
    ensures Passes(Decide(flags, n, predeclared, true, NO_FAULT_FP_UPPER_BOUND_THRESHOLD, sqrt)) ==>
              && predeclared as real * NO_FAULT_FP_UPPER_BOUND_THRESHOLD
                 >= Square(Z_95) * (1.0 - NO_FAULT_FP_UPPER_BOUND_THRESHOLD)
              && predeclared != 16
  {
    hide IsSqrt, Decide, Upper, Lower, Square;
    if Passes(Decide(flags, n, predeclared, true, NO_FAULT_FP_UPPER_BOUND_THRESHOLD, sqrt)) {
      DecideExactly(flags, n, predeclared, true, NO_FAULT_FP_UPPER_BOUND_THRESHOLD, sqrt);
      UpperRuleReachable(n, Z_95, sqrt, NO_FAULT_FP_UPPER_BOUND_THRESHOLD);
      NoFaultBatchNeverPasses(flags, sqrt);
    }
  }

  lemma CountAtMost<T>(p: T -> bool, s: seq<T>)
    ensures Count(p, s) <= |s|
  {
  }

  /** A report has a candidate only if the phase was ranked. */
  lemma CandidateMeansRanked(d: seq<Entry>)
    ensures RankStragglers(d).top.Some? ==> RankStragglers(d).status == Ranked
  {
  }

  /** A fault trial as the harness records it: one of the two fault types, a target, and a ranking report. */
  ghost predicate FaultTrial(t: Trial) {
    t.Completed? && t.expected.Some? && t.faultType in {Some("cpu_contention"), Some("io_stall")} &&
    exists d :: t.report == RankStragglers(d)
  }

  /** The detections per fault type add up to the detections of estimand 1, although the former do not look at
      the report's status. */
  lemma {:induction false} TypesAddUp(completed: seq<Trial>)
    requires forall t <- completed :: FaultTrial(t)
    ensures Count(TopMatches, Filter(HasType("cpu_contention"), completed)) +
            Count(TopMatches, Filter(HasType("io_stall"), completed)) == Count(Detected, completed)
  {
    if completed != [] {
      var t := completed[0];
      assert t in completed;
      TypesAddUp(completed[1..]);
      FilterFirst(TopMatches, HasType("cpu_contention"), completed);
      FilterFirst(TopMatches, HasType("io_stall"), completed);
      var d :| t.report == RankStragglers(d);
      CandidateMeansRanked(d);
      DistinctTypes();
    }
  }

  lemma DistinctTypes()
    ensures "cpu_contention" != "io_stall"
  {
    assert "cpu_contention"[0] != "io_stall"[0];
  }

  lemma FilterFirst<T>(p: T -> bool, q: T -> bool, s: seq<T>)
    requires s != []
    ensures Count(p, Filter(q, s)) == Count(p, Filter(q, s[1..])) + if q(s[0]) && p(s[0]) then 1 else 0
  {
    if q(s[0]) {
      CountCons(p, s[0], Filter(q, s[1..]));
    } else {
      assert [] + Filter(q, s[1..]) == Filter(q, s[1..]);
    }
  }

  lemma CountCons<T>(p: T -> bool, x: T, s: seq<T>)
    ensures Count(p, [x] + s) == Count(p, s) + if p(x) then 1 else 0
  {
    assert ([x] + s)[1..] == s;
  }
}
