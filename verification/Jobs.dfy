/** Job orchestration: each phase is dispatched to every host, and the next one only after enough reports. */
module Jobs {
  import opened Common
  import opened Store

  const DEFAULT_INTENSITY := 2

  datatype Fault = Fault(faultType: string, intensity: nat)

  /** One request to a workload host to start a phase. */
  datatype Dispatch = Dispatch(phase: nat, host: string, fault: Option<Fault>)

  datatype Config = Config(job: string, hosts: seq<string>, phaseCount: nat, manifest: Option<FaultManifest>)

  datatype Stage = Dispatching | Waiting | Ended

  /** `next` is the host to dispatch to next within the phase. */
  datatype JobState = JobState(
    phase: nat, stage: Stage, next: nat, reports: PhaseTable, status: JobStatus, sent: seq<Dispatch>)

  function Begun(reports: PhaseTable): JobState {
    JobState(0, Dispatching, 0, reports, Running, [])
  }

  /** The fault goes to the target host in the chosen phase only. */
  function FaultFor(c: Config, host: string, phase: nat): Option<Fault> {
    match c.manifest
    case None => None
    case Some(m) =>
      if m.targetHost == host && m.phaseIndex == phase
      then Some(Fault(m.faultType, if m.intensity.Some? then m.intensity.value else DEFAULT_INTENSITY))
      else None
  }

  // ---------- steps, with reports arriving at any moment

  datatype Event = Arrive(report: PhaseReport) | DispatchNext | Gathered | PollAgain | PhaseDone | TimeOut | Complete

  ghost predicate AllReported(c: Config, reports: PhaseTable, phase: nat) {
    |Reporters(reports, c.job, phase)| >= |c.hosts|
  }

  ghost predicate Enabled(c: Config, s: JobState, e: Event) {
    match e
    case Arrive(_) => true
    case DispatchNext => s.stage == Dispatching && s.phase < c.phaseCount && s.next < |c.hosts|
    case Gathered => s.stage == Dispatching && s.phase < c.phaseCount && s.next == |c.hosts|
    case PollAgain => s.stage == Waiting && !AllReported(c, s.reports, s.phase)
    case PhaseDone => s.stage == Waiting && AllReported(c, s.reports, s.phase)
    case TimeOut => s.stage == Waiting && !AllReported(c, s.reports, s.phase)
    case Complete => s.stage == Dispatching && s.phase == c.phaseCount
  }

  ghost function Step(c: Config, s: JobState, e: Event): JobState
    requires Enabled(c, s, e)
  {
    match e
    case Arrive(r) => s.(reports := InsertReport(s.reports, r))
    case DispatchNext =>
      var host := c.hosts[s.next];
      s.(next := s.next + 1, sent := s.sent + [Dispatch(s.phase, host, FaultFor(c, host, s.phase))])
    case Gathered => s.(stage := Waiting)
    case PollAgain => s
    case PhaseDone => s.(phase := s.phase + 1, stage := Dispatching, next := 0)
    case TimeOut => s.(stage := Ended, status := TimedOut)
    case Complete => s.(stage := Ended, status := Completed)
  }

  ghost predicate Reaches(c: Config, start: PhaseTable, events: seq<Event>, s: JobState) {
    if events == [] then s == Begun(start)
    else
      var n := |events| - 1;
      exists r :: Reaches(c, start, events[..n], r) && Enabled(c, r, events[n]) && s == Step(c, r, events[n])
  }

  lemma ReachesOneMore(c: Config, start: PhaseTable, events: seq<Event>, s: JobState, e: Event)
    requires Reaches(c, start, events, s) && Enabled(c, s, e)
    ensures Reaches(c, start, events + [e], Step(c, s, e))
  {
    assert (events + [e])[..|events|] == events;
  }

  /** The dispatches of one phase, to every host in order. */
  function PhasePlan(c: Config, phase: nat, hosts: seq<string>): seq<Dispatch> {
    if hosts == [] then []
    else
      var n := |hosts| - 1;
      PhasePlan(c, phase, hosts[..n]) + [Dispatch(phase, hosts[n], FaultFor(c, hosts[n], phase))]
  }

  function Plan(c: Config, phases: nat): seq<Dispatch> {
    if phases == 0 then [] else Plan(c, phases - 1) + PhasePlan(c, phases - 1, c.hosts)
  }

  /** All phases before `phase` have been reported by enough nodes. */
  ghost predicate Barrier(c: Config, reports: PhaseTable, phase: nat) {
    forall k: nat :: k < phase ==> AllReported(c, reports, k)
  }

  ghost predicate Inv(c: Config, s: JobState) {
    && s.next <= |c.hosts| && s.phase <= c.phaseCount && (s.phase == c.phaseCount ==> s.next == 0)
    && Barrier(c, s.reports, s.phase)
    && (s.stage == Waiting ==> s.next == |c.hosts| && s.phase < c.phaseCount)
    && (s.stage == Ended <==> s.status != Running)
    && (s.status == Completed ==> s.phase == c.phaseCount)
    && s.sent == Plan(c, s.phase) + PhasePlan(c, s.phase, c.hosts[..s.next])
  }

  lemma ReportsOnlyGrow(c: Config, t: PhaseTable, r: PhaseReport, phase: nat)
    ensures AllReported(c, t, phase) ==> AllReported(c, InsertReport(t, r), phase)
  {
    assert [r][..0] == [];
    assert InsertReports(t, [r]) == InsertReport(InsertReports(t, []), r) == InsertReport(t, r);
    ReportersGrow(t, [r], c.job, phase);
    SubsetSize(Reporters(t, c.job, phase), Reporters(InsertReport(t, r), c.job, phase));
  }

  lemma StepKeeps(c: Config, s: JobState, e: Event)
    requires Inv(c, s) && Enabled(c, s, e)
    ensures Inv(c, Step(c, s, e))
  {
    match e
    case Arrive(r) =>
      forall k: nat | k < s.phase
        ensures AllReported(c, InsertReport(s.reports, r), k)
      {
        ReportsOnlyGrow(c, s.reports, r, k);
      }
    case DispatchNext =>
      var hosts := c.hosts[..s.next + 1];
      assert hosts[..s.next] == c.hosts[..s.next];
      Associative(Plan(c, s.phase), PhasePlan(c, s.phase, c.hosts[..s.next]),
                  [Dispatch(s.phase, c.hosts[s.next], FaultFor(c, c.hosts[s.next], s.phase))]);
    case PhaseDone =>
      assert c.hosts[..|c.hosts|] == c.hosts;
      assert Plan(c, s.phase + 1) + [] == Plan(c, s.phase + 1);
    case _ =>
  }

  lemma {:induction false} ReachesInv(c: Config, start: PhaseTable, events: seq<Event>, s: JobState)
    requires Reaches(c, start, events, s)
    ensures Inv(c, s)
  {
    if events == [] {
      assert Plan(c, 0) + PhasePlan(c, 0, c.hosts[..0]) == [];
    } else {
      var n := |events| - 1;
      var r :| Reaches(c, start, events[..n], r) && Enabled(c, r, events[n]) && s == Step(c, r, events[n]);
      ReachesInv(c, start, events[..n], r);
      StepKeeps(c, r, events[n]);
    }
  }

  // ---------- what every run guarantees

  lemma {:induction false} PhasePlanMembers(c: Config, phase: nat, hosts: seq<string>)
    ensures forall d <- PhasePlan(c, phase, hosts) ::
              d.phase == phase && d.host in hosts && d.fault == FaultFor(c, d.host, phase)
  {
    if hosts != [] {
      PhasePlanMembers(c, phase, hosts[..|hosts| - 1]);
    }
  }

  lemma {:induction false} PlanMembers(c: Config, phases: nat)
    ensures forall d <- Plan(c, phases) ::
              d.phase < phases && d.host in c.hosts && d.fault == FaultFor(c, d.host, d.phase)
  {
    if phases > 0 {
      PlanMembers(c, phases - 1);
      PhasePlanMembers(c, phases - 1, c.hosts);
    }
  }

  /** In every interleaving with reports that arrive early, late or twice: a phase is dispatched only when every
      earlier phase has been reported by at least as many distinct nodes as there are hosts. */
  lemma PhaseBarrier(c: Config, start: PhaseTable, events: seq<Event>, s: JobState, d: Dispatch, k: nat)
    requires Reaches(c, start, events, s) && d in s.sent && k < d.phase
    ensures |Reporters(s.reports, c.job, k)| >= |c.hosts|
  {
    ReachesInv(c, start, events, s);
    PlanMembers(c, s.phase);
    PhasePlanMembers(c, s.phase, c.hosts[..s.next]);
    assert AllReported(c, s.reports, k);
  }

  /** "completed" means that every phase was dispatched to every host, in order, and reported by enough nodes. */
  lemma CompletedMeansReported(c: Config, start: PhaseTable, events: seq<Event>, s: JobState)
    requires Reaches(c, start, events, s) && s.status == Completed
    ensures forall k: nat :: k < c.phaseCount ==> |Reporters(s.reports, c.job, k)| >= |c.hosts|
    ensures s.sent == Plan(c, c.phaseCount)
  {
    ReachesInv(c, start, events, s);
    assert Plan(c, c.phaseCount) + [] == Plan(c, c.phaseCount);
    forall k: nat | k < c.phaseCount
      ensures |Reporters(s.reports, c.job, k)| >= |c.hosts|
    {
      assert AllReported(c, s.reports, k);
    }
  }

  ghost function HostSet(c: Config): set<string> {
    set h | h in c.hosts
  }

  ghost predicate DistinctHosts(hosts: seq<string>) {
    forall i, j :: 0 <= i < j < |hosts| ==> hosts[i] != hosts[j]
  }

  lemma {:induction false} HostCount(hosts: seq<string>)
    ensures |set h | h in hosts| <= |hosts|
    ensures |set h | h in hosts| == |hosts| ==> DistinctHosts(hosts)
  {
    if hosts != [] {
      var n := |hosts| - 1;
      HostCount(hosts[..n]);
      var earlier, all := set h | h in hosts[..n], set h | h in hosts;
      assert hosts == hosts[..n] + [hosts[n]];
      assert all == earlier + {hosts[n]};
      if hosts[n] in earlier {
        assert all == earlier;
      }
    }
  }

  /** Who reported a phase of a completed job: exactly the hosts, each listed once, if and only if no node outside
      the list reported it. */
  lemma ReportersAreHostsExactly(c: Config, start: PhaseTable, events: seq<Event>, s: JobState, k: nat)
    requires Reaches(c, start, events, s) && s.status == Completed && k < c.phaseCount
    ensures Reporters(s.reports, c.job, k) <= HostSet(c) <==>
            Reporters(s.reports, c.job, k) == HostSet(c) && DistinctHosts(c.hosts)
  {
    hide Reaches, DistinctHosts, Reporters, Plan;
    CompletedMeansReported(c, start, events, s);
    var reporters, hosts := Reporters(s.reports, c.job, k), HostSet(c);
    HostCount(c.hosts);
    if reporters <= hosts {
      SubsetSize(reporters, hosts);
      EqualSizeSubset(reporters, hosts);
    }
  }

  /** Reports are counted, not matched with the hosts: here the only host never reports, and the job completes on
      the report of another node. */
  lemma OutsiderCompletes(c: Config, r: PhaseReport) returns (events: seq<Event>, s: JobState)
    requires c.hosts == ["host"] && c.phaseCount == 1 && r.key == PhaseKey(c.job, "outsider", 0)
    ensures Reaches(c, map[], events, s) && s.status == Completed && "host" !in Reporters(s.reports, c.job, 0)
  {
    hide Reaches;
    var reports := map[r.key := r.cells];
    OutsiderReports(c, r);
    var sent := [Dispatch(0, "host", FaultFor(c, "host", 0))];
    var arrived := Begun(map[]).(reports := reports);
    var dispatched := arrived.(next := 1, sent := sent);
    var waiting := dispatched.(stage := Waiting);
    var done := JobState(1, Dispatching, 0, reports, Running, sent);
    s := done.(stage := Ended, status := Completed);
    ReachesNothing(c, map[]);
    events := ReachesNext(c, [], Begun(map[]), Arrive(r), arrived);
    events := ReachesNext(c, events, arrived, DispatchNext, dispatched);
    events := ReachesNext(c, events, dispatched, Gathered, waiting);
    events := ReachesNext(c, events, waiting, PhaseDone, done);
    events := ReachesNext(c, events, done, Complete, s);
  }

  lemma OutsiderReports(c: Config, r: PhaseReport)
    requires c.hosts == ["host"] && r.key == PhaseKey(c.job, "outsider", 0)
    ensures InsertReport(map[], r) == map[r.key := r.cells]
    ensures Reporters(map[r.key := r.cells], c.job, 0) == {"outsider"}
    ensures AllReported(c, map[r.key := r.cells], 0) && "host" != "outsider"
  {
    assert r.key in ReportRows(map[r.key := r.cells], c.job, 0);
    assert "host"[0] != "outsider"[0];
  }

  lemma ReachesNothing(c: Config, start: PhaseTable)
    ensures Reaches(c, start, [], Begun(start))
  {
  }

  lemma ReachesNext(c: Config, events: seq<Event>, s: JobState, e: Event, t: JobState) returns (more: seq<Event>)
    requires Reaches(c, map[], events, s) && Enabled(c, s, e) && t == Step(c, s, e)
    ensures Reaches(c, map[], more, t)
  {
    ReachesOneMore(c, map[], events, s, e);
    more := events + [e];
  }

  /** The status leaves "running" at most once and never changes after that. */
  lemma StatusIsFinal(c: Config, start: PhaseTable, events: seq<Event>, s: JobState, e: Event)
    requires Reaches(c, start, events, s) && Enabled(c, s, e) && s.status != Running
    ensures Step(c, s, e).status == s.status && Step(c, s, e).sent == s.sent
  {
    ReachesInv(c, start, events, s);
  }

  /** A fault is dispatched to the target host in the chosen phase, and nowhere else. */
  lemma FaultGoesToTarget(c: Config, start: PhaseTable, events: seq<Event>, s: JobState, d: Dispatch)
    requires Reaches(c, start, events, s) && d in s.sent
    ensures d.fault.Some? <==>
            c.manifest.Some? && d.host == c.manifest.value.targetHost && d.phase == c.manifest.value.phaseIndex
    ensures d.fault.Some? ==>
              var m := c.manifest.value;
              d.fault == Some(Fault(m.faultType, if m.intensity.Some? then m.intensity.value else 2))
  {
    ReachesInv(c, start, events, s);
    PlanMembers(c, s.phase);
    PhasePlanMembers(c, s.phase, c.hosts[..s.next]);
  }

  // ---------- the code

  /** What the outside does: the reports that arrive at each await, and how many polls a phase gets before its
      deadline. */
  datatype Environment = Environment(arrivals: nat -> seq<PhaseReport>, polls: nat -> nat)

  /** The phase events stored after the first `n` awaits. */
  function StoredBy(env: Environment, start: PhaseTable, n: nat): PhaseTable {
    if n == 0 then start else InsertReports(StoredBy(env, start, n - 1), env.arrivals(n - 1))
  }

  /** After `n` awaits, enough nodes have reported the phase. */
  ghost predicate EnoughBy(c: Config, env: Environment, start: PhaseTable, phase: nat, n: nat) {
    |Reporters(StoredBy(env, start, n), c.job, phase)| >= |c.hosts|
  }

  /** When a wait that starts after `n` awaits ends, with `left` polls before the deadline: as soon as enough nodes
      have reported. */
  ghost function WaitEnd(c: Config, env: Environment, start: PhaseTable, phase: nat, n: nat, left: nat): (end: nat)
    ensures n <= end <= n + left
    ensures forall m: nat :: n <= m < end ==> !EnoughBy(c, env, start, phase, m)
    ensures end < n + left ==> EnoughBy(c, env, start, phase, end)
    decreases left
  {
    if left == 0 || EnoughBy(c, env, start, phase, n) then n
    else WaitEnd(c, env, start, phase, n + 1, left - 1)
  }

  /** When a phase's wait begins: each dispatch of the phase is one await. */
  ghost function PhaseBegin(c: Config, env: Environment, start: PhaseTable, phase: nat): nat
    decreases phase, 0
  {
    (if phase == 0 then 0 else PhaseEnd(c, env, start, phase - 1)) + |c.hosts|
  }

  ghost function PhaseEnd(c: Config, env: Environment, start: PhaseTable, phase: nat): nat
    decreases phase, 1
  {
    WaitEnd(c, env, start, phase, PhaseBegin(c, env, start, phase), env.polls(phase))
  }

  /** The phase is reported by enough nodes at some moment from the end of its dispatch to its deadline. */
  ghost predicate InTime(c: Config, env: Environment, start: PhaseTable, phase: nat) {
    var begin := PhaseBegin(c, env, start, phase);
    exists m: nat :: begin <= m <= begin + env.polls(phase) && EnoughBy(c, env, start, phase, m)
  }

  lemma {:induction false} StoredGrows(c: Config, env: Environment, start: PhaseTable, phase: nat, n: nat, m: nat)
    requires n <= m && EnoughBy(c, env, start, phase, n)
    ensures EnoughBy(c, env, start, phase, m)
    decreases m
  {
    if n < m {
      StoredGrows(c, env, start, phase, n, m - 1);
      var earlier := StoredBy(env, start, m - 1);
      ReportersGrow(earlier, env.arrivals(m - 1), c.job, phase);
      SubsetSize(Reporters(earlier, c.job, phase), Reporters(StoredBy(env, start, m), c.job, phase));
    }
  }

  /** A phase is in time exactly when the reports are there at the end of its wait, and exactly when they are
      there at the deadline, however long was waited. */
  lemma InTimeExactly(c: Config, env: Environment, start: PhaseTable, phase: nat)
    ensures InTime(c, env, start, phase) <==> EnoughBy(c, env, start, phase, PhaseEnd(c, env, start, phase))
    ensures InTime(c, env, start, phase) <==>
            EnoughBy(c, env, start, phase, PhaseBegin(c, env, start, phase) + env.polls(phase))
  {
    var begin, end := PhaseBegin(c, env, start, phase), PhaseEnd(c, env, start, phase);
    hide EnoughBy;
    if m: nat :| begin <= m <= begin + env.polls(phase) && EnoughBy(c, env, start, phase, m) {
      StoredGrows(c, env, start, phase, m, begin + env.polls(phase));
    }
  }

  class Orchestrator {
    const store: TsdbStore
    const config: Config
    const env: Environment
    var phase: nat
    var stage: Stage
    var next: nat
    var status: JobStatus
    var dispatches: seq<Dispatch>
    var awaits: nat

    ghost const start: PhaseTable
    ghost var events: seq<Event>

    ghost function State(): JobState
      reads this, store
    {
      JobState(phase, stage, next, store.phaseEvents, status, dispatches)
    }

    ghost predicate Valid()
      reads this, store
    {
      Reaches(config, start, events, State()) && store.phaseEvents == StoredBy(env, start, awaits)
    }

    constructor (store: TsdbStore, config: Config, env: Environment)
      ensures Valid() && State() == Begun(store.phaseEvents) && awaits == 0
      ensures this.store == store && this.config == config && this.env == env && start == store.phaseEvents
    {
      this.store, this.config, this.env := store, config, env;
      start := store.phaseEvents;
      phase, stage, next, status, dispatches, awaits, events := 0, Dispatching, 0, Running, [], 0, [];
    }

    /** Lets the event loop run: the reports that have arrived are stored. */
    method Await()
      requires Valid()
      modifies this`awaits, this`events, store`phaseEvents
      ensures Valid() && awaits == old(awaits) + 1
      ensures store.phaseEvents == InsertReports(old(store.phaseEvents), env.arrivals(old(awaits)))
    {
      hide Reaches;
      var reports := env.arrivals(awaits);
      for i := 0 to |reports|
        invariant Reaches(config, start, events, State()) && awaits == old(awaits)
        invariant store.phaseEvents == InsertReports(old(store.phaseEvents), reports[..i])
      {
        assert reports[..i + 1][..i] == reports[..i];
        ReachesOneMore(config, start, events, State(), Arrive(reports[i]));
        store.InsertPhaseEvent(reports[i]);
        events := events + [Arrive(reports[i])];
      }
      assert reports[..|reports|] == reports;
      awaits := awaits + 1;
    }

    /** Dispatches the phase to every host, with an await each. */
    method DispatchPhase()
      requires Valid() && stage == Dispatching && next == 0 && phase < config.phaseCount
      modifies this`stage, this`next, this`dispatches, this`awaits, this`events, store`phaseEvents
      ensures Valid() && stage == Waiting && awaits == old(awaits) + |config.hosts|
      ensures dispatches == old(dispatches) + PhasePlan(config, phase, config.hosts)
    {
      hide Reaches, StoredBy, FaultFor;
      assert old(dispatches) + [] == old(dispatches);
      while next < |config.hosts|
        invariant Valid() && stage == Dispatching && next <= |config.hosts| && awaits == old(awaits) + next
        invariant dispatches == old(dispatches) + PhasePlan(config, phase, config.hosts[..next])
      {
        ReachesOneMore(config, start, events, State(), DispatchNext);
        var host := config.hosts[next];
        assert config.hosts[..next + 1][..next] == config.hosts[..next];
        Associative(old(dispatches), PhasePlan(config, phase, config.hosts[..next]),
                    [Dispatch(phase, host, FaultFor(config, host, phase))]);
        dispatches := dispatches + [Dispatch(phase, host, FaultFor(config, host, phase))];
        next := next + 1;
        events := events + [DispatchNext];
        Await();
      }
      assert config.hosts[..|config.hosts|] == config.hosts;
      ReachesOneMore(config, start, events, State(), Gathered);
      stage := Waiting;
      events := events + [Gathered];
    }

    /** Polls until enough nodes have reported or the deadline has passed. */
    method WaitForPhaseReports() returns (allReported: bool)
      requires Valid() && stage == Waiting
      modifies this`awaits, this`events, store`phaseEvents
      ensures Valid() && awaits == WaitEnd(config, env, start, phase, old(awaits), env.polls(phase))
      ensures allReported <==> |Reporters(store.phaseEvents, config.job, phase)| >= |config.hosts|
      ensures allReported <==>
              exists m: nat :: old(awaits) <= m <= old(awaits) + env.polls(phase) &&
                               EnoughBy(config, env, start, phase, m)
    {
      hide Reaches, StoredBy;
      var left: nat := env.polls(phase);
      while left > 0
        invariant Valid() && left <= env.polls(phase) && awaits == old(awaits) + env.polls(phase) - left
        invariant WaitEnd(config, env, start, phase, awaits, left)
                  == WaitEnd(config, env, start, phase, old(awaits), env.polls(phase))
        invariant forall m: nat :: old(awaits) <= m < awaits ==> !EnoughBy(config, env, start, phase, m)
      {
        var count := store.CountPhaseReports(config.job, phase);
        if count >= |config.hosts| {
          assert EnoughBy(config, env, start, phase, awaits);
          return true;
        }
        ReachesOneMore(config, start, events, State(), PollAgain);
        events := events + [PollAgain];
        Await();
        left := left - 1;
      }
      var count := store.CountPhaseReports(config.job, phase);
      allReported := count >= |config.hosts|;
      assert allReported <==> EnoughBy(config, env, start, phase, awaits);
    }

    /** One phase, from its dispatch to the end of its wait. */
    method RunPhase() returns (inTime: bool)
      requires Valid() && stage == Dispatching && next == 0 && phase < config.phaseCount
      requires awaits == if phase == 0 then 0 else PhaseEnd(config, env, start, phase - 1)
      modifies this`stage, this`next, this`dispatches, this`awaits, this`events, store`phaseEvents
      ensures Valid() && stage == Waiting && awaits == PhaseEnd(config, env, start, phase)
      ensures inTime <==> InTime(config, env, start, phase)
      ensures inTime <==> |Reporters(store.phaseEvents, config.job, phase)| >= |config.hosts|
      ensures dispatches == old(dispatches) + PhasePlan(config, phase, config.hosts)
    {
      hide Reaches, StoredBy, EnoughBy, WaitEnd, FaultFor, PhasePlan;
      DispatchPhase();
      inTime := WaitForPhaseReports();
    }

    /** The job's last step, and the one write of its status. */
    method EndJob(last: Event)
      requires Valid() && Enabled(config, State(), last) && (last.TimeOut? || last.Complete?)
      modifies this`stage, this`status, this`events, store`jobs
      ensures Valid() && stage == Ended && status == (if last.Complete? then Completed else TimedOut)
      ensures store.jobs == if config.job in old(store.jobs)
                            then old(store.jobs)[config.job := old(store.jobs)[config.job].(status := status)]
                            else old(store.jobs)
    {
      hide Reaches, StoredBy;
      ReachesOneMore(config, start, events, State(), last);
      stage, status := Ended, if last.Complete? then Completed else TimedOut;
      events := events + [last];
      store.SetJobStatus(config.job, status);
    }

    /** Every phase in turn, up to the first that is not in time. */
    method RunPhases() returns (allInTime: bool)
      requires Valid() && State() == Begun(start) && awaits == 0
      modifies this`phase, this`stage, this`next, this`dispatches, this`awaits, this`events, store`phaseEvents
      ensures Valid() && phase <= config.phaseCount && forall k: nat :: k < phase ==> InTime(config, env, start, k)
      ensures allInTime ==>
                stage == Dispatching && phase == config.phaseCount && dispatches == Plan(config, config.phaseCount)
      ensures !allInTime ==>
                && stage == Waiting && phase < config.phaseCount && !InTime(config, env, start, phase)
                && |Reporters(store.phaseEvents, config.job, phase)| < |config.hosts|
                && dispatches == Plan(config, phase + 1)
    {
      hide Reaches, PhasePlan, FaultFor, StoredBy, InTime, PhaseEnd;
      while phase < config.phaseCount
        invariant Valid() && stage == Dispatching && next == 0 && phase <= config.phaseCount && status == Running
        invariant dispatches == Plan(config, phase)
        invariant awaits == (if phase == 0 then 0 else PhaseEnd(config, env, start, phase - 1))
        invariant forall k: nat :: k < phase ==> InTime(config, env, start, k)
        decreases config.phaseCount - phase
      {
        var inTime := RunPhase();
        if !inTime {
          return false;
        }
        ReachesOneMore(config, start, events, State(), PhaseDone);
        phase, stage, next := phase + 1, Dispatching, 0;
        events := events + [PhaseDone];
      }
      return true;
    }

    /** Runs every phase to completion or timeout, and then writes the job's status once. The job completes
        exactly when every phase is in time; otherwise it times out in the first that is not. */
    method ExecuteJob()
      requires Valid() && State() == Begun(store.phaseEvents) && awaits == 0
      modifies this, store`phaseEvents, store`jobs
      ensures Valid() && stage == Ended && status in {Completed, TimedOut}
      ensures status == Completed <==>
              forall k: nat :: k < config.phaseCount ==> InTime(config, env, old(store.phaseEvents), k)
      ensures status == TimedOut ==>
                && phase < config.phaseCount && !InTime(config, env, old(store.phaseEvents), phase)
                && forall k: nat :: k < phase ==> InTime(config, env, old(store.phaseEvents), k)
      ensures status == Completed ==>
                forall k: nat :: k < config.phaseCount ==>
                  |Reporters(store.phaseEvents, config.job, k)| >= |config.hosts|
      ensures dispatches == Plan(config, if status == Completed then config.phaseCount else phase + 1)
      ensures store.jobs == if config.job in old(store.jobs)
                            then old(store.jobs)[config.job := old(store.jobs)[config.job].(status := status)]
                            else old(store.jobs)
    {
      StoredAtFirst(env, start);
      hide Reaches, Plan, StoredBy, InTime;
      var allInTime := RunPhases();
      if allInTime {
        EndJob(Complete);
        CompletedMeansReported(config, start, events, State());
      } else {
        EndJob(TimeOut);
      }
    }
  }

  lemma StoredAtFirst(env: Environment, start: PhaseTable)
    ensures StoredBy(env, start, 0) == start
  {
  }

  /** A job from its creation to its end, for an identifier that is not in use. Its row keeps the definition it
      was created with and ends completed exactly when every phase is in time, and timed out otherwise; no other
      job is touched. */
  method RunJob(store: TsdbStore, config: Config, env: Environment, createdTs: int) returns (created: bool)
    modifies store`phaseEvents, store`jobs
    ensures created <==> config.job !in old(store.jobs)
    ensures !created ==> store.jobs == old(store.jobs)
    ensures created ==>
              var inTime := forall k: nat :: k < config.phaseCount ==> InTime(config, env, old(store.phaseEvents), k);
              store.jobs == old(store.jobs)[config.job := Job(
                config.phaseCount, config.hosts, config.manifest, if inTime then Completed else TimedOut, createdTs)]
    ensures created && store.jobs[config.job].status == Completed ==>
              forall k: nat :: k < config.phaseCount ==>
                |Reporters(store.phaseEvents, config.job, k)| >= |config.hosts|
  {
    created := store.CreateJob(config.job, Job(config.phaseCount, config.hosts, config.manifest, Running, createdTs));
    if created {
      var orchestrator := new Orchestrator(store, config, env);
      orchestrator.ExecuteJob();
    }
  }
}
