/** The embedded store: tables keyed by their declared primary keys. */
module Store {
  import opened Common
  import opened Samples
  import opened Rollups

  datatype PhaseKey = PhaseKey(job: string, node: string, phase: nat)
  datatype PhaseCells = PhaseCells(startTs: int, startMono: int, endTs: int, endMono: int, status: string)
  datatype PhaseReport = PhaseReport(key: PhaseKey, cells: PhaseCells)
  type PhaseTable = map<PhaseKey, PhaseCells>

  datatype FaultManifest = FaultManifest(targetHost: string, phaseIndex: nat, faultType: string, intensity: Option<nat>)

  datatype JobStatus = Running | TimedOut | Completed
  datatype Job = Job(
    phaseCount: int, hosts: seq<string>, manifest: Option<FaultManifest>, status: JobStatus, createdTs: int)
  type JobTable = map<string, Job>

  /** INSERT OR IGNORE of one phase event. */
  function InsertReport(t: PhaseTable, r: PhaseReport): PhaseTable {
    if r.key in t then t else t[r.key := r.cells]
  }

  function InsertReports(t: PhaseTable, rs: seq<PhaseReport>): PhaseTable {
    if rs == [] then t
    else InsertReport(InsertReports(t, rs[..|rs| - 1]), rs[|rs| - 1])
  }

  ghost predicate HasReport(rs: seq<PhaseReport>, k: PhaseKey) {
    exists i :: 0 <= i < |rs| && rs[i].key == k
  }

  /** `i` is the first report with key `k`. */
  ghost predicate FirstReport(rs: seq<PhaseReport>, i: nat, k: PhaseKey) {
    i < |rs| && rs[i].key == k && forall j :: 0 <= j < i ==> rs[j].key != k
  }

  /** The table after reports: the old ones unaltered, and for each new key the first report that carried it. */
  lemma {:induction false} InsertReportsExactly(t: PhaseTable, rs: seq<PhaseReport>)
    ensures forall k :: k in InsertReports(t, rs) <==> k in t || HasReport(rs, k)
    ensures forall k <- t :: k in InsertReports(t, rs) && InsertReports(t, rs)[k] == t[k]
    ensures forall i: nat, k :: FirstReport(rs, i, k) && k !in t ==>
              k in InsertReports(t, rs) && InsertReports(t, rs)[k] == rs[i].cells
  {
    if rs != [] {
      var n := |rs| - 1;
      var before := rs[..n];
      InsertReportsExactly(t, before);
      forall k
        ensures HasReport(rs, k) <==> HasReport(before, k) || k == rs[n].key
      {
        if HasReport(before, k) {
          var i :| 0 <= i < n && before[i].key == k;
          assert rs[i].key == k;
        }
      }
      forall i: nat, k | FirstReport(rs, i, k) && k !in t
        ensures k in InsertReports(t, rs) && InsertReports(t, rs)[k] == rs[i].cells
      {
        if i < n {
          assert FirstReport(before, i, k);
          assert HasReport(before, k);
        } else {
          assert !HasReport(before, k);
        }
      }
    }
  }

  function ReportRows(t: PhaseTable, job: string, phase: nat): set<PhaseKey> {
    set k | k in t && k.job == job && k.phase == phase
  }

  /** The distinct nodes that reported a phase of a job. */
  ghost function Reporters(t: PhaseTable, job: string, phase: nat): (nodes: set<string>)
    ensures forall node :: node in nodes <==> PhaseKey(job, node, phase) in t
  {
    var nodes := set k | k in ReportRows(t, job, phase) :: k.node;
    assert forall node :: PhaseKey(job, node, phase) in t ==> PhaseKey(job, node, phase).node in nodes;
    nodes
  }

  /** Counting rows counts distinct nodes, because a node can report a phase only once. */
  lemma {:induction false} RowsAreReporters(rows: set<PhaseKey>, job: string, phase: nat)
    requires forall k <- rows :: k.job == job && k.phase == phase
    ensures |rows| == |set k | k in rows :: k.node|
    decreases rows
  {
    var nodes := set k | k in rows :: k.node;
    if rows != {} {
      var k := Pick(rows);
      RowsAreReporters(rows - {k}, job, phase);
      assert (set r | r in rows - {k} :: r.node) == nodes - {k.node};
    }
  }

  lemma {:induction false} ReportersGrow(t: PhaseTable, rs: seq<PhaseReport>, job: string, phase: nat)
    ensures Reporters(t, job, phase) <= Reporters(InsertReports(t, rs), job, phase)
  {
    if rs != [] {
      var before := InsertReports(t, rs[..|rs| - 1]);
      ReportersGrow(t, rs[..|rs| - 1], job, phase);
      assert ReportRows(before, job, phase) <= ReportRows(InsertReports(t, rs), job, phase);
    }
  }

  class TsdbStore {
    var samples: SampleTable
    var rollup1m: RollupTable
    var rollup1h: RollupTable
    var phaseEvents: PhaseTable
    var jobs: JobTable

    constructor ()
      ensures samples == map[] && rollup1m == map[] && rollup1h == map[] && phaseEvents == map[] && jobs == map[]
    {
      samples, rollup1m, rollup1h, phaseEvents, jobs := map[], map[], map[], map[], map[];
    }

    /** Returns the number of rows the table grew by. */
    method InsertSamples(rows: seq<SampleRow>) returns (inserted: nat)
      modifies this`samples
      ensures samples == InsertRows(old(samples), rows)
      ensures inserted == |samples| - |old(samples)|
    {
      inserted := 0;
      for i := 0 to |rows|
        invariant samples == InsertRows(old(samples), rows[..i])
        invariant inserted == |samples| - |old(samples)|
      {
        assert rows[..i + 1][..i] == rows[..i];
        if rows[i].key !in samples {
          samples := samples[rows[i].key := rows[i].cells];
          inserted := inserted + 1;
        }
      }
      assert rows[..|rows|] == rows;
    }

    /** Rebuilds both rollups of one series from the raw rows, leaving every other series alone. */
    method RecomputeRollups(node: string, metric: nat)
      modifies this`rollup1m, this`rollup1h
      ensures IsRollup(GroupsOf(rollup1m, node, metric), PointsOf(samples, node, metric), MinuteOf)
      ensures IsRollup(GroupsOf(rollup1h, node, metric), PointsOf(samples, node, metric), HourOf)
      ensures OthersKept(old(rollup1m), rollup1m, node, metric)
      ensures OthersKept(old(rollup1h), rollup1h, node, metric)
    {
      var points := PointsOf(samples, node, metric);
      rollup1m := RebuildSeries(rollup1m, node, metric, points, MinuteOf);
      rollup1h := RebuildSeries(rollup1h, node, metric, points, HourOf);
    }

    method CreateJob(id: string, job: Job) returns (created: bool)
      modifies this`jobs
      ensures created <==> id !in old(jobs)
      ensures jobs == if created then old(jobs)[id := job.(status := Running)] else old(jobs)
    {
      created := id !in jobs;
      if created {
        jobs := jobs[id := job.(status := Running)];
      }
    }

    method SetJobStatus(id: string, status: JobStatus)
      modifies this`jobs
      ensures jobs == if id in old(jobs) then old(jobs)[id := old(jobs)[id].(status := status)] else old(jobs)
    {
      if id in jobs {
        jobs := jobs[id := jobs[id].(status := status)];
      }
    }

    method InsertPhaseEvent(r: PhaseReport)
      modifies this`phaseEvents
      ensures phaseEvents == InsertReport(old(phaseEvents), r)
    {
      if r.key !in phaseEvents {
        phaseEvents := phaseEvents[r.key := r.cells];
      }
    }

    method CountPhaseReports(job: string, phase: nat) returns (count: nat)
      ensures count == |Reporters(phaseEvents, job, phase)|
    {
      count := |ReportRows(phaseEvents, job, phase)|;
      RowsAreReporters(ReportRows(phaseEvents, job, phase), job, phase);
    }
  }
}
