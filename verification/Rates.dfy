/** Deriving rates from counters that only ever grow: the sampler keeps the previous readings. */
module Rates {
  import opened Common

  const U64 := 0x1_0000_0000_0000_0000
  const SECTOR_BYTES := 512.0

  const CPU_PCT := 1
  const IOWAIT_PCT := 5
  const DISK_READ_BYTES_S := 6
  const DISK_WRITE_BYTES_S := 7
  const NET_RX_BYTES_S := 8
  const NET_TX_BYTES_S := 9

  /** An unsigned 64-bit counter. */
  type Counter = x: int | 0 <= x < U64

  datatype CpuTicks = CpuTicks(user: Counter, nice: Counter, system: Counter, idle: Counter,
                               iowait: Counter, irq: Counter, softirq: Counter, steal: Counter)
  datatype DiskCounters = DiskCounters(sectorsRead: Counter, sectorsWritten: Counter)
  datatype NetCounters = NetCounters(rxBytes: Counter, txBytes: Counter)
  datatype MetricReading = MetricReading(metric: nat, value: real)

  /** What one call finds: the clock, the counters that could be read, and the metrics that need no rate. */
  datatype Probe = Probe(now: int, cpu: Option<CpuTicks>, disk: Option<DiskCounters>, net: Option<NetCounters>,
                         gauges: seq<MetricReading>)

  /** The sampler's memory. */
  datatype Prior = Prior(known: bool, cpu: CpuTicks, disk: DiskCounters, net: NetCounters, mono: int)

  const NO_PRIOR := Prior(false, CpuTicks(0, 0, 0, 0, 0, 0, 0, 0), DiskCounters(0, 0), NetCounters(0, 0), 0)

  function SumOf(t: CpuTicks): nat {
    t.user + t.nice + t.system + t.idle + t.iowait + t.irq + t.softirq + t.steal
  }

  /** Unsigned addition wraps. */
  function Total(t: CpuTicks): Counter {
    SumOf(t) % U64
  }

  /** Unsigned subtraction wraps. */
  function Active(t: CpuTicks): Counter {
    (Total(t) - t.idle - t.iowait) % U64
  }

  function Elapsed(p: Prior, now: int): real {
    (now - p.mono) as real / 1_000_000_000.0
  }

  function CpuReadings(p: Prior, cpu: Option<CpuTicks>): seq<MetricReading> {
    if cpu.None? || Total(cpu.value) <= Total(p.cpu) then []
    else
      var deltaTotal := (Total(cpu.value) - Total(p.cpu)) as real;
      var deltaActive := Active(cpu.value) as real - Active(p.cpu) as real;
      var deltaIowait := cpu.value.iowait as real - p.cpu.iowait as real;
      [MetricReading(CPU_PCT, 100.0 * deltaActive / deltaTotal),
       MetricReading(IOWAIT_PCT, 100.0 * deltaIowait / deltaTotal)]
  }

  /** Neither counter of the pair is below its last reading. */
  predicate DiskGrew(a: DiskCounters, b: DiskCounters) {
    b.sectorsRead >= a.sectorsRead && b.sectorsWritten >= a.sectorsWritten
  }

  predicate NetGrew(a: NetCounters, b: NetCounters) {
    b.rxBytes >= a.rxBytes && b.txBytes >= a.txBytes
  }

  function DiskReadings(p: Prior, disk: Option<DiskCounters>, elapsed: real): seq<MetricReading>
    requires elapsed > 0.0
  {
    if disk.None? || !DiskGrew(p.disk, disk.value) then []
    else
      var read := disk.value.sectorsRead - p.disk.sectorsRead;
      var written := disk.value.sectorsWritten - p.disk.sectorsWritten;
      [MetricReading(DISK_READ_BYTES_S, read as real * SECTOR_BYTES / elapsed),
       MetricReading(DISK_WRITE_BYTES_S, written as real * SECTOR_BYTES / elapsed)]
  }

  function NetReadings(p: Prior, net: Option<NetCounters>, elapsed: real): seq<MetricReading>
    requires elapsed > 0.0
  {
    if net.None? || !NetGrew(p.net, net.value) then []
    else
      [MetricReading(NET_RX_BYTES_S, (net.value.rxBytes - p.net.rxBytes) as real / elapsed),
       MetricReading(NET_TX_BYTES_S, (net.value.txBytes - p.net.txBytes) as real / elapsed)]
  }

  function RateReadings(p: Prior, x: Probe): seq<MetricReading> {
    if p.known && Elapsed(p, x.now) > 0.0
    then CpuReadings(p, x.cpu) + DiskReadings(p, x.disk, Elapsed(p, x.now)) + NetReadings(p, x.net, Elapsed(p, x.now))
    else []
  }

  /** A failed read keeps the older counters, but the clock always advances. */
  function Remember(p: Prior, x: Probe): Prior {
    Prior(true,
          if x.cpu.Some? then x.cpu.value else p.cpu,
          if x.disk.Some? then x.disk.value else p.disk,
          if x.net.Some? then x.net.value else p.net,
          x.now)
  }

  class ProcReader {
    var hasPriorSample: bool
    var priorCpuTicks: CpuTicks
    var priorDisk: DiskCounters
    var priorNet: NetCounters
    var priorMono: int

    constructor ()
      ensures State() == NO_PRIOR
      ensures State() == Prior(false, CpuTicks(0, 0, 0, 0, 0, 0, 0, 0), DiskCounters(0, 0), NetCounters(0, 0), 0)
    {
      hasPriorSample := false;
      priorCpuTicks, priorDisk, priorNet := NO_PRIOR.cpu, NO_PRIOR.disk, NO_PRIOR.net;
      priorMono := 0;
    }

    function State(): Prior
      reads this
    {
      Prior(hasPriorSample, priorCpuTicks, priorDisk, priorNet, priorMono)
    }

    method Sample(x: Probe) returns (readings: seq<MetricReading>)
      modifies this
      ensures State() == Remember(old(State()), x)
      ensures readings == RateReadings(old(State()), x) + x.gauges
    {
      readings := [];
      if hasPriorSample {
        var elapsed := Elapsed(State(), x.now);
        if elapsed > 0.0 {
          readings := readings + CpuReadings(State(), x.cpu);
          readings := readings + DiskReadings(State(), x.disk, elapsed);
          readings := readings + NetReadings(State(), x.net, elapsed);
        }
      }
      if x.cpu.Some? {
        priorCpuTicks := x.cpu.value;
      }
      if x.disk.Some? {
        priorDisk := x.disk.value;
      }
      if x.net.Some? {
        priorNet := x.net.value;
      }
      priorMono := x.now;
      hasPriorSample := true;
      readings := readings + x.gauges;
    }
  }

  // ---------- percentages

  predicate TicksGrow(a: CpuTicks, b: CpuTicks) {
    && a.user <= b.user && a.nice <= b.nice && a.system <= b.system && a.idle <= b.idle
    && a.iowait <= b.iowait && a.irq <= b.irq && a.softirq <= b.softirq && a.steal <= b.steal
  }

  /** The ticks spent on anything but idling and waiting. */
  function Busy(t: CpuTicks): nat {
    t.user + t.nice + t.system + t.irq + t.softirq + t.steal
  }

  /** How often the sum wraps when the idle ticks and the waiting ticks are added to the busy ones. */
  function Wraps(t: CpuTicks): nat {
    SumOf(t) / U64 - Busy(t) / U64
  }

  lemma PercentOrder(part: real, whole: real, bound: real)
    requires whole > 0.0
    ensures 100.0 * part / whole >= 0.0 <==> part >= 0.0
    ensures 100.0 * part / whole <= 100.0 * bound / whole <==> part <= bound
  {
    assert 100.0 * bound / whole - 100.0 * part / whole == 100.0 * (bound - part) / whole;
  }

  /** Exactly when the emitted percentages make sense, for any two readings: they are emitted iff the wrapped
      total grew; each is non-negative iff its own wrapped ticks did not go back; and they add up to at most 100
      iff the idle ticks grew by at least 2^64 for each further wrap among the idle and waiting ticks. */
  lemma PercentagesExactly(p: Prior, cpu: CpuTicks)
    ensures var r := CpuReadings(p, Some(cpu));
            && (r != [] <==> SumOf(cpu) % U64 > SumOf(p.cpu) % U64)
            && (r != [] ==>
                  && |r| == 2 && r[0].metric == CPU_PCT && r[1].metric == IOWAIT_PCT
                  && (r[0].value >= 0.0 <==> Busy(cpu) % U64 >= Busy(p.cpu) % U64)
                  && (r[1].value >= 0.0 <==> cpu.iowait >= p.cpu.iowait)
                  && (r[0].value + r[1].value <= 100.0 <==>
                        cpu.idle - p.cpu.idle >= U64 * (Wraps(cpu) - Wraps(p.cpu))))
  {
    ActiveIsBusy(cpu);
    ActiveIsBusy(p.cpu);
    hide SumOf, Busy, Active, Wraps;
    var whole := Total(cpu) as real - Total(p.cpu) as real;
    if whole > 0.0 {
      var active := Active(cpu) as real - Active(p.cpu) as real;
      var iowait := cpu.iowait as real - p.cpu.iowait as real;
      PercentOrder(active, whole, whole);
      PercentOrder(iowait, whole, whole);
      PercentOrder(active + iowait, whole, whole);
      PercentSum(active, iowait, whole);
    }
  }

  /** While no sum has wrapped, ticks that only grow give percentages between 0 and 100. */
  lemma GrowingTicksAreSound(p: Prior, cpu: CpuTicks)
    requires SumOf(cpu) < U64 && TicksGrow(p.cpu, cpu)
    ensures var r := CpuReadings(p, Some(cpu));
            r != [] ==> r[0].value >= 0.0 && r[1].value >= 0.0 && r[0].value + r[1].value <= 100.0
  {
    TicksOrder(p.cpu, cpu);
    NoWraps(cpu);
    NoWraps(p.cpu);
    hide SumOf, Busy, Wraps, CpuReadings;
    PercentagesExactly(p, cpu);
  }

  lemma TicksOrder(a: CpuTicks, b: CpuTicks)
    requires TicksGrow(a, b)
    ensures SumOf(a) <= SumOf(b) && Busy(a) <= Busy(b)
  {
  }

  lemma NoWraps(t: CpuTicks)
    requires SumOf(t) < U64
    ensures Wraps(t) == 0 && Busy(t) % U64 == Busy(t)
  {
    assert Busy(t) <= SumOf(t);
    hide SumOf, Busy;
  }

  /** Total ticks that grow while the idle ticks, or the waiting ticks, go back: more than 100 percent, and less
      than none. */
  lemma TotalGuardIsNotEnough()
    ensures var p := NO_PRIOR.(known := true, cpu := CpuTicks(0, 0, 0, 10, 10, 0, 0, 0));
            var idleBack, waitBack := CpuTicks(20, 0, 0, 5, 10, 0, 0, 0), CpuTicks(10, 0, 0, 10, 5, 0, 0, 0);
            var r, q := CpuReadings(p, Some(idleBack)), CpuReadings(p, Some(waitBack));
            && r != [] && r[0].value + r[1].value > 100.0
            && q != [] && q[1].value < 0.0
  {
    SmallTicks(CpuTicks(0, 0, 0, 10, 10, 0, 0, 0));
    SmallTicks(CpuTicks(20, 0, 0, 5, 10, 0, 0, 0));
    SmallTicks(CpuTicks(10, 0, 0, 10, 5, 0, 0, 0));
    hide Total, Active;
  }

  lemma SmallTicks(t: CpuTicks)
    requires SumOf(t) < U64
    ensures Total(t) == SumOf(t) && Active(t) == Busy(t)
  {
    ActiveIsBusy(t);
    NoWraps(t);
    hide Busy, Active, Wraps;
  }

  lemma PercentSum(a: real, b: real, whole: real)
    requires whole > 0.0
    ensures 100.0 * a / whole + 100.0 * b / whole == 100.0 * (a + b) / whole
    ensures 100.0 * whole / whole == 100.0
  {
  }

  lemma ActiveIsBusy(t: CpuTicks)
    ensures Active(t) == Busy(t) % U64
    ensures Active(t) + t.idle + t.iowait - Total(t) == U64 * Wraps(t)
  {
    var carry := SumOf(t) / U64;
    assert Total(t) - t.idle - t.iowait == Busy(t) - carry * U64;
    ModShift(Busy(t), carry);
  }

  lemma ModShift(a: nat, k: nat)
    ensures (a - k * U64) % U64 == a % U64
  {
  }

  // ---------- what is emitted, in nanoseconds, ticks, sectors and bytes

  lemma QuotientTimes(a: real, b: real)
    requires b > 0.0
    ensures a / b * b == a
  {
  }

  /** A rate over `ns` nanoseconds, times those nanoseconds, is the amount per 10^9 of them. */
  lemma RateInNanoseconds(amount: real, p: Prior, now: int)
    requires now > p.mono
    ensures Elapsed(p, now) > 0.0
    ensures amount / Elapsed(p, now) * (now - p.mono) as real == amount * 1_000_000_000.0
  {
    var e := Elapsed(p, now);
    QuotientTimes(amount, e);
    assert (now - p.mono) as real == e * 1_000_000_000.0;
    assert amount / e * (e * 1_000_000_000.0) == amount / e * e * 1_000_000_000.0;
  }

  lemma WrappedTicks(t: CpuTicks)
    ensures Total(t) == SumOf(t) % 0x1_0000_0000_0000_0000 && Active(t) == Busy(t) % 0x1_0000_0000_0000_0000
  {
    ActiveIsBusy(t);
  }

  lemma NoCpuReadings(p: Prior)
    ensures CpuReadings(p, None) == []
  {
  }

  lemma CpuShares(p: Prior, cpu: CpuTicks)
    ensures var r, total := CpuReadings(p, Some(cpu)), Total(cpu) - Total(p.cpu);
            && (r == [] || |r| == 2) && (r == [] <==> total <= 0)
            && (r != [] ==>
                  && r[0].metric == 1 && r[0].value * total as real == 100.0 * (Active(cpu) - Active(p.cpu)) as real
                  && r[1].metric == 5 && r[1].value * total as real == 100.0 * (cpu.iowait - p.cpu.iowait) as real)
  {
    hide Total, Active;
    var total := (Total(cpu) - Total(p.cpu)) as real;
    if total > 0.0 {
      QuotientTimes(100.0 * (Active(cpu) as real - Active(p.cpu) as real), total);
      QuotientTimes(100.0 * (cpu.iowait as real - p.cpu.iowait as real), total);
    }
  }

  /** Processor shares: present when the total has grown, in percent of its growth. */
  lemma CpuExactly(p: Prior, cpu: Option<CpuTicks>)
    ensures var r := CpuReadings(p, cpu);
            && (r == [] || |r| == 2)
            && (r == [] <==>
                  cpu.None? || SumOf(cpu.value) % 0x1_0000_0000_0000_0000 <= SumOf(p.cpu) % 0x1_0000_0000_0000_0000)
            && (r != [] ==>
                  var total := SumOf(cpu.value) % 0x1_0000_0000_0000_0000 - SumOf(p.cpu) % 0x1_0000_0000_0000_0000;
                  var busy := Busy(cpu.value) % 0x1_0000_0000_0000_0000 - Busy(p.cpu) % 0x1_0000_0000_0000_0000;
                  && r[0].metric == 1
                  && r[0].value * total as real == 100.0 * busy as real
                  && r[1].metric == 5
                  && r[1].value * total as real == 100.0 * (cpu.value.iowait - p.cpu.iowait) as real)
  {
    hide SumOf, Busy, Active, Wraps, Total, CpuReadings;
    if cpu.Some? {
      WrappedTicks(cpu.value);
      WrappedTicks(p.cpu);
      CpuShares(p, cpu.value);
    } else {
      NoCpuReadings(p);
    }
  }

  /** Disk rates: present when neither counter went back, in bytes per second, 512 to the sector. */
  lemma DiskExactly(p: Prior, disk: Option<DiskCounters>, now: int)
    requires now > p.mono
    ensures Elapsed(p, now) > 0.0
    ensures var r, ns := DiskReadings(p, disk, Elapsed(p, now)), (now - p.mono) as real;
            && (r == [] || |r| == 2)
            && (r != [] <==>
                  disk.Some? && disk.value.sectorsRead >= p.disk.sectorsRead &&
                  disk.value.sectorsWritten >= p.disk.sectorsWritten)
            && (r != [] ==>
                  && r[0].metric == 6
                  && r[0].value * ns == (disk.value.sectorsRead - p.disk.sectorsRead) as real * 512.0 * 1_000_000_000.0
                  && r[1].metric == 7
                  && r[1].value * ns
                     == (disk.value.sectorsWritten - p.disk.sectorsWritten) as real * 512.0 * 1_000_000_000.0)
  {
    hide Elapsed;
    RateInNanoseconds(0.0, p, now);
    if disk.Some? && DiskGrew(p.disk, disk.value) {
      RateInNanoseconds((disk.value.sectorsRead - p.disk.sectorsRead) as real * SECTOR_BYTES, p, now);
      RateInNanoseconds((disk.value.sectorsWritten - p.disk.sectorsWritten) as real * SECTOR_BYTES, p, now);
    }
  }

  /** Network rates: present when neither counter went back, in bytes per second. */
  lemma NetExactly(p: Prior, net: Option<NetCounters>, now: int)
    requires now > p.mono
    ensures Elapsed(p, now) > 0.0
    ensures var r, ns := NetReadings(p, net, Elapsed(p, now)), (now - p.mono) as real;
            && (r == [] || |r| == 2)
            && (r != [] <==> net.Some? && net.value.rxBytes >= p.net.rxBytes && net.value.txBytes >= p.net.txBytes)
            && (r != [] ==>
                  && r[0].metric == 8
                  && r[0].value * ns == (net.value.rxBytes - p.net.rxBytes) as real * 1_000_000_000.0
                  && r[1].metric == 9
                  && r[1].value * ns == (net.value.txBytes - p.net.txBytes) as real * 1_000_000_000.0)
  {
    hide Elapsed;
    RateInNanoseconds(0.0, p, now);
    if net.Some? && NetGrew(p.net, net.value) {
      RateInNanoseconds((net.value.rxBytes - p.net.rxBytes) as real, p, now);
      RateInNanoseconds((net.value.txBytes - p.net.txBytes) as real, p, now);
    }
  }

  /** The order of a call's readings, and when there are none. */
  lemma ReadingsExactly(p: Prior, x: Probe)
    ensures !p.known || x.now <= p.mono ==> RateReadings(p, x) == []
    ensures p.known && x.now > p.mono ==>
              Elapsed(p, x.now) > 0.0 &&
              var cpu, disk, net := CpuReadings(p, x.cpu), DiskReadings(p, x.disk, Elapsed(p, x.now)),
                                    NetReadings(p, x.net, Elapsed(p, x.now));
              var r := RateReadings(p, x);
              && |r| == |cpu| + |disk| + |net| && r[..|cpu|] == cpu
              && r[|cpu|..|cpu| + |disk|] == disk && r[|cpu| + |disk|..] == net
  {
    hide CpuReadings, DiskReadings, NetReadings;
  }

  // ---------- conservation over a run

  datatype Flow = DiskRead | DiskWrite | NetRx | NetTx

  function MetricOf(f: Flow): nat {
    match f
    case DiskRead => DISK_READ_BYTES_S
    case DiskWrite => DISK_WRITE_BYTES_S
    case NetRx => NET_RX_BYTES_S
    case NetTx => NET_TX_BYTES_S
  }

  function UnitOf(f: Flow): real {
    match f
    case DiskRead => SECTOR_BYTES
    case DiskWrite => SECTOR_BYTES
    case NetRx => 1.0
    case NetTx => 1.0
  }

  function CounterOf(f: Flow, p: Prior): Counter {
    match f
    case DiskRead => p.disk.sectorsRead
    case DiskWrite => p.disk.sectorsWritten
    case NetRx => p.net.rxBytes
    case NetTx => p.net.txBytes
  }

  /** The value reported for a metric, or 0 if it was not reported. */
  function Reported(readings: seq<MetricReading>, metric: nat): real {
    if readings == [] then 0.0
    else if readings[0].metric == metric then readings[0].value
    else Reported(readings[1..], metric)
  }

  /** The bytes one call accounts for: the reported rate times the time it covers. */
  function Accounted(f: Flow, p: Prior, x: Probe): real {
    Reported(RateReadings(p, x), MetricOf(f)) * Elapsed(p, x.now)
  }

  function After(p: Prior, run: seq<Probe>): Prior
    decreases |run|
  {
    if run == [] then p else After(Remember(p, run[0]), run[1..])
  }

  function AccountedOver(f: Flow, p: Prior, run: seq<Probe>): real
    decreases |run|
  {
    if run == [] then 0.0 else Accounted(f, p, run[0]) + AccountedOver(f, Remember(p, run[0]), run[1..])
  }

  function Growth(f: Flow, p: Prior, q: Prior): real {
    UnitOf(f) * (CounterOf(f, q) - CounterOf(f, p)) as real
  }

  /** The call reports the flow: time has passed, and neither counter of its pair went back. */
  predicate Reports(f: Flow, p: Prior, x: Probe) {
    p.known && x.now > p.mono &&
    match f
    case DiskRead => x.disk.Some? && DiskGrew(p.disk, x.disk.value)
    case DiskWrite => x.disk.Some? && DiskGrew(p.disk, x.disk.value)
    case NetRx => x.net.Some? && NetGrew(p.net, x.net.value)
    case NetTx => x.net.Some? && NetGrew(p.net, x.net.value)
  }

  /** What a counter changed by at a call that reports nothing of it, although it was read. */
  function Skipped(f: Flow, p: Prior, x: Probe): real {
    if Reports(f, p, x) then 0.0 else Growth(f, p, Remember(p, x))
  }

  function SkippedOver(f: Flow, p: Prior, run: seq<Probe>): real
    decreases |run|
  {
    if run == [] then 0.0 else Skipped(f, p, run[0]) + SkippedOver(f, Remember(p, run[0]), run[1..])
  }

  /** The clock advances at every call, and no counter that can be read is below its last reading. */
  predicate Advances(p: Prior, x: Probe) {
    && x.now > p.mono
    && (x.disk.Some? ==> DiskGrew(p.disk, x.disk.value))
    && (x.net.Some? ==> NetGrew(p.net, x.net.value))
  }

  predicate RunAdvances(p: Prior, run: seq<Probe>)
    decreases |run|
  {
    run == [] || (Advances(p, run[0]) && RunAdvances(Remember(p, run[0]), run[1..]))
  }

  lemma ReportedCons(r: MetricReading, rest: seq<MetricReading>, metric: nat)
    ensures Reported([r] + rest, metric) == if r.metric == metric then r.value else Reported(rest, metric)
  {
    assert ([r] + rest)[1..] == rest;
  }

  lemma {:induction false} ReportedAppend(a: seq<MetricReading>, b: seq<MetricReading>, metric: nat)
    ensures (forall r <- a :: r.metric != metric) ==> Reported(a + b, metric) == Reported(b, metric)
    ensures (exists r <- a :: r.metric == metric) ==> Reported(a + b, metric) == Reported(a, metric)
    ensures (forall r <- a :: r.metric != metric) ==> Reported(a, metric) == 0.0
  {
    if a == [] {
      assert a + b == b;
    } else {
      assert a == [a[0]] + a[1..] && a + b == [a[0]] + (a[1..] + b);
      ReportedCons(a[0], a[1..] + b, metric);
      ReportedAppend(a[1..], b, metric);
    }
  }

  /** Where a flow is reported: with its own pair of counters. */
  lemma ReportedFlow(f: Flow, p: Prior, x: Probe)
    requires p.known && Elapsed(p, x.now) > 0.0
    ensures Reported(RateReadings(p, x), MetricOf(f)) ==
            match f
            case DiskRead => Reported(DiskReadings(p, x.disk, Elapsed(p, x.now)), MetricOf(f))
            case DiskWrite => Reported(DiskReadings(p, x.disk, Elapsed(p, x.now)), MetricOf(f))
            case NetRx => Reported(NetReadings(p, x.net, Elapsed(p, x.now)), MetricOf(f))
            case NetTx => Reported(NetReadings(p, x.net, Elapsed(p, x.now)), MetricOf(f))
  {
    var e := Elapsed(p, x.now);
    var cpu, disk, net := CpuReadings(p, x.cpu), DiskReadings(p, x.disk, e), NetReadings(p, x.net, e);
    ReportedAppend(cpu, disk + net, MetricOf(f));
    ReportedAppend(disk, net, MetricOf(f));
    Associative(cpu, disk, net);
    if f.DiskRead? || f.DiskWrite? {
      ReportedAppend(net, [], MetricOf(f));
      assert net + [] == net;
      if disk != [] {
        assert disk[0] in disk && disk[1] in disk;
      }
    }
  }

  lemma ReportedPair(a: MetricReading, b: MetricReading, metric: nat)
    ensures Reported([a, b], metric)
            == if a.metric == metric then a.value else if b.metric == metric then b.value else 0.0
  {
    ReportedCons(b, [], metric);
    ReportedCons(a, [b], metric);
    assert [a, b] == [a] + [b] && [b] == [b] + [];
  }

  lemma GrowthAdds(f: Flow, p: Prior, q: Prior, r: Prior)
    ensures Growth(f, p, q) + Growth(f, q, r) == Growth(f, p, r)
  {
  }

  lemma ReportedDisk(f: Flow, p: Prior, x: Probe, elapsed: real)
    requires (f.DiskRead? || f.DiskWrite?) && elapsed > 0.0
    ensures Reported(DiskReadings(p, x.disk, elapsed), MetricOf(f))
            == if x.disk.Some? && DiskGrew(p.disk, x.disk.value) then Growth(f, p, Remember(p, x)) / elapsed else 0.0
  {
    var rs := DiskReadings(p, x.disk, elapsed);
    if rs != [] {
      ReportedPair(rs[0], rs[1], MetricOf(f));
      assert rs == [rs[0], rs[1]];
    }
  }

  lemma ReportedNet(f: Flow, p: Prior, x: Probe, elapsed: real)
    requires (f.NetRx? || f.NetTx?) && elapsed > 0.0
    ensures Reported(NetReadings(p, x.net, elapsed), MetricOf(f))
            == if x.net.Some? && NetGrew(p.net, x.net.value) then Growth(f, p, Remember(p, x)) / elapsed else 0.0
  {
    var rs := NetReadings(p, x.net, elapsed);
    if rs != [] {
      ReportedPair(rs[0], rs[1], MetricOf(f));
      assert rs == [rs[0], rs[1]];
    }
  }

  lemma ElapsedSign(p: Prior, now: int)
    ensures Elapsed(p, now) > 0.0 <==> now > p.mono
  {
  }

  /** A call that reports a flow accounts for exactly what its counter grew by since the last successful read,
      and any other call for nothing. */
  lemma CallConserves(f: Flow, p: Prior, x: Probe)
    ensures Accounted(f, p, x) == if Reports(f, p, x) then Growth(f, p, Remember(p, x)) else 0.0
  {
    hide Elapsed, Reported, DiskReadings, NetReadings, Growth;
    var e := Elapsed(p, x.now);
    ElapsedSign(p, x.now);
    if p.known && e > 0.0 {
      ReportedFlow(f, p, x);
      hide RateReadings;
      if f.DiskRead? || f.DiskWrite? {
        ReportedDisk(f, p, x, e);
      } else {
        ReportedNet(f, p, x, e);
      }
      QuotientTimes(Growth(f, p, Remember(p, x)), e);
    } else {
      ReportedNothing(MetricOf(f));
    }
  }

  lemma ReportedNothing(metric: nat)
    ensures Reported([], metric) == 0.0
  {
  }

  lemma {:induction false} RunConserves(f: Flow, p: Prior, run: seq<Probe>)
    ensures AccountedOver(f, p, run) + SkippedOver(f, p, run) == Growth(f, p, After(p, run))
    decreases |run|
  {
    if run != [] {
      CallConserves(f, p, run[0]);
      hide Growth, Accounted, Reports;
      RunConserves(f, Remember(p, run[0]), run[1..]);
      GrowthAdds(f, p, Remember(p, run[0]), After(p, run));
    } else {
      assert Growth(f, p, p) == 0.0;
    }
  }

  /** Over any run, with any clock and any counters: the reported rates, each times the time it covers, add up to
      the growth of the counter from the first call's reading (0 if that read failed) to the last successful one,
      across failed reads, less what it changed by at the calls that skip it. */
  lemma RateConservation(f: Flow, run: seq<Probe>)
    requires run != []
    ensures var first := Remember(NO_PRIOR, run[0]);
            AccountedOver(f, NO_PRIOR, run)
            == UnitOf(f) * (CounterOf(f, After(NO_PRIOR, run)) - CounterOf(f, first)) as real
               - SkippedOver(f, first, run[1..])
  {
    var first := Remember(NO_PRIOR, run[0]);
    RunConserves(f, first, run[1..]);
    CallConserves(f, NO_PRIOR, run[0]);
    hide SkippedOver, Accounted;
    assert Accounted(f, NO_PRIOR, run[0]) == 0.0;
    assert AccountedOver(f, NO_PRIOR, run) == AccountedOver(f, first, run[1..]);
    assert After(NO_PRIOR, run) == After(first, run[1..]);
  }

  /** Nothing is skipped while the clock advances and no counter goes back. */
  lemma {:induction false} AdvancingSkipsNothing(f: Flow, p: Prior, run: seq<Probe>)
    requires p.known && RunAdvances(p, run)
    ensures SkippedOver(f, p, run) == 0.0
    decreases |run|
  {
    if run != [] {
      AdvancingSkipsNothing(f, Remember(p, run[0]), run[1..]);
    }
  }
}
