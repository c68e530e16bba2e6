/** Downsampled rollups of one (node, metric) series: per-bucket average, minimum, maximum and count. */
module Rollups {
  import opened Common
  import opened Samples

  const WIDTH_1M := 60_000_000_000
  const WIDTH_1H := 3_600_000_000_000

  datatype RollupKey = RollupKey(node: string, metric: nat, bucket: int)
  datatype RollupCells = RollupCells(avg: real, min: real, max: real, count: nat)
  type RollupTable = map<RollupKey, RollupCells>

  type Points = map<int, real> // timestamp to value
  type Groups = map<int, RollupCells> // bucket start to cells

  // ---------- bucket arithmetic

  /** Integer division as SQLite does it: towards zero. */
  function TruncDiv(a: int, w: nat): int
    requires w > 0
  {
    if a >= 0 then a / w else -(-a / w)
  }

  function BucketStart(ts: int, w: nat): int
    requires w > 0
  {
    TruncDiv(ts, w) * w
  }

  lemma DivMul(a: nat, w: nat)
    requires w > 0
    ensures a / w * w == a - a % w && 0 <= a % w < w
  {
  }

  /** A bucket contains its timestamps, as the schema says, exactly when the timestamp is not negative
      or falls on a bucket boundary. */
  lemma FloorAlignedExactly(ts: int, w: nat)
    requires w > 0
    ensures BucketStart(ts, w) <= ts < BucketStart(ts, w) + w <==> ts >= 0 || -ts % w == 0
  {
    if ts >= 0 {
      DivMul(ts, w);
    } else {
      DivMul(-ts, w);
      assert BucketStart(ts, w) == -(-ts / w * w);
    }
  }

  function MinuteOf(ts: int): int {
    BucketStart(ts, WIDTH_1M)
  }

  function HourOf(ts: int): int {
    BucketStart(ts, WIDTH_1H)
  }

  /** From the epoch on, a bucket starts at the last whole minute, or hour, in nanoseconds. */
  lemma BucketWidths(ts: int)
    requires ts >= 0
    ensures MinuteOf(ts) % 60_000_000_000 == 0 && MinuteOf(ts) <= ts < MinuteOf(ts) + 60_000_000_000
    ensures HourOf(ts) % 3_600_000_000_000 == 0 && HourOf(ts) <= ts < HourOf(ts) + 3_600_000_000_000
  {
    DivMul(ts, WIDTH_1M);
    DivMul(ts, WIDTH_1H);
  }

  /** A minute bucket lies in the hour bucket of each of its timestamps, also for negative timestamps. */
  lemma MinuteInHour(ts: int)
    ensures HourOf(MinuteOf(ts)) == HourOf(ts)
  {
    NestedDiv(if ts >= 0 then ts else -ts);
  }

  lemma NestedDiv(a: nat)
    ensures a / WIDTH_1M * WIDTH_1M / WIDTH_1H == a / WIDTH_1H
  {
    var hour, minute := a / WIDTH_1H, a / WIDTH_1M;
    assert hour * WIDTH_1H <= a < (hour + 1) * WIDTH_1H;
    assert minute * WIDTH_1M <= a < (minute + 1) * WIDTH_1M;
    assert 60 * hour <= minute < 60 * (hour + 1);
    QuotientIs(minute * WIDTH_1M, WIDTH_1H, hour);
  }

  lemma QuotientIs(a: nat, w: nat, k: nat)
    requires w > 0 && k * w <= a < (k + 1) * w
    ensures a / w == k
  {
    DivMul(a, w);
    MulOrder(a / w, k, w);
    MulOrder(k, a / w, w);
  }

  lemma MulOrder(i: nat, j: nat, w: nat)
    ensures i < j ==> (i + 1) * w <= j * w
  {
    if i < j {
      assert j * w == (i + 1) * w + (j - i - 1) * w;
    }
  }

  // ---------- what a rollup is

  function PointsOf(t: SampleTable, node: string, metric: nat): (p: Points)
    ensures forall ts :: ts in p <==> SampleKey(node, metric, ts) in t
    ensures forall ts <- p :: p[ts] == t[SampleKey(node, metric, ts)].value
  {
    var p := map k: SampleKey | k in t && k.node == node && k.metric == metric :: k.ts := t[k].value;
    assert forall ts :: SampleKey(node, metric, ts) in t ==> SampleKey(node, metric, ts).ts in p;
    p
  }

  /** The timestamps of `s` whose bucket starts at `b`. */
  ghost function Members(s: set<int>, bucketOf: int -> int, b: int): set<int>
  {
    set ts | ts in s && bucketOf(ts) == b
  }

  /** The sum of the values of `p` over `s`. */
  ghost function Total(p: Points, s: set<int>): real
    requires s <= p.Keys
  {
    if s == {} then 0.0 else
      var x := Pick(s);
      p[x] + Total(p, s - {x})
  }

  ghost predicate IsLeast(v: real, p: Points, s: set<int>)
    requires s <= p.Keys
  {
    (exists x <- s :: p[x] == v) && forall x <- s :: v <= p[x]
  }

  ghost predicate IsGreatest(v: real, p: Points, s: set<int>)
    requires s <= p.Keys
  {
    (exists x <- s :: p[x] == v) && forall x <- s :: p[x] <= v
  }

  ghost predicate Summarizes(c: RollupCells, p: Points, s: set<int>)
    requires s <= p.Keys
  {
    && c.count == |s| > 0
    && c.avg * c.count as real == Total(p, s)
    && IsLeast(c.min, p, s)
    && IsGreatest(c.max, p, s)
  }

  /** `g` is the GROUP BY of the points by bucket: one entry for each bucket that has a point. */
  ghost predicate IsRollup(g: Groups, p: Points, bucketOf: int -> int)
  {
    && (forall b :: b in g <==> Members(p.Keys, bucketOf, b) != {})
    && (forall b <- g :: Summarizes(g[b], p, Members(p.Keys, bucketOf, b)))
  }

  // ---------- sums over sets

  lemma CancelFactor(a: real, b: real, n: real)
    requires n > 0.0 && a * n <= b * n
    ensures a <= b
  {
  }

  lemma {:induction false} TotalRemove(p: Points, s: set<int>, x: int)
    requires x in s && s <= p.Keys
    ensures Total(p, s) == p[x] + Total(p, s - {x})
  {
    var y := Pick(s);
    if x != y {
      TotalRemove(p, s - {y}, x);
      TotalRemove(p, s - {x}, y);
      assert s - {x} - {y} == s - {y} - {x};
    }
  }

  lemma {:induction false} TotalUnion(p: Points, a: set<int>, b: set<int>)
    requires a + b <= p.Keys && a !! b
    ensures Total(p, a + b) == Total(p, a) + Total(p, b)
  {
    if a == {} {
      assert a + b == b;
    } else {
      var x := Pick(a);
      TotalRemove(p, a, x);
      TotalRemove(p, a + b, x);
      assert a + b - {x} == (a - {x}) + b;
      TotalUnion(p, a - {x}, b);
    }
  }

  lemma {:induction false} TotalMonotone(p: Points, q: Points, s: set<int>)
    requires s <= p.Keys && s <= q.Keys && forall x <- s :: p[x] <= q[x]
    ensures Total(p, s) <= Total(q, s)
  {
    if s != {} {
      var x := Pick(s);
      TotalMonotone(p, q, s - {x});
    }
  }

  /** The same value at every point of `s`. */
  ghost function Constant(s: set<int>, v: real): Points {
    map x | x in s :: v
  }

  lemma {:induction false} TotalConstant(s: set<int>, r: set<int>, v: real)
    requires s <= r
    ensures Total(Constant(r, v), s) == v * |s| as real
  {
    if s != {} {
      var x := Pick(s);
      TotalConstant(s - {x}, r, v);
      assert |s| == |s - {x}| + 1;
      Distribute(v, |s - {x}|);
    }
  }

  lemma Distribute(v: real, n: nat)
    ensures v * (n + 1) as real == v * n as real + v
  {
  }

  // ---------- the GROUP BY loop

  /** Running aggregates of one bucket. */
  datatype Acc = Acc(sum: real, min: real, max: real, count: nat)

  ghost predicate Accumulates(acc: Acc, p: Points, s: set<int>)
    requires s <= p.Keys
  {
    acc.count == |s| > 0 && acc.sum == Total(p, s) && IsLeast(acc.min, p, s) && IsGreatest(acc.max, p, s)
  }

  function Start(v: real): Acc {
    Acc(v, v, v, 1)
  }

  function Extend(acc: Acc, v: real): Acc {
    Acc(acc.sum + v, if v < acc.min then v else acc.min, if v > acc.max then v else acc.max, acc.count + 1)
  }

  lemma StartAccumulates(p: Points, x: int)
    requires x in p
    ensures Accumulates(Start(p[x]), p, {x})
  {
    TotalRemove(p, {x}, x);
    assert {x} - {x} == {};
  }

  lemma ExtendAccumulates(acc: Acc, p: Points, s: set<int>, x: int)
    requires x in p && x !in s && s <= p.Keys && Accumulates(acc, p, s)
    ensures Accumulates(Extend(acc, p[x]), p, s + {x})
  {
    TotalRemove(p, s + {x}, x);
    assert s + {x} - {x} == s;
    var low :| low in s && p[low] == acc.min;
    var high :| high in s && p[high] == acc.max;
    assert low in s + {x} && high in s + {x} && x in s + {x};
  }

  ghost predicate Grouped(accs: map<int, Acc>, p: Points, done: set<int>, bucketOf: int -> int)
    requires done <= p.Keys
  {
    && (forall b :: b in accs <==> Members(done, bucketOf, b) != {})
    && (forall b <- accs :: Accumulates(accs[b], p, Members(done, bucketOf, b)))
  }

  /** Rows may be visited in any order; the groups come out the same (see RollupIsUnique). */
  method GroupByBucket(p: Points, bucketOf: int -> int) returns (g: Groups)
    ensures IsRollup(g, p, bucketOf)
  {
    var accs: map<int, Acc> := map[];
    var pending := p.Keys;
    while pending != {}
      invariant pending <= p.Keys
      invariant Grouped(accs, p, p.Keys - pending, bucketOf)
    {
      ghost var some: int := Pick(pending);
      assert some in pending;
      var ts :| ts in pending;
      var b := bucketOf(ts);
      ghost var done := p.Keys - pending;
      GroupStep(accs, p, done, bucketOf, ts);
      accs := accs[b := if b in accs then Extend(accs[b], p[ts]) else Start(p[ts])];
      pending := pending - {ts};
      assert p.Keys - pending == done + {ts};
    }
    assert p.Keys - pending == p.Keys;
    g := map b | b in accs :: RollupCells(accs[b].sum / accs[b].count as real, accs[b].min, accs[b].max, accs[b].count);
  }

  lemma GroupStep(accs: map<int, Acc>, p: Points, done: set<int>, bucketOf: int -> int, ts: int)
    requires done <= p.Keys && ts in p && ts !in done
    requires Grouped(accs, p, done, bucketOf)
    ensures var b := bucketOf(ts);
            Grouped(accs[b := if b in accs then Extend(accs[b], p[ts]) else Start(p[ts])], p, done + {ts}, bucketOf)
  {
    var b := bucketOf(ts);
    MembersAdd(done, bucketOf, ts);
    if b in accs {
      ExtendAccumulates(accs[b], p, Members(done, bucketOf, b), ts);
    } else {
      StartAccumulates(p, ts);
      assert Members(done, bucketOf, b) + {ts} == {ts};
    }
  }

  lemma MembersAdd(s: set<int>, bucketOf: int -> int, ts: int)
    ensures forall b :: Members(s + {ts}, bucketOf, b)
                        == if b == bucketOf(ts) then Members(s, bucketOf, b) + {ts} else Members(s, bucketOf, b)
  {
  }

  lemma SameQuotient(a: real, b: real, n: real, total: real)
    requires n > 0.0 && a * n == total && b * n == total
    ensures a == b
  {
    CancelFactor(a, b, n);
    CancelFactor(b, a, n);
  }

  lemma SameCells(x: RollupCells, y: RollupCells, p: Points, s: set<int>)
    requires s <= p.Keys && Summarizes(x, p, s) && Summarizes(y, p, s)
    ensures x == y
  {
    hide Total;
    SameQuotient(x.avg, y.avg, |s| as real, Total(p, s));
  }

  lemma RollupIsUnique(g: Groups, h: Groups, p: Points, bucketOf: int -> int)
    requires IsRollup(g, p, bucketOf) && IsRollup(h, p, bucketOf)
    ensures g == h
  {
    forall b
      ensures b in g <==> b in h
    {
      assert b in g <==> Members(p.Keys, bucketOf, b) != {};
    }
    forall b | b in g
      ensures g[b] == h[b]
    {
      SameCells(g[b], h[b], p, Members(p.Keys, bucketOf, b));
    }
  }

  // ---------- theorems about rollups

  ghost function Counts(g: Groups): Points {
    map b | b in g :: g[b].count as real
  }

  ghost function Weights(g: Groups): Points {
    map b | b in g :: g[b].avg * g[b].count as real
  }

  /** The timestamps whose bucket is one of `buckets`. */
  ghost function Span(s: set<int>, bucketOf: int -> int, buckets: set<int>): set<int>
  {
    set ts | ts in s && bucketOf(ts) in buckets
  }

  /** Buckets partition the points: when each bucket of `q` carries the sum of its points, folding any set
      of buckets gives the sum over all their points. */
  lemma {:induction false} FoldBuckets(q: Points, p: Points, bucketOf: int -> int, buckets: set<int>)
    requires buckets <= q.Keys && forall b <- q :: q[b] == Total(p, Members(p.Keys, bucketOf, b))
    ensures Total(q, buckets) == Total(p, Span(p.Keys, bucketOf, buckets))
  {
    if buckets == {} {
      assert Span(p.Keys, bucketOf, buckets) == {};
    } else {
      var b := Pick(buckets);
      FoldBuckets(q, p, bucketOf, buckets - {b});
      var rest, own := Span(p.Keys, bucketOf, buckets - {b}), Members(p.Keys, bucketOf, b);
      assert Span(p.Keys, bucketOf, buckets) == rest + own;
      TotalUnion(p, rest, own);
    }
  }

  lemma FoldWeights(g: Groups, p: Points, bucketOf: int -> int, buckets: set<int>)
    requires IsRollup(g, p, bucketOf) && buckets <= g.Keys
    ensures Total(Weights(g), buckets) == Total(p, Span(p.Keys, bucketOf, buckets))
  {
    FoldBuckets(Weights(g), p, bucketOf, buckets);
  }

  lemma FoldCounts(g: Groups, p: Points, bucketOf: int -> int, buckets: set<int>)
    requires IsRollup(g, p, bucketOf) && buckets <= g.Keys
    ensures Total(Counts(g), buckets) == |Span(p.Keys, bucketOf, buckets)| as real
  {
    var ones := Constant(p.Keys, 1.0);
    forall b | b in g
      ensures Counts(g)[b] == Total(ones, Members(p.Keys, bucketOf, b))
    {
      TotalConstant(Members(p.Keys, bucketOf, b), p.Keys, 1.0);
    }
    assert ones.Keys == p.Keys;
    FoldBuckets(Counts(g), ones, bucketOf, buckets);
    TotalConstant(Span(p.Keys, bucketOf, buckets), p.Keys, 1.0);
  }

  lemma EveryPointHasABucket(g: Groups, p: Points, bucketOf: int -> int)
    requires IsRollup(g, p, bucketOf)
    ensures forall ts <- p :: bucketOf(ts) in g
    ensures Span(p.Keys, bucketOf, g.Keys) == p.Keys
  {
    forall ts | ts in p
      ensures bucketOf(ts) in g
    {
      assert ts in Members(p.Keys, bucketOf, bucketOf(ts));
    }
  }

  /** The counts add up to the number of raw rows, and count times average to the sum of raw values. */
  lemma RollupConserves(g: Groups, p: Points, bucketOf: int -> int)
    requires IsRollup(g, p, bucketOf)
    ensures Total(Counts(g), g.Keys) == |p| as real
    ensures Total(Weights(g), g.Keys) == Total(p, p.Keys)
  {
    EveryPointHasABucket(g, p, bucketOf);
    FoldCounts(g, p, bucketOf, g.Keys);
    FoldWeights(g, p, bucketOf, g.Keys);
  }

  /** The average of a bucket lies between its minimum and its maximum. */
  lemma AverageWithinBounds(g: Groups, p: Points, bucketOf: int -> int, b: int)
    requires IsRollup(g, p, bucketOf) && b in g
    ensures g[b].min <= g[b].avg <= g[b].max
  {
    AverageBetween(g[b], p, Members(p.Keys, bucketOf, b));
  }

  lemma AverageBetween(c: RollupCells, p: Points, s: set<int>)
    requires s <= p.Keys && Summarizes(c, p, s)
    ensures c.min <= c.avg <= c.max
  {
    TotalAtLeast(p, s, c.min, c.count);
    TotalAtMost(p, s, c.max, c.count);
    MeanBetween(c.avg, c.count, Total(p, s), c.min, c.max);
  }

  lemma MeanBetween(avg: real, n: nat, total: real, low: real, high: real)
    requires n > 0 && avg * n as real == total
    requires low * n as real <= total <= high * n as real
    ensures low <= avg <= high
  {
    CancelFactor(low, avg, n as real);
    CancelFactor(avg, high, n as real);
  }

  lemma TotalAtLeast(p: Points, s: set<int>, v: real, n: nat)
    requires n == |s| && s <= p.Keys && forall x <- s :: v <= p[x]
    ensures v * n as real <= Total(p, s)
  {
    TotalMonotone(Constant(s, v), p, s);
    TotalConstant(s, s, v);
  }

  lemma TotalAtMost(p: Points, s: set<int>, v: real, n: nat)
    requires n == |s| && s <= p.Keys && forall x <- s :: p[x] <= v
    ensures Total(p, s) <= v * n as real
  {
    TotalMonotone(p, Constant(s, v), s);
    TotalConstant(s, s, v);
  }

  /** Each bucket of `fine` lies inside one bucket of `coarse`. */
  ghost predicate Nested(fine: int -> int, coarse: int -> int) {
    forall ts :: coarse(fine(ts)) == coarse(ts)
  }

  /** The fine buckets inside one coarse bucket. */
  ghost function Inside(buckets: set<int>, coarse: int -> int, h: int): set<int> {
    Members(buckets, coarse, h)
  }

  /** The coarse cells are what folding the fine cells of `ms` gives. */
  ghost predicate IsFold(c: RollupCells, g: Groups, ms: set<int>)
    requires ms <= g.Keys
  {
    && c.count as real == Total(Counts(g), ms) > 0.0
    && c.avg * c.count as real == Total(Weights(g), ms)
    && IsLeast(c.min, map m | m in g :: g[m].min, ms)
    && IsGreatest(c.max, map m | m in g :: g[m].max, ms)
  }

  lemma NestedMembers(g: Groups, p: Points, fine: int -> int, coarse: int -> int, h: int)
    requires Nested(fine, coarse) && IsRollup(g, p, fine)
    ensures Span(p.Keys, fine, Inside(g.Keys, coarse, h)) == Members(p.Keys, coarse, h)
    ensures Members(p.Keys, coarse, h) != {} <==> Inside(g.Keys, coarse, h) != {}
  {
    var ms, s := Inside(g.Keys, coarse, h), Members(p.Keys, coarse, h);
    EveryPointHasABucket(g, p, fine);
    forall ts | ts in p
      ensures fine(ts) in ms <==> ts in s
    {
      assert coarse(fine(ts)) == coarse(ts);
    }
    if s != {} {
      var x: int := Pick(s);
      assert x in s && fine(x) in ms;
    }
    if ms != {} {
      var m: int := Pick(ms);
      var x: int := Pick(Members(p.Keys, fine, m));
      assert x in Members(p.Keys, fine, m) && fine(x) in ms;
    }
  }

  lemma NestedMean(fineG: Groups, coarseG: Groups, p: Points, fine: int -> int, coarse: int -> int, h: int)
    requires Nested(fine, coarse) && IsRollup(fineG, p, fine) && IsRollup(coarseG, p, coarse) && h in coarseG
    ensures var ms := Inside(fineG.Keys, coarse, h);
            && coarseG[h].count as real == Total(Counts(fineG), ms) > 0.0
            && coarseG[h].avg * coarseG[h].count as real == Total(Weights(fineG), ms)
  {
    var ms := Inside(fineG.Keys, coarse, h);
    NestedMembers(fineG, p, fine, coarse, h);
    assert Total(Counts(fineG), ms) == coarseG[h].count as real by {
      FoldCounts(fineG, p, fine, ms);
    }
    assert Total(Weights(fineG), ms) == coarseG[h].avg * coarseG[h].count as real by {
      FoldWeights(fineG, p, fine, ms);
    }
  }

  /** The least of the least values of the parts is the least value of the whole. */
  lemma LeastOfParts(g: Groups, p: Points, fine: int -> int, ms: set<int>, v: real)
    requires IsRollup(g, p, fine) && ms <= g.Keys && IsLeast(v, p, Span(p.Keys, fine, ms))
    ensures IsLeast(v, map m | m in g :: g[m].min, ms)
  {
    var s := Span(p.Keys, fine, ms);
    forall m | m in ms
      ensures v <= g[m].min
    {
      var x :| x in Members(p.Keys, fine, m) && p[x] == g[m].min;
      assert x in s;
    }
    var x :| x in s && p[x] == v;
    assert x in Members(p.Keys, fine, fine(x));
    assert g[fine(x)].min == v;
  }

  lemma GreatestOfParts(g: Groups, p: Points, fine: int -> int, ms: set<int>, v: real)
    requires IsRollup(g, p, fine) && ms <= g.Keys && IsGreatest(v, p, Span(p.Keys, fine, ms))
    ensures IsGreatest(v, map m | m in g :: g[m].max, ms)
  {
    var s := Span(p.Keys, fine, ms);
    forall m | m in ms
      ensures g[m].max <= v
    {
      var x :| x in Members(p.Keys, fine, m) && p[x] == g[m].max;
      assert x in s;
    }
    var x :| x in s && p[x] == v;
    assert x in Members(p.Keys, fine, fine(x));
    assert g[fine(x)].max == v;
  }

  lemma NestedFold(fineG: Groups, coarseG: Groups, p: Points, fine: int -> int, coarse: int -> int, h: int)
    requires Nested(fine, coarse) && IsRollup(fineG, p, fine) && IsRollup(coarseG, p, coarse)
    ensures h in coarseG <==> Inside(fineG.Keys, coarse, h) != {}
    ensures h in coarseG ==> IsFold(coarseG[h], fineG, Inside(fineG.Keys, coarse, h))
  {
    NestedMembers(fineG, p, fine, coarse, h);
    if h in coarseG {
      NestedMean(fineG, coarseG, p, fine, coarse, h);
      LeastOfParts(fineG, p, fine, Inside(fineG.Keys, coarse, h), coarseG[h].min);
      GreatestOfParts(fineG, p, fine, Inside(fineG.Keys, coarse, h), coarseG[h].max);
    }
  }

  /** Folding the 1-minute rollup into hours gives the 1-hour rollup: the same hours, counts, weighted
      averages, minima and maxima. */
  lemma HoursFoldMinutes(minutes: Groups, hours: Groups, p: Points, h: int)
    requires IsRollup(minutes, p, MinuteOf) && IsRollup(hours, p, HourOf)
    ensures h in hours <==> Inside(minutes.Keys, HourOf, h) != {}
    ensures h in hours ==> IsFold(hours[h], minutes, Inside(minutes.Keys, HourOf, h))
  {
    assert Nested(MinuteOf, HourOf) by {
      forall ts {
        MinuteInHour(ts);
      }
    }
    NestedFold(minutes, hours, p, MinuteOf, HourOf, h);
  }

  /** A rollup computed before more rows arrived under-approximates a fresh one, bucket by bucket. */
  lemma StaleRollupIsSound(
    t: SampleTable, u: SampleTable, node: string, metric: nat, bucketOf: int -> int, g: Groups, h: Groups, b: int)
    requires Within(t, u) && b in g
    requires IsRollup(g, PointsOf(t, node, metric), bucketOf) && IsRollup(h, PointsOf(u, node, metric), bucketOf)
    ensures b in h && g[b].count <= h[b].count && h[b].min <= g[b].min && g[b].max <= h[b].max
  {
    var p, q := PointsOf(t, node, metric), PointsOf(u, node, metric);
    var s, r := Members(p.Keys, bucketOf, b), Members(q.Keys, bucketOf, b);
    forall ts | ts in p
      ensures ts in q && q[ts] == p[ts]
    {
      assert SampleKey(node, metric, ts) in t;
    }
    assert s <= r;
    SubsetSize(s, r);
    var low :| low in s && p[low] == g[b].min;
    var high :| high in s && p[high] == g[b].max;
    assert low in r && high in r;
  }

  // ---------- the rollup table

  /** The rollup entries of one series. */
  function GroupsOf(table: RollupTable, node: string, metric: nat): (g: Groups)
    ensures forall b :: b in g <==> RollupKey(node, metric, b) in table
    ensures forall b <- g :: g[b] == table[RollupKey(node, metric, b)]
  {
    var g := map k: RollupKey | k in table && k.node == node && k.metric == metric :: k.bucket := table[k];
    assert forall b :: RollupKey(node, metric, b) in table ==> RollupKey(node, metric, b).bucket in g;
    g
  }

  /** DELETE the entries of one series, then INSERT the given groups. */
  function ReplaceGroups(table: RollupTable, node: string, metric: nat, g: Groups): RollupTable {
    (map k: RollupKey | k in table && (k.node != node || k.metric != metric) :: table[k])
    + (map b | b in g :: RollupKey(node, metric, b) := g[b])
  }

  /** Afterwards the series holds exactly the given groups, and every other series what it held. */
  lemma ReplaceGroupsExactly(table: RollupTable, node: string, metric: nat, g: Groups, n: string, m: nat)
    ensures GroupsOf(ReplaceGroups(table, node, metric, g), n, m)
            == if n == node && m == metric then g else GroupsOf(table, n, m)
  {
    var before, after := GroupsOf(table, n, m), GroupsOf(ReplaceGroups(table, node, metric, g), n, m);
    var expected := if n == node && m == metric then g else before;
    forall b
      ensures (b in after <==> b in expected) && (b in after ==> after[b] == expected[b])
    {
      ReplacedEntry(table, node, metric, g, RollupKey(n, m, b));
    }
  }

  lemma ReplacedEntry(table: RollupTable, node: string, metric: nat, g: Groups, k: RollupKey)
    ensures var r := ReplaceGroups(table, node, metric, g);
            if k.node == node && k.metric == metric
            then (k in r <==> k.bucket in g) && (k in r ==> r[k] == g[k.bucket])
            else (k in r <==> k in table) && (k in r ==> r[k] == table[k])
  {
    var added := map b | b in g :: RollupKey(node, metric, b) := g[b];
    assert k.bucket in g ==> RollupKey(node, metric, k.bucket) in added;
  }

  /** Only the series (node, metric) may differ. */
  ghost predicate OthersKept(before: RollupTable, after: RollupTable, node: string, metric: nat) {
    forall n, m: nat :: n != node || m != metric ==> GroupsOf(after, n, m) == GroupsOf(before, n, m)
  }

  method RebuildSeries(table: RollupTable, node: string, metric: nat, p: Points, bucketOf: int -> int)
    returns (rebuilt: RollupTable)
    ensures IsRollup(GroupsOf(rebuilt, node, metric), p, bucketOf)
    ensures OthersKept(table, rebuilt, node, metric)
  {
    var g := GroupByBucket(p, bucketOf);
    rebuilt := ReplaceGroups(table, node, metric, g);
    ReplaceGroupsExactly(table, node, metric, g, node, metric);
    forall n, m: nat | n != node || m != metric
      ensures GroupsOf(rebuilt, n, m) == GroupsOf(table, n, m)
    {
      ReplaceGroupsExactly(table, node, metric, g, n, m);
    }
  }
}
