/** Ranking the nodes of one job phase by a modified z-score built on the median absolute deviation. */
module Straggler {
  import opened Common
  import opened Sorting
  import opened OrderStatistics

  const MAD_Z_THRESHOLD := 3.5
  const MAD_CONSTANT := 0.6745
  const MAD_FLOOR_NS := 1_000_000.0
  const MIN_REPORTING_NODES := 3

  /** One item of the durations dictionary, in insertion order. */
  datatype Entry = Entry(node: string, duration: int)

  datatype RankedNode = RankedNode(node: string, duration: int, z: real, flagged: bool)

  datatype Status = Ranked | InsufficientEvidence

  datatype Report = Report(status: Status, ranked: seq<RankedNode>, top: Option<string>, naive: Option<string>)

  /** Keys of a dictionary are distinct. */
  ghost predicate IsDict(d: seq<Entry>) {
    forall i, j :: 0 <= i < j < |d| ==> d[i].node != d[j].node
  }

  function Duration(e: Entry): real {
    e.duration as real
  }

  function Values(d: seq<Entry>): (vs: seq<real>)
    ensures |vs| == |d|
    ensures forall i :: 0 <= i < |d| ==> vs[i] == d[i].duration as real
  {
    Map(Duration, d)
  }

  function Abs(x: real): real {
    if x < 0.0 then -x else x
  }

  function From(center: real): real -> real {
    x => Abs(x - center)
  }

  function Deviations(vs: seq<real>, center: real): (ds: seq<real>)
    ensures |ds| == |vs|
    ensures forall i :: 0 <= i < |vs| ==> ds[i] == Abs(vs[i] - center)
  {
    Map(From(center), vs)
  }

  function RawMad(vs: seq<real>): real
    requires vs != []
  {
    Median(Deviations(vs, Median(vs)))
  }

  /** The scale of the scores: the median absolute deviation, but at least 1 ms. */
  function Mad(vs: seq<real>): real
    requires vs != []
  {
    if RawMad(vs) > MAD_FLOOR_NS then RawMad(vs) else MAD_FLOOR_NS
  }

  /** Where scores are measured from and in what unit. */
  datatype Scale = Scale(center: real, mad: real)

  function ScaleOf(d: seq<Entry>): (c: Scale)
    requires d != []
    ensures c.mad >= MAD_FLOOR_NS
  {
    Scale(Median(Values(d)), Mad(Values(d)))
  }

  function Score(e: Entry, c: Scale): real
    requires c.mad > 0.0
  {
    MAD_CONSTANT * (e.duration as real - c.center) / c.mad
  }

  predicate Flagged(e: Entry, c: Scale)
    requires c.mad > 0.0
  {
    Score(e, c) > MAD_Z_THRESHOLD
  }

  /** Descending score, ties by ascending node id. */
  function ByScore(c: Scale): (Entry, Entry) -> bool
    requires c.mad > 0.0
  {
    (a: Entry, b: Entry) => Score(a, c) > Score(b, c) || (Score(a, c) == Score(b, c) && LexLeq(a.node, b.node))
  }

  function Ranking(d: seq<Entry>): seq<Entry>
    requires d != []
  {
    SortBy(ByScore(ScaleOf(d)), d)
  }

  function RankedNodeOf(e: Entry, c: Scale): RankedNode
    requires c.mad > 0.0
  {
    RankedNode(e.node, e.duration, Score(e, c), Flagged(e, c))
  }

  function RankedNodes(es: seq<Entry>, c: Scale): (rs: seq<RankedNode>)
    requires c.mad > 0.0
    ensures |rs| == |es|
    ensures forall i :: 0 <= i < |es| ==> rs[i] == RankedNodeOf(es[i], c)
  {
    seq(|es|, i requires 0 <= i < |es| => RankedNodeOf(es[i], c))
  }

  function FirstFlagged(rs: seq<RankedNode>): Option<string> {
    if rs == [] then None
    else if rs[0].flagged then Some(rs[0].node)
    else FirstFlagged(rs[1..])
  }

  /** The largest (duration, node id) pair. */
  function Slowest(d: seq<Entry>): Entry
    requires d != []
  {
    if |d| == 1 then d[0]
    else
      var best := Slowest(d[1..]);
      var a := d[0];
      if best.duration > a.duration || (best.duration == a.duration && LexLeq(a.node, best.node)) then best else a
  }

  function RankStragglers(d: seq<Entry>): Report {
    if |d| < MIN_REPORTING_NODES then Report(InsufficientEvidence, [], None, None)
    else
      var ranked := RankedNodes(Ranking(d), ScaleOf(d));
      Report(Ranked, ranked, FirstFlagged(ranked), Some(Slowest(d).node))
  }

  // ---------- scores without division

  lemma QuotientOrder(a: real, b: real, m: real)
    requires m > 0.0
    ensures a / m > b / m <==> a > b
    ensures a / m == b / m <==> a == b
  {
    assert Times(m, a / m) == a && Times(m, b / m) == b;
    TimesOrder(m, a / m, b / m);
  }

  lemma FlaggedLinear(e: Entry, c: Scale)
    requires c.mad > 0.0
    ensures Flagged(e, c) <==> MAD_CONSTANT * (e.duration as real - c.center) > MAD_Z_THRESHOLD * c.mad
  {
    var t := MAD_CONSTANT * (e.duration as real - c.center);
    assert MAD_Z_THRESHOLD * c.mad / c.mad == MAD_Z_THRESHOLD;
    QuotientOrder(t, MAD_Z_THRESHOLD * c.mad, c.mad);
  }

  /** Descending duration, ties by ascending node id. */
  function ByDuration(): (Entry, Entry) -> bool {
    (a: Entry, b: Entry) => a.duration > b.duration || (a.duration == b.duration && LexLeq(a.node, b.node))
  }

  lemma ByDurationIsOrder()
    ensures TotalOrder(ByDuration())
  {
    forall x: Entry, y: Entry
      ensures ByDuration()(x, y) || ByDuration()(y, x)
      ensures ByDuration()(x, y) && ByDuration()(y, x) ==> x == y
    {
      LexTotal(x.node, y.node);
    }
    forall x: Entry, y: Entry, z: Entry | ByDuration()(x, y) && ByDuration()(y, z)
      ensures ByDuration()(x, z)
    {
      if LexLeq(x.node, y.node) && LexLeq(y.node, z.node) {
        LexTransitive(x.node, y.node, z.node);
      }
    }
  }

  /** Scores rise with durations, so the ranking is the ranking by duration, whatever the scale. */
  lemma RankingIsByDuration(d: seq<Entry>)
    requires d != []
    ensures Ranking(d) == SortBy(ByDuration(), d)
    ensures Ordered(ByDuration(), Ranking(d))
    ensures multiset(Ranking(d)) == multiset(d) && |Ranking(d)| == |d|
  {
    var c := ScaleOf(d);
    forall x: Entry, y: Entry
      ensures ByScore(c)(x, y) == ByDuration()(x, y)
    {
      ScoreOrder(x, y, c);
    }
    SortByAgree(ByScore(c), ByDuration(), d);
    ByDurationIsOrder();
    SortByCorrect(ByDuration(), d);
  }

  lemma ScoreOrder(x: Entry, y: Entry, c: Scale)
    requires c.mad > 0.0
    ensures Score(x, c) > Score(y, c) <==> x.duration > y.duration
    ensures Score(x, c) == Score(y, c) <==> x.duration == y.duration
  {
    QuotientOrder(
      MAD_CONSTANT * (x.duration as real - c.center), MAD_CONSTANT * (y.duration as real - c.center), c.mad);
  }
}
