/** What a straggler report says, in terms of the durations and the numbers of the method. */
module StragglerReport {
  import opened Common
  import opened Sorting
  import opened OrderStatistics
  import opened Straggler
  import opened StragglerProperties

  /** `m` is the middle of the values: half the sum of the two that a count from either end meets, which are one
      and the same for an odd number. */
  ghost predicate IsMiddle(vs: seq<real>, m: real) {
    exists low, high :: AreMiddle(vs, low, high) && m == (low + high) / 2.0
  }

  ghost predicate AreMiddle(vs: seq<real>, low: real, high: real) {
    vs != [] && IsKth(vs, (|vs| - 1) / 2, low) && IsKth(vs, |vs| / 2, high)
  }

  lemma MedianIsMiddle(vs: seq<real>)
    requires vs != []
    ensures IsMiddle(vs, Median(vs))
  {
    var a, b := (|vs| - 1) / 2, |vs| / 2;
    KthIsKth(vs, a);
    KthIsKth(vs, b);
    hide IsKth, Kth;
    assert AreMiddle(vs, Kth(vs, a), Kth(vs, b)) && Median(vs) == (Kth(vs, a) + Kth(vs, b)) / 2.0;
  }

  lemma MiddleUnique(vs: seq<real>, m: real)
    requires vs != [] && IsMiddle(vs, m)
    ensures m == Median(vs)
  {
    var low, high :| AreMiddle(vs, low, high) && m == (low + high) / 2.0;
    KthUnique(vs, (|vs| - 1) / 2, low);
    KthUnique(vs, |vs| / 2, high);
    hide IsKth, Kth;
  }

  /** The centre of the scores is the median duration. */
  lemma CenterExactly(d: seq<Entry>, vs: seq<real>)
    requires d != [] && |vs| == |d| && forall i :: 0 <= i < |d| ==> vs[i] == d[i].duration as real
    ensures IsMiddle(vs, ScaleOf(d).center)
  {
    hide Median;
    assert vs == Values(d);
    MedianIsMiddle(vs);
  }

  /** Their unit is the median distance from it, but at least a millisecond. */
  lemma ScaleExactly(d: seq<Entry>, ds: seq<real>, mad: real)
    requires d != [] && |ds| == |d| && IsMiddle(ds, mad)
    requires forall i :: 0 <= i < |d| ==>
               var v, c := d[i].duration as real, ScaleOf(d).center; ds[i] == if v < c then c - v else v - c
    ensures ScaleOf(d).mad == if mad > 1_000_000.0 then mad else 1_000_000.0
  {
    hide Median, IsMiddle;
    assert ds == Deviations(Values(d), ScaleOf(d).center);
    MiddleUnique(ds, mad);
  }

  /** A score is 0.6745 times the distance from the centre in that unit, and above 3.5 it is a flag. */
  lemma ScoreExactly(e: Entry, c: Scale)
    requires c.mad > 0.0
    ensures RankedNodeOf(e, c).node == e.node && RankedNodeOf(e, c).duration == e.duration
    ensures RankedNodeOf(e, c).z * c.mad == 0.6745 * (e.duration as real - c.center)
    ensures RankedNodeOf(e, c).flagged <==> 0.6745 * (e.duration as real - c.center) > 3.5 * c.mad
  {
    FlaggedLinear(e, c);
    QuotientTimes(0.6745 * (e.duration as real - c.center), c.mad);
  }

  lemma QuotientTimes(a: real, b: real)
    requires b > 0.0
    ensures a / b * b == a
  {
  }

  /** Below three nodes there is no ranking. */
  lemma TooFewNodes(d: seq<Entry>)
    requires |d| < 3
    ensures RankStragglers(d) == Report(InsufficientEvidence, [], None, None)
  {
  }

  /** From three nodes on the report ranks exactly the given nodes by descending duration, ties by ascending node
      id; and the candidate is the first node if it is flagged, and else there is none. */
  lemma ReportExactly(d: seq<Entry>) returns (order: seq<Entry>)
    requires |d| >= 3
    ensures var r, c := RankStragglers(d), ScaleOf(d);
            && multiset(order) == multiset(d) && |order| == |r.ranked| == |d| && r.status == Ranked
            && (forall i, j :: 0 <= i < j < |order| ==>
                  order[i].duration > order[j].duration ||
                  (order[i].duration == order[j].duration && LexLeq(order[i].node, order[j].node)))
            && (forall i :: 0 <= i < |order| ==> r.ranked[i] == RankedNodeOf(order[i], c))
            && r.top == if r.ranked[0].flagged then Some(r.ranked[0].node) else None
  {
    RankingIsByDuration(d);
    TopIsFirst(d);
    order := Ranking(d);
    forall i, j | 0 <= i < j < |order|
      ensures ByDuration()(order[i], order[j])
    {
    }
    hide ScaleOf, Ranking, FirstFlagged;
  }

  /** The naive pick does not depend on flags: it is the last of the nodes by duration, ties by node id. */
  lemma NaiveExactly(d: seq<Entry>)
    requires |d| >= 3
    ensures exists x ::
              && x in d && RankStragglers(d).naive == Some(x.node)
              && forall e <- d ::
                   e.duration < x.duration || (e.duration == x.duration && LexLeq(e.node, x.node))
  {
    SlowestIsLast(d);
    hide Ranking, ScaleOf, FirstFlagged;
    var x := Slowest(d);
    forall e | e in d
      ensures e.duration < x.duration || (e.duration == x.duration && LexLeq(e.node, x.node))
    {
      assert AtMostAsSlow(e, x);
    }
  }
}
