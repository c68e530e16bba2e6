/** What the straggler ranking guarantees: breakdown, isolation, invariance, and its relation to the naive
    baseline. */
module StragglerProperties {
  import opened Common
  import opened Sorting
  import opened OrderStatistics
  import opened Straggler

  // ---------- the middle of the durations is never flagged

  lemma MedianAtLeast(s: seq<real>, low: real)
    requires s != [] && forall v <- s :: v >= low
    ensures Median(s) >= low
  {
    KthIsMember(s, |s| / 2);
    if |s| % 2 == 0 {
      KthIsMember(s, |s| / 2 - 1);
    }
  }

  lemma DeviationMembers(vs: seq<real>, center: real, low: real)
    requires forall v <- vs :: Abs(v - center) >= low
    ensures forall x <- Deviations(vs, center) :: x >= low
  {
    var ds := Deviations(vs, center);
    forall x | x in ds
      ensures x >= low
    {
      var i :| 0 <= i < |ds| && ds[i] == x;
      assert vs[i] in vs;
    }
  }

  lemma RawMadIsNotNegative(vs: seq<real>)
    requires vs != []
    ensures RawMad(vs) >= 0.0
  {
    DeviationMembers(vs, Median(vs), 0.0);
    MedianAtLeast(Deviations(vs, Median(vs)), 0.0);
  }

  /** No value lies strictly between two neighbours in sorted order. */
  lemma NothingBetween(vs: seq<real>, k: nat, v: real)
    requires 0 < k < |vs| && v in vs
    ensures v <= Kth(vs, k - 1) || v >= Kth(vs, k)
  {
    LeqIsOrder();
    SortByCorrect(Leq(), vs);
    assert v in Sorted(vs);
    var i :| 0 <= i < |vs| && Sorted(vs)[i] == v;
    if i < k {
      KthGrows(vs, i, k - 1);
    } else {
      KthGrows(vs, k, i);
    }
  }

  /** The upper middle value is at most one MAD above the median. */
  lemma UpperMiddleWithinMad(vs: seq<real>)
    requires vs != []
    ensures Median(vs) <= Kth(vs, |vs| / 2) <= Median(vs) + RawMad(vs)
  {
    var n, med := |vs|, Median(vs);
    RawMadIsNotNegative(vs);
    if n % 2 == 0 {
      var a, b := Kth(vs, n / 2 - 1), Kth(vs, n / 2);
      KthGrows(vs, n / 2 - 1, n / 2);
      forall v | v in vs
        ensures Abs(v - med) >= b - med
      {
        NothingBetween(vs, n / 2, v);
      }
      DeviationMembers(vs, med, b - med);
      MedianAtLeast(Deviations(vs, med), b - med);
    }
  }

  lemma MadBounds(d: seq<Entry>)
    requires d != []
    ensures ScaleOf(d).mad >= RawMad(Values(d)) && ScaleOf(d).mad >= MAD_FLOOR_NS
  {
  }

  lemma FlaggedIsAboveMiddle(d: seq<Entry>, e: Entry)
    requires d != [] && Flagged(e, ScaleOf(d))
    ensures e.duration as real > Kth(Values(d), |d| / 2)
    ensures e.duration as real - ScaleOf(d).center > 2.0 * ScaleOf(d).mad
  {
    FlaggedLinear(e, ScaleOf(d));
    UpperMiddleWithinMad(Values(d));
  }

  // ---------- breakdown

  function FlaggedCount(rs: seq<RankedNode>): nat {
    if rs == [] then 0 else FlaggedCount(rs[1..]) + if rs[0].flagged then 1 else 0
  }

  lemma {:induction false} FlaggedCountAtMost(rs: seq<RankedNode>, k: nat)
    requires forall i :: k <= i < |rs| ==> !rs[i].flagged
    ensures FlaggedCount(rs) <= k
  {
    if rs != [] {
      FlaggedCountAtMost(rs[1..], if k == 0 then 0 else k - 1);
    }
  }

  /** The value at place i of the ranking is the i-th largest duration. */
  lemma RankingPlace(d: seq<Entry>, i: nat)
    requires d != [] && i < |d|
    ensures |Ranking(d)| == |d|
    ensures Ranking(d)[i].duration as real == Kth(Values(d), |d| - 1 - i)
  {
    hide Kth, Tally, SortBy, Map, IsKth;
    RankingIsByDuration(d);
    var x := Ranking(d)[i].duration as real;
    TallyDescending(Ranking(d), i, x);
    KthUnique(Values(Ranking(d)), |d| - 1 - i, x);
    MapSorted(ByDuration(), Duration, d);
    KthPermuted(Values(Ranking(d)), Values(d), |d| - 1 - i);
  }

  lemma TallyDescending(r: seq<Entry>, i: nat, x: real)
    requires Ordered(ByDuration(), r) && i < |r| && x == r[i].duration as real
    ensures IsKth(Values(r), |r| - 1 - i, x)
  {
    forall j, k | 0 <= j <= k < |r|
      ensures r[j].duration >= r[k].duration
    {
      assert j < k ==> ByDuration()(r[j], r[k]);
    }
    TallyDrop(Values(r), i + 1, x, false);
    TallyDrop(Values(r), i, x, true);
  }

  /** If the first k values are not counted, at most the others are; if the others are counted, they all are. */
  lemma {:induction false} TallyDrop(s: seq<real>, k: nat, x: real, inclusive: bool)
    requires k <= |s|
    ensures (forall i :: 0 <= i < k ==> !(s[i] < x || (inclusive && s[i] == x))) ==> Tally(s, x, inclusive) <= |s| - k
    ensures (forall i :: k <= i < |s| ==> s[i] < x || (inclusive && s[i] == x)) ==> Tally(s, x, inclusive) >= |s| - k
  {
    if s != [] {
      forall i | 0 <= i < |s| - 1
        ensures s[1..][i] == s[i + 1]
      {
      }
      TallyDrop(s[1..], if k == 0 then 0 else k - 1, x, inclusive);
    }
  }

  /** Fewer than half of the nodes are flagged, for every batch of three or more. */
  lemma StrictMinority(d: seq<Entry>)
    requires |d| >= MIN_REPORTING_NODES
    ensures var r := RankStragglers(d).ranked; |r| == |d| && 2 * FlaggedCount(r) < |r|
  {
    var c, n := ScaleOf(d), |d|;
    var ranked := RankedNodes(Ranking(d), c);
    RankingIsByDuration(d);
    forall i | n - 1 - n / 2 <= i < n
      ensures !ranked[i].flagged
    {
      RankingPlace(d, i);
      KthGrows(Values(d), n - 1 - i, n / 2);
      if Flagged(Ranking(d)[i], c) {
        FlaggedIsAboveMiddle(d, Ranking(d)[i]);
        assert false;
      }
    }
    FlaggedCountAtMost(ranked, n - 1 - n / 2);
  }

  // ---------- isolation of a flagged straggler

  lemma UpperDeviation(vs: seq<real>)
    requires vs != []
    ensures Kth(Deviations(vs, Median(vs)), |vs| / 2) <= 2.0 * RawMad(vs)
  {
    var ds := Deviations(vs, Median(vs));
    RawMadIsNotNegative(vs);
    if |vs| % 2 == 0 {
      DeviationMembers(vs, Median(vs), 0.0);
      KthIsMember(ds, |vs| / 2 - 1);
    }
  }

  function Raise(d: seq<Entry>, i: nat, duration: int): seq<Entry>
    requires i < |d|
  {
    d[i := Entry(d[i].node, duration)]
  }

  /** Raising a flagged node moves neither the median nor the scale. */
  lemma RaiseKeepsScale(d: seq<Entry>, i: nat, duration: int)
    requires i < |d| && Flagged(d[i], ScaleOf(d)) && duration >= d[i].duration
    ensures ScaleOf(Raise(d, i, duration)) == ScaleOf(d)
  {
    var vs, y := Values(d), duration as real;
    var med := Median(vs);
    FlaggedIsAboveMiddle(d, d[i]);
    MadBounds(d);
    UpperDeviation(vs);
    RawMadIsNotNegative(vs);
    assert Values(Raise(d, i, duration)) == vs[i := y];
    RaiseKeepsMedian(vs, i, y);
    assert Deviations(vs[i := y], med) == Deviations(vs, med)[i := Abs(y - med)];
    RaiseKeepsMedian(Deviations(vs, med), i, Abs(y - med));
  }

  lemma RankedMembers(d: seq<Entry>, r: RankedNode)
    requires |d| >= MIN_REPORTING_NODES
    ensures r in RankStragglers(d).ranked <==> exists e :: e in d && r == RankedNodeOf(e, ScaleOf(d))
  {
    var c, order := ScaleOf(d), Ranking(d);
    var ranked := RankedNodes(order, c);
    RankingIsByDuration(d);
    if r in ranked {
      var i :| 0 <= i < |ranked| && ranked[i] == r;
      assert order[i] in multiset(d);
    }
    if e :| e in d && r == RankedNodeOf(e, c) {
      assert e in multiset(order);
      var i :| 0 <= i < |order| && order[i] == e;
      assert ranked[i] == r;
    }
  }

  /** Raising the duration of an already flagged node changes no other node's score or flag; the node itself
      stays flagged, with a score at least as large, and larger if its duration grew. */
  lemma FlaggedNodeIsIsolated(d: seq<Entry>, i: nat, duration: int, r: RankedNode)
    requires |d| >= MIN_REPORTING_NODES && IsDict(d) && i < |d|
    requires Flagged(d[i], ScaleOf(d)) && duration >= d[i].duration
    ensures r.node != d[i].node ==>
              (r in RankStragglers(Raise(d, i, duration)).ranked <==> r in RankStragglers(d).ranked)
    ensures var raised := RankedNodeOf(Raise(d, i, duration)[i], ScaleOf(d));
            && raised in RankStragglers(Raise(d, i, duration)).ranked
            && raised.flagged
            && raised.z >= Score(d[i], ScaleOf(d))
            && (duration > d[i].duration ==> raised.z > Score(d[i], ScaleOf(d)))
  {
    var c, after := ScaleOf(d), Raise(d, i, duration);
    RaiseKeepsScale(d, i, duration);
    RankedMembers(d, r);
    RankedMembers(after, r);
    RankedMembers(after, RankedNodeOf(after[i], c));
    ScoreOrder(after[i], d[i], c);
    assert after[i] in after;
    forall e: Entry | e.node != d[i].node
      ensures e in after <==> e in d
    {
      if e in d {
        var j :| 0 <= j < |d| && d[j] == e;
        assert after[j] == e;
      }
    }
  }

  // ---------- invariances

  /** The pair that the naive baseline picks. */
  predicate AtMostAsSlow(a: Entry, b: Entry) {
    a.duration < b.duration || (a.duration == b.duration && LexLeq(a.node, b.node))
  }

  lemma {:induction false} SlowestIsLast(d: seq<Entry>)
    requires d != []
    ensures Slowest(d) in d && forall e <- d :: AtMostAsSlow(e, Slowest(d))
  {
    LexTotal(d[0].node, d[0].node);
    if |d| > 1 {
      SlowestIsLast(d[1..]);
      var best := Slowest(d[1..]);
      LexTotal(d[0].node, best.node);
      forall e | e in d
        ensures AtMostAsSlow(e, Slowest(d))
      {
        assert e == d[0] || e in d[1..];
        if LexLeq(e.node, best.node) && LexLeq(best.node, d[0].node) {
          LexTransitive(e.node, best.node, d[0].node);
        }
      }
    }
  }

  lemma SlowestUnique(d: seq<Entry>, e: Entry)
    requires d != [] && e in d && forall x <- d :: AtMostAsSlow(x, e)
    ensures Slowest(d) == e
  {
    SlowestIsLast(d);
    LexTotal(e.node, Slowest(d).node);
  }

  /** The report depends on the durations only, not on the order in which the nodes reported. */
  lemma ReportIgnoresOrder(d: seq<Entry>, e: seq<Entry>)
    requires multiset(d) == multiset(e)
    ensures RankStragglers(d) == RankStragglers(e)
  {
    assert |multiset(d)| == |d| && |multiset(e)| == |e|;
    if |d| >= MIN_REPORTING_NODES {
      SameScale(d, e);
      RankingIsByDuration(d);
      RankingIsByDuration(e);
      ByDurationIsOrder();
      SortByPermuted(ByDuration(), d, e);
      SlowestIsLast(d);
      assert Slowest(d) in multiset(e);
      assert forall x :: x in e ==> x in multiset(d);
      SlowestUnique(e, Slowest(d));
    }
  }

  lemma MedianPermuted(s: seq<real>, t: seq<real>)
    requires multiset(s) == multiset(t) && s != []
    ensures t != [] && Median(t) == Median(s)
  {
    KthPermuted(s, t, |s| / 2);
    if |s| % 2 == 0 {
      KthPermuted(s, t, |s| / 2 - 1);
    }
  }

  lemma SameScale(d: seq<Entry>, e: seq<Entry>)
    requires multiset(d) == multiset(e) && d != [] && e != []
    ensures ScaleOf(d) == ScaleOf(e)
  {
    var vs, ws := Values(d), Values(e);
    ByDurationIsOrder();
    MapPermuted(ByDuration(), Duration, d, e);
    MedianPermuted(vs, ws);
    LeqIsOrder();
    MapPermuted(Leq(), From(Median(vs)), vs, ws);
    MedianPermuted(Deviations(vs, Median(vs)), Deviations(ws, Median(vs)));
  }

  function Later(c: int): Entry -> Entry {
    (e: Entry) => Entry(e.node, e.duration + c)
  }

  /** Adding a constant to every duration changes no score, flag or place. */
  lemma ShiftInvariance(d: seq<Entry>, c: int)
    requires |d| >= MIN_REPORTING_NODES
    ensures var r, s := RankStragglers(d), RankStragglers(Map(Later(c), d));
            && s.top == r.top && s.naive == r.naive && |s.ranked| == |r.ranked|
            && forall i :: 0 <= i < |r.ranked| ==> s.ranked[i] == r.ranked[i].(duration := r.ranked[i].duration + c)
  {
    hide Ranking, ScaleOf, RankedNodes, FirstFlagged, Slowest, Map, Ordered, RankedNodeOf, Values, SortBy;
    var e := Map(Later(c), d);
    ShiftScale(d, c);
    ShiftRanking(d, c);
    RankingIsByDuration(d);
    ShiftRankedNodes(Ranking(d), ScaleOf(d), c);
    ShiftSlowest(d, c);
    SameFirstFlagged(RankedNodes(Ranking(d), ScaleOf(d)), RankedNodes(Ranking(e), ScaleOf(e)));
  }

  lemma ShiftRankedNodes(es: seq<Entry>, s: Scale, c: int)
    requires s.mad > 0.0
    ensures var r, t := RankedNodes(es, s), RankedNodes(Map(Later(c), es), s.(center := s.center + c as real));
            |t| == |r| == |es| && forall i :: 0 <= i < |r| ==> t[i] == r[i].(duration := r[i].duration + c)
  {
    forall i | 0 <= i < |es|
      ensures RankedNodeOf(Later(c)(es[i]), s.(center := s.center + c as real))
              == RankedNodeOf(es[i], s).(duration := es[i].duration + c)
    {
      SameRank(es[i], s, c);
    }
  }

  lemma ShiftRanking(d: seq<Entry>, c: int)
    requires d != []
    ensures Ranking(Map(Later(c), d)) == Map(Later(c), Ranking(d))
  {
    RankingIsByDuration(d);
    RankingIsByDuration(Map(Later(c), d));
    SortByMap(ByDuration(), ByDuration(), Later(c), d);
  }

  lemma SameRank(e: Entry, s: Scale, c: int)
    requires s.mad > 0.0
    ensures RankedNodeOf(Later(c)(e), s.(center := s.center + c as real))
            == RankedNodeOf(e, s).(duration := e.duration + c)
  {
    assert (e.duration + c) as real - (s.center + c as real) == e.duration as real - s.center;
  }

  lemma ShiftSlowest(d: seq<Entry>, c: int)
    requires d != []
    ensures Slowest(Map(Later(c), d)) == Later(c)(Slowest(d))
  {
    var e, best := Map(Later(c), d), Slowest(d);
    SlowestIsLast(d);
    var i :| 0 <= i < |d| && d[i] == best;
    assert e[i] in e;
    forall x | x in e
      ensures AtMostAsSlow(x, Later(c)(best))
    {
      var j :| 0 <= j < |e| && e[j] == x;
      assert d[j] in d;
    }
    SlowestUnique(e, Later(c)(best));
  }

  lemma ShiftScale(d: seq<Entry>, c: int)
    requires d != []
    ensures ScaleOf(Map(Later(c), d)) == ScaleOf(d).(center := ScaleOf(d).center + c as real)
  {
    var vs, ws := Values(d), Values(Map(Later(c), d));
    TimesLinear(1.0, 0.0, 0.0);
    assert Affine(vs, 1.0, c as real, ws);
    MedianAffine(vs, 1.0, c as real, ws);
    assert Deviations(ws, Median(ws)) == Deviations(vs, Median(vs));
  }

  lemma {:induction false} SameFirstFlagged(r: seq<RankedNode>, s: seq<RankedNode>)
    requires |r| == |s|
    requires forall i :: 0 <= i < |r| ==> r[i].node == s[i].node && r[i].flagged == s[i].flagged
    ensures FirstFlagged(r) == FirstFlagged(s)
  {
    if r != [] {
      SameFirstFlagged(r[1..], s[1..]);
    }
  }

  /** The same nodes with durations `k` times as long. */
  ghost predicate Stretched(d: seq<Entry>, k: real, e: seq<Entry>) {
    |e| == |d| &&
    forall i :: 0 <= i < |d| ==> e[i].node == d[i].node && e[i].duration as real == Times(k, d[i].duration as real)
  }

  lemma StretchScale(d: seq<Entry>, k: real, e: seq<Entry>)
    requires k > 0.0 && d != [] && Stretched(d, k, e)
    ensures ScaleOf(e).center == Times(k, ScaleOf(d).center)
    ensures RawMad(Values(e)) == Times(k, RawMad(Values(d)))
  {
    hide Times;
    var vs, ws := Values(d), Values(e);
    assert Affine(vs, k, 0.0, ws);
    MedianAffine(vs, k, 0.0, ws);
    var ds, es := Deviations(vs, Median(vs)), Deviations(ws, Median(ws));
    forall i | 0 <= i < |ds|
      ensures es[i] == Times(k, ds[i])
    {
      StretchedAbs(k, vs[i], Median(vs));
    }
    assert Affine(ds, k, 0.0, es);
    MedianAffine(ds, k, 0.0, es);
  }

  lemma StretchedAbs(k: real, a: real, b: real)
    requires k > 0.0
    ensures Abs(Times(k, a) - Times(k, b)) == Times(k, Abs(a - b))
  {
  }

  /** Multiplying every duration by a positive factor keeps the order of the nodes. A factor of one or more
      unflags nobody, and the flags are the same when the floor binds neither before nor after. */
  lemma StretchInvariance(d: seq<Entry>, k: real, e: seq<Entry>, i: nat)
    requires |d| >= MIN_REPORTING_NODES && k > 0.0 && Stretched(d, k, e) && i < |d| == |e|
    ensures var r, s := RankStragglers(d).ranked, RankStragglers(e).ranked;
            && |r| == |s| == |d|
            && s[i].node == r[i].node
            && (k >= 1.0 && r[i].flagged ==> s[i].flagged)
            && (RawMad(Values(d)) >= MAD_FLOOR_NS && RawMad(Values(e)) >= MAD_FLOOR_NS ==> s[i].flagged == r[i].flagged)
  {
    hide *;
    RankedAt(d, i);
    RankedAt(e, i);
    var j := StretchPlace(d, k, e, i);
    StretchFlags(d, k, e, j);
  }

  lemma RankedAt(d: seq<Entry>, i: nat)
    requires |d| >= MIN_REPORTING_NODES && i < |d|
    ensures |RankStragglers(d).ranked| == |Ranking(d)| == |d|
    ensures RankStragglers(d).ranked[i].node == Ranking(d)[i].node
    ensures RankStragglers(d).ranked[i].flagged == Flagged(Ranking(d)[i], ScaleOf(d))
  {
    RankingIsByDuration(d);
  }

  lemma StretchPlace(d: seq<Entry>, k: real, e: seq<Entry>, i: nat) returns (j: nat)
    requires d != [] && k > 0.0 && Stretched(d, k, e) && i < |d|
    ensures j < |d| == |e| && e[j].node == d[j].node
    ensures |Ranking(d)| == |Ranking(e)| == |d| && Ranking(d)[i] == d[j] && Ranking(e)[i] == e[j]
  {
    hide Times, SortBy, Ranking;
    RankingIsByDuration(d);
    RankingIsByDuration(e);
    forall a, b | 0 <= a < |d| && 0 <= b < |d|
      ensures ByDuration()(d[a], d[b]) == ByDuration()(e[a], e[b])
    {
      TimesOrder(k, d[a].duration as real, d[b].duration as real);
    }
    j := SortByPaired(ByDuration(), ByDuration(), d, e, i);
  }

  lemma StretchFlags(d: seq<Entry>, k: real, e: seq<Entry>, j: nat)
    requires d != [] && k > 0.0 && Stretched(d, k, e) && j < |d|
    ensures k >= 1.0 && Flagged(d[j], ScaleOf(d)) ==> Flagged(e[j], ScaleOf(e))
    ensures RawMad(Values(d)) >= MAD_FLOOR_NS && RawMad(Values(e)) >= MAD_FLOOR_NS ==>
              (Flagged(d[j], ScaleOf(d)) <==> Flagged(e[j], ScaleOf(e)))
  {
    hide Times, RawMad, Values, Flagged;
    StretchScale(d, k, e);
    FlaggedLinear(d[j], ScaleOf(d));
    FlaggedLinear(e[j], ScaleOf(e));
    var v, med, mad := d[j].duration as real, ScaleOf(d).center, ScaleOf(d).mad;
    TimesLinear(k, v, med);
    TimesFactor(k, v - med, mad);
    if k >= 1.0 {
      TimesGrows(k, mad);
      TimesOrder(k, RawMad(Values(d)), mad);
    }
  }

  /** A stretched excess is above the line drawn by the stretched scale exactly when it was before. */
  lemma TimesFactor(k: real, excess: real, mad: real)
    requires k > 0.0
    ensures MAD_CONSTANT * Times(k, excess) > MAD_Z_THRESHOLD * Times(k, mad) <==>
            MAD_CONSTANT * excess > MAD_Z_THRESHOLD * mad
  {
    TimesOrder(k, MAD_Z_THRESHOLD * mad, MAD_CONSTANT * excess);
    assert Times(k, MAD_Z_THRESHOLD * mad) == MAD_Z_THRESHOLD * Times(k, mad);
    assert Times(k, MAD_CONSTANT * excess) == MAD_CONSTANT * Times(k, excess);
  }

  lemma TimesGrows(k: real, x: real)
    requires k >= 1.0 && x >= 0.0
    ensures Times(k, x) >= x
  {
    assert (k - 1.0) * x >= 0.0;
  }

  // ---------- the naive baseline

  /** Flagged nodes form a prefix of the ranking. */
  lemma FlaggedPrefix(d: seq<Entry>, i: nat, j: nat)
    requires |d| >= MIN_REPORTING_NODES && i <= j < |RankStragglers(d).ranked|
    ensures var r := RankStragglers(d).ranked; r[j].flagged ==> r[i].flagged
  {
    RankingIsByDuration(d);
    var order := Ranking(d);
    if i < j {
      assert ByDuration()(order[i], order[j]);
    }
    ScoreOrder(order[i], order[j], ScaleOf(d));
  }

  lemma {:induction false} NoneFlagged(rs: seq<RankedNode>)
    requires forall r <- rs :: !r.flagged
    ensures FirstFlagged(rs) == None
  {
    if rs != [] {
      NoneFlagged(rs[1..]);
    }
  }

  lemma FirstFlaggedIsFirst(rs: seq<RankedNode>)
    requires forall i, j :: 0 <= i <= j < |rs| && rs[j].flagged ==> rs[i].flagged
    ensures FirstFlagged(rs) == if rs != [] && rs[0].flagged then Some(rs[0].node) else None
  {
    if rs != [] && !rs[0].flagged {
      forall r | r in rs
        ensures !r.flagged
      {
        var j :| 0 <= j < |rs| && rs[j] == r;
        if rs[j].flagged {
          assert 0 <= 0 <= j < |rs|;
        }
      }
      NoneFlagged(rs);
    }
  }

  /** Nobody else is as slow as the slowest node. */
  ghost predicate UniqueSlowest(d: seq<Entry>)
    requires d != []
  {
    forall e <- d :: e.duration == Slowest(d).duration ==> e == Slowest(d)
  }

  /** There is a candidate exactly when the largest duration is flagged; the candidate then has the largest
      duration, and it is the naive baseline's pick exactly when that duration is not tied. */
  lemma BaselineDominance(d: seq<Entry>)
    requires |d| >= MIN_REPORTING_NODES && IsDict(d)
    ensures var r := RankStragglers(d);
            && (r.top.Some? <==> Flagged(Slowest(d), ScaleOf(d)))
            && (r.top.Some? ==> exists e :: e in d && e.node == r.top.value && e.duration == Slowest(d).duration)
            && (r.top.Some? ==> (r.top == r.naive <==> UniqueSlowest(d)))
  {
    TopIsFirst(d);
    FirstIsSlowest(d);
    ScoreOrder(Ranking(d)[0], Slowest(d), ScaleOf(d));
    FirstIsNaive(d);
  }

  lemma FirstIsSlowest(d: seq<Entry>)
    requires d != []
    ensures |Ranking(d)| > 0 && Ranking(d)[0] in d && Ranking(d)[0].duration == Slowest(d).duration
    ensures forall e <- d :: e.duration == Slowest(d).duration ==> LexLeq(Ranking(d)[0].node, e.node)
  {
    RankingIsByDuration(d);
    SlowestIsLast(d);
    FirstIsFirst(d, Ranking(d)[0]);
    assert ByDuration()(Ranking(d)[0], Slowest(d)) && AtMostAsSlow(Ranking(d)[0], Slowest(d));
  }

  lemma FirstIsNaive(d: seq<Entry>)
    requires d != [] && IsDict(d)
    ensures |Ranking(d)| > 0 && (Ranking(d)[0].node == Slowest(d).node <==> UniqueSlowest(d))
  {
    FirstIsSlowest(d);
    SlowestIsLast(d);
    var first, last := Ranking(d)[0], Slowest(d);
    if first.node == last.node {
      forall e | e in d && e.duration == last.duration
        ensures e == last
      {
        LexTotal(e.node, last.node);
      }
    }
  }

  // ---------- duplicating the median node

  /** Adding a fresh node that took exactly the median time, to an odd number of nodes, keeps the median, does
      not raise the scale, and so unflags nobody; an existing candidate survives. */
  lemma MedianDuplication(d: seq<Entry>, x: Entry)
    requires |d| >= MIN_REPORTING_NODES && |d| % 2 == 1 && IsDict(d + [x])
    requires x.duration as real == ScaleOf(d).center
    ensures ScaleOf(d + [x]).center == ScaleOf(d).center && ScaleOf(d + [x]).mad <= ScaleOf(d).mad
    ensures forall e :: Flagged(e, ScaleOf(d)) ==> Flagged(e, ScaleOf(d + [x]))
    ensures RankStragglers(d).top.Some? ==> RankStragglers(d + [x]).top == RankStragglers(d).top
  {
    DuplicateScale(d, x);
    var c, m := ScaleOf(d), ScaleOf(d + [x]);
    forall e | Flagged(e, c)
      ensures Flagged(e, m)
    {
      FlaggedLinear(e, c);
      FlaggedLinear(e, m);
    }
    hide RankStragglers, Ranking, ScaleOf, DuplicatedScale;
    if RankStragglers(d).top.Some? {
      TopIsFirst(d);
      DuplicationCandidateExactly(d, x);
      FlaggedLinear(Ranking(d)[0], m);
    }
  }

  /** The scale after the median node of an odd batch is duplicated: instead of the middle deviation, the mean of
      that and the next smaller one. */
  function DuplicatedScale(d: seq<Entry>): (c: Scale)
    requires |d| >= MIN_REPORTING_NODES
    ensures c.mad >= MAD_FLOOR_NS
  {
    var center := ScaleOf(d).center;
    var ds := Deviations(Values(d), center);
    var raw := (Kth(ds, |d| / 2 - 1) + Kth(ds, |d| / 2)) / 2.0;
    Scale(center, if raw > MAD_FLOOR_NS then raw else MAD_FLOOR_NS)
  }

  lemma DuplicateScale(d: seq<Entry>, x: Entry)
    requires |d| >= MIN_REPORTING_NODES && |d| % 2 == 1 && x.duration as real == ScaleOf(d).center
    ensures ScaleOf(d + [x]) == DuplicatedScale(d)
    ensures DuplicatedScale(d).center == ScaleOf(d).center && DuplicatedScale(d).mad <= ScaleOf(d).mad
  {
    hide Kth;
    var vs, n, med := Values(d), |d|, ScaleOf(d).center;
    assert Values(d + [x]) == vs + [med];
    KthAppend(vs, med, n / 2);
    var ds := Deviations(vs, med);
    assert Deviations(vs + [med], med) == ds + [0.0];
    DeviationMembers(vs, med, 0.0);
    KthIsMember(ds, n / 2 - 1);
    KthIsMember(ds, n / 2);
    KthAppend(ds, 0.0, n / 2 - 1);
    KthAppend(ds, 0.0, n / 2);
    KthGrows(ds, n / 2 - 1, n / 2);
  }

  lemma TopIsFirst(d: seq<Entry>)
    requires |d| >= MIN_REPORTING_NODES
    ensures |Ranking(d)| == |d|
    ensures RankStragglers(d).top == if Flagged(Ranking(d)[0], ScaleOf(d)) then Some(Ranking(d)[0].node) else None
  {
    var r := RankStragglers(d).ranked;
    RankingIsByDuration(d);
    forall i, j | 0 <= i <= j < |r| && r[j].flagged
      ensures r[i].flagged
    {
      FlaggedPrefix(d, i, j);
    }
    FirstFlaggedIsFirst(r);
  }

  /** The first node of the ranking stays first, if it is above the median. */
  lemma DuplicateFirst(d: seq<Entry>, x: Entry)
    requires d != [] && |Ranking(d)| > 0 && Ranking(d)[0].duration > x.duration
    ensures |Ranking(d + [x])| > 0 && Ranking(d + [x])[0] == Ranking(d)[0]
  {
    var first := Ranking(d)[0];
    FirstIsFirst(d, first);
    forall e | e in d + [x]
      ensures ByDuration()(first, e)
    {
      assert e in d || e == x;
    }
    FirstUnique(d + [x], first);
  }

  /** If nobody is above the median, the duplicate changes nothing about that. */
  lemma DuplicateNoHigher(d: seq<Entry>, x: Entry)
    requires d != [] && |Ranking(d)| > 0 && Ranking(d)[0].duration <= x.duration
    ensures |Ranking(d + [x])| > 0 && Ranking(d + [x])[0].duration <= x.duration
  {
    RankingIsByDuration(d + [x]);
    FirstIsFirst(d, Ranking(d)[0]);
    FirstIsFirst(d + [x], Ranking(d + [x])[0]);
  }

  /** Exactly when duplicating the median node of an odd batch leaves or creates a candidate, and which: the first
      node of the old ranking, if it is flagged on the new scale. */
  lemma DuplicationCandidateExactly(d: seq<Entry>, x: Entry)
    requires |d| >= MIN_REPORTING_NODES && |d| % 2 == 1 && x.duration as real == ScaleOf(d).center
    ensures |Ranking(d)| == |d| && Ranking(d)[0].duration == Slowest(d).duration
    ensures RankStragglers(d + [x]).top ==
            var c := DuplicatedScale(d);
            if MAD_CONSTANT * (Slowest(d).duration as real - c.center) > MAD_Z_THRESHOLD * c.mad
            then Some(Ranking(d)[0].node) else None
  {
    hide RankStragglers, Ranking, ScaleOf, Slowest, Flagged, DuplicatedScale;
    DuplicateScale(d, x);
    FirstIsSlowest(d);
    TopIsFirst(d);
    var c, first := DuplicatedScale(d), Ranking(d)[0];
    TopIsFirst(d + [x]);
    FlaggedLinear(Ranking(d + [x])[0], c);
    if first.duration > x.duration {
      DuplicateFirst(d, x);
    } else {
      DuplicateNoHigher(d, x);
    }
  }

  lemma FirstIsFirst(d: seq<Entry>, first: Entry)
    requires d != [] && |Ranking(d)| > 0 && first == Ranking(d)[0]
    ensures first in d && forall e <- d :: ByDuration()(first, e)
  {
    RankingIsByDuration(d);
    var order := Ranking(d);
    assert order[0] in multiset(d);
    forall e | e in d
      ensures ByDuration()(first, e)
    {
      assert e in multiset(order);
      var i :| 0 <= i < |order| && order[i] == e;
      LexTotal(e.node, e.node);
      assert i > 0 ==> ByDuration()(order[0], order[i]);
    }
  }

  lemma FirstUnique(d: seq<Entry>, first: Entry)
    requires d != [] && first in d && forall e <- d :: ByDuration()(first, e)
    ensures |Ranking(d)| > 0 && Ranking(d)[0] == first
  {
    RankingIsByDuration(d);
    FirstIsFirst(d, Ranking(d)[0]);
    ByDurationIsOrder();
  }

  function One(v: real, x: real, inclusive: bool): nat {
    if v < x || (inclusive && v == x) then 1 else 0
  }

  lemma TallyCons(v: real, s: seq<real>, x: real, inclusive: bool)
    ensures Tally([v] + s, x, inclusive) == Tally(s, x, inclusive) + One(v, x, inclusive)
  {
    assert ([v] + s)[1..] == s;
  }

  lemma TallyThree(a: real, b: real, c: real, x: real, inclusive: bool)
    ensures Tally([a, b, c], x, inclusive) == One(a, x, inclusive) + One(b, x, inclusive) + One(c, x, inclusive)
  {
    TallyCons(c, [], x, inclusive);
    TallyCons(b, [c], x, inclusive);
    TallyCons(a, [b, c], x, inclusive);
    assert [a] + [b, c] == [a, b, c] && [b] + [c] == [b, c] && [c] + [] == [c];
  }

  lemma KthOfThree(a: real, b: real, c: real, k: nat, x: real)
    requires k < 3
    requires One(a, x, false) + One(b, x, false) + One(c, x, false) <= k
    requires k < One(a, x, true) + One(b, x, true) + One(c, x, true)
    ensures Kth([a, b, c], k) == x
  {
    TallyThree(a, b, c, x, false);
    TallyThree(a, b, c, x, true);
    KthUnique([a, b, c], k, x);
  }

  lemma KthOfFour(a: real, b: real, c: real, e: real, k: nat, x: real)
    requires k < 4
    requires One(a, x, false) + One(b, x, false) + One(c, x, false) + One(e, x, false) <= k
    requires k < One(a, x, true) + One(b, x, true) + One(c, x, true) + One(e, x, true)
    ensures Kth([a, b, c, e], k) == x
  {
    TallyThree(b, c, e, x, false);
    TallyThree(b, c, e, x, true);
    TallyCons(a, [b, c, e], x, false);
    TallyCons(a, [b, c, e], x, true);
    assert [a] + [b, c, e] == [a, b, c, e];
    KthUnique([a, b, c, e], k, x);
  }

  /** Three nodes without a candidate, and the same with the median node duplicated. */
  const SLOW := Entry("c", 140_000_000)
  const THREE := [Entry("a", 90_000_000), Entry("b", 100_000_000), SLOW]
  const FOURTH := Entry("d", 100_000_000)

  lemma ScaleOfThree()
    ensures ScaleOf(THREE) == Scale(100_000_000.0, 10_000_000.0)
  {
    hide Kth;
    var vs, ds := [90_000_000.0, 100_000_000.0, 140_000_000.0], [10_000_000.0, 0.0, 40_000_000.0];
    assert Values(THREE) == vs;
    KthOfThree(vs[0], vs[1], vs[2], 1, 100_000_000.0);
    assert Deviations(vs, 100_000_000.0) == ds;
    KthOfThree(ds[0], ds[1], ds[2], 1, 10_000_000.0);
  }

  lemma ScaleOfFour()
    ensures ScaleOf(THREE + [FOURTH]) == Scale(100_000_000.0, 5_000_000.0)
  {
    hide Kth;
    var med := 100_000_000.0;
    var vs, ds := [90_000_000.0, med, 140_000_000.0, med], [10_000_000.0, 0.0, 40_000_000.0, 0.0];
    assert Values(THREE + [FOURTH]) == vs;
    KthOfFour(vs[0], vs[1], vs[2], vs[3], 1, med);
    KthOfFour(vs[0], vs[1], vs[2], vs[3], 2, med);
    assert Deviations(vs, med) == ds;
    KthOfFour(ds[0], ds[1], ds[2], ds[3], 1, 0.0);
    KthOfFour(ds[0], ds[1], ds[2], ds[3], 2, 10_000_000.0);
  }

  /** A node slower than all others comes first. */
  lemma SlowIsFirst(d: seq<Entry>)
    requires SLOW in d && forall e <- d :: e == SLOW || e.duration < SLOW.duration
    ensures |Ranking(d)| > 0 && Ranking(d)[0] == SLOW
  {
    LexTotal(SLOW.node, SLOW.node);
    FirstUnique(d, SLOW);
  }

  /** Duplicating the median node can produce a candidate where there was none. */
  lemma DuplicationCanFlag()
    ensures FOURTH.duration as real == ScaleOf(THREE).center && IsDict(THREE + [FOURTH])
    ensures RankStragglers(THREE).top == None && RankStragglers(THREE + [FOURTH]).top == Some(SLOW.node)
  {
    hide Ranking, ScaleOf, RankStragglers;
    ScaleOfThree();
    ScaleOfFour();
    TopIsFirst(THREE);
    TopIsFirst(THREE + [FOURTH]);
    SlowIsFirst(THREE);
    assert (THREE + [FOURTH])[2] == SLOW;
    SlowIsFirst(THREE + [FOURTH]);
    FlaggedLinear(SLOW, ScaleOf(THREE));
    FlaggedLinear(SLOW, ScaleOf(THREE + [FOURTH]));
  }
}
