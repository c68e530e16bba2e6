/** The k-th smallest element and the median of a list of reals, characterised by counting. */
module OrderStatistics {
  import opened Sorting

  function Leq(): (real, real) -> bool {
    (x: real, y: real) => x <= y
  }

  lemma LeqIsOrder()
    ensures TotalOrder(Leq())
  {
  }

  function Sorted(s: seq<real>): seq<real> {
    SortBy(Leq(), s)
  }

  /** The k-th smallest element, counting from 0. */
  function Kth(s: seq<real>, k: nat): real
    requires k < |s|
  {
    LeqIsOrder();
    SortByCorrect(Leq(), s);
    Sorted(s)[k]
  }

  function Median(s: seq<real>): real
    requires s != []
  {
    var n := |s|;
    if n % 2 == 1 then Kth(s, n / 2) else (Kth(s, n / 2 - 1) + Kth(s, n / 2)) / 2.0
  }

  /** How many elements are smaller than `x`, or at most `x`. */
  function Tally(s: seq<real>, x: real, inclusive: bool): (count: nat)
    ensures count <= |s|
  {
    if s == [] then 0
    else Tally(s[1..], x, inclusive) + if s[0] < x || (inclusive && s[0] == x) then 1 else 0
  }

  /** `x` is the k-th smallest value. */
  ghost predicate IsKth(s: seq<real>, k: nat, x: real) {
    Tally(s, x, false) <= k < Tally(s, x, true)
  }

  lemma {:induction false} TallyGrows(s: seq<real>, x: real, y: real)
    ensures x < y ==> Tally(s, x, true) <= Tally(s, y, false)
    ensures x <= y ==> Tally(s, x, true) <= Tally(s, y, true)
    ensures Tally(s, x, false) <= Tally(s, x, true)
  {
    if s != [] {
      TallyGrows(s[1..], x, y);
    }
  }

  lemma {:induction false} TallyInsert(v: real, s: seq<real>, x: real, inclusive: bool)
    ensures Tally(InsertBy(Leq(), v, s), x, inclusive) == Tally([v] + s, x, inclusive)
  {
    assert ([v] + s)[1..] == s;
    if s != [] && !Leq()(v, s[0]) {
      TallyInsert(v, s[1..], x, inclusive);
      var t := InsertBy(Leq(), v, s[1..]);
      assert ([s[0]] + t)[1..] == t;
      assert ([v] + s[1..])[1..] == s[1..];
    }
  }

  lemma {:induction false} TallySorted(s: seq<real>, x: real, inclusive: bool)
    ensures Tally(Sorted(s), x, inclusive) == Tally(s, x, inclusive)
  {
    if s != [] {
      TallySorted(s[1..], x, inclusive);
      TallyInsert(s[0], Sorted(s[1..]), x, inclusive);
      var t := Sorted(s[1..]);
      assert ([s[0]] + t)[1..] == t;
    }
  }

  /** In an ordered list, position k separates the counts. */
  lemma {:induction false} OrderedTally(t: seq<real>, k: nat, x: real, inclusive: bool)
    requires Ordered(Leq(), t) && k <= |t|
    ensures (forall i :: 0 <= i < k ==> t[i] < x || (inclusive && t[i] == x)) ==> Tally(t, x, inclusive) >= k
    ensures (forall i :: k <= i < |t| ==> !(t[i] < x || (inclusive && t[i] == x))) ==> Tally(t, x, inclusive) <= k
  {
    if t != [] {
      forall i | 0 <= i < |t| - 1
        ensures t[1..][i] == t[i + 1]
      {
      }
      OrderedTally(t[1..], if k == 0 then 0 else k - 1, x, inclusive);
    }
  }

  lemma SortedAscends(s: seq<real>)
    ensures |Sorted(s)| == |s| && Ordered(Leq(), Sorted(s))
    ensures forall i, j :: 0 <= i <= j < |s| ==> Sorted(s)[i] <= Sorted(s)[j]
  {
    LeqIsOrder();
    SortByCorrect(Leq(), s);
    var t := Sorted(s);
    forall i, j | 0 <= i < j < |t|
      ensures t[i] <= t[j]
    {
      assert Leq()(t[i], t[j]);
    }
  }

  lemma KthIsKth(s: seq<real>, k: nat)
    requires k < |s|
    ensures IsKth(s, k, Kth(s, k))
  {
    hide Ordered, SortBy, InsertBy, Sorted, Tally;
    SortedAscends(s);
    var t, x := Sorted(s), Kth(s, k);
    OrderedTally(t, k, x, false);
    OrderedTally(t, k + 1, x, true);
    TallySorted(s, x, false);
    TallySorted(s, x, true);
  }

  lemma KthUnique(s: seq<real>, k: nat, x: real)
    requires k < |s| && IsKth(s, k, x)
    ensures Kth(s, k) == x
  {
    KthIsKth(s, k);
    TallyGrows(s, x, Kth(s, k));
    TallyGrows(s, Kth(s, k), x);
  }

  // ---------- how the k-th value moves

  /** Only the elements matter, not their order. */
  lemma KthPermuted(s: seq<real>, t: seq<real>, k: nat)
    requires multiset(s) == multiset(t) && k < |s|
    ensures |t| == |s| && Kth(t, k) == Kth(s, k)
  {
    LeqIsOrder();
    SortByCorrect(Leq(), s);
    SortByCorrect(Leq(), t);
    OrderedUnique(Leq(), Sorted(s), Sorted(t));
    assert |multiset(s)| == |s| && |multiset(t)| == |t|;
  }

  lemma KthGrows(s: seq<real>, j: nat, k: nat)
    requires j <= k < |s|
    ensures Kth(s, j) <= Kth(s, k)
  {
    LeqIsOrder();
    SortByCorrect(Leq(), s);
    if j < k {
      assert Leq()(Sorted(s)[j], Sorted(s)[k]);
    }
  }

  /** The k-th value is one of the values, and a lower bound of the values bounds it. */
  lemma KthIsMember(s: seq<real>, k: nat)
    requires k < |s|
    ensures Kth(s, k) in s
  {
    LeqIsOrder();
    SortByCorrect(Leq(), s);
    assert Sorted(s)[k] in Sorted(s);
  }

  lemma {:induction false} TallyUpdate(s: seq<real>, i: nat, y: real, x: real, inclusive: bool)
    requires i < |s| && (s[i] < x || (inclusive && s[i] == x)) == (y < x || (inclusive && y == x))
    ensures Tally(s[i := y], x, inclusive) == Tally(s, x, inclusive)
  {
    if i > 0 {
      TallyUpdate(s[1..], i - 1, y, x, inclusive);
      assert s[i := y][1..] == s[1..][i - 1 := y];
    } else {
      assert s[i := y][1..] == s[1..];
    }
  }

  /** Raising an element above the k-th value leaves the k-th value where it is. */
  lemma RaiseKeepsKth(s: seq<real>, i: nat, y: real, k: nat)
    requires i < |s| && k < |s| && Kth(s, k) < s[i] <= y
    ensures Kth(s[i := y], k) == Kth(s, k)
  {
    KthIsKth(s, k);
    TallyUpdate(s, i, y, Kth(s, k), false);
    TallyUpdate(s, i, y, Kth(s, k), true);
    KthUnique(s[i := y], k, Kth(s, k));
  }

  lemma RaiseKeepsMedian(s: seq<real>, i: nat, y: real)
    requires i < |s| && Kth(s, |s| / 2) < s[i] <= y
    ensures Median(s[i := y]) == Median(s)
  {
    RaiseKeepsKth(s, i, y, |s| / 2);
    if |s| % 2 == 0 {
      KthGrows(s, |s| / 2 - 1, |s| / 2);
      RaiseKeepsKth(s, i, y, |s| / 2 - 1);
    }
  }

  function Times(k: real, x: real): real {
    k * x
  }

  /** `t` is `s` stretched by `k` and shifted by `c`. */
  ghost predicate Affine(s: seq<real>, k: real, c: real, t: seq<real>) {
    |t| == |s| && forall i :: 0 <= i < |s| ==> t[i] == Times(k, s[i]) + c
  }

  lemma TimesOrder(k: real, a: real, b: real)
    requires k > 0.0
    ensures Times(k, a) < Times(k, b) <==> a < b
    ensures Times(k, a) == Times(k, b) <==> a == b
  {
    if a < b {
      assert k * (b - a) > 0.0;
    } else if b < a {
      assert k * (a - b) > 0.0;
    }
  }

  lemma TimesLinear(k: real, a: real, b: real)
    ensures Times(k, a) - Times(k, b) == Times(k, a - b)
    ensures (Times(k, a) + Times(k, b)) / 2.0 == Times(k, (a + b) / 2.0)
    ensures Times(1.0, a) == a
  {
  }

  lemma {:induction false} TallyAffine(s: seq<real>, k: real, c: real, t: seq<real>, x: real, inclusive: bool)
    requires k > 0.0 && Affine(s, k, c, t)
    ensures Tally(t, Times(k, x) + c, inclusive) == Tally(s, x, inclusive)
  {
    if s != [] {
      hide Times;
      TallyAffine(s[1..], k, c, t[1..], x, inclusive);
      TimesOrder(k, s[0], x);
    }
  }

  lemma KthAffine(s: seq<real>, k: real, c: real, t: seq<real>, j: nat)
    requires k > 0.0 && Affine(s, k, c, t) && j < |s|
    ensures Kth(t, j) == Times(k, Kth(s, j)) + c
  {
    hide Times;
    KthIsKth(s, j);
    TallyAffine(s, k, c, t, Kth(s, j), false);
    TallyAffine(s, k, c, t, Kth(s, j), true);
    KthUnique(t, j, Times(k, Kth(s, j)) + c);
  }

  lemma MedianAffine(s: seq<real>, k: real, c: real, t: seq<real>)
    requires k > 0.0 && Affine(s, k, c, t) && s != []
    ensures Median(t) == Times(k, Median(s)) + c
  {
    hide Times;
    KthAffine(s, k, c, t, |s| / 2);
    if |s| % 2 == 0 {
      var a, b := Kth(s, |s| / 2 - 1), Kth(s, |s| / 2);
      KthAffine(s, k, c, t, |s| / 2 - 1);
      TimesLinear(k, a, b);
    }
  }

  lemma {:induction false} TallyAppend(s: seq<real>, v: real, x: real, inclusive: bool)
    ensures Tally(s + [v], x, inclusive) == Tally(s, x, inclusive) + if v < x || (inclusive && v == x) then 1 else 0
  {
    if s != [] {
      TallyAppend(s[1..], v, x, inclusive);
      assert (s + [v])[1..] == s[1..] + [v];
    } else {
      assert (s + [v])[1..] == [];
    }
  }

  /** Adding one more value: the k-th value stays if the new one is not below it, and moves up one place if
      the new one is not above it. */
  lemma KthAppend(s: seq<real>, v: real, k: nat)
    requires k < |s|
    ensures v >= Kth(s, k) ==> Kth(s + [v], k) == Kth(s, k)
    ensures v <= Kth(s, k) ==> Kth(s + [v], k + 1) == Kth(s, k)
  {
    var x := Kth(s, k);
    KthIsKth(s, k);
    TallyAppend(s, v, x, false);
    TallyAppend(s, v, x, true);
    if v >= x {
      KthUnique(s + [v], k, x);
    }
    if v <= x {
      KthUnique(s + [v], k + 1, x);
    }
  }
}
