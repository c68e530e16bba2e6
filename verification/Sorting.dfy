/** Sorting by a comparison, and the lexicographic order on strings. */
module Sorting {

  function InsertBy<T>(leq: (T, T) -> bool, x: T, s: seq<T>): seq<T> {
    if s == [] then [x]
    else if leq(x, s[0]) then [x] + s
    else [s[0]] + InsertBy(leq, x, s[1..])
  }

  function SortBy<T>(leq: (T, T) -> bool, s: seq<T>): seq<T> {
    if s == [] then [] else InsertBy(leq, s[0], SortBy(leq, s[1..]))
  }

  ghost predicate TotalOrder<T(!new)>(leq: (T, T) -> bool) {
    && (forall x, y :: leq(x, y) || leq(y, x))
    && (forall x, y :: leq(x, y) && leq(y, x) ==> x == y)
    && (forall x, y, z :: leq(x, y) && leq(y, z) ==> leq(x, z))
  }

  ghost predicate Ordered<T>(leq: (T, T) -> bool, s: seq<T>) {
    forall i, j :: 0 <= i < j < |s| ==> leq(s[i], s[j])
  }

  lemma {:induction false} InsertByContents<T>(leq: (T, T) -> bool, x: T, s: seq<T>)
    ensures multiset(InsertBy(leq, x, s)) == multiset{x} + multiset(s)
    ensures |InsertBy(leq, x, s)| == |s| + 1
    ensures forall y :: y in InsertBy(leq, x, s) <==> y == x || y in s
  {
    if s != [] {
      assert s == [s[0]] + s[1..];
      if !leq(x, s[0]) {
        InsertByContents(leq, x, s[1..]);
      }
    }
  }

  lemma {:induction false} InsertByOrdered<T(!new)>(leq: (T, T) -> bool, x: T, s: seq<T>)
    requires TotalOrder(leq) && Ordered(leq, s)
    ensures Ordered(leq, InsertBy(leq, x, s))
  {
    if s != [] && !leq(x, s[0]) {
      InsertByOrdered(leq, x, s[1..]);
      InsertByContents(leq, x, s[1..]);
      var t := InsertBy(leq, x, s[1..]);
      forall y | y in t
        ensures leq(s[0], y)
      {
      }
      OrderedCons(leq, s[0], t);
    } else if s != [] {
      OrderedCons(leq, x, s);
    }
  }

  lemma OrderedCons<T>(leq: (T, T) -> bool, x: T, s: seq<T>)
    requires Ordered(leq, s) && forall y <- s :: leq(x, y)
    ensures Ordered(leq, [x] + s)
  {
  }

  lemma {:induction false} SortByContents<T>(leq: (T, T) -> bool, s: seq<T>)
    ensures multiset(SortBy(leq, s)) == multiset(s) && |SortBy(leq, s)| == |s|
    ensures forall y :: y in SortBy(leq, s) <==> y in s
  {
    if s != [] {
      SortByContents(leq, s[1..]);
      InsertByContents(leq, s[0], SortBy(leq, s[1..]));
      assert s == [s[0]] + s[1..];
    }
  }

  /** Sorting gives the same elements in order. */
  lemma {:induction false} SortByCorrect<T(!new)>(leq: (T, T) -> bool, s: seq<T>)
    requires TotalOrder(leq)
    ensures Ordered(leq, SortBy(leq, s))
    ensures multiset(SortBy(leq, s)) == multiset(s) && |SortBy(leq, s)| == |s|
    ensures forall y :: y in SortBy(leq, s) <==> y in s
  {
    SortByContents(leq, s);
    if s != [] {
      SortByCorrect(leq, s[1..]);
      InsertByOrdered(leq, s[0], SortBy(leq, s[1..]));
    }
  }

  /** An ordered sequence is determined by its elements. */
  lemma {:induction false} OrderedUnique<T(!new)>(leq: (T, T) -> bool, s: seq<T>, t: seq<T>)
    requires TotalOrder(leq) && Ordered(leq, s) && Ordered(leq, t) && multiset(s) == multiset(t)
    ensures s == t
  {
    hide TotalOrder, Ordered;
    if s == [] {
      assert |multiset(t)| == 0;
    } else {
      SameFirst(leq, s, t);
      DropFirst(leq, s);
      DropFirst(leq, t);
      assert s == [s[0]] + s[1..] && t == [t[0]] + t[1..];
      OrderedUnique(leq, s[1..], t[1..]);
    }
  }

  lemma SameFirst<T(!new)>(leq: (T, T) -> bool, s: seq<T>, t: seq<T>)
    requires TotalOrder(leq) && Ordered(leq, s) && Ordered(leq, t) && multiset(s) == multiset(t) && s != []
    ensures t != [] && s[0] == t[0]
  {
    assert s[0] in multiset(s) && s[0] in t;
    assert t[0] in multiset(t) && t[0] in s;
  }

  lemma DropFirst<T(!new)>(leq: (T, T) -> bool, s: seq<T>)
    requires s != [] && Ordered(leq, s)
    ensures Ordered(leq, s[1..]) && multiset(s[1..]) == multiset(s) - multiset{s[0]}
  {
    assert s == [s[0]] + s[1..];
  }

  /** Comparisons that agree sort alike. */
  lemma {:induction false} SortByAgree<T(!new)>(f: (T, T) -> bool, g: (T, T) -> bool, s: seq<T>)
    requires forall x, y :: f(x, y) == g(x, y)
    ensures SortBy(f, s) == SortBy(g, s)
  {
    if s != [] {
      SortByAgree(f, g, s[1..]);
      InsertByAgree(f, g, s[0], SortBy(f, s[1..]));
    }
  }

  lemma {:induction false} InsertByAgree<T(!new)>(f: (T, T) -> bool, g: (T, T) -> bool, x: T, s: seq<T>)
    requires forall x, y :: f(x, y) == g(x, y)
    ensures InsertBy(f, x, s) == InsertBy(g, x, s)
  {
    if s != [] {
      InsertByAgree(f, g, x, s[1..]);
    }
  }

  lemma SortByMember<T>(leq: (T, T) -> bool, s: seq<T>, y: T)
    requires y in SortBy(leq, s)
    ensures y in s
  {
    SortByContents(leq, s);
  }

  /** Sorting commutes with a map that respects the comparisons. */
  lemma {:induction false} SortByMap<T, U>(f: (T, T) -> bool, g: (U, U) -> bool, h: T -> U, s: seq<T>)
    requires forall x <- s, y <- s :: f(x, y) == g(h(x), h(y))
    ensures SortBy(g, Map(h, s)) == Map(h, SortBy(f, s))
  {
    if s != [] {
      SortByMap(f, g, h, s[1..]);
      assert Map(h, s)[1..] == Map(h, s[1..]);
      forall y | y in SortBy(f, s[1..])
        ensures f(s[0], y) == g(h(s[0]), h(y))
      {
        SortByMember(f, s[1..], y);
      }
      InsertByMap(f, g, h, s[0], SortBy(f, s[1..]));
    }
  }

  lemma {:induction false} InsertByMap<T, U>(f: (T, T) -> bool, g: (U, U) -> bool, h: T -> U, x: T, s: seq<T>)
    requires forall y <- s :: f(x, y) == g(h(x), h(y))
    ensures InsertBy(g, h(x), Map(h, s)) == Map(h, InsertBy(f, x, s))
  {
    if s != [] {
      InsertByMap(f, g, h, x, s[1..]);
      assert Map(h, s)[1..] == Map(h, s[1..]);
    }
  }

  function Map<T, U>(h: T -> U, s: seq<T>): (t: seq<U>)
    ensures |t| == |s|
    ensures forall i :: 0 <= i < |s| ==> t[i] == h(s[i])
  {
    seq(|s|, i requires 0 <= i < |s| => h(s[i]))
  }

  lemma MapCons<T, U>(h: T -> U, x: T, s: seq<T>)
    ensures multiset(Map(h, [x] + s)) == multiset{h(x)} + multiset(Map(h, s))
  {
    assert Map(h, [x] + s) == [h(x)] + Map(h, s);
  }

  lemma {:induction false} MapInserted<T, U>(leq: (T, T) -> bool, h: T -> U, x: T, s: seq<T>)
    ensures multiset(Map(h, InsertBy(leq, x, s))) == multiset{h(x)} + multiset(Map(h, s))
  {
    hide Map;
    if s == [] {
      MapCons(h, x, []);
      assert [x] + [] == [x];
    } else if leq(x, s[0]) {
      MapCons(h, x, s);
    } else {
      MapInserted(leq, h, x, s[1..]);
      MapCons(h, s[0], InsertBy(leq, x, s[1..]));
      MapCons(h, s[0], s[1..]);
      assert [s[0]] + s[1..] == s;
    }
  }

  lemma {:induction false} MapSorted<T, U>(leq: (T, T) -> bool, h: T -> U, s: seq<T>)
    ensures multiset(Map(h, SortBy(leq, s))) == multiset(Map(h, s))
  {
    if s != [] {
      MapSorted(leq, h, s[1..]);
      MapInserted(leq, h, s[0], SortBy(leq, s[1..]));
      MapCons(h, s[0], s[1..]);
      assert [s[0]] + s[1..] == s;
    }
  }

  lemma SortByPermuted<T(!new)>(leq: (T, T) -> bool, s: seq<T>, t: seq<T>)
    requires TotalOrder(leq) && multiset(s) == multiset(t)
    ensures SortBy(leq, s) == SortBy(leq, t)
  {
    SortByCorrect(leq, s);
    SortByCorrect(leq, t);
    OrderedUnique(leq, SortBy(leq, s), SortBy(leq, t));
  }

  /** Mapping a permutation gives a permutation. */
  lemma MapPermuted<T(!new), U>(leq: (T, T) -> bool, h: T -> U, s: seq<T>, t: seq<T>)
    requires TotalOrder(leq) && multiset(s) == multiset(t)
    ensures multiset(Map(h, s)) == multiset(Map(h, t))
  {
    SortByPermuted(leq, s, t);
    MapSorted(leq, h, s);
    MapSorted(leq, h, t);
  }

  function Zip<T, U>(s: seq<T>, t: seq<U>): (z: seq<(T, U)>)
    requires |s| == |t|
    ensures |z| == |s|
    ensures forall i :: 0 <= i < |s| ==> z[i] == (s[i], t[i])
  {
    seq(|s|, i requires 0 <= i < |s| => (s[i], t[i]))
  }

  /** Two lists whose elements compare alike, position by position, are rearranged alike. */
  lemma SortByPaired<T, U>(f: (T, T) -> bool, g: (U, U) -> bool, s: seq<T>, t: seq<U>, k: nat) returns (i: nat)
    requires |s| == |t| && k < |s|
    requires forall i, j :: 0 <= i < |s| && 0 <= j < |s| ==> f(s[i], s[j]) == g(t[i], t[j])
    ensures |SortBy(f, s)| == |SortBy(g, t)| == |s|
    ensures i < |s| && SortBy(f, s)[k] == s[i] && SortBy(g, t)[k] == t[i]
  {
    var z := Zip(s, t);
    var both := (p: (T, U), q: (T, U)) => f(p.0, q.0);
    var left, right := (p: (T, U)) => p.0, (p: (T, U)) => p.1;
    assert Map(left, z) == s && Map(right, z) == t;
    forall p, q | p in z && q in z
      ensures both(p, q) == g(right(p), right(q))
    {
      var a :| 0 <= a < |z| && z[a] == p;
      var b :| 0 <= b < |z| && z[b] == q;
      assert f(s[a], s[b]) == g(t[a], t[b]);
    }
    SortByMap(both, f, left, z);
    SortByMap(both, g, right, z);
    SortByContents(both, z);
    SortByMember(both, z, SortBy(both, z)[k]);
    i :| 0 <= i < |z| && z[i] == SortBy(both, z)[k];
  }

  // ---------- strings

  /** Lexicographic order by code point, as Python compares strings. */
  predicate LexLeq(a: string, b: string) {
    if a == [] then true
    else if b == [] then false
    else if a[0] != b[0] then a[0] < b[0]
    else LexLeq(a[1..], b[1..])
  }

  /** The order in terms of positions: a prefix comes first, and otherwise the first difference decides. */
  lemma {:induction false} LexLeqExactly(a: string, b: string)
    ensures LexLeq(a, b) <==>
            a <= b || exists i :: 0 <= i < |a| && i < |b| && a[..i] == b[..i] && a[i] < b[i]
  {
    if a != [] && b != [] {
      var x, y := a[1..], b[1..];
      LexLeqExactly(x, y);
      assert a == [a[0]] + x && b == [b[0]] + y;
      if a[0] == b[0] {
        if i :| 0 <= i < |x| && i < |y| && x[..i] == y[..i] && x[i] < y[i] {
          assert a[..i + 1] == [a[0]] + x[..i] && b[..i + 1] == [b[0]] + y[..i];
          assert a[i + 1] < b[i + 1];
        }
        if i :| 0 <= i < |a| && i < |b| && a[..i] == b[..i] && a[i] < b[i] {
          assert i > 0 && x[..i - 1] == a[..i][1..] && y[..i - 1] == b[..i][1..];
          assert x[i - 1] < y[i - 1];
        }
      } else if a[0] < b[0] {
        assert a[..0] == b[..0];
      } else {
        forall i | 0 < i < |a| && i < |b|
          ensures a[..i] != b[..i]
        {
          assert a[..i][0] == a[0] && b[..i][0] == b[0];
        }
      }
    }
  }

  lemma {:induction false} LexTotal(a: string, b: string)
    ensures LexLeq(a, b) || LexLeq(b, a)
    ensures LexLeq(a, b) && LexLeq(b, a) ==> a == b
  {
    if a != [] && b != [] && a[0] == b[0] {
      LexTotal(a[1..], b[1..]);
      assert a == [a[0]] + a[1..] && b == [b[0]] + b[1..];
    }
  }

  lemma {:induction false} LexTransitive(a: string, b: string, c: string)
    requires LexLeq(a, b) && LexLeq(b, c)
    ensures LexLeq(a, c)
  {
    if a != [] && b != [] && c != [] && a[0] == b[0] == c[0] {
      LexTransitive(a[1..], b[1..], c[1..]);
    }
  }
}
