/** Small definitions shared by every module of the model. */
module Common {

  datatype Option<+T> = None | Some(value: T)

  /** One octet on the wire. */
  type Byte = x: int | 0 <= x < 0x100

  /** Some element of a nonempty set. */
  ghost function Pick<T>(s: set<T>): (x: T)
    requires s != {}
    ensures x in s
  {
    var x :| x in s; x
  }

  lemma SubsetSize<T>(s: set<T>, r: set<T>)
    requires s <= r
    ensures |s| <= |r|
  {
    assert r == s + (r - s);
  }

  lemma EqualSizeSubset<T>(s: set<T>, r: set<T>)
    requires s <= r && |s| >= |r|
    ensures s == r
  {
    assert r == s + (r - s);
    assert |r| == |s| + |r - s|;
    assert r - s == {};
  }

  /** `p` is a prefix of `s` and is not all of it. */
  ghost predicate StrictPrefix<T>(p: seq<T>, s: seq<T>) {
    p <= s && |p| < |s|
  }

  lemma Associative<T>(a: seq<T>, b: seq<T>, c: seq<T>)
    ensures a + b + c == a + (b + c)
  {
  }
}
