/** The Wilson score interval for a binomial proportion, over exact reals. */
module Wilson {

  const Z_95 := 1.959963984540054

  datatype Interval = Interval(lower: real, upper: real)

  datatype WilsonResult = Bounds(interval: Interval) | ValueError

  predicate IsRoot(s: real, x: real) {
    s >= 0.0 && s * s == x
  }

  /** `sqrt` is the square root on the numbers that are not negative. */
  ghost predicate IsSqrt(sqrt: real -> real) {
    forall x: real :: x >= 0.0 ==> IsRoot(sqrt(x), x)
  }

  /** Roots are what they should be, and there is at most one. */
  lemma RootOfSquare(root: real, s: real)
    requires root >= 0.0
    ensures IsRoot(root, root * root)
    ensures IsRoot(s, root * root) ==> s == root
  {
    if IsRoot(s, root * root) {
      SquareWithin(s, root);
    }
  }

  function Square(z: real): real {
    z * z
  }

  function Phat(successes: int, n: int): real
    requires n > 0
  {
    successes as real / n as real
  }

  function Radicand(phat: real, n: int, zSq: real): real
    requires n > 0
  {
    (phat * (1.0 - phat) + zSq / (4 * n) as real) / n as real
  }

  /** How strongly the interval is pulled towards one half. */
  function Weight(n: int, zSq: real): real
    requires n > 0
  {
    zSq / n as real
  }

  function Denominator(n: int, zSq: real): real
    requires n > 0
  {
    1.0 + Weight(n, zSq)
  }

  function Center(phat: real, n: int, zSq: real): real
    requires n > 0 && Denominator(n, zSq) != 0.0
  {
    (phat + zSq / (2 * n) as real) / Denominator(n, zSq)
  }

  function Margin(z: real, root: real, n: int, zSq: real): real
    requires n > 0 && Denominator(n, zSq) != 0.0
  {
    z * root / Denominator(n, zSq)
  }

  function ClampLow(x: real): real {
    if x > 0.0 then x else 0.0
  }

  function ClampHigh(x: real): real {
    if x < 1.0 then x else 1.0
  }

  function WilsonInterval(successes: int, n: int, z: real, sqrt: real -> real): WilsonResult {
    if n == 0 then Bounds(Interval(0.0, 1.0))
    else if successes < 0 || successes > n then ValueError
    else
      var phat, zSq := Phat(successes, n), Square(z);
      SquareSign(z);
      QuotientSign(zSq, n as real);
      var center := Center(phat, n, zSq);
      var margin := Margin(z, sqrt(Radicand(phat, n, zSq)), n, zSq);
      Bounds(Interval(ClampLow(center - margin), ClampHigh(center + margin)))
  }

  /** Without trials the interval says nothing, and impossible counts are refused. */
  lemma IntervalCases(successes: int, n: nat, z: real, sqrt: real -> real)
    ensures n == 0 ==> WilsonInterval(successes, n, z, sqrt) == Bounds(Interval(0.0, 1.0))
    ensures WilsonInterval(successes, n, z, sqrt) == ValueError <==> n > 0 && (successes < 0 || successes > n)
  {
  }

  // ---------- small facts about products

  lemma ProductSign(a: real, b: real)
    ensures a > 0.0 && b > 0.0 ==> a * b > 0.0
    ensures a >= 0.0 && b >= 0.0 ==> a * b >= 0.0
    ensures a > 0.0 && b < 0.0 ==> a * b < 0.0
  {
  }

  lemma ProductPositive(a: real, b: real)
    requires a > 0.0 && b > 0.0
    ensures a * b > 0.0
  {
  }

  lemma QuotientSign(a: real, b: real)
    requires b > 0.0
    ensures a > 0.0 ==> a / b > 0.0
    ensures a >= 0.0 ==> a / b >= 0.0
    ensures a / b * b == a
  {
  }

  lemma SquareSign(z: real)
    ensures Square(z) >= 0.0
  {
    if z > 0.0 {
      ProductPositive(z, z);
    } else if z < 0.0 {
      ProductPositive(-z, -z);
    }
  }

  lemma SquarePositive(z: real)
    requires z > 0.0
    ensures Square(z) > 0.0
  {
    var half := z / 2.0;
    ProductPositive(half, z);
    assert Square(z) == half * z + half * z;
  }

  lemma SquareWithin(a: real, q: real)
    requires q >= 0.0
    ensures a * a <= q * q <==> -q <= a <= q
    ensures a * a == q * q <==> a == q || a == -q
  {
    assert (q - a) * (q + a) == q * q - a * a;
    if -q <= a <= q {
      ProductSign(q - a, q + a);
    } else if a > q {
      ProductSign(q + a, q - a);
    } else {
      ProductSign(q - a, q + a);
    }
    if -q < a < q {
      ProductSign(q - a, q + a);
    }
  }

  // ---------- the interval in terms of phat and the weight w = z^2/n

  /** Not positive exactly between the two bounds. */
  function Excess(phat: real, w: real, p: real): real {
    Square(phat - p) - w * (p * (1.0 - p))
  }

  /** The bounds are (mid - half) / (1 + w) and (mid + half) / (1 + w), where half squared is this. */
  function HalfSquared(phat: real, w: real): real {
    w * (phat * (1.0 - phat) + w / 4.0)
  }

  function Mid(phat: real, w: real): real {
    phat + w / 2.0
  }

  lemma CompleteTheSquare(phat: real, w: real, p: real)
    ensures var a := (1.0 + w) * p - Mid(phat, w);
            a * a - HalfSquared(phat, w) == (1.0 + w) * Excess(phat, w, p)
  {
  }

  /** The two roots of the excess. */
  ghost predicate Ends(phat: real, w: real, half: real, lower: real, upper: real) {
    && w > 0.0 && 0.0 <= phat <= 1.0
    && half >= 0.0 && half * half == HalfSquared(phat, w)
    && (1.0 + w) * lower == Mid(phat, w) - half
    && (1.0 + w) * upper == Mid(phat, w) + half
  }

  lemma ScaleCompare(m: real, a: real, b: real)
    requires m > 0.0
    ensures m * a <= m * b <==> a <= b
    ensures m * a == m * b <==> a == b
  {
    if a < b {
      ProductSign(m, b - a);
      assert m * (b - a) == m * b - m * a;
    } else if b < a {
      ProductSign(m, a - b);
      assert m * (a - b) == m * a - m * b;
    }
  }

  /** A number lies between the bounds exactly when its excess is not positive, and its excess is zero exactly
      at the bounds. */
  lemma Inversion(phat: real, w: real, half: real, lower: real, upper: real, p: real)
    requires Ends(phat, w, half, lower, upper)
    ensures lower <= p <= upper <==> Excess(phat, w, p) <= 0.0
    ensures p == lower || p == upper <==> Excess(phat, w, p) == 0.0
  {
    var m := 1.0 + w;
    var a := m * p - Mid(phat, w);
    hide Excess, HalfSquared, Mid;
    CompleteTheSquare(phat, w, p);
    SquareWithin(a, half);
    ScaleCompare(m, lower, p);
    ScaleCompare(m, p, upper);
    ScaleCompare(m, Excess(phat, w, p), 0.0);
    assert m * 0.0 == 0.0;
  }

  lemma HalfSquaredSign(phat: real, w: real)
    requires w > 0.0 && 0.0 <= phat <= 1.0
    ensures HalfSquared(phat, w) > 0.0
  {
    ProductSign(phat, 1.0 - phat);
    var x := phat * (1.0 - phat) + w / 4.0;
    assert x > 0.0;
    ProductSign(w, x);
    assert HalfSquared(phat, w) == w * x;
  }

  /** The bounds lie in [0, 1] around phat, and are not equal; so the clamps never bind. */
  lemma EndsAreOrdered(phat: real, w: real, half: real, lower: real, upper: real)
    requires Ends(phat, w, half, lower, upper)
    ensures 0.0 <= lower <= phat <= upper <= 1.0 && lower < upper
  {
    HalfSquaredSign(phat, w);
    assert half > 0.0;
    Inversion(phat, w, half, lower, upper, phat);
    ExcessAt(phat, w);
    Inversion(phat, w, half, lower, upper, lower);
    InUnit(phat, w, lower);
    Inversion(phat, w, half, lower, upper, upper);
    InUnit(phat, w, upper);
    ScaleCompare(1.0 + w, upper, lower);
  }

  lemma ExcessAt(phat: real, w: real)
    requires w > 0.0 && 0.0 <= phat <= 1.0
    ensures Excess(phat, w, phat) <= 0.0
    ensures Excess(phat, w, phat) == 0.0 ==> phat == 0.0 || phat == 1.0
  {
    ProductSign(phat, 1.0 - phat);
    ProductSign(w, phat * (1.0 - phat));
    assert Excess(phat, w, phat) == -(w * (phat * (1.0 - phat)));
  }

  lemma FactorSign(w: real, q: real)
    requires w > 0.0 && w * q >= 0.0
    ensures q >= 0.0
  {
    if q < 0.0 {
      ProductSign(w, q);
    }
  }

  /** Only numbers between 0 and 1 have an excess that is not positive. */
  lemma InUnit(phat: real, w: real, p: real)
    requires w > 0.0 && Excess(phat, w, p) <= 0.0
    ensures 0.0 <= p <= 1.0
  {
    SquareSign(phat - p);
    FactorSign(w, p * (1.0 - p));
    if p < 0.0 {
      ProductSign(1.0 - p, p);
    } else if p > 1.0 {
      ProductSign(p, 1.0 - p);
    }
  }

  // ---------- the interval itself

  /** The computed interval is a pair of ends for some half width. */
  lemma IntervalEnds(successes: int, n: int, z: real, sqrt: real -> real) returns (half: real)
    requires IsSqrt(sqrt) && n > 0 && 0 <= successes <= n && z > 0.0
    ensures var r := WilsonInterval(successes, n, z, sqrt);
            r.Bounds? && Ends(Phat(successes, n), Weight(n, Square(z)), half, r.interval.lower, r.interval.upper)
  {
    hide Square, Phat, Weight, Center, Margin, Radicand, HalfSquared, Mid, Denominator;
    var phat, zSq, w := Phat(successes, n), Square(z), Weight(n, Square(z));
    PhatInUnit(successes, n);
    WeightPositive(n, z);
    HalfSquaredSign(phat, w);
    RadicandScaled(phat, n, zSq);
    var x := Radicand(phat, n, zSq);
    SquarePositive(z);
    SquareTimes(zSq, x, HalfSquared(phat, w));
    half := z * sqrt(x);
    HalfIsRoot(z, sqrt(x), x, HalfSquared(phat, w));
    CenterAndMargin(phat, n, z, sqrt(x));
    var center, margin := Center(phat, n, zSq), Margin(z, sqrt(x), n, zSq);
    Spread(1.0 + w, center, margin);
    EndsAreOrdered(phat, w, half, center - margin, center + margin);
  }

  lemma Spread(m: real, center: real, margin: real)
    ensures m * (center - margin) == m * center - m * margin
    ensures m * (center + margin) == m * center + m * margin
  {
  }

  lemma CenterAndMargin(phat: real, n: int, z: real, root: real)
    requires n > 0 && z > 0.0
    ensures Denominator(n, Square(z)) == 1.0 + Weight(n, Square(z)) > 0.0
    ensures (1.0 + Weight(n, Square(z))) * Center(phat, n, Square(z)) == Mid(phat, Weight(n, Square(z)))
    ensures (1.0 + Weight(n, Square(z))) * Margin(z, root, n, Square(z)) == z * root
  {
    var zSq, m := Square(z), Denominator(n, Square(z));
    WeightPositive(n, z);
    HalfWeight(zSq, n);
    QuotientSign(phat + zSq / (2 * n) as real, m);
    QuotientSign(z * root, m);
  }

  lemma WeightPositive(n: int, z: real)
    requires n > 0 && z > 0.0
    ensures Weight(n, Square(z)) > 0.0
  {
    SquarePositive(z);
    WeightSign(n, Square(z));
  }

  lemma WeightSign(n: int, zSq: real)
    requires n > 0 && zSq > 0.0
    ensures Weight(n, zSq) > 0.0
  {
    QuotientSign(zSq, n as real);
  }

  lemma PhatInUnit(successes: int, n: int)
    requires n > 0 && 0 <= successes <= n
    ensures 0.0 <= Phat(successes, n) <= 1.0
    ensures Phat(n - successes, n) == 1.0 - Phat(successes, n)
  {
    QuotientSign(successes as real, n as real);
    QuotientSign((n - successes) as real, n as real);
    SumOfParts(successes as real, (n - successes) as real, n as real);
  }

  lemma SumOfParts(a: real, b: real, m: real)
    requires m > 0.0 && a + b == m
    ensures a / m + b / m == 1.0
  {
    assert (a + b) / m == a / m + b / m;
  }

  lemma HalfWeight(zSq: real, n: int)
    requires n > 0
    ensures zSq / (2 * n) as real == zSq / n as real / 2.0
    ensures zSq / (4 * n) as real == zSq / n as real / 4.0
  {
  }

  /** z squared times the number under the root is the square of the half width. */
  lemma RadicandScaled(phat: real, n: int, zSq: real)
    requires n > 0
    ensures zSq * Radicand(phat, n, zSq) == HalfSquared(phat, Weight(n, zSq))
  {
    HalfWeight(zSq, n);
    var y := phat * (1.0 - phat) + zSq / n as real / 4.0;
    assert zSq * (y / n as real) == zSq / n as real * y;
  }

  lemma SquareTimes(zSq: real, x: real, product: real)
    requires zSq > 0.0 && zSq * x == product && product > 0.0
    ensures x >= 0.0
  {
    if x < 0.0 {
      ProductSign(zSq, x);
    }
  }

  lemma HalfIsRoot(z: real, s: real, x: real, product: real)
    requires z > 0.0 && s >= 0.0 && s * s == x && Square(z) * x == product
    ensures z * s >= 0.0 && z * s * (z * s) == product
  {
    ProductSign(z, s);
    assert z * s * (z * s) == Square(z) * (s * s);
  }

  /** The bounds for successes out of n, without naming the half width. */
  function Lower(successes: int, n: int, z: real, sqrt: real -> real): real
    requires n > 0 && 0 <= successes <= n
  {
    WilsonInterval(successes, n, z, sqrt).interval.lower
  }

  function Upper(successes: int, n: int, z: real, sqrt: real -> real): real
    requires n > 0 && 0 <= successes <= n
  {
    WilsonInterval(successes, n, z, sqrt).interval.upper
  }

  lemma BoundsAreEnds(successes: int, n: int, z: real, sqrt: real -> real) returns (half: real)
    requires IsSqrt(sqrt) && n > 0 && 0 <= successes <= n && z > 0.0
    ensures Ends(Phat(successes, n), Weight(n, Square(z)), half,
                 Lower(successes, n, z, sqrt), Upper(successes, n, z, sqrt))
  {
    half := IntervalEnds(successes, n, z, sqrt);
  }

  lemma ExcessTimesCount(phat: real, n: int, zSq: real, p: real)
    requires n > 0
    ensures n as real * Excess(phat, Weight(n, zSq), p) == n as real * Square(phat - p) - zSq * (p * (1.0 - p))
  {
    QuotientSign(zSq, n as real);
    var m, w, q := n as real, Weight(n, zSq), p * (1.0 - p);
    assert w * m == zSq;
    assert m * (w * q) == w * m * q;
    assert m * (Square(phat - p) - w * q) == m * Square(phat - p) - m * (w * q);
  }

  lemma ExcessSign(phat: real, n: int, zSq: real, p: real)
    requires n > 0
    ensures Excess(phat, Weight(n, zSq), p) <= 0.0 <==> n as real * Square(phat - p) <= zSq * (p * (1.0 - p))
    ensures Excess(phat, Weight(n, zSq), p) >= 0.0 <==> n as real * Square(phat - p) >= zSq * (p * (1.0 - p))
  {
    var e := Excess(phat, Weight(n, zSq), p);
    ExcessTimesCount(phat, n, zSq, p);
    hide Excess, Square, Weight;
    ScaleCompare(n as real, e, 0.0);
    ScaleCompare(n as real, 0.0, e);
    assert n as real * 0.0 == 0.0;
  }

  /** Inversion: p lies in the interval exactly when p is within z standard errors, at p, of the proportion. */
  lemma WilsonInversion(successes: int, n: int, z: real, sqrt: real -> real, p: real)
    requires IsSqrt(sqrt) && n > 0 && 0 <= successes <= n && z > 0.0
    ensures Lower(successes, n, z, sqrt) <= p <= Upper(successes, n, z, sqrt) <==>
            n as real * Square(Phat(successes, n) - p) <= Square(z) * (p * (1.0 - p))
  {
    hide *;
    var half := BoundsAreEnds(successes, n, z, sqrt);
    var phat, w := Phat(successes, n), Weight(n, Square(z));
    Inversion(phat, w, half, Lower(successes, n, z, sqrt), Upper(successes, n, z, sqrt), p);
    ExcessSign(phat, n, Square(z), p);
  }

  /** The interval is a proper one inside [0, 1] around the proportion. */
  lemma WilsonShape(successes: int, n: int, z: real, sqrt: real -> real)
    requires IsSqrt(sqrt) && n > 0 && 0 <= successes <= n && z > 0.0
    ensures 0.0 <= Lower(successes, n, z, sqrt) <= Phat(successes, n) <= Upper(successes, n, z, sqrt) <= 1.0
    ensures Lower(successes, n, z, sqrt) < Upper(successes, n, z, sqrt)
  {
    var half := BoundsAreEnds(successes, n, z, sqrt);
    EndsAreOrdered(Phat(successes, n), Weight(n, Square(z)), half,
                   Lower(successes, n, z, sqrt), Upper(successes, n, z, sqrt));
  }

  // ---------- symmetry and monotonicity

  lemma ExcessMirror(phat: real, w: real, p: real)
    ensures Excess(1.0 - phat, w, 1.0 - p) == Excess(phat, w, p)
  {
  }

  /** Counting failures instead of successes mirrors the interval. */
  lemma WilsonSymmetry(successes: int, n: int, z: real, sqrt: real -> real)
    requires IsSqrt(sqrt) && n > 0 && 0 <= successes <= n && z > 0.0
    ensures Lower(n - successes, n, z, sqrt) == 1.0 - Upper(successes, n, z, sqrt)
    ensures Upper(n - successes, n, z, sqrt) == 1.0 - Lower(successes, n, z, sqrt)
  {
    var w := Weight(n, Square(z));
    var a, b := Phat(successes, n), Phat(n - successes, n);
    var l, u := Lower(successes, n, z, sqrt), Upper(successes, n, z, sqrt);
    var l', u' := Lower(n - successes, n, z, sqrt), Upper(n - successes, n, z, sqrt);
    var half := BoundsAreEnds(successes, n, z, sqrt);
    var half' := BoundsAreEnds(n - successes, n, z, sqrt);
    PhatInUnit(successes, n);
    hide Phat, Weight, Lower, Upper, Excess;
    Inversion(a, w, half, l, u, l);
    Inversion(a, w, half, l, u, u);
    ExcessMirror(a, w, l);
    ExcessMirror(a, w, u);
    Inversion(b, w, half', l', u', 1.0 - l);
    Inversion(b, w, half', l', u', 1.0 - u);
    EndsAreOrdered(a, w, half, l, u);
  }

  /** The excess grows away from the proportion: below both, the larger proportion has the larger excess. */
  lemma ExcessGrows(a: real, b: real, w: real, p: real)
    requires p <= a < b
    ensures Excess(a, w, p) < Excess(b, w, p)
  {
    hide Square;
    SquareGrows(a - p, b - p);
  }

  lemma SquareOfSum(d: real, x: real)
    ensures Square(d + x) == Square(d) + 2.0 * (d * x) + Square(x)
  {
  }

  lemma SquareGrows(d: real, e: real)
    requires 0.0 <= d < e
    ensures Square(d) < Square(e)
  {
    var x := e - d;
    SquarePositive(x);
    ProductSign(d, x);
    SquareOfSum(d, x);
  }

  /** Both bounds rise strictly with the number of successes. */
  lemma WilsonMonotone(fewer: int, more: int, n: int, z: real, sqrt: real -> real)
    requires IsSqrt(sqrt) && n > 0 && 0 <= fewer < more <= n && z > 0.0
    ensures Lower(fewer, n, z, sqrt) < Lower(more, n, z, sqrt)
    ensures Upper(fewer, n, z, sqrt) < Upper(more, n, z, sqrt)
  {
    LowerMonotone(fewer, more, n, z, sqrt);
    LowerMonotone(n - more, n - fewer, n, z, sqrt);
    WilsonSymmetry(fewer, n, z, sqrt);
    WilsonSymmetry(more, n, z, sqrt);
  }

  lemma CompareQuotients(a: real, b: real, m: real)
    requires m > 0.0 && a < b
    ensures a / m < b / m
  {
    QuotientSign(b - a, m);
    assert (b - a) / m == b / m - a / m;
  }

  lemma PhatGrows(fewer: int, more: int, n: int)
    requires n > 0 && fewer < more
    ensures Phat(fewer, n) < Phat(more, n)
  {
    QuotientSign(fewer as real, n as real);
    QuotientSign(more as real, n as real);
    CompareQuotients(fewer as real, more as real, n as real);
  }

  lemma LowerMonotone(fewer: int, more: int, n: int, z: real, sqrt: real -> real)
    requires IsSqrt(sqrt) && n > 0 && 0 <= fewer < more <= n && z > 0.0
    ensures Lower(fewer, n, z, sqrt) < Lower(more, n, z, sqrt)
  {
    var w, a, b := Weight(n, Square(z)), Phat(fewer, n), Phat(more, n);
    var l := Lower(fewer, n, z, sqrt);
    var half := BoundsAreEnds(fewer, n, z, sqrt);
    var half' := BoundsAreEnds(more, n, z, sqrt);
    PhatGrows(fewer, more, n);
    hide Phat, Weight, Lower, Upper, Excess;
    EndsAreOrdered(a, w, half, l, Upper(fewer, n, z, sqrt));
    EndsAreOrdered(b, w, half', Lower(more, n, z, sqrt), Upper(more, n, z, sqrt));
    Inversion(a, w, half, l, Upper(fewer, n, z, sqrt), l);
    ExcessGrows(a, b, w, l);
    Inversion(b, w, half', Lower(more, n, z, sqrt), Upper(more, n, z, sqrt), l);
  }

  // ---------- comparing a bound with a threshold, without the root

  /** The lower bound reaches t < 1 exactly when the proportion does and t is not strictly inside. */
  lemma LowerReaches(successes: int, n: int, z: real, sqrt: real -> real, t: real)
    requires IsSqrt(sqrt) && n > 0 && 0 <= successes <= n && z > 0.0 && 0.0 <= t < 1.0
    ensures Lower(successes, n, z, sqrt) >= t <==>
            t <= Phat(successes, n) && Excess(Phat(successes, n), Weight(n, Square(z)), t) >= 0.0
  {
    var w, a := Weight(n, Square(z)), Phat(successes, n);
    var l, u := Lower(successes, n, z, sqrt), Upper(successes, n, z, sqrt);
    var half := BoundsAreEnds(successes, n, z, sqrt);
    PhatInUnit(successes, n);
    hide Phat, Weight, Lower, Upper, Excess;
    EndsAreOrdered(a, w, half, l, u);
    Inversion(a, w, half, l, u, t);
    Inversion(a, w, half, l, u, a);
    if t == u && t <= a {
      ExcessAt(a, w);
    }
  }

  lemma UpperReaches(successes: int, n: int, z: real, sqrt: real -> real, t: real)
    requires IsSqrt(sqrt) && n > 0 && 0 <= successes <= n && z > 0.0 && 0.0 < t <= 1.0
    ensures Upper(successes, n, z, sqrt) <= t <==>
            t >= Phat(successes, n) && Excess(Phat(successes, n), Weight(n, Square(z)), t) >= 0.0
  {
    PhatInUnit(successes, n);
    LowerReaches(n - successes, n, z, sqrt, 1.0 - t);
    WilsonSymmetry(successes, n, z, sqrt);
    ExcessMirror(Phat(successes, n), Weight(n, Square(z)), t);
  }
}
