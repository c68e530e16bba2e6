/** The predeclared decision rule: PASS or FAIL by one Wilson bound against a threshold. */
module Decision {
  import opened Wilson

  datatype Outcome =
    | Insufficient(n: nat, predeclared: int)
    | Decided(pass: bool, successes: int, n: nat, point: real, interval: Interval, boundUsed: real, threshold: real)
    | RaisesValueError
    | RaisesZeroDivision // the point estimate divides by n

  function Decide(
    successes: int, n: nat, predeclared: int, upperRule: bool, threshold: real, sqrt: real -> real): Outcome
  {
    if n < predeclared then Insufficient(n, predeclared)
    else
      match WilsonInterval(successes, n, Z_95, sqrt)
      case ValueError => RaisesValueError
      case Bounds(interval) =>
        var pass := if upperRule then interval.upper <= threshold else interval.lower >= threshold;
        if n == 0 then RaisesZeroDivision
        else
          Decided(pass, successes, n, successes as real / n as real, interval,
                  if upperRule then interval.upper else interval.lower, threshold)
  }

  /** When a decision is reached, and when computing it fails. */
  lemma DecideExactly(successes: int, n: nat, predeclared: int, upperRule: bool, threshold: real, sqrt: real -> real)
    ensures var r := Decide(successes, n, predeclared, upperRule, threshold, sqrt);
            && (r.Insufficient? <==> n < predeclared)
            && (r.RaisesZeroDivision? <==> n == 0 && predeclared <= 0)
            && (r.RaisesValueError? <==> n >= predeclared && n > 0 && (successes < 0 || successes > n))
            && (r.Decided? ==>
                  && n > 0 && 0 <= successes <= n
                  && r.pass == (if upperRule then Upper(successes, n, Z_95, sqrt) <= threshold
                                else Lower(successes, n, Z_95, sqrt) >= threshold))
  {
  }

  /** What is reported for `successes` out of `n`: too little evidence, or the 95 percent interval, the proportion,
      the bound that the rule looks at, and whether that bound meets the threshold. */
  ghost predicate Reported(
    r: Outcome, successes: int, n: nat, predeclared: int, upperRule: bool, threshold: real, sqrt: real -> real)
  {
    if n < predeclared then r == Insufficient(n, predeclared)
    else
      && n > 0 && 0 <= successes <= n
      && var lower, upper := Lower(successes, n, 1.959963984540054, sqrt), Upper(successes, n, 1.959963984540054, sqrt);
         r == Decided(
           if upperRule then upper <= threshold else lower >= threshold, successes, n,
           successes as real / n as real, Interval(lower, upper), if upperRule then upper else lower, threshold)
  }

  lemma DecideReports(successes: int, n: nat, predeclared: int, upperRule: bool, threshold: real, sqrt: real -> real)
    ensures var r := Decide(successes, n, predeclared, upperRule, threshold, sqrt);
            Reported(r, successes, n, predeclared, upperRule, threshold, sqrt) <==>
            !r.RaisesValueError? && !r.RaisesZeroDivision?
  {
  }

  // ---------- one cutoff

  /** Under the lower rule the passing counts are those from one cutoff on (n + 1 if there are none). */
  lemma LowerCutoff(n: int, z: real, sqrt: real -> real, t: real) returns (cutoff: int)
    requires IsSqrt(sqrt) && n > 0 && z > 0.0
    ensures 0 <= cutoff <= n + 1
    ensures forall k :: 0 <= k <= n ==> (Lower(k, n, z, sqrt) >= t <==> k >= cutoff)
  {
    hide IsSqrt, Lower;
    cutoff := 0;
    while cutoff <= n && Lower(cutoff, n, z, sqrt) < t
      invariant 0 <= cutoff <= n + 1
      invariant forall k :: 0 <= k < cutoff ==> Lower(k, n, z, sqrt) < t
    {
      cutoff := cutoff + 1;
    }
    forall k | cutoff < k <= n
      ensures Lower(k, n, z, sqrt) >= t
    {
      WilsonMonotone(cutoff, k, n, z, sqrt);
    }
  }

  /** Under the upper rule the passing counts are those up to one cutoff (-1 if there are none). */
  lemma UpperCutoff(n: int, z: real, sqrt: real -> real, t: real) returns (cutoff: int)
    requires IsSqrt(sqrt) && n > 0 && z > 0.0
    ensures -1 <= cutoff <= n
    ensures forall k :: 0 <= k <= n ==> (Upper(k, n, z, sqrt) <= t <==> k <= cutoff)
  {
    hide IsSqrt, Upper;
    cutoff := n;
    while cutoff >= 0 && Upper(cutoff, n, z, sqrt) > t
      invariant -1 <= cutoff <= n
      invariant forall k :: cutoff < k <= n ==> Upper(k, n, z, sqrt) > t
    {
      cutoff := cutoff - 1;
    }
    forall k | 0 <= k < cutoff
      ensures Upper(k, n, z, sqrt) <= t
    {
      WilsonMonotone(k, cutoff, n, z, sqrt);
    }
  }

  // ---------- which batch sizes can pass at all

  lemma PhatOfAll(n: int)
    requires n > 0
    ensures Phat(n, n) == 1.0 && Phat(0, n) == 0.0
  {
  }

  /** With all successes, the threshold t is outside or at the bound exactly when n (1 - t) >= z^2 t. */
  lemma BestCase(n: int, zSq: real, t: real)
    requires n > 0 && 0.0 <= t < 1.0
    ensures Excess(1.0, Weight(n, zSq), t) >= 0.0 <==> n as real * (1.0 - t) >= zSq * t
  {
    ExcessSign(1.0, n, zSq, t);
    var r := 1.0 - t;
    assert n as real * Square(r) == r * (n as real * r);
    assert zSq * (t * r) == r * (zSq * t);
    ScaleCompare(r, zSq * t, n as real * r);
  }

  /** The lower rule can pass for some count exactly when n (1 - t) >= z^2 t; below that, never. */
  lemma LowerRuleReachable(n: int, z: real, sqrt: real -> real, t: real)
    requires IsSqrt(sqrt) && n > 0 && z > 0.0 && 0.0 <= t < 1.0
    ensures (exists k :: 0 <= k <= n && Lower(k, n, z, sqrt) >= t) <==> n as real * (1.0 - t) >= Square(z) * t
  {
    hide *;
    PhatOfAll(n);
    LowerReaches(n, n, z, sqrt, t);
    BestCase(n, Square(z), t);
    if k :| 0 <= k <= n && Lower(k, n, z, sqrt) >= t {
      if k < n {
        WilsonMonotone(k, n, n, z, sqrt);
      }
    }
  }

  /** The upper rule can pass for some count exactly when n t >= z^2 (1 - t); below that, never. */
  lemma UpperRuleReachable(n: int, z: real, sqrt: real -> real, t: real)
    requires IsSqrt(sqrt) && n > 0 && z > 0.0 && 0.0 < t <= 1.0
    ensures (exists k :: 0 <= k <= n && Upper(k, n, z, sqrt) <= t) <==> n as real * t >= Square(z) * (1.0 - t)
  {
    hide *;
    PhatOfAll(n);
    UpperReaches(0, n, z, sqrt, t);
    ExcessMirror(1.0, Weight(n, Square(z)), 1.0 - t);
    BestCase(n, Square(z), 1.0 - t);
    if k :| 0 <= k <= n && Upper(k, n, z, sqrt) <= t {
      if k > 0 {
        WilsonMonotone(0, k, n, z, sqrt);
      }
    }
  }

  /** The no-fault batch of 16 trials cannot pass its threshold of 0.10, whatever is observed. */
  lemma NoFaultBatchNeverPasses(falseFlags: int, sqrt: real -> real)
    requires IsSqrt(sqrt)
    ensures !(var r := Decide(falseFlags, 16, 16, true, 0.10, sqrt); r.Decided? && r.pass)
  {
    hide IsSqrt;
    UpperRuleReachable(16, Z_95, sqrt, 0.10);
    DecideExactly(falseFlags, 16, 16, true, 0.10, sqrt);
    assert Square(Z_95) > 3.84;
  }
}
