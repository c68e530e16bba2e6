/** The workload's phase computation: an in-place sieve that counts primes. */
module Sieve {

  ghost predicate Divides(d: int, n: int)
    requires d > 0
  {
    n % d == 0
  }

  ghost predicate IsPrime(n: int) {
    n >= 2 && forall d :: 2 <= d < n ==> !Divides(d, n)
  }

  ghost function PrimesBelow(n: int): set<int> {
    set p: int | 2 <= p < n && IsPrime(p)
  }

  /** The integer square root, which run_prime_sieve takes as int(limit ** 0.5). */
  function IntSqrt(n: nat): (r: nat)
    ensures r * r <= n < (r + 1) * (r + 1)
  {
    if n == 0 then 0
    else
      var r := IntSqrt(n - 1);
      if (r + 1) * (r + 1) <= n then r + 1 else r
  }

  // ---------- products

  lemma MultipleBound(k: int, d: int)
    requires d > 0
    ensures k >= 1 ==> k * d >= d
    ensures k <= -1 ==> k * d <= -d
  {
    if k >= 1 {
      assert (k - 1) * d >= 0;
    } else if k <= -1 {
      assert (-k - 1) * d >= 0;
    }
  }

  lemma ProductOrder(a: int, b: int, m: int)
    requires m >= 0 && a <= b
    ensures a * m <= b * m
  {
    assert (b - a) * m >= 0;
  }

  lemma SquareOrder(a: int, b: int)
    requires a >= 0 && b >= 0
    ensures a <= b ==> a * a <= b * b
  {
    if a <= b {
      ProductOrder(a, b, a);
      ProductOrder(a, b, b);
    }
  }

  // ---------- divisibility

  lemma ModUnique(n: int, d: int, q: int, r: int)
    requires d > 0 && n == q * d + r && 0 <= r < d
    ensures n % d == r && n / d == q
  {
    assert (q - n / d) * d == n % d - r;
    MultipleBound(q - n / d, d);
  }

  lemma DividesProduct(d: int, q: int)
    requires d > 0
    ensures Divides(d, q * d)
  {
    ModUnique(q * d, d, q, 0);
  }

  lemma Quotient(d: int, n: int) returns (q: int)
    requires d > 0 && Divides(d, n)
    ensures n == q * d
  {
    q := n / d;
  }

  lemma DividesTransitive(a: int, b: int, c: int)
    requires a > 0 && b > 0 && Divides(a, b) && Divides(b, c)
    ensures Divides(a, c)
  {
    var p := Quotient(a, b);
    var q := Quotient(b, c);
    assert c == q * (p * a) == q * p * a;
    DividesProduct(a, q * p);
  }

  /** A composite number has a prime factor at most its square root. */
  lemma SmallPrimeFactor(n: int) returns (d: int)
    requires n >= 2 && !IsPrime(n)
    ensures IsPrime(d) && Divides(d, n) && d * d <= n
  {
    var e :| 2 <= e < n && Divides(e, n);
    d := 2;
    while !Divides(d, n)
      invariant 2 <= d <= e
      invariant forall f :: 2 <= f < d ==> !Divides(f, n)
      decreases e - d
    {
      d := d + 1;
    }
    LeastFactorIsPrime(n, d);
    LeastFactorIsSmall(n, d);
  }

  lemma LeastFactorIsPrime(n: int, d: int)
    requires 2 <= d && Divides(d, n) && forall f :: 2 <= f < d ==> !Divides(f, n)
    ensures IsPrime(d)
  {
    forall f | 2 <= f < d
      ensures !Divides(f, d)
    {
      if Divides(f, d) {
        DividesTransitive(f, d, n);
        assert false;
      }
    }
  }

  lemma LeastFactorIsSmall(n: int, d: int)
    requires 2 <= d < n && Divides(d, n) && forall f :: 2 <= f < d ==> !Divides(f, n)
    ensures d * d <= n
  {
    var q := Quotient(d, n);
    assert q * d == d * q;
    MultipleBound(q, d);
    assert q >= 2;
    DividesProduct(q, d);
    assert !(2 <= q < d);
    ProductOrder(d, q, d);
  }

  // ---------- the sieve

  /** Some prime below `c` has struck out `k`. */
  ghost predicate Struck(c: int, k: int) {
    exists d :: 2 <= d < c && IsPrime(d) && Divides(d, k) && d * d <= k
  }

  /** Once all primes up to the square root of `k` have been used, the survivors are the primes. */
  lemma SurvivorsArePrime(c: int, k: int)
    requires k >= 2 && c * c > k && c >= 1
    ensures IsPrime(k) <==> !Struck(c, k)
  {
    if !IsPrime(k) {
      var d := SmallPrimeFactor(k);
      SquareOrder(c, d);
    } else {
      forall d | 2 <= d < c && d * d <= k
        ensures d < k
      {
        ProductOrder(2, d, d);
      }
    }
  }

  lemma StruckNext(c: int, k: int)
    requires c >= 2
    ensures Struck(c + 1, k) <==> Struck(c, k) || (IsPrime(c) && Divides(c, k) && c * c <= k)
  {
  }

  ghost predicate Sieved(flags: seq<bool>, c: int) {
    forall k :: 2 <= k < |flags| ==> (flags[k] <==> !Struck(c, k))
  }

  /** Between two consecutive multiples there is no other. */
  lemma NothingBetween(c: int, m: int, k: int)
    requires c > 0 && Divides(c, m) && m < k < m + c
    ensures !Divides(c, k)
  {
    var q := Quotient(c, m);
    ModUnique(k, c, q, k - m);
  }

  lemma NextMultiple(c: int, m: int)
    requires c > 0 && Divides(c, m)
    ensures Divides(c, m + c)
  {
    var q := Quotient(c, m);
    assert m + c == (q + 1) * c;
    DividesProduct(c, q + 1);
  }

  /** The inner loop: clears every multiple of `c` from its square on. */
  method StrikeMultiples(flags: array<bool>, c: int)
    requires c >= 2
    modifies flags
    ensures forall k :: 0 <= k < flags.Length ==> (flags[k] <==> old(flags[k]) && !(Divides(c, k) && c * c <= k))
  {
    var multiple := c * c;
    DividesProduct(c, c);
    ProductOrder(2, c, c);
    while multiple < flags.Length
      invariant multiple >= c * c >= 4 && Divides(c, multiple)
      invariant forall k :: 0 <= k < flags.Length ==>
                  (flags[k] <==> old(flags[k]) && !(Divides(c, k) && c * c <= k < multiple))
    {
      flags[multiple] := false;
      forall k | multiple < k < multiple + c
        ensures !Divides(c, k)
      {
        NothingBetween(c, multiple, k);
      }
      NextMultiple(c, multiple);
      multiple := multiple + c;
    }
  }

  lemma AfterCandidate(flags: seq<bool>, c: int)
    requires c >= 2
    requires forall k :: 2 <= k < |flags| ==>
               (flags[k] <==> !Struck(c, k) && !(IsPrime(c) && Divides(c, k) && c * c <= k))
    ensures Sieved(flags, c + 1)
  {
    forall k | 2 <= k < |flags|
      ensures flags[k] <==> !Struck(c + 1, k)
    {
      StruckNext(c, k);
    }
  }

  /** Sums the flags once sieving is over. */
  method CountSurvivors(flags: array<bool>, c: int) returns (count: nat)
    requires flags.Length >= 2 && !flags[0] && !flags[1]
    requires c >= 1 && c * c >= flags.Length && Sieved(flags[..], c)
    ensures count == |PrimesBelow(flags.Length)|
  {
    count := 0;
    assert PrimesBelow(0) == {};
    for i := 0 to flags.Length
      invariant count == |PrimesBelow(i)|
    {
      if i >= 2 {
        SurvivorsArePrime(c, i);
        assert flags[..][i] <==> !Struck(c, i);
      }
      assert PrimesBelow(i + 1) == if flags[i] then PrimesBelow(i) + {i} else PrimesBelow(i);
      if flags[i] {
        count := count + 1;
      }
    }
  }

  lemma RootBound(candidate: int, limit: int)
    requires limit >= 2 && 2 <= candidate <= IntSqrt(limit)
    ensures candidate * candidate <= limit
  {
    hide IntSqrt;
    SquareOrder(candidate, IntSqrt(limit));
  }

  lemma RootExceeded(candidate: int, limit: int)
    requires limit >= 2 && candidate >= IntSqrt(limit) + 1
    ensures candidate * candidate > limit
  {
    hide IntSqrt;
    SquareOrder(IntSqrt(limit) + 1, candidate);
  }

  /** The sieve returns the number of primes up to the limit; every write is in bounds. */
  method RunPrimeSieve(limit: int) returns (count: nat)
    ensures count == |PrimesBelow(limit + 1)|
  {
    if limit < 2 {
      assert PrimesBelow(limit + 1) == {};
      return 0;
    }
    var isPrime := new bool[limit + 1](_ => true);
    isPrime[0] := false;
    isPrime[1] := false;
    NothingStruck(isPrime[..]);
    var candidate := 2;
    while candidate < IntSqrt(limit) + 1
      invariant 2 <= candidate
      invariant !isPrime[0] && !isPrime[1] && Sieved(isPrime[..], candidate)
    {
      RootBound(candidate, limit);
      ProductOrder(2, candidate, candidate);
      SurvivorsArePrime(candidate, candidate);
      assert isPrime[..][candidate] <==> IsPrime(candidate);
      if isPrime[candidate] {
        StrikeMultiples(isPrime, candidate);
      }
      AfterCandidate(isPrime[..], candidate);
      candidate := candidate + 1;
    }
    RootExceeded(candidate, limit);
    count := CountSurvivors(isPrime, candidate);
  }

  lemma NothingStruck(flags: seq<bool>)
    requires forall k :: 2 <= k < |flags| ==> flags[k]
    ensures Sieved(flags, 2)
  {
  }
}
