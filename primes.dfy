/** Mathematical vocabulary the sieve is specified against: divisibility,
    primality, the ascending sequence of primes up to a bound, and what it
    means to be the k-th prime. None of this is executed by the sieve; it is
    the reference the sieve is proved equal to. */
module Primes {

  /** `d` is a positive divisor of `n`. */
  ghost predicate Divides(d: int, n: int) {
    d > 0 && n % d == 0
  }

  /** The textbook definition: at least 2 and no divisor strictly between 1 and itself. */
  ghost predicate IsPrime(n: int) {
    n >= 2 && forall d :: 2 <= d < n ==> !Divides(d, n)
  }

  // ---------------------------------------------------------------------------
  // Euclidean division facts (all operands non-negative in this model)
  // ---------------------------------------------------------------------------

  lemma ProductIsZero(d: int, z: int)
    requires d > 0 && -d < d * z < d
    ensures z == 0
  {
  }

  lemma QuotientAboveOne(d: int, k: int)
    requires d > 0 && d * k > d
    ensures k >= 2
  {
  }

  lemma MonotoneSquare(d: int, k: int)
    requires 0 < d <= k
    ensures d * d <= d * k
  {
  }

  /** Uniqueness of quotient and remainder. */
  lemma DivModUnique(d: int, k: int, r: int)
    requires d > 0 && 0 <= r < d
    ensures (d * k + r) % d == r && (d * k + r) / d == k
  {
    var x := d * k + r;
    assert x == d * (x / d) + x % d;
    assert d * (k - x / d) == x % d - r;
    ProductIsZero(d, k - x / d);
  }

  lemma DividesProduct(d: int, k: int)
    requires d > 0
    ensures Divides(d, d * k)
  {
    DivModUnique(d, k, 0);
  }

  lemma DividesTransitive(e: int, d: int, n: int)
    requires Divides(e, d) && Divides(d, n)
    ensures Divides(e, n)
  {
    var a, b := d / e, n / d;
    assert d == e * a;
    assert n == d * b;
    assert n == e * (a * b);
    DividesProduct(e, a * b);
  }

  /** The next multiple of `p` after the multiple `j` is `j + p`. */
  lemma DividesNextMultiple(p: int, j: int)
    requires Divides(p, j)
    ensures Divides(p, j + p)
  {
    assert j + p == p * (j / p + 1);
    DividesProduct(p, j / p + 1);
  }

  /** No multiple of `p` lies strictly between two consecutive multiples. */
  lemma NoMultipleBetween(p: int, j: int, i: int)
    requires Divides(p, j) && j < i < j + p
    ensures !Divides(p, i)
  {
    assert i == p * (j / p) + (i - j);
    DivModUnique(p, j / p, i - j);
  }

  lemma DividesSelf(n: int)
    requires n > 0
    ensures Divides(n, n)
  {
    DividesProduct(n, 1);
  }

  // ---------------------------------------------------------------------------
  // Least divisor, and the facts the sieve's completeness rests on
  // ---------------------------------------------------------------------------

  /** The least divisor of `n` that is at least `d`, given that none below `d` divides `n`. */
  ghost function LeastDivisorFrom(n: int, d: int): (r: int)
    requires 2 <= d <= n
    requires forall e :: 2 <= e < d ==> !Divides(e, n)
    ensures d <= r <= n && Divides(r, n)
    ensures forall e :: 2 <= e < r ==> !Divides(e, n)
    decreases n - d
  {
    if Divides(d, n) then d
    else
      DividesSelf(n);
      LeastDivisorFrom(n, d + 1)
  }

  /** The least divisor of `n` greater than 1. */
  ghost function LeastDivisor(n: int): (r: int)
    requires n >= 2
    ensures 2 <= r <= n && Divides(r, n)
    ensures forall e :: 2 <= e < r ==> !Divides(e, n)
  {
    LeastDivisorFrom(n, 2)
  }

  lemma LeastDivisorIsPrime(n: int)
    requires n >= 2
    ensures IsPrime(LeastDivisor(n))
  {
    var r := LeastDivisor(n);
    forall e | 2 <= e < r
      ensures !Divides(e, r)
    {
      if Divides(e, r) {
        DividesTransitive(e, r, n);
      }
    }
  }

  /** Every composite `n` has a prime factor `d` with `d * d <= n`. */
  lemma CompositeHasSmallPrimeFactor(n: int) returns (d: int)
    requires n >= 2 && !IsPrime(n)
    ensures IsPrime(d) && Divides(d, n) && d * d <= n
  {
    d := LeastDivisor(n);
    LeastDivisorIsPrime(n);
    var e :| 2 <= e < n && Divides(e, n);
    assert d < n;
    var k := n / d;
    assert n == d * k;
    QuotientAboveOne(d, k);
    assert n == k * d;
    DividesProduct(k, d);
    MonotoneSquare(d, k);
  }

  /** A number with a factor `q >= 2`, `q * q <= n`, is not prime. */
  lemma SmallFactorMeansComposite(n: int, q: int)
    requires 2 <= q && q * q <= n && Divides(q, n)
    ensures !IsPrime(n)
  {
    assert q < q * q;
  }

  // ---------------------------------------------------------------------------
  // The primes up to a bound, ascending
  // ---------------------------------------------------------------------------

  /** The primes in `[2, n]`, in ascending order: the reference the sieve must equal. */
  ghost function PrimesUpTo(n: int): (ps: seq<int>)
    ensures forall k :: 0 <= k < |ps| ==> 2 <= ps[k] <= n
    decreases n
  {
    if n < 2 then [] else PrimesUpTo(n - 1) + (if IsPrime(n) then [n] else [])
  }

  lemma {:induction false} PrimesUpToMember(n: int, x: int)
    ensures x in PrimesUpTo(n) <==> 2 <= x <= n && IsPrime(x)
    decreases n
  {
    if n >= 2 {
      PrimesUpToMember(n - 1, x);
    }
  }

  lemma {:induction false} PrimesUpToIncreasing(n: int)
    ensures forall i, j :: 0 <= i < j < |PrimesUpTo(n)| ==> PrimesUpTo(n)[i] < PrimesUpTo(n)[j]
    decreases n
  {
    if n >= 2 {
      PrimesUpToIncreasing(n - 1);
    }
  }

  /** Raising the bound only appends primes. */
  lemma {:induction false} PrimesUpToPrefix(m: int, n: int)
    requires m <= n
    ensures PrimesUpTo(m) <= PrimesUpTo(n)
    decreases n - m
  {
    if m < n {
      PrimesUpToPrefix(m, n - 1);
    }
  }

  /** The count of primes up to a bound is monotone, read contrapositively. */
  lemma FewerPrimesMeansSmallerBound(m: int, n: int)
    requires |PrimesUpTo(m)| < |PrimesUpTo(n)|
    ensures m < n
  {
    if n <= m {
      PrimesUpToPrefix(n, m);
    }
  }

  // ---------------------------------------------------------------------------
  // The k-th prime
  // ---------------------------------------------------------------------------

  /** `r` is the k-th prime counting from one: a prime with exactly `k - 1` primes below it. */
  ghost predicate IsNthPrime(r: int, k: int) {
    k >= 1 && IsPrime(r) && |PrimesUpTo(r - 1)| == k - 1
  }

  /** Position `k` (from zero) of the primes up to `n` holds the (k+1)-th prime. */
  lemma PrimesUpToIndex(n: int, k: int)
    requires 0 <= k < |PrimesUpTo(n)|
    ensures IsNthPrime(PrimesUpTo(n)[k], k + 1)
  {
    var ps := PrimesUpTo(n);
    var r := ps[k];
    PrimesUpToMember(n, r);
    PrimesUpToPrefix(r, n);
    PrimesUpToIncreasing(n);
    var below := PrimesUpTo(r - 1);
    assert PrimesUpTo(r) == below + [r];
    assert ps[|below|] == r;
  }

  /** Ordinals and values of primes are ordered alike; in particular the k-th prime is unique. */
  lemma NthPrimeOrder(a: int, i: int, b: int, j: int)
    requires IsNthPrime(a, i) && IsNthPrime(b, j)
    ensures a < b <==> i < j
    ensures a == b <==> i == j
  {
    if a < b {
      PrimesUpToPrefix(a, b - 1);
      assert PrimesUpTo(a) == PrimesUpTo(a - 1) + [a];
    } else if b < a {
      PrimesUpToPrefix(b, a - 1);
      assert PrimesUpTo(b) == PrimesUpTo(b - 1) + [b];
    }
  }

  lemma FirstPrimeIsTwo(r: int)
    ensures IsNthPrime(r, 1) <==> r == 2
  {
    assert IsNthPrime(2, 1);
    if IsNthPrime(r, 1) {
      NthPrimeOrder(r, 1, 2, 1);
    }
  }

  // ---------------------------------------------------------------------------
  // There are primes beyond every bound (Euclid)
  // ---------------------------------------------------------------------------

  function Factorial(n: nat): (f: nat)
    ensures f >= 1
  {
    if n == 0 then 1 else n * Factorial(n - 1)
  }

  lemma {:induction false} FactorialDivisible(m: nat, q: int)
    requires 1 <= q <= m
    ensures Divides(q, Factorial(m))
  {
    var f := Factorial(m - 1);
    if q == m {
      DividesProduct(m, f);
    } else {
      FactorialDivisible(m - 1, q);
      assert f == q * (f / q);
      assert Factorial(m) == q * (m * (f / q));
      DividesProduct(q, m * (f / q));
    }
  }

  /** A prime in `(m, m! + 1]`. */
  lemma PrimeAbove(m: nat) returns (p: int)
    ensures IsPrime(p) && m < p <= Factorial(m) + 1
  {
    var n := Factorial(m) + 1;
    p := LeastDivisor(n);
    LeastDivisorIsPrime(n);
    if p <= m {
      FactorialDivisible(m, p);
      DivModUnique(p, Factorial(m) / p, 1);
    }
  }

  /** For every count `k` some bound has at least `k` primes below it. */
  lemma {:induction false} EnoughPrimes(k: nat) returns (n: int)
    ensures |PrimesUpTo(n)| >= k
  {
    if k == 0 {
      n := 0;
    } else {
      var m := EnoughPrimes(k - 1);
      var p := PrimeAbove(if m < 0 then 0 else m);
      PrimesUpToPrefix(m, p - 1);
      n := p;
    }
  }
}
