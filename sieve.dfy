/** The sieve of Eratosthenes over a boolean table updated in place, and the
    one-based ordinal lookup that re-sieves with a doubled limit until enough
    primes are found (package `sieve`, file go/pkg/sieve/sieve.go). */
module PrimeSieve {
  import opened Primes

  /** `i` has a prime factor `q < p` with `q * q <= i`: exactly the indices the
      sieve has cleared once every candidate below `p` has been processed. */
  ghost predicate Struck(i: int, p: int) {
    exists q :: 2 <= q < p && IsPrime(q) && q * q <= i && Divides(q, i)
  }

  /** Processing candidate `p` adds exactly the multiples of `p` from `p * p` on, if `p` is prime. */
  lemma StruckStep(i: int, p: int)
    ensures Struck(i, p + 1) <==> Struck(i, p) || (IsPrime(p) && p * p <= i && Divides(p, i))
  {
    if Struck(i, p + 1) {
      var q :| 2 <= q < p + 1 && IsPrime(q) && q * q <= i && Divides(q, i);
      if q < p {
        assert Struck(i, p);
      }
    }
  }

  /** A candidate is either prime or struck by a smaller prime. */
  lemma PrimeOrStruck(p: int)
    requires p >= 2
    ensures IsPrime(p) || Struck(p, p)
  {
    if !IsPrime(p) {
      var d := CompositeHasSmallPrimeFactor(p);
      assert d < d * d;
    }
  }

  /** A candidate struck by a smaller prime is not prime. */
  lemma StruckIsComposite(p: int)
    requires Struck(p, p)
    ensures !IsPrime(p)
  {
    var q :| 2 <= q < p && IsPrime(q) && q * q <= p && Divides(q, p);
  }

  lemma SquareRootBound(d: int, p: int)
    requires 0 <= d && 0 <= p && d * d < p * p
    ensures d < p
  {
  }

  /** Once `p * p` exceeds `i`, "struck" means "composite". */
  lemma StruckIffComposite(i: int, p: int)
    requires 2 <= i < p * p && p >= 2
    ensures Struck(i, p) <==> !IsPrime(i)
  {
    if Struck(i, p) {
      var q :| 2 <= q < p && IsPrime(q) && q * q <= i && Divides(q, i);
      SmallFactorMeansComposite(i, q);
    }
    if !IsPrime(i) {
      var d := CompositeHasSmallPrimeFactor(i);
      SquareRootBound(d, p);
    }
  }

  /** `sieve(limit)`: all primes in `[2, limit]`, ascending. Go's `make` panics for a
      negative length, hence the precondition. */
  method Sieve(limit: int) returns (primes: seq<int>)
    requires limit >= -1
    ensures primes == PrimesUpTo(limit)
    ensures limit < 2 ==> primes == []
    ensures forall i, j :: 0 <= i < j < |primes| ==> primes[i] < primes[j]
    ensures forall x :: x in primes <==> 2 <= x <= limit && IsPrime(x)
  {
    var isPrime := new bool[limit + 1](_ => false);
    var i := 2;
    while i <= limit
      invariant 2 <= i && (i <= limit + 1 || i == 2)
      invariant forall k :: 0 <= k < isPrime.Length ==> isPrime[k] == (2 <= k < i)
    {
      isPrime[i] := true;
      i := i + 1;
    }

    var p := 2;
    while p * p <= limit
      invariant 2 <= p
      invariant forall k :: 0 <= k < isPrime.Length ==> isPrime[k] == (2 <= k && !Struck(k, p))
      decreases limit - p
    {
      assert p < p * p;
      if isPrime[p] {
        PrimeOrStruck(p);
        var j := p * p;
        DividesProduct(p, p);
        while j <= limit
          invariant p * p <= j
          invariant Divides(p, j)
          invariant forall k :: 0 <= k < isPrime.Length ==>
            isPrime[k] == (2 <= k && !Struck(k, p) && !(p * p <= k < j && Divides(p, k)))
          decreases limit - j
        {
          forall k | j < k < j + p
            ensures !Divides(p, k)
          {
            NoMultipleBetween(p, j, k);
          }
          isPrime[j] := false;
          DividesNextMultiple(p, j);
          j := j + p;
        }
      } else {
        StruckIsComposite(p);
      }
      forall k | 0 <= k < isPrime.Length
        ensures isPrime[k] == (2 <= k && !Struck(k, p + 1))
      {
        StruckStep(k, p);
      }
      p := p + 1;
    }

    forall k | 0 <= k < isPrime.Length
      ensures isPrime[k] == IsPrime(k)
    {
      if 2 <= k {
        StruckIffComposite(k, p);
      }
    }

    primes := [];
    i := 0;
    while i < isPrime.Length
      invariant 0 <= i <= isPrime.Length
      invariant primes == PrimesUpTo(i - 1)
    {
      if isPrime[i] {
        primes := primes + [i];
      }
      i := i + 1;
    }

    PrimesUpToIncreasing(limit);
    forall x
      ensures x in primes <==> 2 <= x <= limit && IsPrime(x)
    {
      PrimesUpToMember(limit, x);
    }
  }

  /** 2 raised to `n`: how many times the limit has been doubled. */
  function Power2(n: nat): (r: nat)
    ensures r >= 1
  {
    if n == 0 then 1 else 2 * Power2(n - 1)
  }

  /** `NthPrime(nth)`: 0 for a negative ordinal, 2 for ordinal 0, and otherwise
      the nth prime counting from one, found by sieving from limit 100 and
      doubling the limit until the sieve holds at least `nth` primes. */
  method NthPrime(nth: int) returns (r: int)
    ensures nth < 0 ==> r == 0
    ensures nth == 0 ==> r == 2
    ensures nth >= 1 ==> IsNthPrime(r, nth)
  {
    if nth < 1 {
      if nth == 0 {
        return 2;
      }
      return 0;
    }

    ghost var enough := EnoughPrimes(nth);
    ghost var doublings := 0;
    var limit := 100;
    while true
      invariant limit == 100 * Power2(doublings)
      decreases enough - limit
    {
      var primes := Sieve(limit);
      if |primes| >= nth {
        PrimesUpToIndex(limit, nth - 1);
        return primes[nth - 1];
      }
      FewerPrimesMeansSmallerBound(limit, enough);
      limit := limit * 2;
      doublings := doublings + 1;
    }
  }
}

/** The one-method capability wrapping `NthPrime` (the `Sieve` interface, the
    function type `siever` and `NewSieve`). */
module SieveInterface {
  import opened Primes
  import PrimeSieve

  /** A `siever` value: the function it wraps is always `PrimeSieve.NthPrime`. */
  datatype Siever = Siever {

    /** `siever.NthPrime` forwards to the function it wraps. */
    method NthPrime(n: int) returns (r: int)
      ensures n < 0 ==> r == 0
      ensures n == 0 ==> r == 2
      ensures n >= 1 ==> IsNthPrime(r, n)
    {
      r := PrimeSieve.NthPrime(n);
    }
  }

  function NewSieve(): Siever {
    Siever
  }

  /** Calling through the interface gives the same answer as calling `NthPrime` directly. */
  method NewSieveAgrees(n: int) returns (viaInterface: int, direct: int)
    ensures viaInterface == direct
  {
    viaInterface := NewSieve().NthPrime(n);
    direct := PrimeSieve.NthPrime(n);
    if n >= 1 {
      NthPrimeOrder(viaInterface, n, direct, n);
    }
  }
}
