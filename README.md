# Sieve of Eratosthenes and nth-prime lookup (Go package `sieve`)

This project models the Go package `sieve`, file `go/pkg/sieve/sieve.go`, in Dafny and proves it correct.

- `sieve(limit)` is an in-place Sieve of Eratosthenes over a `[]bool` table.
  It is modelled as the method `PrimeSieve.Sieve` over an `array<bool>`.
  Its four loops are kept as written: the initialisation, the outer loop over `p` while `p*p <= limit`, the inner loop clearing `p*p, p*p+p, …`, and the collection loop.
  The method is proved to return exactly `PrimesUpTo(limit)`, the ascending sequence of primes in `[2, limit]`.
- `NthPrime(nth)` returns `0` for a negative ordinal and `2` for ordinal `0`.
  For `nth >= 1` it sieves from `limit = 100`, doubling the limit until at least `nth` primes are found, and returns the element at index `nth-1`.
  It is modelled as `PrimeSieve.NthPrime` with the same loop.
  The result is proved to be the one-based nth prime: a prime with exactly `nth-1` primes below it.
  The loop is proved to terminate. Euclid's argument gives a prime in `(m, m!+1]` for every `m`. So some bound holds `nth` primes, and the distance from `limit` to that bound is the ranking function.
- The `Sieve` interface, the function type `siever` and `NewSieve` are modelled in the module `SieveInterface`.
  The datatype `Siever` has a forwarding method `NthPrime`, and `NewSieve()` returns a `Siever`.

The module `Primes` holds the mathematical reference: `Divides`, `IsPrime` (no divisor in `[2, n)`), `PrimesUpTo`, `IsNthPrime`, the least divisor and the factorial.
Nothing in it depends on the sieve.

The ordinal convention is the one the code implements: one-based, with `0` as an extra alias for the first prime, and `0` returned for negative input.
The repository's tests expect a zero-based result, an error for negative input and an `(int64, error)` signature.
They do not match the code, and the model follows the code.

## Model

| member | source | states |
|---|---|---|
| `PrimeSieve.Sieve` | go/pkg/sieve/sieve.go:42-66 | the result equals `PrimesUpTo(limit)`; it is strictly increasing; `x` is in it iff `2 <= x <= limit` and `x` is prime; for `limit < 2` it is empty. The loop invariants state that after all candidates below `p` are processed, cell `k` is true iff `k >= 2` and `k` has no prime factor `q < p` with `q*q <= k` (so cells 0 and 1 stay false) |
| `PrimeSieve.NthPrime` | go/pkg/sieve/sieve.go:73-89 | a negative ordinal gives `0`; ordinal `0` gives `2`; ordinal `nth >= 1` gives the one-based nth prime. The loop terminates for every `nth >= 1`, and its invariant says the limit is always `100 * 2^d` after `d` doublings |
| `SieveInterface.Siever.NthPrime` | go/pkg/sieve/sieve.go:26-28 | the forwarding method has exactly the contract of `NthPrime` |
| `SieveInterface.NewSieveAgrees` | go/pkg/sieve/sieve.go:13-15 | calling `NthPrime` on the value `NewSieve()` returns the same number as calling `NthPrime` directly, for every input |
| `PrimeSieve.StruckStep` | go/pkg/sieve/sieve.go:49-55 | processing candidate `p` adds to the cleared set exactly the multiples of `p` that are at least `p*p`, and only when `p` is prime |
| `PrimeSieve.PrimeOrStruck` | go/pkg/sieve/sieve.go:50 | a candidate still marked when it is reached is prime: every composite `p` has already been cleared by a smaller prime factor |
| `PrimeSieve.StruckIsComposite` | go/pkg/sieve/sieve.go:50 | a candidate cleared by a smaller prime is not prime, so skipping it changes nothing |
| `PrimeSieve.StruckIffComposite` | go/pkg/sieve/sieve.go:49 | once `p*p` exceeds `i`, `i` is cleared iff `i` is composite. This is why the outer loop may stop at `p*p > limit` |
| `Primes.CompositeHasSmallPrimeFactor` | go/pkg/sieve/sieve.go:49-55 | every composite `n` has a prime factor `d` with `d*d <= n`. This is completeness: every composite up to `limit` is cleared |
| `Primes.SmallFactorMeansComposite` | go/pkg/sieve/sieve.go:51-52 | a number with a factor `q >= 2` and `q*q <= n` is not prime. This is soundness: no prime is ever cleared |
| `Primes.PrimesUpTo` | go/pkg/sieve/sieve.go:58-63 | every element of the primes up to `n` lies in `[2, n]` |
| `Primes.PrimesUpToMember` | go/pkg/sieve/sieve.go:44-63 | `x` is among the primes up to `n` iff `2 <= x <= n` and `x` is prime |
| `Primes.PrimesUpToIncreasing` | go/pkg/sieve/sieve.go:58-63 | the primes up to `n` are strictly increasing |
| `Primes.PrimesUpToPrefix` | go/pkg/sieve/sieve.go:83-87 | raising the limit only appends primes: the primes up to `m` are a prefix of those up to `n` for `m <= n` |
| `Primes.FewerPrimesMeansSmallerBound` | go/pkg/sieve/sieve.go:84-87 | if a limit yields fewer primes than another bound, it is smaller than that bound. This is what makes the doubling loop progress |
| `Primes.PrimesUpToIndex` | go/pkg/sieve/sieve.go:85 | the element at index `k` of the primes up to any limit is the `(k+1)`-th prime. So `primes[nth-1]` does not depend on which limit produced it |
| `Primes.NthPrimeOrder` | go/pkg/sieve/sieve.go:81-88 | for two primes with ordinals `i` and `j`, `a < b` iff `i < j` and `a == b` iff `i == j`. So `NthPrime` is strictly increasing on `nth >= 1` and its answer is unique |
| `Primes.FirstPrimeIsTwo` | go/pkg/sieve/sieve.go:74-77 | `r` is the first prime iff `r == 2`. So `NthPrime(0) == NthPrime(1) == 2` |
| `Primes.PrimeAbove` | go/pkg/sieve/sieve.go:82-88 | there is a prime in `(m, m!+1]` for every `m` (Euclid), so primes are unbounded |
| `Primes.EnoughPrimes` | go/pkg/sieve/sieve.go:82-88 | for every count `k` some bound has at least `k` primes up to it. This gives the retry loop its ranking function |

## Left out

- The conversions between `int64` and `int` at go/pkg/sieve/sieve.go:84-85 are not modelled. Integers are unbounded here.
- The overflow of `limit *= 2` at go/pkg/sieve/sieve.go:87 is not modelled, for the same reason.
- Memory growth from allocating a new table on every retry is not modelled.
- The Go interface `Sieve` (go/pkg/sieve/sieve.go:5-7) is not a Dafny trait. It has a single implementation, the datatype `Siever`.
- The compile-time check that `siever` implements `Sieve` (go/pkg/sieve/sieve.go:33) has no behaviour and is not modelled.
- `SieveInterface.NewSieve` has no contract of its own. It only builds the `Siever` value, and `NewSieveAgrees` states what calling through it does.
- The precondition `limit >= -1` of `PrimeSieve.Sieve` reflects that Go's `make` panics for a negative length. The panic itself is not modelled.
- The repository's tests (`sieve_test.go`, `sieve_bench_test.go`) are not part of this model. Their expectations contradict the code, their fuzz test uses a probabilistic primality library, and the rest is benchmark timing and parallel test execution.
- A logarithmic limit estimate `n·(ln n + ln ln n)` does not occur in this version of the code and is not modelled.
