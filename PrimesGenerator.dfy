/** `gen_primes` and the `get_nth_element` wrapper around it, of
    project/generators/primes_generator.py: candidates from 2 upwards are
    kept when no prime kept so far divides them, and the wrapper counts
    the kept numbers from 1 and returns the n-th. */
module PrimesGenerator {
  import opened Wrappers

  /** `k` is a prime: at least 2 and divisible by no number in 2..k-1. */
  predicate IsPrime(k: int)
  {
    k >= 2 && forall d :: 2 <= d < k ==> k % d != 0
  }

  /** The test in `gen_primes`: no kept prime divides `num`. */
  predicate NoneDivides(num: int, primes: seq<int>)
  {
    forall i :: 0 <= i < |primes| ==> primes[i] != 0 && num % primes[i] != 0
  }

  /** The primes below `num`, in ascending order. */
  function PrimesBelow(num: int): seq<int>
    decreases num
  {
    if num <= 2 then [] else PrimesBelow(num - 1) + (if IsPrime(num - 1) then [num - 1] else [])
  }

  /** The product of a list of numbers. */
  function Product(s: seq<int>): int
  {
    if s == [] then 1 else Product(s[..|s| - 1]) * s[|s| - 1]
  }

  // -----------------------------------------------------------------------
  // Arithmetic
  // -----------------------------------------------------------------------

  /** `q * d + rem` with `0 <= rem < d` leaves remainder `rem`. */
  lemma ModOf(q: int, d: int, rem: int)
    requires d > 0 && 0 <= rem < d
    ensures (q * d + rem) % d == rem
  {
    var x := q * d + rem;
    var k := x / d - q;
    assert k * d == rem - x % d by {
      assert x == (x / d) * d + x % d;
      assert (x / d) * d == (q + k) * d == q * d + k * d;
    }
  }

  /** A multiple of a multiple of `e` is a multiple of `e`. */
  lemma MultipleOfMultiple(a: int, b: int, e: int)
    requires e > 0 && a % e == 0
    ensures (a * b) % e == 0
  {
    assert a * b == ((a / e) * b) * e by {
      assert a == (a / e) * e;
    }
    ModOf((a / e) * b, e, 0);
  }

  /** Divisibility is transitive. */
  lemma DividesTransitive(n: int, d: int, e: int)
    requires d > 0 && e > 0 && n % d == 0 && d % e == 0
    ensures n % e == 0
  {
    assert n == d * (n / d);
    MultipleOfMultiple(d, n / d, e);
  }

  // -----------------------------------------------------------------------
  // The primes below a bound
  // -----------------------------------------------------------------------

  /** `PrimesBelow(num)` holds exactly the primes below `num`, each once,
      in strictly ascending order. */
  lemma {:induction false} PrimesBelowMembers(num: int)
    ensures forall k :: k in PrimesBelow(num) <==> k < num && IsPrime(k)
    ensures forall i, j :: 0 <= i < j < |PrimesBelow(num)| ==> PrimesBelow(num)[i] < PrimesBelow(num)[j]
    decreases num
  {
    if num > 2 {
      PrimesBelowMembers(num - 1);
      var prev := PrimesBelow(num - 1);
      forall i | 0 <= i < |prev|
        ensures prev[i] < num - 1
      {
        assert prev[i] in prev;
      }
    }
  }

  /** The primes below `a` are a prefix of the primes below a larger `b`. */
  lemma {:induction false} PrimesBelowPrefix(a: int, b: int)
    requires a <= b
    ensures PrimesBelow(a) <= PrimesBelow(b)
    decreases b - a
  {
    if a < b {
      PrimesBelowPrefix(a, b - 1);
    }
  }

  /** The least divisor of `n` at or above `d`. */
  function LeastDivisor(n: int, d: int): (k: int)
    requires 2 <= d <= n
    ensures d <= k <= n && n % k == 0
    ensures forall e :: d <= e < k ==> n % e != 0
    decreases n - d
  {
    if n % d == 0 then d else LeastDivisor(n, d + 1)
  }

  /** The least divisor above 1 of a number is a prime. */
  lemma LeastDivisorIsPrime(n: int)
    requires n >= 2
    ensures IsPrime(LeastDivisor(n, 2))
  {
    var p := LeastDivisor(n, 2);
    forall e | 2 <= e < p
      ensures p % e != 0
    {
      if p % e == 0 {
        DividesTransitive(n, p, e);
      }
    }
  }

  /** The test `gen_primes` applies, against the primes below the
      candidate, is exactly primality. */
  lemma NoneDividesIffPrime(num: int)
    requires num >= 2
    ensures NoneDivides(num, PrimesBelow(num)) <==> IsPrime(num)
  {
    PrimesBelowMembers(num);
    var primes := PrimesBelow(num);
    if IsPrime(num) {
      forall i | 0 <= i < |primes|
        ensures primes[i] != 0 && num % primes[i] != 0
      {
        assert primes[i] in primes;
      }
    } else {
      var p := LeastDivisor(num, 2);
      LeastDivisorIsPrime(num);
      assert p < num;
      assert p in primes;
      var i :| 0 <= i < |primes| && primes[i] == p;
      assert num % primes[i] == 0;
    }
  }

  /** One more than the product of some numbers at least 2 is divisible by
      none of them. */
  lemma {:induction false} ProductDivisible(s: seq<int>, i: int)
    requires forall k :: 0 <= k < |s| ==> s[k] >= 2
    requires 0 <= i < |s|
    ensures Product(s) >= 1 && Product(s) % s[i] == 0
    decreases |s|
  {
    var init := s[..|s| - 1];
    ProductPositive(init);
    if i == |s| - 1 {
      ModOf(Product(init), s[i], 0);
    } else {
      ProductDivisible(init, i);
      MultipleOfMultiple(Product(init), s[|s| - 1], s[i]);
    }
  }

  lemma {:induction false} ProductPositive(s: seq<int>)
    requires forall k :: 0 <= k < |s| ==> s[k] >= 2
    ensures Product(s) >= 1
    decreases |s|
  {
    if s != [] {
      ProductPositive(s[..|s| - 1]);
    }
  }

  lemma EuclidCandidate(s: seq<int>)
    requires forall k :: 0 <= k < |s| ==> s[k] >= 2
    ensures NoneDivides(Product(s) + 1, s)
  {
    forall i | 0 <= i < |s|
      ensures s[i] != 0 && (Product(s) + 1) % s[i] != 0
    {
      ProductDivisible(s, i);
      SuccessorOfMultiple(Product(s), s[i]);
    }
  }

  /** One more than a multiple of `d >= 2` leaves remainder 1. */
  lemma SuccessorOfMultiple(m: int, d: int)
    requires d >= 2 && m % d == 0
    ensures (m + 1) % d == 1
  {
    assert m == m / d * d;
    ModOf(m / d, d, 1);
  }

  // -----------------------------------------------------------------------
  // The generator and the wrapper
  // -----------------------------------------------------------------------

  /** `gen_primes(n)` through `get_nth_element`: IndexError for `n <= 0`;
      otherwise run the generator, counting the yielded numbers from 1,
      and return the n-th, which is the prime with exactly `n - 1` primes
      below it. The generator never ends, so the wrapper's IndexError for
      an exhausted generator cannot happen. */
  method NthPrime(n: int) returns (r: Result<int>)
    ensures r.Err? <==> n <= 0
    ensures r.Err? ==> r.error == IndexError
    ensures r.Ok? ==> IsPrime(r.value) && |PrimesBelow(r.value)| == n - 1
  {
    if n <= 0 {
      return Err(IndexError);
    }
    var primes: seq<int> := [];
    var num := 2;
    var i := 0;
    while true
      invariant num >= 2 && primes == PrimesBelow(num) && i == |primes| < n
      invariant num <= Product(primes) + 1
      decreases n - i, Product(primes) + 1 - num
    {
      if NoneDivides(num, primes) {
        KeepStep(num);
        primes := primes + [num];
        i := i + 1;
        if i == n {
          return Ok(num);
        }
      } else {
        SkipStep(num);
      }
      num := num + 1;
    }
  }

  /** A candidate that passes the test is a prime, and appending it keeps
      the list equal to the primes below the next candidate, within the
      bound the product gives. */
  lemma KeepStep(num: int)
    requires num >= 2 && NoneDivides(num, PrimesBelow(num))
    ensures IsPrime(num) && PrimesBelow(num + 1) == PrimesBelow(num) + [num]
    ensures num + 1 <= Product(PrimesBelow(num) + [num]) + 1
  {
    var primes := PrimesBelow(num);
    NoneDividesIffPrime(num);
    AllAtLeastTwo(num);
    ProductPositive(primes);
    ProductAppend(primes, num);
    MulAtLeast(Product(primes), num);
  }

  lemma ProductAppend(s: seq<int>, x: int)
    ensures Product(s + [x]) == Product(s) * x
  {
    assert (s + [x])[..|s|] == s;
  }

  lemma MulAtLeast(a: int, b: int)
    requires a >= 1 && b >= 0
    ensures a * b >= b
  {
    assert a * b == b + (a - 1) * b;
  }

  /** A candidate that fails the test is not a prime and is not the
      product of the primes so far plus one, so the next candidate is still
      within that bound. */
  lemma SkipStep(num: int)
    requires num >= 2 && !NoneDivides(num, PrimesBelow(num))
    ensures !IsPrime(num) && PrimesBelow(num + 1) == PrimesBelow(num)
    ensures num != Product(PrimesBelow(num)) + 1
  {
    NoneDividesIffPrime(num);
    AllAtLeastTwo(num);
    EuclidCandidate(PrimesBelow(num));
  }

  lemma AllAtLeastTwo(num: int)
    ensures forall k :: 0 <= k < |PrimesBelow(num)| ==> PrimesBelow(num)[k] >= 2
  {
    PrimesBelowMembers(num);
    var primes := PrimesBelow(num);
    forall k | 0 <= k < |primes|
      ensures primes[k] >= 2
    {
      assert primes[k] in primes;
    }
  }

  /** The index is 1-based: the first prime is 2. */
  lemma FirstPrimeIsTwo()
    ensures IsPrime(2) && |PrimesBelow(2)| == 0
  {
  }

  /** A prime is determined by how many primes lie below it, so the
      wrapper's result for a given index is unique. */
  lemma NthPrimeUnique(p: int, q: int)
    requires IsPrime(p) && IsPrime(q) && |PrimesBelow(p)| == |PrimesBelow(q)|
    ensures p == q
  {
    if p < q {
      FewerPrimesBelowSmaller(p, q);
    } else if q < p {
      FewerPrimesBelowSmaller(q, p);
    }
  }

  /** Below a larger bound lie strictly more primes than below a smaller
      prime. */
  lemma FewerPrimesBelowSmaller(p: int, q: int)
    requires IsPrime(p) && p < q
    ensures |PrimesBelow(p)| < |PrimesBelow(q)|
  {
    assert |PrimesBelow(p + 1)| == |PrimesBelow(p)| + 1;
    PrimesBelowPrefix(p + 1, q);
  }
}
