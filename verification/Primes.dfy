/** Trial division and the search for the next prime, threadlab/htable.c:43-70.

    `GetPrime` has no bound in its loop: that it stops is Euclid's theorem, which
    this module proves and uses as the loop's termination measure. */
module Primes {
  import opened Arithmetic

  predicate Divides(d: int, n: int)
    requires d != 0
  {
    n % d == 0
  }

  ghost predicate Prime(n: int) {
    2 <= n && forall d :: 2 <= d < n ==> !Divides(d, n)
  }

  // ------------------------------------------------------------ divisibility

  lemma MultipleIsDivisible(d: int, q: int)
    requires 0 < d
    ensures Divides(d, d * q)
  {
    MultipleHasNoRemainder(d, q);
  }

  lemma DividesIsTransitive(a: int, b: int, n: int)
    requires 0 < a && 0 < b
    requires Divides(a, b) && Divides(b, n)
    ensures Divides(a, n)
  {
    var x, y := b / a, n / b;
    assert n == a * (x * y) by {
      assert b == a * x && n == b * y;
      assert (a * x) * y == a * (x * y);
    }
    MultipleIsDivisible(a, x * y);
  }

  lemma NoCommonDivisorOfNeighbours(d: int, n: int)
    requires 2 <= d
    requires Divides(d, n)
    ensures !Divides(d, n + 1)
  {
    RemainderIsUnique(n + 1, d, n / d, 1);
  }

  // ------------------------------------------------------------ Euclid

  ghost function Factorial(n: nat): nat {
    if n == 0 then 1 else n * Factorial(n - 1)
  }

  lemma {:induction false} FactorialIsDivisible(d: nat, n: nat)
    requires 1 <= d <= n
    ensures 1 <= Factorial(n) && Divides(d, Factorial(n))
  {
    FactorialIsPositive(n);
    if d == n {
      MultipleIsDivisible(d, Factorial(n - 1));
    } else {
      FactorialIsDivisible(d, n - 1);
      MultipleIsDivisible(Factorial(n - 1), n);
      assert Factorial(n) == Factorial(n - 1) * n;
      DividesIsTransitive(d, Factorial(n - 1), Factorial(n));
    }
  }

  lemma {:induction false} FactorialIsPositive(n: nat)
    ensures 1 <= Factorial(n)
  {
    if n > 0 {
      FactorialIsPositive(n - 1);
      assert n * Factorial(n - 1) >= n * 1;
    }
  }

  /** The least divisor from `d` on; with `d == 2` it is a prime. */
  ghost function LeastDivisor(n: int, d: int): (p: int)
    requires 2 <= d <= n
    ensures d <= p <= n && Divides(p, n)
    ensures forall e :: d <= e < p ==> !Divides(e, n)
    decreases n - d
  {
    if Divides(d, n) || d == n then d else LeastDivisor(n, d + 1)
  }

  lemma LeastDivisorIsPrime(n: int)
    requires 2 <= n
    ensures Prime(LeastDivisor(n, 2))
  {
    var p := LeastDivisor(n, 2);
    forall e | 2 <= e < p ensures !Divides(e, p) {
      if Divides(e, p) {
        DividesIsTransitive(e, p, n);
      }
    }
  }

  /** Euclid: above every bound there is a prime. */
  lemma PrimeAbove(k: nat) returns (p: int)
    ensures k < p && Prime(p)
  {
    FactorialIsPositive(k);
    var n := Factorial(k) + 1;
    p := LeastDivisor(n, 2);
    LeastDivisorIsPrime(n);
    if p <= k {
      FactorialIsDivisible(p, k);
      NoCommonDivisorOfNeighbours(p, Factorial(k));
    }
  }

  // ------------------------------------------------------------ the code

  lemma OddHasNoEvenDivisor(d: int, n: int)
    requires 0 < d && d % 2 == 0 && n % 2 != 0
    ensures !Divides(d, n)
  {
    if Divides(d, n) {
      DividesIsTransitive(2, d, n);
    }
  }

  /** Exact on every int: besides the primes, the code also accepts all n <= 1. */
  method IsPrime(n: int) returns (r: bool)
    ensures r <==> n <= 1 || Prime(n)
  {
    if n <= 3 {
      assert n == 3 ==> !Divides(2, n);
      return true;
    }
    if n % 2 == 0 {
      assert Divides(2, n);
      return false;
    }
    var i := 3;
    while i < n
      invariant 3 <= i && i % 2 == 1
      invariant forall d :: 2 <= d < i && d < n ==> !Divides(d, n)
    {
      if n % i == 0 {
        assert Divides(i, n);
        return false;
      }
      OddHasNoEvenDivisor(i + 1, n);
      i := i + 2;
    }
    return true;
  }

  /** `p` is what a search for a prime from `min` upwards ends with. */
  ghost predicate IsNextPrime(min: int, p: int) {
    min <= p
    && (min <= 1 ==> p == min)
    && (2 <= min ==> Prime(p) && forall m :: min <= m < p ==> !Prime(m))
  }

  method GetPrime(min: int) returns (n: int)
    ensures IsNextPrime(min, n)
  {
    ghost var p := PrimeAbove(if min < 0 then 0 else min);
    n := min;
    while true
      invariant min <= n <= p
      invariant min <= 1 ==> n == min
      invariant 2 <= min ==> forall m :: min <= m < n ==> !Prime(m)
      decreases p - n
    {
      var found := IsPrime(n);
      if found {
        return n;
      }
      n := n + 1;
    }
  }

  lemma NextPrimeIsUnique(min: int, p: int, q: int)
    requires IsNextPrime(min, p) && IsNextPrime(min, q)
    ensures p == q
  {
  }

  /** The comment on the search promises a prime above `min`. It finds one exactly when `min`
      is at least 2 and not a prime itself. */
  lemma NextPrimeIsAbove(min: int, p: int)
    requires IsNextPrime(min, p)
    ensures (min < p && Prime(p)) <==> (2 <= min && !Prime(min))
  {
  }

  /** From a prime the search goes nowhere. */
  lemma NextPrimeStays()
    ensures IsNextPrime(7, 7) && Prime(7)
    ensures forall p :: IsNextPrime(7, p) ==> p == 7
  {
    assert !Divides(2, 7) && !Divides(3, 7) && !Divides(4, 7) && !Divides(5, 7) && !Divides(6, 7);
  }

  /** Doubling lands strictly above the double, because an even number over 2 is composite. */
  lemma NextPrimeOverDouble(size: int, p: int)
    requires 1 <= size
    requires IsNextPrime(2 * size, p)
    ensures Prime(p)
    ensures 2 * size < p <==> 2 <= size
    ensures size == 1 ==> p == 2
  {
    if 2 <= size {
      MultipleIsDivisible(2, size);
    } else {
      assert Prime(2);
    }
  }
}
