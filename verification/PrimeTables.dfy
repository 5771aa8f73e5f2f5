/** Prime tables: trial division, a sieve, and a hybrid of the two. */
module PrimeTables {

  predicate Divides(d: int, n: int)
    requires d > 0
  {
    n % d == 0
  }

  ghost predicate Prime(n: int) {
    n >= 2 && forall d :: 2 <= d < n ==> !Divides(d, n)
  }

  /** r is the least prime above p. */
  ghost predicate IsNextPrime(p: int, r: int) {
    p < r && Prime(r) && forall k :: p < k < r ==> !Prime(k)
  }

  // ----- Divisibility

  lemma Quotient(d: int, n: int) returns (k: int)
    requires d > 0 && Divides(d, n)
    ensures n == d * k && (n >= 0 ==> k >= 0) && (n > 0 ==> k >= 1)
  {
    k := n / d;
  }

  /** No multiple of i lies strictly between 0 and i. */
  lemma Between(i: int, m: int)
    requires i > 0
    ensures !(0 < i * m < i)
  {
    if m >= 1 { assert i * m >= i; } else { assert i * m <= 0; }
  }

  lemma MultipleOf(d: int, k: int)
    requires d > 0
    ensures Divides(d, d * k)
  {
    var n := d * k;
    assert n % d == d * (k - n / d);
    Between(d, k - n / d);
  }

  lemma DividesTransitive(a: int, b: int, c: int)
    requires a > 0 && b > 0 && c >= 0 && Divides(a, b) && Divides(b, c)
    ensures Divides(a, c)
  {
    var j := Quotient(a, b);
    var k := Quotient(b, c);
    assert c == a * (j * k);
    assert j * k >= 0;
    MultipleOf(a, j * k);
  }

  /** Of two cofactors, one lies below any bound whose square exceeds their product. */
  lemma SmallFactor(n: int, d: int, bound: int) returns (e: int)
    requires 2 <= d < n && Divides(d, n) && bound >= 1 && bound * bound > n
    ensures 2 <= e < bound && e < n && Divides(e, n)
  {
    var c := Quotient(d, n);
    Squares(d, c, bound);
    if d < bound {
      e := d;
    } else {
      e := c;
      MultipleOf(c, d);
      assert c * d == n && d * 1 == d;
      assert d * c >= 2 * c;
    }
  }

  lemma Squares(d: int, e: int, bound: int)
    ensures d >= bound >= 0 && e >= bound ==> d * e >= bound * bound
  {
    assert d * e - bound * bound == (d - bound) * e + bound * (e - bound);
    if d >= bound >= 0 && e >= bound { assert (d - bound) * e >= 0 && bound * (e - bound) >= 0; }
  }

  /** Without a divisor below such a bound, a number is prime. */
  lemma SmallDivisor(n: int, bound: int)
    requires n >= 2 && bound >= 1 && bound * bound > n
    requires forall d :: 2 <= d < bound && d < n ==> !Divides(d, n)
    ensures Prime(n)
  {
    forall d | 2 <= d < n ensures !Divides(d, n) {
      if Divides(d, n) { var e := SmallFactor(n, d, bound); }
    }
  }

  // ----- There is always a larger prime

  ghost function Factorial(n: nat): (f: nat)
    ensures f >= 1
  {
    if n == 0 then 1 else n * Factorial(n - 1)
  }

  lemma {:induction false} DividesFactorial(d: int, n: nat)
    requires 1 <= d <= n
    ensures Divides(d, Factorial(n))
  {
    if d == n {
      MultipleOf(d, Factorial(n - 1));
    } else {
      DividesFactorial(d, n - 1);
      var k := Quotient(d, Factorial(n - 1));
      assert Factorial(n) == d * (n * k);
      MultipleOf(d, n * k);
    }
  }

  lemma {:induction false} PrimeDivisor(n: int) returns (q: int)
    requires n >= 2
    ensures Prime(q) && q <= n && Divides(q, n)
    decreases n
  {
    if Prime(n) {
      q := n;
      MultipleOf(n, 1);
      assert n * 1 == n;
    } else {
      var d :| 2 <= d < n && Divides(d, n);
      q := PrimeDivisor(d);
      DividesTransitive(q, d, n);
    }
  }

  lemma PrimeAbove(n: nat) returns (q: int)
    ensures Prime(q) && q > n
  {
    var f := Factorial(n);
    q := PrimeDivisor(f + 1);
    if q <= n {
      DividesFactorial(q, n);
      NoCommonDivisor(q, f);
    }
  }

  lemma NoCommonDivisor(d: int, n: int)
    requires d >= 2
    ensures !(Divides(d, n) && Divides(d, n + 1))
  {
    assert n == d * (n / d) + n % d && n + 1 == d * ((n + 1) / d) + (n + 1) % d;
    var m := (n + 1) / d - n / d;
    assert d * m == d * ((n + 1) / d) - d * (n / d);
    Between(d, m);
  }

  lemma NextPrimeUnique(p: int, q: int, r: int)
    requires IsNextPrime(p, q) && IsNextPrime(p, r)
    ensures q == r
  {
  }

  // ----- Trial division

  method OnTheFlyIsPrime(n: int) returns (prime: bool)
    ensures prime <==> Prime(n)
  {
    if n <= 1 {
      return false;
    }
    var i := 2;
    while i * i <= n
      invariant i >= 2 && forall d :: 2 <= d < i ==> !Divides(d, n)
      invariant i <= n
      decreases n - i
    {
      if n % i == 0 {
        assert Divides(i, n);
        assert i < n by { assert i * i >= 2 * i; }
        return false;
      }
      assert i < n by { assert i * i >= 2 * i; }
      i := i + 1;
    }
    SmallDivisor(n, i);
    return true;
  }

  /** Odd trial divisors only, with a bound that cannot overflow. */
  method OddTrialIsPrime(n: int) returns (prime: bool)
    ensures prime <==> Prime(n)
  {
    if n <= 1 {
      return false;
    }
    if n % 2 == 0 {
      assert Divides(2, n);
      if n == 2 { SmallDivisor(2, 2); }
      return n == 2;
    }
    var i := 3;
    while true
      invariant i >= 3 && i % 2 == 1 && i <= n + 2
      invariant forall d :: 2 <= d < i ==> !Divides(d, n)
      decreases n + 2 - i
    {
      if i > n / i {
        BeyondRoot(n, i);
        break;
      }
      assert i < n by { WithinRoot(n, i); }
      if n % i == 0 {
        assert Divides(i, n);
        return false;
      }
      OddHasNoEvenDivisor(n, i + 1);
      assert !Divides(i, n);
      i := i + 2;
    }
    SmallDivisor(n, i);
    return true;
  }

  lemma ScaledOrder(i: int, a: int, b: int)
    requires i >= 0 && a <= b
    ensures i * a <= i * b
  {
    assert i * (b - a) >= 0;
  }

  lemma BeyondRoot(n: int, i: int)
    requires n >= 0 && i > 0 && i > n / i
    ensures i * i > n
  {
    var q := n / i;
    assert n - i * q < i;
    ScaledOrder(i, q, i - 1);
    assert i * (i - 1) == i * i - i;
  }

  lemma WithinRoot(n: int, i: int)
    requires n >= 0 && i >= 3 && i <= n / i
    ensures i < n
  {
    var q := n / i;
    assert n - i * q >= 0;
    ScaledOrder(i, 3, q);
  }

  lemma OddHasNoEvenDivisor(n: int, d: int)
    requires n > 0 && n % 2 == 1 && d >= 2 && d % 2 == 0
    ensures !Divides(d, n)
  {
    if Divides(d, n) {
      Halve(d);
      DividesTransitive(2, d, n);
    }
  }

  lemma Halve(d: int)
    requires d % 2 == 0
    ensures Divides(2, d)
  {
  }

  method OnTheFlyGetNextPrime(p: int) returns (r: int)
    ensures p >= 0 ==> IsNextPrime(p, r)
    ensures p < 0 ==> r == -1
  {
    var n := p + 1;
    ghost var q := n;
    if p >= 0 { q := PrimeAbove(p); }
    while n > 0
      invariant n > p && (p >= 0 ==> n <= q)
      invariant p < 0 ==> n == p + 1
      invariant forall k :: p < k < n ==> !Prime(k)
      decreases q - n
    {
      var prime := OnTheFlyIsPrime(n);
      if prime {
        return n;
      }
      n := n + 1;
    }
    return -1;
  }

  // ----- The sieve

  /** No divisor below `i`, other than the number itself, has been found. */
  ghost predicate Survives(k: int, i: int) {
    k >= 2 && forall d :: 2 <= d < i && d < k ==> !Divides(d, k)
  }

  lemma SurvivesStep(k: int, i: int)
    requires i >= 2
    ensures Survives(k, i + 1) <==> Survives(k, i) && !(i < k && Divides(i, k))
  {
  }

  /** Striking out the multiples of a composite changes nothing. */
  lemma CompositeStrikesNothing(k: int, i: int)
    requires i >= 2 && !Survives(i, i)
    ensures Survives(k, i + 1) <==> Survives(k, i)
  {
    if Survives(k, i) && i < k && Divides(i, k) {
      var e :| 2 <= e < i && Divides(e, i);
      DividesTransitive(e, i, k);
    }
    SurvivesStep(k, i);
  }

  lemma MultipleAbove(i: int, k: int)
    requires i >= 2 && k > i && Divides(i, k)
    ensures k >= 2 * i
  {
    var m := Quotient(i, k);
    assert i * 1 == i;
    assert m >= 2;
    assert i * m >= i * 2;
  }

  lemma BetweenMultiples(i: int, j: int, k: int)
    requires i >= 2 && Divides(i, j) && j < k < j + i
    ensures !Divides(i, k)
  {
    var m := Quotient(i, j);
    assert k == i * m + (k - j);
    RemainderOf(i, m, k - j);
  }

  lemma RemainderOf(i: int, m: int, r: int)
    requires i > 0 && 0 < r < i
    ensures (i * m + r) % i != 0
  {
    var n := i * m + r;
    assert n == i * (n / i) + n % i;
    if n % i == 0 { assert r == i * (n / i - m); Between(i, n / i - m); }
  }

  class PreCalculatedPrimeTable {
    const isPrime: array<bool>

    ghost predicate Valid()
      reads isPrime
    {
      isPrime.Length >= 2 && forall k :: 0 <= k < isPrime.Length ==> (isPrime[k] <==> Prime(k))
    }

    constructor (max: int)
      requires max >= 1
      ensures Valid() && fresh(isPrime) && isPrime.Length == max + 1
    {
      isPrime := new bool[max + 1](_ => true);
      new;
      isPrime[0], isPrime[1] := false, false;
      var i := 2;
      while i <= max
        invariant 2 <= i <= max + 1
        invariant forall k :: 0 <= k <= max ==> (isPrime[k] <==> Survives(k, i))
      {
        if !isPrime[i] {
          forall k | 0 <= k <= max ensures Survives(k, i + 1) <==> Survives(k, i) { CompositeStrikesNothing(k, i); }
          i := i + 1;
          continue;
        }
        StrikeOut(isPrime, i);
        i := i + 1;
      }
      assert forall k :: 0 <= k <= max ==> (Survives(k, max + 1) <==> Prime(k));
    }

    method IsPrime(n: int) returns (prime: bool)
      requires Valid()
      ensures prime <==> n < isPrime.Length && Prime(n)
    {
      prime := 0 <= n < isPrime.Length && isPrime[n];
    }

    /** The least prime above p within the table, or -1. A p below -1 would index before the array. */
    method GetNextPrime(p: int) returns (r: int)
      requires Valid() && p >= -1
      ensures r == -1 || (IsNextPrime(p, r) && r < isPrime.Length)
      ensures r == -1 <==> forall k :: p < k < isPrime.Length ==> !Prime(k)
    {
      var n := p + 1;
      while n < isPrime.Length
        invariant n > p && forall k :: p < k < n ==> !Prime(k)
      {
        if isPrime[n] {
          return n;
        }
        n := n + 1;
      }
      return -1;
    }
  }

  /** One round of the sieve: after it the numbers with a smaller divisor up to i are struck. */
  method StrikeOut(isPrime: array<bool>, i: int)
    requires 2 <= i < isPrime.Length
    requires forall k :: 0 <= k < isPrime.Length ==> (isPrime[k] <==> Survives(k, i))
    modifies isPrime
    ensures forall k :: 0 <= k < isPrime.Length ==> (isPrime[k] <==> Survives(k, i + 1))
  {
    hide Divides, Survives;
    var j := 2 * i;
    TwiceDivides(i);
    while j < isPrime.Length
      invariant j >= 2 * i && Divides(i, j)
      invariant forall k :: 0 <= k < isPrime.Length ==>
                  (isPrime[k] <==> Survives(k, i) && !(2 * i <= k < j && Divides(i, k)))
    {
      isPrime[j] := false;
      forall k | j < k < j + i ensures !Divides(i, k) { BetweenMultiples(i, j, k); }
      NextMultiple(i, j);
      j := j + i;
    }
    forall k | 0 <= k < isPrime.Length ensures isPrime[k] <==> Survives(k, i + 1) {
      SurvivesStep(k, i);
      if k > i && Divides(i, k) { MultipleAbove(i, k); }
    }
  }

  lemma TwiceDivides(i: int)
    requires i > 0
    ensures Divides(i, 2 * i)
  {
    MultipleOf(i, 2);
    assert i * 2 == 2 * i;
  }

  lemma NextMultiple(i: int, j: int)
    requires i > 0 && j >= 0 && Divides(i, j)
    ensures Divides(i, j + i)
  {
    var m := Quotient(i, j);
    MultipleOf(i, m + 1);
    assert i * (m + 1) == j + i;
  }

  // ----- The hybrid

  class HybridPrimeTable {
    const precalc: PreCalculatedPrimeTable?
    const maxPrecalculated: int

    ghost predicate Valid()
      reads if precalc == null then {} else {precalc.isPrime}
    {
      precalc != null ==> precalc.Valid() && precalc.isPrime.Length == maxPrecalculated + 1
    }

    constructor (forceOnTheFly: bool, maxPrecalculated: int)
      requires forceOnTheFly || maxPrecalculated >= 1
      ensures Valid() && this.maxPrecalculated == maxPrecalculated && (precalc == null <==> forceOnTheFly)
    {
      var table: PreCalculatedPrimeTable? := null;
      if !forceOnTheFly {
        table := new PreCalculatedPrimeTable(maxPrecalculated);
      }
      precalc := table;
      this.maxPrecalculated := maxPrecalculated;
    }

    /** Decides primality for every n, as trial division does. */
    method IsPrime(n: int) returns (prime: bool)
      requires Valid()
      ensures prime <==> Prime(n)
    {
      if precalc != null && n < maxPrecalculated {
        prime := precalc.IsPrime(n);
      } else {
        prime := OnTheFlyIsPrime(n);
      }
    }

    /** For p >= 0 the least prime above p, as on the fly. At p == -1 the two part: a table that reaches 2 finds it. */
    method GetNextPrime(p: int) returns (r: int)
      requires Valid() && (precalc != null ==> p >= -1)
      ensures p >= 0 ==> IsNextPrime(p, r)
      ensures p < 0 ==> r == if precalc != null && maxPrecalculated >= 2 then 2 else -1
    {
      var nextPrime := -1;
      if precalc != null && p < maxPrecalculated {
        nextPrime := precalc.GetNextPrime(p);
        TwoIsFirst();
      }
      if nextPrime != -1 {
        r := nextPrime;
      } else {
        r := OnTheFlyGetNextPrime(p);
      }
    }
  }

  lemma TwoIsFirst()
    ensures IsNextPrime(-1, 2)
    ensures forall r :: IsNextPrime(-1, r) ==> r == 2
  {
    SmallDivisor(2, 2);
    forall r | IsNextPrime(-1, r) ensures r == 2 { NextPrimeUnique(-1, 2, r); }
  }
}
