/**
 The prime tables: trial division on the fly, a sieve computed beforehand, and a hybrid of the two.
 */
module Primes {
  import opened Common

  ghost predicate Divides(d: int, n: int)
    requires d > 0
  {
    exists k :: n == k * d
  }

  ghost predicate Prime(n: int) {
    n >= 2 && forall d | 2 <= d < n :: !Divides(d, n)
  }

  // r is the least prime above p.
  ghost predicate IsNextPrime(p: int, r: int) {
    Prime(r) && r > p && forall n | p < n < r :: !Prime(n)
  }

  // --------------------------------------------------------------------------
  // Divisibility
  // --------------------------------------------------------------------------

  lemma DividesIffNoRemainder(d: int, n: int)
    requires d > 0
    ensures Divides(d, n) <==> n % d == 0
  {
    if n % d == 0 {
      assert n == (n / d) * d;
    }
    if Divides(d, n) {
      var k :| n == k * d;
      RemainderOfMultiple(k, d);
    }
  }

  lemma Distribute(a: int, b: int, c: int)
    ensures (a - b) * c == a * c - b * c
  {
  }

  // A multiple of d that is less than d either way is zero.
  lemma SmallMultiple(m: int, d: int)
    requires d > 0 && -d < m * d < d
    ensures m == 0
  {
    if m >= 1 {
      MulMonotone(1, m, d);
    } else if m <= -1 {
      MulMonotone(m, -1, d);
    }
  }

  lemma RemainderOfMultiple(k: int, d: int)
    requires d > 0
    ensures (k * d) % d == 0
  {
    var n := k * d;
    var q := n / d;
    assert n == q * d + n % d;
    Distribute(k, q, d);
    SmallMultiple(k - q, d);
  }

  lemma DividesMultiple(d: int, n: int, m: int)
    requires d > 0 && Divides(d, n)
    ensures Divides(d, n * m)
  {
    var k :| n == k * d;
    assert n * m == (k * m) * d;
  }

  lemma DividesTransitive(a: int, b: int, c: int)
    requires a > 0 && b > 0 && Divides(a, b) && Divides(b, c)
    ensures Divides(a, c)
  {
    var k :| c == k * b;
    DividesMultiple(a, b, k);
    assert c == b * k;
  }

  lemma Cofactor(n: int, d: int, k: int)
    requires 2 <= d < n && n == k * d
    ensures 2 <= k < n
  {
    if k <= 1 {
      MulMonotone(k, 1, d);
    } else if k >= n {
      MulMonotone(2, d, k);
    }
  }

  lemma SquareBelowProduct(q: int, s: int, t: int)
    requires 0 <= q <= s <= t
    ensures q * q <= s * t
  {
    MulMonotone(q, s, q);
    MulMonotone(q, t, s);
  }

  // Every number from 2 on has a prime divisor; for a composite number, one whose square is no larger.
  lemma {:induction false} PrimeDivisor(n: int) returns (q: int)
    requires n >= 2
    ensures Prime(q) && Divides(q, n) && q <= n
    ensures !Prime(n) ==> q * q <= n
    decreases n, 1
  {
    if Prime(n) {
      assert n == 1 * n;
      return n;
    }
    var d :| 2 <= d < n && Divides(d, n);
    var k :| n == k * d;
    Cofactor(n, d, k);
    // the smaller of d and its cofactor has a small prime divisor
    if d <= k {
      q := SmallPrimeDivisor(n, d, k);
    } else {
      q := SmallPrimeDivisor(n, k, d);
    }
  }

  lemma {:induction false} SmallPrimeDivisor(n: int, s: int, t: int) returns (q: int)
    requires 2 <= s <= t && s < n && n == t * s
    ensures Prime(q) && Divides(q, n) && q <= n && q * q <= n
    decreases n, 0
  {
    q := PrimeDivisor(s);
    assert Divides(s, n);
    DividesTransitive(q, s, n);
    SquareBelowProduct(q, s, t);
  }

  // It is enough to try primes up to the square root.
  lemma PrimeIffNoSmallPrimeDivisor(n: int)
    requires n >= 2
    ensures Prime(n) <==> forall d | 2 <= d && d * d <= n && Prime(d) :: !Divides(d, n)
  {
    if !Prime(n) {
      var q := PrimeDivisor(n);
    } else {
      forall d | 2 <= d && d * d <= n && Prime(d)
        ensures !Divides(d, n)
      {
        MulMonotone(2, d, d);
      }
    }
  }

  // --------------------------------------------------------------------------
  // There is always a next prime
  // --------------------------------------------------------------------------

  function Factorial(n: nat): (f: nat)
    ensures f >= 1
  {
    if n == 0 then 1 else Factorial(n - 1) * n
  }

  lemma {:induction false} DividesFactorial(d: int, n: nat)
    requires 1 <= d <= n
    ensures Divides(d, Factorial(n))
  {
    if d == n {
      assert Factorial(n) == Factorial(n - 1) * d;
    } else {
      DividesFactorial(d, n - 1);
      DividesMultiple(d, Factorial(n - 1), n);
    }
  }

  lemma DividesNeighbours(d: int, n: int)
    requires d >= 2 && Divides(d, n)
    ensures !Divides(d, n + 1)
  {
    if Divides(d, n + 1) {
      var k :| n == k * d;
      var m :| n + 1 == m * d;
      Distribute(m, k, d);
      SmallMultiple(m - k, d);
      assert false;
    }
  }

  // Euclid: a prime divisor of p! + 1 is above p.
  lemma PrimeAbove(p: nat) returns (q: int)
    ensures Prime(q) && q > p
  {
    q := PrimeDivisor(Factorial(p) + 1);
    if q <= p {
      DividesFactorial(q, p);
      DividesNeighbours(q, Factorial(p));
    }
  }

  lemma SquaresOrdered(q: int, i: int, n: int)
    requires q * q <= n < i * i && q >= 0 && i >= 0
    ensures q < i
  {
    if q >= i {
      MulMonotone(i, q, i);
      MulMonotone(i, q, q);
    }
  }

  // --------------------------------------------------------------------------
  // Implementation 1: on the fly
  // --------------------------------------------------------------------------

  method OnTheFlyIsPrime(n: int) returns (b: bool)
    ensures b <==> Prime(n)
  {
    if n <= 1 {
      return false;
    }
    var i := 2;
    while i * i <= n
      invariant 2 <= i && forall d | 2 <= d < i :: !Divides(d, n)
      decreases n - i
    {
      DividesIffNoRemainder(i, n);
      // n is divisible by an integer other than 1 and itself.
      if n % i == 0 {
        MulMonotone(2, i, i);
        return false;
      }
      i := i + 1;
    }
    if !Prime(n) {
      ghost var q := PrimeDivisor(n);
      SquaresOrdered(q, i, n);
    }
    return true;
  }

  method OnTheFlyGetNextPrime(p: int) returns (r: int)
    ensures if p < 0 then r == -1 else IsNextPrime(p, r)
  {
    if p < 0 {
      return -1;
    }
    ghost var q := PrimeAbove(p);
    var n := p + 1;
    while true
      invariant p < n <= q && forall k | p < k < n :: !Prime(k)
      decreases q - n
    {
      var prime := OnTheFlyIsPrime(n);
      if prime {
        return n;
      }
      n := n + 1;
    }
  }

  // --------------------------------------------------------------------------
  // Implementation 2: the sieve
  // --------------------------------------------------------------------------

  // n survives the primes below i: none of them whose square is at most n divides it.
  ghost predicate Survives(n: int, i: int) {
    n >= 2 && forall d | 2 <= d < i && d * d <= n && Prime(d) :: !Divides(d, n)
  }

  lemma SurvivorIsPrime(n: int, i: int)
    requires n < i * i && i >= 2
    ensures Survives(n, i) <==> Prime(n)
  {
    if n >= 2 {
      PrimeIffNoSmallPrimeDivisor(n);
      forall d | 2 <= d && d * d <= n
        ensures d < i
      {
        SquaresOrdered(d, i, n);
      }
    }
  }

  lemma AtMostSquare(i: int)
    requires i >= 2
    ensures i <= i * i
  {
    MulMonotone(2, i, i);
  }

  // Whether i itself is prime is known when the sieve gets to it.
  lemma CandidateIsDecided(i: int)
    requires i >= 2
    ensures Survives(i, i) <==> Prime(i)
  {
    MulMonotone(2, i, i);
    SurvivorIsPrime(i, i);
  }

  // Passing a number that is not prime changes nothing.
  lemma PassComposite(n: int, i: int)
    requires i >= 2 && !Prime(i)
    ensures Survives(n, i + 1) <==> Survives(n, i)
  {
  }

  // Passing a prime removes its multiples from its square on.
  lemma PassPrime(n: int, i: int)
    requires i >= 2 && Prime(i)
    ensures Survives(n, i + 1) <==> Survives(n, i) && !(i * i <= n && Divides(i, n))
  {
  }

  lemma EvenIsNotPrime(n: int)
    requires n > 2 && n % 2 == 0
    ensures !Prime(n)
  {
    assert n == (n / 2) * 2;
    assert Divides(2, n);
  }

  class PreCalculatedPrimeTable {
    const isPrimeSize: int
    const isPrime: array<bool>

    ghost predicate Valid()
      reads isPrime
    {
      isPrime.Length == isPrimeSize >= 2 && forall n | 0 <= n < isPrimeSize :: isPrime[n] <==> Prime(n)
    }

    // `max` is the largest number that the table holds.
    constructor (max: int)
      requires max >= 1
      ensures Valid() && isPrimeSize == max + 1 && fresh(isPrime)
    {
      isPrimeSize := if 1 >= max + 1 then 1 else max + 1;
      isPrime := new bool[if 1 >= max + 1 then 1 else max + 1];
      new;
      CalculatePrimesUpTo(isPrimeSize - 1);
    }

    // Entries from 0 to max tell which numbers survive the primes below i.
    ghost predicate Sieved(max: int, i: int)
      requires 0 <= max < isPrime.Length
      reads isPrime
    {
      forall n | 0 <= n <= max :: isPrime[n] <==> Survives(n, i)
    }

    method CalculatePrimesUpTo(max: int)
      requires 1 <= max && isPrime.Length == isPrimeSize == max + 1
      modifies isPrime
      ensures Valid()
    {
      hide Prime, Divides, Sieved, Survives;
      for k := 0 to isPrime.Length
        invariant forall n | 0 <= n < k :: isPrime[n]
      {
        isPrime[k] := true;
      }
      isPrime[0], isPrime[1] := false, false;
      SieveBegins(max);
      // Checks every candidate for prime number (we know that 2 is the only even prime).
      var i := 2;
      while i * i <= max
        invariant 2 <= i && (i == 2 || i % 2 == 1) && Sieved(max, i)
        decreases max - i
      {
        AtMostSquare(i);
        CheckCandidate(max, i);
        i := i + i % 2 + 1;
      }
      SieveEnds(max, i);
    }

    // One candidate; the even number behind an odd one need not be looked at.
    method CheckCandidate(max: int, i: int)
      requires 2 <= i <= max < isPrime.Length && (i == 2 || i % 2 == 1) && Sieved(max, i)
      modifies isPrime
      ensures Sieved(max, i + i % 2 + 1)
    {
      hide Prime, Divides, Sieved, Survives;
      CandidateIsMarked(max, i);
      if isPrime[i] {
        MarkMultiples(max, i);
      } else {
        SievePasses(max, i);
      }
      if i % 2 == 1 {
        EvenIsNotPrime(i + 1);
        SievePasses(max, i + 1);
      }
    }

    lemma SieveBegins(max: int)
      requires 1 <= max && isPrime.Length == max + 1
      requires !isPrime[0] && !isPrime[1] && forall n | 2 <= n <= max :: isPrime[n]
      ensures Sieved(max, 2)
    {
    }

    lemma CandidateIsMarked(max: int, i: int)
      requires 2 <= i <= max < isPrime.Length && Sieved(max, i)
      ensures isPrime[i] <==> Prime(i)
    {
      CandidateIsDecided(i);
    }

    // A number that is not prime has nothing to mark.
    lemma SievePasses(max: int, i: int)
      requires 2 <= i && 0 <= max < isPrime.Length && !Prime(i) && Sieved(max, i)
      ensures Sieved(max, i + 1)
    {
      hide Prime, Survives;
      forall n | 0 <= n <= max
        ensures Survives(n, i + 1) <==> Survives(n, i)
      {
        PassComposite(n, i);
      }
    }

    lemma SieveEnds(max: int, i: int)
      requires 1 <= max && isPrime.Length == isPrimeSize == max + 1 && i >= 2 && max < i * i && Sieved(max, i)
      ensures Valid()
    {
      hide Prime, Survives;
      forall n | 0 <= n <= max
        ensures Survives(n, i) <==> Prime(n)
      {
        SurvivorIsPrime(n, i);
      }
    }

    // Marks all multiples of i (except i itself) as non-prime, from the i-th multiple on.
    method MarkMultiples(max: int, i: int)
      requires 2 <= i && 0 <= max < isPrime.Length && Prime(i) && Sieved(max, i)
      modifies isPrime
      ensures Sieved(max, i + 1)
    {
      hide Prime, Survives;
      var j := i * i;
      ghost var k := i;
      MulMonotone(0, i, i);
      while j <= max
        invariant j == k * i && i <= k && 0 <= j
        invariant forall n | 0 <= n <= max ::
                    isPrime[n] <==> Survives(n, i) && !(i * i <= n < j && Divides(i, n))
        decreases max - j
      {
        assert Divides(i, j);
        NoMultipleBetween(i, k);
        isPrime[j] := false;
        j, k := j + i, k + 1;
      }
      forall n
        ensures Survives(n, i + 1) <==> Survives(n, i) && !(i * i <= n && Divides(i, n))
      {
        PassPrime(n, i);
      }
    }

    method IsPrime(n: int) returns (b: bool)
      requires Valid()
      ensures b <==> n < isPrimeSize && Prime(n)
    {
      b := 0 <= n && n < isPrimeSize && isPrime[n];
    }

    // The least prime above p, or -1 if it is beyond the table.
    method GetNextPrime(p: int) returns (r: int)
      requires Valid() && p >= -1
      ensures r != -1 ==> r < isPrimeSize && IsNextPrime(p, r)
      ensures r == -1 ==> forall n | p < n < isPrimeSize :: !Prime(n)
    {
      var n := p + 1;
      while n < isPrimeSize
        invariant p < n && forall k | p < k < n && k < isPrimeSize :: !Prime(k)
        decreases isPrimeSize - n
      {
        if isPrime[n] {
          return n;
        }
        n := n + 1;
      }
      return -1;
    }
  }

  lemma NoMultipleBetween(i: int, k: int)
    requires i > 0
    ensures forall n | k * i < n < (k + 1) * i :: !Divides(i, n)
  {
    forall n | k * i < n < (k + 1) * i
      ensures !Divides(i, n)
    {
      if Divides(i, n) {
        var m :| n == m * i;
        if m <= k {
          MulMonotone(m, k, i);
        } else {
          MulMonotone(k + 1, m, i);
        }
      }
    }
  }

  // --------------------------------------------------------------------------
  // The hybrid
  // --------------------------------------------------------------------------

  class HybridPrimeTable {
    const precalcImpl: PreCalculatedPrimeTable?
    const maxPrecalculated: int

    ghost predicate Valid()
      reads precalcImpl, if precalcImpl == null then {} else {precalcImpl.isPrime}
    {
      precalcImpl != null ==> precalcImpl.Valid() && precalcImpl.isPrimeSize == maxPrecalculated + 1
    }

    constructor (forceOnTheFly: bool, maxPrecalculated: int)
      requires forceOnTheFly || maxPrecalculated >= 1
      ensures Valid() && this.maxPrecalculated == maxPrecalculated && (precalcImpl == null <==> forceOnTheFly)
    {
      this.maxPrecalculated := maxPrecalculated;
      if forceOnTheFly {
        precalcImpl := null;
      } else {
        precalcImpl := new PreCalculatedPrimeTable(maxPrecalculated);
      }
    }

    method IsPrime(n: int) returns (b: bool)
      requires Valid()
      ensures b <==> Prime(n)
    {
      if precalcImpl != null && n < maxPrecalculated {
        b := precalcImpl.IsPrime(n);
      } else {
        b := OnTheFlyIsPrime(n);
      }
    }

    // The least prime above p, wherever the table ends.  For p = -1 the two implementations differ.
    method GetNextPrime(p: int) returns (r: int)
      requires Valid() && (precalcImpl == null || p >= -1)
      ensures p >= 0 ==> IsNextPrime(p, r)
      ensures p < 0 ==> r == if precalcImpl != null && maxPrecalculated >= 2 then 2 else -1
    {
      var nextPrime := -1;
      if precalcImpl != null && p < maxPrecalculated {
        nextPrime := precalcImpl.GetNextPrime(p);
        SmallPrimes();
      }
      if nextPrime != -1 {
        return nextPrime;
      }
      r := OnTheFlyGetNextPrime(p);
    }
  }

  lemma SmallPrimes()
    ensures Prime(2) && !Prime(0) && !Prime(1)
  {
  }
}
