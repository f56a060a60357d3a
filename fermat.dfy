/** Fermat's little theorem, a^(p - 1) == 1 modulo a prime p for a not
    divisible by p, proved through the binomial theorem:
    (a + 1)^p == a^p + 1 modulo p because p divides every inner binomial
    coefficient. It is what makes g^q == 1 for a generated group whose p is
    truly prime. */
module Fermat {
  import opened Modular

  /** The binomial coefficient n choose k, by Pascal's rule. */
  function Binom(n: nat, k: nat): (c: nat)
    decreases n
  {
    if k == 0 then 1 else if n == 0 then 0 else Binom(n - 1, k - 1) + Binom(n - 1, k)
  }

  /** The first k + 1 terms of the binomial expansion of (a + 1)^n:
      the sum of Binom(n, i) * a^i for i from 0 to k. */
  function BinomialSum(n: nat, a: int, k: nat): (sum: int)
    decreases k
  {
    (if k == 0 then 0 else BinomialSum(n, a, k - 1)) + Binom(n, k) * Pow(a, k)
  }

  /** n choose k is 0 when k exceeds n. */
  lemma {:induction false} BinomAbove(n: nat, k: nat)
    requires k > n
    ensures Binom(n, k) == 0
    decreases n
  {
    if n > 0 {
      BinomAbove(n - 1, k - 1);
      BinomAbove(n - 1, k);
    }
  }

  /** n choose 1 is n. */
  lemma {:induction false} BinomOne(n: nat)
    ensures Binom(n, 1) == n
    decreases n
  {
    if n > 0 {
      BinomOne(n - 1);
    }
  }

  /** The absorption identity k * (n choose k) == n * (n - 1 choose k - 1). */
  lemma {:induction false} Absorption(n: nat, k: nat)
    requires n >= 1 && k >= 1
    ensures k * Binom(n, k) == n * Binom(n - 1, k - 1)
    decreases n
  {
    if k == 1 {
      BinomOne(n);
    } else if n == 1 {
      BinomAbove(0, k - 1);
      BinomAbove(0, k);
    } else {
      // k >= 2 and n >= 2
      Absorption(n - 1, k);
      Absorption(n - 1, k - 1);
      var c, d := Binom(n - 1, k - 1), Binom(n - 1, k);
      var c0, c1 := Binom(n - 2, k - 2), Binom(n - 2, k - 1);
      assert Binom(n, k) == c + d;
      assert c == c0 + c1;
      assert (k - 1) * c == (n - 1) * c0;
      assert k * d == (n - 1) * c1;
      calc {
        k * Binom(n, k);
        { Distribute(k, c, d); }
        k * c + k * d;
        { Distribute(c, k - 1, 1); }
        (k - 1) * c + c + k * d;
        (n - 1) * c0 + (n - 1) * c1 + c;
        { Distribute(n - 1, c0, c1); }
        (n - 1) * c + c;
        { Distribute(c, n - 1, 1); }
        n * c;
      }
    }
  }

  /** Multiplication distributes over addition. */
  lemma Distribute(a: int, b: int, c: int)
    ensures a * (b + c) == a * b + a * c
    ensures (b + c) * a == b * a + c * a
  {
  }

  /** A multiple of m stays one after multiplying by an inverse of a:
      b == b * (a * t) == (a * b) * t modulo m. */
  lemma InverseCancels(a: int, b: int, t: int, m: int)
    requires m > 1 && IsInverse(a, t, m) && Divides(m, a * b)
    ensures Divides(m, b)
  {
    ModInRange(1, m);
    calc {
      b % m;
      (b * 1) % m;
      { ModMulRight(b, a * t, m); }
      (b * (a * t)) % m;
      { MulAssoc(b, a, t); assert b * a == a * b; }
      ((a * b) * t) % m;
      { ModMulLeft(a * b, t, m); }
      (((a * b) % m) * t) % m;
      { assert (a * b) % m == 0; assert 0 * t == 0; }
      0 % m;
      { ModInRange(0, m); }
      0;
    }
  }

  /** Euclid's lemma: a prime dividing a product divides a factor. */
  lemma EuclidPrime(a: int, b: int, p: int)
    requires IsPrime(p) && Divides(p, a * b) && !Divides(p, a)
    ensures Divides(p, b)
  {
    var c := a % p;
    ModInRange(c, p);
    CoprimeBelowPrime(c, p);
    BezoutInverse(a, p);
    InverseCancels(a, b, ExtGcd(a % p, p).1 % p, p);
  }

  /** A prime p divides p choose k for 0 < k < p. */
  lemma PrimeDividesBinom(p: nat, k: nat)
    requires IsPrime(p) && 0 < k < p
    ensures Divides(p, Binom(p, k))
  {
    Absorption(p, k);
    var c := Binom(p - 1, k - 1);
    assert k * Binom(p, k) == p * c;
    ModAddMultiple(0, c, p);
    ModInRange(k, p);
    EuclidPrime(k, Binom(p, k), p);
  }

  /** Pascal's rule for one term of the expansion. */
  lemma PascalTerm(n: nat, a: int, k: nat)
    requires n >= 1 && k >= 1
    ensures Binom(n, k) * Pow(a, k)
         == Binom(n - 1, k) * Pow(a, k) + a * (Binom(n - 1, k - 1) * Pow(a, k - 1))
  {
    assert Binom(n, k) == Binom(n - 1, k - 1) + Binom(n - 1, k);
    assert Pow(a, k) == a * Pow(a, k - 1);
    Distribute(Pow(a, k), Binom(n - 1, k - 1), Binom(n - 1, k));
    MulAssoc(Binom(n - 1, k - 1), a, Pow(a, k - 1));
    MulAssoc(a, Binom(n - 1, k - 1), Pow(a, k - 1));
  }

  /** Pascal's rule lifted to partial sums:
      sum_n(k) == sum_(n-1)(k) + a * sum_(n-1)(k - 1). */
  lemma {:induction false} BinomialSumPascal(n: nat, a: int, k: nat)
    requires n >= 1 && k >= 1
    ensures BinomialSum(n, a, k) == BinomialSum(n - 1, a, k) + a * BinomialSum(n - 1, a, k - 1)
    decreases k
  {
    PascalTerm(n, a, k);
    var term := Binom(n - 1, k - 1) * Pow(a, k - 1);
    if k == 1 {
      assert term == 1;
    } else {
      BinomialSumPascal(n, a, k - 1);
      var previous := BinomialSum(n - 1, a, k - 2);
      assert BinomialSum(n - 1, a, k - 1) == previous + term;
      Distribute(a, previous, term);
    }
  }

  /** The binomial theorem: the full expansion of (a + 1)^n. */
  lemma {:induction false} BinomialTheorem(n: nat, a: int)
    ensures BinomialSum(n, a, n) == Pow(a + 1, n)
    decreases n
  {
    if n > 0 {
      BinomialTheorem(n - 1, a);
      BinomialSumPascal(n, a, n);
      BinomAbove(n - 1, n);
      var previous := Pow(a + 1, n - 1);
      assert BinomialSum(n - 1, a, n) == previous;
      assert BinomialSum(n, a, n) == previous + a * previous;
      Distribute(previous, a, 1);
    }
  }

  /** Every inner term of the expansion of (a + 1)^p is a multiple of p. */
  lemma {:induction false} InnerTermsDivisible(p: nat, a: int, k: nat)
    requires IsPrime(p) && k < p
    ensures Divides(p, BinomialSum(p, a, k) - 1)
    decreases k
  {
    if k == 0 {
      assert BinomialSum(p, a, 0) == 1;
    } else {
      InnerTermsDivisible(p, a, k - 1);
      PrimeDividesBinom(p, k);
      var c := Binom(p, k);
      DividesAsProduct(p, c);
      DividesAsProduct(p, BinomialSum(p, a, k - 1) - 1);
      var u, v := c / p, (BinomialSum(p, a, k - 1) - 1) / p;
      assert c * Pow(a, k) == p * (u * Pow(a, k)) by { MulAssoc(p, u, Pow(a, k)); }
      assert BinomialSum(p, a, k) - 1 == p * (v + u * Pow(a, k));
      ModAddMultiple(0, v + u * Pow(a, k), p);
    }
  }

  /** The freshman's dream: (a + 1)^p == a^p + 1 modulo a prime p. */
  lemma FreshmansDream(p: nat, a: int)
    requires IsPrime(p)
    ensures Pow(a + 1, p) % p == (Pow(a, p) + 1) % p
  {
    BinomialTheorem(p, a);
    InnerTermsDivisible(p, a, p - 1);
    assert Binom(p, p) == 1 by {
      BinomAbove(p - 1, p);
      assert Binom(p, p) == Binom(p - 1, p - 1) + Binom(p - 1, p);
      BinomDiagonal(p - 1);
    }
    var w := BinomialSum(p, a, p - 1) - 1;
    DividesAsProduct(p, w);
    assert Pow(a + 1, p) == (Pow(a, p) + 1) + p * (w / p);
    ModAddMultiple(Pow(a, p) + 1, w / p, p);
  }

  /** n choose n is 1. */
  lemma {:induction false} BinomDiagonal(n: nat)
    ensures Binom(n, n) == 1
    decreases n
  {
    if n > 0 {
      BinomDiagonal(n - 1);
      BinomAbove(n - 1, n);
    }
  }

  /** a^p == a modulo a prime p, for every a >= 0. */
  lemma {:induction false} FermatPower(p: nat, a: nat)
    requires IsPrime(p)
    ensures Pow(a, p) % p == a % p
    decreases a
  {
    if a == 0 {
      assert Pow(0, p) == 0 * Pow(0, p - 1);
    } else {
      FermatPower(p, a - 1);
      FreshmansDream(p, a - 1);
      ModAddLeft(Pow(a - 1, p), 1, p);
      ModAddLeft(a - 1, 1, p);
    }
  }

  /** Fermat's little theorem: a^(p - 1) == 1 modulo a prime p when p does
      not divide a. */
  lemma FermatLittle(p: nat, a: nat)
    requires IsPrime(p) && a % p != 0
    ensures ModPow(a, p - 1, p) == 1
  {
    var t := ModPow(a, p - 1, p);
    FermatPower(p, a);
    ModPowIsPowMod(a, p, p);
    assert ModPow(a, p, p) == (a * t) % p;
    // a * t == a modulo p, so p divides a * (t - 1)
    assert (a * (t - 1)) % p == 0 by {
      assert a * (t - 1) == a * t - a;
      DividesLessRemainder(a * t, p);
      DividesLessRemainder(a, p);
      DividesAsProduct(p, a * t - (a * t) % p);
      DividesAsProduct(p, a - a % p);
      var u, v := (a * t - (a * t) % p) / p, (a - a % p) / p;
      assert a * t - a == p * (u - v);
      ModAddMultiple(0, u - v, p);
    }
    EuclidPrime(a, t - 1, p);
    if t != 0 {
      ModInRange(t - 1, p);
    }
  }
}
