/** Integer arithmetic modulo a positive modulus: powers, modular
    exponentiation, greatest common divisors and inverses. These are the
    mathematical reference definitions against which the BigInteger
    operations and the Schnorr scheme are stated. */
module Modular {

  /** b^e over the integers. */
  function Pow(b: int, e: nat): (r: int)
    decreases e
  {
    if e == 0 then 1 else b * Pow(b, e - 1)
  }

  /** b^e mod m, reducing after every multiplication. */
  function ModPow(b: int, e: nat, m: int): (r: int)
    requires m > 0
    ensures 0 <= r < m
    decreases e
  {
    if e == 0 then 1 % m else (b * ModPow(b, e - 1, m)) % m
  }

  /** t is an inverse of a modulo m. */
  predicate IsInverse(a: int, t: int, m: int)
    requires m > 0
  {
    (a * t) % m == 1
  }

  /** a has an inverse modulo m. */
  ghost predicate Invertible(a: int, m: int)
    requires m > 0
  {
    exists t :: IsInverse(a, t, m)
  }

  /** d divides n (d positive). */
  predicate Divides(d: int, n: int)
    requires d > 0
  {
    n % d == 0
  }

  /** n is prime: greater than 1, and no d strictly between 1 and n divides it. */
  ghost predicate IsPrime(n: int)
  {
    n > 1 && forall d :: 1 < d < n ==> !Divides(d, n)
  }

  // ---------------------------------------------------------------------
  // Division with remainder

  /** m * z is at least m when z is positive. */
  lemma MulAtLeast(m: int, z: int)
    requires m > 0 && z >= 1
    ensures m * z >= m
  {
    assert m * (z - 1) >= 0;
    assert m * z == m * (z - 1) + m;
  }

  lemma MulAssoc(a: int, b: int, c: int)
    ensures a * (b * c) == (a * b) * c
  {
  }

  /** The quotient and remainder of x by m are the only ones in range. */
  lemma DivModUnique(x: int, m: int, d: int, r: int)
    requires m > 0 && 0 <= r < m && x == m * d + r
    ensures x / m == d && x % m == r
  {
    var d0, r0 := x / m, x % m;
    assert x == m * d0 + r0;
    assert m * (d - d0) == r0 - r by {
      assert m * (d - d0) == m * d - m * d0;
    }
    if d > d0 {
      MulAtLeast(m, d - d0);
    } else if d < d0 {
      MulAtLeast(m, d0 - d);
    }
  }

  /** Adding a multiple of m does not change the remainder. */
  lemma ModAddMultiple(x: int, k: int, m: int)
    requires m > 0
    ensures (x + m * k) % m == x % m
  {
    DivModUnique(x + m * k, m, x / m + k, x % m);
  }

  /** a % m can replace a under a sum taken modulo m. */
  lemma ModAddLeft(a: int, b: int, m: int)
    requires m > 0
    ensures ((a % m) + b) % m == (a + b) % m
  {
    ModAddMultiple((a % m) + b, a / m, m);
  }

  /** c % m can replace c under a product taken modulo m. */
  lemma ModMulRight(a: int, c: int, m: int)
    requires m > 0
    ensures (a * (c % m)) % m == (a * c) % m
  {
    var k := c / m;
    assert c == m * k + c % m;
    assert a * c == a * (c % m) + m * (a * k) by {
      assert a * (m * k + c % m) == a * (c % m) + a * (m * k);
    }
    ModAddMultiple(a * (c % m), a * k, m);
  }

  /** a % m can replace a under a product taken modulo m. */
  lemma ModMulLeft(a: int, c: int, m: int)
    requires m > 0
    ensures ((a % m) * c) % m == (a * c) % m
  {
    ModMulRight(c, a, m);
    assert (a % m) * c == c * (a % m);
  }

  /** m divides a minus its remainder. */
  lemma DividesLessRemainder(a: int, m: int)
    requires m > 0
    ensures Divides(m, a - a % m)
  {
    DivModUnique(a - a % m, m, a / m, 0);
  }

  /** A value already in [0, m) is its own remainder. */
  lemma ModInRange(a: int, m: int)
    requires 0 <= a < m
    ensures a % m == a
  {
    DivModUnique(a, m, 0, a);
  }

  // ---------------------------------------------------------------------
  // Modular exponentiation

  /** Reducing after every step gives the same value as reducing once. */
  lemma {:induction false} ModPowIsPowMod(b: int, e: nat, m: int)
    requires m > 0
    ensures ModPow(b, e, m) == Pow(b, e) % m
    decreases e
  {
    if e > 0 {
      ModPowIsPowMod(b, e - 1, m);
      ModMulRight(b, Pow(b, e - 1), m);
    }
  }

  /** 1^e is 1 modulo m. */
  lemma {:induction false} ModPowOfOne(e: nat, m: int)
    requires m > 0
    ensures ModPow(1, e, m) == 1 % m
    decreases e
  {
    if e > 0 {
      ModPowOfOne(e - 1, m);
      if m > 1 { ModInRange(1, m); }
    }
  }

  /** g^(e1 + e2) == g^e1 * g^e2 modulo m. */
  lemma {:induction false} ModPowAdd(b: int, e1: nat, e2: nat, m: int)
    requires m > 0
    ensures ModPow(b, e1 + e2, m) == (ModPow(b, e1, m) * ModPow(b, e2, m)) % m
    decreases e1
  {
    var y := ModPow(b, e2, m);
    if e1 == 0 {
      ModInRange(y, m);
      if m > 1 { ModInRange(1, m); }
    } else {
      var x := ModPow(b, e1 - 1, m);
      var z := ModPow(b, (e1 - 1) + e2, m);
      ModPowAdd(b, e1 - 1, e2, m);
      assert z == (x * y) % m;
      assert ModPow(b, e1 + e2, m) == (b * z) % m;
      assert ModPow(b, e1, m) == (b * x) % m;
      ModMulRight(b, x * y, m);
      ModMulLeft(b * x, y, m);
      MulAssoc(b, x, y);
    }
  }

  /** g^(e1 * e2) == (g^e1)^e2 modulo m. */
  lemma {:induction false} ModPowMul(b: int, e1: nat, e2: nat, m: int)
    requires m > 0
    ensures ModPow(b, e1 * e2, m) == ModPow(ModPow(b, e1, m), e2, m)
    decreases e2
  {
    if e2 > 0 {
      ModPowMul(b, e1, e2 - 1, m);
      assert e1 * e2 == e1 + e1 * (e2 - 1);
      ModPowAdd(b, e1, e1 * (e2 - 1), m);
    }
  }

  /** When g^q == 1 modulo m, the powers of g repeat with period q. */
  lemma ModPowPeriod(b: int, q: nat, e: nat, m: int)
    requires m > 0 && q > 0 && ModPow(b, q, m) == 1
    ensures ModPow(b, e, m) == ModPow(b, e % q, m)
  {
    var n, r := e / q, e % q;
    assert e == q * n + r;
    assert ModPow(b, q * n, m) == 1 by {
      ModPowMul(b, q, n, m);
      ModPowOfOne(n, m);
      ModInRange(1, m);
    }
    ModPowAdd(b, q * n, r, m);
    ModInRange(ModPow(b, r, m), m);
  }

  /** Exponents congruent modulo the order q give equal powers. */
  lemma ModPowCongruentExponents(b: int, q: nat, e1: nat, e2: nat, m: int)
    requires m > 0 && q > 0 && ModPow(b, q, m) == 1
    requires e1 % q == e2 % q
    ensures ModPow(b, e1, m) == ModPow(b, e2, m)
  {
    ModPowPeriod(b, q, e1, m);
    ModPowPeriod(b, q, e2, m);
  }

  // ---------------------------------------------------------------------
  // Greatest common divisor and inverses

  /** a == d * k for the quotient k, when d divides a. */
  lemma DividesAsProduct(d: int, a: int)
    requires d > 0 && Divides(d, a)
    ensures a == d * (a / d)
  {
  }

  /** One step of the extended Euclidean algorithm keeps Bezout's identity
      and divisibility. */
  lemma EuclidStep(a: nat, b: nat, d: int, x: int, y: int)
    requires b > 0 && d > 0
    requires b * x + (a % b) * y == d
    requires Divides(d, b) && Divides(d, a % b)
    ensures a * y + b * (x - (a / b) * y) == d
    ensures Divides(d, a)
  {
    var n, c := a / b, a % b;
    assert a == b * n + c;
    assert a * y == (b * n) * y + c * y;
    MulAssoc(b, n, y);
    assert b * (x - n * y) == b * x - b * (n * y);
    var kb, kc := b / d, c / d;
    DividesAsProduct(d, b);
    DividesAsProduct(d, c);
    assert a == d * (kb * n + kc) by {
      assert b * n == (d * kb) * n;
      MulAssoc(d, kb, n);
      assert d * (kb * n + kc) == d * (kb * n) + d * kc;
    }
    DivModUnique(a, d, kb * n + kc, 0);
  }

  /** The extended Euclidean algorithm: d = gcd(a, b) with a * x + b * y == d. */
  function ExtGcd(a: nat, b: nat): (r: (int, int, int))
    requires a > 0 || b > 0
    ensures r.0 > 0 && Divides(r.0, a) && Divides(r.0, b)
    ensures a * r.1 + b * r.2 == r.0
    decreases b
  {
    if b == 0 then
      (a, 1, 0)
    else
      var t := ExtGcd(b, a % b);
      EuclidStep(a, b, t.0, t.1, t.2);
      (t.0, t.2, t.1 - (a / b) * t.2)
  }

  /** A positive d other than 1 has no multiple equal to 1. */
  lemma NoUnitMultiple(d: int, z: int)
    requires d > 1
    ensures d * z != 1
  {
    if z >= 1 {
      MulAtLeast(d, z);
    } else {
      assert d * (-z) >= 0;
    }
  }

  /** When gcd(a mod m, m) == 1, the Bezout coefficient of a is an inverse. */
  lemma {:induction false} BezoutInverse(a: int, m: int)
    requires m > 1
    requires ExtGcd(a % m, m).0 == 1
    ensures IsInverse(a, ExtGcd(a % m, m).1 % m, m)
  {
    var c := a % m;
    var (d, x, y) := ExtGcd(c, m);
    assert c * x + m * y == 1;
    ModAddMultiple(c * x, y, m);
    ModInRange(1, m);
    assert (c * x) % m == 1;
    ModMulRight(a, x, m);
    ModMulLeft(a, x, m);
  }

  /** When gcd(a mod m, m) > 1, a has no inverse modulo m. */
  lemma {:induction false} NoInverse(a: int, m: int, t: int)
    requires m > 1
    requires ExtGcd(a % m, m).0 > 1
    ensures !IsInverse(a, t, m)
  {
    var c := a % m;
    var d := ExtGcd(c, m).0;
    if IsInverse(a, t, m) {
      ModMulLeft(a, t, m);
      var w := (c * t) / m;
      assert c * t == m * w + 1;
      DividesAsProduct(d, c);
      DividesAsProduct(d, m);
      var k1, k2 := c / d, m / d;
      assert c * t == d * (k1 * t) by { MulAssoc(d, k1, t); }
      assert m * w == d * (k2 * w) by { MulAssoc(d, k2, w); }
      assert d * (k1 * t - k2 * w) == 1;
      NoUnitMultiple(d, k1 * t - k2 * w);
    }
  }

  /** When gcd(a mod m, m) > 1, no t whatever is an inverse of a. */
  lemma NoInverseAtAll(a: int, m: int)
    requires m > 1
    requires ExtGcd(a % m, m).0 > 1
    ensures !Invertible(a, m)
  {
    forall t ensures !IsInverse(a, t, m) {
      NoInverse(a, m, t);
    }
  }

  /** An inverse modulo m is unique in [0, m). */
  lemma InverseUnique(a: int, t1: int, t2: int, m: int)
    requires m > 1 && 0 <= t1 < m && 0 <= t2 < m
    requires IsInverse(a, t1, m) && IsInverse(a, t2, m)
    ensures t1 == t2
  {
    // t1 == t1 * (a * t2) == (t1 * a) * t2 == t2, all modulo m
    calc {
      t1;
      { ModInRange(t1, m); }
      (t1 * 1) % m;
      { ModMulRight(t1, a * t2, m); }
      (t1 * (a * t2)) % m;
      { MulAssoc(t1, a, t2); }
      ((t1 * a) * t2) % m;
      { ModMulLeft(t1 * a, t2, m); assert t1 * a == a * t1; }
      (1 * t2) % m;
      { ModInRange(t2, m); }
      t2;
    }
  }

  /** A positive divisor of a positive number is at most that number. */
  lemma DivisorAtMost(d: int, n: int)
    requires d > 0 && n > 0 && Divides(d, n)
    ensures d <= n
  {
    DividesAsProduct(d, n);
    if n / d > 0 {
      MulAtLeast(d, n / d);
    }
  }

  /** A number strictly between 0 and a prime q is coprime to q. */
  lemma CoprimeBelowPrime(j: int, q: int)
    requires IsPrime(q) && 0 < j < q
    ensures ExtGcd(j % q, q).0 == 1
  {
    ModInRange(j, q);
    var d := ExtGcd(j, q).0;
    DivisorAtMost(d, j);
    assert !Divides(d, q) || d <= 1;
  }
}
