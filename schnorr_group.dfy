/** The Schnorr group (p, q, g): a prime q, a prime p = q * r + 1 and a
    generator g = a^((p - 1) / q) mod p of the order-q subgroup of the
    integers modulo p, with the randomised search that produces one. */
module SchnorrGroups {
  import opened Modular
  import B = BigIntegers
  import Fermat

  datatype Option<T> = None | Some(value: T)

  /** The group's three numbers as a value, as the signature code reads them. */
  datatype Params = Params(p: int, q: int, g: int)

  /** n has exactly `bits` bits: the range of new BigInteger(bits, certainty, rnd). */
  predicate HasBitLength(n: int, bits: nat)
    requires bits >= 1
  {
    Pow(2, bits - 1) <= n < Pow(2, bits)
  }

  /** The r-th candidate modulus q * r + 1 of the p-search. */
  function Candidate(q: int, r: int): (p: int)
    ensures q > 1 ==> p % q == 1
  {
    assert q > 1 ==> (1 + q * r) % q == 1 by {
      if q > 1 {
        ModAddMultiple(1, r, q);
        ModInRange(1, q);
      }
    }
    q * r + 1
  }

  /** The candidate base (2 + draw) mod p of the g-search. */
  function Base(draw: int, p: int): (a: int)
    requires p > 0
    ensures 0 <= a < p && Divides(p, 2 + draw - a)
  {
    B.Mod(2 + draw, p).value
  }

  /** The exponent (p - 1) / q of the g-search. Both operands are
      non-negative, so BigInteger.divide, which truncates, is `/` here. */
  function Cofactor(p: int, q: int): (e: nat)
    requires p > 0 && q > 0
    ensures e * q <= p - 1 < (e + 1) * q
  {
    (p - 1) / q
  }

  /** The candidate generator a^((p - 1) / q) mod p built from one draw. */
  function CandidateGenerator(draw: int, p: int, q: int): (g: int)
    requires p > 0 && q > 0
    ensures 0 <= g < p && g == ModPow(Base(draw, p), Cofactor(p, q), p)
  {
    ModPowIsPowMod(Base(draw, p), Cofactor(p, q), p);
    B.ModPow(Base(draw, p), Cofactor(p, q), p).value
  }

  /** What the p-search found: p == q * r + 1. */
  datatype Modulus = Modulus(p: int, r: nat)

  /** What the g-search found: the base a, the cofactor (p - 1) / q, the
      generator g, and the index of the draw that gave it. */
  datatype Generator = Generator(a: int, cofactor: nat, g: int, attempt: nat)

  /** The candidate modulus for r >= 1 is 1 modulo q and gives back r as
      its cofactor. */
  lemma CandidateCofactor(q: int, r: int)
    requires q > 1 && r >= 1
    ensures Candidate(q, r) > q
    ensures Candidate(q, r) % q == 1 && (Candidate(q, r) - 1) / q == r
    ensures ((Candidate(q, r) - 1) / q) * q == Candidate(q, r) - 1
  {
    DivModUnique(Candidate(q, r), q, r, 1);
    DivModUnique(Candidate(q, r) - 1, q, r, 0);
    MulAtLeast(q, r);
  }

  /** The generator's q-th power is the base's (p - 1)-th power:
      (a^r)^q == a^(r * q) == a^(p - 1) modulo p. */
  lemma GeneratorPower(a: int, q: int, r: int)
    requires q > 1 && r >= 1
    ensures ModPow(ModPow(a, r, Candidate(q, r)), q, Candidate(q, r))
         == ModPow(a, Candidate(q, r) - 1, Candidate(q, r))
  {
    var p := Candidate(q, r);
    CandidateCofactor(q, r);
    ModPowMul(a, r, q, p);
    assert r * q == p - 1;
  }

  /** The candidate generator for p = q * r + 1 is a^r mod p. */
  lemma CandidateGeneratorIsPower(draw: int, q: int, r: int)
    requires q > 1 && r >= 1
    ensures CandidateGenerator(draw, Candidate(q, r), q)
         == ModPow(Base(draw, Candidate(q, r)), r, Candidate(q, r))
  {
    var p := Candidate(q, r);
    CandidateCofactor(q, r);
    ModPowIsPowMod(Base(draw, p), r, p);
  }

  /** When p = q * r + 1 is truly prime and the base is not 0, the candidate
      generator lies in the order-q subgroup: g^q == 1 modulo p (Fermat's
      little theorem applied to a^(p - 1)). When q is prime as well and
      g != 1, no smaller positive power of g is 1, so g has order q. */
  lemma CandidateGeneratorOrder(draw: int, q: int, r: int)
    requires q > 1 && r >= 1 && IsPrime(Candidate(q, r))
    requires Base(draw, Candidate(q, r)) != 0
    ensures ModPow(CandidateGenerator(draw, Candidate(q, r), q), q, Candidate(q, r)) == 1
    ensures IsPrime(q) && CandidateGenerator(draw, Candidate(q, r), q) != 1 ==>
      forall j :: 0 < j < q ==> ModPow(CandidateGenerator(draw, Candidate(q, r), q), j, Candidate(q, r)) != 1
  {
    var p := Candidate(q, r);
    var a := Base(draw, p);
    var g := CandidateGenerator(draw, p, q);
    CandidateGeneratorIsPower(draw, q, r);
    GeneratorPower(a, q, r);
    ModInRange(a, p);
    Fermat.FermatLittle(p, a);
    if IsPrime(q) && g != 1 {
      forall j | 0 < j < q ensures ModPow(g, j, p) != 1 {
        GeneratorOrder(g, q, p, j);
      }
    }
  }

  /** A g other than 1 with g^q == 1 modulo p has order exactly q when q is
      prime: no smaller positive power of g is 1. */
  lemma GeneratorOrder(g: int, q: int, p: int, j: int)
    requires p > 1 && IsPrime(q) && 0 <= g < p && g != 1
    requires ModPow(g, q, p) == 1
    requires 0 < j < q
    ensures ModPow(g, j, p) != 1
  {
    if ModPow(g, j, p) == 1 {
      CoprimeBelowPrime(j, q);
      BezoutInverse(j, q);
      var t: nat := ExtGcd(j % q, q).1 % q;
      assert (j * t) % q == 1;
      ModPowMul(g, j, t, p);
      ModPowOfOne(t, p);
      ModPowPeriod(g, q, j * t, p);
      ModInRange(1, p);
      ModInRange(g, p);
      assert false;
    }
  }

  /** A zero base passes the only test the g-search makes (g != 1), so a
      generated g may be 0; the search does not exclude it. */
  lemma ZeroBaseAccepted(draw: int, p: int, q: int)
    requires p > 1 && q > 0 && p - 1 >= q
    requires (2 + draw) % p == 0
    ensures CandidateGenerator(draw, p, q) == 0
  {
    var e := Cofactor(p, q);
    assert e >= 1;
    assert Base(draw, p) == 0;
    assert Pow(0, e) == 0 * Pow(0, e - 1) == 0;
  }

  /** A power of two is positive. */
  lemma {:induction false} PowOfTwoPositive(k: nat)
    ensures Pow(2, k) >= 1
    decreases k
  {
    if k > 0 {
      PowOfTwoPositive(k - 1);
    }
  }

  /** A prime other than 2 is odd. */
  lemma OddPrime(n: int)
    requires IsPrime(n) && n != 2
    ensures n % 2 == 1
  {
    assert !Divides(2, n);
  }

  /** The only positive multiple of p below 2 * p is p. */
  lemma MultipleBelowTwice(p: int, x: int)
    requires p > 0 && 0 < x < 2 * p && Divides(p, x)
    ensures x == p
  {
    DividesAsProduct(p, x);
    var k := x / p;
    if k < 0 {
      MulAtLeast(p, -k);
    }
  }

  /** q * r - 1 below 2 * q leaves r at most 2. */
  lemma CofactorAtMostTwo(q: int, r: int)
    requires q > 0 && r >= 1 && q * r - 1 < 2 * q
    ensures r <= 2
  {
    MulAtLeast(q, r);
  }

  /** For q == 2 the first candidate, 3, is already prime. */
  lemma FirstCandidateOfTwo()
    ensures IsPrime(Candidate(2, 1))
  {
    forall d | 1 < d < 3
      ensures !Divides(d, 3)
    {
      assert d == 2;
    }
  }

  /** The primality test is exact on non-negative numbers: among them it
      accepts the primes and nothing else. BigInteger.isProbablePrime never
      rejects a prime, and a composite passes it only with probability below
      2^-100. Negative numbers are left open, because the test examines |n|
      and so accepts -3. The group search asks only about positive numbers. */
  ghost predicate ExactTest(isProbablePrime: int -> bool)
  {
    forall n :: n >= 0 ==> isProbablePrime(n) == IsPrime(n)
  }

  /** The zero base cannot come from the code's draws. The draw has the bit
      length of q, and p is the first prime of the form q * r + 1; then
      2 + draw is never a multiple of p. Being below 2 * p, it could only be
      p itself, which forces r <= 2; r == 1 makes p even, and r == 2 makes
      q == 2, where r == 1 already gives the prime 3. */
  lemma NoZeroBase(bitLength: nat, q: int, r: int, draw: int)
    requires bitLength >= 2 && HasBitLength(q, bitLength) && HasBitLength(draw, bitLength)
    requires IsPrime(q) && r >= 1 && IsPrime(Candidate(q, r))
    requires forall j :: 1 <= j < r ==> !IsPrime(Candidate(q, j))
    ensures Base(draw, Candidate(q, r)) != 0
  {
    var p := Candidate(q, r);
    var half := Pow(2, bitLength - 2);
    PowOfTwoPositive(bitLength - 2);
    assert Pow(2, bitLength - 1) == 2 * half;
    assert Pow(2, bitLength) == 4 * half;
    assert 2 * half <= q < 4 * half && 2 * half <= draw < 4 * half;
    MulAtLeast(q, r);
    if Base(draw, p) == 0 {
      MultipleBelowTwice(p, 2 + draw);
      CofactorAtMostTwo(q, r);
      if r == 2 {
        if q == 2 {
          FirstCandidateOfTwo();
        } else {
          OddPrime(q);
        }
      } else if q != 2 {
        OddPrime(q);
        assert Divides(2, p);
      }
    }
  }

  /** An exact test answers IsPrime at one non-negative number. */
  lemma ExactTestAt(isProbablePrime: int -> bool, n: int)
    requires ExactTest(isProbablePrime) && n >= 0
    ensures isProbablePrime(n) == IsPrime(n)
  {
  }

  /** For q prime and p = q * r + 1 the first prime of that form, a draw of
      q's bit length gives a non-zero g of order exactly q. */
  lemma PrimeGroupGenerator(bitLength: nat, q: int, r: int, draw: int)
    requires q > 1 && r >= 1
    requires bitLength >= 2 && HasBitLength(q, bitLength) && HasBitLength(draw, bitLength)
    requires IsPrime(q) && IsPrime(Candidate(q, r))
    requires forall j :: 1 <= j < r ==> !IsPrime(Candidate(q, j))
    requires CandidateGenerator(draw, Candidate(q, r), q) != 1
    ensures
      var p := Candidate(q, r);
      var g := CandidateGenerator(draw, p, q);
      g != 0 && ModPow(g, q, p) == 1 && forall j :: 0 < j < q ==> ModPow(g, j, p) != 1
  {
    var p := Candidate(q, r);
    var g := CandidateGenerator(draw, p, q);
    NoZeroBase(bitLength, q, r, draw);
    CandidateGeneratorOrder(draw, q, r);
    assert ModPow(g, q, p) == (g * ModPow(g, q - 1, p)) % p;
  }

  /** With an exact primality test, the group search's p and a draw of q's
      bit length give a non-zero g of order exactly q. */
  lemma ExactTestGenerator(bitLength: nat, q: int, r: int, draw: int, isProbablePrime: int -> bool)
    requires ExactTest(isProbablePrime) && q > 1 && r >= 1
    requires bitLength >= 2 && HasBitLength(q, bitLength) && HasBitLength(draw, bitLength)
    requires isProbablePrime(q) && isProbablePrime(Candidate(q, r))
    requires forall j :: 1 <= j < r ==> !isProbablePrime(Candidate(q, j))
    requires CandidateGenerator(draw, Candidate(q, r), q) != 1
    ensures
      var p := Candidate(q, r);
      var g := CandidateGenerator(draw, p, q);
      g != 0 && ModPow(g, q, p) == 1 && forall j :: 0 < j < q ==> ModPow(g, j, p) != 1
  {
    MulAtLeast(q, r);
    ExactTestAt(isProbablePrime, q);
    ExactTestAt(isProbablePrime, Candidate(q, r));
    forall j | 1 <= j < r
      ensures !IsPrime(Candidate(q, j))
    {
      MulAtLeast(q, j);
      ExactTestAt(isProbablePrime, Candidate(q, j));
    }
    PrimeGroupGenerator(bitLength, q, r, draw);
  }

  class SchnorrGroup {
    var p: int
    var q: int
    var g: int

    /** Stores the three numbers as given; nothing about them is checked. */
    constructor (p: int, q: int, g: int)
      ensures this.p == p && this.q == q && this.g == g
    {
      this.p := p;
      this.q := q;
      this.g := g;
    }

    /** The p-search: tries r = 1, 2, ... and returns the first q * r + 1
        that passes the primality test. The source loops without bound;
        here the search gives up after r == maxR. */
    static method SearchModulus(q: int, isProbablePrime: int -> bool, maxR: nat)
      returns (found: Option<Modulus>)
      requires q > 1
      ensures found.Some? ==>
        var m := found.value;
        1 <= m.r <= maxR && m.p == Candidate(q, m.r) && isProbablePrime(m.p) &&
        m.p % q == 1 && (m.p - 1) / q == m.r &&
        forall j :: 1 <= j < m.r ==> !isProbablePrime(Candidate(q, j))
      ensures found.None? ==> forall j :: 1 <= j <= maxR ==> !isProbablePrime(Candidate(q, j))
    {
      var r := 1;
      while r <= maxR
        invariant 1 <= r <= maxR + 1
        invariant forall j :: 1 <= j < r ==> !isProbablePrime(Candidate(q, j))
        decreases maxR + 1 - r
      {
        var p := Candidate(q, r);
        if isProbablePrime(p) {
          CandidateCofactor(q, r);
          return Some(Modulus(p, r));
        }
        r := r + 1;
      }
      return None;
    }

    /** The g-search: for each draw, a := (2 + draw) mod p and
        g := a^((p - 1) / q) mod p, until g != 1. The source draws without
        bound; here the search gives up when the draws run out. */
    static method SearchGenerator(p: int, q: int, draws: seq<int>)
      returns (found: Option<Generator>)
      requires p > 1 && q > 0
      ensures found.Some? ==>
        var G := found.value;
        G.attempt < |draws| &&
        G.a == Base(draws[G.attempt], p) && 0 <= G.a < p &&
        G.cofactor == Cofactor(p, q) &&
        G.g == ModPow(G.a, G.cofactor, p) && G.g == CandidateGenerator(draws[G.attempt], p, q) &&
        0 <= G.g < p && G.g != 1 &&
        forall j :: 0 <= j < G.attempt ==> CandidateGenerator(draws[j], p, q) == 1
      ensures found.None? ==> forall j :: 0 <= j < |draws| ==> CandidateGenerator(draws[j], p, q) == 1
    {
      var i := 0;
      while i < |draws|
        invariant 0 <= i <= |draws|
        invariant forall j :: 0 <= j < i ==> CandidateGenerator(draws[j], p, q) == 1
      {
        var a := B.Mod(2 + draws[i], p).value;
        var ga := Cofactor(p, q);
        var g := B.ModPow(a, ga, p).value;
        if g != 1 {
          ModPowIsPowMod(a, ga, p);
          return Some(Generator(a, ga, g, i));
        }
        i := i + 1;
      }
      return None;
    }

    /** SchnorrGroup.generate: q is the drawn prime, draws are the numbers
        the g-search draws, isProbablePrime is the primality test. */
    static method Generate(bitLength: nat, q: int, isProbablePrime: int -> bool, maxR: nat, draws: seq<int>)
      returns (group: Option<SchnorrGroup>, ghost r: nat, ghost attempt: nat)
      requires bitLength >= 2 && HasBitLength(q, bitLength) && isProbablePrime(q)
      requires forall i :: 0 <= i < |draws| ==> HasBitLength(draws[i], bitLength)
      ensures group.Some? ==>
        var G := group.value;
        fresh(G) && G.q == q &&
        // p: the first prime q * r + 1
        1 <= r <= maxR && G.p == Candidate(q, r) && isProbablePrime(G.p) &&
        (forall j :: 1 <= j < r ==> !isProbablePrime(Candidate(q, j))) &&
        G.p % q == 1 && (G.p - 1) / q == r && r * q == G.p - 1 &&
        // g: the first candidate generator other than 1
        attempt < |draws| && G.g == CandidateGenerator(draws[attempt], G.p, q) &&
        0 <= G.g < G.p && G.g != 1 &&
        (forall j :: 0 <= j < attempt ==> CandidateGenerator(draws[j], G.p, q) == 1) &&
        ModPow(G.g, q, G.p) == ModPow(Base(draws[attempt], G.p), G.p - 1, G.p)
      ensures group.Some? && ExactTest(isProbablePrime) ==>
        // with an exact test, g is a non-zero element of order exactly q
        var G := group.value;
        G.g != 0 && ModPow(G.g, q, G.p) == 1 &&
        forall j :: 0 < j < q ==> ModPow(G.g, j, G.p) != 1
      ensures group.None? ==>
        (forall j :: 1 <= j <= maxR ==> !isProbablePrime(Candidate(q, j))) ||
        (1 <= r <= maxR && isProbablePrime(Candidate(q, r)) &&
         forall j :: 0 <= j < |draws| ==> CandidateGenerator(draws[j], Candidate(q, r), q) == 1)
    {
      assert q > 1 by { assert Pow(2, bitLength - 1) == 2 * Pow(2, bitLength - 2); }
      r, attempt := 0, 0;
      var modulus := SearchModulus(q, isProbablePrime, maxR);
      if modulus.None? {
        return None, r, attempt;
      }
      var p := modulus.value.p;
      r := modulus.value.r;
      CandidateCofactor(q, r);
      var generator := SearchGenerator(p, q, draws);
      if generator.None? {
        return None, r, attempt;
      }
      attempt := generator.value.attempt;
      GeneratorPower(generator.value.a, q, r);
      if ExactTest(isProbablePrime) {
        ExactTestGenerator(bitLength, q, r, draws[attempt], isProbablePrime);
      }
      var created := new SchnorrGroup(p, q, generator.value.g);
      return Some(created), r, attempt;
    }
  }
}
