/** The part of java.math.BigInteger that the Schnorr code relies on:
    mod, modPow and modInverse with the ArithmeticException each of them
    throws, and the magnitude constructor BigInteger(1, bytes). Each is
    stated against the mathematical definitions of module Modular. */
module BigIntegers {
  import M = Modular

  /** The two reasons BigInteger arithmetic throws ArithmeticException. */
  datatype ArithmeticError =
    | ModulusNotPositive  // "BigInteger: modulus not positive"
    | NotInvertible       // "BigInteger not invertible."

  /** The value of a BigInteger operation, or the exception it throws. */
  datatype Result<+T> = Ok(value: T) | Err(error: ArithmeticError) {
    predicate IsFailure() {
      Err?
    }

    function PropagateFailure<U>(): Result<U>
      requires Err?
    {
      Err(error)
    }

    function Extract(): T
      requires Ok?
    {
      value
    }
  }

  /** An octet. Java's byte is signed; only its bit pattern matters here. */
  newtype byte = b: int | 0 <= b < 256

  /** a.mod(m): the remainder in [0, m), for a of either sign. */
  function Mod(a: int, m: int): (r: Result<int>)
    ensures m <= 0 <==> r == Err(ModulusNotPositive)
    ensures m > 0 ==> r.Ok? && 0 <= r.value < m && M.Divides(m, a - r.value)
  {
    if m <= 0 then
      Err(ModulusNotPositive)
    else
      M.DividesLessRemainder(a, m);
      Ok(a % m)
  }

  /** a.modInverse(m): the inverse of a in [0, m); 0 when m is 1. */
  function ModInverse(a: int, m: int): (r: Result<int>)
    ensures m <= 0 <==> r == Err(ModulusNotPositive)
    ensures m == 1 ==> r == Ok(0)
    ensures m > 1 && r.Ok? ==> 0 <= r.value < m && M.IsInverse(a, r.value, m)
    ensures m > 1 && r.Err? ==> r.error == NotInvertible && !M.Invertible(a, m)
  {
    if m <= 0 then
      Err(ModulusNotPositive)
    else if m == 1 then
      Ok(0)
    else
      var t := M.ExtGcd(a % m, m);
      if t.0 == 1 then
        M.BezoutInverse(a, m);
        Ok(t.1 % m)
      else
        M.NoInverseAtAll(a, m);
        Err(NotInvertible)
  }

  /** v is a value b.modPow(e, m) may return: b^e mod m for e >= 0, and an
      inverse of b^(-e) in [0, m) for e < 0 (0 when m is 1). */
  predicate IsModPow(b: int, e: int, m: int, v: int)
    requires m > 0
  {
    0 <= v < m &&
    (e >= 0 ==> v == M.Pow(b, e) % m) &&
    (e < 0 && m > 1 ==> M.IsInverse(M.Pow(b, -e), v, m))
  }

  /** b.modPow(e, m): b^e mod m; for a negative e, the inverse of b^(-e). */
  function ModPow(b: int, e: int, m: int): (r: Result<int>)
    ensures m <= 0 <==> r == Err(ModulusNotPositive)
    ensures m > 0 && r.Ok? ==> IsModPow(b, e, m, r.value)
    ensures m > 0 && e >= 0 ==> r == Ok(M.Pow(b, e) % m)
    ensures m == 1 ==> r == Ok(0)
    ensures m > 1 && e < 0 && r.Ok? ==> 0 <= r.value < m && M.IsInverse(M.Pow(b, -e), r.value, m)
    ensures m > 1 && e < 0 && r.Err? ==>
      r.error == NotInvertible && !M.Invertible(M.Pow(b, -e), m)
  {
    if m <= 0 then
      Err(ModulusNotPositive)
    else if e >= 0 then
      M.ModPowIsPowMod(b, e, m);
      Ok(M.ModPow(b, e, m))
    else
      var c := M.ModPow(b, -e, m);
      M.ModPowIsPowMod(b, -e, m);
      InverseOfReduced(M.Pow(b, -e), m);
      ModInverse(c, m)
  }

  /** At most one value satisfies IsModPow, so modPow's result is determined
      whenever it exists. */
  lemma ModPowValueUnique(b: int, e: int, m: int, v1: int, v2: int)
    requires m > 0 && IsModPow(b, e, m, v1) && IsModPow(b, e, m, v2)
    ensures v1 == v2
  {
    if e < 0 && m > 1 {
      M.InverseUnique(M.Pow(b, -e), v1, v2, m);
    }
  }

  /** a and a % m have the same inverses. */
  lemma InverseOfReduced(a: int, m: int)
    requires m > 0
    ensures forall t :: M.IsInverse(a % m, t, m) <==> M.IsInverse(a, t, m)
    ensures M.Invertible(a % m, m) <==> M.Invertible(a, m)
  {
    forall t ensures M.IsInverse(a % m, t, m) <==> M.IsInverse(a, t, m) {
      M.ModMulLeft(a, t, m);
    }
  }

  /** new BigInteger(1, magnitude): the big-endian unsigned value. */
  function FromMagnitude(magnitude: seq<byte>): (n: nat)
    ensures n < M.Pow(256, |magnitude|)
  {
    if |magnitude| == 0 then
      0
    else
      var k := |magnitude| - 1;
      var high := FromMagnitude(magnitude[..k]);
      assert high * 256 + 255 < M.Pow(256, k) * 256 by {
        assert high * 256 <= (M.Pow(256, k) - 1) * 256;
      }
      high * 256 + magnitude[k] as int
  }

  /** The len-byte big-endian encoding of n modulo 256^len. */
  function ToMagnitude(n: nat, len: nat): (bytes: seq<byte>)
    ensures |bytes| == len
  {
    if len == 0 then [] else ToMagnitude(n / 256, len - 1) + [(n % 256) as byte]
  }

  /** A magnitude is recovered from its value and length: distinct digests of
      one length give distinct integers. */
  lemma {:induction false} MagnitudeRoundTrip(magnitude: seq<byte>)
    ensures ToMagnitude(FromMagnitude(magnitude), |magnitude|) == magnitude
  {
    if |magnitude| > 0 {
      var k := |magnitude| - 1;
      var high := FromMagnitude(magnitude[..k]);
      M.DivModUnique(high * 256 + magnitude[k] as int, 256, high, magnitude[k] as int);
      MagnitudeRoundTrip(magnitude[..k]);
      assert magnitude == magnitude[..k] + [magnitude[k]];
    }
  }

  /** Every value below 256^len is the value of its len-byte encoding. */
  lemma {:induction false} ValueRoundTrip(n: nat, len: nat)
    requires n < M.Pow(256, len)
    ensures FromMagnitude(ToMagnitude(n, len)) == n
  {
    if len > 0 {
      var bytes := ToMagnitude(n, len);
      assert n / 256 < M.Pow(256, len - 1) by {
        M.DivModUnique(n, 256, n / 256, n % 256);
      }
      ValueRoundTrip(n / 256, len - 1);
      assert bytes[..len - 1] == ToMagnitude(n / 256, len - 1);
    }
  }
}
