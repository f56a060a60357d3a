/** Schnorr key generation, signing and verification over a Schnorr group.
    The foreign pieces are parameters: `hash` is the message digest (SHA-1),
    `encode` is BigInteger.toByteArray, and each random number the source
    draws is an argument with the range the source draws it from. */
module Schnorr {
  import opened Modular
  import B = BigIntegers
  import opened SchnorrGroups

  type byte = B.byte

  /** A key pair: private x and public y. */
  datatype KeyPair = KeyPair(x: int, y: int)

  /** A signature: challenge e and response s. */
  datatype Signature = Signature(e: int, s: int)

  /** Each random draw is new BigInteger(16, rnd): uniform in [0, 2^16). */
  const DrawBound: nat := 0x1_0000

  /** e = H(M || bytes(r)), the digest read as an unsigned big-endian integer. */
  function Challenge(hash: seq<byte> -> seq<byte>, encode: int -> seq<byte>, message: seq<byte>, r: int): (e: nat)
    ensures e < Pow(256, |hash(message + encode(r))|)
  {
    B.FromMagnitude(hash(message + encode(r)))
  }

  /** Schnorr.generateKeys: x = draw mod q and y = g^x mod p. */
  function GenerateKeys(group: Params, draw: int): (keys: B.Result<KeyPair>)
    requires 0 <= draw < DrawBound
    ensures keys.Err? <==> group.q <= 0 || group.p <= 0
    ensures keys.Err? ==> keys.error == B.ModulusNotPositive
    ensures keys.Ok? ==>
      var x, y := keys.value.x, keys.value.y;
      0 <= x < group.q && Divides(group.q, draw - x) &&
      y == ModPow(group.g, x, group.p) && 0 <= y < group.p
  {
    var x :- B.Mod(draw, group.q);
    var y :- B.ModPow(group.g, x, group.p);
    ModPowIsPowMod(group.g, x, group.p);
    B.Ok(KeyPair(x, y))
  }

  /** Schnorr.sign: nonce k = draw mod q, commitment r = g^k mod p,
      challenge e = H(M || bytes(r)), response s = (k - x * e) mod q. */
  function Sign(group: Params, hash: seq<byte> -> seq<byte>, encode: int -> seq<byte>,
                message: seq<byte>, x: int, draw: int): (signature: B.Result<Signature>)
    requires 0 <= draw < DrawBound
    ensures signature.Err? <==> group.q <= 0 || group.p <= 0
    ensures signature.Err? ==> signature.error == B.ModulusNotPositive
    ensures signature.Ok? ==>
      var e, s := signature.value.e, signature.value.s;
      var k := draw % group.q;
      e == Challenge(hash, encode, message, ModPow(group.g, k, group.p)) &&
      0 <= s < group.q && (s + x * e) % group.q == k
  {
    var k :- B.Mod(draw, group.q);
    var r :- B.ModPow(group.g, k, group.p);
    var e := Challenge(hash, encode, message, r);
    var s := B.Mod(k - x * e, group.q).value;
    ModPowIsPowMod(group.g, k, group.p);
    ModAddLeft(k - x * e, x * e, group.q);
    ModInRange(k, group.q);
    B.Ok(Signature(e, s))
  }

  /** Schnorr.isValid: rv = g^s * y^e mod p and the signature is valid when
      H(M || bytes(rv)) == e. modPow throws for p <= 0, and for a negative
      exponent whose base has no inverse modulo p; otherwise a negative
      exponent raises that inverse to the positive power. */
  function IsValid(group: Params, signature: Signature, message: seq<byte>, y: int,
                   hash: seq<byte> -> seq<byte>, encode: int -> seq<byte>): (valid: B.Result<bool>)
    ensures valid == B.Err(B.ModulusNotPositive) <==> group.p <= 0
    ensures valid == B.Err(B.NotInvertible) ==> group.p > 1 && (signature.s < 0 || signature.e < 0)
    ensures group.p > 1 ==>
      (valid == B.Err(B.NotInvertible) <==>
         (signature.s < 0 && !Invertible(Pow(group.g, -signature.s), group.p)) ||
         (signature.e < 0 && !Invertible(Pow(y, -signature.e), group.p)))
    ensures group.p > 0 && signature.s >= 0 && signature.e >= 0 ==>
      valid.Ok? &&
      (valid.value <==>
       signature.e == Challenge(hash, encode, message,
         (Pow(group.g, signature.s) * Pow(y, signature.e)) % group.p))
    ensures group.p > 0 && valid.Ok? ==>
      (exists gs :: B.IsModPow(group.g, signature.s, group.p, gs)) &&
      (exists ye :: B.IsModPow(y, signature.e, group.p, ye)) &&
      forall gs, ye :: B.IsModPow(group.g, signature.s, group.p, gs) && B.IsModPow(y, signature.e, group.p, ye) ==>
        (valid.value <==> signature.e == Challenge(hash, encode, message, (gs * ye) % group.p))
    ensures signature.e < 0 ==> valid != B.Ok(true)
  {
    var gs :- B.ModPow(group.g, signature.s, group.p);
    var ye :- B.ModPow(y, signature.e, group.p);
    var rv := (gs * ye) % group.p;
    var ev := Challenge(hash, encode, message, rv);
    assert signature.s >= 0 && signature.e >= 0 ==>
      rv == (Pow(group.g, signature.s) * Pow(y, signature.e)) % group.p by {
      if signature.s >= 0 && signature.e >= 0 {
        ModMulLeft(Pow(group.g, signature.s), Pow(y, signature.e), group.p);
        ModMulRight(gs, Pow(y, signature.e), group.p);
      }
    }
    assert forall gs', ye' :: B.IsModPow(group.g, signature.s, group.p, gs') && B.IsModPow(y, signature.e, group.p, ye') ==>
      gs' == gs && ye' == ye by {
      forall gs', ye' | B.IsModPow(group.g, signature.s, group.p, gs') && B.IsModPow(y, signature.e, group.p, ye')
        ensures gs' == gs && ye' == ye
      {
        B.ModPowValueUnique(group.g, signature.s, group.p, gs', gs);
        B.ModPowValueUnique(y, signature.e, group.p, ye', ye);
      }
    }
    B.Ok(ev == signature.e)
  }

  /** Against a public key y = g^x, verification recomputes the commitment
      as g^(s + x * e) mod p. */
  lemma VerificationEquation(group: Params, signature: Signature, message: seq<byte>, x: nat,
                             hash: seq<byte> -> seq<byte>, encode: int -> seq<byte>)
    requires group.p > 0 && signature.s >= 0 && signature.e >= 0
    ensures IsValid(group, signature, message, ModPow(group.g, x, group.p), hash, encode)
         == B.Ok(signature.e == Challenge(hash, encode, message,
                   ModPow(group.g, signature.s + x * signature.e, group.p)))
  {
    var p, g, e, s := group.p, group.g, signature.e, signature.s;
    var y := ModPow(g, x, p);
    ModPowIsPowMod(g, s, p);
    ModPowIsPowMod(y, e, p);
    calc {
      (Pow(g, s) * Pow(y, e)) % p;
      { ModMulLeft(Pow(g, s), Pow(y, e), p); }
      (ModPow(g, s, p) * Pow(y, e)) % p;
      { ModMulRight(ModPow(g, s, p), Pow(y, e), p); }
      (ModPow(g, s, p) * ModPow(y, e, p)) % p;
      { ModPowMul(g, x, e, p); }
      (ModPow(g, s, p) * ModPow(g, x * e, p)) % p;
      { ModPowAdd(g, s, x * e, p); }
      ModPow(g, s + x * e, p);
    }
  }

  /** s + x * e == k modulo q makes g^(s + x * e) the commitment g^k. */
  lemma ResponseRecoversNonce(group: Params, s: nat, x: nat, e: nat, k: int)
    requires group.p > 1 && group.q > 0 && ModPow(group.g, group.q, group.p) == 1
    requires 0 <= k < group.q && (s + x * e) % group.q == k
    ensures ModPow(group.g, s + x * e, group.p) == ModPow(group.g, k, group.p)
  {
    ModInRange(k, group.q);
    ModPowCongruentExponents(group.g, group.q, s + x * e, k, group.p);
  }

  /** An honestly produced signature verifies: when g^q == 1 modulo p and
      y == g^x mod p, the recomputed commitment g^s * y^e is the signer's
      g^k, because s + x * e == k modulo q. */
  lemma SignatureVerifies(group: Params, hash: seq<byte> -> seq<byte>, encode: int -> seq<byte>,
                          message: seq<byte>, x: nat, draw: int)
    requires 0 <= draw < DrawBound
    requires group.p > 1 && group.q > 0 && ModPow(group.g, group.q, group.p) == 1
    ensures Sign(group, hash, encode, message, x, draw).Ok?
    ensures IsValid(group, Sign(group, hash, encode, message, x, draw).value, message,
                    ModPow(group.g, x, group.p), hash, encode) == B.Ok(true)
  {
    var signature := Sign(group, hash, encode, message, x, draw).value;
    var k := draw % group.q;
    var commitment := ModPow(group.g, k, group.p);
    assert signature.e == Challenge(hash, encode, message, commitment);
    assert 0 <= signature.s && (signature.s + x * signature.e) % group.q == k;
    ResponseRecoversNonce(group, signature.s, x, signature.e, k);
    VerificationEquation(group, signature, message, x, hash, encode);
  }

  /** Keys from GenerateKeys and a signature from Sign with them verify. */
  lemma GeneratedKeysVerify(group: Params, hash: seq<byte> -> seq<byte>, encode: int -> seq<byte>,
                            message: seq<byte>, keyDraw: int, nonceDraw: int)
    requires 0 <= keyDraw < DrawBound && 0 <= nonceDraw < DrawBound
    requires group.p > 1 && group.q > 0 && ModPow(group.g, group.q, group.p) == 1
    ensures GenerateKeys(group, keyDraw).Ok?
    ensures
      var keys := GenerateKeys(group, keyDraw).value;
      var signature := Sign(group, hash, encode, message, keys.x, nonceDraw);
      signature.Ok? && IsValid(group, signature.value, message, keys.y, hash, encode) == B.Ok(true)
  {
    var keys := GenerateKeys(group, keyDraw).value;
    SignatureVerifies(group, hash, encode, message, keys.x, nonceDraw);
  }

  /** End to end: a group built by the generator from a truly prime
      p = q * r + 1 and a non-zero base, keys from GenerateKeys and a
      signature from Sign always verify. */
  lemma GeneratedGroupSignaturesVerify(q: int, r: int, generatorDraw: int,
                                       hash: seq<byte> -> seq<byte>, encode: int -> seq<byte>,
                                       message: seq<byte>, keyDraw: int, nonceDraw: int)
    requires q > 1 && r >= 1 && IsPrime(Candidate(q, r))
    requires Base(generatorDraw, Candidate(q, r)) != 0
    requires 0 <= keyDraw < DrawBound && 0 <= nonceDraw < DrawBound
    ensures
      var group := Params(Candidate(q, r), q, CandidateGenerator(generatorDraw, Candidate(q, r), q));
      var keys := GenerateKeys(group, keyDraw);
      keys.Ok? &&
      var signature := Sign(group, hash, encode, message, keys.value.x, nonceDraw);
      signature.Ok? && IsValid(group, signature.value, message, keys.value.y, hash, encode) == B.Ok(true)
  {
    CandidateGeneratorOrder(generatorDraw, q, r);
    CandidateCofactor(q, r);
    var group := Params(Candidate(q, r), q, CandidateGenerator(generatorDraw, Candidate(q, r), q));
    GeneratedKeysVerify(group, hash, encode, message, keyDraw, nonceDraw);
  }
}
