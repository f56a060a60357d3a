# Schnorr signatures over a Schnorr group, in Dafny

This project models the cryptographic core of a small Java program that
implements textbook Schnorr signatures with `java.math.BigInteger`:

- `SchnorrGroup` holds the domain parameters `(p, q, g)`. `SchnorrGroup.generate`
  draws a prime `q`. It then searches `r = 1, 2, …` for a prime `p = q·r + 1`.
  Finally it draws bases `a = (2 + rand) mod p` until `g = a^((p−1)/q) mod p`
  is not 1.
- `Schnorr.generateKeys` draws a private key `x` and computes the public key
  `y = g^x mod p`.
- `Schnorr.sign` draws a nonce `k`. It computes `r = g^k mod p`,
  `e = H(M ‖ bytes(r))` and `s = (k − x·e) mod q`.
- `Schnorr.isValid` recomputes `rv = g^s · y^e mod p`. It accepts exactly
  when `H(M ‖ bytes(rv)) == e`.

The files:

- `modular.dfy` (module `Modular`): the mathematical reference definitions.
  It has `Pow`, `ModPow` (modular exponentiation), divisibility, primality,
  the extended Euclidean algorithm and modular inverses. Their laws are
  proved here: exponents add and multiply, powers
  repeat with the order, and Bezout inverses exist and are unique.
- `big_integers.dfy` (module `BigIntegers`): the `BigInteger` operations the
  code calls, with the `ArithmeticException` each throws as an `Err` value.
  These are `mod`, `modPow` (including negative exponents through
  `modInverse`), `modInverse`, and the magnitude constructor
  `new BigInteger(1, bytes)`.
- `fermat.dfy` (module `Fermat`): Fermat's little theorem, proved through
  the binomial theorem. It is needed to show that a generated `g` satisfies
  `g^q ≡ 1 (mod p)` when `p` is truly prime.
- `schnorr_group.dfy` (module `SchnorrGroups`): the class `SchnorrGroup`. It
  has the constructor, the two search loops of `generate` as methods with
  loop invariants, and `Generate` itself. Lemmas state what the generated
  numbers satisfy.
- `schnorr.dfy` (module `Schnorr`): key generation, signing and
  verification as functions. The correctness theorem says that an honestly
  produced signature always verifies.

The foreign pieces are parameters:

- The SHA-1 digest is `hash: seq<byte> -> seq<byte>`.
- `BigInteger.toByteArray` is `encode: int -> seq<byte>`.
- `isProbablePrime` is `isProbablePrime: int -> bool`.
- Every random number is an argument, with the range the code draws it from.

Because these are Dafny functions, signing and verification are
deterministic in them. `IsValid` is a function, so it changes nothing and
gives the same answer for the same arguments.

Where the code and the usual description of the scheme differ, the model
follows the code:

- The private key and the nonce are `new BigInteger(16, rnd) mod q`, a
  16-bit draw reduced modulo `q`. They are not uniform in `[0, q)`: for
  `q > 2^16` they are below `2^16`.
- The base is `(2 + rand) mod p`, not a value drawn from `[2, p)`.
- The generator search rejects only `g == 1`. The test itself does not
  exclude a zero base, which would give `g == 0` (`ZeroBaseAccepted`).
  The code's draws cannot produce one, though. A draw has the bit length of
  `q`, and `p` is the first prime `q·r + 1`, so `2 + rand` is never a
  multiple of `p` (`NoZeroBase`).
- The constructor stores `p`, `q` and `g` unchecked. A group read back from
  numbers need not satisfy any group property. Signing and verification
  therefore handle whatever `BigInteger` does:
  - A non-positive modulus gives an `Err` result.
  - A negative exponent raises the inverse modulo `p` to the positive power.
  - The not-invertible `Err` occurs only when that inverse does not exist.
  - A negative `e` is never accepted, because the recomputed challenge is
    never negative.

## Model

| member | source | states |
|---|---|---|
| `Schnorr.GenerateKeys` | src/Schnorr.java:19-29 | fails (modulus not positive) exactly when `q <= 0` or `p <= 0`; otherwise `0 <= x < q`, `x ≡ draw (mod q)`, `y == g^x mod p` and `0 <= y < p` |
| `Schnorr.Challenge` | src/Schnorr.java:48-58 | `e` is the digest of `M ‖ encode(r)` read as an unsigned integer, so `0 <= e < 256^(digest length)` |
| `Schnorr.Sign` | src/Schnorr.java:38-65 | fails exactly when `q <= 0` or `p <= 0`; otherwise, with `k = draw mod q`, `e == H(M ‖ encode(g^k mod p))`, `0 <= s < q` and `(s + x·e) mod q == k` |
| `Schnorr.IsValid` | src/Schnorr.java:74-95 | the modulus error occurs exactly when `p <= 0`. For `p > 1` the not-invertible error occurs exactly when `s < 0` and `g^(−s)` has no inverse mod `p`, or `e < 0` and `y^(−e)` has none. Otherwise the result is `Ok`, and the `modPow` values `gs` and `ye` exist. The result is true exactly when `e == H(M ‖ encode(gs·ye mod p))`. For `s, e >= 0` this reads `e == H(M ‖ encode((g^s · y^e) mod p))`. A negative `e` is never accepted |
| `Schnorr.VerificationEquation` | src/Schnorr.java:78-94 | against `y = g^x mod p`, verification accepts exactly when `e == H(M ‖ encode(g^(s + x·e) mod p))` |
| `Schnorr.ResponseRecoversNonce` | src/Schnorr.java:60-61 | when `g^q ≡ 1 (mod p)` and `s + x·e ≡ k (mod q)`, `g^(s + x·e) ≡ g^k`: the verifier's commitment is the signer's |
| `Schnorr.SignatureVerifies` | src/Schnorr.java:38-95 | round trip: for `p > 1`, `q > 0`, `g^q ≡ 1 (mod p)` and `x >= 0`, `Sign` succeeds and `IsValid` of its signature under `y = g^x mod p` is `Ok(true)` |
| `Schnorr.GeneratedKeysVerify` | src/Schnorr.java:19-95 | keys from `GenerateKeys` and a signature from `Sign` with them always verify when `g^q ≡ 1 (mod p)` |
| `Schnorr.GeneratedGroupSignaturesVerify` | src/SchnorrGroup.java:42-54 | for a group built by the generator from a truly prime `p = q·r + 1` and a non-zero base, every key pair and signature produced verifies |
| `BigIntegers.Mod` | src/Schnorr.java:23 | `BigInteger.mod`: throws exactly when `m <= 0`; otherwise the result lies in `[0, m)` and `m` divides `a − result` |
| `BigIntegers.ModInverse` | src/Schnorr.java:79-80 | `BigInteger.modInverse`: modulus error exactly when `m <= 0`; `0` when `m == 1`; for `m > 1` either an inverse in `[0, m)` or `NotInvertible` when `a` has no inverse at all |
| `BigIntegers.ModPow` | src/Schnorr.java:79-81 | `BigInteger.modPow`: modulus error exactly when `m <= 0`; for `e >= 0` it is `b^e mod m`; for `e < 0` it is an inverse of `b^(−e)` in `[0, m)`, or `NotInvertible` when none exists; every result satisfies `IsModPow` |
| `BigIntegers.ModPowValueUnique` | src/Schnorr.java:79-80 | at most one value in `[0, m)` meets `modPow`'s definition (the inverse is unique), so the result of `modPow`, when it exists, is determined |
| `BigIntegers.FromMagnitude` | src/Schnorr.java:58 | `new BigInteger(1, digest)` is non-negative and below `256^|digest|` |
| `BigIntegers.MagnitudeRoundTrip` | src/Schnorr.java:58 | the digest is recovered from the integer and its length, so distinct digests of one length give distinct challenges |
| `BigIntegers.ValueRoundTrip` | src/Schnorr.java:92 | every integer below `256^len` is the value of its `len`-byte encoding |
| `Modular.ModPowCongruentExponents` | src/Schnorr.java:78-81 | when `g^q ≡ 1 (mod m)`, exponents congruent modulo `q` give equal powers |
| `SchnorrGroups.SchnorrGroup.constructor` | src/SchnorrGroup.java:9-13 | stores `p`, `q`, `g` exactly as given, with no check |
| `SchnorrGroups.SchnorrGroup.SearchModulus` | src/SchnorrGroup.java:33-40 | a result is `p == q·r + 1` with `1 <= r <= maxR`, passes the primality test, is the first such candidate, and has `p mod q == 1` and `(p − 1)/q == r`; no result means every candidate up to `maxR` failed |
| `SchnorrGroups.SchnorrGroup.SearchGenerator` | src/SchnorrGroup.java:42-52 | a result uses the first draw whose `g` is not 1; `a == (2 + draw) mod p` in `[0, p)`, `ga == (p − 1)/q`, `g == a^ga mod p` in `[0, p)` and `g != 1`; no result means every draw gave 1 |
| `SchnorrGroups.SchnorrGroup.Generate` | src/SchnorrGroup.java:22-55 | a new group with the given `q`, the first probable-prime `p = q·r + 1` (`p mod q == 1`, `r·q == p − 1`), and the first `g != 1` in `[0, p)`, with `g^q ≡ a^(p−1) (mod p)`; when the primality test is exact, `g != 0`, `g^q ≡ 1 (mod p)` and no power `g^j` with `0 < j < q` is 1; no group only when a search ran out |
| `SchnorrGroups.Candidate` | src/SchnorrGroup.java:36 | the candidate `q·r + 1` is 1 modulo `q` for every `r` |
| `SchnorrGroups.CandidateGenerator` | src/SchnorrGroup.java:46-48 | the `g` computed from one draw lies in `[0, p)` and is the reference power `Base(draw, p)^((p − 1)/q) mod p` |
| `SchnorrGroups.Base` | src/SchnorrGroup.java:46 | the candidate base is in `[0, p)` and congruent to `2 + draw` modulo `p` |
| `SchnorrGroups.Cofactor` | src/SchnorrGroup.java:47 | `(p − 1)/q` is the non-negative quotient: `e·q <= p − 1 < (e + 1)·q` |
| `SchnorrGroups.CandidateCofactor` | src/SchnorrGroup.java:36-47 | for `q > 1`, `r >= 1`: `q·r + 1 > q`, `(q·r + 1) mod q == 1`, `(p − 1)/q == r` and `((p − 1)/q)·q == p − 1` exactly |
| `SchnorrGroups.GeneratorPower` | src/SchnorrGroup.java:47-48 | `(a^r mod p)^q ≡ a^(p − 1) (mod p)` for `p = q·r + 1` |
| `SchnorrGroups.CandidateGeneratorIsPower` | src/SchnorrGroup.java:47-48 | the candidate generator for `p = q·r + 1` is `a^r mod p` |
| `SchnorrGroups.CandidateGeneratorOrder` | src/SchnorrGroup.java:45-52 | with `p` truly prime and `a != 0`, `g^q ≡ 1 (mod p)`; if also `q` is prime and `g != 1`, no power `g^j` with `0 < j < q` is 1 |
| `SchnorrGroups.GeneratorOrder` | src/SchnorrGroup.java:49-51 | for a prime `q`, a `g != 1` in `[0, p)` with `g^q ≡ 1` has order exactly `q` |
| `SchnorrGroups.ZeroBaseAccepted` | src/SchnorrGroup.java:46-51 | a draw with `(2 + draw) mod p == 0` would yield `g == 0`, which the `g != 1` test accepts |
| `SchnorrGroups.NoZeroBase` | src/SchnorrGroup.java:29-46 | for a prime `q`, a draw with the bit length of `q`, and `p` the first prime `q·r + 1`, the base `(2 + draw) mod p` is never 0 |
| `SchnorrGroups.PrimeGroupGenerator` | src/SchnorrGroup.java:29-52 | for a prime `q`, `p` the first prime `q·r + 1` and a draw of `q`'s bit length whose `g` is not 1, `g != 0`, `g^q ≡ 1 (mod p)` and no power `g^j` with `0 < j < q` is 1 |
| `Fermat.FermatLittle` | src/SchnorrGroup.java:47-48 | `a^(p−1) ≡ 1 (mod p)` for a prime `p` not dividing `a`: the fact behind `g^q ≡ 1` |

## Left out

- `src/Main.java` is not part of this model. It is Swing window wiring and reads and writes decimal numbers and message bytes through files.
- The SHA-1 digest and `BigInteger.toByteArray` are parameters (`hash`, `encode`). Digest internals and the two's-complement encoding are not modelled.
- Java's signed `byte` is modelled as its bit pattern, a value in `[0, 256)`.
- `SecureRandom` is not modelled. Each draw is an argument: `new BigInteger(16, rnd)` is a number in `[0, 2^16)`, and `new BigInteger(bitLength, 100, rnd)` is a number of exactly `bitLength` bits.
- `isProbablePrime(100)` is the abstract parameter `isProbablePrime`. Its error probability is not modelled. The facts that need real primality (`g^q ≡ 1`, the order of `g`) are stated for a truly prime `p` or `q` through `IsPrime`.
- `SchnorrGroups.SchnorrGroup.Generate`: the source's two `while (true)` loops have no bound, and their termination rests on prime density and randomness. The model bounds the `p`-search by `maxR` and the `g`-search by the finite list of draws. It returns `None` when either runs out.
- `SchnorrGroups.SchnorrGroup.Generate`: `new BigInteger(bitLength, 100, rnd)` throws for `bitLength < 2`. The model takes the drawn `q` as an argument and requires `bitLength >= 2`.
- `SchnorrGroups.SchnorrGroup.Generate`: the draws of the `g`-search are required to have the bit length of `q`, but not to pass the primality test. `NoZeroBase` needs only the bit length.
- `SchnorrGroups.SchnorrGroup.Generate` claims `g^q ≡ 1 (mod p)` and `g != 0` only when the primality test is exact on non-negative numbers (`ExactTest`). A composite `p` that passes the probabilistic test does not ensure them.
- `NoSuchAlgorithmException` handling is not modelled. It is an environment fault; the code prints the trace and then dereferences null.
- A signature array with fewer than two entries is not modelled. The signature is a pair `(e, s)`.
- Unforgeability, tamper detection, cross-group rejection and nonce-reuse attacks are not modelled. They rest on assumptions about the hash and the discrete logarithm, not on what the code computes.
- `BigInteger` is unbounded, like Dafny's `int`, so there is no integer width to model.
- `Schnorr.GenerateKeys`, `Schnorr.Sign` and `Schnorr.IsValid` take the group as the value `Params(p, q, g)` of a `SchnorrGroup` object's fields, not the object itself. The code only reads those fields, so no update in place or aliasing is lost.
