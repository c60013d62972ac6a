# GmSSL 3.1.1: arithmetic, modes, codecs and TLS 1.3

A Dafny model of the hard parts of the C library GmSSL 3.1.1 and proofs about it, for all inputs.
`dafny verify dfyconfig.toml` checks everything. The project follows the source from the bottom up:

- **Limbs and fields.** `Limbs`, `Modular`, `Barrett`, `Sm2Field`, `Sm2Order`, `Sm2Inverse`, `Sm9Field`: eight
  32-bit limbs in 64-bit words, carry and borrow passes, the folding reduction of the SM2 prime, Barrett
  reduction, and the inversion chains. The methods work in place on arrays of 64-bit words, and each addition,
  product and shift is proved not to overflow where the source relies on that.
- **Points and the tower.** `Curve`, `Cancellation`, `Jacobian`, `PointMul`, `Scalars`: the group of the curve, the
  Jacobian formulas with their special cases, and scalar multiplication. `Ring`, `Tower`, `Fp12`: Fp2, Fp4 and Fp12
  over any commutative ring. `TowerFields`, `Fp12Fields`, `Roots`, `Sm9Tower`: when these are fields, and that they
  are for the SM9 prime.
- **Algorithms over them.** `KeyShare` (splitting and recovering a key), `Elgamal` (the discrete logarithm by baby
  and giant steps), `RingSignature`.
- **GF(2^128), GHASH, SM4 and the modes.** `Gf2Poly`, `WordBits`, `Gf128Algebra`, `Gf128`, `Gf128Bytes`,
  `Gf128Coefficients`, `Ghash`, `Sm4Box`, `Sm4Rounds`, `Sm4Tables`, `Sm4`, `Sm4Algebra`, `Sm4Standard`, `BlockModes`,
  `CipherModes`, `ModeBytes`, `Aead`, `Gcm`, `Instances`, `GcmStandard`. Polynomials over GF(2) are finite sets of
  exponents; the modes are generic in the block cipher and in the hash field, and `Instances` supplies SM4 and
  gf128.c. `Sm4Standard` and `GcmStandard` say what these compute in the terms of the standards.
- **TLS 1.3.** `Tls13Record`, `Tls13Messages`, `Tls13Handshake`, `Tls13Lockstep`, `Tls13Transcript`, `Tls13Data`,
  `Tls13Connection`, `TlsCipher`: the record layer on bytes, the handshake as two state machines that read each
  other's byte streams, its messages, keys and transcript byte by byte, and application data.
- **Codecs.** `Base64Groups`, `Base64`, `Base64Tables`, `Base64Streams`; `Der`, `DerLists`, `DerOid`, `DerBits`;
  `Calendar`. `Octets` and `Wrappers` hold what several of them share.

## Hypotheses

- The primality of the SM2 and SM9 primes and of the SM2 order is a hypothesis of the results that need it
  (inverses, points, shares), never an axiom.
- Associativity of the group law of the curve is a hypothesis of the results about multiples (`Associative`); that
  it stays on the curve, and that a point can be taken away again, is proved without it. The curve results hold for every prime above 3 and every constant b. A
  generator of prime order is a hypothesis of `Elgamal` and `RingSignature`.
- Point formulas, tower and key sharing compute on field values; that the limb methods compute the same values is
  what the limb modules prove.
- SM3, HMAC, HKDF, ECDH, signatures and X.509 checks are function values with the laws the protocol is built on:
  an opened ciphertext is what was sealed, both sides agree on the shared point, a signature by the key of a
  certificate verifies under it, outputs have their sizes. `TlsCipher` proves the first for SM4-GCM.
- Random numbers are arbitrary inputs.

## What the code does differently from what it is for

- A TLS client without a certificate goes on to its Finished when it is asked for one, and returns 1; the server
  refuses. `Tls13Lockstep.Lockstep` has the exact condition for each side, and
  `Tls13Lockstep.FinishedNotCertificate` the reason.
- `tls_seq_num_incr` never changes the first byte, so counters repeat after 2^56 records
  (`Tls13Record.SeqNumIncr`, `Tls13Record.NoncesRepeat`).
- A ring signature with k + r = 0 modulo n at the signer, that is s + r = 0, meets the point at infinity in
  verification, which is made affine as (0, 0) and added as if it were a point. `RingSignature.Closes` and
  `RingSignature.LastPlace` say exactly which of these signatures are accepted, `RingSignature.Refused` shows one
  that is not.
- `asn1_int_to_der` writes a zero for negative numbers other than -1 (`Der.IntRoundTrip`);
  `asn1_sequence_of_int_from_der` lets one number more pass than it has room for (`DerLists.IntsRoundTrip`);
  object identifiers come back only when the first two nodes fit into a byte in the usual way
  (`DerOid.OidRoundTrip`), and one node more than can be written, 33, is read (`DerOid.OctetsRoom`).
- The GCM counter counts all 128 bits (`Instances.CtrIncr`), so results compare streaming with one-shot functions.

## Model

| member | source | states |
|---|---|---|
| Limbs.BnAdd | gmssl/GmSSL-3.1.1/src/sm2_alg.c:294-305 | The value of the result is the sum of the values; every limb but the last is reduced, the last keeps the carry; the result may be an operand. |
| Limbs.BnSub | gmssl/GmSSL-3.1.1/src/sm2_alg.c:307-319 | For an operand not below the other, the difference, fully normalised: the 2^32 lent to each limb and the wrap-around of the last one cancel. |
| Limbs.BnCmp | gmssl/GmSSL-3.1.1/src/sm2_alg.c:233-243 | 1, 0 or -1 exactly as the first value is above, equal to or below the second. |
| Limbs.Mul | gmssl/GmSSL-3.1.1/src/sm2_alg.c:403-412 | The product loops give sixteen normalised limbs of the exact product: no 64-bit step overflows. |
| Sm2Field.FpAdd | gmssl/GmSSL-3.1.1/src/sm2_alg.c:343-349 | The sum modulo p of two reduced elements, reduced, also in place. |
| Sm2Field.FpSub | gmssl/GmSSL-3.1.1/src/sm2_alg.c:351-360 | The difference modulo p, reduced, also in place. |
| Sm2Field.FpNeg | gmssl/GmSSL-3.1.1/src/sm2_alg.c:387-394 | The negative modulo p; zero stays zero. |
| Sm2Field.FpDiv2 | gmssl/GmSSL-3.1.1/src/sm2_alg.c:374-385 | The element whose double modulo p is the operand: a is halved, or a + p when a is odd, with the bits carried across the limbs. |
| Sm2Field.FpMul | gmssl/GmSSL-3.1.1/src/sm2_alg.c:396-437 | a b mod p in [0, p) for all reduced a, b; no 64-bit step overflows, the folded sum is never below the subtracted part, and the final loop turns at most 14 times. |
| Sm2Field.FoldResidue | gmssl/GmSSL-3.1.1/src/sm2_alg.c:414-431 | The column sums minus the subtracted part are congruent to the sixteen-limb product modulo p: the difference is a stated multiple of p. |
| Sm2Field.FoldRange | gmssl/GmSSL-3.1.1/src/sm2_alg.c:414-436 | The folded number lies in [0, 15 p) for every product of two reduced elements. |
| Sm2Inverse.FpInv | gmssl/GmSSL-3.1.1/src/sm2_alg.c:464-540 | The chain of squarings and multiplications computes a^(p-2) mod p for every a. |
| Sm2Inverse.InverseOfElement | gmssl/GmSSL-3.1.1/src/sm2_alg.c:464-540 | With p prime, a times that power is 1 modulo p for every a that is not 0 modulo p. |
| Barrett.Reduce | gmssl/GmSSL-3.1.1/src/sm2_alg.c:662-727 | One lemma for four source functions: from a sixteen-limb z, the estimated quotient and one or two subtractions give z mod m for any modulus with its Barrett constant, with or without the truncated product. |
| Barrett.QuotientBound | gmssl/GmSSL-3.1.1/src/sm2_alg.c:662-686 | The estimated quotient is never above the true one and at most two below it. |
| Barrett.KeptLimbs | gmssl/GmSSL-3.1.1/src/sm2_alg.c:671-704 | Dropping the limb above the kept ones is exact: the nine (or ten) low limbs of the product with the modulus are all that matters. |
| Sm2Order.FnMul | gmssl/GmSSL-3.1.1/src/sm2_alg.c:634-728 | a b mod n whenever one operand is below n, with at most two final subtractions, for all three outcomes of the nine-limb comparison. |
| Sm2Order.FnExp | gmssl/GmSSL-3.1.1/src/sm2_alg.c:742-760 | a^e mod n for every 256-bit exponent, most significant bit first. |
| Sm2Order.FnInv | gmssl/GmSSL-3.1.1/src/sm2_alg.c:762-767 | a^(n-2) mod n. |
| Sm2Order.InverseOfScalar | gmssl/GmSSL-3.1.1/src/sm2_alg.c:762-767 | With n prime this is the inverse of every scalar that is not a multiple of n. |
| Modular.Fermat | gmssl/GmSSL-3.1.1/src/sm2_alg.c:464-470 | The exponents of the inversions rest on it: a^(p-1) = 1 modulo a prime p, for every a that p does not divide, proved here. |
| Roots.NoRoot | gmssl/GmSSL-3.1.1/src/sm9_alg.c:586-603 | A certificate that r is no n-th power modulo a prime p with n q = p - 1: r z is one, but z^q is not 1. |
| Curve.Closed | gmssl/GmSSL-3.1.1/src/sm2_alg.c:880-989 | Chord and tangent stay on the curve, for any two points of it. |
| Curve.SameX | gmssl/GmSSL-3.1.1/src/sm2_alg.c:955-972 | Two points of the curve with the same x coordinate are equal or opposite, the two cases that the addition tells apart by y. |
| Cancellation.Cancels | gmssl/GmSSL-3.1.1/src/sm2_alg.c:880-996 | A + C and then minus C is A again, for all points of a curve with b^2 not 4 modulo p, tangents and flexes included: the third intersection is reflected, and no group law is assumed. |
| Cancellation.SingularFails | gmssl/GmSSL-3.1.1/src/sm2_alg.c:880-996 | On every other curve there are two points for which that fails. |
| Cancellation.Sm2Nonsingular | gmssl/GmSSL-3.1.1/src/sm2_alg.c:837-871 | b^2 is not 4 modulo p for the constants of SM2. |
| Jacobian.JacobianPoint.Dbl | gmssl/GmSSL-3.1.1/src/sm2_alg.c:880-926 | The result represents the sum of the point with itself, for the point at infinity, a point of order two and every other one, also in place. |
| Jacobian.JacobianPoint.AddMixed | gmssl/GmSSL-3.1.1/src/sm2_alg.c:928-989 | The result represents the sum in every case: either operand infinite, equal, opposite or different points; the second operand is affine; also in place. For coordinates that are on no curve it is the chord, or infinity above each other. |
| PointMul.ToBits | gmssl/GmSSL-3.1.1/src/sm2_alg.c:220-231 | The 256 characters spell the value of the scalar, most significant bit first, though the shifted word keeps bits above bit 31. |
| PointMul.GetXy | gmssl/GmSSL-3.1.1/src/sm2_alg.c:799-818 | The affine coordinates of the point represented; both are 0 for the point at infinity. |
| PointMul.IsOnCurve | gmssl/GmSSL-3.1.1/src/sm2_alg.c:837-871 | True exactly if the affine point represented satisfies the curve equation, on both branches; for coordinates of the point at infinity exactly if Y^2 = X^3, as for (1, 1, 0). |
| PointMul.Mul | gmssl/GmSSL-3.1.1/src/sm2_alg.c:998-1023 | The k-fold sum of every finite point of the curve, for every 256-bit k, if the group law is associative. |
| PointMul.DoubleAndAddIsMultiple | gmssl/GmSSL-3.1.1/src/sm2_alg.c:1014-1022 | Double-and-add over any bit string is the multiple by the number that it spells. |
| PointMul.MultipleAdd | gmssl/GmSSL-3.1.1/src/sm2_alg.c:1014-1022 | Multiples of a point of the curve add up as their factors do. |
| PointMul.MulSum | gmssl/GmSSL-3.1.1/src/sm2_alg.c:1048-1064 | t P + s G for every t and s if t P is finite; otherwise s G plus the pair (0, 0), which making the point at infinity affine leaves. |
| PointMul.PlusOriginX | gmssl/GmSSL-3.1.1/src/sm2_alg.c:799-989 | The x coordinate of a point (x, y) of the curve plus (0, 0): 0 for the point at infinity and for x = 0, else (b - 3 x) / x^2. |
| Scalars.SameAbscissa | gmssl/GmSSL-3.1.1/src/sm2_elgamal.c:67-114 | Multiples of a generator of prime order share an x coordinate only when the scalars are equal or opposite modulo the order. |
| Sm9Field.FpMul | gmssl/GmSSL-3.1.1/src/sm9_alg.c:331-421 | a b mod p for the SM9 prime with the truncated product in the second half of the reduction; at most two final subtractions. |
| Sm9Field.FnMul | gmssl/GmSSL-3.1.1/src/sm9_alg.c:2194-2277 | a b mod n for the SM9 order. |
| Sm9Field.FnFromHash | gmssl/GmSSL-3.1.1/src/sm9_alg.c:2310-2388 | 1 + (Ha mod (n - 1)) for every 40-byte Ha. |
| Tower.QuadIsRing | gmssl/GmSSL-3.1.1/src/sm9_alg.c:586-603 | A quadratic extension R[x] with x^2 = d of any commutative ring is a commutative ring. |
| Tower.Fp2Products | gmssl/GmSSL-3.1.1/src/sm9_alg.c:586-669 | sm9_fp2_mul, mul_u, sqr, sqr_u and a_mul_u are the products with u^2 = -2. |
| Tower.Fp2Inverse | gmssl/GmSSL-3.1.1/src/sm9_alg.c:671-704 | All three branches give an inverse whenever the norm a0^2 + 2 a1^2 is not 0. |
| Tower.InvertibleNorm | gmssl/GmSSL-3.1.1/src/sm9_alg.c:671-704 | The converse: an element that has an inverse has a norm that is not 0. |
| Tower.Fp4Products | gmssl/GmSSL-3.1.1/src/sm9_alg.c:838-909 | sm9_fp4_mul, mul_v, sqr, sqr_v and a_mul_v are the products with v^2 = u. |
| Tower.Fp4Inverse | gmssl/GmSSL-3.1.1/src/sm9_alg.c:911-927 | sm9_fp4_inv inverts whenever the norm down to Fp2 has an inverse. |
| TowerFields.InvertibleNorm4 | gmssl/GmSSL-3.1.1/src/sm9_alg.c:911-927 | The converse over a field Fp2: an element of Fp4 that has an inverse has a norm that is not 0. |
| TowerFields.QuadNormMul | gmssl/GmSSL-3.1.1/src/sm9_alg.c:586-927 | The norms of Fp2 and Fp4, and of any quadratic extension, are multiplicative. |
| TowerFields.Fp2IsField | gmssl/GmSSL-3.1.1/src/sm9_alg.c:671-704 | If -2 is no square in the field R, sm9_fp2_inv inverts every element but 0 and Fp2 is a field. |
| TowerFields.Fp4IsField | gmssl/GmSSL-3.1.1/src/sm9_alg.c:911-927 | If u is no square in the field Fp2, sm9_fp4_inv inverts every element but 0 and Fp4 is a field. |
| Fp12.Element.Mul | gmssl/GmSSL-3.1.1/src/sm9_alg.c:1102-1127 | The product of the polynomials in w reduced by w^3 = v; the result may be an operand. |
| Fp12.Element.Sqr | gmssl/GmSSL-3.1.1/src/sm9_alg.c:1188-1223 | The product of a with itself, by the three-square formula, also in place. |
| Fp12.ThreeSquares | gmssl/GmSSL-3.1.1/src/sm9_alg.c:1193-1222 | The three-square formula equals multiplication by itself, over every commutative ring in which 2 can be halved. |
| Fp12.Element.Inv | gmssl/GmSSL-3.1.1/src/sm9_alg.c:1225-1275 | Over a field Fp4 both branches give a result with a times it equal to 1 whenever the norm is not 0; over any ring, whenever the quantity passed to sm9_fp4_inv (the norm, times a2 if that is not 0) is inverted by it. 0 gives 0. Also in place. |
| Fp12.InvertedHasInverse | gmssl/GmSSL-3.1.1/src/sm9_alg.c:1225-1275 | Over a field Fp4 a norm that is not 0 is all that the inversion in the code needs, in both branches. |
| Fp12Fields.CubicAssociates | gmssl/GmSSL-3.1.1/src/sm9_alg.c:1102-1127 | Multiplication of Fp12 is associative, over every commutative ring. |
| Fp12Fields.InvertibleExactly | gmssl/GmSSL-3.1.1/src/sm9_alg.c:1225-1275 | Over a field Fp4 an element of Fp12 has an inverse if and only if its norm is not 0. |
| Fp12Fields.NormZero | gmssl/GmSSL-3.1.1/src/sm9_alg.c:1225-1275 | Over a field Fp4 in which v is no cube, the norm of an element is 0 if and only if the element is. |
| Fp12.Adjoint | gmssl/GmSSL-3.1.1/src/sm9_alg.c:1250-1273 | The cofactors of the general branch multiply a to its norm. |
| Fp12.Fp4Implements | gmssl/GmSSL-3.1.1/src/sm9_alg.c:1102-1275 | The Fp4 functions of the source are the operations that the Fp12 results ask for. |
| Sm9Tower.ResiduesField | gmssl/GmSSL-3.1.1/src/sm9_alg.c:449-454 | If the SM9 prime is prime, the residues are a field: every element but 0 has an inverse. |
| Sm9Tower.Sm9Implements | gmssl/GmSSL-3.1.1/src/sm9_alg.c:586-1187 | Over the residues modulo the SM9 prime the Fp4 functions are the operations that the Fp12 methods ask for, halving included. |
| Sm9Tower.NoRoots | gmssl/GmSSL-3.1.1/src/sm9_alg.c:586-603 | If the SM9 prime is prime, 2 and -2 are no squares and 2 is no cube modulo it. |
| Sm9Tower.Sm9Fields | gmssl/GmSSL-3.1.1/src/sm9_alg.c:586-927 | If the SM9 prime is prime, Fp2 and Fp4 with the inversions of the code are fields, and v is no cube in Fp4. |
| Sm9Tower.Fp12IsField | gmssl/GmSSL-3.1.1/src/sm9_alg.c:1225-1275 | If the SM9 prime is prime, having a norm that is not 0, having an inverse and not being 0 are the same in Fp12. |
| Sm9Tower.Inv12 | gmssl/GmSSL-3.1.1/src/sm9_alg.c:1225-1275 | If the SM9 prime is prime, sm9_fp12_inv gives an inverse of every a but 0, and 0 for 0, also in place. |
| KeyShare.EvalPoly | gmssl/GmSSL-3.1.1/src/sm2_key_share.c:31-38 | f(x) mod n for every coefficient list and x: Horner evaluation equals the sum of c_i x^i. |
| KeyShare.KeySplit | gmssl/GmSSL-3.1.1/src/sm2_key_share.c:40-83 | Errors exactly for the rejected counts; otherwise share i holds f(i + 1) for the polynomial with the key as constant coefficient and the random ones behind it. |
| KeyShare.NumDen | gmssl/GmSSL-3.1.1/src/sm2_key_share.c:118-138 | The signed int products of the Lagrange weight do not overflow with 12 shares, and are the numerator and denominator at 0 up to sign. |
| KeyShare.KeyRecover | gmssl/GmSSL-3.1.1/src/sm2_key_share.c:85-167 | Returns f(0) mod n for every polynomial f of degree below the number of shares that passes through shares with distinct indices. |
| KeyShare.Interpolate | gmssl/GmSSL-3.1.1/src/sm2_key_share.c:115-158 | Lagrange interpolation at 0: the weighted sum of the values of f at distinct nodes is f(0), for every f with no more coefficients than nodes. |
| KeyShare.WeightsAddUp | gmssl/GmSSL-3.1.1/src/sm2_key_share.c:115-158 | The Lagrange weights at 0 add up to 1. |
| KeyShare.SplitShares | gmssl/GmSSL-3.1.1/src/sm2_key_share.c:40-167 | Any selection of at least as many shares as the threshold lies on the polynomial of the split, whose value at 0 is the key. |
| KeyShare.SplitAndRecover | gmssl/GmSSL-3.1.1/src/sm2_key_share.c:40-167 | The round trip: for every key, random coefficients, threshold, number of shares and choice of distinct shares, at least as many as the threshold and in any order, recovery returns 1 and the key. |
| Gf128.MulIsProduct | gmssl/GmSSL-3.1.1/src/gf128.c:120-161 | An element equals gf128_mul(a, b) exactly if its polynomial is congruent to the product of the polynomials of a and b modulo x^128 + x^7 + x^2 + x + 1. |
| Gf128.Multiply | gmssl/GmSSL-3.1.1/src/gf128.c:120-161 | The two loops over the bits of b compute the function that the result above is about. |
| Gf128.Mul2IsTimesX | gmssl/GmSSL-3.1.1/src/gf128.c:163-177 | An element equals gf128_mul2(a) exactly if its polynomial is congruent to x times that of a modulo x^128 + x^7 + x^2 + x + 1. |
| Gf128.AddAndShift | gmssl/GmSSL-3.1.1/src/gf128.c:112-118 | gf128_add is the sum of polynomials over GF(2). |
| Gf128.Commutative | gmssl/GmSSL-3.1.1/src/gf128.c:120-161 | a b = b a. |
| Gf128.Associative | gmssl/GmSSL-3.1.1/src/gf128.c:120-161 | (a b) c = a (b c). |
| Gf128.Distributive | gmssl/GmSSL-3.1.1/src/gf128.c:112-161 | a (b + c) = a b + a c. |
| Gf2Poly.ResidueUnique | gmssl/GmSSL-3.1.1/src/gf128.c:120-161 | Two polynomials of degree below 128 that are congruent are equal, so that a product has one representative. |
| Gf128Bytes.Reverse | gmssl/GmSSL-3.1.1/src/gf128.c:78-90 | The loop shifts the bits over one by one. |
| Gf128Bytes.ReverseMirrors | gmssl/GmSSL-3.1.1/src/gf128.c:78-90 | Bit i of the result is bit 63 - i of the operand. |
| Gf128Bytes.BytesRoundTrip | gmssl/GmSSL-3.1.1/src/gf128.c:92-110 | Writing what was read from 16 bytes gives them back. |
| Gf128Coefficients.CoefficientIs | gmssl/GmSSL-3.1.1/src/gf128.c:92-102 | Bit 7 - j of byte i of a block is the coefficient of x^(8 i + j), and there are no higher powers. |
| Ghash.OneShot | gmssl/GmSSL-3.1.1/src/gcm.c:37-82 | ghash computes the fold of the padded additional data, the padded ciphertext and the block of the two bit lengths, which GcmStandard.GhashIs spells for gf128.c. |
| Ghash.HashIsSum | gmssl/GmSSL-3.1.1/src/gcm.c:37-83 | That fold is the sum of the blocks times descending powers of H, as in section 6.4 of NIST SP 800-38D. |
| GcmStandard.GhashIs | gmssl/GmSSL-3.1.1/src/gcm.c:37-83 | With gf128.c: the same sum with powers of the element of the block h, the last block holding eight times the length of the additional data in its first half and eight times that of the ciphertext in its second, big-endian modulo 2^64. |
| GcmStandard.LengthsAre | gmssl/GmSSL-3.1.1/src/gcm.c:43-44 | The two halves of that block as numbers, for all lengths. |
| GcmStandard.BlocksAre | gmssl/GmSSL-3.1.1/src/gcm.c:47-77 | The blocks hold the bytes of a text in order, and zeros behind them. |
| Ghash.Context.Update | gmssl/GmSSL-3.1.1/src/gcm.c:111-147 | After every chunk the accumulator has absorbed the whole blocks so far and the buffer holds the rest. |
| Ghash.Context.Finish | gmssl/GmSSL-3.1.1/src/gcm.c:149-170 | The one-shot hash of everything given, for every chunking. |
| BlockModes.Context.EncryptUpdate | gmssl/GmSSL-3.1.1/src/sm4_modes.c:218-260 | Output so far is the mode over the whole blocks of the data so far, the buffer holds fewer than 16 bytes; the CTR update has the same body. |
| BlockModes.Context.DecryptUpdate | gmssl/GmSSL-3.1.1/src/sm4_modes.c:285-324 | The same, with a last whole block held back. |
| CipherModes.CbcRoundTrip | gmssl/GmSSL-3.1.1/src/sm4_modes.c:16-38 | CBC decryption inverts CBC encryption on whole blocks, for every iv. |
| ModeBytes.CbcBlock | gmssl/GmSSL-3.1.1/src/sm4_modes.c:16-26 | Block i of CBC is the encryption of block i of the input and block i - 1 of the output, or the iv. |
| CipherModes.CbcPaddingEncrypt | gmssl/GmSSL-3.1.1/src/sm4_modes.c:40-60 | CBC over the input and its padding. |
| CipherModes.CbcPaddingDecrypt | gmssl/GmSSL-3.1.1/src/sm4_modes.c:62-93 | CBC decryption and what the last byte says about the padding; fails exactly on lengths and last bytes that the source rejects. |
| CipherModes.PaddedRoundTrip | gmssl/GmSSL-3.1.1/src/sm4_modes.c:40-93 | Padding decryption gives back every input. |
| ModeBytes.PaddedIs | gmssl/GmSSL-3.1.1/src/sm4_modes.c:40-60 | The padding fills the last block, or is a whole one, and each of its bytes tells their number. |
| CipherModes.CtrEncrypt | gmssl/GmSSL-3.1.1/src/sm4_modes.c:105-119 | Key stream blocks from successive counters, and the counter that follows. |
| CipherModes.CtrRoundTrip | gmssl/GmSSL-3.1.1/src/sm4_modes.c:105-119 | CTR is its own inverse, for every length. |
| ModeBytes.CtrByte | gmssl/GmSSL-3.1.1/src/sm4_modes.c:105-119 | Byte n of CTR is that of the input with byte n mod 16 of the encryption of the counter incremented n / 16 times. |
| Instances.CtrIncr | gmssl/GmSSL-3.1.1/src/sm4_modes.c:95-102 | The loop computes the function Incr, from the last byte until one does not wrap. |
| GcmStandard.IncrIs | gmssl/GmSSL-3.1.1/src/sm4_modes.c:95-102 | The big-endian number of Incr(a) is one more than that of a, modulo 256^n for n bytes: all bits count. |
| GcmStandard.XorBits | gmssl/GmSSL-3.1.1/src/sm4_modes.c:105-119 | The exclusive or of the modes, bit by bit. |
| GcmStandard.PadIs | gmssl/GmSSL-3.1.1/src/sm4_modes.c:40-60 | A byte of padding as a number. |
| Gcm.Encrypt | gmssl/GmSSL-3.1.1/src/sm4_modes.c:122-164 | Error exactly for a tag longer than 16; ciphertext and truncated tag are those that GcmStandard.CipherByte and GcmStandard.TagByte spell for SM4. |
| GcmStandard.CipherByte | gmssl/GmSSL-3.1.1/src/sm4_modes.c:122-164 | Byte n of the SM4-GCM ciphertext is byte n of the input with byte n mod 16 of an encrypted counter, whose number is that of Y_0 plus n / 16 + 1 modulo 2^128. |
| GcmStandard.TagByte | gmssl/GmSSL-3.1.1/src/sm4_modes.c:122-164 | Byte n of the full tag is that of the encrypted Y_0 with that of the hash of additional data and ciphertext. |
| GcmStandard.FirstCounterIs | gmssl/GmSSL-3.1.1/src/sm4_modes.c:138-146 | The hash key is the encrypted zero block; Y_0 is an iv of 12 bytes and 00 00 00 01, and the hash of any other. |
| Gcm.Decrypt | gmssl/GmSSL-3.1.1/src/sm4_modes.c:166-206 | 1 exactly if the tag is that of the ciphertext; nothing is decrypted otherwise. |
| Gcm.RoundTrip | gmssl/GmSSL-3.1.1/src/sm4_modes.c:122-206 | Decrypting what encryption put out gives the plaintext, for every iv, additional data and length. |
| Aead.OpenSeal | gmssl/GmSSL-3.1.1/src/aead.c:20-342 | What CBC-HMAC or CTR-HMAC seals opens to the plaintext. |
| Aead.Encryptor.Update | gmssl/GmSSL-3.1.1/src/aead.c:44-56 | The MAC has been given exactly the ciphertext put out so far (CBC-HMAC; the CTR-HMAC function at 206-218 has the same body). |
| Aead.Encryptor.Finish | gmssl/GmSSL-3.1.1/src/aead.c:58-72 | All output is ciphertext and MAC of the data given, for every chunking (CTR-HMAC: 220-234). |
| Aead.Decryptor.Update | gmssl/GmSSL-3.1.1/src/aead.c:98-154 | The bytes consumed followed by the held-back window are exactly the input so far, and the output is that of the consumed bytes (CTR-HMAC: 260-316). |
| Aead.Decryptor.Finish | gmssl/GmSSL-3.1.1/src/aead.c:156-180 | Fails exactly on a short input, a wrong MAC or a bad padding; otherwise all output is the plaintext that the one-shot definition gives, for every chunking (CTR-HMAC: 318-342). |
| Gcm.Encryptor.Update | gmssl/GmSSL-3.1.1/src/aead.c:407-419 | The tag computation has absorbed exactly the ciphertext put out so far. |
| Gcm.Encryptor.Finish | gmssl/GmSSL-3.1.1/src/aead.c:421-441 | All output is the ciphertext and tag of sm4_gcm_encrypt, for every chunking. |
| Gcm.GcmIsScheme | gmssl/GmSSL-3.1.1/src/aead.c:450-506 | Streaming GCM decryption with a 16-byte tag is an instance of the held-back window results. |
| Sm4Box.TboxIsSbox | gmssl/GmSSL-3.1.1/src/sm4_enc.c:61-85 | For any word operations with the laws of rotations and tables, the four-lookup form equals the S-box followed by the linear map. |
| Sm4.TboxEqualsSbox | gmssl/GmSSL-3.1.1/src/sm4_enc.c:61-85 | ROUND_TBOX equals ROUND_SBOX for every 32-bit word. |
| Sm4Tables.TableEntry | gmssl/GmSSL-3.1.1/src/sm4_common.c:20-114 | Every entry of SM4_T is the linear map of the S-box entry in the top byte. |
| Sm4Algebra.SboxIs | gmssl/GmSSL-3.1.1/src/sm4_common.c:14-47 | Every entry of SM4_S is the affine map of the inverse in GF(2^8), modulo x^8 + x^7 + x^6 + x^5 + x^4 + x^2 + 1, of the affine map of its index. |
| Sm4Box.Rounds | gmssl/GmSSL-3.1.1/src/sm4_lcl.h:26-58 | The five-register rotation of 32 rounds of ROUND_TBOX refines the recurrence X[i+4] = X[i] ^ T(X[i+1] ^ X[i+2] ^ X[i+3] ^ rk[i]). |
| Sm4Box.RoundTbox | gmssl/GmSSL-3.1.1/src/sm4_enc.c:73-85 | The lookups that use up two registers byte by byte compute the next word of the recurrence. |
| Sm4Rounds.CryptInverts | gmssl/GmSSL-3.1.1/src/sm4_lcl.h:26-58 | For every T and every list of round keys, the rounds with the keys reversed undo the rounds. |
| Sm4Rounds.SetKey | gmssl/GmSSL-3.1.1/src/sm4_setkey.c:35-79 | The key schedule loop fills the round keys in ascending or descending order with the keys of the recurrence. |
| Sm4.SetEncryptKey | gmssl/GmSSL-3.1.1/src/sm4_setkey.c:47-62 | The 32 round keys of the user key, which Sm4Standard.RoundKeysAre spells. |
| Sm4Standard.RoundKeysAre | gmssl/GmSSL-3.1.1/src/sm4_setkey.c:15-62 | If K[0] to K[3] are the words of the key with the four constants FK, and K[i+4] = K[i] ^ L'(S(K[i+1] ^ K[i+2] ^ K[i+3] ^ CK[i])), the round keys are K[4], K[5] and so on. |
| Sm4Standard.CkBytes | gmssl/GmSSL-3.1.1/src/sm4_setkey.c:19-28 | Byte j of CK[i] is 7 (4 i + j) modulo 256. |
| Sm4Standard.KeyMap | gmssl/GmSSL-3.1.1/src/sm4_setkey.c:30-33 | Bit i of L' is the sum of bits i, i - 13 and i - 23 of the word. |
| Sm4Standard.ExampleKeys | gmssl/GmSSL-3.1.1/src/sm4_setkey.c:15-62 | The key 0123456789abcdeffedcba9876543210 has the first round keys f12186f9, 41662b61, 5a6ab19a, 7ba92077 of GB/T 32907-2016. |
| Sm4.SetDecryptKey | gmssl/GmSSL-3.1.1/src/sm4_setkey.c:64-79 | The same in reverse order. |
| Sm4.Encrypt | gmssl/GmSSL-3.1.1/src/sm4_enc.c:90-105 | The block function of the round keys, which Sm4Standard.BlockIs spells. |
| Sm4Standard.BlockIs | gmssl/GmSSL-3.1.1/src/sm4_enc.c:61-105 | If X[0] to X[3] are the words of the block and X[i+4] = X[i] ^ L(S(X[i+1] ^ X[i+2] ^ X[i+3] ^ rk[i])), the block comes out as X[35], X[34], X[33], X[32]. |
| Sm4Standard.LinearMap | gmssl/GmSSL-3.1.1/src/sm4_enc.c:61-66 | Bit i of L is the sum of bits i, i - 2, i - 10, i - 18 and i - 24 of the word. |
| Sm4Standard.BytesSubstituted | gmssl/GmSSL-3.1.1/src/sm4_lcl.h:20-24 | S puts every byte of a word through the S-box in its place. |
| Sm4.DecryptInverts | gmssl/GmSSL-3.1.1/src/sm4_enc.c:90-105 | Encryption under the decryption key inverts encryption under the encryption key, for every key and block (section 7 of GB/T 32907-2016). |
| Instances.Sm4Laws | gmssl/GmSSL-3.1.1/src/sm4_enc.c:90-105 | SM4 under any key satisfies all laws that the mode results ask for. |
| Instances.GhashLaws | gmssl/GmSSL-3.1.1/src/gcm.c:37-83 | gf128.c satisfies the field laws that the GHASH and GCM results ask for. |
| Elgamal.PreCompute | gmssl/GmSSL-3.1.1/src/sm2_elgamal.c:27-48 | With no bucket over six, entry k holds the x coordinate of (k + 1) G and bucket j the indices, in order, of the x coordinates ending in j. |
| Elgamal.GetOffset | gmssl/GmSSL-3.1.1/src/sm2_elgamal.c:50-64 | Finds an entry exactly if a search of the whole table would. |
| Elgamal.SolveEcdlp | gmssl/GmSSL-3.1.1/src/sm2_elgamal.c:67-114 | On m G returns exactly m, for every m from 1 to 2^32 - 1. |
| Elgamal.LookupOne | gmssl/GmSSL-3.1.1/src/sm2_elgamal.c:67-114 | No earlier giant step can hit: equal x coordinates of such small multiples come from equal scalars, never from opposite ones. |
| Elgamal.DecryptedPoint | gmssl/GmSSL-3.1.1/src/sm2_elgamal.c:116-187 | C2 - d C1 is m G for every random k. |
| Elgamal.DoDecrypt | gmssl/GmSSL-3.1.1/src/sm2_elgamal.c:160-187 | Decrypts every ciphertext of m to m, for every m from 1 to 2^32 - 1 and every k for which both parts are finite points. |
| Elgamal.CiphertextsAdd | gmssl/GmSSL-3.1.1/src/sm2_elgamal.c:192-227 | As points of the curve, the sum of two ciphertexts and a fresh l G and l P is the ciphertext of m + m' with k + k' + l. |
| RingSignature.DoSign | gmssl/GmSSL-3.1.1/src/sm2_ring.c:110-194 | -1 exactly for a key that is not in the ring; otherwise the walk from k G at the next position to the end of the ring gives r0, and the response answers the r reached at the signer, wherever in the ring that is. |
| RingSignature.DoVerify | gmssl/GmSSL-3.1.1/src/sm2_ring.c:196-234 | 1 exactly if the walk around the ring from r0 comes back to r0. |
| RingSignature.Closes | gmssl/GmSSL-3.1.1/src/sm2_ring.c:110-234 | A signature verifies if and only if k + r does not vanish modulo n at the signer, or x(k G) and the x coordinate of k G + (0, 0) lead through the rest of the ring to the same r; for every ring size and position. |
| RingSignature.Accepted | gmssl/GmSSL-3.1.1/src/sm2_ring.c:110-234 | Every signature verifies, for every ring size and position, unless 1 + d or k + r vanishes modulo n at the signer; k = 0 needs no exclusion. |
| RingSignature.VanishingResponse | gmssl/GmSSL-3.1.1/src/sm2_ring.c:180-187 | s + r vanishes modulo n if and only if k + r does, and the response is then k mod n. |
| RingSignature.SignerStep | gmssl/GmSSL-3.1.1/src/sm2_alg.c:1048-1064 | Verification finds k G at the signer, or k G + (0, 0) if k + r vanishes. |
| RingSignature.LastPlace | gmssl/GmSSL-3.1.1/src/sm2_ring.c:110-234 | When k + r vanishes for a signer in the last place, or alone, the signature verifies if and only if s = 0, or x(k G) = 0, or (b - 3 x) / x^2 and x give the same r for x = x(k G). |
| RingSignature.OriginFixed | gmssl/GmSSL-3.1.1/src/sm2_ring.c:110-234 | (b - 3 x) / x^2 is x if and only if x^3 + 3 x = b. |
| RingSignature.Alone | gmssl/GmSSL-3.1.1/src/sm2_ring.c:110-234 | In a ring of one every k has a digest, -k - x(k G) mod n, for which k + r vanishes; the signature is k, and verifies exactly under that condition. |
| RingSignature.Refused | gmssl/GmSSL-3.1.1/src/sm2_ring.c:110-234 | A failing input on the curve of SM2: for k = 1, the digest n - 1 - x(G) and every private key d, the signature of a ring of one does not verify. |
| RingSignature.ResponseEquation | gmssl/GmSSL-3.1.1/src/sm2_ring.c:180-187 | The response satisfies s + (s + r) d = k modulo n, with r not fully reduced. |
| Base64Tables.AsciiTable | gmssl/GmSSL-3.1.1/src/base64.c:54-78 | The 128-entry table with the test for the top bit is the function used in the proofs. |
| Base64Tables.LetterTable | gmssl/GmSSL-3.1.1/src/base64.c:35-36 | The 64 letters are the function used in the proofs. |
| Base64Groups.EncodeBlock | gmssl/GmSSL-3.1.1/src/base64.c:154-183 | The loop encodes group by group; the last group may be short. |
| Base64.EncodeThree | gmssl/GmSSL-3.1.1/src/base64.c:160-166 | The letters of a whole group. |
| Base64.EncodeLast | gmssl/GmSSL-3.1.1/src/base64.c:167-176 | The letters and padding of a group of one or two bytes. |
| Base64.GroupIs | gmssl/GmSSL-3.1.1/src/base64.c:154-183 | The characters of every group of one, two or three bytes: its sextets from the first byte on, and padding. |
| Base64.CodeLaws | gmssl/GmSSL-3.1.1/src/base64.c:154-360 | One to three bytes as four characters come back when the padding is taken off, for all bytes. |
| Base64Groups.EncodeDecodes | gmssl/GmSSL-3.1.1/src/base64.c:154-360 | Decoding inverts encoding, for every byte string. |
| Base64Groups.DecodeBlock | gmssl/GmSSL-3.1.1/src/base64.c:323-360 | On characters of the alphabet: -1 exactly if their number is not a multiple of four, else their bytes. |
| Base64Streams.Encoder.Update | gmssl/GmSSL-3.1.1/src/base64.c:93-139 | Everything put out is the full 64-character lines of everything given, the buffer holds the rest; 0 exactly for empty input or too much output. |
| Base64Streams.Encoder.Finish | gmssl/GmSSL-3.1.1/src/base64.c:141-152 | Everything put out is the text of everything given, for every chunking. |
| Base64Streams.Decoder.Update | gmssl/GmSSL-3.1.1/src/base64.c:214-321 | Return value, output and buffer of every call, for every input and buffer, errors included, as the character-by-character function of them; no call fails, and decoding stays in step, as long as everything given can be continued to the text of some bytes. |
| Base64Streams.CallKeeps | gmssl/GmSSL-3.1.1/src/base64.c:214-321 | A call never refuses the continuation of a good text, and all but less than a group in front of the cut has been decoded, wherever the text is cut, inside the padding too. |
| Base64Streams.AllDecoded | gmssl/GmSSL-3.1.1/src/base64.c:214-378 | In step at the end of the text of a byte string, exactly that string has been put out and the buffer is empty. |
| Base64Streams.AnyPieces | gmssl/GmSSL-3.1.1/src/base64.c:214-378 | For every way to cut the text of a byte string into pieces, the run of calls on them puts out exactly that string, no call fails, and the buffer is empty at the end. |
| Base64Groups.TextDecodes | gmssl/GmSSL-3.1.1/src/base64.c:93-360 | The text of any byte string is good and complete, and decodes to the string. |
| Base64Groups.LinesOf64 | gmssl/GmSSL-3.1.1/src/base64.c:93-152 | A line end comes behind every 64 characters and at the very end of a text, and nowhere else. |
| Der.LengthToDer | gmssl/GmSSL-3.1.1/src/asn1.c:139-174 | The bytes counted with out NULL are the bytes written otherwise; nothing for a length above INT_MAX. |
| Der.LengthRoundTrip | gmssl/GmSSL-3.1.1/src/asn1.c:139-218 | Every length up to INT_MAX is read back and nothing behind it touched, if so many bytes follow. |
| Der.LengthMinimal | gmssl/GmSSL-3.1.1/src/asn1.c:139-218 | Whatever is read as a length takes at least as many bytes as are written for it, and with as many bytes it is what is written. |
| Der.TaggedRoundTrip | gmssl/GmSSL-3.1.1/src/asn1.c:275-336 | A tagged content is read back. |
| Der.IntegerToDer | gmssl/GmSSL-3.1.1/src/asn1.c:516-558 | Counts what it writes: the magnitude without leading zeros, behind a zero if its top bit is set. |
| Der.IntegerRoundTrip | gmssl/GmSSL-3.1.1/src/asn1.c:516-620 | Reading gives the same number without leading zeros, consuming exactly what was written. |
| Der.IntegerCanonical | gmssl/GmSSL-3.1.1/src/asn1.c:560-620 | The checks accept exactly the contents that are written for some magnitude. |
| Der.IntToDer | gmssl/GmSSL-3.1.1/src/asn1.c:622-645 | 0 exactly for -1, which stands for nothing; counts what it writes. |
| Der.ReadInt | gmssl/GmSSL-3.1.1/src/asn1.c:647-678 | The loop with its 32-bit wrap-around accepts exactly magnitudes of up to four bytes and up to INT_MAX. |
| Der.IntRoundTrip | gmssl/GmSSL-3.1.1/src/asn1.c:622-678 | An int is read back exactly if it is not negative; for other negative numbers than -1 a zero is written. |
| DerLists.IntsToDer | gmssl/GmSSL-3.1.1/src/asn1.c:1778-1805 | The first loop counts with out NULL exactly what the second writes behind the header. |
| DerLists.ReadAll | gmssl/GmSSL-3.1.1/src/asn1.c:1823-1836 | The loop accepts exactly lists of at most one more than the maximum. |
| DerLists.IntsRoundTrip | gmssl/GmSSL-3.1.1/src/asn1.c:1778-1837 | A list is read back, with zeros for negative numbers, if and only if max_nums is positive and the list has at most max_nums + 1 entries. |
| DerOid.NodeToBase128 | gmssl/GmSSL-3.1.1/src/asn1.c:942-961 | The digits to the base 128 through a buffer of five bytes, which is enough for 32 bits. |
| DerOid.NodeAt | gmssl/GmSSL-3.1.1/src/asn1.c:942-961 | Digit i of a node counts the power 128^(n - 1 - i); the top bit tells all digits but the last, and no digit in front is zero. |
| DerOid.ReadNode | gmssl/GmSSL-3.1.1/src/asn1.c:963-992 | At most five digits, and of five only those that fit into 32 bits. |
| DerOid.NodeRoundTrip | gmssl/GmSSL-3.1.1/src/asn1.c:942-992 | Every 32-bit node is read back, consuming exactly its bytes. |
| DerOid.ToOctets | gmssl/GmSSL-3.1.1/src/asn1.c:994-1015 | Error exactly outside 2 to 32 nodes; the first two nodes modulo 256 in one byte. |
| DerOid.OidToDer | gmssl/GmSSL-3.1.1/src/asn1.c:1051-1086 | Counts what it writes. |
| DerOid.OidRoundTrip | gmssl/GmSSL-3.1.1/src/asn1.c:942-1126 | An identifier is read back as it was if and only if its second node is below 40 and the first two fit into a byte. |
| DerOid.OctetsRoom | gmssl/GmSSL-3.1.1/src/asn1.c:1017-1049 | Reading accepts identifiers of up to 33 nodes, and none longer. |
| DerBits.BitStringToDer | gmssl/GmSSL-3.1.1/src/asn1.c:680-721 | Counts what it writes. |
| DerBits.BitStringRoundTrip | gmssl/GmSSL-3.1.1/src/asn1.c:680-769 | The bytes and the number of bits are read back. |
| DerBits.MaskToDer | gmssl/GmSSL-3.1.1/src/asn1.c:810-840 | 0 exactly for a negative mask; counts what it writes. |
| DerBits.MaskToBuffer | gmssl/GmSSL-3.1.1/src/asn1.c:810-840 | The loop puts bit i of the mask at position i from the top, in the bytes that are needed; one bit for a zero mask. |
| DerBits.BitsOf | gmssl/GmSSL-3.1.1/src/asn1.c:866-874 | The loop reads the bits in that order. |
| DerBits.ReadMask | gmssl/GmSSL-3.1.1/src/asn1.c:842-875 | For every input: the bits and the rest, -1 for an absent element, or an error, as the decoding function of the round trip says. |
| DerBits.MaskRoundTrip | gmssl/GmSSL-3.1.1/src/asn1.c:810-875 | Every mask that is not negative is read back. |
| Calendar.FromStr | gmssl/GmSSL-3.1.1/src/asn1.c:1489-1552 | For every string, of any length: 1 exactly for the digits and Z of a valid time from 1970 on (Calendar.ValidByRule); then the timestamp of that time (Calendar.StampByRule). |
| Calendar.ToStr | gmssl/GmSSL-3.1.1/src/asn1.c:1554-1622 | 1 exactly up to the end of year 9999, or 2050 for UTCTime; then the text (Calendar.TextIs) of a valid time with that timestamp. |
| Calendar.StampOnce | gmssl/GmSSL-3.1.1/src/asn1.c:1489-1622 | A timestamp belongs to at most one valid time. |
| Calendar.StampRoundTrip | gmssl/GmSSL-3.1.1/src/asn1.c:1489-1622 | The text of a timestamp reads as that timestamp. |
| Calendar.TextRoundTrip | gmssl/GmSSL-3.1.1/src/asn1.c:1489-1622 | Every accepted text is the text written for its timestamp. |
| Calendar.DaysByRule | gmssl/GmSSL-3.1.1/src/asn1.c:1483-1485 | The days counted year by year agree with the closed form of the Gregorian calendar. |
| Calendar.MonthsByRule | gmssl/GmSSL-3.1.1/src/asn1.c:1487-1552 | The days in front of month m are (367 m - 362) / 12, from March on less 1 in a leap year and less 2 in another. |
| Calendar.ValidByRule | gmssl/GmSSL-3.1.1/src/asn1.c:1489-1552 | A time is valid exactly if its day comes before the start of the next month by that rule, and hour, minute and second are in range. |
| Calendar.StampByRule | gmssl/GmSSL-3.1.1/src/asn1.c:1489-1552 | The timestamp of every valid time by both closed forms. |
| Calendar.TextIs | gmssl/GmSSL-3.1.1/src/asn1.c:1596-1621 | The characters of the text: four digits or two for the year, two for each other number, and Z. |
| Tls13Record.SeqNumIncr | gmssl/GmSSL-3.1.1/src/tls.c:1565-1574 | The seven low bytes become their successor modulo 2^56; the first byte never changes. |
| Tls13Record.NoncesRepeat | gmssl/GmSSL-3.1.1/src/tls13.c:79-82 | Under one key and iv, records m and n of a connection have the same nonce if and only if m = n modulo 2^56. |
| Tls13Record.GcmEncrypt | gmssl/GmSSL-3.1.1/src/tls13.c:63-108 | What the cipher is given: the nonce, 17 03 03 and the length as additional data, and content, type and zeros as plaintext (sections 5.2 to 5.4 of RFC 8446). |
| Tls13Record.NonceExactly | gmssl/GmSSL-3.1.1/src/tls13.c:79-82 | A byte string is the nonce if and only if it is as long as the iv and its exclusive or with the iv is 00 00 00 00 and the sequence number, byte by byte. |
| Tls13Record.NonceNeedsIv | gmssl/GmSSL-3.1.1/src/tls13.c:79-82 | Two ivs give the same nonce for a sequence number if and only if they are equal. |
| Tls13Record.GcmDecrypt | gmssl/GmSSL-3.1.1/src/tls13.c:110-156 | Fails exactly on a short or forged record, all zeros or an unnamed type; otherwise the last byte that is not zero and what is in front of it. |
| Tls13Record.UnsealExactly | gmssl/GmSSL-3.1.1/src/tls13.c:110-156 | A record opens to a type and content if and only if it has at least 16 bytes, the type is one of 20 to 23, and the cipher opens it, with the nonce and the header of the record, to content, type and some zeros. |
| Tls13Record.SplitInner | gmssl/GmSSL-3.1.1/src/tls13.c:142-155 | Any zero padding is taken off; a zero type is taken for padding too. |
| Tls13Record.SplitOnlyInner | gmssl/GmSSL-3.1.1/src/tls13.c:142-155 | Nothing but content, type and zeros is ever split, and it is split one way. |
| Tls13Record.UnsealSeal | gmssl/GmSSL-3.1.1/src/tls13.c:63-156 | Any content with any padding opens to the same type and content under the same key, iv and sequence number, if and only if the type has a name. |
| Tls13Record.DecryptEncrypt | gmssl/GmSSL-3.1.1/src/tls13.c:159-202 | Every well-formed record comes back with its header. |
| Tls13Record.ReceiveSent | gmssl/GmSSL-3.1.1/src/tls.c:1480-1524 | Records in a byte stream are taken off one by one as they were sent. |
| Tls13Messages.GetSetHandshake | gmssl/GmSSL-3.1.1/src/tls.c:593-685 | Type and body of every handshake message that fits are read back. |
| Tls13Messages.ProcessCertificateList | gmssl/GmSSL-3.1.1/src/tls13.c:1130-1176 | The loop accepts exactly lists of certificates without extensions. |
| Tls13Messages.CertificateRead | gmssl/GmSSL-3.1.1/src/tls13.c:1103-1235 | The certificates of a Certificate message are read back. |
| Tls13Messages.VerifyRead | gmssl/GmSSL-3.1.1/src/tls13.c:835-871 | Algorithm and signature of CertificateVerify are read back. |
| Tls13Messages.FinishedRead | gmssl/GmSSL-3.1.1/src/tls13.c:1251-1282 | The data of Finished are read back. |
| Octets.GetPut | gmssl/GmSSL-3.1.1/src/tls.c:170-213 | An array with a length of one, two or three bytes is read back and nothing behind it touched. |
| Octets.BigEndianAt | gmssl/GmSSL-3.1.1/src/tls.c:28-52 | Byte i of n bytes counts 256^(n - 1 - i). |
| Tls13Handshake.Delivered | gmssl/GmSSL-3.1.1/src/tls13.c:159-202 | A handshake record is opened under the key, iv and sequence number it was sealed with, whatever follows it in the stream. |
| Tls13Handshake.CertificateTaken | gmssl/GmSSL-3.1.1/src/tls13.c:1670-1701 | A certificate message is taken exactly when its chain is trusted, and leaves the session of the sender. |
| Tls13Handshake.VerifyTaken | gmssl/GmSSL-3.1.1/src/tls13.c:1703-1734 | The signature covers the same transcript on both sides; both sessions agree after it. |
| Tls13Handshake.FinishedTaken | gmssl/GmSSL-3.1.1/src/tls13.c:1737-1770 | The Finished is the one the receiver computes; both sessions agree after it. |
| Tls13Handshake.ExtensionsTaken | gmssl/GmSSL-3.1.1/src/tls13.c:1594-1668 | The client sees exactly whether its certificate is requested, and has the session of the server. |
| Tls13Lockstep.ServerFlightTaken | gmssl/GmSSL-3.1.1/src/tls13.c:1594-1770 | The client reads the whole flight exactly when it trusts the chain of the server, and then has its session. |
| Tls13Lockstep.ClientFlightTaken | gmssl/GmSSL-3.1.1/src/tls13.c:2205-2324 | The server reads the answer exactly when a certificate it asked for is there and trusted, and then has the session of the client. |
| Tls13Lockstep.FinishedNotCertificate | gmssl/GmSSL-3.1.1/src/tls13.c:2205-2228 | A client without certificate cannot answer a request: its Finished is refused where a Certificate is expected. |
| Tls13Lockstep.Lockstep | gmssl/GmSSL-3.1.1/src/tls13.c:1417-2371 | In every run with unmodified in-order delivery each side returns 1 exactly under a condition on the two configurations, and then both hold the same keys, ivs and transcript, with zeroed counters. |
| Tls13Lockstep.RunExists | gmssl/GmSSL-3.1.1/src/tls13.c:1417-2371 | Such a run exists for every pair of configurations. |
| Tls13Transcript.RunsAre | gmssl/GmSSL-3.1.1/src/tls13.c:1417-2371 | In every such run, whoever returns 1 holds the keys, secrets and transcript that Tls13Transcript.Established spells: ClientHello, ServerHello, EncryptedExtensions, CertificateRequest if asked for, Certificate, CertificateVerify, Finished and the answer of the client in this order, each signature and Finished over what is in front of it, application keys from the messages up to the Finished of the server; the bytes on the wire are these messages, sealed in order under the keys of their sender. |
| Tls13Transcript.ServerFlightIs | gmssl/GmSSL-3.1.1/src/tls13.c:2072-2203 | Transcript, counters and bytes after the flight of the server, message by message. |
| Tls13Transcript.AnswerIs | gmssl/GmSSL-3.1.1/src/tls13.c:1781-1863 | The same after the certificate, signature and Finished of the client. |
| Tls13Transcript.BareAnswerIs | gmssl/GmSSL-3.1.1/src/tls13.c:1838-1863 | The same after a Finished alone. |
| Tls13Transcript.ToSignIs | gmssl/GmSSL-3.1.1/src/tls13.c:431-476 | What is signed: 64 spaces, the text for the side with a zero, and the hash of the transcript (section 4.4.3 of RFC 8446). |
| Tls13Transcript.ExpandIs | gmssl/GmSSL-3.1.1/src/tls13.c:396-415 | HKDF-Expand-Label: the bytes of the length, tls13 and the label, and the context that HKDF is given (section 7.1 of RFC 8446). |
| Tls13Transcript.SecretsAre | gmssl/GmSSL-3.1.1/src/tls13.c:1567-1574 | Handshake and master secret as nested HKDF calls on literal labels. |
| Tls13Transcript.CertificateContent | gmssl/GmSSL-3.1.1/src/tls13.c:1103-1128 | The bytes of Certificate. |
| Tls13Transcript.VerifyContent | gmssl/GmSSL-3.1.1/src/tls13.c:835-860 | The bytes of CertificateVerify. |
| Tls13Connection.Connection.GenerateHandshakeKeys | gmssl/GmSSL-3.1.1/src/tls13.c:1567-1585 | The key schedule of section 7.1 of RFC 8446 up to the handshake keys, counters zeroed. |
| Tls13Connection.Connection.ReceiveProtected | gmssl/GmSSL-3.1.1/src/tls13.c:1596-1606 | The next record, decrypted under the keys of the sending side. |
| Tls13Connection.Connection.DoConnect | gmssl/GmSSL-3.1.1/src/tls13.c:1417-1905 | Return value, bytes sent and final session as the function of the bytes read that the results above are about (Tls13Lockstep.Lockstep, Tls13Transcript.RunsAre). |
| Tls13Connection.Connection.DoAccept | gmssl/GmSSL-3.1.1/src/tls13.c:1907-2371 | The same for the server. |
| Tls13Connection.Connection.SendData | gmssl/GmSSL-3.1.1/src/tls13.c:204-247 | One record of application data under the keys of this side. |
| Tls13Connection.Connection.DoReceive | gmssl/GmSSL-3.1.1/src/tls13.c:299-346 | The next record into the buffer; fails on any other type than application data. |
| Tls13Connection.Connection.ReceiveData | gmssl/GmSSL-3.1.1/src/tls13.c:348-371 | Reads a record only when the buffer is empty, and hands out at most as many bytes as asked for. |
| Tls13Data.RunConserves | gmssl/GmSSL-3.1.1/src/tls13.c:204-371 | In every run of writes and reads of any sizes: bytes handed out, buffered and on the way are together, in order, the bytes written. |
| Tls13Data.ReadGoesOn | gmssl/GmSSL-3.1.1/src/tls13.c:299-371 | A read stands still exactly when nothing is buffered or on the way. |
| TlsCipher.Sm4GcmLaws | gmssl/GmSSL-3.1.1/src/tls13.c:63-154 | SM4-GCM as modelled here satisfies what the record layer asks of its cipher. |
| TlsCipher.SealIs | gmssl/GmSSL-3.1.1/src/tls13.c:63-108 | A sealed plaintext is its SM4-GCM ciphertext with the tag of 16 bytes behind it. |

## Left out

- Sockets, files, HTTP, PEM files, printing, tracing, system randomness: input and output. A socket is a byte stream, and an unmodified stream is what the other side wrote.
- NULL pointers and the checks for them, other than the counting convention of the DER functions; calls with a zero length where the source refuses them are modelled.
- Tls13Connection.Connection.DoConnect: no alerts are sent, and the fields of the hellos are not parsed; see the next two lines.
- Tls13Connection.Connection.DoAccept: likewise.
- RingSignature.DoVerify: ring members that are not points of the curve: nothing is said about sums with them but that they are numbers.
- Elgamal.DoDecrypt: ciphertexts with a part at infinity, which the 64-byte form cannot carry.
- Elgamal.CiphertextsAdd: sums and partial sums at infinity, as for k + k' or k + k' + l a multiple of n, which the 64-byte form would turn into (0, 0).
- Alerts: a side that fails sends nothing in the model, and a received alert is a record that does not decrypt; skipping of warning alerts is not modelled.
- The extensions and other fields of ClientHello and ServerHello: a hello is any pair of functions that write and read a random value and a point.
- Tls13Messages.GetVerify: the program ignores a CertificateVerify that is too short and reads what was in memory; the model fails.
- Output buffers of modes and codecs are sequences that a call returns, so that writing over the input is not captured there; the limb, point and tower methods are modelled in place, with aliasing.
- Lengths are unbounded except where the source bounds them or the result depends on their width: the 64-bit bit lengths of GHASH, int output lengths of base64, INT_MAX in DER, 16-bit record lengths.
- Dead checks that return -1 on a corrupted context (block_nbytes, maclen, num beyond the buffer).
- Gcm.Decrypt: tags of more than 16 bytes, for which the source reads behind its 16-byte arrays.
- Gcm.GcmIsScheme: streaming GCM decryption only with a 16-byte tag; the code does not support shorter ones there.
- KeyShare.KeyRecover: shares with equal indices are not modelled; their product of differences is 0 and nothing is recovered.
- KeyShare constants: the limit of 12 shares, like the bucket size of 6 and the node limit of 32, are those of the headers.
- Elgamal.PreCompute: the assertion in the source lets a seventh entry into a bucket of six; the model requires that no bucket gets more than six.
- Elgamal.SolveEcdlp: m = 0 is the point at infinity, which the 64-byte form of a point cannot carry.
- Calendar.ToStr: negative timestamps, for which the truncating division of the source gives no date.
- Base64Streams.Decoder: a text cut right behind its padding may go on in a later call without an error, as the source says; results are about texts with padding at the end only.
- base64_decode_finish itself: after a complete text nothing is left for it (`Base64Streams.AnyPieces`).
- SM9 pairing, final exponentiation and Frobenius maps: bilinearity is number theory beyond the field arithmetic; SM9 point formulas repeat those of SM2.
- SIMD and OpenCL variants, DES, wrappers that look up a table of functions, X.509 and CMS composition: intrinsics, or easy members only.
- Secrecy, unforgeability, collision resistance: assumptions about the primitives.
