# zkper core, modelled in Dafny

This project models the arithmetic and proof-system core of zkper, a Rust
library for zero-knowledge proofs, and proves properties of that model.
It covers four areas.

- **Field arithmetic.**
  - The Montgomery backend: limbs, Montgomery multiplication and reduction, conversions to and from the Montgomery form, sampling.
  - The BLS12-381 base and scalar field instances built on it.
  - The extension tower Fp2 → Fp6 → Fp12, with multiplication, squaring, inversion, conjugation and the Frobenius map.
  - The target group built on Fp12, and G1 points in projective and affine form.
  - The parts of the optimal-ate pairing that live in the field tower: the Miller loop driver, the line evaluation, the cyclotomic square and exponentiation, and the final exponentiation.
- **Groth16.**
  - Linear combinations and their evaluation.
  - The constraint system.
  - The prover's witness handling, constraint evaluation and the identity guard of `create_proof`.
  - The multi-exponentiation.
  - The parameter generator.
  - The verifier equation.
  - The MiMC test circuit.
- **Integer back-ends.**
  - The default methods of the integer trait.
  - The `u32` back-end, with its 32-bit wrap-around written out.
  - The modular-integer trait.
  - The `gen_bits` sampler of the random generator.
- **Factorization.**
  - `check_factors`, `check_factorization` and `get_factors`.
  - The primitive-root searches `find_generator` and `primitive_root`. They are modelled twice. `Factorization.FindGenerator`, `Factorization.RootFactors` and `Factorization.PrimitiveRoot` call `get_factors` as written, so they never return a root once trial division leaves a composite. The `…Fixed` members call the corrected `get_factors`.
  - Pollard's rho.
  - The ECM driver and its parameter table.
  - `split` of `CompositeSplitter`.
  - The optimised variant in `factorization_opt`.

The model's conventions:

- **Integers.** They are unbounded. Where the source uses fixed-width machine words, the wrap-around is written out as `% 2^32` or `% 2^64`.
- **Division.** Rug's and Rust's `/` and `%` truncate toward zero. They are modelled by `Ints.TruncDiv` and `Ints.TruncRem`.
- **Outcomes.** A computation that can panic or can run for ever returns a `Run` value: `Done`, `Panic(message)` or `Diverges`. Loops that need not end take a `fuel` bound, and `Diverges` means the bound ran out. Errors that the source returns as values (`anyhow::Result`) are modelled with `Result`.
- **Field elements.** They are pairs or triples of residues modulo the modulus of a `Backend`. Each tower operation is proved equal to the reduced result of a reference polynomial operation, and the algebraic laws are proved about those reference operations.
- **Parameters.** Curve group arithmetic, the multi-Miller loop, hashing and random streams are passed in as parameters.
- **Source citations.** Every path in the table below is relative to the root of the zkper repository.

## Model

| member | source | states |
|---|---|---|
| Montgomery.ComputeR | zkper-curves/src/backends/montgomery/mod.rs:201-207 | R lies in [0, m) and is congruent to 2^(64·limbs) modulo m |
| Montgomery.ComputeInv | zkper-curves/src/backends/montgomery/mod.rs:209-218 | the result lies in [0, 2^64) and, for an odd modulus, inv·m ≡ −1 (mod 2^64): it is −m⁻¹ mod 2^64 as documented |
| Montgomery.InvRoundsAsPower | zkper-curves/src/backends/montgomery/mod.rs:212-216 | after k rounds of square-then-multiply in wrapping u64 arithmetic, inv = m^(2^k − 1) mod 2^64 |
| Montgomery.OddPowerOfTwoPower | zkper-curves/src/backends/montgomery/mod.rs:212-216 | for odd x and k ≥ 1, x^(2^k) ≡ 1 (mod 2^(k+2)), which is why 63 rounds give the inverse modulo 2^64 |
| Montgomery.ComputeInvNegatesInverse | zkper-curves/src/backends/montgomery/mod.rs:210-218 | the 63-round value is m⁻¹ mod 2^64, so its wrapping negation times m is −1 mod 2^64 |
| Montgomery.XorTwo | zkper-curves/src/backends/montgomery/mod.rs:105 | `p ^ 2` is a bitwise exclusive or: it subtracts 2 when bit 1 is set and adds 2 otherwise |
| Montgomery.SqrtConstantsForThreeModFour | zkper-curves/src/backends/montgomery/mod.rs:104-111 | for m ≡ 3 (mod 4) the two fp2 constants come out as (m − 3)/4 and (m − 1)/2 |
| Montgomery.New | zkper-curves/src/backends/montgomery/mod.rs:87-134 | `new` panics exactly when R has no inverse modulo m; otherwise the backend keeps m and limbs, is Valid (r2 = R², r3 = R³, R·R⁻¹ ≡ 1, the sqrt exponents exactly when m ≡ 3 mod 4), three_b_mont is the Montgomery form of 12, and inv is −m⁻¹ mod 2^64 for odd m |
| Montgomery.NewFacts | zkper-curves/src/backends/montgomery/mod.rs:87-134 | the constants `new` computes satisfy Valid, and three_b_mont = 12·R mod m = to_montgomery(12) |
| Montgomery.NewSucceedsForOddModulus | zkper-curves/src/backends/montgomery/mod.rs:95 | for an odd modulus R is invertible, so the `expect` never fires |
| Montgomery.PowerOfTwoInvertible | zkper-curves/src/backends/montgomery/mod.rs:95 | (m+1)/2 inverts 2 modulo an odd m, so every power of 2 is invertible |
| Montgomery.NewElement | zkper-curves/src/backends/montgomery/mod.rs:261-271 | the result is the unique value in [0, m) congruent to the input, for inputs of either sign |
| Montgomery.Add | zkper-curves/src/backends/montgomery/mod.rs:337-340 | the sum is congruent to x + y, lies strictly between −m and m, and is the residue in [0, m) when x + y ≥ 0 |
| Montgomery.Sub | zkper-curves/src/backends/montgomery/mod.rs:342-345 | the result is the residue of x − y in [0, m) |
| Montgomery.Neg | zkper-curves/src/backends/montgomery/mod.rs:301-304 | the result is the residue of −x in [0, m) |
| Montgomery.Mul | zkper-curves/src/backends/montgomery/mod.rs:332-335 | the product is congruent to x·y, lies strictly between −m and m, and is the residue when both inputs are non-negative |
| Montgomery.Square | zkper-curves/src/backends/montgomery/mod.rs:274-276 | the square is the residue of x² in [0, m) |
| Montgomery.Cubic | zkper-curves/src/backends/montgomery/mod.rs:284-287 | the cube is congruent to x³, and is its residue for x ≥ 0 |
| Montgomery.PowMod | zkper-curves/src/backends/montgomery/mod.rs:296-298 | the result is the residue of x^e in [0, m) |
| Montgomery.Sqrt | zkper-curves/src/backends/montgomery/mod.rs:307-319 | panics exactly when m ≢ 3 (mod 4); a returned root s lies in [0, m) with s² ≡ x; None only when the candidate x^((m+1)/4) does not square back to x |
| Montgomery.SqrtOfZero | zkper-curves/src/backends/montgomery/mod.rs:307-319 | 0 is returned as its own square root whenever the method does not panic |
| Montgomery.Invert | zkper-curves/src/backends/montgomery/mod.rs:324-329 | Some exactly when gcd(x mod m, m) = 1, with the inverse in [0, m); None means no inverse exists |
| Montgomery.MontMul | zkper-curves/src/backends/montgomery/mod.rs:364-367 | the result lies strictly between −m and m, non-negative for non-negative inputs |
| Montgomery.MontMulMeaning | zkper-curves/src/backends/montgomery/mod.rs:364-367 | mont_mul(x, y) ≡ x·y·R⁻¹ (mod m), and equals its residue for non-negative inputs |
| Montgomery.ToMontgomeryMeaning | zkper-curves/src/backends/montgomery/mod.rs:136-138 | to_montgomery(x) ≡ x·R (mod m), because R²·R⁻¹ ≡ R |
| Montgomery.RSquaredTimesRInv | zkper-curves/src/backends/montgomery/mod.rs:89-95 | r2·R⁻¹ ≡ R (mod m) for the constants `new` computes |
| Montgomery.FromMontgomeryMeaning | zkper-curves/src/backends/montgomery/mod.rs:140-142 | from_montgomery(x) ≡ x·R⁻¹ (mod m) |
| Montgomery.FromToMontgomery | zkper-curves/src/backends/montgomery/mod.rs:136-142 | from_montgomery(to_montgomery(x)) = x mod m for x ≥ 0 |
| Montgomery.MontMulOfMontgomeryForms | zkper-curves/src/backends/montgomery/mod.rs:136-138 | mont_mul of the Montgomery forms of x and y is the Montgomery form of x·y (see also lines 364-367) |
| Montgomery.MontValue | zkper-curves/src/backends/montgomery/mod.rs:140-142 | the value a Montgomery form stands for lies in [0, m) and is congruent to x·R⁻¹ |
| Montgomery.MontgomeryFormOfValue | zkper-curves/src/backends/montgomery/mod.rs:136-142 | a reduced Montgomery form is R times the value it stands for |
| Montgomery.MontValueOfMontMul | zkper-curves/src/backends/montgomery/mod.rs:364-367 | mont_mul multiplies the values the forms stand for |
| Montgomery.MontPow | zkper-curves/src/backends/montgomery/mod.rs:369-381 | the loop keeps result·base^exp invariant and halves exp, so the result stands for value(base)^e, and is that power's Montgomery form in [0, m) for base ≥ 0 |
| Montgomery.MontPowStep | zkper-curves/src/backends/montgomery/mod.rs:373-379 | one iteration (conditional multiply, square, shift) preserves value(result)·value(base)^exp |
| Montgomery.MontSqrt | zkper-curves/src/backends/montgomery/mod.rs:384-402 | panics exactly when m ≢ 3 (mod 4); Some(s) only when mont_mul(s, s) equals the input, with s standing for value(x)^((m+1)/4) |
| Montgomery.DoubleStandard | zkper-curves/src/backends/montgomery/mod.rs:440-494 | the doubled point's coordinates lie in [0, m) (y always, x and z for non-negative inputs) |
| Montgomery.AddStandard | zkper-curves/src/backends/montgomery/mod.rs:692-766 | z1 = 0 returns the second point, z2 = 0 the first; equal V1, V2 with U1 ≠ U2 or y1 = 0 gives (0, 1, 0); equal V and U with y1 ≠ 0 doubles; otherwise the general formula's x and y are reduced |
| Montgomery.AddStandardSelfDoubles | zkper-curves/src/backends/montgomery/mod.rs:725-736 | adding a finite point with y ≠ 0 to itself takes the doubling branch |
| Montgomery.SampleRaw | zkper-curves/src/backends/montgomery/mod.rs:240-258 | the 16·limbs bytes split into halves d0, d1 give (d0 + d1·R) mod m, in [0, m) |
| Montgomery.CombineRaw | zkper-curves/src/backends/montgomery/mod.rs:255-257 | mont_mul(d0, R) + mont_mul(d1, R²), reduced, is d0 + d1·R mod m |
| Montgomery.CombineLittleEndianHalves | zkper-curves/src/backends/montgomery/mod.rs:247-257 | with R = 2^(8k) mod m, combining the two little-endian k-byte halves gives the whole string's value mod m |
| Montgomery.CombineRawRadix | zkper-curves/src/backends/montgomery/mod.rs:255-257 | with R ≡ radix, the combination is d0 + d1·radix mod m |
| Montgomery.SampleMont | zkper-curves/src/backends/montgomery/mod.rs:221-237 | the same split combined with R² and R³ gives (d0·R + d1·R²) mod m, in [0, m) |
| Montgomery.CombineMont | zkper-curves/src/backends/montgomery/mod.rs:234-236 | mont_mul(d0, R²) + mont_mul(d1, R³), reduced, is d0·R + d1·R² mod m |
| Montgomery.SampleMontIsMontgomeryFormOfSampleRaw | zkper-curves/src/backends/montgomery/mod.rs:221-258 | from the same bytes, sample_mont is the Montgomery form of sample_raw |
| Montgomery.CombineMontIsMontgomeryForm | zkper-curves/src/backends/montgomery/mod.rs:234-257 | the Montgomery combination is to_montgomery of the raw one |
| Montgomery.SampleCombination | zkper-curves/src/backends/montgomery/mod.rs:234-236 | mont_mul(d0, c0) + mont_mul(d1, c1) ≡ d0·k0 + d1·k1 when c0 ≡ k0·R and c1 ≡ k1·R (see also lines 255-257) |
| Montgomery.MontMulScaled | zkper-curves/src/backends/montgomery/mod.rs:364-367 | mont_mul(d, c) ≡ d·k when c ≡ k·R |
| Bls12.ModuliResidues | zkper-curves/src/curves/bls12_381/mod.rs:4-9 | both moduli are odd; the base modulus is 3 mod 4 and the scalar modulus 1 mod 4 |
| Bls12.ScalarBackend | zkper-curves/src/curves/bls12_381/mod.rs:4-6 | BLS12_381_SCALAR is a Valid backend for the 255-bit modulus with 4 limbs, inv = −r⁻¹ mod 2^64, and no square-root exponent |
| Bls12.BaseBackend | zkper-curves/src/curves/bls12_381/mod.rs:7-9 | BLS12_381_BASE is a Valid backend for the 381-bit modulus with 6 limbs, inv = −p⁻¹ mod 2^64, and sqrt exponents (p+1)/4, (p−3)/4, (p−1)/2 |
| Bls12.MontgomeryRadices | zkper-curves/src/curves/bls12_381/mod.rs:4-9 | R = 2^256 mod r for the scalar backend and 2^384 mod p for the base backend |
| Bls12.ScalarSqrtPanics | zkper-curves/src/curves/bls12_381/mod.rs:4-6 | `sqrt` on the scalar backend always panics, since r ≡ 1 (mod 4) |
| Bls12.SampleBase | zkper-curves/src/curves/bls12_381/fields/base.rs:20-23 | 96 bytes split into two big-endian 48-byte halves give a value in [0, p) equal to the base backend's sample_raw of the same bytes (see also lines 41-57) |
| Bls12.SampleScalar | zkper-curves/src/curves/bls12_381/fields/scalar.rs:19-22 | 64 bytes split into two little-endian 32-byte halves give a value in [0, r) equal to the scalar backend's sample_raw (see also lines 46-62) |
| Bls12.SampleScalarIsBytesModR | zkper-curves/src/curves/bls12_381/fields/scalar.rs:52-61 | the scalar sample is the whole 64-byte little-endian number reduced mod r |
| Bls12.ScalarToMont | zkper-curves/src/curves/bls12_381/fields/scalar.rs:38-40 | to_mont(x) ≡ x·R (mod r) on the scalar backend |
| Bls12.ScalarFromMont | zkper-curves/src/curves/bls12_381/fields/scalar.rs:41-43 | from_mont(x) ≡ x·R⁻¹ (mod r) on the scalar backend |
| Bls12.ScalarFromToMont | zkper-curves/src/curves/bls12_381/fields/scalar.rs:38-43 | from_mont(to_mont(x)) = x mod r for x ≥ 0 |
| Fp2Field.Add | zkper-curves/src/curves/bls12_381/fields/fp2.rs:92-97 | on reduced inputs, the componentwise sum reduced mod p |
| Fp2Field.Sub | zkper-curves/src/curves/bls12_381/fields/fp2.rs:99-104 | the componentwise difference reduced mod p, for any inputs |
| Fp2Field.Neg | zkper-curves/src/curves/bls12_381/fields/fp2.rs:106-111 | the componentwise negation reduced mod p |
| Fp2Field.Mul | zkper-curves/src/curves/bls12_381/fields/fp2.rs:113-128 | on reduced inputs, the product in Z[u]/(u² + 1) reduced: (a0b0 − a1b1, a0b1 + a1b0) |
| Fp2Field.Square | zkper-curves/src/curves/bls12_381/fields/fp2.rs:130-143 | complex squaring equals mul(a, a) on reduced inputs (see also lines 221-227) |
| Fp2Field.Conjugate | zkper-curves/src/curves/bls12_381/fields/fp2.rs:78-83 | on reduced inputs, keeps c0 and negates c1 mod p |
| Fp2Field.FrobeniusMap | zkper-curves/src/curves/bls12_381/fields/fp2.rs:85-89 | on reduced inputs, keeps c0 and negates c1, and applying conjugation to the result gives back the input |
| Fp2Field.Double | zkper-curves/src/curves/bls12_381/fields/fp6.rs:193-199 | the Fp2 `double` used by Fp6 squaring is the reduced sum x + x |
| Fp2Field.MulByNonresidue | zkper-curves/src/curves/bls12_381/fields/fp6.rs:148-152 | the Fp2 `mul_by_nonresidue` is multiplication by ξ = u + 1, i.e. mul(x, (1, 1)) |
| Fp2Field.Invert | zkper-curves/src/curves/bls12_381/fields/fp6.rs:223-227 | the Fp2 `invert` succeeds exactly when the norm c0² + c1² is invertible mod p, and then x·x⁻¹ = one |
| Fp2Field.InvertNoneMeansNoInverse | zkper-curves/src/curves/bls12_381/fields/fp6.rs:223-227 | when `invert` gives None, no reduced y has x·y = one |
| Fp2Field.FromMont | zkper-curves/src/curves/bls12_381/fields/fp2.rs:39-44 | each component is multiplied by R⁻¹ mod p |
| Fp2Field.ToMont | zkper-curves/src/curves/bls12_381/fields/fp2.rs:46-51 | each component is multiplied by R mod p |
| Fp2Field.FromToMont | zkper-curves/src/curves/bls12_381/fields/fp2.rs:39-51 | from_monterey(to_mont(a)) == a for reduced a |
| Fp2Field.AddCommutes | zkper-curves/src/curves/bls12_381/fields/fp2.rs:92-97 | add is commutative on reduced inputs |
| Fp2Field.AddSubCancel | zkper-curves/src/curves/bls12_381/fields/fp2.rs:92-104 | a.add(b).sub(b) == a for reduced a, b (see also lines 240-266) |
| Fp2Field.AddNegIsZero | zkper-curves/src/curves/bls12_381/fields/fp2.rs:53-58 | a.add(a.neg()) == zero for reduced a (see also lines 92-111) |
| Fp2Field.MulOne | zkper-curves/src/curves/bls12_381/fields/fp2.rs:60-65 | mul(a, one()) == a for reduced a, with one() = (1, 0) (see also lines 113-128) |
| Fp2Field.MulZero | zkper-curves/src/curves/bls12_381/fields/fp2.rs:53-58 | mul(zero(), y) == zero (see also lines 113-128) |
| Fp2Field.MulCommutes | zkper-curves/src/curves/bls12_381/fields/fp2.rs:113-128 | mul is commutative on reduced inputs |
| Fp2Field.MulAssociates | zkper-curves/src/curves/bls12_381/fields/fp2.rs:113-128 | mul is associative on reduced inputs |
| Fp2Field.MulDistributes | zkper-curves/src/curves/bls12_381/fields/fp2.rs:92-97 | x·(y + z) == x·y + x·z on reduced inputs (see also lines 113-128) |
| Fp2Field.MulDistributesRight | zkper-curves/src/curves/bls12_381/fields/fp2.rs:92-97 | (x + y)·z == x·z + y·z on reduced inputs (see also lines 113-128) |
| Fp2Field.ConjugateInvolution | zkper-curves/src/curves/bls12_381/fields/fp2.rs:78-89 | conjugating twice returns a reduced input unchanged |
| Fp2Field.ConjugateOfProduct | zkper-curves/src/curves/bls12_381/fields/fp2.rs:78-83 | conjugation is multiplicative (see also lines 113-128) |
| Fp2Field.ConjugateOfSum | zkper-curves/src/curves/bls12_381/fields/fp2.rs:78-83 | conjugation is additive (see also lines 92-97) |
| Fp2Field.ConjugateOfZero | zkper-curves/src/curves/bls12_381/fields/fp2.rs:53-65 | conjugation fixes zero and one (see also lines 78-83) |
| Fp2Field.ConjugateNorm | zkper-curves/src/curves/bls12_381/fields/fp2.rs:78-83 | x·conjugate(x) is (c0² + c1² mod p, 0) (see also lines 113-128) |
| Fp6Field.FromFp2 | zkper-curves/src/curves/bls12_381/fields/fp6.rs:43-52 | embedding an Fp2 element puts it in c0 with the other two coefficients zero |
| Fp6Field.Neg | zkper-curves/src/curves/bls12_381/fields/fp6.rs:96-103 | the coefficientwise negation reduced mod p |
| Fp6Field.Sub | zkper-curves/src/curves/bls12_381/fields/fp6.rs:105-112 | the coefficientwise difference reduced mod p |
| Fp6Field.Add | zkper-curves/src/curves/bls12_381/fields/fp6.rs:114-121 | on reduced inputs, the coefficientwise sum reduced mod p |
| Fp6Field.Mul | zkper-curves/src/curves/bls12_381/fields/fp6.rs:162-191 | on reduced inputs the Karatsuba product equals the schoolbook product in Fp2[v]/(v³ − ξ), reduced |
| Fp6Field.MulByC0C1 | zkper-curves/src/curves/bls12_381/fields/fp6.rs:123-137 | the sparse product equals the full product by c0 + c1·v |
| Fp6Field.MulByC1 | zkper-curves/src/curves/bls12_381/fields/fp6.rs:139-146 | the sparse product equals the full product by c1·v |
| Fp6Field.MulByNonresidue | zkper-curves/src/curves/bls12_381/fields/fp6.rs:148-160 | rotating the coefficients and multiplying the top one by ξ is multiplication by v |
| Fp6Field.Square | zkper-curves/src/curves/bls12_381/fields/fp6.rs:193-208 | the squaring formula equals mul(a, a) on reduced inputs (see also lines 436-438) |
| Fp6Field.Invert | zkper-curves/src/curves/bls12_381/fields/fp6.rs:210-236 | zero has no inverse; otherwise an inverse exists exactly when the Fp2 norm is invertible, and a returned value times a is one (see also line 450) |
| Fp6Field.InvertFromNorm | zkper-curves/src/curves/bls12_381/fields/fp6.rs:214-236 | the adjugate scaled by the inverted norm is an inverse, and the result is None exactly when the norm has no inverse |
| Fp6Field.FrobeniusCoefficients | zkper-curves/src/curves/bls12_381/fields/fp6.rs:6-17 | the two Frobenius constants are reduced and the second is the square of the first |
| Fp6Field.FrobeniusMap | zkper-curves/src/curves/bls12_381/fields/fp6.rs:238-250 | c0 is conjugated, and reduced inputs give reduced outputs; the v and v² coefficients are stated by `FrobeniusOfV` and `FrobeniusOfVSquared` |
| Fp6Field.FrobeniusOfV | zkper-curves/src/curves/bls12_381/fields/fp6.rs:238-250 | on s·v the map gives conj(s)·FROBENIUS_COEFF_FP6_C1 in the v coefficient and zero elsewhere |
| Fp6Field.FrobeniusOfVSquared | zkper-curves/src/curves/bls12_381/fields/fp6.rs:238-250 | on s·v² the map gives conj(s)·FROBENIUS_COEFF_FP6_C2 in the v² coefficient and zero elsewhere |
| Fp6Field.Decompose | zkper-curves/src/curves/bls12_381/fields/fp6.rs:27-31 | every reduced element is the sum of its c0, c1·v and c2·v² parts, so with additivity the basis lemmas fix the map on all of Fp6 |
| Fp6Field.FrobeniusOfSum | zkper-curves/src/curves/bls12_381/fields/fp6.rs:238-250 | the Frobenius map is additive |
| Fp6Field.FrobeniusOfOne | zkper-curves/src/curves/bls12_381/fields/fp6.rs:238-250 | the Frobenius map fixes one |
| Fp6Field.FrobeniusOfConstant | zkper-curves/src/curves/bls12_381/fields/fp6.rs:238-250 | on an embedded Fp2 element the Frobenius map is the Fp2 conjugation |
| Fp6Field.MulCommutes | zkper-curves/src/curves/bls12_381/fields/fp6.rs:162-191 | multiplication is commutative |
| Fp6Field.MulAssociates | zkper-curves/src/curves/bls12_381/fields/fp6.rs:162-191 | multiplication is associative |
| Fp6Field.MulDistributes | zkper-curves/src/curves/bls12_381/fields/fp6.rs:162-191 | multiplication distributes over addition on the left (see also lines 440-443) |
| Fp6Field.MulDistributesRight | zkper-curves/src/curves/bls12_381/fields/fp6.rs:162-191 | multiplication distributes over addition on the right (see also lines 440-443) |
| Fp6Field.MulOne | zkper-curves/src/curves/bls12_381/fields/fp6.rs:74-80 | one is the multiplicative identity (see also lines 162-191) |
| Fp6Field.MulZeroLeft | zkper-curves/src/curves/bls12_381/fields/fp6.rs:60-67 | zero times anything is zero (see also lines 162-191) |
| Fp6Field.InverseUnique | zkper-curves/src/curves/bls12_381/fields/fp6.rs:210-236 | an element has at most one inverse |
| Fp6Field.InvertOfProduct | zkper-curves/src/curves/bls12_381/fields/fp6.rs:445-448 | the inverse of a product is the product of the inverses |
| Fp6Field.ZeroHasNoInverse | zkper-curves/src/curves/bls12_381/fields/fp6.rs:69-72 | nothing times zero is one (see also lines 210-236) |
| Fp6Field.InvertNoneMeansSingularNorm | zkper-curves/src/curves/bls12_381/fields/fp6.rs:226-236 | when invert returns None the norm has no inverse in Fp2 |
| Fp6Field.TimesVIsMul | zkper-curves/src/curves/bls12_381/fields/fp6.rs:148-160 | the reference multiplication by v is the product with (0, 1, 0) |
| Fp12Field.New | zkper-curves/src/curves/bls12_381/fields/fp12.rs:29-32 | the two Fp6 halves are stored as given |
| Fp12Field.Add | zkper-curves/src/curves/bls12_381/fields/fp12.rs:103-109 | on reduced inputs, the halfwise sum reduced mod p |
| Fp12Field.Sub | zkper-curves/src/curves/bls12_381/fields/fp12.rs:111-117 | the halfwise difference reduced mod p |
| Fp12Field.Neg | zkper-curves/src/curves/bls12_381/fields/fp12.rs:119-125 | the halfwise negation reduced mod p |
| Fp12Field.Conjugate | zkper-curves/src/curves/bls12_381/fields/fp12.rs:67-73 | negates the w-half and keeps the other |
| Fp12Field.ConjugateInvolution | zkper-curves/src/curves/bls12_381/fields/fp12.rs:67-73 | conjugating twice gives back a reduced element |
| Fp12Field.Mul | zkper-curves/src/curves/bls12_381/fields/fp12.rs:75-88 | on reduced inputs the Karatsuba product equals the schoolbook product in Fp6[w]/(w² − v), reduced |
| Fp12Field.MulByC0C1C4 | zkper-curves/src/curves/bls12_381/fields/fp12.rs:90-101 | the sparse product equals the full product by (c0 + c1·v) + (c4·v)·w |
| Fp12Field.Square | zkper-curves/src/curves/bls12_381/fields/fp12.rs:140-152 | the complex-squaring formula equals mul(a, a) on reduced inputs (see also lines 557-559) |
| Fp12Field.Invert | zkper-curves/src/curves/bls12_381/fields/fp12.rs:127-138 | zero has no inverse; otherwise an inverse exists exactly when the Fp6 norm c0² − v·c1² is invertible, and a returned value times the input is one |
| Fp12Field.InvertFromNorm | zkper-curves/src/curves/bls12_381/fields/fp12.rs:127-138 | the conjugate scaled by the inverted norm is an inverse; None exactly when the norm has none |
| Fp12Field.FrobeniusCoefficient | zkper-curves/src/curves/bls12_381/fields/fp12.rs:5-12 | the Fp12 Frobenius constant is reduced and its square is the Fp6 constant for c1 |
| Fp12Field.FrobeniusMap | zkper-curves/src/curves/bls12_381/fields/fp12.rs:154-163 | the c0 half is mapped by the Fp6 Frobenius map, and reduced inputs give reduced outputs; the w half is stated by `FrobeniusOfW` |
| Fp12Field.FrobeniusOfLow | zkper-curves/src/curves/bls12_381/fields/fp12.rs:154-163 | on an element with zero w half the map is the Fp6 map on c0, and the w half stays zero |
| Fp12Field.FrobeniusOfW | zkper-curves/src/curves/bls12_381/fields/fp12.rs:154-163 | on s·w the map gives frob(s)·FROBENIUS_COEFF_FP12_C1 in the w half and zero in c0 |
| Fp12Field.Decompose | zkper-curves/src/curves/bls12_381/fields/fp12.rs:16-19 | every reduced element is the sum of its c0 and c1·w parts, so with additivity the two basis lemmas fix the map on all of Fp12 |
| Fp12Field.FrobeniusOfSum | zkper-curves/src/curves/bls12_381/fields/fp12.rs:154-163 | the Frobenius map is additive |
| Fp12Field.FrobeniusOfOne | zkper-curves/src/curves/bls12_381/fields/fp12.rs:154-163 | the Frobenius map fixes one |
| Fp12Field.MulCommutes | zkper-curves/src/curves/bls12_381/fields/fp12.rs:75-88 | multiplication is commutative |
| Fp12Field.MulAssociates | zkper-curves/src/curves/bls12_381/fields/fp12.rs:75-88 | multiplication is associative |
| Fp12Field.MulDistributes | zkper-curves/src/curves/bls12_381/fields/fp12.rs:75-88 | multiplication distributes over addition (see also lines 103-109) |
| Fp12Field.SumTimesSquare | zkper-curves/src/curves/bls12_381/fields/fp12.rs:561-564 | (a + b)·c² equals c·c·a + c·c·b |
| Fp12Field.MulOne | zkper-curves/src/curves/bls12_381/fields/fp12.rs:47-52 | one is the multiplicative identity (see also lines 75-88) |
| Fp12Field.InverseUnique | zkper-curves/src/curves/bls12_381/fields/fp12.rs:127-138 | an element has at most one inverse |
| Fp12Field.ProductOfInverses | zkper-curves/src/curves/bls12_381/fields/fp12.rs:75-88 | the product of inverses is an inverse of the product |
| Fp12Field.InvertOfProduct | zkper-curves/src/curves/bls12_381/fields/fp12.rs:566-569 | the inverse of a product is the product of the inverses |
| TargetGroup.Identity | zkper-curves/src/curves/bls12_381/fields/target.rs:22-28 | the identity is the Fp12 one, which is identity and not zero |
| TargetGroup.Zero | zkper-curves/src/curves/bls12_381/fields/target.rs:30-39 | the Fp12 zero is zero and not the identity |
| TargetGroup.FrobeniusMap | zkper-curves/src/curves/bls12_381/fields/target.rs:40-44 | the Fp12 Frobenius map of the wrapped element, so c0 is the Fp6 map of c0 and the w half is as `Fp12Field.FrobeniusOfW` states |
| TargetGroup.Add | zkper-curves/src/curves/bls12_381/fields/target.rs:60-64 | the group operation is the reduced Fp12 product |
| TargetGroup.Square | zkper-curves/src/curves/bls12_381/fields/target.rs:45-49 | squaring is adding an element to itself |
| TargetGroup.Double | zkper-curves/src/curves/bls12_381/fields/target.rs:50-54 | doubling is adding an element to itself, and keeps elements reduced |
| TargetGroup.Neg | zkper-curves/src/curves/bls12_381/fields/target.rs:55-59 | negation is Fp12 conjugation |
| TargetGroup.NegInvolution | zkper-curves/src/curves/bls12_381/fields/target.rs:55-59 | negating twice gives back the element |
| TargetGroup.Sub | zkper-curves/src/curves/bls12_381/fields/target.rs:65-69 | subtraction is the product with the conjugate |
| TargetGroup.AddCommutes | zkper-curves/src/curves/bls12_381/fields/target.rs:60-64 | the group operation is commutative |
| TargetGroup.AddAssociates | zkper-curves/src/curves/bls12_381/fields/target.rs:60-64 | the group operation is associative |
| TargetGroup.AddIdentity | zkper-curves/src/curves/bls12_381/fields/target.rs:22-24 | the identity is neutral on both sides (see also lines 60-64) |
| TargetGroup.TargetIsMonoid | zkper-curves/src/curves/bls12_381/fields/target.rs:22-24 | add, double and identity form a monoid on reduced elements (commutativity is `TargetGroup.AddCommutes`) (see also lines 50-64) |
| TargetGroup.PowerAdd | zkper-curves/src/curves/bls12_381/fields/target.rs:60-64 | x^(m+n) is x^m · x^n |
| TargetGroup.MulScalar | zkper-curves/src/curves/bls12_381/fields/target.rs:71-90 | a zero scalar gives the identity |
| TargetGroup.MulScalarIsPower | zkper-curves/src/curves/bls12_381/fields/target.rs:71-90 | for a non-negative scalar the double-and-add loop computes the k-th power |
| TargetGroup.MulScalarNegativeDiverges | zkper-curves/src/curves/bls12_381/fields/target.rs:71-90 | a negative scalar never shifts down to zero, so the loop does not end |
| Monoid.ScalarLoopInvariant | zkper-curves/src/curves/bls12_381/fields/target.rs:79-87 | the LSB-first double-and-add loop multiplies the running result by temp raised to the remaining bits |
| Monoid.ScalarLoopDiverges | zkper-curves/src/curves/bls12_381/fields/target.rs:79-87 | with a negative scalar the arithmetic shift never reaches zero and the loop runs out of any fuel |
| Monoid.PowerAdd | zkper-curves/src/curves/bls12_381/fields/target.rs:60-64 | repeated application of an associative operation: x^(m+n) = x^m · x^n |
| Monoid.PowerOfDouble | zkper-curves/src/curves/bls12_381/fields/target.rs:50-54 | raising the doubled element to q is raising the element to 2q (see also lines 79-87) |
| Monoid.MsbLoopIsPower | zkper-curves/src/curves/bls12_381/paring.rs:146-162 | the MSB-first square-and-multiply scan over n bits computes base^c for any c below 2^n |
| Monoid.MsbLoopLeadingZeros | zkper-curves/src/curves/bls12_381/paring.rs:150-159 | leading zero bits of the exponent change nothing: no squaring happens before the first set bit |
| G1.Identity | zkper-curves/src/curves/bls12_381/curves/g1.rs:57-70 | the identity (0, 1, 0) has z = 0, which is what is_identity tests |
| G1.Neg | zkper-curves/src/curves/bls12_381/curves/g1.rs:72-78 | x and z are kept and y becomes the reduced additive inverse of y |
| G1.NegInvolution | zkper-curves/src/curves/bls12_381/curves/g1.rs:72-78 | negating a point with reduced y twice gives it back |
| G1.FromAffine | zkper-curves/src/curves/bls12_381/curves/g1.rs:14-26 | x and y are copied and z is 0 exactly for the point at infinity, 1 otherwise |
| G1.Random | zkper-curves/src/curves/bls12_381/curves/g1.rs:80-122 | for the BLS12-381 modulus (3 mod 4) every draw returns the identity, because the found point is discarded; other moduli reach the unimplemented square root |
| G1.RandomIsIdentity | zkper-curves/src/curves/bls12_381/curves/g1.rs:80-122 | random on BLS12-381 always returns the identity |
| G1.AffineIdentity | zkper-curves/src/curves/bls12_381/curves/g1_affine.rs:68-76 | the affine identity has the infinity flag set |
| G1.FromProjective | zkper-curves/src/curves/bls12_381/curves/g1_affine.rs:12-28 | the point is at infinity exactly when z has no inverse mod p; otherwise x and y are the divisions by z, reduced |
| G1.ToCurve | zkper-curves/src/curves/bls12_381/curves/g1_affine.rs:55-58 | to_curve is the From conversion |
| G1.AffineRoundTrip | zkper-curves/src/curves/bls12_381/curves/g1_affine.rs:12-28 | affine to projective and back returns the reduced affine point (or the canonical identity) (see also lines 55-58) |
| G1.ProjectiveRoundTrip | zkper-curves/src/curves/bls12_381/curves/g1_affine.rs:12-28 | projective to affine and back gives z = 1 and the same point up to the factor z (see also lines 55-58) |
| Pairing.Fp4Square | zkper-curves/src/curves/bls12_381/paring.rs:81-90 | on reduced inputs, the square of a + b·w in Fp2[w]/(w² − ξ): (a² + ξ·b², 2ab), the cross term computed as (a + b)² − a² − b² |
| Pairing.CombineMinus | zkper-curves/src/curves/bls12_381/paring.rs:106-107 | z ← 2(t − z) + t, i.e. 3t − 2z reduced |
| Pairing.CombinePlus | zkper-curves/src/curves/bls12_381/paring.rs:109-110 | z ← 2(t + z) + t, i.e. 3t + 2z reduced |
| Pairing.CyclotomicSquare | zkper-curves/src/curves/bls12_381/paring.rs:95-142 | each of the six Fp2 coefficients is 3t ∓ 2z for the Fp4 square of its pair, with the ξ-multiplied term in the c1.c0 slot |
| Pairing.LineEvaluation | zkper-curves/src/curves/bls12_381/paring.rs:192-224 | the line value is sparse (c0.c2, c1.c1 and c1.c2 are zero), its c1.c0 is the vertical 2·y·z, and the new z is vertical · old z |
| Pairing.CyclotomicExpLeadingZeros | zkper-curves/src/curves/bls12_381/paring.rs:146-162 | scanning all 64 bits equals scanning only the bits below the highest set one |
| Pairing.CyclotomicExpIsPower | zkper-curves/src/curves/bls12_381/paring.rs:146-162 | when cyclotomic squaring is the squaring of a monoid, the scan computes the conjugate of base^c |
| Pairing.MillerStep | zkper-curves/src/curves/bls12_381/paring.rs:171-179 | one bit of the loop evaluates one line, and a second one when the bit of the loop constant is set |
| Pairing.MillerLineCount | zkper-curves/src/curves/bls12_381/paring.rs:171-179 | the steps from bit k down evaluate k lines plus one per set bit |
| Pairing.MillerRunLines | zkper-curves/src/curves/bls12_381/paring.rs:167-186 | the whole loop over bits 63..1 evaluates 63 lines plus one per set bit below 2^63 |
| Pairing.MillerLoop | zkper-curves/src/curves/bls12_381/paring.rs:181-185 | the accumulator is conjugated exactly when the loop constant is negative |
| Pairing.MillerLoopSign | zkper-curves/src/curves/bls12_381/paring.rs:181-185 | the sign flag changes nothing but the final conjugation |
| Pairing.FinalExponentiation | zkper-curves/src/curves/bls12_381/paring.rs:39-78 | when the Miller value has no inverse the result is the identity; otherwise it is the hard part applied to the easy part f^((p^6 − 1)(p^2 + 1)) |
| Pairing.FinalExponentiationOfZero | zkper-curves/src/curves/bls12_381/paring.rs:73-76 | a zero Miller value takes the fallback and gives one |
| Pairing.Pairing | zkper-curves/src/curves/bls12_381/paring.rs:16-29 | with an identity on either side the generators are paired instead; otherwise the given points |
| Pairing.PairingWithIdentity | zkper-curves/src/curves/bls12_381/paring.rs:16-21 | all pairings involving an identity point give the same value |
| LinearCombinations.Zero | zkper-snarks/zkper-groth16/src/constraints/linear_combination.rs:13-15 | the zero combination has no terms |
| LinearCombinations.Add | zkper-snarks/zkper-groth16/src/constraints/linear_combination.rs:17-20 | appends the term and keeps every earlier term in place |
| LinearCombinations.Sub | zkper-snarks/zkper-groth16/src/constraints/linear_combination.rs:22-26 | appends the variable with the reduced negation of the coefficient, which cancels it mod r |
| LinearCombinations.AddOne | zkper-snarks/zkper-groth16/src/constraints/linear_combination.rs:28-31 | add_one is add with coefficient 1 |
| LinearCombinations.SubOne | zkper-snarks/zkper-groth16/src/constraints/linear_combination.rs:33-35 | sub_one appends the variable with coefficient r − 1 |
| LinearCombinations.AddLinearCombination | zkper-snarks/zkper-groth16/src/constraints/linear_combination.rs:37-42 | the other combination's terms are appended in order |
| LinearCombinations.SubLinearCombination | zkper-snarks/zkper-groth16/src/constraints/linear_combination.rs:44-49 | the other combination's terms are appended in order with negated coefficients |
| LinearCombinations.AddScaled | zkper-snarks/zkper-groth16/src/constraints/linear_combination.rs:54-59 | the other terms are appended with coefficients multiplied by the scalar mod r |
| LinearCombinations.SubScaled | zkper-snarks/zkper-groth16/src/constraints/linear_combination.rs:61-66 | the other terms are appended with coefficients multiplied by the scalar and negated mod r |
| LinearCombinations.AddValue | zkper-snarks/zkper-groth16/src/constraints/linear_combination.rs:17-20 | under any assignment the value grows by c · val(v) |
| LinearCombinations.SubValue | zkper-snarks/zkper-groth16/src/constraints/linear_combination.rs:22-26 | under any assignment the value drops by c · val(v) mod r |
| LinearCombinations.AddLinearCombinationValue | zkper-snarks/zkper-groth16/src/constraints/linear_combination.rs:37-42 | the value of the sum is the sum of the values |
| LinearCombinations.SubLinearCombinationValue | zkper-snarks/zkper-groth16/src/constraints/linear_combination.rs:44-49 | the value of the difference is the difference of the values mod r |
| LinearCombinations.AddScaledValue | zkper-snarks/zkper-groth16/src/constraints/linear_combination.rs:54-59 | the value is lc + s · other mod r |
| LinearCombinations.SubScaledValue | zkper-snarks/zkper-groth16/src/constraints/linear_combination.rs:61-66 | the value is lc − s · other mod r |
| Constraints.New | zkper-snarks/zkper-groth16/src/constraints/mod.rs:38-50 | a fresh system has one public input (the constant one) with an empty row per matrix, no private inputs and no constraints, and its row counts match |
| Constraints.One | zkper-snarks/zkper-groth16/src/constraints/mod.rs:53-55 | the constant one is public variable 0, which every new system has allocated |
| Constraints.NewPrivate | zkper-snarks/zkper-groth16/src/constraints/mod.rs:57-67 | returns the next private index, appends an empty row to each private matrix, bumps only the private count, and keeps row counts in step |
| Constraints.NewPublic | zkper-snarks/zkper-groth16/src/constraints/mod.rs:69-79 | returns the next public index, appends an empty row to each public matrix, bumps only the public count, and keeps row counts in step |
| Constraints.EnforceConstraint | zkper-snarks/zkper-groth16/src/constraints/mod.rs:95-97 | always panics (unimplemented) |
| Constraints.AllocationsKeepValid | zkper-snarks/zkper-groth16/src/constraints/mod.rs:57-79 | any sequence of allocations keeps the row counts in step, adds one input per allocation of its kind and no constraints |
| Multiexp.NewSource | zkper-snarks/zkper-groth16/src/multiexp/mod.rs:15-28 | a base source starts at the given index, or at 0 without one (see also lines 50-63) |
| Multiexp.Skip | zkper-snarks/zkper-groth16/src/multiexp/mod.rs:40-42 | skipping moves the cursor forward by the amount, even past the end (see also lines 75-77) |
| Multiexp.Next | zkper-snarks/zkper-groth16/src/multiexp/mod.rs:30-38 | a base is returned exactly when the cursor is in range; it is the base under the cursor, which then advances by one; otherwise nothing changes (see also lines 65-73) |
| Multiexp.NextRun | zkper-snarks/zkper-groth16/src/multiexp/mod.rs:30-38 | k successive reads all succeed exactly when k = 0 or the cursor plus k stays within the bases |
| Multiexp.Multiexp | zkper-snarks/zkper-groth16/src/multiexp/mod.rs:81-137 | panics exactly when a density map's length differs from the exponent count; otherwise returns the sum over contributing exponents of base · exponent (a zero exponent skips a base, an unselected density slot consumes none), or "Ran out of bases" exactly when a needed base is missing (see also lines 140-196) |
| Multiexp.RefSumIsLinear | zkper-snarks/zkper-groth16/src/multiexp/mod.rs:100-116 | in a group, adding the unscaled base for exponent 1 and the scalar multiple otherwise is the linear combination of the selected bases (see also lines 118-133) |
| Prover.NewDensity | zkper-snarks/zkper-groth16/src/prover.rs:18-20 | a new density map is empty and counts nothing |
| Prover.Count | zkper-snarks/zkper-groth16/src/prover.rs:42-44 | the count of set entries never exceeds the length |
| Prover.AddElement | zkper-snarks/zkper-groth16/src/prover.rs:34-36 | appends one unset entry: the length grows by one, earlier entries and the count are unchanged |
| Prover.Set | zkper-snarks/zkper-groth16/src/prover.rs:26-28 | panics exactly when the index is out of bounds; otherwise sets that entry and leaves all others (see also lines 38-40) |
| Prover.Get | zkper-snarks/zkper-groth16/src/prover.rs:30-32 | panics exactly when the index is out of bounds; otherwise returns that entry |
| Prover.CountSet | zkper-snarks/zkper-groth16/src/prover.rs:26-28 | setting an entry raises the count by one exactly when it was unset (see also lines 42-44) |
| Prover.Empty | zkper-snarks/zkper-groth16/src/prover.rs:164-173 | the empty proving system has density maps in step with its assignments |
| Prover.NewPrivate | zkper-snarks/zkper-groth16/src/prover.rs:65-71 | pushes the value, grows both private density maps by an unset entry, returns Private(len − 1), and leaves everything else |
| Prover.NewPublic | zkper-snarks/zkper-groth16/src/prover.rs:73-78 | pushes the value, grows only the B public density map, returns Public(len − 1), and leaves everything else |
| Prover.EvalCorrect | zkper-snarks/zkper-groth16/src/prover.rs:80-117 | eval panics exactly when a nonzero-coefficient term names a variable outside its assignment or density map; otherwise the result is congruent mod r to Σ coeff · value, and a density entry ends set iff it was set or a nonzero-coefficient term uses it |
| Prover.Enforce | zkper-snarks/zkper-groth16/src/prover.rs:119-150 | appends exactly one value to each of a, b and c and leaves the assignments unchanged |
| Prover.EnforceCorrect | zkper-snarks/zkper-groth16/src/prover.rs:119-150 | panics exactly when a term is out of range; otherwise the appended values are the three combinations' values mod r, A marks only the private map, B both of its maps, C none |
| Prover.CreateProofGuard | zkper-snarks/zkper-groth16/src/prover.rs:160-162 | create_proof fails exactly when δ in G1 or in G2 is the identity |
| Generator.Sample | zkper-snarks/zkper-groth16/src/generator.rs:27-35 | the five toxic-waste scalars are drawn in order alpha, beta, gamma, delta, tau, each from the next 64 stream bytes read little-endian and reduced mod r |
| Generator.InputConstraints | zkper-snarks/zkper-groth16/src/generator.rs:55-60 | the input-constraint loop panics exactly when there is at least one public input, since enforce_constraint is unimplemented |
| Generator.GenerationPanics | zkper-snarks/zkper-groth16/src/generator.rs:48-60 | whatever a circuit allocates, generation panics at the first input constraint, because a new system already has the public input one |
| Generator.PowersOfTau | zkper-snarks/zkper-groth16/src/generator.rs:63-71 | coefficient i is τ^i mod r, for every i below the domain size |
| Generator.Inverses | zkper-snarks/zkper-groth16/src/generator.rs:73-74 | unwrap panics exactly when gamma or delta has no inverse mod r; otherwise both inverses are returned, reduced |
| Generator.InversesOverPrime | zkper-snarks/zkper-groth16/src/generator.rs:73-74 | for the prime r this happens exactly when gamma or delta is 0 mod r |
| Generator.HExponent | zkper-snarks/zkper-groth16/src/generator.rs:81-85 | the H exponent is c · (z(τ) · δ⁻¹) mod r |
| Generator.HQuery | zkper-snarks/zkper-groth16/src/generator.rs:80-87 | an empty domain underflows the length and panics; otherwise one entry fewer than the domain, entry i being g1 times the i-th H exponent |
| Generator.HQueryOfPowers | zkper-snarks/zkper-groth16/src/generator.rs:79-87 | for the powers of τ the H exponents are τ^i · z(τ) · δ⁻¹ mod r |
| Verifier.PrepareVerifyingKey | zkper-snarks/zkper-groth16/src/verifier.rs:8-18 | the prepared key holds the pairing of α in G1 with β in G2, the negations of γ and δ in G2, and the IC bases unchanged |
| Verifier.PreparedIdentityKeys | zkper-snarks/zkper-groth16/src/verifier.rs:13 | keys whose α or β is the identity all prepare the same pairing value, that of the generators |
| Verifier.Accumulate | zkper-snarks/zkper-groth16/src/verifier.rs:29-32 | the accumulator is IC₀ plus Σ IC_{i+1} · input_i, built left to right |
| Verifier.ICSumIsLinear | zkper-snarks/zkper-groth16/src/verifier.rs:29-32 | in a group, the accumulated point is the linear combination of the IC bases with coefficients (1, inputs) |
| Verifier.VerifyProof | zkper-snarks/zkper-groth16/src/verifier.rs:20-44 | fails with "InvalidVerifyingKey" exactly when the inputs are not one fewer than the IC bases; otherwise answers whether the final exponentiation of the three-pair multi-Miller loop equals the prepared pairing |
| MiMC.Round | zkper-snarks/zkper-groth16/tests/test_mimc/implemention.rs:24-30 | the new right half is the old left half, and the new left half is (xl + c)³ + xr mod r, reduced for reduced inputs |
| MiMC.FeistelCongruence | zkper-snarks/zkper-groth16/tests/test_mimc/implemention.rs:23-31 | the permutation respects congruence mod r, so reducing the inputs changes nothing |
| MiMC.Mimc | zkper-snarks/zkper-groth16/tests/test_mimc/implemention.rs:16-34 | panics exactly when the constant count differs from the round count; otherwise congruent mod r to the LongsightF Feistel network, one round per constant, and reduced (or the left input when there are no rounds) |
| IntegerTrait.PartialCmp | zkper-integer/src/traits.rs:18-20 | every pair is comparable and the answer is the backend's compare |
| IntegerTrait.IntCompare | zkper-integer/src/traits.rs:16 | on the unbounded backend compare answers Less, Equal or Greater exactly as the integers compare |
| IntegerTrait.IntDefaults | zkper-integer/src/traits.rs:18-24 | on the unbounded backend eq is equality, partial_cmp the integer order, square is x², and add_u64 is addition (see also lines 53-55, 60-62) |
| IntegerTrait.Abs | zkper-integer/src/traits.rs:80-83 | the trait's default `abs` returns the value unchanged, whatever its sign; backends with signed values override it |
| IntegerTrait.IsDivisibleIsDivides | zkper-integer/src/traits.rs:68-70 | a zero-remainder test panics exactly on a zero divisor and otherwise holds exactly when the divisor divides |
| IntegerTrait.IsDivisibleAsWrittenIsWrong | zkper-integer/src/traits.rs:68-73 | the default tests for a zero quotient: 6 is divisible by 3 but is rejected, 1 is not divisible by 2 but is accepted |
| U32Backend.Add | zkper-integer/src/backends/u32_backend.rs:61-63 | wrapping addition: the true sum, or the sum minus 2³² |
| U32Backend.Sub | zkper-integer/src/backends/u32_backend.rs:57-59 | wrapping subtraction: the true difference, or the difference plus 2³² |
| U32Backend.Mul | zkper-integer/src/backends/u32_backend.rs:81-83 | wrapping multiplication: congruent to the product mod 2³², and exact when it fits |
| U32Backend.Neg | zkper-integer/src/backends/u32_backend.rs:73-75 | wrapping negation: 0 for 0, otherwise 2³² − a |
| U32Backend.Div | zkper-integer/src/backends/u32_backend.rs:77-79 | panics exactly on a zero divisor; otherwise the floor quotient |
| U32Backend.Rem | zkper-integer/src/backends/u32_backend.rs:138-140 | panics exactly on a zero divisor; otherwise a remainder below the divisor that differs from a by a multiple of it |
| U32Backend.WrappingInverses | zkper-integer/src/backends/u32_backend.rs:57-75 | wrapping sub undoes wrapping add, a plus its wrapping negation is 0, and add and mul commute |
| U32Backend.FromU64 | zkper-integer/src/backends/u32_backend.rs:21-23 | truncation to the low 32 bits: identity below 2³², congruent mod 2³² otherwise |
| U32Backend.FromI32 | zkper-integer/src/backends/u32_backend.rs:153-155 | two's-complement reinterpretation: non-negative values kept, negative ones plus 2³² |
| U32Backend.IsDivisible | zkper-integer/src/backends/u32_backend.rs:101-103 | panics exactly on a zero divisor; otherwise holds exactly when the divisor divides |
| U32Backend.ParityFacts | zkper-integer/src/backends/u32_backend.rs:196-202 | `is_odd` is the negation of `is_even`, `is_even` holds exactly for multiples of 2, and a wrapping increment flips the parity, also at 2³² − 1 |
| U32Backend.Abs | zkper-integer/src/backends/u32_backend.rs:134-136 | `abs` of an unsigned word is the word itself |
| U32Backend.OverridesAgree | zkper-integer/src/backends/u32_backend.rs:69-71 | the overrides of square, add_u64 and is_divisible agree with the trait's intended defaults, and eq is equality (see also lines 89-91, 93-95, 101-103) |
| U32Backend.Shr | zkper-integer/src/backends/u32_backend.rs:170-176 | panics exactly on a shift of 32 or more (overflow check); otherwise the floor quotient by 2^n |
| U32Backend.Shl | zkper-integer/src/backends/u32_backend.rs:178-184 | panics exactly on a shift of 32 or more; otherwise a · 2^n mod 2³² |
| U32Backend.PowModAsWritten | zkper-integer/src/backends/u32_backend.rs:97-99 | panics exactly on modulus 0 |
| U32Backend.PowModAsWrittenWithoutOverflow | zkper-integer/src/backends/u32_backend.rs:97-99 | when a^e fits in 32 bits the result is the true a^e mod m |
| U32Backend.PowModAsWrittenOverflows | zkper-integer/src/backends/u32_backend.rs:97-99 | 65536² mod 3 is 1, but the wrapped power is 0 and the result is 0 |
| U32Backend.PowMod | zkper-integer/src/backends/u32_backend.rs:97-99 | corrected: panics exactly on modulus 0, otherwise the true a^e mod m |
| U32Backend.Gcd32 | zkper-integer/src/backends/u32_backend.rs:142-151 | Euclid's loop returns the gcd of the two words |
| U32Backend.GcdIsGreatest | zkper-integer/src/backends/u32_backend.rs:142-151 | the gcd divides both inputs, every common divisor divides it, and gcd(a, 0) = a |
| U32Backend.Invert | zkper-integer/src/backends/u32_backend.rs:117-124 | returns the least i in [1, m) with a·i ≡ 1 mod m, computed without overflow, or "No modular inverse found" exactly when there is none |
| U32Backend.InvertFailsIffNotCoprime | zkper-integer/src/backends/u32_backend.rs:117-124 | there is no inverse exactly when m ≤ 1 or a and m are not coprime |
| U32Backend.IsPrime32 | zkper-integer/src/backends/u32_backend.rs:105-115 | trial division up to ⌊√n⌋ answers exactly whether n is prime (false for 0 and 1) |
| U32Backend.FindFirstOne | zkper-integer/src/backends/u32_backend.rs:161-168 | the least set bit at or after start and below 32, None exactly when there is none, and start itself when that bit is set |
| U32Backend.ToBytes | zkper-integer/src/backends/u32_backend.rs:186-188 | four bytes |
| U32Backend.FromBytes | zkper-integer/src/backends/u32_backend.rs:190-194 | panics exactly with fewer than four bytes; otherwise the little-endian value of the first four |
| U32Backend.BytesRoundTrip | zkper-integer/src/backends/u32_backend.rs:186-194 | from_bytes(to_bytes(x)) = x, and to_bytes(from_bytes(bs)) = bs for four bytes |
| U32Backend.RandomBelow | zkper-integer/src/backends/u32_backend.rs:157-159 | panics exactly on bound 0; otherwise the word reduced below the bound |
| ModularPrime.Reduce | zkper-modular/src/traits.rs:8-10 | panics exactly on a zero modulus; otherwise the truncating remainder: below \|p\| in absolute value, with the sign of a, and congruent to a |
| ModularPrime.ReduceSmall | zkper-modular/src/traits.rs:8-10 | a value already below \|p\| in absolute value is unchanged |
| ModularPrime.ReduceIdempotent | zkper-modular/src/traits.rs:8-10 | reducing twice is reducing once |
| ModularPrime.ReduceNonNegative | zkper-modular/src/traits.rs:8-10 | on non-negative values reduce is the ordinary residue mod \|p\| |
| ModularPrime.ReduceCongruent | zkper-modular/src/traits.rs:8-10 | two non-negative values reduce alike exactly when they are congruent |
| ModularPrime.Additive | zkper-modular/src/traits.rs:13-16 | panics exactly on a zero modulus; otherwise congruent to a + b |
| ModularPrime.AdditiveCommutes | zkper-modular/src/traits.rs:13-16 | additive is commutative |
| ModularPrime.AdditiveAssociative | zkper-modular/src/traits.rs:13-16 | on non-negative values additive is associative, and 0 is neutral on reduced values |
| Rng.Gen | zkper-rand/src/implements/rug.rs:10-12 | gen returns the next word of the stream and advances it by one (see also lines 31-33) |
| Rng.GenBits | zkper-rand/src/implements/rug.rs:14-22 | 0 bits consume nothing and give 0; 1 to 31 bits give the top bits of the next word, below 2^bits; 32 or more give the whole word (see also lines 35-43) |
| Rng.GenBitsPrefix | zkper-rand/src/implements/rug.rs:17-18 | a shorter draw from the same state is a prefix of the bits of a longer one |
| Rng.ToU64Wrapping | zkper-rand/src/implements/rug.rs:25 | to_u64_wrapping keeps the low 64 bits: below 2⁶⁴ and congruent to the seed (see also line 46) |
| Rng.Seed | zkper-rand/src/implements/rug.rs:24-27 | seeding restarts the stream for the wrapped 64-bit seed (see also lines 45-48) |
| Rng.SeedWraps | zkper-rand/src/implements/rug.rs:24-27 | seeds congruent mod 2⁶⁴ give the same stream, so −1 seeds like 2⁶⁴ − 1 |
| PollardRho.Polynomial | zkper-base/src/math/factorization/pollards_rho.rs:39-41 | x² + c reduced by truncating remainder: below \|n\| in absolute value, non-negative for non-negative c, and congruent to x² + c |
| PollardRho.Gap | zkper-base/src/math/factorization/pollards_rho.rs:26-27 | gcd(\|x − y\|, n) is a positive common divisor of \|x − y\| and \|n\| |
| PollardRho.PollardRhoAsWrittenGivesUp | zkper-base/src/math/factorization/pollards_rho.rs:7-36 | since d starts at 1 the loop never runs unless m = 1, so every m ≠ 1 whose absolute value is not prime, 0 included, gets 1 after the nine tries; a negated prime passes the primality test on \|m\| and is returned as itself |
| PollardRho.PollardRhoAsWrittenSpins | zkper-base/src/math/factorization/pollards_rho.rs:13-32 | for m = 1 the gcd is always 1 and the loop never ends |
| PollardRho.PollardRhoAsWrittenMissesFactor | zkper-base/src/math/factorization/pollards_rho.rs:7-36 | on 15 the function as written returns 1, while the intended loop finds 3 |
| PollardRho.RhoUntilNontrivial | zkper-base/src/math/factorization/pollards_rho.rs:21-32 | the intended loop (repeat until the gcd is not 1) returns a divisor of n above 1 whenever it returns |
| PollardRho.TriesFixed | zkper-base/src/math/factorization/pollards_rho.rs:13-35 | with that loop each try returns 1 or a proper divisor of m |
| PollardRho.GetFactorPollardRhoFixed | zkper-base/src/math/factorization/pollards_rho.rs:7-36 | corrected: a prime or negated prime is returned as itself; otherwise the answer is 1 or a proper divisor |
| PollardRho.PollardRhoFixedDivides | zkper-base/src/math/factorization/pollards_rho.rs:7-36 | for positive m any answer divides m |
| Ecm.ISqrt | zkper-base/src/math/factorization/ecm/ecm.rs:55 | the floor square root: d² ≤ x < (d + 1)² |
| Ecm.Curves | zkper-base/src/math/factorization/ecm/ecm.rs:66-139 | the curve loop always ends; a factor it returns is a divisor of n above 1, and its only error is "The factorization failed" |
| Ecm.CurvesFailure | zkper-base/src/math/factorization/ecm/ecm.rs:66-139 | the loop fails exactly when every remaining curve yields gcd 1 or n in both stages |
| Ecm.CurvesPanic | zkper-base/src/math/factorization/ecm/ecm.rs:86 | the loop panics only when the bounds are too small for stage 2 (see also lines 104-124) |
| Ecm.EcmOneFactor | zkper-base/src/math/factorization/ecm/ecm.rs:39-140 | odd bounds give "Bounds should be an even integer", a prime gives "The number is prime", a returned factor divides n and exceeds 1, and a panic needs n ≤ 1 or unsafe bounds |
| Ecm.EcmFailsOnlyAfterAllCurves | zkper-base/src/math/factorization/ecm/ecm.rs:66-139 | for an odd composite with even bounds, failure means every one of the curves failed |
| Ecm.OptimalParamsSound | zkper-base/src/math/factorization/ecm/ecm.rs:143-158 | every row of the table has even bounds that are safe for stage 2, and B1 never shrinks as the length grows |
| Ecm.Digits | zkper-base/src/math/factorization/ecm/mod.rs:15 | the decimal length: at least 1, with 10^(k−1) ≤ n < 10^k |
| Ecm.GetFactorEcm | zkper-base/src/math/factorization/ecm/mod.rs:14-28 | never panics or diverges for n > 1; a prime is returned as itself; a factor returned divides n and exceeds 1; the only error is the failed factorization |
| Ecm.EcmWithParams | zkper-base/src/math/factorization/ecm/ecm.rs:196-229 | diverges exactly for n = 0; a panic needs unsafe bounds; the collected factors exceed 1, multiply to n, and include every trial prime dividing n |
| Ecm.EcmFactor | zkper-base/src/math/factorization/ecm/ecm.rs:169-181 | with the table's parameters it never panics, diverges exactly for n = 0, and otherwise returns factors above 1 whose product is n |
| Factorization.TrialPhase | zkper-base/src/math/factorization/mod.rs:104-115 | the remainder after trial division is a positive divisor of m and the primes recorded form a sorted list with no repeats |
| Factorization.TrialPhaseFacts | zkper-base/src/math/factorization/mod.rs:104-115 | the recorded primes are exactly the listed primes that divide m; none of the listed primes divides the remainder; every prime divisor of m was either recorded or still divides the remainder |
| Factorization.LargePhaseAsWrittenOutcome | zkper-base/src/math/factorization/mod.rs:118-138 | the large-factor loop as written never panics, its only error is ECM's failure, and a list it returns holds only entries above 1 |
| Factorization.GetFactorsAsWrittenOutcome | zkper-base/src/math/factorization/mod.rs:94-138 | get_factors as written never panics, its only error is ECM's failure, and a list it returns holds only entries above 1 |
| Factorization.GetFactorsAsWrittenNeverCompletes | zkper-base/src/math/factorization/mod.rs:118-138 | because `temp` is computed once before `while temp.is_zero()`, whenever trial division leaves a composite, get_factors as written either never ends or returns ECM's error; it never returns a factor list |
| Factorization.LargePhaseFixed | zkper-base/src/math/factorization/mod.rs:118-138 | with the removal loop re-testing `m % factor`, the large-factor loop never panics, its only error is ECM's failure, and its list stays sorted with no repeats |
| Factorization.LargePhaseFixedFacts | zkper-base/src/math/factorization/mod.rs:118-138 | the loop keeps the factors found earlier, adds only divisors of m above 1, and leaves every prime divisor of m dividing some entry |
| Factorization.GetFactorsFixed | zkper-base/src/math/factorization/mod.rs:94-117 | never panics; a prime m gives [m]; 0 never finishes; the only error is ECM's failure |
| Factorization.GetFactorsFixedCorrect | zkper-base/src/math/factorization/mod.rs:94-117 | the documented promise: a sorted list of divisors of m above 1 with no repeats, such that every prime divisor of m divides some entry and every small prime dividing m is listed |
| Factorization.GetFactorsFixedAboveOne | zkper-base/src/math/factorization/mod.rs:94-117 | every entry of a returned factor list is above 1 |
| Factorization.IsPrimitiveRoot | zkper-base/src/math/factorization/mod.rs:47-61 | true exactly when no exponent phi / p, for p in the list, takes a to 1 modulo the modulus; false exactly when one does |
| Factorization.Candidate | zkper-base/src/math/factorization/mod.rs:34-42 | the candidates alternate sign, positive first, and their absolute values run from 2 to 20 |
| Factorization.SearchCandidates | zkper-base/src/math/factorization/mod.rs:34-44 | the candidate returned is the first of 2, −2, …, 20, −20 that passes the root test; none is returned exactly when none of the 38 passes |
| Factorization.GeneratorFrom | zkper-base/src/math/factorization/mod.rs:30-45 | a get_factors error becomes the `unwrap` panic; a generator returned is the first passing candidate; "Generator not found" means no candidate passed |
| Factorization.FindGenerator | zkper-base/src/math/factorization/mod.rs:30-45 | find_generator calls get_factors as written: whenever trial division leaves modulus − 1 with a composite remainder, it never returns a generator, and either spins or panics in the `unwrap`; otherwise it returns the first candidate that passes the root test for the factors found, panics when no candidate passes, and never finishes for modulus 1 |
| Factorization.FindGeneratorFixed | zkper-base/src/math/factorization/mod.rs:30-45 | find_generator over the corrected get_factors: it returns the first candidate that passes the root test for the factors of modulus − 1; it panics when get_factors fails or when no candidate passes; modulus 1 never finishes |
| Factorization.RootSearch | zkper-base/src/math/factorization/mod.rs:74-91 | a root found is the smallest g' ≥ g that passes the root test |
| Factorization.RootFactorsFrom | zkper-base/src/math/factorization/mod.rs:68-74 | given factors are used once check_factors accepts them, and check_factors' error is returned otherwise; with no factors given, the computed list is used; a list used has entries above 1 |
| Factorization.RootFactors | zkper-base/src/math/factorization/mod.rs:68-74 | with no factors given, get_factors as written is used, so a q − 1 that trial division leaves composite yields only divergence or ECM's error, never a list |
| Factorization.RootFactorsFixed | zkper-base/src/math/factorization/mod.rs:68-74 | the same selection with the corrected get_factors; it never panics, and a list used has entries above 1 |
| Factorization.PrimitiveRootFrom | zkper-base/src/math/factorization/mod.rs:74-91 | once the factor list is known, returns the smallest g ≥ 2 that passes the root test together with that list; an error from the list is passed through, and a list that never arrives gives divergence |
| Factorization.PrimitiveRoot | zkper-base/src/math/factorization/mod.rs:62-92 | primitive_root as written returns the smallest g ≥ 2 that passes the root test, together with the factor list it used, and passes an error from the list through; with no factors given and a q − 1 that trial division leaves composite, it never returns a root, only divergence or ECM's error |
| Factorization.PrimitiveRootFixed | zkper-base/src/math/factorization/mod.rs:62-92 | primitive_root over the corrected get_factors: the smallest g ≥ 2 that passes the root test, with its factor list, or the list's error |
| Factorization.Split | zkper-base/src/math/factorization/traits.rs:7-15 | panics exactly when the splitter's divisor is 0; otherwise returns the divisor and the truncated cofactor, smaller first |
| Factorization.SplitProduct | zkper-base/src/math/factorization/traits.rs:7-15 | when the divisor divides n, the two parts multiply back to n |
| FactorCheck.CheckFactors | zkper-base/src/math/factorization/mod.rs:12-28 | never panics; the only errors are "Composite factor found" and "Incomplete factor list"; it can loop for ever only when m = 0 |
| FactorCheck.CheckFactorsOutcome | zkper-base/src/math/factorization/mod.rs:12-28 | for nonzero m it always finishes; it reports a composite factor exactly when some entry is not prime; with an all-prime list it accepts exactly when 1 remains |
| FactorCheck.CheckFactorsComplete | zkper-base/src/math/factorization/mod.rs:12-28 | the doc promise: for m > 0 and a list of primes, the list is accepted exactly when it contains every prime divisor of m |
| FactorCheck.RemainingCoprime | zkper-base/src/math/factorization/mod.rs:19-21 | after division, no listed prime divides what remains |
| FactorCheck.RemainingDivides | zkper-base/src/math/factorization/mod.rs:19-21 | for m > 0 and factors above 1, what remains is a positive divisor of m |
| FactorCheck.CheckFactorization | zkper-base/src/math/factorization/mod.rs:147-166 | a panic needs a zero factor; looping for ever needs p = 0 or a factor ±1; an empty list answers whether p = 1 |
| FactorCheck.CheckFactorizationOutcome | zkper-base/src/math/factorization/mod.rs:147-166 | for nonzero p and factors of absolute value above 1 the answer is whether 1 remains; for p > 0 and prime factors it is true exactly when every prime divisor of p is listed |
| FactorizationOpt.InsertByBase | zkper-base/src/math/factorization_opt/mod.rs:75 | inserting one (base, exponent) pair into a list sorted by base keeps it sorted and adds exactly that pair, as a multiset |
| FactorizationOpt.SortByBase | zkper-base/src/math/factorization_opt/mod.rs:75 | `sort_by` on the base gives a list sorted by base that is a permutation of the input |
| FactorizationOpt.InsertByBaseProd | zkper-base/src/math/factorization_opt/mod.rs:75 | inserting a pair multiplies the product of the powers by that pair's power |
| FactorizationOpt.SortByBaseProd | zkper-base/src/math/factorization_opt/mod.rs:75 | sorting leaves the product of the powers unchanged |
| FactorizationOpt.SortedDistinctIsStrict | zkper-base/src/math/factorization_opt/mod.rs:75 | a list whose bases are distinct becomes strictly increasing by base once sorted |
| FactorizationOpt.DivideOutAll | zkper-base/src/math/factorization_opt/mod.rs:51-55 | the loop divides p out of m exactly as often as it divides: m = m' · p^exp, and p does not divide m' |
| FactorizationOpt.PollardRhoOpt | zkper-base/src/math/factorization_opt/mod.rs:99-112 | when the iteration ends it returns a divisor d of n with 1 < d ≤ n; it never panics |
| FactorizationOpt.PollardRhoFactor | zkper-base/src/math/factorization_opt/mod.rs:79-97 | when the loop ends, the entries logged so far are kept, and the log multiplies out to n with distinct bases above 1 that divide n |
| FactorizationOpt.Factor | zkper-base/src/math/factorization_opt/mod.rs:44-77 | factor(0) never ends; factor(1) = []; otherwise a list sorted strictly by base, with bases above 1 that divide n and positive exponents, whose powers multiply out to n |
| FactorizationOpt.Leftover | zkper-base/src/math/factorization_opt/mod.rs:67-76 | the part after the sieve: a prime remainder is logged once, otherwise pollard_rho_factor splits it; the sorted result is a factor list of n |
| FactorizationOpt.IsPrimitiveRootOpt | zkper-base/src/math/factorization_opt/mod.rs:29-42 | true exactly when, for every base p in the list, a^((modulus − 1) / p) mod modulus is not 1 |
| FactorizationOpt.SieveCandidate | zkper-base/src/math/factorization_opt/mod.rs:12-20 | the candidates alternate between the j-th sieve prime and its negation |
| FactorizationOpt.SearchSieve | zkper-base/src/math/factorization_opt/mod.rs:12-24 | a candidate returned is the first of 2, −2, 3, −3, … that passes the root test; None means no candidate passed up to and including the first prime above 1000 |
| FactorizationOpt.FindGeneratorOpt | zkper-base/src/math/factorization_opt/mod.rs:7-27 | with a factor list of modulus − 1, returns the first sieve candidate that passes the root test; it panics with "Generator not found" only when no candidate up to the first prime above 1000 passes; modulus 1 never finishes |
| Divisors.RemoveAll | zkper-base/src/math/factorization/mod.rs:19-21 | dividing f out as long as it divides gives a nonzero cofactor that f does not divide, with r = cofactor · f^count; the count is positive exactly when f divides r |
| Divisors.InsertSorted | zkper-base/src/math/factorization/mod.rs:110-116 | the insertion into the `HashSet` followed by the final sort: the result is strictly increasing and holds exactly the old entries plus x |

## Left out

- **G2 and curve group arithmetic.** Point addition, doubling and scalar multiplication on G1 and G2, the G2 line coefficients and the multi-Miller loop over prepared G2 points are parameters. The Miller loop driver, line evaluation and final exponentiation are modelled over them.
- **Floating point.** The ECM driver uses an `f64` square root for the stage-2 bound. The model uses the exact integer square root `Ecm.ISqrt` instead.
- **ECM curves and randomness.** The elliptic-curve arithmetic and random curve choice (`ecm/point.rs` and the curve sampling) are not part of this model. Each curve's outcome is given by a parameter.
- **Probabilistic primality.** `is_prime` / `is_probably_prime` are read as exact primality of the absolute value (`Ints.IsProbablyPrime`), as GMP tests \|n\|. Where the input is a natural number this is `Ints.IsPrime`.
- **The ChaCha stream.** The random number generator is a parameter. `gen_bits` reads it as a stream of 32-bit words (`Rng`). The field samplers (`Bls12.SampleBase`, `Bls12.SampleScalar`) and `Generator.Sample` read it as a stream of bytes. How ChaCha produces those words and bytes is not modelled.
- **Hashing and serialisation.** `from_str`, `from_hex_str`, `from_str_radix`, display and byte-string parsing beyond the little-endian limb conversions are not modelled; they are text handling, not arithmetic.
- **Montgomery helpers without a row.** `mont_square` and `mont_cubic` (`zkper-curves/src/backends/montgomery/mod.rs:279-293`) are compositions of `mont_mul` and have no rows of their own. `mont_reduction` (348-362) is a word-level reduction that no code in the core calls; `mont_mul` reduces with `%`. `normalize` (407-419), `double_mont` (496) and `add_mont` (568) are projective-point formulas in Montgomery form. The standard-form formulas are modelled as `Montgomery.DoubleStandard` and `Montgomery.AddStandard`; the Montgomery-form ones are left out with the rest of the curve arithmetic. The name `montgomery_multiply` used by `fields/base.rs` is read as `mont_mul`.
- **The curve modulus.** The Groth16 modules take the scalar field as a `Backend` parameter with modulus above 1, rather than the literal BLS12-381 scalar modulus. The field tower likewise takes the base-field backend as a parameter; `Bls12` fixes its constants.
- **`z(τ)` and the evaluation domain.** `EvaluationDomain::new` and the vanishing polynomial are commented out in the source. The prover and the generator take `z(τ)` and the coefficient count as parameters. Everything in `create_proof` after its identity guard is not modelled: the FFT/QAP evaluation, the multi-exponentiations, and the assembly of A, B and C from δ·r, δ·s, α, β and the multiexp results, with the final `to_affine`.
- **MiMC round count.** `MIMC_ROUNDS` is a parameter of `MiMC.Mimc`; the 322 round constants are a parameter too.
- **Namespaces.** `constraints/namespace.rs` only forwards to the constraint system and is not modelled separately.
- **Key types.** `Groth16Keys` holds only the data types of the parameters and keys; they have no behaviour to state.
- **Multiexp over G2.** `multiexp_g2` is the same algorithm as the G1 version; `Multiexp` covers both through its group-operations parameter.
- **Integer parity and `abs` of the unbounded backend.** `is_even`, `is_odd` and `abs` of the rug backends forward to rug, whose meaning is the integer's parity and absolute value. The trait's own default `abs` is `IntegerTrait.Abs`. The `u32` versions are `U32Backend.ParityFacts` and `U32Backend.Abs`.
- Fp2Field.Double, Fp2Field.MulByNonresidue, Fp2Field.Invert, Fp2Field.InvertNoneMeansNoInverse: `double`, `mul_by_nonresidue` and `invert` of Fp2 are defined outside the modelled files. They are given the standard definitions implied by the way fp6.rs uses them: x + x, multiplication by ξ = u + 1 (v³ = u + 1, fp6.rs:149-152), and the inverse conj(x)/(c0² + c1²), None when the norm has no inverse.
- FactorCheck.CheckFactors: the primality test reads an entry as prime only when it is a positive prime. rug's `is_probably_prime` tests the absolute value, so the source accepts a negated prime: `check_factors(49, [−7])` divides 49 down to 1 and returns Ok, where the model reports "Composite factor found". `FactorCheck.CheckFactorsOutcome`, `FactorCheck.CheckFactorsComplete`, `Factorization.RootFactorsFrom`, `Factorization.RootFactors`, `Factorization.RootFactorsFixed`, `Factorization.PrimitiveRoot` and `Factorization.PrimitiveRootFixed` inherit this. A negated factor would reach `primitive_root`'s test as a negative exponent (q − 1)/p, which rug's `pow_mod` meets by inverting; that path is not modelled.
- Montgomery.PowMod: the exponent is a natural number. Every caller passes (m + 1)/4. For a negative exponent `pow_mod(...).unwrap()` would invert or panic.
- Montgomery.MontPow: the exponent is a natural number, for the same reason. For a negative exponent `mont_pow`'s `exp >>= 1` would never reach 0.
- **The prepared verifying key type.** `PreparedVerifyingKey` as declared in zkper-snarks/zkper-groth16/src/models/verify.rs:7-16 holds `vk`, `neg_gamma_g2` and `neg_delta_g2`, with a doc comment for an `alpha_g1_beta_g2` field that is not declared. `verifier.rs` builds and reads it with `alpha_g1_beta_g2` and `ic` fields instead. The model follows `verifier.rs`'s use: `Verifier.PrepareVerifyingKey` returns e(α, β), −γ, −δ and the IC bases. It does not follow the struct as declared, which that code does not match.
- **`get_factor_ecm` types.** `get_factor_ecm` passes a rug `Integer` and a `RandState` to `ecm_one_factor`, which takes the library's own integer and generator types. The model connects them as the names suggest.
- **The `fp4_square` doc comment.** It names a different algorithm from the one the body carries out; the model follows the body.
- **`enforce_constraint` in the generator.** It is called with arguments but declared without any; the model reads it as its `unimplemented!()` body, which panics, so `Generator.GenerationPanics` states that parameter generation always panics once a public input exists.
- **Negative inputs to factorization.** `get_factors`, `factor`, `get_factor_ecm` and `ecm_with_params` take `nat` inputs, and the source's behaviour on negative numbers (sign handling inside rug) is not modelled for them. `Ecm.EcmOneFactor` takes any integer and, like rug's `is_probably_prime`, reads a negated prime as prime.
- **Composite factors.** Pollard's rho and ECM may return composite factors. `get_factors` records them as they are, and the model states what the source promises about them: every prime divisor of m divides some entry. It does not claim every entry is prime.
- **Fuel bounds.** Loops that need not end (`primitive_root`'s search, the rho iteration, the large-factor loop) take a `fuel` bound, and running out is reported as `Diverges`. The model says nothing about how much fuel suffices.
- **The `u32` exponent counter in `factorization_opt`.** Its overflow is not modelled; it would need more than 2^32 divisions of the same prime. `factor(0)` is the input that gets there, since 2 divides 0 for ever: `FactorizationOpt.Factor` reports it as `Diverges`, where a debug build would panic on the overflow after 2^32 steps and a release build would wrap and go on.
- U32Backend.Shr, U32Backend.Shl: these follow a debug build, where a shift by 32 or more panics on the overflow check. A release build masks the shift amount to its low 5 bits instead, and that is not modelled.
- **Fp12 Frobenius tests.** The tests that the Frobenius map applied twelve times is the identity, and that it moves a random element, are not proved.
- PollardRho.Polynomial: requires n ≠ 0. The source's `% n` would panic on 0, but no caller reaches it with 0. As written the loop body runs only for m = 1, and the corrected search returns before the loop for m ≤ 1.
- Factorization.FindGenerator, Factorization.FindGeneratorFixed: require modulus ≥ 1; for modulus ≤ 0 the source computes with a negative φ, which the factorization model does not cover.
- FactorizationOpt.FindGeneratorOpt, FactorizationOpt.IsPrimitiveRootOpt: require modulus ≥ 1 for the same reason, and `IsPrimitiveRootOpt` also requires positive bases. The source's `is_primitive_root` is public, and with modulus 0 it panics in the `unwrap` of `pow_mod`. `FindGeneratorOpt`, its only caller in the model, always meets these requirements.
- Factorization.PrimitiveRoot, Factorization.PrimitiveRootFixed: require q > 1; `q - 1` would otherwise be 0 or negative, which `get_factors` does not handle.
- Factorization.IsPrimitiveRoot: requires a positive modulus and positive factors. A zero or negative modulus or factor is not covered; the source divides by the factors and reduces modulo the modulus.
- Ecm.EcmWithParams: requires a nonempty list of trial primes. The source always uses the first 100 000 primes, which the list stands for.

## Findings

| source | as written | input that shows it | evidently intended | confidence | as-written member | corrected member |
|---|---|---|---|---|---|---|
| zkper-integer/src/traits.rs:68-70 | `is_divisible` tests whether the quotient `self / other` is zero | 6 and 3: quotient 2, so 6 is reported not divisible by 3; 1 and 2: quotient 0, so 1 is reported divisible by 2 | test whether the remainder is zero | high, not executed | IntegerTrait.IsDivisibleAsWrittenIsWrong | IntegerTrait.IsDivisibleIsDivides |
| zkper-integer/src/backends/u32_backend.rs:97-99 | `pow_mod` takes `wrapping_pow` before reducing, so the power wraps modulo 2^32 first | 65536² mod 3: the wrapped power is 0, so the result is 0; the true answer is 1 | reduce after each multiplication | high, not executed | U32Backend.PowModAsWrittenOverflows | U32Backend.PowMod |
| zkper-base/src/math/factorization/mod.rs:132-135 | `temp = m % factor` is computed once, then `while temp.is_zero()` divides for ever | m = 104743² = 10971096049 (no prime among the first 10000 divides it, and it is not prime) | re-test `m % factor` on each iteration | high, not executed | Factorization.GetFactorsAsWrittenNeverCompletes | Factorization.GetFactorsFixedCorrect |
| zkper-base/src/math/factorization/pollards_rho.rs:16-21 | `d` starts at 1 and the loop runs `while d.is_zero() \|\| d == m`, so the loop body never runs unless m = 1 | 15: returns 1, although one step with c = 1 gives gcd 3; m = 1 loops for ever | loop `while d == 1` | high, not executed | PollardRho.PollardRhoAsWrittenMissesFactor | PollardRho.GetFactorPollardRhoFixed |
