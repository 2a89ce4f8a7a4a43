/** The two BLS12-381 Montgomery backends and the field samplers built on
 *  them (`curves/bls12_381/mod.rs`, `fields/base.rs`, `fields/scalar.rs`). */
module Bls12 {
  import opened Wrappers
  import opened Ints
  import opened Montgomery

  /** The scalar-field modulus r (255 bits). */
  const SCALAR_MODULUS: int :=
    52435875175126190479447740508185965837690552500527637822603658699938581184513

  /** The base-field modulus p (381 bits). */
  const BASE_MODULUS: int :=
    4002409555221667393417789825735904156556882819939007885332058136124031650490837864442687629129015664037894272559787

  const SCALAR_LIMBS: nat := 4
  const BASE_LIMBS: nat := 6

  /** Both moduli are odd (as `compute_inv` needs); p ≡ 3 and r ≡ 1 (mod 4). */
  lemma ModuliResidues()
    ensures SCALAR_MODULUS % 2 == 1 && BASE_MODULUS % 2 == 1
    ensures BASE_MODULUS % 4 == 3
    ensures SCALAR_MODULUS % 4 == 1
  {
  }

  /** `BLS12_381_SCALAR`: `new(r, 4)`, which succeeds because r is odd. */
  function ScalarBackend(): (b: Backend)
    ensures Valid(b)
    ensures b.modulus == SCALAR_MODULUS && b.limbs == SCALAR_LIMBS
    ensures (b.inv * SCALAR_MODULUS) % WORD == WORD - 1
    ensures b.modulusPlusOneDivFour.None?
  {
    ModuliResidues();
    NewSucceedsForOddModulus(SCALAR_MODULUS, SCALAR_LIMBS);
    New(SCALAR_MODULUS, SCALAR_LIMBS).value
  }

  /** `BLS12_381_BASE`: `new(p, 6)`. */
  function BaseBackend(): (b: Backend)
    ensures Valid(b)
    ensures b.modulus == BASE_MODULUS && b.limbs == BASE_LIMBS
    ensures (b.inv * BASE_MODULUS) % WORD == WORD - 1
    ensures b.modulusPlusOneDivFour == Some((BASE_MODULUS + 1) / 4)
    ensures b.fp2SqrtConstant1 == Some((BASE_MODULUS - 3) / 4)
    ensures b.fp2SqrtConstant2 == Some((BASE_MODULUS - 1) / 2)
  {
    ModuliResidues();
    NewSucceedsForOddModulus(BASE_MODULUS, BASE_LIMBS);
    New(BASE_MODULUS, BASE_LIMBS).value
  }

  /** R is 2^256 mod r for the 4-limb scalar backend and 2^384 mod p for
   *  the 6-limb base backend. */
  lemma MontgomeryRadices()
    ensures ScalarBackend().r == Pow(2, 256) % SCALAR_MODULUS
    ensures BaseBackend().r == Pow(2, 384) % BASE_MODULUS
  {
  }

  /** The scalar backend's square roots panic, since r ≡ 1 (mod 4). */
  lemma ScalarSqrtPanics(x: int)
    ensures Sqrt(ScalarBackend(), x).Panic?
  {
    ModuliResidues();
  }

  /** `Distribution<Bls12_381BaseField>::sample`: 96 bytes as two 48-byte
   *  big-endian halves, combined as d0 + d1·R mod p.  The base field's
   *  `montgomery_multiply` is read as the backend's `mont_mul`. */
  function SampleBase(bytes: seq<byte>): (r: int)
    requires |bytes| == 96
    ensures 0 <= r < BASE_MODULUS
    ensures r == SampleRaw(BaseBackend(), bytes)
  {
    CombineRaw(BaseBackend(), FromBytesBE(bytes[..48]), FromBytesBE(bytes[48..]))
  }

  /** `Distribution<Bls12_381ScalarField>::sample`: 64 bytes as two 32-byte
   *  little-endian halves, combined as d0 + d1·R mod r. */
  function SampleScalar(bytes: seq<byte>): (r: int)
    requires |bytes| == 64
    ensures 0 <= r < SCALAR_MODULUS
    ensures r == SampleRaw(ScalarBackend(), bytes)
  {
    CombineRaw(ScalarBackend(), FromBytesLE(bytes[..32]), FromBytesLE(bytes[32..]))
  }

  /** Since R = 2^256 mod r, the scalar sample is the whole 64-byte
   *  little-endian number reduced mod r. */
  lemma SampleScalarIsBytesModR(bytes: seq<byte>)
    requires |bytes| == 64
    ensures SampleScalar(bytes) == FromBytesLE(bytes) % SCALAR_MODULUS
  {
    MontgomeryRadices();
    CombineLittleEndianHalves(ScalarBackend(), bytes, 32);
  }

  /** The scalar field's `to_mont`/`from_mont` delegate to the scalar
   *  backend, so leaving the Montgomery domain undoes entering it. */
  function ScalarToMont(x: int): (r: int)
    ensures r % SCALAR_MODULUS == (x * ScalarBackend().r) % SCALAR_MODULUS
  {
    var b := ScalarBackend();
    ToMontgomeryMeaning(b, x);
    ToMontgomery(b, x)
  }

  function ScalarFromMont(x: int): (r: int)
    ensures r % SCALAR_MODULUS == (x * ScalarBackend().rInv) % SCALAR_MODULUS
  {
    var b := ScalarBackend();
    FromMontgomeryMeaning(b, x);
    FromMontgomery(b, x)
  }

  lemma ScalarFromToMont(x: int)
    requires x >= 0
    ensures ScalarFromMont(ScalarToMont(x)) == x % SCALAR_MODULUS
  {
    FromToMontgomery(ScalarBackend(), x);
  }
}
