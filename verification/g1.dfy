// G1 points of BLS12-381: projective (x, y, z) with z = 0 at infinity,
// and affine (x, y, infinity). Coordinates are plain residues of the base
// field; the field operations are those of the Montgomery backend.

module G1 {
  import opened Wrappers
  import opened Ints
  import Base = Montgomery
  import Bls12

  datatype G1Projective = G1Projective(x: int, y: int, z: int)

  datatype G1Affine = G1Affine(x: int, y: int, infinity: bool)

  // ---------------------------------------------------------------------
  // Projective points

  /** `identity`: the point at infinity (0, 1, 0). */
  function Identity(): (r: G1Projective)
    ensures IsIdentity(r)
  {
    G1Projective(0, 1, 0)
  }

  /** `is_identity`: z is zero. */
  predicate IsIdentity(p: G1Projective)
  {
    p.z == 0
  }

  /** `neg`: y becomes −y in [0, m); x and z are kept. */
  function Neg(b: Base.Backend, p: G1Projective): (r: G1Projective)
    requires b.modulus > 1
    ensures r.x == p.x && r.z == p.z
    ensures 0 <= r.y < b.modulus && (r.y + p.y) % b.modulus == 0
  {
    var y := Base.Neg(b, p.y);
    NegSum(y, p.y, b.modulus);
    G1Projective(p.x, y, p.z)
  }

  lemma NegSum(y: int, v: int, m: int)
    requires m > 1 && y == (-v) % m
    ensures (y + v) % m == 0
  {
    ModMod(-v, m);
    ModCong(y, -v, v, v, m);
  }

  lemma NegInvolution(b: Base.Backend, p: G1Projective)
    requires b.modulus > 1 && 0 <= p.y < b.modulus
    ensures Neg(b, Neg(b, p)) == p
  {
    var m := b.modulus;
    var y1 := Neg(b, p).y;
    assert y1 == (-p.y) % m;
    ModMod(-p.y, m);
    ModCong(0, 0, y1, -p.y, m);
    assert (-y1) % m == p.y % m;
    ModSmall(p.y, m);
  }

  /** `From<&G1Affine>`: the coordinates are copied and z is 0 at infinity,
   *  1 otherwise. */
  function FromAffine(a: G1Affine): (r: G1Projective)
    ensures r.x == a.x && r.y == a.y
    ensures IsIdentity(r) <==> a.infinity
    ensures !a.infinity ==> r.z == 1
  {
    G1Projective(a.x, a.y, if a.infinity then 0 else 1)
  }

  /** `random`: x is sampled and y² = x³ + 4 is handed to `sqrt`, but the
   *  code that would build the point is commented out, so every path
   *  returns the identity; `sqrt` panics unless m ≡ 3 (mod 4). `x` is
   *  the sampled field element and `word` the `next_u32` draw that picks
   *  the sign of y. */
  function Random(b: Base.Backend, x: int, word: int): (r: Run<G1Projective>)
    requires Base.Valid(b)
    ensures b.modulus % 4 == 3 ==> r == Done(Identity())
    ensures b.modulus % 4 != 3 ==> r.Panic?
  {
    var ySquared := Base.Cubic(b, x) + 4;
    match Base.Sqrt(b, ySquared)
    case Panic(msg) => Panic(msg)
    case _ => Done(Identity())
  }

  /** With the BLS12-381 base field the square root never panics. */
  lemma RandomIsIdentity(x: int, word: int)
    ensures Random(Bls12.BaseBackend(), x, word) == Done(Identity())
  {
    Bls12.ModuliResidues();
  }

  // ---------------------------------------------------------------------
  // Affine points

  /** `identity`: (0, 1) flagged as infinity. */
  function AffineIdentity(): (r: G1Affine)
    ensures AffineIsIdentity(r)
  {
    G1Affine(0, 1, true)
  }

  /** `is_identity` is exactly the infinity flag. */
  predicate AffineIsIdentity(a: G1Affine)
  {
    a.infinity
  }

  /** `From<&G1Projective>`: x and y are multiplied by z⁻¹; a z without an
   *  inverse yields 0 in place of the inverse and then the identity. */
  function FromProjective(b: Base.Backend, p: G1Projective): (r: G1Affine)
    requires b.modulus > 1
    ensures r.infinity <==> Gcd(p.z % b.modulus, b.modulus) != 1
    ensures r.infinity ==> r == AffineIdentity()
    ensures !r.infinity ==>
              (r.x * p.z) % b.modulus == p.x % b.modulus && (r.y * p.z) % b.modulus == p.y % b.modulus
    ensures !r.infinity && p.x >= 0 ==> 0 <= r.x < b.modulus
    ensures !r.infinity && p.y >= 0 ==> 0 <= r.y < b.modulus
  {
    var zinv := match Base.Invert(b, p.z) case Some(v) => v case None => 0;
    var x := Base.Mul(b, p.x, zinv);
    var y := Base.Mul(b, p.y, zinv);
    if zinv == 0 then
      InverseIsNonzero(b, p.z);
      AffineIdentity()
    else
      DividedBack(b.modulus, p.x, zinv, p.z, x);
      DividedBack(b.modulus, p.y, zinv, p.z, y);
      G1Affine(x, y, false)
  }

  lemma InverseIsNonzero(b: Base.Backend, z: int)
    requires b.modulus > 1
    ensures Base.Invert(b, z).Some? ==> Base.Invert(b, z).value != 0
  {
    ModSmall(0, b.modulus);
  }

  /** If v inverts z and t ≡ c·v, then t·z ≡ c. */
  lemma DividedBack(m: int, c: int, v: int, z: int, t: int)
    requires m > 1 && (z * v) % m == 1 && t % m == (c * v) % m
    ensures (t * z) % m == c % m
  {
    ModMulCong(t, c * v, z, z, m);
    assert (c * v) * z == c * (z * v);
    ModMulCong(c, c, z * v, 1, m);
  }

  /** `to_curve`: the projective form of an affine point. */
  function ToCurve(a: G1Affine): (r: G1Projective)
    ensures FromAffine(a) == r
  {
    FromAffine(a)
  }

  /** A finite affine point with reduced coordinates survives the trip
   *  through projective form, and the identity comes back as the
   *  canonical identity. */
  lemma AffineRoundTrip(b: Base.Backend, a: G1Affine)
    requires b.modulus > 1
    requires 0 <= a.x < b.modulus && 0 <= a.y < b.modulus
    ensures FromProjective(b, ToCurve(a)) == (if a.infinity then AffineIdentity() else a)
  {
    var m := b.modulus;
    if a.infinity {
      ModSmall(0, m);
      assert Gcd(0, m) == m;
    } else {
      ModSmall(1, m);
      assert Gcd(1, m) == 1 by {
        assert Gcd(1, m) == Gcd(m % 1, 1);
      }
      var r := FromProjective(b, ToCurve(a));
      ModSmall(r.x, m);
      ModSmall(a.x, m);
      ModSmall(r.y, m);
      ModSmall(a.y, m);
    }
  }

  /** Projective → affine → projective gives a point with z = 1 whose
   *  coordinates times the old z are the old coordinates. */
  lemma ProjectiveRoundTrip(b: Base.Backend, p: G1Projective)
    requires b.modulus > 1 && Gcd(p.z % b.modulus, b.modulus) == 1
    ensures ToCurve(FromProjective(b, p)).z == 1
    ensures (ToCurve(FromProjective(b, p)).x * p.z) % b.modulus == p.x % b.modulus
    ensures (ToCurve(FromProjective(b, p)).y * p.z) % b.modulus == p.y % b.modulus
  {
  }
}
