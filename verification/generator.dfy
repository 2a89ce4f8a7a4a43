// Parameter generation for Groth16 (`generator.rs`): the toxic-waste
// sample, the input constraints, the powers of τ, the inverses of γ and
// δ, and the H query.
//
// Scalar arithmetic is that of the backend `b` (the scalar backend of
// BLS12-381 in the program). The evaluation domain's vanishing value
// z(τ) and G1 scalar multiplication are not part of this model and are
// parameters.

module Generator {
  import opened Wrappers
  import opened Ints
  import Base = Montgomery
  import Bls12
  import opened Constraints

  // ---------------------------------------------------------------------
  // Toxic waste

  datatype ToxicWaste = ToxicWaste(alpha: int, beta: int, gamma: int, delta: int, tau: int)

  /** Bytes one scalar sample consumes. */
  const SCALAR_SAMPLE_BYTES: nat := 64

  /** `ToxicWaste::sample`: five scalar samples drawn from the random
   *  stream, in the order alpha, beta, gamma, delta, tau; the rest of the
   *  stream is returned. */
  function Sample(stream: seq<byte>): (r: (ToxicWaste, seq<byte>))
    requires |stream| >= 5 * SCALAR_SAMPLE_BYTES
    ensures r.1 == stream[5 * SCALAR_SAMPLE_BYTES..]
    ensures r.0.alpha == FromBytesLE(stream[0..64]) % Bls12.SCALAR_MODULUS
    ensures r.0.beta == FromBytesLE(stream[64..128]) % Bls12.SCALAR_MODULUS
    ensures r.0.gamma == FromBytesLE(stream[128..192]) % Bls12.SCALAR_MODULUS
    ensures r.0.delta == FromBytesLE(stream[192..256]) % Bls12.SCALAR_MODULUS
    ensures r.0.tau == FromBytesLE(stream[256..320]) % Bls12.SCALAR_MODULUS
  {
    Bls12.SampleScalarIsBytesModR(stream[0..64]);
    Bls12.SampleScalarIsBytesModR(stream[64..128]);
    Bls12.SampleScalarIsBytesModR(stream[128..192]);
    Bls12.SampleScalarIsBytesModR(stream[192..256]);
    Bls12.SampleScalarIsBytesModR(stream[256..320]);
    (ToxicWaste(Bls12.SampleScalar(stream[0..64]), Bls12.SampleScalar(stream[64..128]),
                Bls12.SampleScalar(stream[128..192]), Bls12.SampleScalar(stream[192..256]),
                Bls12.SampleScalar(stream[256..320])),
     stream[320..])
  }

  // ---------------------------------------------------------------------
  // Input constraints

  /** The loop that enforces `x·0 = 0` for public inputs i, i+1, …: each
   *  call of `enforce_constraint` panics, so the loop panics as soon as
   *  it has any input to constrain, and the loop never gets past its
   *  first iteration. */
  function InputConstraints(cs: ConstraintSystem, i: nat): (r: Run<ConstraintSystem>)
    ensures r.Panic? <==> i < cs.numPublicInputs
  {
    if i >= cs.numPublicInputs then Done(cs)
    else
      match EnforceConstraint(cs)
      case Panic(msg) => Panic(msg)
      case other => other
  }

  /** Whatever the circuit allocates, the system keeps its public input
   *  for the constant one, so parameter generation panics in the input
   *  constraint loop before it reaches the powers of τ. */
  lemma GenerationPanics(allocs: seq<Allocation>)
    ensures InputConstraints(AllocateAll(New(), allocs), 0).Panic?
  {
    AllocationsKeepValid(New(), allocs);
  }

  // ---------------------------------------------------------------------
  // Powers of τ

  /** The powers-of-τ loop: coefficient i is τ^i reduced, starting from
   *  one and multiplying by τ each step. */
  method PowersOfTau(b: Base.Backend, tau: int, n: nat) returns (coeffs: seq<int>)
    requires b.modulus > 1
    ensures |coeffs| == n
    ensures forall i :: 0 <= i < n ==> coeffs[i] % b.modulus == Pow(tau, i) % b.modulus
    ensures tau >= 0 ==> forall i :: 0 <= i < n ==> coeffs[i] == Pow(tau, i) % b.modulus
  {
    coeffs := [];
    var current := 1;
    ModSmall(1, b.modulus);
    while |coeffs| < n
      invariant |coeffs| <= n
      invariant forall i :: 0 <= i < |coeffs| ==> coeffs[i] % b.modulus == Pow(tau, i) % b.modulus
      invariant tau >= 0 ==> forall i :: 0 <= i < |coeffs| ==> coeffs[i] == Pow(tau, i) % b.modulus
      invariant current % b.modulus == Pow(tau, |coeffs|) % b.modulus
      invariant tau >= 0 ==> current == Pow(tau, |coeffs|) % b.modulus
    {
      var k := |coeffs|;
      coeffs := coeffs + [current];
      NextPower(b.modulus, tau, k, current);
      current := Base.Mul(b, current, tau);
    }
  }

  /** Multiplying a representative of τ^k by τ gives one of τ^(k+1). */
  lemma NextPower(m: int, tau: int, k: nat, current: int)
    requires m > 1 && current % m == Pow(tau, k) % m
    ensures (current * tau) % m == Pow(tau, k + 1) % m
    ensures tau >= 0 && current == Pow(tau, k) % m ==> current >= 0
  {
    ModMulCong(current, Pow(tau, k), tau, tau, m);
    assert Pow(tau, k + 1) == tau * Pow(tau, k);
  }

  // ---------------------------------------------------------------------
  // Inverses of γ and δ

  /** `invert(gamma).unwrap()` and `invert(delta).unwrap()`: a panic when
   *  either has no inverse modulo the group order. */
  function Inverses(b: Base.Backend, gamma: int, delta: int): (r: Run<(int, int)>)
    requires b.modulus > 1
    ensures !r.Diverges?
    ensures r.Panic? <==> Gcd(gamma % b.modulus, b.modulus) != 1 || Gcd(delta % b.modulus, b.modulus) != 1
    ensures r.Done? ==> 0 <= r.value.0 < b.modulus && IsModInverse(gamma, r.value.0, b.modulus)
    ensures r.Done? ==> 0 <= r.value.1 < b.modulus && IsModInverse(delta, r.value.1, b.modulus)
  {
    match Base.Invert(b, gamma)
    case None => Panic("called `Option::unwrap()` on a `None` value")
    case Some(gi) =>
      match Base.Invert(b, delta)
      case None => Panic("called `Option::unwrap()` on a `None` value")
      case Some(di) => Done((gi, di))
  }

  /** Over a prime group order the unwraps fail exactly on a zero γ or δ. */
  lemma InversesOverPrime(b: Base.Backend, gamma: int, delta: int)
    requires b.modulus > 1 && IsPrime(b.modulus)
    ensures Inverses(b, gamma, delta).Panic? <==> gamma % b.modulus == 0 || delta % b.modulus == 0
  {
    if gamma % b.modulus != 0 {
      PrimeCoprime(gamma, b.modulus);
    }
    if delta % b.modulus != 0 {
      PrimeCoprime(delta, b.modulus);
    }
  }

  // ---------------------------------------------------------------------
  // H query

  /** The exponent of H entry i: coefficient i times z(τ)·δ⁻¹. */
  function HExponent(b: Base.Backend, c: int, z: int, deltaInverse: int): (e: int)
    requires b.modulus > 1
    ensures e % b.modulus == (c * (z * deltaInverse)) % b.modulus
    ensures c >= 0 && z >= 0 && deltaInverse >= 0 ==> 0 <= e < b.modulus
  {
    var coeff := Base.Mul(b, z, deltaInverse);
    ModMulCong(c, c, coeff, z * deltaInverse, b.modulus);
    Base.Mul(b, c, coeff)
  }

  /** The H query loop: one entry per coefficient but the last (the zip
   *  stops at the shorter `h`), each the G1 generator times its
   *  exponent. With no coefficients the length `len − 1` underflows. */
  method HQuery<P>(b: Base.Backend, mulScalar: (P, int) -> P, g1: P, coeffs: seq<int>, z: int, deltaInverse: int)
    returns (r: Run<seq<P>>)
    requires b.modulus > 1
    ensures r.Panic? <==> |coeffs| == 0
    ensures !r.Diverges?
    ensures r.Done? ==> |r.value| == |coeffs| - 1
    ensures r.Done? ==> forall i :: 0 <= i < |r.value| ==>
              r.value[i] == mulScalar(g1, HExponent(b, coeffs[i], z, deltaInverse))
  {
    if |coeffs| == 0 {
      return Panic("attempt to subtract with overflow");
    }
    var h: seq<P> := [];
    var coeff := Base.Mul(b, z, deltaInverse);
    while |h| < |coeffs| - 1
      invariant |h| <= |coeffs| - 1
      invariant forall i :: 0 <= i < |h| ==> h[i] == mulScalar(g1, HExponent(b, coeffs[i], z, deltaInverse))
    {
      var exp := Base.Mul(b, coeffs[|h|], coeff);
      h := h + [mulScalar(g1, exp)];
    }
    return Done(h);
  }

  /** Fed the powers of τ, the H query holds g1 times τ^i·z(τ)·δ⁻¹. */
  lemma HQueryOfPowers(b: Base.Backend, tau: int, i: nat, c: int, z: int, deltaInverse: int)
    requires b.modulus > 1 && c % b.modulus == Pow(tau, i) % b.modulus
    ensures HExponent(b, c, z, deltaInverse) % b.modulus == (Pow(tau, i) * z * deltaInverse) % b.modulus
  {
    ModMulCong(c, Pow(tau, i), z * deltaInverse, z * deltaInverse, b.modulus);
    MulAssoc(Pow(tau, i), z, deltaInverse);
  }
}
