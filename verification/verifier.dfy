// Groth16 verification (`verifier.rs`): preparing a verification key and
// checking a proof against public inputs.
//
// G1 addition, G1 scalar multiplication, projective-to-affine conversion,
// G2 negation and the multi-Miller loop are not part of this model; they
// are parameters. The pairing and the final exponentiation are those of
// the `Pairing` module.

module Verifier {
  import opened Wrappers
  import Base = Montgomery
  import F12 = Fp12Field
  import G1
  import Pairing
  import Keys = Groth16Keys
  import Monoid
  import Multiexp

  /** The curve operations verification needs. */
  datatype CurveOps = CurveOps(
    add: (G1.G1Projective, G1.G1Projective) -> G1.G1Projective,
    mulScalar: (G1.G1Projective, int) -> G1.G1Projective,
    toAffine: G1.G1Projective -> G1.G1Affine,
    g2Neg: Pairing.G2Affine -> Pairing.G2Affine,
    multiMillerLoop: seq<(G1.G1Affine, Pairing.G2Affine)> -> F12.Fp12)

  /** `prepare_verifying_key`: the pairing of α in G1 with β in G2, the
   *  negations of γ and δ in G2, and the IC bases unchanged. */
  function PrepareVerifyingKey(b: Base.Backend, ctx: Pairing.Context, ops: CurveOps, vk: Keys.VerificationKey)
    : (pvk: Keys.PreparedVerifyingKey)
    ensures pvk.alphaG1BetaG2 == Pairing.Pairing(b, ctx, vk.alphaG1, vk.betaG2)
    ensures pvk.negGammaG2 == ops.g2Neg(vk.gammaG2) && pvk.negDeltaG2 == ops.g2Neg(vk.deltaG2)
    ensures pvk.ic == vk.ic
  {
    Keys.PreparedVerifyingKey(Pairing.Pairing(b, ctx, vk.alphaG1, vk.betaG2),
                              ops.g2Neg(vk.gammaG2), ops.g2Neg(vk.deltaG2), vk.ic)
  }

  /** A key whose α or β is the identity gets the pairing of the fixed
   *  generators, so all such keys share it. */
  lemma PreparedIdentityKeys(b: Base.Backend, ctx: Pairing.Context, ops: CurveOps,
                             vk: Keys.VerificationKey, vk': Keys.VerificationKey)
    requires G1.AffineIsIdentity(vk.alphaG1) || vk.betaG2.infinity
    requires G1.AffineIsIdentity(vk'.alphaG1) || vk'.betaG2.infinity
    ensures PrepareVerifyingKey(b, ctx, ops, vk).alphaG1BetaG2 == PrepareVerifyingKey(b, ctx, ops, vk').alphaG1BetaG2
  {
    Pairing.PairingWithIdentity(b, ctx, vk.alphaG1, vk.betaG2, vk'.alphaG1, vk'.betaG2);
  }

  // ---------------------------------------------------------------------
  // The input accumulator

  /** The accumulator after the first n public inputs: IC₀ as a projective
   *  point, then each IC_{i+1} times input i added on the right. */
  function ICSum(ops: CurveOps, ic: seq<G1.G1Affine>, inputs: seq<int>, n: nat): G1.G1Projective
    requires n <= |inputs| && |ic| == |inputs| + 1
  {
    if n == 0 then G1.ToCurve(ic[0])
    else ops.add(ICSum(ops, ic, inputs, n - 1), ops.mulScalar(G1.ToCurve(ic[n]), inputs[n - 1]))
  }

  /** The accumulation loop of `verify_proof`, which zips the inputs with
   *  the IC bases after the first. */
  method Accumulate(ops: CurveOps, ic: seq<G1.G1Affine>, inputs: seq<int>) returns (acc: G1.G1Projective)
    requires |ic| == |inputs| + 1
    ensures acc == ICSum(ops, ic, inputs, |inputs|)
  {
    acc := G1.ToCurve(ic[0]);
    var i := 0;
    while i < |inputs|
      invariant 0 <= i <= |inputs|
      invariant acc == ICSum(ops, ic, inputs, i)
    {
      acc := ops.add(acc, ops.mulScalar(G1.ToCurve(ic[i + 1]), inputs[i]));
      i := i + 1;
    }
  }

  /** `verify_proof`: an IC list that is not one longer than the inputs
   *  is an "InvalidVerifyingKey" error; otherwise the answer is whether
   *  the final exponentiation of the multi-Miller loop over (A, B),
   *  (acc, −γ) and (C, −δ) equals the prepared e(α, β). */
  method VerifyProof(b: Base.Backend, ctx: Pairing.Context, ops: CurveOps, pvk: Keys.PreparedVerifyingKey,
                     proof: Keys.Proof, inputs: seq<int>) returns (r: Result<bool>)
    ensures r.Err? <==> |inputs| + 1 != |pvk.ic|
    ensures r.Err? ==> r.error == "InvalidVerifyingKey"
    ensures r.Ok? ==>
              r.value == (Pairing.FinalExponentiation(Pairing.Ops(b, ctx), ctx.loopConstant,
                            ops.multiMillerLoop([(proof.a, proof.b),
                                                 (ops.toAffine(ICSum(ops, pvk.ic, inputs, |inputs|)), pvk.negGammaG2),
                                                 (proof.c, pvk.negDeltaG2)]))
                          == pvk.alphaG1BetaG2)
  {
    if |inputs| + 1 != |pvk.ic| {
      return Err("InvalidVerifyingKey");
    }
    var acc := Accumulate(ops, pvk.ic, inputs);
    var answer := ops.multiMillerLoop([(proof.a, proof.b), (ops.toAffine(acc), pvk.negGammaG2), (proof.c, pvk.negDeltaG2)]);
    var target := Pairing.FinalExponentiation(Pairing.Ops(b, ctx), ctx.loopConstant, answer);
    return Ok(target == pvk.alphaG1BetaG2);
  }

  // ---------------------------------------------------------------------
  // What the accumulator means

  /** The G1 group operations of the accumulator, as the multi-exponent
   *  model names them. */
  function GroupOf(ops: CurveOps): Multiexp.GroupOps<G1.G1Projective, G1.G1Affine>
  {
    Multiexp.GroupOps(G1.Identity(), ops.add, G1.ToCurve, ops.mulScalar)
  }

  /** IC₀ + Σ_{i<n} x_i·IC_{i+1}, with the scalar products as repeated
   *  addition. */
  function LinearIC(ops: CurveOps, ic: seq<G1.G1Affine>, inputs: seq<int>, n: nat): G1.G1Projective
    requires n <= |inputs| && |ic| == |inputs| + 1
    requires forall i :: 0 <= i < |inputs| ==> inputs[i] >= 0
  {
    if n == 0 then G1.ToCurve(ic[0])
    else ops.add(LinearIC(ops, ic, inputs, n - 1), Monoid.Power(ops.add, G1.Identity(), G1.ToCurve(ic[n]), inputs[n - 1]))
  }

  /** In a lawful G1 with non-negative inputs, the accumulator is
   *  IC₀ + Σ x_i·IC_{i+1}. */
  lemma {:induction false} ICSumIsLinear(ops: CurveOps, ok: G1.G1Projective -> bool, ic: seq<G1.G1Affine>,
                                         inputs: seq<int>, n: nat)
    requires Multiexp.Lawful(GroupOf(ops), ok)
    requires n <= |inputs| && |ic| == |inputs| + 1
    requires forall i :: 0 <= i < |inputs| ==> inputs[i] >= 0
    ensures ICSum(ops, ic, inputs, n) == LinearIC(ops, ic, inputs, n)
  {
    if n > 0 {
      ICSumIsLinear(ops, ok, ic, inputs, n - 1);
      var g := GroupOf(ops);
      assert ok(g.fromAffine(ic[n]));
      assert ok(G1.ToCurve(ic[n]));
    }
  }
}
