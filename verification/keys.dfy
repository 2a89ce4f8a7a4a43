// The key and proof records of the Groth16 crate (`models/*.rs`).

module Groth16Keys {
  import G1
  import Pairing
  import T = TargetGroup

  datatype VerificationKey = VerificationKey(
    alphaG1: G1.G1Affine,
    betaG1: G1.G1Affine,
    betaG2: Pairing.G2Affine,
    gammaG2: Pairing.G2Affine,
    deltaG1: G1.G1Affine,
    deltaG2: Pairing.G2Affine,
    ic: seq<G1.G1Affine>)

  datatype Proof = Proof(a: G1.G1Affine, b: Pairing.G2Affine, c: G1.G1Affine)

  /** The prepared key with the fields `prepare_verifying_key` fills in. */
  datatype PreparedVerifyingKey = PreparedVerifyingKey(
    alphaG1BetaG2: T.Target,
    negGammaG2: Pairing.G2Affine,
    negDeltaG2: Pairing.G2Affine,
    ic: seq<G1.G1Affine>)
}
