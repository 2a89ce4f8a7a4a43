// The structure of the optimal ate pairing of `paring.rs`: the identity
// fallback, the Miller loop's bit scan and final conjugation, the sparse
// shape of a line evaluation, the Fp4 and cyclotomic squarings, the
// cyclotomic exponentiation scan and the final exponentiation with its
// fallback to one.
//
// G2 arithmetic, the Fp2 helpers `from_base`, `mul_base` and `normalize`,
// the generators and the value of the Miller loop constant are defined
// outside the modelled files; they are parameters, gathered in `Context`.

module Pairing {
  import opened Wrappers
  import opened Ints
  import Base = Montgomery
  import F2 = Fp2Field
  import F6 = Fp6Field
  import F12 = Fp12Field
  import T = TargetGroup
  import G1
  import Monoid

  type Fp2 = F2.Fp2
  type Fp6 = F6.Fp6
  type Fp12 = F12.Fp12

  datatype G2Affine = G2Affine(x: Fp2, y: Fp2, infinity: bool)

  datatype G2Projective = G2Projective(x: Fp2, y: Fp2, z: Fp2)

  /** What the pairing uses but the modelled files do not define. */
  datatype Context = Context(
    g1Generator: G1.G1Affine,
    g2Generator: G2Affine,
    g2FromAffine: G2Affine -> G2Projective,
    addAffine: (G2Projective, G2Affine) -> G2Projective,
    fromBase: int -> Fp2,
    mulBase: (Fp2, int) -> Fp2,
    normalize: Fp2 -> Fp2,
    loopConstant: nat,
    loopConstantIsNeg: bool)

  // ---------------------------------------------------------------------
  // Squarings

  /** `fp4_square`: the square of a + b·w in Fp4 = Fp2[w]/(w² − ξ), that
   *  is (a² + ξ·b², 2ab), with 2ab computed as (a + b)² − a² − b². The
   *  doc comment's (a² − b², 2ab) is not what the code computes. */
  function Fp4Square(b: Base.Backend, a: Fp2, c: Fp2): (r: (Fp2, Fp2))
    requires b.modulus > 1
    ensures F2.IsReduced(b, a) && F2.IsReduced(b, c) ==>
              r.0 == F2.Reduce(b, F2.Plus(F2.Times(a, a), F2.TimesXi(F2.Times(c, c))))
              && r.1 == F2.Reduce(b, F2.Plus(F2.Times(a, c), F2.Times(a, c)))
  {
    var aa := F2.Square(b, a);
    var cc := F2.Square(b, c);
    var ac2 := F2.Sub(b, F2.Sub(b, F2.Square(b, F2.Add(b, a, c)), aa), cc);
    if F2.IsReduced(b, a) && F2.IsReduced(b, c) then
      Fp4First(b, a, c);
      Fp4Second(b, a, c);
      (F2.Add(b, aa, F2.MulByNonresidue(b, cc)), ac2)
    else
      (F2.Add(b, aa, F2.MulByNonresidue(b, cc)), ac2)
  }

  lemma Fp4First(b: Base.Backend, a: Fp2, c: Fp2)
    requires b.modulus > 1 && F2.IsReduced(b, a) && F2.IsReduced(b, c)
    ensures F2.Add(b, F2.Square(b, a), F2.MulByNonresidue(b, F2.Square(b, c)))
         == F2.Reduce(b, F2.Plus(F2.Times(a, a), F2.TimesXi(F2.Times(c, c))))
  {
    F2.MulByNonresidueOfReduced(b, F2.Times(c, c));
    F2.ReduceReduced(b, F2.Square(b, a));
    F2.AddOfReduced(b, F2.Times(a, a), F2.TimesXi(F2.Times(c, c)));
  }

  lemma Fp4Second(b: Base.Backend, a: Fp2, c: Fp2)
    requires b.modulus > 1 && F2.IsReduced(b, a) && F2.IsReduced(b, c)
    ensures F2.Sub(b, F2.Sub(b, F2.Square(b, F2.Add(b, a, c)), F2.Square(b, a)), F2.Square(b, c))
         == F2.Reduce(b, F2.Plus(F2.Times(a, c), F2.Times(a, c)))
  {
    var s := F2.Plus(a, c);
    F2.MulOfReduced(b, s, s);
    F2.SubOfReduced(b, F2.Times(s, s), F2.Times(a, a));
    F2.SubOfReduced(b, F2.Minus(F2.Times(s, s), F2.Times(a, a)), F2.Times(c, c));
    F2.ReduceReduced(b, F2.Square(b, a));
    F2.ReduceReduced(b, F2.Square(b, c));
    BinomialSquare(a, c);
  }

  lemma BinomialSquare(a: Fp2, c: Fp2)
    ensures F2.Minus(F2.Minus(F2.Times(F2.Plus(a, c), F2.Plus(a, c)), F2.Times(a, a)), F2.Times(c, c))
         == F2.Plus(F2.Times(a, c), F2.Times(a, c))
  {
  }

  /** 3t − 2z and 3t + 2z, the two shapes of a cyclotomic-square output. */
  function ThreeMinusTwo(t: Fp2, z: Fp2): Fp2
  {
    F2.Fp2(3 * t.c0 - 2 * z.c0, 3 * t.c1 - 2 * z.c1)
  }

  function ThreePlusTwo(t: Fp2, z: Fp2): Fp2
  {
    F2.Fp2(3 * t.c0 + 2 * z.c0, 3 * t.c1 + 2 * z.c1)
  }

  /** `z = t − z; z = z + z + t`. */
  function CombineMinus(b: Base.Backend, t: Fp2, z: Fp2): (r: Fp2)
    requires b.modulus > 1
    ensures F2.IsReduced(b, t) && F2.IsReduced(b, z) ==> r == F2.Reduce(b, ThreeMinusTwo(t, z))
  {
    var d := F2.Sub(b, t, z);
    if F2.IsReduced(b, t) && F2.IsReduced(b, z) then
      DoublePlus(b, F2.Minus(t, z), t);
      assert F2.Plus(F2.Plus(F2.Minus(t, z), F2.Minus(t, z)), t) == ThreeMinusTwo(t, z);
      F2.Add(b, F2.Add(b, d, d), t)
    else
      F2.Add(b, F2.Add(b, d, d), t)
  }

  /** `z = t + z; z = z + z + t`. */
  function CombinePlus(b: Base.Backend, t: Fp2, z: Fp2): (r: Fp2)
    requires b.modulus > 1
    ensures F2.IsReduced(b, t) && F2.IsReduced(b, z) ==> r == F2.Reduce(b, ThreePlusTwo(t, z))
  {
    var d := F2.Add(b, t, z);
    if F2.IsReduced(b, t) && F2.IsReduced(b, z) then
      DoublePlus(b, F2.Plus(t, z), t);
      assert F2.Plus(F2.Plus(F2.Plus(t, z), F2.Plus(t, z)), t) == ThreePlusTwo(t, z);
      F2.Add(b, F2.Add(b, d, d), t)
    else
      F2.Add(b, F2.Add(b, d, d), t)
  }

  /** d + d + t, for d the reduction of u, is the reduction of u + u + t. */
  lemma DoublePlus(b: Base.Backend, u: Fp2, t: Fp2)
    requires b.modulus > 1 && F2.IsReduced(b, t)
    ensures var d := F2.Reduce(b, u);
      F2.Add(b, F2.Add(b, d, d), t) == F2.Reduce(b, F2.Plus(F2.Plus(u, u), t))
  {
    var d := F2.Reduce(b, u);
    F2.AddOfReduced(b, u, u);
    var dd := F2.Add(b, d, d);
    assert dd == F2.Reduce(b, F2.Plus(u, u));
    F2.ReduceReduced(b, t);
    F2.AddOfReduced(b, F2.Plus(u, u), t);
  }

  /** `cyclotomic_square` (Granger–Scott): three Fp4 squarings of the
   *  pairs (c0.c0, c1.c1), (c1.c0, c0.c2), (c0.c1, c1.c2), each output
   *  component 3t ∓ 2z of its square t and its old value z. */
  function CyclotomicSquare(b: Base.Backend, f: Fp12): (r: Fp12)
    requires b.modulus > 1
    ensures F12.IsReduced(b, f) ==>
              var A := Fp4Square(b, f.c0.c0, f.c1.c1);
              var B := Fp4Square(b, f.c1.c0, f.c0.c2);
              var C := Fp4Square(b, f.c0.c1, f.c1.c2);
              && r.c0.c0 == F2.Reduce(b, ThreeMinusTwo(A.0, f.c0.c0))
              && r.c1.c1 == F2.Reduce(b, ThreePlusTwo(A.1, f.c1.c1))
              && r.c0.c1 == F2.Reduce(b, ThreeMinusTwo(B.0, f.c0.c1))
              && r.c1.c2 == F2.Reduce(b, ThreePlusTwo(B.1, f.c1.c2))
              && r.c1.c0 == F2.Reduce(b, ThreePlusTwo(F2.MulByNonresidue(b, C.1), f.c1.c0))
              && r.c0.c2 == F2.Reduce(b, ThreeMinusTwo(C.0, f.c0.c2))
  {
    var z0, z1, z2, z3, z4, z5 := f.c0.c0, f.c1.c1, f.c1.c0, f.c0.c2, f.c0.c1, f.c1.c2;
    var A := Fp4Square(b, z0, z1);
    var B := Fp4Square(b, z2, z3);
    var C := Fp4Square(b, z4, z5);
    F12.Fp12(
      F6.Fp6(CombineMinus(b, A.0, z0), CombineMinus(b, B.0, z4), CombineMinus(b, C.0, z3)),
      F6.Fp6(CombinePlus(b, F2.MulByNonresidue(b, C.1), z2), CombinePlus(b, A.1, z1), CombinePlus(b, B.1, z5)))
  }


  // ---------------------------------------------------------------------
  // Line evaluation

  /** `line_evaluation`: a doubling step on the G2 point, and the line
   *  value at the G1 point, which is sparse. */
  function LineEvaluation(b: Base.Backend, ctx: Context, cur: G2Projective, p: G1.G1Affine): (r: (Fp12, G2Projective))
    requires b.modulus > 1
    ensures r.0.c0.c2 == F2.Zero() && r.0.c1.c1 == F2.Zero() && r.0.c1.c2 == F2.Zero()
    ensures r.0.c1.c0 == ctx.normalize(ctx.mulBase(F2.Mul(b, cur.y, cur.z), 2))
    ensures r.1.z == ctx.normalize(F2.Mul(b, r.0.c1.c0, cur.z))
  {
    var x, y, z := cur.x, cur.y, cur.z;
    var slope := ctx.normalize(F2.Mul(b, F2.Square(b, y), ctx.mulBase(x, 3)));
    var vertical := ctx.normalize(ctx.mulBase(F2.Mul(b, y, z), 2));
    var chord := ctx.normalize(ctx.mulBase(F2.Mul(b, F2.Square(b, z), slope), 3));
    var x' := ctx.normalize(F2.Sub(b, F2.Square(b, slope), ctx.mulBase(vertical, 2)));
    var y' := ctx.normalize(F2.Sub(b, F2.Mul(b, slope, F2.Sub(b, vertical, x')), chord));
    var z' := ctx.normalize(F2.Mul(b, vertical, z));
    var px := ctx.fromBase(p.x);
    var t1 := ctx.normalize(F2.Sub(b, F2.Mul(b, ctx.fromBase(p.y), z'), F2.Mul(b, y', px)));
    var t2 := ctx.normalize(F2.Sub(b, F2.Mul(b, x', px), F2.Mul(b, slope, z')));
    (F12.Fp12(F6.Fp6(t1, t2, F2.Zero()), F6.Fp6(vertical, F2.Zero(), F2.Zero())), G2Projective(x', y', z'))
  }

  // ---------------------------------------------------------------------
  // The operations the loops use, as function values

  /** The Fp12 and line operations the pairing's loops apply. The loops
   *  below are stated over these values; `Ops` supplies the actual
   *  operations of the model. */
  datatype LoopOps = LoopOps(
    square: Fp12 -> Fp12,
    mul: (Fp12, Fp12) -> Fp12,
    conjugate: Fp12 -> Fp12,
    frobenius: Fp12 -> Fp12,
    cyclotomicSquare: Fp12 -> Fp12,
    invert: Fp12 -> Option<Fp12>,
    line: (G2Projective, G1.G1Affine) -> (Fp12, G2Projective))

  function Ops(b: Base.Backend, ctx: Context): LoopOps
  {
    if b.modulus > 1 then
      LoopOps(
        (x: Fp12) => F12.Square(b, x),
        (x: Fp12, y: Fp12) => F12.Mul(b, x, y),
        (x: Fp12) => F12.Conjugate(b, x),
        (x: Fp12) => F12.FrobeniusMap(b, x),
        (x: Fp12) => CyclotomicSquare(b, x),
        (x: Fp12) => F12.Invert(b, x),
        (cur: G2Projective, p: G1.G1Affine) => LineEvaluation(b, ctx, cur, p))
    else
      LoopOps(x => x, (x, y) => x, x => x, x => x, x => x, x => None, (cur, p) => (F12.One(), cur))
  }

  // ---------------------------------------------------------------------
  // Exponentiation by the loop constant

  /** `cyclotomic_exp`: scan the 64 bits of the constant from the top,
   *  squaring (cyclotomically) after the first set bit and multiplying
   *  by the base at every set bit, then conjugate. */
  function CyclotomicExp(ops: LoopOps, c: nat, f: Fp12): Fp12
  {
    ops.conjugate(Monoid.MsbLoop(ops.mul, ops.cyclotomicSquare, f, c, 64, F12.One(), false))
  }

  /** Bits above the constant's length leave the result at one: nothing
   *  is squared before the first set bit. */
  lemma CyclotomicExpLeadingZeros(ops: LoopOps, c: nat, k: nat, f: Fp12)
    requires k <= 64 && c < Pow2(k)
    ensures CyclotomicExp(ops, c, f)
         == ops.conjugate(Monoid.MsbLoop(ops.mul, ops.cyclotomicSquare, f, c, k, F12.One(), false))
  {
    Monoid.MsbLoopLeadingZeros(ops.mul, ops.cyclotomicSquare, f, c, 64, k, F12.One());
  }

  /** On any set of elements where the cyclotomic square is the square of
   *  a monoid with neutral one, the scan is the c-th power followed by
   *  the conjugate. */
  lemma CyclotomicExpIsPower(ops: LoopOps, ok: Fp12 -> bool, c: nat, f: Fp12)
    requires Monoid.IsMonoid(ops.mul, ops.cyclotomicSquare, F12.One(), ok) && ok(f)
    requires c < Pow2(64)
    ensures CyclotomicExp(ops, c, f) == ops.conjugate(Monoid.Power(ops.mul, F12.One(), f, c))
  {
    Monoid.MsbLoopIsPower(ops.mul, ops.cyclotomicSquare, F12.One(), ok, f, c, 64);
  }

  // ---------------------------------------------------------------------
  // Miller loop

  /** State of the Miller loop; `lines` counts the line evaluations
   *  multiplied into the accumulator. */
  datatype MillerState = MillerState(acc: Fp12, point: G2Projective, lines: nat)

  /** One iteration for `bit`: square the accumulator, multiply in a
   *  doubling line, and when the bit is set add Q and multiply in a
   *  second line. */
  function MillerStep(ops: LoopOps, ctx: Context, p: G1.G1Affine, q: G2Affine, s: MillerState, bit: nat): (r: MillerState)
    ensures r.lines == s.lines + (if Monoid.Bit(ctx.loopConstant, bit) then 2 else 1)
  {
    var (l, point) := ops.line(s.point, p);
    var acc := ops.mul(ops.square(s.acc), l);
    if Monoid.Bit(ctx.loopConstant, bit) then
      var (l2, point2) := ops.line(ctx.addAffine(point, q), p);
      MillerState(ops.mul(acc, l2), point2, s.lines + 2)
    else
      MillerState(acc, point, s.lines + 1)
  }

  /** The iterations for bits `bit` down to 1. */
  function MillerSteps(ops: LoopOps, ctx: Context, p: G1.G1Affine, q: G2Affine, s: MillerState, bit: nat): MillerState
    decreases bit
  {
    if bit == 0 then s
    else MillerSteps(ops, ctx, p, q, MillerStep(ops, ctx, p, q, s, bit), bit - 1)
  }

  /** Number of set bits of c among positions 1 .. bit. */
  function SetBits(c: nat, bit: nat): nat
  {
    if bit == 0 then 0 else (if Monoid.Bit(c, bit) then 1 else 0) + SetBits(c, bit - 1)
  }

  /** One doubling line per bit, and one addition line per set bit; bit
   *  0 is never looked at. */
  lemma {:induction false} MillerLineCount(ops: LoopOps, ctx: Context, p: G1.G1Affine, q: G2Affine, s: MillerState, bit: nat)
    ensures MillerSteps(ops, ctx, p, q, s, bit).lines == s.lines + bit + SetBits(ctx.loopConstant, bit)
    decreases bit
  {
    if bit > 0 {
      MillerLineCount(ops, ctx, p, q, MillerStep(ops, ctx, p, q, s, bit), bit - 1);
    }
  }

  function MillerRun(ops: LoopOps, ctx: Context, p: G1.G1Affine, q: G2Affine): MillerState
  {
    MillerSteps(ops, ctx, p, q, MillerState(F12.One(), ctx.g2FromAffine(q), 0), 63)
  }

  /** `miller_loop`: the accumulator over bits 63 .. 1, conjugated when
   *  the constant is negative. */
  function MillerLoop(ops: LoopOps, ctx: Context, p: G1.G1Affine, q: G2Affine): (r: Fp12)
    ensures ctx.loopConstantIsNeg ==> r == ops.conjugate(MillerRun(ops, ctx, p, q).acc)
    ensures !ctx.loopConstantIsNeg ==> r == MillerRun(ops, ctx, p, q).acc
  {
    var acc := MillerRun(ops, ctx, p, q).acc;
    if ctx.loopConstantIsNeg then ops.conjugate(acc) else acc
  }

  /** The run multiplies in 63 doubling lines and one addition line for
   *  each set bit among bits 63 .. 1. */
  lemma MillerRunLines(ops: LoopOps, ctx: Context, p: G1.G1Affine, q: G2Affine)
    ensures MillerRun(ops, ctx, p, q).lines == 63 + SetBits(ctx.loopConstant, 63)
  {
    MillerLineCount(ops, ctx, p, q, MillerState(F12.One(), ctx.g2FromAffine(q), 0), 63);
  }

  /** The sign flag changes nothing but the final conjugation. */
  lemma MillerLoopSign(ops: LoopOps, ctx: Context, p: G1.G1Affine, q: G2Affine)
    ensures MillerLoop(ops, ctx.(loopConstantIsNeg := true), p, q)
         == ops.conjugate(MillerLoop(ops, ctx.(loopConstantIsNeg := false), p, q))
  {
    SignIrrelevant(ops, ctx, p, q, MillerState(F12.One(), ctx.g2FromAffine(q), 0), 63);
  }

  lemma {:induction false} SignIrrelevant(ops: LoopOps, ctx: Context, p: G1.G1Affine, q: G2Affine, s: MillerState, bit: nat)
    ensures MillerSteps(ops, ctx.(loopConstantIsNeg := true), p, q, s, bit)
         == MillerSteps(ops, ctx.(loopConstantIsNeg := false), p, q, s, bit)
    decreases bit
  {
    if bit > 0 {
      var s' := MillerStep(ops, ctx.(loopConstantIsNeg := true), p, q, s, bit);
      assert s' == MillerStep(ops, ctx.(loopConstantIsNeg := false), p, q, s, bit);
      SignIrrelevant(ops, ctx, p, q, s', bit - 1);
    }
  }

  // ---------------------------------------------------------------------
  // Final exponentiation and the pairing

  /** f mapped by Frobenius k times. */
  function FrobeniusPower(ops: LoopOps, f: Fp12, k: nat): Fp12
  {
    if k == 0 then f else ops.frobenius(FrobeniusPower(ops, f, k - 1))
  }

  /** The easy part f^((p^6 − 1)(p^2 + 1)), given f⁻¹. */
  function EasyPart(ops: LoopOps, f: Fp12, fInv: Fp12): Fp12
  {
    var f1 := ops.mul(FrobeniusPower(ops, f, 6), fInv);
    ops.mul(FrobeniusPower(ops, f1, 2), f1)
  }

  /** The hard part: the fixed chain of cyclotomic exponentiations,
   *  squarings, products, one conjugation and one Frobenius map. */
  function HardPart(ops: LoopOps, c: nat, y0: Fp12): Fp12
  {
    var y1 := CyclotomicExp(ops, c, y0);
    var y2 := ops.cyclotomicSquare(y1);
    var y3 := ops.mul(y2, y1);
    var y4 := CyclotomicExp(ops, c, y3);
    var y5 := CyclotomicExp(ops, c, y4);
    var y6 := ops.mul(y5, y2);
    var y7 := CyclotomicExp(ops, c, y6);
    var y9 := ops.mul(ops.mul(y7, ops.conjugate(y3)), y1);
    ops.mul(ops.frobenius(ops.mul(y9, y6)), y9)
  }

  /** `final_exponentiation`: the easy and hard parts when f is
   *  invertible, and the target group's one otherwise. */
  function FinalExponentiation(ops: LoopOps, c: nat, f: Fp12): (r: T.Target)
    ensures ops.invert(f).None? ==> r == T.Identity()
    ensures ops.invert(f).Some? ==> r.f == HardPart(ops, c, EasyPart(ops, f, ops.invert(f).value))
  {
    match ops.invert(f)
    case Some(fInv) => T.Target(HardPart(ops, c, EasyPart(ops, f, fInv)))
    case None => T.Target(F12.One())
  }

  /** Zero has no inverse, so it maps to one. */
  lemma FinalExponentiationOfZero(b: Base.Backend, ctx: Context)
    requires b.modulus > 1
    ensures FinalExponentiation(Ops(b, ctx), ctx.loopConstant, F12.Zero()) == T.Identity()
  {
    assert F12.IsZero(F12.Zero());
    assert Ops(b, ctx).invert(F12.Zero()) == F12.Invert(b, F12.Zero());
  }

  /** `pairing`: if either point is the identity the generators are used
   *  in their place. */
  function Pairing(b: Base.Backend, ctx: Context, p: G1.G1Affine, q: G2Affine): (r: T.Target)
    ensures G1.AffineIsIdentity(p) || q.infinity ==>
              r == FinalExponentiation(Ops(b, ctx), ctx.loopConstant, MillerLoop(Ops(b, ctx), ctx, ctx.g1Generator, ctx.g2Generator))
    ensures !G1.AffineIsIdentity(p) && !q.infinity ==>
              r == FinalExponentiation(Ops(b, ctx), ctx.loopConstant, MillerLoop(Ops(b, ctx), ctx, p, q))
  {
    var (p', q') := if G1.AffineIsIdentity(p) || q.infinity then (ctx.g1Generator, ctx.g2Generator) else (p, q);
    var ops := Ops(b, ctx);
    FinalExponentiation(ops, ctx.loopConstant, MillerLoop(ops, ctx, p', q'))
  }

  /** Every pairing with an identity argument has the same value. */
  lemma PairingWithIdentity(b: Base.Backend, ctx: Context, p: G1.G1Affine, q: G2Affine, p': G1.G1Affine, q': G2Affine)
    requires G1.AffineIsIdentity(p) || q.infinity
    requires G1.AffineIsIdentity(p') || q'.infinity
    ensures Pairing(b, ctx, p, q) == Pairing(b, ctx, p', q')
  {
  }
}
