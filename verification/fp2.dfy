/** The quadratic extension Fp2 = Fp[u]/(u² + 1) of `fields/fp2.rs`.
 *
 *  Elements are pairs of plain (not Montgomery) base-field residues and
 *  every operation goes through the base-field backend's plain `add`,
 *  `sub`, `neg` and `mul`.  The program always uses the BLS12_381_BASE
 *  backend; the model passes the backend `b` explicitly, so the laws below
 *  hold for every valid backend and in particular for that one.
 *
 *  Each operation is tied to a reference definition in Z[u]/(u² + 1)
 *  without any reduction (`Plus`, `Times`, ...): on reduced inputs the
 *  operation returns the reference result reduced componentwise.  The
 *  algebraic laws of the code then follow from those of the reference. */
module Fp2Field {
  import opened Ints
  import opened Wrappers
  import Base = Montgomery

  datatype Fp2 = Fp2(c0: int, c1: int)

  // ---------------------------------------------------------------------
  // Reference arithmetic in Z[u]/(u² + 1)

  function Plus(x: Fp2, y: Fp2): Fp2
  {
    Fp2(x.c0 + y.c0, x.c1 + y.c1)
  }

  function Minus(x: Fp2, y: Fp2): Fp2
  {
    Fp2(x.c0 - y.c0, x.c1 - y.c1)
  }

  function Negate(x: Fp2): Fp2
  {
    Fp2(-x.c0, -x.c1)
  }

  /** (x0 + x1·u)(y0 + y1·u) with u² = −1. */
  function Times(x: Fp2, y: Fp2): Fp2
  {
    Fp2(x.c0 * y.c0 - x.c1 * y.c1, x.c0 * y.c1 + x.c1 * y.c0)
  }

  /** Multiplication by the non-residue ξ = u + 1 used to build Fp6. */
  function TimesXi(x: Fp2): Fp2
  {
    Fp2(x.c0 - x.c1, x.c0 + x.c1)
  }

  /** The norm x·x̄ = x0² + x1², an element of the base field. */
  function NormOf(x: Fp2): int
  {
    x.c0 * x.c0 + x.c1 * x.c1
  }

  /** Both components are canonical residues in [0, m). */
  predicate IsReduced(b: Base.Backend, x: Fp2)
  {
    0 <= x.c0 < b.modulus && 0 <= x.c1 < b.modulus
  }

  /** Componentwise reduction into [0, m). */
  function Reduce(b: Base.Backend, x: Fp2): (r: Fp2)
    requires b.modulus > 1
    ensures IsReduced(b, r)
  {
    Fp2(x.c0 % b.modulus, x.c1 % b.modulus)
  }

  lemma ReduceReduced(b: Base.Backend, x: Fp2)
    requires b.modulus > 1 && IsReduced(b, x)
    ensures Reduce(b, x) == x
  {
    ModSmall(x.c0, b.modulus);
    ModSmall(x.c1, b.modulus);
  }

  /** Reduction commutes with the reference operations: reducing the
   *  arguments first does not change the reduced result. */
  lemma ReducePlus(b: Base.Backend, x: Fp2, y: Fp2)
    requires b.modulus > 1
    ensures Reduce(b, Plus(x, y)) == Reduce(b, Plus(Reduce(b, x), Reduce(b, y)))
  {
    var m := b.modulus;
    ModAdd(x.c0, y.c0, m);
    ModAdd(x.c1, y.c1, m);
    ModAdd(x.c0 % m, y.c0 % m, m);
    ModAdd(x.c1 % m, y.c1 % m, m);
    ModMod(x.c0, m); ModMod(y.c0, m);
    ModMod(x.c1, m); ModMod(y.c1, m);
  }

  lemma ReduceMinus(b: Base.Backend, x: Fp2, y: Fp2)
    requires b.modulus > 1
    ensures Reduce(b, Minus(x, y)) == Reduce(b, Minus(Reduce(b, x), Reduce(b, y)))
  {
    var m := b.modulus;
    ModMod(x.c0, m); ModMod(y.c0, m);
    ModMod(x.c1, m); ModMod(y.c1, m);
    ModCong(x.c0, x.c0 % m, y.c0, y.c0 % m, m);
    ModCong(x.c1, x.c1 % m, y.c1, y.c1 % m, m);
  }

  lemma ReduceNegate(b: Base.Backend, x: Fp2)
    requires b.modulus > 1
    ensures Reduce(b, Negate(x)) == Reduce(b, Negate(Reduce(b, x)))
  {
    ModNegation(x.c0, b.modulus);
    ModNegation(x.c1, b.modulus);
  }

  lemma ReduceTimes(b: Base.Backend, x: Fp2, y: Fp2)
    requires b.modulus > 1
    ensures Reduce(b, Times(x, y)) == Reduce(b, Times(Reduce(b, x), Reduce(b, y)))
  {
    var m := b.modulus;
    var x0, x1, y0, y1 := x.c0 % m, x.c1 % m, y.c0 % m, y.c1 % m;
    ModMod(x.c0, m); ModMod(y.c0, m);
    ModMod(x.c1, m); ModMod(y.c1, m);
    ModMulCong(x.c0, x0, y.c0, y0, m);
    ModMulCong(x.c1, x1, y.c1, y1, m);
    ModMulCong(x.c0, x0, y.c1, y1, m);
    ModMulCong(x.c1, x1, y.c0, y0, m);
    ModCong(x.c0 * y.c0, x0 * y0, x.c1 * y.c1, x1 * y1, m);
    ModCong(x.c0 * y.c1, x0 * y1, x.c1 * y.c0, x1 * y0, m);
  }

  lemma ReduceTimesXi(b: Base.Backend, x: Fp2)
    requires b.modulus > 1
    ensures Reduce(b, TimesXi(x)) == Reduce(b, TimesXi(Reduce(b, x)))
  {
    var m := b.modulus;
    ModMod(x.c0, m); ModMod(x.c1, m);
    ModCong(x.c0, x.c0 % m, x.c1, x.c1 % m, m);
  }

  /** The same facts in the form the tower proofs use: a code operation
   *  applied to reductions of reference values is the reduction of the
   *  reference operation on those values. */
  lemma AddOfReduced(b: Base.Backend, x: Fp2, y: Fp2)
    requires b.modulus > 1
    ensures Add(b, Reduce(b, x), Reduce(b, y)) == Reduce(b, Plus(x, y))
  {
    ReducePlus(b, x, y);
  }

  lemma SubOfReduced(b: Base.Backend, x: Fp2, y: Fp2)
    requires b.modulus > 1
    ensures Sub(b, Reduce(b, x), Reduce(b, y)) == Reduce(b, Minus(x, y))
  {
    ReduceMinus(b, x, y);
  }

  lemma MulOfReduced(b: Base.Backend, x: Fp2, y: Fp2)
    requires b.modulus > 1
    ensures Mul(b, Reduce(b, x), Reduce(b, y)) == Reduce(b, Times(x, y))
  {
    ReduceTimes(b, x, y);
  }

  lemma NegOfReduced(b: Base.Backend, x: Fp2)
    requires b.modulus > 1
    ensures Neg(b, Reduce(b, x)) == Reduce(b, Negate(x))
  {
    ReduceNegate(b, x);
  }

  lemma MulByNonresidueOfReduced(b: Base.Backend, x: Fp2)
    requires b.modulus > 1
    ensures MulByNonresidue(b, Reduce(b, x)) == Reduce(b, TimesXi(x))
  {
    ReduceTimesXi(b, x);
  }

  // ---------------------------------------------------------------------
  // The operations of `Fp2`

  function Zero(): Fp2
  {
    Fp2(0, 0)
  }

  /** `one`: c0 is the base field's `one()`, the plain integer 1. */
  function One(): Fp2
  {
    Fp2(1, 0)
  }

  predicate IsZero(x: Fp2)
  {
    x.c0 == 0 && x.c1 == 0
  }

  predicate IsOne(x: Fp2)
  {
    x.c0 == 1 && x.c1 == 0
  }

  function Add(b: Base.Backend, x: Fp2, y: Fp2): (r: Fp2)
    requires b.modulus > 1
    ensures IsReduced(b, x) && IsReduced(b, y) ==> r == Reduce(b, Plus(x, y))
  {
    Fp2(Base.Add(b, x.c0, y.c0), Base.Add(b, x.c1, y.c1))
  }

  function Sub(b: Base.Backend, x: Fp2, y: Fp2): (r: Fp2)
    requires b.modulus > 1
    ensures r == Reduce(b, Minus(x, y))
  {
    Fp2(Base.Sub(b, x.c0, y.c0), Base.Sub(b, x.c1, y.c1))
  }

  function Neg(b: Base.Backend, x: Fp2): (r: Fp2)
    requires b.modulus > 1
    ensures r == Reduce(b, Negate(x))
  {
    Fp2(Base.Neg(b, x.c0), Base.Neg(b, x.c1))
  }

  /** Schoolbook product: c0 = a0·b0 − a1·b1, c1 = a0·b1 + a1·b0. */
  function Mul(b: Base.Backend, x: Fp2, y: Fp2): (r: Fp2)
    requires b.modulus > 1
    ensures IsReduced(b, x) && IsReduced(b, y) ==> r == Reduce(b, Times(x, y))
  {
    var a0b0 := Base.Mul(b, x.c0, y.c0);
    var a1b1 := Base.Mul(b, x.c1, y.c1);
    var a0b1 := Base.Mul(b, x.c0, y.c1);
    var a1b0 := Base.Mul(b, x.c1, y.c0);
    MulIsReducedProduct(b, x, y, a0b0, a1b1, a0b1, a1b0);
    Fp2(Base.Sub(b, a0b0, a1b1), Base.Add(b, a0b1, a1b0))
  }

  lemma MulIsReducedProduct(b: Base.Backend, x: Fp2, y: Fp2, a0b0: int, a1b1: int, a0b1: int, a1b0: int)
    requires b.modulus > 1
    requires a0b0 == Base.Mul(b, x.c0, y.c0) && a1b1 == Base.Mul(b, x.c1, y.c1)
    requires a0b1 == Base.Mul(b, x.c0, y.c1) && a1b0 == Base.Mul(b, x.c1, y.c0)
    ensures IsReduced(b, x) && IsReduced(b, y) ==>
      Fp2(Base.Sub(b, a0b0, a1b1), Base.Add(b, a0b1, a1b0)) == Reduce(b, Times(x, y))
  {
    if IsReduced(b, x) && IsReduced(b, y) {
      ModSub(x.c0 * y.c0, x.c1 * y.c1, b.modulus);
      ModAdd(x.c0 * y.c1, x.c1 * y.c0, b.modulus);
    }
  }

  /** Complex squaring: (c0 + c1)(c0 − c1) and 2·c0·c1; the program's
   *  tests compare it with `mul(a, a)`. */
  function Square(b: Base.Backend, x: Fp2): (r: Fp2)
    requires b.modulus > 1
    ensures IsReduced(b, x) ==> r == Mul(b, x, x)
  {
    var a := Base.Add(b, x.c0, x.c1);
    var s := Base.Sub(b, x.c0, x.c1);
    var c := Base.Add(b, x.c0, x.c0);
    SquareIsProduct(b, x, a, s, c);
    Fp2(Base.Mul(b, a, s), Base.Mul(b, c, x.c1))
  }

  lemma SquareIsProduct(b: Base.Backend, x: Fp2, a: int, s: int, c: int)
    requires b.modulus > 1
    requires a == Base.Add(b, x.c0, x.c1) && s == Base.Sub(b, x.c0, x.c1) && c == Base.Add(b, x.c0, x.c0)
    ensures IsReduced(b, x) ==> Fp2(Base.Mul(b, a, s), Base.Mul(b, c, x.c1)) == Reduce(b, Times(x, x))
  {
    if IsReduced(b, x) {
      var m := b.modulus;
      ModMod(x.c0 + x.c1, m);
      ModMod(x.c0 - x.c1, m);
      ModMulCong(a, x.c0 + x.c1, s, x.c0 - x.c1, m);
      ModMod(x.c0 + x.c0, m);
      ModMulCong(c, x.c0 + x.c0, x.c1, x.c1, m);
      SquareIdentities(x.c0, x.c1);
    }
  }

  lemma SquareIdentities(a: int, c: int)
    ensures (a + c) * (a - c) == a * a - c * c
    ensures (a + a) * c == a * c + c * a
  {
  }

  /** `double`, used by Fp6 squaring: x + x. */
  function Double(b: Base.Backend, x: Fp2): (r: Fp2)
    requires b.modulus > 1
    ensures IsReduced(b, x) ==> r == Reduce(b, Plus(x, x))
  {
    Add(b, x, x)
  }

  /** `conjugate`: c0 − c1·u. */
  function Conjugate(b: Base.Backend, x: Fp2): (r: Fp2)
    requires b.modulus > 1
    ensures IsReduced(b, x) ==> r == Reduce(b, Fp2(x.c0, -x.c1))
  {
    if IsReduced(b, x) then ModSmall(x.c0, b.modulus); Fp2(x.c0, Base.Neg(b, x.c1))
    else Fp2(x.c0, Base.Neg(b, x.c1))
  }

  /** `frobenius_map`: raising to the p-th power is conjugation, so
   *  applying it twice gives back a reduced input. */
  function FrobeniusMap(b: Base.Backend, x: Fp2): (r: Fp2)
    requires b.modulus > 1
    ensures IsReduced(b, x) ==> r == Reduce(b, Fp2(x.c0, -x.c1))
    ensures IsReduced(b, x) ==> Conjugate(b, r) == x
  {
    if IsReduced(b, x) then ConjugateInvolution(b, x); Conjugate(b, x)
    else Conjugate(b, x)
  }

  /** `mul_by_nonresidue`: multiplication by ξ = u + 1, that is
   *  (c0 − c1, c0 + c1). */
  function MulByNonresidue(b: Base.Backend, x: Fp2): (r: Fp2)
    requires b.modulus > 1
    ensures IsReduced(b, x) ==> r == Reduce(b, TimesXi(x))
    ensures IsReduced(b, x) ==> r == Mul(b, x, Fp2(1, 1))
  {
    MulByNonresidueIsProduct(b, x);
    Fp2(Base.Sub(b, x.c0, x.c1), Base.Add(b, x.c0, x.c1))
  }

  lemma MulByNonresidueIsProduct(b: Base.Backend, x: Fp2)
    requires b.modulus > 1
    ensures IsReduced(b, x) ==> Fp2(Base.Sub(b, x.c0, x.c1), Base.Add(b, x.c0, x.c1)) == Reduce(b, TimesXi(x))
    ensures IsReduced(b, x) ==> Reduce(b, TimesXi(x)) == Mul(b, x, Fp2(1, 1))
  {
    TimesXiIsProduct(x);
  }

  lemma TimesXiIsProduct(x: Fp2)
    ensures Times(x, Fp2(1, 1)) == TimesXi(x)
  {
  }

  /** `invert`: the conjugate divided by the norm, None exactly when the
   *  norm has no inverse modulo m. */
  function Invert(b: Base.Backend, x: Fp2): (r: Option<Fp2>)
    requires b.modulus > 1
    ensures r.Some? <==> Gcd(NormOf(x) % b.modulus, b.modulus) == 1
    ensures r.Some? && IsReduced(b, x) ==> IsReduced(b, r.value) && Mul(b, x, r.value) == One()
  {
    var n := Base.Add(b, Base.Square(b, x.c0), Base.Square(b, x.c1));
    NormResidue(b, x, n);
    match Base.Invert(b, n)
    case None => None
    case Some(t) =>
      var v := Fp2(Base.Mul(b, x.c0, t), Base.Neg(b, Base.Mul(b, x.c1, t)));
      InverseTimes(b, x, n, t, v);
      Some(v)
  }

  lemma NormResidue(b: Base.Backend, x: Fp2, n: int)
    requires b.modulus > 1
    requires n == Base.Add(b, Base.Square(b, x.c0), Base.Square(b, x.c1))
    ensures n % b.modulus == NormOf(x) % b.modulus
  {
    var m := b.modulus;
    ModMod(x.c0 * x.c0, m);
    ModMod(x.c1 * x.c1, m);
    ModCong(Base.Square(b, x.c0), x.c0 * x.c0, Base.Square(b, x.c1), x.c1 * x.c1, m);
  }

  lemma InverseTimes(b: Base.Backend, x: Fp2, n: int, t: int, v: Fp2)
    requires b.modulus > 1
    requires n % b.modulus == NormOf(x) % b.modulus
    requires 0 <= t < b.modulus && IsModInverse(n, t, b.modulus)
    requires v == Fp2(Base.Mul(b, x.c0, t), Base.Neg(b, Base.Mul(b, x.c1, t)))
    ensures IsReduced(b, x) ==> IsReduced(b, v) && Mul(b, x, v) == One()
  {
    if IsReduced(b, x) {
      var w := Fp2(x.c0 * t, -(x.c1 * t));
      InverseIsReducedConjugate(b, x, t, v, w);
      ReduceReduced(b, x);
      ReduceTimes(b, x, w);
      NormTimesInverse(x.c0, x.c1, t);
      NormTimesInverseReduces(b, NormOf(x), n, t);
    }
  }

  lemma InverseIsReducedConjugate(b: Base.Backend, x: Fp2, t: int, v: Fp2, w: Fp2)
    requires b.modulus > 1 && IsReduced(b, x) && 0 <= t
    requires v == Fp2(Base.Mul(b, x.c0, t), Base.Neg(b, Base.Mul(b, x.c1, t)))
    requires w == Fp2(x.c0 * t, -(x.c1 * t))
    ensures v == Reduce(b, w)
  {
    ModNegation(x.c1 * t, b.modulus);
  }

  lemma NormTimesInverseReduces(b: Base.Backend, norm: int, n: int, t: int)
    requires b.modulus > 1
    requires n % b.modulus == norm % b.modulus && IsModInverse(n, t, b.modulus)
    ensures Reduce(b, Fp2(norm * t, 0)) == One()
  {
    ModMulCong(norm, n, t, t, b.modulus);
    ModSmall(0, b.modulus);
  }

  lemma NormTimesInverse(x0: int, x1: int, t: int)
    ensures Times(Fp2(x0, x1), Fp2(x0 * t, -(x1 * t))) == Fp2((x0 * x0 + x1 * x1) * t, 0)
  {
  }

  /** `from_monterey` and `to_mont`: componentwise conversions through the
   *  base backend. */
  function FromMont(b: Base.Backend, x: Fp2): (r: Fp2)
    requires Base.Valid(b)
    ensures r.c0 % b.modulus == (x.c0 * b.rInv) % b.modulus
    ensures r.c1 % b.modulus == (x.c1 * b.rInv) % b.modulus
  {
    Base.FromMontgomeryMeaning(b, x.c0);
    Base.FromMontgomeryMeaning(b, x.c1);
    Fp2(Base.FromMontgomery(b, x.c0), Base.FromMontgomery(b, x.c1))
  }

  function ToMont(b: Base.Backend, x: Fp2): (r: Fp2)
    requires Base.Valid(b)
    ensures r.c0 % b.modulus == (x.c0 * b.r) % b.modulus
    ensures r.c1 % b.modulus == (x.c1 * b.r) % b.modulus
  {
    Base.ToMontgomeryMeaning(b, x.c0);
    Base.ToMontgomeryMeaning(b, x.c1);
    Fp2(Base.ToMontgomery(b, x.c0), Base.ToMontgomery(b, x.c1))
  }

  // ---------------------------------------------------------------------
  // Laws

  lemma FromToMont(b: Base.Backend, x: Fp2)
    requires Base.Valid(b) && IsReduced(b, x)
    ensures FromMont(b, ToMont(b, x)) == x
  {
    Base.FromToMontgomery(b, x.c0);
    Base.FromToMontgomery(b, x.c1);
    ReduceReduced(b, x);
  }

  lemma AddCommutes(b: Base.Backend, x: Fp2, y: Fp2)
    requires b.modulus > 1 && IsReduced(b, x) && IsReduced(b, y)
    ensures Add(b, x, y) == Add(b, y, x)
  {
  }

  lemma AddSubCancel(b: Base.Backend, x: Fp2, y: Fp2)
    requires b.modulus > 1 && IsReduced(b, x) && IsReduced(b, y)
    ensures Sub(b, Add(b, x, y), y) == x
  {
    ReduceReduced(b, x);
    ReduceReduced(b, y);
    ReduceMinus(b, Plus(x, y), y);
    assert Minus(Plus(x, y), y) == x;
  }

  lemma AddNegIsZero(b: Base.Backend, x: Fp2)
    requires b.modulus > 1 && IsReduced(b, x)
    ensures Add(b, x, Neg(b, x)) == Zero()
  {
    ReduceReduced(b, x);
    ReducePlus(b, x, Negate(x));
    assert Plus(x, Negate(x)) == Fp2(0, 0);
    ModSmall(0, b.modulus);
  }

  lemma MulOne(b: Base.Backend, x: Fp2)
    requires b.modulus > 1 && IsReduced(b, x)
    ensures Mul(b, x, One()) == x
  {
    assert Times(x, One()) == x;
    ReduceReduced(b, x);
  }

  lemma MulCommutes(b: Base.Backend, x: Fp2, y: Fp2)
    requires b.modulus > 1 && IsReduced(b, x) && IsReduced(b, y)
    ensures Mul(b, x, y) == Mul(b, y, x)
  {
    assert Times(x, y) == Times(y, x);
  }

  lemma TimesAssociates(x: Fp2, y: Fp2, z: Fp2)
    ensures Times(Times(x, y), z) == Times(x, Times(y, z))
  {
    AssociativeC0(x.c0, x.c1, y.c0, y.c1, z.c0, z.c1);
    AssociativeC1(x.c0, x.c1, y.c0, y.c1, z.c0, z.c1);
  }

  lemma AssociativeC0(x0: int, x1: int, y0: int, y1: int, z0: int, z1: int)
    ensures (x0 * y0 - x1 * y1) * z0 - (x0 * y1 + x1 * y0) * z1
         == x0 * (y0 * z0 - y1 * z1) - x1 * (y0 * z1 + y1 * z0)
  {
  }

  lemma AssociativeC1(x0: int, x1: int, y0: int, y1: int, z0: int, z1: int)
    ensures (x0 * y0 - x1 * y1) * z1 + (x0 * y1 + x1 * y0) * z0
         == x0 * (y0 * z1 + y1 * z0) + x1 * (y0 * z0 - y1 * z1)
  {
  }

  lemma TimesCommutes(x: Fp2, y: Fp2)
    ensures Times(x, y) == Times(y, x)
  {
  }

  lemma TimesDistributesRight(a: Fp2, c: Fp2, x: Fp2)
    ensures Times(Plus(a, c), x) == Plus(Times(a, x), Times(c, x))
  {
    DistributiveComponents(x.c0, x.c1, a.c0, a.c1, c.c0, c.c1);
  }

  lemma TimesDistributesMinus(a: Fp2, c: Fp2, x: Fp2)
    ensures Times(x, Minus(a, c)) == Minus(Times(x, a), Times(x, c))
    ensures Times(Minus(a, c), x) == Minus(Times(a, x), Times(c, x))
  {
    SubtractiveComponents(x.c0, x.c1, a.c0, a.c1, c.c0, c.c1);
  }

  lemma TimesNegate(a: Fp2, x: Fp2)
    ensures Times(x, Negate(a)) == Negate(Times(x, a))
    ensures Times(Negate(a), x) == Negate(Times(a, x))
  {
    SubtractiveComponents(x.c0, x.c1, a.c0, a.c1, 0, 0);
  }

  /** (a + c)(x + y) expanded into its four products. */
  lemma TimesBilinear(a: Fp2, c: Fp2, x: Fp2, y: Fp2)
    ensures Times(Plus(a, c), Plus(x, y))
         == Plus(Plus(Times(a, x), Times(a, y)), Plus(Times(c, x), Times(c, y)))
  {
    TimesDistributesRight(a, c, Plus(x, y));
    TimesDistributes(a, x, y);
    TimesDistributes(c, x, y);
  }

  lemma SubtractiveComponents(x0: int, x1: int, y0: int, y1: int, z0: int, z1: int)
    ensures x0 * (y0 - z0) - x1 * (y1 - z1) == (x0 * y0 - x1 * y1) - (x0 * z0 - x1 * z1)
    ensures x0 * (y1 - z1) + x1 * (y0 - z0) == (x0 * y1 + x1 * y0) - (x0 * z1 + x1 * z0)
    ensures x0 * (-y0) - x1 * (-y1) == -(x0 * y0 - x1 * y1)
    ensures x0 * (-y1) + x1 * (-y0) == -(x0 * y1 + x1 * y0)
  {
  }

  /** ξ can be pulled out of either factor. */
  lemma TimesXiTimes(x: Fp2, y: Fp2)
    ensures Times(TimesXi(x), y) == TimesXi(Times(x, y))
    ensures Times(x, TimesXi(y)) == TimesXi(Times(x, y))
  {
    XiComponents(x.c0, x.c1, y.c0, y.c1);
    XiComponents(y.c0, y.c1, x.c0, x.c1);
  }

  lemma XiComponents(x0: int, x1: int, y0: int, y1: int)
    ensures (x0 - x1) * y0 - (x0 + x1) * y1 == (x0 * y0 - x1 * y1) - (x0 * y1 + x1 * y0)
    ensures (x0 - x1) * y1 + (x0 + x1) * y0 == (x0 * y0 - x1 * y1) + (x0 * y1 + x1 * y0)
    ensures y0 * (x0 - x1) - y1 * (x0 + x1) == (y0 * x0 - y1 * x1) - (y0 * x1 + y1 * x0)
    ensures y0 * (x0 + x1) + y1 * (x0 - x1) == (y0 * x0 - y1 * x1) + (y0 * x1 + y1 * x0)
  {
  }

  lemma MulAssociates(b: Base.Backend, x: Fp2, y: Fp2, z: Fp2)
    requires b.modulus > 1 && IsReduced(b, x) && IsReduced(b, y) && IsReduced(b, z)
    ensures Mul(b, Mul(b, x, y), z) == Mul(b, x, Mul(b, y, z))
  {
    ReduceReduced(b, x);
    ReduceReduced(b, z);
    ReduceTimes(b, Times(x, y), z);
    ReduceTimes(b, x, Times(y, z));
    TimesAssociates(x, y, z);
  }

  lemma TimesDistributes(x: Fp2, y: Fp2, z: Fp2)
    ensures Times(x, Plus(y, z)) == Plus(Times(x, y), Times(x, z))
  {
    DistributiveComponents(x.c0, x.c1, y.c0, y.c1, z.c0, z.c1);
  }

  lemma DistributiveComponents(x0: int, x1: int, y0: int, y1: int, z0: int, z1: int)
    ensures x0 * (y0 + z0) - x1 * (y1 + z1) == (x0 * y0 - x1 * y1) + (x0 * z0 - x1 * z1)
    ensures x0 * (y1 + z1) + x1 * (y0 + z0) == (x0 * y1 + x1 * y0) + (x0 * z1 + x1 * z0)
  {
  }

  lemma MulDistributes(b: Base.Backend, x: Fp2, y: Fp2, z: Fp2)
    requires b.modulus > 1 && IsReduced(b, x) && IsReduced(b, y) && IsReduced(b, z)
    ensures Mul(b, x, Add(b, y, z)) == Add(b, Mul(b, x, y), Mul(b, x, z))
  {
    ReduceReduced(b, x);
    ReduceTimes(b, x, Plus(y, z));
    ReducePlus(b, Times(x, y), Times(x, z));
    TimesDistributes(x, y, z);
  }

  lemma ConjugateInvolution(b: Base.Backend, x: Fp2)
    requires b.modulus > 1 && IsReduced(b, x)
    ensures Conjugate(b, Conjugate(b, x)) == x
  {
    ModNegation(x.c1, b.modulus);
    ModNegation(-x.c1, b.modulus);
    ModSmall(x.c1, b.modulus);
  }

  /** Conjugation is multiplicative, as the p-th power map must be. */
  lemma ConjugateOfProduct(b: Base.Backend, x: Fp2, y: Fp2)
    requires b.modulus > 1 && IsReduced(b, x) && IsReduced(b, y)
    ensures Conjugate(b, Mul(b, x, y)) == Mul(b, Conjugate(b, x), Conjugate(b, y))
  {
    var cx, cy := Fp2(x.c0, -x.c1), Fp2(y.c0, -y.c1);
    var t := Times(x, y);
    ReduceTimes(b, cx, cy);
    ConjugateTimes(x.c0, x.c1, y.c0, y.c1);
    ConjugateOfReduced(b, t);
  }

  lemma ConjugateTimes(x0: int, x1: int, y0: int, y1: int)
    ensures Times(Fp2(x0, -x1), Fp2(y0, -y1)) == Fp2(x0 * y0 - x1 * y1, -(x0 * y1 + x1 * y0))
  {
  }

  lemma ConjugateOfReduced(b: Base.Backend, t: Fp2)
    requires b.modulus > 1
    ensures Conjugate(b, Reduce(b, t)) == Reduce(b, Fp2(t.c0, -t.c1))
  {
    ModMod(t.c0, b.modulus);
    ModNegation(t.c1, b.modulus);
  }

  /** A product with the conjugate lands in the base field: x·x̄ is the
   *  norm. */
  lemma ConjugateNorm(b: Base.Backend, x: Fp2)
    requires b.modulus > 1 && IsReduced(b, x)
    ensures Mul(b, x, Conjugate(b, x)) == Fp2(NormOf(x) % b.modulus, 0)
  {
    var cx := Fp2(x.c0, -x.c1);
    ReduceReduced(b, x);
    ReduceTimes(b, x, cx);
    TimesConjugate(x.c0, x.c1);
    ModSmall(0, b.modulus);
  }

  lemma TimesConjugate(x0: int, x1: int)
    ensures Times(Fp2(x0, x1), Fp2(x0, -x1)) == Fp2(x0 * x0 + x1 * x1, 0)
  {
  }

  /** The norm is multiplicative: N(x·y) = N(x)·N(y). */
  lemma NormOfTimes(x: Fp2, y: Fp2)
    ensures NormOf(Times(x, y)) == NormOf(x) * NormOf(y)
  {
    TwoSquares(x.c0, x.c1, y.c0, y.c1);
  }

  /** The two-square identity behind the multiplicative norm. */
  lemma TwoSquares(a: int, b: int, c: int, d: int)
    ensures (a * c - b * d) * (a * c - b * d) + (a * d + b * c) * (a * d + b * c)
         == (a * a + b * b) * (c * c + d * d)
  {
  }

  /** `invert` returns None only for elements that have no inverse at
   *  all. */
  lemma InvertNoneMeansNoInverse(b: Base.Backend, x: Fp2, y: Fp2)
    requires b.modulus > 1 && IsReduced(b, x) && IsReduced(b, y)
    requires Invert(b, x).None?
    ensures Mul(b, x, y) != One()
  {
    if Mul(b, x, y) == One() {
      var t := Times(x, y);
      NormOfReducedOne(b, t);
      NormOfTimes(x, y);
      InverseImpliesCoprime(NormOf(x), NormOf(y), b.modulus);
    }
  }

  lemma NormOfReducedOne(b: Base.Backend, t: Fp2)
    requires b.modulus > 1 && Reduce(b, t) == One()
    ensures NormOf(t) % b.modulus == 1
  {
    var m := b.modulus;
    ModSmall(1, m);
    ModSmall(0, m);
    ModMulCong(t.c0, 1, t.c0, 1, m);
    ModMulCong(t.c1, 0, t.c1, 0, m);
    ModCong(t.c0 * t.c0, 1, t.c1 * t.c1, 0, m);
  }

  lemma InverseImpliesCoprime(a: int, v: int, m: int)
    requires m > 1 && IsModInverse(a, v, m)
    ensures Gcd(a % m, m) == 1
  {
    var r := InvertMod(a, m);
  }

  /** In a triple product the two left factors can trade places. */
  lemma TimesSwap(a: Fp2, c: Fp2, d: Fp2)
    ensures Times(a, Times(c, d)) == Times(c, Times(a, d))
  {
    TimesAssociates(a, c, d);
    TimesCommutes(a, c);
    TimesAssociates(c, a, d);
  }

  /** Reducing one factor first does not change the reduced product. */
  lemma ReduceTimesRight(b: Base.Backend, a: Fp2, c: Fp2)
    requires b.modulus > 1
    ensures Reduce(b, Times(a, Reduce(b, c))) == Reduce(b, Times(a, c))
  {
    ReduceTimes(b, a, c);
    ReduceTimes(b, a, Reduce(b, c));
    ReduceReduced(b, Reduce(b, c));
  }

  /** Conjugation is additive. */
  lemma ConjugateOfSum(b: Base.Backend, x: Fp2, y: Fp2)
    requires b.modulus > 1 && IsReduced(b, x) && IsReduced(b, y)
    ensures Conjugate(b, Add(b, x, y)) == Add(b, Conjugate(b, x), Conjugate(b, y))
  {
    ReduceReduced(b, x);
    ReduceReduced(b, y);
    ConjugateOfReduced(b, Plus(x, y));
    ReducePlus(b, Fp2(x.c0, -x.c1), Fp2(y.c0, -y.c1));
  }

  lemma MulDistributesRight(b: Base.Backend, x: Fp2, y: Fp2, z: Fp2)
    requires b.modulus > 1 && IsReduced(b, x) && IsReduced(b, y) && IsReduced(b, z)
    ensures Mul(b, Add(b, x, y), z) == Add(b, Mul(b, x, z), Mul(b, y, z))
  {
    MulDistributes(b, z, x, y);
    MulCommutes(b, z, Add(b, x, y));
    MulCommutes(b, z, x);
    MulCommutes(b, z, y);
  }

  lemma ConjugateOfZero(b: Base.Backend)
    requires b.modulus > 1
    ensures Conjugate(b, Zero()) == Zero()
    ensures Conjugate(b, One()) == One()
  {
    ModSmall(0, b.modulus);
    ModSmall(1, b.modulus);
  }

  lemma MulZero(b: Base.Backend, y: Fp2)
    requires b.modulus > 1
    ensures Mul(b, Zero(), y) == Zero()
  {
    ModSmall(0, b.modulus);
  }

  /** Zero is neutral for `add` on reduced elements. */
  lemma AddZero(b: Base.Backend, x: Fp2)
    requires b.modulus > 1 && IsReduced(b, x)
    ensures Add(b, x, Zero()) == x && Add(b, Zero(), x) == x
  {
    ModSmall(x.c0, b.modulus);
    ModSmall(x.c1, b.modulus);
  }
}
