/** The quadratic extension Fp12 = Fp6[w]/(w² − v) of `fields/fp12.rs`,
 *  the target group's field.
 *
 *  As for Fp2 and Fp6, every operation is tied to a reference product
 *  without reduction (`Times`, over the reference Fp6 product): on
 *  reduced inputs the program's Karatsuba product, its squaring and its
 *  sparse product return the reduced reference product. */
module Fp12Field {
  import opened Wrappers
  import Base = Montgomery
  import F2 = Fp2Field
  import F6 = Fp6Field
  import Bls12

  type Fp2 = F2.Fp2
  type Fp6 = F6.Fp6

  /** c0 + c1·w. */
  datatype Fp12 = Fp12(c0: Fp6, c1: Fp6)

  // ---------------------------------------------------------------------
  // Reference arithmetic

  function Plus(x: Fp12, y: Fp12): Fp12
  {
    Fp12(F6.Plus(x.c0, y.c0), F6.Plus(x.c1, y.c1))
  }

  function Minus(x: Fp12, y: Fp12): Fp12
  {
    Fp12(F6.Minus(x.c0, y.c0), F6.Minus(x.c1, y.c1))
  }

  function Negate(x: Fp12): Fp12
  {
    Fp12(F6.Negate(x.c0), F6.Negate(x.c1))
  }

  /** The schoolbook product, using w² = v. */
  function Times(x: Fp12, y: Fp12): Fp12
  {
    Fp12(F6.Plus(F6.Times(x.c0, y.c0), F6.TimesV(F6.Times(x.c1, y.c1))),
         F6.Plus(F6.Times(x.c0, y.c1), F6.Times(x.c1, y.c0)))
  }

  predicate IsReduced(b: Base.Backend, x: Fp12)
  {
    F6.IsReduced(b, x.c0) && F6.IsReduced(b, x.c1)
  }

  function Reduce(b: Base.Backend, x: Fp12): (r: Fp12)
    requires b.modulus > 1
    ensures IsReduced(b, r)
  {
    Fp12(F6.Reduce(b, x.c0), F6.Reduce(b, x.c1))
  }

  lemma ReduceReduced(b: Base.Backend, x: Fp12)
    requires b.modulus > 1 && IsReduced(b, x)
    ensures Reduce(b, x) == x
  {
    F6.ReduceReduced(b, x.c0);
    F6.ReduceReduced(b, x.c1);
  }

  // ---------------------------------------------------------------------
  // The operations of `Fp12`

  /** `new`: an element from its two coefficients. */
  function New(c0: Fp6, c1: Fp6): (r: Fp12)
    ensures r.c0 == c0 && r.c1 == c1
  {
    Fp12(c0, c1)
  }

  function Zero(): Fp12
  {
    Fp12(F6.Zero(), F6.Zero())
  }

  function One(): Fp12
  {
    Fp12(F6.One(), F6.Zero())
  }

  predicate IsZero(x: Fp12)
  {
    F6.IsZero(x.c0) && F6.IsZero(x.c1)
  }

  predicate IsOne(x: Fp12)
  {
    F6.IsOne(x.c0) && F6.IsZero(x.c1)
  }

  function Add(b: Base.Backend, x: Fp12, y: Fp12): (r: Fp12)
    requires b.modulus > 1
    ensures IsReduced(b, x) && IsReduced(b, y) ==> r == Reduce(b, Plus(x, y))
  {
    Fp12(F6.Add(b, x.c0, y.c0), F6.Add(b, x.c1, y.c1))
  }

  function Sub(b: Base.Backend, x: Fp12, y: Fp12): (r: Fp12)
    requires b.modulus > 1
    ensures r == Reduce(b, Minus(x, y))
  {
    Fp12(F6.Sub(b, x.c0, y.c0), F6.Sub(b, x.c1, y.c1))
  }

  function Neg(b: Base.Backend, x: Fp12): (r: Fp12)
    requires b.modulus > 1
    ensures r == Reduce(b, Negate(x))
  {
    Fp12(F6.Neg(b, x.c0), F6.Neg(b, x.c1))
  }

  /** `conjugate`: c0 − c1·w. */
  function Conjugate(b: Base.Backend, x: Fp12): (r: Fp12)
    requires b.modulus > 1
    ensures IsReduced(b, x) ==> r == Reduce(b, Fp12(x.c0, F6.Negate(x.c1)))
  {
    if IsReduced(b, x) then F6.ReduceReduced(b, x.c0); Fp12(x.c0, F6.Neg(b, x.c1))
    else Fp12(x.c0, F6.Neg(b, x.c1))
  }

  /** `mul`: Karatsuba over Fp6 with the two products a0·b0 and a1·b1. */
  function Mul(b: Base.Backend, x: Fp12, y: Fp12): (r: Fp12)
    requires b.modulus > 1
    ensures IsReduced(b, x) && IsReduced(b, y) ==> r == Reduce(b, Times(x, y))
  {
    var aa := F6.Mul(b, x.c0, y.c0);
    var bb := F6.Mul(b, x.c1, y.c1);
    var o := F6.Add(b, y.c0, y.c1);
    var c1 := F6.Sub(b, F6.Sub(b, F6.Mul(b, F6.Add(b, x.c1, x.c0), o), aa), bb);
    var c0 := F6.Add(b, F6.MulByNonresidue(b, bb), aa);
    if IsReduced(b, x) && IsReduced(b, y) then
      KaratsubaC0(b, x, y);
      KaratsubaC1(b, x, y);
      Fp12(c0, c1)
    else
      Fp12(c0, c1)
  }

  lemma KaratsubaC0(b: Base.Backend, x: Fp12, y: Fp12)
    requires b.modulus > 1 && IsReduced(b, x) && IsReduced(b, y)
    ensures F6.Add(b, F6.MulByNonresidue(b, F6.Mul(b, x.c1, y.c1)), F6.Mul(b, x.c0, y.c0))
         == Reduce(b, Times(x, y)).c0
  {
    var p, q := F6.Times(x.c0, y.c0), F6.Times(x.c1, y.c1);
    F6.MulByNonresidueOfReduced(b, q);
    F6.AddOfReduced(b, F6.TimesV(q), p);
    SumCommutes(F6.TimesV(q), p);
  }

  lemma KaratsubaC1(b: Base.Backend, x: Fp12, y: Fp12)
    requires b.modulus > 1 && IsReduced(b, x) && IsReduced(b, y)
    ensures F6.Sub(b, F6.Sub(b, F6.Mul(b, F6.Add(b, x.c1, x.c0), F6.Add(b, y.c0, y.c1)), F6.Mul(b, x.c0, y.c0)), F6.Mul(b, x.c1, y.c1))
         == Reduce(b, Times(x, y)).c1
  {
    CrossTerm(b, x.c1, x.c0, y.c0, y.c1);
    CrossCancels(x.c1, x.c0, y.c0, y.c1);
  }

  /** (a + c)(d + e) − c·d − a·e as the code computes it on reduced
   *  inputs. */
  lemma CrossTerm(b: Base.Backend, a: Fp6, c: Fp6, d: Fp6, e: Fp6)
    requires b.modulus > 1
    requires F6.IsReduced(b, a) && F6.IsReduced(b, c) && F6.IsReduced(b, d) && F6.IsReduced(b, e)
    ensures F6.Sub(b, F6.Sub(b, F6.Mul(b, F6.Add(b, a, c), F6.Add(b, d, e)), F6.Mul(b, c, d)), F6.Mul(b, a, e))
         == F6.Reduce(b, F6.Minus(F6.Minus(F6.Times(F6.Plus(a, c), F6.Plus(d, e)), F6.Times(c, d)), F6.Times(a, e)))
  {
    F6.ReduceReduced(b, a); F6.ReduceReduced(b, c);
    F6.ReduceReduced(b, d); F6.ReduceReduced(b, e);
    F6.MulOfReduced(b, F6.Plus(a, c), F6.Plus(d, e));
    F6.SubOfReduced(b, F6.Times(F6.Plus(a, c), F6.Plus(d, e)), F6.Times(c, d));
    F6.SubOfReduced(b, F6.Minus(F6.Times(F6.Plus(a, c), F6.Plus(d, e)), F6.Times(c, d)), F6.Times(a, e));
  }

  /** (a + c)(d + e) − c·d − a·e = c·e + a·d. */
  lemma CrossCancels(a: Fp6, c: Fp6, d: Fp6, e: Fp6)
    ensures F6.Minus(F6.Minus(F6.Times(F6.Plus(a, c), F6.Plus(d, e)), F6.Times(c, d)), F6.Times(a, e))
         == F6.Plus(F6.Times(c, e), F6.Times(a, d))
  {
    F6.TimesDistributesRight(a, c, F6.Plus(d, e));
    F6.TimesDistributes(a, d, e);
    F6.TimesDistributes(c, d, e);
    FourTerms(F6.Times(a, d), F6.Times(a, e), F6.Times(c, d), F6.Times(c, e));
  }

  /** Linear bookkeeping over Fp6 values. */
  lemma FourTerms(ad: Fp6, ae: Fp6, cd: Fp6, ce: Fp6)
    ensures F6.Minus(F6.Minus(F6.Plus(F6.Plus(ad, ae), F6.Plus(cd, ce)), cd), ae) == F6.Plus(ce, ad)
  {
  }

  lemma SumCommutes(p: Fp6, q: Fp6)
    ensures F6.Plus(p, q) == F6.Plus(q, p)
  {
  }

  /** `mul_by_c0_c1_c4`: the product with the sparse element
   *  (c0 + c1·v) + (c4·v)·w that a line evaluation produces. */
  function MulByC0C1C4(b: Base.Backend, x: Fp12, c0: Fp2, c1: Fp2, c4: Fp2): (r: Fp12)
    requires b.modulus > 1
    ensures IsReduced(b, x) && F2.IsReduced(b, c0) && F2.IsReduced(b, c1) && F2.IsReduced(b, c4) ==>
      r == Mul(b, x, Fp12(F6.Fp6(c0, c1, F2.Zero()), F6.Fp6(F2.Zero(), c4, F2.Zero())))
  {
    var aa := F6.MulByC0C1(b, x.c0, c0, c1);
    var bb := F6.MulByC1(b, x.c1, c4);
    var o := F2.Add(b, c1, c4);
    var t := F6.Sub(b, F6.Sub(b, F6.MulByC0C1(b, F6.Add(b, x.c1, x.c0), c0, o), aa), bb);
    if IsReduced(b, x) && F2.IsReduced(b, c0) && F2.IsReduced(b, c1) && F2.IsReduced(b, c4) then
      SparseFactors(b, x, c0, c1, c4);
      Fp12(F6.Add(b, F6.MulByNonresidue(b, bb), aa), t)
    else
      Fp12(F6.Add(b, F6.MulByNonresidue(b, bb), aa), t)
  }

  /** Each sparse product of `mul_by_c0_c1_c4` is the full Fp6 product
   *  of `mul`. */
  lemma SparseFactors(b: Base.Backend, x: Fp12, c0: Fp2, c1: Fp2, c4: Fp2)
    requires b.modulus > 1 && IsReduced(b, x)
    requires F2.IsReduced(b, c0) && F2.IsReduced(b, c1) && F2.IsReduced(b, c4)
    ensures
      var y0, y1 := F6.Fp6(c0, c1, F2.Zero()), F6.Fp6(F2.Zero(), c4, F2.Zero());
      && F6.MulByC0C1(b, x.c0, c0, c1) == F6.Mul(b, x.c0, y0)
      && F6.MulByC1(b, x.c1, c4) == F6.Mul(b, x.c1, y1)
      && F6.Add(b, y0, y1) == F6.Fp6(c0, F2.Add(b, c1, c4), F2.Zero())
      && F6.MulByC0C1(b, F6.Add(b, x.c1, x.c0), c0, F2.Add(b, c1, c4))
           == F6.Mul(b, F6.Add(b, x.c1, x.c0), F6.Add(b, y0, y1))
  {
    var y0, y1 := F6.Fp6(c0, c1, F2.Zero()), F6.Fp6(F2.Zero(), c4, F2.Zero());
    assert F2.IsReduced(b, F2.Zero());
    F2.ReduceReduced(b, c0);
    F2.ReduceReduced(b, F2.Zero());
    assert F6.Add(b, y0, y1) == F6.Fp6(c0, F2.Add(b, c1, c4), F2.Zero());
  }

  /** `square`: the complex squaring (a + b·w)² = a² + v·b² + 2ab·w
   *  computed as (a + v·b)(a + b) − ab − v·ab. */
  function Square(b: Base.Backend, x: Fp12): (r: Fp12)
    requires b.modulus > 1
    ensures IsReduced(b, x) ==> r == Reduce(b, Times(x, x))
    ensures IsReduced(b, x) ==> r == Mul(b, x, x)
  {
    var ab := F6.Mul(b, x.c0, x.c1);
    var c0c1 := F6.Add(b, x.c0, x.c1);
    var c0 := F6.Add(b, F6.MulByNonresidue(b, x.c1), x.c0);
    var c0 := F6.Sub(b, F6.Sub(b, F6.Mul(b, c0, c0c1), ab), F6.MulByNonresidue(b, ab));
    var c1 := F6.Add(b, ab, ab);
    if IsReduced(b, x) then
      SquareC0(b, x);
      SquareC1(b, x);
      Fp12(c0, c1)
    else
      Fp12(c0, c1)
  }

  lemma SquareC0(b: Base.Backend, x: Fp12)
    requires b.modulus > 1 && IsReduced(b, x)
    ensures
      var ab := F6.Mul(b, x.c0, x.c1);
      F6.Sub(b, F6.Sub(b, F6.Mul(b, F6.Add(b, F6.MulByNonresidue(b, x.c1), x.c0), F6.Add(b, x.c0, x.c1)), ab), F6.MulByNonresidue(b, ab))
        == Reduce(b, Times(x, x)).c0
  {
    var a, c := x.c0, x.c1;
    var p := F6.Times(F6.Plus(F6.TimesV(c), a), F6.Plus(a, c));
    var ac := F6.Times(a, c);
    F6.ReduceReduced(b, a);
    F6.ReduceReduced(b, c);
    F6.MulByNonresidueOfReduced(b, c);
    F6.AddOfReduced(b, F6.TimesV(c), a);
    F6.AddOfReduced(b, a, c);
    F6.MulOfReduced(b, F6.Plus(F6.TimesV(c), a), F6.Plus(a, c));
    F6.MulByNonresidueOfReduced(b, ac);
    F6.SubOfReduced(b, p, ac);
    F6.SubOfReduced(b, F6.Minus(p, ac), F6.TimesV(ac));
    SquareFirst(a, c);
  }

  /** (a + v·c)(a + c) − ac − v·ac = a² + v·c². */
  lemma SquareFirst(a: Fp6, c: Fp6)
    ensures
      var ac := F6.Times(a, c);
      F6.Minus(F6.Minus(F6.Times(F6.Plus(F6.TimesV(c), a), F6.Plus(a, c)), ac), F6.TimesV(ac))
        == F6.Plus(F6.Times(a, a), F6.TimesV(F6.Times(c, c)))
  {
    F6.TimesDistributesRight(F6.TimesV(c), a, F6.Plus(a, c));
    F6.TimesDistributes(F6.TimesV(c), a, c);
    F6.TimesDistributes(a, a, c);
    F6.TimesVTimes(c, a);
    F6.TimesVTimes(c, c);
    F6.TimesCommutes(c, a);
    SquareBookkeeping(F6.Times(a, c), F6.Times(c, c), F6.Times(a, a));
  }

  lemma SquareBookkeeping(ac: Fp6, cc: Fp6, aa: Fp6)
    ensures F6.Minus(F6.Minus(F6.Plus(F6.Plus(F6.TimesV(ac), F6.TimesV(cc)), F6.Plus(aa, ac)), ac), F6.TimesV(ac))
         == F6.Plus(aa, F6.TimesV(cc))
  {
  }

  lemma SquareC1(b: Base.Backend, x: Fp12)
    requires b.modulus > 1 && IsReduced(b, x)
    ensures F6.Add(b, F6.Mul(b, x.c0, x.c1), F6.Mul(b, x.c0, x.c1)) == Reduce(b, Times(x, x)).c1
  {
    F6.AddOfReduced(b, F6.Times(x.c0, x.c1), F6.Times(x.c0, x.c1));
    F6.TimesCommutes(x.c1, x.c0);
  }

  /** The norm of x down to Fp6: a² − v·b². */
  function NormOf(x: Fp12): Fp6
  {
    F6.Minus(F6.Times(x.c0, x.c0), F6.TimesV(F6.Times(x.c1, x.c1)))
  }

  /** `invert`: the conjugate divided by the norm; None for zero and when
   *  the norm has no inverse in Fp6. */
  function Invert(b: Base.Backend, x: Fp12): (r: Option<Fp12>)
    requires b.modulus > 1
    ensures IsZero(x) ==> r.None?
    ensures IsReduced(b, x) && !IsZero(x) ==>
      (r.Some? <==> F6.Invert(b, F6.Reduce(b, NormOf(x))).Some?)
    ensures IsReduced(b, x) && r.Some? ==> IsReduced(b, r.value) && Mul(b, x, r.value) == One()
  {
    if IsZero(x) then None
    else
      var n := F6.Sub(b, F6.Square(b, x.c0), F6.MulByNonresidue(b, F6.Square(b, x.c1)));
      if IsReduced(b, x) then NormReduces(b, x); InvertFromNorm(b, x, n)
      else InvertFromNorm(b, x, n)
  }

  lemma NormReduces(b: Base.Backend, x: Fp12)
    requires b.modulus > 1 && IsReduced(b, x)
    ensures F6.Sub(b, F6.Square(b, x.c0), F6.MulByNonresidue(b, F6.Square(b, x.c1))) == F6.Reduce(b, NormOf(x))
  {
    F6.MulByNonresidueOfReduced(b, F6.Times(x.c1, x.c1));
    F6.SubOfReduced(b, F6.Times(x.c0, x.c0), F6.TimesV(F6.Times(x.c1, x.c1)));
  }

  /** The last step of `invert`: scale the conjugate by the inverse of the
   *  norm (the `?` returns None when that inverse does not exist). */
  function InvertFromNorm(b: Base.Backend, x: Fp12, n: Fp6): (r: Option<Fp12>)
    requires b.modulus > 1
    requires IsReduced(b, x) ==> n == F6.Reduce(b, NormOf(x))
    ensures r.Some? <==> F6.Invert(b, n).Some?
    ensures IsReduced(b, x) && r.Some? ==> IsReduced(b, r.value) && Mul(b, x, r.value) == One()
  {
    match F6.Invert(b, n)
    case None => None
    case Some(t) =>
      var v := Fp12(F6.Mul(b, x.c0, t), F6.Neg(b, F6.Mul(b, x.c1, t)));
      if IsReduced(b, x) then InvertedConjugate(b, x, n); Some(v)
      else Some(v)
  }

  lemma InvertedConjugate(b: Base.Backend, x: Fp12, n: Fp6)
    requires b.modulus > 1 && IsReduced(b, x)
    requires n == F6.Reduce(b, NormOf(x)) && F6.Invert(b, n).Some?
    ensures
      var t := F6.Invert(b, n).value;
      var v := Fp12(F6.Mul(b, x.c0, t), F6.Neg(b, F6.Mul(b, x.c1, t)));
      IsReduced(b, v) && Mul(b, x, v) == One()
  {
    InverseProduct(b, x, n, F6.Invert(b, n).value);
  }

  lemma InverseProduct(b: Base.Backend, x: Fp12, n: Fp6, t: Fp6)
    requires b.modulus > 1 && IsReduced(b, x) && F6.IsReduced(b, t)
    requires n == F6.Reduce(b, NormOf(x)) && F6.Mul(b, n, t) == F6.One()
    ensures
      var v := Fp12(F6.Mul(b, x.c0, t), F6.Neg(b, F6.Mul(b, x.c1, t)));
      IsReduced(b, v) && Mul(b, x, v) == One()
  {
    var e := Fp12(F6.Times(x.c0, t), F6.Negate(F6.Times(x.c1, t)));
    F6.ReduceReduced(b, x.c0);
    F6.ReduceReduced(b, x.c1);
    F6.ReduceReduced(b, t);
    F6.MulOfReduced(b, x.c0, t);
    F6.MulOfReduced(b, x.c1, t);
    F6.NegOfReduced(b, F6.Times(x.c1, t));
    assert Fp12(F6.Mul(b, x.c0, t), F6.Neg(b, F6.Mul(b, x.c1, t))) == Reduce(b, e);
    ReduceTimesRight(b, x, e);
    ConjugateTimesNorm(x, t);
    F6.MulOfReduced(b, NormOf(x), t);
    ReducedConstant(b, F6.Times(NormOf(x), t));
  }

  lemma ReducedConstant(b: Base.Backend, p: Fp6)
    requires b.modulus > 1
    ensures Reduce(b, Fp12(p, F6.Zero())) == Fp12(F6.Reduce(b, p), F6.Zero())
  {
    F6.ReduceReduced(b, F6.Zero());
  }

  /** x times its conjugate scaled by t is the norm scaled by t. */
  lemma ConjugateTimesNorm(x: Fp12, t: Fp6)
    ensures Times(x, Fp12(F6.Times(x.c0, t), F6.Negate(F6.Times(x.c1, t))))
         == Fp12(F6.Times(NormOf(x), t), F6.Zero())
  {
    var a, c := x.c0, x.c1;
    // first coefficient: a·(a·t) + v·(c·(−c·t)) = (a² − v·c²)·t
    F6.TimesAssociates(a, a, t);
    F6.TimesNegate(c, F6.Times(c, t));
    F6.TimesAssociates(c, c, t);
    F6.TimesVTimes(F6.Times(c, c), t);
    F6.TimesMinusRight(F6.Times(a, a), F6.TimesV(F6.Times(c, c)), t);
    NegateBookkeeping(F6.Times(F6.Times(a, a), t), F6.Times(F6.Times(c, c), t));
    // second coefficient: a·(−c·t) + c·(a·t) = 0
    F6.TimesNegate(a, F6.Times(c, t));
    F6.TimesSwap(a, c, t);
    CancelBookkeeping(F6.Times(c, F6.Times(a, t)));
  }

  lemma NegateBookkeeping(p: Fp6, q: Fp6)
    ensures F6.Plus(p, F6.TimesV(F6.Negate(q))) == F6.Minus(p, F6.TimesV(q))
  {
  }

  lemma CancelBookkeeping(p: Fp6)
    ensures F6.Plus(F6.Negate(p), p) == F6.Zero()
  {
  }

  /** Reducing the right factor first does not change the reduced
   *  product. */
  lemma ReduceTimesRight(b: Base.Backend, x: Fp12, y: Fp12)
    requires b.modulus > 1
    ensures Reduce(b, Times(x, Reduce(b, y))) == Reduce(b, Times(x, y))
  {
    var ry := Reduce(b, y);
    F6.ReduceTimesRight(b, x.c0, y.c0);
    F6.ReduceTimesRight(b, x.c1, y.c1);
    F6.ReduceTimesRight(b, x.c0, y.c1);
    F6.ReduceTimesRight(b, x.c1, y.c0);
    F6.MulByNonresidueOfReduced(b, F6.Times(x.c1, y.c1));
    F6.MulByNonresidueOfReduced(b, F6.Times(x.c1, ry.c1));
    F6.AddOfReduced(b, F6.Times(x.c0, y.c0), F6.TimesV(F6.Times(x.c1, y.c1)));
    F6.AddOfReduced(b, F6.Times(x.c0, ry.c0), F6.TimesV(F6.Times(x.c1, ry.c1)));
    F6.AddOfReduced(b, F6.Times(x.c0, y.c1), F6.Times(x.c1, y.c0));
    F6.AddOfReduced(b, F6.Times(x.c0, ry.c1), F6.Times(x.c1, ry.c0));
  }

  lemma AddOfReduced(b: Base.Backend, x: Fp12, y: Fp12)
    requires b.modulus > 1
    ensures Add(b, Reduce(b, x), Reduce(b, y)) == Reduce(b, Plus(x, y))
  {
    F6.AddOfReduced(b, x.c0, y.c0);
    F6.AddOfReduced(b, x.c1, y.c1);
  }

  // ---------------------------------------------------------------------
  // Frobenius map

  /** ξ^((p − 1)/6) for the BLS12-381 base field. */
  const FrobeniusCoeffC1: Fp2 :=
    F2.Fp2(3850754370037169011952147076051364057158807420970682438676050522613628423219637725072182697113062777891589506424760,
           151655185184498381465642749684540099398075398968325446656007613510403227271200139370504932015952886146304766135027)

  /** Its square is the Fp6 coefficient ξ^((p − 1)/3), as the exponents
   *  require. */
  lemma FrobeniusCoefficient(b: Base.Backend)
    requires b.modulus == Bls12.BASE_MODULUS
    ensures F2.IsReduced(b, FrobeniusCoeffC1)
    ensures F2.Mul(b, FrobeniusCoeffC1, FrobeniusCoeffC1) == F6.FrobeniusCoeffC1
  {
  }

  /** `frobenius_map`: the Fp6 map on both coefficients, the second
   *  scaled by the constant above. */
  function FrobeniusMap(b: Base.Backend, x: Fp12): (r: Fp12)
    requires b.modulus > 1
    ensures r.c0 == F6.FrobeniusMap(b, x.c0)
    ensures b.modulus == Bls12.BASE_MODULUS && IsReduced(b, x) ==> IsReduced(b, r)
  {
    var c1 := F6.FrobeniusMap(b, x.c1);
    var r := Fp12(F6.FrobeniusMap(b, x.c0), F6.Mul(b, c1, F6.FromFp2(FrobeniusCoeffC1)));
    if b.modulus == Bls12.BASE_MODULUS && IsReduced(b, x) then
      F6.FrobeniusCoefficients(b);
      FrobeniusCoefficient(b);
      F6.MulOfReduced(b, c1, F6.FromFp2(FrobeniusCoeffC1));
      r
    else
      r
  }

  /** The Frobenius map is additive and fixes one. */
  lemma FrobeniusOfSum(b: Base.Backend, x: Fp12, y: Fp12)
    requires b.modulus == Bls12.BASE_MODULUS && IsReduced(b, x) && IsReduced(b, y)
    ensures FrobeniusMap(b, Add(b, x, y)) == Add(b, FrobeniusMap(b, x), FrobeniusMap(b, y))
  {
    var k := F6.FromFp2(FrobeniusCoeffC1);
    F6.FrobeniusCoefficients(b);
    FrobeniusCoefficient(b);
    assert F6.IsReduced(b, k);
    F6.FrobeniusOfSum(b, x.c0, y.c0);
    F6.FrobeniusOfSum(b, x.c1, y.c1);
    F6.MulDistributesRight(b, F6.FrobeniusMap(b, x.c1), F6.FrobeniusMap(b, y.c1), k);
  }

  lemma FrobeniusOfOne(b: Base.Backend)
    requires b.modulus == Bls12.BASE_MODULUS
    ensures FrobeniusMap(b, One()) == One()
  {
    var k := F6.FromFp2(FrobeniusCoeffC1);
    F6.FrobeniusOfOne(b);
    F6.FrobeniusOfConstant(b, F2.Zero());
    F2.ConjugateOfZero(b);
    FrobeniusCoefficient(b);
    assert F6.IsReduced(b, k);
    F6.MulZeroLeft(b, k);
  }

  /** On the c0 half alone the map is the Fp6 map. */
  lemma FrobeniusOfLow(b: Base.Backend, a: F6.Fp6)
    requires b.modulus == Bls12.BASE_MODULUS
    ensures FrobeniusMap(b, Fp12(a, F6.Zero())) == Fp12(F6.FrobeniusMap(b, a), F6.Zero())
  {
    var k := F6.FromFp2(FrobeniusCoeffC1);
    F6.FrobeniusOfConstant(b, F2.Zero());
    F2.ConjugateOfZero(b);
    FrobeniusCoefficient(b);
    assert F6.IsReduced(b, k);
    F6.MulZeroLeft(b, k);
  }

  /** On s·w the map applies the Fp6 map to s and scales it by the
   *  constant above. */
  lemma FrobeniusOfW(b: Base.Backend, s: F6.Fp6)
    requires b.modulus == Bls12.BASE_MODULUS
    ensures FrobeniusMap(b, Fp12(F6.Zero(), s))
         == Fp12(F6.Zero(), F6.Mul(b, F6.FrobeniusMap(b, s), F6.FromFp2(FrobeniusCoeffC1)))
  {
    F6.FrobeniusOfConstant(b, F2.Zero());
    F2.ConjugateOfZero(b);
  }

  /** Every reduced element is c0 + c1·w, so `FrobeniusOfLow`,
   *  `FrobeniusOfW` and `FrobeniusOfSum` together determine the map. */
  lemma Decompose(b: Base.Backend, x: Fp12)
    requires b.modulus > 1 && IsReduced(b, x)
    ensures x == Add(b, Fp12(x.c0, F6.Zero()), Fp12(F6.Zero(), x.c1))
  {
    F6.AddZero(b, x.c0);
    F6.AddZero(b, x.c1);
  }

  // ---------------------------------------------------------------------
  // Laws of the reference product

  lemma TimesCommutes(x: Fp12, y: Fp12)
    ensures Times(x, y) == Times(y, x)
  {
    F6.TimesCommutes(x.c0, y.c0);
    F6.TimesCommutes(x.c1, y.c1);
    F6.TimesCommutes(x.c0, y.c1);
    F6.TimesCommutes(x.c1, y.c0);
    SumCommutes(F6.Times(y.c0, x.c1), F6.Times(y.c1, x.c0));
  }

  lemma TimesDistributes(x: Fp12, y: Fp12, z: Fp12)
    ensures Times(x, Plus(y, z)) == Plus(Times(x, y), Times(x, z))
  {
    F6.TimesDistributes(x.c0, y.c0, z.c0);
    F6.TimesDistributes(x.c1, y.c1, z.c1);
    F6.TimesDistributes(x.c0, y.c1, z.c1);
    F6.TimesDistributes(x.c1, y.c0, z.c0);
    DistributeBookkeeping(F6.Times(x.c0, y.c0), F6.Times(x.c0, z.c0), F6.Times(x.c1, y.c1), F6.Times(x.c1, z.c1));
    SumBookkeeping(F6.Times(x.c0, y.c1), F6.Times(x.c0, z.c1), F6.Times(x.c1, y.c0), F6.Times(x.c1, z.c0));
  }

  lemma DistributeBookkeeping(p: Fp6, q: Fp6, s: Fp6, t: Fp6)
    ensures F6.Plus(F6.Plus(p, q), F6.TimesV(F6.Plus(s, t)))
         == F6.Plus(F6.Plus(p, F6.TimesV(s)), F6.Plus(q, F6.TimesV(t)))
  {
  }

  lemma SumBookkeeping(p: Fp6, q: Fp6, s: Fp6, t: Fp6)
    ensures F6.Plus(F6.Plus(p, q), F6.Plus(s, t)) == F6.Plus(F6.Plus(p, s), F6.Plus(q, t))
  {
  }

  lemma AssociatesC0(x: Fp12, y: Fp12, z: Fp12)
    ensures Times(Times(x, y), z).c0 == Times(x, Times(y, z)).c0
  {
    var x0, x1, y0, y1, z0, z1 := x.c0, x.c1, y.c0, y.c1, z.c0, z.c1;
    // (x0y0 + v·x1y1)·z0 + v·((x0y1 + x1y0)·z1)
    F6.TimesDistributesRight(F6.Times(x0, y0), F6.TimesV(F6.Times(x1, y1)), z0);
    F6.TimesVTimes(F6.Times(x1, y1), z0);
    F6.TimesDistributesRight(F6.Times(x0, y1), F6.Times(x1, y0), z1);
    // x0·(y0z0 + v·y1z1) + v·(x1·(y0z1 + y1z0))
    F6.TimesDistributes(x0, F6.Times(y0, z0), F6.TimesV(F6.Times(y1, z1)));
    F6.TimesVTimes(x0, F6.Times(y1, z1));
    F6.TimesDistributes(x1, F6.Times(y0, z1), F6.Times(y1, z0));
    F6.TimesAssociates(x0, y0, z0);
    F6.TimesAssociates(x1, y1, z0);
    F6.TimesAssociates(x0, y1, z1);
    F6.TimesAssociates(x1, y0, z1);
    AssociateBookkeeping0(F6.Times(x0, F6.Times(y0, z0)), F6.Times(x1, F6.Times(y1, z0)),
                          F6.Times(x0, F6.Times(y1, z1)), F6.Times(x1, F6.Times(y0, z1)));
  }

  lemma AssociateBookkeeping0(a: Fp6, c: Fp6, d: Fp6, e: Fp6)
    ensures F6.Plus(F6.Plus(a, F6.TimesV(c)), F6.TimesV(F6.Plus(d, e)))
         == F6.Plus(F6.Plus(a, F6.TimesV(d)), F6.TimesV(F6.Plus(e, c)))
  {
  }

  lemma AssociatesC1(x: Fp12, y: Fp12, z: Fp12)
    ensures Times(Times(x, y), z).c1 == Times(x, Times(y, z)).c1
  {
    var x0, x1, y0, y1, z0, z1 := x.c0, x.c1, y.c0, y.c1, z.c0, z.c1;
    // (x0y0 + v·x1y1)·z1 + (x0y1 + x1y0)·z0
    F6.TimesDistributesRight(F6.Times(x0, y0), F6.TimesV(F6.Times(x1, y1)), z1);
    F6.TimesVTimes(F6.Times(x1, y1), z1);
    F6.TimesDistributesRight(F6.Times(x0, y1), F6.Times(x1, y0), z0);
    // x0·(y0z1 + y1z0) + x1·(y0z0 + v·y1z1)
    F6.TimesDistributes(x0, F6.Times(y0, z1), F6.Times(y1, z0));
    F6.TimesDistributes(x1, F6.Times(y0, z0), F6.TimesV(F6.Times(y1, z1)));
    F6.TimesVTimes(x1, F6.Times(y1, z1));
    F6.TimesAssociates(x0, y0, z1);
    F6.TimesAssociates(x1, y1, z1);
    F6.TimesAssociates(x0, y1, z0);
    F6.TimesAssociates(x1, y0, z0);
    AssociateBookkeeping1(F6.Times(x0, F6.Times(y0, z1)), F6.Times(x1, F6.Times(y1, z1)),
                          F6.Times(x0, F6.Times(y1, z0)), F6.Times(x1, F6.Times(y0, z0)));
  }

  lemma AssociateBookkeeping1(a: Fp6, c: Fp6, d: Fp6, e: Fp6)
    ensures F6.Plus(F6.Plus(a, F6.TimesV(c)), F6.Plus(d, e))
         == F6.Plus(F6.Plus(a, d), F6.Plus(e, F6.TimesV(c)))
  {
  }

  lemma TimesAssociates(x: Fp12, y: Fp12, z: Fp12)
    ensures Times(Times(x, y), z) == Times(x, Times(y, z))
  {
    AssociatesC0(x, y, z);
    AssociatesC1(x, y, z);
  }

  lemma TimesOne(x: Fp12)
    ensures Times(x, One()) == x
  {
    var z := F6.Zero();
    assert F6.One() == F6.Fp6(F2.Fp2(1, 0), F2.Fp2(0, 0), F2.Fp2(0, 0));
    assert z == F6.Fp6(F2.Fp2(0, 0), F2.Fp2(0, 0), F2.Fp2(0, 0));
    F6.TimesOne(x.c0);
    F6.TimesOne(x.c1);
    F6.TimesZero(x.c0);
    F6.TimesZero(x.c1);
    assert F6.TimesV(z) == z;
    assert F6.Plus(x.c0, z) == x.c0;
    assert F6.Plus(z, x.c1) == x.c1;
  }

  // ---------------------------------------------------------------------
  // Laws of the operations

  lemma ReduceTimesLeft(b: Base.Backend, x: Fp12, y: Fp12)
    requires b.modulus > 1
    ensures Reduce(b, Times(Reduce(b, x), y)) == Reduce(b, Times(x, y))
  {
    TimesCommutes(Reduce(b, x), y);
    TimesCommutes(x, y);
    ReduceTimesRight(b, y, x);
  }

  lemma MulCommutes(b: Base.Backend, x: Fp12, y: Fp12)
    requires b.modulus > 1 && IsReduced(b, x) && IsReduced(b, y)
    ensures Mul(b, x, y) == Mul(b, y, x)
  {
    TimesCommutes(x, y);
  }

  /** Both bracketings of a triple product reduce the exact product. */
  lemma MulLeftNested(b: Base.Backend, x: Fp12, y: Fp12, z: Fp12)
    requires b.modulus > 1 && IsReduced(b, x) && IsReduced(b, y) && IsReduced(b, z)
    ensures Mul(b, Mul(b, x, y), z) == Reduce(b, Times(Times(x, y), z))
  {
    ReduceTimesLeft(b, Times(x, y), z);
  }

  lemma MulRightNested(b: Base.Backend, x: Fp12, y: Fp12, z: Fp12)
    requires b.modulus > 1 && IsReduced(b, x) && IsReduced(b, y) && IsReduced(b, z)
    ensures Mul(b, x, Mul(b, y, z)) == Reduce(b, Times(x, Times(y, z)))
  {
    ReduceTimesRight(b, x, Times(y, z));
  }

  lemma MulAssociates(b: Base.Backend, x: Fp12, y: Fp12, z: Fp12)
    requires b.modulus > 1 && IsReduced(b, x) && IsReduced(b, y) && IsReduced(b, z)
    ensures Mul(b, Mul(b, x, y), z) == Mul(b, x, Mul(b, y, z))
  {
    MulLeftNested(b, x, y, z);
    MulRightNested(b, x, y, z);
    TimesAssociates(x, y, z);
  }

  lemma MulDistributes(b: Base.Backend, x: Fp12, y: Fp12, z: Fp12)
    requires b.modulus > 1 && IsReduced(b, x) && IsReduced(b, y) && IsReduced(b, z)
    ensures Mul(b, x, Add(b, y, z)) == Add(b, Mul(b, x, y), Mul(b, x, z))
  {
    ReduceReduced(b, y);
    ReduceReduced(b, z);
    AddOfReduced(b, y, z);
    ReduceTimesRight(b, x, Plus(y, z));
    TimesDistributes(x, y, z);
    AddOfReduced(b, Times(x, y), Times(x, z));
  }

  lemma OneReduced(b: Base.Backend)
    requires b.modulus > 1
    ensures IsReduced(b, One())
  {
    assert F6.IsReduced(b, One().c0) && F6.IsReduced(b, One().c1);
  }

  lemma MulOne(b: Base.Backend, x: Fp12)
    requires b.modulus > 1 && IsReduced(b, x)
    ensures Mul(b, x, One()) == x
  {
    TimesOne(x);
    ReduceReduced(b, x);
    assert Reduce(b, Times(x, One())) == x;
    assert IsReduced(b, One());
  }

  /** An element has at most one inverse. */
  lemma InverseUnique(b: Base.Backend, a: Fp12, u: Fp12, w: Fp12)
    requires b.modulus > 1 && IsReduced(b, a) && IsReduced(b, u) && IsReduced(b, w)
    requires Mul(b, a, u) == One() && Mul(b, a, w) == One()
    ensures u == w
  {
    MulOne(b, u);
    MulAssociates(b, u, a, w);
    MulCommutes(b, u, a);
    MulCommutes(b, One(), w);
    MulOne(b, w);
  }

  /** Exchanging the outer factors of a triple product. */
  lemma MulExchange(b: Base.Backend, x: Fp12, y: Fp12, z: Fp12)
    requires b.modulus > 1 && IsReduced(b, x) && IsReduced(b, y) && IsReduced(b, z)
    ensures Mul(b, x, Mul(b, y, z)) == Mul(b, y, Mul(b, x, z))
  {
    MulAssociates(b, x, y, z);
    MulCommutes(b, x, y);
    MulAssociates(b, y, x, z);
  }

  /** The product of two inverses inverts the product. */
  lemma ProductOfInverses(b: Base.Backend, x: Fp12, y: Fp12, u: Fp12, w: Fp12)
    requires b.modulus > 1 && IsReduced(b, x) && IsReduced(b, y) && IsReduced(b, u) && IsReduced(b, w)
    requires Mul(b, x, u) == One() && Mul(b, y, w) == One()
    ensures Mul(b, Mul(b, x, y), Mul(b, u, w)) == One()
  {
    MulAssociates(b, x, y, Mul(b, u, w));
    MulCancels(b, y, u, w);
  }

  lemma MulCancels(b: Base.Backend, y: Fp12, u: Fp12, w: Fp12)
    requires b.modulus > 1 && IsReduced(b, y) && IsReduced(b, u) && IsReduced(b, w)
    requires Mul(b, y, w) == One()
    ensures Mul(b, y, Mul(b, u, w)) == u
  {
    MulExchange(b, y, u, w);
    MulOne(b, u);
  }

  /** The inverse of a product is the product of the inverses. */
  lemma InvertOfProduct(b: Base.Backend, x: Fp12, y: Fp12)
    requires b.modulus > 1 && IsReduced(b, x) && IsReduced(b, y)
    requires Invert(b, x).Some? && Invert(b, y).Some? && Invert(b, Mul(b, x, y)).Some?
    ensures Invert(b, Mul(b, x, y)).value == Mul(b, Invert(b, x).value, Invert(b, y).value)
  {
    var xi, yi := Invert(b, x).value, Invert(b, y).value;
    var xy := Mul(b, x, y);
    ProductOfInverses(b, x, y, xi, yi);
    InverseUnique(b, xy, Invert(b, xy).value, Mul(b, xi, yi));
  }

  /** The identity the program checks: (a + b)·c² = c·c·a + c·c·b. */
  lemma SumTimesSquare(b: Base.Backend, x: Fp12, y: Fp12, z: Fp12)
    requires b.modulus > 1 && IsReduced(b, x) && IsReduced(b, y) && IsReduced(b, z)
    ensures Mul(b, Add(b, x, y), Square(b, z))
         == Add(b, Mul(b, Mul(b, z, z), x), Mul(b, Mul(b, z, z), y))
  {
    var zz := Mul(b, z, z);
    ReduceReduced(b, x);
    ReduceReduced(b, y);
    AddOfReduced(b, x, y);
    MulCommutes(b, Add(b, x, y), zz);
    MulDistributes(b, zz, x, y);
  }

  lemma ConjugateInvolution(b: Base.Backend, x: Fp12)
    requires b.modulus > 1 && IsReduced(b, x)
    ensures Conjugate(b, Conjugate(b, x)) == x
  {
    F6.NegOfReduced(b, F6.Negate(x.c1));
    assert F6.Negate(F6.Negate(x.c1)) == x.c1;
    F6.ReduceReduced(b, x.c1);
  }
}
