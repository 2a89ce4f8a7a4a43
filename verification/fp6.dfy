/** The cubic extension Fp6 = Fp2[v]/(v³ − ξ), ξ = u + 1, of
 *  `fields/fp6.rs`.
 *
 *  As for Fp2, every operation of the program is tied to a reference
 *  product without reduction (`Times`, the schoolbook product over the
 *  reference Fp2 arithmetic): on reduced inputs the program's Karatsuba
 *  multiplication, its squaring and its sparse products all return the
 *  reduced reference product. */
module Fp6Field {
  import opened Wrappers
  import Base = Montgomery
  import F2 = Fp2Field
  import Bls12

  type Fp2 = F2.Fp2

  /** c0 + c1·v + c2·v². */
  datatype Fp6 = Fp6(c0: Fp2, c1: Fp2, c2: Fp2)

  // ---------------------------------------------------------------------
  // Reference arithmetic

  function Plus(x: Fp6, y: Fp6): Fp6
  {
    Fp6(F2.Plus(x.c0, y.c0), F2.Plus(x.c1, y.c1), F2.Plus(x.c2, y.c2))
  }

  function Minus(x: Fp6, y: Fp6): Fp6
  {
    Fp6(F2.Minus(x.c0, y.c0), F2.Minus(x.c1, y.c1), F2.Minus(x.c2, y.c2))
  }

  function Negate(x: Fp6): Fp6
  {
    Fp6(F2.Negate(x.c0), F2.Negate(x.c1), F2.Negate(x.c2))
  }

  /** The schoolbook product, using v³ = ξ. */
  function Times(x: Fp6, y: Fp6): Fp6
  {
    Fp6(
      F2.Plus(F2.Times(x.c0, y.c0), F2.TimesXi(F2.Plus(F2.Times(x.c1, y.c2), F2.Times(x.c2, y.c1)))),
      F2.Plus(F2.Plus(F2.Times(x.c0, y.c1), F2.Times(x.c1, y.c0)), F2.TimesXi(F2.Times(x.c2, y.c2))),
      F2.Plus(F2.Plus(F2.Times(x.c0, y.c2), F2.Times(x.c1, y.c1)), F2.Times(x.c2, y.c0)))
  }

  /** Multiplication by v: (c0, c1, c2) ↦ (ξ·c2, c0, c1). */
  function TimesV(x: Fp6): Fp6
  {
    Fp6(F2.TimesXi(x.c2), x.c0, x.c1)
  }

  /** An Fp2 value as the constant c0 + 0·v + 0·v². */
  function Scalar(s: Fp2): Fp6
  {
    Fp6(s, F2.Fp2(0, 0), F2.Fp2(0, 0))
  }

  predicate IsReduced(b: Base.Backend, x: Fp6)
  {
    F2.IsReduced(b, x.c0) && F2.IsReduced(b, x.c1) && F2.IsReduced(b, x.c2)
  }

  function Reduce(b: Base.Backend, x: Fp6): (r: Fp6)
    requires b.modulus > 1
    ensures IsReduced(b, r)
  {
    Fp6(F2.Reduce(b, x.c0), F2.Reduce(b, x.c1), F2.Reduce(b, x.c2))
  }

  lemma ReduceReduced(b: Base.Backend, x: Fp6)
    requires b.modulus > 1 && IsReduced(b, x)
    ensures Reduce(b, x) == x
  {
    F2.ReduceReduced(b, x.c0);
    F2.ReduceReduced(b, x.c1);
    F2.ReduceReduced(b, x.c2);
  }

  // ---------------------------------------------------------------------
  // The operations of `Fp6`

  function Zero(): Fp6
  {
    Fp6(F2.Zero(), F2.Zero(), F2.Zero())
  }

  function One(): Fp6
  {
    Fp6(F2.One(), F2.Zero(), F2.Zero())
  }

  predicate IsZero(x: Fp6)
  {
    F2.IsZero(x.c0) && F2.IsZero(x.c1) && F2.IsZero(x.c2)
  }

  predicate IsOne(x: Fp6)
  {
    F2.IsOne(x.c0) && F2.IsZero(x.c1) && F2.IsZero(x.c2)
  }

  /** `From<Fp2>`: the element as the constant coefficient. */
  function FromFp2(s: Fp2): (r: Fp6)
    ensures r.c0 == s && IsZero(Fp6(F2.Zero(), r.c1, r.c2))
  {
    Fp6(s, F2.Zero(), F2.Zero())
  }

  function Neg(b: Base.Backend, x: Fp6): (r: Fp6)
    requires b.modulus > 1
    ensures r == Reduce(b, Negate(x))
  {
    Fp6(F2.Neg(b, x.c0), F2.Neg(b, x.c1), F2.Neg(b, x.c2))
  }

  function Sub(b: Base.Backend, x: Fp6, y: Fp6): (r: Fp6)
    requires b.modulus > 1
    ensures r == Reduce(b, Minus(x, y))
  {
    Fp6(F2.Sub(b, x.c0, y.c0), F2.Sub(b, x.c1, y.c1), F2.Sub(b, x.c2, y.c2))
  }

  function Add(b: Base.Backend, x: Fp6, y: Fp6): (r: Fp6)
    requires b.modulus > 1
    ensures IsReduced(b, x) && IsReduced(b, y) ==> r == Reduce(b, Plus(x, y))
  {
    Fp6(F2.Add(b, x.c0, y.c0), F2.Add(b, x.c1, y.c1), F2.Add(b, x.c2, y.c2))
  }

  /** `mul`: Karatsuba over Fp2 with the three products a0·b0, a1·b1,
   *  a2·b2. */
  function Mul(b: Base.Backend, x: Fp6, y: Fp6): (r: Fp6)
    requires b.modulus > 1
    ensures IsReduced(b, x) && IsReduced(b, y) ==> r == Reduce(b, Times(x, y))
  {
    var aa := F2.Mul(b, x.c0, y.c0);
    var bb := F2.Mul(b, x.c1, y.c1);
    var cc := F2.Mul(b, x.c2, y.c2);
    var t1 := F2.Sub(b, F2.Sub(b, F2.Mul(b, F2.Add(b, x.c1, x.c2), F2.Add(b, y.c1, y.c2)), bb), cc);
    var t1 := F2.Add(b, F2.MulByNonresidue(b, t1), aa);
    var t2 := F2.Sub(b, F2.Sub(b, F2.Mul(b, F2.Add(b, x.c0, x.c1), F2.Add(b, y.c0, y.c1)), aa), bb);
    var t2 := F2.Add(b, t2, F2.MulByNonresidue(b, cc));
    var t3 := F2.Sub(b, F2.Add(b, F2.Sub(b, F2.Mul(b, F2.Add(b, x.c0, x.c2), F2.Add(b, y.c0, y.c2)), aa), bb), cc);
    KaratsubaIsProduct(b, x, y, Fp6(t1, t2, t3));
    Fp6(t1, t2, t3)
  }

  lemma KaratsubaIsProduct(b: Base.Backend, x: Fp6, y: Fp6, r: Fp6)
    requires b.modulus > 1
    requires
      var aa := F2.Mul(b, x.c0, y.c0);
      var bb := F2.Mul(b, x.c1, y.c1);
      var cc := F2.Mul(b, x.c2, y.c2);
      && r.c0 == F2.Add(b, F2.MulByNonresidue(b, F2.Sub(b, F2.Sub(b, F2.Mul(b, F2.Add(b, x.c1, x.c2), F2.Add(b, y.c1, y.c2)), bb), cc)), aa)
      && r.c1 == F2.Add(b, F2.Sub(b, F2.Sub(b, F2.Mul(b, F2.Add(b, x.c0, x.c1), F2.Add(b, y.c0, y.c1)), aa), bb), F2.MulByNonresidue(b, cc))
      && r.c2 == F2.Sub(b, F2.Add(b, F2.Sub(b, F2.Mul(b, F2.Add(b, x.c0, x.c2), F2.Add(b, y.c0, y.c2)), aa), bb), cc)
    ensures IsReduced(b, x) && IsReduced(b, y) ==> r == Reduce(b, Times(x, y))
  {
    if IsReduced(b, x) && IsReduced(b, y) {
      KaratsubaC0(b, x, y);
      KaratsubaC1(b, x, y);
      KaratsubaC2(b, x, y);
    }
  }

  /** (a + c)(x + y) − a·x, computed by the code on reduced inputs. */
  lemma PartialCross(b: Base.Backend, a: Fp2, c: Fp2, x: Fp2, y: Fp2)
    requires b.modulus > 1
    requires F2.IsReduced(b, a) && F2.IsReduced(b, c) && F2.IsReduced(b, x) && F2.IsReduced(b, y)
    ensures F2.Sub(b, F2.Mul(b, F2.Add(b, a, c), F2.Add(b, x, y)), F2.Mul(b, a, x))
         == F2.Reduce(b, F2.Minus(F2.Times(F2.Plus(a, c), F2.Plus(x, y)), F2.Times(a, x)))
  {
    F2.ReduceReduced(b, a);
    F2.ReduceReduced(b, c);
    F2.ReduceReduced(b, x);
    F2.ReduceReduced(b, y);
    F2.MulOfReduced(b, F2.Plus(a, c), F2.Plus(x, y));
    F2.SubOfReduced(b, F2.Times(F2.Plus(a, c), F2.Plus(x, y)), F2.Times(a, x));
  }

  /** One Karatsuba cross term, (a + c)(x + y) − a·x − c·y, computed by
   *  the code on reduced inputs. */
  lemma CrossTerm(b: Base.Backend, a: Fp2, c: Fp2, x: Fp2, y: Fp2)
    requires b.modulus > 1
    requires F2.IsReduced(b, a) && F2.IsReduced(b, c) && F2.IsReduced(b, x) && F2.IsReduced(b, y)
    ensures F2.Sub(b, F2.Sub(b, F2.Mul(b, F2.Add(b, a, c), F2.Add(b, x, y)), F2.Mul(b, a, x)), F2.Mul(b, c, y))
         == F2.Reduce(b, F2.Plus(F2.Times(a, y), F2.Times(c, x)))
  {
    PartialCross(b, a, c, x, y);
    F2.ReduceReduced(b, c);
    F2.ReduceReduced(b, y);
    F2.MulOfReduced(b, c, y);
    F2.SubOfReduced(b, F2.Minus(F2.Times(F2.Plus(a, c), F2.Plus(x, y)), F2.Times(a, x)), F2.Times(c, y));
    KaratsubaCross(a, c, x, y);
  }

  lemma KaratsubaC0(b: Base.Backend, x: Fp6, y: Fp6)
    requires b.modulus > 1 && IsReduced(b, x) && IsReduced(b, y)
    ensures F2.Add(b, F2.MulByNonresidue(b, F2.Sub(b, F2.Sub(b, F2.Mul(b, F2.Add(b, x.c1, x.c2), F2.Add(b, y.c1, y.c2)), F2.Mul(b, x.c1, y.c1)), F2.Mul(b, x.c2, y.c2))), F2.Mul(b, x.c0, y.c0))
         == Reduce(b, Times(x, y)).c0
  {
    var cross := F2.Plus(F2.Times(x.c1, y.c2), F2.Times(x.c2, y.c1));
    CrossTerm(b, x.c1, x.c2, y.c1, y.c2);
    F2.MulByNonresidueOfReduced(b, cross);
    F2.ReduceReduced(b, x.c0);
    F2.ReduceReduced(b, y.c0);
    F2.MulOfReduced(b, x.c0, y.c0);
    F2.AddOfReduced(b, F2.TimesXi(cross), F2.Times(x.c0, y.c0));
  }

  lemma KaratsubaC1(b: Base.Backend, x: Fp6, y: Fp6)
    requires b.modulus > 1 && IsReduced(b, x) && IsReduced(b, y)
    ensures F2.Add(b, F2.Sub(b, F2.Sub(b, F2.Mul(b, F2.Add(b, x.c0, x.c1), F2.Add(b, y.c0, y.c1)), F2.Mul(b, x.c0, y.c0)), F2.Mul(b, x.c1, y.c1)), F2.MulByNonresidue(b, F2.Mul(b, x.c2, y.c2)))
         == Reduce(b, Times(x, y)).c1
  {
    var cross := F2.Plus(F2.Times(x.c0, y.c1), F2.Times(x.c1, y.c0));
    CrossTerm(b, x.c0, x.c1, y.c0, y.c1);
    F2.ReduceReduced(b, x.c2);
    F2.ReduceReduced(b, y.c2);
    F2.MulOfReduced(b, x.c2, y.c2);
    F2.MulByNonresidueOfReduced(b, F2.Times(x.c2, y.c2));
    F2.AddOfReduced(b, cross, F2.TimesXi(F2.Times(x.c2, y.c2)));
  }

  lemma KaratsubaC2(b: Base.Backend, x: Fp6, y: Fp6)
    requires b.modulus > 1 && IsReduced(b, x) && IsReduced(b, y)
    ensures F2.Sub(b, F2.Add(b, F2.Sub(b, F2.Mul(b, F2.Add(b, x.c0, x.c2), F2.Add(b, y.c0, y.c2)), F2.Mul(b, x.c0, y.c0)), F2.Mul(b, x.c1, y.c1)), F2.Mul(b, x.c2, y.c2))
         == Reduce(b, Times(x, y)).c2
  {
    var d := F2.Minus(F2.Times(F2.Plus(x.c0, x.c2), F2.Plus(y.c0, y.c2)), F2.Times(x.c0, y.c0));
    PartialCross(b, x.c0, x.c2, y.c0, y.c2);
    F2.ReduceReduced(b, x.c1);
    F2.ReduceReduced(b, y.c1);
    F2.ReduceReduced(b, x.c2);
    F2.ReduceReduced(b, y.c2);
    F2.MulOfReduced(b, x.c1, y.c1);
    F2.MulOfReduced(b, x.c2, y.c2);
    F2.AddOfReduced(b, d, F2.Times(x.c1, y.c1));
    F2.SubOfReduced(b, F2.Plus(d, F2.Times(x.c1, y.c1)), F2.Times(x.c2, y.c2));
    KaratsubaThird(x, y);
  }

  lemma KaratsubaThird(x: Fp6, y: Fp6)
    ensures F2.Minus(F2.Plus(F2.Minus(F2.Times(F2.Plus(x.c0, x.c2), F2.Plus(y.c0, y.c2)), F2.Times(x.c0, y.c0)), F2.Times(x.c1, y.c1)), F2.Times(x.c2, y.c2))
         == Times(x, y).c2
  {
    F2.TimesBilinear(x.c0, x.c2, y.c0, y.c2);
  }

  /** (a + c)(x + y) − a·x − c·y = a·y + c·x in the reference Fp2. */
  lemma KaratsubaCross(a: Fp2, c: Fp2, x: Fp2, y: Fp2)
    ensures F2.Minus(F2.Minus(F2.Times(F2.Plus(a, c), F2.Plus(x, y)), F2.Times(a, x)), F2.Times(c, y))
         == F2.Plus(F2.Times(a, y), F2.Times(c, x))
  {
    F2.TimesBilinear(a, c, x, y);
  }

  /** `mul_by_c0_c1`: the product with c0 + c1·v, skipping the products
   *  with the zero coefficient. */
  function MulByC0C1(b: Base.Backend, a: Fp6, c0: Fp2, c1: Fp2): (r: Fp6)
    requires b.modulus > 1
    ensures IsReduced(b, a) && F2.IsReduced(b, c0) && F2.IsReduced(b, c1) ==>
      r == Reduce(b, Times(a, Fp6(c0, c1, F2.Zero())))
  {
    var aa := F2.Mul(b, a.c0, c0);
    var bb := F2.Mul(b, a.c1, c1);
    var t1 := F2.Add(b, F2.MulByNonresidue(b, F2.Mul(b, a.c2, c1)), aa);
    var t2 := F2.Sub(b, F2.Sub(b, F2.Mul(b, F2.Add(b, c0, c1), F2.Add(b, a.c0, a.c1)), aa), bb);
    var t3 := F2.Add(b, F2.Mul(b, a.c2, c0), bb);
    if IsReduced(b, a) && F2.IsReduced(b, c0) && F2.IsReduced(b, c1) then
      SparseC0(b, a, c0, c1);
      SparseC1(b, a, c0, c1);
      SparseC2(b, a, c0, c1);
      SparseProduct(a, c0, c1);
      Fp6(t1, t2, t3)
    else
      Fp6(t1, t2, t3)
  }

  /** The product with c0 + c1·v written without its zero terms. */
  lemma SparseProduct(a: Fp6, c0: Fp2, c1: Fp2)
    ensures Times(a, Fp6(c0, c1, F2.Zero()))
         == Fp6(F2.Plus(F2.TimesXi(F2.Times(a.c2, c1)), F2.Times(a.c0, c0)),
                F2.Plus(F2.Times(c0, a.c1), F2.Times(c1, a.c0)),
                F2.Plus(F2.Times(a.c2, c0), F2.Times(a.c1, c1)))
  {
    F2.TimesCommutes(c0, a.c1);
    F2.TimesCommutes(c1, a.c0);
  }

  lemma SparseC0(b: Base.Backend, a: Fp6, c0: Fp2, c1: Fp2)
    requires b.modulus > 1 && IsReduced(b, a) && F2.IsReduced(b, c0) && F2.IsReduced(b, c1)
    ensures F2.Add(b, F2.MulByNonresidue(b, F2.Mul(b, a.c2, c1)), F2.Mul(b, a.c0, c0))
         == F2.Reduce(b, F2.Plus(F2.TimesXi(F2.Times(a.c2, c1)), F2.Times(a.c0, c0)))
  {
    F2.ReduceReduced(b, a.c0); F2.ReduceReduced(b, a.c2);
    F2.ReduceReduced(b, c0); F2.ReduceReduced(b, c1);
    F2.MulOfReduced(b, a.c2, c1);
    F2.MulByNonresidueOfReduced(b, F2.Times(a.c2, c1));
    F2.MulOfReduced(b, a.c0, c0);
    F2.AddOfReduced(b, F2.TimesXi(F2.Times(a.c2, c1)), F2.Times(a.c0, c0));
  }

  lemma SparseC1(b: Base.Backend, a: Fp6, c0: Fp2, c1: Fp2)
    requires b.modulus > 1 && IsReduced(b, a) && F2.IsReduced(b, c0) && F2.IsReduced(b, c1)
    ensures F2.Sub(b, F2.Sub(b, F2.Mul(b, F2.Add(b, c0, c1), F2.Add(b, a.c0, a.c1)), F2.Mul(b, a.c0, c0)), F2.Mul(b, a.c1, c1))
         == F2.Reduce(b, F2.Plus(F2.Times(c0, a.c1), F2.Times(c1, a.c0)))
  {
    F2.MulCommutes(b, a.c0, c0);
    F2.MulCommutes(b, a.c1, c1);
    CrossTerm(b, c0, c1, a.c0, a.c1);
  }

  lemma SparseC2(b: Base.Backend, a: Fp6, c0: Fp2, c1: Fp2)
    requires b.modulus > 1 && IsReduced(b, a) && F2.IsReduced(b, c0) && F2.IsReduced(b, c1)
    ensures F2.Add(b, F2.Mul(b, a.c2, c0), F2.Mul(b, a.c1, c1))
         == F2.Reduce(b, F2.Plus(F2.Times(a.c2, c0), F2.Times(a.c1, c1)))
  {
    F2.ReduceReduced(b, a.c1); F2.ReduceReduced(b, a.c2);
    F2.ReduceReduced(b, c0); F2.ReduceReduced(b, c1);
    F2.MulOfReduced(b, a.c2, c0);
    F2.MulOfReduced(b, a.c1, c1);
    F2.AddOfReduced(b, F2.Times(a.c2, c0), F2.Times(a.c1, c1));
  }

  /** `mul_by_c1`: the product with c1·v. */
  function MulByC1(b: Base.Backend, a: Fp6, c1: Fp2): (r: Fp6)
    requires b.modulus > 1
    ensures IsReduced(b, a) && F2.IsReduced(b, c1) ==>
      r == Reduce(b, Times(a, Fp6(F2.Zero(), c1, F2.Zero())))
  {
    var r := Fp6(F2.MulByNonresidue(b, F2.Mul(b, a.c2, c1)), F2.Mul(b, a.c0, c1), F2.Mul(b, a.c1, c1));
    if IsReduced(b, a) && F2.IsReduced(b, c1) then
      SparseC1Product(b, a, c1);
      r
    else
      r
  }

  lemma SparseC1Product(b: Base.Backend, a: Fp6, c1: Fp2)
    requires b.modulus > 1 && IsReduced(b, a) && F2.IsReduced(b, c1)
    ensures Fp6(F2.MulByNonresidue(b, F2.Mul(b, a.c2, c1)), F2.Mul(b, a.c0, c1), F2.Mul(b, a.c1, c1))
         == Reduce(b, Times(a, Fp6(F2.Zero(), c1, F2.Zero())))
  {
    F2.ReduceReduced(b, a.c0); F2.ReduceReduced(b, a.c1); F2.ReduceReduced(b, a.c2);
    F2.ReduceReduced(b, c1);
    F2.MulOfReduced(b, a.c2, c1);
    F2.MulByNonresidueOfReduced(b, F2.Times(a.c2, c1));
    F2.MulOfReduced(b, a.c0, c1);
    F2.MulOfReduced(b, a.c1, c1);
    SparseC1Exact(a, c1);
  }

  /** The product with c1·v written without its zero terms. */
  lemma SparseC1Exact(a: Fp6, c1: Fp2)
    ensures Times(a, Fp6(F2.Zero(), c1, F2.Zero()))
         == Fp6(F2.TimesXi(F2.Times(a.c2, c1)), F2.Times(a.c0, c1), F2.Times(a.c1, c1))
  {
  }

  /** `mul_by_nonresidue`: multiplication by v. */
  function MulByNonresidue(b: Base.Backend, a: Fp6): (r: Fp6)
    requires b.modulus > 1
    ensures IsReduced(b, a) ==> r == Reduce(b, TimesV(a))
    ensures IsReduced(b, a) ==> r == Mul(b, a, Fp6(F2.Zero(), F2.One(), F2.Zero()))
  {
    if IsReduced(b, a) then
      TimesVIsMul(b, a);
      F2.ReduceReduced(b, a.c0); F2.ReduceReduced(b, a.c1); F2.ReduceReduced(b, a.c2);
      F2.MulByNonresidueOfReduced(b, a.c2);
      Fp6(F2.MulByNonresidue(b, a.c2), a.c0, a.c1)
    else
      Fp6(F2.MulByNonresidue(b, a.c2), a.c0, a.c1)
  }

  lemma TimesVIsMul(b: Base.Backend, a: Fp6)
    requires b.modulus > 1 && IsReduced(b, a)
    ensures Reduce(b, TimesV(a)) == Mul(b, a, Fp6(F2.Zero(), F2.One(), F2.Zero()))
  {
    var v := Fp6(F2.Zero(), F2.One(), F2.Zero());
    assert IsReduced(b, v);
    TimesVIsProduct(a);
    assert Mul(b, a, v) == Reduce(b, Times(a, v));
  }

  /** Multiplying by v is multiplying by the element v = 0 + 1·v + 0·v². */
  lemma TimesVIsProduct(x: Fp6)
    ensures TimesV(x) == Times(x, Fp6(F2.Zero(), F2.One(), F2.Zero()))
  {
  }

  /** `square`: the CH-SQR2 squaring of Chung and Hasan, with five Fp2
   *  squarings and products. */
  function Square(b: Base.Backend, x: Fp6): (r: Fp6)
    requires b.modulus > 1
    ensures IsReduced(b, x) ==> r == Reduce(b, Times(x, x))
    ensures IsReduced(b, x) ==> r == Mul(b, x, x)
  {
    var s0 := F2.Square(b, x.c0);
    var ab := F2.Mul(b, x.c0, x.c1);
    var s1 := F2.Double(b, ab);
    var s2 := F2.Square(b, F2.Add(b, F2.Sub(b, x.c0, x.c1), x.c2));
    var bc := F2.Mul(b, x.c1, x.c2);
    var s3 := F2.Double(b, bc);
    var s4 := F2.Square(b, x.c2);
    var r := Fp6(
      F2.Add(b, F2.MulByNonresidue(b, s3), s0),
      F2.Add(b, F2.MulByNonresidue(b, s4), s1),
      F2.Sub(b, F2.Sub(b, F2.Add(b, F2.Add(b, s1, s2), s3), s0), s4));
    if IsReduced(b, x) then
      SquareC0(b, x);
      SquareC1(b, x);
      SquareC2(b, x);
      r
    else
      r
  }

  /** The doubled product 2·a·c computed by the code on reduced inputs. */
  lemma DoubledProduct(b: Base.Backend, a: Fp2, c: Fp2)
    requires b.modulus > 1 && F2.IsReduced(b, a) && F2.IsReduced(b, c)
    ensures F2.Double(b, F2.Mul(b, a, c)) == F2.Reduce(b, F2.Plus(F2.Times(a, c), F2.Times(a, c)))
  {
    F2.AddOfReduced(b, F2.Times(a, c), F2.Times(a, c));
  }

  /** a² computed by the code on a reduced input. */
  lemma SquaredCoefficient(b: Base.Backend, a: Fp2)
    requires b.modulus > 1 && F2.IsReduced(b, a)
    ensures F2.Square(b, a) == F2.Reduce(b, F2.Times(a, a))
  {
  }

  lemma SquareC0(b: Base.Backend, x: Fp6)
    requires b.modulus > 1 && IsReduced(b, x)
    ensures F2.Add(b, F2.MulByNonresidue(b, F2.Double(b, F2.Mul(b, x.c1, x.c2))), F2.Square(b, x.c0))
         == Reduce(b, Times(x, x)).c0
  {
    var d := F2.Plus(F2.Times(x.c1, x.c2), F2.Times(x.c1, x.c2));
    DoubledProduct(b, x.c1, x.c2);
    SquaredCoefficient(b, x.c0);
    F2.MulByNonresidueOfReduced(b, d);
    F2.AddOfReduced(b, F2.TimesXi(d), F2.Times(x.c0, x.c0));
    F2.TimesCommutes(x.c2, x.c1);
  }

  lemma SquareC1(b: Base.Backend, x: Fp6)
    requires b.modulus > 1 && IsReduced(b, x)
    ensures F2.Add(b, F2.MulByNonresidue(b, F2.Square(b, x.c2)), F2.Double(b, F2.Mul(b, x.c0, x.c1)))
         == Reduce(b, Times(x, x)).c1
  {
    var d := F2.Plus(F2.Times(x.c0, x.c1), F2.Times(x.c0, x.c1));
    DoubledProduct(b, x.c0, x.c1);
    SquaredCoefficient(b, x.c2);
    F2.MulByNonresidueOfReduced(b, F2.Times(x.c2, x.c2));
    F2.AddOfReduced(b, F2.TimesXi(F2.Times(x.c2, x.c2)), d);
    F2.TimesCommutes(x.c1, x.c0);
  }

  lemma SquareC2(b: Base.Backend, x: Fp6)
    requires b.modulus > 1 && IsReduced(b, x)
    ensures
      var s0, s4 := F2.Square(b, x.c0), F2.Square(b, x.c2);
      var s1 := F2.Double(b, F2.Mul(b, x.c0, x.c1));
      var s3 := F2.Double(b, F2.Mul(b, x.c1, x.c2));
      var s2 := F2.Square(b, F2.Add(b, F2.Sub(b, x.c0, x.c1), x.c2));
      F2.Sub(b, F2.Sub(b, F2.Add(b, F2.Add(b, s1, s2), s3), s0), s4) == Reduce(b, Times(x, x)).c2
  {
    var t01 := F2.Plus(F2.Times(x.c0, x.c1), F2.Times(x.c0, x.c1));
    var t12 := F2.Plus(F2.Times(x.c1, x.c2), F2.Times(x.c1, x.c2));
    var w := F2.Plus(F2.Minus(x.c0, x.c1), x.c2);
    DoubledProduct(b, x.c0, x.c1);
    DoubledProduct(b, x.c1, x.c2);
    SquaredCoefficient(b, x.c0);
    SquaredCoefficient(b, x.c2);
    F2.ReduceReduced(b, x.c2);
    F2.AddOfReduced(b, F2.Minus(x.c0, x.c1), x.c2);
    F2.MulOfReduced(b, w, w);
    F2.AddOfReduced(b, t01, F2.Times(w, w));
    F2.AddOfReduced(b, F2.Plus(t01, F2.Times(w, w)), t12);
    F2.SubOfReduced(b, F2.Plus(F2.Plus(t01, F2.Times(w, w)), t12), F2.Times(x.c0, x.c0));
    F2.SubOfReduced(b, F2.Minus(F2.Plus(F2.Plus(t01, F2.Times(w, w)), t12), F2.Times(x.c0, x.c0)), F2.Times(x.c2, x.c2));
    SquareThird(x);
  }

  /** The exact identity behind the third coefficient of CH-SQR2:
   *  2ab + (a − b + c)² + 2bc − a² − c² = 2ac + b². */
  lemma SquareThird(x: Fp6)
    ensures
      var t01 := F2.Plus(F2.Times(x.c0, x.c1), F2.Times(x.c0, x.c1));
      var t12 := F2.Plus(F2.Times(x.c1, x.c2), F2.Times(x.c1, x.c2));
      var w := F2.Plus(F2.Minus(x.c0, x.c1), x.c2);
      F2.Minus(F2.Minus(F2.Plus(F2.Plus(t01, F2.Times(w, w)), t12), F2.Times(x.c0, x.c0)), F2.Times(x.c2, x.c2))
        == Times(x, x).c2
  {
    SquareThirdC0(x.c0.c0, x.c0.c1, x.c1.c0, x.c1.c1, x.c2.c0, x.c2.c1);
    SquareThirdC1(x.c0.c0, x.c0.c1, x.c1.c0, x.c1.c1, x.c2.c0, x.c2.c1);
  }

  lemma SquareThirdC0(a0: int, a1: int, b0: int, b1: int, c0: int, c1: int)
    ensures
      var w0, w1 := a0 - b0 + c0, a1 - b1 + c1;
      2 * (a0 * b0 - a1 * b1) + (w0 * w0 - w1 * w1) + 2 * (b0 * c0 - b1 * c1)
        - (a0 * a0 - a1 * a1) - (c0 * c0 - c1 * c1)
      == (a0 * c0 - a1 * c1) + (b0 * b0 - b1 * b1) + (c0 * a0 - c1 * a1)
  {
  }

  lemma SquareThirdC1(a0: int, a1: int, b0: int, b1: int, c0: int, c1: int)
    ensures
      var w0, w1 := a0 - b0 + c0, a1 - b1 + c1;
      2 * (a0 * b1 + a1 * b0) + (w0 * w1 + w1 * w0) + 2 * (b0 * c1 + b1 * c0)
        - (a0 * a1 + a1 * a0) - (c0 * c1 + c1 * c0)
      == (a0 * c1 + a1 * c0) + (b0 * b1 + b1 * b0) + (c0 * a1 + c1 * a0)
  {
  }

  /** The adjugate of x: the coefficients the program computes before
   *  dividing by the norm. */
  function Adjugate(x: Fp6): Fp6
  {
    Fp6(F2.Minus(F2.Times(x.c0, x.c0), F2.TimesXi(F2.Times(x.c1, x.c2))),
        F2.Minus(F2.TimesXi(F2.Times(x.c2, x.c2)), F2.Times(x.c0, x.c1)),
        F2.Minus(F2.Times(x.c1, x.c1), F2.Times(x.c0, x.c2)))
  }

  /** The norm of x down to Fp2: x times its adjugate. */
  function NormOf(x: Fp6): Fp2
  {
    var a := Adjugate(x);
    F2.Plus(F2.TimesXi(F2.Plus(F2.Times(x.c1, a.c2), F2.Times(x.c2, a.c1))), F2.Times(x.c0, a.c0))
  }

  /** Every coefficient multiplied by the same Fp2 value. */
  function ScaleBy(t: Fp2, x: Fp6): Fp6
  {
    Fp6(F2.Times(t, x.c0), F2.Times(t, x.c1), F2.Times(t, x.c2))
  }

  /** `invert`: the adjugate divided by the norm; None for zero and when
   *  the norm has no inverse in Fp2. */
  function Invert(b: Base.Backend, a: Fp6): (r: Option<Fp6>)
    requires b.modulus > 1
    ensures IsZero(a) ==> r.None?
    ensures IsReduced(b, a) && !IsZero(a) ==>
      (r.Some? <==> F2.Invert(b, F2.Reduce(b, NormOf(a))).Some?)
    ensures IsReduced(b, a) && r.Some? ==> IsReduced(b, r.value) && Mul(b, a, r.value) == One()
  {
    if IsZero(a) then None
    else
      var c0 := F2.Sub(b, F2.Square(b, a.c0), F2.MulByNonresidue(b, F2.Mul(b, a.c1, a.c2)));
      var c1 := F2.Sub(b, F2.MulByNonresidue(b, F2.Square(b, a.c2)), F2.Mul(b, a.c0, a.c1));
      var c2 := F2.Sub(b, F2.Square(b, a.c1), F2.Mul(b, a.c0, a.c2));
      var tmp := F2.Add(b, F2.MulByNonresidue(b, F2.Add(b, F2.Mul(b, a.c1, c2), F2.Mul(b, a.c2, c1))), F2.Mul(b, a.c0, c0));
      if IsReduced(b, a) then AdjugateReduces(b, a); NormReduces(b, a); InvertFromNorm(b, a, tmp)
      else InvertFromNorm(b, a, tmp)
  }

  /** The last step of `invert`: scale the adjugate by the inverse of the
   *  norm. */
  function InvertFromNorm(b: Base.Backend, a: Fp6, tmp: Fp2): (r: Option<Fp6>)
    requires b.modulus > 1
    requires IsReduced(b, a) ==> tmp == F2.Reduce(b, NormOf(a))
    ensures r.Some? <==> F2.Invert(b, tmp).Some?
    ensures IsReduced(b, a) && r.Some? ==> IsReduced(b, r.value) && Mul(b, a, r.value) == One()
  {
    var c0 := F2.Sub(b, F2.Square(b, a.c0), F2.MulByNonresidue(b, F2.Mul(b, a.c1, a.c2)));
    var c1 := F2.Sub(b, F2.MulByNonresidue(b, F2.Square(b, a.c2)), F2.Mul(b, a.c0, a.c1));
    var c2 := F2.Sub(b, F2.Square(b, a.c1), F2.Mul(b, a.c0, a.c2));
    match F2.Invert(b, tmp)
    case None => None
    case Some(t) =>
      var v := Fp6(F2.Mul(b, t, c0), F2.Mul(b, t, c1), F2.Mul(b, t, c2));
      if IsReduced(b, a) then InvertedAdjugate(b, a, t, tmp); Some(v)
      else Some(v)
  }

  lemma InvertedAdjugate(b: Base.Backend, a: Fp6, t: Fp2, tmp: Fp2)
    requires b.modulus > 1 && IsReduced(b, a) && F2.IsReduced(b, t)
    requires tmp == F2.Reduce(b, NormOf(a)) && F2.Mul(b, tmp, t) == F2.One()
    ensures
      var c0 := F2.Sub(b, F2.Square(b, a.c0), F2.MulByNonresidue(b, F2.Mul(b, a.c1, a.c2)));
      var c1 := F2.Sub(b, F2.MulByNonresidue(b, F2.Square(b, a.c2)), F2.Mul(b, a.c0, a.c1));
      var c2 := F2.Sub(b, F2.Square(b, a.c1), F2.Mul(b, a.c0, a.c2));
      var v := Fp6(F2.Mul(b, t, c0), F2.Mul(b, t, c1), F2.Mul(b, t, c2));
      IsReduced(b, v) && Mul(b, a, v) == One()
  {
    AdjugateReduces(b, a);
    ScaledAdjugate(b, a, t);
    InverseProduct(b, a, t, tmp);
  }

  /** The adjugate as the code computes it on a reduced input. */
  lemma AdjugateReduces(b: Base.Backend, a: Fp6)
    requires b.modulus > 1 && IsReduced(b, a)
    ensures F2.Sub(b, F2.Square(b, a.c0), F2.MulByNonresidue(b, F2.Mul(b, a.c1, a.c2))) == Reduce(b, Adjugate(a)).c0
    ensures F2.Sub(b, F2.MulByNonresidue(b, F2.Square(b, a.c2)), F2.Mul(b, a.c0, a.c1)) == Reduce(b, Adjugate(a)).c1
    ensures F2.Sub(b, F2.Square(b, a.c1), F2.Mul(b, a.c0, a.c2)) == Reduce(b, Adjugate(a)).c2
  {
    F2.ReduceReduced(b, a.c0); F2.ReduceReduced(b, a.c1); F2.ReduceReduced(b, a.c2);
    F2.MulOfReduced(b, a.c0, a.c0);
    F2.MulOfReduced(b, a.c1, a.c1);
    F2.MulOfReduced(b, a.c2, a.c2);
    F2.MulOfReduced(b, a.c1, a.c2);
    F2.MulOfReduced(b, a.c0, a.c1);
    F2.MulOfReduced(b, a.c0, a.c2);
    F2.MulByNonresidueOfReduced(b, F2.Times(a.c1, a.c2));
    F2.MulByNonresidueOfReduced(b, F2.Times(a.c2, a.c2));
    F2.SubOfReduced(b, F2.Times(a.c0, a.c0), F2.TimesXi(F2.Times(a.c1, a.c2)));
    F2.SubOfReduced(b, F2.TimesXi(F2.Times(a.c2, a.c2)), F2.Times(a.c0, a.c1));
    F2.SubOfReduced(b, F2.Times(a.c1, a.c1), F2.Times(a.c0, a.c2));
  }

  /** The norm as the code computes it on a reduced input. */
  lemma NormReduces(b: Base.Backend, a: Fp6)
    requires b.modulus > 1 && IsReduced(b, a)
    ensures
      var c := Reduce(b, Adjugate(a));
      F2.Add(b, F2.MulByNonresidue(b, F2.Add(b, F2.Mul(b, a.c1, c.c2), F2.Mul(b, a.c2, c.c1))), F2.Mul(b, a.c0, c.c0))
        == F2.Reduce(b, NormOf(a))
  {
    var adj := Adjugate(a);
    var p, q, r := F2.Times(a.c1, adj.c2), F2.Times(a.c2, adj.c1), F2.Times(a.c0, adj.c0);
    F2.ReduceReduced(b, a.c0); F2.ReduceReduced(b, a.c1); F2.ReduceReduced(b, a.c2);
    F2.MulOfReduced(b, a.c1, adj.c2);
    F2.MulOfReduced(b, a.c2, adj.c1);
    F2.MulOfReduced(b, a.c0, adj.c0);
    F2.AddOfReduced(b, p, q);
    F2.MulByNonresidueOfReduced(b, F2.Plus(p, q));
    F2.AddOfReduced(b, F2.TimesXi(F2.Plus(p, q)), r);
  }

  /** The scaled adjugate the code returns is the reduction of the exact
   *  one. */
  lemma ScaledAdjugate(b: Base.Backend, a: Fp6, t: Fp2)
    requires b.modulus > 1 && IsReduced(b, a) && F2.IsReduced(b, t)
    ensures
      var c := Reduce(b, Adjugate(a));
      Fp6(F2.Mul(b, t, c.c0), F2.Mul(b, t, c.c1), F2.Mul(b, t, c.c2)) == Reduce(b, ScaleBy(t, Adjugate(a)))
  {
    var adj := Adjugate(a);
    F2.ReduceReduced(b, t);
    F2.MulOfReduced(b, t, adj.c0);
    F2.MulOfReduced(b, t, adj.c1);
    F2.MulOfReduced(b, t, adj.c2);
  }

  lemma InverseProduct(b: Base.Backend, a: Fp6, t: Fp2, tmp: Fp2)
    requires b.modulus > 1 && IsReduced(b, a) && F2.IsReduced(b, t)
    requires tmp == F2.Reduce(b, NormOf(a)) && F2.Mul(b, tmp, t) == F2.One()
    ensures Mul(b, a, Reduce(b, ScaleBy(t, Adjugate(a)))) == One()
  {
    var adj := Adjugate(a);
    ReduceTimesRight(b, a, ScaleBy(t, adj));
    TimesScaleBy(a, t, adj);
    AdjugateProduct(a);
    F2.ReduceReduced(b, t);
    F2.MulOfReduced(b, NormOf(a), t);
    F2.TimesCommutes(NormOf(a), t);
    ScaledScalar(b, t, NormOf(a));
  }

  lemma ScaledScalar(b: Base.Backend, t: Fp2, n: Fp2)
    requires b.modulus > 1
    ensures Reduce(b, ScaleBy(t, Scalar(n))) == Fp6(F2.Reduce(b, F2.Times(t, n)), F2.Zero(), F2.Zero())
  {
    assert F2.Times(t, F2.Fp2(0, 0)) == F2.Fp2(0, 0);
  }

  /** x times its adjugate is the norm, a constant. */
  lemma AdjugateProduct(x: Fp6)
    ensures Times(x, Adjugate(x)) == Scalar(NormOf(x))
  {
    AdjugateC1(x);
    AdjugateC2(x);
  }

  lemma AdjugateC1(x: Fp6)
    ensures Times(x, Adjugate(x)).c1 == F2.Fp2(0, 0)
  {
    var a := Adjugate(x);
    F2.TimesDistributesMinus(F2.TimesXi(F2.Times(x.c2, x.c2)), F2.Times(x.c0, x.c1), x.c0);
    F2.TimesDistributesMinus(F2.Times(x.c0, x.c0), F2.TimesXi(F2.Times(x.c1, x.c2)), x.c1);
    F2.TimesDistributesMinus(F2.Times(x.c1, x.c1), F2.Times(x.c0, x.c2), x.c2);
    F2.TimesXiTimes(x.c0, F2.Times(x.c2, x.c2));
    F2.TimesXiTimes(x.c1, F2.Times(x.c1, x.c2));
    F2.TimesSwap(x.c0, x.c2, x.c2);
    F2.TimesSwap(x.c1, x.c0, x.c0);
    F2.TimesCommutes(x.c1, x.c0);
    F2.TimesSwap(x.c2, x.c1, x.c1);
    F2.TimesCommutes(x.c2, x.c1);
  }

  lemma AdjugateC2(x: Fp6)
    ensures Times(x, Adjugate(x)).c2 == F2.Fp2(0, 0)
  {
    F2.TimesDistributesMinus(F2.Times(x.c1, x.c1), F2.Times(x.c0, x.c2), x.c0);
    F2.TimesDistributesMinus(F2.TimesXi(F2.Times(x.c2, x.c2)), F2.Times(x.c0, x.c1), x.c1);
    F2.TimesDistributesMinus(F2.Times(x.c0, x.c0), F2.TimesXi(F2.Times(x.c1, x.c2)), x.c2);
    F2.TimesXiTimes(x.c1, F2.Times(x.c2, x.c2));
    F2.TimesXiTimes(x.c2, F2.Times(x.c1, x.c2));
    F2.TimesSwap(x.c0, x.c1, x.c1);
    F2.TimesSwap(x.c0, x.c2, x.c0);
    F2.TimesCommutes(x.c2, x.c0);
    F2.TimesSwap(x.c1, x.c2, x.c2);
  }

  /** A common Fp2 factor can be pulled out of a product. */
  lemma TimesScaleBy(x: Fp6, t: Fp2, y: Fp6)
    ensures Times(x, ScaleBy(t, y)) == ScaleBy(t, Times(x, y))
  {
    ScaleByC0(x, t, y);
    ScaleByC1(x, t, y);
    ScaleByC2(x, t, y);
  }

  lemma ScaleByC0(x: Fp6, t: Fp2, y: Fp6)
    ensures Times(x, ScaleBy(t, y)).c0 == ScaleBy(t, Times(x, y)).c0
  {
    ExpandLeft(t, F2.Times(x.c0, y.c0), F2.Times(x.c1, y.c2), F2.Times(x.c2, y.c1));
    F2.TimesSwap(x.c0, t, y.c0);
    F2.TimesSwap(x.c1, t, y.c2);
    F2.TimesSwap(x.c2, t, y.c1);
  }

  lemma ScaleByC1(x: Fp6, t: Fp2, y: Fp6)
    ensures Times(x, ScaleBy(t, y)).c1 == ScaleBy(t, Times(x, y)).c1
  {
    ExpandLeft(t, F2.Times(x.c0, y.c1), F2.Times(x.c1, y.c0), F2.Times(x.c2, y.c2));
    F2.TimesSwap(x.c0, t, y.c1);
    F2.TimesSwap(x.c1, t, y.c0);
    F2.TimesSwap(x.c2, t, y.c2);
  }

  lemma ScaleByC2(x: Fp6, t: Fp2, y: Fp6)
    ensures Times(x, ScaleBy(t, y)).c2 == ScaleBy(t, Times(x, y)).c2
  {
    ExpandLeft(t, F2.Times(x.c0, y.c2), F2.Times(x.c1, y.c1), F2.Times(x.c2, y.c0));
    F2.TimesSwap(x.c0, t, y.c2);
    F2.TimesSwap(x.c1, t, y.c1);
    F2.TimesSwap(x.c2, t, y.c0);
  }

  // ---------------------------------------------------------------------
  // Reduction and the reference product

  /** The reduced value of each schoolbook shape depends only on the
   *  reduced values of its terms. */
  lemma ShapeA(b: Base.Backend, p: Fp2, q: Fp2, s: Fp2)
    requires b.modulus > 1
    ensures F2.Reduce(b, F2.Plus(p, F2.TimesXi(F2.Plus(q, s))))
         == F2.Add(b, F2.Reduce(b, p), F2.MulByNonresidue(b, F2.Add(b, F2.Reduce(b, q), F2.Reduce(b, s))))
  {
    F2.AddOfReduced(b, q, s);
    F2.MulByNonresidueOfReduced(b, F2.Plus(q, s));
    F2.AddOfReduced(b, p, F2.TimesXi(F2.Plus(q, s)));
  }

  lemma ShapeB(b: Base.Backend, p: Fp2, q: Fp2, s: Fp2)
    requires b.modulus > 1
    ensures F2.Reduce(b, F2.Plus(F2.Plus(p, q), F2.TimesXi(s)))
         == F2.Add(b, F2.Add(b, F2.Reduce(b, p), F2.Reduce(b, q)), F2.MulByNonresidue(b, F2.Reduce(b, s)))
  {
    F2.AddOfReduced(b, p, q);
    F2.MulByNonresidueOfReduced(b, s);
    F2.AddOfReduced(b, F2.Plus(p, q), F2.TimesXi(s));
  }

  lemma ShapeC(b: Base.Backend, p: Fp2, q: Fp2, s: Fp2)
    requires b.modulus > 1
    ensures F2.Reduce(b, F2.Plus(F2.Plus(p, q), s))
         == F2.Add(b, F2.Add(b, F2.Reduce(b, p), F2.Reduce(b, q)), F2.Reduce(b, s))
  {
    F2.AddOfReduced(b, p, q);
    F2.AddOfReduced(b, F2.Plus(p, q), s);
  }

  /** Reducing the right factor first does not change the reduced
   *  product. */
  lemma ReduceTimesRight(b: Base.Backend, x: Fp6, y: Fp6)
    requires b.modulus > 1
    ensures Reduce(b, Times(x, Reduce(b, y))) == Reduce(b, Times(x, y))
  {
    ReduceTimesRightC0(b, x, y);
    ReduceTimesRightC1(b, x, y);
    ReduceTimesRightC2(b, x, y);
  }

  lemma ReduceTimesRightC0(b: Base.Backend, x: Fp6, y: Fp6)
    requires b.modulus > 1
    ensures F2.Reduce(b, Times(x, Reduce(b, y)).c0) == F2.Reduce(b, Times(x, y).c0)
  {
    var ry := Reduce(b, y);
    ShapeA(b, F2.Times(x.c0, y.c0), F2.Times(x.c1, y.c2), F2.Times(x.c2, y.c1));
    ShapeA(b, F2.Times(x.c0, ry.c0), F2.Times(x.c1, ry.c2), F2.Times(x.c2, ry.c1));
    F2.ReduceTimesRight(b, x.c0, y.c0);
    F2.ReduceTimesRight(b, x.c1, y.c2);
    F2.ReduceTimesRight(b, x.c2, y.c1);
  }

  lemma ReduceTimesRightC1(b: Base.Backend, x: Fp6, y: Fp6)
    requires b.modulus > 1
    ensures F2.Reduce(b, Times(x, Reduce(b, y)).c1) == F2.Reduce(b, Times(x, y).c1)
  {
    var ry := Reduce(b, y);
    ShapeB(b, F2.Times(x.c0, y.c1), F2.Times(x.c1, y.c0), F2.Times(x.c2, y.c2));
    ShapeB(b, F2.Times(x.c0, ry.c1), F2.Times(x.c1, ry.c0), F2.Times(x.c2, ry.c2));
    F2.ReduceTimesRight(b, x.c0, y.c1);
    F2.ReduceTimesRight(b, x.c1, y.c0);
    F2.ReduceTimesRight(b, x.c2, y.c2);
  }

  lemma ReduceTimesRightC2(b: Base.Backend, x: Fp6, y: Fp6)
    requires b.modulus > 1
    ensures F2.Reduce(b, Times(x, Reduce(b, y)).c2) == F2.Reduce(b, Times(x, y).c2)
  {
    var ry := Reduce(b, y);
    ShapeC(b, F2.Times(x.c0, y.c2), F2.Times(x.c1, y.c1), F2.Times(x.c2, y.c0));
    ShapeC(b, F2.Times(x.c0, ry.c2), F2.Times(x.c1, ry.c1), F2.Times(x.c2, ry.c0));
    F2.ReduceTimesRight(b, x.c0, y.c2);
    F2.ReduceTimesRight(b, x.c1, y.c1);
    F2.ReduceTimesRight(b, x.c2, y.c0);
  }

  /** ξ^((p − 1)/3) and ξ^((2p − 2)/3) for the BLS12-381 base field. */
  const FrobeniusCoeffC1: Fp2 :=
    F2.Fp2(0, 4002409555221667392624310435006688643935503118305586438271171395842971157480381377015405980053539358417135540939436)
  const FrobeniusCoeffC2: Fp2 :=
    F2.Fp2(4002409555221667392624310435006688643935503118305586438271171395842971157480381377015405980053539358417135540939437, 0)

  /** The second coefficient is the square of the first, as the exponents
   *  (p − 1)/3 and 2(p − 1)/3 require. */
  lemma FrobeniusCoefficients(b: Base.Backend)
    requires b.modulus == Bls12.BASE_MODULUS
    ensures F2.IsReduced(b, FrobeniusCoeffC1) && F2.IsReduced(b, FrobeniusCoeffC2)
    ensures F2.Mul(b, FrobeniusCoeffC1, FrobeniusCoeffC1) == FrobeniusCoeffC2
  {
  }

  /** `frobenius_map`: the p-th power, conjugating each coefficient and
   *  scaling the v and v² coefficients by the constants above. */
  function FrobeniusMap(b: Base.Backend, a: Fp6): (r: Fp6)
    requires b.modulus > 1
    ensures r.c0 == F2.Conjugate(b, a.c0)
    ensures IsReduced(b, a) && F2.IsReduced(b, FrobeniusCoeffC1) && F2.IsReduced(b, FrobeniusCoeffC2) ==>
      IsReduced(b, r)
  {
    var c1 := F2.FrobeniusMap(b, a.c1);
    var c2 := F2.FrobeniusMap(b, a.c2);
    Fp6(F2.FrobeniusMap(b, a.c0), F2.Mul(b, c1, FrobeniusCoeffC1), F2.Mul(b, c2, FrobeniusCoeffC2))
  }

  /** The Frobenius map is additive and fixes one. */
  lemma FrobeniusOfSum(b: Base.Backend, x: Fp6, y: Fp6)
    requires b.modulus == Bls12.BASE_MODULUS && IsReduced(b, x) && IsReduced(b, y)
    ensures FrobeniusMap(b, Add(b, x, y)) == Add(b, FrobeniusMap(b, x), FrobeniusMap(b, y))
  {
    FrobeniusCoefficients(b);
    F2.ConjugateOfSum(b, x.c0, y.c0);
    F2.ConjugateOfSum(b, x.c1, y.c1);
    F2.ConjugateOfSum(b, x.c2, y.c2);
    F2.MulDistributesRight(b, F2.Conjugate(b, x.c1), F2.Conjugate(b, y.c1), FrobeniusCoeffC1);
    F2.MulDistributesRight(b, F2.Conjugate(b, x.c2), F2.Conjugate(b, y.c2), FrobeniusCoeffC2);
  }

  lemma FrobeniusOfOne(b: Base.Backend)
    requires b.modulus == Bls12.BASE_MODULUS
    ensures FrobeniusMap(b, One()) == One()
  {
    F2.ConjugateOfZero(b);
    F2.MulZero(b, FrobeniusCoeffC1);
    F2.MulZero(b, FrobeniusCoeffC2);
  }

  /** On the constants Fp2 ⊂ Fp6 the map is conjugation. */
  lemma FrobeniusOfConstant(b: Base.Backend, s: Fp2)
    requires b.modulus == Bls12.BASE_MODULUS
    ensures FrobeniusMap(b, FromFp2(s)) == FromFp2(F2.Conjugate(b, s))
  {
    F2.ConjugateOfZero(b);
    F2.MulZero(b, FrobeniusCoeffC1);
    F2.MulZero(b, FrobeniusCoeffC2);
  }

  /** On s·v the map conjugates s and scales it by the first constant. */
  lemma FrobeniusOfV(b: Base.Backend, s: Fp2)
    requires b.modulus > 1
    ensures FrobeniusMap(b, Fp6(F2.Zero(), s, F2.Zero()))
         == Fp6(F2.Zero(), F2.Mul(b, F2.Conjugate(b, s), FrobeniusCoeffC1), F2.Zero())
  {
    F2.ConjugateOfZero(b);
    F2.MulZero(b, FrobeniusCoeffC2);
  }

  /** On s·v² the map conjugates s and scales it by the second constant. */
  lemma FrobeniusOfVSquared(b: Base.Backend, s: Fp2)
    requires b.modulus > 1
    ensures FrobeniusMap(b, Fp6(F2.Zero(), F2.Zero(), s))
         == Fp6(F2.Zero(), F2.Zero(), F2.Mul(b, F2.Conjugate(b, s), FrobeniusCoeffC2))
  {
    F2.ConjugateOfZero(b);
    F2.MulZero(b, FrobeniusCoeffC1);
  }

  /** Zero is neutral for `add` on reduced elements. */
  lemma AddZero(b: Base.Backend, x: Fp6)
    requires b.modulus > 1 && IsReduced(b, x)
    ensures Add(b, x, Zero()) == x && Add(b, Zero(), x) == x
  {
    F2.AddZero(b, x.c0);
    F2.AddZero(b, x.c1);
    F2.AddZero(b, x.c2);
  }

  /** Every reduced element is c0 + c1·v + c2·v², so `FrobeniusOfConstant`,
   *  `FrobeniusOfV`, `FrobeniusOfVSquared` and `FrobeniusOfSum` together
   *  determine the map. */
  lemma Decompose(b: Base.Backend, x: Fp6)
    requires b.modulus > 1 && IsReduced(b, x)
    ensures x == Add(b, Add(b, FromFp2(x.c0), Fp6(F2.Zero(), x.c1, F2.Zero())), Fp6(F2.Zero(), F2.Zero(), x.c2))
  {
    var z := F2.Zero();
    F2.AddZero(b, x.c0);
    F2.AddZero(b, x.c1);
    F2.AddZero(b, x.c2);
    F2.AddZero(b, z);
  }

  // ---------------------------------------------------------------------
  // Laws of the reference product

  lemma TimesCommutes(x: Fp6, y: Fp6)
    ensures Times(x, y) == Times(y, x)
  {
    F2.TimesCommutes(x.c0, y.c0); F2.TimesCommutes(x.c0, y.c1); F2.TimesCommutes(x.c0, y.c2);
    F2.TimesCommutes(x.c1, y.c0); F2.TimesCommutes(x.c1, y.c1); F2.TimesCommutes(x.c1, y.c2);
    F2.TimesCommutes(x.c2, y.c0); F2.TimesCommutes(x.c2, y.c1); F2.TimesCommutes(x.c2, y.c2);
  }

  lemma TimesDistributes(x: Fp6, y: Fp6, z: Fp6)
    ensures Times(x, Plus(y, z)) == Plus(Times(x, y), Times(x, z))
  {
    F2.TimesDistributes(x.c0, y.c0, z.c0); F2.TimesDistributes(x.c0, y.c1, z.c1); F2.TimesDistributes(x.c0, y.c2, z.c2);
    F2.TimesDistributes(x.c1, y.c0, z.c0); F2.TimesDistributes(x.c1, y.c1, z.c1); F2.TimesDistributes(x.c1, y.c2, z.c2);
    F2.TimesDistributes(x.c2, y.c0, z.c0); F2.TimesDistributes(x.c2, y.c1, z.c1); F2.TimesDistributes(x.c2, y.c2, z.c2);
  }

  /** The three shapes of a schoolbook coefficient, multiplied on the
   *  right by z. */
  lemma ExpandRight(a: Fp2, c: Fp2, d: Fp2, z: Fp2)
    ensures F2.Times(F2.Plus(a, F2.TimesXi(F2.Plus(c, d))), z)
         == F2.Plus(F2.Times(a, z), F2.TimesXi(F2.Plus(F2.Times(c, z), F2.Times(d, z))))
    ensures F2.Times(F2.Plus(F2.Plus(a, c), F2.TimesXi(d)), z)
         == F2.Plus(F2.Plus(F2.Times(a, z), F2.Times(c, z)), F2.TimesXi(F2.Times(d, z)))
    ensures F2.Times(F2.Plus(F2.Plus(a, c), d), z)
         == F2.Plus(F2.Plus(F2.Times(a, z), F2.Times(c, z)), F2.Times(d, z))
  {
    F2.TimesDistributesRight(a, F2.TimesXi(F2.Plus(c, d)), z);
    F2.TimesXiTimes(F2.Plus(c, d), z);
    F2.TimesDistributesRight(c, d, z);
    F2.TimesDistributesRight(F2.Plus(a, c), F2.TimesXi(d), z);
    F2.TimesDistributesRight(a, c, z);
    F2.TimesXiTimes(d, z);
    F2.TimesDistributesRight(F2.Plus(a, c), d, z);
  }

  /** The same shapes multiplied on the left by x. */
  lemma ExpandLeft(x: Fp2, a: Fp2, c: Fp2, d: Fp2)
    ensures F2.Times(x, F2.Plus(a, F2.TimesXi(F2.Plus(c, d))))
         == F2.Plus(F2.Times(x, a), F2.TimesXi(F2.Plus(F2.Times(x, c), F2.Times(x, d))))
    ensures F2.Times(x, F2.Plus(F2.Plus(a, c), F2.TimesXi(d)))
         == F2.Plus(F2.Plus(F2.Times(x, a), F2.Times(x, c)), F2.TimesXi(F2.Times(x, d)))
    ensures F2.Times(x, F2.Plus(F2.Plus(a, c), d))
         == F2.Plus(F2.Plus(F2.Times(x, a), F2.Times(x, c)), F2.Times(x, d))
  {
    F2.TimesDistributes(x, a, F2.TimesXi(F2.Plus(c, d)));
    F2.TimesXiTimes(x, F2.Plus(c, d));
    F2.TimesDistributes(x, c, d);
    F2.TimesDistributes(x, F2.Plus(a, c), F2.TimesXi(d));
    F2.TimesDistributes(x, a, c);
    F2.TimesXiTimes(x, d);
    F2.TimesDistributes(x, F2.Plus(a, c), d);
  }

  lemma AssociatesC0(x: Fp6, y: Fp6, z: Fp6)
    ensures Times(Times(x, y), z).c0 == Times(x, Times(y, z)).c0
  {
    var p, q := Times(x, y), Times(y, z);
    ExpandRight(F2.Times(x.c0, y.c0), F2.Times(x.c1, y.c2), F2.Times(x.c2, y.c1), z.c0);
    ExpandRight(F2.Times(x.c0, y.c1), F2.Times(x.c1, y.c0), F2.Times(x.c2, y.c2), z.c2);
    ExpandRight(F2.Times(x.c0, y.c2), F2.Times(x.c1, y.c1), F2.Times(x.c2, y.c0), z.c1);
    ExpandLeft(x.c0, F2.Times(y.c0, z.c0), F2.Times(y.c1, z.c2), F2.Times(y.c2, z.c1));
    ExpandLeft(x.c1, F2.Times(y.c0, z.c2), F2.Times(y.c1, z.c1), F2.Times(y.c2, z.c0));
    ExpandLeft(x.c2, F2.Times(y.c0, z.c1), F2.Times(y.c1, z.c0), F2.Times(y.c2, z.c2));
    F2.TimesAssociates(x.c0, y.c0, z.c0); F2.TimesAssociates(x.c1, y.c2, z.c0); F2.TimesAssociates(x.c2, y.c1, z.c0);
    F2.TimesAssociates(x.c0, y.c1, z.c2); F2.TimesAssociates(x.c1, y.c0, z.c2); F2.TimesAssociates(x.c2, y.c2, z.c2);
    F2.TimesAssociates(x.c0, y.c2, z.c1); F2.TimesAssociates(x.c1, y.c1, z.c1); F2.TimesAssociates(x.c2, y.c0, z.c1);
  }

  lemma AssociatesC1(x: Fp6, y: Fp6, z: Fp6)
    ensures Times(Times(x, y), z).c1 == Times(x, Times(y, z)).c1
  {
    ExpandRight(F2.Times(x.c0, y.c0), F2.Times(x.c1, y.c2), F2.Times(x.c2, y.c1), z.c1);
    ExpandRight(F2.Times(x.c0, y.c1), F2.Times(x.c1, y.c0), F2.Times(x.c2, y.c2), z.c0);
    ExpandRight(F2.Times(x.c0, y.c2), F2.Times(x.c1, y.c1), F2.Times(x.c2, y.c0), z.c2);
    ExpandLeft(x.c0, F2.Times(y.c0, z.c1), F2.Times(y.c1, z.c0), F2.Times(y.c2, z.c2));
    ExpandLeft(x.c1, F2.Times(y.c0, z.c0), F2.Times(y.c1, z.c2), F2.Times(y.c2, z.c1));
    ExpandLeft(x.c2, F2.Times(y.c0, z.c2), F2.Times(y.c1, z.c1), F2.Times(y.c2, z.c0));
    F2.TimesAssociates(x.c0, y.c0, z.c1);
    F2.TimesAssociates(x.c0, y.c1, z.c0);
    F2.TimesAssociates(x.c0, y.c2, z.c2);
    F2.TimesAssociates(x.c1, y.c0, z.c0);
    F2.TimesAssociates(x.c1, y.c1, z.c2);
    F2.TimesAssociates(x.c1, y.c2, z.c1);
    F2.TimesAssociates(x.c2, y.c0, z.c2);
    F2.TimesAssociates(x.c2, y.c1, z.c1);
    F2.TimesAssociates(x.c2, y.c2, z.c0);
  }

  lemma AssociatesC2(x: Fp6, y: Fp6, z: Fp6)
    ensures Times(Times(x, y), z).c2 == Times(x, Times(y, z)).c2
  {
    ExpandRight(F2.Times(x.c0, y.c0), F2.Times(x.c1, y.c2), F2.Times(x.c2, y.c1), z.c2);
    ExpandRight(F2.Times(x.c0, y.c1), F2.Times(x.c1, y.c0), F2.Times(x.c2, y.c2), z.c1);
    ExpandRight(F2.Times(x.c0, y.c2), F2.Times(x.c1, y.c1), F2.Times(x.c2, y.c0), z.c0);
    ExpandLeft(x.c0, F2.Times(y.c0, z.c2), F2.Times(y.c1, z.c1), F2.Times(y.c2, z.c0));
    ExpandLeft(x.c1, F2.Times(y.c0, z.c1), F2.Times(y.c1, z.c0), F2.Times(y.c2, z.c2));
    ExpandLeft(x.c2, F2.Times(y.c0, z.c0), F2.Times(y.c1, z.c2), F2.Times(y.c2, z.c1));
    F2.TimesAssociates(x.c0, y.c0, z.c2);
    F2.TimesAssociates(x.c0, y.c1, z.c1);
    F2.TimesAssociates(x.c0, y.c2, z.c0);
    F2.TimesAssociates(x.c1, y.c0, z.c1);
    F2.TimesAssociates(x.c1, y.c1, z.c0);
    F2.TimesAssociates(x.c1, y.c2, z.c2);
    F2.TimesAssociates(x.c2, y.c0, z.c0);
    F2.TimesAssociates(x.c2, y.c1, z.c2);
    F2.TimesAssociates(x.c2, y.c2, z.c1);
  }

  lemma TimesAssociates(x: Fp6, y: Fp6, z: Fp6)
    ensures Times(Times(x, y), z) == Times(x, Times(y, z))
  {
    AssociatesC0(x, y, z);
    AssociatesC1(x, y, z);
    AssociatesC2(x, y, z);
  }

  /** v commutes with every product: v·(x·y) = (v·x)·y. */
  lemma TimesVTimes(x: Fp6, y: Fp6)
    ensures Times(TimesV(x), y) == TimesV(Times(x, y))
    ensures Times(x, TimesV(y)) == TimesV(Times(x, y))
  {
    var v := Fp6(F2.Zero(), F2.One(), F2.Zero());
    TimesVIsProduct(x);
    TimesVIsProduct(y);
    TimesVIsProduct(Times(x, y));
    TimesAssociates(x, v, y);
    TimesCommutes(v, y);
    TimesAssociates(x, y, v);
  }

  lemma TimesDistributesRight(x: Fp6, y: Fp6, z: Fp6)
    ensures Times(Plus(x, y), z) == Plus(Times(x, z), Times(y, z))
  {
    TimesCommutes(Plus(x, y), z);
    TimesDistributes(z, x, y);
    TimesCommutes(z, x);
    TimesCommutes(z, y);
  }

  lemma TimesOne(x: Fp6)
    ensures Times(x, Fp6(F2.Fp2(1, 0), F2.Fp2(0, 0), F2.Fp2(0, 0))) == x
  {
  }

  lemma TimesZero(x: Fp6)
    ensures Times(x, Fp6(F2.Fp2(0, 0), F2.Fp2(0, 0), F2.Fp2(0, 0))) == Fp6(F2.Fp2(0, 0), F2.Fp2(0, 0), F2.Fp2(0, 0))
  {
  }

  // ---------------------------------------------------------------------
  // Laws of the operations

  lemma AddOfReduced(b: Base.Backend, x: Fp6, y: Fp6)
    requires b.modulus > 1
    ensures Add(b, Reduce(b, x), Reduce(b, y)) == Reduce(b, Plus(x, y))
  {
    F2.AddOfReduced(b, x.c0, y.c0);
    F2.AddOfReduced(b, x.c1, y.c1);
    F2.AddOfReduced(b, x.c2, y.c2);
  }

  lemma ReduceTimesLeft(b: Base.Backend, x: Fp6, y: Fp6)
    requires b.modulus > 1
    ensures Reduce(b, Times(Reduce(b, x), y)) == Reduce(b, Times(x, y))
  {
    TimesCommutes(Reduce(b, x), y);
    TimesCommutes(x, y);
    ReduceTimesRight(b, y, x);
  }

  lemma MulCommutes(b: Base.Backend, x: Fp6, y: Fp6)
    requires b.modulus > 1 && IsReduced(b, x) && IsReduced(b, y)
    ensures Mul(b, x, y) == Mul(b, y, x)
  {
    TimesCommutes(x, y);
  }

  lemma MulAssociates(b: Base.Backend, x: Fp6, y: Fp6, z: Fp6)
    requires b.modulus > 1 && IsReduced(b, x) && IsReduced(b, y) && IsReduced(b, z)
    ensures Mul(b, Mul(b, x, y), z) == Mul(b, x, Mul(b, y, z))
  {
    ReduceTimesLeft(b, Times(x, y), z);
    ReduceTimesRight(b, x, Times(y, z));
    TimesAssociates(x, y, z);
  }

  lemma MulDistributes(b: Base.Backend, x: Fp6, y: Fp6, z: Fp6)
    requires b.modulus > 1 && IsReduced(b, x) && IsReduced(b, y) && IsReduced(b, z)
    ensures Mul(b, x, Add(b, y, z)) == Add(b, Mul(b, x, y), Mul(b, x, z))
  {
    ReduceReduced(b, y);
    ReduceReduced(b, z);
    AddOfReduced(b, y, z);
    ReduceTimesRight(b, x, Plus(y, z));
    TimesDistributes(x, y, z);
    AddOfReduced(b, Times(x, y), Times(x, z));
  }

  lemma MulOne(b: Base.Backend, x: Fp6)
    requires b.modulus > 1 && IsReduced(b, x)
    ensures Mul(b, x, One()) == x
  {
    TimesOne(x);
    ReduceReduced(b, x);
    assert Reduce(b, Times(x, One())) == x;
    assert IsReduced(b, One());
  }

  /** An element has at most one inverse. */
  lemma InverseUnique(b: Base.Backend, a: Fp6, u: Fp6, w: Fp6)
    requires b.modulus > 1 && IsReduced(b, a) && IsReduced(b, u) && IsReduced(b, w)
    requires Mul(b, a, u) == One() && Mul(b, a, w) == One()
    ensures u == w
  {
    MulOne(b, u);
    MulAssociates(b, u, a, w);
    MulCommutes(b, u, a);
    MulCommutes(b, One(), w);
    MulOne(b, w);
  }

  /** The inverse of a product is the product of the inverses. */
  lemma InvertOfProduct(b: Base.Backend, x: Fp6, y: Fp6)
    requires b.modulus > 1 && IsReduced(b, x) && IsReduced(b, y)
    requires Invert(b, x).Some? && Invert(b, y).Some? && Invert(b, Mul(b, x, y)).Some?
    ensures Invert(b, Mul(b, x, y)).value == Mul(b, Invert(b, x).value, Invert(b, y).value)
  {
    var xi, yi := Invert(b, x).value, Invert(b, y).value;
    var xy := Mul(b, x, y);
    // (x·y)·(x⁻¹·y⁻¹) = x·(y·(x⁻¹·y⁻¹)) = x·(x⁻¹·(y·y⁻¹)) = x·x⁻¹ = 1
    MulAssociates(b, x, y, Mul(b, xi, yi));
    MulAssociates(b, y, xi, yi);
    MulCommutes(b, y, xi);
    MulAssociates(b, xi, y, yi);
    MulOne(b, xi);
    InverseUnique(b, xy, Invert(b, xy).value, Mul(b, xi, yi));
  }

  /** `invert` returns None for zero, which has no inverse. */
  lemma ZeroHasNoInverse(b: Base.Backend, y: Fp6)
    requires b.modulus > 1 && IsReduced(b, y)
    ensures Mul(b, Zero(), y) != One()
  {
    MulZeroLeft(b, y);
  }

  /** `invert` returns None otherwise only when the norm has no inverse
   *  in Fp2. */
  lemma InvertNoneMeansSingularNorm(b: Base.Backend, a: Fp6, t: Fp2)
    requires b.modulus > 1 && IsReduced(b, a) && !IsZero(a) && F2.IsReduced(b, t)
    requires Invert(b, a).None?
    ensures F2.Mul(b, F2.Reduce(b, NormOf(a)), t) != F2.One()
  {
    F2.InvertNoneMeansNoInverse(b, F2.Reduce(b, NormOf(a)), t);
  }

  lemma MulOfReduced(b: Base.Backend, x: Fp6, y: Fp6)
    requires b.modulus > 1
    ensures Mul(b, Reduce(b, x), Reduce(b, y)) == Reduce(b, Times(x, y))
  {
    ReduceTimesLeft(b, x, Reduce(b, y));
    ReduceTimesRight(b, x, y);
  }

  lemma SubOfReduced(b: Base.Backend, x: Fp6, y: Fp6)
    requires b.modulus > 1
    ensures Sub(b, Reduce(b, x), Reduce(b, y)) == Reduce(b, Minus(x, y))
  {
    F2.SubOfReduced(b, x.c0, y.c0);
    F2.SubOfReduced(b, x.c1, y.c1);
    F2.SubOfReduced(b, x.c2, y.c2);
  }

  lemma NegOfReduced(b: Base.Backend, x: Fp6)
    requires b.modulus > 1
    ensures Neg(b, Reduce(b, x)) == Reduce(b, Negate(x))
  {
    F2.NegOfReduced(b, x.c0);
    F2.NegOfReduced(b, x.c1);
    F2.NegOfReduced(b, x.c2);
  }

  lemma MulByNonresidueOfReduced(b: Base.Backend, x: Fp6)
    requires b.modulus > 1
    ensures MulByNonresidue(b, Reduce(b, x)) == Reduce(b, TimesV(x))
  {
    F2.MulByNonresidueOfReduced(b, x.c2);
    F2.ReduceReduced(b, F2.Reduce(b, x.c0));
    F2.ReduceReduced(b, F2.Reduce(b, x.c1));
  }

  lemma TimesNegate(x: Fp6, y: Fp6)
    ensures Times(x, Negate(y)) == Negate(Times(x, y))
  {
    F2.TimesNegate(y.c0, x.c0); F2.TimesNegate(y.c1, x.c0); F2.TimesNegate(y.c2, x.c0);
    F2.TimesNegate(y.c0, x.c1); F2.TimesNegate(y.c1, x.c1); F2.TimesNegate(y.c2, x.c1);
    F2.TimesNegate(y.c0, x.c2); F2.TimesNegate(y.c1, x.c2); F2.TimesNegate(y.c2, x.c2);
  }

  lemma TimesMinus(x: Fp6, y: Fp6, z: Fp6)
    ensures Times(x, Minus(y, z)) == Minus(Times(x, y), Times(x, z))
  {
    assert Minus(y, z) == Plus(y, Negate(z));
    TimesDistributes(x, y, Negate(z));
    TimesNegate(x, z);
  }

  lemma TimesMinusRight(x: Fp6, y: Fp6, z: Fp6)
    ensures Times(Minus(x, y), z) == Minus(Times(x, z), Times(y, z))
  {
    TimesCommutes(Minus(x, y), z);
    TimesMinus(z, x, y);
    TimesCommutes(z, x);
    TimesCommutes(z, y);
  }

  /** In a triple product the two left factors can trade places. */
  lemma TimesSwap(a: Fp6, c: Fp6, d: Fp6)
    ensures Times(a, Times(c, d)) == Times(c, Times(a, d))
  {
    TimesAssociates(a, c, d);
    TimesCommutes(a, c);
    TimesAssociates(c, a, d);
  }

  lemma MulDistributesRight(b: Base.Backend, x: Fp6, y: Fp6, z: Fp6)
    requires b.modulus > 1 && IsReduced(b, x) && IsReduced(b, y) && IsReduced(b, z)
    ensures Mul(b, Add(b, x, y), z) == Add(b, Mul(b, x, z), Mul(b, y, z))
  {
    MulDistributes(b, z, x, y);
    MulCommutes(b, z, Add(b, x, y));
    MulCommutes(b, z, x);
    MulCommutes(b, z, y);
  }

  lemma MulZeroLeft(b: Base.Backend, y: Fp6)
    requires b.modulus > 1 && IsReduced(b, y)
    ensures Mul(b, Zero(), y) == Zero()
  {
    assert IsReduced(b, Zero());
    assert Times(Zero(), y) == Zero();
    ReduceReduced(b, Zero());
    assert Mul(b, Zero(), y) == Zero();
  }
}
