// The target group of the BLS12-381 pairing: a multiplicative subgroup of
// Fp12 written additively, so that `add` is the field product, `double`
// the field square and `neg` the conjugate.

module TargetGroup {
  import opened Wrappers
  import Base = Montgomery
  import F6 = Fp6Field
  import F12 = Fp12Field
  import Monoid

  type Fp12 = F12.Fp12

  datatype Target = Target(f: Fp12)

  predicate IsReduced(b: Base.Backend, x: Target)
  {
    F12.IsReduced(b, x.f)
  }

  /** `identity`: the field's one, written as the group's neutral element. */
  function Identity(): (r: Target)
    ensures IsIdentity(r) && !IsZero(r)
  {
    Target(F12.One())
  }

  /** `one` is the same element as `identity`. */
  function One(): (r: Target)
    ensures r == Identity()
  {
    Target(F12.One())
  }

  function Zero(): (r: Target)
    ensures IsZero(r) && !IsIdentity(r)
  {
    Target(F12.Zero())
  }

  predicate IsIdentity(x: Target)
  {
    F12.IsOne(x.f)
  }

  predicate IsZero(x: Target)
  {
    F12.IsZero(x.f)
  }

  function FrobeniusMap(b: Base.Backend, x: Target): (r: Target)
    requires b.modulus > 1
    ensures r.f.c0 == F6.FrobeniusMap(b, x.f.c0)
    ensures r.f == F12.FrobeniusMap(b, x.f)
  {
    Target(F12.FrobeniusMap(b, x.f))
  }

  /** `add` is the Fp12 product. */
  function Add(b: Base.Backend, x: Target, y: Target): (r: Target)
    requires b.modulus > 1
    ensures IsReduced(b, x) && IsReduced(b, y) ==>
              IsReduced(b, r) && r.f == F12.Reduce(b, F12.Times(x.f, y.f))
  {
    Target(F12.Mul(b, x.f, y.f))
  }

  /** `square` and `double` are both the Fp12 square. */
  function Square(b: Base.Backend, x: Target): (r: Target)
    requires b.modulus > 1
    ensures IsReduced(b, x) ==> r == Add(b, x, x)
  {
    Target(F12.Square(b, x.f))
  }

  function Double(b: Base.Backend, x: Target): (r: Target)
    requires b.modulus > 1
    ensures IsReduced(b, x) ==> r == Add(b, x, x) && IsReduced(b, r)
  {
    Target(F12.Square(b, x.f))
  }

  /** `neg` is the conjugate: it keeps the first Fp6 half and negates the
   *  second. */
  function Neg(b: Base.Backend, x: Target): (r: Target)
    requires b.modulus > 1
    ensures IsReduced(b, x) ==> IsReduced(b, r) && r.f == F12.Reduce(b, F12.Fp12(x.f.c0, F6.Negate(x.f.c1)))
  {
    Target(F12.Conjugate(b, x.f))
  }

  /** `sub` adds the conjugate of the second operand. */
  function Sub(b: Base.Backend, x: Target, y: Target): (r: Target)
    requires b.modulus > 1
    ensures IsReduced(b, x) && IsReduced(b, y) ==>
              r.f == F12.Reduce(b, F12.Times(x.f, F12.Fp12(y.f.c0, F6.Negate(y.f.c1))))
  {
    var n := Neg(b, y);
    if IsReduced(b, y) then
      F12.ReduceTimesRight(b, x.f, F12.Fp12(y.f.c0, F6.Negate(y.f.c1)));
      Add(b, x, n)
    else
      Add(b, x, n)
  }

  // ---------------------------------------------------------------------
  // Group laws inherited from Fp12

  lemma NegInvolution(b: Base.Backend, x: Target)
    requires b.modulus > 1 && IsReduced(b, x)
    ensures Neg(b, Neg(b, x)) == x
  {
    F12.ConjugateInvolution(b, x.f);
  }

  lemma AddCommutes(b: Base.Backend, x: Target, y: Target)
    requires b.modulus > 1 && IsReduced(b, x) && IsReduced(b, y)
    ensures Add(b, x, y) == Add(b, y, x)
  {
    F12.MulCommutes(b, x.f, y.f);
  }

  lemma AddAssociates(b: Base.Backend, x: Target, y: Target, z: Target)
    requires b.modulus > 1 && IsReduced(b, x) && IsReduced(b, y) && IsReduced(b, z)
    ensures Add(b, Add(b, x, y), z) == Add(b, x, Add(b, y, z))
  {
    F12.MulAssociates(b, x.f, y.f, z.f);
  }

  /** The identity is neutral on both sides. */
  lemma AddIdentity(b: Base.Backend, x: Target)
    requires b.modulus > 1 && IsReduced(b, x)
    ensures Add(b, x, Identity()) == x
    ensures Add(b, Identity(), x) == x
  {
    var e := Identity();
    AddIdentityRight(b, x);
    IdentityReduced(b);
    AddCommutes(b, x, e);
  }

  lemma IdentityReduced(b: Base.Backend)
    requires b.modulus > 1
    ensures IsReduced(b, Identity())
  {
    F12.OneReduced(b);
  }

  lemma AddIdentityRight(b: Base.Backend, x: Target)
    requires b.modulus > 1 && IsReduced(b, x)
    ensures Add(b, x, Identity()) == x
  {
    F12.MulOne(b, x.f);
  }

  // ---------------------------------------------------------------------
  // Scalar multiplication

  /** The group operations as function values, for the generic monoid
   *  laws; outside `b.modulus > 1` they are never used. */
  function AddOp(b: Base.Backend): (Target, Target) -> Target
  {
    (x: Target, y: Target) => if b.modulus > 1 then Add(b, x, y) else x
  }

  function DoubleOp(b: Base.Backend): Target -> Target
  {
    (x: Target) => if b.modulus > 1 then Double(b, x) else x
  }

  function ReducedOp(b: Base.Backend): Target -> bool
  {
    (x: Target) => IsReduced(b, x)
  }

  /** Reduced elements form a monoid under `add`, with `double` adding an
   *  element to itself. */
  lemma TargetIsMonoid(b: Base.Backend)
    requires b.modulus > 1
    ensures Monoid.IsMonoid(AddOp(b), DoubleOp(b), Identity(), ReducedOp(b))
  {
    var op, ok := AddOp(b), ReducedOp(b);
    assert IsReduced(b, Identity());
    forall x | ok(x)
      ensures op(x, Identity()) == x && op(Identity(), x) == x
    {
      AddIdentity(b, x);
    }
    forall x, y, z | ok(x) && ok(y) && ok(z)
      ensures op(op(x, y), z) == op(x, op(y, z))
    {
      AddAssociates(b, x, y, z);
    }
  }

  /** The k-fold sum of `x`: the reference for `mul_scalar`. */
  function Power(b: Base.Backend, x: Target, k: nat): (r: Target)
    requires b.modulus > 1
    ensures IsReduced(b, x) ==> IsReduced(b, r)
  {
    var r := Monoid.Power(AddOp(b), Identity(), x, k);
    if IsReduced(b, x) then
      TargetIsMonoid(b);
      Monoid.PowerOk(AddOp(b), DoubleOp(b), Identity(), ReducedOp(b), x, k);
      r
    else
      r
  }

  /** Sums of copies add their counts. */
  lemma PowerAdd(b: Base.Backend, x: Target, m: nat, n: nat)
    requires b.modulus > 1 && IsReduced(b, x)
    ensures Power(b, x, m + n) == Add(b, Power(b, x, m), Power(b, x, n))
  {
    TargetIsMonoid(b);
    Monoid.PowerAdd(AddOp(b), DoubleOp(b), Identity(), ReducedOp(b), x, m, n);
  }

  lemma PowerOne(b: Base.Backend, x: Target)
    requires b.modulus > 1 && IsReduced(b, x)
    ensures Power(b, x, 0) == Identity() && Power(b, x, 1) == x
  {
    var e := Identity();
    assert Monoid.Power(AddOp(b), e, x, 0) == e;
    assert Monoid.Power(AddOp(b), e, x, 1) == AddOp(b)(e, x);
    AddIdentity(b, x);
  }

  /** `mul_scalar`, with its loop bounded by `fuel` iterations; None when
   *  the loop has not finished by then. */
  function MulScalar(b: Base.Backend, x: Target, k: int, fuel: nat): (r: Option<Target>)
    requires b.modulus > 1
    ensures k == 0 ==> r == Some(Identity())
  {
    if k == 0 then Some(Identity())
    else Monoid.ScalarLoop(AddOp(b), DoubleOp(b), Identity(), x, k, fuel)
  }

  /** For a non-negative scalar `mul_scalar` is the k-fold sum, reached
   *  within the scalar's bit length of iterations. */
  lemma MulScalarIsPower(b: Base.Backend, x: Target, k: nat, fuel: nat)
    requires b.modulus > 1 && IsReduced(b, x)
    requires fuel >= Monoid.BitLength(k)
    ensures MulScalar(b, x, k, fuel) == Some(Power(b, x, k))
  {
    if k > 0 {
      TargetIsMonoid(b);
      Monoid.ScalarLoopInvariant(AddOp(b), DoubleOp(b), Identity(), ReducedOp(b), Identity(), x, k, fuel);
      Monoid.PowerOk(AddOp(b), DoubleOp(b), Identity(), ReducedOp(b), x, k);
    }
  }

  /** For a negative scalar the flooring shift never reaches zero, so
   *  `mul_scalar` does not return. */
  lemma MulScalarNegativeDiverges(b: Base.Backend, x: Target, k: int, fuel: nat)
    requires b.modulus > 1 && k < 0
    ensures MulScalar(b, x, k, fuel).None?
  {
    Monoid.ScalarLoopDiverges(AddOp(b), DoubleOp(b), Identity(), x, k, fuel);
  }
}
