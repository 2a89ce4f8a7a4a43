// Multi-exponentiation (`multiexp/mod.rs`): the sum of e_j·B_j over the
// exponents, where a density map says which exponents have a base at
// all and the bases are drawn in order from a source.
//
// The same loop serves G1 (`multiexp`) and G2 (`multiexp_g2`); the group
// is a parameter here, given by its identity, addition, the affine to
// projective conversion and scalar multiplication.

module Multiexp {
  import opened Wrappers
  import opened Ints
  import Monoid
  import Prover

  // ---------------------------------------------------------------------
  // The base source

  /** The bases and the index of the next one to hand out. */
  datatype BaseSource<A> = BaseSource(bases: seq<A>, currentIndex: nat)

  /** `new` / `new_with_start_idx`: the source starts at the given index,
   *  or at 0. */
  function NewSource<A>(bases: seq<A>, start: Option<nat>): (s: BaseSource<A>)
    ensures s.bases == bases
    ensures s.currentIndex == (if start.Some? then start.value else 0)
  {
    BaseSource(bases, start.UnwrapOr(0))
  }

  /** `skip`: moves the index forward; it may pass the end. */
  function Skip<A>(s: BaseSource<A>, amt: nat): (r: BaseSource<A>)
    ensures r.bases == s.bases && r.currentIndex == s.currentIndex + amt
  {
    s.(currentIndex := s.currentIndex + amt)
  }

  /** `next`: the base at the index, which then moves on by one; nothing,
   *  and no move, once the index has passed the end. */
  function Next<A>(s: BaseSource<A>): (r: (Option<A>, BaseSource<A>))
    ensures r.0.Some? <==> s.currentIndex < |s.bases|
    ensures r.0.Some? ==> r.0.value == s.bases[s.currentIndex] && r.1 == Skip(s, 1)
    ensures r.0.None? ==> r.1 == s
  {
    if s.currentIndex < |s.bases| then (Some(s.bases[s.currentIndex]), s.(currentIndex := s.currentIndex + 1))
    else (None, s)
  }

  /** A source hands out exactly the bases from its index to the end:
   *  k > 0 calls of `next` all succeed iff k bases remain. */
  lemma {:induction false} NextRun<A>(s: BaseSource<A>, k: nat)
    ensures NextsSucceed(s, k) <==> k == 0 || s.currentIndex + k <= |s.bases|
    decreases k
  {
    if k > 0 {
      assert NextsSucceed(s, k) == (Next(s).0.Some? && NextsSucceed(Next(s).1, k - 1));
      if Next(s).0.Some? {
        NextRun(Next(s).1, k - 1);
      }
    }
  }

  predicate NextsSucceed<A>(s: BaseSource<A>, k: nat)
    decreases k
  {
    k == 0 || (Next(s).0.Some? && NextsSucceed(Next(s).1, k - 1))
  }

  // ---------------------------------------------------------------------
  // The group and the reference sum

  /** The group operations multi-exponentiation uses. */
  datatype GroupOps<!P, !A> = GroupOps(
    identity: P,
    add: (P, P) -> P,
    fromAffine: A -> P,
    mulScalar: (P, int) -> P)

  /** Exponent j takes part: the density map (if any) selects it. */
  predicate Selected(density: Option<Prover.Density>, j: nat)
    requires density.Some? ==> j < |density.value.bits|
  {
    density.None? || density.value.bits[j]
  }

  /** Exponent j draws a base: it is selected and nonzero. */
  predicate Contributes(density: Option<Prover.Density>, exps: seq<int>, j: nat)
    requires j < |exps| && (density.Some? ==> j < |density.value.bits|)
  {
    Selected(density, j) && exps[j] != 0
  }

  /** The base exponent j is paired with: with a density map the selected
   *  exponents before j each used up one base; without one every
   *  exponent before j did. */
  function Position(start: nat, density: Option<Prover.Density>, j: nat): nat
    requires density.Some? ==> j <= |density.value.bits|
  {
    start + (if density.None? then j else Prover.Count(Prover.Density(density.value.bits[..j])))
  }

  predicate Shaped(density: Option<Prover.Density>, exps: seq<int>)
  {
    density.Some? ==> |density.value.bits| == |exps|
  }

  /** Every contributing exponent among the first n has a base. */
  predicate EnoughBases<A>(bases: seq<A>, start: nat, density: Option<Prover.Density>, exps: seq<int>, n: nat)
    requires n <= |exps| && Shaped(density, exps)
  {
    forall j :: 0 <= j < n && Contributes(density, exps, j) ==> Position(start, density, j) < |bases|
  }

  /** The term added for one exponent: the base as a projective point
   *  (without a density map, the identity plus the base), multiplied by
   *  the exponent unless that is one. */
  function Term<P, A>(g: GroupOps<P, A>, mapped: bool, base: A, e: int): P
  {
    var cur := if mapped then g.fromAffine(base) else g.add(g.identity, g.fromAffine(base));
    if e != 1 then g.mulScalar(cur, e) else cur
  }

  /** The sum, from the left, of the terms of the first n contributing
   *  exponents, each with the base at its position. */
  function RefSum<P, A>(g: GroupOps<P, A>, bases: seq<A>, start: nat, density: Option<Prover.Density>,
                        exps: seq<int>, n: nat): P
    requires n <= |exps| && Shaped(density, exps) && EnoughBases(bases, start, density, exps, n)
  {
    if n == 0 then g.identity
    else
      var prev := RefSum(g, bases, start, density, exps, n - 1);
      if Contributes(density, exps, n - 1) then
        g.add(prev, Term(g, density.Some?, bases[Position(start, density, n - 1)], exps[n - 1]))
      else prev
  }

  // ---------------------------------------------------------------------
  // multiexp

  /** `multiexp` (and `multiexp_g2`): a density map of the wrong length
   *  fails the `assert_eq!`; a contributing exponent whose base is past
   *  the end returns the "Ran out of bases" error; otherwise the result
   *  is the reference sum. */
  method Multiexp<P, A>(g: GroupOps<P, A>, bases: seq<A>, start: Option<nat>, density: Option<Prover.Density>,
                        exps: seq<int>) returns (r: Run<Result<P>>)
    ensures r.Panic? <==> !Shaped(density, exps)
    ensures !r.Diverges?
    ensures r.Done? ==> (r.value.Ok? <==> EnoughBases(bases, start.UnwrapOr(0), density, exps, |exps|))
    ensures r.Done? && r.value.Ok? ==> r.value.value == RefSum(g, bases, start.UnwrapOr(0), density, exps, |exps|)
    ensures r.Done? && r.value.Err? ==> r.value.error == "Ran out of bases"
  {
    var s0 := start.UnwrapOr(0);
    var acc := g.identity;
    var src := NewSource(bases, start);
    if density.Some? && |density.value.bits| != |exps| {
      return Panic("assertion `left == right` failed");
    }
    var i := 0;
    while i < |exps|
      invariant 0 <= i <= |exps|
      invariant src.bases == bases && src.currentIndex == Position(s0, density, i)
      invariant EnoughBases(bases, s0, density, exps, i)
      invariant acc == RefSum(g, bases, s0, density, exps, i)
    {
      CountStep(density, i);
      RefSumStep(g, bases, s0, density, exps, i);
      if Selected(density, i) {
        if exps[i] != 0 {
          var (base, src') := Next(src);
          if base.None? {
            assert !EnoughBases(bases, s0, density, exps, |exps|) by {
              assert Contributes(density, exps, i) && Position(s0, density, i) >= |bases|;
            }
            return Done(Err("Ran out of bases"));
          }
          var current := if density.Some? then g.fromAffine(base.value)
                         else g.add(g.identity, g.fromAffine(base.value));
          if exps[i] != 1 {
            current := g.mulScalar(current, exps[i]);
          }
          acc := g.add(acc, current);
          src := src';
        } else {
          src := Skip(src, 1);
        }
      }
      i := i + 1;
    }
    return Done(Ok(acc));
  }

  /** One more exponent adds its term exactly when it contributes, and
   *  needs a base exactly then. */
  lemma RefSumStep<P, A>(g: GroupOps<P, A>, bases: seq<A>, start: nat, density: Option<Prover.Density>,
                         exps: seq<int>, i: nat)
    requires i < |exps| && Shaped(density, exps) && EnoughBases(bases, start, density, exps, i)
    ensures EnoughBases(bases, start, density, exps, i + 1) <==>
              (Contributes(density, exps, i) ==> Position(start, density, i) < |bases|)
    ensures EnoughBases(bases, start, density, exps, i + 1) ==>
              RefSum(g, bases, start, density, exps, i + 1) ==
                if Contributes(density, exps, i) then
                  g.add(RefSum(g, bases, start, density, exps, i),
                        Term(g, density.Some?, bases[Position(start, density, i)], exps[i]))
                else RefSum(g, bases, start, density, exps, i)
  {
  }

  /** One more exponent moves the position by one exactly when it is
   *  selected. */
  lemma CountStep(density: Option<Prover.Density>, i: nat)
    requires density.Some? ==> i < |density.value.bits|
    ensures Position(0, density, i + 1) == Position(0, density, i) + (if Selected(density, i) then 1 else 0)
  {
    if density.Some? {
      var bits := density.value.bits;
      assert bits[..i + 1][..i] == bits[..i];
    }
  }

  // ---------------------------------------------------------------------
  // What the sum means

  /** The group laws the reference sum is read against: `add` is a monoid
   *  on the elements satisfying `ok` with neutral `identity`, the bases
   *  are such elements, and `mulScalar` by a non-negative e is e-fold
   *  addition. */
  ghost predicate Lawful<P(!new), A(!new)>(g: GroupOps<P, A>, ok: P -> bool)
  {
    && Monoid.IsMonoid(g.add, x => g.add(x, x), g.identity, ok)
    && (forall a :: ok(g.fromAffine(a)))
    && (forall p, e {:trigger g.mulScalar(p, e)} :: ok(p) && e >= 0 ==> g.mulScalar(p, e) == Monoid.Power(g.add, g.identity, p, e))
  }

  /** Σ e_j·B_j over the first n contributing exponents, in order. */
  function LinearSum<P, A>(g: GroupOps<P, A>, bases: seq<A>, start: nat, density: Option<Prover.Density>,
                           exps: seq<int>, n: nat): P
    requires n <= |exps| && Shaped(density, exps) && EnoughBases(bases, start, density, exps, n)
    requires forall j :: 0 <= j < |exps| ==> exps[j] >= 0
  {
    if n == 0 then g.identity
    else
      var prev := LinearSum(g, bases, start, density, exps, n - 1);
      if Contributes(density, exps, n - 1) then
        g.add(prev, Monoid.Power(g.add, g.identity, g.fromAffine(bases[Position(start, density, n - 1)]), exps[n - 1]))
      else prev
  }

  /** In a lawful group, with non-negative exponents, the shortcuts of the
   *  loop (no multiplication by one, the identity added in front) do not
   *  change the value: the reference sum is Σ e_j·B_j. */
  lemma {:induction false} RefSumIsLinear<P(!new), A(!new)>(g: GroupOps<P, A>, ok: P -> bool, bases: seq<A>, start: nat,
                                                     density: Option<Prover.Density>, exps: seq<int>, n: nat)
    requires Lawful(g, ok)
    requires n <= |exps| && Shaped(density, exps) && EnoughBases(bases, start, density, exps, n)
    requires forall j :: 0 <= j < |exps| ==> exps[j] >= 0
    ensures RefSum(g, bases, start, density, exps, n) == LinearSum(g, bases, start, density, exps, n)
  {
    if n > 0 {
      RefSumIsLinear(g, ok, bases, start, density, exps, n - 1);
      if Contributes(density, exps, n - 1) {
        var base := g.fromAffine(bases[Position(start, density, n - 1)]);
        var e := exps[n - 1];
        assert ok(base);
        assert g.add(g.identity, base) == base;
        if e == 1 {
          assert Monoid.Power(g.add, g.identity, base, 1) == g.add(g.identity, base);
        }
      }
    }
  }
}
