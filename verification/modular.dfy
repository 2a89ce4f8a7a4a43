// The default operations of a prime modulus (`zkper-modular`'s
// `ZkperPrimeTrait`): reduction by the modulus and addition followed by
// reduction. The integers are rug's, whose `%` truncates toward zero, so
// a negative value reduces to a non-positive remainder.

module ModularPrime {
  import opened Wrappers
  import opened Ints

  /** `reduce`: the truncating remainder by the modulus `p`; a zero
   *  modulus panics. The remainder is smaller than |p|, has the sign of
   *  `a`, and differs from `a` by a multiple of `p`. */
  function Reduce(p: int, a: int): (r: Run<int>)
    ensures r.Panic? <==> p == 0
    ensures !r.Diverges?
    ensures r.Done? ==> -(Abs(p) as int) < r.value < Abs(p)
    ensures r.Done? && a >= 0 ==> r.value >= 0
    ensures r.Done? && a <= 0 ==> r.value <= 0
    ensures r.Done? ==> (a - r.value) % Abs(p) == 0
  {
    if p == 0 then Panic("division by zero")
    else
      ReduceDifference(p, a);
      Done(TruncRem(a, p))
  }

  /** The truncating remainder differs from `a` by a multiple of |p|. */
  lemma ReduceDifference(p: int, a: int)
    requires p != 0
    ensures (a - TruncRem(a, p)) % Abs(p) == 0
  {
    var q := TruncDiv(a, p);
    var m := Abs(p);
    var k := if p > 0 then q else -q;
    assert q * p == k * m;
    ModZeroMultiple(k, m);
  }

  /** `additive`: the sum, reduced. */
  function Additive(p: int, a: int, b: int): (r: Run<int>)
    ensures r.Panic? <==> p == 0
    ensures !r.Diverges?
    ensures r.Done? ==> (a + b - r.value) % Abs(p) == 0
  {
    Reduce(p, a + b)
  }

  // ---------------------------------------------------------------------
  // Properties

  /** A value already smaller than the modulus, with either sign, reduces
   *  to itself. */
  lemma ReduceSmall(p: int, a: int)
    requires p != 0 && Abs(a) < Abs(p)
    ensures Reduce(p, a) == Done(a)
  {
    var r := Reduce(p, a).value;
    var m := Abs(p);
    var d := a - r;
    assert d % m == 0;
    if d > 0 {
      ModSmall(d, m);
    } else if d < 0 {
      ModUnique(d, -1, d + m, m);
    }
  }

  /** Reducing twice is reducing once. */
  lemma ReduceIdempotent(p: int, a: int)
    requires p != 0
    ensures Reduce(p, Reduce(p, a).value) == Reduce(p, a)
  {
    ReduceSmall(p, Reduce(p, a).value);
  }

  /** On non-negative values reduction is the ordinary remainder by |p|. */
  lemma ReduceNonNegative(p: int, a: int)
    requires p != 0 && a >= 0
    ensures Reduce(p, a) == Done(a % Abs(p))
  {
    var r := Reduce(p, a).value;
    ModUnique(a, (a - r) / Abs(p), r, Abs(p));
  }

  /** Two values reduce alike exactly when they are congruent, provided
   *  they have the same sign. */
  lemma ReduceCongruent(p: int, a: int, b: int)
    requires p != 0 && a >= 0 && b >= 0
    ensures Reduce(p, a) == Reduce(p, b) <==> a % Abs(p) == b % Abs(p)
  {
    ReduceNonNegative(p, a);
    ReduceNonNegative(p, b);
  }

  /** Addition modulo p is commutative. */
  lemma AdditiveCommutes(p: int, a: int, b: int)
    ensures Additive(p, a, b) == Additive(p, b, a)
  {
    assert a + b == b + a;
  }

  /** On non-negative values addition modulo p is associative, and zero is
   *  its identity on reduced values. */
  lemma AdditiveAssociative(p: int, a: int, b: int, c: int)
    requires p != 0 && a >= 0 && b >= 0 && c >= 0
    ensures Additive(p, Additive(p, a, b).value, c) == Additive(p, a, Additive(p, b, c).value)
    ensures a < Abs(p) ==> Additive(p, a, 0) == Done(a)
  {
    var m := Abs(p);
    ReduceNonNegative(p, a + b);
    ReduceNonNegative(p, b + c);
    ReduceNonNegative(p, (a + b) % m + c);
    ReduceNonNegative(p, a + (b + c) % m);
    ModMod(a + b, m);
    ModMod(b + c, m);
    ModCong((a + b) % m, a + b, c, c, m);
    ModCong(a, a, (b + c) % m, b + c, m);
    if a < m {
      ReduceSmall(p, a);
    }
  }
}
