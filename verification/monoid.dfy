// Repeated addition in a monoid, and the LSB-first
// double-and-add loop that computes it. The operation is a parameter, so
// the laws below are proved once from the monoid axioms and then used by
// the target group.

module Monoid {
  import opened Wrappers
  import opened Ints

  /** `op` is associative with two-sided neutral `e` on the elements
   *  satisfying `ok`, which `op` preserves, and `dbl` is `op` of an
   *  element with itself. Commutativity is not needed. */
  ghost predicate IsMonoid<T(!new)>(op: (T, T) -> T, dbl: T -> T, e: T, ok: T -> bool)
  {
    && ok(e)
    && (forall x, y {:trigger op(x, y)} :: ok(x) && ok(y) ==> ok(op(x, y)))
    && (forall x {:trigger op(x, e)} :: ok(x) ==> op(x, e) == x)
    && (forall x {:trigger op(e, x)} :: ok(x) ==> op(e, x) == x)
    && (forall x, y, z {:trigger op(op(x, y), z)} :: ok(x) && ok(y) && ok(z) ==> op(op(x, y), z) == op(x, op(y, z)))
    && (forall x {:trigger dbl(x)} :: ok(x) ==> dbl(x) == op(x, x))
  }

  /** x added to itself k times. */
  function Power<T>(op: (T, T) -> T, e: T, x: T, k: nat): T
  {
    if k == 0 then e else op(Power(op, e, x, k - 1), x)
  }

  lemma {:induction false} PowerOk<T(!new)>(op: (T, T) -> T, dbl: T -> T, e: T, ok: T -> bool, x: T, k: nat)
    requires IsMonoid(op, dbl, e, ok) && ok(x)
    ensures ok(Power(op, e, x, k))
  {
    if k > 0 {
      PowerOk(op, dbl, e, ok, x, k - 1);
    }
  }

  lemma {:induction false} PowerAdd<T(!new)>(op: (T, T) -> T, dbl: T -> T, e: T, ok: T -> bool, x: T, m: nat, n: nat)
    requires IsMonoid(op, dbl, e, ok) && ok(x)
    ensures Power(op, e, x, m + n) == op(Power(op, e, x, m), Power(op, e, x, n))
    decreases n
  {
    PowerOk(op, dbl, e, ok, x, m);
    if n > 0 {
      PowerOk(op, dbl, e, ok, x, n - 1);
      PowerAdd(op, dbl, e, ok, x, m, n - 1);
    }
  }

  /** A sum of copies of x commutes with x. */
  lemma {:induction false} PowerCommutes<T(!new)>(op: (T, T) -> T, dbl: T -> T, e: T, ok: T -> bool, x: T, k: nat)
    requires IsMonoid(op, dbl, e, ok) && ok(x)
    ensures op(x, Power(op, e, x, k)) == op(Power(op, e, x, k), x)
  {
    PowerAdd(op, dbl, e, ok, x, 1, k);
    PowerAdd(op, dbl, e, ok, x, k, 1);
    assert Power(op, e, x, 1) == x;
  }

  /** Doubling the base doubles the count. */
  lemma {:induction false} PowerOfDouble<T(!new)>(op: (T, T) -> T, dbl: T -> T, e: T, ok: T -> bool, x: T, q: nat)
    requires IsMonoid(op, dbl, e, ok) && ok(x)
    ensures Power(op, e, dbl(x), q) == Power(op, e, x, 2 * q)
    decreases q
  {
    if q > 0 {
      PowerOfDouble(op, dbl, e, ok, x, q - 1);
      PowerAdd(op, dbl, e, ok, x, 2 * q - 2, 2);
      assert Power(op, e, x, 1) == x;
    }
  }

  /** Number of halvings that bring a natural number to zero. */
  function BitLength(n: nat): nat
  {
    if n == 0 then 0 else 1 + BitLength(n / 2)
  }

  /** The double-and-add loop: while `bits` is not zero, add `temp` to the
   *  result when `bits` is odd, double `temp` and shift `bits` right by
   *  one (a flooring shift). It runs for at most `fuel` iterations and
   *  yields None when the fuel runs out first. */
  function ScalarLoop<T>(op: (T, T) -> T, dbl: T -> T, result: T, temp: T, bits: int, fuel: nat): Option<T>
    decreases fuel
  {
    if bits == 0 then Some(result)
    else if fuel == 0 then None
    else
      var result' := if bits % 2 == 1 then op(result, temp) else result;
      ScalarLoop(op, dbl, result', dbl(temp), bits / 2, fuel - 1)
  }

  /** The loop keeps `result + bits·temp` fixed, and the bit length of
   *  the scalar bounds the iterations it needs. */
  lemma {:induction false} ScalarLoopInvariant<T(!new)>(op: (T, T) -> T, dbl: T -> T, e: T, ok: T -> bool,
                                                       result: T, temp: T, bits: nat, fuel: nat)
    requires IsMonoid(op, dbl, e, ok) && ok(result) && ok(temp)
    requires fuel >= BitLength(bits)
    ensures ScalarLoop(op, dbl, result, temp, bits, fuel) == Some(op(result, Power(op, e, temp, bits)))
    decreases bits
  {
    if bits > 0 {
      var q := bits / 2;
      var p := Power(op, e, temp, 2 * q);
      PowerOk(op, dbl, e, ok, temp, 2 * q);
      ScalarLoopInvariant(op, dbl, e, ok, if bits % 2 == 1 then op(result, temp) else result, dbl(temp), q, fuel - 1);
      PowerOfDouble(op, dbl, e, ok, temp, q);
      if bits % 2 == 1 {
        PowerCommutes(op, dbl, e, ok, temp, 2 * q);
      }
    }
  }

  /** A flooring shift keeps a negative number negative, so a negative
   *  scalar never reaches zero and the loop runs out of any fuel. */
  lemma {:induction false} ScalarLoopDiverges<T>(op: (T, T) -> T, dbl: T -> T, result: T, temp: T, bits: int, fuel: nat)
    requires bits < 0
    ensures ScalarLoop(op, dbl, result, temp, bits, fuel).None?
    decreases fuel
  {
    if fuel > 0 {
      var result' := if bits % 2 == 1 then op(result, temp) else result;
      ScalarLoopDiverges(op, dbl, result', dbl(temp), bits / 2, fuel - 1);
    }
  }

  // ---------------------------------------------------------------------
  // Most-significant-bit-first square-and-multiply

  /** Bit `i` of `c`: `(c >> i) & 1 == 1`. */
  predicate Bit(c: nat, i: nat)
  {
    (c / Pow2(i)) % 2 == 1
  }

  /** The scan over bits n − 1 down to 0 of `c`: once a set bit has been
   *  seen, square before each bit, and multiply by `base` at every set
   *  bit. Squaring is skipped while `found` is false. */
  function MsbLoop<T>(op: (T, T) -> T, sq: T -> T, base: T, c: nat, n: nat, result: T, found: bool): T
    decreases n
  {
    if n == 0 then result
    else
      var r1 := if found then sq(result) else result;
      if Bit(c, n - 1) then MsbLoop(op, sq, base, c, n - 1, op(r1, base), true)
      else MsbLoop(op, sq, base, c, n - 1, r1, found)
  }

  /** Shifting right by k + 1 is shifting right by k, then by one. */
  lemma ShiftStep(c: nat, k: nat)
    ensures c / Pow2(k + 1) == (c / Pow2(k)) / 2
    ensures c / Pow2(k) == 2 * (c / Pow2(k + 1)) + (if Bit(c, k) then 1 else 0)
  {
    var p := Pow2(k);
    var q, r := c / p, c % p;
    var a, s := q / 2, q % 2;
    assert c == (2 * p) * a + (p * s + r) by {
      assert c == p * q + r;
      assert q == 2 * a + s;
    }
    assert 0 <= p * s + r < 2 * p;
    ModUnique(c, a, p * s + r, 2 * p);
  }

  /** With a true squaring the scan computes base^c: after the bits above
   *  position n the result is base^h for the prefix h = c >> n, and
   *  `found` records whether that prefix is nonzero. */
  lemma {:induction false} MsbLoopInvariant<T(!new)>(op: (T, T) -> T, sq: T -> T, e: T, ok: T -> bool,
                                                   base: T, c: nat, n: nat, h: nat, result: T, found: bool)
    requires IsMonoid(op, sq, e, ok) && ok(base)
    requires h == c / Pow2(n) && result == Power(op, e, base, h) && (found <==> h > 0)
    ensures MsbLoop(op, sq, base, c, n, result, found) == Power(op, e, base, c)
    decreases n
  {
    if n == 0 {
      assert c / 1 == c;
    } else {
      ShiftStep(c, n - 1);
      var h' := c / Pow2(n - 1);
      PowerOk(op, sq, e, ok, base, h);
      PowerAdd(op, sq, e, ok, base, h, h);
      var r1 := if found then sq(result) else result;
      assert r1 == Power(op, e, base, 2 * h);
      if Bit(c, n - 1) {
        assert h' == 2 * h + 1;
        MsbLoopInvariant(op, sq, e, ok, base, c, n - 1, h', op(r1, base), true);
      } else {
        assert h' == 2 * h;
        MsbLoopInvariant(op, sq, e, ok, base, c, n - 1, h', r1, found);
      }
    }
  }

  lemma MsbLoopIsPower<T(!new)>(op: (T, T) -> T, sq: T -> T, e: T, ok: T -> bool, base: T, c: nat, n: nat)
    requires IsMonoid(op, sq, e, ok) && ok(base) && c < Pow2(n)
    ensures MsbLoop(op, sq, base, c, n, e, false) == Power(op, e, base, c)
  {
    ModUnique(c, 0, c, Pow2(n));
    MsbLoopInvariant(op, sq, e, ok, base, c, n, 0, e, false);
  }

  /** Bits above a number's length are zero, so the scan does nothing
   *  there: no squaring happens before the first set bit. */
  lemma {:induction false} MsbLoopLeadingZeros<T>(op: (T, T) -> T, sq: T -> T, base: T, c: nat, n: nat, k: nat, result: T)
    requires k <= n && c < Pow2(k)
    ensures MsbLoop(op, sq, base, c, n, result, false) == MsbLoop(op, sq, base, c, k, result, false)
    decreases n
  {
    if n > k {
      var big := Pow2(n - 1);
      Pow2Add(k, n - 1 - k);
      assert c < big by {
        MulMono(Pow2(n - 1 - k), 1, Pow2(k));
      }
      ModUnique(c, 0, c, big);
      assert !Bit(c, n - 1);
      assert MsbLoop(op, sq, base, c, n, result, false) == MsbLoop(op, sq, base, c, n - 1, result, false);
      MsbLoopLeadingZeros(op, sq, base, c, n - 1, k, result);
    }
  }
}
