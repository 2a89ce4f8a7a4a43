// Linear combinations over the BLS12-381 scalar field
// (`constraints/linear_combination.rs`): a list of (variable, coefficient)
// terms that every operation extends at the end. Coefficients are reduced
// where the source calls `BLS12_381_SCALAR.neg` or `.mul`; that backend is
// the parameter `b` (`Bls12.ScalarBackend()` in the program), and r is
// its modulus.
//
// `Value` is the meaning of a combination under an assignment of values
// to variables; the lemmas below say what each operation does to it.

module LinearCombinations {
  import opened Ints
  import Base = Montgomery
  import Bls12
  import opened Constraints

  type Term = (Variable, int)

  datatype LinearCombination = LinearCombination(terms: seq<Term>)

  /** `zero`: no terms. */
  function Zero(): (r: LinearCombination)
    ensures |r.terms| == 0
  {
    LinearCombination([])
  }

  /** `add`: exactly the given term is appended. */
  function Add(lc: LinearCombination, t: Term): (r: LinearCombination)
    ensures |r.terms| == |lc.terms| + 1
    ensures r.terms[..|lc.terms|] == lc.terms && r.terms[|lc.terms|] == t
  {
    LinearCombination(lc.terms + [t])
  }

  /** `sub`: the term is appended with its coefficient negated mod r. */
  function Sub(b: Base.Backend, lc: LinearCombination, t: Term): (r: LinearCombination)
    requires b.modulus > 1
    ensures |r.terms| == |lc.terms| + 1 && r.terms[..|lc.terms|] == lc.terms
    ensures r.terms[|lc.terms|].0 == t.0
    ensures 0 <= r.terms[|lc.terms|].1 < b.modulus && (r.terms[|lc.terms|].1 + t.1) % b.modulus == 0
  {
    var c := Base.Neg(b, t.1);
    NegCancels(c, t.1, b.modulus);
    Add(lc, (t.0, c))
  }

  lemma NegCancels(c: int, v: int, m: int)
    requires m > 0 && c == (-v) % m
    ensures (c + v) % m == 0
  {
    ModMod(-v, m);
    ModCong(c, -v, v, v, m);
  }

  /** A value that cancels v modulo m is congruent to −v. */
  lemma CancelsIsNeg(c: int, v: int, m: int)
    requires m > 0 && (c + v) % m == 0
    ensures c % m == (-v) % m
  {
    ModSub(c + v, v, m);
    ModSub(0, v, m);
    ModUnique(0, 0, 0, m);
  }

  /** `add_one`: coefficient 1. */
  function AddOne(lc: LinearCombination, v: Variable): (r: LinearCombination)
    ensures r == Add(lc, (v, 1))
  {
    LinearCombination(lc.terms + [(v, 1)])
  }

  /** `sub_one`: `sub` with coefficient 1, which appends r − 1. */
  function SubOne(b: Base.Backend, lc: LinearCombination, v: Variable): (r: LinearCombination)
    requires b.modulus > 1
    ensures r == Add(lc, (v, b.modulus - 1))
  {
    ModUnique(-1, -1, b.modulus - 1, b.modulus);
    Sub(b, lc, (v, 1))
  }

  /** `add_linear_combination`: the other's terms, in order, one `add`
   *  each. */
  function AddLinearCombination(lc: LinearCombination, other: LinearCombination): (r: LinearCombination)
    ensures r.terms == lc.terms + other.terms
    decreases |other.terms|
  {
    if |other.terms| == 0 then lc
    else
      var r := AddLinearCombination(Add(lc, other.terms[0]), LinearCombination(other.terms[1..]));
      assert lc.terms + other.terms == (lc.terms + [other.terms[0]]) + other.terms[1..];
      r
  }

  /** The terms `sub_linear_combination`, `add_scaled` and `sub_scaled`
   *  append: each variable with its coefficient mapped by `f`. */
  predicate AppendsMapped(lc: LinearCombination, other: LinearCombination, r: LinearCombination, f: int -> int)
  {
    && |r.terms| == |lc.terms| + |other.terms|
    && r.terms[..|lc.terms|] == lc.terms
    && forall i :: 0 <= i < |other.terms| ==>
         r.terms[|lc.terms| + i] == (other.terms[i].0, f(other.terms[i].1))
  }

  function NegOf(b: Base.Backend): int -> int
  {
    c => if b.modulus > 1 then Base.Neg(b, c) else c
  }

  function ScaleOf(b: Base.Backend, s: int): int -> int
  {
    c => if b.modulus > 1 then Base.Mul(b, c, s) else c
  }

  function NegScaleOf(b: Base.Backend, s: int): int -> int
  {
    c => if b.modulus > 1 then Base.Neg(b, Base.Mul(b, c, s)) else c
  }

  /** `sub_linear_combination`: the other's terms, each through `sub`. */
  function SubLinearCombination(b: Base.Backend, lc: LinearCombination, other: LinearCombination): (r: LinearCombination)
    requires b.modulus > 1
    ensures AppendsMapped(lc, other, r, NegOf(b))
    decreases |other.terms|
  {
    if |other.terms| == 0 then lc
    else
      var r := SubLinearCombination(b, Sub(b, lc, other.terms[0]), LinearCombination(other.terms[1..]));
      AppendsMappedStep(lc, other, Sub(b, lc, other.terms[0]), r, NegOf(b));
      r
  }

  /** `add_scaled`: each of the other's terms with its coefficient times
   *  the scalar mod r. */
  function AddScaled(b: Base.Backend, lc: LinearCombination, s: int, other: LinearCombination): (r: LinearCombination)
    requires b.modulus > 1
    ensures AppendsMapped(lc, other, r, ScaleOf(b, s))
    decreases |other.terms|
  {
    if |other.terms| == 0 then lc
    else
      var t := other.terms[0];
      var next := Add(lc, (t.0, Base.Mul(b, t.1, s)));
      var r := AddScaled(b, next, s, LinearCombination(other.terms[1..]));
      AppendsMappedStep(lc, other, next, r, ScaleOf(b, s));
      r
  }

  /** `sub_scaled`: each of the other's terms through `sub` after scaling. */
  function SubScaled(b: Base.Backend, lc: LinearCombination, s: int, other: LinearCombination): (r: LinearCombination)
    requires b.modulus > 1
    ensures AppendsMapped(lc, other, r, NegScaleOf(b, s))
    decreases |other.terms|
  {
    if |other.terms| == 0 then lc
    else
      var t := other.terms[0];
      var next := Sub(b, lc, (t.0, Base.Mul(b, t.1, s)));
      var r := SubScaled(b, next, s, LinearCombination(other.terms[1..]));
      AppendsMappedStep(lc, other, next, r, NegScaleOf(b, s));
      r
  }

  /** Appending the first mapped term, then the mapped rest, appends the
   *  whole mapped list. */
  lemma AppendsMappedStep(lc: LinearCombination, other: LinearCombination, next: LinearCombination,
                          r: LinearCombination, f: int -> int)
    requires |other.terms| > 0
    requires next == Add(lc, (other.terms[0].0, f(other.terms[0].1)))
    requires AppendsMapped(next, LinearCombination(other.terms[1..]), r, f)
    ensures AppendsMapped(lc, other, r, f)
  {
    var n := |lc.terms|;
    assert r.terms[..n] == r.terms[..n + 1][..n];
    forall i | 0 <= i < |other.terms|
      ensures r.terms[n + i] == (other.terms[i].0, f(other.terms[i].1))
    {
      if i > 0 {
        assert r.terms[(n + 1) + (i - 1)] == (other.terms[1..][i - 1].0, f(other.terms[1..][i - 1].1));
      } else {
        assert r.terms[..n + 1][n] == next.terms[n];
      }
    }
  }

  // ---------------------------------------------------------------------
  // The value of a combination

  /** Σ coefficient · value(variable) over the terms. */
  function Value(terms: seq<Term>, val: Variable -> int): int
  {
    if |terms| == 0 then 0
    else Value(terms[..|terms| - 1], val) + terms[|terms| - 1].1 * val(terms[|terms| - 1].0)
  }

  lemma {:induction false} ValueAppend(s: seq<Term>, t: seq<Term>, val: Variable -> int)
    ensures Value(s + t, val) == Value(s, val) + Value(t, val)
    decreases |t|
  {
    if |t| > 0 {
      var n := |t| - 1;
      assert (s + t)[..|s + t| - 1] == s + t[..n];
      assert (s + t)[|s + t| - 1] == t[n];
      assert Value(s + t, val) == Value(s + t[..n], val) + t[n].1 * val(t[n].0);
      assert Value(t, val) == Value(t[..n], val) + t[n].1 * val(t[n].0);
      ValueAppend(s, t[..n], val);
    } else {
      assert s + t == s;
    }
  }

  /** Terms whose coefficients are k times the originals, modulo r, have
   *  k times the value, modulo r. */
  lemma {:induction false} ScaledValue(s: seq<Term>, s': seq<Term>, k: int, val: Variable -> int, m: int)
    requires m > 0 && ScaledTerms(s, s', k, m)
    ensures Value(s', val) % m == (k * Value(s, val)) % m
    decreases |s|
  {
    if |s| > 0 {
      var n := |s| - 1;
      assert ScaledTerms(s[..n], s'[..n], k, m) by {
        forall i | 0 <= i < n
          ensures ScaledAt(s[..n], s'[..n], k, m, i)
        {
          assert ScaledAt(s, s', k, m, i);
        }
      }
      assert ScaledAt(s, s', k, m, n);
      ScaledValue(s[..n], s'[..n], k, val, m);
      var x := val(s[n].0);
      var a, a' := Value(s[..n], val), Value(s'[..n], val);
      ModMulCong(s'[n].1, k * s[n].1, x, x, m);
      ModCong(a', k * a, s'[n].1 * x, (k * s[n].1) * x, m);
      Distribute(k, a, s[n].1, x);
    }
  }

  lemma Distribute(k: int, a: int, c: int, x: int)
    ensures k * a + (k * c) * x == k * (a + c * x)
  {
  }

  /** `add` adds c · value(v). */
  lemma AddValue(lc: LinearCombination, v: Variable, c: int, val: Variable -> int)
    ensures Value(Add(lc, (v, c)).terms, val) == Value(lc.terms, val) + c * val(v)
  {
    assert Add(lc, (v, c)).terms[..|lc.terms|] == lc.terms;
  }

  /** `sub` subtracts c · value(v), modulo r. */
  lemma SubValue(b: Base.Backend, lc: LinearCombination, v: Variable, c: int, val: Variable -> int)
    requires b.modulus > 1
    ensures Value(Sub(b, lc, (v, c)).terms, val) % b.modulus == (Value(lc.terms, val) - c * val(v)) % b.modulus
  {
    var r := Sub(b, lc, (v, c));
    var c' := r.terms[|lc.terms|].1;
    AddValue(lc, v, c', val);
    SubTermValue(Value(lc.terms, val), c', c, val(v), b.modulus);
  }

  lemma SubTermValue(a: int, c': int, c: int, x: int, m: int)
    requires m > 0 && (c' + c) % m == 0
    ensures (a + c' * x) % m == (a - c * x) % m
  {
    CancelsIsNeg(c', c, m);
    ModMulCong(c', -c, x, x, m);
    ModCong(a, a, c' * x, -c * x, m);
  }

  /** `add_linear_combination` adds the values. */
  lemma AddLinearCombinationValue(lc: LinearCombination, other: LinearCombination, val: Variable -> int)
    ensures Value(AddLinearCombination(lc, other).terms, val) == Value(lc.terms, val) + Value(other.terms, val)
  {
    ValueAppend(lc.terms, other.terms, val);
  }

  /** A combination that appends the other's terms mapped by f has the
   *  value of the prefix plus that of the appended terms. */
  lemma AppendedValue(m: int, lc: LinearCombination, other: LinearCombination, r: LinearCombination, f: int -> int,
                      k: int, val: Variable -> int)
    requires m > 0 && AppendsMapped(lc, other, r, f)
    requires ActsAsTimes(f, k, m)
    ensures Value(r.terms, val) % m == (Value(lc.terms, val) + k * Value(other.terms, val)) % m
  {
    var tail := MappedTail(m, lc, other, r, f, k);
    ScaledTailValue(m, lc.terms, other.terms, tail, r.terms, k, val);
  }

  lemma ScaledTailValue(m: int, s: seq<Term>, o: seq<Term>, tail: seq<Term>, all: seq<Term>, k: int,
                        val: Variable -> int)
    requires m > 0 && all == s + tail && ScaledTerms(o, tail, k, m)
    ensures Value(all, val) % m == (Value(s, val) + k * Value(o, val)) % m
  {
    var v, a, t, w := Value(all, val), Value(s, val), Value(tail, val), Value(o, val);
    assert v == a + t by {
      ValueAppend(s, tail, val);
      assert Value(all, val) == Value(s + tail, val);
    }
    assert t % m == (k * w) % m by { ScaledValue(o, tail, k, val, m); }
    AppendCongruence(v, a, t, w, k, m);
  }

  lemma AppendCongruence(v: int, a: int, t: int, o: int, k: int, m: int)
    requires m > 0 && v == a + t && t % m == (k * o) % m
    ensures v % m == (a + k * o) % m
  {
    ModCong(a, a, t, k * o, m);
  }

  /** f agrees with multiplication by k, modulo m. */
  ghost predicate ActsAsTimes(f: int -> int, k: int, m: int)
    requires m > 0
  {
    forall c :: f(c) % m == (k * c) % m
  }

  /** The same variables as `o`, with coefficients k times those of `o`,
   *  modulo m. */
  predicate ScaledTerms(o: seq<Term>, tail: seq<Term>, k: int, m: int)
    requires m > 0
  {
    |tail| == |o| && forall i :: 0 <= i < |o| ==> ScaledAt(o, tail, k, m, i)
  }

  predicate ScaledAt(o: seq<Term>, tail: seq<Term>, k: int, m: int, i: int)
    requires m > 0 && 0 <= i < |o| == |tail|
  {
    tail[i].0 == o[i].0 && tail[i].1 % m == (k * o[i].1) % m
  }

  /** The appended terms: the other's variables with coefficients k times
   *  the other's, modulo m. */
  lemma MappedTail(m: int, lc: LinearCombination, other: LinearCombination, r: LinearCombination, f: int -> int,
                   k: int) returns (tail: seq<Term>)
    requires m > 0 && AppendsMapped(lc, other, r, f)
    requires ActsAsTimes(f, k, m)
    ensures r.terms == lc.terms + tail && ScaledTerms(other.terms, tail, k, m)
  {
    var n := |lc.terms|;
    tail := r.terms[n..];
    assert r.terms == r.terms[..n] + tail;
    forall i | 0 <= i < |other.terms|
      ensures ScaledAt(other.terms, tail, k, m, i)
    {
      assert tail[i] == r.terms[n + i];
    }
  }

  /** Negation mod r is multiplication by −1 mod r. */
  lemma NegIsMinusOne(b: Base.Backend)
    requires b.modulus > 1
    ensures forall c :: NegOf(b)(c) % b.modulus == (-1 * c) % b.modulus
  {
    forall c ensures NegOf(b)(c) % b.modulus == (-1 * c) % b.modulus {
      NegModIsNeg(c, b.modulus);
    }
  }

  lemma ScaleIsTimes(b: Base.Backend, s: int)
    requires b.modulus > 1
    ensures forall c :: ScaleOf(b, s)(c) % b.modulus == (s * c) % b.modulus
  {
  }

  lemma NegScaleIsTimesNeg(b: Base.Backend, s: int)
    requires b.modulus > 1
    ensures forall c :: NegScaleOf(b, s)(c) % b.modulus == (-s * c) % b.modulus
  {
    forall c ensures NegScaleOf(b, s)(c) % b.modulus == (-s * c) % b.modulus {
      NegOfCongruent(Base.Mul(b, c, s), c, s, b.modulus);
    }
  }

  lemma NegModIsNeg(c: int, m: int)
    requires m > 0
    ensures ((-c) % m) % m == (-1 * c) % m
  {
    ModMod(-c, m);
  }

  lemma NegOfCongruent(p: int, c: int, s: int, m: int)
    requires m > 0 && p % m == (c * s) % m
    ensures ((-p) % m) % m == (-s * c) % m
  {
    ModMod(-p, m);
    ModSub(0, p, m);
    ModSub(0, c * s, m);
    assert -s * c == 0 - c * s;
  }

  /** `sub_linear_combination` subtracts the values, modulo r. */
  lemma SubLinearCombinationValue(b: Base.Backend, lc: LinearCombination, other: LinearCombination, val: Variable -> int)
    requires b.modulus > 1
    ensures Value(SubLinearCombination(b, lc, other).terms, val) % b.modulus
         == (Value(lc.terms, val) - Value(other.terms, val)) % b.modulus
  {
    NegIsMinusOne(b);
    AppendedValue(b.modulus, lc, other, SubLinearCombination(b, lc, other), NegOf(b), -1, val);
  }

  /** `add_scaled` adds s times the other's value, modulo r. */
  lemma AddScaledValue(b: Base.Backend, lc: LinearCombination, s: int, other: LinearCombination, val: Variable -> int)
    requires b.modulus > 1
    ensures Value(AddScaled(b, lc, s, other).terms, val) % b.modulus
         == (Value(lc.terms, val) + s * Value(other.terms, val)) % b.modulus
  {
    ScaleIsTimes(b, s);
    AppendedValue(b.modulus, lc, other, AddScaled(b, lc, s, other), ScaleOf(b, s), s, val);
  }

  /** `sub_scaled` subtracts s times the other's value, modulo r. */
  lemma SubScaledValue(b: Base.Backend, lc: LinearCombination, s: int, other: LinearCombination, val: Variable -> int)
    requires b.modulus > 1
    ensures Value(SubScaled(b, lc, s, other).terms, val) % b.modulus
         == (Value(lc.terms, val) - s * Value(other.terms, val)) % b.modulus
  {
    NegScaleIsTimesNeg(b, s);
    AppendedValue(b.modulus, lc, other, SubScaled(b, lc, s, other), NegScaleOf(b, s), -s, val);
  }
}
