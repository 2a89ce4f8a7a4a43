/** The Montgomery modular-arithmetic engine (`MontgomeryBackend`).
 *
 *  A backend is a modulus together with the constants `new` derives from
 *  it: R = 2^(64·limbs) mod m, R², R³, R⁻¹, −m⁻¹ mod 2^64, the square-root
 *  exponents for m ≡ 3 (mod 4) and the Montgomery form of 3b = 12.  The
 *  operations are plain residue arithmetic on unbounded integers; rug's
 *  `%` truncates toward zero, which is why several operations only land in
 *  [0, m) for non-negative inputs. */
module Montgomery {
  import opened Wrappers
  import opened Ints

  /** 2^64: `compute_inv` works in wrapping `u64` arithmetic. */
  const WORD: int := 0x1_0000_0000_0000_0000

  lemma WordIsPowerOfTwo()
    ensures WORD == Pow2(64)
  {
    assert Pow2(4) == 16;
    assert Pow2(8) == 0x100 by { Pow2Add(4, 4); }
    assert Pow2(16) == 0x1_0000 by { Pow2Add(8, 8); }
    assert Pow2(32) == 0x1_0000_0000 by { Pow2Add(16, 16); }
    assert Pow2(64) == 0x1_0000_0000_0000_0000 by { Pow2Add(32, 32); }
  }

  datatype Backend = Backend(
    modulus: int,
    r: int,
    r2: int,
    rInv: int,
    r3: int,
    inv: int,
    modulusPlusOneDivFour: Option<int>,
    fp2SqrtConstant1: Option<int>,
    fp2SqrtConstant2: Option<int>,
    threeBMont: int,
    limbs: nat)

  /** What `new` establishes about the constants of every backend it
   *  builds. */
  predicate Valid(b: Backend)
  {
    && b.modulus > 1
    && b.r == Pow(2, 64 * b.limbs) % b.modulus
    && b.r2 == (b.r * b.r) % b.modulus
    && b.r3 == (b.r * b.r2) % b.modulus
    && 0 <= b.rInv < b.modulus
    && IsModInverse(b.r, b.rInv, b.modulus)
    && (b.modulusPlusOneDivFour.Some? <==> b.modulus % 4 == 3)
    && (b.modulusPlusOneDivFour.Some? ==> b.modulusPlusOneDivFour.value == (b.modulus + 1) / 4)
  }

  // ---------------------------------------------------------------------
  // Construction

  /** R = 2^(64·limbs) mod m, by `pow_mod`. */
  function ComputeR(m: int, limbs: nat): (r: int)
    requires m > 1
    ensures 0 <= r < m
    ensures r % m == Pow(2, 64 * limbs) % m
  {
    ModMod(Pow(2, 64 * limbs), m);
    Pow(2, 64 * limbs) % m
  }

  /** The value of `inv` after `k` rounds of `compute_inv`'s loop, each
   *  round being `inv = inv * inv; inv = inv * m64` in wrapping `u64`. */
  function InvRounds(m64: int, k: nat): (x: int)
    ensures 0 <= x < WORD
  {
    if k == 0 then 1
    else
      var prev := InvRounds(m64, k - 1);
      ((prev * prev) % WORD * m64) % WORD
  }

  /** `compute_inv`: 63 squaring rounds starting from 1, then a wrapping
   *  negation.  `to_u64_wrapping` keeps the low 64 bits of the two's
   *  complement representation, i.e. the Euclidean residue mod 2^64. */
  function ComputeInv(m: int): (inv: int)
    ensures 0 <= inv < WORD
    ensures m % 2 == 1 ==> (inv * m) % WORD == WORD - 1
  {
    var m64 := m % WORD;
    var x := InvRounds(m64, 63);
    var inv := (WORD - x) % WORD;
    if m % 2 == 1 then
      ComputeInvNegatesInverse(m, 63, x, inv);
      inv
    else
      inv
  }

  /** `p ^ 2` on a rug integer is a bitwise exclusive or: it flips bit 1 of
   *  the two's complement representation. */
  function XorTwo(x: int): (y: int)
    ensures (x / 2) % 2 == 1 ==> y == x - 2
    ensures (x / 2) % 2 == 0 ==> y == x + 2
  {
    if (x / 2) % 2 == 1 then x - 2 else x + 2
  }

  /** `MontgomeryBackend::new`.  It panics when R has no inverse modulo m. */
  function New(modulus: int, limbs: nat): (res: Run<Backend>)
    requires modulus > 1
    ensures res.Done? || res.Panic?
    ensures res.Done? <==> Gcd(Pow(2, 64 * limbs) % modulus, modulus) == 1
    ensures res.Done? ==> Valid(res.value)
    ensures res.Done? ==> res.value.modulus == modulus && res.value.limbs == limbs
    ensures res.Done? ==> res.value.threeBMont == ToMontgomery(res.value, 12)
    ensures res.Done? ==> res.value.threeBMont == (12 * res.value.r) % modulus
    ensures res.Done? && modulus % 2 == 1 ==> (res.value.inv * modulus) % WORD == WORD - 1
    ensures res.Done? && modulus % 4 == 3 && modulus > 3 ==>
      && res.value.fp2SqrtConstant1 == Some((modulus - 3) / 4)
      && res.value.fp2SqrtConstant2 == Some((modulus - 1) / 2)
  {
    var r := ComputeR(modulus, limbs);
    var r2 := Pow(r, 2) % modulus;
    var r3 := TRem(r * r2, modulus);
    var inv := ComputeInv(modulus);
    match InvertMod(r, modulus)
    case None => Panic("R should be invertible")
    case Some(rInv) =>
      var sqrtConstants :=
        if TRem(modulus, 4) != 3 then (None, None, None)
        else
          var c1 := TDiv(modulus + 1, 4);
          var q := XorTwo(modulus);
          var q1 := TDiv(q - 3, 4) + 1;
          var q2 := TDiv(q - 1, 2) + 1;
          (Some(c1), Some(q1), Some(q2));
      var threeBMont := TRem(TRem(12 * r2, modulus) * rInv, modulus);
      var b := Backend(modulus, r, r2, rInv, r3, inv,
                       sqrtConstants.0, sqrtConstants.1, sqrtConstants.2,
                       threeBMont, limbs);
      NewFacts(b, modulus, limbs);
      Done(b)
  }

  /** For an odd modulus R is a power of two, so it is always invertible
   *  and `new` never panics. */
  lemma NewSucceedsForOddModulus(modulus: int, limbs: nat)
    requires modulus > 1 && modulus % 2 == 1
    ensures New(modulus, limbs).Done?
  {
    var r := ComputeR(modulus, limbs);
    var h := (modulus + 1) / 2;
    PowerOfTwoInvertible(modulus, 64 * limbs);
    var w := Pow(h, 64 * limbs);
    ModMulCong(r, Pow(2, 64 * limbs), w, w, modulus);
    assert IsModInverse(r, w, modulus);
  }

  /** (m+1)/2 is the inverse of 2 modulo an odd m, so its powers invert the
   *  powers of two. */
  lemma PowerOfTwoInvertible(m: int, e: nat)
    requires m > 1 && m % 2 == 1
    ensures IsModInverse(Pow(2, e), Pow((m + 1) / 2, e), m)
  {
    var h := (m + 1) / 2;
    assert 2 * h == 1 + 1 * m;
    ModAddMultiple(1, 1, m);
    ModSmall(1, m);
    PowProduct(2, h, e);
    assert Pow(2 * h, e) % m == Pow(1, e) % m by { PowCong(2 * h, 1, e, m); }
    OnePow(e);
  }

  lemma {:induction false} OnePow(e: nat)
    ensures Pow(1, e) == 1
  {
    if e > 0 {
      OnePow(e - 1);
    }
  }

  lemma NewFacts(b: Backend, modulus: int, limbs: nat)
    requires modulus > 1
    requires b.modulus == modulus && b.limbs == limbs
    requires b.r == ComputeR(modulus, limbs)
    requires b.r2 == Pow(b.r, 2) % modulus
    requires b.r3 == TRem(b.r * b.r2, modulus)
    requires b.inv == ComputeInv(modulus)
    requires InvertMod(b.r, modulus) == Some(b.rInv)
    requires b.threeBMont == TRem(TRem(12 * b.r2, modulus) * b.rInv, modulus)
    requires TRem(modulus, 4) != 3 ==>
      b.modulusPlusOneDivFour == None && b.fp2SqrtConstant1 == None && b.fp2SqrtConstant2 == None
    requires TRem(modulus, 4) == 3 ==>
      && b.modulusPlusOneDivFour == Some(TDiv(modulus + 1, 4))
      && b.fp2SqrtConstant1 == Some(TDiv(XorTwo(modulus) - 3, 4) + 1)
      && b.fp2SqrtConstant2 == Some(TDiv(XorTwo(modulus) - 1, 2) + 1)
    ensures Valid(b)
    ensures b.threeBMont == (12 * b.r) % modulus
    ensures b.threeBMont == ToMontgomery(b, 12)
    ensures modulus % 4 == 3 && modulus > 3 ==>
      && b.fp2SqrtConstant1 == Some((modulus - 3) / 4)
      && b.fp2SqrtConstant2 == Some((modulus - 1) / 2)
  {
    var m := modulus;
    assert Pow(b.r, 2) == b.r * b.r by {
      assert Pow(b.r, 1) == b.r;
    }
    assert b.r3 == (b.r * b.r2) % m by {
      assert b.r * b.r2 >= 0;
    }
    assert TRem(m, 4) == m % 4;
    assert Valid(b);
    // three_b_mont = ((12·R² mod m)·R⁻¹) mod m ≡ 12·R
    assert b.threeBMont == MontMul(b, 12, b.r2);
    ToMontgomeryMeaning(b, 12);
    if m % 4 == 3 && m > 3 {
      SqrtConstantsForThreeModFour(m);
    }
  }

  /** For m ≡ 3 (mod 4), m ^ 2 = m − 2, so the two fp2 constants come out
   *  as (m − 3)/4 and (m − 1)/2. */
  lemma SqrtConstantsForThreeModFour(m: int)
    requires m % 4 == 3 && m > 3
    ensures TDiv(XorTwo(m) - 3, 4) + 1 == (m - 3) / 4
    ensures TDiv(XorTwo(m) - 1, 2) + 1 == (m - 1) / 2
  {
    var k := m / 4;
    assert m == 4 * k + 3;
    assert (m / 2) % 2 == 1 by {
      assert m / 2 == 2 * k + 1;
    }
    assert XorTwo(m) == 4 * k + 1;
    assert TDiv(4 * k + 1 - 3, 4) == k - 1 by {
      assert 4 * k - 2 == 4 * (k - 1) + 2;
      ModUnique(4 * k - 2, k - 1, 2, 4);
    }
    assert TDiv(4 * k + 1 - 1, 2) == 2 * k;
  }

  /** After k rounds `inv` holds m64^(2^k − 1) mod 2^64. */
  lemma {:induction false} InvRoundsAsPower(m64: int, k: nat)
    ensures InvRounds(m64, k) == Pow(m64, Pow2(k) - 1) % WORD
    decreases k
  {
    if k > 0 {
      InvRoundsAsPower(m64, k - 1);
      var e := Pow2(k - 1) - 1;
      var prev := InvRounds(m64, k - 1);
      var y := Pow(m64, e);
      assert prev == y % WORD;
      assert (prev * prev) % WORD == (y * y) % WORD by {
        ModMod(y, WORD);
        ModMulCong(prev, y, prev, y, WORD);
      }
      assert ((prev * prev) % WORD * m64) % WORD == (y * y * m64) % WORD by {
        ModMod(prev * prev, WORD);
        ModMulCong((prev * prev) % WORD, y * y, m64, m64, WORD);
      }
      assert y * y * m64 == Pow(m64, Pow2(k) - 1) by {
        assert Pow2(k) - 1 == e + e + 1;
        PowAdd(m64, e, e);
        PowAdd(m64, e + e, 1);
      }
    }
  }

  /** For odd x and k ≥ 1, x^(2^k) ≡ 1 (mod 2^(k+2)). */
  lemma {:induction false} OddPowerOfTwoPower(x: int, k: nat)
    requires x % 2 == 1 && k >= 1
    ensures Pow(x, Pow2(k)) % Pow2(k + 2) == 1
    decreases k
  {
    if k == 1 {
      assert Pow2(3) == 8;
      assert Pow(x, 2) == x * x;
      OddSquare(x);
    } else {
      OddPowerOfTwoPower(x, k - 1);
      var m := Pow2(k + 1);
      var y := Pow(x, Pow2(k - 1));
      var t := y / m;
      assert y == t * m + 1;
      assert Pow(x, Pow2(k)) == y * y by {
        PowAdd(x, Pow2(k - 1), Pow2(k - 1));
      }
      var m2 := Pow2(k + 2);
      var c := Pow2(k);
      assert m2 == 2 * m && m == 2 * c;
      assert y * y == (t + t * t * c) * m2 + 1 by {
        SquareOfOneMore(t, m, c, m2);
      }
      ModUnique(y * y, t + t * t * c, 1, m2);
    }
  }

  lemma OddSquare(x: int)
    requires x % 2 == 1
    ensures (x * x) % 8 == 1
  {
    ModMul(x, x, 8);
    var r := x % 8;
    assert r % 2 == 1 by {
      assert x == 2 * (4 * (x / 8)) + r;
      ModAddMultiple(r, 4 * (x / 8), 2);
    }
    assert r == 1 || r == 3 || r == 5 || r == 7;
  }

  lemma SquareOfOneMore(t: int, m: int, c: int, m2: int)
    requires m2 == 2 * m && m == 2 * c
    ensures (t * m + 1) * (t * m + 1) == (t + t * t * c) * m2 + 1
  {
  }

  lemma OddResidue(m: int)
    requires m % 2 == 1
    ensures (m % WORD) % 2 == 1
  {
    assert m == (m / WORD) * WORD + m % WORD;
    assert m == 2 * ((m / WORD) * (WORD / 2)) + m % WORD;
    ModAddMultiple(m % WORD, (m / WORD) * (WORD / 2), 2);
  }

  /** For odd y, y · y^(2^63 − 1) = y^(2^63) ≡ 1 (mod 2^64). */
  lemma OddInverseByPower(y: int, k: nat)
    requires y % 2 == 1 && k == 63
    ensures (y * Pow(y, Pow2(k) - 1)) % WORD == 1
  {
    assert WORD == Pow2(k + 1) by { WordIsPowerOfTwo(); }
    OddPowerOfTwoPower(y, k - 1);
    var z := Pow(y, Pow2(k - 1));
    assert z % WORD == 1;
    assert y * Pow(y, Pow2(k) - 1) == z * z by {
      PowAdd(y, 1, Pow2(k) - 1);
      PowAdd(y, Pow2(k - 1), Pow2(k - 1));
    }
    ModSmall(1, WORD);
    ModMulCong(z, 1, z, 1, WORD);
  }

  /** The loop of `compute_inv` ends with m⁻¹ mod 2^64, so its negation is
   *  −m⁻¹ mod 2^64. */
  lemma ComputeInvNegatesInverse(m: int, k: nat, x: int, inv: int)
    requires m % 2 == 1 && k == 63
    requires x == InvRounds(m % WORD, k)
    requires inv == (WORD - x) % WORD
    ensures (inv * m) % WORD == WORD - 1
  {
    var m64 := m % WORD;
    OddResidue(m);
    InvRoundsAsPower(m64, k);
    OddInverseByPower(m64, k);
    NegatedInverse(m, m64, x, Pow(m64, Pow2(k) - 1), inv);
  }

  /** If x ≡ p and m64 · p ≡ 1, then (2^64 − x) · m ≡ −1 (mod 2^64). */
  lemma NegatedInverse(m: int, m64: int, x: int, p: int, inv: int)
    requires m64 == m % WORD && x == p % WORD && (m64 * p) % WORD == 1
    requires inv == (WORD - x) % WORD
    ensures (inv * m) % WORD == WORD - 1
  {
    assert inv % WORD == (-p) % WORD by {
      ModMod(WORD - x, WORD);
      ModAddMultiple(-x, 1, WORD);
      ModMod(p, WORD);
      ModCong(0, 0, x, p, WORD);
    }
    assert (inv * m) % WORD == ((-p) * m64) % WORD by {
      ModMod(m, WORD);
      ModMulCong(inv, -p, m, m64, WORD);
    }
    assert (-p) * m64 == 0 - m64 * p;
    assert (0 - m64 * p) % WORD == (0 - 1) % WORD by {
      ModSmall(1, WORD);
      ModCong(0, 0, m64 * p, 1, WORD);
    }
    ModUnique(-1, -1, WORD - 1, WORD);
  }

  // ---------------------------------------------------------------------
  // Plain residue arithmetic

  /** `new_element`: the unique value in [0, m) congruent to `v`. */
  function NewElement(b: Backend, v: int): (r: int)
    requires b.modulus > 1
    ensures 0 <= r < b.modulus
    ensures r == v % b.modulus
  {
    var n := TRem(v, b.modulus);
    if n < 0 then
      ModAddMultiple(n, 1, b.modulus);
      ModSmall(n + b.modulus, b.modulus);
      n + b.modulus
    else
      ModSmall(n, b.modulus);
      n
  }

  function Add(b: Backend, x: int, y: int): (r: int)
    requires b.modulus > 1
    ensures r % b.modulus == (x + y) % b.modulus
    ensures x + y >= 0 ==> r == (x + y) % b.modulus
    ensures -b.modulus < r < b.modulus
  {
    TRem(x + y, b.modulus)
  }

  function Sub(b: Backend, x: int, y: int): (r: int)
    requires b.modulus > 1
    ensures 0 <= r < b.modulus && r == (x - y) % b.modulus
  {
    NewElement(b, x - y)
  }

  function Neg(b: Backend, x: int): (r: int)
    requires b.modulus > 1
    ensures 0 <= r < b.modulus && r == (-x) % b.modulus
  {
    NewElement(b, -x)
  }

  function Mul(b: Backend, x: int, y: int): (r: int)
    requires b.modulus > 1
    ensures r % b.modulus == (x * y) % b.modulus
    ensures x >= 0 && y >= 0 ==> r == (x * y) % b.modulus
    ensures -b.modulus < r < b.modulus
  {
    TRem(x * y, b.modulus)
  }

  function Square(b: Backend, x: int): (r: int)
    requires b.modulus > 1
    ensures 0 <= r < b.modulus && r == (x * x) % b.modulus
  {
    assert x * x >= 0;
    TRem(x * x, b.modulus)
  }

  function Cubic(b: Backend, x: int): (r: int)
    requires b.modulus > 1
    ensures r % b.modulus == (x * x * x) % b.modulus
    ensures x >= 0 ==> r == (x * x * x) % b.modulus
  {
    var s := Square(b, x);
    assert (s * x) % b.modulus == (x * x * x) % b.modulus by {
      ModMod(x * x, b.modulus);
      ModMulCong(s, x * x, x, x, b.modulus);
    }
    Mul(b, s, x)
  }

  /** `pow`: rug's `pow_mod` for a non-negative exponent. */
  function PowMod(b: Backend, x: int, e: nat): (r: int)
    requires b.modulus > 1
    ensures 0 <= r < b.modulus && r == Pow(x, e) % b.modulus
  {
    Pow(x, e) % b.modulus
  }

  /** `sqrt`: the candidate x^((m+1)/4) is returned when it squares back to
   *  the input; the method panics when m ≢ 3 (mod 4). */
  function Sqrt(b: Backend, x: int): (res: Run<Option<int>>)
    requires Valid(b)
    ensures res.Panic? <==> b.modulus % 4 != 3
    ensures !res.Diverges?
    ensures res.Done? && res.value.Some? ==>
      var s := res.value.value;
      0 <= s < b.modulus && (s * s) % b.modulus == x
    ensures res.Done? && res.value.None? ==>
      var s := Pow(x, (b.modulus + 1) / 4) % b.modulus;
      (s * s) % b.modulus != x
  {
    match b.modulusPlusOneDivFour
    case None => Panic("This sqrt implementation only works for p ≡ 3 (mod 4)")
    case Some(exp) =>
      assert exp == (b.modulus + 1) / 4;
      var s := PowMod(b, x, exp);
      if Square(b, s) == x then
        ModSmall(s, b.modulus);
        Done(Some(NewElement(b, s)))
      else Done(None)
  }

  /** 0 is its own square root whenever the square root is defined. */
  lemma SqrtOfZero(b: Backend)
    requires Valid(b) && b.modulus % 4 == 3
    ensures Sqrt(b, 0) == Done(Some(0))
  {
    var e := (b.modulus + 1) / 4;
    assert e >= 1;
    assert Pow(0, e) == 0;
    ModSmall(0, b.modulus);
  }

  /** `invert`: the inverse in [0, m) exactly when gcd(x, m) = 1. */
  function Invert(b: Backend, x: int): (r: Option<int>)
    requires b.modulus > 1
    ensures r.Some? <==> Gcd(x % b.modulus, b.modulus) == 1
    ensures r.Some? ==> 0 <= r.value < b.modulus && IsModInverse(x, r.value, b.modulus)
    ensures r.None? ==> forall v :: !IsModInverse(x, v, b.modulus)
  {
    match InvertMod(x, b.modulus)
    case Some(v) =>
      ModSmall(v, b.modulus);
      Some(NewElement(b, v))
    case None => None
  }

  // ---------------------------------------------------------------------
  // Montgomery arithmetic

  function MontMul(b: Backend, x: int, y: int): (r: int)
    requires Valid(b)
    ensures -b.modulus < r < b.modulus
    ensures x >= 0 && y >= 0 ==> 0 <= r
  {
    var t := TRem(x * y, b.modulus);
    TRem(t * b.rInv, b.modulus)
  }

  /** Montgomery multiplication multiplies and divides by R:
   *  mont_mul(x, y) ≡ x·y·R⁻¹ (mod m). */
  lemma MontMulMeaning(b: Backend, x: int, y: int)
    requires Valid(b)
    ensures MontMul(b, x, y) % b.modulus == (x * y * b.rInv) % b.modulus
    ensures x >= 0 && y >= 0 ==> MontMul(b, x, y) == (x * y * b.rInv) % b.modulus
  {
    var m := b.modulus;
    var t := TRem(x * y, m);
    ModMulCong(t, x * y, b.rInv, b.rInv, m);
    if x >= 0 && y >= 0 {
      assert x * y >= 0;
      assert t >= 0;
      ModSmall(MontMul(b, x, y), m);
    }
  }

  function ToMontgomery(b: Backend, x: int): (r: int)
    requires Valid(b)
    ensures -b.modulus < r < b.modulus
  {
    MontMul(b, x, b.r2)
  }

  function FromMontgomery(b: Backend, x: int): (r: int)
    requires Valid(b)
    ensures -b.modulus < r < b.modulus
  {
    MontMul(b, x, 1)
  }

  lemma RSquaredTimesRInv(b: Backend)
    requires Valid(b)
    ensures (b.r2 * b.rInv) % b.modulus == b.r % b.modulus
  {
    var m := b.modulus;
    assert (b.r2 * b.rInv) % m == (b.r * b.r * b.rInv) % m by {
      ModMod(b.r * b.r, m);
      ModMulCong(b.r2, b.r * b.r, b.rInv, b.rInv, m);
    }
    CancelInverse(b.r, b.r, b.rInv, m);
  }

  /** R²·R⁻¹ ≡ R, so `to_montgomery(x)` is x·R mod m. */
  lemma ToMontgomeryMeaning(b: Backend, x: int)
    requires Valid(b)
    ensures ToMontgomery(b, x) % b.modulus == (x * b.r) % b.modulus
    ensures x >= 0 ==> ToMontgomery(b, x) == (x * b.r) % b.modulus
  {
    var m := b.modulus;
    MontMulMeaning(b, x, b.r2);
    assert (x * b.r2 * b.rInv) % m == (x * b.r) % m by {
      MulAssoc(x, b.r2, b.rInv);
      RSquaredTimesRInv(b);
      ModMod(x, m);
      ModMulCong(x, x, b.r2 * b.rInv, b.r, m);
    }
  }

  /** `from_montgomery` multiplies by R⁻¹. */
  lemma FromMontgomeryMeaning(b: Backend, x: int)
    requires Valid(b)
    ensures FromMontgomery(b, x) % b.modulus == (x * b.rInv) % b.modulus
    ensures x >= 0 ==> FromMontgomery(b, x) == (x * b.rInv) % b.modulus
  {
    MontMulMeaning(b, x, 1);
  }

  /** Leaving the Montgomery domain undoes entering it. */
  lemma FromToMontgomery(b: Backend, x: int)
    requires Valid(b) && x >= 0
    ensures FromMontgomery(b, ToMontgomery(b, x)) == x % b.modulus
  {
    var m := b.modulus;
    var t := ToMontgomery(b, x);
    ToMontgomeryMeaning(b, x);
    FromMontgomeryMeaning(b, t);
    assert (t * b.rInv) % m == (x * b.r * b.rInv) % m by {
      ModMod(x * b.r, m);
      ModMulCong(t, x * b.r, b.rInv, b.rInv, m);
    }
    CancelInverse(x, b.r, b.rInv, m);
  }

  /** Montgomery multiplication of Montgomery forms is the Montgomery form
   *  of the product. */
  lemma MontMulOfMontgomeryForms(b: Backend, x: int, y: int)
    requires Valid(b) && x >= 0 && y >= 0
    ensures MontMul(b, ToMontgomery(b, x), ToMontgomery(b, y)) == ToMontgomery(b, x * y)
  {
    var m := b.modulus;
    var tx, ty := ToMontgomery(b, x), ToMontgomery(b, y);
    ToMontgomeryMeaning(b, x);
    ToMontgomeryMeaning(b, y);
    ToMontgomeryMeaning(b, x * y);
    MontMulMeaning(b, tx, ty);
    assert (tx * ty * b.rInv) % m == ((x * b.r) * (y * b.r) * b.rInv) % m by {
      ModMod(x * b.r, m);
      ModMod(y * b.r, m);
      ModMulCong(tx, x * b.r, ty, y * b.r, m);
      ModMulCong(tx * ty, (x * b.r) * (y * b.r), b.rInv, b.rInv, m);
    }
    assert (x * b.r) * (y * b.r) == (x * y * b.r) * b.r by {
      MulSwap(x, b.r, y, b.r);
      MulAssoc(x * y, b.r, b.r);
    }
    CancelInverse(x * y * b.r, b.r, b.rInv, m);
  }

  /** The value a Montgomery form stands for: x·R⁻¹ mod m. */
  function MontValue(b: Backend, x: int): (v: int)
    requires Valid(b)
    ensures 0 <= v < b.modulus
    ensures v % b.modulus == (x * b.rInv) % b.modulus
  {
    ModMod(x * b.rInv, b.modulus);
    (x * b.rInv) % b.modulus
  }

  /** A Montgomery form is R times the value it stands for. */
  lemma MontgomeryFormOfValue(b: Backend, x: int)
    requires Valid(b) && 0 <= x < b.modulus
    ensures x == (MontValue(b, x) * b.r) % b.modulus
  {
    var m := b.modulus;
    assert (MontValue(b, x) * b.r) % m == (x * b.rInv * b.r) % m by {
      ModMod(b.r, m);
      ModMulCong(MontValue(b, x), x * b.rInv, b.r, b.r, m);
    }
    assert x * b.rInv * b.r == x * b.r * b.rInv by { MulRearrange(x, b.rInv, b.r); }
    CancelInverse(x, b.r, b.rInv, m);
    ModSmall(x, m);
  }

  lemma MontValueOfMontMul(b: Backend, x: int, y: int)
    requires Valid(b)
    ensures MontValue(b, MontMul(b, x, y)) == (MontValue(b, x) * MontValue(b, y)) % b.modulus
  {
    var m := b.modulus;
    var z := MontMul(b, x, y);
    MontMulMeaning(b, x, y);
    assert (z * b.rInv) % m == (x * y * b.rInv * b.rInv) % m by {
      ModMulCong(z, x * y * b.rInv, b.rInv, b.rInv, m);
    }
    assert x * y * b.rInv * b.rInv == (x * b.rInv) * (y * b.rInv) by {
      MulAssoc(x * y, b.rInv, b.rInv);
      MulSwap(x, b.rInv, y, b.rInv);
    }
    ModMulCong(x * b.rInv, MontValue(b, x), y * b.rInv, MontValue(b, y), m);
  }

  /** `mont_pow`: square-and-multiply over the exponent's bits, least
   *  significant first, starting from R (the Montgomery form of 1).  A
   *  negative exponent never reaches zero under `>>= 1`, so the loop is
   *  modelled for non-negative exponents. */
  method MontPow(b: Backend, base: int, exponent: nat) returns (result: int)
    requires Valid(b)
    ensures MontValue(b, result) == Pow(MontValue(b, base), exponent) % b.modulus
    ensures base >= 0 ==> 0 <= result < b.modulus
    ensures base >= 0 ==> result == (Pow(MontValue(b, base), exponent) * b.r) % b.modulus
  {
    var m := b.modulus;
    result := b.r;
    var x := base;
    var exp := exponent;
    assert MontValue(b, b.r) == 1 by { ModSmall(1, m); }
    while exp != 0
      invariant -m < result < m
      invariant base >= 0 ==> 0 <= result && 0 <= x
      invariant (MontValue(b, result) * Pow(MontValue(b, x), exp)) % m
                == Pow(MontValue(b, base), exponent) % m
      decreases exp
    {
      MontPowStep(b, result, x, exp);
      if exp % 2 == 1 {
        result := MontMul(b, result, x);
      }
      x := MontMul(b, x, x);
      exp := exp / 2;
    }
    ModSmall(MontValue(b, result), m);
    if base >= 0 {
      MontgomeryFormOfValue(b, result);
      PowReduceBase(MontValue(b, base), exponent, m);
      ModMod(Pow(MontValue(b, base), exponent), m);
      ModMulCong(MontValue(b, result), Pow(MontValue(b, base), exponent), b.r, b.r, m);
    }
  }

  /** One iteration of `mont_pow` keeps result·x^exp invariant. */
  lemma MontPowStep(b: Backend, result: int, x: int, exp: nat)
    requires Valid(b) && exp > 0
    ensures var result' := if exp % 2 == 1 then MontMul(b, result, x) else result;
            var x' := MontMul(b, x, x);
            (MontValue(b, result') * Pow(MontValue(b, x'), exp / 2)) % b.modulus
            == (MontValue(b, result) * Pow(MontValue(b, x), exp)) % b.modulus
  {
    var m := b.modulus;
    var vr, vx := MontValue(b, result), MontValue(b, x);
    var x' := MontMul(b, x, x);
    var h := exp / 2;
    assert Pow(MontValue(b, x'), h) % m == Pow(vx, h + h) % m by {
      MontValueOfMontMul(b, x, x);
      ModMod(vx * vx, m);
      PowCong(MontValue(b, x'), vx * vx, h, m);
      PowProduct(vx, vx, h);
      PowAdd(vx, h, h);
    }
    if exp % 2 == 1 {
      var result' := MontMul(b, result, x);
      assert (MontValue(b, result') * Pow(MontValue(b, x'), h)) % m
             == ((vr * vx) * Pow(vx, h + h)) % m by {
        MontValueOfMontMul(b, result, x);
        ModMod(vr * vx, m);
        ModMulCong(MontValue(b, result'), vr * vx, Pow(MontValue(b, x'), h), Pow(vx, h + h), m);
      }
      assert (vr * vx) * Pow(vx, h + h) == vr * Pow(vx, exp) by {
        assert exp == h + h + 1;
        PowAdd(vx, 1, h + h);
        MulAssoc(vr, vx, Pow(vx, h + h));
      }
    } else {
      assert exp == h + h;
      ModMulCong(vr, vr, Pow(MontValue(b, x'), h), Pow(vx, h + h), m);
    }
  }

  /** `mont_sqrt`: the candidate is mont_pow(x, (m+1)/4), accepted when its
   *  Montgomery square is the input. */
  method MontSqrt(b: Backend, x: int) returns (res: Run<Option<int>>)
    requires Valid(b)
    ensures res.Panic? <==> b.modulus % 4 != 3
    ensures !res.Diverges?
    ensures res.Done? && res.value.Some? ==>
      var s := res.value.value;
      && MontMul(b, s, s) == x
      && MontValue(b, s) == Pow(MontValue(b, x), (b.modulus + 1) / 4) % b.modulus
    ensures res.Done? && res.value.Some? && x >= 0 ==> 0 <= res.value.value < b.modulus
  {
    match b.modulusPlusOneDivFour {
      case None =>
        res := Panic("This sqrt implementation only works for p ≡ 3 (mod 4)");
      case Some(exp) =>
        var s := MontPow(b, x, exp);
        if MontMul(b, s, s) == x {
          res := Done(Some(s));
        } else {
          res := Done(None);
        }
    }
  }

  // ---------------------------------------------------------------------
  // Points in standard projective coordinates

  /** `double_standard`: a straight-line transcription of projective
   *  doubling for a = 0.  Only the range of its outputs is stated. */
  function DoubleStandard(b: Backend, x: int, y: int, z: int): (p: (int, int, int))
    requires Valid(b)
    ensures 0 <= p.1 < b.modulus
    ensures x >= 0 && y >= 0 && z >= 0 ==>
      0 <= p.0 < b.modulus && 0 <= p.2 < b.modulus
  {
    var xSq := Mul(b, x, x);
    var w := Mul(b, xSq, 3);
    var s := Mul(b, y, z);
    var xy := Mul(b, x, y);
    var bb := Mul(b, xy, s);
    var wSq := Mul(b, w, w);
    var eightB := Mul(b, bb, 8);
    var h := Sub(b, wSq, eightB);
    var twoH := Mul(b, h, 2);
    var xPrime := Mul(b, twoH, s);
    var fourB := Mul(b, bb, 4);
    var fourBMinusH := Sub(b, fourB, h);
    var wTerm := Mul(b, w, fourBMinusH);
    var ySq := Mul(b, y, y);
    var sSq := Mul(b, s, s);
    var yTerm := Mul(b, ySq, sSq);
    var eightYTerm := Mul(b, yTerm, 8);
    var yPrime := Sub(b, wTerm, eightYTerm);
    var sCube := Mul(b, sSq, s);
    var zPrime := Mul(b, sCube, 8);
    (xPrime, yPrime, zPrime)
  }

  /** `add_standard`: the special cases for the point at infinity, for
   *  opposite points and for doubling, then the general formula. */
  function AddStandard(b: Backend, x1: int, y1: int, z1: int, x2: int, y2: int, z2: int)
    : (p: (int, int, int))
    requires Valid(b)
    ensures z1 == 0 ==> p == (x2, y2, z2)
    ensures z1 != 0 && z2 == 0 ==> p == (x1, y1, z1)
    ensures z1 != 0 && z2 != 0 ==>
      var u1, u2 := Mul(b, y2, z1), Mul(b, y1, z2);
      var v1, v2 := Mul(b, x2, z1), Mul(b, x1, z2);
      && (v1 == v2 && (u1 != u2 || y1 == 0) ==> p == (0, 1, 0))
      && (v1 == v2 && u1 == u2 && y1 != 0 ==> p == DoubleStandard(b, x1, y1, z1))
      && (v1 != v2 ==> 0 <= p.0 < b.modulus && 0 <= p.1 < b.modulus)
  {
    if z1 == 0 then (x2, y2, z2)
    else if z2 == 0 then (x1, y1, z1)
    else
      var u1 := Mul(b, y2, z1);
      var u2 := Mul(b, y1, z2);
      var v1 := Mul(b, x2, z1);
      var v2 := Mul(b, x1, z2);
      if v1 == v2 then
        if u1 != u2 then (0, 1, 0)
        else if y1 == 0 then (0, 1, 0)
        else DoubleStandard(b, x1, y1, z1)
      else
        var u := Sub(b, u1, u2);
        var v := Sub(b, v1, v2);
        var w := Mul(b, z1, z2);
        var a := Sub(b, Sub(b, Mul(b, Square(b, u), w), Cubic(b, v)),
                     Mul(b, 2, Mul(b, Square(b, v), v2)));
        var x3 := Mul(b, v, a);
        var y3 := Sub(b, Mul(b, u, Sub(b, Mul(b, Square(b, v), v2), a)),
                      Mul(b, Cubic(b, v), u2));
        var z3 := Mul(b, Cubic(b, v), w);
        (x3, y3, z3)
  }

  /** Adding a finite point with y ≠ 0 to itself takes the doubling
   *  branch. */
  lemma AddStandardSelfDoubles(b: Backend, x: int, y: int, z: int)
    requires Valid(b) && z != 0 && y != 0
    ensures AddStandard(b, x, y, z, x, y, z) == DoubleStandard(b, x, y, z)
  {
  }

  // ---------------------------------------------------------------------
  // Sampling

  /** The byte order `sample_raw`/`sample_mont` use: little-endian for the
   *  4-limb backend, big-endian otherwise. */
  function DigitsValue(b: Backend, s: seq<byte>): nat
  {
    if b.limbs == 4 then FromBytesLE(s) else FromBytesBE(s)
  }

  /** `sample_raw`: 16·limbs random bytes split into halves d0 and d1; the
   *  result is d0 + d1·R reduced mod m. */
  function SampleRaw(b: Backend, bytes: seq<byte>): (r: int)
    requires Valid(b) && |bytes| == 16 * b.limbs
    ensures 0 <= r < b.modulus
    ensures var half := |bytes| / 2;
      r == (DigitsValue(b, bytes[..half]) + DigitsValue(b, bytes[half..]) * b.r) % b.modulus
  {
    var half := |bytes| / 2;
    CombineRaw(b, DigitsValue(b, bytes[..half]), DigitsValue(b, bytes[half..]))
  }

  /** mont_mul(d0, R) + mont_mul(d1, R²), reduced: d0 + d1·R mod m. */
  function CombineRaw(b: Backend, d0: nat, d1: nat): (r: int)
    requires Valid(b)
    ensures 0 <= r < b.modulus
    ensures r == (d0 + d1 * b.r) % b.modulus
  {
    var m := b.modulus;
    var out := MontMul(b, d0, b.r) + MontMul(b, d1, b.r2);
    assert b.r % m == (1 * b.r) % m by { ModMod(b.r, m); }
    assert b.r2 % m == (b.r * b.r) % m by { ModMod(b.r * b.r, m); }
    SampleCombination(b, d0, d1, b.r, b.r2, 1, b.r);
    ModSmall(TRem(out, m), m);
    TRem(out, m)
  }

  /** With R = 2^(8k) mod m, combining the two k-byte little-endian halves
   *  as d0 + d1·R gives the whole string's value mod m. */
  lemma CombineLittleEndianHalves(b: Backend, bytes: seq<byte>, k: nat)
    requires Valid(b) && |bytes| == 2 * k
    requires b.r == Pow(2, 8 * k) % b.modulus
    ensures CombineRaw(b, FromBytesLE(bytes[..k]), FromBytesLE(bytes[k..])) == FromBytesLE(bytes) % b.modulus
  {
    var lo, hi, radix := FromBytesLE(bytes[..k]), FromBytesLE(bytes[k..]), Pow(2, 8 * k);
    assert FromBytesLE(bytes) == lo + hi * radix by { LittleEndianHalves(bytes, k); }
    assert CombineRaw(b, lo, hi) == (lo + hi * radix) % b.modulus by { CombineRawRadix(b, lo, hi, radix); }
  }

  lemma CombineRawRadix(b: Backend, d0: nat, d1: nat, radix: int)
    requires Valid(b) && b.r == radix % b.modulus
    ensures CombineRaw(b, d0, d1) == (d0 + d1 * radix) % b.modulus
  {
    ModMod(radix, b.modulus);
    ReduceRadix(d0, d1, b.r, radix, b.modulus);
  }

  /** `sample_mont`: the same split combined as d0·R + d1·R². */
  function SampleMont(b: Backend, bytes: seq<byte>): (r: int)
    requires Valid(b) && |bytes| == 16 * b.limbs
    ensures 0 <= r < b.modulus
    ensures var half := |bytes| / 2;
      r == (DigitsValue(b, bytes[..half]) * b.r + DigitsValue(b, bytes[half..]) * b.r2) % b.modulus
  {
    var half := |bytes| / 2;
    CombineMont(b, DigitsValue(b, bytes[..half]), DigitsValue(b, bytes[half..]))
  }

  /** mont_mul(d0, R²) + mont_mul(d1, R³), reduced: d0·R + d1·R² mod m. */
  function CombineMont(b: Backend, d0: nat, d1: nat): (r: int)
    requires Valid(b)
    ensures 0 <= r < b.modulus
    ensures r == (d0 * b.r + d1 * b.r2) % b.modulus
  {
    var m := b.modulus;
    var out := MontMul(b, d0, b.r2) + MontMul(b, d1, b.r3);
    assert b.r2 % m == (b.r * b.r) % m by { ModMod(b.r * b.r, m); }
    assert b.r3 % m == (b.r2 * b.r) % m by { ModMod(b.r * b.r2, m); }
    SampleCombination(b, d0, d1, b.r2, b.r3, b.r, b.r2);
    assert (d0 * b.r + d1 * b.r2) % m == out % m;
    ModSmall(TRem(out, m), m);
    TRem(out, m)
  }

  /** A Montgomery sample is the Montgomery form of the raw sample drawn
   *  from the same bytes. */
  lemma SampleMontIsMontgomeryFormOfSampleRaw(b: Backend, bytes: seq<byte>)
    requires Valid(b) && |bytes| == 16 * b.limbs
    ensures SampleMont(b, bytes) == ToMontgomery(b, SampleRaw(b, bytes))
  {
    var half := |bytes| / 2;
    CombineMontIsMontgomeryForm(b, DigitsValue(b, bytes[..half]), DigitsValue(b, bytes[half..]));
  }

  lemma CombineMontIsMontgomeryForm(b: Backend, d0: nat, d1: nat)
    requires Valid(b)
    ensures CombineMont(b, d0, d1) == ToMontgomery(b, CombineRaw(b, d0, d1))
  {
    var m := b.modulus;
    var raw := CombineRaw(b, d0, d1);
    ToMontgomeryMeaning(b, raw);
    assert (raw * b.r) % m == ((d0 + d1 * b.r) * b.r) % m by {
      ModMod(d0 + d1 * b.r, m);
      ModMulCong(raw, d0 + d1 * b.r, b.r, b.r, m);
    }
    assert (d0 + d1 * b.r) * b.r == d0 * b.r + d1 * (b.r * b.r) by {
      MulAssoc(d1, b.r, b.r);
    }
    assert (d0 * b.r + d1 * (b.r * b.r)) % m == (d0 * b.r + d1 * b.r2) % m by {
      ModMod(b.r * b.r, m);
      ModMulCong(d1, d1, b.r * b.r, b.r2, m);
      ModCong(d0 * b.r, d0 * b.r, d1 * (b.r * b.r), d1 * b.r2, m);
    }
  }

  /** mont_mul(d0, c0) + mont_mul(d1, c1) ≡ d0·k0 + d1·k1 when c0 ≡ k0·R
   *  and c1 ≡ k1·R. */
  lemma SampleCombination(b: Backend, d0: nat, d1: nat, c0: int, c1: int, k0: int, k1: int)
    requires Valid(b) && 0 <= c0 && 0 <= c1
    requires c0 % b.modulus == (k0 * b.r) % b.modulus
    requires c1 % b.modulus == (k1 * b.r) % b.modulus
    ensures var out := MontMul(b, d0, c0) + MontMul(b, d1, c1);
      out >= 0 && out % b.modulus == (d0 * k0 + d1 * k1) % b.modulus
  {
    MontMulScaled(b, d0, c0, k0);
    MontMulScaled(b, d1, c1, k1);
    ModCong(MontMul(b, d0, c0), d0 * k0, MontMul(b, d1, c1), d1 * k1, b.modulus);
  }

  /** mont_mul(d, c) ≡ d·k when c ≡ k·R. */
  lemma MontMulScaled(b: Backend, d: int, c: int, k: int)
    requires Valid(b)
    requires c % b.modulus == (k * b.r) % b.modulus
    ensures MontMul(b, d, c) % b.modulus == (d * k) % b.modulus
  {
    var m := b.modulus;
    MontMulMeaning(b, d, c);
    assert (d * c * b.rInv) % m == ((d * b.rInv) * c) % m by {
      MulRearrange(d, c, b.rInv);
    }
    assert ((d * b.rInv) * c) % m == ((d * b.rInv) * (k * b.r)) % m by {
      ModMod(d * b.rInv, m);
      ModMulCong(d * b.rInv, d * b.rInv, c, k * b.r, m);
    }
    assert (d * b.rInv) * (k * b.r) == (d * k) * b.r * b.rInv by {
      MulSwap(d, b.rInv, k, b.r);
      MulAssoc(d * k, b.rInv, b.r);
      MulRearrange(d * k, b.rInv, b.r);
    }
    CancelInverse(d * k, b.r, b.rInv, m);
  }
}
