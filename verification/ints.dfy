/** Integer semantics shared by every module.
 *
 *  rug's `Integer` and Rust's primitive integers divide with truncation
 *  toward zero, so `%` takes the sign of the dividend; Dafny's `/` and `%`
 *  are Euclidean.  `TDiv`/`TRem` model the former in terms of the latter.
 *  The module also holds powers, gcd, modular inverses, primality and
 *  byte strings, with the lemmas the rest of the model needs about them. */
module Ints {
  import opened Wrappers

  function Abs(x: int): (r: nat)
    ensures r == x || r == -x
    ensures r >= x && r >= -x
  {
    if x < 0 then -x else x
  }

  /** Quotient of `a / d` rounded toward zero, for a positive divisor. */
  function TDiv(a: int, d: int): (q: int)
    requires d > 0
    ensures a >= 0 ==> q == a / d
    ensures a < 0 ==> q == -((-a) / d)
  {
    if a >= 0 then a / d else -((-a) / d)
  }

  /** Remainder of `a % d` rounded toward zero, for a positive divisor: it
   *  has the sign of `a`, and it is congruent to `a`. */
  function TRem(a: int, d: int): (r: int)
    requires d > 0
    ensures a == TDiv(a, d) * d + r
    ensures a >= 0 ==> r == a % d
    ensures a < 0 ==> -d < r <= 0
    ensures r % d == a % d
  {
    if a >= 0 then
      ModMod(a, d);
      a % d
    else
      NegatedRemainder(a, d);
      -((-a) % d)
  }

  /** The remainder of a negative dividend, taken from that of its
   *  negation. */
  lemma NegatedRemainder(a: int, d: int)
    requires d > 0 && a < 0
    ensures a == (-((-a) / d)) * d + -((-a) % d)
    ensures -d < -((-a) % d) <= 0
    ensures (-((-a) % d)) % d == a % d
  {
    var x := -a;
    assert x == (x / d) * d + x % d;
    assert (-(x / d)) * d == -((x / d) * d);
    ModNegation(x, d);
  }

  /** Quotient rounded toward zero for any nonzero divisor: rug's and
   *  Rust's `/`. */
  function TruncDiv(a: int, d: int): (q: int)
    requires d != 0
  {
    if d > 0 then TDiv(a, d) else -TDiv(a, -d)
  }

  /** Remainder with the sign of the dividend for any nonzero divisor:
   *  rug's and Rust's `%`. */
  function TruncRem(a: int, d: int): (r: int)
    requires d != 0
    ensures a == TruncDiv(a, d) * d + r
    ensures -(Abs(d) as int) < r < Abs(d)
    ensures a >= 0 ==> 0 <= r
    ensures a <= 0 ==> r <= 0
  {
    var m := Abs(d);
    var q := TDiv(a, m);
    assert TruncDiv(a, d) * d == q * m by {
      if d < 0 {
        assert TruncDiv(a, d) == -q && m == -d;
      }
    }
    TRem(a, m)
  }

  /** The truncating remainder is zero exactly when d divides a. */
  lemma TruncRemZero(a: int, d: int)
    requires d != 0
    ensures TruncRem(a, d) == 0 <==> Divides(d, a)
  {
    var m := Abs(d);
    var r := TRem(a, m);
    assert r % m == a % m;
    if r < 0 {
      ModUnique(r, -1, r + m, m);
    } else {
      ModUnique(r, 0, r, m);
    }
    if d < 0 {
      ModUnique(a, -(a / d), a % d, m);
    }
  }

  /** Dafny `%` of a negated value, for a positive modulus. */
  lemma ModNegation(x: int, m: int)
    requires m > 0
    ensures (-(x % m)) % m == (-x) % m
  {
    if x % m == 0 {
      ModUnique(-x, -(x / m), 0, m);
      ModUnique(-(x % m), 0, 0, m);
    } else {
      ModUnique(-x, -(x / m) - 1, m - x % m, m);
      ModUnique(-(x % m), -1, m - x % m, m);
    }
  }

  // ---------------------------------------------------------------------
  // Euclidean remainder

  /** The quotient and remainder of a division are determined by the
   *  equation `x == q * m + s` with `0 <= s < m`. */
  lemma ModUnique(x: int, q: int, s: int, m: int)
    requires m > 0 && 0 <= s < m && x == q * m + s
    ensures x % m == s && x / m == q
  {
    var q' := x / m;
    var s' := x % m;
    assert (q - q') * m == s' - s;
    if q - q' >= 1 {
      assert (q - q') * m >= m by { MulMono(q - q', 1, m); }
    } else if q - q' <= -1 {
      assert (q' - q) * m >= m by { MulMono(q' - q, 1, m); }
    }
  }

  lemma MulMono(a: int, b: int, m: int)
    requires a >= b && m >= 0
    ensures a * m >= b * m
  {
  }

  lemma ModAddMultiple(x: int, k: int, m: int)
    requires m > 0
    ensures (x + k * m) % m == x % m
  {
    ModUnique(x + k * m, x / m + k, x % m, m);
  }

  lemma ModAdd(a: int, b: int, m: int)
    requires m > 0
    ensures (a + b) % m == (a % m + b % m) % m
  {
    var qa, qb := a / m, b / m;
    assert (qa + qb) * m == qa * m + qb * m;
    ModAddMultiple(a % m + b % m, qa + qb, m);
  }

  lemma ModSub(a: int, b: int, m: int)
    requires m > 0
    ensures (a - b) % m == (a % m - b % m) % m
  {
    var qa, qb := a / m, b / m;
    assert (qa - qb) * m == qa * m - qb * m;
    ModAddMultiple(a % m - b % m, qa - qb, m);
  }

  lemma ModMul(a: int, b: int, m: int)
    requires m > 0
    ensures (a * b) % m == ((a % m) * (b % m)) % m
  {
    var qa, ra := a / m, a % m;
    var qb, rb := b / m, b % m;
    assert a * b == (qa * qb * m + qa * rb + ra * qb) * m + ra * rb by {
      assert a == qa * m + ra;
      assert b == qb * m + rb;
    }
    ModAddMultiple(ra * rb, qa * qb * m + qa * rb + ra * qb, m);
  }

  lemma ModMod(a: int, m: int)
    requires m > 0
    ensures (a % m) % m == a % m
  {
    ModUnique(a % m, 0, a % m, m);
  }

  /** Congruent arguments give congruent sums, differences and products. */
  lemma ModCong(a: int, a': int, b: int, b': int, m: int)
    requires m > 0
    requires a % m == a' % m && b % m == b' % m
    ensures (a + b) % m == (a' + b') % m
    ensures (a - b) % m == (a' - b') % m
    ensures (a * b) % m == (a' * b') % m
  {
    ModAdd(a, b, m); ModAdd(a', b', m);
    ModSub(a, b, m); ModSub(a', b', m);
    ModMul(a, b, m); ModMul(a', b', m);
  }

  lemma ModMulCong(a: int, a': int, b: int, b': int, m: int)
    requires m > 0
    requires a % m == a' % m && b % m == b' % m
    ensures (a * b) % m == (a' * b') % m
  {
    ModCong(a, a', b, b', m);
  }

  lemma ModSmall(a: int, m: int)
    requires 0 <= a < m
    ensures a % m == a
  {
    ModUnique(a, 0, a, m);
  }

  /** A value reduced modulo `m` that is congruent to 0 is 0. */
  lemma ModZeroMultiple(k: int, m: int)
    requires m > 0
    ensures (k * m) % m == 0
  {
    ModUnique(k * m, k, 0, m);
  }

  // ---------------------------------------------------------------------
  // Powers

  function Pow(b: int, e: nat): int
    decreases e
  {
    if e == 0 then 1 else b * Pow(b, e - 1)
  }

  lemma {:induction false} PowAdd(b: int, e1: nat, e2: nat)
    ensures Pow(b, e1 + e2) == Pow(b, e1) * Pow(b, e2)
    decreases e1
  {
    if e1 > 0 {
      PowAdd(b, e1 - 1, e2);
      calc {
        Pow(b, e1 + e2);
        b * Pow(b, e1 - 1 + e2);
        b * (Pow(b, e1 - 1) * Pow(b, e2));
        { MulAssoc(b, Pow(b, e1 - 1), Pow(b, e2)); }
        Pow(b, e1) * Pow(b, e2);
      }
    }
  }

  lemma MulAssoc(a: int, b: int, c: int)
    ensures a * (b * c) == (a * b) * c
  {
  }

  lemma {:induction false} PowProduct(a: int, b: int, e: nat)
    ensures Pow(a * b, e) == Pow(a, e) * Pow(b, e)
    decreases e
  {
    if e > 0 {
      PowProduct(a, b, e - 1);
      var x, y := Pow(a, e - 1), Pow(b, e - 1);
      calc {
        Pow(a * b, e);
        (a * b) * Pow(a * b, e - 1);
        (a * b) * (x * y);
        { MulSwap(a, b, x, y); }
        (a * x) * (b * y);
      }
    }
  }

  lemma MulSwap(a: int, b: int, x: int, y: int)
    ensures (a * b) * (x * y) == (a * x) * (b * y)
  {
  }

  lemma MulRearrange(a: int, b: int, c: int)
    ensures a * b * c == (a * c) * b
  {
  }

  lemma {:induction false} PowMul(b: int, e1: nat, e2: nat)
    ensures Pow(b, e1 * e2) == Pow(Pow(b, e1), e2)
    decreases e2
  {
    if e2 > 0 {
      PowMul(b, e1, e2 - 1);
      assert e1 * e2 == e1 + e1 * (e2 - 1);
      PowAdd(b, e1, e1 * (e2 - 1));
    }
  }

  lemma {:induction false} PowNonNegative(b: int, e: nat)
    requires b >= 0
    ensures Pow(b, e) >= 0
    ensures b > 0 ==> Pow(b, e) > 0
    decreases e
  {
    if e > 0 {
      PowNonNegative(b, e - 1);
    }
  }

  lemma {:induction false} PowReduceBase(b: int, e: nat, m: int)
    requires m > 0
    ensures Pow(b % m, e) % m == Pow(b, e) % m
    decreases e
  {
    if e > 0 {
      PowReduceBase(b, e - 1, m);
      ModMod(b, m);
      ModMulCong(b % m, b, Pow(b % m, e - 1), Pow(b, e - 1), m);
    }
  }

  /** Exponents combine under congruence: `x ≡ y` gives `x^e ≡ y^e`. */
  lemma PowCong(x: int, y: int, e: nat, m: int)
    requires m > 0 && x % m == y % m
    ensures Pow(x, e) % m == Pow(y, e) % m
  {
    PowReduceBase(x, e, m);
    PowReduceBase(y, e, m);
  }

  lemma PowTwoPositive(e: nat)
    ensures Pow(2, e) > 0
  {
    PowNonNegative(2, e);
  }

  /** 2^k as a natural number, for use as an exponent. */
  function Pow2(k: nat): (r: nat)
    ensures r >= 1
  {
    if k == 0 then 1 else 2 * Pow2(k - 1)
  }

  lemma {:induction false} Pow2Add(a: nat, b: nat)
    ensures Pow2(a + b) == Pow2(a) * Pow2(b)
    decreases a
  {
    if a > 0 {
      Pow2Add(a - 1, b);
      MulAssoc(2, Pow2(a - 1), Pow2(b));
    }
  }

  /** Multiplying by an inverse cancels: x·r·r⁻¹ ≡ x (mod m). */
  lemma CancelInverse(x: int, r: int, rInv: int, m: int)
    requires m > 1 && IsModInverse(r, rInv, m)
    ensures (x * r * rInv) % m == x % m
  {
    MulAssoc(x, r, rInv);
    ModMod(x, m);
    ModSmall(1, m);
    ModMulCong(x, x, r * rInv, 1, m);
  }

  // ---------------------------------------------------------------------
  // Divisibility, gcd and inverses

  /** `d` divides `n` (0 divides only 0). */
  predicate Divides(d: int, n: int)
  {
    if d == 0 then n == 0 else n % d == 0
  }

  function Gcd(a: nat, b: nat): nat
    decreases b
  {
    if b == 0 then a else Gcd(b, a % b)
  }

  /** Bezout coefficients for `Gcd(a, b)`, by the extended Euclidean
   *  algorithm. */
  function ExtGcd(a: nat, b: nat): (c: (int, int))
    ensures a * c.0 + b * c.1 == Gcd(a, b)
    decreases b
  {
    if b == 0 then (1, 0)
    else
      var c' := ExtGcd(b, a % b);
      var x, y := c'.0, c'.1;
      assert b * x + (a % b) * y == Gcd(a, b);
      assert a % b == a - (a / b) * b;
      (y, x - (a / b) * y)
  }

  lemma DividesLinear(d: int, x: int, y: int, k: int)
    requires d > 0 && x % d == 0 && y % d == 0
    ensures (x * k + y) % d == 0
  {
    var qx, qy := x / d, y / d;
    assert x * k + y == (qx * k + qy) * d by {
      assert x == qx * d;
      assert y == qy * d;
    }
    ModZeroMultiple(qx * k + qy, d);
  }

  /** The Euclidean gcd divides both arguments. */
  lemma {:induction false} GcdDivides(a: nat, b: nat)
    requires a > 0 || b > 0
    ensures Gcd(a, b) > 0
    ensures a % Gcd(a, b) == 0 && b % Gcd(a, b) == 0
    decreases b
  {
    if b == 0 {
      ModZeroMultiple(1, a);
    } else {
      GcdDivides(b, a % b);
      var g := Gcd(a, b);
      assert a == (a / b) * b + a % b;
      DividesLinear(g, b, a % b, a / b);
    }
  }

  /** Every common divisor divides the gcd. */
  lemma {:induction false} GcdGreatest(a: nat, b: nat, d: int)
    requires d > 0 && a % d == 0 && b % d == 0
    ensures Gcd(a, b) % d == 0
    decreases b
  {
    if b > 0 {
      assert a % b == a + (-(a / b)) * b;
      DividesLinear(d, b, a, -(a / b));
      GcdGreatest(b, a % b, d);
    }
  }

  /** `v` is an inverse of `a` modulo `m`. */
  predicate IsModInverse(a: int, v: int, m: int)
    requires m > 1
  {
    (a * v) % m == 1
  }

  /** The modular inverse in [0, m), when it exists: the meaning of rug's
   *  `Integer::invert`. */
  function InvertMod(a: int, m: int): (r: Option<int>)
    requires m > 1
    ensures r.Some? <==> Gcd(a % m, m) == 1
    ensures r.Some? ==> 0 <= r.value < m && IsModInverse(a, r.value, m)
    ensures r.None? ==> forall v :: !IsModInverse(a, v, m)
  {
    var c := ExtGcd(a % m, m);
    if Gcd(a % m, m) == 1 then
      InverseFromBezout(a, c.0, c.1, m);
      Some(c.0 % m)
    else
      NoInverseWithoutCoprimality(a, m);
      None
  }

  lemma InverseFromBezout(a: int, x: int, y: int, m: int)
    requires m > 1
    requires (a % m) * x + m * y == 1
    ensures IsModInverse(a, x % m, m)
  {
    ModMod(x, m);
    ModMod(a, m);
    ModMulCong(a, a % m, x % m, x, m);
    assert (a % m) * x == 1 + (-y) * m;
    ModAddMultiple(1, -y, m);
    ModSmall(1, m);
  }

  lemma NoInverseWithoutCoprimality(a: int, m: int)
    requires m > 1 && Gcd(a % m, m) != 1
    ensures forall v :: !IsModInverse(a, v, m)
  {
    forall v | IsModInverse(a, v, m)
      ensures false
    {
      var g := Gcd(a % m, m);
      GcdDivides(a % m, m);
      CommonDivisorOfInverse(a, v, m, g);
    }
  }

  /** A common divisor of `a mod m` and `m` divides 1 when `a` has an
   *  inverse modulo `m`. */
  lemma CommonDivisorOfInverse(a: int, v: int, m: int, g: int)
    requires m > 1 && IsModInverse(a, v, m)
    requires g > 0 && (a % m) % g == 0 && m % g == 0
    ensures g == 1
  {
    assert a == (a % m) + (a / m) * m;
    assert m * (a / m) + a % m == a;
    DividesLinear(g, m, a % m, a / m);
    assert a % g == 0;
    DividesLinear(g, a, 0, v);
    var k := (a * v) / m;
    assert a * v == k * m + 1;
    assert m * (-k) + a * v == 1;
    DividesLinear(g, m, a * v, -k);
    if g > 1 {
      ModSmall(1, g);
    }
  }

  // ---------------------------------------------------------------------
  // Primality

  /** `n` is prime.  The source's probabilistic test (`is_probably_prime`)
   *  is read as this exact predicate. */
  predicate IsPrime(n: int)
  {
    n > 1 && forall d :: 1 < d < n ==> !Divides(d, n)
  }

  /** rug's `is_probably_prime` (GMP's `mpz_probab_prime_p`) tests the
   *  absolute value, so a negated prime passes as well; its probabilistic
   *  answer is read as exact. */
  predicate IsProbablyPrime(n: int)
  {
    IsPrime(Abs(n))
  }

  /** A residue of a prime that is not zero is coprime to it. */
  lemma PrimeCoprime(x: int, p: int)
    requires IsPrime(p) && x % p != 0
    ensures Gcd(x % p, p) == 1
  {
    var a := x % p;
    var g := Gcd(a, p);
    GcdDivides(a, p);
    DividesBound(g, a);
    if g != 1 {
      assert 1 < g < p;
      assert Divides(g, p);
    }
  }

  /** A positive multiple of d is at least d. */
  lemma DividesBound(d: int, a: int)
    requires d > 0 && a > 0 && a % d == 0
    ensures d <= a
  {
    var q := a / d;
    assert a == d * q;
    if q <= 0 {
      MulMono(0, q, d);
    } else {
      MulMono(q, 1, d);
    }
  }

  // ---------------------------------------------------------------------
  // Bytes

  type byte = x: int | 0 <= x < 256

  /** The number whose base-256 digits are `s`, least significant first
   *  (rug `Order::Lsf`). */
  function FromBytesLE(s: seq<byte>): (v: nat)
    ensures v < Pow(256, |s|)
  {
    if |s| == 0 then 0
    else
      var rest := FromBytesLE(s[1..]);
      assert s[0] + 256 * rest < Pow(256, |s|) by {
        assert rest + 1 <= Pow(256, |s| - 1);
        MulMono(Pow(256, |s| - 1), rest + 1, 256);
      }
      s[0] + 256 * rest
  }

  /** The number whose base-256 digits are `s`, most significant first
   *  (rug `Order::Msf`). */
  function FromBytesBE(s: seq<byte>): (v: nat)
    ensures v < Pow(256, |s|)
  {
    if |s| == 0 then 0
    else
      var rest := FromBytesBE(s[..|s| - 1]);
      assert 256 * rest + s[|s| - 1] < Pow(256, |s|) by {
        assert rest + 1 <= Pow(256, |s| - 1);
        MulMono(Pow(256, |s| - 1), rest + 1, 256);
      }
      256 * rest + s[|s| - 1]
  }

  /** Splitting a little-endian string: the upper part is scaled by
   *  256^k. */
  lemma {:induction false} FromBytesLESplit(s: seq<byte>, k: nat)
    requires k <= |s|
    ensures FromBytesLE(s) == FromBytesLE(s[..k]) + Pow(256, k) * FromBytesLE(s[k..])
    decreases k
  {
    if k > 0 {
      FromBytesLESplit(s[1..], k - 1);
      assert s[1..][..k - 1] == s[..k][1..];
      assert s[1..][k - 1..] == s[k..];
      var hi := FromBytesLE(s[k..]);
      var lo := FromBytesLE(s[..k][1..]);
      calc {
        FromBytesLE(s);
        s[0] + 256 * FromBytesLE(s[1..]);
        s[0] + 256 * (lo + Pow(256, k - 1) * hi);
        { MulAssoc(256, Pow(256, k - 1), hi); }
        s[0] + 256 * lo + Pow(256, k) * hi;
        FromBytesLE(s[..k]) + Pow(256, k) * hi;
      }
    }
  }

  lemma LittleEndianHalves(bytes: seq<byte>, k: nat)
    requires |bytes| == 2 * k
    ensures FromBytesLE(bytes) == FromBytesLE(bytes[..k]) + FromBytesLE(bytes[k..]) * Pow(2, 8 * k)
  {
    var lo, hi := FromBytesLE(bytes[..k]), FromBytesLE(bytes[k..]);
    var radix := Pow(256, k);
    FromBytesLESplit(bytes, k);
    assert FromBytesLE(bytes) == lo + radix * hi;
    ByteRadix(k);
    MulComm(radix, hi);
  }

  lemma MulComm(a: int, b: int)
    ensures a * b == b * a
  {
  }

  /** 256^k = 2^(8k). */
  lemma ByteRadix(k: nat)
    ensures Pow(256, k) == Pow(2, 8 * k)
  {
    assert Pow(2, 8) == 256;
    PowMul(2, 8, k);
  }

  /** Replacing a radix by a congruent one does not change a two-digit
   *  number modulo m. */
  lemma ReduceRadix(d0: int, d1: int, r: int, radix: int, m: int)
    requires m > 0 && r % m == radix % m
    ensures (d0 + d1 * r) % m == (d0 + d1 * radix) % m
  {
    ModMulCong(d1, d1, r, radix, m);
    ModCong(d0, d0, d1 * r, d1 * radix, m);
  }
}
