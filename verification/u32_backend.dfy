// The 32-bit integer backend (`zkper-integer`'s `U32Backed`): wrapping
// arithmetic, Euclid's gcd, the brute-force inverse, trial-division
// primality, bit search, little-endian bytes and bounded sampling.
//
// A Rust panic (division by zero, a short slice, a shift by 32 or more
// in a debug build) is a `Panic` outcome.

module U32Backend {
  import opened Wrappers
  import opened Ints
  import Monoid
  import IntegerTrait

  const WORD: int := 0x1_0000_0000

  type u32 = x: int | 0 <= x < 0x1_0000_0000

  lemma WordIsPowerOfTwo()
    ensures WORD == Pow2(32)
  {
    assert Pow2(4) == 16;
    assert Pow2(8) == 0x100 by { Pow2Add(4, 4); }
    assert Pow2(16) == 0x1_0000 by { Pow2Add(8, 8); }
    assert Pow2(32) == 0x1_0000_0000 by { Pow2Add(16, 16); }
  }

  // ---------------------------------------------------------------------
  // Wrapping arithmetic

  /** `wrapping_add`: the sum, less 2³² if it overflows. */
  function Add(a: u32, b: u32): (r: u32)
    ensures r == a + b || r == a + b - WORD
  {
    (a + b) % WORD
  }

  /** `wrapping_sub`: the difference, plus 2³² if it underflows. */
  function Sub(a: u32, b: u32): (r: u32)
    ensures r == a - b || r == a - b + WORD
  {
    (a - b) % WORD
  }

  /** `wrapping_mul`: the product reduced modulo 2³². */
  function Mul(a: u32, b: u32): (r: u32)
    ensures r % WORD == (a * b) % WORD
    ensures a * b < WORD ==> r == a * b
  {
    WrapFacts(a * b);
    (a * b) % WORD
  }

  lemma WrapFacts(x: int)
    ensures (x % WORD) % WORD == x % WORD
    ensures 0 <= x < WORD ==> x % WORD == x
  {
    ModMod(x, WORD);
    if 0 <= x < WORD {
      ModSmall(x, WORD);
    }
  }

  /** `wrapping_neg`: 2³² − a, and 0 for 0. */
  function Neg(a: u32): (r: u32)
    ensures a == 0 ==> r == 0
    ensures a != 0 ==> r == WORD - a
  {
    if a == 0 then 0 else WORD - a
  }

  /** `wrapping_div`: unsigned division; a zero divisor panics. */
  function Div(a: u32, b: u32): (r: Run<u32>)
    ensures r.Panic? <==> b == 0
    ensures !r.Diverges?
    ensures r.Done? ==> r.value * b <= a < (r.value + 1) * b
  {
    if b == 0 then Panic("attempt to divide by zero") else Done(a / b)
  }

  /** `%`: the remainder; a zero divisor panics. */
  function Rem(a: u32, b: u32): (r: Run<u32>)
    ensures r.Panic? <==> b == 0
    ensures !r.Diverges?
    ensures r.Done? ==> r.value < b && (a - r.value) % b == 0
  {
    if b == 0 then Panic("attempt to calculate the remainder with a divisor of zero")
    else
      ModUnique(a - a % b, a / b, 0, b);
      Done((a % b) as u32)
  }

  /** Adding and subtracting the same value is the identity, and a value
   *  plus its negation is zero. */
  lemma WrappingInverses(a: u32, b: u32)
    ensures Sub(Add(a, b), b) == a
    ensures Add(a, Neg(a)) == 0
    ensures Add(a, b) == Add(b, a) && Mul(a, b) == Mul(b, a)
  {
  }

  /** `from_u64` and `from_i32`: the low 32 bits, so a negative i32 maps
   *  to its two's-complement pattern. */
  function FromU64(u: nat): (r: u32)
    requires u < 0x1_0000_0000_0000_0000
    ensures u < WORD ==> r == u
    ensures r % WORD == u % WORD
  {
    u % WORD
  }

  function FromI32(i: int): (r: u32)
    requires -0x8000_0000 <= i < 0x8000_0000
    ensures i >= 0 ==> r == i
    ensures i < 0 ==> r == i + WORD
  {
    i % WORD
  }

  /** `add_u64`: adds the low 32 bits of the operand. */
  function AddU64(a: u32, rhs: nat): u32
    requires rhs < 0x1_0000_0000_0000_0000
  {
    Add(a, (rhs % WORD) as u32)
  }

  /** `square`: the wrapping square. */
  function Square(a: u32): u32
  {
    Mul(a, a)
  }

  function Compare(a: u32, b: u32): IntegerTrait.Ordering
  {
    IntegerTrait.IntCompare(a, b)
  }

  /** `is_divisible`: the remainder is zero; a zero divisor panics. */
  function IsDivisible(a: u32, b: u32): (r: Run<bool>)
    ensures r.Panic? <==> b == 0
    ensures !r.Diverges?
    ensures r.Done? ==> (r.value <==> Divides(b, a))
  {
    if b == 0 then Panic("attempt to calculate the remainder with a divisor of zero") else Done(a % b == 0)
  }

  /** `is_even` and `is_odd`: the parity of the word. */
  predicate IsEven(a: u32)
  {
    a % 2 == 0
  }

  predicate IsOdd(a: u32)
  {
    a % 2 != 0
  }

  /** The parity tests are complementary, even words are the multiples of
   *  2, and since 2^32 is even a wrapping increment always flips the
   *  parity, also at the top word. */
  lemma ParityFacts(a: u32)
    ensures IsOdd(a) <==> !IsEven(a)
    ensures IsEven(a) <==> Divides(2, a)
    ensures IsOdd(a) <==> IsEven(Add(a, 1))
  {
    if a + 1 == WORD {
      assert Add(a, 1) == 0;
    } else {
      assert Add(a, 1) == a + 1;
    }
  }

  /** `abs`: an unsigned word is its own absolute value. */
  function Abs(a: u32): (r: u32)
    ensures r == a && r >= 0
  {
    a
  }

  /** The backend's operations as the trait's defaults see them. */
  function Ops(): IntegerTrait.IntegerOps<u32>
  {
    IntegerTrait.IntegerOps(
      Compare, Add, Mul,
      (u: nat) => if u < 0x1_0000_0000_0000_0000 then FromU64(u) else 0,
      Div, Rem, (x: u32) => x == 0)
  }

  /** The overrides of `square`, `add_u64` and `is_divisible` agree with
   *  the trait's intent: `square` and `add_u64` with the defaults, and
   *  `is_divisible` with the remainder test (not the quotient test the
   *  default uses); `eq` is equality. */
  lemma OverridesAgree(a: u32, b: u32, rhs: nat)
    requires rhs < 0x1_0000_0000_0000_0000
    ensures Square(a) == IntegerTrait.Square(Ops(), a)
    ensures AddU64(a, rhs) == IntegerTrait.AddU64(Ops(), a, rhs)
    ensures IsDivisible(a, b) == IntegerTrait.IsDivisible(Ops(), a, b)
    ensures IntegerTrait.Eq(Ops(), a, b) <==> a == b
  {
  }

  // ---------------------------------------------------------------------
  // Shifts

  /** `>>`: a shift by 32 or more overflows. */
  function Shr(a: u32, n: nat): (r: Run<u32>)
    ensures r.Panic? <==> n >= 32
    ensures !r.Diverges?
    ensures r.Done? ==> r.value * Pow2(n) <= a < (r.value + 1) * Pow2(n)
  {
    if n >= 32 then Panic("attempt to shift right with overflow")
    else
      FloorDiv(a, Pow2(n));
      Done((a / Pow2(n)) as u32)
  }

  lemma FloorDiv(a: int, p: int)
    requires a >= 0 && p > 0
    ensures 0 <= a / p <= a
    ensures (a / p) * p <= a < (a / p + 1) * p
  {
    ModUnique(a, a / p, a % p, p);
    MulMono(p, 1, a / p);
  }

  /** `<<`: bits shifted past bit 31 are lost; a shift by 32 or more
   *  overflows. */
  function Shl(a: u32, n: nat): (r: Run<u32>)
    ensures r.Panic? <==> n >= 32
    ensures !r.Diverges?
    ensures r.Done? ==> r.value % WORD == (a * Pow2(n)) % WORD
  {
    if n >= 32 then Panic("attempt to shift left with overflow")
    else Done((a * Pow2(n)) % WORD)
  }

  // ---------------------------------------------------------------------
  // pow_mod

  /** `pow_mod` as written: the power wraps at 2³² before it is reduced;
   *  a zero modulus panics. */
  function PowModAsWritten(a: u32, e: u32, m: u32): (r: Run<u32>)
    ensures r.Panic? <==> m == 0
    ensures !r.Diverges?
  {
    PowNonNegative(a, e);
    if m == 0 then Panic("attempt to calculate the remainder with a divisor of zero")
    else Done(((Pow(a, e) % WORD) % m) as u32)
  }

  /** Without overflow the result is the modular power. */
  lemma PowModAsWrittenWithoutOverflow(a: u32, e: u32, m: u32)
    requires m > 0 && Pow(a, e) < WORD
    ensures PowModAsWritten(a, e, m) == Done(Pow(a, e) % m)
  {
    PowNonNegative(a, e);
    ModSmall(Pow(a, e), WORD);
  }

  /** With overflow it is not: (2¹⁶)² wraps to 0, yet 2³² ≡ 1 (mod 3). */
  lemma PowModAsWrittenOverflows()
    ensures PowModAsWritten(0x10000, 2, 3) == Done(0)
    ensures Pow(0x10000, 2) % 3 == 1
  {
    assert Pow(0x10000, 2) == 0x10000 * Pow(0x10000, 1);
    assert Pow(0x10000, 1) == 0x10000 * Pow(0x10000, 0);
    assert Pow(0x10000, 2) == WORD;
  }

  /** `pow_mod` with the reduction inside the loop: square-and-multiply
   *  over 64-bit intermediates, which cannot overflow because both
   *  factors are below the modulus. A zero modulus panics. */
  method PowMod(a: u32, e: u32, m: u32) returns (r: Run<u32>)
    ensures r.Panic? <==> m == 0
    ensures !r.Diverges?
    ensures r.Done? ==> r.value == Pow(a, e) % m
  {
    if m == 0 {
      return Panic("attempt to calculate the remainder with a divisor of zero");
    }
    var result: int := 1 % m;
    var base: int := a % m;
    var k: nat := e;
    PowModStart(a, e, m);
    while k > 0
      invariant 0 <= result < m && 0 <= base < m
      invariant (result * Pow(base, k)) % m == Pow(a, e) % m
    {
      ProductFits(result, base);
      ProductFits(base, base);
      PowModStep(result, base, k, m);
      if k % 2 == 1 {
        result := (result * base) % m;
      }
      base := (base * base) % m;
      k := k / 2;
    }
    ModSmall(result, m);
    return Done(result as u32);
  }

  /** A product of two 32-bit values fits in 64 bits. */
  lemma ProductFits(x: int, y: int)
    requires 0 <= x < WORD && 0 <= y < WORD
    ensures 0 <= x * y < 0x1_0000_0000_0000_0000
  {
    MulMono(WORD - 1, x, y);
    MulMono(WORD - 1, y, WORD - 1);
  }

  /** One step of the square-and-multiply loop keeps its invariant. */
  lemma PowModStep(result: int, base: int, k: nat, m: int)
    requires m > 0 && k > 0
    ensures ((if k % 2 == 1 then (result * base) % m else result) * Pow((base * base) % m, k / 2)) % m
              == (result * Pow(base, k)) % m
  {
    var half := k / 2;
    PowMul(base, 2, half);
    assert Pow(base, 2) == base * base by {
      assert Pow(base, 1) == base * Pow(base, 0);
    }
    PowCong((base * base) % m, base * base, half, m) by { ModMod(base * base, m); }
    var sq := Pow(base * base, half);
    var sqm := Pow((base * base) % m, half);
    if k % 2 == 1 {
      assert k == 2 * half + 1;
      PowAdd(base, 2 * half, 1);
      assert Pow(base, 1) == base;
      ModMulCong((result * base) % m, result * base, sqm, sq, m) by { ModMod(result * base, m); }
      MulAssoc(result, base, sq);
      MulComm(base, sq);
      MulAssoc(result, sq, base);
    } else {
      assert k == 2 * half;
      ModMulCong(result, result, sqm, sq, m);
    }
  }

  /** Started from 1 mod m, the loop's invariant holds. */
  lemma PowModStart(a: int, e: nat, m: int)
    requires m > 0
    ensures ((1 % m) * Pow(a % m, e)) % m == Pow(a, e) % m
  {
    PowCong(a % m, a, e, m) by { ModMod(a, m); }
    ModMulCong(1 % m, 1, Pow(a % m, e), Pow(a, e), m) by { ModMod(1, m); }
  }

  // ---------------------------------------------------------------------
  // gcd, invert, is_prime

  /** `gcd`: Euclid's loop. */
  method Gcd32(a: u32, b: u32) returns (g: u32)
    ensures g == Gcd(a, b)
  {
    var x, y := a, b;
    while y != 0
      invariant Gcd(x, y) == Gcd(a, b)
      decreases y
    {
      x, y := y, x % y;
    }
    return x;
  }

  /** The result divides both inputs, every common divisor divides it,
   *  and gcd(a, 0) is a. */
  lemma GcdIsGreatest(a: u32, b: u32, d: int)
    requires a > 0 || b > 0
    ensures Gcd(a, b) > 0 && a % Gcd(a, b) == 0 && b % Gcd(a, b) == 0
    ensures d > 0 && a % d == 0 && b % d == 0 ==> Gcd(a, b) % d == 0
    ensures b == 0 ==> Gcd(a, b) == a
  {
    GcdDivides(a, b);
    if d > 0 && a % d == 0 && b % d == 0 {
      GcdGreatest(a, b, d);
    }
  }

  /** No i in [1, m) has a·i ≡ 1 (mod m). */
  predicate NoInverseBelow(a: int, m: int)
  {
    forall j :: 1 <= j < m ==> (a * j) % m != 1
  }

  /** `invert`: the smallest i in [1, m) with a·i ≡ 1 (mod m), the
   *  product taken in 64 bits; an error when there is none. */
  method Invert(a: u32, m: u32) returns (r: Result<u32>)
    ensures r.Ok? ==> 1 <= r.value < m && (a * r.value) % m == 1
    ensures r.Ok? ==> forall j :: 1 <= j < r.value ==> (a * j) % m != 1
    ensures r.Err? <==> NoInverseBelow(a, m)
    ensures r.Err? ==> r.error == "No modular inverse found"
  {
    if m == 0 {
      return Err("No modular inverse found");
    }
    var i := 1;
    while i < m
      invariant 1 <= i <= m
      invariant forall j :: 1 <= j < i ==> (a * j) % m != 1
    {
      ProductFits(a, i);
      if (a * i) % m == 1 {
        return Ok(i);
      }
      i := i + 1;
    }
    return Err("No modular inverse found");
  }

  /** For m > 1 the search fails exactly when a is not coprime to m; for
   *  m ≤ 1 it always fails. */
  lemma InvertFailsIffNotCoprime(a: u32, m: u32)
    ensures NoInverseBelow(a, m) <==> m <= 1 || Gcd(a % m, m) != 1
  {
    if m > 1 {
      if Gcd(a % m, m) == 1 {
        InverseBelow(a, m);
      } else {
        NoInverseWithoutCoprimality(a, m);
        forall j | 1 <= j < m
          ensures (a * j) % m != 1
        {
          assert !IsModInverse(a, j, m);
        }
      }
    }
  }

  lemma InverseBelow(a: int, m: int)
    requires m > 1 && Gcd(a % m, m) == 1
    ensures !NoInverseBelow(a, m)
  {
    var v := InvertMod(a, m).value;
    assert IsModInverse(a, v, m);
    ZeroIsNoInverse(a, m);
    InverseWitness(a, m, v);
  }

  lemma ZeroIsNoInverse(a: int, m: int)
    requires m > 1
    ensures !IsModInverse(a, 0, m)
  {
    assert a * 0 == 0;
  }

  lemma InverseWitness(a: int, m: int, v: int)
    requires m > 1 && 0 < v < m && IsModInverse(a, v, m)
    ensures !NoInverseBelow(a, m)
  {
    assert (a * v) % m == 1;
  }

  /** `is_prime`: false up to 1, otherwise trial division by every i with
   *  i² ≤ n (the source bounds i by the truncated floating-point square
   *  root, which is the same bound on 32-bit values). */
  method IsPrime32(n: u32) returns (r: bool)
    ensures r <==> IsPrime(n)
  {
    if n <= 1 {
      return false;
    }
    var i := 2;
    while i * i <= n
      invariant 2 <= i
      invariant forall d :: 2 <= d < i ==> !Divides(d, n)
      decreases n - i
    {
      MulMono(i, 1, i);
      if n % i == 0 {
        assert Divides(i, n) && 1 < i < n by {
          if i >= n {
            MulMono(i, 2, i);
          }
        }
        return false;
      }
      i := i + 1;
    }
    NoSmallDivisor(n, i);
    return true;
  }

  /** A number with no divisor d in [2, i), where i² > n, is prime: a
   *  divisor d in (1, n) has a cofactor n / d, and the smaller of the two
   *  is at most √n. */
  lemma NoSmallDivisor(n: int, i: int)
    requires n > 1 && i >= 2 && i * i > n
    requires forall d :: 2 <= d < i ==> !Divides(d, n)
    ensures IsPrime(n)
  {
    forall d | 1 < d < n
      ensures !Divides(d, n)
    {
      if Divides(d, n) {
        var e := n / d;
        ModUnique(n, e, 0, d);
        assert n == d * e;
        assert e > 1 by {
          if e <= 1 { MulMono(1, e, d); }
        }
        var small := if d <= e then d else e;
        assert small * small <= n by {
          if d <= e { MulMono(e, d, d); } else { MulMono(d, e, e); }
        }
        assert small < i by {
          if small >= i { MulMono(small, i, small); MulMono(small, i, i); }
        }
        assert Divides(small, n) by {
          if small == e { ModUnique(n, d, 0, e); }
        }
      }
    }
  }

  // ---------------------------------------------------------------------
  // Bits, bytes and sampling

  /** `find_first_one`: the least set bit at or above `start`, below 32. */
  method FindFirstOne(x: u32, start: nat) returns (r: Option<nat>)
    ensures r.Some? ==> start <= r.value < 32 && Monoid.Bit(x, r.value)
    ensures r.Some? ==> forall j :: start <= j < r.value ==> !Monoid.Bit(x, j)
    ensures r.None? <==> forall j :: start <= j < 32 ==> !Monoid.Bit(x, j)
    ensures start < 32 && Monoid.Bit(x, start) ==> r == Some(start)
  {
    var i := start;
    while i < 32
      invariant start <= i || i >= 32
      invariant forall j :: start <= j < i && j < 32 ==> !Monoid.Bit(x, j)
    {
      if (x / Pow2(i)) % 2 == 1 {
        assert Monoid.Bit(x, i);
        return Some(i);
      }
      i := i + 1;
    }
    return None;
  }

  /** `to_bytes`: four bytes, least significant first. */
  function ToBytes(x: u32): (bs: seq<byte>)
    ensures |bs| == 4
  {
    [x % 256, (x / 256) % 256, (x / 256 / 256) % 256, x / 256 / 256 / 256]
  }

  /** `from_bytes`: the first four bytes, little-endian; fewer panic. */
  function FromBytes(bs: seq<byte>): (r: Run<u32>)
    ensures r.Panic? <==> |bs| < 4
    ensures !r.Diverges?
    ensures r.Done? ==> r.value == FromBytesLE(bs[..4])
  {
    if |bs| < 4 then Panic("range end index 4 out of range")
    else
      FourBytesBound(bs[..4]);
      Done(FromBytesLE(bs[..4]))
  }

  lemma FourBytesBound(bs: seq<byte>)
    requires |bs| == 4
    ensures FromBytesLE(bs) == bs[0] as int + 256 * (bs[1] as int + 256 * (bs[2] as int + 256 * bs[3] as int))
    ensures FromBytesLE(bs) < WORD
  {
    assert bs[1..][1..] == bs[2..] && bs[2..][1..] == bs[3..] && bs[3..][1..] == [];
  }

  /** The bytes read back to the value, and four bytes written back are
   *  the same bytes. */
  lemma BytesRoundTrip(x: u32, bs: seq<byte>)
    requires |bs| == 4
    ensures FromBytes(ToBytes(x)) == Done(x)
    ensures FromBytes(bs).Done? && ToBytes(FromBytes(bs).value) == bs
  {
    assert ToBytes(x)[..4] == ToBytes(x);
    assert bs[..4] == bs;
    FourBytesBound(ToBytes(x));
    FourBytesBound(bs);
    var v := FromBytesLE(bs);
    var (b0, b1, b2, b3) := (bs[0] as int, bs[1] as int, bs[2] as int, bs[3] as int);
    ModUnique(v, b1 + 256 * (b2 + 256 * b3), b0, 256);
    ModUnique(v / 256, b2 + 256 * b3, b1, 256);
    ModUnique(v / 256 / 256, b3, b2, 256);
    assert ToBytes(v) == bs;
  }

  /** `random_below`: the next word reduced below the bound; a zero bound
   *  panics. */
  function RandomBelow(bound: u32, word: u32): (r: Run<u32>)
    ensures r.Panic? <==> bound == 0
    ensures !r.Diverges?
    ensures r.Done? ==> r.value < bound && (word - r.value) % bound == 0
  {
    if bound == 0 then Panic("attempt to calculate the remainder with a divisor of zero")
    else
      ModUnique(word - word % bound, word / bound, 0, bound);
      Done((word % bound) as u32)
  }
}
