/** Dividing a factor out as often as possible, the divisibility facts the
 *  factorization routines rely on, and sorted sets of factors.
 *
 *  rug's `/` truncates; every division here is exact (the divisor divides
 *  the dividend), where truncating and Euclidean division agree. */
module Divisors {
  import opened Ints

  // ---------------------------------------------------------------------
  // Exact division

  /** An exact quotient by a divisor of absolute value at least 2 is
   *  nonzero, smaller in absolute value, and the truncating quotient. */
  lemma ExactQuotient(r: int, f: int)
    requires Abs(f) > 1 && r != 0 && Divides(f, r)
    ensures r == (r / f) * f
    ensures r / f != 0 && Abs(r / f) < Abs(r)
    ensures TruncDiv(r, f) == r / f
  {
    var q := r / f;
    assert r == q * f;
    AbsMul(q, f);
    MulMono(Abs(f), 2, Abs(q));
    ExactTrunc(r, f, q);
  }

  lemma AbsMul(a: int, b: int)
    ensures Abs(a * b) == Abs(a) * Abs(b)
  {
    if a < 0 && b < 0 { assert a * b == (-a) * (-b); }
    else if a < 0 { assert -(a * b) == (-a) * b; }
    else if b < 0 { assert -(a * b) == a * (-b); }
  }

  lemma ExactTrunc(r: int, f: int, q: int)
    requires f != 0 && r == q * f && Divides(f, r)
    ensures TruncDiv(r, f) == q
  {
    TruncRemZero(r, f);
    var t := TruncDiv(r, f);
    assert (t - q) * f == 0;
    AbsMul(t - q, f);
    if t != q {
      MulMono(Abs(t - q), 1, Abs(f));
    }
  }

  /** Divides `r` by `f` as long as `f` divides it: the cofactor and the
   *  number of divisions, so that r = cofactor · f^count. */
  function RemoveAll(r: int, f: int): (res: (int, nat))
    requires Abs(f) > 1 && r != 0
    ensures res.0 != 0 && !Divides(f, res.0)
    ensures r == res.0 * Pow(f, res.1)
    ensures res.1 > 0 <==> Divides(f, r)
    decreases Abs(r)
  {
    if Divides(f, r) then
      ExactQuotient(r, f);
      var (q, k) := RemoveAll(r / f, f);
      assert r == q * Pow(f, k + 1) by {
        assert Pow(f, k + 1) == f * Pow(f, k);
        MulAssoc(q, Pow(f, k), f);
      }
      (q, k + 1)
    else (r, 0)
  }

  /** For a positive number and a factor above 1 the cofactor is a
   *  positive divisor of the number, smaller than it when the factor
   *  divides. */
  lemma RemoveAllBounds(m: int, f: int)
    requires m > 0 && f > 1
    ensures 0 < RemoveAll(m, f).0 <= m
    ensures Divides(RemoveAll(m, f).0, m)
    ensures Divides(f, m) ==> RemoveAll(m, f).0 < m
  {
    var (q, k) := RemoveAll(m, f);
    PowAtLeastOne(f, k);
    if q <= 0 {
      MulMono(0, q, Pow(f, k));
    }
    MulMono(Pow(f, k), 1, q);
    MulComm(q, Pow(f, k));
    ModZeroMultiple(Pow(f, k), q);
    if k > 0 {
      PowAtLeastBase(f, k);
      MulMono(Pow(f, k), 2, q);
    }
  }

  lemma {:induction false} PowAtLeastOne(f: int, k: nat)
    requires f > 0
    ensures Pow(f, k) >= 1
    decreases k
  {
    if k > 0 {
      PowAtLeastOne(f, k - 1);
      MulMono(f, 1, Pow(f, k - 1));
    }
  }

  lemma PowAtLeastBase(f: int, k: nat)
    requires f > 0 && k > 0
    ensures Pow(f, k) >= f
  {
    PowAtLeastOne(f, k - 1);
    MulMono(Pow(f, k - 1), 1, f);
  }

  // ---------------------------------------------------------------------
  // Divisibility

  lemma DividesTrans(a: int, b: int, c: int)
    requires a > 0 && Divides(a, b) && Divides(b, c)
    ensures Divides(a, c)
  {
    if b != 0 {
      var k := b / a;
      var l := c / b;
      assert b == k * a;
      assert c == l * b;
      assert c == (l * k) * a by { MulAssoc(l, k, a); }
      ModZeroMultiple(l * k, a);
    }
  }

  /** A multiple of a number is divisible by each divisor of that number. */
  lemma DividesMultiple(a: int, b: int, k: int)
    requires a > 0 && Divides(a, b)
    ensures Divides(a, b * k)
  {
    var q := b / a;
    assert b * k == (q * k) * a by {
      assert b == q * a;
      MulAssoc(q, a, k);
      MulComm(a, k);
      MulAssoc(q, k, a);
    }
    ModZeroMultiple(q * k, a);
  }

  /** A divisor d of a positive n lies in [1, n] when d is positive. */
  lemma DivisorBound(d: int, n: int)
    requires d > 0 && n > 0 && Divides(d, n)
    ensures d <= n
  {
    DividesBound(d, n);
  }

  /** Every number above 1 has a prime divisor. */
  lemma {:induction false} PrimeDivisor(n: int) returns (p: int)
    requires n > 1
    ensures IsPrime(p) && Divides(p, n) && p <= n
    decreases n
  {
    if IsPrime(n) {
      ModZeroMultiple(1, n);
      return n;
    }
    var d :| 1 < d < n && Divides(d, n);
    p := PrimeDivisor(d);
    DividesTrans(p, d, n);
  }

  /** A prime that divides another prime is that prime. */
  lemma PrimeDividesPrime(q: int, f: int)
    requires IsPrime(q) && IsPrime(f) && Divides(q, f)
    ensures q == f
  {
    DividesBound(q, f);
  }

  /** Euclid's lemma: a prime that divides a product divides a factor. */
  lemma Euclid(p: int, a: int, b: int)
    requires IsPrime(p) && Divides(p, a * b)
    ensures Divides(p, a) || Divides(p, b)
  {
    if !Divides(p, a) {
      PrimeCoprime(a, p);
      var v := InvertMod(a, p).value;
      assert (a * v) % p == 1;
      assert (a * b) % p == 0;
      calc {
        b % p;
        { ModSmall(1, p); ModMulCong(1, a * v, b, b, p); }
        ((a * v) * b) % p;
        { assert (a * v) * b == (a * b) * v by { MulAssoc(a, v, b); MulComm(v, b); MulAssoc(a, b, v); } }
        ((a * b) * v) % p;
        { ModMulCong(a * b, 0, v, v, p); }
        0;
      }
    }
  }

  /** A prime divides no power of a different prime. */
  lemma {:induction false} PrimeNotDividesPower(q: int, f: int, k: nat)
    requires IsPrime(q) && IsPrime(f) && q != f
    ensures !Divides(q, Pow(f, k))
    decreases k
  {
    if k == 0 {
      ModSmall(1, q);
    } else {
      PrimeNotDividesPower(q, f, k - 1);
      if Divides(q, Pow(f, k)) {
        assert Pow(f, k) == f * Pow(f, k - 1);
        Euclid(q, f, Pow(f, k - 1));
        PrimeDividesPrime(q, f);
      }
    }
  }

  /** Dividing a factor out of m moves it into the product P. */
  lemma DivideOut(m: int, p: int, P: int)
    requires p > 1 && m > 0 && Divides(p, m)
    ensures 0 < m / p < m
    ensures (m / p) * (P * p) == m * P
  {
    ExactQuotient(m, p);
    var q := m / p;
    assert q * (P * p) == (q * p) * P by {
      MulAssoc(q, P, p);
      MulComm(q, P);
      MulAssoc(P, q, p);
      MulComm(P, q * p);
    }
    if q <= 0 {
      MulMono(0, q, p);
    }
  }

  /** The product of a list of factors. */
  function Prod(s: seq<int>): int
  {
    if |s| == 0 then 1 else s[0] * Prod(s[1..])
  }

  lemma {:induction false} ProdAppend(s: seq<int>, x: int)
    ensures Prod(s + [x]) == Prod(s) * x
    decreases |s|
  {
    if |s| > 0 {
      assert (s + [x])[1..] == s[1..] + [x];
      ProdAppend(s[1..], x);
      MulAssoc(s[0], Prod(s[1..]), x);
    }
  }

  /** A prime that divides a power divides its base. */
  lemma {:induction false} PrimeDividesPower(q: int, f: int, k: nat)
    requires IsPrime(q) && Divides(q, Pow(f, k))
    ensures Divides(q, f)
    decreases k
  {
    if k == 0 {
      ModSmall(1, q);
    } else {
      Euclid(q, f, Pow(f, k - 1));
      if !Divides(q, f) {
        PrimeDividesPower(q, f, k - 1);
      }
    }
  }

  // ---------------------------------------------------------------------
  // Sorted sets of factors

  /** Strictly increasing: sorted and free of duplicates. */
  predicate StrictlyIncreasing(s: seq<int>)
  {
    forall i, j :: 0 <= i < j < |s| ==> s[i] < s[j]
  }

  /** Inserts `x` into a strictly increasing sequence: the `HashSet`
   *  insertion followed by the final sort, done one element at a time. */
  function InsertSorted(s: seq<int>, x: int): (r: seq<int>)
    requires StrictlyIncreasing(s)
    ensures StrictlyIncreasing(r)
    ensures forall y :: y in r <==> y in s || y == x
  {
    if |s| == 0 then [x]
    else if x < s[0] then [x] + s
    else if x == s[0] then s
    else
      var rest := InsertSorted(s[1..], x);
      assert forall y :: y in s <==> y == s[0] || y in s[1..] by {
        assert s == [s[0]] + s[1..];
      }
      assert forall i :: 0 <= i < |rest| ==> s[0] < rest[i] by {
        forall i | 0 <= i < |rest|
          ensures s[0] < rest[i]
        {
          assert rest[i] in rest;
        }
      }
      [s[0]] + rest
  }
}
