// Lenstra's elliptic-curve method (`factorization/ecm`): the driver of
// `ecm_one_factor`, its parameter table, the factor-collecting loop of
// `ecm_with_params`, and `get_factor_ecm`.
//
// The Montgomery-curve arithmetic (`point.rs`, not part of this model)
// and the random choice of each curve are a parameter: for the i-th curve
// tried, the cube u³ of Suyama's u, the value v, the z coordinate after
// stage 1 and the product accumulated in stage 2. The driver's decisions
// are made from the gcds of these with n, exactly as in the source.

module Ecm {
  import opened Wrappers
  import opened Ints
  import opened Divisors

  const BOUNDS_NOT_EVEN: string := "Bounds should be an even integer"
  const ECM_FAILED: string := "The factorization failed"
  const NUMBER_IS_PRIME: string := "The number is prime"

  /** What the curve arithmetic produced for one curve. */
  datatype Curve = Curve(u3: int, v: int, stage1Z: int, stage2Product: int)

  /** `(4·u³·v)`, whose inverse modulo n gives the curve constant. */
  function InvertArgument(cv: Curve): int
  {
    4 * cv.u3 * cv.v
  }

  /** The integer square root: `(b2 as f64).sqrt() as usize` for the
   *  bounds in use. */
  function ISqrt(x: nat): (d: nat)
    ensures d * d <= x < (d + 1) * (d + 1)
  {
    ISqrtFrom(x, 0)
  }

  function ISqrtFrom(x: nat, d: nat): (r: nat)
    requires d * d <= x
    ensures r * r <= x < (r + 1) * (r + 1)
    decreases x - d
  {
    if (d + 1) * (d + 1) > x then d
    else
      assert d < x - d by { MulMono(d + 1, 1, d + 1); }
      ISqrtFrom(x, d + 1)
  }

  /** Stage 2 indexes `s[2]` of a table of `d + 1` points, and ladders to
   *  `b1 - 1 - 2d` in unsigned arithmetic: both need the bounds to be
   *  large enough. */
  predicate StageTwoSafe(b1: nat, b2: nat)
  {
    b2 >= 4 && b1 >= 1 + 2 * ISqrt(b2)
  }

  /** A curve yields no factor: its constant is defined, stage 1 gives a
   *  gcd of 1 or n, and when it gives 1 stage 2 is carried out safely and
   *  gives 1 or n too. */
  predicate CurveFails(n: int, b1: nat, b2: nat, cv: Curve)
    requires n > 1
  {
    InvertMod(InvertArgument(cv), n).Some? &&
    var g := Gcd(Abs(cv.stage1Z), n);
    (g == 1 || g == n) &&
    (g == 1 ==> StageTwoSafe(b1, b2) && (Gcd(Abs(cv.stage2Product), n) == 1 || Gcd(Abs(cv.stage2Product), n) == n))
  }

  /** The curves from number `curve + 1` to `maxCurve + 1` in turn (the
   *  source's counter is incremented before each curve is drawn). */
  function Curves(n: int, b1: nat, b2: nat, maxCurve: nat, curves: nat -> Curve, curve: nat): (r: Run<Result<int>>)
    requires n > 1
    ensures !r.Diverges?
    ensures r.Done? && r.value.Ok? ==> 1 < r.value.value <= n && Divides(r.value.value, n)
    ensures r.Done? && r.value.Err? ==> r.value.error == ECM_FAILED
    decreases maxCurve + 1 - curve
  {
    if curve > maxCurve then Done(Err(ECM_FAILED))
    else
      var cv := curves(curve + 1);
      var x := InvertArgument(cv);
      if InvertMod(x, n).None? then
        GcdOfResidue(x, n);
        GcdIsDivisor(x % n, n);
        Done(Ok(Gcd(Abs(x), n)))
      else if InvertMod(4, n).None? then Panic("called `Result::unwrap()` on an `Err` value")
      else
        var g := Gcd(Abs(cv.stage1Z), n);
        GcdIsDivisor(Abs(cv.stage1Z), n);
        if g != n && g != 1 then Done(Ok(g))
        else if g == n then Curves(n, b1, b2, maxCurve, curves, curve + 1)
        else if b2 < 4 then Panic("index out of bounds")
        else if b1 < 1 + 2 * ISqrt(b2) then Panic("attempt to subtract with overflow")
        else
          var g2 := Gcd(Abs(cv.stage2Product), n);
          GcdIsDivisor(Abs(cv.stage2Product), n);
          if g2 != n && g2 != 1 then Done(Ok(g2))
          else Curves(n, b1, b2, maxCurve, curves, curve + 1)
  }

  /** The gcd with a positive n is a positive divisor of n. */
  lemma GcdIsDivisor(a: nat, n: int)
    requires n > 0
    ensures 0 < Gcd(a, n) <= n && Divides(Gcd(a, n), n)
  {
    GcdDivides(a, n);
    DividesBound(Gcd(a, n), n);
  }

  /** A gcd with n depends only on the residue modulo n. */
  lemma GcdOfResidue(x: int, n: int)
    requires n > 0
    ensures Gcd(Abs(x), n) == Gcd(x % n, n)
  {
    var g1 := Gcd(Abs(x), n);
    var g2 := Gcd(x % n, n);
    GcdDivides(Abs(x), n);
    GcdDivides(x % n, n);
    DividesAbs(g1, x);
    DividesResidue(g1, x, n);
    GcdGreatest(x % n, n, g1);
    DividesResidue(g2, x, n);
    DividesAbs(g2, x);
    GcdGreatest(Abs(x), n, g2);
    DividesBound(g1, g2);
    DividesBound(g2, g1);
  }

  /** Divisibility ignores the sign. */
  lemma DividesAbs(g: int, x: int)
    requires g > 0
    ensures x % g == 0 <==> Abs(x) % g == 0
  {
    if x < 0 {
      if x % g == 0 { DividesLinear(g, x, 0, -1); }
      if Abs(x) % g == 0 { DividesLinear(g, Abs(x), 0, -1); }
    }
  }

  /** A divisor of n divides x exactly when it divides x mod n. */
  lemma DividesResidue(g: int, x: int, n: int)
    requires g > 0 && n > 0 && n % g == 0
    ensures x % g == 0 <==> (x % n) % g == 0
  {
    var q := x / n;
    assert x == n * q + x % n;
    assert x % n == n * (-q) + x;
    if x % g == 0 { DividesLinear(g, n, x, -q); }
    if (x % n) % g == 0 { DividesLinear(g, n, x % n, q); }
  }

  /** If 4·y is invertible modulo n then so is 4: the `unwrap` of the
   *  inverse of 4 never panics once the curve constant exists. */
  lemma FourInvertible(y: int, n: int)
    requires n > 1 && InvertMod(4 * y, n).Some?
    ensures InvertMod(4, n).Some?
  {
    var g := Gcd(4 % n, n);
    GcdDivides(4 % n, n);
    DividesResidue(g, 4, n);
    DividesLinear(g, 4, 0, y);
    assert (4 * y) % g == 0;
    DividesResidue(g, 4 * y, n);
    GcdGreatest((4 * y) % n, n, g);
    DividesBound(g, 1);
  }

  /** Once the first `curve` curves are spent, `Curves` fails exactly when
   *  every remaining curve fails. */
  lemma {:induction false} CurvesFailure(n: int, b1: nat, b2: nat, maxCurve: nat, curves: nat -> Curve, curve: nat)
    requires n > 1
    ensures Curves(n, b1, b2, maxCurve, curves, curve) == Done(Err(ECM_FAILED)) <==>
              forall i :: curve < i <= maxCurve + 1 ==> CurveFails(n, b1, b2, curves(i))
    decreases maxCurve + 1 - curve
  {
    if curve <= maxCurve {
      var cv := curves(curve + 1);
      FourInvertibleFor(cv, n);
      CurvesFailure(n, b1, b2, maxCurve, curves, curve + 1);
      CurveStep(n, b1, b2, maxCurve, curves, curve);
    }
  }

  /** The failure of the curves after `curve` is the failure of the next
   *  one and of those after it. */
  lemma CurveStep(n: int, b1: nat, b2: nat, maxCurve: nat, curves: nat -> Curve, curve: nat)
    requires n > 1 && curve <= maxCurve
    ensures (forall i :: curve < i <= maxCurve + 1 ==> CurveFails(n, b1, b2, curves(i))) <==>
              CurveFails(n, b1, b2, curves(curve + 1)) &&
              forall i :: curve + 1 < i <= maxCurve + 1 ==> CurveFails(n, b1, b2, curves(i))
  {
  }

  /** The inverse of 4 exists whenever the curve constant does. */
  lemma FourInvertibleFor(cv: Curve, n: int)
    requires n > 1
    ensures InvertMod(InvertArgument(cv), n).Some? ==> InvertMod(4, n).Some?
  {
    if InvertMod(InvertArgument(cv), n).Some? {
      MulAssoc(4, cv.u3, cv.v);
      FourInvertible(cv.u3 * cv.v, n);
    }
  }

  /** `Curves` panics only when stage 2 is reached with bounds too small
   *  for it: the `unwrap` of the inverse of 4 never fails. */
  lemma {:induction false} CurvesPanic(n: int, b1: nat, b2: nat, maxCurve: nat, curves: nat -> Curve, curve: nat)
    requires n > 1
    ensures Curves(n, b1, b2, maxCurve, curves, curve).Panic? ==> !StageTwoSafe(b1, b2)
    decreases maxCurve + 1 - curve
  {
    if curve <= maxCurve {
      FourInvertibleFor(curves(curve + 1), n);
      CurvesPanic(n, b1, b2, maxCurve, curves, curve + 1);
    }
  }

  /** `ecm_one_factor`: odd bounds and a prime or negated prime n are
   *  errors, checked in that order; then up to `maxCurve + 1` curves are tried. A curve whose
   *  constant does not exist gives gcd(4u³v, n); otherwise a stage-1 gcd
   *  strictly between 1 and n is a factor, a stage-1 gcd of n discards the
   *  curve, and a stage-1 gcd of 1 goes on to stage 2. The random draw
   *  below n − 1 panics for n ≤ 1. */
  function EcmOneFactor(n: int, b1: nat, b2: nat, maxCurve: nat, curves: nat -> Curve): (r: Run<Result<int>>)
    ensures !r.Diverges?
    ensures b1 % 2 != 0 || b2 % 2 != 0 ==> r == Done(Err(BOUNDS_NOT_EVEN))
    ensures b1 % 2 == 0 && b2 % 2 == 0 && IsProbablyPrime(n) ==> r == Done(Err(NUMBER_IS_PRIME))
    ensures r.Done? && r.value.Ok? ==> 1 < r.value.value <= n && Divides(r.value.value, n)
    ensures r.Panic? ==> n <= 1 || !StageTwoSafe(b1, b2)
  {
    if b1 % 2 != 0 || b2 % 2 != 0 then Done(Err(BOUNDS_NOT_EVEN))
    else if IsProbablyPrime(n) then Done(Err(NUMBER_IS_PRIME))
    else if n <= 1 then Panic("random_below of a non-positive bound")
    else
      CurvesPanic(n, b1, b2, maxCurve, curves, 0);
      Curves(n, b1, b2, maxCurve, curves, 0)
  }

  /** For n > 1 not prime, even bounds, the result is the factorization
   *  failure exactly when all `maxCurve + 1` curves fail. */
  lemma EcmFailsOnlyAfterAllCurves(n: int, b1: nat, b2: nat, maxCurve: nat, curves: nat -> Curve)
    requires n > 1 && !IsPrime(n) && b1 % 2 == 0 && b2 % 2 == 0
    ensures EcmOneFactor(n, b1, b2, maxCurve, curves) == Done(Err(ECM_FAILED)) <==>
              forall i :: 1 <= i <= maxCurve + 1 ==> CurveFails(n, b1, b2, curves(i))
  {
    CurvesFailure(n, b1, b2, maxCurve, curves, 0);
  }

  // ---------------------------------------------------------------------
  // Parameters

  /** `optimal_params`: (B1, B2, number of curves) by the decimal length of
   *  n; lengths 0 and above 60 share the last row. */
  function OptimalParams(digits: nat): (nat, nat, nat)
  {
    if 1 <= digits <= 10 then (2_000, 160_000, 35)
    else if 11 <= digits <= 15 then (5_000, 500_000, 500)
    else if 16 <= digits <= 20 then (11_000, 1_900_000, 74)
    else if 21 <= digits <= 25 then (50_000, 13_000_000, 214)
    else if 26 <= digits <= 30 then (250_000, 130_000_000, 430)
    else if 31 <= digits <= 35 then (1_000_000, 1_000_000_000, 904)
    else if 36 <= digits <= 40 then (3_000_000, 5_700_000_000, 2350)
    else if 41 <= digits <= 45 then (11_000_000, 35_000_000_000, 4480)
    else if 46 <= digits <= 50 then (44_000_000, 240_000_000_000, 7553)
    else if 51 <= digits <= 55 then (110_000_000, 780_000_000_000, 17769)
    else if 56 <= digits <= 60 then (260_000_000, 3_200_000_000_000, 42017)
    else (850_000_000, 16_000_000_000_000, 69408)
  }

  /** Every row of the table passes `ecm_one_factor`'s evenness check and
   *  is large enough for stage 2, so that with these parameters
   *  `ecm_one_factor` never panics on n > 1. The first stage bound never
   *  shrinks as the numbers grow. */
  lemma OptimalParamsSound(digits: nat)
    ensures OptimalParams(digits).0 % 2 == 0 && OptimalParams(digits).1 % 2 == 0
    ensures StageTwoSafe(OptimalParams(digits).0, OptimalParams(digits).1)
    ensures 1 <= digits ==> OptimalParams(digits).0 <= OptimalParams(digits + 1).0
  {
    if 1 <= digits <= 10 { SafeRow(2_000, 160_000); }
    else if 11 <= digits <= 15 { SafeRow(5_000, 500_000); }
    else if 16 <= digits <= 20 { SafeRow(11_000, 1_900_000); }
    else if 21 <= digits <= 25 { SafeRow(50_000, 13_000_000); }
    else if 26 <= digits <= 30 { SafeRow(250_000, 130_000_000); }
    else if 31 <= digits <= 35 { SafeRow(1_000_000, 1_000_000_000); }
    else if 36 <= digits <= 40 { SafeRow(3_000_000, 5_700_000_000); }
    else if 41 <= digits <= 45 { SafeRow(11_000_000, 35_000_000_000); }
    else if 46 <= digits <= 50 { SafeRow(44_000_000, 240_000_000_000); }
    else if 51 <= digits <= 55 { SafeRow(110_000_000, 780_000_000_000); }
    else if 56 <= digits <= 60 { SafeRow(260_000_000, 3_200_000_000_000); }
    else { SafeRow(850_000_000, 16_000_000_000_000); }
  }

  /** Bounds are large enough for stage 2 when the square of half the
   *  first bound exceeds the second. */
  lemma SafeRow(b1: nat, b2: nat)
    requires b2 >= 4 && b1 >= 3 && ((b1 - 1) / 2) * ((b1 - 1) / 2) > b2
    ensures StageTwoSafe(b1, b2)
  {
    RootBelow(b2, (b1 - 1) / 2);
  }

  /** A square root bound: if h² exceeds x then √x < h. */
  lemma RootBelow(x: nat, h: nat)
    requires h * h > x
    ensures ISqrt(x) < h
  {
    var d := ISqrt(x);
    if d >= h {
      MulMono(d, h, d);
      MulMono(d, h, h);
    }
  }

  /** The number of decimal digits of a non-negative number, as
   *  `to_string().len()` counts them. */
  function Digits(n: nat): (k: nat)
    ensures k >= 1
    ensures n < Pow(10, k)
    ensures k > 1 ==> Pow(10, k - 1) <= n
  {
    if n < 10 then 1
    else
      var k := Digits(n / 10);
      assert Pow(10, k + 1) == 10 * Pow(10, k);
      k + 1
  }

  /** `get_factor_ecm`: one ECM factor with the table's parameters; a
   *  prime is its own factor, and the other errors are passed on. */
  function GetFactorEcm(n: nat, curves: nat -> Curve): (r: Run<Result<int>>)
    ensures n > 1 ==> r.Done?
    ensures IsPrime(n) ==> r == Done(Ok(n))
    ensures r.Done? && r.value.Ok? ==> 1 < r.value.value <= n && Divides(r.value.value, n)
    ensures r.Done? && r.value.Err? ==> r.value.error == ECM_FAILED
  {
    var (b1, b2, maxCurve) := OptimalParams(Digits(n));
    OptimalParamsSound(Digits(n));
    assert IsPrime(n) ==> Divides(n, n) by {
      if IsPrime(n) { ModZeroMultiple(1, n); }
    }
    match EcmOneFactor(n, b1, b2, maxCurve, curves)
    case Done(Ok(f)) => Done(Ok(f))
    case Done(Err(e)) => if e == NUMBER_IS_PRIME then Done(Ok(n)) else Done(Err(e))
    case Panic(s) => Panic(s)
    case Diverges => Diverges
  }

  // ---------------------------------------------------------------------
  // ecm_with_params

  /** `ecm_with_params` for a non-negative n: trial division by the given
   *  primes (the first 100 000 in the source), then one ECM factor at a
   *  time, each divided out as often as it divides; an ECM error counts
   *  as the factor n itself. The `k`-th call to `ecm_one_factor` draws
   *  its curves from `curvesFor(k)`, the continuation of the generator
   *  seeded once before the loop. The result lists every factor once per
   *  division: the source's map from factor to count is its multiset. */
  method EcmWithParams(n: nat, b1: nat, b2: nat, maxCurve: nat, trialPrimes: seq<int>,
                       curvesFor: nat -> (nat -> Curve))
    returns (r: Run<seq<int>>)
    requires |trialPrimes| > 0 && forall i :: 0 <= i < |trialPrimes| ==> IsPrime(trialPrimes[i])
    ensures n == 0 <==> r.Diverges?
    ensures r.Panic? ==> !StageTwoSafe(b1, b2)
    ensures r.Done? ==> Prod(r.value) == n && forall i :: 0 <= i < |r.value| ==> r.value[i] > 1
    ensures r.Done? ==> forall i :: 0 <= i < |trialPrimes| && Divides(trialPrimes[i], n) ==> trialPrimes[i] in r.value
  {
    if n == 0 {
      // 0 is divisible by the first prime forever.
      return Diverges;
    }
    var m: int := n;
    var log: seq<int> := [];
    for j := 0 to |trialPrimes|
      invariant m > 0 && m * Prod(log) == n
      invariant forall i :: 0 <= i < |log| ==> IsPrime(log[i])
      invariant forall i :: 0 <= i < j && Divides(trialPrimes[i], n) ==> trialPrimes[i] in log
    {
      var p := trialPrimes[j];
      if Divides(p, m) {
        while Divides(p, m)
          invariant m > 0 && m * Prod(log) == n
          invariant forall i :: 0 <= i < |log| ==> IsPrime(log[i])
          invariant Divides(p, m) || p in log
          invariant forall i :: 0 <= i < j && Divides(trialPrimes[i], n) ==> trialPrimes[i] in log
          decreases m
        {
          DivideOut(m, p, Prod(log));
          ProdAppend(log, p);
          m := m / p;
          log := log + [p];
        }
      } else if Divides(p, n) {
        Euclid(p, m, Prod(log));
        PrimeInProduct(p, log);
      }
    }
    var k := 0;
    while m != 1
      invariant m > 0 && m * Prod(log) == n
      invariant forall i :: 0 <= i < |log| ==> log[i] > 1
      invariant forall i :: 0 <= i < |trialPrimes| && Divides(trialPrimes[i], n) ==> trialPrimes[i] in log
      decreases m
    {
      var attempt := EcmOneFactor(m, b1, b2, maxCurve, curvesFor(k));
      if attempt.Panic? {
        return Panic(attempt.message);
      }
      var factor := if attempt.value.Ok? then attempt.value.value else m;
      assert Divides(factor, m) by {
        if factor == m { ModZeroMultiple(1, m); }
      }
      var m0 := m;
      while Divides(factor, m)
        invariant 0 < m <= m0 && m * Prod(log) == n
        invariant m == m0 ==> Divides(factor, m)
        invariant forall i :: 0 <= i < |log| ==> log[i] > 1
        invariant forall i :: 0 <= i < |trialPrimes| && Divides(trialPrimes[i], n) ==> trialPrimes[i] in log
        decreases m
      {
        DivideOut(m, factor, Prod(log));
        ProdAppend(log, factor);
        m := m / factor;
        log := log + [factor];
      }
      k := k + 1;
    }
    return Done(log);
  }

  /** `ecm`: `ecm_with_params` with the table's parameters for the
   *  decimal length of n, which never panics. */
  method EcmFactor(n: nat, trialPrimes: seq<int>, curvesFor: nat -> (nat -> Curve))
    returns (r: Run<seq<int>>)
    requires |trialPrimes| > 0 && forall i :: 0 <= i < |trialPrimes| ==> IsPrime(trialPrimes[i])
    ensures n == 0 <==> r.Diverges?
    ensures !r.Panic?
    ensures r.Done? ==> Prod(r.value) == n && forall i :: 0 <= i < |r.value| ==> r.value[i] > 1
  {
    var (b1, b2, maxCurve) := OptimalParams(Digits(n));
    OptimalParamsSound(Digits(n));
    r := EcmWithParams(n, b1, b2, maxCurve, trialPrimes, curvesFor);
  }

  /** A prime dividing a product of primes is one of them. */
  lemma {:induction false} PrimeInProduct(p: int, log: seq<int>)
    requires IsPrime(p) && Divides(p, Prod(log))
    requires forall i :: 0 <= i < |log| ==> IsPrime(log[i])
    ensures p in log
    decreases |log|
  {
    if |log| == 0 {
      ModSmall(1, p);
    } else {
      Euclid(p, log[0], Prod(log[1..]));
      if Divides(p, log[0]) {
        PrimeDividesPrime(p, log[0]);
      } else {
        PrimeInProduct(p, log[1..]);
      }
    }
  }
}
