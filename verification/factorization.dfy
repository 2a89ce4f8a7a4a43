// Prime factors, primitive roots and generators (`factorization/mod.rs`
// and `factorization/traits.rs`).
//
// `get_factors` divides out small primes by trial division, then finds
// the remaining factors with Pollard's rho and, when that fails, ECM.
// Its removal loop `while temp.is_zero()` tests a remainder computed once
// before the loop, so it never ends once the factor divides:
// `GetFactorsAsWritten` models the code as written, `GetFactorsFixed`
// the loop that recomputes the remainder. `find_generator` and
// `primitive_root` are modelled over both: `FindGenerator`,
// `RootFactors` and `PrimitiveRoot` as the source composes them, and
// the `...Fixed` members over the corrected loop.

module Factorization {
  import opened Wrappers
  import opened Ints
  import opened Divisors
  import FactorCheck
  import PollardRho
  import Ecm

  // ---------------------------------------------------------------------
  // Trial division

  /** The trial-division phase of `get_factors`: each prime in turn is
   *  divided out of m as often as it divides, and recorded when it
   *  divided at least once. Gives what remains and the sorted set of the
   *  primes found. */
  function TrialPhase(m: int, primes: seq<int>): (r: (int, seq<int>))
    requires m > 0 && forall i :: 0 <= i < |primes| ==> IsPrime(primes[i])
    ensures 0 < r.0 <= m && Divides(r.0, m)
    ensures StrictlyIncreasing(r.1)
    decreases |primes|
  {
    if |primes| == 0 then
      ModZeroMultiple(1, m);
      (m, [])
    else
      assert IsPrime(primes[0]);
      var (q, k) := RemoveAll(m, primes[0]);
      RemoveAllBounds(m, primes[0]);
      assert forall i :: 1 <= i < |primes| ==> primes[i] == primes[1..][i - 1];
      var (rest, found) := TrialPhase(q, primes[1..]);
      DividesTrans(rest, q, m);
      (rest, if k > 0 then InsertSorted(found, primes[0]) else found)
  }

  /** What trial division found: exactly the listed primes that divide m;
   *  none of them divides what remains, and every prime dividing m either
   *  was found or still divides what remains. */
  lemma {:induction false} TrialPhaseFacts(m: int, primes: seq<int>)
    requires m > 0 && forall i :: 0 <= i < |primes| ==> IsPrime(primes[i])
    ensures forall y :: y in TrialPhase(m, primes).1 <==> y in primes && Divides(y, m)
    ensures forall i :: 0 <= i < |primes| ==> !Divides(primes[i], TrialPhase(m, primes).0)
    ensures forall q :: IsPrime(q) && Divides(q, m) ==>
              q in TrialPhase(m, primes).1 || Divides(q, TrialPhase(m, primes).0)
    decreases |primes|
  {
    if |primes| > 0 {
      var p := primes[0];
      var (q, k) := RemoveAll(m, p);
      RemoveAllBounds(m, p);
      assert forall i :: 1 <= i < |primes| ==> primes[i] == primes[1..][i - 1];
      TrialPhaseFacts(q, primes[1..]);
      var (rest, found) := TrialPhase(q, primes[1..]);
      assert TrialPhase(m, primes).0 == rest;
      forall y | y in primes[1..] && Divides(y, m) && y != p
        ensures Divides(y, q)
      {
        PrimeDividesProduct(y, q, p, k);
      }
      forall y | y in primes[1..] && Divides(y, q)
        ensures Divides(y, m)
      {
        DividesTrans(y, q, m);
      }
      forall q' | IsPrime(q') && Divides(q', m) && q' != p
        ensures Divides(q', q)
      {
        PrimeDividesProduct(q', q, p, k);
      }
      if Divides(p, rest) {
        DividesTrans(p, rest, q);
      }
    }
  }

  /** A prime other than p that divides q · p^k divides q. */
  lemma PrimeDividesProduct(y: int, q: int, p: int, k: nat)
    requires IsPrime(y) && IsPrime(p) && y != p && Divides(y, q * Pow(p, k))
    ensures Divides(y, q)
  {
    Euclid(y, q, Pow(p, k));
    if Divides(y, Pow(p, k)) {
      PrimeDividesPower(y, p, k);
      PrimeDividesPrime(y, p);
    }
  }

  // ---------------------------------------------------------------------
  // get_factors as written

  /** The loop over the large factors as written: a prime remainder is
   *  recorded and ends the loop; otherwise Pollard's rho (as written) is
   *  tried, then ECM when it gives 1 or m. `while temp.is_zero()` spins
   *  for ever once the factor divides m; a factor that does not divide m
   *  leaves m unchanged, so the next pass finds the same factor again and
   *  the loop does not end either. */
  function LargePhaseAsWritten(m: int, f: seq<int>, fuel: nat, ecm: nat -> (nat -> Ecm.Curve)): Run<Result<seq<int>>>
    requires m > 0 && StrictlyIncreasing(f)
  {
    if m == 1 then Done(Ok(f))
    else if IsPrime(m) then Done(Ok(InsertSorted(f, m)))
    else
      match PollardRho.GetFactorPollardRhoAsWritten(m, fuel)
      case Panic(s) => Panic(s)
      case Diverges => Diverges
      case Done(rho) =>
        if rho == 1 || rho == m then
          match Ecm.GetFactorEcm(m, ecm(0))
          case Done(Ok(_)) => Diverges
          case Done(Err(e)) => Done(Err(e))
        else if rho == 0 then Panic("division by zero")
        else Diverges
  }

  /** `get_factors` as written, for a non-negative m: a prime is its own
   *  factor list; 0 is divisible by 2 for ever. */
  function GetFactorsAsWritten(m: nat, smallPrimes: seq<int>, fuel: nat, ecm: nat -> (nat -> Ecm.Curve)): Run<Result<seq<int>>>
    requires |smallPrimes| > 0 && forall i :: 0 <= i < |smallPrimes| ==> IsPrime(smallPrimes[i])
  {
    if IsPrime(m) then Done(Ok([m]))
    else if m == 0 then Diverges
    else
      var (rest, found) := TrialPhase(m, smallPrimes);
      LargePhaseAsWritten(rest, found, fuel, ecm)
  }

  /** Whenever trial division leaves a composite number, `get_factors` as
   *  written never returns a factor list: Pollard's rho gives 1, ECM
   *  either fails or gives a divisor, and dividing by that divisor never
   *  stops. */
  lemma GetFactorsAsWrittenNeverCompletes(m: nat, smallPrimes: seq<int>, fuel: nat, ecm: nat -> (nat -> Ecm.Curve))
    requires |smallPrimes| > 0 && forall i :: 0 <= i < |smallPrimes| ==> IsPrime(smallPrimes[i])
    requires m > 0 && !IsPrime(m)
    requires TrialPhase(m, smallPrimes).0 != 1 && !IsPrime(TrialPhase(m, smallPrimes).0)
    ensures GetFactorsAsWritten(m, smallPrimes, fuel, ecm) == Diverges ||
            GetFactorsAsWritten(m, smallPrimes, fuel, ecm) == Done(Err(Ecm.ECM_FAILED))
  {
    var rest := TrialPhase(m, smallPrimes).0;
    PollardRho.PollardRhoAsWrittenGivesUp(rest, fuel);
  }

  /** The large-factor loop as written never panics, and its only error
   *  is ECM's failure; a list it returns adds at most a prime to `f`. */
  lemma LargePhaseAsWrittenOutcome(m: int, f: seq<int>, fuel: nat, ecm: nat -> (nat -> Ecm.Curve))
    requires m > 0 && StrictlyIncreasing(f) && forall y :: y in f ==> y > 1
    ensures var r := LargePhaseAsWritten(m, f, fuel, ecm);
            !r.Panic? &&
            (r.Done? && r.value.Err? ==> r.value.error == Ecm.ECM_FAILED) &&
            (r.Done? && r.value.Ok? ==> forall y :: y in r.value.value ==> y > 1)
  {
    if m != 1 && !IsPrime(m) {
      PollardRho.PollardRhoAsWrittenGivesUp(m, fuel);
      assert PollardRho.GetFactorPollardRhoAsWritten(m, fuel) == Done(1);
      assert Ecm.GetFactorEcm(m, ecm(0)).Done?;
    }
  }

  /** `get_factors` as written never panics, and its only error is ECM's
   *  failure. A list it does return comes from a remainder that was 1 or
   *  prime, so every entry is above 1. */
  lemma GetFactorsAsWrittenOutcome(m: nat, smallPrimes: seq<int>, fuel: nat, ecm: nat -> (nat -> Ecm.Curve))
    requires |smallPrimes| > 0 && forall i :: 0 <= i < |smallPrimes| ==> IsPrime(smallPrimes[i])
    ensures var r := GetFactorsAsWritten(m, smallPrimes, fuel, ecm);
            !r.Panic? &&
            (r.Done? && r.value.Err? ==> r.value.error == Ecm.ECM_FAILED) &&
            (r.Done? && r.value.Ok? ==> AboveOne(r.value.value))
  {
    var r := GetFactorsAsWritten(m, smallPrimes, fuel, ecm);
    if !IsPrime(m) && m > 0 {
      var (rest, found) := TrialPhase(m, smallPrimes);
      TrialPhaseFacts(m, smallPrimes);
      assert forall y :: y in found ==> y > 1;
      LargePhaseAsWrittenOutcome(rest, found, fuel, ecm);
      assert r == LargePhaseAsWritten(rest, found, fuel, ecm);
      if r.Done? && r.value.Ok? {
        forall i | 0 <= i < |r.value.value|
          ensures r.value.value[i] > 1
        {
          assert r.value.value[i] in r.value.value;
        }
      }
    }
  }

  // ---------------------------------------------------------------------
  // get_factors with the removal loop fixed

  /** The loop over the large factors with `while m % factor == 0`
   *  re-evaluated each time: every factor found is divided out
   *  completely, so the loop ends. */
  function LargePhaseFixed(m: int, f: seq<int>, fuel: nat, ecm: nat -> (nat -> Ecm.Curve), k: nat): (r: Run<Result<seq<int>>>)
    requires m > 0 && StrictlyIncreasing(f)
    ensures !r.Panic?
    ensures r.Done? && r.value.Err? ==> r.value.error == Ecm.ECM_FAILED
    ensures r.Done? && r.value.Ok? ==> StrictlyIncreasing(r.value.value)
    decreases m
  {
    if m == 1 then Done(Ok(f))
    else if IsPrime(m) then Done(Ok(InsertSorted(f, m)))
    else
      match PollardRho.GetFactorPollardRhoFixed(m, fuel)
      case Diverges => Diverges
      case Done(rho) =>
        var factor := if rho == 1 || rho == m then Ecm.GetFactorEcm(m, ecm(k)) else Done(Ok(rho));
        match factor
        case Done(Err(e)) => Done(Err(e))
        case Done(Ok(d)) =>
          RemoveAllBounds(m, d);
          LargePhaseFixed(RemoveAll(m, d).0, InsertSorted(f, d), fuel, ecm, k + 1)
  }

  /** The large-factor loop keeps what was found, adds only divisors of m
   *  above 1, and leaves every prime divisor of m dividing some entry. */
  lemma {:induction false} LargePhaseFixedFacts(m: int, f: seq<int>, fuel: nat, ecm: nat -> (nat -> Ecm.Curve), k: nat)
    requires m > 0 && StrictlyIncreasing(f)
    ensures var r := LargePhaseFixed(m, f, fuel, ecm, k);
            r.Done? && r.value.Ok? ==>
              (forall y :: y in f ==> y in r.value.value) &&
              (forall y :: y in r.value.value && y !in f ==> y > 1 && Divides(y, m)) &&
              (forall q :: IsPrime(q) && Divides(q, m) ==> exists y :: y in r.value.value && Divides(q, y))
    decreases m
  {
    var r := LargePhaseFixed(m, f, fuel, ecm, k);
    if m == 1 {
      forall q | IsPrime(q) && Divides(q, m)
        ensures false
      {
        DividesBound(q, 1);
      }
    } else if IsPrime(m) {
      ModZeroMultiple(1, m);
      forall q | IsPrime(q) && Divides(q, m)
        ensures q == m
      {
        PrimeDividesPrime(q, m);
      }
    } else if r.Done? && r.value.Ok? {
      var rho := PollardRho.GetFactorPollardRhoFixed(m, fuel).value;
      var d := (if rho == 1 || rho == m then Ecm.GetFactorEcm(m, ecm(k)) else Done(Ok(rho))).value.value;
      var q := RemoveAll(m, d).0;
      var f' := InsertSorted(f, d);
      RemoveAllBounds(m, d);
      assert r == LargePhaseFixed(q, f', fuel, ecm, k + 1);
      LargePhaseFixedFacts(q, f', fuel, ecm, k + 1);
      forall y | y in r.value.value && y !in f
        ensures y > 1 && Divides(y, m)
      {
        if y !in f' {
          DividesTrans(y, q, m);
        }
      }
      forall p | IsPrime(p) && Divides(p, m)
        ensures exists y :: y in r.value.value && Divides(p, y)
      {
        Euclid(p, q, Pow(d, RemoveAll(m, d).1));
        if !Divides(p, q) {
          PrimeDividesPower(p, d, RemoveAll(m, d).1);
          assert d in r.value.value;
        }
      }
    }
  }

  /** `get_factors` with the removal loop fixed, for a non-negative m. */
  function GetFactorsFixed(m: nat, smallPrimes: seq<int>, fuel: nat, ecm: nat -> (nat -> Ecm.Curve)): (r: Run<Result<seq<int>>>)
    requires |smallPrimes| > 0 && forall i :: 0 <= i < |smallPrimes| ==> IsPrime(smallPrimes[i])
    ensures !r.Panic?
    ensures m == 0 ==> r.Diverges?
    ensures IsPrime(m) ==> r == Done(Ok([m]))
    ensures r.Done? && r.value.Err? ==> r.value.error == Ecm.ECM_FAILED
  {
    if IsPrime(m) then Done(Ok([m]))
    else if m == 0 then Diverges
    else
      var (rest, found) := TrialPhase(m, smallPrimes);
      LargePhaseFixed(rest, found, fuel, ecm, 0)
  }

  /** The promise of `get_factors`: a sorted list without repetitions of
   *  divisors of m above 1, such that every prime divisor of m divides one
   *  of them; each entry found by trial division is prime. */
  lemma GetFactorsFixedCorrect(m: nat, smallPrimes: seq<int>, fuel: nat, ecm: nat -> (nat -> Ecm.Curve))
    requires |smallPrimes| > 0 && forall i :: 0 <= i < |smallPrimes| ==> IsPrime(smallPrimes[i])
    ensures m == 0 ==> GetFactorsFixed(m, smallPrimes, fuel, ecm) == Diverges
    ensures var r := GetFactorsFixed(m, smallPrimes, fuel, ecm);
            r.Done? && r.value.Ok? ==>
              StrictlyIncreasing(r.value.value) &&
              (forall i :: 0 <= i < |r.value.value| ==> r.value.value[i] > 1 && Divides(r.value.value[i], m)) &&
              (forall q :: IsPrime(q) && Divides(q, m) ==> exists y :: y in r.value.value && Divides(q, y)) &&
              (forall i :: 0 <= i < |smallPrimes| && Divides(smallPrimes[i], m) ==> smallPrimes[i] in r.value.value)
  {
    var r := GetFactorsFixed(m, smallPrimes, fuel, ecm);
    if IsPrime(m) {
      ModZeroMultiple(1, m);
      forall q | IsPrime(q) && Divides(q, m)
        ensures q == m
      {
        PrimeDividesPrime(q, m);
      }
    } else if m > 0 && r.Done? && r.value.Ok? {
      var (rest, found) := TrialPhase(m, smallPrimes);
      TrialPhaseFacts(m, smallPrimes);
      LargePhaseFixedFacts(rest, found, fuel, ecm, 0);
      var fs := r.value.value;
      forall i | 0 <= i < |fs|
        ensures fs[i] > 1 && Divides(fs[i], m)
      {
        var y := fs[i];
        if y !in found {
          DividesTrans(y, rest, m);
        } else {
          var j :| 0 <= j < |smallPrimes| && smallPrimes[j] == y;
        }
      }
      forall q | IsPrime(q) && Divides(q, m)
        ensures exists y :: y in fs && Divides(q, y)
      {
        if q in found {
          ModZeroMultiple(1, q);
        }
      }
    }
  }

  /** Every entry of a factor list `get_factors` returns is above 1. */
  lemma GetFactorsFixedAboveOne(m: nat, smallPrimes: seq<int>, fuel: nat, ecm: nat -> (nat -> Ecm.Curve))
    requires |smallPrimes| > 0 && forall i :: 0 <= i < |smallPrimes| ==> IsPrime(smallPrimes[i])
    ensures var r := GetFactorsFixed(m, smallPrimes, fuel, ecm);
            r.Done? && r.value.Ok? ==> AboveOne(r.value.value)
  {
    GetFactorsFixedCorrect(m, smallPrimes, fuel, ecm);
  }

  // ---------------------------------------------------------------------
  // Primitive roots

  predicate AboveOne(fs: seq<int>)
  {
    forall i :: 0 <= i < |fs| ==> fs[i] > 1
  }

  /** None of the exponents phi / p, for p in the list, takes `a` to 1
   *  modulo `modulus`. */
  predicate PassesRootTest(a: int, modulus: int, phi: nat, factors: seq<int>)
    requires modulus > 0 && forall i :: 0 <= i < |factors| ==> factors[i] > 0
  {
    forall i :: 0 <= i < |factors| ==> Pow(a, phi / factors[i]) % modulus != 1
  }

  /** `is_primitive_root`: false as soon as some phi / p takes `a` to 1. */
  method IsPrimitiveRoot(a: int, modulus: int, phi: nat, factors: seq<int>) returns (r: bool)
    requires modulus > 0 && forall i :: 0 <= i < |factors| ==> factors[i] > 0
    ensures r <==> PassesRootTest(a, modulus, phi, factors)
    ensures !r <==> exists i :: 0 <= i < |factors| && Pow(a, phi / factors[i]) % modulus == 1
  {
    for i := 0 to |factors|
      invariant forall j :: 0 <= j < i ==> Pow(a, phi / factors[j]) % modulus != 1
    {
      var exp := phi / factors[i];
      if Pow(a, exp) % modulus == 1 {
        return false;
      }
    }
    return true;
  }

  /** The candidates of `find_generator`: 2, −2, 3, −3, …, 20, −20. */
  function Candidate(i: nat): (c: int)
    requires i < 38
    ensures 2 <= Abs(c) <= 20
    ensures i % 2 == 0 <==> c > 0
  {
    if i % 2 == 0 then 2 + i / 2 else -(2 + i / 2)
  }

  /** `g` is the first candidate passing the root test. */
  predicate FirstCandidate(g: int, modulus: int, phi: nat, fs: seq<int>)
    requires modulus > 0 && AboveOne(fs)
  {
    exists i :: 0 <= i < 38 && g == Candidate(i) && PassesRootTest(g, modulus, phi, fs) &&
                forall j :: 0 <= j < i ==> !PassesRootTest(Candidate(j), modulus, phi, fs)
  }

  /** The candidate loop of `find_generator`. */
  method SearchCandidates(modulus: int, phi: nat, fs: seq<int>) returns (r: Option<int>)
    requires modulus > 0 && AboveOne(fs)
    ensures r.Some? ==> FirstCandidate(r.value, modulus, phi, fs)
    ensures r.None? <==> forall j :: 0 <= j < 38 ==> !PassesRootTest(Candidate(j), modulus, phi, fs)
  {
    for i := 0 to 38
      invariant forall j :: 0 <= j < i ==> !PassesRootTest(Candidate(j), modulus, phi, fs)
    {
      var ok := IsPrimitiveRoot(Candidate(i), modulus, phi, fs);
      if ok {
        return Some(Candidate(i));
      }
    }
    return None;
  }

  /** `find_generator` once `get_factors` has answered for modulus − 1:
   *  its error is unwrapped (a panic), then the candidates are searched. */
  method GeneratorFrom(modulus: int, got: Run<Result<seq<int>>>) returns (r: Run<int>)
    requires modulus >= 1 && !got.Panic?
    requires got.Done? && got.value.Ok? ==> AboveOne(got.value.value)
    ensures got.Diverges? <==> r.Diverges?
    ensures got.Done? && got.value.Err? ==> r == Panic("called `Result::unwrap()` on an `Err` value")
    ensures r.Done? ==> got.Done? && got.value.Ok? && FirstCandidate(r.value, modulus, modulus - 1, got.value.value)
    ensures r == Panic("Generator not found") ==>
              got.Done? && got.value.Ok? &&
              forall j :: 0 <= j < 38 ==> !PassesRootTest(Candidate(j), modulus, modulus - 1, got.value.value)
  {
    if got.Diverges? {
      return Diverges;
    }
    if got.value.Err? {
      return Panic("called `Result::unwrap()` on an `Err` value");
    }
    var found := SearchCandidates(modulus, modulus - 1, got.value.value);
    if found.Some? {
      return Done(found.value);
    }
    return Panic("Generator not found");
  }

  /** Trial division by the small primes leaves a number above 1 that is
   *  not prime: the case `get_factors` as written cannot finish. */
  predicate LeavesComposite(m: int, smallPrimes: seq<int>)
    requires forall i :: 0 <= i < |smallPrimes| ==> IsPrime(smallPrimes[i])
  {
    m > 0 && !IsPrime(m) && TrialPhase(m, smallPrimes).0 != 1 && !IsPrime(TrialPhase(m, smallPrimes).0)
  }

  /** `find_generator` as written: the first candidate that passes the
   *  root test for the factors `get_factors` (as written) finds for
   *  modulus − 1; panics when `get_factors` fails or no candidate passes.
   *  When trial division leaves a composite it never returns a
   *  generator: it spins, or the `unwrap` of ECM's error panics. */
  method FindGenerator(modulus: int, smallPrimes: seq<int>, fuel: nat, ecm: nat -> (nat -> Ecm.Curve))
    returns (r: Run<int>)
    requires modulus >= 1
    requires |smallPrimes| > 0 && forall i :: 0 <= i < |smallPrimes| ==> IsPrime(smallPrimes[i])
    ensures modulus == 1 ==> r.Diverges?
    ensures LeavesComposite(modulus - 1, smallPrimes) ==>
              r == Diverges || r == Panic("called `Result::unwrap()` on an `Err` value")
    ensures var got := GetFactorsAsWritten(modulus - 1, smallPrimes, fuel, ecm);
            (got.Done? && got.value.Err? ==> r.Panic?) &&
            (r.Done? ==> got.Done? && got.value.Ok? && AboveOne(got.value.value) &&
                         FirstCandidate(r.value, modulus, modulus - 1, got.value.value)) &&
            (r == Panic("Generator not found") ==>
               got.Done? && got.value.Ok? && AboveOne(got.value.value) &&
               forall j :: 0 <= j < 38 ==> !PassesRootTest(Candidate(j), modulus, modulus - 1, got.value.value))
  {
    GetFactorsAsWrittenOutcome(modulus - 1, smallPrimes, fuel, ecm);
    var got := GetFactorsAsWritten(modulus - 1, smallPrimes, fuel, ecm);
    assert modulus == 1 ==> got.Diverges? by {
      if modulus == 1 { assert !IsPrime(0); }
    }
    assert LeavesComposite(modulus - 1, smallPrimes) ==> got in {Diverges, Done(Err(Ecm.ECM_FAILED))} by {
      if LeavesComposite(modulus - 1, smallPrimes) {
        GetFactorsAsWrittenNeverCompletes(modulus - 1, smallPrimes, fuel, ecm);
      }
    }
    r := GeneratorFrom(modulus, got);
  }

  /** `find_generator` over the corrected `get_factors`: the first
   *  candidate that passes the root test for the factors of modulus − 1;
   *  panics when `get_factors` fails or no candidate passes. */
  method FindGeneratorFixed(modulus: int, smallPrimes: seq<int>, fuel: nat, ecm: nat -> (nat -> Ecm.Curve))
    returns (r: Run<int>)
    requires modulus >= 1
    requires |smallPrimes| > 0 && forall i :: 0 <= i < |smallPrimes| ==> IsPrime(smallPrimes[i])
    ensures modulus == 1 ==> r.Diverges?
    ensures var got := GetFactorsFixed(modulus - 1, smallPrimes, fuel, ecm);
            (got.Done? && got.value.Err? ==> r.Panic?) &&
            (r.Done? ==> got.Done? && got.value.Ok? && AboveOne(got.value.value) &&
                         FirstCandidate(r.value, modulus, modulus - 1, got.value.value)) &&
            (r == Panic("Generator not found") ==>
               got.Done? && got.value.Ok? && AboveOne(got.value.value) &&
               forall j :: 0 <= j < 38 ==> !PassesRootTest(Candidate(j), modulus, modulus - 1, got.value.value))
  {
    GetFactorsFixedAboveOne(modulus - 1, smallPrimes, fuel, ecm);
    var got := GetFactorsFixed(modulus - 1, smallPrimes, fuel, ecm);
    assert modulus == 1 ==> got.Diverges? by {
      if modulus == 1 { assert !IsPrime(0); }
    }
    r := GeneratorFrom(modulus, got);
  }

  /** `g` is a primitive root candidate of q for the factors fs of q − 1. */
  predicate IsRootOf(g: int, q: int, fs: seq<int>)
    requires q > 1 && AboveOne(fs)
  {
    PassesRootTest(g, q, q - 1, fs)
  }

  /** The search of `primitive_root` from g: the first g' ≥ g passing the
   *  root test, within `fuel` candidates. */
  function RootSearch(q: int, factors: seq<int>, g: int, fuel: nat): (r: Run<int>)
    requires q > 1 && AboveOne(factors)
    ensures !r.Panic?
    ensures r.Done? ==>
              g <= r.value && IsRootOf(r.value, q, factors) &&
              forall h :: g <= h < r.value ==> !IsRootOf(h, q, factors)
    decreases fuel
  {
    if IsRootOf(g, q, factors) then Done(g)
    else if fuel == 0 then Diverges
    else RootSearch(q, factors, g + 1, fuel - 1)
  }

  /** The factor list `primitive_root` works with, given what
   *  `get_factors` answers for q − 1: the given list once `check_factors`
   *  accepts it (its error is returned otherwise), or the computed one. */
  function RootFactorsFrom(q: int, factors: Option<seq<int>>, computed: Run<Result<seq<int>>>): (r: Run<Result<seq<int>>>)
    requires q > 1 && !computed.Panic?
    requires computed.Done? && computed.value.Ok? ==> AboveOne(computed.value.value)
    ensures !r.Panic?
    ensures r.Done? && r.value.Ok? ==> AboveOne(r.value.value)
    ensures factors.Some? ==>
              match FactorCheck.CheckFactors(q - 1, factors.value)
              case Done(Ok(_)) => r == Done(Ok(factors.value))
              case Done(Err(e)) => r == Done(Err(e))
              case _ => r.Diverges?
    ensures factors.None? ==> r == computed
  {
    match factors
    case Some(f) =>
      FactorCheck.CheckFactorsOutcome(q - 1, f);
      (match FactorCheck.CheckFactors(q - 1, f)
       case Done(Ok(_)) => Done(Ok(f))
       case Done(Err(e)) => Done(Err(e)))
    case None => computed
  }

  /** The factor list of `primitive_root` as written: with no list given,
   *  `get_factors` as written is asked, so a q − 1 that trial division
   *  leaves composite never yields a list, only divergence or ECM's
   *  error. */
  function RootFactors(q: int, factors: Option<seq<int>>, smallPrimes: seq<int>, fuel: nat,
                       ecm: nat -> (nat -> Ecm.Curve)): (r: Run<Result<seq<int>>>)
    requires q > 1
    requires |smallPrimes| > 0 && forall i :: 0 <= i < |smallPrimes| ==> IsPrime(smallPrimes[i])
    ensures !r.Panic?
    ensures r.Done? && r.value.Ok? ==> AboveOne(r.value.value)
    ensures factors.Some? ==> r == RootFactorsFrom(q, factors, Diverges)
    ensures factors.None? ==> r == GetFactorsAsWritten(q - 1, smallPrimes, fuel, ecm)
    ensures factors.None? && LeavesComposite(q - 1, smallPrimes) ==>
              r == Diverges || r == Done(Err(Ecm.ECM_FAILED))
  {
    GetFactorsAsWrittenOutcome(q - 1, smallPrimes, fuel, ecm);
    assert LeavesComposite(q - 1, smallPrimes) ==>
             GetFactorsAsWritten(q - 1, smallPrimes, fuel, ecm) in {Diverges, Done(Err(Ecm.ECM_FAILED))} by {
      if LeavesComposite(q - 1, smallPrimes) {
        GetFactorsAsWrittenNeverCompletes(q - 1, smallPrimes, fuel, ecm);
      }
    }
    RootFactorsFrom(q, factors, GetFactorsAsWritten(q - 1, smallPrimes, fuel, ecm))
  }

  /** The factor list of `primitive_root` over the corrected
   *  `get_factors`. */
  function RootFactorsFixed(q: int, factors: Option<seq<int>>, smallPrimes: seq<int>, fuel: nat,
                            ecm: nat -> (nat -> Ecm.Curve)): (r: Run<Result<seq<int>>>)
    requires q > 1
    requires |smallPrimes| > 0 && forall i :: 0 <= i < |smallPrimes| ==> IsPrime(smallPrimes[i])
    ensures !r.Panic?
    ensures r.Done? && r.value.Ok? ==> AboveOne(r.value.value)
    ensures factors.Some? ==> r == RootFactorsFrom(q, factors, Diverges)
    ensures factors.None? ==> r == GetFactorsFixed(q - 1, smallPrimes, fuel, ecm)
  {
    GetFactorsFixedAboveOne(q - 1, smallPrimes, fuel, ecm);
    RootFactorsFrom(q, factors, GetFactorsFixed(q - 1, smallPrimes, fuel, ecm))
  }

  /** The search of `primitive_root` once its factor list is known: the
   *  smallest g ≥ 2 passing the root test, returned with the list; an
   *  error from the list is passed through. */
  function PrimitiveRootFrom(q: int, listed: Run<Result<seq<int>>>, fuel: nat): (r: Run<Result<(int, seq<int>)>>)
    requires q > 1 && !listed.Panic?
    requires listed.Done? && listed.value.Ok? ==> AboveOne(listed.value.value)
    ensures !r.Panic?
    ensures listed.Diverges? ==> r.Diverges?
    ensures listed.Done? && listed.value.Err? ==> r == Done(Err(listed.value.error))
    ensures r.Done? && r.value.Ok? ==>
              var (g, fs) := r.value.value;
              listed == Done(Ok(fs)) &&
              2 <= g && AboveOne(fs) && IsRootOf(g, q, fs) &&
              forall h :: 2 <= h < g ==> !IsRootOf(h, q, fs)
  {
    match listed
    case Diverges => Diverges
    case Done(Err(e)) => Done(Err(e))
    case Done(Ok(fs)) =>
      match RootSearch(q, fs, 2, fuel)
      case Done(g) => Done(Ok((g, fs)))
      case Diverges => Diverges
  }

  /** `primitive_root` as written: the smallest g ≥ 2 passing the root
   *  test for the factor list, returned with the list. With no list
   *  given and a q − 1 that trial division leaves composite, it never
   *  returns a root. */
  function PrimitiveRoot(q: int, factors: Option<seq<int>>, smallPrimes: seq<int>, fuel: nat,
                         ecm: nat -> (nat -> Ecm.Curve)): (r: Run<Result<(int, seq<int>)>>)
    requires q > 1
    requires |smallPrimes| > 0 && forall i :: 0 <= i < |smallPrimes| ==> IsPrime(smallPrimes[i])
    ensures !r.Panic?
    ensures var listed := RootFactors(q, factors, smallPrimes, fuel, ecm);
            listed.Done? && listed.value.Err? ==> r == Done(Err(listed.value.error))
    ensures r.Done? && r.value.Ok? ==>
              var (g, fs) := r.value.value;
              RootFactors(q, factors, smallPrimes, fuel, ecm) == Done(Ok(fs)) &&
              2 <= g && AboveOne(fs) && IsRootOf(g, q, fs) &&
              forall h :: 2 <= h < g ==> !IsRootOf(h, q, fs)
    ensures factors.None? && LeavesComposite(q - 1, smallPrimes) ==>
              r == Diverges || r == Done(Err(Ecm.ECM_FAILED))
  {
    PrimitiveRootFrom(q, RootFactors(q, factors, smallPrimes, fuel, ecm), fuel)
  }

  /** `primitive_root` over the corrected `get_factors`. */
  function PrimitiveRootFixed(q: int, factors: Option<seq<int>>, smallPrimes: seq<int>, fuel: nat,
                              ecm: nat -> (nat -> Ecm.Curve)): (r: Run<Result<(int, seq<int>)>>)
    requires q > 1
    requires |smallPrimes| > 0 && forall i :: 0 <= i < |smallPrimes| ==> IsPrime(smallPrimes[i])
    ensures !r.Panic?
    ensures var listed := RootFactorsFixed(q, factors, smallPrimes, fuel, ecm);
            listed.Done? && listed.value.Err? ==> r == Done(Err(listed.value.error))
    ensures r.Done? && r.value.Ok? ==>
              var (g, fs) := r.value.value;
              RootFactorsFixed(q, factors, smallPrimes, fuel, ecm) == Done(Ok(fs)) &&
              2 <= g && AboveOne(fs) && IsRootOf(g, q, fs) &&
              forall h :: 2 <= h < g ==> !IsRootOf(h, q, fs)
  {
    PrimitiveRootFrom(q, RootFactorsFixed(q, factors, smallPrimes, fuel, ecm), fuel)
  }

  // ---------------------------------------------------------------------
  // Splitting a composite

  /** `split` of `CompositeSplitter`: the divisor d1 the splitter finds and
   *  n / d1 (truncating), smaller one first; a zero divisor panics. */
  function Split(divisor: int -> int, n: int): (r: Run<(int, int)>)
    ensures r.Panic? <==> divisor(n) == 0
    ensures !r.Diverges?
    ensures r.Done? ==> r.value.0 <= r.value.1
    ensures r.Done? ==> multiset{r.value.0, r.value.1} == multiset{divisor(n), TruncDiv(n, divisor(n))}
  {
    var d1 := divisor(n);
    if d1 == 0 then Panic("division by zero")
    else
      var d2 := TruncDiv(n, d1);
      if d1 < d2 then Done((d1, d2)) else Done((d2, d1))
  }

  /** When the splitter returns a divisor of n, the two parts multiply
   *  back to n. */
  lemma SplitProduct(divisor: int -> int, n: int)
    requires divisor(n) != 0 && Divides(divisor(n), n)
    ensures Split(divisor, n).value.0 * Split(divisor, n).value.1 == n
  {
    var d1 := divisor(n);
    TruncRemZero(n, d1);
    assert n == TruncDiv(n, d1) * d1;
  }
}
