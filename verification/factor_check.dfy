// Checking a factor list against a number (`factorization/mod.rs`):
// `check_factors`, which also insists that every listed factor is prime,
// and `check_factorization`, which does not.
//
// Both divide each listed factor out of the number as often as it
// divides; the list is complete when what remains is 1.

module FactorCheck {
  import opened Wrappers
  import opened Ints
  import opened Divisors

  /** Every entry can be divided out: its absolute value exceeds 1. */
  predicate Dividable(fs: seq<int>)
  {
    forall i :: 0 <= i < |fs| ==> Abs(fs[i]) > 1
  }

  predicate AllPrime(fs: seq<int>)
  {
    forall i :: 0 <= i < |fs| ==> IsPrime(fs[i])
  }

  /** What is left of `m` after each factor in turn has been divided out
   *  as often as it divides. */
  function Remaining(m: int, fs: seq<int>): (r: int)
    requires m != 0 && Dividable(fs)
    ensures r != 0
    decreases |fs|
  {
    if |fs| == 0 then m
    else
      assert Dividable(fs[1..]) by {
        assert forall i :: 1 <= i < |fs| ==> fs[i] == fs[1..][i - 1];
      }
      Remaining(RemoveAll(m, fs[0]).0, fs[1..])
  }

  /** No listed prime divides what remains. */
  lemma {:induction false} RemainingCoprime(m: int, fs: seq<int>)
    requires m != 0 && Dividable(fs)
    ensures forall i :: 0 <= i < |fs| && IsPrime(fs[i]) ==> !Divides(fs[i], Remaining(m, fs))
    decreases |fs|
  {
    if |fs| > 0 {
      var q := RemoveAll(m, fs[0]).0;
      assert forall i :: 1 <= i < |fs| ==> fs[i] == fs[1..][i - 1];
      RemainingCoprime(q, fs[1..]);
      if IsPrime(fs[0]) {
        NotDividesThroughRemaining(q, fs[0], fs[1..]);
      }
    }
  }

  /** For a positive number and factors above 1, what remains is a
   *  positive divisor of the number. */
  lemma {:induction false} RemainingDivides(m: int, fs: seq<int>)
    requires m > 0 && Dividable(fs) && forall i :: 0 <= i < |fs| ==> fs[i] > 1
    ensures Remaining(m, fs) > 0 && Divides(Remaining(m, fs), m)
    decreases |fs|
  {
    if |fs| == 0 {
      ModZeroMultiple(1, m);
    } else {
      var q := RemoveAll(m, fs[0]).0;
      RemoveAllBounds(m, fs[0]);
      assert forall i :: 1 <= i < |fs| ==> fs[i] == fs[1..][i - 1];
      RemainingDivides(q, fs[1..]);
      DividesTrans(Remaining(q, fs[1..]), q, m);
    }
  }

  /** A prime that does not divide a number divides none of the cofactors
   *  left after further divisions. */
  lemma {:induction false} NotDividesThroughRemaining(q: int, p: int, fs: seq<int>)
    requires q != 0 && Dividable(fs) && IsPrime(p) && !Divides(p, q)
    ensures !Divides(p, Remaining(q, fs))
    decreases |fs|
  {
    if |fs| > 0 {
      assert Dividable(fs[1..]) by {
        assert forall i :: 1 <= i < |fs| ==> fs[i] == fs[1..][i - 1];
      }
      var (q', k) := RemoveAll(q, fs[0]);
      if Divides(p, q') {
        DividesMultiple(p, q', Pow(fs[0], k));
      }
      NotDividesThroughRemaining(q', p, fs[1..]);
    }
  }

  // ---------------------------------------------------------------------
  // check_factors

  /** `check_factors`: the first factor that is not prime is an error;
   *  otherwise each is divided out of the running remainder as long as it
   *  divides (a remainder of 0 is divisible forever); the list is accepted
   *  when 1 remains. */
  function CheckFactors(m: int, fs: seq<int>): (r: Run<Result<()>>)
    ensures !r.Panic?
    ensures r.Done? && r.value.Err? ==>
              r.value.error == "Composite factor found" || r.value.error == "Incomplete factor list"
    ensures r.Diverges? ==> m == 0
    decreases |fs|
  {
    if |fs| == 0 then Done(if m == 1 then Ok(()) else Err("Incomplete factor list"))
    else if !IsPrime(fs[0]) then Done(Err("Composite factor found"))
    else if m == 0 then Diverges
    else CheckFactors(RemoveAll(m, fs[0]).0, fs[1..])
  }

  /** A composite (or non-positive) entry is reported exactly when there
   *  is one, for any nonzero number; with only primes the answer is
   *  whether 1 remains. */
  lemma {:induction false} CheckFactorsOutcome(m: int, fs: seq<int>)
    requires m != 0
    ensures !CheckFactors(m, fs).Diverges?
    ensures CheckFactors(m, fs) == Done(Err("Composite factor found")) <==> !AllPrime(fs)
    ensures AllPrime(fs) ==> CheckFactors(m, fs) == Done(if Remaining(m, fs) == 1 then Ok(()) else Err("Incomplete factor list"))
    decreases |fs|
  {
    if |fs| > 0 && IsPrime(fs[0]) {
      CheckFactorsOutcome(RemoveAll(m, fs[0]).0, fs[1..]);
      assert AllPrime(fs) <==> AllPrime(fs[1..]) by {
        assert forall i :: 1 <= i < |fs| ==> fs[i] == fs[1..][i - 1];
      }
    }
  }

  /** The doc promise of `check_factors`: for a positive number and a list
   *  of primes, the list is accepted exactly when it holds every prime
   *  divisor of the number. */
  lemma CheckFactorsComplete(m: int, fs: seq<int>)
    requires m > 0 && AllPrime(fs)
    ensures CheckFactors(m, fs) == Done(Ok(())) <==>
              forall q :: IsPrime(q) && Divides(q, m) ==> q in fs
  {
    CheckFactorsOutcome(m, fs);
    RemainingCoprime(m, fs);
    RemainingDivides(m, fs);
    var r := Remaining(m, fs);
    if r == 1 {
      forall q | IsPrime(q) && Divides(q, m)
        ensures q in fs
      {
        if q !in fs {
          PrimeSurvives(m, q, fs);
          DividesBound(q, 1);
        }
      }
    } else {
      var q := PrimeDivisor(r);
      DividesTrans(q, r, m);
      forall i | 0 <= i < |fs|
        ensures fs[i] != q
      {
        assert IsPrime(fs[i]);
      }
    }
  }

  /** A prime divisor that is not in the list still divides what
   *  remains. */
  lemma {:induction false} PrimeSurvives(m: int, q: int, fs: seq<int>)
    requires m != 0 && AllPrime(fs) && IsPrime(q) && q !in fs && Divides(q, m)
    ensures Divides(q, Remaining(m, fs))
    decreases |fs|
  {
    if |fs| > 0 {
      var (m', k) := RemoveAll(m, fs[0]);
      assert q != fs[0];
      Euclid(q, m', Pow(fs[0], k));
      PrimeNotDividesPower(q, fs[0], k);
      assert q !in fs[1..];
      assert AllPrime(fs[1..]) by {
        assert forall i :: 1 <= i < |fs| ==> fs[i] == fs[1..][i - 1];
      }
      PrimeSurvives(m', q, fs[1..]);
    }
  }

  // ---------------------------------------------------------------------
  // check_factorization

  /** `check_factorization`: the same division without the primality
   *  test. A zero factor panics on the remainder by zero; a factor ±1, or
   *  a remainder of 0, divides forever. */
  function CheckFactorization(p: int, fs: seq<int>): (r: Run<bool>)
    ensures r.Panic? ==> exists i :: 0 <= i < |fs| && fs[i] == 0
    ensures r.Diverges? ==> p == 0 || exists i :: 0 <= i < |fs| && Abs(fs[i]) == 1
    ensures |fs| == 0 ==> r == Done(p == 1)
    decreases |fs|
  {
    if |fs| == 0 then Done(p == 1)
    else if fs[0] == 0 then Panic("division by zero")
    else if p == 0 || Abs(fs[0]) == 1 then Diverges
    else
      var r := CheckFactorization(RemoveAll(p, fs[0]).0, fs[1..]);
      assert forall i :: 1 <= i < |fs| ==> fs[i] == fs[1..][i - 1];
      r
  }

  /** With factors of absolute value above 1 and a nonzero number the
   *  answer is whether 1 remains; with prime factors it agrees with
   *  `check_factors`, so it holds exactly when every prime divisor is
   *  listed. */
  lemma {:induction false} CheckFactorizationOutcome(p: int, fs: seq<int>)
    requires p != 0 && Dividable(fs)
    ensures CheckFactorization(p, fs) == Done(Remaining(p, fs) == 1)
    ensures p > 0 && AllPrime(fs) ==>
              (CheckFactorization(p, fs) == Done(true) <==> forall q :: IsPrime(q) && Divides(q, p) ==> q in fs)
    decreases |fs|
  {
    if |fs| > 0 {
      assert Dividable(fs[1..]) by {
        assert forall i :: 1 <= i < |fs| ==> fs[i] == fs[1..][i - 1];
      }
      CheckFactorizationOutcome(RemoveAll(p, fs[0]).0, fs[1..]);
    }
    if p > 0 && AllPrime(fs) {
      CheckFactorsOutcome(p, fs);
      CheckFactorsComplete(p, fs);
    }
  }
}
