// Pollard's rho search for one factor (`factorization/pollards_rho.rs`,
// and `pollard_rho` of `factorization_opt`).
//
// The rho loop need not stop: its iterations are bounded by a `fuel`
// argument, and a search that runs out of fuel is `Diverges`.

module PollardRho {
  import opened Wrappers
  import opened Ints
  import opened Divisors

  /** `polynomial_pollards_rho`: x² + c, reduced by n with rug's truncating
   *  remainder. */
  function Polynomial(x: int, c: int, n: int): (r: int)
    requires n != 0
    ensures -(Abs(n) as int) < r < Abs(n)
    ensures c >= 0 ==> r >= 0
    ensures n > 0 ==> Divides(n, x * x + c - r)
  {
    assert n > 0 ==> Divides(n, TruncDiv(x * x + c, n) * n) by {
      if n > 0 { ModZeroMultiple(TruncDiv(x * x + c, n), n); }
    }
    TruncRem(x * x + c, n)
  }

  /** One tortoise-and-hare step and the gcd it yields. */
  function Gap(x: int, y: int, n: int): (d: nat)
    requires n != 0
    ensures d > 0 && Divides(d, Abs(n)) && Divides(d, Abs(x - y))
  {
    GcdDivides(Abs(x - y), Abs(n));
    Gcd(Abs(x - y), Abs(n))
  }

  // ---------------------------------------------------------------------
  // get_factor_pollard_rho as written

  /** The inner `while d.is_zero() || d == m` loop of
   *  `get_factor_pollard_rho`: `Some(d)` when a gcd other than 1 is
   *  returned, `None` when the loop condition fails. */
  function RhoLoopAsWritten(x: int, y: int, d: int, c: int, m: int, fuel: nat): Run<Option<int>>
    decreases fuel
  {
    if !(d == 0 || d == m) then Done(None)
    else if fuel == 0 then Diverges
    else if m == 0 then Panic("division by zero")
    else
      var x' := Polynomial(x, c, m);
      var y' := Polynomial(Polynomial(y, c, m), c, m);
      var d' := Gap(x', y', m);
      if d' != 1 then Done(Some(d')) else RhoLoopAsWritten(x', y', d', c, m, fuel - 1)
  }

  /** The `for i in 1..10` loop over the constants c. */
  function TriesAsWritten(m: int, c: nat, fuel: nat): Run<int>
    requires 1 <= c
    decreases 10 - c
  {
    if c >= 10 then Done(1)
    else
      match RhoLoopAsWritten(2, 2, 1, c, m, fuel)
      case Done(Some(d)) => Done(d)
      case Done(None) => TriesAsWritten(m, c + 1, fuel)
      case Panic(s) => Panic(s)
      case Diverges => Diverges
  }

  /** `get_factor_pollard_rho` as written: a prime is its own factor;
   *  otherwise up to nine constants are tried, each with x = y = 2 and
   *  d = 1, and 1 is returned when none yields a factor. */
  function GetFactorPollardRhoAsWritten(m: int, fuel: nat): (r: Run<int>)
    ensures IsPrime(Abs(m)) ==> r == Done(m)
  {
    if IsProbablyPrime(m) then Done(m) else TriesAsWritten(m, 1, fuel)
  }

  /** Since d starts at 1, the loop body runs only when m = 1: for every
   *  other number whose absolute value is not prime the search returns 1
   *  without iterating. */
  lemma PollardRhoAsWrittenGivesUp(m: int, fuel: nat)
    requires !IsPrime(Abs(m)) && m != 1
    ensures GetFactorPollardRhoAsWritten(m, fuel) == Done(1)
  {
    TriesGiveUp(m, 1, fuel);
  }

  lemma {:induction false} TriesGiveUp(m: int, c: nat, fuel: nat)
    requires m != 1 && 1 <= c
    ensures TriesAsWritten(m, c, fuel) == Done(1)
    decreases 10 - c
  {
    if c < 10 {
      assert RhoLoopAsWritten(2, 2, 1, c, m, fuel) == Done(None);
      TriesGiveUp(m, c + 1, fuel);
    }
  }

  /** For m = 1 every step gives x = y = 0 and gcd 1, which equals m, so
   *  the loop never ends. */
  lemma PollardRhoAsWrittenSpins(fuel: nat)
    ensures GetFactorPollardRhoAsWritten(1, fuel) == Diverges
  {
    SpinsOnOne(2, 2, 1, fuel);
  }

  lemma {:induction false} SpinsOnOne(x: int, y: int, c: nat, fuel: nat)
    requires 1 <= c < 10
    ensures RhoLoopAsWritten(x, y, 1, c, 1, fuel) == Diverges
    decreases fuel
  {
    if fuel > 0 {
      var x' := Polynomial(x, c, 1);
      var y' := Polynomial(Polynomial(y, c, 1), c, 1);
      assert x' == 0 && y' == 0;
      assert Gap(x', y', 1) == 1;
      SpinsOnOne(x', y', c, fuel - 1);
    }
  }

  /** On 15 the search as written returns 1, where one rho step with c = 1
   *  already exposes the factor 3. */
  lemma PollardRhoAsWrittenMissesFactor()
    ensures GetFactorPollardRhoAsWritten(15, 1) == Done(1)
    ensures GetFactorPollardRhoFixed(15, 1) == Done(3)
  {
    assert Divides(3, 15);
    PollardRhoAsWrittenGivesUp(15, 1);
    assert Polynomial(2, 1, 15) == 5;
    assert Polynomial(5, 1, 15) == 11;
    assert Gcd(6, 15) == 3 by {
      assert Gcd(6, 15) == Gcd(15, 6) == Gcd(6, 3) == Gcd(3, 0);
    }
    assert RhoUntilNontrivial(2, 2, 1, 15, 1) == Done(3);
  }

  // ---------------------------------------------------------------------
  // The rho loop as intended

  /** `pollard_rho` of `factorization_opt`: steps the tortoise once and the
   *  hare twice while the gcd of their distance with n is 1. The result
   *  is a divisor of n above 1, possibly n itself. */
  function RhoUntilNontrivial(x: int, y: int, c: nat, n: int, fuel: nat): (r: Run<int>)
    requires n > 0
    ensures !r.Panic?
    ensures r.Done? ==> 1 < r.value <= n && Divides(r.value, n)
    decreases fuel
  {
    if fuel == 0 then Diverges
    else
      var x' := Polynomial(x, c, n);
      var y' := Polynomial(Polynomial(y, c, n), c, n);
      var d := Gap(x', y', n);
      if d != 1 then
        DividesBound(d, n);
        Done(d)
      else RhoUntilNontrivial(x', y', c, n, fuel - 1)
  }

  function TriesFixed(m: int, c: nat, fuel: nat): (r: Run<int>)
    requires m > 1 && 1 <= c
    ensures !r.Panic?
    ensures r.Done? ==> r.value == 1 || (1 < r.value < m && Divides(r.value, m))
    decreases 10 - c
  {
    if c >= 10 then Done(1)
    else
      match RhoUntilNontrivial(2, 2, c, m, fuel)
      case Done(d) => if d != m then Done(d) else TriesFixed(m, c + 1, fuel)
      case Diverges => Diverges
  }

  /** `get_factor_pollard_rho` with the loop it evidently intends
   *  (`while d == 1`, then a factor other than m is returned and m itself
   *  moves on to the next constant): a prime or negated prime is its own
   *  factor; anything else returned besides 1 is a proper divisor above
   *  1. */
  function GetFactorPollardRhoFixed(m: int, fuel: nat): (r: Run<int>)
    ensures !r.Panic?
    ensures IsPrime(Abs(m)) ==> r == Done(m)
    ensures r.Done? && !IsPrime(Abs(m)) ==>
              r.value == 1 || (1 < r.value < m && Divides(r.value, m))
  {
    if IsProbablyPrime(m) then Done(m)
    else if m <= 1 then Done(1)
    else TriesFixed(m, 1, fuel)
  }

  /** Every value `GetFactorPollardRhoFixed` returns divides m, which is
   *  what the source's test asks of it. */
  lemma PollardRhoFixedDivides(m: int, fuel: nat)
    requires m > 0
    ensures GetFactorPollardRhoFixed(m, fuel).Done? ==>
              Divides(GetFactorPollardRhoFixed(m, fuel).value, m)
  {
    if IsProbablyPrime(m) || GetFactorPollardRhoFixed(m, fuel) == Done(1) {
      ModZeroMultiple(1, m);
    }
  }
}
