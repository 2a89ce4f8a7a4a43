// The sieve-based factorization and generator search of
// `math/factorization_opt/mod.rs`: trial division by the primes of a sieve,
// Pollard's rho for what is left, and the search for a generator of the
// multiplicative group modulo a prime among ±2, ±3, ±5, …
//
// The sieve of primes below `SIEVE_LIMIT` is a parameter: an ascending
// list of primes. The rho loop need not stop and is bounded by `fuel`.

module FactorizationOpt {
  import opened Wrappers
  import opened Ints
  import opened Divisors
  import PollardRho
  import Factorization

  const SIEVE_LIMIT: int := 1000000

  /** One entry of a factor list: a base and the number of times it
   *  divides. */
  datatype Entry = Entry(base: int, exp: nat)

  /** An ascending list of primes, as the sieve yields them. */
  predicate SievePrimes(sieve: seq<int>)
  {
    |sieve| > 0 && StrictlyIncreasing(sieve) &&
    forall i :: 0 <= i < |sieve| ==> IsPrime(sieve[i])
  }

  /** The number a factor list stands for: the product of its powers. */
  function ProdPowers(es: seq<Entry>): int
  {
    if |es| == 0 then 1 else Pow(es[0].base, es[0].exp) * ProdPowers(es[1..])
  }

  lemma {:induction false} ProdPowersAppend(es: seq<Entry>, e: Entry)
    ensures ProdPowers(es + [e]) == ProdPowers(es) * Pow(e.base, e.exp)
    decreases |es|
  {
    if |es| > 0 {
      assert (es + [e])[1..] == es[1..] + [e];
      ProdPowersAppend(es[1..], e);
      MulAssoc(Pow(es[0].base, es[0].exp), ProdPowers(es[1..]), Pow(e.base, e.exp));
    }
  }

  predicate SortedByBase(es: seq<Entry>)
  {
    forall i, j :: 0 <= i < j < |es| ==> es[i].base <= es[j].base
  }

  predicate StrictByBase(es: seq<Entry>)
  {
    forall i, j :: 0 <= i < j < |es| ==> es[i].base < es[j].base
  }

  predicate DistinctBases(es: seq<Entry>)
  {
    forall i, j :: 0 <= i < j < |es| ==> es[i].base != es[j].base
  }

  // ---------------------------------------------------------------------
  // The final `sort_by` on the base

  /** Inserts `e` after every entry whose base is not larger, which keeps
   *  the sort stable. */
  function InsertByBase(es: seq<Entry>, e: Entry): (r: seq<Entry>)
    requires SortedByBase(es)
    ensures SortedByBase(r)
    ensures multiset(r) == multiset(es) + multiset{e}
    ensures forall x :: x in r <==> x in es || x == e
    decreases |es|
  {
    if |es| == 0 then [e]
    else if e.base < es[0].base then [e] + es
    else
      assert SortedByBase(es[1..]) by {
        forall i, j | 0 <= i < j < |es| - 1
          ensures es[1..][i].base <= es[1..][j].base
        {
          assert es[1..][i] == es[i + 1] && es[1..][j] == es[j + 1];
        }
      }
      var rest := InsertByBase(es[1..], e);
      assert es == [es[0]] + es[1..];
      assert forall x :: x in rest ==> es[0].base <= x.base by {
        forall x | x in rest
          ensures es[0].base <= x.base
        {
          if x != e {
            assert x in es[1..];
          }
        }
      }
      PrependSorted(es[0], rest);
      assert multiset([es[0]] + rest) == multiset{es[0]} + multiset(rest);
      [es[0]] + rest
  }

  lemma PrependSorted(x: Entry, rest: seq<Entry>)
    requires SortedByBase(rest) && forall y :: y in rest ==> x.base <= y.base
    ensures SortedByBase([x] + rest)
  {
    forall i, j | 0 <= i < j < |rest| + 1
      ensures ([x] + rest)[i].base <= ([x] + rest)[j].base
    {
      assert ([x] + rest)[j] == rest[j - 1];
      if i > 0 {
        assert ([x] + rest)[i] == rest[i - 1];
      } else {
        assert rest[j - 1] in rest;
      }
    }
  }

  /** `factors.sort_by(|a, b| a.0.cmp(&b.0))`: a stable sort on the base. */
  function SortByBase(es: seq<Entry>): (r: seq<Entry>)
    ensures SortedByBase(r)
    ensures multiset(r) == multiset(es)
    decreases |es|
  {
    if |es| == 0 then []
    else
      assert es == es[..|es| - 1] + [es[|es| - 1]];
      InsertByBase(SortByBase(es[..|es| - 1]), es[|es| - 1])
  }

  lemma {:induction false} InsertByBaseProd(es: seq<Entry>, e: Entry)
    requires SortedByBase(es)
    ensures ProdPowers(InsertByBase(es, e)) == Pow(e.base, e.exp) * ProdPowers(es)
    decreases |es|
  {
    if |es| > 0 && e.base >= es[0].base {
      InsertByBaseProd(es[1..], e);
      var a := Pow(es[0].base, es[0].exp);
      var b := Pow(e.base, e.exp);
      var rest := InsertByBase(es[1..], e);
      assert ([es[0]] + rest)[1..] == rest;
      MulAssoc(a, b, ProdPowers(es[1..]));
      MulComm(a, b);
      MulAssoc(b, a, ProdPowers(es[1..]));
    }
  }

  /** Sorting keeps the product. */
  lemma {:induction false} SortByBaseProd(es: seq<Entry>)
    ensures ProdPowers(SortByBase(es)) == ProdPowers(es)
    decreases |es|
  {
    if |es| > 0 {
      var init := es[..|es| - 1];
      var e := es[|es| - 1];
      SortByBaseProd(init);
      InsertByBaseProd(SortByBase(init), e);
      assert es == init + [e];
      ProdPowersAppend(init, e);
      MulComm(Pow(e.base, e.exp), ProdPowers(init));
    }
  }

  /** Inserting a base not yet present keeps the bases strictly
   *  increasing. */
  lemma {:induction false} InsertByBaseStrict(es: seq<Entry>, e: Entry)
    requires StrictByBase(es) && forall k :: 0 <= k < |es| ==> es[k].base != e.base
    ensures StrictByBase(InsertByBase(es, e))
    decreases |es|
  {
    if |es| > 0 && e.base >= es[0].base {
      var tail := es[1..];
      assert forall k :: 0 <= k < |tail| ==> tail[k] == es[k + 1];
      InsertByBaseStrict(tail, e);
      var rest := InsertByBase(tail, e);
      assert forall k :: 0 <= k < |rest| ==> es[0].base < rest[k].base by {
        forall k | 0 <= k < |rest|
          ensures es[0].base < rest[k].base
        {
          assert rest[k] in rest;
        }
      }
      PrependStrict(es[0], rest);
    }
  }

  lemma PrependStrict(x: Entry, rest: seq<Entry>)
    requires StrictByBase(rest) && forall k :: 0 <= k < |rest| ==> x.base < rest[k].base
    ensures StrictByBase([x] + rest)
  {
    var r := [x] + rest;
    forall i, j | 0 <= i < j < |r|
      ensures r[i].base < r[j].base
    {
      assert r[j] == rest[j - 1];
      if i > 0 {
        assert r[i] == rest[i - 1];
      }
    }
  }

  /** Sorting a list whose bases are distinct leaves them strictly
   *  increasing. */
  lemma {:induction false} SortedDistinctIsStrict(es: seq<Entry>)
    requires DistinctBases(es)
    ensures StrictByBase(SortByBase(es))
    decreases |es|
  {
    if |es| > 0 {
      var init := es[..|es| - 1];
      var e := es[|es| - 1];
      SortedDistinctIsStrict(init);
      var sorted := SortByBase(init);
      forall k | 0 <= k < |sorted|
        ensures sorted[k].base != e.base
      {
        assert sorted[k] in multiset(init);
        var a :| 0 <= a < |init| && init[a] == sorted[k];
        assert es[a] == init[a];
      }
      InsertByBaseStrict(sorted, e);
    }
  }

  // ---------------------------------------------------------------------
  // What `factor` keeps true while it works

  /** `log` has the factors taken out of n so far and m what is left:
   *  their product is n, each base above 1 divides n but no longer
   *  divides m, and no base is listed twice. */
  predicate Accounted(m: int, log: seq<Entry>, n: int)
  {
    m >= 1 && m * ProdPowers(log) == n && DistinctBases(log) &&
    forall k :: 0 <= k < |log| ==>
      log[k].base > 1 && log[k].exp > 0 && Divides(log[k].base, n) && !Divides(log[k].base, m)
  }

  /** Taking every power of a divisor d > 1 out of m and recording it keeps
   *  the account and makes m smaller. */
  lemma Push(m: int, log: seq<Entry>, n: int, d: int)
    requires Accounted(m, log, n) && d > 1 && Divides(d, m)
    ensures RemoveAll(m, d).0 < m
    ensures Accounted(RemoveAll(m, d).0, log + [Entry(d, RemoveAll(m, d).1)], n)
  {
    var (m', k) := RemoveAll(m, d);
    var log' := log + [Entry(d, k)];
    RemoveAllBounds(m, d);
    ProdPowersAppend(log, Entry(d, k));
    MulAssoc(m', ProdPowers(log), Pow(d, k));
    MulComm(ProdPowers(log), Pow(d, k));
    MulAssoc(m', Pow(d, k), ProdPowers(log));
    assert m' * ProdPowers(log') == n;
    assert Divides(m, n) by {
      MulComm(m, ProdPowers(log));
      ModZeroMultiple(ProdPowers(log), m);
    }
    DividesTrans(d, m, n);
    forall k' | 0 <= k' < |log|
      ensures !Divides(log[k'].base, m') && log[k'].base != d
    {
      if Divides(log[k'].base, m') {
        DividesTrans(log[k'].base, m', m);
      }
    }
  }

  /** A prime remainder is recorded once, and 1 remains. */
  lemma PushPrime(m: int, log: seq<Entry>, n: int)
    requires Accounted(m, log, n) && IsPrime(m)
    ensures Accounted(1, log + [Entry(m, 1)], n)
  {
    ModZeroMultiple(1, m);
    Push(m, log, n, m);
    assert RemoveAll(m, m) == (1, 1) by {
      assert !Divides(m, 1);
    }
  }

  /** The loop `while m.is_divisible(&p) { m /= &p; exp += 1; }`: the
   *  cofactor and the count `RemoveAll` gives. */
  method DivideOutAll(m: int, p: int) returns (m': int, exp: nat)
    requires m >= 1 && p > 1
    ensures (m', exp) == RemoveAll(m, p)
    ensures m' >= 1 && !Divides(p, m') && m == m' * Pow(p, exp)
  {
    m', exp := m, 0;
    while Divides(p, m')
      invariant m' != 0
      invariant RemoveAll(m', p).0 == RemoveAll(m, p).0
      invariant RemoveAll(m', p).1 + exp == RemoveAll(m, p).1
      decreases Abs(m')
    {
      ExactQuotient(m', p);
      m' := m' / p;
      exp := exp + 1;
    }
    RemoveAllBounds(m, p);
  }

  // ---------------------------------------------------------------------
  // pollard_rho_factor and factor

  /** `pollard_rho` of this module: x and y start at 2 with the polynomial
   *  x² + 1, and the loop runs while the gcd is 1. */
  function PollardRhoOpt(n: int, fuel: nat): (r: Run<int>)
    requires n > 0
    ensures !r.Panic?
    ensures r.Done? ==> 1 < r.value <= n && Divides(r.value, n)
  {
    PollardRho.RhoUntilNontrivial(2, 2, 1, n, fuel)
  }

  /** `pollard_rho_factor`: while m > 1, a prime m is recorded and ends the
   *  loop; otherwise the divisor rho finds is divided out as often as it
   *  divides and recorded with that count. The divisor may be m itself,
   *  which is then recorded although it is not prime. */
  method PollardRhoFactor(m: int, log: seq<Entry>, n: int, fuel: nat) returns (r: Run<seq<Entry>>)
    requires Accounted(m, log, n)
    ensures !r.Panic?
    ensures r.Done? ==> Accounted(1, r.value, n) && |r.value| >= |log| && r.value[..|log|] == log
  {
    var m', log' := m, log;
    while m' > 1
      invariant Accounted(m', log', n)
      invariant |log'| >= |log| && log'[..|log|] == log
      decreases m'
    {
      if IsPrime(m') {
        PushPrime(m', log', n);
        log' := log' + [Entry(m', 1)];
        m' := 1;
        break;
      }
      var rho := PollardRhoOpt(m', fuel);
      if rho.Diverges? {
        return Diverges;
      }
      var d := rho.value;
      Push(m', log', n, d);
      var rest, exp := DivideOutAll(m', d);
      log' := log' + [Entry(d, exp)];
      m' := rest;
    }
    return Done(log');
  }

  /** `factor`: the primes of the sieve are divided out in turn, each
   *  recorded with its count; the list is returned as it stands once 1
   *  remains, and the trial division stops as soon as what remains is
   *  below SIEVE_LIMIT². A remainder above 1 is then recorded when prime,
   *  and otherwise split by `pollard_rho_factor`; the list is sorted by
   *  base. For 0 the first prime divides for ever. */
  method Factor(n: nat, sieve: seq<int>, fuel: nat) returns (r: Run<seq<Entry>>)
    requires SievePrimes(sieve)
    ensures n == 0 ==> r.Diverges?
    ensures n == 1 ==> r == Done([])
    ensures !r.Panic?
    ensures r.Done? ==> FactorList(r.value, n)
  {
    if n == 0 {
      return Diverges;
    }
    var m: int := n;
    var log: seq<Entry> := [];
    for i := 0 to |sieve|
      invariant Accounted(m, log, n)
      invariant StrictByBase(log)
      invariant i < |sieve| ==> Below(log, sieve[i])
      invariant n == 1 ==> log == [] && m == 1
      invariant 0 < i ==> m != 1
    {
      var p := sieve[i];
      var rest, exp := DivideOutAll(m, p);
      if exp > 0 {
        Push(m, log, n, p);
        TrialPush(log, p, exp);
        log := log + [Entry(p, exp)];
      }
      assert Below(log, p + 1);
      m := rest;
      if m == 1 {
        AccountedFactorList(log, n);
        return Done(log);
      }
      if m < SIEVE_LIMIT * SIEVE_LIMIT {
        break;
      }
    }
    r := Leftover(m, log, n, fuel);
  }

  /** Every base of the list is below `p`. */
  predicate Below(log: seq<Entry>, p: int)
  {
    forall k :: 0 <= k < |log| ==> log[k].base < p
  }

  /** A prime taken out in sieve order comes after every base so far. */
  lemma TrialPush(log: seq<Entry>, p: int, exp: nat)
    requires StrictByBase(log) && Below(log, p)
    ensures StrictByBase(log + [Entry(p, exp)]) && Below(log + [Entry(p, exp)], p + 1)
  {
    var log' := log + [Entry(p, exp)];
    forall i, j | 0 <= i < j < |log'|
      ensures log'[i].base < log'[j].base
    {
      assert log'[i] == log[i];
      if j < |log| {
        assert log'[j] == log[j];
      }
    }
  }

  /** The end of `factor`: a remainder above 1 is recorded when prime and
   *  split by `pollard_rho_factor` otherwise; then the list is sorted by
   *  base. */
  method Leftover(m: int, log: seq<Entry>, n: int, fuel: nat) returns (r: Run<seq<Entry>>)
    requires Accounted(m, log, n)
    ensures !r.Panic?
    ensures r.Done? ==> FactorList(r.value, n)
  {
    var log' := log;
    if m != 1 {
      if IsPrime(m) {
        PushPrime(m, log, n);
        log' := log + [Entry(m, 1)];
      } else {
        var done := PollardRhoFactor(m, log, n, fuel);
        if done.Diverges? {
          return Diverges;
        }
        log' := done.value;
      }
    }
    SortedFactorList(log', n);
    return Done(SortByBase(log'));
  }

  /** Once 1 remains, a list kept strictly increasing is a factor list
   *  of n. */
  lemma AccountedFactorList(log: seq<Entry>, n: int)
    requires Accounted(1, log, n) && StrictByBase(log)
    ensures FactorList(log, n)
  {
  }

  /** Once 1 remains, the sorted list is a factor list of n. */
  lemma SortedFactorList(log: seq<Entry>, n: int)
    requires Accounted(1, log, n)
    ensures FactorList(SortByBase(log), n)
  {
    SortByBaseProd(log);
    SortedDistinctIsStrict(log);
    SortedEntries(log);
  }

  /** Sorting keeps every entry, so facts about each entry survive it. */
  lemma SortedEntries(log: seq<Entry>)
    ensures forall k :: 0 <= k < |SortByBase(log)| ==> SortByBase(log)[k] in log
  {
    var r := SortByBase(log);
    forall k | 0 <= k < |r|
      ensures r[k] in log
    {
      assert r[k] in multiset(r);
    }
  }

  // ---------------------------------------------------------------------
  // is_primitive_root and find_generator

  /** The bases of a factor list. */
  function Bases(es: seq<Entry>): (r: seq<int>)
    ensures |r| == |es| && forall k :: 0 <= k < |es| ==> r[k] == es[k].base
  {
    seq(|es|, k requires 0 <= k < |es| => es[k].base)
  }

  /** `is_primitive_root` of this module: phi = modulus − 1 is computed
   *  here, and `a` fails as soon as a^(phi / p) is 1 modulo `modulus`
   *  for some base p of the list. */
  method IsPrimitiveRootOpt(a: int, modulus: int, factors: seq<Entry>) returns (r: bool)
    requires modulus >= 1 && forall k :: 0 <= k < |factors| ==> factors[k].base > 0
    ensures r <==> forall k :: 0 <= k < |factors| ==>
                     Pow(a, (modulus - 1) / factors[k].base) % modulus != 1
  {
    r := Factorization.IsPrimitiveRoot(a, modulus, modulus - 1, Bases(factors));
  }

  /** The candidates of `find_generator` in the order tried: p, then −p,
   *  for each prime p of the sieve. */
  function SieveCandidate(sieve: seq<int>, j: nat): (c: int)
    requires SievePrimes(sieve) && j < 2 * |sieve|
    ensures Abs(c) == sieve[j / 2]
    ensures j % 2 == 1 ==> c == -sieve[j / 2]
  {
    if j % 2 == 0 then sieve[j / 2] else -sieve[j / 2]
  }

  /** `a` passes the root test for the list. */
  predicate RootFor(a: int, modulus: int, factors: seq<Entry>)
    requires modulus >= 1
  {
    forall k :: 0 <= k < |factors| && factors[k].base > 0 ==>
      Pow(a, (modulus - 1) / factors[k].base) % modulus != 1
  }

  /** A factor list for n as `factor` produces it. */
  predicate FactorList(fs: seq<Entry>, n: int)
  {
    ProdPowers(fs) == n && StrictByBase(fs) &&
    forall k :: 0 <= k < |fs| ==> fs[k].base > 1 && fs[k].exp > 0 && Divides(fs[k].base, n)
  }

  /** A factor list for modulus − 1. */
  predicate FactorsOfPhi(fs: seq<Entry>, modulus: int)
  {
    FactorList(fs, modulus - 1)
  }

  /** The candidate loop of `find_generator` for a given factor list. */
  method SearchSieve(modulus: int, sieve: seq<int>, factors: seq<Entry>) returns (r: Option<int>)
    requires modulus >= 1 && SievePrimes(sieve)
    requires forall k :: 0 <= k < |factors| ==> factors[k].base > 1
    ensures r.Some? ==>
              exists j :: 0 <= j < 2 * |sieve| && r.value == SieveCandidate(sieve, j) &&
                          RootFor(r.value, modulus, factors) &&
                          forall j' :: 0 <= j' < j ==> !RootFor(SieveCandidate(sieve, j'), modulus, factors)
    ensures r.None? ==>
              forall j :: 0 <= j < 2 * |sieve| && (forall k :: 0 <= k < j / 2 ==> sieve[k] <= 1000) ==>
                !RootFor(SieveCandidate(sieve, j), modulus, factors)
  {
    for i := 0 to |sieve|
      invariant forall j :: 0 <= j < 2 * i ==> !RootFor(SieveCandidate(sieve, j), modulus, factors)
      invariant forall k :: 0 <= k < i ==> sieve[k] <= 1000
    {
      var p := sieve[i];
      var ok := IsPrimitiveRootOpt(p, modulus, factors);
      if ok {
        assert p == SieveCandidate(sieve, 2 * i);
        return Some(p);
      }
      ok := IsPrimitiveRootOpt(-p, modulus, factors);
      if ok {
        assert -p == SieveCandidate(sieve, 2 * i + 1);
        return Some(-p);
      }
      assert forall j :: 0 <= j < 2 * i + 2 ==> !RootFor(SieveCandidate(sieve, j), modulus, factors) by {
        assert !RootFor(SieveCandidate(sieve, 2 * i), modulus, factors);
        assert !RootFor(SieveCandidate(sieve, 2 * i + 1), modulus, factors);
      }
      if p > 1000 {
        return None;
      }
    }
    return None;
  }

  /** `find_generator` of this module: factors modulus − 1 and returns the
   *  first of 2, −2, 3, −3, 5, … that passes the root test, trying primes
   *  up to the first one above 1000; panics when none does. */
  method FindGeneratorOpt(modulus: int, sieve: seq<int>, fuel: nat) returns (r: Run<int>)
    requires modulus >= 1 && SievePrimes(sieve)
    ensures modulus == 1 ==> r.Diverges?
    ensures r.Panic? ==> r.message == "Generator not found"
    ensures r.Done? ==>
              exists fs :: FactorsOfPhi(fs, modulus) &&
                exists j :: 0 <= j < 2 * |sieve| && r.value == SieveCandidate(sieve, j) &&
                            RootFor(r.value, modulus, fs) &&
                            forall j' :: 0 <= j' < j ==> !RootFor(SieveCandidate(sieve, j'), modulus, fs)
    ensures r.Panic? ==>
              exists fs :: FactorsOfPhi(fs, modulus) &&
                forall j :: 0 <= j < 2 * |sieve| && (forall k :: 0 <= k < j / 2 ==> sieve[k] <= 1000) ==>
                  !RootFor(SieveCandidate(sieve, j), modulus, fs)
  {
    var factors := Factor(modulus - 1, sieve, fuel);
    if factors.Diverges? {
      return Diverges;
    }
    var fs := factors.value;
    assert FactorsOfPhi(fs, modulus);
    var found := SearchSieve(modulus, sieve, fs);
    if found.Some? {
      return Done(found.value);
    }
    return Panic("Generator not found");
  }
}
