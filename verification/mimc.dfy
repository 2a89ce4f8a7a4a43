// The MiMC permutation of the Groth16 example circuit
// (`tests/test_mimc/implemention.rs`): the LongsightF Feistel network,
// one round per constant, over the scalar field.
//
// The round count `MIMC_ROUNDS` is defined outside this model and is a
// parameter; the field's add, square and multiply are the backend's.

module MiMC {
  import opened Wrappers
  import opened Ints
  import Base = Montgomery

  /** The cube of the round input. */
  function Cube(x: int): int
  {
    x * x * x
  }

  /** One round: (xl, xr) becomes ((xl + c)³ + xr, xl). */
  function Round(b: Base.Backend, xl: int, xr: int, c: int): (r: (int, int))
    requires b.modulus > 1
    ensures r.1 == xl
    ensures r.0 % b.modulus == (Cube(xl + c) + xr) % b.modulus
    ensures xl >= 0 && xr >= 0 && c >= 0 ==> 0 <= r.0 < b.modulus
  {
    var tmp1 := Base.Add(b, xl, c);
    var tmp2 := Base.Mul(b, Base.Square(b, tmp1), tmp1);
    RoundCongruence(b.modulus, xl + c, tmp1, Base.Square(b, tmp1), tmp2);
    var tmp2' := Base.Add(b, tmp2, xr);
    ModCong(tmp2, Cube(xl + c), xr, xr, b.modulus);
    (tmp2', xl)
  }

  lemma RoundCongruence(m: int, t: int, tmp1: int, sq: int, tmp2: int)
    requires m > 1 && tmp1 % m == t % m && sq == (tmp1 * tmp1) % m && tmp2 % m == (sq * tmp1) % m
    ensures tmp2 % m == Cube(t) % m
  {
    ModMod(tmp1 * tmp1, m);
    ModMulCong(sq, tmp1 * tmp1, tmp1, tmp1, m);
    CubeCongruence(m, tmp1, t);
  }

  /** Congruent numbers have congruent cubes. */
  lemma CubeCongruence(m: int, x: int, y: int)
    requires m > 1 && x % m == y % m
    ensures Cube(x) % m == Cube(y) % m
  {
    ModMulCong(x, y, x, y, m);
    ModMulCong(x * x, y * y, x, y, m);
  }

  /** The network over exact integers: xl after the rounds for `cs`. */
  function Feistel(xl: int, xr: int, cs: seq<int>): int
    decreases |cs|
  {
    if |cs| == 0 then xl else Feistel(Cube(xl + cs[0]) + xr, xl, cs[1..])
  }

  /** Congruent inputs give congruent outputs. */
  lemma {:induction false} FeistelCongruence(m: int, xl: int, xr: int, xl': int, xr': int, cs: seq<int>)
    requires m > 1 && xl % m == xl' % m && xr % m == xr' % m
    ensures Feistel(xl, xr, cs) % m == Feistel(xl', xr', cs) % m
    decreases |cs|
  {
    if |cs| > 0 {
      ModCong(xl, xl', cs[0], cs[0], m);
      CubeCongruence(m, xl + cs[0], xl' + cs[0]);
      ModCong(Cube(xl + cs[0]), Cube(xl' + cs[0]), xr, xr', m);
      FeistelCongruence(m, Cube(xl + cs[0]) + xr, xl, Cube(xl' + cs[0]) + xr', xl', cs[1..]);
    }
  }

  /** `mimc_implemention`: a constant list whose length is not the round
   *  count fails the `assert_eq!`; otherwise the result is the network's
   *  xl, reduced. */
  method Mimc(b: Base.Backend, xl0: int, xr0: int, constants: seq<int>, rounds: nat) returns (r: Run<int>)
    requires b.modulus > 1
    ensures r.Panic? <==> |constants| != rounds
    ensures !r.Diverges?
    ensures r.Done? ==> r.value % b.modulus == Feistel(xl0, xr0, constants) % b.modulus
    ensures r.Done? && xl0 >= 0 && xr0 >= 0 && (forall i :: 0 <= i < |constants| ==> constants[i] >= 0) ==>
              0 <= r.value < b.modulus || (|constants| == 0 && r.value == xl0)
  {
    if |constants| != rounds {
      return Panic("assertion `left == right` failed");
    }
    var xl, xr := xl0, xr0;
    var i := 0;
    while i < |constants|
      invariant 0 <= i <= |constants|
      invariant Feistel(xl, xr, constants[i..]) % b.modulus == Feistel(xl0, xr0, constants) % b.modulus
      invariant xl0 >= 0 && xr0 >= 0 && (forall j :: 0 <= j < |constants| ==> constants[j] >= 0) ==>
                  xl >= 0 && xr >= 0 && (i > 0 ==> xl < b.modulus)
      invariant i == 0 ==> xl == xl0
    {
      var c := constants[i];
      var (xl', xr') := Round(b, xl, xr, c);
      assert constants[i..][1..] == constants[i + 1..];
      FeistelCongruence(b.modulus, xl', xr', Cube(xl + c) + xr, xl, constants[i + 1..]);
      xl, xr := xl', xr';
      i := i + 1;
    }
    return Done(xl);
  }
}
