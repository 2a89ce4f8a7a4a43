// The default methods of the integer interface (`zkper-integer`'s
// `ZkperIntegerTrait`). A backend is given by the operations the
// defaults call; the two backends are the unbounded integers (rug, read
// as Dafny `int` with truncating division) and `U32Backend`.

module IntegerTrait {
  import opened Wrappers
  import opened Ints

  datatype Ordering = Less | Equal | Greater

  /** The backend operations the defaults use. */
  datatype IntegerOps<!T> = IntegerOps(
    compare: (T, T) -> Ordering,
    add: (T, T) -> T,
    mul: (T, T) -> T,
    fromU64: nat -> T,
    div: (T, T) -> Run<T>,
    rem: (T, T) -> Run<T>,
    isZero: T -> bool)

  /** Default `partial_cmp`: always comparable. */
  function PartialCmp<T>(ops: IntegerOps<T>, a: T, b: T): (r: Option<Ordering>)
    ensures r.Some? && r.value == ops.compare(a, b)
  {
    Some(ops.compare(a, b))
  }

  /** Default `eq`. */
  predicate Eq<T>(ops: IntegerOps<T>, a: T, b: T)
  {
    ops.compare(a, b) == Equal
  }

  /** Default `square`. */
  function Square<T>(ops: IntegerOps<T>, x: T): T
  {
    ops.mul(x, x)
  }

  /** Default `add_u64`. */
  function AddU64<T>(ops: IntegerOps<T>, x: T, rhs: nat): T
  {
    ops.add(x, ops.fromU64(rhs))
  }

  /** Default `abs`: the value itself. */
  function Abs<T>(x: T): (r: T)
    ensures r == x
  {
    x
  }

  /** Default `is_divisible` (and `is_divisible_by_u64`) as written: the
   *  quotient is zero. */
  function IsDivisibleAsWritten<T>(ops: IntegerOps<T>, a: T, b: T): Run<bool>
  {
    match ops.div(a, b)
    case Done(q) => Done(ops.isZero(q))
    case Panic(msg) => Panic(msg)
    case Diverges => Diverges
  }

  /** `is_divisible` as its name promises: the remainder is zero. */
  function IsDivisible<T>(ops: IntegerOps<T>, a: T, b: T): Run<bool>
  {
    match ops.rem(a, b)
    case Done(r) => Done(ops.isZero(r))
    case Panic(msg) => Panic(msg)
    case Diverges => Diverges
  }

  // ---------------------------------------------------------------------
  // The unbounded backend

  function IntCompare(a: int, b: int): (o: Ordering)
    ensures o == Less <==> a < b
    ensures o == Equal <==> a == b
    ensures o == Greater <==> a > b
  {
    if a < b then Less else if a == b then Equal else Greater
  }

  /** rug's integers: exact arithmetic, division and remainder truncating
   *  toward zero and panicking on a zero divisor. */
  function IntOps(): IntegerOps<int>
  {
    IntegerOps(IntCompare, (a, b) => a + b, (a, b) => a * b, (u: nat) => u as int,
               (a, b) => if b == 0 then Panic("division by zero") else Done(TruncDiv(a, b)),
               (a, b) => if b == 0 then Panic("division by zero") else Done(TruncRem(a, b)),
               x => x == 0)
  }

  /** On the unbounded backend `eq` is equality, `square` is x², and
   *  `add_u64` is addition. */
  lemma IntDefaults(a: int, b: int, u: nat)
    ensures Eq(IntOps(), a, b) <==> a == b
    ensures PartialCmp(IntOps(), a, b) == Some(if a < b then Less else if a == b then Equal else Greater)
    ensures Square(IntOps(), a) == a * a
    ensures AddU64(IntOps(), a, u) == a + u
  {
  }

  /** The remainder test is divisibility on the unbounded backend. */
  lemma IsDivisibleIsDivides(a: int, b: int)
    ensures IsDivisible(IntOps(), a, b).Panic? <==> b == 0
    ensures b != 0 ==> (IsDivisible(IntOps(), a, b) == Done(true) <==> Divides(b, a))
  {
    if b != 0 {
      TruncRemZero(a, b);
    }
  }

  /** The quotient test is not divisibility: 6 is divisible by 3 but its
   *  quotient is 2, and 1 is not divisible by 2 but its quotient is 0. */
  lemma IsDivisibleAsWrittenIsWrong()
    ensures Divides(3, 6) && IsDivisibleAsWritten(IntOps(), 6, 3) == Done(false)
    ensures !Divides(2, 1) && IsDivisibleAsWritten(IntOps(), 1, 2) == Done(true)
  {
    assert TruncDiv(6, 3) == 2;
    assert TruncDiv(1, 2) == 0;
  }
}
