// The rank-one constraint system of the Groth16 crate
// (`constraints/mod.rs`): variable kinds, and the bookkeeping that
// allocates public and private variables. Each variable owns one row in
// each of the A, B and C tables of its kind.

module Constraints {
  import opened Wrappers

  /** A public instance variable or a private witness variable, by index. */
  datatype Variable = Public(index: nat) | Private(index: nat)

  /** A table row: the (coefficient, constraint index) pairs of a variable. */
  type Row = seq<(int, nat)>

  datatype ConstraintSystem = ConstraintSystem(
    numPublicInputs: nat,
    numPrivateInputs: nat,
    numConstraints: nat,
    atPublic: seq<Row>, btPublic: seq<Row>, ctPublic: seq<Row>,
    atPrivate: seq<Row>, btPrivate: seq<Row>, ctPrivate: seq<Row>)

  /** Every variable has exactly one row in each table of its kind. */
  predicate Valid(cs: ConstraintSystem)
  {
    && |cs.atPublic| == cs.numPublicInputs
    && |cs.btPublic| == cs.numPublicInputs
    && |cs.ctPublic| == cs.numPublicInputs
    && |cs.atPrivate| == cs.numPrivateInputs
    && |cs.btPrivate| == cs.numPrivateInputs
    && |cs.ctPrivate| == cs.numPrivateInputs
  }

  /** `new`: one public input (the constant one) with an empty row in each
   *  public table, no private inputs and no constraints. */
  function New(): (r: ConstraintSystem)
    ensures Valid(r)
    ensures r.numPublicInputs == 1 && r.numPrivateInputs == 0 && r.numConstraints == 0
    ensures r.atPublic == r.btPublic == r.ctPublic == [[]]
  {
    ConstraintSystem(1, 0, 0, [[]], [[]], [[]], [], [], [])
  }

  /** `one`: the constant-one variable is public input 0, which `New`
   *  allocates. */
  function One(): (v: Variable)
    ensures v.Public? && v.index < New().numPublicInputs
  {
    Public(0)
  }

  /** `new_private`: the next private index, with one empty row pushed to
   *  each private table; the public side and the constraint count do not
   *  change. */
  function NewPrivate(cs: ConstraintSystem): (r: (Variable, ConstraintSystem))
    ensures r.0 == Private(cs.numPrivateInputs)
    ensures r.1.numPrivateInputs == cs.numPrivateInputs + 1
    ensures r.1.atPrivate == cs.atPrivate + [[]] && r.1.btPrivate == cs.btPrivate + [[]]
    ensures r.1.ctPrivate == cs.ctPrivate + [[]]
    ensures r.1.numPublicInputs == cs.numPublicInputs && r.1.numConstraints == cs.numConstraints
    ensures r.1.atPublic == cs.atPublic && r.1.btPublic == cs.btPublic && r.1.ctPublic == cs.ctPublic
    ensures Valid(cs) ==> Valid(r.1)
  {
    var cs' := cs.(atPrivate := cs.atPrivate + [[]],
                   btPrivate := cs.btPrivate + [[]],
                   ctPrivate := cs.ctPrivate + [[]],
                   numPrivateInputs := cs.numPrivateInputs + 1);
    (Private(cs.numPrivateInputs), cs')
  }

  /** `new_public`: the next public index, with one empty row pushed to
   *  each public table; the private side and the constraint count do not
   *  change. */
  function NewPublic(cs: ConstraintSystem): (r: (Variable, ConstraintSystem))
    ensures r.0 == Public(cs.numPublicInputs)
    ensures r.1.numPublicInputs == cs.numPublicInputs + 1
    ensures r.1.atPublic == cs.atPublic + [[]] && r.1.btPublic == cs.btPublic + [[]]
    ensures r.1.ctPublic == cs.ctPublic + [[]]
    ensures r.1.numPrivateInputs == cs.numPrivateInputs && r.1.numConstraints == cs.numConstraints
    ensures r.1.atPrivate == cs.atPrivate && r.1.btPrivate == cs.btPrivate && r.1.ctPrivate == cs.ctPrivate
    ensures Valid(cs) ==> Valid(r.1)
  {
    var cs' := cs.(atPublic := cs.atPublic + [[]],
                   btPublic := cs.btPublic + [[]],
                   ctPublic := cs.ctPublic + [[]],
                   numPublicInputs := cs.numPublicInputs + 1);
    (Public(cs.numPublicInputs), cs')
  }

  /** `enforce_constraint` is `unimplemented!()`: it always panics, so no
   *  constraint is ever recorded. */
  function EnforceConstraint(cs: ConstraintSystem): (r: Run<ConstraintSystem>)
    ensures r.Panic?
  {
    Panic("not implemented")
  }

  /** An allocation request: a public or a private variable. */
  datatype Allocation = AllocPublic | AllocPrivate

  function Allocate(cs: ConstraintSystem, a: Allocation): ConstraintSystem
  {
    match a
    case AllocPublic => NewPublic(cs).1
    case AllocPrivate => NewPrivate(cs).1
  }

  function AllocateAll(cs: ConstraintSystem, allocs: seq<Allocation>): ConstraintSystem
    decreases |allocs|
  {
    if |allocs| == 0 then cs else AllocateAll(Allocate(cs, allocs[0]), allocs[1..])
  }

  function CountPublic(allocs: seq<Allocation>): nat
  {
    if |allocs| == 0 then 0 else (if allocs[0].AllocPublic? then 1 else 0) + CountPublic(allocs[1..])
  }

  /** Any sequence of allocations keeps a system valid, adds the public
   *  allocations to the public count and the rest to the private count,
   *  and leaves the constraint count alone. */
  lemma {:induction false} AllocationsKeepValid(cs: ConstraintSystem, allocs: seq<Allocation>)
    requires Valid(cs)
    ensures Valid(AllocateAll(cs, allocs))
    ensures AllocateAll(cs, allocs).numPublicInputs == cs.numPublicInputs + CountPublic(allocs)
    ensures AllocateAll(cs, allocs).numPrivateInputs == cs.numPrivateInputs + |allocs| - CountPublic(allocs)
    ensures AllocateAll(cs, allocs).numConstraints == cs.numConstraints
    decreases |allocs|
  {
    if |allocs| > 0 {
      AllocationsKeepValid(Allocate(cs, allocs[0]), allocs[1..]);
      CountPublicBound(allocs[1..]);
    }
  }

  lemma {:induction false} CountPublicBound(allocs: seq<Allocation>)
    ensures CountPublic(allocs) <= |allocs|
    decreases |allocs|
  {
    if |allocs| > 0 {
      CountPublicBound(allocs[1..]);
    }
  }
}
