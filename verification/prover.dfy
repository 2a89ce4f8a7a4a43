// The witness side of the Groth16 prover (`prover.rs`): density maps,
// variable allocation, the evaluation of linear combinations against
// the assignments, `enforce`, and the identity guard of `create_proof`.
//
// Field arithmetic is that of the scalar backend `b`; a Rust index out
// of bounds is a panic.

module Prover {
  import opened Wrappers
  import opened Ints
  import Base = Montgomery
  import opened Constraints
  import LC = LinearCombinations
  import G1
  import Keys = Groth16Keys

  // ---------------------------------------------------------------------
  // Density maps

  /** Which variables a query uses. */
  datatype Density = Density(bits: seq<bool>)

  function NewDensity(): (d: Density)
    ensures |d.bits| == 0 && Count(d) == 0
  {
    Density([])
  }

  /** `count`: the number of set entries. */
  function Count(d: Density): (n: nat)
    ensures n <= |d.bits|
    decreases |d.bits|
  {
    if |d.bits| == 0 then 0
    else Count(Density(d.bits[..|d.bits| - 1])) + (if d.bits[|d.bits| - 1] then 1 else 0)
  }

  /** `add_element`: one clear entry at the end. */
  function AddElement(d: Density): (r: Density)
    ensures |r.bits| == |d.bits| + 1 && r.bits[..|d.bits|] == d.bits && !r.bits[|d.bits|]
    ensures Count(r) == Count(d)
  {
    var r := Density(d.bits + [false]);
    assert r.bits[..|d.bits|] == d.bits;
    r
  }

  /** `set` and `inc`: entry `i` becomes true; an index past the end
   *  panics. */
  function Set(d: Density, i: nat): (r: Run<Density>)
    ensures r.Panic? <==> i >= |d.bits|
    ensures r.Done? ==> |r.value.bits| == |d.bits| && r.value.bits[i]
    ensures r.Done? ==> forall j :: 0 <= j < |d.bits| && j != i ==> r.value.bits[j] == d.bits[j]
    ensures !r.Diverges?
  {
    if i < |d.bits| then Done(Density(d.bits[i := true])) else Panic("index out of bounds")
  }

  /** `get`: entry `i`; an index past the end panics. */
  function Get(d: Density, i: nat): (r: Run<bool>)
    ensures r.Panic? <==> i >= |d.bits|
    ensures r.Done? ==> r.value == d.bits[i]
    ensures !r.Diverges?
  {
    if i < |d.bits| then Done(d.bits[i]) else Panic("index out of bounds")
  }

  /** Setting a clear entry adds one to the count; setting a set entry
   *  changes nothing. */
  lemma {:induction false} CountSet(d: Density, i: nat)
    requires i < |d.bits|
    ensures Count(Density(d.bits[i := true])) == Count(d) + (if d.bits[i] then 0 else 1)
    decreases |d.bits|
  {
    var n := |d.bits| - 1;
    var d' := Density(d.bits[i := true]);
    assert d'.bits[..n] == (if i < n then d.bits[..n][i := true] else d.bits[..n]);
    if i < n {
      CountSet(Density(d.bits[..n]), i);
    }
  }

  // ---------------------------------------------------------------------
  // The proving system

  datatype ProvingSystem = ProvingSystem(
    aPrivateDensity: Density,
    bPublicDensity: Density,
    bPrivateDensity: Density,
    a: seq<int>, b: seq<int>, c: seq<int>,
    publicAssignment: seq<int>,
    privateAssignment: seq<int>)

  /** Each density map has one entry per variable of its kind. */
  predicate Valid(ps: ProvingSystem)
  {
    && |ps.aPrivateDensity.bits| == |ps.privateAssignment|
    && |ps.bPrivateDensity.bits| == |ps.privateAssignment|
    && |ps.bPublicDensity.bits| == |ps.publicAssignment|
  }

  /** The empty system `create_proof` starts from. */
  function Empty(): (ps: ProvingSystem)
    ensures Valid(ps)
  {
    ProvingSystem(NewDensity(), NewDensity(), NewDensity(), [], [], [], [], [])
  }

  /** `new_private`: the value is pushed, both private density maps grow
   *  by a clear entry, and the new index is returned. */
  function NewPrivate(ps: ProvingSystem, val: int): (r: (Variable, ProvingSystem))
    ensures r.1.privateAssignment == ps.privateAssignment + [val]
    ensures r.0 == Private(|r.1.privateAssignment| - 1)
    ensures r.1.aPrivateDensity == AddElement(ps.aPrivateDensity)
    ensures r.1.bPrivateDensity == AddElement(ps.bPrivateDensity)
    ensures r.1.bPublicDensity == ps.bPublicDensity && r.1.publicAssignment == ps.publicAssignment
    ensures r.1.a == ps.a && r.1.b == ps.b && r.1.c == ps.c
    ensures Valid(ps) ==> Valid(r.1)
  {
    var ps' := ps.(privateAssignment := ps.privateAssignment + [val],
                   aPrivateDensity := AddElement(ps.aPrivateDensity),
                   bPrivateDensity := AddElement(ps.bPrivateDensity));
    (Private(|ps'.privateAssignment| - 1), ps')
  }

  /** `new_public`: the value is pushed, only the public B density grows,
   *  and the new index is returned. */
  function NewPublic(ps: ProvingSystem, val: int): (r: (Variable, ProvingSystem))
    ensures r.1.publicAssignment == ps.publicAssignment + [val]
    ensures r.0 == Public(|r.1.publicAssignment| - 1)
    ensures r.1.bPublicDensity == AddElement(ps.bPublicDensity)
    ensures r.1.aPrivateDensity == ps.aPrivateDensity && r.1.bPrivateDensity == ps.bPrivateDensity
    ensures r.1.privateAssignment == ps.privateAssignment
    ensures r.1.a == ps.a && r.1.b == ps.b && r.1.c == ps.c
    ensures Valid(ps) ==> Valid(r.1)
  {
    var ps' := ps.(publicAssignment := ps.publicAssignment + [val],
                   bPublicDensity := AddElement(ps.bPublicDensity));
    (Public(|ps'.publicAssignment| - 1), ps')
  }

  // ---------------------------------------------------------------------
  // Evaluating a linear combination

  /** The loop state of `eval`: the accumulator and the two optional
   *  density maps it marks. */
  datatype EvalState = EvalState(acc: int, inputDensity: Option<Density>, auxDensity: Option<Density>)

  /** The value of a variable under the assignments (0 off the end). */
  function Assignment(inputs: seq<int>, aux: seq<int>): Variable -> int
  {
    (v: Variable) => match v
         case Public(i) => if i < |inputs| then inputs[i] else 0
         case Private(i) => if i < |aux| then aux[i] else 0
  }

  /** Reads a variable and marks it in the density map of its kind. */
  function Touch(v: Variable, st: EvalState, inputs: seq<int>, aux: seq<int>): Run<(int, EvalState)>
  {
    match v
    case Public(i) =>
      if i >= |inputs| then Panic("index out of bounds")
      else if st.inputDensity.None? then Done((inputs[i], st))
      else (match Set(st.inputDensity.value, i)
            case Done(d) => Done((inputs[i], st.(inputDensity := Some(d))))
            case _ => Panic("index out of bounds"))
    case Private(i) =>
      if i >= |aux| then Panic("index out of bounds")
      else if st.auxDensity.None? then Done((aux[i], st))
      else (match Set(st.auxDensity.value, i)
            case Done(d) => Done((aux[i], st.(auxDensity := Some(d))))
            case _ => Panic("index out of bounds"))
  }

  /** The loop of `eval` over the remaining terms: a zero coefficient is
   *  skipped; otherwise the variable is read (and marked), multiplied by
   *  the coefficient unless that is one, and added. */
  function EvalTerms(b: Base.Backend, terms: seq<LC.Term>, st: EvalState, inputs: seq<int>, aux: seq<int>): Run<EvalState>
    requires b.modulus > 1
    decreases |terms|
  {
    if |terms| == 0 then Done(st)
    else
      var (v, c) := terms[0];
      if c == 0 then EvalTerms(b, terms[1..], st, inputs, aux)
      else
        match Touch(v, st, inputs, aux)
        case Done((tmp, st')) =>
          var t := if c != 1 then Base.Mul(b, tmp, c) else tmp;
          EvalTerms(b, terms[1..], st'.(acc := Base.Add(b, st.acc, t)), inputs, aux)
        case _ => Panic("index out of bounds")
  }

  /** `eval`. */
  function Eval(b: Base.Backend, lc: LC.LinearCombination, inputDensity: Option<Density>, auxDensity: Option<Density>,
                inputs: seq<int>, aux: seq<int>): Run<EvalState>
    requires b.modulus > 1
  {
    EvalTerms(b, lc.terms, EvalState(0, inputDensity, auxDensity), inputs, aux)
  }

  /** A variable can be read, and marked where a map is given. */
  predicate Reachable(v: Variable, inputs: seq<int>, aux: seq<int>, inputDensity: Option<Density>, auxDensity: Option<Density>)
  {
    match v
    case Public(i) => i < |inputs| && (inputDensity.Some? ==> i < |inputDensity.value.bits|)
    case Private(i) => i < |aux| && (auxDensity.Some? ==> i < |auxDensity.value.bits|)
  }

  /** Every variable with a nonzero coefficient is reachable. */
  predicate InRange(terms: seq<LC.Term>, inputs: seq<int>, aux: seq<int>, inputDensity: Option<Density>, auxDensity: Option<Density>)
  {
    forall k :: 0 <= k < |terms| && terms[k].1 != 0 ==> Reachable(terms[k].0, inputs, aux, inputDensity, auxDensity)
  }

  /** Some term with a nonzero coefficient names `v`. */
  predicate Uses(terms: seq<LC.Term>, v: Variable)
  {
    exists k :: 0 <= k < |terms| && terms[k].1 != 0 && terms[k].0 == v
  }

  /** What a finished `eval` loop promises: the density maps keep their
   *  lengths, an entry is set iff it was set or a nonzero-coefficient
   *  term uses its variable, and the accumulator is congruent to the
   *  starting value plus the combination's value. */
  predicate EvalOutcome(b: Base.Backend, terms: seq<LC.Term>, st: EvalState, r: EvalState, inputs: seq<int>, aux: seq<int>)
    requires b.modulus > 1
  {
    && r.inputDensity.Some? == st.inputDensity.Some?
    && r.auxDensity.Some? == st.auxDensity.Some?
    && (st.inputDensity.Some? ==> Marks(terms, st.inputDensity.value, r.inputDensity.value, true))
    && (st.auxDensity.Some? ==> Marks(terms, st.auxDensity.value, r.auxDensity.value, false))
    && r.acc % b.modulus == (st.acc + LC.Value(terms, Assignment(inputs, aux))) % b.modulus
  }

  predicate Marks(terms: seq<LC.Term>, d: Density, d': Density, public: bool)
  {
    && |d'.bits| == |d.bits|
    && forall j :: 0 <= j < |d.bits| ==>
         (d'.bits[j] <==> d.bits[j] || Uses(terms, if public then Public(j) else Private(j)))
  }

  /** `eval` panics exactly when a nonzero-coefficient term names a
   *  variable that cannot be read or marked; otherwise it returns the
   *  outcome above. */
  predicate EvalSpec(b: Base.Backend, terms: seq<LC.Term>, st: EvalState, inputs: seq<int>, aux: seq<int>)
    requires b.modulus > 1
  {
    var r := EvalTerms(b, terms, st, inputs, aux);
    && (r.Panic? <==> !InRange(terms, inputs, aux, st.inputDensity, st.auxDensity))
    && (r.Done? ==> EvalOutcome(b, terms, st, r.value, inputs, aux))
    && !r.Diverges?
  }

  lemma {:induction false} EvalCorrect(b: Base.Backend, terms: seq<LC.Term>, st: EvalState, inputs: seq<int>, aux: seq<int>)
    requires b.modulus > 1
    ensures EvalTerms(b, terms, st, inputs, aux).Panic? <==> !InRange(terms, inputs, aux, st.inputDensity, st.auxDensity)
    ensures EvalTerms(b, terms, st, inputs, aux).Done? ==>
              EvalOutcome(b, terms, st, EvalTerms(b, terms, st, inputs, aux).value, inputs, aux)
    ensures !EvalTerms(b, terms, st, inputs, aux).Diverges?
    decreases |terms|, 2
  {
    if |terms| == 0 {
      assert LC.Value(terms, Assignment(inputs, aux)) == 0;
      ModCong(st.acc, st.acc, 0, 0, b.modulus);
    } else if terms[0].1 == 0 {
      EvalSkip(b, terms, st, inputs, aux);
    } else {
      EvalTouch(b, terms, st, inputs, aux);
    }
  }

  /** A zero coefficient is skipped. */
  lemma {:induction false} EvalSkip(b: Base.Backend, terms: seq<LC.Term>, st: EvalState, inputs: seq<int>, aux: seq<int>)
    requires b.modulus > 1 && |terms| > 0 && terms[0].1 == 0
    ensures EvalSpec(b, terms, st, inputs, aux)
    decreases |terms|, 1
  {
    var rest := terms[1..];
    var val := Assignment(inputs, aux);
    ValueFront(terms, val);
    EvalCorrect(b, rest, st, inputs, aux);
    InRangeFront(terms, inputs, aux, st.inputDensity, st.auxDensity);
    var r := EvalTerms(b, terms, st, inputs, aux);
    assert r == EvalTerms(b, rest, st, inputs, aux);
    if r.Done? {
      MarksFront(terms, st, r.value);
    }
  }

  /** A nonzero coefficient reads and marks its variable, then
   *  accumulates; an unreachable variable panics. */
  lemma {:induction false} EvalTouch(b: Base.Backend, terms: seq<LC.Term>, st: EvalState, inputs: seq<int>, aux: seq<int>)
    requires b.modulus > 1 && |terms| > 0 && terms[0].1 != 0
    ensures EvalSpec(b, terms, st, inputs, aux)
    decreases |terms|, 1
  {
    var v := terms[0].0;
    InRangeFront(terms, inputs, aux, st.inputDensity, st.auxDensity);
    TouchFacts(v, st, inputs, aux);
    var o := Touch(v, st, inputs, aux);
    if o.Done? {
      EvalTouchDone(b, terms, st, inputs, aux, o.value.0, o.value.1);
    } else {
      assert EvalTerms(b, terms, st, inputs, aux) == Panic("index out of bounds");
    }
  }

  /** The step after a successful read: the rest is evaluated from the
   *  marked maps and the grown accumulator. */
  lemma {:induction false} EvalTouchDone(b: Base.Backend, terms: seq<LC.Term>, st: EvalState, inputs: seq<int>, aux: seq<int>,
                                         tmp: int, st': EvalState)
    requires b.modulus > 1 && |terms| > 0 && terms[0].1 != 0
    requires Touch(terms[0].0, st, inputs, aux) == Done((tmp, st'))
    ensures EvalSpec(b, terms, st, inputs, aux)
    decreases |terms|, 0
  {
    var c := terms[0].1;
    var rest := terms[1..];
    InRangeFront(terms, inputs, aux, st.inputDensity, st.auxDensity);
    TouchFacts(terms[0].0, st, inputs, aux);
    var t := if c != 1 then Base.Mul(b, tmp, c) else tmp;
    var st2 := st'.(acc := Base.Add(b, st.acc, t));
    AccumulateFacts(b, tmp, c, st.acc);
    EvalCorrect(b, rest, st2, inputs, aux);
    var r := EvalTerms(b, terms, st, inputs, aux);
    assert r == EvalTerms(b, rest, st2, inputs, aux);
    if r.Done? {
      OutcomeStep(b, terms, st, st2, r.value, inputs, aux, tmp, t);
    }
  }

  /** One accumulation step adds c · tmp to the accumulator, modulo r. */
  lemma AccumulateFacts(b: Base.Backend, tmp: int, c: int, acc: int)
    requires b.modulus > 1
    ensures var t := if c != 1 then Base.Mul(b, tmp, c) else tmp;
      && t % b.modulus == (c * tmp) % b.modulus
      && Base.Add(b, acc, t) % b.modulus == (acc + t) % b.modulus
  {
    assert tmp * c == c * tmp;
  }

  /** The outcome of the rest, after one read-and-accumulate step, is the
   *  outcome of the whole list. */
  lemma OutcomeStep(b: Base.Backend, terms: seq<LC.Term>, st: EvalState, st2: EvalState, r: EvalState,
                    inputs: seq<int>, aux: seq<int>, tmp: int, t: int)
    requires b.modulus > 1 && |terms| > 0 && terms[0].1 != 0
    requires tmp == Assignment(inputs, aux)(terms[0].0)
    requires t % b.modulus == (terms[0].1 * tmp) % b.modulus
    requires st2.acc % b.modulus == (st.acc + t) % b.modulus
    requires st2.inputDensity.Some? == st.inputDensity.Some? && st2.auxDensity.Some? == st.auxDensity.Some?
    requires st.inputDensity.Some? ==> Marks([(terms[0].0, 1)], st.inputDensity.value, st2.inputDensity.value, true)
    requires st.auxDensity.Some? ==> Marks([(terms[0].0, 1)], st.auxDensity.value, st2.auxDensity.value, false)
    requires EvalOutcome(b, terms[1..], st2, r, inputs, aux)
    ensures EvalOutcome(b, terms, st, r, inputs, aux)
  {
    var val := Assignment(inputs, aux);
    ValueFront(terms, val);
    MarksStep(terms, st, st2, r);
    AccStep(b.modulus, st.acc, t, tmp, terms[0].1, st2.acc, LC.Value(terms[1..], val), r.acc);
  }

  /** The value of a combination, peeling the first term. */
  lemma {:induction false} ValueFront(terms: seq<LC.Term>, val: Variable -> int)
    requires |terms| > 0
    ensures LC.Value(terms, val) == terms[0].1 * val(terms[0].0) + LC.Value(terms[1..], val)
  {
    LC.ValueAppend([terms[0]], terms[1..], val);
    assert [terms[0]] + terms[1..] == terms;
    assert LC.Value([terms[0]], val) == LC.Value([], val) + terms[0].1 * val(terms[0].0);
  }

  lemma InRangeFront(terms: seq<LC.Term>, inputs: seq<int>, aux: seq<int>, id: Option<Density>, ad: Option<Density>)
    requires |terms| > 0
    ensures InRange(terms, inputs, aux, id, ad) <==>
              (terms[0].1 != 0 ==> Reachable(terms[0].0, inputs, aux, id, ad)) && InRange(terms[1..], inputs, aux, id, ad)
  {
    if (terms[0].1 != 0 ==> Reachable(terms[0].0, inputs, aux, id, ad)) && InRange(terms[1..], inputs, aux, id, ad) {
      forall k | 0 <= k < |terms| && terms[k].1 != 0
        ensures Reachable(terms[k].0, inputs, aux, id, ad)
      {
        if k > 0 {
          assert terms[k] == terms[1..][k - 1];
        }
      }
    }
  }

  /** What `Touch` does: it fails iff the variable is unreachable, and
   *  otherwise reads the assignment and marks exactly that entry. */
  lemma TouchFacts(v: Variable, st: EvalState, inputs: seq<int>, aux: seq<int>)
    ensures Touch(v, st, inputs, aux).Done? <==> Reachable(v, inputs, aux, st.inputDensity, st.auxDensity)
    ensures !Touch(v, st, inputs, aux).Diverges?
    ensures Touch(v, st, inputs, aux).Done? ==>
              var (tmp, st') := Touch(v, st, inputs, aux).value;
              && tmp == Assignment(inputs, aux)(v)
              && st'.acc == st.acc
              && st'.inputDensity.Some? == st.inputDensity.Some?
              && st'.auxDensity.Some? == st.auxDensity.Some?
              && (st.inputDensity.Some? ==> Marks([(v, 1)], st.inputDensity.value, st'.inputDensity.value, true))
              && (st.auxDensity.Some? ==> Marks([(v, 1)], st.auxDensity.value, st'.auxDensity.value, false))
  {
    var r := Touch(v, st, inputs, aux);
    if r.Done? {
      var (tmp, st') := r.value;
      if st.inputDensity.Some? {
        forall j | 0 <= j < |st.inputDensity.value.bits|
          ensures st'.inputDensity.value.bits[j] <==> st.inputDensity.value.bits[j] || Uses([(v, 1)], Public(j))
        {
          if v == Public(j) {
            assert [(v, 1)][0].0 == Public(j);
          }
        }
      }
      if st.auxDensity.Some? {
        forall j | 0 <= j < |st.auxDensity.value.bits|
          ensures st'.auxDensity.value.bits[j] <==> st.auxDensity.value.bits[j] || Uses([(v, 1)], Private(j))
        {
          if v == Private(j) {
            assert [(v, 1)][0].0 == Private(j);
          }
        }
      }
    }
  }

  /** Uses of a list are the uses of its first term and of the rest. */
  lemma UsesFront(terms: seq<LC.Term>, v: Variable)
    requires |terms| > 0
    ensures Uses(terms, v) <==> (terms[0].1 != 0 && terms[0].0 == v) || Uses(terms[1..], v)
  {
    if Uses(terms[1..], v) {
      var k :| 0 <= k < |terms[1..]| && terms[1..][k].1 != 0 && terms[1..][k].0 == v;
      assert terms[k + 1] == terms[1..][k];
    }
    if Uses(terms, v) && !(terms[0].1 != 0 && terms[0].0 == v) {
      var k :| 0 <= k < |terms| && terms[k].1 != 0 && terms[k].0 == v;
      assert terms[1..][k - 1] == terms[k];
    }
  }

  /** A skipped zero-coefficient term marks nothing. */
  lemma MarksFront(terms: seq<LC.Term>, st: EvalState, r: EvalState)
    requires |terms| > 0 && terms[0].1 == 0
    requires r.inputDensity.Some? == st.inputDensity.Some? && r.auxDensity.Some? == st.auxDensity.Some?
    requires st.inputDensity.Some? ==> Marks(terms[1..], st.inputDensity.value, r.inputDensity.value, true)
    requires st.auxDensity.Some? ==> Marks(terms[1..], st.auxDensity.value, r.auxDensity.value, false)
    ensures st.inputDensity.Some? ==> Marks(terms, st.inputDensity.value, r.inputDensity.value, true)
    ensures st.auxDensity.Some? ==> Marks(terms, st.auxDensity.value, r.auxDensity.value, false)
  {
    forall v | true
      ensures Uses(terms, v) <==> Uses(terms[1..], v)
    {
      UsesFront(terms, v);
    }
  }

  /** Marking the first term's variable, then the rest, marks the uses of
   *  the whole list. */
  lemma MarksStep(terms: seq<LC.Term>, st: EvalState, st2: EvalState, r: EvalState)
    requires |terms| > 0 && terms[0].1 != 0
    requires st2.inputDensity.Some? == st.inputDensity.Some? && st2.auxDensity.Some? == st.auxDensity.Some?
    requires r.inputDensity.Some? == st.inputDensity.Some? && r.auxDensity.Some? == st.auxDensity.Some?
    requires st.inputDensity.Some? ==> Marks([(terms[0].0, 1)], st.inputDensity.value, st2.inputDensity.value, true)
    requires st.auxDensity.Some? ==> Marks([(terms[0].0, 1)], st.auxDensity.value, st2.auxDensity.value, false)
    requires st.inputDensity.Some? ==> Marks(terms[1..], st2.inputDensity.value, r.inputDensity.value, true)
    requires st.auxDensity.Some? ==> Marks(terms[1..], st2.auxDensity.value, r.auxDensity.value, false)
    ensures st.inputDensity.Some? ==> Marks(terms, st.inputDensity.value, r.inputDensity.value, true)
    ensures st.auxDensity.Some? ==> Marks(terms, st.auxDensity.value, r.auxDensity.value, false)
  {
    forall v | true
      ensures Uses(terms, v) <==> Uses([(terms[0].0, 1)], v) || Uses(terms[1..], v)
    {
      UsesFront(terms, v);
      UsesFront([(terms[0].0, 1)], v);
      assert !Uses([(terms[0].0, 1)][1..], v);
    }
  }

  /** One accumulation step keeps the accumulator congruent to the
   *  running sum. */
  lemma AccStep(m: int, acc: int, t: int, tmp: int, c: int, acc2: int, rest: int, final: int)
    requires m > 1
    requires t % m == (c * tmp) % m
    requires acc2 % m == (acc + t) % m
    requires final % m == (acc2 + rest) % m
    ensures final % m == (acc + (c * tmp + rest)) % m
  {
    ModCong(acc2, acc + t, rest, rest, m);
    ModCong(acc, acc, t, c * tmp, m);
    ModCong(acc + t, acc + c * tmp, rest, rest, m);
  }

  // ---------------------------------------------------------------------
  // enforce

  /** `enforce`: A is evaluated marking only the private A density, B
   *  marking both B densities, C marking none; one value is pushed to
   *  each of a, b and c. */
  function Enforce(b: Base.Backend, ps: ProvingSystem, la: LC.LinearCombination, lb: LC.LinearCombination,
                   lc: LC.LinearCombination): (r: Run<ProvingSystem>)
    requires b.modulus > 1
    ensures r.Done? ==>
              && |r.value.a| == |ps.a| + 1 && r.value.a[..|ps.a|] == ps.a
              && |r.value.b| == |ps.b| + 1 && r.value.b[..|ps.b|] == ps.b
              && |r.value.c| == |ps.c| + 1 && r.value.c[..|ps.c|] == ps.c
              && r.value.publicAssignment == ps.publicAssignment
              && r.value.privateAssignment == ps.privateAssignment
  {
    var inputs, aux := ps.publicAssignment, ps.privateAssignment;
    match Eval(b, la, None, Some(ps.aPrivateDensity), inputs, aux)
    case Done(ea) =>
      (match Eval(b, lb, Some(ps.bPublicDensity), Some(ps.bPrivateDensity), inputs, aux)
       case Done(eb) =>
         (match Eval(b, lc, None, None, inputs, aux)
          case Done(ec) =>
            EvalCorrect(b, la.terms, EvalState(0, None, Some(ps.aPrivateDensity)), inputs, aux);
            EvalCorrect(b, lb.terms, EvalState(0, Some(ps.bPublicDensity), Some(ps.bPrivateDensity)), inputs, aux);
            var ps' := ps.(a := ps.a + [ea.acc],
                           aPrivateDensity := ea.auxDensity.value,
                           b := ps.b + [eb.acc],
                           bPublicDensity := eb.inputDensity.value,
                           bPrivateDensity := eb.auxDensity.value,
                           c := ps.c + [ec.acc]);
            assert ps'.a[..|ps.a|] == ps.a && ps'.b[..|ps.b|] == ps.b && ps'.c[..|ps.c|] == ps.c;
            Done(ps')
          case Panic(msg) => Panic(msg)
          case Diverges => Diverges)
       case Panic(msg) => Panic(msg)
       case Diverges => Diverges)
    case Panic(msg) => Panic(msg)
    case Diverges => Diverges
  }

  /** On a valid system `enforce` panics exactly when one of the three
   *  combinations uses a variable that has no value; otherwise it pushes
   *  the three values, marks exactly the used variables of A (private)
   *  and B (both kinds), and stays valid. */
  lemma EnforceCorrect(b: Base.Backend, ps: ProvingSystem, la: LC.LinearCombination, lb: LC.LinearCombination,
                       lc: LC.LinearCombination)
    requires b.modulus > 1 && Valid(ps)
    ensures Enforce(b, ps, la, lb, lc).Panic? <==>
              !(InRange(la.terms, ps.publicAssignment, ps.privateAssignment, None, None)
                && InRange(lb.terms, ps.publicAssignment, ps.privateAssignment, None, None)
                && InRange(lc.terms, ps.publicAssignment, ps.privateAssignment, None, None))
    ensures !Enforce(b, ps, la, lb, lc).Diverges?
    ensures Enforce(b, ps, la, lb, lc).Done? ==>
              var ps' := Enforce(b, ps, la, lb, lc).value;
              var val := Assignment(ps.publicAssignment, ps.privateAssignment);
              && Valid(ps')
              && ps'.a[|ps.a|] % b.modulus == LC.Value(la.terms, val) % b.modulus
              && ps'.b[|ps.b|] % b.modulus == LC.Value(lb.terms, val) % b.modulus
              && ps'.c[|ps.c|] % b.modulus == LC.Value(lc.terms, val) % b.modulus
              && Marks(la.terms, ps.aPrivateDensity, ps'.aPrivateDensity, false)
              && Marks(lb.terms, ps.bPublicDensity, ps'.bPublicDensity, true)
              && Marks(lb.terms, ps.bPrivateDensity, ps'.bPrivateDensity, false)
  {
    var inputs, aux := ps.publicAssignment, ps.privateAssignment;
    var sa := EvalState(0, None, Some(ps.aPrivateDensity));
    var sb := EvalState(0, Some(ps.bPublicDensity), Some(ps.bPrivateDensity));
    var sc := EvalState(0, None, None);
    EvalCorrect(b, la.terms, sa, inputs, aux);
    EvalCorrect(b, lb.terms, sb, inputs, aux);
    EvalCorrect(b, lc.terms, sc, inputs, aux);
    InRangeWithDensity(la.terms, inputs, aux, None, Some(ps.aPrivateDensity));
    InRangeWithDensity(lb.terms, inputs, aux, Some(ps.bPublicDensity), Some(ps.bPrivateDensity));
  }

  /** With density maps as long as the assignments, reachability is just
   *  having a value. */
  lemma InRangeWithDensity(terms: seq<LC.Term>, inputs: seq<int>, aux: seq<int>, id: Option<Density>, ad: Option<Density>)
    requires id.Some? ==> |id.value.bits| == |inputs|
    requires ad.Some? ==> |ad.value.bits| == |aux|
    ensures InRange(terms, inputs, aux, id, ad) <==> InRange(terms, inputs, aux, None, None)
  {
  }

  // ---------------------------------------------------------------------
  // create_proof

  /** The guard at the top of `create_proof`: a verification key whose
   *  δ in G1 or in G2 is the identity is rejected. */
  function CreateProofGuard(vk: Keys.VerificationKey): (r: Result<()>)
    ensures r.Err? <==> G1.AffineIsIdentity(vk.deltaG1) || vk.deltaG2.infinity
  {
    if G1.AffineIsIdentity(vk.deltaG1) || vk.deltaG2.infinity then Err("Invalid verification key, ATTACK")
    else Ok(())
  }
}
