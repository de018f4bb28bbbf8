/**
 * The circuit `RedactDemo` and its `synthesize` (main.rs:21-25, 125-153),
 * against an abstract constraint system in the manner of bellman's
 * `ConstraintSystem`: private and public variables allocated from value
 * closures, and rank-1 constraints `a * b = c` between variables. Following
 * the source, each variable carries a whole length-`LEN` vector, and a
 * constraint holds when it holds at every index.
 */
module Circuit {
  import opened Base
  import opened Field

  datatype SynthesisError = AssignmentMissing

  /**
   * Which backend drives synthesis. Parameter generation only records the
   * circuit's shape and never calls a value closure; proving calls every
   * closure and stops at the first error.
   */
  datatype Assembly = ParameterGeneration | Proving

  datatype Variable = Aux(index: nat) | Input(index: nat)

  /** The constraint `a * b = c`, each side the single variable given. */
  datatype Constraint = Constraint(a: Variable, b: Variable, c: Variable)

  /** The circuit's three optional wires: `document` is private, the other two public. */
  datatype RedactDemo = RedactDemo(document: Option<Vector>, redactor: Option<Vector>, redacted: Option<Vector>)
  {
    /** The instance used for parameter generation (main.rs:35-39). */
    predicate Unassigned()
    {
      document.None? && redactor.None? && redacted.None?
    }

    /** The instance used for proving (main.rs:86-90). */
    predicate Assigned()
    {
      document.Some? && redactor.Some? && redacted.Some?
    }

    /** What the type `Option<[S; LEN]>` guarantees of a present value. */
    predicate WellTyped(p: Modulus)
    {
      (document.Some? ==> IsVector(p, document.value)) &&
      (redactor.Some? ==> IsVector(p, redactor.value)) &&
      (redacted.Some? ==> IsVector(p, redacted.value))
    }
  }

  /** The value closure `|| value.ok_or(SynthesisError::AssignmentMissing)` (main.rs:134, 138, 142). */
  function ValueOf(v: Option<Vector>): (r: Result<Vector, SynthesisError>)
    ensures r == Err(AssignmentMissing) <==> v.None?
    ensures r.Ok? ==> v == Some(r.value)
  {
    match v
    case Some(x) => Ok(x)
    case None => Err(AssignmentMissing)
  }

  class ConstraintSystem {
    const p: Modulus
    const assembly: Assembly
    /** Private variables in allocation order, with their values when proving. */
    var aux: seq<Option<Vector>>
    /** Public variables in allocation order: the order a verifier supplies them in. */
    var inputs: seq<Option<Vector>>
    var constraints: seq<Constraint>

    constructor (p: Modulus, assembly: Assembly)
      ensures this.p == p && this.assembly == assembly
      ensures aux == [] && inputs == [] && constraints == []
      ensures Valid()
    {
      this.p := p;
      this.assembly := assembly;
      aux, inputs, constraints := [], [], [];
    }

    /** What is recorded for a variable whose value closure would give `v`. */
    function Record(v: Option<Vector>): Option<Vector>
    {
      if assembly == Proving then v else None
    }

    /** A stored entry is well formed: a field vector when proving, absent in parameter generation. */
    predicate WellFormedEntry(v: Option<Vector>)
    {
      if assembly == Proving then v.Some? && IsVector(p, v.value) else v.None?
    }

    predicate Allocated(x: Variable)
      reads this
    {
      match x
      case Aux(k) => k < |aux|
      case Input(k) => k < |inputs|
    }

    ghost predicate Valid()
      reads this
    {
      (forall k :: 0 <= k < |aux| ==> WellFormedEntry(aux[k])) &&
      (forall k :: 0 <= k < |inputs| ==> WellFormedEntry(inputs[k])) &&
      (forall k :: 0 <= k < |constraints| ==>
         Allocated(constraints[k].a) && Allocated(constraints[k].b) && Allocated(constraints[k].c))
    }

    function Value(x: Variable): Option<Vector>
      reads this
      requires Allocated(x)
    {
      match x
      case Aux(k) => aux[k]
      case Input(k) => inputs[k]
    }

    /** The constraint holds elementwise in the field. */
    predicate Holds(c: Constraint)
      reads this
      requires Allocated(c.a) && Allocated(c.b) && Allocated(c.c)
    {
      Value(c.a).Some? && Value(c.b).Some? && Value(c.c).Some? &&
      PointwiseProduct(p, Value(c.a).value, Value(c.b).value, Value(c.c).value)
    }

    /** Every constraint recorded so far holds. */
    predicate Satisfied()
      reads this
      requires Valid()
    {
      forall k :: 0 <= k < |constraints| ==> Holds(constraints[k])
    }

    /** `alloc`: a new private variable. */
    method Alloc(value: () -> Result<Vector, SynthesisError>) returns (r: Result<Variable, SynthesisError>)
      requires Valid()
      requires assembly == Proving && value().Ok? ==> IsVector(p, value().value)
      modifies this
      ensures Valid()
      ensures inputs == old(inputs) && constraints == old(constraints)
      ensures assembly == ParameterGeneration ==> r == Ok(Aux(|old(aux)|)) && aux == old(aux) + [None]
      ensures assembly == Proving && value().Ok? ==>
                r == Ok(Aux(|old(aux)|)) && aux == old(aux) + [Some(value().value)]
      ensures assembly == Proving && value().Err? ==> r == Err(value().error) && aux == old(aux)
    {
      if assembly == Proving {
        var v := value();
        if v.Err? {
          return Err(v.error);
        }
        aux := aux + [Some(v.value)];
      } else {
        aux := aux + [None];
      }
      r := Ok(Aux(|aux| - 1));
    }

    /** `alloc_input`: a new public variable, after those already allocated. */
    method AllocInput(value: () -> Result<Vector, SynthesisError>) returns (r: Result<Variable, SynthesisError>)
      requires Valid()
      requires assembly == Proving && value().Ok? ==> IsVector(p, value().value)
      modifies this
      ensures Valid()
      ensures aux == old(aux) && constraints == old(constraints)
      ensures assembly == ParameterGeneration ==> r == Ok(Input(|old(inputs)|)) && inputs == old(inputs) + [None]
      ensures assembly == Proving && value().Ok? ==>
                r == Ok(Input(|old(inputs)|)) && inputs == old(inputs) + [Some(value().value)]
      ensures assembly == Proving && value().Err? ==> r == Err(value().error) && inputs == old(inputs)
    {
      if assembly == Proving {
        var v := value();
        if v.Err? {
          return Err(v.error);
        }
        inputs := inputs + [Some(v.value)];
      } else {
        inputs := inputs + [None];
      }
      r := Ok(Input(|inputs| - 1));
    }

    /** `enforce`: records the constraint `a * b = c`. */
    method Enforce(a: Variable, b: Variable, c: Variable)
      requires Valid()
      requires Allocated(a) && Allocated(b) && Allocated(c)
      modifies this
      ensures Valid()
      ensures aux == old(aux) && inputs == old(inputs)
      ensures constraints == old(constraints) + [Constraint(a, b, c)]
    {
      constraints := constraints + [Constraint(a, b, c)];
    }
  }

  /**
   * `synthesize` (main.rs:130-152): one private variable, two public ones
   * (redactor, then redacted) and one constraint `document * redactor = redacted`.
   * The first failed allocation is returned at once, as `?` does.
   */
  method Synthesize(circuit: RedactDemo, cs: ConstraintSystem) returns (r: Result<(), SynthesisError>)
    requires cs.Valid() && circuit.WellTyped(cs.p)
    modifies cs
    ensures cs.Valid()
    ensures cs.assembly == ParameterGeneration ==> r.Ok?
    ensures cs.assembly == Proving ==> (r.Ok? <==> circuit.Assigned())
    ensures r.Err? ==> r.error == AssignmentMissing
    ensures r.Ok? ==> cs.aux == old(cs.aux) + [cs.Record(circuit.document)]
    ensures r.Ok? ==> cs.inputs == old(cs.inputs) + [cs.Record(circuit.redactor), cs.Record(circuit.redacted)]
    ensures r.Ok? ==> cs.constraints == old(cs.constraints) +
                        [Constraint(Aux(|old(cs.aux)|), Input(|old(cs.inputs)|), Input(|old(cs.inputs)| + 1))]
    ensures r.Err? ==> cs.constraints == old(cs.constraints)
    ensures r.Err? ==> cs.aux == old(cs.aux) + (if circuit.document.Some? then [circuit.document] else [])
    ensures r.Err? ==> cs.inputs == old(cs.inputs) +
                         (if circuit.document.Some? && circuit.redactor.Some? then [circuit.redactor] else [])
    ensures r.Ok? && cs.assembly == Proving ==>
              (cs.Satisfied() <==>
                 old(cs.Satisfied()) &&
                 PointwiseProduct(cs.p, circuit.document.value, circuit.redactor.value, circuit.redacted.value))
  {
    var documentValue := circuit.document;
    var document :- cs.Alloc(() => ValueOf(documentValue));

    var redactorValue := circuit.redactor;
    var redactor :- cs.AllocInput(() => ValueOf(redactorValue));

    var redactedValue := circuit.redacted;
    var redacted :- cs.AllocInput(() => ValueOf(redactedValue));

    cs.Enforce(document, redactor, redacted);
    r := Ok(());

    var n := |old(cs.constraints)|;
    forall k | 0 <= k < n
      ensures cs.Holds(cs.constraints[k]) == old(cs.Holds(cs.constraints[k]))
    {
      var c := cs.constraints[k];
      assert cs.Value(c.a) == old(cs.Value(c.a));
      assert cs.Value(c.b) == old(cs.Value(c.b));
      assert cs.Value(c.c) == old(cs.Value(c.c));
    }
    if cs.assembly == Proving {
      assert cs.constraints[n] == Constraint(document, redactor, redacted);
      assert cs.Value(document) == circuit.document;
      assert cs.Value(redactor) == circuit.redactor;
      assert cs.Value(redacted) == circuit.redacted;
    }
  }
}
