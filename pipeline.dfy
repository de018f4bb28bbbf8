/**
 * `main` (main.rs:30-106) without its cryptography: parameter generation
 * synthesizes the unassigned circuit, the witness is built from the demo's
 * byte arrays, and proving synthesizes the assigned circuit.
 *
 * `generate_random_parameters`, `prepare_verifying_key`, `create_random_proof`
 * and `verify_proof` are calls into the proving backend; what stands for them
 * here is the constraint system each one would be handed. Note that the
 * circuit declares its public inputs as redactor then redacted, while
 * main.rs:104 hands `verify_proof` the redacted array alone.
 */
module Pipeline {
  import opened Base
  import opened Field
  import opened Redaction
  import opened Witnesses
  import opened Circuit

  /** What the constraint systems of parameter generation and of proving end up holding. */
  datatype Transcript = Transcript(
    keyShape: seq<Constraint>,
    proofShape: seq<Constraint>,
    publicInputs: seq<Option<Vector>>,
    satisfied: bool)

  /**
   * Runs the pipeline of `main` on the byte arrays `documentBytes` and
   * `redactorBytes`. Synthesis succeeds in both runs, so the circuit never
   * makes an `unwrap` (main.rs:40, 95) fail; within the modelled part the only
   * failure is a panic inside `redact`. The backend calls themselves and the
   * assert at main.rs:104 are outside the model.
   */
  method ProveRedaction(p: Modulus, documentBytes: seq<u8>, redactorBytes: seq<u8>) returns (r: Result<Transcript, Panic>)
    requires |documentBytes| == LEN && |redactorBytes| == LEN
    ensures r.Ok? <==> Redacted(documentBytes, redactorBytes).Ok?
    ensures r.Err? ==> r.error == Redacted(documentBytes, redactorBytes).error
    ensures r.Ok? ==> r.value.keyShape == r.value.proofShape == [Constraint(Aux(0), Input(0), Input(1))]
    ensures r.Ok? ==> r.value.publicInputs ==
                        [Some(Encoded(p, redactorBytes)), Some(Encoded(p, Redacted(documentBytes, redactorBytes).value))]
    ensures r.Ok? ==> r.value.satisfied
  {
    var keyAssembly := new ConstraintSystem(p, ParameterGeneration);
    var generated := Synthesize(RedactDemo(None, None, None), keyAssembly);
    assert generated.Ok?;

    var w :- BuildWitness(p, documentBytes, redactorBytes);

    var prover := new ConstraintSystem(p, Proving);
    var proved := Synthesize(RedactDemo(Some(w.document), Some(w.redactor), Some(w.redacted)), prover);
    assert proved.Ok?;

    var satisfied := prover.Satisfied();
    r := Ok(Transcript(keyAssembly.constraints, prover.constraints, prover.inputs, satisfied));
  }

  /** The demo run: `[20; LEN]` redacted by `[1, 0]` (main.rs:49, 60). */
  method DemoRun(p: Modulus) returns (r: Result<Transcript, Panic>)
    ensures r.Ok? && r.value.satisfied
    ensures r.Ok? ==> r.value.publicInputs == [Some([0, 0]), Some([0, 0])]
  {
    RedactFromSucceeds([20, 20], [1, 0], 1);
    DocExampleAsWritten();
    EncodedValues(p, [1, 0]);
    EncodedValues(p, [0, 0]);
    assert Encoded(p, [1, 0]) == [0, 0];
    assert Encoded(p, [0, 0]) == [0, 0];
    r := ProveRedaction(p, [20, 20], [1, 0]);
  }
}
