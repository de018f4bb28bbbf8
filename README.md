# Redaction circuit: a Dafny model

The program proves in zero knowledge that a public `redacted` array is the
pointwise product of a private `document` array and a public `redactor`
(mask) array. All arrays have length `LEN = 2`. This project models its arithmetic
core, which all lives in `main.rs`:

- `convert_u8`: the byte-to-field encoding.
- `redact`: the byte-level pointwise product, computed outside the circuit.
- The witness-building loops of `main`.
- The circuit `RedactDemo` and its `synthesize`, run against an abstract
  constraint system.

Modules:

- `Base`: `u8`, `LEN`, `NULL` (the source's `null` byte), and `Option`/`Result`.
- `Field`: the scalar field as integers modulo an abstract modulus
  `p > 255`, plus `convert_u8` (`ConvertU8`). No proof uses the fact that
  `p` is prime.
- `Redaction`: `redact` as a method over a local array (`Redact`).
  - It is proved equal to the function `Redacted`. `Redacted` is
    `RedactFrom(.., 1)`, the loop started at index 1 as written.
  - `RedactAll` is `RedactFrom(.., 0)`, the product the doc comment describes.
  - An index past the end of a slice panics, and so does a product above 255,
    as in a debug build. Both are modelled as `Err(Panic)` results.
- `Witnesses`: the three field arrays of `main`.
  - Each array starts at `convert_u8(null)`, and its entries `1..LEN` are
    overwritten (`EncodeArray`, `BuildWitness`).
  - The main result: the finished witness satisfies
    `redacted[i] == document[i] * redactor[i] (mod p)` at every index.
- `Circuit`: the constraint system is a class with three sequences: private
  variables, public variables in order, and `(a, b, c)` triples meaning
  `a * b = c`.
  - Its `assembly` says which backend drives it. Parameter generation never
    calls a value closure; proving calls each one and propagates
    `AssignmentMissing`.
  - Each variable carries a whole length-`LEN` vector, and a constraint holds
    when it holds elementwise mod `p`. bellman's `alloc` and `alloc_input`
    take a closure returning one scalar, so the closures at main.rs:134, 138
    and 142, which return `[S; LEN]`, do not type-check as written; the
    vector-valued variable is this model's reading of them.
  - The circuit's three `Option` fields are kept as they are.
    `Unassigned()` and `Assigned()` name the two modes the program uses.
- `Pipeline`: `main` without its cryptography.
  - Synthesis for parameter generation, then the witness, then synthesis for
    proving.
  - Both runs record the same constraint, and the proving run's constraints
    are all satisfied.

The model follows the code in these respects:

- `redact` performs no length check: longer slices are accepted and shorter
  ones panic on indexing.
- `synthesize` allocates one vector-valued variable per wire and emits a
  single constraint.
- Index 0 is neither encoded nor computed. It is zero in all three field
  arrays.

## Model

| member | source | states |
|---|---|---|
| Field.ConvertU8 | main.rs:110-112 | the encoding of a byte is a canonical field element, below the modulus |
| Field.ConvertU8Exact | main.rs:110-112 | every byte is encoded as its own value: no reduction happens because `p > 255` |
| Field.ConvertU8Injective | main.rs:110-112 | two bytes have the same encoding if and only if they are equal |
| Field.ConvertU8Null | main.rs:17 | `convert_u8(null)` is the field's zero |
| Field.ConvertU8Mul | main.rs:110-112 | for a byte product that does not overflow, the encoding of the product is the field product of the encodings |
| Redaction.FirstPanicNone | main.rs:117-119 | no iteration from `from` on panics exactly when none of the iterations `from..LEN` indexes out of range or overflows |
| Redaction.FirstPanicIsFirst | main.rs:117-119 | a reported panic is the panic of some iteration, and every earlier iteration completed |
| Redaction.RedactFromSucceeds | main.rs:115-121 | `redact` returns exactly when both slices have at least `LEN` elements and every product it computes fits in a `u8` |
| Redaction.RedactFromValues | main.rs:116-119 | a returned array has length `LEN`, holds `preimage[i]*mask[i]` at every visited index and 0 at every index below the loop's start |
| Redaction.RedactFromPanics | main.rs:117-119 | a panic is that of the first iteration that indexes out of range or overflows |
| Redaction.RedactedSkipsFirst | main.rs:116-117 | as written, index 0 of the result is 0 whatever the inputs |
| Redaction.DocExampleAsWritten | main.rs:114-120 | on `[20,20]` and `[1,0]`, the code returns `[0,0]` and not the documented `[20,0]` |
| Redaction.DocExampleCorrected | main.rs:114 | a loop over `0..LEN` returns the documented `[20,0]` on `[20,20]` and `[1,0]` |
| Redaction.RedactAllProducts | main.rs:114 | the corrected product holds `preimage[i]*mask[i]` at every index, 0 included |
| Redaction.RedactAllAgreesFromOne | main.rs:115-121 | when the corrected product succeeds, so does the code, and the two agree at every index but 0 |
| Redaction.Redact | main.rs:115-121 | the loop over the local array `internal` returns exactly `Redacted`: the first panic, or the products at `1..LEN` and 0 at index 0 |
| Witnesses.Encoded | main.rs:53-56 | a field array built from bytes has length `LEN` and canonical elements |
| Witnesses.EncodedValues | main.rs:53-56 | entry 0 of a built field array is zero, and entry `i >= 1` is the byte `raw[i]` |
| Witnesses.EncodedIgnoresFirst | main.rs:54-55 | byte 0 of a raw array has no effect on its field array |
| Witnesses.EncodedWitnessConsistent | main.rs:69-76 | the three arrays built from the raw bytes and `redact`'s output satisfy `redacted[i] == document[i]*redactor[i] mod p` at every index |
| Witnesses.CorrectedRedactSameWitness | main.rs:73-76 | replacing `redact` with the corrected product leaves the redacted field array unchanged |
| Witnesses.EncodeArray | main.rs:63-66 | the fill-then-overwrite loop yields `convert_u8(null)` at 0 and `convert_u8(raw[i])` after |
| Witnesses.BuildWitness | main.rs:49-76 | the witness is built exactly when `redact` does not panic; it holds the encoded arrays and satisfies the redaction relation at every index |
| Circuit.ValueOf | main.rs:134 | a value closure yields `AssignmentMissing` exactly when its field is absent, and otherwise the field's value |
| Circuit.ConstraintSystem.Alloc | main.rs:134 | appends one private variable, without its value in parameter generation and with it in proving, or returns the closure's error and changes nothing |
| Circuit.ConstraintSystem.AllocInput | main.rs:138-142 | appends one public variable after the existing ones under the same discipline |
| Circuit.ConstraintSystem.Enforce | main.rs:145-150 | appends the triple `(a, b, c)` and changes nothing else |
| Circuit.Synthesize | main.rs:130-152 | parameter generation always succeeds. Proving succeeds exactly for an assigned circuit, and otherwise fails with `AssignmentMissing` after the allocations that succeeded. On success exactly one private variable, then redactor and redacted as public variables, then one constraint `document*redactor = redacted` are added. When proving, that constraint holds if and only if `redacted[i] == document[i]*redactor[i] mod p` at every index |
| Pipeline.ProveRedaction | main.rs:30-106 | synthesis succeeds in both runs, so the circuit never makes an `unwrap` fail; within the modelled part the only failure is a panic inside `redact` (the backend calls and the assert at main.rs:104 are outside the model). Parameter generation and proving record the same single constraint. The public inputs are `[redactor, redacted]` in that order, and the proving constraint system is satisfied |
| Pipeline.DemoRun | main.rs:49-70 | on the demo arrays `[20,20]` and `[1,0]` the pipeline succeeds with public inputs `[0,0]` and `[0,0]`, and the witness is satisfied |

## Left out

- Groth16 parameter generation, verifying-key preparation, proof creation and
  `verify_proof` (main.rs:40, 43, 95, 104): these are calls into the proving
  backend, whose cryptographic guarantees cannot be stated from this program.
  `ProveRedaction` stops at the constraint systems those calls would be handed.
- Because `verify_proof` is left out, nothing states the public-input order a
  verifier must use. main.rs:104 passes only `redacted`, although the circuit
  declares redactor then redacted. This is recorded in a comment only.
- The BLS12-381 scalar field: replaced by integers modulo an abstract `p > 255`.
- The backend's own bookkeeping, such as the constant-one public input that
  bellman allocates before synthesis. `Synthesize` is stated relative to
  whatever the constraint system already holds.
- Variable and constraint names (the `|| "document"` annotation closures):
  they are used only for debugging.
- `OsRng` randomness, `println!` output, printing the proof elements, and the
  unused `Duration`/`Instant` imports: these are I/O only.
- The initial `[0; LEN]` value of `final_prior` (main.rs:69): it is
  overwritten before it is read.
- Release-build wrap-around of the `u8` product in `redact`: the model
  follows the debug build, where an overflow panics.

## Findings

| source | as written | input that shows it | evidently intended | confidence | as-written member | corrected member |
|---|---|---|---|---|---|---|
| main.rs:114-121 | the loop `for i in 1..LEN` never writes index 0, so `redact` returns `[0,0]` | preimage `[20,20]`, mask `[1,0]` | `[20,0]`, the product at every index, as the doc comment at main.rs:114 states | high; not executed | Redaction.DocExampleAsWritten | Redaction.RedactAllProducts |

The witness loops of `main` also start at index 1 and never read index 0 of
`redact`'s output. So using the corrected product `RedactAll` would not
change the witness (`CorrectedRedactSameWitness`). The model therefore keeps
`main`'s witness construction as written. Bytes 0 of the document and of the
mask never reach the circuit at all (`EncodedIgnoresFirst`).
