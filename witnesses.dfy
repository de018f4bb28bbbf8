/**
 * Witness construction in `main` (main.rs:49-76): three field arrays, each
 * filled with `convert_u8(null)` and then overwritten at indices `1..LEN`
 * from raw byte arrays; the redacted array comes from `redact`, computed
 * outside any circuit.
 */
module Witnesses {
  import opened Base
  import opened Field
  import opened Redaction

  /** The three field arrays handed to the circuit. */
  datatype Witness = Witness(document: Vector, redactor: Vector, redacted: Vector)
  {
    /** The relation the circuit enforces: `redacted[i] == document[i] * redactor[i]` at every index. */
    predicate Consistent(p: Modulus)
    {
      IsVector(p, document) && IsVector(p, redactor) && IsVector(p, redacted) &&
      PointwiseProduct(p, document, redactor, redacted)
    }
  }

  /** Entry `i` of a field array built from `raw`: index 0 is never overwritten. */
  function EncodedAt(p: Modulus, raw: seq<u8>, i: nat): nat
    requires i < |raw|
  {
    if i < 1 then ConvertU8(p, NULL) else ConvertU8(p, raw[i])
  }

  /** A field array as `main` builds it from `raw`: `convert_u8(null)` at 0, `convert_u8(raw[i])` after. */
  function Encoded(p: Modulus, raw: seq<u8>): (v: Vector)
    requires |raw| == LEN
    ensures IsVector(p, v)
  {
    seq(LEN, i requires 0 <= i < LEN => EncodedAt(p, raw, i))
  }

  /** Entry 0 of an encoded array is the field zero, and every other entry is its byte. */
  lemma EncodedValues(p: Modulus, raw: seq<u8>)
    requires |raw| == LEN
    ensures Encoded(p, raw)[0] == 0
    ensures forall i :: 1 <= i < LEN ==> Encoded(p, raw)[i] == raw[i] as nat
  {
    ConvertU8Null(p);
    forall i | 1 <= i < LEN
      ensures Encoded(p, raw)[i] == raw[i] as nat
    {
      ConvertU8Exact(p, raw[i]);
    }
  }

  /** Byte 0 of a raw array never reaches its field array. */
  lemma EncodedIgnoresFirst(p: Modulus, raw: seq<u8>, raw': seq<u8>)
    requires |raw| == LEN && |raw'| == LEN
    requires raw[1..] == raw'[1..]
    ensures Encoded(p, raw) == Encoded(p, raw')
  {
    forall i | 1 <= i < LEN
      ensures raw[i] == raw'[i]
    {
      assert raw[i] == raw[1..][i - 1];
    }
  }

  /**
   * The finished witness satisfies the redaction relation at every index: at 0
   * all three entries are zero; elsewhere the byte product did not overflow,
   * so its encoding is the field product of the encodings.
   */
  lemma EncodedWitnessConsistent(p: Modulus, document: seq<u8>, mask: seq<u8>)
    requires |document| == LEN && |mask| == LEN
    requires Redacted(document, mask).Ok?
    ensures Witness(Encoded(p, document), Encoded(p, mask), Encoded(p, Redacted(document, mask).value)).Consistent(p)
  {
    var raw := Redacted(document, mask).value;
    RedactFromValues(document, mask, 1);
    var w := Witness(Encoded(p, document), Encoded(p, mask), Encoded(p, raw));
    forall i | 0 <= i < LEN
      ensures w.redacted[i] == Mul(p, w.document[i], w.redactor[i])
    {
      if i == 0 {
        ConvertU8Null(p);
      } else {
        ConvertU8Mul(p, document[i], mask[i]);
        assert raw[i] == (document[i] as int * mask[i] as int) as u8;
      }
    }
  }

  /** Using the corrected `redact` would give the same witness: `main` never reads its index 0. */
  lemma CorrectedRedactSameWitness(p: Modulus, document: seq<u8>, mask: seq<u8>)
    requires |document| == LEN && |mask| == LEN
    requires RedactAll(document, mask).Ok?
    ensures Redacted(document, mask).Ok?
    ensures Encoded(p, RedactAll(document, mask).value) == Encoded(p, Redacted(document, mask).value)
  {
    RedactAllAgreesFromOne(document, mask);
    RedactFromValues(document, mask, 0);
    RedactFromValues(document, mask, 1);
  }

  /** Fills a fresh field array as the loops at main.rs:53-56, 63-66 and 73-76 do. */
  method EncodeArray(p: Modulus, raw: seq<u8>) returns (v: Vector)
    requires |raw| == LEN
    ensures v == Encoded(p, raw)
  {
    var a := new nat[LEN](_ => ConvertU8(p, NULL));
    for i := 1 to LEN
      invariant a[0] == ConvertU8(p, NULL)
      invariant forall j :: 1 <= j < i ==> a[j] == ConvertU8(p, raw[j])
    {
      a[i] := ConvertU8(p, raw[i]);
    }
    v := a[..];
  }

  /**
   * The witness part of `main` (main.rs:49-76), with the demo's byte arrays
   * (`[20; LEN]` and `[1, 0]`) as parameters. Fails only where `redact` panics.
   */
  method BuildWitness(p: Modulus, documentBytes: seq<u8>, redactorBytes: seq<u8>) returns (r: Result<Witness, Panic>)
    requires |documentBytes| == LEN && |redactorBytes| == LEN
    ensures r.Ok? <==> Redacted(documentBytes, redactorBytes).Ok?
    ensures r.Err? ==> r.error == Redacted(documentBytes, redactorBytes).error
    ensures r.Ok? ==> r.value.document == Encoded(p, documentBytes)
    ensures r.Ok? ==> r.value.redactor == Encoded(p, redactorBytes)
    ensures r.Ok? ==> r.value.redacted == Encoded(p, Redacted(documentBytes, redactorBytes).value)
    ensures r.Ok? ==> r.value.Consistent(p)
  {
    var document := EncodeArray(p, documentBytes);
    var redactor := EncodeArray(p, redactorBytes);
    var finalPrior := Redact(documentBytes, redactorBytes);
    if finalPrior.Err? {
      return Err(finalPrior.error);
    }
    RedactFromValues(documentBytes, redactorBytes, 1);
    var redacted := EncodeArray(p, finalPrior.value);
    EncodedWitnessConsistent(p, documentBytes, redactorBytes);
    r := Ok(Witness(document, redactor, redacted));
  }
}
