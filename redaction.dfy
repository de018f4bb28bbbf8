/**
 * `redact` (main.rs:115-121): the pointwise product of two byte slices,
 * computed outside the circuit to obtain the expected public output.
 *
 * The loop runs over `1..LEN`, so index 0 of the result keeps its initial 0.
 * Indexing a slice past its end and a `u8` product above 255 both panic
 * (the latter as in a debug build).
 */
module Redaction {
  import opened Base

  datatype Panic = IndexOutOfBounds | MultiplyOverflow

  /** What iteration `i` of the loop panics with, if anything (main.rs:118). */
  function PanicAt(preimage: seq<u8>, mask: seq<u8>, i: nat): Option<Panic>
  {
    if i >= |preimage| || i >= |mask| then Some(IndexOutOfBounds)
    else if preimage[i] as int * mask[i] as int > 255 then Some(MultiplyOverflow)
    else None
  }

  /** The panic of the first iteration, from `from` up to `LEN`, that panics. */
  function FirstPanic(preimage: seq<u8>, mask: seq<u8>, from: nat): Option<Panic>
    decreases LEN - from
  {
    if from >= LEN then None
    else if PanicAt(preimage, mask, from).Some? then PanicAt(preimage, mask, from)
    else FirstPanic(preimage, mask, from + 1)
  }

  lemma {:induction false} FirstPanicNone(preimage: seq<u8>, mask: seq<u8>, from: nat)
    ensures FirstPanic(preimage, mask, from) == None
        <==> forall i :: from <= i < LEN ==> PanicAt(preimage, mask, i) == None
    decreases LEN - from
  {
    if from < LEN {
      FirstPanicNone(preimage, mask, from + 1);
    }
  }

  lemma {:induction false} FirstPanicIsFirst(preimage: seq<u8>, mask: seq<u8>, from: nat, e: Panic)
    requires FirstPanic(preimage, mask, from) == Some(e)
    ensures exists i: nat :: from <= i < LEN && PanicAt(preimage, mask, i) == Some(e) &&
                        forall j: nat :: from <= j < i ==> PanicAt(preimage, mask, j) == None
    decreases LEN - from
  {
    if PanicAt(preimage, mask, from) == None {
      FirstPanicIsFirst(preimage, mask, from + 1, e);
      var i: nat :| from + 1 <= i < LEN && PanicAt(preimage, mask, i) == Some(e) &&
               forall j: nat :: from + 1 <= j < i ==> PanicAt(preimage, mask, j) == None;
      assert forall j: nat :: from <= j < i ==> PanicAt(preimage, mask, j) == None;
    }
  }

  /** The byte product at an index whose iteration does not panic. */
  function Product(preimage: seq<u8>, mask: seq<u8>, i: nat): u8
    requires PanicAt(preimage, mask, i) == None
  {
    (preimage[i] as int * mask[i] as int) as u8
  }

  /**
   * The outcome of the loop `for i in from..LEN { internal[i] = preimage[i]*mask[i] }`
   * over `internal = [0; LEN]`: the first panic, or the array with the products
   * at `from..LEN` and zeros below `from`.
   */
  function RedactFrom(preimage: seq<u8>, mask: seq<u8>, from: nat): Result<seq<u8>, Panic>
  {
    match FirstPanic(preimage, mask, from)
    case Some(e) => Err(e)
    case None =>
      FirstPanicNone(preimage, mask, from);
      Ok(seq(LEN, i requires 0 <= i < LEN => if i < from then 0 else Product(preimage, mask, i)))
  }

  /** `redact` as written: the loop starts at index 1. */
  function Redacted(preimage: seq<u8>, mask: seq<u8>): Result<seq<u8>, Panic>
  {
    RedactFrom(preimage, mask, 1)
  }

  /** `redact` as its doc comment (main.rs:114) describes it: every index is multiplied. */
  function RedactAll(preimage: seq<u8>, mask: seq<u8>): Result<seq<u8>, Panic>
  {
    RedactFrom(preimage, mask, 0)
  }

  /** `redact` succeeds exactly when both slices reach the last index visited and no product overflows. */
  lemma RedactFromSucceeds(preimage: seq<u8>, mask: seq<u8>, from: nat)
    requires from < LEN
    ensures RedactFrom(preimage, mask, from).Ok?
        <==> |preimage| >= LEN && |mask| >= LEN &&
             forall i :: from <= i < LEN ==> preimage[i] as int * mask[i] as int < 256
  {
    FirstPanicNone(preimage, mask, from);
    if RedactFrom(preimage, mask, from).Ok? {
      assert PanicAt(preimage, mask, LEN - 1) == None;
    }
  }

  /** On success the result has length `LEN`, holds the products from `from` on, and zeros below. */
  lemma RedactFromValues(preimage: seq<u8>, mask: seq<u8>, from: nat)
    requires RedactFrom(preimage, mask, from).Ok?
    ensures var r := RedactFrom(preimage, mask, from).value;
            |r| == LEN &&
            (forall i :: 0 <= i < LEN && i < from ==> r[i] == 0) &&
            (forall i :: from <= i < LEN ==> r[i] as int == preimage[i] as int * mask[i] as int)
  {
    FirstPanicNone(preimage, mask, from);
  }

  /** On failure the panic is that of the first iteration that panics. */
  lemma RedactFromPanics(preimage: seq<u8>, mask: seq<u8>, from: nat)
    requires RedactFrom(preimage, mask, from).Err?
    ensures var e := RedactFrom(preimage, mask, from).error;
            exists i: nat :: from <= i < LEN && PanicAt(preimage, mask, i) == Some(e) &&
                        forall j: nat :: from <= j < i ==> PanicAt(preimage, mask, j) == None
  {
    FirstPanicIsFirst(preimage, mask, from, RedactFrom(preimage, mask, from).error);
  }

  /** As written, `redact` never writes index 0: it stays 0 whatever the inputs. */
  lemma RedactedSkipsFirst(preimage: seq<u8>, mask: seq<u8>)
    requires Redacted(preimage, mask).Ok?
    ensures |Redacted(preimage, mask).value| == LEN && Redacted(preimage, mask).value[0] == 0
  {
    RedactFromValues(preimage, mask, 1);
  }

  /**
   * The example of the doc comment, `[20,20]*[1,0] = [20,0]`: the code agrees at
   * index 1 but yields 0 instead of 20 at index 0.
   */
  lemma DocExampleAsWritten()
    ensures Redacted([20, 20], [1, 0]) == Ok([0, 0])
    ensures Redacted([20, 20], [1, 0]) != Ok([20, 0])
  {
    RedactFromSucceeds([20, 20], [1, 0], 1);
    RedactFromValues([20, 20], [1, 0], 1);
    assert Redacted([20, 20], [1, 0]).value == [0, 0];
  }

  /** The corrected loop over `0..LEN` gives the documented result. */
  lemma DocExampleCorrected()
    ensures RedactAll([20, 20], [1, 0]) == Ok([20, 0])
  {
    RedactFromSucceeds([20, 20], [1, 0], 0);
    RedactFromValues([20, 20], [1, 0], 0);
    assert RedactAll([20, 20], [1, 0]).value == [20, 0];
  }

  /** The corrected `redact` multiplies at every index, 0 included. */
  lemma RedactAllProducts(preimage: seq<u8>, mask: seq<u8>)
    requires RedactAll(preimage, mask).Ok?
    ensures |RedactAll(preimage, mask).value| == LEN
    ensures forall i :: 0 <= i < LEN ==>
              RedactAll(preimage, mask).value[i] as int == preimage[i] as int * mask[i] as int
  {
    RedactFromValues(preimage, mask, 0);
  }

  /** The corrected `redact` and the one as written agree at every index but 0. */
  lemma RedactAllAgreesFromOne(preimage: seq<u8>, mask: seq<u8>)
    requires RedactAll(preimage, mask).Ok?
    ensures Redacted(preimage, mask).Ok?
    ensures forall i :: 1 <= i < LEN ==> RedactAll(preimage, mask).value[i] == Redacted(preimage, mask).value[i]
  {
    RedactFromSucceeds(preimage, mask, 0);
    RedactFromSucceeds(preimage, mask, 1);
    RedactFromValues(preimage, mask, 0);
    RedactFromValues(preimage, mask, 1);
  }

  /** `redact` (main.rs:115-121), with its local array `internal`. */
  method Redact(preimage: seq<u8>, mask: seq<u8>) returns (r: Result<seq<u8>, Panic>)
    ensures r == Redacted(preimage, mask)
  {
    var internal := new u8[LEN](_ => 0);
    for i := 1 to LEN
      invariant FirstPanic(preimage, mask, 1) == FirstPanic(preimage, mask, i)
      invariant forall j :: 1 <= j < i ==> PanicAt(preimage, mask, j) == None
      invariant internal[0] == 0
      invariant forall j :: 1 <= j < i ==> internal[j] == Product(preimage, mask, j)
      invariant forall j :: i <= j < LEN ==> internal[j] == 0
    {
      if i >= |preimage| || i >= |mask| {
        return Err(IndexOutOfBounds);
      }
      var product := preimage[i] as int * mask[i] as int;
      if product > 255 {
        return Err(MultiplyOverflow);
      }
      internal[i] := product as u8;
    }
    FirstPanicNone(preimage, mask, 1);
    r := Ok(internal[..]);
    assert r.value == Redacted(preimage, mask).value;
  }
}
