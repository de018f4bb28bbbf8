/**
 * The proof system's scalar field, kept abstract: integers modulo a modulus
 * `p` larger than any byte. None of the properties below needs `p` to be prime.
 */
module Field {
  import opened Base

  type Modulus = p: nat | 255 < p witness 256

  /** A length-`LEN` array of field elements, as `[S; LEN]` in the source. */
  type Vector = seq<nat>

  predicate IsVector(p: Modulus, v: Vector)
  {
    |v| == LEN && forall i :: 0 <= i < |v| ==> v[i] < p
  }

  /** Field multiplication. */
  function Mul(p: Modulus, x: nat, y: nat): (r: nat)
    ensures r < p
  {
    (x * y) % p
  }

  /** `c[i] == a[i] * b[i]` in the field at every index. */
  predicate PointwiseProduct(p: Modulus, a: Vector, b: Vector, c: Vector)
  {
    |a| == LEN && |b| == LEN && |c| == LEN &&
    forall i :: 0 <= i < LEN ==> c[i] == Mul(p, a[i], b[i])
  }

  /** `convert_u8`: a byte as a field element (main.rs:110-112). */
  function ConvertU8(p: Modulus, x: u8): (r: nat)
    ensures r < p
  {
    (x as nat) % p
  }

  /** Since every byte is below the modulus, no reduction takes place. */
  lemma ConvertU8Exact(p: Modulus, x: u8)
    ensures ConvertU8(p, x) == x as nat
  {
    assert 0 <= x as nat < p;
  }

  lemma ConvertU8Injective(p: Modulus, x: u8, y: u8)
    ensures ConvertU8(p, x) == ConvertU8(p, y) <==> x == y
  {
    ConvertU8Exact(p, x);
    ConvertU8Exact(p, y);
  }

  /** `convert_u8(null)` is the field's zero. */
  lemma ConvertU8Null(p: Modulus)
    ensures ConvertU8(p, NULL) == 0
  {
    ConvertU8Exact(p, NULL);
  }

  /** A byte product that does not overflow is encoded as the field product of the encodings. */
  lemma ConvertU8Mul(p: Modulus, x: u8, y: u8)
    requires x as int * y as int < 256
    ensures ConvertU8(p, (x as int * y as int) as u8) == Mul(p, ConvertU8(p, x), ConvertU8(p, y))
  {
    ConvertU8Exact(p, x);
    ConvertU8Exact(p, y);
    ConvertU8Exact(p, (x as int * y as int) as u8);
    assert 0 <= x as int * y as int < p;
  }
}
