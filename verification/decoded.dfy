/**
 * `DecodedPointer` and `DecodedPointerMut` (src/decoded/mod.rs): an encoded
 * pointer taken apart into its address and its two flags.
 *
 * A raw pointer is modelled by its address; the const and mut variants
 * differ only in the Rust pointer type they carry.
 */
module Decoded {
  import opened Word
  import opened Consts
  import opened Encoded

  datatype DecodedPointer = DecodedPointer(pointer: nat, boolOne: bool, boolTwo: bool)

  datatype DecodedPointerMut = DecodedPointerMut(pointer: nat, boolOne: bool, boolTwo: bool)

  /** `get_decoded`: the address below the flag bits and the two flag bits;
      `new` on them rebuilds the same encoded pointer. */
  function GetDecoded(p: EncodedPointer): (d: DecodedPointer)
    requires Valid(p)
    ensures d.pointer == p.value % Pow2(p.width - 2)
    ensures d.boolOne <==> p.value >= Pow2(p.width - 1)
    ensures d.boolTwo <==> p.value % Pow2(p.width - 1) >= Pow2(p.width - 2)
    ensures New(p.width, d.pointer, d.boolOne, d.boolTwo) == Ok(p)
  {
    NewOfFields(p);
    DecodedPointer(GetAddress(p), GetBoolOne(p), GetBoolTwo(p))
  }

  /** `get_decoded_mut`: as `get_decoded`, with a mutable pointer. */
  function GetDecodedMut(p: EncodedPointer): (d: DecodedPointerMut)
    requires Valid(p)
    ensures d.pointer == p.value % Pow2(p.width - 2)
    ensures d.boolOne <==> p.value >= Pow2(p.width - 1)
    ensures d.boolTwo <==> p.value % Pow2(p.width - 1) >= Pow2(p.width - 2)
    ensures New(p.width, d.pointer, d.boolOne, d.boolTwo) == Ok(p)
  {
    NewOfFields(p);
    DecodedPointerMut(GetAddress(p), GetBoolOne(p), GetBoolTwo(p))
  }

  /** Decoding what `new` built gives back the arguments of `new`. */
  lemma DecodeNew(w: Width, pointer: nat, boolOne: bool, boolTwo: bool)
    requires pointer < Pow2(w) && New(w, pointer, boolOne, boolTwo).Ok?
    ensures GetDecoded(New(w, pointer, boolOne, boolTwo).value) == DecodedPointer(pointer, boolOne, boolTwo)
  {
  }

  /** Two encoded pointers of one width with the same decoding are the same pointer. */
  lemma DecodeInjective(x: EncodedPointer, y: EncodedPointer)
    requires Valid(x) && Valid(y) && x.width == y.width
    requires GetDecoded(x) == GetDecoded(y)
    ensures x == y
  {
  }

  /** The const and mutable decodings carry the same address and flags. */
  lemma DecodedMutAgrees(p: EncodedPointer)
    requires Valid(p)
    ensures GetDecodedMut(p).pointer == GetDecoded(p).pointer
    ensures GetDecodedMut(p).boolOne == GetDecoded(p).boolOne
    ensures GetDecodedMut(p).boolTwo == GetDecoded(p).boolTwo
  {
  }

  /** Each setter changes exactly its own part of the decoding. */
  lemma SettersUpdateDecoding(p: EncodedPointer, pointer: nat, b: bool)
    requires Valid(p) && pointer < Pow2(p.width)
    ensures GetDecoded(SetBoolOne(p, b)) == GetDecoded(p).(boolOne := b)
    ensures GetDecoded(SetBoolTwo(p, b)) == GetDecoded(p).(boolTwo := b)
    ensures SetAddress(p, pointer).0 ==> GetDecoded(SetAddress(p, pointer).1) == GetDecoded(p).(pointer := pointer)
  {
  }
}
