/**
 * The bit layout of an encoded pointer (src/encoded/consts.rs).
 *
 * The platform's pointer width `w` (Rust's `usize::BITS`) is a parameter.
 * The two most significant bits of the word carry the two flags: `bool_one`
 * at bit `w - 1` and `bool_two` at bit `w - 2`. The remaining low `w - 2` bits
 * carry the address. Each mask is computed with the same operators the
 * source uses (`<<` and `!`).
 */
module Consts {
  import opened Word

  /** A pointer width with room for the two flag bits. Rust gives `usize` 16, 32 (x86) or 64 (x86_64) bits. */
  type Width = w: nat | 2 <= w witness 64

  function PtrSizeInBits(w: Width): nat
  {
    w
  }

  function BoolOnePosition(w: Width): nat
  {
    PtrSizeInBits(w) - 1
  }

  function BoolTwoPosition(w: Width): nat
  {
    PtrSizeInBits(w) - 2
  }

  function BoolOneMask(w: Width): nat
  {
    Shl(w, 1, BoolOnePosition(w))
  }

  function BoolTwoMask(w: Width): nat
  {
    Shl(w, 1, BoolTwoPosition(w))
  }

  function EncodedMask(w: Width): nat
  {
    Shl(w, 0x3, BoolTwoPosition(w))
  }

  function AddressMask(w: Width): nat
  {
    Not(w, EncodedMask(w))
  }

  /** The flag positions are the two top bit indices; each flag mask is the
      single bit at its position, the encoded mask is both of them, and the
      address mask is every bit below them. */
  lemma MaskValues(w: Width)
    ensures BoolOnePosition(w) == w - 1 && BoolTwoPosition(w) == w - 2
    ensures BoolOneMask(w) == Pow2(w - 1)
    ensures BoolTwoMask(w) == Pow2(w - 2)
    ensures EncodedMask(w) == Pow2(w - 1) + Pow2(w - 2)
    ensures AddressMask(w) == Pow2(w - 2) - 1
  {
    Pow2Top(w);
    ShlNoOverflow(w, 1, w - 1);
    ShlNoOverflow(w, 1, w - 2);
    ShlNoOverflow(w, 3, w - 2);
    NotIsComplement(w, EncodedMask(w));
  }

  /** The encoded mask is the OR of the two flag masks. */
  lemma EncodedMaskIsBothFlags(w: Width)
    ensures EncodedMask(w) == Or(BoolOneMask(w), BoolTwoMask(w))
  {
    MaskValues(w);
    Pow2Top(w);
    OrSplit(BoolOneMask(w), BoolTwoMask(w), 2, 0, 1, 0, w - 2);
    assert Or(2, 1) == 3 && Or(0, 0) == 0;
  }

  /** The address mask and the encoded mask share no bit and together cover
      the whole word. */
  lemma MasksPartitionWord(w: Width)
    ensures And(EncodedMask(w), AddressMask(w)) == 0
    ensures Or(EncodedMask(w), AddressMask(w)) == Pow2(w) - 1
  {
    PartitionOf(w, EncodedMask(w), AddressMask(w));
  }

  /** MasksPartitionWord, on the mask values. */
  lemma PartitionOf(w: Width, e: nat, a: nat)
    requires e == EncodedMask(w) && a == AddressMask(w)
    ensures And(e, a) == 0
    ensures Or(e, a) == Pow2(w) - 1
  {
    MaskValues(w);
    Pow2Top(w);
    TopTwoAndLowMask(e, a, w - 2);
  }

  /** On x86_64 the positions and masks have their familiar 64-bit values. */
  lemma Platform64()
    ensures PtrSizeInBits(64) == 64 && BoolOnePosition(64) == 63 && BoolTwoPosition(64) == 62
    ensures BoolOneMask(64) == 0x8000_0000_0000_0000 && BoolTwoMask(64) == 0x4000_0000_0000_0000
    ensures EncodedMask(64) == 0xC000_0000_0000_0000 && AddressMask(64) == 0x3FFF_FFFF_FFFF_FFFF
  {
    MaskValues(64);
    Pow2Values();
  }

  /** On x86 the positions and masks have their familiar 32-bit values. */
  lemma Platform32()
    ensures PtrSizeInBits(32) == 32 && BoolOnePosition(32) == 31 && BoolTwoPosition(32) == 30
    ensures BoolOneMask(32) == 0x8000_0000 && BoolTwoMask(32) == 0x4000_0000
    ensures EncodedMask(32) == 0xC000_0000 && AddressMask(32) == 0x3FFF_FFFF
  {
    MaskValues(32);
    Pow2Values();
  }
}
