/**
 * The repository's unit tests (src/tests_double.rs) restated as lemmas about
 * the model. The width-independent tests hold on every width whose address
 * part has room for 0x300; the layout tests are stated for x86_64 and x86.
 */
module Scenarios {
  import opened Word
  import opened Consts
  import opened Encoded
  import opened Decoded

  /** `set_bools`: setting both flags on a fresh pointer leaves its address alone. */
  lemma SetBools(w: Width)
    requires 0x100 < Pow2(w - 2)
    ensures FromAddress(w, 0x100).Ok?
    ensures var p := FromAddress(w, 0x100).value;
            GetAddress(p) == 0x100 && !GetBoolOne(p) && !GetBoolTwo(p)
    ensures var q := SetBoolTwo(SetBoolOne(FromAddress(w, 0x100).value, true), true);
            GetAddress(q) == 0x100 && GetBoolOne(q) && GetBoolTwo(q)
  {
  }

  /** `set_address`: moving the address twice keeps whatever flags were set in between. */
  lemma SetAddressKeepsFlags(w: Width)
    requires 0x300 < Pow2(w - 2)
    ensures FromAddress(w, 0x100).Ok?
    ensures var p1 := SetBoolTwo(FromAddress(w, 0x100).value, true);
            var (ok1, p2) := SetAddress(p1, 0x200);
            ok1 && GetAddress(p2) == 0x200 && !GetBoolOne(p2) && GetBoolTwo(p2)
            && var p3 := SetBoolTwo(SetBoolOne(p2, true), false);
            var (ok2, p4) := SetAddress(p3, 0x300);
            ok2 && GetAddress(p4) == 0x300 && GetBoolOne(p4) && !GetBoolTwo(p4)
  {
  }

  /** `test_debug` on x86_64: the word behind `new(0x100, true, false)`. */
  lemma DebugValue64()
    ensures New(64, 0x100, true, false).Ok?
    ensures GetValue(New(64, 0x100, true, false).value) == 0x8000_0000_0000_0100
    ensures GetDecoded(New(64, 0x100, true, false).value) == DecodedPointer(0x100, true, false)
  {
    Pow2Values();
    EncodeIsSum(64, 0x100, true, false);
  }

  /** `test_debug` on x86: the word behind `new(0x100, true, false)`. */
  lemma DebugValue32()
    ensures New(32, 0x100, true, false).Ok?
    ensures GetValue(New(32, 0x100, true, false).value) == 0x8000_0100
    ensures GetDecoded(New(32, 0x100, true, false).value) == DecodedPointer(0x100, true, false)
  {
    Pow2Values();
    EncodeIsSum(32, 0x100, true, false);
  }

  /** A pointer with the top bit set is refused by `new` and by `set_address`. */
  lemma TopBitCollides(p: EncodedPointer)
    requires Valid(p)
    ensures New(p.width, Pow2(p.width - 1), false, false) == Err(InvalidInput)
    ensures SetAddress(p, Pow2(p.width - 1)) == (false, p)
  {
  }

  /** The word the `set_bools` steps produce on x86_64: 0xC000_0000_0000_0100. */
  lemma SetBoolsValue64()
    ensures FromAddress(64, 0x100).Ok?
    ensures GetValue(SetBoolTwo(SetBoolOne(FromAddress(64, 0x100).value, true), true)) == 0xC000_0000_0000_0100
  {
    Pow2Values();
  }

  /** The older `set_address` test: moving the address keeps both flags set. */
  lemma SetAddressKeepsBothFlags(w: Width)
    requires 0x200 < Pow2(w - 2)
    ensures FromAddress(w, 0x100).Ok?
    ensures var p := SetBoolTwo(SetBoolOne(FromAddress(w, 0x100).value, true), true);
            var (ok, q) := SetAddress(p, 0x200);
            ok && GetAddress(q) == 0x200 && GetBoolOne(q) && GetBoolTwo(q)
  {
  }

  /** On x86_64, `new` refuses the address 0x8000_0000_0000_0000. */
  lemma TopBitCollides64()
    ensures Pow2(63) == 0x8000_0000_0000_0000
    ensures New(64, Pow2(63), false, false) == Err(InvalidInput)
  {
    Pow2Values();
  }
}
