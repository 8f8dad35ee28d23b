/**
 * `EncodedPointer` (src/encoded/mod.rs): one `usize` carrying an address in
 * its low `w - 2` bits and two booleans in its top two bits.
 *
 * The record keeps the platform width next to the word. The Rust methods
 * that take `&mut self` become functions returning the updated record, and
 * `set_address` returns its boolean together with that record. Every
 * operation is computed with the same mask operations the source uses; its
 * contract states the result in plain arithmetic: the address is
 * `value % 2^(w-2)`, `bool_one` is `value >= 2^(w-1)`, and `bool_two` is
 * `value % 2^(w-1) >= 2^(w-2)`.
 */
module Encoded {
  import opened Word
  import opened Consts
  import opened MaskFacts

  /** The one `std::io::ErrorKind` the core produces. */
  datatype ErrorKind = InvalidInput

  /** `std::io::Result`, without the error's message text. */
  datatype IoResult<+T> = Ok(value: T) | Err(kind: ErrorKind)

  datatype EncodedPointer = EncodedPointer(width: Width, value: nat)

  /** The stored word fits in a `usize` of the record's width. */
  predicate Valid(p: EncodedPointer)
  {
    p.value < Pow2(p.width)
  }

  /** `get_value`: the whole word, which is the address plus the weight of each set flag. */
  function GetValue(p: EncodedPointer): (r: nat)
    requires Valid(p)
    ensures r < Pow2(p.width)
    ensures r == GetAddress(p)
                 + (if GetBoolOne(p) then Pow2(p.width - 1) else 0)
                 + (if GetBoolTwo(p) then Pow2(p.width - 2) else 0)
  {
    Packing(p.width, p.value);
    p.value
  }

  /** `get_address`: the word with the two flag bits masked off. */
  function GetAddress(p: EncodedPointer): (r: nat)
    requires Valid(p)
    ensures r == p.value % Pow2(p.width - 2)
    ensures r <= p.value
  {
    var m := AddressMask(p.width);
    AddressOf(p.width, p.value, m, And(p.value, m));
    And(p.value, m)
  }

  /** `get_bool_one`: whether the most significant bit is set. */
  function GetBoolOne(p: EncodedPointer): (r: bool)
    requires Valid(p)
    ensures r <==> p.value >= Pow2(p.width - 1)
  {
    var m := BoolOneMask(p.width);
    FlagOneOf(p.width, p.value, m, And(p.value, m));
    And(p.value, m) != 0
  }

  /** `get_bool_two`: whether the second most significant bit is set. */
  function GetBoolTwo(p: EncodedPointer): (r: bool)
    requires Valid(p)
    ensures r <==> p.value % Pow2(p.width - 1) >= Pow2(p.width - 2)
  {
    var m := BoolTwoMask(p.width);
    FlagTwoOf(p.width, p.value, m, And(p.value, m));
    And(p.value, m) != 0
  }

  /** `set_value`: replaces the whole word, flags included. */
  function SetValue(p: EncodedPointer, value: nat): (r: EncodedPointer)
    requires Valid(p) && value < Pow2(p.width)
    ensures Valid(r) && r.width == p.width && GetValue(r) == value
  {
    EncodedPointer(p.width, value)
  }

  /** `set_address`: refuses an address that reaches into the flag bits and
      leaves the pointer as it was; otherwise replaces the address, keeps
      both flags and reports success. */
  function SetAddress(p: EncodedPointer, pointer: nat): (res: (bool, EncodedPointer))
    requires Valid(p) && pointer < Pow2(p.width)
    ensures res.0 <==> pointer < Pow2(p.width - 2)
    ensures !res.0 ==> res.1 == p
    ensures res.0 ==> Valid(res.1) && res.1.width == p.width
    ensures res.0 ==> GetAddress(res.1) == pointer
    ensures res.0 ==> GetBoolOne(res.1) == GetBoolOne(p) && GetBoolTwo(res.1) == GetBoolTwo(p)
  {
    if BitCollision(p.width, pointer) then
      (false, p)
    else
      var e := EncodedMask(p.width);
      SetAddressOf(p.width, p.value, pointer, e, Or(pointer, And(p.value, e)));
      (true, EncodedPointer(p.width, Or(pointer, And(p.value, e))))
  }

  /** `set_bool_one`: makes `bool_one` equal `b`; the address and `bool_two` are kept. */
  function SetBoolOne(p: EncodedPointer, b: bool): (r: EncodedPointer)
    requires Valid(p)
    ensures Valid(r) && r.width == p.width
    ensures GetBoolOne(r) == b
    ensures GetAddress(r) == GetAddress(p) && GetBoolTwo(r) == GetBoolTwo(p)
  {
    var n := Not(p.width, BoolOneMask(p.width));
    var s := Shl(p.width, FromBool(b), BoolOnePosition(p.width));
    SetFlagOneOf(p.width, p.value, b, n, s, Or(And(p.value, n), s));
    EncodedPointer(p.width, Or(And(p.value, n), s))
  }

  /** `set_bool_two`: makes `bool_two` equal `b`; the address and `bool_one` are kept. */
  function SetBoolTwo(p: EncodedPointer, b: bool): (r: EncodedPointer)
    requires Valid(p)
    ensures Valid(r) && r.width == p.width
    ensures GetBoolTwo(r) == b
    ensures GetAddress(r) == GetAddress(p) && GetBoolOne(r) == GetBoolOne(p)
  {
    var n := Not(p.width, BoolTwoMask(p.width));
    var s := Shl(p.width, FromBool(b), BoolTwoPosition(p.width));
    SetFlagTwoOf(p.width, p.value, b, n, s, Or(And(p.value, n), s));
    EncodedPointer(p.width, Or(And(p.value, n), s))
  }

  /** `bit_collision`: whether the pointer has data in either of the two flag bits. */
  function BitCollision(w: Width, pointer: nat): (r: bool)
    requires pointer < Pow2(w)
    ensures r <==> pointer >= Pow2(w - 2)
  {
    var m := EncodedMask(w);
    CollisionOf(w, pointer, m, And(pointer, m));
    And(pointer, m) != 0
  }

  /** `encode`: ORs the two booleans into the top bits without any collision
      check, so a bit the pointer already has stays set. */
  function Encode(w: Width, pointer: nat, boolOne: bool, boolTwo: bool): (r: nat)
    requires pointer < Pow2(w)
    ensures r < Pow2(w)
    ensures r % Pow2(w - 2) == pointer % Pow2(w - 2)
    ensures r >= Pow2(w - 1) <==> boolOne || pointer >= Pow2(w - 1)
    ensures r % Pow2(w - 1) >= Pow2(w - 2) <==> boolTwo || pointer % Pow2(w - 1) >= Pow2(w - 2)
  {
    var s1 := Shl(w, FromBool(boolOne), BoolOnePosition(w));
    var s2 := Shl(w, FromBool(boolTwo), BoolTwoPosition(w));
    EncodeOf(w, pointer, boolOne, boolTwo, s1, s2, Or(Or(pointer, s1), s2));
    Or(Or(pointer, s1), s2)
  }

  /** `new`: fails with `InvalidInput` exactly when the pointer collides with
      the flag bits; otherwise the result decodes to the three arguments. */
  function New(w: Width, pointer: nat, boolOne: bool, boolTwo: bool): (r: IoResult<EncodedPointer>)
    requires pointer < Pow2(w)
    ensures r.Err? <==> pointer >= Pow2(w - 2)
    ensures r.Ok? ==> Valid(r.value) && r.value.width == w
    ensures r.Ok? ==> GetAddress(r.value) == pointer
    ensures r.Ok? ==> GetBoolOne(r.value) == boolOne && GetBoolTwo(r.value) == boolTwo
  {
    if BitCollision(w, pointer) then
      Err(InvalidInput)
    else
      NoCollision(w, pointer);
      Ok(EncodedPointer(w, Encode(w, pointer, boolOne, boolTwo)))
  }

  /** `from_address`: `new` with both flags false. */
  function FromAddress(w: Width, address: nat): (r: IoResult<EncodedPointer>)
    requires address < Pow2(w)
    ensures r.Err? <==> address >= Pow2(w - 2)
    ensures r.Ok? ==> Valid(r.value) && r.value.width == w && GetValue(r.value) == address
    ensures r.Ok? ==> !GetBoolOne(r.value) && !GetBoolTwo(r.value)
  {
    New(w, address, false, false)
  }

  /** `from_value_unchecked`: wraps any word, flags included, without a collision check. */
  function FromValueUnchecked(w: Width, value: nat): (r: EncodedPointer)
    requires value < Pow2(w)
    ensures Valid(r) && r.width == w && GetValue(r) == value
  {
    EncodedPointer(w, value)
  }

  /** The address and the two flags determine an encoded pointer of a given width. */
  lemma FieldsDetermine(x: EncodedPointer, y: EncodedPointer)
    requires Valid(x) && Valid(y) && x.width == y.width
    requires GetAddress(x) == GetAddress(y)
    requires GetBoolOne(x) == GetBoolOne(y) && GetBoolTwo(x) == GetBoolTwo(y)
    ensures x == y
  {
    assert GetValue(x) == GetValue(y);
  }

  /** Building a pointer with `new` from the fields of a valid pointer gives that pointer back. */
  lemma NewOfFields(p: EncodedPointer)
    requires Valid(p)
    ensures New(p.width, GetAddress(p), GetBoolOne(p), GetBoolTwo(p)) == Ok(p)
  {
    var r := New(p.width, GetAddress(p), GetBoolOne(p), GetBoolTwo(p));
    FieldsDetermine(r.value, p);
  }

  /** For a pointer that does not collide, `encode` adds the weight of each true flag. */
  lemma EncodeIsSum(w: Width, pointer: nat, boolOne: bool, boolTwo: bool)
    requires pointer < Pow2(w) && !BitCollision(w, pointer)
    ensures Encode(w, pointer, boolOne, boolTwo)
            == pointer + (if boolOne then Pow2(w - 1) else 0) + (if boolTwo then Pow2(w - 2) else 0)
  {
    NoCollision(w, pointer);
    Packing(w, Encode(w, pointer, boolOne, boolTwo));
  }

  /** `new` is `from_address` followed by setting both flags. */
  lemma NewIsFromAddressThenFlags(w: Width, pointer: nat, boolOne: bool, boolTwo: bool)
    requires pointer < Pow2(w)
    ensures New(w, pointer, boolOne, boolTwo).Ok? == FromAddress(w, pointer).Ok?
    ensures FromAddress(w, pointer).Ok? ==>
              New(w, pointer, boolOne, boolTwo).value
              == SetBoolTwo(SetBoolOne(FromAddress(w, pointer).value, boolOne), boolTwo)
  {
    var r := New(w, pointer, boolOne, boolTwo);
    if r.Ok? {
      var q := SetBoolTwo(SetBoolOne(FromAddress(w, pointer).value, boolOne), boolTwo);
      FieldsDetermine(r.value, q);
    }
  }

  /** Wrapping the word of a valid pointer without checks gives that pointer back. */
  lemma UncheckedRoundTrip(p: EncodedPointer)
    requires Valid(p)
    ensures FromValueUnchecked(p.width, GetValue(p)) == p
  {
  }

  /** Of two `set_bool_one` calls only the last one counts. */
  lemma SetBoolOneLastWins(p: EncodedPointer, b: bool, c: bool)
    requires Valid(p)
    ensures SetBoolOne(SetBoolOne(p, b), c) == SetBoolOne(p, c)
  {
    FieldsDetermine(SetBoolOne(SetBoolOne(p, b), c), SetBoolOne(p, c));
  }

  /** Setting `bool_one` to its current value changes nothing. */
  lemma SetBoolOneToCurrent(p: EncodedPointer)
    requires Valid(p)
    ensures SetBoolOne(p, GetBoolOne(p)) == p
  {
    FieldsDetermine(SetBoolOne(p, GetBoolOne(p)), p);
  }

  /** Of two `set_bool_two` calls only the last one counts. */
  lemma SetBoolTwoLastWins(p: EncodedPointer, b: bool, c: bool)
    requires Valid(p)
    ensures SetBoolTwo(SetBoolTwo(p, b), c) == SetBoolTwo(p, c)
  {
    FieldsDetermine(SetBoolTwo(SetBoolTwo(p, b), c), SetBoolTwo(p, c));
  }

  /** Setting `bool_two` to its current value changes nothing. */
  lemma SetBoolTwoToCurrent(p: EncodedPointer)
    requires Valid(p)
    ensures SetBoolTwo(p, GetBoolTwo(p)) == p
  {
    FieldsDetermine(SetBoolTwo(p, GetBoolTwo(p)), p);
  }

  /** The two flag setters act on separate bits, so their order does not matter. */
  lemma FlagSettersCommute(p: EncodedPointer, b: bool, c: bool)
    requires Valid(p)
    ensures SetBoolTwo(SetBoolOne(p, b), c) == SetBoolOne(SetBoolTwo(p, c), b)
  {
    FieldsDetermine(SetBoolTwo(SetBoolOne(p, b), c), SetBoolOne(SetBoolTwo(p, c), b));
  }

  /** A refused address leaves the pointer as it was; an accepted one overwrites any earlier one. */
  lemma SetAddressLastWins(p: EncodedPointer, first: nat, second: nat)
    requires Valid(p) && first < Pow2(p.width) && second < Pow2(p.width)
    ensures SetAddress(SetAddress(p, first).1, second).1
            == if second < Pow2(p.width - 2) then SetAddress(p, second).1 else SetAddress(p, first).1
  {
    var q := SetAddress(p, first).1;
    if second < Pow2(p.width - 2) {
      FieldsDetermine(SetAddress(q, second).1, SetAddress(p, second).1);
    }
  }

  /** Setting the address a pointer already has succeeds and changes nothing. */
  lemma SetAddressToCurrent(p: EncodedPointer)
    requires Valid(p)
    ensures SetAddress(p, GetAddress(p)) == (true, p)
  {
    FieldsDetermine(SetAddress(p, GetAddress(p)).1, p);
  }

  /** Setting the address and setting a flag touch separate bits, so their order does not matter. */
  lemma SetAddressCommutesWithFlags(p: EncodedPointer, pointer: nat, b: bool, c: bool)
    requires Valid(p) && pointer < Pow2(p.width)
    ensures SetBoolOne(SetAddress(p, pointer).1, b) == SetAddress(SetBoolOne(p, b), pointer).1
    ensures SetBoolTwo(SetAddress(p, pointer).1, c) == SetAddress(SetBoolTwo(p, c), pointer).1
  {
    FieldsDetermine(SetBoolOne(SetAddress(p, pointer).1, b), SetAddress(SetBoolOne(p, b), pointer).1);
    FieldsDetermine(SetBoolTwo(SetAddress(p, pointer).1, c), SetAddress(SetBoolTwo(p, c), pointer).1);
  }
}
