# encoded-pointer, modelled in Dafny

The `encoded-pointer` crate packs a pointer and two booleans into one `usize`.
The address sits in the low `w - 2` bits of a `w`-bit word. `bool_one` is the
most significant bit (position `w - 1`) and `bool_two` the next one (position
`w - 2`). `EncodedPointer::new` refuses an address that already uses either of
those two bits. The getters mask the word. The setters clear a bit and OR in a
shifted boolean. `DecodedPointer` and `DecodedPointerMut` take an encoded
pointer apart into its address and its two flags.

The model follows the source file by file:

- `word.dfy` (module `Word`) models `usize` values as naturals below `2^w`. It
  defines the operators `&`, `|`, `!` and `<<` one bit at a time, with lemmas
  that split a word at a power of two.
- `consts.dfy` (module `Consts`) models `src/encoded/consts.rs`. Each position
  and mask is computed with the source's own operators for a pointer width `w`.
- `mask_facts.dfy` (module `MaskFacts`) holds helper lemmas that state what
  each mask does to a word, in ordinary arithmetic.
- `encoded.dfy` (module `Encoded`) models `src/encoded/mod.rs`. A method that
  takes `&mut self` becomes a function that returns the updated record, and
  `set_address` returns its boolean together with that record.
- `decoded.dfy` (module `Decoded`) models `src/decoded/mod.rs`, together with
  `get_decoded` and `get_decoded_mut`.
- `scenarios.dfy` (module `Scenarios`) restates the crate's unit tests as lemmas.

Each getter is computed with the source's mask, and its contract reads the
word arithmetically:

- the address is `value % 2^(w-2)`;
- `bool_one` holds when `value >= 2^(w-1)`;
- `bool_two` holds when `value % 2^(w-1) >= 2^(w-2)`.

Every other contract is stated in terms of these three readings.

## Model

| member | source | states |
|---|---|---|
| Consts.MaskValues | src/encoded/consts.rs:2-14 | The flag positions are `w - 1` and `w - 2`. Each flag mask is the single bit at its position. The encoded mask is `2^(w-1) + 2^(w-2)`. The address mask is `2^(w-2) - 1`, i.e. every bit below the flags. |
| Consts.EncodedMaskIsBothFlags | src/encoded/consts.rs:8-12 | The encoded mask (`0b11` shifted to the second flag position) is the OR of the two flag masks. |
| Consts.MasksPartitionWord | src/encoded/consts.rs:12-14 | The address mask (the complement of the encoded mask) shares no bit with the encoded mask, and together they cover the whole word. |
| Consts.Platform64 | src/tests_double.rs:70-74 | On a 64-bit `usize` the positions are 64, 63 and 62, and the masks have their 64-bit hexadecimal values. |
| Consts.Platform32 | src/tests_double.rs:79-83 | On a 32-bit `usize` the positions are 32, 31 and 30, and the masks have their 32-bit hexadecimal values. |
| Encoded.GetValue | src/encoded/mod.rs:146-148 | The whole word equals the address plus `2^(w-1)` if `bool_one` is set plus `2^(w-2)` if `bool_two` is set. |
| Encoded.GetAddress | src/encoded/mod.rs:153-155 | Masking with `ADDRESS_MASK` gives the word modulo `2^(w-2)`, which is never more than the word. |
| Encoded.GetBoolOne | src/encoded/mod.rs:174-176 | `bool_one` is true exactly when the word is at least `2^(w-1)`. |
| Encoded.GetBoolTwo | src/encoded/mod.rs:181-183 | `bool_two` is true exactly when the word modulo `2^(w-1)` is at least `2^(w-2)`. |
| Encoded.SetValue | src/encoded/mod.rs:190-192 | After `set_value`, the whole word, flags included, is the given value. |
| Encoded.SetAddress | src/encoded/mod.rs:203-210 | Returns true exactly when the new address is below `2^(w-2)`. On false the pointer is unchanged. On true the address is the new one and both flags keep their values. |
| Encoded.SetBoolOne | src/encoded/mod.rs:216-219 | `bool_one` becomes `b`; the address and `bool_two` keep their values. |
| Encoded.SetBoolTwo | src/encoded/mod.rs:226-229 | `bool_two` becomes `b`; the address and `bool_one` keep their values. |
| Encoded.Encode | src/encoded/mod.rs:242-246 | The result fits the word and has the pointer's low `w - 2` bits. Each flag bit is set if its boolean is true or the pointer already had that bit. |
| Encoded.BitCollision | src/encoded/mod.rs:254-256 | A collision happens exactly when the pointer is at least `2^(w-2)`. |
| Encoded.New | src/encoded/mod.rs:79-89 | Fails with `InvalidInput` exactly on a collision. Otherwise the result reads back the given address and both booleans. |
| Encoded.FromAddress | src/encoded/mod.rs:98-100 | Fails exactly on a collision. Otherwise the word is the address itself and both flags are false. |
| Encoded.FromValueUnchecked | src/encoded/mod.rs:116-118 | Any word is accepted unchanged, with no collision check, and `get_value` returns it. |
| Encoded.FieldsDetermine | src/encoded/mod.rs:64-66 | Two valid pointers of one width with the same address and flags are equal. |
| Encoded.NewOfFields | src/encoded/mod.rs:79-89 | `new`, applied to the address and flags read from any valid pointer, succeeds and rebuilds that pointer. |
| Encoded.EncodeIsSum | src/encoded/mod.rs:242-246 | For a pointer without collision, `encode` adds `2^(w-1)` for `bool_one` and `2^(w-2)` for `bool_two`. |
| Encoded.NewIsFromAddressThenFlags | src/encoded/mod.rs:98-100 | `new` succeeds exactly when `from_address` does, and then equals `from_address` followed by `set_bool_one` and `set_bool_two`. |
| Encoded.UncheckedRoundTrip | src/encoded/mod.rs:116-118 | Wrapping a valid pointer's word with `from_value_unchecked` gives the same pointer back. |
| Encoded.SetBoolOneLastWins | src/encoded/mod.rs:216-219 | Of two consecutive `set_bool_one` calls only the last counts; this covers idempotence. |
| Encoded.SetBoolOneToCurrent | src/encoded/mod.rs:216-219 | Setting `bool_one` to its current value leaves the pointer unchanged. |
| Encoded.SetBoolTwoLastWins | src/encoded/mod.rs:226-229 | Of two consecutive `set_bool_two` calls only the last counts. |
| Encoded.SetBoolTwoToCurrent | src/encoded/mod.rs:226-229 | Setting `bool_two` to its current value leaves the pointer unchanged. |
| Encoded.FlagSettersCommute | src/encoded/mod.rs:216-229 | `set_bool_one` and `set_bool_two` give the same pointer in either order. |
| Encoded.SetAddressLastWins | src/encoded/mod.rs:203-210 | A refused address leaves the pointer as it was. An accepted address overwrites whatever address an earlier call set. |
| Encoded.SetAddressToCurrent | src/encoded/mod.rs:203-210 | Setting the address a pointer already has succeeds and changes nothing. |
| Encoded.SetAddressCommutesWithFlags | src/encoded/mod.rs:203-229 | `set_address` gives the same pointer before or after either flag setter. |
| Decoded.GetDecoded | src/encoded/mod.rs:126-128 | The decoded pointer is the word modulo `2^(w-2)`, `bool_one` is whether the word is at least `2^(w-1)`, and `bool_two` is bit `w - 2`. `new` on the decoded parts rebuilds the encoded pointer. |
| Decoded.GetDecodedMut | src/decoded/mod.rs:81-89 | The same as `get_decoded`, for the mutable-pointer decoding. |
| Decoded.DecodeNew | src/decoded/mod.rs:71-79 | Decoding what `new` built gives back the arguments of `new`. |
| Decoded.DecodeInjective | src/decoded/mod.rs:71-79 | Two encoded pointers of one width with the same decoding are equal. |
| Decoded.DecodedMutAgrees | src/decoded/mod.rs:65-89 | The const and mutable decodings carry the same address and flags. |
| Decoded.SettersUpdateDecoding | src/encoded/mod.rs:203-229 | Each setter changes only its own field of the decoding. |
| Scenarios.SetBools | src/tests_double.rs:7-20 | `from_address(0x100)` has address 0x100 and no flags. After setting both flags the address is still 0x100 and both flags are set. |
| Scenarios.SetAddressKeepsFlags | src/tests_double.rs:24-45 | Two `set_address` calls (to 0x200, then to 0x300) each succeed. Each keeps the flags set just before it. |
| Scenarios.SetAddressKeepsBothFlags | src/tests.rs:21-35 | Moving the address to 0x200 keeps both flags set. |
| Scenarios.DebugValue64 | src/tests_double.rs:50-56 | On x86_64, `new(0x100, true, false)` has the word 0x8000000000000100 and decodes to (0x100, true, false). |
| Scenarios.DebugValue32 | src/tests_double.rs:60-66 | On x86, `new(0x100, true, false)` has the word 0x80000100 and decodes to (0x100, true, false). |
| Scenarios.SetBoolsValue64 | src/tests_double.rs:7-20 | On x86_64, the `set_bools` steps (address 0x100, then both flags set) produce the word 0xC000000000000100. |
| Scenarios.TopBitCollides | src/encoded/mod.rs:80-85 | An address with the top bit set is refused by `new` with `InvalidInput`, and `set_address` returns false and leaves the pointer unchanged. |
| Scenarios.TopBitCollides64 | src/encoded/mod.rs:80-85 | On x86_64, `new(0x8000000000000000, false, false)` fails with `InvalidInput`. |

## Left out

- **Pointer width.** Rust gives `usize` 16, 32 or 64 bits. The model takes any width of at least two bits, so every such width is covered.
- **Raw-pointer casts.** `get_pointer`, `get_mut_pointer` and the `From<EncodedPointer>` impls for `*const T` / `*mut T` (src/encoded/mod.rs:160-169, 259-269) return `get_address()` cast to a pointer type. A pointer is modelled by its address, so these are `GetAddress`. The generic parameter `T` and the const/mut distinction are left out.
- **Debug output.** The `Debug` impl (src/encoded/mod.rs:271-275) builds a string, and text formatting is not modelled. The values it prints are: the decoding and the word (`DebugValue64`, `DebugValue32`).
- **Error message.** `std::io::Error` is modelled by its kind only; the message text is left out.
- **Rust-only qualifiers.** `unsafe` markers, `#[inline(always)]` and `Copy`/`Clone` have no counterpart: every record is an immutable value.
- **Decoded conversion plumbing.** `From<&mut EncodedPointer> for DecodedPointerMut` calls `get_pointer_mut`, which `EncodedPointer` does not define; its method is `get_mut_pointer`. `get_decoded` and `get_decoded_mut` call `self.into()` on a value, while the `From` impls take references. The model follows the evident intent: the decoding is the address and the two flags.
- **Older layout.** src/consts.rs and src/decoded_pointer.rs are an older version of the layout and are not part of this model. Of src/tests.rs, only its `set_address` test is restated.
- **Concurrency.** There is none in the crate; sharing a pointer across threads is the caller's concern.
