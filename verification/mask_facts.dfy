/**
 * What each mask of the encoded layout does to a word.
 *
 * A word `v < 2^w` splits at `P = 2^(w - 2)` into a two-bit tag `t < 4`
 * (bit 1 of the tag is `bool_one`, bit 0 is `bool_two`) and an address
 * `a < P`. Every lemma below takes the masks as plain values, splits the
 * operands into tag and address, applies `AndSplit`/`OrSplit` and reads the
 * result back with `Fields`.
 */
module MaskFacts {
  import opened Word
  import opened Consts

  /** Any word is a tag below 4 above an address below `P`. */
  lemma Split(w: Width, v: nat) returns (t: nat, a: nat)
    requires v < Pow2(w)
    ensures t < 4 && a < Pow2(w - 2) && v == t * Pow2(w - 2) + a
    ensures a <= v
  {
    Pow2Top(w);
    var p := Pow2(w - 2);
    t, a := v / p, v % p;
    QuotientBound(v, p, 4);
  }

  /** Reads the address and the two flag bits of a word built from a tag and an address. */
  lemma Fields(w: Width, v: nat, t: nat, a: nat)
    requires t < 4 && a < Pow2(w - 2) && v == t * Pow2(w - 2) + a
    ensures v < Pow2(w)
    ensures v % Pow2(w - 2) == a
    ensures v >= Pow2(w - 1) <==> t >= 2
    ensures v % Pow2(w - 1) >= Pow2(w - 2) <==> t % 2 == 1
  {
    Pow2Top(w);
    var p := Pow2(w - 2);
    if t == 0 {
    } else if t == 1 {
    } else if t == 2 {
    } else {
    }
    DivModUnique(v, p, t, a);
    DivModUnique(v, 2 * p, t / 2, (t % 2) * p + a);
  }

  /** A pointer below `P` is its own address and has neither flag bit set. */
  lemma NoCollision(w: Width, p: nat)
    requires p < Pow2(w - 2)
    ensures p < Pow2(w) && p % Pow2(w - 2) == p
    ensures p < Pow2(w - 1) && p % Pow2(w - 1) < Pow2(w - 2)
  {
    Fields(w, p, 0, p);
  }

  /** A word is its address plus the weights of the flag bits that are set. */
  lemma Packing(w: Width, v: nat)
    requires v < Pow2(w)
    ensures v == v % Pow2(w - 2)
                 + (if v >= Pow2(w - 1) then Pow2(w - 1) else 0)
                 + (if v % Pow2(w - 1) >= Pow2(w - 2) then Pow2(w - 2) else 0)
  {
    Pow2Top(w);
    var t, a := Split(w, v);
    Fields(w, v, t, a);
    if t == 0 {
    } else if t == 1 {
    } else if t == 2 {
    } else {
    }
  }

  /** `v & ADDRESS_MASK` keeps exactly the address. */
  lemma AddressOf(w: Width, v: nat, m: nat, r: nat)
    requires v < Pow2(w) && m == AddressMask(w) && r == And(v, m)
    ensures r == v % Pow2(w - 2)
    ensures r <= v
  {
    MaskValues(w);
    var t, a := Split(w, v);
    Fields(w, v, t, a);
    AndSplit(v, m, t, a, 0, Pow2(w - 2) - 1, w - 2);
    AndZero(t);
    AndLowOnes(a, w - 2);
  }

  /** `v & BOOL_ONE_MASK` is non-zero exactly when bit `w - 1` is set. */
  lemma FlagOneOf(w: Width, v: nat, m: nat, r: nat)
    requires v < Pow2(w) && m == BoolOneMask(w) && r == And(v, m)
    ensures r != 0 <==> v >= Pow2(w - 1)
  {
    MaskValues(w);
    Pow2Top(w);
    TagBitOf(w, v, m, 2, r);
  }

  /** `v & BOOL_TWO_MASK` is non-zero exactly when bit `w - 2` is set. */
  lemma FlagTwoOf(w: Width, v: nat, m: nat, r: nat)
    requires v < Pow2(w) && m == BoolTwoMask(w) && r == And(v, m)
    ensures r != 0 <==> v % Pow2(w - 1) >= Pow2(w - 2)
  {
    MaskValues(w);
    TagBitOf(w, v, m, 1, r);
  }

  /** ANDing a word with one tag bit `u * P` tests that bit. */
  lemma TagBitOf(w: Width, v: nat, m: nat, u: nat, r: nat)
    requires v < Pow2(w) && (u == 1 || u == 2) && m == u * Pow2(w - 2) && r == And(v, m)
    ensures u == 2 ==> (r != 0 <==> v >= Pow2(w - 1))
    ensures u == 1 ==> (r != 0 <==> v % Pow2(w - 1) >= Pow2(w - 2))
  {
    var t, a := Split(w, v);
    Fields(w, v, t, a);
    var t' := AndTagOnly(w, v, m, t, a, u);
    assert t' == 0 <==> r == 0;
  }

  /** `p & ENCODED_MASK` is non-zero exactly when `p` reaches into the flag bits. */
  lemma CollisionOf(w: Width, p: nat, m: nat, r: nat)
    requires p < Pow2(w) && m == EncodedMask(w) && r == And(p, m)
    ensures r != 0 <==> p >= Pow2(w - 2)
  {
    MaskValues(w);
    Pow2Top(w);
    TagOf(w, p, m, r);
  }

  /** ANDing a word with both tag bits `3 * P` leaves its tag. */
  lemma TagOf(w: Width, v: nat, m: nat, r: nat)
    requires v < Pow2(w) && m == 3 * Pow2(w - 2) && r == And(v, m)
    ensures r != 0 <==> v >= Pow2(w - 2)
  {
    var t, a := Split(w, v);
    var t' := AndTagOnly(w, v, m, t, a, 3);
    assert t' == t;
  }

  /** ORing the shifted flags into `p` keeps the address and sets each flag it carries. */
  lemma EncodeOf(w: Width, p: nat, b1: bool, b2: bool, s1: nat, s2: nat, r: nat)
    requires p < Pow2(w)
    requires s1 == Shl(w, FromBool(b1), BoolOnePosition(w))
    requires s2 == Shl(w, FromBool(b2), BoolTwoPosition(w))
    requires r == Or(Or(p, s1), s2)
    ensures r < Pow2(w)
    ensures r % Pow2(w - 2) == p % Pow2(w - 2)
    ensures r >= Pow2(w - 1) <==> b1 || p >= Pow2(w - 1)
    ensures r % Pow2(w - 1) >= Pow2(w - 2) <==> b2 || p % Pow2(w - 1) >= Pow2(w - 2)
  {
    MaskValues(w);
    Pow2Top(w);
    ShlNoOverflow(w, FromBool(b1), w - 1);
    ShlNoOverflow(w, FromBool(b2), w - 2);
    var t, a := Split(w, p);
    Fields(w, p, t, a);
    var t1 := OrTag(w, p, s1, t, a, 2 * FromBool(b1));
    var t2 := OrTag(w, Or(p, s1), s2, t1, a, FromBool(b2));
    Fields(w, r, t2, a);
  }

  /** ORing a tag-only word `u * P` into `t * P + a` ORs the tags and keeps the address. */
  lemma OrTag(w: Width, x: nat, y: nat, t: nat, a: nat, u: nat) returns (t': nat)
    requires t < 4 && u < 4 && a < Pow2(w - 2)
    requires x == t * Pow2(w - 2) + a && y == u * Pow2(w - 2)
    ensures t' == Or(t, u) && t' < 4 && Or(x, y) == t' * Pow2(w - 2) + a
    ensures t' >= 2 <==> t >= 2 || u >= 2
    ensures t' % 2 == 1 <==> t % 2 == 1 || u % 2 == 1
  {
    OrSplit(x, y, t, a, u, 0, w - 2);
    OrZero(a);
    SmallOr(t, u);
    t' := Or(t, u);
  }

  /** ANDing `t * P + a` with a mask `u * P + (P - 1)` ANDs the tags and keeps the address. */
  lemma AndTag(w: Width, x: nat, y: nat, t: nat, a: nat, u: nat) returns (t': nat)
    requires t < 4 && u < 4 && a < Pow2(w - 2)
    requires x == t * Pow2(w - 2) + a && y == u * Pow2(w - 2) + (Pow2(w - 2) - 1)
    ensures t' == And(t, u) && t' < 4 && And(x, y) == t' * Pow2(w - 2) + a
    ensures t' >= 2 <==> t >= 2 && u >= 2
    ensures t' % 2 == 1 <==> t % 2 == 1 && u % 2 == 1
  {
    AndSplit(x, y, t, a, u, Pow2(w - 2) - 1, w - 2);
    AndLowOnes(a, w - 2);
    SmallAnd(t, u);
    t' := And(t, u);
  }

  /** ANDing `t * P + a` with a tag-only mask `u * P` keeps only the ANDed tags. */
  lemma AndTagOnly(w: Width, x: nat, y: nat, t: nat, a: nat, u: nat) returns (t': nat)
    requires t < 4 && u < 4 && a < Pow2(w - 2)
    requires x == t * Pow2(w - 2) + a && y == u * Pow2(w - 2)
    ensures t' == And(t, u) && t' < 4 && And(x, y) == t' * Pow2(w - 2)
    ensures t' >= 2 <==> t >= 2 && u >= 2
    ensures t' % 2 == 1 <==> t % 2 == 1 && u % 2 == 1
  {
    AndSplit(x, y, t, a, u, 0, w - 2);
    AndZero(a);
    SmallAnd(t, u);
    t' := And(t, u);
  }

  /** `pointer | (v & ENCODED_MASK)` puts a non-colliding address under the flags of `v`. */
  lemma SetAddressOf(w: Width, v: nat, p: nat, e: nat, r: nat)
    requires v < Pow2(w) && p < Pow2(w - 2)
    requires e == EncodedMask(w) && r == Or(p, And(v, e))
    ensures r < Pow2(w)
    ensures r % Pow2(w - 2) == p
    ensures r >= Pow2(w - 1) <==> v >= Pow2(w - 1)
    ensures r % Pow2(w - 1) >= Pow2(w - 2) <==> v % Pow2(w - 1) >= Pow2(w - 2)
  {
    MaskValues(w);
    Pow2Top(w);
    var t, a := Split(w, v);
    Fields(w, v, t, a);
    var t' := AndTagOnly(w, v, e, t, a, 3);
    OrSplit(p, And(v, e), 0, p, t', 0, w - 2);
    OrZero(t');
    OrZero(p);
    Fields(w, r, t', p);
  }

  /** `v &= !BOOL_ONE_MASK; v |= (b as usize) << BOOL_ONE_POSITION` makes bit `w - 1` equal `b` and keeps the rest. */
  lemma SetFlagOneOf(w: Width, v: nat, b: bool, n: nat, s: nat, r: nat)
    requires v < Pow2(w)
    requires n == Not(w, BoolOneMask(w)) && s == Shl(w, FromBool(b), BoolOnePosition(w))
    requires r == Or(And(v, n), s)
    ensures r < Pow2(w)
    ensures r % Pow2(w - 2) == v % Pow2(w - 2)
    ensures r >= Pow2(w - 1) <==> b
    ensures r % Pow2(w - 1) >= Pow2(w - 2) <==> v % Pow2(w - 1) >= Pow2(w - 2)
  {
    MaskValues(w);
    Pow2Top(w);
    NotIsComplement(w, BoolOneMask(w));
    ShlNoOverflow(w, FromBool(b), w - 1);
    ClearAndSet(w, v, 1, n, 2 * FromBool(b), s, r);
  }

  /** `v &= !BOOL_TWO_MASK; v |= (b as usize) << BOOL_TWO_POSITION` makes bit `w - 2` equal `b` and keeps the rest. */
  lemma SetFlagTwoOf(w: Width, v: nat, b: bool, n: nat, s: nat, r: nat)
    requires v < Pow2(w)
    requires n == Not(w, BoolTwoMask(w)) && s == Shl(w, FromBool(b), BoolTwoPosition(w))
    requires r == Or(And(v, n), s)
    ensures r < Pow2(w)
    ensures r % Pow2(w - 2) == v % Pow2(w - 2)
    ensures r >= Pow2(w - 1) <==> v >= Pow2(w - 1)
    ensures r % Pow2(w - 1) >= Pow2(w - 2) <==> b
  {
    MaskValues(w);
    Pow2Top(w);
    NotIsComplement(w, BoolTwoMask(w));
    ShlNoOverflow(w, FromBool(b), w - 2);
    ClearAndSet(w, v, 2, n, FromBool(b), s, r);
  }

  /** Clearing with `k * P + (P - 1)` and then setting with `u * P` rewrites only the tag. */
  lemma ClearAndSet(w: Width, v: nat, k: nat, n: nat, u: nat, s: nat, r: nat)
    requires v < Pow2(w) && k < 4 && u < 4
    requires n == k * Pow2(w - 2) + (Pow2(w - 2) - 1) && s == u * Pow2(w - 2)
    requires r == Or(And(v, n), s)
    ensures r < Pow2(w)
    ensures r % Pow2(w - 2) == v % Pow2(w - 2)
    ensures r >= Pow2(w - 1) <==> (v >= Pow2(w - 1) && k >= 2) || u >= 2
    ensures r % Pow2(w - 1) >= Pow2(w - 2) <==> (v % Pow2(w - 1) >= Pow2(w - 2) && k % 2 == 1) || u % 2 == 1
  {
    var t, a := Split(w, v);
    Fields(w, v, t, a);
    var t1 := AndTag(w, v, n, t, a, k);
    var t2 := OrTag(w, And(v, n), s, t1, a, u);
    Fields(w, r, t2, a);
  }
}
