/**
 * Unsigned machine words as natural numbers.
 *
 * A `usize` of width `w` is a natural number below `Pow2(w)`. The bitwise
 * operators the tagged pointer is built from (`&`, `|`, `!` and `<<`) are
 * defined here one bit at a time, so that the masks and the getters and
 * setters built on them compute exactly what the Rust operators compute.
 * The lemmas relate those operators to ordinary arithmetic: splitting a word
 * at a power of two and complementing within a width.
 */
module Word {

  /** 2 raised to the power `n`. */
  function Pow2(n: nat): (r: nat)
    ensures r >= 1
  {
    if n == 0 then 1 else 2 * Pow2(n - 1)
  }

  /** Bitwise AND (`x & y`), least significant bit first. */
  function And(x: nat, y: nat): nat
    decreases x + y
  {
    if x == 0 && y == 0 then 0
    else 2 * And(x / 2, y / 2) + (if x % 2 == 1 && y % 2 == 1 then 1 else 0)
  }

  /** Bitwise OR (`x | y`), least significant bit first. */
  function Or(x: nat, y: nat): nat
    decreases x + y
  {
    if x == 0 && y == 0 then 0
    else 2 * Or(x / 2, y / 2) + (if x % 2 == 1 || y % 2 == 1 then 1 else 0)
  }

  /** Bitwise complement (`!x`) of a word of width `w`: every one of the low `w` bits is flipped. */
  function Not(w: nat, x: nat): (r: nat)
    ensures r < Pow2(w)
  {
    if w == 0 then 0 else 2 * Not(w - 1, x / 2) + (1 - x % 2)
  }

  /** Left shift (`x << n`) of a word of width `w`: bits shifted past the top are lost.
      Rust rejects a shift amount that is not below the width. */
  function Shl(w: nat, x: nat, n: nat): (r: nat)
    requires n < w
    ensures r < Pow2(w)
  {
    LowBits(Scale(x, n), w)
  }

  /** A shift that loses no bit multiplies by a power of two. */
  lemma ShlNoOverflow(w: nat, x: nat, n: nat)
    requires n < w && x * Pow2(n) < Pow2(w)
    ensures Shl(w, x, n) == x * Pow2(n)
  {
    ScaleIsProduct(x, n);
    LowBitsOfSmall(Scale(x, n), w);
  }

  /** `x` truncated to its low `k` bits. */
  function LowBits(x: nat, k: nat): (r: nat)
    ensures r < Pow2(k)
  {
    if k == 0 then 0 else 2 * LowBits(x / 2, k - 1) + x % 2
  }

  // ---------------------------------------------------------------------------
  // Arithmetic facts
  // ---------------------------------------------------------------------------

  /** Quotient and remainder are the only pair that rebuilds `x`. */
  lemma DivModUnique(x: int, d: int, q: int, r: int)
    requires d > 0 && 0 <= r < d && x == q * d + r
    ensures x / d == q && x % d == r
  {
    var q', r' := x / d, x % d;
    assert (q - q') * d == r' - r;
    if q - q' >= 1 {
      assert false;
    } else if q - q' <= -1 {
      assert false;
    }
  }

  /** The two top powers of a width of at least two bits. */
  lemma Pow2Top(w: nat)
    requires w >= 2
    ensures Pow2(w - 1) == 2 * Pow2(w - 2)
    ensures Pow2(w) == 4 * Pow2(w - 2)
  {
  }

  // ---------------------------------------------------------------------------
  // Bitwise facts
  // ---------------------------------------------------------------------------

  /** The defining step of AND holds for every pair, including (0, 0). */
  lemma AndStep(x: nat, y: nat)
    ensures And(x, y) == 2 * And(x / 2, y / 2) + (if x % 2 == 1 && y % 2 == 1 then 1 else 0)
  {
    if x == 0 && y == 0 {
      assert And(0, 0) == 0;
    }
  }

  /** The defining step of OR holds for every pair, including (0, 0). */
  lemma OrStep(x: nat, y: nat)
    ensures Or(x, y) == 2 * Or(x / 2, y / 2) + (if x % 2 == 1 || y % 2 == 1 then 1 else 0)
  {
    if x == 0 && y == 0 {
      assert Or(0, 0) == 0;
    }
  }

  /** Truncating a number that already fits in `k` bits changes nothing. */
  lemma {:induction false} LowBitsOfSmall(x: nat, k: nat)
    requires x < Pow2(k)
    ensures LowBits(x, k) == x
    decreases k
  {
    if k > 0 {
      LowBitsOfSmall(x / 2, k - 1);
    }
  }

  /** `Pow2` turns a sum of exponents into a product. */
  lemma {:induction false} Pow2Add(m: nat, n: nat)
    ensures Pow2(m + n) == Pow2(m) * Pow2(n)
    decreases n
  {
    if n > 0 {
      Pow2Add(m, n - 1);
      assert Pow2(m) * Pow2(n) == 2 * (Pow2(m) * Pow2(n - 1));
    }
  }

  /** The powers of two that the 32- and 64-bit layouts use. */
  lemma Pow2Values()
    ensures Pow2(30) == 0x4000_0000 && Pow2(31) == 0x8000_0000
    ensures Pow2(62) == 0x4000_0000_0000_0000 && Pow2(63) == 0x8000_0000_0000_0000
  {
    assert Pow2(10) == 0x400;
    Pow2Add(10, 10);
    Pow2Add(20, 10);
    Pow2Add(30, 30);
    Pow2Add(60, 2);
    assert Pow2(62) == 0x4000_0000_0000_0000;
  }

  /** Rust's `b as usize`: one for true, zero for false. */
  function FromBool(b: bool): nat
  {
    if b then 1 else 0
  }

  /** A quotient is below `n` when the dividend is below `n` times the divisor. */
  lemma QuotientBound(v: nat, p: nat, n: nat)
    requires p >= 1 && v < n * p
    ensures v / p < n
  {
  }

  /** AND of two numbers below 4, read as their two bits. */
  lemma SmallAnd(t: nat, u: nat)
    requires t < 4 && u < 4
    ensures And(t, u) < 4
    ensures And(t, u) >= 2 <==> t >= 2 && u >= 2
    ensures And(t, u) % 2 == 1 <==> t % 2 == 1 && u % 2 == 1
  {
    AndStep(t, u);
    AndStep(t / 2, u / 2);
    AndZero(0);
  }

  /** OR of two numbers below 4, read as their two bits. */
  lemma SmallOr(t: nat, u: nat)
    requires t < 4 && u < 4
    ensures Or(t, u) < 4
    ensures Or(t, u) >= 2 <==> t >= 2 || u >= 2
    ensures Or(t, u) % 2 == 1 <==> t % 2 == 1 || u % 2 == 1
  {
    OrStep(t, u);
    OrStep(t / 2, u / 2);
    OrZero(0);
  }

  /** AND with zero is zero. */
  lemma AndZero(x: nat)
    ensures And(x, 0) == 0 && And(0, x) == 0
  {
  }

  /** OR with zero is the identity. */
  lemma {:induction false} OrZero(x: nat)
    ensures Or(x, 0) == x && Or(0, x) == x
    decreases x
  {
    if x > 0 {
      OrZero(x / 2);
    }
  }

  /** Within `w` bits the complement of `x` is `2^w - 1 - x`. */
  lemma {:induction false} NotIsComplement(w: nat, x: nat)
    requires x < Pow2(w)
    ensures Not(w, x) == Pow2(w) - 1 - x
    decreases w
  {
    if w > 0 {
      NotIsComplement(w - 1, x / 2);
    }
  }

  /** AND with the mask of the low `k` bits keeps exactly a number below `2^k`. */
  lemma {:induction false} AndLowOnes(a: nat, k: nat)
    requires a < Pow2(k)
    ensures And(a, Pow2(k) - 1) == a
    decreases k
  {
    if k > 0 {
      AndLowOnes(a / 2, k - 1);
      AndStep(a, Pow2(k) - 1);
    }
  }

  /** AND works independently on the parts of two words `x` and `y` above and below bit `k`. */
  lemma AndSplit(x: nat, y: nat, h1: nat, l1: nat, h2: nat, l2: nat, k: nat)
    requires l1 < Pow2(k) && l2 < Pow2(k)
    requires x == h1 * Pow2(k) + l1 && y == h2 * Pow2(k) + l2
    ensures And(x, y) == And(h1, h2) * Pow2(k) + And(l1, l2)
  {
    ScaleIsProduct(h1, k);
    ScaleIsProduct(h2, k);
    ScaleIsProduct(And(h1, h2), k);
    AndScaled(x, y, h1, l1, h2, l2, k);
  }

  /** AndSplit with the high parts shifted by `Scale` instead of multiplied. */
  lemma {:induction false} AndScaled(x: nat, y: nat, h1: nat, l1: nat, h2: nat, l2: nat, k: nat)
    requires l1 < Pow2(k) && l2 < Pow2(k)
    requires x == Scale(h1, k) + l1 && y == Scale(h2, k) + l2
    ensures And(x, y) == Scale(And(h1, h2), k) + And(l1, l2)
    decreases k
  {
    if k == 0 {
      assert And(0, 0) == 0;
    } else {
      assert l1 / 2 < Pow2(k - 1) && l2 / 2 < Pow2(k - 1);
      assert x / 2 == Scale(h1, k - 1) + l1 / 2 && y / 2 == Scale(h2, k - 1) + l2 / 2;
      AndScaled(x / 2, y / 2, h1, l1 / 2, h2, l2 / 2, k - 1);
      AndSplitStep(x, y, l1, l2, Scale(And(h1, h2), k - 1));
    }
  }

  /** One more low bit for AndSplit: the split of the halves gives the split of the words. */
  lemma AndSplitStep(x: nat, y: nat, l1: nat, l2: nat, m: nat)
    requires x % 2 == l1 % 2 && y % 2 == l2 % 2
    requires And(x / 2, y / 2) == m + And(l1 / 2, l2 / 2)
    ensures And(x, y) == 2 * m + And(l1, l2)
  {
    AndStep(x, y);
    AndStep(l1, l2);
  }

  /** OR works independently on the parts of two words `x` and `y` above and below bit `k`. */
  lemma OrSplit(x: nat, y: nat, h1: nat, l1: nat, h2: nat, l2: nat, k: nat)
    requires l1 < Pow2(k) && l2 < Pow2(k)
    requires x == h1 * Pow2(k) + l1 && y == h2 * Pow2(k) + l2
    ensures Or(x, y) == Or(h1, h2) * Pow2(k) + Or(l1, l2)
  {
    ScaleIsProduct(h1, k);
    ScaleIsProduct(h2, k);
    ScaleIsProduct(Or(h1, h2), k);
    OrScaled(x, y, h1, l1, h2, l2, k);
  }

  /** OrSplit with the high parts shifted by `Scale` instead of multiplied. */
  lemma {:induction false} OrScaled(x: nat, y: nat, h1: nat, l1: nat, h2: nat, l2: nat, k: nat)
    requires l1 < Pow2(k) && l2 < Pow2(k)
    requires x == Scale(h1, k) + l1 && y == Scale(h2, k) + l2
    ensures Or(x, y) == Scale(Or(h1, h2), k) + Or(l1, l2)
    decreases k
  {
    if k == 0 {
      assert Or(0, 0) == 0;
    } else {
      assert l1 / 2 < Pow2(k - 1) && l2 / 2 < Pow2(k - 1);
      assert x / 2 == Scale(h1, k - 1) + l1 / 2 && y / 2 == Scale(h2, k - 1) + l2 / 2;
      OrScaled(x / 2, y / 2, h1, l1 / 2, h2, l2 / 2, k - 1);
      OrSplitStep(x, y, l1, l2, Scale(Or(h1, h2), k - 1));
    }
  }

  /** One more low bit for OrSplit: the split of the halves gives the split of the words. */
  lemma OrSplitStep(x: nat, y: nat, l1: nat, l2: nat, m: nat)
    requires x % 2 == l1 % 2 && y % 2 == l2 % 2
    requires Or(x / 2, y / 2) == m + Or(l1 / 2, l2 / 2)
    ensures Or(x, y) == 2 * m + Or(l1, l2)
  {
    OrStep(x, y);
    OrStep(l1, l2);
  }

  /** `h` moved up by `k` bit positions, written without multiplication. */
  function Scale(h: nat, k: nat): nat
  {
    if k == 0 then h else 2 * Scale(h, k - 1)
  }

  /** Moving up by `k` positions multiplies by `2^k`. */
  lemma {:induction false} ScaleIsProduct(h: nat, k: nat)
    ensures Scale(h, k) == h * Pow2(k)
  {
    if k > 0 {
      ScaleIsProduct(h, k - 1);
      assert h * Pow2(k) == 2 * (h * Pow2(k - 1));
    }
  }

  /** A word of two tag bits `3 * 2^k` and the mask of the `k` bits below it
      share no bit and together make up all `k + 2` bits. */
  lemma TopTwoAndLowMask(e: nat, a: nat, k: nat)
    requires e == 3 * Pow2(k) && a == Pow2(k) - 1
    ensures And(e, a) == 0
    ensures Or(e, a) == 4 * Pow2(k) - 1
  {
    var p := Pow2(k);
    AndSplit(e, a, 3, 0, 0, p - 1, k);
    AndZero(3);
    AndZero(p - 1);
    OrSplit(e, a, 3, 0, 0, p - 1, k);
    OrZero(3);
    OrZero(p - 1);
  }
}
