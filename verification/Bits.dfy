/** 32-bit words as the C compiler sees them, and the bit-slicing macros of
    nnt_pci_conf_access_defs.h. The operators `&`, `|`, `~`, `<<` and `>>` are defined on
    naturals by recursion on the binary digits; `Bit` observes one digit. */
module Bits {

  const WORD_LIMIT := 0x1_0000_0000

  type U32 = x: int | 0 <= x < WORD_LIMIT

  function Pow2(n: nat): (p: nat)
    ensures p > 0
  {
    if n == 0 then 1 else 2 * Pow2(n - 1)
  }

  lemma WordSize()
    ensures Pow2(32) == WORD_LIMIT
  {
    assert Pow2(8) == 256;
    assert Pow2(16) == 0x1_0000;
    assert Pow2(24) == 0x100_0000;
  }

  /** Digit `i` of `x`. */
  predicate Bit(x: nat, i: nat) {
    if i == 0 then x % 2 == 1 else Bit(x / 2, i - 1)
  }

  function And(x: nat, y: nat): nat {
    if x == 0 || y == 0 then 0
    else 2 * And(x / 2, y / 2) + (if x % 2 == 1 && y % 2 == 1 then 1 else 0)
  }

  function Or(x: nat, y: nat): nat
    decreases x + y
  {
    if x == 0 then y
    else if y == 0 then x
    else 2 * Or(x / 2, y / 2) + (if x % 2 == 1 || y % 2 == 1 then 1 else 0)
  }

  function Not32(x: U32): U32 {
    WORD_LIMIT - 1 - x
  }

  function ShiftLeft(x: nat, n: nat): nat {
    if n == 0 then x else 2 * ShiftLeft(x, n - 1)
  }

  function Shl32(x: nat, n: nat): U32 {
    ShiftLeft(x, n) % WORD_LIMIT
  }

  function Shr(x: nat, n: nat): nat {
    if n == 0 then x else Shr(x / 2, n - 1)
  }

  // The macros ONES32, MASK32, EXTRACT and MERGE.

  function Ones32(size: nat): nat
    requires size <= 32
  {
    if size != 0 then Shr(WORD_LIMIT - 1, 32 - size) else 0
  }

  function Mask32(offset: nat, size: nat): U32
    requires size <= 32
  {
    Shl32(Ones32(size), offset)
  }

  function Extract(src: U32, start: nat, len: nat): nat
    requires len <= 32
  {
    if len == 32 then src else And(Shr(src, start), Ones32(len))
  }

  function Merge(rsrc1: U32, rsrc2: U32, start: nat, len: nat): nat
    requires len <= 32
  {
    if len == 32 then rsrc2
    else Or(And(Shl32(rsrc2, start), Mask32(start, len)), And(rsrc1, Not32(Mask32(start, len))))
  }

  // ------------------------------------------------------------------
  // What each operator does to each digit.

  lemma {:induction false} BitZero(i: nat)
    ensures !Bit(0, i)
  {
    if i > 0 { BitZero(i - 1); }
  }

  lemma {:induction false} BitAnd(x: nat, y: nat, i: nat)
    ensures Bit(And(x, y), i) <==> Bit(x, i) && Bit(y, i)
  {
    BitZero(i);
    if x != 0 && y != 0 && i > 0 {
      BitAnd(x / 2, y / 2, i - 1);
    }
  }

  lemma {:induction false} BitOr(x: nat, y: nat, i: nat)
    ensures Bit(Or(x, y), i) <==> Bit(x, i) || Bit(y, i)
  {
    BitZero(i);
    if x != 0 && y != 0 && i > 0 {
      BitOr(x / 2, y / 2, i - 1);
    }
  }

  lemma {:induction false} BitComplement(x: nat, w: nat, i: nat)
    requires x < Pow2(w) && i < w
    ensures Bit(Pow2(w) - 1 - x, i) <==> !Bit(x, i)
  {
    var c := Pow2(w) - 1 - x;
    assert c == 2 * Pow2(w - 1) - 1 - x;
    if i > 0 {
      assert c / 2 == Pow2(w - 1) - 1 - x / 2;
      BitComplement(x / 2, w - 1, i - 1);
    }
  }

  lemma BitNot32(x: U32, i: nat)
    requires i < 32
    ensures Bit(Not32(x), i) <==> !Bit(x, i)
  {
    WordSize();
    BitComplement(x, 32, i);
  }

  lemma {:induction false} BitShiftLeft(x: nat, n: nat, i: nat)
    ensures Bit(ShiftLeft(x, n), i) <==> i >= n && Bit(x, i - n)
  {
    if n > 0 && i > 0 {
      BitShiftLeft(x, n - 1, i - 1);
    }
  }

  lemma {:induction false} BitModulo(x: nat, w: nat, i: nat)
    ensures Bit(x % Pow2(w), i) <==> i < w && Bit(x, i)
  {
    if w == 0 {
      BitZero(i);
    } else {
      var p := Pow2(w - 1);
      ModuloHalves(x, p);
      var rest := x / 2 % p;
      assert x % Pow2(w) == 2 * rest + x % 2;
      assert (2 * rest + x % 2) / 2 == rest;
      if i > 0 { BitModulo(x / 2, w - 1, i - 1); }
    }
  }

  lemma ModuloHalves(x: nat, p: nat)
    requires p > 0
    ensures x % (2 * p) == 2 * (x / 2 % p) + x % 2
    ensures x / (2 * p) == x / 2 / p
  {
    var q := x / 2 / p;
    var r := x / 2 % p;
    assert x / 2 == p * q + r;
    assert x == (2 * p) * q + (2 * r + x % 2) by {
      assert (2 * p) * q == 2 * (p * q);
    }
    ModuloUnique(x, 2 * p, q, 2 * r + x % 2);
  }

  lemma MultipleSize(d: int, k: int)
    requires d >= 0
    ensures k >= 0 ==> d * k >= 0
    ensures k >= 1 ==> d * k >= d
    ensures k <= -1 ==> d * k <= -d
  {
    if k >= 1 {
      assert d * k == d + d * (k - 1);
    } else if k <= -1 {
      assert d * k == -d + d * (k + 1);
    }
  }

  lemma ModuloUnique(x: nat, d: nat, q: nat, r: nat)
    requires d > 0 && r < d && x == d * q + r
    ensures x % d == r && x / d == q
  {
    assert x == d * (x / d) + x % d;
    assert d * (q - x / d) == x % d - r;
    MultipleSize(d, q - x / d);
  }

  lemma BitShl32(x: nat, n: nat, i: nat)
    ensures Bit(Shl32(x, n), i) <==> n <= i < 32 && Bit(x, i - n)
  {
    WordSize();
    BitModulo(ShiftLeft(x, n), 32, i);
    BitShiftLeft(x, n, i);
  }

  lemma {:induction false} BitShr(x: nat, n: nat, i: nat)
    ensures Bit(Shr(x, n), i) <==> Bit(x, i + n)
  {
    if n > 0 { BitShr(x / 2, n - 1, i); }
  }

  lemma {:induction false} HighBitsClear(x: nat, w: nat, i: nat)
    requires x < Pow2(w) && i >= w
    ensures !Bit(x, i)
  {
    if w == 0 { BitZero(i); } else { HighBitsClear(x / 2, w - 1, i - 1); }
  }

  lemma BitOnes32(size: nat, i: nat)
    requires size <= 32
    ensures Bit(Ones32(size), i) <==> i < size
  {
    if size == 0 {
      BitZero(i);
    } else {
      WordSize();
      BitShr(WORD_LIMIT - 1, 32 - size, i);
      if i + (32 - size) < 32 {
        BitZero(i + (32 - size));
        BitComplement(0, 32, i + (32 - size));
      } else {
        HighBitsClear(WORD_LIMIT - 1, 32, i + (32 - size));
      }
    }
  }

  /** Two naturals with the same digits are equal. */
  lemma {:induction false} SameBits(x: nat, y: nat)
    requires forall i: nat :: Bit(x, i) <==> Bit(y, i)
    ensures x == y
    decreases x + y
  {
    assert Bit(x, 0) <==> Bit(y, 0);
    if x != 0 || y != 0 {
      forall i: nat ensures Bit(x / 2, i) <==> Bit(y / 2, i) {
        assert Bit(x, i + 1) <==> Bit(y, i + 1);
      }
      SameBits(x / 2, y / 2);
    }
  }

  /** An EXTRACT reads the digits of its slice. */
  lemma BitExtract(src: U32, start: nat, len: nat, i: nat)
    requires start + len <= 32
    ensures Bit(Extract(src, start, len), i) <==> i < len && Bit(src, start + i)
  {
    if len == 32 {
      WordSize();
      if i >= 32 { HighBitsClear(src, 32, i); }
    } else {
      BitAnd(Shr(src, start), Ones32(len), i);
      BitShr(src, start, i);
      BitOnes32(len, i);
    }
  }

  /** A MERGE takes the slice from its second word and everything else from its first. */
  lemma BitMerge(a: U32, b: U32, start: nat, len: nat, i: nat)
    requires start + len <= 32
    ensures Bit(Merge(a, b, start, len), i) <==>
            if start <= i < start + len then Bit(b, i - start) else Bit(a, i)
  {
    WordSize();
    if i >= 32 { HighBitsClear(a, 32, i); HighBitsClear(b, 32, i); }
    if len != 32 {
      var m := Mask32(start, len);
      BitOr(And(Shl32(b, start), m), And(a, Not32(m)), i);
      BitAnd(Shl32(b, start), m, i);
      BitAnd(a, Not32(m), i);
      BitShl32(b, start, i);
      BitShl32(Ones32(len), start, i);
      if i >= start { BitOnes32(len, i - start); }
      if i < 32 { BitNot32(m, i); }
    }
  }

  lemma {:induction false} BoundedByBits(x: nat, w: nat)
    requires forall i: nat :: i >= w ==> !Bit(x, i)
    ensures x < Pow2(w)
    decreases w
  {
    if w == 0 {
      forall i: nat ensures Bit(x, i) <==> Bit(0, i) { BitZero(i); }
      SameBits(x, 0);
    } else {
      forall i: nat | i >= w - 1 ensures !Bit(x / 2, i) {
        assert !Bit(x, i + 1);
      }
      BoundedByBits(x / 2, w - 1);
    }
  }

  lemma MergeIsWord(a: U32, b: U32, start: nat, len: nat)
    requires start + len <= 32
    ensures Merge(a, b, start, len) < WORD_LIMIT
  {
    WordSize();
    forall i: nat | i >= 32 ensures !Bit(Merge(a, b, start, len), i) {
      BitMerge(a, b, start, len, i);
      HighBitsClear(a, 32, i);
    }
    BoundedByBits(Merge(a, b, start, len), 32);
  }

  // ------------------------------------------------------------------
  // The laws the macros exist for.

  /** What was merged into a slice is what is extracted from it, cut to the slice's width. */
  lemma ExtractOfMerge(a: U32, b: U32, start: nat, len: nat)
    requires start + len <= 32
    ensures Merge(a, b, start, len) < WORD_LIMIT
    ensures Extract(Merge(a, b, start, len), start, len) == b % Pow2(len)
  {
    MergeIsWord(a, b, start, len);
    var m := Merge(a, b, start, len);
    forall i: nat ensures Bit(Extract(m, start, len), i) <==> Bit(b % Pow2(len), i) {
      BitExtract(m, start, len, i);
      BitMerge(a, b, start, len, start + i);
      BitModulo(b, len, i);
    }
    SameBits(Extract(m, start, len), b % Pow2(len));
  }

  /** A slice that does not meet the merged one reads the same before and after. */
  lemma ExtractOutsideMerge(a: U32, b: U32, start: nat, len: nat, s: nat, l: nat)
    requires start + len <= 32 && s + l <= 32
    requires s + l <= start || start + len <= s
    ensures Merge(a, b, start, len) < WORD_LIMIT
    ensures Extract(Merge(a, b, start, len), s, l) == Extract(a, s, l)
  {
    MergeIsWord(a, b, start, len);
    var m := Merge(a, b, start, len);
    forall i: nat ensures Bit(Extract(m, s, l), i) <==> Bit(Extract(a, s, l), i) {
      BitExtract(m, s, l, i);
      BitExtract(a, s, l, i);
      BitMerge(a, b, start, len, s + i);
    }
    SameBits(Extract(m, s, l), Extract(a, s, l));
  }

  /** Merges into slices that do not meet may be done in either order. */
  lemma DisjointMergesCommute(a: U32, b: U32, start: nat, len: nat, c: U32, s: nat, l: nat)
    requires start + len <= 32 && s + l <= 32
    requires s + l <= start || start + len <= s
    ensures Merge(a, b, start, len) < WORD_LIMIT && Merge(a, c, s, l) < WORD_LIMIT
    ensures Merge(Merge(a, b, start, len), c, s, l) == Merge(Merge(a, c, s, l), b, start, len)
  {
    MergeIsWord(a, b, start, len);
    MergeIsWord(a, c, s, l);
    var left := Merge(Merge(a, b, start, len), c, s, l);
    var right := Merge(Merge(a, c, s, l), b, start, len);
    forall i: nat ensures Bit(left, i) <==> Bit(right, i) {
      BitMerge(Merge(a, b, start, len), c, s, l, i);
      BitMerge(a, b, start, len, i);
      BitMerge(Merge(a, c, s, l), b, start, len, i);
      BitMerge(a, c, s, l, i);
    }
    SameBits(left, right);
  }

  /** Of two merges into one slice the last one counts. */
  lemma LastMergeWins(a: U32, b: U32, c: U32, start: nat, len: nat)
    requires start + len <= 32
    ensures Merge(a, b, start, len) < WORD_LIMIT
    ensures Merge(Merge(a, b, start, len), c, start, len) == Merge(a, c, start, len)
  {
    MergeIsWord(a, b, start, len);
    var left := Merge(Merge(a, b, start, len), c, start, len);
    var right := Merge(a, c, start, len);
    forall i: nat ensures Bit(left, i) <==> Bit(right, i) {
      BitMerge(Merge(a, b, start, len), c, start, len, i);
      BitMerge(a, b, start, len, i);
      BitMerge(a, c, start, len, i);
    }
    SameBits(left, right);
  }

  lemma {:induction false} ShrDivides(x: nat, n: nat)
    ensures Shr(x, n) == x / Pow2(n)
  {
    if n > 0 {
      ShrDivides(x / 2, n - 1);
      ModuloHalves(x, Pow2(n - 1));
    }
  }

  /** EXTRACT in arithmetic: shift down, then cut to the width. */
  lemma ExtractArithmetic(src: U32, start: nat, len: nat)
    requires start + len <= 32
    ensures Extract(src, start, len) == src / Pow2(start) % Pow2(len)
  {
    ShrDivides(src, start);
    forall i: nat ensures Bit(Extract(src, start, len), i) <==> Bit(Shr(src, start) % Pow2(len), i) {
      BitExtract(src, start, len, i);
      BitModulo(Shr(src, start), len, i);
      BitShr(src, start, i);
    }
    SameBits(Extract(src, start, len), Shr(src, start) % Pow2(len));
  }

  /** A MERGE into the top of a word, in arithmetic. */
  lemma TopMergeArithmetic(a: U32, b: U32, start: nat, len: nat)
    requires start + len == 32
    ensures Merge(a, b, start, len) == b % Pow2(len) * Pow2(start) + a % Pow2(start)
  {
    hide *;
    ExtractOfMerge(a, b, start, len);
    ExtractOutsideMerge(a, b, start, len, 0, start);
    var m := Merge(a, b, start, len);
    ExtractArithmetic(m, start, len);
    ExtractArithmetic(m, 0, start);
    ExtractArithmetic(a, 0, start);
    ProductOfPowers(start, len);
    WordSize();
    DivideByOne(m);
    DivideByOne(a);
    Recompose(m, Pow2(start), Pow2(len), b % Pow2(len), a % Pow2(start));
  }

  lemma DivideByOne(x: nat)
    ensures x / Pow2(0) == x
  {
  }

  lemma Recompose(m: nat, p: nat, q: nat, high: nat, low: nat)
    requires p > 0 && q > 0 && m < p * q
    requires m / p % q == high && m % p == low
    ensures m == high * p + low
  {
    assert m == p * (m / p) + m % p;
    QuotientBound(m, p, q);
    ModuloUnique(m / p, q, 0, m / p);
  }

  lemma {:induction false} ProductOfPowers(a: nat, b: nat)
    ensures Pow2(a) * Pow2(b) == Pow2(a + b)
  {
    if a > 0 {
      ProductOfPowers(a - 1, b);
      assert Pow2(a) * Pow2(b) == 2 * (Pow2(a - 1) * Pow2(b));
    }
  }

  lemma QuotientBound(x: nat, p: nat, q: nat)
    requires p > 0 && x < p * q
    ensures x / p < q
  {
    assert x == p * (x / p) + x % p;
    assert p * (x / p - q) == p * (x / p) - p * q;
    MultipleSize(p, x / p - q);
  }

  lemma OrIsWord(x: U32, y: U32)
    ensures Or(x, y) < WORD_LIMIT
  {
    WordSize();
    forall i: nat | i >= 32 ensures !Bit(Or(x, y), i) {
      BitOr(x, y, i);
      HighBitsClear(x, 32, i);
      HighBitsClear(y, 32, i);
    }
    BoundedByBits(Or(x, y), 32);
  }

  lemma BitOne(i: nat)
    ensures Bit(1, i) <==> i == 0
  {
    if i > 0 { BitZero(i - 1); }
  }

  /** `x |= flag << k` sets digit `k` if the flag is 1, and nothing else. */
  lemma OrShiftedFlag(x: U32, flag: nat, k: nat, i: nat)
    requires flag < 2 && k < 32
    ensures Bit(Or(x, Shl32(flag, k)), i) <==> Bit(x, i) || (flag == 1 && i == k)
  {
    BitOr(x, Shl32(flag, k), i);
    BitShl32(flag, k, i);
    if k <= i {
      BitZero(i - k);
      BitOne(i - k);
    }
  }

  /** `x & (1 << k)` is nonzero exactly when digit `k` is set. */
  lemma AndTestsBit(x: U32, k: nat)
    requires k < 32
    ensures And(x, Shl32(1, k)) != 0 <==> Bit(x, k)
  {
    BitAnd(x, Shl32(1, k), k);
    BitShl32(1, k, k);
    BitZero(k);
    if !Bit(x, k) {
      forall i: nat ensures Bit(And(x, Shl32(1, k)), i) <==> Bit(0, i) {
        BitAnd(x, Shl32(1, k), i);
        BitShl32(1, k, i);
        BitZero(i);
        if k <= i { BitOne(i - k); }
      }
      SameBits(And(x, Shl32(1, k)), 0);
    }
  }

  /** `x & (2^l - 1)` is the remainder by 2^l. */
  lemma AndOnes(x: nat, len: nat)
    requires len <= 32
    ensures And(x, Ones32(len)) == x % Pow2(len)
  {
    forall i: nat ensures Bit(And(x, Ones32(len)), i) <==> Bit(x % Pow2(len), i) {
      BitAnd(x, Ones32(len), i);
      BitOnes32(len, i);
      BitModulo(x, len, i);
    }
    SameBits(And(x, Ones32(len)), x % Pow2(len));
  }

  /** A digit in arithmetic. */
  lemma BitArithmetic(x: nat, i: nat)
    ensures Bit(x, i) <==> x / Pow2(i) % 2 == 1
  {
    BitShr(x, i, 0);
    ShrDivides(x, i);
  }

  /** A power of two is or-ed onto anything below it by addition. */
  lemma {:induction false} OrOntoLower(k: nat, low: nat)
    requires low < Pow2(k)
    ensures Or(Pow2(k), low) == Pow2(k) + low
  {
    if k > 0 && low > 0 {
      OrOntoLower(k - 1, low / 2);
    }
  }

  lemma {:induction false} ShiftLeftMultiplies(x: nat, n: nat)
    ensures ShiftLeft(x, n) == x * Pow2(n)
  {
    if n > 0 { ShiftLeftMultiplies(x, n - 1); }
  }
}
