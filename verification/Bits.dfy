/** The bit macros of src/types.h and src/utils.h, as arithmetic.

    ALIGN_UP(x, a) is (x + (a - 1)) & ~(a - 1).  hv_map and mmu_map pass MASK(n) = 2^n - 1
    where 2^n is meant, so the mask clears bits n-1..1 only.
 */
module Bits {
  import opened Arith

  /** ALIGN_UP(x, p) for a power of two p. */
  function AlignUp(x: nat, p: nat): nat
    requires 0 < p
  {
    (x + p - 1) - (x + p - 1) % p
  }

  function AlignDown(x: nat, p: nat): nat
    requires 0 < p
  {
    x - x % p
  }

  predicate Aligned(x: nat, p: nat)
    requires 0 < p
  {
    x % p == 0
  }

  /** ALIGN_UP(x, MASK(n)) with p = 2^n: bit 0 survives. */
  function AlignUpMask(x: nat, p: nat): nat
    requires 2 <= p
  {
    var y := x + p - 2;
    y - y % p + y % 2
  }

  /** ALIGN_DOWN(x, MASK(n)). */
  function AlignDownMask(x: nat, p: nat): nat
    requires 2 <= p
  {
    x - x % p + x % 2
  }

  lemma AlignUpIs(x: nat, p: nat)
    requires 0 < p
    ensures AlignUp(x, p) % p == 0 && x <= AlignUp(x, p) < x + p
    ensures x % p == 0 ==> AlignUp(x, p) == x
  {
    DivModIs(AlignUp(x, p), p, (x + p - 1) / p, 0);
    if x % p == 0 { AddSmall(x, p, p - 1); }
  }

  /** On even numbers the wrong argument does no harm: the result is the 2^n boundary. */
  lemma AlignUpMaskIs(x: nat, p: nat)
    requires x % 2 == 0 && p % 2 == 0 && 2 <= p
    ensures AlignUpMask(x, p) == AlignUp(x, p)
  {
    var y := x + p - 2;
    AddMultiple(x, 2, (p - 2) / 2);
    assert y % 2 == 0;
    Nested(y, 2, p / 2);
    AddSmall(y, p, 1);
  }

  lemma AlignDownMaskIs(x: nat, p: nat)
    requires x % 2 == 0 && 2 <= p
    ensures AlignDownMask(x, p) == AlignDown(x, p)
  {
  }

  /** On odd numbers it is not: ALIGN_UP(1, MASK(25)) is 1. */
  lemma AlignUpMaskOdd()
    ensures AlignUpMask(1, 0x200_0000) == 1
  {
  }

  // ---- Bitwise operations on numbers, bit by bit ----

  function BitOr(x: nat, y: nat): nat
    decreases x + y
  {
    if x == 0 && y == 0 then 0
    else 2 * BitOr(x / 2, y / 2) + if x % 2 == 1 || y % 2 == 1 then 1 else 0
  }

  function BitAnd(x: nat, y: nat): nat {
    if x == 0 then 0 else 2 * BitAnd(x / 2, y / 2) + if x % 2 == 1 && y % 2 == 1 then 1 else 0
  }

  /** x & ~y */
  function BitClear(x: nat, y: nat): nat {
    if x == 0 then 0 else 2 * BitClear(x / 2, y / 2) + if x % 2 == 1 && y % 2 == 0 then 1 else 0
  }

  function TwoTo(k: nat): (p: nat)
    ensures p > 0
  {
    if k == 0 then 1 else 2 * TwoTo(k - 1)
  }

  /** Bit k of a number is bit k - 1 of its half. */
  lemma HalfBit(x: nat, k: nat)
    requires k > 0
    ensures x / TwoTo(k) % 2 == x / 2 / TwoTo(k - 1) % 2
  {
    Nested(x, 2, TwoTo(k - 1));
  }

  /** Bit k of x | y, of x & y and of x & ~y. */
  lemma {:induction false} BitsAre(x: nat, y: nat, k: nat)
    ensures var a, b := x / TwoTo(k) % 2 == 1, y / TwoTo(k) % 2 == 1;
            && (BitOr(x, y) / TwoTo(k) % 2 == 1 <==> a || b)
            && (BitAnd(x, y) / TwoTo(k) % 2 == 1 <==> a && b)
            && (BitClear(x, y) / TwoTo(k) % 2 == 1 <==> a && !b)
    decreases k
  {
    var o, n, c := BitOr(x, y), BitAnd(x, y), BitClear(x, y);
    HalvesAre(x, y);
    if k > 0 {
      HalfBit(x, k);
      HalfBit(y, k);
      HalfBit(o, k);
      HalfBit(n, k);
      HalfBit(c, k);
      BitsAre(x / 2, y / 2, k - 1);
    }
    hide BitOr, BitAnd, BitClear;
  }

  lemma HalvesAre(x: nat, y: nat)
    ensures BitOr(x, y) / 2 == BitOr(x / 2, y / 2) && (BitOr(x, y) % 2 == 1 <==> x % 2 == 1 || y % 2 == 1)
    ensures BitAnd(x, y) / 2 == BitAnd(x / 2, y / 2) && (BitAnd(x, y) % 2 == 1 <==> x % 2 == 1 && y % 2 == 1)
    ensures BitClear(x, y) / 2 == BitClear(x / 2, y / 2) && (BitClear(x, y) % 2 == 1 <==> x % 2 == 1 && y % 2 == 0)
  {
  }

  /** Without a common bit, or is a sum. */
  lemma {:induction false} DisjointSum(x: nat, y: nat)
    requires BitAnd(x, y) == 0
    ensures BitOr(x, y) == x + y
    decreases x + y
  {
    if x != 0 || y != 0 {
      if x == 0 { assert BitAnd(x / 2, y / 2) == 0; }
      DisjointSum(x / 2, y / 2);
    }
  }

  /** Setting bits that were clear and clearing them again gives the number back. */
  lemma {:induction false} SetAndClear(x: nat, y: nat)
    requires BitAnd(x, y) == 0
    ensures BitClear(BitOr(x, y), y) == x
    decreases x + y
  {
    if x != 0 || y != 0 {
      if x == 0 { assert BitAnd(x / 2, y / 2) == 0; }
      SetAndClear(x / 2, y / 2);
      var o := BitOr(x, y);
      DivModIs(o, 2, BitOr(x / 2, y / 2), if x % 2 == 1 || y % 2 == 1 then 1 else 0);
    }
  }

  lemma AlignUpMaskOf(x: nat, p: nat)
    requires x % 2 == 0 && p % 2 == 0 && 2 <= p
    ensures AlignUpMask(x, p) == (x + (p - 1)) / p * p
  {
    AlignUpMaskIs(x, p);
    Whole(x + (p - 1), p);
  }

  // ---- The arithmetic readings against the machine operations ----

  lemma AlignUpMaskBits(x: bv64)
    requires x < 0xFFFF_FFFF_0000_0000
    ensures var a: bv64 := 0x1FF_FFFF;
            var y: bv64 := x + 0x1FF_FFFE;
            (x + (a - 1)) & !(a - 1) == y - y % 0x200_0000 + y % 2
  {
    assert 0x1FF_FFFF - 1 == 0x1FF_FFFE as bv64;
    MaskedTo(x + 0x1FF_FFFE);
  }

  lemma MaskedTo(y: bv64)
    ensures y & !0x1FF_FFFE == y - y % 0x200_0000 + y % 2
  {
    LowPart(y);
    LowBit(y);
  }

  lemma LowPart(y: bv64)
    ensures y - y % 0x200_0000 == y & !0x1FF_FFFF && y % 2 == y & 1
  {
  }

  lemma LowBit(y: bv64)
    ensures (y & !0x1FF_FFFF) + (y & 1) == y & !0x1FF_FFFE
  {
  }

  /** PTE_TARGET_MASK = GENMASK(49, 14). */
  lemma TargetMaskBits(d: bv64)
    ensures d & 0x3_FFFF_FFFF_C000 == d % 0x4_0000_0000_0000 - d % 0x4000
  {
  }

  lemma OrIsSum(x: bv64, y: bv64)
    requires x & y == 0
    ensures x | y == x + y
  {
  }

  /** Clearing PTE_TYPE and putting it back as PTE_PAGE, on a word whose type bit is clear. */
  lemma TypeBits(d: bv64)
    requires d & 2 == 0
    ensures (d & !2) | 2 == d + 2
  {
    assert d & !2 == d;
    OrIsSum(d, 2);
  }

  /** FIELD_GET(SPTE_TYPE, d), the field GENMASK(52, 50). */
  lemma SpteTypeBits(d: bv64)
    ensures (d & 0x1C_0000_0000_0000) / 0x4_0000_0000_0000 == d / 0x4_0000_0000_0000 % 8
  {
  }

  /** The offset bits of an address within a block, VADDR_L2_ALIGN_MASK | VADDR_L3_ALIGN_MASK. */
  lemma BlockOffsetBits(a: bv64)
    ensures a & 0x1FF_FFFC == a % 0x200_0000 - a % 4
  {
  }

  /** hv_pt_walk on a HW block: clear GENMASK(13, 2) and or in the offset.  Blocks are aligned, so
      the bits are disjoint and the or is a sum. */
  lemma HwBlockBits(d: bv64, a: bv64)
    requires d & 0x1FF_C000 == 0
    ensures (d & !0x3FFC) | (a & 0x1FF_FFFC) == (d & !0x3FFC) + (a % 0x200_0000 - a % 4)
  {
    BlockOffsetBits(a);
    OrIsSum(d & !0x3FFC, a & 0x1FF_FFFC);
  }
}
