/** Stage-2 descriptor words of the hypervisor (src/hv_vm.c).

    A descriptor is a 64-bit word, written as a `nat`.  Masking with a contiguous
    GENMASK(m, l) is `x % 2^(m+1) - x % 2^l`, reading a field is a division and a
    remainder; the module `Bits` proves these readings against `bv64`.

      bit  0        PTE_VALID          1 = hardware (HW), 0 = software (SW)
      bit  1        PTE_TYPE           block (0) / table, page (1)
      bits 13..2    lower attributes of a HW leaf
      bits 49..14   target of a HW leaf; bits 49..2 are the target of a SW leaf
      bits 52..50   SPTE_TYPE of a SW leaf (0 = SPTE_MAP, others are hooks)
      bits 63..53   trace flags / upper attributes
 */
module HvDescriptors {
  import opened Arith

  function Type(d: nat): nat { if d % 4 >= 2 then 1 else 0 }

  predicate IsHw(d: nat) { d % 2 == 1 }

  predicate IsSw(d: nat) { d != 0 && d % 2 == 0 }

  function SpteType(d: nat): nat { (d / 0x4_0000_0000_0000) % 8 }

  predicate IsSwMap(d: nat) { IsSw(d) && SpteType(d) == 0 }

  /** The descriptor with its PTE_TYPE bit cleared. */
  function NoType(d: nat): nat { if d % 4 >= 2 then d - 2 else d }

  function WithType(d: nat, t: nat): nat { NoType(d) + 2 * t }

  /** d & PTE_TARGET_MASK. */
  function Target(d: nat): nat { d % 0x4_0000_0000_0000 - d % 0x4000 }

  /** The byte address rounded down to its 32-bit word, which is what the walk looks at. */
  function Word(a: nat): nat { a - a % 4 }

  /** What a leaf descriptor `d` means for the word at offset `off` of the region it maps,
      leaving out the PTE_TYPE bit.  HW leaves advance by pages and keep their attributes,
      SPTE_MAP leaves advance by words, hooks are the same everywhere. */
  function Eff(d: nat, off: nat): nat {
    if d == 0 then 0
    else if IsHw(d) then NoType(d) + off - off % 0x4000
    else if SpteType(d) == 0 then NoType(d) + off
    else NoType(d)
  }

  /** What remains of a HW word at offset `off` of its page after the page was split into words: a plain SPTE_MAP of the
      same address without attributes, except that a page at physical address 0 is lost. */
  function Demoted(v: nat, off: nat): nat {
    if Target(v) == 0 then 0 else Target(v) + off
  }

  // Which leaf words can stand at each level.

  predicate L2Ok(d: nat) {
    d == 0 ||
    (&& Type(d) == 0
     && (IsHw(d) ==> Target(d) % 0x200_0000 == 0)
     && (IsSwMap(d) ==> d % 0x4_0000_0000_0000 + 0x200_0000 <= 0x4_0000_0000_0000))
  }

  predicate L3Ok(d: nat) {
    d == 0 ||
    (if IsHw(d) then Type(d) == 1
     else Type(d) == 0 && (IsSwMap(d) ==> d % 0x4_0000_0000_0000 + 0x4000 <= 0x4_0000_0000_0000))
  }

  predicate L4Ok(d: nat) {
    d == 0 || (IsSw(d) && Type(d) == 1 && d > 2)
  }

  /** The `to` and `incr` arguments that hv_map's callers pass: incr is 1 for HW and SPTE_MAP
      targets and 0 for hooks and for unmapping, the type bit is clear, and the target
      does not run past bit 49 within the range. */
  predicate TargetOk(to: nat, incr: nat, size: nat) {
    && Type(to) == 0
    && incr == (if IsHw(to) || IsSwMap(to) then 1 else 0)
    && (IsHw(to) ==> Target(to) + size <= 0x4_0000_0000_0000)
    && (IsSwMap(to) ==> to % 0x4_0000_0000_0000 + size <= 0x4_0000_0000_0000)
  }

  /** (to & VADDR_L2_ALIGN_MASK) == 0. */
  predicate BlockTarget(to: nat) { to % 0x200_0000 == to % 0x4000 }

  /** to + incr * n, for the increments 0 and 1 that are in use. */
  function Adv(to: nat, incr: nat, n: nat): nat { if incr == 1 then to + n else to }

  // Entry `k` of the tables that replace a leaf.

  /** The step between neighbouring entries when an L2 leaf is split (hv_pt_get_l3). */
  function L3Incr(d: nat): nat { if IsHw(d) || IsSwMap(d) then 0x4000 else 0 }

  function L3First(d: nat): nat { if IsHw(d) then WithType(d, 1) else d }

  /** A HW page loses everything but its target before it is split (hv_pt_get_l4). */
  function L4Source(d: nat): nat { if IsHw(d) then Target(d) else d }

  function L4Incr(d: nat): nat { if L4Source(d) != 0 && SpteType(L4Source(d)) == 0 then 4 else 0 }

  function L4First(d: nat): nat { if L4Source(d) == 0 then 0 else WithType(L4Source(d), 1) }

  // Adding below a field leaves the field alone.

  lemma KeepsField(d: nat, n: nat)
    requires d % 0x4_0000_0000_0000 + n < 0x4_0000_0000_0000
    ensures SpteType(d + n) == SpteType(d)
    ensures (d + n) % 0x4_0000_0000_0000 == d % 0x4_0000_0000_0000 + n
  {
    AddSmall(d, 0x4_0000_0000_0000, n);
  }

  lemma KeepsLowBits(d: nat, n: nat)
    requires n % 4 == 0
    ensures (d + n) % 4 == d % 4 && (d + n) % 2 == d % 2
    ensures NoType(d + n) == NoType(d) + n && Type(d + n) == Type(d)
  {
    var k := n / 4;
    assert n == k * 4 && n == 2 * k * 2;
    AddMultiple(d, 4, k);
    AddMultiple(d, 2, 2 * k);
  }

  /** Setting the type bit touches nothing else. */
  lemma TypeBit(d: nat, t: nat)
    requires t < 2 && Type(d) == 0
    ensures WithType(d, t) == d + 2 * t && NoType(WithType(d, t)) == d && Type(WithType(d, t)) == t
    ensures WithType(d, t) % 2 == d % 2
    ensures SpteType(WithType(d, t)) == SpteType(d)
  {
    hide SpteType;
    RoomForType(d);
    KeepsField(d, 2 * t);
    DivModIs(d + 2 * t, 4, d / 4, d % 4 + 2 * t);
    DivModIs(d + 2 * t, 2, d / 2 + t, d % 2);
  }

  lemma RoomForType(d: nat)
    requires d % 4 < 2
    ensures d % 0x4_0000_0000_0000 + 2 < 0x4_0000_0000_0000
  {
    Nested(d, 4, 0x1_0000_0000_0000);
  }

  lemma AddPages(off: nat, n: nat)
    requires n % 0x4000 == 0
    ensures (n + off) % 0x4000 == off % 0x4000 && n % 4 == 0
  {
    AddMultiple(off, 0x4000, n / 0x4000);
    Nested(n, 4, 0x1000);
  }

  lemma EffHw(d: nat, off: nat)
    requires IsHw(d)
    ensures Eff(d, off) == NoType(d) + off - off % 0x4000
  {
  }

  lemma PageMultiple(k: nat, off: nat)
    requires off < 0x4000
    ensures (k * 0x4000 + off) % 0x4000 == off && (k * 0x4000) % 4 == 0
  {
    DivModIs(k * 0x4000 + off, 0x4000, k, off);
    DivModIs(k * 0x4000, 4, k * 0x1000, 0);
  }

  /** Splitting an L2 block keeps the meaning of every word below it. */
  lemma SplitL2(d: nat, k: nat, off: nat)
    requires L2Ok(d) && k < 2048 && off < 0x4000 && off % 4 == 0
    ensures var e := L3First(d) + k * L3Incr(d);
            L3Ok(e) && Eff(e, off) == Eff(d, k * 0x4000 + off)
  {
    if IsHw(d) {
      SplitHwBlock(d, k, off);
    } else if IsSwMap(d) {
      SplitMapBlock(d, k, off);
    }
    hide SpteType, WithType, NoType, Type;
  }

  lemma SplitHwBlock(d: nat, k: nat, off: nat)
    requires L2Ok(d) && IsHw(d) && off < 0x4000
    ensures var e := L3First(d) + k * L3Incr(d); L3Ok(e) && Eff(e, off) == Eff(d, k * 0x4000 + off)
  {
    hide SpteType, WithType, NoType, Type, Eff;
    PageMultiple(k, off);
    TypeBit(d, 0);
    TypeBit(d, 1);
    KeepsLowBits(WithType(d, 1), k * 0x4000);
    EffHw(d, k * 0x4000 + off);
    EffHw(L3First(d) + k * L3Incr(d), off);
    DivModIs(off, 0x4000, 0, off);
  }

  lemma SplitMapBlock(d: nat, k: nat, off: nat)
    requires L2Ok(d) && IsSwMap(d) && k < 2048 && off < 0x4000
    ensures var e := L3First(d) + k * L3Incr(d); L3Ok(e) && Eff(e, off) == Eff(d, k * 0x4000 + off)
  {
    hide SpteType, WithType, NoType, Type;
    PageMultiple(k, off);
    KeepsLowBits(d, k * 0x4000);
    KeepsField(d, k * 0x4000);
  }

  /** Splitting an L3 leaf keeps the meaning of every SW word, and demotes HW words. */
  lemma SplitL3(d: nat, w: nat)
    requires L3Ok(d) && w < 4096
    ensures var e := L4First(d) + w * L4Incr(d);
            L4Ok(e) && Eff(e, 0) == (if IsHw(d) then Demoted(Eff(d, 4 * w), 4 * w) else Eff(d, 4 * w))
  {
    if IsHw(d) {
      SplitHwPage(d, w);
    } else if d != 0 {
      L4SourceOk(d);
      SplitWord(d, w);
    }
    hide SpteType, WithType, Target, L4Ok, Demoted;
  }

  lemma SplitHwPage(d: nat, w: nat)
    requires L3Ok(d) && w < 4096 && IsHw(d)
    ensures var e := L4First(d) + w * L4Incr(d); L4Ok(e) && Eff(e, 0) == Demoted(Eff(d, 4 * w), 4 * w)
  {
    hide Eff, SpteType, WithType, NoType, Type, Target, L4Ok;
    var b := L4Source(d);
    EffHw(d, 4 * w);
    TargetNoType(d);
    TargetPage(d);
    if b == 0 {
      EmptyLeaf();
    } else {
      L4SourceOk(d);
      SplitWord(b, w);
    }
  }

  lemma EmptyLeaf()
    ensures L4Ok(0) && Eff(0, 0) == 0
  {
  }

  lemma SplitWord(b: nat, w: nat)
    requires b != 0 && b % 4 == 0 && w < 4096
    requires SpteType(b) == 0 ==> b % 0x4_0000_0000_0000 + 0x4000 <= 0x4_0000_0000_0000
    ensures var e := WithType(b, 1) + w * (if SpteType(b) == 0 then 4 else 0);
            L4Ok(e) && Eff(e, 0) == if SpteType(b) == 0 then b + 4 * w else b
  {
    var x := if SpteType(b) == 0 then b + 4 * w else b;
    TypeBit(b, 1);
    if SpteType(b) == 0 { KeepsLowBits(b, 4 * w); KeepsField(b, 4 * w); }
    WordLeaf(x);
  }

  lemma WordLeaf(x: nat)
    requires x != 0 && x % 4 == 0
    ensures L4Ok(x + 2) && Eff(x + 2, 0) == x
  {
    DivModIs(x + 2, 4, x / 4, 2);
    DivModIs(x + 2, 2, x / 4 * 2 + 1, 0);
  }

  lemma L4SourceOk(d: nat)
    requires L3Ok(d) && d != 0
    ensures var b := L4Source(d);
            && b % 4 == 0
            && (SpteType(b) == 0 ==> b % 0x4_0000_0000_0000 + 0x4000 <= 0x4_0000_0000_0000)
  {
    if IsHw(d) { TargetPage(d); }
  }

  lemma TargetPage(d: nat)
    ensures Target(d) % 0x4000 == 0 && Target(d) % 4 == 0
    ensures Target(d) + 0x4000 <= 0x4_0000_0000_0000
    ensures Target(d) % 0x4_0000_0000_0000 == Target(d) && SpteType(Target(d)) == 0
  {
    var x := d % 0x4_0000_0000_0000;
    Nested(d, 0x4000, 0x10_0000_0000);
    assert Target(d) == x / 0x4000 * 0x4000;
    PageMultiple(x / 0x4000, 0);
    DivModIs(Target(d), 0x4_0000_0000_0000, 0, Target(d));
  }

  lemma TargetNoType(d: nat)
    ensures Target(NoType(d)) == Target(d)
  {
    if d % 4 >= 2 {
      var e := d - 2;
      DivModIs(e, 4, d / 4, d % 4 - 2);
      RoomForType(e);
      AddSmall(e, 0x4_0000_0000_0000, 2);
      Nested(e, 4, 0x1000);
      AddSmall(e, 0x4000, 2);
    }
  }

  /** A target advanced by `n` bytes means at offset `off` what the original means at n + off. */
  lemma EffShift(to: nat, incr: nat, size: nat, n: nat, off: nat, t: nat)
    requires TargetOk(to, incr, size) && n + off < size && t < 2
    requires t == 1 ==> to != 0
    requires if IsHw(to) then n % 0x4000 == 0 else n % 4 == 0 && off % 4 == 0
    ensures Eff(WithType(Adv(to, incr, n), t), off) == Eff(to, n + off)
  {
    if IsHw(to) {
      EffShiftHw(to, n, off, t);
    } else if IsSwMap(to) {
      EffShiftMap(to, n, off, t);
    } else if to != 0 {
      TypeBit(to, t);
    }
  }

  lemma EffShiftHw(to: nat, n: nat, off: nat, t: nat)
    requires IsHw(to) && Type(to) == 0 && n % 0x4000 == 0 && t < 2
    ensures Eff(WithType(to + n, t), off) == Eff(to, n + off)
  {
    AddPages(off, n);
    KeepsLowBits(to, n);
    TypeBit(to + n, t);
    EffHw(to, n + off);
    EffHw(WithType(to + n, t), off);
  }

  lemma EffShiftMap(to: nat, n: nat, off: nat, t: nat)
    requires IsSwMap(to) && Type(to) == 0 && n % 4 == 0 && t < 2
    requires to % 0x4_0000_0000_0000 + n < 0x4_0000_0000_0000
    ensures Eff(WithType(to + n, t), off) == Eff(to, n + off)
  {
    KeepsLowBits(to, n);
    KeepsField(to, n);
    TypeBit(to + n, t);
  }

  // ---- The words that the mapping loops write are legal at their level ----

  lemma AdvanceTarget(to: nat, incr: nat, size: nat, n: nat)
    requires TargetOk(to, incr, size) && n < size && n % 4 == 0 && (IsHw(to) ==> n % 0x4000 == 0)
    ensures TargetOk(Adv(to, incr, n), incr, size - n)
    ensures IsHw(Adv(to, incr, n)) == IsHw(to) && (to == 0 <==> Adv(to, incr, n) == 0)
    ensures IsHw(to) ==> Target(Adv(to, incr, n)) == Target(to) + n
  {
    KeepsLowBits(to, n);
    if IsHw(to) {
      AdvanceHw(to, n);
    } else if IsSwMap(to) {
      KeepsField(to, n);
    }
  }

  lemma LastPage(t: nat)
    requires t % 0x4000 == 0 && t < 0x4_0000_0000_0000
    ensures t + 0x4000 <= 0x4_0000_0000_0000
  {
    assert t == t / 0x4000 * 0x4000;
    assert t / 0x4000 < 0x10_0000_0000;
  }

  lemma AdvanceHw(to: nat, n: nat)
    requires n % 0x4000 == 0 && Target(to) + n < 0x4_0000_0000_0000
    ensures Target(to + n) == Target(to) + n
  {
    TargetPage(to);
    AddPages(to, n);
    Nested(to, 0x4000, 0x10_0000_0000);
    var t := Target(to) + n;
    AddPages(Target(to), n);
    LastPage(t);
    AddSmall(to, 0x4_0000_0000_0000, n);
  }

  lemma AdvanceL2(to: nat, incr: nat, size: nat, n: nat)
    requires TargetOk(to, incr, size) && n + 0x200_0000 <= size && n % 0x200_0000 == 0
    requires IsHw(to) ==> Target(to) % 0x200_0000 == 0
    ensures L2Ok(Adv(to, incr, n))
  {
    Nested(n, 0x4000, 2048);
    Nested(n, 4, 0x80_0000);
    AdvanceTarget(to, incr, size, n);
    AddMultiple(Target(to), 0x200_0000, n / 0x200_0000);
  }

  lemma AdvanceL3(to: nat, incr: nat, size: nat, n: nat)
    requires TargetOk(to, incr, size) && n + 0x4000 <= size && n % 0x4000 == 0
    ensures L3Ok(Adv(WithType(to, if IsHw(to) then 1 else 0), incr, n))
  {
    Nested(n, 4, 0x1000);
    AdvanceTarget(to, incr, size, n);
    TypeBit(to, 1);
    KeepsLowBits(WithType(to, 1), n);
  }

  lemma AdvanceL4(to: nat, incr: nat, size: nat, n: nat)
    requires TargetOk(to, incr, size) && !IsHw(to) && n + 4 <= size && n % 4 == 0
    ensures L4Ok(if to == 0 then 0 else Adv(WithType(to, 1), incr, n))
  {
    AdvanceTarget(to, incr, size, n);
    TypeBit(to, 1);
    KeepsLowBits(WithType(to, 1), n);
  }
}
