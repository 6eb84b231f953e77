/** The DART IOMMU: two-level page tables in memory (src/dart.c).

    An IOVA has 14 offset bits, an 11-bit L2 index, an 11-bit L1 index and the number of one
    of up to four L1 tables (TTBRs).  `l1` holds the L1 tables one after the other, so that
    its index is the 13-bit number (iova >> 25) & 0x1fff.  `mem` holds the allocated L2 tables.
 */
module Dart {
  import opened Arith

  datatype Link = NoTable | To(ptr: nat)

  type Mem = map<nat, seq<nat>>

  // ---- Page table entries ----

  /** The address field: bits 39..14 on T8020 and, for `wide`, bits 39..10 on T6000 and T8110.
      It holds the page number of the target. */
  function AddrField(wide: bool, pte: nat): nat {
    if wide then pte % 0x100_0000_0000 / 0x400 else pte % 0x100_0000_0000 / 0x4000
  }

  /** FIELD_PREP(offset_mask, pa >> 14): what does not fit the field is cut off. */
  function Prep(wide: bool, pa: nat): nat {
    if wide then pa / 0x4000 * 0x400 % 0x100_0000_0000 else pa / 0x4000 * 0x4000 % 0x100_0000_0000
  }

  predicate Representable(wide: bool, pa: nat) {
    pa / 0x4000 < if wide then 0x4000_0000 else 0x400_0000
  }

  /** The flag bits of an entry: valid, and outside the address field. */
  predicate FlagsOk(wide: bool, flags: nat) {
    flags % 2 == 1 && flags % 0x100_0000_0000 < if wide then 0x400 else 0x4000
  }

  function Target(wide: bool, pte: nat): nat { AddrField(wide, pte) * 0x4000 }

  predicate IsValid(pte: nat) { pte % 2 == 1 }

  /** An entry reads back as what was put into it. */
  lemma EntryRoundTrip(wide: bool, pa: nat, flags: nat)
    requires Representable(wide, pa) && FlagsOk(wide, flags)
    ensures IsValid(Prep(wide, pa) + flags) && Target(wide, Prep(wide, pa) + flags) == pa - pa % 0x4000
  {
    var p, q, r := pa / 0x4000, flags / 0x100_0000_0000, flags % 0x100_0000_0000;
    var u := if wide then 0x400 else 0x4000;
    DivModIs(p * u, 0x100_0000_0000, 0, p * u);
    DivModIs(p * u + flags, 0x100_0000_0000, q, p * u + r);
    DivModIs(p * u + r, u, p, r);
    AddMultiple(flags, 2, if wide then p * 0x200 else p * 0x2000);
  }

  /** The page number stands in the address field and the flags outside it. */
  lemma EntryParts(wide: bool, pa: nat, flags: nat)
    requires Representable(wide, pa) && FlagsOk(wide, flags)
    ensures Prep(wide, pa) + flags == pa / 0x4000 * (if wide then 0x400 else 0x4000) + flags
    ensures (Prep(wide, pa) + flags) / 0x100_0000_0000 == flags / 0x100_0000_0000
    ensures wide ==> (Prep(wide, pa) + flags) % 0x400 == flags % 0x400
    ensures !wide ==> (Prep(wide, pa) + flags) % 0x4000 == flags % 0x4000
  {
    var p, q, r := pa / 0x4000, flags / 0x100_0000_0000, flags % 0x100_0000_0000;
    if wide {
      DivModIs(p * 0x400, 0x100_0000_0000, 0, p * 0x400);
      DivModIs(p * 0x400 + flags, 0x100_0000_0000, q, p * 0x400 + r);
      AddMultiple(flags, 0x400, p);
    } else {
      DivModIs(p * 0x4000, 0x100_0000_0000, 0, p * 0x4000);
      DivModIs(p * 0x4000 + flags, 0x100_0000_0000, q, p * 0x4000 + r);
      AddMultiple(flags, 0x4000, p);
    }
  }

  // ---- The tables ----

  ghost predicate Linked(l1: seq<Link>, mem: Mem) {
    && (forall i :: 0 <= i < |l1| && l1[i].To? ==> l1[i].ptr in mem && |mem[l1[i].ptr]| == 2048)
    && (forall i, j :: 0 <= i < j < |l1| && l1[i].To? && l1[j].To? ==> l1[i].ptr != l1[j].ptr)
  }

  /** The entry for page number p (0 if its L2 table is missing). */
  function Entry(l1: seq<Link>, mem: Mem, p: nat): nat {
    var i := p / 2048;
    if i < |l1| && l1[i].To? && l1[i].ptr in mem && |mem[l1[i].ptr]| == 2048 then mem[l1[i].ptr][p % 2048] else 0
  }

  /** dart_translate_internal; 0 is the NULL that reports a missing translation. */
  function Translate(wide: bool, l1: seq<Link>, mem: Mem, iova: nat): nat
    requires Linked(l1, mem)
  {
    var ttbr := iova / 0x10_0000_0000 % 4;
    var i1 := iova / 0x200_0000 % 2048;
    if |l1| < 2048 * ttbr + 2048 then 0
    else if l1[2048 * ttbr + i1].NoTable? then 0
    else
      var l2 := mem[l1[2048 * ttbr + i1].ptr];
      var i2 := iova / 0x4000 % 2048;
      if !IsValid(l2[i2]) then 0 else Target(wide, l2[i2]) + iova % 0x4000
  }

  /** The translation of an address depends on the entry of its page only. */
  function Translated(wide: bool, pte: nat, iova: nat): nat {
    if IsValid(pte) then Target(wide, pte) + iova % 0x4000 else 0
  }

  lemma TranslateIsEntry(wide: bool, l1: seq<Link>, mem: Mem, iova: nat)
    requires Linked(l1, mem) && |l1| % 2048 == 0 && iova < 0x40_0000_0000
    ensures Translate(wide, l1, mem, iova) == Translated(wide, Entry(l1, mem, iova / 0x4000), iova)
  {
    Nested(iova, 0x4000, 2048);
    Nested(iova, 0x200_0000, 2048);
    var i := iova / 0x200_0000;
    assert i == 2048 * (iova / 0x10_0000_0000 % 4) + i % 2048 by {
      DivModIs(iova / 0x10_0000_0000, 4, 0, iova / 0x10_0000_0000);
    }
    hide Target, IsValid;
    Multiple(|l1|, i);
  }

  /** In a whole number of L1 tables, an index is inside if its table is. */
  lemma Multiple(n: nat, i: nat)
    requires n % 2048 == 0
    ensures i < n <==> i / 2048 * 2048 + 2048 <= n
  {
  }

  function Put(mem: Mem, ptr: nat, j: nat, r: nat): Mem
    requires ptr in mem && j < |mem[ptr]|
  {
    var s: seq<nat> := mem[ptr];
    mem[ptr := s[j := r]]
  }

  /** Writing one L2 entry changes one page. */
  lemma EntryStored(l1: seq<Link>, mem: Mem, i: nat, j: nat, r: nat, p: nat)
    requires Linked(l1, mem) && i < |l1| && l1[i].To? && j < 2048
    ensures Linked(l1, Put(mem, l1[i].ptr, j, r))
    ensures Entry(l1, Put(mem, l1[i].ptr, j, r), p) ==
            if p == i * 2048 + j then r else Entry(l1, mem, p)
  {
    if p == i * 2048 + j { DivModIs(p, 2048, i, j); }
    var k := p / 2048;
    if k < |l1| && k != i && l1[k].To? {
      assert l1[k].ptr != l1[i].ptr;
    }
  }

  /** An empty L2 table changes no page. */
  lemma EntryLinked(l1: seq<Link>, mem: Mem, i: nat, q: nat, s: seq<nat>, p: nat)
    requires Linked(l1, mem) && i < |l1| && l1[i].NoTable? && q !in mem
    requires |s| == 2048 && forall k :: 0 <= k < |s| ==> s[k] == 0
    ensures Linked(l1[i := To(q)], mem[q := s])
    ensures Entry(l1[i := To(q)], mem[q := s], p) == Entry(l1, mem, p)
  {
    var k := p / 2048;
    if k < |l1| && k != i && l1[k].To? {
      assert l1[k].ptr in mem;
    }
  }

  /** Taking out an L2 table without valid entries changes no translation. */
  lemma EntryUnlinked(l1: seq<Link>, mem: Mem, i: nat, p: nat)
    requires Linked(l1, mem) && i < |l1| && l1[i].To?
    requires forall k :: 0 <= k < 2048 ==> !IsValid(mem[l1[i].ptr][k])
    ensures Linked(l1[i := NoTable], mem - {l1[i].ptr})
    ensures IsValid(Entry(l1[i := NoTable], mem - {l1[i].ptr}, p)) == IsValid(Entry(l1, mem, p))
    ensures IsValid(Entry(l1, mem, p)) ==>
              Entry(l1[i := NoTable], mem - {l1[i].ptr}, p) == Entry(l1, mem, p)
  {
    hide IsValid;
    NothingValid();
    var k := p / 2048;
    if k < |l1| && k != i && l1[k].To? {
      assert l1[k].ptr != l1[i].ptr;
    }
  }

  lemma NothingValid()
    ensures !IsValid(0)
  {
  }

  /** The entry of page number p if it is valid, or 0. */
  function ValidEntry(l1: seq<Link>, mem: Mem, p: nat): nat {
    if IsValid(Entry(l1, mem, p)) then Entry(l1, mem, p) else 0
  }

  /** One slot is emptied and the table of another one, or the same, is released: the pages of the slot are unmapped,
      and no others if the released table had no valid entry. */
  lemma Unlinked(l1: seq<Link>, mem: Mem, slot: nat, i: nat, p: nat)
    requires Linked(l1, mem) && slot < |l1| && i < |l1| && l1[i].To?
    requires forall k :: 0 <= k < 2048 ==> !IsValid(mem[l1[i].ptr][k])
    ensures ValidEntry(l1[slot := NoTable], mem - {l1[i].ptr}, p) ==
            if p / 2048 == slot then 0 else ValidEntry(l1, mem, p)
  {
    hide IsValid;
    NothingValid();
    var k := p / 2048;
    if k < |l1| && k != i && l1[k].To? {
      assert l1[k].ptr != l1[i].ptr;
    }
  }

  /** If the two slots differ, the released table stays linked and the unlinked one stays allocated. */
  lemma Dangling(l1: seq<Link>, mem: Mem, slot: nat, i: nat)
    requires Linked(l1, mem) && slot < |l1| && i < |l1| && slot != i && l1[slot].To? && l1[i].To?
    ensures var l1', mem' := l1[slot := NoTable], mem - {l1[i].ptr};
            && !Linked(l1', mem') && l1'[i].ptr !in mem'
            && l1[slot].ptr in mem' && To(l1[slot].ptr) !in l1'
  {
    var l1', mem' := l1[slot := NoTable], mem - {l1[i].ptr};
    assert l1'[i].To? && l1'[i].ptr !in mem';
    assert l1[slot].ptr != l1[i].ptr;
    forall j | 0 <= j < |l1'| ensures l1'[j] != To(l1[slot].ptr) {
      if j != slot && l1[j].To? { assert l1[j].ptr != l1[slot].ptr; }
    }
  }
}
