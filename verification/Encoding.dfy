/** How table slots are stored: the model keeps pointers and leaves apart, the program tells them apart by bits. */
module Encoding {
  import opened Arith
  import opened TableHeap
  import opened HvDescriptors
  import M = MmuView

  /** What memalign returns for a table. */
  predicate Pointer(p: nat, align: nat)
    requires align > 0
  {
    0 < p < 0x4_0000_0000_0000 && p % align == 0
  }

  // ---- The hypervisor's tables (src/hv_vm.c) ----

  /** The word stored for a slot of level k: table pointers carry PTE_TYPE and, above level 3, PTE_VALID. */
  function StageTwoWord(k: nat, e: Pte): nat {
    match e
    case Leaf(d) => d
    case Table(p) => if k < 3 then p + 3 else p + 2
  }

  /** L1_IS_TABLE, L2_IS_TABLE and L3_IS_TABLE. */
  predicate StageTwoIsTable(k: nat, w: nat) {
    w != 0 && Type(w) == 1 && (k >= 3 ==> IsSw(w))
  }

  predicate StageTwoLeaf(k: nat, d: nat) {
    if k == 1 then d == 0 else if k == 2 then L2Ok(d) else L3Ok(d)
  }

  /** The tests by bits tell table pointers from the leaves that occur at each level, and masking gives the pointer
      back.  The hardware sees the pointers of levels 1 and 2, and not those to the words of a page. */
  lemma StageTwoRoundTrip(k: nat, e: Pte)
    requires 1 <= k <= 3 && (e.Table? ==> Pointer(e.ptr, 0x4000)) && (e.Leaf? ==> StageTwoLeaf(k, e.raw))
    ensures StageTwoIsTable(k, StageTwoWord(k, e)) <==> e.Table?
    ensures e.Table? ==> Target(StageTwoWord(k, e)) == e.ptr
    ensures e.Table? ==> (StageTwoWord(k, e) % 2 == 1 <==> k <= 2)
  {
    if e.Table? {
      var n := if k < 3 then 3 else 2;
      PointerBits(e.ptr, 0x1000, n);
    }
  }

  lemma PointerBits(p: nat, m: nat, n: nat)
    requires (m == 0x1000 || m == 0x400) && n < 4 && p % (4 * m) == 0 && p < 0x4_0000_0000_0000
    ensures (p + n) % 4 == n && (p + n) % 2 == n % 2 && (p + n) % (4 * m) == n
    ensures (p + n) % 0x4_0000_0000_0000 == p + n
  {
    var u := p / (4 * m);
    if m == 0x1000 {
      assert p == u * 0x4000;
      PointerWord(p, u * 0x1000, n);
      DivModIs(p + n, 0x4000, u, n);
    } else {
      assert p == u * 0x1000;
      PointerWord(p, u * 0x400, n);
      DivModIs(p + n, 0x1000, u, n);
    }
  }

  lemma PointerWord(p: nat, v: nat, n: nat)
    requires p == v * 4 && n < 4 && p < 0x4_0000_0000_0000
    ensures (p + n) % 4 == n && (p + n) % 2 == n % 2 && (p + n) % 0x4_0000_0000_0000 == p + n
  {
    DivModIs(p + n, 4, v, n);
    DivModIs(p + n, 2, 2 * v + n / 2, n % 2);
    DivModIs(p + n, 0x4_0000_0000_0000, 0, p + n);
  }

  // ---- The CPU's own tables (src/memory.c) ----

  function MmuWord(e: Pte): nat {
    match e
    case Leaf(d) => d
    case Table(p) => p + 3
  }

  /** L0_IS_TABLE, L1_IS_TABLE and L2_IS_TABLE. */
  predicate MmuIsTable(w: nat) { M.IsValid(w) && Type(w) == 1 }

  /** The same for the CPU's tables, above the last level. */
  lemma MmuRoundTrip(big: bool, k: nat, e: Pte)
    requires k < 3 && (e.Table? ==> Pointer(e.ptr, if big then 0x4000 else 0x1000))
    requires e.Leaf? ==> M.LeafOk(big, k, e.raw)
    ensures MmuIsTable(MmuWord(e)) <==> e.Table?
    ensures e.Table? ==> M.ToBytes(big, M.PageNo(big, MmuWord(e))) == e.ptr
  {
    if e.Table? {
      if big { PointerBits(e.ptr, 0x1000, 3); } else { PointerBits(e.ptr, 0x400, 3); }
    }
  }
}
