/** The translation tables of the CPU (src/memory.c) and what they mean.

    Addresses are counted in pages.  A level-k cell is what one entry of a level-k table covers: a page at level 3, and
    at every level above the cells of one whole table below.  All tables but the top one have the same size, so the
    level-k cells are numbered by dividing page numbers.
 */
module MmuView {
  import opened Arith
  import opened TableHeap
  import D = HvDescriptors

  // ---- Geometry: `big` is the 16K granule, otherwise 4K ----

  function Entries(big: bool): nat { if big then 2048 else 512 }

  function Top(big: bool): nat { if big then 2 else 512 }

  function Fan(big: bool): seq<nat> { [Top(big), Entries(big), Entries(big), Entries(big)] }

  function Quot(big: bool, c: nat): nat { if big then c / 2048 else c / 512 }

  function Rem(big: bool, c: nat): nat { if big then c % 2048 else c % 512 }

  function Times(big: bool, c: nat): nat { if big then c * 2048 else c * 512 }

  /** A number of pages in bytes. */
  function ToBytes(big: bool, d: nat): nat { if big then d * 0x4000 else d * 0x1000 }

  lemma QuotRem(big: bool, c: nat)
    ensures c == Times(big, Quot(big, c)) + Rem(big, c) && Rem(big, c) < Entries(big)
  {
  }

  /** The level-k cell of a page. */
  function Cell(big: bool, k: nat, g: nat): nat
    decreases 3 - k
  {
    if k >= 3 then g else Quot(big, Cell(big, k + 1, g))
  }

  /** A number of level-k cells in pages. */
  function Scale(big: bool, k: nat, n: nat): nat
    decreases 3 - k
  {
    if k >= 3 then n else Scale(big, k + 1, Times(big, n))
  }

  /** How far a page is from the start of its level-k cell. */
  function Delta(big: bool, k: nat, g: nat): nat
    decreases 3 - k
  {
    if k >= 3 then 0 else Delta(big, k + 1, g) + Scale(big, k + 1, Rem(big, Cell(big, k + 1, g)))
  }

  lemma TimesAdds(big: bool, m: nat, n: nat)
    ensures Times(big, m + n) == Times(big, m) + Times(big, n) && Times(big, 0) == 0 && Times(big, 1) == Entries(big)
  {
  }

  lemma {:induction false} ScaleAdds(big: bool, k: nat, m: nat, n: nat)
    ensures Scale(big, k, m + n) == Scale(big, k, m) + Scale(big, k, n) && Scale(big, k, 0) == 0
    decreases 3 - k
  {
    TimesAdds(big, m, n);
    hide Times;
    if k < 3 { ScaleAdds(big, k + 1, Times(big, m), Times(big, n)); }
  }

  lemma {:induction false} ScaleGrows(big: bool, k: nat, n: nat)
    ensures n <= Scale(big, k, n)
    decreases 3 - k
  {
    if k < 3 { ScaleGrows(big, k + 1, Times(big, n)); }
  }

  lemma {:induction false} CellDelta(big: bool, k: nat, g: nat)
    requires k <= 3
    ensures g == Scale(big, k, Cell(big, k, g)) + Delta(big, k, g) && Delta(big, k, g) < Scale(big, k, 1)
    decreases 3 - k
  {
    hide Times, Quot, Rem, Entries;
    if k < 3 {
      CellDelta(big, k + 1, g);
      TimesAdds(big, 0, 0);
      var c := Cell(big, k + 1, g);
      QuotRem(big, c);
      ScaleAdds(big, k + 1, Times(big, Quot(big, c)), Rem(big, c));
      ScaleAdds(big, k + 1, Rem(big, c) + 1, Times(big, 1) - Rem(big, c) - 1);
      ScaleAdds(big, k + 1, Rem(big, c), 1);
    }
  }

  /** The pages of a cell are an interval. */
  lemma {:induction false} CellInterval(big: bool, k: nat, g: nat, c: nat)
    requires k <= 3
    ensures Cell(big, k, g) == c <==> Scale(big, k, c) <= g < Scale(big, k, c) + Scale(big, k, 1)
    ensures Cell(big, k, g) == c ==> g == Scale(big, k, c) + Delta(big, k, g)
  {
    hide Cell, Scale, Delta;
    CellDelta(big, k, g);
    var d := Cell(big, k, g);
    if d < c {
      ScaleAdds(big, k, d + 1, c - d - 1);
      ScaleAdds(big, k, d, 1);
    } else if c < d {
      ScaleAdds(big, k, c + 1, d - c - 1);
      ScaleAdds(big, k, c, 1);
    }
  }

  // ---- Positions ----

  function Idx(big: bool, k: nat, c: nat): nat { if k == 0 then c else Rem(big, c) }

  /** The position of the table that holds level-k cell c. */
  function PosOf(big: bool, k: nat, c: nat): Pos {
    if k == 0 then Root else Sub(PosOf(big, k - 1, Quot(big, c)), Idx(big, k - 1, Quot(big, c)))
  }

  /** The cell lies in the address space. */
  predicate InSpace(big: bool, k: nat, c: nat) {
    if k == 0 then c < Top(big) else InSpace(big, k - 1, Quot(big, c))
  }

  lemma {:induction false} PosDepth(big: bool, k: nat, c: nat)
    ensures Depth(PosOf(big, k, c)) == k
  {
    if k > 0 { PosDepth(big, k - 1, Quot(big, c)); }
  }

  lemma {:induction false} IdxBelow(big: bool, k: nat, c: nat)
    requires k <= 3 && InSpace(big, k, c)
    ensures Idx(big, k, c) < Fan(big)[k]
  {
    if k > 0 { QuotRem(big, c); }
  }

  /** Different cells have different slots. */
  lemma {:induction false} SlotOfCell(big: bool, k: nat, c: nat, d: nat)
    requires PosOf(big, k, c) == PosOf(big, k, d) && Idx(big, k, c) == Idx(big, k, d)
    ensures c == d
  {
    if k > 0 {
      SlotOfCell(big, k - 1, Quot(big, c), Quot(big, d));
      QuotRem(big, c);
      QuotRem(big, d);
    }
  }

  lemma {:induction false} PageInSpace(big: bool, k: nat, g: nat)
    requires k <= 3 && InSpace(big, 3, g)
    ensures InSpace(big, k, Cell(big, k, g))
    decreases 3 - k
  {
    if k < 3 { PageInSpace(big, k + 1, g); }
  }

  // ---- Descriptors ----

  predicate IsValid(d: nat) { d % 2 == 1 }

  /** The page number in a descriptor's address field, with the attributes above the field on top. */
  function PageNo(big: bool, d: nat): nat { if big then d / 0x4000 else d / 0x1000 }

  /** What a leaf means for the page at distance `delta` from the start of its cell: attributes and output address,
      without the type bit, or 0 for a fault. */
  function Effect(big: bool, d: nat, delta: nat): nat {
    if IsValid(d) then D.NoType(d) + ToBytes(big, delta) else 0
  }

  /** A leaf can be valid from this level on: the top level has no blocks, and level 1 only with 4K pages. */
  function FirstLeaf(big: bool): nat { if big then 2 else 1 }

  /** A valid leaf has the type of its level and maps to a multiple of its own size. */
  predicate LeafOk(big: bool, k: nat, d: nat) {
    IsValid(d) ==> k >= FirstLeaf(big) && D.Type(d) == (if k == 3 then 1 else 0) && Delta(big, k, PageNo(big, d)) == 0
  }

  lemma Advanced(big: bool, d: nat, n: nat)
    ensures IsValid(d + ToBytes(big, n)) == IsValid(d) && D.Type(d + ToBytes(big, n)) == D.Type(d)
    ensures D.NoType(d + ToBytes(big, n)) == D.NoType(d) + ToBytes(big, n)
    ensures PageNo(big, d + ToBytes(big, n)) == PageNo(big, d) + n
  {
    if big {
      AddMultiple(d, 0x4000, n);
      AddMultiple(d, 4, n * 0x1000);
      AddMultiple(d, 2, n * 0x2000);
    } else {
      AddMultiple(d, 0x1000, n);
      AddMultiple(d, 4, n * 0x400);
      AddMultiple(d, 2, n * 0x800);
    }
  }

  /** The two lowest bits of a descriptor can be exchanged without touching the rest. */
  lemma LowTwo(big: bool, u: nat, x: nat)
    requires x < 4
    ensures (4 * u + x) % 4 == x && (4 * u + x) % 2 == x % 2
    ensures PageNo(big, 4 * u + x) == if big then u / 0x1000 else u / 0x400
  {
    DivModIs(4 * u + x, 4, u, x);
    DivModIs(4 * u + x, 2, 2 * u + x / 2, x % 2);
    if big {
      DivModIs(4 * u + x, 0x4000, u / 0x1000, 4 * (u % 0x1000) + x);
    } else {
      DivModIs(4 * u + x, 0x1000, u / 0x400, 4 * (u % 0x400) + x);
    }
  }

  lemma Retyped(big: bool, d: nat, t: nat)
    requires t <= 1
    ensures IsValid(D.WithType(d, t)) == IsValid(d) && D.Type(D.WithType(d, t)) == t
    ensures D.NoType(D.WithType(d, t)) == D.NoType(d) && PageNo(big, D.WithType(d, t)) == PageNo(big, d)
  {
    hide PageNo;
    var u, x := d / 4, d % 4;
    var b := if x >= 2 then x - 2 else x;
    assert d == 4 * u + x && D.NoType(d) == 4 * u + b && D.WithType(d, t) == 4 * u + (b + 2 * t);
    LowTwo(big, u, x);
    LowTwo(big, u, b + 2 * t);
  }

  // ---- The view ----

  function Entry(mem: Mem, lay: Layout, big: bool, k: nat, g: nat): Pte {
    Slot(mem, lay, PosOf(big, k, Cell(big, k, g)), Idx(big, k, Cell(big, k, g)))
  }

  /** The meaning of page g, looked up from level k down. */
  function Look(mem: Mem, lay: Layout, big: bool, k: nat, g: nat): nat
    decreases 3 - k
  {
    var e := Entry(mem, lay, big, k, g);
    if k < 3 && e.Table? then Look(mem, lay, big, k + 1, g) else Effect(big, Raw(e), Delta(big, k, g))
  }

  function View(mem: Mem, lay: Layout, big: bool, g: nat): nat { Look(mem, lay, big, 0, g) }

  ghost predicate LeavesOk(mem: Mem, lay: Layout, big: bool) {
    forall x, i: nat :: x in lay.tab && Slot(mem, lay, x, i).Leaf? ==> LeafOk(big, Depth(x), Slot(mem, lay, x, i).raw)
  }

  ghost predicate Good(mem: Mem, root: nat, lay: Layout, big: bool) {
    Wf(mem, root, Fan(big), lay) && LeavesOk(mem, lay, big)
  }

  /** Where there is a level-k table for the page, the lookup gets to it. */
  lemma {:induction false} Reaches(mem: Mem, root: nat, lay: Layout, big: bool, k: nat, g: nat)
    requires Upward(mem, root, lay) && k <= 3 && PosOf(big, k, Cell(big, k, g)) in lay.tab
    ensures View(mem, lay, big, g) == Look(mem, lay, big, k, g)
  {
    if k > 0 {
      var x := PosOf(big, k, Cell(big, k, g));
      assert Slot(mem, lay, x.up, x.i) == Table(lay.tab[x]);
      Reaches(mem, root, lay, big, k - 1, g);
    }
  }

  lemma {:induction false} SamePath(mem: Mem, lay: Layout, mem': Mem, lay': Layout, big: bool, j: nat, g: nat)
    requires forall i: nat :: j <= i <= 3 ==> Entry(mem, lay, big, i, g) == Entry(mem', lay', big, i, g)
    requires j <= 3
    ensures Look(mem, lay, big, j, g) == Look(mem', lay', big, j, g)
    decreases 3 - j
  {
    hide Entry, Cell, Delta, Effect;
    assert Entry(mem, lay, big, j, g) == Entry(mem', lay', big, j, g);
    if j < 3 { SamePath(mem, lay, mem', lay', big, j + 1, g); }
  }

  /** The slots on the way to a page outside a cell are neither the cell's slot nor below it. */
  lemma {:induction false} OffPath(big: bool, j: nat, g: nat, k: nat, c: nat)
    requires j <= 3 && k <= 3 && Cell(big, k, g) != c
    ensures !Above(Sub(PosOf(big, k, c), Idx(big, k, c)), PosOf(big, j, Cell(big, j, g)))
    ensures !(PosOf(big, j, Cell(big, j, g)) == PosOf(big, k, c) && Idx(big, j, Cell(big, j, g)) == Idx(big, k, c))
  {
    PosDepth(big, j, Cell(big, j, g));
    PosDepth(big, k, c);
    if j == k && PosOf(big, j, Cell(big, j, g)) == PosOf(big, k, c) && Idx(big, j, Cell(big, j, g)) == Idx(big, k, c) {
      SlotOfCell(big, k, Cell(big, k, g), c);
    }
    if j > 0 { OffPath(big, j - 1, g, k, c); }
  }

  // ---- How the view changes ----

  /** Writing a leaf for one cell changes the pages of the cell and no others. */
  lemma StepWrite(mem: Mem, root: nat, lay: Layout, mem': Mem, lay': Layout, big: bool, k: nat, c: nat, r: nat, g: nat)
    requires Upward(mem, root, lay) && Upward(mem', root, lay') && k <= 3 && PosOf(big, k, c) in lay'.tab
    requires PrunedTo(mem, lay, mem', lay', PosOf(big, k, c), Idx(big, k, c), r)
    ensures View(mem', lay', big, g) ==
            if Cell(big, k, g) == c then Effect(big, r, Delta(big, k, g)) else View(mem, lay, big, g)
  {
    hide Cell, Delta, Effect, Upward, Idx;
    if Cell(big, k, g) == c {
      Reaches(mem', root, lay', big, k, g);
      assert Entry(mem', lay', big, k, g) == Leaf(r);
    } else {
      forall j: nat | j <= 3 ensures Entry(mem, lay, big, j, g) == Entry(mem', lay', big, j, g) {
        OffPath(big, j, g, k, c);
      }
      SamePath(mem, lay, mem', lay', big, 0, g);
    }
  }

  lemma WriteLeavesOk(mem: Mem, lay: Layout, mem': Mem, lay': Layout, big: bool, x: Pos, i: nat, r: nat)
    requires LeavesOk(mem, lay, big) && LeafOk(big, Depth(x), r) && PrunedTo(mem, lay, mem', lay', x, i, r)
    requires lay' == Pruned(lay, Sub(x, i))
    ensures LeavesOk(mem', lay', big)
  {
    hide LeafOk;
    forall y, j: nat | y in lay'.tab && Slot(mem', lay', y, j).Leaf?
      ensures LeafOk(big, Depth(y), Slot(mem', lay', y, j).raw)
    {
      if !(y == x && j == i) { assert Slot(mem', lay', y, j) == Slot(mem, lay, y, j); }
    }
  }

  /** Entry j of the table that replaces leaf d of level k. */
  function Child(big: bool, k: nat, d: nat, j: nat): nat {
    if IsValid(d) then D.WithType(d, if k == 2 then 1 else 0) + ToBytes(big, Scale(big, k + 1, j)) else 0
  }

  function Children(big: bool, k: nat, d: nat): seq<Pte> {
    seq(Entries(big), j requires 0 <= j < Entries(big) => Leaf(Child(big, k, d, j)))
  }

  lemma NoneValid()
    ensures !IsValid(0)
  {
  }

  lemma ChildEffect(big: bool, k: nat, d: nat, g: nat)
    requires k < 3
    ensures Effect(big, Child(big, k, d, Rem(big, Cell(big, k + 1, g))), Delta(big, k + 1, g))
            == Effect(big, d, Delta(big, k, g))
  {
    hide Cell, Scale, Rem, ToBytes, PageNo, IsValid, D.NoType, D.WithType, D.Type;
    var t := if k == 2 then 1 else 0;
    var j := Rem(big, Cell(big, k + 1, g));
    Retyped(big, d, t);
    Advanced(big, D.WithType(d, t), Scale(big, k + 1, j));
    BytesAdd(big, Delta(big, k + 1, g), Scale(big, k + 1, j));
    NoneValid();
  }

  lemma BytesAdd(big: bool, m: nat, n: nat)
    ensures ToBytes(big, m + n) == ToBytes(big, m) + ToBytes(big, n)
  {
  }

  lemma ScaleAligned(big: bool, k: nat, c: nat)
    requires k <= 3
    ensures Cell(big, k, Scale(big, k, c)) == c && Delta(big, k, Scale(big, k, c)) == 0
  {
    hide Cell, Delta, Scale;
    ScaleGrows(big, k, 1);
    CellInterval(big, k, Scale(big, k, c), c);
  }

  lemma ChildOk(big: bool, k: nat, d: nat, j: nat)
    requires k < 3 && LeafOk(big, k, d)
    ensures LeafOk(big, k + 1, Child(big, k, d, j))
  {
    hide D.WithType, D.Type, D.NoType, ToBytes, PageNo, Cell, Delta, Scale;
    if IsValid(d) {
      var t := if k == 2 then 1 else 0;
      Retyped(big, d, t);
      Advanced(big, D.WithType(d, t), Scale(big, k + 1, j));
      ChildAligned(big, k, PageNo(big, d), j);
    }
  }

  lemma {:induction false} ChildAligned(big: bool, k: nat, p: nat, j: nat)
    requires k < 3 && Delta(big, k, p) == 0
    ensures Delta(big, k + 1, p + Scale(big, k + 1, j)) == 0
  {
    hide Cell, Delta, Quot, Rem, Times;
    CellDelta(big, k, p);
    var c := Times(big, Cell(big, k, p));
    ScaleAdds(big, k + 1, c, j);
    ScaleAligned(big, k + 1, c + j);
  }

  /** Splitting a leaf into a table keeps the meaning of every page. */
  lemma StepSplit(mem: Mem, root: nat, lay: Layout, mem': Mem, lay': Layout, big: bool, k: nat, c: nat, q: nat, g: nat)
    requires Upward(mem, root, lay) && Upward(mem', root, lay') && k < 3 && PosOf(big, k, c) in lay.tab
    requires Slot(mem, lay, PosOf(big, k, c), Idx(big, k, c)).Leaf?
    requires Sub(PosOf(big, k, c), Idx(big, k, c)) in lay'.tab
    requires var d := Slot(mem, lay, PosOf(big, k, c), Idx(big, k, c)).raw;
             Installed(mem, lay, mem', lay', PosOf(big, k, c), Idx(big, k, c), q, Children(big, k, d))
    ensures View(mem', lay', big, g) == View(mem, lay, big, g)
  {
    hide Delta, Effect, Upward, Child, Scale, Rem, Quot;
    if Cell(big, k, g) == c {
      Reaches(mem, root, lay, big, k, g);
      Reaches(mem', root, lay', big, k + 1, g);
      QuotRem(big, Cell(big, k + 1, g));
      ChildEffect(big, k, Slot(mem, lay, PosOf(big, k, c), Idx(big, k, c)).raw, g);
    } else {
      forall j: nat | j <= 3 ensures Entry(mem, lay, big, j, g) == Entry(mem', lay', big, j, g) {
        OffPath(big, j, g, k, c);
      }
      SamePath(mem, lay, mem', lay', big, 0, g);
    }
  }

  lemma SplitLeavesOk(mem: Mem, lay: Layout, mem': Mem, lay': Layout, big: bool, x: Pos, i: nat, q: nat)
    requires LeavesOk(mem, lay, big) && x in lay.tab && Depth(x) < 3 && Slot(mem, lay, x, i).Leaf?
    requires Installed(mem, lay, mem', lay', x, i, q, Children(big, Depth(x), Slot(mem, lay, x, i).raw))
    requires lay' == Grown(lay, Sub(x, i), q)
    ensures LeavesOk(mem', lay', big)
  {
    hide LeafOk, Child;
    var d := Slot(mem, lay, x, i).raw;
    forall y, j: nat | y in lay'.tab && Slot(mem', lay', y, j).Leaf?
      ensures LeafOk(big, Depth(y), Slot(mem', lay', y, j).raw)
    {
      if y == Sub(x, i) {
        ZeroOk(big, Depth(y));
        if j < Entries(big) { ChildOk(big, Depth(x), d, j); }
      }
    }
  }

  lemma ZeroOk(big: bool, k: nat)
    ensures LeafOk(big, k, 0)
  {
  }

  // ---- The walk of the hardware ----

  /** The entry that the hardware reads at level k of the table at p. */
  function Fetch(mem: Mem, big: bool, p: nat, k: nat, g: nat): Pte {
    var i := Idx(big, k, Cell(big, k, g));
    if p in mem && i < |mem[p]| then mem[p][i] else Leaf(0)
  }

  /** The table walk of VMSAv8-64 (section D8.3 of the Arm Architecture Reference Manual, DDI 0487): an entry without
      the valid bit faults, and so does one whose type its level does not know.  The address of a block supplies the
      bits above the size of the block and the virtual address those below. */
  function HwWalk(mem: Mem, big: bool, p: nat, k: nat, g: nat): nat
    decreases 3 - k
  {
    match Fetch(mem, big, p, k, g)
    case Table(q) => if k < 3 then HwWalk(mem, big, q, k + 1, g) else 0
    case Leaf(d) =>
      if !IsValid(d) || k < FirstLeaf(big) || D.Type(d) != (if k >= 3 then 1 else 0) then 0
      else ToBytes(big, Scale(big, k, Cell(big, k, PageNo(big, d))) + Delta(big, k, g)) + Attributes(big, d)
  }

  /** The attributes below the address field, without the type bit. */
  function Attributes(big: bool, d: nat): nat { D.NoType(if big then d % 0x4000 else d % 0x1000) }

  lemma Fields(big: bool, d: nat)
    ensures D.NoType(d) == ToBytes(big, PageNo(big, d)) + Attributes(big, d)
  {
    if big { Nested(d, 4, 0x1000); } else { Nested(d, 4, 0x400); }
  }

  lemma {:induction false} LeafWalk(big: bool, k: nat, d: nat, g: nat)
    requires k <= 3 && LeafOk(big, k, d) && IsValid(d)
    ensures ToBytes(big, Scale(big, k, Cell(big, k, PageNo(big, d))) + Delta(big, k, g)) + Attributes(big, d)
            == Effect(big, d, Delta(big, k, g))
  {
    hide Cell, Scale, Delta, PageNo, Attributes, ToBytes, D.NoType;
    CellDelta(big, k, PageNo(big, d));
    Fields(big, d);
    BytesAdd(big, PageNo(big, d), Delta(big, k, g));
  }

  /** The tables of the tree are in the heap. */
  ghost predicate Within(mem: Mem, heap: Mem) {
    forall p :: p in mem ==> p in heap && heap[p] == mem[p]
  }

  lemma {:induction false} WalkFrom(heap: Mem, mem: Mem, root: nat, lay: Layout, big: bool, k: nat, g: nat)
    requires Good(mem, root, lay, big) && k <= 3 && InSpace(big, 3, g) && PosOf(big, k, Cell(big, k, g)) in lay.tab
    requires Within(mem, heap)
    ensures HwWalk(heap, big, lay.tab[PosOf(big, k, Cell(big, k, g))], k, g) == Look(mem, lay, big, k, g)
    decreases 3 - k
  {
    hide Cell, Delta, Effect, Scale, PageNo, Attributes, ToBytes, LeafOk, Idx;
    var c := Cell(big, k, g);
    var x := PosOf(big, k, c);
    PosDepth(big, k, c);
    PageInSpace(big, k, g);
    IdxBelow(big, k, c);
    var e := Entry(mem, lay, big, k, g);
    if e.Leaf? {
      LeafRead(big, k, e.raw, g);
    } else {
      BelowEntry(mem, lay, big, k, g);
      WalkFrom(heap, mem, root, lay, big, k + 1, g);
    }
  }

  lemma BelowEntry(mem: Mem, lay: Layout, big: bool, k: nat, g: nat)
    requires Downward(mem, lay) && Sized(mem, Fan(big), lay) && k <= 3 && PosOf(big, k, Cell(big, k, g)) in lay.tab
    requires Entry(mem, lay, big, k, g).Table?
    ensures k < 3 && PosOf(big, k + 1, Cell(big, k + 1, g)) in lay.tab
    ensures lay.tab[PosOf(big, k + 1, Cell(big, k + 1, g))] == Entry(mem, lay, big, k, g).ptr
  {
    PosDepth(big, k, Cell(big, k, g));
  }

  lemma LeafRead(big: bool, k: nat, d: nat, g: nat)
    requires k <= 3 && LeafOk(big, k, d)
    ensures Effect(big, d, Delta(big, k, g)) ==
            if !IsValid(d) || k < FirstLeaf(big) || D.Type(d) != (if k >= 3 then 1 else 0) then 0
            else ToBytes(big, Scale(big, k, Cell(big, k, PageNo(big, d))) + Delta(big, k, g)) + Attributes(big, d)
  {
    if IsValid(d) { LeafWalk(big, k, d, g); }
  }

  /** The hardware sees the view. */
  lemma WalkIsView(heap: Mem, mem: Mem, root: nat, lay: Layout, big: bool, g: nat)
    requires Good(mem, root, lay, big) && InSpace(big, 3, g) && Within(mem, heap)
    ensures HwWalk(heap, big, root, 0, g) == View(mem, lay, big, g)
  {
    WalkFrom(heap, mem, root, lay, big, 0, g);
  }

  // ---- The two changes of a tree, in full ----

  /** The slot of a cell, as an access to its table. */
  lemma SlotIsRead(mem: Mem, root: nat, lay: Layout, big: bool, k: nat, c: nat)
    requires Good(mem, root, lay, big) && k <= 3 && InSpace(big, k, c) && PosOf(big, k, c) in lay.tab
    ensures var p := lay.tab[PosOf(big, k, c)];
            && p in mem && Idx(big, k, c) < |mem[p]|
            && Slot(mem, lay, PosOf(big, k, c), Idx(big, k, c)) == mem[p][Idx(big, k, c)]
  {
    hide LeavesOk, Downward, Upward, PosOf, Idx, InSpace;
    PosDepth(big, k, c);
    IdxBelow(big, k, c);
  }

  lemma InstallGood(mem: Mem, root: nat, lay: Layout, big: bool, k: nat, c: nat, q: nat)
    requires Good(mem, root, lay, big) && k < 3 && InSpace(big, k, c) && PosOf(big, k, c) in lay.tab && q !in mem
    requires Slot(mem, lay, PosOf(big, k, c), Idx(big, k, c)).Leaf?
    ensures var x, i := PosOf(big, k, c), Idx(big, k, c);
            && lay.tab[x] in mem && i < |mem[lay.tab[x]]| && lay.tab[x] != q
            && var s := Children(big, k, Slot(mem, lay, x, i).raw);
               var mem', lay' := Store(mem[q := s], lay.tab[x], i, Table(q)), Grown(lay, Sub(x, i), q);
               && Good(mem', root, lay', big)
               && (forall y, j: nat :: Depth(y) > k + 1 ==> Slot(mem', lay', y, j) == Slot(mem, lay, y, j))
               && forall g: nat :: View(mem', lay', big, g) == View(mem, lay, big, g)
  {
    hide View, LeavesOk, Child, InSpace, PosOf, Idx;
    var x, i := PosOf(big, k, c), Idx(big, k, c);
    var s := Children(big, k, Slot(mem, lay, x, i).raw);
    PosDepth(big, k, c);
    IdxBelow(big, k, c);
    Install(mem, root, Fan(big), lay, x, i, q, s);
    var mem', lay' := Store(mem[q := s], lay.tab[x], i, Table(q)), Grown(lay, Sub(x, i), q);
    assert forall y, j: nat :: Depth(y) > k + 1 ==> Slot(mem', lay', y, j) == Slot(mem, lay, y, j);
    hide Installed, Downward, Upward, Placed, Sized, Slot;
    SplitLeavesOk(mem, lay, mem', lay', big, x, i, q);
    forall g: nat ensures View(mem', lay', big, g) == View(mem, lay, big, g) {
      StepSplit(mem, root, lay, mem', lay', big, k, c, q, g);
    }
  }

  lemma WriteGood(mem: Mem, root: nat, lay: Layout, big: bool, k: nat, c: nat, r: nat)
    requires Good(mem, root, lay, big) && k <= 3 && InSpace(big, k, c) && PosOf(big, k, c) in lay.tab
    requires LeafOk(big, k, r)
    ensures var x, i := PosOf(big, k, c), Idx(big, k, c);
            var m1, lay' := mem - Subtree(lay, Sub(x, i)), Pruned(lay, Sub(x, i));
            && lay.tab[x] in m1 && i < |m1[lay.tab[x]]|
            && var mem' := Store(m1, lay.tab[x], i, Leaf(r));
               && Good(mem', root, lay', big)
               && forall g: nat :: View(mem', lay', big, g) ==
                    if Cell(big, k, g) == c then Effect(big, r, Delta(big, k, g)) else View(mem, lay, big, g)
  {
    hide View, LeavesOk, LeafOk, InSpace, PosOf, Idx, Cell, Delta, Effect;
    var x, i := PosOf(big, k, c), Idx(big, k, c);
    PosDepth(big, k, c);
    IdxBelow(big, k, c);
    Prune(mem, root, Fan(big), lay, x, i, r);
    var mem', lay' := Store(mem - Subtree(lay, Sub(x, i)), lay.tab[x], i, Leaf(r)), Pruned(lay, Sub(x, i));
    NotBelowItself(x, i);
    hide PrunedTo, Downward, Upward, Placed, Sized;
    WriteLeavesOk(mem, lay, mem', lay', big, x, i, r);
    forall g: nat ensures View(mem', lay', big, g) ==
      if Cell(big, k, g) == c then Effect(big, r, Delta(big, k, g)) else View(mem, lay, big, g)
    {
      StepWrite(mem, root, lay, mem', lay', big, k, c, r, g);
    }
  }

  /** A table of level 3 has no tables below it. */
  lemma NothingBelow(mem: Mem, lay: Layout, big: bool, y: Pos)
    requires Placed(mem, lay) && Sized(mem, Fan(big), lay) && y in lay.tab && Depth(y) >= 3
    ensures Subtree(lay, y) == {lay.tab[y]}
  {
    forall p | p in Subtree(lay, y) ensures p == lay.tab[y] {
      AboveDepth(y, lay.pos[p]);
    }
  }

  lemma NothingThere(mem: Mem, root: nat, lay: Layout, y: Pos)
    requires Placed(mem, lay) && Upward(mem, root, lay) && y !in lay.tab
    ensures Subtree(lay, y) == {}
  {
    forall p | p in Subtree(lay, y) ensures false {
      AboveInTab(mem, root, lay, y, lay.pos[p]);
    }
  }

  lemma {:induction false} AboveInTab(mem: Mem, root: nat, lay: Layout, y: Pos, x: Pos)
    requires Upward(mem, root, lay) && Above(y, x) && x in lay.tab
    ensures y in lay.tab
    decreases x
  {
    if y != x {
      assert x.up in lay.tab;
      AboveInTab(mem, root, lay, y, x.up);
    }
  }

  /** The table at y points to no other table. */
  ghost predicate Childless(mem: Mem, lay: Layout, y: Pos) {
    forall j: nat :: !Slot(mem, lay, y, j).Table?
  }

  /** The subtree of a table is the table alone exactly when the table is childless. */
  lemma AloneIsChildless(mem: Mem, root: nat, lay: Layout, y: Pos)
    requires Placed(mem, lay) && Downward(mem, lay) && Upward(mem, root, lay) && y in lay.tab
    ensures Subtree(lay, y) == {lay.tab[y]} <==> Childless(mem, lay, y)
  {
    if j: nat :| Slot(mem, lay, y, j).Table? {
      var q := lay.tab[Sub(y, j)];
      assert lay.pos[q] == Sub(y, j) && Above(y, Sub(y, j));
      assert q in Subtree(lay, y);
    } else {
      forall p | p in Subtree(lay, y) ensures p == lay.tab[y] {
        if lay.pos[p] != y { ChildOnTheWay(mem, root, lay, y, lay.pos[p]); }
      }
    }
  }

  lemma {:induction false} ChildOnTheWay(mem: Mem, root: nat, lay: Layout, y: Pos, x: Pos)
    requires Upward(mem, root, lay) && Above(y, x) && y != x && x in lay.tab
    ensures !Childless(mem, lay, y)
    decreases x
  {
    assert x.up in lay.tab && Slot(mem, lay, x.up, x.i) == Table(lay.tab[x]);
    if x.up != y { ChildOnTheWay(mem, root, lay, y, x.up); }
  }

  // ---- Level-3 tables ----

  /** There is a level-3 table for the level-2 cell d. */
  predicate Small(lay: Layout, big: bool, d: nat) { Sub(PosOf(big, 2, d), Idx(big, 2, d)) in lay.tab }

  lemma SmallIs(lay: Layout, big: bool, d: nat)
    requires Sub(PosOf(big, 2, d), Idx(big, 2, d)) in lay.tab
    ensures Small(lay, big, d)
  {
  }

  lemma SmallGrown(lay: Layout, big: bool, k: nat, c: nat, q: nat, d: nat)
    requires k < 3
    ensures Small(Grown(lay, Sub(PosOf(big, k, c), Idx(big, k, c)), q), big, d) <==>
            Small(lay, big, d) || (k == 2 && d == c)
  {
    PosDepth(big, k, c);
    PosDepth(big, 2, d);
    hide PosOf, Idx;
    if k == 2 && PosOf(big, 2, d) == PosOf(big, 2, c) && Idx(big, 2, d) == Idx(big, 2, c) { SlotOfCell(big, 2, d, c); }
  }

  lemma SmallPruned(lay: Layout, big: bool, k: nat, c: nat, d: nat)
    requires 1 <= k <= 3
    ensures Small(Pruned(lay, Sub(PosOf(big, k, c), Idx(big, k, c))), big, d) <==>
            Small(lay, big, d) && !(k == 2 && d == c) && !(k == 1 && Quot(big, d) == c)
  {
    BelowCell(big, k, c, d);
    hide PosOf, Idx;
  }

  /** The level-3 table of d lies below the entry of c. */
  lemma BelowCell(big: bool, k: nat, c: nat, d: nat)
    requires 1 <= k <= 3
    ensures Above(Sub(PosOf(big, k, c), Idx(big, k, c)), Sub(PosOf(big, 2, d), Idx(big, 2, d))) <==>
            (k == 2 && d == c) || (k == 1 && Quot(big, d) == c)
  {
    PosDepth(big, k, c);
    PosDepth(big, 2, d);
    var y, z := Sub(PosOf(big, k, c), Idx(big, k, c)), Sub(PosOf(big, 2, d), Idx(big, 2, d));
    assert z.up == Sub(PosOf(big, 1, Quot(big, d)), Idx(big, 1, Quot(big, d)));
    PosDepth(big, 1, Quot(big, d));
    hide PosOf, Idx;
    if k == 2 && y == z { SlotOfCell(big, 2, d, c); }
    if k == 1 && y == z.up { SlotOfCell(big, 1, Quot(big, d), c); }
    if Above(y, z) { AboveDepth(y, z); }
    if Above(y, z.up) { AboveDepth(y, z.up); }
  }

  /** A level-1 entry leads to a table that points to no table exactly if none of its level-2 cells has one. */
  lemma ChildlessIsSmall(mem: Mem, root: nat, lay: Layout, big: bool, c: nat)
    requires Good(mem, root, lay, big)
    ensures Childless(mem, lay, Sub(PosOf(big, 1, c), Idx(big, 1, c))) <==>
            forall d: nat :: Small(lay, big, d) ==> Quot(big, d) != c
  {
    var y := Sub(PosOf(big, 1, c), Idx(big, 1, c));
    PosDepth(big, 1, c);
    hide LeavesOk, Placed;
    forall d: nat | Quot(big, d) == c ensures Small(lay, big, d) ==> Slot(mem, lay, y, Idx(big, 2, d)).Table? {
      var z := Sub(PosOf(big, 2, d), Idx(big, 2, d));
      assert z.up == y;
    }
    if j: nat :| Slot(mem, lay, y, j).Table? {
      var d := Times(big, c) + j;
      assert j < Entries(big);
      RemOf(big, c, j);
      assert Sub(y, j) in lay.tab && Small(lay, big, d);
    }
  }

  lemma RemOf(big: bool, c: nat, j: nat)
    requires j < Entries(big)
    ensures Quot(big, Times(big, c) + j) == c && Rem(big, Times(big, c) + j) == j
  {
    if big { DivModIs(c * 2048 + j, 2048, c, j); } else { DivModIs(c * 512 + j, 512, c, j); }
  }
}
