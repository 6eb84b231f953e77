/** The CPU's translation tables, changed in place (src/memory.c). */
module MmuTables {
  import opened Arith
  import opened TableHeap
  import opened MmuView
  import opened Bits
  import D = HvDescriptors

  /** BIT(VADDR_Lk_OFFSET_BITS): the bytes that one level-k entry covers. */
  function Unit(big: bool, k: nat): (u: nat)
    ensures u > 0
  {
    if k == 3 then (if big then 0x4000 else 0x1000)
    else if k == 2 then (if big then 0x200_0000 else 0x20_0000)
    else (if big then 0x10_0000_0000 else 0x4000_0000)
  }

  lemma UnitCells(big: bool, k: nat, n: nat)
    requires 1 <= k <= 3
    ensures ToBytes(big, Scale(big, k, n)) == n * Unit(big, k)
  {
    if k == 3 { assert Scale(big, 3, n) == n; }
    else if k == 2 { assert Scale(big, 2, n) == Scale(big, 3, Times(big, n)) == Times(big, n); }
    else { assert Scale(big, 1, n) == Scale(big, 2, Times(big, n)) == Scale(big, 3, Times(big, Times(big, n))); }
  }

  lemma EmptyTree(big: bool, mem: Mem, lay: Layout)
    requires mem == map[1 := seq(Top(big), _ => Leaf(0))] && lay == Layout(map[Root := 1], map[1 := Root])
    ensures Good(mem, 1, lay, big)
    ensures forall g: nat :: View(mem, lay, big, g) == 0
  {
    assert Downward(mem, lay) && Upward(mem, 1, lay) && Sized(mem, Fan(big), lay);
    hide Delta, Cell, Downward, Upward, Sized, Placed;
  }

  lemma InSpaceUp(big: bool, k: nat, c: nat)
    requires InSpace(big, k, c) && k > 0
    ensures InSpace(big, k - 1, Quot(big, c))
  {
  }

  lemma RootPlaced(mem: Mem, root: nat, lay: Layout, big: bool, c: nat)
    requires Good(mem, root, lay, big)
    ensures PosOf(big, 0, c) in lay.tab && lay.tab[PosOf(big, 0, c)] == root
  {
  }

  lemma PointerPlaced(mem: Mem, root: nat, lay: Layout, big: bool, x: Pos, i: nat)
    requires Good(mem, root, lay, big) && x in lay.tab && Slot(mem, lay, x, i).Table?
    ensures Sub(x, i) in lay.tab && lay.tab[Sub(x, i)] == Slot(mem, lay, x, i).ptr
  {
  }

  /** What lies below an entry: nothing below a leaf, and a single table below an entry of level 2 or 3. */
  lemma Released(mem: Mem, root: nat, lay: Layout, big: bool, k: nat, c: nat)
    requires Good(mem, root, lay, big) && k <= 3 && PosOf(big, k, c) in lay.tab
    ensures var x, i := PosOf(big, k, c), Idx(big, k, c);
            var below := Subtree(lay, Sub(x, i));
            && below <= mem.Keys
            && (Slot(mem, lay, x, i).Leaf? ==> below == {})
            && (Slot(mem, lay, x, i).Table? ==> Slot(mem, lay, x, i).ptr in below)
            && (Slot(mem, lay, x, i).Table? && k > 1 ==> below == {Slot(mem, lay, x, i).ptr})
            && (Slot(mem, lay, x, i).Leaf? ==> Childless(mem, lay, Sub(x, i)))
            && (Slot(mem, lay, x, i).Table? ==>
                  (below == {Slot(mem, lay, x, i).ptr} <==> Childless(mem, lay, Sub(x, i))))
  {
    hide LeavesOk;
    var x, i := PosOf(big, k, c), Idx(big, k, c);
    PosDepth(big, k, c);
    if Slot(mem, lay, x, i).Leaf? {
      Vacant(mem, root, lay, x, i);
      NothingThere(mem, root, lay, Sub(x, i));
    } else {
      assert lay.pos[lay.tab[Sub(x, i)]] == Sub(x, i);
      AloneIsChildless(mem, root, lay, Sub(x, i));
      if k > 1 { NothingBelow(mem, lay, big, Sub(x, i)); }
    }
  }

  lemma TreeGrows(mem: Mem, leaked: set<nat>, q: nat, s: seq<Pte>, p: nat, i: nat)
    requires leaked <= mem.Keys && q !in mem && p in mem - leaked && i < |mem[p]|
    ensures Store(mem[q := s], p, i, Table(q)) - leaked == Store((mem - leaked)[q := s], p, i, Table(q))
  {
  }

  lemma TreeShrinks(mem: Mem, leaked: set<nat>, below: set<nat>, q: nat, p: nat, i: nat, r: nat)
    requires q in below && below <= (mem - leaked).Keys && p in mem - leaked - below && i < |mem[p]|
    requires leaked <= mem.Keys
    ensures Store(mem - {q}, p, i, Leaf(r)) - (leaked + (below - {q})) == Store(mem - leaked - below, p, i, Leaf(r))
    ensures leaked + (below - {q}) <= (mem - {q}).Keys
    ensures below == {q} <==> leaked + (below - {q}) == leaked
  {
    if below != {q} {
      var y :| y in below && y != q;
      assert y !in leaked && y in leaked + (below - {q});
    }
  }

  lemma TreeStays(mem: Mem, leaked: set<nat>, below: set<nat>, p: nat, i: nat, r: nat)
    requires below == {} && p in mem - leaked && i < |mem[p]|
    ensures Store(mem, p, i, Leaf(r)) - leaked == Store(mem - leaked - below, p, i, Leaf(r))
  {
    assert mem - leaked - below == mem - leaked;
  }

  /** The level-2 cell d lies in the level-k cell c, or at level 3 holds it. */
  predicate InCell(big: bool, k: nat, c: nat, d: nat) {
    if k == 3 then Quot(big, c) == d else if k == 2 then c == d else Quot(big, d) == c
  }

  /** Where the level-2 cell d starts. */
  function BlockStart(big: bool, d: nat): nat { if big then d * 0x200_0000 else d * 0x20_0000 }

  /** The range has bytes of the level-2 cell d. */
  predicate Meets(big: bool, from: nat, size: nat, d: nat) {
    size > 0 && BlockStart(big, d) < from + size && from < BlockStart(big, d) + Unit(big, 2)
  }

  lemma MeetsMore(big: bool, from0: nat, from: nat, u: nat, d: nat)
    requires from0 <= from
    ensures Meets(big, from0, from + u - from0, d) <==> Meets(big, from0, from - from0, d) || Meets(big, from, u, d)
  {
  }

  lemma BlockOf(big: bool, k: nat, from: nat)
    requires 1 <= k < 3 && from % Unit(big, k) == 0
    ensures exists q: nat :: from == BlockStart(big, q)
  {
    var q := from / Unit(big, 2);
    if k == 1 { if big { Nested(from, 0x200_0000, 2048); } else { Nested(from, 0x20_0000, 512); } }
    assert from == BlockStart(big, q);
  }

  /** Entries of levels 1 and 2 begin new level-2 cells. */
  lemma MeetsOnce(big: bool, k: nat, from0: nat, from: nat, u: nat, d: nat)
    requires 1 <= k < 3 && from0 <= from && from % Unit(big, k) == 0
    ensures !(Meets(big, from0, from - from0, d) && Meets(big, from, u, d))
  {
    BlockOf(big, k, from);
    var q: nat :| from == BlockStart(big, q);
    NewCell(big, from0, from, u, q, d);
  }

  lemma NewCell(big: bool, from0: nat, from: nat, u: nat, q: nat, d: nat)
    requires from0 <= from == BlockStart(big, q)
    ensures !(Meets(big, from0, from - from0, d) && Meets(big, from, u, d))
  {
  }

  lemma MeetsNone(big: bool, from: nat, d: nat)
    ensures !Meets(big, from, 0, d)
  {
  }

  /** No level-2 cell of the range has a level-3 table. */
  ghost predicate Spared(lay: Layout, big: bool, from: nat, size: nat) {
    forall d: nat :: Small(lay, big, d) ==> !Meets(big, from, size, d)
  }

  /** The level-3 tables after a range was mapped at level k. */
  ghost predicate Tabled(was: Layout, now: Layout, big: bool, k: nat, from: nat, size: nat) {
    forall d: nat :: Small(now, big, d) == if Meets(big, from, size, d) then k == 3 else Small(was, big, d)
  }

  lemma TabledNone(lay: Layout, big: bool, k: nat, from: nat)
    ensures Tabled(lay, lay, big, k, from, 0) && Spared(lay, big, from, 0)
  {
  }

  /** One more entry. */
  lemma TabledMore(was: Layout, mid: Layout, now: Layout, big: bool, k: nat, from0: nat, from: nat, u: nat)
    requires from0 <= from && Tabled(was, mid, big, k, from0, from - from0) && Tabled(mid, now, big, k, from, u)
    ensures Tabled(was, now, big, k, from0, from + u - from0)
  {
    hide Small;
    forall d: nat ensures Small(now, big, d) ==
      if Meets(big, from0, from + u - from0, d) then k == 3 else Small(was, big, d)
    {
      MeetsMore(big, from0, from, u, d);
      assert Small(mid, big, d) == if Meets(big, from0, from - from0, d) then k == 3 else Small(was, big, d);
    }
  }

  /** What one more level-1 entry leaks, and what all up to it did. */
  lemma SparedMore(was: Layout, now: Layout, big: bool, from0: nat, from: nat, u: nat)
    requires from0 <= from && from % Unit(big, 1) == 0 && Tabled(was, now, big, 1, from0, from - from0)
    ensures Spared(was, big, from0, from + u - from0) <==>
            Spared(was, big, from0, from - from0) && Spared(now, big, from, u)
  {
    forall d: nat
      ensures Meets(big, from0, from + u - from0, d) <==> Meets(big, from0, from - from0, d) || Meets(big, from, u, d)
      ensures !(Meets(big, from0, from - from0, d) && Meets(big, from, u, d))
    {
      MeetsMore(big, from0, from, u, d);
      MeetsOnce(big, 1, from0, from, u, d);
    }
    hide Meets, Small;
  }

  lemma CellMeets(big: bool, k: nat, c: nat, d: nat)
    requires 1 <= k <= 3
    ensures InCell(big, k, c, d) <==> Meets(big, Span(big, k, c), Unit(big, k), d)
  {
    UnitCells(big, k, c);
    hide Scale, ToBytes;
  }

  /** The level-3 tables after a request has got `done` bytes far, with level-3 entries for its first `head` and its
      last `tail` bytes. */
  ghost predicate Mixed(was: Layout, now: Layout, big: bool, from: nat, done: nat, head: nat, tail: nat) {
    head <= done && tail <= done &&
    forall d: nat :: Small(now, big, d) ==
      if Meets(big, from, done, d) then Meets(big, from, head, d) || Meets(big, from + (done - tail), tail, d)
      else Small(was, big, d)
  }

  lemma MixedHead(was: Layout, now: Layout, big: bool, from: nat, head: nat)
    requires Tabled(was, now, big, 3, from, head)
    ensures Mixed(was, now, big, from, head, head, 0)
  {
    hide Small;
  }

  lemma MixedBlocks(was: Layout, mid: Layout, now: Layout, big: bool, k: nat, from: nat, done: nat, head: nat, u: nat)
    requires Mixed(was, mid, big, from, done, head, 0) && Tabled(mid, now, big, k, from + done, u)
    requires 1 <= k < 3 && (u > 0 ==> (from + done) % Unit(big, 2) == 0)
    ensures Mixed(was, now, big, from, done + u, head, 0)
  {
    hide Small;
    forall d: nat ensures Small(now, big, d) ==
      if Meets(big, from, done + u, d) then Meets(big, from, head, d) || Meets(big, from + (done + u), 0, d)
      else Small(was, big, d)
    {
      MeetsMore(big, from, from + done, u, d);
      MeetsMore(big, from, from + head, done - head, d);
      if u > 0 { MeetsOnce(big, 2, from, from + done, u, d); } else { MeetsNone(big, from + done, d); }
      MeetsNone(big, from + done, d);
      MeetsNone(big, from + (done + u), d);
      hide Meets;
    }
  }

  lemma MixedTail(was: Layout, mid: Layout, now: Layout, big: bool, from: nat, done: nat, head: nat, tail: nat)
    requires Mixed(was, mid, big, from, done, head, 0) && Tabled(mid, now, big, 3, from + done, tail)
    ensures Mixed(was, now, big, from, done + tail, head, tail)
  {
    hide Small;
    forall d: nat ensures Small(now, big, d) ==
      if Meets(big, from, done + tail, d) then Meets(big, from, head, d) || Meets(big, from + done, tail, d)
      else Small(was, big, d)
    {
      MeetsMore(big, from, from + done, tail, d);
      MeetsNone(big, from + done, d);
      hide Meets;
    }
  }

  /** What lies behind the part that is done has the tables that it had. */
  lemma SparedAhead(was: Layout, now: Layout, big: bool, from: nat, done: nat, head: nat, u: nat)
    requires Mixed(was, now, big, from, done, head, 0) && (u > 0 ==> (from + done) % Unit(big, 2) == 0)
    ensures Spared(now, big, from + done, u) <==> Spared(was, big, from + done, u)
  {
    hide Small;
    forall d: nat | Meets(big, from + done, u, d) ensures Small(now, big, d) == Small(was, big, d) {
      MeetsOnce(big, 2, from, from + done, u, d);
    }
  }

  lemma EntryTabled(was: Layout, now: Layout, big: bool, k: nat, c: nat)
    requires 1 <= k <= 3
    requires forall d: nat :: Small(now, big, d) == if InCell(big, k, c, d) then k == 3 else Small(was, big, d)
    ensures Tabled(was, now, big, k, Span(big, k, c), Unit(big, k))
  {
    forall d: nat ensures InCell(big, k, c, d) <==> Meets(big, Span(big, k, c), Unit(big, k), d) {
      CellMeets(big, k, c, d);
    }
    hide Span, InCell, Meets, Small, Unit;
  }

  lemma EntrySpared(lay: Layout, big: bool, k: nat, c: nat)
    requires 1 <= k <= 3
    ensures Spared(lay, big, Span(big, k, c), Unit(big, k)) <==>
            forall d: nat :: Small(lay, big, d) ==> !InCell(big, k, c, d)
  {
    forall d: nat ensures InCell(big, k, c, d) <==> Meets(big, Span(big, k, c), Unit(big, k), d) {
      CellMeets(big, k, c, d);
    }
    hide Span, InCell, Meets, Small, Unit;
  }

  lemma SpanWhole(big: bool, k: nat, c: nat)
    requires 1 <= k <= 3
    ensures Span(big, k, c) % Unit(big, k) == 0
  {
    UnitCells(big, k, c);
    DivModIs(c * Unit(big, k), Unit(big, k), c, 0);
    hide Scale, ToBytes;
  }

  class Mmu {
    const big: bool
    const ramBase: nat
    const base: nat
    const root: nat
    // All allocated tables.
    var mem: Mem
    ghost var lay: Layout
    // Tables that are allocated but no longer part of the tree.
    ghost var leaked: set<nat>

    ghost function Tree(): Mem
      reads this
    {
      mem - leaked
    }

    ghost predicate Valid()
      reads this
    {
      base % 2 == 0 && leaked <= mem.Keys && Good(Tree(), root, lay, big) && (big ==> leaked == {})
    }

    /** The flat map that the tree stands for: attributes and output address of page g, 0 where it faults. */
    ghost function At(g: nat): nat
      reads this
    {
      View(Tree(), lay, big, g)
    }

    /** There is a level-3 table for the level-2 cell d. */
    ghost predicate HasL3(d: nat)
      reads this
    {
      Small(lay, big, d)
    }

    /** The level-2 cells that have a level-3 table. */
    ghost function Fine(): iset<nat>
      reads this
    {
      FineOf(lay, big)
    }

    /** mmu_init_pagetables. */
    constructor (big: bool, ramBase: nat, base: nat)
      requires base % 2 == 0
      ensures Valid() && this.big == big && this.ramBase == ramBase && this.base == base
      ensures leaked == {} && mem.Keys == {root}
      ensures forall g: nat :: At(g) == 0
      ensures Fine() == iset{}
    {
      hide Good, View;
      this.big, this.ramBase, this.base := big, ramBase, base;
      root := 1;
      mem := map[1 := seq(Top(big), _ => Leaf(0))];
      lay := Layout(map[Root := 1], map[1 := Root]);
      leaked := {};
      new;
      assert Tree() == mem;
      EmptyTree(big, mem, lay);
    }

    /** memalign and the writes that fill the new table. */
    method Memalign(s: seq<Pte>) returns (q: nat)
      modifies `mem
      ensures q !in old(mem) && mem == old(mem)[q := s]
    {
      FreshAddress(mem.Keys);
      q :| q !in mem;
      mem := mem[q := s];
    }

    /** The contents of the table that replaces leaf d of level k. */
    method NewEntries(k: nat, d: nat) returns (s: seq<Pte>)
      requires k < 3
      ensures s == Children(big, k, d)
    {
      s := [];
      var cur := if IsValid(d) then D.WithType(d, if k == 2 then 1 else 0) else 0;
      var step := if IsValid(d) then Unit(big, k + 1) else 0;
      ScaleAdds(big, k + 1, 0, 0);
      for idx := 0 to Entries(big)
        invariant |s| == idx && (IsValid(d) ==> cur == Child(big, k, d, idx)) && (!IsValid(d) ==> cur == 0)
        invariant forall j :: 0 <= j < idx ==> s[j] == Leaf(Child(big, k, d, j))
      {
        s := s + [Leaf(cur)];
        cur := cur + step;
        NextChild(big, k, d, idx);
      }
    }

    /** A new table takes the place of the leaf of a level-k cell. */
    method NewTable(k: nat, c: nat, parent: nat) returns (p: nat)
      requires Valid() && k < 3 && InSpace(big, k, c)
      requires PosOf(big, k, c) in lay.tab && parent == lay.tab[PosOf(big, k, c)]
      requires Slot(Tree(), lay, PosOf(big, k, c), Idx(big, k, c)).Leaf?
      modifies `mem, `lay
      ensures Valid() && Sub(PosOf(big, k, c), Idx(big, k, c)) in lay.tab
      ensures p == lay.tab[Sub(PosOf(big, k, c), Idx(big, k, c))]
      ensures forall g: nat :: At(g) == old(At(g))
      ensures forall y, j: nat :: Depth(y) > k + 1 ==> Slot(Tree(), lay, y, j) == old(Slot(Tree(), lay, y, j))
      ensures forall d: nat :: HasL3(d) <==> old(HasL3(d)) || (k == 2 && d == c)
    {
      hide Good, View, Children, InSpace, IsValid, Slot, Small, PosOf, Idx;
      SlotIsRead(Tree(), root, lay, big, k, c);
      var i := Idx(big, k, c);
      var s := NewEntries(k, mem[parent][i].raw);
      ghost var m0, l0 := mem, lay;
      p := Memalign(s);
      InstallGood(m0 - leaked, root, lay, big, k, c, p);
      TreeGrows(m0, leaked, p, s, parent, i);
      mem := Store(mem, parent, i, Table(p));
      lay := Grown(lay, Sub(PosOf(big, k, c), i), p);
      forall d: nat ensures HasL3(d) <==> Small(l0, big, d) || (k == 2 && d == c) {
        SmallGrown(l0, big, k, c, p, d);
      }
    }

    /** mmu_pt_get_l1, mmu_pt_get_l2 and mmu_pt_get_l3: the level-k table for a cell, made if need be. */
    method GetTable(k: nat, c: nat) returns (p: nat)
      requires Valid() && k <= 3 && InSpace(big, k, c)
      modifies `mem, `lay
      ensures Valid() && PosOf(big, k, c) in lay.tab && p == lay.tab[PosOf(big, k, c)]
      ensures forall g: nat :: At(g) == old(At(g))
      ensures forall y, j: nat :: Depth(y) > k ==> Slot(Tree(), lay, y, j) == old(Slot(Tree(), lay, y, j))
      ensures forall d: nat :: HasL3(d) <==> old(HasL3(d)) || (k == 3 && d == Quot(big, c))
    {
      hide Good, View, InSpace, Slot, Small;
      if k == 0 {
        RootPlaced(Tree(), root, lay, big, c);
        return root;
      }
      InSpaceUp(big, k, c);
      var up := Quot(big, c);
      var parent := GetTable(k - 1, up);
      var i := Idx(big, k - 1, up);
      SlotIsRead(Tree(), root, lay, big, k - 1, up);
      var e := mem[parent][i];
      if e.Table? {
        PointerPlaced(Tree(), root, lay, big, PosOf(big, k - 1, up), i);
        if k == 3 { SmallIs(lay, big, up); }
        return e.ptr;
      }
      p := NewTable(k - 1, up, parent);
    }

    /** The entry of a cell becomes a leaf.  A table that it pointed to is released, but not the tables below that
        one. */
    method Overwrite(k: nat, c: nat, r: nat, p: nat)
      requires Valid() && 1 <= k <= 3 && InSpace(big, k, c) && LeafOk(big, k, r) && (big ==> k > 1)
      requires PosOf(big, k, c) in lay.tab && p == lay.tab[PosOf(big, k, c)]
      modifies this
      ensures Valid() && old(leaked) <= leaked && (k > 1 ==> leaked == old(leaked))
      ensures leaked == old(leaked) <==> old(Childless(Tree(), lay, Sub(PosOf(big, k, c), Idx(big, k, c))))
      ensures forall d: nat :: HasL3(d) <==> old(HasL3(d)) && !(k < 3 && InCell(big, k, c, d))
      ensures forall g: nat :: At(g) ==
                if Cell(big, k, g) == c then Effect(big, r, Delta(big, k, g)) else old(At(g))
    {
      hide Good, View, InSpace, LeafOk, Cell, Delta, Effect, PosOf, Idx, Subtree, Pruned, Slot, Small, Childless;
      var i := Idx(big, k, c);
      SlotIsRead(Tree(), root, lay, big, k, c);
      WriteGood(Tree(), root, lay, big, k, c, r);
      ghost var x, m0, l0, lay0 := PosOf(big, k, c), mem, leaked, lay;
      ghost var below := Subtree(lay, Sub(x, i));
      Released(Tree(), root, lay, big, k, c);
      if mem[p][i].Table? {
        var q := mem[p][i].ptr;
        mem := mem - {q};
        leaked := leaked + (below - {q});
        TreeShrinks(m0, l0, below, q, p, i, r);
      } else {
        TreeStays(m0, l0, below, p, i, r);
      }
      mem := Store(mem, p, i, Leaf(r));
      lay := Pruned(lay, Sub(x, i));
      forall d: nat ensures HasL3(d) <==> Small(lay0, big, d) && !(k < 3 && InCell(big, k, c, d)) {
        SmallPruned(lay0, big, k, c, d);
      }
    }

    /** One turn of mmu_pt_map_l1, mmu_pt_map_l2 or mmu_pt_map_l3.  A level-1 leaf leaks tables exactly if there is a
        level-3 table below it. */
    method SetEntry(k: nat, c: nat, r: nat)
      requires Valid() && 1 <= k <= 3 && InSpace(big, k, c) && LeafOk(big, k, r) && (big ==> k > 1)
      modifies this
      ensures Valid() && old(leaked) <= leaked && (k > 1 ==> leaked == old(leaked))
      ensures k == 1 ==> (leaked == old(leaked) <==>
                          old(Childless(Tree(), lay, Sub(PosOf(big, 1, c), Idx(big, 1, c)))))
      ensures k == 1 ==> (leaked == old(leaked) <==> forall d: nat :: old(HasL3(d)) ==> !InCell(big, 1, c, d))
      ensures forall d: nat :: HasL3(d) == if InCell(big, k, c, d) then k == 3 else old(HasL3(d))
      ensures forall g: nat :: At(g) ==
                if Cell(big, k, g) == c then Effect(big, r, Delta(big, k, g)) else old(At(g))
    {
      hide Good, View, InSpace, LeafOk, Cell, Delta, Effect, PosOf, Idx, Slot, Small;
      if k == 1 {
        ChildlessIsSmall(Tree(), root, lay, big, c);
        assert forall d: nat :: Small(lay, big, d) ==> HasL3(d);
      }
      PosDepth(big, k, c);
      var p := GetTable(k, c);
      Overwrite(k, c, r, p);
    }

    /** The same in terms of addresses, as the last of the entries from from0 on. */
    method SetNext(k: nat, from: nat, to: nat, ghost c: nat, ghost from0: nat, ghost lay0: Layout,
                   ghost leaked0: set<nat>)
      requires Valid() && 1 <= k <= 3 && InSpace(big, k, c) && LeafOk(big, k, to) && (big ==> k > 1)
      requires from == Span(big, k, c) && from0 <= from && Tabled(lay0, lay, big, k, from0, from - from0)
      requires leaked0 <= leaked && (k > 1 ==> leaked == leaked0)
      requires k == 1 ==> (leaked == leaked0 <==> Spared(lay0, big, from0, from - from0))
      modifies this
      ensures Valid() && leaked0 <= leaked && (k > 1 ==> leaked == leaked0)
      ensures Tabled(lay0, lay, big, k, from0, from + Unit(big, k) - from0)
      ensures k == 1 ==> (leaked == leaked0 <==> Spared(lay0, big, from0, from + Unit(big, k) - from0))
      ensures forall g: nat :: At(g) ==
                if Cell(big, k, g) == c then Effect(big, to, Delta(big, k, g)) else old(At(g))
    {
      hide Good, View, InSpace, LeafOk, Cell, Delta, Effect, PosOf, Idx, Small, Childless, Slot, Tree, Unit, Meets,
        Span, InCell, Spared, Tabled;
      NextSpan(big, k, c);
      ghost var mid := lay;
      SetEntry(k, from / Unit(big, k), to);
      EntryTabled(mid, lay, big, k, c);
      TabledMore(lay0, mid, lay, big, k, from0, from, Unit(big, k));
      if k == 1 {
        SpanWhole(big, k, c);
        SparedMore(lay0, mid, big, from0, from, Unit(big, k));
        EntrySpared(mid, big, k, c);
      }
    }

    /** The i cells of level k from c0 on are mapped, and nothing else has changed. */
    ghost predicate Filled(was: nat -> nat, k: nat, c0: nat, i: nat, to0: nat)
      reads this
    {
      forall g: nat :: At(g) ==
        if Scale(big, k, c0) <= g < Scale(big, k, c0) + Scale(big, k, i)
        then Effect(big, to0, g - Scale(big, k, c0)) else was(g)
    }

    /** The same in terms of the whole range. */
    method FillNext(k: nat, from: nat, to: nat, ghost c0: nat, ghost i: nat, ghost to0: nat, ghost was: nat -> nat,
                    ghost from0: nat, ghost lay0: Layout, ghost leaked0: set<nat>)
      requires Valid() && 1 <= k <= 3 && InSpace(big, k, c0 + i) && LeafOk(big, k, to) && (big ==> k > 1)
      requires from == Span(big, k, c0 + i) && from0 <= from && Tabled(lay0, lay, big, k, from0, from - from0)
      requires leaked0 <= leaked && (k > 1 ==> leaked == leaked0)
      requires k == 1 ==> (leaked == leaked0 <==> Spared(lay0, big, from0, from - from0))
      requires Filled(was, k, c0, i, to0) && to == D.WithType(to0, if k == 3 then 1 else 0) + Span(big, k, i)
      modifies this
      ensures Valid() && leaked0 <= leaked && (k > 1 ==> leaked == leaked0)
      ensures Tabled(lay0, lay, big, k, from0, from + Unit(big, k) - from0)
      ensures k == 1 ==> (leaked == leaked0 <==> Spared(lay0, big, from0, from + Unit(big, k) - from0))
      ensures Filled(was, k, c0, i + 1, to0)
    {
      hide Good, View, InSpace, LeafOk, Cell, Delta, Effect, Scale, Span, D.WithType, Unit, Tree, Tabled, Spared;
      SetNext(k, from, to, c0 + i, from0, lay0, leaked0);
      forall g: nat ensures At(g) ==
        if Scale(big, k, c0) <= g < Scale(big, k, c0) + Scale(big, k, i + 1)
        then Effect(big, to0, g - Scale(big, k, c0)) else was(g)
      {
        CellPages(big, k, c0, i, to0, g);
      }
    }

    /** mmu_pt_map_l1, mmu_pt_map_l2 and mmu_pt_map_l3.  The preconditions on alignment are the assertions at their
        start. */
    method MapLevel(k: nat, from0: nat, to0: nat, size0: nat)
      requires Valid() && 1 <= k <= 3 && (big ==> k > 1) && from0 + size0 <= SPACE
      requires from0 % Unit(big, k) == 0 && size0 % Unit(big, k) == 0 && Delta(big, k, PageNo(big, to0)) == 0
      requires D.Type(to0) == 0
      modifies this
      ensures Valid() && old(leaked) <= leaked && (k > 1 ==> leaked == old(leaked))
      ensures Tabled(old(lay), lay, big, k, from0, size0)
      ensures k == 1 ==> (leaked == old(leaked) <==> Spared(old(lay), big, from0, size0))
      ensures forall g: nat :: At(g) ==
                if PageNo(big, from0) <= g < PageNo(big, from0) + PageNo(big, size0)
                then Effect(big, to0, g - PageNo(big, from0)) else old(At(g))
    {
      hide Good, View, InSpace, LeafOk, Cell, Delta, Effect, Scale, Span, ToBytes, D.Type, D.WithType, PageNo, Unit,
        Filled, Tree, Tabled, Spared;
      ghost var tree, l0 := Tree(), lay;
      ghost var was := (g: nat) => View(tree, l0, big, g);
      ghost var c0, n := from0 / Unit(big, k), size0 / Unit(big, k);
      WholeUnits(big, k, from0);
      WholeUnits(big, k, size0);
      SpanAdds(big, k, 0, 0);
      ScaleAdds(big, k, 0, 0);
      var from, size := from0, size0;
      var to: nat := D.WithType(to0, if k == 3 then 1 else 0);
      ghost var i: nat := 0;
      TabledNone(lay, big, k, from0);
      FilledNone(was, k, c0, to0);
      while size > 0
        invariant i <= n && Valid() && old(leaked) <= leaked && (k > 1 ==> leaked == old(leaked))
        invariant from0 <= from == Span(big, k, c0 + i) && size == Span(big, k, n - i)
        invariant Tabled(old(lay), lay, big, k, from0, from - from0)
        invariant k == 1 ==> (leaked == old(leaked) <==> Spared(old(lay), big, from0, from - from0))
        invariant to == D.WithType(to0, if k == 3 then 1 else 0) + Span(big, k, i)
        invariant Filled(was, k, c0, i, to0)
        decreases size
      {
        assert i < n;
        SpanAdds(big, k, c0 + i, n - i);
        SpanAdds(big, k, c0, n);
        NextSpan(big, k, c0 + i);
        NextSpan(big, k, n - i - 1);
        NextSpan(big, k, i);
        CellInSpace(big, k, c0 + i);
        EntryOk(big, k, to0, i);
        FillNext(k, from, to, c0, i, to0, was, from0, old(lay), old(leaked));
        size := size - Unit(big, k);
        from := from + Unit(big, k);
        to := to + Unit(big, k);
        i := i + 1;
      }
      SpanGrows(big, k, n - i);
      assert i == n;
      SpanAdds(big, k, c0, n);
      FilledAt(was, k, c0, n, to0);
    }

    lemma FilledNone(was: nat -> nat, k: nat, c0: nat, to0: nat)
      requires forall g: nat :: At(g) == was(g)
      ensures Filled(was, k, c0, 0, to0)
    {
      hide View, Effect, Scale;
      ScaleAdds(big, k, 0, 0);
    }

    lemma FilledAt(was: nat -> nat, k: nat, c0: nat, n: nat, to0: nat)
      requires Filled(was, k, c0, n, to0)
      ensures forall g: nat :: At(g) ==
                if Scale(big, k, c0) <= g < Scale(big, k, c0) + Scale(big, k, n)
                then Effect(big, to0, g - Scale(big, k, c0)) else was(g)
    {
      hide View, Effect, Scale;
    }

    /** The first d pages of the request are mapped, and nothing else has changed. */
    ghost predicate Progress(from0: nat, to0: nat, d: nat, was: nat -> nat)
      reads this
    {
      forall g: nat :: At(g) == MappedTo(big, from0, to0, d, was(g), g)
    }

    /** A call of mmu_pt_map_lk in the middle of a request: its assertions fail, or d grows by its size. */
    method Chunk(k: nat, from: nat, to: nat, chunk: nat, ghost from0: nat, ghost to0: nat, ghost d: nat,
                 ghost was: nat -> nat) returns (ok: bool)
      requires Valid() && 1 <= k <= 3 && (big ==> k > 1) && D.Type(to0) == 0 && Progress(from0, to0, d, was)
      requires from == from0 + ToBytes(big, d) && to == to0 + ToBytes(big, d)
      requires from + chunk <= SPACE
      modifies this
      ensures Valid() && old(leaked) <= leaked && (k > 1 ==> leaked == old(leaked))
      ensures ok <==> AssertsHold(big, k, from, to, chunk)
      ensures Progress(from0, to0, if ok then d + PageNo(big, chunk) else d, was)
      ensures ok ==> Tabled(old(lay), lay, big, k, from, chunk)
      ensures ok && k == 1 ==> (leaked == old(leaked) <==> Spared(old(lay), big, from, chunk))
      ensures !ok ==> lay == old(lay) && leaked == old(leaked)
    {
      hide Good, View, Delta, Effect, Scale, ToBytes, D.Type, PageNo, Unit, Tree, Tabled, Spared;
      ok := AssertsHold(big, k, from, to, chunk);
      if !ok { return; }
      TypeAdvanced(big, to0, d);
      MapLevel(k, from, to, chunk);
      PageAdvanced(big, from0, d);
      forall g: nat ensures At(g) == MappedTo(big, from0, to0, d + PageNo(big, chunk), was(g), g) {
        if PageNo(big, from0) + d <= g { EffectAdvanced(big, to0, d, g - PageNo(big, from0) - d); }
      }
    }

    /** A request for [from0, from0 + size0) has got to `from`, with `size` left. */
    ghost predicate Here(from0: nat, to0: nat, size0: nat, from: nat, to: nat, size: nat, was: nat -> nat)
      reads this
    {
      && Paged(big, from0) && Paged(big, size0) && Paged(big, size) && size <= size0 && from0 + size0 <= SPACE
      && from == from0 + (size0 - size) && to == to0 + (size0 - size) && D.Type(to0) == 0
      && Progress(from0, to0, PageNo(big, size0 - size), was)
    }

    /** The step that all parts of mmu_map have in common. */
    method Go(k: nat, from: nat, to: nat, size: nat, chunk: nat, ghost from0: nat, ghost to0: nat, ghost size0: nat,
              ghost was: nat -> nat) returns (ok: bool, from': nat, to': nat, size': nat)
      requires Valid() && 1 <= k <= 3 && (big ==> k > 1) && Here(from0, to0, size0, from, to, size, was)
      requires chunk <= size && Paged(big, chunk)
      modifies this
      ensures Valid() && old(leaked) <= leaked && (k > 1 ==> leaked == old(leaked))
      ensures ok <==> chunk == 0 || AssertsHold(big, k, from, to, chunk)
      ensures ok ==> from' == from + chunk && to' == to + chunk && size' == size - chunk
      ensures ok ==> Here(from0, to0, size0, from', to', size', was)
      ensures !ok ==> Progress(from0, to0, PageNo(big, size0 - size), was)
      ensures ok ==> Tabled(old(lay), lay, big, k, from, chunk)
      ensures ok && k == 1 ==> (leaked == old(leaked) <==> Spared(old(lay), big, from, chunk))
      ensures !ok || chunk == 0 ==> lay == old(lay) && leaked == old(leaked)
    {
      hide Good, View, Delta, Effect, Scale, ToBytes, D.Type, PageNo, Unit, Tree, AssertsHold, Progress, Paged, Tabled,
        Spared;
      TabledNone(lay, big, k, from);
      ok, from', to', size' := true, from, to, size;
      if chunk != 0 {
        PagedMinus(big, size0, size);
        PagedMinus(big, size, chunk);
        PagedPlus(big, size0 - size, chunk);
        ok := Chunk(k, from, to, chunk, from0, to0, PageNo(big, size0 - size), was);
        from', to', size' := from + chunk, to + chunk, size - chunk;
      }
    }

    /** Level-3 entries up to the boundary of a level-2 block, or of the image. */
    method Head(from0: nat, to0: nat, size0: nat, ghost was: nat -> nat) returns (from: nat, to: nat, size: nat)
      requires Valid() && Here(from0, to0, size0, from0, to0, size0, was)
      modifies this
      ensures Valid() && leaked == old(leaked) && Here(from0, to0, size0, from, to, size, was)
      ensures size == size0 - HeadSize(big, ramBase, base, from0, size0)
      ensures size > 0 ==> from % Unit(big, 2) == 0
      ensures size <= size0 && Mixed(old(lay), lay, big, from0, size0 - size, size0 - size, 0)
    {
      hide Good, View, Delta, Effect, Scale, ToBytes, D.Type, PageNo, Tree, Progress, AlignUpMask, Tabled, Mixed;
      var boundary := AlignUpMask(from0, Unit(big, 2));
      if boundary >= ramBase && boundary < base {
        boundary := AlignUpMask(base, Unit(big, 2));
      }
      BoundaryIs(big, ramBase, base, from0);
      var chunk := if size0 < boundary - from0 then size0 else boundary - from0;
      PagedMinus(big, boundary, from0);
      PageAsserts(big, from0, to0, chunk);
      var ok;
      ok, from, to, size := Go(3, from0, to0, size0, chunk, from0, to0, size0, was);
      MixedHead(old(lay), lay, big, from0, chunk);
    }

    lemma HereIs(from0: nat, to0: nat, size0: nat, from: nat, to: nat, size: nat, was: nat -> nat)
      requires Here(from0, to0, size0, from, to, size, was)
      ensures Paged(big, from) && Paged(big, size) && from + size == from0 + size0 <= SPACE
    {
      hide Progress;
      PagedMinus(big, size0, size);
      PagedSum(big, from0, size0 - size);
    }

    /** The part that only 4K tables have: level-2 entries up to the boundary of a level-1 block, then level-1
        blocks.  The blocks leak tables exactly if there were level-3 tables where they are. */
    method Large(from1: nat, to1: nat, size1: nat, ghost from0: nat, ghost to0: nat, ghost size0: nat,
                 ghost was: nat -> nat, ghost lay0: Layout, ghost h: nat)
      returns (ok: bool, from: nat, to: nat, size: nat)
      requires Valid() && !big && Here(from0, to0, size0, from1, to1, size1, was)
      requires size1 > 0 ==> from1 % Unit(big, 2) == 0
      requires size1 <= size0 && Mixed(lay0, lay, big, from0, size0 - size1, h, 0)
      modifies this
      ensures Valid() && old(leaked) <= leaked
      ensures ok <==> !Fires(from1, to1, size1)
      ensures ok ==> Here(from0, to0, size0, from, to, size, was) && (size > 0 ==> from % Unit(big, 2) == 0)
      ensures !ok ==> Progress(from0, to0, PageNo(big, size0 - size1), was)
      ensures ok ==> size <= size0 && Mixed(lay0, lay, big, from0, size0 - size, h, 0)
      ensures ok ==> RestTail(big, to, size) == RestTail(big, to1, size1)
      ensures ok ==>
                (leaked == old(leaked) <==>
                   Spared(lay0, big, BlocksFrom(from1, size1), BlocksSize(from1, to1, size1)))
      ensures !ok ==> lay == old(lay) && leaked == old(leaked)
    {
      hide Good, View, Effect, ToBytes, D.Type, PageNo, Tree, Progress, AlignUpMask, AlignDownMask, AlignedL2, MidClear,
        AssertsHold, Mixed, Tabled, Spared, RestTail, BlocksFrom, BlocksSize, Fires, Here;
      var boundary := AlignUpMask(from1, Unit(big, 1));
      var whole := AlignDownMask(size1, Unit(big, 1));
      HereIs(from0, to0, size0, from1, to1, size1, was);
      WhereIs(from0, to0, size0, from1, to1, size1, was);
      LargeParts(from1, size1);
      var chunk := if whole < boundary - from1 then whole else boundary - from1;
      PartsOf(from1, to1, size1, chunk);
      hide FirstPart;
      if chunk > 0 { AssertsL2(from1, to1, chunk); }
      ok, from, to, size := Go(2, from1, to1, size1, chunk, from0, to0, size0, was);
      if !ok { return; }
      MixedBlocks(lay0, old(lay), lay, big, 2, from0, size0 - size1, h, chunk);
      TailKept(to1, size1, chunk);
      KeepsL2(to1, chunk);
      chunk := AlignDownMask(size, Unit(big, 1));
      ok, from, to, size := Blocks(from, to, size, chunk, from0, to0, size0, was, lay0, h);
    }

    /** The level-1 blocks of a request. */
    method Blocks(from1: nat, to1: nat, size1: nat, chunk: nat, ghost from0: nat, ghost to0: nat, ghost size0: nat,
                  ghost was: nat -> nat, ghost lay0: Layout, ghost h: nat)
      returns (ok: bool, from: nat, to: nat, size: nat)
      requires Valid() && !big && Here(from0, to0, size0, from1, to1, size1, was) && size1 <= size0
      requires chunk <= size1 && chunk % 0x4000_0000 == 0 && (chunk > 0 ==> from1 % 0x4000_0000 == 0)
      requires Mixed(lay0, lay, big, from0, size0 - size1, h, 0)
      modifies this
      ensures Valid() && old(leaked) <= leaked
      ensures ok <==> chunk == 0 || !MidClear(to1) || AlignedL2(to1)
      ensures ok ==> Here(from0, to0, size0, from, to, size, was)
      ensures ok ==> size == size1 - (if MidClear(to1) then chunk else 0) && from == from1 + (size1 - size)
      ensures !ok ==> Progress(from0, to0, PageNo(big, size0 - size1), was)
      ensures ok ==> size <= size0 && Mixed(lay0, lay, big, from0, size0 - size, h, 0)
      ensures ok ==> RestTail(big, to, size) == RestTail(big, to1, size1)
      ensures ok ==> (leaked == old(leaked) <==> Spared(lay0, big, from1, if MidClear(to1) then chunk else 0))
      ensures !ok ==> lay == old(lay) && leaked == old(leaked)
    {
      hide Good, View, Effect, ToBytes, D.Type, PageNo, Tree, Progress, AlignedL2, MidClear, AssertsHold, Mixed, Tabled,
        Spared, RestTail;
      ok, from, to, size := true, from1, to1, size1;
      TabledNone(lay0, big, 1, from1);
      if chunk != 0 && MidClear(to) {
        Multiples(chunk);
        Multiples(from1);
        AssertsL1(from, to, chunk);
        ok, from, to, size := Go(1, from, to, size, chunk, from0, to0, size0, was);
        if ok {
          SparedAhead(lay0, old(lay), big, from0, size0 - size1, h, chunk);
          MixedBlocks(lay0, old(lay), lay, big, 1, from0, size0 - size1, h, chunk);
          TailKept(to1, size1, chunk);
        }
      }
    }

    /** The last two parts: level-2 blocks where the target allows them, and level-3 entries. */
    method Rest(from1: nat, to1: nat, size1: nat, ghost from0: nat, ghost to0: nat, ghost size0: nat,
                ghost was: nat -> nat, ghost lay0: Layout, ghost h: nat)
      requires Valid() && Here(from0, to0, size0, from1, to1, size1, was)
      requires size1 > 0 ==> from1 % Unit(big, 2) == 0
      requires size1 <= size0 && Mixed(lay0, lay, big, from0, size0 - size1, h, 0)
      modifies this
      ensures Valid() && leaked == old(leaked) && Progress(from0, to0, PageNo(big, size0), was)
      ensures Mixed(lay0, lay, big, from0, size0, h, RestTail(big, to1, size1))
    {
      hide Good, View, Effect, ToBytes, D.Type, PageNo, Tree, Progress, AlignDownMask, Rem, AssertsHold, Here, Mixed,
        Tabled;
      var ok, from, to, size := true, from1, to1, size1;
      WhereIs(from0, to0, size0, from, to, size, was);
      HereIs(from0, to0, size0, from, to, size, was);
      var chunk := AlignDownMask(size, Unit(big, 2));
      BlocksOf(big, size);
      if chunk != 0 && Rem(big, PageNo(big, to)) == 0 {
        BlockAsserts(big, from, to, chunk);
        ok, from, to, size := Go(2, from, to, size, chunk, from0, to0, size0, was);
        HereIs(from0, to0, size0, from, to, size, was);
        MixedBlocks(lay0, old(lay), lay, big, 2, from0, size0 - size1, h, chunk);
      }
      ghost var mid, done := lay, size0 - size;
      TabledNone(lay, big, 3, from);
      if size != 0 {
        PageAsserts(big, from, to, size);
        ok, from, to, size := Go(3, from, to, size, size, from0, to0, size0, was);
      }
      MixedTail(lay0, mid, lay, big, from0, done, h, size0 - done);
      Finished(from0, to0, size0, from, to, was);
    }

    lemma Finished(from0: nat, to0: nat, size0: nat, from: nat, to: nat, was: nat -> nat)
      requires Here(from0, to0, size0, from, to, 0, was)
      ensures Progress(from0, to0, PageNo(big, size0), was)
    {
    }

    lemma Started(from0: nat, to0: nat, size0: nat, was: nat -> nat)
      requires Paged(big, from0) && Paged(big, size0) && from0 + size0 <= SPACE && D.Type(to0) == 0
      requires forall g: nat :: was(g) == At(g)
      ensures Here(from0, to0, size0, from0, to0, size0, was)
    {
    }

    /** mmu_map: refuses what is not whole pages, stops at an assertion exactly for the requests of Fires, and otherwise
        the flat map changes on the pages of the request and nowhere else. */
    method MmuMap(from0: nat, to0: nat, size0: nat) returns (r: Outcome)
      requires Valid() && D.Type(to0) == 0 && from0 + size0 <= 0x1_0000_0000_0000
      modifies this
      ensures Valid() && old(leaked) <= leaked && (big ==> leaked == {})
      ensures leaked == old(leaked) <==> !Leaks(old(Fine()), big, ramBase, base, from0, to0, size0)
      ensures Fine() == FineAfter(old(Fine()), big, ramBase, base, from0, to0, size0)
      ensures r == Refused <==>
              var page := if big then 0x4000 else 0x1000; from0 % page != 0 || size0 % page != 0
      ensures r == Refused ==> mem == old(mem) && forall g: nat :: At(g) == old(At(g))
      ensures r == Asserted <==> RequestStops(big, ramBase, base, from0, to0, size0)
      ensures r == Mapped ==>
                forall g: nat :: At(g) == MappedTo(big, from0, to0, PageNo(big, size0), old(At(g)), g)
      ensures r == Mapped ==>
                forall g: nat ::
                  At(g) == var a := if big then g * 0x4000 else g * 0x1000;
                           if !(from0 <= a < from0 + size0) then old(At(g))
                           else if to0 % 2 == 1 then to0 + (a - from0) else 0
      ensures r == Asserted ==>
                var h := HeadSize(big, ramBase, base, from0, size0);
                h >= 0 && forall g: nat :: At(g) == MappedTo(big, from0, to0, PageNo(big, h), old(At(g)), g)
    {
      hide Good, View, Effect, ToBytes, D.Type, PageNo, Fires, Here, HeadSize, Paged, FineOf, Mixed, Spared, RestTail,
        Meets, BlocksFrom, BlocksSize, Leaks, FineAfter;
      PagedIs(big, from0);
      PagedIs(big, size0);
      if big || !Paged(big, from0) || !Paged(big, size0) { NoLeak(Fine(), big, ramBase, base, from0, to0, size0); }
      if !Paged(big, from0) || !Paged(big, size0) { return Refused; }
      ghost var tree, l0 := Tree(), lay;
      ghost var was := (g: nat) => View(tree, l0, big, g);
      Started(from0, to0, size0, was);
      var from, to, size := Head(from0, to0, size0, was);
      WhereIs(from0, to0, size0, from, to, size, was);
      ghost var h: nat := size0 - size;
      if !big {
        LeakIsSeen(l0, ramBase, base, from0, to0, size0);
        var ok;
        ok, from, to, size := Large(from, to, size, from0, to0, size0, was, l0, h);
        if !ok {
          FineIs(l0, lay, big, ramBase, base, from0, to0, size0);
          return Asserted;
        }
      }
      Rest(from, to, size, from0, to0, size0, was, l0, h);
      FineIs(l0, lay, big, ramBase, base, from0, to0, size0);
      forall g: nat
        ensures At(g) == var a := if big then g * 0x4000 else g * 0x1000;
                         if !(from0 <= a < from0 + size0) then old(At(g))
                         else if to0 % 2 == 1 then to0 + (a - from0) else 0
      {
        MappedInBytes(big, from0, to0, size0, old(At(g)), g);
      }
      r := Mapped;
    }

    lemma WhereIs(from0: nat, to0: nat, size0: nat, from: nat, to: nat, size: nat, was: nat -> nat)
      requires Here(from0, to0, size0, from, to, size, was)
      ensures size <= size0 && from == from0 + (size0 - size) && to == to0 + (size0 - size)
    {
      hide Progress;
    }

    /** mmu_rm_mapping: afterwards the pages of the request fault, unless it stops at an assertion. */
    method RmMapping(from: nat, size: nat) returns (r: Outcome)
      requires Valid() && from + size <= 0x1_0000_0000_0000
      modifies this
      ensures Valid() && old(leaked) <= leaked
      ensures leaked == old(leaked) <==> !Leaks(old(Fine()), big, ramBase, base, from, 0, size)
      ensures Fine() == FineAfter(old(Fine()), big, ramBase, base, from, 0, size)
      ensures r == Refused <==>
              var page := if big then 0x4000 else 0x1000; from % page != 0 || size % page != 0
      ensures r == Refused ==> mem == old(mem) && forall g: nat :: At(g) == old(At(g))
      ensures r == Asserted <==> RequestStops(big, ramBase, base, from, 0, size)
      ensures r == Mapped ==>
                forall g: nat ::
                  At(g) == var a := if big then g * 0x4000 else g * 0x1000;
                           if from <= a < from + size then 0 else old(At(g))
    {
      hide Good, View, PageNo, RequestStops, MappedTo, Leaks, FineAfter, FineOf;
      r := MmuMap(from, 0, size);
    }

    /** Any sequence of mmu_map calls that runs into no assertion: the hardware walk finds what the flat map says, call
        by call.  The tables that are allocated are those it can reach and those that were leaked, and with 16K pages
        none were. */
    method Run(calls: seq<Call>) returns (ok: bool)
      requires Valid() && forall i :: 0 <= i < |calls| ==> calls[i].Legal()
      modifies this
      ensures Valid() && (big ==> ok)
      ensures ok <==> forall i :: 0 <= i < |calls| ==> !calls[i].Stops(big, ramBase, base)
      ensures ok ==>
                forall g: nat :: g * (if big then 0x4000 else 0x1000) < 0x1_0000_0000_0000 ==>
                  HwWalk(mem, big, root, 0, g) == FlatRun(big, calls, old(At(g)), g)
      ensures forall p: nat :: p in mem <==> Reachable(mem, root, p) || p in leaked
      ensures forall p: nat :: p in leaked ==> !Reachable(mem, root, p)
      ensures leaked == old(leaked) <==>
              forall i :: 0 <= i < |calls| ==> !LeaksAt(old(Fine()), big, ramBase, base, calls, i)
    {
      hide View, Good, MappedTo, Reachable, Paged, Fires, HeadSize, HwWalk, InSpace, PageNo, FineOf, Leaks, FineAfter;
      ok := true;
      var i := 0;
      while i < |calls|
        invariant Valid() && i <= |calls|
        invariant forall j :: 0 <= j < i ==> !calls[j].Stops(big, ramBase, base)
        invariant forall g: nat :: At(g) == FlatRun(big, calls[..i], old(At(g)), g)
        invariant old(leaked) <= leaked && Fine() == FineRun(old(Fine()), big, ramBase, base, calls[..i])
        invariant leaked == old(leaked) <==>
                  forall j :: 0 <= j < i ==> !LeaksAt(old(Fine()), big, ramBase, base, calls, j)
      {
        var c := calls[i];
        ghost var l1 := leaked;
        var r := MmuMap(c.from, c.to, c.size);
        assert leaked == l1 <==> !LeaksAt(old(Fine()), big, ramBase, base, calls, i);
        assert calls[..i + 1][..i] == calls[..i];
        if r == Asserted {
          ok := false;
          forall k | i < k < |calls| ensures !NoneStops(calls[..k], big, ramBase, base) {
            assert calls[..k][i] == c;
          }
          AllAccounted();
          return;
        }
        forall g: nat ensures At(g) == FlatRun(big, calls[..i + 1], old(At(g)), g) {
          assert calls[..i + 1][..i] == calls[..i];
        }
        i := i + 1;
      }
      assert calls[..i] == calls;
      AllAccounted();
      forall g: nat | g * (if big then 0x4000 else 0x1000) < 0x1_0000_0000_0000
        ensures HwWalk(mem, big, root, 0, g) == FlatRun(big, calls, old(At(g)), g)
      {
        SpaceIs(big, g);
        WalkIsView(mem, Tree(), root, lay, big, g);
      }
    }

    lemma AllAccounted()
      requires Valid()
      ensures forall p: nat :: p in mem <==> Reachable(mem, root, p) || p in leaked
      ensures forall p: nat :: p in leaked ==> !Reachable(mem, root, p)
    {
      Conserved(Tree(), root, Fan(big), lay);
      forall p: nat ensures Reachable(mem, root, p) <==> Reachable(Tree(), root, p) {
        if x :| Follow(mem, root, x) == Ptr.At(p) { FollowInTree(mem, Tree(), root, lay, big, x); }
        if x :| Follow(Tree(), root, x) == Ptr.At(p) { FollowInTree(mem, Tree(), root, lay, big, x); }
      }
    }
  }

  /** A call of mmu_map. */
  datatype Call = Call(from: nat, to: nat, size: nat) {
    predicate Legal() { from + size <= 0x1_0000_0000_0000 && D.Type(to) == 0 }

    predicate Stops(big: bool, ramBase: nat, base: nat) { RequestStops(big, ramBase, base, from, to, size) }

    ghost predicate LeaksFrom(fine: iset<nat>, big: bool, ramBase: nat, base: nat) {
      Leaks(fine, big, ramBase, base, from, to, size)
    }
  }

  /** What a request for n pages from `from` makes of a page. */
  function MappedTo(big: bool, from: nat, to: nat, n: nat, v: nat, g: nat): nat {
    if PageNo(big, from) <= g < PageNo(big, from) + n then Effect(big, to, g - PageNo(big, from)) else v
  }

  /** The flat map after a sequence of calls, at one page. */
  function FlatRun(big: bool, calls: seq<Call>, v: nat, g: nat): nat {
    if calls == [] then v
    else
      var c := calls[|calls| - 1];
      var w := FlatRun(big, calls[..|calls| - 1], v, g);
      var page := if big then 0x4000 else 0x1000;
      var a := if big then g * 0x4000 else g * 0x1000;
      if c.from % page != 0 || c.size % page != 0 || !(c.from <= a < c.from + c.size) then w
      else if c.to % 2 == 1 then c.to + (a - c.from) else 0
  }

  /** The level-2 cells with level-3 tables after a sequence of calls. */
  ghost function FineRun(fine: iset<nat>, big: bool, ramBase: nat, base: nat, calls: seq<Call>): iset<nat> {
    if calls == [] then fine
    else
      var c := calls[|calls| - 1];
      FineAfter(FineRun(fine, big, ramBase, base, calls[..|calls| - 1]), big, ramBase, base, c.from, c.to, c.size)
  }

  predicate NoneStops(calls: seq<Call>, big: bool, ramBase: nat, base: nat) {
    forall i :: 0 <= i < |calls| ==> !calls[i].Stops(big, ramBase, base)
  }

  /** Call i is made, and it leaks tables. */
  ghost predicate LeaksAt(fine: iset<nat>, big: bool, ramBase: nat, base: nat, calls: seq<Call>, i: nat)
    requires i < |calls|
  {
    NoneStops(calls[..i], big, ramBase, base) &&
    calls[i].LeaksFrom(FineRun(fine, big, ramBase, base, calls[..i]), big, ramBase, base)
  }

  lemma {:induction false} FollowInTree(heap: Mem, mem: Mem, root: nat, lay: Layout, big: bool, x: Pos)
    requires Good(mem, root, lay, big) && Within(mem, heap)
    ensures Follow(heap, root, x) == Follow(mem, root, x)
  {
    FollowIsTab(mem, root, Fan(big), lay, x);
    if x.Sub? {
      FollowInTree(heap, mem, root, lay, big, x.up);
      FollowIsTab(mem, root, Fan(big), lay, x.up);
    }
  }

  /** The request runs into an assertion: it is for whole 4K pages, and what is left after its head is one of Fires. */
  predicate RequestStops(big: bool, ramBase: nat, base: nat, from: nat, to: nat, size: nat) {
    && !big && Paged(big, from) && Paged(big, size)
    && var h := HeadSize(big, ramBase, base, from, size);
       0 <= h <= size && Fires(from + h, to + h, size - h)
  }

  /** The request leaks tables: with 4K pages, it gets to 1 GiB blocks, and level-3 tables are where they go. */
  ghost predicate Leaks(fine: iset<nat>, big: bool, ramBase: nat, base: nat, from: nat, to: nat, size: nat) {
    && !big && Paged(big, from) && Paged(big, size) && !RequestStops(big, ramBase, base, from, to, size)
    && var h := HeadSize(big, ramBase, base, from, size);
       && 0 <= h <= size
       && var b, n := BlocksFrom(from + h, size - h), BlocksSize(from + h, to + h, size - h);
          exists d: nat :: d in fine && Meets(big, b, n, d)
  }

  /** The level-2 cells with level-3 tables after a request: those that its first and its last part meet, and of the
      others those that it does not meet.  A request that stops has done its first part. */
  ghost function FineAfter(fine: iset<nat>, big: bool, ramBase: nat, base: nat, from: nat, to: nat, size: nat)
    : iset<nat>
  {
    if !Paged(big, from) || !Paged(big, size) then fine
    else
      var h := HeadSize(big, ramBase, base, from, size);
      if !(0 <= h <= size) then fine
      else if RequestStops(big, ramBase, base, from, to, size) then iset d: nat | d in fine || Meets(big, from, h, d)
      else
        var t := RestTail(big, to + h, size - h);
        iset d: nat |
          if Meets(big, from, size, d)
          then Meets(big, from, h, d) || (t <= size && Meets(big, from + (size - t), t, d))
          else d in fine
  }

  lemma NoLeak(fine: iset<nat>, big: bool, ramBase: nat, base: nat, from: nat, to: nat, size: nat)
    requires big || !Paged(big, from) || !Paged(big, size)
    ensures !Leaks(fine, big, ramBase, base, from, to, size)
    ensures !Paged(big, from) || !Paged(big, size) ==> FineAfter(fine, big, ramBase, base, from, to, size) == fine
  {
  }

  /** A single page is mapped with a level-3 entry. */
  lemma OnePage(fine: iset<nat>, a: nat, to: nat, size: nat)
    requires Paged(false, a) && size == 0x1000
    ensures a / 0x20_0000 in FineAfter(fine, false, 0, 0, a, to, size) && !RequestStops(false, 0, 0, a, to, size)
  {
    hide AlignedL2, MidClear, AlignUpMask, Rem, PageNo;
    BoundaryIs(false, 0, 0, a);
    var h := HeadSize(false, 0, 0, a, size);
    assert Meets(false, a, size, a / 0x20_0000);
    assert Paged(false, h) && (h == 0 || h == size) by { PagedMinus(false, Boundary(false, 0, 0, a), a); }
    assert RestTail(false, to + h, size - h) == size - h;
  }

  /** The parts of a request for a 1 GiB block. */
  lemma BlockParts(from: nat, to: nat, size: nat)
    requires from % 0x4000_0000 == 0 && size == 0x4000_0000 && MidClear(to)
    ensures HeadSize(false, 0, 0, from, size) == 0 && Paged(false, from) && Paged(false, size)
    ensures BlocksFrom(from, size) == from && BlocksSize(from, to, size) == size
  {
    hide MidClear;
    Multiples(from);
    AlignUpMaskIs(from, 0x20_0000);
    AlignUpMaskIs(from, 0x4000_0000);
    AlignUpIs(from, 0x20_0000);
    AlignUpIs(from, 0x4000_0000);
    hide AlignUpMask;
  }

  lemma OneBlock(fine: iset<nat>, from: nat, to: nat, size: nat, d: nat)
    requires from % 0x4000_0000 == 0 && size == 0x4000_0000 && AlignedL2(to) && MidClear(to)
    requires d in fine && Meets(false, from, size, d)
    ensures Leaks(fine, false, 0, 0, from, to, size) && !RequestStops(false, 0, 0, from, to, size)
  {
    hide AlignedL2, MidClear, Meets, BlocksFrom, BlocksSize, HeadSize, Paged;
    BlockParts(from, to, size);
    assert !Fires(from, to, size);
    hide Fires;
  }

  lemma BlockTarget(to: nat)
    requires to % 0x4000_0000 < 0x1000
    ensures AlignedL2(to) && MidClear(to)
  {
    var q, r := to / 0x4000_0000, to % 0x4000_0000;
    DivModIs(to, 0x1000, q * 0x4_0000, r);
    DivModIs(q * 0x4_0000, 512, q * 512, 0);
    DivModIs(q * 512, 512, q, 0);
  }

  lemma PageMeets(a: nat, from: nat, size: nat)
    requires from <= a < from + size
    ensures Meets(false, from, size, a / 0x20_0000)
  {
  }

  /** A page is mapped, and then the 1 GiB block that it lies in: the level-3 table of the page is leaked. */
  method LeaksTable(a: nat, from: nat, pageTo: nat, to: nat) returns (m: Mmu, r1: Outcome, r2: Outcome)
    requires Paged(false, a) && from % 0x4000_0000 == 0 && from <= a < from + 0x4000_0000 <= SPACE
    requires D.Type(pageTo) == 0 && D.Type(to) == 0 && to % 0x4000_0000 < 0x1000
    ensures m.Valid() && m.leaked != {} && r1 == r2 == Mapped
  {
    hide Good, View, Fires, HeadSize, Leaks, FineAfter, FineOf, D.Type, RequestStops, Meets, AlignedL2, MidClear;
    var page, block := 0x1000, 0x4000_0000;
    m := new Mmu(false, 0, 0);
    Multiples(from);
    PageFits(a, from);
    r1 := m.MmuMap(a, pageTo, page);
    OnePage(iset{}, a, pageTo, page);
    BlockTarget(to);
    PageMeets(a, from, block);
    OneBlock(m.Fine(), from, to, block, a / 0x20_0000);
    r2 := m.MmuMap(from, to, block);
  }

  lemma PageFits(a: nat, from: nat)
    requires a % 0x1000 == 0 && from % 0x4000_0000 == 0 && a < from + 0x4000_0000
    ensures a + 0x1000 <= from + 0x4000_0000
  {
    var q, p := from / 0x4000_0000, a / 0x1000;
    assert a == p * 0x1000 && from + 0x4000_0000 == (q + 1) * 0x4_0000 * 0x1000;
  }

  ghost function FineOf(lay: Layout, big: bool): iset<nat> { iset d: nat | Small(lay, big, d) }

  lemma LeakIsSeen(lay: Layout, ramBase: nat, base: nat, from: nat, to: nat, size: nat)
    requires Paged(false, from) && Paged(false, size)
    requires var h := HeadSize(false, ramBase, base, from, size); 0 <= h <= size
    ensures var h := HeadSize(false, ramBase, base, from, size);
            Leaks(FineOf(lay, false), false, ramBase, base, from, to, size) <==>
            && !Fires(from + h, to + h, size - h)
            && !Spared(lay, false, BlocksFrom(from + h, size - h), BlocksSize(from + h, to + h, size - h))
  {
    hide HeadSize, Fires, Paged, BlocksFrom, BlocksSize, Small, Meets;
  }

  lemma FineIs(was: Layout, now: Layout, big: bool, ramBase: nat, base: nat, from: nat, to: nat, size: nat)
    requires Paged(big, from) && Paged(big, size)
    requires var h := HeadSize(big, ramBase, base, from, size);
             && 0 <= h <= size
             && if RequestStops(big, ramBase, base, from, to, size) then Mixed(was, now, big, from, h, h, 0)
                else Mixed(was, now, big, from, size, h, RestTail(big, to + h, size - h))
    ensures FineOf(now, big) == FineAfter(FineOf(was, big), big, ramBase, base, from, to, size)
  {
    hide HeadSize, RequestStops, Paged, RestTail, Small, Meets;
    var h := HeadSize(big, ramBase, base, from, size);
    forall d: nat
      ensures d in FineOf(now, big) <==> d in FineAfter(FineOf(was, big), big, ramBase, base, from, to, size)
    {
      MeetsNone(big, from + h, d);
    }
  }

  /** With 4K pages a request whose two addresses are equally aligned to 2 MiB meets no assertion. */
  lemma CoalignedIsSafe(ramBase: nat, base: nat, from: nat, to: nat, size: nat)
    requires Paged(false, from) && Paged(false, size) && base % 2 == 0
    requires Rem(false, PageNo(false, from)) == Rem(false, PageNo(false, to))
    ensures var h := HeadSize(false, ramBase, base, from, size);
            0 <= h <= size && !Fires(from + h, to + h, size - h)
    ensures !RequestStops(false, ramBase, base, from, to, size)
  {
    hide PageNo, Rem, Quot, AlignUpMask, ToBytes, Paged, MidClear, Unit;
    BoundaryIs(false, ramBase, base, from);
    var h := HeadSize(false, ramBase, base, from, size);
    if h < size {
      PagedMinus(false, from + h, from);
      PageAdvanced(false, from, PageNo(false, h));
      PageAdvanced(false, to, PageNo(false, h));
      StartOfBlock(from + h);
      SameRest(PageNo(false, from), PageNo(false, to), PageNo(false, h));
    }
  }

  lemma StartOfBlock(x: nat)
    requires x % Unit(false, 2) == 0
    ensures Rem(false, PageNo(false, x)) == 0
  {
    Nested(x, 0x1000, 512);
  }

  lemma SameRest(a: nat, b: nat, n: nat)
    requires Rem(false, a) == Rem(false, b)
    ensures Rem(false, a + n) == Rem(false, b + n)
  {
  }

  /** The requests that meet it: 1 GiB or more from a 2 MiB boundary that is no 1 GiB boundary, to a target that is not
      aligned to 2 MiB. */
  lemma MisalignedFires(from: nat, to: nat, size: nat)
    requires from % 0x20_0000 == 0 && from % 0x4000_0000 != 0 && size >= 0x4000_0000 && !AlignedL2(to)
    ensures HeadSize(false, 0, 0, from, size) == 0 && Fires(from, to, size)
    ensures size % 0x1000 == 0 ==> RequestStops(false, 0, 0, from, to, size)
  {
    hide AlignedL2, MidClear;
    Multiples(from);
    AlignUpMaskIs(from, 0x20_0000);
    AlignUpIs(from, 0x20_0000);
  }

  /** For example 1 GiB at 2 MiB, to be mapped to 4 KiB. */
  lemma MisalignedExample(from: nat, to: nat, size: nat)
    requires from == 0x20_0000 && to == 0x1401 && size == 0x4000_0000
    ensures HeadSize(false, 0, 0, from, size) == 0 && Fires(from, to, size)
  {
    hide HeadSize, Fires;
    DivModIs(to, 0x1000, 1, 0x401);
    MisalignedFires(from, to, size);
  }

  lemma PagedIs(big: bool, x: nat)
    ensures Paged(big, x) <==> x % (if big then 0x4000 else 0x1000) == 0
  {
  }

  /** What a request makes of a page, told by addresses. */
  lemma MappedInBytes(big: bool, from: nat, to: nat, size: nat, v: nat, g: nat)
    requires Paged(big, from) && Paged(big, size) && D.Type(to) == 0
    ensures MappedTo(big, from, to, PageNo(big, size), v, g) ==
            var a := if big then g * 0x4000 else g * 0x1000;
            if !(from <= a < from + size) then v else if to % 2 == 1 then to + (a - from) else 0
  {
    var i, n := PageNo(big, from), PageNo(big, size);
    if big {
      assert from == i * 0x4000 && size == n * 0x4000;
    } else {
      assert from == i * 0x1000 && size == n * 0x1000;
    }
  }

  /** The first part ends with the request, or at the next level-2 boundary; where that lies in RAM below the image, at
      the first one from the base of the image on. */
  lemma HeadIs(big: bool, ramBase: nat, base: nat, from: nat, size: nat)
    requires from % (if big then 0x4000 else 0x1000) == 0 && base % 2 == 0
    ensures var u := if big then 0x200_0000 else 0x20_0000;
            var b := (from + (u - 1)) / u * u;
            var e := if ramBase <= b < base then (base + (u - 1)) / u * u else b;
            e >= from && HeadSize(big, ramBase, base, from, size) == if size < e - from then size else e - from
  {
    var u := Unit(big, 2);
    PagedIs(big, from);
    BoundaryIs(big, ramBase, base, from);
    if big { Nested(from, 2, 0x2000); } else { Nested(from, 2, 0x800); }
    AlignUpMaskIs(from, u);
    AlignUpMaskIs(base, u);
  }

  /** The requests that meet an assertion, in numbers: from the end of the head on there is 1 GiB or more, the target is
      not at a 2 MiB boundary there, and the address is not at a 1 GiB boundary or bits 21 to 29 of the target are 0. */
  lemma StopsIs(ramBase: nat, base: nat, from: nat, to: nat, size: nat)
    requires from % 0x1000 == 0 && size % 0x1000 == 0 && base % 2 == 0
    ensures var b := (from + 0x1F_FFFF) / 0x20_0000 * 0x20_0000;
            var e := if ramBase <= b < base then (base + 0x1F_FFFF) / 0x20_0000 * 0x20_0000 else b;
            var t := to + (e - from);
            e >= from && (RequestStops(false, ramBase, base, from, to, size) <==>
              && size >= (e - from) + 0x4000_0000 && t / 0x1000 % 512 != 0
              && (e % 0x4000_0000 != 0 || t / 0x20_0000 % 512 == 0))
  {
    HeadIs(false, ramBase, base, from, size);
    var b := (from + 0x1F_FFFF) / 0x20_0000 * 0x20_0000;
    var e := if ramBase <= b < base then (base + 0x1F_FFFF) / 0x20_0000 * 0x20_0000 else b;
    hide HeadSize, Fires, Paged;
    PagedIs(false, from);
    PagedIs(false, size);
    if size >= e - from { FiresAt(e, to + (e - from), size - (e - from)); } else { FiresAt(from + size, to + size, 0); }
  }

  lemma FiresAt(from: nat, to: nat, size: nat)
    ensures Fires(from, to, size) <==>
            && size >= 0x4000_0000 && to / 0x1000 % 512 != 0
            && (from % 0x4000_0000 != 0 || to / 0x20_0000 % 512 == 0)
  {
    Nested(to, 0x1000, 512);
  }

  /** Everything up to the end of the head has level-3 tables afterwards. */
  lemma HeadIsFine(fine: iset<nat>, big: bool, ramBase: nat, base: nat, from: nat, to: nat, size: nat, d: nat)
    requires (from % (if big then 0x4000 else 0x1000) == 0) && (size % (if big then 0x4000 else 0x1000) == 0)
    requires base % 2 == 0
    requires var u := if big then 0x200_0000 else 0x20_0000;
             var b := (from + (u - 1)) / u * u;
             var e := if ramBase <= b < base then (base + (u - 1)) / u * u else b;
             var start := if big then d * 0x200_0000 else d * 0x20_0000;
             start < from + size && start < e && from < start + u && from < e && 0 < size
    ensures d in FineAfter(fine, big, ramBase, base, from, to, size)
  {
    HeadIs(big, ramBase, base, from, size);
    PagedIs(big, from);
    PagedIs(big, size);
    hide HeadSize, RequestStops, RestTail, Paged;
  }

  /** Unmapping stops too: away from the image, exactly for ranges that do not start at a 2 MiB boundary and go on for
      1 GiB or more after the next one. */
  lemma UnmapStops(ramBase: nat, base: nat, from: nat, size: nat)
    requires Paged(false, from) && Paged(false, size)
    requires var b := AlignUpMask(from, 0x20_0000); !(ramBase <= b < base)
    ensures RequestStops(false, ramBase, base, from, 0, size) <==>
            from % 0x20_0000 != 0 && size >= 0x4000_0000 + (0x20_0000 - from % 0x20_0000)
  {
    HeadToBlock(ramBase, base, from, size);
    var h := HeadSize(false, ramBase, base, from, size);
    if h < size { SmallTarget(h); }
    hide HeadSize, AlignUpMask, AlignedL2, MidClear;
  }

  /** Away from the image the head ends at the next 2 MiB boundary, or before it with the request. */
  lemma HeadToBlock(ramBase: nat, base: nat, from: nat, size: nat)
    requires Paged(false, from) && var b := AlignUpMask(from, 0x20_0000); !(ramBase <= b < base)
    ensures var gap := if from % 0x20_0000 == 0 then 0 else 0x20_0000 - from % 0x20_0000;
            && 0 <= gap < 0x20_0000 && gap % 0x1000 == 0
            && HeadSize(false, ramBase, base, from, size) == if size < gap then size else gap
  {
    Multiples(from);
    AlignUpMaskIs(from, 0x20_0000);
    NextBlock(from);
    hide AlignUpMask;
    Nested(from, 0x1000, 512);
    WholeGap(from % 0x20_0000);
  }

  lemma WholeGap(x: nat)
    requires x % 0x1000 == 0 && x < 0x20_0000
    ensures (0x20_0000 - x) % 0x1000 == 0
  {
    DivModIs(0x20_0000 - x, 0x1000, 0x200 - x / 0x1000, 0);
  }

  /** For example 1 GiB and 2 MiB from 4 KiB on. */
  lemma UnmapExample(from: nat, size: nat)
    requires from == 0x1000 && size == 0x4020_0000
    ensures RequestStops(false, 0, 0, from, 0, size)
  {
    hide RequestStops;
    DivModIs(from, 0x20_0000, 0, 0x1000);
    DivModIs(from, 0x1000, 1, 0);
    DivModIs(size, 0x1000, 0x4_0200, 0);
    UnmapStops(0, 0, from, size);
  }

  lemma NextBlock(x: nat)
    ensures AlignUp(x, 0x20_0000) == if x % 0x20_0000 == 0 then x else x + (0x20_0000 - x % 0x20_0000)
  {
    AlignUpIs(x, 0x20_0000);
    if x % 0x20_0000 != 0 { AddMultiple(x - x % 0x20_0000, 0x20_0000, 1); }
  }

  /** A target below 2 MiB. */
  lemma SmallTarget(h: nat)
    requires h < 0x20_0000
    ensures MidClear(h) && (h % 0x1000 == 0 ==> (AlignedL2(h) <==> h == 0))
  {
  }

  /** The output address and the attributes of a mapped page: pa is the address given to mmu_add_mapping, low and
      high the attribute bits below and above the address field. */
  lemma EffectFields(big: bool, pa: nat, low: nat, high: nat, n: nat)
    requires Paged(big, pa) && low < Unit(big, 3) && low % 4 == 1 && pa + ToBytes(big, n) < 0x4_0000_0000_0000
    ensures var v := Effect(big, pa + low + high * 0x4_0000_0000_0000, n);
            && v % 0x4_0000_0000_0000 - v % Unit(big, 3) == pa + ToBytes(big, n)
            && v % Unit(big, 3) == low && v / 0x4_0000_0000_0000 == high
  {
    var d := pa + low + high * 0x4_0000_0000_0000;
    var x := pa + ToBytes(big, n);
    PlainWord(big, pa, low, high);
    assert Effect(big, d, n) == high * 0x4_0000_0000_0000 + (x + low);
    PagedBytes(big, pa, n);
    hide ToBytes, Effect;
    FieldsOfSum(big, x, low, high);
  }

  lemma PlainWord(big: bool, pa: nat, low: nat, high: nat)
    requires Paged(big, pa) && low % 4 == 1
    ensures D.NoType(pa + low + high * 0x4_0000_0000_0000) == pa + low + high * 0x4_0000_0000_0000
    ensures IsValid(pa + low + high * 0x4_0000_0000_0000)
  {
    var u := pa / 4 + low / 4 + high * 0x1_0000_0000_0000;
    if big { Nested(pa, 4, 0x1000); } else { Nested(pa, 4, 0x400); }
    assert pa + low + high * 0x4_0000_0000_0000 == 4 * u + 1;
    LowTwo(big, u, 1);
  }

  lemma PagedBytes(big: bool, x: nat, n: nat)
    requires Paged(big, x)
    ensures Paged(big, x + ToBytes(big, n))
  {
    if big { AddMultiple(x, 0x4000, n); } else { AddMultiple(x, 0x1000, n); }
  }

  lemma FieldsOfSum(big: bool, x: nat, low: nat, high: nat)
    requires Paged(big, x) && x < 0x4_0000_0000_0000 && low < Unit(big, 3)
    ensures var v := high * 0x4_0000_0000_0000 + (x + low);
            v % 0x4_0000_0000_0000 == x + low && v % Unit(big, 3) == low && v / 0x4_0000_0000_0000 == high
  {
    var v := high * 0x4_0000_0000_0000 + (x + low);
    if big {
      var m := x / 0x4000;
      assert x == m * 0x4000 && m < 0x10_0000_0000;
      DivModIs(v, 0x4_0000_0000_0000, high, x + low);
      DivModIs(v, 0x4000, high * 0x10_0000_0000 + m, low);
    } else {
      var m := x / 0x1000;
      assert x == m * 0x1000 && m < 0x40_0000_0000;
      DivModIs(v, 0x4_0000_0000_0000, high, x + low);
      DivModIs(v, 0x1000, high * 0x40_0000_0000 + m, low);
    }
  }

  datatype Outcome = Refused | Asserted | Mapped

  lemma BlocksOf(big: bool, size: nat)
    requires Paged(big, size)
    ensures var w := AlignDownMask(size, Unit(big, 2));
            w <= size && w % Unit(big, 2) == 0 && Paged(big, w) && size - w == size % Unit(big, 2)
  {
    var u := Unit(big, 2);
    if big { Nested(size, 2, 0x2000); } else { Nested(size, 2, 0x800); }
    AlignDownMaskIs(size, u);
    DivModIs(size - size % u, u, size / u, 0);
    BlockIsPaged(big, AlignDownMask(size, u));
  }

  lemma BlockAsserts(big: bool, from: nat, to: nat, chunk: nat)
    requires from % Unit(big, 2) == 0 && chunk % Unit(big, 2) == 0 && Rem(big, PageNo(big, to)) == 0
    ensures AssertsHold(big, 2, from, to, chunk)
  {
    var g := PageNo(big, to);
    assert Delta(big, 2, g) == Delta(big, 3, g) + Scale(big, 3, Rem(big, Cell(big, 3, g)));
  }

  /** How much the last level-3 part of a request covers, when `size` is left after the first. */
  function RestTail(big: bool, to: nat, size: nat): nat {
    if Rem(big, PageNo(big, to)) == 0 then size % Unit(big, 2) else size
  }

  predicate Paged(big: bool, x: nat) { x % Unit(big, 3) == 0 }

  lemma PagedMinus(big: bool, x: nat, y: nat)
    requires Paged(big, x) && Paged(big, y) && y <= x
    ensures Paged(big, x - y) && ToBytes(big, PageNo(big, x - y)) == x - y
  {
    DifferenceOfMultiples(x, y, Unit(big, 3));
  }

  lemma PagedPlus(big: bool, x: nat, y: nat)
    requires Paged(big, x) && Paged(big, y)
    ensures PageNo(big, x + y) == PageNo(big, x) + PageNo(big, y)
  {
    if big { AddMultiple(x, 0x4000, y / 0x4000); } else { AddMultiple(x, 0x1000, y / 0x1000); }
  }

  lemma PagedSum(big: bool, x: nat, y: nat)
    requires Paged(big, x) && Paged(big, y)
    ensures Paged(big, x + y)
  {
    if big { AddMultiple(x, 0x4000, y / 0x4000); } else { AddMultiple(x, 0x1000, y / 0x1000); }
  }

  function Boundary(big: bool, ramBase: nat, base: nat, from: nat): nat {
    var b := AlignUpMask(from, Unit(big, 2));
    if b >= ramBase && b < base then AlignUpMask(base, Unit(big, 2)) else b
  }

  /** What the first part of mmu_map covers. */
  function HeadSize(big: bool, ramBase: nat, base: nat, from: nat, size: nat): int {
    var n := Boundary(big, ramBase, base, from) - from;
    if size < n then size else n
  }

  lemma BoundaryIs(big: bool, ramBase: nat, base: nat, from: nat)
    requires Paged(big, from) && base % 2 == 0
    ensures var b := Boundary(big, ramBase, base, from);
            b >= from && b % Unit(big, 2) == 0 && Paged(big, b)
  {
    var u := Unit(big, 2);
    if big { Nested(from, 2, 0x2000); } else { Nested(from, 2, 0x800); }
    AlignUpMaskIs(from, u);
    AlignUpMaskIs(base, u);
    AlignUpIs(from, u);
    AlignUpIs(base, u);
    BlockIsPaged(big, Boundary(big, ramBase, base, from));
  }

  lemma BlockIsPaged(big: bool, x: nat)
    requires x % Unit(big, 2) == 0
    ensures Paged(big, x)
  {
    if big { Nested(x, 0x4000, 2048); } else { Nested(x, 0x1000, 512); }
  }

  lemma PageAsserts(big: bool, from: nat, to: nat, chunk: nat)
    requires Paged(big, from) && Paged(big, chunk)
    ensures AssertsHold(big, 3, from, to, chunk)
  {
  }

  // ---- Level-1 blocks: 4K pages, blocks of 2 MiB and 1 GiB ----

  predicate AlignedL2(to: nat) { Rem(false, PageNo(false, to)) == 0 }

  /** (to & VADDR_L1_ALIGN_MASK) == 0. */
  predicate MidClear(to: nat) { Rem(false, Quot(false, PageNo(false, to))) == 0 }

  /** The request that runs into an assertion: 1 GiB or more is left, the target is not aligned to 2 MiB, and this is
      noticed by mmu_pt_map_l2 or, where that has nothing to do, by mmu_pt_map_l1. */
  predicate Fires(from: nat, to: nat, size: nat) {
    size >= 0x4000_0000 && !AlignedL2(to) && (from % 0x4000_0000 != 0 || MidClear(to))
  }

  lemma Multiples(x: nat)
    ensures x % 0x4000_0000 == 0 ==> x % 0x20_0000 == 0
    ensures x % 0x20_0000 == 0 ==> x % 0x1000 == 0
    ensures x % 0x1000 == 0 ==> x % 2 == 0
  {
    Nested(x, 0x20_0000, 512);
    Nested(x, 0x1000, 512);
    Nested(x, 2, 0x800);
  }

  /** The two candidates for the size of the first part. */
  lemma LargeParts(from: nat, size: nat)
    requires from % 0x1000 == 0 && size % 0x1000 == 0
    ensures var b := AlignUpMask(from, 0x4000_0000);
            && b >= from && b % 0x4000_0000 == 0 && (b == from <==> from % 0x4000_0000 == 0)
    ensures var w := AlignDownMask(size, 0x4000_0000);
            && w <= size && w % 0x4000_0000 == 0 && size - w < 0x4000_0000
  {
    Multiples(from);
    Multiples(size);
    AlignUpMaskIs(from, 0x4000_0000);
    AlignUpIs(from, 0x4000_0000);
    AlignDownMaskIs(size, 0x4000_0000);
    DivModIs(size - size % 0x4000_0000, 0x4000_0000, size / 0x4000_0000, 0);
  }

  function FirstPart(from: nat, size: nat): int {
    var n, w := AlignUpMask(from, 0x4000_0000) - from, AlignDownMask(size, 0x4000_0000);
    if w < n then w else n
  }

  /** The 1 GiB blocks of a request whose head is done: where they start, and what they cover. */
  function BlocksFrom(from: nat, size: nat): nat {
    var f := FirstPart(from, size);
    if f > 0 then from + f else from
  }

  function BlocksSize(from: nat, to: nat, size: nat): nat {
    var f := FirstPart(from, size);
    if 0 <= f <= size && MidClear(to + f) then AlignDownMask(size - f, 0x4000_0000) else 0
  }

  /** Whole 2 MiB blocks to an aligned target do not change what is left for the tail. */
  lemma TailKept(to: nat, size: nat, chunk: nat)
    requires chunk <= size && chunk % 0x20_0000 == 0 && (chunk > 0 ==> AlignedL2(to))
    ensures RestTail(false, to + chunk, size - chunk) == RestTail(false, to, size)
  {
    KeepsL2(to, chunk);
    var k := chunk / 0x20_0000;
    assert chunk == k * 0x20_0000;
    AddMultiple(size - chunk, 0x20_0000, k);
    hide PageNo, Rem;
  }

  lemma DifferenceOfMultiples(x: nat, y: nat, m: nat)
    requires m > 0 && x % m == 0 && y % m == 0 && y <= x
    ensures (x - y) % m == 0
  {
    var a, b := x / m, y / m;
    assert x == a * m && y == b * m;
    assert a >= b by {
      if a < b { MulStep(a, b, m); }
    }
    assert x - y == (a - b) * m;
    DivModIs(x - y, m, a - b, 0);
  }

  lemma FirstPartIs(from: nat, size: nat)
    requires from % 0x1000 == 0 && size % 0x1000 == 0 && (size > 0 ==> from % 0x20_0000 == 0)
    ensures 0 <= FirstPart(from, size) <= size && FirstPart(from, size) % 0x20_0000 == 0
    ensures FirstPart(from, size) > 0 <==> size >= 0x4000_0000 && from % 0x4000_0000 != 0
  {
    LargeParts(from, size);
    var b, w := AlignUpMask(from, 0x4000_0000), AlignDownMask(size, 0x4000_0000);
    hide AlignUpMask, AlignDownMask;
    Multiples(b);
    Multiples(w);
    if size > 0 { DifferenceOfMultiples(b, from, 0x20_0000); }
  }

  /** After the first part, a remainder of 1 GiB starts at a 1 GiB boundary. */
  lemma AfterFirst(from: nat, size: nat)
    requires from % 0x1000 == 0 && size % 0x1000 == 0 && (size > 0 ==> from % 0x20_0000 == 0)
    ensures var c := FirstPart(from, size);
            0 <= c <= size && (size - c >= 0x4000_0000 ==> (from + c) % 0x4000_0000 == 0)
  {
    LargeParts(from, size);
    hide AlignUpMask, AlignDownMask;
  }

  lemma RestParts(from: nat, size: nat, some: bool)
    requires size % 0x1000 == 0 && (some ==> from % 0x20_0000 == 0)
    ensures var n := AlignDownMask(size, 0x4000_0000);
            && n <= size && n % 0x4000_0000 == 0 && (n > 0 <==> size >= 0x4000_0000)
            && (some ==> (from + n) % 0x20_0000 == 0)
  {
    LargeParts(0, size);
    var n := AlignDownMask(size, 0x4000_0000);
    hide AlignDownMask, AlignUpMask, AlignedL2;
    Multiples(n);
    KeepsL2(from, n);
  }

  lemma FiresIs(from: nat, to: nat, size: nat, chunk: nat)
    requires chunk <= size && (chunk > 0 <==> size >= 0x4000_0000 && from % 0x4000_0000 != 0)
    ensures Fires(from, to, size) <==>
            !AlignedL2(to) && (chunk > 0 || (size - chunk >= 0x4000_0000 && MidClear(to)))
  {
    hide AlignedL2, MidClear;
  }

  lemma BlocksAre(from: nat, to: nat, size: nat, chunk: nat)
    requires chunk == FirstPart(from, size) && chunk <= size
    ensures BlocksFrom(from, size) == from + chunk
    ensures BlocksSize(from, to, size) == if MidClear(to + chunk) then AlignDownMask(size - chunk, 0x4000_0000) else 0
  {
    hide FirstPart, MidClear, AlignDownMask;
  }

  /** The two parts of a request whose head is done: `chunk` with level-2 entries, then the 1 GiB blocks. */
  lemma PartsOf(from: nat, to: nat, size: nat, chunk: nat)
    requires from % 0x1000 == 0 && size % 0x1000 == 0 && (size > 0 ==> from % 0x20_0000 == 0)
    requires chunk == FirstPart(from, size)
    ensures chunk <= size && chunk % 0x20_0000 == 0 && chunk % 0x1000 == 0
    ensures var n := AlignDownMask(size - chunk, 0x4000_0000);
            && n <= size - chunk && n % 0x4000_0000 == 0 && (n > 0 ==> (from + chunk) % 0x4000_0000 == 0)
            && (size > 0 ==> (from + chunk) % 0x20_0000 == 0 && (from + chunk + n) % 0x20_0000 == 0)
            && BlocksFrom(from, size) == from + chunk
            && BlocksSize(from, to, size) == (if MidClear(to + chunk) then n else 0)
            && (Fires(from, to, size) <==> !AlignedL2(to) && (chunk > 0 || (n > 0 && MidClear(to))))
  {
    hide FirstPart, AlignedL2, MidClear, AlignDownMask, AlignUpMask;
    FirstPartIs(from, size);
    AfterFirst(from, size);
    Multiples(chunk);
    KeepsL2(from, chunk);
    DifferenceOfMultiples(size, chunk, 0x1000);
    RestParts(from + chunk, size - chunk, size > 0);
    FiresIs(from, to, size, chunk);
    BlocksAre(from, to, size, chunk);
    hide Fires, BlocksFrom, BlocksSize;
  }

  lemma AssertsL2(from: nat, to: nat, chunk: nat)
    requires from % 0x20_0000 == 0 && chunk % 0x20_0000 == 0
    ensures AssertsHold(false, 2, from, to, chunk) <==> AlignedL2(to)
  {
    var g := PageNo(false, to);
    assert Delta(false, 2, g) == Delta(false, 3, g) + Scale(false, 3, Rem(false, Cell(false, 3, g)));
  }

  lemma AssertsL1(from: nat, to: nat, chunk: nat)
    requires from % 0x4000_0000 == 0 && chunk % 0x4000_0000 == 0 && MidClear(to)
    ensures AssertsHold(false, 1, from, to, chunk) <==> AlignedL2(to)
  {
    var g := PageNo(false, to);
    assert Cell(false, 2, g) == Quot(false, Cell(false, 3, g));
    assert Delta(false, 2, g) == Delta(false, 3, g) + Scale(false, 3, Rem(false, Cell(false, 3, g)));
    assert Delta(false, 1, g) == Delta(false, 2, g) + Scale(false, 2, Rem(false, Cell(false, 2, g)));
    ScaleAdds(false, 2, 0, 0);
  }

  /** Moving on by whole 2 MiB blocks keeps the alignment to them. */
  lemma KeepsL2(x: nat, c: nat)
    requires c % 0x20_0000 == 0
    ensures AlignedL2(x + c) == AlignedL2(x) && (x % 0x20_0000 == 0 ==> (x + c) % 0x20_0000 == 0)
  {
    hide Quot;
    var k := c / 0x20_0000;
    assert c == k * 0x20_0000;
    AddMultiple(x, 0x20_0000, k);
    AddMultiple(x, 0x1000, k * 512);
    AddMultiple(PageNo(false, x), 512, k);
  }

  /** The assertions at the start of mmu_pt_map_lk. */
  predicate AssertsHold(big: bool, k: nat, from: nat, to: nat, size: nat) {
    from % Unit(big, k) == 0 && Delta(big, k, PageNo(big, to)) == 0 && size % Unit(big, k) == 0
  }

  lemma TypeAdvanced(big: bool, to: nat, d: nat)
    ensures D.Type(to + ToBytes(big, d)) == D.Type(to)
  {
    Advanced(big, to, d);
  }

  lemma PageAdvanced(big: bool, x: nat, d: nat)
    ensures PageNo(big, x + ToBytes(big, d)) == PageNo(big, x) + d
  {
    Advanced(big, x, d);
  }

  lemma EffectAdvanced(big: bool, to: nat, d: nat, n: nat)
    ensures Effect(big, to + ToBytes(big, d), n) == Effect(big, to, d + n)
  {
    Advanced(big, to, d);
    BytesAdd(big, d, n);
  }

  const SPACE: nat := 0x1_0000_0000_0000

  /** A number of level-k cells in bytes. */
  function Span(big: bool, k: nat, n: nat): nat { ToBytes(big, Scale(big, k, n)) }

  lemma SpanAdds(big: bool, k: nat, m: nat, n: nat)
    ensures Span(big, k, m + n) == Span(big, k, m) + Span(big, k, n) && Span(big, k, 0) == 0
  {
    hide Scale;
    ScaleAdds(big, k, m, n);
    BytesAdd(big, Scale(big, k, m), Scale(big, k, n));
  }

  lemma SpanGrows(big: bool, k: nat, n: nat)
    ensures n <= Span(big, k, n)
  {
    hide Scale;
    ScaleGrows(big, k, n);
  }

  lemma WholeUnits(big: bool, k: nat, x: nat)
    requires 1 <= k <= 3 && x % Unit(big, k) == 0
    ensures x == Span(big, k, x / Unit(big, k)) && PageNo(big, x) == Scale(big, k, x / Unit(big, k))
  {
    hide Scale;
    UnitCells(big, k, x / Unit(big, k));
  }

  lemma NextSpan(big: bool, k: nat, c: nat)
    requires 1 <= k <= 3
    ensures Span(big, k, c) / Unit(big, k) == c && Span(big, k, c + 1) == Span(big, k, c) + Unit(big, k)
  {
    hide Scale;
    UnitCells(big, k, c);
    UnitCells(big, k, 1);
    SpanAdds(big, k, c, 1);
    DivModIs(Span(big, k, c), Unit(big, k), c, 0);
  }

  lemma SpaceIs(big: bool, g: nat)
    requires ToBytes(big, g) < SPACE
    ensures InSpace(big, 3, g)
  {
    assert InSpace(big, 3, g) == InSpace(big, 2, Quot(big, g)) == InSpace(big, 1, Quot(big, Quot(big, g)))
      == InSpace(big, 0, Quot(big, Quot(big, Quot(big, g))));
  }

  lemma CellInSpace(big: bool, k: nat, c: nat)
    requires k <= 3 && Span(big, k, c) < SPACE
    ensures InSpace(big, k, c)
  {
    hide Scale, InSpace, Cell;
    SpaceIs(big, Scale(big, k, c));
    PageInSpace(big, k, Scale(big, k, c));
    ScaleAligned(big, k, c);
  }

  lemma EntryOk(big: bool, k: nat, to: nat, i: nat)
    requires 1 <= k <= 3 && (big ==> k > 1) && Delta(big, k, PageNo(big, to)) == 0
    ensures LeafOk(big, k, D.WithType(to, if k == 3 then 1 else 0) + Span(big, k, i))
  {
    hide Scale, Delta, Cell, ToBytes, PageNo, D.WithType, D.Type, IsValid;
    var t := if k == 3 then 1 else 0;
    Retyped(big, to, t);
    Advanced(big, D.WithType(to, t), Scale(big, k, i));
    CellDelta(big, k, PageNo(big, to));
    var c := Cell(big, k, PageNo(big, to));
    ScaleAdds(big, k, c, i);
    ScaleAligned(big, k, c + i);
  }

  /** The pages of entry j of the range, and what they get. */
  lemma CellPages(big: bool, k: nat, c: nat, j: nat, to: nat, g: nat)
    requires 1 <= k <= 3
    ensures Cell(big, k, g) == c + j <==>
            Scale(big, k, c) + Scale(big, k, j) <= g < Scale(big, k, c) + Scale(big, k, j + 1)
    ensures Cell(big, k, g) == c + j ==>
              Effect(big, D.WithType(to, if k == 3 then 1 else 0) + Span(big, k, j), Delta(big, k, g))
              == Effect(big, to, g - Scale(big, k, c))
    ensures Scale(big, k, j) <= Scale(big, k, j + 1)
  {
    hide Scale, Delta, Cell, ToBytes, PageNo, D.WithType, D.Type, D.NoType, IsValid;
    ScaleAdds(big, k, c, j);
    ScaleAdds(big, k, j, 1);
    CellInterval(big, k, g, c + j);
    if Cell(big, k, g) == c + j {
      var t := if k == 3 then 1 else 0;
      Retyped(big, to, t);
      Advanced(big, D.WithType(to, t), Scale(big, k, j));
      BytesAdd(big, Scale(big, k, j), Delta(big, k, g));
    }
  }

  lemma NextChild(big: bool, k: nat, d: nat, j: nat)
    requires k < 3
    ensures IsValid(d) ==> Child(big, k, d, j + 1) == Child(big, k, d, j) + Unit(big, k + 1)
  {
    ScaleAdds(big, k + 1, j, 1);
    UnitCells(big, k + 1, 1);
    BytesAdd(big, Scale(big, k + 1, j), Scale(big, k + 1, 1));
  }
}
