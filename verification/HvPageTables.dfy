/** The stage-2 page tables of the hypervisor, changed in place (src/hv_vm.c). */
module HvPageTables {
  import opened Arith
  import opened HvDescriptors
  import opened TableHeap
  import opened HvView
  import opened Bits

  /** The loop that fills a new table: entry k is d + k * incr. */
  method FillTable(d: nat, incr: nat, n: nat) returns (s: seq<Pte>)
    ensures |s| == n && forall k :: 0 <= k < n ==> s[k] == Leaf(d + k * incr)
  {
    s := [];
    var cur := d;
    for idx := 0 to n
      invariant |s| == idx && cur == d + idx * incr
      invariant forall k :: 0 <= k < idx ==> s[k] == Leaf(d + k * incr)
    {
      s := s + [Leaf(cur)];
      cur := cur + incr;
    }
  }

  /** The pointers held by the first n slots of the table at y. */
  ghost function Freed(lay: Layout, y: Pos, n: nat): set<nat> {
    set p | p in lay.pos && lay.pos[p].Sub? && lay.pos[p].up == y && lay.pos[p].i < n
  }

  lemma FreedStep(mem: Mem, root: nat, fan: seq<nat>, lay: Layout, y: Pos, n: nat)
    requires Wf(mem, root, fan, lay) && y in lay.tab
    ensures var e := Slot(mem, lay, y, n);
            && (e.Table? ==> e.ptr in mem && e.ptr !in Freed(lay, y, n) && e.ptr != lay.tab[y]
                             && Freed(lay, y, n + 1) == Freed(lay, y, n) + {e.ptr})
            && (e.Leaf? ==> Freed(lay, y, n + 1) == Freed(lay, y, n))
  {
    var e := Slot(mem, lay, y, n);
    var z := Sub(y, n);
    if e.Table? {
      assert z in lay.tab && lay.tab[z] == e.ptr && lay.pos[e.ptr] == z;
      forall p | p in Freed(lay, y, n + 1) ensures p in Freed(lay, y, n) + {e.ptr} {
        if lay.pos[p].i == n { assert lay.pos[p] == z; assert lay.tab[lay.pos[p]] == p; }
      }
    } else {
      Vacant(mem, root, lay, y, n);
      forall p | p in Freed(lay, y, n + 1) ensures p in Freed(lay, y, n) {
        assert lay.pos[p] != z;
      }
    }
  }

  /** Below an L3 table there are only the L4 tables that its slots point to. */
  lemma FreedAll(mem: Mem, root: nat, fan: seq<nat>, lay: Layout, y: Pos)
    requires Wf(mem, root, fan, lay) && y in lay.tab && Depth(y) + 2 == |fan|
    ensures Subtree(lay, y) == Freed(lay, y, fan[Depth(y)]) + {lay.tab[y]}
  {
    forall p | p in lay.pos ensures Above(y, lay.pos[p]) <==> p in Freed(lay, y, fan[Depth(y)]) + {lay.tab[y]} {
      BelowL3(mem, root, fan, lay, y, p);
    }
  }

  lemma BelowL3(mem: Mem, root: nat, fan: seq<nat>, lay: Layout, y: Pos, p: nat)
    requires Wf(mem, root, fan, lay) && y in lay.tab && Depth(y) + 2 == |fan| && p in lay.pos
    ensures Above(y, lay.pos[p]) <==> p in Freed(lay, y, fan[Depth(y)]) || p == lay.tab[y]
  {
    var z := lay.pos[p];
    assert z in lay.tab && lay.tab[z] == p;
    if Above(y, z) && z != y {
      AboveDepth(y, z.up);
      assert z.up == y;
      assert Slot(mem, lay, z.up, z.i) == Table(lay.tab[z]);
    }
  }

  /** Nothing is below a slot that holds no pointer; an L4 table is all there is below its slot. */
  lemma BelowSlot(mem: Mem, root: nat, fan: seq<nat>, lay: Layout, x: Pos, i: nat)
    requires Wf(mem, root, fan, lay) && x in lay.tab
    ensures Slot(mem, lay, x, i).Leaf? ==> Subtree(lay, Sub(x, i)) == {}
    ensures Slot(mem, lay, x, i).Table? && Depth(x) + 2 == |fan| ==>
              Subtree(lay, Sub(x, i)) == {Slot(mem, lay, x, i).ptr}
  {
    var y := Sub(x, i);
    if Slot(mem, lay, x, i).Leaf? {
      Vacant(mem, root, lay, x, i);
      forall p | p in lay.pos ensures !Above(y, lay.pos[p]) {
        NothingBelow(mem, root, lay, y, lay.pos[p]);
      }
    } else if Depth(x) + 2 == |fan| {
      forall p | p in lay.pos ensures Above(y, lay.pos[p]) <==> p == Slot(mem, lay, x, i).ptr {
        if Above(y, lay.pos[p]) { AboveDepth(y, lay.pos[p]); }
        assert lay.tab[lay.pos[p]] == p;
      }
    }
  }

  lemma {:induction false} NothingBelow(mem: Mem, root: nat, lay: Layout, y: Pos, z: Pos)
    requires Upward(mem, root, lay) && y !in lay.tab && z in lay.tab
    ensures !Above(y, z)
  {
    if z.Sub? { NothingBelow(mem, root, lay, y, z.up); }
  }

  // ---- Where addresses are mapped by pages or words, not by 32 MiB blocks ----

  /** There is an L3 table for the address. */
  predicate Fine(lay: Layout, big: bool, a: nat) { P3(big, a) in lay.tab }

  ghost predicate AllFine(lay: Layout, big: bool, from: nat, size: nat) {
    forall a: nat :: from <= a < from + size && a < Space(big) ==> Fine(lay, big, a)
  }

  /** L3 tables stay, those for the range aside. */
  ghost predicate KeepsFine(was: Layout, now: Layout, big: bool, from: nat, size: nat) {
    forall a: nat :: a < Space(big) && Fine(was, big, a) && !(from <= a < from + size) ==> Fine(now, big, a)
  }

  lemma FineSame(lay: Layout, big: bool)
    ensures KeepsFine(lay, lay, big, 0, 0) && AllFine(lay, big, 0, 0)
  {
  }

  lemma FineGrown(lay: Layout, big: bool, y: Pos, q: nat)
    ensures KeepsFine(lay, Grown(lay, y, q), big, 0, 0)
  {
  }

  lemma FineThrough(l0: Layout, l1: Layout, l2: Layout, big: bool)
    requires KeepsFine(l0, l1, big, 0, 0) && KeepsFine(l1, l2, big, 0, 0)
    ensures KeepsFine(l0, l2, big, 0, 0)
  {
    hide Fine;
  }

  /** Fine addresses stay fine when L3 or L4 entries are written. */
  lemma FineStays(l0: Layout, l1: Layout, big: bool, from: nat, size: nat)
    requires KeepsFine(l0, l1, big, 0, 0) && AllFine(l0, big, from, size)
    ensures AllFine(l1, big, from, size)
  {
    hide Fine;
  }

  lemma FineJoin(lay: Layout, big: bool, from: nat, n: nat, m: nat)
    requires AllFine(lay, big, from, n) && AllFine(lay, big, from + n, m)
    ensures AllFine(lay, big, from, n + m)
  {
    hide Fine;
    forall a: nat | from <= a < from + (n + m) && a < Space(big) ensures Fine(lay, big, a) {
      if a >= from + n { assert from + n <= a < from + n + m; }
    }
  }

  /** An L3 table serves its 32 MiB, so also each page and each word in it. */
  lemma FineUnit(lay: Layout, big: bool, from: nat, u: nat)
    requires from < Space(big) && Fine(lay, big, from) && (u == 0x4000 || u == 4) && from % u == 0
    ensures AllFine(lay, big, from, u)
  {
    forall a: nat | from <= a < from + u && a < Space(big) ensures Fine(lay, big, a) {
      SameBlock(from, a, u);
      SamePlace(big, a, from);
    }
  }

  lemma SameBlock(f: nat, a: nat, u: nat)
    requires (u == 0x4000 || u == 4) && f % u == 0 && f <= a < f + u
    ensures a / 0x200_0000 == f / 0x200_0000
  {
    if u == 4 { Nested(f, 4, 0x80_0000); } else { Nested(f, 0x4000, 2048); }
    AddSmall(f, 0x200_0000, a - f);
  }

  lemma FinePruned(lay: Layout, big: bool, f: nat)
    requires f < Space(big) && f % 0x200_0000 == 0
    ensures KeepsFine(lay, Pruned(lay, P3(big, f)), big, f, 0x200_0000)
  {
    forall a: nat | a < Space(big) && !(f <= a < f + 0x200_0000) ensures !Above(P3(big, f), P3(big, a)) {
      BelowBlock(big, a, f);
      SamePlace(big, a, f);
      InUnit(a, f, 0x200_0000);
    }
  }

  lemma FinePrunedPage(lay: Layout, big: bool, f: nat)
    requires f < Space(big)
    ensures KeepsFine(lay, Pruned(lay, P4(big, f)), big, 0, 0)
  {
    forall a: nat | a < Space(big) ensures !Above(P4(big, f), P3(big, a)) {
      BelowBlock(big, a, f);
    }
  }

  lemma FineStart(lay: Layout, big: bool, from: nat)
    ensures KeepsFine(lay, lay, big, from, 0) && AllFine(lay, big, from, 0)
  {
  }

  lemma FineNext(l0: Layout, l1: Layout, l2: Layout, big: bool, from: nat, n: nat, u: nat)
    requires KeepsFine(l0, l1, big, 0, 0) && KeepsFine(l1, l2, big, 0, 0) && AllFine(l1, big, from, n)
    requires from + n < Space(big) && Fine(l2, big, from + n) && (u == 0x4000 || u == 4) && (from + n) % u == 0
    ensures KeepsFine(l0, l2, big, 0, 0) && AllFine(l2, big, from, n + u)
  {
    hide KeepsFine, AllFine, Fine;
    FineThrough(l0, l1, l2, big);
    FineStays(l1, l2, big, from, n);
    FineUnit(l2, big, from + n, u);
    FineJoin(l2, big, from, n, u);
  }

  lemma FineWiden(l0: Layout, l1: Layout, big: bool, from: nat, size: nat)
    requires KeepsFine(l0, l1, big, 0, 0)
    ensures KeepsFine(l0, l1, big, from, size)
  {
    hide Fine;
  }

  lemma FineAt(l0: Layout, l1: Layout, big: bool, f: nat)
    requires KeepsFine(l0, l1, big, 0, 0) && f < Space(big) && Fine(l0, big, f)
    ensures Fine(l1, big, f)
  {
  }

  lemma FineOnly(l0: Layout, l1: Layout, l2: Layout, big: bool, from: nat, size: nat)
    requires KeepsFine(l0, l1, big, 0, 0) && KeepsFine(l1, l2, big, from, size)
    ensures KeepsFine(l0, l2, big, from, size)
  {
    hide Fine;
  }

  /** Blocks outside the part that is done leave it as it is. */
  lemma FineBefore(l0: Layout, l1: Layout, big: bool, from: nat, n: nat, m: nat)
    requires KeepsFine(l0, l1, big, from + n, m) && AllFine(l0, big, from, n)
    ensures AllFine(l1, big, from, n)
  {
    hide Fine;
  }

  lemma FineMore(l0: Layout, l1: Layout, l2: Layout, big: bool, from: nat, n: nat, m: nat)
    requires KeepsFine(l0, l1, big, from, n) && KeepsFine(l1, l2, big, from + n, m)
    ensures KeepsFine(l0, l2, big, from, n + m)
  {
    hide Fine;
    forall a: nat | a < Space(big) && Fine(l0, big, a) && !(from <= a < from + (n + m)) ensures Fine(l2, big, a) {
      assert !(from <= a < from + n) && !(from + n <= a < from + n + m);
      assert Fine(l1, big, a);
    }
  }

  class StageTwo {
    const big: bool
    const ramBase: nat
    const base: nat
    const root: nat
    var mem: Mem
    ghost var lay: Layout

    /** hv_pt_init, for a CPU with `paBits` physical address bits.  `ramBase` and `base` are the
        start of RAM and of the program image. */
    constructor (paBits: nat, ramBase: nat, base: nat)
      requires base % 2 == 0
      ensures Valid() && big == (paBits > 36) && this.ramBase == ramBase && this.base == base
      ensures Space(big) == if paBits > 36 then 0x1000_0000_0000 else 0x10_0000_0000
      ensures forall a: nat :: a < Space(big) ==> At(a) == 0
    {
      var vaddrBits := if 44 < paBits then 44 else paBits;
      big := vaddrBits > 36;
      this.ramBase := ramBase;
      this.base := base;
      var s := FillTable(0, 0, 2048);
      root := 1;
      mem := map[1 := s];
      lay := Layout(map[Root := 1], map[1 := Root]);
      new;
      assert Downward(mem, lay) && Upward(mem, root, lay);
      assert Sized(mem, Fan(big), lay);
    }

    ghost predicate Valid()
      reads this
    {
      base % 2 == 0 && Good(mem, root, lay, big)
    }

    /** The flat map that the tree stands for: what address `a` means now. */
    ghost function At(a: nat): nat
      reads this
    {
      View(mem, lay, big, a)
    }

    /** memalign and the writes that fill the new table. */
    method Memalign(s: seq<Pte>) returns (q: nat)
      modifies this`mem
      ensures q !in old(mem) && mem == old(mem)[q := s]
    {
      FreshAddress(mem.Keys);
      q :| q !in mem;
      mem := mem[q := s];
    }

    /** free; releasing what is not allocated is ruled out at every call. */
    method Free(q: nat)
      requires q in mem
      modifies this`mem
      ensures mem == old(mem) - {q}
    {
      mem := mem - {q};
    }

    method GetL2(from: nat) returns (l2: nat)
      requires Valid() && from < Space(big)
      modifies this
      ensures Valid() && P2(big, from) in lay.tab && l2 == lay.tab[P2(big, from)]
      ensures forall a: nat :: a < Space(big) ==> At(a) == old(At(a))
      ensures KeepsFine(old(lay), lay, big, 0, 0)
    {
      hide View, Eff, Good, KeepsFine;
      FineSame(lay, big);
      TopTable(mem, root, lay, big);
      if !big {
        return root;
      }
      var i := from / 0x10_0000_0000;
      Depths(big, from);
      SlotAt(mem, root, lay, big, Root, i);
      var e := mem[root][i];
      if e.Table? {
        return e.ptr;
      }
      var s := FillTable(0, 0, 2048);
      ghost var m0: Mem := mem;
      l2 := Memalign(s);
      StepNewL2(m0, root, lay, from, l2, s);
      mem := Store(mem, root, i, Table(l2));
      FineGrown(lay, big, Sub(Root, i), l2);
      lay := Grown(lay, Sub(Root, i), l2);
    }

    /** The contents of an L3 table that replaces the L2 leaf `d`. */
    static method L3Contents(d: nat) returns (s: seq<Pte>)
      ensures |s| == 2048 && forall k :: 0 <= k < 2048 ==> s[k] == Leaf(L3First(d) + k * L3Incr(d))
    {
      if d != 0 {
        var incr := 0;
        var l3d := d;
        if IsHw(d) {
          l3d := WithType(d, 1);
          incr := 0x4000;
        } else if SpteType(d) == 0 {
          incr := 0x4000;
        }
        s := FillTable(l3d, incr, 2048);
      } else {
        s := FillTable(0, 0, 2048);
      }
    }

    method GetL3(from: nat) returns (l3: nat)
      requires Valid() && from < Space(big)
      modifies this
      ensures Valid() && P3(big, from) in lay.tab && l3 == lay.tab[P3(big, from)]
      ensures forall a: nat :: a < Space(big) ==> At(a) == old(At(a))
      ensures KeepsFine(old(lay), lay, big, 0, 0)
    {
      hide View, Eff, Good, KeepsFine;
      var l2 := GetL2(from);
      var i := from / 0x200_0000 % 2048;
      Depths(big, from);
      SlotAt(mem, root, lay, big, P2(big, from), i);
      var e := mem[l2][i];
      if e.Table? {
        return e.ptr;
      }
      var s := L3Contents(e.raw);
      ghost var m0: Mem := mem;
      l3 := Memalign(s);
      StepSplitBlock(m0, root, lay, big, from, l3, s, e.raw);
      mem := Store(mem, l2, i, Table(l3));
      FineGrown(lay, big, P3(big, from), l3);
      FineThrough(old(lay), lay, Grown(lay, P3(big, from), l3), big);
      lay := Grown(lay, P3(big, from), l3);
    }

    /** The contents of an L4 table that replaces the L3 leaf `d`. */
    static method L4Contents(d: nat) returns (s: seq<Pte>)
      requires L3Ok(d)
      ensures |s| == 4096 && forall k :: 0 <= k < 4096 ==> s[k] == Leaf(L4First(d) + k * L4Incr(d))
    {
      var l3d := d;
      if IsHw(l3d) {
        assert Type(l3d) == 1;
        l3d := Target(l3d);
      }
      if l3d != 0 {
        var incr := 0;
        var l4d := WithType(l3d, 1);
        L4SourceOk(d);
        TypeBit(l3d, 1);
        if SpteType(l4d) == 0 {
          incr := 4;
        }
        s := FillTable(l4d, incr, 4096);
      } else {
        s := FillTable(0, 0, 4096);
      }
    }

    method GetL4(from: nat) returns (l4: nat)
      requires Valid() && from < Space(big)
      modifies this
      ensures Valid() && P4(big, from) in lay.tab && l4 == lay.tab[P4(big, from)]
      ensures forall a: nat :: a < Space(big) ==> At(a) == PageSplit(old(At(a)), a / 0x4000 == from / 0x4000, a)
      ensures KeepsFine(old(lay), lay, big, 0, 0) && Fine(lay, big, from)
    {
      hide View, Eff, Good, PageSplit, KeepsFine;
      var l3 := GetL3(from);
      var i := from / 0x4000 % 2048;
      Depths(big, from);
      SlotAt(mem, root, lay, big, P3(big, from), i);
      var e := mem[l3][i];
      if e.Table? {
        forall a: nat | a < Space(big) ensures At(a) == PageSplit(At(a), a / 0x4000 == from / 0x4000, a) {
          if a / 0x4000 == from / 0x4000 { AlreadySplit(mem, root, lay, big, from, a); }
          SoftStays(At(a), a / 0x4000 == from / 0x4000, a);
        }
        return e.ptr;
      }
      var s := L4Contents(e.raw);
      ghost var m0: Mem := mem;
      l4 := Memalign(s);
      StepSplitPage(m0, root, lay, big, from, l4, s, e.raw);
      mem := Store(mem, l3, i, Table(l4));
      FineGrown(lay, big, P4(big, from), l4);
      FineThrough(old(lay), lay, Grown(lay, P4(big, from), l4), big);
      lay := Grown(lay, P4(big, from), l4);
    }

    /** hv_pt_free_l3: the L4 tables first, then the L3 table.  The layout is still the old one. */
    method FreeL3(l3: nat, ghost y: Pos)
      requires Valid() && y in lay.tab && lay.tab[y] == l3 && Depth(y) + 2 == |Fan(big)|
      modifies this`mem
      ensures mem == old(mem) - Subtree(lay, y)
    {
      hide View, Eff, LeavesOk, Downward, Upward;
      ghost var m0: Mem := mem;
      Depths(big, 0);
      assert Fan(big)[Depth(y)] == 2048;
      for idx := 0 to 2048
        invariant mem == m0 - Freed(lay, y, idx)
        invariant l3 in mem && mem[l3] == m0[l3]
      {
        var e := mem[l3][idx];
        assert e == Slot(m0, lay, y, idx);
        FreedStep(m0, root, Fan(big), lay, y, idx);
        if e.Table? {
          Free(e.ptr);
        }
      }
      FreedAll(m0, root, Fan(big), lay, y);
      Free(l3);
    }

    /** Releases what an L2 slot points to, if it is a table. */
    method FreeBelowL2(l2: nat, idx: nat, ghost x: Pos)
      requires Valid() && x in lay.tab && lay.tab[x] == l2 && Depth(x) + 3 == |Fan(big)| && idx < 2048
      modifies this`mem
      ensures mem == old(mem) - Subtree(lay, Sub(x, idx))
    {
      Depths(big, 0);
      BelowSlot(mem, root, Fan(big), lay, x, idx);
      var e := mem[l2][idx];
      assert e == Slot(mem, lay, x, idx);
      if e.Table? {
        FreeL3(e.ptr, Sub(x, idx));
      }
    }

    /** Releases the L4 table that an L3 slot points to, if there is one. */
    method FreeBelowL3(l3: nat, idx: nat, ghost x: Pos)
      requires Valid() && x in lay.tab && lay.tab[x] == l3 && Depth(x) + 2 == |Fan(big)| && idx < 2048
      modifies this`mem
      ensures mem == old(mem) - Subtree(lay, Sub(x, idx))
    {
      Depths(big, 0);
      BelowSlot(mem, root, Fan(big), lay, x, idx);
      var e := mem[l3][idx];
      assert e == Slot(mem, lay, x, idx);
      if e.Table? {
        Free(e.ptr);
      }
    }

    /** The body of the loop in hv_pt_map_l2. */
    method PutBlock(from: nat, to: nat)
      requires Valid() && from < Space(big) && L2Ok(to) && from % 0x200_0000 == 0
      modifies this
      ensures Valid() && KeepsFine(old(lay), lay, big, from, 0x200_0000)
      ensures forall a: nat :: a < Space(big) ==>
                At(a) == if a / 0x200_0000 == from / 0x200_0000 then Eff(to, Word(a % 0x200_0000)) else old(At(a))
    {
      hide View, Eff, L2Ok, Good, Subtree, Pruned, KeepsFine;
      var l2 := GetL2(from);
      var idx := from / 0x200_0000 % 2048;
      Depths(big, from);
      StepBlock(mem, root, lay, big, from, to);
      FreeBelowL2(l2, idx, P2(big, from));
      mem := Store(mem, l2, idx, Leaf(to));
      FinePruned(lay, big, from);
      FineOnly(old(lay), lay, Pruned(lay, P3(big, from)), big, from, 0x200_0000);
      lay := Pruned(lay, P3(big, from));
    }

    /** The body of the loop in hv_pt_map_l3. */
    method PutPage(from: nat, to: nat)
      requires Valid() && from < Space(big) && L3Ok(to)
      modifies this
      ensures Valid() && KeepsFine(old(lay), lay, big, 0, 0) && Fine(lay, big, from)
      ensures forall a: nat :: a < Space(big) ==>
                At(a) == if a / 0x4000 == from / 0x4000 then Eff(to, Word(a % 0x4000)) else old(At(a))
    {
      hide View, Eff, L3Ok, Good, Subtree, Pruned, KeepsFine;
      var idx := from / 0x4000 % 2048;
      var l3 := GetL3(from);
      Depths(big, from);
      StepPage(mem, root, lay, big, from, to);
      FreeBelowL3(l3, idx, P3(big, from));
      mem := Store(mem, l3, idx, Leaf(to));
      FinePrunedPage(lay, big, from);
      FineThrough(old(lay), lay, Pruned(lay, P4(big, from)), big);
      FineAt(lay, Pruned(lay, P4(big, from)), big, from);
      lay := Pruned(lay, P4(big, from));
    }

    /** The body of the loop in hv_pt_map_l4. */
    method PutWord(from: nat, to: nat)
      requires Valid() && from < Space(big) && L4Ok(to)
      modifies this
      ensures Valid() && KeepsFine(old(lay), lay, big, 0, 0) && Fine(lay, big, from)
      ensures forall a: nat :: a < Space(big) ==>
                At(a) == if a / 4 == from / 4 then Eff(to, 0)
                         else PageSplit(old(At(a)), a / 0x4000 == from / 0x4000, a)
    {
      hide View, Eff, L4Ok, Good;
      var idx := from / 4 % 4096;
      var l4 := GetL4(from);
      StepWord(mem, root, lay, big, from, to);
      mem := Store(mem, l4, idx, Leaf(to));
    }

    /** hv_pt_map_l2 */
    method MapL2(from0: nat, to0: nat, size0: nat, incr: nat)
      requires Valid() && from0 + size0 <= Space(big) && TargetOk(to0, incr, size0)
      requires from0 % 0x200_0000 == 0 && size0 % 0x200_0000 == 0
      requires IsHw(to0) ==> Target(to0) % 0x200_0000 == 0
      modifies this
      ensures Valid() && KeepsFine(old(lay), lay, big, from0, size0)
      ensures forall a: nat :: a < Space(big) ==> At(a) == Mapped(old(At(a)), a, from0, to0, size0)
    {
      hide View, Eff, WithType, Good, KeepsFine;
      var from, to, size := from0, to0, size0;
      ghost var n := 0;
      FineStart(lay, big, from0);
      while size > 0
        invariant Valid() && n + size == size0 && n % 0x200_0000 == 0 && size % 0x200_0000 == 0
        invariant from == from0 + n && to == Adv(to0, incr, n)
        invariant forall a: nat :: a < Space(big) ==> At(a) == Mapped(old(At(a)), a, from0, to0, n)
        invariant KeepsFine(old(lay), lay, big, from0, n)
      {
        NextUnit(n, size, 0x200_0000);
        AdvanceL2(to0, incr, size0, n);
        ghost var l1 := lay;
        AddMultiple(from0, 0x200_0000, n / 0x200_0000);
        PutBlock(from, to);
        FineMore(old(lay), l1, lay, big, from0, n, 0x200_0000);
        forall a: nat | a < Space(big) ensures At(a) == Mapped(old(At(a)), a, from0, to0, n + 0x200_0000) {
          MappedBlock(old(At(a)), a, from0, to0, incr, size0, n);
        }
        from := from + 0x200_0000;
        to := to + incr * 0x200_0000;
        size := size - 0x200_0000;
        n := n + 0x200_0000;
      }
    }

    /** hv_pt_map_l3 */
    method MapL3(from0: nat, to0: nat, size0: nat, incr: nat)
      requires Valid() && from0 + size0 <= Space(big) && TargetOk(to0, incr, size0)
      requires from0 % 0x4000 == 0 && size0 % 0x4000 == 0
      modifies this
      ensures Valid() && KeepsFine(old(lay), lay, big, 0, 0) && AllFine(lay, big, from0, size0)
      ensures forall a: nat :: a < Space(big) ==> At(a) == Mapped(old(At(a)), a, from0, to0, size0)
    {
      hide View, Eff, WithType, Good, KeepsFine, AllFine, Fine;
      var t := if IsHw(to0) then 1 else 0;
      var from, to, size := from0, WithType(to0, t), size0;
      ghost var n := 0;
      FineSame(lay, big);
      FineStart(lay, big, from0);
      while size > 0
        invariant Valid() && n + size == size0 && n % 0x4000 == 0 && size % 0x4000 == 0
        invariant from == from0 + n && to == Adv(WithType(to0, t), incr, n)
        invariant forall a: nat :: a < Space(big) ==> At(a) == Mapped(old(At(a)), a, from0, to0, n)
        invariant KeepsFine(old(lay), lay, big, 0, 0) && AllFine(lay, big, from0, n)
      {
        NextUnit(n, size, 0x4000);
        AdvanceL3(to0, incr, size0, n);
        ghost var l1 := lay;
        AddMultiple(from0, 0x4000, n / 0x4000);
        PutPage(from, to);
        FineNext(old(lay), l1, lay, big, from0, n, 0x4000);
        forall a: nat | a < Space(big) ensures At(a) == Mapped(old(At(a)), a, from0, to0, n + 0x4000) {
          MappedPage(old(At(a)), a, from0, to0, incr, size0, n, t);
        }
        from := from + 0x4000;
        to := to + incr * 0x4000;
        size := size - 0x4000;
        n := n + 0x4000;
      }
    }

    /** hv_pt_map_l4 */
    method MapL4(from0: nat, to0: nat, size0: nat, incr: nat)
      requires Valid() && from0 + size0 <= Space(big) && TargetOk(to0, incr, size0)
      requires from0 % 4 == 0 && size0 % 4 == 0 && !IsHw(to0)
      modifies this
      ensures Valid() && KeepsFine(old(lay), lay, big, 0, 0) && AllFine(lay, big, from0, size0)
      ensures forall a: nat :: a < Space(big) ==>
                At(a) == Mapped(PageSplit(old(At(a)), Touched(a, from0, size0), a), a, from0, to0, size0)
    {
      hide View, Eff, WithType, Good, KeepsFine, AllFine, Fine;
      var from, to, size := from0, if IsSw(to0) then WithType(to0, 1) else to0, size0;
      ghost var n := 0;
      FineSame(lay, big);
      FineStart(lay, big, from0);
      while size > 0
        invariant Valid() && n + size == size0 && n % 4 == 0 && size % 4 == 0
        invariant from == from0 + n && to == if to0 == 0 then 0 else Adv(WithType(to0, 1), incr, n)
        invariant forall a: nat :: a < Space(big) ==>
                    At(a) == Mapped(PageSplit(old(At(a)), Touched(a, from0, n), a), a, from0, to0, n)
        invariant KeepsFine(old(lay), lay, big, 0, 0) && AllFine(lay, big, from0, n)
      {
        NextUnit(n, size, 4);
        AdvanceL4(to0, incr, size0, n);
        ghost var l1 := lay;
        AddMultiple(from0, 4, n / 4);
        PutWord(from, to);
        FineNext(old(lay), l1, lay, big, from0, n, 4);
        forall a: nat | a < Space(big)
          ensures At(a) == Mapped(PageSplit(old(At(a)), Touched(a, from0, n + 4), a), a, from0, to0, n + 4)
        {
          MappedSplitWord(old(At(a)), a, from0, to0, incr, size0, n);
        }
        from := from + 4;
        to := to + incr * 4;
        size := size - 4;
        n := n + 4;
      }
    }

    /** n bytes of the mapping are in place, counted from the tree (m0, l0). */
    ghost predicate Progress(m0: Mem, l0: Layout, from0: nat, to0: nat, n: nat)
      reads this
    {
      forall a: nat :: a < Space(big) ==> At(a) == Mapped(View(m0, l0, big, a), a, from0, to0, n)
    }

    lemma NoProgress(from0: nat, to0: nat)
      ensures Progress(mem, lay, from0, to0, 0)
    {
    }

    /** Another chunk of L3 entries. */
    method MoreL3(from: nat, to: nat, chunk: nat, incr: nat,
                  ghost m0: Mem, ghost l0: Layout, ghost from0: nat, ghost to0: nat, ghost size0: nat, ghost n: nat)
      requires Valid() && Progress(m0, l0, from0, to0, n)
      requires n + chunk <= size0 && from0 + size0 <= Space(big) && TargetOk(to0, incr, size0)
      requires from == from0 + n && to == Adv(to0, incr, n)
      requires Aligned(from, 0x4000) && Aligned(chunk, 0x4000) && Aligned(n, 0x4000) && 0 < chunk
      modifies this
      ensures Valid() && Progress(m0, l0, from0, to0, n + chunk)
      ensures KeepsFine(old(lay), lay, big, 0, 0) && AllFine(lay, big, from, chunk)
    {
      hide View, Eff, Good, Mapped, TargetOk, Target, KeepsFine, AllFine;
      PageStep(to0, incr, size0, n, chunk);
      MapL3(from, to, chunk, incr);
      forall a: nat | a < Space(big) ensures At(a) == Mapped(View(m0, l0, big, a), a, from0, to0, n + chunk) {
        MappedJoin(View(m0, l0, big, a), a, from0, to0, incr, size0, n, chunk);
      }
    }

    /** Another chunk of L2 entries. */
    method MoreL2(from: nat, to: nat, chunk: nat, incr: nat,
                  ghost m0: Mem, ghost l0: Layout, ghost from0: nat, ghost to0: nat, ghost size0: nat, ghost n: nat)
      requires Valid() && Progress(m0, l0, from0, to0, n)
      requires n + chunk <= size0 && from0 + size0 <= Space(big) && TargetOk(to0, incr, size0)
      requires from == from0 + n && to == Adv(to0, incr, n)
      requires Aligned(from, 0x200_0000) && Aligned(chunk, 0x200_0000) && Aligned(n, 0x4000) && 0 < chunk
      requires IsHw(to) ==> BlockTarget(to)
      modifies this
      ensures Valid() && Progress(m0, l0, from0, to0, n + chunk)
      ensures KeepsFine(old(lay), lay, big, from, chunk)
    {
      hide View, Eff, Good, Mapped, TargetOk, Target, KeepsFine;
      PageStep(to0, incr, size0, n, chunk);
      if IsHw(to) { BlockAligned(to); }
      MapL2(from, to, chunk, incr);
      forall a: nat | a < Space(big) ensures At(a) == Mapped(View(m0, l0, big, a), a, from0, to0, n + chunk) {
        MappedJoin(View(m0, l0, big, a), a, from0, to0, incr, size0, n, chunk);
      }
    }

    /** The three middle steps of hv_map: L3 up to a block boundary, L2, and L3 to the end. */
    method MapPages(from0: nat, to0: nat, size0: nat, incr: nat) returns (n: nat)
      requires Valid() && from0 + size0 <= Space(big)
      requires size0 > 0 ==> TargetOk(to0, incr, size0) && Aligned(from0, 0x4000)
      modifies this
      ensures Valid() && n == AlignDown(size0, 0x4000)
      ensures forall a: nat :: a < Space(big) ==> At(a) == Mapped(old(At(a)), a, from0, to0, n)
      ensures KeepsFine(old(lay), lay, big, from0, n)
      ensures size0 > 0 ==> FineBelow(lay, big, from0, n, Limit(ramBase, base, from0))
    {
      hide View, Eff, Good, TargetOk, Target, AlignUpMask, AlignDown, Aligned, BlockTarget, Mapped, IsHw, KeepsFine,
        AllFine, FineBelow;
      FineStart(lay, big, from0);
      ghost var m0: Mem, l0 := mem, lay;
      var hw := IsHw(to0);
      var from, to, size := from0, to0, size0;
      n := 0;
      NoProgress(from0, to0);
      Zero();
      if size == 0 {
        return;  // all chunks below are empty
      }

      var boundary := AlignUpMask(from, 0x200_0000);
      if boundary >= ramBase && boundary < base {
        boundary := AlignUpMask(base, 0x200_0000);
      }
      Boundary(from, base, ramBase);
      var chunk := AlignDown(if size < boundary - from then size else boundary - from, 0x4000);
      FirstChunk(from, size, boundary, chunk);
      if chunk > 0 {
        MoreL3(from, to, chunk, incr, m0, l0, from0, to0, size0, n);
        n, from, to, size := n + chunk, from + chunk, Adv(to, incr, chunk), size - chunk;
        FineWiden(l0, lay, big, from0, n);
      }
      ghost var first, l1 := n, lay;

      chunk := AlignDown(size, 0x200_0000);
      SecondChunk(size, chunk, n);
      PageStepHw(to0, incr, size0, n);
      if chunk > 0 && (!hw || BlockTarget(to)) {
        MoreL2(from, to, chunk, incr, m0, l0, from0, to0, size0, n);
        FineMore(l0, l1, lay, big, from0, n, chunk);
        FineBefore(l1, lay, big, from0, first, chunk);
        n, from, to, size := n + chunk, from + chunk, Adv(to, incr, chunk), size - chunk;
      }
      ghost var l2 := lay;

      chunk := AlignDown(size, 0x4000);
      LastChunk(from0, size0, n, chunk);
      if chunk > 0 {
        MoreL3(from, to, chunk, incr, m0, l0, from0, to0, size0, n);
        FineWiden(l2, lay, big, from0 + n, chunk);
        FineMore(l0, l2, lay, big, from0, n, chunk);
        FineStays(l2, lay, big, from0, first);
        n := n + chunk;
      }
      FirstIsAll(lay, big, from0, size0, boundary, first, n);
    }

    /** hv_pt_map_l4 where hv_map calls it: only if there are words to map. */
    method MapWords(from: nat, to: nat, size: nat, incr: nat)
      requires Valid() && from + size <= Space(big)
      requires size > 0 ==> TargetOk(to, incr, size) && from % 4 == 0 && size % 4 == 0 && !IsHw(to)
      modifies this
      ensures Valid() && KeepsFine(old(lay), lay, big, 0, 0) && AllFine(lay, big, from, size)
      ensures forall a: nat :: a < Space(big) ==>
                At(a) == Mapped(PageSplit(old(At(a)), Touched(a, from, size), a), a, from, to, size)
    {
      hide View, Eff, Good, TargetOk, IsHw, PageSplit, Touched, Mapped, KeepsFine, AllFine;
      if size > 0 {
        MapL4(from, to, size, incr);
      } else {
        FineSame(lay, big);
        FineStart(lay, big, from);
        forall a: nat ensures Mapped(PageSplit(At(a), Touched(a, from, size), a), a, from, to, size) == At(a) {
          NothingDone(At(a), a, from, to);
        }
      }
    }

    /** hv_map: a misaligned request is refused and changes nothing, any other request updates the
        flat map. */
    method HvMap(from0: nat, to0: nat, size0: nat, incr: nat) returns (ret: int)
      requires Valid() && from0 + size0 <= Space(big) && TargetOk(to0, incr, size0)
      modifies this
      ensures Valid()
      ensures ret == if from0 % 4 != 0 || size0 % 4 != 0 ||
                        (to0 % 2 == 1 && (from0 % 0x4000 != 0 || size0 % 0x4000 != 0)) then -1 else 0
      ensures ret == (if Refused(from0, to0, size0) then -1 else 0)
      ensures ret == -1 ==> mem == old(mem) && lay == old(lay)
      ensures ret == 0 ==>
                forall a: nat :: a < Space(big) ==> At(a) == HvMapped(old(At(a)), a, from0, to0, size0)
      ensures ret == 0 ==>
                forall a: nat :: a < Space(big) ==> At(a) == Updated(old(At(a)), a, from0, to0, size0)
      ensures ret == 0 ==>
                var b := (from0 + 0x3FFF) / 0x4000 * 0x4000;
                var c := (b + 0x1FF_FFFF) / 0x200_0000 * 0x200_0000;
                var limit := if ramBase <= c < base then (base + 0x1FF_FFFF) / 0x200_0000 * 0x200_0000 else c;
                forall a: nat :: from0 <= a < from0 + size0 && a < limit ==> Fine(lay, big, a)
    {
      hide View, Eff, Good, TargetOk, IsHw, PageSplit, Touched, HvMapped, AlignDown, AlignUp, Aligned, Refused,
           IsHead, Mapped, KeepsFine, AllFine, FineBelow, Fine, Limit, Updated;
      RefusedIs(from0, to0, size0);
      if Refused(from0, to0, size0) {
        return -1;
      }
      var from, to, size := from0, to0, size0;

      // L4 entries up to a page boundary
      HeadIs(from, size);
      var up := AlignUp(from, 0x4000) - from;
      var head := if size < up then size else up;
      HeadChunk(from0, to0, size0, incr, head);
      MapWords(from, to, head, incr);
      from, to, size := from + head, Adv(to, incr, head), size - head;

      // L3 and L2 entries
      ghost var l1, rest := lay, size;
      var mid := MapPages(from, to, size, incr);
      FineBefore(l1, lay, big, from0, head, mid);
      ghost var l2 := lay;
      TailChunk(from0, to0, size0, incr, head, mid);
      from, to, size := from + mid, Adv(to, incr, mid), size - mid;

      // L4 entries to the end
      MapWords(from, to, size, incr);
      FineParts(l2, lay, big, ramBase, base, from0, size0, head, mid);
      forall a: nat | a < Space(big) ensures At(a) == HvMapped(old(At(a)), a, from0, to0, size0) {
        HvJoin(old(At(a)), a, from0, to0, incr, size0, head, mid);
      }
      NoTypeBit(to0, incr, size0);
      forall a: nat | a < Space(big) ensures At(a) == Updated(old(At(a)), a, from0, to0, size0) {
        UpdatedIs(old(At(a)), a, from0, to0, size0);
      }
      ret := 0;
    }

    function Walk(a: nat): nat
      requires Valid() && a < Space(big)
      reads this
    {
      HvPtWalk(mem, root, lay, big, a)
    }

    /** hv_unmap: every word of the range walks to 0 afterwards. */
    method HvUnmap(from: nat, size: nat) returns (ret: int)
      requires Valid() && from + size <= Space(big)
      modifies this
      ensures Valid() && ret == (if from % 4 != 0 || size % 4 != 0 then -1 else 0)
      ensures ret == 0 ==> forall a: nat :: from <= a < from + size ==> At(a) == 0 && Walk(a) == 0
      ensures ret == 0 ==> forall a: nat :: a < Space(big) && !(from <= a < from + size) ==>
                At(a) == Remains(old(At(a)), a, from, size)
    {
      hide View, Good, PageSplit, PartlyMapped, Remains;
      ret := HvMap(from, 0, size, 0);
      if ret == 0 {
        forall a: nat | from <= a < from + size ensures At(a) == 0 && Walk(a) == 0 {
          WalkReadsView(mem, root, lay, big, a);
        }
      }
    }

    /** hv_map_hw and hv_map_hw_ro, told apart by `writable`: only whole pages can be mapped; then every page of the
        range goes to its own page of the target with the standard attributes, no other address changes, and every word
        walks to a hardware entry with its own address. */
    method HvMapHw(from: nat, to: nat, size: nat, writable: bool) returns (ret: int)
      requires Valid() && from + size <= Space(big) && to % 0x4000 == 0 && to + size <= 0x4_0000_0000_0000
      requires to < 0x4_0000_0000_0000
      modifies this
      ensures Valid() && ret == (if from % 0x4000 != 0 || size % 0x4000 != 0 then -1 else 0)
      ensures ret == -1 ==> mem == old(mem) && lay == old(lay)
      ensures ret == 0 ==> forall a: nat :: a < Space(big) ==>
                At(a) == if from <= a < from + size
                         then to + (a - from) - (a - from) % 0x4000 + (if writable then 0x7FD else 0x77D)
                         else old(At(a))
      ensures ret == 0 ==> forall a: nat :: from <= a < from + size ==>
                Walk(a) % 2 == 1 && Walk(a) - Walk(a) % 4 == to + (a - from) - (a - from) % 4
    {
      hide View, Good, HvMapped, IsHw, Target, TargetOk, NoType, Type, WalkView, HvPtWalk;
      HwRequest(from, to, size, writable);
      ret := HvMap(from, to + Attributes(writable), size, 1);
      if ret == 0 {
        forall a: nat | a < Space(big)
          ensures At(a) == if from <= a < from + size
                           then to + (a - from) - (a - from) % 0x4000 + (if writable then 0x7FD else 0x77D)
                           else old(At(a))
        {
          HwMapped(old(At(a)), a, from, to, size, writable);
        }
        forall a: nat | from <= a < from + size
          ensures Walk(a) % 2 == 1 && Walk(a) - Walk(a) % 4 == to + (a - from) - (a - from) % 4
        {
          WalkReadsView(mem, root, lay, big, a);
          assert At(a) == to + (a - from) - (a - from) % 0x4000 + Attributes(writable);
          HwWalked(Walk(a), a, from, to, writable);
        }
      }
    }

    /** hv_map_hook: every word of the range means, and walks to, that hook. */
    method HvMapHook(from: nat, hook: nat, size: nat) returns (ret: int)
      requires Valid() && from + size <= Space(big) && hook % 4 == 0 && hook < 0x4_0000_0000_0000
      modifies this
      ensures Valid() && ret == (if from % 4 != 0 || size % 4 != 0 then -1 else 0)
      ensures ret == -1 ==> mem == old(mem) && lay == old(lay)
      ensures ret == 0 ==> forall a: nat :: from <= a < from + size ==>
                && At(a) == hook + 0x4_0000_0000_0000
                && Walk(a) % 2 == 0 && Walk(a) - Walk(a) % 4 == hook + 0x4_0000_0000_0000
      ensures ret == 0 ==> forall a: nat :: a < Space(big) && !(from <= a < from + size) ==>
                At(a) == Remains(old(At(a)), a, from, size)
    {
      hide View, Good, PageSplit, PartlyMapped, TargetOk, HvPtWalk, IsHw, NoType, WalkView, Eff, Remains;
      HookTarget(hook, size);
      ret := HvMap(from, hook + 0x4_0000_0000_0000, size, 0);
      if ret == 0 {
        forall a: nat | from <= a < from + size
          ensures At(a) == hook + 0x4_0000_0000_0000
          ensures Walk(a) % 2 == 0 && Walk(a) - Walk(a) % 4 == hook + 0x4_0000_0000_0000
        {
          HookWord(hook, Word(a - from));
          assert At(a) == hook + 0x4_0000_0000_0000;
          WalkReadsView(mem, root, lay, big, a);
          HookFields(hook);
          PlainSwWord(Walk(a), a, hook + 0x4_0000_0000_0000);
        }
      }
    }

    /** hv_pt_set_writable: refused unless the page is HW mapped; otherwise the page keeps its target,
        gets the standard attributes with or without write permission, and no other word changes. */
    method SetWritable(ipa0: nat, writable: bool) returns (ret: int)
      requires Valid() && ipa0 < Space(big)
      modifies this
      ensures Valid() && ret == (if old(IsHw(At(ipa0 - ipa0 % 0x4000))) then 0 else -1)
      ensures ret == -1 ==> mem == old(mem) && lay == old(lay)
      ensures ret == 0 ==> forall a: nat :: a < Space(big) ==>
                At(a) ==
                  if a / 0x4000 != ipa0 / 0x4000 then old(At(a))
                  else old(At(a)) % 0x4_0000_0000_0000 - old(At(a)) % 0x4000 + (if writable then 0x7FD else 0x77D)
      ensures ret == 0 ==> forall a: nat :: a < Space(big) && a / 0x4000 == ipa0 / 0x4000 ==>
                (At(a) / 0x80 % 2 == 1 <==> writable)
    {
      hide View, Good, HvMapped, IsHw, Target, TargetOk, NoType, Type, WalkView, HvPtWalk, Attributes;
      PageStart(ipa0, big);
      var ipa := ipa0 - ipa0 % 0x4000;
      var pte := Walk(ipa);
      WalkReadsView(mem, root, lay, big, ipa);
      ViewNoType(mem, root, lay, big, ipa);
      WalkHw(At(ipa), pte, ipa);
      if !IsHw(pte) {
        return -1;
      }
      var to := Target(pte) + Attributes(writable);
      ReprotectTarget(pte, writable);
      ret := HvMap(ipa, to, 0x4000, 1);
      ghost var m0: Mem, l0 := old(mem), old(lay);
      forall a: nat | a < Space(big)
        ensures At(a) ==
                  if a / 0x4000 != ipa0 / 0x4000 then old(At(a))
                  else old(At(a)) % 0x4_0000_0000_0000 - old(At(a)) % 0x4000 + (if writable then 0x7FD else 0x77D)
        ensures a / 0x4000 == ipa0 / 0x4000 ==> (At(a) / 0x80 % 2 == 1 <==> writable)
      {
        OnePage(old(At(a)), a, ipa0, to);
        if a / 0x4000 == ipa0 / 0x4000 {
          HwPageUniform(m0, root, l0, big, a, ipa);
          Reprotected(old(At(a)), writable);
          assert At(a) == Target(old(At(a))) + Attributes(writable);
        }
      }
    }

    /** Any sequence of hv_map calls: the tree is what the flat map says, call by call, and the
        allocated tables are exactly the reachable ones. */
    method Run(calls: seq<Call>)
      requires Valid() && forall i :: 0 <= i < |calls| ==> calls[i].Legal(big)
      modifies this
      ensures Valid()
      ensures forall a: nat :: a < Space(big) ==> At(a) == FlatRun(calls, old(At(a)), a)
      ensures forall a: nat :: a < Space(big) ==> NoType(Walk(a)) == WalkView(FlatRun(calls, old(At(a)), a), a)
      ensures forall p: nat :: p in mem <==> Reachable(mem, root, p)
    {
      hide View, Good, HvMapped, Updated, Reachable, HvPtWalk, WalkView, NoType;
      for i := 0 to |calls|
        invariant Valid()
        invariant forall a: nat :: a < Space(big) ==> At(a) == FlatRun(calls[..i], old(At(a)), a)
      {
        var c := calls[i];
        var ret := HvMap(c.from, c.to, c.size, c.incr);
        forall a: nat | a < Space(big) ensures At(a) == FlatRun(calls[..i + 1], old(At(a)), a) {
          assert calls[..i + 1][..i] == calls[..i];
        }
      }
      assert calls[..|calls|] == calls;
      AllReachable();
      forall a: nat | a < Space(big) ensures NoType(Walk(a)) == WalkView(FlatRun(calls, old(At(a)), a), a) {
        WalkIsFlat(a);
      }
    }

    /** hv_pt_walk reads the flat map back: the kind, the flags and the target of every word, up to the type bit and the
        lower attributes of hardware words. */
    lemma WalkIsFlat(a: nat)
      requires Valid() && a < Space(big)
      ensures NoType(Walk(a)) == WalkView(At(a), a) && (Walk(a) == 0 <==> At(a) == 0)
    {
      WalkReadsView(mem, root, lay, big, a);
    }

    lemma AllReachable()
      requires Valid()
      ensures forall p: nat :: p in mem <==> Reachable(mem, root, p)
    {
      Conserved(mem, root, Fan(big), lay);
    }
  }

  lemma NoTypeBit(to: nat, incr: nat, size: nat)
    requires TargetOk(to, incr, size)
    ensures Type(to) == 0
  {
  }

  // ---- hv_map_hw and hv_map_hook ----

  lemma HwRequest(from: nat, to: nat, size: nat, writable: bool)
    requires to % 0x4000 == 0 && to < 0x4_0000_0000_0000 && to + size <= 0x4_0000_0000_0000
    ensures TargetOk(to + Attributes(writable), 1, size)
    ensures Refused(from, to + Attributes(writable), size) <==> from % 0x4000 != 0 || size % 0x4000 != 0
  {
    Nested(to, 4, 0x1000);
    PageFits(to);
    AttributesOver(to, writable);
    Nested(from, 4, 0x1000);
    Nested(size, 4, 0x1000);
  }

  lemma PageFits(to: nat)
    requires to % 0x4000 == 0 && to < 0x4_0000_0000_0000
    ensures to + 0x4000 <= 0x4_0000_0000_0000
  {
  }

  lemma HwMapped(v: nat, a: nat, from: nat, to: nat, size: nat, writable: bool)
    requires to % 0x4000 == 0 && to < 0x4_0000_0000_0000 && from % 0x4000 == 0 && size % 0x4000 == 0
    ensures HvMapped(v, a, from, to + Attributes(writable), size) ==
            if from <= a < from + size then to + (a - from) - (a - from) % 0x4000 + Attributes(writable) else v
  {
    hide Eff, IsHw, PartlyMapped, NoType, Type;
    WholePages(a, from, size);
    if from <= a < from + size {
      Nested(to, 4, 0x1000);
      PageFits(to);
      AttributesOver(to, writable);
      var d, o := to + Attributes(writable), a - from;
      EffHw(d, Word(o));
      WordInPage(o);
      TypeBit(d, 0);
    }
  }

  lemma WholePages(a: nat, from: nat, size: nat)
    requires from % 0x4000 == 0 && size % 0x4000 == 0
    ensures !PartlyMapped(a, from, size)
  {
    var i, j, n := a / 0x4000, from / 0x4000, size / 0x4000;
    assert a - a % 0x4000 == i * 0x4000 && from == j * 0x4000 && size == n * 0x4000;
  }

  lemma HwWalked(w: nat, a: nat, from: nat, to: nat, writable: bool)
    requires from % 0x4000 == 0 && from <= a && to % 0x4000 == 0
    requires NoType(w) == WalkView(to + (a - from) - (a - from) % 0x4000 + Attributes(writable), a)
    ensures w % 2 == 1 && w - w % 4 == to + (a - from) - (a - from) % 4
  {
    var o := a - from;
    var p := to + (o - o % 0x4000);
    PageTarget(to, o);
    HwFields(p, Attributes(writable));
    SameOffset(a, from);
    WordInPage(o);
    assert Word(o) == o - o % 4;
    hide Word, IsHw, Cleared, NoType;
    assert NoType(w) == to + Word(o) + 1;
    PlainHwWord(w, to + Word(o));
  }

  lemma PageTarget(to: nat, o: nat)
    requires to % 0x4000 == 0
    ensures (to + (o - o % 0x4000)) % 0x4000 == 0 && (to + Word(o)) % 4 == 0
  {
    Whole(o, 0x4000);
    AddMultiple(to, 0x4000, o / 0x4000);
    Nested(to, 4, 0x1000);
    Whole(o, 4);
    AddMultiple(to, 4, o / 4);
  }

  lemma SameOffset(a: nat, from: nat)
    requires from % 0x4000 == 0 && from <= a
    ensures a % 0x4000 == (a - from) % 0x4000
  {
    AddMultiple(a - from, 0x4000, from / 0x4000);
  }

  lemma HwFields(p: nat, r: nat)
    requires p % 0x4000 == 0 && r < 0x4000 && r % 4 == 1
    ensures IsHw(p + r) && Cleared(p + r) == p + 1
  {
    var d := p + r;
    DivModIs(d, 0x4000, p / 0x4000, r);
    Nested(d, 4, 0x1000);
    assert d % 4 == 1;
    HwOfLow(d);
    hide IsHw;
  }

  lemma PlainHwWord(w: nat, x: nat)
    requires x % 4 == 0 && NoType(w) == x + 1
    ensures w % 2 == 1 && w - w % 4 == x
  {
    var q := x / 4;
    if w % 4 >= 2 {
      DivModIs(w, 4, q, 3);
      DivModIs(w, 2, 2 * q + 1, 1);
    } else {
      DivModIs(w, 4, q, 1);
      DivModIs(w, 2, 2 * q, 1);
    }
  }

  /** The walk to a software word with its type bit cleared. */
  lemma PlainSwWord(w: nat, a: nat, v: nat)
    requires v % 4 == 0 && NoType(w) == WalkView(v, a)
    ensures w % 2 == 0 && w - w % 4 == v
  {
    var q := v / 4;
    DivModIs(v, 2, 2 * q, 0);
    if w % 4 >= 2 {
      DivModIs(w, 4, q, 2);
      DivModIs(w, 2, 2 * q + 1, 0);
    } else {
      DivModIs(w, 4, q, 0);
      DivModIs(w, 2, 2 * q, 0);
    }
  }

  lemma HookTarget(hook: nat, size: nat)
    requires hook % 4 == 0 && hook < 0x4_0000_0000_0000
    ensures TargetOk(hook + 0x4_0000_0000_0000, 0, size) && !IsHw(hook + 0x4_0000_0000_0000)
  {
    HookFields(hook);
  }

  lemma HookFields(hook: nat)
    requires hook % 4 == 0 && hook < 0x4_0000_0000_0000
    ensures var d := hook + 0x4_0000_0000_0000;
            d % 4 == 0 && !IsHw(d) && IsSw(d) && SpteType(d) == 1 && NoType(d) == d
  {
    var d := hook + 0x4_0000_0000_0000;
    AddMultiple(hook, 4, 0x1_0000_0000_0000);
    DivModIs(d, 0x4_0000_0000_0000, 1, hook);
    Nested(d, 2, 2);
  }

  lemma HookWord(hook: nat, off: nat)
    requires hook % 4 == 0 && hook < 0x4_0000_0000_0000
    ensures Eff(hook + 0x4_0000_0000_0000, off) == hook + 0x4_0000_0000_0000
  {
    HookFields(hook);
  }

  /** PTE_ATTRIBUTES or PTE_ATTRIBUTES_RO, with PTE_VALID. */
  function Attributes(writable: bool): nat { if writable then 0x7FD else 0x77D }

  /** A call of hv_map. */
  datatype Call = Call(from: nat, to: nat, size: nat, incr: nat) {
    predicate Legal(big: bool) {
      from + size <= Space(big) && TargetOk(to, incr, size)
    }
  }

  /** The flat map after a sequence of calls, at one address. */
  ghost function FlatRun(calls: seq<Call>, v: nat, a: nat): nat {
    if calls == [] then v
    else
      var c := calls[|calls| - 1];
      var w := FlatRun(calls[..|calls| - 1], v, a);
      if c.from % 4 != 0 || c.size % 4 != 0 || (c.to % 2 == 1 && (c.from % 0x4000 != 0 || c.size % 0x4000 != 0)) then w
      else Updated(w, a, c.from, c.to, c.size)
  }

  // ---- hv_unmap and hv_pt_set_writable ----

  /** The view of a HW word has no type bit. */
  lemma ViewNoType(mem: Mem, root: nat, lay: Layout, big: bool, a: nat)
    requires Good(mem, root, lay, big) && a < Space(big)
    ensures IsHw(View(mem, lay, big, a)) ==> Type(View(mem, lay, big, a)) == 0
  {
    WordOffsets(a);
    EffNoType(Raw(Slot(mem, lay, P4(big, a), I4(a))), 0, 0);
    EffNoType(Raw(Slot(mem, lay, P3(big, a), I3(a))), 0, Word(a % 0x4000));
    EffNoType(Raw(Slot(mem, lay, P2(big, a), I2(a))), I3(a), Word(a % 0x4000));
  }

  lemma EffNoType(d: nat, k: nat, o: nat)
    requires o < 0x4000 && o % 4 == 0
    ensures IsHw(Eff(d, k * 0x4000 + o)) ==> Type(Eff(d, k * 0x4000 + o)) == 0
  {
    HwUniform(d, k, o);
    if IsHw(d) {
      PageMultiple(k, 0);
      KeepsLowBits(NoType(d), k * 0x4000);
      NoTypeIs(d);
    }
  }

  lemma NoTypeIs(d: nat)
    ensures Type(NoType(d)) == 0
  {
    if d % 4 >= 2 { DivModIs(d - 2, 4, d / 4, d % 4 - 2); }
  }

  /** The walk is HW exactly where the view is. */
  lemma WalkHw(v: nat, w: nat, a: nat)
    requires NoType(w) == WalkView(v, a) && (IsHw(v) ==> Type(v) == 0)
    ensures IsHw(w) == IsHw(v) && (IsHw(v) ==> Target(w) == Target(v))
  {
    if IsHw(v) { WalkTarget(v, w, a); } else { TypeKeepsHw(w); }
  }

  /** The entry of a page with new permissions.  Bit 7 is the upper of the two bits of S2AP, for writing. */
  lemma Reprotected(v: nat, writable: bool)
    ensures var w := Target(v) + Attributes(writable);
            && w == v % 0x4_0000_0000_0000 - v % 0x4000 + (if writable then 0x7FD else 0x77D)
            && (w / 0x80 % 2 == 1 <==> writable)
  {
    TargetPage(v);
    var t := Target(v);
    var q := t / 0x4000;
    assert t == q * 0x4000;
    if writable {
      DivModIs(t + 0x7FD, 0x80, q * 0x80 + 15, 0x7D);
      DivModIs(q * 0x80 + 15, 2, q * 0x40 + 7, 1);
    } else {
      DivModIs(t + 0x77D, 0x80, q * 0x80 + 14, 0x7D);
      DivModIs(q * 0x80 + 14, 2, q * 0x40 + 7, 0);
    }
  }

  /** The arguments that hv_pt_set_writable passes on are legal. */
  lemma ReprotectTarget(pte: nat, writable: bool)
    ensures var to := Target(pte) + Attributes(writable);
            TargetOk(to, 1, 0x4000) && IsHw(to) && Type(to) == 0 && Target(to) == Target(pte)
  {
    TargetPage(pte);
    AttributesOver(Target(pte), writable);
  }

  lemma AttributesOver(t: nat, writable: bool)
    requires t % 0x4000 == 0 && t % 4 == 0 && t + 0x4000 <= 0x4_0000_0000_0000
    ensures var to := t + Attributes(writable); IsHw(to) && Type(to) == 0 && Target(to) == t
  {
    var r := Attributes(writable);
    KeepsLowBits(r, t);
    DivModIs(t + r, 0x4000, t / 0x4000, r);
    DivModIs(t + r, 0x4_0000_0000_0000, 0, t + r);
  }

  lemma PageStart(ipa: nat, big: bool)
    requires ipa < Space(big)
    ensures var f := ipa - ipa % 0x4000;
            f % 0x4000 == 0 && f % 4 == 0 && f + 0x4000 <= Space(big) && f / 0x4000 == ipa / 0x4000
  {
    var f := ipa - ipa % 0x4000;
    DivModIs(f, 0x4000, ipa / 0x4000, 0);
    Nested(f, 4, 0x1000);
  }

  /** Mapping one whole page: no other word changes. */
  lemma OnePage(v: nat, a: nat, ipa: nat, to: nat)
    requires IsHw(to) && Type(to) == 0
    ensures HvMapped(v, a, ipa - ipa % 0x4000, to, 0x4000) == if a / 0x4000 == ipa / 0x4000 then to else v
  {
    hide Eff, IsHw, PartlyMapped;
    var f := ipa - ipa % 0x4000;
    DivModIs(f, 0x4000, ipa / 0x4000, 0);
    WholePage(a, f);
    InUnit(a, f, 0x4000);
    if f <= a < f + 0x4000 {
      WordOffsets(a - f);
      DivModIs(a - f, 0x4000, 0, a - f);
      EffHw(to, Word(a - f));
      DivModIs(Word(a - f), 0x4000, 0, Word(a - f));
    }
  }

  lemma WholePage(a: nat, f: nat)
    requires f % 0x4000 == 0
    ensures !PartlyMapped(a, f, 0x4000)
  {
    var page := a - a % 0x4000;
    DivModIs(page, 0x4000, a / 0x4000, 0);
    var i, j := a / 0x4000, f / 0x4000;
    assert page == i * 0x4000 && f == j * 0x4000;
  }

  predicate Refused(from: nat, to: nat, size: nat) {
    from % 4 != 0 || size % 4 != 0 || (IsHw(to) && (from % 0x4000 != 0 || size % 0x4000 != 0))
  }

  lemma RefusedIs(from: nat, to: nat, size: nat)
    ensures Refused(from, to, size) <==>
            from % 4 != 0 || size % 4 != 0 || (to % 2 == 1 && (from % 0x4000 != 0 || size % 0x4000 != 0))
  {
  }

  // ---- What hv_map maps by pages ----

  /** The boundary up to which hv_map uses no L2 entries, from a page boundary on. */
  function Limit(ramBase: nat, base: nat, from: nat): nat {
    var b := AlignUpMask(from, 0x200_0000);
    if b >= ramBase && b < base then AlignUpMask(base, 0x200_0000) else b
  }

  ghost predicate FineBelow(lay: Layout, big: bool, from: nat, size: nat, limit: nat) {
    forall a: nat :: from <= a < from + size && a < limit && a < Space(big) ==> Fine(lay, big, a)
  }

  lemma FirstIsAll(lay: Layout, big: bool, from: nat, size: nat, limit: nat, first: nat, n: nat)
    requires from <= limit && Aligned(from, 0x4000) && Aligned(limit, 0x200_0000) && n == AlignDown(size, 0x4000)
    requires first == AlignDown(if size < limit - from then size else limit - from, 0x4000)
    requires AllFine(lay, big, from, first)
    ensures FineBelow(lay, big, from, n, limit)
  {
    hide Fine;
    if limit - from <= size {
      Nested(limit, 0x4000, 2048);
      DivModIs(limit - from, 0x4000, limit / 0x4000 - from / 0x4000, 0);
    }
  }

  lemma LimitIs(ramBase: nat, base: nat, from: nat)
    requires base % 2 == 0
    ensures var b := (from + 0x3FFF) / 0x4000 * 0x4000;
            var c := (b + 0x1FF_FFFF) / 0x200_0000 * 0x200_0000;
            Limit(ramBase, base, b) ==
              if ramBase <= c < base then (base + 0x1FF_FFFF) / 0x200_0000 * 0x200_0000 else c
  {
    hide AlignUpMask;
    var q := (from + 0x3FFF) / 0x4000;
    DivModIs(q * 0x4000, 2, q * 0x2000, 0);
    AlignUpMaskOf(q * 0x4000, 0x200_0000);
    AlignUpMaskOf(base, 0x200_0000);
  }

  lemma FineParts(l2: Layout, l3: Layout, big: bool, ramBase: nat, base: nat, from: nat, size: nat, head: nat, mid: nat)
    requires base % 2 == 0 && IsHead(from, size, head) && head + mid <= size && from + size <= Space(big)
    requires AllFine(l2, big, from, head) && KeepsFine(l2, l3, big, 0, 0)
    requires size - head > 0 ==> FineBelow(l2, big, from + head, mid, Limit(ramBase, base, from + head))
    requires size - head == 0 ==> mid == 0
    requires AllFine(l3, big, from + head + mid, size - head - mid)
    ensures var b := (from + 0x3FFF) / 0x4000 * 0x4000;
            var c := (b + 0x1FF_FFFF) / 0x200_0000 * 0x200_0000;
            var limit := if ramBase <= c < base then (base + 0x1FF_FFFF) / 0x200_0000 * 0x200_0000 else c;
            forall a: nat :: from <= a < from + size && a < limit ==> Fine(l3, big, a)
  {
    hide Fine, Limit;
    LimitIs(ramBase, base, from);
    if size - head > 0 { HeadEnds(from, size, head); }
  }

  lemma HeadEnds(from: nat, size: nat, head: nat)
    requires IsHead(from, size, head) && head < size
    ensures from + head == (from + 0x3FFF) / 0x4000 * 0x4000
  {
    if from % 0x4000 == 0 {
      DivModIs(from + 0x3FFF, 0x4000, from / 0x4000, 0x3FFF);
    } else {
      DivModIs(from + 0x3FFF, 0x4000, from / 0x4000 + 1, from % 0x4000 - 1);
    }
  }

  // ---- The arithmetic of hv_map's chunks ----

  /** The boundary up to which L3 entries are used: a block boundary at or above `from`. */
  lemma Boundary(from: nat, base: nat, ramBase: nat)
    requires Aligned(from, 0x4000) && base % 2 == 0
    ensures var b := AlignUpMask(from, 0x200_0000);
            var boundary := if b >= ramBase && b < base then AlignUpMask(base, 0x200_0000) else b;
            boundary >= from && Aligned(boundary, 0x200_0000)
  {
    Nested(from, 2, 0x2000);
    AlignUpMaskIs(from, 0x200_0000);
    AlignUpMaskIs(base, 0x200_0000);
    AlignUpIs(from, 0x200_0000);
    AlignUpIs(base, 0x200_0000);
  }

  lemma Zero()
    ensures Aligned(0, 0x4000) && AlignDown(0, 0x4000) == 0
  {
  }

  lemma FirstChunk(from: nat, size: nat, boundary: nat, chunk: nat)
    requires from <= boundary && Aligned(from, 0x4000) && Aligned(boundary, 0x200_0000)
    requires chunk == AlignDown(if size < boundary - from then size else boundary - from, 0x4000)
    ensures chunk <= size && Aligned(chunk, 0x4000)
    ensures size - chunk < 0x4000 || Aligned(from + chunk, 0x200_0000)
  {
    var x := if size < boundary - from then size else boundary - from;
    DivModIs(chunk, 0x4000, x / 0x4000, 0);
    if x == boundary - from {
      Nested(boundary, 0x4000, 2048);
      DivModIs(x, 0x4000, boundary / 0x4000 - from / 0x4000, 0);
    }
  }

  lemma SecondChunk(size: nat, chunk: nat, n: nat)
    requires chunk == AlignDown(size, 0x200_0000) && Aligned(n, 0x4000)
    ensures chunk <= size && Aligned(chunk, 0x200_0000) && Aligned(n + chunk, 0x4000)
    ensures size < 0x4000 ==> chunk == 0
  {
    DivModIs(chunk, 0x200_0000, size / 0x200_0000, 0);
    Nested(chunk, 0x4000, 2048);
    AddMultiple(n, 0x4000, chunk / 0x4000);
    if size < 0x4000 { DivModIs(size, 0x200_0000, 0, size); }
  }

  lemma LastChunk(from0: nat, size0: nat, n: nat, chunk: nat)
    requires n <= size0 && Aligned(from0, 0x4000) && Aligned(n, 0x4000) && chunk == AlignDown(size0 - n, 0x4000)
    ensures chunk <= size0 - n && Aligned(chunk, 0x4000) && Aligned(from0 + n, 0x4000)
    ensures n + chunk == AlignDown(size0, 0x4000)
  {
    DivModIs(chunk, 0x4000, (size0 - n) / 0x4000, 0);
    AddMultiple(from0, 0x4000, n / 0x4000);
    AddMultiple(size0 - n, 0x4000, n / 0x4000);
  }

  /** After n bytes, the next chunk of the mapping has a legal target again. */
  lemma PageStep(to: nat, incr: nat, size: nat, n: nat, chunk: nat)
    requires TargetOk(to, incr, size) && n + chunk <= size && 0 < chunk && Aligned(n, 0x4000)
    ensures TargetOk(Adv(to, incr, n), incr, chunk) && IsHw(Adv(to, incr, n)) == IsHw(to) && n % 4 == 0
  {
    Nested(n, 4, 0x1000);
    AdvanceTarget(to, incr, size, n);
  }

  lemma PageStepHw(to: nat, incr: nat, size: nat, n: nat)
    requires TargetOk(to, incr, size) && Aligned(n, 0x4000)
    ensures IsHw(Adv(to, incr, n)) == IsHw(to)
  {
    Nested(n, 4, 0x1000);
    KeepsLowBits(to, n);
  }

  lemma BlockAligned(to: nat)
    requires BlockTarget(to)
    ensures Target(to) % 0x200_0000 == 0
  {
    var x := to % 0x4_0000_0000_0000;
    Nested(to, 0x200_0000, 0x200_0000);
    Nested(to, 0x4000, 0x10_0000_0000);
    Nested(x, 0x4000, 2048);
    assert x == x / 0x200_0000 * 0x200_0000 + x % 0x200_0000;
    DivModIs(Target(to), 0x200_0000, x / 0x200_0000, 0);
  }

  lemma NothingDone(v: nat, a: nat, from: nat, to: nat)
    ensures Mapped(PageSplit(v, Touched(a, from, 0), a), a, from, to, 0) == v
    ensures Mapped(v, a, from, to, 0) == v
  {
  }

  /** The number of bytes that are mapped word by word before the first page boundary. */
  predicate IsHead(from: nat, size: nat, head: nat) {
    if from % 0x4000 == 0 then head == 0
    else head == if size < 0x4000 - from % 0x4000 then size else 0x4000 - from % 0x4000
  }

  lemma HeadIs(from: nat, size: nat)
    ensures AlignUp(from, 0x4000) >= from
    ensures var up := AlignUp(from, 0x4000) - from;
            IsHead(from, size, if size < up then size else up)
  {
    AlignUpIs(from, 0x4000);
    if from % 0x4000 != 0 {
      DivModIs(from + 0x3FFF, 0x4000, from / 0x4000 + 1, from % 0x4000 - 1);
    }
  }

  lemma HeadChunk(from: nat, to: nat, size: nat, incr: nat, head: nat)
    requires TargetOk(to, incr, size) && !Refused(from, to, size) && IsHead(from, size, head)
    ensures head <= size && from % 4 == 0 && head % 4 == 0 && TargetOk(to, incr, head)
    ensures head > 0 ==> !IsHw(to)
    ensures head < size ==> Aligned(from + head, 0x4000) && TargetOk(Adv(to, incr, head), incr, size - head)
  {
    HeadAligned(from, size, head, (size - head) - (size - head) % 0x4000);
    if head < size { AdvanceTarget(to, incr, size, head); }
  }

  lemma TailChunk(from: nat, to: nat, size: nat, incr: nat, head: nat, mid: nat)
    requires TargetOk(to, incr, size) && !Refused(from, to, size) && IsHead(from, size, head)
    requires head <= size && mid == AlignDown(size - head, 0x4000)
    ensures head + mid <= size && Adv(Adv(to, incr, head), incr, mid) == Adv(to, incr, head + mid)
    ensures (size - head - mid) % 4 == 0
    ensures head + mid < size ==>
              && !IsHw(to) && !IsHw(Adv(to, incr, head + mid)) && (from + head + mid) % 4 == 0
              && TargetOk(Adv(to, incr, head + mid), incr, size - head - mid)
  {
    HeadAligned(from, size, head, mid);
    assert size == head + mid + (size - head - mid);
    DivModIs(size - head - mid, 4, size / 4 - head / 4 - mid / 4, 0);
    if head + mid < size {
      AddMultiple(from, 4, (head + mid) / 4);
      AdvanceTarget(to, incr, size, head + mid);
    }
  }

  lemma HvJoin(v: nat, a: nat, from: nat, to: nat, incr: nat, size: nat, head: nat, mid: nat)
    requires TargetOk(to, incr, size) && !Refused(from, to, size) && IsHead(from, size, head)
    requires head <= size && mid == AlignDown(size - head, 0x4000) && head + mid <= size
    ensures var tail := size - head - mid;
            var v1 := Mapped(PageSplit(v, Touched(a, from, head), a), a, from, to, head);
            var v2 := Mapped(v1, a, from + head, Adv(to, incr, head), mid);
            var f := from + head + mid;
            Mapped(PageSplit(v2, Touched(a, f, tail), a), a, f, Adv(to, incr, head + mid), tail)
              == HvMapped(v, a, from, to, size)
  {
    HvCompose(v, a, from, to, incr, size, head, mid);
  }
}
