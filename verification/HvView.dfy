/** What a stage-2 table tree means, address by address (src/hv_vm.c).

    Addresses are split as the comment at the head of that file says: an optional L1 index, an
    L2 index (32 MiB blocks), an L3 index (16 KiB pages) and an L4 index (words).  With at most
    36 address bits the top table is an L2 table, otherwise an L1 table.
 */
module HvView {
  import opened Arith
  import opened HvDescriptors
  import opened TableHeap

  /** Table sizes from the top; `big` says that vaddr_bits is above 36. */
  function Fan(big: bool): seq<nat> { if big then [2048, 2048, 2048, 4096] else [2048, 2048, 4096] }

  function Space(big: bool): nat { if big then 0x1000_0000_0000 else 0x10_0000_0000 }

  function I1(a: nat): nat { a / 0x10_0000_0000 }
  function I2(a: nat): nat { a / 0x200_0000 % 2048 }
  function I3(a: nat): nat { a / 0x4000 % 2048 }
  function I4(a: nat): nat { a / 4 % 4096 }

  /** Where the L2, L3 and L4 tables that serve address `a` stand in the tree. */
  function P2(big: bool, a: nat): Pos { if big then Sub(Root, I1(a)) else Root }
  function P3(big: bool, a: nat): Pos { Sub(P2(big, a), I2(a)) }
  function P4(big: bool, a: nat): Pos { Sub(P3(big, a), I3(a)) }

  predicate LeafOk(big: bool, depth: nat, d: nat) {
    var level := if big then depth + 1 else depth + 2;
    if level == 1 then d == 0 else if level == 2 then L2Ok(d) else if level == 3 then L3Ok(d) else L4Ok(d)
  }

  ghost predicate LeavesOk(mem: Mem, lay: Layout, big: bool) {
    forall x, i: nat :: x in lay.tab && Slot(mem, lay, x, i).Leaf? ==>
      LeafOk(big, Depth(x), Slot(mem, lay, x, i).raw)
  }

  ghost predicate Good(mem: Mem, root: nat, lay: Layout, big: bool) {
    Wf(mem, root, Fan(big), lay) && LeavesOk(mem, lay, big)
  }

  /** The meaning of the word that holds address `a` (see Eff): 0 when unmapped. */
  function View(mem: Mem, lay: Layout, big: bool, a: nat): nat {
    if P4(big, a) in lay.tab then Eff(Raw(Slot(mem, lay, P4(big, a), I4(a))), 0)
    else if P3(big, a) in lay.tab then Eff(Raw(Slot(mem, lay, P3(big, a), I3(a))), Word(a % 0x4000))
    else if P2(big, a) in lay.tab then Eff(Raw(Slot(mem, lay, P2(big, a), I2(a))), Word(a % 0x200_0000))
    else 0
  }

  // ---- Positions and addresses ----

  lemma Indices(a: nat)
    ensures a / 0x200_0000 == a / 0x4000 / 2048 && a / 0x10_0000_0000 == a / 0x200_0000 / 2048
    ensures a % 0x200_0000 == I3(a) * 0x4000 + a % 0x4000
    ensures a % 0x4000 == I4(a) * 4 + a % 4
    ensures I2(a) < 2048 && I3(a) < 2048 && I4(a) < 4096
  {
    Nested(a, 0x4000, 2048);
    Nested(a, 0x200_0000, 2048);
    Nested(a, 4, 4096);
  }

  lemma SamePlace(big: bool, a: nat, f: nat)
    requires a < Space(big) && f < Space(big)
    ensures P2(big, a) == P2(big, f) <==> a / 0x10_0000_0000 == f / 0x10_0000_0000
    ensures P3(big, a) == P3(big, f) <==> a / 0x200_0000 == f / 0x200_0000
    ensures P4(big, a) == P4(big, f) <==> a / 0x4000 == f / 0x4000
  {
    Indices(a);
    Indices(f);
  }

  lemma WordOffsets(a: nat)
    ensures Word(a % 0x200_0000) == I3(a) * 0x4000 + Word(a % 0x4000)
    ensures Word(a % 0x4000) == 4 * I4(a) && Word(a % 0x4000) < 0x4000 && Word(a % 0x4000) % 4 == 0
  {
    Indices(a);
    DivModIs(a % 0x4000, 4, I4(a), a % 4);
    DivModIs(a % 0x200_0000, 4, I3(a) * 0x1000 + I4(a), a % 4);
    DivModIs(4 * I4(a), 4, I4(a), 0);
  }

  lemma Depths(big: bool, a: nat)
    ensures var d := if big then 1 else 0;
            Depth(P2(big, a)) == d && Depth(P3(big, a)) == d + 1 && Depth(P4(big, a)) == d + 2
    ensures |Fan(big)| == (if big then 4 else 3)
    ensures Fan(big)[Depth(P2(big, a))] == 2048 && Fan(big)[Depth(P3(big, a))] == 2048
    ensures Fan(big)[Depth(P4(big, a))] == 4096
  {
  }

  /** Only a position of at least its own depth can be below another. */
  lemma BelowBlock(big: bool, a: nat, f: nat)
    ensures !Above(P3(big, f), P2(big, a))
    ensures Above(P3(big, f), P3(big, a)) <==> P3(big, f) == P3(big, a)
    ensures Above(P3(big, f), P4(big, a)) <==> P3(big, f) == P3(big, a)
    ensures !Above(P4(big, f), P2(big, a)) && !Above(P4(big, f), P3(big, a))
    ensures Above(P4(big, f), P4(big, a)) <==> P4(big, f) == P4(big, a)
  {
    Depths(big, a);
    Depths(big, f);
    if Above(P3(big, f), P2(big, a)) { AboveDepth(P3(big, f), P2(big, a)); }
    if Above(P4(big, f), P3(big, a)) { AboveDepth(P4(big, f), P3(big, a)); }
    if Above(P4(big, f), P2(big, a)) { AboveDepth(P4(big, f), P2(big, a)); }
  }

  lemma Chain(mem: Mem, root: nat, lay: Layout, big: bool, a: nat)
    requires Upward(mem, root, lay)
    ensures P4(big, a) in lay.tab ==> P3(big, a) in lay.tab
    ensures P3(big, a) in lay.tab ==> P2(big, a) in lay.tab
  {
    assert P4(big, a).up == P3(big, a);
    assert P3(big, a).up == P2(big, a);
  }

  /** Reading a slot of a table in the tree. */
  lemma SlotAt(mem: Mem, root: nat, lay: Layout, big: bool, x: Pos, i: nat)
    requires Good(mem, root, lay, big) && x in lay.tab && Depth(x) < |Fan(big)| && i < Fan(big)[Depth(x)]
    ensures lay.tab[x] in mem && i < |mem[lay.tab[x]]| && mem[lay.tab[x]][i] == Slot(mem, lay, x, i)
    ensures Slot(mem, lay, x, i).Table? ==> Sub(x, i) in lay.tab && lay.tab[Sub(x, i)] == Slot(mem, lay, x, i).ptr
    ensures Slot(mem, lay, x, i).Leaf? ==> LeafOk(big, Depth(x), Slot(mem, lay, x, i).raw)
  {
  }

  lemma TopTable(mem: Mem, root: nat, lay: Layout, big: bool)
    requires Good(mem, root, lay, big)
    ensures Root in lay.tab && lay.tab[Root] == root
  {
  }

  // ---- How each change of the tree shows in the view ----

  /** hv_pt_get_l2: an empty L2 table changes nothing. */
  lemma ViewNewL2(mem: Mem, root: nat, lay: Layout, mem': Mem, lay': Layout, f: nat, q: nat, s: seq<Pte>, a: nat)
    requires Upward(mem, root, lay) && Sub(Root, I1(f)) !in lay.tab && lay' == Grown(lay, Sub(Root, I1(f)), q)
    requires Installed(mem, lay, mem', lay', Root, I1(f), q, s)
    requires forall k :: 0 <= k < |s| ==> s[k] == Leaf(0)
    ensures View(mem', lay', true, a) == View(mem, lay, true, a)
  {
    Chain(mem, root, lay, true, a);
  }

  /** hv_pt_get_l3: splitting a block into pages changes nothing. */
  lemma ViewSplitBlock(mem: Mem, root: nat, lay: Layout, big: bool, mem': Mem, lay': Layout, f: nat, q: nat,
                       s: seq<Pte>, d: nat, a: nat)
    requires Upward(mem, root, lay) && a < Space(big) && f < Space(big)
    requires P2(big, f) in lay.tab && P3(big, f) !in lay.tab && lay' == Grown(lay, P3(big, f), q)
    requires Installed(mem, lay, mem', lay', P2(big, f), I2(f), q, s)
    requires Slot(mem, lay, P2(big, f), I2(f)) == Leaf(d) && L2Ok(d)
    requires |s| == 2048 && forall k :: 0 <= k < |s| ==> s[k] == Leaf(L3First(d) + k * L3Incr(d))
    ensures View(mem', lay', big, a) == View(mem, lay, big, a)
  {
    hide Eff, Word, L2Ok, L3First, L3Incr;
    Chain(mem, root, lay, big, a);
    SamePlace(big, a, f);
    if P3(big, a) == P3(big, f) {
      Indices(a);
      WordOffsets(a);
      SplitL2(d, I3(a), Word(a % 0x4000));
    }
  }

  /** hv_pt_get_l4: splitting a page into words demotes its words if it was a HW page. */
  lemma ViewSplitPage(mem: Mem, root: nat, lay: Layout, big: bool, mem': Mem, lay': Layout, f: nat, q: nat,
                      s: seq<Pte>, d: nat, a: nat)
    requires Upward(mem, root, lay) && a < Space(big) && f < Space(big)
    requires P3(big, f) in lay.tab && P4(big, f) !in lay.tab && lay' == Grown(lay, P4(big, f), q)
    requires Installed(mem, lay, mem', lay', P3(big, f), I3(f), q, s)
    requires Slot(mem, lay, P3(big, f), I3(f)) == Leaf(d) && L3Ok(d)
    requires |s| == 4096 && forall k :: 0 <= k < |s| ==> s[k] == Leaf(L4First(d) + k * L4Incr(d))
    ensures View(mem', lay', big, a) == PageSplit(View(mem, lay, big, a), a / 0x4000 == f / 0x4000, a)
  {
    hide Eff, Word, L3Ok, L4First, L4Incr;
    Chain(mem, root, lay, big, a);
    SamePlace(big, a, f);
    if P4(big, a) == P4(big, f) {
      Indices(a);
      WordOffsets(a);
      SplitL3(d, I4(a));
      HwOfEff(d, 4 * I4(a));
    }
  }

  /** The view of one word when pages that are split lose their HW mapping. */
  function PageSplit(v: nat, split: bool, a: nat): nat {
    if split && IsHw(v) then Demoted(v, Word(a % 0x4000)) else v
  }

  lemma SoftStays(v: nat, split: bool, a: nat)
    requires split ==> !IsHw(v)
    ensures PageSplit(v, split, a) == v
  {
  }

  lemma HwOfEff(d: nat, off: nat)
    requires L3Ok(d) && off < 0x4000 && off % 4 == 0
    ensures IsHw(Eff(d, off)) <==> IsHw(d)
  {
    if IsHw(d) {
      EffHw(d, off);
      DivModIs(off, 0x4000, 0, off);
      TypeKeepsHw(d);
    } else if d != 0 {
      KeepsLowBits(d, off);
    }
  }

  lemma TypeKeepsHw(d: nat)
    ensures IsHw(NoType(d)) <==> IsHw(d)
  {
    if d % 4 >= 2 { AddMultiple(d - 2, 2, 1); }
  }

  /** A word written in an L4 table. */
  lemma ViewStoreWord(mem: Mem, lay: Layout, big: bool, mem': Mem, f: nat, r: nat, a: nat)
    requires a < Space(big) && f < Space(big) && P4(big, f) in lay.tab
    requires LeafStored(mem, mem', lay, P4(big, f), I4(f), r)
    ensures View(mem', lay, big, a) == if a / 4 == f / 4 then Eff(r, 0) else View(mem, lay, big, a)
  {
    SamePlace(big, a, f);
    SameWord(a, f);
    BelowBlock(big, a, f);
    assert P3(big, a) != P4(big, f) && P2(big, a) != P4(big, f);
  }

  lemma SameWord(a: nat, f: nat)
    ensures a / 4 == f / 4 <==> a / 0x4000 == f / 0x4000 && I4(a) == I4(f)
  {
    Nested(a, 4, 4096);
    Nested(f, 4, 4096);
  }

  /** A page written in an L3 table, replacing whatever was below it. */
  lemma ViewStorePage(mem: Mem, root: nat, lay: Layout, big: bool, mem': Mem, f: nat, r: nat, a: nat)
    requires a < Space(big) && f < Space(big) && P3(big, f) in lay.tab
    requires PrunedTo(mem, lay, mem', Pruned(lay, P4(big, f)), P3(big, f), I3(f), r)
    ensures View(mem', Pruned(lay, P4(big, f)), big, a)
         == if a / 0x4000 == f / 0x4000 then Eff(r, Word(a % 0x4000)) else View(mem, lay, big, a)
  {
    SamePlace(big, a, f);
    Indices(a);
    Indices(f);
    BelowBlock(big, a, f);
    assert P2(big, a) != P3(big, f) by { Depths(big, a); Depths(big, f); }
  }

  /** A block written in an L2 table, replacing whatever was below it. */
  lemma ViewStoreBlock(mem: Mem, root: nat, lay: Layout, big: bool, mem': Mem, f: nat, r: nat, a: nat)
    requires a < Space(big) && f < Space(big) && P2(big, f) in lay.tab
    requires PrunedTo(mem, lay, mem', Pruned(lay, P3(big, f)), P2(big, f), I2(f), r)
    ensures View(mem', Pruned(lay, P3(big, f)), big, a)
         == if a / 0x200_0000 == f / 0x200_0000 then Eff(r, Word(a % 0x200_0000)) else View(mem, lay, big, a)
  {
    SamePlace(big, a, f);
    Indices(a);
    Indices(f);
    BelowBlock(big, a, f);
    assert P3(big, a) != P2(big, f) && P4(big, a) != P2(big, f) by { Depths(big, a); Depths(big, f); }
  }

  // ---- The leaf words stay legal ----

  lemma LeavesStored(mem: Mem, lay: Layout, big: bool, mem': Mem, x: Pos, i: nat, r: nat)
    requires LeavesOk(mem, lay, big) && LeafStored(mem, mem', lay, x, i, r) && LeafOk(big, Depth(x), r)
    ensures LeavesOk(mem', lay, big)
  {
  }

  lemma LeavesInstalled(mem: Mem, lay: Layout, big: bool, mem': Mem, lay': Layout, x: Pos, i: nat, q: nat, s: seq<Pte>)
    requires LeavesOk(mem, lay, big) && Installed(mem, lay, mem', lay', x, i, q, s) && lay' == Grown(lay, Sub(x, i), q)
    requires forall k :: 0 <= k < |s| ==> s[k].Leaf? && LeafOk(big, Depth(x) + 1, s[k].raw)
    requires LeafOk(big, Depth(x) + 1, 0)
    ensures LeavesOk(mem', lay', big)
  {
  }

  lemma LeavesPruned(mem: Mem, lay: Layout, big: bool, mem': Mem, x: Pos, i: nat, r: nat)
    requires LeavesOk(mem, lay, big) && PrunedTo(mem, lay, mem', Pruned(lay, Sub(x, i)), x, i, r)
    requires LeafOk(big, Depth(x), r)
    ensures LeavesOk(mem', Pruned(lay, Sub(x, i)), big)
  {
  }

  // ---- Whole steps: the tree stays good and the view changes as it should ----

  ghost predicate SameView(mem: Mem, lay: Layout, mem': Mem, lay': Layout, big: bool) {
    forall a: nat :: a < Space(big) ==> View(mem', lay', big, a) == View(mem, lay, big, a)
  }

  lemma StepNewL2(mem: Mem, root: nat, lay: Layout, f: nat, q: nat, s: seq<Pte>)
    requires Good(mem, root, lay, true) && f < Space(true) && q !in mem
    requires Slot(mem, lay, Root, I1(f)).Leaf?
    requires |s| == 2048 && forall k :: 0 <= k < |s| ==> s[k] == Leaf(0)
    ensures lay.tab[Root] in mem && I1(f) < |mem[lay.tab[Root]]| && lay.tab[Root] != q
    ensures var mem', lay' := Store(mem[q := s], lay.tab[Root], I1(f), Table(q)), Grown(lay, P2(true, f), q);
            Good(mem', root, lay', true) && SameView(mem, lay, mem', lay', true)
  {
    hide View, Placed, Sized, Downward, LeavesOk;
    Depths(true, f);
    Install(mem, root, Fan(true), lay, Root, I1(f), q, s);
    var mem', lay' := Store(mem[q := s], lay.tab[Root], I1(f), Table(q)), Grown(lay, P2(true, f), q);
    LeavesInstalled(mem, lay, true, mem', lay', Root, I1(f), q, s);
    forall a: nat | a < Space(true) ensures View(mem', lay', true, a) == View(mem, lay, true, a) {
      ViewNewL2(mem, root, lay, mem', lay', f, q, s, a);
    }
  }

  lemma StepSplitBlock(mem: Mem, root: nat, lay: Layout, big: bool, f: nat, q: nat, s: seq<Pte>, d: nat)
    requires Good(mem, root, lay, big) && f < Space(big) && q !in mem && P2(big, f) in lay.tab
    requires Slot(mem, lay, P2(big, f), I2(f)) == Leaf(d)
    requires |s| == 2048 && forall k :: 0 <= k < |s| ==> s[k] == Leaf(L3First(d) + k * L3Incr(d))
    ensures lay.tab[P2(big, f)] in mem && I2(f) < |mem[lay.tab[P2(big, f)]]| && lay.tab[P2(big, f)] != q
    ensures var mem', lay' := Store(mem[q := s], lay.tab[P2(big, f)], I2(f), Table(q)), Grown(lay, P3(big, f), q);
            Good(mem', root, lay', big) && SameView(mem, lay, mem', lay', big)
  {
    hide View, Eff, L2Ok, L3First, L3Incr, Placed, Sized, Downward, Upward, LeavesOk;
    Depths(big, f);
    Indices(f);
    SlotAt(mem, root, lay, big, P2(big, f), I2(f));
    Install(mem, root, Fan(big), lay, P2(big, f), I2(f), q, s);
    var mem', lay' := Store(mem[q := s], lay.tab[P2(big, f)], I2(f), Table(q)), Grown(lay, P3(big, f), q);
    forall k | 0 <= k < 2048 ensures L3Ok(s[k].raw) {
      SplitL2(d, k, 0);
    }
    LeavesInstalled(mem, lay, big, mem', lay', P2(big, f), I2(f), q, s);
    forall a: nat | a < Space(big) ensures View(mem', lay', big, a) == View(mem, lay, big, a) {
      ViewSplitBlock(mem, root, lay, big, mem', lay', f, q, s, d, a);
    }
  }

  ghost predicate SplitView(mem: Mem, lay: Layout, mem': Mem, lay': Layout, big: bool, f: nat) {
    forall a: nat :: a < Space(big) ==>
      View(mem', lay', big, a) == PageSplit(View(mem, lay, big, a), a / 0x4000 == f / 0x4000, a)
  }

  lemma StepSplitPage(mem: Mem, root: nat, lay: Layout, big: bool, f: nat, q: nat, s: seq<Pte>, d: nat)
    requires Good(mem, root, lay, big) && f < Space(big) && q !in mem && P3(big, f) in lay.tab
    requires Slot(mem, lay, P3(big, f), I3(f)) == Leaf(d)
    requires |s| == 4096 && forall k :: 0 <= k < |s| ==> s[k] == Leaf(L4First(d) + k * L4Incr(d))
    ensures lay.tab[P3(big, f)] in mem && I3(f) < |mem[lay.tab[P3(big, f)]]| && lay.tab[P3(big, f)] != q
    ensures var mem', lay' := Store(mem[q := s], lay.tab[P3(big, f)], I3(f), Table(q)), Grown(lay, P4(big, f), q);
            Good(mem', root, lay', big) && SplitView(mem, lay, mem', lay', big, f)
  {
    hide View, Eff, L3Ok, L4First, L4Incr, Placed, Sized, Downward, Upward, LeavesOk;
    Depths(big, f);
    Indices(f);
    SlotAt(mem, root, lay, big, P3(big, f), I3(f));
    Install(mem, root, Fan(big), lay, P3(big, f), I3(f), q, s);
    var mem', lay' := Store(mem[q := s], lay.tab[P3(big, f)], I3(f), Table(q)), Grown(lay, P4(big, f), q);
    forall k | 0 <= k < 4096 ensures L4Ok(s[k].raw) {
      SplitL3(d, k);
    }
    LeavesInstalled(mem, lay, big, mem', lay', P3(big, f), I3(f), q, s);
    forall a: nat | a < Space(big)
      ensures View(mem', lay', big, a) == PageSplit(View(mem, lay, big, a), a / 0x4000 == f / 0x4000, a)
    {
      ViewSplitPage(mem, root, lay, big, mem', lay', f, q, s, d, a);
    }
  }

  /** A page that has an L4 table has no hardware words. */
  lemma AlreadySplit(mem: Mem, root: nat, lay: Layout, big: bool, f: nat, a: nat)
    requires Good(mem, root, lay, big) && f < Space(big) && P4(big, f) in lay.tab
    requires a < Space(big) && a / 0x4000 == f / 0x4000
    ensures !IsHw(View(mem, lay, big, a))
  {
    SamePlace(big, a, f);
    Depths(big, a);
    LeafAtBottom(mem, root, lay, big, a);
    TypeKeepsHw(Slot(mem, lay, P4(big, a), I4(a)).raw);
  }

  lemma LeafAtBottom(mem: Mem, root: nat, lay: Layout, big: bool, a: nat)
    requires Good(mem, root, lay, big) && P4(big, a) in lay.tab
    ensures Slot(mem, lay, P4(big, a), I4(a)).Leaf?
  {
    Depths(big, a);
    var z := Sub(P4(big, a), I4(a));
    assert Depth(z) == Depth(P4(big, a)) + 1;
    assert z !in lay.tab;
  }

  /** A word is written in an L4 table. */
  lemma StepWord(mem: Mem, root: nat, lay: Layout, big: bool, f: nat, r: nat)
    requires Good(mem, root, lay, big) && f < Space(big) && P4(big, f) in lay.tab && L4Ok(r)
    ensures lay.tab[P4(big, f)] in mem && I4(f) < |mem[lay.tab[P4(big, f)]]|
    ensures var mem' := Store(mem, lay.tab[P4(big, f)], I4(f), Leaf(r));
            && Good(mem', root, lay, big)
            && forall a: nat :: a < Space(big) ==>
                 View(mem', lay, big, a) == if a / 4 == f / 4 then Eff(r, 0) else View(mem, lay, big, a)
  {
    Depths(big, f);
    Indices(f);
    LeafAtBottom(mem, root, lay, big, f);
    StoreLeaf(mem, root, Fan(big), lay, P4(big, f), I4(f), r);
    var mem' := Store(mem, lay.tab[P4(big, f)], I4(f), Leaf(r));
    LeavesStored(mem, lay, big, mem', P4(big, f), I4(f), r);
    forall a: nat | a < Space(big)
      ensures View(mem', lay, big, a) == if a / 4 == f / 4 then Eff(r, 0) else View(mem, lay, big, a)
    {
      ViewStoreWord(mem, lay, big, mem', f, r, a);
    }
  }

  /** A page is written in an L3 table and what was below it is released. */
  lemma StepPage(mem: Mem, root: nat, lay: Layout, big: bool, f: nat, r: nat)
    requires Good(mem, root, lay, big) && f < Space(big) && P3(big, f) in lay.tab && L3Ok(r)
    ensures lay.tab[P3(big, f)] in mem - Subtree(lay, P4(big, f)) && I3(f) < |mem[lay.tab[P3(big, f)]]|
    ensures var mem', lay' := Store(mem - Subtree(lay, P4(big, f)), lay.tab[P3(big, f)], I3(f), Leaf(r)),
                              Pruned(lay, P4(big, f));
            && Good(mem', root, lay', big)
            && forall a: nat :: a < Space(big) ==>
                 View(mem', lay', big, a) ==
                   if a / 0x4000 == f / 0x4000 then Eff(r, Word(a % 0x4000)) else View(mem, lay, big, a)
  {
    Depths(big, f);
    Indices(f);
    Prune(mem, root, Fan(big), lay, P3(big, f), I3(f), r);
    var mem', lay' := Store(mem - Subtree(lay, P4(big, f)), lay.tab[P3(big, f)], I3(f), Leaf(r)),
                      Pruned(lay, P4(big, f));
    LeavesPruned(mem, lay, big, mem', P3(big, f), I3(f), r);
    forall a: nat | a < Space(big)
      ensures View(mem', lay', big, a)
           == if a / 0x4000 == f / 0x4000 then Eff(r, Word(a % 0x4000)) else View(mem, lay, big, a)
    {
      ViewStorePage(mem, root, lay, big, mem', f, r, a);
    }
  }

  /** A block is written in an L2 table and what was below it is released. */
  lemma StepBlock(mem: Mem, root: nat, lay: Layout, big: bool, f: nat, r: nat)
    requires Good(mem, root, lay, big) && f < Space(big) && P2(big, f) in lay.tab && L2Ok(r)
    ensures lay.tab[P2(big, f)] in mem - Subtree(lay, P3(big, f)) && I2(f) < |mem[lay.tab[P2(big, f)]]|
    ensures var mem', lay' := Store(mem - Subtree(lay, P3(big, f)), lay.tab[P2(big, f)], I2(f), Leaf(r)),
                              Pruned(lay, P3(big, f));
            && Good(mem', root, lay', big)
            && forall a: nat :: a < Space(big) ==>
                 View(mem', lay', big, a) ==
                   if a / 0x200_0000 == f / 0x200_0000 then Eff(r, Word(a % 0x200_0000)) else View(mem, lay, big, a)
  {
    Depths(big, f);
    Indices(f);
    Prune(mem, root, Fan(big), lay, P2(big, f), I2(f), r);
    var mem', lay' := Store(mem - Subtree(lay, P3(big, f)), lay.tab[P2(big, f)], I2(f), Leaf(r)),
                      Pruned(lay, P3(big, f));
    LeavesPruned(mem, lay, big, mem', P2(big, f), I2(f), r);
    forall a: nat | a < Space(big)
      ensures View(mem', lay', big, a)
           == if a / 0x200_0000 == f / 0x200_0000 then Eff(r, Word(a % 0x200_0000)) else View(mem, lay, big, a)
    {
      ViewStoreBlock(mem, root, lay, big, mem', f, r, a);
    }
  }

  // ---- Mapping a range, address by address ----

  /** The view of address `a` after [from, from + size) was mapped to `to`. */
  function Mapped(v: nat, a: nat, from: nat, to: nat, size: nat): nat {
    if from <= a < from + size then Eff(to, Word(a - from)) else v
  }

  /** The page of `a` holds a word of the range. */
  predicate Touched(a: nat, from: nat, size: nat) {
    size > 0 && from / 0x4000 <= a / 0x4000 <= (from + size - 1) / 0x4000
  }

  /** The page of `a` is mapped in part: it holds words inside the range and words outside. */
  predicate PartlyMapped(a: nat, from: nat, size: nat) {
    var page := a - a % 0x4000;
    size > 0 && page < from + size && from < page + 0x4000 && !(from <= page && page + 0x4000 <= from + size)
  }

  lemma WordShift(x: nat, n: nat)
    requires n % 4 == 0
    ensures Word(n + x) == n + Word(x) && Word(x) % 4 == 0
  {
    AddMultiple(x, 4, n / 4);
    DivModIs(Word(x), 4, x / 4, 0);
  }

  /** Two neighbouring pieces make one. */
  lemma MappedJoin(v: nat, a: nat, from: nat, to: nat, incr: nat, size: nat, n: nat, m: nat)
    requires TargetOk(to, incr, size) && n + m <= size
    requires n % 4 == 0 && (IsHw(to) ==> n % 0x4000 == 0)
    ensures Mapped(Mapped(v, a, from, to, n), a, from + n, Adv(to, incr, n), m) == Mapped(v, a, from, to, n + m)
  {
    hide Eff, IsHw, Type, NoType, WithType, SpteType, Target;
    if from + n <= a < from + n + m {
      var o := a - from - n;
      WordShift(o, n);
      KeepsLowBits(to, n);
      PlainType(Adv(to, incr, n));
      EffShift(to, incr, size, n, Word(o), 0);
    }
  }

  lemma PlainType(d: nat)
    requires Type(d) == 0
    ensures WithType(d, 0) == d
  {
  }

  /** Being in the unit that starts at f. */
  lemma InUnit(a: nat, f: nat, u: nat)
    requires 0 < u && f % u == 0
    ensures a / u == f / u <==> f <= a < f + u
    ensures f <= a < f + u ==> a - f == a % u
  {
    if f <= a < f + u { DivModIs(a, u, f / u, a - f); }
    Whole(a, u);
    Whole(f, u);
  }

  lemma AdvType(to: nat, incr: nat, n: nat, t: nat)
    requires n % 4 == 0
    ensures Adv(WithType(to, t), incr, n) == WithType(Adv(to, incr, n), t)
    ensures Type(to) == 0 ==> WithType(Adv(to, incr, n), 0) == Adv(to, incr, n)
  {
    KeepsLowBits(to, n);
  }

  /** A leaf written at from + n with type bit t continues the mapping. */
  lemma MappedUnit(v: nat, a: nat, from: nat, to: nat, incr: nat, size: nat, n: nat, u: nat, t: nat)
    requires TargetOk(to, incr, size) && n + u <= size && t < 2 && (t == 1 ==> to != 0)
    requires 0 < u && (from + n) % u == 0 && n % 4 == 0 && (IsHw(to) ==> n % 0x4000 == 0)
    ensures Mapped(v, a, from, to, n + u) ==
              if a / u == (from + n) / u then Eff(Adv(WithType(to, t), incr, n), Word(a % u))
              else Mapped(v, a, from, to, n)
  {
    hide Eff, TargetOk, WithType, Word;
    InUnit(a, from + n, u);
    if a / u == (from + n) / u {
      WordShift(a % u, 0);
      WordShift(a % u, n);
      WordLess(a % u);
      AdvType(to, incr, n, t);
      EffShift(to, incr, size, n, Word(a % u), t);
    }
  }

  lemma WordLess(x: nat)
    ensures Word(x) <= x
  {
  }

  /** One entry of the loop in hv_pt_map_l2. */
  lemma MappedBlock(v: nat, a: nat, from: nat, to: nat, incr: nat, size: nat, n: nat)
    requires TargetOk(to, incr, size) && n + 0x200_0000 <= size && from % 0x200_0000 == 0 && n % 0x200_0000 == 0
    ensures Mapped(v, a, from, to, n + 0x200_0000) ==
              if a / 0x200_0000 == (from + n) / 0x200_0000 then Eff(Adv(to, incr, n), Word(a % 0x200_0000))
              else Mapped(v, a, from, to, n)
  {
    hide Eff, TargetOk, Mapped, Word;
    Nested(n, 0x4000, 2048);
    Nested(n, 4, 0x80_0000);
    AddMultiple(from, 0x200_0000, n / 0x200_0000);
    NoTypeTarget(to, incr, size);
    MappedUnit(v, a, from, to, incr, size, n, 0x200_0000, 0);
  }

  lemma NoTypeTarget(to: nat, incr: nat, size: nat)
    requires TargetOk(to, incr, size)
    ensures WithType(to, 0) == to
  {
  }

  /** One entry of the loop in hv_pt_map_l3. */
  lemma MappedPage(v: nat, a: nat, from: nat, to: nat, incr: nat, size: nat, n: nat, t: nat)
    requires TargetOk(to, incr, size) && n + 0x4000 <= size && from % 0x4000 == 0 && n % 0x4000 == 0
    requires t == if IsHw(to) then 1 else 0
    ensures Mapped(v, a, from, to, n + 0x4000) ==
              if a / 0x4000 == (from + n) / 0x4000 then Eff(Adv(WithType(to, t), incr, n), Word(a % 0x4000))
              else Mapped(v, a, from, to, n)
  {
    hide Eff, TargetOk, WithType, Mapped, Word;
    Nested(n, 4, 0x1000);
    AddMultiple(from, 0x4000, n / 0x4000);
    MappedUnit(v, a, from, to, incr, size, n, 0x4000, t);
  }

  /** One entry of the loop in hv_pt_map_l4. */
  lemma MappedWord(v: nat, a: nat, from: nat, to: nat, incr: nat, size: nat, n: nat)
    requires TargetOk(to, incr, size) && !IsHw(to) && n + 4 <= size && from % 4 == 0 && n % 4 == 0
    ensures Mapped(v, a, from, to, n + 4) ==
              if a / 4 == (from + n) / 4 then Eff(if to == 0 then 0 else Adv(WithType(to, 1), incr, n), 0)
              else Mapped(v, a, from, to, n)
  {
    AddMultiple(from, 4, n / 4);
    if to == 0 {
      InUnit(a, from + n, 4);
    } else {
      hide Eff, TargetOk, WithType, Mapped;
      MappedUnit(v, a, from, to, incr, size, n, 4, 1);
      DivModIs(a % 4, 4, 0, a % 4);
    }
  }

  // ---- hv_map as a whole ----

  /** The view of address `a` after hv_map(from, to, size, incr): inside the range the target,
      outside what was there, except that HW words on a partly mapped page are demoted. */
  function HvMapped(v: nat, a: nat, from: nat, to: nat, size: nat): nat {
    Mapped(PageSplit(v, PartlyMapped(a, from, size), a), a, from, to, size)
  }

  /** What a word v at an address outside the range means afterwards: a hardware word whose page holds words of the
      range is an SPTE_MAP of its own address, or nothing if that page is at physical address 0; other words stay. */
  ghost function Remains(v: nat, a: nat, from: nat, size: nat): nat {
    var page, target := a / 0x4000 * 0x4000, v % 0x4_0000_0000_0000 / 0x4000 * 0x4000;
    if v % 2 == 1 && size > 0 && page < from + size && from < page + 0x4000
    then (if target == 0 then 0 else target + a % 0x4000 / 4 * 4) else v
  }

  /** What a request means o bytes from its start: hardware targets advance by pages, SPTE_MAP targets by words, and
      other kinds not at all. */
  ghost function Requested(to: nat, o: nat): nat {
    if to % 2 == 1 then to + (o - o % 0x4000)
    else if to != 0 && to / 0x4_0000_0000_0000 % 8 == 0 then to + (o - o % 4)
    else to
  }

  /** What a word v at address a means after a request. */
  ghost function Updated(v: nat, a: nat, from: nat, to: nat, size: nat): nat {
    if from <= a < from + size then Requested(to, a - from) else Remains(v, a, from, size)
  }

  lemma UpdatedIs(v: nat, a: nat, from: nat, to: nat, size: nat)
    requires Type(to) == 0
    ensures HvMapped(v, a, from, to, size) == Updated(v, a, from, to, size)
  {
    if from <= a < from + size {
      RequestedIs(to, a - from);
      hide Eff, PageSplit, Requested;
    } else {
      OutsideRemains(v, a, from, size);
      hide Remains;
    }
  }

  lemma RequestedIs(to: nat, o: nat)
    requires Type(to) == 0
    ensures Eff(to, Word(o)) == Requested(to, o)
  {
    WordInPage(o);
  }

  lemma WordInPage(o: nat)
    ensures Word(o) - Word(o) % 0x4000 == o - o % 0x4000 && Word(o % 0x4000) + (o - o % 0x4000) == Word(o)
  {
    Nested(o, 4, 0x1000);
    DivModIs(Word(o), 0x4000, o / 0x4000, o % 0x4000 - o % 4);
  }

  lemma OutsideRemains(v: nat, a: nat, from: nat, size: nat)
    requires !(from <= a < from + size)
    ensures forall to: nat :: HvMapped(v, a, from, to, size) == Remains(v, a, from, size)
  {
    Whole(a % 0x4000, 4);
    assert Word(a % 0x4000) == a % 0x4000 / 4 * 4;
    PageOfTarget(v);
    hide Word, Target;
  }

  lemma PageOfTarget(v: nat)
    ensures Target(v) == v % 0x4_0000_0000_0000 / 0x4000 * 0x4000
  {
    Nested(v, 0x4000, 0x10_0000_0000);
    Whole(v % 0x4_0000_0000_0000, 0x4000);
  }

  lemma SplitTwice(v: nat, b: bool, c: bool, a: nat)
    ensures PageSplit(PageSplit(v, b, a), c, a) == PageSplit(v, b || c, a)
  {
    TargetPage(v);
    WordShift(a % 0x4000, 0);
    KeepsLowBits(Target(v), Word(a % 0x4000));
  }

  /** One entry of the loop in hv_pt_map_l4, with the demotion of the page it stands on. */
  lemma MappedSplitWord(v: nat, a: nat, from: nat, to: nat, incr: nat, size: nat, n: nat)
    requires TargetOk(to, incr, size) && !IsHw(to) && n + 4 <= size && from % 4 == 0 && n % 4 == 0
    ensures Mapped(PageSplit(v, Touched(a, from, n + 4), a), a, from, to, n + 4) ==
              if a / 4 == (from + n) / 4 then Eff(if to == 0 then 0 else Adv(WithType(to, 1), incr, n), 0)
              else PageSplit(Mapped(PageSplit(v, Touched(a, from, n), a), a, from, to, n),
                             a / 0x4000 == (from + n) / 0x4000, a)
  {
    var f := from + n;
    MappedWord(PageSplit(v, Touched(a, from, n + 4), a), a, from, to, incr, size, n);
    TouchedNext(a, from, n);
    if a / 4 != f / 4 {
      if from <= a < f {
        SoftTarget(to, incr, size, a - from);
      } else {
        SplitTwice(v, Touched(a, from, n), a / 0x4000 == f / 0x4000, a);
      }
    }
  }

  lemma TouchedNext(a: nat, from: nat, n: nat)
    requires from % 4 == 0 && n % 4 == 0
    ensures Touched(a, from, n + 4) <==> Touched(a, from, n) || a / 0x4000 == (from + n) / 0x4000
  {
    var f := from + n;
    AddMultiple(from, 4, n / 4);
    SameWord(f, f + 3);
    DivModIs(f + 3, 4, f / 4, 3);
    if n > 0 {
      assert (f - 1) / 0x4000 <= f / 0x4000 <= (f - 1) / 0x4000 + 1;
    }
  }

  /** What a SW target means is never HW. */
  lemma SoftTarget(to: nat, incr: nat, size: nat, o: nat)
    requires TargetOk(to, incr, size) && !IsHw(to) && o < size
    ensures !IsHw(Eff(to, Word(o)))
  {
    WordShift(o, 0);
    KeepsLowBits(to, Word(o));
  }

  lemma HeadPage(a: nat, from: nat, size: nat, n: nat)
    requires 0 < n <= size && from % 0x4000 != 0
    requires n == (if size < 0x4000 - from % 0x4000 then size else 0x4000 - from % 0x4000)
    ensures Touched(a, from, n) <==> a / 0x4000 == from / 0x4000
    ensures n < size ==> (from + n) % 0x4000 == 0
  {
    AddSmall(from, 0x4000, n - 1);
    if n < size { DivModIs(from + n, 0x4000, from / 0x4000 + 1, 0); }
  }

  /** Words outside the range are split exactly where the first or the last chunk uses L4. */
  lemma SplitPages(a: nat, from: nat, size: nat, head: nat, mid: nat)
    requires head <= size && mid <= size - head
    requires if from % 0x4000 == 0 then head == 0
             else head == if size < 0x4000 - from % 0x4000 then size else 0x4000 - from % 0x4000
    requires mid == (size - head) - (size - head) % 0x4000
    requires !(from <= a < from + size)
    ensures PartlyMapped(a, from, size) <==>
              Touched(a, from, head) || Touched(a, from + head + mid, size - head - mid)
  {
    var page := a - a % 0x4000;
    assert page == a / 0x4000 * 0x4000;
    assert from == from / 0x4000 * 0x4000 + from % 0x4000;
    if head > 0 { HeadPage(a, from, size, head); }
    var tail := size - head - mid;
    if head < size {
      var f := from + head;
      assert f % 0x4000 == 0 && mid % 0x4000 == 0 by {
        if head > 0 { HeadPage(a, from, size, head); }
        DivModIs(mid, 0x4000, (size - head) / 0x4000, 0);
      }
      AddMultiple(f, 0x4000, mid / 0x4000);
      if tail > 0 {
        AddSmall(f + mid, 0x4000, tail - 1);
      }
    }
  }

  /** The head, the pages and the tail of hv_map together. */
  lemma HvCompose(v: nat, a: nat, from: nat, to: nat, incr: nat, size: nat, head: nat, mid: nat)
    requires TargetOk(to, incr, size) && head + mid <= size && from % 4 == 0 && size % 4 == 0
    requires if from % 0x4000 == 0 then head == 0
             else head == if size < 0x4000 - from % 0x4000 then size else 0x4000 - from % 0x4000
    requires mid == (size - head) - (size - head) % 0x4000
    requires IsHw(to) ==> head == 0 && mid == size
    ensures var tail := size - head - mid;
            var v1 := Mapped(PageSplit(v, Touched(a, from, head), a), a, from, to, head);
            var v2 := Mapped(v1, a, from + head, Adv(to, incr, head), mid);
            var f := from + head + mid;
            Mapped(PageSplit(v2, Touched(a, f, tail), a), a, f, Adv(to, incr, head + mid), tail)
              == HvMapped(v, a, from, to, size)
  {
    var tail := size - head - mid;
    var w := PageSplit(v, Touched(a, from, head), a);
    var f := from + head + mid;
    HeadAligned(from, size, head, mid);
    MappedJoin(w, a, from, to, incr, size, head, mid);
    MappedJoin(PageSplit(v, PartlyMapped(a, from, size), a), a, from, to, incr, size, head + mid, tail);
    if from <= a < from + size {
      if a < f && tail > 0 {
        NotTouched(a, f, tail);
      }
    } else {
      SplitPages(a, from, size, head, mid);
      SplitTwice(v, Touched(a, from, head), Touched(a, f, tail), a);
    }
  }

  lemma HeadAligned(from: nat, size: nat, head: nat, mid: nat)
    requires head + mid <= size && from % 4 == 0 && size % 4 == 0
    requires if from % 0x4000 == 0 then head == 0
             else head == if size < 0x4000 - from % 0x4000 then size else 0x4000 - from % 0x4000
    requires mid == (size - head) - (size - head) % 0x4000
    ensures head % 4 == 0 && mid % 4 == 0 && mid % 0x4000 == 0 && (head + mid) % 4 == 0
    ensures head < size ==> (from + head) % 0x4000 == 0 && (from + head + mid) % 0x4000 == 0
  {
    DivModIs(mid, 0x4000, (size - head) / 0x4000, 0);
    Nested(mid, 4, 0x1000);
    Nested(from, 4, 0x1000);
    if head > 0 {
      HeadPage(0, from, size, head);
      if head < size { DivModIs(head, 4, 0x1000 - from % 0x4000 / 4, 0); }
    }
    AddMultiple(head, 4, mid / 4);
    AddMultiple(from + head, 0x4000, mid / 0x4000);
  }

  lemma NotTouched(a: nat, f: nat, n: nat)
    requires a < f && f % 0x4000 == 0
    ensures !Touched(a, f, n)
  {
  }

  // ---- The software walk ----

  /** d & ~PTE_LOWER_ATTRIBUTES. */
  function Cleared(d: nat): nat { d - d % 0x4000 + d % 4 }

  /** What hv_pt_walk returns for an L2 leaf. */
  function WalkLeafL2(d: nat, a: nat): nat {
    var d1 := if IsSw(d) && Type(d) == 0 && SpteType(d) == 0 then d + Word(a % 0x200_0000) else d;
    if IsHw(d1) && Type(d1) == 0 then Cleared(d1) + Word(a % 0x200_0000) else d1
  }

  /** What hv_pt_walk returns for an L3 leaf. */
  function WalkLeafL3(d: nat, a: nat): nat {
    var d1 := if IsSw(d) && Type(d) == 0 && SpteType(d) == 0 then d + Word(a % 0x4000) else d;
    if IsHw(d1) && Type(d1) == 1 then Cleared(d1) + Word(a % 0x4000) else d1
  }

  /** hv_pt_walk: follow the pointers from the top table down to a leaf. */
  function HvPtWalk(mem: Mem, root: nat, ghost lay: Layout, big: bool, a: nat): nat
    requires Good(mem, root, lay, big) && a < Space(big)
  {
    Depths(big, a);
    Indices(a);
    if big && mem[root][I1(a)].Leaf? then mem[root][I1(a)].raw
    else
      var l2 := if big then mem[root][I1(a)].ptr else root;
      assert big ==> Slot(mem, lay, Root, I1(a)).Table?;
      assert l2 == lay.tab[P2(big, a)];
      var l2d := mem[l2][I2(a)];
      assert l2d == Slot(mem, lay, P2(big, a), I2(a));
      if l2d.Leaf? then WalkLeafL2(l2d.raw, a)
      else
        assert l2d.ptr == lay.tab[P3(big, a)];
        var l3d := mem[l2d.ptr][I3(a)];
        assert l3d == Slot(mem, lay, P3(big, a), I3(a));
        if l3d.Leaf? then WalkLeafL3(l3d.raw, a)
        else
          assert l3d.ptr == lay.tab[P4(big, a)];
          Raw(mem[l3d.ptr][I4(a)])
  }

  /** The walk reports a HW word without its lower attributes and with the offset in the page. */
  function WalkView(v: nat, a: nat): nat {
    if IsHw(v) then Cleared(v) + Word(a % 0x4000) else v
  }

  /** The walk reads the view back, up to the type bit. */
  lemma WalkReadsView(mem: Mem, root: nat, lay: Layout, big: bool, a: nat)
    requires Good(mem, root, lay, big) && a < Space(big)
    ensures NoType(HvPtWalk(mem, root, lay, big, a)) == WalkView(View(mem, lay, big, a), a)
    ensures HvPtWalk(mem, root, lay, big, a) == 0 <==> View(mem, lay, big, a) == 0
  {
    hide Eff, WalkLeafL2, WalkLeafL3, WalkView, NoType, L2Ok, L3Ok, L4Ok;
    Depths(big, a);
    Indices(a);
    WalkZero(a);
    if big && Slot(mem, lay, Root, I1(a)).Leaf? {
      Vacant(mem, root, lay, Root, I1(a));
      Chain(mem, root, lay, big, a);
    } else {
      assert P2(big, a) in lay.tab;
      var l2d := Slot(mem, lay, P2(big, a), I2(a));
      if l2d.Leaf? {
        Vacant(mem, root, lay, P2(big, a), I2(a));
        Chain(mem, root, lay, big, a);
        WalkL2(l2d.raw, a);
      } else {
        assert P3(big, a) in lay.tab;
        var l3d := Slot(mem, lay, P3(big, a), I3(a));
        if l3d.Leaf? {
          Vacant(mem, root, lay, P3(big, a), I3(a));
          WalkL3(l3d.raw, a);
        } else {
          assert P4(big, a) in lay.tab;
          LeafAtBottom(mem, root, lay, big, a);
          WalkL4(Slot(mem, lay, P4(big, a), I4(a)).raw, a);
        }
      }
    }
  }

  lemma WalkZero(a: nat)
    ensures NoType(0) == 0 && WalkView(0, a) == 0
  {
  }

  lemma WalkL4(d: nat, a: nat)
    requires L4Ok(d)
    ensures NoType(d) == WalkView(Eff(d, 0), a) && (d == 0 <==> Eff(d, 0) == 0)
  {
    TypeKeepsHw(d);
  }

  /** Clearing the lower attributes of a HW word keeps bits 1..0. */
  lemma ClearedIs(d: nat, o: nat)
    requires o < 0x4000 && o % 4 == 0
    ensures (Cleared(d) + o) % 4 == d % 4 && Type(Cleared(d) + o) == Type(d) && IsHw(Cleared(d) + o) == IsHw(d)
    ensures NoType(Cleared(d) + o) == Cleared(d) + o - 2 * Type(d)
    ensures IsHw(d) ==> Cleared(d) > 0
  {
    ClearedLow(d, o);
    HwOfLow(d);
    HwOfLow(Cleared(d) + o);
    hide Cleared;
    HwOfLow(Cleared(d));
    ClearedLow(d, 0);
  }

  lemma ClearedLow(d: nat, o: nat)
    requires o % 4 == 0
    ensures (Cleared(d) + o) % 4 == d % 4
  {
    var b := d - d % 0x4000;
    DivModIs(b, 4, d / 0x4000 * 0x1000, 0);
    DivModIs(Cleared(d) + o, 4, b / 4 + o / 4, d % 4);
  }

  lemma HwOfLow(d: nat)
    ensures IsHw(d) == (d % 4 == 1 || d % 4 == 3)
  {
    DivModIs(d, 2, d / 4 * 2 + d % 4 / 2, d % 4 % 2);
  }

  lemma ClearedType(d: nat)
    requires d % 4 == 3
    ensures Cleared(d - 2) == Cleared(d) - 2 && NoType(d) == d - 2 && IsHw(d - 2)
  {
    Nested(d, 4, 0x1000);
    DivModIs(d - 2, 0x4000, d / 0x4000, d % 0x4000 - 2);
    DivModIs(d - 2, 4, d / 4, 1);
    DivModIs(d - 2, 2, d / 4 * 2, 1);
  }

  lemma ClearedPages(d: nat, k: nat)
    ensures Cleared(d + k * 0x4000) == Cleared(d) + k * 0x4000 && (d + k * 0x4000) % 2 == d % 2
  {
    AddMultiple(d, 0x4000, k);
    AddMultiple(d, 4, k * 0x1000);
    AddMultiple(d, 2, k * 0x2000);
  }

  lemma LowBits(d: nat)
    requires IsHw(d)
    ensures d % 4 == if Type(d) == 1 then 3 else 1
  {
    DivModIs(d, 2, d / 4 * 2 + d % 4 / 2, d % 4 % 2);
  }

  lemma WalkL3(d: nat, a: nat)
    requires L3Ok(d)
    ensures NoType(WalkLeafL3(d, a)) == WalkView(Eff(d, Word(a % 0x4000)), a)
    ensures WalkLeafL3(d, a) == 0 <==> Eff(d, Word(a % 0x4000)) == 0
  {
    WordOffsets(a);
    var o := Word(a % 0x4000);
    if IsHw(d) {
      hide Cleared, Word, Eff, NoType;
      EffHw(d, o);
      DivModIs(o, 0x4000, 0, o);
      LowBits(d);
      ClearedIs(d, o);
      ClearedType(d);
      ClearedIs(d - 2, 0);
    } else {
      KeepsLowBits(d, o);
    }
  }

  lemma WalkL2(d: nat, a: nat)
    requires L2Ok(d)
    ensures NoType(WalkLeafL2(d, a)) == WalkView(Eff(d, Word(a % 0x200_0000)), a)
    ensures WalkLeafL2(d, a) == 0 <==> Eff(d, Word(a % 0x200_0000)) == 0
  {
    WordOffsets(a);
    var o, p, k := Word(a % 0x200_0000), Word(a % 0x4000), I3(a);
    assert o % 4 == 0 by { WordShift(a % 0x200_0000, 0); }
    if IsHw(d) {
      hide Cleared, Word, Eff, NoType;
      EffHw(d, o);
      DivModIs(o, 0x4000, k, p);
      NoTypeSame(d);
      ClearedIs(d, p);
      ClearedPages(d, k);
      NoTypeBlock(d, k, p);
    } else {
      KeepsLowBits(d, o);
    }
  }

  lemma NoTypeSame(d: nat)
    requires Type(d) == 0
    ensures NoType(d) == d
  {
  }

  lemma NoTypeBlock(d: nat, k: nat, p: nat)
    requires Type(d) == 0 && p < 0x4000 && p % 4 == 0
    ensures NoType(Cleared(d) + (k * 0x4000 + p)) == Cleared(d) + (k * 0x4000 + p)
  {
    ClearedIs(d, p);
    PageMultiple(k, 0);
    KeepsLowBits(Cleared(d) + p, k * 0x4000);
  }

  // ---- HW pages ----

  /** All words of a HW page have the same view: its target and its attributes. */
  lemma HwPageUniform(mem: Mem, root: nat, lay: Layout, big: bool, a: nat, f: nat)
    requires Good(mem, root, lay, big) && a < Space(big) && f < Space(big)
    requires a / 0x4000 == f / 0x4000 && IsHw(View(mem, lay, big, f))
    ensures View(mem, lay, big, a) == View(mem, lay, big, f)
  {
    hide Eff, Word, IsHw, PageSplit, NoType, Placed, Sized, LeavesOk, Slot;
    SamePlace(big, a, f);
    Indices(a);
    Indices(f);
    Depths(big, f);
    WordOffsets(a);
    WordOffsets(f);
    if P4(big, f) in lay.tab {
      AlreadySplit(mem, root, lay, big, f, f);
    } else if P3(big, f) in lay.tab {
      var e := Slot(mem, lay, P3(big, f), I3(f));
      HwUniform(Raw(e), 0, Word(a % 0x4000));
      HwUniform(Raw(e), 0, Word(f % 0x4000));
    } else {
      var e := Slot(mem, lay, P2(big, f), I2(f));
      HwUniform(Raw(e), I3(f), Word(a % 0x4000));
      HwUniform(Raw(e), I3(f), Word(f % 0x4000));
    }
  }

  lemma HwUniform(d: nat, k: nat, o: nat)
    requires o < 0x4000 && o % 4 == 0
    ensures IsHw(d) ==> Eff(d, k * 0x4000 + o) == NoType(d) + k * 0x4000
    ensures !IsHw(d) ==> !IsHw(Eff(d, k * 0x4000 + o))
  {
    PageMultiple(k, o);
    DivModIs(k * 0x4000 + o, 4, k * 0x1000 + o / 4, 0);
    TypeKeepsHw(d);
    if IsHw(d) { EffHw(d, k * 0x4000 + o); } else { KeepsLowBits(NoType(d), k * 0x4000 + o); }
  }

  /** The walk of a HW word reports the page's target. */
  lemma WalkTarget(v: nat, w: nat, a: nat)
    requires IsHw(v) && Type(v) == 0 && NoType(w) == WalkView(v, a)
    ensures IsHw(w) && Target(w) == Target(v)
  {
    hide Target, Word, Cleared, NoType;
    WordOffsets(a);
    var o := Word(a % 0x4000);
    ClearedIs(v, o);
    TypeKeepsHw(w);
    TargetNoType(w);
    ClearedTarget(v, o);
  }

  lemma ClearedTarget(v: nat, o: nat)
    requires o < 0x4000 && o % 4 == 0
    ensures Target(Cleared(v) + o) == Target(v)
  {
    DivModIs(o, 4, o / 4, 0);
    TargetOfBase(v, v - v % 0x4000, v % 4 + o);
  }

  lemma TargetOfBase(v: nat, b: nat, r: nat)
    requires b == v - v % 0x4000 && r < 0x4000
    ensures Target(b + r) == Target(v)
  {
    var x := v % 0x4_0000_0000_0000;
    Nested(v, 0x4000, 0x10_0000_0000);
    DivModIs(b + r, 0x4000, v / 0x4000, r);
    assert b + r == v / 0x4_0000_0000_0000 * 0x4_0000_0000_0000 + (x - x % 0x4000 + r);
    TargetPage(v);
    DivModIs(b + r, 0x4_0000_0000_0000, v / 0x4_0000_0000_0000, x - x % 0x4000 + r);
  }
}
