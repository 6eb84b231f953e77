/** Page tables as heap objects.

    Both translation trees of the program (src/hv_vm.c and src/memory.c) are tables of
    descriptors linked by pointers, allocated with memalign and released with free.  `mem` holds
    the tables that are allocated now, so reading a released table, releasing it twice or
    leaking it can all be expressed.

    A layout places every allocated table at one position of the tree.  It is a proof device:
    no operation reads it.
 */
module TableHeap {

  /** A slot of a table: a pointer to the next table, or a leaf word (0 = empty). */
  datatype Pte = Table(ptr: nat) | Leaf(raw: nat)

  function Raw(e: Pte): nat { if e.Leaf? then e.raw else 0 }

  type Mem = map<nat, seq<Pte>>

  datatype Pos = Root | Sub(up: Pos, i: nat)

  function Depth(x: Pos): nat { if x.Root? then 0 else Depth(x.up) + 1 }

  /** x is y or an ancestor of y. */
  predicate Above(x: Pos, y: Pos) { x == y || (y.Sub? && Above(x, y.up)) }

  datatype Layout = Layout(tab: map<Pos, nat>, pos: map<nat, Pos>)

  /** The entry at position x, slot i. */
  function Slot(mem: Mem, lay: Layout, x: Pos, i: nat): Pte {
    if x in lay.tab && lay.tab[x] in mem && i < |mem[lay.tab[x]]| then mem[lay.tab[x]][i] else Leaf(0)
  }

  // ---- The invariant of the tree ----

  /** Every allocated table has exactly one position, and positions name distinct tables. */
  ghost predicate Placed(mem: Mem, lay: Layout) {
    && lay.pos.Keys == mem.Keys
    && (forall p :: p in lay.pos ==> lay.pos[p] in lay.tab && lay.tab[lay.pos[p]] == p)
    && (forall x :: x in lay.tab ==> lay.tab[x] in lay.pos && lay.pos[lay.tab[x]] == x)
  }

  /** fan[k] is the number of entries of a table at depth k; the last depth holds leaves only. */
  ghost predicate Sized(mem: Mem, fan: seq<nat>, lay: Layout) {
    forall x :: x in lay.tab ==>
      Depth(x) < |fan| && lay.tab[x] in mem && |mem[lay.tab[x]]| == fan[Depth(x)]
  }

  /** Pointers lead to the table placed below the slot that holds them. */
  ghost predicate Downward(mem: Mem, lay: Layout) {
    forall x, i: nat :: x in lay.tab && Slot(mem, lay, x, i).Table? ==>
      Sub(x, i) in lay.tab && lay.tab[Sub(x, i)] == Slot(mem, lay, x, i).ptr
  }

  /** Every table but the root is pointed to by its parent. */
  ghost predicate Upward(mem: Mem, root: nat, lay: Layout) {
    && Root in lay.tab && lay.tab[Root] == root
    && forall x :: x in lay.tab && x.Sub? ==>
         x.up in lay.tab && Slot(mem, lay, x.up, x.i) == Table(lay.tab[x])
  }

  ghost predicate Wf(mem: Mem, root: nat, fan: seq<nat>, lay: Layout) {
    Placed(mem, lay) && Sized(mem, fan, lay) && Downward(mem, lay) && Upward(mem, root, lay)
  }

  // ---- Reachability, without the layout ----

  datatype Ptr = Null | At(p: nat)

  /** The table found by following slots from the root. */
  function Follow(mem: Mem, root: nat, x: Pos): Ptr {
    match x
    case Root => At(root)
    case Sub(up, i) =>
      var q := Follow(mem, root, up);
      if q.At? && q.p in mem && i < |mem[q.p]| && mem[q.p][i].Table? then At(mem[q.p][i].ptr) else Null
  }

  ghost predicate Reachable(mem: Mem, root: nat, p: nat) {
    exists x :: Follow(mem, root, x) == At(p)
  }

  lemma {:induction false} FollowIsTab(mem: Mem, root: nat, fan: seq<nat>, lay: Layout, x: Pos)
    requires Wf(mem, root, fan, lay)
    ensures Follow(mem, root, x) == if x in lay.tab then At(lay.tab[x]) else Null
  {
    match x
    case Root =>
    case Sub(up, i) =>
      FollowIsTab(mem, root, fan, lay, up);
      if up in lay.tab {
        var e := Slot(mem, lay, up, i);
        if x in lay.tab { assert Slot(mem, lay, x.up, x.i) == Table(lay.tab[x]); }
      }
  }

  /** Table memory is conserved: what is allocated is what can be reached from the root, and
      every table can be reached in one way only, so it has one parent. */
  lemma Conserved(mem: Mem, root: nat, fan: seq<nat>, lay: Layout)
    requires Wf(mem, root, fan, lay)
    ensures forall p: nat :: p in mem <==> Reachable(mem, root, p)
    ensures forall x, y :: Follow(mem, root, x).At? && Follow(mem, root, x) == Follow(mem, root, y) ==> x == y
  {
    forall x ensures Follow(mem, root, x) == if x in lay.tab then At(lay.tab[x]) else Null {
      FollowIsTab(mem, root, fan, lay, x);
    }
    forall x, y | Follow(mem, root, x).At? && Follow(mem, root, x) == Follow(mem, root, y) ensures x == y {
      assert lay.pos[lay.tab[x]] == x && lay.pos[lay.tab[y]] == y;
    }
    forall p: nat ensures p in mem <==> Reachable(mem, root, p) {
      LiveIsReached(mem, root, fan, lay, p);
    }
  }

  lemma LiveIsReached(mem: Mem, root: nat, fan: seq<nat>, lay: Layout, p: nat)
    requires Wf(mem, root, fan, lay)
    ensures p in mem <==> Reachable(mem, root, p)
  {
    if p in mem {
      FollowIsTab(mem, root, fan, lay, lay.pos[p]);
    }
    if x :| Follow(mem, root, x) == At(p) {
      FollowIsTab(mem, root, fan, lay, x);
    }
  }

  // ---- The three ways a tree changes ----

  function Store(mem: Mem, p: nat, i: nat, e: Pte): Mem
    requires p in mem && i < |mem[p]|
  {
    mem[p := mem[p][i := e]]
  }

  /** The slots after a leaf was written at (x, i). */
  ghost predicate LeafStored(mem: Mem, mem': Mem, lay: Layout, x: Pos, i: nat, r: nat) {
    forall y, j: nat :: Slot(mem', lay, y, j) == if y == x && j == i then Leaf(r) else Slot(mem, lay, y, j)
  }

  lemma StoreSlots(mem: Mem, lay: Layout, x: Pos, i: nat, r: nat)
    requires Placed(mem, lay) && x in lay.tab && i < |mem[lay.tab[x]]|
    ensures LeafStored(mem, Store(mem, lay.tab[x], i, Leaf(r)), lay, x, i, r)
  {
    var mem' := Store(mem, lay.tab[x], i, Leaf(r));
    forall y, j: nat ensures Slot(mem', lay, y, j) == if y == x && j == i then Leaf(r) else Slot(mem, lay, y, j) {
      if y in lay.tab && y != x { assert lay.tab[y] != lay.tab[x]; }
    }
  }

  /** A leaf is overwritten by a leaf. */
  lemma StoreLeaf(mem: Mem, root: nat, fan: seq<nat>, lay: Layout, x: Pos, i: nat, r: nat)
    requires Wf(mem, root, fan, lay)
    requires x in lay.tab && i < fan[Depth(x)] && Slot(mem, lay, x, i).Leaf?
    ensures var mem' := Store(mem, lay.tab[x], i, Leaf(r));
            Wf(mem', root, fan, lay) && LeafStored(mem, mem', lay, x, i, r)
  {
    var mem' := Store(mem, lay.tab[x], i, Leaf(r));
    StoreSlots(mem, lay, x, i, r);
    assert mem'.Keys == mem.Keys;
    assert Downward(mem', lay);
    assert Upward(mem', root, lay) by {
      forall y | y in lay.tab && y.Sub? ensures Slot(mem', lay, y.up, y.i) == Table(lay.tab[y]) {
        assert Slot(mem, lay, y.up, y.i) == Table(lay.tab[y]);
      }
    }
  }

  function Grown(lay: Layout, y: Pos, q: nat): Layout {
    Layout(lay.tab[y := q], lay.pos[q := y])
  }

  /** The slots after a table `q` with contents `s` was hung into (x, i). */
  ghost predicate Installed(mem: Mem, lay: Layout, mem': Mem, lay': Layout, x: Pos, i: nat, q: nat, s: seq<Pte>) {
    forall y, j: nat :: Slot(mem', lay', y, j) ==
                 if y == x && j == i then Table(q)
                 else if y == Sub(x, i) then (if j < |s| then s[j] else Leaf(0))
                 else Slot(mem, lay, y, j)
  }

  lemma InstallSlots(mem: Mem, lay: Layout, x: Pos, i: nat, q: nat, s: seq<Pte>)
    requires Placed(mem, lay) && x in lay.tab && i < |mem[lay.tab[x]]| && q !in mem && Sub(x, i) !in lay.tab
    ensures lay.tab[x] in mem
    ensures Installed(mem, lay, Store(mem[q := s], lay.tab[x], i, Table(q)), Grown(lay, Sub(x, i), q), x, i, q, s)
  {
    var lay' := Grown(lay, Sub(x, i), q);
    var mem' := Store(mem[q := s], lay.tab[x], i, Table(q));
    forall y, j: nat ensures Slot(mem', lay', y, j) ==
                 if y == x && j == i then Table(q)
                 else if y == Sub(x, i) then (if j < |s| then s[j] else Leaf(0))
                 else Slot(mem, lay, y, j)
    {
      if y in lay.tab && y != x { assert lay.tab[y] != lay.tab[x] && lay.tab[y] != q; }
    }
  }

  lemma Vacant(mem: Mem, root: nat, lay: Layout, x: Pos, i: nat)
    requires Upward(mem, root, lay) && Slot(mem, lay, x, i).Leaf?
    ensures Sub(x, i) !in lay.tab
  {
    var y := Sub(x, i);
    assert y.up == x && y.i == i;
  }

  /** A new table `q` filled with leaves is hung into a slot that held a leaf. */
  lemma Install(mem: Mem, root: nat, fan: seq<nat>, lay: Layout, x: Pos, i: nat, q: nat, s: seq<Pte>)
    requires Wf(mem, root, fan, lay)
    requires x in lay.tab && Depth(x) + 1 < |fan| && i < fan[Depth(x)] && Slot(mem, lay, x, i).Leaf?
    requires q !in mem && |s| == fan[Depth(x) + 1] && forall k :: 0 <= k < |s| ==> s[k].Leaf?
    ensures Sub(x, i) !in lay.tab && lay.tab[x] in mem && i < |mem[lay.tab[x]]|
    ensures lay.tab[x] != q
    ensures var mem', lay' := Store(mem[q := s], lay.tab[x], i, Table(q)), Grown(lay, Sub(x, i), q);
            Wf(mem', root, fan, lay') && Installed(mem, lay, mem', lay', x, i, q, s)
  {
    Vacant(mem, root, lay, x, i);
    InstallSlots(mem, lay, x, i, q, s);
    var lay' := Grown(lay, Sub(x, i), q);
    var mem' := Store(mem[q := s], lay.tab[x], i, Table(q));
    InstallPlaced(mem, lay, Sub(x, i), q, mem');
    InstallSized(mem, fan, lay, x, i, q, s);
    InstallLinks(mem, root, lay, x, i, q, s, mem', lay');
  }

  lemma InstallSized(mem: Mem, fan: seq<nat>, lay: Layout, x: Pos, i: nat, q: nat, s: seq<Pte>)
    requires Sized(mem, fan, lay) && Placed(mem, lay) && x in lay.tab && Depth(x) + 1 < |fan| && i < fan[Depth(x)]
    requires q !in mem && |s| == fan[Depth(x) + 1]
    ensures Sized(Store(mem[q := s], lay.tab[x], i, Table(q)), fan, Grown(lay, Sub(x, i), q))
  {
    var mem', lay' := Store(mem[q := s], lay.tab[x], i, Table(q)), Grown(lay, Sub(x, i), q);
    forall y | y in lay'.tab
      ensures Depth(y) < |fan| && lay'.tab[y] in mem' && |mem'[lay'.tab[y]]| == fan[Depth(y)]
    {
      if y != Sub(x, i) { assert y in lay.tab && lay.tab[y] != q; }
    }
  }

  lemma InstallPlaced(mem: Mem, lay: Layout, y: Pos, q: nat, mem': Mem)
    requires Placed(mem, lay) && q !in mem && y !in lay.tab && mem'.Keys == mem.Keys + {q}
    ensures Placed(mem', Grown(lay, y, q))
  {
    var lay' := Grown(lay, y, q);
    assert lay'.pos.Keys == mem'.Keys;
    forall x | x in lay'.tab ensures lay'.tab[x] in lay'.pos && lay'.pos[lay'.tab[x]] == x {
      if x != y { assert lay.tab[x] in lay.pos; }
    }
  }

  lemma InstallLinks(mem: Mem, root: nat, lay: Layout, x: Pos, i: nat, q: nat, s: seq<Pte>, mem': Mem, lay': Layout)
    requires Downward(mem, lay) && Upward(mem, root, lay) && x in lay.tab && Slot(mem, lay, x, i).Leaf?
    requires Sub(x, i) !in lay.tab && lay' == Grown(lay, Sub(x, i), q)
    requires forall k :: 0 <= k < |s| ==> s[k].Leaf?
    requires Installed(mem, lay, mem', lay', x, i, q, s)
    ensures Downward(mem', lay') && Upward(mem', root, lay')
  {
    forall y, j: nat | y in lay'.tab && Slot(mem', lay', y, j).Table?
      ensures Sub(y, j) in lay'.tab && lay'.tab[Sub(y, j)] == Slot(mem', lay', y, j).ptr
    {
      if !(y == x && j == i) {
        assert Slot(mem, lay, y, j).Table?;
        assert Sub(y, j) != Sub(x, i);
      }
    }
    forall y | y in lay'.tab && y.Sub?
      ensures y.up in lay'.tab && Slot(mem', lay', y.up, y.i) == Table(lay'.tab[y])
    {
      if y != Sub(x, i) {
        assert y.up in lay.tab && Slot(mem, lay, y.up, y.i) == Table(lay.tab[y]);
      }
    }
  }

  /** The layout without the subtree at y. */
  ghost function Pruned(lay: Layout, y: Pos): Layout {
    Layout(map x | x in lay.tab && !Above(y, x) :: lay.tab[x],
           map p | p in lay.pos && !Above(y, lay.pos[p]) :: lay.pos[p])
  }

  /** The tables of the subtree at y. */
  ghost function Subtree(lay: Layout, y: Pos): set<nat> {
    set p | p in lay.pos && Above(y, lay.pos[p])
  }

  /** The slots after the subtree below (x, i) gave way to a leaf. */
  ghost predicate PrunedTo(mem: Mem, lay: Layout, mem': Mem, lay': Layout, x: Pos, i: nat, r: nat) {
    forall y, j: nat :: Slot(mem', lay', y, j) ==
                 if y == x && j == i then Leaf(r)
                 else if Above(Sub(x, i), y) then Leaf(0)
                 else Slot(mem, lay, y, j)
  }

  /** A subtree is released and the slot that held it becomes a leaf. */
  lemma Prune(mem: Mem, root: nat, fan: seq<nat>, lay: Layout, x: Pos, i: nat, r: nat)
    requires Wf(mem, root, fan, lay)
    requires x in lay.tab && i < fan[Depth(x)]
    ensures lay.tab[x] in mem - Subtree(lay, Sub(x, i))
    ensures var mem', lay' := Store(mem - Subtree(lay, Sub(x, i)), lay.tab[x], i, Leaf(r)), Pruned(lay, Sub(x, i));
            Wf(mem', root, fan, lay') && PrunedTo(mem, lay, mem', lay', x, i, r)
  {
    NotBelowItself(x, i);
    var lay' := Pruned(lay, Sub(x, i));
    PrunePlaced(mem, lay, Sub(x, i));
    var m1 := mem - Subtree(lay, Sub(x, i));
    var mem' := Store(m1, lay.tab[x], i, Leaf(r));
    assert mem'.Keys == m1.Keys;
    PruneSlots(mem, lay, x, i, r, mem', lay');
    PruneLinks(mem, root, lay, x, i, r, mem', lay');
    PruneSized(mem, fan, lay, x, i, r);
  }

  lemma PruneSized(mem: Mem, fan: seq<nat>, lay: Layout, x: Pos, i: nat, r: nat)
    requires Placed(mem, lay) && Sized(mem, fan, lay) && x in lay.tab && i < fan[Depth(x)]
    requires !Above(Sub(x, i), x)
    ensures lay.tab[x] in mem - Subtree(lay, Sub(x, i))
    ensures Sized(Store(mem - Subtree(lay, Sub(x, i)), lay.tab[x], i, Leaf(r)), fan, Pruned(lay, Sub(x, i)))
  {
    var m1, lay' := mem - Subtree(lay, Sub(x, i)), Pruned(lay, Sub(x, i));
    assert lay.pos[lay.tab[x]] == x;
    forall y | y in lay'.tab
      ensures Depth(y) < |fan| && lay'.tab[y] in m1 && |m1[lay'.tab[y]]| == fan[Depth(y)]
    {
      assert lay.pos[lay.tab[y]] == y;
    }
  }

  lemma PrunePlaced(mem: Mem, lay: Layout, y: Pos)
    requires Placed(mem, lay)
    ensures Placed(mem - Subtree(lay, y), Pruned(lay, y))
  {
    var lay' := Pruned(lay, y);
    assert lay'.pos.Keys == (mem - Subtree(lay, y)).Keys;
    forall x | x in lay'.tab ensures lay'.tab[x] in lay'.pos && lay'.pos[lay'.tab[x]] == x {
      assert lay.pos[lay.tab[x]] == x;
    }
  }

  lemma PruneSlots(mem: Mem, lay: Layout, x: Pos, i: nat, r: nat, mem': Mem, lay': Layout)
    requires Placed(mem, lay) && x in lay.tab && i < |mem[lay.tab[x]]| && lay' == Pruned(lay, Sub(x, i))
    requires !Above(Sub(x, i), x) && lay.tab[x] in mem - Subtree(lay, Sub(x, i))
    requires mem' == Store(mem - Subtree(lay, Sub(x, i)), lay.tab[x], i, Leaf(r))
    ensures PrunedTo(mem, lay, mem', lay', x, i, r)
  {
    forall y, j: nat ensures Slot(mem', lay', y, j) ==
                 if y == x && j == i then Leaf(r)
                 else if Above(Sub(x, i), y) then Leaf(0)
                 else Slot(mem, lay, y, j)
    {
      if y in lay'.tab && y != x {
        assert lay.pos[lay.tab[y]] == y && lay.tab[y] != lay.tab[x];
      }
    }
  }

  lemma PruneLinks(mem: Mem, root: nat, lay: Layout, x: Pos, i: nat, r: nat, mem': Mem, lay': Layout)
    requires Downward(mem, lay) && Upward(mem, root, lay) && x in lay.tab && lay' == Pruned(lay, Sub(x, i))
    requires PrunedTo(mem, lay, mem', lay', x, i, r)
    ensures Downward(mem', lay') && Upward(mem', root, lay')
  {
    forall y, j: nat | y in lay'.tab && Slot(mem', lay', y, j).Table?
      ensures Sub(y, j) in lay'.tab && lay'.tab[Sub(y, j)] == Slot(mem', lay', y, j).ptr
    {
      assert Slot(mem, lay, y, j).Table?;
      assert Sub(y, j) != Sub(x, i);
    }
    forall y | y in lay'.tab && y.Sub?
      ensures y.up in lay'.tab && Slot(mem', lay', y.up, y.i) == Table(lay'.tab[y])
    {
      assert y.up in lay.tab && Slot(mem, lay, y.up, y.i) == Table(lay.tab[y]);
    }
  }

  lemma AboveDepth(x: Pos, y: Pos)
    requires Above(x, y)
    ensures Depth(x) <= Depth(y) && (Depth(x) == Depth(y) ==> x == y)
  {
  }

  lemma NotBelowItself(x: Pos, i: nat)
    ensures !Above(Sub(x, i), x)
  {
    if Above(Sub(x, i), x) { AboveDepth(Sub(x, i), x); }
  }
}
