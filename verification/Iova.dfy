/** The free list of an IOVA domain (src/iova.c).

    The linked list of free blocks is a sequence; u64 arithmetic that can wrap is written out.
 */
module Iova {
  import opened Arith

  datatype Option<T> = None | Some(value: T)

  datatype Block = Block(iova: nat, sz: nat)

  function End(b: Block): nat { b.iova + b.sz }

  predicate Holds(b: Block, a: nat) { b.iova <= a < End(b) }

  /** u64 arithmetic. */
  function Wrap(x: int): nat { x % 0x1_0000_0000_0000_0000 }

  /** ALIGN_UP(sz, SZ_16K) on u64: sizes just below 2^64 become 0. */
  function Up16K(sz: nat): nat {
    var y := Wrap(sz + 0x3FFF);
    y - y % 0x4000
  }

  function Down16K(x: nat): nat { x - x % 0x4000 }

  // ---- The invariant ----

  predicate Page(x: nat) { x % 0x4000 == 0 }

  predicate BlockOk(b: Block, lo: nat, hi: nat) {
    0 < b.sz && Page(b.iova) && Page(b.sz) && lo <= b.iova && End(b) <= hi
  }

  /** Free blocks are non-empty, page-aligned, inside [lo, hi), in order and disjoint. */
  ghost predicate Ok(l: seq<Block>, lo: nat, hi: nat) {
    && (forall i :: 0 <= i < |l| ==> BlockOk(l[i], lo, hi))
    && (forall i, j :: 0 <= i < j < |l| ==> End(l[i]) <= l[j].iova)
  }

  ghost predicate IsFree(l: seq<Block>, a: nat) {
    exists i :: 0 <= i < |l| && Holds(l[i], a)
  }

  // ---- The searches ----

  /** The first block from i on that holds address a. */
  function FindHolder(l: seq<Block>, i: nat, a: nat): (k: nat)
    requires i <= |l|
    ensures i <= k <= |l|
    ensures forall j :: i <= j < k ==> !Holds(l[j], a)
    ensures k < |l| ==> Holds(l[k], a)
    decreases |l| - i
  {
    if i == |l| || Holds(l[i], a) then i else FindHolder(l, i + 1, a)
  }

  /** The first block from i on that has sz bytes. */
  function FindFit(l: seq<Block>, i: nat, sz: nat): (k: nat)
    requires i <= |l|
    ensures i <= k <= |l|
    ensures forall j :: i <= j < k ==> l[j].sz < sz
    ensures k < |l| ==> sz <= l[k].sz
    decreases |l| - i
  {
    if i == |l| || sz <= l[i].sz then i else FindFit(l, i + 1, sz)
  }

  /** The first block from i on that starts at e or above. */
  function FindAbove(l: seq<Block>, i: nat, e: nat): (k: nat)
    requires i <= |l|
    ensures i <= k <= |l|
    ensures forall j :: i <= j < k ==> l[j].iova < e
    ensures k < |l| ==> e <= l[k].iova
    decreases |l| - i
  {
    if i == |l| || e <= l[i].iova then i else FindAbove(l, i + 1, e)
  }

  // ---- The operations on lists ----

  /** Blocks i up to j give way to m. */
  function Splice(l: seq<Block>, i: nat, j: nat, m: seq<Block>): seq<Block>
    requires i <= j <= |l|
  {
    l[..i] + m + l[j..]
  }

  /** The range that iova_reserve works with: page 0 is left out. */
  function ReqIova(iova: nat): nat { if Down16K(iova) == 0 then 0x4000 else Down16K(iova) }

  function ReqSize(iova: nat, sz: nat): nat {
    if Down16K(iova) == 0 then Wrap(Up16K(sz) - 0x4000) else Up16K(sz)
  }

  /** iova_reserve on an adjusted, non-empty range. */
  function Reserve(l: seq<Block>, iova: nat, sz: nat): Option<seq<Block>> {
    var k := FindHolder(l, 0, iova);
    if k == |l| then None
    else
      var b := l[k];
      var e := Wrap(iova + sz);
      if End(b) <= e then None
      else if iova == b.iova then Some(Splice(l, k, k + 1, [Block(e, Wrap(b.sz - sz))]))
      else Some(Splice(l, k, k + 1, [Block(b.iova, iova - b.iova), Block(e, Wrap(End(b) - e))]))
  }

  /** iova_alloc on an aligned size: the address and the new list. */
  function Alloc(l: seq<Block>, sz: nat): Option<(nat, seq<Block>)> {
    var k := FindFit(l, 0, sz);
    if k == |l| then None
    else if l[k].sz == sz then Some((l[k].iova, Splice(l, k, k + 1, [])))
    else Some((l[k].iova, Splice(l, k, k + 1, [Block(l[k].iova + sz, l[k].sz - sz)])))
  }

  /** iova_free on an aligned size; None is the panic. */
  function Free(l: seq<Block>, iova: nat, sz: nat): Option<seq<Block>> {
    if l == [] then Some([Block(iova, sz)])
    else
      var k := FindAbove(l, 0, iova + sz);
      if k == |l| then None else Some(Inserted(l, iova, sz, k))
  }

  /** The range joins the list before block k, as one block with the neighbours that it touches. */
  function Inserted(l: seq<Block>, iova: nat, sz: nat, k: nat): seq<Block>
    requires k < |l|
  {
    if l[k].iova != iova + sz then Splice(l, k, k, [Block(iova, sz)])
    else if k > 0 && End(l[k - 1]) == iova then
      Splice(l, k - 1, k + 1, [Block(l[k - 1].iova, l[k - 1].sz + (l[k].sz + sz))])
    else Splice(l, k, k + 1, [Block(iova, l[k].sz + sz)])
  }

  // ---- Lists in parts ----

  lemma FreeConcat(x: seq<Block>, y: seq<Block>, a: nat)
    ensures IsFree(x + y, a) <==> IsFree(x, a) || IsFree(y, a)
  {
    if IsFree(x, a) {
      var i :| 0 <= i < |x| && Holds(x[i], a);
      assert Holds((x + y)[i], a);
    }
    if IsFree(y, a) {
      var i :| 0 <= i < |y| && Holds(y[i], a);
      assert Holds((x + y)[|x| + i], a);
    }
    if IsFree(x + y, a) {
      var i :| 0 <= i < |x + y| && Holds((x + y)[i], a);
      if i < |x| { assert Holds(x[i], a); } else { assert Holds(y[i - |x|], a); }
    }
  }

  lemma FreeOne(b: Block, a: nat)
    ensures IsFree([b], a) <==> Holds(b, a)
  {
    assert [b][0] == b;
  }

  /** The free addresses of l, split around block k. */
  lemma FreeSplit(l: seq<Block>, k: nat, a: nat)
    requires k < |l|
    ensures IsFree(l, a) <==> IsFree(l[..k], a) || Holds(l[k], a) || IsFree(l[k + 1..], a)
  {
    assert l == l[..k] + ([l[k]] + l[k + 1..]);
    FreeConcat(l[..k], [l[k]] + l[k + 1..], a);
    FreeConcat([l[k]], l[k + 1..], a);
    FreeOne(l[k], a);
  }

  lemma OkConcat(x: seq<Block>, y: seq<Block>, lo: nat, m: nat, m': nat, hi: nat)
    requires Ok(x, lo, m) && Ok(y, m', hi) && lo <= m <= m' <= hi
    ensures Ok(x + y, lo, hi)
  {
  }

  lemma OkOne(b: Block, lo: nat, hi: nat)
    requires BlockOk(b, lo, hi)
    ensures Ok([b], lo, hi)
  {
  }

  lemma OkSplit(l: seq<Block>, k: nat, lo: nat, hi: nat)
    requires Ok(l, lo, hi) && k < |l|
    ensures BlockOk(l[k], lo, hi) && Ok(l[..k], lo, l[k].iova) && Ok(l[k + 1..], End(l[k]), hi)
  {
  }

  lemma NoBlocks(lo: nat, hi: nat)
    ensures Ok([], lo, hi) && forall a: nat :: !IsFree([], a)
  {
  }

  lemma HeldIsFree(l: seq<Block>, k: nat)
    requires k < |l|
    ensures forall a: nat :: Holds(l[k], a) ==> IsFree(l, a)
  {
  }

  lemma FreeInside(l: seq<Block>, lo: nat, hi: nat, a: nat)
    requires Ok(l, lo, hi) && IsFree(l, a)
    ensures lo <= a < hi
  {
    var i :| 0 <= i < |l| && Holds(l[i], a);
    assert BlockOk(l[i], lo, hi);
  }

  /** Block k gives way to the blocks m, which lie inside its range. */
  lemma Replace(l: seq<Block>, k: nat, m: seq<Block>, lo: nat, hi: nat)
    requires Ok(l, lo, hi) && k < |l| && Ok(m, l[k].iova, End(l[k]))
    ensures Ok(Splice(l, k, k + 1, m), lo, hi)
    ensures forall a: nat :: IsFree(Splice(l, k, k + 1, m), a) <==>
              if Holds(l[k], a) then IsFree(m, a) else IsFree(l, a)
  {
    OkSplit(l, k, lo, hi);
    OkConcat(l[..k], m, lo, l[k].iova, l[k].iova, End(l[k]));
    OkConcat(l[..k] + m, l[k + 1..], lo, End(l[k]), End(l[k]), hi);
    forall a: nat ensures IsFree(l[..k] + m + l[k + 1..], a) <==>
              if Holds(l[k], a) then IsFree(m, a) else IsFree(l, a)
    {
      FreeSplit(l, k, a);
      FreeConcat(l[..k] + m, l[k + 1..], a);
      FreeConcat(l[..k], m, a);
      if IsFree(l[..k], a) { FreeInside(l[..k], lo, l[k].iova, a); }
      if IsFree(l[k + 1..], a) { FreeInside(l[k + 1..], End(l[k]), hi, a); }
      if IsFree(m, a) { FreeInside(m, l[k].iova, End(l[k]), a); }
    }
  }

  /** Block b = l[k] keeps only the part c. */
  lemma Cut(l: seq<Block>, k: nat, c: Block, lo: nat, hi: nat)
    requires Ok(l, lo, hi) && k < |l| && BlockOk(c, l[k].iova, End(l[k]))
    ensures Ok(Splice(l, k, k + 1, [c]), lo, hi)
    ensures forall a: nat ::
              IsFree(Splice(l, k, k + 1, [c]), a) <==> if Holds(l[k], a) then Holds(c, a) else IsFree(l, a)
  {
    hide Splice, Ok, IsFree, BlockOk;
    OkOne(c, l[k].iova, End(l[k]));
    Replace(l, k, [c], lo, hi);
    forall a: nat ensures IsFree([c], a) <==> Holds(c, a) { FreeOne(c, a); }
  }

  // ---- iova_alloc ----

  /** The lowest fit is handed out, exactly its addresses stop being free, and nothing is handed
      out only if no block is large enough. */
  lemma AllocTakes(l: seq<Block>, lo: nat, hi: nat, sz: nat)
    requires Ok(l, lo, hi) && Page(sz)
    ensures var r := Alloc(l, sz);
            && (r.None? <==> forall j :: 0 <= j < |l| ==> l[j].sz < sz)
            && (r.Some? ==>
                  var (iova, l') := r.value;
                  && Ok(l', lo, hi) && Page(iova) && lo <= iova && iova + sz <= hi
                  && (forall j :: 0 <= j < |l| && sz <= l[j].sz ==> iova <= l[j].iova)
                  && (forall a: nat :: iova <= a < iova + sz ==> IsFree(l, a))
                  && (forall a: nat :: IsFree(l', a) <==> IsFree(l, a) && !(iova <= a < iova + sz)))
  {
    hide Page, FindFit;
    var k := FindFit(l, 0, sz);
    if k < |l| {
      var b := l[k];
      assert BlockOk(b, lo, hi);
      forall a: nat | Holds(b, a) ensures IsFree(l, a) { }
      forall j | 0 <= j < |l| && sz <= l[j].sz ensures b.iova <= l[j].iova {
        if k < j { assert End(l[k]) <= l[j].iova; }
      }
      AllocCuts(l, lo, hi, sz, k);
    }
  }

  lemma AllocCuts(l: seq<Block>, lo: nat, hi: nat, sz: nat, k: nat)
    requires Ok(l, lo, hi) && Page(sz) && k == FindFit(l, 0, sz) < |l|
    ensures var l' := Alloc(l, sz).value.1;
            && Ok(l', lo, hi)
            && forall a: nat :: IsFree(l', a) <==> IsFree(l, a) && !(l[k].iova <= a < l[k].iova + sz)
  {
    hide Page, FindFit, IsFree, Ok, Splice;
    var b := l[k];
    OkSplit(l, k, lo, hi);
    HeldIsFree(l, k);
    if b.sz == sz {
      NoBlocks(b.iova, End(b));
      Replace(l, k, [], lo, hi);
    } else {
      PageSum(b.iova, sz);
      PageSum(b.sz - sz, sz);
      var c := Block(b.iova + sz, b.sz - sz);
      Cut(l, k, c, lo, hi);
      var l' := Alloc(l, sz).value.1;
      assert l' == Splice(l, k, k + 1, [c]);
      forall a: nat ensures IsFree(l', a) <==> IsFree(l, a) && !(l[k].iova <= a < l[k].iova + sz) {
        assert Holds(b, a) ==> IsFree(l, a);
        assert IsFree(l', a) <==> if Holds(b, a) then Holds(c, a) else IsFree(l, a);
      }
    }
  }

  /** The answer 0 of iova_alloc means failure, except that a domain that starts at address 0 hands out
      that address first. */
  lemma AllocZero(l: seq<Block>, lo: nat, hi: nat, sz: nat)
    requires Ok(l, lo, hi)
    ensures (Alloc(l, sz).Some? && Alloc(l, sz).value.0 == 0) <==> (l != [] && l[0].iova == 0 && sz <= l[0].sz)
  {
    var k := FindFit(l, 0, sz);
    if 0 < k < |l| {
      assert End(l[0]) <= l[k].iova;
      assert BlockOk(l[0], lo, hi);
    }
  }

  /** Allocating nothing changes nothing. */
  lemma AllocNothing(l: seq<Block>, lo: nat, hi: nat)
    requires Ok(l, lo, hi)
    ensures Alloc(l, 0).Some? ==> l != [] && Alloc(l, 0).value == (l[0].iova, l)
  {
    if l != [] {
      assert BlockOk(l[0], lo, hi);
      assert FindFit(l, 0, 0) == 0;
      assert Splice(l, 0, 1, [l[0]]) == l;
    }
  }

  lemma Up16KOfPage(x: nat)
    requires Page(x) && x < 0x1_0000_0000_0000_0000
    ensures Up16K(x) == x
  {
    assert x + 0x4000 <= 0x1_0000_0000_0000_0000 by { Whole(x, 0x4000); }
    NoWrap(x + 0x3FFF);
    AddSmall(x, 0x4000, 0x3FFF);
  }

  lemma PageSum(x: nat, y: nat)
    requires Page(y)
    ensures Page(x + y) == Page(x)
  {
    AddMultiple(x, 0x4000, y / 0x4000);
  }

  // ---- iova_reserve ----

  lemma NoWrap(x: nat)
    requires x < 0x1_0000_0000_0000_0000
    ensures Wrap(x) == x
  {
  }

  lemma WrapOnce(x: nat)
    requires 0x1_0000_0000_0000_0000 <= x < 0x2_0000_0000_0000_0000
    ensures Wrap(x) == x - 0x1_0000_0000_0000_0000
  {
    DivModIs(x, 0x1_0000_0000_0000_0000, 1, x - 0x1_0000_0000_0000_0000);
  }

  lemma WrapNegative(x: int)
    requires -0x1_0000_0000_0000_0000 <= x < 0
    ensures Wrap(x) == x + 0x1_0000_0000_0000_0000
  {
    assert x == -1 * 0x1_0000_0000_0000_0000 + (x + 0x1_0000_0000_0000_0000);
  }

  /** A range that does not run past 2^64 is reserved exactly if it lies in one free block and stops
      short of the block's end, and then its addresses stop being free. */
  lemma ReserveTakes(l: seq<Block>, lo: nat, hi: nat, iova: nat, sz: nat)
    requires Ok(l, lo, hi) && hi < 0x1_0000_0000_0000_0000 && Page(iova) && Page(sz) && 0 < sz
    requires iova + sz < 0x1_0000_0000_0000_0000
    ensures var r := Reserve(l, iova, sz);
            && (r.Some? <==> exists k :: 0 <= k < |l| && Holds(l[k], iova) && iova + sz < End(l[k]))
            && (r.Some? ==>
                  && Ok(r.value, lo, hi)
                  && forall a: nat :: IsFree(r.value, a) <==> IsFree(l, a) && !(iova <= a < iova + sz))
  {
    hide Page, FindHolder, Wrap;
    NoWrap(iova + sz);
    var k := FindHolder(l, 0, iova);
    if k < |l| {
      UniqueHolder(l, lo, hi, k, iova);
      if iova + sz < End(l[k]) {
        ReserveCuts(l, lo, hi, k, iova, sz);
      }
    }
  }

  lemma UniqueHolder(l: seq<Block>, lo: nat, hi: nat, k: nat, a: nat)
    requires Ok(l, lo, hi) && k < |l| && Holds(l[k], a)
    ensures forall j :: 0 <= j < |l| && Holds(l[j], a) ==> j == k
  {
    forall j | 0 <= j < |l| && j != k ensures !Holds(l[j], a) {
      assert End(l[j]) <= l[k].iova || End(l[k]) <= l[j].iova;
    }
  }

  lemma ReserveCuts(l: seq<Block>, lo: nat, hi: nat, k: nat, iova: nat, sz: nat)
    requires Ok(l, lo, hi) && hi < 0x1_0000_0000_0000_0000 && k == FindHolder(l, 0, iova) < |l|
    requires Page(iova) && Page(sz) && 0 < sz && iova + sz < End(l[k])
    ensures var r := Reserve(l, iova, sz);
            && r.Some? && Ok(r.value, lo, hi)
            && forall a: nat :: IsFree(r.value, a) <==> IsFree(l, a) && !(iova <= a < iova + sz)
  {
    hide Page, FindHolder, Wrap, IsFree, Ok, Splice;
    OkSplit(l, k, lo, hi);
    NoWrap(iova + sz);
    NoWrap(End(l[k]) - (iova + sz));
    if iova == l[k].iova { NoWrap(l[k].sz - sz); }
    ReserveSplices(l, lo, hi, k, iova, sz);
  }

  lemma ReserveSplices(l: seq<Block>, lo: nat, hi: nat, k: nat, iova: nat, sz: nat)
    requires Ok(l, lo, hi) && k < |l| && Holds(l[k], iova)
    requires Page(iova) && Page(sz) && 0 < sz && iova + sz < End(l[k])
    ensures var c := Block(iova + sz, End(l[k]) - (iova + sz));
            var m := if iova == l[k].iova then [c] else [Block(l[k].iova, iova - l[k].iova), c];
            var l' := Splice(l, k, k + 1, m);
            && Ok(l', lo, hi)
            && forall a: nat :: IsFree(l', a) <==> IsFree(l, a) && !(iova <= a < iova + sz)
  {
    hide Page, IsFree, Ok, Splice;
    var b, e := l[k], iova + sz;
    OkSplit(l, k, lo, hi);
    HeldIsFree(l, k);
    PageSum(iova, sz);
    PageSum(b.iova, b.sz);
    PageSum(End(b) - e, e);
    var c, d := Block(e, End(b) - e), Block(b.iova, iova - b.iova);
    var l';
    if iova == b.iova {
      Cut(l, k, c, lo, hi);
      l' := Splice(l, k, k + 1, [c]);
    } else {
      PageSum(iova - b.iova, b.iova);
      CutMiddle(l, k, d, c, lo, hi);
      l' := Splice(l, k, k + 1, [d, c]);
    }
    forall a: nat ensures IsFree(l', a) <==> IsFree(l, a) && !(iova <= a < iova + sz) {
      assert Holds(b, a) ==> IsFree(l, a);
      assert IsFree(l', a) <==> if Holds(b, a) then Holds(d, a) || Holds(c, a) else IsFree(l, a);
    }
  }

  lemma CutMiddle(l: seq<Block>, k: nat, d: Block, c: Block, lo: nat, hi: nat)
    requires Ok(l, lo, hi) && k < |l| && BlockOk(d, l[k].iova, c.iova) && BlockOk(c, End(d), End(l[k]))
    ensures Ok(Splice(l, k, k + 1, [d, c]), lo, hi)
    ensures forall a: nat :: IsFree(Splice(l, k, k + 1, [d, c]), a) <==>
              if Holds(l[k], a) then Holds(d, a) || Holds(c, a) else IsFree(l, a)
  {
    OkOne(d, l[k].iova, c.iova);
    OkOne(c, c.iova, End(l[k]));
    OkConcat([d], [c], l[k].iova, c.iova, c.iova, End(l[k]));
    assert [d] + [c] == [d, c];
    Replace(l, k, [d, c], lo, hi);
    forall a: nat ensures IsFree([d, c], a) <==> Holds(d, a) || Holds(c, a) {
      FreeOne(d, a);
      FreeOne(c, a);
      FreeConcat([d], [c], a);
    }
  }

  /** A range that runs past 2^64 is reported as reserved whenever a free block holds its start,
      and the start is still free afterwards. */
  lemma ReserveWraps(l: seq<Block>, lo: nat, hi: nat, iova: nat, sz: nat)
    requires Ok(l, lo, hi) && hi < 0x1_0000_0000_0000_0000
    requires sz < 0x1_0000_0000_0000_0000 <= iova + sz && iova < 0x1_0000_0000_0000_0000
    ensures var r := Reserve(l, iova, sz);
            (r.Some? <==> IsFree(l, iova)) && (r.Some? ==> IsFree(r.value, iova))
  {
    hide FindHolder, Wrap;
    WrapOnce(iova + sz);
    var k := FindHolder(l, 0, iova);
    if k < |l| {
      var b, e := l[k], iova + sz - 0x1_0000_0000_0000_0000;
      assert BlockOk(b, lo, hi);
      assert IsFree(l, iova);
      var r := Reserve(l, iova, sz);
      if iova == b.iova {
        WrapNegative(b.sz - sz);
        assert Holds(r.value[k], iova);
      } else {
        NoWrap(End(b) - e);
        assert Holds(r.value[k + 1], iova);
      }
    }
  }

  /** So what a successful reservation asked for is gone exactly when the range did not wrap. */
  lemma ReserveExact(l: seq<Block>, lo: nat, hi: nat, iova: nat, sz: nat)
    requires Ok(l, lo, hi) && hi < 0x1_0000_0000_0000_0000 && Page(iova) && Page(sz) && 0 < sz
    requires sz < 0x1_0000_0000_0000_0000 && iova < 0x1_0000_0000_0000_0000
    requires Reserve(l, iova, sz).Some?
    ensures iova + sz < 0x1_0000_0000_0000_0000 <==>
            (forall a: nat :: iova <= a < iova + sz ==> !IsFree(Reserve(l, iova, sz).value, a))
  {
    if iova + sz < 0x1_0000_0000_0000_0000 {
      ReserveTakes(l, lo, hi, iova, sz);
    } else {
      ReserveWraps(l, lo, hi, iova, sz);
    }
  }

  /** The family that wraps includes reserving nothing at page 0. */
  lemma ReserveNothingAtZero(iova: nat)
    requires iova < 0x4000
    ensures ReqIova(iova) == 0x4000 && ReqSize(iova, 0) == 0x1_0000_0000_0000_0000 - 0x4000
  {
    assert Down16K(iova) == 0;
    assert Up16K(0) == 0;
    WrapNegative(-0x4000);
  }

  // ---- iova_free ----

  /** Freeing a range that is not free: the panic is reached exactly when the list is not empty and no
      block starts at or above the end of the range; otherwise the range becomes free. */
  lemma FreeAdds(l: seq<Block>, lo: nat, hi: nat, iova: nat, sz: nat)
    requires Ok(l, lo, hi) && Page(iova) && Page(sz) && 0 < sz && lo <= iova && iova + sz <= hi
    requires forall a: nat :: iova <= a < iova + sz ==> !IsFree(l, a)
    ensures var r := Free(l, iova, sz);
            && (r.None? <==> l != [] && forall j :: 0 <= j < |l| ==> l[j].iova < iova + sz)
            && (r.Some? ==>
                  && Ok(r.value, lo, hi)
                  && forall a: nat :: IsFree(r.value, a) <==> IsFree(l, a) || iova <= a < iova + sz)
  {
    hide Page, FindAbove;
    var b := Block(iova, sz);
    OkOne(b, iova, iova + sz);
    forall a: nat { FreeOne(b, a); }
    if l == [] {
      OkOne(b, lo, hi);
    } else {
      var k := FindAbove(l, 0, iova + sz);
      if k < |l| {
        FreeParts(l, lo, hi, iova, sz, k);
        FreeInserts(l, lo, hi, iova, sz, k);
      }
    }
  }

  /** A free block lies wholly below or wholly above a range that is not free. */
  lemma Apart(l: seq<Block>, j: nat, iova: nat, sz: nat)
    requires j < |l| && 0 < l[j].sz && 0 < sz
    requires forall a: nat :: iova <= a < iova + sz ==> !IsFree(l, a)
    ensures End(l[j]) <= iova || iova + sz <= l[j].iova
  {
    var a := if l[j].iova < iova then iova else l[j].iova;
    assert Holds(l[j], a) ==> IsFree(l, a);
  }

  lemma FreeParts(l: seq<Block>, lo: nat, hi: nat, iova: nat, sz: nat, k: nat)
    requires Ok(l, lo, hi) && 0 < sz && lo <= iova && iova + sz <= hi && k <= |l|
    requires forall a: nat :: iova <= a < iova + sz ==> !IsFree(l, a)
    requires forall j :: 0 <= j < k ==> l[j].iova < iova + sz
    requires k < |l| ==> iova + sz <= l[k].iova
    ensures Ok(l[..k], lo, iova) && Ok(l[k..], iova + sz, hi)
  {
    forall j | 0 <= j < k ensures End(l[j]) <= iova {
      assert BlockOk(l[j], lo, hi);
      Apart(l, j, iova, sz);
    }
    forall j | k <= j < |l| ensures iova + sz <= l[j].iova {
      if k < j { assert End(l[k]) <= l[j].iova; assert BlockOk(l[k], lo, hi); }
    }
  }

  /** A sequence of three parts in order. */
  lemma Join(x: seq<Block>, d: Block, y: seq<Block>, lo: nat, hi: nat)
    requires Ok(x, lo, d.iova) && BlockOk(d, lo, hi) && Ok(y, End(d), hi)
    ensures Ok(x + [d] + y, lo, hi)
    ensures forall a: nat :: IsFree(x + [d] + y, a) <==> IsFree(x, a) || Holds(d, a) || IsFree(y, a)
  {
    OkOne(d, d.iova, End(d));
    OkConcat(x, [d], lo, d.iova, d.iova, End(d));
    OkConcat(x + [d], y, lo, End(d), End(d), hi);
    forall a: nat ensures IsFree(x + [d] + y, a) <==> IsFree(x, a) || Holds(d, a) || IsFree(y, a) {
      FreeOne(d, a);
      FreeConcat(x, [d], a);
      FreeConcat(x + [d], y, a);
    }
  }

  lemma FreeInserts(l: seq<Block>, lo: nat, hi: nat, iova: nat, sz: nat, k: nat)
    requires Ok(l, lo, hi) && Page(iova) && Page(sz) && 0 < sz && lo <= iova && iova + sz <= hi
    requires k == FindAbove(l, 0, iova + sz) < |l| && Ok(l[..k], lo, iova) && Ok(l[k..], iova + sz, hi)
    ensures var r := Free(l, iova, sz);
            && r.Some? && Ok(r.value, lo, hi)
            && forall a: nat :: IsFree(r.value, a) <==> IsFree(l, a) || iova <= a < iova + sz
  {
    hide Page, FindAbove, Ok, IsFree, Splice, Inserted;
    if l[k].iova != iova + sz {
      FreeNew(l, lo, hi, iova, sz, k);
    } else {
      FreeTouching(l, lo, hi, iova, sz, k);
    }
  }

  lemma FreeNew(l: seq<Block>, lo: nat, hi: nat, iova: nat, sz: nat, k: nat)
    requires k < |l| && Page(iova) && Page(sz) && 0 < sz && lo <= iova && iova + sz <= hi
    requires Ok(l[..k], lo, iova) && Ok(l[k..], iova + sz, hi)
    requires l[k].iova != iova + sz
    ensures var l' := Inserted(l, iova, sz, k);
            Ok(l', lo, hi) && forall a: nat :: IsFree(l', a) <==> IsFree(l, a) || iova <= a < iova + sz
  {
    hide Page, Ok, IsFree, Splice;
    var b := Block(iova, sz);
    TailSplit(l, k, iova + sz, hi);
    JoinSplice(l, k, k, b, lo, hi);
    var l' := Splice(l, k, k, [b]);
    forall a: nat ensures IsFree(l', a) <==> IsFree(l, a) || iova <= a < iova + sz {
      FreeSplit(l, k, a);
      assert IsFree(l', a) <==> IsFree(l[..k], a) || Holds(b, a) || IsFree(l[k..], a);
    }
  }

  lemma FreeTouching(l: seq<Block>, lo: nat, hi: nat, iova: nat, sz: nat, k: nat)
    requires k < |l| && Page(iova) && Page(sz) && 0 < sz && lo <= iova && iova + sz == l[k].iova
    requires Ok(l[..k], lo, iova) && Ok(l[k..], iova + sz, hi)
    ensures var l' := Inserted(l, iova, sz, k);
            Ok(l', lo, hi) && forall a: nat :: IsFree(l', a) <==> IsFree(l, a) || iova <= a < iova + sz
  {
    hide Page, Ok, IsFree, Splice;
    TailSplit(l, k, iova + sz, hi);
    PageSum(l[k].sz, sz);
    var d := Block(iova, l[k].sz + sz);
    var l';
    if k > 0 && End(l[k - 1]) == iova {
      FreeMerges(l, lo, hi, iova, k, d);
      l' := Splice(l, k - 1, k + 1, [Block(l[k - 1].iova, l[k - 1].sz + d.sz)]);
    } else {
      JoinSplice(l, k, k + 1, d, lo, hi);
      l' := Splice(l, k, k + 1, [d]);
    }
    assert l' == Inserted(l, iova, sz, k);
    forall a: nat ensures IsFree(l', a) <==> IsFree(l, a) || iova <= a < iova + sz {
      FreeSplit(l, k, a);
      assert IsFree(l', a) <==> IsFree(l[..k], a) || Holds(d, a) || IsFree(l[k + 1..], a);
    }
  }

  lemma TailSplit(l: seq<Block>, k: nat, m: nat, hi: nat)
    requires k < |l| && Ok(l[k..], m, hi)
    ensures BlockOk(l[k], m, hi) && Ok(l[k + 1..], End(l[k]), hi)
    ensures forall a: nat :: IsFree(l[k..], a) <==> Holds(l[k], a) || IsFree(l[k + 1..], a)
  {
    OkSplit(l[k..], 0, m, hi);
    assert l[k..][1..] == l[k + 1..];
    forall a: nat ensures IsFree(l[k..], a) <==> Holds(l[k], a) || IsFree(l[k + 1..], a) {
      FreeSplit(l[k..], 0, a);
      assert l[k..][..0] == [];
      NoBlocks(0, 0);
    }
  }

  lemma JoinSplice(l: seq<Block>, i: nat, j: nat, d: Block, lo: nat, hi: nat)
    requires i <= j <= |l| && Ok(l[..i], lo, d.iova) && BlockOk(d, lo, hi) && Ok(l[j..], End(d), hi)
    ensures Ok(Splice(l, i, j, [d]), lo, hi)
    ensures forall a: nat :: IsFree(Splice(l, i, j, [d]), a) <==> IsFree(l[..i], a) || Holds(d, a) || IsFree(l[j..], a)
  {
    Join(l[..i], d, l[j..], lo, hi);
  }

  /** Blocks k - 1 and d touch and become one. */
  lemma FreeMerges(l: seq<Block>, lo: nat, hi: nat, iova: nat, k: nat, d: Block)
    requires 0 < k < |l| && Ok(l[..k], lo, iova) && BlockOk(d, iova, End(d)) && Ok(l[k + 1..], End(d), hi)
    requires d.iova == iova == End(l[k - 1]) && End(d) <= hi
    ensures var m := Block(l[k - 1].iova, l[k - 1].sz + d.sz);
            var l' := Splice(l, k - 1, k + 1, [m]);
            && Ok(l', lo, hi)
            && forall a: nat :: IsFree(l', a) <==> IsFree(l[..k], a) || Holds(d, a) || IsFree(l[k + 1..], a)
  {
    hide Page, Ok, IsFree, Splice;
    var p := l[k - 1];
    var m := Block(p.iova, p.sz + d.sz);
    OkSplit(l[..k], k - 1, lo, iova);
    assert l[..k][..k - 1] == l[..k - 1];
    PageSum(p.sz, d.sz);
    JoinSplice(l, k - 1, k + 1, m, lo, hi);
    NoBlocks(0, 0);
    forall a: nat ensures IsFree(l[..k], a) <==> IsFree(l[..k - 1], a) || Holds(p, a) {
      FreeSplit(l[..k], k - 1, a);
      assert l[..k][k..] == [];
    }
  }

  /** Freeing nothing keeps the list well-formed exactly if a block starts at the given address;
      otherwise an empty block is inserted, or the panic is reached. */
  lemma FreeNothing(l: seq<Block>, lo: nat, hi: nat, iova: nat)
    requires Ok(l, lo, hi) && Free(l, iova, 0).Some?
    ensures Ok(Free(l, iova, 0).value, lo, hi) <==> exists k :: 0 <= k < |l| && l[k].iova == iova
  {
    if k :| 0 <= k < |l| && l[k].iova == iova {
      FreeNothingSame(l, lo, hi, iova, k);
    } else {
      var r := Free(l, iova, 0).value;
      var k := if l == [] then 0 else FindAbove(l, 0, iova);
      assert r[k] == Block(iova, 0) && !BlockOk(r[k], lo, hi);
    }
  }

  lemma FreeNothingSame(l: seq<Block>, lo: nat, hi: nat, iova: nat, k: nat)
    requires Ok(l, lo, hi) && k < |l| && l[k].iova == iova
    ensures var r := Free(l, iova, 0);
            r.Some? && Ok(r.value, lo, hi) && forall a: nat :: IsFree(r.value, a) <==> IsFree(l, a)
  {
    hide IsFree;
    var j := FindAbove(l, 0, iova);
    if k > 0 && End(l[k - 1]) == iova {
      OkSplit(l, k, lo, hi);
      FreeMerges(l, lo, hi, iova, k, l[k]);
      forall a: nat ensures IsFree(Free(l, iova, 0).value, a) <==> IsFree(l, a) {
        FreeSplit(l, k, a);
      }
    } else {
      assert Free(l, iova, 0).value == l;
    }
  }

  // ---- The topmost block ----

  /** An allocation of sz bytes uses up the last block: it is the first that fits, and it fits exactly. */
  predicate ConsumesTop(l: seq<Block>, sz: nat) {
    l != [] && FindFit(l, 0, sz) == |l| - 1 && l[|l| - 1].sz == sz
  }

  /** The last free block still reaches the end of the domain. */
  predicate HasTop(l: seq<Block>, hi: nat) { l != [] && End(l[|l| - 1]) == hi }

  /** Reserving never takes the top away. */
  lemma ReserveKeepsTop(l: seq<Block>, lo: nat, hi: nat, iova: nat, sz: nat)
    requires Ok(l, lo, hi) && hi < 0x1_0000_0000_0000_0000 && 0 < sz && iova + sz < 0x1_0000_0000_0000_0000
    requires HasTop(l, hi) && Reserve(l, iova, sz).Some?
    ensures HasTop(Reserve(l, iova, sz).value, hi)
  {
    hide FindHolder, Wrap;
    NoWrap(iova + sz);
    var k := FindHolder(l, 0, iova);
    NoWrap(End(l[k]) - (iova + sz));
    if iova == l[k].iova { NoWrap(l[k].sz - sz); }
  }

  /** Allocating takes the top away exactly if the first fit is the last block and fits exactly. */
  lemma AllocKeepsTop(l: seq<Block>, lo: nat, hi: nat, sz: nat)
    requires Ok(l, lo, hi) && HasTop(l, hi) && Alloc(l, sz).Some?
    ensures HasTop(Alloc(l, sz).value.1, hi) <==> !ConsumesTop(l, sz)
  {
    hide FindFit, Page;
    var k := FindFit(l, 0, sz);
    var l' := Alloc(l, sz).value.1;
    var b := l[|l| - 1];
    assert BlockOk(l[k], lo, hi) && BlockOk(b, lo, hi);
    assert k > 0 ==> End(l[k - 1]) <= l[k].iova;
    hide Ok;
    if k == |l| - 1 && l[k].sz == sz {
      if l' != [] {
        assert l'[|l'| - 1] == l[k - 1];
      }
    } else if k == |l| - 1 {
      assert l'[|l'| - 1] == Block(l[k].iova + sz, l[k].sz - sz);
    } else {
      assert l'[|l'| - 1] == b;
    }
  }

  /** Giving back at once what was just allocated panics exactly if the allocation used up the last block and was not
      the only one. */
  lemma FreeRightAway(l: seq<Block>, lo: nat, hi: nat, sz: nat)
    requires Ok(l, lo, hi) && Alloc(l, sz).Some?
    ensures var (iova, l') := Alloc(l, sz).value;
            Free(l', iova, sz).None? <==> ConsumesTop(l, sz) && |l| > 1
  {
    var k := FindFit(l, 0, sz);
    var (iova, l') := Alloc(l, sz).value;
    assert BlockOk(l[k], lo, hi);
    if l[k].sz != sz {
      assert l'[k].iova == iova + sz;
    } else if k < |l| - 1 {
      assert l'[k] == l[k + 1] && End(l[k]) <= l[k + 1].iova;
    } else {
      forall j | 0 <= j < |l'| ensures l'[j].iova < iova + sz {
        assert l'[j] == l[j] && BlockOk(l[j], lo, hi) && End(l[j]) <= l[k].iova;
      }
    }
  }

  /** With the top in place, freeing a range that is not free never panics and keeps the top. */
  lemma FreeWithTop(l: seq<Block>, lo: nat, hi: nat, iova: nat, sz: nat)
    requires Ok(l, lo, hi) && HasTop(l, hi) && 0 < sz && lo <= iova && iova + sz <= hi
    requires forall a: nat :: iova <= a < iova + sz ==> !IsFree(l, a)
    ensures Free(l, iova, sz).Some? && HasTop(Free(l, iova, sz).value, hi)
  {
    hide Ok, IsFree;
    var n := |l| - 1;
    OkSplit(l, n, lo, hi);
    Apart(l, n, iova, sz);
    var k := FindAbove(l, 0, iova + sz);
    var r := Free(l, iova, sz).value;
    if l[k].iova != iova + sz || k < n {
      assert r[|r| - 1] == l[n];
    }
  }
}
