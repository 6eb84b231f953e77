/** An IOVA domain: the free list with its owner's view of it (src/iova.c). */
module IovaDomain {
  import opened Arith
  import opened Iova

  lemma RequestPages(iova: nat, sz: nat)
    ensures Page(ReqIova(iova)) && Page(ReqSize(iova, sz)) && Page(Up16K(sz))
    ensures iova < 0x1_0000_0000_0000_0000 ==> ReqIova(iova) < 0x1_0000_0000_0000_0000
    ensures Up16K(sz) < 0x1_0000_0000_0000_0000 && ReqSize(iova, sz) < 0x1_0000_0000_0000_0000
  {
    var y := Wrap(sz + 0x3FFF);
    DivModIs(y - y % 0x4000, 0x4000, y / 0x4000, 0);
    DivModIs(Down16K(iova), 0x4000, iova / 0x4000, 0);
    var u := Up16K(sz);
    if u == 0 {
      WrapNegative(-0x4000);
      DivModIs(0x1_0000_0000_0000_0000 - 0x4000, 0x4000, 0x4_0000_0000_0000 - 1, 0);
    } else {
      NoWrap(u - 0x4000);
      PageSum(u - 0x4000, 0x4000);
    }
  }

  /** The range that a request covers: its start rounded down and its size rounded up to pages, without page 0. */
  lemma RequestIs(iova: nat, sz: nat)
    requires sz + 0x3FFF < 0x1_0000_0000_0000_0000 && (iova < 0x4000 ==> sz > 0)
    ensures var s, n := iova - iova % 0x4000, (sz + 0x3FFF) / 0x4000 * 0x4000;
            && Up16K(sz) == n && sz <= n < sz + 0x4000 && ReqIova(iova) == (if s == 0 then 0x4000 else s)
            && ReqIova(iova) + ReqSize(iova, sz) == s + n && (s == 0 ==> n >= 0x4000)
  {
    var s, n := iova - iova % 0x4000, (sz + 0x3FFF) / 0x4000 * 0x4000;
    NoWrap(sz + 0x3FFF);
    assert Up16K(sz) == n;
    if s == 0 {
      assert n >= 0x4000;
      NoWrap(n - 0x4000);
    }
  }

  lemma RoundedUp(sz: nat)
    requires sz + 0x3FFF < 0x1_0000_0000_0000_0000
    ensures Up16K(sz) == (sz + 0x3FFF) / 0x4000 * 0x4000
  {
    NoWrap(sz + 0x3FFF);
  }

  /** The first block with n bytes starts at iova. */
  ghost predicate FirstFit(l: seq<Block>, n: nat, iova: nat) {
    exists k :: 0 <= k < |l| && l[k].iova == iova && n <= l[k].sz && forall j :: 0 <= j < k ==> l[j].sz < n
  }

  lemma AllocIsFirstFit(l: seq<Block>, n: nat)
    ensures var r := Alloc(l, n);
            && (r.Some? <==> exists k :: 0 <= k < |l| && n <= l[k].sz)
            && (r.Some? ==> FirstFit(l, n, r.value.0))
            && (r.None? ==> forall iova: nat :: !FirstFit(l, n, iova))
  {
    hide Splice;
    var k := FindFit(l, 0, n);
    if k < |l| { assert l[k].iova == Alloc(l, n).value.0; }
  }

  /** A reservation stops short of the end of its block, so the page behind it is free. */
  lemma FreeBehind(l: seq<Block>, lo: nat, hi: nat, iova: nat, sz: nat, a: nat)
    requires Ok(l, lo, hi) && hi < 0x1_0000_0000_0000_0000 && Page(iova) && Page(sz) && 0 < sz
    requires iova + sz < 0x1_0000_0000_0000_0000 && Reserve(l, iova, sz).Some? && iova + sz <= a < iova + sz + 0x4000
    ensures IsFree(Reserve(l, iova, sz).value, a)
  {
    hide Reserve, Wrap;
    ReserveTakes(l, lo, hi, iova, sz);
    var k :| 0 <= k < |l| && Iova.Holds(l[k], iova) && iova + sz < End(l[k]);
    assert BlockOk(l[k], lo, hi);
    PageSum(l[k].iova, l[k].sz);
    PageSum(iova, sz);
    NextPageFits(iova + sz, End(l[k]));
    assert Iova.Holds(l[k], a);
  }

  lemma NextPageFits(x: nat, y: nat)
    requires Page(x) && Page(y) && x < y
    ensures x + 0x4000 <= y
  {
  }

  /** What a reservation does, said of the arguments.  It covers the requested range, page 0 aside, exactly if rounding
      the start down does not cost the end a page. */
  ghost predicate Reserved(l: seq<Block>, l': seq<Block>, ok: bool, iova: nat, sz: nat) {
    var s, n := iova - iova % 0x4000, (sz + 0x3FFF) / 0x4000 * 0x4000;
    && (forall a: nat :: IsFree(l', a) <==> IsFree(l, a) && !(ok && 0x4000 <= a && s <= a < s + n))
    && (ok <==>
          || (s == 0 && n == 0x4000) || n == 0
          || exists k :: 0 <= k < |l| && Iova.Holds(l[k], if s == 0 then 0x4000 else s) && s + n < End(l[k]))
    && (ok && s + n > 0x4000 && n > 0 ==>
          ((forall a: nat :: 0x4000 <= a && iova <= a < iova + sz ==> !IsFree(l', a)) <==> iova % 0x4000 + sz <= n))
  }

  lemma ReservedAll(l: seq<Block>, lo: nat, hi: nat, iova: nat, sz: nat, l': seq<Block>, ok: bool)
    requires Ok(l, lo, hi) && hi < 0x1_0000_0000_0000_0000 && sz + 0x3FFF < 0x1_0000_0000_0000_0000
    requires (iova < 0x4000 ==> sz > 0) && ReqIova(iova) + ReqSize(iova, sz) < 0x1_0000_0000_0000_0000
    requires ReqSize(iova, sz) == 0 ==> ok && l' == l
    requires ReqSize(iova, sz) > 0 ==>
               var r := Reserve(l, ReqIova(iova), ReqSize(iova, sz)); ok == r.Some? && l' == if ok then r.value else l
    ensures Reserved(l, l', ok, iova, sz)
  {
    hide Reserve, Ok, IsFree;
    var s, n := iova - iova % 0x4000, (sz + 0x3FFF) / 0x4000 * 0x4000;
    var q, m := ReqIova(iova), ReqSize(iova, sz);
    RequestIs(iova, sz);
    RequestPages(iova, sz);
    hide ReqIova, ReqSize, Up16K;
    if m > 0 {
      ReserveTakes(l, lo, hi, q, m);
      if ok {
        if iova % 0x4000 + sz <= n {
          forall a: nat | 0x4000 <= a && iova <= a < iova + sz ensures !IsFree(l', a) { }
        } else {
          FreeBehind(l, lo, hi, q, m, s + n);
          assert 0x4000 <= s + n && iova <= s + n < iova + sz;
        }
      }
    }
  }

  /** What is handed out and what is free fill the interval [lo, hi) without overlap. */
  ghost predicate Partition(l: seq<Block>, taken: iset<nat>, lo: nat, hi: nat) {
    && (forall a: nat :: a in taken ==> lo <= a < hi)
    && (forall a: nat :: lo <= a < hi ==> (a in taken <==> !IsFree(l, a)))
  }

  predicate Within(a: nat, iova: nat, sz: nat) { iova <= a < iova + sz }

  ghost function Range(iova: nat, sz: nat): iset<nat> { iset a: nat | Within(a, iova, sz) }

  /** Taking a free range, or giving a taken one back, keeps the partition. */
  lemma TakeKeeps(l: seq<Block>, l': seq<Block>, taken: iset<nat>, lo: nat, hi: nat, iova: nat, sz: nat)
    requires Partition(l, taken, lo, hi) && lo <= iova && iova + sz <= hi
    requires forall a: nat :: IsFree(l', a) <==> IsFree(l, a) && !(iova <= a < iova + sz)
    ensures Partition(l', taken + Range(iova, sz), lo, hi)
  {
    hide IsFree;
  }

  lemma NotTakenBefore(l: seq<Block>, taken: iset<nat>, lo: nat, hi: nat, iova: nat, sz: nat)
    requires Partition(l, taken, lo, hi) && forall a: nat :: iova <= a < iova + sz ==> IsFree(l, a)
    ensures taken !! Range(iova, sz)
  {
    hide IsFree;
  }

  lemma GiveKeeps(l: seq<Block>, l': seq<Block>, taken: iset<nat>, lo: nat, hi: nat, iova: nat, sz: nat)
    requires Partition(l, taken, lo, hi)
    requires forall a: nat :: IsFree(l', a) <==> IsFree(l, a) || iova <= a < iova + sz
    ensures Partition(l', taken - Range(iova, sz), lo, hi)
  {
    hide IsFree;
  }

  class Domain {
    const lo: nat
    const hi: nat
    var free: seq<Block>
    ghost var taken: iset<nat>

    ghost predicate Valid()
      reads this
    {
      hi < 0x1_0000_0000_0000_0000 && Ok(free, lo, hi) && Partition(free, taken, lo, hi)
    }

    /** iovad_init for a base that is a multiple of 32 MiB: one free block of limit - 16K bytes. */
    constructor (base: nat, limit: nat)
      requires base % 0x200_0000 == 0 && Page(limit) && 0x4000 < limit
      requires base + limit - 0x4000 < 0x1_0000_0000_0000_0000
      ensures Valid() && taken == iset{} && free == [Block(base, limit - 0x4000)] && HasTop(free, hi)
      ensures lo == base && hi == base + limit - 0x4000
    {
      lo := base;
      hi := base + limit - 0x4000;
      free := [Block(base, limit - 0x4000)];
      taken := iset{};
      new;
      Nested(base, 0x4000, 2048);
      PageSum(limit - 0x4000, 0x4000);
      OkOne(free[0], lo, hi);
      forall a: nat ensures IsFree(free, a) <==> lo <= a < hi { FreeOne(free[0], a); }
    }

    /** iovad_init: NULL for a base that is no multiple of 32 MiB. */
    static method Init(base: nat, limit: nat) returns (d: Domain?)
      requires Page(limit) && 0x4000 < limit && base + limit - 0x4000 < 0x1_0000_0000_0000_0000
      ensures d == null <==> base % 0x200_0000 != 0
      ensures d != null ==> fresh(d) && d.Valid() && d.taken == iset{} && d.lo == base && d.hi == base + limit - 0x4000
      ensures d != null ==> d.free == [Block(base, limit - 0x4000)] && HasTop(d.free, d.hi)
    {
      if base % 0x200_0000 != 0 { return null; }
      d := new Domain(base, limit);
    }

    /** iova_reserve */
    method IovaReserve(iova0: nat, sz0: nat) returns (ok: bool)
      requires Valid() && iova0 < 0x1_0000_0000_0000_0000 && sz0 < 0x1_0000_0000_0000_0000
      modifies this
      ensures ReqSize(iova0, sz0) == 0 ==> ok && free == old(free) && taken == old(taken)
      ensures ReqSize(iova0, sz0) > 0 ==>
                var r := Reserve(old(free), ReqIova(iova0), ReqSize(iova0, sz0));
                ok == r.Some? && free == if ok then r.value else old(free)
      ensures ReqIova(iova0) + ReqSize(iova0, sz0) < 0x1_0000_0000_0000_0000 ==>
                && Valid() && (old(HasTop(free, hi)) ==> HasTop(free, hi))
                && taken == if ok then old(taken) + Range(ReqIova(iova0), ReqSize(iova0, sz0)) else old(taken)
      ensures (iova0 < 0x4000 ==> sz0 > 0) && iova0 + sz0 + 0x8000 < 0x1_0000_0000_0000_0000 ==>
                Reserved(old(free), free, ok, iova0, sz0)
    {
      hide IsFree, Ok, Partition, FindHolder, Page, Wrap, Down16K, Up16K;
      var iova: nat, sz: int := Down16K(iova0), Up16K(sz0);
      if iova == 0 {
        iova := 0x4000;
        sz := Wrap(sz - 0x4000);
      }
      RequestPages(iova0, sz0);
      ghost var plain := (iova0 < 0x4000 ==> sz0 > 0) && iova0 + sz0 + 0x8000 < 0x1_0000_0000_0000_0000;
      if plain { RequestIs(iova0, sz0); }
      if sz == 0 {
        if plain { ReservedAll(free, lo, hi, iova0, sz0, free, true); }
        assert old(taken) + Range(iova, 0) == old(taken);
        return true;
      }
      ok := ReserveLoop(iova, sz);
      if plain { ReservedAll(old(free), lo, hi, iova0, sz0, free, ok); }
      if ok && iova + sz < 0x1_0000_0000_0000_0000 {
        ReserveTakes(old(free), lo, hi, iova, sz);
        ReservedInside(old(free), lo, hi, iova, sz);
        TakeKeeps(old(free), free, taken, lo, hi, iova, sz);
        taken := taken + Range(iova, sz);
        if old(HasTop(free, hi)) {
          ReserveKeepsTop(old(free), lo, hi, iova, sz);
        }
      }
    }

    /** The loop of iova_reserve.  Two of its cases cannot be reached, because a range that touches the
        end of the block was refused before. */
    method ReserveLoop(iova: nat, sz: nat) returns (ok: bool)
      requires Valid() && 0 < sz < 0x1_0000_0000_0000_0000 && iova < 0x1_0000_0000_0000_0000
      modifies this`free
      ensures var r := Reserve(old(free), iova, sz);
              ok == r.Some? && free == if ok then r.value else old(free)
    {
      hide IsFree, Partition, Wrap;
      var i := 0;
      while i < |free|
        invariant i <= |free| && free == old(free)
        invariant FindHolder(free, 0, iova) == FindHolder(free, i, iova)
      {
        var blk := free[i];
        assert BlockOk(blk, lo, hi);
        if iova >= blk.iova && iova < blk.iova + blk.sz {
          var e := Wrap(iova + sz);
          if e >= blk.iova + blk.sz {
            return false;
          }
          assert iova + sz != blk.iova + blk.sz by { if iova + sz == End(blk) { NoWrap(iova + sz); } }
          if iova == blk.iova && sz == blk.sz {
            assert false;
          } else if iova == blk.iova {
            free := free[i := Block(e, Wrap(blk.sz - sz))];
            assert free == Splice(old(free), i, i + 1, [Block(e, Wrap(blk.sz - sz))]);
            return true;
          } else if e == blk.iova + blk.sz {
            assert false;
          } else {
            var blkNew := Block(e, Wrap(blk.iova + blk.sz - e));
            free := free[..i] + [Block(blk.iova, iova - blk.iova), blkNew] + free[i + 1..];
            return true;
          }
        }
        i := i + 1;
      }
      return false;
    }

    /** iova_alloc */
    method IovaAlloc(sz0: nat) returns (iova: nat)
      requires Valid() && sz0 < 0x1_0000_0000_0000_0000
      modifies this
      ensures Valid()
      ensures var r := Alloc(old(free), Up16K(sz0));
              if r.None? then iova == 0 && free == old(free) && taken == old(taken)
              else
                && iova == r.value.0 && free == r.value.1 && taken == old(taken) + Range(iova, Up16K(sz0))
                && Page(iova) && lo <= iova && iova + Up16K(sz0) <= hi && old(taken) !! Range(iova, Up16K(sz0))
      ensures old(HasTop(free, hi)) ==> (HasTop(free, hi) <==> !old(ConsumesTop(free, Up16K(sz0))))
      ensures sz0 + 0x3FFF < 0x1_0000_0000_0000_0000 ==>
                var n := (sz0 + 0x3FFF) / 0x4000 * 0x4000;
                && (FirstFit(old(free), n, iova) ==> taken == old(taken) + Range(iova, n))
                && (!FirstFit(old(free), n, iova) ==> iova == 0 && free == old(free) && taken == old(taken))
                && (FirstFit(old(free), n, iova) <==> exists k :: 0 <= k < |old(free)| && n <= old(free)[k].sz)
    {
      hide IsFree, Ok, Partition, Page, Up16K, Splice, FindFit, FirstFit, Alloc;
      var sz := Up16K(sz0);
      RequestPages(0, sz0);
      if sz0 + 0x3FFF < 0x1_0000_0000_0000_0000 { RoundedUp(sz0); }
      AllocIsFirstFit(free, sz);
      AllocTakes(free, lo, hi, sz);
      ghost var r := Alloc(free, sz);
      if HasTop(free, hi) && r.Some? { AllocKeepsTop(free, lo, hi, sz); }
      if r.None? { NoFit(free, sz); }
      iova := AllocLoop(sz);
      if r.Some? {
        TakeKeeps(old(free), free, taken, lo, hi, iova, sz);
        NotTakenBefore(old(free), taken, lo, hi, iova, sz);
        taken := taken + Range(iova, sz);
      }
    }

    method AllocLoop(sz: nat) returns (iova: nat)
      modifies this`free
      ensures var r := Alloc(old(free), sz);
              if r.None? then iova == 0 && free == old(free) else (iova, free) == r.value
    {
      var i := 0;
      while i < |free|
        invariant i <= |free| && free == old(free)
        invariant FindFit(free, 0, sz) == FindFit(free, i, sz)
      {
        var blk := free[i];
        if blk.sz == sz {
          iova := blk.iova;
          free := free[..i] + free[i + 1..];
          assert free == Splice(old(free), i, i + 1, []);
          return;
        } else if blk.sz > sz {
          iova := blk.iova;
          free := free[i := Block(blk.iova + sz, blk.sz - sz)];
          assert free == Splice(old(free), i, i + 1, [Block(blk.iova + sz, blk.sz - sz)]);
          return;
        }
        i := i + 1;
      }
      return 0;
    }

    /** iova_free of a range that was handed out; the result says whether the panic was reached.  Freeing 0 bytes spoils
        the list unless a free block starts at the address. */
    method IovaFree(iova: nat, sz0: nat) returns (panicked: bool)
      requires Valid() && sz0 < 0x1_0000_0000_0000_0000 && Page(iova)
      requires Range(iova, Up16K(sz0)) <= taken
      modifies this
      ensures var r := Free(old(free), iova, Up16K(sz0));
              && panicked == r.None?
              && free == if panicked then old(free) else r.value
      ensures panicked <==> old(free) != [] &&
                            forall j :: 0 <= j < |old(free)| ==> old(free)[j].iova < iova + Up16K(sz0)
      ensures Valid() <==>
              Up16K(sz0) > 0 || panicked || exists k :: 0 <= k < |old(free)| && old(free)[k].iova == iova
      ensures taken == if panicked then old(taken) else old(taken) - Range(iova, Up16K(sz0))
      ensures old(HasTop(free, hi)) && Up16K(sz0) > 0 ==> !panicked && HasTop(free, hi)
      ensures sz0 + 0x3FFF < 0x1_0000_0000_0000_0000 ==>
                var n := (sz0 + 0x3FFF) / 0x4000 * 0x4000;
                && (panicked <==> old(free) != [] && forall j :: 0 <= j < |old(free)| ==> old(free)[j].iova < iova + n)
                && taken == if panicked then old(taken) else old(taken) - Range(iova, n)
    {
      hide IsFree, Ok, Page, Up16K, Partition, Splice, FindAbove;
      var sz := Up16K(sz0);
      RequestPages(0, sz0);
      if sz0 + 0x3FFF < 0x1_0000_0000_0000_0000 { RoundedUp(sz0); }
      if sz == 0 {
        if Free(free, iova, 0).Some? { FreeNothing(free, lo, hi, iova); }
        if k :| 0 <= k < |free| && free[k].iova == iova { FreeNothingSame(free, lo, hi, iova, k); }
        FreePanics(free, iova, 0);
      } else {
        TakenInside(iova, sz);
        FreeAdds(free, lo, hi, iova, sz);
        if HasTop(free, hi) {
          FreeWithTop(free, lo, hi, iova, sz);
        }
      }
      panicked := FreeLoop(iova, sz);
      if !panicked {
        if Ok(free, lo, hi) { GiveKeeps(old(free), free, taken, lo, hi, iova, sz); }
        taken := taken - Range(iova, sz);
      }
    }

    lemma TakenInside(iova: nat, sz: nat)
      requires Valid() && 0 < sz && Range(iova, sz) <= taken
      ensures lo <= iova && iova + sz <= hi
      ensures forall a: nat :: iova <= a < iova + sz ==> !IsFree(free, a)
    {
      hide IsFree;
      assert iova in Range(iova, sz) && iova + sz - 1 in Range(iova, sz);
      forall a: nat | iova <= a < iova + sz ensures !IsFree(free, a) {
        assert a in Range(iova, sz);
      }
    }

    method FreeLoop(iova: nat, sz: nat) returns (panicked: bool)
      modifies this`free
      ensures var r := Free(old(free), iova, sz);
              && panicked == r.None?
              && free == if panicked then old(free) else r.value
    {
      if free == [] {
        free := [Block(iova, sz)];
        return false;
      }
      var i := 0;
      while i < |free|
        invariant i <= |free| && free == old(free)
        invariant FindAbove(free, 0, iova + sz) == FindAbove(free, i, iova + sz)
      {
        var blk := free[i];
        if iova + sz == blk.iova {
          // extend the block at the beginning, then merge it with its predecessor if they touch
          var extended := Block(blk.iova - sz, blk.sz + sz);
          if i == 0 {
            free := free[i := extended];
            assert free == Splice(old(free), 0, 1, [extended]);
            return false;
          }
          var prev := free[i - 1];
          if prev.iova + prev.sz == extended.iova {
            free := free[..i - 1] + [Block(prev.iova, prev.sz + extended.sz)] + free[i + 1..];
          } else {
            free := free[i := extended];
            assert free == Splice(old(free), i, i + 1, [extended]);
          }
          return false;
        } else if iova + sz < blk.iova {
          free := free[..i] + [Block(iova, sz)] + free[i..];
          return false;
        }
        i := i + 1;
      }
      return true;
    }

    /** Any sequence of requests in which only allocated ranges are freed and no reservation reaches 2^64: free and
        allocated pages stay a partition of the domain, and unless an allocation uses up the topmost block no free
        panics. */
    method Run(requests: seq<Request>) returns (panicked: bool)
      requires Valid() && Allowed(free, taken, requests)
      modifies this
      ensures Valid()
      ensures old(HasTop(free, hi)) && LeavesTop(old(free), requests) ==> !panicked && HasTop(free, hi)
      ensures panicked <==> Panics(old(free), requests)
      ensures !panicked ==> free == FreeAfter(old(free), requests)
    {
      hide Ok, Partition, IsFree, HasTop, ConsumesTop, Page, Up16K, ReqIova, ReqSize, Next, NextTaken, FreePanic;
      var i := 0;
      assert requests[0..] == requests;
      while i < |requests|
        invariant i <= |requests| && Valid() && Allowed(free, taken, requests[i..])
        invariant old(HasTop(free, hi)) && LeavesTop(old(free), requests) ==>
                    HasTop(free, hi) && LeavesTop(free, requests[i..])
        invariant FreeAfter(free, requests[i..]) == FreeAfter(old(free), requests)
        invariant Panics(free, requests[i..]) <==> Panics(old(free), requests)
      {
        var q := requests[i];
        assert requests[i..][0] == q && requests[i..][1..] == requests[i + 1..];
        panicked := Serve(q);
        if panicked { return; }
        i := i + 1;
      }
      panicked := false;
    }

    method Serve(q: Request) returns (panicked: bool)
      requires Valid() && Legal(free, taken, q)
      modifies this
      ensures Valid()
      ensures panicked <==> FreePanic(old(free), q)
      ensures !panicked ==> free == Next(old(free), q) && taken == NextTaken(old(free), old(taken), q)
      ensures old(HasTop(free, hi)) && !(q.ToAlloc? && old(ConsumesTop(free, Up16K(q.sz)))) ==>
                !panicked && HasTop(free, hi)
    {
      hide Ok, Partition, IsFree, HasTop, ConsumesTop, Page, Up16K, ReqIova, ReqSize, Reserve, Alloc, Free;
      panicked := false;
      match q
      case ToReserve(iova, sz) => var ok := IovaReserve(iova, sz);
      case ToAlloc(sz) => var iova := IovaAlloc(sz);
      case ToFree(iova, sz) => panicked := IovaFree(iova, sz);
    }
  }

  // ---- Runs ----

  datatype Request = ToReserve(iova: nat, sz: nat) | ToAlloc(sz: nat) | ToFree(iova: nat, sz: nat)

  /** The requests that a client may make in a state: ranges that are freed were handed out, and 64-bit sums do not
      wrap. */
  ghost predicate Legal(l: seq<Block>, taken: iset<nat>, q: Request) {
    && q.sz < 0x1_0000_0000_0000_0000
    && match q
       case ToReserve(iova, sz) =>
         iova < 0x1_0000_0000_0000_0000 && ReqIova(iova) + ReqSize(iova, sz) < 0x1_0000_0000_0000_0000
       case ToAlloc(_) => true
       case ToFree(iova, sz) => Page(iova) && 0 < Up16K(sz) && Range(iova, Up16K(sz)) <= taken
  }

  /** The free list after a request that does not panic. */
  function Next(l: seq<Block>, q: Request): seq<Block> {
    match q
    case ToReserve(iova, sz) =>
      if ReqSize(iova, sz) == 0 then l
      else
        var r := Reserve(l, ReqIova(iova), ReqSize(iova, sz));
        if r.Some? then r.value else l
    case ToAlloc(sz) =>
      var r := Alloc(l, Up16K(sz));
      if r.Some? then r.value.1 else l
    case ToFree(iova, sz) =>
      var r := Free(l, iova, Up16K(sz));
      if r.Some? then r.value else l
  }

  ghost function NextTaken(l: seq<Block>, taken: iset<nat>, q: Request): iset<nat> {
    match q
    case ToReserve(iova, sz) =>
      if ReqSize(iova, sz) == 0 || Reserve(l, ReqIova(iova), ReqSize(iova, sz)).None? then taken
      else taken + Range(ReqIova(iova), ReqSize(iova, sz))
    case ToAlloc(sz) =>
      var r := Alloc(l, Up16K(sz));
      if r.None? then taken else taken + Range(r.value.0, Up16K(sz))
    case ToFree(iova, sz) => taken - Range(iova, Up16K(sz))
  }

  ghost predicate Allowed(l: seq<Block>, taken: iset<nat>, requests: seq<Request>)
    decreases |requests|
  {
    requests == [] ||
    (Legal(l, taken, requests[0]) && Allowed(Next(l, requests[0]), NextTaken(l, taken, requests[0]), requests[1..]))
  }

  /** No allocation uses up the last block. */
  predicate LeavesTop(l: seq<Block>, requests: seq<Request>)
    decreases |requests|
  {
    requests == [] ||
    (&& !(requests[0].ToAlloc? && ConsumesTop(l, Up16K(requests[0].sz)))
     && LeavesTop(Next(l, requests[0]), requests[1..]))
  }

  predicate FreePanic(l: seq<Block>, q: Request) { q.ToFree? && Free(l, q.iova, Up16K(q.sz)).None? }

  /** Some free of the sequence panics. */
  predicate Panics(l: seq<Block>, requests: seq<Request>)
    decreases |requests|
  {
    requests != [] && (FreePanic(l, requests[0]) || Panics(Next(l, requests[0]), requests[1..]))
  }

  function FreeAfter(l: seq<Block>, requests: seq<Request>): seq<Block>
    decreases |requests|
  {
    if requests == [] then l else FreeAfter(Next(l, requests[0]), requests[1..])
  }

  lemma NoFit(l: seq<Block>, sz: nat)
    requires Alloc(l, sz).None?
    ensures !ConsumesTop(l, sz)
  {
  }

  lemma FreePanics(l: seq<Block>, iova: nat, sz: nat)
    ensures Free(l, iova, sz).None? <==> l != [] && forall j :: 0 <= j < |l| ==> l[j].iova < iova + sz
  {
    hide Splice;
    if l != [] { var k := FindAbove(l, 0, iova + sz); }
  }

  lemma ReservedInside(l: seq<Block>, lo: nat, hi: nat, iova: nat, sz: nat)
    requires Ok(l, lo, hi) && Reserve(l, iova, sz).Some? && iova + sz < 0x1_0000_0000_0000_0000
    ensures lo <= iova && iova + sz <= hi
  {
    hide Wrap;
    NoWrap(iova + sz);
    assert BlockOk(l[FindHolder(l, 0, iova)], lo, hi);
  }

  /** The lists of the run below: one page, then all the rest is allocated, and both are freed in this order. */
  lemma PanicLists(base: nat, n: nat, next: nat, rest: nat)
    requires 0 < n && 0 < rest && next == base + n
    ensures Alloc([Block(base, n + rest)], n) == Some((base, [Block(next, rest)]))
    ensures Alloc([Block(next, rest)], rest) == Some((next, []))
    ensures Free([], base, n) == Some([Block(base, n)]) && Free([Block(base, n)], next, rest).None?
  {
    var l, l1 := [Block(base, n + rest)], [Block(next, rest)];
    assert Splice(l, 0, 1, l1) == l1 && Splice(l1, 0, 1, []) == [];
    hide Splice;
    assert FindAbove([Block(base, n)], 0, base + n + rest) == 1;
  }

  /** A new domain of two pages or more panics after two allocations that leave nothing, when they are freed in their
      order. */
  method PanicsFromNew(base: nat, limit: nat) returns (d: Domain, panicked: bool)
    requires base % 0x200_0000 == 0 && Page(limit) && 0xC000 <= limit
    requires base + limit - 0x4000 < 0x1_0000_0000_0000_0000
    ensures d.Valid() && panicked
  {
    hide Ok, Partition, IsFree, HasTop, ConsumesTop, Alloc, Free, Up16K;
    var n, rest := 0x4000, limit - 0x8000;
    PageSum(rest, 0x8000);
    Up16KOfPage(n);
    Up16KOfPage(rest);
    PanicLists(base, n, base + n, rest);
    d := new Domain(base, limit);
    var a := d.IovaAlloc(n);
    var b := d.IovaAlloc(rest);
    assert Range(a, n) <= d.taken && Range(b, rest) <= d.taken - Range(a, n);
    panicked := d.IovaFree(a, n);
    panicked := d.IovaFree(b, rest);
  }

  /** Two bytes on both sides of a page boundary are reserved, and the second stays free. */
  method ReserveMisses() returns (d: Domain, ok: bool)
    ensures d.Valid() && ok && IsFree(d.free, 0x200_8000)
  {
    hide Ok, Partition, HasTop, ConsumesTop, Reserve, Range;
    d := new Domain(0x200_0000, 0x2_0000);
    var b := d.free[0];
    assert b == Block(0x200_0000, 0x1_C000) && Iova.Holds(b, 0x200_4000) && Iova.Holds(b, 0x200_8000);
    ghost var l := d.free;
    ok := d.IovaReserve(0x200_7FFF, 2);
    assert IsFree(l, 0x200_8000);
  }
}
