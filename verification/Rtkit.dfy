/** Buffers shared with a coprocessor: an IOVA allocator and a DART kept in step (src/rtkit.c, the
    branch with a DART). */
module Rtkit {
  import opened Arith
  import opened Bits
  import Iova
  import opened IovaDomain
  import opened Dart
  import opened DartDevice

  class RtkitDev {
    const dart: DartDev
    const iovad: Domain
    const dvaBase: nat
    const pteFlags: nat

    constructor (dart: DartDev, iovad: Domain, dvaBase: nat, pteFlags: nat)
      ensures this.dart == dart && this.iovad == iovad && this.dvaBase == dvaBase && this.pteFlags == pteFlags
    {
      this.dart := dart;
      this.iovad := iovad;
      this.dvaBase := dvaBase;
      this.pteFlags := pteFlags;
    }

    ghost predicate Valid()
      reads this, dart, iovad
    {
      && dart.Valid() && iovad.Valid() && FlagsOk(dart.wide, pteFlags)
      && iovad.hi <= 0x10_0000_0000
    }

    /** The allocated pages of the domain are the mapped ones. */
    ghost predicate Agree()
      reads this, dart, iovad
    {
      forall p: nat :: iovad.lo <= p * 0x4000 < iovad.hi ==> (p * 0x4000 in iovad.taken <==> IsValid(dart.E(p)))
    }

    /** The allocator would hand out address 0, which rtkit_map takes for a failure. */
    ghost predicate HandsOutZero(sz: nat)
      reads iovad
    {
      iovad.free != [] && iovad.free[0].iova == 0 && sz <= iovad.free[0].sz
    }

    ghost predicate Fits(sz: nat)
      reads iovad
    {
      exists j :: 0 <= j < |iovad.free| && sz <= iovad.free[j].sz
    }

    /** The range would be the whole of the last free block, with other blocks below: nothing is left above it. */
    ghost predicate TakesTop(sz: nat)
      reads iovad
    {
      |iovad.free| > 1 && Iova.ConsumesTop(iovad.free, sz)
    }

    /** rtkit_map.  On success the buffer is visible at the allocated address, on failure allocator and
        DART are as before, unless the allocated address was 0: then the range is lost.  A failed dart_map gives the
        range back, which panics exactly if no free block is left above it.  A call fails for want of addresses, for a
        misaligned buffer, for address 0, or because a table could not be allocated. */
    method Map(phys: nat, sz0: nat) returns (ok: bool, panicked: bool, dva: nat)
      requires Valid() && Agree() && sz0 < 0x1_0000_0000_0000_0000
      requires Iova.Up16K(sz0) > 0 ==> Representable(dart.wide, phys + Iova.Up16K(sz0) - 1)
      modifies dart, iovad
      ensures Valid() && !(ok && panicked)
      ensures !panicked ==> (Agree() <==> !(old(HandsOutZero(Iova.Up16K(sz0))) && Iova.Up16K(sz0) > 0))
      ensures panicked ==> old(TakesTop(Iova.Up16K(sz0)))
      ensures dart.failures == old(dart.failures) ==>
                (panicked <==> phys % 0x4000 != 0 && old(TakesTop(Iova.Up16K(sz0))))
      ensures !panicked && dart.failures == old(dart.failures) ==>
                (ok <==> phys % 0x4000 == 0 && old(Fits(Iova.Up16K(sz0))) && !old(HandsOutZero(Iova.Up16K(sz0))))
      ensures ok ==>
                var r := Iova.Alloc(old(iovad.free), Iova.Up16K(sz0));
                && r.Some? && iovad.free == r.value.1
                && var iova := r.value.0;
                   && iovad.lo <= iova && iova + Iova.Up16K(sz0) <= iovad.hi && dva == BitOr(iova, dvaBase)
                   && Iova.Page(iova)
                   && iovad.taken == old(iovad.taken) + Range(iova, Iova.Up16K(sz0))
                   && old(iovad.taken) !! Range(iova, Iova.Up16K(sz0))
                   && (forall x: nat :: iova <= x < iova + Iova.Up16K(sz0) ==> dart.TranslateAt(x) == phys + (x - iova))
                   && (forall p: nat :: !InPages(p, iova, Iova.Up16K(sz0)) ==> dart.E(p) == old(dart.E(p)))
      ensures ok ==>
                var iova := Iova.Alloc(old(iovad.free), Iova.Up16K(sz0)).value.0;
                && (BitAnd(iova, dvaBase) == 0 ==> dva == iova + dvaBase)
                && forall p: nat :: InPages(p, iova, Iova.Up16K(sz0)) ==>
                     && dart.E(p) ==
                          (phys + (p * 0x4000 - iova)) / 0x4000 * (if dart.wide then 0x400 else 0x4000) + pteFlags
                     && dart.E(p) / 0x100_0000_0000 == pteFlags / 0x100_0000_0000
                     && (dart.wide ==> dart.E(p) % 0x400 == pteFlags % 0x400)
                     && (!dart.wide ==> dart.E(p) % 0x4000 == pteFlags % 0x4000)
      ensures !ok && !panicked && !old(HandsOutZero(Iova.Up16K(sz0))) ==>
                iovad.taken == old(iovad.taken) && forall p: nat :: dart.V(p) == old(dart.V(p))
    {
      hide Iova.Up16K, Iova.Page, Representable, FlagsOk, IsValid, Iova.Alloc, Iova.Free, Iova.ConsumesTop;
      hide Iova.Ok, Partition, Linked, Entry;
      var sz := Iova.Up16K(sz0);
      RequestPages(0, sz0);
      Iova.Up16KOfPage(sz);
      Iova.AllocNothing(iovad.free, iovad.lo, iovad.hi);
      ghost var r := Iova.Alloc(iovad.free, sz);
      AllocFacts(sz);
      PanicFacts(sz);
      var iova := iovad.IovaAlloc(sz);
      if iova == 0 {
        if r.Some? { LosesZero(sz, old(iovad.taken)); }
        return false, false, 0;
      }
      NotMapped(iova, sz, old(iovad.taken));
      var ret := MapAt(iova, phys, sz);
      if !ret {
        panicked := GiveBack(iova, sz, old(iovad.taken));
        return false, panicked, 0;
      }
      if BitAnd(iova, dvaBase) == 0 { DisjointSum(iova, dvaBase); }
      return true, false, BitOr(iova, dvaBase);
    }

    /** Undoes an allocation. */
    method GiveBack(iova: nat, sz: nat, ghost taken: iset<nat>) returns (panicked: bool)
      requires iovad.Valid() && Iova.Page(iova) && Iova.Page(sz) && sz < 0x1_0000_0000_0000_0000
      requires sz == 0 ==> iovad.free != [] && iovad.free[0].iova == iova
      requires iovad.taken == taken + Range(iova, sz) && taken !! Range(iova, sz)
      modifies iovad
      ensures iovad.Valid() && panicked == Iova.Free(old(iovad.free), iova, sz).None?
      ensures !panicked ==> iovad.taken == taken
    {
      hide Iova.Up16K, Iova.Free;
      Iova.Up16KOfPage(sz);
      panicked := iovad.IovaFree(iova, sz);
      assert (taken + Range(iova, sz)) - Range(iova, sz) == taken;
    }

    /** dart_map of an allocated range. */
    method MapAt(iova: nat, phys: nat, sz: nat) returns (ok: bool)
      requires dart.Valid() && FlagsOk(dart.wide, pteFlags) && iova + sz <= 0x10_0000_0000
      requires Iova.Page(iova) && Iova.Page(sz) && (sz > 0 ==> Representable(dart.wide, phys + sz - 1))
      requires forall p: nat :: InPages(p, iova, sz) ==> !IsValid(dart.E(p))
      modifies dart
      ensures dart.Valid() && (ok ==> phys % 0x4000 == 0)
      ensures dart.failures == old(dart.failures) ==> (ok <==> phys % 0x4000 == 0)
      ensures ok ==> forall x: nat :: iova <= x < iova + sz ==> dart.TranslateAt(x) == phys + (x - iova)
      ensures ok ==> forall p: nat :: InPages(p, iova, sz) ==> IsValid(dart.E(p))
      ensures ok ==> forall p: nat :: InPages(p, iova, sz) ==>
                && dart.E(p) == (phys + (p * 0x4000 - iova)) / 0x4000 * (if dart.wide then 0x400 else 0x4000) + pteFlags
                && dart.E(p) / 0x100_0000_0000 == pteFlags / 0x100_0000_0000
                && (dart.wide ==> dart.E(p) % 0x400 == pteFlags % 0x400)
                && (!dart.wide ==> dart.E(p) % 0x4000 == pteFlags % 0x4000)
      ensures ok ==> forall p: nat :: !InPages(p, iova, sz) ==> dart.E(p) == old(dart.E(p))
      ensures !ok ==> forall p: nat :: dart.V(p) == old(dart.V(p)) && IsValid(dart.E(p)) == old(IsValid(dart.E(p)))
    {
      hide IsValid, Representable, FlagsOk;
      forall p: nat { dart.ValidOfV(p); }
      ok := dart.MapFlags(iova, phys, sz, pteFlags);
      forall p: nat ensures dart.V(p) == old(dart.V(p)) ==> IsValid(dart.E(p)) == old(IsValid(dart.E(p))) {
        dart.ValidOfV(p);
      }
    }

    lemma AllocFacts(sz: nat)
      requires Valid() && Iova.Page(sz)
      ensures var r := Iova.Alloc(iovad.free, sz);
              && (r.Some? <==> Fits(sz)) && (r.Some? && r.value.0 == 0 <==> HandsOutZero(sz))
    {
      Iova.AllocZero(iovad.free, iovad.lo, iovad.hi, sz);
      Iova.AllocTakes(iovad.free, iovad.lo, iovad.hi, sz);
    }

    /** The pages of a range that was free before are not mapped. */
    lemma NotMapped(iova: nat, sz: nat, taken: iset<nat>)
      requires iovad.taken == taken + Range(iova, sz) && taken !! Range(iova, sz)
      requires iovad.lo <= iova && iova + sz <= iovad.hi
      requires forall p: nat :: iovad.lo <= p * 0x4000 < iovad.hi ==> (p * 0x4000 in taken <==> IsValid(dart.E(p)))
      ensures forall p: nat :: InPages(p, iova, sz) ==> !IsValid(dart.E(p))
      ensures forall p: nat :: p * 0x4000 in Range(iova, sz) <==> InPages(p, iova, sz)
    {
      hide IsValid;
      forall p: nat | InPages(p, iova, sz) ensures !IsValid(dart.E(p)) {
        assert p * 0x4000 in Range(iova, sz);
      }
    }

    /** After address 0 was handed out and taken for a failure, the allocator and the DART disagree about it. */
    lemma LosesZero(sz: nat, taken: iset<nat>)
      requires iovad.taken == taken + Range(0, sz) && taken !! Range(0, sz) && iovad.lo == 0 && sz <= iovad.hi
      requires forall p: nat :: 0 <= p * 0x4000 < iovad.hi ==> (p * 0x4000 in taken <==> IsValid(dart.E(p)))
      ensures Agree() <==> sz == 0
    {
      hide IsValid;
      if sz > 0 {
        assert 0 * 0x4000 in Range(0, sz);
      } else {
        assert taken + Range(0, sz) == taken;
      }
    }

    /** rtkit_unmap of a buffer that was mapped at iova.  The size must be the mapped size, in whole pages
        or not: dart_unmap ignores a size that is no multiple of 16 KiB, while the allocator
        rounds it up, so the two agree afterwards exactly for multiples of 16 KiB. */
    method Unmap(dva: nat, sz: nat, ghost iova: nat) returns (panicked: bool)
      requires Valid() && Agree() && 0 < sz < 0x1_0000_0000_0000_0000
      requires Iova.Page(iova) && iova < 0x10_0000_0000 && BitAnd(iova, dvaBase) == 0 && dva == BitOr(iova, dvaBase)
      requires 0 < Iova.Up16K(sz) && Range(iova, Iova.Up16K(sz)) <= iovad.taken
      modifies dart, iovad
      ensures Valid()
      ensures panicked <==> old(iovad.free) != [] &&
                            forall j :: 0 <= j < |old(iovad.free)| ==> old(iovad.free)[j].iova < iova + Iova.Up16K(sz)
      ensures !panicked ==> iovad.taken == old(iovad.taken) - Range(iova, Iova.Up16K(sz))
      ensures !panicked ==> (Agree() <==> sz % 0x4000 == 0)
      ensures dart.failures == old(dart.failures)
      ensures sz % 0x4000 == 0 ==>
                forall p: nat :: dart.E(p) == if InPages(p, iova, sz) then 0 else old(dart.E(p))
    {
      hide Iova.Up16K, Iova.Page, FlagsOk, IsValid, Iova.Free, BitOr, BitAnd, BitClear, InPages, Cleared, Range, Entry;
      SetAndClear(iova, dvaBase);
      ghost var e := (p: nat) => Entry(old(dart.l1), old(dart.mem), p);
      ghost var taken := iovad.taken;
      var dva1 := BitClear(dva, dvaBase);
      var a := dva1 % 0x10_0000_0000;
      assert a == iova by { DivModIs(iova, 0x10_0000_0000, 0, iova); }
      UnmapBounds(iova, sz);
      dart.Unmap(a, sz);
      panicked := iovad.IovaFree(a, sz);
      if !panicked {
        if sz % 0x4000 == 0 {
          BothGone(e, taken, iova, sz);
        } else {
          OnlyFreed(taken, iova, Iova.Up16K(sz));
        }
      }
    }

    /** Clearing the pages of a range and giving it back keeps the agreement. */
    lemma BothGone(e: nat -> nat, taken: iset<nat>, iova: nat, sz: nat)
      requires forall p: nat :: iovad.lo <= p * 0x4000 < iovad.hi ==> (p * 0x4000 in taken <==> IsValid(e(p)))
      requires forall p: nat :: dart.E(p) == if InPages(p, iova, sz) then 0 else e(p)
      requires iovad.taken == taken - Range(iova, sz)
      ensures Agree()
    {
      hide IsValid, Entry;
      NothingValid();
      forall p: nat ensures p * 0x4000 in Range(iova, sz) <==> InPages(p, iova, sz) { }
    }

    /** Giving a mapped range back without clearing its pages breaks it. */
    lemma OnlyFreed(taken: iset<nat>, iova: nat, sz: nat)
      requires forall p: nat :: iovad.lo <= p * 0x4000 < iovad.hi ==> (p * 0x4000 in taken <==> IsValid(dart.E(p)))
      requires iova % 0x4000 == 0 && 0 < sz && Range(iova, sz) <= taken && iovad.lo <= iova < iovad.hi
      requires iovad.taken == taken - Range(iova, sz)
      ensures !Agree()
    {
      hide IsValid, Entry;
      var p := iova / 0x4000;
      assert p * 0x4000 == iova && iova in Range(iova, sz);
      assert IsValid(dart.E(p)) && p * 0x4000 !in iovad.taken;
    }

    /** Mapping a buffer of whole pages and unmapping it again restores the allocator and every
        translation, unless the range cannot be given back. */
    method MapUnmap(phys: nat, sz: nat) returns (ok: bool, panicked: bool)
      requires Valid() && Agree() && 0 < sz < 0x1_0000_0000_0000_0000 && sz % 0x4000 == 0
      requires Representable(dart.wide, phys + sz - 1)
      requires forall a: nat :: iovad.lo <= a < iovad.hi ==> BitAnd(a, dvaBase) == 0
      requires !HandsOutZero(sz)
      modifies dart, iovad
      ensures Valid()
      ensures !panicked && dart.failures == old(dart.failures) ==> (ok <==> phys % 0x4000 == 0 && old(Fits(sz)))
      ensures panicked ==> old(TakesTop(sz))
      ensures dart.failures == old(dart.failures) ==> (panicked <==> old(TakesTop(sz)))
      ensures !panicked ==> Agree() && iovad.taken == old(iovad.taken) && forall p: nat :: dart.V(p) == old(dart.V(p))
    {
      hide Iova.Up16K, Iova.Page, FlagsOk, IsValid, BitOr, BitAnd, Representable, Iova.Alloc, Iova.Free,
        Iova.ConsumesTop;
      MultipleIsPage(sz);
      ghost var r := Iova.Alloc(iovad.free, sz);
      PanicFacts(sz);
      AllocFacts(sz);
      var dva;
      ok, panicked, dva := Map(phys, sz);
      if ok {
        ghost var iova := r.value.0;
        panicked := Unmap(dva, sz, iova);
        assert (old(iovad.taken) + Range(iova, sz)) - Range(iova, sz) == old(iovad.taken);
        NothingValid();
        forall p: nat ensures dart.V(p) == old(dart.V(p)) {
          if InPages(p, iova, sz) {
            assert p * 0x4000 in Range(iova, sz);
            assert !IsValid(old(dart.E(p)));
          }
        }
      }
    }

    /** The panic of giving an allocated range back, in terms of the list before the allocation. */
    lemma PanicFacts(sz: nat)
      requires Valid() && Iova.Page(sz)
      ensures var r := Iova.Alloc(iovad.free, sz);
              && (TakesTop(sz) ==> r.Some? && r.value.0 != 0)
              && (r.Some? ==>
                    var (iova, l) := r.value;
                    && (Iova.Free(l, iova, sz).None? <==> TakesTop(sz))
                    && (Iova.Free(l, iova, sz).None? <==>
                          l != [] && forall j :: 0 <= j < |l| ==> l[j].iova < iova + sz))
    {
      var r := Iova.Alloc(iovad.free, sz);
      if r.Some? {
        Iova.FreeRightAway(iovad.free, iovad.lo, iovad.hi, sz);
        FreePanics(r.value.1, r.value.0, sz);
        assert Iova.BlockOk(iovad.free[0], iovad.lo, iovad.hi);
      } else {
        NoFit(iovad.free, sz);
      }
    }

    lemma UnmapBounds(iova: nat, sz: nat)
      requires Valid() && 0 < sz < 0x1_0000_0000_0000_0000 && Iova.Page(iova)
      requires 0 < Iova.Up16K(sz) && Range(iova, Iova.Up16K(sz)) <= iovad.taken
      ensures iova + sz <= 0x10_0000_0000 && iova % 0x4000 == 0
      ensures sz % 0x4000 == 0 ==> Iova.Up16K(sz) == sz
      ensures iovad.lo <= iova && iova + Iova.Up16K(sz) <= iovad.hi
    {
      iovad.TakenInside(iova, Iova.Up16K(sz));
    }
  }

  lemma MultipleIsPage(sz: nat)
    requires sz % 0x4000 == 0 && sz < 0x1_0000_0000_0000_0000
    ensures Iova.Up16K(sz) == sz
  {
    Iova.Up16KOfPage(sz);
  }
}
