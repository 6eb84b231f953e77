/** Mapping, unmapping and searching on a DART (src/dart.c). */
module DartDevice {
  import opened Arith
  import opened Dart

  class DartDev {
    const wide: bool
    const count: nat
    var l1: seq<Link>
    var mem: Mem
    // How often memalign failed.
    ghost var failures: nat
    // How often dart_unmap_page or dart_free_l2 went through the NULL pointer that this gave them.  The model goes on
    // without the access; what the program does then is not described.
    ghost var nulls: nat

    /** A device with empty L1 tables. */
    constructor (wide: bool, count: nat)
      requires 1 <= count <= 4
      ensures Valid() && this.wide == wide && this.count == count && failures == nulls == 0
      ensures forall iova: nat :: TranslateAt(iova) == 0
      ensures forall p: nat :: E(p) == 0
    {
      this.wide, this.count := wide, count;
      l1, mem := seq(2048 * count, _ => NoTable), map[];
      failures, nulls := 0, 0;
    }

    ghost predicate Valid()
      reads this
    {
      1 <= count <= 4 && |l1| == 2048 * count && Linked(l1, mem)
    }

    /** The entry of page number p. */
    ghost function E(p: nat): nat
      reads this
    {
      Entry(l1, mem, p)
    }

    /** What the device translates an address to; 0 is NULL. */
    function TranslateAt(iova: nat): nat
      requires Valid()
      reads this
    {
      Translate(wide, l1, mem, iova)
    }

    /** dart_get_l2; memalign may fail. */
    method GetL2(idx: nat) returns (l2: Link)
      requires Valid() && idx < |l1|
      modifies `l1, `mem, `failures
      ensures Valid() && (forall p: nat :: E(p) == old(E(p)))
      ensures l2.To? ==> l1[idx] == l2 && l1 == old(l1)[idx := l2]
      ensures old(l1[idx].To?) ==> l2.To? && l1 == old(l1) && mem == old(mem)
      ensures l2.NoTable? ==> l1 == old(l1) && mem == old(mem)
      ensures failures == old(failures) + if l2.NoTable? then 1 else 0
    {
      if l1[idx].To? {
        return l1[idx];
      }
      if * {
        failures := failures + 1;
        return NoTable;
      }
      FreshAddress(mem.Keys);
      var q: nat :| q !in mem;
      var s: seq<nat> := seq(2048, _ => 0);
      forall p: nat ensures Linked(l1[idx := To(q)], mem[q := s]) && Entry(l1[idx := To(q)], mem[q := s], p) == E(p) {
        EntryLinked(l1, mem, idx, q, s, p);
      }
      mem := mem[q := s];
      l1 := l1[idx := To(q)];
      l2 := To(q);
    }

    /** Writes the entry of page number i * 2048 + j in the L2 table that slot i of the L1 tables
        points to. */
    method SetEntry(i: nat, j: nat, r: nat)
      requires Valid() && i < |l1| && l1[i].To? && j < 2048
      modifies this`mem
      ensures Valid() && forall p: nat :: E(p) == if p == i * 2048 + j then r else old(E(p))
    {
      hide Entry;
      forall p: nat
        ensures Linked(l1, Put(mem, l1[i].ptr, j, r))
        ensures Entry(l1, Put(mem, l1[i].ptr, j, r), p) == if p == i * 2048 + j then r else E(p)
      {
        EntryStored(l1, mem, i, j, r, p);
      }
      mem := Put(mem, l1[i].ptr, j, r);
    }

    /** dart_map_page: fails without an L2 table, or if the page has a valid entry already. */
    method MapPage(iova: nat, pa: nat, flags: nat) returns (ok: bool)
      requires Valid() && iova < count * 0x10_0000_0000
      modifies `l1, `mem, `failures
      ensures Valid() && KeepsLinks(old(l1), l1) && (ok ==> HasTable(l1, iova / 0x4000))
      ensures ok ==> !IsValid(old(E(iova / 0x4000))) &&
                     forall p: nat :: E(p) == if p == iova / 0x4000 then Prep(wide, pa) + flags else old(E(p))
      ensures !ok ==> forall p: nat :: E(p) == old(E(p))
      ensures if failures == old(failures) then ok <==> !IsValid(old(E(iova / 0x4000))) else !ok
      ensures old(failures) <= failures
    {
      hide Entry, Linked, IsValid, Prep;
      var i1, i2 := iova / 0x200_0000 % 8192, iova / 0x4000 % 2048;
      Indices(iova, count);
      var l2 := GetL2(i1);
      if l2.NoTable? {
        return false;
      }
      ReadEntry(i1, i2);
      if IsValid(mem[l2.ptr][i2]) {
        return false;
      }
      SetEntry(i1, i2, Prep(wide, pa) + flags);
      return true;
    }

    lemma ReadEntry(i: nat, j: nat)
      requires Valid() && i < |l1| && l1[i].To? && j < 2048
      ensures l1[i].ptr in mem && |mem[l1[i].ptr]| == 2048 && mem[l1[i].ptr][j] == E(i * 2048 + j)
    {
      DivModIs(i * 2048 + j, 2048, i, j);
    }

    /** dart_unmap_page.  The L2 table is looked up with an 11-bit index, so for an address with a TTBR other than 0 the
        entry of the page 2^36, 2^37 or 3 * 2^36 bytes below is cleared. */
    method UnmapPage(iova: nat)
      requires Valid() && iova < count * 0x10_0000_0000
      modifies this
      ensures Valid() && KeepsHigh(old(l1), l1) && (iova < 0x10_0000_0000 ==> l1 == old(l1))
      ensures if HasTable(old(l1), iova / 0x4000) && nulls == old(nulls) then
                forall p: nat :: E(p) == if p == iova / 0x4000 % 0x40_0000 then 0 else old(E(p))
              else forall p: nat :: E(p) == old(E(p))
      ensures iova < 0x10_0000_0000 ==>
                forall p: nat :: E(p) == if p == iova / 0x4000 then 0 else old(E(p))
      ensures IsValid(old(E(iova / 0x4000))) ==> (!IsValid(E(iova / 0x4000)) <==> iova < 0x10_0000_0000)
      ensures old(failures) <= failures && nulls == old(nulls) + (failures - old(failures))
      ensures iova < 0x10_0000_0000 ==> failures == old(failures)
    {
      hide Entry, Linked, IsValid;
      var ttbr, i1, i2 := iova / 0x10_0000_0000 % 4, iova / 0x200_0000 % 2048, iova / 0x4000 % 2048;
      Indices(iova, count);
      LowPage(iova);
      NothingValid();
      if l1[2048 * ttbr + i1].NoTable? {
        NoEntry(iova / 0x4000);
        return;
      }
      var l2 := GetL2(i1);
      if l2.To? {
        SetEntry(i1, i2, 0);
      } else {
        nulls := nulls + 1;
      }
    }

    lemma NoEntry(p: nat)
      requires Valid() && p / 2048 < |l1| && l1[p / 2048].NoTable?
      ensures E(p) == 0
    {
    }

    /** The valid entry of page p, or 0. */
    ghost function V(p: nat): nat
      reads this
    {
      if IsValid(E(p)) then E(p) else 0
    }

    lemma ValidOfV(p: nat)
      ensures IsValid(E(p)) <==> V(p) != 0
    {
    }

    /** Every translation is determined by the valid entries. */
    lemma TranslateReadsV(x: nat)
      requires Valid() && x < 0x40_0000_0000
      ensures TranslateAt(x) == Translated(wide, V(x / 0x4000), x)
    {
      hide Entry, Linked, Target;
      DivModIs(|l1|, 2048, count, 0);
      TranslateIsEntry(wide, l1, mem, x);
      NothingValid();
    }

    /** dart_unmap: a misaligned request does nothing; otherwise each page of the range that has an L2 table clears
        the page of the same number modulo 2^22.  Below 2^36 that is exactly the range, and no page above is ever
        cleared. */
    method Unmap(iova0: nat, len0: nat)
      requires Valid() && iova0 + len0 <= count * 0x10_0000_0000
      modifies this
      ensures Valid()
      ensures len0 % 0x4000 != 0 || iova0 % 0x4000 != 0 ==> forall p: nat :: E(p) == old(E(p))
      ensures len0 % 0x4000 == 0 && iova0 % 0x4000 == 0 && nulls == old(nulls) ==>
                forall p: nat :: E(p) == if Cleared(old(l1), p, iova0, len0) then 0 else old(E(p))
      ensures len0 % 0x4000 == 0 && iova0 % 0x4000 == 0 && iova0 + len0 <= 0x10_0000_0000 ==>
                forall p: nat :: E(p) == if InPages(p, iova0, len0) then 0 else old(E(p))
      ensures forall p: nat :: p >= 0x40_0000 ==> E(p) == old(E(p))
      ensures old(failures) <= failures && old(nulls) <= nulls
      ensures iova0 + len0 <= 0x10_0000_0000 ==> failures == old(failures) && nulls == old(nulls)
    {
      hide Entry, Linked, IsValid, Cleared, KeepsHigh, HasTable;
      if len0 % 0x4000 != 0 || iova0 % 0x4000 != 0 {
        return;
      }
      var iova, len := iova0, len0;
      ghost var n := 0;
      forall p: nat ensures !Cleared(old(l1), p, iova0, 0) { NothingCleared(old(l1), p, iova0); }
      SameLinks(l1);
      while len > 0
        invariant Valid() && len + n * 0x4000 == len0 && iova == iova0 + n * 0x4000 && old(failures) <= failures
        invariant iova0 + len0 <= 0x10_0000_0000 ==>
                    && failures == old(failures) && nulls == old(nulls)
                    && forall p: nat :: E(p) == if InPages(p, iova0, n * 0x4000) then 0 else old(E(p))
        invariant forall p: nat :: p >= 0x40_0000 ==> E(p) == old(E(p))
        invariant old(nulls) <= nulls && KeepsHigh(old(l1), l1) && (iova <= 0x10_0000_0000 ==> l1 == old(l1))
        invariant nulls == old(nulls) ==>
                    forall p: nat :: E(p) == if Cleared(old(l1), p, iova0, n * 0x4000) then 0 else old(E(p))
      {
        NextPage(iova0, len0, n);
        SameTable(old(l1), l1, iova);
        HighLinks(old(l1), l1);
        UnmapPage(iova);
        forall p: nat ensures Cleared(old(l1), p, iova0, (n + 1) * 0x4000) <==>
          || Cleared(old(l1), p, iova0, n * 0x4000)
          || (p == (iova0 / 0x4000 + n) % 0x40_0000 && HasTable(old(l1), iova0 / 0x4000 + n))
        {
          ClearedMore(old(l1), p, iova0, n);
        }
        if iova0 + len0 <= 0x10_0000_0000 {
          forall p: nat ensures E(p) == if InPages(p, iova0, (n + 1) * 0x4000) then 0 else old(E(p)) {
            GrowPages(p, iova0, n);
          }
        }
        len := len - 0x4000;
        iova := iova + 0x4000;
        n := n + 1;
      }
    }

    /** dart_map_flags.  `flags` are the entry's flag bits, params->pte_flags among them.  Below 2^36 it is all or
        nothing: a failed call leaves every translation as it was.  Above, what was mapped before the failure stays
        mapped, and the pages of the same numbers in the first TTBR are unmapped instead. */
    method MapFlags(iova: nat, pa: nat, len: nat, flags: nat) returns (ok: bool)
      requires Valid() && iova + len <= count * 0x10_0000_0000 && FlagsOk(wide, flags)
      requires len > 0 ==> Representable(wide, pa + len - 1)
      modifies this
      ensures Valid()
      ensures ok ==> len % 0x4000 == 0 && pa % 0x4000 == 0 && iova % 0x4000 == 0
      ensures ok ==> forall x: nat :: iova <= x < iova + len ==> TranslateAt(x) == pa + (x - iova)
      ensures ok ==> forall p: nat :: InPages(p, iova, len) ==> !IsValid(old(E(p))) && IsValid(E(p))
      ensures ok ==> forall p: nat :: InPages(p, iova, len) ==>
                && E(p) == (pa + (p * 0x4000 - iova)) / 0x4000 * (if wide then 0x400 else 0x4000) + flags
                && E(p) / 0x100_0000_0000 == flags / 0x100_0000_0000
                && (wide ==> E(p) % 0x400 == flags % 0x400) && (!wide ==> E(p) % 0x4000 == flags % 0x4000)
      ensures ok ==> forall p: nat :: !InPages(p, iova, len) ==> E(p) == old(E(p))
      ensures !ok && iova + len <= 0x10_0000_0000 ==> forall p: nat :: V(p) == old(V(p))
      ensures !ok && iova >= 0x10_0000_0000 ==>
                exists n: nat :: (n == 0 || n * 0x4000 < len) && MappedAbove(n, iova, pa, flags, old(l1), old(mem))
      ensures !ok && nulls == old(nulls) ==>
                exists n: nat :: (n == 0 || n * 0x4000 < len) && RolledBack(n, iova, pa, flags, old(l1), old(mem))
      ensures !ok && failures == old(failures) ==>
                || len % 0x4000 != 0 || pa % 0x4000 != 0 || iova % 0x4000 != 0
                || exists p: nat :: InPages(p, iova, len) && IsValid(old(E(p)))
    {
      if len % 0x4000 != 0 || pa % 0x4000 != 0 || iova % 0x4000 != 0 {
        assert MappedAbove(0, iova, pa, flags, l1, mem) && RolledBack(0, iova, pa, flags, l1, mem);
        return false;
      }
      hide Entry, Linked, IsValid, Prep, Representable, FlagsOk, EntryFor, InPages, Translate;
      ok := MapLoop(iova, pa, len, flags);
      if ok {
        forall x: nat | iova <= x < iova + len ensures TranslateAt(x) == pa + (x - iova) {
          AddressPage(x, iova, len);
          MappedAddress(x, iova, pa, len, flags);
        }
        forall p: nat | InPages(p, iova, len)
          ensures IsValid(E(p))
          ensures E(p) == (pa + (p * 0x4000 - iova)) / 0x4000 * (if wide then 0x400 else 0x4000) + flags
          ensures E(p) / 0x100_0000_0000 == flags / 0x100_0000_0000
          ensures (wide ==> E(p) % 0x400 == flags % 0x400) && (!wide ==> E(p) % 0x4000 == flags % 0x4000)
        {
          PageAddress(p, iova, len);
          MappedAddress(p * 0x4000, iova, pa, len, flags);
          MappedEntry(p, iova, pa, len, flags);
        }
      }
    }

    /** The n pages from iova on have their new entries, and no other page at or above 2^36 has changed. */
    ghost predicate MappedAbove(n: nat, iova: nat, pa: nat, flags: nat, l: seq<Link>, m: Mem)
      reads this
    {
      forall p: nat :: p >= 0x40_0000 ==>
        E(p) == if InPages(p, iova, n * 0x4000) then EntryFor(p, iova, pa, flags) else Entry(l, m, p)
    }

    /** The n pages from iova on were mapped, and then the pages of their numbers in the first TTBR were unmapped. */
    ghost predicate RolledBack(n: nat, iova: nat, pa: nat, flags: nat, l: seq<Link>, m: Mem)
      reads this
    {
      forall p: nat :: E(p) ==
        if Named(p, iova, n * 0x4000) then 0
        else if InPages(p, iova, n * 0x4000) then EntryFor(p, iova, pa, flags) else Entry(l, m, p)
    }

    /** The loop of dart_map_flags, with its roll-back. */
    method MapLoop(iova: nat, pa: nat, len: nat, flags: nat) returns (ok: bool)
      requires Valid() && iova + len <= count * 0x10_0000_0000
      requires len % 0x4000 == 0 && pa % 0x4000 == 0 && iova % 0x4000 == 0
      modifies this
      ensures Valid()
      ensures ok ==> forall p: nat :: InPages(p, iova, len) ==> !IsValid(old(E(p)))
      ensures ok ==> forall p: nat :: E(p) == if InPages(p, iova, len) then EntryFor(p, iova, pa, flags) else old(E(p))
      ensures !ok && iova + len <= 0x10_0000_0000 ==> forall p: nat :: V(p) == old(V(p))
      ensures !ok && iova >= 0x10_0000_0000 ==>
                exists n: nat :: n * 0x4000 < len && MappedAbove(n, iova, pa, flags, old(l1), old(mem))
      ensures !ok && nulls == old(nulls) ==>
                exists n: nat :: n * 0x4000 < len && RolledBack(n, iova, pa, flags, old(l1), old(mem))
      ensures !ok && failures == old(failures) ==> exists p: nat :: InPages(p, iova, len) && IsValid(old(E(p)))
    {
      hide Entry, Linked, IsValid, Prep, EntryFor, InPages, HasTable, KeepsLinks, Named, Cleared;
      var offset := 0;
      forall p: nat ensures !InPages(p, iova, 0) { NoPages(p, iova); }
      ghost var n := 0;
      while offset < len
        invariant Valid() && offset == n * 0x4000 <= len && failures == old(failures)
        invariant forall p: nat :: InPages(p, iova, offset) ==> !IsValid(old(E(p)))
        invariant forall p: nat :: E(p) == if InPages(p, iova, offset) then EntryFor(p, iova, pa, flags) else old(E(p))
        invariant nulls == old(nulls) && forall p: nat :: InPages(p, iova, offset) ==> HasTable(l1, p)
      {
        NextPage(iova, len, n);
        ghost var before := l1;
        var ret := MapPage(iova + offset, pa + offset, flags);
        forall p: nat | HasTable(before, p) ensures HasTable(l1, p) { TableStays(before, l1, p); }
        if !ret {
          PageInRange(iova, len, n);
          forall p: nat ensures Cleared(l1, p, iova, offset) <==> Named(p, iova, offset) {
            ClearedIsNamed(l1, p, iova, offset);
          }
          DivModIs(offset, 0x4000, n, 0);
          Unmap(iova, offset);
          NothingValid();
          assert iova >= 0x10_0000_0000 ==> MappedAbove(n, iova, pa, flags, old(l1), old(mem));
          assert nulls == old(nulls) ==> RolledBack(n, iova, pa, flags, old(l1), old(mem));
          return false;
        }
        forall p: nat
          ensures InPages(p, iova, offset + 0x4000) ==> !IsValid(old(E(p)))
          ensures E(p) == if InPages(p, iova, offset + 0x4000) then EntryFor(p, iova, pa, flags) else old(E(p))
          ensures InPages(p, iova, offset + 0x4000) ==> HasTable(l1, p)
        {
          GrowPages(p, iova, n);
          EntryNext(n, iova, pa, flags);
        }
        offset := offset + 0x4000;
        n := n + 1;
      }
      return true;
    }

    ghost function EntryFor(p: nat, iova: nat, pa: nat, flags: nat): nat
    {
      if iova / 0x4000 <= p then Prep(wide, pa + (p - iova / 0x4000) * 0x4000) + flags else 0
    }

    lemma EntryNext(n: nat, iova: nat, pa: nat, flags: nat)
      ensures EntryFor(iova / 0x4000 + n, iova, pa, flags) == Prep(wide, pa + n * 0x4000) + flags
    {
    }

    lemma MappedAddress(x: nat, iova: nat, pa: nat, len: nat, flags: nat)
      requires Valid() && 0 < len && iova + len <= count * 0x10_0000_0000
      requires FlagsOk(wide, flags) && Representable(wide, pa + len - 1)
      requires len % 0x4000 == 0 && pa % 0x4000 == 0 && iova % 0x4000 == 0 && iova <= x < iova + len
      requires E(x / 0x4000) == EntryFor(x / 0x4000, iova, pa, flags)
      ensures IsValid(E(x / 0x4000)) && TranslateAt(x) == pa + (x - iova)
    {
      hide Entry, Linked, IsValid, Prep, Target;
      TranslateIsEntry(wide, l1, mem, x);
      assert |l1| % 2048 == 0 by { DivModIs(|l1|, 2048, count, 0); }
      var k := x / 0x4000 - iova / 0x4000;
      OffsetPages(x, iova, pa, len);
      EntryRoundTrip(wide, pa + k * 0x4000, flags);
    }

    /** The entry that a page of the range gets. */
    lemma MappedEntry(p: nat, iova: nat, pa: nat, len: nat, flags: nat)
      requires 0 < len && FlagsOk(wide, flags) && Representable(wide, pa + len - 1) && iova <= p * 0x4000 < iova + len
      requires len % 0x4000 == 0 && pa % 0x4000 == 0 && iova % 0x4000 == 0
      ensures var e := EntryFor(p, iova, pa, flags);
              && e == (pa + (p * 0x4000 - iova)) / 0x4000 * (if wide then 0x400 else 0x4000) + flags
              && e / 0x100_0000_0000 == flags / 0x100_0000_0000
              && (wide ==> e % 0x400 == flags % 0x400) && (!wide ==> e % 0x4000 == flags % 0x4000)
    {
      hide Prep, FlagsOk;
      PageAddress(p, iova, len);
      OffsetPages(p * 0x4000, iova, pa, len);
      EntryParts(wide, pa + (p - iova / 0x4000) * 0x4000, flags);
    }

    ghost predicate Unused(ptr: nat)
      reads this
    {
      ptr in mem && forall k :: 0 <= k < |mem[ptr]| ==> !IsValid(mem[ptr][k])
    }

    /** What dart_free_l2 looks at before it releases something: the slot of the address has a table, and the table
        found with the 11-bit index, which is made if it is missing, has no valid entry. */
    ghost predicate Releases(iova: nat)
      requires Valid() && iova < count * 0x10_0000_0000
      reads this
    {
      var slot := iova / 0x200_0000;
      && iova % 0x200_0000 == 0 && slot < |l1| && l1[slot].To?
      && (l1[slot % 2048].To? ==> Unused(l1[slot % 2048].ptr))
    }

    /** dart_free_l2.  Below 2^36 an L2 table without valid entries is released, and no translation changes in any case.
        Above, the table of the first TTBR is judged and released although it stays linked, and the table of the
        address is unlinked without being released: its translations are gone. */
    method FreeL2(iova: nat)
      requires Valid() && iova < count * 0x10_0000_0000
      modifies this
      ensures var slot := iova / 0x200_0000;
              if old(Releases(iova)) && nulls == old(nulls) then
                && slot < |l1| == |old(l1)| && l1[slot].NoTable?
                && (slot < 2048 ==> l1 == old(l1)[slot := NoTable] && mem == old(mem) - {old(l1[slot].ptr)})
                && (slot >= 2048 ==>
                      && l1[slot % 2048].To? && l1[slot % 2048].ptr !in mem
                      && old(l1[slot].ptr) in mem && To(old(l1[slot].ptr)) !in l1)
                && (forall p: nat :: V(p) == if p / 2048 == slot then 0 else old(V(p)))
                && (Valid() <==> slot < 2048)
              else Valid() && forall p: nat :: E(p) == old(E(p))
      ensures iova < 0x10_0000_0000 ==> nulls == old(nulls) && forall p: nat :: V(p) == old(V(p))
      ensures old(failures) <= failures && nulls == old(nulls) + (failures - old(failures))
    {
      if iova % 0x200_0000 != 0 {
        return;
      }
      var slot, i := 2048 * (iova / 0x10_0000_0000 % 4) + iova / 0x200_0000 % 2048, iova / 0x200_0000 % 2048;
      SlotOf(iova, count);
      if l1[slot].NoTable? {
        return;
      }
      hide Entry, IsValid, Linked;
      ghost var isNew := l1[i].NoTable?;
      if isNew { NoSlot(i); }
      var l2 := GetL2(i);
      if l2.NoTable? {
        nulls := nulls + 1;
        return;
      }
      if isNew { StillEmpty(i); }
      var empty := CheckEmpty(i);
      if empty {
        Release(slot, i);
      }
    }

    /** The end of dart_free_l2: one slot is emptied, and the table of the other released. */
    method Release(slot: nat, i: nat)
      requires Valid() && slot < |l1| && i < |l1| && l1[slot].To? && l1[i].To? && Unused(l1[i].ptr)
      modifies `l1, `mem
      ensures l1 == old(l1)[slot := NoTable] && mem == old(mem) - {old(l1[i].ptr)}
      ensures forall p: nat :: V(p) == if p / 2048 == slot then 0 else old(V(p))
      ensures Valid() <==> slot == i
      ensures slot != i ==> old(l1[slot].ptr) in mem && To(old(l1[slot].ptr)) !in l1
    {
      hide Entry, IsValid;
      ghost var l0: seq<Link>, m0: Mem := l1[slot := NoTable], mem - {l1[i].ptr};
      forall p: nat ensures ValidEntry(l0, m0, p) == if p / 2048 == slot then 0 else V(p) {
        Unlinked(l1, mem, slot, i, p);
      }
      if slot == i { EntryUnlinked(l1, mem, i, 0); } else { Dangling(l1, mem, slot, i); }
      l1, mem := l1[slot := NoTable], mem - {l1[i].ptr};
      forall p: nat ensures V(p) == if p / 2048 == slot then 0 else old(V(p)) {
        assert V(p) == ValidEntry(l0, m0, p);
      }
    }

    /** The loop of dart_free_l2 over the entries of the table in slot i. */
    method CheckEmpty(i: nat) returns (empty: bool)
      requires Valid() && i < |l1| && l1[i].To?
      ensures empty <==> Unused(l1[i].ptr)
    {
      hide Entry, IsValid;
      var l2 := mem[l1[i].ptr];
      for idx := 0 to 2048
        invariant forall k :: 0 <= k < idx ==> !IsValid(l2[k])
      {
        if IsValid(l2[idx]) {
          return false;
        }
      }
      return true;
    }

    lemma NoSlot(i: nat)
      requires Valid() && i < |l1| && l1[i].NoTable?
      ensures forall p: nat :: p / 2048 == i ==> E(p) == 0
    {
    }

    /** A page is mapped through the second TTBR and its namesake of the first has no valid neighbours. */
    lemma ReleasesSecond()
      requires Valid() && count == 2 && E(0x40_0000) != 0
      requires forall p: nat :: p / 2048 == 0 ==> !IsValid(E(p))
      ensures Releases(0x10_0000_0000)
    {
      if l1[0].To? {
        forall k: nat | k < 2048 ensures !IsValid(mem[l1[0].ptr][k]) {
          ReadEntry(0, k);
          assert !IsValid(E(k));
        }
      }
    }

    lemma StillEmpty(i: nat)
      requires Valid() && i < |l1| && l1[i].To? && forall p: nat :: p / 2048 == i ==> E(p) == 0
      ensures Unused(l1[i].ptr)
    {
      NothingValid();
      forall k: nat | k < 2048 ensures mem[l1[i].ptr][k] == 0 {
        ReadEntry(i, k);
        DivModIs(i * 2048 + k, 2048, i, k);
        assert E(i * 2048 + k) == 0;
      }
    }

    /** No translation for page number q. */
    ghost predicate NullPage(q: nat)
      requires Valid()
      reads this
    {
      TranslateAt(q * 0x4000) == 0
    }

    ghost predicate FreeWindow(w: nat, n: nat)
      requires Valid()
      reads this
    {
      forall q: nat :: w <= q < w + n ==> NullPage(q)
    }

    lemma NullPageIs(q: nat)
      requires Valid()
      ensures NullPage(q) <==> TranslateAt(q * 0x4000) == 0
    {
    }

    /** The inner loop of dart_find_iova: how far the pages from iova on do not translate, up to len. */
    method Extent(iova: nat, len: nat) returns (size: nat)
      requires Valid() && iova % 0x4000 == 0 && len % 0x4000 == 0 && NullPage(iova / 0x4000)
      ensures size % 0x4000 == 0 && 0x4000 <= size && (len > 0 ==> size <= len)
      ensures FreeWindow(iova / 0x4000, size / 0x4000)
      ensures size < len ==> !NullPage(iova / 0x4000 + size / 0x4000)
    {
      hide Translate, Linked, NullPage;
      size := 0x4000;
      ghost var p, m, n := iova / 0x4000, 1, len / 0x4000;
      while size < len
        invariant size == m * 0x4000 && 1 <= m && (len > 0 ==> m <= n)
        invariant forall q: nat :: p <= q < p + m ==> NullPage(q)
      {
        NullPageIs(p + m);
        if TranslateAt(iova + size) != 0 { break; }
        size := size + 0x4000;
        m := m + 1;
      }
    }

    /** No valid entry maps to physical address 0. */
    ghost predicate NoNullTarget()
      reads this
    {
      forall p: nat :: IsValid(E(p)) ==> Target(wide, E(p)) != 0
    }

    /** Then pages that do not translate are pages without a valid entry. */
    lemma NullIsUnmapped(w: nat, n: nat)
      requires Valid() && NoNullTarget() && w + n <= 0x100_0000
      ensures FreeWindow(w, n) <==> forall q: nat :: w <= q < w + n ==> !IsValid(E(q))
    {
      hide Entry, Linked, IsValid, Target;
      forall q: nat | w <= q < w + n ensures NullPage(q) <==> !IsValid(E(q)) {
        TranslateReadsV(q * 0x4000);
        DivModIs(q * 0x4000, 0x4000, q, 0);
        ValidOfV(q);
        NothingValid();
      }
    }

    /** dart_find_iova: the lowest window of len bytes at or above `start` and below 2^36 in which no page
        translates, or DART_PTR_ERR exactly when there is none.  A request for 0 bytes always ends in
        DART_PTR_ERR. */
    method FindIova(start: int, len: nat) returns (r: nat)
      requires Valid() && (start >= 0 ==> start + len < 0x1_0000_0000_0000_0000)
      ensures len % 0x4000 != 0 || start < 0 || start % 0x4000 != 0 ==> r == 0xFFFF_FFFF_FFFF_FFFF
      ensures len % 0x4000 == 0 && 0 <= start && start % 0x4000 == 0 && len > 0 ==>
                var n, s := len / 0x4000, start / 0x4000;
                if exists w: nat :: s <= w && w + n <= 0x40_0000 && FreeWindow(w, n) then
                  && r % 0x4000 == 0 && s <= r / 0x4000 && r / 0x4000 + n <= 0x40_0000 && FreeWindow(r / 0x4000, n)
                  && forall w: nat :: s <= w < r / 0x4000 ==> !FreeWindow(w, n)
                else r == 0x8000_0000_0000_0000
      ensures len == 0 && 0 <= start && start % 0x4000 == 0 ==> r == 0x8000_0000_0000_0000
      ensures NoNullTarget() && len > 0 && r / 0x4000 + len / 0x4000 <= 0x40_0000 ==>
                forall q: nat :: r / 0x4000 <= q < r / 0x4000 + len / 0x4000 ==> !IsValid(E(q))
    {
      if len % 0x4000 != 0 {
        return 0xFFFF_FFFF_FFFF_FFFF;
      }
      if start < 0 || start % 0x4000 != 0 {
        return 0xFFFF_FFFF_FFFF_FFFF;
      }
      hide Translate, Linked, NullPage;
      var iova: nat := start;
      ghost var p, n := start / 0x4000, len / 0x4000;
      while iova + len <= 0x10_0000_0000
        invariant iova == p * 0x4000 && start / 0x4000 <= p
        invariant forall w: nat :: start / 0x4000 <= w < p ==> len > 0 ==> !FreeWindow(w, n)
      {
        NullPageIs(p);
        if TranslateAt(iova) == 0 {
          AddMultiple(0, 0x4000, p);
          var size := Extent(iova, len);
          ghost var m := size / 0x4000;
          if size == len {
            if NoNullTarget() { NullIsUnmapped(p, n); }
            PageAddress(p, 0, 0);
            return iova;
          }
          forall w: nat | start / 0x4000 <= w < p + m + 1 && len > 0 ensures !FreeWindow(w, n) {
            if p <= w { assert w <= p + m < w + n; }
          }
          iova := iova + size + 0x4000;
          p := p + m + 1;
        } else {
          forall w: nat | start / 0x4000 <= w < p + 1 && len > 0 ensures !FreeWindow(w, n) { }
          iova := iova + 0x4000;
          p := p + 1;
        }
      }
      return 0x8000_0000_0000_0000;
    }
  }

  /** dart_free_l2 above 2^36: a page is mapped through the second TTBR, freeing the L2 table of its address is not
      refused, and afterwards the page is unmapped and the first TTBR points to a table that was released. */
  method FreeLosesMapping(pa: nat, flags: nat) returns (d: DartDev, ghost before: nat)
    requires Representable(false, pa) && FlagsOk(false, flags)
    ensures d.failures == 0 ==> IsValid(before) && !IsValid(d.E(0x40_0000)) && !d.Valid()
  {
    hide Entry, IsValid, Linked, FlagsOk, Prep, Representable, Target;
    d := new DartDev(false, 2);
    NothingValid();
    var mapped := d.MapPage(0x10_0000_0000, pa, flags);
    before := d.E(0x40_0000);
    if !mapped { return; }
    EntryRoundTrip(false, pa, flags);
    assert IsValid(before) && before != 0;
    d.ReleasesSecond();
    d.FreeL2(0x10_0000_0000);
    d.ValidOfV(0x40_0000);
  }

  /** The number of a page in the first TTBR. */
  lemma LowPage(iova: nat)
    ensures iova / 0x4000 % 0x40_0000 == iova / 0x200_0000 % 2048 * 2048 + iova / 0x4000 % 2048
    ensures iova < 0x10_0000_0000 ==> iova / 0x4000 % 0x40_0000 == iova / 0x4000
  {
    Nested(iova / 0x4000, 2048, 2048);
    Nested(iova, 0x4000, 2048);
    if iova < 0x10_0000_0000 { DivModIs(iova / 0x4000, 0x40_0000, 0, iova / 0x4000); }
  }

  /** The page has an L2 table. */
  predicate HasTable(l: seq<Link>, p: nat) { p / 2048 < |l| && l[p / 2048].To? }

  /** Links stay. */
  predicate KeepsLinks(l: seq<Link>, l': seq<Link>) {
    |l'| == |l| && forall i :: 0 <= i < |l| && l[i].To? ==> l'[i] == l[i]
  }

  /** The L1 tables of the other TTBRs stay. */
  predicate KeepsHigh(l: seq<Link>, l': seq<Link>) {
    |l'| == |l| && forall i :: 2048 <= i < |l| ==> l'[i] == l[i]
  }

  lemma SameLinks(l: seq<Link>)
    ensures KeepsHigh(l, l)
  {
  }

  /** Page p is cleared when [iova, iova + len) is unmapped, starting with the links l. */
  ghost predicate Cleared(l: seq<Link>, p: nat, iova: nat, len: nat) {
    exists u: nat :: InPages(u, iova, len) && u % 0x40_0000 == p && HasTable(l, u)
  }

  /** A page of the range has the number of page p in the first TTBR. */
  ghost predicate Named(p: nat, iova: nat, len: nat) {
    exists u: nat :: InPages(u, iova, len) && u % 0x40_0000 == p
  }

  lemma ClearedIsNamed(l: seq<Link>, p: nat, iova: nat, len: nat)
    requires forall u: nat :: InPages(u, iova, len) ==> HasTable(l, u)
    ensures Cleared(l, p, iova, len) <==> Named(p, iova, len)
  {
  }

  lemma TableStays(l: seq<Link>, l': seq<Link>, p: nat)
    requires KeepsLinks(l, l') && HasTable(l, p)
    ensures HasTable(l', p)
  {
  }

  lemma NothingCleared(l: seq<Link>, p: nat, iova: nat)
    ensures !Cleared(l, p, iova, 0)
  {
  }

  lemma ClearedMore(l: seq<Link>, p: nat, iova: nat, n: nat)
    requires iova % 0x4000 == 0
    ensures Cleared(l, p, iova, (n + 1) * 0x4000) <==>
            || Cleared(l, p, iova, n * 0x4000)
            || (p == (iova / 0x4000 + n) % 0x40_0000 && HasTable(l, iova / 0x4000 + n))
  {
    forall u: nat
      ensures InPages(u, iova, (n + 1) * 0x4000) <==> InPages(u, iova, n * 0x4000) || u == iova / 0x4000 + n
    {
      GrowPages(u, iova, n);
    }
    hide InPages, HasTable;
    assert InPages(iova / 0x4000 + n, iova, (n + 1) * 0x4000);
  }

  /** Whether the next page has a table has not changed since the start. */
  lemma SameTable(l: seq<Link>, l': seq<Link>, iova: nat)
    requires KeepsHigh(l, l') && (iova < 0x10_0000_0000 ==> l' == l)
    ensures HasTable(l', iova / 0x4000) == HasTable(l, iova / 0x4000)
  {
    if iova >= 0x10_0000_0000 {
      assert iova / 0x4000 >= 0x40_0000 && iova / 0x4000 / 2048 >= 2048;
    }
  }

  lemma HighLinks(l: seq<Link>, l': seq<Link>)
    requires KeepsHigh(l, l')
    ensures forall l'' :: KeepsHigh(l', l'') ==> KeepsHigh(l, l'')
  {
  }

  lemma SlotOf(iova: nat, count: nat)
    requires iova < count * 0x10_0000_0000 && count <= 4
    ensures var slot := iova / 0x200_0000;
            && slot == 2048 * (iova / 0x10_0000_0000 % 4) + iova / 0x200_0000 % 2048 < 2048 * count
            && (slot < 2048 <==> iova < 0x10_0000_0000)
  {
    Nested(iova, 0x200_0000, 2048);
    DivModIs(iova / 0x10_0000_0000, 4, 0, iova / 0x10_0000_0000);
  }

  /** Page p belongs to the page-aligned range [iova, iova + len). */
  predicate InPages(p: nat, iova: nat, len: nat) { iova <= p * 0x4000 < iova + len }

  lemma NextPage(iova: nat, len: nat, n: nat)
    requires iova % 0x4000 == 0 && len % 0x4000 == 0 && n * 0x4000 < len
    ensures n * 0x4000 + 0x4000 <= len && (iova + n * 0x4000) / 0x4000 == iova / 0x4000 + n
  {
    AddMultiple(iova, 0x4000, n);
  }

  lemma PageInRange(iova: nat, len: nat, n: nat)
    requires iova % 0x4000 == 0 && len % 0x4000 == 0 && n * 0x4000 < len
    ensures InPages((iova + n * 0x4000) / 0x4000, iova, len) && !InPages((iova + n * 0x4000) / 0x4000, iova, n * 0x4000)
  {
    AddMultiple(iova, 0x4000, n);
  }

  lemma NoPages(p: nat, iova: nat)
    ensures !InPages(p, iova, 0)
  {
  }

  lemma AddressPage(x: nat, iova: nat, len: nat)
    requires iova % 0x4000 == 0 && len % 0x4000 == 0
    ensures iova <= x < iova + len <==> InPages(x / 0x4000, iova, len)
  {
    AddMultiple(iova, 0x4000, len / 0x4000);
  }

  lemma PageAddress(p: nat, iova: nat, len: nat)
    ensures InPages(p, iova, len) <==> iova <= p * 0x4000 < iova + len
    ensures p * 0x4000 / 0x4000 == p
  {
    DivModIs(p * 0x4000, 0x4000, p, 0);
  }

  lemma GrowPages(p: nat, iova: nat, n: nat)
    requires iova % 0x4000 == 0
    ensures InPages(p, iova, n * 0x4000 + 0x4000) <==> InPages(p, iova, n * 0x4000) || p == iova / 0x4000 + n
  {
  }

  lemma OffsetPages(x: nat, iova: nat, pa: nat, len: nat)
    requires len % 0x4000 == 0 && pa % 0x4000 == 0 && iova % 0x4000 == 0 && iova <= x < iova + len
    ensures var k := x / 0x4000 - iova / 0x4000;
            && 0 <= k && pa + k * 0x4000 + x % 0x4000 == pa + (x - iova)
            && (pa + k * 0x4000) % 0x4000 == 0
            && (pa + k * 0x4000) / 0x4000 <= (pa + len - 1) / 0x4000
  {
    var k := x / 0x4000 - iova / 0x4000;
    AddMultiple(pa, 0x4000, k);
  }

  /** The indices of an address and its page number. */
  lemma Indices(iova: nat, count: nat)
    requires iova < count * 0x10_0000_0000 && count <= 4
    ensures var p := iova / 0x4000;
            var ttbr, i1, i2 := iova / 0x10_0000_0000 % 4, iova / 0x200_0000 % 2048, iova / 0x4000 % 2048;
            && iova / 0x200_0000 % 8192 == p / 2048 == 2048 * ttbr + i1 < 2048 * count
            && p == p / 2048 * 2048 + i2
            && (iova < 0x10_0000_0000 <==> ttbr == 0)
            && i1 * 2048 + i2 < 0x40_0000 && (iova < 0x10_0000_0000 <==> p < 0x40_0000)
  {
    Nested(iova, 0x4000, 2048);
    Nested(iova, 0x200_0000, 2048);
    Nested(iova, 0x4000, 0x40_0000);
    var i := iova / 0x200_0000;
    DivModIs(i, 8192, 0, i);
    DivModIs(iova / 0x10_0000_0000, 4, 0, iova / 0x10_0000_0000);
  }
}
