/** Emulated accesses and the flat view of the stage-2 tables (src/hv_vm.c).

    The handler looks up the first word of an access, or of each half that a page boundary separates, and lets the
    other bytes follow it.  So a byte goes where the view maps it as far as the view is contiguous over the access,
    as it is in a range that was mapped with hv_map_sw. */
module HvAccess {
  import opened Arith
  import opened HvDescriptors
  import opened HvEmulate
  import opened HvMachine
  import opened HvPageTables
  import opened HvView
  import opened TableHeap

  lemma PlaceIgnoresType(d: nat, vaddr: nat, ipa: nat, isWrite: bool)
    ensures Place(d, vaddr, ipa, isWrite) == Place(NoType(d), vaddr, ipa, isWrite)
  {
    var q, r := Apart(d);
    var t, r' := Target4(d), if r >= 2 then r - 2 else r;
    TypeBit(d, q, t, r);
    hide Target4, SpteType, NoType;
    FieldsOf(d, q, t, r);
    FieldsOf(NoType(d), q, t, r');
  }

  lemma TypeBit(d: nat, q: nat, t: nat, r: nat)
    requires t % 4 == 0 && r < 4 && d == q * 0x4_0000_0000_0000 + (t + r)
    ensures NoType(d) == q * 0x4_0000_0000_0000 + (t + if r >= 2 then r - 2 else r)
  {
    Mod4(q, t, r);
  }

  /** The first byte of an access goes where the view maps it, whatever the level at which the entry was found. */
  lemma EmulationFollowsView(mem: Mem, root: nat, lay: Layout, big: bool, vaddr: nat, ipa: nat, isWrite: bool)
    requires Good(mem, root, lay, big) && ipa < Space(big)
    ensures Place(HvPtWalk(mem, root, lay, big, ipa), vaddr, ipa, isWrite)
            == Place(WalkView(View(mem, lay, big, ipa), ipa), vaddr, ipa, isWrite)
  {
    hide Place, WalkView, NoType, HvPtWalk, View, Good;
    WalkReadsView(mem, root, lay, big, ipa);
    PlaceIgnoresType(HvPtWalk(mem, root, lay, big, ipa), vaddr, ipa, isWrite);
  }

  /** Where the view maps byte a. */
  ghost function Home(mem: Mem, lay: Layout, big: bool, a: nat, isWrite: bool): Sink {
    Place(WalkView(View(mem, lay, big, a), a), a, a, isWrite)
  }

  /** The target of an SPTE_MAP word, as a physical address. */
  function SwTarget(v: nat): nat { v % 0x4_0000_0000_0000 }

  /** For two software-mapped bytes k apart, letting the second follow the first puts it at its home exactly if their
      targets are k apart. */
  lemma FollowsHome(mem: Mem, lay: Layout, big: bool, a: nat, k: nat, isWrite: bool)
    requires IsSwMap(View(mem, lay, big, a)) && IsSwMap(View(mem, lay, big, a + k))
    ensures Shift(Home(mem, lay, big, a, isWrite), k) == Home(mem, lay, big, a + k, isWrite) <==>
            Target4(View(mem, lay, big, a)) + a % 4 + k == Target4(View(mem, lay, big, a + k)) + (a + k) % 4
  {
    hide View, Target4;
  }

  /** A word mapped with SPTE_MAP is emulated at its target. */
  lemma MappedWordIsRam(mem: Mem, root: nat, lay: Layout, big: bool, vaddr: nat, ipa: nat, isWrite: bool)
    requires Good(mem, root, lay, big) && ipa < Space(big) && IsSwMap(View(mem, lay, big, ipa))
    ensures var w := HvPtWalk(mem, root, lay, big, ipa);
            && w != 0 && !IsHw(w) && Kind(w) == 0 && Target4(w) == Target4(View(mem, lay, big, ipa))
            && Place(w, vaddr, ipa, isWrite) == Ram(Target4(View(mem, lay, big, ipa)) + vaddr % 4)
  {
    var w, v := HvPtWalk(mem, root, lay, big, ipa), View(mem, lay, big, ipa);
    WalkReadsView(mem, root, lay, big, ipa);
    hide HvPtWalk, View, Good;
    assert NoType(w) == v;
    var q, r := Apart(w);
    TypeBit(w, q, Target4(w), r);
    FieldsOf(w, q, Target4(w), r);
    FieldsOf(v, q, Target4(w), if r >= 2 then r - 2 else r);
    hide Target4, SpteType, NoType;
  }

  /** A word that hv_map_sw mapped, at distance d in its range. */
  lemma SwWord(to: nat, size: nat, d: nat)
    requires IsSwMap(to) && TargetOk(to, 1, size) && d < size
    ensures var v := Eff(to, Word(d)); IsSwMap(v) && Target4(v) + d % 4 == SwTarget(to) + d
  {
    var v := Eff(to, Word(d));
    WordBelow4(d);
    assert to % 4 == 0;
    KeepsField(to, Word(d));
    assert v == to + Word(d);
    KeepsLowBits(to, Word(d));
  }

  lemma WordBelow4(d: nat)
    ensures Word(d) <= d && Word(d) % 4 == 0 && d == Word(d) + d % 4
  {
  }

  /** Every byte of a range that hv_map_sw mapped is emulated at its own place in the target range. */
  lemma RangeIsRam(mem: Mem, root: nat, lay: Layout, big: bool, from: nat, to: nat, size: nat, vaddr: nat, ipa: nat,
                   isWrite: bool, n: nat)
    requires Good(mem, root, lay, big) && SwRange(mem, lay, big, from, to, size)
    requires from <= ipa && ipa + n <= from + size && 0 < n && vaddr % 4 == ipa % 4
    ensures var w := HvPtWalk(mem, root, lay, big, ipa);
            && w != 0 && !IsHw(w) && InReach(w, vaddr, n)
            && Place(w, vaddr, ipa, isWrite) == Ram(SwTarget(to) + (ipa - from))
  {
    hide Good, HvPtWalk, View, Place, Eff, Target4, Kind, IsSwMap;
    assert View(mem, lay, big, ipa) == Eff(to, Word(ipa - from));
    SwWord(to, size, ipa - from);
    MappedWordIsRam(mem, root, lay, big, vaddr, ipa, isWrite);
    LowBits(ipa, from);
  }

  lemma LowBits(ipa: nat, from: nat)
    requires from % 4 == 0 && from <= ipa
    ensures (ipa - from) % 4 == ipa % 4
  {
    AddMultiple(ipa - from, 4, from / 4);
  }

  /** The view maps [from, from + size) as hv_map_sw(from, to, size) leaves it. */
  ghost predicate SwRange(mem: Mem, lay: Layout, big: bool, from: nat, to: nat, size: nat) {
    && IsSwMap(to) && TargetOk(to, 1, size) && from % 4 == 0 && from + size <= Space(big)
    && forall a: nat :: from <= a < from + size ==> View(mem, lay, big, a) == Eff(to, Word(a - from))
  }

  /** The guest's own translation is contiguous over the n bytes at v and keeps the offset in a 4K page. */
  predicate Linear(stage1: nat -> nat, v: nat, n: nat) {
    && stage1(v) % 0x1000 == v % 0x1000
    && forall a: nat :: v <= a < v + n ==> stage1(a) == stage1(v) + (a - v)
  }

  /** The access begins, or its second page begins, at the address that faulted. */
  predicate FaultsAt(far: nat, vaddr: nat, width: nat)
    requires width <= 6
  {
    far == vaddr || (Straddles(vaddr, width) && far == Upper(vaddr, width))
  }

  /** Both translations know v, not as a hardware mapping, and put it at d in memory. */
  predicate LandsAt(v: nat, d: nat, isWrite: bool, stage1: nat -> nat, walk: nat -> nat, space: nat) {
    HvMachine.Mapped(v, stage1, walk, space) && !IsHw(walk(stage1(v))) && PlaceAt(v, isWrite, stage1, walk) == Ram(d)
  }

  ghost predicate WalkOf(walk: nat -> nat, mem: Mem, root: nat, lay: Layout, big: bool)
    requires Good(mem, root, lay, big)
  {
    forall a: nat :: a < Space(big) ==> walk(a) == HvPtWalk(mem, root, lay, big, a)
  }

  lemma LandsInRange(mem: Mem, root: nat, lay: Layout, big: bool, walk: nat -> nat, stage1: nat -> nat,
                     from: nat, to: nat, size: nat, v: nat, isWrite: bool, n: nat)
    requires Good(mem, root, lay, big) && SwRange(mem, lay, big, from, to, size) && WalkOf(walk, mem, root, lay, big)
    requires from <= stage1(v) && 0 < stage1(v) && stage1(v) + n <= from + size && 0 < n && v % 4 == stage1(v) % 4
    ensures LandsAt(v, SwTarget(to) + (stage1(v) - from), isWrite, stage1, walk, Space(big))
    ensures InReach(walk(stage1(v)), v, n)
  {
    RangeIsRam(mem, root, lay, big, from, to, size, v, stage1(v), isWrite, n);
    hide Good, HvPtWalk, View, Place, InReach;
  }

  /** A read of at most 64 bytes contains an aligned block of 64 exactly if it is one. */
  lemma WholeBlock(ipa: nat, vaddr: nat, n: nat)
    requires n <= 64 && ipa % 0x1000 == vaddr % 0x1000
    ensures HasBlock64(ipa, n) <==> n == 64 && vaddr % 64 == 0
  {
    Nested(ipa, 64, 64);
    Nested(vaddr, 64, 64);
  }

  lemma Offset4(x: nat, y: nat)
    requires x % 0x1000 == y % 0x1000
    ensures x % 4 == y % 4
  {
    Nested(x, 4, 0x400);
    Nested(y, 4, 0x400);
  }

  lemma AlignedBlockInPage(vaddr: nat, width: nat)
    requires width == 6 && vaddr % 64 == 0
    ensures !Straddles(vaddr, width)
  {
    Nested(vaddr, 64, 256);
    AddSmall(vaddr, 0x4000, 63);
  }

  /** Both parts of an access land in the target range, the second where the first leads to. */
  lemma BothLand(mem: Mem, root: nat, lay: Layout, big: bool, walk: nat -> nat, stage1: nat -> nat,
                 from: nat, to: nat, size: nat, vaddr: nat, width: nat, isWrite: bool)
    requires Good(mem, root, lay, big) && SwRange(mem, lay, big, from, to, size) && WalkOf(walk, mem, root, lay, big)
    requires width <= 6 && Linear(stage1, vaddr, Pow2(width))
    requires from <= stage1(vaddr) && 0 < stage1(vaddr) && stage1(vaddr) + Pow2(width) <= from + size
    ensures Reaches(vaddr, width, stage1, walk)
    ensures Lands(vaddr, width, SwTarget(to) + (stage1(vaddr) - from), isWrite, stage1, walk, Space(big))
  {
    hide Good, HvPtWalk, View, SwRange, WalkOf, LandsAt, InReach, Upper, Straddles, Pow2;
    Offset4(stage1(vaddr), vaddr);
    WidthPositive(width);
    if !Straddles(vaddr, width) {
      LandsInRange(mem, root, lay, big, walk, stage1, from, to, size, vaddr, isWrite, Pow2(width));
    } else {
      UpperInside(vaddr, width);
      var up := Upper(vaddr, width);
      LandsInRange(mem, root, lay, big, walk, stage1, from, to, size, vaddr, isWrite, up - vaddr);
      SameShift(stage1(vaddr), vaddr, up - vaddr);
      LandsInRange(mem, root, lay, big, walk, stage1, from, to, size, up, isWrite, vaddr + Pow2(width) - up);
    }
  }

  lemma WidthPositive(width: nat)
    requires width <= 6
    ensures 0 < Pow2(width)
  {
  }

  lemma SameShift(x: nat, y: nat, n: nat)
    requires x % 4 == y % 4
    ensures (x + n) % 4 == (y + n) % 4
  {
    AddMultiple(x % 4 + n, 4, x / 4);
    AddMultiple(y % 4 + n, 4, y / 4);
  }

  ghost predicate Lands(vaddr: nat, width: nat, d: nat, isWrite: bool, stage1: nat -> nat, walk: nat -> nat, space: nat)
    requires width <= 6
  {
    var up := Upper(vaddr, width);
    && LandsAt(vaddr, d, isWrite, stage1, walk, space)
    && (Straddles(vaddr, width) ==>
          && vaddr < up < vaddr + Pow2(width) && stage1(up) == stage1(vaddr) + (up - vaddr)
          && LandsAt(up, d + (up - vaddr), isWrite, stage1, walk, space))
  }

  lemma LandedTouch(vaddr: nat, width: nat, d: nat, isWrite: bool, stage1: nat -> nat, walk: nat -> nat,
                    space: nat, x: nat)
    requires width <= 6 && Lands(vaddr, width, d, isWrite, stage1, walk, space)
    ensures MayTouch(vaddr, width, isWrite, stage1, walk, x) ==> isWrite && d <= x < d + Pow2(width)
  {
    hide Straddles, Upper, Place, HvMachine.Mapped, Pow2;
  }

  lemma LandedEmulated(far: nat, vaddr: nat, width: nat, d: nat, isWrite: bool, stage1: nat -> nat, walk: nat -> nat,
                       space: nat)
    requires width <= 6 && Lands(vaddr, width, d, isWrite, stage1, walk, space) && Linear(stage1, vaddr, Pow2(width))
    ensures Emulated(far, vaddr, width, isWrite, stage1, walk, space) ==> FaultsAt(far, vaddr, width)
    ensures FaultsAt(far, vaddr, width) ==>
              && !IsHw(walk(stage1(far)))
              && (Emulated(far, vaddr, width, isWrite, stage1, walk, space) <==>
                    isWrite || width < 6 || vaddr % 64 != 0)
  {
    WholeBlock(stage1(vaddr), vaddr, Pow2(width));
    if width == 6 && vaddr % 64 == 0 { AlignedBlockInPage(vaddr, width); }
    hide Straddles, Upper, Place;
  }

  /** An access whose parts follow each other in memory from d on. */
  method Carry(machine: Machine, far: nat, vaddr: nat, width: nat, isWrite: bool, val: array<Byte>,
               stage1: nat -> nat, walk: nat -> nat, space: nat, ghost d: nat) returns (r: Outcome)
    requires width <= 6 && val.Length == 64 && Linear(stage1, vaddr, Pow2(width))
    requires Reaches(vaddr, width, stage1, walk) && Lands(vaddr, width, d, isWrite, stage1, walk, space)
    modifies machine, val
    ensures isWrite ==> val[..] == old(val[..])
    ensures r == Done ==> old(machine.calls) <= machine.calls
    ensures r == Done ==> Moved(Ram(d), stage1(vaddr), isWrite, val[..Pow2(width)], old(machine.mem), machine.mem,
                                machine.calls[|old(machine.calls)|..])
    ensures machine.faults == old(machine.faults) && FaultsAt(far, vaddr, width) ==>
              (r == Done <==> isWrite || width < 6 || vaddr % 64 != 0)
    ensures r == Done ==> FaultsAt(far, vaddr, width)
    ensures forall x: nat :: machine.mem(x) == old(machine.mem)(x) || (isWrite && d <= x < d + Pow2(width))
  {
    hide Moved, MovedInTwo, Reaches, MayTouch, Emulated, FaultsAt, Linear, Place, Straddles, Upper;
    LandedEmulated(far, vaddr, width, d, isWrite, stage1, walk, space);
    r := machine.HandleDabort(far, vaddr, width, isWrite, val, stage1, walk, space);
    forall x: nat ensures machine.mem(x) == old(machine.mem)(x) || (isWrite && d <= x < d + Pow2(width)) {
      LandedTouch(vaddr, width, d, isWrite, stage1, walk, space, x);
    }
    if r == Done && Straddles(vaddr, width) {
      ghost var n := Upper(vaddr, width) - vaddr;
      TwoAreOne(Ram(d), stage1(vaddr), isWrite, val[..n], val[n..Pow2(width)], old(machine.mem), machine.mem,
                machine.calls[|old(machine.calls)|..]);
      assert val[..n] + val[n..Pow2(width)] == val[..Pow2(width)];
    }
  }

  /** A guest access in a range that hv_map_sw mapped, from the abort to memory: all its bytes go to, or come from,
      their places in the target range, also across a page boundary; no other memory changes; and it is carried out,
      faults aside, exactly if it was reported at one of its pages and is no aligned 64-byte read. */
  method GuestAccess(st: StageTwo, machine: Machine, far: nat, vaddr: nat, width: nat, isWrite: bool, val: array<Byte>,
                     stage1: nat -> nat, ghost from: nat, ghost to: nat, ghost size: nat) returns (r: Outcome)
    requires st.Valid() && SwRange(st.mem, st.lay, st.big, from, to, size)
    requires width <= 6 && val.Length == 64 && Linear(stage1, vaddr, Pow2(width))
    requires from <= stage1(vaddr) && 0 < stage1(vaddr) && stage1(vaddr) + Pow2(width) <= from + size
    modifies machine, val
    ensures isWrite ==> val[..] == old(val[..])
    ensures r == Done ==> old(machine.calls) <= machine.calls
    ensures r == Done ==>
              Moved(Ram(SwTarget(to) + (stage1(vaddr) - from)), stage1(vaddr), isWrite, val[..Pow2(width)],
                    old(machine.mem), machine.mem, machine.calls[|old(machine.calls)|..])
    ensures machine.faults == old(machine.faults) && FaultsAt(far, vaddr, width) ==>
              (r == Done <==> isWrite || width < 6 || vaddr % 64 != 0)
    ensures r == Done ==> FaultsAt(far, vaddr, width)
    ensures var d := SwTarget(to) + (stage1(vaddr) - from);
            forall x: nat :: machine.mem(x) == old(machine.mem)(x) || (isWrite && d <= x < d + Pow2(width))
  {
    hide View, SwRange, Good, Linear, Reaches, Lands, Moved, FaultsAt;
    var t, root, big := st.mem, st.root, st.big;
    ghost var lay := st.lay;
    var walk := (a: nat) => if a < Space(big) then HvPtWalk(t, root, lay, big, a) else 0;
    hide HvPtWalk;
    BothLand(t, root, lay, big, walk, stage1, from, to, size, vaddr, width, isWrite);
    r := Carry(machine, far, vaddr, width, isWrite, val, stage1, walk, Space(big),
               SwTarget(to) + (stage1(vaddr) - from));
  }

  /** hv_map_sw: maps the range word by word to physical addresses from `to` on. */
  method MapSw(st: StageTwo, from: nat, to: nat, size: nat) returns (ret: int)
    requires st.Valid() && from + size <= Space(st.big) && IsSwMap(to) && TargetOk(to, 1, size)
    modifies st
    ensures st.Valid() && ret == (if from % 4 != 0 || size % 4 != 0 then -1 else 0)
    ensures ret == -1 ==> st.mem == old(st.mem) && st.lay == old(st.lay)
    ensures ret == 0 ==> SwRange(st.mem, st.lay, st.big, from, to, size)
    ensures ret == 0 ==> forall a: nat :: from <= a < from + size ==>
              && st.At(a) == to + (a - from) - (a - from) % 4
              && st.Walk(a) % 2 == 0 && st.Walk(a) - st.Walk(a) % 4 == to + (a - from) - (a - from) % 4
    ensures ret == 0 ==> forall a: nat :: a < Space(st.big) && !(from <= a < from + size) ==>
              st.At(a) == Remains(old(st.At(a)), a, from, size)
  {
    hide View, Eff, Good, HvMapped, Remains, SwRange, TargetOk, IsSwMap, HvPtWalk, WalkView, NoType;
    PlainSw(to, size);
    ret := st.HvMap(from, to, size, 1);
    if ret == 0 {
      forall a: nat | from <= a < from + size
        ensures st.At(a) == Eff(to, Word(a - from)) == to + (a - from) - (a - from) % 4
        ensures st.Walk(a) % 2 == 0 && st.Walk(a) - st.Walk(a) % 4 == to + (a - from) - (a - from) % 4
      {
        InsideMapped(old(st.At(a)), a, from, to, size);
        SwWordIs(to, size, a - from);
        WalkReadsView(st.mem, st.root, st.lay, st.big, a);
        PlainSwWord(st.Walk(a), a, to + Word(a - from));
      }
      IsSwRange(st, from, to, size);
    }
  }

  lemma PlainSw(to: nat, size: nat)
    requires IsSwMap(to) && TargetOk(to, 1, size)
    ensures to % 4 == 0 && to % 2 == 0
  {
  }

  lemma InsideMapped(v: nat, a: nat, from: nat, to: nat, size: nat)
    requires from <= a < from + size
    ensures HvMapped(v, a, from, to, size) == Eff(to, Word(a - from))
  {
    hide Eff, PageSplit;
  }

  lemma SwWordIs(to: nat, size: nat, d: nat)
    requires IsSwMap(to) && TargetOk(to, 1, size) && d < size
    ensures Eff(to, Word(d)) == to + Word(d) && (to + Word(d)) % 4 == 0
  {
    PlainSw(to, size);
    WordBelow4(d);
    AddMultiple(to, 4, Word(d) / 4);
  }

  lemma IsSwRange(st: StageTwo, from: nat, to: nat, size: nat)
    requires st.Valid() && from + size <= Space(st.big) && IsSwMap(to) && TargetOk(to, 1, size)
    requires from % 4 == 0
    requires forall a: nat :: from <= a < from + size ==> st.At(a) == Eff(to, Word(a - from))
    ensures SwRange(st.mem, st.lay, st.big, from, to, size)
  {
    hide View, Eff, Good, TargetOk, IsSwMap;
    forall a: nat | from <= a < from + size ensures View(st.mem, st.lay, st.big, a) == Eff(to, Word(a - from)) {
      assert st.At(a) == View(st.mem, st.lay, st.big, a);
    }
  }

  predicate PlainWord(t: nat) { 0 < t && t % 4 == 0 && t + 8 <= 0x4_0000_0000_0000 }

  lemma PlainTarget(t: nat)
    requires PlainWord(t)
    ensures IsSwMap(t) && !IsHw(t) && TargetOk(t, 1, 4) && Eff(t, Word(0)) == t && Target4(t) == t
  {
    FieldsOf(t, 0, t, 0);
    DivModIs(t, 0x4_0000_0000_0000, 0, t);
    hide Target4, SpteType;
  }

  lemma PlainHome(mem: Mem, lay: Layout, big: bool, a: nat, t: nat, isWrite: bool)
    requires PlainWord(t) && a % 4 == 0 && View(mem, lay, big, a) == t
    ensures Home(mem, lay, big, a, isWrite) == Ram(t)
  {
    hide View;
    PlainTarget(t);
  }

  function Identity(a: nat): nat { a }

  /** A store of 8 bytes at an aligned address lands where its first word leads. */
  lemma PlainLands(mem: Mem, root: nat, lay: Layout, big: bool, walk: nat -> nat, a: nat, t: nat)
    requires Good(mem, root, lay, big) && WalkOf(walk, mem, root, lay, big)
    requires 0 < a < Space(big) && a % 8 == 0 && View(mem, lay, big, a) == t && PlainWord(t)
    ensures Reaches(a, 3, Identity, walk) && Lands(a, 3, t, true, Identity, walk, Space(big)) && Linear(Identity, a, 8)
  {
    hide View, Good;
    PlainTarget(t);
    MappedWordIsRam(mem, root, lay, big, a, a, true);
    assert walk(a) == HvPtWalk(mem, root, lay, big, a);
    hide HvPtWalk, WalkOf, Place, Target4, Kind, IsHw;
    DoublewordInPage(a, 3);
    hide Straddles, Upper;
    assert Identity(a) == a;
  }

  lemma DoublewordInPage(a: nat, width: nat)
    requires width == 3 && a % 8 == 0
    ensures !Straddles(a, width) && a % 4 == 0
  {
    Nested(a, 4, 2);
    Nested(a, 8, 0x800);
    var m := a % 0x4000;
    assert m == m / 8 * 8;
    AddSmall(a, 0x4000, 7);
  }

  /** Two neighbouring words with targets of their own. */
  method TwoWords(t1: nat, t2: nat) returns (st: StageTwo)
    requires PlainWord(t1) && PlainWord(t2)
    ensures fresh(st) && st.Valid() && 0x1008 < Space(st.big) && st.At(0x1000) == t1 && st.At(0x1004) == t2
  {
    hide View, Good, Eff, PlainWord, IsSwMap, TargetOk, Target4;
    st := new StageTwo(36, 0, 0);
    PlainTarget(t1);
    PlainTarget(t2);
    var from := 0x1000;
    var ret := MapSw(st, from, t1, 4);
    assert st.At(from) == t1;
    ret := MapSw(st, from + 4, t2, 4);
    assert st.At(from + 4) == t2;
    assert st.At(from) == PageSplit(t1, PartlyMapped(from, from + 4, 4), from);
  }

  /** A store of 8 bytes goes to where its first word leads. */
  method Store8(st: StageTwo, machine: Machine, a: nat, ghost t: nat, val: array<Byte>) returns (r: Outcome)
    requires st.Valid() && 0 < a < Space(st.big) && a % 8 == 0 && st.At(a) == t && PlainWord(t) && val.Length == 64
    modifies machine, val
    ensures machine.faults == old(machine.faults) ==> r == Done
    ensures r == Done ==> Written(old(machine.mem), machine.mem, t, val[..8])
    ensures forall x: nat :: machine.mem(x) == old(machine.mem)(x) || t <= x < t + 8
  {
    hide View, Good, PlainWord, Reaches, Lands, Linear, Written;
    var m, root, big := st.mem, st.root, st.big;
    ghost var lay := st.lay;
    var walk := (a: nat) => if a < Space(big) then HvPtWalk(m, root, lay, big, a) else 0;
    hide HvPtWalk;
    PlainLands(m, root, lay, big, walk, a, t);
    r := Carry(machine, a, a, 3, true, val, Identity, walk, Space(big), t);
  }

  /** A store of 8 bytes over both: all bytes go to where the first word leads.  The fifth byte misses its home
      unless the targets follow each other. */
  method StoreOverTwoWords(t1: nat, t2: nat, mem: Memory, val: array<Byte>)
    returns (st: StageTwo, machine: Machine, r: Outcome)
    requires val.Length == 64 && PlainWord(t1) && PlainWord(t2)
    modifies val
    ensures st.Valid() && (machine.faults == 0 ==> r == Done)
    ensures Home(st.mem, st.lay, st.big, 0x1000, true) == Ram(t1)
    ensures Home(st.mem, st.lay, st.big, 0x1004, true) == Ram(t2)
    ensures r == Done ==> Written(mem, machine.mem, t1, val[..8])
    ensures !(t1 <= t2 < t1 + 8) ==> machine.mem(t2) == mem(t2)
  {
    hide View, Good, PlainWord, Home, Written;
    st := TwoWords(t1, t2);
    machine := new Machine(mem);
    PlainHome(st.mem, st.lay, st.big, 0x1000, t1, true);
    PlainHome(st.mem, st.lay, st.big, 0x1004, t2, true);
    r := Store8(st, machine, 0x1000, t1, val);
  }
}
