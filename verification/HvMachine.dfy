/** The emulation of guest accesses on physical memory and hooks (hv_pa_read, hv_pa_write, hv_emulate_rw_aligned,
    hv_emulate_rw and the data-abort path above them in src/hv_vm.c).
 */
module HvMachine {
  import opened HvDescriptors
  import opened HvEmulate

  /** A hook saw an access of |data| bytes at ipa: the bytes written, or the bytes it answered with. */
  datatype HookCall = HookCall(hook: nat, ipa: nat, isWrite: bool, data: seq<Byte>)

  predicate Natural(ipa: nat, n: nat) { n > 0 && ipa % n == 0 }

  /** The calls hand over the data from ipa on, piece by piece and in order, each piece naturally aligned. */
  ghost predicate Served(calls: seq<HookCall>, hook: nat, ipa: nat, isWrite: bool, data: seq<Byte>)
    decreases |calls|
  {
    if calls == [] then data == []
    else
      var h := calls[|calls| - 1];
      var n := |data| - |h.data|;
      && 0 <= n && 0 < |h.data| && h == HookCall(hook, ipa + n, isWrite, data[n..]) && Natural(h.ipa, |h.data|)
      && Served(calls[..|calls| - 1], hook, ipa, isWrite, data[..n])
  }

  lemma {:induction false} ServedMore(calls: seq<HookCall>, hook: nat, ipa: nat, isWrite: bool,
                                      data: seq<Byte>, more: seq<Byte>)
    requires Served(calls, hook, ipa, isWrite, data) && more != [] && Natural(ipa + |data|, |more|)
    ensures Served(calls + [HookCall(hook, ipa + |data|, isWrite, more)], hook, ipa, isWrite, data + more)
  {
    hide Natural;
    var all := calls + [HookCall(hook, ipa + |data|, isWrite, more)];
    assert all[..|all| - 1] == calls;
    assert (data + more)[|data|..] == more && (data + more)[..|data|] == data;
  }

  /** The data has been transferred between the buffer and its place. */
  ghost predicate Moved(place: Sink, ipa: nat, isWrite: bool, data: seq<Byte>,
                        m: Memory, m': Memory, calls: seq<HookCall>)
  {
    match place
    case Ram(a) => calls == [] && if isWrite then Written(m, m', a, data) else m' == m && data == Bytes(m, a, |data|)
    case Hooked(h) => m' == m && Served(calls, h, ipa, isWrite, data)
    case Invalid => m' == m && calls == [] && data == []
  }

  lemma MovedMore(place: Sink, ipa: nat, isWrite: bool, data: seq<Byte>, more: seq<Byte>,
                  m: Memory, m1: Memory, m2: Memory, calls: seq<HookCall>, one: seq<HookCall>)
    requires Moved(place, ipa, isWrite, data, m, m1, calls) && more != []
    requires Natural(ipa + |data|, |more|) && Step(Shift(place, |data|), ipa + |data|, isWrite, more, m1, m2, one)
    ensures Moved(place, ipa, isWrite, data + more, m, m2, calls + one)
  {
    hide Written, Served, Natural;
    match place
    case Ram(a) =>
      if isWrite {
        WrittenTwice(m, m1, m2, a, data, more);
      } else {
        assert data + more == Bytes(m, a, |data + more|);
      }
    case Hooked(h) =>
      ServedMore(calls, h, ipa, isWrite, data, more);
    case Invalid =>
  }

  /** One piece is transferred. */
  ghost predicate Step(place: Sink, ipa: nat, isWrite: bool, data: seq<Byte>,
                       m: Memory, m': Memory, calls: seq<HookCall>)
  {
    match place
    case Ram(a) => calls == [] && if isWrite then Written(m, m', a, data) else m' == m && data == Bytes(m, a, |data|)
    case Hooked(h) => m' == m && calls == [HookCall(h, ipa, isWrite, data)]
    case Invalid => false
  }

  /** The kinds of entries: SPTE_HOOK (1) and SPTE_PROXY_HOOK_RW (4) hand both sides to the hook, SPTE_PROXY_HOOK_R (2)
      the reads and SPTE_PROXY_HOOK_W (3) the writes; the other side of these two goes to the address itself, hardware
      and SPTE_MAP entries (0) go to their target, and other kinds nowhere. */
  lemma PlaceIs(pte: nat, vaddr: nat, ipa: nat, isWrite: bool)
    ensures var t: nat := pte % 0x4_0000_0000_0000 - pte % 4;
            Place(pte, vaddr, ipa, isWrite) ==
              if pte % 2 == 1 then Ram(t + vaddr % 4)
              else
                match pte / 0x4_0000_0000_0000 % 8
                case 0 => Ram(t + vaddr % 4)
                case 1 => Hooked(t)
                case 2 => if isWrite then Ram(ipa) else Hooked(t)
                case 3 => if isWrite then Hooked(t) else Ram(ipa)
                case 4 => Hooked(t)
                case _ => Invalid
  {
  }

  /** What Moved says, kind by kind. */
  lemma KindsMoved(pte: nat, vaddr: nat, ipa: nat, isWrite: bool, data: seq<Byte>, m: Memory, m': Memory,
                   c: seq<HookCall>, c': seq<HookCall>)
    requires c <= c' && Moved(Place(pte, vaddr, ipa, isWrite), ipa, isWrite, data, m, m', c'[|c|..])
    ensures var t: nat, k := pte % 0x4_0000_0000_0000 - pte % 4, pte / 0x4_0000_0000_0000 % 8;
            && (pte % 2 == 0 && (k == 1 || k == 4 || (k == 2 && !isWrite) || (k == 3 && isWrite)) ==>
                  m' == m && Served(c'[|c|..], t, ipa, isWrite, data))
            && (pte % 2 == 0 && ((k == 2 && isWrite) || (k == 3 && !isWrite)) ==>
                  && c' == c
                  && if isWrite then Written(m, m', ipa, data) else m' == m && data == Bytes(m, ipa, |data|))
            && (pte % 2 == 1 || k == 0 ==>
                  && c' == c
                  && if isWrite then Written(m, m', t + vaddr % 4, data)
                     else m' == m && data == Bytes(m, t + vaddr % 4, |data|))
            && (pte % 2 == 0 && k >= 5 ==> data == [])
  {
    PlaceIs(pte, vaddr, ipa, isWrite);
    hide Place, Served, Written;
    assert c' == c + c'[|c|..];
  }

  /** Whether an access succeeds when no fault and no refusal comes from outside: reads do not support 64-byte
      pieces. */
  predicate Supported(place: Sink, ipa: nat, isWrite: bool, n: nat) {
    n == 0 || place.Hooked? || (place.Ram? && (isWrite || !HasBlock64(ipa, n)))
  }

  /** The same by the kind of the entry. */
  lemma SupportedIs(pte: nat, vaddr: nat, ipa: nat, isWrite: bool, n: nat)
    requires n > 0
    ensures var k := pte / 0x4_0000_0000_0000 % 8;
            Supported(Place(pte, vaddr, ipa, isWrite), ipa, isWrite, n) <==>
            && (pte % 2 == 1 || k <= 4)
            && (isWrite || (pte % 2 == 0 && (k == 1 || k == 2 || k == 4)) || n < 64 + (64 - ipa % 64) % 64)
  {
    PlaceIs(pte, vaddr, ipa, isWrite);
    hide Place;
  }

  /** Each call is for the widest piece that can be accessed at its address. */
  ghost predicate AllWidest(calls: seq<HookCall>, end: nat) {
    forall i :: 0 <= i < |calls| ==> Widest(calls[i].ipa, |calls[i].data|, end)
  }

  lemma NoneYet(end: nat)
    ensures AllWidest([], end)
  {
  }

  lemma {:induction false} FirstCall(calls: seq<HookCall>, hook: nat, ipa: nat, isWrite: bool, data: seq<Byte>)
    requires Served(calls, hook, ipa, isWrite, data) && calls != []
    ensures calls[0].ipa == ipa && |calls[0].data| <= |data|
    ensures |calls[0].data| == |data| ==> calls == [HookCall(hook, ipa, isWrite, data)]
    decreases |calls|
  {
    var h := calls[|calls| - 1];
    var n := |data| - |h.data|;
    if |calls| == 1 {
      assert calls[..0] == [] && data[..n] == [] && data[n..] == data;
      assert calls == [h];
    } else {
      FirstCall(calls[..|calls| - 1], hook, ipa, isWrite, data[..n]);
    }
  }

  /** A hook sees a naturally aligned access in one call. */
  lemma OneCall(calls: seq<HookCall>, hook: nat, ipa: nat, isWrite: bool, data: seq<Byte>)
    requires Served(calls, hook, ipa, isWrite, data) && AllWidest(calls, ipa + |data|)
    requires |data| in {1, 2, 4, 8, 16, 32, 64} && ipa % |data| == 0
    ensures calls == [HookCall(hook, ipa, isWrite, data)]
  {
    FirstCall(calls, hook, ipa, isWrite, data);
    assert Widest(ipa, |calls[0].data|, ipa + |data|);
    hide Served;
  }

  /** What an access that fails may have changed. */
  ghost predicate Confined(place: Sink, n: nat, isWrite: bool, m: Memory, m': Memory) {
    if isWrite && place.Ram? then OnlyWithin(m, m', place.addr, n) else m' == m
  }

  /** The address belongs to the n bytes of memory that a write to this place may change. */
  predicate Touches(place: Sink, isWrite: bool, n: nat, x: nat) {
    isWrite && place.Ram? && place.addr <= x < place.addr + n
  }

  lemma StepCalls(place: Sink, ipa: nat, isWrite: bool, data: seq<Byte>, m: Memory, m': Memory, c: seq<HookCall>,
                  c': seq<HookCall>)
    requires c <= c' && Step(place, ipa, isWrite, data, m, m', c'[|c|..])
    ensures forall i :: |c| <= i < |c'| ==> c'[i].ipa == ipa && |c'[i].data| == |data|
  {
    hide Written;
    assert c' == c + c'[|c|..];
  }

  lemma MoreWidest(c: seq<HookCall>, c1: seq<HookCall>, c2: seq<HookCall>, ipa: nat, n: nat, end: nat)
    requires c <= c1 <= c2 && AllWidest(c1[|c|..], end) && Widest(ipa, n, end)
    requires forall i :: |c1| <= i < |c2| ==> c2[i].ipa == ipa && |c2[i].data| == n
    ensures AllWidest(c2[|c|..], end)
  {
    hide Widest;
    forall i | 0 <= i < |c2[|c|..]| ensures Widest(c2[|c|..][i].ipa, |c2[|c|..][i].data|, end) {
      if |c| + i < |c1| { assert c1[|c|..][i] == c2[|c|..][i]; }
    }
  }

  lemma MovedInside(place: Sink, ipa: nat, isWrite: bool, data: seq<Byte>, m: Memory, m': Memory, calls: seq<HookCall>)
    requires Moved(place, ipa, isWrite, data, m, m', calls)
    ensures Confined(place, |data|, isWrite, m, m')
  {
    hide Served;
  }

  lemma ConfinedInside(place: Sink, isWrite: bool, n: nat, m: Memory, m': Memory)
    requires Confined(place, n, isWrite, m, m')
    ensures forall x: nat :: Touches(place, isWrite, n, x) || m'(x) == m(x)
  {
  }

  lemma NaturalPiece(ipa: nat, width: nat)
    requires width <= 6 && ipa % Pow2(width) == 0
    ensures Natural(ipa, Pow2(width))
  {
  }

  lemma NoBlockLeft(ipa: nat)
    ensures !HasBlock64(ipa, 0)
  {
  }

  lemma NothingMoved(place: Sink, ipa: nat, isWrite: bool, m: Memory)
    ensures Moved(place, ipa, isWrite, [], m, m, [])
  {
  }

  lemma ConfinedMore(place: Sink, ipa: nat, isWrite: bool, data: seq<Byte>, chunk: nat, n: nat,
                     m: Memory, m1: Memory, m2: Memory, calls: seq<HookCall>)
    requires Moved(place, ipa, isWrite, data, m, m1, calls) && |data| + chunk <= n
    requires Confined(Shift(place, |data|), chunk, isWrite, m1, m2)
    ensures Confined(place, n, isWrite, m, m2)
  {
  }

  datatype Outcome = Failed | Retry | Done

  function PageOf(v: nat): nat { v - v % 0x4000 }

  /** The start of the page that holds the last byte of the access. */
  function Upper(vaddr: nat, width: nat): nat
    requires width <= 6
  {
    PageOf(vaddr + Pow2(width) - 1)
  }

  predicate Straddles(vaddr: nat, width: nat)
    requires width <= 6
  {
    PageOf(vaddr) != Upper(vaddr, width)
  }

  /** An access of 2^width bytes straddles exactly if its first and its last byte lie in different 16 KiB pages, and the
      upper half starts with the page of the last byte. */
  lemma StraddlesIs(vaddr: nat, width: nat)
    requires width <= 6
    ensures var last: nat := vaddr + [0, 1, 3, 7, 15, 31, 63][width];
            && (Straddles(vaddr, width) <==> vaddr / 0x4000 != last / 0x4000)
            && Upper(vaddr, width) == last / 0x4000 * 0x4000 && vaddr + Pow2(width) == last + 1
            && (Straddles(vaddr, width) ==> vaddr < last / 0x4000 * 0x4000 <= last)
  {
    var last: nat := vaddr + [0, 1, 3, 7, 15, 31, 63][width];
    assert vaddr + Pow2(width) == last + 1;
    PageOfIs(vaddr);
    PageOfIs(last);
    hide PageOf, Pow2;
    if vaddr / 0x4000 != last / 0x4000 { LaterPage(vaddr, last); }
  }

  lemma PageOfIs(v: nat)
    ensures PageOf(v) == v / 0x4000 * 0x4000
  {
  }

  lemma LaterPage(v: nat, last: nat)
    requires v <= last && v / 0x4000 != last / 0x4000
    ensures v / 0x4000 * 0x4000 != last / 0x4000 * 0x4000 && v < last / 0x4000 * 0x4000 <= last
  {
  }

  lemma UpperInside(vaddr: nat, width: nat)
    requires width <= 6 && Straddles(vaddr, width)
    ensures vaddr < Upper(vaddr, width) < vaddr + Pow2(width)
  {
  }

  /** The target of a mapped entry does not run past bit 49 within n bytes. */
  predicate InReach(pte: nat, vaddr: nat, n: nat) {
    Kind(pte) == 0 ==> Target4(pte) + vaddr % 4 + n <= 0x4_0000_0000_0000
  }

  /** The same for both parts of an access. */
  predicate Reaches(vaddr: nat, width: nat, stage1: nat -> nat, walk: nat -> nat)
    requires width <= 6
  {
    var up := Upper(vaddr, width);
    if !Straddles(vaddr, width) then InReach(walk(stage1(vaddr)), vaddr, Pow2(width))
    else
      && vaddr <= up <= vaddr + Pow2(width) && InReach(walk(stage1(vaddr)), vaddr, up - vaddr)
      && InReach(walk(stage1(up)), up, vaddr + Pow2(width) - up)
  }

  function PlaceAt(v: nat, isWrite: bool, stage1: nat -> nat, walk: nat -> nat): Sink {
    Place(walk(stage1(v)), v, stage1(v), isWrite)
  }

  predicate MayTouch(vaddr: nat, width: nat, isWrite: bool, stage1: nat -> nat, walk: nat -> nat, x: nat)
    requires width <= 6
  {
    var up := Upper(vaddr, width);
    if !Straddles(vaddr, width) then Touches(PlaceAt(vaddr, isWrite, stage1, walk), isWrite, Pow2(width), x)
    else
      && vaddr <= up <= vaddr + Pow2(width)
      && (|| Touches(PlaceAt(vaddr, isWrite, stage1, walk), isWrite, up - vaddr, x)
          || Touches(PlaceAt(up, isWrite, stage1, walk), isWrite, vaddr + Pow2(width) - up, x))
  }

  /** Both translations know the address. */
  predicate Mapped(v: nat, stage1: nat -> nat, walk: nat -> nat, space: nat) {
    0 < stage1(v) < space && walk(stage1(v)) != 0
  }

  predicate SupportedAt(v: nat, isWrite: bool, n: nat, stage1: nat -> nat, walk: nat -> nat) {
    Supported(PlaceAt(v, isWrite, stage1, walk), stage1(v), isWrite, n)
  }

  /** The accesses that the handler carries out, faults and refusals aside: the address that faulted is the first
      byte of the access or of its second page, it is no hardware mapping, and both parts can be looked up and are
      supported. */
  predicate Emulated(far: nat, vaddr: nat, width: nat, isWrite: bool, stage1: nat -> nat, walk: nat -> nat, space: nat)
    requires width <= 6
  {
    var up := Upper(vaddr, width);
    && Mapped(far, stage1, walk, space) && !IsHw(walk(stage1(far)))
    && if !Straddles(vaddr, width) then far == vaddr && SupportedAt(vaddr, isWrite, Pow2(width), stage1, walk)
       else
         && (far == vaddr || far == up) && Mapped(vaddr, stage1, walk, space) && Mapped(up, stage1, walk, space)
         && vaddr <= up <= vaddr + Pow2(width) && SupportedAt(vaddr, isWrite, up - vaddr, stage1, walk)
         && SupportedAt(up, isWrite, vaddr + Pow2(width) - up, stage1, walk)
  }

  /** Two transfers, one after the other. */
  ghost predicate MovedInTwo(place: Sink, ipa: nat, place2: Sink, ipa2: nat, isWrite: bool,
                             low: seq<Byte>, high: seq<Byte>, m: Memory, m': Memory, calls: seq<HookCall>)
  {
    exists mid: Memory, c1, c2 ::
      && calls == c1 + c2
      && Moved(place, ipa, isWrite, low, m, mid, c1) && Moved(place2, ipa2, isWrite, high, mid, m', c2)
      && AllWidest(c1, ipa + |low|) && AllWidest(c2, ipa2 + |high|)
  }

  lemma Rejoin<T>(a: seq<T>, b: seq<T>, n: nat)
    requires n <= |b|
    ensures a + b[..n] + b[n..] == a + b
  {
  }

  lemma ServedLast(calls: seq<HookCall>, hook: nat, ipa: nat, isWrite: bool, data: seq<Byte>) returns (n: nat)
    requires calls != [] && Served(calls, hook, ipa, isWrite, data)
    ensures n < |data| && Natural(ipa + n, |data[n..]|)
    ensures calls[|calls| - 1] == HookCall(hook, ipa + n, isWrite, data[n..])
    ensures Served(calls[..|calls| - 1], hook, ipa, isWrite, data[..n])
  {
    n := |data| - |calls[|calls| - 1].data|;
  }

  lemma {:induction false} ServedJoin(c1: seq<HookCall>, c2: seq<HookCall>, hook: nat, ipa: nat, isWrite: bool,
                                      low: seq<Byte>, high: seq<Byte>)
    requires Served(c1, hook, ipa, isWrite, low) && Served(c2, hook, ipa + |low|, isWrite, high)
    ensures Served(c1 + c2, hook, ipa, isWrite, low + high)
    decreases |c2|
  {
    if c2 == [] {
      assert c1 + c2 == c1 && low + high == low;
    } else {
      hide Natural, Served;
      var n := ServedLast(c2, hook, ipa + |low|, isWrite, high);
      var c, d := c1 + c2[..|c2| - 1], low + high[..n];
      ServedJoin(c1, c2[..|c2| - 1], hook, ipa, isWrite, low, high[..n]);
      assert ipa + |d| == ipa + |low| + n;
      ServedMore(c, hook, ipa, isWrite, d, high[n..]);
      Rejoin(c1, c2, |c2| - 1);
      Rejoin(low, high, n);
      assert c2[|c2| - 1..] == [HookCall(hook, ipa + |d|, isWrite, high[n..])];
    }
  }

  /** Two halves whose places follow each other are one unsplit transfer. */
  lemma TwoAreOne(place: Sink, ipa: nat, isWrite: bool, low: seq<Byte>, high: seq<Byte>,
                  m: Memory, m': Memory, calls: seq<HookCall>)
    requires MovedInTwo(place, ipa, Shift(place, |low|), ipa + |low|, isWrite, low, high, m, m', calls)
    ensures Moved(place, ipa, isWrite, low + high, m, m', calls)
  {
    hide Served, Written;
    var mid: Memory, c1, c2 :| calls == c1 + c2 && Moved(place, ipa, isWrite, low, m, mid, c1)
      && Moved(Shift(place, |low|), ipa + |low|, isWrite, high, mid, m', c2);
    match place
    case Ram(a) =>
      if isWrite {
        WrittenTwice(m, mid, m', a, low, high);
      } else {
        assert low + high == Bytes(m, a, |low + high|);
      }
    case Hooked(h) =>
      ServedJoin(c1, c2, h, ipa, isWrite, low, high);
    case Invalid =>
  }

  class Machine {
    var mem: Memory
    ghost var calls: seq<HookCall>
    // Exceptions during accesses and hooks that refused.
    ghost var faults: nat

    constructor (mem: Memory)
      ensures this.mem == mem && calls == [] && faults == 0
    {
      this.mem := mem;
      calls, faults := [], 0;
    }

    /** write8 up to write64: the low n bytes of the word, unless the access faults. */
    method Store(addr: nat, w: nat, n: nat) returns (ok: bool)
      requires n <= 8
      modifies `mem, `faults
      ensures ok ==> faults == old(faults) && Written(old(mem), mem, addr, LowBytes(w, n))
      ensures !ok ==> faults == old(faults) + 1 && mem == old(mem)
    {
      ok := *;
      if !ok { faults := faults + 1; return; }
      var m := mem;
      mem := (x: nat) => if addr <= x < addr + n then ByteOf(w, x - addr) else m(x);
    }

    /** hv_pa_write: faulting stores are skipped and reported at the end. */
    method PaWrite(addr: nat, val: seq<nat>, width: nat) returns (ok: bool)
      requires |val| == 8 && width <= 6
      modifies `mem, `faults
      ensures ok ==> faults == old(faults) && Written(old(mem), mem, addr, FromWords(val, Pow2(width)))
      ensures !ok ==> faults > old(faults) && OnlyWithin(old(mem), mem, addr, Pow2(width))
    {
      if width <= 3 {
        ok := Store(addr, val[0], Pow2(width));
        assert LowBytes(val[0], Pow2(width)) == FromWords(val, Pow2(width));
        return;
      }
      ok := PaWriteWords(addr, val, Pow2(width) / 8);
    }

    method PaWriteWords(addr: nat, val: seq<nat>, n: nat) returns (ok: bool)
      requires |val| == 8 && n <= 8
      modifies `mem, `faults
      ensures ok ==> faults == old(faults) && Written(old(mem), mem, addr, FromWords(val, 8 * n))
      ensures !ok ==> faults > old(faults) && OnlyWithin(old(mem), mem, addr, 8 * n)
    {
      var i := 0;
      ok := true;
      while i < n
        invariant i <= n && old(faults) <= faults && (ok <==> faults == old(faults))
        invariant ok ==> Written(old(mem), mem, addr, FromWords(val, 8 * i))
        invariant OnlyWithin(old(mem), mem, addr, 8 * i)
      {
        ghost var m1 := mem;
        var done := Store(addr + 8 * i, val[i], 8);
        FromWordsNext(val, i);
        WithinTwice(old(mem), m1, mem, addr, 8 * i, 8, LowBytes(val[i], 8));
        ok := ok && done;
        if ok { WrittenTwice(old(mem), m1, mem, addr, FromWords(val, 8 * i), LowBytes(val[i], 8)); }
        i := i + 1;
      }
    }

    /** hv_pa_read, which supports up to 32 bytes. */
    method PaRead(addr: nat, width: nat) returns (ok: bool, val: seq<nat>)
      requires width <= 6
      modifies `faults
      ensures |val| == 8 && (ok ==> faults == old(faults) && width < 6)
      ensures ok ==> FromWords(val, Pow2(width)) == Bytes(mem, addr, Pow2(width))
      ensures !ok ==> faults > old(faults) || (width == 6 && faults == old(faults))
    {
      val := ToWords([]);
      if width == 6 { return false, val; }
      val := ToWords(Bytes(mem, addr, Pow2(width)));
      WordsRoundTrip(Bytes(mem, addr, Pow2(width)));
      ok := *;
      if !ok { faults := faults + 1; }
    }

    /** A hook, or the proxy on the host, handles the access. */
    method CallHook(hook: nat, ipa: nat, isWrite: bool, val: seq<nat>, width: nat) returns (ok: bool, out: seq<nat>)
      requires |val| == 8 && width <= 6
      modifies `calls, `faults
      ensures |out| == 8 && (isWrite ==> out == val)
      ensures ok ==> faults == old(faults)
      ensures ok ==> calls == old(calls) + [HookCall(hook, ipa, isWrite, FromWords(out, Pow2(width)))]
      ensures !ok ==> faults == old(faults) + 1
    {
      out := val;
      if !isWrite { out :| |out| == 8; }
      ok := *;
      if ok {
        calls := calls + [HookCall(hook, ipa, isWrite, FromWords(out, Pow2(width)))];
      } else {
        faults := faults + 1;
      }
    }

    /** hv_emulate_rw_aligned. */
    method RwAligned(pte: nat, vaddr: nat, ipa: nat, val: seq<nat>, isWrite: bool, width: nat)
      returns (ok: bool, out: seq<nat>)
      requires pte != 0 && width <= 6 && ipa % 0x4000 + Pow2(width) <= 0x4000 && |val| == 8
      modifies this
      ensures |out| == 8 && (isWrite ==> out == val)
      ensures ok ==> faults == old(faults) && old(calls) <= calls
      ensures ok ==> Step(Place(pte, vaddr, ipa, isWrite), ipa, isWrite, FromWords(out, Pow2(width)), old(mem), mem,
                          calls[|old(calls)|..])
      ensures !ok ==> Confined(Place(pte, vaddr, ipa, isWrite), Pow2(width), isWrite, old(mem), mem)
      ensures !ok && faults == old(faults) ==>
                || Place(pte, vaddr, ipa, isWrite).Invalid?
                || (Place(pte, vaddr, ipa, isWrite).Ram? && !isWrite && width == 6)
      ensures ok ==> !Place(pte, vaddr, ipa, isWrite).Invalid?
      ensures ok && Place(pte, vaddr, ipa, isWrite).Ram? && !isWrite ==> width < 6
      ensures old(faults) <= faults
      // SPTE_HOOK and SPTE_PROXY_HOOK_RW see both sides, SPTE_PROXY_HOOK_R the reads, SPTE_PROXY_HOOK_W the writes
      ensures ok && pte % 2 == 0 && pte / 0x4_0000_0000_0000 % 8 in {1, 4} ==>
                && mem == old(mem)
                && calls == old(calls) + [HookCall(pte % 0x4_0000_0000_0000 - pte % 4, ipa, isWrite,
                                                   FromWords(out, Pow2(width)))]
      ensures ok && pte % 2 == 0 && pte / 0x4_0000_0000_0000 % 8 == 2 && !isWrite ==>
                && mem == old(mem)
                && calls == old(calls) + [HookCall(pte % 0x4_0000_0000_0000 - pte % 4, ipa, false,
                                                   FromWords(out, Pow2(width)))]
      ensures ok && pte % 2 == 0 && pte / 0x4_0000_0000_0000 % 8 == 2 && isWrite ==>
                calls == old(calls) && Written(old(mem), mem, ipa, FromWords(val, Pow2(width)))
      ensures ok && pte % 2 == 0 && pte / 0x4_0000_0000_0000 % 8 == 3 && isWrite ==>
                && mem == old(mem)
                && calls == old(calls) + [HookCall(pte % 0x4_0000_0000_0000 - pte % 4, ipa, true,
                                                   FromWords(val, Pow2(width)))]
      ensures ok && pte % 2 == 0 && pte / 0x4_0000_0000_0000 % 8 == 3 && !isWrite ==>
                calls == old(calls) && mem == old(mem) && FromWords(out, Pow2(width)) == Bytes(mem, ipa, Pow2(width))
      ensures pte % 2 == 0 && pte / 0x4_0000_0000_0000 % 8 >= 5 ==> !ok
      ensures ok && (pte % 2 == 1 || pte / 0x4_0000_0000_0000 % 8 == 0) ==>
                && calls == old(calls)
                && var a: nat := pte % 0x4_0000_0000_0000 - pte % 4 + vaddr % 4;
                   if isWrite then Written(old(mem), mem, a, FromWords(val, Pow2(width)))
                   else mem == old(mem) && FromWords(out, Pow2(width)) == Bytes(mem, a, Pow2(width))
    {
      hide Written;
      out := val;
      var target := Target4(pte);
      var paddr := target + vaddr % 4;
      var kind := Kind(pte);
      if isWrite {
        if kind == 2 { paddr := ipa; }
        if kind == 2 || kind == 0 {
          ok := PaWrite(paddr, val, width);
        } else if kind == 1 || kind == 3 || kind == 4 {
          ok, out := CallHook(target, ipa, true, val, width);
        } else {
          ok := false;
        }
      } else {
        if kind == 3 { paddr := ipa; }
        if kind == 3 || kind == 0 {
          ok, out := PaRead(paddr, width);
        } else if kind == 1 || kind == 2 || kind == 4 {
          ok, out := CallHook(target, ipa, false, val, width);
        } else {
          ok := false;
        }
      }
    }

    /** The copy of what was read into the buffer. */
    static method CopyBack(val: array<Byte>, at: nat, got: seq<Byte>)
      requires at + |got| <= val.Length
      modifies val
      ensures val[at..at + |got|] == got
      ensures forall k :: 0 <= k < val.Length && !(at <= k < at + |got|) ==> val[k] == old(val[k])
    {
      for i := 0 to |got|
        invariant forall k :: 0 <= k < val.Length && !(at <= k < at + i) ==> val[k] == old(val[k])
        invariant forall k :: 0 <= k < i ==> val[at + k] == got[k]
      {
        val[at + i] := got[i];
      }
    }

    /** One turn of hv_emulate_rw: the copy into the word area, the access, and the copy back. */
    method Piece(pte: nat, vaddr: nat, ipa: nat, val: array<Byte>, at: nat, isWrite: bool, width: nat)
      returns (ok: bool)
      requires pte != 0 && width <= 6 && ipa % 0x4000 + Pow2(width) <= 0x4000 && at + Pow2(width) <= val.Length
      modifies this, val
      ensures forall k :: 0 <= k < val.Length && (isWrite || !(at <= k < at + Pow2(width))) ==> val[k] == old(val[k])
      ensures ok ==> faults == old(faults) && old(calls) <= calls
      ensures ok ==> Step(Place(pte, vaddr, ipa, isWrite), ipa, isWrite, val[at..at + Pow2(width)], old(mem), mem,
                          calls[|old(calls)|..])
      ensures !ok ==> Confined(Place(pte, vaddr, ipa, isWrite), Pow2(width), isWrite, old(mem), mem)
      ensures !ok ==> val[..] == old(val[..])
      ensures faults == old(faults) ==>
                (ok <==> Place(pte, vaddr, ipa, isWrite).Hooked? ||
                         (Place(pte, vaddr, ipa, isWrite).Ram? && (isWrite || width < 6)))
      ensures old(faults) <= faults
    {
      hide Step, Confined, Place, Written, Bytes;
      var n := Pow2(width);
      var aval := ToWords(if isWrite then val[at..at + n] else []);
      WordsRoundTrip(val[at..at + n]);
      var out;
      ok, out := RwAligned(pte, vaddr, ipa, aval, isWrite, width);
      if ok && !isWrite {
        var got := FromWords(out, n);
        CopyBack(val, at, got);
      }
    }

    /** The access of one turn, after `done` has been moved. */
    method Turn(pte: nat, ghost place: Sink, vaddr: nat, ipa: nat, ghost ipa0: nat, val: array<Byte>, start: nat,
                off: nat, isWrite: bool, width: nat, ghost n: nat, ghost m: Memory, ghost c: seq<HookCall>)
      returns (ok: bool)
      requires pte != 0 && width <= 6 && ipa % 0x4000 + Pow2(width) <= 0x4000 && start + off + Pow2(width) <= val.Length
      requires ipa == ipa0 + off && ipa % Pow2(width) == 0 && off + Pow2(width) <= n
      requires Place(pte, vaddr, ipa, isWrite) == Shift(place, off)
      requires c <= calls && Moved(place, ipa0, isWrite, val[start..start + off], m, mem, calls[|c|..])
      modifies this, val
      ensures forall k :: 0 <= k < val.Length && (isWrite || !(start + off <= k < start + off + Pow2(width))) ==>
                val[k] == old(val[k])
      ensures ok ==> faults == old(faults) && c <= calls
      ensures ok ==> Moved(place, ipa0, isWrite, val[start..start + off + Pow2(width)], m, mem, calls[|c|..])
      ensures ok ==> old(calls) <= calls
      ensures ok ==> forall i :: |old(calls)| <= i < |calls| ==> calls[i].ipa == ipa && |calls[i].data| == Pow2(width)
      ensures !ok ==> Confined(place, n, isWrite, m, mem)
      ensures faults == old(faults) ==> (ok <==> place.Hooked? || (place.Ram? && (isWrite || width < 6)))
      ensures old(faults) <= faults
    {
      hide Place, Moved, Step, Confined, Natural;
      var chunk := Pow2(width);
      ghost var m1, c1, done := mem, calls, val[start..start + off];
      ok := Piece(pte, vaddr, ipa, val, start + off, isWrite, width);
      if !ok {
        ConfinedMore(place, ipa0, isWrite, done, chunk, n, m, m1, mem, c1[|c|..]);
        return;
      }
      ghost var more := val[start + off..start + off + chunk];
      StepCalls(Place(pte, vaddr, ipa, isWrite), ipa, isWrite, more, m1, mem, c1, calls);
      NaturalPiece(ipa, width);
      MovedMore(place, ipa0, isWrite, done, more, m, m1, mem, c1[|c|..], calls[|c1|..]);
      assert c1[|c|..] + calls[|c1|..] == calls[|c|..];
      assert val[start..start + off] == done;
      assert done + more == val[start..start + off + chunk];
    }

    /** The loop of hv_emulate_rw. */
    method Pieces(pte0: nat, vaddr0: nat, ipa0: nat, val: array<Byte>, start: nat, isWrite: bool, bytes: nat)
      returns (ok: bool)
      requires pte0 != 0 && start + bytes <= val.Length
      requires InReach(pte0, vaddr0, bytes)
      modifies this, val
      ensures forall k :: 0 <= k < val.Length && (isWrite || !(start <= k < start + bytes)) ==> val[k] == old(val[k])
      ensures ok ==> old(calls) <= calls && faults == old(faults)
      ensures ok ==> Moved(Place(pte0, vaddr0, ipa0, isWrite), ipa0, isWrite, val[start..start + bytes], old(mem), mem,
                           calls[|old(calls)|..])
      ensures Confined(Place(pte0, vaddr0, ipa0, isWrite), bytes, isWrite, old(mem), mem)
      ensures faults == old(faults) ==> (ok <==> Supported(Place(pte0, vaddr0, ipa0, isWrite), ipa0, isWrite, bytes))
      ensures old(faults) <= faults
      ensures ok ==> AllWidest(calls[|old(calls)|..], ipa0 + bytes)
    {
      hide Place, Moved, Confined, Width, HasBlock64, Target4, Kind, Retarget, Widest, AllWidest;
      NoneYet(ipa0 + bytes);
      var advance := Kind(pte0) == 0;
      var pte: nat := pte0;
      var vaddr: nat, ipa: nat := vaddr0, ipa0;
      var paddr: nat := Target4(pte0) + vaddr0 % 4;
      var left, off := bytes, 0;
      ghost var place := Place(pte0, vaddr0, ipa0, isWrite);
      NothingMoved(place, ipa0, isWrite, mem);
      assert calls[|old(calls)|..] == [] && val[start..start] == [];
      while left > 0
        invariant left + off == bytes && vaddr == vaddr0 + off && ipa == ipa0 + off
        invariant paddr == Target4(pte0) + vaddr0 % 4 + if advance then off else 0
        invariant pte - Target4(pte) == pte0 - Target4(pte0) && (!advance ==> pte == pte0)
        invariant forall k :: 0 <= k < val.Length && (isWrite || !(start <= k < start + off)) ==> val[k] == old(val[k])
        invariant old(calls) <= calls && faults == old(faults)
        invariant Moved(place, ipa0, isWrite, val[start..start + off], old(mem), mem, calls[|old(calls)|..])
        invariant place.Ram? && !isWrite ==> (HasBlock64(ipa0, bytes) <==> HasBlock64(ipa, left))
        invariant off > 0 ==> !place.Invalid?
        invariant AllWidest(calls[|old(calls)|..], ipa0 + bytes)
      {
        var width := Width(ipa, left);
        WidthIs(ipa, left);
        WidestIs(ipa, left);
        BlockAhead(ipa, left);
        var chunk := Pow2(width);
        if advance {
          RetargetSame(pte, pte0, paddr);
          pte := Retarget(pte, paddr);
          RetargetNonzero(pte0, vaddr0, paddr);
          RetargetIs(pte0, paddr);
        }
        PlaceAhead(pte, pte0, vaddr0, ipa0, isWrite, off);
        ghost var c1 := calls;
        ok := Turn(pte, place, vaddr, ipa, ipa0, val, start, off, isWrite, width, bytes, old(mem), old(calls));
        if !ok { return; }
        MoreWidest(old(calls), c1, calls, ipa, chunk, ipa0 + bytes);
        left := left - chunk;
        off := off + chunk;
        ipa := ipa + chunk;
        vaddr := vaddr + chunk;
        if advance { paddr := paddr + chunk; }
      }
      NoBlockLeft(ipa);
      MovedInside(place, ipa0, isWrite, val[start..start + off], old(mem), mem, calls[|old(calls)|..]);
      ok := true;
    }

    /** hv_emulate_rw: a successful access moves all its bytes, in order, between the buffer and their place; what
        a failing one changed lies within the range; and apart from faults and refusals it fails exactly when it is a
        read that contains an aligned 64-byte block, or its entry has no valid kind. */
    method EmulateRw(pte0: nat, vaddr0: nat, ipa0: nat, val: array<Byte>, start: nat, isWrite: bool, bytes: nat)
      returns (ok: bool)
      requires pte0 != 0 && start + bytes <= val.Length
      requires InReach(pte0, vaddr0, bytes)
      modifies this, val
      ensures forall k :: 0 <= k < val.Length && (isWrite || !(start <= k < start + bytes)) ==> val[k] == old(val[k])
      ensures ok ==> old(calls) <= calls && faults == old(faults)
      ensures ok ==> Moved(Place(pte0, vaddr0, ipa0, isWrite), ipa0, isWrite, val[start..start + bytes], old(mem), mem,
                           calls[|old(calls)|..])
      ensures Confined(Place(pte0, vaddr0, ipa0, isWrite), bytes, isWrite, old(mem), mem)
      ensures faults == old(faults) ==> (ok <==> Supported(Place(pte0, vaddr0, ipa0, isWrite), ipa0, isWrite, bytes))
      ensures old(faults) <= faults
      ensures bytes > 0 && faults == old(faults) ==>
                (ok <==>
                   && (pte0 % 2 == 1 || pte0 / 0x4_0000_0000_0000 % 8 <= 4)
                   && (|| isWrite || (pte0 % 2 == 0 && pte0 / 0x4_0000_0000_0000 % 8 in {1, 2, 4})
                       || bytes < 64 + (64 - ipa0 % 64) % 64))
      ensures ok ==> AllWidest(calls[|old(calls)|..], ipa0 + bytes)
      ensures ok && pte0 % 2 == 0 && pte0 / 0x4_0000_0000_0000 % 8 in {1, 4} ==>
                && mem == old(mem)
                && Served(calls[|old(calls)|..], pte0 % 0x4_0000_0000_0000 - pte0 % 4, ipa0, isWrite,
                          val[start..start + bytes])
      ensures ok && pte0 % 2 == 0 && pte0 / 0x4_0000_0000_0000 % 8 == 2 && !isWrite ==>
                && mem == old(mem)
                && Served(calls[|old(calls)|..], pte0 % 0x4_0000_0000_0000 - pte0 % 4, ipa0, false,
                          val[start..start + bytes])
      ensures ok && pte0 % 2 == 0 && pte0 / 0x4_0000_0000_0000 % 8 == 2 && isWrite ==>
                calls == old(calls) && Written(old(mem), mem, ipa0, val[start..start + bytes])
      ensures ok && pte0 % 2 == 0 && pte0 / 0x4_0000_0000_0000 % 8 == 3 && isWrite ==>
                && mem == old(mem)
                && Served(calls[|old(calls)|..], pte0 % 0x4_0000_0000_0000 - pte0 % 4, ipa0, true,
                          val[start..start + bytes])
      ensures ok && pte0 % 2 == 0 && pte0 / 0x4_0000_0000_0000 % 8 == 3 && !isWrite ==>
                calls == old(calls) && mem == old(mem) && val[start..start + bytes] == Bytes(mem, ipa0, bytes)
      ensures bytes > 0 && pte0 % 2 == 0 && pte0 / 0x4_0000_0000_0000 % 8 >= 5 ==> !ok
      ensures ok && (pte0 % 2 == 1 || pte0 / 0x4_0000_0000_0000 % 8 == 0) ==>
                && calls == old(calls)
                && var a: nat := pte0 % 0x4_0000_0000_0000 - pte0 % 4 + vaddr0 % 4;
                   if isWrite then Written(old(mem), mem, a, val[start..start + bytes])
                   else mem == old(mem) && val[start..start + bytes] == Bytes(mem, a, bytes)
    {
      hide Place, Moved, Confined, Supported, AllWidest, Served, Written, Bytes;
      if bytes > 0 { SupportedIs(pte0, vaddr0, ipa0, isWrite, bytes); }
      ok := Pieces(pte0, vaddr0, ipa0, val, start, isWrite, bytes);
      if ok {
        KindsMoved(pte0, vaddr0, ipa0, isWrite, val[start..start + bytes], old(mem), mem, old(calls), calls);
      }
    }

    /** The two halves of an access across a page boundary, the lower one first. */
    method BothHalves(pte: nat, vaddr: nat, ipa: nat, pte2: nat, vaddr2: nat, ipa2: nat, val: array<Byte>, off: nat,
                      isWrite: bool, bytes: nat) returns (ok: bool)
      requires pte != 0 && pte2 != 0 && off <= bytes <= val.Length
      requires InReach(pte, vaddr, off) && InReach(pte2, vaddr2, bytes - off)
      modifies this, val
      ensures isWrite ==> val[..] == old(val[..])
      ensures ok ==> old(calls) <= calls && faults == old(faults)
      ensures ok ==> MovedInTwo(Place(pte, vaddr, ipa, isWrite), ipa, Place(pte2, vaddr2, ipa2, isWrite), ipa2, isWrite,
                                val[..off], val[off..bytes], old(mem), mem, calls[|old(calls)|..])
      ensures faults == old(faults) ==>
                (ok <==> Supported(Place(pte, vaddr, ipa, isWrite), ipa, isWrite, off) &&
                         Supported(Place(pte2, vaddr2, ipa2, isWrite), ipa2, isWrite, bytes - off))
      ensures old(faults) <= faults
      ensures forall x: nat ::
                || Touches(Place(pte, vaddr, ipa, isWrite), isWrite, off, x)
                || Touches(Place(pte2, vaddr2, ipa2, isWrite), isWrite, bytes - off, x)
                || mem(x) == old(mem)(x)
    {
      hide Place, Moved, Supported, Confined, Touches, Served, Written, Bytes, AllWidest;
      ok := EmulateRw(pte, vaddr, ipa, val, 0, isWrite, off);
      ConfinedInside(Place(pte, vaddr, ipa, isWrite), isWrite, off, old(mem), mem);
      if !ok { return; }
      ghost var m1, c1, low := mem, calls, val[0..off];
      ok := EmulateRw(pte2, vaddr2, ipa2, val, off, isWrite, bytes - off);
      ConfinedInside(Place(pte2, vaddr2, ipa2, isWrite), isWrite, bytes - off, m1, mem);
      if ok {
        assert val[..off] == low && val[off..bytes] == val[off..off + (bytes - off)];
        assert calls[|old(calls)|..] == c1[|old(calls)|..] + calls[|c1|..];
      }
    }

    /** The data-abort handler, from the faulting address on.  `vaddr` and `width` are what the instruction at the
        fault was decoded to, and for a store `val` holds its data; stage1 is the guest's own translation, where 0
        stands for a failure, and walk reads the stage-2 tables. */
    method HandleDabort(far: nat, vaddr: nat, width: nat, isWrite: bool, val: array<Byte>,
                        stage1: nat -> nat, walk: nat -> nat, space: nat) returns (r: Outcome)
      requires width <= 6 && val.Length == 64
      requires Reaches(vaddr, width, stage1, walk)
      modifies this, val
      ensures isWrite ==> val[..] == old(val[..])
      ensures r == Retry <==> Mapped(far, stage1, walk, space) && IsHw(walk(stage1(far)))
      ensures r == Retry ==> mem == old(mem) && calls == old(calls)
      ensures r == Done ==> Emulated(far, vaddr, width, isWrite, stage1, walk, space)
      ensures r == Failed && Emulated(far, vaddr, width, isWrite, stage1, walk, space) ==> faults > old(faults)
      ensures forall x: nat :: MayTouch(vaddr, width, isWrite, stage1, walk, x) || mem(x) == old(mem)(x)
      ensures r == Done ==> old(calls) <= calls
      ensures r == Done && !Straddles(vaddr, width) ==>
                Moved(Place(walk(stage1(vaddr)), vaddr, stage1(vaddr), isWrite), stage1(vaddr), isWrite,
                      val[..Pow2(width)], old(mem), mem, calls[|old(calls)|..]) &&
                AllWidest(calls[|old(calls)|..], stage1(vaddr) + Pow2(width))
      ensures r == Done && Straddles(vaddr, width) ==>
                var up := Upper(vaddr, width);
                MovedInTwo(Place(walk(stage1(vaddr)), vaddr, stage1(vaddr), isWrite), stage1(vaddr),
                           Place(walk(stage1(up)), up, stage1(up), isWrite), stage1(up), isWrite,
                           val[..up - vaddr], val[up - vaddr..Pow2(width)], old(mem), mem, calls[|old(calls)|..])
    {
      hide Place, Moved, MovedInTwo, InReach, Supported, Touches, Confined, AllWidest, Served, Written, Bytes;
      var ipa := stage1(far);
      if ipa == 0 || ipa >= space { return Failed; }
      var pte := walk(ipa);
      if pte == 0 { return Failed; }
      if IsHw(pte) { return Retry; }
      var bytes := Pow2(width);
      var ok;
      if !Straddles(vaddr, width) {
        if far != vaddr { return Failed; }
        ok := EmulateRw(pte, vaddr, ipa, val, 0, isWrite, bytes);
        ConfinedInside(Place(pte, vaddr, ipa, isWrite), isWrite, bytes, old(mem), mem);
        assert val[0..0 + bytes] == val[..bytes];
      } else {
        var up := Upper(vaddr, width);
        UpperInside(vaddr, width);
        var off := up - vaddr;
        if far != vaddr && far != up { return Failed; }
        var vaddr2 := if far == vaddr then up else vaddr;
        var ipa2 := stage1(vaddr2);
        if ipa2 == 0 || ipa2 >= space { return Failed; }
        var pte2 := walk(ipa2);
        if pte2 == 0 { return Failed; }
        if far == vaddr {
          ok := BothHalves(pte, vaddr, ipa, pte2, vaddr2, ipa2, val, off, isWrite, bytes);
        } else {
          ok := BothHalves(pte2, vaddr2, ipa2, pte, up, ipa, val, off, isWrite, bytes);
        }
      }
      r := if ok then Done else Failed;
    }
  }
}
