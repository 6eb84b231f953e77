/** A split virtqueue between a driver in the guest and the device side of the hypervisor (src/hv_virtio.c; sections
    2.6.6 and 2.6.8 of VIRTIO 1.1).  Both ring indices are free-running 16-bit counters.
 */
module Virtqueue {
  import opened Arith

  const WRAP: nat := 65536

  /** The ring slot of the k-th entry, as both sides compute it from a 16-bit counter. */
  function Slot(k: nat, size: nat): nat
    requires size > 0
  {
    k % WRAP % size
  }

  /** As many consecutive entries as the ring has slots never share one. */
  ghost predicate SlotsApart(size: nat)
    requires size > 0
  {
    forall j: nat, k: nat :: j < k < j + size ==> Slot(j, size) != Slot(k, size)
  }

  lemma PlainSlot(k: nat, size: nat)
    requires size > 0 && WRAP % size == 0
    ensures Slot(k, size) == k % size
  {
    var m := WRAP / size;
    assert WRAP == size * m && m > 0;
    Nested(k, size, m);
  }

  lemma Distinct(j: nat, k: nat, size: nat)
    requires j < k < j + size
    ensures j % size != k % size
  {
    if j % size == k % size {
      var a, b := j / size, k / size;
      assert j == a * size + j % size && k == b * size + j % size;
      if a < b { MulStep(a, b, size); }
    }
  }

  /** The wrap of the counters does no harm exactly for queue sizes that divide 65536. */
  lemma ApartExactly(size: nat)
    requires 0 < size < WRAP
    ensures SlotsApart(size) <==> 65536 % size == 0
  {
    if WRAP % size == 0 {
      forall j: nat, k: nat | j < k < j + size ensures Slot(j, size) != Slot(k, size) {
        PlainSlot(j, size);
        PlainSlot(k, size);
        Distinct(j, k, size);
      }
    } else {
      var r := WRAP % size;
      var j := WRAP - r;
      DivModIs(j, size, WRAP / size, 0);
      DivModIs(j, WRAP, 0, j);
      DivModIs(WRAP, WRAP, 1, 0);
      assert Slot(j, size) == 0 && Slot(WRAP, size) == 0;
      assert j < WRAP < j + size;
    }
  }

  /** The ring holds the entries from `from` on. */
  ghost predicate Holds<T>(ring: seq<T>, entries: seq<T>, from: nat) {
    && |ring| > 0 && from <= |entries| <= from + |ring|
    && forall k: nat :: from <= k < |entries| ==> ring[Slot(k, |ring|)] == entries[k]
  }

  lemma HoldsMore<T>(ring: seq<T>, entries: seq<T>, from: nat, e: T)
    requires Holds(ring, entries, from) && |entries| < from + |ring| && SlotsApart(|ring|)
    ensures Holds(ring[Slot(|entries|, |ring|) := e], entries + [e], from)
  {
  }

  datatype Used = Used(id: nat, len: nat)

  class Queue {
    const size: nat
    var avail: seq<nat>
    var availIdx: nat
    var availSeen: nat
    var used: seq<Used>
    var usedIdx: nat
    var irqPending: bool
    // The driver's own copy of the used index.
    var usedSeen: nat
    // Everything that was offered, passed on to the host, given back and collected, in order.
    ghost var offered: seq<nat>
    ghost var notified: seq<nat>
    ghost var done: seq<Used>
    ghost var collected: seq<Used>

    /** For every size the counters agree with the history.  The rings hold what is outstanding if the size divides
        65536. */
    ghost predicate Valid()
      reads this
    {
      && 0 < size < WRAP && |avail| == |used| == size
      && availIdx == |offered| % WRAP && availSeen == |notified| % WRAP
      && usedIdx == |done| % WRAP && usedSeen == |collected| % WRAP
      && |collected| <= |done| <= |notified| <= |offered| <= |collected| + size
      && (WRAP % size == 0 ==>
            && notified <= offered && collected <= done
            && Holds(avail, offered, |notified|) && Holds(used, done, |collected|))
      && (|collected| < |done| ==> irqPending)
    }

    constructor (size: nat)
      requires 0 < size < WRAP
      ensures Valid() && this.size == size && offered == notified == [] && done == collected == []
    {
      this.size := size;
      avail, used := seq(size, _ => 0), seq(size, _ => Used(0, 0));
      availIdx, availSeen, usedIdx, usedSeen, irqPending := 0, 0, 0, 0, false;
      offered, notified, done, collected := [], [], [], [];
    }

    /** The driver offers a buffer, while fewer than `size` are with the device. */
    method Offer(id: nat)
      requires Valid() && |offered| < |collected| + size
      modifies `avail, `availIdx, `offered
      ensures Valid() && offered == old(offered) + [id]
      ensures avail == old(avail)[|old(offered)| % 65536 % size := id]
    {
      ApartExactly(size);
      if WRAP % size == 0 { HoldsMore(avail, offered, |notified|, id); }
      NextIndex(|offered|);
      SlotInside(|offered|, size);
      avail := avail[availIdx % size := id];
      availIdx := (availIdx + 1) % WRAP;
      offered := offered + [id];
    }

    /** One turn of the loop in notify_buffers. */
    method NotifyOne() returns (id: nat)
      requires Valid() && availIdx != availSeen
      modifies `availSeen, `notified
      ensures Valid() && |old(notified)| < |offered| && id == avail[|old(notified)| % 65536 % size]
      ensures 65536 % size == 0 ==> id == offered[|old(notified)|]
      ensures notified == old(notified) + [id]
    {
      NextIndex(|notified|);
      SlotInside(|notified|, size);
      id := avail[availSeen % size];
      availSeen := (availSeen + 1) % WRAP;
      notified := notified + [id];
    }

    /** notify_buffers: the host hears of as many buffers as were offered, each as its slot says.  For sizes that divide
        65536 these are the offered ones, in order. */
    method NotifyBuffers() returns (told: seq<nat>)
      requires Valid()
      modifies `availSeen, `notified
      ensures Valid() && |notified| == |offered| && notified == old(notified) + told
      ensures 65536 % size == 0 ==> notified == offered
      ensures forall k :: 0 <= k < |told| ==> told[k] == avail[Slot(|old(notified)| + k, size)]
    {
      told := [];
      while availIdx != availSeen
        invariant Valid() && notified == old(notified) + told
        invariant forall k :: 0 <= k < |told| ==> told[k] == avail[Slot(|old(notified)| + k, size)]
        decreases |offered| - |notified|
      {
        var id := NotifyOne();
        told := told + [id];
      }
      SameIndex(|offered|, |notified|, size);
    }

    /** virtio_put_buffer: the host gives one of the buffers back. */
    method PutBuffer(id: nat, len: nat)
      requires Valid() && |done| < |notified|
      modifies `used, `usedIdx, `irqPending, `done
      ensures Valid() && done == old(done) + [Used(id, len)] && irqPending
      ensures used == old(used)[|old(done)| % 65536 % size := Used(id, len)]
    {
      ApartExactly(size);
      if WRAP % size == 0 { HoldsMore(used, done, |collected|, Used(id, len)); }
      NextIndex(|done|);
      SlotInside(|done|, size);
      used := used[usedIdx % size := Used(id, len)];
      usedIdx := (usedIdx + 1) % WRAP;
      done := done + [Used(id, len)];
      irqPending := true;
    }

    /** The driver takes the next used entry. */
    method CollectOne() returns (e: Used)
      requires Valid() && usedSeen != usedIdx
      modifies `usedSeen, `collected
      ensures Valid() && irqPending && collected == old(collected) + [e]
    {
      NextIndex(|collected|);
      SlotInside(|collected|, size);
      e := used[usedSeen % size];
      usedSeen := (usedSeen + 1) % WRAP;
      collected := collected + [e];
    }

    /** The driver acknowledges the interrupt and collects as much as was given back; for sizes that divide 65536, what
        was given back. */
    method Collect() returns (got: seq<Used>)
      requires Valid()
      modifies `usedSeen, `collected, `irqPending
      ensures Valid() && |collected| == |done| && collected == old(collected) + got
      ensures 65536 % size == 0 ==> collected == done
      ensures got != [] ==> old(irqPending)
      ensures !irqPending
    {
      got := [];
      while usedSeen != usedIdx
        invariant Valid() && collected == old(collected) + got && irqPending == old(irqPending)
        invariant got != [] ==> irqPending
        decreases |done| - |collected|
      {
        var e := CollectOne();
        got := got + [e];
      }
      SameIndex(|done|, |collected|, size);
      irqPending := false;
    }

    /** n buffers go to the host and back, one at a time. */
    method RoundTrips(n: nat)
      requires Valid() && |offered| == |collected|
      modifies this
      ensures Valid() && |offered| == |collected| == old(|offered|) + n
    {
      var k := 0;
      while k < n
        invariant k <= n && Valid() && |offered| == |collected| == old(|offered|) + k
      {
        Offer(0);
        var told := NotifyBuffers();
        PutBuffer(0, 0);
        var got := Collect();
        k := k + 1;
      }
    }

    /** The driver offers the buffers 0 to r, the last of them when the counter has wrapped. */
    method OfferAcross()
      requires Valid() && |offered| == |notified| == |collected| == WRAP - WRAP % size && WRAP % size != 0
      modifies `avail, `availIdx, `offered
      ensures Valid() && offered == old(offered) + Numbers(WRAP % size + 1)
      ensures forall n :: 0 <= n < WRAP % size ==> avail[n] == if n == 0 then WRAP % size else n
    {
      hide Holds;
      var r, i := WRAP % size, 0;
      while i <= r
        invariant i <= r + 1 && Valid() && offered == old(offered) + Numbers(i)
        invariant forall n :: 0 <= n < i && n < r ==> avail[n] == if n == 0 && i == r + 1 then r else n
      {
        AroundWrap(size, i);
        Offer(i);
        i := i + 1;
      }
    }
  }

  function Numbers(n: nat): seq<nat> { seq(n, i => i) }

  /** The slots on both sides of the wrap of the counters. */
  lemma AroundWrap(size: nat, i: nat)
    requires 0 < size < WRAP && i <= WRAP % size
    ensures Slot(WRAP - WRAP % size + i, size) == if i == WRAP % size then 0 else i
  {
    var r := WRAP % size;
    var j := WRAP - r;
    if i == r {
      DivModIs(WRAP, WRAP, 1, 0);
    } else {
      DivModIs(j + i, WRAP, 0, j + i);
      DivModIs(j + i, size, WRAP / size, i);
    }
  }

  /** For every size that does not divide 65536 a buffer gets lost.  The queue is driven up to the wrap of the counters
      with one buffer at a time; then the buffers 0 to r are offered, r + 1 being at most the size.  The host is told of
      buffer r twice and never of buffer 0. */
  method LosesBuffer(size: nat) returns (q: Queue, told: seq<nat>)
    requires 0 < size < WRAP && WRAP % size != 0
    ensures q.Valid() && q.size == size && |q.offered| == |q.notified| == WRAP + 1
    ensures var r := WRAP % size;
            && q.offered[WRAP - r..] == Numbers(r + 1) && q.notified[WRAP - r..] == told
            && |told| == r + 1 && told[0] == told[r] == r && 0 !in told
  {
    hide Slot, Holds;
    q := new Queue(size);
    var r := WRAP % size;
    q.RoundTrips(WRAP - r);
    q.OfferAcross();
    told := q.NotifyBuffers();
    forall n: nat | n <= r ensures told[n] == if n == 0 then r else n {
      AroundWrap(size, n);
    }
  }

  lemma NextIndex(k: nat)
    ensures (k % WRAP + 1) % WRAP == (k + 1) % WRAP
  {
  }

  lemma SlotInside(k: nat, size: nat)
    requires size > 0
    ensures Slot(k, size) < size
  {
  }

  /** Counters at most a ring apart that agree in 16 bits are equal. */
  lemma SameIndex(a: nat, b: nat, size: nat)
    requires b <= a <= b + size && size < WRAP && a % WRAP == b % WRAP
    ensures a == b
  {
    if b < a { Distinct(b, a, WRAP); }
  }
}
