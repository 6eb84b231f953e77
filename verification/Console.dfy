/** Console output to several devices through one ring buffer (src/iodev.c).

    All bytes that were ever written form one stream; a device's read position counts the bytes of the
    stream that are settled for it.
 */
module Console {
  import opened Arith

  /** What became of a position of the stream for one device.  `call` numbers the call of
      iodev_console_write that decided it. */
  datatype Fate = Delivered | Dropped(call: nat) | Lost(call: nat)

  /** What a call found: the write position before it, the number of bytes it wrote, the devices' read positions before
      it, and which devices were consoles. */
  datatype Call = Call(wp: nat, len: nat, rp: seq<nat>, console: seq<bool>)

  /** The bytes of the stream at the delivered positions, in order. */
  function Select(stream: seq<nat>, fate: seq<Fate>): seq<nat>
    requires |fate| <= |stream|
  {
    if fate == [] then []
    else
      var n := |fate| - 1;
      Select(stream, fate[..n]) + if fate[n].Delivered? then [stream[n]] else []
  }

  function Rep(f: Fate, n: nat): seq<Fate> { seq(n, _ => f) }

  lemma {:induction false} SelectDelivered(stream: seq<nat>, fate: seq<Fate>, n: nat)
    requires |fate| + n <= |stream|
    ensures Select(stream, fate + Rep(Delivered, n)) == Select(stream, fate) + stream[|fate|..|fate| + n]
    decreases n
  {
    hide Select;
    var f := fate + Rep(Delivered, n);
    if n == 0 {
      assert f == fate;
    } else {
      assert f[..|f| - 1] == fate + Rep(Delivered, n - 1);
      SelectDelivered(stream, fate, n - 1);
      SelectLast(stream, f);
      assert stream[|fate|..|fate| + n] == stream[|fate|..|fate| + n - 1] + [stream[|fate| + n - 1]];
    }
  }

  lemma SelectLast(stream: seq<nat>, fate: seq<Fate>)
    requires 0 < |fate| <= |stream| && fate[|fate| - 1].Delivered?
    ensures Select(stream, fate) == Select(stream, fate[..|fate| - 1]) + [stream[|fate| - 1]]
  {
  }

  lemma {:induction false} SelectSkipped(stream: seq<nat>, fate: seq<Fate>, x: Fate, n: nat)
    requires |fate| + n <= |stream| && !x.Delivered?
    ensures Select(stream, fate + Rep(x, n)) == Select(stream, fate)
    decreases n
  {
    var f := fate + Rep(x, n);
    if n == 0 {
      assert f == fate;
    } else {
      assert f[..|f| - 1] == fate + Rep(x, n - 1);
      SelectSkipped(stream, fate, x, n - 1);
    }
  }

  /** Later output does not change what was selected. */
  lemma {:induction false} SelectMore(stream: seq<nat>, more: seq<nat>, fate: seq<Fate>)
    requires |fate| <= |stream|
    ensures Select(stream + more, fate) == Select(stream, fate)
    decreases |fate|
  {
    if fate != [] {
      SelectMore(stream, more, fate[..|fate| - 1]);
    }
  }

  /** Position p was not settled for the device when the call began, and is part of the stream when it ends. */
  predicate Pending(call: Call, id: nat, p: nat) {
    id < |call.rp| && id < |call.console| && call.rp[id] <= p < call.wp + call.len
  }

  /** A position is not delivered only if it was pending in a call that found the device to be no console, or in one
      that found the position more than 8192 bytes behind. */
  ghost predicate Excuse(x: Fate, p: nat, id: nat, calls: seq<Call>) {
    match x
    case Delivered => true
    case Dropped(c) => c < |calls| && Pending(calls[c], id, p) && !calls[c].console[id]
    case Lost(c) => c < |calls| && Pending(calls[c], id, p) && calls[c].console[id] && p + 8192 < calls[c].wp
  }

  ghost predicate Excused(fate: seq<Fate>, id: nat, calls: seq<Call>) {
    forall p :: 0 <= p < |fate| ==> Excuse(fate[p], p, id, calls)
  }

  /** Positions lo up to hi of the stream are in the ring buffer. */
  ghost predicate Buffered(buf: seq<nat>, stream: seq<nat>, lo: nat, hi: nat) {
    && |buf| == 8192 && hi <= |stream| && hi <= lo + 8192
    && forall p: nat {:trigger stream[p]} :: lo <= p < hi ==> buf[p % 8192] == stream[p]
  }

  function Start(wp: nat): nat { if wp > 8192 then wp - 8192 else 0 }

  /** The part of the ring from position p up to its end or to hi reads as the stream. */
  lemma BufferedSlice(buf: seq<nat>, stream: seq<nat>, lo: nat, hi: nat, p: nat, n: nat)
    requires Buffered(buf, stream, lo, hi) && lo <= p && p + n <= hi && p % 8192 + n <= 8192
    ensures buf[p % 8192..p % 8192 + n] == stream[p..p + n]
  {
    var a, b := buf[p % 8192..p % 8192 + n], stream[p..p + n];
    forall k | 0 <= k < n ensures a[k] == b[k] {
      AddSmall(p, 8192, k);
      assert stream[p + k] == buf[(p + k) % 8192];
    }
  }

  /** Writing n bytes at position p keeps the last 8192 positions. */
  lemma BufferedWrite(buf: seq<nat>, buf': seq<nat>, stream: seq<nat>, lo: nat, p: nat, n: nat)
    requires Buffered(buf, stream, lo, p) && p % 8192 + n <= 8192 && p + n <= |stream| && |buf'| == 8192
    requires forall k :: 0 <= k < 8192 ==>
               buf'[k] == if p % 8192 <= k < p % 8192 + n then stream[p + (k - p % 8192)] else buf[k]
    ensures Buffered(buf', stream, if p + n > lo + 8192 then p + n - 8192 else lo, p + n)
  {
    var lo' := if p + n > lo + 8192 then p + n - 8192 else lo;
    forall x: nat | lo' <= x < p + n ensures buf'[x % 8192] == stream[x] {
      if p <= x {
        AddSmall(p, 8192, x - p);
      } else {
        NotOverwritten(x, p, n);
      }
    }
  }

  lemma NotOverwritten(x: nat, p: nat, n: nat)
    requires x < p && p + n <= x + 8192 && p % 8192 + n <= 8192
    ensures !(p % 8192 <= x % 8192 < p % 8192 + n)
  {
    var d := p - x;
    if x % 8192 + d < 8192 {
      AddSmall(x, 8192, d);
    } else {
      DivModIs(p, 8192, x / 8192 + 1, x % 8192 + d - 8192);
    }
  }

  /** The positions that were delivered, in order. */
  function Positions(fate: seq<Fate>): seq<nat> {
    if fate == [] then []
    else
      var n := |fate| - 1;
      Positions(fate[..n]) + if fate[n].Delivered? then [n] else []
  }

  /** `got` are the bytes of the stream at the positions ps: in order, and at all positions that count as delivered. */
  ghost predicate InOrder(stream: seq<nat>, fate: seq<Fate>, ps: seq<nat>, got: seq<nat>)
    requires |fate| <= |stream|
  {
    && |ps| == |got|
    && (forall k :: 0 <= k < |ps| ==> ps[k] < |fate| && fate[ps[k]].Delivered? && got[k] == stream[ps[k]])
    && (forall j, k :: 0 <= j < k < |ps| ==> ps[j] < ps[k])
    && (forall p: nat :: p < |fate| && fate[p].Delivered? ==> p in ps)
  }

  lemma InOrderMore(stream: seq<nat>, fate: seq<Fate>, ps: seq<nat>, got: seq<nat>)
    requires 0 < |fate| <= |stream| && InOrder(stream, fate[..|fate| - 1], ps, got)
    ensures var n := |fate| - 1;
            if fate[n].Delivered? then InOrder(stream, fate, ps + [n], got + [stream[n]])
            else InOrder(stream, fate, ps, got)
  {
    var n := |fate| - 1;
    forall p: nat | p < n && fate[p].Delivered? ensures p in ps {
      assert fate[..n][p].Delivered?;
    }
    if fate[n].Delivered? { assert (ps + [n])[|ps|] == n; }
  }

  /** The device receives bytes of the stream at strictly increasing positions: none twice, none out of order. */
  lemma {:induction false} ReceivedInOrder(stream: seq<nat>, fate: seq<Fate>)
    requires |fate| <= |stream|
    ensures InOrder(stream, fate, Positions(fate), Select(stream, fate))
    decreases |fate|
  {
    if fate != [] {
      var n := |fate| - 1;
      ReceivedInOrder(stream, fate[..n]);
      InOrderMore(stream, fate, Positions(fate[..n]), Select(stream, fate[..n]));
      hide InOrder;
      assert Positions(fate[..n]) + [] == Positions(fate[..n]);
      assert Select(stream, fate[..n]) + [] == Select(stream, fate[..n]);
    }
  }

  /** The device was a console in every call, and none found it more than 8192 bytes behind. */
  ghost predicate KeptUp(id: nat, calls: seq<Call>) {
    forall c :: 0 <= c < |calls| ==>
      && id < |calls[c].rp| && id < |calls[c].console|
      && calls[c].console[id] && calls[c].wp <= calls[c].rp[id] + 8192
  }

  /** Such a device has received the stream without a gap, up to its read position. */
  lemma {:induction false} ReceivedWithoutGap(stream: seq<nat>, fate: seq<Fate>, id: nat, calls: seq<Call>)
    requires |fate| <= |stream| && Excused(fate, id, calls) && KeptUp(id, calls)
    ensures Select(stream, fate) == stream[..|fate|]
    decreases |fate|
  {
    if fate != [] {
      var n := |fate| - 1;
      ReceivedWithoutGap(stream, fate[..n], id, calls);
      assert Excuse(fate[n], n, id, calls);
      assert fate[n].Delivered?;
    }
  }

  const DEVICES: nat := 13

  /** A device as iodev_console_write finds it: registered or not, and whether its usage includes console output. */
  datatype Device = Device(present: bool, console: bool)

  function Consoles(devices: seq<Device>): seq<bool> {
    seq(|devices|, i requires 0 <= i < |devices| => devices[i].console)
  }

  /** What is known of one device: the fate of the positions below its read position r, and what it received. */
  ghost predicate DeviceOk(id: nat, r: nat, fate: seq<Fate>, received: seq<nat>, stream: seq<nat>, calls: seq<Call>) {
    && |fate| == r <= |stream|
    && received == Select(stream, fate)
    && Excused(fate, id, calls)
  }

  /** The two sequences differ at most at index id. */
  ghost predicate Only<T>(id: nat, s: seq<T>, t: seq<T>) {
    |s| == |t| && forall j :: 0 <= j < |s| && j != id ==> s[j] == t[j]
  }

  /** A console's turn moves its read position from r to r', and the device receives the stream from r on; or from
      8192 bytes before wp on, where r is farther behind than that. */
  ghost predicate Continued(stream: seq<nat>, wp: nat, r: nat, r': nat, got: seq<nat>, got': seq<nat>)
    requires r <= r' <= |stream|
  {
    || got' == got + stream[r..r']
    || (r + 8192 < wp <= r' + 8192 && got' == got + stream[wp - 8192..r'])
  }

  /** What one call does for one device. */
  ghost predicate Turn(d: Device, stream: seq<nat>, wp: nat, r: nat, r': nat, got: seq<nat>, got': seq<nat>)
    requires r <= r' <= |stream|
  {
    if !d.present then r' == r && got' == got
    else if !d.console then r' == |stream| && got' == got
    else Continued(stream, wp, r, r', got, got')
  }

  /** What is known of a device after its turn: n and n' count its refusals. */
  ghost predicate Outcome(d: Device, stream: seq<nat>, wp: nat, r: nat, r': nat, got: seq<nat>, got': seq<nat>,
                          n: nat, n': nat, refused: bool)
  {
    && r <= r' <= |stream| && Turn(d, stream, wp, r, r', got, got')
    && (d.present && !refused ==> r' == |stream|)
    && n' == n + (if refused then 1 else 0) && (refused ==> d.present && d.console)
    && (d.present && d.console && !refused ==> Behind(wp, r) <= |stream| && got' == got + stream[Behind(wp, r)..])
  }

  lemma OutcomeIs(d: Device, stream: seq<nat>, wp: nat, r: nat, r': nat, got: seq<nat>, got': seq<nat>,
                  n: nat, n': nat, refused: bool)
    requires Outcome(d, stream, wp, r, r', got, got', n, n', refused) && wp <= |stream|
    ensures r <= r' <= |stream| && Turn(d, stream, wp, r, r', got, got')
    ensures d.present && !refused ==> r' == |stream|
    ensures n' == n + (if refused then 1 else 0) && (refused ==> d.present && d.console)
    ensures d.present && d.console && n' == n ==>
              r' == |stream| && got' == got + stream[if r + 8192 < wp then wp - 8192 else r..]
  {
  }

  lemma ContinuedBy(stream: seq<nat>, wp: nat, r: nat, from: nat, mid: nat, r': nat,
                    got: seq<nat>, got1: seq<nat>, got2: seq<nat>)
    requires r <= from <= mid <= r' <= |stream| && (from == r || (r + 8192 < wp && from == wp - 8192))
    requires got1 == got + stream[from..mid] && got2 == got1 + stream[mid..r']
    ensures Continued(stream, wp, r, r', got, got2)
  {
    assert stream[from..mid] + stream[mid..r'] == stream[from..r'];
  }

  /** Where a console goes on: at its read position, or 8192 bytes before wp where that is farther behind. */
  function Behind(wp: nat, r: nat): nat { if r + 8192 < wp then wp - 8192 else r }

  lemma AllOf(stream: seq<nat>, from: nat, mid: nat, got: seq<nat>, got1: seq<nat>, got2: seq<nat>)
    requires from <= mid <= |stream| && got1 == got + stream[from..mid] && got2 == got1 + stream[mid..|stream|]
    ensures got2 == got + stream[from..]
  {
  }

  lemma Joins(stream: seq<nat>, a: nat, b: nat, c: nat, got: seq<nat>)
    requires a <= b <= c <= |stream|
    ensures got + stream[a..b] + stream[b..c] == got + stream[a..c]
  {
    assert stream[a..b] + stream[b..c] == stream[a..c];
  }

  lemma Joined(stream: seq<nat>, r0: nat, r: nat, ret: nat, n: nat)
    requires r0 <= r && ret <= n && r + n <= |stream|
    ensures stream[r0..r] + stream[r..r + n][..ret] == stream[r0..r + ret]
  {
  }

  lemma DeviceAccepts(id: nat, rp: nat, fate: seq<Fate>, received: seq<nat>, stream: seq<nat>, calls: seq<Call>, n: nat)
    requires DeviceOk(id, rp, fate, received, stream, calls) && rp + n <= |stream|
    ensures DeviceOk(id, rp + n, fate + Rep(Delivered, n), received + stream[rp..rp + n], stream, calls)
  {
    SelectDelivered(stream, fate, n);
  }

  class Log {
    const buf: array<nat>
    var wp: nat
    var rp: seq<nat>
    // All bytes ever written to the console, and for each device the fate of every position below its read position
    // and the bytes it accepted.
    ghost var stream: seq<nat>
    ghost var fate: seq<seq<Fate>>
    ghost var received: seq<seq<nat>>
    ghost var calls: seq<Call>
    // How often each device could not write or answered an offer with nothing or an error.
    ghost var refusals: seq<nat>

    constructor ()
      ensures Valid() && fresh(buf) && stream == [] && calls == []
      ensures forall id :: 0 <= id < DEVICES ==> rp[id] == 0 && received[id] == [] && refusals[id] == 0
    {
      buf := new nat[8192](_ => 0);
      wp := 0;
      rp := seq(DEVICES, _ => 0);
      stream, calls := [], [];
      fate := seq(DEVICES, _ => []);
      received := seq(DEVICES, _ => []);
      refusals := seq(DEVICES, _ => 0);
    }

    ghost predicate Shape()
      reads this
    {
      && |rp| == |fate| == |received| == |refusals| == DEVICES && buf.Length == 8192 && wp <= |stream|
      && forall id: nat :: id < DEVICES ==> DeviceOk(id, rp[id], fate[id], received[id], stream, calls)
    }

    ghost predicate Valid()
      reads this, buf
    {
      Shape() && |stream| == wp && Buffered(buf[..], stream, Start(wp), wp)
    }

    /** iodev_can_write. */
    method CanWrite(id: nat) returns (can: bool)
      requires Shape() && id < DEVICES
      modifies `refusals
      ensures Shape() && refusals == old(refusals)[id := old(refusals[id]) + if can then 0 else 1]
    {
      can := *;
      if !can { refusals := refusals[id := refusals[id] + 1]; }
    }

    /** iodev_write, and the step of the read position after it: the device accepts any number of the bytes it is
        offered, or none and an error. */
    method Offer(id: nat, bytes: seq<nat>) returns (ret: int)
      requires Shape() && id < DEVICES && rp[id] + |bytes| <= |stream|
      requires bytes == stream[rp[id]..rp[id] + |bytes|]
      modifies `rp, `fate, `received, `refusals
      ensures Shape() && Only(id, old(rp), rp) && Only(id, old(received), received) && ret <= |bytes|
      ensures rp[id] == old(rp[id]) + if ret <= 0 then 0 else ret
      ensures received[id] == old(received[id]) + if ret <= 0 then [] else bytes[..ret]
      ensures refusals == old(refusals)[id := old(refusals[id]) + if ret <= 0 then 1 else 0]
    {
      hide DeviceOk, Select, Rep;
      ret := *;
      if ret > |bytes| { ret := |bytes|; }
      if ret <= 0 {
        refusals := refusals[id := refusals[id] + 1];
        return;
      }
      Taken(bytes, stream, rp[id], ret);
      DeviceAccepts(id, rp[id], fate[id], received[id], stream, calls, ret);
      received := received[id := received[id] + bytes[..ret]];
      fate := fate[id := fate[id] + Rep(Delivered, ret)];
      rp := rp[id := rp[id] + ret];
    }

    /** The read position moves on without the device getting the bytes. */
    method Skip(id: nat, to: nat, ghost x: Fate)
      requires Shape() && id < DEVICES && rp[id] <= to <= |stream| && !x.Delivered?
      requires forall p :: rp[id] <= p < to ==> Excuse(x, p, id, calls)
      modifies `rp, `fate
      ensures Shape() && Only(id, old(rp), rp) && rp[id] == to
    {
      SelectSkipped(stream, fate[id], x, to - rp[id]);
      fate := fate[id := fate[id] + Rep(x, to - rp[id])];
      rp := rp[id := to];
    }

    /** Offers a piece of the buffered backlog that does not wrap around the ring. */
    method OfferPiece(id: nat) returns (ret: int)
      requires Shape() && id < DEVICES && Start(wp) <= rp[id] < wp && Buffered(buf[..], stream, Start(wp), wp)
      modifies `rp, `fate, `received, `refusals
      ensures Shape() && Only(id, old(rp), rp) && Only(id, old(received), received)
      ensures old(rp[id]) <= rp[id] <= wp && rp[id] == old(rp[id]) + (if ret <= 0 then 0 else ret)
      ensures received[id] == old(received[id]) + stream[old(rp[id])..rp[id]]
      ensures refusals == old(refusals)[id := old(refusals[id]) + if ret <= 0 then 1 else 0]
    {
      hide DeviceOk, Start, Buffered, Shape;
      ShapeIs();
      ghost var r := rp[id];
      var at := rp[id] % 8192;
      var block := if wp - rp[id] < 8192 - at then wp - rp[id] else 8192 - at;
      BufferedSlice(buf[..], stream, Start(wp), wp, r, block);
      assert buf[at..at + block] == stream[r..r + block];
      ret := Offer(id, buf[at..at + block]);
      ShapeIs();
      if ret > 0 { Joined(stream, r, r, ret, block); }
    }

    /** Offers the buffered backlog to the device, in pieces that do not wrap around the ring. */
    method Flush(id: nat) returns (done: bool)
      requires Shape() && id < DEVICES && Start(wp) <= rp[id] <= wp && Buffered(buf[..], stream, Start(wp), wp)
      modifies `rp, `fate, `received, `refusals
      ensures Shape() && Only(id, old(rp), rp) && Only(id, old(received), received)
      ensures old(rp[id]) <= rp[id] <= wp && (done <==> rp[id] == wp)
      ensures received[id] == old(received[id]) + stream[old(rp[id])..rp[id]]
      ensures refusals == old(refusals)[id := old(refusals[id]) + if done then 0 else 1]
    {
      hide DeviceOk, Start, Buffered, Shape;
      ShapeIs();
      ghost var r0, got := rp[id], received[id];
      assert got + stream[r0..r0] == got;
      while rp[id] < wp
        invariant Shape() && Only(id, old(rp), rp) && Only(id, old(received), received)
        invariant |rp| == |received| == DEVICES && r0 <= rp[id] <= wp <= |stream| && refusals == old(refusals)
        invariant received[id] == got + stream[r0..rp[id]]
        decreases wp - rp[id]
      {
        ghost var r := rp[id];
        var ret := OfferPiece(id);
        ShapeIs();
        Joins(stream, r0, r, rp[id], got);
        if ret <= 0 { return false; }
      }
      done := true;
    }

    /** Offers the bytes of this call to a device that has the whole backlog. */
    method Current(id: nat, bytes: seq<nat>) returns (done: bool)
      requires Shape() && id < DEVICES && rp[id] == wp && |stream| == wp + |bytes| && stream[wp..] == bytes
      modifies `rp, `fate, `received, `refusals
      ensures Shape() && Only(id, old(rp), rp) && Only(id, old(received), received)
      ensures wp <= rp[id] <= |stream| && (done <==> rp[id] == |stream|)
      ensures received[id] == old(received[id]) + stream[wp..rp[id]]
      ensures refusals == old(refusals)[id := old(refusals[id]) + if done then 0 else 1]
    {
      hide DeviceOk;
      var wrote := 0;
      while wrote < |bytes|
        invariant Shape() && Only(id, old(rp), rp) && Only(id, old(received), received)
        invariant wrote <= |bytes| && rp[id] == wp + wrote && refusals == old(refusals)
        invariant received[id] == old(received[id]) + stream[wp..rp[id]]
      {
        ghost var r := rp[id];
        assert bytes[wrote..] == stream[r..r + (|bytes| - wrote)];
        var ret := Offer(id, bytes[wrote..]);
        if ret <= 0 { return false; }
        Joined(stream, wp, r, ret, |bytes| - wrote);
        wrote := wrote + ret;
      }
      done := true;
    }

    /** The call in progress, as the history has it: the device has not had its turn yet. */
    ghost predicate InCall(call: Call, id: nat, bytes: seq<nat>)
      requires id < |rp|
      reads this
    {
      call.wp == wp && call.len == |bytes| && id < |call.rp| && id < |call.console| && call.rp[id] == rp[id]
    }

    /** Brings a console up to date, as far as it accepts what it is offered. */
    method Feed(id: nat, bytes: seq<nat>) returns (done: bool)
      requires Shape() && id < DEVICES && |stream| == wp + |bytes| && stream[wp..] == bytes && rp[id] <= wp
      requires Buffered(buf[..], stream, Start(wp), wp)
      requires calls != [] && InCall(calls[|calls| - 1], id, bytes) && calls[|calls| - 1].console[id]
      modifies `rp, `fate, `received, `refusals
      ensures Shape() && Only(id, old(rp), rp) && Only(id, old(received), received)
      ensures old(rp[id]) <= rp[id] <= |stream| && (done <==> rp[id] == |stream|)
      ensures Continued(stream, wp, old(rp[id]), rp[id], old(received[id]), received[id])
      ensures refusals == old(refusals)[id := old(refusals[id]) + if done then 0 else 1]
      ensures done ==> received[id] == old(received[id]) + stream[Behind(wp, old(rp[id]))..]
    {
      hide DeviceOk, Buffered, Shape, Continued;
      ShapeIs();
      ghost var r, from, got := rp[id], rp[id], received[id];
      if wp > 8192 && rp[id] < wp - 8192 {
        Skip(id, wp - 8192, Lost(|calls| - 1));
        from := rp[id];
      }
      ShapeIs();
      done := Flush(id);
      ShapeIs();
      ghost var mid, got' := rp[id], received[id];
      ContinuedBy(stream, wp, r, from, mid, mid, got, got', got');
      if done {
        done := Current(id, bytes);
        ShapeIs();
        ContinuedBy(stream, wp, r, from, mid, rp[id], got, got', received[id]);
        if done { AllOf(stream, from, mid, got, got', received[id]); }
      }
    }

    lemma ShapeIs()
      requires Shape()
      ensures |rp| == |fate| == |received| == |refusals| == DEVICES && buf.Length == 8192 && wp <= |stream|
      ensures forall id: nat :: id < DEVICES ==> rp[id] <= |stream|
    {
    }

    /** One turn of the loop over the devices: a missing device keeps its read position, a device that is no console
        drops everything, and a console receives what follows its read position, without the part that is more than
        8192 bytes behind.  Only a device that cannot write or accepts nothing of an offer is left behind. */
    method Serve(id: nat, d: Device, bytes: seq<nat>) returns (refused: bool)
      requires Shape() && id < DEVICES && |stream| == wp + |bytes| && stream[wp..] == bytes && rp[id] <= wp
      requires Buffered(buf[..], stream, Start(wp), wp)
      requires calls != [] && InCall(calls[|calls| - 1], id, bytes) && calls[|calls| - 1].console[id] == d.console
      modifies `rp, `fate, `received, `refusals
      ensures Shape() && Only(id, old(rp), rp) && Only(id, old(received), received)
      ensures old(rp[id]) <= rp[id] <= |stream|
      ensures Turn(d, stream, wp, old(rp[id]), rp[id], old(received[id]), received[id])
      ensures d.present && !refused ==> rp[id] == |stream|
      ensures refusals == old(refusals)[id := old(refusals[id]) + if refused then 1 else 0]
      ensures refused ==> d.present && d.console
      ensures d.present && d.console && refusals[id] == old(refusals[id]) ==>
                && rp[id] == |stream|
                && received[id] ==
                     old(received[id]) + stream[if old(rp[id]) + 8192 < wp then wp - 8192 else old(rp[id])..]
      ensures Outcome(d, stream, wp, old(rp[id]), rp[id], old(received[id]), received[id],
                      old(refusals[id]), refusals[id], refused)
    {
      hide DeviceOk, Buffered, Shape;
      ShapeIs();
      refused := false;
      if !d.present { return; }
      if !d.console {
        Skip(id, wp + |bytes|, Dropped(|calls| - 1));
        ShapeIs();
        return;
      }
      var canWrite := CanWrite(id);
      ShapeIs();
      if !canWrite {
        assert stream[rp[id]..rp[id]] == [];
        return true;
      }
      var done := Feed(id, bytes);
      refused := !done;
    }

    /** The bytes of this call join the stream, and the call the history. */
    ghost method Extend(bytes: seq<nat>, console: seq<bool>)
      requires Valid()
      modifies `stream, `calls
      ensures Shape() && stream == old(stream) + bytes && calls == old(calls) + [Call(wp, |bytes|, rp, console)]
      ensures Buffered(buf[..], stream, Start(wp), wp) && forall id: nat :: id < DEVICES ==> rp[id] <= wp
    {
      forall id: nat | id < DEVICES
        ensures DeviceOk(id, rp[id], fate[id], received[id], stream + bytes, calls + [Call(wp, |bytes|, rp, console)])
      {
        SelectMore(stream, bytes, fate[id]);
      }
      stream, calls := stream + bytes, calls + [Call(wp, |bytes|, rp, console)];
    }

    /** Copies one piece into the ring, memcpy. */
    method Copy(bytes: seq<nat>, ghost lo: nat)
      requires buf.Length == 8192 && wp % 8192 + |bytes| <= 8192 && wp + |bytes| <= |stream|
      requires bytes == stream[wp..wp + |bytes|] && Buffered(buf[..], stream, lo, wp)
      modifies buf, `wp
      ensures wp == old(wp) + |bytes| && Buffered(buf[..], stream, if wp > lo + 8192 then wp - 8192 else lo, wp)
    {
      var at := wp % 8192;
      forall k | at <= k < at + |bytes| { buf[k] := bytes[k - at]; }
      BufferedWrite(old(buf[..]), buf[..], stream, lo, wp, |bytes|);
      wp := wp + |bytes|;
    }

    static lemma Taken(b: seq<nat>, stream: seq<nat>, at: nat, n: nat)
      requires at + |b| <= |stream| && b == stream[at..at + |b|] && n <= |b|
      ensures b[..n] == stream[at..at + n]
    {
    }

    static lemma Prefix(b: seq<nat>, stream: seq<nat>, at: nat, n: nat)
      requires at <= |stream| && b == stream[at..] && n <= |b|
      ensures b[..n] == stream[at..at + n] && b[n..] == stream[at + n..]
    {
    }

    /** Updates the ring with the bytes of this call, or with the last 8192 of them. */
    method Store(bytes: seq<nat>)
      requires Shape() && |stream| == wp + |bytes| && stream[wp..] == bytes
      requires Buffered(buf[..], stream, Start(wp), wp)
      modifies buf, `wp
      ensures wp == |stream| && Buffered(buf[..], stream, Start(wp), wp)
    {
      hide DeviceOk;
      ghost var lo: nat := Start(wp);
      var b := bytes;
      if |b| > 8192 {
        wp := wp + |b| - 8192;
        b := b[|b| - 8192..];
        lo := wp;
      }
      while b != []
        invariant wp + |b| == |stream| && b == stream[wp..]
        invariant lo <= wp && lo <= Start(|stream|) && Buffered(buf[..], stream, lo, wp)
        decreases |b|
      {
        var at := wp % 8192;
        var block := if |b| < 8192 - at then |b| else 8192 - at;
        Prefix(b, stream, wp, block);
        Copy(b[..block], lo);
        b := b[block..];
        lo := if wp > lo + 8192 then wp - 8192 else lo;
      }
    }

    /** iodev_console_write, on the path that holds the lock and is not entered from a device. */
    method Write(devices: seq<Device>, bytes: seq<nat>) returns (refused: seq<bool>)
      requires Valid() && |devices| == DEVICES
      modifies this, buf
      ensures Valid() && stream == old(stream) + bytes
      ensures calls == old(calls) + [Call(old(wp), |bytes|, old(rp), Consoles(devices))]
      ensures forall id: nat :: id < DEVICES ==>
                && old(rp[id]) <= rp[id]
                && Turn(devices[id], stream, old(wp), old(rp[id]), rp[id], old(received[id]), received[id])
      ensures |refused| == DEVICES
      ensures forall id: nat :: id < DEVICES && devices[id].present && !refused[id] ==> rp[id] == |stream|
      ensures forall id: nat :: id < DEVICES ==> refusals[id] == old(refusals[id]) + if refused[id] then 1 else 0
      ensures forall id: nat :: id < DEVICES && refused[id] ==> devices[id].present && devices[id].console
      ensures forall id: nat ::
                id < DEVICES && devices[id].present && devices[id].console && refusals[id] == old(refusals[id]) ==>
                && rp[id] == |stream|
                && received[id] == old(received[id]) +
                     stream[if old(rp[id]) + 8192 < old(wp) then old(wp) - 8192 else old(rp[id])..]
    {
      hide DeviceOk, Buffered, Turn, Start, Outcome;
      Extend(bytes, Consoles(devices));
      var id := 0;
      refused := [];
      while id < DEVICES
        invariant Shape() && id <= DEVICES && wp == old(wp) && stream == old(stream) + bytes
        invariant calls == old(calls) + [Call(wp, |bytes|, old(rp), Consoles(devices))]
        invariant Buffered(buf[..], stream, Start(wp), wp)
        invariant forall j: nat :: id <= j < DEVICES ==>
                    rp[j] == old(rp)[j] <= wp && received[j] == old(received)[j] && refusals[j] == old(refusals)[j]
        invariant |refused| == id
        invariant forall j: nat :: j < id ==>
                    Outcome(devices[j], stream, wp, old(rp)[j], rp[j], old(received)[j], received[j], old(refusals)[j],
                            refusals[j], refused[j])
      {
        var no := Serve(id, devices[id], bytes);
        refused := refused + [no];
        id := id + 1;
      }
      Store(bytes);
      forall id: nat | id < DEVICES
        ensures old(rp[id]) <= rp[id] <= |stream|
        ensures Turn(devices[id], stream, old(wp), old(rp[id]), rp[id], old(received[id]), received[id])
        ensures devices[id].present && !refused[id] ==> rp[id] == |stream|
        ensures refusals[id] == old(refusals[id]) + if refused[id] then 1 else 0
        ensures refused[id] ==> devices[id].present && devices[id].console
        ensures devices[id].present && devices[id].console && refusals[id] == old(refusals[id]) ==>
                  && rp[id] == |stream|
                  && received[id] == old(received[id]) +
                       stream[if old(rp[id]) + 8192 < old(wp) then old(wp) - 8192 else old(rp[id])..]
      {
        OutcomeIs(devices[id], stream, old(wp), old(rp)[id], rp[id], old(received)[id], received[id], old(refusals)[id],
                  refusals[id], refused[id]);
      }
    }

    /** A console that always kept up has received everything that is settled for it. */
    lemma NoGap(id: nat)
      requires Valid() && id < DEVICES && KeptUp(id, calls)
      ensures received[id] == stream[..rp[id]]
    {
      ReceivedWithoutGap(stream, fate[id], id, calls);
    }
  }
}
