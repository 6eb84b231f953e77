/** The ring of queue entries shared with a coprocessor (src/afk.c).

    The buffer is a sequence of bytes.  Entries start at multiples of 64.  An entry that does not
    fit below the end of the buffer leaves its header where it would have stood, as a marker, and stands at
    offset 0.
 */
module AfkRing {
  import opened Arith

  datatype Entry = Entry(channel: nat, kind: nat, data: seq<nat>)

  /** The fields of an entry fit their 32-bit words. */
  predicate EntryOk(e: Entry) {
    e.channel < 0x1_0000_0000 && e.kind < 0x1_0000_0000 && |e.data| < 0x1_0000_0000
  }

  const MAGIC: nat := 0x2050_4F49

  // ---- Bytes ----

  function Le32(x: nat): (s: seq<nat>)
    ensures |s| == 4
  {
    [x % 256, x / 256 % 256, x / 0x1_0000 % 256, x / 0x100_0000 % 256]
  }

  function Get32(buf: seq<nat>, off: nat): nat
    requires off + 4 <= |buf|
  {
    buf[off] + 256 * buf[off + 1] + 0x1_0000 * buf[off + 2] + 0x100_0000 * buf[off + 3]
  }

  lemma Le32RoundTrip(buf: seq<nat>, off: nat, x: nat)
    requires off + 4 <= |buf| && buf[off..off + 4] == Le32(x) && x < 0x1_0000_0000
    ensures Get32(buf, off) == x
  {
    var s := buf[off..off + 4];
    assert s[0] == buf[off] && s[1] == buf[off + 1] && s[2] == buf[off + 2] && s[3] == buf[off + 3];
    Nested(x, 256, 256);
    Nested(x, 0x1_0000, 256);
    DivModIs(x / 0x100_0000, 256, 0, x / 0x100_0000);
  }

  /** struct afk_qe: magic, size, channel and type. */
  function Header(e: Entry): (s: seq<nat>)
    ensures |s| == 16
  {
    Le32(MAGIC) + Le32(|e.data|) + Le32(e.channel) + Le32(e.kind)
  }

  /** The entry that the receiver reads at off. */
  function Decoded(buf: seq<nat>, off: nat): Entry
    requires off + 16 <= |buf| && off + 16 + Get32(buf, off + 4) <= |buf|
  {
    Entry(Get32(buf, off + 8), Get32(buf, off + 12), buf[off + 16..off + 16 + Get32(buf, off + 4)])
  }

  predicate HeaderAt(buf: seq<nat>, off: nat, e: Entry) {
    off + 16 <= |buf| && buf[off..off + 16] == Header(e)
  }

  predicate EntryAt(buf: seq<nat>, off: nat, e: Entry) {
    HeaderAt(buf, off, e) && off + 16 + |e.data| <= |buf| && buf[off + 16..off + 16 + |e.data|] == e.data
  }

  lemma HeaderParts(e: Entry)
    ensures Header(e)[0..4] == Le32(MAGIC) && Header(e)[4..8] == Le32(|e.data|)
    ensures Header(e)[8..12] == Le32(e.channel) && Header(e)[12..16] == Le32(e.kind)
  {
    hide Le32;
  }

  /** The bytes of a header: the letters "IOP " and three little-endian words. */
  lemma HeaderBytes(e: Entry)
    requires EntryOk(e)
    ensures var h := Header(e);
            && |h| == 16 && (forall i :: 0 <= i < 16 ==> h[i] < 0x100)
            && h[0] == 0x49 && h[1] == 0x4F && h[2] == 0x50 && h[3] == 0x20
            && h[4] + h[5] * 0x100 + h[6] * 0x1_0000 + h[7] * 0x100_0000 == |e.data|
            && h[8] + h[9] * 0x100 + h[10] * 0x1_0000 + h[11] * 0x100_0000 == e.channel
            && h[12] + h[13] * 0x100 + h[14] * 0x1_0000 + h[15] * 0x100_0000 == e.kind
  {
    hide Le32, Get32;
    HeaderParts(e);
    var h := Header(e);
    WordBytes(h, 0, MAGIC);
    WordBytes(h, 4, |e.data|);
    WordBytes(h, 8, e.channel);
    WordBytes(h, 12, e.kind);
    MagicBytes(h);
  }

  lemma WordBytes(h: seq<nat>, i: nat, x: nat)
    requires i + 4 <= |h| && h[i..i + 4] == Le32(x) && x < 0x1_0000_0000
    ensures h[i] + h[i + 1] * 0x100 + h[i + 2] * 0x1_0000 + h[i + 3] * 0x100_0000 == x
    ensures h[i] < 0x100 && h[i + 1] < 0x100 && h[i + 2] < 0x100 && h[i + 3] < 0x100
  {
    var s := h[i..i + 4];
    assert s[0] == h[i] && s[1] == h[i + 1] && s[2] == h[i + 2] && s[3] == h[i + 3];
    Le32RoundTrip(h, i, x);
  }

  lemma MagicBytes(h: seq<nat>)
    requires 4 <= |h| && h[0..4] == Le32(MAGIC)
    ensures h[0] == 0x49 && h[1] == 0x4F && h[2] == 0x50 && h[3] == 0x20
  {
    var s := h[0..4];
    assert s[0] == h[0] && s[1] == h[1] && s[2] == h[2] && s[3] == h[3];
  }

  lemma PartOfHeader(buf: seq<nat>, off: nat, e: Entry, i: nat)
    requires HeaderAt(buf, off, e) && i + 4 <= 16
    ensures buf[off + i..off + i + 4] == Header(e)[i..i + 4]
  {
    hide Header;
    var h := buf[off..off + 16];
    var x, y := buf[off + i..off + i + 4], h[i..i + 4];
    forall k | 0 <= k < 4 ensures x[k] == y[k] {
      assert h[i + k] == buf[off + (i + k)];
    }
  }

  lemma HeaderReads(buf: seq<nat>, off: nat, e: Entry)
    requires HeaderAt(buf, off, e) && EntryOk(e)
    ensures Get32(buf, off) == 0x2050_4F49 && Get32(buf, off + 4) == |e.data|
    ensures Get32(buf, off + 8) == e.channel && Get32(buf, off + 12) == e.kind
  {
    hide Le32, Header, Get32;
    HeaderParts(e);
    PartOfHeader(buf, off, e, 0);
    PartOfHeader(buf, off, e, 4);
    PartOfHeader(buf, off, e, 8);
    PartOfHeader(buf, off, e, 12);
    Le32RoundTrip(buf, off, MAGIC);
    Le32RoundTrip(buf, off + 4, |e.data|);
    Le32RoundTrip(buf, off + 8, e.channel);
    Le32RoundTrip(buf, off + 12, e.kind);
  }

  /** What was written is what is read. */
  lemma EntryReads(buf: seq<nat>, off: nat, e: Entry)
    requires EntryAt(buf, off, e) && EntryOk(e)
    ensures Get32(buf, off + 4) == |e.data| && Decoded(buf, off) == e
  {
    hide Get32, Header;
    HeaderReads(buf, off, e);
  }

  // ---- Writing ----

  function Put(buf: seq<nat>, off: nat, s: seq<nat>): (r: seq<nat>)
    requires off + |s| <= |buf|
    ensures |r| == |buf|
    ensures forall k :: 0 <= k < |buf| ==> r[k] == if off <= k < off + |s| then s[k - off] else buf[k]
  {
    buf[..off] + s + buf[off + |s|..]
  }

  /** Bytes outside [off, off + len) are the same. */
  ghost predicate SameOutside(buf: seq<nat>, buf': seq<nat>, off: nat, len: nat) {
    |buf'| == |buf| && forall k :: 0 <= k < |buf| && !(off <= k < off + len) ==> buf'[k] == buf[k]
  }

  /** Entries that no write touches are still there. */
  lemma EntryKept(buf: seq<nat>, buf': seq<nat>, off: nat, e: Entry)
    requires EntryAt(buf, off, e) && |buf'| == |buf|
    requires forall k :: off <= k < off + 16 + |e.data| ==> buf'[k] == buf[k]
    ensures EntryAt(buf', off, e)
  {
    assert buf'[off..off + 16] == buf[off..off + 16];
    assert buf'[off + 16..off + 16 + |e.data|] == buf[off + 16..off + 16 + |e.data|];
  }

  lemma HeaderKept(buf: seq<nat>, buf': seq<nat>, off: nat, e: Entry)
    requires HeaderAt(buf, off, e) && |buf'| == |buf|
    requires forall k :: off <= k < off + 16 ==> buf'[k] == buf[k]
    ensures HeaderAt(buf', off, e)
  {
    assert buf'[off..off + 16] == buf[off..off + 16];
  }

  // ---- Positions ----

  /** ALIGN_UP(sizeof(struct afk_qe) + n, 64): the room that an entry with n data bytes takes. */
  function Room(n: nat): (r: nat)
    ensures 16 + n <= r < 16 + n + 64 && Block(r)
  {
    DivModIs((n + 79) / 64 * 64, 64, (n + 79) / 64, 0);
    (n + 79) / 64 * 64
  }

  predicate Block(x: nat) { x % 64 == 0 }

  lemma BlockSum(x: nat, y: nat)
    requires Block(x) && Block(y)
    ensures Block(x + y) && (x >= y ==> Block(x - y)) && (x < y ==> x + 64 <= y)
  {
    AddMultiple(x, 64, y / 64);
    if x >= y { AddMultiple(x - y, 64, y / 64); }
  }

  /** Advancing to the end of the buffer goes to its start. */
  function Wrapped(x: nat, bufsz: nat): nat { if x >= bufsz then 0 else x }

  /** In ring order, r lies from r0 up to w. */
  predicate Between(r0: nat, r: nat, w: nat) {
    if r0 <= w then r0 <= r <= w else r0 <= r || r <= w
  }

  predicate PtrOk(x: nat, bufsz: nat) { Block(x) && x < bufsz }

  /** The entries q stand in the ring from r up to w. */
  ghost predicate Holds(buf: seq<nat>, r: nat, w: nat, q: seq<Entry>)
    decreases |q|
  {
    && PtrOk(r, |buf|) && PtrOk(w, |buf|)
    && if q == [] then r == w
       else
         var e, n := q[0], Room(|q[0].data|);
         && r != w && EntryOk(e)
         && if r < w then r + n <= w && EntryAt(buf, r, e) && Holds(buf, r + n, w, q[1..])
            else if r + n <= |buf| then EntryAt(buf, r, e) && Holds(buf, Wrapped(r + n, |buf|), w, q[1..])
            else HeaderAt(buf, r, e) && EntryAt(buf, 0, e) && n <= w && Holds(buf, n, w, q[1..])
  }

  // ---- afk_epic_tx ----

  /** The entry is refused, judging by the read pointer r0. */
  predicate Full(bufsz: nat, r0: nat, w: nat, n: nat) {
    if w < r0 then n >= r0 - w
    else !(n < bufsz - w || (n == bufsz - w && r0 != 0)) && n >= r0
  }

  /** The entry moves to the start of the buffer. */
  predicate Wraps(bufsz: nat, w: nat, len: nat) { w + 16 + len > bufsz }

  /** The buffer after the header, its copy and the data were written. */
  function TxBuffer(buf: seq<nat>, w: nat, e: Entry): seq<nat>
    requires w + 16 <= |buf| && 16 + |e.data| <= |buf|
  {
    var b := Put(buf, w, Header(e));
    if Wraps(|buf|, w, |e.data|) then Put(Put(b, 0, Header(e)), 16, e.data) else Put(b, w + 16, e.data)
  }

  function TxPointer(bufsz: nat, w: nat, len: nat): nat {
    if Wraps(bufsz, w, len) then Wrapped(Room(len), bufsz) else Wrapped(w + Room(len), bufsz)
  }

  /** A written header and a written entry are there. */
  lemma PutHeader(buf: seq<nat>, off: nat, e: Entry)
    requires off + 16 <= |buf|
    ensures HeaderAt(Put(buf, off, Header(e)), off, e)
  {
    hide Header;
    assert Put(buf, off, Header(e))[off..off + 16] == Header(e);
  }

  lemma PutData(buf: seq<nat>, off: nat, e: Entry)
    requires HeaderAt(buf, off, e) && off + 16 + |e.data| <= |buf|
    ensures EntryAt(Put(buf, off + 16, e.data), off, e)
  {
    hide Header;
    var b := Put(buf, off + 16, e.data);
    HeaderKept(buf, b, off, e);
    assert b[off + 16..off + 16 + |e.data|] == e.data;
  }

  /** After afk_epic_tx's writes the entry is in the buffer: at w, or at 0 with a marker at w.  Only bytes
      of the room it takes have changed. */
  lemma TxWrites(buf: seq<nat>, w: nat, e: Entry)
    requires PtrOk(w, |buf|) && Block(|buf|) && 16 + |e.data| <= |buf|
    requires Wraps(|buf|, w, |e.data|) ==> 16 + |e.data| <= w
    ensures w + 16 <= |buf|
    ensures var b := TxBuffer(buf, w, e);
            && |b| == |buf|
            && if Wraps(|buf|, w, |e.data|) then
                 && HeaderAt(b, w, e) && EntryAt(b, 0, e)
                 && forall k :: 16 + |e.data| <= k < |buf| && !(w <= k < w + 16) ==> b[k] == buf[k]
               else EntryAt(b, w, e) && SameOutside(buf, b, w, 16 + |e.data|)
  {
    hide Header, Block;
    assert w + 16 <= |buf| by { BlockSum(w, |buf|); }
    var b1 := Put(buf, w, Header(e));
    PutHeader(buf, w, e);
    if Wraps(|buf|, w, |e.data|) {
      var b2 := Put(b1, 0, Header(e));
      PutHeader(b1, 0, e);
      PutData(b2, 0, e);
      HeaderKept(b1, Put(b2, 16, e.data), w, e);
    } else {
      PutData(b1, w, e);
    }
  }

  /** Entries survive writes outside the part of the ring between r and w. */
  lemma {:induction false} HoldsKept(buf: seq<nat>, buf': seq<nat>, r: nat, w: nat, q: seq<Entry>)
    requires Holds(buf, r, w, q) && |buf'| == |buf|
    requires forall k :: 0 <= k < |buf| && (if r <= w then r <= k < w else r <= k || k < w) ==> buf'[k] == buf[k]
    ensures Holds(buf', r, w, q)
    decreases |q|
  {
    hide Block, Room, EntryOk, Header, EntryAt;
    if q != [] {
      var e, n := q[0], Room(|q[0].data|);
      if r < w {
        EntryKept(buf, buf', r, e);
        HoldsKept(buf, buf', r + n, w, q[1..]);
      } else if r + n <= |buf| {
        EntryKept(buf, buf', r, e);
        HoldsKept(buf, buf', Wrapped(r + n, |buf|), w, q[1..]);
      } else {
        HeaderKept(buf, buf', r, e);
        EntryKept(buf, buf', 0, e);
        HoldsKept(buf, buf', n, w, q[1..]);
      }
    }
  }

  /** Moving the write pointer past a new entry appends it to the queue. */
  lemma {:induction false} HoldsAppend(buf: seq<nat>, r0: nat, r: nat, w: nat, q: seq<Entry>, e: Entry)
    requires Holds(buf, r, w, q) && EntryOk(e) && PtrOk(r0, |buf|) && Block(|buf|)
    requires Between(r0, r, w) && !Full(|buf|, r0, w, Room(|e.data|))
    requires if Wraps(|buf|, w, |e.data|) then HeaderAt(buf, w, e) && EntryAt(buf, 0, e) else EntryAt(buf, w, e)
    ensures Holds(buf, r, TxPointer(|buf|, w, |e.data|), q + [e])
    decreases |q|
  {
    hide Block, HeaderAt, EntryAt, Room;
    var w', n := TxPointer(|buf|, w, |e.data|), Room(|e.data|);
    TxPointerOk(|buf|, r0, r, w, |e.data|);
    if q == [] {
      assert ([] + [e])[1..] == [];
      assert (q + [e])[0] == e;
    } else {
      var d, m := q[0], Room(|q[0].data|);
      assert (q + [e])[0] == d && (q + [e])[1..] == q[1..] + [e];
      if r < w {
        HoldsAppend(buf, r0, r + m, w, q[1..], e);
      } else if r + m <= |buf| {
        HoldsAppend(buf, r0, Wrapped(r + m, |buf|), w, q[1..], e);
      } else {
        HoldsAppend(buf, r0, m, w, q[1..], e);
      }
    }
  }

  /** The new write pointer is legal, never meets a read pointer from r0 on, and lies on the same side of it
      as the ring order demands. */
  lemma TxPointerOk(bufsz: nat, r0: nat, r: nat, w: nat, len: nat)
    requires PtrOk(r0, bufsz) && PtrOk(r, bufsz) && PtrOk(w, bufsz) && Block(bufsz)
    requires Between(r0, r, w) && !Full(bufsz, r0, w, Room(len))
    ensures var w' := TxPointer(bufsz, w, len);
            && PtrOk(w', bufsz) && w' != r && Between(r0, r, w')
            && (Wraps(bufsz, w, len) ==> w' == Room(len) < r0 <= r <= w && w + Room(len) > bufsz)
            && (!Wraps(bufsz, w, len) ==> w + Room(len) <= bufsz && w' == Wrapped(w + Room(len), bufsz))
            && (w < r0 ==> w' == w + Room(len) < r0)
            && (r0 <= w ==> w < w' || w' < r0)
  {
    hide Room, Block;
    var n := Room(len);
    BlockSum(bufsz, w);
    BlockSum(w, n);
    if !Wraps(bufsz, w, len) {
      RoomFits(len, bufsz - w);
    }
    BlockZero();
  }

  lemma BlockZero()
    ensures Block(0)
  {
  }

  lemma RoomFits(len: nat, avail: nat)
    requires Block(avail) && 16 + len <= avail
    ensures Room(len) <= avail
  {
    BlockSum(avail, Room(len));
  }

  /** afk_epic_tx with any earlier read pointer r0: the entries that are still to be read at r keep their
      bytes, the new one comes after them, and the write pointer does not catch up with the read
      pointer. */
  lemma TxAppends(buf: seq<nat>, r0: nat, r: nat, w: nat, q: seq<Entry>, e: Entry)
    requires Holds(buf, r, w, q) && EntryOk(e) && PtrOk(r0, |buf|) && Block(|buf|)
    requires Between(r0, r, w) && !Full(|buf|, r0, w, Room(|e.data|))
    ensures w + 16 <= |buf| && 16 + |e.data| <= |buf|
    ensures var b, w' := TxBuffer(buf, w, e), TxPointer(|buf|, w, |e.data|);
            && |b| == |buf| && PtrOk(w', |b|) && w' != r && Between(r0, r, w')
            && Holds(b, r, w, q) && Holds(b, r, w', q + [e])
  {
    hide Block, HeaderAt, EntryAt, Room, Header, Put, TxBuffer;
    TxPointerOk(|buf|, r0, r, w, |e.data|);
    TxWrites(buf, w, e);
    var b := TxBuffer(buf, w, e);
    HoldsKept(buf, b, r, w, q);
    HoldsAppend(b, r0, r, w, q, e);
  }

  /** An unread byte, judging by the read pointer r0. */
  predicate Unread(r0: nat, w: nat, x: nat) { if r0 <= w then r0 <= x < w else r0 <= x || x < w }

  /** An entry of n bytes has room at s without running over the read pointer, and a gap remains. */
  ghost predicate Placeable(bufsz: nat, r0: nat, w: nat, n: nat, s: nat) {
    && s + n <= bufsz && Wrapped(s + n, bufsz) != r0 && !(s < r0 < s + n)
    && forall x: nat :: s <= x < s + n ==> !Unread(r0, w, x)
  }

  /** A transmission is refused exactly when the entry has room neither at the write pointer nor, past the
      end, at the start of the buffer. */
  lemma FullExactly(bufsz: nat, r0: nat, w: nat, n: nat)
    requires PtrOk(r0, bufsz) && PtrOk(w, bufsz) && 0 < n
    ensures !Full(bufsz, r0, w, n) <==>
            Placeable(bufsz, r0, w, n, w) || (r0 <= w && Placeable(bufsz, r0, w, n, 0))
  {
    hide Block;
    assert r0 == 0 && 0 < w ==> Unread(r0, w, 0);
  }

  // ---- afk_epic_rx and afk_epic_rx_ack ----

  /** The position at which afk_epic_rx finds the entry: it goes to the start of the buffer when the data size,
      without the header, reaches past the end. */
  function RxPosition(buf: seq<nat>, r: nat): nat
    requires r + 16 <= |buf|
  {
    if r + Get32(buf, r + 4) > |buf| then 0 else r
  }

  /** ALIGN_UP(rptr + sizeof(struct afk_qe) + size, 64), which afk_epic_rx_ack asserts to be at most bufsz. */
  function AckEnd(buf: seq<nat>, r: nat): nat
    requires r + 16 <= |buf|
  {
    r + Room(Get32(buf, r + 4))
  }

  /** Sender and receiver agree on whether an entry of len bytes at r wraps. */
  predicate Agree(bufsz: nat, r: nat, len: nat) { !(r + len <= bufsz < r + 16 + len) }

  lemma HoldsRoom(buf: seq<nat>, r: nat, w: nat, q: seq<Entry>)
    requires Holds(buf, r, w, q) && Block(|buf|)
    ensures r + 16 <= |buf| && (q != [] ==> HeaderAt(buf, r, q[0]) && EntryOk(q[0]))
  {
    hide Header;
    BlockSum(r, |buf|);
  }

  /** Where the two agree, the receiver finds the first entry of the queue, whole, at its position, and may
      acknowledge it. */
  lemma RxFinds(buf: seq<nat>, r: nat, w: nat, q: seq<Entry>)
    requires Holds(buf, r, w, q) && q != [] && Block(|buf|) && Agree(|buf|, r, |q[0].data|)
    ensures r + 16 <= |buf| && Get32(buf, r) == 0x2050_4F49
    ensures var s := RxPosition(buf, r);
            && s + 16 <= |buf| && Get32(buf, s) == 0x2050_4F49 && Get32(buf, s + 4) == |q[0].data|
            && s + 16 + |q[0].data| <= |buf| && Decoded(buf, s) == q[0] && Holds(buf, s, w, q)
            && AckEnd(buf, s) <= |buf| && Holds(buf, Wrapped(AckEnd(buf, s), |buf|), w, q[1..])
            && Between(r, s, w) && Between(r, Wrapped(AckEnd(buf, s), |buf|), w)
            && RxPosition(buf, s) == s
  {
    hide Header, Get32, Decoded, Block, Room;
    var e, n := q[0], Room(|q[0].data|);
    HoldsRoom(buf, r, w, q);
    HeaderReads(buf, r, e);
    BlockZero();
    if r < w || r + n <= |buf| {
      assert r + n <= |buf|;
      EntryReads(buf, r, e);
    } else {
      if r + |e.data| <= |buf| { RoomFitsNot(|buf|, r, |e.data|); }
      HeaderReads(buf, 0, e);
      EntryReads(buf, 0, e);
    }
  }

  lemma RoomFitsNot(bufsz: nat, r: nat, len: nat)
    requires Block(bufsz) && Block(r) && r <= bufsz && r + Room(len) > bufsz
    ensures r + 16 + len > bufsz
  {
    BlockSum(bufsz, r);
    if 16 + len <= bufsz - r { RoomFits(len, bufsz - r); }
  }

  /** Where they do not agree, the receiver takes the marker for the entry, and acknowledging it fails the
      assertion. */
  lemma RxMisses(buf: seq<nat>, r: nat, w: nat, q: seq<Entry>)
    requires Holds(buf, r, w, q) && q != [] && Block(|buf|) && !Agree(|buf|, r, |q[0].data|)
    ensures r + 16 <= |buf| && RxPosition(buf, r) == r && AckEnd(buf, r) > |buf|
  {
    hide Header, Get32, Block, Room;
    HoldsRoom(buf, r, w, q);
    HeaderReads(buf, r, q[0]);
  }

  /** The sizes for which they agree at every position of every ring. */
  lemma AgreeEverywhere(len: nat)
    ensures (forall bufsz: nat, r: nat :: Block(bufsz) && PtrOk(r, bufsz) ==> Agree(bufsz, r, len)) <==>
            len == 0 || 1 <= len % 64 <= 48
  {
    if len == 0 || 1 <= len % 64 <= 48 {
      forall bufsz: nat, r: nat | Block(bufsz) && PtrOk(r, bufsz) ensures Agree(bufsz, r, len) {
        AgreeAt(bufsz, r, len);
      }
    } else {
      var avail := (len + 63) / 64 * 64;
      DivModIs(avail, 64, (len + 63) / 64, 0);
      assert Block(avail) && PtrOk(0, avail) && !Agree(avail, 0, len);
    }
  }

  lemma AgreeAt(bufsz: nat, r: nat, len: nat)
    requires Block(bufsz) && PtrOk(r, bufsz) && (len == 0 || 1 <= len % 64 <= 48)
    ensures Agree(bufsz, r, len)
  {
    BlockSum(bufsz, r);
    var a := bufsz - r;
    assert a == a / 64 * 64 && len == len / 64 * 64 + len % 64;
  }

  /** The size rounded up to blocks. */
  function Blocks(len: nat): nat { (len + 63) / 64 * 64 }

  /** The sizes for which they agree wherever an entry of this size can stand in a ring of bufsz bytes: an entry that
      wraps unnoticed needs its room at the start of the ring and a gap besides. */
  predicate FitsRing(bufsz: nat, len: nat) {
    len == 0 || 1 <= len % 64 <= 48 || bufsz < 2 * Blocks(len) + 128
  }

  lemma BadBlocks(len: nat)
    requires len > 0 && !(1 <= len % 64 <= 48)
    ensures Block(Blocks(len)) && 64 <= Blocks(len) && len <= Blocks(len) < len + 16 && Room(len) == Blocks(len) + 64
  {
    var q, r := len / 64, len % 64;
    var m := if r == 0 then q else q + 1;
    DivModIs(len + 63, 64, m, len + 63 - 64 * m);
    DivModIs(64 * m, 64, m, 0);
    DivModIs(len + 79, 64, m + 1, len + 79 - 64 * (m + 1));
  }

  /** A block of free space that is too small for header and data but not for the data. */
  lemma Disagreement(bufsz: nat, r: nat, len: nat)
    requires Block(bufsz) && Block(r) && r <= bufsz && len > 0 && !(1 <= len % 64 <= 48) && !Agree(bufsz, r, len)
    ensures bufsz - r == Blocks(len)
  {
    BadBlocks(len);
    BlockSum(bufsz, r);
    hide Blocks, Room;
    var a, f := Blocks(len), bufsz - r;
    if a < f { BlockSum(a, f); } else if f < a { BlockSum(f, a); }
  }

  lemma AgreeHeld(buf: seq<nat>, r: nat, w: nat, q: seq<Entry>)
    requires Holds(buf, r, w, q) && q != [] && Block(|buf|) && FitsRing(|buf|, |q[0].data|)
    ensures Agree(|buf|, r, |q[0].data|)
  {
    var len := |q[0].data|;
    if len == 0 || 1 <= len % 64 <= 48 {
      AgreeAt(|buf|, r, len);
    } else if !Agree(|buf|, r, len) {
      BadBlocks(len);
      Disagreement(|buf|, r, len);
      hide Blocks, Room, EntryAt, HeaderAt;
      BlockSum(w, r);
      assert false;
    }
  }
}
