/** The operations on an AFK ring, in place (src/afk.c). */
module AfkEndpoint {
  import opened Arith
  import opened AfkRing

  /** memcpy into the ring. */
  method Memcpy(buf: array<nat>, off: nat, s: seq<nat>)
    requires off + |s| <= buf.Length
    modifies buf
    ensures buf[..] == Put(old(buf[..]), off, s)
  {
    for i := 0 to |s|
      invariant forall k :: 0 <= k < buf.Length ==> buf[k] == if off <= k < off + i then s[k - off] else old(buf[k])
    {
      buf[off + i] := s[i];
    }
  }

  class Ring {
    const buf: array<nat>
    var rptr: nat
    var wptr: nat

    constructor (bufsz: nat)
      requires Block(bufsz) && 0 < bufsz
      ensures Valid() && fresh(buf) && buf.Length == bufsz && Holds(buf[..], rptr, wptr, [])
    {
      buf := new nat[bufsz];
      rptr := 0;
      wptr := 0;
    }

    ghost predicate Valid()
      reads this
    {
      Block(buf.Length) && PtrOk(rptr, buf.Length) && PtrOk(wptr, buf.Length)
    }

    /** afk_epic_tx.  `r0` is the read pointer as it was read at the start; the receiver may have moved on.
        Whatever queue is in the ring from the receiver's present position is extended by the entry. */
    method Tx(r0: nat, channel: nat, kind: nat, data: seq<nat>) returns (ok: bool)
      requires Valid() && PtrOk(r0, buf.Length) && EntryOk(Entry(channel, kind, data))
      modifies this`wptr, buf
      ensures Valid() && ok == !Full(buf.Length, r0, old(wptr), Room(|data|))
      ensures !ok ==> buf[..] == old(buf[..]) && wptr == old(wptr)
      ensures ok ==> old(wptr) + 16 <= buf.Length && 16 + |data| <= buf.Length
      ensures ok ==> buf[..] == TxBuffer(old(buf[..]), old(wptr), Entry(channel, kind, data)) &&
                     wptr == TxPointer(buf.Length, old(wptr), |data|)
      ensures ok ==> forall r, q :: Holds(old(buf[..]), r, old(wptr), q) && Between(r0, r, old(wptr)) ==>
                       wptr != r && Holds(buf[..], r, wptr, q + [Entry(channel, kind, data)])
    {
      hide Block, Holds, TxBuffer, TxPointer, EntryOk;
      var e := Entry(channel, kind, data);
      var advance := Room(|data|);
      if wptr < r0 && advance >= r0 - wptr {
        return false;
      }
      if wptr >= r0 {
        var fitsAbove := advance < buf.Length - wptr || (advance == buf.Length - wptr && r0 != 0);
        if !fitsAbove && advance >= r0 {
          return false;
        }
      }
      assert Between(r0, r0, wptr);
      TxPointerOk(buf.Length, r0, r0, wptr, |data|);
      BlockSum(wptr, buf.Length);
      WriteEntry(e);
      forall r, q | Holds(old(buf[..]), r, old(wptr), q) && Between(r0, r, old(wptr))
        ensures wptr != r && Holds(buf[..], r, wptr, q + [e])
      {
        TxAppends(old(buf[..]), r0, r, old(wptr), q, e);
      }
      return true;
    }

    /** The part of afk_epic_tx that writes. */
    method WriteEntry(e: Entry)
      requires Valid() && wptr + 16 <= buf.Length && 16 + |e.data| <= buf.Length
      modifies this`wptr, buf
      ensures buf[..] == TxBuffer(old(buf[..]), old(wptr), e)
      ensures wptr == TxPointer(buf.Length, old(wptr), |e.data|)
    {
      hide Header, Put, Block;
      var b := wptr;
      Memcpy(buf, b, Header(e));
      var w := wptr + 16;
      if |e.data| > buf.Length - w {
        Memcpy(buf, 0, Header(e));
        b := 0;
        w := 16;
      }
      w := (w + |e.data| + 63) / 64 * 64;
      BlockZero();
      NextPointer(b, |e.data|);
      if w >= buf.Length {
        w := 0;
      }
      Memcpy(buf, b + 16, e.data);
      wptr := w;
    }

    /** afk_epic_rx: the position of the entry, or -1 if a header is missing. */
    method Rx() returns (pos: int)
      requires Valid()
      modifies this`rptr
      ensures rptr + 16 <= buf.Length && old(rptr) + 16 <= buf.Length
      ensures var p := RxPosition(buf[..], old(rptr));
              if Get32(buf[..], old(rptr)) == 0x2050_4F49 && Get32(buf[..], p) == 0x2050_4F49 then pos == rptr == p
              else pos == -1 && rptr == old(rptr)
      ensures Valid()
    {
      hide Get32, Block;
      BlockSum(rptr, buf.Length);
      BlockZero();
      var r := rptr;
      if Get32(buf[..], r) != MAGIC {
        return -1;
      }
      if r + Get32(buf[..], r + 4) > buf.Length {
        r := 0;
        if Get32(buf[..], r) != MAGIC {
          return -1;
        }
        rptr := r;
      }
      return r;
    }

    /** afk_epic_rx_ack; the result says whether the assertion holds. */
    method RxAck() returns (asserted: bool)
      requires Valid()
      modifies this`rptr
      ensures old(rptr) + 16 <= buf.Length && asserted == (AckEnd(buf[..], old(rptr)) <= buf.Length)
      ensures rptr == if asserted then Wrapped(AckEnd(buf[..], old(rptr)), buf.Length) else old(rptr)
      ensures Valid()
    {
      hide Get32, Block;
      BlockSum(rptr, buf.Length);
      BlockZero();
      var r := (rptr + 16 + Get32(buf[..], rptr + 4) + 63) / 64 * 64;
      NextPointer(rptr, Get32(buf[..], rptr + 4));
      BlockSum(rptr, Room(Get32(buf[..], rptr + 4)));
      if r > buf.Length {
        return false;
      }
      if r == buf.Length {
        r := 0;
      }
      rptr := r;
      return true;
    }
  }

  /** Aligning the end of an entry that starts at a block boundary. */
  lemma NextPointer(b: nat, len: nat)
    requires Block(b)
    ensures (b + 16 + len + 63) / 64 * 64 == b + Room(len)
  {
    AddMultiple(len + 79, 64, b / 64);
  }
}
