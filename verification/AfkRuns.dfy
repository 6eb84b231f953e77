/** Sender and receiver on one AFK ring, step by step (src/afk.c).

    The sender reads the read pointer once, writes its entry, and publishes it by moving the write
    pointer; the receiver takes steps at any time in between.
 */
module AfkRuns {
  import opened AfkRing

  datatype Sender = Idle | Snapped(r0: nat) | Written(e: Entry, w: nat)

  /** `sent` and `got` record the entries published and acknowledged so far; `held` says that the receiver
      has found an entry and not acknowledged it yet. */
  datatype State = State(buf: seq<nat>, rptr: nat, wptr: nat, sender: Sender, held: bool,
                         sent: seq<Entry>, got: seq<Entry>)

  /** Entries that both sides treat alike wherever they can stand in a ring of bufsz bytes. */
  predicate SizeOk(bufsz: nat, e: Entry) { FitsRing(bufsz, |e.data|) }

  predicate Init(s: State) {
    && Block(|s.buf|) && 0 < |s.buf| && s.rptr == 0 && s.wptr == 0
    && s.sender == Idle && !s.held && s.sent == [] && s.got == []
  }

  datatype Step =
    | Snap                 // afk_epic_tx reads rptr
    | Refuse               // and finds the ring full
    | Write(e: Entry)      // or writes header and data
    | Publish              // and moves wptr
    | Receive              // afk_epic_rx
    | Acknowledge          // afk_epic_rx_ack

  predicate Enabled(s: State, a: Step) {
    match a
    case Snap => s.sender.Idle?
    case Refuse => s.sender.Snapped?
    case Write(e) => s.sender.Snapped? && EntryOk(e) && !Full(|s.buf|, s.sender.r0, s.wptr, Room(|e.data|))
    case Publish => s.sender.Written?
    case Receive => s.rptr != s.wptr && !s.held
    case Acknowledge => s.held
  }

  /** Entries that are in the ring, and the ones that are in it but not published. */
  ghost predicate Queued(s: State, q: seq<Entry>) {
    && Block(|s.buf|) && Holds(s.buf, s.rptr, s.wptr, q) && s.sent == s.got + q
    && (forall i :: 0 <= i < |q| ==> SizeOk(|s.buf|, q[i]))
    && (s.sender.Snapped? ==> PtrOk(s.sender.r0, |s.buf|) && Between(s.sender.r0, s.rptr, s.wptr))
    && (s.sender.Written? ==> SizeOk(|s.buf|, s.sender.e) && Holds(s.buf, s.rptr, s.sender.w, q + [s.sender.e]))
    && (s.held ==> q != [] && s.rptr + 16 <= |s.buf| && RxPosition(s.buf, s.rptr) == s.rptr)
  }

  ghost predicate Inv(s: State) { exists q :: Queued(s, q) }

  /** The step would leave the buffer, find no entry header, or fail the assertion of afk_epic_rx_ack. */
  predicate Faults(s: State, a: Step) {
    match a
    case Write(e) => !(s.wptr + 16 <= |s.buf| && 16 + |e.data| <= |s.buf|)
    case Receive => !(s.rptr + 16 <= |s.buf| && Get32(s.buf, s.rptr) == MAGIC &&
                      Get32(s.buf, RxPosition(s.buf, s.rptr)) == MAGIC)
    case Acknowledge => !(s.rptr + 16 <= |s.buf| && AckEnd(s.buf, s.rptr) <= |s.buf| &&
                          s.rptr + 16 + Get32(s.buf, s.rptr + 4) <= |s.buf|)
    case _ => false
  }

  /** The effect of a step. */
  function After(s: State, a: Step): State
    requires Enabled(s, a)
  {
    if Faults(s, a) then s
    else
      match a
      case Snap => s.(sender := Snapped(s.rptr))
      case Refuse => s.(sender := Idle)
      case Write(e) => s.(buf := TxBuffer(s.buf, s.wptr, e), sender := Written(e, TxPointer(|s.buf|, s.wptr, |e.data|)))
      case Publish => s.(wptr := s.sender.w, sent := s.sent + [s.sender.e], sender := Idle)
      case Receive => s.(rptr := RxPosition(s.buf, s.rptr), held := true)
      case Acknowledge =>
        s.(rptr := Wrapped(AckEnd(s.buf, s.rptr), |s.buf|), held := false, got := s.got + [Decoded(s.buf, s.rptr)])
  }

  lemma NoFault(s: State, a: Step)
    requires Inv(s) && Enabled(s, a)
    ensures !Faults(s, a)
  {
    hide Holds, Full, Get32, Decoded, Room, Block, EntryAt, HeaderAt;
    var q :| Queued(s, q);
    match a
    case Write(e) => TxAppends(s.buf, s.sender.r0, s.rptr, s.wptr, q, e);
    case Receive =>
      EmptyIffEqual(s.buf, s.rptr, s.wptr, q);
      Head(s, q);
    case Acknowledge => Head(s, q);
    case _ =>
  }

  lemma EmptyIffEqual(buf: seq<nat>, r: nat, w: nat, q: seq<Entry>)
    requires Holds(buf, r, w, q)
    ensures r == w <==> q == []
  {
  }

  /** The first entry in the ring, as the receiver sees it. */
  lemma Head(s: State, q: seq<Entry>)
    requires Queued(s, q) && q != []
    ensures s.rptr + 16 <= |s.buf| && Get32(s.buf, s.rptr) == 0x2050_4F49
    ensures var p := RxPosition(s.buf, s.rptr);
            && p + 16 <= |s.buf| && Get32(s.buf, p) == 0x2050_4F49 && Get32(s.buf, p + 4) == |q[0].data|
            && p + 16 + |q[0].data| <= |s.buf| && Decoded(s.buf, p) == q[0]
            && Holds(s.buf, p, s.wptr, q) && RxPosition(s.buf, p) == p
            && AckEnd(s.buf, p) <= |s.buf| && Holds(s.buf, Wrapped(AckEnd(s.buf, p), |s.buf|), s.wptr, q[1..])
            && Between(s.rptr, p, s.wptr) && Between(s.rptr, Wrapped(AckEnd(s.buf, p), |s.buf|), s.wptr)
            && (s.sender.Written? ==>
                  && Holds(s.buf, p, s.sender.w, q + [s.sender.e])
                  && Holds(s.buf, Wrapped(AckEnd(s.buf, p), |s.buf|), s.sender.w, q[1..] + [s.sender.e]))
  {
    hide Holds, Get32, Decoded, Room, AckEnd, RxPosition, EntryAt, HeaderAt;
    AgreeHeld(s.buf, s.rptr, s.wptr, q);
    RxFinds(s.buf, s.rptr, s.wptr, q);
    if s.sender.Written? {
      var q' := q + [s.sender.e];
      assert q'[0] == q[0] && q'[1..] == q[1..] + [s.sender.e];
      RxFinds(s.buf, s.rptr, s.sender.w, q');
    }
  }

  lemma HoldsPointers(buf: seq<nat>, r: nat, w: nat, q: seq<Entry>)
    requires Holds(buf, r, w, q)
    ensures PtrOk(r, |buf|) && PtrOk(w, |buf|)
  {
  }

  lemma Through(r0: nat, r: nat, s: nat, w: nat)
    requires Between(r0, r, w) && Between(r, s, w)
    ensures Between(r0, s, w)
  {
  }

  // ---- The invariant ----

  lemma InitInv(s: State)
    requires Init(s)
    ensures Inv(s)
  {
    assert Queued(s, []);
  }

  lemma StepKeepsInv(s: State, a: Step)
    requires Inv(s) && Enabled(s, a) && (a.Write? ==> SizeOk(|s.buf|, a.e))
    ensures Inv(After(s, a))
  {
    hide Holds, Full, Get32, Decoded, Room, Block, EntryAt, HeaderAt, TxBuffer, TxPointer, RxPosition, AckEnd, Wrapped;
    NoFault(s, a);
    var q :| Queued(s, q);
    var s' := After(s, a);
    HoldsPointers(s.buf, s.rptr, s.wptr, q);
    EmptyIffEqual(s.buf, s.rptr, s.wptr, q);
    match a
    case Snap => assert Queued(s', q) by { FromItself(s.rptr, s.wptr); }
    case Refuse => assert Queued(s', q);
    case Write(e) => WriteKeeps(s, q, e);
    case Publish => PublishKeeps(s, q);
    case Receive => ReceiveKeeps(s, q);
    case Acknowledge => AcknowledgeKeeps(s, q);
  }

  lemma FromItself(r: nat, w: nat)
    ensures Between(r, r, w)
  {
  }

  lemma WriteKeeps(s: State, q: seq<Entry>, e: Entry)
    requires Queued(s, q) && Enabled(s, Write(e)) && !Faults(s, Write(e)) && SizeOk(|s.buf|, e)
    ensures Queued(After(s, Write(e)), q)
  {
    hide Holds, Full, Get32, Decoded, Room, Block, EntryAt, HeaderAt, TxPointer, TxBuffer;
    TxAppends(s.buf, s.sender.r0, s.rptr, s.wptr, q, e);
    if s.held { PositionStays(s.buf, TxBuffer(s.buf, s.wptr, e), s.rptr, s.wptr, q); }
  }

  /** Where the receiver looks depends on the queue only. */
  lemma PositionStays(buf: seq<nat>, buf': seq<nat>, r: nat, w: nat, q: seq<Entry>)
    requires Holds(buf, r, w, q) && Holds(buf', r, w, q) && q != [] && |buf'| == |buf| && Block(|buf|)
    ensures r + 16 <= |buf| && RxPosition(buf', r) == RxPosition(buf, r)
  {
    hide Holds, Get32, HeaderAt, Block;
    HoldsRoom(buf, r, w, q);
    HoldsRoom(buf', r, w, q);
    HeaderReads(buf, r, q[0]);
    HeaderReads(buf', r, q[0]);
  }

  lemma PublishKeeps(s: State, q: seq<Entry>)
    requires Queued(s, q) && Enabled(s, Publish)
    ensures Queued(After(s, Publish), q + [s.sender.e])
  {
    hide Holds, Full, Get32, Decoded, Room, Block, EntryAt, HeaderAt, TxPointer, TxBuffer;
    assert s.sent + [s.sender.e] == s.got + (q + [s.sender.e]);
  }

  lemma ReceiveKeeps(s: State, q: seq<Entry>)
    requires Queued(s, q) && Enabled(s, Receive) && !Faults(s, Receive)
    ensures Queued(After(s, Receive), q)
  {
    hide Holds, Full, Get32, Decoded, Room, Block, EntryAt, HeaderAt, TxPointer, TxBuffer, RxPosition, AckEnd;
    EmptyIffEqual(s.buf, s.rptr, s.wptr, q);
    Head(s, q);
    if s.sender.Snapped? { Through(s.sender.r0, s.rptr, RxPosition(s.buf, s.rptr), s.wptr); }
  }

  lemma AcknowledgeKeeps(s: State, q: seq<Entry>)
    requires Queued(s, q) && Enabled(s, Acknowledge) && !Faults(s, Acknowledge)
    ensures Queued(After(s, Acknowledge), q[1..])
    ensures After(s, Acknowledge).got == s.got + [q[0]]
  {
    hide Holds, Full, Get32, Decoded, Room, Block, EntryAt, HeaderAt, TxPointer, TxBuffer, AckEnd;
    Head(s, q);
    if s.sender.Snapped? { Through(s.sender.r0, s.rptr, Wrapped(AckEnd(s.buf, s.rptr), |s.buf|), s.wptr); }
    assert s.got + q == s.got + [q[0]] + q[1..];
  }

  // ---- Runs ----

  /** States s0, s1, ... where each follows from the one before by the given step. */
  ghost predicate Run(run: seq<State>, steps: seq<Step>) {
    && |run| == |steps| + 1 && Init(run[0])
    && forall i :: 0 <= i < |steps| ==> Enabled(run[i], steps[i]) && run[i + 1] == After(run[i], steps[i])
  }

  predicate SizesOk(bufsz: nat, steps: seq<Step>) {
    forall i :: 0 <= i < |steps| && steps[i].Write? ==> SizeOk(bufsz, steps[i].e)
  }

  lemma SameRing(s: State, a: Step)
    requires Enabled(s, a)
    ensures |After(s, a).buf| == |s.buf|
  {
    hide Full, Room, Header;
  }

  lemma {:induction false} RunInv(run: seq<State>, steps: seq<Step>, i: nat)
    requires Run(run, steps) && SizesOk(|run[0].buf|, steps) && i < |run|
    ensures Inv(run[i]) && |run[i].buf| == |run[0].buf|
  {
    hide Inv, After, SizeOk;
    if i == 0 {
      InitInv(run[0]);
    } else {
      RunInv(run, steps, i - 1);
      StepKeepsInv(run[i - 1], steps[i - 1]);
      SameRing(run[i - 1], steps[i - 1]);
    }
  }

  /** The ring is a queue for entries of these sizes: in every state of every interleaving the acknowledged entries are
      the first ones that were published, in order and once each, and exactly the others are in the ring. */
  lemma Fifo(run: seq<State>, steps: seq<Step>, i: nat)
    requires Run(run, steps) && SizesOk(|run[0].buf|, steps) && i < |run|
    ensures run[i].got <= run[i].sent
    ensures Holds(run[i].buf, run[i].rptr, run[i].wptr, run[i].sent[|run[i].got|..])
    ensures i < |steps| ==> !Faults(run[i], steps[i])
  {
    RunInv(run, steps, i);
    hide Holds, Faults;
    var q :| Queued(run[i], q);
    assert run[i].sent[|run[i].got|..] == q;
    if i < |steps| { NoFault(run[i], steps[i]); }
  }
}
