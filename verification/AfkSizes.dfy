/** Which entries an AFK ring can carry: sizes for which sender and receiver disagree about the end of the buffer break
    it in some run (src/afk.c). */
module AfkSizes {
  import opened Arith
  import opened AfkRing
  import opened AfkRuns

  /** The steps lead from s to t. */
  ghost predicate Leads(s: State, steps: seq<Step>, t: State)
    decreases |steps|
  {
    if steps == [] then s == t else Enabled(s, steps[0]) && Leads(After(s, steps[0]), steps[1..], t)
  }

  lemma {:induction false} LeadsOn(s: State, xs: seq<Step>, t: State, ys: seq<Step>, u: State)
    requires Leads(s, xs, t) && Leads(t, ys, u)
    ensures Leads(s, xs + ys, u)
    decreases |xs|
  {
    if xs == [] {
      assert xs + ys == ys;
    } else {
      LeadsOn(After(s, xs[0]), xs[1..], t, ys, u);
      assert (xs + ys)[0] == xs[0] && (xs + ys)[1..] == xs[1..] + ys;
    }
  }

  lemma LeadsOne(s: State, a: Step)
    requires Enabled(s, a)
    ensures Leads(s, [a], After(s, a))
  {
    hide After, Enabled;
    assert [a][1..] == [];
  }

  /** Steps from an initial state are a run. */
  lemma {:induction false} LeadsIsRun(run: seq<State>, done: seq<Step>, steps: seq<Step>, t: State)
    returns (all: seq<State>)
    requires Run(run, done) && Leads(run[|done|], steps, t)
    ensures Run(all, done + steps) && all[|done + steps|] == t && all[0] == run[0]
    decreases |steps|
  {
    hide After, Enabled;
    if steps == [] {
      assert done + steps == done;
      all := run;
    } else {
      var s := run[|done|];
      var run', done' := run + [After(s, steps[0])], done + [steps[0]];
      assert Run(run', done');
      all := LeadsIsRun(run', done', steps[1..], t);
      assert done' + steps[1..] == done + steps;
    }
  }

  /** Sender and receiver at rest with everything delivered, both pointers at p. */
  ghost predicate Rest(s: State, bufsz: nat, p: nat) {
    Queued(s, []) && s.sender.Idle? && !s.held && |s.buf| == bufsz && s.rptr == p
  }

  function Exchange(e: Entry): seq<Step> { [Snap, Write(e), Publish, Receive, Acknowledge] }

  /** An entry of a good size is sent and received, and both pointers move on. */
  lemma Deliver(s: State, bufsz: nat, p: nat, e: Entry) returns (t: State)
    requires Rest(s, bufsz, p) && EntryOk(e) && SizeOk(bufsz, e) && !Full(bufsz, p, p, Room(|e.data|))
    ensures Leads(s, Exchange(e), t) && Rest(t, bufsz, TxPointer(bufsz, p, |e.data|))
  {
    hide Holds, Full, Get32, Decoded, Room, Block, EntryAt, HeaderAt, TxBuffer, TxPointer, RxPosition, AckEnd, Wrapped;
    HoldsPointers(s.buf, s.rptr, s.wptr, []);
    EmptyIffEqual(s.buf, s.rptr, s.wptr, []);
    FromItself(s.rptr, s.wptr);
    var s1 := After(s, Snap);
    assert Queued(s1, []);
    TxAppends(s1.buf, p, p, p, [], e);
    var s2 := After(s1, Write(e));
    WriteKeeps(s1, [], e);
    var s3 := After(s2, Publish);
    PublishKeeps(s2, []);
    assert [] + [e] == [e];
    EmptyIffEqual(s3.buf, s3.rptr, s3.wptr, [e]);
    Head(s3, [e]);
    var s4 := After(s3, Receive);
    ReceiveKeeps(s3, [e]);
    Head(s4, [e]);
    t := After(s4, Acknowledge);
    AcknowledgeKeeps(s4, [e]);
    assert [e][1..] == [];
    EmptyIffEqual(t.buf, t.rptr, t.wptr, []);
    FiveSteps(s, s1, s2, s3, s4, e);
  }

  lemma FiveSteps(s: State, s1: State, s2: State, s3: State, s4: State, e: Entry)
    requires Enabled(s, Snap) && s1 == After(s, Snap) && Enabled(s1, Write(e)) && s2 == After(s1, Write(e))
    requires Enabled(s2, Publish) && s3 == After(s2, Publish) && Enabled(s3, Receive) && s4 == After(s3, Receive)
    requires Enabled(s4, Acknowledge)
    ensures Leads(s, Exchange(e), After(s4, Acknowledge))
  {
    hide After, Enabled;
    LeadsOne(s, Snap);
    LeadsOne(s1, Write(e));
    LeadsOne(s2, Publish);
    LeadsOne(s3, Receive);
    LeadsOne(s4, Acknowledge);
    LeadsOn(s, [Snap], s1, [Write(e)], s2);
    LeadsOn(s, [Snap] + [Write(e)], s2, [Publish], s3);
    LeadsOn(s, [Snap] + [Write(e)] + [Publish], s3, [Receive], s4);
    LeadsOn(s, [Snap] + [Write(e)] + [Publish] + [Receive], s4, [Acknowledge], After(s4, Acknowledge));
    assert [Snap] + [Write(e)] + [Publish] + [Receive] + [Acknowledge] == Exchange(e);
  }

  /** The same for an entry that wraps where the receiver does not notice: the acknowledgement fails. */
  lemma Misdeliver(s: State, bufsz: nat, p: nat, e: Entry) returns (t: State)
    requires Rest(s, bufsz, p) && EntryOk(e) && !Full(bufsz, p, p, Room(|e.data|)) && !Agree(bufsz, p, |e.data|)
    ensures Leads(s, [Snap, Write(e), Publish, Receive], t) && Enabled(t, Acknowledge) && Faults(t, Acknowledge)
  {
    hide Holds, Full, Get32, Decoded, Room, Block, EntryAt, HeaderAt, TxBuffer, TxPointer, RxPosition, AckEnd, Wrapped,
      Agree;
    HoldsPointers(s.buf, s.rptr, s.wptr, []);
    EmptyIffEqual(s.buf, s.rptr, s.wptr, []);
    FromItself(s.rptr, s.wptr);
    var s1 := After(s, Snap);
    TxAppends(s1.buf, p, p, p, [], e);
    var s2 := After(s1, Write(e));
    var s3 := After(s2, Publish);
    assert [] + [e] == [e];
    EmptyIffEqual(s3.buf, s3.rptr, s3.wptr, [e]);
    RxMisses(s3.buf, p, s3.wptr, [e]);
    HoldsRoom(s3.buf, p, s3.wptr, [e]);
    HeaderReads(s3.buf, p, e);
    t := After(s3, Receive);
    LeadsOne(s, Snap);
    LeadsOne(s1, Write(e));
    LeadsOne(s2, Publish);
    LeadsOne(s3, Receive);
    hide After, Enabled, Faults;
    LeadsOn(s, [Snap], s1, [Write(e)], s2);
    LeadsOn(s, [Snap] + [Write(e)], s2, [Publish], s3);
    LeadsOn(s, [Snap] + [Write(e)] + [Publish], s3, [Receive], t);
    assert [Snap] + [Write(e)] + [Publish] + [Receive] == [Snap, Write(e), Publish, Receive];
  }

  // ---- The run that fails ----

  function Filler(len: nat): Entry { Entry(0, 0, seq(len, _ => 0)) }

  /** The filler that takes all of a ring of b bytes but the last a. */
  lemma FillerIs(b: nat, a: nat)
    requires Block(b) && Block(a) && a + 64 <= b
    ensures Room(b - a - 16) == b - a && SizeOk(b, Filler(b - a - 16))
  {
    BlockSum(b, a);
    var m := (b - a) / 64;
    assert b - a == 64 * m;
    DivModIs(64 * m - 16 + 79, 64, m, 63);
    DivModIs(64 * m - 16, 64, m - 1, 48);
  }

  /** The numbers behind the run: the filler brings the pointers to b - a, where the entry is accepted, wraps for the
      sender, and does not for the receiver. */
  lemma Places(b: nat, a: nat, len: nat)
    requires 64 <= a && len <= a < len + 16 && 2 * a + 128 <= b && Room(b - a - 16) == b - a
    ensures !Full(b, 0, 0, b - a) && TxPointer(b, 0, b - a - 16) == b - a
    ensures !Full(b, b - a, b - a, a + 64) && !Agree(b, b - a, len)
  {
    hide Room;
  }

  /** The ring before the first step. */
  function Empty(bufsz: nat): State {
    State(seq(bufsz, _ => 0), 0, 0, Idle, false, [], [])
  }

  lemma EmptyRests(bufsz: nat)
    requires Block(bufsz) && 0 < bufsz
    ensures Init(Empty(bufsz)) && Rest(Empty(bufsz), bufsz, 0) && Run([Empty(bufsz)], [])
  {
  }

  /** Writes are of sizes that are good for the ring, or of the entry e. */
  predicate GoodOr(bufsz: nat, steps: seq<Step>, e: Entry) {
    forall i :: 0 <= i < |steps| && steps[i].Write? ==> SizeOk(bufsz, steps[i].e) || steps[i].e == e
  }

  /** For every ring and every entry of a size that is not good for it there is a run, in which everything else is of
      a good size, that ends with the receiver failing its assertion. */
  lemma BadSizeBreaks(b: nat, e: Entry) returns (run: seq<State>, steps: seq<Step>)
    requires EntryOk(e) && Block(b) && b < 0x1_0000_0000 && !SizeOk(b, e)
    ensures Run(run, steps) && |run[0].buf| == b && GoodOr(b, steps, e)
    ensures Enabled(run[|steps|], Acknowledge) && Faults(run[|steps|], Acknowledge)
  {
    hide Enabled, After, Faults, Queued, Full, Agree, TxPointer, Room, Block, Blocks;
    var len := |e.data|;
    var a := Blocks(len);
    BadBlocks(len);
    FillerIs(b, a);
    Places(b, a, len);
    EmptyRests(b);
    var f := Filler(b - a - 16);
    hide SizeOk;
    var s1 := Deliver(Empty(b), b, 0, f);
    var t := Misdeliver(s1, b, b - a, e);
    var last := [Snap, Write(e), Publish, Receive];
    LeadsOn(Empty(b), Exchange(f), s1, last, t);
    steps := Exchange(f) + last;
    run := LeadsIsRun([Empty(b)], [], steps, t);
    assert [] + steps == steps;
  }

  /** No run on a ring of b bytes that writes only this entry and entries of good sizes comes to a step that faults. */
  ghost predicate NeverFaults(b: nat, e: Entry) {
    forall run: seq<State>, steps: seq<Step>, a: Step ::
      Run(run, steps) && |run[0].buf| == b && GoodOr(b, steps, e) && Enabled(run[|steps|], a) ==>
        !Faults(run[|steps|], a)
  }

  /** On a ring of b bytes an entry is safe beside all entries of good sizes, in every run, exactly if its own size
      is good: it leaves 1 to 48 modulo 64, or is 0, or it is too large to wrap unnoticed. */
  lemma SafeSizes(b: nat, e: Entry)
    requires EntryOk(e) && Block(b) && 0 < b < 0x1_0000_0000
    ensures NeverFaults(b, e) <==> SizeOk(b, e)
  {
    hide Enabled, Faults, After, SizeOk;
    if SizeOk(b, e) {
      forall run: seq<State>, steps: seq<Step>, a: Step
        | Run(run, steps) && |run[0].buf| == b && GoodOr(b, steps, e) && Enabled(run[|steps|], a)
        ensures !Faults(run[|steps|], a)
      {
        RunInv(run, steps, |steps|);
        NoFault(run[|steps|], a);
      }
    } else {
      var run, steps := BadSizeBreaks(b, e);
    }
  }

  /** The largest ring: 16 bits of blocks of 64 bytes, less the 192 bytes of its header. */
  const LARGEST_RING: nat := 0xFFFF * 64 - 192

  predicate RingSize(b: nat) { Block(b) && 0 < b <= LARGEST_RING }

  /** An entry is safe on every ring that can be set up exactly if it is on the largest one. */
  lemma SafeOnAllRings(e: Entry)
    requires EntryOk(e)
    ensures (forall b: nat :: RingSize(b) ==> NeverFaults(b, e)) <==>
            |e.data| == 0 || 1 <= |e.data| % 64 <= 48 || 2 * Blocks(|e.data|) + 128 > 0x3F_FF00
  {
    hide NeverFaults, Blocks;
    assert RingSize(LARGEST_RING);
    forall b: nat | RingSize(b) ensures NeverFaults(b, e) <==> SizeOk(b, e) {
      SafeSizes(b, e);
    }
  }
}
