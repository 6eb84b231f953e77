/** The spin-table handshake between the caller of smp_call4 / smp_wait and a secondary core (src/smp.c), as a system
    of two parties that take turns in any order.  One step is one access to the shared table; the flag, which is read
    and written in one step, has a single writer.
 */
module SpinTable {
  const WORD: nat := 0x1_0000_0000_0000_0000

  datatype Request = Request(func: nat, args: seq<nat>)
  datatype Execution = Execution(func: nat, args: seq<nat>, value: nat)
  /** smp_wait returned value, when n calls had been made. */
  datatype Waited = Waited(n: nat, value: nat)

  /** Where the caller is.  before is the flag it read at the start of the call. */
  datatype Caller =
    | Idle
    | PutArg(i: nat, before: nat)
    | PutTarget(before: nat)
    | Spin(before: nat)
    | Waiting
    | Cleared

  /** Where the secondary is, with its local copies. */
  datatype Secondary =
    | Poll
    | Found(func: nat)
    | Fetch(func: nat, got: seq<nat>)
    | Store(value: nat)
    | Clear

  /** The shared table, the two parties, and the history: the calls made, the functions run and the waits finished. */
  datatype State = State(flag: nat, target: nat, args: seq<nat>, retval: nat, caller: Caller, second: Secondary,
                         asked: seq<Request>, ran: seq<Execution>, waits: seq<Waited>)

  datatype Step =
    // the caller
    | Call(request: Request) | WriteArg | WriteTarget | SeeFlag | Wait | SeeClear | ReadRetval
    // the secondary
    | Find | Count | ReadArg | Run(value: nat) | WriteRetval | ClearTarget

  function Next(flag: nat): nat { (flag + 1) % WORD }

  ghost predicate Enabled(s: State, t: Step) {
    match t
    case Call(r) => s.caller.Idle? && |r.args| == 4
    case WriteArg => s.caller.PutArg? && s.caller.i < 4
    case WriteTarget => s.caller.PutTarget?
    case SeeFlag => s.caller.Spin? && s.flag != s.caller.before
    case Wait => s.caller.Idle?
    case SeeClear => s.caller.Waiting? && s.target == 0
    case ReadRetval => s.caller.Cleared?
    case Find => s.second.Poll? && s.target != 0
    case Count => s.second.Found?
    case ReadArg => s.second.Fetch? && |s.second.got| < 4
    case Run(_) => s.second.Fetch? && |s.second.got| == 4
    case WriteRetval => s.second.Store?
    case ClearTarget => s.second.Clear?
  }

  ghost predicate Sane(s: State) {
    && |s.args| == 4 && s.flag < WORD
    && (s.caller.PutArg? || s.caller.PutTarget? ==> s.asked != [] && |Last(s).args| == 4)
    && (s.caller.PutArg? ==> s.caller.i < 4)
    && (s.second.Fetch? ==> |s.second.got| <= 4)
  }

  ghost function Last(s: State): Request
    requires s.asked != []
  {
    s.asked[|s.asked| - 1]
  }

  ghost function After(s: State, t: Step): State
    requires Sane(s) && Enabled(s, t)
  {
    match t
    case Call(r) => s.(asked := s.asked + [r], caller := PutArg(0, s.flag))
    case WriteArg =>
      var i := s.caller.i;
      s.(args := s.args[i := Last(s).args[i]],
         caller := if i == 3 then PutTarget(s.caller.before) else PutArg(i + 1, s.caller.before))
    case WriteTarget => s.(target := Last(s).func, caller := Spin(s.caller.before))
    case SeeFlag => s.(caller := Idle)
    case Wait => s.(caller := Waiting)
    case SeeClear => s.(caller := Cleared)
    case ReadRetval => s.(caller := Idle, waits := s.waits + [Waited(|s.asked|, s.retval)])
    case Find => s.(second := Found(s.target))
    case Count => s.(flag := Next(s.flag), second := Fetch(s.second.func, []))
    case ReadArg => s.(second := Fetch(s.second.func, s.second.got + [s.args[|s.second.got|]]))
    case Run(v) => s.(ran := s.ran + [Execution(s.second.func, s.second.got, v)], second := Store(v))
    case WriteRetval => s.(retval := s.second.value, second := Clear)
    case ClearTarget => s.(target := 0, second := Poll)
  }

  lemma StaysSane(s: State, t: Step)
    requires Sane(s) && Enabled(s, t)
    ensures Sane(After(s, t))
  {
  }

  /** The secondary has just announced itself and polls. */
  ghost predicate Initial(s: State) {
    && Sane(s) && s.caller.Idle? && s.second.Poll? && s.target == 0
    && s.asked == [] && s.ran == [] && s.waits == []
  }

  ghost predicate RunOk(s: State, steps: seq<Step>)
    requires Sane(s)
    decreases |steps|
  {
    steps == [] || (Enabled(s, steps[0]) && (StaysSane(s, steps[0]); RunOk(After(s, steps[0]), steps[1..])))
  }

  ghost function Final(s: State, steps: seq<Step>): (r: State)
    requires Sane(s) && RunOk(s, steps)
    ensures Sane(r)
    decreases |steps|
  {
    if steps == [] then s else StaysSane(s, steps[0]); Final(After(s, steps[0]), steps[1..])
  }

  /** The calls that the secondary has taken up. */
  ghost function Taken(s: State): nat { |s.ran| + if s.second.Fetch? then 1 else 0 }

  /** In every run the flag counts them, in 64 bits. */
  lemma {:induction false} FlagCounts(s: State, steps: seq<Step>)
    requires Sane(s) && RunOk(s, steps)
    ensures var r := Final(s, steps);
            Taken(s) <= Taken(r) && r.flag == (s.flag + (Taken(r) - Taken(s))) % 0x1_0000_0000_0000_0000
    decreases |steps|
  {
    hide After, Sane, Enabled, Taken;
    if steps != [] {
      var u := After(s, steps[0]);
      StaysSane(s, steps[0]);
      FlagStep(s, steps[0]);
      FlagCounts(u, steps[1..]);
      WrapAgain(s.flag, Taken(Final(u, steps[1..])) - Taken(u));
    } else {
      FlagBounded(s);
    }
  }

  lemma WrapAgain(flag: nat, n: nat)
    requires flag < 0x1_0000_0000_0000_0000
    ensures ((flag + 1) % 0x1_0000_0000_0000_0000 + n) % 0x1_0000_0000_0000_0000 ==
            (flag + (n + 1)) % 0x1_0000_0000_0000_0000
  {
  }

  lemma FlagBounded(s: State)
    requires Sane(s)
    ensures s.flag < 0x1_0000_0000_0000_0000
  {
  }

  lemma FlagStep(s: State, t: Step)
    requires Sane(s) && Enabled(s, t)
    ensures var u := After(s, t);
            if t.Count? then Taken(u) == Taken(s) + 1 && u.flag == (s.flag + 1) % 0x1_0000_0000_0000_0000
            else Taken(u) == Taken(s) && u.flag == s.flag
    ensures s.flag < 0x1_0000_0000_0000_0000
  {
  }

  /** Every call starts when the target is clear, as it is after smp_wait has returned. */
  ghost predicate Guarded(s: State, steps: seq<Step>)
    requires Sane(s) && RunOk(s, steps)
    decreases |steps|
  {
    steps == [] ||
    (&& (steps[0].Call? ==> s.target == 0)
     && (StaysSane(s, steps[0]); Guarded(After(s, steps[0]), steps[1..])))
  }

  /** The functions that ran are the first calls made, each with its own arguments. */
  ghost predicate RanAsAsked(s: State) {
    && |s.asked| - 1 <= |s.ran| <= |s.asked|
    && forall i :: 0 <= i < |s.ran| ==> s.ran[i].func == s.asked[i].func != 0 && s.ran[i].args == s.asked[i].args
  }

  /** A wait that follows a call returns the value of that call's function. */
  ghost predicate WaitsReturn(s: State) {
    forall k :: 0 <= k < |s.waits| && s.waits[k].n > 0 ==>
      s.waits[k].n <= |s.ran| && s.waits[k].value == s.ran[s.waits[k].n - 1].value
  }

  ghost predicate LastValue(s: State, v: nat) {
    s.ran != [] ==> s.ran[|s.ran| - 1].value == v
  }

  /** Everything asked for was run, and the secondary is back at its loop. */
  ghost predicate Quiet(s: State, open: nat) {
    s.target == 0 && s.second.Poll? && |s.ran| + open == |s.asked| && LastValue(s, s.retval)
  }

  /** The secondary has the call and has counted it. */
  ghost predicate Busy(s: State) {
    && s.asked != [] && s.target == Last(s).func != 0 && s.args == Last(s).args
    && match s.second
       case Fetch(f, got) => |s.ran| + 1 == |s.asked| && f == s.target && got <= s.args
       case Store(v) => |s.ran| == |s.asked| && LastValue(s, v)
       case Clear => |s.ran| == |s.asked| && LastValue(s, s.retval)
       case _ => false
  }

  /** The target is stored and the flag not yet counted. */
  ghost predicate Posted(s: State) {
    && s.asked != [] && s.target == Last(s).func && s.args == Last(s).args && |s.ran| + 1 == |s.asked|
    && (s.second.Poll? || (s.second.Found? && s.second.func == s.target != 0))
  }

  ghost predicate Inv(s: State) {
    && Sane(s) && RanAsAsked(s) && WaitsReturn(s)
    && (forall i :: 0 <= i < |s.asked| ==> |s.asked[i].args| == 4)
    && match s.caller
       case Idle => Quiet(s, 0) || (Busy(s) && !HasWaited(s))
       case Waiting => Quiet(s, 0) || Busy(s)
       case Cleared => Quiet(s, 0)
       case PutArg(i, b) =>
         i < 4 && s.asked != [] && Quiet(s, 1) && b == s.flag && s.args[..i] == Last(s).args[..i]
       case PutTarget(b) => s.asked != [] && Quiet(s, 1) && b == s.flag && s.args == Last(s).args
       case Spin(b) =>
         if s.flag == b then Posted(s) else s.flag == Next(b) && !HasWaited(s) && (Quiet(s, 0) || Busy(s))
  }

  /** The last call was followed by a wait that has returned, or there was none. */
  ghost predicate HasWaited(s: State) {
    s.asked == [] || (s.waits != [] && s.waits[|s.waits| - 1].n == |s.asked|)
  }

  lemma CallKeepsInv(s: State, t: Step)
    requires Inv(s) && Enabled(s, t) && (t.Call? ==> s.target == 0)
    requires t.Call? || t.WriteArg? || t.WriteTarget?
    ensures Inv(After(s, t))
  {
    var r := After(s, t);
    if t.WriteArg? {
      var i := s.caller.i;
      assert r.args[..i + 1] == s.args[..i] + [Last(s).args[i]];
      assert Last(s).args[..i + 1] == Last(s).args[..i] + [Last(s).args[i]];
      if i == 3 { assert r.args == r.args[..4]; assert Last(s).args == Last(s).args[..4]; }
    }
  }

  lemma WaitKeepsInv(s: State, t: Step)
    requires Inv(s) && Enabled(s, t) && (t.SeeFlag? || t.Wait? || t.SeeClear? || t.ReadRetval?)
    ensures Inv(After(s, t))
  {
  }

  lemma FetchKeepsInv(s: State, t: Step)
    requires Inv(s) && Enabled(s, t) && (t.Find? || t.Count? || t.ReadArg?)
    ensures Inv(After(s, t))
  {
    if t.ReadArg? {
      var n := |s.second.got|;
      assert s.args[..n + 1] == s.args[..n] + [s.args[n]];
    }
  }

  lemma ExecuteKeepsInv(s: State, t: Step)
    requires Inv(s) && Enabled(s, t) && (t.Run? || t.WriteRetval? || t.ClearTarget?)
    ensures Inv(After(s, t))
  {
  }

  lemma StepKeepsInv(s: State, t: Step)
    requires Inv(s) && Enabled(s, t) && (t.Call? ==> s.target == 0)
    ensures Inv(After(s, t))
  {
    hide Inv, After;
    match t
    case Call(_) => CallKeepsInv(s, t);
    case WriteArg => CallKeepsInv(s, t);
    case WriteTarget => CallKeepsInv(s, t);
    case SeeFlag => WaitKeepsInv(s, t);
    case Wait => WaitKeepsInv(s, t);
    case SeeClear => WaitKeepsInv(s, t);
    case ReadRetval => WaitKeepsInv(s, t);
    case Find => FetchKeepsInv(s, t);
    case Count => FetchKeepsInv(s, t);
    case ReadArg => FetchKeepsInv(s, t);
    case Run(_) => ExecuteKeepsInv(s, t);
    case WriteRetval => ExecuteKeepsInv(s, t);
    case ClearTarget => ExecuteKeepsInv(s, t);
  }

  lemma {:induction false} GuardedRun(s: State, steps: seq<Step>)
    requires Inv(s) && RunOk(s, steps) && Guarded(s, steps)
    ensures Inv(Final(s, steps))
    decreases |steps|
  {
    hide RanAsAsked, WaitsReturn, Quiet, Busy, Posted;
    if steps != [] {
      StepKeepsInv(s, steps[0]);
      GuardedRun(After(s, steps[0]), steps[1..]);
    }
  }

  /** Each smp_call4 is followed by smp_wait before the next. */
  ghost predicate Alternating(s: State, steps: seq<Step>)
    requires Sane(s) && RunOk(s, steps)
    decreases |steps|
  {
    steps == [] ||
    (&& (steps[0].Call? ==> HasWaited(s))
     && (StaysSane(s, steps[0]); Alternating(After(s, steps[0]), steps[1..])))
  }

  /** Waiting before the next call is enough to find the target clear. */
  lemma {:induction false} AlternatingIsGuarded(s: State, steps: seq<Step>)
    requires Inv(s) && RunOk(s, steps) && Alternating(s, steps)
    ensures Guarded(s, steps)
    decreases |steps|
  {
    if steps != [] {
      assert steps[0].Call? ==> s.target == 0;
      StepKeepsInv(s, steps[0]);
      AlternatingIsGuarded(After(s, steps[0]), steps[1..]);
    }
  }

  /** In every interleaving where the calls are each waited for, the functions run once each, in the order of the
      calls and with their arguments; at most the last one is still to run; and every wait returns the value of the
      call before it.  When the caller has waited, all have run. */
  lemma ExactlyOnce(s: State, steps: seq<Step>)
    requires Initial(s) && RunOk(s, steps) && Alternating(s, steps)
    ensures var r := Final(s, steps);
            && RanAsAsked(r) && WaitsReturn(r)
            && (HasWaited(r) ==> |r.ran| == |r.asked|)
  {
    AlternatingIsGuarded(s, steps);
    GuardedRun(s, steps);
  }

  /** The call in progress can no longer reach the secondary: its target will be cleared before it is read. */
  ghost predicate LostCall(s: State, n: nat) {
    && Sane(s) && s.caller.Spin? && s.flag == s.caller.before && |s.asked| == n > 0
    && match s.second
       case Fetch(_, _) => |s.ran| + 2 == n
       case Store(_) => |s.ran| + 1 == n
       case Clear => |s.ran| + 1 == n
       case Poll => s.target == 0 && |s.ran| + 1 == n
       case Found(_) => false
  }

  lemma {:induction false} LostForever(s: State, steps: seq<Step>, n: nat)
    requires LostCall(s, n) && RunOk(s, steps)
    ensures LostCall(Final(s, steps), n)
    decreases |steps|
  {
    if steps != [] {
      assert LostCall(After(s, steps[0]), n);
      LostForever(After(s, steps[0]), steps[1..], n);
    }
  }

  /** The rest of smp_call4 up to its busy-wait, from argument i on. */
  function Puts(i: nat): seq<Step>
    decreases 4 - i
  {
    if i >= 4 then [WriteTarget] else [WriteArg] + Puts(i + 1)
  }

  /** The caller gets through to its busy-wait before the secondary moves. */
  function Rush(r: Request): seq<Step> { [Call(r)] + Puts(0) }

  /** The secondary is past reading the target, and the caller is about to overwrite it. */
  ghost predicate Doomed(s: State, n: nat) {
    && Sane(s) && |s.asked| == n > 0
    && match s.second
       case Fetch(_, _) => |s.ran| + 2 == n
       case Store(_) => |s.ran| + 1 == n
       case Clear => |s.ran| + 1 == n
       case _ => false
  }

  lemma RunCons(s: State, t: Step, rest: seq<Step>)
    requires Sane(s) && Enabled(s, t) && Sane(After(s, t)) && RunOk(After(s, t), rest)
    ensures RunOk(s, [t] + rest) && Final(s, [t] + rest) == Final(After(s, t), rest)
  {
    assert ([t] + rest)[1..] == rest;
  }

  lemma {:induction false} PutsLose(s: State, i: nat, n: nat)
    requires Doomed(s, n) && i <= 4
    requires if i == 4 then s.caller == PutTarget(s.flag) else s.caller == PutArg(i, s.flag)
    ensures RunOk(s, Puts(i)) && LostCall(Final(s, Puts(i)), n)
    decreases 4 - i
  {
    if i == 4 {
      RunCons(s, WriteTarget, []);
    } else {
      PutsLose(After(s, WriteArg), i + 1, n);
      RunCons(s, WriteArg, Puts(i + 1));
    }
  }

  lemma RushLoses(s: State, r: Request)
    requires Inv(s) && s.caller.Idle? && |r.args| == 4 && s.target != 0
    ensures RunOk(s, Rush(r)) && LostCall(Final(s, Rush(r)), |s.asked| + 1)
  {
    PutsLose(After(s, Call(r)), 0, |s.asked| + 1);
    RunCons(s, Call(r), Puts(0));
  }

  /** However the run goes on from s, call n does not return and its function does not run. */
  ghost predicate LosesAlways(s: State, n: nat) {
    Sane(s) && forall more :: RunOk(s, more) ==> LostCall(Final(s, more), n)
  }

  lemma {:induction false} PutsPost(s: State, i: nat)
    requires Inv(s) && i <= 4 && s.second.Poll?
    requires if i == 4 then s.caller == PutTarget(s.flag) else s.caller == PutArg(i, s.flag)
    ensures RunOk(s, Puts(i))
    ensures var r := Final(s, Puts(i));
            && Inv(r) && r.caller == Spin(s.flag) && r.flag == s.flag && r.second.Poll?
            && r.target == Last(s).func && r.asked == s.asked
    decreases 4 - i
  {
    assert Sane(s);
    hide Inv;
    var t := if i == 4 then WriteTarget else WriteArg;
    StepKeepsInv(s, t);
    if i == 4 {
      RunCons(s, t, []);
    } else {
      PutsPost(After(s, t), i + 1);
      RunCons(s, t, Puts(i + 1));
    }
  }

  /** No run from s comes to a state where call n is lost. */
  ghost predicate NeverLost(s: State, n: nat) {
    Sane(s) && forall steps :: RunOk(s, steps) ==> !LostCall(Final(s, steps), n)
  }

  /** A call is never lost while the invariant holds for it, and not counted among the lost ones once it is followed by
      another. */
  lemma {:induction false} StaysFound(s: State, steps: seq<Step>, n: nat)
    requires Sane(s) && RunOk(s, steps)
    requires |s.asked| > n || (Inv(s) && |s.asked| == n > 0 && Last(s).func != 0)
    ensures !LostCall(Final(s, steps), n)
    decreases |steps|
  {
    if steps != [] {
      if !steps[0].Call? && |s.asked| == n { StepKeepsInv(s, steps[0]); }
      hide Inv;
      StaysFound(After(s, steps[0]), steps[1..], n);
    }
  }

  /** A null function is stored like any other, and nobody notices. */
  lemma NullLoses(s: State, r: Request)
    requires Inv(s) && s.caller.Idle? && |r.args| == 4 && s.target == 0 && r.func == 0
    ensures RunOk(s, Rush(r)) && LostCall(Final(s, Rush(r)), |s.asked| + 1)
  {
    CallKeepsInv(s, Call(r));
    var a := After(s, Call(r));
    PutsPost(a, 0);
    RunCons(s, Call(r), Puts(0));
  }

  lemma LosesOn(s: State, n: nat)
    requires LostCall(s, n)
    ensures LosesAlways(s, n)
  {
    assert Sane(s);
    forall more | RunOk(s, more) ensures LostCall(Final(s, more), n) {
      LostForever(s, more, n);
    }
  }

  /** A call made when the caller is free gets lost in no interleaving exactly if the target is clear at its start
      and the function is not null.  Otherwise an interleaving leaves the caller spinning forever with its function
      never run. */
  lemma SafeToCall(s: State, r: Request)
    requires Inv(s) && s.caller.Idle? && |r.args| == 4
    ensures NeverLost(After(s, Call(r)), |s.asked| + 1) <==> s.target == 0 && r.func != 0
    ensures s.target == 0 ==> Inv(After(s, Call(r)))
    ensures s.target != 0 || r.func == 0 ==> RunOk(s, Rush(r)) && LosesAlways(Final(s, Rush(r)), |s.asked| + 1)
  {
    var a, n := After(s, Call(r)), |s.asked| + 1;
    StaysSane(s, Call(r));
    if s.target == 0 { CallKeepsInv(s, Call(r)); }
    if s.target == 0 && r.func != 0 {
      forall steps | RunOk(a, steps) ensures !LostCall(Final(a, steps), n) {
        StaysFound(a, steps, n);
      }
    } else {
      if s.target != 0 { RushLoses(s, r); } else { NullLoses(s, r); }
      LosesOn(Final(s, Rush(r)), n);
      RushTail(s, r);
      hide LostCall, Inv;
      assert RunOk(a, Puts(0)) && LostCall(Final(a, Puts(0)), n);
    }
  }

  lemma RushTail(s: State, r: Request)
    requires Sane(s) && RunOk(s, Rush(r))
    ensures Enabled(s, Call(r)) && Sane(After(s, Call(r))) && RunOk(After(s, Call(r)), Puts(0))
    ensures Final(s, Rush(r)) == Final(After(s, Call(r)), Puts(0))
  {
    hide Enabled, After, Puts;
    StaysSane(s, Call(r));
    assert Rush(r)[0] == Call(r) && Rush(r)[1..] == Puts(0);
  }

  lemma {:induction false} RunAppend(s: State, first: seq<Step>, rest: seq<Step>)
    requires Sane(s) && RunOk(s, first) && RunOk(Final(s, first), rest)
    ensures RunOk(s, first + rest) && Final(s, first + rest) == Final(Final(s, first), rest)
    decreases |first|
  {
    if first == [] {
      assert first + rest == rest;
    } else {
      StaysSane(s, first[0]);
      RunAppend(After(s, first[0]), first[1..], rest);
      assert first + rest == [first[0]] + (first[1..] + rest);
      RunCons(s, first[0], first[1..] + rest);
    }
  }

  /** A whole smp_call4 that returns as soon as the secondary has counted it. */
  function Brief(r: Request): seq<Step> { Rush(r) + [Find, Count, SeeFlag] }

  lemma BriefReturns(s: State)
    requires Inv(s) && s.caller == Spin(s.flag) && s.second.Poll? && s.target != 0
    ensures RunOk(s, [Find, Count, SeeFlag])
    ensures var r := Final(s, [Find, Count, SeeFlag]);
            Inv(r) && r.caller.Idle? && r.target == s.target && r.asked == s.asked
  {
    assert Sane(s);
    hide Inv;
    var a := After(s, Find);
    StepKeepsInv(s, Find);
    var b := After(a, Count);
    StepKeepsInv(a, Count);
    var c := After(b, SeeFlag);
    StepKeepsInv(b, SeeFlag);
    RunCons(b, SeeFlag, []);
    RunCons(a, Count, [SeeFlag]);
    RunCons(s, Find, [Count, SeeFlag]);
    assert [Find] + [Count, SeeFlag] == [Find, Count, SeeFlag] && [Count] + [SeeFlag] == [Count, SeeFlag];
  }

  lemma BriefLeavesTarget(s: State, r: Request)
    requires Inv(s) && s.caller.Idle? && s.second.Poll? && s.target == 0 && |r.args| == 4 && r.func != 0
    ensures RunOk(s, Brief(r))
    ensures var f := Final(s, Brief(r)); Inv(f) && f.caller.Idle? && f.target == r.func && |f.asked| == |s.asked| + 1
  {
    assert Sane(s);
    hide Inv, Puts;
    StepKeepsInv(s, Call(r));
    var a := After(s, Call(r));
    PutsPost(a, 0);
    RunCons(s, Call(r), Puts(0));
    BriefReturns(Final(a, Puts(0)));
    RunAppend(s, Rush(r), [Find, Count, SeeFlag]);
  }

  /** Without a wait in between the second of two calls can be lost, from every initial state and for all functions. */
  lemma SecondCallLost(s: State, r1: Request, r2: Request)
    requires Initial(s) && |r1.args| == |r2.args| == 4 && r1.func != 0
    ensures RunOk(s, Brief(r1) + Rush(r2)) && LosesAlways(Final(s, Brief(r1) + Rush(r2)), 2)
  {
    assert Inv(s);
    hide Inv, LosesAlways;
    BriefLeavesTarget(s, r1);
    var f := Final(s, Brief(r1));
    SafeToCall(f, r2);
    RunAppend(s, Brief(r1), Rush(r2));
  }

  /** smp_call4 of a null function never returns: both parties wait for the other. */
  lemma NullCallHangs(s: State, t: Step)
    requires Inv(s) && s.caller.Spin? && s.flag == s.caller.before && Last(s).func == 0
    ensures !Enabled(s, t)
  {
  }

  /** How many steps are left until both parties are at rest. */
  ghost function Work(s: State): nat
    requires Sane(s)
  {
    (match s.caller
     case Idle => 0
     case PutArg(i, _) => (4 - i) + 11
     case PutTarget(_) => 11
     case Spin(_) => 1
     case Waiting => 2
     case Cleared => 1) +
    (match s.second
     case Poll => if s.target == 0 then 0 else 9
     case Found(_) => 8
     case Fetch(_, got) => 7 - |got|
     case Store(_) => 2
     case Clear => 1)
  }

  /** No call and no wait of a non-null function hangs: the steps left run out, and until the caller is free again
      one of them can be taken. */
  lemma EveryStepIsWork(s: State, t: Step)
    requires Inv(s) && Enabled(s, t) && !t.Call? && !t.Wait?
    ensures Sane(After(s, t)) && Work(After(s, t)) == Work(s) - if t.WriteTarget? && Last(s).func == 0 then 10 else 1
  {
  }

  ghost function Choose(s: State): Step {
    if Enabled(s, WriteArg) then WriteArg
    else if Enabled(s, WriteTarget) then WriteTarget
    else if Enabled(s, SeeFlag) then SeeFlag
    else if Enabled(s, SeeClear) then SeeClear
    else if Enabled(s, ReadRetval) then ReadRetval
    else if Enabled(s, Find) then Find
    else if Enabled(s, Count) then Count
    else if Enabled(s, ReadArg) then ReadArg
    else if Enabled(s, WriteRetval) then WriteRetval
    else if Enabled(s, ClearTarget) then ClearTarget
    else Run(0)
  }

  lemma NoDeadlock(s: State)
    requires Inv(s) && !s.caller.Idle? && !(s.caller.Spin? && s.flag == s.caller.before && Last(s).func == 0)
    ensures Enabled(s, Choose(s)) && !Choose(s).Call? && !Choose(s).Wait?
  {
  }
}
