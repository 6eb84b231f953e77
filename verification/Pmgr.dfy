/** Power domains and their parents (src/pmgr.c). */
module Pmgr {
  /** A power domain: its id, whether it is virtual (without a register of its own), whether its register address can
      be found, and its two parent ids, where 0 stands for none. */
  datatype Device = Device(id: nat, virtual: bool, hasAddr: bool, parents: (nat, nat))

  /** Device d is the one found under the id: the first that carries it. */
  ghost predicate Named(ds: seq<Device>, id: nat, d: nat) {
    d < |ds| && ds[d].id == id && forall e: nat :: e < d ==> ds[e].id != id
  }

  ghost predicate Missing(ds: seq<Device>, id: nat) {
    forall d: nat :: d < |ds| ==> ds[d].id != id
  }

  /** pmgr_adt_get_parents. */
  function ParentId(dev: Device, i: nat): nat { if i == 0 then dev.parents.0 else dev.parents.1 }

  ghost predicate Parent(ds: seq<Device>, d: nat, p: nat) {
    d < |ds| && exists i: nat :: i < 2 && ParentId(ds[d], i) != 0 && Named(ds, ParentId(ds[d], i), p)
  }

  /** The parents of a device are what its two ids name. */
  lemma ParentIs(ds: seq<Device>, d: nat, p: nat)
    ensures Parent(ds, d, p) <==>
            && d < |ds|
            && (|| (ds[d].parents.0 != 0 && Named(ds, ds[d].parents.0, p))
                || (ds[d].parents.1 != 0 && Named(ds, ds[d].parents.1, p)))
  {
    if d < |ds| {
      assert ParentId(ds[d], 0) == ds[d].parents.0 && ParentId(ds[d], 1) == ds[d].parents.1;
    }
  }

  /** The id is none, or it names a device that is on or has no register. */
  ghost predicate IdIsOn(ds: seq<Device>, on: set<nat>, id: nat) {
    id == 0 || exists p: nat :: Named(ds, id, p) && (ds[p].virtual || p in on)
  }

  /** There is a chain of n parents from d up to a. */
  ghost predicate Chain(ds: seq<Device>, d: nat, a: nat, n: nat)
    decreases n
  {
    if n == 0 then d == a else exists p: nat :: Parent(ds, d, p) && Chain(ds, p, a, n - 1)
  }

  ghost predicate Ancestor(ds: seq<Device>, d: nat, a: nat) {
    exists n: nat :: n > 0 && Chain(ds, d, a, n)
  }

  lemma ParentIsAncestor(ds: seq<Device>, d: nat, p: nat)
    requires Parent(ds, d, p)
    ensures Ancestor(ds, d, p)
  {
    assert Chain(ds, p, p, 0);
    assert Chain(ds, d, p, 1);
  }

  lemma AncestorOfParent(ds: seq<Device>, d: nat, p: nat, a: nat)
    requires Parent(ds, d, p) && Ancestor(ds, p, a)
    ensures Ancestor(ds, d, a)
  {
    var n: nat :| n > 0 && Chain(ds, p, a, n);
    assert Chain(ds, d, a, n + 1);
  }

  lemma FirstStep(ds: seq<Device>, d: nat, a: nat) returns (p: nat)
    requires Ancestor(ds, d, a)
    ensures Parent(ds, d, p) && (p == a || Ancestor(ds, p, a))
  {
    var n: nat :| n > 0 && Chain(ds, d, a, n);
    p :| Parent(ds, d, p) && Chain(ds, p, a, n - 1);
    if n > 1 { assert n - 1 > 0; }
  }

  lemma {:induction false} ChainInside(ds: seq<Device>, d: nat, a: nat, n: nat)
    requires Chain(ds, d, a, n) && n > 0
    ensures a < |ds|
    decreases n
  {
    var p: nat :| Parent(ds, d, p) && Chain(ds, p, a, n - 1);
    if n > 1 { ChainInside(ds, p, a, n - 1); }
  }

  ghost predicate Acyclic(ds: seq<Device>) {
    forall d: nat :: d < |ds| ==> !Ancestor(ds, d, d)
  }

  ghost function Ancestors(ds: seq<Device>, d: nat): set<nat> {
    set a: nat | a < |ds| && Ancestor(ds, d, a)
  }

  /** Without cycles a parent has fewer ancestors than its child, so following parents comes to an end. */
  lemma ParentHasFewer(ds: seq<Device>, d: nat, p: nat)
    requires Acyclic(ds) && Parent(ds, d, p)
    ensures |Ancestors(ds, p)| < |Ancestors(ds, d)|
  {
    ParentIsAncestor(ds, d, p);
    forall a | a in Ancestors(ds, p) ensures a in Ancestors(ds, d) {
      AncestorOfParent(ds, d, p, a);
    }
    assert p in Ancestors(ds, d) && p !in Ancestors(ds, p);
    var extra := Ancestors(ds, d) - Ancestors(ds, p);
    assert p in extra;
    assert Ancestors(ds, d) == Ancestors(ds, p) + extra;
  }

  /** A powered device has all its ancestors powered, those without a register aside. */
  ghost predicate Closed(ds: seq<Device>, on: set<nat>) {
    forall d, a: nat :: d in on && Ancestor(ds, d, a) && a < |ds| && !ds[a].virtual ==> a in on
  }

  /** The device and its ancestors are powered, those without a register aside. */
  ghost predicate Powered(ds: seq<Device>, on: set<nat>, d: nat) {
    (d < |ds| && !ds[d].virtual ==> d in on) && AncestorsOn(ds, on, d)
  }

  /** The device can be set: its register has an address or it needs none, and its parent ids exist. */
  ghost predicate Usable(ds: seq<Device>, d: nat) {
    && d < |ds| && (ds[d].virtual || ds[d].hasAddr)
    && forall i: nat :: i < 2 && ParentId(ds[d], i) != 0 ==> !Missing(ds, ParentId(ds[d], i))
  }

  ghost predicate Resolvable(ds: seq<Device>, id: nat) {
    && id != 0 && !Missing(ds, id) && Usable(ds, Index(ds, id))
    && forall a: nat :: Ancestor(ds, Index(ds, id), a) ==> Usable(ds, a)
  }

  ghost function Index(ds: seq<Device>, id: nat): nat {
    if exists d: nat :: Named(ds, id, d) then (var d: nat :| Named(ds, id, d); d) else 0
  }

  lemma IndexIs(ds: seq<Device>, id: nat, d: nat)
    requires Named(ds, id, d)
    ensures Index(ds, id) == d && !Missing(ds, id)
  {
    var e := Index(ds, id);
    assert Named(ds, id, e) && ds[d].id == ds[e].id;
  }

  /** One register write while powering up: nothing changes, or one device is added whose ancestors are on. */
  ghost predicate UpStep(ds: seq<Device>, on: set<nat>, on': set<nat>) {
    on' == on || exists d: nat :: on' == on + {d} && AncestorsOn(ds, on, d)
  }

  ghost predicate AncestorsOn(ds: seq<Device>, on: set<nat>, d: nat) {
    forall a: nat :: Ancestor(ds, d, a) && a < |ds| && !ds[a].virtual ==> a in on
  }

  /** From index `from` on, the recorded sets of powered devices follow each other by such steps. */
  ghost predicate UpRun(ds: seq<Device>, history: seq<set<nat>>, from: nat) {
    forall k :: from < k < |history| ==> UpStep(ds, history[k - 1], history[k])
  }

  /** A set of powered devices that contains the ancestors of its members does so after every write of the run. */
  lemma {:induction false} UpRunStaysClosed(ds: seq<Device>, history: seq<set<nat>>, from: nat, k: nat)
    requires from <= k < |history| && UpRun(ds, history, from) && Closed(ds, history[from])
    ensures Closed(ds, history[k])
    decreases k
  {
    if from < k {
      UpRunStaysClosed(ds, history, from, k - 1);
      assert UpStep(ds, history[k - 1], history[k]);
    }
  }

  lemma NamedInside(ds: seq<Device>, id: nat, d: nat)
    requires Named(ds, id, d)
    ensures d < |ds|
  {
  }

  lemma Unresolvable(ds: seq<Device>, id: nat)
    requires id == 0 || Missing(ds, id)
    ensures !Resolvable(ds, id)
  {
  }

  /** What the recursive call for parent i of device d rests on. */
  lemma ParentFacts(ds: seq<Device>, id: nat, d: nat, i: nat)
    requires Acyclic(ds) && Named(ds, id, d) && i < 2 && ParentId(ds[d], i) != 0
    ensures Resolvable(ds, id) ==> Resolvable(ds, ParentId(ds[d], i))
    ensures !Missing(ds, ParentId(ds[d], i)) ==>
              && Named(ds, ParentId(ds[d], i), Index(ds, ParentId(ds[d], i)))
              && Parent(ds, d, Index(ds, ParentId(ds[d], i)))
              && |Ancestors(ds, Index(ds, ParentId(ds[d], i)))| < |Ancestors(ds, d)|
    ensures forall x :: Named(ds, ParentId(ds[d], i), x) ==> Ancestor(ds, d, x)
    ensures !Missing(ds, ParentId(ds[d], i)) ==>
              forall x: nat :: Ancestor(ds, Index(ds, ParentId(ds[d], i)), x) ==> Ancestor(ds, d, x)
  {
    var up := ParentId(ds[d], i);
    IndexIs(ds, id, d);
    if !Missing(ds, up) {
      SomeNamed(ds, up);
      var p := Index(ds, up);
      ParentHasFewer(ds, d, p);
      ParentIsAncestor(ds, d, p);
      forall x: nat | Ancestor(ds, p, x) ensures Ancestor(ds, d, x) {
        AncestorOfParent(ds, d, p, x);
      }
      forall x: nat | Named(ds, up, x) ensures Ancestor(ds, d, x) {
        IndexIs(ds, up, x);
      }
    }
  }

  /** An id that some device carries has a first device that carries it. */
  lemma {:induction false} FirstNamed(ds: seq<Device>, id: nat, d: nat)
    requires d < |ds| && ds[d].id == id
    ensures exists e: nat :: Named(ds, id, e)
    decreases d
  {
    if e: nat :| e < d && ds[e].id == id {
      FirstNamed(ds, id, e);
    } else {
      assert Named(ds, id, d);
    }
  }

  lemma SomeNamed(ds: seq<Device>, id: nat)
    requires !Missing(ds, id)
    ensures Named(ds, id, Index(ds, id))
  {
    var d: nat :| d < |ds| && ds[d].id == id;
    FirstNamed(ds, id, d);
  }

  lemma PoweredMore(ds: seq<Device>, d: nat, on: set<nat>, on': set<nat>)
    requires on <= on' && Powered(ds, on, d)
    ensures Powered(ds, on', d)
  {
  }

  /** When all parents are powered, so are all ancestors. */
  lemma AllParents(ds: seq<Device>, id: nat, d: nat, on: set<nat>)
    requires id != 0 && Named(ds, id, d)
    requires forall j: nat :: j < 2 && ParentId(ds[d], j) != 0 ==>
               Resolvable(ds, ParentId(ds[d], j)) && Powered(ds, on, Index(ds, ParentId(ds[d], j)))
    ensures AncestorsOn(ds, on, d)
    ensures Resolvable(ds, id) <==> ds[d].virtual || ds[d].hasAddr
  {
    hide Ancestor;
    IndexIs(ds, id, d);
    forall a: nat | Ancestor(ds, d, a) ensures Usable(ds, a) && (a < |ds| && !ds[a].virtual ==> a in on) {
      var p := FirstStep(ds, d, a);
      var j: nat :| j < 2 && ParentId(ds[d], j) != 0 && Named(ds, ParentId(ds[d], j), p);
      IndexIs(ds, ParentId(ds[d], j), p);
    }
  }

  lemma ParentsOn(ds: seq<Device>, on: set<nat>, id: nat, d: nat)
    requires Named(ds, id, d) && Resolvable(ds, id) && Powered(ds, on, d)
    ensures IdIsOn(ds, on, id) && IdIsOn(ds, on, ds[d].parents.0) && IdIsOn(ds, on, ds[d].parents.1)
    ensures forall e: nat :: Named(ds, id, e) ==> e == d
  {
    hide Ancestor;
    IndexIs(ds, id, d);
    forall e: nat | Named(ds, id, e) ensures e == d { IndexIs(ds, id, e); }
    ParentOn(ds, on, d, 0);
    ParentOn(ds, on, d, 1);
  }

  lemma ParentOn(ds: seq<Device>, on: set<nat>, d: nat, i: nat)
    requires i < 2 && Usable(ds, d) && AncestorsOn(ds, on, d)
    ensures IdIsOn(ds, on, ParentId(ds[d], i))
  {
    var up := ParentId(ds[d], i);
    if up != 0 {
      SomeNamed(ds, up);
      ParentIsAncestor(ds, d, Index(ds, up));
    }
  }

  lemma UpRunJoin(ds: seq<Device>, h: seq<set<nat>>, h': seq<set<nat>>, from: nat)
    requires from < |h| && h <= h' && UpRun(ds, h, from) && UpRun(ds, h', |h| - 1)
    ensures UpRun(ds, h', from)
  {
    forall k | from < k < |h'| ensures UpStep(ds, h'[k - 1], h'[k]) {
      if k < |h| { assert UpStep(ds, h[k - 1], h[k]); }
    }
  }

  lemma UpWrite(ds: seq<Device>, h: seq<set<nat>>, h': seq<set<nat>>, from: nat, d: nat, on: set<nat>)
    requires from < |h| && UpRun(ds, h, from) && AncestorsOn(ds, h[|h| - 1], d)
    requires h' == h || (h' == h + [on] && (on == h[|h| - 1] || on == h[|h| - 1] + {d}))
    ensures UpRun(ds, h', from)
  {
    forall k | from < k < |h'| ensures UpStep(ds, h'[k - 1], h'[k]) {
      if k < |h| { assert UpStep(ds, h[k - 1], h[k]); }
    }
  }

  lemma AncestorsStayOn(ds: seq<Device>, d: nat, on: set<nat>, on': set<nat>)
    requires on <= on' && AncestorsOn(ds, on, d)
    ensures AncestorsOn(ds, on', d)
  {
  }

  class Domains {
    const devices: seq<Device>
    // The devices whose register says they are powered.
    var on: set<nat>
    // The powered devices after every register write, and the number of writes that timed out.
    ghost var history: seq<set<nat>>
    ghost var timeouts: nat

    constructor (devices: seq<Device>, on: set<nat>)
      requires Acyclic(devices)
      ensures Valid() && this.devices == devices && this.on == on && history == [on] && timeouts == 0
    {
      this.devices, this.on := devices, on;
      history, timeouts := [on], 0;
    }

    ghost predicate Valid()
      reads this
    {
      Acyclic(devices) && history != [] && history[|history| - 1] == on
    }

    /** pmgr_find_device. */
    method FindDevice(id: nat) returns (found: bool, d: nat)
      ensures found ==> Named(devices, id, d)
      ensures !found ==> Missing(devices, id)
    {
      d := 0;
      while d < |devices|
        invariant d <= |devices| && forall e: nat :: e < d ==> devices[e].id != id
      {
        if devices[d].id == id { return true, d; }
        d := d + 1;
      }
      found := false;
    }

    /** pmgr_set_mode, with pmgr_device_get_addr before it: a missing address fails without a write, and a write that
        times out may or may not have taken effect. */
    method SetMode(d: nat, mode: nat) returns (ok: bool)
      requires Valid() && d < |devices|
      modifies this
      ensures Valid() && (ok ==> devices[d].hasAddr)
      ensures var asked := if mode != 0 then old(on) + {d} else old(on) - {d};
              on == asked || (!ok && on == old(on))
      ensures timeouts == old(timeouts) + if ok || !devices[d].hasAddr then 0 else 1
      ensures history == old(history) || history == old(history) + [on]
      ensures !devices[d].hasAddr ==> on == old(on)
    {
      if !devices[d].hasAddr { return false; }
      ok := *;
      var inTime: bool := *;
      if ok || inTime { on := if mode != 0 then on + {d} else on - {d}; }
      history := history + [on];
      if !ok { timeouts := timeouts + 1; }
    }

    /** pmgr_set_mode_recursive with recursion and a mode other than 0, as pmgr_power_enable calls it. */
    method PowerUp(id: nat, mode: nat) returns (ret: int)
      requires Valid() && mode != 0
      modifies this
      ensures Valid() && old(history) <= history && UpRun(devices, history, |old(history)| - 1)
      ensures old(on) <= on && old(timeouts) <= timeouts
      ensures forall x :: x in on && x !in old(on) ==>
                Named(devices, id, x) || (!Missing(devices, id) && Ancestor(devices, Index(devices, id), x))
      ensures ret == 0 ==> Resolvable(devices, id) && Powered(devices, on, Index(devices, id))
      ensures ret == 0 ==> id != 0 && IdIsOn(devices, on, id)
      ensures ret == 0 ==> forall d: nat :: Named(devices, id, d) ==>
                IdIsOn(devices, on, devices[d].parents.0) && IdIsOn(devices, on, devices[d].parents.1)
      ensures ret != 0 && timeouts == old(timeouts) ==> !Resolvable(devices, id)
      ensures ret == 0 || ret == -1
      decreases if Missing(devices, id) then 0 else |Ancestors(devices, Index(devices, id))| + 1
    {
      hide Acyclic, Ancestor, AncestorsOn, Named, Missing, Resolvable, Index;
      if id == 0 { Unresolvable(devices, id); return -1; }
      var found, d := FindDevice(id);
      if !found { Unresolvable(devices, id); return -1; }
      IndexIs(devices, id, d);
      NamedInside(devices, id, d);
      var i := 0;
      while i < 2
        invariant i <= 2 && Valid() && old(history) <= history && UpRun(devices, history, |old(history)| - 1)
        invariant old(on) <= on && old(timeouts) <= timeouts
        invariant forall x :: x in on && x !in old(on) ==> Ancestor(devices, d, x)
        invariant forall j: nat :: j < i && ParentId(devices[d], j) != 0 ==>
                    Resolvable(devices, ParentId(devices[d], j)) &&
                    Powered(devices, on, Index(devices, ParentId(devices[d], j)))
      {
        var up := ParentId(devices[d], i);
        if up != 0 {
          ParentFacts(devices, id, d, i);
          ghost var on0, h0 := on, history;
          ret := PowerUp(up, mode);
          UpRunJoin(devices, h0, history, |old(history)| - 1);
          if ret != 0 { return; }
          forall j: nat | j < i && ParentId(devices[d], j) != 0
            ensures Powered(devices, on, Index(devices, ParentId(devices[d], j)))
          {
            PoweredMore(devices, Index(devices, ParentId(devices[d], j)), on0, on);
          }
        }
        i := i + 1;
      }
      ret := 0;
      AllParents(devices, id, d, on);
      if !devices[d].virtual {
        ghost var on0, h0 := on, history;
        var ok := SetMode(d, mode);
        UpWrite(devices, h0, history, |old(history)| - 1, d, on);
        if !ok { return -1; }
        AncestorsStayOn(devices, d, on0, on);
      }
      ParentsOn(devices, on, id, d);
    }

    /** pmgr_adt_devices_set_mode for power-up: every id in turn, going on after a failure. */
    method PowerUpAll(ids: seq<nat>, mode: nat) returns (ret: int)
      requires Valid() && mode != 0
      modifies this
      ensures Valid() && old(history) <= history && UpRun(devices, history, |old(history)| - 1)
      ensures old(on) <= on && old(timeouts) <= timeouts
      ensures ret == 0 ==> forall i :: 0 <= i < |ids| ==>
                Resolvable(devices, ids[i]) && Powered(devices, on, Index(devices, ids[i]))
      ensures ret != 0 && timeouts == old(timeouts) ==> exists i :: 0 <= i < |ids| && !Resolvable(devices, ids[i])
      ensures ret == 0 || ret == -1
    {
      hide Acyclic, Ancestor, Powered, Resolvable, Index;
      ret := 0;
      var i := 0;
      while i < |ids|
        invariant i <= |ids| && Valid() && old(history) <= history
        invariant UpRun(devices, history, |old(history)| - 1)
        invariant old(on) <= on && old(timeouts) <= timeouts
        invariant ret == 0 ==> forall j :: 0 <= j < i ==>
                    Resolvable(devices, ids[j]) && Powered(devices, on, Index(devices, ids[j]))
        invariant ret != 0 && timeouts == old(timeouts) ==> exists j :: 0 <= j < i && !Resolvable(devices, ids[j])
        invariant ret == 0 || ret == -1
      {
        ghost var on0, h0 := on, history;
        var r := PowerUp(ids[i], mode);
        UpRunJoin(devices, h0, history, |old(history)| - 1);
        if ret == 0 {
          forall j | 0 <= j < i ensures Powered(devices, on, Index(devices, ids[j])) {
            PoweredMore(devices, Index(devices, ids[j]), on0, on);
          }
        }
        if r != 0 { ret := -1; }
        i := i + 1;
      }
    }

    /** pmgr_set_mode_recursive without recursion and with mode 0, as pmgr_power_disable calls it. */
    method PowerDown(id: nat) returns (ret: int)
      requires Valid()
      modifies this
      ensures Valid() && on <= old(on) && old(timeouts) <= timeouts
      ensures forall x :: x in old(on) && x !in on ==> Named(devices, id, x)
      ensures ret == 0 ==> id != 0 && !Missing(devices, id)
      ensures ret == 0 ==>
                on == old(on) - if devices[Index(devices, id)].virtual then {} else {Index(devices, id)}
      ensures ret == 0 || ret == -1
      ensures ret != 0 && timeouts == old(timeouts) ==> on == old(on)
      ensures ret != 0 && timeouts == old(timeouts) && id != 0 && !Missing(devices, id) ==>
                !devices[Index(devices, id)].virtual && !devices[Index(devices, id)].hasAddr
    {
      if id == 0 { return -1; }
      var found, d := FindDevice(id);
      if !found { return -1; }
      IndexIs(devices, id, d);
      if !devices[d].virtual {
        var ok := SetMode(d, 0);
        if !ok { return -1; }
      }
      ret := 0;
    }
  }

  /** Powering a device down alone keeps the set closed exactly when nothing powered stands on the device. */
  lemma DownStaysClosed(ds: seq<Device>, on: set<nat>, d: nat)
    requires Closed(ds, on) && d < |ds| && !ds[d].virtual
    ensures Closed(ds, on - {d}) <==> forall c :: c in on && c != d ==> !Ancestor(ds, c, d)
  {
    if Closed(ds, on - {d}) {
      forall c | c in on && c != d ensures !Ancestor(ds, c, d) {
        assert c in on - {d};
      }
    }
  }
}
