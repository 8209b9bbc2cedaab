/** PCI bus discovery (pci_scan_raw and the functions below it in src/device/pci/pci.c):
    a depth-first walk over buses that follows bridges and marks the buses it has
    scanned.  Configuration space is read-only during discovery, so what the hardware
    answers is a fixed `Topology`. */
module PciScan {

  const BUSES := 256
  const DEVICES := 32
  const FUNCTIONS := 8

  datatype Fn = Fn(bus: nat, slot: nat, func: nat)

  /** What configuration space answers.  `secondary` is the secondary bus number of a
      PCI-to-PCI bridge and -1 for any other function; `multi` is bit 7 of the header type
      of function 0, which reads as set where there is no device. */
  datatype Topology = Topology(present: Fn -> bool, multi: (nat, nat) -> bool, secondary: Fn -> int)

  /** Secondary bus numbers are one byte. */
  ghost predicate Sane(t: Topology) {
    forall x: Fn :: t.secondary(x) < BUSES
  }

  /** The functions discovery looks at: function 0 of a slot if it is there, and the other
      functions of a multi-function device that are there. */
  predicate Visible(t: Topology, x: Fn) {
    && x.bus < BUSES && x.slot < DEVICES && x.func < FUNCTIONS
    && t.present(Fn(x.bus, x.slot, 0))
    && (x.func > 0 ==> t.multi(x.bus, x.slot) && t.present(x))
  }

  /** x is a bridge to bus b. */
  predicate LinksTo(t: Topology, x: Fn, b: nat) {
    Visible(t, x) && t.secondary(x) == b
  }

  /** Bus b is behind a bridge on bus a. */
  ghost predicate Linked(t: Topology, a: nat, b: nat) {
    b < BUSES && exists x: Fn :: x.bus == a && LinksTo(t, x, b)
  }

  /** The buses discovery starts from: bus 0, and bus f for every function f > 0 of the
      host bridge when it has several. */
  predicate IsStart(t: Topology, b: nat) {
    b == 0 || (b < FUNCTIONS && t.multi(0, 0) && t.present(Fn(0, 0, b)))
  }

  /** A chain of bridges from a start bus. */
  ghost predicate Path(t: Topology, p: seq<nat>) {
    && p != [] && IsStart(t, p[0])
    && forall k :: 0 <= k < |p| - 1 ==> Linked(t, p[k], p[k + 1])
  }

  ghost predicate Reachable(t: Topology, b: nat) {
    exists p :: Path(t, p) && p[|p| - 1] == b
  }

  lemma StartReachable(t: Topology, b: nat)
    requires IsStart(t, b)
    ensures Reachable(t, b)
  {
    assert Path(t, [b]);
  }

  lemma LinkReachable(t: Topology, a: nat, b: nat)
    requires Reachable(t, a) && Linked(t, a, b)
    ensures Reachable(t, b)
  {
    var p :| Path(t, p) && p[|p| - 1] == a;
    assert Path(t, p + [b]);
    assert (p + [b])[|p + [b]| - 1] == b;
  }

  /** A set of buses that contains the start buses and follows every bridge contains
      everything reachable. */
  lemma {:induction false} ClosedContains(t: Topology, s: set<nat>, p: seq<nat>)
    requires forall b :: IsStart(t, b) ==> b in s
    requires forall a, b :: a in s && Linked(t, a, b) ==> b in s
    requires Path(t, p)
    ensures p[|p| - 1] in s
    decreases |p|
  {
    if |p| > 1 {
      var q := p[..|p| - 1];
      assert Path(t, q);
      ClosedContains(t, s, q);
      assert Linked(t, p[|p| - 2], p[|p| - 1]);
    }
  }

  // ----- what a part of the walk does

  /** x is on a bus that the walk has newly marked. */
  ghost predicate New(t: Topology, before: set<nat>, after: set<nat>, x: Fn) {
    x.bus in after && x.bus !in before && Visible(t, x)
  }

  /** From the marks `before` and the inventory `listed`, the walk has gone to `after` and
      `now`: it has listed, once each, the functions `extra` and every visible function of
      the newly marked buses; it has followed the bridges among them; and it has marked
      only reachable buses. */
  ghost predicate Walked(t: Topology, before: set<nat>, listed: multiset<Fn>, extra: iset<Fn>,
                         after: set<nat>, now: multiset<Fn>) {
    && before <= after
    && (forall x: Fn :: now[x] == listed[x] + (if x in extra then 1 else 0) + (if New(t, before, after, x) then 1 else 0))
    && (forall x: Fn, b: nat :: (x in extra || New(t, before, after, x)) && LinksTo(t, x, b) ==> b in after)
    && (forall b :: b in after && b !in before ==> Reachable(t, b))
  }

  lemma WalkedThen(t: Topology, m0: set<nat>, d0: multiset<Fn>, e1: iset<Fn>, m1: set<nat>, d1: multiset<Fn>,
                   e2: iset<Fn>, m2: set<nat>, d2: multiset<Fn>, e: iset<Fn>)
    requires Walked(t, m0, d0, e1, m1, d1) && Walked(t, m1, d1, e2, m2, d2)
    requires e1 !! e2 && e == e1 + e2
    ensures Walked(t, m0, d0, e, m2, d2)
  {
    forall x: Fn
      ensures d2[x] == d0[x] + (if x in e then 1 else 0) + (if New(t, m0, m2, x) then 1 else 0)
    {
      assert d1[x] == d0[x] + (if x in e1 then 1 else 0) + (if New(t, m0, m1, x) then 1 else 0);
    }
  }

  /** Listing x and then walking to the bus behind it, if it is a bridge. */
  lemma ListedThen(t: Topology, m0: set<nat>, d0: multiset<Fn>, x: Fn, m1: set<nat>, d1: multiset<Fn>)
    requires Walked(t, m0, d0 + multiset{x}, iset{}, m1, d1)
    requires forall b: nat :: LinksTo(t, x, b) ==> b in m1
    ensures Walked(t, m0, d0, iset{x}, m1, d1)
  {
  }

  lemma WalkedNowhere(t: Topology, m: set<nat>, d: multiset<Fn>)
    ensures Walked(t, m, d, iset{}, m, d)
  {
  }

  /** The visible functions of one slot below function f. */
  ghost function SlotFns(t: Topology, bus: nat, slot: nat, f: nat): iset<Fn> {
    iset x: Fn | x.bus == bus && x.slot == slot && x.func < f && Visible(t, x)
  }

  /** The visible functions of one bus in the slots below k. */
  ghost function BusFns(t: Topology, bus: nat, k: nat): iset<Fn> {
    iset x: Fn | x.bus == bus && x.slot < k && Visible(t, x)
  }

  /** Which functions of a slot are visible, function by function. */
  lemma SlotSteps(t: Topology, bus: nat, slot: nat, f: nat)
    requires bus < BUSES && slot < DEVICES && 0 < f < FUNCTIONS
    ensures !t.present(Fn(bus, slot, 0)) ==> SlotFns(t, bus, slot, FUNCTIONS) == iset{}
    ensures t.present(Fn(bus, slot, 0)) ==>
              && SlotFns(t, bus, slot, 1) == iset{Fn(bus, slot, 0)}
              && (!t.multi(bus, slot) ==> SlotFns(t, bus, slot, FUNCTIONS) == iset{Fn(bus, slot, 0)})
              && (t.multi(bus, slot) ==>
                    SlotFns(t, bus, slot, f + 1) ==
                      if t.present(Fn(bus, slot, f)) then SlotFns(t, bus, slot, f) + iset{Fn(bus, slot, f)}
                      else SlotFns(t, bus, slot, f))
    ensures SlotFns(t, bus, slot, f) !! iset{Fn(bus, slot, f)}
  {
  }

  /** The functions of a bus, slot by slot. */
  lemma BusSteps(t: Topology, bus: nat, k: nat)
    ensures BusFns(t, bus, 0) == iset{}
    ensures BusFns(t, bus, k + 1) == BusFns(t, bus, k) + SlotFns(t, bus, k, FUNCTIONS)
    ensures BusFns(t, bus, k) !! SlotFns(t, bus, k, FUNCTIONS)
  {
  }

  /** Listing all functions of a bus just marked is marking it as a whole. */
  lemma BusDone(t: Topology, m0: set<nat>, bus: nat, d0: multiset<Fn>, m1: set<nat>, d1: multiset<Fn>)
    requires bus !in m0 && bus < BUSES && Reachable(t, bus)
    requires Walked(t, m0 + {bus}, d0, BusFns(t, bus, DEVICES), m1, d1)
    ensures Walked(t, m0, d0, iset{}, m1, d1) && bus in m1
  {
    forall x: Fn
      ensures New(t, m0, m1, x) <==> x in BusFns(t, bus, DEVICES) || New(t, m0 + {bus}, m1, x)
    {
    }
  }

  /** A walk that began with nothing marked and reached every start bus has marked exactly
      the reachable buses and listed each visible function on them exactly once. */
  lemma WalkComplete(t: Topology, after: set<nat>, now: multiset<Fn>)
    requires Walked(t, {}, multiset{}, iset{}, after, now) && forall b :: IsStart(t, b) ==> b in after
    requires forall b :: b in after ==> b < BUSES
    ensures forall b :: b in after <==> Reachable(t, b)
    ensures forall x: Fn :: now[x] == if Visible(t, x) && Reachable(t, x.bus) then 1 else 0
  {
    forall a, b | a in after && Linked(t, a, b)
      ensures b in after
    {
      var x: Fn :| x.bus == a && LinksTo(t, x, b);
      assert New(t, {}, after, x);
    }
    forall b | Reachable(t, b)
      ensures b in after
    {
      var p :| Path(t, p) && p[|p| - 1] == b;
      ClosedContains(t, after, p);
    }
    forall x: Fn
      ensures now[x] == if Visible(t, x) && Reachable(t, x.bus) then 1 else 0
    {
      assert New(t, {}, after, x) <==> Visible(t, x) && Reachable(t, x.bus);
    }
  }

  // ----- the walk

  /** The functions of v whose record could be allocated; the k-th allocation succeeds iff ok(k). */
  function Recorded(v: seq<Fn>, ok: nat -> bool): (r: seq<Fn>)
    ensures multiset(r) <= multiset(v)
    ensures (forall k: nat :: k < |v| ==> ok(k)) ==> r == v
  {
    if v == [] then []
    else
      var n := |v| - 1;
      assert v == v[..n] + [v[n]];
      Recorded(v[..n], ok) + if ok(n) then [v[n]] else []
  }

  class Scanner {
    const topo: Topology
    const allocates: nat -> bool  // answers of the allocator
    const scanned: array<bool>
    var devices: seq<Fn>          // inventory, in order of discovery
    var calls: nat
    ghost var visited: seq<Fn>

    constructor (topo: Topology, allocates: nat -> bool)
      ensures this.topo == topo && this.allocates == allocates && Valid() && fresh(scanned)
      ensures Marked() == {} && visited == []
    {
      this.topo, this.allocates := topo, allocates;
      scanned := new bool[BUSES](i => false);
      devices, calls, visited := [], 0, [];
    }

    ghost predicate Valid()
      reads this
    {
      scanned.Length == BUSES && calls == |visited| && devices == Recorded(visited, allocates)
    }

    /** pci_cache_add: without memory the function is left out of the inventory. */
    method CacheAdd(x: Fn)
      requires Valid()
      modifies this
      ensures Valid() && visited == old(visited) + [x]
    {
      visited := visited + [x];
      assert visited[..calls] == old(visited);
      if allocates(calls) {
        devices := devices + [x];
      }
      calls := calls + 1;
    }

    ghost function Marked(): (s: set<nat>)
      requires scanned.Length == BUSES
      reads scanned
      ensures forall b :: b in s <==> 0 <= b < BUSES && scanned[b]
    {
      set b: nat | b < BUSES && scanned[b]
    }

    ghost function Unmarked(): (s: set<nat>)
      requires scanned.Length == BUSES
      reads scanned
      ensures forall b :: b in s <==> 0 <= b < BUSES && !scanned[b]
    {
      set b: nat | b < BUSES && !scanned[b]
    }

    /** pci_scan_func_raw */
    method ScanFunction(x: Fn)
      requires Valid() && Sane(topo) && Visible(topo, x) && Reachable(topo, x.bus)
      modifies this, scanned
      ensures Walked(topo, old(Marked()), multiset(old(visited)), iset{x}, Marked(), multiset(visited))
      ensures Valid() && Unmarked() <= old(Unmarked())
      decreases Unmarked(), 1
    {
      hide Walked, Reachable, Recorded, SlotFns, BusFns;
      ghost var m0, d0 := Marked(), multiset(visited);
      CacheAdd(x);
      assert multiset(visited) == d0 + multiset{x};
      var b := topo.secondary(x);
      if b >= 0 {
        assert LinksTo(topo, x, b) && Linked(topo, x.bus, b);
        LinkReachable(topo, x.bus, b);
        ScanBus(b);
      } else {
        WalkedNowhere(topo, Marked(), multiset(visited));
      }
      ListedThen(topo, m0, d0, x, Marked(), multiset(visited));
    }

    /** pci_scan_slot_raw */
    method ScanSlot(bus: nat, slot: nat)
      requires Valid() && Sane(topo) && bus < BUSES && slot < DEVICES && Reachable(topo, bus)
      modifies this, scanned
      ensures Walked(topo, old(Marked()), multiset(old(visited)), SlotFns(topo, bus, slot, FUNCTIONS),
                     Marked(), multiset(visited))
      ensures Valid() && Unmarked() <= old(Unmarked())
      decreases Unmarked(), 2
    {
      hide Walked, Reachable, Recorded, SlotFns, BusFns;
      ghost var m0, d0 := Marked(), multiset(visited);
      WalkedNowhere(topo, m0, d0);
      SlotSteps(topo, bus, slot, 1);
      if !topo.present(Fn(bus, slot, 0)) {
        return;
      }
      ScanFunction(Fn(bus, slot, 0));
      if !topo.multi(bus, slot) {
        return;
      }
      var f := 1;
      while f < FUNCTIONS
        invariant 1 <= f <= FUNCTIONS
        invariant Walked(topo, m0, d0, SlotFns(topo, bus, slot, f), Marked(), multiset(visited))
        invariant Valid() && Unmarked() <= old(Unmarked())
      {
        var x := Fn(bus, slot, f);
        SlotSteps(topo, bus, slot, f);
        if topo.present(x) {
          ghost var m1, d1 := Marked(), multiset(visited);
          ScanFunction(x);
          WalkedThen(topo, m0, d0, SlotFns(topo, bus, slot, f), m1, d1, iset{x}, Marked(), multiset(visited),
                     SlotFns(topo, bus, slot, f + 1));
        }
        f := f + 1;
      }
    }

    /** pci_scan_bus_raw */
    method ScanBus(bus: int)
      requires Valid() && Sane(topo) && (0 <= bus < BUSES ==> Reachable(topo, bus))
      modifies this, scanned
      ensures Walked(topo, old(Marked()), multiset(old(visited)), iset{}, Marked(), multiset(visited))
      ensures 0 <= bus < BUSES ==> bus in Marked()
      ensures Valid() && Unmarked() <= old(Unmarked())
      decreases Unmarked(), 0
    {
      hide Walked, Reachable, Recorded, SlotFns, BusFns;
      ghost var m0, d0 := Marked(), multiset(visited);
      WalkedNowhere(topo, m0, d0);
      if bus < 0 || bus > 255 || scanned[bus] {
        return;
      }
      scanned[bus] := true;
      ghost var m := Marked();
      assert m == m0 + {bus};
      WalkedNowhere(topo, m, d0);
      var slot := 0;
      BusSteps(topo, bus, 0);
      while slot < DEVICES
        invariant 0 <= slot <= DEVICES
        invariant Walked(topo, m, d0, BusFns(topo, bus, slot), Marked(), multiset(visited))
        invariant Valid() && Unmarked() < old(Unmarked())
      {
        ghost var m1, d1 := Marked(), multiset(visited);
        ScanSlot(bus, slot);
        BusSteps(topo, bus, slot);
        WalkedThen(topo, m, d0, BusFns(topo, bus, slot), m1, d1, SlotFns(topo, bus, slot, FUNCTIONS),
                   Marked(), multiset(visited), BusFns(topo, bus, slot + 1));
        slot := slot + 1;
      }
      BusDone(topo, m0, bus, d0, Marked(), multiset(visited));
    }

    /** pci_scan_raw on a fresh scanner: any topology, also one with cycles of bridges. */
    method ScanAll()
      requires Valid() && Sane(topo) && Marked() == {} && visited == []
      modifies this, scanned
      ensures forall b :: b in Marked() <==> Reachable(topo, b)
      ensures forall x: Fn :: multiset(visited)[x] == if Visible(topo, x) && Reachable(topo, x.bus) then 1 else 0
      ensures devices == Recorded(visited, allocates)
    {
      hide Walked, Reachable, Recorded, Visible, Marked, Unmarked;
      assert multiset(visited) == multiset{};
      StartReachable(topo, 0);
      ScanBus(0);
      if topo.multi(0, 0) {
        var f := 1;
        while f < FUNCTIONS
          invariant Valid() && 1 <= f <= FUNCTIONS
          invariant Walked(topo, {}, multiset{}, iset{}, Marked(), multiset(visited))
          invariant forall b :: 0 <= b < f && IsStart(topo, b) ==> b in Marked()
        {
          if topo.present(Fn(0, 0, f)) {
            StartReachable(topo, f);
            ghost var m, d := Marked(), multiset(visited);
            ScanBus(f);
            WalkedThen(topo, {}, multiset{}, iset{}, m, d, iset{}, Marked(), multiset(visited), iset{});
            WalkedGrows(topo, m, d, Marked(), multiset(visited));
          }
          f := f + 1;
        }
      }
      WalkComplete(topo, Marked(), multiset(visited));
    }
  }

  lemma WalkedGrows(t: Topology, m: set<nat>, d: multiset<Fn>, m1: set<nat>, d1: multiset<Fn>)
    requires Walked(t, m, d, iset{}, m1, d1)
    ensures m <= m1
  {
  }
}
