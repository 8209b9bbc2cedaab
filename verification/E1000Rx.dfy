/** The receive ring of the Intel 8254x driver (src/driver/net/intel_nic_e1000.c).

    Three parties share 256 descriptors: the NIC fills the descriptors in
    [RDH, RDT), the interrupt handler takes filled descriptors in ring order and
    lends their buffers to the network stack, and the stack gives buffers back in
    any order.  RDT may only advance in ring order.

    `Sys` is one state of the whole system, `Apply` one atomic step of one party.
    The driver's loops are split into their iterations, so the NIC may act between
    any two of them.  `Nic` is the driver as imperative code over arrays; its
    methods are proved to perform only runs of this step machine. */
module E1000Rx {

  import Modular

  const RING := 256

  /** What the NIC stores for one received packet: the length it writes to the
      descriptor and the contents of the DMA buffer. */
  datatype Frame = Frame(length: nat, payload: int)

  /** Who holds `rx_lock`, and whether the reclaim loop is running. */
  datatype Lock = Free | Drain | DrainPump | ReclaimPump

  datatype Sys = Sys(
    done: seq<bool>,        // descriptor status bit DD
    buffers: seq<Frame>,    // descriptor length and buffer contents
    ready: seq<bool>,       // rx_reclaim_ready
    cur: nat,               // rx_cur
    head: nat,              // rx_reclaim_head
    rdt: nat,               // tail register
    rdh: nat,               // head register
    lock: Lock,
    held: set<nat>,         // descriptors lent to the network stack
    filled: seq<Frame>,     // history: frames the NIC has written
    taken: seq<Frame>,      // history: frames the drain has taken
    returned: seq<nat>)     // history: values written to RDT after start-up

  datatype Step =
    | Fill(frame: Frame)        // the NIC receives a packet
    | LockDrain                 // the interrupt handler enters the drain
    | Take(accept: bool)        // drain iteration up to the reclaim loop
    | UnlockDrain               // the drain finds no finished descriptor
    | Reclaim(cookie: nat)      // the stack returns a buffer
    | Pump                      // one iteration of the reclaim loop
    | PumpEnd                   // the reclaim loop exits

  function Slot(k: nat): (r: nat)
    ensures r < RING
  {
    k % RING
  }

  function Init(buffers: seq<Frame>): Sys
  {
    Sys(seq(RING, i => false), buffers, seq(RING, i => false), 0, 0, RING - 1, 0,
        Free, {}, [], [], [])
  }

  predicate Shape(s: Sys) {
    && |s.done| == |s.buffers| == |s.ready| == RING
    && s.cur < RING && s.head < RING && s.rdt < RING && s.rdh < RING
  }

  /** When a step can happen.  The hardware side is section 3.2.6 of the Intel
      PCI/PCI-X Family of Gigabit Ethernet Controllers Software Developer's Manual:
      with RDH == RDT the NIC owns nothing.  The stack returns only what it holds;
      a cookie outside the ring is ignored by the driver. */
  predicate Enabled(s: Sys, step: Step)
    requires Shape(s)
  {
    match step
    case Fill(_) => s.rdh != s.rdt
    case LockDrain => s.lock.Free?
    case Take(_) => s.lock.Drain? && s.done[s.cur]
    case UnlockDrain => s.lock.Drain? && !s.done[s.cur]
    case Reclaim(cookie) => s.lock.Free? && (cookie < RING ==> cookie in s.held)
    case Pump => (s.lock.DrainPump? || s.lock.ReclaimPump?) && s.ready[s.head]
    case PumpEnd => (s.lock.DrainPump? || s.lock.ReclaimPump?) && !s.ready[s.head]
  }

  function Apply(s: Sys, step: Step): (r: Sys)
    requires Shape(s) && Enabled(s, step)
    ensures Shape(r)
  {
    match step
    case Fill(frame) =>
      s.(done := s.done[s.rdh := true], buffers := s.buffers[s.rdh := frame],
         rdh := Slot(s.rdh + 1), filled := s.filled + [frame])
    case LockDrain =>
      s.(lock := Drain)
    case Take(accept) =>
      var frame := s.buffers[s.cur];
      var s1 := s.(done := s.done[s.cur := false], taken := s.taken + [frame]);
      if frame.length > 0 && accept then
        s1.(held := s.held + {s.cur}, cur := Slot(s.cur + 1))
      else
        s1.(ready := s.ready[s.cur := true], lock := DrainPump)
    case UnlockDrain =>
      s.(lock := Free)
    case Reclaim(cookie) =>
      if cookie >= RING then s
      else s.(ready := s.ready[cookie := true], held := s.held - {cookie}, lock := ReclaimPump)
    case Pump =>
      s.(ready := s.ready[s.head := false], done := s.done[s.head := false],
         rdt := s.head, head := Slot(s.head + 1), returned := s.returned + [s.head])
    case PumpEnd =>
      if s.lock.DrainPump? then s.(cur := Slot(s.cur + 1), lock := Drain)
      else s.(lock := Free)
  }

  /** `steps` leads from `s` to `t`, every step enabled when it is taken. */
  ghost predicate Runs(s: Sys, steps: seq<Step>, t: Sys)
    decreases |steps|
  {
    if steps == [] then s == t
    else Shape(s) && Enabled(s, steps[0]) && Runs(Apply(s, steps[0]), steps[1..], t)
  }

  lemma {:induction false} RunsExtend(s: Sys, steps: seq<Step>, t: Sys, step: Step)
    requires Runs(s, steps, t) && Shape(t) && Enabled(t, step)
    ensures Runs(s, steps + [step], Apply(t, step))
    decreases |steps|
  {
    if steps == [] {
      assert [step][1..] == [];
    } else {
      RunsExtend(Apply(s, steps[0]), steps[1..], t, step);
      assert (steps + [step])[1..] == steps[1..] + [step];
    }
  }

  // ----- the invariant, over absolute packet numbers

  /** Packets are numbered from 0.  R have been returned to the NIC, T taken, F
      filled; packet k uses descriptor k % 256.  [R, T) is with the driver or the
      stack, [T, F) is finished and waiting, [F, R + 255) belongs to the NIC. */
  ghost predicate Counters(s: Sys) {
    && |s.returned| <= |s.taken| <= |s.filled| <= |s.returned| + 255
    && s.head == Slot(|s.returned|)
    && s.rdt == Slot(|s.returned| + 255)
    && s.rdh == Slot(|s.filled|)
    && (s.lock.DrainPump? ==> |s.taken| > 0 && s.cur == Slot(|s.taken| - 1))
    && (!s.lock.DrainPump? ==> s.cur == Slot(|s.taken|))
  }

  /** The descriptor of packet k is in exactly the state that k calls for. */
  ghost predicate At(s: Sys, k: nat)
    requires Shape(s)
  {
    var i, T, F := Slot(k), |s.taken|, |s.filled|;
    && (if k < T then i in s.held <==> !s.ready[i] else i !in s.held && !s.ready[i])
    && (s.done[i] <==> T <= k < F)
    && (k < F && (k < T ==> i in s.held) ==> s.buffers[i] == s.filled[k])
  }

  ghost predicate Ownership(s: Sys)
    requires Shape(s)
  {
    && (forall i :: i in s.held ==> i < RING)
    && (forall k: nat :: |s.returned| <= k < |s.returned| + RING ==> At(s, k))
  }

  ghost predicate History(s: Sys)
    requires Shape(s)
  {
    && s.taken <= s.filled
    && (forall k: nat :: k < |s.returned| ==> s.returned[k] == Slot(k))
    && (!s.lock.DrainPump? && !s.lock.ReclaimPump? ==> !s.ready[s.head])
  }

  ghost predicate Inv(s: Sys) {
    Shape(s) && Counters(s) && Ownership(s) && History(s)
  }

  lemma SlotsDiffer(a: nat, b: nat)
    requires a < b < a + RING
    ensures Slot(a) != Slot(b)
  {
  }

  lemma SlotNext(k: nat)
    ensures Slot(Slot(k) + 1) == Slot(k + 1)
    ensures Slot(k + RING) == Slot(k)
  {
    Modular.AddInner(k, 1, RING);
    Modular.AddMultiple(k, 1, RING);
  }

  lemma SlotCovers(base: nat, i: nat) returns (k: nat)
    requires i < RING
    ensures base <= k < base + RING && Slot(k) == i
  {
    k := if i >= Slot(base) then base + i - Slot(base) else base + RING + i - Slot(base);
  }

  lemma InitInv(buffers: seq<Frame>)
    requires |buffers| == RING
    ensures Inv(Init(buffers))
  {
    var s := Init(buffers);
    forall k: nat | k < RING ensures At(s, k) {}
  }

  lemma FillKeeps(s: Sys, frame: Frame)
    requires Inv(s) && Enabled(s, Fill(frame))
    ensures Inv(Apply(s, Fill(frame)))
  {
    var t := Apply(s, Fill(frame));
    var R, F := |s.returned|, |s.filled|;
    assert F < R + 255;
    assert At(s, F);
    SlotNext(F);
    forall k: nat | R <= k < R + RING
      ensures At(t, k)
    {
      assert At(s, k);
      if k < F { SlotsDiffer(k, F); } else if F < k { SlotsDiffer(F, k); }
    }
  }

  lemma TakeKeeps(s: Sys, accept: bool)
    requires Inv(s) && Enabled(s, Take(accept))
    ensures Inv(Apply(s, Take(accept)))
  {
    var t := Apply(s, Take(accept));
    var R, T := |s.returned|, |s.taken|;
    assert At(s, T);
    SlotNext(T);
    assert T < |s.filled| && s.buffers[s.cur] == s.filled[T];
    forall k: nat | R <= k < R + RING
      ensures At(t, k)
    {
      assert At(s, k);
      if k < T { SlotsDiffer(k, T); } else if T < k { SlotsDiffer(T, k); }
    }
    if R < T { SlotsDiffer(R, T); }
  }

  lemma ReclaimKeeps(s: Sys, cookie: nat)
    requires Inv(s) && Enabled(s, Reclaim(cookie))
    ensures Inv(Apply(s, Reclaim(cookie)))
  {
    if cookie < RING {
      var t := Apply(s, Reclaim(cookie));
      var R := |s.returned|;
      var c := SlotCovers(R, cookie);
      assert At(s, c);
      forall k: nat | R <= k < R + RING
        ensures At(t, k)
      {
        assert At(s, k);
        if k < c { SlotsDiffer(k, c); } else if c < k { SlotsDiffer(c, k); }
      }
    }
  }

  lemma PumpKeeps(s: Sys)
    requires Inv(s) && Enabled(s, Pump)
    ensures Inv(Apply(s, Pump))
    ensures |s.returned| < |s.taken|
  {
    var t := Apply(s, Pump);
    var R := |s.returned|;
    assert At(s, R);
    SlotNext(R);
    forall k: nat | R + 1 <= k < R + 1 + RING
      ensures At(t, k)
    {
      if k == R + RING {
      } else {
        assert At(s, k);
        SlotsDiffer(R, k);
      }
    }
  }

  lemma LockKeeps(s: Sys, step: Step)
    requires Inv(s) && Enabled(s, step)
    requires step.LockDrain? || step.UnlockDrain? || step.PumpEnd?
    ensures Inv(Apply(s, step))
  {
    hide Slot;
    var t := Apply(s, step);
    if s.lock.DrainPump? { SlotNext(|s.taken| - 1); }
    forall k: nat | |s.returned| <= k < |s.returned| + RING
      ensures At(t, k)
    {
      assert At(s, k);
    }
  }

  lemma StepKeeps(s: Sys, step: Step)
    requires Inv(s) && Enabled(s, step)
    ensures Inv(Apply(s, step))
  {
    match step
    case Fill(frame) => FillKeeps(s, frame);
    case Take(accept) => TakeKeeps(s, accept);
    case Reclaim(cookie) => ReclaimKeeps(s, cookie);
    case Pump => PumpKeeps(s);
    case _ => LockKeeps(s, step);
  }

  /** Every interleaving of fills, drains and returns keeps the invariant. */
  lemma {:induction false} RunKeeps(s: Sys, steps: seq<Step>, t: Sys)
    requires Inv(s) && Runs(s, steps, t)
    ensures Inv(t)
    decreases |steps|
  {
    if steps != [] {
      StepKeeps(s, steps[0]);
      RunKeeps(Apply(s, steps[0]), steps[1..], t);
    }
  }

  // ----- what the invariant means

  /** In every reachable state the ring counters are ordered and fit the ring, and the
      driver's indices and the NIC registers are those counters modulo 256. */
  lemma RingCounters(buffers: seq<Frame>, steps: seq<Step>, s: Sys)
    requires |buffers| == RING && Runs(Init(buffers), steps, s)
    ensures |s.returned| <= |s.taken| <= |s.filled| <= |s.returned| + 255
    ensures s.head == |s.returned| % 256
    ensures s.rdh == |s.filled| % 256
    ensures s.rdt == (s.head + 255) % 256
    ensures !s.lock.DrainPump? ==> s.cur == |s.taken| % 256
  {
    hide Runs, Init, Ownership, History;
    InitInv(buffers);
    RunKeeps(Init(buffers), steps, s);
    CountersModulo(s);
  }

  lemma CountersModulo(s: Sys)
    requires Counters(s)
    ensures s.head == |s.returned| % 256 && s.rdh == |s.filled| % 256 && s.rdt == (s.head + 255) % 256
    ensures !s.lock.DrainPump? ==> s.cur == |s.taken| % 256
  {
    BackOne(|s.returned|);
  }

  lemma BackOne(k: nat)
    ensures Slot(k + RING - 1) == (Slot(k) + 255) % 256
  {
  }

  /** The NIC never writes a buffer the network stack still holds: its next target is
      neither lent out nor waiting to be returned nor finished and unread. */
  lemma FillIsSafe(buffers: seq<Frame>, steps: seq<Step>, s: Sys)
    requires |buffers| == RING && Runs(Init(buffers), steps, s)
    requires s.rdh != s.rdt
    ensures s.rdh < RING == |s.ready| == |s.done|
    ensures s.rdh !in s.held && !s.ready[s.rdh] && !s.done[s.rdh]
  {
    InitInv(buffers);
    RunKeeps(Init(buffers), steps, s);
    var F := |s.filled|;
    assert At(s, F);
  }

  /** A buffer lent to the stack keeps the frame it was lent with. */
  lemma HeldBuffersKeepTheirFrame(buffers: seq<Frame>, steps: seq<Step>, s: Sys, i: nat) returns (k: nat)
    requires |buffers| == RING && Runs(Init(buffers), steps, s)
    requires i in s.held
    ensures |s.returned| <= k < |s.taken| <= |s.filled| && k % 256 == i < |s.buffers|
    ensures s.buffers[i] == s.taken[k] == s.filled[k]
  {
    InitInv(buffers);
    RunKeeps(Init(buffers), steps, s);
    k := SlotCovers(|s.returned|, i);
    assert At(s, k);
  }

  /** Frames are taken exactly once and in the order the NIC filled them, and
      descriptors go back to the NIC in ring order whatever order the stack chose. */
  lemma TakenInOrder(buffers: seq<Frame>, steps: seq<Step>, s: Sys)
    requires |buffers| == RING && Runs(Init(buffers), steps, s)
    ensures |s.taken| <= |s.filled| && s.taken == s.filled[..|s.taken|]
    ensures forall k: nat :: k < |s.returned| ==> s.returned[k] == k % 256
  {
    InitInv(buffers);
    RunKeeps(Init(buffers), steps, s);
    assert forall k: nat :: k < |s.returned| ==> s.returned[k] == Slot(k);
  }

  /** Once the stack has returned everything, no taken descriptor is stranded. */
  lemma NothingStranded(buffers: seq<Frame>, steps: seq<Step>, s: Sys)
    requires |buffers| == RING && Runs(Init(buffers), steps, s)
    requires s.held == {} && (s.lock.Free? || s.lock.Drain?)
    ensures |s.returned| == |s.taken|
  {
    InitInv(buffers);
    RunKeeps(Init(buffers), steps, s);
    assert At(s, |s.returned|);
  }

  /** The reclaim loop ends: each iteration returns one of the finitely many taken
      descriptors, and none is taken while it runs. */
  lemma ReclaimLoopProgress(buffers: seq<Frame>, steps: seq<Step>, s: Sys)
    requires |buffers| == RING && Runs(Init(buffers), steps, s)
    requires Shape(s) && Enabled(s, Pump)
    ensures |s.returned| < |s.taken|
    ensures var t := Apply(s, Pump);
            |t.taken| - |t.returned| < |s.taken| - |s.returned|
  {
    InitInv(buffers);
    RunKeeps(Init(buffers), steps, s);
    PumpKeeps(s);
  }

  /** While the reclaim loop is not running, either everything taken has been returned or
      the oldest unreturned descriptor is still lent out: nothing returnable waits. */
  lemma OldestIsHeld(s: Sys)
    requires Inv(s) && (s.lock.Free? || s.lock.Drain?)
    ensures |s.returned| == |s.taken| || s.head in s.held
  {
    assert At(s, |s.returned|);
  }

  /** The drain stops exactly when every filled frame has been taken. */
  lemma DrainStopsWhenCaughtUp(s: Sys)
    requires Inv(s) && !s.lock.DrainPump?
    ensures s.done[s.cur] <==> |s.taken| < |s.filled|
  {
    assert At(s, |s.taken|);
  }

  // ----- the driver as imperative code

  /** The device context with its descriptor memory and registers.  The
      history and the trace of steps are specification state. */
  class Nic {
    const status: array<bool>
    const descs: array<Frame>
    const ready: array<bool>
    var cur: nat
    var head: nat
    var rdt: nat
    var rdh: nat
    var lock: Lock
    ghost var held: set<nat>
    ghost var filled: seq<Frame>
    ghost var taken: seq<Frame>
    ghost var returned: seq<nat>
    ghost var origin: seq<Frame>
    ghost var trace: seq<Step>

    ghost function View(): Sys
      reads this, status, descs, ready
    {
      Sys(status[..], descs[..], ready[..], cur, head, rdt, rdh, lock, held, filled, taken, returned)
    }

    /** The arrays are the ring and the current state is what `trace` leads to. */
    ghost predicate Valid()
      reads this, status, descs, ready
    {
      && status.Length == descs.Length == ready.Length == RING
      && status != ready
      && cur < RING && head < RING && rdt < RING && rdh < RING
      && |origin| == RING
      && Runs(Init(origin), trace, View())
    }

    lemma Reached()
      requires Valid()
      ensures Inv(View())
    {
      InitInv(origin);
      RunKeeps(Init(origin), trace, View());
    }

    constructor (memory: seq<Frame>)
      requires |memory| == RING
      ensures Valid() && View() == Init(memory)
      ensures fresh(status) && fresh(descs) && fresh(ready)
    {
      status := new bool[RING](i => false);
      descs := new Frame[RING](i requires 0 <= i < |memory| => memory[i]);
      ready := new bool[RING](i => false);
      cur, head := 0, 0;
      rdh := 0;
      rdt := RING - 1;
      lock, held, filled, taken, returned := Free, {}, [], [], [];
      origin, trace := memory, [];
      new;
      assert View() == Init(memory);
    }

    /** Appends the step just performed to the trace. */
    ghost method Record(before: Sys, step: Step)
      requires status.Length == descs.Length == ready.Length == RING && status != ready
      requires |origin| == RING && Runs(Init(origin), trace, before) && Shape(before)
      requires Enabled(before, step) && View() == Apply(before, step)
      modifies this`trace
      ensures Valid() && trace == old(trace) + [step]
    {
      RunsExtend(Init(origin), trace, before, step);
      trace := trace + [step];
    }

    /** The NIC receives some of the packets on the wire; those that find no free
        descriptor are lost. */
    method Receive(wire: seq<Frame>) returns (rest: seq<Frame>)
      requires Valid()
      modifies this`rdh, this`filled, this`trace, status, descs
      ensures Valid() && old(trace) <= trace && old(filled) <= filled
      ensures |rest| == |wire| ==> View() == old(View())
      ensures |rest| <= |wire|
      ensures ready[..] == old(ready[..])
    {
      hide Runs, Init;
      rest := wire;
      var n :| 0 <= n <= |wire|;
      while |rest| > |wire| - n
        invariant |wire| - n <= |rest| <= |wire|
        invariant Valid() && old(trace) <= trace && old(filled) <= filled
        invariant |rest| == |wire| ==> View() == old(View())
        invariant ready[..] == old(ready[..])
        decreases |rest|
      {
        if rdh != rdt {
          ghost var before := View();
          var frame := rest[0];
          descs[rdh] := frame;
          status[rdh] := true;
          rdh := (rdh + 1) % RING;
          filled := filled + [frame];
          assert View() == Apply(before, Fill(frame));
          Record(before, Fill(frame));
        }
        rest := rest[1..];
      }
    }

    /** Body of the reclaim loop: clears the oldest descriptor and moves RDT onto it. */
    method ReturnOne()
      requires Valid() && (lock.DrainPump? || lock.ReclaimPump?) && ready[head]
      modifies this`head, this`rdt, this`returned, this`trace, status, ready
      ensures Valid() && trace == old(trace) + [Pump]
      ensures rdt == old(head) && returned == old(returned) + [rdt]
      ensures old(|returned| < |taken|)
    {
      hide Runs, Init;
      ghost var before := View();
      assert |returned| < |taken| by { Reached(); PumpKeeps(before); }
      var reclaim := head;
      ready[reclaim] := false;
      status[reclaim] := false;
      rdt := reclaim;
      head := (reclaim + 1) % RING;
      returned := returned + [reclaim];
      assert View() == Apply(before, Pump);
      Record(before, Pump);
    }

    /** The loop that gives returned descriptors back to the NIC in ring order. */
    method ReturnReady(wire: seq<Frame>) returns (rest: seq<Frame>)
      requires Valid() && (lock.DrainPump? || lock.ReclaimPump?)
      modifies this`head, this`rdt, this`rdh, this`filled, this`returned, this`trace, status, descs, ready
      ensures Valid() && old(trace) <= trace && !ready[head]
      ensures |rest| <= |wire| && (|rest| == |wire| ==> filled == old(filled))
    {
      hide Runs, Init, Apply;
      rest := wire;
      while ready[head]
        invariant Valid() && old(trace) <= trace
        invariant |rest| <= |wire| && (|rest| == |wire| ==> filled == old(filled))
        decreases |taken| - |returned|
      {
        ReturnOne();
        rest := Receive(rest);
      }
    }

    /** Drain iteration up to the reclaim loop: clears DD and offers the frame to the
        stack, which may decline it. */
    method TakeOne() returns (queued: bool)
      requires Valid() && lock.Drain? && status[cur]
      modifies this`cur, this`taken, this`held, this`lock, this`trace, status, ready
      ensures Valid() && old(trace) <= trace
      ensures lock == if queued then Drain else DrainPump
      ensures queued ==> held == old(held) + {old(cur)}
      ensures !queued ==> held == old(held) && ready[cur]
      ensures taken == old(taken) + [old(descs[cur])] && old(|taken| < |filled|)
    {
      hide Runs, Init;
      ghost var before := View();
      assert |taken| < |filled| by { Reached(); DrainStopsWhenCaughtUp(before); }
      var idx := cur;
      status[idx] := false;
      taken := taken + [descs[idx]];
      var accept: bool := *;
      queued := descs[idx].length > 0 && accept;
      if queued {
        held := held + {idx};
        cur := (cur + 1) % RING;
      } else {
        ready[idx] := true;
        lock := DrainPump;
      }
      assert View() == Apply(before, Take(accept));
      Record(before, Take(accept));
    }

    /** A step that only moves the lock, or the lock and `rx_cur`. */
    method Switch(step: Step)
      requires Valid() && Enabled(View(), step)
      requires step.LockDrain? || step.UnlockDrain? || step.PumpEnd?
      modifies this`cur, this`lock, this`trace
      ensures Valid() && trace == old(trace) + [step]
      ensures lock == if step.LockDrain? || old(lock).DrainPump? then Drain else Free
      ensures cur == if old(lock).DrainPump? then Slot(old(cur) + 1) else old(cur)
    {
      hide Runs, Init;
      ghost var before := View();
      if step.PumpEnd? && lock.DrainPump? {
        cur := (cur + 1) % RING;
      }
      lock := if step.LockDrain? || lock.DrainPump? then Drain else Free;
      assert View() == Apply(before, step);
      Record(before, step);
    }

    /** One iteration of the drain, with the packets that arrive meanwhile. */
    method DrainOne(wire: seq<Frame>) returns (rest: seq<Frame>)
      requires Valid() && lock.Drain? && status[cur]
      modifies this, status, descs, ready
      ensures Valid() && lock.Drain? && old(trace) <= trace && origin == old(origin)
      ensures |rest| <= |wire| && (|rest| == |wire| ==> filled == old(filled))
      ensures |taken| == old(|taken|) + 1 && old(|taken| < |filled|)
    {
      hide Runs, Init, Apply;
      rest := wire;
      var queued := TakeOne();
      if !queued {
        rest := ReturnReady(rest);
        Switch(PumpEnd);
      }
      rest := Receive(rest);
    }

    /** e1000_handle_rx: takes every finished descriptor.  `wire` holds the packets that
        arrive while it runs; whether the stack accepts a frame is its own choice. */
    method HandleRx(wire: seq<Frame>)
      requires Valid() && lock.Free?
      modifies this, status, descs, ready
      ensures Valid() && lock.Free? && old(trace) <= trace
      ensures origin == old(origin)
      ensures taken == filled
      ensures |returned| == |taken| || head in held
    {
      hide Runs, Init, Apply;
      var rest := wire;
      Switch(LockDrain);
      while status[cur]
        invariant Valid() && lock.Drain? && old(trace) <= trace && origin == old(origin)
        decreases |rest|, |filled| - |taken|
      {
        rest := DrainOne(rest);
      }
      Switch(UnlockDrain);
      CaughtUp();
    }

    lemma CaughtUp()
      requires Valid() && lock.Free?
      ensures |returned| == |taken| || head in held
      ensures !status[cur] ==> taken == filled
    {
      Reached();
      OldestIsHeld(View());
      DrainStopsWhenCaughtUp(View());
    }

    method MarkReturned(idx: nat)
      requires Valid() && lock.Free? && idx < RING && idx in held
      modifies this`held, this`lock, this`trace, ready
      ensures Valid() && trace == old(trace) + [Reclaim(idx)]
      ensures lock == ReclaimPump && held == old(held) - {idx}
    {
      hide Runs, Init;
      ghost var before := View();
      ready[idx] := true;
      held, lock := held - {idx}, ReclaimPump;
      assert View() == Apply(before, Reclaim(idx));
      Record(before, Reclaim(idx));
    }

    /** intel_nic_e1000_rx_reclaim: the stack returns the buffer named by `cookie`, which
        the driver truncates to 16 bits. */
    method RxReclaim(cookie: nat, wire: seq<Frame>)
      requires Valid() && lock.Free?
      requires cookie % 0x1_0000 < RING ==> cookie % 0x1_0000 in held
      modifies this, status, descs, ready
      ensures Valid() && lock.Free? && old(trace) <= trace
      ensures origin == old(origin)
      ensures held == old(held) - {cookie % 0x1_0000} && taken == old(taken)
      ensures |returned| == |taken| || head in held
    {
      hide Runs, Init, Apply;
      var idx := cookie % 0x1_0000;
      if idx >= RING {
        assert idx !in held by { Reached(); }
        CaughtUp();
        return;
      }
      MarkReturned(idx);
      var rest := ReturnReady(wire);
      Switch(PumpEnd);
      CaughtUp();
    }
  }
}
