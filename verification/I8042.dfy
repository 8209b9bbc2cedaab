/** The PS/2 controller's shared input stream (src/device/ps2/i8042.c).

    Keyboard and auxiliary bytes leave the controller through one queue.  The interrupt
    path hands them to the port's driver; a command marks its port busy, takes that
    port's bytes as replies and hands the other port's bytes on.  `command_lock` allows
    one command at a time; every access to the queue happens under `input_lock`, so each
    of the steps below is atomic.

    The history keeps every byte that arrived and, for every byte taken from the queue,
    where it went and which command was running. */
module I8042 {
  import opened Wrappers

  const DRAIN_BUDGET := 64
  const DISCARD_BUDGET := 256

  datatype Port = Keyboard | Aux

  datatype Byte = Byte(port: Port, value: nat)

  datatype Dest = Driver | Reply | Discarded

  datatype Routed = Routed(byte: Byte, dest: Dest, command: Option<Port>)

  datatype Sys = Sys(
    queue: seq<Byte>,           // the controller's output buffer
    command: Option<Port>,      // holder of command_lock; its port is busy
    arrivals: seq<Byte>,        // history: everything the devices sent
    log: seq<Routed>,           // history: everything read from the controller
    begun: nat)                 // history: arrivals when the running command began

  datatype Step =
    | Arrive(byte: Byte)
    | Drain                     // interrupt
    | Begin(port: Port)         // ps2_command_begin_preserve
    | Discard                   // the rest of ps2_command_begin
    | Poll                      // one iteration of ps2_read_reply
    | End                       // ps2_command_end

  const START := Sys([], None, [], [], 0)

  predicate Busy(s: Sys, port: Port) {
    s.command == Some(port)
  }

  /** Takes the oldest byte from the controller. */
  function Take(s: Sys, dest: Dest): Sys
    requires s.queue != []
  {
    s.(queue := s.queue[1..], log := s.log + [Routed(s.queue[0], dest, s.command)])
  }

  /** ps2_drain_input_unsafe with n reads left. */
  function Drained(s: Sys, n: nat): Sys
    decreases n
  {
    if n == 0 || s.queue == [] || Busy(s, s.queue[0].port) then s else Drained(Take(s, Driver), n - 1)
  }

  /** ps2_discard_input on the running command's port, with n reads left. */
  function Emptied(s: Sys, n: nat): Sys
    decreases n
  {
    if n == 0 || s.queue == [] then s
    else Emptied(Take(s, if Busy(s, s.queue[0].port) then Discarded else Driver), n - 1)
  }

  predicate Enabled(s: Sys, step: Step) {
    match step
    case Begin(_) => s.command.None?
    case Discard => s.command.Some?
    case Poll => s.command.Some?
    case End => s.command.Some?
    case _ => true
  }

  function Apply(s: Sys, step: Step): Sys
    requires Enabled(s, step)
  {
    match step
    case Arrive(b) => s.(queue := s.queue + [b], arrivals := s.arrivals + [b])
    case Drain => Drained(s, DRAIN_BUDGET)
    case Begin(port) => Drained(s, DRAIN_BUDGET).(command := Some(port), begun := |s.arrivals|)
    case Discard => Emptied(s, DISCARD_BUDGET)
    case Poll =>
      if s.queue == [] then s else Take(s, if Busy(s, s.queue[0].port) then Reply else Driver)
    case End => Drained(s.(command := None), DRAIN_BUDGET)
  }

  ghost predicate Runs(s: Sys, steps: seq<Step>, t: Sys)
    decreases |steps|
  {
    if steps == [] then s == t else Enabled(s, steps[0]) && Runs(Apply(s, steps[0]), steps[1..], t)
  }

  // ----- the invariant

  /** A byte of the busy port is a reply or was discarded by that command; any other byte
      went to its driver. */
  predicate RightlyRouted(r: Routed) {
    if r.command == Some(r.byte.port) then r.dest != Driver else r.dest == Driver
  }

  function Bytes(log: seq<Routed>): (r: seq<Byte>)
    ensures |r| == |log|
  {
    seq(|log|, i requires 0 <= i < |log| => log[i].byte)
  }

  /** Nothing lost, duplicated or reordered. */
  ghost predicate Conserved(s: Sys) {
    Bytes(s.log) + s.queue == s.arrivals
  }

  ghost predicate Inv(s: Sys) {
    Conserved(s) && forall k :: 0 <= k < |s.log| ==> RightlyRouted(s.log[k])
  }

  lemma TakeKeeps(s: Sys, dest: Dest)
    requires Inv(s) && s.queue != [] && RightlyRouted(Routed(s.queue[0], dest, s.command))
    ensures Inv(Take(s, dest))
  {
    var t := Take(s, dest);
    assert Bytes(t.log) == Bytes(s.log) + [s.queue[0]];
  }

  lemma {:induction false} DrainKeeps(s: Sys, n: nat)
    requires Inv(s)
    ensures var t := Drained(s, n);
            Inv(t) && t.command == s.command && t.arrivals == s.arrivals && t.begun == s.begun && s.log <= t.log
    ensures s.command.None? ==> |Drained(s, n).queue| == if |s.queue| <= n then 0 else |s.queue| - n
    ensures forall k :: |s.log| <= k < |Drained(s, n).log| ==> Drained(s, n).log[k].dest == Driver
    decreases n
  {
    if n > 0 && s.queue != [] && !Busy(s, s.queue[0].port) {
      TakeKeeps(s, Driver);
      DrainKeeps(Take(s, Driver), n - 1);
    }
  }

  lemma {:induction false} EmptyKeeps(s: Sys, n: nat)
    requires Inv(s)
    ensures var t := Emptied(s, n);
            Inv(t) && t.command == s.command && t.arrivals == s.arrivals && t.begun == s.begun && s.log <= t.log
    ensures forall k :: |s.log| <= k < |Emptied(s, n).log| ==> Emptied(s, n).log[k].dest != Reply
    decreases n
  {
    if n > 0 && s.queue != [] {
      var dest := if Busy(s, s.queue[0].port) then Discarded else Driver;
      TakeKeeps(s, dest);
      EmptyKeeps(Take(s, dest), n - 1);
    }
  }

  lemma StepKeeps(s: Sys, step: Step)
    requires Inv(s) && Enabled(s, step)
    ensures Inv(Apply(s, step)) && s.log <= Apply(s, step).log
  {
    match step
    case Drain => DrainKeeps(s, DRAIN_BUDGET);
    case Begin(_) => DrainKeeps(s, DRAIN_BUDGET);
    case Discard => EmptyKeeps(s, DISCARD_BUDGET);
    case Poll =>
      if s.queue != [] { TakeKeeps(s, if Busy(s, s.queue[0].port) then Reply else Driver); }
    case End => DrainKeeps(s.(command := None), DRAIN_BUDGET);
    case _ =>
  }

  /** Across every interleaving of arrivals, interrupts and commands: what has been read plus
      what is queued is exactly what arrived, in order, and every byte went where it
      belongs. */
  lemma {:induction false} RunKeeps(s: Sys, steps: seq<Step>, t: Sys)
    requires Inv(s) && Runs(s, steps, t)
    ensures Inv(t) && s.log <= t.log
    ensures Bytes(t.log) + t.queue == t.arrivals
    decreases |steps|
  {
    if steps != [] {
      StepKeeps(s, steps[0]);
      RunKeeps(Apply(s, steps[0]), steps[1..], t);
    }
  }

  // ----- each port's own order

  function Of(bytes: seq<Byte>, port: Port): seq<Byte> {
    if bytes == [] then []
    else Of(bytes[..|bytes| - 1], port) + if bytes[|bytes| - 1].port == port then [bytes[|bytes| - 1]] else []
  }

  lemma {:induction false} OfConcat(a: seq<Byte>, b: seq<Byte>, port: Port)
    ensures Of(a + b, port) == Of(a, port) + Of(b, port)
    decreases |b|
  {
    if b == [] {
      assert a + b == a;
    } else {
      assert (a + b)[..|a + b| - 1] == a + b[..|b| - 1];
      OfConcat(a, b[..|b| - 1], port);
    }
  }

  /** For each port, replies and driver deliveries together follow its arrival order. */
  lemma PortOrder(steps: seq<Step>, t: Sys, port: Port)
    requires Runs(START, steps, t)
    ensures Of(Bytes(t.log), port) + Of(t.queue, port) == Of(t.arrivals, port)
  {
    RunKeeps(START, steps, t);
    OfConcat(Bytes(t.log), t.queue, port);
  }

  /** Transactions that preserve input discard nothing: every byte of the busy port that is
      read is a reply of that command. */
  lemma {:induction false} PreservedCommandsDiscardNothing(s: Sys, steps: seq<Step>, t: Sys)
    requires Inv(s) && Runs(s, steps, t) && Discard !in steps
    requires forall k :: 0 <= k < |s.log| ==> s.log[k].dest != Discarded
    ensures forall k :: 0 <= k < |t.log| ==>
              (t.log[k].dest == Reply <==> t.log[k].command == Some(t.log[k].byte.port))
    decreases |steps|
  {
    if steps == [] {
      assert forall k :: 0 <= k < |t.log| ==> RightlyRouted(t.log[k]);
    } else {
      var u := Apply(s, steps[0]);
      StepKeeps(s, steps[0]);
      NoDiscard(s, steps[0]);
      PreservedCommandsDiscardNothing(u, steps[1..], t);
    }
  }

  lemma NoDiscard(s: Sys, step: Step)
    requires Inv(s) && Enabled(s, step) && step != Discard
    ensures |s.log| <= |Apply(s, step).log|
    ensures forall k :: |s.log| <= k < |Apply(s, step).log| ==> Apply(s, step).log[k].dest != Discarded
  {
    match step
    case Drain => DrainKeeps(s, DRAIN_BUDGET);
    case Begin(_) => DrainKeeps(s, DRAIN_BUDGET);
    case End => DrainKeeps(s.(command := None), DRAIN_BUDGET);
    case _ =>
  }

  // ----- replies are never stale

  /** Starting a command clears the queue exactly when the drain budget covers it. */
  lemma BeginClearsIff(s: Sys, port: Port)
    requires Inv(s) && Enabled(s, Begin(port))
    ensures Apply(s, Begin(port)).queue == [] <==> |s.queue| <= DRAIN_BUDGET
  {
    DrainKeeps(s, DRAIN_BUDGET);
  }

  /** Byte k of the log is byte k of the arrivals; no byte of a command's port that arrived
      before the command began is still queued. */
  ghost predicate FreshReplies(s: Sys) {
    s.command.Some? ==> s.begun <= |s.log|
  }

  /** Runs in which the controller holds at most 64 bytes whenever a command begins. */
  ghost predicate RunsShort(s: Sys, steps: seq<Step>, t: Sys)
    decreases |steps|
  {
    if steps == [] then s == t
    else
      && Enabled(s, steps[0])
      && (steps[0].Begin? ==> |s.queue| <= DRAIN_BUDGET)
      && RunsShort(Apply(s, steps[0]), steps[1..], t)
  }

  lemma FreshStep(s: Sys, step: Step)
    requires Inv(s) && FreshReplies(s) && Enabled(s, step) && (step.Begin? ==> |s.queue| <= DRAIN_BUDGET)
    ensures FreshReplies(Apply(s, step)) && |s.log| <= |Apply(s, step).log|
  {
    match step
    case Drain => DrainKeeps(s, DRAIN_BUDGET);
    case Begin(_) =>
      DrainKeeps(s, DRAIN_BUDGET);
      assert Drained(s, DRAIN_BUDGET).queue == [];
    case Discard => EmptyKeeps(s, DISCARD_BUDGET);
    case End => DrainKeeps(s.(command := None), DRAIN_BUDGET);
    case _ =>
  }

  /** In such a run a reply handed to a command is a byte that arrived after the command
      began: at every poll, what is read has arrival number at least `begun`. */
  lemma {:induction false} RepliesAreFresh(s: Sys, steps: seq<Step>, t: Sys)
    requires Inv(s) && FreshReplies(s) && RunsShort(s, steps, t)
    ensures Inv(t) && FreshReplies(t)
    ensures t.command.Some? && t.queue != [] ==>
              && |t.log| < |t.arrivals| && t.queue[0] == t.arrivals[|t.log|]
              && t.begun <= |t.log|
    decreases |steps|
  {
    if steps != [] {
      StepKeeps(s, steps[0]);
      FreshStep(s, steps[0]);
      RepliesAreFresh(Apply(s, steps[0]), steps[1..], t);
    }
  }

  // ----- the code

  lemma {:induction false} RunsExtend(s: Sys, steps: seq<Step>, t: Sys, step: Step)
    requires Runs(s, steps, t) && Enabled(t, step)
    ensures Runs(s, steps + [step], Apply(t, step))
    decreases |steps|
  {
    if steps == [] {
      assert [step][1..] == [];
    } else {
      RunsExtend(Apply(s, steps[0]), steps[1..], t, step);
      assert (steps + [step])[1..] == steps[1..] + [step];
    }
  }

  /** What happens while input_lock is free: bytes arrive, and perhaps an interrupt. */
  datatype Gap = Gap(bytes: seq<Byte>, irq: bool)

  class Controller {
    var queue: seq<Byte>
    var keyboardBusy: bool
    var auxBusy: bool
    ghost var command: Option<Port>
    ghost var arrivals: seq<Byte>
    ghost var log: seq<Routed>
    ghost var begun: nat
    ghost var trace: seq<Step>

    constructor ()
      ensures Valid() && View() == START
    {
      queue, keyboardBusy, auxBusy := [], false, false;
      command, arrivals, log, begun, trace := None, [], [], 0, [];
    }

    ghost function View(): Sys
      reads this
    {
      Sys(queue, command, arrivals, log, begun)
    }

    /** The busy flags say which command holds the lock, and the state is what the recorded
        steps lead to. */
    ghost predicate Valid()
      reads this
    {
      keyboardBusy == (command == Some(Keyboard)) && auxBusy == (command == Some(Aux)) && Runs(START, trace, View())
    }

    function IsBusy(port: Port): bool
      reads this
    {
      if port == Keyboard then keyboardBusy else auxBusy
    }

    ghost method Record(before: Sys, step: Step)
      requires Runs(START, trace, before) && Enabled(before, step) && View() == Apply(before, step)
      modifies this`trace
      ensures Runs(START, trace, View()) && trace == old(trace) + [step]
    {
      RunsExtend(START, trace, before, step);
      trace := trace + [step];
    }

    /** Reads the data register and passes the byte on. */
    method Read(dest: Dest) returns (b: Byte)
      requires queue != []
      modifies this`queue, this`log
      ensures View() == Take(old(View()), dest) && b == old(queue)[0]
    {
      b := queue[0];
      log := log + [Routed(b, dest, command)];
      queue := queue[1..];
    }

    /** ps2_drain_input_unsafe */
    method DrainUnsafe()
      requires keyboardBusy == (command == Some(Keyboard)) && auxBusy == (command == Some(Aux))
      modifies this`queue, this`log
      ensures View() == Drained(old(View()), DRAIN_BUDGET)
    {
      var budget := DRAIN_BUDGET;
      while budget > 0
        invariant 0 <= budget <= DRAIN_BUDGET
        invariant Drained(View(), budget) == Drained(old(View()), DRAIN_BUDGET)
      {
        if queue == [] || IsBusy(queue[0].port) { return; }
        var b := Read(Driver);
        budget := budget - 1;
      }
    }

    /** ps2_drain_input */
    method DrainInput()
      requires Valid()
      modifies this`queue, this`log, this`trace
      ensures Valid() && trace == old(trace) + [Drain]
      ensures old(log) <= log && NoReplies(log, |old(log)|)
    {
      ghost var before := View();
      DrainDelivers(before, DRAIN_BUDGET);
      DrainUnsafe();
      Record(before, Drain);
    }

    /** ps2_command_begin_preserve */
    method BeginPreserve(port: Port)
      requires Valid() && command.None?
      modifies this
      ensures Valid() && trace == old(trace) + [Begin(port)] && command == Some(port)
    {
      ghost var before := View();
      DrainUnsafe();
      command, begun := Some(port), |arrivals|;
      if port == Keyboard { keyboardBusy := true; } else { auxBusy := true; }
      assert View() == Apply(before, Begin(port)) by { DrainedKeepsHistory(before, DRAIN_BUDGET); }
      Record(before, Begin(port));
    }

    /** ps2_discard_input on the running command's port */
    method DiscardInput(port: Port)
      requires Valid() && command == Some(port)
      modifies this
      ensures Valid() && trace == old(trace) + [Discard] && command == Some(port)
    {
      ghost var before := View();
      var i := 0;
      while i < DISCARD_BUDGET
        invariant 0 <= i <= DISCARD_BUDGET
        invariant keyboardBusy == old(keyboardBusy) && auxBusy == old(auxBusy) && trace == old(trace)
        invariant command == Some(port) && Emptied(View(), DISCARD_BUDGET - i) == Emptied(before, DISCARD_BUDGET)
      {
        if queue == [] { break; }
        var b := Read(if queue[0].port == port then Discarded else Driver);
        i := i + 1;
      }
      Record(before, Discard);
    }

    /** ps2_command_begin */
    method BeginCommand(port: Port)
      requires Valid() && command.None?
      modifies this
      ensures Valid() && trace == old(trace) + [Begin(port), Discard] && command == Some(port)
    {
      BeginPreserve(port);
      DiscardInput(port);
    }

    /** ps2_command_end */
    method EndCommand(port: Port)
      requires Valid() && command == Some(port)
      modifies this
      ensures Valid() && trace == old(trace) + [End] && command.None?
    {
      ghost var before := View();
      command := None;
      if port == Keyboard { keyboardBusy := false; } else { auxBusy := false; }
      DrainUnsafe();
      assert command == None by { DrainedKeepsHistory(before.(command := None), DRAIN_BUDGET); }
      Record(before, End);
    }

    /** The lock is free for a while. */
    method Wait(gap: Gap)
      requires Valid()
      modifies this
      ensures Valid() && trace == old(trace) + Script(gap) && command == old(command)
      ensures old(log) <= log && NoReplies(log, |old(log)|)
    {
      hide Runs;
      var i := 0;
      while i < |gap.bytes|
        invariant 0 <= i <= |gap.bytes| && Valid() && command == old(command) && log == old(log)
        invariant trace == old(trace) + Arrivals(gap.bytes[..i])
      {
        ghost var before := View();
        queue := queue + [gap.bytes[i]];
        arrivals := arrivals + [gap.bytes[i]];
        Record(before, Arrive(gap.bytes[i]));
        assert Arrivals(gap.bytes[..i + 1]) == Arrivals(gap.bytes[..i]) + [Arrive(gap.bytes[i])];
        i := i + 1;
      }
      assert gap.bytes[..i] == gap.bytes;
      if gap.irq {
        DrainInput();
      }
    }

    /** One iteration of ps2_read_reply under the lock. */
    method PollOnce(port: Port) returns (reply: Option<nat>)
      requires Valid() && command == Some(port)
      modifies this
      ensures Valid() && command == Some(port) && trace == old(trace) + [Poll] && old(log) <= log
      ensures reply.Some? <==> old(queue) != [] && old(queue)[0].port == port
      ensures reply.Some? ==> log == old(log) + [Routed(Byte(port, reply.value), Reply, Some(port))]
      ensures reply.None? ==> NoReplies(log, |old(log)|)
    {
      hide Runs;
      ghost var before := View();
      reply := None;
      if queue != [] {
        var mine := queue[0].port == port;
        var b := Read(if mine then Reply else Driver);
        if mine { reply := Some(b.value); }
      }
      Record(before, Poll);
    }

    /** ps2_read_reply; `gaps` gives what happens before each poll.  It polls until a byte of
        the command's port comes, which is the reply, and times out after |gaps| polls
        otherwise; every other byte goes to its driver. */
    method ReadReply(port: Port, gaps: seq<Gap>) returns (reply: Option<nat>, ghost polls: nat)
      requires Valid() && command == Some(port)
      modifies this
      ensures Valid() && command == Some(port) && polls <= |gaps| && trace == old(trace) + Rounds(gaps[..polls])
      ensures old(log) <= log
      ensures reply.Some? ==> |old(log)| < |log| && log[|log| - 1] == Routed(Byte(port, reply.value), Reply, Some(port))
                              && NoReplies(log[..|log| - 1], |old(log)|)
      ensures reply.None? ==> polls == |gaps| && NoReplies(log, |old(log)|)
    {
      hide Runs, Script;
      var i := 0;
      assert gaps[..0] == [];
      while i < |gaps|
        invariant 0 <= i <= |gaps| && Valid() && command == Some(port) && trace == old(trace) + Rounds(gaps[..i])
        invariant old(log) <= log && NoReplies(log, |old(log)|)
      {
        Wait(gaps[i]);
        reply := PollOnce(port);
        RoundsStep(gaps, i);
        if reply.Some? { return reply, i + 1; }
        i := i + 1;
      }
      return None, i;
    }
  }

  function Arrivals(bytes: seq<Byte>): seq<Step> {
    seq(|bytes|, i requires 0 <= i < |bytes| => Arrive(bytes[i]))
  }

  /** The steps of a gap. */
  function Script(gap: Gap): seq<Step> {
    Arrivals(gap.bytes) + if gap.irq then [Drain] else []
  }

  /** The steps of polling with these gaps. */
  function Rounds(gaps: seq<Gap>): seq<Step> {
    if gaps == [] then [] else Rounds(gaps[..|gaps| - 1]) + Script(gaps[|gaps| - 1]) + [Poll]
  }

  lemma RoundsStep(gaps: seq<Gap>, i: nat)
    requires i < |gaps|
    ensures Rounds(gaps[..i + 1]) == Rounds(gaps[..i]) + Script(gaps[i]) + [Poll]
  {
    assert gaps[..i + 1][..i] == gaps[..i];
  }

  /** No reply in the log from position `from` on. */
  ghost predicate NoReplies(log: seq<Routed>, from: nat) {
    forall k :: from <= k < |log| ==> log[k].dest != Reply
  }

  lemma {:induction false} DrainDelivers(s: Sys, n: nat)
    ensures s.log <= Drained(s, n).log && NoReplies(Drained(s, n).log, |s.log|)
    decreases n
  {
    if n > 0 && s.queue != [] && !Busy(s, s.queue[0].port) {
      DrainDelivers(Take(s, Driver), n - 1);
    }
  }

  lemma {:induction false} DrainedKeepsHistory(s: Sys, n: nat)
    ensures var t := Drained(s, n); t.command == s.command && t.arrivals == s.arrivals && t.begun == s.begun
    decreases n
  {
    if n > 0 && s.queue != [] && !Busy(s, s.queue[0].port) { DrainedKeepsHistory(Take(s, Driver), n - 1); }
  }
}
