/** Signal delivery and return on i386 (arch/abi/i386/signal.c, 32-bit build).

    Delivery prints the interrupted context into a frame in user memory and starts
    the handler on it; sigreturn parses the frame it finds at the user stack pointer
    and resumes from it.  Deliveries nest, may switch to the alternate stack, and may
    interrupt a sigsuspend.

    User memory is a map from word number (address / 4) to 32-bit word; frames are
    16-byte aligned and every field is a whole word of it. */
module I386Signal {
  import Bits
  import Modular

  const LEGACY_WORDS := 19      // sizeof(signal_frame) == 76
  const RT_WORDS := 94          // sizeof(rt_signal_frame) == 376
  const WORD := 0x1_0000_0000

  /** The part of the interrupt frame that delivery saves. */
  datatype Regs = Regs(
    eax: nat, ebx: nat, ecx: nat, edx: nat, esi: nat, edi: nat, ebp: nat,
    ds: nat, es: nat, fs: nat, gs: nat, eip: nat, eflags: nat, esp: nat)

  datatype Action = Action(
    handler: nat, restorer: nat, mask: nat,
    onstack: bool, nodefer: bool, siginfo: bool, hasRestorer: bool)

  /** What accompanies a signal but is not restored: siginfo words, trap number,
      error code, fault address and the code and stack selectors. */
  datatype Extra = Extra(info: seq<nat>, trap: nat, err: nat, cr2: nat, cs: nat, ss: nat)

  type Memory = map<nat, nat>

  /** The alternate stack; `disabled` is SS_DISABLE. */
  datatype AltStack = AltStack(sp: nat, size: nat, disabled: bool) {
    predicate Usable() { sp != 0 && !disabled }
    predicate Contains(address: int) { Usable() && sp <= address < sp + size }
    predicate Clear(low: int, high: int) { !Usable() || high <= sp || sp + size <= low }
  }

  /** A frame that has been delivered and not yet returned from: where it is, and the
      context and mask it has to bring back. */
  datatype Live = Live(base: nat, rt: bool, regs: Regs, mask: nat) {
    function Words(): nat { if rt then RT_WORDS else LEGACY_WORDS }
    function Top(): nat { base + 4 * Words() }
    /** Bytes the handler consumes before it enters the kernel: its return address and,
        in the legacy frame, the signal number. */
    function Consumed(): nat { if rt then 4 else 8 }
  }

  datatype Task = Task(
    regs: Regs, mem: Memory, mask: nat, restoreMask: bool, savedMask: nat,
    alt: AltStack, onstack: bool, live: seq<Live>)

  datatype Step =
    | Deliver(action: Action, sig: nat, extra: Extra)
    | User(regs: Regs, mem: Memory)      // user code runs
    | SetMask(mask: nat)                 // sigprocmask
    | Suspend(mask: nat)                 // sigsuspend, woken by a signal
    | RestoreMask                        // an ignored signal ends the sigsuspend
    | Return                             // sigreturn or rt_sigreturn

  function U16(x: nat): (r: nat)
    ensures x < 0x1_0000 ==> r == x
  {
    x % 0x1_0000
  }

  predicate Fits(r: Regs) {
    && r.eax < WORD && r.ebx < WORD && r.ecx < WORD && r.edx < WORD && r.esi < WORD && r.edi < WORD
    && r.ebp < WORD && r.eip < WORD && r.eflags < WORD && r.esp < WORD
    && r.ds < 0x1_0000 && r.es < 0x1_0000 && r.fs < 0x1_0000 && r.gs < 0x1_0000
  }

  // ----- printing and parsing frames

  function Peek(mem: Memory, at: int): nat {
    if at in mem then mem[at] else 0
  }

  function Poke(mem: Memory, at: nat, words: seq<nat>): Memory
    decreases |words|
  {
    if words == [] then mem else Poke(mem[at := words[0]], at + 1, words[1..])
  }

  lemma {:induction false} PokeAt(mem: Memory, at: nat, words: seq<nat>, k: int)
    ensures Peek(Poke(mem, at, words), k) == if at <= k < at + |words| then words[k - at] else Peek(mem, k)
    decreases |words|
  {
    if words != [] { PokeAt(mem[at := words[0]], at + 1, words[1..], k); }
  }

  /** n words of memory from word `at` on. */
  function Window(mem: Memory, at: int, n: nat): (ws: seq<nat>)
    ensures |ws| == n
  {
    seq<nat>(n, i => Peek(mem, at + i))
  }

  /** Words 2 to 16 of the legacy frame: the saved context and mask. */
  function LegacyContext(r: Regs, mask: nat): (ws: seq<nat>)
    ensures |ws| == 15
  {
    [r.eip, r.eflags, r.esp, r.eax, r.ebx, r.ecx, r.edx, r.esi, r.edi, r.ebp, r.ds, r.es, r.fs, r.gs, mask]
  }

  function LegacyFrame(r: Regs, mask: nat, a: Action, sig: nat, base: nat): (ws: seq<nat>)
    ensures |ws| == LEGACY_WORDS && ws[2..17] == LegacyContext(r, mask)
  {
    var own := !(a.hasRestorer && a.restorer != 0);
    [if own then base + 68 else a.restorer, sig]
    + LegacyContext(r, mask)
    + (if own then [0x0077b858, 0x80cd0000] else [0, 0])
  }

  function Zeros(n: nat): (ws: seq<nat>)
    ensures |ws| == n
  {
    seq(n, i => 0)
  }

  function Info(sig: nat, info: seq<nat>): (ws: seq<nat>)
    ensures |ws| == 32
  {
    [sig] + seq(31, i requires 0 <= i < 31 => if i < |info| then info[i] else 0)
  }

  /** Words 41 to 63 of the rt frame: the machine context and the mask. */
  function RtContext(r: Regs, mask: nat, e: Extra, base: nat): (ws: seq<nat>)
    ensures |ws| == 23
  {
    [U16(r.gs), U16(r.fs), U16(r.es), U16(r.ds), r.edi, r.esi, r.ebp, r.esp, r.ebx, r.edx, r.ecx, r.eax,
     e.trap, e.err, r.eip, U16(e.cs), r.eflags, r.esp, U16(e.ss), base + 256, mask, e.cr2, mask]
  }

  /** `tail` is what the two words of the trampoline hold when it is not written. */
  function RtFrame(r: Regs, mask: nat, a: Action, sig: nat, e: Extra, base: nat,
                   alt: AltStack, onstack: bool, tail: seq<nat>): (ws: seq<nat>)
    requires |tail| == 2
    ensures |ws| == RT_WORDS && ws[41..64] == RtContext(r, mask, e, base)
  {
    var own := !(a.hasRestorer && a.restorer != 0);
    var flags := (if alt.disabled then 2 else 0) + (if onstack then 1 else 0);
    var head := [if own then base + 368 else a.restorer, sig, base + 16, base + 144]
                + Info(sig, e.info) + [0, 0, alt.sp, flags, alt.size];
    var rest := Zeros(28) + (if own then [0x0000adb8, 0x9080cd00] else tail);
    head + RtContext(r, mask, e, base) + rest
  }

  /** The registers sys_sigreturn reads from words 2 to 16. */
  function LegacyRegs(ws: seq<nat>): Regs
    requires |ws| == 15
  {
    Regs(ws[3], ws[4], ws[5], ws[6], ws[7], ws[8], ws[9], U16(ws[10]), U16(ws[11]), U16(ws[12]), U16(ws[13]),
         ws[0], ws[1], ws[2])
  }

  /** The registers sys_rt_sigreturn reads from words 41 to 63. */
  function RtRegs(ws: seq<nat>): Regs
    requires |ws| == 23
  {
    Regs(ws[11], ws[8], ws[10], ws[9], ws[5], ws[4], ws[6], U16(ws[3]), U16(ws[2]), U16(ws[1]), U16(ws[0]),
         ws[14], ws[16], ws[17])
  }

  function Parse(mem: Memory, at: int, rt: bool): Regs {
    if rt then RtRegs(Window(mem, at + 41, 23)) else LegacyRegs(Window(mem, at + 2, 15))
  }

  function ParseMask(mem: Memory, at: int, rt: bool): nat {
    if rt then Window(mem, at + 41, 23)[22] else Window(mem, at + 2, 15)[14]
  }

  lemma PokeWindow(mem: Memory, at: nat, words: seq<nat>, from: nat, n: nat)
    requires from + n <= |words|
    ensures Window(Poke(mem, at, words), at + from, n) == words[from..from + n]
  {
    var w := Window(Poke(mem, at, words), at + from, n);
    forall i | 0 <= i < n
      ensures w[i] == words[from..from + n][i]
    {
      PokeAt(mem, at, words, at + from + i);
    }
  }

  /** Parsing a printed legacy frame gives back the context and the mask. */
  lemma LegacyRoundTrip(mem: Memory, at: nat, r: Regs, mask: nat, a: Action, sig: nat, base: nat)
    requires Fits(r)
    ensures var m := Poke(mem, at, LegacyFrame(r, mask, a, sig, base));
            Parse(m, at, false) == r && ParseMask(m, at, false) == mask
  {
    PokeWindow(mem, at, LegacyFrame(r, mask, a, sig, base), 2, 15);
  }

  /** The same for the rt frame. */
  lemma RtRoundTrip(mem: Memory, at: nat, r: Regs, mask: nat, a: Action, sig: nat, e: Extra, base: nat,
                    alt: AltStack, onstack: bool, tail: seq<nat>)
    requires Fits(r) && |tail| == 2
    ensures var m := Poke(mem, at, RtFrame(r, mask, a, sig, e, base, alt, onstack, tail));
            Parse(m, at, true) == r && ParseMask(m, at, true) == mask
  {
    PokeWindow(mem, at, RtFrame(r, mask, a, sig, e, base, alt, onstack, tail), 41, 23);
  }

  // ----- the steps

  /** The mask a frame has to bring back: inside sigsuspend, the one before it. */
  function MaskToSave(t: Task): nat {
    if t.restoreMask then t.savedMask else t.mask
  }

  predicate SwitchesStack(t: Task, a: Action) {
    a.onstack && t.alt.Usable() && !t.onstack
  }

  /** resolve_sigstack and the alignment in i386_signal_deliver. */
  function FrameTop(t: Task, a: Action): nat {
    if SwitchesStack(t, a) then t.alt.sp + t.alt.size else t.regs.esp
  }

  function FrameBase(t: Task, a: Action): int {
    var low := FrameTop(t, a) - 4 * (if a.siginfo then RT_WORDS else LEGACY_WORDS);
    low - low % 16
  }

  function Frame(t: Task, a: Action, sig: nat, e: Extra, base: nat): seq<nat> {
    var on := t.onstack || SwitchesStack(t, a);
    if a.siginfo then
      RtFrame(t.regs, MaskToSave(t), a, sig, e, base, t.alt, on,
              [Peek(t.mem, base / 4 + 92), Peek(t.mem, base / 4 + 93)])
    else LegacyFrame(t.regs, MaskToSave(t), a, sig, base)
  }

  function HandlerMask(t: Task, a: Action, sig: nat): (r: nat)
    requires sig >= 1
  {
    Bits.Or(if a.nodefer then t.mask else Bits.Or(t.mask, Bits.Pow2(sig - 1)), a.mask)
  }

  /** Where sigreturn looks for the frame: below what the handler has popped. */
  function ReturnWord(t: Task, rt: bool): int {
    (t.regs.esp - if rt then 4 else 8) / 4
  }

  /** sigreturn and rt_sigreturn. */
  function Returned(t: Task, rt: bool): Task {
    var at := ReturnWord(t, rt);
    var r := Parse(t.mem, at, rt);
    t.(regs := r, mask := ParseMask(t.mem, at, rt),
       onstack := t.onstack && t.alt.Contains(r.esp))
  }

  /** The bytes of a live frame that a handler must leave alone. */
  predicate Protected(l: Live, k: int) {
    l.base + l.Consumed() <= 4 * k < l.Top()
  }

  /** What user code may do: anything to its registers and memory, except overwrite
      a live frame, leave its stack, or pop beyond the innermost frame. */
  ghost predicate UserAllowed(t: Task, r: Regs, mem: Memory) {
    && Fits(r)
    && t.alt.Contains(r.esp) == t.alt.Contains(t.regs.esp)
    && (t.live != [] ==> r.esp <= Last(t).base + Last(t).Consumed())
    && forall i, k :: 0 <= i < |t.live| && Protected(t.live[i], k) ==> Peek(mem, k) == Peek(t.mem, k)
  }

  function Last(t: Task): Live
    requires t.live != []
  {
    t.live[|t.live| - 1]
  }

  /** The new frame stays on its stack: above address zero, inside the alternate stack
      when it is used, and clear of it otherwise. */
  predicate Room(t: Task, a: Action) {
    var base, top := FrameBase(t, a), FrameTop(t, a);
    && base > 0 && top < WORD
    && (if SwitchesStack(t, a) || t.alt.Contains(t.regs.esp) then t.alt.sp <= base
        else t.alt.Clear(base, top))
  }

  ghost predicate Enabled(t: Task, step: Step) {
    match step
    case Deliver(a, sig, _) => 1 <= sig <= 32 && a.mask < WORD && a.handler < WORD && Room(t, a)
    case User(r, mem) => UserAllowed(t, r, mem)
    case SetMask(mask) => mask < WORD
    case Suspend(mask) => mask < WORD && !t.restoreMask
    case RestoreMask => true
    case Return => t.live != [] && t.regs.esp == Last(t).base + Last(t).Consumed()
  }

  ghost function Apply(t: Task, step: Step): Task
    requires Inv(t) && Enabled(t, step)
  {
    match step
    case Deliver(a, sig, e) =>
      var base := FrameBase(t, a);
      Task(t.regs.(eip := a.handler, esp := base),
           Poke(t.mem, base / 4, Frame(t, a, sig, e, base)),
           HandlerMask(t, a, sig), false, t.savedMask, t.alt,
           t.onstack || SwitchesStack(t, a),
           t.live + [Live(base, a.siginfo, t.regs, MaskToSave(t))])
    case User(r, mem) => t.(regs := r, mem := mem)
    case SetMask(mask) => t.(mask := mask)
    case Suspend(mask) => t.(mask := mask, restoreMask := true, savedMask := t.mask)
    case RestoreMask => t.(mask := MaskToSave(t), restoreMask := false)
    case Return => Returned(t, Last(t).rt).(live := t.live[..|t.live| - 1])
  }

  // ----- the invariant

  ghost predicate Intact(mem: Memory, l: Live) {
    && Parse(mem, l.base / 4, l.rt) == l.regs
    && ParseMask(mem, l.base / 4, l.rt) == l.mask
  }

  /** Frame j, delivered after frame i, lies on another stack or below what the handler
      of frame i may have consumed. */
  ghost predicate Apart(alt: AltStack, i: Live, j: Live) {
    || alt.Contains(i.base) != alt.Contains(j.base)
    || j.Top() <= i.base + i.Consumed()
  }

  ghost predicate Placed(alt: AltStack, l: Live) {
    && l.base % 16 == 0 && l.base > 0 && Fits(l.regs) && l.mask < WORD
    && (if alt.Contains(l.base) then l.Top() <= alt.sp + alt.size
        else alt.Clear(l.base, l.Top()))
  }

  /** The stack a frame's interrupted code was on is the one the previous frame is on, or
      the main stack if there is none. */
  ghost predicate Chained(t: Task, i: nat)
    requires i < |t.live|
  {
    && t.alt.Contains(t.live[i].regs.esp) == (i > 0 && t.alt.Contains(t.live[i - 1].base))
    && (i > 0 && t.alt.Contains(t.live[i - 1].base) ==> t.alt.Contains(t.live[i].base))
    && (i > 0 ==> t.live[i].regs.esp <= t.live[i - 1].base + t.live[i - 1].Consumed())
  }

  ghost predicate Inv(t: Task) {
    && Fits(t.regs) && t.mask < WORD && t.savedMask < WORD
    && t.alt.sp + t.alt.size < WORD
    && (forall i :: 0 <= i < |t.live| ==> Placed(t.alt, t.live[i]) && Intact(t.mem, t.live[i]))
    && (forall i: nat :: i < |t.live| ==> Chained(t, i))
    && (forall i, j :: 0 <= i < j < |t.live| ==> Apart(t.alt, t.live[i], t.live[j]))
    && (t.live != [] ==> t.regs.esp <= Last(t).base + Last(t).Consumed())
    && t.onstack == t.alt.Contains(t.regs.esp)
    && t.onstack == (t.live != [] && t.alt.Contains(Last(t).base))
  }

  ghost predicate Runs(t: Task, steps: seq<Step>, u: Task)
    decreases |steps|
  {
    if steps == [] then t == u
    else Inv(t) && Enabled(t, steps[0]) && Runs(Apply(t, steps[0]), steps[1..], u)
  }

  // ----- every step keeps the invariant

  /** A memory that agrees on the protected part of a frame still holds it. */
  lemma IntactKept(before: Memory, after: Memory, l: Live)
    requires Intact(before, l) && l.base % 16 == 0
    requires forall k :: Protected(l, k) ==> Peek(after, k) == Peek(before, k)
    ensures Intact(after, l)
  {
    hide RtRegs, LegacyRegs, Peek, Window, Protected;
    var at := l.base / 4;
    Quarter(l.base);
    if l.rt {
      WindowKept(before, after, l, at, 41, 23);
    } else {
      WindowKept(before, after, l, at, 2, 15);
    }
  }

  lemma WindowKept(before: Memory, after: Memory, l: Live, at: nat, from: nat, n: nat)
    requires 4 * at == l.base && l.Consumed() <= 4 * from && from + n <= l.Words()
    requires forall k :: Protected(l, k) ==> Peek(after, k) == Peek(before, k)
    ensures Window(after, at + from, n) == Window(before, at + from, n)
  {
    hide Peek;
    var a, b := Window(after, at + from, n), Window(before, at + from, n);
    forall i | 0 <= i < n
      ensures a[i] == b[i]
    {
      assert Protected(l, at + from + i);
    }
  }

  lemma Quarter(base: nat)
    requires base % 16 == 0
    ensures 4 * (base / 4) == base
  {
    var q := base / 16;
    assert base == 16 * q;
    Modular.Unique(base, 4, 4 * q, 0);
  }

  lemma NewFrameIntact(t: Task, a: Action, sig: nat, e: Extra)
    requires Inv(t) && Enabled(t, Deliver(a, sig, e))
    ensures var u := Apply(t, Deliver(a, sig, e)); Intact(u.mem, Last(u))
  {
    hide LegacyFrame, RtFrame, Parse, ParseMask, Poke, HandlerMask;
    var base := FrameBase(t, a);
    if a.siginfo {
      var tail := [Peek(t.mem, base / 4 + 92), Peek(t.mem, base / 4 + 93)];
      RtRoundTrip(t.mem, base / 4, t.regs, MaskToSave(t), a, sig, e, base, t.alt,
                  t.onstack || SwitchesStack(t, a), tail);
    } else {
      LegacyRoundTrip(t.mem, base / 4, t.regs, MaskToSave(t), a, sig, base);
    }
  }

  /** Printing a frame leaves a frame that lies clear of it intact. */
  lemma PokeKeepsIntact(mem: Memory, base: nat, words: seq<nat>, l: Live)
    requires Intact(mem, l) && l.base % 16 == 0 && base % 16 == 0
    requires l.Top() <= base || base + 4 * |words| <= l.base + l.Consumed()
    ensures Intact(Poke(mem, base / 4, words), l)
  {
    hide Poke, Peek, Intact;
    var at := base / 4;
    Quarter(base);
    var after := Poke(mem, at, words);
    forall k | Protected(l, k)
      ensures Peek(after, k) == Peek(mem, k)
    {
      PokeAt(mem, at, words, k);
    }
    IntactKept(mem, after, l);
  }

  /** A new frame overwrites only what the handlers below it have consumed. */
  lemma OldFramesIntact(t: Task, a: Action, sig: nat, e: Extra, i: nat)
    requires Inv(t) && Enabled(t, Deliver(a, sig, e)) && i < |t.live|
    ensures var u := Apply(t, Deliver(a, sig, e));
            Apart(t.alt, t.live[i], Last(u)) && Intact(u.mem, t.live[i])
  {
    hide Frame, FrameBase, Intact, Poke, HandlerMask, MaskToSave, SwitchesStack;
    NewFrameApart(t, a, i);
    PrintKeepsFrame(t, a, sig, e, i);
  }

  lemma PrintKeepsFrame(t: Task, a: Action, sig: nat, e: Extra, i: nat)
    requires Inv(t) && Room(t, a) && i < |t.live|
    ensures var base := FrameBase(t, a);
            Intact(Poke(t.mem, base / 4, Frame(t, a, sig, e, base)), t.live[i])
  {
    hide Frame, FrameBase, Intact, Poke, MaskToSave, SwitchesStack;
    NewFrameApart(t, a, i);
    assert Placed(t.alt, t.live[i]) && Intact(t.mem, t.live[i]);
    FrameAligned(t, a);
    FrameLength(t, a, sig, e, FrameBase(t, a));
    PokeKeepsIntact(t.mem, FrameBase(t, a), Frame(t, a, sig, e, FrameBase(t, a)), t.live[i]);
  }

  lemma FrameAligned(t: Task, a: Action)
    ensures FrameBase(t, a) % 16 == 0
  {
    hide FrameTop;
  }

  lemma FrameLength(t: Task, a: Action, sig: nat, e: Extra, base: nat)
    ensures |Frame(t, a, sig, e, base)| == if a.siginfo then RT_WORDS else LEGACY_WORDS
  {
    hide RtFrame, LegacyFrame, Peek;
  }

  lemma NewFrameApart(t: Task, a: Action, i: nat)
    requires Inv(t) && Room(t, a) && i < |t.live|
    ensures var j := Live(FrameBase(t, a), a.siginfo, t.regs, MaskToSave(t));
            && Apart(t.alt, t.live[i], j)
            && (t.live[i].Top() <= j.base || j.Top() <= t.live[i].base + t.live[i].Consumed())
  {
    assert Placed(t.alt, t.live[i]);
    if i < |t.live| - 1 {
      assert Apart(t.alt, t.live[i], Last(t));
      assert Placed(t.alt, Last(t));
    }
    StackOfFrames(t, i);
  }

  /** On the main stack every live frame is on the main stack. */
  lemma {:induction false} StackOfFrames(t: Task, i: nat)
    requires Inv(t) && i < |t.live|
    ensures t.alt.Contains(t.live[i].base) ==> t.onstack
    decreases |t.live| - i
  {
    if i < |t.live| - 1 {
      assert Chained(t, i + 1);
      StackOfFrames(t, i + 1);
    }
  }

  lemma DeliverKeeps(t: Task, a: Action, sig: nat, e: Extra)
    requires Inv(t) && Enabled(t, Deliver(a, sig, e))
    ensures Inv(Apply(t, Deliver(a, sig, e)))
  {
    hide LegacyFrame, RtFrame, Parse, ParseMask, Poke, HandlerMask;
    var u := Apply(t, Deliver(a, sig, e));
    var n := |t.live|;
    NewFrameIntact(t, a, sig, e);
    HandlerMaskFits(t, a, sig);
    forall i | 0 <= i < |u.live|
      ensures Placed(u.alt, u.live[i]) && Intact(u.mem, u.live[i])
    {
      if i < n { OldFramesIntact(t, a, sig, e, i); }
    }
    forall i: nat | i < |u.live|
      ensures Chained(u, i)
    {
      if i < n { assert Chained(t, i); }
    }
    forall i, j | 0 <= i < j < |u.live|
      ensures Apart(u.alt, u.live[i], u.live[j])
    {
      if j == n { OldFramesIntact(t, a, sig, e, i); }
    }
  }

  lemma UserKeeps(t: Task, r: Regs, mem: Memory)
    requires Inv(t) && Enabled(t, User(r, mem))
    ensures Inv(Apply(t, User(r, mem)))
  {
    hide Parse, ParseMask;
    var u := Apply(t, User(r, mem));
    forall i | 0 <= i < |t.live|
      ensures Intact(mem, t.live[i])
    {
      assert Placed(t.alt, t.live[i]);
      IntactKept(t.mem, mem, t.live[i]);
    }
    forall i: nat | i < |u.live|
      ensures Chained(u, i)
    {
      assert Chained(t, i);
    }
  }

  lemma MaskKeeps(t: Task, step: Step)
    requires Inv(t) && Enabled(t, step) && (step.SetMask? || step.Suspend? || step.RestoreMask?)
    ensures Inv(Apply(t, step))
  {
    hide Parse, ParseMask, Placed, Intact;
    var u := Apply(t, step);
    forall i: nat | i < |u.live|
      ensures Chained(u, i)
    {
      assert Chained(t, i);
    }
  }

  /** A return finds the innermost frame and brings back what it saved. */
  lemma ReturnFindsFrame(t: Task)
    requires Inv(t) && Enabled(t, Return)
    ensures Apply(t, Return).regs == Last(t).regs && Apply(t, Return).mask == Last(t).mask
    ensures t.onstack ==> t.alt.Usable()
  {
    hide Parse, ParseMask;
    assert Placed(t.alt, Last(t)) && Intact(t.mem, Last(t));
  }

  lemma ReturnKeeps(t: Task)
    requires Inv(t) && Enabled(t, Return)
    ensures Inv(Apply(t, Return))
  {
    hide Parse, ParseMask, Inv;
    ReturnFindsFrame(t);
    PoppedKeeps(t, Apply(t, Return));
  }

  /** Dropping the innermost frame and going back to what it saved. */
  lemma PoppedKeeps(t: Task, u: Task)
    requires Inv(t) && t.live != []
    requires u.mem == t.mem && u.alt == t.alt && u.savedMask == t.savedMask
    requires u.regs == Last(t).regs && u.mask == Last(t).mask && u.live == t.live[..|t.live| - 1]
    requires u.onstack == (t.onstack && t.alt.Contains(Last(t).regs.esp))
    ensures Inv(u)
  {
    hide Intact, Apart, Fits, AltStack.Contains, Live.Consumed;
    var n := |t.live| - 1;
    assert Placed(t.alt, Last(t)) && Chained(t, n);
    forall i: nat | i < |u.live|
      ensures Chained(u, i) && Placed(u.alt, u.live[i]) && Intact(u.mem, u.live[i])
    {
      assert Chained(t, i) && u.live[i] == t.live[i];
    }
  }

  lemma StepKeeps(t: Task, step: Step)
    requires Inv(t) && Enabled(t, step)
    ensures Inv(Apply(t, step))
  {
    hide Inv, Apply, Enabled;
    match step
    case Deliver(a, sig, e) => DeliverKeeps(t, a, sig, e);
    case User(r, mem) => UserKeeps(t, r, mem);
    case Return => ReturnKeeps(t);
    case _ => MaskKeeps(t, step);
  }

  /** Every run keeps the invariant, so SS_ONSTACK is set exactly while the user stack
      pointer is inside the alternate stack, and every pending frame is still intact. */
  lemma {:induction false} RunKeeps(t: Task, steps: seq<Step>, u: Task)
    requires Inv(t) && Runs(t, steps, u)
    ensures Inv(u)
    ensures u.onstack <==> u.alt.Contains(u.regs.esp)
    decreases |steps|
  {
    if steps != [] {
      StepKeeps(t, steps[0]);
      RunKeeps(Apply(t, steps[0]), steps[1..], u);
    }
  }

  // ----- properly nested runs

  /** A run that never returns past the frames that were live at depth d. */
  ghost predicate RunsAbove(t: Task, steps: seq<Step>, u: Task, d: nat)
    decreases |steps|
  {
    && |t.live| >= d
    && if steps == [] then t == u
       else Inv(t) && Enabled(t, steps[0]) && RunsAbove(Apply(t, steps[0]), steps[1..], u, d)
  }

  lemma StepKeepsBelow(t: Task, step: Step, d: nat)
    requires Inv(t) && Enabled(t, step) && |t.live| >= d && |Apply(t, step).live| >= d
    ensures Apply(t, step).live[..d] == t.live[..d] && Apply(t, step).alt == t.alt
  {
  }

  /** Such a run leaves those frames as they were. */
  lemma {:induction false} FramesBelowKept(t: Task, steps: seq<Step>, u: Task, d: nat)
    requires Inv(t) && RunsAbove(t, steps, u, d)
    ensures Inv(u) && |u.live| >= d && u.live[..d] == t.live[..d] && u.alt == t.alt
    decreases |steps|
  {
    hide Inv, Enabled, Apply;
    if steps != [] {
      StepKeeps(t, steps[0]);
      StepKeepsBelow(t, steps[0], d);
      FramesBelowKept(Apply(t, steps[0]), steps[1..], u, d);
    }
  }

  /** Any properly nested body between a delivery and its return, with any number of
      further deliveries and returns inside it: the return restores exactly the general,
      segment, flags, instruction and stack registers that were interrupted, the mask
      that was in force (the one before sigsuspend when one was pending), and the
      alternate-stack flag. */
  lemma NestedReturnRestores(t: Task, a: Action, sig: nat, e: Extra, body: seq<Step>, u: Task)
    requires Inv(t) && Enabled(t, Deliver(a, sig, e))
    requires RunsAbove(Apply(t, Deliver(a, sig, e)), body, u, |t.live| + 1)
    requires |u.live| == |t.live| + 1 && Inv(u) && Enabled(u, Return)
    ensures var v := Apply(u, Return);
            && v.regs == t.regs
            && v.mask == (if t.restoreMask then t.savedMask else t.mask)
            && v.live == t.live
            && v.onstack == t.onstack
  {
    hide Parse, ParseMask, Frame, Poke, HandlerMask;
    var h := Apply(t, Deliver(a, sig, e));
    DeliverKeeps(t, a, sig, e);
    FramesBelowKept(h, body, u, |t.live| + 1);
    assert u.live == h.live;
    ReturnFindsFrame(u);
    ReturnKeeps(u);
  }

  lemma HandlerMaskFits(t: Task, a: Action, sig: nat)
    requires t.mask < WORD && a.mask < WORD && 1 <= sig <= 32
    ensures HandlerMask(t, a, sig) < WORD
  {
    Bits.Pow2Values();
    Bits.Pow2Monotone(sig - 1, 32);
    Bits.OrBounded(t.mask, Bits.Pow2(sig - 1), 32);
    Bits.OrBounded(if a.nodefer then t.mask else Bits.Or(t.mask, Bits.Pow2(sig - 1)), a.mask, 32);
  }

  /** While the handler runs, its mask blocks exactly what was blocked before, what the
      action's mask blocks and, unless SA_NODEFER is set, the signal itself. */
  lemma HandlerBlocks(t: Task, a: Action, sig: nat, other: nat)
    requires sig >= 1 && other >= 1
    ensures Bits.Has(HandlerMask(t, a, sig), other - 1) <==>
            Bits.Has(t.mask, other - 1) || Bits.Has(a.mask, other - 1) || (other == sig && !a.nodefer)
  {
    var i := other - 1;
    Bits.Pow2Has(sig - 1, i);
    Bits.OrHas(t.mask, Bits.Pow2(sig - 1), i);
    Bits.OrHas(if a.nodefer then t.mask else Bits.Or(t.mask, Bits.Pow2(sig - 1)), a.mask, i);
  }

  // ----- the kernel code

  class Process {
    var regs: Regs
    var mem: Memory
    var mask: nat
    var restoreMask: bool
    var savedMask: nat
    var alt: AltStack
    var onstack: bool
    ghost var live: seq<Live>

    constructor (regs: Regs, mem: Memory, mask: nat, alt: AltStack)
      requires Fits(regs) && mask < WORD && alt.sp + alt.size < WORD && !alt.Contains(regs.esp)
      ensures Inv(View()) && View() == Task(regs, mem, mask, false, 0, alt, false, [])
    {
      this.regs, this.mem, this.mask, this.alt := regs, mem, mask, alt;
      restoreMask, savedMask, onstack, live := false, 0, false, [];
    }

    ghost function View(): Task
      reads this
    {
      Task(regs, mem, mask, restoreMask, savedMask, alt, onstack, live)
    }

    /** Copies `words` to user memory from word `at` on. */
    method CopyToUser(at: nat, words: seq<nat>)
      modifies this`mem
      ensures mem == Poke(old(mem), at, words)
    {
      var i := 0;
      while i < |words|
        invariant 0 <= i <= |words|
        invariant Poke(mem, at + i, words[i..]) == Poke(old(mem), at, words)
      {
        assert words[i..][1..] == words[i + 1..];
        mem := mem[at + i := words[i]];
        i := i + 1;
      }
    }

    method ResolveStack(a: Action) returns (top: nat)
      modifies this`onstack
      ensures top == old(FrameTop(View(), a))
      ensures onstack == old(onstack || SwitchesStack(View(), a))
    {
      if a.onstack && alt.sp != 0 && !alt.disabled && !onstack {
        onstack := true;
        return alt.sp + alt.size;
      }
      return regs.esp;
    }

    /** i386_signal_deliver */
    method Deliver(a: Action, sig: nat, e: Extra)
      requires Inv(View()) && Enabled(View(), Step.Deliver(a, sig, e))
      modifies this
      ensures Inv(View()) && View() == Apply(old(View()), Step.Deliver(a, sig, e))
    {
      hide Poke, Peek, LegacyFrame, RtFrame, Inv, Room, Bits.Or, Bits.Pow2;
      DeliverKeeps(View(), a, sig, e);
      ghost var before := View();
      var top := ResolveStack(a);
      var low := top - 4 * if a.siginfo then RT_WORDS else LEGACY_WORDS;
      var base: nat := low - low % 16;
      var saved := if restoreMask then savedMask else mask;
      if a.siginfo {
        CopyToUser(base / 4, RtFrame(regs, saved, a, sig, e, base, alt, onstack,
                                     [Peek(mem, base / 4 + 92), Peek(mem, base / 4 + 93)]));
      } else {
        CopyToUser(base / 4, LegacyFrame(regs, saved, a, sig, base));
      }
      restoreMask := false;
      live := live + [Live(base, a.siginfo, regs, saved)];
      if !a.nodefer {
        mask := Bits.Or(mask, Bits.Pow2(sig - 1));
      }
      mask := Bits.Or(mask, a.mask);
      regs := regs.(eip := a.handler, esp := base);
      assert View() == Apply(before, Step.Deliver(a, sig, e));
    }

    /** sys_sigreturn (rt == false) and sys_rt_sigreturn: the result is the restored eax. */
    method SigReturn(rt: bool) returns (eax: nat)
      requires Inv(View()) && Enabled(View(), Return) && rt == Last(View()).rt
      modifies this`regs, this`mask, this`onstack, this`live
      ensures Inv(View()) && View() == Apply(old(View()), Return)
      ensures regs == old(Last(View()).regs) && eax == regs.eax
    {
      hide Inv, Parse, ParseMask;
      ReturnKeeps(View());
      ReturnFindsFrame(View());
      var at := (regs.esp - if rt then 4 else 8) / 4;
      regs := Parse(mem, at, rt);
      mask := ParseMask(mem, at, rt);
      if onstack {
        if regs.esp < alt.sp || regs.esp >= alt.sp + alt.size {
          onstack := false;
        }
      }
      live := live[..|live| - 1];
      return regs.eax;
    }
  }
}
