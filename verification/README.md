# Verified models of MOS device, driver and ABI code

This project models thirteen parts of the MOS kernel in Dafny and proves what they are
for.  Each part has two layers: specification functions or a step machine on values, and,
where the C code works by changing memory, a class or methods with loops over arrays whose
contracts tie the new state to that specification.  Theorems about whole runs are stated
on the step machine; the methods are shown to perform exactly its steps.

| file | what it models |
|---|---|
| E1000Rx | the receive ring of the Intel e1000: NIC, interrupt drain and network stack share 256 descriptors (section 3.2.6 of the Intel PCI/PCI-X Family of Gigabit Ethernet Controllers Software Developer's Manual gives the hardware side) |
| PcmRefine, PcmBox, PcmPrime, PcmChoice | the ALSA hardware-parameter solver: intervals for period, buffer, bytes and durations; a request it wrongly accepts; the configuration HW_PARAMS takes |
| PcmRing | the ALSA playback ring with pointers modulo a boundary |
| I386Signal | i386 signal frames: delivery, nested handlers, alternate stack, both returns |
| UsbParse, UsbAccept, UsbDevice | the USB configuration parser (sections 9.6.3, 9.6.5 and 9.6.6 of the USB 2.0 specification), the exact set of configurations it accepts, and switching alternate settings with rollback (section 9.4.10) |
| BlockDev | the block-device table: registration, binding, reference-counted handles, deferred release |
| ElfReader, ElfStack | in-place widening of program headers; the initial process stack (section 3.4.1 of the System V ABI AMD64 Architecture Processor Supplement) |
| I8042 | the PS/2 controller's shared input stream, interrupts against command transactions |
| PciScan | recursive bus discovery over bridges |
| Framebuffer, Console | overlap-safe rectangle copy and fill; inserting and deleting text lines with them |
| Slots | the two-level bitmap slot allocator |
| Ahci | SATA commands: FIS encoding, request splitting, TRIM ranges, and the data that reaches the medium |
| Bits, Bytes, Modular, Wrappers | machine words and their bits, little-endian strings, remainders, optional results |

Integers are unbounded in the models; where the C code relies on or guards against a
machine width (32-bit interval arithmetic, `unsigned long` pointers, 16-bit cookies,
64-bit bitmap words, FIS fields) the width is written out.  Hardware and callees outside
the modelled code are inputs: packets on the wire, what the network stack or a host
controller answers, what user code does between signals, how a disk command ends.  Locks
make the code they protect one step.

Properties one might expect that are false of the code are stated as they are:

- The parameter solver moves open interval ends inward by a whole unit.  For integer
  parameters nothing is lost; a duration within a microsecond of an open end is
  (InwardLosesDurations, and RefineKeepsRequestedIff for exactly when).
- The comment on the propagation loop speaks of a fixed point; the code runs eight passes,
  which need not reach one, and may accept a request that nothing satisfies
  (AcceptsWithoutConfiguration).  It does so exactly when a later pass would refuse
  (AcceptedInVainIff; SolvableIff bounds the passes that decide), and never when the period
  or the count is pinned (RefineDecidesPinned).
- HW_PARAMS takes the shortest period and the shortest buffer of the refined request, which
  together need not be a configuration (AtLeastIff for a family of requests, and
  ChoiceIsConfigurationIff for exactly when), and may refuse a request that is permitted
  (RefusesPermitted, and ChoiceRefusedIff for exactly when).
- REWIND advances a pointer by the boundary less the distance.  At boundaries above half of
  `unsigned long`, which SW_PARAMS accepts, that sum wraps and queued frames are lost
  (RewindLosesFrames, and AllRunsFifoIff for exactly when).  FORWARD fails in the same way at
  boundaries within one ring of the word (RunsWithoutRewindFifoIff).
- A boundary equal to the ring, which SW_PARAMS also accepts, makes a full ring read as
  empty, and unplayed frames are overwritten (FullRingOverwritten, and PlainRunsFifoIff for
  exactly when).
- Block-device names are stored in 31 characters but looked up in full, so a longer name
  registered twice gives two devices (LongNameTwice, and RegisterKeepsNamesIff for exactly
  when names stay unique).

## Model

| member | source | states |
|---|---|---|
| E1000Rx.RingCounters | src/driver/net/intel_nic_e1000.c:161-224 | in every interleaving of NIC fills, drains and out-of-order returns: returned <= taken <= filled <= returned + 255, and head, RDH, RDT and rx_cur are those counters modulo 256 |
| E1000Rx.FillIsSafe | src/driver/net/intel_nic_e1000.c:161-224 | the descriptor the NIC writes next is never held by the stack, never waiting to be returned, never finished and unread |
| E1000Rx.HeldBuffersKeepTheirFrame | src/driver/net/intel_nic_e1000.c:165-199 | a buffer lent to the stack still holds the frame it was lent with, until it comes back |
| E1000Rx.TakenInOrder | src/driver/net/intel_nic_e1000.c:165-223 | every filled frame is taken once and in fill order; descriptors go back in ring order for any order of returns |
| E1000Rx.NothingStranded | src/driver/net/intel_nic_e1000.c:209-223 | once the stack has returned everything, every taken descriptor is back with the NIC |
| E1000Rx.ReclaimLoopProgress | src/driver/net/intel_nic_e1000.c:187-195 | each iteration of the reclaim loop returns one of finitely many taken descriptors, so the loop ends |
| E1000Rx.OldestIsHeld | src/driver/net/intel_nic_e1000.c:186-199 | outside the reclaim loop nothing returnable waits: the oldest unreturned descriptor is still lent out |
| E1000Rx.DrainStopsWhenCaughtUp | src/driver/net/intel_nic_e1000.c:165-169 | the status bit the drain tests is clear exactly when every filled frame has been taken |
| E1000Rx.RunKeeps | src/driver/net/intel_nic_e1000.c:161-224 | the ownership invariant survives every sequence of steps of the three parties |
| E1000Rx.StepKeeps | src/driver/net/intel_nic_e1000.c:161-224 | each single step keeps who owns which descriptor, the counters and the frame history |
| E1000Rx.InitInv | src/driver/net/intel_nic_e1000.c:375-391 | the state after initialisation satisfies the ownership invariant |
| E1000Rx.Nic.constructor | src/driver/net/intel_nic_e1000.c:375-391 | initialisation leaves the state the runs start from |
| E1000Rx.Nic.TakeOne | src/driver/net/intel_nic_e1000.c:165-186 | one drained descriptor is the take step of the run machine, whatever the stack answers |
| E1000Rx.Nic.ReturnOne | src/driver/net/intel_nic_e1000.c:187-195 | one iteration of the reclaim loop is a pump step: RDT moves onto the oldest descriptor |
| E1000Rx.Nic.ReturnReady | src/driver/net/intel_nic_e1000.c:187-196 | the reclaim loop ends with the oldest descriptor not returnable, for any packets that arrive meanwhile |
| E1000Rx.Nic.HandleRx | src/driver/net/intel_nic_e1000.c:161-201 | the drain terminates for any arrivals, reaches only states of runs, and leaves every filled frame taken |
| E1000Rx.Nic.RxReclaim | src/driver/net/intel_nic_e1000.c:203-224 | a return takes exactly that buffer back from the stack, ignores cookies beyond the ring, and leaves nothing returnable waiting |
| PcmRefine.RefinePreservesConfigurations | src/driver/audio/alsa.c:242-292 | a configuration (period, count) is in the returned intervals if and only if the request, with open ends moved inward, and the device limits permit it; refusal means there is none |
| PcmRefine.RefineKeepsRequestedIff | src/driver/audio/alsa.c:198-292 | a configuration inside the request and the limits survives exactly when neither of its durations lies within a microsecond of an open end; with closed ends none is lost |
| PcmRefine.RefineShrinks | src/driver/audio/alsa.c:242-292 | every returned interval lies inside the requested one and inside the device limits |
| PcmRefine.RefineDecidesPinned | src/driver/audio/alsa.c:242-292 | a request that pins the period or the count is accepted if and only if some configuration is permitted |
| PcmRefine.SolvableIff | src/driver/audio/alsa.c:242-292 | a request has a configuration if and only if the limits table succeeds and one pass more than the sum of the interval widths empties nothing |
| PcmRefine.AcceptedInVainIff | src/driver/audio/alsa.c:260-284 | a request the eight passes accept has no configuration if and only if some later pass would refuse it |
| PcmRefine.StableAnswerSolves | src/driver/audio/alsa.c:260-284 | when one more pass leaves the returned bounds alone, the shortest period with the largest count is a permitted configuration |
| PcmPrime.AcceptsWithoutConfiguration | src/driver/audio/alsa.c:260-284 | counterexample: the limits everywhere and a buffer of 1009 frames are accepted though no period and count make it up; the eight passes have not reached a fixed point, since a ninth narrows further and the eleventh would refuse |
| PcmBox.NextIsRule | src/driver/audio/alsa.c:262-283 | a rule on a box of seven intervals is the rule on the parameter block, including when it refuses |
| PcmBox.ThroughIsPropagated | src/driver/audio/alsa.c:262-283 | the rules of a pass on a box are those of the parameter block, up to the first that refuses |
| PcmBox.LagPass | src/driver/audio/alsa.c:260-284 | what one pass makes of a request that constrains counts and buffers, in closed form |
| PcmChoice.ChoiceIsConfigurationIff | src/driver/audio/alsa.c:327-328 | HW_PARAMS takes the shortest period and the shortest buffer left; that is a permitted configuration if and only if the one divides the other and the quotient is a count left |
| PcmChoice.ChoiceRefusedIff | src/driver/audio/alsa.c:327-332 | a refined request is refused by the test on the choice if and only if two periods are all that is left and the shortest buffer is odd |
| PcmChoice.AtLeastIff | src/driver/audio/alsa.c:317-364 | asking for a buffer of at least m frames gets a period of 48 and a buffer of m; two periods of half the length are always permitted, yet the choice is a configuration only when 48 divides m |
| PcmChoice.RefusesPermitted | src/driver/audio/alsa.c:323-332 | counterexample: 2 to 9 periods and a buffer of 997 or 998 frames permit two periods of 499, but HW_PARAMS returns -EINVAL |
| PcmChoice.Install | src/driver/audio/alsa.c:317-364 | HW_PARAMS on a running stream is -EBUSY and changes nothing; otherwise it succeeds exactly when refinement does and the shortest buffer holds two of the shortest periods, and every interval is then fixed to the value of that choice; the second test on it never fires, and a refused choice stays in the device |
| PcmChoice.ReportAll | src/driver/audio/alsa.c:335-363 | the loop fixes all twelve parameters to the values of the chosen period and buffer |
| PcmRefine.PropagationKeepsSolution | src/driver/audio/alsa.c:260-284 | no number of propagation rules loses a configuration or empties an interval that has one |
| PcmRefine.RuleKeepsSolution | src/driver/audio/alsa.c:262-283 | each of the eleven propagation rules, divisions and products included, keeps every configuration |
| PcmRefine.PropagationShrinks | src/driver/audio/alsa.c:260-284 | intervals only ever narrow, and never leave the limits, as rules are applied |
| PcmRefine.TableKeepsSolutions | src/driver/audio/alsa.c:248-258 | applying the limits table keeps exactly the permitted configurations |
| PcmRefine.TableFailureIsReal | src/driver/audio/alsa.c:248-258 | the table step fails only when no configuration is permitted |
| PcmRefine.LimitIsIntersection | src/driver/audio/alsa.c:198-232 | limiting an interval yields exactly its intersection with the bounds, for integers and exact fractions |
| PcmRefine.InwardLosesDurations | src/driver/audio/alsa.c:198-292 | counterexample: the limits with a period above 1020 microseconds ask for 49 frames (1020.83 microseconds) with any count, and refinement drops every such configuration |
| PcmRefine.NoWrap | src/driver/audio/alsa.c:260-284 | inside the limits no rule divides by zero and no 32-bit operation wraps |
| PcmRefine.HwParams.IntervalLimit | src/driver/audio/alsa.c:198-232 | the in-place update succeeds exactly when the intersection is non-empty, stores it, marks the parameter changed and touches no other interval |
| PcmRefine.HwParams.MaskLimit | src/driver/audio/alsa.c:233-241 | the mask becomes its intersection with the permitted codes; empty is an error |
| PcmRefine.HwParams.ApplyTable | src/driver/audio/alsa.c:248-258 | the table loop computes the table step or stops where it fails |
| PcmRefine.HwParams.Passes | src/driver/audio/alsa.c:260-284 | eight passes of eleven in-place updates compute the propagation, or fail where it fails |
| PcmRefine.HwParams.Refine | src/driver/audio/alsa.c:242-292 | returns 0 exactly when masks and intervals can be refined; then the block holds the refined intervals and masks |
| PcmRing.PlaybackIsFifo | src/driver/audio/alsa.c:63-170 | at every boundary that is a multiple of the ring and larger than it, every run from PREPARE of writes, worker iterations, updates, state changes and further PREPAREs keeps completed <= submitted <= written <= completed + frames, and the backend received exactly a prefix of what was written; FORWARD may be added where boundary + frames fits the word, REWIND where twice the boundary does |
| PcmRing.PlainRunsFifoIff | src/driver/audio/alsa.c:63-170 | all runs without REWIND and FORWARD are a FIFO if and only if the boundary exceeds the ring |
| PcmRing.FullRingOverwritten | src/driver/audio/alsa.c:74-79 | counterexample: at a boundary equal to the ring, a whole ring of frames and one more are written and drained; the backend receives the last frame first and the others are no longer queued |
| PcmRing.AllRunsFifoIff | src/driver/audio/alsa.c:495-518 | all runs from PREPARE, REWIND included, are a FIFO if and only if the boundary exceeds the ring and twice the boundary fits the word; otherwise a run of START, writes and worker iterations reaches a step that breaks it |
| PcmRing.RunsWithoutRewindFifoIff | src/driver/audio/alsa.c:510-518 | all runs without REWIND are a FIFO if and only if the boundary exceeds the ring and boundary + frames fits the word |
| PcmRing.RewindLosesFrames | src/driver/audio/alsa.c:495-509 | counterexample: ring 96, boundary 4294967232, 96 frames written, REWIND by 0: 32 frames are left queued |
| PcmRing.StepKeepsIff | src/driver/audio/alsa.c:63-170 | each step keeps the stream consistent if and only if it is not a REWIND or FORWARD whose sum in pcm_advance leaves the word |
| PcmRing.RunKeeps | src/driver/audio/alsa.c:63-170 | ring contents, counters and wrapped pointers stay consistent over every run whose REWIND and FORWARD steps the boundary leaves room for |
| PcmRing.WriteKeeps | src/driver/audio/alsa.c:543-568 | an attempt to write keeps them at every boundary, across the end of the ring |
| PcmRing.WorkKeeps | src/driver/audio/alsa.c:117-170 | a worker iteration keeps them, for every answer of the backend |
| PcmRing.RewindKeepsIff | src/driver/audio/alsa.c:495-509 | taking back unsubmitted frames keeps them if and only if the sum in pcm_advance fits the word or the boundary divides its range |
| PcmRing.ForwardKeepsIff | src/driver/audio/alsa.c:510-518 | skipping over free slots likewise |
| PcmRing.LoadedIsStream | src/driver/audio/alsa.c:136-144 | the two copies around the end of the ring read exactly the next frames of the stream |
| PcmRing.DistanceExact | src/driver/audio/alsa.c:63-67 | the distance of wrapped pointers is the distance of the counters |
| PcmRing.DistanceExactIff | src/driver/audio/alsa.c:63-67 | every fill level is recovered exactly when the boundary exceeds the ring; with boundary == frames a full ring reads as empty |
| PcmRing.AdvanceExactIff | src/driver/audio/alsa.c:68-72 | advancing a pointer is exact if and only if the sum fits the word or the boundary divides the word's range |
| PcmRing.RetreatExactIff | src/driver/audio/alsa.c:505-506 | advancing by boundary - n moves back by n if and only if the sum fits the word or the boundary divides its range |
| PcmRing.WithinRingFits | src/driver/audio/alsa.c:545-549 | a write stops at the end of the ring, so its sum in pcm_advance never exceeds the boundary |
| PcmRing.Boundary | src/driver/audio/alsa.c:365-367 | the boundary chosen by HW_PARAMS is a multiple of the ring, larger than it, and its double fits the word, for both word sizes |
| PcmRing.Stream.SwParams | src/driver/audio/alsa.c:378-390 | SW_PARAMS takes any multiple of the ring as the boundary and refuses everything else unchanged; the stream stays consistent if and only if the boundary exceeds the ring |
| PcmRing.Stream.Prepare | src/driver/audio/alsa.c:443-446 | PREPARE is the restart step and gives the state the runs start from |
| PcmRing.Stream.Update | src/driver/audio/alsa.c:85-99 | the position update is the update step, and keeps the invariant |
| PcmRing.Stream.WriteSome | src/driver/audio/alsa.c:543-568 | one attempt copies as many frames as fit before the end of the ring and appends exactly those to the stream |
| PcmRing.Stream.WriteFrames | src/driver/audio/alsa.c:522-574 | WRITEI, blocking or not and whatever other tasks do while it sleeps, is a run of the step machine; it stops for the stated reason (all written, no buffer, access by mapping, an underrun, a state that forbids writing, a full ring on a non-blocking file, a signal), the error is that of the reason, and 0 once anything was written; when no other task touches the application's side it appends exactly a prefix of the buffer |
| PcmRing.Stream.Perform | src/driver/audio/alsa.c:113-170 | a step of the worker or of another task (query, write, REWIND, FORWARD, PREPARE, state change) while a writer sleeps is that step of the run machine, and the stream stays consistent |
| PcmRing.Stream.Submit | src/driver/audio/alsa.c:133-157 | the worker's hand-over is the answer step for every reply |
| PcmRing.Stream.Transfer | src/driver/audio/alsa.c:124-170 | the running or draining branch of the worker is the transfer step |
| PcmRing.Stream.Worker | src/driver/audio/alsa.c:117-170 | one iteration of pcm_worker is the work step of the run machine |
| PcmRing.Stream.Rewind | src/driver/audio/alsa.c:495-509 | REWIND takes back min(requested, unsubmitted) frames from the end of the stream; the stream stays valid if and only if the sum in pcm_advance fits |
| PcmRing.Stream.Forward | src/driver/audio/alsa.c:510-518 | FORWARD skips min(requested, free) frames and queues what the slots hold; the stream stays valid if and only if the sum in pcm_advance fits |
| I386Signal.NestedReturnRestores | arch/abi/i386/signal.c:135-219 | after a delivery and any properly nested body of further deliveries and returns, the return restores the interrupted registers, the mask (the one before sigsuspend if pending) and the alternate-stack flag |
| I386Signal.RunKeeps | arch/abi/i386/signal.c:135-403 | over every run SS_ONSTACK is set exactly while the user stack pointer is inside the alternate stack, and every pending frame is intact |
| I386Signal.DeliverKeeps | arch/abi/i386/signal.c:260-403 | a delivery overwrites no pending frame and leaves its own frame parseable |
| I386Signal.ReturnFindsFrame | arch/abi/i386/signal.c:135-219 | a return finds the innermost frame and brings back the registers and mask it saved |
| I386Signal.FramesBelowKept | arch/abi/i386/signal.c:135-403 | a run that stays above a frame leaves all older frames as they were |
| I386Signal.LegacyRoundTrip | arch/abi/i386/signal.c:334-367 | parsing a printed legacy frame gives back the context and the mask |
| I386Signal.RtRoundTrip | arch/abi/i386/signal.c:260-332 | parsing a printed rt frame gives back the context and the mask |
| I386Signal.HandlerBlocks | arch/abi/i386/signal.c:369-403 | the handler's mask blocks exactly what was blocked, what the action blocks and, without SA_NODEFER, the signal itself |
| I386Signal.Process.ResolveStack | arch/abi/i386/signal.c:246-257 | the stack is switched exactly for SA_ONSTACK with a usable alternate stack that is not in use |
| I386Signal.Process.Deliver | arch/abi/i386/signal.c:369-403 | delivery is the deliver step of the run machine |
| I386Signal.Process.SigReturn | arch/abi/i386/signal.c:135-219 | both returns are the return step and yield the restored eax |
| UsbParse.ParseSound | src/device/usb/usb.c:68-180 | acceptance of any byte string: windows tile it from the first interface descriptor to the end, each setting has exactly its declared endpoints at distinct addresses, interface and setting numbers are unique, as many interfaces as declared, setting 0 active everywhere |
| UsbAccept.ParsesIff | src/device/usb/usb.c:51-180 | the whole of parse_interfaces succeeds if and only if the bytes are in order and the endpoints of the default settings, in order of first appearance, are at most 30 with distinct addresses |
| UsbAccept.AcceptsIff | src/device/usb/usb.c:68-179 | up to the collection of the endpoints a configuration is accepted if and only if its bytes are in order and its settings can be allocated: a condition on the bytes alone, without parser state |
| UsbAccept.CollectsDefaults | src/device/usb/usb.c:170-180 | the endpoints collected are those the bytes give for setting 0 of each interface |
| UsbAccept.StepIff | src/device/usb/usb.c:121-162 | inside a setting the loop goes on exactly when the descriptor is fine after the endpoints before it |
| UsbAccept.OpenIff | src/device/usb/usb.c:82-120 | an interface descriptor is accepted exactly when the setting before it is full, there is room, and its pair of numbers is new |
| UsbAccept.ScanShows | src/device/usb/usb.c:74-164 | what an accepted prefix has shown about every descriptor in it |
| UsbAccept.ReadsToTheEnd | src/device/usb/usb.c:74-164 | a configuration in order is read to the end, and its settings start where its interface descriptors are |
| UsbAccept.FinishIff | src/device/usb/usb.c:165-179 | the tests after the loop pass exactly when the last setting is full, the interface count matches and every interface has setting 0 |
| UsbParse.ScanKeeps | src/device/usb/usb.c:74-164 | the descriptor loop keeps the parsing invariant to the end of any accepted input |
| UsbParse.StepKeeps | src/device/usb/usb.c:74-164 | each descriptor keeps the parsing invariant |
| UsbParse.Extend | src/device/usb/usb.c:74-164 | reading one more descriptor extends the window's endpoints by what that descriptor says |
| UsbDevice.Parser.Walk | src/device/usb/usb.c:74-164 | the imperative loop terminates on every input and computes the scan or its error |
| UsbDevice.Parser.InterfaceDescriptor | src/device/usb/usb.c:82-120 | the interface branch computes the interface step, with its error codes |
| UsbDevice.Parser.EndpointDescriptor | src/device/usb/usb.c:121-147 | the endpoint branch computes the endpoint step |
| UsbDevice.Parser.CompanionDescriptor | src/device/usb/usb.c:148-162 | the companion branch computes the companion step |
| UsbDevice.Device.CollectEndpoints | src/device/usb/usb.c:51-67 | collects the active settings' endpoints in order, or reports the first excess or duplicate |
| UsbDevice.CollectableIff | src/device/usb/usb.c:51-67 | collection succeeds exactly when the endpoints fit and have distinct addresses |
| UsbDevice.Device.ReadInterfaces | src/device/usb/usb.c:68-179 | computes the accepted interfaces, or the error, -ENOMEM included |
| UsbDevice.Device.ParseInterfaces | src/device/usb/usb.c:68-180 | returns 0 exactly on the configurations in order, otherwise the error of the first failing test; a parsed device satisfies the invariant that switching settings needs |
| UsbDevice.ParsedDevice | src/device/usb/usb.c:68-180 | a successful parse, on a device that uses setting 0 everywhere, establishes the device invariant |
| UsbDevice.SwitchingAfterParse | src/device/usb/usb.c:68-257 | from any accepted configuration, over any sequence of switches and host failures, the endpoint list is that of the active settings without duplicates and an online device agrees with it |
| UsbDevice.SetOutcome | src/device/usb/usb.c:214-257 | a switch ends on the target exactly when it succeeds and on the old setting when it fails, never touches another interface, and succeeds exactly when the setting exists, its endpoints fit and the host operations succeed |
| UsbDevice.RunKeeps | src/device/usb/usb.c:214-257 | over any sequence of calls and host failures the device invariant holds: the endpoint list is the concatenation of the active settings' endpoints, without duplicates, and an online device's hardware settings agree |
| UsbDevice.Device.SetInterface | src/device/usb/usb.c:214-257 | usb_set_interface with its rollback is the specified transaction |
| BlockDev.HandleIsStable | src/device/core/blockdev.c:28-328 | while a handle is outstanding its slot is never recycled and its operations, data and sector size never change |
| BlockDev.ReleasedExactlyOnce | src/device/core/blockdev.c:235-328 | in every run the backend bound at removal is released exactly once if its slot was cleared, and not before; reference counts are the outstanding handles |
| BlockDev.ClearedWhenUnused | src/device/core/blockdev.c:290-328 | a slot is cleared only by the step that completes both removal and the last close |
| BlockDev.ReregisterUsesAnotherSlot | src/device/core/blockdev.c:28-86 | registering a removed but still open name leaves the old slot alone; with a free slot and a name of 1 to 31 characters the name is then found in another slot, under a new identity |
| BlockDev.RemovedHandleRefused | src/device/core/blockdev.c:275-352 | a handle on a removed device gets only -ENODEV over every run in which it is held |
| BlockDev.RegisterKeepsNamesIff | src/device/core/blockdev.c:53-86 | registration keeps names unique if and only if the canonical name has 1 to 31 characters, or no slot is free, or its stored form is not taken |
| BlockDev.NamesStayUnique | src/device/core/blockdev.c:53-86 | with names of 1 to 31 characters no run has two present devices of one name |
| BlockDev.LongNameTwice | src/device/core/blockdev.c:53-86 | counterexample: a 32-character name registered twice gives two devices with one stored name |
| BlockDev.RangeChecked | src/device/core/blockdev.c:335-352 | a transfer is let through exactly when the device is present and open, the sectors exist and the byte count fits 32 bits; removed devices give -ENODEV |
| BlockDev.RunKeeps | src/device/core/blockdev.c:28-328 | slots, reference counts and the release history stay consistent over every run |
| BlockDev.StepKeeps | src/device/core/blockdev.c:28-328 | each operation keeps them |
| BlockDev.Registry.FindSlot | src/device/core/blockdev.c:28-42 | finds the first present slot with the canonical name |
| BlockDev.Registry.Register | src/device/core/blockdev.c:53-86 | registration is the register step: same name updates in place, otherwise the first free slot |
| BlockDev.Registry.Update | src/device/core/blockdev.c:88-105 | an update changes size and flags, unless the device is open and they differ |
| BlockDev.Registry.BindIo | src/device/core/blockdev.c:235-255 | binding needs a reader, a sector size and no open handle; every failure changes nothing |
| BlockDev.Registry.UnbindIo | src/device/core/blockdev.c:257-273 | unbinding needs no open handle; every failure changes nothing |
| BlockDev.Registry.Open | src/device/core/blockdev.c:275-288 | opening counts a reference on a bound volume |
| BlockDev.Registry.Unregister | src/device/core/blockdev.c:290-308 | removal marks the slot and clears it at once when unused |
| BlockDev.Registry.Close | src/device/core/blockdev.c:310-328 | the last close of a removed device clears the slot and hands out its backend |
| ElfStack.ReaderRecovers | arch/abi/elf_stack.h:26-102 | for every argument and environment list a reader walking argc, argv, NULL, envp, NULL and the auxiliary pairs gets back exactly the same strings and pairs |
| ElfStack.BuiltInPlace | arch/abi/elf_stack.h:26-102 | the vector is 16-byte aligned and below the strings, and nothing outside [sp, top) is written |
| ElfStack.StringFound | arch/abi/elf_stack.h:35-55 | every string, with its terminator, is at the address the vector gives for it |
| ElfStack.StringsDisjoint | arch/abi/elf_stack.h:35-55 | strings are pairwise disjoint and below the top |
| ElfStack.VectorBuilt | arch/abi/elf_stack.h:56-98 | every word of the vector is in memory at its place |
| ElfStack.AddressSpace.BuildStrings | arch/abi/elf_stack.h:31-55 | the downward pushes put all strings and the random bytes in place and return their addresses |
| ElfStack.AddressSpace.BuildVector | arch/abi/elf_stack.h:79-98 | the advancing cursor writes argc, the two lists of addresses and the auxiliary pairs |
| ElfStack.AddressSpace.Build | arch/abi/elf_stack.h:26-102 | the memory and stack pointer left are exactly the specified image |
| ElfReader.ReadPhdrs | arch/abi/elf_reader.h:24-50 | the backwards in-place expansion yields the element-wise decoding of the file's headers for every count and wire size, -ENOEXEC for a short file, and touches nothing beyond the table |
| ElfReader.PartialStep | arch/abi/elf_reader.h:30-48 | the header widened next has not been overwritten yet, and widening it keeps the headers already done |
| ElfReader.PhdrRoundTrip | arch/abi/elf_reader.h:30-48 | a stored program header reads back as written |
| ElfReader.StoreHeader | arch/abi/elf_reader.h:38-46 | the eight field stores write exactly one encoded header |
| I8042.RunKeeps | src/device/ps2/i8042.c:114-249 | across arrivals, interrupts and commands, bytes read plus bytes queued are exactly the bytes that arrived, in order, and each went where it belongs |
| I8042.PortOrder | src/device/ps2/i8042.c:114-249 | for each port, replies and driver deliveries together follow its arrival order |
| I8042.PreservedCommandsDiscardNothing | src/device/ps2/i8042.c:114-139 | with preserved transactions a byte is a reply exactly when it belongs to the busy port; nothing is discarded |
| I8042.BeginClearsIff | src/device/ps2/i8042.c:218-229 | starting a command empties the controller exactly when at most the drain budget is queued |
| I8042.RepliesAreFresh | src/device/ps2/i8042.c:114-229 | when the budget covers the backlog, a reply handed to a command arrived after the command began |
| I8042.StepKeeps | src/device/ps2/i8042.c:114-249 | each step keeps conservation and routing |
| I8042.Controller.DrainUnsafe | src/device/ps2/i8042.c:191-203 | the bounded drain is that many take steps |
| I8042.Controller.DrainInput | src/device/ps2/i8042.c:204-211 | the interrupt path delivers bytes to their drivers in order and stops at a byte of a busy port or at the budget |
| I8042.Controller.BeginPreserve | src/device/ps2/i8042.c:218-230 | starting a preserved command is the begin step |
| I8042.Controller.DiscardInput | src/device/ps2/i8042.c:141-157 | discarding is the discard step |
| I8042.Controller.BeginCommand | src/device/ps2/i8042.c:231-238 | starting a command is begin followed by discard |
| I8042.Controller.EndCommand | src/device/ps2/i8042.c:239-249 | ending a command clears the flag and drains |
| I8042.Controller.ReadReply | src/device/ps2/i8042.c:114-139 | polls until a byte of the command's port comes, which is the reply, and times out otherwise; every other byte read goes to its driver |
| PciScan.Scanner.ScanAll | src/device/pci/pci.c:246-262 | for any bridge topology, cycles included, the scan terminates, marks exactly the reachable buses and visits each present function on them exactly once; the inventory lists those whose record could be allocated |
| PciScan.Recorded | src/device/pci/pci.c:189-204 | the inventory lists a function at most as often as it was visited, and exactly the visited ones when every allocation succeeds |
| PciScan.Scanner.CacheAdd | src/device/pci/pci.c:189-204 | a function is visited; without memory it is left out of the inventory |
| PciScan.WalkComplete | src/device/pci/pci.c:206-262 | a walk that reached every start bus has marked exactly the reachable buses |
| PciScan.ClosedContains | src/device/pci/pci.c:206-262 | a set with the start buses that follows every bridge contains every reachable bus |
| PciScan.Scanner.ScanFunction | src/device/pci/pci.c:206-213 | visiting a function and following its bridge keeps what has been walked, also when its record cannot be allocated |
| PciScan.Scanner.ScanSlot | src/device/pci/pci.c:215-233 | a slot visits function 0 and, if multifunction, the other present functions |
| PciScan.Scanner.ScanBus | src/device/pci/pci.c:235-244 | a bus is walked once; the recursion ends because unmarked buses decrease |
| Framebuffer.Surface.CopyArea | src/device/core/framebuffer.c:87-108 | for every overlap the row order makes the copy simultaneous; other pixels are unchanged; rejected rectangles change nothing |
| Framebuffer.Surface.FillRect | src/device/core/framebuffer.c:109-127 | exactly the rectangle gets the colour |
| Framebuffer.CopyExtend | src/device/core/framebuffer.c:98-103 | in the chosen direction no row that is still to be read has been written |
| Framebuffer.AcceptsIff | src/device/core/framebuffer.c:76-86 | a rectangle is accepted exactly when it is non-empty and inside a usable surface |
| Framebuffer.DamageInside | src/device/core/framebuffer.c:105-107 | the reported damage is non-empty and ends within pitch * height, without 32-bit overflow |
| Framebuffer.DamageCovers | src/device/core/framebuffer.c:105-107 | the reported damage covers every pixel of the rectangle |
| Console.Renderer.InsertLines | src/device/console/render.c:172-184 | the screen becomes the old one with n blank lines inserted (n clamped to the region), for every request the guards let through; otherwise nothing changes |
| Console.Renderer.DeleteLines | src/device/console/render.c:185-198 | the screen becomes the old one with n lines deleted and blanks at the bottom of the region |
| Console.InsertLineByLine | src/device/console/render.c:172-184 | inserting n lines is inserting one line n times |
| Console.DeleteLineByLine | src/device/console/render.c:185-198 | deleting n lines is deleting one line n times |
| Console.InsertThenDelete | src/device/console/render.c:172-198 | insert then delete brings back every surviving row; rows outside the region never change |
| Console.InsertMoves | src/device/console/render.c:181-183 | the copy and the fill of insert_lines make up the row-level insertion, and leave the padding columns alone |
| Console.DeleteMoves | src/device/console/render.c:194-197 | the copy and the fill of delete_lines make up the row-level deletion |
| Console.ActsFits | src/device/console/render.c:11-31 | a region the guards let through lies on the screen |
| Slots.SlotPool.TakeSlot | src/lib/slots.h:20-38 | returns the smallest free slot, or none exactly when all are held, and keeps both bitmap levels exact |
| Slots.SlotPool.ReturnSlot | src/lib/slots.h:40-44 | a held slot becomes free, both levels stay exact |
| Slots.SlotPool.Fill | src/lib/slots.h:22-29 | lazy initialisation makes exactly the slots below the capacity free |
| Slots.LowestSet | src/lib/slots.h:13-18 | two 32-bit scans find the lowest set bit of any non-zero 64-bit word |
| Slots.ScanFindsSmallest | src/lib/slots.h:32-33 | summary scan then word scan find the smallest free slot |
| Slots.GivenOutOnce | src/lib/slots.h:20-44 | in any run no slot is given out twice without a return in between |
| Slots.HeldBelowCapacity | src/lib/slots.h:20-44 | in any run at most capacity slots are held, all below it |
| Slots.ExhaustedIff | src/lib/slots.h:30-31 | a pool is exhausted exactly when capacity slots are held |
| Ahci.Port.ReadWrite | src/driver/storage/ahci.c:110-138 | requests beyond the end are refused; the commands sent tile the sectors in order; on success buffer and medium agree there; nothing else on the medium changes; without failures the call succeeds |
| Ahci.Port.Discard | src/driver/storage/ahci.c:150-167 | for addresses of 48 bits the TRIM entries the disk accepts tile the sectors in order, all of them on success, each count within 16 bits, and nothing outside the sectors changes |
| Ahci.TiledCoversOnce | src/driver/storage/ahci.c:110-167 | tiling means every requested sector is in exactly one range and no other sector in any |
| Ahci.ExtendedRoundTrip | src/driver/storage/ahci.c:59-76 | a 48-bit request is decoded from the FIS as intended if and only if address and count fit their fields |
| Ahci.ShortRoundTrip | src/driver/storage/ahci.c:59-76 | a 28-bit request likewise, with 256 encoded as 0 |
| Ahci.EntryExactIff | src/driver/storage/ahci.c:157-158 | a TRIM entry names the intended sectors if and only if the address fits 48 bits |
| Ahci.Port.WriteFis | src/driver/storage/ahci.c:59-76 | the bytes stored in the command table are those of the request |
| Ahci.Port.Command | src/driver/storage/ahci.c:41-109 | a command reaches the disk unless the port is dead or never ready, as the request intended; a failure may damage only the sectors addressed by a write or the transfer buffer of a read |
| Ahci.Port.Transfer | src/driver/storage/ahci.c:124-135 | one round moves exactly its sectors between buffer and medium; a failed read leaves the caller's buffer alone |
| Ahci.Port.PackRanges | src/driver/storage/ahci.c:154-161 | one block holds up to 64 ranges that tile a non-empty prefix |
| Ahci.MaxFits | src/driver/storage/ahci.c:118-123 | for sector sizes 512 to 4096 a command takes 1 to 256 sectors and fits the data buffer |

## Left out

- Port and memory-mapped register access, DMA address translation, timeouts and spin budgets, except as the outcome of a step.
- e1000 transmit: nothing in it bounds outstanding descriptors, so there is no ring invariant.
- The driver-accelerated paths of framebuffer copy and fill, and framebuffer_damage beyond the range it is given.
- ALSA mmap access, user-forced `appl_ptr`, boundary changes by SW_PARAMS while running, mixer controls and procfs text.
- PcmRing.PlaybackIsFifo: assumes what the driver assumes of its backend, that it takes whole frames, no more than offered, and that the count of played frames never falls, and that the `submitted` counter does not wrap.
- PcmRing.Stream.WriteFrames: what other tasks do while the writer sleeps is restricted to steps the boundary leaves room for, which is every step at the boundary HW_PARAMS chooses; HW_PARAMS, HW_FREE and SW_PARAMS by another task meanwhile are not modelled.
- PcmRing.Stream.Perform: likewise.
- I386Signal.RunKeeps: the alternate stack is fixed during a run, handlers leave pending frames intact and do not overflow the alternate stack, and the siginfo words are opaque.
- The floating-point state, which this signal code does not save, and legacy frames on the 64-bit kernel.
- USB enumeration, descriptor reads, sysfs publishing and isochronous transfers.
- BlockDev.Registry.Open: the 32-bit wrap-around of the reference counter is not modelled.
- Block-device caching, endpoint tables and device nodes, and chardev.c, which would only add similar members.
- ElfStack.ReaderRecovers: assumes there is room for the image below the given top, which the C code does not test.
- The random bytes on the initial stack are an input.
- I8042 configuration and port probing.
- PciScan.Scanner.ScanAll: configuration reads are a fixed topology during the scan.
- Console text rendering, cursor and font lookup.
- Slots.SlotPool.ReturnSlot: only slots that are held are returned, and capacities are at most 4096, as the code expects of its callers.
- Ahci.Port.Discard: says nothing of addresses beyond 48 bits, which EntryExactIff shows to be misread entry by entry.
- Ahci: the command header and the physical region descriptor beyond the byte count, flush, identification, and the block cache above the driver.
- The rbtree, list, lock, cyclebuf, mmap, phymm and scheduler code, which is not part of this model.
