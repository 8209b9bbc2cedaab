/** Exactly which configurations parse_interfaces in src/device/usb/usb.c accepts.

    The acceptance condition is stated on the bytes alone: where the interface descriptors
    start, what may stand between them, and how their numbers relate.  No parser state is
    involved. */
module UsbAccept {
  import opened Bytes
  import opened UsbParse
  import opened Wrappers

  // ----- the condition

  /** A descriptor other than an interface descriptor is fine at o, after the endpoints es of
      the same setting.  `open` is false before the first interface descriptor. */
  predicate DescOk(c: seq<byte>, o: nat, es: seq<Endpoint>, open: bool, speed: nat) {
    && Header(c, o) && Kind(c, o) != DESC_INTERFACE
    && (Kind(c, o) == DESC_ENDPOINT ==>
          && open && Len(c, o) >= 7 && |es| < MAX_ENDPOINTS
          && EndpointValid(c, o, speed) && !Addressed(es, c[o + 2]))
    && (Kind(c, o) == DESC_COMPANION ==>
          && Len(c, o) >= 6 && es != [] && speed >= SPEED_SUPER && c[o + 2] <= 15
          && Companion(c, o, Top(es)).mult != 3)
  }

  /** Every descriptor from o up to `end` is fine, after the endpoints es. */
  ghost predicate WindowOk(c: seq<byte>, o: nat, end: nat, es: seq<Endpoint>, open: bool, speed: nat)
    decreases end - o
  {
    o == end ||
    (o < end && DescOk(c, o, es, open, speed) && WindowOk(c, o + Len(c, o), end, Absorb(c, o, es), open, speed))
  }

  /** An interface descriptor at w, followed by fine descriptors up to `end`. */
  ghost predicate Window(c: seq<byte>, w: nat, end: nat, speed: nat) {
    Has(c, w, DESC_INTERFACE, 9) && WindowOk(c, w + Len(c, w), end, [], true, speed)
  }

  /** The windows that start at `starts` fill the bytes up to o. */
  ghost predicate Windows(c: seq<byte>, o: nat, starts: seq<nat>, speed: nat) {
    && WindowOk(c, CONFIG_SIZE, if starts == [] then o else starts[0], [], false, speed)
    && forall k :: 0 <= k < |starts| ==> Window(c, starts[k], Next(o, starts, k), speed)
  }

  function Next(o: nat, starts: seq<nat>, k: nat): nat
    requires k < |starts|
  {
    if k + 1 < |starts| then starts[k + 1] else o
  }

  /** Byte i of the descriptor at w; 0 beyond the end. */
  function Field(c: seq<byte>, w: nat, i: nat): nat {
    if w + i < |c| then c[w + i] else 0
  }

  function Number(c: seq<byte>, w: nat): nat { Field(c, w, 2) }
  function Setting(c: seq<byte>, w: nat): nat { Field(c, w, 3) }
  function Declared(c: seq<byte>, w: nat): nat { Field(c, w, 4) }

  /** The setting at w has as many endpoints as it declares. */
  ghost predicate Full(c: seq<byte>, w: nat, end: nat) {
    w < |c| && |EndpointsIn(c, w + Len(c, w), end, [])| == Declared(c, w)
  }

  ghost function Numbers(c: seq<byte>, starts: seq<nat>): set<nat> {
    set k | 0 <= k < |starts| :: Number(c, starts[k])
  }

  ghost predicate Distinct(c: seq<byte>, starts: seq<nat>) {
    forall j, k :: 0 <= j < k < |starts| ==>
      Number(c, starts[j]) != Number(c, starts[k]) || Setting(c, starts[j]) != Setting(c, starts[k])
  }

  /** Some descriptor gives this setting of this interface. */
  ghost predicate Named(c: seq<byte>, starts: seq<nat>, number: nat, setting: nat) {
    exists k :: 0 <= k < |starts| && Number(c, starts[k]) == number && Setting(c, starts[k]) == setting
  }

  /** The configuration with interface descriptors at `starts` is in order. */
  ghost predicate Configured(c: seq<byte>, starts: seq<nat>, speed: nat, memory: nat)
    requires |c| >= CONFIG_SIZE
  {
    && 0 < |starts| <= MAX_ALTERNATES && |starts| <= memory
    && Windows(c, |c|, starts, speed)
    && (forall k :: 0 <= k < |starts| ==> Full(c, starts[k], Next(|c|, starts, k)))
    && Distinct(c, starts)
    && |Numbers(c, starts)| == c[4] <= MAX_INTERFACES
    && (forall k :: 0 <= k < |starts| ==> Named(c, starts, Number(c, starts[k]), 0))
  }

  // ----- one descriptor inside a setting

  lemma {:induction false} WindowExtend(c: seq<byte>, o: nat, end: nat, es: seq<Endpoint>, open: bool, speed: nat)
    requires WindowOk(c, o, end, es, open, speed) && Header(c, end)
    requires DescOk(c, end, EndpointsIn(c, o, end, es), open, speed)
    ensures WindowOk(c, o, end + Len(c, end), es, open, speed)
    decreases end - o
  {
    if o < end {
      WindowExtend(c, o + Len(c, o), end, Absorb(c, o, es), open, speed);
    } else {
      var next := end + Len(c, end);
      assert WindowOk(c, next, next, Absorb(c, end, es), open, speed);
    }
  }

  /** Where the settings of a state start. */
  function Starts(blocks: seq<Block>): seq<nat> {
    seq(|blocks|, k requires 0 <= k < |blocks| => blocks[k].alt.offset)
  }

  function Latest(s: State): seq<Endpoint> {
    if s.blocks == [] then [] else Top(s.blocks).alt.endpoints
  }

  /** What a state says beyond the parser's own invariant. */
  ghost predicate Tidy(s: State) {
    && s.last == (Latest(s) != []) && |Latest(s)| <= MAX_ENDPOINTS
    && (s.blocks == [] ==> s.interfaces == [])
    && forall i :: 0 <= i < |s.interfaces| ==> s.interfaces[i].alternates != []
  }

  /** Inside a setting the parser goes on exactly when the descriptor is fine. */
  lemma StepIff(c: seq<byte>, o: nat, s: State, speed: nat)
    requires Linked(s) && Tidy(s) && (Header(c, o) ==> Kind(c, o) != DESC_INTERFACE)
    ensures Step(c, o, s, speed).Ok? <==> DescOk(c, o, Latest(s), s.blocks != [], speed)
  {
    hide EndpointValid, Addressed, Replace;
  }

  lemma StepInside(c: seq<byte>, o: nat, s: State, speed: nat)
    requires Linked(s) && Tidy(s) && Header(c, o) && Kind(c, o) != DESC_INTERFACE && Step(c, o, s, speed).Ok?
    ensures var t := Step(c, o, s, speed).value;
            && Tidy(t) && Starts(t.blocks) == Starts(s.blocks) && |t.interfaces| == |s.interfaces| && t.memory == s.memory
            && Latest(t) == Absorb(c, o, Latest(s))
  {
    hide EndpointValid, Addressed;
    var t := Step(c, o, s, speed).value;
    if s.blocks != [] {
      assert Front(t.blocks) == Front(s.blocks);
      forall k | 0 <= k < |s.blocks|
        ensures t.blocks[k].alt.offset == s.blocks[k].alt.offset
      {
        if k < |s.blocks| - 1 { assert t.blocks[k] == Front(t.blocks)[k]; }
      }
    }
  }

  // ----- what the bytes say about the settings found

  lemma BlockFields(c: seq<byte>, o: nat, s: State, k: nat)
    requires Inv(c, o, s) && k < |s.blocks|
    ensures var b := s.blocks[k];
            && Describes(c, s.interfaces, b, Next(o, Starts(s.blocks), k))
            && b.iface < |s.interfaces| && s.interfaces[b.iface].number == Number(c, b.alt.offset)
            && b.alt.number == Setting(c, b.alt.offset) && b.expected == Declared(c, b.alt.offset)
  {
    hide Covers, EndpointsIn, Of, Unique, DistinctAddresses, Preamble;
    if k + 1 < |s.blocks| {
      assert Describes(c, s.interfaces, s.blocks[k], s.blocks[k + 1].alt.offset);
    }
  }

  lemma {:induction false} OfHas(blocks: seq<Block>, k: nat)
    requires k < |blocks|
    ensures blocks[k].alt in Of(blocks, blocks[k].iface)
    decreases |blocks|
  {
    if k < |blocks| - 1 { OfHas(Front(blocks), k); }
  }

  lemma {:induction false} OfFrom(blocks: seq<Block>, i: nat, a: Alternate) returns (k: nat)
    requires a in Of(blocks, i)
    ensures k < |blocks| && blocks[k].iface == i && blocks[k].alt == a
    decreases |blocks|
  {
    if Top(blocks).iface == i && a == Top(blocks).alt {
      k := |blocks| - 1;
    } else {
      k := OfFrom(Front(blocks), i, a);
    }
  }

  /** The numbers of the interfaces are the numbers the descriptors name. */
  lemma SameNumberSet(c: seq<byte>, o: nat, s: State, number: nat)
    requires Inv(c, o, s) && Tidy(s)
    ensures number in Numbers(c, Starts(s.blocks)) <==>
            exists i :: 0 <= i < |s.interfaces| && s.interfaces[i].number == number
  {
    hide Describes, Unique, Of, Preamble, Closed;
    var starts := Starts(s.blocks);
    if number in Numbers(c, starts) {
      var k :| 0 <= k < |starts| && Number(c, starts[k]) == number;
      BlockFields(c, o, s, k);
    }
    if i :| 0 <= i < |s.interfaces| && s.interfaces[i].number == number {
      var a := s.interfaces[i].alternates[0];
      var k := OfFrom(s.blocks, i, a);
      BlockFields(c, o, s, k);
      assert Number(c, starts[k]) == number;
    }
  }

  ghost function InterfaceNumbers(fs: seq<Interface>): set<nat> {
    set i | 0 <= i < |fs| :: fs[i].number
  }

  lemma {:induction false} DistinctCount(fs: seq<Interface>)
    requires forall j, k :: 0 <= j < k < |fs| ==> fs[j].number != fs[k].number
    ensures |InterfaceNumbers(fs)| == |fs|
  {
    if fs != [] {
      var front, last := Front(fs), Top(fs).number;
      DistinctCount(front);
      assert last !in InterfaceNumbers(front);
      assert InterfaceNumbers(fs) == InterfaceNumbers(front) + {last} by {
        forall n | n in InterfaceNumbers(fs)
          ensures n in InterfaceNumbers(front) + {last}
        {
          var i :| 0 <= i < |fs| && fs[i].number == n;
          if i < |front| { assert front[i].number == n; }
        }
        forall n | n in InterfaceNumbers(front) + {last}
          ensures n in InterfaceNumbers(fs)
        {
          if n != last {
            var i :| 0 <= i < |front| && front[i].number == n;
            assert fs[i].number == n;
          } else {
            assert fs[|fs| - 1].number == n;
          }
        }
      }
    }
  }

  /** As many interfaces as numbers named. */
  lemma CountNumbers(c: seq<byte>, o: nat, s: State)
    requires Inv(c, o, s) && Tidy(s)
    ensures |Numbers(c, Starts(s.blocks))| == |s.interfaces|
  {
    hide Describes, Of, Preamble, Closed, Tidy, Number;
    DistinctCount(s.interfaces);
    var a, b := Numbers(c, Starts(s.blocks)), InterfaceNumbers(s.interfaces);
    forall n: nat
      ensures n in a <==> n in b
    {
      SameNumberSet(c, o, s, n);
    }
    assert a == b;
  }

  /** A setting number is taken in an interface exactly when an earlier descriptor names both. */
  lemma TakenIff(c: seq<byte>, o: nat, s: State, i: nat, setting: nat)
    requires Inv(c, o, s) && i < |s.interfaces|
    ensures Numbered(s.interfaces[i].alternates, setting) <==>
            Named(c, Starts(s.blocks), s.interfaces[i].number, setting)
  {
    hide Describes, Of, Preamble, Closed, Number, Setting, DistinctNumbers;
    var alts := s.interfaces[i].alternates;
    assert alts == Of(s.blocks, i);
    if j :| 0 <= j < |alts| && alts[j].number == setting {
      var k := OfFrom(s.blocks, i, alts[j]);
      BlockFields(c, o, s, k);
      assert Starts(s.blocks)[k] == s.blocks[k].alt.offset;
    }
    if Named(c, Starts(s.blocks), s.interfaces[i].number, setting) {
      var k :| 0 <= k < |s.blocks| && Number(c, Starts(s.blocks)[k]) == s.interfaces[i].number
               && Setting(c, Starts(s.blocks)[k]) == setting;
      BlockFields(c, o, s, k);
      assert s.blocks[k].iface == i;
      OfHas(s.blocks, k);
      assert s.blocks[k].alt in alts;
    }
  }

  // ----- an interface descriptor

  /** The conditions on an interface descriptor at o, after those at `starts`. */
  ghost predicate OpensOk(c: seq<byte>, o: nat, starts: seq<nat>, memory: nat) {
    && (starts == [] || Full(c, Top(starts), o))
    && |starts| < MAX_ALTERNATES && |starts| < memory
    && (Number(c, o) in Numbers(c, starts) || |Numbers(c, starts)| < MAX_INTERFACES)
    && !Named(c, starts, Number(c, o), Setting(c, o))
  }

  lemma CompleteIff(c: seq<byte>, o: nat, s: State)
    requires Inv(c, o, s)
    ensures Complete(s) <==> s.blocks == [] || Full(c, Top(Starts(s.blocks)), o)
  {
    hide Covers, EndpointsIn, Of, Unique, DistinctAddresses, Preamble;
    if s.blocks != [] {
      BlockFields(c, o, s, |s.blocks| - 1);
    }
  }

  lemma ClosedSame(c: seq<byte>, o: nat, s: State)
    requires Linked(s) && Inv(c, o, s) && Tidy(s)
    ensures var t := Close(s, o);
            && Inv(c, o, t) && Tidy(t) && Starts(t.blocks) == Starts(s.blocks)
            && |t.interfaces| == |s.interfaces| && t.memory == s.memory
  {
    hide Inv;
    if s.blocks != [] {
      CloseKeeps(c, o, s);
      var t := Close(s, o);
      assert Front(t.blocks) == Front(s.blocks);
      forall k | 0 <= k < |s.blocks|
        ensures t.blocks[k].alt.offset == s.blocks[k].alt.offset
      {
        if k < |s.blocks| - 1 { assert t.blocks[k] == Front(t.blocks)[k]; }
      }
    }
  }

  lemma OpenIff(c: seq<byte>, o: nat, s: State)
    requires Linked(s) && Inv(c, o, s) && Tidy(s) && Has(c, o, DESC_INTERFACE, 9)
    ensures InterfaceStep(c, o, s).Ok? <==> OpensOk(c, o, Starts(s.blocks), s.memory)
  {
    hide Inv, Of, Close, Full, Tidy, Numbers, Named, Numbered, Find, Unique;
    var starts := Starts(s.blocks);
    CompleteIff(c, o, s);
    ClosedSame(c, o, s);
    var t := Close(s, o);
    CountNumbers(c, o, t);
    SameNumberSet(c, o, t, c[o + 2]);
    var i := Find(t.interfaces, c[o + 2]);
    if i < |t.interfaces| {
      TakenIff(c, o, t, i, c[o + 3]);
    } else {
      FreshSetting(c, starts, c[o + 2], c[o + 3]);
      assert !Numbered([], c[o + 3]) by { NothingNumbered(c[o + 3]); }
    }
    InterfacesBounded(c, o, t);
  }

  lemma NothingNumbered(n: nat)
    ensures !Numbered([], n)
  {
  }

  lemma FreshSetting(c: seq<byte>, starts: seq<nat>, number: nat, setting: nat)
    requires number !in Numbers(c, starts)
    ensures !Named(c, starts, number, setting)
  {
  }

  lemma InterfacesBounded(c: seq<byte>, o: nat, s: State)
    requires Inv(c, o, s)
    ensures |s.interfaces| <= MAX_INTERFACES
  {
  }

  lemma StepOpens(c: seq<byte>, o: nat, s: State)
    requires Linked(s) && Inv(c, o, s) && Tidy(s) && Has(c, o, DESC_INTERFACE, 9) && InterfaceStep(c, o, s).Ok?
    ensures var t := InterfaceStep(c, o, s).value;
            Tidy(t) && Starts(t.blocks) == Starts(s.blocks) + [o] && Latest(t) == [] && t.memory == s.memory
  {
    hide Inv, Close, Find, Numbered;
    ClosedSame(c, o, s);
  }

  // ----- what an accepted prefix has shown

  /** The conditions on the descriptors before o. */
  ghost predicate Sofar(c: seq<byte>, o: nat, starts: seq<nat>, speed: nat, memory: nat) {
    && Windows(c, o, starts, speed) && |starts| <= MAX_ALTERNATES && |starts| <= memory && Distinct(c, starts)
    && forall k :: 0 <= k < |starts| - 1 ==> Full(c, starts[k], Next(o, starts, k))
  }

  lemma SofarInside(c: seq<byte>, o: nat, starts: seq<nat>, es: seq<Endpoint>, speed: nat, memory: nat)
    requires Sofar(c, o, starts, speed, memory) && Header(c, o) && DescOk(c, o, es, starts != [], speed)
    requires es == if starts == [] then EndpointsIn(c, CONFIG_SIZE, o, [])
                   else var w := Top(starts); if w < |c| then EndpointsIn(c, w + Len(c, w), o, []) else []
    ensures Sofar(c, o + Len(c, o), starts, speed, memory)
  {
    hide DescOk, WindowOk, EndpointsIn, Distinct, Full;
    var next := o + Len(c, o);
    if starts == [] {
      WindowExtend(c, CONFIG_SIZE, o, [], false, speed);
    } else {
      var last := |starts| - 1;
      forall k | 0 <= k < |starts|
        ensures Window(c, starts[k], Next(next, starts, k), speed)
      {
        assert Window(c, starts[k], Next(o, starts, k), speed);
        if k == last {
          WindowExtend(c, starts[k] + Len(c, starts[k]), o, [], true, speed);
        }
      }
    }
  }

  lemma SofarOpen(c: seq<byte>, o: nat, starts: seq<nat>, speed: nat, memory: nat)
    requires Sofar(c, o, starts, speed, memory) && OpensOk(c, o, starts, memory) && Has(c, o, DESC_INTERFACE, 9)
    ensures Sofar(c, o + Len(c, o), starts + [o], speed, memory)
  {
    hide EndpointsIn, Number, Setting, Full, Numbers, DescOk, Distinct, Named, Window, WindowOk;
    var next, all := o + Len(c, o), starts + [o];
    NewWindow(c, o, speed);
    assert starts != [] ==> Top(starts) == starts[|starts| - 1];
    forall k | 0 <= k < |all|
      ensures Window(c, all[k], Next(next, all, k), speed)
      ensures k < |starts| ==> Full(c, all[k], Next(next, all, k))
    {
      if k < |starts| {
        assert all[k] == starts[k] && Next(next, all, k) == Next(o, starts, k);
      }
    }
    DistinctOpen(c, o, starts);
  }

  lemma NewWindow(c: seq<byte>, o: nat, speed: nat)
    requires Has(c, o, DESC_INTERFACE, 9)
    ensures Window(c, o, o + Len(c, o), speed)
  {
  }

  lemma DistinctOpen(c: seq<byte>, o: nat, starts: seq<nat>)
    requires Distinct(c, starts) && !Named(c, starts, Number(c, o), Setting(c, o))
    ensures Distinct(c, starts + [o])
  {
    hide Number, Setting;
    var all := starts + [o];
    forall j, k | 0 <= j < k < |all|
      ensures Number(c, all[j]) != Number(c, all[k]) || Setting(c, all[j]) != Setting(c, all[k])
    {
      if k == |starts| { assert starts[j] == all[j]; }
    }
  }

  /** The endpoints read so far are those of the bytes read so far. */
  lemma LatestRead(c: seq<byte>, o: nat, s: State)
    requires Inv(c, o, s)
    ensures s.blocks == [] ==> EndpointsIn(c, CONFIG_SIZE, o, []) == []
    ensures s.blocks != [] ==> var w := Top(Starts(s.blocks));
                               w < |c| && Latest(s) == EndpointsIn(c, w + Len(c, w), o, [])
  {
    hide Covers, EndpointsIn, Of, Unique;
  }

  lemma SofarStep(c: seq<byte>, o: nat, s: State, speed: nat)
    requires Linked(s) && Inv(c, o, s) && Tidy(s) && o < |c| && Step(c, o, s, speed).Ok?
    requires Sofar(c, o, Starts(s.blocks), speed, s.memory)
    ensures var t := Step(c, o, s, speed).value;
            Tidy(t) && Sofar(c, o + Len(c, o), Starts(t.blocks), speed, s.memory) && t.memory == s.memory
  {
    hide Inv, Sofar, OpensOk, Tidy, DescOk, InterfaceStep, EndpointStep, CompanionStep, EndpointsIn;
    var starts := Starts(s.blocks);
    if Kind(c, o) == DESC_INTERFACE {
      OpenIff(c, o, s);
      StepOpens(c, o, s);
      SofarOpen(c, o, starts, speed, s.memory);
    } else {
      StepIff(c, o, s, speed);
      StepInside(c, o, s, speed);
      LatestRead(c, o, s);
      SofarInside(c, o, starts, Latest(s), speed, s.memory);
    }
  }

  lemma {:induction false} ScanShows(c: seq<byte>, o: nat, s: State, speed: nat)
    requires Linked(s) && Inv(c, o, s) && Tidy(s) && Sofar(c, o, Starts(s.blocks), speed, s.memory)
    requires Scan(c, o, s, speed).Ok?
    ensures var t := Scan(c, o, s, speed).value;
            && Linked(t) && Inv(c, |c|, t) && Tidy(t) && t.memory == s.memory
            && Sofar(c, |c|, Starts(t.blocks), speed, s.memory)
    decreases |c| - o
  {
    hide Inv, Step, Sofar, Tidy;
    if o < |c| {
      SofarStep(c, o, s, speed);
      StepKeeps(c, o, s, speed);
      StepLinked(c, o, s, speed);
      ScanShows(c, o + Len(c, o), Step(c, o, s, speed).value, speed);
    } else {
      ScanEnd(c, o, s);
    }
  }

  // ----- after the loop

  lemma {:induction false} ActivatesIff(fs: seq<Interface>, k: nat)
    requires k <= |fs|
    ensures Activated(fs, k).Ok? <==> forall i :: 0 <= i < k ==> Numbered(fs[i].alternates, 0)
  {
    if k > 0 {
      ActivatesIff(fs, k - 1);
      if Activated(fs, k - 1).Ok? {
        ActivatedAll(fs, k - 1);
        var j := Lookup(fs[k - 1].alternates, 0);
        if j < |fs[k - 1].alternates| { assert Numbered(fs[k - 1].alternates, 0); }
      }
    }
  }

  /** Every interface has setting 0 exactly when the descriptors name it for every number. */
  lemma DefaultsIff(c: seq<byte>, o: nat, s: State)
    requires Inv(c, o, s) && Tidy(s)
    ensures var starts := Starts(s.blocks);
            (forall i :: 0 <= i < |s.interfaces| ==> Numbered(s.interfaces[i].alternates, 0)) <==>
            (forall k :: 0 <= k < |starts| ==> Named(c, starts, Number(c, starts[k]), 0))
  {
    hide Inv, Tidy, Numbered, Named, Number;
    var starts := Starts(s.blocks);
    if forall i :: 0 <= i < |s.interfaces| ==> Numbered(s.interfaces[i].alternates, 0) {
      forall k | 0 <= k < |starts|
        ensures Named(c, starts, Number(c, starts[k]), 0)
      {
        BlockFields(c, o, s, k);
        TakenIff(c, o, s, s.blocks[k].iface, 0);
      }
    }
    if forall k :: 0 <= k < |starts| ==> Named(c, starts, Number(c, starts[k]), 0) {
      forall i | 0 <= i < |s.interfaces|
        ensures Numbered(s.interfaces[i].alternates, 0)
      {
        SameNumberSet(c, o, s, s.interfaces[i].number);
        TakenIff(c, o, s, i, 0);
      }
    }
  }

  /** The tests after the loop, on a state that has read everything. */
  lemma FinishIff(c: seq<byte>, s: State, speed: nat)
    requires |c| >= CONFIG_SIZE && Linked(s) && Inv(c, |c|, s) && Tidy(s)
    requires Sofar(c, |c|, Starts(s.blocks), speed, s.memory) && Scan(c, CONFIG_SIZE, Start(s.memory), speed) == Ok(s)
    ensures Interfaces(c, speed, s.memory).Ok? <==> Configured(c, Starts(s.blocks), speed, s.memory)
  {
    hide Inv, Scan, Tidy, Close, Full, Numbers, Named, Number, Windows, Distinct, Activated, Numbered;
    var starts := Starts(s.blocks);
    CompleteIff(c, |c|, s);
    CountNumbers(c, |c|, s);
    InterfacesBounded(c, |c|, s);
    ClosedSame(c, |c|, s);
    var t := Close(s, |c|);
    DefaultsIff(c, |c|, t);
    ActivatesIff(t.interfaces, |t.interfaces|);
    if starts != [] { LastFull(c, starts, speed, s.memory); }
  }

  lemma LastFull(c: seq<byte>, starts: seq<nat>, speed: nat, memory: nat)
    requires Sofar(c, |c|, starts, speed, memory) && starts != []
    ensures (forall k :: 0 <= k < |starts| ==> Full(c, starts[k], Next(|c|, starts, k))) <==> Full(c, Top(starts), |c|)
  {
  }

  // ----- a configuration in order is read to the end

  /** Where the next window starts, or the end. */
  function Upcoming(c: seq<byte>, all: seq<nat>, k: nat): nat
    requires k <= |all|
  {
    if k < |all| then all[k] else |c|
  }

  /** The interface descriptor of a configuration in order can be opened. */
  lemma OpensInOrder(c: seq<byte>, all: seq<nat>, k: nat, speed: nat, memory: nat)
    requires |c| >= CONFIG_SIZE && Configured(c, all, speed, memory) && k < |all|
    ensures OpensOk(c, all[k], all[..k], memory) && Has(c, all[k], DESC_INTERFACE, 9)
    ensures WindowOk(c, all[k] + Len(c, all[k]), Upcoming(c, all, k + 1), [], true, speed)
  {
    hide WindowOk, Numbers, Named, Distinct, Full;
    assert Window(c, all[k], Next(|c|, all, k), speed);
    if k > 0 {
      assert Full(c, all[k - 1], Next(|c|, all, k - 1));
      assert Top(all[..k]) == all[k - 1];
    }
    RoomForNumber(c, all, k);
    NotYetNamed(c, all, k);
  }

  lemma RoomForNumber(c: seq<byte>, all: seq<nat>, k: nat)
    requires k < |all|
    ensures Number(c, all[k]) in Numbers(c, all[..k]) || |Numbers(c, all[..k])| < |Numbers(c, all)|
  {
    hide Number;
    var before, now := Numbers(c, all[..k]), Number(c, all[k]);
    forall n | n in before + {now}
      ensures n in Numbers(c, all)
    {
      if n in before {
        var j :| 0 <= j < k && Number(c, all[..k][j]) == n;
        assert Number(c, all[j]) == n;
      }
    }
    if now !in before {
      Subset(before + {now}, Numbers(c, all));
    }
  }

  lemma NotYetNamed(c: seq<byte>, all: seq<nat>, k: nat)
    requires k < |all| && Distinct(c, all)
    ensures !Named(c, all[..k], Number(c, all[k]), Setting(c, all[k]))
  {
    hide Number, Setting;
    forall j | 0 <= j < k
      ensures Number(c, all[..k][j]) != Number(c, all[k]) || Setting(c, all[..k][j]) != Setting(c, all[k])
    {
      assert all[..k][j] == all[j];
    }
  }

  lemma {:induction false} Subset(a: set<nat>, b: set<nat>)
    requires a <= b
    ensures |a| <= |b|
    decreases a
  {
    if x :| x in a { Subset(a - {x}, b - {x}); }
  }

  lemma {:induction false} ReadsToTheEnd(c: seq<byte>, o: nat, s: State, all: seq<nat>, k: nat, speed: nat)
    requires |c| >= CONFIG_SIZE && Configured(c, all, speed, s.memory) && k <= |all|
    requires Linked(s) && Inv(c, o, s) && Tidy(s) && Starts(s.blocks) == all[..k]
    requires o <= Upcoming(c, all, k) && WindowOk(c, o, Upcoming(c, all, k), Latest(s), k > 0, speed)
    ensures Scan(c, o, s, speed).Ok? && Starts(Scan(c, o, s, speed).value.blocks) == all
    decreases |c| - o
  {
    hide Configured, Inv, Tidy, Step, InterfaceStep, OpensOk, DescOk, EndpointsIn;
    if o < Upcoming(c, all, k) {
      DescHeader(c, o, Latest(s), k > 0, speed);
      StepIff(c, o, s, speed);
      StepInside(c, o, s, speed);
      StepKeeps(c, o, s, speed);
      StepLinked(c, o, s, speed);
      ReadsToTheEnd(c, o + Len(c, o), Step(c, o, s, speed).value, all, k, speed);
    } else if k < |all| {
      OpensInOrder(c, all, k, speed, s.memory);
      OpenIff(c, o, s);
      StepOpens(c, o, s);
      StepIsOpen(c, o, s, speed);
      StepKeeps(c, o, s, speed);
      StepLinked(c, o, s, speed);
      assert all[..k] + [all[k]] == all[..k + 1];
      ReadsToTheEnd(c, o + Len(c, o), Step(c, o, s, speed).value, all, k + 1, speed);
    } else {
      assert all[..k] == all;
    }
  }

  lemma DescHeader(c: seq<byte>, o: nat, es: seq<Endpoint>, open: bool, speed: nat)
    requires DescOk(c, o, es, open, speed)
    ensures o < |c| && Header(c, o) && Kind(c, o) != DESC_INTERFACE
  {
  }

  lemma StepIsOpen(c: seq<byte>, o: nat, s: State, speed: nat)
    requires Linked(s) && Has(c, o, DESC_INTERFACE, 9)
    ensures Step(c, o, s, speed) == InterfaceStep(c, o, s)
  {
  }

  lemma StartTidy(c: seq<byte>, speed: nat, memory: nat)
    requires |c| >= CONFIG_SIZE
    ensures var s := Start(memory);
            Linked(s) && Inv(c, CONFIG_SIZE, s) && Tidy(s) && Starts(s.blocks) == [] && Latest(s) == [] && s.memory == memory
    ensures Sofar(c, CONFIG_SIZE, [], speed, memory)
  {
    StartInv(c, memory);
  }

  /** parse_interfaces, up to the collection of the active endpoints, accepts a configuration
      exactly when its bytes are in order. */
  lemma AcceptsIff(c: seq<byte>, speed: nat, memory: nat)
    requires |c| >= CONFIG_SIZE
    ensures Interfaces(c, speed, memory).Ok? <==> exists starts :: Configured(c, starts, speed, memory)
  {
    hide Inv, Scan, Tidy, Sofar, Configured, WindowOk;
    StartTidy(c, speed, memory);
    if Interfaces(c, speed, memory).Ok? {
      ScanShows(c, CONFIG_SIZE, Start(memory), speed);
      FinishIff(c, Scan(c, CONFIG_SIZE, Start(memory), speed).value, speed);
    }
    if starts :| Configured(c, starts, speed, memory) {
      FirstWindow(c, starts, speed, memory);
      ReadsToTheEnd(c, CONFIG_SIZE, Start(memory), starts, 0, speed);
      ScanShows(c, CONFIG_SIZE, Start(memory), speed);
      FinishIff(c, Scan(c, CONFIG_SIZE, Start(memory), speed).value, speed);
    }
  }

  lemma FirstWindow(c: seq<byte>, starts: seq<nat>, speed: nat, memory: nat)
    requires |c| >= CONFIG_SIZE && Configured(c, starts, speed, memory)
    ensures starts != [] && CONFIG_SIZE <= starts[0] && WindowOk(c, CONFIG_SIZE, starts[0], [], false, speed)
  {
  }

  // ----- the endpoints of the default settings

  /** The interface numbers in the order in which the descriptors first name them. */
  function Firsts(c: seq<byte>, starts: seq<nat>): seq<nat> {
    if starts == [] then []
    else
      var before, n := Firsts(c, Front(starts)), Number(c, Top(starts));
      if n in before then before else before + [n]
  }

  /** The window that gives setting 0 of an interface, or the number of windows. */
  function DefaultOf(c: seq<byte>, starts: seq<nat>, number: nat): (k: nat)
    ensures k <= |starts|
    ensures k < |starts| ==> Number(c, starts[k]) == number && Setting(c, starts[k]) == 0
    ensures k == |starts| ==> !Named(c, starts, number, 0)
  {
    if starts == [] then 0
    else if Number(c, Top(starts)) == number && Setting(c, Top(starts)) == 0 then |starts| - 1
    else
      var k := DefaultOf(c, Front(starts), number);
      if k < |starts| - 1 then k else |starts|
  }

  /** The endpoints in the window that gives setting 0 of an interface. */
  function WindowEndpoints(c: seq<byte>, starts: seq<nat>, k: nat): seq<Endpoint>
    requires k < |starts|
  {
    var w := starts[k];
    if w < |c| then EndpointsIn(c, w + Len(c, w), Next(|c|, starts, k), []) else []
  }

  /** The endpoints of setting 0 of each of these interfaces. */
  function DefaultEndpoints(c: seq<byte>, starts: seq<nat>, numbers: seq<nat>): seq<Endpoint> {
    if numbers == [] then []
    else
      var k := DefaultOf(c, starts, Top(numbers));
      DefaultEndpoints(c, starts, Front(numbers)) + if k < |starts| then WindowEndpoints(c, starts, k) else []
  }

  function NumbersOf(fs: seq<Interface>): seq<nat> {
    seq(|fs|, i requires 0 <= i < |fs| => fs[i].number)
  }

  lemma OrderInside(c: seq<byte>, o: nat, s: State, speed: nat)
    requires Linked(s) && Header(c, o) && Kind(c, o) != DESC_INTERFACE && Step(c, o, s, speed).Ok?
    ensures NumbersOf(Step(c, o, s, speed).value.interfaces) == NumbersOf(s.interfaces)
  {
    hide EndpointValid, Addressed;
  }

  lemma OrderOpens(c: seq<byte>, o: nat, s: State)
    requires Linked(s) && Has(c, o, DESC_INTERFACE, 9) && InterfaceStep(c, o, s).Ok?
    requires NumbersOf(s.interfaces) == Firsts(c, Starts(s.blocks))
    ensures NumbersOf(InterfaceStep(c, o, s).value.interfaces) == Firsts(c, Starts(s.blocks) + [o])
  {
    hide Numbered, Firsts;
    var n, t := c[o + 2], Close(s, o);
    assert NumbersOf(t.interfaces) == NumbersOf(s.interfaces);
    var i, fs := Find(t.interfaces, n), InterfaceStep(c, o, s).value.interfaces;
    FirstsStep(c, Starts(s.blocks), o);
    if i < |t.interfaces| {
      assert NumbersOf(t.interfaces)[i] == n;
      assert NumbersOf(fs) == NumbersOf(t.interfaces);
    } else {
      assert n !in NumbersOf(t.interfaces);
      assert NumbersOf(fs) == NumbersOf(t.interfaces) + [n];
    }
  }

  lemma FirstsStep(c: seq<byte>, starts: seq<nat>, o: nat)
    ensures var before := Firsts(c, starts);
            Firsts(c, starts + [o]) == if Number(c, o) in before then before else before + [Number(c, o)]
  {
    assert Front(starts + [o]) == starts && Top(starts + [o]) == o;
  }

  lemma {:induction false} ScanOrders(c: seq<byte>, o: nat, s: State, speed: nat)
    requires Linked(s) && Inv(c, o, s) && Tidy(s) && NumbersOf(s.interfaces) == Firsts(c, Starts(s.blocks))
    requires Scan(c, o, s, speed).Ok?
    ensures var t := Scan(c, o, s, speed).value; NumbersOf(t.interfaces) == Firsts(c, Starts(t.blocks))
    decreases |c| - o
  {
    hide Inv, Step, Tidy, Firsts, InterfaceStep;
    if o < |c| {
      StepLinked(c, o, s, speed);
      StepKeeps(c, o, s, speed);
      if Kind(c, o) == DESC_INTERFACE {
        LongEnough(c, o, s, speed);
        StepIsOpen(c, o, s, speed);
        StepOpens(c, o, s);
        OrderOpens(c, o, s);
      } else {
        StepInside(c, o, s, speed);
        OrderInside(c, o, s, speed);
      }
      ScanOrders(c, o + Len(c, o), Step(c, o, s, speed).value, speed);
    }
  }

  lemma LongEnough(c: seq<byte>, o: nat, s: State, speed: nat)
    requires Linked(s) && Header(c, o) && Kind(c, o) == DESC_INTERFACE && Step(c, o, s, speed).Ok?
    ensures Has(c, o, DESC_INTERFACE, 9)
  {
  }

  /** The active setting of an interface is the window the bytes give for its setting 0. */
  lemma ActiveWindow(c: seq<byte>, t: State, f: Interface, i: nat)
    requires Inv(c, |c|, t) && Distinct(c, Starts(t.blocks)) && i < |t.interfaces| && f.number == t.interfaces[i].number
    requires f.active.Some? && f.active.value in t.interfaces[i].alternates && f.active.value.number == 0
    ensures var k := DefaultOf(c, Starts(t.blocks), f.number);
            k < |t.blocks| && f.active.value.endpoints == WindowEndpoints(c, Starts(t.blocks), k)
  {
    hide Inv, DefaultOf, WindowEndpoints, Number, Setting, Distinct;
    var starts := Starts(t.blocks);
    assert t.interfaces[i].alternates == Of(t.blocks, i) by { AlternatesOf(c, t, i); }
    var j := OfFrom(t.blocks, i, f.active.value);
    BlockFields(c, |c|, t, j);
    DefaultIs(c, starts, j);
    BlockEndpoints(c, t, j);
  }

  lemma AlternatesOf(c: seq<byte>, t: State, i: nat)
    requires Inv(c, |c|, t) && i < |t.interfaces|
    ensures t.interfaces[i].alternates == Of(t.blocks, i)
  {
    hide Covers, EndpointsIn, Of, Unique, Preamble, Describes;
  }

  lemma BlockEndpoints(c: seq<byte>, t: State, k: nat)
    requires Inv(c, |c|, t) && k < |t.blocks|
    ensures t.blocks[k].alt.endpoints == WindowEndpoints(c, Starts(t.blocks), k)
  {
    hide Inv, Covers, EndpointsIn, DistinctAddresses;
    BlockFields(c, |c|, t, k);
  }

  /** Only one window gives setting 0 of an interface. */
  lemma DefaultIs(c: seq<byte>, starts: seq<nat>, j: nat)
    requires Distinct(c, starts) && j < |starts| && Setting(c, starts[j]) == 0
    ensures DefaultOf(c, starts, Number(c, starts[j])) == j
  {
    hide DefaultOf, Number, Setting;
    var n := Number(c, starts[j]);
    assert Named(c, starts, n, 0);
    var k := DefaultOf(c, starts, n);
    assert k < |starts|;
  }

  lemma {:induction false} ActiveAreDefaults(c: seq<byte>, t: State, fs: seq<Interface>)
    requires Inv(c, |c|, t) && Distinct(c, Starts(t.blocks)) && |fs| <= |t.interfaces|
    requires forall i :: 0 <= i < |fs| ==>
               && fs[i].number == t.interfaces[i].number && fs[i].active.Some?
               && fs[i].active.value in t.interfaces[i].alternates && fs[i].active.value.number == 0
    ensures ActiveEndpoints(fs) == DefaultEndpoints(c, Starts(t.blocks), NumbersOf(fs))
  {
    hide Inv, Distinct, WindowEndpoints;
    if fs != [] {
      ActiveAreDefaults(c, t, Front(fs));
      assert NumbersOf(Front(fs)) == Front(NumbersOf(fs));
      ActiveWindow(c, t, Top(fs), |fs| - 1);
    }
  }

  /** What parse_interfaces collects in the end, from the bytes. */
  lemma CollectsDefaults(c: seq<byte>, speed: nat, s: State)
    requires |c| >= CONFIG_SIZE && Linked(s) && Inv(c, |c|, s) && Tidy(s)
    requires Scan(c, CONFIG_SIZE, Start(s.memory), speed) == Ok(s) && Interfaces(c, speed, s.memory).Ok?
    requires Distinct(c, Starts(s.blocks)) && NumbersOf(s.interfaces) == Firsts(c, Starts(s.blocks))
    ensures var starts := Starts(s.blocks);
            ActiveEndpoints(Interfaces(c, speed, s.memory).value) == DefaultEndpoints(c, starts, Firsts(c, starts))
  {
    hide Inv, Scan, Tidy, Firsts, Distinct;
    ClosedSame(c, |c|, s);
    var t, fs := Close(s, |c|), Interfaces(c, speed, s.memory).value;
    assert NumbersOf(t.interfaces) == NumbersOf(s.interfaces);
    ActivatedAll(t.interfaces, |t.interfaces|);
    ActiveAreDefaults(c, t, fs);
    assert NumbersOf(fs) == NumbersOf(t.interfaces);
  }

  /** The bytes are in order and the endpoints of the default settings fit together. */
  ghost predicate InOrder(c: seq<byte>, starts: seq<nat>, speed: nat, memory: nat)
    requires |c| >= CONFIG_SIZE
  {
    Configured(c, starts, speed, memory) && Collectable(DefaultEndpoints(c, starts, Firsts(c, starts)))
  }

  /** The whole of parse_interfaces: it succeeds exactly on the configurations whose bytes are
      in order and whose default settings have at most 30 endpoints at distinct addresses. */
  lemma ParsesIff(c: seq<byte>, speed: nat, memory: nat)
    requires |c| >= CONFIG_SIZE
    ensures (Interfaces(c, speed, memory).Ok? && Collectable(ActiveEndpoints(Interfaces(c, speed, memory).value)))
            <==> exists starts :: InOrder(c, starts, speed, memory)
  {
    hide Inv, Scan, Tidy, Sofar, Configured, WindowOk, Collectable, Firsts, Interfaces;
    AcceptsIff(c, speed, memory);
    if Interfaces(c, speed, memory).Ok? {
      var s := FinalState(c, speed, memory);
      if Collectable(ActiveEndpoints(Interfaces(c, speed, memory).value)) {
        assert InOrder(c, Starts(s.blocks), speed, memory);
      }
      if starts :| InOrder(c, starts, speed, memory) {
        FinalStarts(c, speed, memory, starts);
      }
    }
  }

  /** The state after the loop of an accepted configuration. */
  lemma FinalState(c: seq<byte>, speed: nat, memory: nat) returns (s: State)
    requires |c| >= CONFIG_SIZE && Interfaces(c, speed, memory).Ok?
    ensures Scan(c, CONFIG_SIZE, Start(memory), speed) == Ok(s) && Configured(c, Starts(s.blocks), speed, memory)
    ensures var starts := Starts(s.blocks);
            ActiveEndpoints(Interfaces(c, speed, memory).value) == DefaultEndpoints(c, starts, Firsts(c, starts))
  {
    hide Inv, Scan, Tidy, Sofar, Configured, WindowOk, Firsts;
    StartTidy(c, speed, memory);
    NothingFirst(c, memory);
    ScanShows(c, CONFIG_SIZE, Start(memory), speed);
    ScanOrders(c, CONFIG_SIZE, Start(memory), speed);
    s := Scan(c, CONFIG_SIZE, Start(memory), speed).value;
    FinishIff(c, s, speed);
    StartsDistinct(c, Starts(s.blocks), speed, memory);
    CollectsDefaults(c, speed, s);
  }

  lemma FinalStarts(c: seq<byte>, speed: nat, memory: nat, starts: seq<nat>)
    requires |c| >= CONFIG_SIZE && Configured(c, starts, speed, memory)
    ensures Scan(c, CONFIG_SIZE, Start(memory), speed).Ok?
    ensures Starts(Scan(c, CONFIG_SIZE, Start(memory), speed).value.blocks) == starts
  {
    hide Inv, Scan, Tidy, Configured, WindowOk;
    StartTidy(c, speed, memory);
    FirstWindow(c, starts, speed, memory);
    ReadsToTheEnd(c, CONFIG_SIZE, Start(memory), starts, 0, speed);
  }

  lemma NothingFirst(c: seq<byte>, memory: nat)
    ensures NumbersOf(Start(memory).interfaces) == Firsts(c, Starts(Start(memory).blocks))
  {
  }

  lemma StartsDistinct(c: seq<byte>, starts: seq<nat>, speed: nat, memory: nat)
    requires |c| >= CONFIG_SIZE && Configured(c, starts, speed, memory)
    ensures Distinct(c, starts)
  {
  }
}
