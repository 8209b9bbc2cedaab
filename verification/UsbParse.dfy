/** The USB configuration parser (parse_interfaces and collect_endpoints in
    src/device/usb/usb.c).

    A configuration is a byte string of descriptors, each starting with its length and
    type (section 9.6 of the USB 2.0 specification).  The parser walks it once and
    builds the interfaces, their alternate settings and the endpoints of each setting.

    Offsets into the configuration stand for the pointers the code keeps. */
module UsbParse {
  import opened Bytes
  import opened Wrappers

  const ENOMEM := 12
  const EINVAL := 22
  const ENOSPC := 28
  const MAX_INTERFACES := 8
  const MAX_ENDPOINTS := 30
  const MAX_ALTERNATES := 128
  const CONFIG_SIZE := 9
  const DESC_INTERFACE := 4
  const DESC_ENDPOINT := 5
  const DESC_COMPANION := 48
  const SPEED_HIGH := 3
  const SPEED_SUPER := 4
  const XFER_ISOCHRONOUS := 1
  const XFER_INTERRUPT := 3

  datatype Endpoint = Endpoint(
    address: nat, attributes: nat, maxPacket: nat, interval: nat, burst: nat, bytesInterval: nat, mult: nat)

  /** An alternate setting and the window of the configuration that describes it. */
  datatype Alternate = Alternate(number: nat, offset: nat, length: nat, endpoints: seq<Endpoint>)

  /** `alternates` has the latest setting first, as the code's list does. */
  datatype Interface = Interface(
    number: nat, cls: nat, subclass: nat, protocol: nat, alternates: seq<Alternate>, active: Option<Alternate>)

  /** An alternate setting as found: the index of its interface and the number of endpoints
      its descriptor declares. */
  datatype Block = Block(iface: nat, alt: Alternate, expected: nat)

  /** What the parser holds between two descriptors.  `blocks` lists the settings in the
      order of the configuration; `last` says whether an endpoint has been seen in the
      latest.  `memory` is the number of settings that can be allocated. */
  datatype State = State(interfaces: seq<Interface>, blocks: seq<Block>, last: bool, memory: nat)

  function Start(memory: nat): State { State([], [], false, memory) }

  function Front<T>(s: seq<T>): seq<T>
    requires s != []
  {
    s[..|s| - 1]
  }

  function Top<T>(s: seq<T>): T
    requires s != []
  {
    s[|s| - 1]
  }

  // ----- fields of a descriptor

  function Len(c: seq<byte>, o: nat): nat
    requires o < |c|
  {
    c[o]
  }

  /** A descriptor header at o that fits the configuration. */
  predicate Header(c: seq<byte>, o: nat) {
    o + 2 <= |c| && 2 <= Len(c, o) <= |c| - o
  }

  function Kind(c: seq<byte>, o: nat): nat
    requires Header(c, o)
  {
    c[o + 1]
  }

  predicate Has(c: seq<byte>, o: nat, kind: nat, size: nat) {
    Header(c, o) && Kind(c, o) == kind && Len(c, o) >= size
  }

  function Word(c: seq<byte>, o: nat): nat
    requires o + 1 < |c|
  {
    (c[o] as int) + 256 * (c[o + 1] as int)
  }

  function Packet(c: seq<byte>, o: nat): nat
    requires Has(c, o, DESC_ENDPOINT, 7)
  {
    Word(c, o + 4)
  }

  function EndpointAt(c: seq<byte>, o: nat): Endpoint
    requires Has(c, o, DESC_ENDPOINT, 7)
  {
    Endpoint(c[o + 2], c[o + 3], Packet(c, o) % 2048, c[o + 6], Packet(c, o) / 2048 % 4, 0, 0)
  }

  /** The checks on an endpoint descriptor. */
  predicate EndpointValid(c: seq<byte>, o: nat, speed: nat)
    requires Has(c, o, DESC_ENDPOINT, 7)
  {
    var transactions, kind := Packet(c, o) / 2048 % 4, c[o + 3] % 4;
    && c[o + 2] / 16 % 8 == 0 && c[o + 2] % 16 != 0
    && Packet(c, o) != 0 && Packet(c, o) < 8192 && transactions != 3
    && (transactions != 0 ==> speed == SPEED_HIGH && (kind == XFER_INTERRUPT || kind == XFER_ISOCHRONOUS))
  }

  /** An endpoint extended by its SuperSpeed companion. */
  function Companion(c: seq<byte>, o: nat, e: Endpoint): Endpoint
    requires Has(c, o, DESC_COMPANION, 6)
  {
    e.(burst := c[o + 2], mult := if e.attributes % 4 == XFER_ISOCHRONOUS then c[o + 3] % 4 else 0,
       bytesInterval := Word(c, o + 4))
  }

  // ----- the reference reading of a window of descriptors

  /** What one descriptor adds to the endpoints read so far. */
  function Absorb(c: seq<byte>, o: nat, es: seq<Endpoint>): seq<Endpoint> {
    if Has(c, o, DESC_ENDPOINT, 7) then es + [EndpointAt(c, o)]
    else if Has(c, o, DESC_COMPANION, 6) && es != [] then Front(es) + [Companion(c, o, Top(es))]
    else es
  }

  /** The endpoints described between o and end. */
  function EndpointsIn(c: seq<byte>, o: nat, end: nat, es: seq<Endpoint>): seq<Endpoint>
    decreases end - o
  {
    if o >= end || !Header(c, o) then es else EndpointsIn(c, o + Len(c, o), end, Absorb(c, o, es))
  }

  /** `end` is a descriptor boundary reached from o, with no interface descriptor between. */
  ghost predicate Covers(c: seq<byte>, o: nat, end: nat)
    decreases end - o
  {
    o == end || (o < end && Header(c, o) && Kind(c, o) != DESC_INTERFACE && Covers(c, o + Len(c, o), end))
  }

  lemma {:induction false} Extend(c: seq<byte>, o: nat, end: nat, es: seq<Endpoint>)
    requires Covers(c, o, end) && Header(c, end)
    ensures Kind(c, end) != DESC_INTERFACE ==> Covers(c, o, end + Len(c, end))
    ensures EndpointsIn(c, o, end + Len(c, end), es) == Absorb(c, end, EndpointsIn(c, o, end, es))
    decreases end - o
  {
    if o < end {
      Extend(c, o + Len(c, o), end, Absorb(c, o, es));
    } else {
      var next := end + Len(c, end);
      assert EndpointsIn(c, next, next, Absorb(c, end, es)) == Absorb(c, end, es);
      assert Covers(c, next, next);
    }
  }

  // ----- the parser

  /** Index of the interface with this number, or the number of interfaces. */
  function Find(interfaces: seq<Interface>, number: nat): (i: nat)
    ensures i <= |interfaces|
    ensures i < |interfaces| ==> interfaces[i].number == number
    ensures i == |interfaces| ==> forall j :: 0 <= j < |interfaces| ==> interfaces[j].number != number
  {
    if interfaces == [] then 0
    else if Top(interfaces).number == number then |interfaces| - 1
    else
      var i := Find(Front(interfaces), number);
      if i < |interfaces| - 1 then i else |interfaces|
  }

  predicate Numbered(alternates: seq<Alternate>, number: nat) {
    exists j :: 0 <= j < |alternates| && alternates[j].number == number
  }

  predicate Addressed(endpoints: seq<Endpoint>, address: nat) {
    exists j :: 0 <= j < |endpoints| && endpoints[j].address == address
  }

  /** The latest setting is replaced by `b` in the block list and in its interface. */
  function Replace(s: State, b: Block): State
    requires s.blocks != [] && b.iface < |s.interfaces| && s.interfaces[b.iface].alternates != []
  {
    var f := s.interfaces[b.iface];
    s.(blocks := Front(s.blocks) + [b],
       interfaces := s.interfaces[b.iface := f.(alternates := [b.alt] + f.alternates[1..])])
  }

  /** The latest setting can be written through: its interface lists it first. */
  predicate Linked(s: State) {
    s.blocks != [] ==>
      && Top(s.blocks).iface < |s.interfaces|
      && s.interfaces[Top(s.blocks).iface].alternates != []
  }

  /** The window of the latest setting ends at o. */
  function Close(s: State, o: nat): State
    requires Linked(s)
  {
    if s.blocks == [] then s
    else
      var b := Top(s.blocks);
      Replace(s, b.(alt := b.alt.(length := if o >= b.alt.offset then o - b.alt.offset else 0)))
  }

  function Complete(s: State): bool {
    s.blocks == [] || |Top(s.blocks).alt.endpoints| == Top(s.blocks).expected
  }

  /** The interfaces, with the one the descriptor at o names. */
  function WithInterface(c: seq<byte>, o: nat, interfaces: seq<Interface>): (all: seq<Interface>)
    requires Has(c, o, DESC_INTERFACE, 9)
    ensures Find(interfaces, c[o + 2]) < |all|
  {
    if Find(interfaces, c[o + 2]) < |interfaces| then interfaces
    else interfaces + [Interface(c[o + 2], c[o + 5], c[o + 6], c[o + 7], [], None)]
  }

  function InterfaceStep(c: seq<byte>, o: nat, s: State): Result<State>
    requires Has(c, o, DESC_INTERFACE, 9) && Linked(s)
  {
    if !Complete(s) || |s.blocks| + 1 > MAX_ALTERNATES then Err(EINVAL)
    else
      var t := Close(s, o);
      var i := Find(t.interfaces, c[o + 2]);
      if i == MAX_INTERFACES && i == |t.interfaces| then Err(ENOSPC)
      else
        var all := WithInterface(c, o, t.interfaces);
        if Numbered(all[i].alternates, c[o + 3]) then Err(EINVAL)
        else if |t.blocks| >= t.memory then Err(ENOMEM)
        else
          var alt := Alternate(c[o + 3], o, 0, []);
          Ok(State(all[i := all[i].(alternates := [alt] + all[i].alternates)],
                   t.blocks + [Block(i, alt, c[o + 4])], false, t.memory))
  }

  function EndpointStep(c: seq<byte>, o: nat, s: State, speed: nat): Result<State>
    requires Has(c, o, DESC_ENDPOINT, 7) && Linked(s)
  {
    if s.blocks == [] || |Top(s.blocks).alt.endpoints| == MAX_ENDPOINTS then Err(EINVAL)
    else if !EndpointValid(c, o, speed) || Addressed(Top(s.blocks).alt.endpoints, c[o + 2]) then Err(EINVAL)
    else
      var b := Top(s.blocks);
      Ok(Replace(s, b.(alt := b.alt.(endpoints := b.alt.endpoints + [EndpointAt(c, o)]))).(last := true))
  }

  function CompanionStep(c: seq<byte>, o: nat, s: State, speed: nat): Result<State>
    requires Has(c, o, DESC_COMPANION, 6) && Linked(s)
  {
    if s.blocks == [] || Top(s.blocks).alt.endpoints == [] || !s.last || speed < SPEED_SUPER || c[o + 2] > 15 then
      Err(EINVAL)
    else
      var b := Top(s.blocks);
      var e := Companion(c, o, Top(b.alt.endpoints));
      if e.mult == 3 then Err(EINVAL)
      else Ok(Replace(s, b.(alt := b.alt.(endpoints := Front(b.alt.endpoints) + [e]))))
  }

  /** The body of the descriptor loop. */
  function Step(c: seq<byte>, o: nat, s: State, speed: nat): Result<State>
    requires Linked(s)
  {
    if !Header(c, o) then Err(EINVAL)
    else if Kind(c, o) == DESC_INTERFACE then
      if Len(c, o) < 9 then Err(EINVAL) else InterfaceStep(c, o, s)
    else if Kind(c, o) == DESC_ENDPOINT then
      if Len(c, o) < 7 then Err(EINVAL) else EndpointStep(c, o, s, speed)
    else if Kind(c, o) == DESC_COMPANION then
      if Len(c, o) < 6 then Err(EINVAL) else CompanionStep(c, o, s, speed)
    else Ok(s)
  }

  lemma StepLinked(c: seq<byte>, o: nat, s: State, speed: nat)
    requires Linked(s)
    ensures Step(c, o, s, speed).Ok? ==> Header(c, o) && Linked(Step(c, o, s, speed).value)
  {
  }

  /** The descriptor loop from offset o on. */
  function Scan(c: seq<byte>, o: nat, s: State, speed: nat): Result<State>
    requires Linked(s)
    decreases |c| - o
  {
    if o >= |c| then Ok(s)
    else
      StepLinked(c, o, s, speed);
      match Step(c, o, s, speed)
      case Err(e) => Err(e)
      case Ok(t) => Scan(c, o + Len(c, o), t, speed)
  }

  // ----- the invariant of the loop

  /** The settings of interface i, latest first. */
  function Of(blocks: seq<Block>, i: nat): seq<Alternate> {
    if blocks == [] then []
    else if Top(blocks).iface == i then [Top(blocks).alt] + Of(Front(blocks), i)
    else Of(Front(blocks), i)
  }

  ghost predicate DistinctAddresses(es: seq<Endpoint>) {
    forall j, k :: 0 <= j < k < |es| ==> es[j].address != es[k].address
  }

  ghost predicate DistinctNumbers(alternates: seq<Alternate>) {
    forall j, k :: 0 <= j < k < |alternates| ==> alternates[j].number != alternates[k].number
  }

  /** Block b describes the descriptors from its interface descriptor up to `end`. */
  ghost predicate Describes(c: seq<byte>, interfaces: seq<Interface>, b: Block, end: nat) {
    var o := b.alt.offset;
    && Has(c, o, DESC_INTERFACE, 9)
    && b.iface < |interfaces| && interfaces[b.iface].number == c[o + 2]
    && b.alt.number == c[o + 3] && b.expected == c[o + 4]
    && Covers(c, o + Len(c, o), end)
    && b.alt.endpoints == EndpointsIn(c, o + Len(c, o), end, [])
    && DistinctAddresses(b.alt.endpoints)
  }

  /** A block whose window is closed: it ends where the next begins and has the endpoints
      it declared. */
  ghost predicate Closed(b: Block) {
    b.alt.length > 0 && |b.alt.endpoints| == b.expected
  }

  ghost predicate Unique(interfaces: seq<Interface>) {
    && |interfaces| <= MAX_INTERFACES
    && (forall j, k :: 0 <= j < k < |interfaces| ==> interfaces[j].number != interfaces[k].number)
    && (forall j :: 0 <= j < |interfaces| ==> DistinctNumbers(interfaces[j].alternates))
  }

  /** Before the first interface descriptor there is no endpoint. */
  ghost predicate Preamble(c: seq<byte>, o: nat) {
    Covers(c, CONFIG_SIZE, o) && EndpointsIn(c, CONFIG_SIZE, o, []) == []
  }

  /** Between two descriptors, at offset o. */
  ghost predicate Inv(c: seq<byte>, o: nat, s: State) {
    && o <= |c| && Linked(s) && |s.blocks| <= MAX_ALTERNATES
    && Unique(s.interfaces)
    && (forall i: nat :: i < |s.interfaces| ==> s.interfaces[i].alternates == Of(s.blocks, i))
    && (forall k :: 0 <= k < |s.blocks| - 1 ==>
          && Closed(s.blocks[k])
          && s.blocks[k + 1].alt.offset == s.blocks[k].alt.offset + s.blocks[k].alt.length
          && Describes(c, s.interfaces, s.blocks[k], s.blocks[k + 1].alt.offset))
    && (s.blocks == [] ==> s.interfaces == [] && Preamble(c, o))
    && (s.blocks != [] ==>
          && Preamble(c, s.blocks[0].alt.offset)
          && Describes(c, s.interfaces, Top(s.blocks), o))
    && (s.last ==> s.blocks != [] && Top(s.blocks).alt.endpoints != [])
  }

  // ----- every descriptor keeps the invariant

  /** Interface numbers only ever grow. */
  ghost predicate SameNumbers(a: seq<Interface>, b: seq<Interface>) {
    |a| <= |b| && forall i :: 0 <= i < |a| ==> a[i].number == b[i].number
  }

  lemma ReplaceTop(s: State, b: Block)
    requires Linked(s) && s.blocks != [] && b.iface == Top(s.blocks).iface && b.alt.number == Top(s.blocks).alt.number
    requires forall i: nat :: i < |s.interfaces| ==> s.interfaces[i].alternates == Of(s.blocks, i)
    requires Unique(s.interfaces)
    ensures var t := Replace(s, b);
            && Linked(t) && Unique(t.interfaces) && SameNumbers(s.interfaces, t.interfaces)
            && |t.interfaces| == |s.interfaces|
            && (forall i: nat :: i < |t.interfaces| ==> t.interfaces[i].alternates == Of(t.blocks, i))
            && |t.blocks| == |s.blocks| && Top(t.blocks) == b && Front(t.blocks) == Front(s.blocks)
            && t.last == s.last
  {
    hide Unique;
    var t := Replace(s, b);
    assert Front(t.blocks) == Front(s.blocks);
    assert s.interfaces[b.iface].alternates == Of(s.blocks, b.iface);
    ReplacedUnique(s, b);
    forall i: nat | i < |t.interfaces|
      ensures t.interfaces[i].alternates == Of(t.blocks, i)
    {
      assert s.interfaces[i].alternates == Of(s.blocks, i);
    }
  }

  lemma ReplacedUnique(s: State, b: Block)
    requires Linked(s) && s.blocks != [] && b.iface == Top(s.blocks).iface && b.alt.number == Top(s.blocks).alt.number
    requires Unique(s.interfaces) && s.interfaces[b.iface].alternates[0].number == b.alt.number
    ensures Unique(Replace(s, b).interfaces) && SameNumbers(s.interfaces, Replace(s, b).interfaces)
  {
    hide DistinctNumbers;
    var fs := Replace(s, b).interfaces;
    forall i | 0 <= i < |fs|
      ensures DistinctNumbers(fs[i].alternates)
    {
      assert DistinctNumbers(s.interfaces[i].alternates);
      if i == b.iface { SameDistinct(s.interfaces[i].alternates, fs[i].alternates); }
    }
  }

  lemma SameDistinct(a: seq<Alternate>, b: seq<Alternate>)
    requires |a| == |b| && DistinctNumbers(a) && forall j :: 0 <= j < |a| ==> b[j].number == a[j].number
    ensures DistinctNumbers(b)
  {
  }

  /** What remains to be shown of a new state when the blocks before the latest and the
      interface numbers are as before. */
  lemma LatestChanged(c: seq<byte>, o: nat, s: State, p: nat, t: State)
    requires Inv(c, o, s) && s.blocks != [] && p <= |c|
    requires Linked(t) && Unique(t.interfaces) && SameNumbers(s.interfaces, t.interfaces)
    requires forall i: nat :: i < |t.interfaces| ==> t.interfaces[i].alternates == Of(t.blocks, i)
    requires t.blocks != [] && Front(t.blocks) == Front(s.blocks)
    requires Top(t.blocks).alt.offset == Top(s.blocks).alt.offset
    requires Describes(c, t.interfaces, Top(t.blocks), p)
    requires t.last ==> Top(t.blocks).alt.endpoints != []
    ensures Inv(c, p, t)
  {
    forall k | 0 <= k < |t.blocks| - 1
      ensures && Closed(t.blocks[k])
              && t.blocks[k + 1].alt.offset == t.blocks[k].alt.offset + t.blocks[k].alt.length
              && Describes(c, t.interfaces, t.blocks[k], t.blocks[k + 1].alt.offset)
    {
      assert t.blocks[k] == Front(t.blocks)[k] == s.blocks[k];
      assert Closed(s.blocks[k]) && Describes(c, s.interfaces, s.blocks[k], s.blocks[k + 1].alt.offset);
      if k + 1 < |t.blocks| - 1 {
        assert t.blocks[k + 1] == Front(t.blocks)[k + 1] == s.blocks[k + 1];
      }
    }
    assert t.blocks[0].alt.offset == s.blocks[0].alt.offset by {
      if |t.blocks| > 1 { assert Front(t.blocks)[0] == Front(s.blocks)[0]; }
    }
  }

  lemma SkipKeeps(c: seq<byte>, o: nat, s: State)
    requires Inv(c, o, s) && Header(c, o)
    requires Kind(c, o) !in {DESC_INTERFACE, DESC_ENDPOINT, DESC_COMPANION}
    ensures Inv(c, o + Len(c, o), s)
  {
    if s.blocks == [] {
      Extend(c, CONFIG_SIZE, o, []);
    } else {
      var start := Top(s.blocks).alt.offset;
      Extend(c, start + Len(c, start), o, []);
      LatestChanged(c, o, s, o + Len(c, o), s);
    }
  }

  lemma EndpointKeeps(c: seq<byte>, o: nat, s: State, speed: nat)
    requires Inv(c, o, s) && Has(c, o, DESC_ENDPOINT, 7) && EndpointStep(c, o, s, speed).Ok?
    ensures Inv(c, o + Len(c, o), EndpointStep(c, o, s, speed).value)
  {
    hide Replace, Of, Unique, Covers, EndpointsIn, Closed;
    var b := Top(s.blocks);
    var b1 := b.(alt := b.alt.(endpoints := b.alt.endpoints + [EndpointAt(c, o)]));
    var t := EndpointStep(c, o, s, speed).value;
    ReplaceTop(s, b1);
    Extend(c, b.alt.offset + Len(c, b.alt.offset), o, []);
    LatestChanged(c, o, s, o + Len(c, o), t);
  }

  lemma CompanionKeeps(c: seq<byte>, o: nat, s: State, speed: nat)
    requires Inv(c, o, s) && Has(c, o, DESC_COMPANION, 6) && CompanionStep(c, o, s, speed).Ok?
    ensures Inv(c, o + Len(c, o), CompanionStep(c, o, s, speed).value)
  {
    hide Replace, Of, Unique, Covers, EndpointsIn, Closed;
    var b := Top(s.blocks);
    var es := b.alt.endpoints;
    var b1 := b.(alt := b.alt.(endpoints := Front(es) + [Companion(c, o, Top(es))]));
    var t := CompanionStep(c, o, s, speed).value;
    ReplaceTop(s, b1);
    Extend(c, b.alt.offset + Len(c, b.alt.offset), o, []);
    assert DistinctAddresses(b1.alt.endpoints);
    LatestChanged(c, o, s, o + Len(c, o), t);
  }

  /** Closing the latest window. */
  lemma CloseKeeps(c: seq<byte>, o: nat, s: State)
    requires Inv(c, o, s) && s.blocks != []
    ensures Inv(c, o, Close(s, o)) && SameNumbers(s.interfaces, Close(s, o).interfaces)
    ensures |Close(s, o).interfaces| == |s.interfaces| && |Close(s, o).blocks| == |s.blocks|
    ensures Top(Close(s, o).blocks).alt.length > 0
    ensures Top(Close(s, o).blocks).alt.offset + Top(Close(s, o).blocks).alt.length == o
    ensures Complete(Close(s, o)) <==> Complete(s)
  {
    hide Replace, Of, Unique, Covers, EndpointsIn, Closed;
    var b := Top(s.blocks);
    CoversForward(c, b.alt.offset + Len(c, b.alt.offset), o);
    var b1 := b.(alt := b.alt.(length := o - b.alt.offset));
    ReplaceTop(s, b1);
    LatestChanged(c, o, s, o, Close(s, o));
  }

  lemma {:induction false} CoversForward(c: seq<byte>, o: nat, end: nat)
    requires Covers(c, o, end)
    ensures o <= end
    decreases end - o
  {
  }

  /** Opening a window in interface i of `all`, at o. */
  lemma OpenKeeps(c: seq<byte>, o: nat, s: State, all: seq<Interface>, i: nat)
    requires Inv(c, o, s) && Has(c, o, DESC_INTERFACE, 9) && |s.blocks| < MAX_ALTERNATES
    requires s.blocks != [] ==>
               Closed(Top(s.blocks)) && Top(s.blocks).alt.offset + Top(s.blocks).alt.length == o
    requires i < |all| && SameNumbers(s.interfaces, all) && Unique(all) && all[i].number == c[o + 2]
    requires forall j: nat :: j < |all| ==> all[j].alternates == Of(s.blocks, j)
    requires !Numbered(all[i].alternates, c[o + 3])
    ensures var alt := Alternate(c[o + 3], o, 0, []);
            Inv(c, o + Len(c, o), State(all[i := all[i].(alternates := [alt] + all[i].alternates)],
                                        s.blocks + [Block(i, alt, c[o + 4])], false, s.memory))
  {
    hide Covers, EndpointsIn, Of, Unique, Describes, Preamble, Closed, SameNumbers, Numbered, Len;
    var alt := Alternate(c[o + 3], o, 0, []);
    var b := Block(i, alt, c[o + 4]);
    var t := State(all[i := all[i].(alternates := [alt] + all[i].alternates)], s.blocks + [b], false, s.memory);
    assert Front(t.blocks) == s.blocks && Top(t.blocks) == b;
    OpenInterface(s.blocks, all, b);
    Opened(c, o, t.interfaces, b);
    NumbersKept(s.interfaces, all, i, [alt] + all[i].alternates);
    EarlierKept(c, o, s, t);
  }

  lemma NumbersKept(a: seq<Interface>, b: seq<Interface>, i: nat, alternates: seq<Alternate>)
    requires SameNumbers(a, b) && i < |b|
    ensures SameNumbers(a, b[i := b[i].(alternates := alternates)])
  {
  }

  /** A window just opened describes its interface descriptor alone. */
  lemma Opened(c: seq<byte>, o: nat, interfaces: seq<Interface>, b: Block)
    requires Has(c, o, DESC_INTERFACE, 9) && b.iface < |interfaces| && interfaces[b.iface].number == c[o + 2]
    requires b.alt == Alternate(c[o + 3], o, 0, []) && b.expected == c[o + 4]
    ensures Describes(c, interfaces, b, o + Len(c, o))
  {
    EmptyWindow(c, o + Len(c, o));
  }

  /** The blocks before a new one stay as they are. */
  lemma EarlierKept(c: seq<byte>, o: nat, s: State, t: State)
    requires Inv(c, o, s) && SameNumbers(s.interfaces, t.interfaces)
    requires s.blocks != [] ==>
               Closed(Top(s.blocks)) && Top(s.blocks).alt.offset + Top(s.blocks).alt.length == o
    requires |t.blocks| == |s.blocks| + 1 && Front(t.blocks) == s.blocks && Top(t.blocks).alt.offset == o
    ensures forall k :: 0 <= k < |t.blocks| - 1 ==>
              && Closed(t.blocks[k])
              && t.blocks[k + 1].alt.offset == t.blocks[k].alt.offset + t.blocks[k].alt.length
              && Describes(c, t.interfaces, t.blocks[k], t.blocks[k + 1].alt.offset)
  {
    hide Covers, EndpointsIn, Of, Unique, DistinctAddresses;
    forall k | 0 <= k < |t.blocks| - 1
      ensures && Closed(t.blocks[k])
              && t.blocks[k + 1].alt.offset == t.blocks[k].alt.offset + t.blocks[k].alt.length
              && Describes(c, t.interfaces, t.blocks[k], t.blocks[k + 1].alt.offset)
    {
      assert t.blocks[k] == s.blocks[k];
      if k + 1 < |s.blocks| {
        assert Closed(s.blocks[k]) && Describes(c, s.interfaces, s.blocks[k], s.blocks[k + 1].alt.offset);
      } else {
        assert Describes(c, s.interfaces, Top(s.blocks), o);
      }
    }
  }

  lemma OpenInterface(blocks: seq<Block>, all: seq<Interface>, b: Block)
    requires b.iface < |all| && Unique(all) && !Numbered(all[b.iface].alternates, b.alt.number)
    requires forall j: nat :: j < |all| ==> all[j].alternates == Of(blocks, j)
    ensures var f := all[b.iface];
            var now := all[b.iface := f.(alternates := [b.alt] + f.alternates)];
            && Unique(now)
            && forall j: nat :: j < |now| ==> now[j].alternates == Of(blocks + [b], j)
  {
    var f := all[b.iface];
    var now := all[b.iface := f.(alternates := [b.alt] + f.alternates)];
    assert Front(blocks + [b]) == blocks && Top(blocks + [b]) == b;
    assert DistinctNumbers(f.alternates);
    assert forall j :: 0 <= j < |f.alternates| ==> f.alternates[j].number != b.alt.number;
    forall j: nat | j < |now|
      ensures now[j].alternates == Of(blocks + [b], j)
    {
      assert all[j].alternates == Of(blocks, j);
    }
  }

  lemma EmptyWindow(c: seq<byte>, o: nat)
    ensures Covers(c, o, o) && EndpointsIn(c, o, o, []) == []
  {
  }

  lemma InterfaceKeeps(c: seq<byte>, o: nat, s: State)
    requires Linked(s) && Inv(c, o, s) && Has(c, o, DESC_INTERFACE, 9) && InterfaceStep(c, o, s).Ok?
    ensures Inv(c, o + Len(c, o), InterfaceStep(c, o, s).value)
  {
    hide Covers, EndpointsIn, Replace, Inv, Of, Unique, Describes, Find, SameNumbers;
    ClosedForInterface(c, o, s);
    var t := Close(s, o);
    Chosen(c, o, t);
    OpenKeeps(c, o, t, WithInterface(c, o, t.interfaces), Find(t.interfaces, c[o + 2]));
  }

  lemma ClosedForInterface(c: seq<byte>, o: nat, s: State)
    requires Inv(c, o, s) && Complete(s) && |s.blocks| < MAX_ALTERNATES
    ensures var t := Close(s, o);
            && Inv(c, o, t) && |t.blocks| < MAX_ALTERNATES && |t.interfaces| <= MAX_INTERFACES
            && (t.blocks != [] ==> Closed(Top(t.blocks)) && Top(t.blocks).alt.offset + Top(t.blocks).alt.length == o)
  {
    hide Covers, EndpointsIn, Replace, Of, Describes;
    if s.blocks != [] { CloseKeeps(c, o, s); }
  }

  /** The interface an interface descriptor belongs to, created if need be. */
  lemma Chosen(c: seq<byte>, o: nat, t: State)
    requires Inv(c, o, t) && Has(c, o, DESC_INTERFACE, 9)
    requires Find(t.interfaces, c[o + 2]) < |t.interfaces| || |t.interfaces| < MAX_INTERFACES
    ensures var i, all := Find(t.interfaces, c[o + 2]), WithInterface(c, o, t.interfaces);
            && i < |all| && SameNumbers(t.interfaces, all) && Unique(all) && all[i].number == c[o + 2]
            && forall j: nat :: j < |all| ==> all[j].alternates == Of(t.blocks, j)
  {
    hide Covers, EndpointsIn, Describes;
    if Find(t.interfaces, c[o + 2]) == |t.interfaces| {
      BlocksLinked(c, o, t);
      NoneOf(t, |t.interfaces|);
    }
  }

  lemma BlocksLinked(c: seq<byte>, o: nat, s: State)
    requires Inv(c, o, s)
    ensures forall k :: 0 <= k < |s.blocks| ==> s.blocks[k].iface < |s.interfaces|
  {
    hide Covers, EndpointsIn, Of, Unique;
    forall k | 0 <= k < |s.blocks|
      ensures s.blocks[k].iface < |s.interfaces|
    {
      if k < |s.blocks| - 1 { assert Describes(c, s.interfaces, s.blocks[k], s.blocks[k + 1].alt.offset); }
    }
  }

  /** No block belongs to an interface that does not exist yet. */
  lemma NoneOf(s: State, i: nat)
    requires i >= |s.interfaces| && forall k :: 0 <= k < |s.blocks| ==> s.blocks[k].iface < |s.interfaces|
    ensures Of(s.blocks, i) == []
    decreases |s.blocks|
  {
    if s.blocks != [] { NoneOf(s.(blocks := Front(s.blocks)), i); }
  }

  lemma StepKeeps(c: seq<byte>, o: nat, s: State, speed: nat)
    requires Linked(s) && Inv(c, o, s) && o < |c| && Step(c, o, s, speed).Ok?
    ensures Inv(c, o + Len(c, o), Step(c, o, s, speed).value)
  {
    hide Inv, InterfaceStep, EndpointStep, CompanionStep;
    if Kind(c, o) == DESC_INTERFACE {
      InterfaceKeeps(c, o, s);
    } else if Kind(c, o) == DESC_ENDPOINT {
      EndpointKeeps(c, o, s, speed);
    } else if Kind(c, o) == DESC_COMPANION {
      CompanionKeeps(c, o, s, speed);
    } else {
      SkipKeeps(c, o, s);
    }
  }

  lemma {:induction false} ScanKeeps(c: seq<byte>, o: nat, s: State, speed: nat)
    requires Linked(s) && Inv(c, o, s) && Scan(c, o, s, speed).Ok?
    ensures Linked(Scan(c, o, s, speed).value) && Inv(c, |c|, Scan(c, o, s, speed).value)
    decreases |c| - o
  {
    hide Inv, Step;
    if o < |c| {
      StepKeeps(c, o, s, speed);
      StepLinked(c, o, s, speed);
      ScanKeeps(c, o + Len(c, o), Step(c, o, s, speed).value, speed);
    } else {
      ScanEnd(c, o, s);
    }
  }

  lemma ScanEnd(c: seq<byte>, o: nat, s: State)
    requires Inv(c, o, s) && o >= |c|
    ensures o == |c|
  {
  }

  // ----- after the loop

  /** The first setting of the list with this number, or the length of the list. */
  function Lookup(alternates: seq<Alternate>, number: nat): (j: nat)
    ensures j <= |alternates|
    ensures j < |alternates| ==> alternates[j].number == number
    ensures j == |alternates| ==> !Numbered(alternates, number)
  {
    if alternates == [] then 0
    else if alternates[0].number == number then 0
    else
      assert forall k :: 1 <= k < |alternates| ==> alternates[k] == alternates[1..][k - 1];
      1 + Lookup(alternates[1..], number)
  }

  /** select_alternate of setting 0 in the first k interfaces. */
  function Activated(interfaces: seq<Interface>, k: nat): Result<seq<Interface>>
    requires k <= |interfaces|
  {
    if k == 0 then Ok(interfaces)
    else
      match Activated(interfaces, k - 1)
      case Err(e) => Err(e)
      case Ok(fs) =>
        if k - 1 >= |fs| then Err(EINVAL)
        else
          var j := Lookup(fs[k - 1].alternates, 0);
          if j == |fs[k - 1].alternates| then Err(EINVAL)
          else Ok(fs[k - 1 := fs[k - 1].(active := Some(fs[k - 1].alternates[j]))])
  }

  /** The endpoints of the active settings, interface by interface. */
  function ActiveEndpoints(interfaces: seq<Interface>): seq<Endpoint> {
    if interfaces == [] then []
    else
      var f := Top(interfaces);
      ActiveEndpoints(Front(interfaces)) + if f.active.Some? then f.active.value.endpoints else []
  }

  /** When collect_endpoints accepts. */
  ghost predicate Collectable(es: seq<Endpoint>) {
    |es| <= MAX_ENDPOINTS && DistinctAddresses(es)
  }

  /** The interfaces parse_interfaces leaves behind before it collects the endpoints. */
  function Interfaces(c: seq<byte>, speed: nat, memory: nat): Result<seq<Interface>>
    requires |c| >= CONFIG_SIZE
  {
    match Scan(c, CONFIG_SIZE, Start(memory), speed)
    case Err(e) => Err(e)
    case Ok(s) =>
      if s.blocks == [] || !Complete(s) || |s.interfaces| != c[4] || !Linked(s) then Err(EINVAL)
      else
        var t := Close(s, |c|);
        Activated(t.interfaces, |t.interfaces|)
  }

  lemma {:induction false} ActivatedAll(interfaces: seq<Interface>, k: nat)
    requires k <= |interfaces| && Activated(interfaces, k).Ok?
    ensures var fs := Activated(interfaces, k).value;
            && |fs| == |interfaces|
            && (forall i :: 0 <= i < |fs| ==> fs[i] == interfaces[i].(active := fs[i].active))
            && (forall i :: 0 <= i < k ==>
                  fs[i].active.Some? && fs[i].active.value in fs[i].alternates && fs[i].active.value.number == 0)
            && (forall i :: k <= i < |fs| ==> fs[i] == interfaces[i])
  {
    if k > 0 { ActivatedAll(interfaces, k - 1); }
  }

  /** The settings found, in the order of the configuration, are `blocks`: their windows tile
      the bytes from the first interface descriptor to the end; each is what its own bytes
      describe, with exactly the endpoints it declares, at distinct addresses; each
      interface has exactly its own settings.  Interface numbers are distinct and as many as
      the configuration declares, setting numbers are distinct within an interface, and
      setting 0 is active everywhere. */
  ghost predicate Parsed(c: seq<byte>, fs: seq<Interface>, blocks: seq<Block>)
    requires |c| >= CONFIG_SIZE
  {
    && 0 < |blocks| <= MAX_ALTERNATES
    && Preamble(c, blocks[0].alt.offset)
    && (forall k :: 0 <= k < |blocks| ==>
          Describes(c, fs, blocks[k], blocks[k].alt.offset + blocks[k].alt.length) && Closed(blocks[k]))
    && (forall k :: 0 <= k < |blocks| - 1 ==>
          blocks[k + 1].alt.offset == blocks[k].alt.offset + blocks[k].alt.length)
    && Top(blocks).alt.offset + Top(blocks).alt.length == |c|
    && (forall i: nat :: i < |fs| ==> fs[i].alternates == Of(blocks, i))
    && |fs| == c[4] && Unique(fs)
    && (forall i :: 0 <= i < |fs| ==>
          fs[i].active.Some? && fs[i].active.value in fs[i].alternates && fs[i].active.value.number == 0)
  }

  /** What acceptance of any byte string means. */
  lemma ParseSound(c: seq<byte>, speed: nat, memory: nat)
    requires |c| >= CONFIG_SIZE && Interfaces(c, speed, memory).Ok?
    ensures exists blocks :: Parsed(c, Interfaces(c, speed, memory).value, blocks)
  {
    hide Scan, Close, Complete, Activated, Inv, Parsed, SameNumbers;
    StartInv(c, memory);
    ScanKeeps(c, CONFIG_SIZE, Start(memory), speed);
    var s := Scan(c, CONFIG_SIZE, Start(memory), speed).value;
    CloseKeeps(c, |c|, s);
    ActivatedParsed(c, Close(s, |c|));
  }

  /** With the last window closed at the end and setting 0 active everywhere, the state
      describes the whole configuration. */
  lemma ActivatedParsed(c: seq<byte>, t: State)
    requires |c| >= CONFIG_SIZE && Inv(c, |c|, t) && t.blocks != [] && Complete(t) && |t.interfaces| == c[4] as int
    requires Top(t.blocks).alt.length > 0 && Top(t.blocks).alt.offset + Top(t.blocks).alt.length == |c|
    requires Activated(t.interfaces, |t.interfaces|).Ok?
    ensures Parsed(c, Activated(t.interfaces, |t.interfaces|).value, t.blocks)
  {
    hide Activated, Covers, EndpointsIn, Of, Describes, Preamble, Unique;
    var fs := Activated(t.interfaces, |t.interfaces|).value;
    ActivatedAll(t.interfaces, |t.interfaces|);
    UniqueKept(t.interfaces, fs);
    FinalBlocks(c, t, fs);
  }

  lemma UniqueKept(a: seq<Interface>, b: seq<Interface>)
    requires Unique(a) && |b| == |a|
    requires forall i :: 0 <= i < |b| ==> b[i] == a[i].(active := b[i].active)
    ensures Unique(b)
  {
  }

  /** With the last window closed at the end, every block describes its own window. */
  lemma FinalBlocks(c: seq<byte>, t: State, fs: seq<Interface>)
    requires Inv(c, |c|, t) && t.blocks != [] && SameNumbers(t.interfaces, fs)
    requires Closed(Top(t.blocks)) && Top(t.blocks).alt.offset + Top(t.blocks).alt.length == |c|
    ensures forall k :: 0 <= k < |t.blocks| ==>
              Describes(c, fs, t.blocks[k], t.blocks[k].alt.offset + t.blocks[k].alt.length) && Closed(t.blocks[k])
  {
    hide Covers, EndpointsIn, Of, Unique;
    forall k | 0 <= k < |t.blocks|
      ensures Describes(c, fs, t.blocks[k], t.blocks[k].alt.offset + t.blocks[k].alt.length) && Closed(t.blocks[k])
    {
      if k < |t.blocks| - 1 {
        assert Describes(c, t.interfaces, t.blocks[k], t.blocks[k + 1].alt.offset);
      }
    }
  }

  lemma StartInv(c: seq<byte>, memory: nat)
    requires |c| >= CONFIG_SIZE
    ensures Inv(c, CONFIG_SIZE, Start(memory))
  {
  }
}
