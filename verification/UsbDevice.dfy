/** The USB device object (src/device/usb/usb.c): the parser's loops as imperative code,
    endpoint collection, and the switch of an interface to another alternate setting
    with its rollback.

    The device itself remembers the setting last selected by SET_INTERFACE (section
    9.4.10 of the USB 2.0 specification); `hw` is that memory.  A request that fails
    may or may not have reached the device. */
module UsbDevice {
  import UsbAccept
  import opened Bytes
  import opened UsbParse
  import opened Wrappers

  // ----- collecting endpoints

  /** What collect_endpoints returns for a list of endpoints: a duplicate address among
      the first 30 is EINVAL, otherwise a 31st endpoint is ENOSPC. */
  ghost function CollectResult(es: seq<Endpoint>): int {
    if !DistinctAddresses(if |es| <= MAX_ENDPOINTS then es else es[..MAX_ENDPOINTS]) then -EINVAL
    else if |es| > MAX_ENDPOINTS then -ENOSPC
    else 0
  }

  lemma CollectableIff(es: seq<Endpoint>)
    ensures CollectResult(es) == 0 <==> Collectable(es)
  {
  }

  lemma NothingCollected()
    ensures Collectable([])
  {
  }

  lemma {:induction false} ActivePrefix(fs: seq<Interface>, i: nat)
    requires i <= |fs|
    ensures ActiveEndpoints(fs[..i]) <= ActiveEndpoints(fs)
  {
    if i < |fs| {
      assert Front(fs)[..i] == fs[..i];
      ActivePrefix(Front(fs), i);
    } else {
      assert fs[..i] == fs;
    }
  }

  lemma ActiveStep(fs: seq<Interface>, i: nat)
    requires i < |fs|
    ensures ActiveEndpoints(fs[..i + 1]) == ActiveEndpoints(fs[..i]) + Endpoints(fs[i])
  {
    assert Front(fs[..i + 1]) == fs[..i] && Top(fs[..i + 1]) == fs[i];
  }

  /** The endpoint list of an interface: that of its active setting. */
  function Endpoints(f: Interface): seq<Endpoint> {
    if f.active.Some? then f.active.value.endpoints else []
  }

  /** A prefix with a problem decides the result. */
  lemma PrefixDecides(es: seq<Endpoint>, prefix: seq<Endpoint>, e: Endpoint)
    requires prefix + [e] <= es && Collectable(prefix)
    ensures |prefix| == MAX_ENDPOINTS ==> CollectResult(es) == -ENOSPC
    ensures |prefix| < MAX_ENDPOINTS && Addressed(prefix, e.address) ==> CollectResult(es) == -EINVAL
  {
    var n := |prefix|;
    assert prefix == es[..n] && es[n] == e;
    if n < MAX_ENDPOINTS && Addressed(prefix, e.address) {
      var first := if |es| <= MAX_ENDPOINTS then es else es[..MAX_ENDPOINTS];
      var j :| 0 <= j < |prefix| && prefix[j].address == e.address;
      assert first[j].address == first[n].address;
    }
  }

  // ----- switching settings

  datatype Dev = Dev(interfaces: seq<Interface>, endpoints: seq<Endpoint>, online: bool, hw: seq<nat>)

  /** The results of the host operations of one call, and what the device remembers after
      a SET_INTERFACE that failed. */
  datatype Host = Host(stoppable: bool, stop: int, setTo: int, configure: int, setBack: int, configureBack: int,
                       stray: nat, strayBack: nat)

  function WithActive(fs: seq<Interface>, i: nat, a: Alternate): seq<Interface>
    requires i < |fs|
  {
    fs[i := fs[i].(active := Some(a))]
  }

  /** Interface i has an active setting, one of its own. */
  ghost predicate Selected(f: Interface) {
    f.active.Some? && f.active.value in f.alternates && DistinctNumbers(f.alternates)
  }

  /** The endpoint list is that of the active settings, without a duplicate address; and
      while the device is online, its own settings are the active ones. */
  ghost predicate DevInv(d: Dev) {
    && |d.hw| == |d.interfaces|
    && (forall i :: 0 <= i < |d.interfaces| ==> Selected(d.interfaces[i]))
    && d.endpoints == ActiveEndpoints(d.interfaces) && Collectable(d.endpoints)
    && (d.online ==> forall i :: 0 <= i < |d.hw| ==> d.hw[i] == d.interfaces[i].active.value.number)
  }

  /** The endpoints the device would have with setting `a` active in interface i. */
  function Candidate(d: Dev, i: nat, a: Alternate): seq<Endpoint>
    requires i < |d.interfaces|
  {
    ActiveEndpoints(WithActive(d.interfaces, i, a))
  }

  /** The state after the old setting has been put back. */
  function RolledBack(d: Dev, i: nat, h: Host): Dev
    requires i < |d.interfaces| == |d.hw| && d.interfaces[i].active.Some?
  {
    d.(hw := d.hw[i := if h.setBack >= 0 then d.interfaces[i].active.value.number else h.strayBack],
       online := d.online && h.setBack >= 0 && h.configureBack >= 0)
  }

  /** usb_set_interface: the new state and the result. */
  ghost function Applied(d: Dev, i: nat, number: nat, h: Host): (Dev, int)
    requires DevInv(d) && i < |d.interfaces|
  {
    var f := d.interfaces[i];
    var j := Lookup(f.alternates, number);
    if j == |f.alternates| || !h.stoppable then (d, -EINVAL)
    else
      var target := f.alternates[j];
      if target == f.active.value then (d, 0)
      else if CollectResult(Candidate(d, i, target)) != 0 then (d, CollectResult(Candidate(d, i, target)))
      else if h.stop < 0 then (d, h.stop)
      else if h.setTo < 0 then (RolledBack(d, i, h), h.setTo)
      else if h.configure < 0 then (RolledBack(d, i, h), h.configure)
      else (Dev(WithActive(d.interfaces, i, target), Candidate(d, i, target), d.online, d.hw[i := number]), h.configure)
  }

  /** A call ends on the target setting when it succeeds and on the old one when it fails;
      it never touches another interface; and it succeeds exactly when the setting
      exists, its endpoints fit, and the host operations succeed. */
  lemma SetOutcome(d: Dev, i: nat, number: nat, h: Host)
    requires DevInv(d) && i < |d.interfaces|
    ensures var (e, ret) := Applied(d, i, number, h);
            && DevInv(e) && |e.interfaces| == |d.interfaces|
            && (ret >= 0 ==> e.interfaces[i].active.value.number == number && e.online == d.online)
            && (ret < 0 ==> e.interfaces == d.interfaces && e.endpoints == d.endpoints)
            && (forall k :: 0 <= k < |d.interfaces| && k != i ==> e.interfaces[k] == d.interfaces[k])
            && (ret >= 0 <==>
                  && Numbered(d.interfaces[i].alternates, number) && h.stoppable
                  && (|| d.interfaces[i].active.value.number == number
                      || (&& Collectable(Candidate(d, i, d.interfaces[i].alternates[Lookup(d.interfaces[i].alternates, number)]))
                          && h.stop >= 0 && h.setTo >= 0 && h.configure >= 0)))
  {
    var f := d.interfaces[i];
    var j := Lookup(f.alternates, number);
    assert Selected(f);
    if j < |f.alternates| {
      var target := f.alternates[j];
      CollectableIff(Candidate(d, i, target));
      SameNumberSameSetting(f.alternates, j, f.active.value);
    }
  }

  lemma SameNumberSameSetting(alternates: seq<Alternate>, j: nat, a: Alternate)
    requires DistinctNumbers(alternates) && j < |alternates| && a in alternates
    ensures a == alternates[j] <==> a.number == alternates[j].number
  {
  }

  datatype Call = Call(iface: nat, number: nat, host: Host)

  ghost predicate Runs(d: Dev, calls: seq<Call>, e: Dev)
    decreases |calls|
  {
    if calls == [] then d == e
    else DevInv(d) && calls[0].iface < |d.interfaces|
         && Runs(Applied(d, calls[0].iface, calls[0].number, calls[0].host).0, calls[1..], e)
  }

  /** Over any sequence of calls, whatever the host operations return. */
  lemma {:induction false} RunKeeps(d: Dev, calls: seq<Call>, e: Dev)
    requires DevInv(d) && Runs(d, calls, e)
    ensures DevInv(e)
    ensures e.endpoints == ActiveEndpoints(e.interfaces) && DistinctAddresses(e.endpoints)
    ensures e.online ==> forall i :: 0 <= i < |e.hw| ==> e.hw[i] == e.interfaces[i].active.value.number
    decreases |calls|
  {
    if calls != [] {
      SetOutcome(d, calls[0].iface, calls[0].number, calls[0].host);
      RunKeeps(Applied(d, calls[0].iface, calls[0].number, calls[0].host).0, calls[1..], e);
    }
  }

  /** A device right after its configuration has been parsed and set: setting 0 everywhere. */
  function Configured(fs: seq<Interface>, online: bool): Dev {
    Dev(fs, ActiveEndpoints(fs), online, seq(|fs|, _ => 0))
  }

  /** A successful parse establishes the invariant of the calls that follow. */
  lemma ParsedDevice(c: seq<byte>, speed: nat, memory: nat, online: bool)
    requires |c| >= CONFIG_SIZE && Interfaces(c, speed, memory).Ok?
    requires Collectable(ActiveEndpoints(Interfaces(c, speed, memory).value))
    ensures DevInv(Configured(Interfaces(c, speed, memory).value, online))
  {
    hide Interfaces, ActiveEndpoints, Collectable, Describes, Preamble, Of;
    ParseSound(c, speed, memory);
  }

  /** From any configuration the parser accepts, over any sequence of calls and any results of
      the host operations. */
  lemma SwitchingAfterParse(c: seq<byte>, speed: nat, memory: nat, calls: seq<Call>, e: Dev)
    requires |c| >= CONFIG_SIZE && Interfaces(c, speed, memory).Ok?
    requires Collectable(ActiveEndpoints(Interfaces(c, speed, memory).value))
    requires Runs(Configured(Interfaces(c, speed, memory).value, true), calls, e)
    ensures e.endpoints == ActiveEndpoints(e.interfaces) && DistinctAddresses(e.endpoints)
    ensures |e.hw| == |e.interfaces|
    ensures e.online ==> forall i :: 0 <= i < |e.hw| ==>
                           e.interfaces[i].active.Some? && e.hw[i] == e.interfaces[i].active.value.number
  {
    hide Interfaces, ActiveEndpoints;
    ParsedDevice(c, speed, memory, true);
    RunKeeps(Configured(Interfaces(c, speed, memory).value, true), calls, e);
  }

  // ----- the code

  /** The variables of parse_interfaces.  `cur` is the index of the interface whose latest
      setting is being read (-1 before the first), `blocks` the settings found so far. */
  class Parser {
    var interfaces: seq<Interface>
    var cur: int
    var expected: nat
    var count: nat
    var last: bool
    const memory: nat
    ghost var blocks: seq<Block>

    constructor (memory: nat)
      ensures Valid() && View() == Start(memory)
    {
      this.memory := memory;
      interfaces, cur, expected, count, last, blocks := [], -1, 0, 0, false, [];
    }

    ghost function View(): State
      reads this
    {
      State(interfaces, blocks, last, memory)
    }

    ghost predicate Valid()
      reads this
    {
      && Linked(View()) && count == |blocks|
      && (blocks == [] ==> cur == -1)
      && (blocks != [] ==>
            && cur == Top(blocks).iface && expected == Top(blocks).expected
            && interfaces[cur].alternates[0] == Top(blocks).alt)
    }

    /** Writes through the pointer to the latest setting. */
    method Store(alt: Alternate)
      requires Valid() && cur >= 0
      modifies this`interfaces, this`blocks
      ensures Valid() && View() == Replace(old(View()), Top(old(blocks)).(alt := alt))
    {
      var f := interfaces[cur];
      interfaces := interfaces[cur := f.(alternates := [alt] + f.alternates[1..])];
      blocks := Front(blocks) + [Top(blocks).(alt := alt)];
    }

    method FindInterface(number: nat) returns (i: nat)
      ensures i == Find(interfaces, number)
    {
      i := |interfaces|;
      var k := 0;
      while k < |interfaces|
        invariant 0 <= k <= |interfaces|
        invariant i == if Find(interfaces[..k], number) == k then |interfaces| else Find(interfaces[..k], number)
      {
        assert Front(interfaces[..k + 1]) == interfaces[..k] && Top(interfaces[..k + 1]) == interfaces[k];
        if interfaces[k].number == number { i := k; }
        k := k + 1;
      }
      assert interfaces[..k] == interfaces;
    }

    method HasAlternate(alternates: seq<Alternate>, number: nat) returns (found: bool)
      ensures found == Numbered(alternates, number)
    {
      found := false;
      for k := 0 to |alternates|
        invariant !found && forall j :: 0 <= j < k ==> alternates[j].number != number
      {
        if alternates[k].number == number { return true; }
      }
    }

    method HasAddress(es: seq<Endpoint>, address: nat) returns (found: bool)
      ensures found == Addressed(es, address)
    {
      found := false;
      for k := 0 to |es|
        invariant !found && forall j :: 0 <= j < k ==> es[j].address != address
      {
        if es[k].address == address { return true; }
      }
    }

    ghost predicate Matches(r: Result<State>, ret: int)
      reads this
    {
      match r
      case Ok(t) => ret == 0 && View() == t && Valid()
      case Err(e) => ret == 0 - e < 0
    }

    /** Ends the window of the latest setting at o. */
    method CloseLatest(o: nat)
      requires Valid()
      modifies this`interfaces, this`blocks
      ensures Valid() && View() == Close(old(View()), o)
    {
      if cur >= 0 {
        var a := interfaces[cur].alternates[0];
        Store(a.(length := if o >= a.offset then o - a.offset else 0));
      }
    }

    /** Finds or adds the interface the descriptor at o names. */
    method SelectInterface(c: seq<byte>, o: nat) returns (ret: int, i: nat)
      requires Valid() && Has(c, o, DESC_INTERFACE, 9)
      modifies this`interfaces
      ensures Valid() && i == Find(old(interfaces), c[o + 2])
      ensures ret == if i == |old(interfaces)| == MAX_INTERFACES then -ENOSPC else 0
      ensures ret == 0 ==> interfaces == WithInterface(c, o, old(interfaces))
    {
      i := FindInterface(c[o + 2]);
      if i == |interfaces| {
        if |interfaces| == MAX_INTERFACES {
          return -ENOSPC, i;
        }
        interfaces := interfaces + [Interface(c[o + 2], c[o + 5], c[o + 6], c[o + 7], [], None)];
      }
      return 0, i;
    }

    method InterfaceDescriptor(c: seq<byte>, o: nat) returns (ret: int)
      requires Valid() && Has(c, o, DESC_INTERFACE, 9)
      modifies this
      ensures Matches(InterfaceStep(c, o, old(View())), ret)
    {
      hide Replace, Find, WithInterface, Numbered;
      if cur >= 0 && |interfaces[cur].alternates[0].endpoints| != expected {
        return -EINVAL;
      }
      if count + 1 > MAX_ALTERNATES {
        return -EINVAL;
      }
      CloseLatest(o);
      var i: nat;
      ret, i := SelectInterface(c, o);
      if ret != 0 { return; }
      var taken := HasAlternate(interfaces[i].alternates, c[o + 3]);
      if taken {
        return -EINVAL;
      }
      if count >= memory {
        return -ENOMEM;
      }
      var alt := Alternate(c[o + 3], o, 0, []);
      interfaces := interfaces[i := interfaces[i].(alternates := [alt] + interfaces[i].alternates)];
      cur, expected, count, last := i, c[o + 4], count + 1, false;
      blocks := blocks + [Block(i, alt, c[o + 4])];
      return 0;
    }

    method EndpointDescriptor(c: seq<byte>, o: nat, speed: nat) returns (ret: int)
      requires Valid() && Has(c, o, DESC_ENDPOINT, 7)
      modifies this
      ensures Matches(EndpointStep(c, o, old(View()), speed), ret)
    {
      if cur < 0 || |interfaces[cur].alternates[0].endpoints| == MAX_ENDPOINTS {
        return -EINVAL;
      }
      var a := interfaces[cur].alternates[0];
      if !EndpointValid(c, o, speed) {
        return -EINVAL;
      }
      var taken := HasAddress(a.endpoints, c[o + 2]);
      if taken {
        return -EINVAL;
      }
      Store(a.(endpoints := a.endpoints + [EndpointAt(c, o)]));
      last := true;
      return 0;
    }

    method CompanionDescriptor(c: seq<byte>, o: nat, speed: nat) returns (ret: int)
      requires Valid() && Has(c, o, DESC_COMPANION, 6)
      requires last ==> cur >= 0 && interfaces[cur].alternates[0].endpoints != []
      modifies this
      ensures Matches(CompanionStep(c, o, old(View()), speed), ret)
    {
      if !last || speed < SPEED_SUPER || c[o + 2] > 15 {
        return -EINVAL;
      }
      var a := interfaces[cur].alternates[0];
      var e := Companion(c, o, Top(a.endpoints));
      if e.mult == 3 {
        return -EINVAL;
      }
      Store(a.(endpoints := Front(a.endpoints) + [e]));
      return 0;
    }

    /** The descriptor loop of parse_interfaces. */
    method Walk(c: seq<byte>, speed: nat) returns (ret: int)
      requires Valid() && View() == Start(memory) && |c| >= CONFIG_SIZE
      modifies this
      ensures Matches(Scan(c, CONFIG_SIZE, Start(memory), speed), ret)
    {
      hide Scan, InterfaceStep, EndpointStep, CompanionStep, UsbParse.Inv;
      var o := CONFIG_SIZE;
      StartInv(c, memory);
      while o < |c|
        invariant Valid() && CONFIG_SIZE <= o
        invariant UsbParse.Inv(c, o, View())
        invariant Scan(c, o, View(), speed) == Scan(c, CONFIG_SIZE, Start(memory), speed)
        decreases |c| - o
      {
        ghost var s := View();
        ScanUnfold(c, o, s, speed);
        LastHasEndpoint(c, o, s);
        if |c| - o < 2 || c[o] < 2 || c[o] > |c| - o {
          return -EINVAL;
        }
        var kind := c[o + 1];
        ret := 0;
        if kind == DESC_INTERFACE {
          if c[o] < 9 { return -EINVAL; }
          ret := InterfaceDescriptor(c, o);
        } else if kind == DESC_ENDPOINT {
          if c[o] < 7 { return -EINVAL; }
          ret := EndpointDescriptor(c, o, speed);
        } else if kind == DESC_COMPANION {
          if c[o] < 6 { return -EINVAL; }
          ret := CompanionDescriptor(c, o, speed);
        }
        if ret != 0 { return; }
        StepKeeps(c, o, s, speed);
        o := o + c[o];
      }
      ScanDone(c, o, View(), speed);
      return 0;
    }
  }

  lemma ScanUnfold(c: seq<byte>, o: nat, s: State, speed: nat)
    requires Linked(s) && o < |c|
    ensures Step(c, o, s, speed).Err? ==> Scan(c, o, s, speed) == Err(Step(c, o, s, speed).error)
    ensures Step(c, o, s, speed).Ok? ==>
              && Linked(Step(c, o, s, speed).value)
              && Scan(c, o, s, speed) == Scan(c, o + Len(c, o), Step(c, o, s, speed).value, speed)
  {
    StepLinked(c, o, s, speed);
  }

  lemma ScanDone(c: seq<byte>, o: nat, s: State, speed: nat)
    requires Linked(s) && o >= |c|
    ensures Scan(c, o, s, speed) == Ok(s)
  {
  }

  lemma LastHasEndpoint(c: seq<byte>, o: nat, s: State)
    requires UsbParse.Inv(c, o, s)
    ensures s.last ==> s.blocks != [] && Top(s.blocks).alt.endpoints != []
  {
  }

  class Device {
    const speed: nat
    var interfaces: seq<Interface>
    var endpoints: seq<Endpoint>
    var online: bool
    ghost var hw: seq<nat>

    constructor (speed: nat)
      ensures interfaces == [] && this.speed == speed
    {
      this.speed := speed;
      interfaces, endpoints, online, hw := [], [], true, [];
    }

    ghost function View(): Dev
      reads this
    {
      Dev(interfaces, endpoints, online, hw)
    }

    /** The search through the linked list of settings. */
    static method FindAlternate(alternates: seq<Alternate>, number: nat) returns (j: nat)
      ensures j == Lookup(alternates, number)
    {
      j := 0;
      while j < |alternates| && alternates[j].number != number
        invariant 0 <= j <= |alternates|
        invariant Lookup(alternates, number) == j + Lookup(alternates[j..], number)
      {
        j := j + 1;
      }
    }

    /** One endpoint in collect_endpoints: no room, an address already used, or appended. */
    method AddEndpoint(e: Endpoint) returns (ret: int)
      requires Collectable(endpoints)
      modifies this`endpoints
      ensures ret == if |old(endpoints)| == MAX_ENDPOINTS then -ENOSPC
                     else if Addressed(old(endpoints), e.address) then -EINVAL else 0
      ensures endpoints == old(endpoints) + if ret == 0 then [e] else []
      ensures Collectable(endpoints)
    {
      if |endpoints| == MAX_ENDPOINTS {
        return -ENOSPC;
      }
      var k := 0;
      while k < |endpoints|
        invariant 0 <= k <= |endpoints|
        invariant forall m :: 0 <= m < k ==> endpoints[m].address != e.address
      {
        if endpoints[k].address == e.address {
          return -EINVAL;
        }
        k := k + 1;
      }
      endpoints := endpoints + [e];
      return 0;
    }

    /** collect_endpoints */
    method CollectEndpoints() returns (ret: int)
      modifies this`endpoints
      ensures ret == CollectResult(ActiveEndpoints(interfaces))
      ensures ret == 0 ==> endpoints == ActiveEndpoints(interfaces)
    {
      hide ActiveEndpoints, Addressed, Collectable, CollectResult, DistinctAddresses;
      endpoints := [];
      NothingCollected();
      ghost var all := ActiveEndpoints(interfaces);
      NoneActive(interfaces);
      var i := 0;
      while i < |interfaces|
        invariant 0 <= i <= |interfaces|
        invariant endpoints == ActiveEndpoints(interfaces[..i]) && Collectable(endpoints)
      {
        ActiveStep(interfaces, i);
        ActivePrefix(interfaces, i + 1);
        var es := Endpoints(interfaces[i]);
        var j := 0;
        while j < |es|
          invariant 0 <= j <= |es|
          invariant endpoints == ActiveEndpoints(interfaces[..i]) + es[..j] && Collectable(endpoints)
        {
          assert endpoints + [es[j]] <= all;
          PrefixDecides(all, endpoints, es[j]);
          ret := AddEndpoint(es[j]);
          if ret != 0 {
            return;
          }
          j := j + 1;
        }
        i := i + 1;
      }
      assert interfaces[..i] == interfaces;
      CollectableIff(endpoints);
      return 0;
    }

    /** parse_interfaces up to the collection of the endpoints. */
    method ReadInterfaces(c: seq<byte>, memory: nat) returns (ret: int)
      requires |c| >= CONFIG_SIZE
      modifies this`interfaces
      ensures match Interfaces(c, speed, memory)
              case Err(e) => ret == 0 - e < 0
              case Ok(fs) => ret == 0 && interfaces == fs
    {
      hide Scan, Lookup;
      var p := new Parser(memory);
      ret := p.Walk(c, speed);
      if ret != 0 { return; }
      if p.cur < 0 || |p.interfaces[p.cur].alternates[0].endpoints| != p.expected || |p.interfaces| != c[4] {
        return -EINVAL;
      }
      p.CloseLatest(|c|);
      interfaces := p.interfaces;
      ghost var fs := interfaces;
      var i := 0;
      while i < |interfaces|
        invariant 0 <= i <= |interfaces| == |fs|
        invariant Activated(fs, i) == Ok(interfaces)
      {
        var alternates := interfaces[i].alternates;
        var j := FindAlternate(alternates, 0);
        if j == |alternates| {
          ActivationFails(fs, i + 1);
          return -EINVAL;
        }
        interfaces := WithActive(interfaces, i, alternates[j]);
        i := i + 1;
      }
      return 0;
    }

    /** parse_interfaces on a fresh device, when `memory` settings can be allocated.  Once it
        is configured the device itself uses setting 0 everywhere. */
    method ParseInterfaces(c: seq<byte>, memory: nat) returns (ret: int)
      requires |c| >= CONFIG_SIZE
      modifies this`interfaces, this`endpoints, this`hw
      ensures match Interfaces(c, speed, memory)
              case Err(e) => ret == 0 - e < 0
              case Ok(fs) => interfaces == fs && ret == CollectResult(ActiveEndpoints(fs))
      ensures ret == 0 ==> DevInv(View())
      ensures ret == 0 <==> exists starts :: UsbAccept.InOrder(c, starts, speed, memory)
    {
      hide Interfaces, ActiveEndpoints, Collectable, CollectResult, DevInv, UsbAccept.InOrder;
      UsbAccept.ParsesIff(c, speed, memory);
      ret := ReadInterfaces(c, memory);
      if ret != 0 { return; }
      ret := CollectEndpoints();
      hw := seq(|interfaces|, _ => 0);
      CollectableIff(ActiveEndpoints(interfaces));
      if ret == 0 {
        ParsedDevice(c, speed, memory, online);
      }
    }

    /** usb_set_interface */
    method SetInterface(i: nat, number: nat, h: Host) returns (ret: int)
      requires DevInv(View()) && i < |interfaces|
      modifies this
      ensures DevInv(View()) && (View(), ret) == Applied(old(View()), i, number, h)
    {
      hide ActiveEndpoints, CollectResult, Collectable, Lookup;
      SetOutcome(View(), i, number, h);
      ghost var d := View();
      var alternates := interfaces[i].alternates;
      var j := FindAlternate(alternates, number);
      if j == |alternates| || !h.stoppable {
        return -EINVAL;
      }
      var target := alternates[j];
      assert Selected(interfaces[i]);
      var before := interfaces[i].active.value;
      if target == before {
        return 0;
      }
      interfaces := WithActive(interfaces, i, target);
      ret := CollectEndpoints();
      Restore(d, i, before);
      if ret != 0 { return; }
      if h.stop < 0 {
        return h.stop;
      }
      ret := h.setTo;
      if ret >= 0 {
        interfaces := WithActive(interfaces, i, target);
        var again := CollectEndpoints();
        hw := hw[i := number];
        ret := h.configure;
      } else {
        hw := hw[i := h.stray];
      }
      if ret < 0 {
        Restore(d, i, before);
        hw := hw[i := if h.setBack >= 0 then before.number else h.strayBack];
        assert hw == RolledBack(d, i, h).hw;
        if h.setBack < 0 || h.configureBack < 0 {
          online := false;
        }
      }
    }

    /** Selects the old setting again and collects its endpoints, which were fine before. */
    method Restore(ghost d: Dev, i: nat, before: Alternate)
      requires DevInv(d) && i < |interfaces| == |d.interfaces| && d.interfaces[i].active == Some(before)
      requires WithActive(interfaces, i, before) == d.interfaces
      modifies this`interfaces, this`endpoints
      ensures interfaces == d.interfaces && endpoints == d.endpoints
    {
      interfaces := WithActive(interfaces, i, before);
      var ret := CollectEndpoints();
      CollectableIff(d.endpoints);
    }
  }

  lemma NoneActive(fs: seq<Interface>)
    ensures ActiveEndpoints(fs[..0]) == []
  {
  }

  lemma {:induction false} ActivationFails(fs: seq<Interface>, k: nat)
    requires 0 < k <= |fs| && Activated(fs, k).Err?
    ensures Activated(fs, |fs|) == Activated(fs, k)
    decreases |fs| - k
  {
    if k < |fs| { ActivationFails(fs, k + 1); }
  }
}
