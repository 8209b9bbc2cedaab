/** The block-device table (src/device/core/blockdev.c): registration by name, backend
    binding, reference-counted handles and deferred release.

    A handle is a slot number.  Each registration that takes a free slot gets a fresh
    identity; the history records which identity a slot carries, what was bound to an
    identity when it was unregistered, and which backends have been released. */
module BlockDev {
  import opened Wrappers

  const SLOTS := 32
  const NAME_MAX := 31
  const UINT_MAX := 0xffff_ffff
  const ENODEV := 19
  const EBUSY := 16
  const EINVAL := 22
  const EIO := 5

  datatype Info = Info(name: string, major: nat, minor: nat, size: nat, flags: nat)

  /** A backend's operations; `read` is null for none, `release` may be null. */
  datatype Ops = Ops(id: nat, hasRead: bool, hasRelease: bool)

  datatype Slot = Slot(used: bool, removed: bool, info: Info, ops: Option<Ops>, data: int, sectorSize: nat, refs: nat)

  const EMPTY := Slot(false, false, Info("", 0, 0, 0, 0), None, 0, 0, 0)

  datatype Backend = Backend(ops: Option<Ops>, data: int)

  datatype Table = Table(
    slots: seq<Slot>,
    handles: seq<nat>,            // history: handles opened and not closed, by slot
    ids: seq<nat>,                // history: identity of the registration in each slot
    next: nat,                    // history: identities given out
    bound: map<nat, Backend>,     // history: backend at the time of unregistration
    gone: set<nat>,               // history: identities whose slot has been cleared
    released: multiset<(nat, Backend)>)  // history: calls of a release function

  datatype Step =
    | Register(name: string, info: Info)
    | Update(name: string, size: nat, flags: nat)
    | Bind(name: string, sectorSize: nat, ops: Option<Ops>, data: int)
    | Unbind(name: string)
    | Open(name: string)
    | Close(handle: nat)
    | Unregister(name: string)

  predicate Shape(t: Table) {
    |t.slots| == |t.handles| == |t.ids| == SLOTS
  }

  const START := Table(seq(SLOTS, i => EMPTY), seq(SLOTS, i => 0), seq(SLOTS, i => 0), 1, map[], {}, multiset{})

  // ----- names

  /** blockdev_canon */
  function Canon(name: string): string {
    if |name| >= 5 && name[..5] == "/dev/" then name[5..] else name
  }

  /** The stored form of a canonical name. */
  function Stored(canon: string): string {
    if |canon| <= NAME_MAX then canon else canon[..NAME_MAX]
  }

  predicate Named(s: Slot, canon: string) {
    s.used && !s.removed && s.info.name == canon
  }

  /** blockdev_find_slot from slot i on; SLOTS when there is none. */
  function FindFrom(slots: seq<Slot>, canon: string, i: nat): (r: nat)
    requires |slots| == SLOTS && i <= SLOTS
    ensures i <= r <= SLOTS
    ensures r < SLOTS ==> Named(slots[r], canon)
    ensures forall k :: i <= k < r ==> !Named(slots[k], canon)
    decreases SLOTS - i
  {
    if i == SLOTS then SLOTS
    else if Named(slots[i], canon) then i
    else FindFrom(slots, canon, i + 1)
  }

  function Find(slots: seq<Slot>, name: string): (r: nat)
    requires |slots| == SLOTS
    ensures r <= SLOTS
    ensures r < SLOTS ==> Named(slots[r], Canon(name))
  {
    if Canon(name) == "" then SLOTS else FindFrom(slots, Canon(name), 0)
  }

  function FreeFrom(slots: seq<Slot>, i: nat): (r: nat)
    requires |slots| == SLOTS && i <= SLOTS
    ensures i <= r <= SLOTS
    ensures r < SLOTS ==> !slots[r].used
    ensures forall k :: i <= k < r ==> slots[k].used
    decreases SLOTS - i
  {
    if i == SLOTS then SLOTS else if !slots[i].used then i else FreeFrom(slots, i + 1)
  }

  // ----- the operations

  /** BLOCKDEV_FLAG_VOLUME is bit 0. */
  predicate IsVolume(flags: nat) {
    flags % 2 == 1
  }

  predicate HasRelease(b: Backend) {
    b.ops.Some? && b.ops.value.hasRelease
  }

  /** Memory of slot i is cleared and, if the backend has a release function, it is called. */
  function Retire(t: Table, i: nat): Table
    requires Shape(t) && i < SLOTS
  {
    var s := t.slots[i];
    t.(slots := t.slots[i := EMPTY],
       gone := t.gone + {t.ids[i]},
       released := if HasRelease(Backend(s.ops, s.data)) then t.released + multiset{(t.ids[i], Backend(s.ops, s.data))}
                   else t.released)
  }

  predicate Enabled(t: Table, step: Step)
    requires Shape(t)
  {
    step.Close? ==> step.handle < SLOTS && t.handles[step.handle] > 0
  }

  function RegisterIn(t: Table, i: nat, name: string, info: Info): Table
    requires Shape(t) && i < SLOTS
  {
    t.(slots := t.slots[i := t.slots[i].(used := true, info := info.(name := Stored(Canon(name))))])
  }

  function Apply(t: Table, step: Step): (r: Table)
    requires Shape(t) && Enabled(t, step)
    ensures Shape(r)
  {
    match step
    case Register(name, info) =>
      if name == "" then t
      else
        var i := Find(t.slots, name);
        if i < SLOTS then RegisterIn(t, i, name, info)
        else
          var j := FreeFrom(t.slots, 0);
          if j == SLOTS then t
          else RegisterIn(t, j, name, info).(ids := t.ids[j := t.next], next := t.next + 1)
    case Update(name, size, flags) =>
      var i := Find(t.slots, name);
      if i == SLOTS then t
      else if t.slots[i].refs > 0 && (size != t.slots[i].info.size || flags != t.slots[i].info.flags) then t
      else t.(slots := t.slots[i := t.slots[i].(info := t.slots[i].info.(size := size, flags := flags))])
    case Bind(name, sectorSize, ops, data) =>
      var i := Find(t.slots, name);
      if sectorSize == 0 || ops.None? || !ops.value.hasRead || i == SLOTS || t.slots[i].refs > 0 then t
      else t.(slots := t.slots[i := t.slots[i].(ops := ops, data := data, sectorSize := sectorSize)])
    case Unbind(name) =>
      var i := Find(t.slots, name);
      if i == SLOTS || t.slots[i].refs > 0 then t
      else t.(slots := t.slots[i := t.slots[i].(ops := None, data := 0)])
    case Open(name) =>
      var i := Find(t.slots, name);
      if i == SLOTS || t.slots[i].ops.None? || !IsVolume(t.slots[i].info.flags) then t
      else t.(slots := t.slots[i := t.slots[i].(refs := t.slots[i].refs + 1)],
              handles := t.handles[i := t.handles[i] + 1])
    case Close(i) =>
      var s := t.slots[i].(refs := if t.slots[i].refs > 0 then t.slots[i].refs - 1 else 0);
      var u := t.(slots := t.slots[i := s], handles := t.handles[i := t.handles[i] - 1]);
      if s.refs == 0 && s.removed then Retire(u, i) else u
    case Unregister(name) =>
      var i := Find(t.slots, name);
      if i == SLOTS then t
      else
        var s := t.slots[i].(removed := true, info := t.slots[i].info.(flags := 0));
        var u := t.(slots := t.slots[i := s], bound := t.bound[t.ids[i] := Backend(s.ops, s.data)]);
        if s.refs == 0 then Retire(u, i) else u
  }

  // ----- the invariant

  /** A slot and its history agree. */
  ghost predicate SlotOk(t: Table, i: nat)
    requires Shape(t) && i < SLOTS
  {
    var s := t.slots[i];
    && s.refs == t.handles[i]
    && (!s.used ==> s == EMPTY)
    && (s.used ==> t.ids[i] < t.next && t.ids[i] !in t.gone)
    && (s.used && !s.removed ==> t.ids[i] !in t.bound)
    && (s.removed ==> s.refs > 0 && t.ids[i] in t.bound && t.bound[t.ids[i]] == Backend(s.ops, s.data))
    && (s.refs > 0 ==> s.ops.Some?)
    && (s.ops.Some? ==> s.sectorSize > 0)
  }

  /** An identity's release function has been called exactly once if its slot has been
      cleared, with the backend bound when it was unregistered, and not before. */
  ghost predicate ReleaseOk(t: Table, id: nat, b: Backend) {
    t.released[(id, b)] == if id in t.gone && id in t.bound && b == t.bound[id] && HasRelease(b) then 1 else 0
  }

  ghost predicate Inv(t: Table) {
    && Shape(t)
    && (forall i: nat :: i < SLOTS ==> SlotOk(t, i))
    && (forall i: nat, j: nat :: i < j < SLOTS && t.slots[i].used && t.slots[j].used ==> t.ids[i] != t.ids[j])
    && (forall id: nat, b: Backend :: ReleaseOk(t, id, b))
    && (forall id :: id in t.bound ==> id < t.next)
    && t.gone <= t.bound.Keys
  }

  /** A step that changes slot i and nothing else of the table's structure. */
  lemma SlotChanged(t: Table, u: Table, i: nat)
    requires Inv(t) && Shape(u) && i < SLOTS
    requires forall k: nat :: k < SLOTS && k != i ==> u.slots[k] == t.slots[k] && u.handles[k] == t.handles[k]
    requires u.ids == t.ids && u.next == t.next && u.bound == t.bound && u.gone == t.gone && u.released == t.released
    requires SlotOk(u, i) && (u.slots[i].used ==> t.slots[i].used)
    ensures Inv(u)
  {
    forall k: nat | k < SLOTS
      ensures SlotOk(u, k)
    {
      assert SlotOk(t, k);
    }
    forall id: nat, b: Backend
      ensures ReleaseOk(u, id, b)
    {
      assert ReleaseOk(t, id, b);
    }
  }

  lemma StartInv()
    ensures Inv(START)
  {
    forall i: nat | i < SLOTS ensures SlotOk(START, i) {}
    forall id: nat, b: Backend ensures ReleaseOk(START, id, b) {}
  }

  lemma RegisterKeeps(t: Table, name: string, info: Info)
    requires Inv(t)
    ensures Inv(Apply(t, Register(name, info)))
  {
    var u := Apply(t, Register(name, info));
    var i := Find(t.slots, name);
    if name == "" {
    } else if i < SLOTS {
      assert SlotOk(t, i);
      SlotChanged(t, u, i);
    } else {
      var j := FreeFrom(t.slots, 0);
      if j < SLOTS {
        assert SlotOk(t, j);
        assert t.next !in t.bound && t.next !in t.gone;
        forall k: nat | k < SLOTS ensures SlotOk(u, k) { assert SlotOk(t, k); }
        forall a: nat, b: nat | a < b < SLOTS && u.slots[a].used && u.slots[b].used
          ensures u.ids[a] != u.ids[b]
        {
          assert SlotOk(t, a) && SlotOk(t, b);
        }
        forall id: nat, b: Backend ensures ReleaseOk(u, id, b) { assert ReleaseOk(t, id, b); }
      }
    }
  }

  lemma InPlaceKeeps(t: Table, step: Step)
    requires Inv(t) && (step.Update? || step.Bind? || step.Unbind? || step.Open?)
    ensures Inv(Apply(t, step))
  {
    var i := Find(t.slots, step.name);
    if i < SLOTS {
      assert SlotOk(t, i);
      SlotChanged(t, Apply(t, step), i);
    }
  }

  /** Clearing a slot that is removed and has no handle left. */
  lemma RetireKeeps(t: Table, i: nat)
    requires Shape(t) && i < SLOTS && t.slots[i].used && t.handles[i] == 0 && t.ids[i] < t.next
    requires t.ids[i] !in t.gone
    requires t.ids[i] in t.bound && t.bound[t.ids[i]] == Backend(t.slots[i].ops, t.slots[i].data)
    requires forall k: nat :: k < SLOTS && k != i ==> SlotOk(t, k)
    requires forall a: nat, b: nat :: a < b < SLOTS && t.slots[a].used && t.slots[b].used ==> t.ids[a] != t.ids[b]
    requires forall id: nat, b: Backend :: ReleaseOk(t, id, b)
    requires (forall id :: id in t.bound ==> id < t.next) && t.gone <= t.bound.Keys
    ensures Inv(Retire(t, i))
  {
    var u := Retire(t, i);
    forall k: nat | k < SLOTS
      ensures SlotOk(u, k)
    {
      if k != i { assert SlotOk(t, k); }
    }
    forall id: nat, b: Backend
      ensures ReleaseOk(u, id, b)
    {
      assert ReleaseOk(t, id, b);
    }
  }

  lemma CloseKeeps(t: Table, i: nat)
    requires Inv(t) && Enabled(t, Close(i))
    ensures Inv(Apply(t, Close(i)))
  {
    assert SlotOk(t, i);
    var s := t.slots[i].(refs := t.slots[i].refs - 1);
    var u := t.(slots := t.slots[i := s], handles := t.handles[i := t.handles[i] - 1]);
    if s.refs == 0 && s.removed {
      forall k: nat | k < SLOTS && k != i ensures SlotOk(u, k) { assert SlotOk(t, k); }
      forall id: nat, b: Backend ensures ReleaseOk(u, id, b) { assert ReleaseOk(t, id, b); }
      RetireKeeps(u, i);
    } else {
      SlotChanged(t, u, i);
    }
  }

  lemma UnregisterKeeps(t: Table, name: string)
    requires Inv(t)
    ensures Inv(Apply(t, Unregister(name)))
  {
    hide Find, HasRelease, Retire;
    var i := Find(t.slots, name);
    if i < SLOTS {
      assert SlotOk(t, i);
      var s := t.slots[i].(removed := true, info := t.slots[i].info.(flags := 0));
      var u := t.(slots := t.slots[i := s], bound := t.bound[t.ids[i] := Backend(s.ops, s.data)]);
      forall k: nat | k < SLOTS && k != i ensures SlotOk(u, k) { assert SlotOk(t, k); }
      forall id: nat, b: Backend ensures ReleaseOk(u, id, b) { assert ReleaseOk(t, id, b); }
      if s.refs == 0 {
        RetireKeeps(u, i);
      } else {
        assert SlotOk(u, i);
      }
    }
  }

  lemma StepKeeps(t: Table, step: Step)
    requires Inv(t) && Enabled(t, step)
    ensures Inv(Apply(t, step))
  {
    match step
    case Register(name, info) => RegisterKeeps(t, name, info);
    case Close(i) => CloseKeeps(t, i);
    case Unregister(name) => UnregisterKeeps(t, name);
    case _ => InPlaceKeeps(t, step);
  }

  // ----- over whole runs

  ghost predicate Runs(t: Table, steps: seq<Step>, u: Table)
    decreases |steps|
  {
    if steps == [] then t == u
    else Shape(t) && Enabled(t, steps[0]) && Runs(Apply(t, steps[0]), steps[1..], u)
  }

  lemma {:induction false} RunKeeps(t: Table, steps: seq<Step>, u: Table)
    requires Inv(t) && Runs(t, steps, u)
    ensures Inv(u)
    decreases |steps|
  {
    if steps != [] {
      StepKeeps(t, steps[0]);
      RunKeeps(Apply(t, steps[0]), steps[1..], u);
    }
  }

  /** What a handle on slot i refers to is the same in both states. */
  ghost predicate SameDevice(t: Table, u: Table, i: nat)
    requires Shape(t) && Shape(u) && i < SLOTS
  {
    var a, b := t.slots[i], u.slots[i];
    && b.used && u.ids[i] == t.ids[i] && b.ops == a.ops && b.data == a.data && b.sectorSize == a.sectorSize
    && (a.removed ==> b.removed)
  }

  lemma HeldSlotKept(t: Table, step: Step, i: nat)
    requires Shape(t) && i < SLOTS && SlotOk(t, i) && Enabled(t, step)
    requires t.handles[i] > 0 && Apply(t, step).handles[i] > 0
    ensures SameDevice(t, Apply(t, step), i)
  {
    hide Find, FindFrom, FreeFrom, Canon, Stored, IsVolume, HasRelease;
  }

  /** A run during which slot i always has a handle. */
  ghost predicate RunsHolding(t: Table, steps: seq<Step>, u: Table, i: nat)
    requires i < SLOTS
    decreases |steps|
  {
    && Shape(t) && t.handles[i] > 0
    && if steps == [] then t == u
       else Enabled(t, steps[0]) && RunsHolding(Apply(t, steps[0]), steps[1..], u, i)
  }

  /** While a handle is outstanding its slot is never recycled, and its operations, data
      and sector size never change. */
  lemma {:induction false} HandleIsStable(t: Table, steps: seq<Step>, u: Table, i: nat)
    requires i < SLOTS && Inv(t) && RunsHolding(t, steps, u, i)
    ensures Inv(u) && SameDevice(t, u, i)
    decreases |steps|
  {
    if steps != [] {
      StepKeeps(t, steps[0]);
      assert SlotOk(t, i);
      HeldSlotKept(t, steps[0], i);
      HandleIsStable(Apply(t, steps[0]), steps[1..], u, i);
    } else {
      assert SlotOk(t, i);
    }
  }

  /** In every run of balanced opens and closes from the empty table: reference counts are
      the outstanding handles; the backend bound at removal has been released exactly
      once if its slot has been cleared, and not at all otherwise. */
  lemma ReleasedExactlyOnce(steps: seq<Step>, u: Table, id: nat, b: Backend)
    requires Runs(START, steps, u)
    ensures Shape(u) && forall i :: 0 <= i < SLOTS ==> u.slots[i].refs == u.handles[i]
    ensures u.released[(id, b)] ==
              if id in u.gone && id in u.bound && u.bound[id] == b && HasRelease(b) then 1 else 0
    ensures id in u.gone ==> id in u.bound
  {
    StartInv();
    RunKeeps(START, steps, u);
    assert ReleaseOk(u, id, b);
    forall i | 0 <= i < SLOTS ensures u.slots[i].refs == u.handles[i] { assert SlotOk(u, i); }
  }

  /** A slot is cleared only by the step that completes both removal and the last close. */
  lemma ClearedWhenUnused(t: Table, step: Step, id: nat) returns (i: nat)
    requires Inv(t) && Enabled(t, step) && id !in t.gone && id in Apply(t, step).gone
    ensures i < SLOTS && t.slots[i].used && t.ids[i] == id
    ensures Apply(t, step).handles[i] == 0
    ensures t.slots[i].removed || (step.Unregister? && Find(t.slots, step.name) == i)
    ensures id in Apply(t, step).bound &&
            Apply(t, step).bound[id] == Backend(t.slots[i].ops, t.slots[i].data)
  {
    i := if step.Unregister? then Find(t.slots, step.name) else step.handle;
    assert SlotOk(t, i);
  }

  /** Registering a name whose old device is removed but still open leaves the old slot
      alone.  With a free slot and a name of 1 to 31 characters that no present device has,
      the name is found afterwards, in another slot and as a new device. */
  lemma ReregisterUsesAnotherSlot(t: Table, name: string, info: Info, i: nat)
    requires Inv(t) && i < SLOTS && t.slots[i].removed
    ensures var u := Apply(t, Register(name, info));
            && u.slots[i] == t.slots[i] && u.ids[i] == t.ids[i] && Find(u.slots, name) != i
            && (1 <= |Canon(name)| <= NAME_MAX && Find(t.slots, name) == SLOTS && FreeFrom(t.slots, 0) < SLOTS ==>
                  var j := Find(u.slots, name);
                  j < SLOTS && j != i && u.ids[j] == t.next && t.next != t.ids[i] && !u.slots[j].removed)
  {
    hide Find, FindFrom, FreeFrom, Canon, Stored, RegisterIn;
    RemovedLeftAlone(t, name, info, i);
    if 1 <= |Canon(name)| <= NAME_MAX && Find(t.slots, name) == SLOTS && FreeFrom(t.slots, 0) < SLOTS {
      FoundWhereStored(t, name, info);
      StoredAsNew(t, name, info);
      assert SlotOk(t, i);
    }
  }

  lemma RemovedLeftAlone(t: Table, name: string, info: Info, i: nat)
    requires Inv(t) && i < SLOTS && t.slots[i].removed
    ensures var u := Apply(t, Register(name, info));
            u.slots[i] == t.slots[i] && u.ids[i] == t.ids[i] && Find(u.slots, name) != i
  {
    hide Find, FindFrom, FreeFrom, Canon, Stored;
    assert SlotOk(t, i);
  }

  lemma StoredAsNew(t: Table, name: string, info: Info)
    requires Inv(t) && 1 <= |Canon(name)| && Find(t.slots, name) == SLOTS && FreeFrom(t.slots, 0) < SLOTS
    ensures var u := Apply(t, Register(name, info));
            var j := FreeFrom(t.slots, 0);
            u.ids[j] == t.next && !u.slots[j].removed
  {
    hide Find, FindFrom, FreeFrom, Stored;
    assert SlotOk(t, FreeFrom(t.slots, 0));
  }

  /** A new registration is found in the slot it was put into. */
  lemma FoundWhereStored(t: Table, name: string, info: Info)
    requires Inv(t) && 1 <= |Canon(name)| <= NAME_MAX && Find(t.slots, name) == SLOTS && FreeFrom(t.slots, 0) < SLOTS
    ensures Find(Apply(t, Register(name, info)).slots, name) == FreeFrom(t.slots, 0)
  {
    hide FindFrom, FreeFrom;
    var u, j := Apply(t, Register(name, info)), FreeFrom(t.slots, 0);
    assert SlotOk(t, j);
    assert Named(u.slots[j], Canon(name));
  }

  /** A handle on a removed device gets only -ENODEV, as long as it is held and whatever else
      happens: other handles, registrations of the same name, bindings. */
  lemma RemovedHandleRefused(t: Table, steps: seq<Step>, u: Table, i: nat, sector: nat, count: nat)
    requires i < SLOTS && Inv(t) && RunsHolding(t, steps, u, i) && t.slots[i].removed
    ensures Inv(u) && (u.slots[i].ops.Some? ==> u.slots[i].sectorSize > 0)
    ensures CheckRange(u.slots[i], sector, count) == -ENODEV
  {
    HandleIsStable(t, steps, u, i);
    assert SlotOk(u, i);
  }

  // ----- name uniqueness

  ghost predicate Present(s: Slot) {
    s.used && !s.removed
  }

  ghost predicate NamesUnique(t: Table)
    requires Shape(t)
  {
    && (forall i :: 0 <= i < SLOTS ==> |t.slots[i].info.name| <= NAME_MAX)
    && (forall i, j :: 0 <= i < j < SLOTS && Present(t.slots[i]) && Present(t.slots[j]) ==>
          t.slots[i].info.name != t.slots[j].info.name)
  }

  ghost predicate Taken(t: Table, canon: string)
    requires Shape(t)
  {
    exists k :: 0 <= k < SLOTS && Named(t.slots[k], canon)
  }

  /** Registration keeps one slot per name exactly when the name is not one the lookup
      cannot find again: an empty canonical name, or one cut off at 31 characters, whose
      stored form is already taken while a slot is free. */
  lemma RegisterKeepsNamesIff(t: Table, name: string, info: Info)
    requires Shape(t) && NamesUnique(t) && name != ""
    requires forall k :: 0 <= k < SLOTS && !t.slots[k].used ==> t.slots[k] == EMPTY
    ensures NamesUnique(Apply(t, Register(name, info))) <==>
            (1 <= |Canon(name)| <= NAME_MAX || FreeFrom(t.slots, 0) == SLOTS || !Taken(t, Stored(Canon(name))))
  {
    hide NamesUnique, FindFrom, FreeFrom;
    var i, j := Find(t.slots, name), FreeFrom(t.slots, 0);
    var at := if i < SLOTS then i else j;
    NamesFit(t, name);
    if at < SLOTS {
      NameAdded(t, Apply(t, Register(name, info)), at, Stored(Canon(name)));
    }
    if i < SLOTS {
      OnlyOne(t, i, Canon(name));
    }
  }

  /** A present slot's name is short enough to be found as stored. */
  lemma NamesFit(t: Table, name: string)
    requires Shape(t) && NamesUnique(t)
    ensures Find(t.slots, name) < SLOTS ==> 1 <= |Canon(name)| <= NAME_MAX
    ensures Find(t.slots, name) == SLOTS && 1 <= |Canon(name)| <= NAME_MAX ==> !Taken(t, Stored(Canon(name)))
  {
  }

  lemma OnlyOne(t: Table, i: nat, name: string)
    requires Shape(t) && NamesUnique(t) && i < SLOTS && Named(t.slots[i], name)
    ensures forall k :: 0 <= k < SLOTS && k != i ==> !Named(t.slots[k], name)
  {
  }

  /** Putting a name into slot i keeps names unique exactly when no other slot has it. */
  lemma NameAdded(t: Table, u: Table, i: nat, name: string)
    requires Shape(t) && Shape(u) && NamesUnique(t) && i < SLOTS && |name| <= NAME_MAX
    requires u.slots == t.slots[i := u.slots[i]] && Named(u.slots[i], name)
    ensures NamesUnique(u) <==> forall k :: 0 <= k < SLOTS && k != i ==> !Named(t.slots[k], name)
  {
    if k :| 0 <= k < SLOTS && k != i && Named(t.slots[k], name) {
      assert u.slots[k] == t.slots[k];
      assert Present(u.slots[k]) && Present(u.slots[i]);
      if k < i { assert !NamesUnique(u); } else { assert !NamesUnique(u); }
    } else {
      forall a, b | 0 <= a < b < SLOTS && Present(u.slots[a]) && Present(u.slots[b])
        ensures u.slots[a].info.name != u.slots[b].info.name
      {
        if a == i { assert !Named(t.slots[b], name); } else if b == i { assert !Named(t.slots[a], name); }
      }
    }
  }

  lemma OthersKeepNames(t: Table, step: Step)
    requires Shape(t) && Enabled(t, step) && NamesUnique(t) && !step.Register?
    ensures NamesUnique(Apply(t, step))
  {
    hide Find, FindFrom, FreeFrom, Canon, Stored, IsVolume, HasRelease, Apply;
    var u := Apply(t, step);
    forall i | 0 <= i < SLOTS
      ensures u.slots[i] == EMPTY ||
              (u.slots[i].info.name == t.slots[i].info.name && (Present(u.slots[i]) ==> Present(t.slots[i])))
    {
      OthersKeepName(t, step, i);
    }
  }

  lemma OthersKeepName(t: Table, step: Step, i: nat)
    requires Shape(t) && Enabled(t, step) && !step.Register? && i < SLOTS
    ensures var u := Apply(t, step);
            u.slots[i] == EMPTY ||
            (u.slots[i].info.name == t.slots[i].info.name && (Present(u.slots[i]) ==> Present(t.slots[i])))
  {
    hide Find, FindFrom, FreeFrom, Canon, Stored, IsVolume, HasRelease;
  }

  /** With canonical names of 1 to 31 characters, no run ever has two devices present under
      one name. */
  lemma {:induction false} NamesStayUnique(t: Table, steps: seq<Step>, u: Table)
    requires Inv(t) && NamesUnique(t) && Runs(t, steps, u)
    requires forall k :: 0 <= k < |steps| && steps[k].Register? ==>
               steps[k].name == "" || 1 <= |Canon(steps[k].name)| <= NAME_MAX
    ensures Shape(u) && NamesUnique(u)
    decreases |steps|
  {
    if steps != [] {
      StepKeeps(t, steps[0]);
      if steps[0].Register? {
        forall k | 0 <= k < SLOTS ensures !t.slots[k].used ==> t.slots[k] == EMPTY { assert SlotOk(t, k); }
        if steps[0].name != "" { RegisterKeepsNamesIff(t, steps[0].name, steps[0].info); }
      } else {
        OthersKeepNames(t, steps[0]);
      }
      NamesStayUnique(Apply(t, steps[0]), steps[1..], u);
    }
  }

  /** A 32-character name registered twice gives two devices with one name. */
  lemma LongNameTwice(info: Info)
    ensures var name := "abcdefghijklmnopqrstuvwxyz012345";
            var t := Apply(START, Register(name, info));
            !NamesUnique(Apply(t, Register(name, info)))
  {
    hide NamesUnique, Find;
    var name := "abcdefghijklmnopqrstuvwxyz012345";
    var t := Apply(START, Register(name, info));
    assert name[..5][0] == 'a';
    assert Canon(name) == name;
    NotInStart(name);
    RegisterKeepsNamesIff(START, name, info);
    assert Named(t.slots[0], Stored(name));
    assert !t.slots[1].used;
    RegisterKeepsNamesIff(t, name, info);
  }

  lemma NotInStart(name: string)
    ensures Find(START.slots, name) == SLOTS && FreeFrom(START.slots, 0) == 0 && NamesUnique(START)
    ensures !Taken(START, Stored(Canon(name)))
  {
    hide FindFrom, FreeFrom, Stored, Canon;
    var slots := START.slots;
    assert forall k :: 0 <= k < SLOTS ==> slots[k] == EMPTY;
    assert forall k :: 0 <= k < SLOTS ==> !Named(slots[k], Canon(name));
    assert !slots[0].used;
  }

  // ----- range checks

  function SectorCount(s: Slot): nat {
    if s.sectorSize == 0 then 0 else s.info.size / s.sectorSize
  }

  /** blockdev_check_range on a non-null handle */
  function CheckRange(s: Slot, sector: nat, count: nat): int
    requires s.ops.Some? ==> s.sectorSize > 0
  {
    if s.removed || s.ops.None? || s.refs == 0 then -ENODEV
    else if sector > SectorCount(s) || count > SectorCount(s) - sector || count > UINT_MAX / s.sectorSize then -EIO
    else 0
  }

  /** A transfer is let through exactly when the device is still present, the sectors exist
      and the byte count fits 32 bits. */
  lemma RangeChecked(s: Slot, sector: nat, count: nat)
    requires s.ops.Some? ==> s.sectorSize > 0
    ensures CheckRange(s, sector, count) == 0 <==>
            && !s.removed && s.ops.Some? && s.refs > 0
            && (sector + count) * s.sectorSize <= s.info.size && count * s.sectorSize <= UINT_MAX
    ensures s.removed ==> CheckRange(s, sector, count) == -ENODEV
  {
    if s.ops.Some? {
      Quotient(sector + count, s.sectorSize, s.info.size);
      Quotient(count, s.sectorSize, UINT_MAX);
    }
  }

  lemma Quotient(x: nat, d: nat, n: nat)
    requires d > 0
    ensures x <= n / d <==> x * d <= n
  {
    var q := n / d;
    assert q * d <= n < (q + 1) * d;
    if x <= q {
      assert x * d <= q * d;
    } else {
      assert x * d >= (q + 1) * d;
    }
  }

  // ----- the code

  class Registry {
    const slots: array<Slot>
    ghost var handles: seq<nat>
    ghost var ids: seq<nat>
    ghost var next: nat
    ghost var bound: map<nat, Backend>
    ghost var gone: set<nat>
    ghost var released: multiset<(nat, Backend)>

    constructor ()
      ensures slots.Length == SLOTS && fresh(slots) && View() == START && Inv(View())
    {
      slots := new Slot[SLOTS](i => EMPTY);
      handles, ids := START.handles, START.ids;
      next, bound, gone, released := 1, map[], {}, multiset{};
      new;
      assert slots[..] == START.slots;
      StartInv();
    }

    ghost function View(): Table
      reads this, slots
    {
      Table(slots[..], handles, ids, next, bound, gone, released)
    }

    ghost predicate Valid()
      reads this, slots
    {
      slots.Length == SLOTS && |handles| == |ids| == SLOTS && Inv(View())
    }

    /** blockdev_find_slot */
    method FindSlot(name: string) returns (i: nat)
      requires slots.Length == SLOTS
      ensures i == Find(slots[..], name)
    {
      var canon := Canon(name);
      if canon == "" { return SLOTS; }
      i := 0;
      while i < SLOTS
        invariant i <= SLOTS && FindFrom(slots[..], canon, 0) == FindFrom(slots[..], canon, i)
      {
        if slots[i].used && !slots[i].removed && slots[i].info.name == canon { return; }
        i := i + 1;
      }
    }

    method FindFree() returns (i: nat)
      requires slots.Length == SLOTS
      ensures i == FreeFrom(slots[..], 0)
    {
      i := 0;
      while i < SLOTS && slots[i].used
        invariant i <= SLOTS && FreeFrom(slots[..], 0) == FreeFrom(slots[..], i)
      {
        i := i + 1;
      }
    }

    /** blockdev_register */
    method Register(name: string, info: Info)
      requires Valid()
      modifies this`ids, this`next, slots
      ensures Valid() && View() == Apply(old(View()), Step.Register(name, info))
    {
      hide Inv, Find, FreeFrom, Canon, Stored;
      RegisterKeeps(View(), name, info);
      ghost var before := View();
      if name == "" { return; }
      var i := FindSlot(name);
      if i == SLOTS {
        i := FindFree();
        if i == SLOTS { return; }
        ids, next := ids[i := next], next + 1;
      }
      slots[i] := slots[i].(used := true, info := info.(name := Stored(Canon(name))));
      assert slots[..] == before.slots[i := slots[i]];
    }

    /** blockdev_update */
    method Update(name: string, size: nat, flags: nat) returns (error: int)
      requires Valid()
      modifies slots
      ensures Valid() && View() == Apply(old(View()), Step.Update(name, size, flags))
      ensures error == var i := Find(old(slots[..]), name);
                       if i == SLOTS then -ENODEV
                       else if old(slots[..])[i].refs > 0
                               && (size != old(slots[..])[i].info.size || flags != old(slots[..])[i].info.flags) then -EBUSY
                       else 0
    {
      hide Inv;
      InPlaceKeeps(View(), Step.Update(name, size, flags));
      var i := FindSlot(name);
      if i == SLOTS { return -ENODEV; }
      if slots[i].refs > 0 && (size != slots[i].info.size || flags != slots[i].info.flags) { return -EBUSY; }
      slots[i] := slots[i].(info := slots[i].info.(size := size, flags := flags));
      assert slots[..] == old(slots[..])[i := slots[i]];
      return 0;
    }

    /** blockdev_bind_io */
    method BindIo(name: string, sectorSize: nat, ops: Option<Ops>, data: int) returns (error: int)
      requires Valid()
      modifies slots
      ensures Valid() && View() == Apply(old(View()), Bind(name, sectorSize, ops, data))
      ensures error == var i := Find(old(slots[..]), name);
                       if sectorSize == 0 || ops.None? || !ops.value.hasRead then -EINVAL
                       else if i == SLOTS then -ENODEV
                       else if old(slots[..])[i].refs > 0 then -EBUSY
                       else 0
      ensures error == 0 ==> var i := Find(slots[..], name); i < SLOTS && slots[i].ops == ops && slots[i].refs == 0
      ensures error != 0 ==> View() == old(View())
    {
      hide Inv;
      InPlaceKeeps(View(), Bind(name, sectorSize, ops, data));
      if sectorSize == 0 || ops.None? || !ops.value.hasRead { return -EINVAL; }
      var i := FindSlot(name);
      if i == SLOTS { return -ENODEV; }
      if slots[i].refs > 0 { return -EBUSY; }
      slots[i] := slots[i].(ops := ops, data := data, sectorSize := sectorSize);
      assert slots[..] == old(slots[..])[i := slots[i]];
      FindAgain(old(slots[..]), slots[..], Canon(name), 0);
      return 0;
    }

    /** blockdev_unbind_io */
    method UnbindIo(name: string) returns (error: int)
      requires Valid()
      modifies slots
      ensures Valid() && View() == Apply(old(View()), Unbind(name))
      ensures error == var i := Find(old(slots[..]), name);
                       if i == SLOTS then -ENODEV else if old(slots[..])[i].refs > 0 then -EBUSY else 0
      ensures error != 0 ==> View() == old(View())
    {
      hide Inv;
      InPlaceKeeps(View(), Unbind(name));
      var i := FindSlot(name);
      if i == SLOTS { return -ENODEV; }
      if slots[i].refs > 0 { return -EBUSY; }
      slots[i] := slots[i].(ops := None, data := 0);
      assert slots[..] == old(slots[..])[i := slots[i]];
      return 0;
    }

    /** blockdev_open: a slot number, or SLOTS for null */
    method Open(name: string) returns (handle: nat)
      requires Valid()
      modifies this`handles, slots
      ensures Valid() && View() == Apply(old(View()), Step.Open(name))
      ensures handle <= SLOTS
      ensures handle < SLOTS ==> handles[handle] == old(handles)[handle] + 1 && slots[handle].ops.Some?
      ensures handle == SLOTS ==> View() == old(View())
    {
      hide Inv, Find, Canon, IsVolume;
      InPlaceKeeps(View(), Step.Open(name));
      handle := FindSlot(name);
      if handle == SLOTS || slots[handle].ops.None? || !IsVolume(slots[handle].info.flags) { return SLOTS; }
      slots[handle] := slots[handle].(refs := slots[handle].refs + 1);
      handles := handles[handle := handles[handle] + 1];
      assert slots[..] == old(slots[..])[handle := slots[handle]];
    }

    /** blockdev_unregister; the backend whose release function is called, if any */
    method Unregister(name: string) returns (release: Option<Backend>)
      requires Valid()
      modifies this`bound, this`gone, this`released, slots
      ensures Valid() && View() == Apply(old(View()), Step.Unregister(name))
      ensures release.None? ==> released == old(released)
      ensures release.Some? ==> var i := Find(old(slots[..]), name);
                                i < SLOTS && released == old(released) + multiset{(old(ids)[i], release.value)}
    {
      hide Inv, Find, FreeFrom, Canon, Stored, HasRelease;
      UnregisterKeeps(View(), name);
      release := None;
      var i := FindSlot(name);
      if i == SLOTS { return; }
      slots[i] := slots[i].(removed := true, info := slots[i].info.(flags := 0));
      bound := bound[ids[i] := Backend(slots[i].ops, slots[i].data)];
      assert slots[..] == old(slots[..])[i := slots[i]];
      if slots[i].refs == 0 {
        release := Clear(i);
      }
    }

    /** blockdev_close */
    method Close(i: nat) returns (release: Option<Backend>)
      requires Valid() && i < SLOTS && handles[i] > 0
      modifies this`handles, this`gone, this`released, slots
      ensures Valid() && View() == Apply(old(View()), Step.Close(i))
      ensures released == old(released) + if release.Some? then multiset{(old(ids)[i], release.value)} else multiset{}
    {
      hide Inv;
      CloseKeeps(View(), i);
      release := None;
      if slots[i].refs > 0 {
        slots[i] := slots[i].(refs := slots[i].refs - 1);
      }
      handles := handles[i := handles[i] - 1];
      assert slots[..] == old(slots[..])[i := slots[i]];
      if slots[i].refs == 0 && slots[i].removed {
        release := Clear(i);
      }
    }

    /** Clears the slot and hands its backend out for release. */
    method Clear(i: nat) returns (release: Option<Backend>)
      requires slots.Length == SLOTS && |handles| == |ids| == SLOTS && i < SLOTS
      modifies this`gone, this`released, slots
      ensures View() == Retire(old(View()), i)
      ensures release == if HasRelease(Backend(old(slots[i].ops), old(slots[i].data)))
                         then Some(Backend(old(slots[i].ops), old(slots[i].data))) else None
    {
      var b := Backend(slots[i].ops, slots[i].data);
      release := if b.ops.Some? && b.ops.value.hasRelease then Some(b) else None;
      slots[i] := EMPTY;
      gone := gone + {ids[i]};
      if release.Some? { released := released + multiset{(ids[i], b)}; }
      assert slots[..] == old(slots[..])[i := EMPTY];
    }
  }

  /** Two tables with the same names in the same slots answer lookups alike. */
  lemma {:induction false} FindAgain(a: seq<Slot>, b: seq<Slot>, canon: string, i: nat)
    requires |a| == |b| == SLOTS && i <= SLOTS
    requires forall k :: 0 <= k < SLOTS ==> Named(a[k], canon) == Named(b[k], canon)
    ensures FindFrom(a, canon, i) == FindFrom(b, canon, i)
    decreases SLOTS - i
  {
    if i < SLOTS { FindAgain(a, b, canon, i + 1); }
  }
}
