/**
 * The devices manager's registry and the effect of each of its operations,
 * as pure functions of the registry and of the runtime's device slots.
 * The class in module Manager is proved against these functions.
 */
module DeviceRegistry {
  import opened Wrappers
  import opened OpenVR
  import opened Trackers

  /** The manager's map from serial number to device. */
  type Registry = map<string, TrackedDevice>

  /** Impl::DeviceTypeIsSupported: the types the manager keeps track of. */
  predicate DeviceTypeIsSupported(t: TrackedDeviceType)
    ensures DeviceTypeIsSupported(t) <==> 1 <= TypeCode(t) <= 3
  {
    match t
    case HMD | Controller | GenericTracker => true
    case _ => false
  }

  /** Whether the device in a slot is of a type the manager keeps. */
  predicate IsManagedSlot(hw: Hardware, index: nat) {
    DeviceTypeIsSupported(DeviceTypeOfCode(hw.DeviceClass(index)))
  }

  /** The device addDevice would build for a slot. */
  function DeviceAt(hw: Hardware, index: nat): TrackedDevice {
    TrackedDevice(index, hw.SerialNumber(index), DeviceTypeOfCode(hw.DeviceClass(index)))
  }

  /**
   * The registry invariant the operations keep: every entry is keyed by its
   * own serial number and has a supported type.
   */
  predicate WellFormed(devs: Registry) {
    forall sn | sn in devs :: devs[sn].serialNumber == sn && DeviceTypeIsSupported(devs[sn].deviceType)
  }

  /** Exactly the runtime classes HMD, Controller and GenericTracker are kept. */
  lemma SupportedClassCodes(c: int)
    ensures DeviceTypeIsSupported(DeviceTypeOfCode(c)) <==> c == 1 || c == 2 || c == 3
  {
  }

  /** A default-constructed device, of type Invalid, is never in a well-formed registry. */
  lemma DefaultDeviceNeverManaged(devs: Registry)
    requires WellFormed(devs)
    ensures DefaultTrackedDevice !in devs.Values
  {
  }

  // ---------------------------------------------------------------------
  // addDevice
  // ---------------------------------------------------------------------

  /** The answer of addDevice and the registry it leaves. */
  datatype AddOutcome = AddOutcome(ok: bool, registry: Registry)

  /**
   * addDevice(index): fails for a slot that is not connected; succeeds
   * without inserting for an unsupported type (before any duplicate check);
   * fails for a serial number already present; otherwise inserts the device.
   */
  function AfterAdd(devs: Registry, hw: Hardware, index: nat): (r: AddOutcome)
    ensures r.ok <==> hw.IsTrackedDeviceConnected(index) && (!IsManagedSlot(hw, index) || hw.SerialNumber(index) !in devs)
    ensures !r.ok ==> r.registry == devs
    ensures forall sn | sn in devs :: sn in r.registry && r.registry[sn] == devs[sn]
    ensures forall sn | sn in r.registry && sn !in devs ::
      r.ok && IsManagedSlot(hw, index) && sn == hw.SerialNumber(index) && r.registry[sn] == DeviceAt(hw, index)
    ensures r.ok && IsManagedSlot(hw, index) ==> hw.SerialNumber(index) in r.registry
    ensures WellFormed(devs) ==> WellFormed(r.registry)
  {
    if !hw.IsTrackedDeviceConnected(index) then
      AddOutcome(false, devs)
    else if !IsManagedSlot(hw, index) then
      AddOutcome(true, devs)
    else if hw.SerialNumber(index) in devs then
      AddOutcome(false, devs)
    else
      AddOutcome(true, devs[hw.SerialNumber(index) := DeviceAt(hw, index)])
  }

  /**
   * The supported-type check comes before the duplicate check: a connected
   * device of unsupported type is reported as added even when its serial
   * number is already a key, and nothing is inserted.
   */
  lemma AddUnsupportedIgnoresDuplicates(devs: Registry, hw: Hardware, index: nat)
    requires hw.IsTrackedDeviceConnected(index) && !IsManagedSlot(hw, index)
    ensures AfterAdd(devs, hw, index) == AddOutcome(true, devs)
  {
  }

  /** Adding a supported device whose serial is already a key keeps the registry's size and reports failure. */
  lemma AddDuplicateKeepsSize(devs: Registry, hw: Hardware, index: nat)
    requires IsManagedSlot(hw, index) && hw.SerialNumber(index) in devs
    ensures !AfterAdd(devs, hw, index).ok
    ensures |AfterAdd(devs, hw, index).registry| == |devs|
  {
  }

  /** Adding a connected supported device with a new serial adds exactly one entry. */
  lemma AddFreshGrowsByOne(devs: Registry, hw: Hardware, index: nat)
    requires hw.IsTrackedDeviceConnected(index) && IsManagedSlot(hw, index)
    requires hw.SerialNumber(index) !in devs
    ensures AfterAdd(devs, hw, index).ok
    ensures AfterAdd(devs, hw, index).registry.Keys == devs.Keys + {hw.SerialNumber(index)}
    ensures |AfterAdd(devs, hw, index).registry| == |devs| + 1
  {
    var r := AfterAdd(devs, hw, index).registry;
    assert r.Keys == devs.Keys + {hw.SerialNumber(index)};
  }

  // ---------------------------------------------------------------------
  // removeDevice
  // ---------------------------------------------------------------------

  /** The registry removeDevice(serial) leaves: the old one without that key. */
  function AfterRemove(devs: Registry, serial: string): (r: Registry)
    ensures serial !in r
    ensures forall sn | sn in devs && sn != serial :: sn in r && r[sn] == devs[sn]
    ensures r.Keys <= devs.Keys
    ensures serial !in devs ==> r == devs
    ensures WellFormed(devs) ==> WellFormed(r)
  {
    devs - {serial}
  }

  /** Removing a present serial shrinks the registry by exactly one. */
  lemma RemoveShrinksByOne(devs: Registry, serial: string)
    requires serial in devs
    ensures |AfterRemove(devs, serial)| == |devs| - 1
  {
    var r := AfterRemove(devs, serial);
    assert r.Keys == devs.Keys - {serial};
    assert devs.Keys == r.Keys + {serial};
  }

  // ---------------------------------------------------------------------
  // Event processing
  // ---------------------------------------------------------------------

  /** The serial numbers registered at a slot. */
  function SlotSerials(devs: Registry, index: nat): set<string> {
    set sn | sn in devs && devs[sn].index == index
  }

  /** The registry after a TrackedDeviceDeactivated event for a slot. */
  function AfterDeactivation(devs: Registry, index: nat): (r: Registry)
    ensures forall sn | sn in r :: sn in devs && r[sn] == devs[sn] && r[sn].index != index
    ensures forall sn | sn in devs && devs[sn].index != index :: sn in r
    ensures WellFormed(devs) ==> WellFormed(r)
  {
    devs - SlotSerials(devs, index)
  }

  predicate IsQuit(e: Event) {
    e.eventType.Quit?
  }

  /** The event kinds the manager recognises, or not, and leaves alone. */
  predicate IsQuiet(t: EventType) {
    !(t.TrackedDeviceActivated? || t.TrackedDeviceDeactivated? || t.Quit?)
  }

  predicate NoQuit(events: seq<Event>) {
    forall k | 0 <= k < |events| :: !IsQuit(events[k])
  }

  /** The registry after handling one event other than Quit. */
  function AfterEvent(devs: Registry, hw: Hardware, e: Event): (r: Registry)
    ensures WellFormed(devs) ==> WellFormed(r)
  {
    match e.eventType
    case TrackedDeviceActivated => AfterAdd(devs, hw, e.trackedDeviceIndex).registry
    case TrackedDeviceDeactivated => AfterDeactivation(devs, e.trackedDeviceIndex)
    case _ => devs
  }

  /** What one pass of processEvents leaves: the registry, the events still queued, and whether Quit was seen. */
  datatype DrainOutcome = DrainOutcome(registry: Registry, remaining: seq<Event>, quit: bool)

  /**
   * One pass of processEvents over the queued events, in order: a Quit
   * event empties the registry and ends the pass, leaving the events behind
   * it queued.
   */
  function Drain(devs: Registry, hw: Hardware, events: seq<Event>): (r: DrainOutcome)
    ensures WellFormed(devs) ==> WellFormed(r.registry)
    ensures r.quit ==> r.registry == map[]
    ensures !r.quit ==> r.remaining == []
    decreases |events|
  {
    if events == [] then
      DrainOutcome(devs, [], false)
    else if IsQuit(events[0]) then
      DrainOutcome(map[], events[1..], true)
    else
      Drain(AfterEvent(devs, hw, events[0]), hw, events[1..])
  }

  /** A pass ends early exactly when a Quit is queued. */
  lemma {:induction false} DrainQuitsIffQuitQueued(devs: Registry, hw: Hardware, events: seq<Event>)
    ensures Drain(devs, hw, events).quit <==> !NoQuit(events)
    decreases |events|
  {
    if events != [] && !IsQuit(events[0]) {
      var tail := events[1..];
      DrainQuitsIffQuitQueued(AfterEvent(devs, hw, events[0]), hw, tail);
      if NoQuit(tail) {
        forall k | 0 <= k < |events| ensures !IsQuit(events[k]) {
          if k > 0 { assert events[k] == tail[k - 1]; }
        }
      } else {
        var k :| 0 <= k < |tail| && IsQuit(tail[k]);
        assert events[k + 1] == tail[k];
      }
    }
  }

  /** What a pass leaves queued is a tail of the queue, shorter than a non-empty queue. */
  lemma {:induction false} DrainLeavesTail(devs: Registry, hw: Hardware, events: seq<Event>)
    ensures var rest := Drain(devs, hw, events).remaining;
      |rest| <= |events| && rest == events[|events| - |rest|..]
    ensures events != [] ==> |Drain(devs, hw, events).remaining| < |events|
    decreases |events|
  {
    if events != [] && !IsQuit(events[0]) {
      var tail := events[1..];
      DrainLeavesTail(AfterEvent(devs, hw, events[0]), hw, tail);
      var rest := Drain(devs, hw, events).remaining;
      assert rest == Drain(AfterEvent(devs, hw, events[0]), hw, tail).remaining;
      assert tail[|tail| - |rest|..] == events[|events| - |rest|..];
    }
  }

  /** One step of a pass: the first event is handled, or ends the pass if it is Quit. */
  lemma DrainStep(devs: Registry, hw: Hardware, e: Event, rest: seq<Event>)
    ensures Drain(devs, hw, [e] + rest) ==
      if IsQuit(e) then DrainOutcome(map[], rest, true) else Drain(AfterEvent(devs, hw, e), hw, rest)
  {
    assert ([e] + rest)[0] == e && ([e] + rest)[1..] == rest;
  }

  /** Events are handled in queue order: a Quit-free prefix is handled before what follows it. */
  lemma {:induction false} DrainInQueueOrder(devs: Registry, hw: Hardware, a: seq<Event>, b: seq<Event>)
    requires NoQuit(a)
    ensures Drain(devs, hw, a + b) == Drain(Drain(devs, hw, a).registry, hw, b)
    decreases |a|
  {
    if a != [] {
      assert (a + b)[0] == a[0];
      assert (a + b)[1..] == a[1..] + b;
      DrainInQueueOrder(AfterEvent(devs, hw, a[0]), hw, a[1..], b);
    } else {
      assert a + b == b;
    }
  }

  /**
   * The first Quit empties the registry whatever came before it, and every
   * event behind it stays queued.
   */
  lemma {:induction false} DrainStopsAtFirstQuit(devs: Registry, hw: Hardware, before: seq<Event>, e: Event, after: seq<Event>)
    requires NoQuit(before) && IsQuit(e)
    ensures Drain(devs, hw, before + [e] + after) == DrainOutcome(map[], after, true)
    decreases |before|
  {
    var events := before + [e] + after;
    if before == [] {
      assert events == [e] + after;
      assert events[1..] == after;
    } else {
      assert events[0] == before[0];
      assert events[1..] == before[1..] + [e] + after;
      DrainStopsAtFirstQuit(AfterEvent(devs, hw, before[0]), hw, before[1..], e, after);
    }
  }

  /** Updated, RoleChanged, UserInteractionStarted/Ended and unknown events change nothing. */
  lemma {:induction false} QuietEventsChangeNothing(devs: Registry, hw: Hardware, events: seq<Event>)
    requires forall k | 0 <= k < |events| :: IsQuiet(events[k].eventType)
    ensures Drain(devs, hw, events) == DrainOutcome(devs, [], false)
    decreases |events|
  {
    if events != [] {
      assert IsQuiet(events[0].eventType);
      QuietEventsChangeNothing(devs, hw, events[1..]);
    }
  }

  /**
   * The code keeps no two entries from sharing a slot only as long as the
   * runtime deactivates a slot before reusing it: activating a slot that
   * now reports a new serial number leaves the stale entry in place.
   */
  lemma SlotReuseKeepsStaleEntry()
    ensures var hw := Hardware({0}, map[0 := "B"], map[0 := 2]);
            var devs := map["A" := TrackedDevice(0, "A", Controller)];
            var r := Drain(devs, hw, [Event(TrackedDeviceActivated, 0)]).registry;
            "A" in r && "B" in r && r["A"].index == r["B"].index
  {
    var hw := Hardware({0}, map[0 := "B"], map[0 := 2]);
    var devs := map["A" := TrackedDevice(0, "A", Controller)];
    var e := Event(TrackedDeviceActivated, 0);
    assert hw.SerialNumber(0) == "B" && IsManagedSlot(hw, 0);
    var added := AfterAdd(devs, hw, 0).registry;
    assert added == devs["B" := DeviceAt(hw, 0)];
    assert Drain(devs, hw, [e]) == Drain(added, hw, []);
  }

  // ---------------------------------------------------------------------
  // initialize: the scan of the device slots
  // ---------------------------------------------------------------------

  /** The connected slots below n, in increasing order. */
  function ConnectedBelow(hw: Hardware, n: nat): (r: seq<nat>)
    ensures forall k | 0 <= k < |r| :: r[k] < n && hw.IsTrackedDeviceConnected(r[k])
    ensures forall i: nat | i < n && hw.IsTrackedDeviceConnected(i) :: i in r
    ensures forall j, k | 0 <= j < k < |r| :: r[j] < r[k]
  {
    if n == 0 then [] else ConnectedBelow(hw, n - 1) + (if hw.IsTrackedDeviceConnected(n - 1) then [n - 1] else [])
  }

  /** Slots at or above m that are all disconnected add nothing to the scan. */
  lemma {:induction false} ConnectedBelowIgnoresEmptySlots(hw: Hardware, m: nat, n: nat)
    requires m <= n
    requires forall i: nat | m <= i < n :: !hw.IsTrackedDeviceConnected(i)
    ensures ConnectedBelow(hw, n) == ConnectedBelow(hw, m)
    decreases n
  {
    if m < n {
      ConnectedBelowIgnoresEmptySlots(hw, m, n - 1);
    }
  }

  /** addDevice on each slot in turn, stopping at the first failure. */
  function AddAll(devs: Registry, hw: Hardware, indices: seq<nat>): (r: AddOutcome)
    ensures WellFormed(devs) ==> WellFormed(r.registry)
    ensures forall sn | sn in devs :: sn in r.registry && r.registry[sn] == devs[sn]
    decreases |indices|
  {
    if indices == [] then
      AddOutcome(true, devs)
    else
      var a := AfterAdd(devs, hw, indices[0]);
      if !a.ok then AddOutcome(false, a.registry) else AddAll(a.registry, hw, indices[1..])
  }

  /**
   * The scan stops at the first slot addDevice refuses: the answer is false
   * and the registry is the one built from the slots before it, whatever
   * slots follow.
   */
  lemma {:induction false} AddAllStopsAtFirstFailure(devs: Registry, hw: Hardware, before: seq<nat>, i: nat, after: seq<nat>)
    requires AddAll(devs, hw, before).ok
    requires !AfterAdd(AddAll(devs, hw, before).registry, hw, i).ok
    ensures AddAll(devs, hw, before + [i] + after) == AddOutcome(false, AddAll(devs, hw, before).registry)
    decreases |before|
  {
    var indices := before + [i] + after;
    if before == [] {
      assert indices[0] == i;
    } else {
      var a := AfterAdd(devs, hw, before[0]);
      assert indices[0] == before[0] && indices[1..] == before[1..] + [i] + after;
      assert a.ok && AddAll(devs, hw, before) == AddAll(a.registry, hw, before[1..]);
      AddAllStopsAtFirstFailure(a.registry, hw, before[1..], i, after);
    }
  }

  /** The serial numbers of the managed devices at the given slots. */
  function ManagedSerials(hw: Hardware, indices: seq<nat>): set<string> {
    set k | 0 <= k < |indices| && IsManagedSlot(hw, indices[k]) :: hw.SerialNumber(indices[k])
  }

  /**
   * Each managed slot among the given ones reports a serial number that is
   * neither registered already nor reported by an earlier managed slot.
   */
  predicate FreshDistinctSerials(devs: Registry, hw: Hardware, indices: seq<nat>) {
    && (forall k | 0 <= k < |indices| && IsManagedSlot(hw, indices[k]) :: hw.SerialNumber(indices[k]) !in devs)
    && (forall j, k | 0 <= j < k < |indices| && IsManagedSlot(hw, indices[j]) && IsManagedSlot(hw, indices[k]) ::
          hw.SerialNumber(indices[j]) != hw.SerialNumber(indices[k]))
  }

  /** ManagedSerials splits off the first slot. */
  lemma ManagedSerialsCons(hw: Hardware, indices: seq<nat>)
    requires indices != []
    ensures ManagedSerials(hw, indices) ==
      (if IsManagedSlot(hw, indices[0]) then {hw.SerialNumber(indices[0])} else {}) + ManagedSerials(hw, indices[1..])
  {
    var rest := indices[1..];
    var head := if IsManagedSlot(hw, indices[0]) then {hw.SerialNumber(indices[0])} else {};
    forall s | s in ManagedSerials(hw, indices) ensures s in head + ManagedSerials(hw, rest) {
      var k :| 0 <= k < |indices| && IsManagedSlot(hw, indices[k]) && hw.SerialNumber(indices[k]) == s;
      if k > 0 { assert indices[k] == rest[k - 1]; }
    }
    forall s | s in ManagedSerials(hw, rest) ensures s in ManagedSerials(hw, indices) {
      var k :| 0 <= k < |rest| && IsManagedSlot(hw, rest[k]) && hw.SerialNumber(rest[k]) == s;
      assert rest[k] == indices[k + 1];
    }
  }

  /** An unmanaged first slot plays no part in FreshDistinctSerials. */
  lemma FreshDistinctSkipUnmanaged(devs: Registry, hw: Hardware, indices: seq<nat>)
    requires indices != [] && !IsManagedSlot(hw, indices[0])
    ensures FreshDistinctSerials(devs, hw, indices) <==> FreshDistinctSerials(devs, hw, indices[1..])
  {
    var rest := indices[1..];
    if FreshDistinctSerials(devs, hw, rest) {
      forall k | 0 <= k < |indices| && IsManagedSlot(hw, indices[k])
        ensures hw.SerialNumber(indices[k]) !in devs
      {
        assert indices[k] == rest[k - 1];
      }
      forall j, k | 0 <= j < k < |indices| && IsManagedSlot(hw, indices[j]) && IsManagedSlot(hw, indices[k])
        ensures hw.SerialNumber(indices[j]) != hw.SerialNumber(indices[k])
      {
        assert indices[j] == rest[j - 1] && indices[k] == rest[k - 1];
      }
    }
    if FreshDistinctSerials(devs, hw, indices) {
      forall k | 0 <= k < |rest| && IsManagedSlot(hw, rest[k])
        ensures hw.SerialNumber(rest[k]) !in devs
      {
        assert rest[k] == indices[k + 1];
      }
      forall j, k | 0 <= j < k < |rest| && IsManagedSlot(hw, rest[j]) && IsManagedSlot(hw, rest[k])
        ensures hw.SerialNumber(rest[j]) != hw.SerialNumber(rest[k])
      {
        assert rest[j] == indices[j + 1] && rest[k] == indices[k + 1];
      }
    }
  }

  /**
   * A managed first slot with a fresh serial number: the rest must be fresh
   * and distinct with respect to the registry that now holds that serial.
   */
  lemma FreshDistinctInsertManaged(devs: Registry, hw: Hardware, indices: seq<nat>, d: TrackedDevice)
    requires indices != [] && IsManagedSlot(hw, indices[0]) && hw.SerialNumber(indices[0]) !in devs
    ensures FreshDistinctSerials(devs, hw, indices) <==>
      FreshDistinctSerials(devs[hw.SerialNumber(indices[0]) := d], hw, indices[1..])
  {
    var rest := indices[1..];
    var added := devs[hw.SerialNumber(indices[0]) := d];
    if FreshDistinctSerials(added, hw, rest) {
      forall k | 0 <= k < |indices| && IsManagedSlot(hw, indices[k])
        ensures hw.SerialNumber(indices[k]) !in devs
      {
        if k > 0 { assert indices[k] == rest[k - 1]; }
      }
      forall j, k | 0 <= j < k < |indices| && IsManagedSlot(hw, indices[j]) && IsManagedSlot(hw, indices[k])
        ensures hw.SerialNumber(indices[j]) != hw.SerialNumber(indices[k])
      {
        assert indices[k] == rest[k - 1];
        if j > 0 { assert indices[j] == rest[j - 1]; }
      }
    }
    if FreshDistinctSerials(devs, hw, indices) {
      forall k | 0 <= k < |rest| && IsManagedSlot(hw, rest[k])
        ensures hw.SerialNumber(rest[k]) !in added
      {
        assert rest[k] == indices[k + 1];
      }
      forall j, k | 0 <= j < k < |rest| && IsManagedSlot(hw, rest[j]) && IsManagedSlot(hw, rest[k])
        ensures hw.SerialNumber(rest[j]) != hw.SerialNumber(rest[k])
      {
        assert rest[j] == indices[j + 1] && rest[k] == indices[k + 1];
      }
    }
  }

  /**
   * Adding a run of connected slots succeeds exactly when the managed ones
   * report fresh, distinct serial numbers; the registry then gains exactly
   * those serial numbers, each mapped to the device of its slot.
   */
  lemma {:induction false} AddAllSucceedsIffFreshDistinct(devs: Registry, hw: Hardware, indices: seq<nat>)
    requires forall k | 0 <= k < |indices| :: hw.IsTrackedDeviceConnected(indices[k])
    ensures AddAll(devs, hw, indices).ok <==> FreshDistinctSerials(devs, hw, indices)
    ensures AddAll(devs, hw, indices).ok ==> AddAll(devs, hw, indices).registry.Keys == devs.Keys + ManagedSerials(hw, indices)
    ensures AddAll(devs, hw, indices).ok ==>
      forall k | 0 <= k < |indices| && IsManagedSlot(hw, indices[k]) ::
        AddAll(devs, hw, indices).registry[hw.SerialNumber(indices[k])] == DeviceAt(hw, indices[k])
    decreases |indices|
  {
    AddAllRegistersSlots(devs, hw, indices);
    if indices == [] {
      assert ManagedSerials(hw, indices) == {};
    } else {
      var i, rest := indices[0], indices[1..];
      var a := AfterAdd(devs, hw, i);
      assert hw.IsTrackedDeviceConnected(i);
      assert forall k | 0 <= k < |rest| :: hw.IsTrackedDeviceConnected(rest[k]) by {
        forall k | 0 <= k < |rest| ensures hw.IsTrackedDeviceConnected(rest[k]) {
          assert rest[k] == indices[k + 1];
        }
      }
      ManagedSerialsCons(hw, indices);
      if !IsManagedSlot(hw, i) {
        FreshDistinctSkipUnmanaged(devs, hw, indices);
        AddAllSucceedsIffFreshDistinct(devs, hw, rest);
      } else if hw.SerialNumber(i) in devs {
        assert !FreshDistinctSerials(devs, hw, indices) by {
          assert 0 < |indices| && IsManagedSlot(hw, indices[0]);
        }
      } else {
        FreshDistinctInsertManaged(devs, hw, indices, DeviceAt(hw, i));
        AddAllSucceedsIffFreshDistinct(a.registry, hw, rest);
      }
    }
  }

  /**
   * When adding a run of slots succeeds, every managed slot among them is
   * registered under its serial number as the device addDevice builds for
   * it: with that slot's index and type.
   */
  lemma {:induction false} AddAllRegistersSlots(devs: Registry, hw: Hardware, indices: seq<nat>)
    ensures AddAll(devs, hw, indices).ok ==>
      forall k | 0 <= k < |indices| && IsManagedSlot(hw, indices[k]) ::
        hw.SerialNumber(indices[k]) in AddAll(devs, hw, indices).registry
        && AddAll(devs, hw, indices).registry[hw.SerialNumber(indices[k])] == DeviceAt(hw, indices[k])
    decreases |indices|
  {
    if indices != [] && AddAll(devs, hw, indices).ok {
      var i, rest := indices[0], indices[1..];
      var a := AfterAdd(devs, hw, i);
      var r := AddAll(devs, hw, indices);
      assert a.ok && r == AddAll(a.registry, hw, rest);
      AddAllRegistersSlots(a.registry, hw, rest);
      forall k | 0 <= k < |indices| && IsManagedSlot(hw, indices[k])
        ensures hw.SerialNumber(indices[k]) in r.registry && r.registry[hw.SerialNumber(indices[k])] == DeviceAt(hw, indices[k])
      {
        if k == 0 {
          assert hw.SerialNumber(i) in a.registry && hw.SerialNumber(i) !in devs;
        } else {
          assert indices[k] == rest[k - 1];
        }
      }
    }
  }

  /** The serial numbers of the connected devices of supported type among the first n slots. */
  function ConnectedManagedSerials(hw: Hardware, n: nat): set<string> {
    set i: nat | i < n && hw.IsTrackedDeviceConnected(i) && IsManagedSlot(hw, i) :: hw.SerialNumber(i)
  }

  /** The scan of the first n slots lists exactly the connected managed serial numbers. */
  lemma ScanListsConnectedManaged(hw: Hardware, n: nat)
    ensures ManagedSerials(hw, ConnectedBelow(hw, n)) == ConnectedManagedSerials(hw, n)
  {
    var indices := ConnectedBelow(hw, n);
    forall s | s in ConnectedManagedSerials(hw, n) ensures s in ManagedSerials(hw, indices) {
      var i: nat :| i < n && hw.IsTrackedDeviceConnected(i) && IsManagedSlot(hw, i) && hw.SerialNumber(i) == s;
      var k :| 0 <= k < |indices| && indices[k] == i;
    }
    forall s | s in ManagedSerials(hw, indices) ensures s in ConnectedManagedSerials(hw, n) {
      var k :| 0 <= k < |indices| && IsManagedSlot(hw, indices[k]) && hw.SerialNumber(indices[k]) == s;
      assert indices[k] < n && hw.IsTrackedDeviceConnected(indices[k]);
    }
  }

  /**
   * The scan initialize performs over the first n slots: it succeeds exactly
   * when the connected managed slots report fresh, distinct serial numbers,
   * and the registry then gains exactly the serial numbers of the connected
   * devices of supported type, each mapped to the device of its slot.
   */
  lemma ScanRegistersConnected(devs: Registry, hw: Hardware, n: nat)
    ensures AddAll(devs, hw, ConnectedBelow(hw, n)).ok <==> FreshDistinctSerials(devs, hw, ConnectedBelow(hw, n))
    ensures AddAll(devs, hw, ConnectedBelow(hw, n)).ok ==>
      AddAll(devs, hw, ConnectedBelow(hw, n)).registry.Keys == devs.Keys + ConnectedManagedSerials(hw, n)
    ensures AddAll(devs, hw, ConnectedBelow(hw, n)).ok ==>
      forall i: nat | i < n && hw.IsTrackedDeviceConnected(i) && IsManagedSlot(hw, i) ::
        AddAll(devs, hw, ConnectedBelow(hw, n)).registry[hw.SerialNumber(i)] == DeviceAt(hw, i)
  {
    var indices := ConnectedBelow(hw, n);
    AddAllSucceedsIffFreshDistinct(devs, hw, indices);
    ScanListsConnectedManaged(hw, n);
    if AddAll(devs, hw, indices).ok {
      forall i: nat | i < n && hw.IsTrackedDeviceConnected(i) && IsManagedSlot(hw, i)
        ensures AddAll(devs, hw, indices).registry[hw.SerialNumber(i)] == DeviceAt(hw, i)
      {
        var k :| 0 <= k < |indices| && indices[k] == i;
      }
    }
  }

  // ---------------------------------------------------------------------
  // pose: the projection of the runtime's 3x4 matrix
  // ---------------------------------------------------------------------

  /** The 3x4 matrix whose rotation part and translation column a pose holds. */
  function MatrixOfPose(p: Pose): Matrix34 {
    var t, r := p.position, p.rotationRowMajor;
    [[r[0], r[1], r[2], t[0]], [r[3], r[4], r[5], t[1]], [r[6], r[7], r[8], t[2]]]
  }

  /**
   * The pose read off a 3x4 matrix: the translation column and the upper-left
   * 3x3 block row by row. Nothing is lost: the matrix is rebuilt from the pose.
   */
  function PoseOfMatrix(m: Matrix34): (p: Pose)
    ensures MatrixOfPose(p) == m
  {
    var p := Pose([m[0][3], m[1][3], m[2][3]],
                  [m[0][0], m[0][1], m[0][2], m[1][0], m[1][1], m[1][2], m[2][0], m[2][1], m[2][2]]);
    assert MatrixOfPose(p)[0] == m[0] && MatrixOfPose(p)[1] == m[1] && MatrixOfPose(p)[2] == m[2];
    p
  }

  /** Every pose is the projection of the matrix built from it. */
  lemma PoseMatrixRoundTrip(p: Pose)
    ensures PoseOfMatrix(MatrixOfPose(p)) == p
  {
    var q := PoseOfMatrix(MatrixOfPose(p));
    assert q.position == p.position;
    assert q.rotationRowMajor == p.rotationRowMajor;
  }

  /**
   * A raw pose yields a pose exactly when it is valid and its tracking result
   * is Running_OK, and the pose then carries the raw matrix's entries.
   */
  function ValidatedPose(raw: RawPose): (p: Option<Pose>)
    ensures p.Some? <==> raw.poseIsValid && raw.trackingResult == TrackingResultRunningOK
    ensures p.Some? ==> MatrixOfPose(p.value) == raw.deviceToAbsoluteTracking
  {
    if !raw.poseIsValid then None
    else if raw.trackingResult != TrackingResultRunningOK then None
    else Some(PoseOfMatrix(raw.deviceToAbsoluteTracking))
  }

  // ---------------------------------------------------------------------
  // A worked scenario
  // ---------------------------------------------------------------------

  /** Two devices: slot 0 is Controller "A", slot 1 is GenericTracker "B". */
  const TwoDevices: Hardware := Hardware({0, 1}, map[0 := "A", 1 := "B"], map[0 := 2, 1 := 3])

  /** When slots 0 and 1 are the connected ones, the scan finds them, in order. */
  lemma TwoSlotScan(hw: Hardware)
    requires hw.connected == {0, 1}
    ensures ConnectedBelow(hw, MaxTrackedDeviceCount) == [0, 1]
  {
    assert ConnectedBelow(hw, 1) == [0];
    assert ConnectedBelow(hw, 2) == [0] + [1];
    ConnectedBelowIgnoresEmptySlots(hw, 2, MaxTrackedDeviceCount);
  }

  /** Adding the two slots to an empty registry registers "A" at slot 0 and "B" at slot 1. */
  lemma TwoDeviceRegistration()
    ensures AddAll(map[], TwoDevices, [0, 1]) == AddOutcome(true, TwoDeviceRegistry)
  {
    var hw := TwoDevices;
    var a := AfterAdd(map[], hw, 0);
    assert hw.SerialNumber(0) == "A" && DeviceAt(hw, 0) == TrackedDevice(0, "A", Controller);
    assert a == AddOutcome(true, map["A" := TrackedDevice(0, "A", Controller)]);
    assert hw.SerialNumber(1) == "B" && DeviceAt(hw, 1) == TrackedDevice(1, "B", GenericTracker);
    assert AfterAdd(a.registry, hw, 1) == AddOutcome(true, TwoDeviceRegistry);
    assert [0, 1][1..] == [1] && [1][1..] == [];
  }

  const TwoDeviceRegistry: Registry :=
    map["A" := TrackedDevice(0, "A", Controller), "B" := TrackedDevice(1, "B", GenericTracker)]

  /** A Deactivated event for slot 0 then leaves only "B". */
  lemma TwoDeviceDeactivation()
    ensures Drain(TwoDeviceRegistry, TwoDevices, [Event(TrackedDeviceDeactivated, 0)])
      == DrainOutcome(map["B" := TrackedDevice(1, "B", GenericTracker)], [], false)
  {
    assert SlotSerials(TwoDeviceRegistry, 0) == {"A"};
    assert AfterDeactivation(TwoDeviceRegistry, 0) == map["B" := TrackedDevice(1, "B", GenericTracker)];
    DrainStep(TwoDeviceRegistry, TwoDevices, Event(TrackedDeviceDeactivated, 0), []);
  }
}
