/**
 * openvr::DevicesManager: the registry of tracked devices, kept in step
 * with the runtime's events, and the guarded read of a device's pose.
 * Each public method is taken to run atomically (the recursive mutex and
 * the detector thread are not modelled).
 */
module Manager {
  import opened Wrappers
  import opened OpenVR
  import opened Trackers
  import opened DeviceRegistry

  class DevicesManager {
    /** The managed devices, by serial number. */
    var devices: Registry
    /** The IVRSystem handle: null before initialization and after shutdown. */
    var vr: Runtime?
    /** The tracking universe in which poses are requested. */
    const origin: TrackingUniverseOrigin

    /** The object invariant: the registry is well formed. */
    ghost predicate Valid()
      reads this
    {
      WellFormed(devices)
    }

    constructor (origin: TrackingUniverseOrigin := DefaultOrigin)
      ensures Valid()
      ensures devices == map[] && vr == null && this.origin == origin
    {
      devices := map[];
      vr := null;
      this.origin := origin;
    }

    /** initialized(): the handle is set and the runtime reports a version. */
    predicate Initialized()
      reads this, vr
      ensures Initialized() ==> vr != null
    {
      vr != null && vr.versionNonEmpty
    }

    /**
     * initialize(). `runtime` is the handle VR_Init returns (null when it
     * fails). An initialized manager refuses. Otherwise the handle is stored,
     * the connected slots are scanned in order and each is added, stopping
     * at the first failure; the handle stays set even then.
     */
    method Initialize(runtime: Runtime?) returns (ok: bool)
      requires Valid()
      modifies this
      ensures Valid()
      ensures old(Initialized()) ==> !ok && devices == old(devices) && vr == old(vr)
      ensures !old(Initialized()) ==> vr == runtime
      ensures !old(Initialized()) && runtime == null ==> !ok && devices == old(devices)
      ensures !old(Initialized()) && runtime != null ==>
        AddOutcome(ok, devices) == AddAll(old(devices), runtime.hardware, ConnectedBelow(runtime.hardware, MaxTrackedDeviceCount))
    {
      if Initialized() {
        return false;
      }
      vr := runtime;
      if vr == null {
        return false;
      }
      var indices := ConnectedDeviceIndices();
      ghost var hw := vr.hardware;
      var k := 0;
      while k < |indices|
        invariant 0 <= k <= |indices|
        invariant Valid() && vr == runtime
        invariant AddAll(devices, hw, indices[k..]) == AddAll(old(devices), hw, indices)
      {
        assert indices[k..][1..] == indices[k + 1..];
        var added := AddDevice(indices[k]);
        if !added {
          return false;
        }
        k := k + 1;
      }
      return true;
    }

    /** The scan inside initialize: the connected slots, in increasing order. */
    method ConnectedDeviceIndices() returns (indices: seq<nat>)
      requires vr != null
      ensures indices == ConnectedBelow(vr.hardware, MaxTrackedDeviceCount)
    {
      indices := [];
      var i := 0;
      while i < MaxTrackedDeviceCount
        invariant 0 <= i <= MaxTrackedDeviceCount
        invariant indices == ConnectedBelow(vr.hardware, i)
      {
        if vr.hardware.IsTrackedDeviceConnected(i) {
          indices := indices + [i];
        }
        i := i + 1;
      }
    }

    /** addDevice(index). The handle must be set: the code calls through it unchecked. */
    method AddDevice(index: nat) returns (ok: bool)
      requires Valid() && vr != null
      modifies this
      ensures Valid() && vr == old(vr)
      ensures AddOutcome(ok, devices) == AfterAdd(old(devices), vr.hardware, index)
    {
      if !vr.hardware.IsTrackedDeviceConnected(index) {
        return false;
      }
      var serialNumber := vr.hardware.SerialNumber(index);
      var deviceType := DeviceTypeOfCode(vr.hardware.DeviceClass(index));
      if !DeviceTypeIsSupported(deviceType) {
        return true;
      }
      var device := TrackedDevice(index, serialNumber, deviceType);
      if serialNumber in devices {
        return false;
      }
      devices := devices[serialNumber := device];
      return true;
    }

    /** removeDevice(serialNumber): reports whether the key was present and removes it. */
    method RemoveDevice(serialNumber: string) returns (ok: bool)
      requires Valid()
      modifies this
      ensures Valid() && vr == old(vr)
      ensures ok == (serialNumber in old(devices))
      ensures devices == AfterRemove(old(devices), serialNumber)
    {
      ok := serialNumber in devices;
      devices := devices - {serialNumber};
    }

    /** managedDevices(): every registered serial number, each once, in no particular order. */
    method ManagedDevices() returns (serials: seq<string>)
      ensures forall sn :: sn in serials <==> sn in devices
      ensures forall j, k | 0 <= j < k < |serials| :: serials[j] != serials[k]
      ensures |serials| == |devices|
    {
      serials := [];
      var rest := devices.Keys;
      while rest != {}
        invariant rest <= devices.Keys
        invariant forall sn :: sn in serials <==> sn in devices && sn !in rest
        invariant forall j, k | 0 <= j < k < |serials| :: serials[j] != serials[k]
        invariant |serials| + |rest| == |devices|
        decreases |rest|
      {
        var sn :| sn in rest;
        serials := serials + [sn];
        rest := rest - {sn};
      }
    }

    /** clearEvents(): drains the event queue, leaving the registry alone. */
    method ClearEvents()
      requires vr != null
      modifies vr`events
      ensures vr.events == []
    {
      while true
        decreases |vr.events|
      {
        var polled := vr.PollNextEvent();
        if polled.None? {
          break;
        }
      }
    }

    /** The TrackedDeviceDeactivated branch: removes every entry registered at the slot. */
    method RemoveDevicesAtSlot(index: nat)
      requires Valid()
      modifies this
      ensures Valid() && vr == old(vr)
      ensures devices == AfterDeactivation(old(devices), index)
    {
      ghost var before := devices;
      var matching := SlotSerials(devices, index);
      while matching != {}
        invariant Valid() && vr == old(vr)
        invariant matching <= SlotSerials(before, index)
        invariant devices == before - (SlotSerials(before, index) - matching)
        decreases |matching|
      {
        var sn :| sn in matching;
        var removed := RemoveDevice(sn);
        matching := matching - {sn};
      }
    }

    /** The Quit branch's clean-up: removes every serial managedDevices() lists. */
    method RemoveAllManagedDevices()
      requires Valid()
      modifies this
      ensures Valid() && vr == old(vr)
      ensures devices == map[]
    {
      var serials := ManagedDevices();
      var k := 0;
      while k < |serials|
        invariant 0 <= k <= |serials|
        invariant Valid() && vr == old(vr)
        invariant forall sn :: sn in devices <==> sn in serials[k..]
      {
        var removed := RemoveDevice(serials[k]);
        k := k + 1;
      }
      assert devices.Keys == {};
    }

    /**
     * processEvents(): handles the queued events in order. Activated adds
     * the device, Deactivated removes the entries at that slot, Quit empties
     * the registry, drops the handle and ends the pass; other kinds are
     * ignored. The handle must be set on entry.
     */
    method ProcessEvents()
      requires Valid() && vr != null
      modifies this, vr`events
      ensures Valid()
      ensures var d := Drain(old(devices), old(vr.hardware), old(vr.events));
        && devices == d.registry
        && old(vr).events == d.remaining
        && vr == (if d.quit then null else old(vr))
    {
      var rt := vr;
      ghost var hw := rt.hardware;
      ghost var d := Drain(devices, hw, rt.events);
      while true
        invariant vr == rt && rt.hardware == hw && Valid()
        invariant Drain(devices, hw, rt.events) == d
        decreases |rt.events|
      {
        ghost var queued := rt.events;
        var polled := vr.PollNextEvent();
        if polled.None? {
          break;
        }
        var event := polled.value;
        assert queued == [event] + rt.events;
        DrainStep(devices, hw, event, rt.events);
        match event.eventType {
          case TrackedDeviceActivated =>
            var added := AddDevice(event.trackedDeviceIndex);
          case TrackedDeviceDeactivated =>
            RemoveDevicesAtSlot(event.trackedDeviceIndex);
          case Quit =>
            RemoveAllManagedDevices();
            vr := null;
          case _ =>
        }
        if vr == null {
          break;
        }
      }
    }

    /**
     * pose(serialNumber): empty unless the manager is initialized, the serial
     * is registered, its slot is connected, and the runtime's pose for that
     * slot is valid and Running_OK; the pose then carries the runtime's
     * matrix entries.
     */
    method PoseOf(serialNumber: string) returns (p: Option<Pose>)
      ensures p.Some? <==>
        && Initialized()
        && serialNumber in devices
        && vr.hardware.IsTrackedDeviceConnected(devices[serialNumber].index)
        && vr.ControllerPose(OriginCode(origin), devices[serialNumber].index).poseIsValid
        && vr.ControllerPose(OriginCode(origin), devices[serialNumber].index).trackingResult == TrackingResultRunningOK
      ensures p.Some? ==>
        MatrixOfPose(p.value) == vr.ControllerPose(OriginCode(origin), devices[serialNumber].index).deviceToAbsoluteTracking
    {
      if !Initialized() {
        return None;
      }
      if serialNumber !in devices {
        return None;
      }
      var index := devices[serialNumber].index;
      if !vr.hardware.IsTrackedDeviceConnected(index) {
        return None;
      }
      return ValidatedPose(vr.ControllerPose(OriginCode(origin), index));
    }
  }
}
