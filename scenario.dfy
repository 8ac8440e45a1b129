/**
 * A client of the manager that exercises its public operations: two devices
 * are found at start-up and listed, and the first one's pose is read, as the
 * driver's command-line program does; then the first device is deactivated
 * and the runtime quits, through direct calls of processEvents that stand in
 * for the detector thread.
 */
module Scenario {
  import opened Wrappers
  import opened OpenVR
  import opened Trackers
  import opened DeviceRegistry
  import opened Manager

  /** Start-up: both devices are registered. */
  method StartTwoTrackers(m0: Matrix34) returns (manager: DevicesManager, rt: Runtime)
    ensures fresh(manager) && fresh(rt) && manager.Valid() && manager.vr == rt
    ensures manager.devices == TwoDeviceRegistry && manager.origin == Seated
    ensures rt.hardware == TwoDevices && rt.versionNonEmpty
    ensures rt.events == [Event(TrackedDeviceDeactivated, 0)]
    ensures rt.poses == map[(OriginCode(Seated), 0) := RawPose(true, TrackingResultRunningOK, m0)]
  {
    var poses := map[(OriginCode(Seated), 0) := RawPose(true, TrackingResultRunningOK, m0)];
    rt := new Runtime(TwoDevices, [Event(TrackedDeviceDeactivated, 0)], poses, true);
    manager := new DevicesManager();
    var ok := manager.Initialize(rt);
    TwoSlotScan(TwoDevices);
    TwoDeviceRegistration();
    assert ok && manager.devices == TwoDeviceRegistry;
  }

  /** Both serial numbers are listed, and "A" has the pose of slot 0. */
  method InspectTwoTrackers(manager: DevicesManager, rt: Runtime, m0: Matrix34)
    returns (serials: seq<string>, pose: Option<Pose>)
    requires manager.vr == rt && manager.devices == TwoDeviceRegistry && manager.origin == Seated
    requires rt.hardware == TwoDevices && rt.versionNonEmpty
    requires rt.poses == map[(OriginCode(Seated), 0) := RawPose(true, TrackingResultRunningOK, m0)]
    ensures forall sn :: sn in serials <==> sn == "A" || sn == "B"
    ensures pose.Some? && MatrixOfPose(pose.value) == m0
  {
    serials := manager.ManagedDevices();
    pose := manager.PoseOf("A");
  }

  /** Slot 0 is deactivated: only "B" remains and "A" has no pose. */
  method DeactivateFirst(manager: DevicesManager, rt: Runtime) returns (pose: Option<Pose>)
    requires manager.Valid() && manager.vr == rt
    requires manager.devices == TwoDeviceRegistry && rt.hardware == TwoDevices
    requires rt.events == [Event(TrackedDeviceDeactivated, 0)]
    modifies manager, rt
    ensures manager.Valid() && manager.vr == rt && rt.events == [] && rt.hardware == TwoDevices
    ensures manager.devices == map["B" := TrackedDevice(1, "B", GenericTracker)]
    ensures pose == None
  {
    TwoDeviceDeactivation();
    manager.ProcessEvents();
    pose := manager.PoseOf("A");
  }

  /**
   * The runtime quits: the registry empties, the handle is dropped, and an
   * event queued behind the Quit is left unprocessed.
   */
  method QuitSession(manager: DevicesManager, rt: Runtime, late: Event)
    requires manager.Valid() && manager.vr == rt
    modifies manager, rt
    ensures manager.devices == map[] && !manager.Initialized() && rt.events == [late]
  {
    var quit := Event(Quit, 0);
    rt.events := [quit, late];
    DrainStopsAtFirstQuit(manager.devices, rt.hardware, [], quit, [late]);
    assert [] + [quit] + [late] == [quit, late];
    manager.ProcessEvents();
    var pose := manager.PoseOf("B");
    assert pose == None;
  }

  method TwoTrackerSession(m0: Matrix34, late: Event)
  {
    var manager, rt := StartTwoTrackers(m0);
    var serials, pose := InspectTwoTrackers(manager, rt, m0);
    var gone := DeactivateFirst(manager, rt);
    QuitSession(manager, rt, late);
  }
}
