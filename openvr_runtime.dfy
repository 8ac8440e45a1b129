/**
 * An abstract model of the OpenVR runtime as the devices manager sees it
 * through its IVRSystem handle. The runtime is not re-implemented: its
 * observable state is a table of device slots, a queue of pending events,
 * the raw poses it would report, and whether it reports a runtime version.
 */
module OpenVR {
  import opened Wrappers

  /** k_unMaxTrackedDeviceCount of the OpenVR headers: the number of device slots. */
  const MaxTrackedDeviceCount: nat := 64

  /** TrackedDeviceClass_Invalid: what the runtime reports for an empty slot. */
  const TrackedDeviceClassInvalid: int := 0

  /** TrackingResult_Uninitialized and TrackingResult_Running_OK of ETrackingResult. */
  const TrackingResultUninitialized: int := 1
  const TrackingResultRunningOK: int := 200

  /** The kinds of VREvent_t the manager distinguishes; every other kind is Other. */
  datatype EventType =
    | TrackedDeviceActivated
    | TrackedDeviceDeactivated
    | TrackedDeviceUpdated
    | TrackedDeviceRoleChanged
    | TrackedDeviceUserInteractionStarted
    | TrackedDeviceUserInteractionEnded
    | Quit
    | Other(code: int)

  /** A VREvent_t, reduced to the two fields the manager reads. */
  datatype Event = Event(eventType: EventType, trackedDeviceIndex: nat)

  /** HmdMatrix34_t: three rows of four entries (rotation columns, then translation). */
  type Matrix34 = m: seq<seq<real>> | |m| == 3 && |m[0]| == 4 && |m[1]| == 4 && |m[2]| == 4
    witness [[0.0, 0.0, 0.0, 0.0], [0.0, 0.0, 0.0, 0.0], [0.0, 0.0, 0.0, 0.0]]

  const ZeroMatrix: Matrix34 := [[0.0, 0.0, 0.0, 0.0], [0.0, 0.0, 0.0, 0.0], [0.0, 0.0, 0.0, 0.0]]

  /** TrackedDevicePose_t, reduced to the fields the manager reads. */
  datatype RawPose = RawPose(poseIsValid: bool, trackingResult: int, deviceToAbsoluteTracking: Matrix34)

  /**
   * The runtime's device slots: which indices are connected, and the serial
   * number and device class the property queries report for each index.
   */
  datatype Hardware = Hardware(connected: set<nat>, serials: map<nat, string>, classes: map<nat, int>)
  {
    /** IsTrackedDeviceConnected */
    predicate IsTrackedDeviceConnected(index: nat) {
      index in connected
    }

    /** GetStringTrackedDeviceProperty(index, Prop_SerialNumber_String): empty when unknown. */
    function SerialNumber(index: nat): string {
      if index in serials then serials[index] else ""
    }

    /** GetTrackedDeviceClass: TrackedDeviceClass_Invalid when unknown. */
    function DeviceClass(index: nat): int {
      if index in classes then classes[index] else TrackedDeviceClassInvalid
    }
  }

  /** The runtime behind an IVRSystem handle. */
  class Runtime {
    var hardware: Hardware
    var events: seq<Event>
    /** Raw poses, by (tracking-universe origin code, device index). */
    var poses: map<(int, nat), RawPose>
    /** Whether GetRuntimeVersion returns a non-empty string. */
    var versionNonEmpty: bool

    constructor (hardware: Hardware, events: seq<Event>, poses: map<(int, nat), RawPose>, versionNonEmpty: bool)
      ensures this.hardware == hardware && this.events == events
      ensures this.poses == poses && this.versionNonEmpty == versionNonEmpty
    {
      this.hardware := hardware;
      this.events := events;
      this.poses := poses;
      this.versionNonEmpty := versionNonEmpty;
    }

    /** The pose GetControllerStateWithPose reports; an invalid pose for an unknown slot. */
    function ControllerPose(origin: int, index: nat): (r: RawPose)
      reads this
      ensures (origin, index) in poses ==> r == poses[(origin, index)]
      ensures (origin, index) !in poses ==> !r.poseIsValid && r.trackingResult != TrackingResultRunningOK
    {
      if (origin, index) in poses then poses[(origin, index)]
      else RawPose(false, TrackingResultUninitialized, ZeroMatrix)
    }

    /** PollNextEvent: takes the oldest pending event, if there is one. */
    method PollNextEvent() returns (e: Option<Event>)
      modifies this`events
      ensures old(events) == [] ==> e == None && events == []
      ensures old(events) != [] ==> e == Some(old(events)[0]) && events == old(events)[1..]
    {
      if events == [] {
        e := None;
      } else {
        e := Some(events[0]);
        events := events[1..];
      }
    }
  }
}
