/** The value types of the trackers driver: its enums and its two structs. */
module Trackers {

  /** TrackingUniverseOrigin, with the same numbering as OpenVR's ETrackingUniverseOrigin. */
  datatype TrackingUniverseOrigin = Seated | Standing | Raw

  /** The integer value of an origin, as passed to the runtime. */
  function OriginCode(o: TrackingUniverseOrigin): (c: int)
    ensures 0 <= c <= 2
  {
    match o
    case Seated => 0
    case Standing => 1
    case Raw => 2
  }

  /** The origin a manager uses when none is given. */
  const DefaultOrigin: TrackingUniverseOrigin := Seated

  /** TrackedDeviceType, with the same numbering as OpenVR's ETrackedDeviceClass. */
  datatype TrackedDeviceType = Invalid | HMD | Controller | GenericTracker | TrackingReference | DisplayRedirect

  /** The integer value of a device type. */
  function TypeCode(t: TrackedDeviceType): (c: int)
    ensures 0 <= c <= 5
  {
    match t
    case Invalid => 0
    case HMD => 1
    case Controller => 2
    case GenericTracker => 3
    case TrackingReference => 4
    case DisplayRedirect => 5
  }

  /**
   * The conversion TrackedDeviceType(c) of a runtime device class. Codes
   * outside 0..5 (which OpenVR does not produce) become Invalid.
   */
  function DeviceTypeOfCode(c: int): (t: TrackedDeviceType)
    ensures 0 <= c <= 5 ==> TypeCode(t) == c
    ensures !(0 <= c <= 5) ==> t == Invalid
  {
    match c
    case 1 => HMD
    case 2 => Controller
    case 3 => GenericTracker
    case 4 => TrackingReference
    case 5 => DisplayRedirect
    case _ => Invalid
  }

  type Vector3 = s: seq<real> | |s| == 3 witness [0.0, 0.0, 0.0]
  type RowMajor3x3 = s: seq<real> | |s| == 9 witness [0.0, 0.0, 0.0, 0.0, 0.0, 0.0, 0.0, 0.0, 0.0]

  /** A device's position and its rotation matrix flattened row by row. */
  datatype Pose = Pose(position: Vector3, rotationRowMajor: RowMajor3x3)

  /** A managed device: its slot, its serial number and its type. */
  datatype TrackedDevice = TrackedDevice(index: nat, serialNumber: string, deviceType: TrackedDeviceType)

  /** A default-constructed TrackedDevice (its index is left at zero here). */
  const DefaultTrackedDevice: TrackedDevice := TrackedDevice(0, "", Invalid)

  /** Every device type survives the trip through its integer code. */
  lemma TypeCodeRoundTrip(t: TrackedDeviceType)
    ensures DeviceTypeOfCode(TypeCode(t)) == t
  {
  }

  /** Distinct origins are passed to the runtime as distinct codes. */
  lemma OriginCodeInjective(a: TrackingUniverseOrigin, b: TrackingUniverseOrigin)
    ensures OriginCode(a) == OriginCode(b) ==> a == b
  {
  }
}
