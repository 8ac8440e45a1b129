# yarp-openvr-trackers: the devices manager, in Dafny

This project models `openvr::DevicesManager`, the part of the OpenVR trackers
driver that keeps a registry of tracked devices (head-mounted display,
controllers, generic trackers) in step with the OpenVR runtime and hands out
their poses. Every property below is proved by Dafny's verifier.

What is modelled:

- **The value types** of `OpenVRTrackersDriver.h` (module `Trackers`):
  `TrackingUniverseOrigin` (Seated=0, Standing=1, Raw=2; Seated is the
  default), `TrackedDeviceType` (Invalid=0, HMD=1, Controller=2,
  GenericTracker=3, TrackingReference=4, DisplayRedirect=5), `Pose` (3
  position components, 9 row-major rotation components, enforced by subset
  types) and `TrackedDevice` (field `type` is named `deviceType`, since `type`
  is a Dafny keyword).
- **The OpenVR runtime** (module `OpenVR`) as abstract state, not
  re-implemented: a class `Runtime` holding a `Hardware` value (connected slot
  indices, serial number and device class per slot), the queue of pending
  events, the raw pose per (origin code, slot) with its validity flag, tracking
  result and 3×4 matrix, and whether the runtime reports a non-empty version.
  The manager's `vr` handle is a `Runtime?`; `VR_Init`'s result is the
  parameter of `Initialize`.
- **The registry operations as pure functions** (module `DeviceRegistry`):
  what `addDevice`, `removeDevice`, the Deactivated handler, one pass of
  `processEvents` (`Drain`), and the start-up scan (`ConnectedBelow`,
  `AddAll`) do to the registry, with the registry invariant `WellFormed`
  (every entry is keyed by its own serial number and has a supported type)
  and lemmas about them.
- **The manager itself** (module `Manager`): a class `DevicesManager` with the
  fields `devices` (a `map` from serial number to `TrackedDevice`), `vr` and
  the constant `origin`; each method mirrors the C++ method's control flow
  (early returns, the `while (PollNextEvent)` loops, the index scan with
  `push_back`) and is proved against the functions above.
- **A client** (module `Scenario`) that exercises the public operations:
  start-up over two devices, then listing them and reading a pose as the
  driver's command-line program does; then a Deactivated event and a Quit,
  handled by direct calls of `ProcessEvents` that stand in for the detector
  thread.

Behaviour of the code worth knowing, each proved:

- `addDevice` checks the device type before the duplicate check, so a
  connected device of unsupported type is reported as added even if its
  serial is already a key (`AddUnsupportedIgnoresDuplicates`).
- When `initialize` fails while adding a device, the handle stays set and the
  devices added before the failure stay registered (`Initialize`,
  `AddAllStopsAtFirstFailure`).
- The code does not keep two entries from sharing a slot: if a slot reports a
  new serial number without a Deactivated event first, the stale entry stays
  (`SlotReuseKeepsStaleEntry`).
- A Quit event ends the pass; events queued behind it stay queued
  (`DrainStopsAtFirstQuit`, `ProcessEvents`).

## Model

| member | source | states |
|---|---|---|
| `Trackers.OriginCode` | src/OpenVRTrackersDriver.h:26-31 | every origin has a code in 0..2 |
| `Trackers.OriginCodeInjective` | src/OpenVRTrackersDriver.cpp:349-350 | distinct origins reach the runtime as distinct codes |
| `Trackers.TypeCode` | src/OpenVRTrackersDriver.h:33-41 | every device type has a code in 0..5 |
| `Trackers.DeviceTypeOfCode` | src/OpenVRTrackersDriver.cpp:180-181 | converting a runtime class code in 0..5 yields the type with that code; other codes yield Invalid |
| `Trackers.TypeCodeRoundTrip` | src/OpenVRTrackersDriver.h:33-41 | each device type survives the round trip through its code |
| `DeviceRegistry.DeviceTypeIsSupported` | src/OpenVRTrackersDriver.cpp:38-49 | a type is supported exactly when its code is 1, 2 or 3 (HMD, Controller, GenericTracker) |
| `OpenVR.Runtime.PollNextEvent` | src/OpenVRTrackersDriver.cpp:256 | yields the oldest queued event and removes it, or nothing when the queue is empty |
| `OpenVR.Runtime.ControllerPose` | src/OpenVRTrackersDriver.cpp:349-354 | the pose the runtime reports for a slot in a tracking universe; a slot with no pose reads as an invalid pose that is not Running_OK |
| `DeviceRegistry.SupportedClassCodes` | src/OpenVRTrackersDriver.cpp:38-49 | a runtime class is kept exactly when it is HMD, Controller or GenericTracker (codes 1, 2, 3) |
| `DeviceRegistry.DefaultDeviceNeverManaged` | src/OpenVRTrackersDriver.h:56 | a default-constructed device (type Invalid) is never in a well-formed registry |
| `DeviceRegistry.AfterAdd` | src/OpenVRTrackersDriver.cpp:159-210 | addDevice succeeds iff the slot is connected and the device is unsupported or has a new serial; on failure the registry is unchanged; old entries never change; a successful add of a supported device inserts its serial; the only possible new entry is the slot's device under its serial; the invariant is kept |
| `DeviceRegistry.AddUnsupportedIgnoresDuplicates` | src/OpenVRTrackersDriver.cpp:183-203 | an unsupported connected device is reported as added and inserts nothing, even when its serial is already a key |
| `DeviceRegistry.AddDuplicateKeepsSize` | src/OpenVRTrackersDriver.cpp:198-203 | a supported device whose serial is already a key fails and keeps the registry size |
| `DeviceRegistry.AddFreshGrowsByOne` | src/OpenVRTrackersDriver.cpp:205-209 | a connected supported device with a new serial succeeds, adds exactly that key, and grows the registry by one |
| `DeviceRegistry.AfterRemove` | src/OpenVRTrackersDriver.cpp:212-224 | after removal the serial is absent, every other entry is kept, no key is added, an absent serial leaves the registry unchanged, the invariant is kept |
| `DeviceRegistry.RemoveShrinksByOne` | src/OpenVRTrackersDriver.cpp:212-224 | removing a present serial shrinks the registry by exactly one |
| `DeviceRegistry.AfterDeactivation` | src/OpenVRTrackersDriver.cpp:268-273 | a Deactivated event keeps exactly the entries at other slots, unchanged, and keeps the invariant |
| `DeviceRegistry.AfterEvent` | src/OpenVRTrackersDriver.cpp:264-298 | handling one non-Quit event keeps the registry invariant |
| `DeviceRegistry.Drain` | src/OpenVRTrackersDriver.cpp:256-303 | a pass keeps the invariant; if it saw Quit the registry is empty, otherwise the queue is fully drained |
| `DeviceRegistry.DrainQuitsIffQuitQueued` | src/OpenVRTrackersDriver.cpp:283-302 | a pass ends on Quit exactly when a Quit event is queued |
| `DeviceRegistry.DrainLeavesTail` | src/OpenVRTrackersDriver.cpp:256-303 | what stays queued is a tail of the queue, strictly shorter when the queue was not empty |
| `DeviceRegistry.DrainStep` | src/OpenVRTrackersDriver.cpp:256-303 | a pass handles the first event and continues, or stops with an empty registry if that event is Quit |
| `DeviceRegistry.DrainInQueueOrder` | src/OpenVRTrackersDriver.cpp:256-303 | events are handled in queue order: a Quit-free prefix is fully handled before the rest |
| `DeviceRegistry.DrainStopsAtFirstQuit` | src/OpenVRTrackersDriver.cpp:283-302 | whatever precedes the first Quit, the pass ends with an empty registry and leaves exactly the events behind Quit queued |
| `DeviceRegistry.QuietEventsChangeNothing` | src/OpenVRTrackersDriver.cpp:274-297 | Updated, RoleChanged, UserInteractionStarted/Ended and unknown events leave the registry unchanged and are all consumed |
| `DeviceRegistry.SlotReuseKeepsStaleEntry` | src/OpenVRTrackersDriver.cpp:198-206 | activating a slot that reports a new serial keeps the old entry for that slot, so two entries share one index |
| `DeviceRegistry.ConnectedBelow` | src/OpenVRTrackersDriver.cpp:111-121 | the scan lists every connected slot below the bound and nothing else, in strictly increasing order |
| `DeviceRegistry.ConnectedBelowIgnoresEmptySlots` | src/OpenVRTrackersDriver.cpp:114-118 | disconnected slots at the end of the range add nothing to the scan |
| `DeviceRegistry.AddAll` | src/OpenVRTrackersDriver.cpp:125-132 | adding the scanned slots in turn keeps the invariant and never changes or drops an existing entry |
| `DeviceRegistry.AddAllStopsAtFirstFailure` | src/OpenVRTrackersDriver.cpp:125-131 | the first slot addDevice refuses ends the scan with false, and the registry keeps exactly what the slots before it added, whatever slots follow |
| `DeviceRegistry.AddAllRegistersSlots` | src/OpenVRTrackersDriver.cpp:125-132 | when adding a run of slots succeeds, each supported slot is registered under its serial with that slot's index and type |
| `DeviceRegistry.AddAllSucceedsIffFreshDistinct` | src/OpenVRTrackersDriver.cpp:125-132 | adding connected slots succeeds iff the supported ones report serials that are new and pairwise distinct; the registry then gains exactly those serials, each mapped to its slot's device (index, serial, type) |
| `DeviceRegistry.ScanListsConnectedManaged` | src/OpenVRTrackersDriver.cpp:111-121 | the scanned slots' supported serials are exactly those of the connected supported devices |
| `DeviceRegistry.ScanRegistersConnected` | src/OpenVRTrackersDriver.cpp:111-132 | initialize's scan succeeds iff serials are fresh and distinct, and then registers exactly the connected devices of supported type, each under its serial with its own slot index and type |
| `DeviceRegistry.PoseOfMatrix` | src/OpenVRTrackersDriver.cpp:376-386 | the pose keeps every entry of the translation column and the 3×3 rotation block: the matrix is rebuilt from it |
| `DeviceRegistry.PoseMatrixRoundTrip` | src/OpenVRTrackersDriver.h:44-48 | every pose is the projection of the matrix built from it, so the projection is a bijection |
| `DeviceRegistry.ValidatedPose` | src/OpenVRTrackersDriver.cpp:356-387 | a raw pose gives a pose iff it is valid and Running_OK, and that pose carries the raw matrix entries |
| `DeviceRegistry.TwoSlotScan` | src/OpenVRTrackersDriver.cpp:111-121 | with slots 0 and 1 connected the scan yields [0, 1] |
| `DeviceRegistry.TwoDeviceRegistration` | src/OpenVRTrackersDriver.cpp:125-132 | adding Controller "A" at slot 0 and GenericTracker "B" at slot 1 to an empty registry registers both |
| `DeviceRegistry.TwoDeviceDeactivation` | src/OpenVRTrackersDriver.cpp:268-273 | a Deactivated event for slot 0 then leaves only "B" |
| `Manager.DevicesManager.constructor` | src/OpenVRTrackersDriver.cpp:52-56 | a new manager has an empty registry, no handle, and the given origin (Seated by default) |
| `Manager.DevicesManager.Initialized` | src/OpenVRTrackersDriver.cpp:70-74 | initialized means a handle is held (and the runtime reports a version), so the guarded reads in pose() go through a non-null handle |
| `Manager.DevicesManager.Initialize` | src/OpenVRTrackersDriver.cpp:76-157 | an initialized manager refuses and changes nothing; otherwise the handle is stored even on failure, a failed runtime start fails, and the result and registry are those of adding the scanned slots in order |
| `Manager.DevicesManager.ConnectedDeviceIndices` | src/OpenVRTrackersDriver.cpp:111-121 | the loop collects exactly the scan's slots, in increasing order |
| `Manager.DevicesManager.AddDevice` | src/OpenVRTrackersDriver.cpp:159-210 | the answer and the new registry are exactly AfterAdd's; the handle is kept |
| `Manager.DevicesManager.RemoveDevice` | src/OpenVRTrackersDriver.cpp:212-224 | reports whether the serial was a key, and the registry loses exactly that key |
| `Manager.DevicesManager.ManagedDevices` | src/OpenVRTrackersDriver.cpp:226-236 | lists every registered serial exactly once and nothing else |
| `Manager.DevicesManager.ClearEvents` | src/OpenVRTrackersDriver.cpp:238-249 | empties the event queue and changes nothing in the manager |
| `Manager.DevicesManager.RemoveDevicesAtSlot` | src/OpenVRTrackersDriver.cpp:268-273 | removing the serials at a slot one by one leaves exactly AfterDeactivation's registry |
| `Manager.DevicesManager.RemoveAllManagedDevices` | src/OpenVRTrackersDriver.cpp:286-291 | removing every serial managedDevices lists empties the registry |
| `Manager.DevicesManager.ProcessEvents` | src/OpenVRTrackersDriver.cpp:251-304 | the registry and the events left queued are those of Drain over the old queue; the handle is dropped exactly when a Quit was handled |
| `Manager.DevicesManager.PoseOf` | src/OpenVRTrackersDriver.cpp:321-387 | a pose is returned iff the manager is initialized, the serial is registered, its slot is connected, and the runtime's pose is valid and Running_OK; it then carries the runtime's matrix entries |
| `Scenario.StartTwoTrackers` | src/run_driver.cpp:20-31 | initializing over Controller "A" and GenericTracker "B" succeeds and registers both |
| `Scenario.InspectTwoTrackers` | src/run_driver.cpp:33-47 | listing the managed devices gives exactly "A" and "B", and reading the pose of "A" gives slot 0's matrix |
| `Scenario.DeactivateFirst` | src/OpenVRTrackersDriver.cpp:268-273 | after slot 0 is deactivated only "B" remains and "A" has no pose |
| `Scenario.QuitSession` | src/OpenVRTrackersDriver.cpp:283-302 | a Quit queued ahead of another event empties the registry, drops the handle so the manager is no longer initialized, and leaves the later event queued |

## Left out

- Threading and locking: the detector thread, its one-second sleep, the recursive mutex and the destructor's join (src/OpenVRTrackersDriver.cpp:34-36, 58-68, 139-153). Each public method is modelled as atomic and single-threaded.
- OpenVR library calls are not re-implemented: `VR_Init` becomes the `runtime` parameter of `Initialize`; `GetRuntimeVersion` becomes the `versionNonEmpty` flag; `IsTrackedDeviceConnected`, `GetStringTrackedDeviceProperty`, `GetTrackedDeviceClass`, `GetControllerStateWithPose` and `PollNextEvent` read the abstract runtime state; `AcknowledgeQuit_Exiting` and `VR_Shutdown` have no effect in the model beyond the handle becoming null.
- Serial numbers are taken as the runtime reports them: the fixed-size `char` buffer and its truncation are not modelled; a slot with no serial reads as the empty string and a slot with no class as class 0 (Invalid).
- OpenVR.Runtime.ControllerPose: `pose()` ignores the result of `GetControllerStateWithPose` and then reads a pose struct that is left uninitialised if the call fails; the model instead gives a slot with no pose a chosen value, invalid and not Running_OK, so `PoseOf` returns nothing there.
- Trackers.DeviceTypeOfCode: maps class codes outside 0..5 to Invalid, whereas the C++ enum would keep the raw value; OpenVR does not produce such codes and both are unsupported, so `addDevice` behaves the same.
- Pose entries are `real` values that are only copied; floating-point behaviour is not modelled.
- Integer widths (`size_t` slot indices, `uint32_t` event indices) are modelled as `nat`.
- Manager.DevicesManager.AddDevice, Manager.DevicesManager.ProcessEvents and Manager.DevicesManager.ClearEvents require a non-null handle: the code calls through `vr` without checking it, so calling them uninitialized is undefined behaviour rather than an error path.
- Manager.DevicesManager.ManagedDevices: the order of the serial numbers is unspecified (it comes from `std::unordered_map`), so only the contents and their uniqueness are stated.
- The Deactivated handler erases from the map it is iterating over, which is undefined behaviour in C++; the model removes every entry at that slot, as intended.
- Logging (`yDebug`, `yInfo`, `yWarning`, `yError`, `GetEventTypeNameFromEnum`), including the count of events `clearEvents` discards, which is kept only for its log line.
- `valid()` is declared but never defined, and `updateFromRuntime` is commented out (src/OpenVRTrackersDriver.h:66, src/OpenVRTrackersDriver.cpp:306-317).
- src/OpenVRTrackersModule.cpp and src/OpenVRTrackersModule.h (YARP transform publishing) and src/main.cpp are not part of this model; src/run_driver.cpp appears only as the client in module `Scenario`.
- A pose cache refreshed in batches, a device-type query and a seated-origin reset do not exist in this code, so they are not modelled.
