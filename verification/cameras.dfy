/** The camera hook: asking for permission, listing the video inputs, and taking cameras
    off the list as they are added to the grid. The browser's media calls become their
    outcomes, given as inputs. */
module Cameras {
  import opened Wrappers
  import opened Seqs
  import Config

  /** The parts of a `MediaDeviceInfo` the hook reads. */
  datatype Device = Device(deviceId: string, kind: string, name: string)

  /** `availableDevices`, `isLoadingCameras` and `cameraError`. */
  datatype CameraState = CameraState(devices: seq<Device>, loading: bool, error: Option<string>)

  const Initial: CameraState := CameraState([], false, None)

  const VIDEO_INPUT: string := "videoinput"

  /** How `getUserMedia({ video: true })` settled. */
  datatype Permission = Granted | Refused

  /** How `enumerateDevices()` settled. */
  datatype Enumeration = Enumerated(all: seq<Device>) | EnumerationFailed

  predicate IsVideoInput(d: Device) {
    d.kind == VIDEO_INPUT
  }

  /** The enumerated devices that are cameras, in enumeration order. */
  function VideoInputs(all: seq<Device>): (r: seq<Device>)
    ensures forall d :: d in r <==> d in all && d.kind == VIDEO_INPUT
    ensures forall i :: 0 <= i < |r| ==> r[i].kind == VIDEO_INPUT
    ensures r == [] <==> forall i :: 0 <= i < |all| ==> all[i].kind != VIDEO_INPUT
  {
    var r := Filter(all, IsVideoInput);
    assert r != [] ==> r[0] in r;
    r
  }

  /** The cameras are listed in the order the browser enumerated them: any order the
      enumeration has, the list keeps. */
  lemma VideoInputsKeepsOrder(all: seq<Device>, before: (Device, Device) -> bool)
    requires forall i, j :: 0 <= i < j < |all| ==> before(all[i], all[j])
    ensures var r := VideoInputs(all);
            forall i, j :: 0 <= i < j < |r| ==> before(r[i], r[j])
  {
    FilterOrdered(all, IsVideoInput, before);
  }

  /** The state `requestCameraAccess` sets before awaiting anything. */
  function BeginRequest(st: CameraState): (r: CameraState)
    ensures r.loading && r.error.None?
    ensures r.devices == st.devices
  {
    CameraState(st.devices, true, None)
  }

  /** `requestCameraAccess` once both awaits have settled. A refused permission stops before
      enumerating; an enumeration replaces the list even when it finds no camera; a failed
      enumeration keeps the old list. Loading ends in every case. */
  function RequestCameraAccess(st: CameraState, permission: Permission, enumeration: Enumeration): (r: CameraState)
    ensures !r.loading
    ensures permission == Refused ==>
      r.devices == st.devices && r.error == Some(Config.CAMERA_PERMISSION_ERROR)
    ensures permission == Granted && enumeration.EnumerationFailed? ==>
      r.devices == st.devices && r.error == Some(Config.FAILED_TO_ACCESS_CAMERAS_ERROR)
    ensures permission == Granted && enumeration.Enumerated? ==>
      && r.devices == VideoInputs(enumeration.all)
      && (r.error.None? <==> exists i :: 0 <= i < |enumeration.all| && enumeration.all[i].kind == VIDEO_INPUT)
      && (r.error.Some? ==> r.error.value == Config.NO_CAMERAS_FOUND_ERROR)
  {
    var pending := BeginRequest(st);
    match permission
    case Refused => pending.(error := Some(Config.CAMERA_PERMISSION_ERROR), loading := false)
    case Granted =>
      match enumeration
      case EnumerationFailed => pending.(error := Some(Config.FAILED_TO_ACCESS_CAMERAS_ERROR), loading := false)
      case Enumerated(all) =>
        var cameras := VideoInputs(all);
        var error := if cameras == [] then Some(Config.NO_CAMERAS_FOUND_ERROR) else pending.error;
        CameraState(cameras, false, error)
  }

  /** Keeps every device except the one with the given id. */
  function Other(deviceId: string): Device -> bool {
    (d: Device) => d.deviceId != deviceId
  }

  /** `addCamera(deviceId)`: the chosen camera leaves the list of cameras still available. */
  function AddCamera(devices: seq<Device>, deviceId: string): (r: seq<Device>)
    ensures forall d :: d in r <==> d in devices && d.deviceId != deviceId
    ensures |r| <= |devices|
  {
    Filter(devices, Other(deviceId))
  }

  /** `clearAvailableDevices`: the list empties and nothing else changes. */
  function ClearAvailableDevices(st: CameraState): (r: CameraState)
    ensures r.devices == [] && r.loading == st.loading && r.error == st.error
  {
    st.(devices := [])
  }

  /** Adding a camera that is not listed leaves the list as it is, and only then. */
  lemma AddCameraUnlistedIff(devices: seq<Device>, deviceId: string)
    ensures AddCamera(devices, deviceId) == devices <==>
            forall i :: 0 <= i < |devices| ==> devices[i].deviceId != deviceId
  {
    FilterUnchangedIff(devices, Other(deviceId));
  }

  /** Adding the same camera twice is the same as adding it once. */
  lemma AddCameraIdempotent(devices: seq<Device>, deviceId: string)
    ensures AddCamera(AddCamera(devices, deviceId), deviceId) == AddCamera(devices, deviceId)
  {
    FilterIdempotent(devices, Other(deviceId));
  }

  /** The list left after adding several cameras does not depend on the order they were added in. */
  lemma AddCameraOrderIrrelevant(devices: seq<Device>, a: string, b: string)
    ensures AddCamera(AddCamera(devices, a), b) == AddCamera(AddCamera(devices, b), a)
  {
    FilterCommutes(devices, Other(a), Other(b));
  }

  /** The cameras left keep their enumeration order. */
  lemma AddCameraKeepsOrder(devices: seq<Device>, deviceId: string, before: (Device, Device) -> bool)
    requires forall i, j :: 0 <= i < j < |devices| ==> before(devices[i], devices[j])
    ensures var r := AddCamera(devices, deviceId);
            forall i, j :: 0 <= i < j < |r| ==> before(r[i], r[j])
  {
    FilterOrdered(devices, Other(deviceId), before);
  }

  /** Asking again lists every camera, including those already added to the grid: the hook
      does not remember which cameras are in use. */
  lemma RequestAgainRelistsAdded(st: CameraState, all: seq<Device>, deviceId: string)
    requires exists i :: 0 <= i < |all| && all[i].kind == VIDEO_INPUT && all[i].deviceId == deviceId
    ensures var listed := RequestCameraAccess(st, Granted, Enumerated(all));
            var added := listed.(devices := AddCamera(listed.devices, deviceId));
            && (exists d :: d in RequestCameraAccess(added, Granted, Enumerated(all)).devices && d.deviceId == deviceId)
            && (forall d :: d in added.devices ==> d.deviceId != deviceId)
  {
    var i :| 0 <= i < |all| && all[i].kind == VIDEO_INPUT && all[i].deviceId == deviceId;
    assert all[i] in all;
    assert all[i] in VideoInputs(all);
  }
}
