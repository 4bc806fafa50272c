/**
 * `CameraManager`: the camera pose, the orbit-controls target and the two
 * camera flights. A flight is modelled by its start state, its per-frame
 * state at progress `t` (the eased tween value, an input) and its completion
 * state; the tween's timing is not modelled.
 */
module CameraManager {
  import opened Base
  import opened Geometry
  import opened FrameCamera

  /** The orbit controls: whether they react to input, and the point they orbit. */
  datatype Controls = Controls(enabled: bool, target: Vec3)

  /** The perspective camera: vertical field of view in degrees, aspect ratio,
      position, and the point it was last turned to look at. */
  datatype Camera = Camera(fov: real, aspect: real, position: Vec3, lookAt: Vec3)

  datatype CameraState = CameraState(
    camera: Camera,
    targetPosition: Vec3,
    targetLookAt: Vec3,
    defaultPosition: Vec3,
    defaultLookAt: Vec3,
    controls: Option<Controls>,
    isAnimating: bool)

  /** A flight in progress. A flight to a product carries the frame computed
      when it started; a reset reads the default pose afresh on every frame. */
  datatype Flight =
    | ToProduct(start: Vec3, startTarget: Vec3, frame: Frame)
    | ToDefault(start: Vec3, startTarget: Vec3)

  const CameraFov: real := 75.0

  /** Padding of the product close-up and of the default aisle view. */
  const ProductPadding: real := 1.5
  const AislePadding: real := 1.3

  /** Where `initOrbitControls` points the controls. */
  const InitialControlsTarget := Vec3(0.0, 2.0, 0.0)

  /** The distance range `initOrbitControls` gives the controls. */
  const ControlsMinDistance: real := 3.0
  const ControlsMaxDistance: real := 50.0

  /** `new CameraManager(width, height)`: a 75-degree camera of aspect
      `width / height` at the origin, with the default pose, the target pose
      and the camera all at the origin, and no controls yet. */
  function NewCameraState(width: real, height: real): (s: CameraState)
    requires height != 0.0
    ensures s.camera.fov == 75.0 && s.camera.aspect * height == width
    ensures s.defaultPosition == Origin && s.defaultLookAt == Origin
    ensures s.targetPosition == s.defaultPosition && s.targetLookAt == s.defaultLookAt
    ensures s.camera.position == s.defaultPosition && s.camera.lookAt == s.defaultLookAt
    ensures s.controls.None? && !s.isAnimating
  {
    CameraState(Camera(CameraFov, width / height, Origin, Origin), Origin, Origin, Origin, Origin, None, false)
  }

  /** The point a new flight starts turning from: the controls' target when
      there are controls, otherwise the last completed look-at target. */
  function StartTarget(s: CameraState): Vec3 {
    if s.controls.Some? then s.controls.value.target else s.targetLookAt
  }

  /** The controls switched off, if there are any. */
  function DisableControls(c: Option<Controls>): (r: Option<Controls>)
    ensures r.Some? <==> c.Some?
    ensures r.Some? ==> !r.value.enabled && r.value.target == c.value.target
  {
    if c.Some? then Some(c.value.(enabled := false)) else None
  }

  /** The controls switched on, if there are any. */
  function EnableControls(c: Option<Controls>): (r: Option<Controls>)
    ensures r.Some? <==> c.Some?
    ensures r.Some? ==> r.value.enabled && r.value.target == c.value.target
  {
    if c.Some? then Some(c.value.(enabled := true)) else None
  }

  /** A flight is in progress: the guard is up and the controls are off. */
  predicate InFlight(s: CameraState) {
    s.isAnimating && (s.controls.Some? ==> !s.controls.value.enabled)
  }

  /** The synchronous part of `animateToProduct(mesh)`: `box` is the mesh's
      bounding box and `tanHalfFov` the tangent of half the camera's field of
      view. */
  function BeginAnimateToProduct(s: CameraState, box: Box3, tanHalfFov: real): (r: (CameraState, Flight))
    requires tanHalfFov > 0.0
    ensures InFlight(r.0)
    ensures r.1 == ToProduct(s.camera.position, StartTarget(s), FrameCameraToBox(box, tanHalfFov, ProductPadding))
    ensures r.0 == s.(isAnimating := r.0.isAnimating, controls := r.0.controls)
    ensures r.0.controls.Some? <==> s.controls.Some?
    ensures s.controls.Some? ==> r.0.controls.value.target == s.controls.value.target
  {
    (s.(isAnimating := true, controls := DisableControls(s.controls)),
     ToProduct(s.camera.position, StartTarget(s), FrameCameraToBox(box, tanHalfFov, ProductPadding)))
  }

  /** The synchronous part of `resetCamera()`. */
  function BeginResetCamera(s: CameraState): (r: (CameraState, Flight))
    ensures InFlight(r.0)
    ensures r.1 == ToDefault(s.camera.position, StartTarget(s))
    ensures r.0 == s.(isAnimating := r.0.isAnimating, controls := r.0.controls)
    ensures r.0.controls.Some? <==> s.controls.Some?
    ensures s.controls.Some? ==> r.0.controls.value.target == s.controls.value.target
  {
    (s.(isAnimating := true, controls := DisableControls(s.controls)),
     ToDefault(s.camera.position, StartTarget(s)))
  }

  /** The pose a flight ends in, read in state `s`. */
  function FlightEnd(s: CameraState, f: Flight): Frame {
    match f
    case ToProduct(_, _, frame) => frame
    case ToDefault(_, _) => Frame(s.defaultPosition, s.defaultLookAt)
  }

  /** One `onUpdate` of a flight at tween value `t`: the camera position and
      the look-at point (the controls' target when there are controls) are
      interpolated from the flight's start towards its end. */
  function AnimationFrame(s: CameraState, f: Flight, t: real): (r: CameraState)
    ensures r.camera.position == Lerp(f.start, FlightEnd(s, f).position, t)
    ensures r.camera.lookAt == Lerp(f.startTarget, FlightEnd(s, f).target, t)
    ensures s.controls.Some? ==> r.controls == Some(s.controls.value.(target := r.camera.lookAt))
    ensures s.controls.None? ==> r.controls.None?
    ensures r.isAnimating == s.isAnimating
    ensures r.targetPosition == s.targetPosition && r.targetLookAt == s.targetLookAt
    ensures r.defaultPosition == s.defaultPosition && r.defaultLookAt == s.defaultLookAt
    ensures r.camera.fov == s.camera.fov && r.camera.aspect == s.camera.aspect
  {
    var end := FlightEnd(s, f);
    var pos := Lerp(f.start, end.position, t);
    var look := Lerp(f.startTarget, end.target, t);
    var controls := if s.controls.Some? then Some(s.controls.value.(target := look)) else None;
    s.(camera := s.camera.(position := pos, lookAt := look), controls := controls)
  }

  /** `onComplete`: the camera snaps to the flight's end pose, which becomes
      the target pose; the controls aim at the end target and come back on;
      the guard drops. */
  function CompleteFlight(s: CameraState, f: Flight): (r: CameraState)
    ensures r.camera.position == FlightEnd(s, f).position && r.camera.lookAt == FlightEnd(s, f).target
    ensures r.targetPosition == FlightEnd(s, f).position && r.targetLookAt == FlightEnd(s, f).target
    ensures r.controls.Some? <==> s.controls.Some?
    ensures r.controls.Some? ==> r.controls.value == Controls(true, FlightEnd(s, f).target)
    ensures !r.isAnimating
    ensures r.defaultPosition == s.defaultPosition && r.defaultLookAt == s.defaultLookAt
    ensures r.camera.fov == s.camera.fov && r.camera.aspect == s.camera.aspect
  {
    var end := FlightEnd(s, f);
    var controls := if s.controls.Some? then Some(Controls(true, end.target)) else None;
    s.(camera := s.camera.(position := end.position, lookAt := end.target),
       targetPosition := end.position,
       targetLookAt := end.target,
       controls := controls,
       isAnimating := false)
  }

  /** The first frame of a flight leaves the camera where the flight began,
      and the last frame puts the camera, its look-at point and the controls'
      target exactly where completion puts them. */
  lemma FlightFramesMeetEnds(s: CameraState, f: Flight)
    ensures AnimationFrame(s, f, 0.0).camera.position == f.start
    ensures AnimationFrame(s, f, 0.0).camera.lookAt == f.startTarget
    ensures AnimationFrame(s, f, 1.0).camera == CompleteFlight(s, f).camera
    ensures s.controls.Some? ==>
      AnimationFrame(s, f, 1.0).controls.value.target == CompleteFlight(s, f).controls.value.target
  {
  }

  /** Frames keep a flight in flight: neither the guard nor the controls'
      enabled flag changes until completion. */
  lemma FramesStayInFlight(s: CameraState, f: Flight, t: real)
    requires InFlight(s)
    ensures InFlight(AnimationFrame(s, f, t))
  {
  }

  /** A flight to a product begun in any state ends, after any number of
      frames, at the frame of the product's box with padding 1.5. */
  lemma {:induction false} ProductFlightLandsOnFrame(s: CameraState, box: Box3, tanHalfFov: real, ts: seq<real>)
    requires tanHalfFov > 0.0
    ensures var b := BeginAnimateToProduct(s, box, tanHalfFov);
      var done := CompleteFlight(Frames(b.0, b.1, ts), b.1);
      && done.camera.position == FrameCameraToBox(box, tanHalfFov, ProductPadding).position
      && done.targetLookAt == FrameCameraToBox(box, tanHalfFov, ProductPadding).target
      && !done.isAnimating
      && (s.controls.Some? ==> done.controls.Some? && done.controls.value.enabled)
  {
    var b := BeginAnimateToProduct(s, box, tanHalfFov);
    FramesKeepDefaults(b.0, b.1, ts);
  }

  /** Several `onUpdate` calls in a row. */
  function Frames(s: CameraState, f: Flight, ts: seq<real>): CameraState
    decreases |ts|
  {
    if |ts| == 0 then s else Frames(AnimationFrame(s, f, ts[0]), f, ts[1..])
  }

  /** Frames change neither the default pose nor whether there are controls,
      nor the guard. */
  lemma {:induction false} FramesKeepDefaults(s: CameraState, f: Flight, ts: seq<real>)
    ensures Frames(s, f, ts).defaultPosition == s.defaultPosition
    ensures Frames(s, f, ts).defaultLookAt == s.defaultLookAt
    ensures Frames(s, f, ts).controls.Some? <==> s.controls.Some?
    ensures Frames(s, f, ts).isAnimating == s.isAnimating
    decreases |ts|
  {
    if |ts| > 0 {
      FramesKeepDefaults(AnimationFrame(s, f, ts[0]), f, ts[1..]);
    }
  }

  /** `setDefaultAisleView(box)`: the frame of the aisle box with padding 1.3
      becomes the default pose, and the camera and the controls' target snap
      to it. The target pose is left as it was. */
  function SetDefaultAisleView(s: CameraState, box: Box3, tanHalfFov: real): (r: CameraState)
    requires tanHalfFov > 0.0
    ensures r.defaultPosition == FrameCameraToBox(box, tanHalfFov, AislePadding).position
    ensures r.defaultLookAt == FrameCameraToBox(box, tanHalfFov, AislePadding).target
    ensures r.camera.position == r.defaultPosition && r.camera.lookAt == r.defaultLookAt
    ensures r.controls.Some? <==> s.controls.Some?
    ensures r.controls.Some? ==> r.controls.value == s.controls.value.(target := r.defaultLookAt)
    ensures r.targetPosition == s.targetPosition && r.targetLookAt == s.targetLookAt
    ensures r.isAnimating == s.isAnimating
    ensures r.camera.fov == s.camera.fov && r.camera.aspect == s.camera.aspect
  {
    var f := FrameCameraToBox(box, tanHalfFov, AislePadding);
    var controls := if s.controls.Some? then Some(s.controls.value.(target := f.target)) else None;
    s.(defaultPosition := f.position, defaultLookAt := f.target,
       camera := s.camera.(position := f.position, lookAt := f.target),
       controls := controls)
  }

  /** A reset after `setDefaultAisleView(box)` flies back to that same aisle
      frame, however many frames pass in between. */
  lemma {:induction false} ResetReturnsToAisleView(s: CameraState, box: Box3, tanHalfFov: real, ts: seq<real>)
    requires tanHalfFov > 0.0
    ensures var v := SetDefaultAisleView(s, box, tanHalfFov);
      var b := BeginResetCamera(v);
      var done := CompleteFlight(Frames(b.0, b.1, ts), b.1);
      && done.camera.position == FrameCameraToBox(box, tanHalfFov, AislePadding).position
      && done.targetPosition == FrameCameraToBox(box, tanHalfFov, AislePadding).position
      && done.targetLookAt == FrameCameraToBox(box, tanHalfFov, AislePadding).target
      && !done.isAnimating
      && (s.controls.Some? ==> done.controls == Some(Controls(true, FrameCameraToBox(box, tanHalfFov, AislePadding).target)))
      && (s.controls.None? ==> done.controls.None?)
  {
    var v := SetDefaultAisleView(s, box, tanHalfFov);
    var b := BeginResetCamera(v);
    FramesKeepDefaults(b.0, b.1, ts);
  }

  /** `updateOrbitControls()`: the controls move the camera (to `orbited`,
      the position the controls compute) and turn it to their target, but
      only when there are controls and no flight is running. */
  function UpdateOrbitControls(s: CameraState, orbited: Vec3): (r: CameraState)
    ensures s.isAnimating || s.controls.None? ==> r == s
    ensures !s.isAnimating && s.controls.Some? ==>
      r == s.(camera := s.camera.(position := orbited, lookAt := s.controls.value.target))
  {
    if s.controls.Some? && !s.isAnimating then
      s.(camera := s.camera.(position := orbited, lookAt := s.controls.value.target))
    else s
  }

  /** `onWindowResize(width, height)`: only the aspect ratio changes. */
  function OnWindowResize(s: CameraState, width: real, height: real): (r: CameraState)
    requires height != 0.0
    ensures r.camera.aspect * height == width
    ensures r == s.(camera := s.camera.(aspect := r.camera.aspect))
  {
    s.(camera := s.camera.(aspect := width / height))
  }

  /** `initOrbitControls`: enabled controls orbiting (0, 2, 0); the camera
      turns to that target. */
  function InitOrbitControls(s: CameraState): (r: CameraState)
    ensures r.controls == Some(Controls(true, InitialControlsTarget))
    ensures r.camera.lookAt == InitialControlsTarget
    ensures r == s.(controls := r.controls, camera := s.camera.(lookAt := r.camera.lookAt))
  {
    s.(controls := Some(Controls(true, InitialControlsTarget)),
       camera := s.camera.(lookAt := InitialControlsTarget))
  }

  /** Once the controls exist, every flight starts turning from their
      target: right after `initOrbitControls` that is (0, 2, 0), whatever
      look-at target the camera kept; and an idle update turns the camera
      towards it. */
  lemma InitOrbitControlsSteersFlights(s: CameraState, box: Box3, tanHalfFov: real, orbited: Vec3)
    requires tanHalfFov > 0.0
    ensures var c := InitOrbitControls(s);
      && BeginAnimateToProduct(c, box, tanHalfFov).1.startTarget == InitialControlsTarget
      && BeginResetCamera(c).1.startTarget == InitialControlsTarget
      && (!s.isAnimating ==> UpdateOrbitControls(c, orbited).camera.lookAt == InitialControlsTarget)
    ensures s.controls.None? ==> BeginResetCamera(s).1.startTarget == s.targetLookAt
  {
  }

  /** Only the last resize counts: resizing twice is resizing once to the
      second size, and the aspect ratio always equals the latest width over
      height. */
  lemma ResizeLastWins(s: CameraState, w1: real, h1: real, w2: real, h2: real)
    requires h1 != 0.0 && h2 != 0.0
    ensures OnWindowResize(OnWindowResize(s, w1, h1), w2, h2) == OnWindowResize(s, w2, h2)
    ensures OnWindowResize(OnWindowResize(s, w1, h1), w2, h2).camera.aspect * h2 == w2
  {
  }

  /** The squared distance from the camera to the point it orbits. */
  function OrbitRadiusSq(position: Vec3, target: Vec3): (d: real)
    ensures d >= 0.0
  {
    var v := Sub(position, target);
    SquareNonNegative(v.x);
    SquareNonNegative(v.y);
    SquareNonNegative(v.z);
    v.x * v.x + v.y * v.y + v.z * v.z
  }

  lemma SquareNonNegative(x: real)
    ensures x * x >= 0.0
  {
    if x < 0.0 {
      assert x * x == (-x) * (-x);
    }
  }

  /** A camera position `OrbitControls.update()` leaves at its distance:
      between the minimum and the maximum distance from the target. */
  predicate InOrbitRange(position: Vec3, target: Vec3) {
    ControlsMinDistance * ControlsMinDistance <= OrbitRadiusSq(position, target) <= ControlsMaxDistance * ControlsMaxDistance
  }

  /** The close-up of any product up to 2.5 units across lies closer to its
      target than the controls' minimum distance, for a field of view at
      least as wide as the camera's 75 degrees (tan 37.5° is about 0.767):
      the program's `update()` after `onComplete` would pull the camera back
      to 3 units, which the model does not do. */
  lemma SmallProductFrameInsideMinDistance(box: Box3, tanHalfFov: real)
    requires tanHalfFov >= 0.75
    requires 0.0 < MaxComponent(Size(box)) <= 2.5
    ensures var f := FrameCameraToBox(box, tanHalfFov, ProductPadding);
      !InOrbitRange(f.position, f.target)
  {
    var f := FrameCameraToBox(box, tanHalfFov, ProductPadding);
    var m := MaxComponent(Size(box));
    var v := Sub(f.position, f.target);
    ProductFrameOffset(box, tanHalfFov);
    SquareMonotone(v.z, m);
    SquareMonotone(m, 2.5);
    assert v.y * v.y == 0.36 * (m * m);
  }

  /** The close-up sits straight in front of its target, raised by 0.6 of the
      extent, and no farther in front than the extent itself. */
  lemma ProductFrameOffset(box: Box3, tanHalfFov: real)
    requires tanHalfFov >= 0.75
    requires 0.0 < MaxComponent(Size(box))
    ensures var f := FrameCameraToBox(box, tanHalfFov, ProductPadding);
      var v := Sub(f.position, f.target);
      v.x == 0.0 && v.y == 0.6 * MaxComponent(Size(box)) && 0.0 <= v.z <= MaxComponent(Size(box))
  {
    var f := FrameCameraToBox(box, tanHalfFov, ProductPadding);
    var m := MaxComponent(Size(box));
    var dz := f.position.z - f.target.z;
    assert dz * (2.0 * tanHalfFov) == m * 1.5;
    assert dz >= 0.0 by {
      if dz < 0.0 {
        MulNegative(dz, 2.0 * tanHalfFov);
      }
    }
    MulMonotone(dz, 1.5, 2.0 * tanHalfFov);
  }

  lemma SquareMonotone(a: real, b: real)
    requires 0.0 <= a <= b
    ensures a * a <= b * b
  {
    MulMonotone(a, a, b);
    MulMonotone(b, a, b);
    assert a * b == b * a;
  }

  lemma MulNegative(a: real, b: real)
    requires a < 0.0 && b > 0.0
    ensures a * b < 0.0
  {
  }

  /** Multiplying a non-negative number by a larger factor gives no less. */
  lemma MulMonotone(a: real, b: real, c: real)
    requires a >= 0.0 && b <= c
    ensures a * b <= a * c
  {
    assert a * c - a * b == a * (c - b);
  }

  /** At mount the camera sits at the origin, 2 units from the controls'
      target (0, 2, 0): inside the minimum distance, so the program's first
      `update()` moves it, which the model does not do. */
  lemma MountPoseInsideMinDistance(width: real, height: real)
    requires height != 0.0
    ensures var c := InitOrbitControls(NewCameraState(width, height));
      && OrbitRadiusSq(c.camera.position, c.controls.value.target) == 4.0
      && !InOrbitRange(c.camera.position, c.controls.value.target)
  {
    var c := InitOrbitControls(NewCameraState(width, height));
    assert c.camera.position == Origin && c.controls.value.target == InitialControlsTarget;
    assert Sub(Origin, InitialControlsTarget) == Vec3(0.0, -2.0, 0.0);
  }

  /** `disableOrbitControls` / `enableOrbitControls`. */
  function SetControlsEnabled(s: CameraState, on: bool): (r: CameraState)
    ensures r.controls.Some? <==> s.controls.Some?
    ensures r.controls.Some? ==> r.controls.value == s.controls.value.(enabled := on)
    ensures r == s.(controls := r.controls)
  {
    s.(controls := if on then EnableControls(s.controls) else DisableControls(s.controls))
  }
}
