/**
 * `frameCameraToBox`: the camera pose that frames a bounding box. The tangent
 * of half the vertical field of view is a parameter (`tanHalfFov`, positive),
 * so neither `tan` nor the degree conversion is modelled.
 */
module FrameCamera {
  import opened Geometry

  /** A camera pose: where the camera sits and the point it looks at. */
  datatype Frame = Frame(position: Vec3, target: Vec3)

  /** The padding used when the caller passes none. */
  const DefaultPadding: real := 1.3

  /** The pose used when the box has no extent at all. */
  const FallbackFrame := Frame(Vec3(0.0, 5.0, 10.0), Origin)

  /** `maxDimension / (2 * tan(fov / 2)) * paddingMultiplier`. */
  function ViewDistance(maxDim: real, tanHalfFov: real, padding: real): real
    requires tanHalfFov > 0.0
  {
    maxDim / (2.0 * tanHalfFov) * padding
  }

  /** `frameCameraToBox(bbox, camera, padding)`. For a box with extent, the
      camera looks at the box centre from straight in front (+z), raised by
      six tenths of the largest extent; otherwise the fixed fallback pose. */
  function FrameCameraToBox(bbox: Box3, tanHalfFov: real, padding: real): (r: Frame)
    requires tanHalfFov > 0.0
    ensures MaxComponent(Size(bbox)) == 0.0 ==> r == FallbackFrame
    ensures IsEmpty(bbox) ==> r == FallbackFrame
    ensures MaxComponent(Size(bbox)) != 0.0 ==>
      && r.target == Center(bbox)
      && r.position.x == r.target.x
      && r.position.y == r.target.y + 0.6 * MaxComponent(Size(bbox))
      && (r.position.z - r.target.z) * (2.0 * tanHalfFov) == MaxComponent(Size(bbox)) * padding
  {
    var center := Center(bbox);
    var m := MaxComponent(Size(bbox));
    if m == 0.0 then FallbackFrame
    else
      var d := ViewDistance(m, tanHalfFov, padding);
      DistanceTimesTan(m, tanHalfFov, padding);
      Frame(Vec3(center.x, center.y + m * 0.6, center.z + d), center)
  }

  /** The distance, multiplied back by `2 tan(fov / 2)`, gives the padded extent. */
  lemma DistanceTimesTan(m: real, tanHalfFov: real, padding: real)
    requires tanHalfFov > 0.0
    ensures ViewDistance(m, tanHalfFov, padding) * (2.0 * tanHalfFov) == m * padding
  {
    var k := 2.0 * tanHalfFov;
    assert m / k * k == m;
    assert m / k * padding * k == m / k * k * padding;
  }

  /** With a padding of at least one, the box's largest extent fits in the
      vertical field of view at the target's depth: the half-height visible
      there, `distance * tan(fov / 2)`, is at least half that extent, and
      exactly half of it for a padding of one. */
  lemma FrameFits(bbox: Box3, tanHalfFov: real, padding: real)
    requires tanHalfFov > 0.0 && padding >= 1.0
    requires !IsEmpty(bbox) && MaxComponent(Size(bbox)) > 0.0
    ensures var f := FrameCameraToBox(bbox, tanHalfFov, padding);
      (f.position.z - f.target.z) * tanHalfFov >= MaxComponent(Size(bbox)) / 2.0
    ensures padding == 1.0 ==>
      var f := FrameCameraToBox(bbox, tanHalfFov, padding);
      (f.position.z - f.target.z) * tanHalfFov == MaxComponent(Size(bbox)) / 2.0
  {
    var f := FrameCameraToBox(bbox, tanHalfFov, padding);
    var m := MaxComponent(Size(bbox));
    var d := f.position.z - f.target.z;
    assert d * tanHalfFov == m * padding / 2.0;
    MulNonNegative(m, padding - 1.0);
  }

  /** The camera sits above and in front of the box centre whenever the box
      has extent and the padding is positive. */
  lemma FrameAboveAndInFront(bbox: Box3, tanHalfFov: real, padding: real)
    requires tanHalfFov > 0.0 && padding > 0.0
    requires MaxComponent(Size(bbox)) != 0.0
    ensures var f := FrameCameraToBox(bbox, tanHalfFov, padding);
      f.position.y > f.target.y && f.position.z > f.target.z
  {
    var f := FrameCameraToBox(bbox, tanHalfFov, padding);
    var m := MaxComponent(Size(bbox));
    var d := f.position.z - f.target.z;
    assert d * (2.0 * tanHalfFov) == m * padding;
    assert m * padding > 0.0;
    if d <= 0.0 {
      MulNonNegative(-d, 2.0 * tanHalfFov);
      assert false;
    }
  }

  /** For a fixed field of view the distance is linear in the extent and in
      the padding: scaling either by `k` scales it by `k`. */
  lemma ViewDistanceLinear(m: real, tanHalfFov: real, padding: real, k: real)
    requires tanHalfFov > 0.0
    ensures ViewDistance(k * m, tanHalfFov, padding) == k * ViewDistance(m, tanHalfFov, padding)
    ensures ViewDistance(m, tanHalfFov, k * padding) == k * ViewDistance(m, tanHalfFov, padding)
  {
    var t := 2.0 * tanHalfFov;
    assert k * m / t == k * (m / t);
  }
}
