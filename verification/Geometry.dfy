/**
 * Vectors and axis-aligned boxes over the reals: the parts of three.js
 * `Vector3` and `Box3` the core uses.
 */
module Geometry {
  import opened Base

  datatype Vec3 = Vec3(x: real, y: real, z: real)

  const Origin := Vec3(0.0, 0.0, 0.0)

  function Add(a: Vec3, b: Vec3): Vec3 {
    Vec3(a.x + b.x, a.y + b.y, a.z + b.z)
  }

  function Sub(a: Vec3, b: Vec3): Vec3 {
    Vec3(a.x - b.x, a.y - b.y, a.z - b.z)
  }

  function Scale(a: Vec3, k: real): Vec3 {
    Vec3(a.x * k, a.y * k, a.z * k)
  }

  function LerpReal(a: real, b: real, t: real): real {
    a + (b - a) * t
  }

  /** `Vector3.lerp`: moves each component a fraction `t` of the way from
      `a` to `b`. */
  function Lerp(a: Vec3, b: Vec3, t: real): (r: Vec3)
    ensures t == 0.0 ==> r == a
    ensures t == 1.0 ==> r == b
  {
    Vec3(LerpReal(a.x, b.x, t), LerpReal(a.y, b.y, t), LerpReal(a.z, b.z, t))
  }

  /** Interpolation has no preferred direction: going a fraction `t` from
      `a` to `b` reaches the point a fraction `1 - t` from `b` back to `a`. */
  lemma LerpReverse(a: Vec3, b: Vec3, t: real)
    ensures Lerp(a, b, t) == Lerp(b, a, 1.0 - t)
  {
  }

  predicate BetweenReal(v: real, a: real, b: real) {
    (a <= v <= b) || (b <= v <= a)
  }

  /** For `0 <= t <= 1` every component of the interpolated point lies between
      the corresponding components of the end points. */
  lemma LerpBetween(a: Vec3, b: Vec3, t: real)
    requires 0.0 <= t <= 1.0
    ensures BetweenReal(Lerp(a, b, t).x, a.x, b.x)
    ensures BetweenReal(Lerp(a, b, t).y, a.y, b.y)
    ensures BetweenReal(Lerp(a, b, t).z, a.z, b.z)
  {
    LerpRealBetween(a.x, b.x, t);
    LerpRealBetween(a.y, b.y, t);
    LerpRealBetween(a.z, b.z, t);
  }

  lemma LerpRealBetween(a: real, b: real, t: real)
    requires 0.0 <= t <= 1.0
    ensures BetweenReal(LerpReal(a, b, t), a, b)
  {
    if a <= b {
      MulNonNegative(b - a, t);
      MulNonNegative(b - a, 1.0 - t);
    } else {
      MulNonNegative(a - b, t);
      MulNonNegative(a - b, 1.0 - t);
    }
  }

  lemma MulNonNegative(x: real, y: real)
    requires x >= 0.0 && y >= 0.0
    ensures x * y >= 0.0
  {
  }

  /** `Box3`: `EmptyBox` is the fresh box three.js builds (min +Infinity, max
      -Infinity); `Box` holds finite corners. */
  datatype Box3 = EmptyBox | Box(min: Vec3, max: Vec3)

  /** `Box3.isEmpty`: no extent on some axis. */
  predicate IsEmpty(b: Box3) {
    b.EmptyBox? || b.max.x < b.min.x || b.max.y < b.min.y || b.max.z < b.min.z
  }

  /** `Box3.getSize`: zero for an empty box, otherwise `max - min`. */
  function Size(b: Box3): (r: Vec3)
    ensures r.x >= 0.0 && r.y >= 0.0 && r.z >= 0.0
    ensures IsEmpty(b) ==> r == Origin
  {
    if IsEmpty(b) then Origin else Sub(b.max, b.min)
  }

  /** `Box3.getCenter`: the origin for an empty box, otherwise the midpoint. */
  function Center(b: Box3): Vec3 {
    if IsEmpty(b) then Origin else Scale(Add(b.min, b.max), 0.5)
  }

  /** `Math.max(size.x, size.y, size.z)`. */
  function MaxComponent(v: Vec3): (m: real)
    ensures m >= v.x && m >= v.y && m >= v.z
    ensures m == v.x || m == v.y || m == v.z
  {
    Max(Max(v.x, v.y), v.z)
  }

  /** `Box3.union`: component-wise min of the mins and max of the maxes; the
      fresh empty box is the identity. */
  function Union(a: Box3, b: Box3): Box3 {
    if a.EmptyBox? then b
    else if b.EmptyBox? then a
    else Box(Vec3(Min(a.min.x, b.min.x), Min(a.min.y, b.min.y), Min(a.min.z, b.min.z)),
             Vec3(Max(a.max.x, b.max.x), Max(a.max.y, b.max.y), Max(a.max.z, b.max.z)))
  }

  /** `outer` covers `inner` on every axis. */
  predicate Encloses(outer: Box3, inner: Box3) {
    inner.EmptyBox? ||
    (outer.Box? &&
     outer.min.x <= inner.min.x && outer.min.y <= inner.min.y && outer.min.z <= inner.min.z &&
     inner.max.x <= outer.max.x && inner.max.y <= outer.max.y && inner.max.z <= outer.max.z)
  }

  /** The box a sequence of `expandByObject` calls builds from a fresh box. */
  function UnionAll(bs: seq<Box3>): Box3 {
    if |bs| == 0 then EmptyBox else Union(UnionAll(bs[..|bs| - 1]), bs[|bs| - 1])
  }

  /** The union covers every box it was built from. */
  lemma {:induction false} UnionAllEncloses(bs: seq<Box3>, i: nat)
    requires i < |bs|
    ensures Encloses(UnionAll(bs), bs[i])
  {
    var init := bs[..|bs| - 1];
    if i < |bs| - 1 {
      UnionAllEncloses(init, i);
      assert init[i] == bs[i];
    }
  }

  /** The union is the tightest such box: any box covering all inputs covers it. */
  lemma {:induction false} UnionAllLeast(bs: seq<Box3>, outer: Box3)
    requires forall i :: 0 <= i < |bs| ==> Encloses(outer, bs[i])
    ensures Encloses(outer, UnionAll(bs))
  {
    if |bs| > 0 {
      var init := bs[..|bs| - 1];
      assert forall i :: 0 <= i < |init| ==> init[i] == bs[i];
      UnionAllLeast(init, outer);
    }
  }

  /** The union is empty exactly when every input is the fresh empty box. */
  lemma {:induction false} UnionAllEmpty(bs: seq<Box3>)
    ensures UnionAll(bs).EmptyBox? <==> forall i :: 0 <= i < |bs| ==> bs[i].EmptyBox?
  {
    if |bs| > 0 {
      var init := bs[..|bs| - 1];
      UnionAllEmpty(init);
      assert forall i :: 0 <= i < |init| ==> init[i] == bs[i];
    }
  }
}
