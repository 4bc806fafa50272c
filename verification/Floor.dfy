/**
 * `sceneCleanup.ts` and `floorUtils.ts`: removing the plane meshes a loaded
 * model brings along, and building the square floor under a bounding box.
 * A floor is a plane mesh plus its position; the rotation that lays it flat
 * is not modelled.
 */
module Floor {
  import opened Base
  import opened Geometry
  import opened SceneGraph

  /** The name that marks the floor the viewer builds itself. */
  const FloorName: string := "dynamic-floor"

  /** How far below the box's lowest point the floor sits. */
  const FloorDrop: real := 0.05

  /** The padding factor of `createBoundingBoxFloor` and the padding fraction
      of `createDynamicFloor`. */
  const BoundingBoxFloorFactor: real := 1.3
  const FloorPadding: real := 0.3

  /** World size of one tile, and the enlargement `createBoundingBoxFloor` applies. */
  const TileWorldSize: real := 0.5
  const TileScaleFactor: real := 10.0

  predicate IsPlaneMesh(n: Node) {
    n.kind.Mesh? && n.kind.geometry.PlaneGeometry?
  }

  /** A plane mesh that is not the viewer's own floor. */
  predicate IsDefaultPlane(n: Node) {
    IsPlaneMesh(n) && n.name != FloorName
  }

  /** What `removeDefaultPlanes` leaves behind: the scene, and the planes whose
      geometry and materials it disposed. */
  datatype Cleanup = Cleanup(scene: Node, disposed: seq<Node>)

  /** The planes the traversal collects, in traversal order. */
  function DefaultPlanes(scene: Node): (r: seq<Node>)
    ensures forall i :: 0 <= i < |r| ==> IsDefaultPlane(r[i])
  {
    Accepted(Flatten(scene), IsDefaultPlane)
  }

  /** Exactly the plane meshes of the scene not named "dynamic-floor" are
      collected: no other mesh, and not the viewer's floor. */
  lemma DefaultPlanesExact(scene: Node, n: Node)
    ensures n in DefaultPlanes(scene) <==> n in Flatten(scene) && IsPlaneMesh(n) && n.name != FloorName
  {
    AcceptedMember(Flatten(scene), IsDefaultPlane, n);
  }

  /** `scene.remove(p)` for each collected `p`: only a direct child is
      detached; the other children keep their order. */
  function RemoveChildren(children: seq<Node>, planes: seq<Node>): (r: seq<Node>)
    ensures forall c :: c in r <==> c in children && c !in planes
    ensures |r| <= |children|
  {
    if |children| == 0 then []
    else if children[0] in planes then RemoveChildren(children[1..], planes)
    else [children[0]] + RemoveChildren(children[1..], planes)
  }

  /** `removeDefaultPlanes(scene)`. */
  function RemoveDefaultPlanes(scene: Node): (r: Cleanup)
    ensures r.disposed == DefaultPlanes(scene)
    ensures r.scene == scene.(children := r.scene.children)
    ensures forall c :: c in r.scene.children <==> c in scene.children && c !in r.disposed
  {
    var planes := DefaultPlanes(scene);
    Cleanup(scene.(children := RemoveChildren(scene.children, planes)), planes)
  }

  /** A direct child stays exactly when it is not a default plane. */
  lemma RemoveDefaultPlanesDirect(scene: Node, c: Node)
    requires c in scene.children
    ensures c in RemoveDefaultPlanes(scene).scene.children <==> !IsDefaultPlane(c)
  {
    var i :| 0 <= i < |scene.children| && scene.children[i] == c;
    SubtreeInFlatten(scene, i, c);
    DefaultPlanesExact(scene, c);
  }

  /** A default plane nested under a child that stays is disposed but stays
      attached: it is still reachable from the scene. */
  lemma NestedPlaneStaysAttached(scene: Node, c: Node, n: Node)
    requires c in scene.children && !IsDefaultPlane(c)
    requires n in Flatten(c) && IsDefaultPlane(n)
    ensures n in RemoveDefaultPlanes(scene).disposed
    ensures c in RemoveDefaultPlanes(scene).scene.children
  {
    var i :| 0 <= i < |scene.children| && scene.children[i] == c;
    SubtreeInFlatten(scene, i, n);
    DefaultPlanesExact(scene, n);
    RemoveDefaultPlanesDirect(scene, c);
  }

  /** A floor: the plane mesh and where it was placed. `y` is `None` when
      built from the fresh empty box, whose lowest point is +Infinity. */
  datatype FloorMesh = FloorMesh(node: Node, x: real, y: Option<real>, z: real)

  /** `Math.max(size.x, size.z)`: the larger horizontal extent of the box. */
  function BaseFloorSize(b: Box3): (r: real)
    ensures r >= Size(b).x && r >= Size(b).z && r >= 0.0
    ensures r == Size(b).x || r == Size(b).z
  {
    Max(Size(b).x, Size(b).z)
  }

  /** `bbox.min.y - 0.05`. */
  function FloorY(b: Box3): (r: Option<real>)
    ensures r.Some? <==> b.Box?
    ensures r.Some? ==> r.value < b.min.y && b.min.y - r.value == FloorDrop
  {
    if b.EmptyBox? then None else Some(b.min.y - FloorDrop)
  }

  /** A visible, untagged, childless square plane mesh of side `side`. */
  function SquarePlane(id: NodeId, name: string, side: real): (n: Node)
    ensures IsPlaneMesh(n) && n.kind.geometry.width == side && n.kind.geometry.height == side
    ensures n.id == id && n.name == name && n.children == []
  {
    Node(id, name, Mesh(PlaneGeometry(side, side)), true, Untagged, [])
  }

  /** The side of a square floor. */
  function Side(f: FloorMesh): real {
    if IsPlaneMesh(f.node) then f.node.kind.geometry.width else 0.0
  }

  /** `createBoundingBoxFloor(model)`, with `b` the model's bounding box: a
      square plane 1.3 times the larger horizontal extent, just under the
      box, named "dynamic-floor". Its x and z are never set. */
  function CreateBoundingBoxFloor(b: Box3, id: NodeId): (f: FloorMesh)
    ensures IsPlaneMesh(f.node) && f.node.kind.geometry.width == f.node.kind.geometry.height
    ensures Side(f) >= BoundingBoxFloorFactor * Size(b).x && Side(f) >= BoundingBoxFloorFactor * Size(b).z
    ensures Side(f) == BoundingBoxFloorFactor * Size(b).x || Side(f) == BoundingBoxFloorFactor * Size(b).z
    ensures f.node.name == FloorName && !IsDefaultPlane(f.node)
    ensures f.y == FloorY(b) && f.x == 0.0 && f.z == 0.0
  {
    FloorMesh(SquarePlane(id, FloorName, BaseFloorSize(b) * BoundingBoxFloorFactor), 0.0, FloorY(b), 0.0)
  }

  /** `createDynamicFloor(model)`: the same square, 1 + 0.3 times the larger
      horizontal extent, at the same height, but unnamed. */
  function CreateDynamicFloor(b: Box3, id: NodeId): (f: FloorMesh)
    ensures IsPlaneMesh(f.node) && f.node.kind.geometry.width == f.node.kind.geometry.height
    ensures Side(f) == Side(CreateBoundingBoxFloor(b, id))
    ensures f.y == CreateBoundingBoxFloor(b, id).y
    ensures f.node.name == "" && IsDefaultPlane(f.node)
    ensures f.x == 0.0 && f.z == 0.0
  {
    FloorMesh(SquarePlane(id, "", BaseFloorSize(b) * (1.0 + FloorPadding)), 0.0, FloorY(b), 0.0)
  }

  /** The scene with a floor added as its last child. */
  function WithFloor(scene: Node, f: FloorMesh): Node {
    scene.(children := scene.children + [f.node])
  }

  /** The bounding-box floor survives a later cleanup; the dynamic floor is
      collected, disposed and detached by it. */
  lemma CleanupKeepsOnlyMarkedFloor(scene: Node, b: Box3, id: NodeId)
    ensures var s := WithFloor(scene, CreateBoundingBoxFloor(b, id));
      CreateBoundingBoxFloor(b, id).node in RemoveDefaultPlanes(s).scene.children
    ensures var s := WithFloor(scene, CreateDynamicFloor(b, id));
      && CreateDynamicFloor(b, id).node in RemoveDefaultPlanes(s).disposed
      && CreateDynamicFloor(b, id).node !in RemoveDefaultPlanes(s).scene.children
  {
    var kept := CreateBoundingBoxFloor(b, id).node;
    var s1 := WithFloor(scene, CreateBoundingBoxFloor(b, id));
    assert s1.children[|scene.children|] == kept;
    RemoveDefaultPlanesDirect(s1, kept);
    var gone := CreateDynamicFloor(b, id).node;
    var s2 := WithFloor(scene, CreateDynamicFloor(b, id));
    assert s2.children[|scene.children|] == gone;
    RemoveDefaultPlanesDirect(s2, gone);
    SubtreeInFlatten(s2, |scene.children|, gone);
    DefaultPlanesExact(s2, gone);
  }

  /** The texture repeat `createBoundingBoxFloor` sets on both axes: one tile
      per five world units of floor. */
  function BoundingBoxTileRepeat(floorSize: real): real {
    floorSize / (TileWorldSize * TileScaleFactor)
  }

  /** The repeat counts tiles of five world units: a five-unit floor holds
      one tile, and joining two floors adds their tile counts. */
  lemma TileRepeatPerFiveUnits(a: real, b: real)
    ensures BoundingBoxTileRepeat(5.0) == 1.0
    ensures BoundingBoxTileRepeat(a + b) == BoundingBoxTileRepeat(a) + BoundingBoxTileRepeat(b)
  {
  }

  /** The tile count `applyTiledTexture` sets on both axes: the plane's width
      (1 when the width is 0) over the tile size; nothing for other meshes. */
  function ApplyTiledTexture(mesh: Node): (r: Option<real>)
    ensures r.Some? <==> IsPlaneMesh(mesh)
    ensures r.Some? && mesh.kind.geometry.width != 0.0 ==> r.value * TileWorldSize == mesh.kind.geometry.width
    ensures r.Some? && mesh.kind.geometry.width == 0.0 ==> r.value * TileWorldSize == 1.0
  {
    if IsPlaneMesh(mesh) then
      var scale := if mesh.kind.geometry.width != 0.0 then mesh.kind.geometry.width else 1.0;
      Some(scale / TileWorldSize)
    else None
  }

  /** The square of side `side` centred at (`x`, `z`) covers the box's
      horizontal extent. */
  predicate CoversHorizontally(x: real, z: real, side: real, b: Box3)
    requires b.Box?
  {
    && x - side / 2.0 <= b.min.x && b.max.x <= x + side / 2.0
    && z - side / 2.0 <= b.min.z && b.max.z <= z + side / 2.0
  }

  /** The bounding-box floor stays at x = z = 0, so a box away from the origin
      is not under it: the box from (10, 0, 10) to (12, 1, 12) gets a floor of
      side 2.6 around the origin. */
  lemma BoundingBoxFloorMissesOffsetBox(id: NodeId)
    ensures var b := Box(Vec3(10.0, 0.0, 10.0), Vec3(12.0, 1.0, 12.0));
      var f := CreateBoundingBoxFloor(b, id);
      Side(f) == 2.6 && !CoversHorizontally(f.x, f.z, Side(f), b)
  {
    var b := Box(Vec3(10.0, 0.0, 10.0), Vec3(12.0, 1.0, 12.0));
    assert Size(b) == Vec3(2.0, 1.0, 2.0);
  }

  /** A box centred over the origin is under its bounding-box floor, with
      15% to spare on each side of its larger horizontal axis. */
  lemma BoundingBoxFloorCoversCentredBox(b: Box3, id: NodeId)
    requires !IsEmpty(b) && Center(b).x == 0.0 && Center(b).z == 0.0
    ensures var f := CreateBoundingBoxFloor(b, id);
      CoversHorizontally(f.x, f.z, Side(f), b)
  {
    var s := Size(b);
    assert s == Sub(b.max, b.min);
    assert b.min.x == -b.max.x && b.min.z == -b.max.z;
  }
}
