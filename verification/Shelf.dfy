/**
 * One shelf: a group placed at a fixed position and rotation, the model the
 * loader returned, and the two product maps keyed by `meshId`. Live mesh
 * visibility is kept in `meshVisible`, keyed by the mesh's identity.
 */
module ShelfModel {
  import opened Base
  import opened Geometry
  import opened SceneGraph

  /** The record kept per product; `meshId` is `<shelfId>_product_<k>`. */
  datatype ProductData = ProductData(
    productId: string,
    productName: string,
    description: string,
    shelfId: string,
    meshId: string)

  datatype Shelf = Shelf(
    id: string,
    position: Vec3,
    rotation: Vec3,
    modelPath: string,
    groupId: NodeId,
    groupVisible: bool,
    groupChildren: seq<NodeId>,
    model: Option<Node>,
    products: map<string, ProductData>,
    productOrder: seq<string>,
    productMeshes: map<string, NodeId>,
    meshVisible: map<NodeId, bool>)

  predicate NoDuplicates<T(==)>(s: seq<T>) {
    forall i, j :: 0 <= i < j < |s| ==> s[i] != s[j]
  }

  /** The two product maps always share their key set, and `productOrder`
      lists that key set once each, in insertion order (JavaScript `Map`
      iteration order). */
  predicate Valid(s: Shelf) {
    && s.products.Keys == s.productMeshes.Keys
    && NoDuplicates(s.productOrder)
    && (forall i :: 0 <= i < |s.productOrder| ==> s.productOrder[i] in s.products)
    && (forall k :: k in s.products ==> k in s.productOrder)
  }

  /** `new Shelf(...)`: an empty, visible group at the configured placement. */
  function NewShelf(id: string, position: Vec3, rotation: Vec3, modelPath: string, groupId: NodeId): (s: Shelf)
    ensures Valid(s)
    ensures s.id == id && s.modelPath == modelPath
    ensures s.position == position && s.rotation == rotation
    ensures s.model.None? && s.groupChildren == []
    ensures s.products == map[] && s.productMeshes == map[]
  {
    Shelf(id, position, rotation, modelPath, groupId, true, [], None, map[], [], map[], map[])
  }

  /** `group.remove(obj)`: the children other than `obj`, in order. */
  function Detach(children: seq<NodeId>, obj: NodeId): (r: seq<NodeId>)
    ensures obj !in r
    ensures forall c :: c in r <==> c in children && c != obj
  {
    if |children| == 0 then []
    else if children[0] == obj then Detach(children[1..], obj)
    else [children[0]] + Detach(children[1..], obj)
  }

  /** `group.add(obj)`: `obj` leaves any previous position and becomes the last child. */
  function Attach(children: seq<NodeId>, obj: NodeId): (r: seq<NodeId>)
    ensures |r| > 0 && r[|r| - 1] == obj
    ensures obj !in r[..|r| - 1]
    ensures forall c :: c in r <==> c in children || c == obj
  {
    var rest := Detach(children, obj);
    assert (rest + [obj])[..|rest|] == rest;
    rest + [obj]
  }

  /** `setModel`: the previous model is detached, the new one attached, and
      every mesh inside the new model is made visible. */
  function SetModel(s: Shelf, m: Node): (r: Shelf)
    requires Valid(s)
    ensures Valid(r)
    ensures r.model == Some(m)
    ensures |r.groupChildren| > 0 && r.groupChildren[|r.groupChildren| - 1] == m.id
    ensures s.model.Some? && s.model.value.id != m.id ==> s.model.value.id !in r.groupChildren
    ensures forall c :: c in r.groupChildren && c != m.id ==> c in s.groupChildren
    ensures forall id :: id in MeshIds(m) ==> id in r.meshVisible && r.meshVisible[id]
    ensures forall id :: id in s.meshVisible && id !in MeshIds(m) ==> id in r.meshVisible && r.meshVisible[id] == s.meshVisible[id]
    ensures r.products == s.products && r.productMeshes == s.productMeshes && r.productOrder == s.productOrder
    ensures r.id == s.id && r.groupVisible == s.groupVisible
  {
    var kept := if s.model.Some? then Detach(s.groupChildren, s.model.value.id) else s.groupChildren;
    s.(model := Some(m),
       groupChildren := Attach(kept, m.id),
       meshVisible := s.meshVisible + map id | id in MeshIds(m) :: true)
  }

  /** `registerProduct`: both maps are written under the same key. */
  function RegisterProduct(s: Shelf, meshId: string, data: ProductData, mesh: NodeId): (r: Shelf)
    requires Valid(s)
    ensures Valid(r)
    ensures r.products == s.products[meshId := data]
    ensures r.productMeshes == s.productMeshes[meshId := mesh]
    ensures meshId !in s.products ==> r.productOrder == s.productOrder + [meshId]
    ensures meshId in s.products ==> r.productOrder == s.productOrder
    ensures r.id == s.id && r.model == s.model && r.groupVisible == s.groupVisible
    ensures r.meshVisible == s.meshVisible && r.groupChildren == s.groupChildren
  {
    s.(products := s.products[meshId := data],
       productMeshes := s.productMeshes[meshId := mesh],
       productOrder := if meshId in s.products then s.productOrder else s.productOrder + [meshId])
  }

  /** `getProduct`. */
  function GetProduct(s: Shelf, meshId: string): (r: Option<ProductData>)
    ensures r.Some? <==> meshId in s.products
    ensures r.Some? ==> r.value == s.products[meshId]
  {
    if meshId in s.products then Some(s.products[meshId]) else None
  }

  /** The records stored under the keys of `order`, in that order; keys
      without a record contribute nothing. */
  function RecordsInOrder(order: seq<string>, products: map<string, ProductData>): (r: seq<ProductData>)
    ensures |r| <= |order|
    ensures forall p :: p in r ==> exists k :: k in products && products[k] == p
  {
    if |order| == 0 then []
    else (if order[0] in products then [products[order[0]]] else []) + RecordsInOrder(order[1..], products)
  }

  /** When every key has a record, there is exactly one record per key. */
  lemma {:induction false} RecordsInOrderComplete(order: seq<string>, products: map<string, ProductData>)
    requires forall i :: 0 <= i < |order| ==> order[i] in products
    ensures |RecordsInOrder(order, products)| == |order|
    ensures forall i :: 0 <= i < |order| ==> RecordsInOrder(order, products)[i] == products[order[i]]
  {
    if |order| > 0 {
      var tail := order[1..];
      assert forall i :: 0 <= i < |tail| ==> tail[i] == order[i + 1];
      RecordsInOrderComplete(tail, products);
      var r := RecordsInOrder(order, products);
      assert r == [products[order[0]]] + RecordsInOrder(tail, products);
      forall i | 0 <= i < |order| ensures r[i] == products[order[i]] {
        if i > 0 {
          assert r[i] == RecordsInOrder(tail, products)[i - 1];
        }
      }
    }
  }

  /** `getAllProducts`: the product records in insertion order. */
  function AllProducts(s: Shelf): (r: seq<ProductData>)
    ensures Valid(s) ==> |r| == |s.productOrder|
    ensures Valid(s) ==> forall i :: 0 <= i < |r| ==> r[i] == s.products[s.productOrder[i]]
  {
    var r := RecordsInOrder(s.productOrder, s.products);
    if Valid(s) then RecordsInOrderComplete(s.productOrder, s.products); r else r
  }

  /** `show`: only the group's flag changes. */
  function Show(s: Shelf): (r: Shelf)
    ensures r.groupVisible
    ensures r == s.(groupVisible := true)
  {
    s.(groupVisible := true)
  }

  /** `hide`: only the group's flag changes. */
  function Hide(s: Shelf): (r: Shelf)
    ensures !r.groupVisible
    ensures r == s.(groupVisible := false)
  {
    s.(groupVisible := false)
  }

  /** `showProduct`: every registered product mesh is hidden, then the one
      registered under `meshId`, if any, is shown. Other meshes keep their flags. */
  function ShowProduct(s: Shelf, meshId: string): (r: Shelf)
    ensures forall k :: k in s.productMeshes ==>
      s.productMeshes[k] in r.meshVisible &&
      r.meshVisible[s.productMeshes[k]] == (meshId in s.productMeshes && s.productMeshes[k] == s.productMeshes[meshId])
    ensures r.meshVisible.Keys == s.meshVisible.Keys + s.productMeshes.Values
    ensures forall id :: id in s.meshVisible && id !in s.productMeshes.Values ==> r.meshVisible[id] == s.meshVisible[id]
    ensures r == s.(meshVisible := r.meshVisible)
  {
    var hidden := s.meshVisible + map id | id in s.productMeshes.Values :: false;
    var shown := if meshId in s.productMeshes then hidden[s.productMeshes[meshId] := true] else hidden;
    s.(meshVisible := shown)
  }

  /** `showAllProducts`: every registered product mesh becomes visible. */
  function ShowAllProducts(s: Shelf): (r: Shelf)
    ensures forall k :: k in s.productMeshes ==> s.productMeshes[k] in r.meshVisible && r.meshVisible[s.productMeshes[k]]
    ensures r.meshVisible.Keys == s.meshVisible.Keys + s.productMeshes.Values
    ensures forall id :: id in s.meshVisible && id !in s.productMeshes.Values ==> r.meshVisible[id] == s.meshVisible[id]
    ensures r == s.(meshVisible := r.meshVisible)
  {
    s.(meshVisible := s.meshVisible + map id | id in s.productMeshes.Values :: true)
  }

  /** `dispose`: the group is emptied, the model dropped and both maps cleared. */
  function Dispose(s: Shelf): (r: Shelf)
    ensures Valid(r)
    ensures r.model.None? && r.groupChildren == []
    ensures r.products == map[] && r.productMeshes == map[] && r.productOrder == []
    ensures r.id == s.id && r.groupVisible == s.groupVisible
  {
    s.(groupChildren := [], model := None, products := map[], productMeshes := map[], productOrder := [])
  }
}
