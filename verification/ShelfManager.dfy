/**
 * The registry of `ShelfManager`: shelves by id (with their insertion order),
 * the reverse index from product meshes to `{shelfId, meshId}`, the
 * `userData` the classifier wrote on meshes, the per-shelf product counts and
 * the current selection.
 */
module ShelfManager {
  import opened Base
  import opened Geometry
  import opened SceneGraph
  import opened Strings
  import opened ShelfModel
  import opened Classifier

  /** `{ shelfId, meshId }`, the value of the reverse index and of the selection. */
  datatype Selection = Selection(shelfId: string, meshId: string)

  datatype ShelfConfig = ShelfConfig(id: string, position: Vec3, rotation: Vec3, modelPath: string)

  /** What the model loader settled with: a model, or a rejection. */
  datatype LoadResult = Loaded(model: Node) | LoadFailed(reason: string)

  datatype Registry = Registry(
    shelves: map<string, Shelf>,
    shelfOrder: seq<string>,
    selectedProduct: Option<Selection>,
    selectable: map<NodeId, Selection>,
    userData: map<NodeId, Tag>,
    productIndex: map<string, nat>)

  /** The constructor: everything empty, nothing selected. */
  function NewRegistry(): (r: Registry)
    ensures r.shelves == map[] && r.shelfOrder == [] && r.selectedProduct.None?
    ensures r.selectable == map[] && r.userData == map[] && r.productIndex == map[]
  {
    Registry(map[], [], None, map[], map[], map[])
  }

  /** The `userData` a node carries now: what the classifier wrote, if it
      wrote anything, else what the model was loaded with. */
  function LiveTag(reg: Registry, n: Node): Tag {
    if n.id in reg.userData then reg.userData[n.id] else n.userData
  }

  /** The selection names a registered product. */
  predicate Registered(reg: Registry, sel: Selection) {
    sel.shelfId in reg.shelves && sel.meshId in reg.shelves[sel.shelfId].productMeshes
  }

  /** The reverse-index entry `mesh -> sel` points back at `mesh`. */
  predicate Indexed(reg: Registry, mesh: NodeId, sel: Selection) {
    Registered(reg, sel) && reg.shelves[sel.shelfId].productMeshes[sel.meshId] == mesh
  }

  /** Product `meshId` of shelf `shelfId` is reachable from its mesh: the
      reverse index maps that mesh to `{shelfId, meshId}`. */
  predicate ProductIndexed(reg: Registry, shelfId: string, meshId: string) {
    && shelfId in reg.shelves && meshId in reg.shelves[shelfId].productMeshes
    && var mesh := reg.shelves[shelfId].productMeshes[meshId];
       mesh in reg.selectable && reg.selectable[mesh] == Selection(shelfId, meshId)
  }

  /** The registry invariant: shelves are stored under their own id, each
      shelf is valid, `shelfOrder` lists the ids once each, the reverse index
      and the shelves' product maps agree in both directions (every entry
      points back at its mesh, and every product of every shelf is indexed),
      and the selection names a product. */
  predicate Consistent(reg: Registry) {
    && (forall sid :: sid in reg.shelves ==> reg.shelves[sid].id == sid && Valid(reg.shelves[sid]))
    && NoDuplicates(reg.shelfOrder)
    && (forall i :: 0 <= i < |reg.shelfOrder| ==> reg.shelfOrder[i] in reg.shelves)
    && (forall sid :: sid in reg.shelves ==> sid in reg.shelfOrder)
    && (forall mesh :: mesh in reg.selectable ==> Indexed(reg, mesh, reg.selectable[mesh]))
    && (forall sid, k :: sid in reg.shelves && k in reg.shelves[sid].productMeshes ==> ProductIndexed(reg, sid, k))
    && (reg.selectedProduct.Some? ==> Registered(reg, reg.selectedProduct.value))
  }

  lemma NewRegistryConsistent()
    ensures Consistent(NewRegistry())
  {
  }

  // ---------------------------------------------------------------------
  // traverseAndRegisterProducts, split into its effect on the shelf and its
  // effect on the registry (the two touch disjoint state)
  // ---------------------------------------------------------------------

  /** What the traversal writes for one accepted mesh: the mesh, its
      `meshId`, its record and its tag. */
  datatype Entry = Entry(mesh: NodeId, meshId: string, data: ProductData, tag: Tag)

  /** The entries of a run of registrations, in order. */
  function Entries(shelfId: string, rs: seq<Registration>): (r: seq<Entry>)
    ensures |r| == |rs|
    ensures forall i :: 0 <= i < |rs| ==>
      r[i] == Entry(rs[i].node.id, RegMeshId(shelfId, rs[i]), RegData(shelfId, rs[i]), RegTag(shelfId, rs[i]))
  {
    seq(|rs|, i requires 0 <= i < |rs| =>
      Entry(rs[i].node.id, RegMeshId(shelfId, rs[i]), RegData(shelfId, rs[i]), RegTag(shelfId, rs[i])))
  }

  /** The `meshId`s of a run of entries, in order. */
  function MeshIdsOf(es: seq<Entry>): (r: seq<string>)
    ensures |r| == |es|
    ensures forall i :: 0 <= i < |es| ==> r[i] == es[i].meshId
  {
    seq(|es|, i requires 0 <= i < |es| => es[i].meshId)
  }

  predicate DistinctMeshIds(es: seq<Entry>) {
    forall i, j :: 0 <= i < j < |es| ==> es[i].meshId != es[j].meshId
  }

  predicate DistinctMeshes(es: seq<Entry>) {
    forall i, j :: 0 <= i < j < |es| ==> es[i].mesh != es[j].mesh
  }

  /** `shelf.registerProduct(meshId, productData, child)` for each entry in turn. */
  function ShelfProducts(s: Shelf, es: seq<Entry>): (r: Shelf)
    requires Valid(s)
    ensures Valid(r)
    ensures r == s.(products := r.products, productMeshes := r.productMeshes, productOrder := r.productOrder)
    decreases |es|
  {
    if |es| == 0 then s
    else ShelfProducts(RegisterProduct(s, es[0].meshId, es[0].data, es[0].mesh), es[1..])
  }

  /** A key no entry writes keeps its record and mesh. */
  lemma {:induction false} ShelfProductsOther(s: Shelf, es: seq<Entry>, key: string)
    requires Valid(s)
    requires forall j :: 0 <= j < |es| ==> es[j].meshId != key
    ensures key in ShelfProducts(s, es).products <==> key in s.products
    ensures key in s.products ==>
      && ShelfProducts(s, es).products[key] == s.products[key]
      && ShelfProducts(s, es).productMeshes[key] == s.productMeshes[key]
    decreases |es|
  {
    if |es| > 0 {
      var s1 := RegisterProduct(s, es[0].meshId, es[0].data, es[0].mesh);
      assert forall j :: 0 <= j < |es[1..]| ==> es[1..][j] == es[j + 1];
      ShelfProductsOther(s1, es[1..], key);
    }
  }

  /** With distinct keys, each entry's record and mesh end up in the shelf. */
  lemma {:induction false} ShelfProductsAt(s: Shelf, es: seq<Entry>, i: nat)
    requires Valid(s) && DistinctMeshIds(es) && i < |es|
    ensures es[i].meshId in ShelfProducts(s, es).products
    ensures ShelfProducts(s, es).products[es[i].meshId] == es[i].data
    ensures ShelfProducts(s, es).productMeshes[es[i].meshId] == es[i].mesh
    decreases |es|
  {
    var s1 := RegisterProduct(s, es[0].meshId, es[0].data, es[0].mesh);
    var tail := es[1..];
    assert forall j :: 0 <= j < |tail| ==> tail[j] == es[j + 1];
    if i == 0 {
      ShelfProductsOther(s1, tail, es[0].meshId);
    } else {
      ShelfProductsAt(s1, tail, i - 1);
    }
  }

  lemma MeshIdsOfCons(es: seq<Entry>)
    requires |es| > 0
    ensures MeshIdsOf(es) == [es[0].meshId] + MeshIdsOf(es[1..])
  {
    assert forall j :: 0 <= j < |es[1..]| ==> es[1..][j] == es[j + 1];
  }

  /** Distinct, new keys stay distinct and new after the first one is written. */
  lemma FreshKeysTail(s: Shelf, es: seq<Entry>)
    requires Valid(s) && DistinctMeshIds(es) && |es| > 0
    requires forall j :: 0 <= j < |es| ==> es[j].meshId !in s.products
    ensures DistinctMeshIds(es[1..])
    ensures forall j :: 0 <= j < |es[1..]| ==>
      es[1..][j].meshId !in RegisterProduct(s, es[0].meshId, es[0].data, es[0].mesh).products
  {
    var tail := es[1..];
    assert forall j :: 0 <= j < |tail| ==> tail[j] == es[j + 1];
  }

  /** With distinct, new keys, the keys are appended in traversal order. */
  lemma {:induction false} ShelfProductsOrder(s: Shelf, es: seq<Entry>)
    requires Valid(s) && DistinctMeshIds(es)
    requires forall j :: 0 <= j < |es| ==> es[j].meshId !in s.products
    ensures ShelfProducts(s, es).productOrder == s.productOrder + MeshIdsOf(es)
    decreases |es|
  {
    if |es| > 0 {
      var s1 := RegisterProduct(s, es[0].meshId, es[0].data, es[0].mesh);
      var tail := es[1..];
      FreshKeysTail(s, es);
      ShelfProductsOrder(s1, tail);
      MeshIdsOfCons(es);
      ConcatAssoc(s.productOrder, [es[0].meshId], MeshIdsOf(tail));
    }
  }

  /** The registry side: `child.userData = {...}` and
      `selectableObjects.set(child, {shelfId, meshId})` for each entry. */
  function RecordSelectable(reg: Registry, shelfId: string, es: seq<Entry>): (r: Registry)
    ensures r == reg.(selectable := r.selectable, userData := r.userData)
    decreases |es|
  {
    if |es| == 0 then reg
    else
      RecordSelectable(
        reg.(selectable := reg.selectable[es[0].mesh := Selection(shelfId, es[0].meshId)],
             userData := reg.userData[es[0].mesh := es[0].tag]),
        shelfId, es[1..])
  }

  /** A mesh no entry touches keeps its reverse-index entry and tag. */
  lemma {:induction false} RecordSelectableOther(reg: Registry, shelfId: string, es: seq<Entry>, mesh: NodeId)
    requires forall j :: 0 <= j < |es| ==> es[j].mesh != mesh
    ensures mesh in RecordSelectable(reg, shelfId, es).selectable <==> mesh in reg.selectable
    ensures mesh in reg.selectable ==> RecordSelectable(reg, shelfId, es).selectable[mesh] == reg.selectable[mesh]
    ensures mesh in RecordSelectable(reg, shelfId, es).userData <==> mesh in reg.userData
    ensures mesh in reg.userData ==> RecordSelectable(reg, shelfId, es).userData[mesh] == reg.userData[mesh]
    decreases |es|
  {
    if |es| > 0 {
      var reg1 := reg.(selectable := reg.selectable[es[0].mesh := Selection(shelfId, es[0].meshId)],
                       userData := reg.userData[es[0].mesh := es[0].tag]);
      assert forall j :: 0 <= j < |es[1..]| ==> es[1..][j] == es[j + 1];
      RecordSelectableOther(reg1, shelfId, es[1..], mesh);
    }
  }

  /** With distinct meshes, each mesh is indexed under its own
      `{shelfId, meshId}` and tagged with its own tag. */
  lemma {:induction false} RecordSelectableAt(reg: Registry, shelfId: string, es: seq<Entry>, i: nat)
    requires DistinctMeshes(es) && i < |es|
    ensures es[i].mesh in RecordSelectable(reg, shelfId, es).selectable
    ensures RecordSelectable(reg, shelfId, es).selectable[es[i].mesh] == Selection(shelfId, es[i].meshId)
    ensures es[i].mesh in RecordSelectable(reg, shelfId, es).userData
    ensures RecordSelectable(reg, shelfId, es).userData[es[i].mesh] == es[i].tag
    decreases |es|
  {
    var reg1 := reg.(selectable := reg.selectable[es[0].mesh := Selection(shelfId, es[0].meshId)],
                     userData := reg.userData[es[0].mesh := es[0].tag]);
    var tail := es[1..];
    assert forall j :: 0 <= j < |tail| ==> tail[j] == es[j + 1];
    if i == 0 {
      RecordSelectableOther(reg1, shelfId, tail, es[0].mesh);
    } else {
      RecordSelectableAt(reg1, shelfId, tail, i - 1);
    }
  }

  /** What the traversal writes for a model placed on shelf `shelfId`. */
  function ModelEntries(shelfId: string, model: Node): seq<Entry> {
    Entries(shelfId, Registrations(model))
  }

  /** The k-th entry of a model is the k-th accepted mesh with ordinal k;
      mesh ids are distinct, and so are the meshes when the model's objects are. */
  lemma ModelEntriesFacts(shelfId: string, model: Node)
    ensures |ModelEntries(shelfId, model)| == |Accepted(Flatten(model), IsProduct)|
    ensures forall k :: 0 <= k < |ModelEntries(shelfId, model)| ==>
      ModelEntries(shelfId, model)[k] == Entries(shelfId, [Registration(Accepted(Flatten(model), IsProduct)[k], k)])[0]
    ensures DistinctMeshIds(ModelEntries(shelfId, model))
    ensures UniqueIds(Flatten(model)) ==> DistinctMeshes(ModelEntries(shelfId, model))
  {
    var rs := Registrations(model);
    var es := ModelEntries(shelfId, model);
    RegistrationsOrdinals(model);
    forall i, j | 0 <= i < j < |es| ensures es[i].meshId != es[j].meshId {
      RegistrationsDistinctMeshIds(shelfId, model, i, j);
    }
    if UniqueIds(Flatten(model)) {
      AcceptedUnique(Flatten(model), IsProduct);
    }
  }

  // ---------------------------------------------------------------------
  // addShelf
  // ---------------------------------------------------------------------

  /** `Map.set(id, shelf)`: a new key goes last, an existing key keeps its place. */
  function InsertShelf(reg: Registry, s: Shelf): (r: Registry)
    ensures r.shelves == reg.shelves[s.id := s]
    ensures r.shelfOrder == if s.id in reg.shelves then reg.shelfOrder else reg.shelfOrder + [s.id]
    ensures r.selectedProduct == reg.selectedProduct && r.selectable == reg.selectable
    ensures r.userData == reg.userData && r.productIndex == reg.productIndex
  {
    reg.(shelves := reg.shelves[s.id := s],
         shelfOrder := if s.id in reg.shelves then reg.shelfOrder else reg.shelfOrder + [s.id])
  }

  /** The shelf `addShelf` stores: a fresh shelf, given the model and its
      products when the load succeeded. */
  function BuiltShelf(config: ShelfConfig, groupId: NodeId, load: LoadResult): (s: Shelf)
    ensures Valid(s)
    ensures s.id == config.id && s.modelPath == config.modelPath
    ensures s.position == config.position && s.rotation == config.rotation
    ensures s.groupId == groupId && s.groupVisible
    ensures load.LoadFailed? ==> s.model.None? && s.products == map[] && s.productOrder == []
    ensures load.Loaded? ==> s.model == Some(load.model)
  {
    var s0 := NewShelf(config.id, config.position, config.rotation, config.modelPath, groupId);
    match load
    case LoadFailed(_) => s0
    case Loaded(m) => ShelfProducts(SetModel(s0, m), ModelEntries(config.id, m))
  }

  /** `addShelf(config)`: the shelf is always stored under `config.id`; a
      failed load leaves it without model or products and leaves the
      indexes as they were. `groupId` is the identity of the new group. */
  function AddShelf(reg: Registry, config: ShelfConfig, groupId: NodeId, load: LoadResult): (r: Registry)
    ensures config.id in r.shelves && r.shelves[config.id] == BuiltShelf(config, groupId, load)
    ensures r.shelves.Keys == reg.shelves.Keys + {config.id}
    ensures forall sid :: sid in reg.shelves && sid != config.id ==> r.shelves[sid] == reg.shelves[sid]
    ensures r.shelfOrder == if config.id in reg.shelves then reg.shelfOrder else reg.shelfOrder + [config.id]
    ensures r.selectedProduct == reg.selectedProduct
    ensures load.LoadFailed? ==>
      r.selectable == reg.selectable && r.userData == reg.userData && r.productIndex == reg.productIndex
    ensures load.Loaded? ==>
      r.productIndex == reg.productIndex[config.id := |Accepted(Flatten(load.model), IsProduct)|]
  {
    InsertShelf(RegisterModel(reg, config.id, load), BuiltShelf(config, groupId, load))
  }

  /** The index side of `addShelf`: after a successful load, the reverse
      index, the written tags and the product count of shelf `shelfId`; a
      failed load registers nothing. */
  function RegisterModel(reg: Registry, shelfId: string, load: LoadResult): (r: Registry)
    ensures r.shelves == reg.shelves && r.shelfOrder == reg.shelfOrder
    ensures r.selectedProduct == reg.selectedProduct
    ensures load.LoadFailed? ==> r == reg
    ensures load.Loaded? ==> r.productIndex == reg.productIndex[shelfId := |Accepted(Flatten(load.model), IsProduct)|]
  {
    match load
    case LoadFailed(_) => reg
    case Loaded(m) =>
      var es := ModelEntries(shelfId, m);
      ModelEntriesCount(shelfId, m);
      var reg1 := RecordSelectable(reg, shelfId, es);
      reg1.(productIndex := reg1.productIndex[shelfId := |es|])
  }

  /** One entry per accepted mesh. */
  lemma ModelEntriesCount(shelfId: string, model: Node)
    ensures |ModelEntries(shelfId, model)| == |Accepted(Flatten(model), IsProduct)|
  {
    NumberedCount(Flatten(model), IsProduct, 0);
  }

  /** After a successful load, the k-th accepted mesh of the model, in
      pre-order, is registered as `<id>_product_<k>` with the trimmed name,
      the slug and the description, tagged with the same fields, and indexed
      under the same `{shelfId, meshId}`; every mesh of the model is visible. */
  lemma AddShelfRegisters(reg: Registry, config: ShelfConfig, groupId: NodeId, m: Node, k: nat)
    requires UniqueIds(Flatten(m))
    requires k < |Accepted(Flatten(m), IsProduct)|
    ensures var r := AddShelf(reg, config, groupId, Loaded(m));
      var s := r.shelves[config.id];
      var node := Accepted(Flatten(m), IsProduct)[k];
      var meshId := MeshId(config.id, k);
      var name := Trim(node.name);
      && IsProduct(node) && node in Flatten(m)
      && meshId in s.products
      && s.products[meshId] == ProductData(Slug(name), name, name + " product", config.id, meshId)
      && s.productMeshes[meshId] == node.id
      && node.id in r.selectable && r.selectable[node.id] == Selection(config.id, meshId)
      && node.id in r.userData && r.userData[node.id] == ProductTag(Slug(name), name, name + " product", config.id)
      && (forall id :: id in MeshIds(m) ==> id in s.meshVisible && s.meshVisible[id])
  {
    var es := ModelEntries(config.id, m);
    ModelEntriesFacts(config.id, m);
    var node := Accepted(Flatten(m), IsProduct)[k];
    var q := AcceptedIndex(Flatten(m), IsProduct, k);
    var s0 := NewShelf(config.id, config.position, config.rotation, config.modelPath, groupId);
    ShelfProductsAt(SetModel(s0, m), es, k);
    RecordSelectableAt(reg, config.id, es, k);
  }

  /** After a successful load, the shelf's products are exactly
      `<id>_product_0 … <id>_product_(n-1)` in that order, n the count
      stored in `productIndex`. */
  lemma AddShelfProductOrder(reg: Registry, config: ShelfConfig, groupId: NodeId, m: Node)
    ensures var r := AddShelf(reg, config, groupId, Loaded(m));
      var n := r.productIndex[config.id];
      && n == |Accepted(Flatten(m), IsProduct)|
      && |r.shelves[config.id].productOrder| == n
      && (forall k :: 0 <= k < n ==> r.shelves[config.id].productOrder[k] == MeshId(config.id, k))
      && |AllProducts(r.shelves[config.id])| == n
  {
    var es := ModelEntries(config.id, m);
    ModelEntriesFacts(config.id, m);
    var s0 := NewShelf(config.id, config.position, config.rotation, config.modelPath, groupId);
    ShelfProductsOrder(SetModel(s0, m), es);
    ConcatEmpty(MeshIdsOf(es));
    var r := AddShelf(reg, config, groupId, Loaded(m));
    assert r.shelves[config.id].productOrder == MeshIdsOf(es);
    forall k | 0 <= k < |es|
      ensures r.shelves[config.id].productOrder[k] == MeshId(config.id, k)
    {
      assert es[k].meshId == MeshId(config.id, k);
    }
  }

  /** Every reverse-index entry still points back at its mesh after a
      successful load under a new id. */
  lemma AddShelfIndexes(reg: Registry, config: ShelfConfig, groupId: NodeId, m: Node, mesh: NodeId)
    requires forall x :: x in reg.selectable ==> Indexed(reg, x, reg.selectable[x])
    requires config.id !in reg.shelves
    requires UniqueIds(Flatten(m))
    requires mesh in AddShelf(reg, config, groupId, Loaded(m)).selectable
    ensures var r := AddShelf(reg, config, groupId, Loaded(m));
      Indexed(r, mesh, r.selectable[mesh])
  {
    var r := AddShelf(reg, config, groupId, Loaded(m));
    var es := ModelEntries(config.id, m);
    ModelEntriesFacts(config.id, m);
    var s0 := NewShelf(config.id, config.position, config.rotation, config.modelPath, groupId);
    var reg1 := RecordSelectable(reg, config.id, es);
    var sh := ShelfProducts(SetModel(s0, m), es);
    assert r.selectable == reg1.selectable;
    assert r.shelves[config.id] == sh;
    if j :| 0 <= j < |es| && es[j].mesh == mesh {
      RecordSelectableAt(reg, config.id, es, j);
      ShelfProductsAt(SetModel(s0, m), es, j);
      assert r.selectable[mesh] == Selection(config.id, es[j].meshId);
    } else {
      RecordSelectableOther(reg, config.id, es, mesh);
      var sel := reg.selectable[mesh];
      assert Indexed(reg, mesh, sel);
      assert r.shelves[sel.shelfId] == reg.shelves[sel.shelfId];
    }
  }

  /** Every mesh the traversal registers is an object of the model. */
  lemma ModelEntryInModel(shelfId: string, model: Node, j: nat)
    requires j < |ModelEntries(shelfId, model)|
    ensures ModelEntries(shelfId, model)[j].mesh in Ids(Flatten(model))
  {
    ModelEntriesFacts(shelfId, model);
    var q := AcceptedIndex(Flatten(model), IsProduct, j);
  }

  /** After a successful load under a new id, every product of every shelf
      is reachable from its mesh, provided the model's objects are distinct
      and none of them is indexed already. */
  lemma AddShelfReachesProducts(reg: Registry, config: ShelfConfig, groupId: NodeId, m: Node, sid: string, k: string)
    requires Consistent(reg)
    requires config.id !in reg.shelves
    requires UniqueIds(Flatten(m)) && Ids(Flatten(m)) !! reg.selectable.Keys
    requires var r := AddShelf(reg, config, groupId, Loaded(m));
      sid in r.shelves && k in r.shelves[sid].productMeshes
    ensures ProductIndexed(AddShelf(reg, config, groupId, Loaded(m)), sid, k)
  {
    var r := AddShelf(reg, config, groupId, Loaded(m));
    var es := ModelEntries(config.id, m);
    ModelEntriesFacts(config.id, m);
    var s0 := NewShelf(config.id, config.position, config.rotation, config.modelPath, groupId);
    var reg1 := RecordSelectable(reg, config.id, es);
    assert r.selectable == reg1.selectable;
    if sid == config.id {
      if j :| 0 <= j < |es| && es[j].meshId == k {
        ShelfProductsAt(SetModel(s0, m), es, j);
        RecordSelectableAt(reg, config.id, es, j);
      } else {
        ShelfProductsOther(SetModel(s0, m), es, k);
        assert false;
      }
    } else {
      assert r.shelves[sid] == reg.shelves[sid];
      assert ProductIndexed(reg, sid, k);
      var mesh := reg.shelves[sid].productMeshes[k];
      forall j | 0 <= j < |es| ensures es[j].mesh != mesh {
        ModelEntryInModel(config.id, m, j);
      }
      RecordSelectableOther(reg, config.id, es, mesh);
    }
  }

  /** Adding a shelf under a new id keeps the registry consistent, provided
      the model's objects are distinct and not indexed already (each load
      creates new objects). */
  lemma AddShelfConsistent(reg: Registry, config: ShelfConfig, groupId: NodeId, load: LoadResult)
    requires Consistent(reg)
    requires config.id !in reg.shelves
    requires load.Loaded? ==> UniqueIds(Flatten(load.model)) && Ids(Flatten(load.model)) !! reg.selectable.Keys
    ensures Consistent(AddShelf(reg, config, groupId, load))
  {
    var r := AddShelf(reg, config, groupId, load);
    AddShelfStoresShelves(reg, config, groupId, load);
    forall mesh | mesh in r.selectable
      ensures Indexed(r, mesh, r.selectable[mesh])
    {
      if load.Loaded? {
        AddShelfIndexes(reg, config, groupId, load.model, mesh);
      } else {
        assert Indexed(reg, mesh, reg.selectable[mesh]);
      }
    }
    forall sid, k | sid in r.shelves && k in r.shelves[sid].productMeshes
      ensures ProductIndexed(r, sid, k)
    {
      if load.Loaded? {
        AddShelfReachesProducts(reg, config, groupId, load.model, sid, k);
      } else if sid != config.id {
        assert ProductIndexed(reg, sid, k);
      }
    }
    if r.selectedProduct.Some? {
      assert Registered(reg, r.selectedProduct.value);
    }
  }

  /** The shelf half of the invariant after adding a new id: every shelf is
      stored under its own id and valid, and the order lists each id once. */
  lemma AddShelfStoresShelves(reg: Registry, config: ShelfConfig, groupId: NodeId, load: LoadResult)
    requires Consistent(reg)
    requires config.id !in reg.shelves
    ensures var r := AddShelf(reg, config, groupId, load);
      && (forall sid :: sid in r.shelves ==> r.shelves[sid].id == sid && Valid(r.shelves[sid]))
      && NoDuplicates(r.shelfOrder)
      && (forall i :: 0 <= i < |r.shelfOrder| ==> r.shelfOrder[i] in r.shelves)
      && (forall sid :: sid in r.shelves ==> sid in r.shelfOrder)
  {
    var r := AddShelf(reg, config, groupId, load);
    assert r.shelfOrder == reg.shelfOrder + [config.id];
    assert NoDuplicates(r.shelfOrder) by {
      assert forall i :: 0 <= i < |reg.shelfOrder| ==> reg.shelfOrder[i] != config.id;
    }
    forall sid | sid in r.shelves
      ensures r.shelves[sid].id == sid && Valid(r.shelves[sid]) && sid in r.shelfOrder
    {
      if sid != config.id {
        assert sid in reg.shelves && r.shelves[sid] == reg.shelves[sid];
        assert sid in reg.shelfOrder;
      }
    }
    forall i | 0 <= i < |r.shelfOrder|
      ensures r.shelfOrder[i] in r.shelves
    {
      if i < |reg.shelfOrder| {
        assert r.shelfOrder[i] == reg.shelfOrder[i];
      }
    }
  }

  /** Re-adding a shelf id whose load then fails leaves reverse-index entries
      pointing at products the new shelf does not have: the index goes stale,
      which is the situation the name-match fallback of `getProductByMesh`
      works around. */
  lemma ReAddLeavesStaleIndex(reg: Registry, config: ShelfConfig, groupId: NodeId, reason: string, mesh: NodeId)
    requires Consistent(reg)
    requires mesh in reg.selectable && reg.selectable[mesh].shelfId == config.id
    ensures var r := AddShelf(reg, config, groupId, LoadFailed(reason));
      mesh in r.selectable && r.selectable[mesh] == reg.selectable[mesh] && !Consistent(r)
  {
    var r := AddShelf(reg, config, groupId, LoadFailed(reason));
    assert !Indexed(r, mesh, r.selectable[mesh]);
  }

  // ---------------------------------------------------------------------
  // selectProduct / deselectProduct
  // ---------------------------------------------------------------------

  /** `selectProduct(shelfId, meshId)`: an unknown shelf or product changes
      nothing; otherwise the selection is recorded, the shelf whose id is
      `shelfId` shows only that product, and every other shelf is hidden.
      The target shelf's group flag is left as it was. */
  function SelectProduct(reg: Registry, shelfId: string, meshId: string): (r: (Registry, Option<ProductData>))
    ensures r.1.Some? <==> shelfId in reg.shelves && meshId in reg.shelves[shelfId].products
    ensures r.1.None? ==> r.0 == reg
    ensures r.1.Some? ==> r.1.value == reg.shelves[shelfId].products[meshId]
    ensures r.1.Some? ==> r.0.selectedProduct == Some(Selection(shelfId, meshId))
    ensures r.1.Some? ==> r.0 == reg.(selectedProduct := r.0.selectedProduct, shelves := r.0.shelves)
    ensures r.1.Some? ==> r.0.shelves.Keys == reg.shelves.Keys
    ensures r.1.Some? ==> forall sid :: sid in reg.shelves && reg.shelves[sid].id != shelfId ==>
      r.0.shelves[sid] == reg.shelves[sid].(groupVisible := false)
    ensures r.1.Some? ==> forall sid :: sid in reg.shelves && reg.shelves[sid].id == shelfId ==>
      var before := reg.shelves[sid];
      var after := r.0.shelves[sid];
      && after.groupVisible == before.groupVisible
      && after == before.(meshVisible := after.meshVisible)
      && (forall k :: k in before.productMeshes ==>
            before.productMeshes[k] in after.meshVisible &&
            after.meshVisible[before.productMeshes[k]] ==
              (meshId in before.productMeshes && before.productMeshes[k] == before.productMeshes[meshId]))
  {
    if shelfId !in reg.shelves then (reg, None)
    else match GetProduct(reg.shelves[shelfId], meshId)
      case None => (reg, None)
      case Some(p) =>
        var shelves := map sid | sid in reg.shelves ::
          if reg.shelves[sid].id == shelfId then ShowProduct(reg.shelves[sid], meshId) else Hide(reg.shelves[sid]);
        (reg.(selectedProduct := Some(Selection(shelfId, meshId)), shelves := shelves), Some(p))
  }

  /** `deselectProduct`: nothing selected, every shelf group and every
      registered product mesh visible; product maps untouched. */
  function DeselectProduct(reg: Registry): (r: Registry)
    ensures r.selectedProduct.None?
    ensures r == reg.(selectedProduct := None, shelves := r.shelves)
    ensures r.shelves.Keys == reg.shelves.Keys
    ensures forall sid :: sid in reg.shelves ==>
      var before := reg.shelves[sid];
      var after := r.shelves[sid];
      && after.groupVisible
      && after == before.(groupVisible := true, meshVisible := after.meshVisible)
      && (forall k :: k in before.productMeshes ==>
            before.productMeshes[k] in after.meshVisible && after.meshVisible[before.productMeshes[k]])
      && (forall id :: id in before.meshVisible && id !in before.productMeshes.Values ==>
            id in after.meshVisible && after.meshVisible[id] == before.meshVisible[id])
  {
    reg.(selectedProduct := None,
         shelves := map sid | sid in reg.shelves :: ShowAllProducts(Show(reg.shelves[sid])))
  }

  /** A registry whose shelves changed only in their visibility flags is
      consistent when the original was. */
  lemma VisibilityOnlyConsistent(reg: Registry, r: Registry)
    requires Consistent(reg)
    requires r == reg.(selectedProduct := r.selectedProduct, shelves := r.shelves)
    requires r.shelves.Keys == reg.shelves.Keys
    requires forall sid :: sid in reg.shelves ==>
      r.shelves[sid] == reg.shelves[sid].(groupVisible := r.shelves[sid].groupVisible, meshVisible := r.shelves[sid].meshVisible)
    requires r.selectedProduct.Some? ==> Registered(reg, r.selectedProduct.value)
    ensures Consistent(r)
  {
    forall sid | sid in r.shelves
      ensures r.shelves[sid].id == sid && Valid(r.shelves[sid])
    {
      assert Valid(reg.shelves[sid]);
    }
    forall mesh | mesh in r.selectable
      ensures Indexed(r, mesh, r.selectable[mesh])
    {
      assert Indexed(reg, mesh, reg.selectable[mesh]);
    }
    forall sid, k | sid in r.shelves && k in r.shelves[sid].productMeshes
      ensures ProductIndexed(r, sid, k)
    {
      assert ProductIndexed(reg, sid, k);
    }
  }

  /** Selection keeps the registry consistent. */
  lemma SelectConsistent(reg: Registry, shelfId: string, meshId: string)
    requires Consistent(reg)
    ensures Consistent(SelectProduct(reg, shelfId, meshId).0)
  {
    var r := SelectProduct(reg, shelfId, meshId);
    if r.1.Some? {
      VisibilityOnlyConsistent(reg, r.0);
    }
  }

  /** Deselection keeps the registry consistent. */
  lemma DeselectConsistent(reg: Registry)
    requires Consistent(reg)
    ensures Consistent(DeselectProduct(reg))
  {
    VisibilityOnlyConsistent(reg, DeselectProduct(reg));
  }

  /** A selection never re-shows its target: selecting a product on a hidden
      shelf (say, one a previous selection hid) leaves every shelf group hidden. */
  lemma SelectOnHiddenShelfHidesAll(reg: Registry, shelfId: string, meshId: string)
    requires Consistent(reg)
    requires shelfId in reg.shelves && !reg.shelves[shelfId].groupVisible
    requires meshId in reg.shelves[shelfId].products
    ensures var r := SelectProduct(reg, shelfId, meshId);
      r.1.Some? && forall sid :: sid in r.0.shelves ==> !r.0.shelves[sid].groupVisible
  {
  }

  // ---------------------------------------------------------------------
  // getProductByMesh
  // ---------------------------------------------------------------------

  /** `Array.prototype.findIndex` on `productName`. */
  function FirstWithName(ps: seq<ProductData>, name: string): (r: Option<nat>)
    ensures r.Some? ==> r.value < |ps| && ps[r.value].productName == name
    ensures r.Some? ==> forall j :: 0 <= j < r.value ==> ps[j].productName != name
    ensures r.None? ==> forall j :: 0 <= j < |ps| ==> ps[j].productName != name
  {
    if |ps| == 0 then None
    else if ps[0].productName == name then Some(0)
    else match FirstWithName(ps[1..], name)
      case None => None
      case Some(j) => Some(j + 1)
  }

  /** `getProductByMesh(mesh)`: the reverse-index entry if there is one;
      otherwise, for a mesh tagged as a product, the first product (in
      insertion order) of the tagged shelf with the tagged name; otherwise
      nothing. */
  function GetProductByMesh(reg: Registry, mesh: Node): (r: Option<Selection>)
    ensures mesh.id in reg.selectable ==> r == Some(reg.selectable[mesh.id])
    ensures mesh.id !in reg.selectable && r.Some? ==>
      var tag := LiveTag(reg, mesh);
      && tag.ProductTag? && tag.shelfId in reg.shelves && r.value.shelfId == tag.shelfId
      && exists j :: 0 <= j < |AllProducts(reg.shelves[tag.shelfId])| &&
           AllProducts(reg.shelves[tag.shelfId])[j].productName == tag.productName &&
           AllProducts(reg.shelves[tag.shelfId])[j].meshId == r.value.meshId &&
           forall i :: 0 <= i < j ==> AllProducts(reg.shelves[tag.shelfId])[i].productName != tag.productName
    ensures r.None? <==>
      && mesh.id !in reg.selectable
      && var tag := LiveTag(reg, mesh);
         (!tag.ProductTag? || tag.shelfId !in reg.shelves ||
          forall j :: 0 <= j < |AllProducts(reg.shelves[tag.shelfId])| ==>
            AllProducts(reg.shelves[tag.shelfId])[j].productName != tag.productName)
  {
    if mesh.id in reg.selectable then Some(reg.selectable[mesh.id])
    else
      var tag := LiveTag(reg, mesh);
      if tag.ProductTag? && tag.shelfId in reg.shelves then
        var ps := AllProducts(reg.shelves[tag.shelfId]);
        match FirstWithName(ps, tag.productName)
        case Some(j) => Some(Selection(tag.shelfId, ps[j].meshId))
        case None => None
      else None
  }

  /** Registration and lookup agree: after a successful `addShelf`, the k-th
      accepted mesh is found as `{config.id, <id>_product_k}`, and selecting
      that returns its record. */
  lemma AddThenLookup(reg: Registry, config: ShelfConfig, groupId: NodeId, m: Node, k: nat)
    requires UniqueIds(Flatten(m))
    requires k < |Accepted(Flatten(m), IsProduct)|
    ensures var r := AddShelf(reg, config, groupId, Loaded(m));
      var node := Accepted(Flatten(m), IsProduct)[k];
      && GetProductByMesh(r, node) == Some(Selection(config.id, MeshId(config.id, k)))
      && SelectProduct(r, config.id, MeshId(config.id, k)).1
           == Some(RegData(config.id, Registration(node, k)))
  {
    AddShelfRegisters(reg, config, groupId, m, k);
  }

  /** In a consistent registry every product of every shelf is found from
      its mesh, and selecting what is found returns that product's record. */
  lemma LookupEveryProduct(reg: Registry, shelfId: string, meshId: string, mesh: Node)
    requires Consistent(reg)
    requires shelfId in reg.shelves && meshId in reg.shelves[shelfId].productMeshes
    requires mesh.id == reg.shelves[shelfId].productMeshes[meshId]
    ensures GetProductByMesh(reg, mesh) == Some(Selection(shelfId, meshId))
    ensures SelectProduct(reg, shelfId, meshId).1 == Some(reg.shelves[shelfId].products[meshId])
  {
    assert ProductIndexed(reg, shelfId, meshId);
    assert Valid(reg.shelves[shelfId]);
  }

  /** Later shelves do not hide earlier ones: after adding a shelf under a
      new id, every product of every shelf already stored is still found
      from its mesh. */
  lemma AddShelfKeepsLookups(reg: Registry, config: ShelfConfig, groupId: NodeId, load: LoadResult,
                             shelfId: string, meshId: string, mesh: Node)
    requires Consistent(reg)
    requires config.id !in reg.shelves
    requires load.Loaded? ==> UniqueIds(Flatten(load.model)) && Ids(Flatten(load.model)) !! reg.selectable.Keys
    requires shelfId in reg.shelves && meshId in reg.shelves[shelfId].productMeshes
    requires mesh.id == reg.shelves[shelfId].productMeshes[meshId]
    ensures GetProductByMesh(AddShelf(reg, config, groupId, load), mesh) == Some(Selection(shelfId, meshId))
  {
    var r := AddShelf(reg, config, groupId, load);
    AddShelfConsistent(reg, config, groupId, load);
    assert r.shelves[shelfId] == reg.shelves[shelfId];
    LookupEveryProduct(r, shelfId, meshId, mesh);
  }

  /** In a consistent registry the lookup of an indexed mesh names a product
      the registry can select. */
  lemma LookupSelectable(reg: Registry, mesh: Node)
    requires Consistent(reg) && mesh.id in reg.selectable
    ensures var sel := GetProductByMesh(reg, mesh);
      sel.Some? && SelectProduct(reg, sel.value.shelfId, sel.value.meshId).1.Some?
  {
  }

  // ---------------------------------------------------------------------
  // getAisleBoundingBox / dispose
  // ---------------------------------------------------------------------

  /** The boxes of the stored shelves, in insertion order; `boxOf` is the
      world-space box three.js computes for a shelf's group. */
  function ShelfBoxes(order: seq<string>, shelves: map<string, Shelf>, boxOf: Shelf -> Box3): (r: seq<Box3>)
    ensures |r| == |order|
    ensures forall i :: 0 <= i < |order| ==> r[i] == (if order[i] in shelves then boxOf(shelves[order[i]]) else EmptyBox)
  {
    seq(|order|, i requires 0 <= i < |order| => if order[i] in shelves then boxOf(shelves[order[i]]) else EmptyBox)
  }

  /** `getAisleBoundingBox`: an empty box expanded by every shelf's group. */
  function GetAisleBoundingBox(reg: Registry, boxOf: Shelf -> Box3): Box3 {
    UnionAll(ShelfBoxes(reg.shelfOrder, reg.shelves, boxOf))
  }

  /** The aisle box is the smallest box enclosing every shelf's box, and it
      is empty exactly when every shelf's box is. */
  lemma AisleBoxIsLeastEnclosing(reg: Registry, boxOf: Shelf -> Box3, outer: Box3)
    requires Consistent(reg)
    ensures forall sid :: sid in reg.shelves ==> Encloses(GetAisleBoundingBox(reg, boxOf), boxOf(reg.shelves[sid]))
    ensures (forall sid :: sid in reg.shelves ==> Encloses(outer, boxOf(reg.shelves[sid]))) ==>
      Encloses(outer, GetAisleBoundingBox(reg, boxOf))
    ensures GetAisleBoundingBox(reg, boxOf).EmptyBox? <==>
      forall sid :: sid in reg.shelves ==> boxOf(reg.shelves[sid]).EmptyBox?
  {
    var bs := ShelfBoxes(reg.shelfOrder, reg.shelves, boxOf);
    forall sid | sid in reg.shelves
      ensures Encloses(GetAisleBoundingBox(reg, boxOf), boxOf(reg.shelves[sid]))
    {
      var i :| 0 <= i < |reg.shelfOrder| && reg.shelfOrder[i] == sid;
      UnionAllEncloses(bs, i);
    }
    if forall sid :: sid in reg.shelves ==> Encloses(outer, boxOf(reg.shelves[sid])) {
      UnionAllLeast(bs, outer);
    }
    UnionAllEmpty(bs);
    if forall sid :: sid in reg.shelves ==> boxOf(reg.shelves[sid]).EmptyBox? {
      assert forall i :: 0 <= i < |bs| ==> bs[i].EmptyBox?;
    }
  }

  /** `dispose`: shelves and the reverse index are cleared; the selection,
      the product counts and the written tags are left as they were. */
  function Dispose(reg: Registry): (r: Registry)
    ensures r.shelves == map[] && r.shelfOrder == [] && r.selectable == map[]
    ensures r.selectedProduct == reg.selectedProduct
    ensures r.productIndex == reg.productIndex && r.userData == reg.userData
  {
    reg.(shelves := map[], shelfOrder := [], selectable := map[])
  }

  /** After `dispose` a selection made before it names a shelf that no longer
      exists: the registry is inconsistent, and selecting it again fails. */
  lemma DisposeLeavesDanglingSelection(reg: Registry)
    requires reg.selectedProduct.Some?
    ensures var r := Dispose(reg);
      && r.selectedProduct == reg.selectedProduct
      && !Consistent(r)
      && SelectProduct(r, r.selectedProduct.value.shelfId, r.selectedProduct.value.meshId).1.None?
  {
  }
}
