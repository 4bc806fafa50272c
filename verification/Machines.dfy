/**
 * `Machine` and `MachineManager`: machines stored by id in insertion order,
 * each a group holding one model, selected by hiding every other machine.
 * Unlike shelf selection, selecting a machine does not check the id.
 */
module Machines {
  import opened Base
  import opened Geometry
  import opened SceneGraph
  import ShelfModel
  import ShelfManager

  /** `MachineData`, the configuration of one machine. */
  datatype MachineData = MachineData(id: string, name: string, description: string, position: Vec3, modelPath: string)

  datatype Machine = Machine(
    id: string,
    name: string,
    description: string,
    position: Vec3,
    modelPath: string,
    groupId: NodeId,
    groupVisible: bool,
    groupChildren: seq<NodeId>,
    model: Option<Node>)

  /** The model's dimensions when loading fails. */
  const FallbackWidth: real := 2.0
  const FallbackHeight: real := 3.0
  const FallbackDepth: real := 2.0

  /** `new Machine(data)`: the configuration copied, an empty visible group
      placed at `data.position`, no model. */
  function NewMachine(data: MachineData, groupId: NodeId): (m: Machine)
    ensures m.id == data.id && m.name == data.name && m.description == data.description
    ensures m.modelPath == data.modelPath && m.position == data.position
    ensures m.groupId == groupId && m.groupVisible && m.groupChildren == [] && m.model.None?
  {
    Machine(data.id, data.name, data.description, data.position, data.modelPath, groupId, true, [], None)
  }

  /** `setModel(model)`: the previous model leaves the group, the new one
      becomes its last child and is recorded. */
  function SetModel(m: Machine, model: Node): (r: Machine)
    ensures r.model == Some(model)
    ensures |r.groupChildren| > 0 && r.groupChildren[|r.groupChildren| - 1] == model.id
    ensures m.model.Some? && m.model.value.id != model.id ==> m.model.value.id !in r.groupChildren
    ensures forall c :: c in r.groupChildren && c != model.id ==> c in m.groupChildren
    ensures r == m.(model := r.model, groupChildren := r.groupChildren)
  {
    var kept := if m.model.Some? then ShelfModel.Detach(m.groupChildren, m.model.value.id) else m.groupChildren;
    m.(model := Some(model), groupChildren := ShelfModel.Attach(kept, model.id))
  }

  /** The 2 x 3 x 2 box mesh `createFallbackModel` builds (its random colour
      is not modelled). */
  function FallbackBox(id: NodeId): Node {
    Node(id, "", Mesh(BoxGeometry(FallbackWidth, FallbackHeight, FallbackDepth)), true, Untagged, [])
  }

  /** `createFallbackModel()`: the box installed through `setModel`. */
  function CreateFallbackModel(m: Machine, boxId: NodeId): (r: Machine)
    ensures r.model.Some? && r.model.value.kind == Mesh(BoxGeometry(2.0, 3.0, 2.0))
    ensures r == SetModel(m, FallbackBox(boxId))
  {
    SetModel(m, FallbackBox(boxId))
  }

  /** `show()` and `hide()`: only the group's flag changes. */
  function SetVisible(m: Machine, visible: bool): (r: Machine)
    ensures r.groupVisible == visible
    ensures r == m.(groupVisible := visible)
  {
    m.(groupVisible := visible)
  }

  /** `dispose()`: the group is emptied and the model dropped. */
  function DisposeMachine(m: Machine): (r: Machine)
    ensures r.groupChildren == [] && r.model.None?
    ensures r == m.(groupChildren := [], model := None)
  {
    m.(groupChildren := [], model := None)
  }

  datatype MachineManager = MachineManager(
    machines: map<string, Machine>,
    order: seq<string>,
    selectedMachineId: Option<string>)

  /** Machines are stored under their own id and `order` lists the ids once each. */
  predicate Valid(mgr: MachineManager) {
    && (forall k :: k in mgr.machines ==> mgr.machines[k].id == k)
    && ShelfModel.NoDuplicates(mgr.order)
    && (forall i :: 0 <= i < |mgr.order| ==> mgr.order[i] in mgr.machines)
    && (forall k :: k in mgr.machines ==> k in mgr.order)
  }

  function NewMachineManager(): (mgr: MachineManager)
    ensures Valid(mgr) && mgr.machines == map[] && mgr.selectedMachineId.None?
  {
    MachineManager(map[], [], None)
  }

  /** The machine `addMachine` stores: the loaded model, or the fallback box. */
  function BuiltMachine(data: MachineData, groupId: NodeId, load: ShelfManager.LoadResult, boxId: NodeId): (m: Machine)
    ensures m.id == data.id && m.groupId == groupId && m.groupVisible
    ensures load.Loaded? ==> m.model == Some(load.model)
    ensures load.LoadFailed? ==> m.model == Some(FallbackBox(boxId))
  {
    var m0 := NewMachine(data, groupId);
    match load
    case Loaded(model) => SetModel(m0, model)
    case LoadFailed(_) => CreateFallbackModel(m0, boxId)
  }

  /** `Map.set(m.id, m)`: a new key goes last, an existing key keeps its place. */
  function InsertMachine(mgr: MachineManager, m: Machine): (r: MachineManager)
    ensures r.machines == mgr.machines[m.id := m]
    ensures r.order == if m.id in mgr.machines then mgr.order else mgr.order + [m.id]
    ensures r.selectedMachineId == mgr.selectedMachineId
  {
    mgr.(machines := mgr.machines[m.id := m],
         order := if m.id in mgr.machines then mgr.order else mgr.order + [m.id])
  }

  /** Inserting a machine under its own id keeps the manager valid. */
  lemma InsertMachineValid(mgr: MachineManager, m: Machine)
    requires Valid(mgr)
    ensures Valid(InsertMachine(mgr, m))
  {
    var r := InsertMachine(mgr, m);
    if m.id !in mgr.machines {
      forall i, j | 0 <= i < j < |r.order| ensures r.order[i] != r.order[j] {
        assert r.order[i] == mgr.order[i];
        if j < |mgr.order| {
          assert r.order[j] == mgr.order[j];
        }
      }
    }
  }

  lemma InsertMachineKeepsValid(mgr: MachineManager, m: Machine)
    ensures Valid(mgr) ==> Valid(InsertMachine(mgr, m))
  {
    if Valid(mgr) {
      InsertMachineValid(mgr, m);
    }
  }

  /** `addMachine(data)`: the machine is always stored under `data.id`, with
      a model either way; a new id goes last in iteration order. */
  function AddMachine(mgr: MachineManager, data: MachineData, groupId: NodeId, load: ShelfManager.LoadResult, boxId: NodeId): (r: MachineManager)
    ensures Valid(mgr) ==> Valid(r)
    ensures data.id in r.machines && r.machines[data.id] == BuiltMachine(data, groupId, load, boxId)
    ensures r.machines[data.id].model.Some?
    ensures r.machines.Keys == mgr.machines.Keys + {data.id}
    ensures forall k :: k in mgr.machines && k != data.id ==> r.machines[k] == mgr.machines[k]
    ensures r.order == if data.id in mgr.machines then mgr.order else mgr.order + [data.id]
    ensures r.selectedMachineId == mgr.selectedMachineId
  {
    var m := BuiltMachine(data, groupId, load, boxId);
    InsertMachineKeepsValid(mgr, m);
    InsertMachine(mgr, m)
  }

  /** `getMachine(id)`. */
  function GetMachine(mgr: MachineManager, id: string): (r: Option<Machine>)
    ensures r.Some? <==> id in mgr.machines
    ensures r.Some? ==> r.value == mgr.machines[id]
  {
    if id in mgr.machines then Some(mgr.machines[id]) else None
  }

  /** `selectMachine(id)`: the id is recorded whether or not it exists; the
      machine whose id it is is shown and every other one hidden. */
  function SelectMachine(mgr: MachineManager, id: string): (r: MachineManager)
    ensures r.selectedMachineId == Some(id)
    ensures r.machines.Keys == mgr.machines.Keys && r.order == mgr.order
    ensures forall k :: k in r.machines ==>
      r.machines[k] == mgr.machines[k].(groupVisible := mgr.machines[k].id == id)
  {
    MachineManager(
      map k | k in mgr.machines :: SetVisible(mgr.machines[k], mgr.machines[k].id == id),
      mgr.order,
      Some(id))
  }

  /** `deselectMachine()`: nothing selected, every machine shown. */
  function DeselectMachine(mgr: MachineManager): (r: MachineManager)
    ensures r.selectedMachineId.None?
    ensures r.machines.Keys == mgr.machines.Keys && r.order == mgr.order
    ensures forall k :: k in r.machines ==> r.machines[k] == mgr.machines[k].(groupVisible := true)
  {
    MachineManager(map k | k in mgr.machines :: SetVisible(mgr.machines[k], true), mgr.order, None)
  }

  /** In a valid manager, selecting shows exactly the machine stored under
      `id`; an unknown id hides every machine, yet is recorded as selected. */
  lemma SelectMachineShowsOnlyTarget(mgr: MachineManager, id: string)
    requires Valid(mgr)
    ensures Valid(SelectMachine(mgr, id))
    ensures forall k :: k in mgr.machines ==> (SelectMachine(mgr, id).machines[k].groupVisible <==> k == id)
    ensures id !in mgr.machines ==>
      (forall k :: k in mgr.machines ==> !SelectMachine(mgr, id).machines[k].groupVisible) &&
      SelectMachine(mgr, id).selectedMachineId == Some(id)
  {
  }

  /** Deselecting after any selection shows every machine again and leaves
      each one as it was before the selection, but for its group flag. */
  lemma SelectThenDeselect(mgr: MachineManager, id: string)
    ensures var r := DeselectMachine(SelectMachine(mgr, id));
      && r.selectedMachineId.None?
      && r.machines.Keys == mgr.machines.Keys
      && forall k :: k in mgr.machines ==> r.machines[k] == mgr.machines[k].(groupVisible := true)
  {
  }

  /** `getSelectableObjects()`: the group of every stored machine, in
      insertion order (keys without a machine contribute nothing). */
  function GetSelectableObjects(mgr: MachineManager): (r: seq<NodeId>)
    ensures Valid(mgr) ==> |r| == |mgr.order|
    ensures Valid(mgr) ==> forall i :: 0 <= i < |r| ==> r[i] == mgr.machines[mgr.order[i]].groupId
  {
    GroupsInOrder(mgr.order, mgr.machines)
  }

  function GroupsInOrder(order: seq<string>, machines: map<string, Machine>): (r: seq<NodeId>)
    ensures (forall i :: 0 <= i < |order| ==> order[i] in machines) ==>
      |r| == |order| && forall i :: 0 <= i < |r| ==> r[i] == machines[order[i]].groupId
  {
    if |order| == 0 then []
    else
      var rest := GroupsInOrder(order[1..], machines);
      if order[0] in machines then [machines[order[0]].groupId] + rest else rest
  }

  /** One group per machine: the list has as many entries as there are machines. */
  lemma SelectableCount(mgr: MachineManager)
    requires Valid(mgr)
    ensures |GetSelectableObjects(mgr)| == |mgr.machines|
  {
    OrderCoversKeys(mgr.order, mgr.machines.Keys);
  }

  /** A duplicate-free listing of exactly the elements of `keys` has `|keys|` entries. */
  lemma {:induction false} OrderCoversKeys(order: seq<string>, keys: set<string>)
    requires ShelfModel.NoDuplicates(order)
    requires forall i :: 0 <= i < |order| ==> order[i] in keys
    requires forall k :: k in keys ==> k in order
    ensures |order| == |keys|
    decreases |order|
  {
    if |order| == 0 {
      assert keys == {};
    } else {
      var last := order[|order| - 1];
      var init := order[..|order| - 1];
      assert forall i :: 0 <= i < |init| ==> init[i] == order[i];
      forall k | k in keys - {last} ensures k in init {
        var i :| 0 <= i < |order| && order[i] == k;
        assert i != |order| - 1;
      }
      OrderCoversKeys(init, keys - {last});
    }
  }

  /** Whether the machine stored under `k` owns `group`: it is the machine's
      group, or a direct child of it. */
  predicate Owns(machines: map<string, Machine>, k: string, group: NodeId) {
    k in machines && (machines[k].groupId == group || group in machines[k].groupChildren)
  }

  /** The position in `order` of the first machine that owns `group`. */
  function FirstOwner(order: seq<string>, machines: map<string, Machine>, group: NodeId): (r: Option<nat>)
    ensures r.Some? ==> r.value < |order| && Owns(machines, order[r.value], group)
    ensures r.Some? ==> forall i :: 0 <= i < r.value ==> !Owns(machines, order[i], group)
    ensures r.None? ==> forall i :: 0 <= i < |order| ==> !Owns(machines, order[i], group)
  {
    if |order| == 0 then None
    else if Owns(machines, order[0], group) then Some(0)
    else
      var rest := FirstOwner(order[1..], machines, group);
      if rest.Some? then Some(rest.value + 1) else None
  }

  /** `getMachineByGroup(group)`: the first machine, in insertion order, that
      owns the group; `None` when none does. */
  function GetMachineByGroup(mgr: MachineManager, group: NodeId): (r: Option<Machine>)
    ensures r.Some? ==> exists k :: Owns(mgr.machines, k, group) && r.value == mgr.machines[k]
    ensures Valid(mgr) && r.None? ==> forall k :: k in mgr.machines ==> !Owns(mgr.machines, k, group)
  {
    var i := FirstOwner(mgr.order, mgr.machines, group);
    if i.Some? then Some(mgr.machines[mgr.order[i.value]]) else None
  }

  /** In a valid manager the machine found is the first owner in insertion
      order: every machine inserted before it does not own the group. */
  lemma GetMachineByGroupFirst(mgr: MachineManager, group: NodeId, j: nat)
    requires Valid(mgr)
    requires j < |mgr.order| && Owns(mgr.machines, mgr.order[j], group)
    ensures GetMachineByGroup(mgr, group).Some?
    ensures exists i :: 0 <= i <= j && GetMachineByGroup(mgr, group) == Some(mgr.machines[mgr.order[i]])
  {
    var i := FirstOwner(mgr.order, mgr.machines, group);
    assert i.Some? && i.value <= j;
  }

  /** `dispose()`: the map is emptied, but the selected id is kept. */
  function Dispose(mgr: MachineManager): (r: MachineManager)
    ensures Valid(r) && r.machines == map[] && r.order == []
    ensures r.selectedMachineId == mgr.selectedMachineId
  {
    mgr.(machines := map[], order := [])
  }
}
