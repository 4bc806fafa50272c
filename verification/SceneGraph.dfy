/**
 * The scene graph as the core sees it: a finite tree of objects, each with an
 * identity, a name, a kind (group, mesh, light, other), a visibility flag, a
 * `userData` tag and its children. `Object3D.traverse` is the pre-order walk
 * `Flatten`.
 */
module SceneGraph {

  /** Object identity: two nodes with the same id are the same three.js object. */
  type NodeId = nat

  /** The geometry a mesh carries; `NoGeometry` is a mesh whose `geometry` is falsy. */
  datatype Geometry =
    | NoGeometry
    | PlaneGeometry(width: real, height: real)
    | BoxGeometry(width: real, height: real, depth: real)
    | OtherGeometry

  datatype Kind =
    | Group
    | Mesh(geometry: Geometry)
    | Light(lightType: string, intensity: real)
    | OtherObject

  /** `userData`, as the tagged union the design calls for: either nothing the
      core reads, or the product record the classifier writes. */
  datatype Tag =
    | Untagged
    | ProductTag(productId: string, productName: string, description: string, shelfId: string)

  datatype Node = Node(id: NodeId, name: string, kind: Kind, visible: bool, userData: Tag, children: seq<Node>)

  predicate IsMesh(n: Node) {
    n.kind.Mesh?
  }

  /** `userData?.type === "product"`. */
  predicate IsProductTagged(n: Node) {
    n.userData.ProductTag?
  }

  /** `Object3D.traverse`: the node itself, then each child's subtree in order. */
  function Flatten(t: Node): (r: seq<Node>)
    ensures |r| >= 1 && r[0] == t
    decreases t
  {
    [t] + FlattenAll(t.children)
  }

  function FlattenAll(ts: seq<Node>): seq<Node>
    decreases ts
  {
    if |ts| == 0 then [] else Flatten(ts[0]) + FlattenAll(ts[1..])
  }

  /** The identities of the meshes inside a subtree, the subtree's root included. */
  function MeshIds(t: Node): set<NodeId> {
    set n | n in Flatten(t) && IsMesh(n) :: n.id
  }

  /** Every object of the subtree appears once: ids are distinct along the traversal. */
  predicate UniqueIds(nodes: seq<Node>) {
    forall i, j :: 0 <= i < j < |nodes| ==> nodes[i].id != nodes[j].id
  }

  function Ids(nodes: seq<Node>): set<NodeId> {
    set n | n in nodes :: n.id
  }

  /** The nodes `accept` admits, in their original order. */
  function Accepted(nodes: seq<Node>, accept: Node -> bool): (r: seq<Node>)
    ensures |r| <= |nodes|
    ensures forall i :: 0 <= i < |r| ==> accept(r[i])
  {
    if |nodes| == 0 then []
    else if accept(nodes[0]) then [nodes[0]] + Accepted(nodes[1..], accept)
    else Accepted(nodes[1..], accept)
  }

  /** Every admitted node of the traversal is among the accepted ones. */
  lemma {:induction false} AcceptedComplete(nodes: seq<Node>, accept: Node -> bool, q: nat)
    requires q < |nodes| && accept(nodes[q])
    ensures nodes[q] in Accepted(nodes, accept)
  {
    if q > 0 {
      AcceptedComplete(nodes[1..], accept, q - 1);
      assert nodes[1..][q - 1] == nodes[q];
    }
  }

  /** Each accepted node sits at some position of the traversal. */
  lemma {:induction false} AcceptedIndex(nodes: seq<Node>, accept: Node -> bool, j: nat) returns (q: nat)
    requires j < |Accepted(nodes, accept)|
    ensures q < |nodes| && nodes[q] == Accepted(nodes, accept)[j]
  {
    if accept(nodes[0]) && j == 0 {
      q := 0;
    } else {
      var q' := AcceptedIndex(nodes[1..], accept, if accept(nodes[0]) then j - 1 else j);
      q := q' + 1;
    }
  }

  /** Distinct objects stay distinct among the accepted ones. */
  lemma {:induction false} AcceptedUnique(nodes: seq<Node>, accept: Node -> bool)
    requires UniqueIds(nodes)
    ensures UniqueIds(Accepted(nodes, accept))
  {
    if |nodes| > 0 {
      var tail := nodes[1..];
      assert UniqueIds(tail) by {
        forall i, j | 0 <= i < j < |tail| ensures tail[i].id != tail[j].id {
          assert tail[i] == nodes[i + 1] && tail[j] == nodes[j + 1];
        }
      }
      AcceptedUnique(tail, accept);
      var rest := Accepted(tail, accept);
      if accept(nodes[0]) {
        forall j | 0 <= j < |rest|
          ensures nodes[0].id != rest[j].id
        {
          var q := AcceptedIndex(tail, accept, j);
          assert nodes[q + 1] == rest[j];
        }
        var acc := Accepted(nodes, accept);
        assert acc == [nodes[0]] + rest;
        forall a, b | 0 <= a < b < |acc| ensures acc[a].id != acc[b].id {
          assert acc[b] == rest[b - 1];
          if a > 0 {
            assert acc[a] == rest[a - 1];
          }
        }
      }
    }
  }

  /** Membership in the filtered sequence, both ways. */
  lemma AcceptedMember(nodes: seq<Node>, accept: Node -> bool, n: Node)
    ensures n in Accepted(nodes, accept) <==> n in nodes && accept(n)
  {
    var acc := Accepted(nodes, accept);
    if n in acc {
      var j :| 0 <= j < |acc| && acc[j] == n;
      var q := AcceptedIndex(nodes, accept, j);
    }
    if n in nodes && accept(n) {
      var q :| 0 <= q < |nodes| && nodes[q] == n;
      AcceptedComplete(nodes, accept, q);
    }
  }

  /** Every object of one of the trees is met by the walk over all of them. */
  lemma {:induction false} FlattenAllContains(ts: seq<Node>, i: nat, n: Node)
    requires i < |ts| && n in Flatten(ts[i])
    ensures n in FlattenAll(ts)
    decreases i
  {
    if i > 0 {
      FlattenAllContains(ts[1..], i - 1, n);
      assert ts[1..][i - 1] == ts[i];
    }
  }

  /** The traversal of a node reaches every object below each of its children. */
  lemma SubtreeInFlatten(t: Node, i: nat, n: Node)
    requires i < |t.children| && n in Flatten(t.children[i])
    ensures n in Flatten(t)
  {
    FlattenAllContains(t.children, i, n);
  }
}
