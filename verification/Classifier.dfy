/**
 * The product classifier of `ShelfManager.traverseAndRegisterProducts`:
 * which meshes of a loaded model become products, and the record, `meshId`
 * and `userData` each one receives.
 */
module Classifier {
  import opened Strings
  import opened SceneGraph
  import opened ShelfModel

  /** Names containing one of these (after lower-casing) are shelf structure. */
  const GenericKeywords: seq<string> := ["frame", "rack", "support", "shelf"]

  /** Why a node was or was not registered. */
  datatype Verdict = NotAMesh | Unnamed | TooShort | Generic | Product

  /** The traversal only looks at meshes with a geometry. */
  predicate IsCandidate(n: Node) {
    n.kind.Mesh? && !n.kind.geometry.NoGeometry?
  }

  /** A lower-cased name naming shelf structure. */
  predicate IsGenericName(lowerName: string) {
    ContainsAny(lowerName, GenericKeywords)
  }

  /** The keyword test spelled out: one of the four keywords occurs. */
  lemma GenericNameKeywords(l: string)
    ensures IsGenericName(l) <==>
      Contains(l, "frame") || Contains(l, "rack") || Contains(l, "support") || Contains(l, "shelf")
  {
    var k1 := GenericKeywords[1..];
    var k2 := k1[1..];
    var k3 := k2[1..];
    assert k3 == ["shelf"] && k3[1..] == [];
    assert ContainsAny(l, k3) <==> Contains(l, "shelf");
    assert k2 == ["support", "shelf"];
    assert ContainsAny(l, k2) <==> Contains(l, "support") || ContainsAny(l, k3);
    assert k1 == ["rack", "support", "shelf"];
    assert ContainsAny(l, k1) <==> Contains(l, "rack") || ContainsAny(l, k2);
  }

  /** The rejection rules, checked in the order the source checks them. */
  function Classify(n: Node): Verdict {
    if !IsCandidate(n) then NotAMesh
    else if |Trim(n.name)| == 0 then Unnamed
    else if |Trim(n.name)| <= 2 then TooShort
    else if IsGenericName(Lower(Trim(n.name))) then Generic
    else Product
  }

  predicate IsProduct(n: Node) {
    Classify(n) == Product
  }

  /** A node is registered exactly when it is a mesh with geometry whose
      trimmed name is longer than two characters, is not all white space,
      and whose lower-cased form contains none of the structural keywords. */
  lemma ProductRules(n: Node)
    ensures IsProduct(n) <==>
      && IsCandidate(n)
      && !AllWhitespace(n.name)
      && |Trim(n.name)| > 2
      && !Contains(Lower(Trim(n.name)), "frame")
      && !Contains(Lower(Trim(n.name)), "rack")
      && !Contains(Lower(Trim(n.name)), "support")
      && !Contains(Lower(Trim(n.name)), "shelf")
  {
    TrimEmptyIffAllWhitespace(n.name);
    GenericNameKeywords(Lower(Trim(n.name)));
  }

  /** `${shelfId}_product_${k}`. */
  function MeshId(shelfId: string, k: nat): string {
    shelfId + "_product_" + NatToString(k)
  }

  /** Different ordinals within one shelf give different mesh ids. */
  lemma MeshIdInjective(shelfId: string, j: nat, k: nat)
    requires MeshId(shelfId, j) == MeshId(shelfId, k)
    ensures j == k
  {
    var p := shelfId + "_product_";
    assert NatToString(j) == MeshId(shelfId, j)[|p|..];
    assert NatToString(k) == MeshId(shelfId, k)[|p|..];
    NatToStringInjective(j, k);
  }

  /** An accepted mesh together with the ordinal the traversal gave it. */
  datatype Registration = Registration(node: Node, ordinal: nat)

  /** The `meshId` key of a registration. */
  function RegMeshId(shelfId: string, r: Registration): string {
    MeshId(shelfId, r.ordinal)
  }

  /** The product record the source builds for an accepted mesh. */
  function RegData(shelfId: string, r: Registration): (d: ProductData)
    ensures d.meshId == RegMeshId(shelfId, r) && d.shelfId == shelfId
    ensures d.productName == Trim(r.node.name)
    ensures d.description == Trim(r.node.name) + " product"
    ensures d.productId == Slug(Trim(r.node.name))
  {
    var meshName := Trim(r.node.name);
    ProductData(Slug(meshName), meshName, meshName + " product", shelfId, MeshId(shelfId, r.ordinal))
  }

  /** The `userData` the source writes on an accepted mesh: the same fields as
      the record, marked as a product. */
  function RegTag(shelfId: string, r: Registration): (t: Tag)
    ensures t.ProductTag?
    ensures t.productId == RegData(shelfId, r).productId
    ensures t.productName == RegData(shelfId, r).productName
    ensures t.description == RegData(shelfId, r).description
    ensures t.shelfId == RegData(shelfId, r).shelfId
  {
    var meshName := Trim(r.node.name);
    ProductTag(Slug(meshName), meshName, meshName + " product", shelfId)
  }

  /** The traversal with its counter: nodes in pre-order, ordinal `k` for
      the next node `accept` admits. */
  function Numbered(nodes: seq<Node>, accept: Node -> bool, k: nat): seq<Registration> {
    if |nodes| == 0 then []
    else if accept(nodes[0]) then [Registration(nodes[0], k)] + Numbered(nodes[1..], accept, k + 1)
    else Numbered(nodes[1..], accept, k)
  }

  /** What `traverseAndRegisterProducts` registers for a model, in order. */
  function Registrations(model: Node): seq<Registration> {
    Numbered(Flatten(model), IsProduct, 0)
  }

  /** One registration per admitted node. */
  lemma {:induction false} NumberedCount(nodes: seq<Node>, accept: Node -> bool, k: nat)
    ensures |Numbered(nodes, accept, k)| == |Accepted(nodes, accept)|
  {
    if |nodes| > 0 {
      NumberedCount(nodes[1..], accept, if accept(nodes[0]) then k + 1 else k);
    }
  }

  /** The i-th admitted node gets ordinal `ord == k + i`. */
  lemma {:induction false} NumberedAt(nodes: seq<Node>, accept: Node -> bool, k: nat, i: nat, ord: nat)
    requires i < |Accepted(nodes, accept)| && ord == k + i
    ensures |Numbered(nodes, accept, k)| == |Accepted(nodes, accept)|
    ensures Numbered(nodes, accept, k)[i] == Registration(Accepted(nodes, accept)[i], ord)
  {
    NumberedCount(nodes, accept, k);
    var head := nodes[0];
    var tail := nodes[1..];
    if accept(head) {
      assert Accepted(nodes, accept) == [head] + Accepted(tail, accept);
      assert Numbered(nodes, accept, k) == [Registration(head, k)] + Numbered(tail, accept, k + 1);
      if i > 0 {
        NumberedAt(tail, accept, k + 1, i - 1, ord);
        assert Accepted(nodes, accept)[i] == Accepted(tail, accept)[i - 1];
        assert Numbered(nodes, accept, k)[i] == Numbered(tail, accept, k + 1)[i - 1];
      }
    } else {
      assert Accepted(nodes, accept) == Accepted(tail, accept);
      assert Numbered(nodes, accept, k) == Numbered(tail, accept, k);
      NumberedAt(tail, accept, k, i, ord);
    }
  }

  /** The i-th accepted mesh of a model, in pre-order, is registered with
      ordinal i; only accepted meshes are registered. */
  lemma RegistrationsOrdinals(model: Node)
    ensures |Registrations(model)| == |Accepted(Flatten(model), IsProduct)|
    ensures forall i :: 0 <= i < |Registrations(model)| ==>
      Registrations(model)[i] == Registration(Accepted(Flatten(model), IsProduct)[i], i)
  {
    var nodes := Flatten(model);
    NumberedCount(nodes, IsProduct, 0);
    forall i | 0 <= i < |Registrations(model)|
      ensures Registrations(model)[i] == Registration(Accepted(nodes, IsProduct)[i], i)
    {
      NumberedAt(nodes, IsProduct, 0, i, i);
    }
  }

  /** The mesh ids of one shelf's registrations are pairwise distinct. */
  lemma RegistrationsDistinctMeshIds(shelfId: string, model: Node, i: nat, j: nat)
    requires i < j < |Registrations(model)|
    ensures RegMeshId(shelfId, Registrations(model)[i]) != RegMeshId(shelfId, Registrations(model)[j])
  {
    RegistrationsOrdinals(model);
    if RegMeshId(shelfId, Registrations(model)[i]) == RegMeshId(shelfId, Registrations(model)[j]) {
      MeshIdInjective(shelfId, i, j);
    }
  }
}
