/**
 * `meshFilter.ts`: which objects count as selectable product meshes, and the
 * walk up a hit object's parent chain, at most ten levels, to the first one.
 */
module MeshFilter {
  import opened Base
  import opened Strings
  import opened SceneGraph

  /** Names containing one of these (after lower-casing) are never selectable. */
  const ForbiddenKeywords: seq<string> := ["material", "mat", "helper", "floor", "collision"]

  /** How many objects of the chain the walk examines at most. */
  const MaxDepth: nat := 10

  /** `isSelectable(mesh)`: `None` stands for null or undefined. The keyword
      test looks at the whole lower-cased name, white space included. */
  predicate IsSelectable(o: Option<Node>) {
    && o.Some?
    && o.value.kind.Mesh?
    && o.value.visible
    && |o.value.name| > 0 && |Trim(o.value.name)| > 0
    && !ContainsAny(Lower(o.value.name), ForbiddenKeywords)
  }

  /** The keyword test spelled out; "material" adds nothing, since every
      name containing it also contains "mat". */
  lemma ForbiddenNameKeywords(l: string)
    ensures ContainsAny(l, ForbiddenKeywords) <==>
      Contains(l, "mat") || Contains(l, "helper") || Contains(l, "floor") || Contains(l, "collision")
  {
    var k1 := ForbiddenKeywords[1..];
    var k2 := k1[1..];
    var k3 := k2[1..];
    var k4 := k3[1..];
    assert k4 == ["collision"] && k4[1..] == [];
    assert ContainsAny(l, k4) <==> Contains(l, "collision");
    assert k3 == ["floor", "collision"];
    assert ContainsAny(l, k3) <==> Contains(l, "floor") || ContainsAny(l, k4);
    assert k2 == ["helper", "floor", "collision"];
    assert ContainsAny(l, k2) <==> Contains(l, "helper") || ContainsAny(l, k3);
    assert k1 == ["mat", "helper", "floor", "collision"];
    assert ContainsAny(l, k1) <==> Contains(l, "mat") || ContainsAny(l, k2);
    if Contains(l, "material") {
      assert OccursAt("material", "mat", 0);
      ContainsAt("material", "mat");
      ContainsSub(l, "material", "mat");
    }
  }

  /** A node is selectable exactly when it is a visible mesh whose name is
      not all white space and, once lower-cased, contains none of "mat",
      "helper", "floor" and "collision". */
  lemma SelectableRules(n: Node)
    ensures IsSelectable(Some(n)) <==>
      && n.kind.Mesh?
      && n.visible
      && !AllWhitespace(n.name)
      && !Contains(Lower(n.name), "mat")
      && !Contains(Lower(n.name), "helper")
      && !Contains(Lower(n.name), "floor")
      && !Contains(Lower(n.name), "collision")
  {
    TrimEmptyIffAllWhitespace(n.name);
    ForbiddenNameKeywords(Lower(n.name));
  }

  /** Because "mat" is a keyword, a product named "Tomato" is never selectable. */
  lemma TomatoRejected(n: Node)
    requires n.name == "Tomato"
    ensures !IsSelectable(Some(n))
  {
    var l := Lower(n.name);
    assert l[2] == 'm' && l[3] == 'a' && l[4] == 't';
    assert l[2..5] == "mat";
    assert OccursAt(l, "mat", 2);
    ContainsAt(l, "mat");
    SelectableRules(n);
  }

  /** The walk of `findSelectableProductMesh` for any test `accept`: the
      first accepted object among the first `MaxDepth` of the chain, and how
      many objects were examined. */
  method FirstAccepted(chain: seq<Node>, accept: Node -> bool) returns (r: Option<Node>, depth: nat)
    ensures r.Some? ==>
      && depth < MaxDepth && depth < |chain|
      && chain[depth] == r.value && accept(r.value)
      && (forall e :: 0 <= e < depth ==> !accept(chain[e]))
    ensures r.None? ==>
      && depth == (if |chain| < MaxDepth then |chain| else MaxDepth)
      && (forall e :: 0 <= e < depth ==> !accept(chain[e]))
  {
    depth := 0;
    while depth < |chain| && depth < MaxDepth
      invariant depth <= |chain| && depth <= MaxDepth
      invariant forall e :: 0 <= e < depth ==> !accept(chain[e])
    {
      if accept(chain[depth]) {
        return Some(chain[depth]), depth;
      }
      depth := depth + 1;
    }
    r := None;
  }

  /** `findSelectableProductMesh`: `chain` is the hit object followed by its
      ancestors, nearest first (empty when the hit is null). Returns the first
      selectable object among the first `MaxDepth` of the chain, and how many
      objects were examined; null when the chain ends or `MaxDepth` objects
      pass without one. */
  method FindSelectableProductMesh(chain: seq<Node>) returns (r: Option<Node>, depth: nat)
    ensures |chain| == 0 ==> r.None?
    ensures r.Some? ==>
      && depth < MaxDepth && depth < |chain|
      && chain[depth] == r.value && IsSelectable(Some(r.value))
      && (forall e :: 0 <= e < depth ==> !IsSelectable(Some(chain[e])))
    ensures r.None? ==>
      && depth == (if |chain| < MaxDepth then |chain| else MaxDepth)
      && (forall e :: 0 <= e < depth ==> !IsSelectable(Some(chain[e])))
  {
    if |chain| == 0 {
      return None, 0;
    }
    r, depth := FirstAccepted(chain, (n: Node) => n.kind.Mesh? && IsSelectable(Some(n)));
  }
}
