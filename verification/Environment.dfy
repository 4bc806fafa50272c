/**
 * `addAmbientLighting`: every ambient light among the scene's direct
 * children is dropped and one new ambient light of intensity 0.7 is added.
 */
module Environment {
  import opened SceneGraph

  const AmbientType: string := "AmbientLight"
  const AmbientIntensity: real := 0.7

  /** `child instanceof THREE.Light && child.type === "AmbientLight"`. */
  predicate IsAmbientLight(n: Node) {
    n.kind.Light? && n.kind.lightType == AmbientType
  }

  predicate NotAmbient(n: Node) {
    !IsAmbientLight(n)
  }

  /** How many ambient lights a list of children holds. */
  function AmbientCount(children: seq<Node>): nat {
    if |children| == 0 then 0
    else (if IsAmbientLight(children[0]) then 1 else 0) + AmbientCount(children[1..])
  }

  lemma {:induction false} AmbientCountAppend(a: seq<Node>, b: seq<Node>)
    ensures AmbientCount(a + b) == AmbientCount(a) + AmbientCount(b)
  {
    if |a| > 0 {
      assert (a + b)[1..] == a[1..] + b;
      AmbientCountAppend(a[1..], b);
    } else {
      assert a + b == b;
    }
  }

  /** A filtered list holds no ambient light. */
  lemma {:induction false} FilteredHasNoAmbient(children: seq<Node>)
    ensures AmbientCount(Accepted(children, NotAmbient)) == 0
  {
    if |children| > 0 {
      FilteredHasNoAmbient(children[1..]);
      if NotAmbient(children[0]) {
        AmbientCountAppend([children[0]], Accepted(children[1..], NotAmbient));
      }
    }
  }

  /** The light `new THREE.AmbientLight(0xffffff, 0.7)` creates. */
  function NewAmbientLight(id: NodeId): (n: Node)
    ensures IsAmbientLight(n) && n.kind.intensity == AmbientIntensity
  {
    Node(id, "", Light(AmbientType, AmbientIntensity), true, Untagged, [])
  }

  /** `addAmbientLighting(scene)`; `id` is the new light's identity. */
  function AddAmbientLighting(scene: Node, id: NodeId): (r: Node)
    ensures |r.children| > 0 && r.children[|r.children| - 1] == NewAmbientLight(id)
    ensures r.children[..|r.children| - 1] == Accepted(scene.children, NotAmbient)
    ensures r == scene.(children := r.children)
  {
    var kept := Accepted(scene.children, NotAmbient);
    assert (kept + [NewAmbientLight(id)])[..|kept|] == kept;
    scene.(children := kept + [NewAmbientLight(id)])
  }

  /** Afterwards the scene's direct children hold exactly one ambient light,
      the new one, in last place; every other child is exactly a child that
      was not an ambient light. */
  lemma AmbientLightingUnique(scene: Node, id: NodeId)
    ensures AmbientCount(AddAmbientLighting(scene, id).children) == 1
    ensures forall c :: c in AddAmbientLighting(scene, id).children[..|AddAmbientLighting(scene, id).children| - 1] <==>
      c in scene.children && !IsAmbientLight(c)
  {
    var kept := Accepted(scene.children, NotAmbient);
    var r := AddAmbientLighting(scene, id);
    assert r.children == kept + [NewAmbientLight(id)];
    FilteredHasNoAmbient(scene.children);
    AmbientCountAppend(kept, [NewAmbientLight(id)]);
    assert AmbientCount([NewAmbientLight(id)]) == 1;
    forall c ensures c in kept <==> c in scene.children && !IsAmbientLight(c) {
      AcceptedMember(scene.children, NotAmbient, c);
    }
  }

  /** Calling it again never stacks lights: the count stays one however many
      times it runs. */
  lemma AmbientLightingTwice(scene: Node, id1: NodeId, id2: NodeId)
    ensures AmbientCount(AddAmbientLighting(AddAmbientLighting(scene, id1), id2).children) == 1
    ensures |AddAmbientLighting(AddAmbientLighting(scene, id1), id2).children| == |AddAmbientLighting(scene, id1).children|
  {
    var once := AddAmbientLighting(scene, id1);
    AmbientLightingUnique(once, id2);
    var kept := Accepted(scene.children, NotAmbient);
    assert once.children == kept + [NewAmbientLight(id1)];
    KeepAllNonAmbient(kept);
    assert Accepted(once.children, NotAmbient) == kept by {
      AcceptedAppendAmbient(kept, NewAmbientLight(id1));
    }
  }

  /** Filtering a list without ambient lights leaves it as it is. */
  lemma {:induction false} KeepAllNonAmbient(s: seq<Node>)
    requires forall i :: 0 <= i < |s| ==> NotAmbient(s[i])
    ensures Accepted(s, NotAmbient) == s
  {
    if |s| > 0 {
      KeepAllNonAmbient(s[1..]);
      assert [s[0]] + s[1..] == s;
    }
  }

  /** Filtering drops a trailing ambient light. */
  lemma {:induction false} AcceptedAppendAmbient(s: seq<Node>, light: Node)
    requires IsAmbientLight(light)
    ensures Accepted(s + [light], NotAmbient) == Accepted(s, NotAmbient)
  {
    if |s| == 0 {
      assert [] + [light] == [light];
      assert [light][1..] == [];
    } else {
      assert (s + [light])[1..] == s[1..] + [light];
      AcceptedAppendAmbient(s[1..], light);
    }
  }
}
