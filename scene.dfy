/**
 The scene graph as an arena of nodes.

 Every `VulkanglTFModel::Node*` of the source becomes a position in one
 `seq<Node>`; `parent` and `children` hold positions. A node is pushed into
 the arena before any of its children, so a parent always sits at a lower
 position than its children; `ValidArena` states this together with the
 agreement of the parent and child links.
 */
module Scene {
  import opened GltfTypes
  import opened Transform

  /** One draw range of the shared index buffer, bound to one material (-1: none). */
  datatype Primitive = Primitive(firstIndex: uint32, indexCount: uint32, materialIndex: int)

  datatype Node = Node(
    parent: Option<nat>,
    children: seq<nat>,
    mesh: seq<Primitive>,
    index: nat,
    translation: Vec3,
    scale: Vec3,
    rotation: Quat,
    matrix: Matrix)

  /** The value-initialised rotation of `Node{}`: all four components zero. */
  const DefaultRotation: Quat := Quat(0.0, 0.0, 0.0, 0.0)

  /** `new Node{}` followed by `matrix = glm::mat4(1.0f)`, `parent = ...`, `index = ...`. */
  function FreshNode(index: nat, parent: Option<nat>): Node
  {
    Node(parent, [], [], index, Zero3, One3, DefaultRotation, Identity)
  }

  /** Node::getLocalMatrix: translate * rotate * scale * matrix. */
  function LocalMatrix(n: Node): Matrix
  {
    Mul(TranslateM(n.translation), Mul(RotateM(n.rotation), Mul(ScaleM(n.scale), n.matrix)))
  }

  /** A node with default transform components has the identity as local matrix;
      one that differs only by a translation has the pure translation. */
  lemma LocalMatrixDefaults(index: nat, parent: Option<nat>, t: Vec3)
    ensures LocalMatrix(FreshNode(index, parent)) == Identity
    ensures LocalMatrix(FreshNode(index, parent).(translation := t)) == TranslateM(t)
  {
    var n := FreshNode(index, parent);
    assert TranslateM(t).factors + [] == TranslateM(t).factors;
  }

  ghost predicate NodeLinked(arena: seq<Node>, i: nat)
    requires i < |arena|
  {
    && (arena[i].parent.Some? ==> arena[i].parent.value < i)
    && forall k :: 0 <= k < |arena[i].children| ==>
         && i < arena[i].children[k] < |arena|
         && arena[arena[i].children[k]].parent == Some(i)
  }

  /** The tree shape the loader builds: parents before children, links agree both ways. */
  ghost predicate ValidArena(arena: seq<Node>)
  {
    forall i :: 0 <= i < |arena| ==> NodeLinked(arena, i)
  }

  ghost predicate AllIn(xs: seq<nat>, bound: nat)
  {
    forall j :: 0 <= j < |xs| ==> xs[j] < bound
  }

  // ---------------------------------------------------------------------------
  // World transforms

  /** The world transform: the parent's world transform times the local one. */
  ghost function WorldMatrix(arena: seq<Node>, i: nat): Matrix
    requires ValidArena(arena) && i < |arena|
    decreases i
  {
    assert NodeLinked(arena, i);
    match arena[i].parent
    case None => LocalMatrix(arena[i])
    case Some(p) => Mul(WorldMatrix(arena, p), LocalMatrix(arena[i]))
  }

  /** The ancestor chain of a node, root first, ending with the node itself. */
  ghost function Chain(arena: seq<Node>, i: nat): (c: seq<nat>)
    requires ValidArena(arena) && i < |arena|
    ensures |c| > 0 && c[|c| - 1] == i && AllIn(c, |arena|)
    ensures arena[c[0]].parent.None?
    ensures forall j :: 0 <= j < |c| - 1 ==> arena[c[j + 1]].parent == Some(c[j])
    decreases i
  {
    assert NodeLinked(arena, i);
    match arena[i].parent
    case None => [i]
    case Some(p) => Chain(arena, p) + [i]
  }

  /** L(c[0]) * L(c[1]) * ... * L(c[|c|-1]). */
  ghost function ChainProduct(arena: seq<Node>, c: seq<nat>): Matrix
    requires AllIn(c, |arena|)
  {
    if c == [] then Identity
    else Mul(LocalMatrix(arena[c[0]]), ChainProduct(arena, c[1..]))
  }

  lemma {:induction false} ChainProductSnoc(arena: seq<Node>, c: seq<nat>, x: nat)
    requires AllIn(c, |arena|) && x < |arena|
    ensures ChainProduct(arena, c + [x]) == Mul(ChainProduct(arena, c), LocalMatrix(arena[x]))
  {
    if c == [] {
      assert ChainProduct(arena, [x]) == Mul(LocalMatrix(arena[x]), Identity);
      MulMonoid(LocalMatrix(arena[x]), Identity, Identity);
    } else {
      assert (c + [x])[1..] == c[1..] + [x];
      ChainProductSnoc(arena, c[1..], x);
      MulMonoid(LocalMatrix(arena[c[0]]), ChainProduct(arena, c[1..]), LocalMatrix(arena[x]));
    }
  }

  /** getNodeMatrix(n) == L(root) * ... * L(parent) * L(n). */
  lemma {:induction false} WorldIsChainProduct(arena: seq<Node>, i: nat)
    requires ValidArena(arena) && i < |arena|
    ensures WorldMatrix(arena, i) == ChainProduct(arena, Chain(arena, i))
    decreases i
  {
    assert NodeLinked(arena, i);
    match arena[i].parent
    case None =>
      assert ChainProduct(arena, [i]) == Mul(LocalMatrix(arena[i]), Identity);
      MulMonoid(LocalMatrix(arena[i]), Identity, Identity);
    case Some(p) =>
      WorldIsChainProduct(arena, p);
      ChainProductSnoc(arena, Chain(arena, p), i);
  }

  /** A root's world transform is its local one; a direct child of a root has L(parent) * L(child). */
  lemma WorldOfRootAndChild(arena: seq<Node>, i: nat, p: nat)
    requires ValidArena(arena) && i < |arena| && p < |arena|
    ensures arena[i].parent.None? ==> WorldMatrix(arena, i) == LocalMatrix(arena[i])
    ensures arena[i].parent == Some(p) && arena[p].parent.None? ==>
      WorldMatrix(arena, i) == Mul(LocalMatrix(arena[p]), LocalMatrix(arena[i]))
  {
    assert NodeLinked(arena, i);
  }

  /** Root scaled by 2, child A translated by (1, 0, 0), grandchild B untransformed:
      B's origin lands at (2, 0, 0). */
  lemma ChainScenario()
    ensures
      var root := FreshNode(0, None).(children := [1], scale := Vec3(2.0, 2.0, 2.0));
      var a := FreshNode(1, Some(0)).(children := [2], translation := Vec3(1.0, 0.0, 0.0));
      var b := FreshNode(2, Some(1));
      var arena := [root, a, b];
      ValidArena(arena) &&
      Apply(WorldMatrix(arena, 2), Vec4(0.0, 0.0, 0.0, 1.0)) == Vec4(2.0, 0.0, 0.0, 1.0)
  {
    var root := FreshNode(0, None).(children := [1], scale := Vec3(2.0, 2.0, 2.0));
    var a := FreshNode(1, Some(0)).(children := [2], translation := Vec3(1.0, 0.0, 0.0));
    var b := FreshNode(2, Some(1));
    var arena := [root, a, b];
    assert NodeLinked(arena, 0) && NodeLinked(arena, 1) && NodeLinked(arena, 2);
    var s, t := Matrix([Scale(Vec3(2.0, 2.0, 2.0))]), Matrix([Translate(Vec3(1.0, 0.0, 0.0))]);
    assert LocalMatrix(root) == s;
    assert LocalMatrix(a) == t;
    assert LocalMatrix(b) == Identity;
    assert WorldMatrix(arena, 2) == Mul(Mul(s, t), Identity);
    var o := Vec4(0.0, 0.0, 0.0, 1.0);
    ApplyMul(Mul(s, t), Identity, o);
    ApplyMul(s, t, o);
    assert Apply(t, o) == Vec4(1.0, 0.0, 0.0, 1.0) by {
      assert t.factors[1..] == [];
    }
    assert s.factors[1..] == [];
  }

  // ---------------------------------------------------------------------------
  // Depth-first order and search by glTF node index

  /** A node followed by the depth-first pre-order of each child, in child order:
      the order findNode visits, and the nodes ~Node deletes. */
  ghost function Preorder(arena: seq<Node>, p: nat): seq<nat>
    requires ValidArena(arena) && p < |arena|
    decreases |arena| - p, 1
  {
    assert NodeLinked(arena, p);
    [p] + PreorderOf(arena, p, arena[p].children)
  }

  /** The pre-orders of the nodes `cs`, all children-positions above `p`, concatenated. */
  ghost function PreorderOf(arena: seq<Node>, p: nat, cs: seq<nat>): seq<nat>
    requires ValidArena(arena) && p < |arena|
    requires forall k :: 0 <= k < |cs| ==> p < cs[k] < |arena|
    decreases |arena| - p, 0, |cs|
  {
    if cs == [] then [] else Preorder(arena, cs[0]) + PreorderOf(arena, p, cs[1..])
  }

  /** The pre-orders of the roots, in root order. */
  ghost function ForestPreorder(arena: seq<Node>, roots: seq<nat>): seq<nat>
    requires ValidArena(arena) && AllIn(roots, |arena|)
  {
    if roots == [] then [] else Preorder(arena, roots[0]) + ForestPreorder(arena, roots[1..])
  }

  /** The first node of `xs` whose glTF index is `k`. */
  function FirstMatch(arena: seq<Node>, xs: seq<nat>, k: nat): (r: Option<nat>)
    requires AllIn(xs, |arena|)
    ensures r.None? <==> forall j :: 0 <= j < |xs| ==> arena[xs[j]].index != k
    ensures r.Some? ==> exists j :: 0 <= j < |xs| && xs[j] == r.value && arena[r.value].index == k
                                 && forall i :: 0 <= i < j ==> arena[xs[i]].index != k
  {
    if xs == [] then None
    else if arena[xs[0]].index == k then Some(xs[0])
    else
      var r := FirstMatch(arena, xs[1..], k);
      assert forall j :: 1 <= j < |xs| ==> xs[j] == xs[1..][j - 1];
      r
  }

  lemma {:induction false} FirstMatchAppend(arena: seq<Node>, a: seq<nat>, b: seq<nat>, k: nat)
    requires AllIn(a, |arena|) && AllIn(b, |arena|)
    ensures AllIn(a + b, |arena|)
    ensures FirstMatch(arena, a + b, k) ==
      if FirstMatch(arena, a, k).Some? then FirstMatch(arena, a, k) else FirstMatch(arena, b, k)
  {
    if a == [] {
      assert a + b == b;
    } else {
      assert (a + b)[0] == a[0];
      assert (a + b)[1..] == a[1..] + b;
      FirstMatchAppend(arena, a[1..], b, k);
    }
  }

  lemma PreorderInArena(arena: seq<Node>, p: nat)
    requires ValidArena(arena) && p < |arena|
    ensures AllIn(Preorder(arena, p), |arena|)
    decreases |arena| - p, 1
  {
    assert NodeLinked(arena, p);
    PreorderOfInArena(arena, p, arena[p].children);
  }

  lemma PreorderOfInArena(arena: seq<Node>, p: nat, cs: seq<nat>)
    requires ValidArena(arena) && p < |arena|
    requires forall k :: 0 <= k < |cs| ==> p < cs[k] < |arena|
    ensures AllIn(PreorderOf(arena, p, cs), |arena|)
    decreases |arena| - p, 0, |cs|
  {
    if cs != [] {
      PreorderInArena(arena, cs[0]);
      PreorderOfInArena(arena, p, cs[1..]);
    }
  }

  lemma {:induction false} ForestInArena(arena: seq<Node>, roots: seq<nat>)
    requires ValidArena(arena) && AllIn(roots, |arena|)
    ensures AllIn(ForestPreorder(arena, roots), |arena|)
  {
    if roots != [] {
      PreorderInArena(arena, roots[0]);
      ForestInArena(arena, roots[1..]);
    }
  }

  /** Searching below p: p itself first, then its children's subtrees. */
  lemma PreorderStart(arena: seq<Node>, p: nat, k: nat)
    requires ValidArena(arena) && p < |arena|
    ensures forall i :: 0 <= i < |arena[p].children| ==> p < arena[p].children[i] < |arena|
    ensures AllIn(Preorder(arena, p), |arena|) && AllIn(PreorderOf(arena, p, arena[p].children), |arena|)
    ensures FirstMatch(arena, Preorder(arena, p), k) ==
      if arena[p].index == k then Some(p) else FirstMatch(arena, PreorderOf(arena, p, arena[p].children), k)
  {
    assert NodeLinked(arena, p);
    var cs := arena[p].children;
    PreorderInArena(arena, p);
    PreorderOfInArena(arena, p, cs);
    FirstMatchAppend(arena, [p], PreorderOf(arena, p, cs), k);
  }

  /** Searching the children from the j-th on: the j-th child's subtree first, then the rest. */
  lemma PreorderOfStep(arena: seq<Node>, p: nat, cs: seq<nat>, j: nat, k: nat)
    requires ValidArena(arena) && p < |arena|
    requires forall i :: 0 <= i < |cs| ==> p < cs[i] < |arena|
    requires j < |cs|
    ensures AllIn(Preorder(arena, cs[j]), |arena|)
    ensures AllIn(PreorderOf(arena, p, cs[j..]), |arena|) && AllIn(PreorderOf(arena, p, cs[j + 1..]), |arena|)
    ensures FirstMatch(arena, PreorderOf(arena, p, cs[j..]), k) ==
      if FirstMatch(arena, Preorder(arena, cs[j]), k).Some? then FirstMatch(arena, Preorder(arena, cs[j]), k)
      else FirstMatch(arena, PreorderOf(arena, p, cs[j + 1..]), k)
  {
    assert cs[j..][0] == cs[j] && cs[j..][1..] == cs[j + 1..];
    PreorderInArena(arena, cs[j]);
    PreorderOfInArena(arena, p, cs[j + 1..]);
    FirstMatchAppend(arena, Preorder(arena, cs[j]), PreorderOf(arena, p, cs[j + 1..]), k);
  }

  /** Searching the roots from the j-th on: the j-th root's tree first, then the rest. */
  lemma ForestStep(arena: seq<Node>, roots: seq<nat>, j: nat, k: nat)
    requires ValidArena(arena) && AllIn(roots, |arena|) && j < |roots|
    ensures AllIn(roots[j..], |arena|) && AllIn(roots[j + 1..], |arena|)
    ensures AllIn(Preorder(arena, roots[j]), |arena|)
    ensures AllIn(ForestPreorder(arena, roots[j..]), |arena|) && AllIn(ForestPreorder(arena, roots[j + 1..]), |arena|)
    ensures FirstMatch(arena, ForestPreorder(arena, roots[j..]), k) ==
      if FirstMatch(arena, Preorder(arena, roots[j]), k).Some? then FirstMatch(arena, Preorder(arena, roots[j]), k)
      else FirstMatch(arena, ForestPreorder(arena, roots[j + 1..]), k)
  {
    assert roots[j..][0] == roots[j] && roots[j..][1..] == roots[j + 1..];
    PreorderInArena(arena, roots[j]);
    ForestInArena(arena, roots[j + 1..]);
    FirstMatchAppend(arena, Preorder(arena, roots[j]), ForestPreorder(arena, roots[j + 1..]), k);
  }

  // ---------------------------------------------------------------------------
  // Destruction: what deleting the root list frees

  /** Node i is reachable from the root list: each link up to a root is registered in
      the parent's `children`, and the root itself in `roots`. */
  ghost predicate Attached(arena: seq<Node>, roots: seq<nat>, i: nat)
    requires ValidArena(arena) && i < |arena|
    decreases i
  {
    assert NodeLinked(arena, i);
    match arena[i].parent
    case None => i in roots
    case Some(p) => i in arena[p].children && Attached(arena, roots, p)
  }

  lemma {:induction false} InPreorderOf(arena: seq<Node>, p: nat, cs: seq<nat>, q: nat)
    requires ValidArena(arena) && p < |arena|
    requires forall k :: 0 <= k < |cs| ==> p < cs[k] < |arena|
    ensures q in PreorderOf(arena, p, cs) <==> exists k :: 0 <= k < |cs| && q in Preorder(arena, cs[k])
  {
    if cs != [] {
      InPreorderOf(arena, p, cs[1..], q);
      assert forall k :: 1 <= k < |cs| ==> cs[k] == cs[1..][k - 1];
    }
  }

  lemma {:induction false} InForest(arena: seq<Node>, roots: seq<nat>, q: nat)
    requires ValidArena(arena) && AllIn(roots, |arena|)
    ensures q in ForestPreorder(arena, roots) <==> exists k :: 0 <= k < |roots| && q in Preorder(arena, roots[k])
  {
    if roots != [] {
      InForest(arena, roots[1..], q);
      assert forall k :: 1 <= k < |roots| ==> roots[k] == roots[1..][k - 1];
    }
  }

  /** The subtree of x is closed under taking children. */
  lemma {:induction false} PreorderClosed(arena: seq<Node>, x: nat, p: nat, c: nat)
    requires ValidArena(arena) && x < |arena| && p < |arena|
    requires p in Preorder(arena, x) && c in arena[p].children
    ensures c < |arena| && c in Preorder(arena, x)
    decreases |arena| - x
  {
    assert NodeLinked(arena, x) && NodeLinked(arena, p);
    var k :| 0 <= k < |arena[p].children| && arena[p].children[k] == c;
    assert c in Preorder(arena, c);
    if p == x {
      InPreorderOf(arena, x, arena[x].children, c);
    } else {
      InPreorderOf(arena, x, arena[x].children, p);
      var j :| 0 <= j < |arena[x].children| && p in Preorder(arena, arena[x].children[j]);
      PreorderClosed(arena, arena[x].children[j], p, c);
      InPreorderOf(arena, x, arena[x].children, c);
    }
  }

  /** Every node of an attached node's subtree is attached. */
  lemma {:induction false} SubtreeAttached(arena: seq<Node>, roots: seq<nat>, x: nat, q: nat)
    requires ValidArena(arena) && x < |arena| && Attached(arena, roots, x)
    requires q in Preorder(arena, x)
    ensures q < |arena| && Attached(arena, roots, q)
    decreases |arena| - x
  {
    assert NodeLinked(arena, x);
    if q != x {
      InPreorderOf(arena, x, arena[x].children, q);
      var j :| 0 <= j < |arena[x].children| && q in Preorder(arena, arena[x].children[j]);
      var c := arena[x].children[j];
      assert NodeLinked(arena, c);
      assert Attached(arena, roots, c);
      SubtreeAttached(arena, roots, c, q);
    }
  }

  /** Deleting every root (whose ~Node deletes its children recursively) frees exactly the
      attached nodes: nodes left unattached by an aborted load are never freed. */
  lemma {:induction false} DeletingRootsFreesAttached(arena: seq<Node>, roots: seq<nat>, i: nat)
    requires ValidArena(arena) && AllIn(roots, |arena|) && i < |arena|
    requires forall j :: 0 <= j < |roots| ==> arena[roots[j]].parent.None?
    ensures i in ForestPreorder(arena, roots) <==> Attached(arena, roots, i)
    decreases i
  {
    InForest(arena, roots, i);
    assert NodeLinked(arena, i);
    if Attached(arena, roots, i) {
      match arena[i].parent
      case None =>
        var k :| 0 <= k < |roots| && roots[k] == i;
        assert i in Preorder(arena, roots[k]);
      case Some(p) =>
        DeletingRootsFreesAttached(arena, roots, p);
        InForest(arena, roots, p);
        var k :| 0 <= k < |roots| && p in Preorder(arena, roots[k]);
        PreorderClosed(arena, roots[k], p, i);
    }
    if i in ForestPreorder(arena, roots) {
      var k :| 0 <= k < |roots| && i in Preorder(arena, roots[k]);
      assert Attached(arena, roots, roots[k]);
      SubtreeAttached(arena, roots, roots[k], i);
    }
  }
}
