/**
 VulkanglTFModel: the loaded glTF scene as one object.

 The node tree lives in `arena` (a `Node*` is a position in it); `nodes` are
 the root positions and `linearMeshNodes` the positions of nodes with at
 least one primitive, in the order loadNode records them. The loaders fill
 the fields in place; the queries walk the tree without changing it.
 */
module GltfModel {
  import opened GltfTypes
  import opened Transform
  import opened Scene
  import opened Geometry
  import opened Images
  import opened Materials
  import opened Animations

  /** A glTF node as parsed: the optional transform properties (used only when they
      have their full length), child node indices and mesh index (-1: none). */
  datatype InputNode = InputNode(
    translation: seq<real>,
    rotation: seq<real>,
    scale: seq<real>,
    matrix: seq<real>,
    children: seq<int>,
    mesh: int)

  /** The parts of a parsed glTF file loadNode reads: its nodes and the primitives of each mesh. */
  datatype InputModel = InputModel(nodes: seq<InputNode>, meshes: seq<seq<InputPrimitive>>)

  /** Every child and mesh index of the file points into the file, and every primitive's
      accessors are consistent. */
  ghost predicate InputReady(input: InputModel)
  {
    && (forall i, k :: 0 <= i < |input.nodes| && 0 <= k < |input.nodes[i].children| ==>
          0 <= input.nodes[i].children[k] < |input.nodes|)
    && (forall i :: 0 <= i < |input.nodes| && input.nodes[i].mesh > -1 ==> input.nodes[i].mesh < |input.meshes|)
    && (forall m :: 0 <= m < |input.meshes| ==> WellFormedPrimitives(input.meshes[m]))
  }

  /** The subtree below node i is at most `depth` levels deep: the recursion of loadNode
      terminates (the source has no cycle check). */
  ghost predicate Bounded(input: InputModel, i: nat, depth: nat)
    requires InputReady(input) && i < |input.nodes|
    decreases depth
  {
    forall k :: 0 <= k < |input.nodes[i].children| ==>
      depth > 0 && Bounded(input, input.nodes[i].children[k], depth - 1)
  }

  /** The index component types of node i's mesh are all supported, so loadNode gets past
      its mesh and attaches the node. */
  predicate Attaches(input: InputModel, i: nat)
    requires i < |input.nodes|
  {
    var m := input.nodes[i].mesh;
    m <= -1 || (m < |input.meshes| &&
                forall j :: 0 <= j < |input.meshes[m]| ==> Supported(input.meshes[m][j].indices.componentType))
  }

  /** The new node of loadNode before its children and mesh: `Node{}` with identity matrix,
      then each transform property that is present. */
  function NodeFromInput(n: InputNode, index: nat, parent: Option<nat>): (r: Node)
    ensures r.parent == parent && r.index == index && r.children == [] && r.mesh == []
    ensures |n.translation| != 3 ==> r.translation == Zero3
    ensures |n.rotation| != 4 ==> r.rotation == DefaultRotation
    ensures |n.scale| != 3 ==> r.scale == One3
    ensures |n.matrix| != 16 ==> r.matrix == Identity
    ensures |n.translation| == 3 ==> r.translation == Vec3(n.translation[0], n.translation[1], n.translation[2])
    ensures |n.rotation| == 4 ==> r.rotation == Quat(n.rotation[0], n.rotation[1], n.rotation[2], n.rotation[3])
    ensures |n.scale| == 3 ==> r.scale == Vec3(n.scale[0], n.scale[1], n.scale[2])
    ensures |n.matrix| == 16 ==> r.matrix == EntriesM(n.matrix)
  {
    var created := FreshNode(index, parent);
    var t := if |n.translation| == 3 then Vec3(n.translation[0], n.translation[1], n.translation[2])
             else created.translation;
    var q := if |n.rotation| == 4 then Quat(n.rotation[0], n.rotation[1], n.rotation[2], n.rotation[3])
             else created.rotation;
    var s := if |n.scale| == 3 then Vec3(n.scale[0], n.scale[1], n.scale[2]) else created.scale;
    var m := if |n.matrix| == 16 then EntriesM(n.matrix) else created.matrix;
    created.(translation := t, rotation := q, scale := s, matrix := m)
  }

  /** A node with no transform property is placed by the identity; one with only a matrix
      acts by that matrix; one with only a translation acts by that translation. */
  lemma InputNodeLocalMatrix(n: InputNode, index: nat, parent: Option<nat>, p: Vec4)
    requires |n.rotation| != 4 && |n.scale| != 3
    ensures |n.translation| != 3 && |n.matrix| != 16 ==>
              Apply(LocalMatrix(NodeFromInput(n, index, parent)), p) == p
    ensures |n.translation| != 3 && |n.matrix| == 16 ==>
              Apply(LocalMatrix(NodeFromInput(n, index, parent)), p) == ApplyFactor(Entries(n.matrix), p)
    ensures |n.translation| == 3 && |n.matrix| != 16 ==>
              Apply(LocalMatrix(NodeFromInput(n, index, parent)), p) ==
              ApplyFactor(Translate(Vec3(n.translation[0], n.translation[1], n.translation[2])), p)
  {
    var r := NodeFromInput(n, index, parent);
    assert RotateM(r.rotation) == Identity && ScaleM(r.scale) == Identity;
    if |n.matrix| == 16 {
      SmartConstructorsSound(r.translation, r.rotation, r.scale, n.matrix, p);
      assert LocalMatrix(r) == Mul(TranslateM(r.translation), EntriesM(n.matrix));
    } else {
      SmartConstructorsSound(r.translation, r.rotation, r.scale, IdentityEntries, p);
      assert LocalMatrix(r) == TranslateM(r.translation) by {
        assert TranslateM(r.translation).factors + [] == TranslateM(r.translation).factors;
      }
    }
  }

  // ---------------------------------------------------------------------------
  // Arena edits loadNode makes, and what they keep

  /** `b` is `a` with possibly more children appended. */
  predicate Extends(a: Node, b: Node)
  {
    b == a.(children := b.children) && |a.children| <= |b.children| && b.children[..|a.children|] == a.children
  }

  /** The arena only grows: existing nodes keep everything but may gain children. */
  ghost predicate Grows(before: seq<Node>, after: seq<Node>)
  {
    |before| <= |after| && forall i :: 0 <= i < |before| ==> Extends(before[i], after[i])
  }

  /** Below a node, the count is that of its children's subtrees; a node bounded at depth 0
      has no children. */
  lemma SubtreeSizeOfChildren(input: InputModel, i: nat, depth: nat)
    requires InputReady(input) && i < |input.nodes| && Bounded(input, i, depth)
    ensures depth == 0 ==> input.nodes[i].children == []
    ensures SubtreeSize(input, i, depth) - 1 ==
            ForestSize(input, input.nodes[i].children, if depth == 0 then 0 else depth - 1)
  {
    if input.nodes[i].children != [] {
      assert depth > 0 && Bounded(input, input.nodes[i].children[0], depth - 1);
    }
  }

  /** One more glTF child adds its subtree's nodes to the count. */
  lemma ForestSizeStep(input: InputModel, cs: seq<int>, i: nat, depth: nat)
    requires InputReady(input) && forall k :: 0 <= k < |cs| ==> 0 <= cs[k] < |input.nodes|
    requires i < |cs|
    ensures ForestSize(input, cs[..i + 1], depth) == ForestSize(input, cs[..i], depth) + SubtreeSize(input, cs[i], depth)
  {
    assert cs[..i + 1][..i] == cs[..i];
  }

  /** A prefix of a prefix is a prefix. */
  lemma PrefixTransitive<T>(a: seq<T>, b: seq<T>, c: seq<T>)
    requires |a| <= |b| && b[..|a|] == a && |b| <= |c| && c[..|b|] == b
    ensures c[..|a|] == a
  {
    assert c[..|a|] == c[..|b|][..|a|];
  }

  /** Entries appended in two rounds stay strictly between lo and the later bound. */
  lemma EntriesBetweenStep(l0: seq<nat>, l1: seq<nat>, l2: seq<nat>, lo: nat, mid: nat, hi: nat)
    requires |l0| <= |l1| <= |l2| && l2[..|l1|] == l1 && mid <= hi
    requires forall k :: |l0| <= k < |l1| ==> lo < l1[k] < mid
    requires forall k :: |l1| <= k < |l2| ==> lo < l2[k] < hi
    ensures forall k :: |l0| <= k < |l2| ==> lo < l2[k] < hi
  {
    forall k | |l0| <= k < |l1|
      ensures l2[k] == l1[k]
    {
      assert l2[..|l1|][k] == l2[k];
    }
  }

  lemma GrowsTransitive(a: seq<Node>, b: seq<Node>, c: seq<Node>)
    requires Grows(a, b) && Grows(b, c)
    ensures Grows(a, c)
  {
    forall i | 0 <= i < |a|
      ensures Extends(a[i], c[i])
    {
      assert Extends(a[i], b[i]) && Extends(b[i], c[i]);
      assert c[i].children[..|a[i].children|] == c[i].children[..|b[i].children|][..|a[i].children|];
    }
  }

  lemma PushKeepsTree(arena: seq<Node>, n: Node)
    requires ValidArena(arena) && n.children == [] && (n.parent.Some? ==> n.parent.value < |arena|)
    ensures ValidArena(arena + [n]) && Grows(arena, arena + [n])
  {
    var a := arena + [n];
    forall i | 0 <= i < |a|
      ensures NodeLinked(a, i)
    {
      if i < |arena| {
        assert NodeLinked(arena, i);
      }
    }
  }

  lemma SetMeshKeepsTree(arena: seq<Node>, i: nat, mesh: seq<Primitive>)
    requires ValidArena(arena) && i < |arena|
    ensures ValidArena(arena[i := arena[i].(mesh := mesh)])
  {
    var a := arena[i := arena[i].(mesh := mesh)];
    forall j | 0 <= j < |a|
      ensures NodeLinked(a, j)
    {
      assert NodeLinked(arena, j);
    }
  }

  lemma AttachKeepsTree(arena: seq<Node>, p: nat, c: nat)
    requires ValidArena(arena) && p < c < |arena| && arena[c].parent == Some(p)
    ensures ValidArena(arena[p := arena[p].(children := arena[p].children + [c])])
    ensures Grows(arena, arena[p := arena[p].(children := arena[p].children + [c])])
  {
    var a := arena[p := arena[p].(children := arena[p].children + [c])];
    forall j | 0 <= j < |a|
      ensures NodeLinked(a, j)
    {
      assert NodeLinked(arena, j);
    }
    assert a[p].children[..|arena[p].children|] == arena[p].children;
  }

  /** The node a channel targets: nodeFromIndex of its target index as a uint32. */
  ghost function ChannelNode(arena: seq<Node>, roots: seq<nat>, target: int): Option<nat>
    requires ValidArena(arena) && AllIn(roots, |arena|)
  {
    ForestInArena(arena, roots);
    FirstMatch(arena, ForestPreorder(arena, roots), ToUint32(target))
  }

  /** A glTF channel as loadAnimations stores it: its path, its target node and its sampler index. */
  ghost function BoundChannel(arena: seq<Node>, roots: seq<nat>, c: InputChannel): Channel
    requires ValidArena(arena) && AllIn(roots, |arena|)
  {
    Channel(c.targetPath, ChannelNode(arena, roots, c.targetNode), ToUint32(c.sampler))
  }

  /** The stored channels of the first j + 1 glTF channels extend those of the first j. */
  lemma BoundPrefixStep(arena: seq<Node>, roots: seq<nat>, cs: seq<InputChannel>, j: nat)
    requires ValidArena(arena) && AllIn(roots, |arena|) && j < |cs|
    ensures seq(j + 1, i requires 0 <= i < j + 1 => BoundChannel(arena, roots, cs[i]))
            == seq(j, i requires 0 <= i < j => BoundChannel(arena, roots, cs[i])) + [BoundChannel(arena, roots, cs[j])]
  {
  }

  /** A glTF animation as loadAnimations stores it against the tree `arena` with roots `roots`. */
  ghost function LoadedAnimation(arena: seq<Node>, roots: seq<nat>, a: InputAnimation): Animation
    requires ValidArena(arena) && AllIn(roots, |arena|)
  {
    Animation(
      a.name,
      seq(|a.samplers|, j requires 0 <= j < |a.samplers| => LoadedSampler(a.samplers[j])),
      seq(|a.channels|, j requires 0 <= j < |a.channels| => BoundChannel(arena, roots, a.channels[j])),
      Lowest(FltMax, AllInputs(a.samplers)),
      Highest(FltMin, AllInputs(a.samplers)),
      0.0)
  }

  /** `after` is `before` followed by the mesh nodes recorded while loading the subtree of
      the node at `pos`: first those below it (all at higher positions, under `bound`), then
      `pos` itself when `recorded`. */
  ghost predicate RecordsSubtree(before: seq<nat>, after: seq<nat>, pos: nat, bound: nat, recorded: bool)
  {
    && |before| <= |after| && after[..|before|] == before
    && (recorded ==> |before| < |after| && after[|after| - 1] == pos)
    && (forall k :: |before| <= k < |after| - (if recorded then 1 else 0) ==> pos < after[k] < bound)
    && (forall k :: |before| <= k < |after| ==> pos <= after[k] < bound)
  }

  /** The mesh nodes of the children's subtrees, then the node itself or nothing. */
  lemma RecordsSubtreeAppend(before: seq<nat>, mid: seq<nat>, pos: nat, bound: nat, recorded: bool)
    requires pos < bound
    requires |before| <= |mid| && mid[..|before|] == before
    requires forall k :: |before| <= k < |mid| ==> pos < mid[k] < bound
    ensures RecordsSubtree(before, mid + (if recorded then [pos] else []), pos, bound, recorded)
  {
    var after := mid + (if recorded then [pos] else []);
    assert after[..|mid|] == mid;
    assert after[..|before|] == mid[..|before|];
  }

  // ---------------------------------------------------------------------------
  // The hierarchy loadNode rebuilds

  /** The glTF indices of the children of the node at p, in order. */
  ghost function ChildIndices(arena: seq<Node>, p: nat): seq<nat>
    requires ValidArena(arena) && p < |arena|
  {
    assert NodeLinked(arena, p);
    seq(|arena[p].children|, k requires 0 <= k < |arena[p].children| => arena[arena[p].children[k]].index)
  }

  /** The glTF child indices `cs` whose nodes loadNode attaches, in order. */
  ghost function AttachingChildren(input: InputModel, cs: seq<int>): (r: seq<nat>)
    requires forall k :: 0 <= k < |cs| ==> 0 <= cs[k] < |input.nodes|
    ensures forall x :: x in r <==> x in cs && Attaches(input, x)
  {
    if cs == [] then []
    else
      var last := cs[|cs| - 1];
      var r := AttachingChildren(input, cs[..|cs| - 1]) + (if Attaches(input, last) then [last] else []);
      assert forall x :: x in cs <==> x in cs[..|cs| - 1] || x == last;
      r
  }

  /** The primitives loadNode records for glTF node i, as far as they do not depend on the
      shared buffers: none without a mesh; otherwise one per glTF primitive up to the first
      unsupported index type (all of them when the node attaches), each with its accessor's
      count and its material. */
  ghost predicate MeshShaped(input: InputModel, i: nat, mesh: seq<Primitive>)
    requires InputReady(input) && i < |input.nodes|
  {
    var m := input.nodes[i].mesh;
    && (m <= -1 ==> mesh == [])
    && (m > -1 ==>
          && |mesh| <= |input.meshes[m]|
          && (Attaches(input, i) ==> |mesh| == |input.meshes[m]|)
          && forall j :: 0 <= j < |mesh| ==>
               && mesh[j].indexCount == ToUint32(|input.meshes[m][j].indices.values|)
               && mesh[j].materialIndex == input.meshes[m][j].material)
  }

  /** A node loadNode built from glTF node `n.index`: the transform properties of that glTF
      node (or their defaults) and a mesh of the shape it prescribes. */
  ghost predicate NodeBuilt(input: InputModel, n: Node)
    requires InputReady(input)
  {
    && n.index < |input.nodes|
    && n == NodeFromInput(input.nodes[n.index], n.index, n.parent).(children := n.children, mesh := n.mesh)
    && MeshShaped(input, n.index, n.mesh)
  }

  /** Every node at a position in [lo, hi) is built from its glTF node, its children are
      exactly its attaching glTF children, in order, and it is recorded among the mesh nodes
      exactly when it was attached with a primitive. */
  ghost predicate Rebuilt(input: InputModel, arena: seq<Node>, meshNodes: seq<nat>, lo: nat, hi: nat)
    requires InputReady(input) && ValidArena(arena) && hi <= |arena|
  {
    forall q :: lo <= q < hi ==>
      && NodeBuilt(input, arena[q])
      && ChildIndices(arena, q) == AttachingChildren(input, input.nodes[arena[q].index].children)
      && (q in meshNodes <==> Attaches(input, arena[q].index) && arena[q].mesh != [])
  }

  /** The number of nodes loadNode allocates for glTF node i: the node itself and the
      subtrees of all its glTF children, attached or not. */
  ghost function SubtreeSize(input: InputModel, i: nat, depth: nat): nat
    requires InputReady(input) && i < |input.nodes|
    decreases depth, 0
  {
    if depth == 0 then 1 else 1 + ForestSize(input, input.nodes[i].children, depth - 1)
  }

  /** The number of nodes allocated for the subtrees of the glTF nodes `cs`. */
  ghost function ForestSize(input: InputModel, cs: seq<int>, depth: nat): nat
    requires InputReady(input) && forall k :: 0 <= k < |cs| ==> 0 <= cs[k] < |input.nodes|
    decreases depth, 1, |cs|
  {
    if cs == [] then 0
    else ForestSize(input, cs[..|cs| - 1], depth) + SubtreeSize(input, cs[|cs| - 1], depth)
  }

  /** Rebuilt nodes stay rebuilt while they are kept, their children keep their indices,
      and their membership among the mesh nodes is kept. */
  lemma RebuiltStable(input: InputModel, a: seq<Node>, b: seq<Node>, la: seq<nat>, lb: seq<nat>, lo: nat, hi: nat)
    requires InputReady(input) && ValidArena(a) && ValidArena(b) && hi <= |a| <= |b|
    requires forall q :: lo <= q < |a| ==> b[q].index == a[q].index
    requires forall q :: lo <= q < hi ==> b[q] == a[q]
    requires |la| <= |lb| && lb[..|la|] == la && forall k :: |la| <= k < |lb| ==> !(lo <= lb[k] < hi)
    requires Rebuilt(input, a, la, lo, hi)
    ensures Rebuilt(input, b, lb, lo, hi)
  {
    forall q | lo <= q < hi
      ensures ChildIndices(b, q) == ChildIndices(a, q)
      ensures q in lb <==> q in la
    {
      assert NodeLinked(a, q);
      if q in la {
        var k :| 0 <= k < |la| && la[k] == q;
        assert lb[..|la|][k] == q;
      }
    }
  }

  /** One iteration of the child loop: the child loaded at position |a| extends the
      rebuilt range, and the parent's children gain it exactly when it attaches. */
  lemma ChildLoaded(input: InputModel, children: seq<int>, i: nat, pos: nat, lo: nat,
                    a: seq<Node>, b: seq<Node>, la: seq<nat>, lb: seq<nat>)
    requires InputReady(input) && ValidArena(a) && ValidArena(b) && pos < lo <= |a| < |b|
    requires i < |children| && forall k :: 0 <= k < |children| ==> 0 <= children[k] < |input.nodes|
    requires Grows(a, b)
    requires forall q :: pos < q < |a| ==> b[q].children == a[q].children
    requires b[pos].children == a[pos].children + (if Attaches(input, children[i]) then [|a|] else [])
    requires b[|a|].index == children[i]
    requires |la| <= |lb| && lb[..|la|] == la && forall k :: |la| <= k < |lb| ==> |a| <= lb[k]
    requires Rebuilt(input, a, la, lo, |a|) && Rebuilt(input, b, lb, |a|, |b|)
    requires ChildIndices(a, pos) == AttachingChildren(input, children[..i])
    ensures Rebuilt(input, b, lb, lo, |b|)
    ensures ChildIndices(b, pos) == AttachingChildren(input, children[..i + 1])
  {
    assert forall q :: 0 <= q < |a| ==> Extends(a[q], b[q]);
    RebuiltStable(input, a, b, la, lb, lo, |a|);
    ChildAppended(input, children, i, pos, a, b);
  }

  /** Appending the node loaded for children[i] extends the glTF indices of the parent's children by the filter's next step. */
  lemma ChildAppended(input: InputModel, children: seq<int>, i: nat, pos: nat, a: seq<Node>, b: seq<Node>)
    requires InputReady(input) && ValidArena(a) && ValidArena(b) && pos < |a| < |b|
    requires i < |children| && forall k :: 0 <= k < |children| ==> 0 <= children[k] < |input.nodes|
    requires forall q :: 0 <= q < |a| ==> b[q].index == a[q].index
    requires b[pos].children == a[pos].children + (if Attaches(input, children[i]) then [|a|] else [])
    requires b[|a|].index == children[i]
    requires ChildIndices(a, pos) == AttachingChildren(input, children[..i])
    ensures ChildIndices(b, pos) == AttachingChildren(input, children[..i + 1])
  {
    assert NodeLinked(a, pos) && NodeLinked(b, pos);
    assert children[..i + 1][..i] == children[..i];
  }

  /** The end of loadNode: with the mesh loaded and the node attached, the node at pos
      joins the rebuilt range of its subtree. */
  lemma NodeLoaded(input: InputModel, nodeIndex: nat, pos: nat,
                   a: seq<Node>, b: seq<Node>, la: seq<nat>, lb: seq<nat>)
    requires InputReady(input) && ValidArena(a) && ValidArena(b) && pos < |a| == |b|
    requires nodeIndex < |input.nodes| && a[pos].index == nodeIndex
    requires a[pos] == NodeFromInput(input.nodes[nodeIndex], nodeIndex, a[pos].parent).(children := a[pos].children)
    requires b[pos] == a[pos].(mesh := b[pos].mesh) && MeshShaped(input, nodeIndex, b[pos].mesh)
    requires forall k :: pos < k < |a| ==> b[k] == a[k]
    requires pos !in la
    requires lb == la + (if Attaches(input, nodeIndex) && b[pos].mesh != [] then [pos] else [])
    requires Rebuilt(input, a, la, pos + 1, |a|)
    requires ChildIndices(a, pos) == AttachingChildren(input, input.nodes[nodeIndex].children)
    ensures Rebuilt(input, b, lb, pos, |b|)
  {
    assert lb[..|la|] == la;
    RebuiltStable(input, a, b, la, lb, pos + 1, |a|);
    SameChildIndices(a, b, pos);
    assert NodeBuilt(input, b[pos]);
    RebuiltDown(input, b, lb, pos, |b|);
  }

  /** Nodes whose children keep their glTF indices keep the parent's ChildIndices. */
  lemma SameChildIndices(a: seq<Node>, b: seq<Node>, pos: nat)
    requires ValidArena(a) && ValidArena(b) && pos < |a| == |b|
    requires b[pos].children == a[pos].children
    requires forall k :: pos < k < |a| ==> b[k].index == a[k].index
    ensures ChildIndices(b, pos) == ChildIndices(a, pos)
  {
    assert NodeLinked(a, pos);
  }

  /** A rebuilt range grows down by one node that is rebuilt itself. */
  lemma RebuiltDown(input: InputModel, arena: seq<Node>, meshNodes: seq<nat>, pos: nat, hi: nat)
    requires InputReady(input) && ValidArena(arena) && pos < hi <= |arena|
    requires Rebuilt(input, arena, meshNodes, pos + 1, hi)
    requires NodeBuilt(input, arena[pos])
    requires ChildIndices(arena, pos) == AttachingChildren(input, input.nodes[arena[pos].index].children)
    requires pos in meshNodes <==> Attaches(input, arena[pos].index) && arena[pos].mesh != []
    ensures Rebuilt(input, arena, meshNodes, pos, hi)
  {
  }

  // ---------------------------------------------------------------------------

  class Model {
    var arena: seq<Node>
    /** The root nodes. */
    var nodes: seq<nat>
    var linearMeshNodes: seq<nat>
    /** The bytes uploaded for each image. */
    var images: seq<seq<byte>>
    var textures: seq<Texture>
    var materials: seq<Material>
    var animations: seq<Animation>
    var activeAnimation: uint32

    /** The tree is well linked, roots have no parent, and every recorded mesh node has
        a primitive. */
    ghost predicate Valid()
      reads this
    {
      && ValidArena(arena)
      && AllIn(nodes, |arena|)
      && (forall j :: 0 <= j < |nodes| ==> arena[nodes[j]].parent.None?)
      && AllIn(linearMeshNodes, |arena|)
      && (forall j :: 0 <= j < |linearMeshNodes| ==> arena[linearMeshNodes[j]].mesh != [])
    }

    /** An empty model; the first animation is the active one. */
    constructor ()
      ensures Valid()
      ensures arena == [] && nodes == [] && linearMeshNodes == []
      ensures images == [] && textures == [] && materials == [] && animations == []
      ensures activeAnimation == 0
    {
      arena, nodes, linearMeshNodes := [], [], [];
      images, textures, materials, animations := [], [], [], [];
      activeAnimation := 0;
    }

    /** loadImages: the buffer uploaded for each image, widened to RGBA when it has three
        components. `uninit[i]` stands for the indeterminate contents of image i's new buffer. */
    method LoadImages(input: seq<InputImage>, uninit: seq<seq<byte>>)
      requires |uninit| == |input|
      requires forall i :: 0 <= i < |input| && input[i].component == 3 ==>
                 |input[i].image| >= input[i].width * input[i].height * 3
                 && |uninit[i]| == input[i].width * input[i].height * 4
      modifies this
      ensures |images| == |input|
      ensures forall i :: 0 <= i < |input| ==> UploadedAs(input[i], uninit[i], images[i])
      ensures arena == old(arena) && nodes == old(nodes) && linearMeshNodes == old(linearMeshNodes)
      ensures textures == old(textures) && materials == old(materials) && animations == old(animations)
      ensures activeAnimation == old(activeAnimation)
    {
      images := UploadImages(input, uninit);
    }

    /** loadTextures: each texture keeps the image it samples (its `source`). */
    method LoadTextures(sources: seq<int>)
      modifies this
      ensures |textures| == |sources|
      ensures forall i :: 0 <= i < |sources| ==> textures[i].imageIndex == sources[i]
      ensures arena == old(arena) && nodes == old(nodes) && linearMeshNodes == old(linearMeshNodes)
      ensures images == old(images) && materials == old(materials) && animations == old(animations)
      ensures activeAnimation == old(activeAnimation)
    {
      var loaded: seq<Texture> := [];
      for i := 0 to |sources|
        invariant |loaded| == i
        invariant forall j :: 0 <= j < i ==> loaded[j].imageIndex == sources[j]
      {
        loaded := loaded + [Texture(sources[i])];
      }
      textures := loaded;
    }

    /** loadMaterials: each material resolved through the texture table. */
    method LoadMaterials(input: seq<InputMaterial>)
      requires forall i :: 0 <= i < |input| ==> TextureRefsInRange(input[i], |textures|)
      modifies this
      ensures arena == old(arena) && nodes == old(nodes) && linearMeshNodes == old(linearMeshNodes)
      ensures images == old(images) && textures == old(textures) && animations == old(animations)
      ensures activeAnimation == old(activeAnimation)
      ensures |materials| == |input|
      ensures forall i :: 0 <= i < |input| ==> materials[i] == ResolveMaterial(input[i], textures)
    {
      var loaded: seq<Material> := [];
      for i := 0 to |input|
        invariant |loaded| == i
        invariant forall j :: 0 <= j < i ==> loaded[j] == ResolveMaterial(input[j], textures)
      {
        loaded := loaded + [ResolveMaterial(input[i], textures)];
      }
      materials := loaded;
    }

    /** loadNode: pushes node `nodeIndex` of the file at position old(|arena|), loads its
        children below it, then its mesh into the shared buffers. A node whose mesh has an
        unsupported index type is left unattached; any other node is appended to its parent's
        children (or to the roots) and, when it has a primitive, to linearMeshNodes, after
        every mesh node of its subtree. */
    method LoadNode(input: InputModel, nodeIndex: nat, parent: Option<nat>,
                    indexBuffer: seq<uint32>, vertexBuffer: seq<Vertex>,
                    normalize: Vec3 -> Vec3, ghost depth: nat)
      returns (ib: seq<uint32>, vb: seq<Vertex>)
      requires Valid() && InputReady(input) && nodeIndex < |input.nodes| && Bounded(input, nodeIndex, depth)
      requires parent.Some? ==> parent.value < |arena|
      modifies this
      decreases depth, 2
      ensures Valid() && Grows(old(arena), arena)
      ensures |arena| == old(|arena|) + SubtreeSize(input, nodeIndex, depth)
      ensures Rebuilt(input, arena, linearMeshNodes, old(|arena|), |arena|)
      ensures var pos := old(|arena|);
              var created := NodeFromInput(input.nodes[nodeIndex], nodeIndex, parent);
              && pos < |arena|
              && arena[pos] == created.(children := arena[pos].children, mesh := arena[pos].mesh)
              && (forall i :: 0 <= i < pos && Some(i) != parent ==> arena[i].children == old(arena[i].children))
              && (parent.Some? ==>
                    arena[parent.value].children ==
                    old(arena[parent.value].children) + (if Attaches(input, nodeIndex) then [pos] else []))
              && nodes == old(nodes) + (if parent.None? && Attaches(input, nodeIndex) then [pos] else [])
              && (pos in linearMeshNodes <==> Attaches(input, nodeIndex) && arena[pos].mesh != [])
              && (input.nodes[nodeIndex].mesh <= -1 ==> arena[pos].mesh == [])
              && (input.nodes[nodeIndex].mesh > -1 ==>
                    exists ib0, vb0 :: LoadPrimitives(input.meshes[input.nodes[nodeIndex].mesh], ib0, vb0, normalize)
                                       == MeshLoad(ib, vb, arena[pos].mesh, Attaches(input, nodeIndex)))
      ensures RecordsSubtree(old(linearMeshNodes), linearMeshNodes, old(|arena|), |arena|,
                             Attaches(input, nodeIndex) && arena[old(|arena|)].mesh != [])
      ensures |indexBuffer| <= |ib| && ib[..|indexBuffer|] == indexBuffer
      ensures |vertexBuffer| <= |vb| && vb[..|vertexBuffer|] == vertexBuffer
      ensures images == old(images) && textures == old(textures) && materials == old(materials)
      ensures animations == old(animations) && activeAnimation == old(activeAnimation)
    {
      var pos := |arena|;
      var created := NodeFromInput(input.nodes[nodeIndex], nodeIndex, parent);
      PushKeepsTree(arena, created);
      arena := arena + [created];

      ghost var pushed := arena;
      ib, vb := LoadChildren(input, nodeIndex, pos, indexBuffer, vertexBuffer, normalize, depth);
      GrowsTransitive(old(arena), pushed, arena);

      ghost var loaded, lmn1, ib1, vb1 := arena, linearMeshNodes, ib, vb;
      assert pos !in lmn1;
      ib, vb := LoadMeshAndAttach(input, nodeIndex, pos, ib, vb, normalize);
      RecordsSubtreeAppend(old(linearMeshNodes), lmn1, pos, |arena|, Attaches(input, nodeIndex) && arena[pos].mesh != []);
      assert Grows(old(arena), loaded[..pos]);
      GrowsTransitive(old(arena), loaded[..pos], arena);
      PrefixTransitive(indexBuffer, ib1, ib);
      PrefixTransitive(vertexBuffer, vb1, vb);
    }

    /** The end of loadNode, once the children are loaded: the node's mesh, if it has one,
        then the node is attached to its parent (or made a root) and listed among the mesh
        nodes, unless a primitive's index type was unsupported. */
    method LoadMeshAndAttach(input: InputModel, nodeIndex: nat, pos: nat,
                             indexBuffer: seq<uint32>, vertexBuffer: seq<Vertex>,
                             normalize: Vec3 -> Vec3)
      returns (ib: seq<uint32>, vb: seq<Vertex>)
      requires Valid() && InputReady(input) && nodeIndex < |input.nodes| && pos < |arena|
      requires arena[pos].mesh == []
      requires arena[pos].parent.Some? ==> arena[pos].parent.value < pos
      requires arena[pos].index == nodeIndex && pos !in linearMeshNodes
      requires arena[pos] == NodeFromInput(input.nodes[nodeIndex], nodeIndex, arena[pos].parent).(children := arena[pos].children)
      requires Rebuilt(input, arena, linearMeshNodes, pos + 1, |arena|)
      requires ChildIndices(arena, pos) == AttachingChildren(input, input.nodes[nodeIndex].children)
      modifies this
      ensures Valid() && Grows(old(arena)[..pos], arena) && |arena| == old(|arena|)
      ensures Rebuilt(input, arena, linearMeshNodes, pos, |arena|)
      ensures arena[pos] == old(arena[pos]).(mesh := arena[pos].mesh)
      ensures var parent := old(arena[pos].parent);
              && (forall k :: 0 <= k < |arena| && k != pos && Some(k) != parent ==> arena[k] == old(arena[k]))
              && (parent.Some? ==>
                    arena[parent.value].children ==
                    old(arena[parent.value].children) + (if Attaches(input, nodeIndex) then [pos] else []))
              && nodes == old(nodes) + (if parent.None? && Attaches(input, nodeIndex) then [pos] else [])
      ensures linearMeshNodes ==
                old(linearMeshNodes) + (if Attaches(input, nodeIndex) && arena[pos].mesh != [] then [pos] else [])
      ensures input.nodes[nodeIndex].mesh <= -1 ==> arena[pos].mesh == [] && ib == indexBuffer && vb == vertexBuffer
      ensures input.nodes[nodeIndex].mesh > -1 ==>
                LoadPrimitives(input.meshes[input.nodes[nodeIndex].mesh], indexBuffer, vertexBuffer, normalize)
                == MeshLoad(ib, vb, arena[pos].mesh, Attaches(input, nodeIndex))
      ensures |indexBuffer| <= |ib| && ib[..|indexBuffer|] == indexBuffer
      ensures |vertexBuffer| <= |vb| && vb[..|vertexBuffer|] == vertexBuffer
      ensures images == old(images) && textures == old(textures) && materials == old(materials)
      ensures animations == old(animations) && activeAnimation == old(activeAnimation)
    {
      ghost var a, la := arena, linearMeshNodes;
      var attach;
      ib, vb, attach := LoadNodeMesh(input, nodeIndex, pos, indexBuffer, vertexBuffer, normalize);
      if attach {
        ghost var meshed := arena;
        AttachNode(pos);
        GrowsTransitive(a[..pos], meshed, arena);
      }
      NodeLoaded(input, nodeIndex, pos, a, arena, la, linearMeshNodes);
    }

    /** The mesh part of loadNode: the primitives of the node's mesh, if it has one, and
        whether every primitive's index type was supported, which decides the attachment. */
    method LoadNodeMesh(input: InputModel, nodeIndex: nat, pos: nat,
                        indexBuffer: seq<uint32>, vertexBuffer: seq<Vertex>,
                        normalize: Vec3 -> Vec3)
      returns (ib: seq<uint32>, vb: seq<Vertex>, attach: bool)
      requires Valid() && InputReady(input) && nodeIndex < |input.nodes| && pos < |arena|
      requires arena[pos].mesh == []
      modifies this
      ensures |arena| == old(|arena|) && Valid() && attach == Attaches(input, nodeIndex)
      ensures arena == old(arena)[pos := old(arena[pos]).(mesh := arena[pos].mesh)]
      ensures Grows(old(arena)[..pos], arena)
      ensures input.nodes[nodeIndex].mesh <= -1 ==> arena[pos].mesh == [] && ib == indexBuffer && vb == vertexBuffer
      ensures input.nodes[nodeIndex].mesh > -1 ==>
                LoadPrimitives(input.meshes[input.nodes[nodeIndex].mesh], indexBuffer, vertexBuffer, normalize)
                == MeshLoad(ib, vb, arena[pos].mesh, attach)
      ensures MeshShaped(input, nodeIndex, arena[pos].mesh)
      ensures |indexBuffer| <= |ib| && ib[..|indexBuffer|] == indexBuffer
      ensures |vertexBuffer| <= |vb| && vb[..|vertexBuffer|] == vertexBuffer
      ensures nodes == old(nodes) && linearMeshNodes == old(linearMeshNodes)
      ensures images == old(images) && textures == old(textures) && materials == old(materials)
      ensures animations == old(animations) && activeAnimation == old(activeAnimation)
    {
      ib, vb, attach := indexBuffer, vertexBuffer, true;
      var m := input.nodes[nodeIndex].mesh;
      if m > -1 {
        var primitives;
        ib, vb, primitives, attach := LoadMesh(input.meshes[m], ib, vb, normalize);
        LoadPrimitivesShape(input.meshes[m], indexBuffer, vertexBuffer, normalize);
        SetMeshKeepsTree(arena, pos, primitives);
        arena := arena[pos := arena[pos].(mesh := primitives)];
      }
    }

    /** The end of loadNode for a node that is kept: appended to its parent's children, or to
        the roots when it has none, and to the mesh nodes when it has primitives. */
    method AttachNode(pos: nat)
      requires Valid() && pos < |arena| && pos !in linearMeshNodes
      requires arena[pos].parent.Some? ==> arena[pos].parent.value < pos
      modifies this
      ensures |arena| == old(|arena|) && Valid() && Grows(old(arena), arena)
      ensures var parent := old(arena[pos].parent);
              && (parent.Some? ==>
                    arena == old(arena)[parent.value := old(arena[parent.value]).(children := old(arena[parent.value].children) + [pos])]
                    && nodes == old(nodes))
              && (parent.None? ==> arena == old(arena) && nodes == old(nodes) + [pos])
      ensures linearMeshNodes == old(linearMeshNodes) + (if arena[pos].mesh != [] then [pos] else [])
      ensures images == old(images) && textures == old(textures) && materials == old(materials)
      ensures animations == old(animations) && activeAnimation == old(activeAnimation)
    {
      var parent := arena[pos].parent;
      if parent.Some? {
        AttachKeepsTree(arena, parent.value, pos);
        arena := arena[parent.value := arena[parent.value].(children := arena[parent.value].children + [pos])];
      } else {
        nodes := nodes + [pos];
      }
      if arena[pos].mesh != [] {
        linearMeshNodes := linearMeshNodes + [pos];
      }
    }

    /** The child loop of loadNode: loads each child of glTF node `nodeIndex`, in order, below
        the node at `pos`. */
    method LoadChildren(input: InputModel, nodeIndex: nat, pos: nat,
                        indexBuffer: seq<uint32>, vertexBuffer: seq<Vertex>,
                        normalize: Vec3 -> Vec3, ghost depth: nat)
      returns (ib: seq<uint32>, vb: seq<Vertex>)
      requires Valid() && InputReady(input) && nodeIndex < |input.nodes| && Bounded(input, nodeIndex, depth)
      requires pos < |arena| && arena[pos].children == []
      modifies this
      decreases depth, 1
      ensures Valid() && Grows(old(arena), arena)
      ensures |arena| == old(|arena|) + SubtreeSize(input, nodeIndex, depth) - 1
      ensures Rebuilt(input, arena, linearMeshNodes, old(|arena|), |arena|)
      ensures ChildIndices(arena, pos) == AttachingChildren(input, input.nodes[nodeIndex].children)
      ensures forall k :: 0 <= k < pos ==> arena[k].children == old(arena[k].children)
      ensures nodes == old(nodes)
      ensures |old(linearMeshNodes)| <= |linearMeshNodes|
      ensures linearMeshNodes[..|old(linearMeshNodes)|] == old(linearMeshNodes)
      ensures forall k :: |old(linearMeshNodes)| <= k < |linearMeshNodes| ==> pos < linearMeshNodes[k] < |arena|
      ensures |indexBuffer| <= |ib| && ib[..|indexBuffer|] == indexBuffer
      ensures |vertexBuffer| <= |vb| && vb[..|vertexBuffer|] == vertexBuffer
      ensures images == old(images) && textures == old(textures) && materials == old(materials)
      ensures animations == old(animations) && activeAnimation == old(activeAnimation)
    {
      var children := input.nodes[nodeIndex].children;
      ghost var d := if depth == 0 then 0 else depth - 1;
      SubtreeSizeOfChildren(input, nodeIndex, depth);
      ib, vb := indexBuffer, vertexBuffer;
      for i := 0 to |children|
        invariant Valid() && Grows(old(arena), arena)
        invariant |arena| == old(|arena|) + ForestSize(input, children[..i], d)
        invariant Rebuilt(input, arena, linearMeshNodes, old(|arena|), |arena|)
        invariant ChildIndices(arena, pos) == AttachingChildren(input, children[..i])
        invariant forall k :: 0 <= k < pos ==> arena[k].children == old(arena[k].children)
        invariant nodes == old(nodes)
        invariant |old(linearMeshNodes)| <= |linearMeshNodes|
        invariant linearMeshNodes[..|old(linearMeshNodes)|] == old(linearMeshNodes)
        invariant forall k :: |old(linearMeshNodes)| <= k < |linearMeshNodes| ==> pos < linearMeshNodes[k] < |arena|
        invariant |indexBuffer| <= |ib| && ib[..|indexBuffer|] == indexBuffer
        invariant |vertexBuffer| <= |vb| && vb[..|vertexBuffer|] == vertexBuffer
        invariant images == old(images) && textures == old(textures) && materials == old(materials)
        invariant animations == old(animations) && activeAnimation == old(activeAnimation)
      {
        ghost var before, lmnBefore, ibBefore, vbBefore := arena, linearMeshNodes, ib, vb;
        ib, vb := LoadChild(input, nodeIndex, pos, i, old(|arena|), ib, vb, normalize, depth);
        GrowsTransitive(old(arena), before, arena);
        ForestSizeStep(input, children, i, d);
        PrefixTransitive(old(linearMeshNodes), lmnBefore, linearMeshNodes);
        EntriesBetweenStep(old(linearMeshNodes), lmnBefore, linearMeshNodes, pos, |before|, |arena|);
        PrefixTransitive(indexBuffer, ibBefore, ib);
        PrefixTransitive(vertexBuffer, vbBefore, vb);
      }
      assert children[..|children|] == children;
    }

    /** One pass of the child loop: loads child i of the node at pos, extending what has been rebuilt from lo on. */
    method LoadChild(input: InputModel, nodeIndex: nat, pos: nat, i: nat, ghost lo: nat,
                     indexBuffer: seq<uint32>, vertexBuffer: seq<Vertex>,
                     normalize: Vec3 -> Vec3, ghost depth: nat)
      returns (ib: seq<uint32>, vb: seq<Vertex>)
      requires Valid() && InputReady(input) && nodeIndex < |input.nodes| && Bounded(input, nodeIndex, depth)
      requires i < |input.nodes[nodeIndex].children| && pos < lo <= |arena|
      requires Rebuilt(input, arena, linearMeshNodes, lo, |arena|)
      requires ChildIndices(arena, pos) == AttachingChildren(input, input.nodes[nodeIndex].children[..i])
      modifies this
      decreases depth, 0
      ensures Valid() && Grows(old(arena), arena)
      ensures depth > 0 && |arena| == old(|arena|) + SubtreeSize(input, input.nodes[nodeIndex].children[i], depth - 1)
      ensures Rebuilt(input, arena, linearMeshNodes, lo, |arena|)
      ensures ChildIndices(arena, pos) == AttachingChildren(input, input.nodes[nodeIndex].children[..i + 1])
      ensures forall k :: 0 <= k < pos ==> arena[k].children == old(arena[k].children)
      ensures nodes == old(nodes)
      ensures |old(linearMeshNodes)| <= |linearMeshNodes|
      ensures linearMeshNodes[..|old(linearMeshNodes)|] == old(linearMeshNodes)
      ensures forall k :: |old(linearMeshNodes)| <= k < |linearMeshNodes| ==> pos < linearMeshNodes[k] < |arena|
      ensures |indexBuffer| <= |ib| && ib[..|indexBuffer|] == indexBuffer
      ensures |vertexBuffer| <= |vb| && vb[..|vertexBuffer|] == vertexBuffer
      ensures images == old(images) && textures == old(textures) && materials == old(materials)
      ensures animations == old(animations) && activeAnimation == old(activeAnimation)
    {
      var children := input.nodes[nodeIndex].children;
      ghost var a, la := arena, linearMeshNodes;
      ib, vb := LoadNode(input, children[i], Some(pos), indexBuffer, vertexBuffer, normalize, depth - 1);
      ChildLoaded(input, children, i, pos, lo, a, arena, la, linearMeshNodes);
    }

    /** findNode: the first node in depth-first pre-order below `p` (p itself first) whose
        glTF index is k, or None. */
    method FindNode(p: nat, k: nat) returns (r: Option<nat>)
      requires ValidArena(arena) && p < |arena|
      ensures AllIn(Preorder(arena, p), |arena|) && r == FirstMatch(arena, Preorder(arena, p), k)
      decreases |arena| - p, 1
    {
      PreorderStart(arena, p, k);
      if arena[p].index == k {
        return Some(p);
      }
      r := FindInChildren(p, k);
    }

    /** The search of FindNode continued through the children of p, first to last. */
    method FindInChildren(p: nat, k: nat) returns (r: Option<nat>)
      requires ValidArena(arena) && p < |arena|
      requires forall i :: 0 <= i < |arena[p].children| ==> p < arena[p].children[i] < |arena|
      ensures AllIn(PreorderOf(arena, p, arena[p].children), |arena|)
      ensures r == FirstMatch(arena, PreorderOf(arena, p, arena[p].children), k)
      decreases |arena| - p, 0
    {
      var a := arena;
      var cs := a[p].children;
      PreorderStart(a, p, k);
      ghost var target := FirstMatch(a, PreorderOf(a, p, cs), k);
      r := None;
      for j := 0 to |cs|
        invariant a == arena
        invariant AllIn(PreorderOf(a, p, cs[j..]), |a|)
        invariant target == FirstMatch(a, PreorderOf(a, p, cs[j..]), k)
      {
        PreorderOfStep(a, p, cs, j, k);
        var found := FindNode(cs[j], k);
        if found.Some? {
          return found;
        }
      }
      assert cs[|cs|..] == [];
    }

    /** nodeFromIndex: the first match of findNode over the roots, in root order. */
    method NodeFromIndex(k: nat) returns (r: Option<nat>)
      requires Valid()
      ensures AllIn(ForestPreorder(arena, nodes), |arena|) && r == FirstMatch(arena, ForestPreorder(arena, nodes), k)
    {
      ForestInArena(arena, nodes);
      r := None;
      for j := 0 to |nodes|
        invariant AllIn(nodes[j..], |arena|) && AllIn(ForestPreorder(arena, nodes[j..]), |arena|)
        invariant FirstMatch(arena, ForestPreorder(arena, nodes), k) == FirstMatch(arena, ForestPreorder(arena, nodes[j..]), k)
      {
        ForestStep(arena, nodes, j, k);
        var found := FindNode(nodes[j], k);
        if found.Some? {
          return found;
        }
      }
      assert nodes[|nodes|..] == [];
    }

    /** The world transform of everything above a position (the identity above a root). */
    ghost function Above(c: Option<nat>): Matrix
      reads this
      requires ValidArena(arena) && (c.Some? ==> c.value < |arena|)
    {
      match c
      case None => Identity
      case Some(p) => WorldMatrix(arena, p)
    }

    /** getNodeMatrix: the local matrix multiplied on the left by each ancestor's local matrix,
        walking up the parent links; this is the node's world transform. */
    method GetNodeMatrix(i: nat) returns (m: Matrix)
      requires Valid() && i < |arena|
      ensures m == WorldMatrix(arena, i)
    {
      assert NodeLinked(arena, i);
      m := LocalMatrix(arena[i]);
      var current := arena[i].parent;
      MulMonoid(Identity, Identity, m);
      while current.Some?
        invariant current.Some? ==> current.value < |arena|
        invariant Mul(Above(current), m) == WorldMatrix(arena, i)
        decreases if current.Some? then current.value + 1 else 0
      {
        var c := current.value;
        assert NodeLinked(arena, c);
        MulMonoid(Above(arena[c].parent), LocalMatrix(arena[c]), m);
        m := Mul(LocalMatrix(arena[c]), m);
        current := arena[c].parent;
      }
      MulMonoid(m, m, m);
    }

    /** updateMeshUniformBuffers: the matrix written for each mesh node, in order. */
    method UpdateMeshUniformBuffers() returns (uploaded: seq<Matrix>)
      requires Valid()
      ensures |uploaded| == |linearMeshNodes|
      ensures forall k :: 0 <= k < |uploaded| ==> uploaded[k] == WorldMatrix(arena, linearMeshNodes[k])
    {
      uploaded := [];
      for k := 0 to |linearMeshNodes|
        invariant |uploaded| == k
        invariant forall j :: 0 <= j < k ==> uploaded[j] == WorldMatrix(arena, linearMeshNodes[j])
      {
        var m := GetNodeMatrix(linearMeshNodes[k]);
        uploaded := uploaded + [m];
      }
    }

    /** One iteration of loadAnimations: the clip's samplers and bounds, then its channels,
        each bound to the node its target index finds in the current tree. */
    method LoadAnimation(a: InputAnimation) returns (animation: Animation)
      requires Valid()
      ensures animation == LoadedAnimation(arena, nodes, a)
    {
      var samplers, start, end := LoadSamplers(a.samplers, FltMax, FltMin);
      ghost var tree, roots := arena, nodes;
      var channels: seq<Channel> := [];
      for j := 0 to |a.channels|
        invariant channels == seq(j, i requires 0 <= i < j => BoundChannel(tree, roots, a.channels[i]))
      {
        var node := NodeFromIndex(ToUint32(a.channels[j].targetNode));
        BoundPrefixStep(tree, roots, a.channels, j);
        channels := channels + [Channel(a.channels[j].targetPath, node, ToUint32(a.channels[j].sampler))];
      }
      animation := Animation(a.name, samplers, channels, start, end, 0.0);
    }

    /** loadAnimations: every clip with its samplers, its channels bound to nodes, the
        bounds of its key times and its clock at 0. */
    method LoadAnimations(input: seq<InputAnimation>)
      requires Valid()
      modifies this
      ensures Valid()
      ensures |animations| == |input|
      ensures forall i :: 0 <= i < |input| ==> animations[i] == LoadedAnimation(arena, nodes, input[i])
      ensures arena == old(arena) && nodes == old(nodes) && linearMeshNodes == old(linearMeshNodes)
      ensures images == old(images) && textures == old(textures) && materials == old(materials)
      ensures activeAnimation == old(activeAnimation)
    {
      var loaded: seq<Animation> := [];
      for i := 0 to |input|
        invariant unchanged(this)
        invariant |loaded| == i
        invariant forall j :: 0 <= j < i ==> loaded[j] == LoadedAnimation(arena, nodes, input[j])
      {
        var animation := LoadAnimation(input[i]);
        loaded := loaded + [animation];
      }
      animations := loaded;
    }

    /** updateAnimation: with the active clip missing, nothing changes. Otherwise the clip's
        clock advances (wrapping once past the end), its channels animate the tree at the new
        time, and the mesh nodes' world matrices are uploaded. */
    method UpdateAnimation(deltaTime: real, slerp: (Quat, Quat, real) -> Quat, normalize: Quat -> Quat)
      returns (uploaded: seq<Matrix>)
      requires Valid()
      requires activeAnimation < |animations| ==> AnimationReady(animations[activeAnimation], |arena|)
      modifies this
      ensures activeAnimation == old(activeAnimation) && |animations| == old(|animations|) && Valid()
      ensures GuardCorrected(activeAnimation, |animations|) ==>
                arena == old(arena) && animations == old(animations) && uploaded == []
      ensures !GuardCorrected(activeAnimation, |animations|) ==>
                var a := old(animations[activeAnimation]);
                var t := AdvanceClock(a.currentTime, deltaTime, a.end);
                && animations == old(animations)[activeAnimation := a.(currentTime := t)]
                && arena == AnimateNodes(old(arena), a.samplers, a.channels, t, slerp, normalize)
                && |uploaded| == |linearMeshNodes|
                && forall k :: 0 <= k < |uploaded| ==> uploaded[k] == WorldMatrix(arena, linearMeshNodes[k])
      ensures nodes == old(nodes) && linearMeshNodes == old(linearMeshNodes)
      ensures images == old(images) && textures == old(textures) && materials == old(materials)
    {
      if GuardCorrected(activeAnimation, |animations|) {
        // "No animation with index ..."
        return [];
      }
      var a := animations[activeAnimation];
      var t := AdvanceClock(a.currentTime, deltaTime, a.end);
      animations := animations[activeAnimation := a.(currentTime := t)];

      AnimationKeepsTree(arena, a.samplers, a.channels, t, slerp, normalize);
      arena := AnimateChannels(arena, a.samplers, a.channels, t, slerp, normalize);
      uploaded := UpdateMeshUniformBuffers();
    }
  }

  /** A two-node glTF file: a root whose one child has translation (1, 0, 0) and no mesh. */
  function TwoNodeFile(): InputModel
  {
    InputModel([InputNode([], [], [], [], [1], -1), InputNode([1.0, 0.0, 0.0], [], [], [], [], -1)], [])
  }

  /** What loading TwoNodeFile from an empty arena leaves: two nodes, the child under the
      root with its own translation, and neither of them recorded as a mesh node. */
  lemma TwoNodeSceneBuilt(arena: seq<Node>, meshNodes: seq<nat>)
    requires InputReady(TwoNodeFile()) && ValidArena(arena)
    requires |arena| == SubtreeSize(TwoNodeFile(), 0, 1)
    requires Rebuilt(TwoNodeFile(), arena, meshNodes, 0, |arena|)
    requires arena[0].index == 0
    ensures |arena| == 2 && 0 !in meshNodes && 1 !in meshNodes
    ensures arena[0].children == [1] && arena[1].parent == Some(0)
    ensures arena[1].translation == Vec3(1.0, 0.0, 0.0) && arena[1].mesh == []
  {
    var input := TwoNodeFile();
    assert [1][..0] == [];
    assert |arena| == 2;
    assert AttachingChildren(input, [1]) == [1];
    assert NodeLinked(arena, 0);
    assert ChildIndices(arena, 0) == [1];
    assert |arena[0].children| == 1 && 0 < arena[0].children[0] < 2;
    assert NodeLinked(arena, 1);
    assert NodeBuilt(input, arena[0]) && NodeBuilt(input, arena[1]);
    assert arena[0].mesh == [] && arena[1].mesh == [];
  }

  /** Loading TwoNodeFile into an empty model. */
  method LoadTwoNodeScene(normalize: Vec3 -> Vec3) returns (m: Model)
    ensures |m.arena| == 2 && m.nodes == [0] && 0 !in m.linearMeshNodes && 1 !in m.linearMeshNodes
    ensures m.arena[0].children == [1] && m.arena[1].parent == Some(0)
    ensures m.arena[1].translation == Vec3(1.0, 0.0, 0.0) && m.arena[1].mesh == []
  {
    var input := TwoNodeFile();
    m := new Model();
    assert Bounded(input, 1, 0);
    var ib, vb := m.LoadNode(input, 0, None, [], [], normalize, 1);
    TwoNodeSceneBuilt(m.arena, m.linearMeshNodes);
  }
}
