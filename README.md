# glTF scene graph and animation model

This project is a Dafny model of the scene-graph and animation core of the glTF
sample loader `VulkanglTFModel` (homework 1). It covers six parts:

- **Node tree.** `loadNode` builds the tree recursively. Each node is attached
  to its parent's `children` or to the root list `nodes`. A node that has
  primitives is also recorded in `linearMeshNodes`. `~VulkanglTFModel` frees the
  tree by deleting the roots, and `~Node` deletes each subtree.
- **Geometry extraction.** Inside `loadNode`, every primitive's vertices are
  appended to one shared vertex buffer. Its 8-, 16- or 32-bit indices are
  widened to `uint32_t`, shifted by the primitive's vertex start and appended to
  one shared index buffer. The primitive is recorded as the range
  `[firstIndex, firstIndex + indexCount)` of that buffer.
- **Lookup and world transform.**
  - `findNode` and `nodeFromIndex` search the tree depth-first, in pre-order,
    for a glTF node index.
  - `getNodeMatrix` multiplies a node's local matrix by each ancestor's local
    matrix, walking up the parent links. The local matrix is
    `Node::getLocalMatrix`: translate * rotate * scale * matrix.
- **Animation.**
  - `loadAnimations` stores the samplers and channels, and binds each channel
    to a node. It widens a clip's `start`/`end` from `FLT_MAX`/`FLT_MIN` over
    all key times.
  - `updateAnimation` advances the clock, subtracting `end` once when it passes
    the end. For every channel it writes the interpolated translation, rotation
    or scale of the keyframe interval that holds the time.
  - It then uploads the world matrix of every mesh node.
- **Materials.** `loadTextures` and `loadMaterials` resolve texture references
  to image indices, with -1 meaning "none". The descriptor setup then chooses
  five images per material. Three are mandatory (an error is thrown without
  them), and two fall back to default images.
- **Images.** `loadImages` widens RGB images to RGBA before upload.

## Module layout

- `GltfTypes` (`types.dfy`): `uint32` wrap-around, vectors, quaternions, `glm::mix`, Option/Result.
- `Transform` (`transform.dfy`): matrices as products of factors, with the monoid laws and their action on points.
- `Scene` (`scene.dfy`): nodes, the arena invariant, world matrices, pre-order, search, and what the destructor frees.
- `Geometry` (`geometry.dfy`): the vertex and index appends and the primitive loop of `loadNode`.
- `Images` (`images.dfy`): the RGB to RGBA widening loop over an array.
- `Materials` (`materials.dfy`): texture resolution and the choice of descriptor images.
- `Animations` (`animation.dfy`): sampler loading, clip bounds, the clock and interpolation.
- `GltfModel` (`model.dfy`): the class `Model` with the fields the loaders and `updateAnimation` change in place.

### Design notes

- **Node pointers.** Every `Node*` is a position in the arena `Model.arena`.
  `loadNode` allocates a node before its children, so a parent always sits at a
  lower position than its children. `Scene.ValidArena` states that, together
  with the agreement of the parent and child links.
- **Matrices.** A matrix is a list of factors: translate, rotate, scale, or a
  raw 4×4 matrix. The product is concatenation. `Transform.Apply` gives each
  matrix its action on homogeneous points, so concrete placements can be
  proved (`Scene.ChainScenario`).
- **Rotation default.** The default rotation of `Node{}` is `glm::quat rotation{}`.
  What that holds depends on how GLM is configured: with `GLM_FORCE_CTOR_INIT`
  it is the identity quaternion (0, 0, 0, 1), otherwise its four components are
  zero. The model uses zero components. Either way its rotation matrix is the
  identity (`Transform.CollapsedFactorsAreIdentity`), so the choice does not
  change any placement.
- **Parameters.** `glm::slerp` and `glm::normalize` are function-valued
  parameters, so nothing about them is assumed.
- **Real numbers.** Times and keyframe values are `real`.
- **Fixed-width arithmetic.** The `uint32_t` arithmetic of the source is written
  out with `ToUint32`. This covers `firstIndex`, `vertexStart`, `indexCount`,
  the appended indices, `samplerIndex`, the target node index passed to
  `nodeFromIndex` and the `activeAnimation` guard.
- **Header versus `.cpp`.** `homework/homework1/homework1.h` does not match
  `homework/homework1/homework1.cpp`. The header's `Material` has only a base
  colour and `loadNode` has no `nodeIndex` parameter. The model follows the
  `.cpp`.
  - Material fields are taken from their uses in the `.cpp`.
  - The optional occlusion and emissive image indices default to -1. This
    matches the `> -1` tests of the descriptor setup.
- **Undefined behaviour as preconditions.** Inputs on which the source reads out
  of range or divides by zero become preconditions:
  - `Materials.TextureRefsInRange`;
  - `Animations.SamplerReady` (at least one key time, increasing times and
    enough values for LINEAR sampling);
  - `Animations.ChannelReady`;
  - `GltfModel.InputReady`.

## Model

| member | source | states |
|---|---|---|
| GltfTypes.ToUint32 | homework/homework1/homework1.cpp:188-189 | `static_cast<uint32_t>` keeps values below 2^32 and otherwise agrees with the value modulo 2^32 |
| GltfTypes.MixBounds | homework/homework1/homework1.cpp:501 | `glm::mix` gives the first end point at 0 and the second at 1, and lies between them for a factor in [0, 1] |
| Transform.MulMonoid | homework/homework1/homework1.cpp:339 | the matrix product is associative and has the identity as unit on both sides (immediate for the factor-list representation; `ApplyMul` carries the content) |
| Transform.ApplyMul | homework/homework1/homework1.cpp:339 | multiplying two matrices composes their actions on points |
| Transform.CollapsedFactorsAreIdentity | homework/homework1/homework1.cpp:24 | translating by zero, scaling by one, the identity matrix and a quaternion with zero vector part all act as the identity |
| Transform.SmartConstructorsSound | homework/homework1/homework1.cpp:24 | each of `glm::translate`, `mat4(quat)`, `glm::scale` and a raw matrix acts on points as the factor it stands for |
| Scene.LocalMatrixDefaults | homework/homework1/homework1.h:92-95 | the local matrix of a default node is the identity, and with only a translation set it is that translation |
| Scene.Chain | homework/homework1/homework1.cpp:336-341 | the parent walk of `getNodeMatrix` ends at a root, follows the parent links and ends at the node itself |
| Scene.WorldIsChainProduct | homework/homework1/homework1.cpp:333-343 | a node's world matrix is L(root) * ... * L(parent) * L(node) along its ancestor chain |
| Scene.WorldOfRootAndChild | homework/homework1/homework1.cpp:333-343 | a root's world matrix is its local matrix, and a root's child has L(parent) * L(child) |
| Scene.ChainScenario | homework/homework1/homework1.cpp:22-25 | in the tree root (scale 2), child (translation (1,0,0)), grandchild, the grandchild's origin is placed at (2,0,0) |
| Scene.FirstMatch | homework/homework1/homework1.cpp:300-316 | the search result is absent exactly when no visited node has the index, and otherwise it is the first visited node that has it |
| Scene.FirstMatchAppend | homework/homework1/homework1.cpp:307-314 | searching two visit lists one after the other stops in the first list when it has a match |
| Scene.PreorderStart | homework/homework1/homework1.cpp:303-306 | `findNode` returns the node itself when its index matches, and otherwise the first match among its children's subtrees |
| Scene.SubtreeAttached | homework/homework1/homework1.h:98-104 | every node of an attached node's subtree is attached, which is what the recursive `~Node` reaches |
| Scene.DeletingRootsFreesAttached | homework/homework1/homework1.cpp:30-34 | deleting the root list frees exactly the nodes linked to a root through `children` |
| Geometry.OffsetIndices | homework/homework1/homework1.cpp:248-267 | each appended index is the source index plus `vertexStart`, modulo 2^32, and exactly that sum when it fits |
| Geometry.AppendVertices | homework/homework1/homework1.cpp:228-236 | the vertex buffer grows by exactly the POSITION count, vertex v being built from entry v of each stream with the stated defaults |
| Geometry.AppendIndices | homework/homework1/homework1.cpp:250-252 | the index buffer keeps its contents and gains one widened, offset index per accessor element, in order |
| Geometry.LoadPrimitivesShape | homework/homework1/homework1.cpp:244-279 | loading a mesh only appends to the buffers, and it completes exactly when every index type is supported; otherwise it stops at the first unsupported primitive, and the recorded primitives carry the accessor counts and materials |
| Geometry.FirstPrimitiveRange | homework/homework1/homework1.cpp:188-190 | the first primitive's range starts at the old end of the index buffer, and its vertices at the old end of the vertex buffer |
| Geometry.PrimitiveRanges | homework/homework1/homework1.cpp:188-278 | primitive k's range `[firstIndex, firstIndex + indexCount)` holds exactly its own indices offset by its own vertex start, and its vertices sit at that start |
| Geometry.LoadMesh | homework/homework1/homework1.cpp:186-279 | the primitive loop produces the buffers, primitives and completion flag of `LoadPrimitives` |
| Images.ExpandRgbToRgba | homework/homework1/homework1.cpp:68-79 | the widened buffer has width*height*4 bytes; bytes 4p..4p+2 are source bytes 3p..3p+2, and byte 4p+3 is never written |
| Images.UploadBuffer | homework/homework1/homework1.cpp:67-83 | a three-component image is uploaded widened, and any other image as its own bytes |
| Images.UploadImages | homework/homework1/homework1.cpp:56-90 | each image gets its upload buffer, in order |
| Materials.SelectTextures | homework/homework1/homework1.cpp:848-866 | the three errors are thrown in order, exactly when a mandatory image index is ≤ -1; otherwise the five slots are the three images and either the optional image or the default occlusion/emissive image |
| Materials.DescriptorsOfLoadedMaterial | homework/homework1/homework1.cpp:100-141 | a loaded material gets its descriptors exactly when its three mandatory textures sample an image, and an optional map falls back to the default when absent or imageless |
| Materials.SelectedImagesExist | homework/homework1/homework1.cpp:857-863 | every model image a written descriptor set names is a loaded image |
| Materials.SetupMaterialDescriptors | homework/homework1/homework1.cpp:840-866 | sets are written material by material until the first error, which is reported for the first failing material |
| Animations.ReadOutputs | homework/homework1/homework1.cpp:399-418 | the push_back loops store exactly `OutputsVec4` of the accessor |
| Animations.Lowest | homework/homework1/homework1.cpp:380-383 | the running `start` is at most its initial value and every key time, and it is one of them |
| Animations.Highest | homework/homework1/homework1.cpp:384-387 | the running `end` is at least its initial value and every key time, and it is one of them |
| Animations.BoundsAppend | homework/homework1/homework1.cpp:378-388 | running the bounds over one list after another equals running them over the concatenation |
| Animations.AdjustBounds | homework/homework1/homework1.cpp:378-388 | the loop over one sampler's key times yields the running minimum and maximum |
| Animations.LoadSampler | homework/homework1/homework1.cpp:362-420 | one sampler is stored with its interpolation, times and widened values, and widens the clip bounds by its times |
| Animations.LoadSamplers | homework/homework1/homework1.cpp:359-421 | all samplers are stored in order, and `start`/`end` are the minimum/maximum of the initial values and every sampler's key times |
| Animations.BoundsCoverKeyframes | homework/homework1/homework1.h:153-155 | starting from FLT_MAX and FLT_MIN, the clip bounds enclose every key time, and `end` is never below FLT_MIN |
| Animations.ClockStaysInClip | homework/homework1/homework1.cpp:477-482 | a step no longer than the clip keeps the clock in [0, end] |
| Animations.ClockWrapsOnce | homework/homework1/homework1.cpp:478-482 | the wrap subtracts `end` once and is not a modulo, so a step past two clip lengths leaves the clock beyond the end |
| Animations.LastBracketBelow | homework/homework1/homework1.cpp:487-497 | the interval whose write survives the scan is the last one holding the time, and when there is none no interval holds it |
| Animations.FractionInUnit | homework/homework1/homework1.cpp:498 | with increasing key times, the factor `a` of an interval holding t lies in [0, 1], and is 0 at the interval's start and 1 at its end |
| Animations.ChannelTarget | homework/homework1/homework1.cpp:486-524 | a non-LINEAR sampler or a single key time leaves the node unchanged, only the channel's own path can change, and the tree links, mesh, index and matrix never change |
| Animations.ApplyChannel | homework/homework1/homework1.cpp:487-523 | the keyframe loop for one channel produces `ChannelTarget`, the last interval holding the time deciding the value |
| Animations.KeyframeReproduced | homework/homework1/homework1.cpp:496-522 | at a key time, a LINEAR translation or scale channel sets exactly that keyframe's value |
| Animations.ValueBetweenKeyframes | homework/homework1/homework1.cpp:495-522 | strictly between two key times, each of x, y and z of a LINEAR translation or scale lies between the two keyframe values, whichever of them is larger |
| Animations.MidpointRoundTrip | homework/homework1/homework1.cpp:495-522 | halfway between two key times a LINEAR translation or scale is exactly the midpoint of the two keyframe values; with two keyframes, the value at half the clip |
| Animations.ChannelStep | homework/homework1/homework1.cpp:486-524 | one channel changes at most its own target node, only when its sampler is LINEAR, and keeps every node's structure |
| Animations.AnimateNodes | homework/homework1/homework1.cpp:484-525 | animating keeps the number of nodes and their structure, and a node no channel targets is unchanged |
| Animations.AnimateChannels | homework/homework1/homework1.cpp:484-525 | the channel loop, writing into the nodes in place, yields `AnimateNodes` of the old nodes |
| Animations.AnimationKeepsTree | homework/homework1/homework1.cpp:484-525 | after animating, the parent and child links still form a valid tree |
| Animations.GuardAsWrittenAdmitsEmpty | homework/homework1/homework1.cpp:472 | with no animations the guard as written lets index 0 through, and the corrected guard stops it |
| Animations.GuardsAgreeWhenNonEmpty | homework/homework1/homework1.cpp:472-476 | for a non-empty list the written and corrected guards agree |
| GltfModel.NodeFromInput | homework/homework1/homework1.cpp:147-171 | a new node takes its parent and index, has no children and no mesh, keeps the default of every transform property the glTF node lacks, and takes the given value of every property it has |
| GltfModel.InputNodeLocalMatrix | homework/homework1/homework1.cpp:155-171 | a node with no transform property is placed by the identity, one with only a matrix by that matrix, and one with only a translation by that translation |
| GltfModel.PushKeepsTree | homework/homework1/homework1.cpp:147-149 | allocating a childless node below an existing parent keeps the tree valid and changes no existing node |
| GltfModel.AttachKeepsTree | homework/homework1/homework1.cpp:282-284 | appending a node to its parent's `children` keeps the tree valid and only extends that parent |
| GltfModel.RecordsSubtreeAppend | homework/homework1/homework1.cpp:290-293 | recording a node after its subtree's mesh nodes puts it last, after higher positions only |
| GltfModel.Model.constructor | homework/homework1/homework1.h:168 | a fresh model is empty and `activeAnimation` is 0, so playback uses the first clip |
| GltfModel.Model.LoadImages | homework/homework1/homework1.cpp:56-90 | each image's uploaded bytes are as `UploadedAs` describes, and no other field changes |
| GltfModel.Model.LoadTextures | homework/homework1/homework1.cpp:92-98 | texture i samples the image of glTF texture i's `source`, and no other field changes |
| GltfModel.Model.LoadMaterials | homework/homework1/homework1.cpp:100-141 | material i is glTF material i resolved through the texture table, and no other field changes |
| GltfModel.Model.LoadNode | homework/homework1/homework1.cpp:143-294 | the new node has the input's transform and sits after every existing node; it is the last child of its parent, or the last root, exactly when every index type of its mesh is supported; every node of the new subtree is built from its own glTF node (transform as `NodeFromInput`; no mesh when the glTF node has none, otherwise primitives with the glTF index counts and materials, all of them when attached), has as `children` the nodes of its glTF children that were attached, in order, and is in `linearMeshNodes` exactly when it is attached with primitives, the new node after its subtree's mesh nodes; exactly `SubtreeSize` nodes are added; the buffers only grow; the tree stays valid |
| GltfModel.AttachingChildren | homework/homework1/homework1.cpp:174-178 | the children a node ends up with are exactly its glTF children whose load attaches them, in the glTF order |
| GltfModel.Model.LoadChildren | homework/homework1/homework1.cpp:174-178 | the parent's `children` become the nodes of its attaching glTF children, in order; every new node is built from its glTF node with its own children and mesh-node record; the children's subtree sizes add up to the nodes appended; no node below the parent changes its children, no root is added, and the tree stays valid |
| GltfModel.Model.LoadChild | homework/homework1/homework1.cpp:175-177 | one pass of the child loop appends the i-th child to the parent exactly when it attaches, appends exactly the child's subtree size in nodes, and keeps everything loaded so far rebuilt |
| GltfModel.SubtreeSizeOfChildren | homework/homework1/homework1.cpp:174-178 | a node's subtree is itself plus its children's subtrees, and a node at the depth bound has no children |
| GltfModel.TwoNodeSceneBuilt | homework/homework1/homework1.cpp:143-294 | any arena rebuilt from a root with one child translated by (1, 0, 0) has two nodes, the child under the root with that translation and no mesh, and neither node recorded as a mesh node |
| GltfModel.LoadTwoNodeScene | homework/homework1/homework1.cpp:143-294 | loading that file into an empty model gives exactly that arena, with the root as the only root |
| GltfModel.Model.LoadNodeMesh | homework/homework1/homework1.cpp:183-280 | only the node's mesh changes, and it becomes the primitives of `LoadPrimitives`, one per glTF primitive with its index count and material when attached; the node will be attached exactly when every index type is supported |
| GltfModel.Model.AttachNode | homework/homework1/homework1.cpp:282-293 | the node is appended to its parent's children, or to the roots, and to the mesh nodes when it has primitives |
| GltfModel.Model.LoadMeshAndAttach | homework/homework1/homework1.cpp:183-293 | the node gets the mesh of `LoadPrimitives` and is attached and recorded only when the mesh load completes; with its subtree already rebuilt, the node itself is then rebuilt too |
| GltfModel.Model.FindNode | homework/homework1/homework1.cpp:300-316 | the result is the first node, in depth-first pre-order from p, whose index is k, or none when there is no such node |
| GltfModel.Model.NodeFromIndex | homework/homework1/homework1.cpp:318-330 | the result is the first match over the roots' pre-orders, in root order |
| GltfModel.Model.GetNodeMatrix | homework/homework1/homework1.cpp:333-343 | the parent walk yields the node's world matrix |
| GltfModel.Model.UpdateMeshUniformBuffers | homework/homework1/homework1.cpp:456-467 | mesh node k's uploaded matrix is its world matrix |
| GltfModel.Model.LoadAnimation | homework/homework1/homework1.cpp:355-432 | one clip is stored as `LoadedAnimation`, with each channel bound to `nodeFromIndex` of its target |
| GltfModel.Model.LoadAnimations | homework/homework1/homework1.cpp:349-434 | every clip is loaded against the current tree, in order, and nothing else changes |
| GltfModel.Model.UpdateAnimation | homework/homework1/homework1.cpp:470-528 | with no active clip nothing changes; otherwise only the clip's clock and the animated nodes change, the tree stays valid, and every mesh node's world matrix is uploaded |

## Left out

- Vulkan is not modelled: buffers, images, descriptor sets, pipelines, the uniform `memcpy` and `prepareMeshUniformBuffers`. An upload is modelled as the bytes or matrix handed to it.
- tinygltf parsing and the `reinterpret_cast` reads out of buffer views are not modelled. Accessors arrive decoded.
- Float rounding is not modelled: times, keyframe values and matrix entries are exact reals.
- `glm::slerp` and `glm::normalize` are opaque parameters.
- The `loadAssets` driver is not part of this model. This includes its loop over the scene's root nodes (homework/homework1/homework1.cpp:692-703) and image decoding.
- The messages printed for an unknown output type, a non-LINEAR sampler, a missing animation and an unsupported index type are not modelled.
- The contents of the uninitialised `new unsigned char[]` in `loadImages` are a parameter, `uninit`.
- Node indices are unbounded naturals rather than `uint32_t`. A target node index is still reduced modulo 2^32 before the search.
- GltfModel.Model.LoadNode: states the node's mesh through some pre-mesh state of the shared buffers. It does not say that this state is the one after the children were loaded (`LoadMeshAndAttach` states it exactly).
- GltfModel.Model.UpdateMeshUniformBuffers: does not model the `mapped` test. The primitives test always holds, because only nodes with primitives are recorded.
- Animations.ChannelReady: demands a node for every LINEAR channel, even one whose time falls in no interval and so never dereferences the node.
- Materials.TextureRefsInRange: demands the three mandatory texture references to be in range. A reference of -1 reads `textures[-1]` in the source, which is undefined behaviour.
- Animations.SamplerReady: demands at least one key time and, for a LINEAR sampler, strictly increasing key times and at least as many output values as key times. The glTF 2.0 specification requires every sampler's key times to be strictly increasing and paired one to one with its outputs; two equal adjacent times would make the interpolation factor divide by zero, and fewer outputs would be read past. With no key time at all, the loop bound `inputs.size() - 1` would wrap around.
- GltfModel.InputReady: demands that child, mesh and accessor indices point into the file.
- GltfModel.Model.LoadNode: demands `GltfModel.Bounded`, a bound on the depth of the glTF child graph. The source has no cycle check: a file whose child links form a cycle makes `loadNode` recurse until the stack overflows, and such input is outside the model.
- A node whose mesh has an unsupported index type is never attached and leaks. `Scene.DeletingRootsFreesAttached` shows that the destructor frees only attached nodes.

## Findings

| source | as written | input that shows it | evidently intended | confidence | as-written member | corrected member |
|---|---|---|---|---|---|---|
| homework/homework1/homework1.cpp:472 | `activeAnimation > static_cast<uint32_t>(animations.size()) - 1` is computed in `uint32_t`, so for an empty list the bound wraps to 4294967295 | no animations and `activeAnimation == 0`: the guard passes and `animations[0]` of an empty vector is read | skip the update whenever `activeAnimation >= animations.size()` | not executed | Animations.GuardAsWritten, Animations.GuardAsWrittenAdmitsEmpty | GltfModel.Model.UpdateAnimation |
