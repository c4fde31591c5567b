/**
 The geometry extractor of loadNode: the primitives of one mesh are appended
 to the model's shared vertex buffer and shared index buffer, and each one is
 recorded as a range of the index buffer.

 Accessors arrive already decoded (the byte-level reads out of buffer views are
 not part of this model): POSITION, NORMAL, TEXCOORD_0 and TANGENT are
 optional sequences of vectors, and the index accessor is its component type
 with the decoded values.
 */
module Geometry {
  import opened GltfTypes
  import opened Scene

  /** TINYGLTF_PARAMETER_TYPE_UNSIGNED_BYTE, _UNSIGNED_SHORT and _UNSIGNED_INT. */
  const UnsignedByte: int := 5121
  const UnsignedShort: int := 5123
  const UnsignedInt: int := 5125

  datatype IndexAccessor = IndexAccessor(componentType: int, values: seq<nat>)

  datatype InputPrimitive = InputPrimitive(
    positions: Option<seq<Vec3>>,
    normals: Option<seq<Vec3>>,
    texCoords: Option<seq<Vec2>>,
    tangents: Option<seq<Vec4>>,
    indices: IndexAccessor,
    material: int)

  datatype Vertex = Vertex(pos: Vec3, normal: Vec3, uv: Vec2, color: Vec3, tangent: Vec4)

  predicate Supported(componentType: int)
  {
    componentType == UnsignedByte || componentType == UnsignedShort || componentType == UnsignedInt
  }

  /** The number of vertices a primitive contributes: the POSITION count, or 0 without POSITION. */
  function VertexCount(p: InputPrimitive): nat
  {
    if p.positions.Some? then |p.positions.value| else 0
  }

  /** What the source reads without checking: optional streams cover every vertex, and the
      decoded indices fit the width of their component type. */
  ghost predicate WellFormedPrimitive(p: InputPrimitive)
  {
    && (p.normals.Some? ==> |p.normals.value| >= VertexCount(p))
    && (p.texCoords.Some? ==> |p.texCoords.value| >= VertexCount(p))
    && (p.tangents.Some? ==> |p.tangents.value| >= VertexCount(p))
    && forall k :: 0 <= k < |p.indices.values| ==>
         && (p.indices.componentType == UnsignedByte ==> p.indices.values[k] < 0x100)
         && (p.indices.componentType == UnsignedShort ==> p.indices.values[k] < 0x1_0000)
         && (p.indices.componentType == UnsignedInt ==> p.indices.values[k] < Two32)
  }

  ghost predicate WellFormedPrimitives(ps: seq<InputPrimitive>)
  {
    forall j :: 0 <= j < |ps| ==> WellFormedPrimitive(ps[j])
  }

  /** Vertex v of a primitive: missing normals are the zero vector before normalisation,
      missing UVs are zero, the colour is white and a missing tangent is vec4(0xff). */
  function MakeVertex(p: InputPrimitive, v: nat, normalize: Vec3 -> Vec3): Vertex
    requires WellFormedPrimitive(p) && v < VertexCount(p)
  {
    Vertex(
      p.positions.value[v],
      normalize(if p.normals.Some? then p.normals.value[v] else Zero3),
      if p.texCoords.Some? then p.texCoords.value[v] else Vec2(0.0, 0.0),
      One3,
      if p.tangents.Some? then p.tangents.value[v] else Vec4(255.0, 255.0, 255.0, 255.0))
  }

  function PrimitiveVertices(p: InputPrimitive, normalize: Vec3 -> Vec3): seq<Vertex>
    requires WellFormedPrimitive(p)
  {
    seq(VertexCount(p), v requires 0 <= v < VertexCount(p) => MakeVertex(p, v, normalize))
  }

  /** Indices widened to 32 bits with `vertexStart` added in uint32_t arithmetic. */
  function OffsetIndices(values: seq<nat>, vertexStart: uint32): (r: seq<uint32>)
    ensures |r| == |values|
    ensures forall k :: 0 <= k < |values| ==> (r[k] - values[k] - vertexStart) % Two32 == 0
    ensures forall k :: 0 <= k < |values| && values[k] + vertexStart < Two32 ==>
              r[k] == values[k] + vertexStart
  {
    seq(|values|, k requires 0 <= k < |values| => ToUint32(values[k] + vertexStart))
  }

  /** The vertex loop of loadNode: one vertex per POSITION entry pushed onto the buffer. */
  method AppendVertices(vertexBuffer: seq<Vertex>, p: InputPrimitive, normalize: Vec3 -> Vec3)
    returns (vb: seq<Vertex>)
    requires WellFormedPrimitive(p)
    ensures |vb| == |vertexBuffer| + VertexCount(p)
    ensures vb[..|vertexBuffer|] == vertexBuffer
    ensures forall v :: 0 <= v < VertexCount(p) ==> vb[|vertexBuffer| + v] == MakeVertex(p, v, normalize)
    ensures vb == vertexBuffer + PrimitiveVertices(p, normalize)
  {
    vb := vertexBuffer;
    var v := 0;
    while v < VertexCount(p)
      invariant 0 <= v <= VertexCount(p)
      invariant vb == vertexBuffer + PrimitiveVertices(p, normalize)[..v]
    {
      vb := vb + [MakeVertex(p, v, normalize)];
      v := v + 1;
    }
  }

  /** The index loop of loadNode: `indexBuffer.push_back(buf[index] + vertexStart)`. */
  method AppendIndices(indexBuffer: seq<uint32>, values: seq<nat>, vertexStart: uint32)
    returns (ib: seq<uint32>)
    ensures |ib| == |indexBuffer| + |values|
    ensures ib[..|indexBuffer|] == indexBuffer
    ensures forall k :: 0 <= k < |values| ==> ib[|indexBuffer| + k] == ToUint32(values[k] + vertexStart)
    ensures ib == indexBuffer + OffsetIndices(values, vertexStart)
  {
    ib := indexBuffer;
    var index := 0;
    while index < |values|
      invariant 0 <= index <= |values|
      invariant ib == indexBuffer + OffsetIndices(values, vertexStart)[..index]
    {
      ib := ib + [ToUint32(values[index] + vertexStart)];
      index := index + 1;
    }
  }

  /** The outcome of loading one mesh: both buffers, the primitives recorded, and whether
      loadNode got past the mesh (false: it returned at an unsupported index type). */
  datatype MeshLoad = MeshLoad(
    indexBuffer: seq<uint32>, vertexBuffer: seq<Vertex>, primitives: seq<Primitive>, complete: bool)

  /** The primitive loop of loadNode. A primitive's vertices are appended before its index
      type is examined, so an unsupported type still leaves its vertices behind. */
  function LoadPrimitives(ps: seq<InputPrimitive>, ib: seq<uint32>, vb: seq<Vertex>, normalize: Vec3 -> Vec3)
    : MeshLoad
    requires WellFormedPrimitives(ps)
  {
    if ps == [] then MeshLoad(ib, vb, [], true)
    else
      var p := ps[0];
      var vb' := vb + PrimitiveVertices(p, normalize);
      if !Supported(p.indices.componentType) then MeshLoad(ib, vb', [], false)
      else
        var rest := LoadPrimitives(ps[1..], ib + OffsetIndices(p.indices.values, ToUint32(|vb|)), vb', normalize);
        var prim := Primitive(ToUint32(|ib|), ToUint32(|p.indices.values|), p.material);
        rest.(primitives := [prim] + rest.primitives)
  }

  /** Loading a mesh only appends to the two buffers; it gets past the mesh exactly when
      every index type is supported, and otherwise records the primitives before the first
      unsupported one, each with its accessor's count and its material. */
  lemma {:induction false} LoadPrimitivesShape(
    ps: seq<InputPrimitive>, ib: seq<uint32>, vb: seq<Vertex>, normalize: Vec3 -> Vec3)
    requires WellFormedPrimitives(ps)
    ensures
      var r := LoadPrimitives(ps, ib, vb, normalize);
      && |r.indexBuffer| >= |ib| && r.indexBuffer[..|ib|] == ib
      && |r.vertexBuffer| >= |vb| && r.vertexBuffer[..|vb|] == vb
      && |r.primitives| <= |ps|
      && (r.complete <==> forall j :: 0 <= j < |ps| ==> Supported(ps[j].indices.componentType))
      && (r.complete ==> |r.primitives| == |ps|)
      && (!r.complete ==> |r.primitives| < |ps| && !Supported(ps[|r.primitives|].indices.componentType))
      && forall j :: 0 <= j < |r.primitives| ==>
           && Supported(ps[j].indices.componentType)
           && r.primitives[j].indexCount == ToUint32(|ps[j].indices.values|)
           && r.primitives[j].materialIndex == ps[j].material
  {
    if ps != [] && Supported(ps[0].indices.componentType) {
      var p := ps[0];
      var vb' := vb + PrimitiveVertices(p, normalize);
      var ib' := ib + OffsetIndices(p.indices.values, ToUint32(|vb|));
      var rest := LoadPrimitives(ps[1..], ib', vb', normalize);
      var r := LoadPrimitives(ps, ib, vb, normalize);
      assert r.indexBuffer == rest.indexBuffer && r.vertexBuffer == rest.vertexBuffer;
      assert r.complete == rest.complete && r.primitives[1..] == rest.primitives;
      LoadPrimitivesShape(ps[1..], ib', vb', normalize);
      assert ib'[..|ib|] == ib && vb'[..|vb|] == vb;
      assert rest.indexBuffer[..|ib|] == rest.indexBuffer[..|ib'|][..|ib|];
      assert rest.vertexBuffer[..|vb|] == rest.vertexBuffer[..|vb'|][..|vb|];
      assert forall j :: 1 <= j < |ps| ==> ps[j] == ps[1..][j - 1];
      assert forall j :: 1 <= j < |r.primitives| ==> r.primitives[j] == rest.primitives[j - 1];
    }
  }

  /** The length of the index buffer before primitive k is appended. */
  function IndexStart(ps: seq<InputPrimitive>, base: nat, k: nat): nat
    requires k <= |ps|
  {
    if k == 0 then base else IndexStart(ps[1..], base + |ps[0].indices.values|, k - 1)
  }

  /** The length of the vertex buffer before primitive k's vertices are appended. */
  function VertexStart(ps: seq<InputPrimitive>, base: nat, k: nat): nat
    requires k <= |ps|
  {
    if k == 0 then base else VertexStart(ps[1..], base + VertexCount(ps[0]), k - 1)
  }

  /** Every recorded primitive's draw range [firstIndex, firstIndex + indexCount) holds
      exactly its own indices offset by its own vertex start, and its vertices sit at
      that vertex start. */
  lemma {:induction false} PrimitiveRanges(
    ps: seq<InputPrimitive>, ib: seq<uint32>, vb: seq<Vertex>, normalize: Vec3 -> Vec3, k: nat)
    requires WellFormedPrimitives(ps) && k < |ps|
    requires k < |LoadPrimitives(ps, ib, vb, normalize).primitives|
    ensures
      var r := LoadPrimitives(ps, ib, vb, normalize);
      var s := IndexStart(ps, |ib|, k);
      var n := |ps[k].indices.values|;
      var vs := VertexStart(ps, |vb|, k);
      && r.primitives[k].firstIndex == ToUint32(s)
      && s + n <= |r.indexBuffer|
      && r.indexBuffer[s .. s + n] == OffsetIndices(ps[k].indices.values, ToUint32(vs))
      && vs + VertexCount(ps[k]) <= |r.vertexBuffer|
      && r.vertexBuffer[vs .. vs + VertexCount(ps[k])] == PrimitiveVertices(ps[k], normalize)
  {
    if k == 0 {
      FirstPrimitiveRange(ps, ib, vb, normalize);
    } else {
      var r := LoadPrimitives(ps, ib, vb, normalize);
      var p := ps[0];
      var vb' := vb + PrimitiveVertices(p, normalize);
      var ib' := ib + OffsetIndices(p.indices.values, ToUint32(|vb|));
      var rest := LoadPrimitives(ps[1..], ib', vb', normalize);
      assert r.indexBuffer == rest.indexBuffer && r.vertexBuffer == rest.vertexBuffer;
      assert r.primitives[k] == rest.primitives[k - 1];
      assert ps[k] == ps[1..][k - 1];
      assert IndexStart(ps, |ib|, k) == IndexStart(ps[1..], |ib'|, k - 1);
      assert VertexStart(ps, |vb|, k) == VertexStart(ps[1..], |vb'|, k - 1);
      PrimitiveRanges(ps[1..], ib', vb', normalize, k - 1);
    }
  }

  /** The first recorded primitive's draw range starts at the index buffer's old end and its
      vertices at the vertex buffer's old end. */
  lemma FirstPrimitiveRange(ps: seq<InputPrimitive>, ib: seq<uint32>, vb: seq<Vertex>, normalize: Vec3 -> Vec3)
    requires WellFormedPrimitives(ps) && 0 < |ps|
    requires 0 < |LoadPrimitives(ps, ib, vb, normalize).primitives|
    ensures
      var r := LoadPrimitives(ps, ib, vb, normalize);
      var n := |ps[0].indices.values|;
      && r.primitives[0].firstIndex == ToUint32(|ib|)
      && |ib| + n <= |r.indexBuffer|
      && r.indexBuffer[|ib| .. |ib| + n] == OffsetIndices(ps[0].indices.values, ToUint32(|vb|))
      && |vb| + VertexCount(ps[0]) <= |r.vertexBuffer|
      && r.vertexBuffer[|vb| .. |vb| + VertexCount(ps[0])] == PrimitiveVertices(ps[0], normalize)
  {
    var r := LoadPrimitives(ps, ib, vb, normalize);
    var p := ps[0];
    var vb' := vb + PrimitiveVertices(p, normalize);
    var ib' := ib + OffsetIndices(p.indices.values, ToUint32(|vb|));
    var rest := LoadPrimitives(ps[1..], ib', vb', normalize);
    assert r.indexBuffer == rest.indexBuffer && r.vertexBuffer == rest.vertexBuffer;
    LoadPrimitivesShape(ps[1..], ib', vb', normalize);
    assert |ib'| == |ib| + |p.indices.values| && |vb'| == |vb| + VertexCount(p);
    assert r.primitives[0].firstIndex == ToUint32(|ib|);
    assert rest.indexBuffer[|ib|..|ib'|] == rest.indexBuffer[..|ib'|][|ib|..];
    assert rest.vertexBuffer[|vb|..|vb'|] == rest.vertexBuffer[..|vb'|][|vb|..];
  }

  /** The primitive loop of loadNode, run against the two shared buffers. */
  method LoadMesh(ps: seq<InputPrimitive>, indexBuffer: seq<uint32>, vertexBuffer: seq<Vertex>,
                  normalize: Vec3 -> Vec3)
    returns (ib: seq<uint32>, vb: seq<Vertex>, primitives: seq<Primitive>, complete: bool)
    requires WellFormedPrimitives(ps)
    ensures MeshLoad(ib, vb, primitives, complete) == LoadPrimitives(ps, indexBuffer, vertexBuffer, normalize)
  {
    ib, vb, primitives := indexBuffer, vertexBuffer, [];
    var i := 0;
    while i < |ps|
      invariant 0 <= i <= |ps|
      invariant
        var rest := LoadPrimitives(ps[i..], ib, vb, normalize);
        rest.(primitives := primitives + rest.primitives) == LoadPrimitives(ps, indexBuffer, vertexBuffer, normalize)
    {
      var p := ps[i];
      assert ps[i..][0] == p && ps[i..][1..] == ps[i + 1..];
      ghost var before := LoadPrimitives(ps[i..], ib, vb, normalize);
      var firstIndex := ToUint32(|ib|);
      var vertexStart := ToUint32(|vb|);
      vb := AppendVertices(vb, p, normalize);
      if !Supported(p.indices.componentType) {
        assert before == MeshLoad(ib, vb, [], false);
        assert primitives + [] == primitives;
        complete := false;
        return;
      }
      ib := AppendIndices(ib, p.indices.values, vertexStart);
      var prim := Primitive(firstIndex, ToUint32(|p.indices.values|), p.material);
      ghost var after := LoadPrimitives(ps[i + 1..], ib, vb, normalize);
      assert before == after.(primitives := [prim] + after.primitives);
      assert primitives + ([prim] + after.primitives) == (primitives + [prim]) + after.primitives;
      primitives := primitives + [prim];
      i := i + 1;
    }
    assert ps[|ps|..] == [];
    assert primitives + [] == primitives;
    complete := true;
  }
}
