/**
  * Vertex-buffer packing and the integer side of the mesh generators
  * (neon/src/video/vertices.c). Vertex attributes are floating point and are not
  * modelled: a mesh is its vertex count, its index list and its description.
  */
module Vertices {
  import opened Wrappers
  import opened Bytes

  /** `enum VERTEX_FORMAT` and `enum INDEX_FORMAT`. */
  const VF_V3: int := 0
  const VF_V3N3: int := 1
  const VF_V3T2: int := 2
  const VF_V3T2N3: int := 3
  const IF_UNKNOWN: int := 0
  const IF_UI16: int := 1
  const IF_UI32: int := 2

  const GL_TRIANGLES: int := 4
  const GL_TRIANGLE_STRIP: int := 5

  /** The byte size of one vertex: float3, v3n3_t, v3t2_t and v3t2n3_t. */
  function VertexSize(vf: int): (r: Option<nat>)
    ensures r.Some? <==> vf in {VF_V3, VF_V3N3, VF_V3T2, VF_V3T2N3}
    ensures r.Some? ==> r.value == 4 * (if vf == VF_V3 then 3 else if vf == VF_V3N3 then 6 else if vf == VF_V3T2 then 5 else 8)
  {
    if vf == VF_V3 then Some(12)
    else if vf == VF_V3N3 then Some(24)
    else if vf == VF_V3T2 then Some(20)
    else if vf == VF_V3T2N3 then Some(32)
    else None
  }

  /** The byte size of one index: `uint16_t` or `uint32_t`. */
  function IndexSize(ef: int): (r: Option<nat>)
    ensures r.Some? <==> ef == IF_UI16 || ef == IF_UI32
    ensures r.Some? ==> r.value == (if ef == IF_UI16 then 2 else 4)
  {
    if ef == IF_UI16 then Some(2) else if ef == IF_UI32 then Some(4) else None
  }

  datatype Desc = Desc(primitive: int, vf: int, ef: int)

  /** One object handed to the packer: its vertex and index bytes and their element counts. */
  datatype VerticesData = VerticesData(vertices: seq<byte>, indices: seq<byte>, verticesNum: u32, indicesNum: u32)

  /** Where an object lives in the shared buffers and how many elements it draws. */
  datatype ObjectInfo = ObjectInfo(vbOffset: u32, ibOffset: u32, count: u32, baseVertex: u32, baseIndex: u32)

  /** The packed result: one vertex buffer and one index buffer for all objects. */
  datatype VideoVertices = VideoVertices(desc: Desc, objects: seq<ObjectInfo>, vertexData: seq<byte>, indexData: seq<byte>)

  datatype VertexError = UnknownVertexFormat | UnknownIndexFormat | BufferTooLarge

  /** The number of vertices of the objects, summed. */
  function VerticesOf(ds: seq<VerticesData>): nat
  {
    if ds == [] then 0 else VerticesOf(ds[..|ds| - 1]) + ds[|ds| - 1].verticesNum
  }

  /** The number of indices of the objects, summed. */
  function IndicesOf(ds: seq<VerticesData>): nat
  {
    if ds == [] then 0 else IndicesOf(ds[..|ds| - 1]) + ds[|ds| - 1].indicesNum
  }

  /** The vertex bytes of the objects, back to back. */
  function VertexBytes(ds: seq<VerticesData>): seq<byte>
  {
    if ds == [] then [] else VertexBytes(ds[..|ds| - 1]) + ds[|ds| - 1].vertices
  }

  /** The index bytes of the objects, back to back. */
  function IndexBytes(ds: seq<VerticesData>): seq<byte>
  {
    if ds == [] then [] else IndexBytes(ds[..|ds| - 1]) + ds[|ds| - 1].indices
  }

  /** The byte arrays hold exactly the counted elements of the declared formats. */
  predicate Sized(ds: seq<VerticesData>, vsize: nat, isize: nat)
  {
    forall i :: 0 <= i < |ds| ==>
      |ds[i].vertices| == vsize * ds[i].verticesNum && |ds[i].indices| == isize * ds[i].indicesNum
  }

  lemma {:induction false} BytesMatchCounts(ds: seq<VerticesData>, vsize: nat, isize: nat)
    requires Sized(ds, vsize, isize)
    ensures |VertexBytes(ds)| == vsize * VerticesOf(ds)
    ensures |IndexBytes(ds)| == isize * IndicesOf(ds)
  {
    if ds != [] {
      var init := ds[..|ds| - 1];
      assert Sized(init, vsize, isize) by {
        forall i | 0 <= i < |init| ensures init[i] == ds[i] { }
      }
      BytesMatchCounts(init, vsize, isize);
      var last := ds[|ds| - 1];
      calc {
        |VertexBytes(ds)|;
        vsize * VerticesOf(init) + vsize * last.verticesNum;
        { MulAdd(vsize, VerticesOf(init), last.verticesNum); }
        vsize * VerticesOf(ds);
      }
      calc {
        |IndexBytes(ds)|;
        isize * IndicesOf(init) + isize * last.indicesNum;
        { MulAdd(isize, IndicesOf(init), last.indicesNum); }
        isize * IndicesOf(ds);
      }
    }
  }

  lemma MulAdd(k: nat, a: nat, b: nat)
    ensures k * a + k * b == k * (a + b)
  {
  }

  lemma MulMono(k: nat, a: nat, b: nat)
    requires a <= b
    ensures k * a <= k * b
  {
  }

  /** A prefix of the object list contributes a prefix of the packed bytes. */
  lemma {:induction false} PrefixBytes(ds: seq<VerticesData>, i: nat)
    requires i <= |ds|
    ensures VertexBytes(ds[..i]) <= VertexBytes(ds) && IndexBytes(ds[..i]) <= IndexBytes(ds)
    ensures VerticesOf(ds[..i]) <= VerticesOf(ds) && IndicesOf(ds[..i]) <= IndicesOf(ds)
    decreases |ds|
  {
    if i < |ds| {
      var init := ds[..|ds| - 1];
      assert ds[..i] == init[..i];
      PrefixBytes(init, i);
      assert init[..|init|] == init;
    } else {
      assert ds[..i] == ds;
    }
  }

  /**
    * Once the packed buffers stay below 4 GiB, so do the offsets and base counts of
    * every prefix of the objects.
    */
  lemma PrefixFits(ds: seq<VerticesData>, i: nat, vsize: nat, isize: nat)
    requires i <= |ds| && Sized(ds, vsize, isize) && 1 <= vsize && 1 <= isize
    requires |VertexBytes(ds)| < U32_LIMIT && |IndexBytes(ds)| < U32_LIMIT
    ensures |VertexBytes(ds[..i])| == vsize * VerticesOf(ds[..i]) < U32_LIMIT
    ensures |IndexBytes(ds[..i])| == isize * IndicesOf(ds[..i]) < U32_LIMIT
    ensures VerticesOf(ds[..i]) < U32_LIMIT && IndicesOf(ds[..i]) < U32_LIMIT
  {
    PrefixBytes(ds, i);
    assert Sized(ds[..i], vsize, isize) by {
      forall k | 0 <= k < i ensures ds[..i][k] == ds[k] { }
    }
    BytesMatchCounts(ds[..i], vsize, isize);
    MulMono(VerticesOf(ds[..i]), 1, vsize);
    MulMono(IndicesOf(ds[..i]), 1, isize);
  }

  /** The sums and packed bytes of one more object extend those of the objects before it. */
  lemma SumsSnoc(ds: seq<VerticesData>, i: nat)
    requires i < |ds|
    ensures VerticesOf(ds[..i + 1]) == VerticesOf(ds[..i]) + ds[i].verticesNum
    ensures IndicesOf(ds[..i + 1]) == IndicesOf(ds[..i]) + ds[i].indicesNum
    ensures VertexBytes(ds[..i + 1]) == VertexBytes(ds[..i]) + ds[i].vertices
    ensures IndexBytes(ds[..i + 1]) == IndexBytes(ds[..i]) + ds[i].indices
  {
    assert ds[..i + 1][..i] == ds[..i];
  }

  /** The elements an object draws: its indices when it has any, else its vertices. */
  function DrawCount(d: VerticesData): (n: u32)
    ensures n == 0 ==> d.indicesNum == 0 && d.verticesNum == 0
    ensures d.indicesNum != 0 ==> n == d.indicesNum
  {
    if d.indicesNum != 0 then d.indicesNum else d.verticesNum
  }

  /**
    * Object i's record: it draws `DrawCount` elements, its base vertex and base index
    * are the numbers of vertices and indices of the objects before it, and its byte
    * offsets are those numbers scaled by the element sizes.
    */
  predicate Placed(o: ObjectInfo, ds: seq<VerticesData>, i: nat, vsize: nat, isize: nat)
    requires i < |ds|
  {
    o.count == DrawCount(ds[i]) &&
    o.baseVertex == VerticesOf(ds[..i]) && o.baseIndex == IndicesOf(ds[..i]) &&
    o.vbOffset == vsize * VerticesOf(ds[..i]) && o.ibOffset == isize * IndicesOf(ds[..i])
  }

  /**
    * `new_vertices_buffers`. A null data pointer yields an empty description. An
    * unknown vertex or index format is an error here (the source logs it and goes on
    * with sizes it never set), and so is a buffer of 4 GiB or more (the source's
    * `uint32_t` size would wrap). Otherwise object i starts at the exclusive prefix
    * sums of the vertex counts, index counts and byte sizes of the objects before it.
    */
  method NewVerticesBuffers(data: Option<seq<VerticesData>>, desc: Desc) returns (r: Result<VideoVertices, VertexError>)
    requires data.Some? ==> |data.value| != 0
    requires data.Some? && VertexSize(desc.vf).Some? && IndexSize(desc.ef).Some? ==>
               Sized(data.value, VertexSize(desc.vf).value, IndexSize(desc.ef).value)
    ensures data.None? ==> r.Ok? && r.value.objects == [] && r.value.vertexData == [] && r.value.indexData == []
    ensures data.Some? && VertexSize(desc.vf).None? ==> r == Err(UnknownVertexFormat)
    ensures data.Some? && VertexSize(desc.vf).Some? && IndexSize(desc.ef).None? ==> r == Err(UnknownIndexFormat)
    ensures r.Ok? && data.Some? ==>
              var ds := data.value;
              var vsize := VertexSize(desc.vf).value;
              var isize := IndexSize(desc.ef).value;
              r.value.desc == desc && |r.value.objects| == |ds| &&
              r.value.vertexData == VertexBytes(ds) && r.value.indexData == IndexBytes(ds) &&
              forall i :: 0 <= i < |ds| ==> Placed(r.value.objects[i], ds, i, vsize, isize)
    ensures r == Err(BufferTooLarge) ==>
              data.Some? && (|VertexBytes(data.value)| >= U32_LIMIT || |IndexBytes(data.value)| >= U32_LIMIT)
  {
    if data.None? {
      return Ok(VideoVertices(Desc(0, 0, 0), [], [], []));
    }
    var ds := data.value;
    if VertexSize(desc.vf).None? {
      return Err(UnknownVertexFormat);
    }
    if IndexSize(desc.ef).None? {
      return Err(UnknownIndexFormat);
    }
    var vsize := VertexSize(desc.vf).value;
    var isize := IndexSize(desc.ef).value;
    BytesMatchCounts(ds, vsize, isize);
    if |VertexBytes(ds)| >= U32_LIMIT || |IndexBytes(ds)| >= U32_LIMIT {
      return Err(BufferTooLarge);
    }
    var objects: seq<ObjectInfo> := [];
    var vertexData: seq<byte> := [];
    var indexData: seq<byte> := [];
    var baseVertex: nat := 0;
    var baseIndex: nat := 0;
    var i := 0;
    while i < |ds|
      invariant i <= |ds| && |objects| == i
      invariant baseVertex == VerticesOf(ds[..i]) && baseIndex == IndicesOf(ds[..i])
      invariant vertexData == VertexBytes(ds[..i]) && indexData == IndexBytes(ds[..i])
      invariant forall k :: 0 <= k < i ==> Placed(objects[k], ds, k, vsize, isize)
    {
      PrefixFits(ds, i, vsize, isize);
      var info := ObjectInfo(|vertexData|, |indexData|, DrawCount(ds[i]), baseVertex, baseIndex);
      objects := objects + [info];
      SumsSnoc(ds, i);
      vertexData := vertexData + ds[i].vertices;
      indexData := indexData + ds[i].indices;
      baseVertex := baseVertex + ds[i].verticesNum;
      baseIndex := baseIndex + ds[i].indicesNum;
      i := i + 1;
    }
    assert ds[..|ds|] == ds;
    r := Ok(VideoVertices(desc, objects, vertexData, indexData));
  }

  /** Each object's bytes sit in the packed buffers at the offsets recorded for it. */
  lemma PackedObjectAtOffset(ds: seq<VerticesData>, i: nat, vsize: nat, isize: nat)
    requires i < |ds| && Sized(ds, vsize, isize)
    ensures var off := vsize * VerticesOf(ds[..i]);
            off + |ds[i].vertices| <= |VertexBytes(ds)| &&
            VertexBytes(ds)[off .. off + |ds[i].vertices|] == ds[i].vertices
    ensures var off := isize * IndicesOf(ds[..i]);
            off + |ds[i].indices| <= |IndexBytes(ds)| &&
            IndexBytes(ds)[off .. off + |ds[i].indices|] == ds[i].indices
  {
    var upto := ds[..i + 1];
    assert upto[..i] == ds[..i];
    assert Sized(ds[..i], vsize, isize) by {
      forall k | 0 <= k < i ensures ds[..i][k] == ds[k] { }
    }
    BytesMatchCounts(ds[..i], vsize, isize);
    PrefixBytes(ds, i + 1);
    assert VertexBytes(upto) == VertexBytes(ds[..i]) + ds[i].vertices;
    assert IndexBytes(upto) == IndexBytes(ds[..i]) + ds[i].indices;
    var voff := vsize * VerticesOf(ds[..i]);
    assert VertexBytes(ds)[voff .. voff + |ds[i].vertices|] == VertexBytes(upto)[voff ..];
    var ioff := isize * IndicesOf(ds[..i]);
    assert IndexBytes(ds)[ioff .. ioff + |ds[i].indices|] == IndexBytes(upto)[ioff ..];
  }

  // ---------------------------------------------------------------------------
  // Index generation
  // ---------------------------------------------------------------------------

  /** A generated mesh: its vertex count, the indices written, the count reported, and its description. */
  datatype Mesh = Mesh(verticesNum: nat, indices: seq<int>, indicesNum: nat, desc: Desc)

  /**
    * A mesh is drawable when every index the draw call reads exists and addresses one
    * of its vertices, and the index format is declared.
    */
  predicate Drawable(m: Mesh)
  {
    m.indicesNum <= |m.indices| && m.desc.ef != IF_UNKNOWN &&
    forall j :: 0 <= j < m.indicesNum ==> 0 <= m.indices[j] < m.verticesNum
  }

  /** The indices as `uint16_t` stores them. */
  function Store16(xs: seq<int>): (ys: seq<int>)
    requires forall j :: 0 <= j < |xs| ==> xs[j] >= 0
    ensures |ys| == |xs|
    ensures forall j :: 0 <= j < |xs| ==> 0 <= ys[j] <= xs[j] && ys[j] < U16_LIMIT
    ensures forall j :: 0 <= j < |xs| && xs[j] < U16_LIMIT ==> ys[j] == xs[j]
  {
    seq(|xs|, j requires 0 <= j < |xs| => U16(xs[j]))
  }

  /** Six offsets describing the two triangles of a cell, each within [0, m]. */
  predicate PatternWithin(p: seq<int>, m: int)
  {
    |p| == 6 && forall k :: 0 <= k < 6 ==> 0 <= p[k] <= m
  }

  /** A cell's six indices: the pattern offsets added to the cell's first vertex. */
  function Cell(base: int, p: seq<int>): (c: seq<int>)
    requires |p| == 6
    ensures |c| == 6 && forall k :: 0 <= k < 6 ==> c[k] == base + p[k]
  {
    [base + p[0], base + p[1], base + p[2], base + p[3], base + p[4], base + p[5]]
  }

  /**
    * Cells 0..cols-1 of a row whose first vertex is `base`: the inner loop of the
    * sphere, torus and triangle-grid generators, cell c starting at vertex base + c.
    */
  function Row(base: nat, cols: nat, p: seq<int>, m: nat): (s: seq<int>)
    requires PatternWithin(p, m)
    ensures |s| == 6 * cols
    ensures forall j :: 0 <= j < |s| ==> base <= s[j] <= base + cols - 1 + m
  {
    if cols == 0 then [] else Row(base, cols - 1, p, m) + Cell(base + cols - 1, p)
  }

  /** Rows 0..rows-1, row r starting at vertex r·stride: the outer loop of a generator. */
  function Cells(rows: nat, cols: nat, stride: nat, p: seq<int>, m: nat): (s: seq<int>)
    requires PatternWithin(p, m)
    ensures |s| == 6 * rows * cols
    ensures rows > 0 ==> forall j :: 0 <= j < |s| ==> 0 <= s[j] <= (rows - 1) * stride + cols - 1 + m
  {
    if rows == 0 then []
    else
      var init := Cells(rows - 1, cols, stride, p, m);
      var top := (rows - 1) * stride;
      var row := Row(top, cols, p, m);
      assert 6 * rows * cols == 6 * (rows - 1) * cols + 6 * cols;
      var prevTop := if rows > 1 then (rows - 2) * stride else 0;
      assert rows > 1 ==> prevTop + stride == top;
      JoinRows(init, row, top, prevTop, rows > 1, cols, m);
      init + row
  }

  /** Rows below a lower start followed by a row from `top` stay below the bound of the last row. */
  lemma JoinRows(init: seq<int>, row: seq<int>, top: nat, prevTop: nat, hasInit: bool, cols: nat, m: nat)
    requires hasInit ==> forall j :: 0 <= j < |init| ==> 0 <= init[j] <= prevTop + cols - 1 + m
    requires !hasInit ==> init == []
    requires prevTop <= top
    requires forall j :: 0 <= j < |row| ==> top <= row[j] <= top + cols - 1 + m
    ensures forall j :: 0 <= j < |init + row| ==> 0 <= (init + row)[j] <= top + cols - 1 + m
  {
  }

  /** The cube's 36 indices, face by face (front, back, top, bottom, left, right). */
  const CUBE_INDICES: seq<int> := [0, 3, 1, 1, 3, 2] + [4, 7, 5, 5, 7, 6] + [8, 11, 9, 9, 11, 10] +
                                  [12, 15, 13, 13, 15, 14] + [16, 19, 17, 17, 19, 18] + [20, 23, 21, 21, 23, 22]

  /** The quad pattern of the cube, the quad plane and the ribbon: triangles (0,3,1) and (1,3,2). */
  const QUAD: seq<int> := [0, 3, 1, 1, 3, 2]

  /** `vertgen_cube`: 24 vertices, the 36 indices above, triangles, `uint16_t` indices. */
  function Cube(): (m: Mesh)
    ensures m.verticesNum == 24 && m.indicesNum == 36 && |m.indices| == 36
    ensures m.desc == Desc(GL_TRIANGLES, VF_V3T2N3, IF_UI16)
  {
    Mesh(24, CUBE_INDICES, 36, Desc(GL_TRIANGLES, VF_V3T2N3, IF_UI16))
  }

  /** `vertgen_quad_plane`: one quad of four vertices. */
  function QuadPlane(): (m: Mesh)
    ensures m.verticesNum == 4 && m.indicesNum == 6 && m.indices == QUAD
  {
    Mesh(4, QUAD, 6, Desc(GL_TRIANGLES, VF_V3T2N3, IF_UI16))
  }

  /** `vertgen_ribbon`'s index loop: segment i uses 4i + (0,3,1,1,3,2). */
  function RibbonIndices(segments: nat): (s: seq<int>)
    ensures |s| == 6 * segments
    ensures forall j :: 0 <= j < |s| ==> s[j] == 4 * (j / 6) + QUAD[j % 6]
  {
    if segments == 0 then []
    else
      var init := RibbonIndices(segments - 1);
      var quad := Cell(4 * (segments - 1), QUAD);
      var s := init + quad;
      forall j | |init| <= j < |s| ensures s[j] == 4 * (j / 6) + QUAD[j % 6] {
        assert j / 6 == segments - 1 && j % 6 == j - |init|;
      }
      s
  }

  /** Ribbon indices address the 4·segments vertices. */
  lemma RibbonIndicesBelow(segments: nat, j: nat)
    requires j < 6 * segments
    ensures 0 <= RibbonIndices(segments)[j] < 4 * segments
  {
    assert j / 6 < segments;
  }

  /** `vertgen_ribbon`: the caller asserts a positive segment count. */
  function Ribbon(segments: int): (m: Mesh)
    requires segments > 0
    ensures m.verticesNum == 4 * segments && m.indicesNum == 6 * segments && |m.indices| == m.indicesNum
    ensures Drawable(m)
    ensures 4 * segments <= U16_LIMIT ==> forall j :: 0 <= j < |m.indices| ==> m.indices[j] == 4 * (j / 6) + QUAD[j % 6]
  {
    var raw := RibbonIndices(segments);
    forall j | 0 <= j < |raw| ensures 0 <= raw[j] < 4 * segments {
      RibbonIndicesBelow(segments, j);
    }
    Mesh(4 * segments, Store16(raw), 6 * segments, Desc(GL_TRIANGLES, VF_V3T2N3, IF_UI16))
  }

  /** The cube's index list is the ribbon pattern over its six faces. */
  lemma CubeIsSixQuads()
    ensures Cube().indices == RibbonIndices(6)
  {
    RibbonStep(0);
    RibbonStep(1);
    RibbonStep(2);
    RibbonStep(3);
    RibbonStep(4);
    RibbonStep(5);
  }

  lemma RibbonStep(n: nat)
    ensures RibbonIndices(n + 1) == RibbonIndices(n) + [4 * n, 4 * n + 3, 4 * n + 1, 4 * n + 1, 4 * n + 3, 4 * n + 2]
  {
  }

  /** Every index of the cube names one of its 24 vertices, and every index of the quad one of its 4. */
  lemma FixedMeshesDrawable()
    ensures Drawable(Cube()) && Drawable(QuadPlane())
  {
    CubeIsSixQuads();
    var cube := Cube();
    forall j | 0 <= j < 36 ensures 0 <= cube.indices[j] < 24 {
      RibbonIndicesBelow(6, j);
    }
    assert RibbonIndices(1) == QUAD;
    forall j | 0 <= j < 6 ensures 0 <= QUAD[j] < 4 {
      RibbonIndicesBelow(1, j);
    }
  }

  /** The sphere's cell pattern relative to vertex r·sectors + s: triangles (0, 1, S) and (1, S+1, S). */
  function SpherePattern(sectors: nat): (p: seq<int>)
    ensures PatternWithin(p, sectors + 1)
  {
    [0, 1, sectors, 1, sectors + 1, sectors]
  }

  /**
    * `vertgen_sphere` as written: rings·sectors cells, including a wrap-around cell at
    * the end of each ring and a last ring that reaches into row `rings`; the count
    * reported is rings·(sectors-1)·6 and the index format is left at 0.
    */
  function SphereAsWritten(rings: int, sectors: int): (m: Mesh)
    requires rings > 0 && sectors > 0
    ensures m.verticesNum == rings * sectors && |m.indices| == 6 * rings * sectors
    ensures m.indicesNum == rings * (sectors - 1) * 6 && m.desc.ef == IF_UNKNOWN
  {
    var raw := Cells(rings, sectors, sectors, SpherePattern(sectors), sectors + 1);
    Mesh(rings * sectors, Store16(raw), rings * (sectors - 1) * 6, Desc(GL_TRIANGLES, VF_V3T2N3, 0))
  }

  /**
    * With 2 rings of 3 sectors the draw call reads index 6 of a 6-vertex mesh, and the
    * mesh declares no index format.
    */
  lemma SphereAsWrittenReadsPastVertices()
    ensures var m := SphereAsWritten(2, 3);
            m.verticesNum == 6 && m.indicesNum == 24 && m.indices[20] == 6 && !Drawable(m)
  {
    var p := SpherePattern(3);
    var raw := Cells(2, 3, 3, p, 4);
    var first := Cells(1, 3, 3, p, 4);
    var last := Row(3, 3, p, 4);
    assert raw == first + last && |first| == 18;
    assert Row(3, 3, p, 4) == Row(3, 2, p, 4) + Cell(5, p);
    assert Row(3, 2, p, 4) == Row(3, 1, p, 4) + Cell(4, p);
    assert Row(3, 1, p, 4) == Row(3, 0, p, 4) + Cell(3, p);
    assert last[2] == Cell(3, p)[2] == 6;
    assert raw[20] == 6;
  }

  /**
    * The sphere the generator means: (rings-1)·(sectors-1) cells, each joining ring r
    * to ring r+1, every index below rings·sectors, and `uint16_t` indices declared.
    */
  function Sphere(rings: int, sectors: int): (m: Mesh)
    requires rings > 0 && sectors > 0
    ensures m.verticesNum == rings * sectors && m.indicesNum == 6 * (rings - 1) * (sectors - 1)
    ensures Drawable(m)
  {
    var raw := Cells(rings - 1, sectors - 1, sectors, SpherePattern(sectors), sectors + 1);
    assert rings > 1 ==> (rings - 2) * sectors + sectors - 2 + sectors + 1 == rings * sectors - 1;
    Mesh(rings * sectors, Store16(raw), 6 * (rings - 1) * (sectors - 1), Desc(GL_TRIANGLES, VF_V3T2N3, IF_UI16))
  }

  /** The torus's cell pattern relative to v0 with W = stacks+1: triangles (v0, v1, v2) and (v0, v2, v3). */
  function TorusPattern(stacks: nat): (p: seq<int>)
    ensures PatternWithin(p, stacks + 2)
  {
    [0, stacks + 1, stacks + 2, 0, stacks + 2, 1]
  }

  /**
    * `vertgen_torus`: (stacks+1)(slices+1) vertices and stacks·slices·6 indices, cell
    * (side, face) joining column `side` to column `side+1`.
    */
  function Torus(slices: nat, stacks: nat): (m: Mesh)
    ensures m.verticesNum == (stacks + 1) * (slices + 1) && m.indicesNum == stacks * slices * 6
    ensures Drawable(m)
  {
    var raw := Cells(slices, stacks, stacks + 1, TorusPattern(stacks), stacks + 2);
    assert slices > 0 ==> (slices - 1) * (stacks + 1) + stacks - 1 + stacks + 2 == (stacks + 1) * (slices + 1) - 1;
    assert |raw| == stacks * slices * 6;
    Mesh((stacks + 1) * (slices + 1), Store16(raw), stacks * slices * 6, Desc(GL_TRIANGLES, VF_V3T2N3, IF_UI16))
  }

  /** The triangle-mode grid cell relative to vertex r·(cols+1) + c. */
  function GridPattern(cols: nat): (p: seq<int>)
    ensures PatternWithin(p, cols + 2)
  {
    [0, cols + 1, cols + 2, cols + 2, 1, 0]
  }

  /**
    * The first n columns of one row of the strip-mode grid: row 0 runs left to right
    * pairing rows 0 and 1; every later row r runs right to left pairing rows r+1 and r.
    */
  function StripRow(r: nat, cols: nat, n: nat): (s: seq<int>)
    requires n <= cols + 1
    ensures |s| == 2 * n
    ensures forall j :: 0 <= j < |s| ==> 0 <= s[j] <= cols + (r + 1) * (cols + 1)
  {
    if n == 0 then []
    else
      var col := n - 1;
      var pair := if r == 0 then [col, col + (cols + 1)]
                  else [cols - col + (r + 1) * (cols + 1), cols - col + r * (cols + 1)];
      assert r * (cols + 1) <= (r + 1) * (cols + 1);
      StripRow(r, cols, n - 1) + pair
  }

  function StripRows(rows: nat, cols: nat): (s: seq<int>)
    ensures |s| == rows * 2 * (cols + 1)
    ensures forall j :: 0 <= j < |s| ==> 0 <= s[j] < (rows + 1) * (cols + 1)
  {
    if rows == 0 then []
    else
      var init := StripRows(rows - 1, cols);
      var row := StripRow(rows - 1, cols, cols + 1);
      assert rows * 2 * (cols + 1) == (rows - 1) * 2 * (cols + 1) + 2 * (cols + 1);
      assert (rows + 1) * (cols + 1) == rows * (cols + 1) + (cols + 1);
      init + row
  }

  /**
    * `vertgen_rectangular_grid_plane`: (rows+1)(cols+1) vertices; strip mode writes
    * rows·2·(cols+1) indices and triangle mode rows·6·cols, every one of them a vertex.
    */
  function GridPlane(rows: nat, cols: nat, strip: bool): (m: Mesh)
    ensures m.verticesNum == (rows + 1) * (cols + 1) && |m.indices| == m.indicesNum
    ensures strip ==> m.indicesNum == rows * 2 * (cols + 1) && m.desc.primitive == GL_TRIANGLE_STRIP
    ensures !strip ==> m.indicesNum == rows * 6 * cols && m.desc.primitive == GL_TRIANGLES
    ensures Drawable(m)
  {
    var n := (rows + 1) * (cols + 1);
    if strip then
      var raw := StripRows(rows, cols);
      Mesh(n, Store16(raw), rows * 2 * (cols + 1), Desc(GL_TRIANGLE_STRIP, VF_V3T2N3, IF_UI16))
    else
      var raw := Cells(rows, cols, cols + 1, GridPattern(cols), cols + 2);
      assert rows > 0 ==> (rows - 1) * (cols + 1) + cols - 1 + cols + 2 == n - 1;
      assert |raw| == rows * 6 * cols;
      Mesh(n, Store16(raw), rows * 6 * cols, Desc(GL_TRIANGLES, VF_V3T2N3, IF_UI16))
  }
}
