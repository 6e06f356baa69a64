/**
  * Sprite batches (neon/src/video/sprite.c): a batch owns a fixed index pattern of two
  * triangles per quad and collects four vertices per sprite until it is drawn.
  * Vertex contents are opaque here (a type parameter); only the bookkeeping is modelled.
  */
module Sprite {
  import opened Bytes

  /**
    * A batch: its texture, the vertices submitted so far, the 16-bit index array built
    * at creation, the three counters and the capacity in sprites.
    */
  datatype Batch<V> = Batch(texture: nat, vertices: seq<V>, indices: seq<u16>,
                            verticesCount: nat, indicesCount: nat, capacity: nat, count: nat)

  /** Corner k (0..5) of a quad's two triangles (0,1,2) and (0,2,3). */
  function Corner(k: nat): (c: nat)
    requires k < 6
    ensures c < 4
    ensures (k == 0 || k == 3 ==> c == 0) && (k == 1 ==> c == 1) && (k == 2 || k == 4 ==> c == 2) && (k == 5 ==> c == 3)
  {
    [0, 1, 2, 0, 2, 3][k]
  }

  /** Quad q of the index array holds its six corners offset by 4q, stored as `uint16_t`. */
  predicate QuadAt(indices: seq<u16>, q: nat)
  {
    6 * q + 6 <= |indices| &&
    forall k :: 0 <= k < 6 ==> indices[6 * q + k] == U16(4 * q + Corner(k))
  }

  /** The counters agree with the submitted sprites and the index array covers the capacity. */
  predicate Valid<V>(b: Batch<V>)
  {
    b.count <= b.capacity &&
    b.verticesCount == 4 * b.count && b.indicesCount == 6 * b.count &&
    |b.vertices| == b.verticesCount &&
    |b.indices| == 6 * b.capacity && forall q :: 0 <= q < b.capacity ==> QuadAt(b.indices, q)
  }

  /**
    * `new_sprite_batch`: counters at zero and, for every quad i below the capacity,
    * the indices 4i+0, 4i+1, 4i+2, 4i+0, 4i+2, 4i+3.
    */
  method NewBatch<V>(texture: nat, maxSprites: nat) returns (b: Batch<V>)
    ensures Valid(b)
    ensures b.texture == texture && b.capacity == maxSprites
    ensures b.count == 0 && b.verticesCount == 0 && b.indicesCount == 0 && b.vertices == []
  {
    var indices: seq<u16> := [];
    var i := 0;
    while i < maxSprites
      invariant i <= maxSprites
      invariant |indices| == 6 * i
      invariant forall q :: 0 <= q < i ==> QuadAt(indices, q)
    {
      var base := 4 * i;
      var quad := [U16(base + 0), U16(base + 1), U16(base + 2), U16(base + 0), U16(base + 2), U16(base + 3)];
      assert forall k :: 0 <= k < 6 ==> quad[k] == U16(4 * i + Corner(k));
      var next := indices + quad;
      forall q | 0 <= q < i + 1 ensures QuadAt(next, q) {
        if q < i {
          assert QuadAt(indices, q);
          forall k | 0 <= k < 6 ensures next[6 * q + k] == U16(4 * q + Corner(k)) {
            assert next[6 * q + k] == indices[6 * q + k];
          }
        } else {
          forall k | 0 <= k < 6 ensures next[6 * q + k] == U16(4 * q + Corner(k)) {
            assert next[6 * q + k] == quad[k];
          }
        }
      }
      indices := next;
      i := i + 1;
    }
    b := Batch(texture, [], indices, 0, 0, maxSprites, 0);
  }

  /** Every stored index addresses one of the 4·capacity vertex slots. */
  lemma IndicesBelowVertexSlots<V>(b: Batch<V>, j: nat)
    requires Valid(b) && j < |b.indices|
    ensures b.indices[j] < 4 * b.capacity
  {
    var q := j / 6;
    var k := j % 6;
    assert j == 6 * q + k;
    assert QuadAt(b.indices, q);
    assert b.indices[6 * q + k] == U16(4 * q + Corner(k));
  }

  /**
    * While 4·capacity fits in 16 bits no index wraps, so quad q's corners are exactly
    * 4q+0, 4q+1, 4q+2, 4q+0, 4q+2, 4q+3.
    */
  lemma NoWrapBelowSixteenBits<V>(b: Batch<V>, q: nat, k: nat)
    requires Valid(b) && 4 * b.capacity <= U16_LIMIT && q < b.capacity && k < 6
    ensures b.indices[6 * q + k] as int == 4 * q + Corner(k)
  {
    assert QuadAt(b.indices, q);
  }

  /** A batch of more than 16384 sprites wraps: quad 16384 starts again at index 0. */
  lemma LargeBatchWraps<V>(b: Batch<V>)
    requires Valid(b) && b.capacity > 16384
    ensures b.indices[6 * 16384] == 0
  {
    assert QuadAt(b.indices, 16384);
    assert b.indices[6 * 16384 + 0] == U16(4 * 16384 + Corner(0));
  }

  /**
    * `sprite_batch_submit_vertices`: the caller must leave room (count below the
    * capacity and below UINT16_MAX); the four vertices land at `vertices_count` and
    * the counters grow by 4, 6 and 1.
    */
  function SubmitVertices<V>(b: Batch<V>, quad: seq<V>): (b': Batch<V>)
    requires Valid(b) && |quad| == 4
    requires b.count < U16_LIMIT - 1 && b.count < b.capacity
    ensures Valid(b')
    ensures b'.count == b.count + 1
    ensures b'.vertices[..b.verticesCount] == b.vertices && b'.vertices[b.verticesCount..] == quad
    ensures b'.indices == b.indices && b'.texture == b.texture && b'.capacity == b.capacity
  {
    b.(vertices := b.vertices + quad, verticesCount := b.verticesCount + 4,
       indicesCount := b.indicesCount + 6, count := b.count + 1)
  }

  /** What `submit_batches` asks of the GPU, per batch index. */
  datatype Effect = Upload(batch: nat, vertexCount: nat) | Draw(batch: nat, texture: nat, indexCount: nat)

  /** Index `i` of the batches is drawn: it holds at least one sprite. */
  predicate Drawn<V>(b: Batch<V>)
  {
    b.count >= 1
  }

  /** The upload pass: the vertices of every non-empty batch, in order. */
  function Uploads<V>(bs: seq<Batch<V>>): (fx: seq<Effect>)
    ensures |fx| <= |bs|
    ensures forall e :: e in fx ==> e.Upload? && e.batch < |bs| && Drawn(bs[e.batch]) &&
                                    e.vertexCount == bs[e.batch].verticesCount
  {
    if bs == [] then []
    else
      var init := Uploads(bs[..|bs| - 1]);
      var last := |bs| - 1;
      assert forall e :: e in init ==> bs[e.batch] == bs[..|bs| - 1][e.batch];
      if Drawn(bs[last]) then init + [Upload(last, bs[last].verticesCount)] else init
  }

  /** The draw pass: one draw of `indices_count` indices with the batch texture per non-empty batch. */
  function Draws<V>(bs: seq<Batch<V>>): (fx: seq<Effect>)
    ensures |fx| <= |bs|
    ensures forall e :: e in fx ==> e.Draw? && e.batch < |bs| && Drawn(bs[e.batch]) &&
                                    e.texture == bs[e.batch].texture && e.indexCount == bs[e.batch].indicesCount
  {
    if bs == [] then []
    else
      var init := Draws(bs[..|bs| - 1]);
      var last := |bs| - 1;
      assert forall e :: e in init ==> bs[e.batch] == bs[..|bs| - 1][e.batch];
      if Drawn(bs[last]) then init + [Draw(last, bs[last].texture, bs[last].indicesCount)] else init
  }

  /** After drawing, a drawn batch has all three counters at zero; an empty one is untouched. */
  function Reset<V>(b: Batch<V>): (b': Batch<V>)
    ensures Drawn(b) ==> b'.count == 0 && b'.verticesCount == 0 && b'.indicesCount == 0
    ensures !Drawn(b) ==> b' == b
    ensures b'.indices == b.indices && b'.texture == b.texture && b'.capacity == b.capacity
  {
    if Drawn(b) then b.(count := 0, verticesCount := 0, indicesCount := 0, vertices := []) else b
  }

  /**
    * `submit_batches`: the uploads, then the draws, and the batches with their
    * counters reset.
    */
  function SubmitBatches<V>(bs: seq<Batch<V>>): (r: (seq<Effect>, seq<Batch<V>>))
    ensures |r.1| == |bs|
    ensures forall i :: 0 <= i < |bs| ==> r.1[i] == Reset(bs[i])
  {
    (Uploads(bs) + Draws(bs), seq(|bs|, i requires 0 <= i < |bs| => Reset(bs[i])))
  }

  /** Every non-empty batch is drawn exactly once, with six indices per submitted sprite. */
  lemma {:induction false} DrawsCoverNonEmpty<V>(bs: seq<Batch<V>>, i: nat)
    requires i < |bs| && forall j :: 0 <= j < |bs| ==> Valid(bs[j])
    ensures Drawn(bs[i]) <==> Draw(i, bs[i].texture, 6 * bs[i].count) in Draws(bs)
    ensures Drawn(bs[i]) ==> Upload(i, 4 * bs[i].count) in Uploads(bs)
  {
    var init := bs[..|bs| - 1];
    if i < |bs| - 1 {
      DrawsCoverNonEmpty(init, i);
      assert init[i] == bs[i];
    } else if Drawn(bs[i]) {
      assert Draws(bs)[|Draws(bs)| - 1] == Draw(i, bs[i].texture, 6 * bs[i].count);
      assert Uploads(bs)[|Uploads(bs)| - 1] == Upload(i, 4 * bs[i].count);
    }
  }

  /** Submission leaves every batch valid and empty, ready to be filled again. */
  lemma SubmitLeavesBatchesEmpty<V>(bs: seq<Batch<V>>, i: nat)
    requires i < |bs| && Valid(bs[i])
    ensures Valid(SubmitBatches(bs).1[i]) && SubmitBatches(bs).1[i].count == 0
  {
  }
}
