/**
  * The GPU object tables (neon/src/video/resources.c): seven fixed-capacity arrays
  * that objects are appended to, textures de-duplicated by content hash, and usage
  * counts that only grow.
  */
module Resources {
  import opened Wrappers
  import opened Bytes

  /** The seven object kinds, each with its own table. */
  datatype Kind = Texture | Sampler | Renderbuffer | Framebuffer | Buffer | VertexArray | Shader

  /** The table capacities of `VideoLimits`. */
  function Capacity(k: Kind): (n: nat)
    ensures n > 0
  {
    match k
    case Texture => 20
    case Sampler => 5
    case Renderbuffer => 5
    case Framebuffer => 10
    case Buffer => 20
    case VertexArray => 10
    case Shader => 20
  }

  /**
    * The fields the tables manage: the GL name (0 for none), the content hash (used
    * only by textures, 0 for none) and the usage count.
    */
  datatype Object = Object(id: u32, hash: u32, usage: nat)

  const NONE: Object := Object(0, 0, 0)

  /** A zero-initialised array of `Capacity(kind)` slots, the first `count` of them in use. */
  datatype Table = Table(kind: Kind, slots: seq<Object>, count: nat)

  predicate ValidTable(t: Table)
  {
    |t.slots| == Capacity(t.kind) && t.count <= |t.slots| &&
    forall i :: 0 <= i < t.count ==> t.slots[i].usage >= 1
  }

  /** The table of a kind before anything is stored. */
  function EmptyTable(k: Kind): (t: Table)
    ensures ValidTable(t) && t.count == 0 && t.kind == k
  {
    Table(k, seq(Capacity(k), _ => NONE), 0)
  }

  datatype ResourceError = CapacityExceeded(kind: Kind)

  /**
    * `store_sampler` and its siblings: the object goes into slot `count` with usage 1
    * and the count grows by one. The source writes past the array when it is full;
    * here that is an error.
    */
  function Store(t: Table, o: Object): (r: Result<(Table, nat), ResourceError>)
    requires ValidTable(t)
    ensures r.Err? <==> t.count == Capacity(t.kind)
    ensures r.Ok? ==> ValidTable(r.value.0) && r.value.0.kind == t.kind && r.value.1 == t.count
    ensures r.Ok? ==> r.value.0.count == t.count + 1 && r.value.0.slots[t.count] == o.(usage := 1)
    ensures r.Ok? ==> forall i :: 0 <= i < |t.slots| && i != t.count ==> r.value.0.slots[i] == t.slots[i]
  {
    if t.count == Capacity(t.kind) then Err(CapacityExceeded(t.kind))
    else Ok((t.(slots := t.slots[t.count := o.(usage := 1)], count := t.count + 1), t.count))
  }

  /** `find_texture_by_hash`: the first stored texture carrying a nonzero hash. */
  function FindByHash(t: Table, hash: u32): (r: Option<nat>)
    requires ValidTable(t)
    ensures hash == 0 ==> r.None?
    ensures r.Some? ==> r.value < t.count && t.slots[r.value].hash == hash &&
                        forall j :: 0 <= j < r.value ==> t.slots[j].hash != hash
    ensures r.None? && hash != 0 ==> forall j :: 0 <= j < t.count ==> t.slots[j].hash != hash
  {
    if hash == 0 then None else FindFrom(t, hash, 0)
  }

  function FindFrom(t: Table, hash: u32, from: nat): (r: Option<nat>)
    requires ValidTable(t) && from <= t.count
    ensures r.Some? ==> from <= r.value < t.count && t.slots[r.value].hash == hash &&
                        forall j :: from <= j < r.value ==> t.slots[j].hash != hash
    ensures r.None? ==> forall j :: from <= j < t.count ==> t.slots[j].hash != hash
    decreases t.count - from
  {
    if from == t.count then None
    else if t.slots[from].hash == hash then Some(from)
    else FindFrom(t, hash, from + 1)
  }

  /**
    * `store_texture`: a texture whose nonzero hash is already stored bumps the first
    * match's usage and returns that slot; any other texture is appended.
    */
  function StoreTexture(t: Table, o: Object): (r: Result<(Table, nat), ResourceError>)
    requires ValidTable(t) && t.kind == Texture
    ensures r.Ok? ==> ValidTable(r.value.0) && r.value.0.kind == Texture && r.value.1 < r.value.0.count
    ensures FindByHash(t, o.hash).Some? ==>
      var i := FindByHash(t, o.hash).value;
      r == Ok((t.(slots := t.slots[i := t.slots[i].(usage := t.slots[i].usage + 1)]), i))
    ensures FindByHash(t, o.hash).None? ==> r == Store(t, o)
  {
    match FindByHash(t, o.hash)
    case Some(i) => Ok((t.(slots := t.slots[i := t.slots[i].(usage := t.slots[i].usage + 1)]), i))
    case None => Store(t, o)
  }

  /** A texture with hash 0 is never matched, so it always takes a new slot. */
  lemma ZeroHashTextureAppends(t: Table, o: Object)
    requires ValidTable(t) && t.kind == Texture && o.hash == 0 && t.count < Capacity(Texture)
    ensures StoreTexture(t, o).Ok? && StoreTexture(t, o).value.1 == t.count
    ensures StoreTexture(t, o).value.0.count == t.count + 1
  {
  }

  /**
    * After a texture is stored, looking its nonzero hash up finds the slot the store
    * returned: the one it was appended to, or the earlier match it was merged with.
    */
  lemma StoredTextureIsFound(t: Table, o: Object)
    requires ValidTable(t) && t.kind == Texture && o.hash != 0
    requires StoreTexture(t, o).Ok?
    ensures var (t', i) := StoreTexture(t, o).value; FindByHash(t', o.hash) == Some(i)
  {
    var (t', i) := StoreTexture(t, o).value;
    if FindByHash(t, o.hash).None? {
      assert forall j :: 0 <= j < t.count ==> t'.slots[j].hash == t.slots[j].hash;
      FindFromSameHashes(t, t', o.hash, 0, i);
    } else {
      assert forall j :: 0 <= j < t.count ==> t'.slots[j].hash == t.slots[j].hash;
      FindFromSameHashes(t, t', o.hash, 0, i);
    }
  }

  /** The scan up to the first match only depends on the hashes before it. */
  lemma {:induction false} FindFromSameHashes(t: Table, t': Table, hash: u32, from: nat, i: nat)
    requires ValidTable(t) && ValidTable(t') && from <= i < t'.count
    requires forall j :: from <= j < i ==> t'.slots[j].hash != hash
    requires t'.slots[i].hash == hash
    ensures FindFrom(t', hash, from) == Some(i)
    decreases i - from
  {
    if from < i {
      FindFromSameHashes(t, t', hash, from + 1, i);
    }
  }

  /** Every store leaves the stored objects' usage counts no smaller: they are never decremented. */
  lemma StoreNeverDecrementsUsage(t: Table, o: Object)
    requires ValidTable(t) && t.kind == Texture
    ensures StoreTexture(t, o).Ok? ==> forall i :: 0 <= i < t.count ==>
      StoreTexture(t, o).value.0.slots[i].usage >= t.slots[i].usage
    ensures Store(t, o).Ok? ==> forall i :: 0 <= i < t.count ==>
      Store(t, o).value.0.slots[i].usage == t.slots[i].usage
  {
  }

  /** All seven tables. */
  datatype VideoResources = VideoResources(textures: Table, samplers: Table, renderbuffers: Table,
                                           framebuffers: Table, buffers: Table, arrays: Table, shaders: Table)

  predicate Valid(v: VideoResources)
  {
    ValidTable(v.textures) && v.textures.kind == Texture &&
    ValidTable(v.samplers) && v.samplers.kind == Sampler &&
    ValidTable(v.renderbuffers) && v.renderbuffers.kind == Renderbuffer &&
    ValidTable(v.framebuffers) && v.framebuffers.kind == Framebuffer &&
    ValidTable(v.buffers) && v.buffers.kind == Buffer &&
    ValidTable(v.arrays) && v.arrays.kind == VertexArray &&
    ValidTable(v.shaders) && v.shaders.kind == Shader
  }

  /**
    * `store_vertices_buffers`: the vertex buffer, then the element buffer, then the
    * vertex array; the result is the vertex array's slot.
    */
  function StoreVerticesBuffers(v: VideoResources, vertices: Object, elements: Object, vao: Object)
    : (r: Result<(VideoResources, nat), ResourceError>)
    requires Valid(v)
    ensures r.Ok? <==> v.buffers.count + 2 <= Capacity(Buffer) && v.arrays.count < Capacity(VertexArray)
    ensures r.Ok? ==> Valid(r.value.0) && r.value.1 == v.arrays.count
    ensures r.Ok? ==> r.value.0.buffers.count == v.buffers.count + 2 && r.value.0.arrays.count == v.arrays.count + 1
    ensures r.Ok? ==> r.value.0.buffers.slots[v.buffers.count] == vertices.(usage := 1) &&
                      r.value.0.buffers.slots[v.buffers.count + 1] == elements.(usage := 1) &&
                      r.value.0.arrays.slots[v.arrays.count] == vao.(usage := 1)
    ensures r.Ok? ==> r.value.0.(buffers := v.buffers, arrays := v.arrays) == v
  {
    match Store(v.buffers, vertices)
    case Err(e) => Err(e)
    case Ok((b1, _)) =>
      match Store(b1, elements)
      case Err(e) => Err(e)
      case Ok((b2, _)) =>
        match Store(v.arrays, vao)
        case Err(e) => Err(e)
        case Ok((a, i)) => Ok((v.(buffers := b2, arrays := a), i))
  }

  /** The slots `resources_cleanup` releases in one table: every slot with a nonzero name. */
  function ReleasedSlots(t: Table, from: nat): (r: seq<nat>)
    requires from <= |t.slots|
    ensures forall k :: 0 <= k < |r| ==> from <= r[k] < |t.slots| && t.slots[r[k]].id != 0
    ensures forall i :: from <= i < |t.slots| && t.slots[i].id != 0 ==> i in r
    ensures forall k, l :: 0 <= k < l < |r| ==> r[k] < r[l]
    decreases |t.slots| - from
  {
    if from == |t.slots| then []
    else if t.slots[from].id != 0 then [from] + ReleasedSlots(t, from + 1)
    else ReleasedSlots(t, from + 1)
  }

  /** One release call of `resources_cleanup`. */
  datatype Release = Release(kind: Kind, slot: nat)

  function Releases(k: Kind, slots: seq<nat>): (r: seq<Release>)
    ensures |r| == |slots| && forall i :: 0 <= i < |r| ==> r[i] == Release(k, slots[i])
  {
    seq(|slots|, i requires 0 <= i < |slots| => Release(k, slots[i]))
  }

  function AllSlots(n: nat): (r: seq<nat>)
    ensures |r| == n && forall i :: 0 <= i < n ==> r[i] == i
  {
    seq(n, i => i)
  }

  /** `r` releases exactly the slots of `t` with a nonzero name, and no slot outside the table. */
  predicate ReleasesNamed(r: seq<Release>, t: Table)
  {
    (forall i :: 0 <= i < |t.slots| ==> (Release(t.kind, i) in r <==> t.slots[i].id != 0)) &&
    (forall x :: x in r && x.kind == t.kind ==> x.slot < |t.slots|)
  }

  /** The releases of one loop are those of its kind for the given slots. */
  lemma InReleases(k: Kind, slots: seq<nat>, x: Release)
    ensures x in Releases(k, slots) <==> x.kind == k && x.slot in slots
  {
    var r := Releases(k, slots);
    if x.kind == k && x.slot in slots {
      var j :| 0 <= j < |slots| && slots[j] == x.slot;
      assert r[j] == x;
    }
  }

  /** The loops over the tables that release only named slots, in the order they run. */
  function NamedTables(v: VideoResources): seq<Table>
  {
    [v.textures, v.samplers, v.renderbuffers, v.framebuffers, v.buffers, v.arrays]
  }

  /** One loop per table, in order, each releasing the named slots of its table. */
  function ReleasesOf(ts: seq<Table>): seq<Release>
  {
    if ts == [] then []
    else ReleasesOf(ts[..|ts| - 1]) + Releases(ts[|ts| - 1].kind, ReleasedSlots(ts[|ts| - 1], 0))
  }

  /** A release of the loops is a named slot of one of their tables. */
  lemma {:induction false} InReleasesOf(ts: seq<Table>, x: Release)
    ensures x in ReleasesOf(ts) <==>
      exists j :: 0 <= j < |ts| && x.kind == ts[j].kind && x.slot in ReleasedSlots(ts[j], 0)
  {
    if ts != [] {
      var init, last := ts[..|ts| - 1], ts[|ts| - 1];
      InReleasesOf(init, x);
      InReleases(last.kind, ReleasedSlots(last, 0), x);
      if exists j :: 0 <= j < |ts| && x.kind == ts[j].kind && x.slot in ReleasedSlots(ts[j], 0) {
        var j :| 0 <= j < |ts| && x.kind == ts[j].kind && x.slot in ReleasedSlots(ts[j], 0);
        if j < |init| {
          assert init[j] == ts[j];
        }
      }
      if exists j :: 0 <= j < |init| && x.kind == init[j].kind && x.slot in ReleasedSlots(init[j], 0) {
        var j :| 0 <= j < |init| && x.kind == init[j].kind && x.slot in ReleasedSlots(init[j], 0);
        assert ts[j] == init[j];
      }
    }
  }

  /**
    * When no other loop and no later call concerns the kind of table j, the calls
    * release exactly the named slots of table j.
    */
  lemma TableReleasesNamed(ts: seq<Table>, j: nat, extra: seq<Release>)
    requires j < |ts|
    requires forall i :: 0 <= i < |ts| && i != j ==> ts[i].kind != ts[j].kind
    requires forall x :: x in extra ==> x.kind != ts[j].kind
    ensures ReleasesNamed(ReleasesOf(ts) + extra, ts[j])
  {
    var t := ts[j];
    var r := ReleasesOf(ts) + extra;
    var slots := ReleasedSlots(t, 0);
    forall x: Release | x.kind == t.kind ensures x in r <==> x.slot in slots {
      InReleasesOf(ts, x);
    }
    forall i | 0 <= i < |t.slots| ensures Release(t.kind, i) in r <==> t.slots[i].id != 0 {
      assert Release(t.kind, i) in r <==> i in slots;
    }
  }

  /**
    * `resources_cleanup`, as the sequence of release calls it makes: table by table,
    * every slot with a nonzero name whatever its usage, then every shader slot.
    * Counts are left as they are.
    */
  function Cleanup(v: VideoResources): (r: seq<Release>)
    requires Valid(v)
    ensures ReleasesNamed(r, v.textures) && ReleasesNamed(r, v.samplers) && ReleasesNamed(r, v.renderbuffers) &&
            ReleasesNamed(r, v.framebuffers) && ReleasesNamed(r, v.buffers) && ReleasesNamed(r, v.arrays)
    ensures forall i :: 0 <= i < Capacity(Shader) ==> Release(Shader, i) in r
    ensures forall x :: x in r && x.kind == Shader ==> x.slot < Capacity(Shader)
  {
    var ts := NamedTables(v);
    var shaders := Releases(Shader, AllSlots(Capacity(Shader)));
    CleanupReleases(v, ts, shaders);
    ReleasesOf(ts) + shaders
  }

  /** The facts `Cleanup` promises, for its loops and its shader releases. */
  lemma CleanupReleases(v: VideoResources, ts: seq<Table>, shaders: seq<Release>)
    requires Valid(v) && ts == NamedTables(v) && shaders == Releases(Shader, AllSlots(Capacity(Shader)))
    ensures var r := ReleasesOf(ts) + shaders;
      ReleasesNamed(r, v.textures) && ReleasesNamed(r, v.samplers) && ReleasesNamed(r, v.renderbuffers) &&
      ReleasesNamed(r, v.framebuffers) && ReleasesNamed(r, v.buffers) && ReleasesNamed(r, v.arrays) &&
      (forall i :: 0 <= i < Capacity(Shader) ==> Release(Shader, i) in r) &&
      (forall x :: x in r && x.kind == Shader ==> x.slot < Capacity(Shader))
  {
    var r := ReleasesOf(ts) + shaders;
    forall x | x in shaders ensures x.kind == Shader && x.slot < Capacity(Shader) {
      InReleases(Shader, AllSlots(Capacity(Shader)), x);
    }
    TableReleasesNamed(ts, 0, shaders);
    TableReleasesNamed(ts, 1, shaders);
    TableReleasesNamed(ts, 2, shaders);
    TableReleasesNamed(ts, 3, shaders);
    TableReleasesNamed(ts, 4, shaders);
    TableReleasesNamed(ts, 5, shaders);
    forall i | 0 <= i < Capacity(Shader) ensures Release(Shader, i) in r {
      InReleases(Shader, AllSlots(Capacity(Shader)), Release(Shader, i));
      assert AllSlots(Capacity(Shader))[i] == i;
    }
    forall x | x in r && x.kind == Shader ensures x.slot < Capacity(Shader) {
      InReleasesOf(ts, x);
    }
  }
}
