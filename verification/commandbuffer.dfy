/**
  * The deferred command buffer (neon/src/video/commandbuffer.c): recorders append
  * tagged commands and copy uniform values into a byte arena; submission replays
  * every buffer's commands against the GL context, bracketed by the buffer's render
  * state and a reset to the defaults.
  */
module CommandBuffer {
  import opened Wrappers
  import opened Bytes
  import opened GlState

  const MAX_COMMANDS: nat := 512
  /** The arena size every buffer gets, whatever size was asked for. */
  const MEMORY_SIZE: nat := 65536
  const VCB_NO_STATES_BIT: bv32 := 0x0001

  const UNIFORM_INT: u32 := 0
  const UNIFORM_FLOAT: u32 := 1
  const UNIFORM_FLOAT2: u32 := 2
  const UNIFORM_FLOAT3: u32 := 3
  const UNIFORM_FLOAT4: u32 := 4
  const UNIFORM_MATRIX3: u32 := 5
  const UNIFORM_MATRIX4: u32 := 6

  /** `uniform_size`: the bytes of one element of a uniform type, 0 for an unknown type. */
  function UniformSize(t: u32): (n: nat)
    ensures t <= UNIFORM_MATRIX4 <==> n > 0
    ensures n % 4 == 0 && n <= 64
  {
    if t == UNIFORM_INT || t == UNIFORM_FLOAT then 4
    else if t == UNIFORM_FLOAT2 then 8
    else if t == UNIFORM_FLOAT3 then 12
    else if t == UNIFORM_FLOAT4 then 16
    else if t == UNIFORM_MATRIX3 then 36
    else if t == UNIFORM_MATRIX4 then 64
    else 0
  }

  /** Element sizes are 4, 4, 8, 12, 16, 36 and 64 bytes: one float or int per component. */
  lemma UniformSizesAreComponentCounts()
    ensures UniformSize(UNIFORM_INT) == 4 && UniformSize(UNIFORM_FLOAT) == 4
    ensures UniformSize(UNIFORM_FLOAT2) == 2 * 4 && UniformSize(UNIFORM_FLOAT3) == 3 * 4
    ensures UniformSize(UNIFORM_FLOAT4) == 4 * 4 && UniformSize(UNIFORM_MATRIX3) == 9 * 4
    ensures UniformSize(UNIFORM_MATRIX4) == 16 * 4
  {
  }

  /** One recorded command, one alternative per `VideoCommandType`. */
  datatype Command =
    | Viewport(x: int, y: int, width: int, height: int)
    | Clear
    | DrawArray(mode: u32, count: u32, first: u32)
    | DrawElements(mode: u32, elemType: u32, count: u32, baseVertex: u32, indicesOffset: u32)
    | DrawElementsInstanced(mode: u32, elemType: u32, count: u32, instances: u32, baseVertex: u32, indicesOffset: u32)
    | TargetDrawBuffer(target: u32, buf: u32)
    | BindFramebuffer(framebuffer: u32)
    | BindTarget(attachment: u32, target: u32, texture: u32)
    | BindShader(program: u32)
    | BindTexture(unit: u32, target: u32, texture: u32, sampler: u32, location: int)
    | BindVertexArray(vao: u32)
    | Uniform(location: int, uniformType: u32, size: u32, offset: nat, count: u32)

  /** A command buffer: render state blocks, the command log, bind counters and the uniform arena. */
  datatype Buffer = Buffer(id: u32, flags: bv32, mask: u32,
                           blend: ColorBlendState, rasterizer: RasterizerState, depth: DepthStencilState,
                           commands: seq<Command>, shaderBindings: nat, textureBindings: nat,
                           memory: seq<byte>, memoryOffset: nat)

  /** The arena is full-sized, the offset within it, and every recorded uniform lies below the offset. */
  predicate Valid(b: Buffer)
  {
    |b.memory| == MEMORY_SIZE && b.memoryOffset <= MEMORY_SIZE && |b.commands| <= MAX_COMMANDS &&
    forall k :: 0 <= k < |b.commands| && b.commands[k].Uniform? ==>
      b.commands[k].offset + b.commands[k].size <= b.memoryOffset
  }

  /**
    * `new_command_buffer`: the requested arena size is ignored and 65536 bytes are
    * used; the counter supplies the id. The arena's initial bytes are unspecified in
    * the source and zero here.
    */
  function NewBuffer(id: u32, requestedSize: nat): (b: Buffer)
    ensures Valid(b) && b.id == id && b.flags == 0 && b.commands == [] && b.memoryOffset == 0
    ensures |b.memory| == MEMORY_SIZE
  {
    Buffer(id, 0, 0, ColorBlendState(false, 0, 0), RasterizerState(0, 0, false),
           DepthStencilState(false, false, false, 0, false, StencilFaceState(0, 0, 0, 0, 0), StencilFaceState(0, 0, 0, 0, 0)),
           [], 0, 0, seq(MEMORY_SIZE, _ => 0 as byte), 0)
  }

  datatype RecordError = CommandsFull | BufferFull

  /**
    * Every recorder but the uniform one: the command goes at index `commands_count`
    * and the count grows by one. The source never checks the 512-entry array; a full
    * log is an error here.
    */
  function Record(b: Buffer, c: Command): (r: Result<Buffer, RecordError>)
    requires Valid(b) && !c.Uniform?
    ensures r.Err? <==> |b.commands| == MAX_COMMANDS
    ensures r.Ok? ==> Valid(r.value) && r.value.commands == b.commands + [c] && r.value.(commands := b.commands) == b
  {
    if |b.commands| == MAX_COMMANDS then Err(CommandsFull) else Ok(b.(commands := b.commands + [c]))
  }

  /** `draw_array_command`: always draws from vertex 0. */
  function DrawArrayCommand(b: Buffer, mode: u32, count: u32): (r: Result<Buffer, RecordError>)
    requires Valid(b)
    ensures r.Ok? ==> |r.value.commands| == |b.commands| + 1 && r.value.commands[|b.commands|] == DrawArray(mode, count, 0)
    ensures r.Ok? <==> |b.commands| < MAX_COMMANDS
  {
    Record(b, DrawArray(mode, count, 0))
  }

  /** The bytes one `uniform_command` copies: `uniform_size(type) * count`. */
  function UniformBytes(t: u32, count: u32): nat
  {
    UniformSize(t) * count
  }

  /** `memory` with `data` written at `offset`. */
  function Write(memory: seq<byte>, offset: nat, data: seq<byte>): (r: seq<byte>)
    requires offset + |data| <= |memory|
    ensures |r| == |memory| && r[offset .. offset + |data|] == data
    ensures r[..offset] == memory[..offset] && r[offset + |data|..] == memory[offset + |data|..]
  {
    memory[..offset] + data + memory[offset + |data|..]
  }

  /** The guard of `uniform_command` as written: the current offset lies inside the arena. */
  predicate UniformGuardAsWritten(b: Buffer)
  {
    b.memoryOffset < MEMORY_SIZE
  }

  /**
    * The guard only checks where the copy starts: a buffer whose first uniform filled
    * 65532 bytes passes it, and a 4x4 matrix then copies 64 bytes from offset 65532,
    * 60 of them past the end of the arena.
    */
  lemma UniformGuardAsWrittenOverruns()
    ensures var b := NewBuffer(0, 0).(memoryOffset := 65532);
      UniformGuardAsWritten(b) && b.memoryOffset + UniformBytes(UNIFORM_MATRIX4, 1) == MEMORY_SIZE + 60
    ensures var data := seq(65532, _ => 0 as byte);
      var r := UniformCommand(NewBuffer(0, 0), 0, UNIFORM_INT, data, 16383);
      r.Ok? && r.value.memoryOffset == 65532
  {
  }

  /**
    * `uniform_command` with the copy bounded by the arena: a negative location
    * records nothing; otherwise `uniform_size(type) * count` bytes are copied to the
    * current offset, a uniform command records that offset, size and count, and the
    * offset advances by the size. A copy that would not fit is an error.
    */
  function UniformCommand(b: Buffer, location: int, t: u32, data: seq<byte>, count: u32): (r: Result<Buffer, RecordError>)
    requires Valid(b) && |data| == UniformBytes(t, count)
    ensures b.memoryOffset < MEMORY_SIZE && location < 0 ==> r == Ok(b)
    ensures r.Err? <==> b.memoryOffset >= MEMORY_SIZE ||
                        (location >= 0 && (|b.commands| == MAX_COMMANDS || b.memoryOffset + |data| > MEMORY_SIZE))
    ensures r.Ok? ==> Valid(r.value)
    ensures r.Ok? && location >= 0 ==>
      r.value.commands == b.commands + [Uniform(location, t, |data|, b.memoryOffset, count)] &&
      r.value.memoryOffset == b.memoryOffset + |data| &&
      r.value.memory[b.memoryOffset .. b.memoryOffset + |data|] == data &&
      r.value.memory[..b.memoryOffset] == b.memory[..b.memoryOffset] &&
      r.value.(commands := b.commands, memory := b.memory, memoryOffset := b.memoryOffset) == b
  {
    if b.memoryOffset >= MEMORY_SIZE then Err(BufferFull)
    else if location < 0 then Ok(b)
    else if |b.commands| == MAX_COMMANDS then Err(CommandsFull)
    else if b.memoryOffset + |data| > MEMORY_SIZE then Err(BufferFull)
    else
      Ok(b.(commands := b.commands + [Uniform(location, t, |data|, b.memoryOffset, count)],
            memory := Write(b.memory, b.memoryOffset, data),
            memoryOffset := b.memoryOffset + |data|))
  }

  /** One recorder call. */
  datatype Call = Plain(c: Command) | UniformCall(location: int, t: u32, data: seq<byte>, count: u32)

  predicate WellFormed(call: Call)
  {
    match call
    case Plain(c) => !c.Uniform?
    case UniformCall(_, t, data, count) => |data| == UniformBytes(t, count)
  }

  function Apply(b: Buffer, call: Call): (r: Result<Buffer, RecordError>)
    requires Valid(b) && WellFormed(call)
    ensures r.Ok? ==> Valid(r.value)
  {
    match call
    case Plain(c) => Record(b, c)
    case UniformCall(location, t, data, count) => UniformCommand(b, location, t, data, count)
  }

  /** A sequence of recorder calls, stopping at the first that fails. */
  function RecordAll(b: Buffer, calls: seq<Call>): (r: Result<Buffer, RecordError>)
    requires Valid(b) && forall k :: 0 <= k < |calls| ==> WellFormed(calls[k])
    ensures r.Ok? ==> Valid(r.value)
    decreases |calls|
  {
    if calls == [] then Ok(b)
    else match Apply(b, calls[0])
      case Err(e) => Err(e)
      case Ok(b1) => RecordAll(b1, calls[1..])
  }

  /** Later recordings keep the log so far, the offset only grows and the arena below it is untouched. */
  predicate Keeps(b: Buffer, b': Buffer)
  {
    |b.memory| == |b'.memory| && b.memoryOffset <= b'.memoryOffset <= |b'.memory| &&
    |b.commands| <= |b'.commands| && b'.commands[..|b.commands|] == b.commands &&
    b'.memory[..b.memoryOffset] == b.memory[..b.memoryOffset]
  }

  lemma {:induction false} RecordAllKeeps(b: Buffer, calls: seq<Call>)
    requires Valid(b) && forall k :: 0 <= k < |calls| ==> WellFormed(calls[k])
    ensures RecordAll(b, calls).Ok? ==> Keeps(b, RecordAll(b, calls).value)
    decreases |calls|
  {
    if calls != [] {
      var r1 := Apply(b, calls[0]);
      if r1.Ok? {
        var b1 := r1.value;
        assert Keeps(b, b1) by {
          if calls[0].UniformCall? && calls[0].location >= 0 {
            assert b1.memory[..b.memoryOffset] == b.memory[..b.memoryOffset];
          }
        }
        RecordAllKeeps(b1, calls[1..]);
        if RecordAll(b1, calls[1..]).Ok? {
          var b2 := RecordAll(b1, calls[1..]).value;
          assert b2.commands[..|b.commands|] == b2.commands[..|b1.commands|][..|b.commands|];
          assert b2.memory[..b.memoryOffset] == b2.memory[..b1.memoryOffset][..b.memoryOffset];
        }
      }
    }
  }

  /**
    * The bytes of a recorded uniform survive every later recording: after any
    * further successful calls the command is still in its place and the arena still
    * holds exactly the data at its recorded offset.
    */
  lemma UniformDataSurvives(b: Buffer, location: int, t: u32, data: seq<byte>, count: u32, calls: seq<Call>)
    requires Valid(b) && |data| == UniformBytes(t, count) && location >= 0
    requires forall k :: 0 <= k < |calls| ==> WellFormed(calls[k])
    requires UniformCommand(b, location, t, data, count).Ok?
    requires RecordAll(UniformCommand(b, location, t, data, count).value, calls).Ok?
    ensures var b2 := RecordAll(UniformCommand(b, location, t, data, count).value, calls).value;
      |b2.commands| > |b.commands| && b2.commands[|b.commands|] == Uniform(location, t, |data|, b.memoryOffset, count) &&
      b2.memory[b.memoryOffset .. b.memoryOffset + |data|] == data
  {
    var b1 := UniformCommand(b, location, t, data, count).value;
    var b2 := RecordAll(b1, calls).value;
    RecordAllKeeps(b1, calls);
    assert b2.commands[|b.commands|] == b2.commands[..|b1.commands|][|b.commands|];
    assert b2.memory[b.memoryOffset .. b.memoryOffset + |data|] == b2.memory[..b1.memoryOffset][b.memoryOffset .. b.memoryOffset + |data|];
    assert b1.memory[..b1.memoryOffset][b.memoryOffset .. b.memoryOffset + |data|] == b1.memory[b.memoryOffset .. b.memoryOffset + |data|];
  }

  /**
    * `clear_command_buffers`: the log, the arena offset and both bind counters are
    * reset; the state blocks, flags and arena contents are left as they are.
    */
  function ClearBuffers(buffers: seq<Buffer>): (r: seq<Buffer>)
    ensures |r| == |buffers|
    ensures forall i :: 0 <= i < |r| ==>
      r[i].commands == [] && r[i].memoryOffset == 0 && r[i].shaderBindings == 0 && r[i].textureBindings == 0 &&
      r[i].(commands := buffers[i].commands, memoryOffset := buffers[i].memoryOffset,
            shaderBindings := buffers[i].shaderBindings, textureBindings := buffers[i].textureBindings) == buffers[i]
  {
    seq(|buffers|, i requires 0 <= i < |buffers| =>
          buffers[i].(commands := [], memoryOffset := 0, shaderBindings := 0, textureBindings := 0))
  }

  /** A cleared valid buffer is valid again. */
  lemma ClearedIsValid(buffers: seq<Buffer>, i: nat)
    requires i < |buffers| && |buffers[i].memory| == MEMORY_SIZE
    ensures Valid(ClearBuffers(buffers)[i])
  {
  }

  // ---------------------------------------------------------------- replay

  /**
    * The GL calls that leave something behind other than bound state, in the order
    * issued. Clears and draws carry the render state they ran under.
    */
  datatype Effect =
    | ClearFx(mask: u32, state: Pipeline)
    | DrawArraysFx(mode: u32, first: u32, count: u32, state: Pipeline)
    | DrawElementsFx(mode: u32, count: u32, elemType: u32, indicesOffset: u32, baseVertex: u32, state: Pipeline)
    | DrawInstancedFx(mode: u32, count: u32, elemType: u32, indicesOffset: u32, instances: u32, baseVertex: u32,
                      state: Pipeline)
    | SamplerUniformFx(location: int, unit: u32)
    | UniformFx(location: int, uniformType: u32, count: u32, bytes: seq<byte>)

  /** The effects whose outcome depends on the render state. */
  predicate Rendered(e: Effect)
  {
    e.ClearFx? || e.DrawArraysFx? || e.DrawElementsFx? || e.DrawInstancedFx?
  }

  /** The abstract GL context submission drives. */
  datatype Context = Context(pipeline: Pipeline, viewport: (int, int, int, int), drawBuffer: u32,
                             framebuffer: u32, program: u32, vertexArray: u32, activeUnit: u32,
                             textures: map<(u32, u32), u32>, samplers: map<u32, u32>,
                             attachments: map<(u32, u32), (u32, u32)>, log: seq<Effect>)

  /** Every uniform command of `cs` reads inside the arena of `b`. */
  predicate InArena(b: Buffer, cs: seq<Command>)
  {
    forall k :: 0 <= k < |cs| && cs[k].Uniform? ==> cs[k].offset + cs[k].size <= |b.memory|
  }

  /**
    * The effects one command of buffer `b` leaves in the log under render state `p`;
    * uniforms read their bytes back from the arena.
    */
  function EffectsOf(p: Pipeline, b: Buffer, c: Command): seq<Effect>
    requires c.Uniform? ==> c.offset + c.size <= |b.memory|
  {
    match c
    case Clear => [ClearFx(b.mask, p)]
    case DrawArray(mode, count, first) => [DrawArraysFx(mode, first, count, p)]
    case DrawElements(mode, t, count, base, offset) => [DrawElementsFx(mode, count, t, offset, base, p)]
    case DrawElementsInstanced(mode, t, count, n, base, offset) => [DrawInstancedFx(mode, count, t, offset, n, base, p)]
    case BindTexture(unit, _, _, _, location) => [SamplerUniformFx(location, unit)]
    case Uniform(location, t, size, offset, count) =>
      if t <= UNIFORM_MATRIX4 then [UniformFx(location, t, count, b.memory[offset .. offset + size])] else []
    case _ => []
  }

  /** The effects of a buffer's first commands under render state `p`, in recorded order. */
  function Trace(p: Pipeline, b: Buffer, cs: seq<Command>): seq<Effect>
    requires InArena(b, cs)
  {
    if cs == [] then [] else Trace(p, b, cs[..|cs| - 1]) + EffectsOf(p, b, cs[|cs| - 1])
  }

  /** Every clear and draw of a trace taken under `p` ran under `p`. */
  lemma {:induction false} TraceRunsUnder(p: Pipeline, b: Buffer, cs: seq<Command>)
    requires InArena(b, cs)
    ensures forall k :: 0 <= k < |Trace(p, b, cs)| && Rendered(Trace(p, b, cs)[k]) ==> Trace(p, b, cs)[k].state == p
  {
    if cs != [] {
      var init := cs[..|cs| - 1];
      TraceRunsUnder(p, b, init);
      var fx := EffectsOf(p, b, cs[|cs| - 1]);
      assert forall k :: 0 <= k < |fx| && Rendered(fx[k]) ==> fx[k].state == p;
      assert Trace(p, b, cs) == Trace(p, b, init) + fx;
    }
  }

  /** How many of the commands satisfy `q`. */
  function Count(cs: seq<Command>, q: Command -> bool): nat
  {
    if cs == [] then 0 else Count(cs[..|cs| - 1], q) + (if q(cs[|cs| - 1]) then 1 else 0)
  }

  /** The trace of one more command extends the trace by that command's effects. */
  lemma TraceSnoc(p: Pipeline, b: Buffer, cs: seq<Command>, i: nat)
    requires i < |cs| && InArena(b, cs)
    ensures Trace(p, b, cs[..i + 1]) == Trace(p, b, cs[..i]) + EffectsOf(p, b, cs[i])
  {
    assert cs[..i + 1][..i] == cs[..i];
  }

  /** Counting over one more command adds one exactly when it satisfies `q`. */
  lemma CountSnoc(cs: seq<Command>, i: nat, q: Command -> bool)
    requires i < |cs|
    ensures Count(cs[..i + 1], q) == Count(cs[..i], q) + (if q(cs[i]) then 1 else 0)
  {
    assert cs[..i + 1][..i] == cs[..i];
  }

  /**
    * One command against the context: bindings update the context, the rest is
    * logged under the current render state, which no command changes.
    */
  function Execute(ctx: Context, b: Buffer, c: Command): (r: Context)
    requires c.Uniform? ==> c.offset + c.size <= |b.memory|
    ensures r.log == ctx.log + EffectsOf(ctx.pipeline, b, c)
    ensures r.pipeline == ctx.pipeline
    ensures c.Viewport? ==> r.viewport == (c.x, c.y, c.width, c.height)
    ensures c.TargetDrawBuffer? ==> r.drawBuffer == c.buf
    ensures c.BindFramebuffer? ==> r.framebuffer == c.framebuffer
    ensures c.BindTarget? ==> r.attachments == ctx.attachments[(ctx.framebuffer, c.attachment) := (c.target, c.texture)]
    ensures c.BindShader? ==> r.program == c.program
    ensures c.BindTexture? ==>
      r.activeUnit == c.unit && (c.unit, c.target) in r.textures && r.textures[(c.unit, c.target)] == c.texture &&
      c.unit in r.samplers && r.samplers[c.unit] == c.sampler &&
      (forall key :: key in ctx.textures && key != (c.unit, c.target) ==> key in r.textures && r.textures[key] == ctx.textures[key])
    ensures c.BindVertexArray? ==> r.vertexArray == c.vao
    ensures c.Clear? || c.DrawArray? || c.DrawElements? || c.DrawElementsInstanced? || c.Uniform? ==>
      r == ctx.(log := r.log)
    ensures !c.BindShader? ==> r.program == ctx.program
    ensures !c.BindFramebuffer? ==> r.framebuffer == ctx.framebuffer
  {
    match c
    case Viewport(x, y, w, h) => ctx.(viewport := (x, y, w, h))
    case TargetDrawBuffer(_, buf) => ctx.(drawBuffer := buf)
    case BindFramebuffer(fb) => ctx.(framebuffer := fb)
    case BindTarget(attachment, target, texture) =>
      ctx.(attachments := ctx.attachments[(ctx.framebuffer, attachment) := (target, texture)])
    case BindShader(program) => ctx.(program := program)
    case BindTexture(unit, target, texture, sampler, location) =>
      ctx.(activeUnit := unit, textures := ctx.textures[(unit, target) := texture], samplers := ctx.samplers[unit := sampler],
           log := ctx.log + EffectsOf(ctx.pipeline, b, c))
    case BindVertexArray(vao) => ctx.(vertexArray := vao)
    case _ => ctx.(log := ctx.log + EffectsOf(ctx.pipeline, b, c))
  }

  /**
    * The context after a buffer's first commands, executed in recorded order: the
    * render state is kept, the log grows by their trace under it, and the program
    * changes only through a shader bind.
    */
  function Run(ctx: Context, b: Buffer, cs: seq<Command>): (r: Context)
    requires InArena(b, cs)
    ensures r.pipeline == ctx.pipeline
    ensures r.log == ctx.log + Trace(ctx.pipeline, b, cs)
    ensures (forall k :: 0 <= k < |cs| ==> !cs[k].BindShader?) ==> r.program == ctx.program
  {
    if cs == [] then ctx else Execute(Run(ctx, b, cs[..|cs| - 1]), b, cs[|cs| - 1])
  }

  /** The trace of a prefix of the log is a prefix of the trace of the log. */
  lemma {:induction false} TracePrefix(p: Pipeline, b: Buffer, cs: seq<Command>, i: nat)
    requires i <= |cs| && InArena(b, cs)
    ensures |Trace(p, b, cs[..i])| <= |Trace(p, b, cs)| && Trace(p, b, cs)[..|Trace(p, b, cs[..i])|] == Trace(p, b, cs[..i])
    decreases |cs| - i
  {
    if i < |cs| {
      var init := cs[..|cs| - 1];
      assert init[..i] == cs[..i];
      TracePrefix(p, b, init, i);
      assert Trace(p, b, cs) == Trace(p, b, init) + EffectsOf(p, b, cs[|cs| - 1]);
    } else {
      assert cs[..i] == cs;
    }
  }

  /** The effects of command k sit in the trace right after those of the commands before it. */
  lemma TraceAt(p: Pipeline, b: Buffer, cs: seq<Command>, k: nat)
    requires k < |cs| && InArena(b, cs)
    ensures var before := |Trace(p, b, cs[..k])|;
      before + |EffectsOf(p, b, cs[k])| <= |Trace(p, b, cs)| &&
      Trace(p, b, cs)[before .. before + |EffectsOf(p, b, cs[k])|] == EffectsOf(p, b, cs[k])
  {
    TracePrefix(p, b, cs, k + 1);
    TraceSnoc(p, b, cs, k);
    var pre := Trace(p, b, cs[..k + 1]);
    var full := Trace(p, b, cs);
    var before := |Trace(p, b, cs[..k])|;
    assert full[before .. before + |EffectsOf(p, b, cs[k])|] == pre[before..];
  }

  /**
    * A recorded uniform of a known type is replayed with exactly its data: whatever
    * is recorded after it, the trace of the buffer carries, at the position right
    * after the effects of the commands before it, the uniform call over its bytes.
    */
  lemma RecordedUniformReplayed(p: Pipeline, b: Buffer, location: int, t: u32, data: seq<byte>, count: u32,
                                calls: seq<Call>)
    requires Valid(b) && |data| == UniformBytes(t, count) && location >= 0 && t <= UNIFORM_MATRIX4
    requires forall k :: 0 <= k < |calls| ==> WellFormed(calls[k])
    requires UniformCommand(b, location, t, data, count).Ok?
    requires RecordAll(UniformCommand(b, location, t, data, count).value, calls).Ok?
    ensures var b2 := RecordAll(UniformCommand(b, location, t, data, count).value, calls).value;
      var k := |b.commands|;
      k < |b2.commands| &&
      var before := Trace(p, b2, b2.commands[..k]);
      |before| < |Trace(p, b2, b2.commands)| && Trace(p, b2, b2.commands)[|before|] == UniformFx(location, t, count, data)
  {
    var b2 := RecordAll(UniformCommand(b, location, t, data, count).value, calls).value;
    UniformDataSurvives(b, location, t, data, count, calls);
    UniformInTrace(p, b2, |b.commands|, location, t, data, count, b.memoryOffset);
  }

  /** A uniform command whose arena bytes are `data` contributes exactly one call over `data`. */
  lemma UniformInTrace(p: Pipeline, b2: Buffer, k: nat, location: int, t: u32, data: seq<byte>, count: u32, offset: nat)
    requires Valid(b2) && k < |b2.commands| && t <= UNIFORM_MATRIX4 && |data| <= MEMORY_SIZE
    requires b2.commands[k] == Uniform(location, t, |data|, offset, count)
    requires offset + |data| <= |b2.memory| && b2.memory[offset .. offset + |data|] == data
    ensures var before := Trace(p, b2, b2.commands[..k]);
      |before| < |Trace(p, b2, b2.commands)| && Trace(p, b2, b2.commands)[|before|] == UniformFx(location, t, count, data)
  {
    var fx := UniformFx(location, t, count, data);
    assert EffectsOf(p, b2, b2.commands[k]) == [fx];
    TraceAt(p, b2, b2.commands, k);
    var before := |Trace(p, b2, b2.commands[..k])|;
    var full := Trace(p, b2, b2.commands);
    assert full[before .. before + 1] == [fx];
    assert full[before] == full[before .. before + 1][0];
  }

  /** `apply_states`: the buffer's blend, rasterizer and depth-stencil blocks, unless states are off. */
  function ApplyStates(p: Pipeline, b: Buffer): (r: Pipeline)
    ensures b.flags & VCB_NO_STATES_BIT != 0 ==> r == p
    ensures b.flags & VCB_NO_STATES_BIT == 0 ==>
      r == SetDepthStencil(SetRasterizer(SetColorBlend(p, b.blend), b.rasterizer), b.depth)
  {
    if b.flags & VCB_NO_STATES_BIT != 0 then p
    else SetDepthStencil(SetRasterizer(SetColorBlend(p, b.blend), b.rasterizer), b.depth)
  }

  /** The render-state switches every buffer leaves behind unless states are off. */
  predicate DefaultSwitches(p: Pipeline)
  {
    !p.blend && !p.cull && !p.depthTest && !p.depthClamp && p.depthMask && p.polygonMode == GL_FILL && !p.discard
  }

  /** The state every buffer leaves behind unless states are off. */
  predicate DefaultsRestored(ctx: Context)
  {
    DefaultSwitches(ctx.pipeline) && ctx.framebuffer == 0
  }

  /** The render state `apply_default_states` leaves after buffer `b`. */
  function RestoredPipeline(p: Pipeline, b: Buffer): Pipeline
  {
    if b.flags & VCB_NO_STATES_BIT != 0 then p
    else
      var p1 := p.(depthMask := true, depthTest := false, depthClamp := false);
      var p2 := if b.depth.stencilTest then p1.(front := KeepOps(p1.front), back := KeepOps(p1.back), stencilTest := false) else p1;
      ClearColorBlend(ClearRasterizer(p2))
  }

  /**
    * `apply_default_states`: the program is unbound if any shader was bound, the
    * stencil reset only when the buffer's own block enables stencil, and the default
    * framebuffer rebound.
    */
  function ApplyDefaultStates(ctx: Context, b: Buffer): (r: Context)
    ensures b.flags & VCB_NO_STATES_BIT != 0 ==> r == ctx
    ensures b.flags & VCB_NO_STATES_BIT == 0 ==> DefaultsRestored(r) && r.log == ctx.log
    ensures b.flags & VCB_NO_STATES_BIT == 0 ==> r.program == (if b.shaderBindings != 0 then 0 else ctx.program)
    ensures b.flags & VCB_NO_STATES_BIT == 0 && b.depth.stencilTest ==> !r.pipeline.stencilTest
    ensures b.flags & VCB_NO_STATES_BIT == 0 && !b.depth.stencilTest ==>
      r.pipeline.stencilTest == ctx.pipeline.stencilTest && r.pipeline.front == ctx.pipeline.front
  {
    if b.flags & VCB_NO_STATES_BIT != 0 then ctx
    else ctx.(pipeline := RestoredPipeline(ctx.pipeline, b), framebuffer := 0,
              program := if b.shaderBindings != 0 then 0 else ctx.program)
  }

  predicate IsBindShader(c: Command) { c.BindShader? }
  predicate IsBindTexture(c: Command) { c.BindTexture? }
  predicate IsDrawElements(c: Command) { c.DrawElements? }

  /** The shader binds, texture binds and non-instanced element draws among some commands. */
  datatype Tallies = Tallies(shaders: nat, textures: nat, dips: nat)

  function TallyOf(cs: seq<Command>): Tallies
  {
    Tallies(Count(cs, IsBindShader), Count(cs, IsBindTexture), Count(cs, IsDrawElements))
  }

  /** The counters after one more command: at most one of them moves, by one. */
  function Bump(t: Tallies, cmd: Command): Tallies
  {
    Tallies(t.shaders + (if IsBindShader(cmd) then 1 else 0),
            t.textures + (if IsBindTexture(cmd) then 1 else 0),
            t.dips + (if IsDrawElements(cmd) then 1 else 0))
  }

  /** Tallying one more command bumps the tallies of the commands before it. */
  lemma TallyOfSnoc(cs: seq<Command>, i: nat)
    requires i < |cs|
    ensures TallyOf(cs[..i + 1]) == Bump(TallyOf(cs[..i]), cs[i])
  {
    CountSnoc(cs, i, IsBindShader);
    CountSnoc(cs, i, IsBindTexture);
    CountSnoc(cs, i, IsDrawElements);
  }

  /** The render state a buffer's clears and draws run under, from state `p` before it. */
  function DrawState(p: Pipeline, b: Buffer): Pipeline
  {
    ApplyStates(p, b)
  }

  /** The render state a buffer leaves, from state `p` before it. */
  function AfterBuffer(p: Pipeline, b: Buffer): Pipeline
  {
    RestoredPipeline(ApplyStates(p, b), b)
  }

  /**
    * One buffer of `submit_command_buffers`: its states, its commands in recorded
    * order, then the defaults. The log grows by the buffer's trace under the state
    * `apply_states` produced; the buffer's bind counters grow by its shader and
    * texture binds; `dips` counts its non-instanced element draws.
    */
  method SubmitBuffer(ctx: Context, b: Buffer) returns (ctx': Context, b': Buffer, dips: nat)
    requires Valid(b)
    ensures ctx'.log == ctx.log + Trace(DrawState(ctx.pipeline, b), b, b.commands)
    ensures ctx'.pipeline == AfterBuffer(ctx.pipeline, b)
    ensures ctx' == ApplyDefaultStates(Run(ctx.(pipeline := DrawState(ctx.pipeline, b)), b, b.commands), b')
    ensures b'.shaderBindings == b.shaderBindings + Count(b.commands, IsBindShader)
    ensures b'.textureBindings == b.textureBindings + Count(b.commands, IsBindTexture)
    ensures b' == b.(shaderBindings := b'.shaderBindings, textureBindings := b'.textureBindings)
    ensures b' == Replayed(b)
    ensures dips == Count(b.commands, IsDrawElements)
    ensures b.flags & VCB_NO_STATES_BIT == 0 ==> DefaultsRestored(ctx')
    ensures b.flags & VCB_NO_STATES_BIT == 0 && b'.shaderBindings != 0 ==> ctx'.program == 0
  {
    var c, t := Replay(ctx.(pipeline := ApplyStates(ctx.pipeline, b)), b);
    b' := b.(shaderBindings := b.shaderBindings + t.shaders, textureBindings := b.textureBindings + t.textures);
    dips := t.dips;
    ctx' := ApplyDefaultStates(c, b');
  }

  /**
    * The command loop of `submit_command_buffers`: every command in recorded order,
    * counting binds and draws. The render state is left as it was, and the log
    * grows by the commands' effects under it.
    */
  method Replay(ctx: Context, b: Buffer) returns (c: Context, t: Tallies)
    requires Valid(b)
    ensures c == Run(ctx, b, b.commands)
    ensures c.pipeline == ctx.pipeline && c.log == ctx.log + Trace(ctx.pipeline, b, b.commands)
    ensures t == TallyOf(b.commands)
  {
    c := ctx;
    t := Tallies(0, 0, 0);
    var i := 0;
    while i < |b.commands|
      invariant 0 <= i <= |b.commands|
      invariant c == Run(ctx, b, b.commands[..i])
      invariant t == TallyOf(b.commands[..i])
    {
      var cmd := b.commands[i];
      assert b.commands[..i + 1][..i] == b.commands[..i];
      TallyOfSnoc(b.commands, i);
      c := Execute(c, b, cmd);
      t := Bump(t, cmd);
      i := i + 1;
    }
    assert b.commands[..i] == b.commands;
  }

  /** How many buffers `submit_command_buffers` reaches: those before the first missing one. */
  function Reached(buffers: seq<Option<Buffer>>): (n: nat)
    ensures n <= |buffers|
    ensures forall k :: 0 <= k < n ==> buffers[k].Some?
    ensures n < |buffers| ==> buffers[n].None?
  {
    if buffers == [] || buffers[0].None? then 0 else 1 + Reached(buffers[1..])
  }

  /** The render state before buffer `n` of a run that started in state `p`. */
  function StateBefore(p: Pipeline, bs: seq<Buffer>, n: nat): Pipeline
    requires n <= |bs|
  {
    if n == 0 then p else AfterBuffer(StateBefore(p, bs, n - 1), bs[n - 1])
  }

  /** The log the first `n` buffers of a run from state `p` leave: each buffer's trace under its own draw state, in array order. */
  function SubmitTrace(p: Pipeline, bs: seq<Buffer>, n: nat): seq<Effect>
    requires n <= |bs| && forall k :: 0 <= k < |bs| ==> Valid(bs[k])
  {
    if n == 0 then []
    else SubmitTrace(p, bs, n - 1) + Trace(DrawState(StateBefore(p, bs, n - 1), bs[n - 1]), bs[n - 1], bs[n - 1].commands)
  }

  /**
    * State isolation between buffers: once buffer k has restored the defaults, the
    * switches buffer k + 1 draws under are the defaults overridden by its own
    * blocks, whatever state the run started in and whatever ran before.
    */
  lemma StatesIsolated(p: Pipeline, bs: seq<Buffer>, k: nat)
    requires k + 1 < |bs| && bs[k].flags & VCB_NO_STATES_BIT == 0
    ensures bs[k + 1].flags & VCB_NO_STATES_BIT != 0 ==> DefaultSwitches(DrawState(StateBefore(p, bs, k + 1), bs[k + 1]))
    ensures var q := DrawState(StateBefore(p, bs, k + 1), bs[k + 1]); var b := bs[k + 1];
      b.flags & VCB_NO_STATES_BIT == 0 ==>
        q.blend == b.blend.enable && q.cull == (b.rasterizer.cullMode != GL_NONE) &&
        q.polygonMode == (if b.rasterizer.fillMode != GL_NONE then b.rasterizer.fillMode else GL_FILL) &&
        q.discard == b.rasterizer.discard && q.depthTest == b.depth.depthTest &&
        q.depthMask == b.depth.depthWrite && q.depthClamp == b.depth.depthClamp
  {
    var before := StateBefore(p, bs, k);
    assert StateBefore(p, bs, k + 1) == RestoredPipeline(ApplyStates(before, bs[k]), bs[k]);
  }

  /** The non-instanced element draws of the first `n` buffers of a run. */
  function SubmitDips(bs: seq<Buffer>, n: nat): nat
    requires n <= |bs|
  {
    if n == 0 then 0 else SubmitDips(bs, n - 1) + Count(bs[n - 1].commands, IsDrawElements)
  }

  /** The buffers `submit_command_buffers` replays, in array order. */
  function ReachedBuffers(buffers: seq<Option<Buffer>>): (bs: seq<Buffer>)
    ensures |bs| == Reached(buffers)
    ensures forall k :: 0 <= k < |bs| ==> buffers[k] == Some(bs[k])
  {
    seq(Reached(buffers), k requires 0 <= k < Reached(buffers) => buffers[k].value)
  }

  /** A buffer after replay: its bind counters grown by its shader and texture binds, all else as it was. */
  function Replayed(b: Buffer): Buffer
  {
    b.(shaderBindings := b.shaderBindings + Count(b.commands, IsBindShader),
       textureBindings := b.textureBindings + Count(b.commands, IsBindTexture))
  }

  /**
    * `submit_command_buffers`: the draw counter is reset once, then buffers are
    * submitted in array order up to the first missing one. The log grows by the
    * traces of the reached buffers in order, each under the state its own blocks
    * set over what the buffers before it left; the render state ends as the last
    * of them left it; the draw counter ends at their non-instanced element draws;
    * each reached buffer's bind counters grow by its binds; and the buffers from
    * the first gap on are untouched.
    */
  method Submit(ctx: Context, buffers: seq<Option<Buffer>>) returns (ctx': Context, buffers': seq<Option<Buffer>>, dips: nat)
    requires forall k :: 0 <= k < |buffers| && buffers[k].Some? ==> Valid(buffers[k].value)
    ensures ctx'.log == ctx.log + SubmitTrace(ctx.pipeline, ReachedBuffers(buffers), Reached(buffers))
    ensures ctx'.pipeline == StateBefore(ctx.pipeline, ReachedBuffers(buffers), Reached(buffers))
    ensures dips == SubmitDips(ReachedBuffers(buffers), Reached(buffers))
    ensures |buffers'| == |buffers|
    ensures forall k :: 0 <= k < Reached(buffers) ==> buffers'[k] == Some(Replayed(buffers[k].value))
    ensures forall k :: Reached(buffers) <= k < |buffers| ==> buffers'[k] == buffers[k]
    ensures Reached(buffers) > 0 && buffers[Reached(buffers) - 1].value.flags & VCB_NO_STATES_BIT == 0 ==>
      DefaultsRestored(ctx')
  {
    var bs := ReachedBuffers(buffers);
    var out;
    ctx', out, dips := SubmitAll(ctx, bs);
    buffers' := seq(|buffers|, k requires 0 <= k < |buffers| => if k < |out| then Some(out[k]) else buffers[k]);
  }

  /**
    * Where a run from state `p` and log `log` stands after its first `j` buffers:
    * their traces logged, their draws counted, the state they left, each of them
    * replayed, and the defaults restored when the last of them has states on.
    */
  predicate Progress(p: Pipeline, log: seq<Effect>, bs: seq<Buffer>, j: nat, ctx: Context, dips: nat, out: seq<Buffer>)
    requires j <= |bs| && forall k :: 0 <= k < |bs| ==> Valid(bs[k])
  {
    ctx.log == log + SubmitTrace(p, bs, j) && dips == SubmitDips(bs, j) && ctx.pipeline == StateBefore(p, bs, j) &&
    |out| == j && (forall k :: 0 <= k < j ==> out[k] == Replayed(bs[k])) &&
    (j > 0 && bs[j - 1].flags & VCB_NO_STATES_BIT == 0 ==> DefaultsRestored(ctx))
  }

  /** The reached buffers of a run, replayed in array order. */
  method SubmitAll(ctx: Context, bs: seq<Buffer>) returns (ctx': Context, out: seq<Buffer>, dips: nat)
    requires forall k :: 0 <= k < |bs| ==> Valid(bs[k])
    ensures ctx'.log == ctx.log + SubmitTrace(ctx.pipeline, bs, |bs|) && dips == SubmitDips(bs, |bs|)
    ensures ctx'.pipeline == StateBefore(ctx.pipeline, bs, |bs|)
    ensures |out| == |bs| && forall k :: 0 <= k < |bs| ==> out[k] == Replayed(bs[k])
    ensures |bs| > 0 && bs[|bs| - 1].flags & VCB_NO_STATES_BIT == 0 ==> DefaultsRestored(ctx')
  {
    ctx' := ctx;
    out := [];
    dips := 0;
    var j := 0;
    while j < |bs|
      invariant j <= |bs| && Progress(ctx.pipeline, ctx.log, bs, j, ctx', dips, out)
    {
      ctx', dips, out := SubmitNext(ctx.pipeline, ctx.log, bs, j, ctx', dips, out);
      j := j + 1;
    }
  }

  /** Buffer `j` of a run from state `p`, replayed after the buffers before it. */
  method SubmitNext(p: Pipeline, log: seq<Effect>, bs: seq<Buffer>, j: nat, ctx: Context, dips: nat, out: seq<Buffer>)
    returns (ctx': Context, dips': nat, out': seq<Buffer>)
    requires j < |bs| && forall k :: 0 <= k < |bs| ==> Valid(bs[k])
    requires Progress(p, log, bs, j, ctx, dips, out)
    ensures Progress(p, log, bs, j + 1, ctx', dips', out')
  {
    var b := bs[j];
    var d, b';
    ctx', b', d := SubmitBuffer(ctx, b);
    ProgressStep(p, log, bs, j, ctx, dips, out, ctx', b', d);
    dips' := dips + d;
    out' := out + [b'];
  }

  /** A buffer submitted after the first `j` advances the run to `j + 1`. */
  lemma ProgressStep(p: Pipeline, log: seq<Effect>, bs: seq<Buffer>, j: nat, ctx: Context, dips: nat, out: seq<Buffer>,
                     ctx': Context, b': Buffer, d: nat)
    requires j < |bs| && forall k :: 0 <= k < |bs| ==> Valid(bs[k])
    requires Progress(p, log, bs, j, ctx, dips, out)
    requires ctx'.log == ctx.log + Trace(DrawState(ctx.pipeline, bs[j]), bs[j], bs[j].commands)
    requires ctx'.pipeline == AfterBuffer(ctx.pipeline, bs[j])
    requires b' == Replayed(bs[j]) && d == Count(bs[j].commands, IsDrawElements)
    requires bs[j].flags & VCB_NO_STATES_BIT == 0 ==> DefaultsRestored(ctx')
    ensures Progress(p, log, bs, j + 1, ctx', dips + d, out + [b'])
  {
    SubmitStep(p, bs, j);
    LogStep(p, log, bs, j, ctx.pipeline, ctx.log, ctx'.log);
    var out' := out + [b'];
    assert forall k :: 0 <= k < j + 1 ==> out'[k] == Replayed(bs[k]);
  }

  /** One more buffer extends the run's log by its trace, its state by its effect and its draws by its own. */
  lemma SubmitStep(p: Pipeline, bs: seq<Buffer>, j: nat)
    requires j < |bs| && forall k :: 0 <= k < |bs| ==> Valid(bs[k])
    ensures Valid(bs[j])
    ensures SubmitTrace(p, bs, j + 1) == SubmitTrace(p, bs, j) + Trace(DrawState(StateBefore(p, bs, j), bs[j]), bs[j], bs[j].commands)
    ensures StateBefore(p, bs, j + 1) == AfterBuffer(StateBefore(p, bs, j), bs[j])
    ensures SubmitDips(bs, j + 1) == SubmitDips(bs, j) + Count(bs[j].commands, IsDrawElements)
  {
  }

  /** The log after buffer `j` is the run's log through buffer `j`. */
  lemma LogStep(p: Pipeline, log: seq<Effect>, bs: seq<Buffer>, j: nat, q: Pipeline, l0: seq<Effect>, l1: seq<Effect>)
    requires j < |bs| && forall k :: 0 <= k < |bs| ==> Valid(bs[k])
    requires l0 == log + SubmitTrace(p, bs, j) && q == StateBefore(p, bs, j)
    requires l1 == l0 + Trace(DrawState(q, bs[j]), bs[j], bs[j].commands)
    ensures l1 == log + SubmitTrace(p, bs, j + 1)
  {
    SubmitStep(p, bs, j);
  }
}
