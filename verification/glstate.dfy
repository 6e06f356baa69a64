/**
  * Render-state blocks and the fixed-function GL state they drive
  * (neon/src/video/state.c, neon/include/video/state.h). The GL context is an
  * abstract record: each GL call becomes an update of the fields it changes.
  */
module GlState {
  import opened Bytes

  const GL_NONE: u32 := 0
  const GL_KEEP: u32 := 0x1E00
  const GL_FILL: u32 := 0x1B02
  const GL_LESS: u32 := 0x0201
  const GL_ALWAYS: u32 := 0x0207
  const GL_BACK: u32 := 0x0405
  const GL_ONE: u32 := 1
  const GL_ZERO: u32 := 0

  datatype ColorBlendState = ColorBlendState(enable: bool, sfactor: u32, dfactor: u32)
  datatype RasterizerState = RasterizerState(fillMode: u32, cullMode: u32, discard: bool)
  datatype StencilFaceState = StencilFaceState(func: u32, mask: byte, sfail: u32, dpfail: u32, dppass: u32)
  datatype DepthStencilState = DepthStencilState(depthTest: bool, depthWrite: bool, depthClamp: bool, depthFunc: u32,
                                                 stencilTest: bool, front: StencilFaceState, back: StencilFaceState)

  /** The stencil function, reference, mask and operations of one face. */
  datatype StencilFace = StencilFace(func: u32, ref: int, mask: byte, sfail: u32, dpfail: u32, dppass: u32)

  /** The fixed-function part of a GL context. */
  datatype Pipeline = Pipeline(
    blend: bool, blendSrc: u32, blendDst: u32,
    cull: bool, cullFace: u32, polygonMode: u32, discard: bool,
    depthTest: bool, depthFunc: u32, depthMask: bool, depthClamp: bool,
    stencilTest: bool, front: StencilFace, back: StencilFace)

  /** The GL defaults of a fresh context. */
  const INITIAL: Pipeline := Pipeline(false, GL_ONE, GL_ZERO, false, GL_BACK, GL_FILL, false,
                                      false, GL_LESS, true, false, false,
                                      StencilFace(GL_ALWAYS, 0, 0xFF, GL_KEEP, GL_KEEP, GL_KEEP),
                                      StencilFace(GL_ALWAYS, 0, 0xFF, GL_KEEP, GL_KEEP, GL_KEEP))

  /** `set_color_blend_state`: nothing when disabled, else blending on with the two factors. */
  function SetColorBlend(p: Pipeline, s: ColorBlendState): (r: Pipeline)
    ensures !s.enable ==> r == p
    ensures s.enable ==> r.blend && r.blendSrc == s.sfactor && r.blendDst == s.dfactor
    ensures r.(blend := p.blend, blendSrc := p.blendSrc, blendDst := p.blendDst) == p
  {
    if !s.enable then p else p.(blend := true, blendSrc := s.sfactor, blendDst := s.dfactor)
  }

  /**
    * `set_rasterizer_state`: culling is enabled only for a cull mode other than none,
    * the polygon mode is set only for a fill mode other than none, and discard is
    * only ever switched on.
    */
  function SetRasterizer(p: Pipeline, s: RasterizerState): (r: Pipeline)
    ensures r.cull <==> p.cull || s.cullMode != GL_NONE
    ensures r.cullFace == (if s.cullMode != GL_NONE then s.cullMode else p.cullFace)
    ensures r.polygonMode == (if s.fillMode != GL_NONE then s.fillMode else p.polygonMode)
    ensures r.discard <==> p.discard || s.discard
    ensures r.(cull := p.cull, cullFace := p.cullFace, polygonMode := p.polygonMode, discard := p.discard) == p
  {
    var p1 := if s.cullMode != GL_NONE then p.(cull := true, cullFace := s.cullMode) else p;
    var p2 := if s.fillMode != GL_NONE then p1.(polygonMode := s.fillMode) else p1;
    if s.discard then p2.(discard := true) else p2
  }

  function StencilFrom(f: StencilFaceState): StencilFace
  {
    StencilFace(f.func, 0, f.mask, f.sfail, f.dpfail, f.dppass)
  }

  /**
    * `set_depth_stencil_state`: the depth mask and the depth clamp always follow the
    * block; the depth test and the stencil setup change only when enabled.
    */
  function SetDepthStencil(p: Pipeline, s: DepthStencilState): (r: Pipeline)
    ensures r.depthMask == s.depthWrite && r.depthClamp == s.depthClamp
    ensures r.depthTest <==> p.depthTest || s.depthTest
    ensures r.depthFunc == (if s.depthTest then s.depthFunc else p.depthFunc)
    ensures r.stencilTest <==> p.stencilTest || s.stencilTest
    ensures !s.stencilTest ==> r.front == p.front && r.back == p.back
    ensures s.stencilTest ==> r.front == StencilFrom(s.front) && r.back == StencilFrom(s.back)
    ensures r.(depthMask := p.depthMask, depthClamp := p.depthClamp, depthTest := p.depthTest, depthFunc := p.depthFunc,
               stencilTest := p.stencilTest, front := p.front, back := p.back) == p
  {
    var p1 := if s.depthTest then p.(depthTest := true, depthFunc := s.depthFunc) else p;
    var p2 := p1.(depthMask := s.depthWrite, depthClamp := s.depthClamp);
    if s.stencilTest then p2.(stencilTest := true, front := StencilFrom(s.front), back := StencilFrom(s.back)) else p2
  }

  /** `clear_color_blend_state`. */
  function ClearColorBlend(p: Pipeline): (r: Pipeline)
    ensures !r.blend && r.(blend := p.blend) == p
  {
    p.(blend := false)
  }

  /** `clear_rasterizer_state`. */
  function ClearRasterizer(p: Pipeline): (r: Pipeline)
    ensures r.polygonMode == GL_FILL && !r.discard && !r.cull
    ensures r.(polygonMode := p.polygonMode, discard := p.discard, cull := p.cull) == p
  {
    p.(polygonMode := GL_FILL, discard := false, cull := false)
  }

  /** Both faces with all three stencil operations reset to keep. */
  function KeepOps(f: StencilFace): (r: StencilFace)
    ensures r.sfail == GL_KEEP && r.dpfail == GL_KEEP && r.dppass == GL_KEEP
    ensures r.func == f.func && r.ref == f.ref && r.mask == f.mask
  {
    f.(sfail := GL_KEEP, dpfail := GL_KEEP, dppass := GL_KEEP)
  }

  /** `clear_depth_stencil_state`. */
  function ClearDepthStencil(p: Pipeline): (r: Pipeline)
    ensures r.depthMask && !r.depthTest && !r.depthClamp && !r.stencilTest
    ensures r.front == KeepOps(p.front) && r.back == KeepOps(p.back)
    ensures r.(depthMask := p.depthMask, depthTest := p.depthTest, depthClamp := p.depthClamp,
               stencilTest := p.stencilTest, front := p.front, back := p.back) == p
  {
    p.(depthMask := true, depthTest := false, depthClamp := false, front := KeepOps(p.front), back := KeepOps(p.back),
       stencilTest := false)
  }

  /** The switches every clear leaves in one fixed position, whatever came before. */
  predicate Cleared(p: Pipeline)
  {
    !p.blend && !p.cull && p.polygonMode == GL_FILL && !p.discard &&
    p.depthMask && !p.depthTest && !p.depthClamp && !p.stencilTest &&
    p.front.sfail == GL_KEEP && p.front.dpfail == GL_KEEP && p.front.dppass == GL_KEEP &&
    p.back.sfail == GL_KEEP && p.back.dpfail == GL_KEEP && p.back.dppass == GL_KEEP
  }

  function ClearAll(p: Pipeline): Pipeline
  {
    ClearDepthStencil(ClearRasterizer(ClearColorBlend(p)))
  }

  /** The three clears reach the cleared position from any state and are idempotent. */
  lemma ClearsAreIdempotent(p: Pipeline)
    ensures Cleared(ClearAll(p))
    ensures ClearColorBlend(ClearColorBlend(p)) == ClearColorBlend(p)
    ensures ClearRasterizer(ClearRasterizer(p)) == ClearRasterizer(p)
    ensures ClearDepthStencil(ClearDepthStencil(p)) == ClearDepthStencil(p)
  {
  }

  /**
    * The clears undo whatever the three setters switched on: clearing after setting
    * reaches the cleared position, keeping only the factors and functions the
    * setters chose.
    */
  lemma ClearsUndoSetters(p: Pipeline, b: ColorBlendState, r: RasterizerState, d: DepthStencilState)
    ensures var q := ClearAll(SetDepthStencil(SetRasterizer(SetColorBlend(p, b), r), d));
      Cleared(q) && q.blendSrc == (if b.enable then b.sfactor else p.blendSrc)
  {
    var q0 := SetDepthStencil(SetRasterizer(SetColorBlend(p, b), r), d);
    assert q0.blendSrc == SetColorBlend(p, b).blendSrc;
    ClearsAreIdempotent(q0);
  }
}
