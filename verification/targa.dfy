/**
  * The TGA loader (neon/src/core/targa.c): an 18-byte little-endian header, then either
  * run-length packets (image type 10) or raw pixel bytes (types 2 and 3), decoded into
  * a buffer of width·height·(bpp/8+1) bytes. A read past the end of the stream copies
  * what is left and leaves the rest of the destination as it was; a fresh buffer is
  * modelled as zero.
  */
module Targa {
  import opened Wrappers
  import opened Bytes
  import opened Seqs

  const TARGA_DATA_TRUE_COLOR: int := 2
  const TARGA_DATA_BLACK_AND_WHITE: int := 3
  const TARGA_DATA_RLE_TRUE_COLOR: int := 10
  const HEADER_SIZE: nat := 18

  const GL_RED: int := 0x1903
  const GL_R8: int := 0x8229
  const GL_RGB8: int := 0x8051
  const GL_BGR: int := 0x80E0
  const GL_RGBA8: int := 0x8058
  const GL_BGRA: int := 0x80E1
  const GL_UNSIGNED_BYTE: int := 0x1401

  /** The packed `TARGA_HEADER`. */
  datatype Header = Header(idLength: byte, colorMap: byte, dataType: byte,
                           colormapIndex: u16, colormapLength: u16, colormapEntrySize: byte,
                           x: u16, y: u16, width: u16, height: u16, bpp: byte, description: byte)

  function EncodeHeader(h: Header): (b: seq<byte>)
    ensures |b| == HEADER_SIZE
  {
    [h.idLength, h.colorMap, h.dataType] + EncodeU16(h.colormapIndex) + EncodeU16(h.colormapLength) +
    [h.colormapEntrySize] + EncodeU16(h.x) + EncodeU16(h.y) + EncodeU16(h.width) + EncodeU16(h.height) +
    [h.bpp, h.description]
  }

  /** The header as `SDL_RWread` fills the packed structure from the first 18 bytes. */
  function DecodeHeader(b: seq<byte>): Header
    requires |b| >= HEADER_SIZE
  {
    Header(b[0], b[1], b[2], DecodeU16(b[3..5]), DecodeU16(b[5..7]), b[7],
           DecodeU16(b[8..10]), DecodeU16(b[10..12]), DecodeU16(b[12..14]), DecodeU16(b[14..16]), b[16], b[17])
  }

  /** A written header reads back as itself, whatever follows it. */
  lemma DecodeEncodeHeader(h: Header, rest: seq<byte>)
    ensures DecodeHeader(EncodeHeader(h) + rest) == h
  {
    var b := EncodeHeader(h) + rest;
    assert b[3..5] == EncodeU16(h.colormapIndex);
    assert b[5..7] == EncodeU16(h.colormapLength);
    assert b[8..10] == EncodeU16(h.x);
    assert b[10..12] == EncodeU16(h.y);
    assert b[12..14] == EncodeU16(h.width);
    assert b[14..16] == EncodeU16(h.height);
    DecodeEncodeU16(h.colormapIndex);
    DecodeEncodeU16(h.colormapLength);
    DecodeEncodeU16(h.x);
    DecodeEncodeU16(h.y);
    DecodeEncodeU16(h.width);
    DecodeEncodeU16(h.height);
  }

  /** Every 18 bytes are the encoding of the header read from them. */
  lemma EncodeDecodeHeader(b: seq<byte>)
    requires |b| == HEADER_SIZE
    ensures EncodeHeader(DecodeHeader(b)) == b
  {
    EncodeDecodeU16(b[3..5]);
    EncodeDecodeU16(b[5..7]);
    EncodeDecodeU16(b[8..10]);
    EncodeDecodeU16(b[10..12]);
    EncodeDecodeU16(b[12..14]);
    EncodeDecodeU16(b[14..16]);
    assert EncodeHeader(DecodeHeader(b)) == b[0..3] + b[3..5] + b[5..7] + b[7..8] + b[8..10] + b[10..12] +
                                            b[12..14] + b[14..16] + b[16..18];
  }

  // ---------------------------------------------------------------------------
  // Stream reads
  // ---------------------------------------------------------------------------

  function Zeros(n: nat): (z: seq<byte>)
    ensures |z| == n && forall k :: 0 <= k < n ==> z[k] == 0
  {
    seq(n, _ => 0 as byte)
  }

  function Min(a: nat, b: nat): nat { if a <= b then a else b }

  /** `n` bytes read from the stream `s`: what is there, the remainder of the destination zero. */
  function Take(s: seq<byte>, n: nat): (r: seq<byte>)
    ensures |r| == n
    ensures n <= |s| ==> r == s[..n]
  {
    s[..Min(n, |s|)] + Zeros(n - Min(n, |s|))
  }

  /** The stream after reading `n` bytes. */
  function Skip(s: seq<byte>, n: nat): (r: seq<byte>)
    ensures |r| == |s| - Min(n, |s|)
  {
    s[Min(n, |s|)..]
  }

  function Repeat(px: seq<byte>, n: nat): (r: seq<byte>)
    ensures |r| == n * |px|
  {
    if n == 0 then [] else px + Repeat(px, n - 1)
  }

  // ---------------------------------------------------------------------------
  // Run-length packets
  // ---------------------------------------------------------------------------

  /** Pixels in a packet: the low seven bits plus one (`(block & 0x7f) + 1`). */
  function PacketCount(block: byte): (n: nat)
    ensures 1 <= n <= 128
  {
    (block as int % 128) + 1
  }

  /** A run packet (`block & 0x80`) repeats one pixel; otherwise the packet holds its raw pixels. */
  predicate IsRun(block: byte)
  {
    block as int >= 128
  }

  /** The pixels packet `block` stores when `count` of its pixels are decoded from the stream `t`. */
  function Decoded(block: byte, t: seq<byte>, count: nat, bpb: nat): (out: seq<byte>)
    ensures |out| == count * bpb
  {
    if IsRun(block) then Repeat(Take(t, bpb), count) else Take(t, bpb * count)
  }

  /** The stream after packet `block`, read whole. */
  function Consumed(block: byte, t: seq<byte>, bpb: nat): seq<byte>
  {
    if IsRun(block) then Skip(t, bpb) else Skip(t, bpb * PacketCount(block))
  }

  /**
    * The decoding loop as written: `width·height` iterations, each decoding one whole
    * packet. Once the stream is exhausted the remaining iterations read nothing.
    */
  function RleAsWritten(s: seq<byte>, packets: nat, bpb: nat): seq<byte>
    decreases packets
  {
    if packets == 0 || s == [] then []
    else Decoded(s[0], s[1..], PacketCount(s[0]), bpb) + RleAsWritten(Consumed(s[0], s[1..], bpb), packets - 1, bpb)
  }

  /**
    * The decoding loop as intended: packets until `pixels` pixels are decoded, a packet
    * reaching past the image cut at its end.
    */
  function Rle(s: seq<byte>, pixels: nat, bpb: nat): seq<byte>
    decreases pixels
  {
    if pixels == 0 || s == [] then []
    else
      var count := Min(PacketCount(s[0]), pixels);
      Decoded(s[0], s[1..], count, bpb) + Rle(Consumed(s[0], s[1..], bpb), pixels - count, bpb)
  }

  lemma MulLe(a: nat, b: nat, c: nat)
    requires a <= b
    ensures a * c <= b * c
  {
  }

  lemma MulSplit(a: nat, b: nat, c: nat)
    requires b <= a
    ensures (a - b) * c + b * c == a * c
  {
  }

  /** The bounded loop writes at most `pixels·bpb` bytes, whatever the stream holds. */
  lemma {:induction false} RleBound(s: seq<byte>, pixels: nat, bpb: nat)
    ensures |Rle(s, pixels, bpb)| <= pixels * bpb
    decreases pixels
  {
    if pixels > 0 && s != [] {
      var count := Min(PacketCount(s[0]), pixels);
      RleBound(Consumed(s[0], s[1..], bpb), pixels - count, bpb);
      MulSplit(pixels, count, bpb);
    }
  }

  /** A packet as an encoder writes it: a run of one pixel, or up to 128 raw pixels. */
  datatype Packet = Run(n: nat, pixel: seq<byte>) | Raw(n: nat, bytes: seq<byte>)

  predicate ValidPacket(p: Packet, bpb: nat)
  {
    1 <= p.n <= 128 &&
    match p
    case Run(_, px) => |px| == bpb
    case Raw(n, bytes) => |bytes| == n * bpb
  }

  predicate ValidPackets(ps: seq<Packet>, bpb: nat)
  {
    forall i :: 0 <= i < |ps| ==> ValidPacket(ps[i], bpb)
  }

  function EncodePacket(p: Packet): seq<byte>
    requires 1 <= p.n <= 128
  {
    match p
    case Run(n, px) => [(128 + n - 1) as byte] + px
    case Raw(n, bytes) => [(n - 1) as byte] + bytes
  }

  function EncodePackets(ps: seq<Packet>): seq<byte>
    requires forall i :: 0 <= i < |ps| ==> 1 <= ps[i].n <= 128
  {
    if ps == [] then [] else EncodePacket(ps[0]) + EncodePackets(ps[1..])
  }

  /** The pixels one packet stands for. */
  function PacketPixels(p: Packet): seq<byte>
  {
    match p
    case Run(n, px) => Repeat(px, n)
    case Raw(_, bytes) => bytes
  }

  /** The pixels a sequence of packets stands for. */
  function Expand(ps: seq<Packet>): seq<byte>
  {
    if ps == [] then [] else PacketPixels(ps[0]) + Expand(ps[1..])
  }

  function PixelCount(ps: seq<Packet>): nat
  {
    if ps == [] then 0 else ps[0].n + PixelCount(ps[1..])
  }

  /** The first packet of an encoding decodes to its pixels and leaves the stream after them. */
  lemma RleFirstPacket(p: Packet, rest: seq<byte>, pixels: nat, bpb: nat)
    requires ValidPacket(p, bpb) && p.n <= pixels
    ensures Rle(EncodePacket(p) + rest, pixels, bpb) == PacketPixels(p) + Rle(rest, pixels - p.n, bpb)
  {
    match p
    case Run(n, px) => RleFirstRun(n, px, rest, pixels, bpb);
    case Raw(n, bytes) => RleFirstRaw(n, bytes, rest, pixels, bpb);
  }

  lemma RleFirstRun(n: nat, px: seq<byte>, rest: seq<byte>, pixels: nat, bpb: nat)
    requires 1 <= n <= 128 && |px| == bpb && n <= pixels
    ensures Rle(EncodePacket(Run(n, px)) + rest, pixels, bpb) == Repeat(px, n) + Rle(rest, pixels - n, bpb)
  {
    var block := (128 + n - 1) as byte;
    var t := px + rest;
    AppendAssoc([block], px, rest);
    assert t[..bpb] == px && t[bpb..] == rest;
    RleCons(EncodePacket(Run(n, px)) + rest, block, t, pixels, bpb, n, Repeat(px, n), rest);
  }

  lemma RleFirstRaw(n: nat, bytes: seq<byte>, rest: seq<byte>, pixels: nat, bpb: nat)
    requires 1 <= n <= 128 && |bytes| == n * bpb && n <= pixels
    ensures Rle(EncodePacket(Raw(n, bytes)) + rest, pixels, bpb) == bytes + Rle(rest, pixels - n, bpb)
  {
    var block := (n - 1) as byte;
    var t := bytes + rest;
    AppendAssoc([block], bytes, rest);
    assert bpb * n == n * bpb;
    assert t[..n * bpb] == bytes && t[n * bpb..] == rest;
    RleCons(EncodePacket(Raw(n, bytes)) + rest, block, t, pixels, bpb, n, bytes, rest);
  }

  /** One step of the bounded loop: the first packet, read whole, then the rest. */
  lemma RleCons(s: seq<byte>, block: byte, t: seq<byte>, pixels: nat, bpb: nat,
                count: nat, out: seq<byte>, after: seq<byte>)
    requires s == [block] + t && count == PacketCount(block) <= pixels
    requires Decoded(block, t, count, bpb) == out && Consumed(block, t, bpb) == after
    ensures Rle(s, pixels, bpb) == out + Rle(after, pixels - count, bpb)
  {
    assert s != [] && s[0] == block && s[1..] == t;
    assert Min(PacketCount(block), pixels) == count;
  }

  lemma ValidPacketsCons(ps: seq<Packet>, bpb: nat)
    requires ps != [] && ValidPackets(ps, bpb)
    ensures ValidPacket(ps[0], bpb) && ValidPackets(ps[1..], bpb)
  {
    assert forall i :: 0 <= i < |ps[1..]| ==> ps[1..][i] == ps[i + 1];
  }

  /** An encoding followed by a tail is its first packet followed by the rest and the tail. */
  lemma EncodePacketsCons(ps: seq<Packet>, tail: seq<byte>, bpb: nat)
    requires ps != [] && ValidPackets(ps, bpb)
    ensures ValidPackets(ps[1..], bpb)
    ensures EncodePackets(ps) + tail == EncodePacket(ps[0]) + (EncodePackets(ps[1..]) + tail)
  {
    ValidPacketsCons(ps, bpb);
    AppendAssoc(EncodePacket(ps[0]), EncodePackets(ps[1..]), tail);
  }

  /** The first packet of an encoding followed by anything decodes to its pixels, then the rest. */
  lemma RleEncodeStep(ps: seq<Packet>, tail: seq<byte>, bpb: nat)
    requires ps != [] && ValidPackets(ps, bpb)
    ensures ValidPackets(ps[1..], bpb)
    ensures Rle(EncodePackets(ps) + tail, PixelCount(ps), bpb) ==
            PacketPixels(ps[0]) + Rle(EncodePackets(ps[1..]) + tail, PixelCount(ps[1..]), bpb)
  {
    var rest := EncodePackets(ps[1..]) + tail;
    ValidPacketsCons(ps, bpb);
    EncodePacketsCons(ps, tail, bpb);
    assert PixelCount(ps) - ps[0].n == PixelCount(ps[1..]);
    RleFirstPacket(ps[0], rest, PixelCount(ps), bpb);
    assert Rle(EncodePacket(ps[0]) + rest, PixelCount(ps), bpb) == PacketPixels(ps[0]) + Rle(rest, PixelCount(ps[1..]), bpb);
  }

  /**
    * Decoding an encoder's packets gives back their pixels, whatever bytes follow them
    * in the file (an extension area or a footer, say).
    */
  lemma {:induction false} RleEncodePackets(ps: seq<Packet>, tail: seq<byte>, bpb: nat)
    requires ValidPackets(ps, bpb)
    ensures Rle(EncodePackets(ps) + tail, PixelCount(ps), bpb) == Expand(ps)
  {
    if ps != [] {
      RleEncodeStep(ps, tail, bpb);
      RleEncodePackets(ps[1..], tail, bpb);
    }
  }

  // ---------------------------------------------------------------------------
  // The loader
  // ---------------------------------------------------------------------------

  /** The fields of `IMAGE_DATA` the loader sets; `formats` is None when bpp leaves them untouched. */
  datatype Image = Image(formats: Option<(int, int)>, width: int, height: int, bpp: int,
                         pixels: seq<byte>, size: int, mipmaps: int, glType: int)

  datatype TargaError = NoStream | ShortHeader

  /** GL internal format and pixel format by bits per pixel (desktop GL without sRGB). */
  function Formats(bpp: int): (r: Option<(int, int)>)
    ensures r.Some? <==> bpp == 8 || bpp == 24 || bpp == 32
  {
    if bpp == 8 then Some((GL_R8, GL_RED))
    else if bpp == 24 then Some((GL_RGB8, GL_BGR))
    else if bpp == 32 then Some((GL_RGBA8, GL_BGRA))
    else None
  }

  /** The buffer size the loader allocates and reports: one spare byte per pixel. */
  function Capacity(h: Header): nat
  {
    h.width as int * h.height as int * (h.bpp as int / 8 + 1)
  }

  /** The buffer after `written` bytes were stored from its start: their first `capacity`, then zeros. */
  function Buffer(written: seq<byte>, capacity: nat): (b: seq<byte>)
    ensures |b| == capacity
    ensures |written| <= capacity ==> b[..|written|] == written
  {
    if |written| >= capacity then written[..capacity] else written + Zeros(capacity - |written|)
  }

  /** The image record for a header and the bytes its pixel data produced. */
  function ImageOf(h: Header, written: seq<byte>): (img: Image)
    ensures img.size == Capacity(h) && |img.pixels| == Capacity(h)
    ensures img.width == h.width as int && img.height == h.height as int && img.bpp == h.bpp as int
    ensures img.mipmaps == 0 && img.glType == GL_UNSIGNED_BYTE && img.formats == Formats(h.bpp as int)
  {
    Image(Formats(h.bpp as int), h.width as int, h.height as int, h.bpp as int,
          Buffer(written, Capacity(h)), Capacity(h), 0, GL_UNSIGNED_BYTE)
  }

  /**
    * The bytes the loader as written stores from the start of the pixel buffer: the
    * packets of `width·height` iterations for type 10, the whole rest of the file
    * (identification field and colour map included) for types 2 and 3, nothing otherwise.
    */
  function WrittenAsWritten(h: Header, body: seq<byte>): seq<byte>
  {
    if h.dataType as int == TARGA_DATA_RLE_TRUE_COLOR then
      RleAsWritten(body, h.width as int * h.height as int, h.bpp as int / 8)
    else if h.dataType as int == TARGA_DATA_TRUE_COLOR || h.dataType as int == TARGA_DATA_BLACK_AND_WHITE then body
    else []
  }

  /**
    * `load_targa` as written: the image record and how many bytes were stored past the
    * end of the buffer.
    */
  function LoadTargaAsWritten(file: Option<seq<byte>>): (r: Result<(Image, nat), TargaError>)
    ensures file.None? <==> r == Err(NoStream)
    ensures file.Some? && |file.value| < HEADER_SIZE <==> r == Err(ShortHeader)
  {
    match file
    case None => Err(NoStream)
    case Some(bytes) =>
      if |bytes| < HEADER_SIZE then Err(ShortHeader)
      else
        var h := DecodeHeader(bytes);
        var written := WrittenAsWritten(h, bytes[HEADER_SIZE..]);
        Ok((ImageOf(h, written), if |written| > Capacity(h) then |written| - Capacity(h) else 0))
  }

  /**
    * The bytes stored when the pixel data is bounded by the image: at most
    * `width·height` pixels of packets, and raw data cut at the buffer's end.
    */
  function Written(h: Header, body: seq<byte>): (w: seq<byte>)
    ensures |w| <= Capacity(h)
  {
    var pixels := h.width as int * h.height as int;
    var bpb := h.bpp as int / 8;
    if h.dataType as int == TARGA_DATA_RLE_TRUE_COLOR then
      var out := Rle(body, pixels, bpb);
      RleBound(body, pixels, bpb);
      MulLe(bpb, bpb + 1, pixels);
      assert pixels * bpb == bpb * pixels && pixels * (bpb + 1) == (bpb + 1) * pixels;
      out
    else if h.dataType as int == TARGA_DATA_TRUE_COLOR || h.dataType as int == TARGA_DATA_BLACK_AND_WHITE then
      body[..Min(|body|, Capacity(h))]
    else []
  }

  /** `load_targa` with the pixel data bounded by the buffer. */
  function LoadTarga(file: Option<seq<byte>>): (r: Result<Image, TargaError>)
    ensures file.None? <==> r == Err(NoStream)
    ensures file.Some? && |file.value| < HEADER_SIZE <==> r == Err(ShortHeader)
  {
    match file
    case None => Err(NoStream)
    case Some(bytes) =>
      if |bytes| < HEADER_SIZE then Err(ShortHeader)
      else
        var h := DecodeHeader(bytes);
        Ok(ImageOf(h, Written(h, bytes[HEADER_SIZE..])))
  }

  /** A run-length body is decoded by the bounded loop, one pixel per width·height. */
  lemma WrittenRle(h: Header, body: seq<byte>)
    requires h.dataType as int == TARGA_DATA_RLE_TRUE_COLOR
    ensures Written(h, body) == Rle(body, h.width as int * h.height as int, h.bpp as int / 8)
  {
  }

  /** A file that starts with a written header loads the bytes after it under that header. */
  lemma LoadWritten(h: Header, body: seq<byte>)
    ensures LoadTarga(Some(EncodeHeader(h) + body)) == Ok(ImageOf(h, Written(h, body)))
    ensures LoadTargaAsWritten(Some(EncodeHeader(h) + body)) ==
            Ok((ImageOf(h, WrittenAsWritten(h, body)),
                if |WrittenAsWritten(h, body)| > Capacity(h) then |WrittenAsWritten(h, body)| - Capacity(h) else 0))
  {
    DecodeEncodeHeader(h, body);
    assert (EncodeHeader(h) + body)[HEADER_SIZE..] == body;
  }

  /**
    * A run-length image written by an encoder loads as its pixels at the start of the
    * buffer; the record carries the header's dimensions and depth (`ImageOf`).
    */
  lemma LoadEncodedRle(h: Header, ps: seq<Packet>, tail: seq<byte>)
    requires h.dataType as int == TARGA_DATA_RLE_TRUE_COLOR
    requires ValidPackets(ps, h.bpp as int / 8) && PixelCount(ps) == h.width as int * h.height as int
    ensures LoadTarga(Some(EncodeHeader(h) + (EncodePackets(ps) + tail))) == Ok(ImageOf(h, Expand(ps)))
    ensures |Expand(ps)| <= Capacity(h) && ImageOf(h, Expand(ps)).pixels[..|Expand(ps)|] == Expand(ps)
  {
    var body := EncodePackets(ps) + tail;
    LoadWritten(h, body);
    RleEncodePackets(ps, tail, h.bpp as int / 8);
    WrittenRle(h, body);
  }

  /**
    * A raw image keeps the bytes after the header verbatim: an identification field
    * is not skipped, so it lands at the start of the pixels.
    */
  lemma RawKeepsIdentification(h: Header, body: seq<byte>)
    requires h.dataType as int == TARGA_DATA_TRUE_COLOR || h.dataType as int == TARGA_DATA_BLACK_AND_WHITE
    requires |body| <= Capacity(h)
    ensures LoadTarga(Some(EncodeHeader(h) + body)) == Ok(ImageOf(h, body))
    ensures LoadTargaAsWritten(Some(EncodeHeader(h) + body)) == Ok((ImageOf(h, body), 0))
    ensures ImageOf(h, body).pixels[..|body|] == body
  {
    LoadWritten(h, body);
    assert Written(h, body) == body[..|body|] == body;
  }

  /** A one-pixel 8-bit type-10 image whose single packet is a run of 128. */
  const OVERRUN_HEADER: Header := Header(0, 0, 10, 0, 0, 0, 0, 0, 1, 1, 8, 0)

  /**
    * For a one-pixel image with a two-byte buffer, the loop as written decodes the
    * 128-pixel run whole and stores 126 bytes past the buffer; the bounded loop stores
    * the one pixel.
    */
  lemma TargaRleAsWrittenOverruns()
    ensures Capacity(OVERRUN_HEADER) == 2
    ensures |RleAsWritten([0xFF, 7], 1, 1)| == 128
    ensures LoadTargaAsWritten(Some(EncodeHeader(OVERRUN_HEADER) + [0xFF, 7])).Ok?
    ensures LoadTargaAsWritten(Some(EncodeHeader(OVERRUN_HEADER) + [0xFF, 7])).value.1 == 126
    ensures Rle([0xFF, 7], 1, 1) == [7]
    ensures LoadTarga(Some(EncodeHeader(OVERRUN_HEADER) + [0xFF, 7])).Ok?
    ensures LoadTarga(Some(EncodeHeader(OVERRUN_HEADER) + [0xFF, 7])).value.pixels == [7, 0]
  {
    var body: seq<byte> := [0xFF, 7];
    LoadWritten(OVERRUN_HEADER, body);
    OneRunAsWritten();
    OneRunBounded();
    assert Buffer([7], 2) == [7, 0];
  }

  lemma OneRunAsWritten()
    ensures |RleAsWritten([0xFF, 7], 1, 1)| == 128
  {
    var body: seq<byte> := [0xFF, 7];
    assert body[1..] == [7];
    assert Skip([7], 1) == [];
    assert |Repeat([7], 128)| == 128;
  }

  lemma OneRunBounded()
    ensures Rle([0xFF, 7], 1, 1) == [7]
  {
    var body: seq<byte> := [0xFF, 7];
    assert body[1..] == [7];
    assert Take([7], 1) == [7];
    assert Repeat([7], 1) == [7] + Repeat([7], 0);
    assert Rle(body, 1, 1) == Repeat([7], 1) + Rle([], 0, 1);
  }

  /**
    * For the same header, a raw (type 2) body of three bytes is copied whole into the
    * two-byte buffer; the bounded copy stops at the buffer's end.
    */
  lemma TargaRawAsWrittenOverruns()
    ensures var h := OVERRUN_HEADER.(dataType := 2);
      Capacity(h) == 2 &&
      LoadTargaAsWritten(Some(EncodeHeader(h) + [1, 2, 3])).Ok? &&
      LoadTargaAsWritten(Some(EncodeHeader(h) + [1, 2, 3])).value.1 == 1 &&
      LoadTarga(Some(EncodeHeader(h) + [1, 2, 3])).Ok? &&
      LoadTarga(Some(EncodeHeader(h) + [1, 2, 3])).value.pixels == [1, 2]
  {
    var h := OVERRUN_HEADER.(dataType := 2);
    var body: seq<byte> := [1, 2, 3];
    DecodeEncodeHeader(h, body);
    assert (EncodeHeader(h) + body)[HEADER_SIZE..] == body;
  }
}
