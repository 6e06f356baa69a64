/**
  * The WAVE loader (neon/src/core/wave.c): a 12-byte RIFF header, a 24-byte `fmt `
  * chunk (two more bytes skipped when its size exceeds 16), an 8-byte `data` header and
  * the samples. Each header is read as one whole object; a read that cannot fill it is
  * reported as an error here.
  */
module Wave {
  import opened Wrappers
  import opened Bytes

  const AL_FORMAT_MONO8: int := 0x1100
  const AL_FORMAT_MONO16: int := 0x1101
  const AL_FORMAT_STEREO8: int := 0x1102
  const AL_FORMAT_STEREO16: int := 0x1103

  /** The ASCII tags "RIFF", "WAVE", "fmt " and "data". */
  const RIFF: seq<byte> := [0x52, 0x49, 0x46, 0x46]
  const WAVE: seq<byte> := [0x57, 0x41, 0x56, 0x45]
  const FMT: seq<byte> := [0x66, 0x6D, 0x74, 0x20]
  const DATA: seq<byte> := [0x64, 0x61, 0x74, 0x61]

  const RIFF_SIZE: nat := 12
  const FORMAT_SIZE: nat := 24
  const DATA_HEADER_SIZE: nat := 8

  /** Two's-complement reading of a 16-bit pattern as a `short`. */
  function Int16(x: u16): (r: int)
    ensures -0x8000 <= r < 0x8000
    ensures U16(r) == x
  {
    if x < 0x8000 then x else x - U16_LIMIT
  }

  /** The `int` stored little-endian at b[at..at+4]. */
  function I32At(b: seq<byte>, at: nat): int
    requires at + 4 <= |b|
  {
    Int32(DecodeU32(b[at..at + 4]))
  }

  /** The `short` stored little-endian at b[at..at+2]. */
  function I16At(b: seq<byte>, at: nat): int
    requires at + 2 <= |b|
  {
    Int16(DecodeU16(b[at..at + 2]))
  }

  datatype WaveError = NoStream | ShortRead | BadRiff | BadFormat | BadData | ShortData

  /** What the loader hands back: the AL format (None when left untouched), frequency, size and samples. */
  datatype Sound = Sound(format: Option<int>, frequency: int, size: int, samples: seq<byte>)

  /** The RIFF check as written: rejected only when both the chunk id and the form type are wrong. */
  predicate RiffAcceptedAsWritten(chunkID: seq<byte>, form: seq<byte>)
  {
    !(chunkID != RIFF && form != WAVE)
  }

  /** The RIFF check as intended: both tags must be right. */
  predicate RiffAccepted(chunkID: seq<byte>, form: seq<byte>)
  {
    chunkID == RIFF && form == WAVE
  }

  /** AL format by channel count and sample width; other combinations leave it untouched. */
  function AlFormat(channels: int, bits: int): (f: Option<int>)
    ensures f.Some? <==> (channels == 1 || channels == 2) && (bits == 8 || bits == 16)
    ensures f.Some? ==> f.value == AL_FORMAT_MONO8 + (if channels == 2 then 2 else 0) + (if bits == 16 then 1 else 0)
  {
    if channels == 1 then
      if bits == 8 then Some(AL_FORMAT_MONO8) else if bits == 16 then Some(AL_FORMAT_MONO16) else None
    else if channels == 2 then
      if bits == 8 then Some(AL_FORMAT_STEREO8) else if bits == 16 then Some(AL_FORMAT_STEREO16) else None
    else None
  }

  /** Where the `data` header starts: after the `fmt ` chunk, two bytes further when its size exceeds 16 (clamped at the end). */
  function DataOffset(s: seq<byte>): (pos: nat)
    requires |s| >= RIFF_SIZE + FORMAT_SIZE
    ensures pos == 36 || pos == 38 || pos == |s|
    ensures pos <= |s|
  {
    if I32At(s, 16) > 16 then (if 38 <= |s| then 38 else |s|) else 36
  }

  /** Everything after a RIFF header that passed: the `fmt ` chunk, the `data` header and the samples. */
  function LoadAfterRiff(s: seq<byte>): (r: Result<Sound, WaveError>)
    requires |s| >= RIFF_SIZE
    ensures r.Ok? ==> r.value.size == |r.value.samples| > 0
    ensures r.Ok? ==> |s| >= 44 && s[12..16] == FMT && s[DataOffset(s)..DataOffset(s) + 4] == DATA
    ensures r.Ok? ==> DataOffset(s) + 8 + r.value.size <= |s|
    ensures r.Ok? ==> s[DataOffset(s) + 8..DataOffset(s) + 8 + r.value.size] == r.value.samples
  {
    if |s| < RIFF_SIZE + FORMAT_SIZE then Err(ShortRead)
    else if s[12..16] != FMT then Err(BadFormat)
    else
      var pos := DataOffset(s);
      if pos + DATA_HEADER_SIZE > |s| then Err(ShortRead)
      else if s[pos..pos + 4] != DATA then Err(BadData)
      else
        var size := I32At(s, pos + 4);
        if size <= 0 || pos + DATA_HEADER_SIZE + size > |s| then Err(ShortData)
        else
          var start := pos + DATA_HEADER_SIZE;
          Ok(Sound(AlFormat(I16At(s, 22), I16At(s, 34)), I32At(s, 24), size, s[start..start + size]))
  }

  /** `load_wave` as written, with the `&&` RIFF check. */
  function LoadWaveAsWritten(file: Option<seq<byte>>): (r: Result<Sound, WaveError>)
    ensures file.None? <==> r == Err(NoStream)
    ensures r.Ok? ==> file.Some? && |file.value| >= 44
    ensures r.Ok? ==> RiffAcceptedAsWritten(file.value[0..4], file.value[8..12])
  {
    match file
    case None => Err(NoStream)
    case Some(s) =>
      if |s| < RIFF_SIZE then Err(ShortRead)
      else if !RiffAcceptedAsWritten(s[0..4], s[8..12]) then Err(BadRiff)
      else LoadAfterRiff(s)
  }

  /** `load_wave` with both RIFF tags required. */
  function LoadWave(file: Option<seq<byte>>): (r: Result<Sound, WaveError>)
    ensures file.None? <==> r == Err(NoStream)
    ensures r.Ok? ==> file.Some? && |file.value| >= 44
    ensures r.Ok? ==> file.value[0..4] == RIFF && file.value[8..12] == WAVE
    ensures file.Some? && |file.value| >= RIFF_SIZE && RiffAccepted(file.value[0..4], file.value[8..12]) ==>
            r == LoadAfterRiff(file.value)
  {
    match file
    case None => Err(NoStream)
    case Some(s) =>
      if |s| < RIFF_SIZE then Err(ShortRead)
      else if !RiffAccepted(s[0..4], s[8..12]) then Err(BadRiff)
      else LoadAfterRiff(s)
  }

  /** The check as written accepts a header exactly when one of its two tags is right. */
  lemma RiffAsWrittenIff(chunkID: seq<byte>, form: seq<byte>)
    ensures RiffAcceptedAsWritten(chunkID, form) <==> chunkID == RIFF || form == WAVE
    ensures RiffAccepted(chunkID, form) ==> RiffAcceptedAsWritten(chunkID, form)
  {
  }

  /** The fields of a WAVE file a writer chooses. */
  datatype WaveFile = WaveFile(audioFormat: u16, channels: u16, sampleRate: u32, byteRate: u32,
                               blockAlign: u16, bits: u16, extra: Option<u16>, samples: seq<byte>)

  predicate ValidFile(w: WaveFile)
  {
    0 < |w.samples| < 0x8000_0000
  }

  function FormatChunk(w: WaveFile): (b: seq<byte>)
    ensures |b| == FORMAT_SIZE
  {
    FMT + EncodeU32(if w.extra.Some? then 18 else 16) + EncodeU16(w.audioFormat) + EncodeU16(w.channels) +
    EncodeU32(w.sampleRate) + EncodeU32(w.byteRate) + EncodeU16(w.blockAlign) + EncodeU16(w.bits)
  }

  function Extra(w: WaveFile): (b: seq<byte>)
    ensures |b| == if w.extra.Some? then 2 else 0
  {
    if w.extra.Some? then EncodeU16(w.extra.value) else []
  }

  /** The RIFF header with the chunk size a writer stores (it is not checked on reading). */
  function RiffHeader(w: WaveFile): (b: seq<byte>)
    requires ValidFile(w)
    ensures |b| == RIFF_SIZE
  {
    RIFF + EncodeU32(U32(4 + FORMAT_SIZE + |Extra(w)| + DATA_HEADER_SIZE + |w.samples|)) + WAVE
  }

  /** A canonical WAVE file. */
  function EncodeWave(w: WaveFile): (b: seq<byte>)
    requires ValidFile(w)
  {
    RiffHeader(w) + FormatChunk(w) + Extra(w) + DATA + EncodeU32(|w.samples|) + w.samples
  }

  /** The fields of the format chunk read back from a written file. */
  lemma FormatFields(w: WaveFile)
    requires ValidFile(w)
    ensures var s := EncodeWave(w);
      |s| >= 44 && s[0..4] == RIFF && s[8..12] == WAVE && s[12..16] == FMT &&
      I32At(s, 16) == (if w.extra.Some? then 18 else 16) &&
      I16At(s, 22) == Int16(w.channels) && I32At(s, 24) == Int32(w.sampleRate) && I16At(s, 34) == Int16(w.bits)
  {
    var s := EncodeWave(w);
    var f := FormatChunk(w);
    assert s == RiffHeader(w) + (f + (Extra(w) + DATA + EncodeU32(|w.samples|) + w.samples));
    assert s[0..4] == RIFF;
    assert s[8..12] == WAVE;
    assert s[12..16] == f[0..4] == FMT;
    assert s[16..20] == f[4..8] == EncodeU32(if w.extra.Some? then 18 else 16);
    assert s[22..24] == f[10..12] == EncodeU16(w.channels);
    assert s[24..28] == f[12..16] == EncodeU32(w.sampleRate);
    assert s[34..36] == f[22..24] == EncodeU16(w.bits);
    DecodeEncodeU32(if w.extra.Some? then 18 else 16);
    DecodeEncodeU16(w.channels);
    DecodeEncodeU32(w.sampleRate);
    DecodeEncodeU16(w.bits);
  }

  /** The data header and samples of a written file sit at the offset the loader computes. */
  lemma DataFields(w: WaveFile)
    requires ValidFile(w)
    ensures var s := EncodeWave(w);
      var pos := 36 + |Extra(w)|;
      pos + 8 + |w.samples| == |s| && s[pos..pos + 4] == DATA && I32At(s, pos + 4) == |w.samples| &&
      s[pos + 8..pos + 8 + |w.samples|] == w.samples
  {
    var s := EncodeWave(w);
    var pos := 36 + |Extra(w)|;
    var head := RiffHeader(w) + FormatChunk(w) + Extra(w);
    assert |head| == pos;
    assert s == head + (DATA + (EncodeU32(|w.samples|) + w.samples));
    assert s[pos..pos + 4] == DATA;
    assert s[pos + 4..pos + 8] == EncodeU32(|w.samples|);
    assert s[pos + 8..] == w.samples;
    DecodeEncodeU32(|w.samples|);
  }

  /**
    * A written file loads back: its samples, their count as the size, its sample
    * rate as the frequency and the AL format for its channels and width.
    */
  lemma LoadEncodeWave(w: WaveFile)
    requires ValidFile(w)
    ensures LoadWave(Some(EncodeWave(w))) ==
            Ok(Sound(AlFormat(Int16(w.channels), Int16(w.bits)), Int32(w.sampleRate), |w.samples|, w.samples))
    ensures LoadWaveAsWritten(Some(EncodeWave(w))) == LoadWave(Some(EncodeWave(w)))
  {
    FormatFields(w);
    DataFields(w);
    var s := EncodeWave(w);
    assert DataOffset(s) == 36 + |Extra(w)|;
  }

  /** Two byte strings that agree from index 12 on agree on every slice there. */
  lemma SameSlice(a: seq<byte>, s: seq<byte>, i: nat, j: nat)
    requires |a| == |s| && 12 <= i <= j <= |s|
    requires forall k :: 12 <= k < |s| ==> a[k] == s[k]
    ensures a[i..j] == s[i..j]
  {
    assert forall k :: 0 <= k < j - i ==> a[i..j][k] == a[i + k] && s[i..j][k] == s[i + k];
  }

  /** A file with the right chunk id and the form type "AVI " instead of "WAVE". */
  function AviFile(w: WaveFile): seq<byte>
    requires ValidFile(w)
  {
    EncodeWave(w)[..8] + [0x41, 0x56, 0x49, 0x20] + EncodeWave(w)[12..]
  }

  /**
    * The loader as written takes a RIFF file whose form type is not WAVE for a sound;
    * with both tags required it is rejected.
    */
  lemma WaveAsWrittenAcceptsNonWave(w: WaveFile)
    requires ValidFile(w)
    ensures LoadWaveAsWritten(Some(AviFile(w))).Ok?
    ensures LoadWave(Some(AviFile(w))) == Err(BadRiff)
  {
    var s := EncodeWave(w);
    var a := AviFile(w);
    FormatFields(w);
    DataFields(w);
    assert a[0..4] == RIFF;
    assert a[8..12] != WAVE by { assert a[8] == 0x41; }
    assert |a| == |s|;
    assert forall k :: 12 <= k < |s| ==> a[k] == s[k];
    var pos := 36 + |Extra(w)|;
    var n := |w.samples|;
    SameSlice(a, s, 12, 16);
    SameSlice(a, s, 16, 20);
    SameSlice(a, s, pos, pos + 4);
    SameSlice(a, s, pos + 4, pos + 8);
    SameSlice(a, s, pos + 8, pos + 8 + n);
    assert I32At(a, 16) == I32At(s, 16);
    assert DataOffset(a) == pos;
  }
}
