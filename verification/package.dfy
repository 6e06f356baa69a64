/**
  * The on-disk package format (neon/include/core/package.h): a 16-byte header, a
  * table of 24-byte file records, then the payloads. All fields are 32-bit
  * little-endian with no padding.
  */
module Package {
  import opened Bytes

  /** The magic word: the characters 'A','G','K','P' shifted into one 32-bit value. */
  const PACKAGE_MAGIC: u32 := ('A' as int) * 0x100_0000 + ('G' as int) * 0x1_0000 + ('K' as int) * 0x100 + ('P' as int)
  const PACKAGE_VERSION: u32 := 0x0102

  const FLAG_SAVE_NAMES: bv32 := 0x0001
  const FLAG_COMPRESS_LZO: bv32 := 0x0002
  const FLAG_COMPRESS_LZ4: bv32 := 0x0004
  const FLAG_COMPRESS_LZ4_HC: bv32 := 0x0080
  const FLAG_HASH_PJW: bv32 := 0x0100
  const FLAG_HASH_XXHASH: bv32 := 0x0200

  const ALL_FLAGS: seq<bv32> := [FLAG_SAVE_NAMES, FLAG_COMPRESS_LZO, FLAG_COMPRESS_LZ4,
                                 FLAG_COMPRESS_LZ4_HC, FLAG_HASH_PJW, FLAG_HASH_XXHASH]

  const PACKED_FILENAME_SIZE: nat := 260
  const PACKED_FILEPATH_SIZE: nat := 260

  const HEADER_SIZE: nat := 16
  const FILE_RECORD_SIZE: nat := 24

  datatype Header = Header(magic: u32, version: u32, filenum: u32, flags: u32)

  datatype FileRecord = FileRecord(nameHash: u32, extHash: u32, dataSize: u32,
                                   dataPosition: u32, packedDataSize: u32, nameSize: u32)

  /** Whether a flag word has the bit `flag` set. */
  predicate HasFlag(flags: bv32, flag: bv32)
  {
    flags & flag != 0
  }

  /** The magic word is 0x41474B50 and each flag is its own single bit. */
  lemma FormatConstants()
    ensures PACKAGE_MAGIC == 0x41474B50
    ensures PACKAGE_MAGIC % 0x100 == 'P' as int && PACKAGE_MAGIC / 0x100 % 0x100 == 'K' as int
    ensures PACKAGE_MAGIC / 0x1_0000 % 0x100 == 'G' as int && PACKAGE_MAGIC / 0x100_0000 == 'A' as int
    ensures forall i :: 0 <= i < |ALL_FLAGS| ==> ALL_FLAGS[i] != 0 && ALL_FLAGS[i] & (ALL_FLAGS[i] - 1) == 0
    ensures forall i, j :: 0 <= i < j < |ALL_FLAGS| ==> ALL_FLAGS[i] & ALL_FLAGS[j] == 0
  {
  }

  /** Because the flags are distinct single bits, OR-ing one in never changes the test of another. */
  lemma FlagsTestIndependently(x: bv32, i: nat, j: nat)
    requires i < |ALL_FLAGS| && j < |ALL_FLAGS| && i != j
    ensures ((x | ALL_FLAGS[i]) & ALL_FLAGS[j] != 0) == (x & ALL_FLAGS[j] != 0)
    ensures (x | ALL_FLAGS[i]) & ALL_FLAGS[i] != 0
  {
  }

  function EncodeHeader(h: Header): (b: seq<byte>)
    ensures |b| == HEADER_SIZE
  {
    EncodeU32s([h.magic, h.version, h.filenum, h.flags])
  }

  function DecodeHeader(b: seq<byte>): (h: Header)
    requires |b| == HEADER_SIZE
  {
    var xs := DecodeU32s(b);
    Header(xs[0], xs[1], xs[2], xs[3])
  }

  function EncodeRecord(r: FileRecord): (b: seq<byte>)
    ensures |b| == FILE_RECORD_SIZE
  {
    EncodeU32s([r.nameHash, r.extHash, r.dataSize, r.dataPosition, r.packedDataSize, r.nameSize])
  }

  function DecodeRecord(b: seq<byte>): (r: FileRecord)
    requires |b| == FILE_RECORD_SIZE
  {
    var xs := DecodeU32s(b);
    FileRecord(xs[0], xs[1], xs[2], xs[3], xs[4], xs[5])
  }

  /** The header reads back as written, field for field. */
  lemma HeaderRoundTrip(h: Header)
    ensures DecodeHeader(EncodeHeader(h)) == h
  {
    DecodeEncodeU32s([h.magic, h.version, h.filenum, h.flags]);
  }

  /** Every 16 bytes are the encoding of exactly one header. */
  lemma HeaderBytesRoundTrip(b: seq<byte>)
    requires |b| == HEADER_SIZE
    ensures EncodeHeader(DecodeHeader(b)) == b
  {
    var xs := DecodeU32s(b);
    assert [xs[0], xs[1], xs[2], xs[3]] == xs;
    EncodeDecodeU32s(b);
  }

  /** A file record reads back as written, field for field. */
  lemma RecordRoundTrip(r: FileRecord)
    ensures DecodeRecord(EncodeRecord(r)) == r
  {
    DecodeEncodeU32s([r.nameHash, r.extHash, r.dataSize, r.dataPosition, r.packedDataSize, r.nameSize]);
  }

  /** Every 24 bytes are the encoding of exactly one file record. */
  lemma RecordBytesRoundTrip(b: seq<byte>)
    requires |b| == FILE_RECORD_SIZE
    ensures EncodeRecord(DecodeRecord(b)) == b
  {
    var xs := DecodeU32s(b);
    assert [xs[0], xs[1], xs[2], xs[3], xs[4], xs[5]] == xs;
    EncodeDecodeU32s(b);
  }

  /** The record table: the records' encodings back to back. */
  function EncodeTable(rs: seq<FileRecord>): (b: seq<byte>)
    ensures |b| == FILE_RECORD_SIZE * |rs|
    ensures forall i :: 0 <= i < |rs| ==>
      b[FILE_RECORD_SIZE * i .. FILE_RECORD_SIZE * i + FILE_RECORD_SIZE] == EncodeRecord(rs[i])
  {
    if rs == [] then [] else
      var rest := EncodeTable(rs[1..]);
      assert forall i :: 1 <= i < |rs| ==> rs[i] == rs[1..][i - 1];
      EncodeRecord(rs[0]) + rest
  }

  /** The `n` records of a table of `n · FILE_RECORD_SIZE` bytes. */
  function DecodeTable(b: seq<byte>, n: nat): (rs: seq<FileRecord>)
    requires |b| == FILE_RECORD_SIZE * n
    ensures |rs| == n
    ensures forall i :: 0 <= i < n ==>
      rs[i] == DecodeRecord(b[FILE_RECORD_SIZE * i .. FILE_RECORD_SIZE * i + FILE_RECORD_SIZE])
    decreases n
  {
    if n == 0 then [] else
      assert FILE_RECORD_SIZE * (n - 1) == FILE_RECORD_SIZE * n - FILE_RECORD_SIZE;
      var rest := DecodeTable(b[FILE_RECORD_SIZE..], n - 1);
      assert forall i :: 1 <= i < n ==>
        b[FILE_RECORD_SIZE..][FILE_RECORD_SIZE * (i - 1) .. FILE_RECORD_SIZE * (i - 1) + FILE_RECORD_SIZE]
          == b[FILE_RECORD_SIZE * i .. FILE_RECORD_SIZE * i + FILE_RECORD_SIZE];
      [DecodeRecord(b[..FILE_RECORD_SIZE])] + rest
  }

  /** The record table reads back as written, record for record. */
  lemma TableRoundTrip(rs: seq<FileRecord>)
    ensures DecodeTable(EncodeTable(rs), |rs|) == rs
  {
    var b := EncodeTable(rs);
    var ys := DecodeTable(b, |rs|);
    forall i | 0 <= i < |rs|
      ensures ys[i] == rs[i]
    {
      RecordRoundTrip(rs[i]);
    }
  }
}
