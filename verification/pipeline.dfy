/**
  * The two halves of the asset pipeline together: a package written by the packer
  * tool (packer/src/main.c) and opened by the engine's asset index
  * (neon/src/core/asset.c) serves each file's original contents back on request.
  */
module Pipeline {
  import opened Wrappers
  import opened Bytes
  import opened Package
  import opened Packer
  import opened Asset

  /** No two listed files share a name hash. */
  predicate DistinctHashes(files: seq<FileInfo>)
  {
    forall j, k :: 0 <= j < k < |files| ==> files[j].nameHash != files[k].nameHash
  }

  /** The packed resources `package_open` registers for a written package, in table order. */
  function Registered(files: seq<FileInfo>, contents: seq<Option<seq<byte>>>, flags: bv32, codecs: Codecs): (rs: seq<Resource>)
    requires |files| == |contents|
    ensures |rs| == |files|
    ensures forall k :: 0 <= k < |files| ==> rs[k] == PackedResource(FinalRecord(files, contents, flags, codecs, k), 0)
  {
    PackedResources(Records(flags, files, contents, codecs, HEADER_SIZE + FILE_RECORD_SIZE * |files|), 0)
  }

  /** The header and table `package_open` reads back from a written package are the ones written. */
  lemma WrittenHeaderAndTable(files: seq<FileInfo>, contents: seq<Option<seq<byte>>>, flags: bv32, codecs: Codecs)
    requires |files| == |contents| && |files| < U32_LIMIT
    ensures var archive := PackageWrite(files, contents, flags, codecs).0;
      DecodeHeader(ReadPadded(archive, 0, HEADER_SIZE)) == Header(PACKAGE_MAGIC, PACKAGE_VERSION, |files|, flags as int)
    ensures var archive := PackageWrite(files, contents, flags, codecs).0;
      var n := |files|;
      DecodeTable(ReadPadded(archive, HEADER_SIZE, FILE_RECORD_SIZE * n), n)
        == Records(flags, files, contents, codecs, HEADER_SIZE + FILE_RECORD_SIZE * n)
  {
    var archive := PackageWrite(files, contents, flags, codecs).0;
    var n := |files|;
    PackageWriteHeaderAndTable(files, contents, flags, codecs);
    assert ReadPadded(archive, 0, HEADER_SIZE) == archive[..HEADER_SIZE];
    assert ReadPadded(archive, HEADER_SIZE, FILE_RECORD_SIZE * n) == archive[HEADER_SIZE .. HEADER_SIZE + FILE_RECORD_SIZE * n];
  }

  /** `package_open` on bytes that decode to a current header and `records` registers them into an empty index. */
  lemma OpenDecodedPackage(archive: seq<byte>, path: string, flags: bv32, records: seq<FileRecord>)
    requires |records| < U32_LIMIT
    requires DecodeHeader(ReadPadded(archive, 0, HEADER_SIZE)) == Header(PACKAGE_MAGIC, PACKAGE_VERSION, |records|, flags as int)
    requires DecodeTable(ReadPadded(archive, HEADER_SIZE, FILE_RECORD_SIZE * |records|), |records|) == records
    ensures var r := PackageOpen(Intended, EMPTY, path, Some(archive));
      r.Ok? && r.value.0 == 0 && Valid(r.value.1) &&
      r.value.1.packages == [PackageEntry(path, flags, PACKAGE_VERSION)] &&
      r.value.1.files == PackedResources(records, 0)
  {
    assert (flags as int) as bv32 == flags;
    PackageOpenAccepted(EMPTY, path, archive);
    assert EMPTY.files == [] && EMPTY.packages == [];
    assert [] + PackedResources(records, 0) == PackedResources(records, 0);
  }

  /** `package_open` on a written package registers one package and one packed resource per file, in table order. */
  lemma WrittenPackageLoads(files: seq<FileInfo>, contents: seq<Option<seq<byte>>>, flags: bv32, codecs: Codecs, path: string)
    requires |files| == |contents| && |files| < U32_LIMIT
    ensures var r := PackageOpen(Intended, EMPTY, path, Some(PackageWrite(files, contents, flags, codecs).0));
      r.Ok? && r.value.0 == 0 && Valid(r.value.1) &&
      r.value.1.packages == [PackageEntry(path, flags, PACKAGE_VERSION)] &&
      r.value.1.files == Registered(files, contents, flags, codecs)
  {
    WrittenHeaderAndTable(files, contents, flags, codecs);
    var records := Records(flags, files, contents, codecs, HEADER_SIZE + FILE_RECORD_SIZE * |files|);
    OpenDecodedPackage(PackageWrite(files, contents, flags, codecs).0, path, flags, records);
  }

  /** Opening a written package into an empty index registers one resource per file, sorted by hash. */
  lemma OpenWrittenPackage(files: seq<FileInfo>, contents: seq<Option<seq<byte>>>, flags: bv32, codecs: Codecs,
                           path: string, hash: string -> u32)
    requires |files| == |contents| && |files| < U32_LIMIT
    ensures var archive := PackageWrite(files, contents, flags, codecs).0;
      var r := AssetOpen(Intended, EMPTY, Some(path), PackageFile(Some(archive)), hash);
      r.Ok? && r.value.0 == 0 && Valid(r.value.1) &&
      r.value.1.packages == [PackageEntry(path, flags, PACKAGE_VERSION)] &&
      r.value.1.files == SortByHash(Registered(files, contents, flags, codecs))
  {
    var archive := PackageWrite(files, contents, flags, codecs).0;
    WrittenPackageLoads(files, contents, flags, codecs, path);
    var loaded := PackageOpen(Intended, EMPTY, path, Some(archive)).value.1;
    assert OpenTarget(Intended, EMPTY, path, PackageFile(Some(archive)), hash) == Ok((0, loaded));
    SortKeepsValid(loaded);
  }

  /** On a table sorted from `registered` with distinct hashes, the search for file i's hash lands on file i's resource. */
  lemma LookupFindsRegistered(files: seq<FileInfo>, contents: seq<Option<seq<byte>>>, flags: bv32, codecs: Codecs, i: nat)
    requires |files| == |contents| && i < |files| && DistinctHashes(files)
    requires |PackageWrite(files, contents, flags, codecs).0| < U32_LIMIT
    ensures var registered := Registered(files, contents, flags, codecs);
      var sorted := SortByHash(registered);
      Lookup(sorted, files[i].nameHash).Some? && sorted[Lookup(sorted, files[i].nameHash).value] == registered[i]
  {
    var registered := Registered(files, contents, flags, codecs);
    RegisteredHashes(files, contents, flags, codecs);
    FindsDistinct(registered, i);
  }

  /** Each registered resource carries the name hash of its file. */
  lemma RegisteredHashes(files: seq<FileInfo>, contents: seq<Option<seq<byte>>>, flags: bv32, codecs: Codecs)
    requires |files| == |contents|
    ensures forall k :: 0 <= k < |files| ==> Registered(files, contents, flags, codecs)[k].nameHash == files[k].nameHash
  {
  }

  /** In resources with distinct name hashes, sorting and then searching by hash finds each one. */
  lemma FindsDistinct(registered: seq<Resource>, i: nat)
    requires i < |registered|
    requires forall j, k :: 0 <= j < k < |registered| ==> registered[j].nameHash != registered[k].nameHash
    ensures var sorted := SortByHash(registered);
      Lookup(sorted, registered[i].nameHash).Some? && sorted[Lookup(sorted, registered[i].nameHash).value] == registered[i]
  {
    var sorted := SortByHash(registered);
    var h := registered[i].nameHash;
    assert registered[i] in multiset(sorted);
    var j :| 0 <= j < |sorted| && sorted[j] == registered[i];
    LookupFindsIffPresent(sorted, h);
    var found := Lookup(sorted, h).value;
    assert sorted[found] in multiset(registered);
    var k :| 0 <= k < |registered| && registered[k] == sorted[found];
    assert registered[k].nameHash == h;
    assert k == i;
  }

  /** Reading a record's packed size at its position returns the bytes the record locates. */
  lemma ReadLocated(archive: seq<byte>, rec: FileRecord, data: seq<byte>, stored: seq<byte>)
    requires Locates(archive, rec, data, true, stored)
    ensures ReadPadded(archive, rec.dataPosition, rec.packedDataSize) == stored
  {
  }

  /**
    * End to end: with LZ4 chosen and no LZO, a decompressor that inverts the
    * compressor, distinct name hashes and sizes below 4 GiB, requesting file i's hash
    * from a freshly opened package yields a memory stream over exactly its contents.
    */
  lemma RequestReturnsPackedContents(files: seq<FileInfo>, contents: seq<Option<seq<byte>>>, flags: bv32, codecs: Codecs,
                                     decompress: (seq<byte>, nat) -> seq<byte>, path: string, hash: string -> u32,
                                     packageFile: nat -> Option<seq<byte>>, i: nat)
    requires |files| == |contents| && i < |files| && DistinctHashes(files)
    requires HasFlag(flags, FLAG_COMPRESS_LZ4) && !HasFlag(flags, FLAG_COMPRESS_LZO)
    requires forall d :: decompress(codecs.lz4(d), |d|) == d
    requires |PackageWrite(files, contents, flags, codecs).0| < U32_LIMIT
    requires contents[i].Some? && 0 < |contents[i].value| < U32_LIMIT
    requires packageFile(0) == Some(PackageWrite(files, contents, flags, codecs).0)
    ensures var openedIndex := AssetOpen(Intended, EMPTY, Some(path), PackageFile(Some(PackageWrite(files, contents, flags, codecs).0)), hash);
      openedIndex.Ok? && Valid(openedIndex.value.1) &&
      var request := AssetRequestHash(Intended, openedIndex.value.1, files[i].nameHash, packageFile, decompress);
      request.Ok? && request.value.0 == MemStream(contents[i].value, |contents[i].value|)
  {
    var archive := PackageWrite(files, contents, flags, codecs).0;
    OpenWrittenPackage(files, contents, flags, codecs, path, hash);
    LookupFindsRegistered(files, contents, flags, codecs, i);
    PackageWriteRecord(files, contents, flags, codecs, i);
    var data := contents[i].value;
    var rec := FinalRecord(files, contents, flags, codecs, i);
    var stored := Stored(flags, contents[i], codecs);
    assert Compressed(flags);
    assert stored == codecs.lz4(data);
    assert Locates(archive, rec, data, true, stored);
    assert rec.packedDataSize == |stored| && rec.dataPosition + |stored| <= |archive|;
    var payload := ReadPadded(archive, rec.dataPosition, rec.packedDataSize);
    ReadLocated(archive, rec, data, stored);
    assert rec.dataSize == |data|;
    var index := AssetOpen(Intended, EMPTY, Some(path), PackageFile(Some(archive)), hash).value.1;
    var res := PackedResource(rec, 0);
    var j := Lookup(index.files, files[i].nameHash).value;
    assert index.files[j] == res;
    assert index.packages[0] == PackageEntry(path, flags, PACKAGE_VERSION);
    var buffer := GetData(res, index.packages[0], packageFile(0), decompress);
    assert buffer == Some(decompress(payload, rec.dataSize));
    assert buffer == Some(data);
    assert res.packed && res.buffer.None? && res.package == 0;
    assert Fetch(Intended, res, index.packages[res.package], packageFile(res.package), decompress) == buffer;
    assert AssetRequestHash(Intended, index, files[i].nameHash, packageFile, decompress).value.0 == FromMem(buffer, rec.dataSize);
  }

  /** Reading a record's data size at its position returns the raw bytes an uncompressed record locates. */
  lemma ReadLocatedRaw(archive: seq<byte>, rec: FileRecord, data: seq<byte>)
    requires Locates(archive, rec, data, false, data) && |data| < U32_LIMIT
    ensures ReadPadded(archive, rec.dataPosition, rec.dataSize) == data
  {
  }

  /**
    * End to end without compression: requesting file i's hash from a freshly opened
    * uncompressed package yields a memory stream over exactly its contents. With
    * `get_data` as written the same request materialises nothing (see GetDataAsWritten).
    */
  lemma RequestReturnsStoredContents(files: seq<FileInfo>, contents: seq<Option<seq<byte>>>, flags: bv32, codecs: Codecs,
                                     decompress: (seq<byte>, nat) -> seq<byte>, path: string, hash: string -> u32,
                                     packageFile: nat -> Option<seq<byte>>, i: nat)
    requires |files| == |contents| && i < |files| && DistinctHashes(files)
    requires !Compressed(flags)
    requires |PackageWrite(files, contents, flags, codecs).0| < U32_LIMIT
    requires contents[i].Some? && 0 < |contents[i].value| < U32_LIMIT
    requires packageFile(0) == Some(PackageWrite(files, contents, flags, codecs).0)
    ensures var openedIndex := AssetOpen(Intended, EMPTY, Some(path), PackageFile(Some(PackageWrite(files, contents, flags, codecs).0)), hash);
      openedIndex.Ok? && Valid(openedIndex.value.1) &&
      var request := AssetRequestHash(Intended, openedIndex.value.1, files[i].nameHash, packageFile, decompress);
      request.Ok? && request.value.0 == MemStream(contents[i].value, |contents[i].value|)
  {
    var archive := PackageWrite(files, contents, flags, codecs).0;
    OpenWrittenPackage(files, contents, flags, codecs, path, hash);
    LookupFindsRegistered(files, contents, flags, codecs, i);
    PackageWriteRecord(files, contents, flags, codecs, i);
    var data := contents[i].value;
    var rec := FinalRecord(files, contents, flags, codecs, i);
    assert Stored(flags, contents[i], codecs) == data;
    assert Locates(archive, rec, data, false, data);
    ReadLocatedRaw(archive, rec, data);
    assert rec.dataSize == |data|;
    var index := AssetOpen(Intended, EMPTY, Some(path), PackageFile(Some(archive)), hash).value.1;
    var res := PackedResource(rec, 0);
    var j := Lookup(index.files, files[i].nameHash).value;
    assert index.files[j] == res;
    assert index.packages[0] == PackageEntry(path, flags, PACKAGE_VERSION);
    var buffer := GetData(res, index.packages[0], packageFile(0), decompress);
    assert buffer == Some(data);
    assert AssetRequestHash(Intended, index, files[i].nameHash, packageFile, decompress).value.0 == FromMem(buffer, rec.dataSize);
  }
}
