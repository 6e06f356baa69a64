/**
  * The offline packer (packer/src/main.c): command-line flag parsing, the recursive
  * directory scan, and the writer that lays out header, record table and payloads.
  * Directory listing and file reads are inputs; the compressors are parameters.
  */
module Packer {
  import opened Wrappers
  import opened Bytes
  import opened Text
  import opened Package
  import opened FileSystem
  import opened Seqs

  // ---------------------------------------------------------------- flags

  /** The flag bit one command-line word selects, 0 for any other word. */
  function OptionFlag(arg: string): bv32
  {
    if arg == "-n" then FLAG_SAVE_NAMES
    else if arg == "-plzo" then FLAG_COMPRESS_LZO
    else if arg == "-plz4" then FLAG_COMPRESS_LZ4
    else if arg == "-plz4hc" then FLAG_COMPRESS_LZ4_HC
    else 0
  }

  const OPTIONS: seq<string> := ["-n", "-plzo", "-plz4", "-plz4hc"]
  const OPTION_FLAGS: seq<bv32> := [FLAG_SAVE_NAMES, FLAG_COMPRESS_LZO, FLAG_COMPRESS_LZ4, FLAG_COMPRESS_LZ4_HC]

  /** The flags the loop over every word of `argv` (the program name included) ORs together. */
  function ParseFlags(args: seq<string>): (flags: bv32)
    ensures flags & !(FLAG_SAVE_NAMES | FLAG_COMPRESS_LZO | FLAG_COMPRESS_LZ4 | FLAG_COMPRESS_LZ4_HC) == 0
  {
    if args == [] then 0 else ParseFlags(args[..|args| - 1]) | OptionFlag(args[|args| - 1])
  }

  /** Each option's bit is set exactly when that option appears somewhere on the command line. */
  lemma {:induction false} ParseFlagsSetsBitIffOptionGiven(args: seq<string>, k: nat)
    requires k < |OPTIONS|
    ensures ParseFlags(args) & OPTION_FLAGS[k] != 0 <==> OPTIONS[k] in args
  {
    if args != [] {
      var init := args[..|args| - 1];
      ParseFlagsSetsBitIffOptionGiven(init, k);
      assert args == init + [args[|args| - 1]];
      assert OPTIONS[k] in args <==> OPTIONS[k] in init || OPTIONS[k] == args[|args| - 1];
    }
  }

  /** Without any of the four options on the command line no flag is set. */
  lemma NoOptionNoFlags(argv: seq<string>)
    ensures (forall k :: 0 <= k < |OPTIONS| ==> OPTIONS[k] !in argv) ==> ParseFlags(argv) == 0
  {
    var f := ParseFlags(argv);
    forall k | 0 <= k < |OPTIONS| ensures f & OPTION_FLAGS[k] != 0 <==> OPTIONS[k] in argv {
      ParseFlagsSetsBitIffOptionGiven(argv, k);
    }
    if forall k :: 0 <= k < |OPTIONS| ==> OPTIONS[k] !in argv {
      assert f & OPTION_FLAGS[0] == 0 && f & OPTION_FLAGS[1] == 0;
      assert f & OPTION_FLAGS[2] == 0 && f & OPTION_FLAGS[3] == 0;
    }
  }

  /**
    * The flag word `main` hands to the writer: nothing when fewer than two words are
    * given (the usage message), LZ4 compression when no option is given.
    */
  function ChooseFlags(argv: seq<string>): (r: Option<bv32>)
    ensures |argv| < 2 <==> r.None?
    ensures r.Some? && (forall k :: 0 <= k < |OPTIONS| ==> OPTIONS[k] !in argv) ==> r.value == FLAG_COMPRESS_LZ4
    ensures r.Some? ==> forall k :: 0 <= k < |OPTIONS| && OPTIONS[k] in argv ==> r.value & OPTION_FLAGS[k] != 0
    ensures r.Some? && ParseFlags(argv) != 0 ==> r.value == ParseFlags(argv)
  {
    if |argv| < 2 then None
    else
      var f := ParseFlags(argv);
      forall k | 0 <= k < |OPTIONS| ensures f & OPTION_FLAGS[k] != 0 <==> OPTIONS[k] in argv {
        ParseFlagsSetsBitIffOptionGiven(argv, k);
      }
      NoOptionNoFlags(argv);
      if f == 0 then Some(FLAG_COMPRESS_LZ4) else Some(f)
  }

  // ---------------------------------------------------------------- scan

  datatype FileInfo = FileInfo(name: string, path: string, nameHash: u32, extHash: u32)

  /**
    * `on_list_file` over a listing: names starting with '.' are skipped (hidden
    * directories too), directories are descended into, every other file is recorded
    * with the hash of its name and of its extension.
    */
  function Scan(entries: seq<Entry>, hash: string -> u32): (files: seq<FileInfo>)
    ensures forall i :: 0 <= i < |files| ==> !Hidden(files[i].name)
    ensures forall i :: 0 <= i < |files| ==>
      files[i].nameHash == hash(files[i].name) && files[i].extHash == hash(Extension(files[i].name))
    decreases entries
  {
    if entries == [] then []
    else
      var e := entries[0];
      var here :=
        if Hidden(e.name) then []
        else match e
          case File(name, path) => [FileInfo(name, path, hash(name), hash(Extension(name)))]
          case Dir(_, _, children) => Scan(children, hash);
      var rest := Scan(entries[1..], hash);
      RecordedAppend(here, rest, hash);
      here + rest
  }

  /** Files recorded with their own hashes and no hidden name. */
  predicate Recorded(files: seq<FileInfo>, hash: string -> u32)
  {
    forall i :: 0 <= i < |files| ==>
      !Hidden(files[i].name) && files[i].nameHash == hash(files[i].name) &&
      files[i].extHash == hash(Extension(files[i].name))
  }

  lemma RecordedAppend(a: seq<FileInfo>, b: seq<FileInfo>, hash: string -> u32)
    requires Recorded(a, hash) && Recorded(b, hash)
    ensures Recorded(a + b, hash)
  {
    forall i | |a| <= i < |a + b| ensures (a + b)[i] == b[i - |a|] { }
  }

  /** The record `on_list_file` writes for one listed file. */
  function InfoOf(e: Entry, hash: string -> u32): FileInfo
  {
    FileInfo(e.name, e.path, hash(e.name), hash(Extension(e.name)))
  }

  /** The records for a sequence of listed files, in order. */
  function InfosOf(fs: seq<Entry>, hash: string -> u32): (infos: seq<FileInfo>)
    ensures |infos| == |fs|
    ensures forall i :: 0 <= i < |fs| ==> infos[i] == InfoOf(fs[i], hash)
  {
    seq(|fs|, i requires 0 <= i < |fs| => InfoOf(fs[i], hash))
  }

  lemma InfosAppend(f1: seq<Entry>, f2: seq<Entry>, hash: string -> u32)
    ensures InfosOf(f1 + f2, hash) == InfosOf(f1, hash) + InfosOf(f2, hash)
  {
  }

  /**
    * The scan records exactly the files a recursive walk reaches, in walk order:
    * every visible file under a visible directory, and nothing else.
    */
  lemma {:induction false} ScanRecordsVisibleFiles(entries: seq<Entry>, hash: string -> u32)
    ensures Scan(entries, hash) == InfosOf(VisibleFiles(entries), hash)
    decreases entries
  {
    if entries != [] {
      var e := entries[0];
      var rest := entries[1..];
      var here := if Hidden(e.name) then [] else if e.File? then [e] else VisibleFiles(e.children);
      var scanned := if Hidden(e.name) then [] else if e.File? then [InfoOf(e, hash)] else Scan(e.children, hash);
      assert Scan(entries, hash) == scanned + Scan(rest, hash);
      assert VisibleFiles(entries) == here + VisibleFiles(rest);
      if !Hidden(e.name) && e.Dir? {
        ScanRecordsVisibleFiles(e.children, hash);
      }
      assert scanned == InfosOf(here, hash);
      ScanRecordsVisibleFiles(rest, hash);
      InfosAppend(here, VisibleFiles(rest), hash);
    }
  }

  /** The counting pass: how many files the first `search_all_files` call reports. */
  function CountFiles(entries: seq<Entry>): nat
    decreases entries
  {
    if entries == [] then 0
    else
      var e := entries[0];
      (if Hidden(e.name) then 0
       else match e
         case File(_, _) => 1
         case Dir(_, _, children) => CountFiles(children)) + CountFiles(entries[1..])
  }

  /** The table the first pass sizes holds exactly the files the second pass records. */
  lemma {:induction false} CountMatchesScan(entries: seq<Entry>, hash: string -> u32)
    ensures CountFiles(entries) == |Scan(entries, hash)|
    decreases entries
  {
    if entries != [] {
      var e := entries[0];
      if !Hidden(e.name) && e.Dir? {
        CountMatchesScan(e.children, hash);
      }
      CountMatchesScan(entries[1..], hash);
    }
  }

  // ---------------------------------------------------------------- writer

  /** The three compressors the writer can call (LZO1X-1, LZ4 and LZ4-HC). */
  datatype Codecs = Codecs(lzo: seq<byte> -> seq<byte>, lz4: seq<byte> -> seq<byte>, lz4hc: seq<byte> -> seq<byte>)

  /** Whether the flag word asks for any compression. */
  predicate Compressed(flags: bv32)
  {
    HasFlag(flags, FLAG_COMPRESS_LZO) || HasFlag(flags, FLAG_COMPRESS_LZ4) || HasFlag(flags, FLAG_COMPRESS_LZ4_HC)
  }

  /** The compressor the writer picks: LZO over LZ4 over LZ4-HC, in that order of precedence. */
  function Compress(flags: bv32, data: seq<byte>, codecs: Codecs): seq<byte>
    requires Compressed(flags)
  {
    if HasFlag(flags, FLAG_COMPRESS_LZO) then codecs.lzo(data)
    else if HasFlag(flags, FLAG_COMPRESS_LZ4) then codecs.lz4(data)
    else codecs.lz4hc(data)
  }

  /** The bytes written for one file: nothing when it could not be read. */
  function Stored(flags: bv32, content: Option<seq<byte>>, codecs: Codecs): seq<byte>
  {
    match content
    case None => []
    case Some(data) => if Compressed(flags) then Compress(flags, data, codecs) else data
  }

  /** The record of one file whose payload starts at file offset `position`. */
  function Record(flags: bv32, f: FileInfo, content: Option<seq<byte>>, codecs: Codecs, position: int): FileRecord
  {
    match content
    case None => FileRecord(f.nameHash, f.extHash, 0, 0, 0, 0)
    case Some(data) =>
      FileRecord(f.nameHash, f.extHash, U32(|data|), U32(position),
                 if Compressed(flags) then U32(|Compress(flags, data, codecs)|) else 0, 0)
  }

  /** The payloads of all files back to back, in table order. */
  function Payloads(flags: bv32, contents: seq<Option<seq<byte>>>, codecs: Codecs): seq<byte>
  {
    if contents == [] then [] else Stored(flags, contents[0], codecs) + Payloads(flags, contents[1..], codecs)
  }

  /** The final records; `offset` is the file position where the first payload is written. */
  function Records(flags: bv32, files: seq<FileInfo>, contents: seq<Option<seq<byte>>>, codecs: Codecs, offset: int): (rs: seq<FileRecord>)
    requires |files| == |contents|
    ensures |rs| == |files|
  {
    if files == [] then []
    else [Record(flags, files[0], contents[0], codecs, offset)]
         + Records(flags, files[1..], contents[1..], codecs, offset + |Stored(flags, contents[0], codecs)|)
  }

  /** The placeholder records written first: the hashes with every size and position zero. */
  function Placeholders(files: seq<FileInfo>): (rs: seq<FileRecord>)
    ensures |rs| == |files|
    ensures forall i :: 0 <= i < |files| ==> rs[i] == FileRecord(files[i].nameHash, files[i].extHash, 0, 0, 0, 0)
  {
    seq(|files|, i requires 0 <= i < |files| => FileRecord(files[i].nameHash, files[i].extHash, 0, 0, 0, 0))
  }

  /** `fseek` + `fwrite` inside an existing file: replaces the bytes at `offset`. */
  function Overwrite(file: seq<byte>, offset: nat, bytes: seq<byte>): (r: seq<byte>)
    requires offset + |bytes| <= |file|
    ensures |r| == |file|
    ensures r[..offset] == file[..offset] && r[offset .. offset + |bytes|] == bytes
    ensures r[offset + |bytes|..] == file[offset + |bytes|..]
  {
    file[..offset] + bytes + file[offset + |bytes|..]
  }

  function PackageHeader(files: seq<FileInfo>, flags: bv32): Header
  {
    Header(PACKAGE_MAGIC, PACKAGE_VERSION, U32(|files|), flags as int)
  }

  /**
    * `package_write`: header, placeholder table and payloads are written in order, then
    * the final table is written over the placeholders. Returns the file and its size.
    */
  function PackageWrite(files: seq<FileInfo>, contents: seq<Option<seq<byte>>>, flags: bv32, codecs: Codecs): (r: (seq<byte>, int))
    requires |files| == |contents|
    ensures r.1 == |r.0|
    ensures r.0 == EncodeHeader(PackageHeader(files, flags))
                   + EncodeTable(Records(flags, files, contents, codecs, HEADER_SIZE + FILE_RECORD_SIZE * |files|))
                   + Payloads(flags, contents, codecs)
  {
    var header := EncodeHeader(PackageHeader(files, flags));
    var start := HEADER_SIZE + FILE_RECORD_SIZE * |files|;
    var initial := header + EncodeTable(Placeholders(files)) + Payloads(flags, contents, codecs);
    var table := EncodeTable(Records(flags, files, contents, codecs, start));
    var final := Overwrite(initial, HEADER_SIZE, table);
    assert final[..HEADER_SIZE] == header;
    assert final[HEADER_SIZE + |table|..] == Payloads(flags, contents, codecs);
    assert final == final[..HEADER_SIZE] + final[HEADER_SIZE .. HEADER_SIZE + |table|] + final[HEADER_SIZE + |table|..];
    (final, |final|)
  }

  /** Where file i's payload starts among the payloads. */
  function PayloadOffset(flags: bv32, contents: seq<Option<seq<byte>>>, codecs: Codecs, i: nat): nat
    requires i <= |contents|
  {
    |Payloads(flags, contents[..i], codecs)|
  }

  lemma PayloadsSplit(flags: bv32, contents: seq<Option<seq<byte>>>, codecs: Codecs, i: nat)
    requires 0 < i <= |contents|
    ensures PayloadOffset(flags, contents, codecs, i)
            == |Stored(flags, contents[0], codecs)| + PayloadOffset(flags, contents[1..], codecs, i - 1)
  {
    assert contents[..i][1..] == contents[1..][..i - 1];
  }

  /** Record i is built with the position where payload i starts. */
  lemma {:induction false} RecordAt(flags: bv32, files: seq<FileInfo>, contents: seq<Option<seq<byte>>>,
                                    codecs: Codecs, offset: int, i: nat)
    requires |files| == |contents| && i < |files|
    ensures Records(flags, files, contents, codecs, offset)[i]
            == Record(flags, files[i], contents[i], codecs, offset + PayloadOffset(flags, contents, codecs, i))
    decreases i
  {
    if i == 0 {
      assert contents[..0] == [];
    } else {
      var s0 := Stored(flags, contents[0], codecs);
      var rest := Records(flags, files[1..], contents[1..], codecs, offset + |s0|);
      assert Records(flags, files, contents, codecs, offset)[i] == rest[i - 1];
      assert files[1..][i - 1] == files[i] && contents[1..][i - 1] == contents[i];
      RecordAt(flags, files[1..], contents[1..], codecs, offset + |s0|, i - 1);
      PayloadsSplit(flags, contents, codecs, i);
    }
  }

  /** Payload i sits at its offset among the payloads. */
  lemma {:induction false} PayloadAt(flags: bv32, contents: seq<Option<seq<byte>>>, codecs: Codecs, i: nat)
    requires i < |contents|
    ensures var p := PayloadOffset(flags, contents, codecs, i);
            var s := Stored(flags, contents[i], codecs);
            p + |s| <= |Payloads(flags, contents, codecs)| &&
            Payloads(flags, contents, codecs)[p .. p + |s|] == s
    decreases i
  {
    var s0 := Stored(flags, contents[0], codecs);
    var rest := Payloads(flags, contents[1..], codecs);
    assert Payloads(flags, contents, codecs) == s0 + rest;
    if i == 0 {
      assert contents[..0] == [];
    } else {
      PayloadAt(flags, contents[1..], codecs, i - 1);
      PayloadsSplit(flags, contents, codecs, i);
      var p := PayloadOffset(flags, contents[1..], codecs, i - 1);
      var s := Stored(flags, contents[i], codecs);
      assert (s0 + rest)[|s0| + p .. |s0| + p + |s|] == rest[p .. p + |s|];
    }
  }

  /** Record i of the final table of a written package. */
  function FinalRecord(files: seq<FileInfo>, contents: seq<Option<seq<byte>>>, flags: bv32, codecs: Codecs, i: nat): (r: FileRecord)
    requires |files| == |contents| && i < |files|
    ensures r == Records(flags, files, contents, codecs, HEADER_SIZE + FILE_RECORD_SIZE * |files|)[i]
  {
    var start := HEADER_SIZE + FILE_RECORD_SIZE * |files|;
    RecordAt(flags, files, contents, codecs, start, i);
    Record(flags, files[i], contents[i], codecs, start + PayloadOffset(flags, contents, codecs, i))
  }

  /** Every record of the final table is built with the position of its payload. */
  lemma AllRecordsAt(flags: bv32, files: seq<FileInfo>, contents: seq<Option<seq<byte>>>, codecs: Codecs, offset: int)
    requires |files| == |contents|
    ensures forall i :: 0 <= i < |files| ==>
      Records(flags, files, contents, codecs, offset)[i]
        == Record(flags, files[i], contents[i], codecs, offset + PayloadOffset(flags, contents, codecs, i))
  {
    forall i | 0 <= i < |files|
      ensures Records(flags, files, contents, codecs, offset)[i]
        == Record(flags, files[i], contents[i], codecs, offset + PayloadOffset(flags, contents, codecs, i))
    {
      RecordAt(flags, files, contents, codecs, offset, i);
    }
  }

  /**
    * A record locates the stored bytes of `data` in `archive`: its data size is the
    * size of the contents, its packed size the size of the stored form when compressed
    * (zero otherwise), and its position points at the stored bytes.
    */
  predicate Locates(archive: seq<byte>, r: FileRecord, data: seq<byte>, compressed: bool, stored: seq<byte>)
  {
    r.dataSize == U32(|data|) &&
    r.packedDataSize == (if compressed then |stored| else 0) &&
    r.dataPosition + |stored| <= |archive| &&
    archive[r.dataPosition .. r.dataPosition + |stored|] == stored
  }

  /** The three parts of a written package: header, final table, payloads. */
  lemma PackageWriteLayout(files: seq<FileInfo>, contents: seq<Option<seq<byte>>>, flags: bv32, codecs: Codecs)
    requires |files| == |contents|
    ensures var archive := PackageWrite(files, contents, flags, codecs).0;
      var start := HEADER_SIZE + FILE_RECORD_SIZE * |files|;
      |archive| == start + |Payloads(flags, contents, codecs)| &&
      archive[..HEADER_SIZE] == EncodeHeader(PackageHeader(files, flags)) &&
      archive[HEADER_SIZE .. start] == EncodeTable(Records(flags, files, contents, codecs, start)) &&
      archive[start..] == Payloads(flags, contents, codecs)
  {
    var start := HEADER_SIZE + FILE_RECORD_SIZE * |files|;
    var header := EncodeHeader(PackageHeader(files, flags));
    var table := EncodeTable(Records(flags, files, contents, codecs, start));
    var archive := PackageWrite(files, contents, flags, codecs).0;
    assert archive == header + table + Payloads(flags, contents, codecs);
  }

  /** A header and a table laid out at the start of a file decode to themselves. */
  lemma DecodeParts(archive: seq<byte>, h: Header, rs: seq<FileRecord>)
    requires HEADER_SIZE + FILE_RECORD_SIZE * |rs| <= |archive|
    requires archive[..HEADER_SIZE] == EncodeHeader(h)
    requires archive[HEADER_SIZE .. HEADER_SIZE + FILE_RECORD_SIZE * |rs|] == EncodeTable(rs)
    ensures DecodeHeader(archive[..HEADER_SIZE]) == h
    ensures DecodeTable(archive[HEADER_SIZE .. HEADER_SIZE + FILE_RECORD_SIZE * |rs|], |rs|) == rs
  {
    HeaderRoundTrip(h);
    TableRoundTrip(rs);
  }

  /** A written package starts with its header and its final record table. */
  lemma PackageWriteHeaderAndTable(files: seq<FileInfo>, contents: seq<Option<seq<byte>>>, flags: bv32, codecs: Codecs)
    requires |files| == |contents| && |files| < U32_LIMIT
    ensures HEADER_SIZE + FILE_RECORD_SIZE * |files| <= |PackageWrite(files, contents, flags, codecs).0|
    ensures var archive := PackageWrite(files, contents, flags, codecs).0;
      DecodeHeader(archive[..HEADER_SIZE]) == Header(PACKAGE_MAGIC, PACKAGE_VERSION, |files|, flags as int)
    ensures var archive := PackageWrite(files, contents, flags, codecs).0;
      var start := HEADER_SIZE + FILE_RECORD_SIZE * |files|;
      DecodeTable(archive[HEADER_SIZE .. start], |files|) == Records(flags, files, contents, codecs, start)
  {
    PackageWriteLayout(files, contents, flags, codecs);
    var start := HEADER_SIZE + FILE_RECORD_SIZE * |files|;
    var archive := PackageWrite(files, contents, flags, codecs).0;
    DecodeParts(archive, PackageHeader(files, flags), Records(flags, files, contents, codecs, start));
  }

  /**
    * In a written package smaller than 4 GiB, the record of every readable file
    * locates exactly the bytes stored for it (the compressed form, or the raw contents
    * with a zero packed size); an unreadable file keeps its hashes with every size and
    * position zero.
    */
  lemma PackageWriteRecord(files: seq<FileInfo>, contents: seq<Option<seq<byte>>>, flags: bv32, codecs: Codecs, i: nat)
    requires |files| == |contents| && i < |files|
    requires |PackageWrite(files, contents, flags, codecs).0| < U32_LIMIT
    ensures FinalRecord(files, contents, flags, codecs, i).nameHash == files[i].nameHash
    ensures FinalRecord(files, contents, flags, codecs, i).extHash == files[i].extHash
    ensures FinalRecord(files, contents, flags, codecs, i).nameSize == 0
    ensures contents[i].None? ==>
      FinalRecord(files, contents, flags, codecs, i) == FileRecord(files[i].nameHash, files[i].extHash, 0, 0, 0, 0)
    ensures contents[i].Some? ==>
      Locates(PackageWrite(files, contents, flags, codecs).0, FinalRecord(files, contents, flags, codecs, i),
              contents[i].value, Compressed(flags), Stored(flags, contents[i], codecs))
  {
    var archive := PackageWrite(files, contents, flags, codecs).0;
    var start := HEADER_SIZE + FILE_RECORD_SIZE * |files|;
    var pos := start + PayloadOffset(flags, contents, codecs, i);
    StoredInArchive(files, contents, flags, codecs, i);
    RecordOfStored(archive, files[i], contents[i], flags, codecs, pos);
  }

  /** The record built for a file whose stored bytes sit at `pos` in a file under 4 GiB. */
  lemma RecordOfStored(archive: seq<byte>, f: FileInfo, content: Option<seq<byte>>, flags: bv32, codecs: Codecs, pos: nat)
    requires |archive| < U32_LIMIT
    requires var stored := Stored(flags, content, codecs);
      pos + |stored| <= |archive| && archive[pos .. pos + |stored|] == stored
    ensures var r := Record(flags, f, content, codecs, pos);
      r.nameHash == f.nameHash && r.extHash == f.extHash && r.nameSize == 0 &&
      (content.None? ==> r == FileRecord(f.nameHash, f.extHash, 0, 0, 0, 0)) &&
      (content.Some? ==> Locates(archive, r, content.value, Compressed(flags), Stored(flags, content, codecs)))
  {
    if content.Some? {
      RecordLocates(archive, Record(flags, f, content, codecs, pos), content.value,
                    Compressed(flags), Stored(flags, content, codecs), pos);
    }
  }

  /** The stored bytes of file i sit in the written package after the table, at its payload offset. */
  lemma StoredInArchive(files: seq<FileInfo>, contents: seq<Option<seq<byte>>>, flags: bv32, codecs: Codecs, i: nat)
    requires |files| == |contents| && i < |files|
    ensures var archive := PackageWrite(files, contents, flags, codecs).0;
      var pos := HEADER_SIZE + FILE_RECORD_SIZE * |files| + PayloadOffset(flags, contents, codecs, i);
      var stored := Stored(flags, contents[i], codecs);
      pos + |stored| <= |archive| && archive[pos .. pos + |stored|] == stored
  {
    var archive := PackageWrite(files, contents, flags, codecs).0;
    var start := HEADER_SIZE + FILE_RECORD_SIZE * |files|;
    PayloadAt(flags, contents, codecs, i);
    PackageWriteLayout(files, contents, flags, codecs);
    var p := PayloadOffset(flags, contents, codecs, i);
    SliceOfSuffix(archive, start, p, p + |Stored(flags, contents[i], codecs)|);
  }

  /** A record with the sizes and position of bytes found in a file under 4 GiB locates them. */
  lemma RecordLocates(archive: seq<byte>, r: FileRecord, data: seq<byte>, compressed: bool, stored: seq<byte>, pos: nat)
    requires pos + |stored| <= |archive| < U32_LIMIT && archive[pos .. pos + |stored|] == stored
    requires r.dataSize == U32(|data|) && r.dataPosition == U32(pos)
    requires r.packedDataSize == if compressed then U32(|stored|) else 0
    ensures Locates(archive, r, data, compressed, stored)
  {
  }
}
