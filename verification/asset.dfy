/**
  * The asset index (neon/src/core/asset.c): packages and loose directories are
  * registered into one table of resources, the table is sorted by name hash and
  * binary-searched, and packed payloads are materialised once and cached.
  */
module Asset {
  import opened Wrappers
  import opened Bytes
  import opened Text
  import opened FileSystem
  import opened Package
  import opened Seqs

  const MAX_PACKAGES: nat := 10
  const FILES_RESERV_NUM: nat := 1000

  /** The extensions a loose file must carry to be registered (compared ignoring case). */
  const RESOURCE_EXTS: seq<string> := [".tga", ".obj", ".frag", ".vert", ".geom", ".glsl", ".ttf",
                                       ".wav", ".wave", ".map", ".lua", ".lang"]

  datatype PackageEntry = PackageEntry(filepath: string, flags: bv32, version: u32)

  /** One registered resource; `package` is an index into the package table. */
  datatype Resource = Resource(packed: bool, name: string, path: string, nameHash: u32, extHash: u32,
                               size: u32, position: u32, packedSize: u32, packedNameSize: u32,
                               buffer: Option<seq<byte>>, package: nat)

  /** The index: the package table, the resource table and the resource table's capacity. */
  datatype Archive = Archive(packages: seq<PackageEntry>, files: seq<Resource>, filesNum: int)

  /** The two readings of the composite operations: the code as written, or with the corrections. */
  datatype Reading = AsWritten | Intended

  datatype AssetError =
    | PackageOverflow   // add_package: exit on a full package table
    | Overrun           // a write past the end of the package or resource array, undefined in the source
    | TableFull         // add_resource: the assertion on the table capacity
    | UnknownResource   // asset_request_hash: exit on a missing hash
    | ZeroHash          // get_filepath_from_hash: the assertion on a zero hash

  const EMPTY: Archive := Archive([], [], 0)

  /** The table fits its capacity and every packed resource names a registered package. */
  predicate Valid(a: Archive)
  {
    |a.files| <= a.filesNum && |a.packages| <= MAX_PACKAGES &&
    forall i :: 0 <= i < |a.files| && a.files[i].packed ==> a.files[i].package < |a.packages|
  }

  // ---------------------------------------------------------------- capacity

  /** `archive_resize` as written: one step of 1000 slots when the capacity is at most `num`. */
  function ArchiveResize(filesNum: int, num: int): (r: int)
    ensures filesNum <= num ==> r == filesNum + FILES_RESERV_NUM
    ensures filesNum > num ==> r == filesNum
  {
    if filesNum <= num then filesNum + FILES_RESERV_NUM else filesNum
  }

  /**
    * `package_open` reserves with `archive_resize(filenum)`, which neither counts the
    * resources already registered nor grows by more than 1000: a first package of
    * 1001 files is appended to a 1000-slot table.
    */
  lemma ArchiveResizeTooSmall()
    ensures var filesNum := ArchiveResize(EMPTY.filesNum, 1001);
      filesNum == 1000 && |EMPTY.files| + 1001 > filesNum
  {
  }

  /**
    * The reservation `package_open` needs: `archive_resize`'s test repeated, with the
    * resources already registered counted, so that the capacity ends above `needed`.
    */
  function Reserve(filesNum: int, needed: nat): (r: int)
    ensures r > needed && r >= filesNum
    ensures filesNum > needed ==> r == filesNum
    ensures filesNum <= needed ==> (r - filesNum) % FILES_RESERV_NUM == 0 && r - FILES_RESERV_NUM <= needed
    decreases needed - filesNum
  {
    if filesNum > needed then filesNum else Reserve(filesNum + FILES_RESERV_NUM, needed)
  }

  /** The corrected reservation never leaves less room than `archive_resize` as written. */
  lemma ReserveCoversArchiveResize(filesNum: int, count: nat, num: nat)
    ensures ArchiveResize(filesNum, num) <= Reserve(filesNum, count + num)
  {
  }

  // ---------------------------------------------------------------- registration

  /** `add_package` as written: exits only when the count exceeds 10. */
  function AddPackageAsWritten(a: Archive, p: PackageEntry): (r: Result<Archive, AssetError>)
    ensures r.Err? <==> |a.packages| > MAX_PACKAGES
    ensures r.Ok? ==> r.value == a.(packages := a.packages + [p])
  {
    if |a.packages| > MAX_PACKAGES then Err(PackageOverflow) else Ok(a.(packages := a.packages + [p]))
  }

  /** With ten packages registered the guard lets an eleventh into a ten-slot table. */
  lemma AddPackageAsWrittenOverflows(a: Archive, p: PackageEntry)
    requires |a.packages| == MAX_PACKAGES
    ensures AddPackageAsWritten(a, p).Ok? && |AddPackageAsWritten(a, p).value.packages| > MAX_PACKAGES
  {
  }

  /** `add_package` with the bound the ten-slot array needs. */
  function AddPackage(a: Archive, p: PackageEntry): (r: Result<Archive, AssetError>)
    ensures r.Err? <==> |a.packages| >= MAX_PACKAGES
    ensures r.Ok? ==> r.value.packages == a.packages + [p] && r.value.files == a.files && r.value.filesNum == a.filesNum
    ensures r.Ok? ==> |r.value.packages| <= MAX_PACKAGES
  {
    if |a.packages| >= MAX_PACKAGES then Err(PackageOverflow) else Ok(a.(packages := a.packages + [p]))
  }

  /** `add_packed_resource`: a zeroed resource that copies the record's fields, marked packed. */
  function PackedResource(r: FileRecord, package: nat): (res: Resource)
    ensures res.packed && res.buffer.None? && res.package == package && res.name == [] && res.path == []
    ensures res.nameHash == r.nameHash && res.extHash == r.extHash && res.size == r.dataSize
    ensures res.position == r.dataPosition && res.packedSize == r.packedDataSize && res.packedNameSize == r.nameSize
  {
    Resource(true, [], [], r.nameHash, r.extHash, r.dataSize, r.dataPosition, r.packedDataSize, r.nameSize, None, package)
  }

  /** One packed resource per record, in record order, all belonging to package `package`. */
  function PackedResources(records: seq<FileRecord>, package: nat): (rs: seq<Resource>)
    ensures |rs| == |records|
    ensures forall i :: 0 <= i < |records| ==> rs[i] == PackedResource(records[i], package)
  {
    seq(|records|, i requires 0 <= i < |records| => PackedResource(records[i], package))
  }

  /** Bytes `[offset, offset+n)` of a file; a short read leaves the rest of the buffer zero. */
  function ReadPadded(data: seq<byte>, offset: nat, n: nat): (r: seq<byte>)
    ensures |r| == n
    ensures offset + n <= |data| ==> r == data[offset .. offset + n]
  {
    var avail := if offset >= |data| then [] else if offset + n <= |data| then data[offset .. offset + n] else data[offset..];
    avail + seq(n - |avail|, _ => 0 as byte)
  }

  /** The header `package_open` reads: the first 16 bytes, zero where the file is shorter. */
  function HeaderOf(bytes: seq<byte>): Header
  {
    DecodeHeader(ReadPadded(bytes, 0, HEADER_SIZE))
  }

  /** The `n` records read after the header. */
  function RecordsOf(bytes: seq<byte>, n: nat): seq<FileRecord>
  {
    DecodeTable(ReadPadded(bytes, HEADER_SIZE, FILE_RECORD_SIZE * n), n)
  }

  /** A package file whose header carries the magic and a supported version. */
  predicate AcceptedHeader(bytes: seq<byte>)
  {
    HeaderOf(bytes).magic == PACKAGE_MAGIC && HeaderOf(bytes).version >= PACKAGE_VERSION
  }

  /**
    * The capacity after `package_open`'s reservation for `n` records: `archive_resize(n)`
    * as written, or the corrected reservation.
    */
  function OpenCapacity(v: Reading, a: Archive, n: nat): int
  {
    match v
    case AsWritten => ArchiveResize(a.filesNum, n)
    case Intended => Reserve(a.filesNum, |a.files| + n)
  }

  /**
    * `package_open`: -1 for a missing file, a wrong magic or an older version, with
    * nothing registered; otherwise capacity is reserved, one package is added and the
    * `filenum` records are appended as packed resources in table order. As written, an
    * eleventh package or more records than the reserved capacity are written past the
    * end of their arrays; that undefined behaviour is the error `Overrun` here. With
    * the corrections, the reservation always fits and only a full package table fails.
    */
  function PackageOpen(v: Reading, a: Archive, filepath: string, file: Option<seq<byte>>): (r: Result<(int, Archive), AssetError>)
    ensures file.None? || !AcceptedHeader(file.value) ==> r == Ok((-1, a))
    ensures r.Ok? ==> r.value.0 == -1 || r.value.0 == 0
    ensures file.Some? && AcceptedHeader(file.value) && v == Intended ==>
      (r.Err? <==> |a.packages| >= MAX_PACKAGES)
    ensures file.Some? && AcceptedHeader(file.value) && v == AsWritten ==>
      (r.Err? <==> |a.packages| >= MAX_PACKAGES || |a.files| + HeaderOf(file.value).filenum > ArchiveResize(a.filesNum, HeaderOf(file.value).filenum))
    ensures file.Some? && AcceptedHeader(file.value) && r.Ok? ==>
      var h := HeaderOf(file.value);
      r.value.0 == 0 &&
      r.value.1 == Archive(a.packages + [PackageEntry(filepath, h.flags as bv32, h.version)],
                           a.files + PackedResources(RecordsOf(file.value, h.filenum), |a.packages|),
                           OpenCapacity(v, a, h.filenum))
  {
    match file
    case None => Ok((-1, a))
    case Some(bytes) =>
      var h := HeaderOf(bytes);
      if h.magic != PACKAGE_MAGIC || h.version < PACKAGE_VERSION then Ok((-1, a))
      else
        var reserved := a.(filesNum := OpenCapacity(v, a, h.filenum));
        var entry := PackageEntry(filepath, h.flags as bv32, h.version);
        var added := match v case AsWritten => AddPackageAsWritten(reserved, entry) case Intended => AddPackage(reserved, entry);
        match added
        case Err(e) => Err(e)
        case Ok(withPackage) =>
          if |withPackage.packages| > MAX_PACKAGES || |a.files| + h.filenum > reserved.filesNum then Err(Overrun)
          else Ok((0, withPackage.(files := a.files + PackedResources(RecordsOf(bytes, h.filenum), |a.packages|))))
  }

  /**
    * Opening a package with an accepted header registers exactly one package and
    * appends one packed resource per table record, in table order, keeping the table
    * within its capacity; a rejected header changes nothing.
    */
  lemma PackageOpenRegisters(a: Archive, filepath: string, bytes: seq<byte>)
    requires Valid(a) && |a.packages| < MAX_PACKAGES
    ensures !AcceptedHeader(bytes) ==> PackageOpen(Intended, a, filepath, Some(bytes)) == Ok((-1, a))
    ensures AcceptedHeader(bytes) ==>
      var h := HeaderOf(bytes);
      var records := RecordsOf(bytes, h.filenum);
      var r := PackageOpen(Intended, a, filepath, Some(bytes));
      r.Ok? && r.value.0 == 0 && Valid(r.value.1) &&
      r.value.1.packages == a.packages + [PackageEntry(filepath, h.flags as bv32, h.version)] &&
      |r.value.1.files| == |a.files| + h.filenum &&
      r.value.1.files[..|a.files|] == a.files &&
      forall i :: 0 <= i < h.filenum ==> r.value.1.files[|a.files| + i] == PackedResource(records[i], |a.packages|)
  {
    if AcceptedHeader(bytes) {
      PackageOpenAccepted(a, filepath, bytes);
    }
  }

  lemma PackageOpenAccepted(a: Archive, filepath: string, bytes: seq<byte>)
    requires Valid(a) && |a.packages| < MAX_PACKAGES && AcceptedHeader(bytes)
    ensures
      var h := HeaderOf(bytes);
      var r := PackageOpen(Intended, a, filepath, Some(bytes));
      r.Ok? && r.value.0 == 0 && Valid(r.value.1) &&
      r.value.1.packages == a.packages + [PackageEntry(filepath, h.flags as bv32, h.version)] &&
      r.value.1.files == a.files + PackedResources(RecordsOf(bytes, h.filenum), |a.packages|)
  {
    var h := HeaderOf(bytes);
    var r := PackageOpen(Intended, a, filepath, Some(bytes)).value.1;
    forall i | 0 <= i < |r.files| && r.files[i].packed ensures r.files[i].package < |r.packages| {
      if i >= |a.files| {
        assert r.files[i] == PackedResources(RecordsOf(bytes, h.filenum), |a.packages|)[i - |a.files|];
      }
    }
  }

  /**
    * Whatever the code as written opens without running past an array, the corrected
    * open registers identically, with at least as much capacity.
    */
  lemma PackageOpenAsWrittenAgrees(a: Archive, filepath: string, file: Option<seq<byte>>)
    requires PackageOpen(AsWritten, a, filepath, file).Ok?
    ensures var w := PackageOpen(AsWritten, a, filepath, file).value;
      var c := PackageOpen(Intended, a, filepath, file);
      c.Ok? && c.value.0 == w.0 && c.value.1.packages == w.1.packages && c.value.1.files == w.1.files &&
      c.value.1.filesNum >= w.1.filesNum
  {
    if file.Some? && AcceptedHeader(file.value) {
      var n := HeaderOf(file.value).filenum;
      assert |a.packages| < MAX_PACKAGES && |a.files| + n <= ArchiveResize(a.filesNum, n);
      ReserveCoversArchiveResize(a.filesNum, |a.files|, n);
      assert OpenCapacity(AsWritten, a, n) <= OpenCapacity(Intended, a, n);
      var c := PackageOpen(Intended, a, filepath, file);
      assert c.Ok?;
      var h := HeaderOf(file.value);
      var added := PackedResources(RecordsOf(file.value, h.filenum), |a.packages|);
      var w := PackageOpen(AsWritten, a, filepath, file).value;
      var entry := PackageEntry(filepath, h.flags as bv32, h.version);
      assert w == (0, Archive(a.packages + [entry], a.files + added, OpenCapacity(AsWritten, a, n)));
      assert c.value == (0, Archive(a.packages + [entry], a.files + added, OpenCapacity(Intended, a, n)));
    } else {
      assert PackageOpen(AsWritten, a, filepath, file) == Ok((-1, a));
      assert PackageOpen(Intended, a, filepath, file) == Ok((-1, a));
    }
  }

  /**
    * As written, a package whose records outnumber the slots `archive_resize` leaves
    * runs past the table, while the corrected open registers it; a first package of
    * 1001 records into the empty index is such a package.
    */
  lemma PackageOpenAsWrittenOverruns(a: Archive, filepath: string, bytes: seq<byte>)
    requires Valid(a) && |a.packages| < MAX_PACKAGES && AcceptedHeader(bytes)
    requires |a.files| + HeaderOf(bytes).filenum > ArchiveResize(a.filesNum, HeaderOf(bytes).filenum)
    ensures PackageOpen(AsWritten, a, filepath, Some(bytes)) == Err(Overrun)
    ensures PackageOpen(Intended, a, filepath, Some(bytes)).Ok?
  {
  }

  predicate IsValidResourceExt(ext: string)
  {
    exists i :: 0 <= i < |RESOURCE_EXTS| && EqualsIgnoreCase(ext, RESOURCE_EXTS[i])
  }

  /** The loose, unpacked resource `add_resource` fills for a listed file. */
  function LooseResource(name: string, path: string, hash: string -> u32): Resource
  {
    Resource(false, name, path, hash(name), hash(Extension(name)), 0, 0, 0, 0, None, 0)
  }

  /** `add_resource`: a loose resource appended at the end of the table; a full table fails its assertion. */
  function AddResource(a: Archive, name: string, path: string, hash: string -> u32): (r: Result<Archive, AssetError>)
    ensures r.Err? <==> |a.files| >= a.filesNum
    ensures r.Err? ==> r == Err(TableFull)
    ensures r.Ok? ==> r.value.packages == a.packages && r.value.filesNum == a.filesNum
    ensures r.Ok? ==> r.value.files == a.files + [LooseResource(name, path, hash)]
    ensures r.Ok? ==> !r.value.files[|a.files|].packed && r.value.files[|a.files|].nameHash == hash(name) &&
                      r.value.files[|a.files|].extHash == hash(Extension(name))
  {
    if |a.files| >= a.filesNum then Err(TableFull)
    else Ok(a.(files := a.files + [LooseResource(name, path, hash)]))
  }

  /** A resource `on_list_file` may add: loose, visible, with an allowed extension, hashed by name. */
  predicate LooseEntry(r: Resource, hash: string -> u32)
  {
    !r.packed && !Hidden(r.name) && IsValidResourceExt(Extension(r.name)) &&
    r.nameHash == hash(r.name) && r.extHash == hash(Extension(r.name))
  }

  /**
    * The `on_list_file` walk: hidden names are skipped, files with an allowed
    * extension are added, and each directory is searched after `archive_resize(999)`.
    */
  function ListFiles(a: Archive, entries: seq<Entry>, hash: string -> u32): Result<Archive, AssetError>
    decreases entries
  {
    if entries == [] then Ok(a)
    else
      var e := entries[0];
      var here :=
        if Hidden(e.name) then Ok(a)
        else match e
          case File(name, path) =>
            if IsValidResourceExt(Extension(name)) then AddResource(a, name, path, hash) else Ok(a)
          case Dir(_, _, children) =>
            ListFiles(a.(filesNum := ArchiveResize(a.filesNum, FILES_RESERV_NUM - 1)), children, hash);
      match here
      case Err(err) => Err(err)
      case Ok(a1) => ListFiles(a1, entries[1..], hash)
  }

  /** A listed file `on_list_file` registers: one with an allowed extension. */
  predicate Registrable(e: Entry)
  {
    IsValidResourceExt(Extension(e.name))
  }

  /** The loose resources for the listed files, in order. */
  function LooseResources(fs: seq<Entry>, hash: string -> u32): (rs: seq<Resource>)
    ensures |rs| == |fs|
    ensures forall i :: 0 <= i < |fs| ==> rs[i] == LooseResource(fs[i].name, fs[i].path, hash)
  {
    seq(|fs|, i requires 0 <= i < |fs| => LooseResource(fs[i].name, fs[i].path, hash))
  }

  /** What a walk of `entries` registers: the visible files with an allowed extension, in walk order. */
  function Added(entries: seq<Entry>, hash: string -> u32): seq<Resource>
  {
    LooseResources(Filter(VisibleFiles(entries), Registrable), hash)
  }

  /** Every registration is loose, visible, of an allowed extension and hashed by its own name. */
  lemma AddedAreLoose(entries: seq<Entry>, hash: string -> u32)
    ensures forall i :: 0 <= i < |Added(entries, hash)| ==> LooseEntry(Added(entries, hash)[i], hash)
  {
    var fs := Filter(VisibleFiles(entries), Registrable);
    forall i | 0 <= i < |fs| ensures !Hidden(fs[i].name) {
      assert fs[i] in VisibleFiles(entries);
    }
  }

  lemma LooseResourcesAppend(f1: seq<Entry>, f2: seq<Entry>, hash: string -> u32)
    ensures LooseResources(f1 + f2, hash) == LooseResources(f1, hash) + LooseResources(f2, hash)
  {
  }

  /** The registrations of a walk are those of its first entry followed by those of the rest. */
  lemma AddedCons(entries: seq<Entry>, hash: string -> u32)
    requires entries != []
    ensures Hidden(entries[0].name) ==> Added(entries, hash) == Added(entries[1..], hash)
    ensures !Hidden(entries[0].name) && entries[0].File? ==>
      Added(entries, hash) == (if Registrable(entries[0]) then [LooseResource(entries[0].name, entries[0].path, hash)] else []) +
                              Added(entries[1..], hash)
    ensures !Hidden(entries[0].name) && entries[0].Dir? ==>
      Added(entries, hash) == Added(entries[0].children, hash) + Added(entries[1..], hash)
  {
    var e := entries[0];
    var rest := VisibleFiles(entries[1..]);
    VisibleCons(entries);
    if Hidden(e.name) {
      assert VisibleFiles(entries) == [] + rest;
      assert [] + rest == rest;
    } else if e.File? {
      assert VisibleFiles(entries) == [e] + rest;
      AddedAppend([e], rest, hash);
      var kept := if Registrable(e) then [e] else [];
      assert Filter([e], Registrable) == kept by {
        assert [e][1..] == [];
      }
      var head := LooseResources(kept, hash);
      assert head == if Registrable(e) then [LooseResource(e.name, e.path, hash)] else [];
      assert Added(entries, hash) == head + Added(entries[1..], hash);
    } else {
      assert VisibleFiles(entries) == VisibleFiles(e.children) + rest;
      AddedAppend(VisibleFiles(e.children), rest, hash);
    }
  }

  lemma VisibleCons(entries: seq<Entry>)
    requires entries != []
    ensures var e := entries[0];
      VisibleFiles(entries) == (if Hidden(e.name) then [] else if e.File? then [e] else VisibleFiles(e.children)) +
                               VisibleFiles(entries[1..])
  {
  }

  lemma AddedAppend(f1: seq<Entry>, f2: seq<Entry>, hash: string -> u32)
    ensures LooseResources(Filter(f1 + f2, Registrable), hash) ==
            LooseResources(Filter(f1, Registrable), hash) + LooseResources(Filter(f2, Registrable), hash)
  {
    FilterAppend(f1, f2, Registrable);
    LooseResourcesAppend(Filter(f1, Registrable), Filter(f2, Registrable), hash);
  }

  /**
    * Once the capacity holds the table and is past `archive_resize(999)`'s threshold,
    * a walk registers every visible file with an allowed extension, recursively and in
    * walk order, after the resources already there; it fails, at the assertion in
    * `add_resource`, exactly when they do not all fit.
    */
  lemma {:induction false} ListFilesRegisters(a: Archive, entries: seq<Entry>, hash: string -> u32)
    requires |a.files| <= a.filesNum && a.filesNum >= FILES_RESERV_NUM
    ensures WalkRegisters(a, entries, hash)
    decreases entries, 1
  {
    if entries == [] {
      assert VisibleFiles(entries) == [];
      assert Filter(VisibleFiles(entries), Registrable) == [];
    } else if entries[0].Dir? && !Hidden(entries[0].name) {
      ListFilesDir(a, entries, hash);
    } else {
      ListFilesFile(a, entries, hash);
    }
  }

  /** The conclusion of `ListFilesRegisters` for a walk of `entries` from `a`. */
  predicate WalkRegisters(a: Archive, entries: seq<Entry>, hash: string -> u32)
  {
    Appends(a, ListFiles(a, entries, hash), Added(entries, hash))
  }

  /** `r` appends `added` to the table of `a` when it fits, and fails with a full table otherwise. */
  predicate Appends(a: Archive, r: Result<Archive, AssetError>, added: seq<Resource>)
  {
    (r.Ok? <==> |a.files| + |added| <= a.filesNum) &&
    (r.Ok? ==> r.value == a.(files := a.files + added)) &&
    (r.Err? ==> r == Err(TableFull))
  }

  /** Two walks in sequence append what each appends, and fail when either does. */
  lemma AppendsChain(a: Archive, r1: Result<Archive, AssetError>, added1: seq<Resource>,
                     r: Result<Archive, AssetError>, added2: seq<Resource>)
    requires Appends(a, r1, added1)
    requires r1.Err? ==> r == r1
    requires r1.Ok? ==> Appends(r1.value, r, added2)
    ensures Appends(a, r, added1 + added2)
  {
    if r1.Ok? {
      assert r1.value.files + added2 == a.files + (added1 + added2);
    }
  }

  /** The induction step for a listing that starts with a hidden entry or a file. */
  lemma {:induction false} ListFilesFile(a: Archive, entries: seq<Entry>, hash: string -> u32)
    requires |a.files| <= a.filesNum && a.filesNum >= FILES_RESERV_NUM
    requires entries != [] && (entries[0].File? || Hidden(entries[0].name))
    ensures WalkRegisters(a, entries, hash)
    decreases entries, 0
  {
    var e := entries[0];
    var rest := entries[1..];
    AddedCons(entries, hash);
    if Hidden(e.name) || !Registrable(e) {
      assert ListFiles(a, entries, hash) == ListFiles(a, rest, hash);
      ListFilesRegisters(a, rest, hash);
      AppendsChain(a, Ok(a), [], ListFiles(a, entries, hash), Added(rest, hash));
      assert [] + Added(rest, hash) == Added(rest, hash);
    } else {
      var here := AddResource(a, e.name, e.path, hash);
      assert ListFiles(a, entries, hash) == if here.Ok? then ListFiles(here.value, rest, hash) else here;
      if here.Ok? {
        ListFilesRegisters(here.value, rest, hash);
      }
      AppendsChain(a, here, [LooseResource(e.name, e.path, hash)], ListFiles(a, entries, hash), Added(rest, hash));
    }
  }

  /** The induction step for a listing that starts with a visible directory. */
  lemma {:induction false} ListFilesDir(a: Archive, entries: seq<Entry>, hash: string -> u32)
    requires |a.files| <= a.filesNum && a.filesNum >= FILES_RESERV_NUM
    requires entries != [] && entries[0].Dir? && !Hidden(entries[0].name)
    ensures WalkRegisters(a, entries, hash)
    decreases entries, 0
  {
    var e := entries[0];
    var rest := entries[1..];
    AddedCons(entries, hash);
    assert a.(filesNum := ArchiveResize(a.filesNum, FILES_RESERV_NUM - 1)) == a;
    var inner := ListFiles(a, e.children, hash);
    ListFilesRegisters(a, e.children, hash);
    assert ListFiles(a, entries, hash) == if inner.Ok? then ListFiles(inner.value, rest, hash) else inner;
    if inner.Ok? {
      ListFilesRegisters(inner.value, rest, hash);
    }
    AppendsChain(a, inner, Added(e.children, hash), ListFiles(a, entries, hash), Added(rest, hash));
  }

  /** After the reservation of a directory search the nested reservations change nothing. */
  lemma ReservedWalk(a: Archive, entries: seq<Entry>, hash: string -> u32)
    ensures |a.files| <= a.filesNum ==>
      var reserved := a.(filesNum := ArchiveResize(a.filesNum, FILES_RESERV_NUM - 1));
      var r := ListFiles(reserved, entries, hash);
      (r.Ok? <==> |a.files| + |Added(entries, hash)| <= reserved.filesNum) &&
      (r.Ok? ==> r.value == reserved.(files := a.files + Added(entries, hash))) &&
      (r.Err? ==> r == Err(TableFull))
  {
    if |a.files| <= a.filesNum {
      ListFilesRegisters(a.(filesNum := ArchiveResize(a.filesNum, FILES_RESERV_NUM - 1)), entries, hash);
    }
  }

  /**
    * `directory_search_all_files`: reserve, then walk the listing. Every visible file
    * with an allowed extension is registered, in walk order, behind the resources
    * already there, or the walk fails when the reserved table cannot hold them.
    */
  function DirectorySearch(a: Archive, entries: seq<Entry>, hash: string -> u32): (r: Result<Archive, AssetError>)
    ensures |a.files| <= a.filesNum ==>
      var capacity := ArchiveResize(a.filesNum, FILES_RESERV_NUM - 1);
      (r.Ok? <==> |a.files| + |Added(entries, hash)| <= capacity) &&
      (r.Ok? ==> r.value == Archive(a.packages, a.files + Added(entries, hash), capacity)) &&
      (r.Err? ==> r == Err(TableFull))
  {
    var reserved := a.(filesNum := ArchiveResize(a.filesNum, FILES_RESERV_NUM - 1));
    var r := ListFiles(reserved, entries, hash);
    ReservedWalk(a, entries, hash);
    r
  }

  // ---------------------------------------------------------------- ordering

  /** `compare_hash` as written: the difference of the hashes taken as signed 32-bit ints. */
  function CompareHashAsWritten(a: u32, b: u32): int
  {
    WrapInt32(Int32(a) - Int32(b))
  }

  /**
    * The subtraction overflows, and the comparator is not an order: it ranks
    * 0 < 1, 1 < 0x80000000 and 0x80000000 < 0, a cycle, so `qsort` and `bsearch` get
    * an inconsistent comparison.
    */
  lemma CompareHashAsWrittenCycles()
    ensures CompareHashAsWritten(0, 1) < 0
    ensures CompareHashAsWritten(1, 0x8000_0000) < 0
    ensures CompareHashAsWritten(0x8000_0000, 0) < 0
  {
  }

  /** The comparison the table needs: the hashes as unsigned 32-bit values. */
  function CompareHash(a: u32, b: u32): (c: int)
    ensures c < 0 <==> a < b
    ensures c == 0 <==> a == b
    ensures c > 0 <==> a > b
  {
    if a < b then -1 else if a > b then 1 else 0
  }

  /**
    * Below 2^31 the signed difference cannot overflow, so the comparator as written
    * orders such hashes exactly as the corrected one does.
    */
  lemma CompareHashAsWrittenAgreesBelow(a: u32, b: u32)
    requires a < 0x8000_0000 && b < 0x8000_0000
    ensures CompareHashAsWritten(a, b) < 0 <==> a < b
    ensures CompareHashAsWritten(a, b) == 0 <==> a == b
    ensures CompareHashAsWritten(a, b) > 0 <==> a > b
  {
  }

  /** The corrected comparator is a total order: antisymmetric and transitive. */
  lemma CompareHashIsTotalOrder(a: u32, b: u32, c: u32)
    ensures CompareHash(a, b) < 0 <==> CompareHash(b, a) > 0
    ensures CompareHash(a, b) <= 0 && CompareHash(b, c) <= 0 ==> CompareHash(a, c) <= 0
    ensures CompareHash(a, b) <= 0 || CompareHash(b, a) <= 0
  {
  }

  predicate SortedByHash(files: seq<Resource>)
  {
    forall i, j :: 0 <= i < j < |files| ==> files[i].nameHash <= files[j].nameHash
  }

  function InsertByHash(r: Resource, sorted: seq<Resource>): (s: seq<Resource>)
    requires SortedByHash(sorted)
    ensures SortedByHash(s)
    ensures multiset(s) == multiset(sorted) + multiset{r}
    ensures |s| == |sorted| + 1
  {
    if sorted == [] then [r]
    else if CompareHash(r.nameHash, sorted[0].nameHash) <= 0 then
      InsertAtHead(r, sorted);
      [r] + sorted
    else
      var rest := InsertByHash(r, sorted[1..]);
      InsertAfterHead(r, sorted, rest);
      [sorted[0]] + rest
  }

  lemma InsertAtHead(r: Resource, sorted: seq<Resource>)
    requires SortedByHash(sorted) && sorted != [] && r.nameHash <= sorted[0].nameHash
    ensures SortedByHash([r] + sorted)
  {
    var s := [r] + sorted;
    forall i, j | 0 <= i < j < |s| ensures s[i].nameHash <= s[j].nameHash {
      assert s[j] == sorted[j - 1];
      if i > 0 { assert s[i] == sorted[i - 1]; }
    }
  }

  lemma InsertAfterHead(r: Resource, sorted: seq<Resource>, rest: seq<Resource>)
    requires SortedByHash(sorted) && sorted != [] && sorted[0].nameHash < r.nameHash
    requires SortedByHash(rest) && multiset(rest) == multiset(sorted[1..]) + multiset{r}
    ensures SortedByHash([sorted[0]] + rest)
    ensures multiset([sorted[0]] + rest) == multiset(sorted) + multiset{r}
  {
    assert sorted == [sorted[0]] + sorted[1..];
    forall k | 0 <= k < |rest| ensures sorted[0].nameHash <= rest[k].nameHash {
      assert rest[k] in multiset(rest);
      if rest[k] != r {
        assert rest[k] in sorted[1..];
      }
    }
    var s := [sorted[0]] + rest;
    forall i, j | 0 <= i < j < |s| ensures s[i].nameHash <= s[j].nameHash {
      assert s[j] == rest[j - 1];
      if i > 0 { assert s[i] == rest[i - 1]; }
    }
  }

  /** The table order after `qsort`: by name hash, as a permutation of the table. */
  function SortByHash(files: seq<Resource>): (s: seq<Resource>)
    ensures SortedByHash(s)
    ensures multiset(s) == multiset(files)
    ensures |s| == |files|
  {
    if files == [] then []
    else
      assert files == [files[0]] + files[1..];
      InsertByHash(files[0], SortByHash(files[1..]))
  }

  /** Sorting permutes the table, so every entry still names a registered package. */
  lemma SortKeepsValid(a: Archive)
    requires Valid(a)
    ensures Valid(a.(files := SortByHash(a.files)))
  {
    var sorted := SortByHash(a.files);
    forall i | 0 <= i < |sorted| && sorted[i].packed ensures sorted[i].package < |a.packages| {
      assert sorted[i] in multiset(a.files);
    }
  }

  /** `bsearch` over `[lo, hi)` with the corrected comparator. */
  function Search(files: seq<Resource>, hash: u32, lo: nat, hi: nat): (r: Option<nat>)
    requires lo <= hi <= |files|
    ensures r.Some? ==> lo <= r.value < hi && files[r.value].nameHash == hash
    ensures r.None? && SortedByHash(files) ==> forall i :: lo <= i < hi ==> files[i].nameHash != hash
    decreases hi - lo
  {
    if lo == hi then None
    else
      var mid := (lo + hi) / 2;
      var c := CompareHash(hash, files[mid].nameHash);
      if c < 0 then Search(files, hash, lo, mid)
      else if c > 0 then Search(files, hash, mid + 1, hi)
      else Some(mid)
  }

  /** A lookup over the whole table. */
  function Lookup(files: seq<Resource>, hash: u32): (r: Option<nat>)
    ensures r.Some? ==> r.value < |files| && files[r.value].nameHash == hash
    ensures r.None? && SortedByHash(files) ==> forall i :: 0 <= i < |files| ==> files[i].nameHash != hash
  {
    Search(files, hash, 0, |files|)
  }

  /** On a sorted table the search finds a hash exactly when some resource carries it. */
  lemma LookupFindsIffPresent(files: seq<Resource>, hash: u32)
    requires SortedByHash(files)
    ensures Lookup(files, hash).Some? <==> exists i :: 0 <= i < |files| && files[i].nameHash == hash
  {
    var r := Lookup(files, hash);
    if r.Some? {
      assert files[r.value].nameHash == hash;
    }
  }

  /** What `asset_open` is pointed at: a directory listing or a package file (absent if unreadable). */
  datatype Target = Directory(entries: seq<Entry>) | PackageFile(contents: Option<seq<byte>>)

  /**
    * `asset_open`: -1 for a null path; otherwise the directory is scanned or the
    * package opened, and on success the whole table is re-sorted by name hash, as a
    * permutation of the table the scan or open produced.
    */
  function AssetOpen(v: Reading, a: Archive, path: Option<string>, target: Target, hash: string -> u32): (r: Result<(int, Archive), AssetError>)
    ensures path.None? ==> r == Ok((-1, a))
    ensures path.Some? ==> (r.Err? <==> OpenTarget(v, a, path.value, target, hash).Err?)
    ensures path.Some? && r.Ok? ==>
      var done := OpenTarget(v, a, path.value, target, hash).value;
      r.value.0 == done.0 && r.value.1.packages == done.1.packages && r.value.1.filesNum == done.1.filesNum &&
      (r.value.0 >= 0 ==> SortedByHash(r.value.1.files) && multiset(r.value.1.files) == multiset(done.1.files)) &&
      (r.value.0 < 0 ==> r.value.1 == a)
  {
    match path
    case None => Ok((-1, a))
    case Some(p) =>
      match OpenTarget(v, a, p, target, hash)
      case Err(e) => Err(e)
      case Ok(done) =>
        if done.0 >= 0 then Ok((done.0, done.1.(files := SortByHash(done.1.files)))) else Ok(done)
  }

  /** The directory scan or the package open `asset_open` dispatches to. */
  function OpenTarget(v: Reading, a: Archive, p: string, target: Target, hash: string -> u32): (r: Result<(int, Archive), AssetError>)
    ensures r.Ok? && r.value.0 < 0 ==> r.value.1 == a
  {
    match target
    case Directory(entries) =>
      (match DirectorySearch(a, entries, hash)
       case Err(e) => Err(e)
       case Ok(a1) => Ok((0, a1)))
    case PackageFile(contents) => PackageOpen(v, a, p, contents)
  }

  // ---------------------------------------------------------------- requests

  /** `get_data` as written: only LZ4 and LZ4-HC packages produce a buffer. */
  function GetDataAsWritten(res: Resource, pkg: PackageEntry, file: Option<seq<byte>>,
                            decompress: (seq<byte>, nat) -> seq<byte>): (r: Option<seq<byte>>)
    ensures r.Some? <==> file.Some? && (HasFlag(pkg.flags, FLAG_COMPRESS_LZ4) || HasFlag(pkg.flags, FLAG_COMPRESS_LZ4_HC))
  {
    match file
    case None => None
    case Some(bytes) =>
      if HasFlag(pkg.flags, FLAG_COMPRESS_LZ4) || HasFlag(pkg.flags, FLAG_COMPRESS_LZ4_HC) then
        Some(decompress(ReadPadded(bytes, res.position, res.packedSize), res.size))
      else None
  }

  /**
    * `get_data` with uncompressed payloads read back as they were written: the raw
    * `size` bytes at the record's position. LZO payloads still have no decoder.
    */
  function GetData(res: Resource, pkg: PackageEntry, file: Option<seq<byte>>,
                   decompress: (seq<byte>, nat) -> seq<byte>): (r: Option<seq<byte>>)
    ensures file.None? || HasFlag(pkg.flags, FLAG_COMPRESS_LZO) ==> r.None?
    ensures file.Some? && !HasFlag(pkg.flags, FLAG_COMPRESS_LZO) &&
            (HasFlag(pkg.flags, FLAG_COMPRESS_LZ4) || HasFlag(pkg.flags, FLAG_COMPRESS_LZ4_HC)) ==>
      r == GetDataAsWritten(res, pkg, file, decompress)
    ensures file.Some? && !HasFlag(pkg.flags, FLAG_COMPRESS_LZO) && !HasFlag(pkg.flags, FLAG_COMPRESS_LZ4) &&
            !HasFlag(pkg.flags, FLAG_COMPRESS_LZ4_HC) ==>
      r == Some(ReadPadded(file.value, res.position, res.size))
  {
    match file
    case None => None
    case Some(bytes) =>
      if HasFlag(pkg.flags, FLAG_COMPRESS_LZO) then None
      else if HasFlag(pkg.flags, FLAG_COMPRESS_LZ4) || HasFlag(pkg.flags, FLAG_COMPRESS_LZ4_HC) then
        Some(decompress(ReadPadded(bytes, res.position, res.packedSize), res.size))
      else Some(ReadPadded(bytes, res.position, res.size))
  }

  /** An uncompressed package's payload is readable with the corrected `get_data` but not as written. */
  lemma GetDataAsWrittenSkipsUncompressed(res: Resource, path: string, version: u32, bytes: seq<byte>,
                                          decompress: (seq<byte>, nat) -> seq<byte>)
    ensures GetDataAsWritten(res, PackageEntry(path, 0, version), Some(bytes), decompress).None?
    ensures GetData(res, PackageEntry(path, 0, version), Some(bytes), decompress) == Some(ReadPadded(bytes, res.position, res.size))
  {
    assert !HasFlag(0, FLAG_COMPRESS_LZO) && !HasFlag(0, FLAG_COMPRESS_LZ4) && !HasFlag(0, FLAG_COMPRESS_LZ4_HC);
  }

  /** An SDL stream handed back by a request: a reopened file, a memory view, or NULL. */
  datatype RwStream = FileStream(path: string) | MemStream(bytes: seq<byte>, size: nat) | NullStream

  /** `SDL_RWFromMem`: NULL for a null buffer or a zero size. */
  function FromMem(buffer: Option<seq<byte>>, size: nat): RwStream
  {
    if buffer.None? || size == 0 then NullStream else MemStream(buffer.value, size)
  }

  /** The buffer `get_data` produces under each reading. */
  function Fetch(v: Reading, res: Resource, pkg: PackageEntry, file: Option<seq<byte>>,
                 decompress: (seq<byte>, nat) -> seq<byte>): Option<seq<byte>>
  {
    match v
    case AsWritten => GetDataAsWritten(res, pkg, file, decompress)
    case Intended => GetData(res, pkg, file, decompress)
  }

  /**
    * The request answer `s` with the index `a1` afterwards was served by entry `i`: it
    * carries the hash, only its cache may change, loose entries reopen their path and
    * packed entries are served from the cache, filled from the package when empty.
    */
  predicate ServedBy(v: Reading, a: Archive, hash: u32, i: nat, answer: (RwStream, Archive),
                     packageFile: nat -> Option<seq<byte>>, decompress: (seq<byte>, nat) -> seq<byte>)
    requires Valid(a) && i < |a.files|
  {
    var (s, a1) := answer;
    a.files[i].nameHash == hash && |a1.files| == |a.files| &&
    a1.files == a.files[i := a.files[i].(buffer := a1.files[i].buffer)] &&
    (!a.files[i].packed ==> s == FileStream(a.files[i].path) && a1 == a) &&
    (a.files[i].packed && a.files[i].buffer.Some? ==> a1 == a && s == FromMem(a.files[i].buffer, a.files[i].size)) &&
    (a.files[i].packed && a.files[i].buffer.None? ==>
       a1.files[i].buffer == Fetch(v, a.files[i], a.packages[a.files[i].package], packageFile(a.files[i].package), decompress) &&
       s == FromMem(a1.files[i].buffer, a.files[i].size))
  }

  /**
    * `asset_request_hash`: an unknown hash exits; a loose resource reopens its path
    * (a zero hash fails the assertion in `get_filepath_from_hash`); a packed one reuses
    * its cached buffer, or materialises and caches it. `packageFile(k)` is the contents
    * of package k's file, absent if it cannot be opened. On a sorted table every
    * registered non-zero hash is served.
    */
  function AssetRequestHash(v: Reading, a: Archive, hash: u32, packageFile: nat -> Option<seq<byte>>,
                            decompress: (seq<byte>, nat) -> seq<byte>): (r: Result<(RwStream, Archive), AssetError>)
    requires Valid(a)
    ensures SortedByHash(a.files) && (forall i :: 0 <= i < |a.files| ==> a.files[i].nameHash != hash) ==>
      r == Err(UnknownResource)
    ensures SortedByHash(a.files) && hash != 0 && (exists i :: 0 <= i < |a.files| && a.files[i].nameHash == hash) ==>
      r.Ok?
    ensures r.Err? ==> r == Err(UnknownResource) || (r == Err(ZeroHash) && hash == 0)
    ensures r.Ok? ==> r.value.1.packages == a.packages && r.value.1.filesNum == a.filesNum && |r.value.1.files| == |a.files|
    ensures r.Ok? ==> exists i :: 0 <= i < |a.files| && ServedBy(v, a, hash, i, r.value, packageFile, decompress)
  {
    match Lookup(a.files, hash)
    case None => Err(UnknownResource)
    case Some(i) =>
      var res := a.files[i];
      if !res.packed then
        if hash == 0 then Err(ZeroHash)
        else
          assert a.files == a.files[i := a.files[i].(buffer := a.files[i].buffer)];
          assert ServedBy(v, a, hash, i, (FileStream(res.path), a), packageFile, decompress);
          Ok((FileStream(res.path), a))
      else if res.buffer.Some? then
        assert a.files == a.files[i := a.files[i].(buffer := a.files[i].buffer)];
        assert ServedBy(v, a, hash, i, (FromMem(res.buffer, res.size), a), packageFile, decompress);
        Ok((FromMem(res.buffer, res.size), a))
      else
        var buffer := Fetch(v, res, a.packages[res.package], packageFile(res.package), decompress);
        var a' := a.(files := a.files[i := res.(buffer := buffer)]);
        assert ServedBy(v, a, hash, i, (FromMem(buffer, res.size), a'), packageFile, decompress);
        Ok((FromMem(buffer, res.size), a'))
  }

  /**
    * The two readings answer a request identically unless it materialises a packed
    * resource of a package without an LZ4 flag.
    */
  lemma RequestAsWrittenAgrees(a: Archive, hash: u32, packageFile: nat -> Option<seq<byte>>,
                               decompress: (seq<byte>, nat) -> seq<byte>)
    requires Valid(a)
    requires Lookup(a.files, hash).Some? ==>
      var res := a.files[Lookup(a.files, hash).value];
      !res.packed || res.buffer.Some? ||
      (!HasFlag(a.packages[res.package].flags, FLAG_COMPRESS_LZO) &&
       (HasFlag(a.packages[res.package].flags, FLAG_COMPRESS_LZ4) || HasFlag(a.packages[res.package].flags, FLAG_COMPRESS_LZ4_HC)))
    ensures AssetRequestHash(AsWritten, a, hash, packageFile, decompress) == AssetRequestHash(Intended, a, hash, packageFile, decompress)
  {
  }

  /**
    * As written, requesting a packed resource of an uncompressed package gives a NULL
    * stream and caches nothing; the corrected `get_data` serves the stored bytes.
    */
  lemma RequestAsWrittenUncompressed(a: Archive, hash: u32, packageFile: nat -> Option<seq<byte>>,
                                     decompress: (seq<byte>, nat) -> seq<byte>)
    requires Valid(a) && Lookup(a.files, hash).Some?
    requires var res := a.files[Lookup(a.files, hash).value];
      res.packed && res.buffer.None? && packageFile(res.package).Some? &&
      !HasFlag(a.packages[res.package].flags, FLAG_COMPRESS_LZO) && !HasFlag(a.packages[res.package].flags, FLAG_COMPRESS_LZ4) &&
      !HasFlag(a.packages[res.package].flags, FLAG_COMPRESS_LZ4_HC)
    ensures var res := a.files[Lookup(a.files, hash).value];
      AssetRequestHash(AsWritten, a, hash, packageFile, decompress) == Ok((NullStream, a)) &&
      AssetRequestHash(Intended, a, hash, packageFile, decompress).value.0 ==
        FromMem(Some(ReadPadded(packageFile(res.package).value, res.position, res.size)), res.size)
  {
    var i := Lookup(a.files, hash).value;
    assert a.files[i := a.files[i].(buffer := None)] == a.files;
  }

  /** A second request of a packed resource is served from the cache, with no new read. */
  lemma RequestCachesPayload(v: Reading, a: Archive, hash: u32, packageFile: nat -> Option<seq<byte>>,
                             other: nat -> Option<seq<byte>>, decompress: (seq<byte>, nat) -> seq<byte>)
    requires Valid(a)
    requires AssetRequestHash(v, a, hash, packageFile, decompress).Ok?
    requires var a1 := AssetRequestHash(v, a, hash, packageFile, decompress).value.1;
             var i := Lookup(a.files, hash).value;
             a.files[i].packed && a1.files[i].buffer.Some?
    ensures var (s1, a1) := AssetRequestHash(v, a, hash, packageFile, decompress).value;
      Valid(a1) && AssetRequestHash(v, a1, hash, other, decompress) == Ok((s1, a1))
  {
    var a1 := AssetRequestHash(v, a, hash, packageFile, decompress).value.1;
    var i := Lookup(a.files, hash).value;
    assert forall k :: 0 <= k < |a1.files| ==> a1.files[k].nameHash == a.files[k].nameHash && a1.files[k].packed == a.files[k].packed && a1.files[k].package == a.files[k].package;
    assert a1.files == a.files[i := a1.files[i]];
    assert Lookup(a1.files, hash) == Lookup(a.files, hash) by {
      LookupSameHashes(a.files, a1.files, hash, 0, |a.files|);
    }
  }

  /** The search only looks at hashes, so tables with the same hashes give the same answer. */
  lemma {:induction false} LookupSameHashes(f1: seq<Resource>, f2: seq<Resource>, hash: u32, lo: nat, hi: nat)
    requires |f1| == |f2| && lo <= hi <= |f1|
    requires forall k :: 0 <= k < |f1| ==> f1[k].nameHash == f2[k].nameHash
    ensures Search(f1, hash, lo, hi) == Search(f2, hash, lo, hi)
    decreases hi - lo
  {
    if lo < hi {
      var mid := (lo + hi) / 2;
      LookupSameHashes(f1, f2, hash, lo, mid);
      LookupSameHashes(f1, f2, hash, mid + 1, hi);
    }
  }

  // ---------------------------------------------------------------- housekeeping and queries

  /** `asset_process` as written: the loop stops one short, so the last entry keeps its buffer. */
  function AssetProcessAsWritten(a: Archive): (r: Archive)
    ensures r.packages == a.packages && r.filesNum == a.filesNum && |r.files| == |a.files|
    ensures forall i :: 0 <= i < |a.files| - 1 ==> r.files[i] == a.files[i].(buffer := None)
    ensures |a.files| > 0 ==> r.files[|a.files| - 1] == a.files[|a.files| - 1]
  {
    a.(files := seq(|a.files|, i requires 0 <= i < |a.files| =>
                      if i < |a.files| - 1 then a.files[i].(buffer := None) else a.files[i]))
  }

  /** A table whose only entry holds a cached payload keeps it after housekeeping. */
  lemma AssetProcessAsWrittenKeepsLast(res: Resource)
    requires res.buffer.Some?
    ensures AssetProcessAsWritten(Archive([], [res], 1)).files[0].buffer.Some?
  {
  }

  /** `asset_process` releasing the cached buffer of every entry, as housekeeping intends. */
  function AssetProcess(a: Archive): (r: Archive)
    ensures r.packages == a.packages && r.filesNum == a.filesNum && |r.files| == |a.files|
    ensures forall i :: 0 <= i < |a.files| ==> r.files[i] == a.files[i].(buffer := None)
  {
    a.(files := seq(|a.files|, i requires 0 <= i < |a.files| => a.files[i].(buffer := None)))
  }

  /** The description `asset_query_filelist` fills for each match. */
  datatype ResourceInfo = ResourceInfo(packed: bool, name: string, path: string, nameHash: u32, extHash: u32)

  function Info(r: Resource): ResourceInfo
  {
    ResourceInfo(r.packed, r.name, r.path, r.nameHash, r.extHash)
  }

  /** Whether a resource carries extension hash `h`. */
  function HasExtHash(h: u32): Resource -> bool
  {
    (r: Resource) => r.extHash == h
  }

  /** The descriptions of the resources, in order. */
  function Infos(rs: seq<Resource>): (infos: seq<ResourceInfo>)
    ensures |infos| == |rs|
    ensures forall k :: 0 <= k < |rs| ==> infos[k] == Info(rs[k])
  {
    seq(|rs|, k requires 0 <= k < |rs| => Info(rs[k]))
  }

  lemma InfosCons(r: Resource, rs: seq<Resource>)
    ensures Infos([r] + rs) == [Info(r)] + Infos(rs)
  {
  }

  /**
    * `asset_query_filelist`: the number of resources with extension hash `hash(ext)`,
    * and when `info` is supplied, their descriptions in table order.
    */
  function QueryFilelist(files: seq<Resource>, ext: string, hash: string -> u32, wantInfo: bool): (r: (nat, seq<ResourceInfo>))
    ensures r.0 == |Filter(files, HasExtHash(hash(ext)))|
    ensures wantInfo ==> r.1 == Infos(Filter(files, HasExtHash(hash(ext))))
    ensures !wantInfo ==> r.1 == []
  {
    if files == [] then (0, [])
    else
      var rest := QueryFilelist(files[1..], ext, hash, wantInfo);
      QueryStep(files, HasExtHash(hash(ext)));
      if files[0].extHash == hash(ext) then (rest.0 + 1, if wantInfo then [Info(files[0])] + rest.1 else [])
      else rest
  }

  /** One step of the query loop: the matches of a table are its first entry's, then the rest's. */
  lemma QueryStep(files: seq<Resource>, p: Resource -> bool)
    requires files != []
    ensures Filter(files, p) == (if p(files[0]) then [files[0]] else []) + Filter(files[1..], p)
    ensures p(files[0]) ==> Infos(Filter(files, p)) == [Info(files[0])] + Infos(Filter(files[1..], p))
    ensures !p(files[0]) ==> Infos(Filter(files, p)) == Infos(Filter(files[1..], p))
  {
    if p(files[0]) {
      InfosCons(files[0], Filter(files[1..], p));
    }
  }
}
