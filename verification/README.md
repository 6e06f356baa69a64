# neon-core in Dafny

A model of the core of the neon engine and its packer tool, with proofs about it.
Each module models one source file. All the modules are pure functions over sequences and records.

- **Archive format and packer** (`Package`, `Packer`, `Pipeline`):
  - the 16-byte package header and the 24-byte file records, with byte-level round trips;
  - the packer's flag parsing, directory scan and package writer;
  - the end-to-end property: a package the packer writes and the engine opens serves every file's contents back.
- **Asset index** (`Asset`):
  - packages and loose directories are registered into one resource table;
  - the table is sorted by name hash and binary-searched;
  - packed payloads are materialised on request, cached, and dropped by the housekeeping pass.
- **GPU resource tables** (`Resources`): fixed-capacity append tables, with textures de-duplicated by content hash.
- **Command buffers and render state** (`CommandBuffer`, `GlState`):
  - recorders append tagged commands and copy uniform values into a byte arena;
  - submission replays every buffer against an abstract GL state record;
  - each buffer's replay is bracketed by its render state and a reset to the defaults.
- **Integer geometry** (`Atlas`, `Glyphs`, `Sprite`, `Vertices`):
  - the guillotine rectangle packer of font atlases;
  - the sorted glyph cache;
  - sprite-batch bookkeeping;
  - vertex-buffer packing and the index arithmetic of the mesh generators.
- **Decoders and parsers** (`Targa`, `Wave`, `Wavefront`, `Configs`, `Lang`, `Shader`, `Reader`, `RwText`, `Tokenizer`, `Scan`):
  - the TGA loader and the WAVE loader;
  - the Wavefront OBJ loader;
  - configuration and language files;
  - shader `#version`/`#include` handling and name lists;
  - extension-based reader dispatch;
  - the stream line reader;
  - the engine's `strtok_r`;
  - the part of `sscanf` the OBJ loader uses.
- **Images and display modes** (`Images`, `Video`):
  - solid and checkerboard image generation, and the extension check of surface upload;
  - display-mode de-duplication and lookup, and window-flag selection.
- **Allocation tracker** (`MemTrack`): the live-block list, the counters and double-free detection of `lib/memtrack`.

`Wrappers`, `Bytes`, `Text`, `Seqs` and `FileSystem` are shared helpers. They provide:
- option and result types;
- little-endian integers;
- the C string primitives;
- sequence facts;
- directory listings.

Hash functions, compressors, file contents, directory listings, display queries and memory addresses are parameters.
The properties hold for every choice of them.
Process exits become error results.

Where the code does something other than its documented behaviour and the behaviour is harmless, the model follows the code:
- `SDL_WINDOW_FULLSCREEN_DESKTOP` includes the `SDL_WINDOW_FULLSCREEN` bit. So the full-screen bit is set when a dimension is -1, even with the fullscreen setting off (`Video.WindowFlags`).
- The packer zeroes an unreadable file's record except for its name and extension hashes. It writes those hashes before it tries the read (packer/src/main.c:108-117).
- A language line stores a value for any text that follows its key. The text does not have to be quoted, because `strtok_r` splits on the quote character itself (neon/src/core/lang.c:67-71).

Where the code is wrong, the model states both readings; the "## Findings" table lists these cases. One member models the code as written, and a lemma shows an input where it fails. The corrected member is what the rest of the model builds on. The asset operations `Asset.PackageOpen`, `Asset.AssetOpen` and `Asset.AssetRequestHash` take a `Reading` argument: `AsWritten` composes the helpers as written and `Intended` the corrected ones. The pipeline lemmas use `Intended`.

## Model

| member | source | states |
|---|---|---|
| `Package.FormatConstants` | neon/include/core/package.h:5-13 | The magic's bytes, least significant first, are 'P', 'K', 'G', 'A' (the word 0x41474B50), and each package flag is a single bit distinct from every other. |
| `Package.FlagsTestIndependently` | neon/include/core/package.h:8-13 | Setting one flag never changes the test of another, and the flag just set always tests as present. |
| `Package.HeaderRoundTrip` | neon/include/core/package.h:18-26 | Decoding the packed 16-byte header gives back the header that was encoded. |
| `Package.HeaderBytesRoundTrip` | neon/include/core/package.h:21-26 | Every 16 bytes are the encoding of the header they decode to, so the header format has no unused bit patterns. |
| `Package.RecordRoundTrip` | neon/include/core/package.h:28-35 | Decoding the packed 24-byte file record gives back the record that was encoded. |
| `Package.RecordBytesRoundTrip` | neon/include/core/package.h:28-35 | Every 24 bytes are the encoding of the record they decode to. |
| `Package.EncodeTable` | packer/src/main.c:119 | The table written by one `fwrite` of n records is 24·n bytes, and record i sits at bytes 24·i to 24·i+24. |
| `Package.DecodeTable` | neon/src/core/asset.c:141-143 | Reading n records yields n records, and record i is decoded from bytes 24·i to 24·i+24. |
| `Package.TableRoundTrip` | neon/src/core/asset.c:141-149 | The engine reads back the same record table the packer wrote. |
| `Packer.ParseFlagsSetsBitIffOptionGiven` | packer/src/main.c:211-233 | The -n, -plzo, -plz4 and -plz4hc options each set their flag bit, and a flag bit is set exactly when its option appears in argv. |
| `Packer.ParseFlags` | packer/src/main.c:211-233 | Option parsing sets no bits other than the four option flags. |
| `Packer.NoOptionNoFlags` | packer/src/main.c:211-233 | When no option is given, the parsed flags are zero. |
| `Packer.ChooseFlags` | packer/src/main.c:205-249 | Fewer than two arguments prints usage and writes nothing. With no option given, LZ4 is the default. When some option is given, the flags are exactly the parsed option bits. |
| `Packer.Scan` | packer/src/main.c:32-57 | Every recorded file is visible (its name does not start with '.'), and it carries the hash of its name and of its extension. |
| `Packer.ScanRecordsVisibleFiles` | packer/src/main.c:32-57 | The recording pass records exactly the visible files of the tree, in walk order, each with its name, its path and the hashes of its name and extension. |
| `Packer.CountMatchesScan` | packer/src/main.c:50-54 | The counting pass over the tree counts exactly the files the recording pass records, so the array allocated from the count fits them. |
| `Packer.Placeholders` | packer/src/main.c:108-117 | The first table written has one record per file, holding the file's hashes and zero in every other field. |
| `Packer.Overwrite` | packer/src/main.c:195-196 | Seeking back and rewriting the table replaces exactly those bytes and leaves the rest of the file as it was. |
| `Packer.PackageWrite` | packer/src/main.c:92-201 | The package is the header, then the final record table, then the payloads in file order; the size returned is the file's length. |
| `Packer.PayloadAt` | packer/src/main.c:121-188 | File i's stored bytes appear in the payload area at the sum of the stored sizes of the files before it. |
| `Packer.RecordAt` | packer/src/main.c:121-138 | The final record of file i describes file i at offset header + table + the payloads before it. |
| `Packer.PackageWriteLayout` | packer/src/main.c:99-196 | The first 16 bytes are the header, the next 24·n bytes are the final table, and the rest is the payloads. |
| `Packer.PackageWriteHeaderAndTable` | packer/src/main.c:99-106 | The header decodes to the magic, the version, the file count and the flags, and the table decodes to the final records. |
| `Packer.StoredInArchive` | packer/src/main.c:121-188 | Each file's stored bytes (raw or compressed) lie in the package at the position the record gives. |
| `Packer.PackageWriteRecord` | packer/src/main.c:121-191 | A file's final record keeps its hashes and has name size 0. An unreadable file's record is otherwise zero. A readable file's record locates its stored bytes: position, original size, and packed size (zero when uncompressed). |
| `Asset.ArchiveResize` | neon/src/core/asset.c:48-54 | The capacity grows by exactly one step of 1000 when it is at most the requested number, and is unchanged otherwise. |
| `Asset.ArchiveResizeTooSmall` | neon/src/core/asset.c:48-54 | A first package of 1001 files gets a 1000-slot table from `archive_resize`, one slot short. |
| `Asset.Reserve` | neon/src/core/asset.c:48-54 | The corrected reservation: unchanged when it already exceeds the count needed, otherwise grown in whole steps of 1000 until it exceeds that count. |
| `Asset.ReserveCoversArchiveResize` | neon/src/core/asset.c:137-149 | The corrected reservation is never smaller than the capacity `archive_resize` gives. |
| `Asset.AddPackageAsWritten` | neon/src/core/asset.c:56-72 | As written, registration fails only when more than ten packages are already registered. |
| `Asset.AddPackageAsWrittenOverflows` | neon/src/core/asset.c:58 | With ten packages registered, the guard as written accepts an eleventh into the ten-slot array. |
| `Asset.AddPackage` | neon/src/core/asset.c:56-72 | Registration fails exactly when all ten package slots are taken. Otherwise it appends the package and leaves the resource table alone. |
| `Asset.PackedResource` | neon/src/core/asset.c:90-106 | A packed resource is zeroed except for the record's hashes, position, sizes and name size, plus its package. |
| `Asset.PackedResources` | neon/src/core/asset.c:145-149 | One packed resource per record, in record order. |
| `Asset.ReadPadded` | neon/src/core/asset.c:118 | A read of n bytes yields n bytes, equal to the file's bytes whenever the file is long enough. |
| `Asset.PackageOpen` | neon/src/core/asset.c:108-156 | An unreadable file or a header without the magic or below version 0x0102 gives -1 with the index unchanged. An accepted header fails only on a full package table, and as written also when the records overrun the capacity `archive_resize` gives. A success returns 0 with the package appended and its packed resources after the old ones. |
| `Asset.PackageOpenRegisters` | neon/src/core/asset.c:116-156 | A header without the magic or below version 0x0102 is rejected. Otherwise the package is appended, the old resources are kept, and one packed resource per record follows. |
| `Asset.PackageOpenAccepted` | neon/src/core/asset.c:137-149 | For an accepted header, the new resource table is the old one followed by the packed resources of the decoded records. |
| `Asset.PackageOpenAsWrittenAgrees` | neon/src/core/asset.c:108-156 | Whenever the code as written succeeds, the corrected open succeeds with the same result code, packages and resources, and no smaller capacity. |
| `Asset.PackageOpenAsWrittenOverruns` | neon/src/core/asset.c:137-149 | When the records do not fit the capacity `archive_resize` gives, the code as written writes past the resource array, while the corrected open succeeds. |
| `Asset.AddResource` | neon/src/core/asset.c:74-88 | Adding fails when the table is full. Otherwise it appends one loose resource with the name's hash and the extension's hash. |
| `Asset.AddedAreLoose` | neon/src/core/asset.c:207-229 | Everything a walk adds is a loose resource with the hash of its name and of its extension. |
| `Asset.ListFilesRegisters` | neon/src/core/asset.c:207-229 | With at least 1000 slots and a table that fits them, a walk succeeds exactly when the visible files with an allowed extension (compared ignoring case) fit. It then appends them in walk order, and otherwise fails on the full table. |
| `Asset.DirectorySearch` | neon/src/core/asset.c:231-241 | The capacity grows as `archive_resize(filesNum, 999)` says. The scan succeeds exactly when the allowed visible files fit that capacity, and then yields exactly the old resources followed by those files in walk order. Otherwise it fails on the full table. |
| `Asset.CompareHash` | neon/src/core/asset.c:243-246 | The corrected comparator's sign is the unsigned order of the two hashes. |
| `Asset.CompareHashAsWrittenAgreesBelow` | neon/src/core/asset.c:243-246 | As written, the comparator agrees with the unsigned order whenever both hashes are below 0x80000000. |
| `Asset.CompareHashIsTotalOrder` | neon/src/core/asset.c:243-246 | The corrected comparator is antisymmetric, transitive and total, as `qsort` and `bsearch` need. |
| `Asset.CompareHashAsWrittenCycles` | neon/src/core/asset.c:243-246 | As written, the comparator puts 0 before 1, 1 before 0x80000000, and 0x80000000 before 0, which is a cycle. |
| `Asset.InsertByHash` | neon/src/core/asset.c:262-263 | Inserting into a sorted table keeps it sorted and adds exactly that one entry. |
| `Asset.SortByHash` | neon/src/core/asset.c:261-264 | The table after `qsort` is sorted by name hash and is a permutation of the table before. |
| `Asset.SortKeepsValid` | neon/src/core/asset.c:261-264 | Sorting keeps every packed resource pointing at a registered package. |
| `Asset.Search` | neon/src/core/asset.c:301-310 | The binary search only answers with an index that holds the hash. On a sorted table, no answer means no index in the range holds it. |
| `Asset.LookupFindsIffPresent` | neon/src/core/asset.c:345-349 | On a sorted table, a lookup succeeds exactly when some resource carries the hash. |
| `Asset.AssetOpen` | neon/src/core/asset.c:248-271 | A NULL path gives -1 with the index unchanged. Otherwise the open fails exactly when the scan or package open fails. A success keeps the result code, the packages and the capacity. When the code is not negative, the table is sorted by hash and is a permutation of the table the scan or open produced. A negative code leaves the index unchanged. |
| `Asset.OpenTarget` | neon/src/core/asset.c:255-259 | A failed directory scan or package open leaves the index unchanged. |
| `Asset.GetDataAsWritten` | neon/src/core/asset.c:161-189 | A buffer is produced exactly when the package opens and carries an LZ4 or LZ4-HC flag. |
| `Asset.GetData` | neon/src/core/asset.c:161-189 | Corrected: LZO packages give no buffer, LZ4 packages decompress as written, and uncompressed packages read `size` bytes at `position`. |
| `Asset.GetDataAsWrittenSkipsUncompressed` | neon/src/core/asset.c:175-188 | For a package with no flags, the code as written returns NULL, while the corrected reader returns the payload. |
| `Asset.AssetRequestHash` | neon/src/core/asset.c:342-372 | On a sorted table, a missing hash exits, and a present non-zero hash is served. Any error is that exit or the zero-hash assertion. A request keeps the packages, the capacity and the table length, and is served by a resource that holds the hash: a loose resource opens its path, a packed one is fetched or taken from its cache and then cached. |
| `Asset.RequestAsWrittenAgrees` | neon/src/core/asset.c:161-189 | When the resource requested is loose, already cached, or in an LZ4 package, the code as written and the corrected `get_data` answer the request alike. |
| `Asset.RequestAsWrittenUncompressed` | neon/src/core/asset.c:175-188 | For an uncached resource of an uncompressed package, the code as written returns a NULL stream with the index unchanged, while the corrected reading serves a memory stream over the stored bytes. |
| `Asset.RequestCachesPayload` | neon/src/core/asset.c:367-368 | A second request for a cached packed resource returns the same stream and index, whatever the package file now holds. |
| `Asset.LookupSameHashes` | neon/src/core/asset.c:305 | The search looks only at name hashes. |
| `Asset.AssetProcessAsWritten` | neon/src/core/asset.c:279-287 | Every entry but the last loses its buffer, and the last entry is kept unchanged. |
| `Asset.AssetProcessAsWrittenKeepsLast` | neon/src/core/asset.c:281 | A table whose only entry holds a buffer still holds it after housekeeping. |
| `Asset.AssetProcess` | neon/src/core/asset.c:279-287 | Corrected: every entry's buffer is released, and nothing else changes. |
| `Asset.QueryFilelist` | neon/src/core/asset.c:321-340 | The count is the number of resources whose extension hash is the hash of the extension asked for. With info requested, the info is that of exactly those resources, in table order. Without it, no info is produced. |
| `Pipeline.Registered` | neon/src/core/asset.c:145-149 | The engine registers one packed resource per packed file, built from that file's final record. |
| `Pipeline.WrittenHeaderAndTable` | neon/src/core/asset.c:116-143 | The engine's header and table reads of a written package yield the packer's header and final records. |
| `Pipeline.OpenDecodedPackage` | neon/src/core/asset.c:108-156 | A package whose header and table decode correctly opens into one package entry plus the packed resources of its records. |
| `Pipeline.WrittenPackageLoads` | neon/src/core/asset.c:108-156 | Every package the packer writes is accepted by `package_open` and registers every written file. |
| `Pipeline.OpenWrittenPackage` | neon/src/core/asset.c:248-271 | Opening a written package with `asset_open` yields the registered files sorted by hash. |
| `Pipeline.LookupFindsRegistered` | neon/src/core/asset.c:345-349 | With distinct name hashes, looking up a written file's hash finds that file's resource. |
| `Pipeline.FindsDistinct` | neon/src/core/asset.c:345-349 | In a sorted permutation of a table with distinct hashes, the lookup for an entry's hash finds that entry. |
| `Pipeline.RequestReturnsPackedContents` | neon/src/core/asset.c:342-372 | Given an LZ4 codec whose decompression inverts compression, requesting a written file from an opened package gives a memory stream over that file's original bytes. |
| `Pipeline.RequestReturnsStoredContents` | neon/src/core/asset.c:342-372 | For an uncompressed package, the corrected `get_data` serves the file's original bytes. |
| `Tokenizer.StrTok` | neon/include/core/common.h:22-42 | When only delimiters remain, no token is returned and the position is unchanged. Otherwise the position advances past the token. |
| `Tokenizer.TokenStart` | neon/include/core/common.h:27 | The leading delimiters are skipped. |
| `Tokenizer.StrTokIsMaximalRun` | neon/include/core/common.h:27-39 | The token is the non-empty, maximal run of non-delimiters after the skipped delimiters. The next position is past the delimiter that ends it, or the end of the string. |
| `Tokenizer.StrTokAt` | neon/include/core/common.h:27-39 | Conversely, any delimiters-then-run-then-delimiter layout is exactly what a call returns. |
| `Text.IndexOf` | neon/src/video/shader.c:463-467 | `strchr`: the first occurrence of a character at or after a position, or none. |
| `Text.LastIndexOf` | neon/src/core/asset.c:214 | `strrchr`: the last occurrence of a character, or none. |
| `Text.Find` | neon/src/video/shader.c:45 | `strstr`: the first occurrence of a pattern at or after a position, or none. |
| `Text.Extension` | neon/src/core/asset.c:214 | The extension is empty exactly when the name has no '.'. Otherwise it is the name's suffix that starts at the last '.' and contains no other '.'. |
| `Text.Span` | neon/include/core/common.h:27 | `strspn`: the length of the longest run of characters drawn from the set. |
| `Text.ComplementSpan` | neon/include/core/common.h:34 | `strcspn`: the length of the longest run of characters outside the set. |
| `Text.ReplaceFirst` | neon/src/video/shader.c:490 | `str_replace_once`: the first occurrence is replaced and the text around it is kept, or the text is unchanged when there is none. |
| `RwText.RwGetc` | neon/src/core/rwtext.c:13-17 | At the end of the stream it returns EOF and does not move. Otherwise it returns the next byte read as a signed `char` and advances by one. |
| `RwText.RwGetcByteFFIsEof` | neon/src/core/rwtext.c:13-17 | A 0xFF byte is returned as -1 and cannot be told apart from end of stream. |
| `RwText.Window` | neon/src/core/rwtext.c:21-22 | The read window is the next `count` bytes, or fewer at the end of the stream. |
| `RwText.RwGets` | neon/src/core/rwtext.c:20-41 | With a newline in the window, the line is the bytes before it, and the stream moves to just past the newline. With none, the result is an error, where the source computes its offset from a null pointer. |
| `RwText.ReadLines` | neon/src/core/rwtext.c:20-41 | Repeated `rwgets` yields lines shorter than the buffer. |
| `RwText.ReadLinesJoin` | neon/src/core/rwtext.c:20-41 | The lines read, each with its newline restored, followed by the unread rest, are exactly the stream's unread bytes. |
| `RwText.UnreadSplits` | neon/src/core/rwtext.c:24-38 | One successful read splits the unread bytes into the line, its newline, and what follows. |
| `RwText.ReadLinesOfJoin` | neon/src/core/rwtext.c:20-41 | A stream holding lines joined with newlines, each shorter than the buffer and free of newlines and NULs, is read back as exactly those lines, up to the end of the stream. |
| `RwText.NewlineAt` | neon/src/core/rwtext.c:24-26 | `strchr` stops at a newline when nothing before it is a newline or a NUL. |
| `Resources.EmptyTable` | neon/src/video/resources.c:9-15 | A table starts empty, and its count fits its capacity. |
| `Resources.Store` | neon/src/video/resources.c:87-145 | A plain store appends the object in slot `count` with usage 1, grows the count by one, and changes no other slot. A full table is an explicit error. |
| `Resources.FindByHash` | neon/src/video/resources.c:56-66 | Hash 0 is never found. Otherwise the result is the first stored texture with that hash, or none when no stored texture has it. |
| `Resources.FindFrom` | neon/src/video/resources.c:61-65 | The scan from a given slot finds the first match at or after it. |
| `Resources.StoreTexture` | neon/src/video/resources.c:68-85 | A texture whose non-zero hash is already stored bumps the first match's usage and returns it, with nothing else changed. Any other texture is appended like a plain store. |
| `Resources.ZeroHashTextureAppends` | neon/src/video/resources.c:58-59 | A texture with hash 0 is always appended as a new slot. |
| `Resources.StoredTextureIsFound` | neon/src/video/resources.c:68-85 | After storing a texture with a non-zero hash, looking that hash up returns the slot the store returned. |
| `Resources.StoreNeverDecrementsUsage` | neon/src/video/resources.c:68-145 | No store lowers the usage of an existing slot, and plain stores leave every existing usage unchanged. |
| `Resources.StoreVerticesBuffers` | neon/src/video/resources.c:147-153 | The vertices buffer and then the elements buffer are appended to the buffer table, and one vertex array to the array table. The result is the new array's slot, and the other tables are unchanged. |
| `Resources.ReleasedSlots` | neon/src/video/resources.c:23-45 | Cleanup visits exactly the slots with a non-zero id, in increasing order. |
| `Resources.Cleanup` | neon/src/video/resources.c:21-49 | For each of the six id-holding tables, a slot is released exactly when its id is non-zero, whatever its usage, and no slot past the table is released. Every shader slot is released unconditionally. |
| `Resources.InReleasesOf` | neon/src/video/resources.c:21-47 | A release appears in the tables' cleanup exactly when some table of that kind has the slot among its slots with a non-zero id. |
| `Resources.TableReleasesNamed` | neon/src/video/resources.c:21-47 | A table whose kind no other table shares has exactly its named slots released, whatever is released for other kinds. |
| `CommandBuffer.UniformSize` | neon/src/video/commandbuffer.c:11-39 | Only the seven known types have a non-zero size. Every size is a multiple of 4 bytes and at most 64. |
| `CommandBuffer.UniformSizesAreComponentCounts` | neon/src/video/commandbuffer.c:14-36 | The sizes are 4, 4, 8, 12, 16, 36 and 64 bytes: one 4-byte value per component. |
| `CommandBuffer.NewBuffer` | neon/src/video/commandbuffer.c:188-200 | A new buffer has no commands, offset 0, flags 0, and a 65536-byte arena whatever size was requested. |
| `CommandBuffer.Record` | neon/src/video/commandbuffer.c:315-442 | A recorder appends exactly its command and leaves the arena, the offset and every earlier command unchanged. Recording past 512 commands is an explicit error. |
| `CommandBuffer.DrawArrayCommand` | neon/src/video/commandbuffer.c:332-343 | `draw_array_command` appends a draw-arrays command with first 0. |
| `CommandBuffer.Write` | neon/src/video/commandbuffer.c:454 | The copy places the bytes at the offset and leaves every other arena byte unchanged. |
| `CommandBuffer.UniformCommand` | neon/src/video/commandbuffer.c:444-467 | A negative location records nothing. Otherwise the bytes are copied to the current offset, one uniform command with that offset, size and count is appended, and the offset advances by exactly the size. A copy that would overrun the arena is an error (the corrected guard). |
| `CommandBuffer.UniformGuardAsWrittenOverruns` | neon/src/video/commandbuffer.c:448-454 | The guard as written admits a 64-byte matrix at offset 65532, which writes 60 bytes past the arena. Such an offset is reachable with one earlier uniform. |
| `CommandBuffer.Apply` | neon/src/video/commandbuffer.c:315-467 | Any recorder call keeps the buffer well formed. |
| `CommandBuffer.RecordAll` | neon/src/video/commandbuffer.c:315-467 | A sequence of recorder calls keeps the buffer well formed. |
| `CommandBuffer.RecordAllKeeps` | neon/src/video/commandbuffer.c:315-467 | Later recordings never change earlier commands or the arena bytes already written. |
| `CommandBuffer.UniformDataSurvives` | neon/src/video/commandbuffer.c:444-467 | A recorded uniform's command and bytes survive any later recordings. |
| `CommandBuffer.ClearBuffers` | neon/src/video/commandbuffer.c:222-232 | Clearing zeroes the command count, the offset and both binding counters of every buffer, and changes nothing else. |
| `CommandBuffer.ClearedIsValid` | neon/src/video/commandbuffer.c:222-232 | A cleared buffer is well formed again. |
| `CommandBuffer.Execute` | neon/src/video/commandbuffer.c:249-306 | Executing one command adds exactly that command's effects to the log, clears and draws tagged with the current render state, which no command changes. A viewport, draw-buffer, framebuffer, target, shader, texture or vertex-array bind updates exactly its part of the state: a texture bind sets the active unit, that unit's texture for the target and its sampler, and keeps the other textures. Clears, draws and uniforms change nothing but the log. |
| `CommandBuffer.Run` | neon/src/video/commandbuffer.c:246-307 | Executing a buffer's commands in recorded order keeps the render state, logs their trace under it, and changes the program only through a shader bind. |
| `CommandBuffer.TraceRunsUnder` | neon/src/video/commandbuffer.c:246-307 | Every clear and draw of a buffer's trace runs under the render state in force when the commands run. |
| `CommandBuffer.TracePrefix` | neon/src/video/commandbuffer.c:246-307 | The effects of the first commands are a prefix of the effects of all commands, so replay keeps recorded order. |
| `CommandBuffer.TraceAt` | neon/src/video/commandbuffer.c:246-307 | Command k's effects appear in the trace right after the effects of the commands before it. |
| `CommandBuffer.RecordedUniformReplayed` | neon/src/video/commandbuffer.c:71-96 | A recorded uniform, replayed after any later recordings, is dispatched with exactly the bytes it was recorded with. |
| `CommandBuffer.UniformInTrace` | neon/src/video/commandbuffer.c:303-305 | A uniform command reads its bytes from the arena at its recorded offset. |
| `CommandBuffer.ApplyStates` | neon/src/video/commandbuffer.c:132-186 | With the no-states bit set, the state is untouched. Otherwise the buffer's blend, rasterizer and depth-stencil states are applied in that order. |
| `CommandBuffer.ApplyDefaultStates` | neon/src/video/commandbuffer.c:98-130 | With the no-states bit set, the state is untouched. Otherwise blend, cull, depth test and depth clamp are off, the depth mask is on, the fill mode is FILL and framebuffer 0 is bound. The program is unbound if a shader was bound. Stencil is cleared only when the buffer enabled it; otherwise the stencil test and its operations are kept. |
| `CommandBuffer.TallyOfSnoc` | neon/src/video/commandbuffer.c:267-297 | The tally of one more command is the previous tally bumped by that command's kind. |
| `CommandBuffer.Replay` | neon/src/video/commandbuffer.c:246-307 | The command loop ends in the context of executing the commands in recorded order: the render state is kept, the log grows by the commands' effects under it, and the tallies are the buffer's shader binds, texture binds and non-instanced element draws. |
| `CommandBuffer.SubmitBuffer` | neon/src/video/commandbuffer.c:239-309 | One buffer's submission logs its commands' effects in order, every clear and draw under the state `apply_states` set from the buffer's own blocks. The context afterwards is the defaults applied over that run, so the render state left is the restored one. The binding counters grow by the number of bind commands, draws count only non-instanced element draws, and nothing else in the buffer changes. The defaults are restored afterwards unless the no-states bit is set. When they are restored and the buffer's shader-binding counter is non-zero, the program is unbound. |
| `CommandBuffer.StatesIsolated` | neon/src/video/commandbuffer.c:98-186 | Once a buffer with states on has restored the defaults, the next buffer draws with blend, cull, fill mode, discard, depth test, depth mask and depth clamp set by its own blocks over the defaults, or at the defaults when its states are off, whatever ran before. |
| `CommandBuffer.Submit` | neon/src/video/commandbuffer.c:234-313 | Submission replays the buffers before the first missing one, in array order. The log grows by their traces in that order, each buffer's clears and draws under the state its own blocks set over what the buffers before it left. The render state ends as the last of them left it, and the draw counter ends at their non-instanced element draws. Each of them has its bind counters grown by its binds. Buffers from the first gap on are untouched, and the defaults are restored after the last buffer unless it has the no-states bit. |
| `CommandBuffer.SubmitAll` | neon/src/video/commandbuffer.c:238-310 | The loop over the reached buffers: their traces, their draws and the render state each leaves accumulate in array order, and each comes back replayed. |
| `CommandBuffer.SubmitNext` | neon/src/video/commandbuffer.c:238-310 | One turn of the loop: the next buffer's trace is logged under its draw state, its draws counted, its render state left, and it comes back replayed. |
| `GlState.SetColorBlend` | neon/src/video/state.c:5-14 | A disabled blend state changes nothing. An enabled one turns blending on with its factors and touches nothing else. |
| `GlState.SetRasterizer` | neon/src/video/state.c:16-33 | Culling is enabled only for a cull mode other than NONE, the polygon mode is set only for a fill mode other than NONE, and discard only ever turns on. |
| `GlState.SetDepthStencil` | neon/src/video/state.c:35-69 | The depth mask and depth clamp always follow the state. Depth test and stencil change only when enabled. Nothing else changes. |
| `GlState.ClearColorBlend` | neon/src/video/state.c:71-74 | Blending is off afterwards, and nothing else changes. |
| `GlState.ClearRasterizer` | neon/src/video/state.c:76-83 | The fill mode is FILL and discard and culling are off afterwards, and nothing else changes. |
| `GlState.KeepOps` | neon/src/video/state.c:94 | All three stencil operations become KEEP, and the function, reference and mask are kept. |
| `GlState.ClearDepthStencil` | neon/src/video/state.c:85-96 | The depth mask is on, depth test, clamp and stencil are off, and the stencil ops are KEEP. Nothing else changes. |
| `GlState.ClearsAreIdempotent` | neon/src/video/state.c:71-96 | Clearing twice is clearing once, and a full clear always reaches the cleared state. |
| `GlState.ClearsUndoSetters` | neon/src/video/state.c:5-96 | Clearing after any setters reaches the cleared state, whatever was set. |
| `Atlas.Leaves` | neon/src/core/atlas.c:57-64 | A tree has at least one leaf, and its leaves, listed left to right, are all leaf nodes. |
| `Atlas.Alloc` | neon/src/core/atlas.c:95-134 | The root covers (0, 0, width, height), is a single free leaf, and no rectangle is used. |
| `Atlas.InsertSpec` | neon/src/core/atlas.c:50-88 | An insertion keeps the tree a valid tiling of the same rectangle. A refusal changes nothing. A placement returns an image-sized rectangle inside a leaf that was free and adds exactly that rectangle to the used ones. |
| `Atlas.InsertFirstFit` | neon/src/core/atlas.c:50-88 | An insertion is refused exactly when no free leaf is large enough. A placement is the image-sized rectangle at the top-left corner of the first such leaf, left to right. |
| `Atlas.InsertSplitSpec` | neon/src/core/atlas.c:57-64 | An inner node tries its left child first. When the left child places the image, that is the answer and the right child is untouched. Otherwise the answer is the right child's and the left child is unchanged. The insertion contract holds. |
| `Atlas.InsertLeafSpec` | neon/src/core/atlas.c:66-87 | A used or too small leaf refuses and is unchanged. An exact fit is marked used and returned whole. Any other fit splits along the larger leftover into two positive-sized children that tile the leaf. The first of the new leaves is the used image-sized corner rectangle, and the others are free. |
| `Atlas.LeavesInside` | neon/src/core/atlas.c:77-85 | Every leaf lies inside its tree's rectangle. |
| `Atlas.LeavesDisjoint` | neon/src/core/atlas.c:77-85 | The leaves of a valid tree are pairwise disjoint. |
| `Atlas.UsedAreLeaves` | neon/src/core/atlas.c:72-75 | Every used rectangle is a used leaf. |
| `Atlas.PlacementIsFresh` | neon/src/core/atlas.c:50-88 | A placement was not used before, and it overlaps no used rectangle. |
| `Atlas.AtlasAdd` | neon/src/core/atlas.c:160-175 | A failure returns the all-zero rectangle with the atlas unchanged. A success returns (x+p, y+p, w, h) inside the padded placement and records the placement as used. |
| `Glyphs.CompareGlyph` | neon/src/core/glyphs.c:24-30 | The comparator is zero exactly on equal keys, and its sign follows the lexicographic (character, group) order. |
| `Glyphs.Insert` | neon/src/core/glyphs.c:150-152 | Inserting into a sorted cache keeps it sorted and adds exactly that glyph. |
| `Glyphs.Sort` | neon/src/core/glyphs.c:150-152 | The sorted cache is ordered by (character, group) and is a permutation of the glyphs. |
| `Glyphs.Search` | neon/src/core/glyphs.c:169-175 | The binary search answers only with a matching glyph. On a sorted cache, no answer means no glyph in the range matches. |
| `Glyphs.Find` | neon/src/core/glyphs.c:169-175 | `glyph_cache_find` returns a glyph with that character and group, or none when the sorted cache has none. |
| `Glyphs.FindIffPresent` | neon/src/core/glyphs.c:169-175 | On a sorted cache, the lookup succeeds exactly when a matching glyph exists. |
| `Glyphs.FontSize` | neon/src/core/glyphs.c:185-192 | The size of the first group with that number, or 0 when there is none. |
| `Glyphs.FontLineskip` | neon/src/core/glyphs.c:194-201 | The line skip of the first group with that number, or 0 when there is none. |
| `Glyphs.CharWidth` | neon/src/core/glyphs.c:203-210 | A non-zero width is the advance of a matching glyph, and a missing glyph gives 0. On a sorted cache with a matching glyph, the width is the advance of a matching glyph, namely the one the lookup returns. |
| `Glyphs.AppendGlyphs` | neon/src/core/glyphs.c:34-70 | A font contributes at most one glyph per character of its cache string, only for characters its face can render, each tagged with the font's group. |
| `Glyphs.Gather` | neon/src/core/glyphs.c:92-98 | Groups are numbered 0, 1, 2, … in build order with their face's height and line skip. Every glyph's group is the index of the font it came from. |
| `Glyphs.GatheredAtMostChars` | neon/src/core/glyphs.c:126-148 | A build never gathers more glyphs than its cache strings have characters. |
| `Glyphs.SlotsAsWrittenSpanUnwritten` | neon/src/core/glyphs.c:126-151 | As written, a character the face lacks leaves a counted slot unwritten, and a second build doubles the count. The sort and search then span slots no glyph was written to. |
| `Glyphs.Build` | neon/src/core/glyphs.c:105-155 | With the slot count taken from the glyphs actually appended, the cache is exactly the gathered glyphs, sorted, with the groups numbered in build order. |
| `Glyphs.BuildTagsGlyphsWithTheirFont` | neon/src/core/glyphs.c:60-63 | Every cached glyph's group is a font of the build, and the glyph came from that font's string. |
| `Glyphs.NumberedLookups` | neon/src/core/glyphs.c:185-201 | On groups numbered by position, the size and line-skip lookups index directly, and give 0 outside the range. |
| `Glyphs.BuiltGroupLookups` | neon/src/core/glyphs.c:92-98 | After a build, the size and line skip of group n are those of font n, and 0 for any other number. |
| `Sprite.Corner` | neon/src/video/sprite.c:50-56 | The six corners of a quad are 0, 1, 2, 0, 2, 3. |
| `Sprite.NewBatch` | neon/src/video/sprite.c:42-62 | A new batch has zero counters and no vertices, and quad i of its index array holds 4i+{0,1,2,0,2,3} for every i below the capacity. |
| `Sprite.IndicesBelowVertexSlots` | neon/src/video/sprite.c:49-57 | Every stored index is below 4·capacity. |
| `Sprite.NoWrapBelowSixteenBits` | neon/src/video/sprite.c:49-57 | When 4·capacity fits in 16 bits, the stored indices are exact. |
| `Sprite.LargeBatchWraps` | neon/src/video/sprite.c:49-57 | Above 16384 sprites, the 16-bit index of quad 16384 wraps to 0. |
| `Sprite.SubmitVertices` | neon/src/video/sprite.c:75-87 | Submitting appends the four vertices at `vertices_count` and adds 4, 6 and 1 to the three counters, keeping vertices = 4·count and indices = 6·count. The index array is untouched. |
| `Sprite.Uploads` | neon/src/video/sprite.c:105-110 | Only non-empty batches are uploaded, each with its vertex count. |
| `Sprite.Draws` | neon/src/video/sprite.c:122-132 | Only non-empty batches are drawn, each with its texture and its index count. |
| `Sprite.Reset` | neon/src/video/sprite.c:123-139 | A drawn batch has its three counters zeroed, and a skipped batch is unchanged. |
| `Sprite.SubmitBatches` | neon/src/video/sprite.c:103-145 | Submission resets every batch as its draw pass says. |
| `Sprite.DrawsCoverNonEmpty` | neon/src/video/sprite.c:105-140 | A batch is drawn with 6·count indices exactly when it holds a sprite, and then its 4·count vertices are uploaded. |
| `Sprite.SubmitLeavesBatchesEmpty` | neon/src/video/sprite.c:137-139 | After submission every batch is empty and well formed. |
| `Vertices.VertexSize` | neon/src/video/vertices.c:44-71 | exactly the four vertex formats have a size: 12, 24, 20 and 32 bytes (3, 6, 5 and 8 floats); any other format has none |
| `Vertices.IndexSize` | neon/src/video/vertices.c:81-92 | exactly `IF_UI16` and `IF_UI32` have an index size, 2 and 4 bytes |
| `Vertices.DrawCount` | neon/src/video/vertices.c:42 | an object draws its index count when it has indices, otherwise its vertex count; zero only for an object with neither |
| `Vertices.BytesMatchCounts` | neon/src/video/vertices.c:44-95 | when every object's arrays hold its counted elements, the concatenated buffers are the element size times the summed counts |
| `Vertices.PrefixBytes` | neon/src/video/vertices.c:73-95 | the buffers and counts of the first i objects are a prefix of, and at most, those of all objects |
| `Vertices.PrefixFits` | neon/src/video/vertices.c:73-113 | when the whole buffers fit in 32 bits, so do every prefix's byte sizes and counts, so no running offset wraps |
| `Vertices.SumsSnoc` | neon/src/video/vertices.c:73-113 | moving to the next object adds exactly its counts and appends exactly its bytes |
| `Vertices.NewVerticesBuffers` | neon/src/video/vertices.c:10-113 | no data gives an empty description; an unknown vertex or index format is reported; otherwise the buffers are all objects' bytes back to back, and object i records its draw count, base vertex, base index and byte offsets as the sums over the objects before it |
| `Vertices.PackedObjectAtOffset` | neon/src/video/vertices.c:105-113 | object i's vertex and index bytes sit, unchanged, at its recorded offsets in the shared buffers |
| `Vertices.Store16` | neon/src/video/vertices.c:361-372 | storing into `uint16_t` keeps every index below 65536 unchanged and never raises one |
| `Vertices.Cell` | neon/src/video/vertices.c:363-370 | a cell is its six pattern offsets added to the cell's base vertex |
| `Vertices.Row` | neon/src/video/vertices.c:362-371 | a row of cells has six indices per cell, all between the row's base and its last cell's highest vertex |
| `Vertices.Cells` | neon/src/video/vertices.c:361-372 | rows·cols cells give six indices each, all at most the last cell's highest vertex |
| `Vertices.JoinRows` | neon/src/video/vertices.c:361-372 | appending a row whose indices lie below a bound to earlier rows below a lower bound keeps every index below the new bound |
| `Vertices.Cube` | neon/src/video/vertices.c:179-310 | the cube has 24 vertices and 36 `uint16_t` triangle indices |
| `Vertices.QuadPlane` | neon/src/video/vertices.c:279-281 | the quad has 4 vertices and the 6 indices 0 3 1, 1 3 2 |
| `Vertices.RibbonIndices` | neon/src/video/vertices.c:583-591 | segment k's indices are the quad pattern shifted by 4k |
| `Vertices.RibbonIndicesBelow` | neon/src/video/vertices.c:583-591 | every index of n ribbon segments addresses one of its 4n vertices |
| `Vertices.RibbonStep` | neon/src/video/vertices.c:583-591 | one more segment appends exactly the next quad's six indices |
| `Vertices.Ribbon` | neon/src/video/vertices.c:540-613 | n segments give 4n vertices and 6n indices, every index addresses a vertex, and each segment's indices are the quad pattern shifted by 4 per segment while they fit in 16 bits |
| `Vertices.CubeIsSixQuads` | neon/src/video/vertices.c:219-226 | the cube's index table is six quads, each the quad pattern shifted by 4 |
| `Vertices.FixedMeshesDrawable` | neon/src/video/vertices.c:219-310 | every index the cube and the quad draw addresses one of their vertices |
| `Vertices.SpherePattern` | neon/src/video/vertices.c:363-370 | the sphere's cell reaches at most one ring and one sector beyond its base vertex |
| `Vertices.SphereAsWritten` | neon/src/video/vertices.c:354-389 | as written: rings·sectors vertices, rings·sectors cells of indices, a draw count of rings·(sectors-1)·6 and no index format |
| `Vertices.SphereAsWrittenReadsPastVertices` | neon/src/video/vertices.c:361-389 | with 2 rings of 3 sectors the drawn indices include 6, past the 6 vertices, so the mesh is not drawable |
| `Vertices.Sphere` | neon/src/video/vertices.c:354-389 | the intended sphere: (rings-1)·(sectors-1) cells, every drawn index addresses one of the rings·sectors vertices, `uint16_t` declared |
| `Vertices.TorusPattern` | neon/src/video/vertices.c:482-493 | the torus face reaches at most one stack and one slice beyond its base vertex |
| `Vertices.Torus` | neon/src/video/vertices.c:434-497 | (stacks+1)·(slices+1) vertices, stacks·slices·6 indices, each addressing a vertex |
| `Vertices.GridPattern` | neon/src/video/vertices.c:672-678 | the grid cell reaches at most one row and one column beyond its base vertex |
| `Vertices.StripRow` | neon/src/video/vertices.c:653-667 | a strip row has two indices per column, all within the two vertex rows it joins |
| `Vertices.StripRows` | neon/src/video/vertices.c:653-667 | rows strip rows give rows·2·(cols+1) indices, each below the vertex count |
| `Vertices.GridPlane` | neon/src/video/vertices.c:616-716 | (rows+1)·(cols+1) vertices; a strip draws rows·2·(cols+1) indices, triangles draw rows·6·cols; every index addresses a vertex |
| `Scan.Digits` | neon/src/core/wavefront.c:365 | the decimal digits of n are non-empty digits whose value is n |
| `Scan.Render` | neon/src/core/wavefront.c:365 | a rendered integer is non-empty, an optional leading minus followed by digits |
| `Scan.DigitRun` | neon/src/core/wavefront.c:365 | the longest run of digits at the start of a string |
| `Scan.SpaceRun` | neon/src/core/wavefront.c:365 | the longest run of white space at the start of a string, which `%d` skips |
| `Scan.ScanInt` | neon/src/core/wavefront.c:365 | a `%d` conversion consumes at least one character and stops before a digit can follow |
| `Scan.ScanRendered` | neon/src/core/wavefront.c:365-374 | `%d` reads back a rendered integer, consuming exactly its text, when no digit follows |
| `Scan.Sscanf` | neon/src/core/wavefront.c:86-90 | `sscanf` yields at most one value per conversion, stopping at the first literal or conversion that fails |
| `Scan.SscanfLiteral` | neon/src/core/wavefront.c:86-90 | a literal character of the format consumes the same character of the input |
| `Scan.SscanfConversion` | neon/src/core/wavefront.c:86-90 | a conversion consumes a rendered integer and yields it before the rest |
| `Scan.SscanfPrint` | neon/src/core/wavefront.c:365-407 | scanning text printed with a format gives back exactly the printed values |
| `Wavefront.Code` | neon/src/core/wavefront.c:86-93 | each face layout reports one of the four vertex formats the packer knows |
| `Wavefront.PatternOf` | neon/src/core/wavefront.c:86-90 | each layout's `sscanf` format starts and ends with a conversion and separates conversions by literals |
| `Wavefront.PatternConversions` | neon/src/core/wavefront.c:365-407 | the formats of `v`, `v/t`, `v//n` and `v/t/n` convert 1, 2, 2 and 3 numbers |
| `Wavefront.Slots` | neon/src/core/wavefront.c:365-407 | each conversion of a layout fills position, texture or normal, the first always the position |
| `Wavefront.SscanfLiteralMismatch` | neon/src/core/wavefront.c:86-90 | a literal the input does not start with stops the scan with nothing converted |
| `Wavefront.SscanfConversionFails` | neon/src/core/wavefront.c:86-90 | a conversion facing a slash stops the scan with nothing converted |
| `Wavefront.ClassifyV3T2N3` | neon/src/core/wavefront.c:86-87 | a corner `a/b/c` is classified as the three-number layout |
| `Wavefront.ClassifyV3N3` | neon/src/core/wavefront.c:86-89 | a corner `a//c` converts only `a` under `%d/%d/%d` and is classified by its `//` |
| `Wavefront.ClassifyV3T2` | neon/src/core/wavefront.c:86-91 | a corner `a/b` converts two numbers under both `%d/%d/%d` and `%d/%d`, holds no `//`, and is classified as `v/t` |
| `Wavefront.ClassifyV3` | neon/src/core/wavefront.c:86-93 | a lone number converts one number under both formats and is classified as `v` |
| `Wavefront.ClassifyCorner` | neon/src/core/wavefront.c:86-93 | the classification recovers the layout a corner was written in |
| `Wavefront.SlotIndex` | neon/src/core/wavefront.c:365-407 | where a corner number sits among a layout's conversions, or past them when the layout lacks it |
| `Wavefront.CarriesIffSlot` | neon/src/core/wavefront.c:365-407 | a layout carries a number exactly when one of its conversions fills it |
| `Wavefront.Assign` | neon/src/core/wavefront.c:365-412 | after `sscanf`, converted numbers take the new values and the others keep theirs |
| `Wavefront.FaceTokens` | neon/src/core/wavefront.c:363-405 | a face line yields three corner tokens split at spaces and newlines; a missing token reads as the empty text |
| `Wavefront.FaceFromCorners` | neon/src/core/wavefront.c:410-414 | a face's three corners are the numbers given for them |
| `Wavefront.FaceOfCorners` | neon/src/core/wavefront.c:410-414 | a face is rebuilt exactly from its three corners |
| `Wavefront.Kind` | neon/src/core/wavefront.c:67-83 | only a line starting with `f` is a face line |
| `Wavefront.ParseFace` | neon/src/core/wavefront.c:362-414 | every face line reads as a face of three corners |
| `Wavefront.Restrict` | neon/src/core/wavefront.c:302-303 | a layout keeps every number it carries and reads the others as 0 |
| `Wavefront.CornerIsToken` | neon/src/core/wavefront.c:363 | a written corner is a non-empty token free of spaces and newlines |
| `Wavefront.CornerChars` | neon/src/core/wavefront.c:363 | a written corner holds no newline, NUL or space |
| `Wavefront.FaceLineChars` | neon/src/core/wavefront.c:59-61 | a written face line holds no newline and no NUL, so `rwgets` can hand it over whole |
| `Wavefront.NextToken` | neon/src/core/wavefront.c:363-405 | `strtok_r` after delimiters returns the next maximal token and resumes past its delimiter, or at the end of the line when the token ends it |
| `Wavefront.FaceTokensOfText` | neon/src/core/wavefront.c:363-405 | a written face line is a face line whose tokens are its three corners |
| `Wavefront.ScanOwnPattern` | neon/src/core/wavefront.c:368-406 | a corner read under its own layout's format gives back its numbers |
| `Wavefront.FirstCornerText` | neon/src/core/wavefront.c:365-398 | the first corner, through whichever scans its classification runs, yields every number it wrote |
| `Wavefront.AssignCornerValues` | neon/src/core/wavefront.c:302-414 | storing a written corner's numbers into zeros gives the corner restricted to its layout |
| `Wavefront.ParseFaceLineText` | neon/src/core/wavefront.c:362-414 | a written face line reads back as its face restricted to its layout, classified as that layout |
| `Wavefront.CountOf` | neon/src/core/wavefront.c:59-99 | the first pass counts at most one line per line read |
| `Wavefront.ParsedFaces` | neon/src/core/wavefront.c:296-419 | the second pass stores exactly one face per face line |
| `Wavefront.ParsedTriangles` | neon/src/core/wavefront.c:296-419 | every face read has three corners |
| `Wavefront.LastFormat` | neon/src/core/wavefront.c:83-97 | the first pass has a layout exactly when the file has a face line |
| `Wavefront.Read` | neon/src/core/wavefront.c:51-133 | a file without a face line is fatal; otherwise at least one face is read |
| `Wavefront.Lines` | neon/src/core/wavefront.c:296-298 | a written file has one line per declaration |
| `Wavefront.KindOfLineText` | neon/src/core/wavefront.c:67-98 | every written line is read as the kind it was written as, a face with its own layout |
| `Wavefront.ReadLinesOf` | neon/src/core/wavefront.c:51-419 | reading a written file gives the declared counts, its faces restricted to their layouts and the last face's layout |
| `Wavefront.ReadWritten` | neon/src/core/wavefront.c:51-419 | the round trip of a whole file: read back as written, and fatal exactly when it declares no face |
| `Wavefront.Expand` | neon/src/core/wavefront.c:176-251 | three vertices per face expanded |
| `Wavefront.IdentityIndices` | neon/src/core/wavefront.c:256-268 | index i is i stored as `unsigned short` |
| `Wavefront.BuildAsWritten` | neon/src/core/wavefront.c:167-268 | as written: one face fewer than read, three vertices and indices for each |
| `Wavefront.Build` | neon/src/core/wavefront.c:167-268 | the intended builders: three vertices per face, vertex j is corner j mod 3 of face j/3 with every attribute from its own array |
| `Wavefront.BuildInRangeIffNumbered` | neon/src/core/wavefront.c:177-250 | every built vertex references an existing element exactly when the faces' numbers lie within the arrays |
| `Wavefront.BuildDrawable` | neon/src/core/wavefront.c:256-268 | below 65536 vertices the indices are the identity and every drawn index addresses a built vertex |
| `Wavefront.LoadLinesAsWritten` | neon/src/core/wavefront.c:271-459 | as written, on the lines read: fatal exactly without a face line, otherwise three vertices for every face line but the last |
| `Wavefront.LoadAsWritten` | neon/src/core/wavefront.c:271-459 | as written, on a stream: a null stream is -1; a last line without a newline is an error; otherwise fatal exactly when the lines `rwgets` yields with a 256-byte buffer hold no face line, and three vertices for every face line of them but the last |
| `Wavefront.LoadLines` | neon/src/core/wavefront.c:271-459 | on the lines read: fatal exactly without a face line; otherwise three vertices per face line |
| `Wavefront.ReadFile` | neon/src/core/wavefront.c:271-298 | the lines both passes read: a null stream is -1, an unterminated last line an error, otherwise exactly the lines `rwgets` yields to the end of the stream with a 256-byte buffer |
| `Wavefront.Load` | neon/src/core/wavefront.c:271-459 | on a stream: a null stream is -1; a last line without a newline is an error; otherwise fatal exactly when the lines `rwgets` yields with a 256-byte buffer hold no face line, and three vertices per face line of them |
| `Wavefront.Written` | neon/src/core/wavefront.c:51-419 | what both passes read from a written file with a face: its declared counts, faces and last layout, with at least one face of three corners |
| `Wavefront.LoadWrittenFile` | neon/src/core/wavefront.c:271-459 | the round trip through the stream: a written file whose lines fit the 256-byte buffer is read back line for line, both loaders build from what was written, and a file without a face is fatal |
| `Wavefront.DeclaredSnoc` | neon/src/core/wavefront.c:67-82 | one more line adds one to exactly the count of its kind |
| `Wavefront.FacesOfSnoc` | neon/src/core/wavefront.c:83-97 | one more face line appends its restricted face and becomes the layout |
| `Wavefront.SampleRead` | neon/src/core/wavefront.c:51-419 | a one-position, two-normal file with two `v//n` faces reads as those counts and faces |
| `Wavefront.SampleBuilds` | neon/src/core/wavefront.c:167-206 | on that file the written builder keeps one face and takes the normal from positions element 1, which does not exist; the intended one keeps both faces and takes normals element 1 |
| `Wavefront.WavefrontAsWrittenDropsFaceAndMisreadsNormals` | neon/src/core/wavefront.c:171-202 | loading that numbered file from a stream as written yields 3 vertices and a normal past the one position; as intended, 6 vertices with the normal from the normals array |
| `Wavefront.SampleCounts` | neon/src/core/wavefront.c:67-82 | the sample file declares one position, two normals and no texture coordinates |
| `Wavefront.SampleFaces` | neon/src/core/wavefront.c:83-97 | the sample file's two faces restricted to `v//n`, which is its layout |
| `Wavefront.SampleLoads` | neon/src/core/wavefront.c:271-459 | both loaders accept the sample file and build from the same read |
| `Wavefront.SampleReadable` | neon/src/core/wavefront.c:59-61 | every line of the sample file fits the 256-byte buffer |
| `Wavefront.SampleFaceLine` | neon/src/core/wavefront.c:362-405 | the sample's face line is `f 1//2 1//2 1//2` |
| `Targa.EncodeHeader` | neon/include/core/targa.h:21-38 | the packed header is 18 bytes |
| `Targa.DecodeEncodeHeader` | neon/src/core/targa.c:19-21 | reading the first 18 bytes of an encoded header gives back every field, whatever follows |
| `Targa.EncodeDecodeHeader` | neon/src/core/targa.c:19-21 | any 18 bytes are the encoding of the header read from them |
| `Targa.Take` | neon/src/core/targa.c:39-46 | a read of n bytes fills n bytes: the stream's first n when it has them |
| `Targa.Skip` | neon/src/core/targa.c:32-46 | a read advances the stream by n bytes or to its end |
| `Targa.Repeat` | neon/src/core/targa.c:41-44 | a run stores its pixel n times |
| `Targa.PacketCount` | neon/src/core/targa.c:35 | a packet covers 1 to 128 pixels |
| `Targa.Decoded` | neon/src/core/targa.c:37-48 | a packet of `count` pixels stores `count` pixels' bytes |
| `Targa.RleBound` | neon/src/core/targa.c:31-50 | the bounded decoder stores at most width·height pixels |
| `Targa.RleFirstRun` | neon/src/core/targa.c:37-44 | a run packet within the image decodes to its pixel repeated and leaves the stream after it |
| `Targa.RleFirstRaw` | neon/src/core/targa.c:45-48 | a raw packet within the image decodes to its bytes and leaves the stream after them |
| `Targa.RleFirstPacket` | neon/src/core/targa.c:31-50 | the first packet of an encoding decodes to its pixels, then decoding resumes after it |
| `Targa.RleEncodePackets` | neon/src/core/targa.c:27-53 | decoding the encoding of packets that cover the image gives back their pixels, whatever follows them |
| `Targa.Formats` | neon/src/core/targa.c:99-113 | exactly 8, 24 and 32 bits per pixel set the GL formats |
| `Targa.Buffer` | neon/src/core/targa.c:24 | the pixel buffer has its full capacity and holds the stored bytes from its start |
| `Targa.ImageOf` | neon/src/core/targa.c:117-123 | the image takes the header's size and depth, reports the capacity width·height·(bpp/8+1), no mipmaps, unsigned bytes |
| `Targa.LoadTargaAsWritten` | neon/src/core/targa.c:10-126 | as written: no stream and a short header are errors; otherwise the image plus the number of bytes stored past the buffer |
| `Targa.Written` | neon/src/core/targa.c:27-57 | the bounded pixel data never exceeds the buffer |
| `Targa.LoadTarga` | neon/src/core/targa.c:10-126 | no stream and a short header are errors; otherwise the image of the bounded pixel data |
| `Targa.WrittenRle` | neon/src/core/targa.c:27-53 | type 10 pixel data is the run-length decoding of width·height pixels |
| `Targa.LoadWritten` | neon/src/core/targa.c:10-126 | a file is its header plus body: both loaders build the image from the header and the bytes its body yields |
| `Targa.LoadEncodedRle` | neon/src/core/targa.c:27-53 | the round trip: a type 10 file of encoded packets covering the image loads as exactly their pixels, then zeros |
| `Targa.RawKeepsIdentification` | neon/src/core/targa.c:54-57 | types 2 and 3 store the whole rest of the file from the buffer's start, identification field and colour map included |
| `Targa.TargaRleAsWrittenOverruns` | neon/src/core/targa.c:31-48 | one pixel whose packet is a 128-pixel run: as written 126 bytes land past a 2-byte buffer; bounded, the one pixel is stored |
| `Targa.TargaRawAsWrittenOverruns` | neon/src/core/targa.c:54-57 | a raw body longer than the buffer is stored whole as written, one byte past the end; bounded, it is cut |
| `Targa.OneRunAsWritten` | neon/src/core/targa.c:35-44 | as written, a 128-pixel run packet stores all 128 pixels whatever the image size |
| `Targa.OneRunBounded` | neon/src/core/targa.c:31-44 | bounded by a one-pixel image, the same packet stores one pixel |
| `Wave.Int16` | neon/src/core/wave.c:16-21 | a `short` field is the two's-complement reading of its 16 bits, which stores back to the same bits |
| `Wave.AlFormat` | neon/src/core/wave.c:76-86 | exactly mono or stereo with 8 or 16 bits sets a format, the four AL formats in that order; anything else leaves it unset |
| `Wave.DataOffset` | neon/src/core/wave.c:56-59 | the `data` header follows the 24-byte format chunk, two bytes further when its size exceeds 16 |
| `Wave.LoadAfterRiff` | neon/src/core/wave.c:49-90 | a sound is accepted only after a `fmt ` tag and a `data` tag at its offset, and its samples are exactly the size bytes after the data header |
| `Wave.LoadWaveAsWritten` | neon/src/core/wave.c:30-91 | as written: no stream is an error, and an accepted header has one of its two tags right |
| `Wave.LoadWave` | neon/src/core/wave.c:30-91 | no stream is an error; a sound needs both "RIFF" and "WAVE"; with both right the rest of the file decides |
| `Wave.RiffAsWrittenIff` | neon/src/core/wave.c:43-47 | the check as written accepts exactly the headers with one tag right, so it accepts everything the intended check does |
| `Wave.FormatChunk` | neon/src/core/wave.c:12-22 | the format chunk is 24 bytes |
| `Wave.RiffHeader` | neon/src/core/wave.c:5-10 | the RIFF header is 12 bytes |
| `Wave.FormatFields` | neon/src/core/wave.c:41-57 | an encoded file carries the tags, the chunk size, channels, rate and sample width where the loader reads them |
| `Wave.DataFields` | neon/src/core/wave.c:59-68 | an encoded file's data header and samples sit where the loader reads them |
| `Wave.LoadEncodeWave` | neon/src/core/wave.c:30-91 | the round trip: an encoded sound loads back as its format, rate, size and samples, by both loaders |
| `Wave.WaveAsWrittenAcceptsNonWave` | neon/src/core/wave.c:43-47 | a RIFF file of form "AVI " loads as a sound as written and is rejected when both tags are required |
| `Configs.ScanNumber` | neon/src/core/configs.c:58-63 | the scan succeeds exactly when every character it looks at, at most 200, is a number character |
| `Configs.IsInt` | neon/src/core/configs.c:49-66 | a token is an integer exactly when it exists and its first 200 characters are digits or minus signs |
| `Configs.IsFloat` | neon/src/core/configs.c:68-85 | a token is a float exactly when it exists and its first 200 characters are digits, dots or minus signs |
| `Configs.IntIsFloat` | neon/src/core/configs.c:49-85 | every integer token also passes the float test, but "." is a float and not an integer |
| `Configs.Atoi` | neon/src/core/configs.c:133 | `atoi` of a run of digits is its decimal value |
| `Configs.Truncate` | neon/src/core/configs.c:36 | `strncpy` into a fixed field keeps a prefix of at most the field's size, the whole string when it fits |
| `Configs.Typed` | neon/src/core/configs.c:132-138 | an integer token becomes an int, otherwise a float token a float; anything else is a string, truncated to the string limit; a missing token is a string setting with no value |
| `Configs.ParseLine` | neon/src/core/configs.c:118-142 | a comment line or a line of delimiters adds nothing; an item is keyed by the first token's hash and truncated text and valued by the second token |
| `Configs.LoadLines` | neon/src/core/configs.c:114-143 | loading appends at most one item per line and keeps the items already there |
| `Configs.LoadConfig` | neon/src/core/configs.c:103-148 | a file that cannot be opened is an error; otherwise the file's lines are read in full and loaded |
| `Configs.FindItem` | neon/src/core/configs.c:87-101 | the first item with the hash, or none exactly when no item has it |
| `Configs.Lookup` | neon/src/core/configs.c:173-209 | a key is found exactly when some item has its hash, and the first such item's value is returned |
| `Configs.ConfigsInt` | neon/src/core/configs.c:173-184 | the first matching item's int, or 0 when none matches or it is not an int |
| `Configs.ConfigsFloat` | neon/src/core/configs.c:186-197 | the first matching item's float, or zero when none matches or it is not a float |
| `Configs.ConfigsString` | neon/src/core/configs.c:199-209 | the first matching item's string, or NULL when none matches or it is not a string |
| `Configs.EarlierItemWins` | neon/src/core/configs.c:140-141 | duplicates are not checked: items loaded later never shadow an earlier key |
| `Configs.TwoWords` | neon/src/core/configs.c:122-130 | `key value` tokenizes into its two words |
| `Configs.RenderIsWord` | neon/src/core/configs.c:49-66 | a rendered integer is a token that passes the integer test |
| `Configs.ParseWords` | neon/src/core/configs.c:118-142 | `key value` parses as the item keyed by the key's hash and truncated text, valued by the typed word |
| `Configs.TypedRender` | neon/src/core/configs.c:132-133 | a rendered integer is stored as that int |
| `Configs.ParseSettingLine` | neon/src/core/configs.c:118-142 | a written setting line parses back as its item |
| `Configs.LoadLinesStep` | neon/src/core/configs.c:114-143 | a line that parses appends its item before the rest is loaded |
| `Configs.LoadSettings` | neon/src/core/configs.c:114-143 | the round trip: loading written settings appends exactly their items, in order |
| `Configs.FindAppended` | neon/src/core/configs.c:87-101 | an appended item whose hash is new is the one found |
| `Configs.ConfigsIntReadsSetting` | neon/src/core/configs.c:103-184 | after loading the line `name n` into a store without that hash, `configs_int(name)` is n |
| `Configs.DashIsInt` | neon/src/core/configs.c:49-85 | "-" passes the integer test and reads as 0; "." is a float |
| `Lang.Entry` | neon/src/core/lang.c:57-71 | comment lines and lines whose first token starts with '#' have no entry; an entry is the first token and the next run of non-quote characters |
| `Lang.Unescape` | neon/src/core/lang.c:76 | unescaping never lengthens the text |
| `Lang.Escape` | neon/src/core/lang.c:76 | escaping writes no newline and only backslashes, n and the text's characters |
| `Lang.UnescapeEscape` | neon/src/core/lang.c:76 | the round trip: unescaping an escaped text without backslashes gives it back |
| `Lang.Dictionary` | neon/src/core/lang.c:53-82 | at most one item per line |
| `Lang.LoadLang` | neon/src/core/lang.c:41-94 | a null stream is an error that keeps the dictionary; otherwise the dictionary is that of the file's lines |
| `Lang.LoadLangDiscards` | neon/src/core/lang.c:48-49 | loading discards the previous dictionary: it has no influence on the result |
| `Lang.FindKey` | neon/src/core/lang.c:100-105 | the first item with the hash, or none exactly when no item has it |
| `Lang.LangGet` | neon/src/core/lang.c:96-110 | NULL exactly when no item has the id's hash; otherwise the first such item's text |
| `Lang.PhraseLineLayout` | neon/src/core/lang.c:61-67 | a written phrase line is the key, a space and the escaped text in quotes |
| `Lang.PhraseLineKey` | neon/src/core/lang.c:61 | the key token of a written phrase line is its key |
| `Lang.PhraseLineValue` | neon/src/core/lang.c:67 | the value token of a written phrase line is its escaped text |
| `Lang.EntryOfPhraseLine` | neon/src/core/lang.c:57-71 | a written phrase line reads back as its key and escaped text |
| `Lang.PhraseLines` | neon/src/core/lang.c:53-55 | one line per phrase |
| `Lang.DictionaryCons` | neon/src/core/lang.c:53-82 | the first written phrase gives the first item, before the rest |
| `Lang.PhraseItems` | neon/src/core/lang.c:72-79 | item i holds phrase i's key, text, key hash, key length and escaped text length |
| `Lang.DictionaryOfPhrases` | neon/src/core/lang.c:41-94 | the round trip: the dictionary of written phrases is exactly their items, in order |
| `Lang.FindKeyIs` | neon/src/core/lang.c:100-105 | the search returns the first index holding the hash |
| `Lang.LangGetWrittenPhrase` | neon/src/core/lang.c:41-110 | looking up a written phrase whose hash no earlier phrase shares gives back its text |
| `Lang.LangGetNameAsWritten` | neon/src/core/lang.c:112-118 | as written: only indices above the count are rejected, so index count reads past the table |
| `Lang.LangGetName` | neon/src/core/lang.c:112-118 | the intended check: a slot exactly for indices below the count, holding that language's name; never past the table |
| `Lang.LangGetNameAsWrittenReadsPastTable` | neon/src/core/lang.c:114 | index count reads past the table as written and is NULL when checked; every other index agrees |
| `Lang.LangSelect` | neon/src/core/lang.c:130-139 | the first language with the name and its file, or 0 and no file exactly when none has it; a missing name never matches |
| `Lang.LangSelectZeroIsAmbiguous` | neon/src/core/lang.c:130-139 | an unknown name returns the same index as the first language, which only the file loaded tells apart |
| `Lang.ReadNameLoopSnoc` | neon/src/core/lang.c:156-177 | one more line updates the name only when it is a `lang_name` entry |
| `Lang.ReadNameIsLast` | neon/src/core/lang.c:156-177 | reading front to back ends with the last `lang_name` entry |
| `Lang.LangReadName` | neon/src/core/lang.c:146-182 | NULL for a null stream; otherwise the value of the file's last `lang_name` entry |
| `Shader.DefinitionsPosition` | neon/src/video/shader.c:44-57 | nonzero exactly when a `#version` has a newline after it, and then just past the first such newline |
| `Shader.InsertDefinitions` | neon/src/video/shader.c:66-68 | inserting the definitions adds exactly their length |
| `Shader.DefinitionsAfterVersionLine` | neon/src/video/shader.c:44-68 | the definitions go right after the line of the first `#version` |
| `Shader.DefinitionsWithoutVersion` | neon/src/video/shader.c:44-68 | without `#version` the definitions go first |
| `Shader.NamesCopy` | neon/src/video/shader.c:405-408 | the copied list is a prefix of the names of at most 200 characters |
| `Shader.Words` | neon/src/video/shader.c:412-422 | at most `limit` words |
| `Shader.ShaderNamesAsWritten` | neon/src/video/shader.c:403-423 | as written: up to four names for the three slots |
| `Shader.ShaderNames` | neon/src/video/shader.c:403-423 | the intended split: at most one name per slot |
| `Shader.JoinedIsAt` | neon/src/video/shader.c:412-422 | a list joined by single spaces has each name where the tokenizer finds it |
| `Shader.FirstWord` | neon/src/video/shader.c:412 | the first token of a joined list is its first name, and the tokenizer resumes past its space |
| `Shader.WordsOfJoined` | neon/src/video/shader.c:412-422 | splitting a joined list gives back its first `limit` names |
| `Shader.ShaderNamesOfList` | neon/src/video/shader.c:403-423 | the round trip: a list that fits the buffer splits into its first three names, four as written |
| `Shader.ShaderNamesAsWrittenOverflows` | neon/src/video/shader.c:415-419 | four names store a fourth past the three slots as written; the intended split keeps the first three |
| `Shader.ChosenSnoc` | neon/src/video/shader.c:521-541 | a later name with the extension replaces the earlier choice; another name keeps it |
| `Shader.Classify` | neon/src/video/shader.c:517-542 | each stage gets the last name with its extension |
| `Shader.ChosenIsLast` | neon/src/video/shader.c:521-541 | a stage has a name exactly when some name has its extension, and then no later name has it |
| `Shader.CheckIncludeFrom` | neon/src/video/shader.c:436-482 | an accepted directive's line starts with `#include`, ends at a newline, and names a non-empty file without quotes |
| `Shader.CheckInclude` | neon/src/video/shader.c:436-482 | the intended check accepts only a space or a quote right after `#include` |
| `Shader.CheckIncludeAsWritten` | neon/src/video/shader.c:436-482 | as written, every directive the intended check accepts is accepted with the same name and line; the space check starts one past the directive |
| `Shader.IncludeLineLayout` | neon/src/video/shader.c:436-466 | a written directive line is `#include`, a space, and the name in quotes |
| `Shader.IncludeLineSearches` | neon/src/video/shader.c:438-460 | the newline and both quotes are found at their places in a written directive |
| `Shader.CheckIncludeLine` | neon/src/video/shader.c:436-482 | a written directive is accepted by both checks, naming its file with its line as origin |
| `Shader.CheckIncludeAgrees` | neon/src/video/shader.c:451-458 | the two checks agree whenever the character after `#include` is a space, a quote or a newline |
| `Shader.IncludeAsWrittenSkipsCharacter` | neon/src/video/shader.c:451 | `#includeX"a"` is accepted as written, because the space check starts one past the directive, and rejected when checked |
| `Shader.ExpandNothing` | neon/src/video/shader.c:433-499 | a text without directives from the search start comes out unchanged |
| `Shader.LoadWithoutIncludes` | neon/src/video/shader.c:425-502 | a text without directives loads unchanged |
| `Shader.FindDirectiveLine` | neon/src/video/shader.c:436-490 | the search finds a written directive, and its line first occurs there |
| `Shader.ReplaceDirectiveLine` | neon/src/video/shader.c:490 | replacing the directive line puts the file's text in its place, keeping the newline |
| `Shader.ExpandStep` | neon/src/video/shader.c:436-498 | one directive is replaced by its file's text and the search moves on 8 characters |
| `Shader.ExpandSingle` | neon/src/video/shader.c:425-502 | one directive is replaced by its file's text, by both checks |
| `Shader.ExpandNested` | neon/src/video/shader.c:425-502 | a directive inside an included file is expanded in turn when the search has not passed it |
| `Shader.NestedAtStartIsKept` | neon/src/video/shader.c:491-498 | a directive at the start of a file included at the start of the text stays unexpanded |
| `Shader.LoadTextAsWritten` | neon/src/core/text.c:16-26 | as written, an empty file gives NULL and any other gives all its bytes but the last |
| `Shader.LoadText` | neon/src/core/text.c:16-26 | read whole: an empty file gives NULL and any other gives exactly its bytes |
| `Shader.IncludeOnLastLineLosesNewline` | neon/src/video/shader.c:436-480 | a shader whose last line is a directive with its newline: as written the newline is not read and the directive has no line end, an error here; read whole, the directive is replaced by its file's text |
| `Shader.QueriedName` | neon/src/video/shader.c:171-173 | the queried name is a prefix of the variable's name of at most 78 characters |
| `Shader.UniformName` | neon/src/video/shader.c:209-220 | an array uniform's stored name is cut at its '[' |
| `Shader.ProgramUniforms` | neon/src/video/shader.c:193-237 | one uniform per active uniform, in order |
| `Shader.ProgramAttributes` | neon/src/video/shader.c:155-191 | one attribute per active attribute, in order |
| `Shader.FindHash` | neon/src/video/shader.c:579-581 | the first variable with the hash, or none exactly when none has it |
| `Shader.GetLocation` | neon/src/video/shader.c:572-614 | the first variable with the name's hash gives its location; -1 when none has it |
| `Shader.UniformType` | neon/src/video/shader.c:616-626 | the first uniform with the name's hash gives its type; 0 when none has it |
| `Shader.ArrayUniformByBaseName` | neon/src/video/shader.c:215-223 | an array uniform is found by its base name, not by `name[0]` |
| `Shader.VariableByName` | neon/src/video/shader.c:572-614 | a uniform or attribute with a short name is found by that name, when no earlier one shares its hash |
| `Reader.FindReader` | neon/src/core/reader.c:46-47 | the index of the first table entry whose extension equals the name's extension ignoring letter case; none exactly when no entry matches |
| `Reader.TextOutcome` | neon/src/core/reader.c:50-58 | a failed reader gives -1; a successful one stores its text and size with capacity one more than the size |
| `Reader.ReadTextAsWritten` | neon/src/core/reader.c:39-62 | no matching entry is the no-reader error; with a match the reader of entry 0 runs, whichever entry matched |
| `Reader.ReadText` | neon/src/core/reader.c:39-62 | no matching entry is the no-reader error; with a match the reader of the first matching entry runs |
| `Reader.ReadTextureAsWritten` | neon/src/core/reader.c:64-85 | no matching entry is the no-reader error; with a match entry 0's loader runs and its failure is the read error |
| `Reader.ReadTexture` | neon/src/core/reader.c:64-85 | no matching entry is the no-reader error; with a match the matched entry's loader runs, failing exactly when it fails and otherwise returning its image |
| `Reader.TextureEntryZeroHarmless` | neon/src/core/reader.c:23-27 | both texture entries name the TGA loader, so the as-written texture dispatch equals the corrected one for every name |
| `Reader.ShaderExtensionsAgree` | neon/src/core/reader.c:12-17 | for ".frag", ".vert", ".geom" and ".glsl" the as-written and corrected text dispatches agree, and only the reader can fail |
| `Reader.UpperCaseExtensionMatches` | neon/src/core/reader.c:46-47 | "SHADER.VERT" finds the ".vert" entry: extensions match whatever their letter case |
| `Reader.LuaReadByShaderLoader` | neon/src/core/reader.c:19-21 | "init.lua" matches the ".lua" plain-text entry, yet the as-written dispatch runs the shader-text loader on it |
| `Reader.LuaReadAsWrittenFails` | neon/src/core/reader.c:50 | with a plain-text loader that succeeds and a shader loader that fails, the as-written read of "init.lua" fails while the corrected one succeeds |
| `Images.RowOf` | neon/src/core/image.c:98-101 | a row holds width pixels, pixel i of row j being the generator's pixel (i, j) |
| `Images.GridSize` | neon/src/core/image.c:96 | a generated buffer holds width·height pixels |
| `Images.GridAt` | neon/src/core/image.c:98-101 | the buffer is row-major: pixel (i, j) sits at index j·width + i |
| `Images.Scale` | neon/src/core/image.c:120-123 | multiplying each channel by the comparison result keeps the colour for 1 and gives black for 0 |
| `Images.CheckPixel` | neon/src/core/image.c:119-123 | a checker pixel is the colour exactly when one of the masked coordinates is zero and the other is not, black otherwise |
| `Images.CheckSymmetricPeriodic` | neon/src/core/image.c:119 | the checkerboard is symmetric in its coordinates and repeats every 256 pixels, since the mask is a byte |
| `Images.CheckCells` | neon/src/core/image.c:115-123 | with mask 8 the cells are 8 pixels wide: (0,0) and (8,8) are black, (8,0) and (0,8) coloured |
| `Images.FillRow` | neon/src/core/image.c:99-101 | the inner loop produces exactly the row of the pixel function |
| `Images.Fill` | neon/src/core/image.c:98-101 | the nested loops produce exactly the row-major grid of the pixel function |
| `Images.GenerateColor` | neon/src/core/image.c:94-111 | width, height and 24 bits per pixel are recorded, size is width·height·3 bytes, and every one of the width·height pixels is the colour |
| `Images.SolidGrid` | neon/src/core/image.c:98-101 | every pixel of a solid grid is the colour |
| `Images.GenerateCheck` | neon/src/core/image.c:113-134 | width, height, 24 bits per pixel and a size of width·height·3 bytes, with the checker pixel at every position |
| `Images.CheckerboardPixels` | neon/src/core/image.c:113-134 | pixel (i, j) of a generated checkerboard is the colour or black exactly as its masked coordinates say |
| `Images.UploadSurface` | neon/src/core/image.c:9-47 | NULL exactly for a name without '.', exit exactly for any other extension than ".tga", otherwise a surface with the loaded image (or the zeroed one on failure) and pitch (bpp/8)·width |
| `Images.UploadIsCaseSensitive` | neon/src/core/image.c:16-24 | "SKY.TGA" exits while "sky.tga" creates a surface and "sky" gives NULL |
| `Video.DisplayModeCheck` | neon/src/core/video.c:22-29 | true exactly when one of the first n modes equals the mode field for field |
| `Video.FirstIndex` | neon/src/core/video.c:101-107 | the position of the first occurrence of a mode |
| `Video.FirstIndexSnoc` | neon/src/core/video.c:101-107 | appending a mode does not move the first occurrence of a mode already present |
| `Video.DedupSpec` | neon/src/core/video.c:100-107 | the de-duplicated list is no longer than the input, lists no mode twice, holds exactly the input's modes, and keeps them in order of first occurrence |
| `Video.Queried` | neon/src/core/video.c:85-96 | n modes, mode i being the display's mode i or the zeroed mode when that query fails |
| `Video.GetDisplayModes` | neon/src/core/video.c:74-108 | no list exactly for a negative count; otherwise the queried modes de-duplicated, at most n of them, all distinct, and the zeroed mode present whenever a query failed |
| `Video.FindDisplayMode` | neon/src/core/video.c:110-121 | the index of the first mode of that width and height, or 0 when none has them |
| `Video.WindowFlags` | neon/src/core/video.c:170-176 | borderless and OpenGL are always set; the desktop bit exactly when a dimension is -1; full screen exactly when the setting is on or a dimension is -1; no other bit |
| `Video.DesktopSizeIsFullscreen` | neon/src/core/video.c:170-176 | a -1 width gives a full-screen desktop window even with the fullscreen setting off |
| `MemTrack.Addrs` | lib/memtrack/src/memtrack.c:86-92 | the addresses of the live blocks, in list order |
| `MemTrack.Find` | lib/memtrack/src/memtrack.c:142-143 | the first live block at that address; none exactly when no live block is there |
| `MemTrack.Unlink` | lib/memtrack/src/memtrack.c:152-161 | an unknown address leaves the list alone; otherwise the found block is removed and the others keep their order |
| `MemTrack.SumWithout` | lib/memtrack/src/memtrack.c:164 | removing one block takes exactly its size off the total |
| `MemTrack.UnlinkRemovesOne` | lib/memtrack/src/memtrack.c:152-161 | the list without the block, plus the block, is the same multiset as the list |
| `MemTrack.UnlinkDistinct` | lib/memtrack/src/memtrack.c:152-161 | unlinking keeps the addresses of the live blocks distinct |
| `MemTrack.Malloc` | lib/memtrack/src/memtrack.c:71-104 | a failed allocation changes nothing; otherwise the new block is pushed at the head with the next block index, both totals grow by its size, the call counter by one, and the tracker stays valid |
| `MemTrack.Free` | lib/memtrack/src/memtrack.c:137-174 | NULL is ignored; a freed address is reported as a double free and any other unknown address as an invalid free, with nothing changed; a live block is unlinked, its address marked freed, its size taken off the total and the free counter raised |
| `MemTrack.Release` | lib/memtrack/src/memtrack.c:152-164 | releasing removes exactly the found block, marks its address freed and keeps the tracker valid |
| `MemTrack.ReleaseValid` | lib/memtrack/src/memtrack.c:152-164 | the tracker's invariant (distinct live addresses, none freed, totals matching the live sizes) survives a release |
| `MemTrack.FreeUndoesMalloc` | lib/memtrack/src/memtrack.c:71-174 | freeing a fresh allocation restores the live list and the current total, while the lifetime total and both counters advance |
| `MemTrack.SecondFreeReported` | lib/memtrack/src/memtrack.c:143-146 | freeing the same pointer twice is reported as a double free and changes nothing |
| `MemTrack.Strdup` | lib/memtrack/src/memtrack.c:106-122 | the copy is a new block of the string's length plus one holding the string and its terminator; a failed allocation changes nothing |
| `MemTrack.Overwrite` | lib/memtrack/src/memtrack.c:129 | writing into the head block replaces its first bytes and leaves everything else as it was |
| `MemTrack.Move` | lib/memtrack/src/memtrack.c:124-132 | the new block heads the list holding the copied bytes, followed by the old list without the old block; the old address is freed and not live; the total changes by the size difference; the lifetime total grows by the new size, the allocation and free counters and the block index by one each |
| `MemTrack.ReallocAsWritten` | lib/memtrack/src/memtrack.c:124-135 | NULL is a plain allocation; with a pointer, a failed allocation is the copy into NULL, and shrinking a block is exactly the case that overruns the new block |
| `MemTrack.Realloc` | lib/memtrack/src/memtrack.c:124-135 | NULL is a plain allocation; with a pointer, failure exactly when the allocation fails; otherwise the new block holds the first min(old, new) bytes of the old one and heads the old list without the old block, the old address is freed, the total changes by the size difference, the lifetime total grows by the new size, and the allocation and free counters and the block index grow by one each |
| `MemTrack.ReallocAgreesWhenGrowing` | lib/memtrack/src/memtrack.c:129 | when the block does not shrink, the as-written and corrected reallocations agree |
| `MemTrack.ShrinkOverflows` | lib/memtrack/src/memtrack.c:129 | shrinking an 8-byte block to 4 overruns the new block as written, while the corrected reallocation keeps its first four bytes |

## Left out

- GPU, windowing and audio plumbing. Texture, buffer, framebuffer and sampler creation, window and GL context setup, and audio are not modelled. GL calls inside the modelled code become updates of an abstract GL state record or are dropped.
- Floating point. Vertex positions, normals and texture coordinates, the radial gradient of image.c, `atof` values, sprite corner coordinates and text layout are left out. A mesh is its vertex count and index list; a float setting is an opaque value.
- Foreign code. `pjw_hash` and XXH32/XXH64 are function parameters, and so are LZ4/LZO compression and decompression. `qsort`/`bsearch` are stated as a sorted insertion and a binary search. TTF rendering and the UTF-8 helpers of common.h are left out.
- `str_insert` is modelled only as inserting the definitions, and `str_replace` only as replacing every `\n` pair. base/str_replace.h is not part of this model.
- I/O. File and stream contents are given byte sequences, and `load_text`/`asset_request` results are parameters. The directory walk of filesystem.c is a given listing. The text and texture readers that `read_text`/`read_texture` call are a parameter of the dispatch.
- Logging, demo code and the `exit` calls. The exits become error results.
- NULL arguments the callers never pass (names, strings, output pointers) are not modelled. A NULL from `strtok_r` is a missing token, and a language line without a token has no entry. A name without a '.' has the empty extension. The engine passes the NULL that `strrchr` returns to `strcasecmp` (neon/src/core/asset.c:196, 214; neon/src/core/reader.c:44-47, 69-72), and the packer passes it to `pjw_hash` (packer/src/main.c:36, 43).
- Integer width. Counters in the tracker and the command buffer are unbounded; 32-bit wrap-around is written out only in the hashes, the header fields and the comparator.
- A failing `malloc` is modelled only in `MemTrack`; elsewhere allocation always succeeds.
- Fixed-capacity arrays that the source never checks become explicit errors. This covers the seven resource tables, the 512 commands of a command buffer and an oversized vertex buffer. Without these errors the source writes past the arrays.
- Short reads into uninitialised memory become errors: a TGA header shorter than 18 bytes, a WAVE header or data read that cannot be filled, and a text line longer than the read window or a last line without a newline (`RwText.RwGets`). The source goes on with whatever the memory held.
- `Asset.ReadPadded`: a short read of a package header, record table or payload is padded with zeros. The source leaves the rest of the buffer as `malloc` returned it (neon/src/core/asset.c:118-143).
- `Asset.AddResource` keeps the whole name and path. The source copies them with `strncpy` into fixed `MAX_RESOURCE_NAME` and `MAX_RESOURCE_PATH` arrays, which truncates long ones and leaves a name of exactly that length unterminated (neon/src/core/asset.c:81-82).
- `Packer.Scan` keeps the whole name and path too. The packer truncates them to `PACKED_FILENAME_SIZE` and `PACKED_FILEPATH_SIZE` (packer/src/main.c:41-42).
- `Targa.Decoded` copies a run pixel of any width. The source reads it into a 4-byte array, which overflows when `bpp` is 40 or more (neon/src/core/targa.c:38-39).
- `Packer.ChooseFlags` leaves the output path out. The source copies `argv[1]` into an array one byte too short for its terminator (packer/src/main.c:235-238).
- `Asset.PackageOpen`, `Asset.AssetOpen`, `Asset.AssetRequestHash`: with the `AsWritten` reading, the table is still sorted and searched with the corrected unsigned comparator. The signed one is modelled only as `Asset.CompareHashAsWritten`, which agrees with it below 0x80000000 (`Asset.CompareHashAsWrittenAgreesBelow`).
- `Package.DecodeTable` takes the record count as a parameter; the engine reads it from the header.
- `Configs.Typed`: a setting line without a value makes `strtok_r` return NULL, and the source then copies from that NULL with `strncpy` (neon/src/core/configs.c:130-137, with the copy at neon/src/core/configs.c:36). The source faults there; the model chooses a result, a string setting with no value (`None`).
- `Wavefront.FaceTokens`, `Wavefront.TokenText`: a face line with fewer than three corners makes `strtok_r` return NULL, which the source hands to `sscanf` and `strstr` (neon/src/core/wavefront.c:363-405). The source faults there; the model chooses a result, the empty token, which converts no number, so those corner numbers stay 0.
- `Shader.CheckIncludeFrom`: a directive with no newline after it makes `strchr` return NULL, and the source computes the line's length from that NULL (neon/src/video/shader.c:438-480). The source faults there; the model chooses a result, `Err(Unterminated)`. `load_text` dropping the file's last byte makes this reachable (see Findings).
- `Lang.LangSelect`: a language file without a `lang_name` line leaves a NULL name in the table (neon/src/core/lang.c:201), which `strcmp` dereferences (neon/src/core/lang.c:133). The source faults there; the model chooses a result, a name that never matches.
- `Shader` models the hashed uniform and attribute lookups only. The `strncmp` variant compiled under another build option is left out.
- `Targa`: the OpenGL ES swap of red and blue channels is left out; the non-ES format mapping is modelled.
- `Video.WindowFlags` states the desktop bit (0x1000) exactly when a dimension is -1. The full-screen bit (0x1) is also set then, because the desktop flag includes it.

## Findings

| source | as written | input that shows it | evidently intended | confidence | as-written member | corrected member |
|---|---|---|---|---|---|---|
| neon/src/core/asset.c:243-246 | `compare_hash` subtracts the two hashes as signed ints | hashes 0, 1 and 0x80000000 order in a cycle | compare the hashes as unsigned values | not executed | `Asset.CompareHashAsWrittenCycles` | `Asset.CompareHash`, `Asset.CompareHashIsTotalOrder` |
| neon/src/core/asset.c:281 | housekeeping loops to `files_count - 1` | a table whose only entry holds a cached buffer keeps it | free every entry's buffer | not executed | `Asset.AssetProcessAsWritten`, `Asset.AssetProcessAsWrittenKeepsLast` | `Asset.AssetProcess` |
| neon/src/core/asset.c:175-188 | `get_data` fills a buffer only for LZ4 and LZ4-HC packages | a package without compression flags gives NULL | return the stored bytes of an uncompressed package | not executed | `Asset.GetDataAsWritten`, `Asset.GetDataAsWrittenSkipsUncompressed` | `Asset.GetData` |
| neon/src/core/asset.c:48-54 | `archive_resize` grows by one step of 1000 and ignores the entries already registered | a first package of 1001 files gets 1000 slots | grow in steps of 1000 until the capacity exceeds the entries already registered plus the records | not executed | `Asset.ArchiveResize`, `Asset.ArchiveResizeTooSmall` | `Asset.Reserve` |
| neon/src/core/asset.c:58 | `add_package` rejects only a count above 10 | an eleventh package with ten registered | reject once all ten slots are taken | not executed | `Asset.AddPackageAsWritten`, `Asset.AddPackageAsWrittenOverflows` | `Asset.AddPackage` |
| neon/src/video/commandbuffer.c:448-454 | the uniform guard checks only that the offset is inside the arena | a 64-byte matrix at offset 65532 | check that the whole copy fits | not executed | `CommandBuffer.UniformGuardAsWrittenOverruns` | `CommandBuffer.UniformCommand` |
| neon/src/core/glyphs.c:126-151 | the cache size counts every character of every build, including characters the face lacks | a font missing one requested character leaves a counted slot unwritten | count the glyphs actually appended | not executed | `Glyphs.SlotsAsWrittenSpanUnwritten` | `Glyphs.Build` |
| neon/src/video/vertices.c:354-389 | the sphere's last ring indexes row `rings`, and no index format is set | 2 rings of 3 sectors draw index 6 of 6 vertices | indices below the vertex count | not executed | `Vertices.SphereAsWritten`, `Vertices.SphereAsWrittenReadsPastVertices` | `Vertices.Sphere` |
| neon/src/core/wavefront.c:171-202 | the builders stop one face early and read normals and texture coordinates from the positions array | a two-face file with one position and two normals | every face, each attribute from its own array | not executed | `Wavefront.BuildAsWritten`, `Wavefront.LoadAsWritten`, `Wavefront.WavefrontAsWrittenDropsFaceAndMisreadsNormals` | `Wavefront.Build`, `Wavefront.Load`, `Wavefront.BuildInRangeIffNumbered`, `Wavefront.LoadWrittenFile` |
| neon/src/core/targa.c:31-57 | the RLE loop counts packets, not pixels, and the raw read ignores the buffer size | a one-pixel image whose packet is a 128-pixel run | stop at width·height pixels and at the buffer's end | not executed | `Targa.LoadTargaAsWritten`, `Targa.TargaRleAsWrittenOverruns`, `Targa.TargaRawAsWrittenOverruns` | `Targa.LoadTarga`, `Targa.LoadEncodedRle` |
| neon/src/core/wave.c:43-47 | the RIFF check rejects only when both tags are wrong (`&&`) | a RIFF file of form "AVI " | reject when either tag is wrong | not executed | `Wave.LoadWaveAsWritten`, `Wave.WaveAsWrittenAcceptsNonWave` | `Wave.LoadWave`, `Wave.LoadEncodeWave` |
| neon/src/core/lang.c:114 | `lang_get_name` rejects only indices above the count | index equal to the count | reject indices at or above the count | not executed | `Lang.LangGetNameAsWritten`, `Lang.LangGetNameAsWrittenReadsPastTable` | `Lang.LangGetName` |
| neon/src/video/shader.c:415-419 | a name is stored before the slot limit is checked | four names for three slots | stop after three names | not executed | `Shader.ShaderNamesAsWritten`, `Shader.ShaderNamesAsWrittenOverflows` | `Shader.ShaderNames`, `Shader.ShaderNamesOfList` |
| neon/src/video/shader.c:451 | the space check starts one character past `#include` | `#includeX"a"` | check from the character right after the directive | not executed | `Shader.CheckIncludeAsWritten`, `Shader.IncludeAsWrittenSkipsCharacter` | `Shader.CheckInclude`, `Shader.CheckIncludeLine` |
| neon/src/core/reader.c:50 | the reader of entry 0 runs whichever entry matched | "init.lua" is read by the shader-text loader | run the matched entry's reader | not executed | `Reader.ReadTextAsWritten`, `Reader.LuaReadAsWrittenFails` | `Reader.ReadText` |
| lib/memtrack/src/memtrack.c:129 | `trackrealloc` copies the old block's size even when shrinking | an 8-byte block reallocated to 4 bytes | copy the smaller of the two sizes | not executed | `MemTrack.ReallocAsWritten`, `MemTrack.ShrinkOverflows` | `MemTrack.Realloc`, `MemTrack.ReallocAgreesWhenGrowing` |
| neon/src/core/text.c:20-26 | `load_text` reads one byte fewer than the file holds, so a last line loses its newline | a shader whose last line is `#include "a"` followed by its newline: `strchr` finds no newline after the directive (neon/src/video/shader.c:438) | read the whole file and terminate it in a byte of its own | not executed | `Shader.LoadTextAsWritten`, `Shader.IncludeOnLastLineLosesNewline` | `Shader.LoadText`, `Shader.ExpandSingle` |
