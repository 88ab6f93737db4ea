# MissingAssetsFinder core in Dafny

MissingAssetsFinder checks a Skyrim plugin for meshes and textures that it
names but that the game data folder does not hold. To do that it reads the
index of every Bethesda archive (BSA) in the data folder, and it lists the
loose files under the folder. Each path it finds goes into one file cache.
Every model or texture path a record names that is not in the cache is then
recorded as a *missing asset*, grouped under the record.

This project models three parts of that:

- **The string readers** (`Utils`): length-prefixed strings with and
  without a terminator, null-terminated strings, and the encoding chosen
  from the archive version.
- **The archive index reader** (`BsaHeader`, `BsaRecords`, `BsaNames`,
  `BsaReader`):
  - the 36-byte header and its flag getters;
  - the folder table;
  - the per-folder blocks of file records, with the detour each file
    record makes to its data offset;
  - the final block of file names;
  - the `Files` enumeration and each file's `Path`.
- **The finder's bookkeeping** (`Finder`):
  - `CanAdd` and `TryAdd` on the list of missing assets;
  - the extension filter and de-duplication that fill the cache from the
    archives;
  - the normalisation of loose-file paths against the data folder.

The byte stream is a `seq<byte>` with a cursor. `BinaryReader` behaviour is
modelled in `Stream`:

- `ReadByte`, `ReadUInt32` and `ReadUInt64` fail with `EndOfStream` at the
  end of the data.
- `ReadBytes` returns whatever is left and never fails.

Every load step returns a `Result`. The error is `NotABsa` for a wrong
magic and `EndOfStream` for a truncated archive.

Text decoding goes through a function parameter `Decoder`, which maps an
`Encoding` and some bytes to a string. The reader chooses the encoding; it
does not implement the codecs. `Path.Combine` and `Path.GetExtension` are
modelled with their Windows behaviour in `DotNetPath`.

The three string readers, the header and the block of names each have a
writer partner (`EncodeStringLen`, `EncodeStringLenNoTerm`,
`EncodeStringTerm`, `EncodeHeader`, `EncodeNames`) and a round-trip lemma.
The folder table, the file records and the folder blocks have no writer.
They are stated against the bytes instead. Each folder of a loaded archive
is what the readers yield at a position computed from the bytes alone
(`BsaRecords.BlockStart`, `BsaReader.LoadFolderBytes`). The names are the
block that starts right after the last folder block (`BsaReader.LoadNames`).
Structural passes have a flat reference definition and an equivalence
lemma:

- the nested name loops against `ReadNames` plus `AttachNames`;
- the `.All` scan against the multiset of listed files.

### Where the code departs from the natural reading

The model follows the code in each of these places:

- `_nameBlob` starts as the empty string, never as null. So
  `_nameBlob?.Length + 1 ?? 0` always subtracts the blob length plus one.
  An archive without name blobs still loses 1 from its on-disk size
  (`BsaRecords.OnDiskSize`). A compressed file therefore loses 9 in all,
  and the difference between a blob of length N and no blob is N.
- `uint` subtractions wrap instead of failing (`Binary.Wrap32`,
  `BsaRecords.WorkingSizeWraps`).
- Version codes are never rejected:
  - Every code except 0x69 uses the 16-byte folder record.
  - Every code except 0xFF and 0x69 decodes with the UTF-7 fallback.
- `HasFileNames` is never consulted. The name pass always runs
  (`BsaHeader.LayoutIgnoresFileNamesBit`).
- The header's file count is never compared with the folders' file counts.
- The `FileFlags` getter returns the archive flags.
- Nothing is read at a file's data offset when there are no name blobs and
  the file is uncompressed. Such an offset may then point past the end of
  the stream without any error (`BsaRecords.ReadFileRecord`).
- `ReadStringLenNoTerm` takes what is left when the length byte asks for
  more than remains.
- The archive cache checks an archive's paths against the cache as it was
  before that archive. So a path listed twice in one archive is cached
  twice (`Finder.SelectNewKeepsRepeats`).

## Model

| member | source | states |
|---|---|---|
| Utils.GetEncoding | MissingAssetsFinder.Lib/Utils.cs:40-47 | ASCII exactly for 0xFF, code page 1252 exactly for 0x69, UTF-7 for every other version code |
| Utils.IsEmpty | MissingAssetsFinder.Lib/Utils.cs:30-33 | true exactly for null or the empty string |
| Utils.DoConcat | MissingAssetsFinder.Lib/Utils.cs:35-38 | applying an action over two lists in turn is applying it over their concatenation |
| Utils.DoSnoc | MissingAssetsFinder.Lib/Utils.cs:35-38 | the last item is acted on after all the items before it |
| Utils.ReadStringLen | MissingAssetsFinder.Lib/Utils.cs:49-59 | succeeds exactly when the length byte and the L bytes after it are present; advances by 1+L; L=0 gives ""; otherwise decodes the first L-1 bytes and skips the last |
| Utils.ReadStringLenRoundTrip | MissingAssetsFinder.Lib/Utils.cs:49-59 | a length-prefixed, terminated text written anywhere reads back as its decoding, cursor just past the terminator |
| Utils.ReadStringLenNoTerm | MissingAssetsFinder.Lib/Utils.cs:61-66 | fails only without a length byte; decodes the L bytes after it, cut short at the end of the stream, and stops after them |
| Utils.ReadStringLenNoTermRoundTrip | MissingAssetsFinder.Lib/Utils.cs:61-66 | a length-prefixed text written anywhere reads back as its decoding, cursor just past it |
| Utils.ScanToNullSpec | MissingAssetsFinder.Lib/Utils.cs:70-78 | the byte loop succeeds exactly when a 0x00 lies ahead; it then returns exactly the bytes before the first one, with no 0x00 among them, and consumes that 0x00 |
| Utils.ReadStringTermSpec | MissingAssetsFinder.Lib/Utils.cs:68-81 | succeeds exactly when a 0x00 lies ahead (no partial string at the end of the stream); the result is the decoding of the bytes before the first 0x00, which is consumed |
| Utils.ReadStringTermRoundTrip | MissingAssetsFinder.Lib/Utils.cs:68-81 | a null-terminated text without 0x00 inside reads back as its decoding, cursor just past the terminator |
| DotNetPath.Combine | MissingAssetsFinder.Lib/BSA/BSAReader.cs:263 | an empty side yields the other and a rooted second part wins. Otherwise a backslash is inserted exactly when neither side has a separator at the join, and the parts are simply concatenated exactly when one does. The result always ends with the second part, and starts with the first unless the second is rooted |
| DotNetPath.CombinePlainNames | MissingAssetsFinder.Lib/BSA/BSAReader.cs:263 | when the first part does not end in a separator and the second is not rooted, exactly one backslash joins them and both can be read back off the result; the first part may hold separators of its own, as a nested folder does |
| DotNetPath.GetExtension | MissingAssetsFinder.Lib/Finder.cs:55 | the result is "" or the suffix from the single place where an extension starts (a final '.' that is not last, with no separator after it) |
| DotNetPath.ExtensionIsSuffix | MissingAssetsFinder.Lib/Finder.cs:55 | for an extension such as ".nif", GetExtension returns it exactly when the path ends with it |
| BsaHeader.ReadHeader | MissingAssetsFinder.Lib/BSA/BSAReader.cs:113-128 | NotABsa exactly when the first four bytes are not "BSA\0"; success exactly when the magic and the eight u32 fields are present; the fields are little-endian at bytes 4, 8, ..., 32 in the stored order, and the cursor ends at 36 |
| BsaHeader.ReadHeaderRoundTrip | MissingAssetsFinder.Lib/BSA/BSAReader.cs:115-128 | a written header reads back whole, whatever follows it |
| BsaHeader.FlagsRoundTrip | MissingAssetsFinder.Lib/BSA/BSAReader.cs:96-111 | whatever the other bits of the flags word hold, folder names, file names and compressed-by-default read bits 0, 1 and 2; name blobs need bit 8 and version 0x68 or 0x69 |
| BsaHeader.FileFlagsIgnoresFileFlagsField | MissingAssetsFinder.Lib/BSA/BSAReader.cs:93 | the FileFlags getter reports the archive flags, and the stored file-flags field has no effect on it |
| BsaHeader.LayoutIgnoresFileNamesBit | MissingAssetsFinder.Lib/BSA/BSAReader.cs:98 | flipping the HasFileNames bit changes nothing the later passes read off the header |
| Stream.ReadEntriesEnd | MissingAssetsFinder.Lib/BSA/BSAReader.cs:135-136 | a table of fixed-width entries read back to back ends exactly count times the width after its start, and can fail only at the end of the stream |
| Stream.ReadEntriesOk | MissingAssetsFinder.Lib/BSA/BSAReader.cs:135-136 | the table is read whole exactly when every slot is readable at its own position |
| Stream.ReadEntriesAt | MissingAssetsFinder.Lib/BSA/BSAReader.cs:135-136 | entry i of a table read whole is what the entry reader yields at start + i*width, with no seeking between entries |
| BsaRecords.ReadFolderRecords | MissingAssetsFinder.Lib/BSA/BSAReader.cs:133-136 | the folder table yields exactly folderCount records and ends count*width bytes after the header; it fails only at the end of the stream |
| BsaRecords.ReadFolderRecordsOk | MissingAssetsFinder.Lib/BSA/BSAReader.cs:135-136 | the folder table is read exactly when it fits in the stream (24-byte records for 0x69, 16-byte otherwise) |
| BsaRecords.ReadFolderRecordsSpec | MissingAssetsFinder.Lib/BSA/BSAReader.cs:176-191 | folder i holds the file count, the unknown field (wide layout only) and the offset (u64 wide, u32 narrow) read at header end + i*width |
| BsaRecords.ReadFileRecord | MissingAssetsFinder.Lib/BSA/BSAReader.cs:216-261 | a file record succeeds exactly when its 16 bytes are present and the blob length and original size it needs at its offset can be read; the cursor always returns to just after the 16 bytes |
| BsaRecords.ReadFileRecordFields | MissingAssetsFinder.Lib/BSA/BSAReader.cs:216-261 | hash and offset as stored; flip is bit 30 of the raw size; compressed is flip XOR compressed-by-default; name blob, data offset, on-disk size (raw without bit 30, less 8 if compressed, less blob length + 1, wrapped) and size (original size if compressed, else on-disk size) |
| BsaRecords.WorkingSizeWraps | MissingAssetsFinder.Lib/BSA/BSAReader.cs:224-251 | the stepwise wrapping subtractions of the constructor equal one wrapped subtraction of the whole |
| BsaRecords.ReadFileRecordsAt | MissingAssetsFinder.Lib/BSA/BSAReader.cs:199-200 | a folder's file records are read exactly when every one is readable at its 16-byte slot, and record i is the constructor's result at slot i with index i |
| BsaRecords.ReadFileRecordsFields | MissingAssetsFinder.Lib/BSA/BSAReader.cs:199-200 | file i of a folder's block is the FileRecord constructor's result at start + 16*i with index i, which ends 16 bytes on; it carries its folder's name and no name yet |
| BsaRecords.ReadFileRecordsOk | MissingAssetsFinder.Lib/BSA/BSAReader.cs:199-200 | a folder's file records load exactly when every one of the 16-byte slots holds a readable record |
| BsaRecords.LoadFileRecordBlock | MissingAssetsFinder.Lib/BSA/BSAReader.cs:195-201 | a folder's block keeps its table fields, reads a length-prefixed name only when folder names are on, then exactly fileCount records; it ends after those records |
| BsaRecords.LoadFileRecordBlockNameFails | MissingAssetsFinder.Lib/BSA/BSAReader.cs:197 | with folder names on, a block whose name cannot be read fails at the end of the stream |
| BsaRecords.LoadFileRecordBlockOk | MissingAssetsFinder.Lib/BSA/BSAReader.cs:195-201 | once the name is read, the block loads exactly when each of its fileCount slots after the name holds a readable record under that folder name |
| BsaRecords.LoadFileRecordBlockBytes | MissingAssetsFinder.Lib/BSA/BSAReader.cs:195-201 | a loaded block's name is the length-prefixed string at its start (folder names on), and its file j is the constructor's result at slot j after the name |
| BsaRecords.LoadFileRecordBlocks | MissingAssetsFinder.Lib/BSA/BSAReader.cs:138-139 | every folder's block is loaded, in table order |
| BsaRecords.LoadFileRecordBlocksOk | MissingAssetsFinder.Lib/BSA/BSAReader.cs:138-139 | the block pass succeeds exactly when every folder's block loads at its BlockStart, the position reached by reading the earlier blocks back to back |
| BsaRecords.LoadFileRecordBlocksAt | MissingAssetsFinder.Lib/BSA/BSAReader.cs:138-139 | block i of the pass is the block loaded at BlockStart i and ends at BlockStart i+1; the pass ends at the BlockStart after the last folder |
| BsaRecords.LoadFileRecordBlocksBytes | MissingAssetsFinder.Lib/BSA/BSAReader.cs:138-139 | every block of a successful pass is what the bytes say at its BlockStart, and the pass ends where the blocks end |
| BsaRecords.FilesConcat | MissingAssetsFinder.Lib/BSA/BSAReader.cs:64-72 | enumerating two folder lists in turn is enumerating their concatenation |
| BsaRecords.FilesOrder | MissingAssetsFinder.Lib/BSA/BSAReader.cs:64-72 | file j of folder i comes right after all files of the earlier folders |
| BsaRecords.LoadedFileCount | MissingAssetsFinder.Lib/BSA/BSAReader.cs:195-201 | after the block pass the enumeration has as many files as the folders declare |
| BsaNames.NameFiles | MissingAssetsFinder.Lib/BSA/BSAReader.cs:284-287 | naming a folder's files changes nothing but their names |
| BsaNames.NamePass | MissingAssetsFinder.Lib/BSA/BSAReader.cs:141-143 | the name pass keeps every folder and changes only its files' names |
| BsaNames.ReadNamesSplit | MissingAssetsFinder.Lib/BSA/BSAReader.cs:141-143 | reading a+b names is reading a names and then b more from where they end |
| BsaNames.NameFilesIsFlat | MissingAssetsFinder.Lib/BSA/BSAReader.cs:142-143 | the inner loop equals reading one name per file and handing them out in order |
| BsaNames.NamePassIsFlat | MissingAssetsFinder.Lib/BSA/BSAReader.cs:141-143 | the nested loops equal one flat block of one name per enumerated file: same result, errors and cursor |
| BsaNames.FilesOfAttachNames | MissingAssetsFinder.Lib/BSA/BSAReader.cs:64-72 | handing names out folder by folder gives the k-th enumerated file the k-th name |
| BsaNames.ReadNamesRoundTrip | MissingAssetsFinder.Lib/BSA/BSAReader.cs:284-287 | a written block of null-terminated names reads back name by name |
| BsaReader.Load | MissingAssetsFinder.Lib/BSA/BSAReader.cs:113-131 | NotABsa exactly when the magic is wrong; a loaded archive holds the header fields at their fixed positions and folderCount folders |
| BsaReader.LoadFolder | MissingAssetsFinder.Lib/BSA/BSAReader.cs:133-144 | folder i of a loaded archive keeps record i of the folder table, holds fileCount files that point back to it, and has an empty name without folder names |
| BsaReader.LoadFileCount | MissingAssetsFinder.Lib/BSA/BSAReader.cs:133-144 | the Files enumeration of a loaded archive has the sum of the folders' file counts |
| BsaReader.BlockPass | MissingAssetsFinder.Lib/BSA/BSAReader.cs:133-143 | the blocks follow the folder table back to back, each is what the bytes say at its start, and the name pass starting after the last block turns them into the loaded folders |
| BsaReader.FolderOfBytes | MissingAssetsFinder.Lib/BSA/BSAReader.cs:133-143 | folder i of LoadFolderRecords has the name stored at the start of block i (folder names on), and its files, before naming, are the records in the slots after that name |
| BsaReader.LoadFolderBytes | MissingAssetsFinder.Lib/BSA/BSAReader.cs:113-143 | the same for folder i of a loaded archive, with block i starting where the earlier blocks, read after the folder table, end |
| BsaReader.NamesOfPasses | MissingAssetsFinder.Lib/BSA/BSAReader.cs:141-143 | the name pass reads, right after the last folder block, one block of null-terminated names, the enumerated files' names in order |
| BsaReader.LoadNames | MissingAssetsFinder.Lib/BSA/BSAReader.cs:113-143 | the names of a loaded archive's enumerated files, in order, are the block of null-terminated names that starts right after the last folder block |
| BsaReader.FilePath | MissingAssetsFinder.Lib/BSA/BSAReader.cs:263 | a file of an unnamed folder has its bare name as path; every path ends with the file name and starts with the folder name unless the file name is rooted |
| BsaReader.FilePathOfPlainNames | MissingAssetsFinder.Lib/BSA/BSAReader.cs:263 | when the folder name does not end in a separator and the file name is not rooted, the path is folder + '\' + name, nested folders included |
| BsaReader.PathsWithoutFolderNames | MissingAssetsFinder.Lib/BSA/BSAReader.cs:197 | without the folder-names flag every path of a loaded archive is the bare file name |
| Finder.NewFinderValid | MissingAssetsFinder.Lib/Finder.cs:28-33 | a new finder starts with an empty cache and no missing assets, so the invariant holds |
| Finder.CanAddSpec | MissingAssetsFinder.Lib/Finder.cs:86-89 | CanAdd fails exactly when the file is cached or listed under some entry; equivalently when the count of listed files for it is not zero |
| Finder.FindRecord | MissingAssetsFinder.Lib/Finder.cs:96-98 | finds the first entry of the record, and finds none exactly when no entry belongs to it |
| Finder.TryAdd | MissingAssetsFinder.Lib/Finder.cs:91-103 | no change when CanAdd fails; otherwise the file is appended to the first entry of the record, all other entries and the count unchanged, or a new entry (record, [file]) is appended at the end |
| Finder.TryAddCounts | MissingAssetsFinder.Lib/Finder.cs:91-103 | the listed files grow by exactly one copy of the file when CanAdd holds, and not at all otherwise |
| Finder.TryAddFiles | MissingAssetsFinder.Lib/Finder.cs:96-102 | after an accepted TryAdd the file is listed under an entry of the record |
| Finder.TryAddValid | MissingAssetsFinder.Lib/Finder.cs:86-103 | TryAdd keeps at most one entry per record and every file listed at most once |
| Finder.TryAddIdempotent | MissingAssetsFinder.Lib/Finder.cs:86-103 | adding the same file again, for any record, changes nothing |
| Finder.TryAddApart | MissingAssetsFinder.Lib/Finder.cs:86-89 | a listed missing file is never one that is cached |
| Finder.IsAllowedSuffix | MissingAssetsFinder.Lib/Finder.cs:35-40 | a path passes the extension filter exactly when it ends in ".nif" or ".dds", case-sensitively |
| Finder.SelectNewMembers | MissingAssetsFinder.Lib/Finder.cs:54-58 | an archive contributes exactly its allowed paths that are not already cached |
| Finder.SelectNewConcat | MissingAssetsFinder.Lib/Finder.cs:54-58 | the filter works path by path, in archive order |
| Finder.SelectNewKeepsRepeats | MissingAssetsFinder.Lib/Finder.cs:57 | a new allowed path listed twice in one archive is taken twice |
| Finder.AddArchive | MissingAssetsFinder.Lib/Finder.cs:54-61 | the cache keeps its entries in place and gains only allowed paths of the archive that it did not hold |
| Finder.ArchiveCacheGrows | MissingAssetsFinder.Lib/Finder.cs:49-64 | over all archives the cache only grows, with earlier entries kept in place |
| Finder.ArchiveCacheFrom | MissingAssetsFinder.Lib/Finder.cs:49-64 | every cached path was cached before or is an allowed path of some archive |
| Finder.ArchiveCacheCovers | MissingAssetsFinder.Lib/Finder.cs:49-64 | every allowed path of every archive ends up cached |
| Finder.RemoveAllAbsent | MissingAssetsFinder.Lib/Finder.cs:76 | where the data folder does not occur in a path, Replace leaves the path unchanged |
| Finder.RemoveAllPrefix | MissingAssetsFinder.Lib/Finder.cs:76 | a leading occurrence of the data folder is cut and the scan goes on after it |
| Finder.NormalizeUnderDataFolder | MissingAssetsFinder.Lib/Finder.cs:76-77 | data folder + '\' + rel normalises to rel when the folder does not recur in the rest |
| Finder.SelectLooseMembers | MissingAssetsFinder.Lib/Finder.cs:73-79 | the loose cache gains exactly the normalised forms of paths with an allowed extension whose normalised form is not yet cached |
| Finder.BuildLooseFileCache | MissingAssetsFinder.Lib/Finder.cs:73-83 | the existing cache is kept in place, and what is appended is exactly the normalised forms of the allowed paths that were not cached before |

## Left out

- File and directory I/O (`File.OpenRead`, `Directory.EnumerateFiles`,
  seeking and `using` disposal). The archive is a byte sequence, and the
  directory listings are parameters.
- The text codecs (ASCII, code page 1252, UTF-7). Decoding is an
  uninterpreted `Decoder`.
- BsaRecords.OnDiskSize: the name blob's length is the number of
  characters of the decoded string. C#'s `_nameBlob.Length`
  (BSA/BSAReader.cs:246) counts UTF-16 code units, so a blob that decodes
  to characters outside the Basic Multilingual Plane would subtract more
  in the source. Dafny strings here are sequences of Unicode scalar
  values, so the model cannot tell the two apart.
- `FindMissingAssets`. It walks records of a plugin library this model
  does not see, so records are a type parameter with equality, and the
  walk's calls to `TryAdd` are not modelled.
- The async orchestration of the two cache builders (`Task.Run`, async
  lambdas in `Do`). Archives are processed one after the other, which is
  what `Do` does.
- Finder.BuildArchiveCache: takes the archives already loaded. In the
  source a `BSAReader` that throws (wrong magic, truncated index) throws
  inside the `async` lambda handed to `Do` (Finder.cs:49-64); nothing
  catches it, and what follows is up to the runtime. The model does not
  cover that path.
- `Utils.Log` and its observable subject, the WPF view models and the
  state objects. These are presentation and plain field copies.
- The integer `idx` counters of the two load loops. They are unbounded
  here; a count above 2^31 - 1 would not fit the C# loops.
- Finder.RemoveAll: requires a non-empty data folder, because
  `string.Replace` throws for an empty search string.
- Finder.StripLeadingBackslash: an ordinal check for a leading backslash;
  the culture-sensitive `StartsWith` is not modelled.
- BsaReader.FilePath: its own contract gives the unnamed-folder case and
  the path's start and end. The exact join for a named folder is stated
  by `BsaReader.FilePathOfPlainNames` and `DotNetPath.Combine`.
- The magic is compared as the four bytes "BSA\0". The source decodes
  them as ASCII first; a non-ASCII byte then becomes '?', which never
  matches, so the two comparisons agree.
