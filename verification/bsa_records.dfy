/**
  Folder records and file records, the two fixed-size tables of the archive
  (the FolderRecord and FileRecord classes). Folder records lie back to back
  after the header; each folder's block holds its optional name and its file
  records. Reading a file record detours to the file's data offset to find
  the optional name blob and the original size of a compressed file, then
  returns to the record table.
*/
module BsaRecords {
  import opened Binary
  import opened Stream
  import opened Utils
  import opened BsaHeader

  const NARROW_FOLDER_RECORD_SIZE: nat := 16
  const WIDE_FOLDER_RECORD_SIZE: nat := 24
  const FILE_RECORD_SIZE: nat := 16
  /** Bit 30 of a file record's size: this file's compression is the
      opposite of the archive default. */
  const FLIP_COMPRESSION: nat := 0x4000_0000

  /** One file as loaded. `workingSize` is the `_size` field (raw size without
      the flip bit, less 4 when compressed); `dataOffset` is the stream position
      after the name blob and original-size field; `folderName` is the name of
      the folder the record points back to. */
  datatype FileRecord = FileRecord(
    index: nat,
    hash: u64,
    flipCompression: bool,
    compressed: bool,
    workingSize: u32,
    offset: u32,
    nameBlob: string,
    originalSize: u32,
    onDiskSize: u32,
    size: u32,
    dataOffset: nat,
    folderName: string,
    name: string)

  /** One folder. The hash is read and dropped; `unk` is read only in the
      wide layout. */
  datatype FolderRecord = FolderRecord(
    fileCount: u32,
    unk: u32,
    offset: u64,
    name: string,
    files: seq<FileRecord>)

  /** 24 bytes for SSE, 16 for every other version code. */
  function FolderRecordSize(lay: Layout): nat
  {
    if lay.wideFolders then WIDE_FOLDER_RECORD_SIZE else NARROW_FOLDER_RECORD_SIZE
  }

  /** The folder record stored at `p`, as fields at fixed offsets:
      hash at 0, file count at 8, then either unk at 12 and a u64 offset at
      16 (wide) or a u32 offset at 12 (narrow). */
  function FolderAt(data: seq<byte>, p: nat, lay: Layout): FolderRecord
    requires p + FolderRecordSize(lay) <= |data|
  {
    if lay.wideFolders then FolderRecord(U32At(data, p + 8), U32At(data, p + 12), U64At(data, p + 16), "", [])
    else FolderRecord(U32At(data, p + 8), 0, U32At(data, p + 12), "", [])
  }

  /** The FolderRecord constructor: sequential reads, no seeking. */
  function ReadFolderRecord(data: seq<byte>, pos: nat, lay: Layout): (r: Result<Parsed<FolderRecord>>)
    ensures r.Ok? <==> pos + FolderRecordSize(lay) <= |data|
    ensures r.Ok? ==> r.value == Parsed(FolderAt(data, pos, lay), pos + FolderRecordSize(lay))
    ensures r.Err? ==> r.error == EndOfStream
  {
    var hash :- ReadU64(data, pos);
    var fileCount :- ReadU32(data, hash.next);
    if lay.wideFolders then
      var unk :- ReadU32(data, fileCount.next);
      var offset :- ReadU64(data, unk.next);
      Ok(Parsed(FolderRecord(fileCount.item, unk.item, offset.item, "", []), offset.next))
    else
      var offset :- ReadU32(data, fileCount.next);
      Ok(Parsed(FolderRecord(fileCount.item, 0, offset.item, "", []), offset.next))
  }

  /** The FolderRecord constructor as a table entry reader. */
  function FolderReader(data: seq<byte>, lay: Layout): EntryReader<FolderRecord>
  {
    (p: nat, k: nat) => ReadFolderRecord(data, p, lay)
  }

  lemma FolderReaderFixed(data: seq<byte>, lay: Layout)
    ensures FixedWidth(FolderReader(data, lay), FolderRecordSize(lay))
    ensures FailsAtEnd(FolderReader(data, lay))
  {
    forall p: nat, k: nat
      ensures FolderReader(data, lay)(p, k) == ReadFolderRecord(data, p, lay)
    {
    }
  }

  /** The first loop of LoadFolderRecords: `count` folder records back to back. */
  function ReadFolderRecords(data: seq<byte>, pos: nat, lay: Layout, count: nat): (r: Result<Parsed<seq<FolderRecord>>>)
    ensures r.Ok? ==> |r.value.item| == count && r.value.next == pos + count * FolderRecordSize(lay)
    ensures r.Err? ==> r.error == EndOfStream
  {
    FolderReaderFixed(data, lay);
    ReadEntriesEnd(FolderReader(data, lay), FolderRecordSize(lay), pos, count, 0);
    ReadEntries(FolderReader(data, lay), pos, count, 0)
  }

  /** Slot `i` of the folder table holds the record at `pos + i * width`
      when the stream reaches the end of it. */
  lemma FolderEntry(data: seq<byte>, pos: nat, lay: Layout, i: nat)
    ensures var w := FolderRecordSize(lay);
            && (EntryAt(FolderReader(data, lay), pos, w, 0, i).Ok? <==> pos + i * w + w <= |data|)
            && (pos + i * w + w <= |data| ==>
                  EntryAt(FolderReader(data, lay), pos, w, 0, i) == Ok(Parsed(FolderAt(data, pos + i * w, lay), pos + i * w + w)))
  {
  }

  /** The folder table is read whole exactly when it fits in the stream. */
  lemma ReadFolderRecordsOk(data: seq<byte>, pos: nat, lay: Layout, count: nat)
    ensures ReadFolderRecords(data, pos, lay, count).Ok? <==> count == 0 || pos + count * FolderRecordSize(lay) <= |data|
  {
    var read, w := FolderReader(data, lay), FolderRecordSize(lay);
    FolderReaderFixed(data, lay);
    ReadEntriesOk(read, w, pos, count, 0);
    if count > 0 {
      FolderEntry(data, pos, lay, count - 1);
      assert count * w == (count - 1) * w + w;
      if pos + count * w <= |data| {
        forall i | 0 <= i < count ensures EntryAt(read, pos, w, 0, i).Ok? {
          RecordInTable(i, count, w);
          FolderEntry(data, pos, lay, i);
        }
      }
    }
  }

  /** Folder `i` of a table read whole is the record at `pos + i * width`. */
  lemma ReadFolderRecordsSpec(data: seq<byte>, pos: nat, lay: Layout, count: nat)
    requires ReadFolderRecords(data, pos, lay, count).Ok?
    ensures forall i :: 0 <= i < count ==>
              && pos + i * FolderRecordSize(lay) + FolderRecordSize(lay) <= |data|
              && ReadFolderRecords(data, pos, lay, count).value.item[i] == FolderAt(data, pos + i * FolderRecordSize(lay), lay)
  {
    FolderReaderFixed(data, lay);
    ReadEntriesAt(FolderReader(data, lay), FolderRecordSize(lay), pos, count, 0);
    FolderSlots(data, pos, lay, ReadFolderRecords(data, pos, lay, count).value.item);
  }

  /** Folders that were read slot by slot are the records at those slots. */
  lemma FolderSlots(data: seq<byte>, pos: nat, lay: Layout, items: seq<FolderRecord>)
    requires var w := FolderRecordSize(lay);
             forall i :: 0 <= i < |items| ==>
               EntryAt(FolderReader(data, lay), pos, w, 0, i) == Ok(Parsed(items[i], pos + i * w + w))
    ensures forall i :: 0 <= i < |items| ==>
              && pos + i * FolderRecordSize(lay) + FolderRecordSize(lay) <= |data|
              && items[i] == FolderAt(data, pos + i * FolderRecordSize(lay), lay)
  {
    forall i | 0 <= i < |items|
      ensures pos + i * FolderRecordSize(lay) + FolderRecordSize(lay) <= |data|
      ensures items[i] == FolderAt(data, pos + i * FolderRecordSize(lay), lay)
    {
      FolderEntry(data, pos, lay, i);
    }
  }

  /** Record `i` of a table of `n` records of width `w` ends within the table. */
  lemma RecordInTable(i: nat, n: nat, w: nat)
    requires i < n
    ensures i * w + w <= n * w
  {
    var k := n - i - 1;
    calc {
      n * w;
      (i + 1 + k) * w;
      i * w + w + k * w;
    }
  }

  /** The Compressed getter: the flip bit inverts the archive default. */
  function IsCompressed(lay: Layout, flip: bool): bool
  {
    if flip then !lay.compressedByDefault else lay.compressedByDefault
  }

  /** `_size`: the raw size with the flip bit cleared (XOR of a set bit),
      then less 4 when compressed, wrapping like any `uint`. */
  function WorkingSize(raw: u32, compressed: bool): u32
  {
    var cleared := if HasFlag(raw, FLIP_COMPRESSION) then raw - FLIP_COMPRESSION else raw;
    if compressed then Wrap32(cleared - 4) else cleared
  }

  /** `_onDiskSize`: the blob length plus one is always taken off, because
      the blob string starts out empty rather than null; a compressed file
      then loses 4 more for its original-size field. Both steps wrap. */
  function OnDiskSize(working: u32, blobLength: nat, compressed: bool): u32
  {
    var afterBlob := Wrap32(working - (blobLength + 1));
    if compressed then Wrap32(afterBlob - 4) else afterBlob
  }

  /** Where the cursor stands after the optional name blob at `offset`:
      one length byte and up to that many bytes, cut short at the end of the
      stream. */
  function BlobEnd(data: seq<byte>, offset: nat, lay: Layout): nat
  {
    if lay.nameBlobs && offset < |data| then Min(offset + 1 + data[offset], |data|) else offset
  }

  /** The reads at the data offset succeed: a length byte when blobs are on,
      and four bytes of original size when the file is compressed. */
  predicate DetourReadable(data: seq<byte>, offset: nat, lay: Layout, compressed: bool)
  {
    && (lay.nameBlobs ==> offset < |data|)
    && (compressed ==> BlobEnd(data, offset, lay) + 4 <= |data|)
  }

  /** The raw size field of the file record at `pos`. */
  function RawSizeAt(data: seq<byte>, pos: nat): u32
    requires pos + FILE_RECORD_SIZE <= |data|
  {
    U32At(data, pos + 8)
  }

  /** The FileRecord constructor: hash, size and offset from the table, then
      a detour to `offset` for the name blob and original size, then back. */
  function ReadFileRecord(data: seq<byte>, pos: nat, lay: Layout, dec: Decoder, folderName: string, index: nat)
    : (r: Result<Parsed<FileRecord>>)
    ensures r.Ok? <==>
              && pos + FILE_RECORD_SIZE <= |data|
              && DetourReadable(data, U32At(data, pos + 12), lay,
                                IsCompressed(lay, HasFlag(RawSizeAt(data, pos), FLIP_COMPRESSION)))
    ensures r.Ok? ==> r.value.next == pos + FILE_RECORD_SIZE
    ensures r.Err? ==> r.error == EndOfStream
  {
    var hash :- ReadU64(data, pos);
    var raw :- ReadU32(data, hash.next);
    var flip := HasFlag(raw.item, FLIP_COMPRESSION);
    var compressed := IsCompressed(lay, flip);
    var working := WorkingSize(raw.item, compressed);
    var offset :- ReadU32(data, raw.next);
    // The stream is positioned at `offset`; `offset.next` is where it returns.
    var blob :- if lay.nameBlobs then ReadStringLenNoTerm(data, offset.item, lay.encoding, dec)
                else Ok(Parsed("", offset.item));
    var original :- if compressed then ReadU32(data, blob.next) else Ok(Parsed(0 as u32, blob.next));
    var onDisk := OnDiskSize(working, |blob.item|, compressed);
    var size := if compressed then original.item else onDisk;
    Ok(Parsed(FileRecord(index, hash.item, flip, compressed, working, offset.item, blob.item,
                         original.item, onDisk, size, original.next, folderName, ""),
              offset.next))
  }

  /** What a file record holds once read: the table fields, the effective
      compression, the name blob and data offset found at the detour, and
      the sizes. */
  lemma ReadFileRecordFields(data: seq<byte>, pos: nat, lay: Layout, dec: Decoder, folderName: string, index: nat,
                             f: FileRecord)
    requires ReadFileRecord(data, pos, lay, dec, folderName, index).Ok?
    requires f == ReadFileRecord(data, pos, lay, dec, folderName, index).value.item
    ensures f.hash == U64At(data, pos) && f.offset == U32At(data, pos + 12)
    ensures f.flipCompression <==> HasFlag(RawSizeAt(data, pos), FLIP_COMPRESSION)
    ensures f.compressed <==> f.flipCompression != lay.compressedByDefault
    ensures f.index == index && f.folderName == folderName && f.name == ""
    ensures f.nameBlob == if lay.nameBlobs then dec(lay.encoding, data[f.offset + 1..BlobEnd(data, f.offset, lay)]) else ""
    ensures f.dataOffset == BlobEnd(data, f.offset, lay) + (if f.compressed then 4 else 0)
    ensures f.onDiskSize == Wrap32(RawSizeAt(data, pos) - (if f.flipCompression then FLIP_COMPRESSION else 0)
                                   - (if f.compressed then 8 else 0) - (|f.nameBlob| + 1))
    ensures f.compressed ==> 4 <= f.dataOffset <= |data| && f.size == f.originalSize == U32At(data, f.dataOffset - 4)
    ensures !f.compressed ==> f.size == f.onDiskSize
  {
    var raw := RawSizeAt(data, pos);
    WorkingSizeWraps(raw, HasFlag(raw, FLIP_COMPRESSION), f.compressed, |f.nameBlob|);
  }

  /** The stepwise wrapping subtractions of the constructor are one
      subtraction of the whole, wrapped. */
  lemma WorkingSizeWraps(raw: u32, flip: bool, compressed: bool, blobLength: nat)
    requires flip == HasFlag(raw, FLIP_COMPRESSION)
    ensures OnDiskSize(WorkingSize(raw, compressed), blobLength, compressed)
         == Wrap32(raw - (if flip then FLIP_COMPRESSION else 0) - (if compressed then 8 else 0) - (blobLength + 1))
  {
    var cleared := raw - (if flip then FLIP_COMPRESSION else 0);
    var n := blobLength + 1;
    if compressed {
      assert WorkingSize(raw, compressed) == Wrap32(cleared - 4);
      calc {
        OnDiskSize(WorkingSize(raw, compressed), blobLength, compressed);
        Wrap32(Wrap32(Wrap32(cleared - 4) - n) - 4);
        { Wrap32Sub(cleared - 4, n); }
        Wrap32(Wrap32(cleared - 4 - n) - 4);
        { Wrap32Sub(cleared - 4 - n, 4); }
        Wrap32(cleared - 4 - n - 4);
      }
    } else {
      assert WorkingSize(raw, compressed) == cleared;
    }
  }

  /** The FileRecord constructor as a table entry reader. */
  function FileReader(data: seq<byte>, lay: Layout, dec: Decoder, folderName: string): EntryReader<FileRecord>
  {
    (p: nat, k: nat) => ReadFileRecord(data, p, lay, dec, folderName, k)
  }

  lemma FileReaderFixed(data: seq<byte>, lay: Layout, dec: Decoder, folderName: string)
    ensures FixedWidth(FileReader(data, lay, dec, folderName), FILE_RECORD_SIZE)
    ensures FailsAtEnd(FileReader(data, lay, dec, folderName))
  {
    forall p: nat, k: nat
      ensures FileReader(data, lay, dec, folderName)(p, k) == ReadFileRecord(data, p, lay, dec, folderName, k)
    {
    }
  }

  /** The loop of LoadFileRecordBlock: `count` file records, numbered from `index`. */
  function ReadFileRecords(data: seq<byte>, pos: nat, lay: Layout, dec: Decoder, folderName: string, count: nat, index: nat)
    : (r: Result<Parsed<seq<FileRecord>>>)
    ensures r.Ok? ==> |r.value.item| == count && r.value.next == pos + count * FILE_RECORD_SIZE
    ensures r.Err? ==> r.error == EndOfStream
  {
    FileReaderFixed(data, lay, dec, folderName);
    ReadEntriesEnd(FileReader(data, lay, dec, folderName), FILE_RECORD_SIZE, pos, count, index);
    ReadEntries(FileReader(data, lay, dec, folderName), pos, count, index)
  }

  /** Slot `i` of a block of file records is the record at `pos + 16 * i`,
      numbered `index + i`. */
  lemma FileEntry(data: seq<byte>, pos: nat, lay: Layout, dec: Decoder, folderName: string, index: nat, i: nat)
    ensures EntryAt(FileReader(data, lay, dec, folderName), pos, FILE_RECORD_SIZE, index, i)
         == ReadFileRecord(data, pos + i * FILE_RECORD_SIZE, lay, dec, folderName, index + i)
  {
  }

  /** The block succeeds exactly when every one of its records does, and
      then record `i` is the one read in slot `i`, which returns the cursor
      to the end of its 16 bytes. */
  lemma ReadFileRecordsAt(data: seq<byte>, pos: nat, lay: Layout, dec: Decoder, folderName: string,
                          count: nat, index: nat)
    ensures var read := FileReader(data, lay, dec, folderName);
            (ReadFileRecords(data, pos, lay, dec, folderName, count, index).Ok? <==>
               forall i :: 0 <= i < count ==> EntryAt(read, pos, FILE_RECORD_SIZE, index, i).Ok?)
    ensures var read := FileReader(data, lay, dec, folderName);
            var r := ReadFileRecords(data, pos, lay, dec, folderName, count, index);
            r.Ok? ==> forall i :: 0 <= i < count ==>
                        EntryAt(read, pos, FILE_RECORD_SIZE, index, i)
                          == Ok(Parsed(r.value.item[i], pos + i * FILE_RECORD_SIZE + FILE_RECORD_SIZE))
  {
    var read := FileReader(data, lay, dec, folderName);
    FileReaderFixed(data, lay, dec, folderName);
    ReadEntriesOk(read, FILE_RECORD_SIZE, pos, count, index);
    if ReadFileRecords(data, pos, lay, dec, folderName, count, index).Ok? {
      ReadEntriesAt(read, FILE_RECORD_SIZE, pos, count, index);
    }
  }

  /** Every record of a block is the FileRecord constructor's result at its
      16-byte slot: it points back to its folder, carries its place in the
      block, has no name yet, and has the fields ReadFileRecordFields
      states of that slot. */
  lemma ReadFileRecordsFields(data: seq<byte>, pos: nat, lay: Layout, dec: Decoder, folderName: string, count: nat, index: nat)
    requires ReadFileRecords(data, pos, lay, dec, folderName, count, index).Ok?
    ensures var files := ReadFileRecords(data, pos, lay, dec, folderName, count, index).value.item;
            forall i :: 0 <= i < count ==>
              ReadFileRecord(data, pos + i * FILE_RECORD_SIZE, lay, dec, folderName, index + i)
                == Ok(Parsed(files[i], pos + i * FILE_RECORD_SIZE + FILE_RECORD_SIZE))
    ensures var files := ReadFileRecords(data, pos, lay, dec, folderName, count, index).value.item;
            forall i :: 0 <= i < count ==>
              files[i].index == index + i && files[i].folderName == folderName && files[i].name == ""
  {
    ReadFileRecordsAt(data, pos, lay, dec, folderName, count, index);
    FileSlots(data, pos, lay, dec, folderName, index, ReadFileRecords(data, pos, lay, dec, folderName, count, index).value.item);
  }

  /** Files that were read slot by slot carry their numbers and their folder. */
  lemma FileSlots(data: seq<byte>, pos: nat, lay: Layout, dec: Decoder, folderName: string, index: nat, files: seq<FileRecord>)
    requires forall i :: 0 <= i < |files| ==>
               EntryAt(FileReader(data, lay, dec, folderName), pos, FILE_RECORD_SIZE, index, i)
                 == Ok(Parsed(files[i], pos + i * FILE_RECORD_SIZE + FILE_RECORD_SIZE))
    ensures forall i :: 0 <= i < |files| ==>
              ReadFileRecord(data, pos + i * FILE_RECORD_SIZE, lay, dec, folderName, index + i)
                == Ok(Parsed(files[i], pos + i * FILE_RECORD_SIZE + FILE_RECORD_SIZE))
    ensures forall i :: 0 <= i < |files| ==>
              files[i].index == index + i && files[i].folderName == folderName && files[i].name == ""
  {
    forall i | 0 <= i < |files|
      ensures ReadFileRecord(data, pos + i * FILE_RECORD_SIZE, lay, dec, folderName, index + i)
                == Ok(Parsed(files[i], pos + i * FILE_RECORD_SIZE + FILE_RECORD_SIZE))
      ensures files[i].index == index + i && files[i].folderName == folderName && files[i].name == ""
    {
      FileEntry(data, pos, lay, dec, folderName, index, i);
      ReadFileRecordFields(data, pos + i * FILE_RECORD_SIZE, lay, dec, folderName, index + i, files[i]);
    }
  }

  /** What LoadFileRecordBlock leaves in a folder from the first pass: the
      structural fields untouched, exactly `fileCount` file records, and the
      name unchanged unless folder names are on. */
  ghost predicate BlockLoaded(before: FolderRecord, after: FolderRecord, lay: Layout)
  {
    && after.fileCount == before.fileCount
    && after.unk == before.unk
    && after.offset == before.offset
    && |after.files| == before.fileCount
    && (!lay.folderNames ==> after.name == before.name)
    && forall i :: 0 <= i < |after.files| ==>
         after.files[i].folderName == after.name && after.files[i].index == i && after.files[i].name == ""
  }

  /** Where a folder's block starts its file records: after the optional
      length-prefixed name. */
  function FileRecordsStart(data: seq<byte>, pos: nat, lay: Layout): nat
  {
    if lay.folderNames && pos < |data| then pos + 1 + data[pos] else pos
  }

  /** FolderRecord.LoadFileRecordBlock: the folder's name when folder names
      are on, then its `fileCount` file records. */
  function LoadFileRecordBlock(data: seq<byte>, pos: nat, lay: Layout, dec: Decoder, folder: FolderRecord)
    : (r: Result<Parsed<FolderRecord>>)
    ensures r.Ok? ==> BlockLoaded(folder, r.value.item, lay)
    ensures r.Ok? ==> r.value.next == FileRecordsStart(data, pos, lay) + folder.fileCount * FILE_RECORD_SIZE
    ensures r.Err? ==> r.error == EndOfStream
  {
    var name :- if lay.folderNames then ReadStringLen(data, pos, lay.encoding, dec) else Ok(Parsed(folder.name, pos));
    var files :- ReadFileRecords(data, name.next, lay, dec, name.item, folder.fileCount, 0);
    ReadFileRecordsFields(data, name.next, lay, dec, name.item, folder.fileCount, 0);
    Ok(Parsed(folder.(name := name.item, files := files.item), files.next))
  }

  /** The second loop of LoadFolderRecords: every folder's block, in table order. */
  function LoadFileRecordBlocks(data: seq<byte>, pos: nat, lay: Layout, dec: Decoder, folders: seq<FolderRecord>)
    : (r: Result<Parsed<seq<FolderRecord>>>)
    decreases |folders|
    ensures r.Ok? ==> |r.value.item| == |folders|
    ensures r.Ok? ==> forall i :: 0 <= i < |folders| ==> BlockLoaded(folders[i], r.value.item[i], lay)
    ensures r.Err? ==> r.error == EndOfStream
  {
    if folders == [] then Ok(Parsed([], pos))
    else
      var first :- LoadFileRecordBlock(data, pos, lay, dec, folders[0]);
      var rest :- LoadFileRecordBlocks(data, first.next, lay, dec, folders[1..]);
      Ok(Parsed([first.item] + rest.item, rest.next))
  }

  /** A block of file records loads exactly when every one of its 16-byte
      slots holds a record. */
  lemma ReadFileRecordsOk(data: seq<byte>, pos: nat, lay: Layout, dec: Decoder, folderName: string, count: nat, index: nat)
    ensures ReadFileRecords(data, pos, lay, dec, folderName, count, index).Ok? <==>
              forall i :: 0 <= i < count ==>
                ReadFileRecord(data, pos + i * FILE_RECORD_SIZE, lay, dec, folderName, index + i).Ok?
  {
    var read := FileReader(data, lay, dec, folderName);
    ReadFileRecordsAt(data, pos, lay, dec, folderName, count, index);
    if forall i :: 0 <= i < count ==> ReadFileRecord(data, pos + i * FILE_RECORD_SIZE, lay, dec, folderName, index + i).Ok? {
      forall i | 0 <= i < count
        ensures EntryAt(read, pos, FILE_RECORD_SIZE, index, i).Ok?
      {
        FileEntry(data, pos, lay, dec, folderName, index, i);
      }
    } else {
      var i :| 0 <= i < count && !ReadFileRecord(data, pos + i * FILE_RECORD_SIZE, lay, dec, folderName, index + i).Ok?;
      FileEntry(data, pos, lay, dec, folderName, index, i);
      assert !EntryAt(read, pos, FILE_RECORD_SIZE, index, i).Ok?;
    }
  }

  /** The name a block gives its folder: the length-prefixed string at the
      start of the block when folder names are on, the old name otherwise. */
  function BlockName(data: seq<byte>, pos: nat, lay: Layout, dec: Decoder, folder: FolderRecord): string
  {
    if lay.folderNames && ReadStringLen(data, pos, lay.encoding, dec).Ok?
    then ReadStringLen(data, pos, lay.encoding, dec).value.item
    else folder.name
  }

  /** Once the name is read, a block is its file records under that name. */
  lemma LoadFileRecordBlockUnfold(data: seq<byte>, pos: nat, lay: Layout, dec: Decoder, folder: FolderRecord)
    requires !lay.folderNames || ReadStringLen(data, pos, lay.encoding, dec).Ok?
    ensures var name := BlockName(data, pos, lay, dec, folder);
            var files := ReadFileRecords(data, FileRecordsStart(data, pos, lay), lay, dec, name, folder.fileCount, 0);
            var r := LoadFileRecordBlock(data, pos, lay, dec, folder);
            && (r.Ok? <==> files.Ok?)
            && (r.Ok? ==> r.value.item == folder.(name := name, files := files.value.item))
  {
  }

  /** A block whose name cannot be read fails. */
  lemma LoadFileRecordBlockNameFails(data: seq<byte>, pos: nat, lay: Layout, dec: Decoder, folder: FolderRecord)
    requires lay.folderNames && ReadStringLen(data, pos, lay.encoding, dec).Err?
    ensures LoadFileRecordBlock(data, pos, lay, dec, folder) == Err(EndOfStream)
  {
  }

  /** Once its name is read, a block loads exactly when every one of its
      file-record slots after the name holds a record. */
  lemma LoadFileRecordBlockOk(data: seq<byte>, pos: nat, lay: Layout, dec: Decoder, folder: FolderRecord)
    requires !lay.folderNames || ReadStringLen(data, pos, lay.encoding, dec).Ok?
    ensures var name := BlockName(data, pos, lay, dec, folder);
            var start := FileRecordsStart(data, pos, lay);
            LoadFileRecordBlock(data, pos, lay, dec, folder).Ok? <==>
              forall j :: 0 <= j < folder.fileCount ==>
                ReadFileRecord(data, start + j * FILE_RECORD_SIZE, lay, dec, name, j).Ok?
  {
    LoadFileRecordBlockUnfold(data, pos, lay, dec, folder);
    ReadFileRecordsOk(data, FileRecordsStart(data, pos, lay), lay, dec, BlockName(data, pos, lay, dec, folder), folder.fileCount, 0);
  }

  /** What one folder's block holds, stated against the bytes: the name is
      the length-prefixed string at the start of the block (when folder
      names are on), and file `j` is the FileRecord constructor's result at
      slot `j` after it. */
  lemma LoadFileRecordBlockBytes(data: seq<byte>, pos: nat, lay: Layout, dec: Decoder, folder: FolderRecord)
    requires LoadFileRecordBlock(data, pos, lay, dec, folder).Ok?
    ensures BlockBytes(data, pos, lay, dec, LoadFileRecordBlock(data, pos, lay, dec, folder).value.item)
  {
    LoadFileRecordBlockUnfold(data, pos, lay, dec, folder);
    BlockBytesOf(data, pos, lay, dec, folder, LoadFileRecordBlock(data, pos, lay, dec, folder).value.item);
  }

  lemma BlockBytesOf(data: seq<byte>, pos: nat, lay: Layout, dec: Decoder, folder: FolderRecord, block: FolderRecord)
    requires !lay.folderNames || ReadStringLen(data, pos, lay.encoding, dec).Ok?
    requires var name := BlockName(data, pos, lay, dec, folder);
             var files := ReadFileRecords(data, FileRecordsStart(data, pos, lay), lay, dec, name, folder.fileCount, 0);
             files.Ok? && block == folder.(name := name, files := files.value.item)
    ensures BlockBytes(data, pos, lay, dec, block)
  {
    ReadFileRecordsFields(data, FileRecordsStart(data, pos, lay), lay, dec, BlockName(data, pos, lay, dec, folder), folder.fileCount, 0);
  }

  /** `block` is what the bytes say at `pos`: its name is the string there
      when folder names are on, and each file is read at its slot after it. */
  ghost predicate BlockBytes(data: seq<byte>, pos: nat, lay: Layout, dec: Decoder, block: FolderRecord)
  {
    var start := FileRecordsStart(data, pos, lay);
    && (lay.folderNames ==> ReadStringLen(data, pos, lay.encoding, dec) == Ok(Parsed(block.name, start)))
    && forall j :: 0 <= j < |block.files| ==>
         ReadFileRecord(data, start + j * FILE_RECORD_SIZE, lay, dec, block.name, j)
           == Ok(Parsed(block.files[j], start + j * FILE_RECORD_SIZE + FILE_RECORD_SIZE))
  }

  /** The declared file counts of a list of folders. */
  function Counts(folders: seq<FolderRecord>): (r: seq<nat>)
    ensures |r| == |folders|
  {
    seq(|folders|, i requires 0 <= i < |folders| => folders[i].fileCount as nat)
  }

  /** Where block `i` of the block pass starts, from the bytes and the
      declared counts alone: each block is an optional length-prefixed name
      and then 16 bytes per file, and the next block follows it directly. */
  function BlockStart(data: seq<byte>, pos: nat, lay: Layout, counts: seq<nat>, i: nat): nat
    requires i <= |counts|
    decreases i
  {
    if i == 0 then pos
    else FileRecordsStart(data, BlockStart(data, pos, lay, counts, i - 1), lay) + counts[i - 1] * FILE_RECORD_SIZE
  }

  /** The blocks after the first start where the blocks of the whole list do,
      one further on. */
  lemma {:induction false} BlockStartShift(data: seq<byte>, pos: nat, lay: Layout, counts: seq<nat>, i: nat)
    requires i < |counts|
    ensures BlockStart(data, FileRecordsStart(data, pos, lay) + counts[0] * FILE_RECORD_SIZE, lay, counts[1..], i)
         == BlockStart(data, pos, lay, counts, i + 1)
    decreases i
  {
    if i > 0 {
      BlockStartShift(data, pos, lay, counts, i - 1);
      assert counts[1..][i - 1] == counts[i];
    }
  }

  /** Every block of a list, each at its BlockStart, is what the bytes say
      there, with its files not yet named. */
  ghost predicate BlocksOnBytes(data: seq<byte>, pos: nat, lay: Layout, dec: Decoder, counts: seq<nat>, blocks: seq<FolderRecord>)
  {
    && |blocks| == |counts|
    && forall i :: 0 <= i < |blocks| ==>
         && BlockBytes(data, BlockStart(data, pos, lay, counts, i), lay, dec, blocks[i])
         && forall j :: 0 <= j < |blocks[i].files| ==> blocks[i].files[j].name == ""
  }

  /** A successful block pass, stated against the bytes: block `i` is read
      at its BlockStart and the pass ends where the blocks do. */
  lemma LoadFileRecordBlocksBytes(data: seq<byte>, pos: nat, lay: Layout, dec: Decoder, folders: seq<FolderRecord>)
    requires LoadFileRecordBlocks(data, pos, lay, dec, folders).Ok?
    ensures var r := LoadFileRecordBlocks(data, pos, lay, dec, folders).value;
            BlocksOnBytes(data, pos, lay, dec, Counts(folders), r.item)
    ensures LoadFileRecordBlocks(data, pos, lay, dec, folders).value.next == BlockStart(data, pos, lay, Counts(folders), |folders|)
  {
    LoadFileRecordBlocksAt(data, pos, lay, dec, folders);
    BlocksOnBytesOf(data, pos, lay, dec, folders, LoadFileRecordBlocks(data, pos, lay, dec, folders).value.item);
  }

  lemma BlocksOnBytesOf(data: seq<byte>, pos: nat, lay: Layout, dec: Decoder, folders: seq<FolderRecord>, items: seq<FolderRecord>)
    requires |items| == |folders|
    requires forall i :: 0 <= i < |folders| ==>
               LoadFileRecordBlock(data, BlockStart(data, pos, lay, Counts(folders), i), lay, dec, folders[i])
                 == Ok(Parsed(items[i], BlockStart(data, pos, lay, Counts(folders), i + 1)))
    ensures BlocksOnBytes(data, pos, lay, dec, Counts(folders), items)
  {
    var c := Counts(folders);
    forall i | 0 <= i < |folders|
      ensures BlockBytes(data, BlockStart(data, pos, lay, c, i), lay, dec, items[i])
      ensures forall j :: 0 <= j < |items[i].files| ==> items[i].files[j].name == ""
    {
      var p := BlockStart(data, pos, lay, c, i);
      assert LoadFileRecordBlock(data, p, lay, dec, folders[i]) == Ok(Parsed(items[i], BlockStart(data, pos, lay, c, i + 1)));
      LoadFileRecordBlockBytes(data, p, lay, dec, folders[i]);
      assert BlockLoaded(folders[i], items[i], lay);
    }
  }

  /** BlockStartShift for every block of the rest at once. */
  lemma BlockStartsShift(data: seq<byte>, pos: nat, lay: Layout, counts: seq<nat>, next: nat, rest: seq<nat>)
    requires |counts| > 0 && rest == counts[1..]
    requires next == FileRecordsStart(data, pos, lay) + counts[0] * FILE_RECORD_SIZE
    ensures forall i :: 0 <= i <= |rest| ==> BlockStart(data, next, lay, rest, i) == BlockStart(data, pos, lay, counts, i + 1)
  {
    forall i | 0 <= i <= |rest|
      ensures BlockStart(data, next, lay, rest, i) == BlockStart(data, pos, lay, counts, i + 1)
    {
      BlockStartShift(data, pos, lay, counts, i);
    }
  }

  /** The block pass succeeds exactly when every folder's block loads at its
      BlockStart. */
  lemma {:induction false} LoadFileRecordBlocksOk(data: seq<byte>, pos: nat, lay: Layout, dec: Decoder, folders: seq<FolderRecord>)
    ensures LoadFileRecordBlocks(data, pos, lay, dec, folders).Ok? <==>
              forall i :: 0 <= i < |folders| ==>
                LoadFileRecordBlock(data, BlockStart(data, pos, lay, Counts(folders), i), lay, dec, folders[i]).Ok?
    decreases |folders|
  {
    if folders != [] {
      var c := Counts(folders);
      var first := LoadFileRecordBlock(data, pos, lay, dec, folders[0]);
      if first.Ok? {
        var next := first.value.next;
        var rest := folders[1..];
        assert LoadFileRecordBlocks(data, pos, lay, dec, folders).Ok? == LoadFileRecordBlocks(data, next, lay, dec, rest).Ok?;
        LoadFileRecordBlocksOk(data, next, lay, dec, rest);
        assert Counts(rest) == c[1..];
        assert c[0] == folders[0].fileCount;
        BlockStartsShift(data, pos, lay, c, next, Counts(rest));
        BlocksConsOk(data, pos, lay, dec, folders, next);
      } else {
        assert !LoadFileRecordBlock(data, BlockStart(data, pos, lay, c, 0), lay, dec, folders[0]).Ok?;
      }
    }
  }

  /** Given that the first block loads, every block loads at its start
      exactly when every block of the rest does at its start shifted by one. */
  lemma BlocksConsOk(data: seq<byte>, pos: nat, lay: Layout, dec: Decoder, folders: seq<FolderRecord>, next: nat)
    requires |folders| > 0
    requires LoadFileRecordBlock(data, pos, lay, dec, folders[0]).Ok?
    requires next == BlockStart(data, pos, lay, Counts(folders), 1)
    requires forall i :: 0 <= i <= |folders| - 1 ==>
               BlockStart(data, next, lay, Counts(folders[1..]), i) == BlockStart(data, pos, lay, Counts(folders), i + 1)
    ensures (forall i :: 0 <= i < |folders| - 1 ==>
               LoadFileRecordBlock(data, BlockStart(data, next, lay, Counts(folders[1..]), i), lay, dec, folders[1..][i]).Ok?)
        <==> (forall i :: 0 <= i < |folders| ==>
               LoadFileRecordBlock(data, BlockStart(data, pos, lay, Counts(folders), i), lay, dec, folders[i]).Ok?)
  {
    var c, rc, rest := Counts(folders), Counts(folders[1..]), folders[1..];
    if forall i :: 0 <= i < |rest| ==> LoadFileRecordBlock(data, BlockStart(data, next, lay, rc, i), lay, dec, rest[i]).Ok? {
      forall i | 1 <= i < |folders|
        ensures LoadFileRecordBlock(data, BlockStart(data, pos, lay, c, i), lay, dec, folders[i]).Ok?
      {
        assert folders[i] == rest[i - 1];
        assert BlockStart(data, next, lay, rc, i - 1) == BlockStart(data, pos, lay, c, i);
      }
    } else {
      var j :| 0 <= j < |rest| && !LoadFileRecordBlock(data, BlockStart(data, next, lay, rc, j), lay, dec, rest[j]).Ok?;
      assert BlockStart(data, next, lay, rc, j) == BlockStart(data, pos, lay, c, j + 1);
      assert !LoadFileRecordBlock(data, BlockStart(data, pos, lay, c, j + 1), lay, dec, folders[j + 1]).Ok?;
    }
  }

  /** Block `i` of a successful block pass is the block loaded at its
      BlockStart, which ends where block `i + 1` starts; the pass ends after
      the last block. */
  lemma {:induction false} LoadFileRecordBlocksAt(data: seq<byte>, pos: nat, lay: Layout, dec: Decoder, folders: seq<FolderRecord>)
    requires LoadFileRecordBlocks(data, pos, lay, dec, folders).Ok?
    ensures var r := LoadFileRecordBlocks(data, pos, lay, dec, folders).value;
            r.next == BlockStart(data, pos, lay, Counts(folders), |folders|)
    ensures var r := LoadFileRecordBlocks(data, pos, lay, dec, folders).value;
            forall i :: 0 <= i < |folders| ==>
              LoadFileRecordBlock(data, BlockStart(data, pos, lay, Counts(folders), i), lay, dec, folders[i])
                == Ok(Parsed(r.item[i], BlockStart(data, pos, lay, Counts(folders), i + 1)))
    decreases |folders|
  {
    var r := LoadFileRecordBlocks(data, pos, lay, dec, folders).value;
    if folders != [] {
      var c := Counts(folders);
      var first := LoadFileRecordBlock(data, pos, lay, dec, folders[0]).value;
      var next := first.next;
      var rest := folders[1..];
      var tail := LoadFileRecordBlocks(data, next, lay, dec, rest).value;
      LoadFileRecordBlocksAt(data, next, lay, dec, rest);
      assert Counts(rest) == c[1..];
      assert c[0] == folders[0].fileCount;
      assert r.item == [first.item] + tail.item;
      BlockStartsShift(data, pos, lay, c, next, Counts(rest));
      BlocksCons(data, pos, lay, dec, folders, next, first.item, tail.item);
    }
  }

  /** The first block followed by the blocks of the rest, each at its start
      shifted by one, are the blocks of the whole list. */
  lemma BlocksCons(data: seq<byte>, pos: nat, lay: Layout, dec: Decoder, folders: seq<FolderRecord>,
                   next: nat, first: FolderRecord, tail: seq<FolderRecord>)
    requires |folders| > 0 && |tail| == |folders| - 1
    requires LoadFileRecordBlock(data, pos, lay, dec, folders[0]) == Ok(Parsed(first, next))
    requires next == BlockStart(data, pos, lay, Counts(folders), 1)
    requires forall i :: 0 <= i < |tail| ==>
               LoadFileRecordBlock(data, BlockStart(data, next, lay, Counts(folders[1..]), i), lay, dec, folders[1..][i])
                 == Ok(Parsed(tail[i], BlockStart(data, next, lay, Counts(folders[1..]), i + 1)))
    requires forall i :: 0 <= i <= |tail| ==>
               BlockStart(data, next, lay, Counts(folders[1..]), i) == BlockStart(data, pos, lay, Counts(folders), i + 1)
    ensures forall i :: 0 <= i < |folders| ==>
              LoadFileRecordBlock(data, BlockStart(data, pos, lay, Counts(folders), i), lay, dec, folders[i])
                == Ok(Parsed(([first] + tail)[i], BlockStart(data, pos, lay, Counts(folders), i + 1)))
  {
    var c, rc, rest := Counts(folders), Counts(folders[1..]), folders[1..];
    forall i | 0 <= i < |folders|
      ensures LoadFileRecordBlock(data, BlockStart(data, pos, lay, c, i), lay, dec, folders[i])
           == Ok(Parsed(([first] + tail)[i], BlockStart(data, pos, lay, c, i + 1)))
    {
      if i > 0 {
        assert folders[i] == rest[i - 1] && ([first] + tail)[i] == tail[i - 1];
        assert BlockStart(data, next, lay, rc, i - 1) == BlockStart(data, pos, lay, c, i);
        assert BlockStart(data, next, lay, rc, i) == BlockStart(data, pos, lay, c, i + 1);
      }
    }
  }

  /** The Files enumeration: every folder's files, folders in table order
      and files in record order within each. */
  function Files(folders: seq<FolderRecord>): seq<FileRecord>
    decreases |folders|
  {
    if folders == [] then [] else folders[0].files + Files(folders[1..])
  }

  /** The sum of the folders' file counts. */
  function SumFileCounts(folders: seq<FolderRecord>): nat
    decreases |folders|
  {
    if folders == [] then 0 else folders[0].fileCount + SumFileCounts(folders[1..])
  }

  /** Enumerating two lists of folders in turn is enumerating their concatenation. */
  lemma {:induction false} FilesConcat(xs: seq<FolderRecord>, ys: seq<FolderRecord>)
    ensures Files(xs + ys) == Files(xs) + Files(ys)
    decreases |xs|
  {
    if xs == [] {
      assert xs + ys == ys;
    } else {
      assert (xs + ys)[1..] == xs[1..] + ys;
      FilesConcat(xs[1..], ys);
    }
  }

  /** File `j` of folder `i` is enumerated right after all files of the
      folders before `i`. */
  lemma {:induction false} FilesOrder(folders: seq<FolderRecord>, i: nat, j: nat)
    requires i < |folders| && j < |folders[i].files|
    ensures |Files(folders[..i])| + j < |Files(folders)|
    ensures Files(folders)[|Files(folders[..i])| + j] == folders[i].files[j]
  {
    assert folders == folders[..i] + ([folders[i]] + folders[i + 1..]);
    FilesConcat(folders[..i], [folders[i]] + folders[i + 1..]);
    assert ([folders[i]] + folders[i + 1..])[1..] == folders[i + 1..];
  }

  /** After the block pass every folder holds exactly its declared number of
      files, so the enumeration has the sum of the folders' file counts. */
  lemma {:induction false} LoadedFileCount(before: seq<FolderRecord>, after: seq<FolderRecord>, lay: Layout)
    requires |after| == |before|
    requires forall i :: 0 <= i < |before| ==> BlockLoaded(before[i], after[i], lay)
    ensures |Files(after)| == SumFileCounts(before)
    decreases |before|
  {
    if before != [] {
      assert BlockLoaded(before[0], after[0], lay);
      assert forall i :: 0 <= i < |before[1..]| ==> before[1..][i] == before[i + 1] && after[1..][i] == after[i + 1];
      LoadedFileCount(before[1..], after[1..], lay);
    }
  }
}
