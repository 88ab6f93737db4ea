/**
  Loading a whole archive index, as the BSAReader constructor does: the
  header, then the three passes of LoadFolderRecords (folder table, one
  block per folder, one name per file), and what the loaded archive
  offers its users: the Files enumeration and each file's Path.
*/
module BsaReader {
  import opened Binary
  import opened Stream
  import opened Utils
  import opened DotNetPath
  import opened BsaHeader
  import opened BsaRecords
  import opened BsaNames

  /** A loaded archive: the header fields and the folders with their files. */
  datatype Archive = Archive(header: Header, folders: seq<FolderRecord>)

  /** The constructor: LoadHeaders followed by LoadFolderRecords. */
  function Load(data: seq<byte>, dec: Decoder): (r: Result<Archive>)
    ensures (r.Err? && r.error == NotABsa) <==> !HasMagic(data)
    ensures r.Ok? ==> |data| >= HEADER_SIZE && r.value.header == HeaderAt(data)
    ensures r.Ok? ==> |r.value.folders| == r.value.header.folderCount
  {
    var header :- ReadHeader(data);
    var folders :- LoadFolderRecords(data, header.item, dec);
    Ok(Archive(header.item, folders))
  }

  /** LoadFolderRecords: the folder table right after the header, then each
      folder's block, then the names, all read with the header's Layout. */
  function LoadFolderRecords(data: seq<byte>, h: Header, dec: Decoder): (r: Result<seq<FolderRecord>>)
    ensures r.Ok? ==> |r.value| == h.folderCount
    ensures r.Err? ==> r.error == EndOfStream
  {
    var lay := LayoutOf(h);
    var table :- ReadFolderRecords(data, HEADER_SIZE, lay, h.folderCount);
    var blocks :- LoadFileRecordBlocks(data, table.next, lay, dec, table.item);
    var named :- NamePass(data, blocks.next, lay.encoding, dec, blocks.item);
    Ok(named.item)
  }

  /** A loaded archive holds what LoadFolderRecords read under its header. */
  lemma LoadedFolders(data: seq<byte>, dec: Decoder)
    requires Load(data, dec).Ok?
    ensures var a := Load(data, dec).value;
            LoadFolderRecords(data, a.header, dec) == Ok(a.folders)
  {
  }

  /** The Layout a loaded archive was read with. */
  function LayoutOfArchive(a: Archive): Layout
  {
    LayoutOf(a.header)
  }

  /** The folders LoadFolderRecords returns are the folder table after the
      block pass and the name pass. */
  lemma Passes(data: seq<byte>, h: Header, dec: Decoder) returns (table: seq<FolderRecord>, blocks: seq<FolderRecord>)
    requires LoadFolderRecords(data, h, dec).Ok?
    ensures var folders := LoadFolderRecords(data, h, dec).value;
            var lay := LayoutOf(h);
            && |table| == |blocks| == |folders|
            && (forall i :: 0 <= i < |table| ==>
                  && HEADER_SIZE + i * FolderRecordSize(lay) + FolderRecordSize(lay) <= |data|
                  && table[i] == FolderAt(data, HEADER_SIZE + i * FolderRecordSize(lay), lay))
            && (forall i :: 0 <= i < |table| ==> BlockLoaded(table[i], blocks[i], lay))
            && (forall i :: 0 <= i < |table| ==>
                  folders[i] == blocks[i].(files := folders[i].files) && Renamed(blocks[i].files, folders[i].files))
  {
    var lay := LayoutOf(h);
    var t := ReadFolderRecords(data, HEADER_SIZE, lay, h.folderCount).value;
    ReadFolderRecordsSpec(data, HEADER_SIZE, lay, h.folderCount);
    var b := LoadFileRecordBlocks(data, t.next, lay, dec, t.item).value;
    table, blocks := t.item, b.item;
  }

  /** `folder` is what the passes make of record `i` of the folder table
      at byte 36: the same table fields, exactly its declared number of
      files, a name only when folder names are on, and files that point
      back to it. */
  ghost predicate FromTable(data: seq<byte>, lay: Layout, i: nat, folder: FolderRecord)
  {
    var w := FolderRecordSize(lay);
    && HEADER_SIZE + i * w + w <= |data|
    && var t := FolderAt(data, HEADER_SIZE + i * w, lay);
    && folder.fileCount == t.fileCount
    && folder.unk == t.unk
    && folder.offset == t.offset
    && |folder.files| == t.fileCount
    && (!lay.folderNames ==> folder.name == "")
    && PointsBack(folder)
  }

  /** Folder `i` as LoadFolderRecords returns it. */
  lemma FolderOfPasses(data: seq<byte>, h: Header, dec: Decoder, i: nat)
    requires LoadFolderRecords(data, h, dec).Ok? && i < |LoadFolderRecords(data, h, dec).value|
    ensures FromTable(data, LayoutOf(h), i, LoadFolderRecords(data, h, dec).value[i])
  {
    var lay := LayoutOf(h);
    var table, blocks := Passes(data, h, dec);
    FolderAfterPasses(table[i], blocks[i], LoadFolderRecords(data, h, dec).value[i], lay);
  }

  /** Folder `i` of a loaded archive is made from record `i` of its folder table. */
  lemma LoadFolder(data: seq<byte>, dec: Decoder, i: nat)
    requires Load(data, dec).Ok? && i < |Load(data, dec).value.folders|
    ensures var a := Load(data, dec).value;
            FromTable(data, LayoutOfArchive(a), i, a.folders[i])
  {
    LoadedFolders(data, dec);
    FolderOfPasses(data, Load(data, dec).value.header, dec, i);
  }

  /** Each file of the folder records the folder's name and its own position. */
  ghost predicate PointsBack(folder: FolderRecord)
  {
    forall j :: 0 <= j < |folder.files| ==> folder.files[j].folderName == folder.name && folder.files[j].index == j
  }

  /** What the block and name passes keep of a folder record. */
  lemma FolderAfterPasses(entry: FolderRecord, block: FolderRecord, folder: FolderRecord, lay: Layout)
    requires BlockLoaded(entry, block, lay)
    requires folder == block.(files := folder.files) && Renamed(block.files, folder.files)
    ensures folder.fileCount == entry.fileCount && folder.unk == entry.unk && folder.offset == entry.offset
    ensures |folder.files| == entry.fileCount
    ensures !lay.folderNames ==> folder.name == entry.name
    ensures PointsBack(folder)
  {
    forall j | 0 <= j < |folder.files|
      ensures folder.files[j].folderName == folder.name && folder.files[j].index == j
    {
      assert folder.files[j] == block.files[j].(name := folder.files[j].name);
    }
  }

  /** A folder list whose folders each hold their declared number of files
      enumerates the sum of the declared counts. */
  lemma {:induction false} FileCountsMatch(folders: seq<FolderRecord>)
    requires forall i :: 0 <= i < |folders| ==> |folders[i].files| == folders[i].fileCount
    ensures |Files(folders)| == SumFileCounts(folders)
    decreases |folders|
  {
    if folders != [] {
      FileCountsMatch(folders[1..]);
    }
  }

  /** The Files enumeration of a loaded archive has one entry per declared file. */
  lemma LoadFileCount(data: seq<byte>, dec: Decoder)
    requires Load(data, dec).Ok?
    ensures |Files(Load(data, dec).value.folders)| == SumFileCounts(Load(data, dec).value.folders)
  {
    var folders := Load(data, dec).value.folders;
    forall i | 0 <= i < |folders| ensures |folders[i].files| == folders[i].fileCount {
      LoadFolder(data, dec, i);
    }
    FileCountsMatch(folders);
  }

  /** Where the folder table ends and the first folder's block begins. */
  function TableEnd(h: Header): nat
  {
    HEADER_SIZE + h.folderCount * FolderRecordSize(LayoutOf(h))
  }

  /** Where the block of folder `i` starts, computed from the bytes and the
      folders' declared counts; with `i == |folders|`, where the names
      start. */
  function FolderBlockStart(data: seq<byte>, h: Header, folders: seq<FolderRecord>, i: nat): nat
    requires i <= |folders|
  {
    BlockStart(data, TableEnd(h), LayoutOf(h), Counts(folders), i)
  }

  /** The block pass of LoadFolderRecords laid out on the bytes: the blocks
      follow the table back to back, each is what the bytes say at its
      start, the name pass starts right after the last one, and the loaded
      folders are those blocks with names attached. */
  lemma BlockPass(data: seq<byte>, h: Header, dec: Decoder) returns (blocks: seq<FolderRecord>)
    requires LoadFolderRecords(data, h, dec).Ok?
    ensures var folders := LoadFolderRecords(data, h, dec).value;
            BlocksOnBytes(data, TableEnd(h), LayoutOf(h), dec, Counts(folders), blocks)
    ensures var folders := LoadFolderRecords(data, h, dec).value;
            forall i :: 0 <= i < |folders| ==>
              folders[i] == blocks[i].(files := folders[i].files) && Renamed(blocks[i].files, folders[i].files)
    ensures var folders := LoadFolderRecords(data, h, dec).value;
            var named := NamePass(data, FolderBlockStart(data, h, folders, |folders|), LayoutOf(h).encoding, dec, blocks);
            named.Ok? && named.value.item == folders
  {
    var lay := LayoutOf(h);
    var folders := LoadFolderRecords(data, h, dec).value;
    var table := ReadFolderRecords(data, HEADER_SIZE, lay, h.folderCount).value;
    var b := LoadFileRecordBlocks(data, table.next, lay, dec, table.item).value;
    blocks := b.item;
    LoadFileRecordBlocksBytes(data, table.next, lay, dec, table.item);
    CountsKept(table.item, blocks, folders, lay);
  }

  /** The block and name passes keep every folder's declared count. */
  lemma CountsKept(table: seq<FolderRecord>, blocks: seq<FolderRecord>, folders: seq<FolderRecord>, lay: Layout)
    requires |table| == |blocks| == |folders|
    requires forall i :: 0 <= i < |table| ==> BlockLoaded(table[i], blocks[i], lay)
    requires forall i :: 0 <= i < |folders| ==> folders[i] == blocks[i].(files := folders[i].files)
    ensures Counts(folders) == Counts(table)
  {
    forall i | 0 <= i < |folders| ensures Counts(folders)[i] == Counts(table)[i] {
      assert BlockLoaded(table[i], blocks[i], lay);
    }
  }

  /** `folder` is what the bytes say at `p`, as the loaded folder: its name is
      the string at `p` when folder names are on, and each of its files,
      before the name pass named it, is the FileRecord constructor's result
      at its slot. */
  ghost predicate FolderBytes(data: seq<byte>, p: nat, lay: Layout, dec: Decoder, folder: FolderRecord)
  {
    var start := FileRecordsStart(data, p, lay);
    && (lay.folderNames ==> ReadStringLen(data, p, lay.encoding, dec) == Ok(Parsed(folder.name, start)))
    && forall j :: 0 <= j < |folder.files| ==>
         ReadFileRecord(data, start + j * FILE_RECORD_SIZE, lay, dec, folder.name, j)
           == Ok(Parsed(folder.files[j].(name := ""), start + j * FILE_RECORD_SIZE + FILE_RECORD_SIZE))
  }

  lemma FolderBytesOf(data: seq<byte>, p: nat, lay: Layout, dec: Decoder, block: FolderRecord, folder: FolderRecord)
    requires BlockBytes(data, p, lay, dec, block)
    requires forall j :: 0 <= j < |block.files| ==> block.files[j].name == ""
    requires folder == block.(files := folder.files) && Renamed(block.files, folder.files)
    ensures FolderBytes(data, p, lay, dec, folder)
  {
    forall j | 0 <= j < |folder.files| ensures folder.files[j].(name := "") == block.files[j] {
      assert folder.files[j] == block.files[j].(name := folder.files[j].name);
    }
  }

  /** Folder `i` as LoadFolderRecords returns it is what the bytes say at the
      start of its block. */
  lemma FolderOfBytes(data: seq<byte>, h: Header, dec: Decoder, i: nat)
    requires LoadFolderRecords(data, h, dec).Ok? && i < |LoadFolderRecords(data, h, dec).value|
    ensures var folders := LoadFolderRecords(data, h, dec).value;
            FolderBytes(data, FolderBlockStart(data, h, folders, i), LayoutOf(h), dec, folders[i])
  {
    var folders := LoadFolderRecords(data, h, dec).value;
    var blocks := BlockPass(data, h, dec);
    assert BlockBytes(data, FolderBlockStart(data, h, folders, i), LayoutOf(h), dec, blocks[i]);
    FolderBytesOf(data, FolderBlockStart(data, h, folders, i), LayoutOf(h), dec, blocks[i], folders[i]);
  }

  /** Folder `i` of a loaded archive: its name and its files' records are
      the ones stored in block `i`, which starts where the blocks before it,
      read back to back after the folder table, end. */
  lemma LoadFolderBytes(data: seq<byte>, dec: Decoder, i: nat)
    requires Load(data, dec).Ok? && i < |Load(data, dec).value.folders|
    ensures var a := Load(data, dec).value;
            FolderBytes(data, FolderBlockStart(data, a.header, a.folders, i), LayoutOfArchive(a), dec, a.folders[i])
  {
    LoadedFolders(data, dec);
    FolderOfBytes(data, Load(data, dec).value.header, dec, i);
  }

  /** The names of a loaded archive's files, in enumeration order, are the
      block of null-terminated names that starts right after the last
      folder's block. */
  lemma LoadNames(data: seq<byte>, dec: Decoder)
    requires Load(data, dec).Ok?
    ensures var a := Load(data, dec).value;
            var names := ReadNames(data, FolderBlockStart(data, a.header, a.folders, |a.folders|),
                                   LayoutOfArchive(a).encoding, dec, |Files(a.folders)|);
            names.Ok? && names.value.item == NamesOf(Files(a.folders))
  {
    LoadedFolders(data, dec);
    NamesOfPasses(data, Load(data, dec).value.header, dec);
  }

  /** The names pass of LoadFolderRecords, as one block of names after the
      last folder block. */
  lemma NamesOfPasses(data: seq<byte>, h: Header, dec: Decoder)
    requires LoadFolderRecords(data, h, dec).Ok?
    ensures var folders := LoadFolderRecords(data, h, dec).value;
            var names := ReadNames(data, FolderBlockStart(data, h, folders, |folders|), LayoutOf(h).encoding, dec, |Files(folders)|);
            names.Ok? && names.value.item == NamesOf(Files(folders))
  {
    var lay := LayoutOf(h);
    var folders := LoadFolderRecords(data, h, dec).value;
    var blocks := BlockPass(data, h, dec);
    var p := FolderBlockStart(data, h, folders, |folders|);
    NamesOfBlocks(data, p, lay.encoding, dec, blocks, folders);
  }

  /** A name pass that turned `blocks` into `folders` read one block of names
      at its start, the names of `folders` in enumeration order. */
  lemma NamesOfBlocks(data: seq<byte>, p: nat, enc: Encoding, dec: Decoder, blocks: seq<FolderRecord>, folders: seq<FolderRecord>)
    requires NamePass(data, p, enc, dec, blocks).Ok? && NamePass(data, p, enc, dec, blocks).value.item == folders
    ensures ReadNames(data, p, enc, dec, |Files(folders)|).Ok?
    ensures ReadNames(data, p, enc, dec, |Files(folders)|).value.item == NamesOf(Files(folders))
  {
    NamePassIsFlat(data, p, enc, dec, blocks);
    var names := ReadNames(data, p, enc, dec, |Files(blocks)|).value;
    assert folders == AttachNames(blocks, names.item);
    FilesOfAttachNames(blocks, names.item);
    NamesOfNamed(Files(blocks), names.item);
  }

  /** The names of a list of files. */
  function NamesOf(files: seq<FileRecord>): (r: seq<string>)
    ensures |r| == |files|
  {
    seq(|files|, i requires 0 <= i < |files| => files[i].name)
  }

  lemma NamesOfNamed(files: seq<FileRecord>, names: seq<string>)
    requires |names| == |files|
    ensures NamesOf(Named(files, names)) == names
  {
  }

  /** FileRecord.Path: the bare name when the folder has no name, otherwise
      folder and name joined by Path.Combine. The path always ends with the
      file's name, and starts with the folder's name unless the file's name
      is rooted. */
  function FilePath(f: FileRecord): (r: string)
    ensures f.folderName == "" ==> r == f.name
    ensures |f.name| <= |r| && r[|r| - |f.name|..] == f.name
    ensures !IsPathRooted(f.name) ==> |f.folderName| <= |r| && r[..|f.folderName|] == f.folderName
  {
    if IsEmpty(Some(f.folderName)) then f.name else Combine(f.folderName, f.name)
  }

  /** When neither side has a separator at the join, the path is the folder,
      a backslash and the name; the folder may itself be nested, as
      "meshes\\clutter" is. */
  lemma FilePathOfPlainNames(f: FileRecord)
    requires f.folderName != "" && f.name != ""
    requires !IsDirectorySeparator(f.folderName[|f.folderName| - 1]) && !IsPathRooted(f.name)
    ensures FilePath(f) == f.folderName + "\\" + f.name
  {
    CombinePlainNames(f.folderName, f.name);
    var r := FilePath(f);
    assert r == r[..|f.folderName|] + [r[|f.folderName|]] + r[|f.folderName| + 1..];
  }

  /** The paths of an archive's files, in enumeration order. */
  function Paths(a: Archive): (r: seq<string>)
    ensures |r| == |Files(a.folders)|
  {
    var files := Files(a.folders);
    seq(|files|, i requires 0 <= i < |files| => FilePath(files[i]))
  }

  /** Without folder names every folder's name stays empty, so every path of
      a loaded archive is the bare file name. */
  lemma PathsWithoutFolderNames(data: seq<byte>, dec: Decoder)
    requires Load(data, dec).Ok? && !HasFolderNames(Load(data, dec).value.header)
    ensures var a := Load(data, dec).value;
            forall k :: 0 <= k < |Files(a.folders)| ==> Paths(a)[k] == Files(a.folders)[k].name
  {
    var a := Load(data, dec).value;
    forall i, j | 0 <= i < |a.folders| && 0 <= j < |a.folders[i].files|
      ensures a.folders[i].files[j].folderName == ""
    {
      LoadFolder(data, dec, i);
    }
    forall k | 0 <= k < |Files(a.folders)| ensures Files(a.folders)[k].folderName == "" {
      FilesMember(a.folders, k);
    }
  }

  /** Every enumerated file is some file of some folder. */
  lemma {:induction false} FilesMember(folders: seq<FolderRecord>, k: nat)
    requires k < |Files(folders)|
    ensures exists i, j :: 0 <= i < |folders| && 0 <= j < |folders[i].files| && Files(folders)[k] == folders[i].files[j]
    decreases |folders|
  {
    if k < |folders[0].files| {
      assert Files(folders)[k] == folders[0].files[k];
    } else {
      FilesMember(folders[1..], k - |folders[0].files|);
      var i, j :| 0 <= i < |folders[1..]| && 0 <= j < |folders[1..][i].files|
                  && Files(folders[1..])[k - |folders[0].files|] == folders[1..][i].files[j];
      assert Files(folders)[k] == folders[i + 1].files[j];
    }
  }
}
