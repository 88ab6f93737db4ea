/**
  The archive header: the "BSA\0" magic, eight little-endian u32 fields in
  a fixed order, and the switches derived from them (the flag getters of
  BSAReader). Everything later stages need from the header is gathered in a
  `Layout`, chosen once when the header has been read.
*/
module BsaHeader {
  import opened Binary
  import opened Stream
  import opened Versions
  import opened Utils

  /** "BSA\0" in ASCII. */
  const MAGIC: seq<byte> := [0x42, 0x53, 0x41, 0x00]
  const HEADER_SIZE: nat := 36

  // ArchiveFlags bits the reader consults.
  const HAS_FOLDER_NAMES: nat := 0x1
  const HAS_FILE_NAMES: nat := 0x2
  const COMPRESSED_BY_DEFAULT: nat := 0x4
  const HAS_FILE_NAME_BLOBS: nat := 0x100

  datatype Header = Header(
    version: u32,
    folderRecordOffset: u32,
    archiveFlags: u32,
    folderCount: u32,
    fileCount: u32,
    totalFolderNameLength: u32,
    totalFileNameLength: u32,
    fileFlags: u32)

  predicate HasFolderNames(h: Header) { HasFlag(h.archiveFlags, HAS_FOLDER_NAMES) }

  /** Exposed by the reader, but no stage of the load consults it. */
  predicate HasFileNames(h: Header) { HasFlag(h.archiveFlags, HAS_FILE_NAMES) }

  predicate CompressedByDefault(h: Header) { HasFlag(h.archiveFlags, COMPRESSED_BY_DEFAULT) }

  predicate Bit9Set(h: Header) { HasFlag(h.archiveFlags, HAS_FILE_NAME_BLOBS) }

  /** Name blobs exist only under the FO3 and SSE version codes, whatever the flag says. */
  predicate HasNameBlobs(h: Header)
  {
    if h.version == FO3 || h.version == SSE then Bit9Set(h) else false
  }

  /** The FileFlags getter: it hands back the archive flags, not the file
      flags read into the last header field. */
  function FileFlagsOf(h: Header): u32
  {
    h.archiveFlags
  }

  /** FileFlags reports the archive flags, and the file-flags field has no
      say in it. */
  lemma FileFlagsIgnoresFileFlagsField(h: Header, f: u32)
    ensures FileFlagsOf(h) == h.archiveFlags
    ensures FileFlagsOf(h.(fileFlags := f)) == FileFlagsOf(h)
  {
  }

  /** What the folder, file and name stages read off the header. */
  datatype Layout = Layout(
    wideFolders: bool,
    folderNames: bool,
    compressedByDefault: bool,
    nameBlobs: bool,
    encoding: Encoding)

  function LayoutOf(h: Header): Layout
  {
    Layout(h.version == SSE, HasFolderNames(h), CompressedByDefault(h), HasNameBlobs(h), GetEncoding(h.version))
  }

  predicate HasMagic(data: seq<byte>) { |data| >= 4 && data[..4] == MAGIC }

  /** The header fields at their fixed positions: field k at byte 4 + 4k. */
  function HeaderAt(data: seq<byte>): Header
    requires |data| >= HEADER_SIZE
  {
    Header(U32At(data, 4), U32At(data, 8), U32At(data, 12), U32At(data, 16),
           U32At(data, 20), U32At(data, 24), U32At(data, 28), U32At(data, 32))
  }

  /** LoadHeaders up to the folder records: four bytes of magic (a short
      read simply fails the comparison), then the eight fields in order. */
  function ReadHeader(data: seq<byte>): (r: Result<Parsed<Header>>)
    ensures (r.Err? && r.error == NotABsa) <==> !HasMagic(data)
    ensures r.Ok? <==> HasMagic(data) && |data| >= HEADER_SIZE
    ensures r.Ok? ==> r.value == Parsed(HeaderAt(data), HEADER_SIZE)
  {
    var fourcc := ReadBytes(data, 0, 4);
    if fourcc.item != MAGIC then Err(NotABsa)
    else
      var version :- ReadU32(data, fourcc.next);
      var folderRecordOffset :- ReadU32(data, version.next);
      var archiveFlags :- ReadU32(data, folderRecordOffset.next);
      var folderCount :- ReadU32(data, archiveFlags.next);
      var fileCount :- ReadU32(data, folderCount.next);
      var totalFolderNameLength :- ReadU32(data, fileCount.next);
      var totalFileNameLength :- ReadU32(data, totalFolderNameLength.next);
      var fileFlags :- ReadU32(data, totalFileNameLength.next);
      Ok(Parsed(Header(version.item, folderRecordOffset.item, archiveFlags.item, folderCount.item,
                       fileCount.item, totalFolderNameLength.item, totalFileNameLength.item, fileFlags.item),
                fileFlags.next))
  }

  // ----- Writers and round trips.

  /** The eight header fields in the order they are stored. */
  function Fields(h: Header): (r: seq<u32>)
    ensures |r| == 8
  {
    [h.version, h.folderRecordOffset, h.archiveFlags, h.folderCount,
     h.fileCount, h.totalFolderNameLength, h.totalFileNameLength, h.fileFlags]
  }

  function EncodeHeader(h: Header): (r: seq<byte>)
    ensures |r| == HEADER_SIZE
  {
    MAGIC + EncodeU32s(Fields(h))
  }

  /** A written header reads back whole, with the cursor on the first
      folder record, whatever follows it. */
  lemma ReadHeaderRoundTrip(h: Header, rest: seq<byte>)
    ensures ReadHeader(EncodeHeader(h) + rest) == Ok(Parsed(h, HEADER_SIZE))
  {
    var data := EncodeHeader(h) + rest;
    assert data[..4] == MAGIC;
    forall k | 0 <= k < 8 ensures U32At(data, 4 + 4 * k) == Fields(h)[k] {
      U32sAt(MAGIC, Fields(h), rest, k);
    }
    assert HeaderAt(data) == Header(Fields(h)[0], Fields(h)[1], Fields(h)[2], Fields(h)[3],
                                    Fields(h)[4], Fields(h)[5], Fields(h)[6], Fields(h)[7]);
  }

  /** The archive flags word with the four bits the reader knows about. */
  function ComposeFlags(folderNames: bool, fileNames: bool, compressed: bool, nameBlobs: bool): u32
  {
    (if folderNames then HAS_FOLDER_NAMES else 0) + (if fileNames then HAS_FILE_NAMES else 0)
      + (if compressed then COMPRESSED_BY_DEFAULT else 0) + (if nameBlobs then HAS_FILE_NAME_BLOBS else 0)
  }

  /** Each flag getter reads back its own bit, whatever the other bits of
      the word (`other`, which leaves the four known bits clear) hold, and
      the name-blob bit counts only under the FO3 and SSE version codes. */
  lemma FlagsRoundTrip(h: Header, folderNames: bool, fileNames: bool, compressed: bool, nameBlobs: bool, other: nat)
    requires other % 8 == 0 && (other / HAS_FILE_NAME_BLOBS) % 2 == 0
    requires h.archiveFlags == ComposeFlags(folderNames, fileNames, compressed, nameBlobs) + other
    ensures HasFolderNames(h) == folderNames
    ensures HasFileNames(h) == fileNames
    ensures CompressedByDefault(h) == compressed
    ensures HasNameBlobs(h) == (nameBlobs && (h.version == FO3 || h.version == SSE))
  {
    var a := if folderNames then 1 else 0;
    var b := if fileNames then 1 else 0;
    var d := if compressed then 1 else 0;
    var e := if nameBlobs then 1 else 0;
    LowFlagBits(h.archiveFlags, other, a, b, d, e);
    HighFlagBit(h.archiveFlags, other, a, b, d, e);
  }

  /** Bits 0, 1 and 2 of a word whose other bits are a multiple of 8. */
  lemma LowFlagBits(x: nat, other: nat, a: nat, b: nat, d: nat, e: nat)
    requires other % 8 == 0 && a <= 1 && b <= 1 && d <= 1
    requires x == other + a + 2 * b + 4 * d + 256 * e
    ensures x % 2 == a && (x / 2) % 2 == b && (x / 4) % 2 == d
  {
    var m := other / 8;
    var z := 2 * m + d + 64 * e;
    var y := 2 * z + b;
    assert x == 2 * y + a;
    assert x / 2 == y && x % 2 == a;
    assert y % 2 == b;
    assert x == 4 * z + (a + 2 * b) && 0 <= a + 2 * b < 4;
    assert x / 4 == z;
    assert z == 2 * (m + 32 * e) + d;
  }

  /** Bit 8 of a word whose other bits leave bit 8 clear. */
  lemma HighFlagBit(x: nat, other: nat, a: nat, b: nat, d: nat, e: nat)
    requires other % 8 == 0 && (other / 256) % 2 == 0 && a <= 1 && b <= 1 && d <= 1 && e <= 1
    requires x == other + a + 2 * b + 4 * d + 256 * e
    ensures (x / 256) % 2 == e
  {
    var m := other / 8;
    var q, k := m / 32, m % 32;
    assert other == 256 * q + 8 * k;
    assert other / 256 == q;
    var low := 8 * k + a + 2 * b + 4 * d;
    assert x == 256 * (q + e) + low && 0 <= low < 256;
    assert x / 256 == q + e;
  }

  /** Flipping the HasFileNames bit changes nothing any later stage sees:
      the file-name pass runs whether or not the bit is set. */
  lemma LayoutIgnoresFileNamesBit(h: Header)
    ensures var flipped := if HasFileNames(h) then h.archiveFlags - HAS_FILE_NAMES else h.archiveFlags + HAS_FILE_NAMES;
            flipped < TWO_TO_32 && LayoutOf(h.(archiveFlags := flipped)) == LayoutOf(h)
  {
    var x := h.archiveFlags;
    var flipped := if HasFileNames(h) then x - HAS_FILE_NAMES else x + HAS_FILE_NAMES;
    var q := x / 4;
    assert x == 4 * q + x % 4;
    assert HasFileNames(h) <==> x % 4 >= 2;
    assert flipped == 4 * q + (if x % 4 >= 2 then x % 4 - 2 else x % 4 + 2);
    assert flipped / 4 == q && flipped % 2 == x % 2;
    DivBy256(x);
    DivBy256(flipped);
    var g := h.(archiveFlags := flipped);
    assert HasFolderNames(g) == HasFolderNames(h);
    assert CompressedByDefault(g) == CompressedByDefault(h);
    assert Bit9Set(g) == Bit9Set(h);
  }

  /** Bit 8 of `x` is bit 6 of `x / 4`. */
  lemma DivBy256(x: nat)
    ensures x / 256 == (x / 4) / 64
  {
  }
}
