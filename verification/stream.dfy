/**
  The in-memory stand-in for the seekable file stream and its BinaryReader:
  an immutable byte sequence and an explicit cursor. A read returns the value
  and the cursor after it, or the exception the reader would throw.
*/
module Stream {
  import opened Binary

  /** The two exceptions the archive reader can raise: InvalidDataException
      ("Archive is not a BSA") and EndOfStreamException. */
  datatype Error = NotABsa | EndOfStream

  datatype Result<+T> = Ok(value: T) | Err(error: Error) {
    predicate IsFailure() { Err? }

    function PropagateFailure<U>(): Result<U>
      requires Err?
    {
      Err(error)
    }

    function Extract(): T
      requires Ok?
    {
      value
    }
  }

  /** A value read from the stream and the cursor position just after it. */
  datatype Parsed<+T> = Parsed(item: T, next: nat)

  function Min(a: int, b: int): int { if a <= b then a else b }

  /** BinaryReader.ReadByte: one byte, or EndOfStream at (or past) the end. */
  function ReadByte(data: seq<byte>, pos: nat): (r: Result<Parsed<byte>>)
    ensures r.Ok? <==> pos < |data|
    ensures r.Ok? ==> r.value.item == data[pos] && r.value.next == pos + 1
    ensures r.Err? ==> r.error == EndOfStream
  {
    if pos < |data| then Ok(Parsed(data[pos], pos + 1)) else Err(EndOfStream)
  }

  /** BinaryReader.ReadBytes(n): never fails; near the end it returns fewer
      than `n` bytes, and past the end none, leaving the cursor where it is. */
  function ReadBytes(data: seq<byte>, pos: nat, n: nat): (r: Parsed<seq<byte>>)
    ensures pos <= |data| ==> r.next == Min(pos + n, |data|) && r.item == data[pos..r.next]
    ensures pos > |data| ==> r == Parsed([], pos)
    ensures |r.item| <= n
  {
    if pos >= |data| then Parsed([], pos)
    else
      var end := Min(pos + n, |data|);
      Parsed(data[pos..end], end)
  }

  /** BinaryReader.ReadUInt32: four little-endian bytes, or EndOfStream. */
  function ReadU32(data: seq<byte>, pos: nat): (r: Result<Parsed<u32>>)
    ensures r.Ok? <==> pos + 4 <= |data|
    ensures r.Ok? ==> r.value.item == U32At(data, pos) && r.value.next == pos + 4
    ensures r.Err? ==> r.error == EndOfStream
  {
    if pos + 4 <= |data| then Ok(Parsed(U32At(data, pos), pos + 4)) else Err(EndOfStream)
  }

  /** BinaryReader.ReadUInt64: eight little-endian bytes, or EndOfStream. */
  function ReadU64(data: seq<byte>, pos: nat): (r: Result<Parsed<u64>>)
    ensures r.Ok? <==> pos + 8 <= |data|
    ensures r.Ok? ==> r.value.item == U64At(data, pos) && r.value.next == pos + 8
    ensures r.Err? ==> r.error == EndOfStream
  {
    if pos + 8 <= |data| then Ok(Parsed(U64At(data, pos), pos + 8)) else Err(EndOfStream)
  }

  // ----- Tables of records read back to back.

  /** A reader of one table entry: `read(p, k)` reads entry number `k` at `p`. */
  type EntryReader<T> = (nat, nat) -> Result<Parsed<T>>

  /** `count` entries back to back from `pos`, numbered from `index`: the
      loop `for (idx = 0; idx < count; idx += 1)` of the reader, each entry
      starting where the previous one left the cursor. */
  function ReadEntries<T>(read: EntryReader<T>, pos: nat, count: nat, index: nat): (r: Result<Parsed<seq<T>>>)
    decreases count
    ensures r.Ok? ==> |r.value.item| == count
  {
    if count == 0 then Ok(Parsed([], pos))
    else
      var first :- read(pos, index);
      var rest :- ReadEntries(read, first.next, count - 1, index + 1);
      Ok(Parsed([first.item] + rest.item, rest.next))
  }

  /** Every successful read consumes exactly `width` bytes. */
  ghost predicate FixedWidth<T>(read: EntryReader<T>, width: nat)
  {
    forall p: nat, k: nat :: read(p, k).Ok? ==> read(p, k).value.next == p + width
  }

  /** Every failed read fails at the end of the stream. */
  ghost predicate FailsAtEnd<T>(read: EntryReader<T>)
  {
    forall p: nat, k: nat :: read(p, k).Err? ==> read(p, k).error == EndOfStream
  }

  /** Entry `i` of a table of `width`-byte entries starting at `pos`. */
  function EntryAt<T>(read: EntryReader<T>, pos: nat, width: nat, index: nat, i: nat): Result<Parsed<T>>
  {
    read(pos + i * width, index + i)
  }

  lemma EntryAtShift<T>(read: EntryReader<T>, pos: nat, width: nat, index: nat, i: nat)
    ensures EntryAt(read, pos, width, index, i + 1) == EntryAt(read, pos + width, width, index + 1, i)
  {
    assert pos + (i + 1) * width == (pos + width) + i * width;
  }

  /** A table of fixed-width entries ends `count * width` bytes on, and
      fails only as its entries do. */
  lemma {:induction false} ReadEntriesEnd<T>(read: EntryReader<T>, width: nat, pos: nat, count: nat, index: nat)
    requires FixedWidth(read, width) && FailsAtEnd(read)
    ensures ReadEntries(read, pos, count, index).Ok? ==> ReadEntries(read, pos, count, index).value.next == pos + count * width
    ensures ReadEntries(read, pos, count, index).Err? ==> ReadEntries(read, pos, count, index).error == EndOfStream
    decreases count
  {
    if count > 0 && read(pos, index).Ok? {
      ReadEntriesEnd(read, width, pos + width, count - 1, index + 1);
      assert count * width == width + (count - 1) * width;
    }
  }

  /** A table of fixed-width entries is read whole exactly when each of its
      entries, read at its own slot, is. */
  lemma {:induction false} ReadEntriesOk<T>(read: EntryReader<T>, width: nat, pos: nat, count: nat, index: nat)
    requires FixedWidth(read, width)
    ensures ReadEntries(read, pos, count, index).Ok?
        <==> forall i :: 0 <= i < count ==> EntryAt(read, pos, width, index, i).Ok?
    decreases count
  {
    if count > 0 {
      assert EntryAt(read, pos, width, index, 0) == read(pos, index);
      if read(pos, index).Ok? {
        ReadEntriesOk(read, width, pos + width, count - 1, index + 1);
        assert ReadEntries(read, pos, count, index).Ok? == ReadEntries(read, pos + width, count - 1, index + 1).Ok?;
        var next, nextIndex := pos + width, index + 1;
        if forall i :: 0 <= i < count - 1 ==> EntryAt(read, next, width, nextIndex, i).Ok? {
          forall i | 1 <= i < count ensures EntryAt(read, pos, width, index, i).Ok? {
            EntryAtShift(read, pos, width, index, i - 1);
          }
        } else {
          var j :| 0 <= j < count - 1 && !EntryAt(read, next, width, nextIndex, j).Ok?;
          EntryAtShift(read, pos, width, index, j);
        }
      }
    }
  }

  /** Entry `i` of a table read whole is what the reader returns at slot
      `i`, and the cursor ends right after the slot. */
  lemma {:induction false} ReadEntriesAt<T>(read: EntryReader<T>, width: nat, pos: nat, count: nat, index: nat)
    requires FixedWidth(read, width) && ReadEntries(read, pos, count, index).Ok?
    ensures var items := ReadEntries(read, pos, count, index).value.item;
            forall i :: 0 <= i < count ==>
              EntryAt(read, pos, width, index, i) == Ok(Parsed(items[i], pos + i * width + width))
    decreases count
  {
    if count > 0 {
      var items := ReadEntries(read, pos, count, index).value.item;
      var rest := ReadEntries(read, pos + width, count - 1, index + 1).value.item;
      ReadEntriesAt(read, width, pos + width, count - 1, index + 1);
      assert items == [items[0]] + rest;
      forall i | 0 <= i < count
        ensures EntryAt(read, pos, width, index, i) == Ok(Parsed(items[i], pos + i * width + width))
      {
        if i > 0 {
          EntryAtShift(read, pos, width, index, i - 1);
          assert items[i] == rest[i - 1];
        }
      }
    }
  }
}
