/**
  The last pass of the load: after every folder's block has been read, one
  null-terminated name per file (FileRecord.LoadFileRecord), folders in
  table order and files in record order. The names lie back to back in a
  block of their own.

  `NamePass` follows the two nested loops of the reader. `ReadNames` and
  `AttachNames` are a flat reference: read as many names as there are
  files, then hand them out in enumeration order; the two agree.
*/
module BsaNames {
  import opened Binary
  import opened Stream
  import opened Utils
  import opened BsaRecords

  /** `after` is `before` with nothing but the file names changed. */
  ghost predicate Renamed(before: seq<FileRecord>, after: seq<FileRecord>)
  {
    && |after| == |before|
    && forall i :: 0 <= i < |before| ==> after[i] == before[i].(name := after[i].name)
  }

  /** The inner loop: a name for each file of one folder. */
  function NameFiles(data: seq<byte>, pos: nat, enc: Encoding, dec: Decoder, files: seq<FileRecord>)
    : (r: Result<Parsed<seq<FileRecord>>>)
    decreases |files|
    ensures r.Ok? ==> Renamed(files, r.value.item)
    ensures r.Err? ==> r.error == EndOfStream
  {
    if files == [] then Ok(Parsed([], pos))
    else
      var name :- ReadStringTerm(data, pos, enc, dec);
      var rest :- NameFiles(data, name.next, enc, dec, files[1..]);
      Ok(Parsed([files[0].(name := name.item)] + rest.item, rest.next))
  }

  /** The outer loop: every folder in turn. */
  function NamePass(data: seq<byte>, pos: nat, enc: Encoding, dec: Decoder, folders: seq<FolderRecord>)
    : (r: Result<Parsed<seq<FolderRecord>>>)
    decreases |folders|
    ensures r.Ok? ==> |r.value.item| == |folders|
    ensures r.Ok? ==> forall i :: 0 <= i < |folders| ==>
                        && r.value.item[i] == folders[i].(files := r.value.item[i].files)
                        && Renamed(folders[i].files, r.value.item[i].files)
    ensures r.Err? ==> r.error == EndOfStream
  {
    if folders == [] then Ok(Parsed([], pos))
    else
      var files :- NameFiles(data, pos, enc, dec, folders[0].files);
      var rest :- NamePass(data, files.next, enc, dec, folders[1..]);
      Ok(Parsed([folders[0].(files := files.item)] + rest.item, rest.next))
  }

  /** `n` null-terminated names back to back. */
  function ReadNames(data: seq<byte>, pos: nat, enc: Encoding, dec: Decoder, n: nat): (r: Result<Parsed<seq<string>>>)
    decreases n
    ensures r.Ok? ==> |r.value.item| == n && r.value.next >= pos + n
    ensures r.Err? ==> r.error == EndOfStream
  {
    if n == 0 then Ok(Parsed([], pos))
    else
      var name :- ReadStringTerm(data, pos, enc, dec);
      Prepend(name.item, ReadNames(data, name.next, enc, dec, n - 1))
  }

  /** One name in front of the names read after it. */
  function Prepend(name: string, rest: Result<Parsed<seq<string>>>): Result<Parsed<seq<string>>>
  {
    var tail :- rest;
    Ok(Parsed([name] + tail.item, tail.next))
  }

  /** Reading `b` more names after a successful read of names. */
  function ThenReadNames(first: Result<Parsed<seq<string>>>, data: seq<byte>, enc: Encoding, dec: Decoder, b: nat)
    : Result<Parsed<seq<string>>>
  {
    var x :- first;
    var y :- ReadNames(data, x.next, enc, dec, b);
    Ok(Parsed(x.item + y.item, y.next))
  }

  /** Files with their names set, the k-th name going to the k-th file. */
  function Named(files: seq<FileRecord>, names: seq<string>): (r: seq<FileRecord>)
    requires |names| == |files|
  {
    seq(|files|, i requires 0 <= i < |files| => files[i].(name := names[i]))
  }

  /** Hand out names in enumeration order: each folder takes as many as it has files. */
  function AttachNames(folders: seq<FolderRecord>, names: seq<string>): seq<FolderRecord>
    requires |names| == |Files(folders)|
    decreases |folders|
  {
    if folders == [] then []
    else
      var n := |folders[0].files|;
      [folders[0].(files := Named(folders[0].files, names[..n]))] + AttachNames(folders[1..], names[n..])
  }

  /** The flat reference for the inner loop. */
  function NameFilesFlat(data: seq<byte>, pos: nat, enc: Encoding, dec: Decoder, files: seq<FileRecord>)
    : Result<Parsed<seq<FileRecord>>>
  {
    var names :- ReadNames(data, pos, enc, dec, |files|);
    Ok(Parsed(Named(files, names.item), names.next))
  }

  /** The flat reference for the name pass. */
  function NamePassFlat(data: seq<byte>, pos: nat, enc: Encoding, dec: Decoder, folders: seq<FolderRecord>)
    : Result<Parsed<seq<FolderRecord>>>
  {
    var names :- ReadNames(data, pos, enc, dec, |Files(folders)|);
    Ok(Parsed(AttachNames(folders, names.item), names.next))
  }

  /** Reading a + b names is reading a names and then b more. */
  lemma {:induction false} ReadNamesSplit(data: seq<byte>, pos: nat, enc: Encoding, dec: Decoder, a: nat, b: nat)
    ensures ReadNames(data, pos, enc, dec, a + b) == ThenReadNames(ReadNames(data, pos, enc, dec, a), data, enc, dec, b)
    decreases a
  {
    if a == 0 {
      var y := ReadNames(data, pos, enc, dec, b);
      if y.Ok? { assert [] + y.value.item == y.value.item; }
    } else if ReadStringTerm(data, pos, enc, dec).Ok? {
      var name := ReadStringTerm(data, pos, enc, dec).value;
      ReadNamesSplit(data, name.next, enc, dec, a - 1, b);
      ReadNamesSplitStep(data, pos, enc, dec, a, b, name);
    }
  }

  /** The inductive step of ReadNamesSplit, once the first name has been read. */
  lemma ReadNamesSplitStep(data: seq<byte>, pos: nat, enc: Encoding, dec: Decoder, a: nat, b: nat, name: Parsed<string>)
    requires a > 0 && ReadStringTerm(data, pos, enc, dec) == Ok(name)
    requires ReadNames(data, name.next, enc, dec, (a - 1) + b)
          == ThenReadNames(ReadNames(data, name.next, enc, dec, a - 1), data, enc, dec, b)
    ensures ReadNames(data, pos, enc, dec, a + b) == ThenReadNames(ReadNames(data, pos, enc, dec, a), data, enc, dec, b)
  {
    var x := ReadNames(data, name.next, enc, dec, a - 1);
    calc {
      ReadNames(data, pos, enc, dec, a + b);
      Prepend(name.item, ReadNames(data, name.next, enc, dec, (a - 1) + b));
      Prepend(name.item, ThenReadNames(x, data, enc, dec, b));
      { PrependThen(name.item, x, data, enc, dec, b); }
      ThenReadNames(Prepend(name.item, x), data, enc, dec, b);
      ThenReadNames(ReadNames(data, pos, enc, dec, a), data, enc, dec, b);
    }
  }

  /** Putting a name in front commutes with reading more names after. */
  lemma PrependThen(name: string, x: Result<Parsed<seq<string>>>, data: seq<byte>, enc: Encoding, dec: Decoder, b: nat)
    ensures ThenReadNames(Prepend(name, x), data, enc, dec, b) == Prepend(name, ThenReadNames(x, data, enc, dec, b))
  {
    if x.Ok? {
      var y := ReadNames(data, x.value.next, enc, dec, b);
      if y.Ok? {
        assert [name] + (x.value.item + y.value.item) == ([name] + x.value.item) + y.value.item;
      }
    }
  }

  /** The inner loop reads exactly the names of a flat read of one per file. */
  lemma {:induction false} NameFilesIsFlat(data: seq<byte>, pos: nat, enc: Encoding, dec: Decoder, files: seq<FileRecord>)
    ensures NameFiles(data, pos, enc, dec, files) == NameFilesFlat(data, pos, enc, dec, files)
    decreases |files|
  {
    if files == [] {
      assert Named(files, []) == [];
    } else {
      var name := ReadStringTerm(data, pos, enc, dec);
      if name.Ok? {
        NameFilesIsFlat(data, name.value.next, enc, dec, files[1..]);
        var rest := ReadNames(data, name.value.next, enc, dec, |files| - 1);
        if rest.Ok? {
          NamedCons(files, name.value.item, rest.value.item);
        }
      }
    }
  }

  /** Naming a list is naming its head and then its tail. */
  lemma NamedCons(files: seq<FileRecord>, name: string, names: seq<string>)
    requires |files| == |names| + 1
    ensures [files[0].(name := name)] + Named(files[1..], names) == Named(files, [name] + names)
  {
  }

  /** The nested loops of the reader and the flat reference agree: same
      result, same errors, same final cursor. */
  lemma {:induction false} NamePassIsFlat(data: seq<byte>, pos: nat, enc: Encoding, dec: Decoder, folders: seq<FolderRecord>)
    ensures NamePass(data, pos, enc, dec, folders) == NamePassFlat(data, pos, enc, dec, folders)
    decreases |folders|
  {
    if folders != [] {
      var n := |folders[0].files|;
      var m := |Files(folders[1..])|;
      NameFilesIsFlat(data, pos, enc, dec, folders[0].files);
      ReadNamesSplit(data, pos, enc, dec, n, m);
      var x := ReadNames(data, pos, enc, dec, n);
      if x.Ok? {
        NamePassIsFlat(data, x.value.next, enc, dec, folders[1..]);
        var y := ReadNames(data, x.value.next, enc, dec, m);
        if y.Ok? {
          var all := x.value.item + y.value.item;
          assert all[..n] == x.value.item && all[n..] == y.value.item;
        }
      }
    }
  }

  /** The enumeration of the named folders gives the k-th name to the k-th file. */
  lemma {:induction false} FilesOfAttachNames(folders: seq<FolderRecord>, names: seq<string>)
    requires |names| == |Files(folders)|
    ensures Files(AttachNames(folders, names)) == Named(Files(folders), names)
    decreases |folders|
  {
    if folders != [] {
      var n := |folders[0].files|;
      FilesOfAttachNames(folders[1..], names[n..]);
      assert Named(folders[0].files, names[..n]) + Named(Files(folders[1..]), names[n..]) == Named(Files(folders), names);
    }
  }

  // ----- Writer and round trip.

  /** A block of names as the archive stores them: each followed by 0x00. */
  function EncodeNames(texts: seq<seq<byte>>): seq<byte>
    decreases |texts|
  {
    if texts == [] then [] else EncodeStringTerm(texts[0]) + EncodeNames(texts[1..])
  }

  /** The texts of a block of names, decoded one by one. */
  function DecodeAll(enc: Encoding, dec: Decoder, texts: seq<seq<byte>>): (r: seq<string>)
    ensures |r| == |texts|
    decreases |texts|
  {
    if texts == [] then [] else [dec(enc, texts[0])] + DecodeAll(enc, dec, texts[1..])
  }

  /** Once the first name is read, the rest are read from where it ends. */
  lemma ReadNamesUnfold(data: seq<byte>, pos: nat, enc: Encoding, dec: Decoder, n: nat,
                        first: Parsed<string>, later: Parsed<seq<string>>)
    requires n > 0 && ReadStringTerm(data, pos, enc, dec) == Ok(first)
    requires ReadNames(data, first.next, enc, dec, n - 1) == Ok(later)
    ensures ReadNames(data, pos, enc, dec, n) == Ok(Parsed([first.item] + later.item, later.next))
  {
  }

  lemma Regroup<T>(p: seq<T>, h: seq<T>, t: seq<T>, r: seq<T>)
    ensures p + (h + t) + r == p + h + (t + r)
    ensures p + (h + t) + r == (p + h) + t + r
  {
  }

  /** One more name in front of a block that already reads back. */
  lemma ReadNamesRoundTripStep(prefix: seq<byte>, text: seq<byte>, tail: seq<byte>, rest: seq<byte>,
                               enc: Encoding, dec: Decoder, n: nat, later: seq<string>)
    requires 0 !in text
    requires var head := EncodeStringTerm(text);
             ReadNames(prefix + head + (tail + rest), |prefix + head|, enc, dec, n)
               == Ok(Parsed(later, |prefix + head| + |tail|))
    ensures ReadNames(prefix + (EncodeStringTerm(text) + tail) + rest, |prefix|, enc, dec, n + 1)
         == Ok(Parsed([dec(enc, text)] + later, |prefix| + |EncodeStringTerm(text)| + |tail|))
  {
    var head := EncodeStringTerm(text);
    Regroup(prefix, head, tail, rest);
    ReadStringTermRoundTrip(prefix, text, tail + rest, enc, dec);
    ReadNamesUnfold(prefix + (head + tail) + rest, |prefix|, enc, dec, n + 1, Parsed(dec(enc, text), |prefix + head|),
                    Parsed(later, |prefix + head| + |tail|));
  }

  /** A block of names without embedded 0x00 bytes reads back name by name. */
  lemma {:induction false} ReadNamesRoundTrip(prefix: seq<byte>, texts: seq<seq<byte>>, rest: seq<byte>, enc: Encoding, dec: Decoder)
    requires forall i :: 0 <= i < |texts| ==> 0 !in texts[i]
    ensures ReadNames(prefix + EncodeNames(texts) + rest, |prefix|, enc, dec, |texts|)
         == Ok(Parsed(DecodeAll(enc, dec, texts), |prefix| + |EncodeNames(texts)|))
    decreases |texts|
  {
    if texts != [] {
      var head := EncodeStringTerm(texts[0]);
      var tail := EncodeNames(texts[1..]);
      assert EncodeNames(texts) == head + tail;
      ReadNamesRoundTrip(prefix + head, texts[1..], rest, enc, dec);
      Regroup(prefix, head, tail, rest);
      ReadNamesRoundTripStep(prefix, texts[0], tail, rest, enc, dec, |texts| - 1, DecodeAll(enc, dec, texts[1..]));
    }
  }
}
