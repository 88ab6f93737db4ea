/**
  The byte-level string readers and small helpers of the Utils class: the
  version-to-encoding choice, three cursor-advancing string forms
  (length-prefixed with a terminator, length-prefixed without one, and
  null-terminated), IsEmpty and Do.

  Text decoding itself is left to an opaque `Decoder`: the reader only
  chooses which encoding the bytes are handed to.
*/
module Utils {
  import opened Binary
  import opened Stream
  import opened Versions

  /** The three text encodings the reader can choose. */
  datatype Encoding = Ascii | Windows1252 | Utf7

  /** Encoding.GetString for each encoding, taken as a parameter. */
  type Decoder = (Encoding, seq<byte>) -> string

  datatype Option<+T> = None | Some(value: T)

  /** ASCII for TES3, code page 1252 for SSE, and the UTF-7 fallback for
      every other version code, recognized or not. */
  function GetEncoding(version: u32): (e: Encoding)
    ensures e == Ascii <==> version == TES3
    ensures e == Windows1252 <==> version == SSE
    ensures e == Utf7 <==> version != TES3 && version != SSE
  {
    if version == TES3 then Ascii
    else if version == SSE then Windows1252
    else Utf7
  }

  /** ReadStringLen: a length byte L; L == 0 is the empty string; otherwise
      L - 1 bytes of text followed by one byte that is skipped unread. */
  function ReadStringLen(data: seq<byte>, pos: nat, enc: Encoding, dec: Decoder): (r: Result<Parsed<string>>)
    ensures r.Ok? <==> pos < |data| && pos + 1 + data[pos] <= |data|
    ensures r.Ok? ==> r.value.next == pos + 1 + data[pos]
    ensures r.Ok? && data[pos] == 0 ==> r.value.item == ""
    ensures r.Ok? && data[pos] > 0 ==> r.value.item == dec(enc, data[pos + 1..pos + data[pos]])
    ensures r.Err? ==> r.error == EndOfStream
  {
    var len :- ReadByte(data, pos);
    if len.item == 0 then Ok(Parsed("", len.next))
    else
      var bytes := ReadBytes(data, len.next, len.item - 1);
      var terminator :- ReadByte(data, bytes.next);
      Ok(Parsed(dec(enc, bytes.item), terminator.next))
  }

  /** ReadStringLenNoTerm: a length byte L and then L bytes of text. Like
      BinaryReader.ReadBytes it takes whatever is left when fewer than L
      bytes remain; only a missing length byte fails. */
  function ReadStringLenNoTerm(data: seq<byte>, pos: nat, enc: Encoding, dec: Decoder): (r: Result<Parsed<string>>)
    ensures r.Ok? <==> pos < |data|
    ensures r.Ok? ==> r.value.next == Min(pos + 1 + data[pos], |data|)
    ensures r.Ok? ==> r.value.item == dec(enc, data[pos + 1..r.value.next])
    ensures r.Err? ==> r.error == EndOfStream
  {
    var len :- ReadByte(data, pos);
    var bytes := ReadBytes(data, len.next, len.item);
    Ok(Parsed(dec(enc, bytes.item), bytes.next))
  }

  /** The loop of ReadStringTerm: the bytes up to the first 0x00, which is
      consumed too. Running off the end throws, as ReadByte does; no partial
      string is returned. What the bytes are is stated by ScanToNullSpec. */
  function ScanToNull(data: seq<byte>, pos: nat): (r: Result<Parsed<seq<byte>>>)
    decreases |data| - pos
    ensures r.Ok? ==> r.value.next == pos + |r.value.item| + 1 <= |data|
    ensures r.Err? ==> r.error == EndOfStream
  {
    var c :- ReadByte(data, pos);
    if c.item == 0 then Ok(Parsed([], c.next))
    else
      var rest :- ScanToNull(data, c.next);
      Ok(Parsed([c.item] + rest.item, rest.next))
  }

  /** The scan succeeds exactly when a 0x00 lies ahead, and then returns the
      bytes before the first one. */
  lemma {:induction false} ScanToNullSpec(data: seq<byte>, pos: nat)
    decreases |data| - pos
    ensures ScanToNull(data, pos).Ok? <==> exists i :: pos <= i < |data| && data[i] == 0
    ensures ScanToNull(data, pos).Ok? ==>
              var r := ScanToNull(data, pos).value;
              data[pos..r.next - 1] == r.item && data[r.next - 1] == 0 && 0 !in r.item
  {
    if pos < |data| && data[pos] != 0 {
      ScanToNullSpec(data, pos + 1);
      var r := ScanToNull(data, pos);
      if r.Ok? {
        assert data[pos..r.value.next - 1] == [data[pos]] + data[pos + 1..r.value.next - 1];
      }
    }
  }

  /** ReadStringTerm: the text before the first 0x00 byte at or after `pos`,
      characterised by ReadStringTermSpec. */
  function ReadStringTerm(data: seq<byte>, pos: nat, enc: Encoding, dec: Decoder): (r: Result<Parsed<string>>)
    ensures r.Ok? ==> pos < r.value.next <= |data|
    ensures r.Err? ==> r.error == EndOfStream
  {
    var bytes :- ScanToNull(data, pos);
    Ok(Parsed(dec(enc, bytes.item), bytes.next))
  }

  lemma ReadStringTermSpec(data: seq<byte>, pos: nat, enc: Encoding, dec: Decoder)
    ensures ReadStringTerm(data, pos, enc, dec).Ok? <==> exists i :: pos <= i < |data| && data[i] == 0
    ensures ReadStringTerm(data, pos, enc, dec).Ok? ==>
              var r := ReadStringTerm(data, pos, enc, dec).value;
              && data[r.next - 1] == 0
              && 0 !in data[pos..r.next - 1]
              && r.item == dec(enc, data[pos..r.next - 1])
  {
    ScanToNullSpec(data, pos);
  }

  /** string.IsNullOrEmpty, with `None` for null. */
  function IsEmpty(s: Option<string>): (r: bool)
    ensures r <==> s == None || s == Some("")
  {
    match s
    case None => true
    case Some(t) => |t| == 0
  }

  /** `Do`: apply `action` to every item in order. The side effect of the
      C# action is modelled as a state threaded from one call to the next. */
  function Do<T, S>(items: seq<T>, action: (S, T) -> S, state: S): S
  {
    if items == [] then state else Do(items[1..], action, action(state, items[0]))
  }

  /** Running Do over two lists in turn is running it over their concatenation. */
  lemma {:induction false} DoConcat<T, S>(xs: seq<T>, ys: seq<T>, action: (S, T) -> S, state: S)
    ensures Do(xs + ys, action, state) == Do(ys, action, Do(xs, action, state))
    decreases |xs|
  {
    if xs == [] {
      assert xs + ys == ys;
    } else {
      assert (xs + ys)[1..] == xs[1..] + ys;
      DoConcat(xs[1..], ys, action, action(state, xs[0]));
    }
  }

  /** Do visits the last item last: its action sees the state all earlier items left. */
  lemma DoSnoc<T, S>(xs: seq<T>, x: T, action: (S, T) -> S, state: S)
    ensures Do(xs + [x], action, state) == action(Do(xs, action, state), x)
  {
    DoConcat(xs, [x], action, state);
  }

  // ----- Writers: the byte layouts each reader expects, and the round trips.

  /** What ReadStringLen expects: the length byte counts the terminator. */
  function EncodeStringLen(text: seq<byte>): seq<byte>
    requires |text| < 0xFF
  {
    [|text| + 1] + text + [0]
  }

  function EncodeStringLenNoTerm(text: seq<byte>): seq<byte>
    requires |text| < 0x100
  {
    [|text|] + text
  }

  function EncodeStringTerm(text: seq<byte>): seq<byte>
  {
    text + [0]
  }

  lemma ReadStringLenRoundTrip(prefix: seq<byte>, text: seq<byte>, rest: seq<byte>, enc: Encoding, dec: Decoder)
    requires |text| < 0xFF
    ensures ReadStringLen(prefix + EncodeStringLen(text) + rest, |prefix|, enc, dec)
         == Ok(Parsed(dec(enc, text), |prefix| + |text| + 2))
  {
    var data := prefix + EncodeStringLen(text) + rest;
    assert data[|prefix|] == |text| + 1;
    assert data[|prefix| + 1..|prefix| + 1 + |text|] == text;
  }

  lemma ReadStringLenNoTermRoundTrip(prefix: seq<byte>, text: seq<byte>, rest: seq<byte>, enc: Encoding, dec: Decoder)
    requires |text| < 0x100
    ensures ReadStringLenNoTerm(prefix + EncodeStringLenNoTerm(text) + rest, |prefix|, enc, dec)
         == Ok(Parsed(dec(enc, text), |prefix| + |text| + 1))
  {
    var data := prefix + EncodeStringLenNoTerm(text) + rest;
    assert data[|prefix|] == |text|;
    assert data[|prefix| + 1..|prefix| + 1 + |text|] == text;
  }

  /** A terminated string reads back whatever follows it. */
  lemma {:induction false} ScanToNullRoundTrip(prefix: seq<byte>, text: seq<byte>, rest: seq<byte>)
    requires 0 !in text
    ensures ScanToNull(prefix + EncodeStringTerm(text) + rest, |prefix|) == Ok(Parsed(text, |prefix| + |text| + 1))
    decreases |text|
  {
    var data := prefix + EncodeStringTerm(text) + rest;
    if text == [] {
      assert data[|prefix|] == 0;
    } else {
      assert data[|prefix|] == text[0];
      assert data == (prefix + [text[0]]) + EncodeStringTerm(text[1..]) + rest;
      ScanToNullRoundTrip(prefix + [text[0]], text[1..], rest);
      assert [text[0]] + text[1..] == text;
    }
  }

  lemma ReadStringTermRoundTrip(prefix: seq<byte>, text: seq<byte>, rest: seq<byte>, enc: Encoding, dec: Decoder)
    requires 0 !in text
    ensures ReadStringTerm(prefix + EncodeStringTerm(text) + rest, |prefix|, enc, dec)
         == Ok(Parsed(dec(enc, text), |prefix| + |text| + 1))
  {
    ScanToNullRoundTrip(prefix, text, rest);
  }
}
