/**
  Fixed-width unsigned integers as the archive reader sees them: bytes,
  C# `uint` and `ulong`, their little-endian layout (the order in which
  BinaryReader.ReadUInt32 and ReadUInt64 assemble bytes) and unchecked
  `uint` arithmetic.
*/
module Binary {

  type byte = x: int | 0 <= x < 0x100
  type u32 = x: int | 0 <= x < 0x1_0000_0000
  type u64 = x: int | 0 <= x < 0x1_0000_0000_0000_0000

  const TWO_TO_32: int := 0x1_0000_0000

  /** The low 32 bits of `x`: what an unchecked C# `uint` expression, or a
      `(uint)` cast of a `long`, keeps. */
  function Wrap32(x: int): (r: u32)
    ensures 0 <= x < TWO_TO_32 ==> r == x
    ensures (x - r) % TWO_TO_32 == 0
  {
    x % TWO_TO_32
  }

  /** Wrapping after every step of a subtraction chain is wrapping once at the end. */
  lemma Wrap32Sub(a: int, b: int)
    ensures Wrap32(Wrap32(a) - b) == Wrap32(a - b)
  {
    var q := a / TWO_TO_32;
    assert a == q * TWO_TO_32 + Wrap32(a);
    ModuloShift(a - b, q);
  }

  /** Adding a multiple of 2^32 does not change the low 32 bits. */
  lemma {:induction false} ModuloShift(x: int, q: int)
    ensures (x - q * TWO_TO_32) % TWO_TO_32 == x % TWO_TO_32
    decreases if q < 0 then -q else q
  {
    if q > 0 {
      ModuloShift(x, q - 1);
      assert x - q * TWO_TO_32 == (x - (q - 1) * TWO_TO_32) - TWO_TO_32;
    } else if q < 0 {
      ModuloShift(x, q + 1);
      assert x - q * TWO_TO_32 == (x - (q + 1) * TWO_TO_32) + TWO_TO_32;
    }
  }

  /** `(x & weight) > 0` for a one-bit mask `weight`. */
  predicate HasFlag(x: nat, weight: nat)
    requires weight > 0
  {
    (x / weight) % 2 == 1
  }

  /** The u32 stored little-endian at `data[p..p + 4]`. */
  function U32At(data: seq<byte>, p: nat): u32
    requires p + 4 <= |data|
  {
    (data[p] as int) + 0x100 * (data[p + 1] as int) + 0x1_0000 * (data[p + 2] as int) + 0x100_0000 * (data[p + 3] as int)
  }

  /** The u64 stored little-endian at `data[p..p + 8]`. */
  function U64At(data: seq<byte>, p: nat): u64
    requires p + 8 <= |data|
  {
    U32At(data, p) + TWO_TO_32 * U32At(data, p + 4)
  }

  /** The four bytes BinaryWriter would write for `x`. */
  function EncodeU32(x: u32): (r: seq<byte>)
    ensures |r| == 4 && U32At(r, 0) == x
  {
    [x % 0x100, (x / 0x100) % 0x100, (x / 0x1_0000) % 0x100, x / 0x100_0000]
  }

  /** The eight bytes BinaryWriter would write for `x`. */
  function EncodeU64(x: u64): (r: seq<byte>)
    ensures |r| == 8 && U64At(r, 0) == x
  {
    var lo := EncodeU32(x % TWO_TO_32);
    var hi := EncodeU32(x / TWO_TO_32);
    assert U32At(lo + hi, 4) == U32At(hi, 0);
    lo + hi
  }

  /** A u32 reads back from wherever it was written. */
  lemma U32AtEncoded(prefix: seq<byte>, x: u32, rest: seq<byte>)
    ensures U32At(prefix + EncodeU32(x) + rest, |prefix|) == x
  {
    var data := prefix + EncodeU32(x) + rest;
    assert data[|prefix|..|prefix| + 4] == EncodeU32(x);
  }

  /** A u64 reads back from wherever it was written. */
  lemma U64AtEncoded(prefix: seq<byte>, x: u64, rest: seq<byte>)
    ensures U64At(prefix + EncodeU64(x) + rest, |prefix|) == x
  {
    var data := prefix + EncodeU64(x) + rest;
    assert data[|prefix|..|prefix| + 8] == EncodeU64(x);
  }

  /** A u32 reads back from any four bytes that spell its encoding. */
  lemma U32AtSlice(data: seq<byte>, p: nat, x: u32)
    requires p + 4 <= |data| && data[p..p + 4] == EncodeU32(x)
    ensures U32At(data, p) == x
  {
    assert forall j :: 0 <= j < 4 ==> data[p + j] == EncodeU32(x)[j] by {
      forall j | 0 <= j < 4 ensures data[p + j] == EncodeU32(x)[j] {
        assert data[p + j] == data[p..p + 4][j];
      }
    }
  }

  /** A u64 reads back from any eight bytes that spell its encoding. */
  lemma U64AtSlice(data: seq<byte>, p: nat, x: u64)
    requires p + 8 <= |data| && data[p..p + 8] == EncodeU64(x)
    ensures U64At(data, p) == x
  {
    assert data[p..p + 4] == EncodeU64(x)[..4];
    assert data[p + 4..p + 8] == EncodeU64(x)[4..];
    U32AtSlice(data, p, x % TWO_TO_32);
    U32AtSlice(data, p + 4, x / TWO_TO_32);
  }

  /** A run of u32 fields back to back. */
  function EncodeU32s(xs: seq<u32>): (r: seq<byte>)
    ensures |r| == 4 * |xs|
    decreases |xs|
  {
    if xs == [] then [] else EncodeU32(xs[0]) + EncodeU32s(xs[1..])
  }

  /** Field `k` of a run of u32 fields reads back from byte 4k of the run. */
  lemma {:induction false} U32sAt(prefix: seq<byte>, xs: seq<u32>, rest: seq<byte>, k: nat)
    requires k < |xs|
    ensures U32At(prefix + EncodeU32s(xs) + rest, |prefix| + 4 * k) == xs[k]
    decreases k
  {
    if k == 0 {
      assert prefix + EncodeU32s(xs) + rest == prefix + EncodeU32(xs[0]) + (EncodeU32s(xs[1..]) + rest);
      U32AtEncoded(prefix, xs[0], EncodeU32s(xs[1..]) + rest);
    } else {
      assert prefix + EncodeU32s(xs) + rest == (prefix + EncodeU32(xs[0])) + EncodeU32s(xs[1..]) + rest;
      U32sAt(prefix + EncodeU32(xs[0]), xs[1..], rest, k - 1);
    }
  }
}
