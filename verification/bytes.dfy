/** Bytes and the little-endian 32-bit words the generator writes into the
    adapter's data segments. */
module Bytes {

  type byte = b: int | 0 <= b < 256

  /** A Rust `String`/`&str` as its UTF-8 bytes, and a byte buffer. */
  type Bytes = seq<byte>

  const U32_LIMIT: int := 0x1_0000_0000

  predicate IsU32(x: int) { 0 <= x < U32_LIMIT }

  type u32 = x: int | IsU32(x)

  const U64_LIMIT: int := 0x1_0000_0000_0000_0000

  type u64 = x: int | 0 <= x < U64_LIMIT

  function Zeros(n: nat): (r: Bytes)
    ensures |r| == n
    ensures forall i :: 0 <= i < n ==> r[i] == 0
  {
    if n == 0 then [] else Zeros(n - 1) + [0]
  }

  /** `u32::to_le_bytes`. */
  function LE32(x: int): (r: Bytes)
    requires IsU32(x)
    ensures |r| == 4
  {
    [x % 256, (x / 256) % 256, (x / 65536) % 256, x / 16777216]
  }

  /** Reading a `u32` stored little-endian at `bytes[at..at+4]`. */
  function ReadLE32(bytes: Bytes, at: nat): (r: nat)
    requires at + 4 <= |bytes|
    ensures IsU32(r)
  {
    (bytes[at] as int) + 256 * (bytes[at + 1] as int) + 65536 * (bytes[at + 2] as int)
      + 16777216 * (bytes[at + 3] as int)
  }

  lemma ReadLE32OfLE32(x: int)
    requires IsU32(x)
    ensures ReadLE32(LE32(x), 0) == x
  {
    var a, b, c := x / 256, x / 65536, x / 16777216;
    assert a / 256 == b && b / 256 == c && c < 256;
    assert x == x % 256 + 256 * (a % 256) + 65536 * (b % 256) + 16777216 * c;
  }

  /** Overwrite `bytes[at..at+|w|]` with `w`; everything else is kept. */
  function Splice(bytes: Bytes, at: nat, w: Bytes): (r: Bytes)
    requires at + |w| <= |bytes|
    ensures |r| == |bytes|
    ensures r[at..at + |w|] == w
    ensures forall i :: 0 <= i < |bytes| && !(at <= i < at + |w|) ==> r[i] == bytes[i]
  {
    bytes[..at] + w + bytes[at + |w|..]
  }

  lemma ReadAfterSplice(bytes: Bytes, at: nat, x: int)
    requires IsU32(x) && at + 4 <= |bytes|
    ensures ReadLE32(Splice(bytes, at, LE32(x)), at) == x
  {
    var r := Splice(bytes, at, LE32(x));
    assert r[at..at + 4] == LE32(x);
    assert r[at] == LE32(x)[0] && r[at + 1] == LE32(x)[1];
    assert r[at + 2] == LE32(x)[2] && r[at + 3] == LE32(x)[3];
  }

  /** A `u32` read back from four bytes that hold its encoding. */
  lemma ReadLE32Window(bytes: Bytes, at: nat, x: int)
    requires IsU32(x) && at + 4 <= |bytes| && bytes[at..at + 4] == LE32(x)
    ensures ReadLE32(bytes, at) == x
  {
    assert bytes[at] == LE32(x)[0] && bytes[at + 1] == LE32(x)[1];
    assert bytes[at + 2] == LE32(x)[2] && bytes[at + 3] == LE32(x)[3];
  }

  lemma ReadBesideUpdate(bytes: Bytes, i: nat, x: byte, other: nat)
    requires i < |bytes| && other + 4 <= |bytes| && (i < other || other + 4 <= i)
    ensures ReadLE32(bytes[i := x], other) == ReadLE32(bytes, other)
  {
  }

  lemma ReadBesideSplice(bytes: Bytes, at: nat, w: Bytes, other: nat)
    requires at + |w| <= |bytes| && other + 4 <= |bytes|
    requires other + 4 <= at || at + |w| <= other
    ensures ReadLE32(Splice(bytes, at, w), other) == ReadLE32(bytes, other)
  {
  }
}
