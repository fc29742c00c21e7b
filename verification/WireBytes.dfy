/** Bytes, and the little-endian integers that the messages carry. */
module WireBytes {
  import opened GoInts

  type Byte = n: int | 0 <= n < 256
  type Bytes = seq<Byte>

  function Zeros(n: nat): (r: Bytes)
    ensures |r| == n
  {
    seq(n, _ => 0)
  }

  function PutLE32(n: U32): (r: Bytes)
    ensures |r| == 4
  {
    [n % 256, n / 256 % 256, n / 65536 % 256, n / 16777216]
  }

  function GetLE32(b: Bytes): U32
    requires |b| >= 4
  {
    var b0: int, b1: int, b2: int, b3: int := b[0], b[1], b[2], b[3];
    b0 + 256 * b1 + 65536 * b2 + 16777216 * b3
  }

  function PutLE64(n: U64): (r: Bytes)
    ensures |r| == 8
  {
    PutLE32(n % TWO_32) + PutLE32(n / TWO_32)
  }

  function GetLE64(b: Bytes): U64
    requires |b| >= 8
  {
    GetLE32(b) + TWO_32 * GetLE32(b[4..])
  }

  /** The k low bytes of a number, the lowest first. */
  function LittleEndian(n: nat, k: nat): (r: Bytes)
    ensures |r| == k
  {
    if k == 0 then [] else [n % 256] + LittleEndian(n / 256, k - 1)
  }

  lemma LE32Bytes(n: U32)
    ensures PutLE32(n) == LittleEndian(n, 4)
  {
    var a, b, c := n / 256, n / 65536, n / 16777216;
    assert a / 256 == b && b / 256 == c && c % 256 == c;
    assert LittleEndian(c, 1) == [c] && LittleEndian(b, 2) == [b % 256, c] && LittleEndian(a, 3) == [a % 256, b % 256, c];
  }

  lemma ShortLE64(n: U32)
    ensures PutLE64(n) == LittleEndian(n, 4) + [0, 0, 0, 0]
  {
    LE32Bytes(n);
    assert PutLE32(0) == [0, 0, 0, 0];
  }

  lemma LE32RoundTrip(n: U32, rest: Bytes)
    ensures GetLE32(PutLE32(n) + rest) == n
  {
    var a, b, c := n / 256, n / 65536, n / 16777216;
    assert a / 256 == b && b / 256 == c;
    assert n == a * 256 + n % 256 && a == b * 256 + a % 256 && b == c * 256 + b % 256;
  }

  lemma LE64RoundTrip(n: U64, rest: Bytes)
    ensures GetLE64(PutLE64(n) + rest) == n
  {
    var low, high := n % TWO_32, n / TWO_32;
    LE32RoundTrip(low, PutLE32(high) + rest);
    LE32RoundTrip(high, rest);
    var all := PutLE64(n) + rest;
    assert all == PutLE32(low) + (PutLE32(high) + rest);
    assert all[4..] == PutLE32(high) + rest;
  }

  /** Go's copy of a whole slice into a buffer at an offset. */
  method CopyInto(buf: array<Byte>, offset: nat, src: Bytes)
    requires offset + |src| <= buf.Length
    modifies buf
    ensures buf[offset..offset + |src|] == src
    ensures forall k :: 0 <= k < buf.Length && !(offset <= k < offset + |src|) ==> buf[k] == old(buf[k])
  {
    for i := 0 to |src|
      invariant forall k :: 0 <= k < buf.Length ==> buf[k] == if offset <= k < offset + i then src[k - offset] else old(buf[k])
    {
      buf[offset + i] := src[i];
    }
  }

  /** The same, at the end of what has been written from `start` on. */
  method CopyNext(buf: array<Byte>, ghost start: nat, offset: nat, ghost written: Bytes, src: Bytes)
    requires start <= offset && offset + |src| <= buf.Length
    requires buf[start..offset] == written
    modifies buf
    ensures buf[start..offset + |src|] == written + src
    ensures forall k :: 0 <= k < buf.Length && !(offset <= k < offset + |src|) ==> buf[k] == old(buf[k])
  {
    CopyInto(buf, offset, src);
    assert buf[start..offset] == written;
    assert buf[start..offset + |src|] == buf[start..offset] + buf[offset..offset + |src|];
  }
}
