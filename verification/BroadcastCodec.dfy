/** Packing and unpacking of broadcast messages, byte by byte. */
module BroadcastCodec {
  import opened GoInts
  import opened WireBytes

  const CONTROL_BYTE_LEN: nat := 1
  const VALID_CONTROL_BYTE: Byte := 1
  const HEADER_LEN: nat := 20
  const BROADCAST_HEADER_LEN: nat := 72
  const PAYLOAD_SIZE_OFFSET: nat := 16
  const TYPE_OFFSET: nat := 4
  const TYPE_LENGTH: nat := 12

  const MAGIC: Bytes := [0xff, 0xfe, 0xfd, 0xfc]
  /** "broadcast" in ASCII. */
  const BROADCAST_TYPE: Bytes := [98, 114, 111, 97, 100, 99, 97, 115, 116]

  type Hash32 = b: Bytes | |b| == 32 witness Zeros(32)
  type SourceID = b: Bytes | |b| == 16 witness Zeros(16)
  type Tag = b: Bytes | |b| == 4 witness Zeros(4)

  datatype Message = Message(
    msgType: Bytes, hash: Hash32, networkNum: U32, sourceID: SourceID,
    broadcastType: Tag, encrypted: bool, block: Bytes, txIDs: seq<U32>)

  // The wire format

  function TotalSize(block: Bytes, txIDs: seq<U32>): nat {
    HEADER_LEN + CONTROL_BYTE_LEN + 52 + 4 + 1 + 8 + |block| + 4 + 4 * |txIDs|
  }

  function PutIDs(ids: seq<U32>): (r: Bytes)
    ensures |r| == 4 * |ids|
  {
    if ids == [] then [] else PutLE32(ids[0]) + PutIDs(ids[1..])
  }

  function GetIDs(b: Bytes, n: nat): (r: seq<U32>)
    requires |b| >= 4 * n
    ensures |r| == n
  {
    if n == 0 then [] else [GetLE32(b)] + GetIDs(b[4..], n - 1)
  }

  /** The 72 header bytes of a message of `total` bytes, then `rest`. The length field leaves out the first 20. */
  function HeaderBytes(total: nat, hash: Hash32, networkNum: U32, sourceID: SourceID, rest: Bytes): (r: Bytes)
    requires HEADER_LEN <= total < TWO_32
    ensures |r| == BROADCAST_HEADER_LEN + |rest|
  {
    MAGIC + (BROADCAST_TYPE + (Zeros(3) + (PutLE32(total - HEADER_LEN) + (hash + (PutLE32(networkNum) + (sourceID + rest))))))
  }

  function BodyBytes(tag: Tag, encrypted: bool, block: Bytes, txIDs: seq<U32>, rest: Bytes): (r: Bytes)
    requires |block| + 8 < TWO_64 && |txIDs| < TWO_32
    ensures |r| == 17 + |block| + 4 * |txIDs| + |rest|
  {
    tag + ([if encrypted then 1 else 0] + (PutLE64(|block| + 8) + (block + (PutLE32(|txIDs|) + (PutIDs(txIDs) + rest)))))
  }

  predicate Packable(v: Message) {
    TotalSize(v.block, v.txIDs) < TWO_32
  }

  function Encode(v: Message): (r: Bytes)
    requires Packable(v)
    ensures |r| == TotalSize(v.block, v.txIDs)
  {
    HeaderBytes(TotalSize(v.block, v.txIDs), v.hash, v.networkNum, v.sourceID,
      BodyBytes(v.broadcastType, v.encrypted, v.block, v.txIDs, [VALID_CONTROL_BYTE]))
  }

  /** bytes.Trim of null bytes: both ends. */
  function TrimLeft(b: Bytes): Bytes {
    if b != [] && b[0] == 0 then TrimLeft(b[1..]) else b
  }

  function TrimRight(b: Bytes): Bytes {
    if b != [] && b[|b| - 1] == 0 then TrimRight(b[..|b| - 1]) else b
  }

  /** Decoded, refused with an error, or a slice out of range, on which the code panics. */
  datatype Outcome = Decoded(message: Message) | Refused | OutOfRange

  function Decode(b: Bytes): Outcome {
    if |b| < TYPE_OFFSET + TYPE_LENGTH then OutOfRange
    else if |b| < BROADCAST_HEADER_LEN + CONTROL_BYTE_LEN then Refused
    else if |b| < 77 then OutOfRange
    else if |b| < 77 + 8 then Refused
    else DecodeSized(b, ToInt64(GetLE64(b[77..])))
  }

  /** The rest, once the offset from the block to the IDs is read; it counts its own 8 bytes. */
  function DecodeSized(b: Bytes, sidsOffset: int): Outcome
    requires |b| >= 85
  {
    if |b| < ToInt64(77 + sidsOffset) then Refused
    else if sidsOffset < 8 || |b| < 77 + sidsOffset then OutOfRange
    else if |b| < 77 + sidsOffset + 4 then Refused
    else
      var sidsLen := GetLE32(b[77 + sidsOffset..]);
      if |b| < 77 + sidsOffset + 4 + 4 * sidsLen then Refused
      else Decoded(Message(
        TrimRight(TrimLeft(b[TYPE_OFFSET..TYPE_OFFSET + TYPE_LENGTH])),
        b[20..52], GetLE32(b[52..]), b[56..72], b[72..76], b[76] != 0,
        b[85..77 + sidsOffset], GetIDs(b[77 + sidsOffset + 4..], sidsLen)))
  }

  // The round trip

  /** Reading on: what stands at i is `piece`, then `rest`. */
  lemma After(b: Bytes, i: nat, piece: Bytes, rest: Bytes)
    requires i <= |b| && b[i..] == piece + rest
    ensures i + |piece| <= |b| && b[i..i + |piece|] == piece && b[i + |piece|..] == rest
  {
  }

  lemma {:induction false} IDsRoundTrip(ids: seq<U32>, rest: Bytes)
    ensures GetIDs(PutIDs(ids) + rest, |ids|) == ids
  {
    if ids != [] {
      var tail := PutIDs(ids[1..]) + rest;
      assert PutIDs(ids) + rest == PutLE32(ids[0]) + tail;
      LE32RoundTrip(ids[0], tail);
      IDsRoundTrip(ids[1..], rest);
    }
  }

  lemma HeaderFields(total: nat, hash: Hash32, networkNum: U32, sourceID: SourceID, rest: Bytes)
    requires HEADER_LEN <= total < TWO_32
    ensures var b := HeaderBytes(total, hash, networkNum, sourceID, rest);
            && b[TYPE_OFFSET..TYPE_OFFSET + TYPE_LENGTH] == BROADCAST_TYPE + Zeros(3)
            && GetLE32(b[PAYLOAD_SIZE_OFFSET..]) == total - HEADER_LEN
            && b[20..52] == hash && GetLE32(b[52..]) == networkNum && b[56..72] == sourceID && b[72..] == rest
  {
    var b := HeaderBytes(total, hash, networkNum, sourceID, rest);
    var fromSource := sourceID + rest;
    var fromNetwork := PutLE32(networkNum) + fromSource;
    var fromHash := hash + fromNetwork;
    var fromLength := PutLE32(total - HEADER_LEN) + fromHash;
    assert b[0..] == MAGIC + (BROADCAST_TYPE + (Zeros(3) + fromLength));
    After(b, 0, MAGIC, BROADCAST_TYPE + (Zeros(3) + fromLength));
    After(b, 4, BROADCAST_TYPE, Zeros(3) + fromLength);
    After(b, 13, Zeros(3), fromLength);
    assert b[4..16] == b[4..13] + b[13..16];
    LE32RoundTrip(total - HEADER_LEN, fromHash);
    After(b, 16, PutLE32(total - HEADER_LEN), fromHash);
    After(b, 20, hash, fromNetwork);
    LE32RoundTrip(networkNum, fromSource);
    After(b, 52, PutLE32(networkNum), fromSource);
    After(b, 56, sourceID, rest);
  }

  lemma SizeField(b: Bytes, i: nat, size: U64, rest: Bytes)
    requires i <= |b| && b[i..] == PutLE64(size) + rest
    ensures i + 8 <= |b| && GetLE64(b[i..]) == size && b[i + 8..] == rest
  {
    LE64RoundTrip(size, rest);
    After(b, i, PutLE64(size), rest);
  }

  lemma CountField(b: Bytes, i: nat, n: U32, rest: Bytes)
    requires i <= |b| && b[i..] == PutLE32(n) + rest
    ensures i + 4 <= |b| && GetLE32(b[i..]) == n && b[i + 4..] == rest
  {
    LE32RoundTrip(n, rest);
    After(b, i, PutLE32(n), rest);
  }

  lemma IDFields(b: Bytes, i: nat, txIDs: seq<U32>, rest: Bytes)
    requires |txIDs| < TWO_32
    requires i <= |b| && b[i..] == PutLE32(|txIDs|) + (PutIDs(txIDs) + rest)
    ensures i + 4 + 4 * |txIDs| <= |b| && GetLE32(b[i..]) == |txIDs| && GetIDs(b[i + 4..], |txIDs|) == txIDs
  {
    var n := |txIDs|;
    CountField(b, i, n, PutIDs(txIDs) + rest);
    IDsRoundTrip(txIDs, rest);
  }

  lemma FlagFields(b: Bytes, tag: Tag, flag: Byte, rest: Bytes)
    requires 72 <= |b| && b[72..] == tag + ([flag] + rest)
    ensures 77 <= |b| && b[72..76] == tag && b[76] == flag && b[77..] == rest
  {
    After(b, 72, tag, [flag] + rest);
    After(b, 76, [flag], rest);
    assert b[76] == b[76..77][0];
  }

  lemma BlockFields(b: Bytes, block: Bytes, rest: Bytes)
    requires |block| + 8 < TWO_64
    requires 77 <= |b| && b[77..] == PutLE64(|block| + 8) + (block + rest)
    ensures 85 + |block| <= |b| && GetLE64(b[77..]) == |block| + 8 && b[85..85 + |block|] == block && b[85 + |block|..] == rest
  {
    SizeField(b, 77, |block| + 8, block + rest);
    After(b, 85, block, rest);
  }

  lemma {:induction false} TrimZeros(b: Bytes, n: nat)
    requires b != [] && b[|b| - 1] != 0
    ensures TrimRight(b + Zeros(n)) == b
  {
    if n > 0 {
      TrimZeros(b, n - 1);
      var padded := b + Zeros(n);
      assert padded[..|padded| - 1] == b + Zeros(n - 1);
    } else {
      assert b + Zeros(0) == b;
    }
  }

  /** The length field of a packed message is its length without the 20 header bytes. */
  lemma PackedLength(v: Message)
    requires Packable(v)
    ensures HEADER_LEN + GetLE32(Encode(v)[PAYLOAD_SIZE_OFFSET..]) == |Encode(v)|
  {
    HeaderFields(TotalSize(v.block, v.txIDs), v.hash, v.networkNum, v.sourceID,
      BodyBytes(v.broadcastType, v.encrypted, v.block, v.txIDs, [VALID_CONTROL_BYTE]));
  }

  lemma EncodedHeader(v: Message)
    requires Packable(v)
    ensures var b := Encode(v);
            && TrimRight(TrimLeft(b[TYPE_OFFSET..TYPE_OFFSET + TYPE_LENGTH])) == BROADCAST_TYPE
            && b[20..52] == v.hash && GetLE32(b[52..]) == v.networkNum && b[56..72] == v.sourceID
            && b[72..] == BodyBytes(v.broadcastType, v.encrypted, v.block, v.txIDs, [VALID_CONTROL_BYTE])
  {
    var body := BodyBytes(v.broadcastType, v.encrypted, v.block, v.txIDs, [VALID_CONTROL_BYTE]);
    HeaderFields(|Encode(v)|, v.hash, v.networkNum, v.sourceID, body);
    TrimZeros(BROADCAST_TYPE, 3);
    assert TrimLeft(BROADCAST_TYPE + Zeros(3)) == BROADCAST_TYPE + Zeros(3);
  }

  lemma EncodedBody(v: Message)
    requires Packable(v)
    ensures var b := Encode(v);
            && b[72..76] == v.broadcastType && b[76] == (if v.encrypted then 1 else 0)
            && GetLE64(b[77..]) == |v.block| + 8 && b[85..85 + |v.block|] == v.block
            && GetLE32(b[85 + |v.block|..]) == |v.txIDs| && GetIDs(b[89 + |v.block|..], |v.txIDs|) == v.txIDs
  {
    var b := Encode(v);
    EncodedHeader(v);
    var fromCount := PutLE32(|v.txIDs|) + (PutIDs(v.txIDs) + [VALID_CONTROL_BYTE]);
    FlagFields(b, v.broadcastType, if v.encrypted then 1 else 0, PutLE64(|v.block| + 8) + (v.block + fromCount));
    BlockFields(b, v.block, fromCount);
    IDFields(b, 85 + |v.block|, v.txIDs, [VALID_CONTROL_BYTE]);
  }

  /** Decoding bytes whose every field is known, with lengths in bounds. */
  lemma DecodeKnown(b: Bytes, v: Message)
    requires |b| == TotalSize(v.block, v.txIDs) < TWO_32
    requires TrimRight(TrimLeft(b[TYPE_OFFSET..TYPE_OFFSET + TYPE_LENGTH])) == v.msgType
    requires b[20..52] == v.hash && GetLE32(b[52..]) == v.networkNum && b[56..72] == v.sourceID
    requires b[72..76] == v.broadcastType && b[76] == (if v.encrypted then 1 else 0)
    requires b[85..85 + |v.block|] == v.block
    requires GetLE32(b[85 + |v.block|..]) == |v.txIDs| && GetIDs(b[89 + |v.block|..], |v.txIDs|) == v.txIDs
    ensures DecodeSized(b, |v.block| + 8) == Decoded(v)
  {
  }

  lemma DecodeStarts(b: Bytes, size: nat)
    requires |b| >= 85 && GetLE64(b[77..]) == size < TWO_63
    ensures Decode(b) == DecodeSized(b, size)
  {
    assert ToInt64(size) == size;
  }

  /** Unpacking a packed message restores every field; its type reads "broadcast". */
  lemma RoundTrip(v: Message)
    requires Packable(v)
    ensures Decode(Encode(v)) == Decoded(v.(msgType := BROADCAST_TYPE))
  {
    var b := Encode(v);
    EncodedHeader(v);
    EncodedBody(v);
    DecodeStarts(b, |v.block| + 8);
    DecodeKnown(b, v.(msgType := BROADCAST_TYPE));
  }

  // The bytes on the wire

  lemma {:induction false} IDBytes(ids: seq<U32>, i: nat)
    requires i < |ids|
    ensures PutIDs(ids)[4 * i..4 * i + 4] == LittleEndian(ids[i], 4)
  {
    LE32Bytes(ids[0]);
    if i > 0 {
      IDBytes(ids[1..], i - 1);
      assert PutIDs(ids)[4 * i..4 * i + 4] == PutIDs(ids[1..])[4 * (i - 1)..4 * (i - 1) + 4];
    }
  }

  /** The first 72 bytes, in literal form, for a message of `total` bytes. */
  function WireHeader(v: Message, total: nat, rest: Bytes): Bytes
    requires total >= 20
  {
    [0xff, 0xfe, 0xfd, 0xfc, 98, 114, 111, 97, 100, 99, 97, 115, 116, 0, 0, 0]
    + (LittleEndian(total - 20, 4) + (v.hash + (LittleEndian(v.networkNum, 4) + (v.sourceID + rest))))
  }

  /** The others, which end with a 1. */
  function WireBody(v: Message): Bytes {
    v.broadcastType + ([if v.encrypted then 1 else 0] + ((LittleEndian(|v.block| + 8, 4) + [0, 0, 0, 0])
      + (v.block + (LittleEndian(|v.txIDs|, 4) + (PutIDs(v.txIDs) + [1])))))
  }

  lemma HeaderOnWire(v: Message, total: nat, rest: Bytes)
    requires 20 <= total < TWO_32
    ensures HeaderBytes(total, v.hash, v.networkNum, v.sourceID, rest) == WireHeader(v, total, rest)
  {
    LE32Bytes(total - 20);
    LE32Bytes(v.networkNum);
    var more := LittleEndian(total - 20, 4) + (v.hash + (LittleEndian(v.networkNum, 4) + (v.sourceID + rest)));
    assert MAGIC + (BROADCAST_TYPE + (Zeros(3) + more)) == (MAGIC + BROADCAST_TYPE + Zeros(3)) + more;
    assert MAGIC + BROADCAST_TYPE + Zeros(3) == [0xff, 0xfe, 0xfd, 0xfc, 98, 114, 111, 97, 100, 99, 97, 115, 116, 0, 0, 0];
  }

  lemma BodyOnWire(v: Message)
    requires Packable(v)
    ensures BodyBytes(v.broadcastType, v.encrypted, v.block, v.txIDs, [VALID_CONTROL_BYTE]) == WireBody(v)
  {
    LE32Bytes(|v.txIDs|);
    ShortLE64(|v.block| + 8);
  }

  /** A packed message, byte for byte. */
  lemma PackedBytes(v: Message)
    requires Packable(v)
    ensures Encode(v) == WireHeader(v, |Encode(v)|, WireBody(v)) && |Encode(v)| == 90 + |v.block| + 4 * |v.txIDs|
  {
    BodyOnWire(v);
    HeaderOnWire(v, |Encode(v)|, WireBody(v));
  }

  lemma AsSigned(i: int)
    requires -TWO_63 <= i < TWO_64
    ensures ToInt64(i) == if i < TWO_63 then i else i - TWO_64
  {
  }

  lemma SizedIff(b: Bytes, size: int)
    requires |b| >= 85 && -TWO_63 <= size < TWO_63
    ensures DecodeSized(b, size).Decoded?
            <==> 8 <= size && |b| >= 81 + size && |b| >= 81 + size + 4 * GetLE32(b[77 + size..])
  {
    AsSigned(77 + size);
  }

  /** A buffer decodes exactly when it is long enough for the sizes that stand in it. */
  lemma DecodesIff(b: Bytes)
    ensures Decode(b).Decoded?
            <==> |b| >= 85
                 && var size := GetLE64(b[77..]);
                    8 <= size < TWO_63 && |b| >= 81 + size && |b| >= 81 + size + 4 * GetLE32(b[77 + size..])
    ensures Decode(b).Decoded? ==> Decode(b) == DecodeSized(b, GetLE64(b[77..]))
  {
    if |b| >= 85 {
      AsSigned(GetLE64(b[77..]));
      SizedIff(b, ToInt64(GetLE64(b[77..])));
    }
  }

  /** What stands where: any flag but 0 means encrypted, and padding of the type is ignored on both sides. */
  lemma DecodedFields(b: Bytes)
    requires Decode(b).Decoded?
    ensures var v, size := Decode(b).message, GetLE64(b[77..]);
            && v.hash == b[20..52] && v.networkNum == GetLE32(b[52..]) && v.sourceID == b[56..72] && v.broadcastType == b[72..76]
            && (v.encrypted <==> b[76] != 0) && v.block == b[85..77 + size]
            && v.txIDs == GetIDs(b[81 + size..], GetLE32(b[77 + size..])) && v.msgType == TrimRight(TrimLeft(b[4..16]))
  {
    DecodesIff(b);
  }

  // The message object

  class Broadcast {
    var msgType: Bytes
    var hash: Hash32
    var networkNum: U32
    var sourceID: SourceID
    var broadcastType: Tag
    var encrypted: bool
    var block: Bytes
    var txIDs: seq<U32>

    function Value(): Message
      reads this
    {
      Message(msgType, hash, networkNum, sourceID, broadcastType, encrypted, block, txIDs)
    }

    /** A fresh value, ready to be unpacked into. */
    constructor ()
      ensures msgType == [] && block == [] && txIDs == []
    {
      msgType, hash, networkNum, sourceID := [], Zeros(32), 0, Zeros(16);
      broadcastType, encrypted, block, txIDs := Zeros(4), false, [], [];
    }

    constructor NewBlockBroadcast(hash: Hash32, block: Bytes, txIDs: seq<U32>, networkNum: U32)
      ensures Value() == Message([], hash, networkNum, Zeros(16), [98, 108, 111, 107], false, block, txIDs)
    {
      this.msgType, this.hash, this.networkNum, this.sourceID := [], hash, networkNum, Zeros(16);
      this.broadcastType, this.encrypted, this.block, this.txIDs := [98, 108, 111, 107], false, block, txIDs;
    }

    function Size(): U32
      reads this
    {
      TotalSize(block, txIDs) % TWO_32
    }

    /** Magic, type, length and control byte; the end of the type field must still hold zeros. */
    method PackHeader(buf: array<Byte>)
      requires 21 <= buf.Length < TWO_32 && buf[13..16] == Zeros(3)
      modifies this`msgType, buf
      ensures msgType == BROADCAST_TYPE
      ensures buf[..4] == MAGIC && buf[4..13] == BROADCAST_TYPE && buf[13..16] == Zeros(3)
      ensures buf[16..20] == PutLE32(buf.Length - HEADER_LEN)
      ensures forall k :: 20 <= k < buf.Length - 1 ==> buf[k] == old(buf[k])
      ensures buf[buf.Length - 1] == VALID_CONTROL_BYTE
    {
      msgType := BROADCAST_TYPE;
      CopyInto(buf, 0, MAGIC);
      CopyInto(buf, TYPE_OFFSET, BROADCAST_TYPE);
      assert buf[..4] == MAGIC && buf[13..16] == Zeros(3);
      CopyInto(buf, PAYLOAD_SIZE_OFFSET, PutLE32(buf.Length - HEADER_LEN));
      assert buf[..4] == MAGIC && buf[4..13] == BROADCAST_TYPE && buf[13..16] == Zeros(3);
      buf[buf.Length - CONTROL_BYTE_LEN] := VALID_CONTROL_BYTE;
      assert buf[..4] == MAGIC && buf[4..13] == BROADCAST_TYPE && buf[13..16] == Zeros(3);
    }

    /** Hash, network and source, then the header. */
    method PackBroadcastHeader(buf: array<Byte>)
      requires 73 <= buf.Length < TWO_32 && buf[13..16] == Zeros(3)
      modifies this`msgType, buf
      ensures msgType == BROADCAST_TYPE
      ensures buf[..72] == HeaderBytes(buf.Length, hash, networkNum, sourceID, [])
      ensures buf[buf.Length - 1] == VALID_CONTROL_BYTE
    {
      CopyInto(buf, 20, hash);
      CopyInto(buf, 52, PutLE32(networkNum));
      CopyInto(buf, 56, sourceID);
      assert buf[20..52] == hash && buf[52..56] == PutLE32(networkNum) && buf[56..72] == sourceID;
      PackHeader(buf);
      assert buf[20..52] == hash && buf[52..56] == PutLE32(networkNum) && buf[56..72] == sourceID;
      assert buf[..72] == buf[..4] + (buf[4..13] + (buf[13..16] + (buf[16..20] + (buf[20..52] + (buf[52..56] + (buf[56..72] + []))))));
    }

    /** The loop over the IDs, four bytes each. */
    method PackIDs(buf: array<Byte>, ghost start: nat, first: nat, ghost written: Bytes)
      requires start <= first && first + 4 * |txIDs| <= buf.Length
      requires buf[start..first] == written
      modifies buf
      ensures buf[start..first + 4 * |txIDs|] == written + PutIDs(txIDs)
      ensures forall k :: 0 <= k < buf.Length && !(first <= k < first + 4 * |txIDs|) ==> buf[k] == old(buf[k])
    {
      var offset := first;
      assert written + PutIDs(txIDs[..0]) == written;
      for i := 0 to |txIDs|
        invariant offset == first + 4 * i
        invariant buf[start..offset] == written + PutIDs(txIDs[..i])
        invariant forall k :: 0 <= k < buf.Length && !(first <= k < offset) ==> buf[k] == old(buf[k])
      {
        CopyNext(buf, start, offset, written + PutIDs(txIDs[..i]), PutLE32(txIDs[i]));
        PutIDsAppend(txIDs[..i], txIDs[i]);
        assert txIDs[..i + 1] == txIDs[..i] + [txIDs[i]];
        assert written + PutIDs(txIDs[..i]) + PutLE32(txIDs[i]) == written + (PutIDs(txIDs[..i]) + PutLE32(txIDs[i]));
        offset := offset + 4;
      }
      assert txIDs[..|txIDs|] == txIDs;
    }

    /** All writes are in bounds, and what they leave is the packed message. */
    method Pack() returns (buf: array<Byte>)
      requires Packable(Value())
      modifies this`msgType
      ensures fresh(buf) && buf[..] == Encode(old(Value()))
      ensures Value() == old(Value()).(msgType := BROADCAST_TYPE)
    {
      buf := new Byte[Size()](_ => 0);
      assert buf[13..16] == Zeros(3);
      PackBroadcastHeader(buf);
      ghost var header := buf[..72];
      PackBody(buf);
      assert buf[..72] == header;
      assert buf[..] == buf[..72] + buf[72..];
      HeaderSplit(buf.Length, hash, networkNum, sourceID, buf[72..]);
    }

    /** Type, flag and block size: the part of fixed length, 13 bytes. */
    method PackFixed(buf: array<Byte>) returns (ghost written: Bytes)
      requires Packable(Value()) && buf.Length >= 85
      modifies buf
      ensures written == broadcastType + [if encrypted then 1 else 0] + PutLE64(|block| + 8) && buf[72..85] == written
      ensures forall k :: 0 <= k < buf.Length && !(72 <= k < 85) ==> buf[k] == old(buf[k])
    {
      CopyInto(buf, BROADCAST_HEADER_LEN, broadcastType);
      var flag: Bytes := if encrypted then [1] else [0];
      CopyNext(buf, 72, BROADCAST_HEADER_LEN + 4, broadcastType, flag);
      CopyNext(buf, 72, BROADCAST_HEADER_LEN + 5, broadcastType + flag, PutLE64(|block| + 8));
      written := broadcastType + flag + PutLE64(|block| + 8);
    }

    /** Type, flag, block and IDs, each at the offset where the previous one ends. */
    method PackBody(buf: array<Byte>)
      requires Packable(Value()) && buf.Length == TotalSize(block, txIDs) && buf[buf.Length - 1] == VALID_CONTROL_BYTE
      modifies buf
      ensures forall k :: 0 <= k < 72 ==> buf[k] == old(buf[k])
      ensures buf[72..] == BodyBytes(broadcastType, encrypted, block, txIDs, [VALID_CONTROL_BYTE])
    {
      ghost var fixed := PackFixed(buf);
      assert buf[buf.Length - 1] == VALID_CONTROL_BYTE;
      PackVariable(buf, fixed);
      Regroup(broadcastType, [if encrypted then 1 else 0], PutLE64(|block| + 8), block, PutLE32(|txIDs|), PutIDs(txIDs), [VALID_CONTROL_BYTE]);
    }

    /** Block and IDs, behind the fixed part. */
    method PackVariable(buf: array<Byte>, ghost fixed: Bytes)
      requires Packable(Value()) && buf.Length == TotalSize(block, txIDs)
      requires buf[72..85] == fixed && buf[buf.Length - 1] == VALID_CONTROL_BYTE
      modifies buf
      ensures forall k :: 0 <= k < 85 ==> buf[k] == old(buf[k])
      ensures buf[72..] == fixed + block + PutLE32(|txIDs|) + PutIDs(txIDs) + [VALID_CONTROL_BYTE]
    {
      var offset := 85;
      CopyNext(buf, 72, offset, fixed, block);
      offset := offset + |block|;
      var count := PutLE32(|txIDs|);
      CopyNext(buf, 72, offset, fixed + block, count);
      PackIDs(buf, 72, offset + 4, fixed + block + count);
      assert buf[72..] == buf[72..buf.Length - 1] + [buf[buf.Length - 1]];
    }

    /**
     * Fills in the fields. The IDs are appended to those the value already holds, so only a fresh
     * value ends up with those of the message. False stands for a returned error.
     */
    method Unpack(buf: Bytes) returns (ok: bool)
      requires !Decode(buf).OutOfRange?
      modifies this
      ensures match Decode(buf)
              case Refused => !ok
              case Decoded(m) => ok && Value() == m.(txIDs := old(txIDs) + m.txIDs)
    {
      msgType := TrimRight(TrimLeft(buf[TYPE_OFFSET..TYPE_OFFSET + TYPE_LENGTH]));
      if |buf| < BROADCAST_HEADER_LEN + CONTROL_BYTE_LEN {
        return false;
      }
      hash, networkNum, sourceID := buf[20..52], GetLE32(buf[52..]), buf[56..72];
      broadcastType := buf[72..76];
      encrypted := buf[76] != 0;
      if |buf| < 77 + 8 {
        return false;
      }
      ok := UnpackBlockAndIDs(buf, ToInt64(GetLE64(buf[77..])));
    }

    method UnpackBlockAndIDs(buf: Bytes, sidsOffset: int) returns (ok: bool)
      requires |buf| >= 85 && !DecodeSized(buf, sidsOffset).OutOfRange?
      modifies this`block, this`txIDs
      ensures match DecodeSized(buf, sidsOffset)
              case Refused => !ok
              case Decoded(m) => ok && block == m.block && txIDs == old(txIDs) + m.txIDs
    {
      var offset := 77;
      if |buf| < ToInt64(offset + sidsOffset) {
        return false;
      }
      block := buf[offset + 8..offset + sidsOffset];
      offset := offset + sidsOffset;
      if |buf| < offset + 4 {
        return false;
      }
      var sidsLen: nat := GetLE32(buf[offset..]);
      offset := offset + 4;
      if |buf| < offset + 4 * sidsLen {
        return false;
      }
      UnpackIDs(buf, offset, sidsLen);
      return true;
    }

    method UnpackIDs(buf: Bytes, start: nat, sidsLen: nat)
      requires start + 4 * sidsLen <= |buf|
      modifies this`txIDs
      ensures txIDs == old(txIDs) + GetIDs(buf[start..], sidsLen)
    {
      var offset := start;
      for i := 0 to sidsLen
        invariant offset == start + 4 * i
        invariant txIDs + GetIDs(buf[offset..], sidsLen - i) == old(txIDs) + GetIDs(buf[start..], sidsLen)
      {
        var txID := GetLE32(buf[offset..]);
        assert buf[offset..][4..] == buf[offset + 4..];
        ghost var rest := GetIDs(buf[offset + 4..], sidsLen - i - 1);
        assert txIDs + ([txID] + rest) == txIDs + [txID] + rest;
        offset := offset + 4;
        txIDs := txIDs + [txID];
      }
    }
  }

  lemma Regroup(a: Bytes, b: Bytes, c: Bytes, d: Bytes, e: Bytes, f: Bytes, g: Bytes)
    ensures a + b + c + d + e + f + g == a + (b + (c + (d + (e + (f + g)))))
  {
  }

  lemma HeaderSplit(total: nat, hash: Hash32, networkNum: U32, sourceID: SourceID, rest: Bytes)
    requires HEADER_LEN <= total < TWO_32
    ensures HeaderBytes(total, hash, networkNum, sourceID, []) + rest == HeaderBytes(total, hash, networkNum, sourceID, rest)
  {
  }

  lemma {:induction false} PutIDsAppend(ids: seq<U32>, id: U32)
    ensures PutIDs(ids + [id]) == PutIDs(ids) + PutLE32(id)
  {
    if ids != [] {
      PutIDsAppend(ids[1..], id);
      assert (ids + [id])[1..] == ids[1..] + [id];
    } else {
      assert PutIDs([id]) == PutLE32(id) + PutIDs([id][1..]);
    }
  }
}
