/** Framing: messages go out one after the other, and are cut out of the byte stream again. */
module Stream {
  import opened WireBytes
  import opened BroadcastCodec

  /** Length of the frame at the front of a buffer of at least 20 bytes. */
  function FrameLength(b: Bytes): nat
    requires |b| >= HEADER_LEN
  {
    HEADER_LEN + GetLE32(b[PAYLOAD_SIZE_OFFSET..])
  }

  predicate HasFrame(b: Bytes) {
    |b| >= HEADER_LEN && |b| >= FrameLength(b)
  }

  /** All complete frames at the front of a buffer, and what is left. */
  function Frames(b: Bytes): (seq<Bytes>, Bytes)
    decreases |b|
  {
    if !HasFrame(b) then ([], b)
    else
      var (frames, rest) := Frames(b[FrameLength(b)..]);
      ([b[..FrameLength(b)]] + frames, rest)
  }

  function Concat(parts: seq<Bytes>): Bytes {
    if parts == [] then [] else parts[0] + Concat(parts[1..])
  }

  /** Reading chunk after chunk into a buffer. */
  function Feed(buffer: Bytes, chunks: seq<Bytes>): (seq<Bytes>, Bytes)
    decreases |chunks|
  {
    if chunks == [] then ([], buffer)
    else
      var (now, rest) := Frames(buffer + chunks[0]);
      var (later, left) := Feed(rest, chunks[1..]);
      (now + later, left)
  }

  // Reassembly does not depend on the chunks

  /** A frame already complete is the same whatever follows it. */
  lemma FrameStays(a: Bytes, b: Bytes)
    requires HasFrame(a)
    ensures HasFrame(a + b) && FrameLength(a + b) == FrameLength(a)
    ensures (a + b)[..FrameLength(a)] == a[..FrameLength(a)] && (a + b)[FrameLength(a)..] == a[FrameLength(a)..] + b
  {
  }

  /** Bytes that arrive later only continue what was left over. */
  lemma {:induction false} FramesResume(a: Bytes, b: Bytes)
    ensures var (frames, rest) := Frames(a);
            Frames(a + b) == (frames + Frames(rest + b).0, Frames(rest + b).1)
    decreases |a|
  {
    if HasFrame(a) {
      FrameStays(a, b);
      var n := FrameLength(a);
      FramesResume(a[n..], b);
      var (frames, rest) := Frames(a[n..]);
      assert [a[..n]] + (frames + Frames(rest + b).0) == ([a[..n]] + frames) + Frames(rest + b).0;
    } else {
      assert [] + Frames(a + b).0 == Frames(a + b).0;
    }
  }

  /** What is left never holds a complete frame, and nothing is lost: frames and rest are the stream. */
  lemma {:induction false} FramesPartition(b: Bytes)
    ensures var (frames, rest) := Frames(b);
            && !HasFrame(rest) && Concat(frames) + rest == b
            && (forall i :: 0 <= i < |frames| ==> HasFrame(frames[i]) && FrameLength(frames[i]) == |frames[i]|)
    decreases |b|
  {
    if HasFrame(b) {
      var n := FrameLength(b);
      FramesPartition(b[n..]);
      var (frames, rest) := Frames(b[n..]);
      var all := [b[..n]] + frames;
      assert all[1..] == frames;
      assert Concat(all) + rest == b[..n] + (Concat(frames) + rest);
      assert GetLE32(b[..n][PAYLOAD_SIZE_OFFSET..]) == GetLE32(b[PAYLOAD_SIZE_OFFSET..]);
    }
  }

  lemma RestIncomplete(b: Bytes)
    ensures !HasFrame(Frames(b).1)
  {
    FramesPartition(b);
  }

  /** Any way of cutting a stream into chunks yields the frames of the whole stream. */
  lemma {:induction false} ChunksDoNotMatter(buffer: Bytes, chunks: seq<Bytes>)
    requires !HasFrame(buffer)
    ensures Feed(buffer, chunks) == Frames(buffer + Concat(chunks))
    decreases |chunks|
  {
    if chunks == [] {
      assert buffer + Concat(chunks) == buffer;
    } else {
      var (now, rest) := Frames(buffer + chunks[0]);
      RestIncomplete(buffer + chunks[0]);
      ChunksDoNotMatter(rest, chunks[1..]);
      FramesResume(buffer + chunks[0], Concat(chunks[1..]));
      AppendTwice(buffer, chunks[0], Concat(chunks[1..]));
    }
  }

  // Messages end to end

  predicate AllPackable(messages: seq<Message>) {
    forall i :: 0 <= i < |messages| ==> Packable(messages[i])
  }

  function EncodeAll(messages: seq<Message>): seq<Bytes>
    requires AllPackable(messages)
  {
    if messages == [] then [] else [Encode(messages[0])] + EncodeAll(messages[1..])
  }

  function DecodeAll(frames: seq<Bytes>): seq<Outcome> {
    if frames == [] then [] else [Decode(frames[0])] + DecodeAll(frames[1..])
  }

  /** The messages as the receiver sees them: each one's type is set by packing. */
  function Received(messages: seq<Message>): seq<Outcome> {
    if messages == [] then [] else [Decoded(messages[0].(msgType := BROADCAST_TYPE))] + Received(messages[1..])
  }

  /** The frames of packed messages, one after the other, are those messages. */
  lemma {:induction false} FramesOfMessages(messages: seq<Message>)
    requires AllPackable(messages)
    ensures Frames(Concat(EncodeAll(messages))) == (EncodeAll(messages), [])
  {
    if messages != [] {
      var first, others := Encode(messages[0]), Concat(EncodeAll(messages[1..]));
      assert EncodeAll(messages)[1..] == EncodeAll(messages[1..]);
      PackedLength(messages[0]);
      assert HasFrame(first) && FrameLength(first) == |first|;
      FrameStays(first, others);
      assert first[|first|..] + others == others && first[..|first|] == first;
      FramesOfMessages(messages[1..]);
    }
  }

  lemma {:induction false} AllDecode(messages: seq<Message>)
    requires AllPackable(messages)
    ensures DecodeAll(EncodeAll(messages)) == Received(messages)
  {
    if messages != [] {
      RoundTrip(messages[0]);
      AllDecode(messages[1..]);
      assert EncodeAll(messages)[1..] == EncodeAll(messages[1..]);
    }
  }

  /** The bytes of the first n messages, packed one after the other. */
  ghost function Sent(messages: seq<Message>, n: nat): Bytes
    requires AllPackable(messages) && n <= |messages|
  {
    Concat(EncodeAll(messages[..n]))
  }

  /**
   * Packed, sent back to back, cut anywhere, reassembled and unpacked: the messages that were sent
   * come out as they went in, in order, and nothing is left in the buffer.
   */
  lemma EndToEnd(messages: seq<Message>, n: nat, chunks: seq<Bytes>)
    requires AllPackable(messages) && n <= |messages|
    requires Concat(chunks) == Sent(messages, n)
    ensures var (frames, rest) := Feed([], chunks);
            DecodeAll(frames) == Received(messages[..n]) && rest == []
  {
    ChunksDoNotMatter([], chunks);
    assert [] + Concat(chunks) == Concat(chunks);
    FramesOfMessages(messages[..n]);
    AllDecode(messages[..n]);
  }

  lemma {:induction false} ConcatAppend(parts: seq<Bytes>, part: Bytes)
    ensures Concat(parts + [part]) == Concat(parts) + part
  {
    if parts == [] {
      assert Concat([part]) == part + Concat([part][1..]);
    } else {
      ConcatAppend(parts[1..], part);
      assert (parts + [part])[1..] == parts[1..] + [part];
    }
  }

  // The connection object, for one connection lifetime

  /** What the socket delivers: up to 4096 bytes, or an error. */
  datatype SocketRead = SomeBytes(bytes: Bytes) | ReadError

  class SSLConn {
    var connectionOpen: bool
    var buf: Bytes
    // bytes handed to the socket's writer, oldest first
    var written: Bytes

    /** The state after a successful Connect. */
    constructor ()
      ensures connectionOpen && buf == [] && written == []
    {
      connectionOpen, buf, written := true, [], [];
    }

    /** Reads once and cuts off every message that is complete; the callback gets them in this order. */
    method ReadMessages(read: SocketRead) returns (messages: seq<Bytes>, ok: bool)
      modifies this`connectionOpen, this`buf
      ensures ok == (old(connectionOpen) && read.SomeBytes?)
      ensures if ok then connectionOpen && (messages, buf) == Frames(old(buf) + read.bytes)
              else !connectionOpen && messages == [] && buf == old(buf)
    {
      messages := [];
      if !connectionOpen || read.ReadError? {
        connectionOpen := false;
        return messages, false;
      }
      buf := buf + read.bytes;
      ghost var all := Frames(buf);
      assert [] + all.0 == all.0;
      while true
        invariant connectionOpen && all == (messages + Frames(buf).0, Frames(buf).1)
        decreases |buf|
      {
        var bufLen := |buf|;
        if bufLen < HEADER_LEN {
          assert Frames(buf) == ([], buf);
          break;
        }
        var payloadLen: nat := GetLE32(buf[PAYLOAD_SIZE_OFFSET..]);
        if bufLen < HEADER_LEN + payloadLen {
          assert Frames(buf) == ([], buf);
          break;
        }
        var msg := buf[..HEADER_LEN + payloadLen];
        assert messages + ([msg] + Frames(buf[HEADER_LEN + payloadLen..]).0) == messages + [msg] + Frames(buf[HEADER_LEN + payloadLen..]).0;
        buf := buf[HEADER_LEN + payloadLen..];
        messages := messages + [msg];
      }
      assert messages + [] == messages;
      return messages, true;
    }

    /** Nothing is written once the connection is closed; a failed write closes it. */
    method Write(packed: Bytes, writeOk: bool)
      modifies this`connectionOpen, this`written
      ensures connectionOpen == (old(connectionOpen) && writeOk)
      ensures written == if old(connectionOpen) && writeOk then old(written) + packed else old(written)
    {
      if connectionOpen && writeOk {
        written := written + packed;
      } else {
        connectionOpen := false;
      }
    }

    method PackAndWrite(msg: Broadcast, writeOk: bool)
      requires Packable(msg.Value())
      modifies this`connectionOpen, this`written, msg`msgType
      ensures connectionOpen == (old(connectionOpen) && writeOk)
      ensures written == if old(connectionOpen) && writeOk then old(written) + Encode(old(msg.Value())) else old(written)
      ensures SameButType(msg.Value(), old(msg.Value()))
    {
      if connectionOpen {
        var packed := msg.Pack();
        Write(packed[..], writeOk);
      }
    }

    /**
     * Drains the queue of messages to send. The socket takes the first `accepts` of them; the write
     * that fails closes the connection, and the rest are dropped.
     */
    method SendLoop(queue: seq<Broadcast>, accepts: nat)
      requires connectionOpen && AllPackable(Values(queue))
      modifies this`connectionOpen, this`written, queue`msgType
      ensures connectionOpen == (|queue| <= accepts)
      ensures written == old(written) + Sent(old(Values(queue)), if |queue| <= accepts then |queue| else accepts)
    {
      ghost var values := Values(queue);
      for i := 0 to |queue|
        invariant connectionOpen == (i <= accepts)
        invariant forall k :: 0 <= k < |queue| ==> SameButType(queue[k].Value(), values[k])
        invariant written == old(written) + Sent(values, if i <= accepts then i else accepts)
      {
        SendNext(queue[i], values, i, old(written), i < accepts);
      }
    }

    /** One message of the queue; packing only sets its type. */
    method SendNext(msg: Broadcast, ghost values: seq<Message>, ghost i: nat, ghost before: Bytes, writeOk: bool)
      requires AllPackable(values) && i < |values| && SameButType(msg.Value(), values[i])
      requires connectionOpen ==> written == before + Sent(values, i)
      modifies this`connectionOpen, this`written, msg`msgType
      ensures connectionOpen == (old(connectionOpen) && writeOk)
      ensures written == if old(connectionOpen) && writeOk then before + Sent(values, i + 1) else old(written)
      ensures SameButType(msg.Value(), old(msg.Value()))
    {
      TypeDoesNotMatter(msg.Value(), values[i]);
      OneMoreMessage(values, i);
      AppendTwice(before, Sent(values, i), Encode(values[i]));
      PackAndWrite(msg, writeOk);
    }
  }

  ghost function Values(queue: seq<Broadcast>): (r: seq<Message>)
    reads queue
    ensures |r| == |queue| && forall i :: 0 <= i < |queue| ==> r[i] == queue[i].Value()
  {
    seq(|queue|, i requires 0 <= i < |queue| reads queue => queue[i].Value())
  }

  /** Packing sets the type of a message and leaves the rest. */
  predicate SameButType(a: Message, b: Message) {
    a == b.(msgType := a.msgType)
  }

  lemma TypeDoesNotMatter(a: Message, b: Message)
    requires SameButType(a, b) && Packable(b)
    ensures Packable(a) && Encode(a) == Encode(b)
  {
  }

  lemma AppendTwice(a: Bytes, b: Bytes, c: Bytes)
    ensures a + b + c == a + (b + c)
  {
  }

  lemma {:induction false} EncodeAllAppend(messages: seq<Message>, m: Message)
    requires AllPackable(messages) && Packable(m)
    ensures EncodeAll(messages + [m]) == EncodeAll(messages) + [Encode(m)]
  {
    var all := messages + [m];
    if messages == [] {
      assert all == [m] && EncodeAll(all[1..]) == [];
    } else {
      EncodeAllAppend(messages[1..], m);
      assert all[1..] == messages[1..] + [m] && all[0] == messages[0];
    }
  }

  lemma OneMoreMessage(queue: seq<Message>, i: nat)
    requires AllPackable(queue) && i < |queue|
    ensures Sent(queue, i + 1) == Sent(queue, i) + Encode(queue[i])
  {
    assert queue[..i + 1] == queue[..i] + [queue[i]];
    EncodeAllAppend(queue[..i], queue[i]);
    ConcatAppend(EncodeAll(queue[..i]), Encode(queue[i]));
  }
}
