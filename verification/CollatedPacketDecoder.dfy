/** Unpacking: `3escore/CollatedPacketDecoder.cpp` in a build without zlib. */
module Decoding {
  import opened Bytes
  import opened Packets
  import opened PacketCheck
  import opened Collating

  /** The packets found in memory when `left` bytes are still to be decoded. Decoding stops at the
      first position without a marker. */
  function DecodeFrom(s: bytes, left: int): seq<bytes>
    requires Readable(s, left)
    decreases |s|
  {
    if left <= 0 || !HasMarker(s) || PacketSize(s) < HEADER_SIZE then []
    else [s[..PacketSize(s)]] + DecodeFrom(s[PacketSize(s)..], left - PacketSize(s))
  }

  /** The decoder looks at headers without a bounds check, so the memory must hold them and the
      packets they announce. */
  predicate Readable(s: bytes, left: int)
    decreases |s|
  {
    left > 0 ==>
      && |s| >= HEADER_SIZE
      && (HasMarker(s) ==> HEADER_SIZE <= PacketSize(s) <= |s| && Readable(s[PacketSize(s)..], left - PacketSize(s)))
  }

  /** Content that cuts into packets is decoded into just those packets, whatever follows it. */
  lemma {:induction false} DecodeSplit(content: bytes, rest: bytes)
    requires Split(content).Some?
    ensures Readable(content + rest, |content|) && DecodeFrom(content + rest, |content|) == Split(content).value
    decreases |content|
  {
    if content != [] {
      var n := PacketSize(content);
      HeaderOfPrefix(content, rest);
      assert (content + rest)[n..] == content[n..] + rest;
      assert (content + rest)[..n] == content[..n];
      DecodeSplit(content[n..], rest);
    }
  }

  lemma DecodeStep(s: bytes, left: int)
    requires left > 0 && Readable(s, left) && HasMarker(s)
    ensures
      var n, packets := PacketSize(s), DecodeFrom(s, left);
      && HEADER_SIZE <= n <= |s| && Readable(s[n..], left - n)
      && |packets| > 0 && packets[0] == s[..n] && packets[1..] == DecodeFrom(s[n..], left - n)
      && (left == n ==> packets[1..] == [])
  {
  }

  /** A packet that the decoder can start on without reading past its end. */
  predicate InMemory(p: bytes) {
    && |p| >= HEADER_SIZE && |p| >= CoveredSize(p)
    && (Collates(p) ==> Readable(p[INITIAL_CURSOR_OFFSET..], U32At(p, HEADER_SIZE + 4)))
  }

  /** A packet that the decoder accepts: not compressed, and not too short for its message. */
  predicate Decodable(p: bytes) {
    InMemory(p) && (RoutingId(p) == MT_COLLATED_PACKET ==> Collates(p))
  }

  /** A collated packet with readable, uncompressed content. */
  predicate Collates(p: bytes)
    requires |p| >= HEADER_SIZE && |p| >= CoveredSize(p)
  {
    RoutingId(p) == MT_COLLATED_PACKET && PayloadSize(p) >= MESSAGE_SIZE && U16At(p, HEADER_SIZE) % 2 == 0
  }

  /** What a decoder makes of a packet: the packets inside a collated one, any other as it is. */
  function Unpacked(p: bytes): seq<bytes>
    requires InMemory(p)
  {
    if Collates(p) then DecodeFrom(p[INITIAL_CURSOR_OFFSET..], U32At(p, HEADER_SIZE + 4)) else [p]
  }

  /** Unpacking undoes collation. */
  lemma UnpackCollated(content: bytes)
    requires |content| + OVERHEAD <= MAX_SIZE && Split(content).Some?
    ensures Decodable(Collated(content)) && Unpacked(Collated(content)) == Split(content).value
  {
    CollatedPacketFields(content);
    CollatedTail(content);
    var p := Collated(content);
    DecodeSplit(content, CrcOf(content));
    DecodableIfReadable(p, |content|);
  }

  lemma DecodableIfReadable(p: bytes, n: nat)
    requires WellFormed(p) && RoutingId(p) == MT_COLLATED_PACKET && PayloadSize(p) >= MESSAGE_SIZE
    requires U16At(p, HEADER_SIZE) == 0 && U32At(p, HEADER_SIZE + 4) == n && Readable(p[INITIAL_CURSOR_OFFSET..], n)
    ensures Decodable(p) && Unpacked(p) == DecodeFrom(p[INITIAL_CURSOR_OFFSET..], n)
  {
  }

  lemma UnpackPlain(p: bytes)
    requires WellFormed(p) && RoutingId(p) != MT_COLLATED_PACKET
    ensures Decodable(p) && Unpacked(p) == [p]
  {
  }

  class CollatedPacketDecoder {
    var packet: Option<bytes>
    var stream: Option<bytes>
    var streamBytes: nat
    var targetBytes: nat
    var decodedBytes: nat

    ghost predicate Valid()
      reads this
    {
      stream.Some? ==>
        decodedBytes <= |stream.value| && Readable(stream.value[decodedBytes..], targetBytes - decodedBytes)
    }

    /** The packets that `Next` has still to hand out. */
    ghost function Remaining(): seq<bytes>
      requires Valid()
      reads this
    {
      if stream.Some? then DecodeFrom(stream.value[decodedBytes..], targetBytes - decodedBytes)
      else if packet.Some? then [packet.value]
      else []
    }

    constructor ()
      ensures Valid() && Remaining() == []
    {
      packet, stream, streamBytes, targetBytes, decodedBytes := None, None, 0, 0, 0;
    }

    method InitStream(stream: Option<bytes>, streamBytes: nat, targetBytes: nat)
      modifies this`stream, this`streamBytes, this`targetBytes, this`decodedBytes
      ensures this.stream == stream && this.streamBytes == streamBytes && this.targetBytes == targetBytes
        && decodedBytes == 0
    {
      this.stream, this.streamBytes, this.targetBytes, decodedBytes := stream, streamBytes, targetBytes, 0;
    }

    /** `setPacket`: start on a packet, or on none. A collated packet too short for its message
        leaves the previous stream in place and is refused, as is a compressed one, which is handed out as it
        is all the same. */
    method SetPacket(packet: Option<bytes>) returns (ok: bool)
      requires Valid() && (packet.Some? ==> InMemory(packet.value))
      modifies this
      ensures Valid() && this.packet == packet
      ensures packet.None? ==> !ok && Remaining() == []
      ensures packet.Some? && RoutingId(packet.value) != MT_COLLATED_PACKET ==> ok
      ensures packet.Some? && ok ==> Remaining() == Unpacked(packet.value) && decodedBytes == 0
      ensures packet.Some? && RoutingId(packet.value) == MT_COLLATED_PACKET ==>
        (ok <==> PayloadSize(packet.value) >= MESSAGE_SIZE && U16At(packet.value, HEADER_SIZE) % 2 == 0)
      ensures
        packet.Some? && RoutingId(packet.value) == MT_COLLATED_PACKET && PayloadSize(packet.value) >= MESSAGE_SIZE
        && !ok ==>
        Remaining() == [packet.value]
      ensures
        packet.Some? && RoutingId(packet.value) == MT_COLLATED_PACKET && PayloadSize(packet.value) < MESSAGE_SIZE ==>
        stream == old(stream) && targetBytes == old(targetBytes) && decodedBytes == old(decodedBytes)
    {
      this.packet := packet;
      if packet.None? {
        InitStream(None, 0, 0);
        return false;
      }
      var p := packet.value;
      if RoutingId(p) == MT_COLLATED_PACKET {
        if PayloadSize(p) < MESSAGE_SIZE {
          return false;
        }
        if U16At(p, HEADER_SIZE) % 2 == 1 {
          InitStream(None, 0, 0);
          return false;
        }
        InitStream(Some(p[INITIAL_CURSOR_OFFSET..]), PayloadSize(p) - MESSAGE_SIZE, U32At(p, HEADER_SIZE + 4));
        assert stream.value[0..] == p[INITIAL_CURSOR_OFFSET..];
      } else {
        InitStream(None, 0, PayloadSize(p));
      }
      ok := true;
    }

    /** `next`: hand out the packets one by one, then none. */
    method Next() returns (next: Option<bytes>)
      requires Valid()
      modifies this
      ensures Valid()
      ensures old(Remaining()) == [] ==> next.None? && Remaining() == []
      ensures old(Remaining()) != [] ==> next == Some(old(Remaining())[0]) && Remaining() == old(Remaining())[1..]
    {
      ghost var was := Remaining();
      if stream.Some? {
        next := NextPacket();
      } else {
        next := packet;
        decodedBytes := targetBytes;
        packet := None;
      }
      assert was != [] ==> Remaining() == was[1..];
    }

    /** `nextPacket` on an uncompressed stream. */
    method NextPacket() returns (next: Option<bytes>)
      requires Valid() && stream.Some?
      modifies this
      ensures Valid()
      ensures old(Remaining()) == [] ==> next.None? && Remaining() == []
      ensures old(Remaining()) != [] ==> next == Some(old(Remaining())[0]) && Remaining() == old(Remaining())[1..]
    {
      if decodedBytes >= targetBytes {
        return None;
      }
      var here := stream.value[decodedBytes..];
      var size := if HasMarker(here) then PacketSize(here) else 0;
      if size == 0 {
        return None;
      }
      next := Some(here[..size]);
      assert stream.value[decodedBytes + size..] == here[size..];
      DecodeStep(here, targetBytes - decodedBytes);
      decodedBytes := decodedBytes + size;
      if decodedBytes == targetBytes {
        packet, stream := None, None;
      }
    }
  }
}
