/** Packing packets into one larger packet: `3escore/CollatedPacket.cpp` with compression off. */
module Collating {
  import opened Bytes
  import opened Packets
  import opened PacketCheck
  import opened PacketWriting
  import opened Crc
  import opened Maths

  const MESSAGE_SIZE: nat := 8
  const INITIAL_CURSOR_OFFSET: nat := HEADER_SIZE + MESSAGE_SIZE
  const OVERHEAD: nat := HEADER_SIZE + MESSAGE_SIZE + CRC_SIZE

  /** The largest limit for which no expansion can ask `nextLog2` for more than 2^31. */
  const LARGEST_LIMIT: nat := 0x8000_0000 - 0xFFFF - 2 * OVERHEAD

  /** Whether an expansion finds a power of two in 32 bits: `nextLog2` answers zero above 2^31. */
  predicate Grows(size: nat, expandBy: nat) {
    size + expandBy + OVERHEAD <= 0x8000_0000
  }

  /** `writeMessageHeader` for uncompressed data: packet header and `CollatedPacketMessage`. The
      payload size is cut to sixteen bits. */
  function MessageHeader(count: uint32): (h: bytes)
    ensures |h| == INITIAL_CURSOR_OFFSET
  {
    Marker() + U16(VERSION_MAJOR) + U16(VERSION_MINOR) + U16(MT_COLLATED_PACKET) + U16(0)
      + U16((count + MESSAGE_SIZE) % 0x1_0000) + [0, 0] + U16(0) + U16(0) + U32(count)
  }

  /** The packet that `finalise` makes of collated bytes. */
  function Collated(content: bytes): (p: bytes)
    requires |content| < 0x1_0000_0000
    ensures |p| == |content| + OVERHEAD
  {
    WithCrc(MessageHeader(|content|) + content)
  }

  class CollatedPacket {
    var buffer: bytes
    var finalBuffer: bytes
    var cursor: nat
    var finalPacketCursor: nat
    const maxPacketSize: uint32
    var finalised: bool
    var active: bool
    const calculator: CrcCalc

    ghost predicate Valid()
      reads this, calculator, calculator.table
    {
      && |buffer| < 0x1_0000_0000
      && (cursor != 0 ==> cursor + OVERHEAD <= maxPacketSize && cursor + OVERHEAD <= |buffer|)
      && finalPacketCursor <= |finalBuffer|
      && calculator.Valid() && calculator.polynomial == Generator() && calculator.initialRemainder == Preset()
    }

    /** The collated bytes. */
    ghost function Content(): bytes
      requires Valid()
      reads this, calculator, calculator.table
    {
      if cursor == 0 then [] else buffer[..cursor]
    }

    /** `init`, by which a zero buffer size selects the default. */
    constructor (bufferSize: uint32, maxPacketSize: uint32)
      ensures Valid() && fresh(calculator) && fresh(calculator.table)
      ensures |buffer| == if bufferSize == 0 then 16 * 1024 else bufferSize
      ensures Content() == [] && !finalised && active && this.maxPacketSize == maxPacketSize
    {
      buffer := Zeros(if bufferSize == 0 then 16 * 1024 else bufferSize);
      finalBuffer, cursor, finalPacketCursor := [], 0, 0;
      this.maxPacketSize := maxPacketSize;
      finalised, active := false, true;
      var c := new CrcCalc(Preset(), Generator());
      calculator := c;
    }

    function CollatedBytes(): nat
      reads this
    {
      cursor
    }

    function AvailableBytes(): nat
      reads this
    {
      var used := CollatedBytes() + OVERHEAD;
      if maxPacketSize >= used then maxPacketSize - used else 0
    }

    method Reset()
      requires Valid()
      modifies this`cursor, this`finalPacketCursor, this`finalised
      ensures Valid() && Content() == [] && !finalised && finalPacketCursor == 0
    {
      cursor, finalPacketCursor, finalised := 0, 0, false;
    }

    /** Whether `add` takes a packet. */
    ghost predicate Fits(data: bytes)
      reads this
    {
      active && |data| > 0 && !finalised && cursor + |data| + OVERHEAD <= maxPacketSize
    }

    /** Whether a packet has its place in the buffer, or gets it by an expansion. */
    ghost predicate HasPlace(data: bytes)
      reads this
    {
      cursor + |data| + OVERHEAD <= |buffer| || Grows(|buffer|, |data| + OVERHEAD)
    }

    /** `add`: collate a packet, or refuse and leave everything as it was. The buffer grows as
        needed and the cursor never leaves room for less than the overhead. A packet that fits and
        has no place overruns the buffer: the program copies bytes past its end. */
    method Add(data: bytes) returns (added: int, overrun: bool)
      requires Valid() && |data| <= 0xFFFF
      modifies this`buffer, this`cursor
      ensures overrun == (old(Fits(data)) && !old(HasPlace(data)))
      ensures overrun ==> |buffer| < old(cursor) + |data|
      ensures !overrun ==> Valid()
      ensures added == (if old(Fits(data)) then |data| else if !active || |data| == 0 then 0 else -1)
      ensures old(Fits(data)) && !overrun ==> Content() == old(Content()) + data && cursor == old(cursor) + |data|
      ensures old(cursor) + |data| + OVERHEAD <= old(|buffer|) ==> |buffer| == old(|buffer|)
      ensures !old(Fits(data)) ==> buffer == old(buffer) && cursor == old(cursor)
    {
      overrun := false;
      if !active || |data| == 0 {
        return 0, false;
      }
      if finalised || CollatedBytes() + |data| + OVERHEAD > maxPacketSize {
        return -1, false;
      }
      if |buffer| < CollatedBytes() + |data| + OVERHEAD {
        Expand(|data| + OVERHEAD);
      }
      overrun := |buffer| < CollatedBytes() + |data| + OVERHEAD;
      if !overrun {
        buffer := Patched(buffer, cursor, data);
      }
      cursor := cursor + |data|;
      added := |data|;
    }

    /** `expand`: the next power of two, within the packet size limit. It makes the wanted room
        exactly if that power can be told in 32 bits; otherwise the buffer shrinks, and has no room
        even for the packet alone. */
    method Expand(expandBy: nat)
      requires Valid() && OVERHEAD < expandBy <= 0xFFFF + OVERHEAD
      requires |buffer| < cursor + expandBy <= maxPacketSize
      modifies this`buffer
      ensures |buffer| <= maxPacketSize
      ensures cursor + expandBy <= |buffer| <==> Grows(old(|buffer|), expandBy)
      ensures cursor + expandBy <= |buffer| ==> buffer[..old(|buffer|)] == old(buffer)
      ensures cursor + expandBy <= |buffer| || |buffer| < cursor + expandBy - OVERHEAD
      ensures 0x8000_0000 < old(|buffer|) + expandBy + OVERHEAD < 0x1_0000_0000 ==> buffer == []
    {
      var wanted := |buffer| + expandBy + OVERHEAD;
      var power := NextLog2(wanted % 0x1_0000_0000);
      if wanted > 0x1_0000_0000 {
        SmallPower(power, wanted % 0x1_0000_0000);
      }
      buffer := Resized(buffer, if power < maxPacketSize then power else maxPacketSize, 0);
    }

    /** `finalise` with its uncompressed path. */
    method Finalise() returns (ok: bool)
      requires Valid()
      modifies this`finalBuffer, this`finalPacketCursor, this`finalised
      ensures Valid() && ok == (active && !old(finalised)) && Content() == old(Content())
      ensures ok ==> finalised && Packet() == if Content() == [] then [] else Collated(Content())
      ensures !ok ==>
        finalised == old(finalised) && finalPacketCursor == old(finalPacketCursor) && finalBuffer == old(finalBuffer)
    {
      if !active || finalised {
        return false;
      }
      if CollatedBytes() == 0 {
        finalPacketCursor, finalised := 0, true;
        return true;
      }
      Complete();
      finalised, ok := true, true;
    }

    /** Header, collated bytes and CRC, put together in the final buffer. */
    method Complete()
      requires Valid() && cursor != 0
      modifies this`finalBuffer, this`finalPacketCursor
      ensures finalPacketCursor <= |finalBuffer| && finalBuffer[..finalPacketCursor] == Collated(buffer[..cursor])
    {
      finalBuffer := Resized(finalBuffer, |buffer| + OVERHEAD, 0);
      finalBuffer := Patched(finalBuffer, 0, MessageHeader(cursor));
      finalBuffer := Patched(finalBuffer, INITIAL_CURSOR_OFFSET, buffer[..cursor]);
      finalPacketCursor := INITIAL_CURSOR_OFFSET + cursor;
      assert finalBuffer[..finalPacketCursor] == MessageHeader(cursor) + buffer[..cursor];
      var crc := calculator.Crc(finalBuffer, finalPacketCursor);
      finalBuffer := Patched(finalBuffer, finalPacketCursor, CrcToBytes(crc));
      finalPacketCursor := finalPacketCursor + CRC_SIZE;
    }

    /** What `buffer()` hands out: the finalised packet. */
    function Packet(): bytes
      requires finalPacketCursor <= |finalBuffer|
      reads this
    {
      finalBuffer[..finalPacketCursor]
    }
  }

  // ---------------------------------------------------------------- limits near 2^31

  /** Below the largest limit there always is a place. */
  lemma SmallLimitsGrow(packet: CollatedPacket, data: bytes)
    requires packet.Valid() && packet.maxPacketSize <= LARGEST_LIMIT && |data| <= 0xFFFF && packet.Fits(data)
    ensures packet.HasPlace(data)
  {
  }

  /** Collate single bytes until the buffer is full, and expand it: nothing is left of it. */
  method FullBufferExample() returns (collated: nat, left: nat)
    ensures collated > 0 && left == 0
  {
    var packet := new CollatedPacket(0x7FFF_FFF0, 0xFFFF_FFFF);
    while packet.cursor + 1 + OVERHEAD <= |packet.buffer|
      invariant fresh(packet) && packet.Valid() && packet.active && !packet.finalised
      invariant packet.maxPacketSize == 0xFFFF_FFFF && |packet.buffer| == 0x7FFF_FFF0
      decreases 0x7FFF_FFF0 - packet.cursor
    {
      var _, _ := packet.Add([0xFF]);
    }
    packet.Expand(1 + OVERHEAD);
    collated, left := packet.cursor, |packet.buffer|;
  }

  // ---------------------------------------------------------------- the collated packet

  /** What stands in header and message of a collated packet: no message id, no payload offset, no flags, and in
      the message no flags either, a zero, and the number of bytes. */
  predicate IsCollatedHeader(p: bytes, count: nat) {
    && |p| >= INITIAL_CURSOR_OFFSET && HasMarker(p) && Version(p) == VERSION
    && RoutingId(p) == MT_COLLATED_PACKET && MessageId(p) == 0 && PayloadSize(p) == count + MESSAGE_SIZE
    && p[14] == 0 && p[15] == 0
    && U16At(p, HEADER_SIZE) == 0 && U16At(p, HEADER_SIZE + 2) == 0 && U32At(p, HEADER_SIZE + 4) == count
  }

  lemma MessageHeaderFields(count: nat)
    requires count + MESSAGE_SIZE <= 0xFFFF
    ensures IsCollatedHeader(MessageHeader(count), count) && Compatible(MessageHeader(count))
  {
  }

  /** A collated packet that fits sixteen bits is well formed, passes the CRC check, and carries its
      content behind the message. */
  lemma CollatedPacketFields(content: bytes)
    requires |content| + OVERHEAD <= MAX_SIZE
    ensures
      var p := Collated(content);
      && WellFormed(p) && CheckCrc(p) && Compatible(p) && IsCollatedHeader(p, |content|)
      && p[INITIAL_CURSOR_OFFSET..CoveredSize(p)] == content
  {
    var h := MessageHeader(|content|);
    MessageHeaderFields(|content|);
    HeaderStays(h, content, |content|);
    WithCrcIsAccepted(h + content);
    ContentBetween(h, content, CrcToBytes(Crc16(h + content)));
  }

  lemma ContentBetween(h: bytes, content: bytes, crc: bytes)
    requires |h| == INITIAL_CURSOR_OFFSET && IsCollatedHeader(h, |content|) && |crc| == CRC_SIZE
    ensures
      var p := (h + content) + crc;
      && IsCollatedHeader(p, |content|) && Compatible(p) == Compatible(h)
      && p[INITIAL_CURSOR_OFFSET..CoveredSize(p)] == content
  {
    assert (h + content) + crc == h + (content + crc);
    HeaderStays(h, content + crc, |content|);
    assert (h + (content + crc))[|h|..|h| + |content|] == content;
  }

  /** Header and message at the start of a packet keep their fields. */
  lemma HeaderStays(h: bytes, rest: bytes, count: nat)
    requires |h| == INITIAL_CURSOR_OFFSET && IsCollatedHeader(h, count)
    ensures
      var p := h + rest;
      IsCollatedHeader(p, count) && Compatible(p) == Compatible(h) && PacketSize(p) == PacketSize(h)
  {
    assert forall i :: 0 <= i < |h| ==> (h + rest)[i] == h[i];
    assert (h + rest)[..4] == h[..4];
  }

  /** The checksum bytes of a collated packet. */
  function CrcOf(content: bytes): bytes
    requires |content| < 0x1_0000_0000
  {
    CrcToBytes(Crc16(MessageHeader(|content|) + content))
  }

  lemma CollatedTail(content: bytes)
    requires |content| < 0x1_0000_0000
    ensures Collated(content)[INITIAL_CURSOR_OFFSET..] == content + CrcOf(content)
  {
  }
}
