/** Writing typed data into a packet buffer: `3escore/PacketWriter.cpp` on a little-endian host. */
module PacketWriting {
  import opened Bytes
  import opened Packets
  import opened PacketCheck
  import opened Crc

  /** Whole elements of `size` bytes, each reversed. */
  function SwapEach(data: bytes, size: nat): (s: bytes)
    requires size > 0
    ensures |s| == |data|
    decreases |data|
  {
    if |data| < size then data else Reverse(data[..size]) + SwapEach(data[size..], size)
  }

  /** In each element the bytes are in the opposite order, and elements stay where they are. */
  lemma {:induction false} SwapEachAt(data: bytes, size: nat, start: nat, i: nat)
    requires size > 0 && i < size && Whole(start, size) && start + size <= |data|
    ensures SwapEach(data, size)[start + i] == data[start + size - 1 - i]
    decreases start
  {
    var first, rest := Reverse(data[..size]), SwapEach(data[size..], size);
    if start == 0 {
      assert first[i] == data[..size][size - 1 - i];
    } else {
      SwapEachAt(data[size..], size, start - size, i);
      BehindFirst(first, rest, start + i);
      assert data[size..][start - 1 - i] == data[start + size - 1 - i];
    }
  }

  lemma BehindFirst(first: bytes, rest: bytes, k: nat)
    requires |first| <= k < |first| + |rest|
    ensures (first + rest)[k] == rest[k - |first|]
  {
  }

  /** How many elements of an array fit. */
  function Fitting(room: nat, size: nat, count: nat): (k: nat)
    requires size > 0
    ensures k <= count && k * size <= room
    ensures k < count ==> room < (k + 1) * size
  {
    var k := room / size;
    FittingProduct(k, count, size);
    if k > count then count else k
  }

  lemma FittingProduct(k: nat, count: nat, size: nat)
    ensures k >= count ==> count * size <= k * size
  {
  }

  /** A byte string with the part from `offset` on overwritten by `s`. */
  function Patched(data: bytes, offset: nat, s: bytes): (r: bytes)
    requires offset + |s| <= |data|
    ensures |r| == |data|
    ensures forall i :: 0 <= i < |r| ==> r[i] == if offset <= i < offset + |s| then s[i - offset] else data[i]
  {
    data[..offset] + s + data[offset + |s|..]
  }

  /** `memcpy`. */
  method CopyInto(data: array<byte>, offset: nat, source: bytes)
    requires offset + |source| <= data.Length
    modifies data
    ensures data[..] == Patched(old(data[..]), offset, source)
  {
    forall k | offset <= k < offset + |source| {
      data[k] := source[k - offset];
    }
  }

  /** Where a byte of the group at `offset` comes from when the group is reversed. */
  function Mirror(offset: nat, size: nat, k: int): int {
    2 * offset + size - 1 - k
  }

  /** Whether a byte is in one of the outer `done` pairs of the group. */
  predicate Swapped(offset: nat, size: nat, done: nat, k: int) {
    offset <= k < offset + done || offset + size - done <= k < offset + size
  }

  /** `endianSwap`: reverse `size` bytes in place, pair by pair from the outside in. */
  method EndianSwap(data: array<byte>, offset: nat, size: nat)
    requires offset + size <= data.Length
    modifies data
    ensures data[..] == Patched(old(data[..]), offset, Reverse(old(data[offset..offset + size])))
  {
    ghost var was := data[..];
    for i := 0 to size / 2
      invariant forall k :: 0 <= k < data.Length ==>
        data[k] == was[if Swapped(offset, size, i, k) then Mirror(offset, size, k) else k]
    {
      var a, b := offset + i, offset + size - i - 1;
      data[a], data[b] := data[b], data[a];
    }
    MirroredIsReversed(was, data[..], offset, size);
  }

  lemma MirroredIsReversed(was: bytes, now: bytes, offset: nat, size: nat)
    requires |was| == |now| && offset + size <= |was|
    requires forall k :: 0 <= k < |was| && !(offset <= k < offset + size) ==> now[k] == was[k]
    requires forall k :: offset <= k < offset + size ==> now[k] == was[Mirror(offset, size, k)]
    ensures now == Patched(was, offset, Reverse(was[offset..offset + size]))
  {
    var reversed := Reverse(was[offset..offset + size]);
    forall k | 0 <= k < |was|
      ensures now[k] == Patched(was, offset, reversed)[k]
    {
      if offset <= k < offset + size {
        assert reversed[k - offset] == was[Mirror(offset, size, k)];
      }
    }
  }

  lemma PatchTwice(data: bytes, offset: nat, s: bytes, t: bytes)
    requires |s| == |t| && offset + |s| <= |data|
    ensures Patched(Patched(data, offset, s), offset, t) == Patched(data, offset, t)
    ensures Patched(data, offset, s)[offset..offset + |s|] == s
  {
  }

  /** `memcpy` and `networkEndianSwap` of one element. */
  method CopySwapped(data: array<byte>, offset: nat, element: bytes)
    requires offset + |element| <= data.Length
    modifies data
    ensures data[..] == Patched(old(data[..]), offset, Reverse(element))
  {
    PatchTwice(data[..], offset, element, Reverse(element));
    CopyInto(data, offset, element);
    EndianSwap(data, offset, |element|);
  }

  // ---------------------------------------------------------------- the packet in its buffer

  /** The header and the longest payload that its size field can count. */
  const LONGEST: nat := HEADER_SIZE + 0xFFFF

  /** The part of a buffer that a writer uses: `maxPayloadSize` truncates its payload to sixteen bits. */
  function Usable(size: nat): (n: nat)
    ensures n <= size && n <= LONGEST && (size <= LONGEST ==> n == size)
  {
    if size < HEADER_SIZE then size else HEADER_SIZE + (size - HEADER_SIZE) % 0x1_0000
  }

  /** The payload of the packet at the start of a buffer. */
  function PayloadOf(data: bytes): bytes
    requires |data| >= HEADER_SIZE && |data| >= CoveredSize(data)
  {
    data[HEADER_SIZE..CoveredSize(data)]
  }

  /** A buffer after bytes were appended to its payload and the payload size was updated. */
  function Appended(data: bytes, s: bytes): (r: bytes)
    requires |data| >= HEADER_SIZE && CoveredSize(data) + |s| <= |data| && PayloadSize(data) + |s| <= 0xFFFF
    ensures |r| == |data|
  {
    Patched(Patched(data, CoveredSize(data), s), 12, U16(PayloadSize(data) + |s|))
  }

  /** Only the payload size, the payload and what lies after it inside the room differ. */
  predicate SameHeader(was: bytes, now: bytes, bufferSize: nat)
    requires HEADER_SIZE <= bufferSize <= |was| == |now|
  {
    forall i :: 0 <= i < |was| && (i < 12 || i == 14 || i >= bufferSize) ==> now[i] == was[i]
  }

  lemma AppendedIsAppended(data: bytes, s: bytes, bufferSize: nat)
    requires HEADER_SIZE <= bufferSize <= |data| && bufferSize <= LONGEST
    requires CoveredSize(data) + |s| <= bufferSize
    ensures
      var r := Appended(data, s);
      && SameHeader(data, r, bufferSize) && r[15] == data[15]
      && HasMarker(r) == HasMarker(data) && NoCrc(r) == NoCrc(data)
      && PayloadSize(r) == PayloadSize(data) + |s|
      && PayloadOf(r) == PayloadOf(data) + s
  {
  }

  /** A buffer whose packet is complete: it fits the room, has a matching CRC, and lacks a CRC only
      when there is no room for one. */
  ghost predicate Sealed(data: bytes, bufferSize: nat)
    requires HEADER_SIZE <= bufferSize <= |data|
  {
    && HasMarker(data)
    && PacketSize(data) <= bufferSize
    && WellFormed(data[..PacketSize(data)])
    && CheckCrc(data[..PacketSize(data)])
    && (NoCrc(data) <==> bufferSize - HEADER_SIZE - PayloadSize(data) < CRC_SIZE)
  }

  lemma PrefixFields(data: bytes, n: nat)
    requires HEADER_SIZE <= n <= |data|
    ensures PayloadSize(data[..n]) == PayloadSize(data) && NoCrc(data[..n]) == NoCrc(data)
    ensures HasMarker(data[..n]) == HasMarker(data) && PacketSize(data[..n]) == PacketSize(data)
  {
  }

  /** A finalised packet ends inside the room, and is sealed if its size can be told in sixteen bits. */
  ghost predicate Finalised(data: bytes, bufferSize: nat)
    requires HEADER_SIZE <= bufferSize <= |data|
  {
    && CoveredSize(data) + CrcBytes(data) <= bufferSize
    && (NoCrc(data) <==> bufferSize - CoveredSize(data) < CRC_SIZE)
    && (CoveredSize(data) + CrcBytes(data) <= MAX_SIZE ==> Sealed(data, bufferSize))
  }

  /** A buffer that starts with an accepted packet is sealed, given the rule for the CRC flag. */
  lemma SealedBy(data: bytes, bufferSize: nat, p: bytes)
    requires HEADER_SIZE <= |p| <= bufferSize <= |data| && data[..|p|] == p
    requires WellFormed(p) && CheckCrc(p)
    requires NoCrc(data) <==> bufferSize - HEADER_SIZE - PayloadSize(data) < CRC_SIZE
    ensures Sealed(data, bufferSize)
  {
    PrefixFields(data, |p|);
    SizesAgree(p);
  }

  /** What a sealed buffer holds, seen as the packet that is sent. */
  lemma SealedPacket(data: bytes, bufferSize: nat)
    requires HEADER_SIZE <= bufferSize <= |data| && Sealed(data, bufferSize)
    ensures
      var p := data[..PacketSize(data)];
      && |data| >= CoveredSize(data)
      && IdsOf(p) == IdsOf(data)
      && PayloadSize(p) == PayloadSize(data) && PayloadOf(p) == PayloadOf(data) && NoCrc(p) == NoCrc(data)
  {
    var n := PacketSize(data);
    var p := data[..n];
    PrefixFields(data, n);
    assert |p| == n >= CoveredSize(data) && forall i :: 0 <= i < n ==> p[i] == data[i];
    assert p[HEADER_SIZE..CoveredSize(data)] == data[HEADER_SIZE..CoveredSize(data)];
  }

  /** A checksum behind the payload completes the packet. */
  lemma SealedWithCrc(data: bytes, bufferSize: nat, covered: bytes)
    requires HEADER_SIZE <= |covered| && |covered| + CRC_SIZE <= bufferSize <= |data|
      && |covered| + CRC_SIZE <= MAX_SIZE
    requires HasMarker(covered) && !NoCrc(covered) && |covered| == CoveredSize(covered)
    requires data[..|covered| + CRC_SIZE] == WithCrc(covered)
    ensures Sealed(data, bufferSize)
  {
    WithCrcIsAccepted(covered);
    SameHeadOfCrc(covered);
    SealedByChecked(data, bufferSize, WithCrc(covered));
  }

  lemma SealedByChecked(data: bytes, bufferSize: nat, p: bytes)
    requires HEADER_SIZE <= |p| <= bufferSize <= |data| && data[..|p|] == p
    requires WellFormed(p) && CheckCrc(p) && !NoCrc(p)
    ensures Sealed(data, bufferSize)
  {
    PrefixFields(data, |p|);
    SealedBy(data, bufferSize, p);
  }

  lemma SameHeadOfCrc(covered: bytes)
    requires |covered| >= HEADER_SIZE
    ensures PayloadSize(WithCrc(covered)) == PayloadSize(covered) && NoCrc(WithCrc(covered)) == NoCrc(covered)
  {
    HeaderOfPrefix(covered, CrcToBytes(Crc16(covered)));
  }

  lemma SealedWithoutCrc(data: bytes, bufferSize: nat)
    requires HEADER_SIZE <= bufferSize <= |data| && HasMarker(data) && NoCrc(data)
    requires CoveredSize(data) <= bufferSize < CoveredSize(data) + CRC_SIZE
    ensures Finalised(data, bufferSize)
  {
    if CoveredSize(data) <= MAX_SIZE {
      var p := data[..CoveredSize(data)];
      PrefixFields(data, |p|);
      SealedBy(data, bufferSize, p);
    }
  }

  datatype Ids = Ids(version: uint32, routing: uint16, message: uint16)

  function IdsOf(p: bytes): Ids
    requires |p| >= HEADER_SIZE
  {
    Ids(Version(p), RoutingId(p), MessageId(p))
  }

  class PacketWriter {
    const buffer: array<byte>
    const size: nat
    /** The part of `size` that the sixteen bit computations see. */
    const bufferSize: nat
    var fail: bool
    var crcValid: bool
    var payloadPosition: uint16
    /** Version, routing and message identifiers. */
    ghost var ids: Ids
    ghost var payload: bytes

    /** The writer has room for a header, writes at the end of the payload, and drops the CRC only
        when it has no room for one. */
    ghost predicate Valid()
      reads this, buffer
    {
      && HEADER_SIZE <= bufferSize <= size <= buffer.Length && bufferSize <= LONGEST
      && !fail
      && HasMarker(buffer[..])
      && payloadPosition == PayloadSize(buffer[..]) <= bufferSize - HEADER_SIZE
      && (NoCrc(buffer[..]) ==> Room() < CRC_SIZE)
      && (crcValid ==> Finalised(buffer[..], bufferSize))
      && ids == IdsOf(buffer[..])
      && payload == PayloadOf(buffer[..])
    }

    /** Free payload bytes; the CRC is not set aside. */
    ghost function Room(): int
      reads this
    {
      bufferSize - HEADER_SIZE - payloadPosition
    }

    /** `bytesRemaining`. */
    function Remaining(): (n: nat)
      requires Valid()
      reads this, buffer
      ensures n == Room()
    {
      bufferSize - HEADER_SIZE - payloadPosition
    }

    /** The bytes that are sent for a finalised packet. */
    ghost function Packet(): bytes
      requires Valid() && crcValid
      reads this, buffer
    {
      buffer[..PacketSize(buffer[..])]
    }

    /** A writer over the first `size` bytes of a buffer; it fails without room for a header. */
    constructor (buffer: array<byte>, size: nat, routingId: uint16, messageId: uint16)
      requires size <= buffer.Length
      modifies buffer
      ensures this.buffer == buffer && this.size == size && bufferSize == Usable(size)
      ensures size < HEADER_SIZE ==> fail && buffer[..] == old(buffer[..])
      ensures size >= HEADER_SIZE ==> Valid() && payload == [] && !crcValid
      ensures size >= HEADER_SIZE ==> ids == Ids(VERSION, routingId, messageId)
      ensures buffer[Usable(size)..] == old(buffer[Usable(size)..])
    {
      this.buffer := buffer;
      this.size, bufferSize := size, Usable(size);
      fail, crcValid, payloadPosition := size < HEADER_SIZE, false, 0;
      ids, payload := Ids(VERSION, routingId, messageId), [];
      new;
      if size >= HEADER_SIZE {
        var flags := if size >= HEADER_SIZE + CRC_SIZE then 0 else 1;
        var header :=
          Marker() + U16(VERSION_MAJOR) + U16(VERSION_MINOR) + U16(routingId) + U16(messageId) + U16(0) + [0, flags];
        HeaderFields(header, routingId, messageId);
        CopyInto(buffer, 0, header);
        PrefixFields(buffer[..], HEADER_SIZE);
        assert buffer[..][..HEADER_SIZE] == header;
      }
    }

    /** `reset`: start a new packet in the same buffer. */
    method Reset(routingId: uint16, messageId: uint16)
      requires Valid()
      modifies this, buffer
      ensures Valid() && payload == [] && !crcValid
      ensures ids == Ids(old(ids).version, routingId, messageId)
      ensures buffer[bufferSize..] == old(buffer[bufferSize..])
    {
      var flags := if size >= HEADER_SIZE + CRC_SIZE then 0 else 1;
      var header := U16(routingId) + U16(messageId) + U16(0) + [0, flags];
      ResetFields(buffer[..], header, routingId, messageId, flags);
      CopyInto(buffer, 8, header);
      payloadPosition, crcValid, ids, payload := 0, false, Ids(ids.version, routingId, messageId), [];
    }

    /** `incrementPayloadSize`, with the write position: count the bytes `s` that were just put
        behind the payload. */
    method Count(ghost was: bytes, n: nat, ghost s: bytes)
      requires HEADER_SIZE <= bufferSize <= buffer.Length == |was| && bufferSize <= LONGEST
      requires PayloadSize(was) == payloadPosition && |s| == n && CoveredSize(was) + n <= bufferSize
      requires buffer[..] == Patched(was, CoveredSize(was), s)
      modifies this, buffer
      ensures buffer[..] == Appended(was, s) && !crcValid
      ensures payloadPosition == old(payloadPosition) + n && fail == old(fail) && ids == old(ids)
      ensures payload == old(payload) + s
    {
      CopyInto(buffer, 12, U16(payloadPosition + n));
      payloadPosition := payloadPosition + n;
      payload := payload + s;
      crcValid := false;
    }

    /** `writeElement`: all of the element in network order, or nothing. */
    method WriteElement(element: bytes) returns (written: nat)
      requires Valid()
      modifies this, buffer
      ensures Valid()
      ensures written == if |element| <= old(Room()) then |element| else 0
      ensures payload == old(payload) + if |element| <= old(Room()) then Reverse(element) else []
      ensures ids == old(ids) && SameHeader(old(buffer[..]), buffer[..], bufferSize)
    {
      written := 0;
      if Remaining() >= |element| {
        WriteSwapped(element);
        written := |element|;
      }
    }

    /** The copy, swap and count of `writeElement`, for an element that fits. */
    method WriteSwapped(element: bytes)
      requires Valid() && |element| <= Room()
      modifies this, buffer
      ensures Valid() && payload == old(payload) + Reverse(element)
      ensures ids == old(ids) && SameHeader(old(buffer[..]), buffer[..], bufferSize)
    {
      ghost var was := buffer[..];
      CopySwapped(buffer, HEADER_SIZE + payloadPosition, element);
      Count(was, |element|, Reverse(element));
      AppendedIsAppended(was, Reverse(element), bufferSize);
    }

    /** `writeArray`: as many whole elements as fit, each in network order. */
    method WriteArray(data: bytes, size: nat, count: nat) returns (written: nat)
      requires Valid() && size > 0 && |data| == count * size
      modifies this, buffer
      ensures Valid()
      ensures written == Fitting(old(Room()), size, count)
      ensures written * size <= |data| && payload == old(payload) + SwapEach(data[..written * size], size)
      ensures ids == old(ids) && SameHeader(old(buffer[..]), buffer[..], bufferSize)
    {
      written := Fitting(Remaining(), size, count);
      FittingProduct(count, written, size);
      WholeProduct(written, size);
      WriteWhole(data[..written * size], size);
    }

    /** The copy, swap and count of `writeArray`, for elements that fit. */
    method WriteWhole(source: bytes, size: nat)
      requires Valid() && size > 0 && Whole(|source|, size) && |source| <= Room()
      modifies this, buffer
      ensures Valid() && payload == old(payload) + SwapEach(source, size)
      ensures ids == old(ids) && SameHeader(old(buffer[..]), buffer[..], bufferSize)
    {
      ghost var was := buffer[..];
      CopyArray(buffer, HEADER_SIZE + payloadPosition, source, size);
      Count(was, |source|, SwapEach(source, size));
      AppendedIsAppended(was, SwapEach(source, size), bufferSize);
    }

    /** `writeRaw`: as many bytes as fit, as they are. */
    method WriteRaw(data: bytes) returns (written: nat)
      requires Valid()
      modifies this, buffer
      ensures Valid()
      ensures written == if |data| <= old(Room()) then |data| else old(Room())
      ensures payload == old(payload) + data[..written]
      ensures ids == old(ids) && SameHeader(old(buffer[..]), buffer[..], bufferSize)
    {
      written := Remaining();
      if |data| <= written {
        written := |data|;
      }
      WritePart(data[..written]);
    }

    /** The copy and count of `writeRaw`, for bytes that fit. */
    method WritePart(part: bytes)
      requires Valid() && |part| <= Room()
      modifies this, buffer
      ensures Valid() && payload == old(payload) + part
      ensures ids == old(ids) && SameHeader(old(buffer[..]), buffer[..], bufferSize)
    {
      ghost var was := buffer[..];
      CopyInto(buffer, HEADER_SIZE + payloadPosition, part);
      Count(was, |part|, part);
      AppendedIsAppended(was, part, bufferSize);
    }

    /** `finalise`: complete the packet with its CRC, or flag that there is none. */
    method Finalise(calculator: CrcCalc) returns (ok: bool)
      requires Valid()
      requires calculator.Valid() && calculator.polynomial == Generator() && calculator.initialRemainder == Preset()
      requires calculator.table as object != buffer
      modifies this`crcValid, buffer
      ensures ok && Valid() && crcValid && payload == old(payload)
      ensures ids == old(ids)
      ensures buffer[bufferSize..] == old(buffer[bufferSize..])
    {
      ok := true;
      if !crcValid {
        ghost var was := buffer[..];
        if Remaining() < CRC_SIZE {
          buffer[15] := if buffer[15] % 2 == 1 then buffer[15] else buffer[15] + 1;
        }
        SamePacketFields(was, buffer[..], bufferSize);
        if buffer[15] % 2 == 1 {
          SealedWithoutCrc(buffer[..], bufferSize);
        } else {
          WriteCrc(calculator);
        }
        SamePacketFields(was, buffer[..], bufferSize);
        crcValid := true;
      }
    }

    /** The last part of `calculateCrc`. */
    method WriteCrc(calculator: CrcCalc)
      requires HEADER_SIZE <= bufferSize <= buffer.Length
      requires HasMarker(buffer[..]) && !NoCrc(buffer[..])
      requires payloadPosition == PayloadSize(buffer[..]) && CRC_SIZE <= Room()
      requires calculator.Valid() && calculator.polynomial == Generator() && calculator.initialRemainder == Preset()
      requires calculator.table as object != buffer
      modifies buffer
      ensures SamePacket(old(buffer[..]), buffer[..], bufferSize) && Finalised(buffer[..], bufferSize)
    {
      var n := HEADER_SIZE + payloadPosition;
      ghost var was := buffer[..];
      var crc := calculator.Crc(buffer[..], n);
      assert n == CoveredSize(was) && crc == Crc16(was[..n]);
      CopyInto(buffer, n, CrcToBytes(crc));
      ChecksumPatched(was, buffer[..], bufferSize);
    }
  }

  /** Everything but the flags and what follows the payload inside the room is the same. */
  predicate SamePacket(was: bytes, now: bytes, bufferSize: nat)
    requires HEADER_SIZE <= bufferSize <= |was| == |now|
  {
    forall i :: 0 <= i < |was| && i != 15 && !(CoveredSize(was) <= i < bufferSize) ==> now[i] == was[i]
  }

  lemma SamePacketFields(was: bytes, now: bytes, bufferSize: nat)
    requires HEADER_SIZE <= bufferSize <= |was| == |now| && SamePacket(was, now, bufferSize)
    requires CoveredSize(was) <= bufferSize
    ensures HasMarker(now) == HasMarker(was) && PayloadSize(now) == PayloadSize(was)
    ensures IdsOf(now) == IdsOf(was)
    ensures PayloadOf(now) == PayloadOf(was) && now[bufferSize..] == was[bufferSize..]
  {
  }

  lemma PatchedParts(was: bytes, offset: nat, s: bytes)
    requires offset + |s| <= |was|
    ensures Patched(was, offset, s)[..offset] == was[..offset]
    ensures Patched(was, offset, s)[..offset + |s|] == was[..offset] + s
  {
  }

  lemma ChecksumPatched(was: bytes, now: bytes, bufferSize: nat)
    requires HEADER_SIZE <= bufferSize <= |was| && HasMarker(was) && !NoCrc(was)
    requires CoveredSize(was) + CRC_SIZE <= bufferSize
    requires now == Patched(was, CoveredSize(was), CrcToBytes(Crc16(was[..CoveredSize(was)])))
    ensures SamePacket(was, now, bufferSize) && Finalised(now, bufferSize)
  {
    var covered := was[..CoveredSize(was)];
    var crc := CrcToBytes(Crc16(covered));
    PrefixFields(was, |covered|);
    PatchedParts(was, |covered|, crc);
    PatchedOutside(was, now, crc, bufferSize);
    if |covered| + CRC_SIZE <= MAX_SIZE {
      SealedWithCrc(now, bufferSize, covered);
    }
  }

  /** What is written behind the payload leaves header and payload as they are. */
  lemma PatchedOutside(was: bytes, now: bytes, s: bytes, bufferSize: nat)
    requires HEADER_SIZE <= bufferSize <= |was| && CoveredSize(was) + |s| <= bufferSize
    requires now == Patched(was, CoveredSize(was), s)
    ensures SamePacket(was, now, bufferSize)
    ensures CoveredSize(now) == CoveredSize(was) && NoCrc(now) == NoCrc(was)
  {
  }

  /** A byte count made of whole elements. */
  predicate Whole(n: int, size: nat)
    requires size > 0
    decreases n
  {
    n == 0 || (n >= size && Whole(n - size, size))
  }

  lemma {:induction false} WholeProduct(k: nat, size: nat)
    requires size > 0
    ensures Whole(k * size, size)
    decreases k
  {
    if k != 0 {
      WholeProduct(k - 1, size);
      assert k * size - size == (k - 1) * size;
    }
  }

  /** The loop of `writeArray` that brings the elements into network order. */
  method SwapElements(data: array<byte>, start: nat, size: nat, total: nat)
    requires size > 0 && Whole(total, size) && start + total <= data.Length
    modifies data
    ensures data[..] == Patched(old(data[..]), start, SwapEach(old(data[start..start + total]), size))
  {
    ghost var source := data[start..start + total];
    ghost var head, rest, post := data[..start], source, data[start + total..];
    ghost var result := head + SwapEach(source, size);
    var done := 0;
    while done < total
      invariant |head| == start + done && done + |rest| == total && Whole(|rest|, size)
      invariant data[..] == head + rest + post
      invariant result == head + SwapEach(rest, size)
    {
      ghost var next, further := rest[..size], rest[size..];
      assert Whole(|further|, size);
      SwapOne(data, start + done, size, head, rest, post);
      EachStep(head, rest, size);
      head, rest := head + Reverse(next), further;
      done := done + size;
    }
    assert head == result;
  }

  /** `memcpy` and the loop of an array. */
  method CopyArray(data: array<byte>, start: nat, source: bytes, size: nat)
    requires size > 0 && Whole(|source|, size) && start + |source| <= data.Length
    modifies data
    ensures data[..] == Patched(old(data[..]), start, SwapEach(source, size))
  {
    PatchTwice(data[..], start, source, SwapEach(source, size));
    CopyInto(data, start, source);
    assert data[start..start + |source|] == data[..][start..start + |source|];
    SwapElements(data, start, size, |source|);
  }

  lemma EachStep(head: bytes, rest: bytes, size: nat)
    requires 0 < size <= |rest|
    ensures head + SwapEach(rest, size) == head + Reverse(rest[..size]) + SwapEach(rest[size..], size)
  {
  }

  /** The next element, between what is done and what is not. */
  method SwapOne(data: array<byte>, at: nat, size: nat, ghost head: bytes, ghost rest: bytes, ghost post: bytes)
    requires 0 < size <= |rest| && at == |head| && data[..] == head + rest + post
    modifies data
    ensures data[..] == head + Reverse(rest[..size]) + rest[size..] + post
  {
    ghost var next, further := rest[..size], rest[size..];
    assert rest == next + further;
    Reassociate(head, next, further, post);
    PatchMiddle(head, next, further + post);
    Reassociate(head, Reverse(next), further, post);
    assert data[at..at + size] == data[..][at..at + size];
    EndianSwap(data, at, size);
  }

  lemma Reassociate(a: bytes, b: bytes, c: bytes, d: bytes)
    ensures a + (b + c) + d == a + b + (c + d)
    ensures a + b + (c + d) == (a + b) + c + d
  {
  }

  lemma PatchMiddle(a: bytes, b: bytes, c: bytes)
    ensures (a + b + c)[|a|..|a| + |b|] == b
    ensures Patched(a + b + c, |a|, Reverse(b)) == a + Reverse(b) + c
  {
  }

  /** The second half of a header, written over that of another packet. */
  lemma ResetFields(was: bytes, header: bytes, routingId: uint16, messageId: uint16, flags: byte)
    requires |was| >= HEADER_SIZE && header == U16(routingId) + U16(messageId) + U16(0) + [0, flags]
    ensures
      var now := Patched(was, 8, header);
      && HasMarker(now) == HasMarker(was) && IdsOf(now) == Ids(Version(was), routingId, messageId)
      && PayloadSize(now) == 0 && PayloadOf(now) == [] && now[15] == flags
      && forall i :: HEADER_SIZE <= i < |was| ==> now[i] == was[i]
  {
    var now := Patched(was, 8, header);
    assert forall i :: 8 <= i < HEADER_SIZE ==> now[i] == header[i - 8];
    assert now[..4] == was[..4] && now[4..8] == was[4..8];
    assert U32At(now, 4) == U32At(was, 4);
  }

  lemma HeaderFields(header: bytes, routingId: uint16, messageId: uint16)
    requires |header| == HEADER_SIZE
    requires header[..12] == Marker() + U16(VERSION_MAJOR) + U16(VERSION_MINOR) + U16(routingId) + U16(messageId)
    ensures HasMarker(header) && IdsOf(header) == Ids(VERSION, routingId, messageId)
  {
  }
}
