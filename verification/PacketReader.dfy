/** Reading typed data out of a packet: `3escore/PacketReader.cpp` on a little-endian host, and the
    round trip with the writer. */
module PacketReading {
  import opened Bytes
  import opened Packets
  import opened PacketCheck
  import opened PacketWriting
  import opened Crc

  /** A reader borrows its packet; the caller sees to it that the packet is complete. */
  class PacketReader {
    const packet: bytes
    var crcValid: bool
    var payloadPosition: uint16

    ghost predicate Valid()
      reads this
    {
      && |packet| >= HEADER_SIZE && |packet| >= CoveredSize(packet) + CrcBytes(packet)
      && payloadPosition <= PayloadSize(packet)
      && (crcValid ==> CheckCrc(packet))
    }

    /** What has not been read yet. */
    ghost function Rest(): bytes
      requires Valid()
      reads this
    {
      packet[HEADER_SIZE + payloadPosition..CoveredSize(packet)]
    }

    constructor (packet: bytes)
      requires |packet| >= HEADER_SIZE && |packet| >= CoveredSize(packet) + CrcBytes(packet)
      ensures Valid() && this.packet == packet && Rest() == PayloadOf(packet) && !crcValid
    {
      this.packet := packet;
      crcValid, payloadPosition := false, 0;
    }

    /** `checkCrc`, which validates at most once. */
    method IsCrcOk(calculator: CrcCalc) returns (ok: bool)
      requires Valid()
      requires calculator.Valid() && calculator.polynomial == Generator() && calculator.initialRemainder == Preset()
      modifies this`crcValid
      ensures Valid() && ok == crcValid == CheckCrc(packet)
    {
      if crcValid {
        return true;
      }
      if packet[15] % 2 == 1 {
        crcValid := true;
        return true;
      }
      var n := CoveredSize(packet);
      var crc := calculator.Crc(packet, n);
      ok := BitsOf(packet[n..n + CRC_SIZE]) == crc;
      crcValid := ok;
    }

    function BytesAvailable(): (n: nat)
      requires Valid()
      reads this
      ensures n == |Rest()|
    {
      PayloadSize(packet) - payloadPosition
    }

    /** `memcpy` from the read position, which moves on. */
    method CopyOut(n: nat) returns (data: array<byte>)
      requires Valid() && n <= |Rest()|
      modifies this`payloadPosition
      ensures fresh(data) && data[..] == old(Rest())[..n]
      ensures Valid() && Rest() == old(Rest())[n..]
    {
      var start := HEADER_SIZE + payloadPosition;
      data := new byte[n](i requires 0 <= i < n => packet[start + i]);
      assert data[..] == packet[start..start + n];
      payloadPosition := payloadPosition + n;
    }

    /** `readElement`: the whole element in host order, or nothing. */
    method ReadElement(size: nat) returns (element: bytes)
      requires Valid()
      modifies this`payloadPosition
      ensures Valid()
      ensures size <= |old(Rest())| ==> element == Reverse(old(Rest())[..size]) && Rest() == old(Rest())[size..]
      ensures size > |old(Rest())| ==> element == [] && Rest() == old(Rest())
    {
      element := [];
      if BytesAvailable() >= size {
        var data := CopyOut(size);
        EndianSwap(data, 0, size);
        element := data[..];
      }
    }

    /** `readArray`: as many whole elements as there are, up to `count`. */
    method ReadArray(size: nat, count: nat) returns (data: bytes)
      requires Valid() && size > 0
      modifies this`payloadPosition
      ensures Valid()
      ensures
        var n := Fitting(|old(Rest())|, size, count) * size;
        n <= |old(Rest())| && data == SwapEach(old(Rest())[..n], size) && Rest() == old(Rest())[n..]
    {
      var k := Fitting(BytesAvailable(), size, count);
      WholeProduct(k, size);
      data := ReadWhole(size, k * size);
    }

    method ReadWhole(size: nat, n: nat) returns (data: bytes)
      requires Valid() && size > 0 && n <= |Rest()| && Whole(n, size)
      modifies this`payloadPosition
      ensures Valid()
      ensures data == SwapEach(old(Rest())[..n], size) && Rest() == old(Rest())[n..]
    {
      var copy := CopyOut(n);
      assert copy[0..n] == copy[..];
      SwapElements(copy, 0, size, n);
      data := copy[..];
    }

    /** `readRaw`: as many bytes as there are, up to `count`. */
    method ReadRaw(count: nat) returns (data: bytes)
      requires Valid()
      modifies this`payloadPosition
      ensures Valid()
      ensures
        var n := if count <= |old(Rest())| then count else |old(Rest())|;
        data == old(Rest())[..n] && Rest() == old(Rest())[n..]
    {
      var copy := CopyOut(if count <= BytesAvailable() then count else BytesAvailable());
      data := copy[..];
    }

    /** `peek`: like `readRaw` into a caller's buffer, without moving on. The byte swap covers the
        whole buffer even when fewer bytes were copied. */
    method Peek(dst: bytes, swap: bool) returns (copied: nat, data: bytes)
      requires Valid()
      ensures copied == if |dst| <= |Rest()| then |dst| else |Rest()|
      ensures var filled := Rest()[..copied] + dst[copied..]; data == if swap then Reverse(filled) else filled
    {
      copied := if |dst| <= BytesAvailable() then |dst| else BytesAvailable();
      var start := HEADER_SIZE + payloadPosition;
      assert packet[start..start + copied] == Rest()[..copied];
      data := packet[start..start + copied] + dst[copied..];
      if swap {
        data := Reverse(data);
      }
    }
  }

  // ---------------------------------------------------------------- the round trip

  /** How many of `n` bytes fit when only whole elements are taken. */
  function WholeFit(n: nat, size: nat, room: nat): (k: nat)
    requires size > 0
    ensures k <= n && k <= room && Whole(k, size)
    decreases n
  {
    if size <= n && size <= room then size + WholeFit(n - size, size, room - size) else 0
  }

  lemma {:induction false} WholeFitIsFitting(size: nat, count: nat, room: nat)
    requires size > 0
    ensures WholeFit(count * size, size, room) == Fitting(room, size, count) * size
    decreases count
  {
    if count == 0 {
      assert Fitting(room, size, 0) == 0;
    } else {
      Distribute(size, count - 1);
      if size <= room {
        WholeFitIsFitting(size, count - 1, room - size);
        FittingOneMore(room, size, count);
        Distribute(size, Fitting(room - size, size, count - 1));
      } else {
        QuotientIs(room, size, 0);
        assert Fitting(room, size, count) == 0;
      }
    }
  }

  lemma FittingOneMore(room: nat, size: nat, count: nat)
    requires 0 < size <= room && count > 0
    ensures Fitting(room, size, count) == Fitting(room - size, size, count - 1) + 1
  {
    OneLess(room, size);
  }

  lemma OneLess(room: nat, size: nat)
    requires 0 < size <= room
    ensures room / size == (room - size) / size + 1
  {
    var q := (room - size) / size;
    Distribute(size, q);
    QuotientIs(room, size, q + 1);
  }

  lemma Distribute(size: nat, k: int)
    ensures (k + 1) * size == k * size + size
  {
  }

  lemma QuotientIs(n: nat, d: nat, q: nat)
    requires d > 0 && q * d <= n < q * d + d
    ensures n / d == q
  {
    if n / d < q {
      FittingProduct(q, n / d + 1, d);
      Distribute(d, n / d);
    } else if n / d > q {
      FittingProduct(n / d, q + 1, d);
      Distribute(d, q);
    }
  }

  lemma {:induction false} WholeCount(n: nat, size: nat) returns (count: nat)
    requires size > 0 && Whole(n, size)
    ensures n == count * size && count == n / size
    decreases n
  {
    count := 0;
    if n != 0 {
      var k := WholeCount(n - size, size);
      Distribute(size, k);
      OneLess(n, size);
      count := k + 1;
    }
  }

  /** One call of a writer: a single value, an array of values, or uninterpreted bytes. */
  datatype Item =
    | Element(data: bytes)
    | Array(data: bytes, size: nat)
    | Raw(data: bytes)
  {
    predicate Valid() {
      Array? ==> size > 0 && Whole(|data|, size)
    }

    /** The part of the item a writer with so much room takes: all or nothing of an element, whole
        elements of an array, any part of raw bytes. */
    function Accepted(room: nat): (item: Item)
      requires Valid()
      ensures item.Valid() && |item.data| <= room
    {
      match this
      case Element(d) => if |d| <= room then this else Element([])
      case Array(d, s) => Array(d[..WholeFit(|d|, s, room)], s)
      case Raw(d) => if |d| <= room then this else Raw(d[..room])
    }

    /** Its bytes in the payload. */
    function Wire(): (s: bytes)
      requires Valid()
      ensures |s| == |data|
    {
      match this
      case Element(d) => Reverse(d)
      case Array(d, s) => SwapEach(d, s)
      case Raw(d) => d
    }
  }

  predicate AllValid(items: seq<Item>) {
    forall i :: 0 <= i < |items| ==> items[i].Valid()
  }

  /** What a writer with so much room takes of a series of calls. */
  function AcceptAll(items: seq<Item>, room: nat): (taken: seq<Item>)
    requires AllValid(items)
    ensures |taken| == |items| && AllValid(taken)
  {
    if items == [] then []
    else
      var first := items[0].Accepted(room);
      [first] + AcceptAll(items[1..], room - |first.data|)
  }

  function WireAll(items: seq<Item>): bytes
    requires AllValid(items)
  {
    if items == [] then [] else items[0].Wire() + WireAll(items[1..])
  }

  lemma {:induction false} SwapEachTwice(d: bytes, size: nat)
    requires size > 0
    ensures SwapEach(SwapEach(d, size), size) == d
    decreases |d|
  {
    if |d| >= size {
      SwapEachTwice(d[size..], size);
      var s := SwapEach(d, size);
      assert s[..size] == Reverse(d[..size]) && s[size..] == SwapEach(d[size..], size);
      assert Reverse(Reverse(d[..size])) == d[..size];
      assert d == d[..size] + d[size..];
    }
  }

  /** An array that was written whole is read back whole. */
  lemma FittingAll(room: nat, size: nat, count: nat)
    requires size > 0 && count * size <= room
    ensures Fitting(room, size, count) == count
  {
  }

  method WriteItem(writer: PacketWriter, item: Item, room: nat) returns (taken: Item)
    requires writer.Valid() && item.Valid() && room == writer.Room()
    modifies writer, writer.buffer
    ensures writer.Valid() && taken == item.Accepted(room)
    ensures writer.payload == old(writer.payload) + taken.Wire() && writer.Room() == room - |taken.data|
    ensures writer.ids == old(writer.ids)
  {
    taken := item.Accepted(room);
    match item
    case Element(d) => var _ := writer.WriteElement(d);
    case Array(d, s) =>
      ghost var count := WholeCount(|d|, s);
      WholeFitIsFitting(s, count, room);
      var _ := writer.WriteArray(d, s, |d| / s);
    case Raw(d) => var _ := writer.WriteRaw(d);
  }

  /** Read with the shape of what was accepted. */
  method ReadItem(reader: PacketReader, taken: Item) returns (data: bytes)
    requires reader.Valid() && taken.Valid() && taken.Wire() <= reader.Rest()
    modifies reader`payloadPosition
    ensures reader.Valid() && data == taken.data && reader.Rest() == old(reader.Rest())[|taken.data|..]
  {
    assert reader.Rest()[..|taken.data|] == taken.Wire();
    match taken
    case Element(d) => data := ReadElementItem(reader, d);
    case Array(d, s) => data := ReadArrayItem(reader, d, s);
    case Raw(d) => data := reader.ReadRaw(|d|);
  }

  method ReadElementItem(reader: PacketReader, d: bytes) returns (data: bytes)
    requires reader.Valid() && |d| <= |reader.Rest()| && reader.Rest()[..|d|] == Reverse(d)
    modifies reader`payloadPosition
    ensures reader.Valid() && data == d && reader.Rest() == old(reader.Rest())[|d|..]
  {
    assert Reverse(Reverse(d)) == d;
    data := reader.ReadElement(|d|);
  }

  method ReadArrayItem(reader: PacketReader, d: bytes, size: nat) returns (data: bytes)
    requires reader.Valid() && size > 0 && Whole(|d|, size)
    requires |d| <= |reader.Rest()| && reader.Rest()[..|d|] == SwapEach(d, size)
    modifies reader`payloadPosition
    ensures reader.Valid() && data == d && reader.Rest() == old(reader.Rest())[|d|..]
  {
    ghost var count := WholeCount(|d|, size);
    FittingAll(|reader.Rest()|, size, count);
    SwapEachTwice(d, size);
    data := reader.ReadArray(size, |d| / size);
  }

  method WriteAll(writer: PacketWriter, items: seq<Item>, room: nat) returns (accepted: seq<Item>)
    requires writer.Valid() && AllValid(items) && room == writer.Room()
    modifies writer, writer.buffer
    ensures writer.Valid() && accepted == AcceptAll(items, room)
    ensures writer.payload == old(writer.payload) + WireAll(accepted)
    ensures writer.ids == old(writer.ids)
    decreases |items|
  {
    if items == [] {
      return [];
    }
    ghost var before := writer.payload;
    var first := WriteItem(writer, items[0], room);
    var rest := room - |first.data|;
    var others := WriteAll(writer, items[1..], rest);
    AcceptAllCons(items, room, first, rest, others);
    WireAllCons(before, first, others);
    accepted := [first] + others;
  }

  lemma AcceptAllCons(items: seq<Item>, room: nat, first: Item, rest: nat, others: seq<Item>)
    requires AllValid(items) && items != []
    requires first == items[0].Accepted(room) && rest == room - |first.data| && others == AcceptAll(items[1..], rest)
    ensures [first] + others == AcceptAll(items, room)
  {
  }

  lemma WireAllCons(before: bytes, first: Item, others: seq<Item>)
    requires first.Valid() && AllValid(others)
    ensures before + WireAll([first] + others) == before + first.Wire() + WireAll(others)
  {
  }

  method ReadAll(reader: PacketReader, accepted: seq<Item>) returns (read: seq<bytes>)
    requires reader.Valid() && AllValid(accepted) && reader.Rest() == WireAll(accepted)
    modifies reader`payloadPosition
    ensures |read| == |accepted| && forall i :: 0 <= i < |read| ==> read[i] == accepted[i].data
    decreases |accepted|
  {
    read := [];
    if accepted != [] {
      var first := ReadItem(reader, accepted[0]);
      read := ReadAll(reader, accepted[1..]);
      read := [first] + read;
    }
  }

  /** Any series of writes to a buffer that held anything, finalised, passes the CRC check, and matching
      reads return exactly what the writer accepted of each. */
  method WriteThenRead(initial: bytes, room: nat, routingId: uint16, messageId: uint16, items: seq<Item>)
    returns (packet: bytes, crcOk: bool, read: seq<bytes>)
    requires |initial| == HEADER_SIZE + room <= MAX_SIZE && AllValid(items)
    ensures WellFormed(packet) && |packet| <= |initial| && crcOk
    ensures RoutingId(packet) == routingId && MessageId(packet) == messageId
    ensures PayloadOf(packet) == WireAll(AcceptAll(items, room))
    ensures |read| == |items| && forall i :: 0 <= i < |items| ==> read[i] == AcceptAll(items, room)[i].data
    ensures NoCrc(packet) <==> room - |PayloadOf(packet)| < CRC_SIZE
  {
    var calculator := new CrcCalc(Preset(), Generator());
    var buffer := BufferOf(initial);
    var accepted;
    packet, accepted := BuildPacket(buffer, room, routingId, messageId, items, calculator);
    var reader := new PacketReader(packet);
    crcOk := reader.IsCrcOk(calculator);
    read := ReadAll(reader, accepted);
  }

  method BufferOf(initial: bytes) returns (buffer: array<byte>)
    ensures fresh(buffer) && buffer.Length == |initial|
  {
    buffer := new byte[|initial|](i requires 0 <= i < |initial| => initial[i]);
  }

  method BuildPacket(buffer: array<byte>, room: nat, routingId: uint16, messageId: uint16, items: seq<Item>,
      calculator: CrcCalc)
    returns (packet: bytes, accepted: seq<Item>)
    requires buffer.Length == HEADER_SIZE + room <= MAX_SIZE && AllValid(items)
    requires calculator.Valid() && calculator.polynomial == Generator() && calculator.initialRemainder == Preset()
    requires calculator.table as object != buffer
    modifies buffer
    ensures WellFormed(packet) && CheckCrc(packet) && |packet| <= buffer.Length
    ensures RoutingId(packet) == routingId && MessageId(packet) == messageId
    ensures accepted == AcceptAll(items, room) && PayloadOf(packet) == WireAll(accepted)
    ensures NoCrc(packet) <==> room - |PayloadOf(packet)| < CRC_SIZE
  {
    var writer := new PacketWriter(buffer, buffer.Length, routingId, messageId);
    accepted := WriteAll(writer, items, room);
    packet := Finish(writer, calculator);
  }

  method Finish(writer: PacketWriter, calculator: CrcCalc) returns (packet: bytes)
    requires writer.Valid() && writer.bufferSize <= MAX_SIZE
    requires calculator.Valid() && calculator.polynomial == Generator() && calculator.initialRemainder == Preset()
    requires calculator.table as object != writer.buffer
    modifies writer`crcValid, writer.buffer
    ensures writer.Valid() && writer.ids == old(writer.ids)
    ensures WellFormed(packet) && CheckCrc(packet) && |packet| <= writer.bufferSize
    ensures IdsOf(packet) == old(writer.ids)
    ensures PayloadOf(packet) == old(writer.payload)
    ensures NoCrc(packet) <==> old(writer.Room()) < CRC_SIZE
  {
    var _ := writer.Finalise(calculator);
    SealedPacket(writer.buffer[..], writer.bufferSize);
    packet := writer.buffer[..PacketSize(writer.buffer[..])];
  }
}
