/** The sending side of `3escore/BaseConnection.cpp` (`writePacket` and the flushes), the receiving loops
    of `StreamThread.cpp`, and the whole way from packets submitted to packets received. Writing to
    the wire never fails here. */
module Transport {
  import opened Bytes
  import opened Packets
  import opened Collating
  import opened Decoding
  import opened StreamReading

  // ---------------------------------------------------------------- the specification

  /** What a connection has put on the wire and what waits in its collation buffer. */
  datatype Sender = Sender(collate: bool, wire: bytes, pending: bytes)

  function Flush(s: Sender): Sender
    requires |s.pending| + OVERHEAD <= MAX_SIZE
  {
    if s.pending == [] then s else s.(wire := s.wire + Collated(s.pending), pending := [])
  }

  /** `writePacket`: collated packets wait, others push everything that waits out first. */
  function Submit(s: Sender, p: bytes, allowCollation: bool): Sender
    requires |s.pending| + OVERHEAD <= MAX_SIZE
  {
    if !s.collate then s.(wire := s.wire + p)
    else if !allowCollation then var f := Flush(s); f.(wire := f.wire + p)
    else
      var f := if |p| >= MAX_SIZE - OVERHEAD - |s.pending| then Flush(s) else s;
      if |f.pending| + |p| + OVERHEAD <= MAX_SIZE then f.(pending := f.pending + p)
      else var g := Flush(f); g.(wire := g.wire + p)
  }

  /** Unpack every packet of a series. */
  function UnpackAll(frames: seq<bytes>): seq<bytes>
    requires AllDecodable(frames)
  {
    if frames == [] then [] else Unpacked(frames[0]) + UnpackAll(frames[1..])
  }

  predicate AllDecodable(frames: seq<bytes>) {
    forall i :: 0 <= i < |frames| ==> Decodable(frames[i])
  }

  /** A byte stream that a receiver can take apart. */
  predicate Receivable(wire: bytes) {
    Split(wire).Some? && AllDecodable(Split(wire).value)
  }

  /** The packets a receiver finds in a byte stream. */
  function Received(wire: bytes): seq<bytes>
    requires Receivable(wire)
  {
    UnpackAll(Split(wire).value)
  }

  // A receiver passes over packets of versions it does not know, before and after unpacking them.

  predicate AllCompatible(packets: seq<bytes>) {
    forall i :: 0 <= i < |packets| ==> Compatible(packets[i])
  }

  /** The packets of known versions among some. */
  function Accepted(packets: seq<bytes>): seq<bytes> {
    if packets == [] then []
    else (if Compatible(packets[0]) then [packets[0]] else []) + Accepted(packets[1..])
  }

  /** The packets that a receiver processes for one packet of a byte stream. */
  function Processed(frame: bytes): seq<bytes>
    requires Decodable(frame)
  {
    if Compatible(frame) then Accepted(Unpacked(frame)) else []
  }

  function ProcessedAll(frames: seq<bytes>): seq<bytes>
    requires AllDecodable(frames)
  {
    if frames == [] then [] else Processed(frames[0]) + ProcessedAll(frames[1..])
  }

  /** The collated packets among some are of known versions. */
  predicate KnownCollations(frames: seq<bytes>)
    requires AllDecodable(frames)
  {
    forall i :: 0 <= i < |frames| && RoutingId(frames[i]) == MT_COLLATED_PACKET ==> Compatible(frames[i])
  }

  /** A packet that may be submitted. */
  predicate Sendable(p: bytes) {
    WellFormed(p) && RoutingId(p) != MT_COLLATED_PACKET
  }

  /** Nothing lost, nothing added, nothing out of order: what the receiver finds in the bytes so far,
      followed by what waits, is what was submitted. */
  predicate Transparent(s: Sender, submitted: seq<bytes>) {
    && |s.pending| + OVERHEAD <= MAX_SIZE
    && (!s.collate ==> s.pending == [])
    && Receivable(s.wire) && KnownCollations(Split(s.wire).value) && Split(s.pending).Some?
    && Received(s.wire) + Split(s.pending).value == submitted
  }

  lemma {:induction false} UnpackAllAppend(a: seq<bytes>, b: seq<bytes>)
    requires AllDecodable(a) && AllDecodable(b)
    ensures AllDecodable(a + b) && UnpackAll(a + b) == UnpackAll(a) + UnpackAll(b)
  {
    if a == [] {
      assert a + b == b;
    } else {
      assert (a + b)[1..] == a[1..] + b;
      UnpackAllAppend(a[1..], b);
    }
  }

  lemma {:induction false} AcceptedAppend(a: seq<bytes>, b: seq<bytes>)
    ensures Accepted(a + b) == Accepted(a) + Accepted(b)
  {
    if a == [] {
      assert a + b == b;
    } else {
      assert (a + b)[1..] == a[1..] + b;
      AcceptedAppend(a[1..], b);
    }
  }

  lemma {:induction false} AllAccepted(packets: seq<bytes>)
    ensures Accepted(packets) == packets <==> AllCompatible(packets)
    ensures |Accepted(packets)| <= |packets|
  {
    if packets != [] {
      AllAccepted(packets[1..]);
      assert packets == [packets[0]] + packets[1..];
    }
  }

  /** Checking the packets before unpacking them refuses nothing but packets that the check behind
      refuses as well, unless a collated packet is of an unknown version. */
  lemma {:induction false} ProcessedIsAccepted(frames: seq<bytes>)
    requires AllDecodable(frames) && KnownCollations(frames)
    ensures ProcessedAll(frames) == Accepted(UnpackAll(frames))
  {
    if frames != [] {
      ProcessedIsAccepted(frames[1..]);
      AcceptedAppend(Unpacked(frames[0]), UnpackAll(frames[1..]));
      if RoutingId(frames[0]) != MT_COLLATED_PACKET {
        assert Unpacked(frames[0]) == [frames[0]];
      }
    }
  }

  /** One more packet on the wire. */
  lemma ReceiveOneMore(wire: bytes, p: bytes)
    requires Receivable(wire) && WellFormed(p) && Decodable(p)
    requires KnownCollations(Split(wire).value) && (RoutingId(p) == MT_COLLATED_PACKET ==> Compatible(p))
    ensures Receivable(wire + p) && KnownCollations(Split(wire + p).value)
    ensures Received(wire + p) == Received(wire) + Unpacked(p)
  {
    SplitOne(p);
    SplitAppend(wire, p);
    UnpackAllAppend(Split(wire).value, [p]);
    assert UnpackAll([p]) == Unpacked(p);
  }

  lemma FlushIsTransparent(s: Sender, submitted: seq<bytes>)
    requires Transparent(s, submitted)
    ensures Transparent(Flush(s), submitted) && Flush(s).pending == []
  {
    if s.pending != [] {
      CollatedPacketFields(s.pending);
      UnpackCollated(s.pending);
      ReceiveOneMore(s.wire, Collated(s.pending));
    }
  }

  lemma WriteThroughIsTransparent(s: Sender, submitted: seq<bytes>, p: bytes)
    requires Transparent(s, submitted) && s.pending == [] && Sendable(p)
    ensures Transparent(s.(wire := s.wire + p), submitted + [p])
  {
    UnpackPlain(p);
    ReceiveOneMore(s.wire, p);
  }

  lemma CollateIsTransparent(s: Sender, submitted: seq<bytes>, p: bytes)
    requires Transparent(s, submitted) && s.collate && Sendable(p) && |s.pending| + |p| + OVERHEAD <= MAX_SIZE
    ensures Transparent(s.(pending := s.pending + p), submitted + [p])
  {
    SplitOne(p);
    SplitAppend(s.pending, p);
  }

  /** Every submission keeps the connection transparent, whatever its flag, and one that forbids
      collation leaves nothing waiting. */
  lemma SubmitIsTransparent(s: Sender, submitted: seq<bytes>, p: bytes, allowCollation: bool)
    requires Transparent(s, submitted) && Sendable(p)
    ensures Transparent(Submit(s, p, allowCollation), submitted + [p])
    ensures !allowCollation ==> Submit(s, p, allowCollation).pending == []
  {
    FlushIsTransparent(s, submitted);
    if !s.collate {
      WriteThroughIsTransparent(s, submitted, p);
    } else if !allowCollation {
      WriteThroughIsTransparent(Flush(s), submitted, p);
    } else {
      var f := if |p| >= MAX_SIZE - OVERHEAD - |s.pending| then Flush(s) else s;
      if |f.pending| + |p| + OVERHEAD <= MAX_SIZE {
        CollateIsTransparent(f, submitted, p);
      } else {
        WriteThroughIsTransparent(Flush(f), submitted, p);
      }
    }
  }

  /** When and where a packet goes. It waits behind the others, with nothing on the wire, if it may wait and is
      smaller than the bytes available. Otherwise what waits goes out first, in one collated packet, and this
      one behind it; or it waits alone, if it may wait and fits a collated packet. */
  lemma WhereItGoes(s: Sender, p: bytes, allowCollation: bool)
    requires |s.pending| + OVERHEAD <= MAX_SIZE && (!s.collate ==> s.pending == [])
    ensures
      var r := Submit(s, p, allowCollation);
      var mayWait, available := s.collate && allowCollation, MAX_SIZE - OVERHEAD - |s.pending|;
      var waited := if s.pending == [] then [] else Collated(s.pending);
      && r.collate == s.collate
      && (mayWait && |p| < available ==> r.wire == s.wire && r.pending == s.pending + p)
      && (mayWait && available <= |p| <= MAX_SIZE - OVERHEAD ==> r.wire == s.wire + waited && r.pending == p)
      && (!mayWait || |p| > MAX_SIZE - OVERHEAD ==> r.wire == s.wire + waited + p && r.pending == [])
  {
    assert s.wire + [] == s.wire && [] + p == p;
  }

  // ---------------------------------------------------------------- the program

  class BaseConnection {
    const collate: bool
    const collation: CollatedPacket
    var active: bool
    var wire: bytes

    ghost predicate Valid()
      reads this, collation, collation.calculator, collation.calculator.table
    {
      && collation.Valid() && collation.active && !collation.finalised
      && collation.maxPacketSize == MAX_SIZE
    }

    ghost function View(): Sender
      requires Valid()
      reads this, collation, collation.calculator, collation.calculator.table
    {
      Sender(collate, wire, collation.Content())
    }

    constructor (collate: bool)
      ensures Valid() && active && View() == Sender(collate, [], [])
      ensures fresh(collation) && fresh(collation.calculator) && fresh(collation.calculator.table)
    {
      this.collate := collate;
      active, wire := true, [];
      var c := new CollatedPacket(0xFF00, MAX_SIZE);
      collation := c;
    }

    /** `writeBytes` of a connection whose output does not fail. */
    method WriteBytes(data: bytes) returns (written: int)
      modifies this`wire
      ensures wire == old(wire) + data && written == |data|
    {
      wire := wire + data;
      written := |data|;
    }

    /** The collated packet, finalised. */
    method FinaliseCollation() returns (bytes: bytes)
      requires Valid() && collation.Content() != []
      modifies collation
      ensures collation.Valid() && collation.active && bytes == Collated(old(collation.Content()))
    {
      var _ := collation.Finalise();
      bytes := collation.Packet();
    }

    /** Send the collated packet, and start a new one. */
    method SendCollation()
      requires Valid() && collation.Content() != []
      modifies this`wire, collation
      ensures Valid() && collation.Content() == [] && wire == old(wire) + Collated(old(collation.Content()))
    {
      var bytes := FinaliseCollation();
      var _ := WriteBytes(bytes);
      collation.Reset();
    }

    /** `flushCollatedPacketUnguarded`. */
    method FlushCollatedPacket()
      requires Valid()
      modifies this`wire, collation
      ensures Valid() && View() == Flush(old(View()))
    {
      if collation.CollatedBytes() != 0 {
        SendCollation();
      }
    }

    /** `writePacket`. */
    method WritePacket(data: bytes, allowCollation: bool) returns (sent: int)
      requires Valid() && |data| <= MAX_SIZE
      modifies this`wire, collation
      ensures Valid() && View() == Submit(old(View()), data, allowCollation) && sent == |data|
    {
      if collate && !allowCollation {
        FlushCollatedPacket();
      }
      if !collate || !allowCollation {
        sent := WriteBytes(data);
        return;
      }
      if |data| >= collation.AvailableBytes() {
        FlushCollatedPacket();
      }
      var added, _ := collation.Add(data);
      sent := added;
      if sent == -1 {
        FlushCollatedPacket();
        sent := WriteBytes(data);
      }
    }

    /** `send`: nothing happens while the connection is inactive. */
    method Send(data: bytes, allowCollation: bool) returns (sent: int)
      requires Valid() && |data| <= MAX_SIZE
      modifies this`wire, collation
      ensures Valid() && active == old(active)
      ensures active ==> View() == Submit(old(View()), data, allowCollation) && sent == |data|
      ensures !active ==> View() == old(View()) && sent == 0
    {
      if !active {
        return 0;
      }
      sent := WritePacket(data, allowCollation);
    }
  }

  /** `processPacket`: unpack one extracted packet, and process what is of a known version. */
  method Process(decoder: CollatedPacketDecoder, packet: bytes) returns (processed: seq<bytes>)
    requires decoder.Valid() && Decodable(packet)
    modifies decoder
    ensures decoder.Valid() && processed == Accepted(Unpacked(packet))
  {
    var _ := decoder.SetPacket(Some(packet));
    processed := [];
    ghost var all := Accepted(Unpacked(packet));
    while true
      invariant decoder.Valid() && processed + Accepted(decoder.Remaining()) == all
      decreases |decoder.Remaining()|
    {
      ghost var rest := decoder.Remaining();
      var next := decoder.Next();
      if next.None? {
        break;
      }
      AcceptNext(processed, rest);
      if Compatible(next.value) {
        processed := processed + [next.value];
      }
    }
  }

  lemma AcceptNext(processed: seq<bytes>, rest: seq<bytes>)
    requires rest != []
    ensures
      var now := if Compatible(rest[0]) then processed + [rest[0]] else processed;
      processed + Accepted(rest) == now + Accepted(rest[1..])
  {
    assert processed + ([rest[0]] + Accepted(rest[1..])) == (processed + [rest[0]]) + Accepted(rest[1..]);
  }

  /** Check a packet of the byte stream, and process it. */
  method ProcessFrame(decoder: CollatedPacketDecoder, packet: bytes) returns (processed: seq<bytes>)
    requires decoder.Valid() && Decodable(packet)
    modifies decoder
    ensures decoder.Valid() && processed == Processed(packet)
  {
    processed := [];
    if Compatible(packet) {
      processed := Process(decoder, packet);
    }
  }

  lemma FirstProcessed(received: seq<bytes>, frames: seq<bytes>)
    requires frames != [] && AllDecodable(frames)
    ensures received + ProcessedAll(frames) == (received + Processed(frames[0])) + ProcessedAll(frames[1..])
  {
    MoveOverAll(received, Processed(frames[0]), ProcessedAll(frames[1..]));
  }

  lemma MoveOverAll<T>(done: seq<T>, first: seq<T>, rest: seq<T>)
    ensures done + (first + rest) == (done + first) + rest
  {
  }

  /** The receive loop of `StreamThread::run`: extract packets to the end of the stream, pass over
      those of unknown versions, and process each other one. */
  method ReceiveFrom(reader: PacketStreamReader, stream: InputStream, decoder: CollatedPacketDecoder,
      ghost frames: seq<bytes>)
    returns (received: seq<bytes>)
    requires decoder.Valid() && reader.Valid() && reader.stream == stream
    requires reader.Ahead(frames) && AllDecodable(frames)
    modifies reader`buffer, reader`currentPacketPos, stream, decoder
    ensures received == ProcessedAll(frames)
  {
    received := [];
    ghost var ahead := frames;
    while true
      invariant AllDecodable(ahead) && received + ProcessedAll(ahead) == ProcessedAll(frames)
      invariant decoder.Valid() && reader.Valid() && reader.stream == stream && reader.Ahead(ahead)
      decreases |ahead|
    {
      var extracted := reader.ExtractNext(ahead);
      if extracted.status != Success {
        break;
      }
      FirstProcessed(received, ahead);
      var processed := ProcessFrame(decoder, extracted.packet.value);
      received := received + processed;
      ahead := ahead[1..];
    }
  }

  /** A new reader on a byte stream, and a new decoder. */
  method Receive(wire: bytes, chunkSize: nat) returns (received: seq<bytes>)
    requires chunkSize > 0 && Receivable(wire)
    ensures received == ProcessedAll(Split(wire).value)
  {
    ConcatSplit(wire);
    var stream := new InputStream(wire);
    var reader := new PacketStreamReader(stream, chunkSize);
    var decoder := new CollatedPacketDecoder();
    assert wire[0..] == wire;
    received := ReceiveFrom(reader, stream, decoder, Split(wire).value);
  }

  // ---------------------------------------------------------------- end to end

  /** What a user of a connection does. */
  datatype Op = SendPacket(packet: bytes, allowCollation: bool) | FlushPending

  predicate AllSendable(ops: seq<Op>) {
    forall i :: 0 <= i < |ops| && ops[i].SendPacket? ==> Sendable(ops[i].packet)
  }

  /** The packets submitted by a series of operations. */
  function Submitted(ops: seq<Op>): seq<bytes> {
    if ops == [] then []
    else Submitted(ops[..|ops| - 1]) + (if ops[|ops| - 1].SendPacket? then [ops[|ops| - 1].packet] else [])
  }

  lemma SubmittedOneMore(ops: seq<Op>, i: nat)
    requires i < |ops|
    ensures Submitted(ops[..i + 1]) == Submitted(ops[..i]) + if ops[i].SendPacket? then [ops[i].packet] else []
  {
    assert ops[..i + 1][..i] == ops[..i];
  }

  method Perform(connection: BaseConnection, op: Op, ghost submitted: seq<bytes>)
    requires connection.Valid() && Transparent(connection.View(), submitted) && (op.SendPacket? ==> Sendable(op.packet))
    modifies connection`wire, connection.collation
    ensures connection.Valid()
    ensures Transparent(connection.View(), submitted + if op.SendPacket? then [op.packet] else [])
    ensures op.FlushPending? ==> connection.View().pending == []
  {
    match op
    case SendPacket(p, allow) =>
      SubmitIsTransparent(connection.View(), submitted, p, allow);
      var _ := connection.WritePacket(p, allow);
    case FlushPending =>
      assert submitted + [] == submitted;
      FlushIsTransparent(connection.View(), submitted);
      connection.FlushCollatedPacket();
  }

  /** All of a series of operations, and a last flush. */
  method PerformAll(collate: bool, ops: seq<Op>) returns (connection: BaseConnection)
    requires AllSendable(ops)
    ensures fresh(connection) && connection.Valid()
    ensures Transparent(connection.View(), Submitted(ops)) && connection.View().pending == []
  {
    connection := new BaseConnection(collate);
    for i := 0 to |ops|
      invariant connection.Valid() && Transparent(connection.View(), Submitted(ops[..i]))
      invariant fresh(connection) && fresh(connection.collation)
    {
      SubmittedOneMore(ops, i);
      Perform(connection, ops[i], Submitted(ops[..i]));
    }
    assert ops[..|ops|] == ops && Submitted(ops) + [] == Submitted(ops);
    Perform(connection, FlushPending, Submitted(ops));
  }

  /** For every series of submissions and flushes, every choice of collation flags and every chunk
      size of the reader, the receiver gets exactly the submitted packets of known versions, in
      order: all of them exactly if all are of known versions. */
  method EndToEnd(collate: bool, ops: seq<Op>, chunkSize: nat) returns (received: seq<bytes>)
    requires chunkSize > 0 && AllSendable(ops)
    ensures received == Accepted(Submitted(ops))
    ensures received == Submitted(ops) <==> AllCompatible(Submitted(ops))
  {
    var connection := PerformAll(collate, ops);
    assert Split([]) == Some([]);
    received := Receive(connection.wire, chunkSize);
    assert Received(connection.wire) + [] == Received(connection.wire);
    ProcessedIsAccepted(Split(connection.wire).value);
    AllAccepted(Submitted(ops));
  }
}
