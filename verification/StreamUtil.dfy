/** Initialising a recorded stream and finalising it in place (`3escore/StreamUtil.cpp`). */
module StreamUtil {
  import opened Bytes
  import opened Crc
  import opened Packets
  import opened PacketCheck
  import opened PacketWriting
  import opened RecordingSearch
  import PacketReading

  // ---------------------------------------------------------------- writing over packets

  /** The payload that elements make: each in network order. */
  function PayloadFrom(elements: seq<bytes>): bytes {
    if elements == [] then [] else PayloadFrom(elements[..|elements| - 1]) + Reverse(elements[|elements| - 1])
  }

  /** A packet that a reader accepts, with these identifiers and this payload. */
  predicate IsPacket(p: bytes, routingId: uint16, messageId: uint16, payload: bytes, withCrc: bool) {
    && WellFormed(p) && CheckCrc(p) && IdsOf(p) == Ids(VERSION, routingId, messageId)
    && NoCrc(p) == !withCrc && PayloadSize(p) == |payload| && p[HEADER_SIZE..HEADER_SIZE + |payload|] == payload
  }

  method WriteElements(packet: PacketWriter, elements: seq<bytes>)
    requires packet.Valid() && packet.payload == [] && |PayloadFrom(elements)| <= packet.bufferSize - HEADER_SIZE
    modifies packet, packet.buffer
    ensures packet.Valid() && packet.payload == PayloadFrom(elements) && packet.ids == old(packet.ids)
  {
    for i := 0 to |elements|
      invariant packet.Valid() && packet.payload == PayloadFrom(elements[..i]) && packet.ids == old(packet.ids)
    {
      assert elements[..i + 1][..i] == elements[..i];
      PayloadGrows(elements, i + 1);
      var _ := packet.WriteElement(elements[i]);
    }
    assert elements[..|elements|] == elements;
  }

  /** Compose a packet in the header buffer; the CRC is left out by setting the flag before the end. */
  method Compose(routingId: uint16, messageId: uint16, elements: seq<bytes>, withCrc: bool, calculator: CrcCalc)
    returns (p: bytes)
    requires |PayloadFrom(elements)| <= 1000
    requires calculator.Valid() && calculator.polynomial == Generator() && calculator.initialRemainder == Preset()
    ensures IsPacket(p, routingId, messageId, PayloadFrom(elements), withCrc)
  {
    var buffer := new byte[1024](_ => 0);
    var packet := new PacketWriter(buffer, 1024, routingId, messageId);
    WriteElements(packet, elements);
    if withCrc {
      p := FinishWithCrc(packet, calculator);
    } else {
      p := FinishWithoutCrc(packet);
    }
  }

  method FinishWithCrc(packet: PacketWriter, calculator: CrcCalc) returns (p: bytes)
    requires packet.Valid() && packet.bufferSize <= MAX_SIZE && packet.Room() >= CRC_SIZE
      && packet.ids.version == VERSION
    requires calculator.table as object != packet.buffer
    requires calculator.Valid() && calculator.polynomial == Generator() && calculator.initialRemainder == Preset()
    modifies packet`crcValid, packet.buffer
    ensures packet.Valid() && packet.ids == old(packet.ids)
    ensures IsPacket(p, old(packet.ids).routing, old(packet.ids).message, old(packet.payload), true)
  {
    p := PacketReading.Finish(packet, calculator);
  }

  method FinishWithoutCrc(packet: PacketWriter) returns (p: bytes)
    requires packet.Valid() && packet.bufferSize == packet.buffer.Length == 1024 && packet.ids.version == VERSION
    modifies packet.buffer
    ensures IsPacket(p, old(packet.ids).routing, old(packet.ids).message, old(packet.payload), false)
  {
    ghost var was := packet.buffer[..];
    packet.buffer[15] := 1;
    FlaggedPacket(was, packet.buffer[..]);
    p := packet.buffer[..HEADER_SIZE + packet.payloadPosition];
  }

  /** With the flag set a packet is complete without a CRC. */
  lemma FlaggedPacket(was: bytes, now: bytes)
    requires |was| == 1024 && CoveredSize(was) <= 1024 && HasMarker(was) && Version(was) == VERSION
      && now == was[15 := 1]
    ensures IsPacket(now[..CoveredSize(was)], RoutingId(was), MessageId(was), PayloadOf(was), false)
  {
  }

  lemma {:induction false} PayloadGrows(elements: seq<bytes>, i: nat)
    requires i <= |elements|
    ensures |PayloadFrom(elements[..i])| <= |PayloadFrom(elements)|
  {
    if i == |elements| {
      assert elements[..i] == elements;
    } else {
      var fewer := elements[..|elements| - 1];
      PayloadGrows(fewer, i);
      assert fewer[..i] == elements[..i];
    }
  }

  /** The bytes of a `ServerInfoMessage`. */
  const SERVER_INFO_SIZE: nat := 48

  /** The elements of a server information message. */
  ghost predicate IsInfo(elements: seq<bytes>) {
    |PayloadFrom(elements)| == SERVER_INFO_SIZE
  }

  /** The elements of a control message, as they are in memory: flags, the 32 bit value, the 64 bit one. */
  function FrameCountElements(frameCount: uint32): seq<bytes> {
    [Zeros(4)] + [Reverse(U32(frameCount))] + [Zeros(8)]
  }

  function FrameCountPayload(frameCount: uint32): (p: bytes)
    ensures |p| == 16
  {
    Zeros(4) + U32(frameCount) + Zeros(8)
  }

  lemma PayloadOneMore(elements: seq<bytes>, e: bytes)
    ensures PayloadFrom(elements + [e]) == PayloadFrom(elements) + Reverse(e)
  {
    var more := elements + [e];
    assert more[..|more| - 1] == elements;
  }

  lemma PayloadOfOne(e: bytes)
    ensures PayloadFrom([e]) == Reverse(e)
  {
    PayloadOneMore([], e);
    assert [] + [e] == [e] && PayloadFrom([]) + Reverse(e) == Reverse(e);
  }

  lemma FrameCountElementsMake(frameCount: uint32)
    ensures PayloadFrom(FrameCountElements(frameCount)) == FrameCountPayload(frameCount)
  {
    var a, b, c := Zeros(4), Reverse(U32(frameCount)), Zeros(8);
    PayloadOfOne(a);
    PayloadOneMore([a], b);
    PayloadOneMore([a] + [b], c);
    assert Reverse(a) == a && Reverse(b) == U32(frameCount) && Reverse(c) == c;
  }

  // ---------------------------------------------------------------- initialising a recording

  /** What `initialiseStream` writes of the server information. */
  predicate IsInitialServer(server: bytes, serverInfo: Option<seq<bytes>>) {
    if serverInfo.None? then server == [] else IsPacket(server, MT_SERVER_INFO, 0, PayloadFrom(serverInfo.value), true)
  }

  predicate IsInitialFrame(frame: bytes) {
    IsPacket(frame, MT_CONTROL, CID_FRAME_COUNT, FrameCountPayload(0), true)
  }

  /** Compose a packet in the buffer of `initialiseStream`, and write it. */
  method WriteInitial(stream: Recording, packet: PacketWriter, routingId: uint16, messageId: uint16,
      elements: seq<bytes>, calculator: CrcCalc)
    returns (p: bytes)
    requires stream.Valid() && stream.pos == |stream.content|
    requires packet.Valid() && packet.bufferSize == 256 && packet.ids.version == VERSION
      && |PayloadFrom(elements)| <= SERVER_INFO_SIZE
    requires calculator.Valid() && calculator.polynomial == Generator() && calculator.initialRemainder == Preset()
    requires calculator.table as object != packet.buffer
    modifies stream`content, stream`pos, packet, packet.buffer
    ensures stream.Valid() && stream.pos == |stream.content| && packet.Valid() && packet.ids.version == VERSION
    ensures IsPacket(p, routingId, messageId, PayloadFrom(elements), true)
    ensures stream.content == old(stream.content) + p && stream.good == old(stream.good)
  {
    packet.Reset(routingId, messageId);
    WriteElements(packet, elements);
    p := FinishWithCrc(packet, calculator);
    OverwriteEnd(stream.content, p);
    stream.Write(p);
  }

  /** The packet buffer of `initialiseStream`. */
  method NewWriter() returns (packet: PacketWriter)
    ensures fresh(packet) && fresh(packet.buffer) && packet.Valid() && packet.bufferSize == 256
      && packet.ids.version == VERSION
  {
    var buffer := new byte[256](_ => 0);
    packet := new PacketWriter(buffer, 256, 0, 0);
  }

  /** The part of `initialiseStream` that depends on the server information. */
  method WriteServer(stream: Recording, packet: PacketWriter, serverInfo: Option<seq<bytes>>, calculator: CrcCalc)
    returns (server: bytes)
    requires stream.Valid() && stream.pos == |stream.content| && (serverInfo.Some? ==> IsInfo(serverInfo.value))
    requires packet.Valid() && packet.bufferSize == 256 && packet.ids.version == VERSION
    requires calculator.Valid() && calculator.polynomial == Generator() && calculator.initialRemainder == Preset()
    requires calculator.table as object != packet.buffer
    modifies stream`content, stream`pos, packet, packet.buffer
    ensures stream.Valid() && stream.pos == |stream.content| && packet.Valid() && packet.ids.version == VERSION
    ensures IsInitialServer(server, serverInfo)
    ensures stream.content == old(stream.content) + server && stream.good == old(stream.good)
  {
    if serverInfo.Some? {
      server := WriteInitial(stream, packet, MT_SERVER_INFO, 0, serverInfo.value, calculator);
    } else {
      server := [];
      assert stream.content + [] == stream.content;
    }
  }

  /** The placeholder of the frame count. */
  method WriteFrameCount(stream: Recording, packet: PacketWriter, calculator: CrcCalc) returns (frame: bytes)
    requires stream.Valid() && stream.pos == |stream.content| && packet.Valid() && packet.bufferSize == 256
      && packet.ids.version == VERSION
    requires calculator.Valid() && calculator.polynomial == Generator() && calculator.initialRemainder == Preset()
    requires calculator.table as object != packet.buffer
    modifies stream`content, stream`pos, packet, packet.buffer
    ensures stream.pos == |stream.content| && IsInitialFrame(frame)
    ensures stream.content == old(stream.content) + frame && stream.good == old(stream.good)
  {
    FrameCountElementsMake(0);
    var elements := FrameCountElements(0);
    assert |PayloadFrom(elements)| == 16;
    frame := WriteInitial(stream, packet, MT_CONTROL, CID_FRAME_COUNT, elements, calculator);
  }

  /** `initialiseStream`: the server information, if there is any, and a place for the frame count. */
  method InitialiseStream(stream: Recording, serverInfo: Option<seq<bytes>>, calculator: CrcCalc)
    returns (ok: bool, server: bytes, frame: bytes)
    requires stream.Valid() && stream.pos == |stream.content| && stream.good
    requires serverInfo.Some? ==> IsInfo(serverInfo.value)
    requires calculator.Valid() && calculator.polynomial == Generator() && calculator.initialRemainder == Preset()
    modifies stream`content, stream`pos
    ensures ok && stream.pos == |stream.content|
    ensures IsInitialServer(server, serverInfo) && IsInitialFrame(frame)
    ensures stream.content == old(stream.content) + server + frame
  {
    var packet := NewWriter();
    server := WriteServer(stream, packet, serverInfo, calculator);
    frame := WriteFrameCount(stream, packet, calculator);
    ok := stream.good;
  }

  lemma Heads(server: bytes, frame: bytes, rest: bytes)
    ensures
      var s := server + frame + rest;
      && |server| + |frame| <= |s| && s[..|server|] == server && s[|server|..|server| + |frame|] == frame
      && s[|server| + |frame|..] == rest
  {
  }

  // ---------------------------------------------------------------- finalising it

  /** `finaliseServerInfo` and `finaliseFrameCount`: write a packet over the one that was found. */
  method WriteOver(stream: Recording, info: PacketInfo, routingId: uint16, messageId: uint16, elements: seq<bytes>,
      calculator: CrcCalc)
    returns (ghost packet: bytes)
    requires stream.Valid() && (info.FoundAt? ==> info.pos <= |stream.content|) && |PayloadFrom(elements)| <= 1000
    requires calculator.Valid() && calculator.polynomial == Generator() && calculator.initialRemainder == Preset()
    modifies stream
    ensures stream.Valid() && |stream.content| >= |old(stream.content)|
    ensures info.NotFound? ==>
      stream.content == old(stream.content) && stream.pos == old(stream.pos) && stream.good == old(stream.good)
    ensures info.FoundAt? ==>
      && stream.good && IsPacket(packet, routingId, messageId, PayloadFrom(elements), info.withCrc)
      && stream.content == Overwritten(old(stream.content), info.pos, packet)
  {
    packet := [];
    if info.NotFound? {
      return;
    }
    stream.Seek(info.pos);
    var bytes := Compose(routingId, messageId, elements, info.withCrc, calculator);
    packet := bytes;
    stream.Write(bytes);
  }

  /** The two packets are found, and what is written over has the size of what is there. */
  predicate Finalisable(s: bytes, server: bytes, frame: bytes, serverInfo: Option<seq<bytes>>) {
    && Begins(s, server, frame) && (server == [] || Reaches(server, HEADER_SIZE, ATTEMPTS - 1))
    && PayloadSize(frame) == 16
    && (serverInfo.Some? ==> server != [] && PayloadSize(server) == |PayloadFrom(serverInfo.value)|)
  }

  /** Only the two packets have changed: the frame count packet is one that carries the frame count, and
      the server information is as it was or the new one. */
  predicate Finalised(s: bytes, now: bytes, server: bytes, frame: bytes, serverInfo: Option<seq<bytes>>,
      frameCount: uint32)
  {
    && |server| + |frame| <= |s| == |now| && now[|server| + |frame|..] == s[|server| + |frame|..]
    && (serverInfo.None? ==> now[..|server|] == server)
    && (serverInfo.Some? ==>
      WellFormed(server) && IsPacket(now[..|server|], MT_SERVER_INFO, 0, PayloadFrom(serverInfo.value), !NoCrc(server)))
    && WellFormed(frame)
    && IsPacket(now[|server|..|server| + |frame|], MT_CONTROL, CID_FRAME_COUNT, FrameCountPayload(frameCount),
      !NoCrc(frame))
  }

  /** What finalising makes of any recording: packets of the noted kinds are written over those found. */
  predicate WrittenOver(s: bytes, now: bytes, serverInfo: Option<seq<bytes>>, frameCount: uint32, found: Positions,
                        newServer: bytes, newFrame: bytes)
    requires BothNoted(s, found)
  {
    var withServer :=
      if serverInfo.Some? && found.server.FoundAt? then Overwritten(s, found.server.pos, newServer) else s;
    && now == (if found.frame.FoundAt? then Overwritten(withServer, found.frame.pos, newFrame) else withServer)
    && (serverInfo.Some? && found.server.FoundAt? ==>
      IsPacket(newServer, MT_SERVER_INFO, 0, PayloadFrom(serverInfo.value), found.server.withCrc))
    && (found.frame.FoundAt? ==>
      IsPacket(newFrame, MT_CONTROL, CID_FRAME_COUNT, FrameCountPayload(frameCount), found.frame.withCrc))
  }

  /** Where the two packets are found, nothing else changes. */
  lemma RightlyWritten(s: bytes, now: bytes, server: bytes, frame: bytes, serverInfo: Option<seq<bytes>>,
      frameCount: uint32, newServer: bytes, newFrame: bytes)
    requires Finalisable(s, server, frame, serverInfo) && BothNoted(s, FoundIn(s))
    requires WrittenOver(s, now, serverInfo, frameCount, FoundIn(s), newServer, newFrame)
    ensures Finalised(s, now, server, frame, serverInfo, frameCount)
  {
    RightSizes(s, now, server, frame, serverInfo, frameCount, newServer, newFrame);
    FinalisedBy(s, now, server, frame, serverInfo, frameCount, newServer, newFrame);
  }

  lemma FinalisedBy(s: bytes, now: bytes, server: bytes, frame: bytes, serverInfo: Option<seq<bytes>>,
      frameCount: uint32, newServer: bytes, newFrame: bytes)
    requires |server| + |frame| <= |s| && s[..|server|] == server && WellFormed(frame) && |newFrame| == |frame|
    requires now == Overwritten(if serverInfo.Some? then Overwritten(s, 0, newServer) else s, |server|, newFrame)
    requires IsPacket(newFrame, MT_CONTROL, CID_FRAME_COUNT, FrameCountPayload(frameCount), !NoCrc(frame))
    requires serverInfo.Some? ==>
      |newServer| == |server| && WellFormed(server)
      && IsPacket(newServer, MT_SERVER_INFO, 0, PayloadFrom(serverInfo.value), !NoCrc(server))
    ensures Finalised(s, now, server, frame, serverInfo, frameCount)
  {
    BothOverwritten(
      s, now, serverInfo.Some?, if serverInfo.Some? then newServer else server, newFrame, |server|, |frame|);
  }

  lemma RightSizes(s: bytes, now: bytes, server: bytes, frame: bytes, serverInfo: Option<seq<bytes>>,
      frameCount: uint32, newServer: bytes, newFrame: bytes)
    requires Finalisable(s, server, frame, serverInfo) && BothNoted(s, FoundIn(s))
    requires WrittenOver(s, now, serverInfo, frameCount, FoundIn(s), newServer, newFrame)
    ensures |server| <= |s| && |newFrame| == |frame|
    ensures now == Overwritten(if serverInfo.Some? then Overwritten(s, 0, newServer) else s, |server|, newFrame)
    ensures IsPacket(newFrame, MT_CONTROL, CID_FRAME_COUNT, FrameCountPayload(frameCount), !NoCrc(frame))
    ensures serverInfo.Some? ==>
      |newServer| == |server| && WellFormed(server)
      && IsPacket(newServer, MT_SERVER_INFO, 0, PayloadFrom(serverInfo.value), !NoCrc(server))
  {
    var found := FoundIn(s);
    BothAreFound(s, server, frame);
    WrittenThere(s, now, serverInfo, frameCount, found, newServer, newFrame, |server|);
    SameSize(frame, newFrame, MT_CONTROL, CID_FRAME_COUNT, FrameCountPayload(frameCount), found.frame.withCrc);
    if serverInfo.Some? {
      SameSize(server, newServer, MT_SERVER_INFO, 0, PayloadFrom(serverInfo.value), found.server.withCrc);
    }
  }

  lemma WrittenThere(s: bytes, now: bytes, serverInfo: Option<seq<bytes>>, frameCount: uint32, found: Positions,
                     newServer: bytes, newFrame: bytes, at: nat)
    requires BothNoted(s, found) && WrittenOver(s, now, serverInfo, frameCount, found, newServer, newFrame)
    requires IsAt(found.frame, at) && (serverInfo.Some? ==> IsAt(found.server, 0))
    ensures at <= |s| && now == Overwritten(if serverInfo.Some? then Overwritten(s, 0, newServer) else s, at, newFrame)
  {
  }

  lemma SameSize(p: bytes, newP: bytes, routingId: uint16, messageId: uint16, payload: bytes, withCrc: bool)
    requires WellFormed(p) && PayloadSize(p) == |payload| && NoCrc(p) == !withCrc
    requires IsPacket(newP, routingId, messageId, payload, withCrc)
    ensures |newP| == |p|
  {
  }

  lemma BothOverwritten(s: bytes, now: bytes, serverToo: bool, newServer: bytes, newFrame: bytes, n: nat, m: nat)
    requires |newServer| == n && |newFrame| == m && n + m <= |s| && (!serverToo ==> s[..n] == newServer)
    requires now == Overwritten(if serverToo then Overwritten(s, 0, newServer) else s, n, newFrame)
    ensures |now| == |s| && now[..n] == newServer && now[n..n + m] == newFrame && now[n + m..] == s[n + m..]
  {
    OverwriteBoth(s, newServer, newFrame);
    if !serverToo {
      OverwriteSame(s, newServer);
    }
    Heads(newServer, newFrame, s[n + m..]);
  }

  lemma OverwriteBoth(s: bytes, first: bytes, second: bytes)
    requires |first| + |second| <= |s|
    ensures Overwritten(Overwritten(s, 0, first), |first|, second) == first + second + s[|first| + |second|..]
  {
  }

  lemma OverwriteEnd(s: bytes, p: bytes)
    ensures Overwritten(s, |s|, p) == s + p
  {
  }

  lemma OverwriteSame(s: bytes, first: bytes)
    requires |first| <= |s| && s[..|first|] == first
    ensures Overwritten(s, 0, first) == s
  {
  }

  /** Write over what was found. */
  method Rewrite(stream: Recording, frameCount: uint32, serverInfo: Option<seq<bytes>>, found: Positions,
      calculator: CrcCalc)
    returns (ghost newServer: bytes, ghost newFrame: bytes)
    requires stream.Valid() && (serverInfo.Some? ==> IsInfo(serverInfo.value)) && BothNoted(stream.content, found)
    requires calculator.Valid() && calculator.polynomial == Generator() && calculator.initialRemainder == Preset()
    modifies stream
    ensures stream.Valid() && |stream.content| >= |old(stream.content)| && (found.frame.FoundAt? ==> stream.good)
    ensures WrittenOver(old(stream.content), stream.content, serverInfo, frameCount, found, newServer, newFrame)
  {
    newServer := [];
    if serverInfo.Some? {
      newServer := WriteOver(stream, found.server, MT_SERVER_INFO, 0, serverInfo.value, calculator);
    }
    FrameCountElementsMake(frameCount);
    newFrame := WriteOver(stream, found.frame, MT_CONTROL, CID_FRAME_COUNT, FrameCountElements(frameCount), calculator);
  }

  /** `finaliseStream`. In any recording, packets are written over those that the search finds, and nothing
      else changes; in one that can be finalised these are the right ones. */
  method FinaliseStream(stream: Recording, frameCount: uint32, serverInfo: Option<seq<bytes>>, calculator: CrcCalc,
                        ghost server: bytes, ghost frame: bytes)
    returns (ok: bool, ghost newServer: bytes, ghost newFrame: bytes)
    requires stream.Valid() && (serverInfo.Some? ==> IsInfo(serverInfo.value))
    requires calculator.Valid() && calculator.polynomial == Generator() && calculator.initialRemainder == Preset()
    modifies stream
    ensures stream.Valid() && BothNoted(old(stream.content), FoundIn(old(stream.content)))
    ensures ok ==> FoundIn(old(stream.content)) != Positions(NotFound, NotFound)
    ensures FoundIn(old(stream.content)).frame.FoundAt? ==> ok
    ensures
      WrittenOver(old(stream.content), stream.content, serverInfo, frameCount, FoundIn(old(stream.content)), newServer,
        newFrame)
    ensures Finalisable(old(stream.content), server, frame, serverInfo) ==>
      ok && Finalised(old(stream.content), stream.content, server, frame, serverInfo, frameCount)
    ensures old(stream.good) && old(stream.pos) > 0 ==> stream.pos == old(stream.pos)
  {
    var restore := if stream.good then stream.pos else 0;
    ghost var s := stream.content;
    stream.Seek(0);
    var positions := FindInfoMessagePositions(stream);
    SearchIsNoted(s, 0, ATTEMPTS, Positions(NotFound, NotFound));
    newServer, newFrame := [], [];
    var found := positions.server.FoundAt? || positions.frame.FoundAt?;
    if found {
      newServer, newFrame := Rewrite(stream, frameCount, serverInfo, positions, calculator);
    }
    if restore > 0 {
      stream.Seek(restore);
    }
    ok := stream.good && found;
    if Finalisable(s, server, frame, serverInfo) {
      BothAreFound(s, server, frame);
      RightlyWritten(s, stream.content, server, frame, serverInfo, frameCount, newServer, newFrame);
    }
  }

  // ---------------------------------------------------------------- which recordings are finalised

  /** The bytes of a frame count packet behind its marker and before the count. */
  predicate CountHeader(p: bytes) {
    && 32 <= |p| <= 34 && p[1] == Marker()[1] && p[2] == Marker()[2] && p[4] == p[5] == p[6] == 0 && p[7] == 4
    && p[8] == 0 && p[9] == 2 && p[10] == 0 && p[11] == 3
    && p[12] == 0 && p[13] == 16 && p[16] == p[17] == p[18] == p[19] == 0
  }

  lemma FrameCountBytes(p: bytes, frameCount: uint32, withCrc: bool)
    requires IsPacket(p, MT_CONTROL, CID_FRAME_COUNT, FrameCountPayload(frameCount), withCrc)
    ensures CountHeader(p) && |p| == (if withCrc then 34 else 32) && U32At(p, 20) == frameCount
    ensures p[15] % 2 == (if withCrc then 0 else 1) && U32At(p, 24) == U32At(p, 28) == 0
  {
    var payload := p[HEADER_SIZE..HEADER_SIZE + 16];
    assert payload == FrameCountPayload(frameCount);
    assert forall i :: 0 <= i < 16 ==> payload[i] == p[HEADER_SIZE + i];
    assert payload[4..8] == U32(frameCount);
    assert U32At(payload, 4) == U32At(U32(frameCount), 0);
  }

  predicate LiesAt(s: bytes, at: nat, p: bytes) {
    at + |p| <= |s| && forall i :: 0 <= i < |p| ==> s[at + i] == p[i]
  }

  /** No marker begins inside a frame count packet with a CRC and no count, up to the count. */
  lemma NoMarkerInside(s: bytes, at: nat, frame: bytes)
    requires CountHeader(frame) && frame[15] % 2 == 0 && U32At(frame, 20) == 0 && LiesAt(s, at, frame)
    ensures NoMarkerIn(s, at + 1, at + 24)
    ensures U32At(s, at + 20) == 0
  {
    forall q | at + 1 <= q < at + 24
      ensures !MarkerAt(s, q)
    {
      NotAMarker(frame, q - at);
      assert s[at + (q - at)] == frame[q - at] && s[at + (q - at + 1)] == frame[q - at + 1];
    }
    assert s[at + 20] == frame[20] && s[at + 21] == frame[21] && s[at + 22] == frame[22] && s[at + 23] == frame[23];
  }

  lemma NotAMarker(p: bytes, o: nat)
    requires CountHeader(p) && (p[15] % 2 == 0 || o <= 13) && (U32At(p, 20) == 0 || o <= 13) && 1 <= o < 24
    ensures p[o] != 0x03 || p[o + 1] != 0xE5
  {
    if o >= 20 {
      assert p[20] == p[21] == p[22] == p[23] == 0;
    }
  }

  lemma OverwrittenAt(s: bytes, pos: nat, p: bytes, i: nat)
    requires pos <= |s| && i < |s|
    ensures |Overwritten(s, pos, p)| >= |s|
    ensures Overwritten(s, pos, p)[i] == if pos <= i < pos + |p| then p[i - pos] else s[i]
  {
  }

  /** A frame count packet written elsewhere leaves the count of the placeholder at zero, or its marker
      destroyed. */
  lemma CountStays(s: bytes, at: nat, q: nat, newFrame: bytes)
    requires at + 24 <= |s| && U32At(s, at + 20) == 0 && CountHeader(newFrame)
    requires q <= |s| && q != at && !(at < q < at + 24)
    ensures
      var now := Overwritten(s, q, newFrame);
      |now| >= at + 24 && (U32At(now, at + 20) == 0 || !MarkerAt(now, at))
  {
    var now := Overwritten(s, q, newFrame);
    OverwrittenAt(s, q, newFrame, at);
    OverwrittenAt(s, q, newFrame, at + 1);
    if q < at && q + |newFrame| > at + 20 {
      NotAMarker(newFrame, at - q);
      assert Marker()[0] == 0x03 && Marker()[1] == 0xE5;
    } else {
      OverwrittenAt(s, q, newFrame, at + 20);
      OverwrittenAt(s, q, newFrame, at + 21);
      OverwrittenAt(s, q, newFrame, at + 22);
      OverwrittenAt(s, q, newFrame, at + 23);
    }
  }

  /** A finalised recording has its frame count packet in its place. */
  lemma FinalisedShows(s: bytes, now: bytes, server: bytes, frame: bytes, serverInfo: Option<seq<bytes>>,
      frameCount: uint32)
    requires Finalised(s, now, server, frame, serverInfo, frameCount)
    ensures |server| + 24 <= |now| && U32At(now, |server| + 20) == frameCount && MarkerAt(now, |server|)
  {
    var newFrame := now[|server|..|server| + |frame|];
    FrameCountBytes(newFrame, frameCount, !NoCrc(frame));
    MarkerOfPacket(now, |server|, newFrame);
    PartLiesAt(now, |server|, newFrame);
    assert now[|server| + 20] == newFrame[20] && now[|server| + 21] == newFrame[21];
    assert now[|server| + 22] == newFrame[22] && now[|server| + 23] == newFrame[23];
  }

  lemma PartLiesAt(s: bytes, at: nat, p: bytes)
    requires at + |p| <= |s| && s[at..at + |p|] == p
    ensures LiesAt(s, at, p)
  {
  }

  /** The recording after `initialiseStream`, whatever follows, begins with its packets. */
  lemma InitialisedBegins(server: bytes, frame: bytes, rest: bytes, serverInfo: Option<seq<bytes>>)
    requires IsInitialServer(server, serverInfo) && IsInitialFrame(frame)
      && (serverInfo.Some? ==> IsInfo(serverInfo.value))
    ensures
      var s := server + frame + rest;
      && Begins(s, server, frame) && LiesAt(s, |server|, frame)
      && (server != [] ==> |server| == HEADER_SIZE + SERVER_INFO_SIZE + CRC_SIZE && !NoCrc(server))
  {
    Heads(server, frame, rest);
    PartLiesAt(server + frame + rest, |server|, frame);
  }

  /** The search in it finds both packets, exactly if no marker inside the server information leads it astray. */
  lemma InitialisedIsFound(s: bytes, server: bytes, frame: bytes)
    requires Begins(s, server, frame)
    requires server != [] ==> |server| == HEADER_SIZE + SERVER_INFO_SIZE + CRC_SIZE && !NoCrc(server)
    ensures BothNoted(s, FoundIn(s)) && (server != [] ==> IsAt(FoundIn(s).server, 0) && FoundIn(s).server.withCrc)
    ensures IsAt(FoundIn(s).frame, |server|) <==> Harmless(server, HEADER_SIZE)
    ensures server == [] || Reaches(server, HEADER_SIZE, ATTEMPTS - 1) <==> Harmless(server, HEADER_SIZE)
  {
    BothAreFound(s, server, frame);
    if server != [] {
      TurnsAreEnough(server, HEADER_SIZE, ATTEMPTS - 1);
    }
  }

  /** Where the search is led astray, the frame count is not where it should be. */
  lemma LedAstray(s: bytes, now: bytes, server: bytes, frame: bytes, newInfo: Option<seq<bytes>>, frameCount: uint32,
                  newServer: bytes, newFrame: bytes)
    requires IsInitialFrame(frame) && LiesAt(s, |server|, frame) && BothNoted(s, FoundIn(s))
    requires WrittenOver(s, now, newInfo, frameCount, FoundIn(s), newServer, newFrame)
    requires newInfo.Some? && FoundIn(s).server.FoundAt? ==> IsAt(FoundIn(s).server, 0) && |newServer| == |server|
    requires !IsAt(FoundIn(s).frame, |server|)
    ensures |server| + 24 <= |now| && (U32At(now, |server| + 20) == 0 || !MarkerAt(now, |server|))
  {
    var found, at := FoundIn(s), |server|;
    FrameCountBytes(frame, 0, true);
    var withServer := if newInfo.Some? && found.server.FoundAt? then Overwritten(s, 0, newServer) else s;
    NoMarkerInside(s, at, frame);
    if newInfo.Some? && found.server.FoundAt? {
      forall i | at <= i < |s|
        ensures |withServer| >= |s| && withServer[i] == s[i]
      {
        OverwrittenAt(s, 0, newServer, i);
      }
    }
    assert U32At(withServer, at + 20) == 0;
    if found.frame.FoundAt? {
      FrameCountBytes(newFrame, frameCount, found.frame.withCrc);
      CountStays(withServer, at, found.frame.pos, newFrame);
    }
  }

  /** What finalising makes of a recording that was initialised: the two packets, and nothing else, are
      replaced, if no marker inside the server information leads the search astray, and new information
      has old information to replace. For a frame count other than that of the placeholder it is exactly so. */
  lemma FinalisedExactly(server: bytes, frame: bytes, rest: bytes, serverInfo: Option<seq<bytes>>,
      newInfo: Option<seq<bytes>>, frameCount: uint32, now: bytes, newServer: bytes, newFrame: bytes)
    requires IsInitialServer(server, serverInfo) && IsInitialFrame(frame)
    requires (serverInfo.Some? ==> IsInfo(serverInfo.value)) && (newInfo.Some? ==> IsInfo(newInfo.value))
    requires BothNoted(server + frame + rest, FoundIn(server + frame + rest))
    requires
      var s := server + frame + rest;
      WrittenOver(s, now, newInfo, frameCount, FoundIn(s), newServer, newFrame)
    ensures
      var s := server + frame + rest;
      var right := Harmless(server, HEADER_SIZE) && (newInfo.Some? ==> serverInfo.Some?);
      && (right ==> Finalised(s, now, server, frame, newInfo, frameCount))
      && (frameCount != 0 && Finalised(s, now, server, frame, newInfo, frameCount) ==> right)
  {
    var s := server + frame + rest;
    InitialisedBegins(server, frame, rest, serverInfo);
    InitialisedIsFound(s, server, frame);
    FrameCountBytes(frame, 0, true);
    if Harmless(server, HEADER_SIZE) && (newInfo.Some? ==> serverInfo.Some?) {
      RightlyWritten(s, now, server, frame, newInfo, frameCount, newServer, newFrame);
    } else if frameCount != 0 && Finalised(s, now, server, frame, newInfo, frameCount) {
      FinalisedShows(s, now, server, frame, newInfo, frameCount);
      if server != [] {
        LedAstray(s, now, server, frame, newInfo, frameCount, newServer, newFrame);
      }
    }
  }

  /** Initialise a recording, write whatever comes after, and finalise it. */
  method Record(serverInfo: Option<seq<bytes>>, rest: bytes, newInfo: Option<seq<bytes>>, frameCount: uint32,
      calculator: CrcCalc)
    returns (recording: bytes, server: bytes, frame: bytes)
    requires (serverInfo.Some? ==> IsInfo(serverInfo.value)) && (newInfo.Some? ==> IsInfo(newInfo.value))
    requires calculator.Valid() && calculator.polynomial == Generator() && calculator.initialRemainder == Preset()
    ensures IsInitialServer(server, serverInfo) && IsInitialFrame(frame)
    ensures
      var s := server + frame + rest;
      var right := Harmless(server, HEADER_SIZE) && (newInfo.Some? ==> serverInfo.Some?);
      && (right ==> Finalised(s, recording, server, frame, newInfo, frameCount))
      && (frameCount != 0 && Finalised(s, recording, server, frame, newInfo, frameCount) ==> right)
  {
    var stream;
    stream, server, frame := StartRecording(serverInfo, rest, calculator);
    var _, newServer, newFrame := FinaliseStream(stream, frameCount, newInfo, calculator, server, frame);
    recording := stream.content;
    FinalisedExactly(server, frame, rest, serverInfo, newInfo, frameCount, recording, newServer, newFrame);
  }

  /** Up to its end. */
  method StartRecording(serverInfo: Option<seq<bytes>>, rest: bytes, calculator: CrcCalc)
    returns (stream: Recording, server: bytes, frame: bytes)
    requires serverInfo.Some? ==> IsInfo(serverInfo.value)
    requires calculator.Valid() && calculator.polynomial == Generator() && calculator.initialRemainder == Preset()
    ensures fresh(stream) && stream.Valid() && stream.content == server + frame + rest
    ensures IsInitialServer(server, serverInfo) && IsInitialFrame(frame)
  {
    stream := new Recording([], 0);
    var _, first, second := InitialiseStream(stream, serverInfo, calculator);
    server, frame := first, second;
    OverwriteEnd(stream.content, rest);
    stream.Write(rest);
    Regroup([], server, frame);
  }

  /** Server information that begins like a packet: a time unit of 0x03e55e30 * 2^32, and a default frame
      time of which the bytes are there that a header has its ids in. */
  function FalseInfo(frameTime: bytes): seq<bytes> {
    [Reverse(Marker() + Zeros(4))] + [Reverse(frameTime)] + [Zeros(36)]
  }

  lemma FalseInfoMakes(frameTime: bytes)
    ensures PayloadFrom(FalseInfo(frameTime)) == Marker() + Zeros(4) + frameTime + Zeros(36)
  {
    var a, b, c := Reverse(Marker() + Zeros(4)), Reverse(frameTime), Zeros(36);
    PayloadOfOne(a);
    PayloadOneMore([a], b);
    PayloadOneMore([a] + [b], c);
    assert Reverse(a) == Marker() + Zeros(4) && Reverse(b) == frameTime && Reverse(c) == c;
  }

  /** The header that the search takes it for. */
  lemma HeaderInInfo(server: bytes, frameTime: bytes, payload: bytes)
    requires |frameTime| == 4 && payload == Marker() + Zeros(4) + frameTime + Zeros(36)
    requires |server| == 66 && forall i :: 0 <= i < 48 ==> server[HEADER_SIZE + i] == payload[i]
    ensures NextOrEnd(server, HEADER_SIZE) == HEADER_SIZE && NextMarker(server, HEADER_SIZE).Some?
    ensures IsFrameCount(InfoAt(server, HEADER_SIZE)) <==> frameTime == [0, 2, 0, 3]
    ensures NextMarker(server, HEADER_SIZE + HEADER_SIZE).None?
  {
    assert server[16] == payload[0] && server[17] == payload[1] && server[18] == payload[2] && server[19] == payload[3];
    assert MarkerAt(server, HEADER_SIZE);
    assert server[24] == payload[8] && server[25] == payload[9] && server[26] == payload[10]
      && server[27] == payload[11];
    forall q | 32 <= q < |server|
      ensures !MarkerAt(server, q)
    {
      if q < 64 {
        assert server[HEADER_SIZE + (q - HEADER_SIZE)] == payload[q - HEADER_SIZE] == 0;
      }
    }
  }

  /** It leads the search astray if it is that of a frame count, and does no harm otherwise. */
  lemma FalseHeaderExample(server: bytes, frameTime: bytes)
    requires |frameTime| == 4 && IsInitialServer(server, Some(FalseInfo(frameTime)))
    ensures IsInfo(FalseInfo(frameTime)) && (Harmless(server, HEADER_SIZE) <==> frameTime != [0, 2, 0, 3])
  {
    FalseInfoMakes(frameTime);
    var payload := Marker() + Zeros(4) + frameTime + Zeros(36);
    assert server[HEADER_SIZE..HEADER_SIZE + 48] == payload;
    assert forall i :: 0 <= i < 48 ==> payload[i] == server[HEADER_SIZE + i];
    HeaderInInfo(server, frameTime, payload);
  }

  lemma SplitTwo(p: bytes, rest: bytes)
    requires WellFormed(p) && Split(p + rest).Some?
    ensures Split(rest).Some? && Split(p + rest).value == [p] + Split(rest).value
  {
    SplitHead(p, rest);
  }

  lemma SplitMore(p: bytes, rest: bytes)
    requires WellFormed(p) && Split(rest).Some?
    ensures Split(p + rest) == Some([p] + Split(rest).value)
  {
    SplitHead(p, rest);
  }

  /** A recording of packets stays one when it is finalised: the two packets are replaced where they are,
      and all others are as before. */
  lemma OthersStillParse(s: bytes, now: bytes, server: bytes, frame: bytes, serverInfo: Option<seq<bytes>>,
      frameCount: uint32)
    returns (newServer: bytes, newFrame: bytes, others: bytes)
    requires Begins(s, server, frame) && Split(s).Some?
    requires Finalised(s, now, server, frame, serverInfo, frameCount)
    ensures newServer == now[..|server|] && newFrame == now[|server|..|server| + |frame|]
      && others == s[|server| + |frame|..]
    ensures Split(others).Some?
    ensures Split(s).value == (if server == [] then [] else [server]) + [frame] + Split(others).value
    ensures Split(now) == Some((if server == [] then [] else [newServer]) + [newFrame] + Split(others).value)
  {
    newServer, newFrame, others := now[..|server|], now[|server|..|server| + |frame|], s[|server| + |frame|..];
    Tails(s, server, frame, others);
    assert |newServer| == |server| && |newFrame| == |frame|;
    Tails(now, newServer, newFrame, others);
    BothReplaced(server, frame, newServer, newFrame, others);
  }

  lemma BothReplaced(server: bytes, frame: bytes, newServer: bytes, newFrame: bytes, rest: bytes)
    requires (server == [] && newServer == []) || (WellFormed(server) && WellFormed(newServer))
    requires WellFormed(frame) && WellFormed(newFrame) && Split(server + (frame + rest)).Some?
    ensures Split(rest).Some?
    ensures Split(server + (frame + rest)).value
      == (if server == [] then [] else [server]) + [frame] + Split(rest).value
    ensures Split(newServer + (newFrame + rest)) ==
      Some((if server == [] then [] else [newServer]) + [newFrame] + Split(rest).value)
  {
    if server == [] {
      Regroup(server, frame, rest);
      Regroup(newServer, newFrame, rest);
      SplitTwo(frame, rest);
      SplitMore(newFrame, rest);
      Regroup([], [frame], Split(rest).value);
      Regroup([], [newFrame], Split(rest).value);
    } else {
      SplitTwo(server, frame + rest);
      SplitTwo(frame, rest);
      SplitMore(newFrame, rest);
      SplitMore(newServer, newFrame + rest);
      Regroup([server], [frame], Split(rest).value);
      Regroup([newServer], [newFrame], Split(rest).value);
    }
  }

  lemma Tails(s: bytes, server: bytes, frame: bytes, rest: bytes)
    requires |server| + |frame| <= |s| && s[..|server|] == server && s[|server|..|server| + |frame|] == frame
    requires s[|server| + |frame|..] == rest
    ensures s == server + (frame + rest)
  {
  }
}
