/** A recorded stream, and the search of `3escore/StreamUtil.cpp` for the two packets that finalising it
    replaces. The search is a function of the recording's bytes. */
module RecordingSearch {
  import opened Bytes
  import opened Packets

  /** A byte string with another written over it from `pos` on, past its end if need be. */
  function Overwritten(s: bytes, pos: nat, p: bytes): bytes
    requires pos <= |s|
  {
    s[..pos] + p + (if pos + |p| <= |s| then s[pos + |p|..] else [])
  }

  /** A recording: its bytes, one position for reading and writing, and whether the last read went well. */
  class Recording {
    var content: bytes
    var pos: nat
    var good: bool

    ghost predicate Valid()
      reads this
    {
      pos <= |content|
    }

    constructor (content: bytes, pos: nat)
      requires pos <= |content|
      ensures Valid() && this.content == content && this.pos == pos && good
    {
      this.content, this.pos, good := content, pos, true;
    }

    /** Read one byte; -1 and not good at the end. */
    method Get() returns (b: int)
      requires Valid() && good
      modifies `pos, `good
      ensures Valid()
      ensures if old(pos) < |content| then b == content[old(pos)] && pos == old(pos) + 1 && good
              else b == -1 && pos == old(pos) && !good
    {
      if pos < |content| {
        b, pos := content[pos], pos + 1;
      } else {
        b, good := -1, false;
      }
    }

    /** Read a number of bytes, or as many as there are. */
    method Read(n: nat) returns (s: bytes)
      requires Valid() && good
      modifies `pos, `good
      ensures Valid() && good == (|content| - old(pos) >= n)
      ensures good ==> s == content[old(pos)..old(pos) + n] && pos == old(pos) + n
    {
      if |content| - pos >= n {
        s, pos := content[pos..pos + n], pos + n;
      } else {
        s, pos, good := content[pos..], |content|, false;
      }
    }

    method Seek(p: nat)
      requires p <= |content|
      modifies `pos, `good
      ensures Valid() && pos == p && good
    {
      pos, good := p, true;
    }

    /** Write over what is there, and past the end where there is nothing. */
    method Write(s: bytes)
      requires Valid()
      modifies `content, `pos
      ensures Valid() && pos == old(pos) + |s|
      ensures content == Overwritten(old(content), old(pos), s) && good == old(good)
    {
      content := Overwritten(content, pos, s);
      pos := pos + |s|;
    }
  }

  // ---------------------------------------------------------------- markers

  /** The bytes at `start` agree with the marker this far. */
  predicate Agrees(s: bytes, start: nat, k: nat) {
    k <= 4 && start + k <= |s|
    && (k >= 1 ==> s[start] == Marker()[0]) && (k >= 2 ==> s[start + 1] == Marker()[1])
    && (k >= 3 ==> s[start + 2] == Marker()[2]) && (k >= 4 ==> s[start + 3] == Marker()[3])
  }

  predicate MarkerAt(s: bytes, q: nat) {
    Agrees(s, q, 4)
  }

  predicate NoMarkerIn(s: bytes, from: nat, to: nat) {
    forall q :: from <= q < to ==> !MarkerAt(s, q)
  }

  /** How many bytes from here on agree with the marker. */
  function Agreement(s: bytes, p: nat): nat {
    if Agrees(s, p, 4) then 4
    else if Agrees(s, p, 3) then 3
    else if Agrees(s, p, 2) then 2
    else if Agrees(s, p, 1) then 1
    else 0
  }

  /** Where the next attempt starts: at the first byte that did not agree, but further on. */
  function NextTry(s: bytes, p: nat): (next: nat)
    ensures p < next <= p + 4
  {
    p + if Agreement(s, p) == 0 then 1 else Agreement(s, p)
  }

  /** The outcome of so many attempts: a marker, none yet, or the end of the stream. */
  datatype Sought = Here(pos: nat) | NotYet(pos: nat) | Nowhere

  function SeekMarker(s: bytes, p: nat, tries: nat): Sought
    decreases |s| - p
  {
    if tries == 0 then NotYet(p)
    else if MarkerAt(s, p) then Here(p)
    else if p + Agreement(s, p) >= |s| then Nowhere
    else SeekMarker(s, NextTry(s, p), tries - 1)
  }

  /** An attempt skips no marker. */
  lemma NextTrySkipsNone(s: bytes, p: nat)
    requires !MarkerAt(s, p)
    ensures NoMarkerIn(s, p, NextTry(s, p))
    ensures p + Agreement(s, p) >= |s| ==> NoMarkerIn(s, p, |s|)
  {
  }

  lemma {:induction false} SeekIsFirst(s: bytes, p: nat, tries: nat)
    ensures
      match SeekMarker(s, p, tries)
      case Here(q) => p <= q && MarkerAt(s, q) && NoMarkerIn(s, p, q)
      case NotYet(q) => p + tries <= q && NoMarkerIn(s, p, q)
      case Nowhere => NoMarkerIn(s, p, |s|)
    decreases tries
  {
    if tries != 0 && !MarkerAt(s, p) {
      NextTrySkipsNone(s, p);
      if p + Agreement(s, p) < |s| {
        SeekIsFirst(s, NextTry(s, p), tries - 1);
      }
    }
  }

  /** A first marker that begins within the number of attempts is found. */
  lemma SeekFinds(s: bytes, p: nat, tries: nat, q: nat)
    requires p <= q < p + tries && MarkerAt(s, q) && NoMarkerIn(s, p, q)
    ensures SeekMarker(s, p, tries) == Here(q)
  {
    SeekIsFirst(s, p, tries);
  }

  /** One attempt of `findPacketMarker`: compare byte by byte; `last` holds what was read most recently
      at each place, and stays as it was when there is nothing left to read. */
  method TryMarker(stream: Recording, last: seq<int>) returns (matched: bool, read: seq<int>)
    requires stream.Valid() && |last| == 4 && last[3] != Marker()[3]
    modifies stream`pos, stream`good
    ensures stream.Valid() && |read| == 4 && old(stream.pos) <= stream.pos && (stream.good ==> old(stream.good))
    ensures matched <==> old(stream.good) && MarkerAt(stream.content, old(stream.pos))
    ensures matched ==> stream.good && stream.pos == old(stream.pos) + 4
    ensures !matched ==> read[3] != Marker()[3]
    ensures
      && !matched && old(stream.good)
      && old(stream.pos) + Agreement(stream.content, old(stream.pos)) < |stream.content| ==>
      stream.good && stream.pos == NextTry(stream.content, old(stream.pos))
  {
    var start := stream.pos;
    ghost var content, wasGood := stream.content, stream.good;
    read := last;
    var checked, validated, i := 0, 0, 0;
    while i < 4 && stream.good
      invariant 0 <= i <= 4 && checked == validated == i && |read| == 4 && stream.Valid()
      invariant i == 0 ==> stream.good == wasGood && stream.pos == start
      invariant (i != 0 ==> wasGood) && start <= stream.pos
      invariant stream.good ==> Agrees(content, start, i) && stream.pos == start + i
      invariant !stream.good && i != 0 ==>
        i < 4 && !MarkerAt(content, start) && start + Agreement(content, start) >= |content|
      invariant i < 4 ==> read[3] != Marker()[3]
    {
      var b := stream.Get();
      if b >= 0 {
        read := read[i := b];
      }
      checked := checked + 1;
      if read[i] == Marker()[i] {
        validated := validated + 1;
      } else {
        assert !MarkerAt(content, start) && (b >= 0 ==> Agreement(content, start) == i);
        if i > 0 {
          stream.Seek(stream.pos - 1);
        }
        break;
      }
      i := i + 1;
    }
    matched := checked == validated && checked == 4;
  }

  /** `findPacketMarker`: what attempts from here on find, with the position just behind it; -1 if that is
      no marker. */
  method FindPacketMarker(stream: Recording, limit: nat) returns (p: int)
    requires stream.Valid() && stream.good
    modifies stream`pos, stream`good
    ensures stream.Valid()
    ensures
      match SeekMarker(stream.content, old(stream.pos), limit)
      case Here(q) => p == q && stream.good && stream.pos == q + 4
      case NotYet(q) => p < 0 && stream.good && stream.pos == q
      case Nowhere => p < 0 && NoMarkerIn(stream.content, stream.pos, |stream.content|)
  {
    var left: nat, last := limit, [0, 0, 0, 0];
    ghost var content, sought := stream.content, SeekMarker(stream.content, stream.pos, limit);
    while left > 0
      invariant stream.Valid() && |last| == 4 && last[3] != Marker()[3] && left <= limit
      invariant
        || (stream.good && SeekMarker(content, stream.pos, left) == sought)
        || (sought == Nowhere && NoMarkerIn(content, stream.pos, |content|))
    {
      left := left - 1;
      var start := stream.pos;
      if !MarkerAt(content, start) {
        NextTrySkipsNone(content, start);
      }
      var matched;
      matched, last := TryMarker(stream, last);
      if matched {
        return start;
      }
    }
    return -1;
  }

  // ---------------------------------------------------------------- headers

  /** What is noted of a packet found. */
  datatype PacketInfo = NotFound | FoundAt(pos: nat, routingId: uint16, messageId: uint16, withCrc: bool)

  function InfoAt(s: bytes, p: nat): PacketInfo
    requires p + HEADER_SIZE <= |s|
  {
    var header := s[p..p + HEADER_SIZE];
    FoundAt(p, RoutingId(header), MessageId(header), !NoCrc(header))
  }

  predicate IsServerInfo(info: PacketInfo) {
    info.FoundAt? && info.routingId == MT_SERVER_INFO
  }

  predicate IsFrameCount(info: PacketInfo) {
    info.FoundAt? && info.routingId == MT_CONTROL && info.messageId == CID_FRAME_COUNT
  }

  /** `getPacketInfo` */
  method GetPacketInfo(stream: Recording) returns (info: PacketInfo)
    requires stream.Valid() && stream.good
    modifies stream`pos, stream`good
    ensures stream.Valid() && stream.good == (|stream.content| - old(stream.pos) >= HEADER_SIZE)
    ensures stream.good ==>
      stream.pos == old(stream.pos) + HEADER_SIZE && info == InfoAt(stream.content, old(stream.pos))
    ensures !stream.good ==> info == NotFound
  {
    var start := stream.pos;
    var header := stream.Read(HEADER_SIZE);
    if !stream.good {
      return NotFound;
    }
    info := FoundAt(start, RoutingId(header), MessageId(header), !NoCrc(header));
  }

  /** The server information and the frame count. */
  datatype Positions = Positions(server: PacketInfo, frame: PacketInfo)

  /** The first of each kind is kept. */
  function Kept(found: Positions, info: PacketInfo): Positions
    requires info.FoundAt?
  {
    if IsServerInfo(info) && found.server.NotFound? then found.(server := info)
    else if IsFrameCount(info) && found.frame.NotFound? then found.(frame := info)
    else found
  }

  const ATTEMPTS: nat := 5
  const READ_LIMIT: nat := 1024

  /** So many turns of `findInfoMessagePositions` from here on: each goes to the next marker within the
      attempts of `findPacketMarker`, and on behind its header. */
  function Search(s: bytes, p: nat, turns: nat, found: Positions): Positions
    decreases turns, s
  {
    if turns == 0 || (found.server.FoundAt? && found.frame.FoundAt?) then found
    else
      match SeekMarker(s, p, READ_LIMIT)
      case Nowhere => found
      case NotYet(q) => Search(s, q, turns - 1, found)
      case Here(q) =>
        if q + HEADER_SIZE > |s| then found
        else Search(s, q + HEADER_SIZE, turns - 1, Kept(found, InfoAt(s, q)))
  }

  /** What `findInfoMessagePositions` finds in a recording. */
  function FoundIn(s: bytes): Positions {
    Search(s, 0, ATTEMPTS, Positions(NotFound, NotFound))
  }

  /** The next packet found from here on. */
  method NextInfo(stream: Recording) returns (info: PacketInfo)
    requires stream.Valid() && stream.good
    modifies stream`pos, stream`good
    ensures stream.Valid()
    ensures
      match SeekMarker(stream.content, old(stream.pos), READ_LIMIT)
      case Nowhere => info == NotFound && NoMarkerIn(stream.content, stream.pos, |stream.content|)
      case NotYet(q) => info == NotFound && stream.good && stream.pos == q
      case Here(q) =>
        if q + HEADER_SIZE > |stream.content| then info == NotFound && !stream.good
        else info == InfoAt(stream.content, q) && stream.good && stream.pos == q + HEADER_SIZE
  {
    var start := FindPacketMarker(stream, READ_LIMIT);
    if start < 0 {
      return NotFound;
    }
    stream.Seek(start);
    info := GetPacketInfo(stream);
  }

  /** `findInfoMessagePositions`: of the first five packets found, the first of each kind. */
  method FindInfoMessagePositions(stream: Recording) returns (found: Positions)
    requires stream.Valid() && stream.good && stream.pos == 0
    modifies stream`pos, stream`good
    ensures stream.Valid() && found == FoundIn(stream.content)
  {
    var attempts := ATTEMPTS;
    ghost var s := stream.content;
    found := Positions(NotFound, NotFound);
    while attempts > 0 && stream.good && (found.server.NotFound? || found.frame.NotFound?)
      invariant stream.Valid() && 0 <= attempts
      invariant
        || (stream.good && Search(s, stream.pos, attempts, found) == FoundIn(s))
        || (found == FoundIn(s) && (stream.good ==> NoMarkerIn(s, stream.pos, |s|)))
    {
      attempts := attempts - 1;
      SeekIsFirst(s, stream.pos, READ_LIMIT);
      var info := NextInfo(stream);
      if info.NotFound? {
        continue;
      }
      if info.routingId == MT_SERVER_INFO {
        if found.server.NotFound? {
          found := found.(server := info);
        }
      } else if info.routingId == MT_CONTROL && info.messageId == CID_FRAME_COUNT {
        if found.frame.NotFound? {
          found := found.(frame := info);
        }
      }
    }
  }

  // ---------------------------------------------------------------- what is found

  /** An information noted of a header that is there, behind a marker. */
  predicate Noted(s: bytes, info: PacketInfo) {
    info.FoundAt? ==> MarkerAt(s, info.pos) && info.pos + HEADER_SIZE <= |s| && info == InfoAt(s, info.pos)
  }

  predicate BothNoted(s: bytes, found: Positions) {
    && Noted(s, found.server) && (found.server.FoundAt? ==> IsServerInfo(found.server))
    && Noted(s, found.frame) && (found.frame.FoundAt? ==> IsFrameCount(found.frame))
  }

  lemma KeptIsNoted(s: bytes, q: nat, found: Positions)
    requires BothNoted(s, found) && MarkerAt(s, q) && q + HEADER_SIZE <= |s|
    ensures
      var kept := Kept(found, InfoAt(s, q));
      && BothNoted(s, kept)
      && (found.server.FoundAt? ==> kept.server == found.server) && (found.frame.FoundAt? ==> kept.frame == found.frame)
      && (found.frame.NotFound? && kept.frame.FoundAt? ==> kept.frame.pos == q)
  {
  }

  /** Whatever the recording: headers of the right kind behind markers, and what was found stays. */
  lemma {:induction false} SearchIsNoted(s: bytes, p: nat, turns: nat, found: Positions)
    requires BothNoted(s, found)
    ensures
      var r := Search(s, p, turns, found);
      && BothNoted(s, r)
      && (found.server.FoundAt? ==> r.server == found.server) && (found.frame.FoundAt? ==> r.frame == found.frame)
      && (found.frame.NotFound? && r.frame.FoundAt? ==> r.frame.pos >= p)
    decreases turns
  {
    SeekIsFirst(s, p, READ_LIMIT);
    if turns != 0 && !(found.server.FoundAt? && found.frame.FoundAt?) {
      match SeekMarker(s, p, READ_LIMIT)
      case Nowhere =>
      case NotYet(q) => SearchIsNoted(s, q, turns - 1, found);
      case Here(q) =>
        if q + HEADER_SIZE <= |s| {
          KeptIsNoted(s, q, found);
          SearchIsNoted(s, q + HEADER_SIZE, turns - 1, Kept(found, InfoAt(s, q)));
        }
    }
  }

  /** A recording begins with a server information packet, or none, and the frame count packet. */
  predicate Begins(s: bytes, server: bytes, frame: bytes) {
    && |server| + |frame| <= |s| && s[..|server|] == server && s[|server|..|server| + |frame|] == frame
    && WellFormed(frame) && RoutingId(frame) == MT_CONTROL && MessageId(frame) == CID_FRAME_COUNT
    && (server == [] ||
          (WellFormed(server) && RoutingId(server) == MT_SERVER_INFO && |server| < HEADER_SIZE + READ_LIMIT))
  }

  function NextMarker(s: bytes, p: nat): (q: Option<nat>)
    ensures q.Some? ==> p <= q.value && MarkerAt(s, q.value) && NoMarkerIn(s, p, q.value)
    ensures q.None? ==> NoMarkerIn(s, p, |s|)
    decreases |s| - p
  {
    if p >= |s| then None else if MarkerAt(s, p) then Some(p) else NextMarker(s, p + 1)
  }

  /** Whether so many turns reach the end of the server information packet: the markers that lie inside are
      taken for headers. One that is not whole leads past the packet behind; one that looks like a frame
      count is taken for it. */
  predicate Reaches(server: bytes, p: nat, turns: nat)
    decreases turns, server
  {
    turns > 0 && (NextMarker(server, p).None?
                  || (TurnGoesOn(server, p) && Reaches(server, NextOrEnd(server, p) + HEADER_SIZE, turns - 1)))
  }

  /** The next marker inside the server information, or the end of that. */
  function NextOrEnd(server: bytes, p: nat): nat {
    match NextMarker(server, p)
    case None => |server|
    case Some(q) => q
  }

  /** The next marker inside has a whole header behind it, of no frame count. */
  predicate TurnGoesOn(server: bytes, p: nat) {
    && NextMarker(server, p).Some? && NextOrEnd(server, p) + HEADER_SIZE <= |server|
    && !IsFrameCount(InfoAt(server, NextOrEnd(server, p)))
  }

  /** The same for as many turns as it takes: no marker inside the server information leads astray. */
  predicate Harmless(server: bytes, p: nat)
    decreases |server| - p
  {
    NextMarker(server, p).None? || (TurnGoesOn(server, p) && Harmless(server, NextOrEnd(server, p) + HEADER_SIZE))
  }

  /** Every turn takes a header, so a few are enough for a short packet. */
  lemma {:induction false} TurnsAreEnough(server: bytes, p: nat, turns: nat)
    requires turns > 0 && |server| < p + HEADER_SIZE * (turns - 1) + 4
    ensures Reaches(server, p, turns) == Harmless(server, p)
    decreases turns
  {
    if TurnGoesOn(server, p) {
      TurnsAreEnough(server, NextOrEnd(server, p) + HEADER_SIZE, turns - 1);
    }
  }

  lemma MarkerOfPacket(s: bytes, p: nat, packet: bytes)
    requires p + |packet| <= |s| && s[p..p + |packet|] == packet && WellFormed(packet)
    ensures MarkerAt(s, p) && p + HEADER_SIZE <= |s|
    ensures InfoAt(s, p) == FoundAt(p, RoutingId(packet), MessageId(packet), !NoCrc(packet))
  {
  }

  lemma ReachesStep(server: bytes, p: nat, turns: nat)
    requires turns > 0
    ensures Reaches(server, p, turns) ==
      if TurnGoesOn(server, p) then Reaches(server, NextOrEnd(server, p) + HEADER_SIZE, turns - 1)
      else NextMarker(server, p).None?
  {
  }

  /** The next marker is that, or that of the packet behind it. */
  lemma NextInRecording(s: bytes, server: bytes, frame: bytes, p: nat)
    requires Begins(s, server, frame) && p <= |server|
    ensures
      var q := NextOrEnd(server, p);
      && p <= q <= |server| && MarkerAt(s, q) && NoMarkerIn(s, p, q) && q + HEADER_SIZE <= |s|
      && (q + HEADER_SIZE <= |server| ==> InfoAt(s, q) == InfoAt(server, q))
  {
    MarkerOfPacket(s, |server|, frame);
    var q := NextOrEnd(server, p);
    assert forall k :: 0 <= k < |server| ==> s[k] == s[..|server|][k];
    forall k | p <= k < q
      ensures !MarkerAt(s, k)
    {
      assert !MarkerAt(server, k);
    }
    if q + HEADER_SIZE <= |server| {
      assert s[q..q + HEADER_SIZE] == server[q..q + HEADER_SIZE];
    }
  }

  /** A turn of the search inside the server information. */
  lemma SearchTurn(s: bytes, server: bytes, frame: bytes, p: nat, turns: nat, found: Positions)
    returns (kept: Positions)
    requires Begins(s, server, frame) && p <= |server| < p + READ_LIMIT && turns > 0 && found.frame.NotFound?
    requires BothNoted(s, found)
    ensures NextOrEnd(server, p) + HEADER_SIZE <= |s| && BothNoted(s, kept)
    ensures kept == Kept(found, InfoAt(s, NextOrEnd(server, p)))
    ensures Search(s, p, turns, found) == Search(s, NextOrEnd(server, p) + HEADER_SIZE, turns - 1, kept)
  {
    var q := NextOrEnd(server, p);
    NextInRecording(s, server, frame, p);
    SeekFinds(s, p, READ_LIMIT, q);
    KeptIsNoted(s, q, found);
    kept := Kept(found, InfoAt(s, q));
  }

  /** With the server information found, a turn inside it goes on. */
  lemma NextTurn(s: bytes, server: bytes, frame: bytes, p: nat, turns: nat, found: Positions)
    requires Begins(s, server, frame) && server != [] && HEADER_SIZE <= p <= |server| && turns > 0
    requires BothNoted(s, found) && found.server.FoundAt? && found.frame.NotFound? && TurnGoesOn(server, p)
    ensures Search(s, p, turns, found) == Search(s, NextOrEnd(server, p) + HEADER_SIZE, turns - 1, found)
  {
    NextInRecording(s, server, frame, p);
    var _ := SearchTurn(s, server, frame, p, turns, found);
  }

  /** Or it is the last. */
  lemma LastTurn(s: bytes, server: bytes, frame: bytes, p: nat, turns: nat, found: Positions) returns (r: PacketInfo)
    requires Begins(s, server, frame) && server != [] && HEADER_SIZE <= p <= |server| && turns > 0
    requires BothNoted(s, found) && found.server.FoundAt? && found.frame.NotFound? && !TurnGoesOn(server, p)
    ensures r == Search(s, p, turns, found).frame
    ensures IsAt(r, |server|) == NextMarker(server, p).None?
  {
    var kept := SearchTurn(s, server, frame, p, turns, found);
    var q := NextOrEnd(server, p);
    SearchIsNoted(s, q + HEADER_SIZE, turns - 1, kept);
    r := Search(s, q + HEADER_SIZE, turns - 1, kept).frame;
    EndOfSearch(s, server, frame, p, found, kept, r);
  }

  /** From here on, with the server information found, the frame count packet is found exactly if the
      search reaches the end of the server information. */
  lemma {:induction false} SearchReaches(s: bytes, server: bytes, frame: bytes, p: nat, turns: nat, found: Positions)
    returns (r: PacketInfo, reached: bool)
    requires Begins(s, server, frame) && server != [] && HEADER_SIZE <= p <= |server|
    requires BothNoted(s, found) && found.server.FoundAt? && found.frame.NotFound?
    ensures r == Search(s, p, turns, found).frame && reached == Reaches(server, p, turns)
    ensures IsAt(r, |server|) == reached
    decreases turns
  {
    if turns == 0 {
      r, reached := found.frame, false;
    } else {
      ReachesStep(server, p, turns);
      if TurnGoesOn(server, p) {
        NextTurn(s, server, frame, p, turns, found);
        r, reached := SearchReaches(s, server, frame, NextOrEnd(server, p) + HEADER_SIZE, turns - 1, found);
      } else {
        r := LastTurn(s, server, frame, p, turns, found);
        reached := NextMarker(server, p).None?;
      }
    }
  }

  predicate IsAt(info: PacketInfo, p: nat) {
    info.FoundAt? && info.pos == p
  }

  /** That turn comes to the frame count packet, or misses it for good; `r` is what is found in the end. */
  lemma EndOfSearch(s: bytes, server: bytes, frame: bytes, p: nat, found: Positions, kept: Positions, r: PacketInfo)
    requires Begins(s, server, frame) && p <= |server| && found.server.FoundAt? && found.frame.NotFound?
    requires NextOrEnd(server, p) + HEADER_SIZE <= |s| && !TurnGoesOn(server, p)
    requires kept == Kept(found, InfoAt(s, NextOrEnd(server, p)))
    requires kept.frame.FoundAt? ==> r == kept.frame
    requires kept.frame.NotFound? && r.FoundAt? ==> r.pos >= NextOrEnd(server, p) + HEADER_SIZE
    ensures IsAt(r, |server|) == NextMarker(server, p).None?
  {
    MarkerOfPacket(s, |server|, frame);
    NextInRecording(s, server, frame, p);
  }

  /** In a recording that begins so, the server information is found at its beginning; and the frame count
      packet where it is, exactly if the search reaches it, which the bytes of the server information say. */
  lemma BothAreFound(s: bytes, server: bytes, frame: bytes)
    requires Begins(s, server, frame)
    ensures
      var found := FoundIn(s);
      && BothNoted(s, found)
      && (server != [] ==> found.server == FoundAt(0, MT_SERVER_INFO, MessageId(server), !NoCrc(server)))
      && (IsAt(found.frame, |server|) <==> (server == [] || Reaches(server, HEADER_SIZE, ATTEMPTS - 1)))
      && (IsAt(found.frame, |server|) ==> found.frame.withCrc == !NoCrc(frame))
  {
    var none := Positions(NotFound, NotFound);
    MarkerOfPacket(s, |server|, frame);
    SearchIsNoted(s, 0, ATTEMPTS, none);
    if server != [] {
      MarkerOfPacket(s, 0, server);
    }
    SeekFinds(s, 0, READ_LIMIT, 0);
    var found := Kept(none, InfoAt(s, 0));
    SearchIsNoted(s, HEADER_SIZE, ATTEMPTS - 1, found);
    if server != [] {
      var _, _ := SearchReaches(s, server, frame, HEADER_SIZE, ATTEMPTS - 1, found);
    }
  }
}
