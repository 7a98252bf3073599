/** The packet layout of `3escore/PacketHeader.h`, and streams made of packets placed end to end.

    A packet is a sixteen byte header, a payload and, unless the header says otherwise, a two byte
    CRC. All numbers are big endian:
      0 marker (4), 4 version major (2), 6 version minor (2), 8 routing id (2), 10 message id (2),
      12 payload size (2), 14 payload offset (1), 15 flags (1). */
module Packets {
  import opened Bytes

  const HEADER_SIZE: nat := 16
  const CRC_SIZE: nat := 2
  const MAX_SIZE: nat := 0xFFFF

  // Routing identifiers and message identifiers used by the transport.
  const MT_SERVER_INFO: uint16 := 1
  const MT_CONTROL: uint16 := 2
  const MT_COLLATED_PACKET: uint16 := 3
  const CID_FRAME_COUNT: uint16 := 3

  const VERSION_MAJOR: uint16 := 0
  const VERSION_MINOR: uint16 := 4
  const VERSION: uint32 := VERSION_MAJOR as int * 0x1_0000 + VERSION_MINOR
  const COMPATIBILITY_MAJOR: uint16 := 0
  const COMPATIBILITY_MINOR: uint16 := 3

  /** 0x03e55e30 in network order. */
  function Marker(): (m: bytes)
    ensures |m| == 4
  {
    [0x03, 0xE5, 0x5E, 0x30]
  }

  predicate HasMarker(p: bytes)
    requires |p| >= 4
  {
    p[..4] == Marker()
  }

  /** Major and minor version in one number. */
  function Version(p: bytes): uint32
    requires |p| >= HEADER_SIZE
  {
    U32At(p, 4)
  }

  /** `checkCompatibility` of `StreamThread.cpp`: the versions of which a receiver takes packets. */
  predicate Compatible(p: bytes) {
    |p| >= HEADER_SIZE && KnownVersion(U16At(p, 4), U16At(p, 6))
  }

  predicate KnownVersion(major: uint16, minor: uint16) {
    || (major == VERSION_MAJOR && minor == COMPATIBILITY_MINOR)
    || COMPATIBILITY_MAJOR < major < VERSION_MAJOR
    || (major == VERSION_MAJOR && minor <= VERSION_MINOR)
    || (major == COMPATIBILITY_MAJOR && minor >= COMPATIBILITY_MINOR)
  }

  function RoutingId(p: bytes): uint16
    requires |p| >= HEADER_SIZE
  {
    U16At(p, 8)
  }

  function MessageId(p: bytes): uint16
    requires |p| >= HEADER_SIZE
  {
    U16At(p, 10)
  }

  function PayloadSize(p: bytes): uint16
    requires |p| >= HEADER_SIZE
  {
    U16At(p, 12)
  }

  /** The `PFNoCrc` bit of the flags byte. */
  predicate NoCrc(p: bytes)
    requires |p| >= HEADER_SIZE
  {
    p[15] % 2 == 1
  }

  function CrcBytes(p: bytes): nat
    requires |p| >= HEADER_SIZE
  {
    if NoCrc(p) then 0 else CRC_SIZE
  }

  /** `PacketStream::packetSize`: the sum is truncated to sixteen bits at the end. */
  function PacketSize(p: bytes): uint16
    requires |p| >= HEADER_SIZE
  {
    (HEADER_SIZE + PayloadSize(p) + CrcBytes(p)) % 0x1_0000
  }

  /** `PacketStreamReader::calcExpectedSize`: the CRC is added in sixteen bits, the header is not. */
  function ExpectedSize(p: bytes): nat
    requires |p| >= HEADER_SIZE
  {
    HEADER_SIZE + (PayloadSize(p) + CrcBytes(p)) % 0x1_0000
  }

  /** A complete packet whose size fits the sixteen bits that `packetSize` has. */
  predicate WellFormed(p: bytes) {
    && HEADER_SIZE <= |p| <= MAX_SIZE
    && HasMarker(p)
    && |p| == HEADER_SIZE + PayloadSize(p) + CrcBytes(p)
  }

  predicate AllWellFormed(ps: seq<bytes>) {
    forall i :: 0 <= i < |ps| ==> WellFormed(ps[i])
  }

  /** With both major versions zero the ranges meet: no minor version is refused. */
  lemma CompatibleExactly(p: bytes)
    requires |p| >= HEADER_SIZE
    ensures Compatible(p) <==> U16At(p, 4) == 0
  {
  }

  /** The two size computations of the program agree with each other and with the true size
      exactly when the true size fits sixteen bits. */
  lemma SizesAgree(p: bytes)
    requires |p| >= HEADER_SIZE
    ensures
      var size := HEADER_SIZE + PayloadSize(p) + CrcBytes(p);
      size <= MAX_SIZE <==> PacketSize(p) == ExpectedSize(p) == size
  {
  }

  /** A header followed by anything keeps its fields. */
  lemma HeaderOfPrefix(p: bytes, rest: bytes)
    requires |p| >= HEADER_SIZE
    ensures HasMarker(p + rest) == HasMarker(p)
    ensures PayloadSize(p + rest) == PayloadSize(p) && CrcBytes(p + rest) == CrcBytes(p)
    ensures PacketSize(p + rest) == PacketSize(p) && ExpectedSize(p + rest) == ExpectedSize(p)
  {
  }

  // ---------------------------------------------------------------- streams of packets

  /** Packets placed end to end. */
  function Concat(ps: seq<bytes>): bytes {
    if ps == [] then [] else ps[0] + Concat(ps[1..])
  }

  /** Whether a complete packet starts the byte string. */
  predicate StartsPacket(s: bytes) {
    |s| >= HEADER_SIZE && HasMarker(s) && HEADER_SIZE <= PacketSize(s) <= |s|
      && PacketSize(s) == HEADER_SIZE + PayloadSize(s) + CrcBytes(s)
  }

  /** Cut a byte string into packets; `None` when it is not packets from end to end. */
  function Split(s: bytes): Option<seq<bytes>> {
    if s == [] then Some([])
    else if !StartsPacket(s) then None
    else
      match Split(s[PacketSize(s)..])
      case None => None
      case Some(rest) => Some([s[..PacketSize(s)]] + rest)
  }

  lemma SplitHead(p: bytes, rest: bytes)
    requires WellFormed(p)
    ensures StartsPacket(p + rest) && PacketSize(p + rest) == |p|
    ensures (p + rest)[..|p|] == p && (p + rest)[|p|..] == rest
  {
  }

  /** Cutting undoes joining: packets are recovered exactly, one for one and in order. */
  lemma {:induction false} SplitConcat(ps: seq<bytes>)
    requires AllWellFormed(ps)
    ensures Split(Concat(ps)) == Some(ps)
  {
    if ps != [] {
      SplitHead(ps[0], Concat(ps[1..]));
      SplitConcat(ps[1..]);
      assert ps == [ps[0]] + ps[1..];
    }
  }

  /** Joining undoes cutting, and everything cut off is well formed. */
  lemma {:induction false} ConcatSplit(s: bytes)
    requires Split(s).Some?
    ensures AllWellFormed(Split(s).value) && Concat(Split(s).value) == s
    decreases |s|
  {
    if s != [] {
      var n := PacketSize(s);
      ConcatSplit(s[n..]);
      assert s == s[..n] + s[n..];
      HeaderOfPrefix(s[..n], s[n..]);
      assert Split(s).value[1..] == Split(s[n..]).value;
    }
  }

  lemma {:induction false} ConcatAppend(a: seq<bytes>, b: seq<bytes>)
    ensures Concat(a + b) == Concat(a) + Concat(b)
  {
    if a == [] {
      assert a + b == b;
    } else {
      assert (a + b)[1..] == a[1..] + b;
      ConcatAppend(a[1..], b);
    }
  }

  /** Streams that cut into packets can be joined. */
  lemma SplitAppend(s: bytes, t: bytes)
    requires Split(s).Some? && Split(t).Some?
    ensures Split(s + t) == Some(Split(s).value + Split(t).value)
  {
    ConcatSplit(s);
    ConcatSplit(t);
    ConcatAppend(Split(s).value, Split(t).value);
    SplitConcat(Split(s).value + Split(t).value);
  }

  lemma SplitOne(p: bytes)
    requires WellFormed(p)
    ensures Split(p) == Some([p])
  {
    assert Concat([p]) == p + [] == p;
    SplitConcat([p]);
  }
}
