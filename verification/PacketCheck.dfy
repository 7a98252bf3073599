/** What `PacketReader::checkCrc` accepts, and which corruptions it is bound to reject. */
module PacketCheck {
  import opened Bytes
  import opened Gf2
  import opened Words
  import opened Crc
  import opened Packets

  /** The size of the part of a packet that its CRC covers. */
  function CoveredSize(p: bytes): nat
    requires |p| >= HEADER_SIZE
  {
    HEADER_SIZE + PayloadSize(p)
  }

  /** The bytes of a packet with a CRC are exactly header, payload and CRC. */
  predicate HasCrcField(p: bytes) {
    |p| >= HEADER_SIZE && !NoCrc(p) && |p| == CoveredSize(p) + CRC_SIZE
  }

  /** The outcome of `checkCrc` on a reader that has not validated its packet before. */
  predicate CheckCrc(p: bytes)
    requires |p| >= HEADER_SIZE && (NoCrc(p) || |p| >= CoveredSize(p) + CRC_SIZE)
  {
    NoCrc(p) || BitsOf(p[CoveredSize(p)..CoveredSize(p) + CRC_SIZE]) == Crc16(p[..CoveredSize(p)])
  }

  /** A checksum in network order. */
  function CrcToBytes(c: word16): (s: bytes)
    ensures |s| == CRC_SIZE
    ensures BitsOf(s) == c
  {
    var s := [ByteOf(c[..8]), ByteOf(c[8..])];
    BitsOfNatOf(c[..8]);
    BitsOfNatOf(c[8..]);
    assert s[..1] == [s[0]] && s[..0] == [];
    assert BitsOf([s[0]]) == BitsOf([]) + BitsOfByte(s[0]);
    assert [s[0]][..0] == [];
    s
  }

  /** Header and payload with their checksum put behind them. */
  function WithCrc(covered: bytes): (p: bytes)
    ensures |p| == |covered| + CRC_SIZE
  {
    covered + CrcToBytes(Crc16(covered))
  }

  /** Putting the checksum behind a header and its payload makes a packet that is accepted. */
  lemma WithCrcIsAccepted(covered: bytes)
    requires |covered| >= HEADER_SIZE && HasMarker(covered) && !NoCrc(covered)
    requires |covered| == CoveredSize(covered) <= MAX_SIZE - CRC_SIZE
    ensures WellFormed(WithCrc(covered)) && HasCrcField(WithCrc(covered)) && CheckCrc(WithCrc(covered))
  {
    var c := Crc16(covered);
    OwnCrcIsAccepted(WithCrc(covered), covered, c, CrcToBytes(c));
  }

  lemma OwnCrcIsAccepted(p: bytes, covered: bytes, c: word16, field: bytes)
    requires |covered| >= HEADER_SIZE && HasMarker(covered) && !NoCrc(covered)
    requires |covered| == CoveredSize(covered) <= MAX_SIZE - CRC_SIZE
    requires p == covered + field && c == Crc16(covered) && |field| == CRC_SIZE && BitsOf(field) == c
    ensures WellFormed(p) && HasCrcField(p) && CheckCrc(p)
  {
    HeaderOfPrefix(covered, field);
    var n := CoveredSize(p);
    assert n == |covered|;
    var front, back := p[..n], p[n..n + CRC_SIZE];
    assert front == covered && back == field;
    assert BitsOf(back) == Crc16(front);
  }

  /** A packet is accepted exactly when its own checksum, fed after everything else, clears the
      register. */
  lemma AcceptedIsClear(p: bytes)
    requires HasCrcField(p)
    ensures CheckCrc(p) <==> IsZero(Feed(Generator(), Preset(), BitsOf(p)))
  {
    var covered, field := p[..CoveredSize(p)], p[CoveredSize(p)..CoveredSize(p) + CRC_SIZE];
    assert p == covered + field;
    CrcFieldClears(p, covered, field);
  }

  lemma CrcFieldClears(p: bytes, covered: bytes, field: bytes)
    requires p == covered + field && |field| == CRC_SIZE
    ensures BitsOf(field) == Crc16(covered) <==> IsZero(Feed(Generator(), Preset(), BitsOf(p)))
  {
    BitsOfConcat(covered, field);
    TableEqualsBitSerial(Generator(), Preset(), covered);
    OwnRemainderClears(Generator(), Preset(), BitsOf(covered), BitsOf(field));
  }

  /** Where two byte strings of equal length differ, bit by bit. */
  function Difference(p: bytes, q: bytes): (e: bits)
    requires |p| == |q|
    ensures |e| == 8 * |p|
  {
    Xor(BitsOf(p), BitsOf(q))
  }

  /** The corruption leaves the fields alone that say where the CRC is and whether there is one. */
  predicate KeepsFraming(p: bytes, q: bytes)
    requires |p| == |q| >= HEADER_SIZE
  {
    PayloadSize(q) == PayloadSize(p) && NoCrc(q) == NoCrc(p)
  }

  /** The syndrome of a corrupted packet is that of the corruption alone. */
  lemma SyndromeOfDifference(p: bytes, q: bytes)
    requires HasCrcField(p) && |q| == |p| && KeepsFraming(p, q) && CheckCrc(p)
    ensures CheckCrc(q) <==> IsZero(Feed(Generator(), Zero(16), Difference(p, q)))
  {
    AcceptedIsClear(p);
    AcceptedIsClear(q);
    DifferenceClears(Generator(), Preset(), BitsOf(p), BitsOf(q));
  }

  /** A corruption goes unnoticed exactly when it is a multiple of the generator. */
  lemma UndetectedIffMultiple(p: bytes, q: bytes)
    requires HasCrcField(p) && |q| == |p| && KeepsFraming(p, q) && CheckCrc(p)
    ensures CheckCrc(q)
       <==> exists f :: |f| == 8 * |p| - 16 && Difference(p, q) == TimesGenerator(Generator(), f)
  {
    SyndromeOfDifference(p, q);
    ClearsOnMultiples(Generator(), Difference(p, q));
  }

  /** Where all bits agree, those of the last byte and of the others do. */
  lemma DifferenceByParts(p: bytes, q: bytes)
    requires |p| == |q| > 0 && IsZero(Difference(p, q))
    ensures IsZero(Difference(p[..|p| - 1], q[..|q| - 1]))
    ensures BitsOfByte(p[|p| - 1]) == BitsOfByte(q[|q| - 1])
  {
    var p', q', e := p[..|p| - 1], q[..|q| - 1], Difference(p, q);
    var b, c := BitsOfByte(p[|p| - 1]), BitsOfByte(q[|q| - 1]);
    assert BitsOf(p) == BitsOf(p') + b && BitsOf(q) == BitsOf(q') + c;
    forall i | 0 <= i < 8 * |p'|
      ensures !Difference(p', q')[i]
    {
      assert !e[i];
    }
    forall i | 0 <= i < 8
      ensures b[i] == c[i]
    {
      assert !e[8 * |p'| + i];
    }
  }

  lemma {:induction false} BitsOfInjective(p: bytes, q: bytes)
    requires |p| == |q| && IsZero(Difference(p, q))
    ensures p == q
    decreases |p|
  {
    if p != [] {
      DifferenceByParts(p, q);
      BitsOfInjective(p[..|p| - 1], q[..|q| - 1]);
      ByteOfBits(p[|p| - 1]);
      ByteOfBits(q[|q| - 1]);
      SameByParts(p, q);
    }
  }

  lemma SameByParts(p: bytes, q: bytes)
    requires |p| == |q| > 0 && p[..|p| - 1] == q[..|q| - 1] && p[|p| - 1] == q[|q| - 1]
    ensures p == q
  {
  }

  /** All changed bits lie within sixteen consecutive bits of the packet. */
  predicate IsBurst(p: bytes, q: bytes, start: nat)
    requires |p| == |q|
  {
    && start + 16 <= 8 * |p|
    && forall i :: 0 <= i < 8 * |p| && Difference(p, q)[i] ==> start <= i < start + 16
  }

  /** Every corruption confined to sixteen consecutive bits of header, payload or CRC is rejected,
      for every payload length, as long as it spares the payload size and the `PFNoCrc` bit. */
  lemma BurstIsDetected(p: bytes, q: bytes, start: nat)
    requires HasCrcField(p) && CheckCrc(p)
    requires |q| == |p| && q != p && KeepsFraming(p, q) && IsBurst(p, q, start)
    ensures !CheckCrc(q)
  {
    if IsZero(Difference(p, q)) {
      BitsOfInjective(p, q);
    }
    BurstDoesNotClear(Generator(), Difference(p, q), start);
    SyndromeOfDifference(p, q);
  }

  lemma GeneratorIsOdd()
    ensures Odd(Generator())
  {
    OddOfFour(false, false, false, true);
    OddOfFour(false, false, false, false);
    OddOfFour(false, false, true, false);
    var a, b, c := [false, false, false, true], [false, false, false, false], [false, false, true, false];
    OddOfConcat(a, b);
    OddOfConcat(a + b, c);
    OddOfConcat(a + b + c, a);
    assert Generator() == a + b + c + a;
  }

  /** Every corruption of an odd number of bits, wherever they are, is rejected. */
  lemma OddCorruptionIsDetected(p: bytes, q: bytes)
    requires HasCrcField(p) && CheckCrc(p)
    requires |q| == |p| && KeepsFraming(p, q) && Odd(Difference(p, q))
    ensures !CheckCrc(q)
  {
    GeneratorIsOdd();
    OddOfFeed(Generator(), Zero(16), Difference(p, q));
    if Odd(Zero(16)) {
      OddIsNonZero(Zero(16));
    }
    OddIsNonZero(Feed(Generator(), Zero(16), Difference(p, q)));
    SyndromeOfDifference(p, q);
  }

  /** Setting the `PFNoCrc` bit hides every other corruption, so the burst result cannot do
      without sparing it. */
  lemma NoCrcBitHidesEverything(q: bytes)
    requires |q| >= HEADER_SIZE && NoCrc(q)
    ensures CheckCrc(q)
  {
  }
}
