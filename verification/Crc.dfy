/** The 16-bit CRC of `3escore/Crc.cpp`: generator 0x1021, most significant bit first, preset
    0xFFFF and no final inversion. A `uint16_t` register is modelled by its sixteen bits, so that
    shifts and exclusive-ors are operations on bit strings. */
module Crc {
  import opened Bytes
  import opened Gf2
  import opened Words

  /** The low coefficients of x^16 + x^12 + x^5 + 1, the number 0x1021 of the source. */
  function Generator(): (g: word16)
    ensures g[15]
  {
    [false, false, false, true, false, false, false, false,
     false, false, true, false, false, false, false, true]
  }

  function Preset(): (w: word16)
    ensures forall i :: 0 <= i < 16 ==> w[i]
  {
    seq(16, _ => true)
  }

  /** The generator is the number 0x1021 of the source. */
  lemma GeneratorValue()
    ensures NatOf(Generator()) == 0x1021
  {
    assert Generator()[..16] == Generator();
    NatOfNibble(Generator(), 0);
    NatOfNibble(Generator(), 4);
    NatOfNibble(Generator(), 8);
    NatOfNibble(Generator(), 12);
  }

  // ---------------------------------------------------------------- bytes as bits

  function BitsOfByte(b: byte): (s: bits)
    ensures |s| == 8
  {
    BitsOfNat(b, 8)
  }

  /** The bits of a message in transmission order. */
  function BitsOf(m: bytes): (s: bits)
    ensures |s| == 8 * |m|
  {
    if m == [] then [] else BitsOf(m[..|m| - 1]) + BitsOfByte(m[|m| - 1])
  }

  /** The number a group of eight bits spells. */
  function ByteOf(s: bits): byte
    requires |s| == 8
  {
    BitsOfNatOf(s);
    Pow2Of8();
    NatOf(s)
  }

  lemma Pow2Of8()
    ensures Pow2(8) == 0x100
  {
  }

  lemma ByteOfBits(b: byte)
    ensures ByteOf(BitsOfByte(b)) == b
  {
    Pow2Of8();
    NatOfBitsOfNat(b, 8);
  }

  lemma {:induction false} BitsOfConcat(a: bytes, b: bytes)
    ensures BitsOf(a + b) == BitsOf(a) + BitsOf(b)
    decreases b
  {
    if b == [] {
      assert a + b == a;
    } else {
      assert (a + b)[..|a + b| - 1] == a + b[..|b| - 1];
      BitsOfConcat(a, b[..|b| - 1]);
    }
  }

  // ---------------------------------------------------------------- the table

  /** What `initTable` leaves in the table for a dividend: eight division steps applied to the
      dividend followed by zeros. */
  function TableEntry(g: word16, dividend: bits): word16
    requires |dividend| == 8
  {
    Steps(g, dividend + Zero(8), 8)
  }

  /** One turn of the loop of `crc`: the index mixes the message byte with the top half of the
      remainder, and the table entry is mixed into the remainder shifted up by eight. */
  function TableStep(g: word16, r: word16, b: byte): word16 {
    Xor(TableEntry(g, Xor(BitsOfByte(b), r[..8])), r[8..] + Zero(8))
  }

  /** The checksum loop as a fold over the message from any starting remainder. */
  function CrcFrom(g: word16, r: word16, m: bytes): word16
    decreases m
  {
    if m == [] then r else TableStep(g, CrcFrom(g, r, m[..|m| - 1]), m[|m| - 1])
  }

  function Crc16(m: bytes): word16 {
    CrcFrom(Generator(), Preset(), m)
  }

  /** The table turns eight bit steps into one byte step. */
  lemma TableStepIsFeed(g: word16, r: word16, b: byte)
    ensures TableStep(g, r, b) == Feed(g, r, BitsOfByte(b))
  {
    var m := BitsOfByte(b);
    FeedIsMix(g, r, m);
    var high, low := Xor(m, r[..8]) + Zero(8), Zero(8) + r[8..];
    assert Xor(r, m + Zero(8)) == Xor(high, low);
    StepsLinear(g, high, low, 8);
    assert low[..8] == Zero(8);
    StepsOfLow(g, low, 8);
    assert low[8..] == r[8..];
  }

  /** The byte-at-a-time loop over the table computes the bit-serial division, for every generator,
      every message and every starting remainder. */
  lemma {:induction false} TableEqualsBitSerial(g: word16, r: word16, m: bytes)
    ensures CrcFrom(g, r, m) == Feed(g, r, BitsOf(m))
    decreases m
  {
    if m != [] {
      var front, last := m[..|m| - 1], m[|m| - 1];
      TableEqualsBitSerial(g, r, front);
      TableStepIsFeed(g, CrcFrom(g, r, front), last);
      FeedConcat(g, r, BitsOf(front), BitsOfByte(last));
    }
  }

  /** Superposition for messages of equal length. */
  lemma CrcLinear(g: word16, v: word16, w: word16, a: bytes, b: bytes, c: bytes)
    requires |a| == |b| == |c| && BitsOf(c) == Xor(BitsOf(a), BitsOf(b))
    ensures CrcFrom(g, Xor(v, w), c) == Xor(CrcFrom(g, v, a), CrcFrom(g, w, b))
  {
    TableEqualsBitSerial(g, Xor(v, w), c);
    TableEqualsBitSerial(g, v, a);
    TableEqualsBitSerial(g, w, b);
    FeedLinear(g, v, w, BitsOf(a), BitsOf(b));
  }

  /** The checksum of any message is the remainder, on long division by x^16 + x^12 + x^5 + 1, of the
      message with sixteen zeros appended and then its first sixteen bits inverted. */
  lemma CrcIsPolynomialRemainder(m: bytes)
    ensures Crc16(m) == Remainder(Generator(), Xor(BitsOf(m) + Zero(16), Preset() + Zero(|BitsOf(m)|)))
  {
    TableEqualsBitSerial(Generator(), Preset(), m);
    FeedIsStartedRemainder(Generator(), Preset(), BitsOf(m));
  }

  // ---------------------------------------------------------------- the program

  /** The CRC calculator: a table of 256 words filled once by the constructor. */
  class CrcCalc {
    const initialRemainder: word16
    ghost const polynomial: word16
    const table: array<word16>

    ghost predicate Valid()
      reads table
    {
      && table.Length == 0x100
      && forall d: byte :: table[d] == TableEntry(polynomial, BitsOfByte(d))
    }

    constructor (initialRemainder: word16, polynomial: word16)
      ensures Valid() && fresh(table)
      ensures this.initialRemainder == initialRemainder && this.polynomial == polynomial
    {
      this.initialRemainder := initialRemainder;
      this.polynomial := polynomial;
      var entries := InitTable(polynomial);
      table := entries;
    }

    static method InitTable(polynomial: word16) returns (table: array<word16>)
      ensures fresh(table) && table.Length == 0x100
      ensures forall d: byte :: table[d] == TableEntry(polynomial, BitsOfByte(d))
    {
      table := new word16[0x100];
      for dividend := 0 to 0x100
        invariant forall d :: 0 <= d < dividend ==> table[d] == TableEntry(polynomial, BitsOfByte(d))
      {
        var entry := DivideByte(polynomial, dividend);
        table[dividend] := entry;
      }
    }

    /** The inner loop of `initTable`. */
    static method DivideByte(polynomial: word16, dividend: byte) returns (remainder: word16)
      ensures remainder == TableEntry(polynomial, BitsOfByte(dividend))
    {
      remainder := BitsOfByte(dividend) + Zero(8);
      var bit := 8;
      while bit > 0
        invariant 0 <= bit <= 8
        invariant Steps(polynomial, remainder, bit) == TableEntry(polynomial, BitsOfByte(dividend))
      {
        var shifted := remainder[1..] + [false];
        remainder := if remainder[0] then Xor(shifted, polynomial) else shifted;
        bit := bit - 1;
      }
    }

    /** The checksum of the first `byteCount` bytes of a message. */
    method Crc(message: bytes, byteCount: nat) returns (remainder: word16)
      requires Valid() && byteCount <= |message|
      ensures remainder == CrcFrom(polynomial, initialRemainder, message[..byteCount])
    {
      remainder := initialRemainder;
      for i := 0 to byteCount
        invariant remainder == CrcFrom(polynomial, initialRemainder, message[..i])
      {
        var index := Xor(BitsOfByte(message[i]), remainder[..8]);
        BitsOfNatOf(index);
        assert message[..i + 1][..i] == message[..i];
        remainder := Xor(table[ByteOf(index)], remainder[8..] + Zero(8));
      }
    }
  }
}
