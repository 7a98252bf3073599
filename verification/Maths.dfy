/** `nextLog2(uint32_t)` of `3escore/Maths.h`, by which the collation buffer grows. */
module Maths {
  import opened Bytes
  import opened Gf2
  import opened Words

  function ShiftRight(w: bits, k: nat): (v: bits)
    requires k <= |w|
    ensures |v| == |w| && forall i :: 0 <= i < |w| ==> v[i] == (i >= k && w[i - k])
  {
    Zero(k) + w[..|w| - k]
  }

  function Or(a: bits, b: bits): (c: bits)
    requires |a| == |b|
    ensures |c| == |a| && forall i :: 0 <= i < |a| ==> c[i] == (a[i] || b[i])
  {
    seq(|a|, i requires 0 <= i < |a| => a[i] || b[i])
  }

  /** A set bit of `w` less than `reach` places above place `i`, or at it. */
  ghost predicate SetAbove(w: bits, i: int, reach: nat) {
    exists j :: 0 <= j < |w| && i - reach < j <= i && w[j]
  }

  ghost predicate IsSmeared(w: bits, from: bits, reach: nat)
    requires |w| == |from|
  {
    forall i :: 0 <= i < |w| ==> w[i] == SetAbove(from, i, reach)
  }

  /** One line of the source doubles the reach. */
  lemma SmearOnce(w: bits, from: bits, reach: nat)
    requires |w| == |from| && 0 < reach <= |w| && IsSmeared(w, from, reach)
    ensures IsSmeared(Or(w, ShiftRight(w, reach)), from, 2 * reach)
  {
  }

  /** Zeros down to the leading one and ones from there on. */
  lemma {:induction false} NatOfOnes(w: bits, k: nat)
    requires k <= |w| && forall i :: 0 <= i < |w| ==> w[i] == (i >= k)
    ensures NatOf(w) == Pow2(|w| - k) - 1
    decreases |w|
  {
    if k == |w| {
      NatOfZeros(w);
    } else {
      NatOfOnes(w[..|w| - 1], k);
    }
  }

  lemma {:induction false} NatOfZeros(w: bits)
    requires IsZero(w)
    ensures NatOf(w) == 0
  {
    if w != [] {
      assert forall i :: 0 <= i < |w| - 1 ==> w[..|w| - 1][i] == w[i];
      NatOfZeros(w[..|w| - 1]);
    }
  }

  /** A number lies between the powers of two that its leading one marks. */
  lemma {:induction false} LeadingOne(w: bits, k: nat)
    requires k < |w| && w[k] && IsZero(w[..k])
    ensures Pow2(|w| - 1 - k) <= NatOf(w) < Pow2(|w| - k)
    decreases |w|
  {
    var front := w[..|w| - 1];
    if k == |w| - 1 {
      assert front == w[..k];
      NatOfZeros(front);
    } else {
      assert front[..k] == w[..k];
      LeadingOne(front, k);
    }
  }

  ghost predicate IsPow2(n: nat) {
    exists e: nat :: n == Pow2(e)
  }

  lemma {:induction false} Pow2Monotone(a: nat, b: nat)
    requires a <= b
    ensures Pow2(a) <= Pow2(b)
    decreases b
  {
    if a < b {
      Pow2Monotone(a, b - 1);
    }
  }

  lemma Pow2Of32()
    ensures Pow2(31) == 0x8000_0000 && Pow2(32) == 0x1_0000_0000
  {
    assert Pow2(4) == 0x10;
    assert Pow2(8) == 0x100;
    assert Pow2(12) == 0x1000;
    assert Pow2(16) == 0x1_0000;
    assert Pow2(20) == 0x10_0000;
    assert Pow2(24) == 0x100_0000;
    assert Pow2(28) == 0x1000_0000;
  }

  /** The decremented number, smeared and incremented, when it has a leading one at `k`. */
  lemma SmearedIsNextPower(from: bits, w: bits, k: nat)
    requires |w| == |from| && k < |from| && from[k] && IsZero(from[..k]) && IsSmeared(w, from, |w|)
    ensures NatOf(w) + 1 == Pow2(|w| - k)
    ensures Pow2(|w| - 1 - k) <= NatOf(from) < Pow2(|w| - k)
  {
    LeadingOne(from, k);
    assert forall i :: 0 <= i < k ==> from[i] == from[..k][i];
    forall i | 0 <= i < |w|
      ensures w[i] == (i >= k)
    {
      assert w[i] == SetAbove(from, i, |w|);
    }
    NatOfOnes(w, k);
  }

  lemma {:induction false} FirstOne(w: bits) returns (k: nat)
    requires !IsZero(w)
    ensures k < |w| && w[k] && IsZero(w[..k])
  {
    if w[0] {
      k := 0;
    } else {
      var i :| 0 <= i < |w| && w[i];
      assert w[1..][i - 1];
      k := FirstOne(w[1..]);
      assert forall i :: 0 < i < k + 1 ==> w[i] == w[1..][..k][i - 1];
      k := k + 1;
    }
  }

  /** A power of two that is the least one above some number. */
  lemma LeastPower(e: nat, value: nat)
    requires e > 0 ==> Pow2(e - 1) < value
    requires 1 <= value <= Pow2(e)
    ensures IsLeastPower(Pow2(e), value)
  {
    forall p: nat | IsPow2(p) && value <= p
      ensures Pow2(e) <= p
    {
      var f: nat :| p == Pow2(f);
      if f < e {
        Pow2Monotone(f, e - 1);
      } else {
        Pow2Monotone(e, f);
      }
    }
  }

  ghost predicate IsLeastPower(r: nat, value: nat) {
    IsPow2(r) && value <= r && forall p: nat :: IsPow2(p) && value <= p ==> r <= p
  }

  /** The least power of a small number is small. */
  lemma SmallPower(r: nat, value: nat)
    requires IsLeastPower(r, value) && value <= 0x10_0000
    ensures r <= 0x10_0000
  {
    assert Pow2(4) == 0x10;
    assert Pow2(8) == 0x100;
    assert Pow2(12) == 0x1000;
    assert Pow2(16) == 0x1_0000;
    assert 0x10_0000 == Pow2(20);
    assert IsPow2(0x10_0000);
  }

  lemma NextPower(from: bits, w: bits)
    requires |from| == |w| == 32 && IsSmeared(w, from, 32)
    ensures NatOf(from) < 0x8000_0000 ==> IsLeastPower(NatOf(w) + 1, NatOf(from) + 1) && NatOf(w) < 0x8000_0000
    ensures NatOf(from) >= 0x8000_0000 ==> NatOf(w) + 1 == 0x1_0000_0000
  {
    Pow2Of32();
    if IsZero(from) {
      NatOfZeros(from);
      forall i | 0 <= i < 32
        ensures !w[i]
      {
        assert w[i] == SetAbove(from, i, 32);
      }
      NatOfZeros(w);
      LeastPower(0, 1);
    } else {
      var k := FirstOne(from);
      SmearedIsNextPower(from, w, k);
      if k > 0 {
        Pow2Monotone(32 - k, 31);
        LeastPower(32 - k, NatOf(from) + 1);
      }
    }
  }

  method Smear(from: bits) returns (w: bits)
    requires |from| == 32
    ensures |w| == 32 && IsSmeared(w, from, 32)
  {
    SmearNothing(from);
    SmearOnce(from, from, 1);
    w := Or(from, ShiftRight(from, 1));
    SmearOnce(w, from, 2);
    w := Or(w, ShiftRight(w, 2));
    SmearOnce(w, from, 4);
    w := Or(w, ShiftRight(w, 4));
    SmearOnce(w, from, 8);
    w := Or(w, ShiftRight(w, 8));
    SmearOnce(w, from, 16);
    w := Or(w, ShiftRight(w, 16));
  }

  lemma SmearNothing(w: bits)
    ensures IsSmeared(w, w, 1)
  {
  }

  /** The least power of two that is no less than the value, for every value that has one in 32
      bits; zero for zero and for all larger values. */
  method NextLog2(value: uint32) returns (r: uint32)
    ensures 1 <= value <= 0x8000_0000 ==> IsLeastPower(r, value)
    ensures value == 0 || value > 0x8000_0000 ==> r == 0
  {
    var below := if value == 0 then 0xFFFF_FFFF else value - 1;
    Pow2Of32();
    NatOfBitsOfNat(below, 32);
    var w := Smear(BitsOfNat(below, 32));
    NextPower(BitsOfNat(below, 32), w);
    r := (NatOf(w) + 1) % 0x1_0000_0000;
  }
}
