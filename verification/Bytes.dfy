/** Byte strings and the big-endian (network order) encodings of unsigned integers.
    Bytes are small integers; only the CRC looks at their individual bits. */
module Bytes {

  type byte = x: int | 0 <= x < 0x100

  type bytes = seq<byte>

  type uint16 = x: int | 0 <= x < 0x1_0000

  type uint32 = x: int | 0 <= x < 0x1_0000_0000

  datatype Option<+T> = None | Some(value: T)

  /** The big-endian number spelled by a byte string of any length. */
  function ValueOf(s: bytes): nat {
    if s == [] then 0 else ValueOf(s[..|s| - 1]) * 0x100 + s[|s| - 1]
  }

  /** The big-endian spelling of a number in exactly `width` bytes; higher digits are dropped. */
  function Spell(n: nat, width: nat): (s: bytes)
    ensures |s| == width
  {
    if width == 0 then [] else Spell(n / 0x100, width - 1) + [n % 0x100]
  }

  function Pow256(k: nat): nat {
    if k == 0 then 1 else 0x100 * Pow256(k - 1)
  }

  /** Spelling a number and reading it back keeps its low `width` digits. */
  lemma {:induction false} ValueOfSpell(n: nat, width: nat)
    requires n < Pow256(width)
    ensures ValueOf(Spell(n, width)) == n
  {
    if width != 0 {
      ValueOfSpell(n / 0x100, width - 1);
      assert Spell(n, width)[..width - 1] == Spell(n / 0x100, width - 1);
    }
  }

  /** Reading a byte string and spelling the number gives the byte string back. */
  lemma {:induction false} SpellValueOf(s: bytes)
    ensures ValueOf(s) < Pow256(|s|)
    ensures Spell(ValueOf(s), |s|) == s
  {
    if s != [] {
      SpellValueOf(s[..|s| - 1]);
      assert s[..|s| - 1] + [s[|s| - 1]] == s;
    }
  }

  /** The two-byte big-endian number at `offset`. */
  function U16At(s: bytes, offset: nat): uint16
    requires offset + 2 <= |s|
  {
    s[offset] as int * 0x100 + s[offset + 1]
  }

  /** The four-byte big-endian number at `offset`. */
  function U32At(s: bytes, offset: nat): uint32
    requires offset + 4 <= |s|
  {
    U16At(s, offset) as int * 0x1_0000 + U16At(s, offset + 2)
  }

  function U16(n: uint16): (s: bytes)
    ensures |s| == 2 && U16At(s, 0) == n
  {
    [n / 0x100, n % 0x100]
  }

  function U32(n: uint32): (s: bytes)
    ensures |s| == 4 && U32At(s, 0) == n
  {
    U16(n / 0x1_0000) + U16(n % 0x1_0000)
  }

  function Zeros(n: nat): (s: bytes)
    ensures |s| == n && forall i :: 0 <= i < n ==> s[i] == 0
  {
    seq(n, _ => 0)
  }

  /** `std::vector::resize`, where `filler` is what new elements are. */
  function Resized<T>(s: seq<T>, n: nat, filler: T): (r: seq<T>)
    ensures |r| == n
  {
    if n <= |s| then s[..n] else s + seq(n - |s|, _ => filler)
  }

  lemma Regroup<T>(a: seq<T>, b: seq<T>, c: seq<T>)
    ensures a + b + c == a + (b + c) && (a == [] ==> a + (b + c) == b + c)
  {
  }

  lemma PrefixGrows<T>(s: seq<T>, i: nat)
    requires i < |s|
    ensures s[..i + 1] == s[..i] + [s[i]]
  {
  }

  /** The byte reversal that `networkEndianSwap` performs on a little-endian host. */
  function Reverse<T>(s: seq<T>): (r: seq<T>)
    ensures |r| == |s|
    ensures forall i :: 0 <= i < |s| ==> r[i] == s[|s| - 1 - i]
  {
    seq(|s|, i requires 0 <= i < |s| => s[|s| - 1 - i])
  }
}
