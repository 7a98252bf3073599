/** Machine words as their bits, most significant first. */
module Words {
  import opened Gf2

  /** The unsigned number a word spells. */
  function NatOf(w: bits): nat {
    if w == [] then 0 else 2 * NatOf(w[..|w| - 1]) + (if w[|w| - 1] then 1 else 0)
  }

  /** The low `width` bits of a number. */
  function BitsOfNat(n: nat, width: nat): (w: bits)
    ensures |w| == width
    decreases width
  {
    if width == 0 then [] else BitsOfNat(n / 2, width - 1) + [n % 2 == 1]
  }

  function Pow2(k: nat): (p: nat)
    ensures p >= 1
  {
    if k == 0 then 1 else 2 * Pow2(k - 1)
  }

  lemma {:induction false} BitsOfNatOf(w: bits)
    ensures NatOf(w) < Pow2(|w|)
    ensures BitsOfNat(NatOf(w), |w|) == w
  {
    if w != [] {
      BitsOfNatOf(w[..|w| - 1]);
      assert w[..|w| - 1] + [w[|w| - 1]] == w;
    }
  }

  lemma {:induction false} NatOfBitsOfNat(n: nat, width: nat)
    requires n < Pow2(width)
    ensures NatOf(BitsOfNat(n, width)) == n
    decreases width
  {
    if width != 0 {
      NatOfBitsOfNat(n / 2, width - 1);
      assert BitsOfNat(n, width)[..width - 1] == BitsOfNat(n / 2, width - 1);
    }
  }

  lemma NatOfPrefix(w: bits, k: nat)
    requires k < |w|
    ensures NatOf(w[..k + 1]) == 2 * NatOf(w[..k]) + (if w[k] then 1 else 0)
  {
    assert w[..k + 1][..k] == w[..k];
  }

  function Digit(b: bool): nat {
    if b then 1 else 0
  }

  lemma NatOfNibble(w: bits, k: nat)
    requires k + 4 <= |w|
    ensures NatOf(w[..k + 4])
         == 16 * NatOf(w[..k]) + 8 * Digit(w[k]) + 4 * Digit(w[k + 1]) + 2 * Digit(w[k + 2]) + Digit(w[k + 3])
  {
    NatOfPrefix(w, k);
    NatOfPrefix(w, k + 1);
    NatOfPrefix(w, k + 2);
    NatOfPrefix(w, k + 3);
  }
}
