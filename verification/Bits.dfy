/** The byte reversal of common.c, single bits of words, and the integer value of a run of bits received least
    significant bit first. */
module Bits {
  // ------------------------------------------------------------ common.c

  function ReverseU8(v: bv8): bv8 {
    var v1 := ((v & 0xcc) >> 2) | ((v & 0x33) << 2);
    var v2 := ((v1 & 0xaa) >> 1) | ((v1 & 0x55) << 1);
    (v2 >> 4) | (v2 << 4)
  }

  lemma ReverseU8Bits(v: bv8, i: bv8)
    requires i < 8
    ensures (ReverseU8(v) >> i) & 1 == (v >> (7 - i)) & 1
    ensures ReverseU8(ReverseU8(v)) == v
  {
  }

  predicate Odd(w: bv32) {
    w & 1 == 1
  }

  /** Bit j of a word: it is moved down j places and its lowest bit looked at. */
  predicate BitAt(w: bv32, j: nat)
    decreases j
  {
    if j == 0 then w & 1 == 1 else BitAt(w >> 1, j - 1)
  }

  function One(b: bool): bv32 {
    if b then 1 else 0
  }

  // ------------------------------------------- words received bit by bit

  function Pow2(n: nat): (p: nat)
    ensures p > 0
  {
    if n == 0 then 1 else 2 * Pow2(n - 1)
  }

  function Bit(b: bool): nat {
    if b then 1 else 0
  }

  /** The number whose bits are s, least significant first. */
  function FromBits(s: seq<bool>): nat {
    if s == [] then 0 else Bit(s[0]) + 2 * FromBits(s[1..])
  }

  /** One more bit on top. */
  lemma {:induction false} FromBitsSnoc(s: seq<bool>, b: bool)
    ensures FromBits(s + [b]) == FromBits(s) + Bit(b) * Pow2(|s|)
    ensures FromBits(s) < Pow2(|s|)
  {
    if s == [] {
      assert s + [b] == [b];
    } else {
      FromBitsSnoc(s[1..], b);
      assert (s + [b])[1..] == s[1..] + [b];
    }
  }
}
