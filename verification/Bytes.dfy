/** Octets, their bits, and the 16-bit words built from them.
    An octet is an integer below 256, so that lengths and header fields are plain arithmetic; the CRC
    works on `bv16`, and the two views meet in the bit sequences of this module. */
module Bytes {

  type byte = x: int | 0 <= x < 256

  datatype Option<+T> = None | Some(value: T)

  /** The `n` low bits of `x`, least significant first. */
  function Bits(x: nat, n: nat): (s: seq<bool>)
    ensures |s| == n
  {
    if n == 0 then [] else [x % 2 == 1] + Bits(x / 2, n - 1)
  }

  /** The number whose bits, least significant first, are `s`. */
  function Number(s: seq<bool>): nat {
    if s == [] then 0 else (if s[0] then 1 else 0) + 2 * Number(s[1..])
  }

  function Pow2(n: nat): (p: nat)
    ensures p > 0
  {
    if n == 0 then 1 else 2 * Pow2(n - 1)
  }

  lemma {:induction false} NumberBound(s: seq<bool>)
    ensures Number(s) < Pow2(|s|)
  {
    if s == [] {
    } else {
      NumberBound(s[1..]);
    }
  }

  lemma {:induction false} BitsOfNumber(s: seq<bool>)
    ensures Bits(Number(s), |s|) == s
  {
    if s == [] {
    } else {
      BitsOfNumber(s[1..]);
      assert Number(s) / 2 == Number(s[1..]);
    }
  }

  lemma {:induction false} NumberOfBits(x: nat, n: nat)
    requires x < Pow2(n)
    ensures Number(Bits(x, n)) == x
  {
    if n == 0 {
    } else {
      NumberOfBits(x / 2, n - 1);
      assert Bits(x, n)[1..] == Bits(x / 2, n - 1);
    }
  }

  lemma Pow2Of8()
    ensures Pow2(8) == 256
  {
    assert Pow2(4) == 16;
  }

  // ---- words ----

  function Weight(b: bool, w: bv16): bv16 {
    if b then w else 0
  }

  function Join8(b0: bool, b1: bool, b2: bool, b3: bool, b4: bool, b5: bool, b6: bool, b7: bool): bv16 {
    Weight(b0, 0x01) | Weight(b1, 0x02) | Weight(b2, 0x04) | Weight(b3, 0x08) |
    Weight(b4, 0x10) | Weight(b5, 0x20) | Weight(b6, 0x40) | Weight(b7, 0x80)
  }

  /** The word holding eight bits in its low octet. */
  function WordOfBits(s: seq<bool>): bv16
    requires |s| == 8
  {
    Join8(s[0], s[1], s[2], s[3], s[4], s[5], s[6], s[7])
  }

  /** The eight bits of the low octet of a word. */
  function BitsOfWord(x: bv16): (s: seq<bool>)
    ensures |s| == 8
  {
    [x & 0x01 != 0, x & 0x02 != 0, x & 0x04 != 0, x & 0x08 != 0,
     x & 0x10 != 0, x & 0x20 != 0, x & 0x40 != 0, x & 0x80 != 0]
  }

  /** C's promotion of a `uint8_t` to a `uint16_t`. */
  function Word(b: byte): bv16 {
    WordOfBits(Bits(b, 8))
  }

  /** C's truncation of a `uint16_t` to a `uint8_t`. */
  function Low(x: bv16): (b: byte)
  {
    var n := Number(BitsOfWord(x));
    NumberBound(BitsOfWord(x));
    Pow2Of8();
    n
  }

  lemma WordIsOctet(b: byte)
    ensures Word(b) & 0xff00 == 0
  {}

  lemma LowOfWord(b: byte)
    ensures Low(Word(b)) == b
  {
    BitsRoundTrip(Bits(b, 8));
    Pow2Of8();
    NumberOfBits(b, 8);
  }

  lemma Join8Bits(b0: bool, b1: bool, b2: bool, b3: bool, b4: bool, b5: bool, b6: bool, b7: bool)
    ensures BitsOfWord(Join8(b0, b1, b2, b3, b4, b5, b6, b7)) == [b0, b1, b2, b3, b4, b5, b6, b7]
  {}

  lemma SplitJoin8(t: seq<bool>)
    requires |t| == 8 && t == [t[0], t[1], t[2], t[3], t[4], t[5], t[6], t[7]]
    ensures BitsOfWord(WordOfBits(t)) == t
  {
    hide Join8, BitsOfWord;
    Join8Bits(t[0], t[1], t[2], t[3], t[4], t[5], t[6], t[7]);
  }

  lemma BitsRoundTrip(s: seq<bool>)
    requires |s| == 8
    ensures BitsOfWord(WordOfBits(s)) == s
  {
    var t := [s[0], s[1], s[2], s[3], s[4], s[5], s[6], s[7]];
    assert s == t;
    SplitJoin8(t);
  }

  lemma WordOfLow(x: bv16)
    ensures Word(Low(x)) == x & 0xff
  {
    BitsOfNumber(BitsOfWord(x));
    OctetOfBits(x);
  }

  lemma OctetOfBits(x: bv16)
    ensures WordOfBits(BitsOfWord(x)) == x & 0xff
  {}
}
