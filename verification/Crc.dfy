/** The CCITT data integrity check of the three-wire UART transport (Bluetooth Core Specification,
    Vol 4, Part D, section 5), as `hciattach_rtk.c` computes it: one table step per nibble. */
module Crc {
  import opened Bytes

  const INIT: bv16 := 0xffff
  const POLYNOMIAL: bv16 := 0x8408

  function CrcTable(n: bv16): bv16 {
    if n == 0 then 0x0000 else if n == 1 then 0x1081 else if n == 2 then 0x2102 else if n == 3 then 0x3183
    else if n == 4 then 0x4204 else if n == 5 then 0x5285 else if n == 6 then 0x6306 else if n == 7 then 0x7387
    else if n == 8 then 0x8408 else if n == 9 then 0x9489 else if n == 10 then 0xa50a else if n == 11 then 0xb58b
    else if n == 12 then 0xc60c else if n == 13 then 0xd68d else if n == 14 then 0xe70e else 0xf78f
  }

  /** One of the two table steps: the low nibble of `n` enters the register. */
  function NibbleStep(reg: bv16, n: bv16): bv16 {
    (reg >> 4) ^ CrcTable((reg ^ n) & 0x000f)
  }

  function Update(reg: bv16, d: byte): bv16 {
    NibbleStep(NibbleStep(reg, Word(d)), Word(d) >> 4)
  }

  /** The register after `s`, starting from `reg`. */
  function Run(reg: bv16, s: seq<byte>): bv16 {
    if |s| == 0 then reg else Update(Run(reg, s[..|s| - 1]), s[|s| - 1])
  }

  function CrcOf(s: seq<byte>): bv16 {
    Run(INIT, s)
  }

  lemma FirstZero()
    ensures NibbleStep(NibbleStep(INIT, 0), 0) == 0x0f87
  {}

  // ---- the reference: a bit register ----

  /** One clock of the reflected CCITT shift register. */
  function Clock(reg: bv16, bit: bool): bv16 {
    if (reg & 1 != 0) != bit then (reg >> 1) ^ POLYNOMIAL else reg >> 1
  }

  function Register(reg: bv16, bits: seq<bool>): bv16
    decreases bits
  {
    if bits == [] then reg else Register(Clock(reg, bits[0]), bits[1..])
  }

  /** The bits of a byte sequence in transmission order, least significant bit first. */
  function AllBits(s: seq<byte>): seq<bool> {
    if |s| == 0 then [] else AllBits(s[..|s| - 1]) + Bits(s[|s| - 1], 8)
  }

  lemma {:induction false} RegisterConcat(reg: bv16, a: seq<bool>, b: seq<bool>)
    ensures Register(reg, a + b) == Register(Register(reg, a), b)
    decreases a
  {
    if a == [] {
      assert a + b == b;
    } else {
      assert (a + b)[1..] == a[1..] + b;
      RegisterConcat(Clock(reg, a[0]), a[1..], b);
    }
  }

  lemma TableIsLinear(n: bv16)
    requires n < 16
    ensures CrcTable(n) == (n << 12) ^ (n << 7) ^ n
  {}

  /** Four clocks make one table step. */
  lemma FourClocks(reg: bv16, n: bv16)
    ensures NibbleStep(reg, n)
         == Clock(Clock(Clock(Clock(reg, n & 0x01 != 0), n & 0x02 != 0), n & 0x04 != 0), n & 0x08 != 0)
  {
    TableIsLinear((reg ^ n) & 0x000f);
  }

  lemma HighNibble(x: bv16)
    ensures (x >> 4) & 0x01 == 0 <==> x & 0x10 == 0
    ensures (x >> 4) & 0x02 == 0 <==> x & 0x20 == 0
    ensures (x >> 4) & 0x04 == 0 <==> x & 0x40 == 0
    ensures (x >> 4) & 0x08 == 0 <==> x & 0x80 == 0
  {}

  /** Eight clocks on the bits of a byte make one table-driven update. */
  lemma UpdateIsSerial(reg: bv16, d: byte)
    ensures Update(reg, d) == Register(reg, Bits(d, 8))
  {
    var s := Bits(d, 8);
    BitsRoundTrip(s);
    FourClocks(reg, Word(d));
    FourClocks(NibbleStep(reg, Word(d)), Word(d) >> 4);
    HighNibble(Word(d));
    assert s == BitsOfWord(Word(d));
    EightClocks(reg, s);
  }

  lemma EightClocks(reg: bv16, s: seq<bool>)
    requires |s| == 8
    ensures Register(reg, s)
         == Clock(Clock(Clock(Clock(Clock(Clock(Clock(Clock(reg, s[0]), s[1]), s[2]), s[3]), s[4]), s[5]), s[6]), s[7])
  {
    hide *;
    var r := Clock(Clock(Clock(Clock(reg, s[0]), s[1]), s[2]), s[3]);
    FourSerial(reg, s[..4]);
    FourSerial(r, s[4..]);
    assert s == s[..4] + s[4..];
    RegisterConcat(reg, s[..4], s[4..]);
  }

  lemma FourSerial(reg: bv16, s: seq<bool>)
    requires |s| == 4
    ensures Register(reg, s) == Clock(Clock(Clock(Clock(reg, s[0]), s[1]), s[2]), s[3])
  {
    hide Clock;
    assert s[1..][1..] == s[2..] && s[2..][1..] == s[3..] && s[3..][1..] == [];
    var r2 := Clock(Clock(reg, s[0]), s[1]);
    calc {
      Register(reg, s);
      Register(Clock(reg, s[0]), s[1..]);
      Register(r2, s[2..]);
      Register(Clock(r2, s[2]), s[3..]);
      Register(Clock(Clock(r2, s[2]), s[3]), []);
    }
  }

  /** `h5_crc_update`: two look-ups do the work of eight clocks. */
  method CrcUpdate(crc: bv16, d: byte) returns (reg: bv16)
    ensures reg == Register(crc, Bits(d, 8))
    ensures reg == Update(crc, d)
  {
    hide NibbleStep, Word, Bits;
    UpdateIsSerial(crc, d);
    reg := crc;
    reg := NibbleStep(reg, Word(d));
    reg := NibbleStep(reg, Word(d) >> 4);
  }

  /** The table-driven CRC of every byte sequence is the bit register's. */
  lemma {:induction false} CrcIsSerial(reg: bv16, s: seq<byte>)
    ensures Run(reg, s) == Register(reg, AllBits(s))
  {
    if s == [] {
    } else {
      var front := s[..|s| - 1];
      CrcIsSerial(reg, front);
      UpdateIsSerial(Run(reg, front), s[|s| - 1]);
      RegisterConcat(reg, AllBits(front), Bits(s[|s| - 1], 8));
    }
  }

  // ---- what the check detects ----

  /** A step can be undone from the bits of its result that are known. */
  lemma Undo0(r: bv16, s: bv16, n: bv16, m: bv16)
    requires NibbleStep(r, n) == NibbleStep(s, m)
    ensures (r ^ n) & 15 == (s ^ m) & 15 && r >> 4 == s >> 4
  {
    TableIsLinear((r ^ n) & 0x000f);
    TableIsLinear((s ^ m) & 0x000f);
  }

  lemma Undo4(r: bv16, s: bv16, n: bv16, m: bv16)
    requires NibbleStep(r, n) >> 4 == NibbleStep(s, m) >> 4
    ensures (r ^ n) & 15 == (s ^ m) & 15 && r >> 8 == s >> 8
  {
    TableIsLinear((r ^ n) & 0x000f);
    TableIsLinear((s ^ m) & 0x000f);
  }

  lemma Undo8(r: bv16, s: bv16, n: bv16, m: bv16)
    requires NibbleStep(r, n) >> 8 == NibbleStep(s, m) >> 8
    ensures (r ^ n) & 15 == (s ^ m) & 15 && r >> 12 == s >> 12
  {
    TableIsLinear((r ^ n) & 0x000f);
    TableIsLinear((s ^ m) & 0x000f);
  }

  lemma Undo12(r: bv16, s: bv16, n: bv16, m: bv16)
    requires NibbleStep(r, n) >> 12 == NibbleStep(s, m) >> 12
    ensures (r ^ n) & 15 == (s ^ m) & 15
  {
    TableIsLinear((r ^ n) & 0x000f);
    TableIsLinear((s ^ m) & 0x000f);
  }

  lemma SameNibble(r: bv16, n: bv16, m: bv16)
    requires (r ^ n) & 15 == (r ^ m) & 15
    ensures n & 15 == m & 15
  {}

  lemma SameReg(r: bv16, s: bv16, n: bv16)
    requires (r ^ n) & 15 == (s ^ n) & 15 && r >> 4 == s >> 4
    ensures r == s
  {}

  lemma SameOctet(n: bv16, m: bv16)
    requires n & 0xff00 == 0 && m & 0xff00 == 0
    requires n & 15 == m & 15 && (n >> 4) & 15 == (m >> 4) & 15
    ensures n == m
  {}

  lemma WordInjective(a: byte, b: byte)
    requires Word(a) & 15 == Word(b) & 15 && (Word(a) >> 4) & 15 == (Word(b) >> 4) & 15
    ensures a == b
  {
    WordIsOctet(a);
    WordIsOctet(b);
    SameOctet(Word(a), Word(b));
    LowOfWord(a);
    LowOfWord(b);
  }

  lemma SameStep(r: bv16, n: bv16, m: bv16)
    requires n & 15 == m & 15
    ensures NibbleStep(r, n) == NibbleStep(r, m)
  {
    assert (r ^ n) & 15 == (r ^ m) & 15;
  }

  lemma UpdateSteps(reg: bv16, d: byte)
    ensures Update(reg, d) == NibbleStep(NibbleStep(reg, Word(d)), Word(d) >> 4)
  {}

  lemma StepInjective(r: bv16, s: bv16, n: bv16)
    requires NibbleStep(r, n) == NibbleStep(s, n)
    ensures r == s
  {
    hide *;
    Undo0(r, s, n, n);
    SameReg(r, s, n);
  }

  /** No two registers are brought together by the same byte. */
  lemma UpdateInjective(r: bv16, s: bv16, d: byte)
    requires Update(r, d) == Update(s, d)
    ensures r == s
  {
    hide *;
    UpdateSteps(r, d);
    UpdateSteps(s, d);
    StepInjective(NibbleStep(r, Word(d)), NibbleStep(s, Word(d)), Word(d) >> 4);
    StepInjective(r, s, Word(d));
  }

  lemma UpperHalfTellsNibbles(r: bv16, n: bv16, m: bv16)
    requires NibbleStep(NibbleStep(r, n), n >> 4) >> 8 == NibbleStep(NibbleStep(r, m), m >> 4) >> 8
    ensures n & 15 == m & 15 && (n >> 4) & 15 == (m >> 4) & 15
  {
    hide *;
    Undo8(NibbleStep(r, n), NibbleStep(r, m), n >> 4, m >> 4);
    Undo12(r, r, n, m);
    SameNibble(r, n, m);
    SameStep(r, n, m);
    SameNibble(NibbleStep(r, n), n >> 4, m >> 4);
  }

  /** From one register, the upper half of the register after a byte already tells the byte. */
  lemma UpperHalfTellsByte(r: bv16, a: byte, b: byte)
    requires Update(r, a) >> 8 == Update(r, b) >> 8
    ensures a == b
  {
    hide *;
    UpdateSteps(r, a);
    UpdateSteps(r, b);
    UpperHalfTellsNibbles(r, Word(a), Word(b));
    WordInjective(a, b);
  }

  lemma SecondStep(r1: bv16, s1: bv16, n: bv16, m: bv16)
    requires NibbleStep(NibbleStep(r1, n), n >> 4) == NibbleStep(NibbleStep(s1, m), m >> 4)
    ensures r1 >> 8 == s1 >> 8
    ensures r1 == s1 ==> n & 15 == m & 15 && (n >> 4) & 15 == (m >> 4) & 15
  {
    hide *;
    Undo0(NibbleStep(r1, n), NibbleStep(s1, m), n >> 4, m >> 4);
    Undo4(r1, s1, n, m);
    if r1 == s1 {
      UpperHalfTellsNibbles(r1, n, m);
    }
  }

  /** From one register, the register after two bytes tells both. */
  lemma RegisterTellsTwoBytes(r: bv16, a: byte, b: byte, c: byte, d: byte)
    requires Update(Update(r, a), b) == Update(Update(r, c), d)
    ensures a == c && b == d
  {
    hide *;
    UpdateSteps(Update(r, a), b);
    UpdateSteps(Update(r, c), d);
    SecondStep(Update(r, a), Update(r, c), Word(b), Word(d));
    UpperHalfTellsByte(r, a, c);
    WordInjective(b, d);
  }

  lemma {:induction false} RunConcat(reg: bv16, a: seq<byte>, b: seq<byte>)
    ensures Run(reg, a + b) == Run(Run(reg, a), b)
  {
    if b == [] {
      assert a + b == a;
    } else {
      var front := b[..|b| - 1];
      assert (a + b)[..|a + b| - 1] == a + front;
      RunConcat(reg, a, front);
    }
  }

  lemma {:induction false} RunInjective(r: bv16, s: bv16, t: seq<byte>)
    requires Run(r, t) == Run(s, t)
    ensures r == s
  {
    if t == [] {
    } else {
      var front := t[..|t| - 1];
      UpdateInjective(Run(r, front), Run(s, front), t[|t| - 1]);
      RunInjective(r, s, front);
    }
  }

  /** `s` and `t` have the same length and agree outside positions `k` and `k + 1`. */
  ghost predicate AgreeOutside(s: seq<byte>, t: seq<byte>, k: nat) {
    && |s| == |t|
    && k + 1 < |s|
    && s[..k] == t[..k]
    && s[k + 2..] == t[k + 2..]
  }

  /** Two messages that differ, but only within two adjacent bytes, have different CRCs. */
  lemma AdjacentBytesDetected(s: seq<byte>, t: seq<byte>, k: nat)
    requires AgreeOutside(s, t, k) && s != t
    ensures CrcOf(s) != CrcOf(t)
  {
    hide Update, Run;
    if CrcOf(s) == CrcOf(t) {
      var r := CrcOf(s[..k]);
      assert s == s[..k] + [s[k], s[k + 1]] + s[k + 2..];
      assert t == t[..k] + [t[k], t[k + 1]] + t[k + 2..];
      RunSplit(s, k);
      RunSplit(t, k);
      RunInjective(Update(Update(r, s[k]), s[k + 1]), Update(Update(r, t[k]), t[k + 1]), s[k + 2..]);
      RegisterTellsTwoBytes(r, s[k], s[k + 1], t[k], t[k + 1]);
      assert false;
    }
  }

  /** The register starts from all ones, so that zero octets before a message count. */
  lemma LeadingZeroCounts(s: seq<byte>)
    ensures CrcOf([0]) == 0x0f87
    ensures CrcOf([0] + s) != CrcOf(s)
  {
    hide Update, NibbleStep;
    RunConcat(INIT, [0], s);
    ZeroOctet();
    assert [0][..0] == [];
    if CrcOf([0] + s) == CrcOf(s) {
      RunInjective(Update(INIT, 0), INIT, s);
    }
  }

  lemma ZeroOctet()
    ensures Update(INIT, 0) == 0x0f87
  {
    hide NibbleStep;
    assert Word(0) == 0;
    FirstZero();
  }

  lemma RunSplit(s: seq<byte>, k: nat)
    requires k + 1 < |s|
    ensures CrcOf(s) == Run(Update(Update(CrcOf(s[..k]), s[k]), s[k + 1]), s[k + 2..])
  {
    hide Update;
    assert s == s[..k + 2] + s[k + 2..];
    RunConcat(INIT, s[..k + 2], s[k + 2..]);
    assert s[..k + 2][..k + 1] == s[..k + 1] && s[..k + 1][..k] == s[..k];
  }

  // ---- the check field ----

  /** `bit_rev8` on the low octet: the entries of `byte_rev_table` by three swaps. */
  function BitRev8(x: bv16): bv16 {
    var a := ((x & 0x00f0) >> 4) | ((x & 0x000f) << 4);
    var b := ((a & 0x00cc) >> 2) | ((a & 0x0033) << 2);
    ((b & 0x00aa) >> 1) | ((b & 0x0055) << 1)
  }

  /** What the table is for: the bits of the octet in the opposite order. */
  lemma BitRev8Reverses(x: bv16)
    requires x & 0xff00 == 0
    ensures BitsOfWord(BitRev8(x)) ==
              [x & 0x80 != 0, x & 0x40 != 0, x & 0x20 != 0, x & 0x10 != 0,
               x & 0x08 != 0, x & 0x04 != 0, x & 0x02 != 0, x & 0x01 != 0]
  {
    var y := BitRev8(x);
    assert (y & 0x01 != 0) == (x & 0x80 != 0) && (y & 0x02 != 0) == (x & 0x40 != 0);
    assert (y & 0x04 != 0) == (x & 0x20 != 0) && (y & 0x08 != 0) == (x & 0x10 != 0);
    assert (y & 0x10 != 0) == (x & 0x08 != 0) && (y & 0x20 != 0) == (x & 0x04 != 0);
    assert (y & 0x40 != 0) == (x & 0x02 != 0) && (y & 0x80 != 0) == (x & 0x01 != 0);
  }

  function BitRev16(x: bv16): bv16 {
    (BitRev8(x & 0xff) << 8) | BitRev8(x >> 8)
  }

  lemma BitRev8Involution(x: bv16)
    requires x & 0xff00 == 0
    ensures BitRev8(x) & 0xff00 == 0 && BitRev8(BitRev8(x)) == x
  {}

  lemma BitRev16Involution(x: bv16)
    ensures BitRev16(BitRev16(x)) == x
  {
    BitRev8Involution(x & 0xff);
    BitRev8Involution(x >> 8);
    JoinHalves(BitRev8(x & 0xff), BitRev8(x >> 8));
    SplitHalves(x);
  }

  lemma JoinHalves(hi: bv16, lo: bv16)
    requires hi & 0xff00 == 0 && lo & 0xff00 == 0
    ensures ((hi << 8) | lo) & 0xff == lo && ((hi << 8) | lo) >> 8 == hi
  {}

  lemma SplitHalves(x: bv16)
    ensures ((x >> 8) << 8) | (x & 0xff) == x
    ensures (x >> 8) & 0xff00 == 0 && (x & 0xff) & 0xff00 == 0
    ensures (x >> 8) & 0xff == x >> 8
  {}

  /** The two check octets that follow a message, more significant first. */
  function CheckOctets(crc: bv16): (s: seq<byte>)
    ensures |s| == 2
  {
    [Low(BitRev16(crc) >> 8), Low(BitRev16(crc))]
  }

  /** `h5_get_crc`: the word made of two received check octets. */
  function GetCrc(s: seq<byte>): bv16
    requires |s| == 2
  {
    (Word(s[0]) << 8) | Word(s[1])
  }

  /** The receiver's comparison succeeds exactly on the octets the sender appends. */
  lemma CheckMatches(crc: bv16, s: seq<byte>)
    requires |s| == 2
    ensures BitRev16(crc) == GetCrc(s) <==> s == CheckOctets(crc)
  {
    hide *;
    CheckFields(crc, s);
    var x := BitRev16(crc);
    if x == GetCrc(s) {
      JoinHalves(Word(s[0]), Word(s[1]));
      LowOfJoin(x, s[0], s[1]);
    }
    JoinOfLow(x);
  }

  lemma CheckFields(crc: bv16, s: seq<byte>)
    requires |s| == 2
    ensures GetCrc(s) == (Word(s[0]) << 8) | Word(s[1])
    ensures s == CheckOctets(crc) <==> s[0] == Low(BitRev16(crc) >> 8) && s[1] == Low(BitRev16(crc))
    ensures Word(s[0]) & 0xff00 == 0 && Word(s[1]) & 0xff00 == 0
  {
    hide BitRev16, Low, Word;
    WordIsOctet(s[0]);
    WordIsOctet(s[1]);
  }

  lemma LowOfJoin(x: bv16, hi: byte, lo: byte)
    requires x & 0xff == Word(lo) && x >> 8 == Word(hi)
    ensures hi == Low(x >> 8) && lo == Low(x)
  {
    hide *;
    LowOfWord(hi);
    SameLow(x, lo);
  }

  lemma SameLow(x: bv16, lo: byte)
    requires x & 0xff == Word(lo)
    ensures lo == Low(x)
  {
    hide *;
    WordOfLow(x);
    LowOfWord(lo);
    LowOfWord(Low(x));
  }

  lemma JoinOfLow(x: bv16)
    ensures (Word(Low(x >> 8)) << 8) | Word(Low(x)) == x
  {
    hide *;
    WordOfLow(x >> 8);
    WordOfLow(x);
    SplitHalves(x);
  }

  /** Check octets that agree in the second octet come from registers that agree in the upper half. */
  lemma SecondOctet(r: bv16, s: bv16)
    requires CheckOctets(r)[1] == CheckOctets(s)[1]
    ensures r >> 8 == s >> 8
  {
    SecondOctetIsUpperHalf(r);
    SecondOctetIsUpperHalf(s);
  }

  lemma SecondOctetIsUpperHalf(r: bv16)
    ensures r >> 8 == BitRev8(Word(CheckOctets(r)[1]))
  {
    WordOfLow(BitRev16(r));
    SplitHalves(r);
    BitRev8Involution(r & 0xff);
    BitRev8Involution(r >> 8);
    JoinHalves(BitRev8(r & 0xff), BitRev8(r >> 8));
  }

  lemma CheckOctetsInjective(r: bv16, s: bv16)
    requires CheckOctets(r) == CheckOctets(s)
    ensures r == s
  {
    CheckMatches(r, CheckOctets(r));
    CheckMatches(s, CheckOctets(s));
    BitRev16Involution(r);
    BitRev16Involution(s);
  }

  lemma StraddleDetected(s: seq<byte>, t: seq<byte>)
    requires |s| == |t| > 0 && s[..|s| - 1] == t[..|t| - 1]
    requires CheckOctets(CrcOf(s))[1] == CheckOctets(CrcOf(t))[1]
    ensures s == t
  {
    hide Update, CheckOctets;
    var k := |s| - 1;
    SecondOctet(CrcOf(s), CrcOf(t));
    UpperHalfTellsByte(CrcOf(s[..k]), s[k], t[k]);
    assert s == s[..k] + [s[k]] && t == t[..k] + [t[k]];
  }

  /** A message with its check octets is a codeword, and two codewords never differ within two adjacent
      octets only, wherever the two octets lie: both in the message, across its end, or in the check. */
  lemma CodewordsFarApart(s: seq<byte>, t: seq<byte>, k: nat)
    requires |s| == |t|
    requires AgreeOutside(s + CheckOctets(CrcOf(s)), t + CheckOctets(CrcOf(t)), k)
    ensures s == t
  {
    hide Update, Run, CheckOctets;
    var u, v := s + CheckOctets(CrcOf(s)), t + CheckOctets(CrcOf(t));
    var n := |s|;
    assert u[n..] == CheckOctets(CrcOf(s)) && v[n..] == CheckOctets(CrcOf(t));
    assert s == u[..n] && t == v[..n];
    if k + 2 <= n {
      assert u[n..] == u[k + 2..][n - k - 2..] && v[n..] == v[k + 2..][n - k - 2..];
      CheckOctetsInjective(CrcOf(s), CrcOf(t));
      assert s[k + 2..] == u[k + 2..][..n - k - 2] && t[k + 2..] == v[k + 2..][..n - k - 2];
      assert s[..k] == u[..k] && t[..k] == v[..k];
      if s != t {
        AdjacentBytesDetected(s, t, k);
        assert false;
      }
    } else if k + 1 == n {
      assert u[k + 2] == u[k + 2..][0] && v[k + 2] == v[k + 2..][0];
      assert s[..k] == u[..k] && t[..k] == v[..k];
      StraddleDetected(s, t);
    } else {
      assert s == u[..k] && t == v[..k];
    }
  }
}
