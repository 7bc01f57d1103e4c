/** SLIP coding of octets (Bluetooth Core Specification, Vol 4, Part D, section 3) with the software flow
    control octets 0x11 and 0x13 escaped as well. */
module Slip {
  import opened Bytes

  const DELIMITER: byte := 0xc0
  const ESCAPE: byte := 0xdb

  /** `h5_slip_one_byte`. */
  function SlipByte(c: byte): (s: seq<byte>)
    ensures 1 <= |s| <= 2
  {
    if c == 0xc0 then [0xdb, 0xdc]
    else if c == 0xdb then [0xdb, 0xdd]
    else if c == 0x11 then [0xdb, 0xde]
    else if c == 0x13 then [0xdb, 0xdf]
    else [c]
  }

  function SlipAll(s: seq<byte>): seq<byte> {
    if s == [] then [] else SlipByte(s[0]) + SlipAll(s[1..])
  }

  /** The octet that an escaped `c` stands for. */
  function Unescape(c: byte): Option<byte> {
    if c == 0xdc then Some(0xc0)
    else if c == 0xdd then Some(0xdb)
    else if c == 0xde then Some(0x11)
    else if c == 0xdf then Some(0x13)
    else None
  }

  /** Everything that `c` decodes to, up to its end or to the first invalid escape;
      `esc` says that an escape octet came just before. */
  function Unslip(esc: bool, c: seq<byte>): seq<byte>
    decreases c
  {
    if c == [] then []
    else if esc then
      match Unescape(c[0])
      case None => []
      case Some(b) => [b] + Unslip(false, c[1..])
    else if c[0] == ESCAPE then Unslip(true, c[1..])
    else [c[0]] + Unslip(false, c[1..])
  }

  lemma {:induction false} SlipAllConcat(a: seq<byte>, b: seq<byte>)
    ensures SlipAll(a + b) == SlipAll(a) + SlipAll(b)
  {
    if a == [] {
      assert a + b == b;
    } else {
      assert (a + b)[1..] == a[1..] + b;
      SlipAllConcat(a[1..], b);
    }
  }

  lemma SlipAllSnoc(a: seq<byte>, c: byte)
    ensures SlipAll(a + [c]) == SlipAll(a) + SlipByte(c)
  {
    SlipAllConcat(a, [c]);
    assert SlipAll([c]) == SlipByte(c);
  }

  /** The coded interior of a frame has no delimiter and no flow control octet. */
  lemma {:induction false} NoReservedOctets(s: seq<byte>)
    ensures forall c :: c in SlipAll(s) ==> c != 0xc0 && c != 0x11 && c != 0x13
  {
    if s == [] {
    } else {
      NoReservedOctets(s[1..]);
    }
  }

  lemma {:induction false} SlipAllLength(s: seq<byte>)
    ensures |s| <= |SlipAll(s)| <= 2 * |s|
  {
    if s == [] {
    } else {
      SlipAllLength(s[1..]);
    }
  }

  lemma UnslipByte(c: byte, rest: seq<byte>)
    ensures Unslip(false, SlipByte(c) + rest) == [c] + Unslip(false, rest)
  {
    var u := SlipByte(c) + rest;
    if |SlipByte(c)| == 1 {
      assert u[1..] == rest;
    } else {
      assert u[1..][1..] == rest;
      assert Unslip(false, u) == Unslip(true, u[1..]);
    }
  }

  lemma Reassociate(s: seq<byte>, t: seq<byte>)
    requires s != []
    ensures [s[0]] + (s[1..] + t) == s + t
  {}

  /** Decoding undoes coding, whatever follows. */
  lemma {:induction false} UnslipSlip(s: seq<byte>, t: seq<byte>)
    ensures Unslip(false, SlipAll(s) + t) == s + Unslip(false, t)
  {
    if s == [] {
      assert SlipAll(s) + t == t;
    } else {
      hide Unslip, SlipByte;
      UnslipSlip(s[1..], t);
      UnslipByte(s[0], SlipAll(s[1..]) + t);
      assert SlipAll(s) + t == SlipByte(s[0]) + (SlipAll(s[1..]) + t);
      Reassociate(s, Unslip(false, t));
    }
  }

  /** Coded sequences are uniquely decodable. */
  lemma SlipInjective(s: seq<byte>, t: seq<byte>)
    requires SlipAll(s) == SlipAll(t)
    ensures s == t
  {
    UnslipSlip(s, []);
    UnslipSlip(t, []);
    assert SlipAll(s) + [] == SlipAll(t) + [];
    assert s + Unslip(false, []) == s && t + Unslip(false, []) == t;
  }

  /** A coded sequence cut before its end decodes to a strict prefix. */
  lemma {:induction false} UnslipCut(s: seq<byte>, k: nat)
    requires k < |SlipAll(s)|
    ensures Unslip(false, SlipAll(s)[..k]) < s
  {
    var u, n := SlipAll(s)[..k], |SlipByte(s[0])|;
    if k < n {
      assert u == [] || u == [ESCAPE];
      assert Unslip(false, u) == [];
    } else {
      UnslipCut(s[1..], k - n);
      assert u == SlipByte(s[0]) + SlipAll(s[1..])[..k - n];
      UnslipByte(s[0], SlipAll(s[1..])[..k - n]);
    }
  }
}
