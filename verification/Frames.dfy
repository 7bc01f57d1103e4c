/** Three-wire UART packets (Bluetooth Core Specification, Vol 4, Part D, section 4): the 4-byte header with
    its checksum, the payload and the optional data integrity check. */
module Frames {
  import opened Bytes
  import opened Crc
  import opened Slip

  const MAX_PAYLOAD := 4095

  datatype Frame = Frame(reliable: bool, seqno: nat, ack: nat, crc: bool, ptype: nat, payload: seq<byte>)

  /** The field values a header can carry. */
  predicate Valid(f: Frame) {
    f.seqno < 8 && f.ack < 8 && f.ptype < 16 && |f.payload| <= MAX_PAYLOAD
  }

  // ---- encoding ----

  function Header(f: Frame): (h: seq<byte>)
    requires f.seqno < 8 && f.ack < 8 && f.ptype < 16
    ensures |h| == 4
  {
    var n := |f.payload|;
    var h0 := 8 * f.ack + f.seqno + (if f.reliable then 0x80 else 0) + (if f.crc then 0x40 else 0);
    var h1 := 16 * (n % 16) + f.ptype;
    var h2 := n / 16 % 256;
    [h0, h1, h2, 255 - (h0 + h1 + h2) % 256]
  }

  function Message(f: Frame): seq<byte>
    requires f.seqno < 8 && f.ack < 8 && f.ptype < 16
  {
    Header(f) + f.payload
  }

  function Check(f: Frame): seq<byte>
    requires f.seqno < 8 && f.ack < 8 && f.ptype < 16
  {
    if f.crc then CheckOctets(CrcOf(Message(f))) else []
  }

  /** The octets between the delimiters, before SLIP coding. */
  function Body(f: Frame): seq<byte>
    requires f.seqno < 8 && f.ack < 8 && f.ptype < 16
  {
    Message(f) + Check(f)
  }

  function Encode(f: Frame): seq<byte>
    requires f.seqno < 8 && f.ack < 8 && f.ptype < 16
  {
    [DELIMITER] + SlipAll(Body(f)) + [DELIMITER]
  }

  // ---- decoding: the header macros ----

  function HdrSeq(d: seq<byte>): nat requires |d| >= 4 { d[0] % 8 }
  function HdrAck(d: seq<byte>): nat requires |d| >= 4 { d[0] / 8 % 8 }
  predicate HdrCrc(d: seq<byte>) requires |d| >= 1 { d[0] / 64 % 2 == 1 }
  predicate HdrReliable(d: seq<byte>) requires |d| >= 4 { d[0] / 128 % 2 == 1 }
  function HdrType(d: seq<byte>): nat requires |d| >= 4 { d[1] % 16 }
  function HdrLen(d: seq<byte>): (n: nat)
    requires |d| >= 4
    ensures n <= MAX_PAYLOAD
  {
    var low: nat, high: nat := d[1] / 16, d[2];
    low + 16 * high
  }
  predicate ChecksumOk(d: seq<byte>)
    requires |d| >= 4
  {
    var sum: nat := d[0];
    d[3] == 255 - (sum + d[1] + d[2]) % 256
  }

  /** How many octets a packet with this header has, check octets included. */
  function Need(d: seq<byte>): nat
    requires |d| >= 4
  {
    4 + HdrLen(d) + if HdrCrc(d) then 2 else 0
  }

  function FrameOf(d: seq<byte>): Frame
    requires |d| >= 4 && |d| >= 4 + HdrLen(d)
  {
    Frame(HdrReliable(d), HdrSeq(d), HdrAck(d), HdrCrc(d), HdrType(d), d[4..4 + HdrLen(d)])
  }

  /** Header checksum, length and check octets are all in order. */
  predicate WellFormed(d: seq<byte>) {
    && |d| >= 4
    && ChecksumOk(d)
    && |d| >= Need(d)
    && (HdrCrc(d) ==> d[Need(d) - 2..Need(d)] == CheckOctets(CrcOf(d[..Need(d) - 2])))
  }

  lemma HeaderFields(f: Frame, t: seq<byte>)
    requires Valid(f)
    ensures var d := Header(f) + t;
      && ChecksumOk(d) && HdrSeq(d) == f.seqno && HdrAck(d) == f.ack && HdrCrc(d) == f.crc
      && HdrReliable(d) == f.reliable && HdrType(d) == f.ptype && HdrLen(d) == |f.payload|
  {
  }

  lemma HeaderOfFields(d: seq<byte>)
    requires |d| >= 4 && |d| >= 4 + HdrLen(d) && ChecksumOk(d)
    ensures Header(FrameOf(d)) == d[..4]
  {
    Octet0(d[0]);
    LengthOctets(d[1], d[2]);
  }

  lemma LengthOctets(low: byte, high: byte)
    ensures
      var x: nat, y: nat := low, high;
      var n := x / 16 + 16 * y;
      n % 16 == x / 16 && n / 16 % 256 == y && 16 * (x / 16) + x % 16 == x
  {}

  lemma Octet0(x: byte)
    ensures x == 8 * (x / 8 % 8) + x % 8
                 + (if x / 128 % 2 == 1 then 0x80 else 0) + (if x / 64 % 2 == 1 then 0x40 else 0)
  {
    var y := x / 8;
    assert x == 8 * y + x % 8;
    assert y == 8 * (y / 8) + y % 8;
    var z := y / 8;
    assert x / 64 == z;
    assert z == 2 * (z / 2) + z % 2 && x / 128 == z / 2;
  }

  /** Decoding undoes encoding, whatever follows the packet. */
  lemma FrameOfBody(f: Frame, t: seq<byte>)
    requires Valid(f)
    ensures var d := Body(f) + t; WellFormed(d) && FrameOf(d) == f && Need(d) == |Body(f)| && d[..Need(d)] == Body(f)
  {
    var d := Body(f) + t;
    assert d == Header(f) + (f.payload + Check(f) + t);
    HeaderFields(f, f.payload + Check(f) + t);
    hide Header, CheckOctets, CrcOf, HdrSeq, HdrAck, HdrReliable, HdrType, HdrLen, ChecksumOk, HdrCrc;
    assert d[..|Body(f)|] == Body(f);
    assert d[4..4 + |f.payload|] == f.payload;
    if f.crc {
      assert d[..|Body(f)| - 2] == Message(f);
      assert d[|Body(f)| - 2..|Body(f)|] == Check(f);
    }
  }

  /** Encoding undoes decoding on well-formed octets. */
  lemma BodyOfFrame(d: seq<byte>)
    requires WellFormed(d)
    ensures Valid(FrameOf(d)) && Body(FrameOf(d)) == d[..Need(d)]
  {
    hide CheckOctets, CrcOf, Header;
    var f := FrameOf(d);
    HeaderOfFields(d);
    assert d[..4] + d[4..4 + HdrLen(d)] == d[..4 + HdrLen(d)];
    if HdrCrc(d) {
      assert d[..Need(d) - 2] + d[Need(d) - 2..Need(d)] == d[..Need(d)];
    }
  }

  lemma BodyInjective(f: Frame, g: Frame)
    requires Valid(f) && Valid(g)
    requires Body(f) <= Body(g)
    ensures f == g
  {
    var t := Body(g)[|Body(f)|..];
    assert Body(f) + t == Body(g) == Body(g) + [];
    FrameOfBody(f, t);
    FrameOfBody(g, []);
  }

  /** An encoded packet fits what `h5_prepare_pkt` allocates for it, and between its delimiters there is
      neither a delimiter nor a flow control octet. */
  lemma EncodedFits(f: Frame)
    requires f.seqno < 8 && f.ack < 8 && f.ptype < 16
    ensures |Encode(f)| <= (|f.payload| + 6) * 2 + 2
    ensures forall i :: 0 < i < |Encode(f)| - 1 ==> Encode(f)[i] !in {0xc0, 0x11, 0x13}
  {
    hide SlipAll, CheckOctets, CrcOf, Header;
    SlipAllLength(Body(f));
    NoReservedOctets(Body(f));
    forall i | 0 < i < |Encode(f)| - 1
      ensures Encode(f)[i] !in {0xc0, 0x11, 0x13}
    {
      var c := SlipAll(Body(f))[i - 1];
      assert Encode(f)[i] == c && c in SlipAll(Body(f));
    }
  }

  /** Different packets have different encodings. */
  lemma EncodeInjective(f: Frame, g: Frame)
    requires Valid(f) && Valid(g) && Encode(f) == Encode(g)
    ensures f == g
  {
    hide SlipAll, Body;
    assert Encode(f)[1..|Encode(f)| - 1] == SlipAll(Body(f));
    assert Encode(g)[1..|Encode(g)| - 1] == SlipAll(Body(g));
    SlipInjective(Body(f), Body(g));
    BodyInjective(f, g);
  }

  /** One wrong octet in the header breaks the header checksum. */
  lemma HeaderOctetDetected(d: seq<byte>, e: seq<byte>, k: nat)
    requires |d| == |e| >= 4 && k < 4 && d[k] != e[k]
    requires forall i :: 0 <= i < 4 && i != k ==> d[i] == e[i]
    requires ChecksumOk(d)
    ensures !ChecksumOk(e)
  {
    assert forall i :: 0 <= i < 4 && i != k ==> d[i] == e[i];
    assert d[0] != e[0] ==> d[1] == e[1] && d[2] == e[2] && d[3] == e[3];
    assert d[1] != e[1] ==> d[0] == e[0] && d[2] == e[2] && d[3] == e[3];
    assert d[2] != e[2] ==> d[0] == e[0] && d[1] == e[1] && d[3] == e[3];
    assert d[3] != e[3] ==> d[0] == e[0] && d[1] == e[1] && d[2] == e[2];
  }

  /** Two packets with data integrity check and the same header never differ within two adjacent octets
      only. */
  lemma FramesFarApart(d: seq<byte>, e: seq<byte>, k: nat)
    requires |d| == |e| && k >= 4 && AgreeOutside(d, e, k)
    requires WellFormed(d) && WellFormed(e) && HdrCrc(d) && Need(d) == |d|
    ensures d == e
  {
    hide CheckOctets, CrcOf, ChecksumOk, HdrReliable;
    assert d[..k][..4] == d[..4] && e[..k][..4] == e[..4];
    assert forall i :: 0 <= i < 4 ==> d[i] == d[..4][i] == e[..4][i] == e[i];
    var n := |d| - 2;
    assert d[n..] == d[n..n + 2] && e[n..] == e[n..n + 2];
    assert d == d[..n] + d[n..] && e == e[..n] + e[n..];
    CodewordsFarApart(d[..n], e[..n], k);
  }
}
