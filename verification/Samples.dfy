/** Packets as they appear on a line, octet by octet (Bluetooth Core Specification, Vol 4, Part D, sections 3, 4
    and 8). */
module Samples {
  import opened Bytes
  import opened Crc
  import opened Slip
  import opened Frames
  import opened LinkLayer

  /** The four escapes. */
  lemma Escapes()
    ensures SlipAll([0xc0, 0xdb, 0x11, 0x13, 0x00]) == [0xdb, 0xdc, 0xdb, 0xdd, 0xdb, 0xde, 0xdb, 0xdf, 0x00]
  {
    assert SlipAll([]) == [] && SlipAll([0x00]) == [0x00];
    assert SlipAll([0x13, 0x00]) == [0xdb, 0xdf, 0x00];
    assert SlipAll([0x11, 0x13, 0x00]) == [0xdb, 0xde, 0xdb, 0xdf, 0x00];
    assert SlipAll([0xdb, 0x11, 0x13, 0x00]) == [0xdb, 0xdd, 0xdb, 0xde, 0xdb, 0xdf, 0x00];
  }

  /** The coding of octets that need no escape. */
  lemma {:induction false} Plain(s: seq<byte>)
    requires forall i :: 0 <= i < |s| ==> s[i] !in {0xc0, 0xdb, 0x11, 0x13}
    ensures SlipAll(s) == s
  {
    if s == [] {
    } else {
      Plain(s[1..]);
    }
  }

  /** A packet without data integrity check. */
  lemma Uncoded(f: Frame, body: seq<byte>)
    requires f.seqno < 8 && f.ack < 8 && f.ptype < 16 && !f.crc && body == Header(f) + f.payload
    requires forall i :: 0 <= i < |body| ==> body[i] !in {0xc0, 0xdb, 0x11, 0x13}
    ensures Encode(f) == [0xc0] + body + [0xc0]
  {
    hide Header, SlipAll;
    Plain(body);
    assert Body(f) == body;
  }

  /** The first packet of link establishment. */
  lemma SyncPacket()
    ensures Encode(Frame(false, 0, 0, false, H5_LINK_CTL_PKT, [0x01, 0x7e]))
         == [0xc0, 0x00, 0x2f, 0x00, 0xd0, 0x01, 0x7e, 0xc0]
  {
    hide Encode;
    var f := Frame(false, 0, 0, false, H5_LINK_CTL_PKT, [0x01, 0x7e]);
    Uncoded(f, [0x00, 0x2f, 0x00, 0xd0, 0x01, 0x7e]);
  }

  /** The second, with an escape in its header checksum. */
  lemma ConfigPacket()
    ensures Encode(Frame(false, 0, 0, false, H5_LINK_CTL_PKT, [0x03, 0xfc, 0x14]))
         == [0xc0, 0x00, 0x3f, 0x00, 0xdb, 0xdc, 0x03, 0xfc, 0x14, 0xc0]
  {
    hide SlipAll;
    var f := Frame(false, 0, 0, false, H5_LINK_CTL_PKT, [0x03, 0xfc, 0x14]);
    var a, b, c: seq<byte> := [0x00, 0x3f, 0x00], [0xc0], [0x03, 0xfc, 0x14];
    assert Body(f) == a + b + c;
    Plain(a);
    Plain(c);
    DelimiterCoded();
    SlipAllConcat(a + b, c);
    SlipAllConcat(a, b);
  }

  lemma DelimiterCoded()
    ensures SlipAll([0xc0]) == [0xdb, 0xdc]
  {
    assert SlipAll([]) == [];
  }

  /** A pure acknowledgement. */
  lemma AckPacket()
    ensures Encode(Frame(false, 0, 1, false, H5_ACK_PKT, [])) == [0xc0, 0x08, 0x00, 0x00, 0xf7, 0xc0]
  {
    hide Encode;
    Uncoded(Frame(false, 0, 1, false, H5_ACK_PKT, []), [0x08, 0x00, 0x00, 0xf7]);
  }

  /** A reliable packet with sequence number 3 and acknowledgement 5. */
  lemma ResetPacket()
    ensures Encode(Frame(true, 3, 5, false, HCI_COMMAND_PKT, [0x03, 0x0c, 0x00]))
         == [0xc0, 0xab, 0x31, 0x00, 0x23, 0x03, 0x0c, 0x00, 0xc0]
  {
    hide Encode;
    Uncoded(Frame(true, 3, 5, false, HCI_COMMAND_PKT, [0x03, 0x0c, 0x00]), [0xab, 0x31, 0x00, 0x23, 0x03, 0x0c, 0x00]);
  }

  /** The replies of link establishment are packets like any others. */
  lemma SyncReply()
    ensures SYNC_RESP_PKT == Encode(Frame(false, 0, 0, false, H5_LINK_CTL_PKT, [0x02, 0x7d]))
  {
    hide Encode;
    Uncoded(Frame(false, 0, 0, false, H5_LINK_CTL_PKT, [0x02, 0x7d]), [0x00, 0x2f, 0x00, 0xd0, 0x02, 0x7d]);
  }

  lemma ConfigReply()
    ensures CONF_RESP_PKT == Encode(Frame(false, 0, 0, false, H5_LINK_CTL_PKT, [0x04, 0x7b]))
  {
    hide Encode;
    Uncoded(Frame(false, 0, 0, false, H5_LINK_CTL_PKT, [0x04, 0x7b]), [0x00, 0x2f, 0x00, 0xd0, 0x04, 0x7b]);
  }

  /** The header of a long packet with data integrity check: 0x123 payload octets. */
  lemma LongHeader(payload: seq<byte>)
    requires |payload| == 0x123
    ensures Header(Frame(false, 0, 2, true, HCI_ACLDATA_PKT, payload)) == [0x50, 0x32, 0x12, 0x6b]
  {}

  // ---- a packet with its check ----

  lemma EightBits(x: nat)
    ensures Bits(x, 8) == [x % 2 == 1, x / 2 % 2 == 1, x / 2 / 2 % 2 == 1, x / 2 / 2 / 2 % 2 == 1,
                           x / 2 / 2 / 2 / 2 % 2 == 1, x / 2 / 2 / 2 / 2 / 2 % 2 == 1,
                           x / 2 / 2 / 2 / 2 / 2 / 2 % 2 == 1, x / 2 / 2 / 2 / 2 / 2 / 2 / 2 % 2 == 1]
  {
    FourBits(x, 4);
    FourBits(x / 2 / 2 / 2 / 2, 0);
    assert Bits(x / 2 / 2 / 2 / 2 / 2 / 2 / 2 / 2, 0) == [];
  }

  lemma OneBit(x: nat, n: nat)
    ensures Bits(x, n + 1) == [x % 2 == 1] + Bits(x / 2, n)
  {}

  lemma TwoBits(x: nat, n: nat)
    ensures Bits(x, n + 2) == [x % 2 == 1, x / 2 % 2 == 1] + Bits(x / 2 / 2, n)
  {
    hide Bits;
    OneBit(x, n + 1);
    OneBit(x / 2, n);
  }

  lemma FourBits(x: nat, n: nat)
    ensures Bits(x, n + 4) == [x % 2 == 1, x / 2 % 2 == 1, x / 2 / 2 % 2 == 1, x / 2 / 2 / 2 % 2 == 1]
                              + Bits(x / 2 / 2 / 2 / 2, n)
  {
    hide Bits;
    TwoBits(x, n + 2);
    TwoBits(x / 2 / 2, n);
  }

  lemma WordOf50()
    ensures Word(0x50) == 0x50
  {
    hide Bits;
    EightBits(0x50);
    assert Bits(0x50, 8) == [false, false, false, false, true, false, true, false];
  }

  lemma WordOfAf()
    ensures Word(0xaf) == 0xaf
  {
    hide Bits;
    EightBits(0xaf);
    assert Bits(0xaf, 8) == [true, true, true, true, false, true, false, true];
  }

  lemma WordOf53()
    ensures Word(0x53) == 0x53
  {
    hide Bits;
    EightBits(0x53);
    assert Bits(0x53, 8) == [true, true, false, false, true, false, true, false];
  }

  lemma WordOfD1()
    ensures Word(0xd1) == 0xd1
  {
    hide Bits;
    EightBits(0xd1);
    assert Bits(0xd1, 8) == [true, false, false, false, true, false, true, true];
  }

  lemma WordOfZero()
    ensures Word(0x00) == 0x00
  {}

  lemma Steps()
    ensures NibbleStep(NibbleStep(0xffff, 0x50), 0x50 >> 4) == 0x5d02
    ensures NibbleStep(NibbleStep(0x5d02, 0x00), 0x00 >> 4) == 0x234f
    ensures NibbleStep(NibbleStep(0x234f, 0x00), 0x00 >> 4) == 0xbad0
    ensures NibbleStep(NibbleStep(0xbad0, 0xaf), 0xaf >> 4) == 0x8bca
    ensures BitRev16(0x8bca) == 0x53d1 && 0x53d1 as bv16 >> 8 == 0x53
  {}

  lemma CheckOfAck()
    ensures CheckOctets(CrcOf([0x50, 0x00, 0x00, 0xaf])) == [0x53, 0xd1]
  {
    hide NibbleStep, BitRev16, Word, Low;
    var s: seq<byte> := [0x50, 0x00, 0x00, 0xaf];
    WordOf50();
    WordOfAf();
    WordOf53();
    WordOfD1();
    assert Word(0x00) == 0x00 by {
      WordOfZero();
    }
    Steps();
    assert s[..3] == [0x50, 0x00, 0x00] && s[..3][..2] == [0x50, 0x00] && s[..3][..2][..1] == [0x50];
    assert CrcOf([]) == INIT && [0x50][..0] == [];
    assert CrcOf([0x50]) == 0x5d02;
    assert CrcOf([0x50, 0x00]) == 0x234f;
    assert CrcOf([0x50, 0x00, 0x00]) == 0xbad0;
    assert CrcOf(s) == 0x8bca;
    LowOfWord(0x53);
    SameLow(0x53d1, 0xd1);
  }

  /** An acknowledgement with data integrity check. */
  lemma CheckedAck()
    ensures Encode(Frame(false, 0, 2, true, H5_ACK_PKT, [])) == [0xc0, 0x50, 0x00, 0x00, 0xaf, 0x53, 0xd1, 0xc0]
  {
    hide SlipAll, CrcOf, CheckOctets;
    var f := Frame(false, 0, 2, true, H5_ACK_PKT, []);
    assert Message(f) == [0x50, 0x00, 0x00, 0xaf];
    CheckOfAck();
    Plain([0x50, 0x00, 0x00, 0xaf, 0x53, 0xd1]);
    assert Body(f) == [0x50, 0x00, 0x00, 0xaf, 0x53, 0xd1];
  }
}
