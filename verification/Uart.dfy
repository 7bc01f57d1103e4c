/** The three-wire UART link as `hciattach_rtk.c` runs it: `rtb_struct` with its fields updated in place,
    each operation proved against the functions of `Link` and `Receiver`. */
module Uart {
  import opened Bytes
  import opened Crc
  import opened Slip
  import opened Frames
  import opened LinkLayer
  import opened Receiver
  import opened Reference
  import opened Buffers

  /** SLIP-codes a part of a packet into `skb` and runs it through the check register. */
  method EncodePart(skb: Skb, s: seq<byte>, useCrc: bool, crc: bv16) returns (reg: bv16)
    requires skb.Growing() && skb.dataLen + 2 * |s| <= skb.data.Length
    modifies skb`dataLen, skb`used, skb.data
    ensures skb.Growing() && skb.Contents() == old(skb.Contents()) + SlipAll(s)
    ensures reg == (if useCrc then Run(crc, s) else crc)
  {
    hide Update, SlipByte, SlipAll;
    assert SlipAll(s[..0]) == [] by {
      SlipNothing();
    }
    reg := crc;
    for i := 0 to |s|
      invariant skb.Growing() && skb.Contents() == old(skb.Contents()) + SlipAll(s[..i])
      invariant skb.dataLen + 2 * (|s| - i) <= skb.data.Length
      invariant reg == (if useCrc then Run(crc, s[..i]) else crc)
    {
      assert s[..i + 1] == s[..i] + [s[i]];
      assert s[..i + 1][..i] == s[..i];
      SlipAllSnoc(s[..i], s[i]);
      var ok := SlipOneByte(skb, s[i]);
      assert ok;
      if useCrc {
        reg := CrcUpdate(reg, s[i]);
      }
    }
    assert s[..|s|] == s;
  }

  lemma SlipNothing()
    ensures SlipAll([]) == []
  {}

  /** The rest of `h5_prepare_pkt`: delimiter, coded header, payload and check, delimiter. */
  method FillPacket(skb: Skb, ghost f: Frame, hdr: seq<byte>, payload: seq<byte>, useCrc: bool)
    requires skb.Growing() && skb.Contents() == [] && skb.data.Length == (|payload| + 6) * 2 + 2
    requires f.seqno < 8 && f.ack < 8 && f.ptype < 16
    requires hdr == Header(f) && payload == f.payload && useCrc == f.crc
    modifies skb`dataLen, skb`used, skb.data
    ensures skb.Growing() && skb.Contents() == Encode(f)
  {
    hide Check, Encode, BitRev16, Low, SlipAll, Run, Header;
    EncodeParts(f);
    CheckField(f);
    var ok := skb.Put([DELIMITER]);
    assert ok;
    var crc := EncodePart(skb, hdr, useCrc, INIT);
    crc := EncodePart(skb, payload, useCrc, crc);
    if useCrc {
      crc := BitRev16(crc);
      var _ := EncodePart(skb, [Low(crc >> 8), Low(crc)], false, INIT);
    }
    ok := skb.Put([DELIMITER]);
    assert ok;
  }

  lemma EncodeParts(f: Frame)
    requires f.seqno < 8 && f.ack < 8 && f.ptype < 16
    ensures Encode(f) == [DELIMITER] + SlipAll(Header(f)) + SlipAll(f.payload) + SlipAll(Check(f)) + [DELIMITER]
    ensures |SlipAll(Header(f))| <= 8 && |SlipAll(f.payload)| <= 2 * |f.payload| && |SlipAll(Check(f))| <= 4
  {
    hide CheckOctets, CrcOf, SlipAll, Header;
    SlipAllConcat(Header(f), f.payload);
    SlipAllConcat(Message(f), Check(f));
    SlipAllLength(Header(f));
    SlipAllLength(f.payload);
    SlipAllLength(Check(f));
  }

  lemma CheckField(f: Frame)
    requires f.seqno < 8 && f.ack < 8 && f.ptype < 16
    ensures f.crc ==>
      var crc := BitRev16(Run(Run(INIT, Header(f)), f.payload));
      Check(f) == [Low(crc >> 8), Low(crc)]
    ensures !f.crc ==> SlipAll(Check(f)) == []
  {
    hide Run, BitRev16, Low, Header;
    RunConcat(INIT, Header(f), f.payload);
  }

  class H5Link {
    var rxSeqTxAck: nat
    var rxAck: nat
    var useCrc: bool
    var isTxAckReq: bool
    var msgqTxSeq: nat
    var messageCrc: bv16
    var rxCount: nat
    var rxState: RxState
    var rxEsc: bool
    var link: LinkState
    var rxSkb: Skb?
    var numOfCmdSent: nat
    var cmdOpcode: nat
    var cmdSuccess: bool
    var totalNum: int
    var txIndex: int
    var rxIndex: int
    /** The process has called `exit`. */
    var exited: bool

    ghost var log: seq<Frame>
    ghost var written: seq<seq<byte>>
    /** The buffers that are allocated and not yet freed. */
    ghost var live: set<Skb>

    ghost function Lk(): Link
      reads this
    {
      Link(rxSeqTxAck, rxAck, useCrc, isTxAckReq, msgqTxSeq, link, numOfCmdSent, cmdOpcode, cmdSuccess,
           totalNum, txIndex, rxIndex, log, written, exited)
    }

    /** The receive buffer is in use. */
    ghost predicate Holding()
      reads this
    {
      rxState.Buffering() && rxSkb != null
    }

    ghost function Repr(): set<object>
      reads this
    {
      {this} + if rxSkb != null then {rxSkb, rxSkb.data} else {}
    }

    ghost predicate BufferOk()
      reads this, rxSkb, if rxSkb != null then {rxSkb.data} else {}
    {
      rxState.Buffering() ==>
        rxSkb != null && rxSkb in live && rxSkb.Growing() && rxSkb.data.Length == RX_BUFFER
    }

    ghost function AbsRx(): Rx
      reads this, rxSkb, if rxSkb != null then {rxSkb.data} else {}
    {
      Rx(rxState, rxEsc, rxCount, messageCrc,
         if rxState.Buffering() && rxSkb != null && rxSkb.Valid() then rxSkb.Memory() else [])
    }

    ghost function Abs(): H5
      reads this, rxSkb, if rxSkb != null then {rxSkb.data} else {}
    {
      H5(AbsRx(), Lk())
    }

    ghost predicate Valid()
      reads this, rxSkb, if rxSkb != null then {rxSkb.data} else {}
    {
      Inv(Abs()) && (!exited ==> BufferOk())
    }

    /** The buffers that somebody other than the receiver has yet to free: at the end of the program's own
        operations none, so nothing leaks and nothing is freed twice. */
    ghost function Others(): set<Skb>
      reads this
    {
      if Holding() then live - {rxSkb} else live
    }

    constructor ()
      ensures Abs() == H5(IDLE, START) && fresh(Repr()) && live == {} && Valid()
    {
      rxSeqTxAck, rxAck, useCrc, isTxAckReq, msgqTxSeq := 0, 0, false, false, 0;
      messageCrc, rxCount, rxState, rxEsc, rxSkb := INIT, 0, W4PktDelimiter, false, null;
      link, numOfCmdSent, cmdOpcode, cmdSuccess := H5Sync, 0, 0, false;
      totalNum, txIndex, rxIndex, exited := 0, 0, 0, false;
      log, written, live := [], [], {};
    }

    // ---- buffers and writes ----

    method SkbFree(skb: Skb)
      requires skb in live
      modifies this`live
      ensures live == old(live) - {skb}
    {
      live := live - {skb};
    }

    /** `write` or `writev` on the serial port. */
    method WriteOut(ghost w: seq<byte>)
      modifies this`written
      ensures Lk() == LinkLayer.Write(old(Lk()), w)
    {
      written := written + [w];
    }

    /** `h5_prepare_pkt`. */
    method PreparePkt(payload: seq<byte>, ptype: nat) returns (nskb: Skb?)
      requires Lk().Wf()
      modifies this`isTxAckReq, this`msgqTxSeq, this`live
      ensures KnownType(ptype) ==>
                && nskb != null && fresh(nskb) && fresh(nskb.data) && live == old(live) + {nskb}
                && nskb.Growing() && nskb.Contents() == Encode(TxFrame(old(Lk()), payload, ptype))
                && Lk() == Prepare(old(Lk()), ptype)
      ensures !KnownType(ptype) ==> nskb == null && live == old(live) && Lk() == old(Lk())
    {
      hide Encode, Header;
      var rel: bool;
      if ptype == HCI_ACLDATA_PKT || ptype == HCI_COMMAND_PKT || ptype == HCI_EVENT_PKT {
        rel := true;
      } else if ptype == H5_ACK_PKT || ptype == H5_VDRSPEC_PKT || ptype == H5_LINK_CTL_PKT {
        rel := false;
      } else {
        return null;
      }
      ghost var f := TxFrame(Lk(), payload, ptype);
      nskb := new Skb((|payload| + 6) * 2 + 2);
      live := live + {nskb};
      var hdr := BuildHeader(rel, ptype, payload);
      FillPacket(nskb, f, hdr, payload, useCrc);
    }

    /** The header of an outgoing packet; a reliable one takes the next sequence number. */
    method BuildHeader(rel: bool, ptype: nat, payload: seq<byte>) returns (hdr: seq<byte>)
      requires Lk().Wf() && KnownType(ptype) && rel == ReliableType(ptype)
      modifies this`isTxAckReq, this`msgqTxSeq
      ensures hdr == Header(TxFrame(old(Lk()), payload, ptype)) && Lk() == Prepare(old(Lk()), ptype)
    {
      var len := |payload|;
      var hdr0 := rxSeqTxAck * 8;
      isTxAckReq := false;
      if rel {
        hdr0 := hdr0 + 0x80 + msgqTxSeq;
        msgqTxSeq := (msgqTxSeq + 1) % 8;
      }
      if useCrc {
        hdr0 := hdr0 + 0x40;
      }
      var hdr1 := len % 16 * 16 + ptype;
      var hdr2 := len / 16 % 256;
      hdr := [hdr0, hdr1, hdr2, 255 - (hdr0 + hdr1 + hdr2) % 256];
    }

    /** `rtb_send_ack`. */
    method SendAck()
      requires Lk().Wf()
      modifies this`isTxAckReq, this`msgqTxSeq, this`live, this`written
      ensures Lk() == LinkLayer.SendAck(old(Lk())) && live == old(live)
    {
      hide Encode, TxFrame;
      var nskb := PreparePkt([], H5_ACK_PKT);
      WriteOut(nskb.Contents());
      SkbFree(nskb);
    }

    // ---- completed packets ----

    /** `h5_init_hci_cc` and `h5_post_hci_cc` share their first half: two pulls, which may exit, and the
        comparison with the pending command. */
    method PullCommandComplete(skb: Skb) returns (matched: bool)
      requires skb.Valid() && skb.off <= 4 && skb.data.Length == RX_BUFFER
      modifies this`exited, skb`off, skb`dataLen
      ensures skb.Valid() && skb.Memory() == old(skb.Memory())
      ensures exited == (old(exited) || old(skb.AsView()).len < 5)
      ensures matched == (old(skb.AsView()).len >= 5 && CcMatches(Lk(), old(skb.AsView())))
    {
      matched := false;
      var ok := skb.Pull(2);
      if !ok {
        exited := true;
        return;
      }
      var low := skb.Peek(1);
      var high := skb.Peek(2);
      var opcode := low as int + 256 * high as int;
      ok := skb.Pull(3);
      if !ok {
        exited := true;
        return;
      }
      var status := skb.Peek(0);
      matched := status == 0 && cmdOpcode == opcode;
    }

    method InitHciCc(skb: Skb)
      requires skb.Valid() && skb.off <= 4 && skb.data.Length == RX_BUFFER
      modifies this`exited, this`cmdSuccess, this`numOfCmdSent, skb`off, skb`dataLen
      ensures skb.Valid() && skb.Memory() == old(skb.Memory())
      ensures Lk() == LinkLayer.InitHciCc(old(Lk()), old(skb.AsView()))
    {
      var matched := PullCommandComplete(skb);
      if !matched {
        return;
      }
      cmdSuccess := true;
      if CountedCommand(cmdOpcode) {
        numOfCmdSent := (numOfCmdSent + 1) % 0x1_0000;
      }
    }

    method PostHciCc(skb: Skb)
      requires skb.Valid() && skb.off <= 4 && skb.data.Length == RX_BUFFER
      modifies this`exited, this`cmdSuccess, this`link, skb`off, skb`dataLen
      ensures skb.Valid() && skb.Memory() == old(skb.Memory())
      ensures Lk() == LinkLayer.PostHciCc(old(Lk()), old(skb.AsView()))
    {
      var matched := PullCommandComplete(skb);
      if !matched {
        return;
      }
      cmdSuccess := true;
      if cmdOpcode == HCI_CMD_RESET {
        link := H5Active;
      }
    }

    /** `hci_recv_frame`. */
    method HciRecvFrame(skb: Skb)
      requires skb.Valid() && skb.off <= 4 && skb.data.Length == RX_BUFFER
      modifies this`exited, this`cmdSuccess, this`link, this`numOfCmdSent, this`rxIndex, skb`off, skb`dataLen
      ensures skb.Valid() && skb.Memory() == old(skb.Memory())
      ensures Lk() == LinkLayer.HciRecvFrame(old(Lk()), old(skb.AsView()))
    {
      hide LinkLayer.InitHciCc, LinkLayer.PostHciCc;
      var code := skb.Peek(0);
      if link == H5Init {
        if code == 0x0e {
          InitHciCc(skb);
        }
      } else if link == H5Patch {
        if code != 0x0e {
          return;
        }
        rxIndex := skb.Peek(6);
        if rxIndex >= 0x80 {
          rxIndex := rxIndex - 0x80;
          link := H5HciReset;
        }
      } else if link == H5HciReset {
        if code == 0x0e {
          PostHciCc(skb);
        }
      }
    }

    /** `h5_handle_internal_rx`. */
    method HandleInternalRx(skb: Skb)
      requires Lk().Wf() && skb.Valid() && skb.off <= 4 && skb.data.Length == RX_BUFFER
      modifies this`link, this`useCrc, this`isTxAckReq, this`msgqTxSeq, this`live, this`written
      ensures Lk() == LinkLayer.HandleInternalRx(old(Lk()), skb.AsView()) && live == old(live)
    {
      hide LinkLayer.SendAck;
      var b0 := skb.Peek(0);
      var b1 := skb.Peek(1);
      if link == H5Sync {
        if b0 == 0x01 && b1 == 0x7e {
          WriteOut(SYNC_RESP_PKT);
        } else if b0 == 0x02 && b1 == 0x7d {
          link := H5Config;
        }
      } else if link == H5Config {
        if b0 == 0x01 && b1 == 0x7e {
          WriteOut(SYNC_RESP_PKT);
        } else if b0 == 0x03 && b1 == 0xfc {
          WriteOut(CONF_RESP_PKT);
        } else if b0 == 0x04 && b1 == 0x7b {
          link := H5Init;
          if skb.dataLen > 2 {
            var field := skb.Peek(2);
            useCrc := field / 16 % 2 == 1;
          }
        } else {
          SendAck();
        }
      }
    }

    /** The header part of `h5_complete_rx_pkt`. */
    method EnterPacket(skb: Skb) returns (ptype: nat)
      requires Lk().Wf() && skb.Valid() && skb.off == 0 && skb.data.Length == RX_BUFFER
      requires |skb.Memory()| >= 4 && skb.dataLen == 4 + HdrLen(skb.Memory())
      modifies this`rxSeqTxAck, this`isTxAckReq, this`rxAck, this`log
      ensures Lk() == Enter(old(Lk()), skb.Memory()) && ptype == HdrType(skb.Memory())
    {
      hide FrameOf, HdrLen;
      var h0 := skb.Peek(0);
      var h1 := skb.Peek(1);
      if h0 / 128 % 2 == 1 {
        rxSeqTxAck := (h0 % 8 + 1) % 8;
        isTxAckReq := true;
      }
      rxAck := h0 / 8 % 8;
      log := log + [FrameOf(skb.Memory())];
      ptype := h1 % 16;
    }

    /** The switch of `h5_complete_rx_pkt` on the packet type. */
    method DispatchPacket(skb: Skb, ptype: nat)
      requires Lk().Wf() && skb.Valid() && skb.off == 0 && skb.data.Length == RX_BUFFER
      requires |skb.Memory()| >= 4 && skb.dataLen == 4 + HdrLen(skb.Memory()) && ptype == HdrType(skb.Memory())
      modifies this`exited, this`cmdSuccess, this`link, this`numOfCmdSent, this`rxIndex
      modifies this`useCrc, this`isTxAckReq, this`msgqTxSeq, this`live, this`written
      modifies skb`off, skb`dataLen
      ensures skb.Valid() && skb.Memory() == old(skb.Memory()) && live == old(live)
      ensures Lk() == Dispatch(old(Lk()), skb.Memory())
    {
      hide LinkLayer.HandleInternalRx, LinkLayer.HciRecvFrame, HdrType;
      var passUp := false;
      if ptype == HCI_ACLDATA_PKT || ptype == HCI_EVENT_PKT || ptype == HCI_COMMAND_PKT {
        passUp := true;
      } else if ptype == HCI_SCODATA_PKT {
        passUp := true;
      } else if ptype == H5_LINK_CTL_PKT {
        var ok := skb.Pull(4);
        assert ok;
        HandleInternalRx(skb);
      }
      if passUp {
        var ok := skb.Pull(4);
        assert ok;
        HciRecvFrame(skb);
      }
    }

    method AcknowledgePacket()
      requires Lk().Wf() && !exited
      modifies this`isTxAckReq, this`msgqTxSeq, this`live, this`written
      ensures Lk() == Acknowledge(old(Lk())) && live == old(live)
    {
      if isTxAckReq {
        SendAck();
        isTxAckReq := false;
      }
    }

    /** `h5_complete_rx_pkt`. */
    method CompleteRxPkt()
      requires Lk().Wf() && !exited && rxState.Buffering() && rxCount == 0
      requires rxSkb != null && rxSkb in live && rxSkb.Valid() && rxSkb.data.Length == RX_BUFFER
      requires |rxSkb.Memory()| >= 4 && rxSkb.off == 0 && rxSkb.dataLen == 4 + HdrLen(rxSkb.Memory())
      modifies this, rxSkb`off, rxSkb`dataLen
      ensures Abs() == Finish(old(Abs())) && (!exited ==> !rxState.Buffering())
      ensures Others() == old(Others()) && rxSkb in {old(rxSkb), null}
    {
      hide Dispatch, Enter, LinkLayer.SendAck, HdrType, HdrLen;
      var skb := rxSkb;
      var ptype := EnterPacket(skb);
      DispatchPacket(skb, ptype);
      if exited {
        return;
      }
      AcknowledgePacket();
      SkbFree(skb);
      rxState := W4PktDelimiter;
      rxSkb := null;
    }

    // ---- the byte stream ----

    /** One decoded octet goes into the buffer and, where the check covers it, into the register. */
    method StoreByte(b: byte)
      requires Valid() && !exited && rxCount > 0 && rxState.Buffering()
      modifies this`messageCrc, this`rxCount, rxSkb`dataLen, rxSkb`used, rxSkb.data
      ensures BufferOk() && AbsRx() == Store(old(AbsRx()), b)
    {
      hide Update, Expected, Running;
      BufferHasRoom(Abs());
      var ok := rxSkb.Put([b]);
      assert ok;
      var first := rxSkb.Peek(0);
      if first / 64 % 2 == 1 && rxState != W4Crc {
        messageCrc := CrcUpdate(messageCrc, b);
      }
      rxCount := rxCount - 1;
    }

    method FreeRxSkb()
      requires !exited && BufferOk() && rxState.Buffering()
      modifies this`live, this`rxSkb
      ensures live == old(live) - {old(rxSkb)} && rxSkb == null
    {
      SkbFree(rxSkb);
      rxSkb := null;
    }

    /** The packet is given up and the receiver hunts for the next delimiter. */
    method DropPacket()
      requires !exited && BufferOk() && rxState.Buffering()
      modifies this`live, this`rxSkb, this`rxState, this`rxCount
      ensures AbsRx() == Dropped(old(AbsRx())) && BufferOk() && rxSkb == null && Others() == old(Others())
    {
      FreeRxSkb();
      rxState := W4PktDelimiter;
      rxCount := 0;
    }

    /** A delimiter comes too early: the packet is given up and the next one may start at once. */
    method ShortPacket()
      requires !exited && BufferOk() && rxState.Buffering()
      modifies this`live, this`rxSkb, this`rxState, this`rxCount
      ensures AbsRx() == Short(old(AbsRx())) && BufferOk() && rxSkb == null && Others() == old(Others())
    {
      FreeRxSkb();
      rxState := W4PktStart;
      rxCount := 0;
    }

    /** `h5_unslip_one_byte`. */
    method UnslipOneByte(b: byte)
      requires Valid() && !exited && rxCount > 0 && rxState.Buffering()
      modifies this`messageCrc, this`rxCount, this`rxEsc, this`rxState, this`rxSkb, this`live
      modifies rxSkb`dataLen, rxSkb`used, rxSkb.data
      ensures BufferOk() && AbsRx() == UnslipOne(old(AbsRx()), b)
      ensures Others() == old(Others()) && rxSkb in {old(rxSkb), null}
    {
      hide Store, Inv;
      if !rxEsc {
        if b == 0xdb {
          rxEsc := true;
        } else {
          StoreByte(b);
        }
      } else if b == 0xdc {
        StoreByte(0xc0);
        rxEsc := false;
      } else if b == 0xdd {
        StoreByte(0xdb);
        rxEsc := false;
      } else if b == 0xde {
        StoreByte(0x11);
        rxEsc := false;
      } else if b == 0xdf {
        StoreByte(0x13);
        rxEsc := false;
      } else {
        DropPacket();
      }
    }

    /** The header macros on the receive buffer. */
    method ReadHeader() returns (checksumOk: bool, reliable: bool, seqno: nat, len: nat)
      requires BufferOk() && rxState.Buffering() && |rxSkb.Memory()| >= 4
      ensures var d := rxSkb.Memory();
        checksumOk == ChecksumOk(d) && reliable == HdrReliable(d) && seqno == HdrSeq(d) < 8 && len == HdrLen(d)
    {
      var d0 := rxSkb.Peek(0);
      var d1 := rxSkb.Peek(1);
      var d2 := rxSkb.Peek(2);
      var d3 := rxSkb.Peek(3);
      checksumOk := 255 - (d0 as int + d1 as int + d2 as int) % 256 == d3;
      reliable, seqno := d0 / 128 % 2 == 1, d0 % 8;
      len := d1 as int / 16 + 16 * d2 as int;
    }

    /** The answer to an unexpected sequence number. */
    method RefuseSeqno(seqno: nat)
      requires seqno < 8
      modifies this`isTxAckReq, this`rxSeqTxAck
      ensures Lk() == OutOfOrder(old(Lk()), seqno)
    {
      isTxAckReq := true;
      if link == H5Patch && txIndex == totalNum {
        rxSeqTxAck := seqno;
      }
    }

    /** The `H5_W4_HDR` case: header checksum and sequence number. */
    method OnHeader()
      requires Valid() && Filled(Abs(), W4Hdr)
      modifies this`live, this`rxSkb, this`rxState, this`rxCount, this`isTxAckReq, this`rxSeqTxAck
      ensures Abs() == CheckHeader(old(Abs())) && Valid()
      ensures Others() == old(Others()) && rxSkb in {old(rxSkb), null}
    {
      hide Running, CrcOf, RxInv, HdrLen, ChecksumOk, HdrSeq, HdrReliable, Store;
      FilledFacts(Abs());
      var checksumOk, reliable, seqno, len := ReadHeader();
      if !checksumOk {
        DropPacket();
      } else if reliable && seqno != rxSeqTxAck {
        RefuseSeqno(seqno);
        DropPacket();
      } else {
        rxState := W4Data;
        rxCount := len;
      }
    }

    /** The `H5_W4_CRC` case. */
    method OnCheck()
      requires Valid() && Filled(Abs(), W4Crc)
      modifies Repr()
      ensures Abs() == FinishCrc(old(Abs())) && Valid()
      ensures Others() == old(Others()) && rxSkb in {old(rxSkb), null}
    {
      hide BitRev16, GetCrc, Finish, RxInv, HdrLen;
      FilledFacts(Abs());
      ghost var mem := rxSkb.Memory();
      var n := rxSkb.dataLen;
      var hi := rxSkb.Peek(n - 2);
      var lo := rxSkb.Peek(n - 1);
      assert [hi, lo] == mem[|mem| - 2..];
      if BitRev16(messageCrc) != GetCrc([hi, lo]) {
        DropPacket();
        return;
      }
      rxSkb.Trim(n - 2);
      CompleteRxPkt();
    }

    /** The `H5_W4_DATA` case. */
    method OnData()
      requires Valid() && Filled(Abs(), W4Data)
      modifies Repr()
      ensures Abs() == FinishData(old(Abs())) && Valid()
      ensures Others() == old(Others()) && rxSkb in {old(rxSkb), null}
    {
      hide Finish, RxInv, HdrLen;
      FilledFacts(Abs());
      var first := rxSkb.Peek(0);
      if first / 64 % 2 == 1 {
        rxState := W4Crc;
        rxCount := 2;
      } else {
        CompleteRxPkt();
      }
    }

    /** A packet begins: the octet that shows it is not consumed yet. */
    method OnStart()
      requires Valid() && !exited && rxState == W4PktStart
      modifies this`rxState, this`rxCount, this`rxEsc, this`messageCrc, this`rxSkb, this`live
      ensures BufferOk() && AbsRx() == Begin(old(AbsRx()))
      ensures Others() == old(Others()) && rxSkb != null && fresh(rxSkb) && fresh(rxSkb.data)
    {
      hide Inv;
      rxState := W4Hdr;
      rxCount := 4;
      rxEsc := false;
      messageCrc := INIT;
      rxSkb := new Skb(RX_BUFFER);
      live := live + {rxSkb};
    }

    /** The switch of `h5_recv`, where no octet is missing. */
    method SwitchState(b: byte) returns (consumed: bool)
      requires Valid() && !exited && rxCount == 0
      modifies Repr()
      ensures (Abs(), consumed) == Turn(old(Abs()), b) && Valid()
      ensures Others() == old(Others()) && fresh(Repr() - old(Repr()))
    {
      hide CheckHeader, FinishCrc, FinishData, UnslipOne, RxInv, Expected, Running, CrcOf;
      IdleFacts(Abs());
      consumed := false;
      match rxState
      case W4Hdr =>
        OnHeader();
      case W4Data =>
        OnData();
      case W4Crc =>
        OnCheck();
      case W4PktDelimiter =>
        if b == 0xc0 {
          rxState := W4PktStart;
        }
        consumed := true;
      case W4PktStart =>
        if b == 0xc0 {
          consumed := true;
        } else {
          OnStart();
        }
    }

    /** One turn of the loop of `h5_recv`, on the octet at the read position. */
    method RecvTurn(b: byte) returns (consumed: bool)
      requires Valid() && !exited
      modifies Repr()
      ensures (Abs(), consumed) == Turn(old(Abs()), b) && Valid()
      ensures Others() == old(Others()) && fresh(Repr() - old(Repr()))
    {
      hide CheckHeader, FinishCrc, FinishData, UnslipOne, RxInv, Expected, Running, CrcOf;
      if rxCount > 0 {
        IdleFacts(Abs());
        if b == 0xc0 {
          ShortPacket();
        } else {
          UnslipOneByte(b);
        }
        return true;
      }
      consumed := SwitchState(b);
    }

    /** `h5_recv`. */
    method Recv(data: seq<byte>)
      requires Valid()
      modifies Repr()
      ensures Abs() == Receiver.Recv(old(Abs()), data) && Valid()
      ensures Others() == old(Others()) && fresh(Repr() - old(Repr()))
    {
      hide Turn, Inv;
      var ptr := 0;
      while ptr < |data| && !exited
        invariant 0 <= ptr <= |data| && Valid()
        invariant Receiver.Recv(Abs(), data[ptr..]) == Receiver.Recv(old(Abs()), data)
        invariant Others() == old(Others()) && fresh(Repr() - old(Repr()))
        decreases |data| - ptr, if exited then 0 else 1 + StateRank(AbsRx())
      {
        assert data[ptr..][0] == data[ptr] && data[ptr..][1..] == data[ptr + 1..];
        var consumed := RecvTurn(data[ptr]);
        if exited {
          RecvExited(Abs(), data[ptr..]);
          RecvExited(Abs(), data[ptr + 1..]);
        }
        if consumed {
          ptr := ptr + 1;
        }
      }
      if exited {
        RecvExited(Abs(), data[ptr..]);
      }
    }
  }

  lemma FilledFacts(h: H5)
    requires Inv(h) && !h.lk.exited && h.rx.state.Buffering() && h.rx.count == 0
    ensures |h.rx.buf| >= 4 && !h.rx.esc
    ensures h.rx.state == W4Hdr ==> |h.rx.buf| == 4
    ensures h.rx.state == W4Data ==> |h.rx.buf| == 4 + HdrLen(h.rx.buf)
    ensures h.rx.state == W4Crc ==> |h.rx.buf| == 4 + HdrLen(h.rx.buf) + 2
  {
    hide Running, CrcOf, Expected, HdrLen;
  }

  lemma IdleFacts(h: H5)
    requires Inv(h) && !h.lk.exited
    ensures h.rx.count > 0 ==> h.rx.state.Buffering()
    ensures !h.rx.state.Buffering() ==> h.rx.buf == []
  {
    hide Running, CrcOf, Expected, HdrLen;
  }

  /** What is stored and what is still expected never exceed the allocation. */
  lemma BufferHasRoom(h: H5)
    requires Inv(h) && !h.lk.exited && h.rx.count > 0
    ensures |h.rx.buf| + h.rx.count <= RX_BUFFER
  {
    hide Running, CrcOf, Expected;
  }
}
