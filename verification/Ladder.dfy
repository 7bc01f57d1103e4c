/** Link establishment over whole runs: the states are climbed in order, each rung on the evidence of a
    packet that asks for it. */
module Ladder {
  import opened Bytes
  import opened Crc
  import opened Frames
  import opened LinkLayer
  import opened Receiver

  // ---- the packets that move the link ----

  ghost function ViewOf(f: Frame): View
    requires Valid(f)
  {
    View(Body(f), 4, |f.payload|)
  }

  /** The command complete event of a packet in the patch phase carries an index in octet 6. */
  ghost predicate CarriesIndex(f: Frame, index: int) {
    Valid(f) && PassedUp(f.ptype) && ViewOf(f).At(0) == 0x0e && ViewOf(f).At(6) % 0x80 == index
  }

  /** The packet completes this command successfully. */
  ghost predicate CompletesCommand(f: Frame, opcode: nat) {
    Valid(f) && PassedUp(f.ptype) &&
    var v := ViewOf(f);
    v.At(0) == 0x0e && v.len >= 5 && CcOpcode(v) == opcode && v.At(5) == 0
  }

  /** Rung `i` of the ladder is climbed on this kind of packet. */
  ghost predicate Marks(i: nat, f: Frame) {
    Valid(f) &&
    var v := ViewOf(f);
    match i
    case 0 => f.ptype == H5_LINK_CTL_PKT && Opens(v, 0x02, 0x7d)
    case 1 => f.ptype == H5_LINK_CTL_PKT && Opens(v, 0x04, 0x7b)
    case 2 => PassedUp(f.ptype) && v.At(0) == 0x0e && v.At(6) >= 0x80
    case 3 => PassedUp(f.ptype) && v.At(0) == 0x0e && v.len >= 5 && CcOpcode(v) == HCI_CMD_RESET && v.At(5) == 0
    case _ => false
  }

  /** `ps` are increasing positions of packets that mark the rungs from 0 on. */
  ghost predicate Climbed(log: seq<Frame>, ps: seq<nat>) {
    forall i :: 0 <= i < |ps| ==>
      && ps[i] < |log| && Marks(i, log[ps[i]])
      && (i > 0 ==> ps[i - 1] < ps[i])
  }

  /** How many rungs a state stands for: the download is begun by the host itself. */
  function Rungs(s: LinkState): nat {
    if s == H5Sync then 0 else if s == H5Config then 1 else if s == H5Init || s == H5Patch then 2
    else if s == H5HciReset then 3 else 4
  }

  ghost predicate History(l: Link) {
    exists ps: seq<nat> :: |ps| == Rungs(l.state) && Climbed(l.log, ps)
  }

  lemma HistoryGrows(l: Link, r: Link)
    requires History(l) && l.log <= r.log && r.state == l.state
    ensures History(r)
  {
    var ps: seq<nat> :| |ps| == Rungs(l.state) && Climbed(l.log, ps);
    assert Climbed(r.log, ps);
  }

  lemma HistoryClimbs(l: Link, r: Link, f: Frame)
    requires History(l) && r.log == l.log + [f]
    requires Rungs(r.state) == Rungs(l.state) + 1 && Marks(Rungs(l.state), f)
    ensures History(r)
  {
    var ps: seq<nat> :| |ps| == Rungs(l.state) && Climbed(l.log, ps);
    hide Marks;
    var qs: seq<nat> := ps + [|l.log|];
    forall i | 0 <= i < |qs|
      ensures qs[i] < |r.log| && Marks(i, r.log[qs[i]]) && (i > 0 ==> qs[i - 1] < qs[i])
    {
      assert i < |ps| ==> qs[i] == ps[i] && r.log[ps[i]] == l.log[ps[i]];
    }
    assert Climbed(r.log, qs);
  }

  // ---- what can change while packets come in ----

  ghost predicate IndexIsFresh(l: Link, r: Link) {
    r.rxIndex != l.rxIndex ==> exists k :: |l.log| <= k < |r.log| && CarriesIndex(r.log[k], r.rxIndex)
  }

  ghost predicate SuccessIsFresh(l: Link, r: Link) {
    r.cmdSuccess && !l.cmdSuccess ==> exists k :: |l.log| <= k < |r.log| && CompletesCommand(r.log[k], l.cmdOpcode)
  }

  /** `r` may follow `l` by reception alone. */
  ghost predicate Later(l: Link, r: Link) {
    && l.log <= r.log && l.written <= r.written
    && l.state.Rank() <= r.state.Rank()
    && (r.state == H5Patch ==> l.state == H5Patch) && (l.state.Rank() < 3 ==> r.state.Rank() < 3)
    && (r.useCrc != l.useCrc ==> l.state.Rank() <= 1 && r.state.Rank() >= 2)
    && r.msgqTxSeq == l.msgqTxSeq && r.cmdOpcode == l.cmdOpcode
    && r.txIndex == l.txIndex && r.totalNum == l.totalNum
    && (l.cmdSuccess ==> r.cmdSuccess) && (l.exited ==> r == l)
    && (l.state.Rank() >= 3 && l.cmdOpcode == HCI_CMD_RESET && r.cmdSuccess ==> l.cmdSuccess || r.state == H5Active)
    && (r.numOfCmdSent != l.numOfCmdSent ==> l.state.Rank() <= 2)
    && (r.rxIndex != l.rxIndex ==> l.state == H5Patch) && IndexIsFresh(l, r) && SuccessIsFresh(l, r)
    && (History(l) ==> History(r))
  }

  lemma LaterTransitive(l: Link, m: Link, r: Link)
    requires Later(l, m) && Later(m, r)
    ensures Later(l, r)
  {
    hide Climbed, History, CarriesIndex, CompletesCommand;
    if r.rxIndex != m.rxIndex {
    } else if r.rxIndex != l.rxIndex {
      var k :| |l.log| <= k < |m.log| && CarriesIndex(m.log[k], m.rxIndex);
      assert r.log[k] == m.log[k];
    }
    if m.cmdSuccess && !l.cmdSuccess {
      var k :| |l.log| <= k < |m.log| && CompletesCommand(m.log[k], l.cmdOpcode);
      assert r.log[k] == m.log[k];
    }
  }

  // ---- one packet ----

  /** What the link control handler may do to the link. */
  lemma InternalMoves(e: Link, v: View)
    requires e.Wf()
    ensures
      var d := HandleInternalRx(e, v);
      && d == e.(state := d.state, useCrc := d.useCrc, isTxAckReq := d.isTxAckReq, written := d.written)
      && e.written <= d.written
      && (|| (d.state == e.state && d.useCrc == e.useCrc)
          || (e.state == H5Sync && d.state == H5Config && d.useCrc == e.useCrc && Opens(v, 0x02, 0x7d))
          || (e.state == H5Config && d.state == H5Init && Opens(v, 0x04, 0x7b)))
  {
    hide AckFrame, Opens, SendAck;
    SendAckTouches(e);
    InternalTouches(e, v);
  }

  lemma InternalTouches(e: Link, v: View)
    requires e.Wf()
    ensures
      var d := HandleInternalRx(e, v);
      d == e.(state := d.state, useCrc := d.useCrc, isTxAckReq := d.isTxAckReq, written := d.written)
  {
    hide AckFrame, Opens, SendAck, Write;
    SendAckTouches(e);
    WriteTouches(e, SYNC_RESP_PKT);
    WriteTouches(e, CONF_RESP_PKT);
  }

  lemma WriteTouches(l: Link, w: seq<byte>)
    ensures Write(l, w) == l.(written := Write(l, w).written)
  {}

  lemma SendAckTouches(l: Link)
    requires l.Wf()
    ensures
      var r := SendAck(l);
      r == l.(isTxAckReq := false, written := r.written) && l.written <= r.written
  {
    hide AckFrame;
  }

  /** What the event handler may do to the link. */
  lemma RecvFrameMoves(e: Link, v: View)
    ensures
      var d := HciRecvFrame(e, v);
      && d == e.(state := d.state, rxIndex := d.rxIndex, cmdSuccess := d.cmdSuccess, exited := d.exited,
                 numOfCmdSent := d.numOfCmdSent)
      && (e.cmdSuccess ==> d.cmdSuccess)
      && (d.cmdSuccess && !e.cmdSuccess ==> v.At(0) == 0x0e && v.len >= 5 && CcOpcode(v) == e.cmdOpcode && v.At(5) == 0)
      && (d.numOfCmdSent != e.numOfCmdSent ==> e.state == H5Init)
      && (d.rxIndex != e.rxIndex ==> e.state == H5Patch && v.At(0) == 0x0e && v.At(6) % 0x80 == d.rxIndex)
      && (e.state.Rank() >= 3 && e.cmdOpcode == HCI_CMD_RESET && d.cmdSuccess ==> e.cmdSuccess || d.state == H5Active)
      && (|| d.state == e.state
          || (e.state == H5Patch && d.state == H5HciReset && v.At(0) == 0x0e && v.At(6) >= 0x80)
          || (e.state == H5HciReset && d.state == H5Active && v.At(0) == 0x0e && v.len >= 5
              && CcOpcode(v) == HCI_CMD_RESET && v.At(5) == 0))
  {
    hide CountedCommand, CcOpcode, InitHciCc, PostHciCc;
    CompletionMoves(e, v);
  }

  /** What a command complete event may do to the link before and after the download. */
  lemma CompletionMoves(e: Link, v: View)
    ensures
      var d := InitHciCc(e, v);
      && d == e.(cmdSuccess := d.cmdSuccess, exited := d.exited, numOfCmdSent := d.numOfCmdSent)
      && (e.cmdSuccess ==> d.cmdSuccess)
      && (d.cmdSuccess && !e.cmdSuccess ==> v.len >= 5 && CcOpcode(v) == e.cmdOpcode && v.At(5) == 0)
    ensures
      var d := PostHciCc(e, v);
      && d == e.(state := d.state, cmdSuccess := d.cmdSuccess, exited := d.exited)
      && (e.cmdSuccess ==> d.cmdSuccess)
      && (d.cmdSuccess && !e.cmdSuccess ==> v.len >= 5 && CcOpcode(v) == e.cmdOpcode && v.At(5) == 0)
      && (e.cmdOpcode == HCI_CMD_RESET && d.cmdSuccess ==> e.cmdSuccess || d.state == H5Active)
      && (d.state == e.state || (d.state == H5Active && v.len >= 5 && CcOpcode(v) == HCI_CMD_RESET && v.At(5) == 0))
  {
    hide CountedCommand, CcOpcode;
  }

  lemma AcknowledgeMoves(d: Link)
    requires d.Wf()
    ensures
      var r := Acknowledge(d);
      r == d.(isTxAckReq := r.isTxAckReq, written := r.written) && d.written <= r.written
  {
    hide AckFrame;
  }

  /** The effect of the handlers on the fields of the ladder. */
  ghost predicate HandlerMoves(l: Link, r: Link, f: Frame) {
    && Valid(f) && r.log == l.log + [f] && l.written <= r.written
    && r.msgqTxSeq == l.msgqTxSeq && r.cmdOpcode == l.cmdOpcode
    && r.txIndex == l.txIndex && r.totalNum == l.totalNum
    && (l.cmdSuccess ==> r.cmdSuccess) && (r.cmdSuccess && !l.cmdSuccess ==> CompletesCommand(f, l.cmdOpcode))
    && (r.numOfCmdSent != l.numOfCmdSent ==> l.state == H5Init)
    && (r.useCrc != l.useCrc ==> l.state == H5Config && r.state == H5Init)
    && (r.rxIndex != l.rxIndex ==> l.state == H5Patch && CarriesIndex(f, r.rxIndex))
    && (l.state.Rank() >= 3 && l.cmdOpcode == HCI_CMD_RESET && r.cmdSuccess ==> l.cmdSuccess || r.state == H5Active)
    && (r.state == l.state ||
        (r.state.Rank() == l.state.Rank() + 1 && l.state != H5Init && Marks(Rungs(l.state), f)))
  }

  lemma EnterMoves(l: Link, mem: seq<byte>)
    requires l.Wf() && |mem| >= 4 && |mem| >= 4 + HdrLen(mem)
    ensures
      var e := Enter(l, mem);
      e == l.(rxSeqTxAck := e.rxSeqTxAck, rxAck := e.rxAck, isTxAckReq := e.isTxAckReq, log := l.log + [FrameOf(mem)])
  {
    hide FrameOf, HdrLen;
  }

  lemma DispatchMoves(e: Link, mem: seq<byte>, f: Frame)
    requires e.Wf() && |mem| >= 4 && Valid(f) && ViewOf(f) == View(mem, 4, HdrLen(mem)) && f.ptype == HdrType(mem)
    ensures
      var d := Dispatch(e, mem);
      d.log == e.log && HandlerMoves(e.(log := []), d.(log := [f]), f)
  {
    hide HandleInternalRx, HciRecvFrame, CcOpcode, Body, HdrType, HdrLen, ViewOf;
    var v := View(mem, 4, HdrLen(mem));
    if HdrType(mem) == H5_LINK_CTL_PKT {
      InternalMoves(e, v);
    } else if PassedUp(HdrType(mem)) {
      RecvFrameMoves(e, v);
    }
  }

  lemma CompleteMoves(l: Link, mem: seq<byte>)
    requires l.Wf() && WellFormed(mem) && Need(mem) == |mem|
    ensures HandlerMoves(l, Complete(l, mem), FrameOf(mem))
  {
    hide Enter, Dispatch, Acknowledge, Body, WellFormed, CarriesIndex, CompletesCommand, Marks, HdrType;
    var f := FrameOf(mem);
    BodyOfFrame(mem);
    assert mem[..Need(mem)] == mem;
    EnterMoves(l, mem);
    var e := Enter(l, mem);
    assert ViewOf(f) == View(mem, 4, HdrLen(mem)) && f.ptype == HdrType(mem);
    DispatchMoves(e, mem, f);
    AcknowledgeMoves(Dispatch(e, mem));
  }

  /** A completed packet moves the link at most one rung, and never back. */
  lemma CompleteIsLater(l: Link, mem: seq<byte>)
    requires l.Wf() && !l.exited && WellFormed(mem) && Need(mem) == |mem|
    ensures Later(l, Complete(l, mem))
    ensures Complete(l, mem).state.Rank() <= l.state.Rank() + 1
  {
    hide Complete, Climbed, History, CarriesIndex, CompletesCommand, Marks, WellFormed;
    var f, r := FrameOf(mem), Complete(l, mem);
    CompleteMoves(l, mem);
    if r.rxIndex != l.rxIndex {
      assert CarriesIndex(r.log[|l.log|], r.rxIndex);
    }
    if r.cmdSuccess && !l.cmdSuccess {
      assert CompletesCommand(r.log[|l.log|], l.cmdOpcode);
    }
    if History(l) {
      if r.state == l.state {
        HistoryGrows(l, r);
      } else {
        HistoryClimbs(l, r, f);
      }
    }
  }

  lemma OutOfOrderIsLater(l: Link, seqno: nat)
    requires seqno < 8
    ensures Later(l, OutOfOrder(l, seqno)) || l.exited
  {
    hide Climbed;
    if History(l) {
      HistoryGrows(l, OutOfOrder(l, seqno));
    }
  }

  // ---- streams ----

  lemma TurnIsLater(h: H5, b: byte)
    requires Inv(h) && !h.lk.exited
    ensures Later(h.lk, Turn(h, b).0.lk)
  {
    hide Later, Complete, OutOfOrder, UnslipOne, BitRev16, GetCrc, CrcOf, Running;
    LaterReflexive(h.lk);
    if h.rx.count == 0 && h.rx.state == W4Hdr {
      OutOfOrderIsLater(h.lk, HdrSeq(h.rx.buf));
    } else if h.rx.count == 0 && h.rx.state.Buffering() {
      FilledIsWellFormed(h);
      if WellFormed(h.rx.buf) && Need(h.rx.buf) == |h.rx.buf| {
        CompleteIsLater(h.lk, h.rx.buf);
      }
    }
  }

  lemma FilledIsWellFormed(h: H5)
    requires Inv(h) && !h.lk.exited && h.rx.count == 0 && h.rx.state.Buffering() && h.rx.state != W4Hdr
    ensures h.rx.state == W4Data && !HdrCrc(h.rx.buf) ==> WellFormed(h.rx.buf) && Need(h.rx.buf) == |h.rx.buf|
    ensures h.rx.state == W4Crc && BitRev16(h.rx.crc) == GetCrc(h.rx.buf[|h.rx.buf| - 2..]) ==>
              WellFormed(h.rx.buf) && Need(h.rx.buf) == |h.rx.buf|
  {
    hide BitRev16, GetCrc, CrcOf, Running, CheckOctets;
    var d := h.rx.buf;
    if h.rx.state == W4Crc {
      CheckMatches(h.rx.crc, d[|d| - 2..]);
      assert d[..4 + HdrLen(d)] == d[..|d| - 2];
    }
  }

  lemma LaterReflexive(l: Link)
    ensures Later(l, l)
  {}

  lemma {:induction false} RecvByteIsLater(h: H5, b: byte)
    requires Inv(h)
    ensures Later(h.lk, RecvByte(h, b).lk)
    decreases StateRank(h.rx)
  {
    hide Later, Turn, Inv;
    LaterReflexive(h.lk);
    if h.lk.exited {
    } else {
      var r := Turn(h, b);
      TurnIsLater(h, b);
      if !r.1 && !r.0.lk.exited {
        RecvByteIsLater(r.0, b);
        LaterTransitive(h.lk, r.0.lk, RecvByte(r.0, b).lk);
      }
    }
  }

  lemma {:induction false} RecvIsLater(h: H5, data: seq<byte>)
    requires Inv(h)
    ensures Later(h.lk, Recv(h, data).lk)
    decreases data
  {
    hide Later, RecvByte, Inv;
    LaterReflexive(h.lk);
    if data == [] {
    } else {
      RecvByteIsLater(h, data[0]);
      RecvIsLater(RecvByte(h, data[0]), data[1..]);
      LaterTransitive(h.lk, RecvByte(h, data[0]).lk, Recv(h, data).lk);
    }
  }
}
