/** What the link makes of the packets that a peer sends it, seen from both ends: who answers what in link
    establishment (Bluetooth Core Specification, Vol 4, Part D, section 8), which completions count, and what
    is acknowledged. */
module Handshake {
  import opened Bytes
  import opened Slip
  import opened Frames
  import opened LinkLayer
  import opened Receiver
  import opened Reference
  import opened Delivery
  import opened Samples
  import opened Controller

  lemma BodyView(f: Frame)
    requires Valid(f)
    ensures
      var mem := Body(f);
      && |mem| >= 4 + |f.payload| && HdrLen(mem) == |f.payload| && HdrType(mem) == f.ptype && FrameOf(mem) == f
      && HdrReliable(mem) == f.reliable && HdrSeq(mem) == f.seqno && HdrAck(mem) == f.ack
      && forall k :: 0 <= k < |f.payload| ==> View(mem, 4, |f.payload|).At(k) == f.payload[k]
  {
    hide Header, Check;
    FrameOfBody(f, []);
    assert Body(f) + [] == Body(f) && Body(f)[4..4 + |f.payload|] == f.payload;
    assert forall k {:trigger f.payload[k]} :: 0 <= k < |f.payload| ==>
        Body(f)[4 + k] == Body(f)[4..4 + |f.payload|][k];
  }

  /** The acknowledgement that follows, if one is due. */
  function Due(l: Link): seq<seq<byte>>
    requires l.Wf()
  {
    if l.isTxAckReq then [AckFrame(l)] else []
  }

  /** A link control packet that starts with these two octets. */
  predicate Control(f: Frame, a: byte, b: byte) {
    Valid(f) && !f.reliable && f.ptype == 0x0f && |f.payload| >= 2 && f.payload[0] == a && f.payload[1] == b
  }

  /** Whatever else it does, a link control packet is logged and the acknowledgement that is due is sent. */
  lemma ControlIsHandled(l: Link, f: Frame)
    requires l.Wf() && !l.exited && Valid(f) && !f.reliable && f.ptype == 0x0f
    ensures
      var e := l.(rxAck := f.ack, log := l.log + [f]);
      CompleteFrame(l, f) == Acknowledge(HandleInternalRx(e, View(Body(f), 4, |f.payload|)))
  {
    hide HandleInternalRx, Acknowledge, Body;
    BodyView(f);
  }

  // ---- requests are answered ----

  lemma SyncIsAnswered(l: Link, f: Frame)
    requires l.Wf() && !l.exited && (l.state == H5Sync || l.state == H5Config) && Control(f, 0x01, 0x7e)
    ensures
      var r := CompleteFrame(l, f);
      r.written == l.written + [SYNC_RESP_PKT] + Due(l) && r.state == l.state && r.useCrc == l.useCrc
  {
    hide CompleteFrame, AckFrame, Body;
    ControlIsHandled(l, f);
    BodyView(f);
    SameAck(l, l.(rxAck := f.ack, log := l.log + [f], written := l.written + [SYNC_RESP_PKT]));
  }

  lemma ConfigIsAnswered(l: Link, f: Frame)
    requires l.Wf() && !l.exited && l.state == H5Config && Control(f, 0x03, 0xfc)
    ensures
      var r := CompleteFrame(l, f);
      r.written == l.written + [CONF_RESP_PKT] + Due(l) && r.state == l.state && r.useCrc == l.useCrc
  {
    hide CompleteFrame, AckFrame, Body;
    ControlIsHandled(l, f);
    BodyView(f);
    SameAck(l, l.(rxAck := f.ack, log := l.log + [f], written := l.written + [CONF_RESP_PKT]));
  }

  lemma SameAck(l: Link, r: Link)
    requires l.Wf() && r.Wf() && r.rxSeqTxAck == l.rxSeqTxAck && r.useCrc == l.useCrc
    ensures AckFrame(r) == AckFrame(l)
  {}

  /** In SYNC every packet but the two of its own is ignored. */
  lemma OthersAreIgnored(l: Link, f: Frame)
    requires l.Wf() && !l.exited && l.state == H5Sync && Valid(f) && !f.reliable && f.ptype == 0x0f
    requires |f.payload| >= 2 && [f.payload[0], f.payload[1]] !in {[0x01, 0x7e], [0x02, 0x7d]}
    ensures
      var r := CompleteFrame(l, f);
      r == l.(rxAck := f.ack, log := l.log + [f], isTxAckReq := false, written := l.written + Due(l))
  {
    hide CompleteFrame, AckFrame, Body;
    ControlIsHandled(l, f);
    BodyView(f);
    SameAck(l, l.(rxAck := f.ack, log := l.log + [f]));
    assert l.written + [] == l.written;
  }

  // ---- responses move the link ----

  lemma SyncResponseMoves(l: Link, f: Frame)
    requires l.Wf() && !l.exited && l.state == H5Sync && Control(f, 0x02, 0x7d)
    ensures CompleteFrame(l, f).state == H5Config && CompleteFrame(l, f).useCrc == l.useCrc
  {
    hide CompleteFrame, AckFrame, Body;
    ControlIsHandled(l, f);
    BodyView(f);
  }

  lemma ConfigResponseMoves(l: Link, f: Frame)
    requires l.Wf() && !l.exited && l.state == H5Config && Control(f, 0x04, 0x7b)
    ensures CompleteFrame(l, f).state == H5Init
    ensures CompleteFrame(l, f).useCrc == if |f.payload| > 2 then f.payload[2] / 16 % 2 == 1 else l.useCrc
  {
    hide CompleteFrame, AckFrame, Body;
    ControlIsHandled(l, f);
    BodyView(f);
  }

  /** Once the link is initialised link control packets change nothing and are not answered. */
  lemma ControlIsOver(l: Link, f: Frame)
    requires l.Wf() && !l.exited && l.state.Rank() >= 2 && Valid(f) && !f.reliable && f.ptype == 0x0f
    ensures
      var r := CompleteFrame(l, f);
      r == l.(rxAck := f.ack, log := l.log + [f], isTxAckReq := false, written := l.written + Due(l))
  {
    hide CompleteFrame, AckFrame, Body;
    ControlIsHandled(l, f);
    SameAck(l, l.(rxAck := f.ack, log := l.log + [f]));
    assert l.written + [] == l.written;
  }

  /** In CONFIG every other link control packet is acknowledged at once. */
  lemma UnknownIsAcknowledged(l: Link, f: Frame)
    requires l.Wf() && !l.exited && l.state == H5Config && Valid(f) && !f.reliable && f.ptype == 0x0f
    requires |f.payload| >= 2 && [f.payload[0], f.payload[1]] !in {[0x01, 0x7e], [0x03, 0xfc], [0x04, 0x7b]}
    ensures
      var r := CompleteFrame(l, f);
      r == l.(rxAck := f.ack, log := l.log + [f], isTxAckReq := false, written := l.written + [AckFrame(l)])
  {
    hide CompleteFrame, AckFrame, Body;
    ControlIsHandled(l, f);
    BodyView(f);
    SameAck(l, l.(rxAck := f.ack, log := l.log + [f]));
  }

  // ---- both ends ----

  /** A whole packet between packets is taken as such. */
  lemma Arrives(h: H5, f: Frame)
    requires AtStart(h) && Valid(f) && Awaited(h.lk, f)
    ensures
      var r := Recv(h, Encode(f));
      r.lk == CompleteFrame(h.lk, f) && AtStartUnlessExited(r)
  {
    hide Encode, CompleteFrame, Recv;
    assert RecvByte(h, DELIMITER) == h;
    RoundTrip(h, f);
  }

  /** A sync request: the answer moves the peer that sent it from SYNC to CONFIG. */
  lemma SyncExchange(a: H5, b: H5, f: Frame)
    requires AtStart(a) && AtStart(b) && (a.lk.state == H5Sync || a.lk.state == H5Config) && b.lk.state == H5Sync
    requires Control(f, 0x01, 0x7e)
    ensures
      var r := Recv(a, Encode(f)).lk;
      |r.written| > |a.lk.written| && Recv(b, r.written[|a.lk.written|]).lk.state == H5Config
  {
    hide Encode, CompleteFrame, Recv;
    Arrives(a, f);
    SyncIsAnswered(a.lk, f);
    SyncReply();
    var g := Frame(false, 0, 0, false, H5_LINK_CTL_PKT, [0x02, 0x7d]);
    Arrives(b, g);
    SyncResponseMoves(b.lk, g);
  }

  /** A configuration request: the answer moves the peer that sent it from CONFIG to INIT. */
  lemma ConfigExchange(a: H5, b: H5, f: Frame)
    requires AtStart(a) && AtStart(b) && a.lk.state == H5Config && b.lk.state == H5Config && Control(f, 0x03, 0xfc)
    ensures
      var r := Recv(a, Encode(f)).lk;
      |r.written| > |a.lk.written| && Recv(b, r.written[|a.lk.written|]).lk.state == H5Init
  {
    hide Encode, CompleteFrame, Recv;
    Arrives(a, f);
    ConfigIsAnswered(a.lk, f);
    ConfigReply();
    var g := Frame(false, 0, 0, false, H5_LINK_CTL_PKT, [0x04, 0x7b]);
    Arrives(b, g);
    ConfigResponseMoves(b.lk, g);
  }

  /** The configuration response decides whether the packets sent from then on carry a check: bit 4 of its
      configuration field. */
  lemma CheckIsNegotiated(h: H5, f: Frame, data: seq<byte>, ptype: nat)
    requires AtStart(h) && h.lk.state == H5Config && Control(f, 0x04, 0x7b) && |f.payload| > 2
    requires KnownType(ptype) && |data| <= MAX_PAYLOAD
    ensures
      var l := Recv(h, Encode(f)).lk;
      l.state == H5Init && HdrCrc(Body(TxFrame(l, data, ptype))) == (f.payload[2] / 16 % 2 == 1)
  {
    hide Encode, CompleteFrame, Recv;
    Arrives(h, f);
    ConfigResponseMoves(h.lk, f);
    FrameOfBody(TxFrame(Recv(h, Encode(f)).lk, data, ptype), []);
    var b := Body(TxFrame(Recv(h, Encode(f)).lk, data, ptype));
    assert b + [] == b;
  }

  // ---- acknowledgements ----

  /** Every packet prepared after a reliable packet was taken acknowledges it. */
  lemma TakenIsAcknowledged(h: H5, f: Frame, data: seq<byte>, ptype: nat)
    requires AtStart(h) && Valid(f) && f.reliable && f.seqno == h.lk.rxSeqTxAck
    requires KnownType(ptype) && |data| <= MAX_PAYLOAD
    ensures
      var l := Recv(h, Encode(f)).lk;
      HdrAck(Body(TxFrame(l, data, ptype))) == (f.seqno + 1) % 8 && HdrCrc(Body(TxFrame(l, data, ptype))) == l.useCrc
  {
    hide Encode, Recv, Complete, Body;
    Arrives(h, f);
    BodyView(f);
    CompleteFacts(h.lk, Body(f));
    var b := Body(TxFrame(Recv(h, Encode(f)).lk, data, ptype));
    FrameOfBody(TxFrame(Recv(h, Encode(f)).lk, data, ptype), []);
    assert b + [] == b;
  }

  /** A reliable packet that has been taken before asks for an acknowledgement again: the next packet that
      arrives is followed by one, whatever its type. */
  lemma RepeatIsAcknowledged(h: H5, f: Frame, g: Frame)
    requires AtStart(h) && !ResyncRule(h.lk) && Valid(f) && f.reliable && f.seqno != h.lk.rxSeqTxAck
    requires Valid(g) && Awaited(h.lk, g)
    ensures
      var l := Recv(Recv(h, Whole(f)), Encode(g)).lk;
      !l.exited ==>
        && |l.written| > |h.lk.written|
        && IsAck(l.written[|l.written| - 1], l.rxSeqTxAck)
  {
    hide Encode, Recv, Complete, Body, Whole, IsAck, Judge;
    var h1 := Recv(h, Whole(f));
    WholeStep(h, f);
    JudgeBody(h.lk, f);
    Arrives(h1, g);
    BodyView(g);
    DueIsSent(h1.lk, Body(g));
  }

  /** The acknowledgement that is due when a packet completes is the last write. */
  lemma DueIsSent(l: Link, mem: seq<byte>)
    requires l.Wf() && l.isTxAckReq && |mem| >= 4 && |mem| >= 4 + HdrLen(mem)
    ensures
      var r := Complete(l, mem);
      !r.exited ==> |r.written| > |l.written| && IsAck(r.written[|r.written| - 1], r.rxSeqTxAck)
  {
    hide Enter, Dispatch, AckFrame, IsAck, HdrLen;
    var e := Enter(l, mem);
    var d := Dispatch(e, mem);
    EnterKeepsDue(l, mem);
    DispatchWrites(e, mem);
    DispatchKeepsTransport(e, mem);
    AckFrameIsAck(e);
    AckFrameIsAck(d);
  }

  lemma EnterKeepsDue(l: Link, mem: seq<byte>)
    requires l.Wf() && l.isTxAckReq && |mem| >= 4 && |mem| >= 4 + HdrLen(mem)
    ensures Enter(l, mem).isTxAckReq && Enter(l, mem).written == l.written
  {
    hide FrameOf, HdrLen;
  }

  // ---- completions ----

  /** A packet whose payload is passed up as an event. */
  predicate PassesUp(f: Frame) {
    Valid(f) && f.ptype in {0x01, 0x02, 0x03, 0x04}
  }

  /** The completion of a command, as a controller builds it, while the link is being initialised: it succeeds
      exactly for the pending command and status 0, and then counts if the command is one of those. */
  lemma CompletionWhileInit(l: Link, f: Frame, op: nat, status: byte, rest: seq<byte>)
    requires l.Wf() && !l.exited && l.state == H5Init && PassesUp(f)
    requires op < 0x1_0000 && |rest| <= 251 && f.payload == Completion(op, status, rest)
    ensures
      var r := CompleteFrame(l, f);
      && !r.exited && r.state == H5Init
      && r.cmdSuccess == (l.cmdSuccess || (op == l.cmdOpcode && status == 0))
      && r.numOfCmdSent == if op == l.cmdOpcode && status == 0 && op in {0xfc17, 0x1009, 0x1001, 0xfc6d, 0xfc61}
                           then (l.numOfCmdSent + 1) % 0x1_0000 else l.numOfCmdSent
  {
    hide AckFrame, Body;
    BodyView(f);
    CompletionOctets(op, status, rest);
  }

  /** And after the download: it activates the link exactly for the pending reset and status 0. */
  lemma CompletionAfterDownload(l: Link, f: Frame, op: nat, status: byte, rest: seq<byte>)
    requires l.Wf() && !l.exited && l.state == H5HciReset && PassesUp(f)
    requires op < 0x1_0000 && |rest| <= 251 && f.payload == Completion(op, status, rest)
    ensures
      var r := CompleteFrame(l, f);
      && !r.exited && r.numOfCmdSent == l.numOfCmdSent
      && r.cmdSuccess == (l.cmdSuccess || (op == l.cmdOpcode && status == 0))
      && r.state == if op == l.cmdOpcode == 0x0c03 && status == 0 then H5Active else H5HciReset
  {
    hide AckFrame, Body;
    BodyView(f);
    CompletionOctets(op, status, rest);
  }

  lemma CompletionOctets(op: nat, status: byte, rest: seq<byte>)
    requires op < 0x1_0000 && |rest| <= 251
    ensures
      var p := Completion(op, status, rest);
      && |p| == 6 + |rest| && p[0] == 0x0e && p[3] as int + 0x100 * p[4] as int == op && p[5] == status
  {}

  /** A command complete event that is too short for an opcode ends the process. */
  lemma ShortCompletionEnds(l: Link, f: Frame)
    requires l.Wf() && !l.exited && (l.state == H5Init || l.state == H5HciReset) && PassesUp(f)
    requires 0 < |f.payload| < 5 && f.payload[0] == 0x0e
    ensures CompleteFrame(l, f).exited
  {
    hide AckFrame, Body;
    BodyView(f);
  }

  /** Packets of other types, pure acknowledgements among them, are logged and acknowledged if need be. */
  lemma OtherTypesAreIgnored(l: Link, f: Frame)
    requires l.Wf() && !l.exited && Valid(f) && !f.reliable && f.ptype !in {0x01, 0x02, 0x03, 0x04, 0x0f}
    ensures
      var r := CompleteFrame(l, f);
      r == l.(rxAck := f.ack, log := l.log + [f], isTxAckReq := false, written := l.written + Due(l))
  {
    hide AckFrame, Body;
    BodyView(f);
    SameAck(l, l.(rxAck := f.ack, log := l.log + [f]));
    assert l.written + [] == l.written;
  }
}
