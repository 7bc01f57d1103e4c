/** What the link delivers: exactly the well-formed packets, from any state, once each and in order. */
module Delivery {
  import opened Bytes
  import opened Crc
  import opened Slip
  import opened Frames
  import opened LinkLayer
  import opened Receiver
  import opened Reference

  /** The link has a place for `f` now. */
  predicate Awaited(l: Link, f: Frame) {
    f.reliable ==> f.seqno == l.rxSeqTxAck
  }

  // ---- one packet ----

  /** What no handler touches. */
  ghost predicate SameTransport(l: Link, r: Link) {
    && r.log == l.log && r.rxSeqTxAck == l.rxSeqTxAck && r.msgqTxSeq == l.msgqTxSeq
    && r.txIndex == l.txIndex && r.totalNum == l.totalNum
    && (r.state == H5Patch ==> l.state == H5Patch)
  }

  lemma DispatchKeepsTransport(l: Link, mem: seq<byte>)
    requires l.Wf() && |mem| >= 4
    ensures SameTransport(l, Dispatch(l, mem))
  {
    hide HandleInternalRx, HciRecvFrame, HdrType;
    var v := View(mem, 4, HdrLen(mem));
    InternalKeepsTransport(l, v);
    RecvFrameKeepsTransport(l, v);
  }

  lemma InternalKeepsTransport(l: Link, v: View)
    requires l.Wf()
    ensures SameTransport(l, HandleInternalRx(l, v))
  {
    hide AckFrame, Opens;
  }

  lemma RecvFrameKeepsTransport(l: Link, v: View)
    ensures SameTransport(l, HciRecvFrame(l, v))
  {
    hide InitHciCc, PostHciCc;
    CompletionKeeps(l, v);
  }

  lemma CompletionKeeps(l: Link, v: View)
    ensures SameTransport(l, InitHciCc(l, v)) && SameTransport(l, PostHciCc(l, v))
    ensures InitHciCc(l, v).written == PostHciCc(l, v).written == l.written
    ensures InitHciCc(l, v).isTxAckReq == PostHciCc(l, v).isTxAckReq == l.isTxAckReq
  {
    hide CcMatches, CountedCommand;
  }

  lemma CompleteFacts(l: Link, mem: seq<byte>)
    requires l.Wf() && |mem| >= 4 && |mem| >= 4 + HdrLen(mem)
    ensures
      var r := Complete(l, mem);
      && r.log == l.log + [FrameOf(mem)]
      && r.rxSeqTxAck == (if HdrReliable(mem) then (HdrSeq(mem) + 1) % 8 else l.rxSeqTxAck)
      && SameTransport(l.(log := r.log, rxSeqTxAck := r.rxSeqTxAck), r)
  {
    hide AckFrame, Dispatch;
    DispatchKeepsTransport(Enter(l, mem), mem);
  }

  /** The link takes the packet that `d` starts with. */
  predicate Accepts(l: Link, d: seq<byte>) {
    WellFormed(d) && Awaited(l, FrameOf(d))
  }

  /** A piece completes at most one packet: the one it starts with, if the link has a place for it. */
  lemma JudgeLogs(l: Link, d: seq<byte>)
    requires l.Wf()
    ensures Accepts(l, d) ==>
              Judge(l, d) == Complete(l, d[..Need(d)]) && Judge(l, d).log == l.log + [FrameOf(d)]
    ensures !Accepts(l, d) ==> Judge(l, d).log == l.log && Judge(l, d).exited == l.exited
  {
    hide Complete, CheckOctets, CrcOf;
    if Accepts(l, d) {
      var m := d[..Need(d)];
      HeaderIsPrefix(m, d, l);
      assert m[4..4 + HdrLen(m)] == d[4..4 + HdrLen(d)];
      assert FrameOf(m) == FrameOf(d);
      CompleteFacts(l, m);
    }
  }

  lemma WellFormedMeansEncoded(d: seq<byte>, f: Frame)
    ensures WellFormed(d) && FrameOf(d) == f <==> Valid(f) && Body(f) <= d
  {
    hide Header, CheckOctets, CrcOf;
    if Valid(f) && Body(f) <= d {
      assert Body(f) + d[|Body(f)|..] == d;
      FrameOfBody(f, d[|Body(f)|..]);
    }
    if WellFormed(d) && FrameOf(d) == f {
      BodyOfFrame(d);
    }
  }

  /** The receiver completes a packet on a piece exactly if the piece decodes to something that starts with
      the encoding of that packet and the link has a place for it: nothing else is accepted, nothing of
      this kind is refused. */
  lemma AcceptsExactlyEncodings(h: H5, c: seq<byte>, f: Frame)
    requires AtStart(h) && DELIMITER !in c
    ensures Recv(h, c + [DELIMITER]).lk.log == h.lk.log + [f]
        <==> Valid(f) && Body(f) <= Unslip(false, c) && Awaited(h.lk, f)
  {
    hide Header, CheckOctets, CrcOf, Judge, Recv, Body;
    var d := Unslip(false, c);
    PieceFromStart(h, c);
    JudgeLogs(h.lk, d);
    WellFormedMeansEncoded(d, f);
    if WellFormed(d) {
      var g := FrameOf(d);
      assert (h.lk.log + [g])[|h.lk.log|] == g;
      assert (h.lk.log + [f])[|h.lk.log|] == f;
    }
  }

  /** The link after it has completed `f`. */
  function CompleteFrame(l: Link, f: Frame): (r: Link)
    requires l.Wf() && Valid(f)
    ensures r.Wf()
  {
    hide Header, Check, Complete;
    FrameOfBody(f, []);
    assert Body(f) + [] == Body(f);
    Complete(l, Body(f))
  }

  /** Any state whatever, a delimiter, then the rest of an encoded packet: exactly that packet is completed,
      with the header fields and the payload it was built from, and the receiver is ready for the next. */
  lemma RoundTrip(h: H5, f: Frame)
    requires Inv(h) && Valid(f)
    ensures
      var h0 := RecvByte(h, DELIMITER);
      var r := Recv(h, Encode(f));
      !h0.lk.exited && Awaited(h0.lk, f) ==>
        && r.lk == CompleteFrame(h0.lk, f)
        && r.lk.log == h0.lk.log + [f]
        && AtStartUnlessExited(r)
  {
    hide Header, CompleteFrame, Check, RecvByte;
    var h0 := RecvByte(h, DELIMITER);
    var c := SlipAll(Body(f));
    assert Encode(f) == [DELIMITER] + (c + [DELIMITER]);
    assert Encode(f)[0] == DELIMITER && Encode(f)[1..] == c + [DELIMITER];
    if !h0.lk.exited && Awaited(h0.lk, f) {
      Synchronises(h);
      PieceDelivers(h0, f);
    }
  }

  lemma PieceDelivers(h: H5, f: Frame)
    requires AtStart(h) && Valid(f) && Awaited(h.lk, f)
    ensures
      var r := Recv(h, SlipAll(Body(f)) + [DELIMITER]);
      && r.lk == CompleteFrame(h.lk, f) && r.lk.log == h.lk.log + [f] && AtStartUnlessExited(r)
  {
    hide Header, Complete, Check, RecvByte, Recv, Judge;
    NoReservedOctets(Body(f));
    var c := SlipAll(Body(f));
    PieceFromStart(h, c);
    UnslipBody(f);
    FrameOfBody(f, []);
    assert Body(f) + [] == Body(f);
    JudgeLogs(h.lk, Body(f));
  }

  lemma UnslipBody(f: Frame)
    requires Valid(f)
    ensures Unslip(false, SlipAll(Body(f))) == Body(f)
  {
    hide Header, Check;
    UnslipSlip(Body(f), []);
    assert SlipAll(Body(f)) + [] == SlipAll(Body(f));
    assert Body(f) + Unslip(false, []) == Body(f);
  }

  // ---- synchronisation ----

  /** Whatever came before, one delimiter brings the receiver to the start of a packet, with no buffer left
      and at most one packet completed on the way. */
  lemma Synchronises(h: H5)
    requires Inv(h)
    ensures
      var r := RecvByte(h, DELIMITER);
      && AtStartUnlessExited(r)
      && h.lk.log <= r.lk.log
      && |r.lk.log| <= |h.lk.log| + 1
  {
    if !h.lk.exited {
      if h.rx.state.Buffering() {
        assert [] + [DELIMITER] == [DELIMITER];
        assert Recv(h, [DELIMITER]) == Recv(RecvByte(h, DELIMITER), [DELIMITER][1..]) == RecvByte(h, DELIMITER);
        PieceIsJudged(h, []);
        JudgeLogs(h.lk, h.rx.buf + Unslip(h.rx.esc, []));
      }
    }
  }

  // ---- corruption ----

  /** A checked packet that was damaged within two adjacent octets, anywhere, is not delivered, and neither is
      anything else in its place, as long as the damage leaves the header fields for check and length. */
  lemma DamagedPacketRejected(h: H5, f: Frame, d: seq<byte>, k: nat)
    requires AtStart(h) && Valid(f) && f.crc
    requires d != Body(f) && AgreeOutside(Body(f), d, k) && |d| >= 4 && HdrCrc(d) && HdrLen(d) == |f.payload|
    ensures Recv(h, SlipAll(d) + [DELIMITER]).lk.log == h.lk.log
  {
    hide Header, Complete, RecvByte, Recv, Judge, CheckOctets, CrcOf;
    DecodedPiece(h, d);
    JudgeLogs(h.lk, d);
    if WellFormed(d) {
      var n := |d| - 2;
      assert d[n..] == d[n..n + 2] && d == d[..n] + d[n..];
      CodewordsFarApart(Message(f), d[..n], k);
    }
  }

  /** So in particular if payload or check octets were damaged. */
  lemma DamagedPayloadRejected(h: H5, f: Frame, d: seq<byte>, k: nat)
    requires AtStart(h) && Valid(f) && f.crc
    requires d != Body(f) && k >= 4 && AgreeOutside(Body(f), d, k)
    ensures Recv(h, SlipAll(d) + [DELIMITER]).lk.log == h.lk.log
  {
    hide Header, RecvByte, Recv, CheckOctets, CrcOf;
    FrameOfBody(f, []);
    assert Body(f) + [] == Body(f);
    SameHeader(Body(f), d, k);
    DamagedPacketRejected(h, f, d, k);
  }

  lemma SameHeader(d: seq<byte>, e: seq<byte>, k: nat)
    requires |d| == |e| >= 4 && k >= 4 && AgreeOutside(d, e, k)
    ensures HdrCrc(d) == HdrCrc(e) && HdrLen(d) == HdrLen(e)
  {
    assert d[..k][..4] == d[..4] && e[..k][..4] == e[..4];
    assert forall i :: 0 <= i < 4 ==> d[i] == d[..4][i] == e[..4][i] == e[i];
  }

  /** A packet with one damaged header octet is not delivered, checked or not. */
  lemma DamagedHeaderRejected(h: H5, f: Frame, d: seq<byte>, k: nat)
    requires AtStart(h) && Valid(f)
    requires |d| == |Body(f)| && k < 4 && d[k] != Body(f)[k]
    requires forall i :: 0 <= i < 4 && i != k ==> d[i] == Body(f)[i]
    ensures Recv(h, SlipAll(d) + [DELIMITER]).lk == h.lk
  {
    hide Header, Complete, Check, RecvByte, Recv, CheckOctets, CrcOf;
    FrameOfBody(f, []);
    assert Body(f) + [] == Body(f);
    DecodedPiece(h, d);
    HeaderOctetDetected(Body(f), d, k);
  }

  lemma DecodedPiece(h: H5, d: seq<byte>)
    requires AtStart(h)
    ensures Recv(h, SlipAll(d) + [DELIMITER]).lk == Judge(h.lk, d)
  {
    hide RecvByte, Recv, Judge;
    NoReservedOctets(d);
    UnslipSlip(d, []);
    assert SlipAll(d) + [] == SlipAll(d);
    assert d + Unslip(false, []) == d;
    PieceFromStart(h, SlipAll(d));
  }

  // ---- exactly once, in order ----

  /** How many coded octets a whole transmission of `f` has between its delimiters. */
  function Full(f: Frame): nat
    requires Valid(f)
  {
    |SlipAll(Body(f))|
  }

  /** What follows the leading delimiter of one transmission of `f` that stops after `k` coded octets, with
      the delimiter that comes next on the line; a whole transmission has its own closing delimiter too. */
  function CopyTail(f: Frame, k: nat): seq<byte>
    requires Valid(f) && k <= Full(f)
  {
    SlipAll(Body(f))[..k] + [DELIMITER] + if k == Full(f) then [DELIMITER] else []
  }

  /** The link after the packets it has delivered. */
  ghost predicate Delivered(h: H5, r: H5, fs: seq<Frame>) {
    && AtStart(r) && !ResyncRule(r.lk)
    && r.lk.log == h.lk.log + fs
    && r.lk.rxSeqTxAck == (h.lk.rxSeqTxAck + |fs|) % 8
  }

  /** Running into `exit` is the only other outcome; then at most the same packets were delivered. */
  ghost predicate DeliveredOrExited(h: H5, r: H5, fs: seq<Frame>) {
    (r.lk.exited && h.lk.log <= r.lk.log <= h.lk.log + fs) || Delivered(h, r, fs)
  }

  lemma DeliveredThen(h: H5, h1: H5, r: H5, fs: seq<Frame>, gs: seq<Frame>)
    requires Delivered(h, h1, fs) && DeliveredOrExited(h1, r, gs)
    ensures DeliveredOrExited(h, r, fs + gs)
  {
    assert h.lk.log + fs + gs == h.lk.log + (fs + gs);
  }

  lemma ExitedThen(h: H5, h1: H5, fs: seq<Frame>, gs: seq<Frame>)
    requires DeliveredOrExited(h, h1, fs) && h1.lk.exited
    ensures DeliveredOrExited(h, h1, fs + gs)
  {
    assert h.lk.log + fs <= h.lk.log + (fs + gs);
  }

  lemma NotExited(h: H5, r: H5, fs: seq<Frame>)
    requires h.lk.Wf() && DeliveredOrExited(h, r, fs) && !r.lk.exited
    ensures Delivered(h, r, fs) && AtStart(r) && !ResyncRule(r.lk)
    ensures r.lk.rxSeqTxAck == (h.lk.rxSeqTxAck + |fs|) % 8
  {}

  lemma NoneDelivered(h: H5)
    requires AtStart(h) && !ResyncRule(h.lk)
    ensures DeliveredOrExited(h, h, [])
  {
    assert h.lk.log + [] == h.lk.log;
  }

  lemma DelimiterAtStart(h: H5)
    requires Inv(h) && AtStartUnlessExited(h)
    ensures Recv(h, [DELIMITER]) == h
  {
    if h.lk.exited {
      RecvExited(h, [DELIMITER]);
    } else {
      assert RecvByte(h, DELIMITER) == h;
      assert Recv(h, [DELIMITER]) == Recv(h, [DELIMITER][1..]);
    }
  }

  /** The first whole copy of the awaited packet delivers it; every other copy changes nothing. */
  lemma CopyEffect(h: H5, f: Frame, k: nat)
    requires AtStart(h) && !ResyncRule(h.lk) && Valid(f) && f.reliable && k <= Full(f)
    ensures
      var r := Recv(h, CopyTail(f, k));
      DeliveredOrExited(h, r, if f.seqno == h.lk.rxSeqTxAck && k == Full(f) then [f] else [])
  {
    hide Body, RecvByte, Recv, Judge;
    if k == Full(f) {
      assert SlipAll(Body(f))[..k] == SlipAll(Body(f));
      WholeCopyEffect(h, f);
    } else {
      var c := SlipAll(Body(f))[..k];
      NoReservedOctets(Body(f));
      assert forall x :: x in c ==> x in SlipAll(Body(f));
      PieceFromStart(h, c);
      UnslipCut(Body(f), k);
      CutIsNotDelivered(h.lk, f, Unslip(false, c));
      assert CopyTail(f, k) == c + [DELIMITER];
      assert h.lk.log + [] == h.lk.log;
    }
  }

  lemma WholeCopyEffect(h: H5, f: Frame)
    requires AtStart(h) && !ResyncRule(h.lk) && Valid(f) && f.reliable
    ensures
      var r := Recv(h, SlipAll(Body(f)) + [DELIMITER] + [DELIMITER]);
      DeliveredOrExited(h, r, if f.seqno == h.lk.rxSeqTxAck then [f] else [])
  {
    hide Body, RecvByte, Recv, Judge, Complete;
    var c := SlipAll(Body(f)) + [DELIMITER];
    var r := Recv(h, c);
    DecodedPiece(h, Body(f));
    JudgeBody(h.lk, f);
    PieceKeepsStart(h, f);
    RecvConcat(h, c, [DELIMITER]);
    DelimiterAtStart(r);
    assert h.lk.log + [] == h.lk.log;
  }

  lemma PieceKeepsStart(h: H5, f: Frame)
    requires AtStart(h) && Valid(f)
    ensures AtStartUnlessExited(Recv(h, SlipAll(Body(f)) + [DELIMITER]))
  {
    hide Body, RecvByte, Recv, Judge;
    NoReservedOctets(Body(f));
    PieceFromStart(h, SlipAll(Body(f)));
  }

  lemma JudgeBody(l: Link, f: Frame)
    requires l.Wf() && Valid(f) && f.reliable
    ensures f.seqno != l.rxSeqTxAck ==> Judge(l, Body(f)) == OutOfOrder(l, f.seqno)
    ensures f.seqno == l.rxSeqTxAck ==>
              && Judge(l, Body(f)) == CompleteFrame(l, f)
              && SameTransport(l.(log := l.log + [f], rxSeqTxAck := (f.seqno + 1) % 8), Judge(l, Body(f)))
  {
    hide Body, Complete;
    FrameOfBody(f, []);
    assert Body(f) + [] == Body(f);
    if f.seqno == l.rxSeqTxAck {
      CompleteFacts(l, Body(f));
    }
  }

  lemma CutIsNotDelivered(l: Link, f: Frame, d: seq<byte>)
    requires l.Wf() && !ResyncRule(l) && Valid(f) && d < Body(f)
    ensures Judge(l, d) == l || Judge(l, d) == l.(isTxAckReq := true)
  {
    hide Header, Complete, Check, Body;
    FrameOfBody(f, []);
    assert Body(f) + [] == Body(f);
    if |d| >= 4 {
      HeaderIsPrefix(d, Body(f), l);
    }
  }

  ghost predicate CutsOf(f: Frame, cuts: seq<nat>) {
    Valid(f) && forall i :: 0 <= i < |cuts| ==> cuts[i] <= Full(f)
  }

  function Copies(f: Frame, cuts: seq<nat>): seq<byte>
    requires CutsOf(f, cuts)
  {
    if cuts == [] then []
    else CopyTail(f, cuts[0]) + Copies(f, cuts[1..])
  }

  /** Any number of copies of an awaited packet, whole or cut, deliver it once if one of them is whole; any
      number of copies of a packet that is not awaited deliver nothing. */
  lemma {:induction false} CopiesEffect(h: H5, f: Frame, cuts: seq<nat>)
    requires AtStart(h) && !ResyncRule(h.lk) && f.reliable && CutsOf(f, cuts)
    ensures
      var r := Recv(h, Copies(f, cuts));
      DeliveredOrExited(h, r, if f.seqno == h.lk.rxSeqTxAck && Full(f) in cuts then [f] else [])
    decreases cuts
  {
    hide Full, CopyTail, RecvByte, DeliveredOrExited;
    if cuts == [] {
      assert Recv(h, []) == h;
      NoneDelivered(h);
    } else {
      var here := if f.seqno == h.lk.rxSeqTxAck && cuts[0] == Full(f) then [f] else [];
      var later := if f.seqno == h.lk.rxSeqTxAck && here == [] && Full(f) in cuts[1..] then [f] else [];
      var h1 := Recv(h, CopyTail(f, cuts[0]));
      CopyEffect(h, f, cuts[0]);
      RecvConcat(h, CopyTail(f, cuts[0]), Copies(f, cuts[1..]));
      assert here + later == if f.seqno == h.lk.rxSeqTxAck && Full(f) in cuts then [f] else [];
      if h1.lk.exited {
        RecvExited(h1, Copies(f, cuts[1..]));
        ExitedThen(h, h1, here, later);
      } else {
        NotExited(h, h1, here);
        CopiesEffect(h1, f, cuts[1..]);
        DeliveredThen(h, h1, Recv(h1, Copies(f, cuts[1..])), here, later);
      }
    }
  }

  /** One packet and the cuts at which its transmissions stopped. */
  datatype Sending = Sending(frame: Frame, cuts: seq<nat>)

  /** Consecutive reliable packets starting at sequence number `n`, each sent whole at least once. */
  ghost predicate Consecutive(ss: seq<Sending>, n: nat) {
    ss != [] ==>
      && ss[0].frame.reliable && ss[0].frame.seqno == n
      && CutsOf(ss[0].frame, ss[0].cuts)
      && Full(ss[0].frame) in ss[0].cuts
      && Consecutive(ss[1..], (n + 1) % 8)
  }

  function Line(ss: seq<Sending>): seq<byte>
    requires forall s :: s in ss ==> CutsOf(s.frame, s.cuts)
  {
    if ss == [] then []
    else
      assert ss[0] in ss;
      Copies(ss[0].frame, ss[0].cuts) + Line(ss[1..])
  }

  function FramesOf(ss: seq<Sending>): seq<Frame> {
    if ss == [] then [] else [ss[0].frame] + FramesOf(ss[1..])
  }

  lemma {:induction false} ConsecutiveCuts(ss: seq<Sending>, n: nat)
    requires Consecutive(ss, n)
    ensures forall s :: s in ss ==> CutsOf(s.frame, s.cuts)
    decreases ss
  {
    if ss == [] {
    } else {
      ConsecutiveCuts(ss[1..], (n + 1) % 8);
    }
  }

  /** However often each of the consecutive packets is sent, whole or cut, and however the copies are cut,
      the receiver delivers exactly the packets, each once and in order. */
  lemma {:induction false} ExactlyOnceInOrder(h: H5, ss: seq<Sending>)
    requires AtStart(h) && !ResyncRule(h.lk) && Consecutive(ss, h.lk.rxSeqTxAck)
    requires forall s :: s in ss ==> CutsOf(s.frame, s.cuts)
    ensures DeliveredOrExited(h, Recv(h, Line(ss)), FramesOf(ss))
    decreases ss
  {
    hide Full, Copies, RecvByte, CutsOf, DeliveredOrExited, Delivered;
    if ss == [] {
      assert Recv(h, []) == h;
      NoneDelivered(h);
    } else {
      var f, line := ss[0].frame, Line(ss[1..]);
      var h1 := Recv(h, Copies(f, ss[0].cuts));
      CopiesEffect(h, f, ss[0].cuts);
      RecvConcat(h, Copies(f, ss[0].cuts), line);
      if h1.lk.exited {
        RecvExited(h1, line);
        ExitedThen(h, h1, [f], FramesOf(ss[1..]));
      } else {
        NotExited(h, h1, [f]);
        ExactlyOnceInOrder(h1, ss[1..]);
        DeliveredThen(h, h1, Recv(h1, line), [f], FramesOf(ss[1..]));
      }
    }
  }

  // ---- the patch-time resync rule ----

  /** One whole transmission of `f` after its leading delimiter. */
  function Whole(f: Frame): seq<byte>
    requires Valid(f)
  {
    SlipAll(Body(f)) + [DELIMITER] + [DELIMITER]
  }

  lemma WholeStep(h: H5, f: Frame)
    requires AtStart(h) && Valid(f) && f.reliable
    ensures
      var r := Recv(h, Whole(f));
      r.lk == Judge(h.lk, Body(f)) && AtStartUnlessExited(r)
  {
    hide Body, RecvByte, Recv, Judge;
    var c := SlipAll(Body(f)) + [DELIMITER];
    DecodedPiece(h, Body(f));
    PieceKeepsStart(h, f);
    RecvConcat(h, c, [DELIMITER]);
    DelimiterAtStart(Recv(h, c));
  }

  /** Where the resync rule applies a packet can be delivered twice: three copies of the awaited packet are
      delivered once exactly if the rule does not hold after the first. */
  lemma ThreeCopies(h: H5, f: Frame)
    requires AtStart(h) && Valid(f) && f.reliable && f.seqno == h.lk.rxSeqTxAck
    requires !CompleteFrame(h.lk, f).exited
    ensures
      var r := Recv(h, Whole(f) + Whole(f) + Whole(f));
      && (r.lk.log == h.lk.log + [f] <==> !ResyncRule(CompleteFrame(h.lk, f)))
      && (r.lk.log == h.lk.log + [f, f] <==> ResyncRule(CompleteFrame(h.lk, f)))
  {
    hide Body, RecvByte, Recv, Judge, CompleteFrame, Whole;
    var h1 := Recv(h, Whole(f));
    WholeStep(h, f);
    JudgeBody(h.lk, f);
    var h2 := Recv(h1, Whole(f));
    WholeStep(h1, f);
    JudgeBody(h1.lk, f);
    WholeStep(h2, f);
    JudgeBody(h2.lk, f);
    RecvConcat(h, Whole(f) + Whole(f), Whole(f));
    RecvConcat(h, Whole(f), Whole(f));
    assert |h.lk.log + [f]| != |h.lk.log + [f, f]|;
    assert h.lk.log + [f] + [f] == h.lk.log + [f, f];
  }

  /** An empty data packet that the link awaits. */
  function EmptyPacket(l: Link): (f: Frame)
    requires l.Wf()
    ensures Valid(f) && f.reliable && f.seqno == l.rxSeqTxAck
  {
    Frame(true, l.rxSeqTxAck, 0, false, HCI_ACLDATA_PKT, [])
  }

  /** It leaves the rule in force: no handler has anything to do with it. */
  lemma EmptyPacketKeepsRule(l: Link)
    requires l.Wf() && !l.exited && ResyncRule(l)
    ensures !CompleteFrame(l, EmptyPacket(l)).exited && ResyncRule(CompleteFrame(l, EmptyPacket(l)))
  {
    hide AckFrame, CrcOf, CheckOctets;
    var f := EmptyPacket(l);
    var mem := Body(f);
    FrameOfBody(f, []);
    assert mem + [] == mem && |mem| == 4;
    assert View(mem, 4, HdrLen(mem)).At(0) == 0;
  }

  /** `fs` and nothing else, unless the process exits on the way. */
  ghost predicate LoggedOrExited(h: H5, r: H5, fs: seq<Frame>) {
    r.lk.log == h.lk.log + fs || (r.lk.exited && h.lk.log <= r.lk.log <= h.lk.log + fs)
  }

  /** Every line that carries consecutive reliable packets, each whole at least once, delivers each once. */
  ghost predicate ExactlyOnce(h: H5)
    requires Inv(h)
  {
    forall ss: seq<Sending> ::
      Consecutive(ss, h.lk.rxSeqTxAck) && (forall s: Sending :: s in ss ==> CutsOf(s.frame, s.cuts)) ==>
      LoggedOrExited(h, Recv(h, Line(ss)), FramesOf(ss))
  }

  lemma CopiesCons(f: Frame, n: nat, cuts: seq<nat>)
    requires CutsOf(f, cuts) && n <= Full(f)
    ensures CutsOf(f, [n] + cuts) && Copies(f, [n] + cuts) == CopyTail(f, n) + Copies(f, cuts)
  {
    hide Full, CopyTail;
    assert ([n] + cuts)[1..] == cuts;
  }

  lemma CopiesOfThree(f: Frame, n: nat)
    requires Valid(f) && n <= Full(f)
    ensures CutsOf(f, [n, n, n])
    ensures Copies(f, [n, n, n]) == CopyTail(f, n) + CopyTail(f, n) + CopyTail(f, n)
  {
    hide Full, CopyTail, Copies, CutsOf;
    assert CutsOf(f, []) && Copies(f, []) == [] by {
      NoCopies(f);
    }
    CopiesCons(f, n, []);
    CopiesCons(f, n, [n] + []);
    CopiesCons(f, n, [n] + ([n] + []));
    assert [n] + ([n] + ([n] + [])) == [n, n, n];
    var c := CopyTail(f, n);
    assert c + (c + (c + [])) == CopyTail(f, n) + CopyTail(f, n) + CopyTail(f, n);
  }

  lemma NoCopies(f: Frame)
    requires Valid(f)
    ensures CutsOf(f, []) && Copies(f, []) == []
  {}

  lemma OneSending(h: H5, f: Frame, cuts: seq<nat>)
    requires h.lk.Wf() && f.reliable && f.seqno == h.lk.rxSeqTxAck && CutsOf(f, cuts) && Full(f) in cuts
    ensures
      var ss := [Sending(f, cuts)];
      Consecutive(ss, h.lk.rxSeqTxAck) && Line(ss) == Copies(f, cuts) && FramesOf(ss) == [f]
  {
    hide Copies, CutsOf, Full;
    var ss := [Sending(f, cuts)];
    assert ss[1..] == [] && Line([]) == [] && FramesOf([]) == [];
    assert forall s: Sending :: s in ss ==> s == Sending(f, cuts);
  }

  /** The line that three copies of the awaited empty packet make. */
  lemma ThreeCopiesLine(h: H5)
    requires AtStart(h)
    ensures
      var f := EmptyPacket(h.lk);
      var ss := [Sending(f, [Full(f), Full(f), Full(f)])];
      && Consecutive(ss, h.lk.rxSeqTxAck) && CutsOf(f, ss[0].cuts)
      && Line(ss) == Whole(f) + Whole(f) + Whole(f) && FramesOf(ss) == [f]
  {
    hide Full, Body, Copies, CutsOf, CopyTail, Whole, EmptyPacket;
    var f := EmptyPacket(h.lk);
    WholeIsCopy(f);
    CopiesOfThree(f, Full(f));
    OneSending(h, f, [Full(f), Full(f), Full(f)]);
  }

  lemma WholeIsCopy(f: Frame)
    requires Valid(f)
    ensures CopyTail(f, Full(f)) == Whole(f)
  {
    assert SlipAll(Body(f))[..Full(f)] == SlipAll(Body(f));
  }

  /** The resync rule is the one exception: the link delivers each packet exactly once, however it is sent,
      if and only if the rule does not apply to begin with. */
  lemma ResyncRuleIsTheException(h: H5)
    requires AtStart(h)
    ensures ExactlyOnce(h) <==> !ResyncRule(h.lk)
  {
    hide Body, RecvByte, Recv, Line, FramesOf, CompleteFrame, Consecutive, CutsOf, Whole;
    if ResyncRule(h.lk) {
      var f := EmptyPacket(h.lk);
      var ss := [Sending(f, [Full(f), Full(f), Full(f)])];
      ThreeCopiesLine(h);
      EmptyPacketKeepsRule(h.lk);
      ThreeCopies(h, f);
      assert |h.lk.log + [f, f]| > |h.lk.log + [f]|;
      assert !LoggedOrExited(h, Recv(h, Line(ss)), FramesOf(ss));
    } else {
      forall ss: seq<Sending> |
        Consecutive(ss, h.lk.rxSeqTxAck) && forall s: Sending :: s in ss ==> CutsOf(s.frame, s.cuts)
        ensures LoggedOrExited(h, Recv(h, Line(ss)), FramesOf(ss))
      {
        ExactlyOnceInOrder(h, ss);
      }
    }
  }

  // ---- acknowledgement ----

  /** Each write is a packet of its own kind: the link control replies are never acknowledgements. */
  predicate IsAck(w: seq<byte>, ack: nat) {
    exists crc :: Acks(w, ack, crc)
  }

  predicate Acks(w: seq<byte>, ack: nat, crc: bool) {
    ack < 8 && w == Encode(Frame(false, 0, ack, crc, H5_ACK_PKT, []))
  }

  lemma RepliesAreNoAcks(ack: nat)
    ensures !IsAck(SYNC_RESP_PKT, ack) && !IsAck(CONF_RESP_PKT, ack)
  {
    if ack < 8 {
      forall crc: bool
        ensures Encode(Frame(false, 0, ack, crc, H5_ACK_PKT, []))[2] == 0
      {
        var f := Frame(false, 0, ack, crc, H5_ACK_PKT, []);
        var b := Body(f);
        assert b[0] != 0xc0 && b[0] != 0xdb && b[0] != 0x11 && b[0] != 0x13 && b[1] == 0;
        assert SlipAll(b) == [b[0]] + SlipAll(b[1..]) && SlipAll(b[1..]) == [b[1]] + SlipAll(b[1..][1..]);
      }
    }
  }

  /** Before `h5_complete_rx_pkt` returns, the link has written exactly one acknowledgement for a reliable
      packet, the last of its writes, carrying the next sequence number; no request is left over. */
  lemma ReliableIsAcknowledged(l: Link, mem: seq<byte>)
    requires l.Wf() && |mem| >= 4 && |mem| >= 4 + HdrLen(mem)
    ensures
      var r := Complete(l, mem);
      HdrReliable(mem) && !r.exited ==>
        && !r.isTxAckReq
        && |r.written| > 0
        && Acks(r.written[|r.written| - 1], (HdrSeq(mem) + 1) % 8, r.useCrc)
        && (r.written[..|r.written| - 1] == l.written ||
            r.written[..|r.written| - 1] == l.written + [SYNC_RESP_PKT] ||
            r.written[..|r.written| - 1] == l.written + [CONF_RESP_PKT])
  {
    hide Enter, Dispatch, AckFrame, HandleInternalRx, HciRecvFrame, IsAck, Acks, HdrLen, HdrReliable, HdrSeq;
    var e := Enter(l, mem);
    var d := Dispatch(e, mem);
    EnterAsks(l, mem);
    DispatchWrites(e, mem);
    DispatchKeepsTransport(e, mem);
    AckFrameIsAck(e);
    AckFrameIsAck(d);
    if HdrReliable(mem) && !d.exited {
      LastWrite(d.written, AckFrame(d));
      LastWrite(e.written, AckFrame(e));
    }
  }

  lemma EnterAsks(l: Link, mem: seq<byte>)
    requires l.Wf() && |mem| >= 4 && |mem| >= 4 + HdrLen(mem)
    ensures
      var e := Enter(l, mem);
      e.written == l.written && (HdrReliable(mem) ==> e.isTxAckReq && e.rxSeqTxAck == (HdrSeq(mem) + 1) % 8)
  {
    hide FrameOf, HdrLen;
  }

  lemma LastWrite(ws: seq<seq<byte>>, w: seq<byte>)
    ensures (ws + [w])[..|ws|] == ws && (ws + [w])[|ws|] == w
  {}

  /** The handlers answer with a reply, which leaves the request, or with the acknowledgement itself. */
  lemma DispatchWrites(e: Link, mem: seq<byte>)
    requires e.Wf() && |mem| >= 4
    ensures
      var d := Dispatch(e, mem);
      || (d.isTxAckReq == e.isTxAckReq &&
          d.written in {e.written, e.written + [SYNC_RESP_PKT], e.written + [CONF_RESP_PKT]})
      || (!d.isTxAckReq && d.useCrc == e.useCrc && d.written == e.written + [AckFrame(e)])
  {
    hide AckFrame, HandleInternalRx, HciRecvFrame, HdrType;
    var v := View(mem, 4, HdrLen(mem));
    InternalWrites(e, v);
    RecvFrameWrites(e, v);
  }

  lemma AckFrameIsAck(l: Link)
    requires l.Wf()
    ensures IsAck(AckFrame(l), l.rxSeqTxAck) && Acks(AckFrame(l), l.rxSeqTxAck, l.useCrc)
  {
    hide Encode;
    assert Acks(AckFrame(l), l.rxSeqTxAck, l.useCrc);
  }

  lemma InternalWrites(e: Link, v: View)
    requires e.Wf()
    ensures
      var d := HandleInternalRx(e, v);
      || (d.isTxAckReq == e.isTxAckReq &&
          d.written in {e.written, e.written + [SYNC_RESP_PKT], e.written + [CONF_RESP_PKT]})
      || (!d.isTxAckReq && d.useCrc == e.useCrc && d.written == e.written + [AckFrame(e)])
  {
    hide AckFrame, Opens;
  }

  lemma RecvFrameWrites(e: Link, v: View)
    ensures HciRecvFrame(e, v).written == e.written && HciRecvFrame(e, v).isTxAckReq == e.isTxAckReq
  {
    hide InitHciCc, PostHciCc, SameTransport;
    CompletionKeeps(e, v);
  }
}
