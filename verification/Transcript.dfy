/** What reaches the serial port: every command in order under its own sequence number, and beside that only
    acknowledgements, link control and repeats of the packet under way. */
module Transcript {
  import opened Bytes
  import opened Crc
  import opened Frames
  import opened LinkLayer
  import opened Receiver
  import opened Delivery

  // ---- what reception writes ----

  /** A write that answers the peer. */
  ghost predicate IsAnswer(w: seq<byte>) {
    w == SYNC_RESP_PKT || w == CONF_RESP_PKT || exists ack :: IsAck(w, ack)
  }

  /** `after` continues `before` with answers and copies of `w` only. */
  ghost predicate OnlyRepeats(before: seq<seq<byte>>, after: seq<seq<byte>>, w: seq<byte>) {
    before <= after && forall k :: |before| <= k < |after| ==> IsAnswer(after[k]) || after[k] == w
  }

  lemma RepeatsTransitive(a: seq<seq<byte>>, b: seq<seq<byte>>, c: seq<seq<byte>>, w: seq<byte>)
    requires OnlyRepeats(a, b, w) && OnlyRepeats(b, c, w)
    ensures OnlyRepeats(a, c, w)
  {
    hide IsAnswer;
    assert forall k :: 0 <= k < |b| ==> c[k] == b[k];
  }

  lemma NothingWritten(a: seq<seq<byte>>, w: seq<byte>)
    ensures OnlyRepeats(a, a, w) && OnlyRepeats(a, a + [w], w)
  {
    hide IsAnswer;
  }

  lemma AckIsAnswer(l: Link)
    requires l.Wf()
    ensures IsAnswer(AckFrame(l))
  {
    hide AckFrame, IsAck;
    AckFrameIsAck(l);
  }

  lemma CompleteWrites(l: Link, mem: seq<byte>, w: seq<byte>)
    requires l.Wf() && |mem| >= 4 && |mem| >= 4 + HdrLen(mem)
    ensures OnlyRepeats(l.written, Complete(l, mem).written, w)
  {
    hide Enter, Dispatch, AckFrame, IsAck, HdrLen;
    var e := Enter(l, mem);
    EnterAsks(l, mem);
    DispatchWrites(e, mem);
    AckIsAnswer(e);
    AckIsAnswer(Dispatch(e, mem));
  }

  lemma TurnWrites(h: H5, b: byte, w: seq<byte>)
    requires Inv(h) && !h.lk.exited
    ensures OnlyRepeats(h.lk.written, Turn(h, b).0.lk.written, w)
  {
    hide Complete, OnlyRepeats, UnslipOne, BitRev16, GetCrc, CrcOf, Running;
    NothingWritten(h.lk.written, w);
    if h.rx.count == 0 && h.rx.state.Buffering() && |h.rx.buf| >= 4 && |h.rx.buf| >= 4 + HdrLen(h.rx.buf) {
      CompleteWrites(h.lk, h.rx.buf, w);
    }
  }

  lemma {:induction false} RecvByteWrites(h: H5, b: byte, w: seq<byte>)
    requires Inv(h)
    ensures OnlyRepeats(h.lk.written, RecvByte(h, b).lk.written, w)
    decreases StateRank(h.rx)
  {
    hide OnlyRepeats, Turn, Inv;
    NothingWritten(h.lk.written, w);
    if h.lk.exited {
    } else {
      var r := Turn(h, b);
      TurnWrites(h, b, w);
      if !r.1 && !r.0.lk.exited {
        RecvByteWrites(r.0, b, w);
        RepeatsTransitive(h.lk.written, r.0.lk.written, RecvByte(r.0, b).lk.written, w);
      }
    }
  }

  /** Whatever comes in, the link writes answers only. */
  lemma {:induction false} RecvWrites(h: H5, data: seq<byte>, w: seq<byte>)
    requires Inv(h)
    ensures OnlyRepeats(h.lk.written, Recv(h, data).lk.written, w)
    decreases data
  {
    hide OnlyRepeats, RecvByte, Inv;
    NothingWritten(h.lk.written, w);
    if data == [] {
    } else {
      var r := RecvByte(h, data[0]);
      RecvByteWrites(h, data[0], w);
      RecvWrites(r, data[1..], w);
      RepeatsTransitive(h.lk.written, r.lk.written, Recv(h, data).lk.written, w);
    }
  }

  // ---- the whole line ----

  const SYNC_PKT: seq<byte> := [0x01, 0x7e]
  const CONF_PKT: seq<byte> := [0x03, 0xfc, 0x14]

  /** The packet carries `payload` as a command under sequence number `seqno`. */
  predicate CarriesCommand(f: Frame, seqno: nat, payload: seq<byte>) {
    f.seqno < 8 && f.ack < 8 && f == Frame(true, seqno, f.ack, f.crc, HCI_COMMAND_PKT, payload)
  }

  ghost predicate IsCommand(w: seq<byte>, seqno: nat, payload: seq<byte>) {
    exists f :: CarriesCommand(f, seqno, payload) && w == Encode(f)
  }

  /** A link control packet of the host's with this payload. */
  ghost predicate IsControl(w: seq<byte>, payload: seq<byte>) {
    exists f :: Establishes(f) && f.payload == payload && w == Encode(f)
  }

  predicate Establishes(f: Frame) {
    f.ack < 8 && f == Frame(false, 0, f.ack, f.crc, H5_LINK_CTL_PKT, f.payload) && f.payload in {SYNC_PKT, CONF_PKT}
  }

  /** A packet by which the host establishes the link. */
  ghost predicate IsLinkControl(w: seq<byte>) {
    exists f :: Establishes(f) && w == Encode(f)
  }

  /** Write `k` is the command under way at that point, number `i`. */
  ghost predicate Repeats(writes: seq<seq<byte>>, at: seq<nat>, k: nat, i: nat) {
    k < |writes| && i < |at| && at[i] <= k && (i + 1 < |at| ==> k < at[i + 1]) && writes[k] == writes[at[i]]
  }

  /** The commands are first written at the positions `at`, in order, command `i` under sequence number `i`
      modulo 8; all other writes answer the peer, establish the link or repeat the command under way. */
  ghost predicate Faithful(writes: seq<seq<byte>>, commands: seq<seq<byte>>, at: seq<nat>) {
    && |at| == |commands|
    && (forall i :: 0 <= i < |at| ==> at[i] < |writes| && IsCommand(writes[at[i]], i % 8, commands[i]))
    && (forall i, j :: 0 <= i < j < |at| ==> at[i] < at[j])
    && (forall k :: 0 <= k < |writes| ==>
          IsAnswer(writes[k]) || IsLinkControl(writes[k]) || exists i :: Repeats(writes, at, k, i))
  }

  lemma RepeatsStart(before: seq<seq<byte>>, w: seq<byte>, after: seq<seq<byte>>)
    requires OnlyRepeats(before + [w], after, w)
    ensures before <= after && |after| > |before| && after[|before|] == w
  {
    hide IsAnswer;
    assert after[|before|] == (before + [w])[|before|];
  }

  /** One more command, with its repeats. */
  lemma CommandIsFaithful(before: seq<seq<byte>>, after: seq<seq<byte>>, commands: seq<seq<byte>>, at: seq<nat>,
                          w: seq<byte>, payload: seq<byte>)
    requires Faithful(before, commands, at) && IsCommand(w, |commands| % 8, payload)
    requires OnlyRepeats(before + [w], after, w)
    ensures Faithful(after, commands + [payload], at + [|before|])
  {
    hide IsAnswer, IsLinkControl, IsCommand;
    var at' := at + [|before|];
    assert after[|before|] == (before + [w])[|before|] == w;
    assert forall k :: 0 <= k < |before| ==> after[k] == (before + [w])[k] == before[k];
    forall k | 0 <= k < |after|
      ensures IsAnswer(after[k]) || IsLinkControl(after[k]) || exists i :: Repeats(after, at', k, i)
    {
      if k >= |before| {
        assert after[k] == w ==> Repeats(after, at', k, |at|);
      } else if exists i :: Repeats(before, at, k, i) {
        var i :| Repeats(before, at, k, i);
        assert Repeats(after, at', k, i);
      }
    }
  }

  /** Writes that are no command leave the commands as they are. */
  lemma OthersAreFaithful(before: seq<seq<byte>>, after: seq<seq<byte>>, commands: seq<seq<byte>>, at: seq<nat>,
                          w: seq<byte>)
    requires Faithful(before, commands, at) && OnlyRepeats(before, after, w)
    requires IsAnswer(w) || IsLinkControl(w)
    ensures Faithful(after, commands, at)
  {
    hide IsAnswer, IsLinkControl, IsCommand;
    assert forall k :: 0 <= k < |before| ==> after[k] == before[k];
    forall k | 0 <= k < |after|
      ensures IsAnswer(after[k]) || IsLinkControl(after[k]) || exists i :: Repeats(after, at, k, i)
    {
      if k < |before| && exists i :: Repeats(before, at, k, i) {
        var i :| Repeats(before, at, k, i);
        assert Repeats(after, at, k, i);
      }
    }
  }

  lemma NothingIsFaithful()
    ensures Faithful([], [], [])
  {}

  // ---- the host's own packets ----

  lemma TxIsCommand(l: Link, payload: seq<byte>)
    requires l.Wf()
    ensures IsCommand(Encode(TxFrame(l, payload, HCI_COMMAND_PKT)), l.msgqTxSeq, payload)
  {
    hide Encode;
    assert CarriesCommand(TxFrame(l, payload, HCI_COMMAND_PKT), l.msgqTxSeq, payload);
  }

  lemma TxIsLinkControl(l: Link, payload: seq<byte>)
    requires l.Wf() && payload in {SYNC_PKT, CONF_PKT}
    ensures IsLinkControl(Encode(TxFrame(l, payload, H5_LINK_CTL_PKT)))
    ensures IsControl(Encode(TxFrame(l, payload, H5_LINK_CTL_PKT)), payload)
  {
    hide Encode;
    assert Establishes(TxFrame(l, payload, H5_LINK_CTL_PKT));
  }

  /** A write is a command under one number and with one payload at most. */
  lemma CommandIsUnique(w: seq<byte>, m: nat, n: nat, p: seq<byte>, q: seq<byte>)
    requires IsCommand(w, m, p) && IsCommand(w, n, q) && |p| <= MAX_PAYLOAD && |q| <= MAX_PAYLOAD
    ensures m == n && p == q
  {
    hide Encode;
    var f :| CarriesCommand(f, m, p) && w == Encode(f);
    var g :| CarriesCommand(g, n, q) && w == Encode(g);
    EncodeInjective(f, g);
  }
}
