/** Whole runs of the program on one link: receptions interleaved with what the host does. */
module Runs {
  import opened Bytes
  import opened Crc
  import opened LinkLayer
  import opened Receiver
  import opened Ladder

  datatype Event =
    | Received(data: seq<byte>)
    | Prepared(ptype: nat)
    | Wrote(frame: seq<byte>)
    | CommandPending(opcode: nat)
    | CommandCleared
    | DownloadPlanned(total: int)
    | PatchBegun
    | PacketIndexed(index: int)
    | Died

  function Step(h: H5, e: Event): (r: H5)
    requires Inv(h)
    ensures Inv(r)
  {
    hide Recv, RxInv;
    match e
    case Received(data) => Recv(h, data)
    case Prepared(ptype) => TransportStep(h, Prepare(h.lk, ptype))
    case Wrote(frame) => TransportStep(h, Write(h.lk, frame))
    case CommandPending(opcode) => TransportStep(h, h.lk.(cmdOpcode := opcode, cmdSuccess := false))
    case CommandCleared => TransportStep(h, h.lk.(cmdSuccess := false))
    case DownloadPlanned(total) => TransportStep(h, h.lk.(totalNum := total))
    case PatchBegun => TransportStep(h, h.lk.(state := H5Patch, rxIndex := -1))
    case PacketIndexed(index) => TransportStep(h, h.lk.(txIndex := index))
    case Died => h.(lk := h.lk.(exited := true))
  }

  /** The host changes the protocol half only, and nothing that the receiver relies on. */
  function TransportStep(h: H5, l: Link): (r: H5)
    requires Inv(h) && l.Wf() && l.rxSeqTxAck == h.lk.rxSeqTxAck && l.exited == h.lk.exited
    ensures Inv(r)
  {
    hide CrcOf, Running;
    h.(lk := l)
  }

  /** The host does nothing once the process is gone, and begins a download only on an initialised link. */
  predicate Enabled(l: Link, e: Event) {
    && (e.Received? || !l.exited)
    && (e.PatchBegun? ==> l.state == H5Init)
    && (e.CommandPending? && e.opcode == HCI_CMD_RESET ==> l.state.Rank() >= 3)
  }

  function Run(t: seq<Event>): (h: H5)
    ensures Inv(h)
  {
    if |t| == 0 then H5(IDLE, START) else Step(Run(t[..|t| - 1]), t[|t| - 1])
  }

  predicate Legal(t: seq<Event>) {
    |t| > 0 ==> Legal(t[..|t| - 1]) && Enabled(Run(t[..|t| - 1]).lk, t[|t| - 1])
  }

  lemma RunSnoc(t: seq<Event>, e: Event)
    ensures Run(t + [e]) == Step(Run(t), e)
    ensures Legal(t + [e]) <==> Legal(t) && Enabled(Run(t).lk, e)
  {
    hide Step;
    assert (t + [e])[..|t|] == t;
  }

  /** What no step of a run undoes. */
  ghost predicate NeverBack(l: Link, r: Link) {
    && l.log <= r.log && l.written <= r.written
    && l.state.Rank() <= r.state.Rank()
    && (r.useCrc != l.useCrc ==> l.state.Rank() <= 1 && r.state.Rank() >= 2)
    && (History(l) ==> History(r))
  }

  lemma StepNeverBack(h: H5, e: Event)
    requires Inv(h) && Enabled(h.lk, e)
    ensures NeverBack(h.lk, Step(h, e).lk)
  {
    hide Climbed, RxInv, Recv;
    match e
    case Received(data) =>
      RecvIsLater(h, data);
    case _ =>
      if History(h.lk) {
        var r := Step(h, e).lk;
        assert Rungs(r.state) == Rungs(h.lk.state) && r.log == h.lk.log;
        HistorySame(h.lk, r);
      }
  }

  lemma HistorySame(l: Link, r: Link)
    requires History(l) && Rungs(l.state) == Rungs(r.state) && l.log == r.log
    ensures History(r)
  {}

  lemma StartHasHistory()
    ensures History(START)
  {
    var none: seq<nat> := [];
    assert |none| == Rungs(START.state) && Climbed(START.log, none);
  }

  lemma {:induction false} RunNeverBack(t: seq<Event>, i: nat)
    requires Legal(t) && i <= |t|
    ensures Legal(t[..i]) && NeverBack(Run(t[..i]).lk, Run(t).lk)
    decreases |t|
  {
    hide Step, NeverBack, Enabled;
    if i == |t| {
      assert t[..i] == t;
      NeverBackReflexive(Run(t).lk);
    } else {
      var s := t[..|t| - 1];
      assert s[..i] == t[..i];
      RunNeverBack(s, i);
      StepNeverBack(Run(s), t[|t| - 1]);
      NeverBackTransitive(Run(t[..i]).lk, Run(s).lk, Run(t).lk);
    }
  }

  lemma NeverBackReflexive(l: Link)
    ensures NeverBack(l, l)
  {}

  lemma NeverBackTransitive(l: Link, m: Link, r: Link)
    requires NeverBack(l, m) && NeverBack(m, r)
    ensures NeverBack(l, r)
  {
    hide History;
  }

  /** Over every legal run: between any two moments the link state never goes back, nothing is taken out of
      the log, and the use of the check changes only where the link leaves CONFIG. */
  lemma LadderNeverGoesBack(t: seq<Event>, i: nat, j: nat)
    requires Legal(t) && i <= j <= |t|
    ensures NeverBack(Run(t[..i]).lk, Run(t[..j]).lk)
  {
    hide NeverBack, Run;
    RunNeverBack(t, j);
    assert t[..j][..i] == t[..i];
    RunNeverBack(t[..j], i);
  }

  /** A run whose link is active has seen, in this order, a sync response, a configuration response, a final
      index with bit 0x80 and a successful reset completion. */
  lemma ActiveNeedsTheLadder(t: seq<Event>)
    requires Legal(t) && Run(t).lk.state == H5Active
    ensures exists a: nat, b: nat, c: nat, d: nat :: a < b < c < d < |Run(t).lk.log| &&
              Marks(0, Run(t).lk.log[a]) && Marks(1, Run(t).lk.log[b]) &&
              Marks(2, Run(t).lk.log[c]) && Marks(3, Run(t).lk.log[d])
  {
    hide Marks, Step;
    RunNeverBack(t, 0);
    assert t[..0] == [];
    StartHasHistory();
    var log := Run(t).lk.log;
    var ps: seq<nat> :| |ps| == 4 && Climbed(log, ps);
    var a, b, c, d := ps[0], ps[1], ps[2], ps[3];
    assert a < b < c < d < |log| && Marks(0, log[a]) && Marks(1, log[b]) && Marks(2, log[c]) && Marks(3, log[d]);
  }

  // ---- sequence numbers ----

  function ReliableSent(t: seq<Event>): nat {
    if |t| == 0 then 0
    else
      var e := t[|t| - 1];
      ReliableSent(t[..|t| - 1]) + if e.Prepared? && ReliableType(e.ptype) then 1 else 0
  }

  /** Reliable packets are numbered consecutively from 0 modulo 8, and nothing but preparing one uses a
      number up: neither reception, nor acknowledgements, nor retransmission. */
  lemma {:induction false} NumberingIsConsecutive(t: seq<Event>)
    ensures Run(t).lk.msgqTxSeq == ReliableSent(t) % 8
    decreases |t|
  {
    hide Step, Inv;
    if |t| == 0 {
    } else {
      var s := t[..|t| - 1];
      NumberingIsConsecutive(s);
      StepNumbers(Run(s), t[|t| - 1]);
      var n := ReliableSent(s);
      assert (n % 8 + 1) % 8 == (n + 1) % 8;
      assert Run(t) == Step(Run(s), t[|t| - 1]);
    }
  }

  lemma StepNumbers(h: H5, e: Event)
    requires Inv(h)
    ensures Step(h, e).lk.msgqTxSeq ==
              if e.Prepared? && ReliableType(e.ptype) then (h.lk.msgqTxSeq + 1) % 8 else h.lk.msgqTxSeq
  {
    hide Recv, Later, RxInv;
    if e.Received? {
      RecvIsLater(h, e.data);
      LaterKeepsNumber(h.lk, Recv(h, e.data).lk);
    }
  }

  lemma LaterKeepsNumber(l: Link, r: Link)
    requires Later(l, r)
    ensures r.msgqTxSeq == l.msgqTxSeq
  {
    hide History, IndexIsFresh, SuccessIsFresh;
  }
}
