/** The host program on a three-wire UART: commands with their waits and retransmissions, link
    establishment, the download and the final reset. What epoll reports is an input. */
module Driver {
  import opened Bytes
  import opened Frames
  import opened LinkLayer
  import opened Receiver
  import opened Buffers
  import opened Ladder
  import opened Runs
  import opened Waits
  import opened Delivery
  import opened Planner
  import opened Controller
  import opened Transcript
  import opened Completions
  import opened Uart

  /** `Blocked`: the inputs are used up and the program still waits. */
  datatype Outcome = Returned(code: int) | Exited | Blocked

  class H5Driver {
    const cfg: H5Link
    /** What `epoll_wait` is going to report. */
    var waits: seq<Wait>
    ghost var trace: seq<Event>
    /** The payloads of all command packets prepared so far. */
    ghost var commands: seq<seq<byte>>
    /** Where in `cfg.written` each of them was first written. */
    ghost var sentAt: seq<nat>

    ghost function Repr(): set<object>
      reads this, cfg
    {
      {this} + cfg.Repr()
    }

    ghost predicate Valid()
      reads `trace, cfg, cfg.rxSkb, if cfg.rxSkb != null then {cfg.rxSkb.data} else {}
    {
      cfg.Valid() && cfg.Abs() == Run(trace) && Legal(trace)
    }

    /** The commands prepared are on the line, in order, each under its own sequence number, with nothing in
        between but answers, link control and repeats. */
    ghost predicate Line()
      reads `commands, `sentAt, cfg`written, cfg`msgqTxSeq
    {
      cfg.msgqTxSeq == |commands| % 8 && Faithful(cfg.written, commands, sentAt)
    }

    lemma LinkIsWf()
      requires Valid()
      ensures cfg.Lk().Wf()
    {
      hide RxInv, Run, Legal;
    }

    constructor (inputs: seq<Wait>)
      ensures Valid() && fresh(Repr()) && cfg.Lk() == START && cfg.live == {}
      ensures waits == inputs && trace == [] && commands == [] && Line()
    {
      NothingIsFaithful();
      cfg := new H5Link();
      waits := inputs;
      trace, commands, sentAt := [], [], [];
    }

    // ---- single steps ----

    method Exit()
      requires Valid() && !cfg.exited
      modifies this`trace, cfg`exited
      ensures Valid() && cfg.Lk() == old(cfg.Lk()).(exited := true)
      ensures cfg.exited && cfg.Others() == old(cfg.Others()) && trace == old(trace) + [Died]
    {
      hide Run, Legal, Recv, RxInv;
      RunSnoc(trace, Died);
      cfg.exited := true;
      trace := trace + [Died];
    }

    method Receive(data: seq<byte>)
      requires Valid() && !cfg.exited
      modifies this`trace, cfg.Repr()
      ensures Valid() && Later(old(cfg.Lk()), cfg.Lk())
      ensures cfg.Others() == old(cfg.Others()) && fresh(Repr() - old(Repr()))
      ensures trace == old(trace) + [Received(data)]
      ensures forall w :: OnlyRepeats(old(cfg.written), cfg.written, w)
    {
      hide Run, Legal, Recv, RxInv, Later, OnlyRepeats;
      forall w
        ensures OnlyRepeats(cfg.written, Receiver.Recv(cfg.Abs(), data).lk.written, w)
      {
        RecvWrites(cfg.Abs(), data, w);
      }
      RunSnoc(trace, Received(data));
      RecvIsLater(cfg.Abs(), data);
      cfg.Recv(data);
      trace := trace + [Received(data)];
    }

    method Transmit(skb: Skb)
      requires Valid() && !cfg.exited && skb.Valid()
      modifies this`trace, cfg`written
      ensures Valid() && cfg.Lk() == Write(old(cfg.Lk()), skb.Contents())
      ensures !cfg.exited && cfg.Others() == old(cfg.Others()) && trace == old(trace) + [Wrote(skb.Contents())]
    {
      hide Run, Legal, Recv, RxInv;
      RunSnoc(trace, Wrote(skb.Contents()));
      cfg.WriteOut(skb.Contents());
      trace := trace + [Wrote(skb.Contents())];
    }

    method PrepareFrame(payload: seq<byte>, ptype: nat) returns (skb: Skb)
      requires Valid() && !cfg.exited && KnownType(ptype)
      modifies this`trace, this`commands, cfg`isTxAckReq, cfg`msgqTxSeq, cfg`live
      ensures Valid() && cfg.Lk() == Prepare(old(cfg.Lk()), ptype)
      ensures fresh(skb) && fresh(skb.data) && skb.Growing()
      ensures skb !in old(cfg.Others()) && cfg.Others() == old(cfg.Others()) + {skb}
      ensures skb.Contents() == Encode(TxFrame(old(cfg.Lk()), payload, ptype))
      ensures commands == old(commands) + if ptype == HCI_COMMAND_PKT then [payload] else []
      ensures trace == old(trace) + [Prepared(ptype)]
    {
      hide Run, Legal, Recv, RxInv, Encode;
      RunSnoc(trace, Prepared(ptype));
      skb := cfg.PreparePkt(payload, ptype);
      trace := trace + [Prepared(ptype)];
      if ptype == HCI_COMMAND_PKT {
        commands := commands + [payload];
      }
    }

    method FreeFrame(skb: Skb)
      requires Valid() && skb in cfg.Others()
      modifies cfg`live
      ensures Valid() && cfg.Others() == old(cfg.Others()) - {skb}
    {
      hide Run, Legal, Inv;
      cfg.SkbFree(skb);
    }

    method SetPending(opcode: nat)
      requires Valid() && !cfg.exited && (opcode == HCI_CMD_RESET ==> cfg.link.Rank() >= 3)
      modifies this`trace, cfg`cmdOpcode, cfg`cmdSuccess
      ensures Valid() && cfg.Others() == old(cfg.Others())
      ensures cfg.Lk() == old(cfg.Lk()).(cmdOpcode := opcode, cmdSuccess := false)
      ensures trace == old(trace) + [CommandPending(opcode)]
    {
      hide Run, Legal, Recv, RxInv;
      RunSnoc(trace, CommandPending(opcode));
      cfg.cmdOpcode := opcode;
      cfg.cmdSuccess := false;
      trace := trace + [CommandPending(opcode)];
    }

    method ClearPending()
      requires Valid() && !cfg.exited
      modifies this`trace, cfg`cmdSuccess
      ensures Valid()
      ensures cfg.Lk() == old(cfg.Lk()).(cmdSuccess := false) && cfg.Others() == old(cfg.Others())
      ensures trace == old(trace) + [CommandCleared]
    {
      hide Run, Legal, Recv, RxInv;
      RunSnoc(trace, CommandCleared);
      cfg.cmdSuccess := false;
      trace := trace + [CommandCleared];
    }

    method PlanTotal(total: int)
      requires Valid() && !cfg.exited
      modifies this`trace, cfg`totalNum
      ensures Valid() && cfg.Lk() == old(cfg.Lk()).(totalNum := total) && cfg.Others() == old(cfg.Others())
      ensures trace == old(trace) + [DownloadPlanned(total)]
    {
      hide Run, Legal, Recv, RxInv;
      RunSnoc(trace, DownloadPlanned(total));
      cfg.totalNum := total;
      trace := trace + [DownloadPlanned(total)];
    }

    method BeginPatch()
      requires Valid() && !cfg.exited && cfg.link == H5Init
      modifies this`trace, cfg`link, cfg`rxIndex
      ensures Valid() && cfg.Lk() == old(cfg.Lk()).(state := H5Patch, rxIndex := -1)
      ensures cfg.link == H5Patch && cfg.rxIndex == -1 && cfg.Others() == old(cfg.Others())
      ensures trace == old(trace) + [PatchBegun]
    {
      hide Run, Legal, Recv, RxInv;
      RunSnoc(trace, PatchBegun);
      cfg.link := H5Patch;
      cfg.rxIndex := -1;
      trace := trace + [PatchBegun];
    }

    method SetIndex(index: int)
      requires Valid() && !cfg.exited
      modifies this`trace, cfg`txIndex
      ensures Valid() && cfg.Lk() == old(cfg.Lk()).(txIndex := index) && trace == old(trace) + [PacketIndexed(index)]
    {
      hide Run, Legal, Recv, RxInv;
      RunSnoc(trace, PacketIndexed(index));
      cfg.txIndex := index;
      trace := trace + [PacketIndexed(index)];
    }

    // ---- waiting ----

    method HandleEvent(event: EpollEvent, skb: Skb, retries: int, skipShort: bool) returns (retry: int)
      requires Valid() && !cfg.exited && skb.Valid() && skb !in Repr() && skb.data !in Repr()
      modifies Repr() - {this}, this`trace
      ensures Valid() && Later(old(cfg.Lk()), cfg.Lk()) && cfg.Others() == old(cfg.Others())
      ensures fresh(Repr() - old(Repr()))
      ensures OnlyRepeats(old(cfg.written), cfg.written, old(skb.Contents()))
      ensures !cfg.exited ==> RetriesAfter(event, retries, skipShort) == Some(retry)
      ensures trace == old(trace) + EventSteps(event, retries, skipShort, old(skb.Contents()))
      ensures event.TimerExpired? && retries > 0 ==>
                !cfg.exited && cfg.written == old(cfg.written) + [old(skb.Contents())] && cfg.log == old(cfg.log)
    {
      hide Later, Run, Legal, Inv, OnlyRepeats;
      ghost var before := cfg.Lk();
      retry := retries;
      LaterReflexive(before);
      ExitIsLater(before);
      NothingWritten(before.written, skb.Contents());
      match event {
        case SerialReady(data) =>
          Receive(data);
        case SerialReadError =>
          assert trace == trace + [];
        case SerialFault =>
          Exit();
        case TimerFault =>
          Exit();
        case TimerReadShort =>
          if !skipShort {
            Exit();
          }
        case TimerExpired =>
          if retry <= 0 {
            Exit();
          } else {
            WriteIsLater(before, skb.Contents());
            Transmit(skb);
            retry := retry - 1;
          }
      }
    }

    /** The events of one `epoll_wait`. */
    method HandleEvents(events: seq<EpollEvent>, skb: Skb, retries: int, skipShort: bool) returns (retry: int)
      requires Valid() && !cfg.exited && skb.Valid() && skb !in Repr() && skb.data !in Repr()
      modifies Repr() - {this}, this`trace
      ensures Valid() && Later(old(cfg.Lk()), cfg.Lk()) && cfg.Others() == old(cfg.Others())
      ensures fresh(Repr() - old(Repr()))
      ensures OnlyRepeats(old(cfg.written), cfg.written, old(skb.Contents()))
      ensures BatchDone(old(trace), trace, cfg.exited, events, retry, retries, skipShort, old(skb.Contents()))
    {
      hide Later, Run, Legal, Inv, OnlyRepeats, RetriesAfter, EventSteps, Valid, BatchAt, BatchDone;
      ghost var w, start := skb.Contents(), trace;
      retry := retries;
      LaterReflexive(cfg.Lk());
      NothingWritten(cfg.written, w);
      BatchBegins(trace, events, retries, skipShort, w);
      var n := 0;
      while n < |events| && !cfg.exited
        invariant Valid() && Later(old(cfg.Lk()), cfg.Lk()) && cfg.Others() == old(cfg.Others())
        invariant fresh(Repr() - old(Repr())) && 0 <= n <= |events|
        invariant OnlyRepeats(old(cfg.written), cfg.written, w) && skb.Contents() == w
        invariant BatchAt(start, trace, cfg.exited, events, n, retry, retries, skipShort, w)
        decreases |events| - n
      {
        ghost var before, t, r := cfg.Lk(), trace, retry;
        retry := HandleEvent(events[n], skb, retry, skipShort);
        LaterTransitive(old(cfg.Lk()), before, cfg.Lk());
        RepeatsTransitive(old(cfg.written), before.written, cfg.written, w);
        BatchGoesOn(start, t, trace, cfg.exited, events, n, r, retry, retries, skipShort, w);
        if events[n].TimerReadShort? {
          return;
        }
        n := n + 1;
      }
      BatchEnds(start, trace, cfg.exited, events, n, retry, retries, skipShort, w);
    }

    /** One `epoll_wait` with what it reports. */
    method Wait(skb: Skb, retries: int, skipShort: bool) returns (retry: int)
      requires Valid() && !cfg.exited && skb.Valid() && skb !in Repr() && skb.data !in Repr() && |waits| > 0
      modifies Repr() - {this}, this`trace, this`waits
      ensures Valid() && Later(old(cfg.Lk()), cfg.Lk()) && cfg.Others() == old(cfg.Others())
      ensures fresh(Repr() - old(Repr())) && waits == old(waits)[1..]
      ensures OnlyRepeats(old(cfg.written), cfg.written, old(skb.Contents())) && skb.Contents() == old(skb.Contents())
      ensures !cfg.exited ==>
                old(waits)[0].Ready? && RetriesLeft(old(waits)[0].events, retries, skipShort) == Some(retry)
      ensures
        var steps := if old(waits)[0].WaitFailed? then [Died]
                     else BatchSteps(old(waits)[0].events, retries, skipShort, old(skb.Contents()));
        old(trace) <= trace <= old(trace) + steps && (!cfg.exited ==> trace == old(trace) + steps)
    {
      hide Valid, Later, OnlyRepeats, H5Link.Others, RetriesLeft, BatchSteps;
      retry := retries;
      var wait := waits[0];
      waits := waits[1..];
      if wait.WaitFailed? {
        ExitIsLater(cfg.Lk());
        NothingWritten(cfg.written, skb.Contents());
        Exit();
      } else {
        retry := HandleEvents(wait.events, skb, retry, skipShort);
      }
    }

    /** What is waited for: link states, the completion of a command, or the index of a packet. */
    predicate Done(op: Op)
      reads cfg`link, cfg`cmdOpcode, cfg`cmdSuccess, cfg`rxIndex, cfg`txIndex
    {
      match op
      case OpSync => cfg.link == H5Config
      case OpConfig => cfg.link == H5Init
      case OpCommand(opcode) => cfg.cmdOpcode == opcode && cfg.cmdSuccess
      case OpIndex => cfg.rxIndex == cfg.txIndex
    }

    lemma IndexIsDone()
      ensures Done(OpIndex) == (cfg.rxIndex == cfg.txIndex)
    {}

    /** `start_transmit_wait` refuses a command that is not the pending one. */
    predicate Refuses(op: Op)
      reads cfg`cmdOpcode, cfg`cmdSuccess
    {
      op.OpCommand? && (cfg.cmdOpcode != op.opcode || cfg.cmdSuccess)
    }

    lemma DoneMeans(op: Op)
      requires Valid()
      ensures Done(op) == DoneIn(Run(trace).lk, op)
    {
      hide Run, Legal, Inv;
    }

    /** The waits that were used up since there were `before` of them. */
    function Used(before: seq<Wait>): seq<Wait>
      reads `waits
      requires |waits| <= |before|
    {
      before[..|before| - |waits|]
    }

    /** The loop of both waiting functions: wait until what is waited for holds, and no longer. */
    method WaitFor(skb: Skb, op: Op, retries: int, skipShort: bool) returns (o: Outcome)
      requires Valid() && !cfg.exited && skb.Valid() && skb !in Repr() && skb.data !in Repr()
      modifies Repr() - {this}, this`trace, this`waits
      ensures Valid() && Later(old(cfg.Lk()), cfg.Lk()) && cfg.Others() == old(cfg.Others())
      ensures fresh(Repr() - old(Repr()))
      ensures OnlyRepeats(old(cfg.written), cfg.written, old(skb.Contents())) && skb.Contents() == old(skb.Contents())
      ensures o.Exited? == cfg.exited && (o.Returned? ==> o.code == 0 && Done(op))
      ensures |waits| <= |old(waits)| && waits == old(waits)[|Used(old(waits))|..] && (o.Blocked? ==> waits == [])
      ensures
        var used, w := Used(old(waits)), old(skb.Contents());
        && Waited(old(trace), trace, cfg.exited, used, retries, skipShort, w)
        && (o.Returned? ==> |used| > 0 && NotYet(old(trace), used, |used| - 1, op, retries, skipShort, w))
        && (o.Blocked? ==> NotYet(old(trace), used, |used|, op, retries, skipShort, w))
    {
      hide Valid, Later, H5Link.Others, OnlyRepeats, Waited, NotYet, Waiting, RetriesLeft, BatchSteps, Done,
        DoneIn, Run;
      ghost var w, before, N, n: nat := skb.Contents(), trace, waits, 0;
      NothingWritten(cfg.written, w);
      LaterReflexive(cfg.Lk());
      WaitingBegins(before, N, op, retries, skipShort, w);
      var retry := retries;
      while |waits| > 0
        invariant Valid() && !cfg.exited && Later(old(cfg.Lk()), cfg.Lk()) && cfg.Others() == old(cfg.Others())
        invariant fresh(Repr() - old(Repr())) && OnlyRepeats(old(cfg.written), cfg.written, w) && skb.Contents() == w
        invariant n <= |N| && waits == N[n..] && Waiting(before, trace, N, n, retry, op, retries, skipShort, w)
        decreases |waits|
      {
        ghost var lk, t, r := cfg.Lk(), trace, retry;
        assert waits[0] == N[n] && waits[1..] == N[n + 1..];
        retry := Wait(skb, retry, skipShort);
        LaterTransitive(old(cfg.Lk()), lk, cfg.Lk());
        RepeatsTransitive(old(cfg.written), lk.written, cfg.written, w);
        WaitingGoesOn(before, t, trace, cfg.exited, N, n, r, retry, op, retries, skipShort, w);
        DoneMeans(op);
        n := n + 1;
        assert Used(N) == N[..n];
        if cfg.exited {
          return Exited;
        }
        if Done(op) {
          return Returned(0);
        }
      }
      assert Used(N) == N[..n];
      WaitingIsWaited(before, trace, N, n, retry, op, retries, skipShort, w);
      return Blocked;
    }

    /** `start_transmit_wait`: the frame is written, and then again after each timeout, until what is waited for
        holds. */
    method StartTransmitWait(skb: Skb, op: Op, retries: int) returns (o: Outcome)
      requires Valid() && !cfg.exited && skb.Valid() && skb !in Repr() && skb.data !in Repr() && !op.OpIndex?
      modifies Repr() - {this}, this`trace, this`waits
      ensures Valid() && Later(old(cfg.Lk()), cfg.Lk()) && cfg.Others() == old(cfg.Others())
      ensures fresh(Repr() - old(Repr()))
      ensures o.Exited? == cfg.exited
      ensures old(Refuses(op)) ==> o == Returned(-1) && trace == old(trace) && waits == old(waits)
      ensures !old(Refuses(op)) ==>
                && (o.Returned? ==> o.code == 0 && Done(op))
                && OnlyRepeats(old(cfg.written) + [old(skb.Contents())], cfg.written, old(skb.Contents()))
      ensures |waits| <= |old(waits)| && waits == old(waits)[|Used(old(waits))|..]
      ensures
        var used, w := Used(old(waits)), old(skb.Contents());
        var sent := old(trace) + [Wrote(w)];
        !old(Refuses(op)) ==>
          && Waited(sent, trace, cfg.exited, used, retries, true, w)
          && (o.Returned? ==> |used| > 0 && NotYet(sent, used, |used| - 1, op, retries, true, w))
          && (o.Blocked? ==> waits == [] && NotYet(sent, used, |used|, op, retries, true, w))
    {
      hide Valid, Later, H5Link.Others, OnlyRepeats, Waited, NotYet;
      LaterReflexive(cfg.Lk());
      if op.OpCommand? && (cfg.cmdOpcode != op.opcode || cfg.cmdSuccess) {
        return Returned(-1);
      }
      ghost var sent := Write(cfg.Lk(), skb.Contents());
      WriteIsLater(cfg.Lk(), skb.Contents());
      Transmit(skb);
      o := WaitFor(skb, op, retries, true);
      LaterTransitive(old(cfg.Lk()), sent, cfg.Lk());
    }

    /** A command or link control packet of the host's own: prepare, wait, free. */
    method Exchange(payload: seq<byte>, ptype: nat, op: Op, retries: int) returns (o: Outcome)
      requires Valid() && !cfg.exited && KnownType(ptype) && !op.OpIndex?
      requires op.OpCommand? && op.opcode == HCI_CMD_RESET ==> cfg.link.Rank() >= 3
      modifies Repr() - {this}, this`trace, this`commands, this`waits
      ensures Valid() && fresh(Repr() - old(Repr())) && o.Exited? == cfg.exited
      ensures o.Returned? ==> o.code == 0 && Done(op) && cfg.Others() == old(cfg.Others())
      ensures commands == old(commands) + if ptype == HCI_COMMAND_PKT then [payload] else []
      ensures old(cfg.Lk()).Wf() && Later(Asked(old(cfg.Lk()), ptype, op), cfg.Lk())
      ensures |waits| <= |old(waits)|
      ensures
        var w := Encode(TxFrame(old(cfg.Lk()), payload, ptype));
        && OnlyRepeats(old(cfg.written) + [w], cfg.written, w)
        && Waited(old(trace) + AskSteps(ptype, op) + [Wrote(w)], trace, cfg.exited, Used(old(waits)), retries, true, w)
    {
      hide Valid, Later, Encode, TxFrame, OnlyRepeats, H5Link.Others, Waited, NotYet, Done, Used;
      LinkIsWf();
      var skb := PrepareFrame(payload, ptype);
      assert skb !in Repr() && skb.data !in Repr();
      if op.OpCommand? {
        SetPending(op.opcode);
      }
      assert trace == old(trace) + AskSteps(ptype, op);
      o := StartTransmitWait(skb, op, retries);
      if o.Returned? {
        FreeFrame(skb);
      }
    }

    /** One of the two packets that establish the link. */
    method SendControl(payload: seq<byte>, op: Op) returns (o: Outcome)
      requires Valid() && !cfg.exited && Line() && (op.OpSync? || op.OpConfig?) && payload in {SYNC_PKT, CONF_PKT}
      modifies Repr()
      ensures Valid() && fresh(Repr() - old(Repr())) && o.Exited? == cfg.exited && Line()
      ensures o.Returned? ==> o.code == 0 && Done(op) && cfg.Others() == old(cfg.Others())
      ensures commands == old(commands) && cfg.msgqTxSeq == old(cfg.msgqTxSeq) && old(trace) <= trace
      ensures old(cfg.written) <= cfg.written && |cfg.written| > |old(cfg.written)|
      ensures IsControl(cfg.written[|old(cfg.written)|], payload)
    {
      hide Valid, Later, Encode, TxFrame, OnlyRepeats, Faithful, IsAnswer, IsLinkControl, H5Link.Others, Done, Waited;
      ghost var l, ws, cs := cfg.Lk(), cfg.written, commands;
      o := Exchange(payload, H5_LINK_CTL_PKT, op, 10);
      assert commands == cs + [] == cs;
      LaterFacts(Asked(l, H5_LINK_CTL_PKT, op), cfg.Lk());
      ghost var w := Encode(TxFrame(l, payload, H5_LINK_CTL_PKT));
      WaitedOnlyWaits(old(trace) + AskSteps(H5_LINK_CTL_PKT, op) + [Wrote(w)], trace, cfg.exited, Used(old(waits)), 10,
                      true, w);
      TxIsLinkControl(l, payload);
      RepeatsStart(ws, w, cfg.written);
      NothingWritten(ws, w);
      RepeatsTransitive(ws, ws + [w], cfg.written, w);
      OthersAreFaithful(ws, cfg.written, commands, sentAt, w);
    }

    /** A command with its own completion. */
    method SendCommand(payload: seq<byte>, opcode: nat, retries: int) returns (o: Outcome)
      requires Valid() && !cfg.exited && Line() && (opcode == HCI_CMD_RESET ==> cfg.link.Rank() >= 3)
      requires HasOpcode(payload, opcode)
      modifies Repr()
      ensures Valid() && fresh(Repr() - old(Repr())) && o.Exited? == cfg.exited && Line()
      ensures o.Returned? ==> o.code == 0 && Done(OpCommand(opcode)) && cfg.Others() == old(cfg.Others())
      ensures o.Returned? ==> FreshCompletion(|old(cfg.log)|, cfg.log, opcode)
      ensures commands == old(commands) + [payload]
      ensures Later(Asked(old(cfg.Lk()), HCI_COMMAND_PKT, OpCommand(opcode)), cfg.Lk())
      ensures old(trace) <= trace && CountedRun(old(trace)) <= CountedRun(trace)
      ensures o.Returned? && CountedCommand(opcode) && cfg.link.Rank() <= 2 ==>
                CountedRun(old(trace)) + 1 <= CountedRun(trace)
    {
      hide Valid, Later, Encode, TxFrame, OnlyRepeats, Faithful, IsCommand, H5Link.Others, FreshCompletion, Waited,
        CountedRun, CountedCommand, Run;
      ghost var l, ws, cs, t := cfg.Lk(), cfg.written, commands, trace;
      o := Exchange(payload, HCI_COMMAND_PKT, OpCommand(opcode), retries);
      LaterFacts(Asked(l, HCI_COMMAND_PKT, OpCommand(opcode)), cfg.Lk());
      ghost var w := Encode(TxFrame(l, payload, HCI_COMMAND_PKT));
      CommandCounts(t, w, opcode, cfg.exited, Used(old(waits)), retries);
      TxIsCommand(l, payload);
      CommandIsFaithful(ws, cfg.written, cs, sentAt, w, payload);
      OneMore(0, |cs|);
      sentAt := sentAt + [|ws|];
    }

    lemma CommandCounts(t: seq<Event>, w: seq<byte>, opcode: nat, exited: bool, used: seq<Wait>, retries: int)
      requires Valid()
      requires Waited(t + AskSteps(HCI_COMMAND_PKT, OpCommand(opcode)) + [Wrote(w)], trace, exited, used, retries,
                      true, w)
      ensures t <= trace && CountedRun(t) <= CountedRun(trace)
      ensures CountedCommand(opcode) && cfg.cmdSuccess && cfg.link.Rank() <= 2 ==>
                CountedRun(t) + 1 <= CountedRun(trace)
    {
      hide Run, Legal, Inv, Waited, CountedRun, CountedCommand;
      var ask := AskSteps(HCI_COMMAND_PKT, OpCommand(opcode));
      WaitedOnlyWaits(t + ask + [Wrote(w)], trace, exited, used, retries, true, w);
      assert ask == [Prepared(HCI_COMMAND_PKT)] + [CommandPending(opcode)];
      assert t + [Prepared(HCI_COMMAND_PKT)] + [CommandPending(opcode)] == t + ask;
      assert trace[|t| + 2..] == [Wrote(w)] + trace[|t| + 3..];
      CommandIsCounted(t, trace, HCI_COMMAND_PKT, opcode);
    }

    /** `rtb_init_h5`: synchronise, configure, acknowledge. */
    method InitH5() returns (o: Outcome)
      requires Valid() && !cfg.exited && cfg.link == H5Sync && Line()
      modifies Repr()
      ensures Valid() && fresh(Repr() - old(Repr())) && o.Exited? == cfg.exited && Line()
      ensures commands == old(commands) && cfg.msgqTxSeq == old(cfg.msgqTxSeq) && old(trace) <= trace
      ensures o.Returned? ==> o.code == 0 && cfg.link == H5Init && cfg.Others() == old(cfg.Others())
      ensures o.Returned? ==> Established(|old(cfg.written)|, cfg.written, cfg.rxSeqTxAck, cfg.useCrc)
    {
      hide Valid, Later, H5Link.Others, Line, IsControl, Acks;
      o := SendControl(SYNC_PKT, OpSync);
      ghost var n := |cfg.written|;
      ghost var ws := cfg.written;
      if o.Returned? {
        o := SendControl(CONF_PKT, OpConfig);
      }
      if o.Returned? {
        SendAckFrame();
        ClearPending();
        assert cfg.written[|old(cfg.written)|] == ws[|old(cfg.written)|];
        assert n < |cfg.written| - 1 && IsControl(cfg.written[n], CONF_PKT);
      }
    }

    /** `rtb_send_ack` called by the host itself. */
    method SendAckFrame()
      requires Valid() && !cfg.exited && Line()
      modifies this`trace, this`commands, cfg`isTxAckReq, cfg`msgqTxSeq, cfg`live, cfg`written
      ensures Valid() && cfg.Lk() == SendAck(old(cfg.Lk())) && cfg.msgqTxSeq == old(cfg.msgqTxSeq) && Line()
      ensures commands == old(commands) && cfg.Others() == old(cfg.Others()) && old(trace) <= trace
      ensures |cfg.written| == |old(cfg.written)| + 1 && old(cfg.written) <= cfg.written
      ensures Acks(cfg.written[|old(cfg.written)|], cfg.rxSeqTxAck, cfg.useCrc)
    {
      hide Run, Legal, Inv, Encode, Faithful, OnlyRepeats, IsAnswer;
      LinkIsWf();
      AckIsAnswer(cfg.Lk());
      NothingWritten(cfg.written, AckFrame(cfg.Lk()));
      OthersAreFaithful(cfg.written, cfg.written + [AckFrame(cfg.Lk())], commands, sentAt, AckFrame(cfg.Lk()));
      ghost var cs := commands;
      var skb := PrepareFrame([], H5_ACK_PKT);
      assert commands == cs + [] == cs;
      Transmit(skb);
      FreeFrame(skb);
    }

    /** A command of the initialisation phase: `rtb_read_local_version` and its kin. */
    method InitCommand(payload: seq<byte>, opcode: nat, retries: int) returns (o: Outcome)
      requires Valid() && !cfg.exited && cfg.link == H5Init && opcode != HCI_CMD_RESET && Line()
      requires HasOpcode(payload, opcode)
      modifies Repr()
      ensures Valid() && fresh(Repr() - old(Repr())) && o.Exited? == cfg.exited && Line()
      ensures commands == old(commands) + [payload] && cfg.msgqTxSeq == (old(cfg.msgqTxSeq) + 1) % 8
      ensures o.Returned? ==> o.code == 0 && cfg.link == H5Init && cfg.Others() == old(cfg.Others())
      ensures o.Returned? ==> FreshCompletion(|old(cfg.log)|, cfg.log, opcode)
      ensures old(trace) <= trace
      ensures o.Returned? && CountedCommand(opcode) ==> CountedRun(old(trace)) + 1 <= CountedRun(trace)
    {
      hide Valid, Later, Faithful, FreshCompletion, CountedRun, CountedCommand, H5Link.Others;
      o := SendCommand(payload, opcode, retries);
      LaterFacts(Asked(old(cfg.Lk()), HCI_COMMAND_PKT, OpCommand(opcode)), cfg.Lk());
    }

    /** `h5_hci_reset`: its success means that the link is active. */
    method HciReset() returns (o: Outcome)
      requires Valid() && !cfg.exited && cfg.link.Rank() >= 3 && Line()
      modifies Repr()
      ensures Valid() && fresh(Repr() - old(Repr())) && o.Exited? == cfg.exited && Line()
      ensures commands == old(commands) + [[0x03, 0x0c, 0x00]]
      ensures old(cfg.log) <= cfg.log && cfg.numOfCmdSent == old(cfg.numOfCmdSent) && old(trace) <= trace
      ensures cfg.msgqTxSeq == (old(cfg.msgqTxSeq) + 1) % 8
      ensures o.Returned? ==> o.code == 0 && cfg.link == H5Active && cfg.Others() == old(cfg.Others())
      ensures o.Returned? ==> FreshCompletion(|old(cfg.log)|, cfg.log, 0x0c03)
    {
      hide Valid, Later, Faithful, FreshCompletion, CountedRun, H5Link.Others;
      o := SendCommand([0x03, 0x0c, 0x00], HCI_CMD_RESET, 1);
      LaterFacts(Asked(old(cfg.Lk()), HCI_COMMAND_PKT, OpCommand(HCI_CMD_RESET)), cfg.Lk());
    }

    // ---- download ----

    /** The first half of `h5_download_patch`: record the index, build the command, send it. */
    method SendPatch(index: byte, data: seq<byte>) returns (skb: Skb)
      requires Valid() && !cfg.exited && |data| <= PATCH_DATA_FIELD_MAX_SIZE
      modifies this`trace, this`commands
      modifies cfg`txIndex, cfg`isTxAckReq, cfg`msgqTxSeq, cfg`live, cfg`written
      ensures Valid() && commands == old(commands) + [PatchCommand(index, data)]
      ensures fresh(skb) && fresh(skb.data) && skb.Growing()
      ensures skb !in old(cfg.Others()) && cfg.Others() == old(cfg.Others()) + {skb}
      ensures cfg.Lk() == Write(Patched(old(cfg.Lk()), index), skb.Contents())
      ensures skb.Contents() == Encode(TxFrame(old(cfg.Lk()), PatchCommand(index, data), HCI_COMMAND_PKT))
      ensures trace == old(trace) + [PacketIndexed(index % 0x80), Prepared(HCI_COMMAND_PKT), Wrote(skb.Contents())]
    {
      hide Run, Legal, Inv, Encode;
      SetIndex(if index >= 0x80 then index - 0x80 else index);
      var hciPatch: seq<byte> := [0x20, 0xfc, |data| + 1, index] + data;
      assert |hciPatch| <= 256;
      skb := PrepareFrame(hciPatch, HCI_COMMAND_PKT);
      Transmit(skb);
    }

    /** `h5_download_patch`: stop and wait for one packet. Whenever the index waited for is not the one held
        already, success means that a fresh event carrying it has come while the link was being patched. */
    method DownloadPatch(index: byte, data: seq<byte>) returns (o: Outcome)
      requires Valid() && !cfg.exited && Line() && |data| <= PATCH_DATA_FIELD_MAX_SIZE
      modifies Repr()
      ensures Valid() && fresh(Repr() - old(Repr())) && o.Exited? == cfg.exited && Line()
      ensures commands == old(commands) + [PatchCommand(index, data)]
      ensures |waits| <= |old(waits)|
      ensures
        var w := Encode(TxFrame(old(cfg.Lk()), PatchCommand(index, data), HCI_COMMAND_PKT));
        var sent := old(trace) + [PacketIndexed(index % 0x80), Prepared(HCI_COMMAND_PKT), Wrote(w)];
        Waited(sent, trace, cfg.exited, Used(old(waits)), 3, false, w)
      ensures old(trace) <= trace
      ensures old(cfg.log) <= cfg.log && old(cfg.link).Rank() <= cfg.link.Rank()
      ensures old(cfg.link).Rank() >= 3 ==> cfg.numOfCmdSent == old(cfg.numOfCmdSent)
      ensures cfg.msgqTxSeq == (old(cfg.msgqTxSeq) + 1) % 8
      ensures o.Returned? ==> o.code == 0 && cfg.rxIndex == index % 0x80 && cfg.Others() == old(cfg.Others())
      ensures o.Returned? && old(cfg.rxIndex) != index % 0x80 ==>
                old(cfg.link) == H5Patch && FreshIndex(|old(cfg.log)|, cfg.log, index % 0x80)
    {
      hide Valid, Later, PatchCommand, CarriesIndex, Faithful, OnlyRepeats, Encode, TxFrame, H5Link.Others, IsCommand,
        Waited, NotYet, Used, Done, FreshIndex;
      LinkIsWf();
      ghost var l, ws := cfg.Lk(), cfg.written;
      var skb := SendPatch(index, data);
      assert skb !in Repr() && skb.data !in Repr();
      ghost var sent := trace;
      o := WaitFor(skb, OpIndex, 3, false);
      PatchFacts(l, index, skb.Contents(), cfg.Lk());
      WaitedOnlyWaits(sent, trace, cfg.exited, Used(old(waits)), 3, false, skb.Contents());
      assert old(trace) <= sent <= trace;
      assert o.Returned? ==> Done(OpIndex);
      IndexIsDone();
      TxIsCommand(l, PatchCommand(index, data));
      CommandIsFaithful(ws, cfg.written, old(commands), sentAt, skb.Contents(), PatchCommand(index, data));
      OneMore(0, |old(commands)|);
      sentAt := sentAt + [|ws|];
      if o.Returned? {
        FreeFrame(skb);
      }
    }

    /** One turn of the loop of `rtb_download_fwc`; `next` is the data pointer afterwards. */
    method SendPacket(buf: seq<byte>, i: nat, pktBuf: Option<nat>, endIdx: nat, lpLen: nat, totalIdx: nat)
      returns (o: Outcome, next: Option<nat>)
      requires Valid() && !cfg.exited && Line() && cfg.link.Rank() >= 3
      requires Fits(|buf|) && endIdx == EndIdx(|buf|) && lpLen == LpLen(|buf|) && i <= totalIdx && endIdx <= totalIdx
      requires i <= endIdx ==> pktBuf == Some(DataStart(i))
      requires cfg.rxIndex == (if i == 0 then -1 else WaitIndex(i - 1, totalIdx))
      modifies Repr()
      ensures Valid() && fresh(Repr() - old(Repr())) && o.Exited? == cfg.exited && Line()
      ensures old(trace) <= trace
      ensures |Data(buf, i)| <= PATCH_DATA_FIELD_MAX_SIZE
      ensures commands == old(commands) + [PatchCommand(IndexOctet(i, totalIdx), Data(buf, i))]
      ensures old(cfg.log) <= cfg.log && cfg.link.Rank() >= 3 && cfg.numOfCmdSent == old(cfg.numOfCmdSent)
      ensures cfg.msgqTxSeq == (old(cfg.msgqTxSeq) + 1) % 8
      ensures o.Returned? ==>
                && o.code == 0 && cfg.Others() == old(cfg.Others())
                && cfg.rxIndex == WaitIndex(i, totalIdx)
                && FreshIndex(|old(cfg.log)|, cfg.log, WaitIndex(i, totalIdx))
                && (i + 1 <= endIdx ==> next == Some(DataStart(i + 1)))
    {
      hide Valid, Line, H5Link.Lk, H5Link.Others, PatchCommand, FreshIndex, Data, IndexOctet, DataLen, LpLen, WaitIndex;
      var currIdx, currLen, hasData := ChoosePacket(i, |buf|, endIdx, lpLen, totalIdx);
      next := if hasData then pktBuf else None;
      var data := CutPacket(buf, i, next, currLen);
      PacketAdvances(i, endIdx, totalIdx);
      o := DownloadPatch(currIdx, data);
      if currIdx < endIdx && next.Some? {
        next := Some(next.value + PATCH_DATA_FIELD_MAX_SIZE);
      }
    }

    /** The loop of `rtb_download_fwc`: each packet in turn, each only after its predecessor was answered. */
    method SendPackets(buf: seq<byte>, endIdx: nat, lpLen: nat, totalIdx: nat) returns (o: Outcome)
      requires Valid() && !cfg.exited && Line() && cfg.link == H5Patch && cfg.rxIndex == -1
      requires Fits(|buf|) && endIdx == EndIdx(|buf|) && lpLen == LpLen(|buf|) && endIdx <= totalIdx
      modifies Repr()
      ensures Valid() && fresh(Repr() - old(Repr())) && o.Exited? == cfg.exited && Line()
      ensures old(trace) <= trace
      ensures o.Returned? ==>
                && cfg.Others() == old(cfg.Others()) && cfg.link.Rank() >= 3 && old(cfg.log) <= cfg.log
                && commands == old(commands) + PatchCommands(buf, totalIdx, totalIdx + 1)
                && Answered(cfg.log, |old(cfg.log)|, totalIdx, totalIdx + 1)
                && cfg.numOfCmdSent == old(cfg.numOfCmdSent)
                && cfg.msgqTxSeq == (old(cfg.msgqTxSeq) + totalIdx + 1) % 8
    {
      hide Valid, Line, H5Link.Lk, H5Link.Others, PatchCommand, FreshIndex, Answered, Data, IndexOctet, WaitIndex,
        LpLen;
      o := Returned(0);
      var pktBuf: Option<nat> := Some(0);
      NoneAnswered(cfg.log, totalIdx);
      var i := 0;
      while i <= totalIdx
        invariant Valid() && !cfg.exited && Line() && fresh(Repr() - old(Repr())) && cfg.Others() == old(cfg.Others())
        invariant old(trace) <= trace
        invariant o == Returned(0) && 0 <= i <= totalIdx + 1
        invariant i <= endIdx ==> pktBuf == Some(DataStart(i))
        invariant cfg.rxIndex == (if i == 0 then -1 else WaitIndex(i - 1, totalIdx))
        invariant cfg.link.Rank() >= 3 && cfg.numOfCmdSent == old(cfg.numOfCmdSent) && old(cfg.log) <= cfg.log
        invariant commands == old(commands) + PatchCommands(buf, totalIdx, i)
        invariant Answered(cfg.log, |old(cfg.log)|, totalIdx, i)
        invariant cfg.msgqTxSeq == (if i == 0 then old(cfg.msgqTxSeq) else (old(cfg.msgqTxSeq) + i) % 8)
        decreases totalIdx + 1 - i
      {
        ghost var before := cfg.log;
        o, pktBuf := SendPacket(buf, i, pktBuf, endIdx, lpLen, totalIdx);
        if !o.Returned? {
          return;
        }
        AnsweredNext(before, cfg.log, |old(cfg.log)|, totalIdx, i);
        OneMore(old(cfg.msgqTxSeq), i);
        i := i + 1;
      }
    }

    /** `rtb_download_fwc` on the three-wire UART. Success means that exactly the commands of the plan were
        prepared, in order, that each packet was answered in turn by an event with its index, and that the
        link became active. */
    method DownloadFwc(buf: seq<byte>) returns (o: Outcome)
      requires Valid() && !cfg.exited && Line() && cfg.link == H5Patch && cfg.rxIndex == -1 && Fits(|buf|)
      modifies Repr()
      ensures Valid() && fresh(Repr() - old(Repr())) && o.Exited? == cfg.exited && Line()
      ensures old(trace) <= trace
      ensures o.Returned? ==>
                var total := TotalIdx(true, old(cfg.numOfCmdSent), |buf|);
                && o.code == 0 && cfg.link == H5Active && cfg.Others() == old(cfg.Others())
                && commands == old(commands) + PatchCommands(buf, total, total + 1) + [[0x03, 0x0c, 0x00]]
                && Answered(cfg.log, |old(cfg.log)|, total, total + 1)
                && cfg.numOfCmdSent == old(cfg.numOfCmdSent)
                && cfg.msgqTxSeq == (old(cfg.msgqTxSeq) + total + 2) % 8
    {
      hide Valid, Line, H5Link.Lk, H5Link.Others, Answered, PatchCommands, IndexOctet, TotalIdx, EndIdx, LpLen;
      var endIdx, lpLen, totalIdx := PlanDownload(|buf|, true, cfg.numOfCmdSent);
      PlanTotal(totalIdx);
      o := SendPackets(buf, endIdx, lpLen, totalIdx);
      if !o.Returned? {
        return;
      }
      ghost var done := cfg.log;
      o := HciReset();
      OneMore(old(cfg.msgqTxSeq), totalIdx + 1);
      AnsweredLater(done, cfg.log, |old(cfg.log)|, totalIdx, totalIdx + 1);
    }

    /** The commands that `rtb_config` always sends. */
    method ReadVersions() returns (o: Outcome)
      requires Valid() && !cfg.exited && Line() && cfg.link == H5Init
      modifies Repr()
      ensures Valid() && fresh(Repr() - old(Repr())) && o.Exited? == cfg.exited && Line()
      ensures o.Returned? ==>
                && o.code == 0 && cfg.link == H5Init && cfg.Others() == old(cfg.Others())
                && commands == old(commands) + VersionCommands()
                && CountedRun(old(trace)) + |VersionCommands()| <= CountedRun(trace)
      ensures old(trace) <= trace
    {
      hide Valid, Line, H5Link.Lk, H5Link.Others, CountedRun, HasOpcode, FreshCompletion;
      InitOpcodes();
      o := InitCommand(READ_LOCAL_VER, HCI_CMD_READ_LOCAL_VER, 3);
      if o.Returned? {
        o := InitCommand(READ_ROM_VER, HCI_VENDOR_READ_ROM_VER, 3);
      }
    }

    /** The commands by which `rtb_config` identifies the chip. */
    method IdentifyChip(readChipType: bool) returns (o: Outcome)
      requires Valid() && !cfg.exited && Line() && cfg.link == H5Init
      modifies Repr()
      ensures Valid() && fresh(Repr() - old(Repr())) && o.Exited? == cfg.exited && Line()
      ensures o.Returned? ==>
                && o.code == 0 && cfg.link == H5Init && cfg.Others() == old(cfg.Others())
                && commands == old(commands) + IdentifyCommands(readChipType)
                && CountedRun(old(trace)) + |IdentifyCommands(readChipType)| <= CountedRun(trace)
      ensures old(trace) <= trace
    {
      hide Valid, Line, H5Link.Lk, H5Link.Others, VersionCommands, CountedRun, HasOpcode, FreshCompletion;
      InitOpcodes();
      o := ReadVersions();
      if o.Returned? && readChipType {
        o := InitCommand(READ_CHIP_TYPE, HCI_VENDOR_READ_CHIP_TYPE, 3);
      }
    }

    /** The part of `rtb_config` that follows a patch of accepted size: baud rate, then the download. */
    method SendImage(image: seq<byte>, baud: Option<seq<byte>>) returns (o: Outcome)
      requires Valid() && !cfg.exited && Line() && cfg.link == H5Init && |image| <= 0x130d0 + 529
      requires baud.Some? ==> |baud.value| == 4
      modifies Repr()
      ensures Valid() && fresh(Repr() - old(Repr())) && o.Exited? == cfg.exited && Line()
      ensures o.Returned? ==> o.code == 0 && cfg.Others() == old(cfg.Others())
      ensures o.Returned? && |image| == 0 ==> commands == old(commands) + BaudCommands(baud)
      ensures old(trace) <= trace
      ensures o.Returned? ==> CountedRun(old(trace)) + |BaudCommands(baud)| <= CountedRun(trace)
      ensures o.Returned? && |image| > 0 ==>
                && cfg.link == H5Active
                && commands == old(commands) + BaudCommands(baud) + DownloadCommands(image, cfg.numOfCmdSent)
                && (cfg.msgqTxSeq == 0 <==> (|old(commands)| + |BaudCommands(baud)|) % 8 == cfg.numOfCmdSent % 8)
    {
      hide Valid, Line, H5Link.Lk, H5Link.Others, Answered, TotalIdx, PatchCommands, CountedRun, HasOpcode,
        FreshCompletion;
      o := Returned(0);
      if baud.Some? {
        BaudOpcode(baud.value);
        o := InitCommand([0x17, 0xfc, 0x04] + baud.value, HCI_VENDOR_CHANGE_BAUD, 0);
      }
      ghost var t := trace;
      if o.Returned? && |image| > 0 {
        hide Fits;
        ImageFits(|image|);
        BeginPatch();
        LineNumbers();
        DownloadClosesSequence(|commands|, cfg.numOfCmdSent, |image|);
        o := DownloadFwc(image);
      }
      CountedGrows(t, trace);
    }

    lemma LineNumbers()
      requires Line()
      ensures cfg.msgqTxSeq == |commands| % 8
    {}

    /** `rtb_init` with the three-wire protocol: link establishment, the init commands and the download. An
        image is refused exactly if it is longer than `maxPatchSize`. After a download the commands are those
        of the plan, on the line in this order, and the sequence number is 0 again exactly if the init
        commands and the completions counted in the whole run agree modulo 8. */
    method Attach(image: seq<byte>, maxPatchSize: nat, readChipType: bool, baud: Option<seq<byte>>)
      returns (o: Outcome)
      requires Valid() && !cfg.exited && Line() && cfg.Lk() == START && commands == []
      requires maxPatchSize <= 0x130d0 + 529 && (baud.Some? ==> |baud.value| == 4)
      modifies Repr()
      ensures Valid() && fresh(Repr() - old(Repr())) && o.Exited? == cfg.exited && Line()
      ensures o.Returned? ==> cfg.Others() == old(cfg.Others()) && o.code == if |image| > maxPatchSize then -1 else 0
      ensures o.Returned? && o.code == -1 ==> commands == IdentifyCommands(readChipType)
      ensures o.Returned? && o.code == 0 && |image| > 0 ==>
                var init := IdentifyCommands(readChipType) + BaudCommands(baud);
                && cfg.link == H5Active
                && commands == init + DownloadCommands(image, cfg.numOfCmdSent)
                && (cfg.msgqTxSeq == 0 <==> |init| % 8 == CountedRun(trace) % 8)
                && |init| <= CountedRun(trace) && (CountedRun(trace) == |init| ==> cfg.msgqTxSeq == 0)
    {
      hide Valid, Line, Inv, TotalIdx, H5Link.Others, IdentifyCommands, BaudCommands, DownloadCommands, CountedRun;
      o := InitH5();
      assert [] + IdentifyCommands(readChipType) == IdentifyCommands(readChipType);
      if o.Returned? {
        o := IdentifyChip(readChipType);
      }
      if o.Returned? {
        if |image| > maxPatchSize {
          return Returned(-1);
        }
        o := SendImage(image, baud);
        CompletionsCounted();
      }
    }

    lemma CompletionsCounted()
      requires Valid()
      ensures cfg.numOfCmdSent % 8 == CountedRun(trace) % 8
    {
      hide Inv, Run, Legal, CountedRun;
      CounterModulo8(trace);
    }
  }

  const READ_LOCAL_VER: seq<byte> := [0x01, 0x10, 0x00]
  const READ_ROM_VER: seq<byte> := [0x6d, 0xfc, 0x00]
  const READ_CHIP_TYPE: seq<byte> := [0x61, 0xfc, 0x05, 0x10, 0xa6, 0xad, 0x00, 0xb0]

  /** The commands have the opcodes that their waits are for, and their completions are counted. */
  lemma InitOpcodes()
    ensures HasOpcode(READ_LOCAL_VER, HCI_CMD_READ_LOCAL_VER) && CountedCommand(HCI_CMD_READ_LOCAL_VER)
    ensures HasOpcode(READ_ROM_VER, HCI_VENDOR_READ_ROM_VER) && CountedCommand(HCI_VENDOR_READ_ROM_VER)
    ensures HasOpcode(READ_CHIP_TYPE, HCI_VENDOR_READ_CHIP_TYPE) && CountedCommand(HCI_VENDOR_READ_CHIP_TYPE)
  {}

  lemma BaudOpcode(rate: seq<byte>)
    requires |rate| == 4
    ensures HasOpcode([0x17, 0xfc, 0x04] + rate, HCI_VENDOR_CHANGE_BAUD) && CountedCommand(HCI_VENDOR_CHANGE_BAUD)
  {}

  /** From write `n` on the line holds the two packets that establish the link, in order, and at its end the
      acknowledgement of the last reliable packet received. */
  ghost predicate Established(n: nat, writes: seq<seq<byte>>, ack: nat, crc: bool) {
    exists k :: n < k < |writes| - 1 && IsControl(writes[n], SYNC_PKT) && IsControl(writes[k], CONF_PKT)
              && Acks(writes[|writes| - 1], ack, crc)
  }

  function VersionCommands(): seq<seq<byte>> {
    [READ_LOCAL_VER, READ_ROM_VER]
  }

  function IdentifyCommands(readChipType: bool): seq<seq<byte>> {
    VersionCommands() + if readChipType then [READ_CHIP_TYPE] else []
  }

  function BaudCommands(baud: Option<seq<byte>>): seq<seq<byte>> {
    match baud
    case None => []
    case Some(rate) => [[0x17, 0xfc, 0x04] + rate]
  }

  /** The commands of a download, planned after `cmds` completed commands, and the reset. */
  function DownloadCommands(image: seq<byte>, cmds: nat): seq<seq<byte>>
    requires Fits(|image|)
  {
    var total := TotalIdx(true, cmds, |image|);
    PatchCommands(image, total, total + 1) + [[0x03, 0x0c, 0x00]]
  }

  /** The steps by which a packet is prepared and its completion made pending. */
  function AskSteps(ptype: nat, op: Op): seq<Event> {
    [Prepared(ptype)] + if op.OpCommand? then [CommandPending(op.opcode)] else []
  }

  /** A controller reads this opcode off the command. */
  predicate HasOpcode(payload: seq<byte>, opcode: nat) {
    ReadCommand(payload).Some? && ReadCommand(payload).value.opcode == opcode
  }

  /** The link once a packet has been prepared and its completion is awaited. */
  function Asked(l: Link, ptype: nat, op: Op): Link {
    var r := Prepare(l, ptype);
    if op.OpCommand? then r.(cmdOpcode := op.opcode, cmdSuccess := false) else r
  }

  /** The link once a download packet has been prepared. */
  function Patched(l: Link, index: byte): Link {
    Prepare(l.(txIndex := index % 0x80), HCI_COMMAND_PKT)
  }

  /** Among the packets from position `n` on there is an event that carries `index`. */
  ghost predicate FreshIndex(n: nat, log: seq<Frame>, index: int) {
    exists k :: n <= k < |log| && CarriesIndex(log[k], index)
  }

  /** The first `n` packets of a download were answered in order, after position `start` of the log, each by
      an event with the index it waits for. */
  ghost predicate Answered(log: seq<Frame>, start: nat, total: nat, n: nat) {
    n <= total + 1 && exists ps: seq<nat> :: |ps| == n && AnsweredAt(log, start, total, ps)
  }

  ghost predicate AnsweredAt(log: seq<Frame>, start: nat, total: nat, ps: seq<nat>) {
    && (forall i :: 0 <= i < |ps| ==> start <= ps[i] < |log| && Answers(log[ps[i]], i, total))
    && (forall i, j :: 0 <= i < j < |ps| ==> ps[i] < ps[j])
  }

  ghost predicate Answers(f: Frame, i: nat, total: nat) {
    i <= total && CarriesIndex(f, WaitIndex(i, total))
  }

  lemma NoneAnswered(log: seq<Frame>, total: nat)
    ensures Answered(log, |log|, total, 0)
  {
    var none: seq<nat> := [];
    assert AnsweredAt(log, |log|, total, none);
  }

  lemma AnsweredLater(log: seq<Frame>, more: seq<Frame>, start: nat, total: nat, n: nat)
    requires Answered(log, start, total, n) && log <= more
    ensures Answered(more, start, total, n)
  {
    hide CarriesIndex;
    var ps: seq<nat> :| |ps| == n && AnsweredAt(log, start, total, ps);
    assert AnsweredAt(more, start, total, ps);
  }

  lemma AnsweredNext(log: seq<Frame>, more: seq<Frame>, start: nat, total: nat, n: nat)
    requires Answered(log, start, total, n) && log <= more && start <= |log| && n <= total
    requires FreshIndex(|log|, more, WaitIndex(n, total))
    ensures Answered(more, start, total, n + 1)
  {
    hide CarriesIndex, WaitIndex;
    var ps: seq<nat> :| |ps| == n && AnsweredAt(log, start, total, ps);
    var k :| |log| <= k < |more| && CarriesIndex(more[k], WaitIndex(n, total));
    var qs: seq<nat> := ps + [k];
    forall i | 0 <= i < |qs|
      ensures start <= qs[i] < |more| && Answers(more[qs[i]], i, total)
    {
      assert i < n ==> qs[i] == ps[i] && more[ps[i]] == log[ps[i]];
    }
    assert AnsweredAt(more, start, total, qs);
  }

  /** Among the packets from position `n` on there is one that completes this command successfully. */
  ghost predicate FreshCompletion(n: nat, log: seq<Frame>, opcode: nat) {
    exists k :: n <= k < |log| && CompletesCommand(log[k], opcode)
  }

  lemma LaterFacts(l: Link, r: Link)
    requires Later(l, r)
    ensures l.log <= r.log && l.state.Rank() <= r.state.Rank() && (l.state.Rank() < 3 ==> r.state.Rank() < 3)
    ensures r.msgqTxSeq == l.msgqTxSeq && r.cmdOpcode == l.cmdOpcode
    ensures r.txIndex == l.txIndex && r.totalNum == l.totalNum
    ensures r.numOfCmdSent != l.numOfCmdSent ==> l.state.Rank() <= 2
    ensures l.state.Rank() >= 3 && l.cmdOpcode == HCI_CMD_RESET && r.cmdSuccess ==> l.cmdSuccess || r.state == H5Active
    ensures r.rxIndex != l.rxIndex ==>
              l.state == H5Patch && FreshIndex(|l.log|, r.log, r.rxIndex)
    ensures r.cmdSuccess && !l.cmdSuccess ==> FreshCompletion(|l.log|, r.log, l.cmdOpcode)
  {
    hide History, CarriesIndex, CompletesCommand;
  }

  /** What has come of a download packet that the link waited for. */
  lemma PatchFacts(l: Link, index: byte, w: seq<byte>, r: Link)
    requires l.Wf() && !l.exited && Later(Write(Patched(l, index), w), r)
    ensures l.log <= r.log && l.state.Rank() <= r.state.Rank()
    ensures l.state.Rank() >= 3 ==> r.numOfCmdSent == l.numOfCmdSent
    ensures r.msgqTxSeq == (l.msgqTxSeq + 1) % 8
    ensures r.rxIndex == r.txIndex ==>
              && r.rxIndex == index % 0x80
              && (l.rxIndex != index % 0x80 ==> l.state == H5Patch && FreshIndex(|l.log|, r.log, index % 0x80))
  {
    hide Later, FreshIndex;
    LaterFacts(Write(Patched(l, index), w), r);
  }

  lemma ExitIsLater(l: Link)
    requires !l.exited
    ensures Later(l, l.(exited := true))
  {
    hide Climbed;
    if History(l) {
      HistoryGrows(l, l.(exited := true));
    }
  }

  lemma WriteIsLater(l: Link, w: seq<byte>)
    requires !l.exited
    ensures Later(l, Write(l, w))
  {
    hide Climbed;
    if History(l) {
      HistoryGrows(l, Write(l, w));
    }
  }

  /** While packet `i` of a download is under way the resync rule applies exactly if the link is still being
      patched, the packet is the last, and there are at most 128 packets. */
  lemma ResyncOnShortDownloadsOnly(l: Link, i: nat, total: nat, r: Link)
    requires i <= total && l.totalNum == total && Later(Patched(l, IndexOctet(i, total)), r)
    ensures ResyncRule(r) <==> r.state == H5Patch && i == total && total <= 127
  {
    hide Later, IndexOctet, FreshIndex;
    LaterFacts(Patched(l, IndexOctet(i, total)), r);
    RolledIndexIsTotal(i, total);
  }

  /** Where a download has more than 256 packets, packet 255 carries the octet 0x80. If the controller echoes
      it, the link takes the download for finished, and packet 256 is never acknowledged: whatever comes in
      afterwards, the wait for its index does not succeed. */
  lemma EarlyLastIndexBlocks(l: Link, mem: seq<byte>, total: nat, a: Link, b: Link)
    requires l.Wf() && !l.exited && l.state == H5Patch && total > 255
    requires WellFormed(mem) && Need(mem) == |mem| && PassedUp(HdrType(mem))
    requires View(mem, 4, HdrLen(mem)).At(0) == 0x0e
    requires View(mem, 4, HdrLen(mem)).At(6) == IndexOctet(255, total)
    requires Later(Complete(l, mem), a) && Later(Patched(a, IndexOctet(256, total)), b)
    ensures b.rxIndex != b.txIndex == WaitIndex(256, total)
  {
    hide Later, SendAck, CcMatches, FreshIndex;
    assert IndexOctet(255, total) == 0x80 && IndexOctet(256, total) % 0x80 == 1;
    EarlyLastIndex(l, mem);
    LaterFacts(Complete(l, mem), a);
    LaterFacts(Patched(a, IndexOctet(256, total)), b);
  }

  /** The event that echoes the index octet of packet 255. */
  const ECHO: Frame := Frame(false, 0, 0, false, HCI_EVENT_PKT, [0x0e, 0x05, 0x01, 0x20, 0xfc, 0x00, 0x80])

  /** Every link that is being patched comes to this point when it receives that event. */
  lemma EarlyLastIndexIsReached(l: Link, total: nat)
    requires l.Wf() && !l.exited && l.state == H5Patch && total > 255
    ensures
      var a := CompleteFrame(l, ECHO);
      var b := Patched(a, IndexOctet(256, total));
      Awaited(l, ECHO) && b.rxIndex != b.txIndex == WaitIndex(256, total)
  {
    hide Later, Complete, Check;
    var mem := Body(ECHO);
    FrameOfBody(ECHO, []);
    assert mem + [] == mem;
    assert mem[4..11] == ECHO.payload;
    var a := Complete(l, mem);
    LaterReflexive(a);
    LaterReflexive(Patched(a, IndexOctet(256, total)));
    EarlyLastIndexBlocks(l, mem, total, a, Patched(a, IndexOctet(256, total)));
    assert CompleteFrame(l, ECHO) == a;
  }

  // ---- the controller echoes every index ----

  /** The event by which the controller echoes the index octet of packet `i`, with any status. */
  function Echo(i: nat, total: nat, status: byte): Frame
    requires i <= total
  {
    Frame(false, 0, 0, false, HCI_EVENT_PKT, [0x0e, 0x05, 0x01, 0x20, 0xfc, status, IndexOctet(i, total)])
  }

  /** The link after the first `n` packets were prepared and each was echoed. */
  ghost function Echoed(l: Link, total: nat, status: byte, n: nat): (r: Link)
    requires l.Wf() && n <= total + 1
    ensures r.Wf()
  {
    if n == 0 then l
    else CompleteFrame(Patched(Echoed(l, total, status, n - 1), IndexOctet(n - 1, total)), Echo(n - 1, total, status))
  }

  /** What an echo does to a link that waits for it, before and after a final index. */
  lemma EchoStep(l: Link, i: nat, total: nat, status: byte)
    requires l.Wf() && !l.exited && (l.state == H5Patch || l.state == H5HciReset) && i <= total
    ensures
      var r := CompleteFrame(Patched(l, IndexOctet(i, total)), Echo(i, total, status));
      && !r.exited && r.txIndex == WaitIndex(i, total)
      && r.rxIndex == (if l.state == H5Patch then WaitIndex(i, total) else l.rxIndex)
      && r.state in {H5Patch, H5HciReset}
      && (r.state == H5HciReset <==> l.state == H5HciReset || IndexOctet(i, total) >= 0x80)
  {
    hide IndexOctet, Check, AckFrame;
    var f, p := Echo(i, total, status), Patched(l, IndexOctet(i, total));
    EchoIsView(i, total, status);
    assert CompleteFrame(p, f) == Complete(p, Body(f));
  }

  lemma EchoIsView(i: nat, total: nat, status: byte)
    requires i <= total
    ensures
      var mem := Body(Echo(i, total, status));
      && |mem| == 11 && HdrType(mem) == HCI_EVENT_PKT && HdrLen(mem) == 7 && !HdrReliable(mem)
      && View(mem, 4, 7).At(0) == 0x0e && View(mem, 4, 7).At(6) == IndexOctet(i, total)
      && CcOpcode(View(mem, 4, 7)) == 0xfc20
  {
    hide IndexOctet;
    var f := Echo(i, total, status);
    FrameOfBody(f, []);
    assert Body(f) + [] == Body(f) && Body(f)[4..11] == f.payload;
  }

  lemma {:induction false} EchoesKeepUp(l: Link, total: nat, status: byte, n: nat)
    requires l.Wf() && !l.exited && l.state == H5Patch && n <= total + 1
    requires forall i :: 0 <= i < n - 1 ==> IndexOctet(i, total) < 0x80
    ensures
      var r := Echoed(l, total, status, n);
      && !r.exited && r.state in {H5Patch, H5HciReset} && (n > 0 ==> r.rxIndex == r.txIndex == WaitIndex(n - 1, total))
      && (r.state == H5HciReset <==> n > 0 && IndexOctet(n - 1, total) >= 0x80)
  {
    hide IndexOctet, CompleteFrame;
    if n == 0 {
    } else {
      EchoesKeepUp(l, total, status, n - 1);
      EchoStep(Echoed(l, total, status, n - 1), n - 1, total, status);
    }
  }

  /** If the controller echoes the index octet of every packet, each wait succeeds exactly if the download has
      at most 256 packets; the status, which may refuse them all, makes no difference. */
  lemma EchoedDownloadCompletes(l: Link, total: nat, status: byte)
    requires l.Wf() && !l.exited && l.state == H5Patch
    ensures (forall n :: 0 < n <= total + 1 ==>
               Echoed(l, total, status, n).rxIndex == Echoed(l, total, status, n).txIndex)
        <==> total <= 255
  {
    hide CompleteFrame, Echoed;
    LastBitIsUnique(total);
    if total <= 255 {
      forall n | 0 < n <= total + 1
        ensures Echoed(l, total, status, n).rxIndex == Echoed(l, total, status, n).txIndex
      {
        assert forall i :: 0 <= i < n - 1 ==> IndexOctet(i, total) < 0x80;
        EchoesKeepUp(l, total, status, n);
      }
    } else {
      assert IndexOctet(255, total) == 0x80 && IndexOctet(256, total) % 0x80 == 1;
      assert forall i :: 0 <= i < 255 ==> IndexOctet(i, total) < 0x80;
      EchoesKeepUp(l, total, status, 256);
      EchoStep(Echoed(l, total, status, 256), 256, total, status);
      EchoedNext(l, total, status, 256);
      assert Echoed(l, total, status, 257).rxIndex != Echoed(l, total, status, 257).txIndex;
    }
  }

  lemma EchoedNext(l: Link, total: nat, status: byte, n: nat)
    requires l.Wf() && n <= total
    ensures Echoed(l, total, status, n + 1) ==
              CompleteFrame(Patched(Echoed(l, total, status, n), IndexOctet(n, total)), Echo(n, total, status))
  {}

  // ---- what an answer is not asked for ----

  /** While the link is being patched, a command complete event of any command and with any status answers a
      packet, if octet 6 carries its index: also one that refuses it. */
  lemma AnyCompletionAnswers(i: nat, total: nat, low: byte, high: byte, status: byte)
    requires i <= total
    ensures
      var f := Frame(false, 0, 0, false, HCI_EVENT_PKT, [0x0e, 0x05, 0x01, low, high, status, IndexOctet(i, total)]);
      Answers(f, i, total)
  {
    hide IndexOctet;
    var f := Frame(false, 0, 0, false, HCI_EVENT_PKT, [0x0e, 0x05, 0x01, low, high, status, IndexOctet(i, total)]);
    FrameOfBody(f, []);
    assert Body(f) + [] == Body(f) && Body(f)[4..11] == f.payload;
    assert ViewOf(f).At(0) == f.payload[0] && ViewOf(f).At(6) == f.payload[6];
  }

  lemma EarlyLastIndex(l: Link, mem: seq<byte>)
    requires l.Wf() && !l.exited && l.state == H5Patch
    requires WellFormed(mem) && PassedUp(HdrType(mem))
    requires View(mem, 4, HdrLen(mem)).At(0) == 0x0e && View(mem, 4, HdrLen(mem)).At(6) == 0x80
    ensures Complete(l, mem).state == H5HciReset && Complete(l, mem).rxIndex == 0
  {
    hide AckFrame, CcMatches, WellFormed;
  }
}
