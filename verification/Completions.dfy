/** The command counter over whole runs: it is the number of successful completions that were counted. */
module Completions {
  import opened Bytes
  import opened Crc
  import opened Frames
  import opened LinkLayer
  import opened Receiver
  import opened Ladder
  import opened Planner
  import opened Waits
  import opened Runs

  /** The packet completes the pending command successfully while the link is being initialised, and the
      command is one of those that are counted. */
  ghost predicate Counts(l: Link, f: Frame) {
    && l.state == H5Init && Valid(f) && PassedUp(f.ptype) && CountedCommand(l.cmdOpcode)
    && ViewOf(f).At(0) == 0x0e && ViewOf(f).len >= 5 && CcMatches(l, ViewOf(f))
  }

  ghost function Tally(l: Link, f: Frame): nat {
    if Counts(l, f) then 1 else 0
  }

  /** What the delivery of at most one packet adds. */
  ghost function Added(l: Link, r: Link): nat {
    if |r.log| == |l.log| + 1 then Tally(l, r.log[|l.log|]) else 0
  }

  /** `r` follows `l` with at most one packet delivered, which the counter takes account of. */
  ghost predicate Tallied(l: Link, r: Link) {
    && l.log <= r.log && |r.log| <= |l.log| + 1
    && r.numOfCmdSent == (l.numOfCmdSent + Added(l, r)) % 0x1_0000
    && (r.log == l.log ==> r.state == l.state && r.cmdOpcode == l.cmdOpcode && r.cmdSuccess == l.cmdSuccess)
    && (Succeeded(l, r) ==> Added(l, r) == 1)
  }

  /** A command of the kind that is counted has succeeded while the link was being initialised. */
  ghost predicate Succeeded(l: Link, r: Link) {
    r.cmdSuccess && !l.cmdSuccess && r.state.Rank() <= 2 && CountedCommand(l.cmdOpcode)
  }

  lemma DispatchTallies(e: Link, mem: seq<byte>, f: Frame)
    requires e.Wf() && e.numOfCmdSent < 0x1_0000
    requires |mem| >= 4 && Valid(f) && ViewOf(f) == View(mem, 4, HdrLen(mem)) && f.ptype == HdrType(mem)
    ensures Dispatch(e, mem).numOfCmdSent == (e.numOfCmdSent + Tally(e, f)) % 0x1_0000
    ensures Succeeded(e, Dispatch(e, mem)) ==> Tally(e, f) == 1
  {
    hide HandleInternalRx, CountedCommand, Body, HdrType, HdrLen, ViewOf, CcOpcode;
    InternalMoves(e, View(mem, 4, HdrLen(mem)));
  }

  lemma CompleteTallies(l: Link, mem: seq<byte>)
    requires l.Wf() && l.numOfCmdSent < 0x1_0000 && WellFormed(mem) && Need(mem) == |mem|
    ensures Tallied(l, Complete(l, mem))
  {
    hide Enter, Dispatch, Acknowledge, Body, WellFormed, HdrType, ViewOf, HdrLen, FrameOf;
    var f, e := FrameOf(mem), Enter(l, mem);
    FrameIsView(mem);
    EnterMoves(l, mem);
    DispatchTallies(e, mem, f);
    DispatchMoves(e, mem, f);
    AcknowledgeMoves(Dispatch(e, mem));
  }

  lemma FrameIsView(mem: seq<byte>)
    requires WellFormed(mem) && Need(mem) == |mem|
    ensures Valid(FrameOf(mem)) && FrameOf(mem).ptype == HdrType(mem)
    ensures ViewOf(FrameOf(mem)) == View(mem, 4, HdrLen(mem))
  {
    hide Body, CrcOf, CheckOctets;
    BodyOfFrame(mem);
    assert mem[..Need(mem)] == mem;
  }

  lemma NothingTallied(l: Link, r: Link)
    requires l.numOfCmdSent < 0x1_0000
    requires r.log == l.log && r.numOfCmdSent == l.numOfCmdSent && r.state == l.state && r.cmdOpcode == l.cmdOpcode
    requires r.cmdSuccess == l.cmdSuccess
    ensures Tallied(l, r)
  {}

  lemma TurnTallies(h: H5, b: byte)
    requires Inv(h) && !h.lk.exited && h.lk.numOfCmdSent < 0x1_0000
    ensures Tallied(h.lk, Turn(h, b).0.lk)
  {
    hide Complete, UnslipOne, BitRev16, GetCrc, CrcOf, Running, Tallied;
    if h.rx.count == 0 && h.rx.state == W4Hdr {
      NothingTallied(h.lk, CheckHeader(h).lk);
    } else if h.rx.count == 0 && h.rx.state.Buffering() {
      NothingTallied(h.lk, h.lk);
      FilledIsWellFormed(h);
      if WellFormed(h.rx.buf) && Need(h.rx.buf) == |h.rx.buf| {
        CompleteTallies(h.lk, h.rx.buf);
      }
    } else {
      NothingTallied(h.lk, h.lk);
    }
  }

  /** A packet delivered leaves the receiver hunting. */
  lemma TurnHunts(h: H5, b: byte)
    requires Inv(h) && !h.lk.exited
    ensures
      var r := Turn(h, b).0;
      r.lk.log != h.lk.log && !r.lk.exited ==> r.rx.count == 0 && r.rx.state == W4PktDelimiter
  {
    hide Complete, UnslipOne, BitRev16, GetCrc, CrcOf, Running;
  }

  lemma {:induction false} RecvByteTallies(h: H5, b: byte)
    requires Inv(h) && h.lk.numOfCmdSent < 0x1_0000
    ensures Tallied(h.lk, RecvByte(h, b).lk)
    decreases StateRank(h.rx)
  {
    if h.lk.exited {
    } else {
      hide Inv, Turn, CcMatches, CountedCommand, ViewOf;
      var (r, consumed) := Turn(h, b);
      TurnTallies(h, b);
      TurnHunts(h, b);
      if !consumed && !r.lk.exited {
        if r.lk.log == h.lk.log {
          RecvByteTallies(r, b);
          var s := RecvByte(r, b).lk;
          if |s.log| == |r.lk.log| + 1 {
            SameTally(h.lk, r.lk, s.log[|r.lk.log|]);
          }
        } else {
          HuntingConsumes(r, b);
        }
      }
    }
  }

  lemma SameTally(l: Link, r: Link, f: Frame)
    requires r.state == l.state && r.cmdOpcode == l.cmdOpcode
    ensures Tally(l, f) == Tally(r, f)
  {}

  lemma HuntingConsumes(h: H5, b: byte)
    requires Inv(h) && !h.lk.exited && h.rx.count == 0 && h.rx.state == W4PktDelimiter
    ensures RecvByte(h, b).lk == h.lk
  {}

  // ---- runs ----

  /** The counted completions in a stream. */
  ghost function CountedIn(h: H5, data: seq<byte>): nat
    requires Inv(h)
    decreases data
  {
    if data == [] then 0
    else
      var r := RecvByte(h, data[0]);
      Added(h.lk, r.lk) + CountedIn(r, data[1..])
  }

  lemma {:induction false} RecvCounts(h: H5, data: seq<byte>)
    requires Inv(h) && h.lk.numOfCmdSent < 0x1_0000
    ensures Recv(h, data).lk.numOfCmdSent == (h.lk.numOfCmdSent + CountedIn(h, data)) % 0x1_0000
    decreases data
  {
    hide Inv, RecvByte, Added;
    if data == [] {
    } else {
      var r := RecvByte(h, data[0]);
      RecvByteTallies(h, data[0]);
      RecvCounts(r, data[1..]);
      AddWrapped(h.lk.numOfCmdSent, Added(h.lk, r.lk), CountedIn(r, data[1..]));
    }
  }

  lemma AddWrapped(a: nat, b: nat, c: nat)
    ensures ((a + b) % 0x1_0000 + c) % 0x1_0000 == (a + b + c) % 0x1_0000
  {}

  /** The counted completions of a run. */
  ghost function CountedRun(t: seq<Event>): nat {
    if |t| == 0 then 0
    else
      var s, e := t[..|t| - 1], t[|t| - 1];
      CountedRun(s) + if e.Received? then CountedIn(Runs.Run(s), e.data) else 0
  }

  /** In every run the counter holds, modulo 65536, how many packets completed a counted command. */
  lemma {:induction false} CounterCountsCompletions(t: seq<Event>)
    ensures Runs.Run(t).lk.numOfCmdSent == CountedRun(t) % 0x1_0000
    decreases |t|
  {
    hide Inv, Recv, CountedIn;
    if |t| == 0 {
    } else {
      var s, e := t[..|t| - 1], t[|t| - 1];
      CounterCountsCompletions(s);
      assert Runs.Run(t) == Step(Runs.Run(s), e);
      if e.Received? {
        RecvCounts(Runs.Run(s), e.data);
        AddWrapped(CountedRun(s), 0, CountedIn(Runs.Run(s), e.data));
      }
    }
  }

  lemma CounterModulo8(t: seq<Event>)
    ensures Runs.Run(t).lk.numOfCmdSent % 8 == CountedRun(t) % 8
  {
    hide Inv, Runs.Run, CountedRun;
    CounterCountsCompletions(t);
    WrapKeepsModulo8(CountedRun(t));
  }

  // ---- every success is counted ----

  lemma {:induction false} RecvCountsSuccess(h: H5, data: seq<byte>)
    requires Inv(h) && h.lk.numOfCmdSent < 0x1_0000 && Succeeded(h.lk, Recv(h, data).lk)
    ensures CountedIn(h, data) >= 1
    decreases data
  {
    hide Inv, RecvByte, Added, Later;
    if data == [] {
    } else {
      var r := RecvByte(h, data[0]);
      RecvByteTallies(h, data[0]);
      RecvByteIsLater(h, data[0]);
      RecvIsLater(r, data[1..]);
      LaterKeepsOpcode(h.lk, r.lk);
      LaterKeepsOpcode(r.lk, Recv(r, data[1..]).lk);
      if !r.lk.cmdSuccess {
        RecvCountsSuccess(r, data[1..]);
      }
    }
  }

  lemma LaterKeepsOpcode(l: Link, r: Link)
    requires Later(l, r)
    ensures r.cmdOpcode == l.cmdOpcode && l.state.Rank() <= r.state.Rank()
  {
    hide History, IndexIsFresh, SuccessIsFresh;
  }

  lemma {:induction false} CountedGrows(t: seq<Event>, u: seq<Event>)
    requires t <= u
    ensures CountedRun(t) <= CountedRun(u)
    decreases |u|
  {
    if |t| == |u| {
      assert t == u;
    } else {
      assert t <= u[..|u| - 1];
      CountedGrows(t, u[..|u| - 1]);
    }
  }

  /** Where a wait ends with the success of a command that is counted, it was counted. */
  lemma {:induction false} SuccessIsCounted(t: seq<Event>, u: seq<Event>)
    requires t <= u && OnlyWaits(u[|t|..]) && Succeeded(Runs.Run(t).lk, Runs.Run(u).lk)
    ensures CountedRun(t) + 1 <= CountedRun(u)
    decreases |u|
  {
    hide Inv, Recv, CountedIn, Later;
    assert |t| == |u| ==> t == u;
    if |t| < |u| {
      var v, e := u[..|u| - 1], u[|u| - 1];
      assert t <= v && e == u[|t|..][|v| - |t|] && WaitStep(e);
      assert OnlyWaits(v[|t|..]) by {
        assert forall i :: 0 <= i < |v| - |t| ==> v[|t|..][i] == u[|t|..][i];
      }
      var h := Runs.Run(v);
      assert Runs.Run(u) == Step(h, e);
      WaitsKeepOpcode(t, v);
      CounterCountsCompletions(v);
      CountedGrows(t, v);
      if e.Received? {
        RecvIsLater(h, e.data);
        LaterKeepsOpcode(h.lk, Recv(h, e.data).lk);
      }
      if h.lk.cmdSuccess {
        SuccessIsCounted(t, v);
      } else {
        RecvCountsSuccess(h, e.data);
      }
    }
  }

  lemma {:induction false} WaitsKeepOpcode(t: seq<Event>, u: seq<Event>)
    requires t <= u && OnlyWaits(u[|t|..])
    ensures Runs.Run(u).lk.cmdOpcode == Runs.Run(t).lk.cmdOpcode
    decreases |u|
  {
    hide Inv, Recv, Later;
    if |t| == |u| {
      assert t == u;
    } else {
      var v, e := u[..|u| - 1], u[|u| - 1];
      assert t <= v && e == u[|t|..][|v| - |t|] && WaitStep(e);
      assert OnlyWaits(v[|t|..]) by {
        assert forall i :: 0 <= i < |v| - |t| ==> v[|t|..][i] == u[|t|..][i];
      }
      WaitsKeepOpcode(t, v);
      assert Runs.Run(u) == Step(Runs.Run(v), e);
      if e.Received? {
        RecvIsLater(Runs.Run(v), e.data);
        LaterKeepsOpcode(Runs.Run(v).lk, Recv(Runs.Run(v), e.data).lk);
      }
    }
  }

  /** A command that was prepared and made pending, and then only waited for. */
  lemma CommandIsCounted(t: seq<Event>, u: seq<Event>, ptype: nat, opcode: nat)
    requires t + [Prepared(ptype)] + [CommandPending(opcode)] <= u && OnlyWaits(u[|t| + 2..])
    ensures CountedRun(t) <= CountedRun(u)
    ensures CountedCommand(opcode) && Runs.Run(u).lk.cmdSuccess && Runs.Run(u).lk.state.Rank() <= 2 ==>
              CountedRun(t) + 1 <= CountedRun(u)
  {
    hide Inv, Recv, CountedIn, Later, Runs.Run, CountedRun;
    var p := t + [Prepared(ptype)];
    var q := p + [CommandPending(opcode)];
    RunSnoc(t, Prepared(ptype));
    RunSnoc(p, CommandPending(opcode));
    CountedGrows(t, q);
    CountedGrows(q, u);
    assert Runs.Run(q).lk.cmdOpcode == opcode && !Runs.Run(q).lk.cmdSuccess;
    if CountedCommand(opcode) && Runs.Run(u).lk.cmdSuccess && Runs.Run(u).lk.state.Rank() <= 2 {
      SuccessIsCounted(q, u);
    }
  }
}
