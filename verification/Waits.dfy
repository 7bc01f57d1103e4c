/** What `epoll_wait` reports and what the host makes of it: which steps of a run a wait consists of, and how
    many retransmissions it leaves. */
module Waits {
  import opened Bytes
  import opened LinkLayer
  import opened Runs

  /** One ready descriptor of an `epoll_wait`, with the result of the read that follows. */
  datatype EpollEvent =
    | SerialReady(data: seq<byte>)
    | SerialReadError
    | SerialFault
    | TimerExpired
    | TimerReadShort
    | TimerFault

  datatype Wait = Ready(events: seq<EpollEvent>) | WaitFailed

  // ---- one event ----

  /** How many retransmissions are left after an event; None where it ends the process. A short timer read ends
      the batch in `start_transmit_wait` (`skipShort`) and the process in `h5_download_patch`. */
  function RetriesAfter(event: EpollEvent, retries: int, skipShort: bool): Option<int> {
    match event
    case SerialFault => None
    case TimerFault => None
    case TimerReadShort => if skipShort then Some(retries) else None
    case TimerExpired => if retries <= 0 then None else Some(retries - 1)
    case _ => Some(retries)
  }

  /** Whatever was read is received; a timeout writes the frame under way again. */
  function EventSteps(event: EpollEvent, retries: int, skipShort: bool, w: seq<byte>): seq<Event> {
    match event
    case SerialReady(data) => [Received(data)]
    case SerialReadError => []
    case SerialFault => [Died]
    case TimerFault => [Died]
    case TimerReadShort => if skipShort then [] else [Died]
    case TimerExpired => if retries <= 0 then [Died] else [Wrote(w)]
  }

  // ---- the events of one `epoll_wait` ----

  function RetriesLeft(events: seq<EpollEvent>, retries: int, skipShort: bool): Option<int>
    decreases |events|
  {
    if |events| == 0 then Some(retries)
    else
      var r := RetriesAfter(events[0], retries, skipShort);
      if r.None? || events[0].TimerReadShort? then r else RetriesLeft(events[1..], r.value, skipShort)
  }

  function BatchSteps(events: seq<EpollEvent>, retries: int, skipShort: bool, w: seq<byte>): seq<Event>
    decreases |events|
  {
    if |events| == 0 then []
    else
      var r := RetriesAfter(events[0], retries, skipShort);
      EventSteps(events[0], retries, skipShort, w) +
      if r.None? || events[0].TimerReadShort? then [] else BatchSteps(events[1..], r.value, skipShort, w)
  }

  /** Inside a batch, before its event `n`: the run lies on the way to the end of the batch. */
  ghost predicate BatchAt(before: seq<Event>, t: seq<Event>, exited: bool, events: seq<EpollEvent>, n: nat,
                          retry: int, retries: int, skipShort: bool, w: seq<byte>)
  {
    var all := before + BatchSteps(events, retries, skipShort, w);
    && n <= |events| && before <= t <= all
    && (!exited ==>
          && t + BatchSteps(events[n..], retry, skipShort, w) == all
          && RetriesLeft(events[n..], retry, skipShort) == RetriesLeft(events, retries, skipShort))
  }

  /** A batch that is over, at its end or before. */
  ghost predicate BatchDone(before: seq<Event>, t: seq<Event>, exited: bool, events: seq<EpollEvent>, retry: int,
                            retries: int, skipShort: bool, w: seq<byte>)
  {
    var all := before + BatchSteps(events, retries, skipShort, w);
    && before <= t <= all
    && (!exited ==> t == all && RetriesLeft(events, retries, skipShort) == Some(retry))
  }

  lemma BatchBegins(before: seq<Event>, events: seq<EpollEvent>, retries: int, skipShort: bool, w: seq<byte>)
    ensures BatchAt(before, before, false, events, 0, retries, retries, skipShort, w)
  {
    hide BatchSteps, RetriesLeft;
    assert events[0..] == events;
  }

  lemma BatchGoesOn(before: seq<Event>, t: seq<Event>, u: seq<Event>, exited: bool, events: seq<EpollEvent>, n: nat,
                    retry: int, next: int, retries: int, skipShort: bool, w: seq<byte>)
    requires n < |events| && BatchAt(before, t, false, events, n, retry, retries, skipShort, w)
    requires u == t + EventSteps(events[n], retry, skipShort, w)
    requires !exited ==> RetriesAfter(events[n], retry, skipShort) == Some(next)
    ensures events[n].TimerReadShort? ==> BatchDone(before, u, exited, events, next, retries, skipShort, w)
    ensures !events[n].TimerReadShort? ==> BatchAt(before, u, exited, events, n + 1, next, retries, skipShort, w)
  {
    hide EventSteps, RetriesAfter;
    var rest, step := events[n..], EventSteps(events[n], retry, skipShort, w);
    assert rest[1..] == events[n + 1..];
    var r := RetriesAfter(events[n], retry, skipShort);
    var tail := if r.None? || events[n].TimerReadShort? then [] else BatchSteps(rest[1..], r.value, skipShort, w);
    assert BatchSteps(rest, retry, skipShort, w) == step + tail;
    assert t + (step + tail) == u + tail;
    assert u[..|before|] == t[..|before|] == before;
    assert u + [] == u;
  }

  lemma BatchEnds(before: seq<Event>, t: seq<Event>, exited: bool, events: seq<EpollEvent>, n: nat, retry: int,
                  retries: int, skipShort: bool, w: seq<byte>)
    requires BatchAt(before, t, exited, events, n, retry, retries, skipShort, w) && (n == |events| || exited)
    ensures BatchDone(before, t, exited, events, retry, retries, skipShort, w)
  {
    assert t + [] == t;
  }

  // ---- one wait after the other ----

  function RetriesAfterWaits(waits: seq<Wait>, retries: int, skipShort: bool): Option<int> {
    if |waits| == 0 then Some(retries)
    else
      match RetriesAfterWaits(waits[..|waits| - 1], retries, skipShort)
      case None => None
      case Some(r) =>
        match waits[|waits| - 1]
        case WaitFailed => None
        case Ready(events) => RetriesLeft(events, r, skipShort)
  }

  function WaitSteps(waits: seq<Wait>, retries: int, skipShort: bool, w: seq<byte>): seq<Event> {
    if |waits| == 0 then []
    else
      var init := waits[..|waits| - 1];
      match RetriesAfterWaits(init, retries, skipShort)
      case None => WaitSteps(init, retries, skipShort, w)
      case Some(r) =>
        WaitSteps(init, retries, skipShort, w) +
        match waits[|waits| - 1]
        case WaitFailed => [Died]
        case Ready(events) => BatchSteps(events, r, skipShort, w)
  }

  /** One wait more. */
  lemma WaitsSnoc(waits: seq<Wait>, n: nat, retries: int, skipShort: bool, w: seq<byte>, r: int)
    requires n < |waits| && RetriesAfterWaits(waits[..n], retries, skipShort) == Some(r)
    ensures RetriesAfterWaits(waits[..n + 1], retries, skipShort)
         == if waits[n].WaitFailed? then None else RetriesLeft(waits[n].events, r, skipShort)
    ensures WaitSteps(waits[..n + 1], retries, skipShort, w)
         == WaitSteps(waits[..n], retries, skipShort, w)
            + if waits[n].WaitFailed? then [Died] else BatchSteps(waits[n].events, r, skipShort, w)
  {
    assert waits[..n + 1][..n] == waits[..n];
  }

  // ---- what a wait may consist of ----

  predicate WaitStep(e: Event) {
    e.Received? || e.Wrote? || e.Died?
  }

  predicate OnlyWaits(t: seq<Event>) {
    forall i :: 0 <= i < |t| ==> WaitStep(t[i])
  }

  lemma {:induction false} BatchOnlyWaits(events: seq<EpollEvent>, retries: int, skipShort: bool, w: seq<byte>)
    ensures OnlyWaits(BatchSteps(events, retries, skipShort, w))
    decreases |events|
  {
    if |events| == 0 {
    } else {
      var r := RetriesAfter(events[0], retries, skipShort);
      if r.Some? {
        BatchOnlyWaits(events[1..], r.value, skipShort, w);
      }
    }
  }

  lemma {:induction false} WaitsOnlyWaits(waits: seq<Wait>, retries: int, skipShort: bool, w: seq<byte>)
    ensures OnlyWaits(WaitSteps(waits, retries, skipShort, w))
  {
    if |waits| == 0 {
    } else {
      var init := waits[..|waits| - 1];
      WaitsOnlyWaits(init, retries, skipShort, w);
      var r := RetriesAfterWaits(init, retries, skipShort);
      if r.Some? && waits[|waits| - 1].Ready? {
        BatchOnlyWaits(waits[|waits| - 1].events, r.value, skipShort, w);
      }
    }
  }

  /** A run that came from `before` by these waits; where the process has ended it may have done so on the way. */
  ghost predicate Waited(before: seq<Event>, after: seq<Event>, exited: bool, waits: seq<Wait>, retries: int,
                         skipShort: bool, w: seq<byte>)
  {
    && before <= after <= before + WaitSteps(waits, retries, skipShort, w)
    && (!exited ==>
          && after == before + WaitSteps(waits, retries, skipShort, w)
          && RetriesAfterWaits(waits, retries, skipShort).Some?)
  }

  // ---- what is waited for ----

  datatype Op = OpSync | OpConfig | OpCommand(opcode: nat) | OpIndex

  predicate DoneIn(l: Link, op: Op) {
    match op
    case OpSync => l.state == H5Config
    case OpConfig => l.state == H5Init
    case OpCommand(opcode) => l.cmdOpcode == opcode && l.cmdSuccess
    case OpIndex => l.rxIndex == l.txIndex
  }

  /** What is waited for did not hold after any of the first `n` waits. */
  ghost predicate NotYet(before: seq<Event>, waits: seq<Wait>, n: nat, op: Op, retries: int, skipShort: bool,
                         w: seq<byte>)
  {
    n <= |waits| &&
    forall k :: 0 < k <= n ==> !DoneIn(Run(before + WaitSteps(waits[..k], retries, skipShort, w)).lk, op)
  }

  /** After `n` waits what is waited for has not held yet, and `retry` retransmissions are left. */
  ghost predicate Waiting(before: seq<Event>, after: seq<Event>, waits: seq<Wait>, n: nat, retry: int, op: Op,
                          retries: int, skipShort: bool, w: seq<byte>)
  {
    && n <= |waits| && RetriesAfterWaits(waits[..n], retries, skipShort) == Some(retry)
    && after == before + WaitSteps(waits[..n], retries, skipShort, w)
    && NotYet(before, waits[..n], n, op, retries, skipShort, w)
  }

  lemma WaitingBegins(before: seq<Event>, waits: seq<Wait>, op: Op, retries: int, skipShort: bool, w: seq<byte>)
    ensures Waiting(before, before, waits, 0, retries, op, retries, skipShort, w)
  {
    assert waits[..0] == [] && before + [] == before;
  }

  /** One more wait, which either ends the waiting or does not. */
  lemma WaitingGoesOn(before: seq<Event>, t: seq<Event>, u: seq<Event>, exited: bool, waits: seq<Wait>, n: nat,
                      retry: int, next: int, op: Op, retries: int, skipShort: bool, w: seq<byte>)
    requires Waiting(before, t, waits, n, retry, op, retries, skipShort, w) && n < |waits|
    requires
      var steps := if waits[n].WaitFailed? then [Died] else BatchSteps(waits[n].events, retry, skipShort, w);
      t <= u <= t + steps && (!exited ==> u == t + steps)
    requires !exited ==> waits[n].Ready? && RetriesLeft(waits[n].events, retry, skipShort) == Some(next)
    ensures Waited(before, u, exited, waits[..n + 1], retries, skipShort, w)
    ensures NotYet(before, waits[..n + 1], n, op, retries, skipShort, w)
    ensures !exited && !DoneIn(Run(u).lk, op) ==> Waiting(before, u, waits, n + 1, next, op, retries, skipShort, w)
  {
    hide Run, DoneIn, BatchSteps, RetriesLeft, WaitSteps, RetriesAfterWaits;
    WaitsSnoc(waits, n, retries, skipShort, w, retry);
    var steps := if waits[n].WaitFailed? then [Died] else BatchSteps(waits[n].events, retry, skipShort, w);
    var done, ws := WaitSteps(waits[..n], retries, skipShort, w), waits[..n + 1];
    assert before + done + steps == before + (done + steps);
    assert u[..|before|] == t[..|before|] == before;
    forall k | 0 < k <= n
      ensures !DoneIn(Run(before + WaitSteps(ws[..k], retries, skipShort, w)).lk, op)
    {
      assert ws[..k] == waits[..n][..k];
    }
    assert ws[..n + 1] == ws;
  }

  lemma WaitingIsWaited(before: seq<Event>, after: seq<Event>, waits: seq<Wait>, n: nat, retry: int, op: Op,
                        retries: int, skipShort: bool, w: seq<byte>)
    requires Waiting(before, after, waits, n, retry, op, retries, skipShort, w)
    ensures Waited(before, after, false, waits[..n], retries, skipShort, w)
    ensures NotYet(before, waits[..n], n, op, retries, skipShort, w)
  {
    hide Run, DoneIn, WaitSteps;
  }

  lemma WaitedOnlyWaits(before: seq<Event>, after: seq<Event>, exited: bool, waits: seq<Wait>, retries: int,
                        skipShort: bool, w: seq<byte>)
    requires Waited(before, after, exited, waits, retries, skipShort, w)
    ensures before <= after && OnlyWaits(after[|before|..])
  {
    hide WaitSteps, RetriesAfterWaits;
    WaitsOnlyWaits(waits, retries, skipShort, w);
    var all := before + WaitSteps(waits, retries, skipShort, w);
    assert forall i :: 0 <= i < |after| - |before| ==> after[|before|..][i] == all[|before| + i];
  }
}
