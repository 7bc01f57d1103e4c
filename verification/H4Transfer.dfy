/** The command transfer of `hciattach_h4.c`: send a command, read events until one completes it. */
module H4Transfer {
  import opened Bytes
  import opened Planner
  import opened Controller

  /** What `poll` reports. `Readable(grant)`: the read that follows returns at most `grant` octets of those
      that have arrived, or fails if `grant` is negative. */
  datatype PollEvent = PollFailed | TimedOut | HungUp | Readable(grant: int)

  datatype Outcome = Returned(code: int) | Exited | Blocked

  const EVENT_BUFFER := 64

  // ---- the reference: the command complete events of a byte stream ----

  /** The first command complete event and what follows it. */
  datatype Scanned = Found(event: seq<byte>, rest: seq<byte>) | Incomplete | HeaderCut | TooLong

  /** Octets other than the event packet type 0x04 are skipped, other events are passed over. */
  function Scan(s: seq<byte>): Scanned
    decreases |s|
  {
    if |s| == 0 then Incomplete
    else if s[0] != 0x04 then Scan(s[1..])
    else if |s| == 1 then Incomplete
    else if |s| == 2 then HeaderCut
    else
      var n: nat := s[2];
      if n + 3 > EVENT_BUFFER then TooLong
      else if |s| < 3 + n then Incomplete
      else if s[1] == 0x0e then Found(s[..3 + n], s[3 + n..])
      else Scan(s[3 + n..])
  }

  /** The stream has at least `n` command complete events. */
  predicate HasAnswers(s: seq<byte>, n: nat)
    decreases n
  {
    n > 0 ==> Scan(s).Found? && HasAnswers(Scan(s).rest, n - 1)
  }

  /** Up to the command complete event number `n` - 1, every event fits the buffer and no header is cut by the
      end of the stream. */
  predicate Legible(s: seq<byte>, n: nat)
    decreases n
  {
    n > 0 ==>
      match Scan(s)
      case Found(_, rest) => Legible(rest, n - 1)
      case Incomplete => true
      case _ => false
  }

  /** What is left of the stream after its first `n` command complete events. */
  function After(s: seq<byte>, n: nat): seq<byte>
    requires HasAnswers(s, n)
    decreases n
  {
    if n == 0 then s else After(Scan(s).rest, n - 1)
  }

  /** Command complete event number `k`, counted from 0. */
  function Answer(s: seq<byte>, k: nat): seq<byte>
    requires HasAnswers(s, k + 1)
    decreases k
  {
    if k == 0 then Scan(s).event else Answer(Scan(s).rest, k - 1)
  }

  function At(e: seq<byte>, k: nat): byte {
    if k < |e| then e[k] else 0
  }

  /** The event completes the command `opcode` with status 0; what an event is too short for reads as 0. */
  predicate Completes(e: seq<byte>, opcode: nat) {
    var low: nat, high: nat := At(e, 4), At(e, 5);
    low + 0x100 * high == opcode && At(e, 6) == 0
  }

  /** An event completes one command at most. */
  lemma CompletesOne(e: seq<byte>, m: nat, n: nat)
    requires Completes(e, m) && Completes(e, n)
    ensures m == n
  {}

  /** An event as a controller builds it, behind the packet type, completes its own command, if its status is
      0, and no other. */
  lemma CompletesItsCommand(op: nat, status: byte, rest: seq<byte>, n: nat)
    requires op < 0x1_0000 && |rest| <= 251
    ensures Completes([0x04] + Completion(op, status, rest), n) <==> n == op && status == 0
  {
    var e := [0x04] + Completion(op, status, rest);
    assert At(e, 4) == op % 0x100 && At(e, 5) == op / 0x100 && At(e, 6) == status;
  }

  // ---- quiet ports ----

  /** The reader in `state` has something to read, or a payload without octets to finish. */
  predicate CanRead(s: seq<byte>, state: int, left: nat) {
    |s| > 0 || (state == 3 && left == 0)
  }

  /** A read that makes progress: the two header octets at once, and one octet at least otherwise. */
  function Least(state: int): nat {
    if state == 2 then 2 else 1
  }

  datatype Reader = Reader(stream: seq<byte>, state: int, left: nat)

  /** What a read of at most `grant` octets leaves: the stream, the state and the payload octets to come. */
  function AfterRead(s: seq<byte>, state: int, left: nat, grant: nat): Reader
    requires CanRead(s, state, left) && grant >= Least(state)
  {
    if state == 1 then Reader(s[1..], if s[0] == 0x04 then 2 else 1, left)
    else if state == 2 then if |s| == 1 then Reader([], 1, left) else Reader(s[2..], 3, s[1])
    else
      var k := if left <= grant && left <= |s| then left else if grant <= |s| then grant else |s|;
      Reader(s[k..], if k == left then 1 else 3, left - k)
  }

  /** No error, no timeout, and no read cut down to nothing or within a header, along the whole stream; the
      payload may come in reads of any length. */
  predicate Quiet(polls: seq<PollEvent>, s: seq<byte>, state: int, left: nat)
    decreases |polls|
  {
    |polls| > 0 ==>
      && polls[0].Readable?
      && (CanRead(s, state, left) ==>
            && polls[0].grant >= Least(state)
            && var r := AfterRead(s, state, left, polls[0].grant);
               Quiet(polls[1..], r.stream, r.state, r.left))
  }

  function Opcode(cmd: seq<byte>): nat
    requires |cmd| >= 4
  {
    var low: nat, high: nat := cmd[1], cmd[2];
    low + 0x100 * high
  }

  class H4Port {
    /** The octets that have arrived and are still to be read, and what `poll` is going to report. */
    var stream: seq<byte>
    var polls: seq<PollEvent>
    ghost var written: seq<seq<byte>>

    constructor (stream: seq<byte>, polls: seq<PollEvent>)
      ensures this.stream == stream && this.polls == polls && written == []
    {
      this.stream, this.polls, written := stream, polls, [];
    }

    /** `read` of at most `n` octets into `buf` at `at`; a negative result is an error. */
    method Read(buf: array<byte>, at: nat, n: nat, grant: int) returns (result: int)
      requires at + n <= buf.Length
      modifies this`stream, buf
      ensures grant < 0 ==> result == -1 && stream == old(stream) && buf[..] == old(buf[..])
      ensures grant >= 0 ==>
                && 0 <= result <= n && result <= grant && result <= |old(stream)|
                && (result == n || result == grant || result == |old(stream)|)
                && stream == old(stream)[result..]
                && buf[..] == old(buf[..at]) + old(stream)[..result] + old(buf[at + result..])
    {
      if grant < 0 {
        return -1;
      }
      result := if n <= grant then n else grant;
      if |stream| < result {
        result := |stream|;
      }
      ghost var before := buf[..];
      forall k | 0 <= k < result {
        buf[at + k] := stream[k];
      }
      assert buf[..at] == before[..at] && buf[at..at + result] == stream[..result];
      assert buf[at + result..] == before[at + result..];
      assert buf[..] == buf[..at] + buf[at..at + result] + buf[at + result..];
      stream := stream[result..];
    }
  }

  method ClearBuffer(buf: array<byte>)
    modifies buf
    ensures forall k :: 0 <= k < buf.Length ==> buf[k] == 0
  {
    forall k | 0 <= k < buf.Length {
      buf[k] := 0;
    }
  }

  /** What the buffer holds of an event that is being read: nothing, the type octet, or `count` octets with
      `paramsLen` still to come. Behind that the buffer is zero. */
  ghost predicate Partial(buf: seq<byte>, state: int, count: nat, paramsLen: nat) {
    && |buf| == EVENT_BUFFER && 1 <= state <= 3 && count <= EVENT_BUFFER
    && (state == 1 ==> count == 0 && forall k :: 1 <= k < |buf| ==> buf[k] == 0)
    && (state == 2 ==> count == 1)
    && (state >= 2 ==> buf[0] == 0x04 && forall k :: count <= k < |buf| ==> buf[k] == 0)
    && (state == 3 ==> count >= 3 && count + paramsLen == 3 + buf[2] as int <= EVENT_BUFFER)
  }

  /** The stream as it was before the octets now in the buffer were read. */
  ghost function Suffix(buf: seq<byte>, state: int, count: nat, stream: seq<byte>): seq<byte>
    requires count <= |buf|
  {
    (if state == 1 then [] else buf[..count]) + stream
  }

  /** A whole event at the front of a stream. */
  lemma ScanEvent(e: seq<byte>, rest: seq<byte>)
    requires 3 <= |e| <= EVENT_BUFFER && e[0] == 0x04 && |e| == 3 + e[2] as int
    ensures Scan(e + rest) == if e[1] == 0x0e then Found(e, rest) else Scan(rest)
  {
    var s := e + rest;
    assert s[..|e|] == e && s[|e|..] == rest;
  }

  /** How one turn of the loop ends: round again, with a whole event, with a header cut short, in error. */
  datatype Verdict = Again | Whole | Cut | Failed

  /** The read of event parameters. */
  method ReadParams(port: H4Port, buf: array<byte>, count: nat, paramsLen: nat, grant: int)
    returns (v: Verdict, count': nat, paramsLen': nat)
    requires Partial(buf[..], 3, count, paramsLen) && (|port.stream| > 0 || paramsLen == 0)
    modifies port`stream, buf
    ensures v == (if grant < 0 then Failed else if paramsLen' == 0 then Whole else Again)
    ensures grant >= 0 ==>
              && Partial(buf[..], 3, count', paramsLen')
              && buf[..count'] + port.stream == old(buf[..count] + port.stream)
              && |port.stream| <= |old(port.stream)|
    ensures grant >= 1 ==>
              && AfterRead(old(port.stream), 3, paramsLen, grant)
                 == Reader(port.stream, if v == Whole then 1 else 3, paramsLen')
              && (v == Again ==> |port.stream| < |old(port.stream)|)
  {
    count', paramsLen' := count, paramsLen;
    var result := port.Read(buf, count, paramsLen, grant);
    if result == -1 {
      return Failed, count', paramsLen';
    }
    count', paramsLen' := count + result, paramsLen - result;
    v := if paramsLen' == 0 then Whole else Again;
    assert buf[..count'] == buf[..][..count'];
    assert old(buf[..count]) == old(buf[..])[..count];
    ghost var s := old(port.stream);
    assert s == s[..result] + s[result..];
  }

  /** The read of the packet type: octets other than 0x04 are skipped. */
  method ReadType(port: H4Port, buf: array<byte>, ghost paramsLen: nat, grant: int)
    returns (v: Verdict, state': int, count': nat)
    requires Partial(buf[..], 1, 0, paramsLen) && |port.stream| > 0
    modifies port`stream, buf
    ensures v == if grant < 1 then Failed else Again
    ensures v == Again ==>
              && port.stream == old(port.stream)[1..]
              && state' == (if old(port.stream)[0] == 0x04 then 2 else 1) && count' == state' - 1
              && Partial(buf[..], state', count', paramsLen)
              && Scan(Suffix(buf[..], state', count', port.stream)) == Scan(old(port.stream))
  {
    ghost var u := port.stream;
    v, state', count' := Again, 1, 0;
    var result := port.Read(buf, 0, 1, grant);
    if result != 1 {
      v := Failed;
    } else if buf[0] == 0x04 {
      count', state' := 1, 2;
      assert buf[..][..1] + port.stream == u;
    } else {
      assert [] + port.stream == u[1..] && u[0] == buf[0];
    }
  }

  /** The read of the event header. */
  method ReadHeader(port: H4Port, buf: array<byte>, ghost paramsLen: nat, grant: int)
    returns (v: Verdict, count': nat, paramsLen': nat)
    requires Partial(buf[..], 2, 1, paramsLen) && |port.stream| > 0
    modifies port`stream, buf
    ensures grant < 0 ==> v == Failed
    ensures v == Again ==>
              && |old(port.stream)| >= 2 && port.stream == old(port.stream)[2..]
              && paramsLen' == old(port.stream)[1] as int
              && Partial(buf[..], 3, count', paramsLen')
              && Suffix(buf[..], 3, count', port.stream) == [0x04] + old(port.stream)
    ensures v == Cut ==> count' == 1 && (grant >= 2 ==> Scan([0x04] + old(port.stream)) == HeaderCut)
    ensures v == Failed && grant >= 2 ==> Scan([0x04] + old(port.stream)) == TooLong
    ensures v != Whole
  {
    ghost var s := port.stream;
    v, count', paramsLen' := Again, 1, 0;
    assert buf[..][0] == 0x04;
    var result := port.Read(buf, 1, 2, grant);
    if result == -1 {
      v := Failed;
    } else if result != 2 {
      v := Cut;
    } else {
      assert buf[..][0] == 0x04 && buf[..][1] == s[0] && buf[..][2] == s[1];
      count', paramsLen' := 1 + result, buf[2];
      assert buf[..][..3] + port.stream == [0x04] + s;
      if paramsLen' + 3 > EVENT_BUFFER {
        v := Failed;
      }
    }
  }

  /** The read of one turn of the loop, in each of its three states. */
  method ReadTurn(port: H4Port, buf: array<byte>, state: int, count: nat, paramsLen: nat, grant: int)
    returns (v: Verdict, state': int, count': nat, paramsLen': nat)
    requires Partial(buf[..], state, count, paramsLen)
    requires |port.stream| > 0 || (state == 3 && paramsLen == 0)
    modifies port`stream, buf
    ensures grant < 0 ==> v == Failed
    ensures v == Again ==>
              && Partial(buf[..], state', count', paramsLen')
              && Scan(Suffix(buf[..], state', count', port.stream))
                   == old(Scan(Suffix(buf[..], state, count, port.stream)))
    ensures v == Whole || v == Cut ==> count' <= EVENT_BUFFER
    ensures v == Whole ==>
              && (forall k :: count' <= k < EVENT_BUFFER ==> buf[..][k] == 0)
              && old(Scan(Suffix(buf[..], state, count, port.stream))) ==
                   if buf[1] == 0x0e then Found(buf[..count'], port.stream) else Scan(port.stream)
    ensures v == Cut && grant >= Least(state) ==> old(Scan(Suffix(buf[..], state, count, port.stream))) == HeaderCut
    ensures v == Failed && grant >= Least(state) ==> old(Scan(Suffix(buf[..], state, count, port.stream))) == TooLong
    ensures v.Again? && grant >= Least(state) ==>
              && AfterRead(old(port.stream), state, paramsLen, grant) == Reader(port.stream, state', paramsLen')
              && 2 * |port.stream| + (if state' == 3 then 1 else 0)
                 < 2 * |old(port.stream)| + (if state == 3 then 1 else 0)
    ensures v.Whole? && grant >= Least(state) ==>
              && AfterRead(old(port.stream), state, paramsLen, grant) == Reader(port.stream, 1, 0) && paramsLen' == 0
              && 2 * |port.stream| < 2 * |old(port.stream)| + (if state == 3 then 1 else 0)
  {
    state', count', paramsLen' := state, count, paramsLen;
    ghost var u := Suffix(buf[..], state, count, port.stream);
    if state == 1 {
      assert u == port.stream;
      v, state', count' := ReadType(port, buf, paramsLen, grant);
    } else if state == 2 {
      assert buf[..][..1] == [0x04];
      v, count', paramsLen' := ReadHeader(port, buf, paramsLen, grant);
      if v == Again {
        state' := 3;
      }
    } else {
      assert buf[..][..count] == buf[..count];
      v, count', paramsLen' := ReadParams(port, buf, count, paramsLen, grant);
      if v == Whole {
        assert buf[..][..count'] == buf[..count'];
        ScanEvent(buf[..count'], port.stream);
        assert u == buf[..count'] + port.stream;
      }
    }
  }

  /** The response copied for an event of `count` octets. */
  function Response(e: seq<byte>, respLen: Option<nat>): seq<byte> {
    match respLen
    case None => []
    case Some(n) => if n > |e| then e else e[..n]
  }

  /** What `start_xfer_wait` makes of the buffer once it stops reading: done, or receive again. */
  method Judge(buf: array<byte>, count: nat, opcode: nat, respLen: Option<nat>)
    returns (o: Option<int>, resp: seq<byte>)
    requires buf.Length == EVENT_BUFFER && count <= EVENT_BUFFER
    ensures o.None? <==> buf[1] != 0x0e
    ensures o.Some? ==> o.value == if Completes(buf[..], opcode) then 0 else -1
    ensures o == Some(0) ==> resp == Response(buf[..count], respLen)
  {
    o, resp := None, [];
    if buf[1] == 0x0e {
      var low: nat, high: nat := buf[4], buf[5];
      if low + 0x100 * high != opcode || buf[6] != 0 {
        return Some(-1), [];
      }
      if respLen.Some? {
        var len := if respLen.value > count then count else respLen.value;
        resp := buf[..len];
      }
      o := Some(0);
    }
  }

  lemma PaddedCompletes(b: seq<byte>, count: nat, opcode: nat)
    requires count <= |b| && forall k :: count <= k < |b| ==> b[k] == 0
    ensures Completes(b, opcode) == Completes(b[..count], opcode)
  {}

  /** `start_recv`: forget what was read of an event. */
  method Restart(buf: array<byte>) returns (state: int, count: nat)
    requires buf.Length == EVENT_BUFFER
    modifies buf
    ensures state == 1 && count == 0 && forall n: nat :: Partial(buf[..], state, count, n)
    ensures forall s :: Suffix(buf[..], state, count, s) == s
  {
    ClearBuffer(buf);
    state, count := 1, 0;
    assert forall s: seq<byte> :: [] + s == s;
  }

  lemma QuietStep(polls: seq<PollEvent>, s: seq<byte>, state: int, left: nat)
    requires Quiet(polls, s, state, left) && |polls| > 0
    ensures polls[0].Readable?
    ensures CanRead(s, state, left) ==>
              && polls[0].grant >= Least(state)
              && var r := AfterRead(s, state, left, polls[0].grant);
                 Quiet(polls[1..], r.stream, r.state, r.left)
  {}

  /** How a transfer ends on a stream whose first command complete event is known. */
  ghost predicate EndsWith(o: Outcome, resp: seq<byte>, left: seq<byte>, scan: Scanned, opcode: nat,
                           respLen: Option<nat>)
  {
    && scan.Found? && left == scan.rest
    && o == Returned(if Completes(scan.event, opcode) then 0 else -1)
    && (o.code == 0 ==> resp == Response(scan.event, respLen))
  }

  /** One ready descriptor: a read and, after a whole event, the verdict on it. */
  method Serve(port: H4Port, buf: array<byte>, state: int, count: nat, paramsLen: nat, grant: int,
               opcode: nat, respLen: Option<nat>)
    returns (o: Option<Outcome>, resp: seq<byte>, state': int, count': nat, paramsLen': nat)
    requires Partial(buf[..], state, count, paramsLen)
    requires |port.stream| > 0 || (state == 3 && paramsLen == 0)
    modifies port`stream, buf
    ensures o.Some? ==> o.value.Returned? && (o.value.code == 0 || o.value.code == -1)
    ensures o.None? ==> Partial(buf[..], state', count', paramsLen') && count' <= EVENT_BUFFER
    ensures
      var scan := old(Scan(Suffix(buf[..], state, count, port.stream)));
      grant >= Least(state) && scan !in {HeaderCut, TooLong} ==>
        var r := AfterRead(old(port.stream), state, paramsLen, grant);
        if o.Some? then
          && r == Reader(port.stream, 1, 0)
          && EndsWith(o.value, resp, port.stream, scan, opcode, respLen)
          && 2 * |port.stream| < 2 * |old(port.stream)| + (if state == 3 then 1 else 0)
        else
          && r == Reader(port.stream, state', paramsLen')
          && Scan(Suffix(buf[..], state', count', port.stream)) == scan
          && 2 * |port.stream| + (if state' == 3 then 1 else 0) < 2 * |old(port.stream)| + (if state == 3 then 1 else 0)
  {
    hide Scan, AfterRead;
    var v: Verdict;
    resp := [];
    v, state', count', paramsLen' := ReadTurn(port, buf, state, count, paramsLen, grant);
    if v == Failed {
      return Some(Returned(-1)), [], state', count', paramsLen';
    }
    o := None;
    if v != Again {
      if v == Whole {
        PaddedCompletes(buf[..], count', opcode);
        assert buf[..][..count'] == buf[..count'];
      }
      var done: Option<int>;
      done, resp := Judge(buf, count', opcode, respLen);
      if done.Some? {
        o := Some(Returned(done.value));
        return;
      }
      state', count' := Restart(buf);
    }
  }

  function Repeat(cmd: seq<byte>, n: int): seq<seq<byte>> {
    if n <= 0 then [] else Repeat(cmd, n - 1) + [cmd]
  }

  lemma RepeatSteps(cmd: seq<byte>, n: int)
    requires n >= 0
    ensures Repeat(cmd, 0) == [] && Repeat(cmd, n + 1) == Repeat(cmd, n) + [cmd]
  {}

  /** What is left to read, twice the octets and one for a payload that has begun: less after every poll. */
  function Remaining(s: seq<byte>, state: int): nat {
    2 * |s| + if state == 3 then 1 else 0
  }

  /** One poll of the loop: an error, a timeout with the command sent again, or a read. */
  method PollTurn(port: H4Port, buf: array<byte>, cmd: seq<byte>, retry: int, state: int, count: nat, paramsLen: nat,
                  respLen: Option<nat>)
    returns (o: Option<Outcome>, resp: seq<byte>, retry': int, state': int, count': nat, paramsLen': nat)
    requires Partial(buf[..], state, count, paramsLen) && buf.Length == EVENT_BUFFER && count <= EVENT_BUFFER
    requires |port.polls| > 0 && |cmd| >= 4
    modifies port, buf
    ensures o.None? ==>
              && Partial(buf[..], state', count', paramsLen') && count' <= EVENT_BUFFER
              && |port.polls| < |old(port.polls)|
    ensures
      match old(port.polls[0])
      case PollFailed => o == Some(Returned(-1)) && retry' == retry && port.polls == old(port.polls)
      case HungUp => o == Some(Returned(-1)) && retry' == retry && port.polls == old(port.polls)
      case TimedOut =>
        && port.polls == old(port.polls)[1..]
        && if retry <= 0 then o == Some(Exited) && retry' == retry else o == None && retry' == retry - 1
      case Readable(_) =>
        && o != Some(Exited) && retry' == retry
        && port.polls == if o == Some(Blocked) then old(port.polls) else old(port.polls)[1..]
    ensures o.Some? && o.value.Returned? ==> o.value.code == 0 || o.value.code == -1
    ensures retry' == retry || (retry > 0 && retry' == retry - 1)
    ensures port.written == old(port.written) + if retry' == retry then [] else [cmd]
    ensures
      var scan := old(Scan(Suffix(buf[..], state, count, port.stream)));
      old(Quiet(port.polls, port.stream, state, paramsLen)) && scan !in {HeaderCut, TooLong} ==>
        match o
        case None =>
          && Quiet(port.polls, port.stream, state', paramsLen')
          && Scan(Suffix(buf[..], state', count', port.stream)) == scan
          && |port.polls| == |old(port.polls)| - 1
          && Remaining(port.stream, state') < Remaining(old(port.stream), state)
        case Some(Returned(_)) =>
          && Quiet(port.polls, port.stream, 1, 0) && EndsWith(o.value, resp, port.stream, scan, Opcode(cmd), respLen)
          && |port.polls| == |old(port.polls)| - 1
          && Remaining(port.stream, 1) < Remaining(old(port.stream), state)
        case Some(Blocked) => !scan.Found?
        case Some(Exited) => false
  {
    hide EndsWith, Quiet, AfterRead, Partial, Suffix, Scan, Opcode;
    ghost var held, s := buf[..], port.stream;
    o, resp, retry', state', count', paramsLen' := None, [], retry, state, count, paramsLen;
    if Quiet(port.polls, s, state, paramsLen) {
      QuietStep(port.polls, s, state, paramsLen);
    }
    var event := port.polls[0];
    if event.PollFailed? || event.HungUp? {
      o := Some(Returned(-1));
    } else if event.TimedOut? {
      port.polls := port.polls[1..];
      if retry <= 0 {
        o := Some(Exited);
      } else {
        retry' := retry - 1;
        port.written := port.written + [cmd];
        state', count' := Restart(buf);
      }
    } else if |port.stream| == 0 && !(state == 3 && paramsLen == 0) {
      NothingFound(held, state, count, paramsLen);
      o := Some(Blocked);
    } else {
      port.polls := port.polls[1..];
      o, resp, state', count', paramsLen' :=
        Serve(port, buf, state, count, paramsLen, event.grant, Opcode(cmd), respLen);
    }
  }

  /** How many of the polls are timeouts. */
  function Timeouts(polls: seq<PollEvent>): nat {
    if |polls| == 0 then 0
    else Timeouts(polls[..|polls| - 1]) + if polls[|polls| - 1].TimedOut? then 1 else 0
  }

  /** One more poll out of those that were to come. */
  lemma OnePollMore(polls: seq<PollEvent>, n: nat)
    requires n < |polls|
    ensures polls[n..][0] == polls[n] && polls[n..][1..] == polls[n + 1..]
    ensures Timeouts(polls[..n + 1]) == Timeouts(polls[..n]) + if polls[n].TimedOut? then 1 else 0
  {
    assert polls[..n + 1][..n] == polls[..n];
  }

  /** With these polls used up, the command was written once and once more for each timeout, as long as there
      were retries; the process has exited where a timeout found none left. */
  ghost predicate Resent(cmd: seq<byte>, retries: int, used: seq<PollEvent>, before: seq<seq<byte>>,
                         after: seq<seq<byte>>, exited: bool)
  {
    var timeouts, allowed := Timeouts(used), if retries > 0 then retries else 0;
    && after == before + Repeat(cmd, if exited then timeouts else 1 + timeouts)
    && if exited then timeouts == allowed + 1 else timeouts <= allowed
  }

  lemma ResentOnce(cmd: seq<byte>, retries: int, before: seq<seq<byte>>)
    ensures Resent(cmd, retries, [], before, before + [cmd], false)
  {
    RepeatSteps(cmd, 0);
    assert [] + [cmd] == [cmd];
  }

  /** One more poll. */
  lemma ResentStep(cmd: seq<byte>, retries: int, polls: seq<PollEvent>, n: nat, retry: int,
                   before: seq<seq<byte>>, t: seq<seq<byte>>, u: seq<seq<byte>>)
    requires n < |polls| && Resent(cmd, retries, polls[..n], before, t, false)
    requires retry == retries - Timeouts(polls[..n])
    requires u == t + if polls[n].TimedOut? && retry > 0 then [cmd] else []
    ensures Resent(cmd, retries, polls[..n + 1], before, u, polls[n].TimedOut? && retry <= 0)
    ensures Timeouts(polls[..n + 1]) == Timeouts(polls[..n]) + if polls[n].TimedOut? then 1 else 0
  {
    hide Repeat;
    OnePollMore(polls, n);
    RepeatSteps(cmd, 1 + Timeouts(polls[..n]));
    assert t + [] == t;
  }

  /** A turn after `n` polls, which leaves `left` of them: its poll is used up, unless the poll failed or the
      read behind it blocks. */
  lemma ResentTurn(cmd: seq<byte>, retries: int, polls: seq<PollEvent>, n: nat, retry: int, before: seq<seq<byte>>,
                   t: seq<seq<byte>>, u: seq<seq<byte>>, left: seq<PollEvent>, exited: bool)
    requires n < |polls| && Resent(cmd, retries, polls[..n], before, t, false)
    requires retry == retries - Timeouts(polls[..n])
    requires u == t + if polls[n].TimedOut? && retry > 0 then [cmd] else []
    requires exited == (polls[n].TimedOut? && retry <= 0)
    requires left == polls[n + 1..] || (left == polls[n..] && !polls[n].TimedOut?)
    ensures Resent(cmd, retries, polls[..|polls| - |left|], before, u, exited)
    ensures Timeouts(polls[..n + 1]) == Timeouts(polls[..n]) + if polls[n].TimedOut? then 1 else 0
  {
    hide Resent, Timeouts;
    ResentStep(cmd, retries, polls, n, retry, before, t, u);
    if |left| != |polls| - n - 1 {
      assert t + [] == t;
    }
  }

  /** `start_xfer_wait`. Whatever the port reports, nothing is written outside the event buffer and the
      command is sent once, and once more for each timeout as long as there are retries. On a quiet port, with
      no event too long and no header cut short by the end of the stream, the transfer succeeds exactly if the
      first command complete event of the stream completes the command, however the payload reads are split and
      whatever other events come first. */
  method StartXferWait(port: H4Port, cmd: seq<byte>, retries: int, respLen: Option<nat>)
    returns (o: Outcome, resp: seq<byte>)
    modifies port
    ensures |cmd| < 4 ==> o == Returned(-1)
    ensures o.Returned? ==> o.code == 0 || o.code == -1
    ensures |port.polls| <= |old(port.polls)| && port.polls == old(port.polls)[|old(port.polls)| - |port.polls|..]
    ensures |cmd| < 4 ==> port.written == old(port.written)
    ensures |cmd| >= 4 ==>
              Resent(cmd, retries, old(port.polls)[..|old(port.polls)| - |port.polls|], old(port.written),
                     port.written, o.Exited?)
    ensures
      var scan := old(Scan(port.stream));
      |cmd| >= 4 && old(Quiet(port.polls, port.stream, 1, 0)) && scan !in {HeaderCut, TooLong} ==>
        && !o.Exited?
        && (o.Returned? ==>
              && EndsWith(o, resp, port.stream, scan, Opcode(cmd), respLen) && Quiet(port.polls, port.stream, 1, 0))
        && (o.Returned? ==>
              (o.code == 0 <==> At(scan.event, 4) == cmd[1] && At(scan.event, 5) == cmd[2] && At(scan.event, 6) == 0))
        && (o.Returned? && |old(port.polls)| >= 2 * |old(port.stream)| ==> |port.polls| >= 2 * |port.stream|)
        && (scan.Found? && |old(port.polls)| >= 2 * |old(port.stream)| ==> o.Returned?)
  {
    hide EndsWith, Quiet, Partial, Suffix, Scan, Resent, Opcode;
    o, resp := Returned(-1), [];
    if |cmd| < 4 {
      return;
    }
    ghost var scan := Scan(port.stream);
    ghost var quiet := Quiet(port.polls, port.stream, 1, 0) && scan !in {HeaderCut, TooLong};
    ghost var enough := |port.polls| >= 2 * |port.stream|;
    ghost var polls, n: nat := port.polls, 0;
    assert polls[..0] == [];
    ResentOnce(cmd, retries, port.written);
    var retry := retries;
    var buf := new byte[EVENT_BUFFER];
    port.written := port.written + [cmd];
    var state: int, count: nat := Restart(buf);
    var paramsLen: nat := 0;
    ghost var held := buf[..];
    while |port.polls| > 0
      invariant n <= |polls| && port.polls == polls[n..] && retry == retries - Timeouts(polls[..n])
      invariant buf[..] == held && Partial(held, state, count, paramsLen) && count <= EVENT_BUFFER
      invariant Resent(cmd, retries, polls[..n], old(port.written), port.written, false)
      invariant quiet ==> Quiet(port.polls, port.stream, state, paramsLen)
      invariant quiet ==> Scan(Suffix(held, state, count, port.stream)) == scan
      invariant quiet && enough ==> |port.polls| >= Remaining(port.stream, state)
      decreases |port.polls|
    {
      ghost var t, before := port.written, retry;
      OnePollMore(polls, n);
      var r: Option<Outcome>;
      r, resp, retry, state, count, paramsLen := PollTurn(port, buf, cmd, retry, state, count, paramsLen, respLen);
      held := buf[..];
      ghost var exited := r == Some(Exited);
      ResentTurn(cmd, retries, polls, n, before, old(port.written), t, port.written, port.polls, exited);
      if r.Some? {
        if quiet && r.value.Returned? {
          EndIsDecided(r.value, resp, port.stream, scan, cmd, respLen);
        }
        return r.value, resp;
      }
      n := n + 1;
    }
    if |port.stream| == 0 && state != 3 {
      NothingFound(held, state, count, paramsLen);
    }
    return Blocked, [];
  }

  lemma EndIsDecided(o: Outcome, resp: seq<byte>, left: seq<byte>, scan: Scanned, cmd: seq<byte>, respLen: Option<nat>)
    requires |cmd| >= 4 && EndsWith(o, resp, left, scan, Opcode(cmd), respLen)
    ensures scan.Found?
    ensures o.code == 0 <==> At(scan.event, 4) == cmd[1] && At(scan.event, 5) == cmd[2] && At(scan.event, 6) == 0
  {}

  /** With nothing left to read, an unfinished event does not complete anything. */
  lemma NothingFound(buf: seq<byte>, state: int, count: nat, paramsLen: nat)
    requires Partial(buf, state, count, paramsLen) && !(state == 3 && paramsLen == 0)
    ensures !Scan(Suffix(buf, state, count, [])).Found?
  {
    var s := Suffix(buf, state, count, []);
    if state == 3 {
      assert |s| == count && s[0] == buf[0] && s[2] == buf[2];
    }
  }

  // ---- download ----

  /** The H4 command packet for one piece of the image. */
  function H4Command(index: byte, data: seq<byte>): seq<byte>
    requires |data| <= PATCH_DATA_FIELD_MAX_SIZE
  {
    [0x01] + PatchCommand(index, data)
  }

  /** The event completes a download command and carries `index`. */
  predicate Acknowledges(e: seq<byte>, index: nat) {
    Completes(e, 0xfc20) && |e| >= 8 && e[7] as int == index
  }

  /** `h4_download_patch`: the command fits the 257-octet buffer and is sent once; the index octet of the
      answer is returned if the answer completes the command, and -1 otherwise. */
  method DownloadPatch(port: H4Port, index: byte, data: seq<byte>) returns (o: Outcome)
    requires |data| <= PATCH_DATA_FIELD_MAX_SIZE
    modifies port
    ensures port.written == old(port.written) + [H4Command(index, data)]
    ensures o.Returned? ==> -1 <= o.code < 256
    ensures
      var scan := old(Scan(port.stream));
      old(Quiet(port.polls, port.stream, 1, 0)) && scan !in {HeaderCut, TooLong} ==>
              && !o.Exited?
              && (o.Returned? ==>
                    && scan.Found? && (forall k: nat :: o.code == k <==> Acknowledges(scan.event, k))
                    && port.stream == scan.rest && Quiet(port.polls, port.stream, 1, 0))
              && (scan.Found? && |old(port.polls)| >= 2 * |old(port.stream)| ==>
                    o.Returned? && |port.polls| >= 2 * |port.stream|)
  {
    hide Quiet, Scan;
    var buf: seq<byte> := [0x01, 0x20, 0xfc, |data| + 1, index] + data;
    assert |buf| <= 257 && buf == H4Command(index, data) && Opcode(buf) == 0xfc20;
    var r, resp := StartXferWait(port, buf, 0, Some(8));
    assert Repeat(buf, 1) == [buf];
    if !r.Returned? {
      return r;
    }
    if r.code < 0 || |resp| != 8 {
      return Returned(-1);
    }
    return Returned(resp[7]);
  }

  /** The commands of the first `n` packets. */
  function H4Commands(image: seq<byte>, total: nat, n: nat): seq<seq<byte>>
    requires Fits(|image|) && n <= total + 1
  {
    if n == 0 then []
    else
      DataFits(image, n - 1);
      H4Commands(image, total, n - 1) + [H4Command(IndexOctet(n - 1, total), Data(image, n - 1))]
  }

  lemma {:induction false} H4CommandsCarrySent(image: seq<byte>, total: nat, n: nat)
    requires Fits(|image|) && n <= total + 1
    ensures Payloads(H4Commands(image, total, n), 5) == Sent(image, n)
  {
    hide IndexOctet, Data;
    if n == 0 {
    } else {
      H4CommandsCarrySent(image, total, n - 1);
      DataFits(image, n - 1);
      var cs, c := H4Commands(image, total, n - 1), H4Command(IndexOctet(n - 1, total), Data(image, n - 1));
      assert (cs + [c])[..|cs|] == cs && c[5..] == Data(image, n - 1);
    }
  }

  /** The commands of a whole plan carry exactly the image, behind packet type, opcode, length and index. */
  lemma H4CommandsCarryImage(image: seq<byte>, total: nat)
    requires Fits(|image|) && EndIdx(|image|) <= total
    ensures Payloads(H4Commands(image, total, total + 1), 5) == image
  {
    H4CommandsCarrySent(image, total, total + 1);
    ImageIsConserved(image, total + 1);
  }

  lemma {:induction false} CommandsUnwrap(image: seq<byte>, total: nat, n: nat)
    requires Fits(|image|) && n <= total + 1
    ensures Unwrap(H4Commands(image, total, n)) == Some(PatchCommands(image, total, n))
  {
    hide IndexOctet, Data, PatchCommand;
    if n == 0 {
    } else {
      CommandsUnwrap(image, total, n - 1);
      DataFits(image, n - 1);
      var c := PatchCommand(IndexOctet(n - 1, total), Data(image, n - 1));
      assert H4Commands(image, total, n)[..n - 1] == H4Commands(image, total, n - 1) by {
        H4CommandsLength(image, total, n - 1);
      }
      assert ([0x01] + c)[1..] == c;
    }
  }

  lemma {:induction false} H4CommandsLength(image: seq<byte>, total: nat, n: nat)
    requires Fits(|image|) && n <= total + 1
    ensures |H4Commands(image, total, n)| == n
  {
    if n == 0 {
    } else {
      H4CommandsLength(image, total, n - 1);
    }
  }

  /** On H4 too a controller reads the image off the commands, behind the packet type. */
  lemma H4DownloadIsRead(image: seq<byte>, total: nat)
    requires Fits(|image|) && EndIdx(|image|) <= total
    ensures
      var cs := Unwrap(H4Commands(image, total, total + 1));
      && cs.Some? && ReadDownload(cs.value) == Some(image) && |cs.value| == total + 1
      && forall i :: 0 <= i <= total ==> Asks(cs.value[i], WaitIndex(i, total))
  {
    hide PatchCommands, H4Commands, ReadDownload, IndexRead;
    CommandsUnwrap(image, total, total + 1);
    DownloadIsRead(image, total);
  }

  const RESET: seq<byte> := [0x01, 0x03, 0x0c, 0x00]

  // ---- what the answers decide ----

  predicate AcknowledgedAt(s: seq<byte>, i: nat) {
    HasAnswers(s, i + 1) && Acknowledges(Answer(s, i), RollIndex(i))
  }

  /** Every packet before the last is acknowledged with its own index, and the reset succeeds. */
  predicate Accepted(s: seq<byte>, total: nat)
    requires HasAnswers(s, total + 2)
  {
    (forall i :: 0 <= i < total ==> AcknowledgedAt(s, i)) && Completes(Answer(s, total + 1), 0x0c03)
  }

  lemma {:induction false} AnswerStep(s: seq<byte>, i: nat, n: nat)
    requires HasAnswers(s, n) && i < n
    ensures HasAnswers(s, i) && HasAnswers(s, i + 1)
    ensures Scan(After(s, i)) == Found(Answer(s, i), After(s, i + 1))
    decreases i
  {
    hide Scan;
    if i == 0 {
      assert HasAnswers(s, 1) && After(s, 1) == After(Scan(s).rest, 0);
    } else {
      AnswerStep(Scan(s).rest, i - 1, n - 1);
    }
  }

  lemma {:induction false} AnswersAreLegible(s: seq<byte>, n: nat)
    requires HasAnswers(s, n)
    ensures Legible(s, n)
    decreases n
  {
    if n == 0 {
    } else {
      AnswersAreLegible(Scan(s).rest, n - 1);
    }
  }

  /** One more answer. */
  lemma {:induction false} AnswerNext(s: seq<byte>, i: nat, n: nat)
    requires HasAnswers(s, i) && Legible(After(s, i), n) && n > 0
    ensures Scan(After(s, i)) !in {HeaderCut, TooLong}
    ensures Scan(After(s, i)).Found? ==>
              && HasAnswers(s, i + 1) && Scan(After(s, i)) == Found(Answer(s, i), After(s, i + 1))
              && Legible(After(s, i + 1), n - 1)
    decreases i
  {
    hide Scan;
    if i == 0 {
      assert After(s, 0) == s && (Scan(s).Found? ==> HasAnswers(s, 1) && After(s, 1) == After(Scan(s).rest, 0));
    } else {
      AnswerNext(Scan(s).rest, i - 1, n);
    }
  }

  /** The first `n` commands of a download have been answered, the packets among them before the last as they
      should be, and `left` is still to be read. */
  predicate Progress(s: seq<byte>, total: nat, n: nat, left: seq<byte>) {
    && n <= total + 1 && HasAnswers(s, n) && left == After(s, n) && Legible(left, total + 2 - n)
    && forall k :: 0 <= k < n && k < total ==> AcknowledgedAt(s, k)
  }

  lemma ProgressStarts(s: seq<byte>, total: nat)
    requires Legible(s, total + 2)
    ensures Progress(s, total, 0, s)
  {}

  /** The next answer decides between going on and failure. */
  lemma ProgressStep(s: seq<byte>, total: nat, n: nat, left: seq<byte>)
    requires Progress(s, total, n, left)
    ensures Scan(left) !in {HeaderCut, TooLong} && (HasAnswers(s, total + 2) ==> Scan(left).Found?)
    ensures Scan(left).Found? && n <= total ==>
              if n == total || Acknowledges(Scan(left).event, RollIndex(n)) then
                Progress(s, total, n + 1, Scan(left).rest)
              else HasAnswers(s, total + 2) ==> !Accepted(s, total)
    ensures Scan(left).Found? && n == total + 1 ==>
              HasAnswers(s, total + 2) && (Accepted(s, total) <==> Completes(Scan(left).event, 0x0c03))
  {
    hide Scan, HasAnswers, After, Answer, Legible, Acknowledges, RollIndex, Completes;
    AnswerNext(s, n, total + 2 - n);
    if HasAnswers(s, total + 2) {
      AnswerStep(s, n, total + 2);
      if n < total && !Acknowledges(Scan(left).event, RollIndex(n)) {
        assert !AcknowledgedAt(s, n);
      }
    }
  }

  /** The comparison of the truncated result with the index of the packet. */
  lemma AnswerDecides(e: seq<byte>, i: nat, code: int)
    requires -1 <= code < 256 && forall k: nat :: code == k <==> Acknowledges(e, k)
    ensures Acknowledges(e, RollIndex(i)) <==> code % 0x100 == if i > 0x7f then i % 0x80 + 1 else i
  {
    hide Acknowledges;
    assert RollIndex(i) <= 0x80;
  }

  /** One turn of the loop of `rtb_download_fwc` on H4; None where the loop goes on, and `next` is the data
      pointer then. */
  method SendPacket(port: H4Port, buf: seq<byte>, i: nat, pktBuf: Option<nat>, endIdx: nat, lpLen: nat, totalIdx: nat)
    returns (o: Option<Outcome>, next: Option<nat>)
    requires Fits(|buf|) && endIdx == EndIdx(|buf|) && lpLen == LpLen(|buf|) && i <= totalIdx && endIdx <= totalIdx
    requires i <= endIdx ==> pktBuf == Some(DataStart(i))
    modifies port
    ensures |Data(buf, i)| <= PATCH_DATA_FIELD_MAX_SIZE
    ensures port.written == old(port.written) + [H4Command(IndexOctet(i, totalIdx), Data(buf, i))]
    ensures o.Some? && o.value.Returned? ==> o.value.code == -1 && i != totalIdx
    ensures o.None? && i + 1 <= endIdx ==> next == Some(DataStart(i + 1))
    ensures
      var scan := old(Scan(port.stream));
      old(Quiet(port.polls, port.stream, 1, 0)) && scan !in {HeaderCut, TooLong} ==>
        && o != Some(Exited)
        && (o != Some(Blocked) ==>
              && scan.Found? && port.stream == scan.rest && Quiet(port.polls, port.stream, 1, 0)
              && (i != totalIdx ==> (o.None? <==> Acknowledges(scan.event, RollIndex(i)))))
        && (scan.Found? && |old(port.polls)| >= 2 * |old(port.stream)| ==>
              o != Some(Blocked) && |port.polls| >= 2 * |port.stream|)
  {
    hide H4Command, Data, IndexOctet, LpLen, DataLen, Quiet, Scan, RollIndex, Acknowledges;
    var currIdx, currLen, hasData := ChoosePacket(i, |buf|, endIdx, lpLen, totalIdx);
    next := if hasData then pktBuf else None;
    var j: int := if i > 0x7f then i % 0x80 + 1 else i;
    var data := CutPacket(buf, i, next, currLen);
    PacketAdvances(i, endIdx, totalIdx);
    IndexIsRolled(i, totalIdx);
    ghost var scan := Scan(port.stream);
    var r := DownloadPatch(port, currIdx, data);
    if !r.Returned? {
      return Some(r), next;
    }
    var answer := r.code % 0x100;
    if scan.Found? && forall k: nat :: r.code == k <==> Acknowledges(scan.event, k) {
      AnswerDecides(scan.event, i, r.code);
    }
    if answer != j && i != totalIdx {
      return Some(Returned(-1)), next;
    }
    if answer < endIdx && next.Some? {
      next := Some(next.value + PATCH_DATA_FIELD_MAX_SIZE);
    }
    o := None;
  }

  /** `rtb_download_fwc` on H4. If it returns, either exactly the commands of the plan were sent, once each
      and in order, and then the reset, or it failed on the way. On a quiet port it returns 0
      exactly if every command is answered, every packet before the last is acknowledged with its own index
      and the reset succeeds; the answer to the last packet decides nothing. */
  method DownloadFwc(port: H4Port, buf: seq<byte>) returns (o: Outcome)
    requires Fits(|buf|)
    modifies port
    ensures o.Returned? ==>
              var total := EndIdx(|buf|);
              || (o.code == -1 &&
                  exists n :: 0 < n <= total && port.written == old(port.written) + H4Commands(buf, total, n))
              || port.written == old(port.written) + H4Commands(buf, total, total + 1) + [RESET]
    ensures o.Returned? ==> o.code == 0 || o.code == -1
    ensures
      var s, total := old(port.stream), EndIdx(|buf|);
      old(Quiet(port.polls, port.stream, 1, 0)) && Legible(s, total + 2) ==>
        && !o.Exited?
        && (o.Returned? ==> (o.code == 0 <==> HasAnswers(s, total + 2) && Accepted(s, total)))
        && (HasAnswers(s, total + 2) && |old(port.polls)| >= 2 * |s| ==> o.Returned?)
  {
    hide H4Command, Data, IndexOctet, LpLen, DataLen, Quiet, Scan, RollIndex, Acknowledges, Progress, HasAnswers,
      Legible, Accepted, Completes;
    var endIdx, lpLen, totalIdx := PlanDownload(|buf|, false, 0);
    NoPadding(|buf|);
    ghost var s := port.stream;
    ghost var quiet := Quiet(port.polls, s, 1, 0) && Legible(s, totalIdx + 2);
    ghost var enough := HasAnswers(s, totalIdx + 2) && |port.polls| >= 2 * |s|;
    if quiet {
      ProgressStarts(s, totalIdx);
    }
    var pktBuf: Option<nat> := Some(0);
    var i := 0;
    while i <= totalIdx
      invariant 0 <= i <= totalIdx + 1 && (i <= endIdx ==> pktBuf == Some(DataStart(i)))
      invariant port.written == old(port.written) + H4Commands(buf, totalIdx, i)
      invariant quiet ==> Quiet(port.polls, port.stream, 1, 0) && Progress(s, totalIdx, i, port.stream)
      invariant quiet && enough ==> |port.polls| >= 2 * |port.stream|
    {
      if quiet {
        ProgressStep(s, totalIdx, i, port.stream);
      }
      var r: Option<Outcome>;
      r, pktBuf := SendPacket(port, buf, i, pktBuf, endIdx, lpLen, totalIdx);
      CommandsSnoc(buf, totalIdx, i);
      if r.Some? {
        return r.value;
      }
      i := i + 1;
    }
    if quiet {
      ProgressStep(s, totalIdx, i, port.stream);
    }
    var resp;
    assert Opcode(RESET) == 0x0c03;
    o, resp := StartXferWait(port, RESET, 0, None);
    assert Repeat(RESET, 1) == [RESET];
  }

  lemma CommandsSnoc(image: seq<byte>, total: nat, n: nat)
    requires Fits(|image|) && n <= total
    ensures |Data(image, n)| <= PATCH_DATA_FIELD_MAX_SIZE
    ensures H4Commands(image, total, n + 1)
         == H4Commands(image, total, n) + [H4Command(IndexOctet(n, total), Data(image, n))]
  {
    hide Data, IndexOctet, H4Command;
    DataFits(image, n);
  }

  // ---- streams of answers ----

  /** A command complete event that fits the event buffer. */
  predicate IsCommandComplete(e: seq<byte>) {
    3 <= |e| <= EVENT_BUFFER && e[0] == 0x04 && e[1] == 0x0e && |e| == 3 + e[2] as int
  }

  predicate AllComplete(es: seq<seq<byte>>) {
    forall i :: 0 <= i < |es| ==> IsCommandComplete(es[i])
  }

  function Stream(es: seq<seq<byte>>): seq<byte> {
    if |es| == 0 then [] else es[0] + Stream(es[1..])
  }

  lemma {:induction false} StreamAnswers(es: seq<seq<byte>>, k: nat)
    requires AllComplete(es) && k < |es|
    ensures HasAnswers(Stream(es), k + 1) && Answer(Stream(es), k) == es[k]
    decreases k
  {
    hide Scan, IsCommandComplete;
    assert IsCommandComplete(es[0]);
    FirstOfStream(es);
    if k == 0 {
    } else {
      StreamAnswers(es[1..], k - 1);
    }
  }

  lemma FirstOfStream(es: seq<seq<byte>>)
    requires |es| > 0 && IsCommandComplete(es[0])
    ensures Scan(Stream(es)) == Found(es[0], Stream(es[1..]))
  {
    hide Scan;
    ScanEvent(es[0], Stream(es[1..]));
  }

  /** What a download makes of any answers: of all packets before the last, their own index; of the reset, its
      completion. */
  lemma AnswersDecide(es: seq<seq<byte>>, total: nat)
    requires AllComplete(es) && |es| == total + 2
    ensures HasAnswers(Stream(es), total + 2)
    ensures Accepted(Stream(es), total) <==>
              && (forall i :: 0 <= i < total ==> Acknowledges(es[i], RollIndex(i)))
              && Completes(es[total + 1], 0x0c03)
  {
    hide Stream, Answer, HasAnswers, Acknowledges, Completes, AllComplete, RollIndex;
    StreamAnswers(es, total + 1);
    forall i | 0 <= i < total
      ensures AcknowledgedAt(Stream(es), i) <==> Acknowledges(es[i], RollIndex(i))
    {
      StreamAnswers(es, i);
    }
  }

  /** The completion of another command, whatever else it carries, fails the download: as the answer to a
      packet before the last, and as the answer to the reset. */
  lemma OtherCompletionFails(es: seq<seq<byte>>, total: nat, i: nat, op: nat, status: byte, rest: seq<byte>)
    requires AllComplete(es) && |es| == total + 2 && i < |es| && i != total
    requires op < 0x1_0000 && |rest| <= 57 && es[i] == [0x04] + Completion(op, status, rest)
    requires op != if i < total then 0xfc20 else 0x0c03
    ensures HasAnswers(Stream(es), total + 2) && !Accepted(Stream(es), total)
  {
    hide Stream, HasAnswers, Completes, AllComplete, Accepted, Completion;
    AnswersDecide(es, total);
    CompletesItsCommand(op, status, rest, if i < total then 0xfc20 else 0x0c03);
  }

  // ---- the answer that is not looked at ----

  /** The answer to packet `i` that acknowledges it, and the one that completes the reset. */
  function Ack(i: nat): seq<byte> {
    [0x04, 0x0e, 0x05, 0x01, 0x20, 0xfc, 0x00, RollIndex(i)]
  }

  const RESET_DONE: seq<byte> := [0x04, 0x0e, 0x04, 0x01, 0x03, 0x0c, 0x00]

  /** Acknowledgements of the packets from `i` to `total` - 1, then `last`, then the reset. */
  function Answering(i: nat, total: nat, last: seq<byte>): seq<byte>
    requires i <= total
    decreases total - i
  {
    if i == total then last + RESET_DONE else Ack(i) + Answering(i + 1, total, last)
  }

  /** Answer number `k` of a stream that starts with the answer to packet `i`. */
  function Expected(i: nat, total: nat, last: seq<byte>, k: nat): seq<byte> {
    if i + k < total then Ack(i + k) else if i + k == total then last else RESET_DONE
  }

  lemma {:induction false} AnswersInOrder(i: nat, total: nat, last: seq<byte>, k: nat)
    requires IsCommandComplete(last) && i <= total && k <= total - i + 1
    ensures
      var s := Answering(i, total, last);
      HasAnswers(s, k + 1) && Answer(s, k) == Expected(i, total, last, k)
    decreases k
  {
    hide Scan;
    if i == total {
      ScanEvent(last, RESET_DONE);
      ScanEvent(RESET_DONE, []);
      assert RESET_DONE + [] == RESET_DONE;
    } else {
      ScanEvent(Ack(i), Answering(i + 1, total, last));
      if k > 0 {
        AnswersInOrder(i + 1, total, last, k - 1);
      }
    }
  }

  lemma AckAcknowledges(i: nat)
    ensures Acknowledges(Ack(i), RollIndex(i)) && Completes(RESET_DONE, 0x0c03)
  {}

  /** A download is accepted whatever command complete event answers its last packet. */
  lemma LastAnswerIsIgnored(total: nat, last: seq<byte>)
    requires IsCommandComplete(last)
    ensures
      var s := Answering(0, total, last);
      && HasAnswers(s, total + 1) && Answer(s, total) == last
      && HasAnswers(s, total + 2) && Accepted(s, total)
  {
    hide Acknowledges, Completes, Answering;
    AnswersInOrder(0, total, last, total);
    AnswersInOrder(0, total, last, total + 1);
    AckAcknowledges(total);
    forall k | 0 <= k < total
      ensures AcknowledgedAt(Answering(0, total, last), k)
    {
      AnswersInOrder(0, total, last, k);
      AckAcknowledges(k);
    }
  }

  /** The controller refuses the last packet with status 1. */
  const REFUSAL: seq<byte> := [0x04, 0x0e, 0x05, 0x01, 0x20, 0xfc, 0x01, 0x00]

  /** A download of any length returns 0 although its last packet is refused. */
  lemma RefusedDownloadIsAccepted(total: nat)
    ensures
      var s := Answering(0, total, REFUSAL);
      && HasAnswers(s, total + 1) && (forall n :: !Acknowledges(Answer(s, total), n))
      && HasAnswers(s, total + 2) && Accepted(s, total)
  {
    LastAnswerIsIgnored(total, REFUSAL);
  }

  lemma NoPadding(size: nat)
    requires Fits(size)
    ensures TotalIdx(false, 0, size) == EndIdx(size)
  {
    TotalDoesNotWrap(false, 0, size);
  }

  lemma IndexIsRolled(i: nat, total: nat)
    requires i <= total
    ensures i != total ==> IndexOctet(i, total) == if i > 0x7f then i % 0x80 + 1 else i
  {}
}
