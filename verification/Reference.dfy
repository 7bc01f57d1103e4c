/** What the receiver does, said without its state machine: cut the stream at the delimiters, undo the SLIP
    coding of each piece, and judge what it decodes to. */
module Reference {
  import opened Bytes
  import opened Crc
  import opened Slip
  import opened Frames
  import opened LinkLayer
  import opened Receiver

  /** The effect of a piece between two delimiters that decodes to `d`. */
  function Judge(l: Link, d: seq<byte>): (r: Link)
    requires l.Wf()
    ensures r.Wf()
  {
    if |d| < 4 || !ChecksumOk(d) then l
    else if HdrReliable(d) && HdrSeq(d) != l.rxSeqTxAck then OutOfOrder(l, HdrSeq(d))
    else if !WellFormed(d) then l
    else Complete(l, d[..Need(d)])
  }

  function JudgeAll(l: Link, pieces: seq<seq<byte>>): (r: Link)
    requires l.Wf()
    ensures r.Wf()
    decreases pieces
  {
    if pieces == [] || l.exited then l else JudgeAll(Judge(l, Unslip(false, pieces[0])), pieces[1..])
  }

  /** The pieces, each with the delimiter that ends it. */
  function Join(pieces: seq<seq<byte>>): seq<byte> {
    if pieces == [] then [] else pieces[0] + [DELIMITER] + Join(pieces[1..])
  }

  /** Between packets: a delimiter has just been consumed. */
  ghost predicate AtStart(h: H5) {
    h.lk.Wf() && !h.lk.exited && h.rx.state == W4PktStart && h.rx.count == 0 && h.rx.buf == []
  }

  ghost predicate AtStartUnlessExited(h: H5) {
    h.lk.exited || AtStart(h)
  }

  // ---- the receiver is a fold ----

  lemma {:induction false} RecvConcat(h: H5, a: seq<byte>, b: seq<byte>)
    requires Inv(h)
    ensures Recv(h, a + b) == Recv(Recv(h, a), b)
    decreases a
  {
    hide RecvByte, Inv;
    if a == [] {
      assert a + b == b;
    } else {
      assert (a + b)[1..] == a[1..] + b;
      RecvConcat(RecvByte(h, a[0]), a[1..], b);
    }
  }

  lemma {:induction false} RecvExited(h: H5, data: seq<byte>)
    requires Inv(h) && h.lk.exited
    ensures Recv(h, data) == h
    decreases data
  {
    if data == [] {
    } else {
      assert RecvByte(h, data[0]) == h;
      RecvExited(h, data[1..]);
    }
  }

  /** Splitting the stream over successive calls makes no difference. */
  function RecvCalls(h: H5, calls: seq<seq<byte>>): (r: H5)
    requires Inv(h)
    ensures Inv(r)
    decreases calls
  {
    if calls == [] then h else RecvCalls(Recv(h, calls[0]), calls[1..])
  }

  function Flatten(calls: seq<seq<byte>>): seq<byte> {
    if calls == [] then [] else calls[0] + Flatten(calls[1..])
  }

  lemma {:induction false} CallsDoNotMatter(h: H5, calls: seq<seq<byte>>)
    requires Inv(h)
    ensures RecvCalls(h, calls) == Recv(h, Flatten(calls))
    decreases calls
  {
    hide RecvByte, Inv;
    if calls == [] {
    } else {
      CallsDoNotMatter(Recv(h, calls[0]), calls[1..]);
      RecvConcat(h, calls[0], Flatten(calls[1..]));
    }
  }

  // ---- the receiver refines the reference ----

  /** Without a delimiter nothing leaves the delimiter hunt. */
  lemma {:induction false} Hunt(h: H5, c: seq<byte>)
    requires Inv(h) && !h.lk.exited && h.rx.state == W4PktDelimiter && DELIMITER !in c
    ensures Recv(h, c + [DELIMITER]).lk == h.lk && AtStart(Recv(h, c + [DELIMITER]))
    decreases c
  {
    var u := c + [DELIMITER];
    if c == [] {
      assert u[0] == DELIMITER && u[1..] == [];
      assert RecvByte(h, DELIMITER).lk == h.lk;
      assert Recv(RecvByte(h, DELIMITER), []) == RecvByte(h, DELIMITER);
    } else {
      assert u[0] == c[0] && u[1..] == c[1..] + [DELIMITER];
      assert RecvByte(h, c[0]) == h;
      Hunt(h, c[1..]);
    }
  }

  /** While octets are missing the piece so far has no effect. */
  lemma MissingIsJudged(h: H5)
    requires Inv(h) && !h.lk.exited && h.rx.count > 0
    ensures Judge(h.lk, h.rx.buf) == h.lk
  {
    hide Complete, OutOfOrder, CheckOctets, CrcOf;
  }

  /** A filled buffer is acted upon before the next octet, whatever that is. */
  lemma FilledStep(h: H5, b: byte)
    requires Inv(h) && !h.lk.exited && h.rx.state.Buffering() && h.rx.count == 0
    ensures var h1 := Turn(h, b).0;
      h1 == Turn(h, DELIMITER).0 && RecvByte(h, b) == (if h1.lk.exited then h1 else RecvByte(h1, b))
  {
    hide CheckHeader, FinishData, FinishCrc;
  }

  /** The same for the reference: what is judged depends on the filled buffer alone. */
  lemma FilledIsJudged(h: H5, t: seq<byte>)
    requires Inv(h) && !h.lk.exited && h.rx.state.Buffering() && h.rx.count == 0
    ensures
      var h1 := Turn(h, DELIMITER).0;
      && Inv(h1)
      && (if h1.lk.exited || !h1.rx.state.Buffering() then
            Judge(h.lk, h.rx.buf + t) == h1.lk && (!h1.lk.exited ==> h1.rx.state == W4PktDelimiter)
          else
            h1.lk == h.lk && h1.rx.buf == h.rx.buf && h1.rx.esc == h.rx.esc && StateRank(h1.rx) < StateRank(h.rx))
  {
    hide Complete, OutOfOrder, CheckOctets, CrcOf, BitRev16, GetCrc;
    var d := h.rx.buf;
    HeaderIsPrefix(d, d + t, h.lk);
    if h.rx.state != W4Hdr {
      assert (d + t)[..|d|] == d;
      if HdrCrc(d) && h.rx.state == W4Crc {
        CheckMatches(h.rx.crc, d[|d| - 2..]);
        assert d[..|d| - 2] == d[..4 + HdrLen(d)];
        assert (d + t)[..|d| - 2] == d[..|d| - 2] && (d + t)[|d| - 2..|d|] == d[|d| - 2..];
      }
    }
  }

  /** From inside a packet, the rest of the piece is judged together with what is stored already. */
  lemma {:induction false} PieceIsJudged(h: H5, c: seq<byte>)
    requires Inv(h) && !h.lk.exited && h.rx.state.Buffering() && DELIMITER !in c
    ensures var r := Recv(h, c + [DELIMITER]);
      r.lk == Judge(h.lk, h.rx.buf + Unslip(h.rx.esc, c)) && AtStartUnlessExited(r)
    decreases |c|, StateRank(h.rx)
  {
    hide Judge, Turn, Store, RxInv, Unescape;
    var u := c + [DELIMITER];
    if h.rx.count == 0 {
      FilledStep(h, u[0]);
      FilledIsJudged(h, Unslip(h.rx.esc, c));
      var h1 := Turn(h, DELIMITER).0;
      assert Recv(h, u) == Recv(h1, u) by {
        if h1.lk.exited { RecvExited(h1, u); RecvExited(h1, u[1..]); }
      }
      if h1.lk.exited {
        RecvExited(h1, u);
      } else if !h1.rx.state.Buffering() {
        Hunt(h1, c);
      } else {
        PieceIsJudged(h1, c);
      }
    } else if c == [] {
      MissingIsJudged(h);
      ShortStep(h);
      assert u == [DELIMITER] && u[1..] == [];
      assert h.rx.buf + [] == h.rx.buf;
    } else {
      assert u[0] == c[0] && u[1..] == c[1..] + [DELIMITER];
      OctetStep(h, c[0]);
      var h1 := RecvByte(h, c[0]);
      OctetIsJudged(h, c);
      if h1.rx.state.Buffering() {
        PieceIsJudged(h1, c[1..]);
      } else {
        MissingIsJudged(h);
        Hunt(h1, c[1..]);
      }
    }
  }

  lemma ShortStep(h: H5)
    requires Inv(h) && !h.lk.exited && h.rx.count > 0
    ensures RecvByte(h, DELIMITER) == h.(rx := Short(h.rx))
  {}

  lemma OctetStep(h: H5, b: byte)
    requires Inv(h) && !h.lk.exited && h.rx.count > 0 && b != DELIMITER
    ensures RecvByte(h, b) == h.(rx := UnslipOne(h.rx, b))
  {}

  lemma OctetIsJudged(h: H5, c: seq<byte>)
    requires h.rx.count > 0 && h.rx.state.Buffering() && c != []
    ensures
      var rx := UnslipOne(h.rx, c[0]);
      if rx.state.Buffering() then rx.buf + Unslip(rx.esc, c[1..]) == h.rx.buf + Unslip(h.rx.esc, c)
      else rx.state == W4PktDelimiter && h.rx.buf + Unslip(h.rx.esc, c) == h.rx.buf
  {
    hide Store;
    var rx, t := UnslipOne(h.rx, c[0]), Unslip(false, c[1..]);
    if h.rx.esc {
      if Unescape(c[0]).Some? {
        Stored(h.rx, Unescape(c[0]).value, t);
      }
    } else if c[0] != ESCAPE {
      Stored(h.rx, c[0], t);
    }
  }

  lemma Stored(rx: Rx, b: byte, t: seq<byte>)
    requires rx.count > 0
    ensures
      var r := Store(rx, b);
      r.state == rx.state && r.esc == rx.esc && r.buf + t == rx.buf + ([b] + t)
  {
    hide Update, HdrCrc;
  }

  /** One piece, from the start state: the receiver does what the reference says. */
  lemma PieceFromStart(h: H5, c: seq<byte>)
    requires AtStart(h) && DELIMITER !in c
    ensures var r := Recv(h, c + [DELIMITER]);
      r.lk == Judge(h.lk, Unslip(false, c)) && AtStartUnlessExited(r)
  {
    var u := c + [DELIMITER];
    if c == [] {
      assert u[0] == DELIMITER && u[1..] == [];
      assert RecvByte(h, DELIMITER) == h;
      assert Recv(h, []) == h;
    } else {
      var h1 := h.(rx := Begin(h.rx));
      assert RecvByte(h, c[0]) == RecvByte(h1, c[0]);
      assert Recv(h, u) == Recv(h1, u);
      PieceIsJudged(h1, c);
      assert [] + Unslip(false, c) == Unslip(false, c);
    }
  }

  /** A whole stream: the receiver refines the reference piece by piece. */
  lemma {:induction false} ReceiverRefinesReference(h: H5, pieces: seq<seq<byte>>)
    requires AtStart(h) && forall c :: c in pieces ==> DELIMITER !in c
    ensures var r := Recv(h, Join(pieces)); r.lk == JudgeAll(h.lk, pieces) && AtStartUnlessExited(r)
    decreases pieces
  {
    hide Judge, RecvByte;
    if pieces == [] {
    } else {
      var c := pieces[0] + [DELIMITER];
      PieceFromStart(h, pieces[0]);
      RecvConcat(h, c, Join(pieces[1..]));
      var h1 := Recv(h, c);
      if h1.lk.exited {
        RecvExited(h1, Join(pieces[1..]));
        assert JudgeAll(h1.lk, pieces[1..]) == h1.lk;
      } else {
        ReceiverRefinesReference(h1, pieces[1..]);
      }
    }
  }
}
