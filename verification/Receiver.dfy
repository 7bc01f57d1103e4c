/** The byte-at-a-time receiver of `h5_recv` as a left fold. */
module Receiver {
  import opened Bytes
  import opened Crc
  import opened Slip
  import opened Frames
  import opened LinkLayer

  /** Maximum packet: payload of 0xfff, header of 4, check of 2. */
  const RX_BUFFER := 0x1005

  datatype RxState = W4PktDelimiter | W4PktStart | W4Hdr | W4Data | W4Crc {
    /** The states in which a buffer is allocated. */
    predicate Buffering() {
      W4Hdr? || W4Data? || W4Crc?
    }
  }

  /** `buf` holds the octets stored so far; it is empty while no buffer is allocated. */
  datatype Rx = Rx(state: RxState, esc: bool, count: nat, crc: bv16, buf: seq<byte>)

  datatype H5 = H5(rx: Rx, lk: Link)

  /** The register after the octets that the check covers. */
  function Running(buf: seq<byte>): bv16 {
    if buf != [] && HdrCrc(buf) then CrcOf(buf) else INIT
  }

  ghost predicate RxInv(rx: Rx, l: Link) {
    && (!rx.state.Buffering() ==> rx.count == 0 && rx.buf == [])
    && (rx.state.Buffering() && rx.esc ==> rx.count > 0)
    && (rx.state == W4Hdr ==> |rx.buf| + rx.count == 4 && rx.crc == Running(rx.buf))
    && (rx.state == W4Data ==>
          && |rx.buf| >= 4 && Expected(l, rx.buf)
          && |rx.buf| + rx.count == 4 + HdrLen(rx.buf) && rx.crc == Running(rx.buf))
    && (rx.state == W4Crc ==>
          && |rx.buf| >= 4 && Expected(l, rx.buf) && HdrCrc(rx.buf)
          && |rx.buf| + rx.count == Need(rx.buf) && |rx.buf| >= 4 + HdrLen(rx.buf)
          && rx.crc == CrcOf(rx.buf[..4 + HdrLen(rx.buf)]))
  }

  /** What every reachable state satisfies. */
  ghost predicate Inv(h: H5) {
    h.lk.Wf() && (h.lk.exited || RxInv(h.rx, h.lk))
  }

  const IDLE := Rx(W4PktDelimiter, false, 0, INIT, [])

  // ---- one octet ----

  function Dropped(rx: Rx): Rx {
    rx.(state := W4PktDelimiter, count := 0, buf := [])
  }

  function Store(rx: Rx, b: byte): Rx
    requires rx.count > 0
  {
    var buf := rx.buf + [b];
    rx.(buf := buf, count := rx.count - 1,
        crc := if HdrCrc(buf) && rx.state != W4Crc then Update(rx.crc, b) else rx.crc)
  }

  /** `h5_unslip_one_byte`. */
  function UnslipOne(rx: Rx, b: byte): Rx
    requires rx.count > 0
  {
    if !rx.esc then
      if b == ESCAPE then rx.(esc := true) else Store(rx, b)
    else
      match Unescape(b)
      case None => Dropped(rx)
      case Some(v) => Store(rx, v).(esc := false)
  }

  /** `h` is in `state`, and all octets that state waits for have come. */
  ghost predicate Filled(h: H5, state: RxState) {
    Inv(h) && !h.lk.exited && h.rx.state == state && h.rx.count == 0
  }

  /** The header is complete: check it and size the rest. */
  function CheckHeader(h: H5): (r: H5)
    requires Filled(h, W4Hdr)
    ensures Inv(r) && StateRank(r.rx) < 4
  {
    var d := h.rx.buf;
    if !ChecksumOk(d) then h.(rx := Dropped(h.rx))
    else if HdrReliable(d) && HdrSeq(d) != h.lk.rxSeqTxAck then
      H5(Dropped(h.rx), OutOfOrder(h.lk, HdrSeq(d)))
    else h.(rx := h.rx.(state := W4Data, count := HdrLen(d)))
  }

  function Finish(h: H5): (r: H5)
    requires h.lk.Wf() && |h.rx.buf| >= 4 && |h.rx.buf| >= 4 + HdrLen(h.rx.buf)
    ensures Inv(r) && (!r.lk.exited ==> StateRank(r.rx) == 0)
  {
    var l := Complete(h.lk, h.rx.buf);
    H5(if l.exited then h.rx else Dropped(h.rx), l)
  }

  function FinishData(h: H5): (r: H5)
    requires Filled(h, W4Data)
    ensures Inv(r) && (!r.lk.exited ==> StateRank(r.rx) < 3)
  {
    assert h.rx.buf[..|h.rx.buf|] == h.rx.buf;
    if HdrCrc(h.rx.buf) then h.(rx := h.rx.(state := W4Crc, count := 2)) else Finish(h)
  }

  function FinishCrc(h: H5): (r: H5)
    requires Filled(h, W4Crc)
    ensures Inv(r) && (!r.lk.exited ==> StateRank(r.rx) < 2)
  {
    if BitRev16(h.rx.crc) != GetCrc(h.rx.buf[|h.rx.buf| - 2..]) then h.(rx := Dropped(h.rx)) else Finish(h)
  }

  function Begin(rx: Rx): Rx {
    rx.(state := W4Hdr, count := 4, esc := false, crc := INIT, buf := [])
  }

  /** A delimiter where octets were still missing. */
  function Short(rx: Rx): Rx {
    rx.(state := W4PktStart, count := 0, buf := [])
  }

  /** How many steps can precede the one that consumes an octet. */
  function StateRank(rx: Rx): nat {
    if rx.count > 0 then 0
    else
      match rx.state
      case W4PktDelimiter => 0
      case W4PktStart => 1
      case W4Crc => 2
      case W4Data => 3
      case W4Hdr => 4
  }

  /** One turn of the loop of `h5_recv`: either consumes `b` or goes round again. */
  function Turn(h: H5, b: byte): (r: (H5, bool))
    requires Inv(h) && !h.lk.exited
    ensures Inv(r.0)
    ensures !r.1 && !r.0.lk.exited ==> StateRank(r.0.rx) < StateRank(h.rx)
  {
    hide CheckHeader, Finish, FinishData, FinishCrc, Store;
    if h.rx.count > 0 then
      UnslipKeepsInv(h.rx, b, h.lk);
      (h.(rx := if b == DELIMITER then Short(h.rx) else UnslipOne(h.rx, b)), true)
    else
      match h.rx.state
      case W4Hdr => (CheckHeader(h), false)
      case W4Data => (FinishData(h), false)
      case W4Crc => (FinishCrc(h), false)
      case W4PktDelimiter => (if b == DELIMITER then h.(rx := h.rx.(state := W4PktStart)) else h, true)
      case W4PktStart => if b == DELIMITER then (h, true) else (h.(rx := Begin(h.rx)), false)
  }

  /** Whatever is read off a header is unaffected by the octets after it. */
  lemma HeaderIsPrefix(d: seq<byte>, e: seq<byte>, l: Link)
    requires |d| >= 4 && d <= e
    ensures HdrLen(d) == HdrLen(e) && HdrCrc(d) == HdrCrc(e) && Need(d) == Need(e)
    ensures ChecksumOk(d) == ChecksumOk(e) && HdrReliable(d) == HdrReliable(e) && HdrSeq(d) == HdrSeq(e)
    ensures Expected(l, d) == Expected(l, e)
  {
    assert e[0] == d[0] && e[1] == d[1] && e[2] == d[2] && e[3] == d[3];
  }

  lemma RunningSnoc(d: seq<byte>, c: byte)
    ensures HdrCrc(d + [c]) ==> Running(d + [c]) == Update(Running(d), c)
    ensures !HdrCrc(d + [c]) ==> Running(d + [c]) == Running(d)
  {
    hide Update;
    var e := d + [c];
    assert e[..|e| - 1] == d;
    if d == [] {
      assert CrcOf(d) == INIT;
    } else {
      assert e[0] == d[0];
    }
  }

  lemma StoreKeepsInv(rx: Rx, c: byte, l: Link)
    requires RxInv(rx, l) && rx.count > 0
    ensures RxInv(Store(rx, c).(esc := false), l)
  {
    hide Update, Expected, Running, HdrCrc, HdrLen, CrcOf;
    var buf := rx.buf + [c];
    RunningSnoc(rx.buf, c);
    if |rx.buf| >= 4 {
      HeaderIsPrefix(rx.buf, buf, l);
      if rx.state == W4Crc {
        assert buf[..4 + HdrLen(buf)] == rx.buf[..4 + HdrLen(buf)];
      }
    }
  }

  lemma StoreKeepsEscape(rx: Rx, c: byte)
    requires rx.count > 0 && !rx.esc
    ensures Store(rx, c).(esc := false) == Store(rx, c)
  {}

  lemma NoOctetKeepsInv(rx: Rx, l: Link)
    requires RxInv(rx, l) && rx.count > 0
    ensures RxInv(rx.(esc := true), l) && RxInv(Dropped(rx), l)
  {
    hide Running, Expected, HdrCrc, HdrLen, CrcOf;
  }

  lemma UnslipKeepsInv(rx: Rx, b: byte, l: Link)
    requires RxInv(rx, l) && rx.count > 0
    ensures RxInv(UnslipOne(rx, b), l)
  {
    hide Store, RxInv, Dropped;
    NoOctetKeepsInv(rx, l);
    StoreKeepsInv(rx, b, l);
    if rx.esc && Unescape(b).Some? {
      StoreKeepsInv(rx, Unescape(b).value, l);
    } else if !rx.esc {
      StoreKeepsEscape(rx, b);
    }
  }

  function RecvByte(h: H5, b: byte): (r: H5)
    requires Inv(h)
    ensures Inv(r)
    decreases StateRank(h.rx)
  {
    if h.lk.exited then h
    else
      var (r, consumed) := Turn(h, b);
      if consumed || r.lk.exited then r else RecvByte(r, b)
  }

  function Recv(h: H5, data: seq<byte>): (r: H5)
    requires Inv(h)
    ensures Inv(r)
    decreases data
  {
    if data == [] then h else Recv(RecvByte(h, data[0]), data[1..])
  }
}
