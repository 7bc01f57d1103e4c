/** The protocol half of `rtb_struct`: sequence numbers, acknowledgements, link establishment and the
    handlers that a completed packet runs through (Bluetooth Core Specification, Vol 4, Part D,
    sections 6 and 8). */
module LinkLayer {
  import opened Bytes
  import opened Frames

  const H5_ACK_PKT := 0x00
  const HCI_COMMAND_PKT := 0x01
  const HCI_ACLDATA_PKT := 0x02
  const HCI_SCODATA_PKT := 0x03
  const HCI_EVENT_PKT := 0x04
  const H5_VDRSPEC_PKT := 0x0e
  const H5_LINK_CTL_PKT := 0x0f

  const HCI_CMD_RESET := 0x0c03
  const HCI_CMD_READ_LOCAL_VER := 0x1001
  const HCI_CMD_READ_BD_ADDR := 0x1009
  const HCI_VENDOR_CHANGE_BAUD := 0xfc17
  const HCI_VENDOR_READ_CHIP_TYPE := 0xfc61
  const HCI_VENDOR_READ_ROM_VER := 0xfc6d

  const SYNC_RESP_PKT: seq<byte> := [0xc0, 0x00, 0x2f, 0x00, 0xd0, 0x02, 0x7d, 0xc0]
  const CONF_RESP_PKT: seq<byte> := [0xc0, 0x00, 0x2f, 0x00, 0xd0, 0x04, 0x7b, 0xc0]

  datatype LinkState = H5Sync | H5Config | H5Init | H5Patch | H5HciReset | H5Active {
    function Rank(): nat {
      match this
      case H5Sync => 0
      case H5Config => 1
      case H5Init => 2
      case H5Patch => 3
      case H5HciReset => 4
      case H5Active => 5
    }
  }

  /** `log` lists the packets handed to `h5_complete_rx_pkt` and `written` the successive writes to the
      serial port; `exited` is set where the program calls `exit`. */
  datatype Link = Link(
    rxSeqTxAck: nat, rxAck: nat, useCrc: bool, isTxAckReq: bool, msgqTxSeq: nat,
    state: LinkState,
    numOfCmdSent: nat, cmdOpcode: nat, cmdSuccess: bool,
    totalNum: int, txIndex: int, rxIndex: int,
    log: seq<Frame>, written: seq<seq<byte>>, exited: bool)
  {
    predicate Wf() {
      rxSeqTxAck < 8 && msgqTxSeq < 8
    }
  }

  /** The zeroed state that `rtb_init` starts from. */
  const START := Link(0, 0, false, false, 0, H5Sync, 0, 0, false, 0, 0, 0, [], [], false)

  // ---- transmission ----

  predicate ReliableType(ptype: nat) {
    ptype == HCI_ACLDATA_PKT || ptype == HCI_COMMAND_PKT || ptype == HCI_EVENT_PKT
  }

  predicate KnownType(ptype: nat) {
    ReliableType(ptype) || ptype == H5_ACK_PKT || ptype == H5_VDRSPEC_PKT || ptype == H5_LINK_CTL_PKT
  }

  /** The packet that `h5_prepare_pkt` builds from `data`. */
  function TxFrame(l: Link, data: seq<byte>, ptype: nat): (f: Frame)
    requires l.Wf() && KnownType(ptype)
    ensures f.seqno < 8 && f.ack < 8 && f.ptype < 16
  {
    Frame(ReliableType(ptype), if ReliableType(ptype) then l.msgqTxSeq else 0, l.rxSeqTxAck, l.useCrc, ptype, data)
  }

  /** The state `h5_prepare_pkt` leaves behind. */
  function Prepare(l: Link, ptype: nat): (r: Link)
    ensures l.Wf() ==> r.Wf()
  {
    l.(isTxAckReq := false,
       msgqTxSeq := if ReliableType(ptype) then (l.msgqTxSeq + 1) % 8 else l.msgqTxSeq)
  }

  function Write(l: Link, w: seq<byte>): Link {
    l.(written := l.written + [w])
  }

  function AckFrame(l: Link): seq<byte>
    requires l.Wf()
  {
    Encode(TxFrame(l, [], H5_ACK_PKT))
  }

  function SendAck(l: Link): (r: Link)
    requires l.Wf()
    ensures r.Wf()
  {
    Write(Prepare(l, H5_ACK_PKT), AckFrame(l))
  }

  // ---- reception ----

  /** What a handler sees of a buffer: `len` octets at offset `off`, followed by the rest of the allocated
      memory, which is zero where nothing was stored. */
  datatype View = View(mem: seq<byte>, off: nat, len: nat) {
    function At(k: nat): byte {
      if off + k < |mem| then mem[off + k] else 0
    }

    function Pull(n: nat): View
      requires n <= len
    {
      View(mem, off + n, len - n)
    }
  }

  predicate CountedCommand(opcode: nat) {
    opcode == HCI_VENDOR_CHANGE_BAUD || opcode == HCI_CMD_READ_BD_ADDR || opcode == HCI_CMD_READ_LOCAL_VER ||
    opcode == HCI_VENDOR_READ_ROM_VER || opcode == HCI_VENDOR_READ_CHIP_TYPE
  }

  /** The opcode of a command complete event and its status, once the two pulls succeed. */
  function CcOpcode(v: View): nat {
    var low: nat, high: nat := v.At(3), v.At(4);
    low + 256 * high
  }

  /** The command complete event answers the pending command successfully. */
  predicate CcMatches(l: Link, v: View) {
    v.At(5) == 0 && CcOpcode(v) == l.cmdOpcode
  }

  function InitHciCc(l: Link, v: View): Link {
    if v.len < 5 then l.(exited := true)
    else if !CcMatches(l, v) then l
    else
      var r := l.(cmdSuccess := true);
      if CountedCommand(l.cmdOpcode) then r.(numOfCmdSent := (l.numOfCmdSent + 1) % 0x1_0000) else r
  }

  function PostHciCc(l: Link, v: View): Link {
    if v.len < 5 then l.(exited := true)
    else if !CcMatches(l, v) then l
    else
      var r := l.(cmdSuccess := true);
      if l.cmdOpcode == HCI_CMD_RESET then r.(state := H5Active) else r
  }

  function HciRecvFrame(l: Link, v: View): Link {
    match l.state
    case H5Init => if v.At(0) == 0x0e then InitHciCc(l, v) else l
    case H5Patch =>
      if v.At(0) != 0x0e then l
      else if v.At(6) >= 0x80 then l.(rxIndex := v.At(6) - 0x80, state := H5HciReset)
      else l.(rxIndex := v.At(6))
    case H5HciReset => if v.At(0) == 0x0e then PostHciCc(l, v) else l
    case _ => l
  }

  predicate Opens(v: View, a: byte, b: byte) {
    v.At(0) == a && v.At(1) == b
  }

  function HandleInternalRx(l: Link, v: View): (r: Link)
    requires l.Wf()
    ensures r.Wf()
  {
    match l.state
    case H5Sync =>
      if Opens(v, 0x01, 0x7e) then Write(l, SYNC_RESP_PKT)
      else if Opens(v, 0x02, 0x7d) then l.(state := H5Config)
      else l
    case H5Config =>
      if Opens(v, 0x01, 0x7e) then Write(l, SYNC_RESP_PKT)
      else if Opens(v, 0x03, 0xfc) then Write(l, CONF_RESP_PKT)
      else if Opens(v, 0x04, 0x7b) then
        var r := l.(state := H5Init);
        if v.len > 2 then r.(useCrc := v.At(2) / 16 % 2 == 1) else r
      else SendAck(l)
    case _ => l
  }

  /** The header has been read into the link: sequence number, acknowledgement and log. */
  function Enter(l: Link, mem: seq<byte>): (r: Link)
    requires l.Wf() && |mem| >= 4 && |mem| >= 4 + HdrLen(mem)
    ensures r.Wf()
  {
    var r := l.(rxAck := HdrAck(mem), log := l.log + [FrameOf(mem)]);
    if HdrReliable(mem) then r.(rxSeqTxAck := (HdrSeq(mem) + 1) % 8, isTxAckReq := true) else r
  }

  predicate PassedUp(ptype: nat) {
    ptype == HCI_ACLDATA_PKT || ptype == HCI_EVENT_PKT || ptype == HCI_COMMAND_PKT || ptype == HCI_SCODATA_PKT
  }

  function Dispatch(l: Link, mem: seq<byte>): (r: Link)
    requires l.Wf() && |mem| >= 4
    ensures r.Wf()
  {
    var v := View(mem, 4, HdrLen(mem));
    if HdrType(mem) == H5_LINK_CTL_PKT then HandleInternalRx(l, v)
    else if PassedUp(HdrType(mem)) then HciRecvFrame(l, v)
    else l
  }

  /** The obligation left by a reliable packet is met before the packet is done with. */
  function Acknowledge(l: Link): (r: Link)
    requires l.Wf()
    ensures r.Wf()
  {
    if !l.exited && l.isTxAckReq then SendAck(l) else l
  }

  /** `h5_complete_rx_pkt` on the octets `mem` stored for a packet. */
  function Complete(l: Link, mem: seq<byte>): (r: Link)
    requires l.Wf() && |mem| >= 4 && |mem| >= 4 + HdrLen(mem)
    ensures r.Wf()
  {
    Acknowledge(Dispatch(Enter(l, mem), mem))
  }

  /** The receiver's answer to an unexpected sequence number. */
  function OutOfOrder(l: Link, seqno: nat): (r: Link)
    requires seqno < 8
    ensures l.Wf() ==> r.Wf()
  {
    if ResyncRule(l) then l.(isTxAckReq := true, rxSeqTxAck := seqno) else l.(isTxAckReq := true)
  }

  /** While the last patch packet is under way the receiver adopts the peer's sequence number: meant so, but
      the index of the packet under way is rolled and the packet count is not. */
  predicate ResyncRule(l: Link) {
    l.state == H5Patch && l.txIndex == l.totalNum
  }

  predicate Expected(l: Link, d: seq<byte>)
    requires |d| >= 4
  {
    ChecksumOk(d) && (HdrReliable(d) ==> HdrSeq(d) == l.rxSeqTxAck)
  }
}
