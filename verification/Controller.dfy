/** The other end of the line: how a controller reads commands (Bluetooth Core Specification, Vol 4, Part E,
    section 5.4.1) and how it builds the events that complete them (sections 5.4.4 and 7.7.14). */
module Controller {
  import opened Bytes

  datatype Command = Command(opcode: nat, params: seq<byte>)

  /** A command packet: opcode with its low octet first, length of the parameters, parameters. */
  function ReadCommand(c: seq<byte>): Option<Command> {
    if |c| < 3 || |c| != 3 + c[2] as int then None
    else
      var low: nat, high: nat := c[0], c[1];
      Some(Command(low + 0x100 * high, c[3..]))
  }

  /** The command packets behind the H4 packet type, which must be 0x01 on all of them. */
  function Unwrap(ps: seq<seq<byte>>): Option<seq<seq<byte>>> {
    if |ps| == 0 then Some([])
    else
      var p := ps[|ps| - 1];
      match Unwrap(ps[..|ps| - 1])
      case None => None
      case Some(cs) => if |p| == 0 || p[0] != 0x01 then None else Some(cs + [p[1..]])
  }

  /** The image that a sequence of download commands carries: each has opcode 0xfc20, an index, and a part. */
  function ReadDownload(cs: seq<seq<byte>>): Option<seq<byte>> {
    if |cs| == 0 then Some([])
    else
      match ReadDownload(cs[..|cs| - 1])
      case None => None
      case Some(image) =>
        match ReadCommand(cs[|cs| - 1])
        case None => None
        case Some(c) => if c.opcode != 0xfc20 || |c.params| == 0 then None else Some(image + c.params[1..])
  }

  /** The index octet of a download command. */
  function IndexRead(c: seq<byte>): Option<byte> {
    match ReadCommand(c)
    case None => None
    case Some(c) => if c.opcode != 0xfc20 || |c.params| == 0 then None else Some(c.params[0])
  }

  /** The event that completes a command, with one command packet allowed in turn. */
  function Completion(opcode: nat, status: byte, rest: seq<byte>): seq<byte>
    requires opcode < 0x1_0000 && |rest| <= 251
  {
    [0x0e, 4 + |rest|, 0x01, opcode % 0x100, opcode / 0x100, status] + rest
  }
}
