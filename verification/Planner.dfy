/** How `rtb_download_fwc` cuts an image into packets, numbers them and pads their count. */
module Planner {
  import opened Bytes
  import opened Controller

  const PATCH_DATA_FIELD_MAX_SIZE := 252

  /** Number of the last packet with data. */
  function EndIdx(size: nat): nat
    requires size >= 1
  {
    (size - 1) / PATCH_DATA_FIELD_MAX_SIZE % 0x1_0000
  }

  /** Length of the last packet with data. */
  function LpLen(size: nat): nat {
    var r := size % PATCH_DATA_FIELD_MAX_SIZE;
    if r == 0 then PATCH_DATA_FIELD_MAX_SIZE else r
  }

  /** Packets without data that follow; `cmds` counts the commands completed so far. */
  function AddPkts(h5: bool, cmds: nat, end: nat): nat {
    var num := (cmds + end + 1) % 0x1_0000;
    var add := if num % 8 != 0 then 8 - num % 8 else 0;
    if !h5 then 0 else if add != 0 then add - 1 else add + 7
  }

  function TotalIdx(h5: bool, cmds: nat, size: nat): nat
    requires size >= 1
  {
    (AddPkts(h5, cmds, EndIdx(size)) + EndIdx(size)) % 0x1_0000
  }

  /** All packet numbers fit the 16-bit counters. */
  predicate Fits(size: nat) {
    1 <= size && (size - 1) / PATCH_DATA_FIELD_MAX_SIZE + 8 < 0x1_0000
  }

  /** The running index of packet `i`. */
  function RollIndex(i: nat): nat {
    if i > 0x7f then i % 0x80 + 1 else i
  }

  /** The index octet of packet `i`, with bit 0x80 for the last packet. */
  function IndexOctet(i: nat, total: nat): (b: byte)
    requires i <= total
  {
    if i == total then RollIndex(i) % 0x80 + 0x80 else RollIndex(i)
  }

  /** Where the data of packet `i` starts and how long it is. */
  function DataStart(i: nat): nat {
    i * PATCH_DATA_FIELD_MAX_SIZE
  }

  function DataLen(size: nat, i: nat): nat
    requires size >= 1
  {
    if i < EndIdx(size) then PATCH_DATA_FIELD_MAX_SIZE else if i == EndIdx(size) then LpLen(size) else 0
  }

  lemma LastPartFits(size: nat)
    requires Fits(size)
    ensures DataStart(EndIdx(size)) + LpLen(size) == size
    ensures 1 <= LpLen(size) <= PATCH_DATA_FIELD_MAX_SIZE
  {
    var q, r := size / 252, size % 252;
    assert size == 252 * q + r;
    if r == 0 {
      assert (size - 1) == 252 * (q - 1) + 251;
      assert (size - 1) / 252 == q - 1;
    } else {
      assert (size - 1) == 252 * q + (r - 1);
      assert (size - 1) / 252 == q;
    }
  }

  lemma PartInside(size: nat, i: nat)
    requires Fits(size) && i <= EndIdx(size)
    ensures DataStart(i) + DataLen(size, i) <= size
    ensures i < EndIdx(size) ==> DataStart(i) + DataLen(size, i) == DataStart(i + 1)
  {
    LastPartFits(size);
  }

  function Data(image: seq<byte>, i: nat): seq<byte>
    requires Fits(|image|)
  {
    if i > EndIdx(|image|) then []
    else
      PartInside(|image|, i);
      image[DataStart(i)..DataStart(i) + DataLen(|image|, i)]
  }

  /** The data of the first `n` packets. */
  function Sent(image: seq<byte>, n: nat): seq<byte>
    requires Fits(|image|)
  {
    if n == 0 then [] else Sent(image, n - 1) + Data(image, n - 1)
  }

  lemma SliceNext(image: seq<byte>, a: nat, b: nat)
    requires a <= b <= |image|
    ensures image[..a] + image[a..b] == image[..b]
  {}

  lemma {:induction false} SentIsPrefix(image: seq<byte>, n: nat)
    requires Fits(|image|) && n <= EndIdx(|image|)
    ensures DataStart(n) <= |image| && Sent(image, n) == image[..DataStart(n)]
  {
    LastPartFits(|image|);
    if n == 0 {
    } else {
      SentIsPrefix(image, n - 1);
      PartInside(|image|, n - 1);
      hide EndIdx, LpLen, DataLen, DataStart;
      SliceNext(image, DataStart(n - 1), DataStart(n));
    }
  }

  /** The image is sent exactly: the data of all packets up to `n`, for any `n` from the last data packet on,
      is the image, and no packet has more than 252 octets of it. */
  lemma {:induction false} ImageIsConserved(image: seq<byte>, n: nat)
    requires Fits(|image|) && n > EndIdx(|image|)
    ensures Sent(image, n) == image
    ensures forall i :: |Data(image, i)| <= PATCH_DATA_FIELD_MAX_SIZE
  {
    var end := EndIdx(|image|);
    LastPartFits(|image|);
    if n == end + 1 {
      SentIsPrefix(image, end);
      PartInside(|image|, end);
      SliceNext(image, DataStart(end), |image|);
    } else {
      ImageIsConserved(image, n - 1);
    }
  }

  lemma TotalDoesNotWrap(h5: bool, cmds: nat, size: nat)
    requires Fits(size)
    ensures EndIdx(size) == (size - 1) / PATCH_DATA_FIELD_MAX_SIZE
    ensures TotalIdx(h5, cmds, size) == AddPkts(h5, cmds, EndIdx(size)) + EndIdx(size) < 0xffff
  {}

  /** How many packets without data are needed, for `num` packets and commands so far (`uint16_t`). */
  method Padding(h5: bool, num: nat) returns (addPkts: nat)
    ensures addPkts <= 7
    ensures h5 ==> (num + addPkts + 1) % 8 == 0
    ensures !h5 ==> addPkts == 0
  {
    addPkts := if num % 8 != 0 then 8 - num % 8 else 0;
    if h5 {
      if addPkts != 0 {
        addPkts := addPkts - 1;
      } else {
        addPkts := addPkts + 7;
      }
    } else {
      addPkts := 0;
    }
  }

  /** The padding is determined by what it achieves. */
  lemma PaddingIsUnique(h5: bool, cmds: nat, end: nat, add: nat)
    requires add <= 7 && (!h5 ==> add == 0)
    requires h5 ==> ((cmds + end + 1) % 0x1_0000 + add + 1) % 8 == 0
    ensures add == AddPkts(h5, cmds, end)
  {}

  /** The counters that `rtb_download_fwc` sets up, in 16-bit arithmetic. */
  method PlanDownload(size: nat, h5: bool, cmds: nat) returns (endIdx: nat, lpLen: nat, totalIdx: nat)
    requires Fits(size)
    ensures endIdx == EndIdx(size) && lpLen == LpLen(size) && totalIdx == TotalIdx(h5, cmds, size)
    ensures endIdx <= totalIdx < 0xffff && 252 * endIdx + lpLen == size && 1 <= lpLen <= 252
  {
    hide AddPkts;
    endIdx := (size - 1) / PATCH_DATA_FIELD_MAX_SIZE % 0x1_0000;
    lpLen := size % PATCH_DATA_FIELD_MAX_SIZE;
    var num := (cmds + endIdx + 1) % 0x1_0000;
    var addPkts := Padding(h5, num);
    PaddingIsUnique(h5, cmds, endIdx, addPkts);
    totalIdx := (addPkts + endIdx) % 0x1_0000;
    if lpLen == 0 {
      lpLen := PATCH_DATA_FIELD_MAX_SIZE;
    }
    TotalDoesNotWrap(h5, cmds, size);
    LastPartFits(size);
  }

  /** After `sent` init commands, all packets and the final reset, the sequence number is back at 0 exactly
      if the completions counted agree with the commands sent, for every image size. */
  lemma PaddingClosesSequence(sent: nat, cmds: nat, size: nat)
    requires Fits(size)
    ensures (sent + (TotalIdx(true, cmds, size) + 1) + 1) % 8 == 0 <==> sent % 8 == cmds % 8
  {
    PaddingAligns(cmds, size);
    SameRemainder(sent, cmds, TotalIdx(true, cmds, size) + 2);
  }

  lemma DownloadClosesSequence(sent: nat, cmds: nat, size: nat)
    requires Fits(size)
    ensures (sent % 8 + TotalIdx(true, cmds, size) + 2) % 8 == 0 <==> sent % 8 == cmds % 8
  {
    hide TotalIdx;
    PaddingClosesSequence(sent, cmds, size);
    ManyMore(sent, TotalIdx(true, cmds, size) + 2);
  }

  lemma ImageFits(size: nat)
    requires 1 <= size <= 0x130d0 + 529
    ensures Fits(size)
  {}

  lemma PaddingAligns(cmds: nat, size: nat)
    requires Fits(size)
    ensures (cmds + TotalIdx(true, cmds, size) + 2) % 8 == 0
  {
    hide AddPkts, EndIdx;
    TotalDoesNotWrap(true, cmds, size);
    PaddingFills(cmds, EndIdx(size));
  }

  lemma PaddingFills(cmds: nat, end: nat)
    ensures (cmds + end + AddPkts(true, cmds, end) + 2) % 8 == 0
  {
    var n := cmds + end + 1;
    var num := n % 0x1_0000;
    WrapKeepsModulo8(n);
    var add := AddPkts(true, cmds, end);
    assert (num + (add + 1)) % 8 == 0;
    SameShift(n, num, add + 1);
  }

  lemma WrapKeepsModulo8(n: nat)
    ensures n % 0x1_0000 % 8 == n % 8
  {}

  lemma SameShift(a: nat, b: nat, t: nat)
    requires a % 8 == b % 8
    ensures (a + t) % 8 == (b + t) % 8
  {}

  lemma SameRemainder(a: nat, b: nat, t: nat)
    requires (b + t) % 8 == 0
    ensures (a + t) % 8 == 0 <==> a % 8 == b % 8
  {}

  lemma OneMore(a: nat, i: nat)
    ensures ((a + i) % 8 + 1) % 8 == (a + i + 1) % 8
  {}

  lemma ManyMore(a: nat, n: nat)
    ensures (a % 8 + n) % 8 == (a + n) % 8
  {}

  // ---- indices ----

  /** The index each packet waits for. */
  function WaitIndex(i: nat, total: nat): nat
    requires i <= total
  {
    IndexOctet(i, total) % 0x80
  }

  /** The rolled index equals the number of the last packet exactly while the last packet of a download of
      at most 128 packets is under way. */
  lemma RolledIndexIsTotal(i: nat, total: nat)
    requires i <= total
    ensures WaitIndex(i, total) == total <==> i == total && total <= 127
  {}

  /** Every packet waits for an index other than the one before, for any number of packets. */
  lemma WaitIndexChanges(i: nat, total: nat)
    requires i + 1 <= total
    ensures WaitIndex(i + 1, total) != WaitIndex(i, total)
  {
    assert RollIndex(i) % 0x80 == WaitIndex(i, total);
    assert RollIndex(i + 1) % 0x80 == WaitIndex(i + 1, total);
  }

  /** The comment above the formula: 0, 1, ..., 127, then 1, ..., 127 over and over. */
  function CommentIndex(i: nat): nat {
    if i == 0 then 0 else (i - 1) % 0x7f + 1
  }

  /** The formula numbers all packets as its comment says exactly up to packet 254. */
  lemma RollIndexAsCommented(total: nat)
    ensures (forall i :: 0 <= i <= total ==> RollIndex(i) == CommentIndex(i)) <==> total <= 254
  {
    if total > 254 {
      assert RollIndex(255) == 0x80 && CommentIndex(255) == 1;
    }
  }

  /** Bit 0x80 marks the last packet and no other exactly if there are at most 256 packets. */
  lemma LastBitIsUnique(total: nat)
    ensures (forall i :: 0 <= i <= total ==> (IndexOctet(i, total) >= 0x80 <==> i == total)) <==> total <= 255
  {
    if total > 255 {
      assert IndexOctet(255, total) == 0x80;
    }
  }

  /** Sizes that `rtb_config` lets pass reach beyond both bounds: 0x104d0 + 529 octets for the 8852BS. */
  lemma AllowedSizeExceedsIndex(cmds: nat)
    ensures Fits(0x104d0 + 529) && TotalIdx(true, cmds, 0x104d0 + 529) > 255
  {
    assert EndIdx(0x104d0 + 529) == 267;
    TotalDoesNotWrap(true, cmds, 0x104d0 + 529);
  }

  // ---- commands ----

  /** The download command for packet `i`. */
  function PatchCommand(index: byte, data: seq<byte>): seq<byte>
    requires |data| <= PATCH_DATA_FIELD_MAX_SIZE
  {
    [0x20, 0xfc, |data| + 1, index] + data
  }

  lemma DataFits(image: seq<byte>, i: nat)
    requires Fits(|image|)
    ensures |Data(image, i)| <= PATCH_DATA_FIELD_MAX_SIZE
  {
    ImageIsConserved(image, EndIdx(|image|) + 1);
  }

  /** The commands of the first `n` packets. */
  function PatchCommands(image: seq<byte>, total: nat, n: nat): (cs: seq<seq<byte>>)
    requires Fits(|image|) && n <= total + 1
    ensures |cs| == n
  {
    if n == 0 then []
    else
      DataFits(image, n - 1);
      PatchCommands(image, total, n - 1) + [PatchCommand(IndexOctet(n - 1, total), Data(image, n - 1))]
  }

  /** What a controller puts together from the commands: what follows the first `skip` octets of each. */
  function Payloads(cs: seq<seq<byte>>, skip: nat): seq<byte> {
    if |cs| == 0 then []
    else
      var c := cs[|cs| - 1];
      Payloads(cs[..|cs| - 1], skip) + if |c| >= skip then c[skip..] else []
  }

  lemma {:induction false} CommandsCarrySent(image: seq<byte>, total: nat, n: nat)
    requires Fits(|image|) && n <= total + 1
    ensures Payloads(PatchCommands(image, total, n), 4) == Sent(image, n)
  {
    hide IndexOctet, Data;
    if n == 0 {
    } else {
      CommandsCarrySent(image, total, n - 1);
      DataFits(image, n - 1);
      var cs, c := PatchCommands(image, total, n - 1), PatchCommand(IndexOctet(n - 1, total), Data(image, n - 1));
      assert (cs + [c])[..|cs|] == cs && c[4..] == Data(image, n - 1);
    }
  }

  /** The commands of a whole plan carry exactly the image, behind opcode, length and index. */
  lemma CommandsCarryImage(image: seq<byte>, total: nat)
    requires Fits(|image|) && EndIdx(|image|) <= total
    ensures Payloads(PatchCommands(image, total, total + 1), 4) == image
  {
    CommandsCarrySent(image, total, total + 1);
    ImageIsConserved(image, total + 1);
  }

  // ---- the commands as the controller reads them ----

  lemma {:induction false} CommandAt(image: seq<byte>, total: nat, n: nat, i: nat)
    requires Fits(|image|) && i < n <= total + 1
    ensures |Data(image, i)| <= PATCH_DATA_FIELD_MAX_SIZE
    ensures PatchCommands(image, total, n)[i] == PatchCommand(IndexOctet(i, total), Data(image, i))
    decreases n
  {
    hide IndexOctet, Data, PatchCommand;
    DataFits(image, i);
    if i == n - 1 {
    } else {
      CommandAt(image, total, n - 1, i);
    }
  }

  lemma PatchCommandIsRead(index: byte, data: seq<byte>)
    requires |data| <= PATCH_DATA_FIELD_MAX_SIZE
    ensures ReadCommand(PatchCommand(index, data)) == Some(Command(0xfc20, [index] + data))
    ensures IndexRead(PatchCommand(index, data)) == Some(index)
  {
    assert PatchCommand(index, data)[3..] == [index] + data;
  }

  lemma {:induction false} SentIsRead(image: seq<byte>, total: nat, n: nat)
    requires Fits(|image|) && n <= total + 1
    ensures ReadDownload(PatchCommands(image, total, n)) == Some(Sent(image, n))
  {
    hide IndexOctet, Data, PatchCommand, ReadCommand;
    if n == 0 {
    } else {
      SentIsRead(image, total, n - 1);
      DataFits(image, n - 1);
      var cs, data := PatchCommands(image, total, n - 1), Data(image, n - 1);
      PatchCommandIsRead(IndexOctet(n - 1, total), data);
      assert PatchCommands(image, total, n)[..n - 1] == cs && ([IndexOctet(n - 1, total)] + data)[1..] == data;
    }
  }

  /** The index in the command is `index`, the bit for the last packet aside. */
  predicate Asks(c: seq<byte>, index: nat) {
    IndexRead(c).Some? && IndexRead(c).value as int % 0x80 == index
  }

  /** A controller reads the image off the commands of a whole plan, and in each of them the index that the
      answer to it carries. */
  lemma DownloadIsRead(image: seq<byte>, total: nat)
    requires Fits(|image|) && EndIdx(|image|) <= total
    ensures ReadDownload(PatchCommands(image, total, total + 1)) == Some(image)
    ensures forall i :: 0 <= i <= total ==> Asks(PatchCommands(image, total, total + 1)[i], WaitIndex(i, total))
  {
    hide PatchCommand, PatchCommands, IndexOctet, IndexRead;
    SentIsRead(image, total, total + 1);
    ImageIsConserved(image, total + 1);
    forall i | 0 <= i <= total
      ensures Asks(PatchCommands(image, total, total + 1)[i], WaitIndex(i, total))
    {
      CommandAt(image, total, total + 1, i);
      PatchCommandIsRead(IndexOctet(i, total), Data(image, i));
    }
  }

  /** Up to packet 254 the index waited for is the one of the comment, on the last packet too. */
  lemma WaitIndexAsCommented(i: nat, total: nat)
    requires i <= total <= 254
    ensures WaitIndex(i, total) == CommentIndex(i)
  {}

  // ---- the loop of `rtb_download_fwc`, packet by packet ----

  /** The index octet and the data length that the loop of `rtb_download_fwc` gives packet `i`; packets
      after the data have no data pointer. */
  method ChoosePacket(i: nat, size: nat, endIdx: nat, lpLen: nat, totalIdx: nat)
    returns (currIdx: byte, currLen: nat, hasData: bool)
    requires Fits(size) && endIdx == EndIdx(size) && lpLen == LpLen(size) && endIdx <= totalIdx && i <= totalIdx
    ensures currIdx == IndexOctet(i, totalIdx) && currLen == DataLen(size, i) && hasData == (i <= endIdx)
  {
    var j := if i > 0x7f then i % 0x80 + 1 else i;
    hasData := true;
    if i < endIdx {
      currIdx := j;
      currLen := PATCH_DATA_FIELD_MAX_SIZE;
    } else if i == endIdx {
      if i == totalIdx {
        currIdx := j % 0x80 + 0x80;
      } else {
        currIdx := j;
      }
      currLen := lpLen;
    } else if i < totalIdx {
      currIdx := j;
      hasData := false;
      currLen := 0;
    } else {
      currIdx := j % 0x80 + 0x80;
      hasData := false;
      currLen := 0;
    }
  }

  /** The data pointer of `rtb_download_fwc` gives packet `i` its part of the image. */
  method CutPacket(buf: seq<byte>, i: nat, pktBuf: Option<nat>, currLen: nat) returns (data: seq<byte>)
    requires Fits(|buf|) && currLen == DataLen(|buf|, i)
    requires i <= EndIdx(|buf|) ==> pktBuf == Some(DataStart(i))
    ensures data == Data(buf, i) && |data| <= PATCH_DATA_FIELD_MAX_SIZE
  {
    DataFits(buf, i);
    if currLen == 0 {
      LastPartFits(|buf|);
      data := [];
    } else {
      PartInside(|buf|, i);
      data := buf[pktBuf.value..pktBuf.value + currLen];
    }
  }

  /** The data pointer moves past every full packet, and the index waited for is a new one. */
  lemma PacketAdvances(i: nat, endIdx: nat, totalIdx: nat)
    requires i <= totalIdx && endIdx <= totalIdx
    ensures i < endIdx ==>
              IndexOctet(i, totalIdx) < endIdx && DataStart(i) + PATCH_DATA_FIELD_MAX_SIZE == DataStart(i + 1)
    ensures IndexOctet(i, totalIdx) % 0x80 == WaitIndex(i, totalIdx) >= 0
    ensures i > 0 ==> WaitIndex(i, totalIdx) != WaitIndex(i - 1, totalIdx)
  {
    if i > 0 {
      WaitIndexChanges(i - 1, totalIdx);
    }
  }
}
