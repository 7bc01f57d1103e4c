# The Realtek UART attach tool: link, download, configuration

`rtl-tools` brings up a Realtek Bluetooth controller on a serial line. It establishes a three-wire UART link
(H5; Bluetooth Core Specification, Vol 4, Part D, sections 3 to 6 and 8), downloads a firmware image over it or
over the plain UART transport (H4), and before that merges a binary config file with overrides. This project
models these three parts and proves what they promise.

- **The link.** `Crc`, `Slip` and `Frames` are the octet formats. `LinkLayer` and `Receiver` say, on values, what
  the handlers and one turn of the receive loop do. `Reference` is an independent decoder that splits the stream
  at delimiters and judges each piece as a whole; the octet-by-octet receiver is proved to refine it. `Delivery`
  builds on that: what is accepted, the round trip, synchronisation, damage, exactly-once delivery,
  acknowledgement. `Buffers` and `Uart` are the same code in the form it has in C, objects updated in place,
  proved against the receiver on values. `Ladder` and `Runs` follow link establishment over whole runs,
  `Completions` the command counter. `Handshake` says what each packet does at both ends of the line, and `Samples`
  shows packets octet by octet.
- **The download.** `Planner` cuts, numbers and pads; `Controller` reads commands and builds their completions, as the
  other end of the line; `Transcript` says what may be on the line, `Waits` which steps a wait consists of, and
  `Driver` is the host on H5 (waits, retransmissions, stop and wait, the attach sequence); `H4Transfer` is the H4
  event reader and its download.
- **The configuration.** `ConfigItems` is the merge on sequences, `ConfigRings` the intrusive `list_head` rings,
  `ConfigStore` the merge in place, `ConfigCodec` the parser and the printer.

How the surroundings appear: `read`, `poll`, `epoll_wait` and the timers are inputs of the model; `write` appends to
a ghost log; `exit()` is an outcome of its own (`exited`, `Exited`); a loop that still waits when the inputs are
used up ends as `Blocked`. Allocation always succeeds. `live` is the set of allocated packet buffers and `freed`
the set of freed config items, so that a leak or a double free would show.

## Where the code does not do what it says

The model follows the code in each case.

- The roll-over formula at `hciattach_rtk.c:1512` agrees with its comment up to packet 254 only. At packet 255 it
  gives 0x80, the mark of the last packet, and the size limits let such images pass
  (`Planner.RollIndexAsCommented`, `Planner.LastBitIsUnique`, `Planner.AllowedSizeExceedsIndex`). If the controller
  echoes that octet, the wait for packet 256 never succeeds (`Driver.EarlyLastIndexBlocks`,
  `Driver.EarlyLastIndexIsReached`): a download whose packets are all echoed completes if and only if it has at
  most 256 of them (`Driver.EchoedDownloadCompletes`).
- While the link is being patched `hci_recv_frame` looks at neither opcode nor status (`hciattach_rtk.c:684-693`). A
  download on H5 succeeds even if the controller refuses every packet, or answers with the completion of another
  command, as long as octet 6 carries the index (`Driver.AnyCompletionAnswers`, and `Driver.EchoedDownloadCompletes`
  for every status).
- The resync rule at `hciattach_rtk.c:870-872` can deliver a packet twice: delivery is exactly once if and only if
  the rule does not apply (`Delivery.ResyncRuleIsTheException`). The index it compares is rolled and the packet
  count is not, so on downloads of more than 128 packets it never applies (`Driver.ResyncOnShortDownloadsOnly`).
- `hciattach_rtk.c:1547` ignores the answer to the last packet on H4. Success means that every packet before the
  last was acknowledged and the reset succeeded, no more and no less (`H4Transfer.DownloadFwc`), and it is
  reported even if the last packet is refused (`H4Transfer.RefusedDownloadIsAccepted`).
- The length of the printed config is a 16-bit number. From 65530 octets of items on it wraps and the printer
  leaves its buffer (`ConfigCodec.PrintConfigs`), and the parser accepts such files
  (`ConfigCodec.PrinterOverflowIsReached`).
- The parser reads beyond a file whose last item is cut short (`ConfigCodec.ParseConfig`,
  `ConfigCodec.CutItemIsReached`). For a file of fewer than 6 octets it looks for magic and length
  (`rtb_fwc.c:652-659`) beyond the end of the file as well, but rejects it whatever lies there.
- `merge_configs` reads an extra it has freed whenever that extra was shorter than the item it met and that item
  was not the last of its ring (`ConfigStore.ConfigLists.MergeConfigs`, `ConfigCodec.FreedReadIsReached`).
- Where an offset occurs twice in the base, `merge_configs` can lose items: an extra moves on from each item it has
  replaced to the next one (`ConfigItems.AppliedAt`, `ConfigCodec.LostItemIsReached`). It loses none if and only
  if none of the extras by itself would (`ConfigItems.PlacesAreKept`, `ConfigItems.AllPlacesAreKept`).

## Model

| member | source | states |
|---|---|---|
| Crc.UpdateIsSerial | recipes-devtools/rtl-tools/files/hciattach_rtk.c:246-254 | The two table steps of `h5_crc_update` clock the eight bits of an octet, least significant first, through the reflected CCITT register (polynomial 0x8408) |
| Crc.CrcUpdate | recipes-devtools/rtl-tools/files/hciattach_rtk.c:246-254 | The imperative update leaves the register as the bit-serial register would be |
| Crc.CrcIsSerial | recipes-devtools/rtl-tools/files/hciattach_rtk.c:162-170 | Over every octet sequence and from every register value, the table CRC is the bit-serial register |
| Crc.UpdateInjective | recipes-devtools/rtl-tools/files/hciattach_rtk.c:246-254 | For a given octet, different registers stay different: no error is ever absorbed by later octets |
| Crc.RegisterTellsTwoBytes | recipes-devtools/rtl-tools/files/hciattach_rtk.c:246-254 | From one register value, the register after two octets determines both octets |
| Crc.AdjacentBytesDetected | recipes-devtools/rtl-tools/files/hciattach_rtk.c:246-254 | Two different sequences of equal length that differ within two adjacent octets only have different CRCs |
| Crc.BitRev8Reverses | recipes-devtools/rtl-tools/files/hciattach_rtk.c:152-155 | The octet reversal maps bit k to bit 7 - k |
| Crc.BitRev16Involution | recipes-devtools/rtl-tools/files/hciattach_rtk.c:157-160 | `bit_rev16` is its own inverse |
| Crc.CheckMatches | recipes-devtools/rtl-tools/files/hciattach_rtk.c:892-901 | The comparison on receipt holds if and only if the two received octets are the check octets that the sender appends for that register |
| Crc.CodewordsFarApart | recipes-devtools/rtl-tools/files/hciattach_rtk.c:892-901 | Two messages, each followed by its own check octets, that differ within two adjacent octets only (check octets included) are the same message |
| Crc.LeadingZeroCounts | recipes-devtools/rtl-tools/files/hciattach_rtk.c:162-170 | The register starts from 0xffff: an octet 0x00 put before any message changes its CRC |
| Slip.NoReservedOctets | recipes-devtools/rtl-tools/files/hciattach_rtk.c:300-328 | No coded octet is 0xc0, 0x11 or 0x13, whatever was coded |
| Slip.SlipAllLength | recipes-devtools/rtl-tools/files/hciattach_rtk.c:300-328 | Coding at most doubles the length and never shortens |
| Slip.UnslipSlip | recipes-devtools/rtl-tools/files/hciattach_rtk.c:338-402 | The unslip step, run over the coding of any octets followed by anything, yields those octets and then the decoding of the rest |
| Slip.SlipInjective | recipes-devtools/rtl-tools/files/hciattach_rtk.c:300-328 | Different octet sequences have different codings |
| Slip.UnslipCut | recipes-devtools/rtl-tools/files/hciattach_rtk.c:338-402 | A coding cut before its last octet decodes to a proper prefix of what was coded |
| Frames.HeaderFields | recipes-devtools/rtl-tools/files/hciattach_rtk.c:84-89 | The field macros give back what the header was built from and its checksum is accepted, whatever follows it |
| Frames.FrameOfBody | recipes-devtools/rtl-tools/files/hciattach_rtk.c:409-498 | Decoding undoes encoding: header, payload and check octets of every packet are well formed, delimit themselves whatever follows, and give back the packet |
| Frames.BodyOfFrame | recipes-devtools/rtl-tools/files/hciattach_rtk.c:843-901 | Encoding undoes decoding: every octet sequence the receiver finds in order starts with exactly the encoding of the packet read from it |
| Frames.BodyInjective | recipes-devtools/rtl-tools/files/hciattach_rtk.c:409-498 | No packet's octets are a prefix of another packet's octets |
| Frames.EncodedFits | recipes-devtools/rtl-tools/files/hciattach_rtk.c:435-495 | A frame never exceeds the (len + 6) * 2 + 2 octets allocated for it, and between its delimiters there is no 0xc0, 0x11 or 0x13 |
| Frames.EncodeInjective | recipes-devtools/rtl-tools/files/hciattach_rtk.c:409-498 | Different packets are different on the line |
| Frames.HeaderOctetDetected | recipes-devtools/rtl-tools/files/hciattach_rtk.c:843-852 | One wrong octet in a header always fails the header checksum |
| Frames.FramesFarApart | recipes-devtools/rtl-tools/files/hciattach_rtk.c:892-901 | Two accepted packets with CRC that differ within two adjacent octets behind the header only are the same |
| Samples.SyncPacket | recipes-devtools/rtl-tools/files/hciattach_rtk.c:1337-1359 | The packet that starts link establishment, octet by octet as it is on the line |
| Samples.ConfigPacket | recipes-devtools/rtl-tools/files/hciattach_rtk.c:300-328 | The config request, whose header checksum is 0xc0 and goes out escaped |
| Samples.ResetPacket | recipes-devtools/rtl-tools/files/hciattach_rtk.c:409-498 | A reset command under sequence number 3 with acknowledgement 5 |
| Samples.CheckedAck | recipes-devtools/rtl-tools/files/hciattach_rtk.c:488-493 | An acknowledgement with CRC: the reversed register is 0x53d1 and goes out high octet first |
| Samples.SyncReply | recipes-devtools/rtl-tools/files/hciattach_rtk.c:708-761 | The sync reply is the encoding of an unreliable link control packet with payload 02 7d |
| Samples.ConfigReply | recipes-devtools/rtl-tools/files/hciattach_rtk.c:708-761 | The config reply is one with payload 04 7b |
| Receiver.StoreKeepsInv | recipes-devtools/rtl-tools/files/hciattach_rtk.c:338-402 | Storing an octet keeps the receiver invariant: buffer, down-counter, running CRC and expected sequence number stay in step |
| Receiver.UnslipKeepsInv | recipes-devtools/rtl-tools/files/hciattach_rtk.c:338-402 | So does every escape state and every octet, an invalid escape included |
| Receiver.Turn | recipes-devtools/rtl-tools/files/hciattach_rtk.c:827-950 | One turn of the receive loop keeps the invariant (a buffer is live only in the header, data and check states; the counter is positive only there; a pending escape there implies a positive counter), and a turn that consumes nothing lowers the rank of the state |
| Receiver.RecvByte | recipes-devtools/rtl-tools/files/hciattach_rtk.c:827-950 | The non-consuming turns for one octet come to an end, in a state that satisfies the invariant |
| Receiver.Recv | recipes-devtools/rtl-tools/files/hciattach_rtk.c:822-952 | The receiver invariant holds after every octet stream |
| Uart.BufferHasRoom | recipes-devtools/rtl-tools/files/hciattach_rtk.c:936-942 | What is buffered and what is still to come never exceed the 0x1005 octets of the receive buffer |
| Reference.RecvConcat | recipes-devtools/rtl-tools/files/hciattach_rtk.c:822-952 | Receiving a concatenation is receiving its parts one after the other |
| Reference.CallsDoNotMatter | recipes-devtools/rtl-tools/files/hciattach_rtk.c:822-952 | Any split of a stream into successive `h5_recv` calls gives the state, log and writes of one call on the whole |
| Reference.Hunt | recipes-devtools/rtl-tools/files/hciattach_rtk.c:906-917 | While the receiver hunts for a delimiter everything is ignored, and the next 0xc0 puts it in the start state |
| Reference.PieceIsJudged | recipes-devtools/rtl-tools/files/hciattach_rtk.c:827-917 | From any buffering state, what comes up to the next 0xc0 changes the link exactly as a one-shot decoder applied to the buffered and the decoded octets together, and leaves the receiver in the start state |
| Reference.PieceFromStart | recipes-devtools/rtl-tools/files/hciattach_rtk.c:827-950 | The same from the start state: the octets between two delimiters have exactly the effect of unslipping and judging them as a whole |
| Reference.ReceiverRefinesReference | recipes-devtools/rtl-tools/files/hciattach_rtk.c:822-952 | On every stream the octet-by-octet receiver does what splitting at 0xc0, unslipping and judging each piece in turn does |
| Delivery.JudgeLogs | recipes-devtools/rtl-tools/files/hciattach_rtk.c:843-904 | The one-shot decoder delivers exactly one packet if header checksum, expected sequence number, length and CRC are all in order, and none otherwise |
| Delivery.AcceptsExactlyEncodings | recipes-devtools/rtl-tools/files/hciattach_rtk.c:822-952 | A piece between two delimiters delivers packet f if and only if it decodes to octets that start with the encoding of f and f is awaited: nothing else is ever delivered |
| Delivery.RoundTrip | recipes-devtools/rtl-tools/files/hciattach_rtk.c:409-498 | From every reachable receiver state, the frame that `h5_prepare_pkt` builds for any packet with up to 4095 payload octets, CRC on or off, is delivered once with the same fields and payload, if it is awaited when its leading 0xc0 has been consumed |
| Delivery.PieceDelivers | recipes-devtools/rtl-tools/files/hciattach_rtk.c:822-952 | The same for a frame whose leading delimiter has been consumed; the receiver ends in the start state |
| Delivery.Synchronises | recipes-devtools/rtl-tools/files/hciattach_rtk.c:828-917 | From every reachable state one 0xc0 leads to the start state with no buffer and nothing outstanding, after at most one delivery |
| Delivery.DamagedPacketRejected | recipes-devtools/rtl-tools/files/hciattach_rtk.c:892-901 | A packet with CRC damaged within two adjacent octets, wherever they are, is never delivered, as long as its fields for check and length survive |
| Delivery.DamagedPayloadRejected | recipes-devtools/rtl-tools/files/hciattach_rtk.c:892-901 | A packet with CRC whose payload or check octets are damaged within two adjacent octets is never delivered |
| Delivery.DamagedHeaderRejected | recipes-devtools/rtl-tools/files/hciattach_rtk.c:843-852 | A packet with one damaged header octet changes nothing in the link at all |
| Delivery.CompleteFacts | recipes-devtools/rtl-tools/files/hciattach_rtk.c:766-817 | Completion logs the packet once and moves the awaited number to its successor modulo 8 for reliable packets, and the handlers leave the transport state alone |
| Delivery.CopyEffect | recipes-devtools/rtl-tools/files/hciattach_rtk.c:843-917 | A copy of a reliable packet, cut anywhere, delivers it if and only if the copy is whole and its number is awaited |
| Delivery.CopiesEffect | recipes-devtools/rtl-tools/files/hciattach_rtk.c:843-917 | Any number of copies, whole or cut, deliver an awaited packet once if one of them is whole, and a packet that is not awaited never |
| Delivery.ExactlyOnceInOrder | recipes-devtools/rtl-tools/files/hciattach_rtk.c:843-875 | If consecutive reliable packets are each sent any number of times, cut anywhere but at least once whole, the log grows by exactly these packets, each once and in order, as long as the resync rule does not apply |
| Delivery.ThreeCopies | recipes-devtools/rtl-tools/files/hciattach_rtk.c:870-872 | Three whole copies of an awaited packet are delivered once if the first does not leave the rule in force, and twice if it does |
| Delivery.ResyncRuleIsTheException | recipes-devtools/rtl-tools/files/hciattach_rtk.c:870-872 | From a state between packets, every line of consecutive reliable packets, however often sent and cut, is delivered exactly once if and only if the resync rule does not apply to begin with |
| Planner.RolledIndexIsTotal | recipes-devtools/rtl-tools/files/hciattach_rtk.c:1509-1515 | The index a packet waits for equals the number of the last packet exactly for the last of at most 128 packets |
| Driver.ResyncOnShortDownloadsOnly | recipes-devtools/rtl-tools/files/hciattach_rtk.c:870-872 | While a packet of a download is under way the resync rule applies exactly if the link is still being patched, the packet is the last, and there are at most 128 |
| Delivery.ReliableIsAcknowledged | recipes-devtools/rtl-tools/files/hciattach_rtk.c:766-817 | Before `h5_complete_rx_pkt` returns, a reliable packet has led to exactly one acknowledgement, the last of the writes, carrying its number + 1 modulo 8 and a check exactly if one was agreed on, and no request is pending |
| Delivery.RepliesAreNoAcks | recipes-devtools/rtl-tools/files/hciattach_rtk.c:708-761 | The sync and config replies written in between are not acknowledgements of any number |
| Handshake.SyncExchange | recipes-devtools/rtl-tools/files/hciattach_rtk.c:708-761 | Two parties: what a host in SYNC or CONFIG writes on a sync request moves a peer in SYNC to CONFIG |
| Handshake.ConfigExchange | recipes-devtools/rtl-tools/files/hciattach_rtk.c:708-761 | What a host in CONFIG writes on a config request moves a peer in CONFIG to INIT |
| Handshake.SyncIsAnswered | recipes-devtools/rtl-tools/files/hciattach_rtk.c:708-761 | A sync request is answered by the sync reply and leaves the state; an acknowledgement follows exactly if one was due |
| Handshake.ConfigIsAnswered | recipes-devtools/rtl-tools/files/hciattach_rtk.c:708-761 | The same for a config request and the config reply |
| Handshake.OthersAreIgnored | recipes-devtools/rtl-tools/files/hciattach_rtk.c:708-761 | In SYNC all other link control packets change nothing |
| Handshake.UnknownIsAcknowledged | recipes-devtools/rtl-tools/files/hciattach_rtk.c:708-761 | In CONFIG all other link control packets are acknowledged once |
| Handshake.ControlIsOver | recipes-devtools/rtl-tools/files/hciattach_rtk.c:708-761 | From INIT on link control packets change nothing and are not answered |
| Handshake.SyncResponseMoves | recipes-devtools/rtl-tools/files/hciattach_rtk.c:708-761 | A sync response moves SYNC to CONFIG |
| Handshake.ConfigResponseMoves | recipes-devtools/rtl-tools/files/hciattach_rtk.c:708-761 | A config response moves CONFIG to INIT, and `use_crc` becomes bit 4 of its octet 2 if it has one |
| Handshake.CheckIsNegotiated | recipes-devtools/rtl-tools/files/hciattach_rtk.c:708-761 | Every packet prepared after that response carries a check exactly if that bit was set |
| Handshake.TakenIsAcknowledged | recipes-devtools/rtl-tools/files/hciattach_rtk.c:447-470 | Every packet of any type prepared after a reliable one was taken acknowledges it |
| Handshake.RepeatIsAcknowledged | recipes-devtools/rtl-tools/files/hciattach_rtk.c:854-875 | After a reliable packet that was taken before, the next packet that completes is followed by an acknowledgement |
| Handshake.CompletionWhileInit | recipes-devtools/rtl-tools/files/hciattach_rtk.c:562-627 | A completion built by a controller succeeds during initialisation exactly for the pending opcode and status 0, and is counted then for the five commands that count |
| Handshake.CompletionAfterDownload | recipes-devtools/rtl-tools/files/hciattach_rtk.c:632-667 | After the download it activates the link exactly for the pending reset and status 0 |
| Handshake.ShortCompletionEnds | recipes-devtools/rtl-tools/files/hciattach_rtk.c:562-586 | A command complete event of fewer than 5 octets ends the process |
| Handshake.OtherTypesAreIgnored | recipes-devtools/rtl-tools/files/hciattach_rtk.c:783-811 | Packets of other types are logged, and acknowledged if an acknowledgement was due |
| Buffers.Skb.constructor | recipes-devtools/rtl-tools/files/hciattach_rtk.c:172-187 | A new buffer is empty and has the capacity asked for |
| Buffers.Skb.Put | recipes-devtools/rtl-tools/files/hciattach_rtk.c:199-209 | Appends exactly if the check of `skb_put` passes, and otherwise changes nothing; after a pull that check alone does not keep the write inside the memory, and the contract asks the caller for the rest |
| Buffers.Skb.Trim | recipes-devtools/rtl-tools/files/hciattach_rtk.c:215-222 | Shortens the length only; the octets stay in memory |
| Buffers.Skb.Pull | recipes-devtools/rtl-tools/files/hciattach_rtk.c:229-238 | Drops octets from the front exactly if there are as many, and moves no octet |
| Buffers.Skb.Peek | recipes-devtools/rtl-tools/files/hciattach_rtk.c:84-89 | Reads through the moved data pointer, also beyond the trimmed length |
| Buffers.SlipOneByte | recipes-devtools/rtl-tools/files/hciattach_rtk.c:300-328 | Appends the coding of one octet if the check passes, and otherwise changes nothing |
| Uart.EncodePart | recipes-devtools/rtl-tools/files/hciattach_rtk.c:472-486 | The encoding loops append the SLIP coding of a whole part and run the CRC over the uncoded octets |
| Uart.FillPacket | recipes-devtools/rtl-tools/files/hciattach_rtk.c:441-497 | The buffer holds exactly the frame: delimiters, coded header, payload and check octets; the allocation always suffices |
| Uart.H5Link.constructor | recipes-devtools/rtl-tools/files/hciattach_rtk.c:2004-2060 | The link starts idle with all counters at 0 and no live buffer |
| Uart.H5Link.PreparePkt | recipes-devtools/rtl-tools/files/hciattach_rtk.c:409-498 | Builds the encoding of the packet the transport state calls for, uses up a sequence number exactly for reliable types, clears the pending acknowledgement, and refuses unknown types without effect |
| Uart.H5Link.BuildHeader | recipes-devtools/rtl-tools/files/hciattach_rtk.c:447-470 | The four header octets of that packet |
| Uart.H5Link.SendAck | recipes-devtools/rtl-tools/files/hciattach_rtk.c:546-557 | Writes one acknowledgement frame and frees its buffer |
| Uart.H5Link.PullCommandComplete | recipes-devtools/rtl-tools/files/hciattach_rtk.c:568-586 | Recognises the completion of the pending command; an event shorter than 5 octets ends the process |
| Uart.H5Link.InitHciCc | recipes-devtools/rtl-tools/files/hciattach_rtk.c:562-627 | Command completion during initialisation counts a command only where the opcode is the pending one and the status is 0 |
| Uart.H5Link.PostHciCc | recipes-devtools/rtl-tools/files/hciattach_rtk.c:632-667 | Command completion after the download activates the link |
| Uart.H5Link.HciRecvFrame | recipes-devtools/rtl-tools/files/hciattach_rtk.c:673-703 | Command complete events go by link state to initialisation, patch index or reset |
| Uart.H5Link.HandleInternalRx | recipes-devtools/rtl-tools/files/hciattach_rtk.c:708-761 | Sync and config packets are answered and move the link |
| Uart.H5Link.EnterPacket | recipes-devtools/rtl-tools/files/hciattach_rtk.c:771-781 | Acknowledgement bookkeeping on a completed packet |
| Uart.H5Link.DispatchPacket | recipes-devtools/rtl-tools/files/hciattach_rtk.c:783-806 | Each packet type reaches its own handler and no other |
| Uart.H5Link.AcknowledgePacket | recipes-devtools/rtl-tools/files/hciattach_rtk.c:808-811 | A pending request is answered by one acknowledgement |
| Uart.H5Link.CompleteRxPkt | recipes-devtools/rtl-tools/files/hciattach_rtk.c:766-817 | The whole completion: link, log and writes as specified, the buffer freed once, the receiver hunting again |
| Uart.H5Link.StoreByte | recipes-devtools/rtl-tools/files/hciattach_rtk.c:338-402 | Stores one octet in the receive buffer, which always has room |
| Uart.H5Link.UnslipOneByte | recipes-devtools/rtl-tools/files/hciattach_rtk.c:338-402 | All escape cases on the fields in place, dropping the packet on an invalid escape |
| Uart.H5Link.DropPacket | recipes-devtools/rtl-tools/files/hciattach_rtk.c:392-397 | A dropped packet frees its buffer, which was live, and the receiver hunts for a delimiter |
| Uart.H5Link.ShortPacket | recipes-devtools/rtl-tools/files/hciattach_rtk.c:829-834 | A delimiter inside a packet frees its buffer, and is the start of the next packet |
| Uart.H5Link.ReadHeader | recipes-devtools/rtl-tools/files/hciattach_rtk.c:843-879 | The header fields as read from the receive buffer agree with the frame format |
| Uart.H5Link.RefuseSeqno | recipes-devtools/rtl-tools/files/hciattach_rtk.c:855-872 | An unexpected number is answered by an acknowledgement later, and adopted where the resync rule applies |
| Uart.H5Link.OnHeader | recipes-devtools/rtl-tools/files/hciattach_rtk.c:843-880 | Checksum, sequence number and resync rule, in this order, then the size of the payload |
| Uart.H5Link.OnData | recipes-devtools/rtl-tools/files/hciattach_rtk.c:882-890 | Packets with CRC wait for two more octets, the others are completed |
| Uart.H5Link.OnCheck | recipes-devtools/rtl-tools/files/hciattach_rtk.c:892-904 | Packets are completed without their check octets if those match, and dropped otherwise |
| Uart.H5Link.OnStart | recipes-devtools/rtl-tools/files/hciattach_rtk.c:919-945 | The first octet after a delimiter starts a packet in a fresh buffer |
| Uart.H5Link.SwitchState | recipes-devtools/rtl-tools/files/hciattach_rtk.c:842-949 | The switch of the loop does on the object what its turn does on values, in each of the five states |
| Uart.H5Link.RecvTurn | recipes-devtools/rtl-tools/files/hciattach_rtk.c:827-950 | One turn of the loop on the object refines the turn on values; no buffer of others is touched |
| Uart.H5Link.Recv | recipes-devtools/rtl-tools/files/hciattach_rtk.c:822-952 | `h5_recv` on the object, with its buffers and counters updated in place, refines the receiver on values for every octet stream; only the current receive buffer is live, so each buffer is freed exactly once |
| Ladder.InternalMoves | recipes-devtools/rtl-tools/files/hciattach_rtk.c:708-761 | A link control packet moves the link only from SYNC to CONFIG on a sync response and from CONFIG to INIT on a config response, and `use_crc` changes on the latter only |
| Ladder.RecvFrameMoves | recipes-devtools/rtl-tools/files/hciattach_rtk.c:673-703 | An event moves the link only from PATCH to HCI_RESET on an index with bit 0x80 and from HCI_RESET to ACTIVE on a successful reset completion; the held index and the command count change only in their own states |
| Ladder.CompleteMoves | recipes-devtools/rtl-tools/files/hciattach_rtk.c:766-817 | What a completed packet changes in the link is one of these moves, justified by that packet |
| Ladder.CompleteIsLater | recipes-devtools/rtl-tools/files/hciattach_rtk.c:766-817 | A completed packet moves the link at most one rank up, never down |
| Ladder.OutOfOrderIsLater | recipes-devtools/rtl-tools/files/hciattach_rtk.c:854-875 | A packet out of order never moves the ladder |
| Ladder.RecvIsLater | recipes-devtools/rtl-tools/files/hciattach_rtk.c:822-952 | Over every octet stream the link never goes back, logs and writes only grow, the sequence number does not move, and a changed index was carried by a packet delivered in between |
| Runs.StepNeverBack | recipes-devtools/rtl-tools/files/hciattach_rtk.c:1984 | No step of the program, the begin of the download included, takes the link back |
| Runs.LadderNeverGoesBack | recipes-devtools/rtl-tools/files/hciattach_rtk.c:632-761 | Between any two points of any run the rank of the link does not fall and `use_crc` changes only on the way from CONFIG to INIT |
| Runs.ActiveNeedsTheLadder | recipes-devtools/rtl-tools/files/hciattach_rtk.c:632-761 | In every run that reaches ACTIVE the log holds, in this order, a sync response, a config response, an index with bit 0x80 and a successful reset completion |
| Runs.NumberingIsConsecutive | recipes-devtools/rtl-tools/files/hciattach_rtk.c:455-461 | In every run `msgq_txseq` is the number of reliable packets prepared modulo 8: retransmissions, acknowledgements and receptions use up none |
| Completions.RecvCounts | recipes-devtools/rtl-tools/files/hciattach_rtk.c:562-627 | Over every octet stream the command counter grows, modulo 65536, by the number of packets that complete the pending command successfully while the link is being initialised |
| Completions.CounterCountsCompletions | recipes-devtools/rtl-tools/files/hciattach_rtk.c:562-627 | In every run the counter is the number of counted completions modulo 65536 |
| Completions.SuccessIsCounted | recipes-devtools/rtl-tools/files/hciattach_rtk.c:562-627 | A wait that ends in the success of a counted command has counted it |
| Completions.CommandIsCounted | recipes-devtools/rtl-tools/files/hciattach_rtk.c:562-627 | From the preparation of a counted command to its success the count of the run grows |
| Planner.LastPartFits | recipes-devtools/rtl-tools/files/hciattach_rtk.c:1468-1475 | All data packets but the last are full, and the last has 1 to 252 octets that end exactly at the end of the image |
| Planner.SentIsPrefix | recipes-devtools/rtl-tools/files/hciattach_rtk.c:1508-1561 | The data of the packets sent so far is a prefix of the image |
| Planner.ImageIsConserved | recipes-devtools/rtl-tools/files/hciattach_rtk.c:1508-1561 | The data of all packets is exactly the image, packets after the last data packet carry none, and no packet exceeds 252 octets |
| Planner.CommandsCarryImage | recipes-devtools/rtl-tools/files/hciattach_rtk.c:1508-1561 | The data parts of the planned commands, put together, are exactly the image |
| Planner.PatchCommandIsRead | recipes-devtools/rtl-tools/files/hciattach_rtk.c:1145-1151 | A controller that takes a little-endian opcode and a length octet reads the download command as opcode 0xfc20 with the index and the data as parameters |
| Planner.DownloadIsRead | recipes-devtools/rtl-tools/files/hciattach_rtk.c:1508-1561 | Such a controller reads the whole image off the commands of a plan, and in each command, bit 0x80 aside, the index that the answer to it carries |
| Planner.WaitIndexAsCommented | recipes-devtools/rtl-tools/files/hciattach_rtk.c:1509-1515 | Up to packet 254 the index waited for is the one of the comment, on the last packet too |
| Planner.Padding | recipes-devtools/rtl-tools/files/hciattach_rtk.c:1471-1497 | At most 7 packets are added, so that commands, packets and the final reset come to a multiple of 8; none for H4 |
| Planner.PaddingIsUnique | recipes-devtools/rtl-tools/files/hciattach_rtk.c:1471-1497 | No other count of at most 7 does this |
| Planner.PlanDownload | recipes-devtools/rtl-tools/files/hciattach_rtk.c:1468-1497 | The 16-bit counters hold the last data packet, its length and the last packet without wrapping |
| Planner.PaddingAligns | recipes-devtools/rtl-tools/files/hciattach_rtk.c:1471-1497 | Completed commands, all packets and the reset together are a multiple of 8, for every image size and every prior command count |
| Planner.PaddingClosesSequence | recipes-devtools/rtl-tools/files/hciattach_rtk.c:1471-1497 | After the download and the reset the sequence number is 0 if and only if the completions counted agree modulo 8 with the commands sent |
| Planner.WaitIndexChanges | recipes-devtools/rtl-tools/files/hciattach_rtk.c:1509-1539 | Each packet waits for an index other than that of its predecessor, however many there are |
| Planner.RollIndexAsCommented | recipes-devtools/rtl-tools/files/hciattach_rtk.c:1509-1515 | The formula numbers the packets as its comment says if and only if the last packet number is at most 254 |
| Planner.LastBitIsUnique | recipes-devtools/rtl-tools/files/hciattach_rtk.c:1517-1539 | Bit 0x80 marks the last packet and no other if and only if the last packet number is at most 255 |
| Planner.AllowedSizeExceedsIndex | recipes-devtools/rtl-tools/files/hciattach_rtk.c:1907 | A size that the limit lets pass needs more packets than both bounds allow |
| Planner.ChoosePacket | recipes-devtools/rtl-tools/files/hciattach_rtk.c:1512-1539 | The branches of the download loop give each packet its index octet and its length |
| Planner.CutPacket | recipes-devtools/rtl-tools/files/hciattach_rtk.c:1506-1561 | The moving data pointer yields exactly the part of the image that belongs to the packet |
| Planner.PacketAdvances | recipes-devtools/rtl-tools/files/hciattach_rtk.c:1558-1560 | Although the pointer moves by a test on the rolled index, it moves after every packet before the last data packet; and the index waited for is never -1 or that of the packet before |
| Driver.H5Driver.constructor | recipes-devtools/rtl-tools/files/hciattach_rtk.c:2004-2060 | A run starts with an idle link and nothing sent |
| Driver.H5Driver.Receive | recipes-devtools/rtl-tools/files/hciattach_rtk.c:976-1119 | Reading from the port and receiving is one more step of the run |
| Driver.H5Driver.Transmit | recipes-devtools/rtl-tools/files/hciattach_rtk.c:976-1119 | Sending or sending again writes the frame unchanged and changes nothing else in the link |
| Driver.H5Driver.PrepareFrame | recipes-devtools/rtl-tools/files/hciattach_rtk.c:409-498 | Preparing a frame is one more step of the run and leaves a buffer of the caller's own |
| Transcript.RecvWrites | recipes-devtools/rtl-tools/files/hciattach_rtk.c:708-817 | Whatever comes in, the link writes sync and config replies and acknowledgements only |
| Transcript.CommandIsFaithful | recipes-devtools/rtl-tools/files/hciattach_rtk.c:976-1119 | After a command and its repeats the line still holds every command first at increasing positions, command i under sequence number i modulo 8, and otherwise answers, link control and repeats of the command under way |
| Transcript.OthersAreFaithful | recipes-devtools/rtl-tools/files/hciattach_rtk.c:546-557 | Writes that are no commands leave that so |
| Transcript.CommandIsUnique | recipes-devtools/rtl-tools/files/hciattach_rtk.c:409-498 | What is on the line as a command determines its number and its payload |
| Driver.H5Driver.HandleEvent | recipes-devtools/rtl-tools/files/hciattach_rtk.c:976-1119 | One event, as steps of the run: what was read is received; a timeout with retries left writes the frame once more and uses up one; a fault or a timeout with none left ends the process |
| Driver.H5Driver.HandleEvents | recipes-devtools/rtl-tools/files/hciattach_rtk.c:976-1119 | The events of one `epoll_wait` in order: the run grows by exactly one reception per read and one write of the frame per expired timer, as long as the process lives, and the retries left are what these events leave |
| Driver.H5Driver.Wait | recipes-devtools/rtl-tools/files/hciattach_rtk.c:976-1119 | One `epoll_wait`: an error ends the process, otherwise the run grows by exactly the steps of its events |
| Driver.H5Driver.WaitFor | recipes-devtools/rtl-tools/files/hciattach_rtk.c:1211-1276 | The loop of both waiting functions: the run grows by exactly the steps of the waits used up, and it ends with the first of them after which the condition holds |
| Waits.WaitsSnoc | recipes-devtools/rtl-tools/files/hciattach_rtk.c:976-1119 | One wait more takes its steps up where the retries of the waits before leave off |
| Waits.BatchGoesOn | recipes-devtools/rtl-tools/files/hciattach_rtk.c:1029-1083 | Event by event a batch comes to its steps; a timer read cut short leaves out the rest of it |
| Waits.WaitingGoesOn | recipes-devtools/rtl-tools/files/hciattach_rtk.c:1211-1276 | As long as the condition fails the waiting goes on, with the retries the waits have left |
| Driver.H5Driver.StartTransmitWait | recipes-devtools/rtl-tools/files/hciattach_rtk.c:976-1119 | Refuses exactly a command that is not the pending one; otherwise the frame is written first, the run then grows by exactly the steps of the waits used up, and the first wait after which the condition holds is the last |
| Driver.H5Driver.Exchange | recipes-devtools/rtl-tools/files/hciattach_rtk.c:1289-1326 | A frame is built from the transport state, written first and then once for each expired timer, its wait ends with what it waits for, and its buffer is freed |
| Driver.H5Driver.SendControl | recipes-devtools/rtl-tools/files/hciattach_rtk.c:1353-1371 | The first write is the encoding of the link control packet; no number is used up and no command is sent |
| Driver.H5Driver.SendCommand | recipes-devtools/rtl-tools/files/hciattach_rtk.c:1381-1404 | A command that a controller reads as this opcode goes on the line after the commands before it, under the next sequence number; success means that a fresh packet completes this opcode with status 0, and that a counted command was counted |
| Driver.H5Driver.InitH5 | recipes-devtools/rtl-tools/files/hciattach_rtk.c:1334-1379 | Link establishment that returns 0 has reached INIT, has put the sync request, the config request and at the end an acknowledgement on the line in this order, and has used up no sequence number |
| Driver.H5Driver.SendAckFrame | recipes-devtools/rtl-tools/files/hciattach_rtk.c:546-557 | One acknowledgement of the last reliable packet taken, with a check exactly if one was agreed on; no number is used up |
| Driver.H5Driver.InitCommand | recipes-devtools/rtl-tools/files/hciattach_rtk.c:1703-1726 | An init command uses up one sequence number, leaves the link in INIT, and succeeds only on a fresh completion of its own opcode, which is counted |
| Driver.H5Driver.HciReset | recipes-devtools/rtl-tools/files/hciattach_rtk.c:1381-1404 | The reset that returns has activated the link, on a fresh completion of the reset |
| Driver.H5Driver.SendPatch | recipes-devtools/rtl-tools/files/hciattach_rtk.c:1121-1205 | A download packet is written once as the encoding of the command with this index and data under the next sequence number |
| Driver.H5Driver.DownloadPatch | recipes-devtools/rtl-tools/files/hciattach_rtk.c:1121-1284 | Stop and wait: the command goes on the line under the next number, the run then grows by exactly the steps of the waits used up; if the index waited for is not held already, success means that a fresh event carrying it arrived after the packet was prepared, while the link was being patched |
| Driver.H5Driver.SendPacket | recipes-devtools/rtl-tools/files/hciattach_rtk.c:1508-1561 | One turn of the download loop on H5: the right command, a fresh answer, the data pointer at the next part |
| Driver.H5Driver.SendPackets | recipes-devtools/rtl-tools/files/hciattach_rtk.c:1508-1561 | The loop puts exactly the planned commands on the line, in order, and each was answered in turn, at increasing positions of the log, by an event with its own index |
| Driver.H5Driver.DownloadFwc | recipes-devtools/rtl-tools/files/hciattach_rtk.c:1451-1580 | A download that succeeds has put exactly the planned commands and the reset on the line, in order and each under its own number; every packet was answered by its own index in order, and the link is active |
| Driver.H5Driver.ReadVersions | recipes-devtools/rtl-tools/files/hciattach_rtk.c:1742-1745 | The two version commands, in order |
| Driver.H5Driver.IdentifyChip | recipes-devtools/rtl-tools/files/hciattach_rtk.c:1742-1822 | The version commands and, exactly if asked for, the chip type command |
| Driver.H5Driver.SendImage | recipes-devtools/rtl-tools/files/hciattach_rtk.c:1917-1997 | Baud rate command if there is one, then exactly the commands of the plan and the reset; the sequence number ends at 0 if and only if completions counted and commands sent agree modulo 8 |
| Driver.H5Driver.Attach | recipes-devtools/rtl-tools/files/hciattach_rtk.c:1733-2060 | The whole attach sequence from a fresh link: it refuses an image exactly if it is too long; after a download the commands on the line are the init commands, the plan of the image and the reset, the link is active, every init command was counted at least once, and the sequence number is 0 if and only if the init commands and the completions counted in the whole run agree modulo 8, which they do where each was completed once |
| Driver.InitOpcodes | recipes-devtools/rtl-tools/files/hciattach_rtk.c:1651-1726 | A controller reads the init commands as the opcodes that their waits are for |
| Driver.BaudOpcode | recipes-devtools/rtl-tools/files/hciattach_rtk.c:1289-1315 | And the baud rate command with its four octets |
| Driver.EarlyLastIndexBlocks | recipes-devtools/rtl-tools/files/hciattach_rtk.c:1512 | Where there are more than 256 packets and the controller echoes the 0x80 of packet 255, the index of packet 256 is never taken, whatever comes in: its wait never succeeds |
| Driver.EarlyLastIndexIsReached | recipes-devtools/rtl-tools/files/hciattach_rtk.c:1512 | Every link that is being patched gets there on one event, and any download of more than 256 packets |
| Driver.EchoStep | recipes-devtools/rtl-tools/files/hciattach_rtk.c:684-699 | An echo of the index octet is taken while the link is being patched and not after a final index; a final index ends the patching |
| Driver.EchoedDownloadCompletes | recipes-devtools/rtl-tools/files/hciattach_rtk.c:1512 | If the controller echoes every index octet, with whatever status, the wait for each packet succeeds if and only if there are at most 256 packets |
| Driver.AnyCompletionAnswers | recipes-devtools/rtl-tools/files/hciattach_rtk.c:684-699 | A command complete event of any command and with any status answers a packet if its octet 6 carries the index |
| Driver.AnsweredNext | recipes-devtools/rtl-tools/files/hciattach_rtk.c:1211-1276 | A fresh answer extends the chain of answers in order |
| H4Transfer.ScanEvent | recipes-devtools/rtl-tools/files/hciattach_h4.c:57-161 | A whole event at the front of the stream is found if it is a command complete event and passed over otherwise |
| H4Transfer.H4Port.Read | recipes-devtools/rtl-tools/files/hciattach_h4.c:57-161 | A read takes a prefix of what has arrived, any length the kernel likes, and puts it at its place |
| H4Transfer.ReadParams | recipes-devtools/rtl-tools/files/hciattach_h4.c:57-161 | A parameter read of any length loses and reorders nothing |
| H4Transfer.ReadType | recipes-devtools/rtl-tools/files/hciattach_h4.c:89-100 | Octets before an event are skipped one by one without a change in what the stream means |
| H4Transfer.ReadHeader | recipes-devtools/rtl-tools/files/hciattach_h4.c:101-117 | A header read whole loses nothing; it fails exactly on an event too long, and is cut exactly where the stream ends within it |
| H4Transfer.ReadTurn | recipes-devtools/rtl-tools/files/hciattach_h4.c:57-161 | One turn of the reading state machine keeps the meaning of the stream, and nothing is written outside the 64-octet buffer |
| H4Transfer.Judge | recipes-devtools/rtl-tools/files/hciattach_h4.c:57-161 | A command complete event decides the transfer: 0 exactly for the opcode sent and status 0, with a prefix of the event as response |
| H4Transfer.CompletesOne | recipes-devtools/rtl-tools/files/hciattach_h4.c:129-148 | An event completes one command at most |
| H4Transfer.CompletesItsCommand | recipes-devtools/rtl-tools/files/hciattach_h4.c:129-148 | The completion that a controller builds for a command completes it exactly if its status is 0, and completes no other |
| H4Transfer.Serve | recipes-devtools/rtl-tools/files/hciattach_h4.c:57-161 | One read of any length, of a whole header at least in that state: the transfer ends as the reference scan says, or what is left means the same and is smaller |
| H4Transfer.PollTurn | recipes-devtools/rtl-tools/files/hciattach_h4.c:57-161 | One poll, by its kind: an error ends the transfer, a timeout writes the command again or ends the process where no retries are left, and a read on a quiet port keeps the meaning of the stream and leaves less of it |
| H4Transfer.StartXferWait | recipes-devtools/rtl-tools/files/hciattach_h4.c:31-164 | The command is written once and once more for each timeout while there are retries, and the process ends with the first timeout beyond them; on a quiet port the transfer returns 0 exactly if octets 4 and 5 of the first command complete event of the stream are the opcode sent and its status is 0, for any split of the payload reads, single octets included, and any other events first, and leaves what follows that event to be read |
| H4Transfer.ResentTurn | recipes-devtools/rtl-tools/files/hciattach_h4.c:49-84 | Poll by poll the writes stay in step with the timeouts |
| H4Transfer.NothingFound | recipes-devtools/rtl-tools/files/hciattach_h4.c:57-161 | A partial event with nothing behind it is not taken for a whole one |
| H4Transfer.DownloadPatch | recipes-devtools/rtl-tools/files/hciattach_h4.c:166-197 | Exactly one download command is written; on a quiet port the result is the index of the answer if it completes the command and carries one, and -1 otherwise |
| H4Transfer.SendPacket | recipes-devtools/rtl-tools/files/hciattach_rtk.c:1508-1561 | One turn of the download loop on H4: the command of the plan is written once, and the loop goes on exactly if the packet is the last or its answer acknowledges it with its own index |
| H4Transfer.H4CommandsCarryImage | recipes-devtools/rtl-tools/files/hciattach_rtk.c:1508-1561 | The data parts of the H4 commands, put together, are exactly the image |
| H4Transfer.H4DownloadIsRead | recipes-devtools/rtl-tools/files/hciattach_h4.c:166-197 | Behind the packet type 0x01 a controller reads the whole image off the H4 commands, and in each the index of its packet |
| H4Transfer.DownloadFwc | recipes-devtools/rtl-tools/files/hciattach_rtk.c:1451-1580 | Exactly the commands of the plan and the reset are written, or a proper prefix on failure; on a quiet port, if it returns, it returns 0 if and only if every command is answered, every packet before the last is acknowledged with its own index and the reset succeeds; and it does return if every command is answered |
| H4Transfer.AnswersDecide | recipes-devtools/rtl-tools/files/hciattach_rtk.c:1547-1561 | On a stream of one completion per command the download is accepted if and only if each packet before the last is acknowledged by its own completion and the last event completes the reset |
| H4Transfer.OtherCompletionFails | recipes-devtools/rtl-tools/files/hciattach_rtk.c:1547-1561 | The completion of another command as the answer to a packet before the last, or to the reset, fails the download |
| H4Transfer.LastAnswerIsIgnored | recipes-devtools/rtl-tools/files/hciattach_rtk.c:1547-1551 | Whatever command complete event answers the last packet, there is a stream with that answer on which the download succeeds |
| H4Transfer.RefusedDownloadIsAccepted | recipes-devtools/rtl-tools/files/hciattach_rtk.c:1547-1551 | A download of any length returns 0 on a stream in which the controller refuses the last packet with status 1 |
| ConfigItems.MergedOctets | recipes-devtools/rtl-tools/files/rtb_fwc.c:576-633 | Every octet of a merged item comes from the last extra of its offset that reaches so far, and from the base item where none does |
| ConfigItems.MergedIsMerge | recipes-devtools/rtl-tools/files/rtb_fwc.c:576-633 | Where no extra has an offset that occurs twice in the base, every base item keeps its place and takes each octet from the last extra that reaches it or else from itself, and exactly the extras of other offsets follow, in order |
| ConfigItems.UnmatchedPicks | recipes-devtools/rtl-tools/files/rtb_fwc.c:623-632 | The extras that no base item answers to follow at increasing positions, none missing |
| ConfigItems.LongerExtraWins | recipes-devtools/rtl-tools/files/rtb_fwc.c:576-633 | An extra at least as long as what is there replaces it altogether |
| ConfigItems.AppliedAt | recipes-devtools/rtl-tools/files/rtb_fwc.c:599-619 | Of all places of its offset up to the first longer item, or else up to the last place, an extra leaves that one only, overridden, and nothing else changes |
| ConfigItems.PlacesAreKept | recipes-devtools/rtl-tools/files/rtb_fwc.c:599-619 | Every base item keeps its place if and only if the extra meets no second item of its offset after one that is not longer than it |
| ConfigItems.AllPlacesAreKept | recipes-devtools/rtl-tools/files/rtb_fwc.c:576-633 | The merge with any extras keeps every base item in its place if and only if none of the extras by itself would lose one |
| ConfigItems.FoldedIsOverridden | recipes-devtools/rtl-tools/files/rtb_fwc.c:576-633 | Where no extra has an offset that occurs twice in the base, each base item keeps its place and is folded with the extras of its offset in order |
| ConfigItems.AppliedKeeps | recipes-devtools/rtl-tools/files/rtb_fwc.c:599-619 | An extra never changes which offsets occur |
| ConfigItems.OverriddenKeepsOffsets | recipes-devtools/rtl-tools/files/rtb_fwc.c:576-633 | Base items keep their places and offsets, and offsets stay unique |
| ConfigItems.OverrideOne | recipes-devtools/rtl-tools/files/rtb_fwc.c:599-619 | Where its offset occurs once an extra changes exactly that base item |
| ConfigItems.MergedOk | recipes-devtools/rtl-tools/files/rtb_fwc.c:576-633 | Merging keeps all items printable |
| ConfigRings.InitListHead | recipes-devtools/rtl-tools/files/rtb_fwc.c:280-284 | An initialised head is an empty ring |
| ConfigRings.ListEmpty | recipes-devtools/rtl-tools/files/rtb_fwc.c:286-289 | A ring is empty exactly if its head points to itself |
| ConfigRings.ListAddTail | recipes-devtools/rtl-tools/files/rtb_fwc.c:291-304 | The ring grows by the entry at its end, next and prev inverse |
| ConfigRings.ListDel | recipes-devtools/rtl-tools/files/rtb_fwc.c:306-319 | The ring loses exactly the entry, wherever it is |
| ConfigRings.ListReplaceInit | recipes-devtools/rtl-tools/files/rtb_fwc.c:342-356 | The new entry takes the place of the old one |
| ConfigRings.ListSpliceTail | recipes-devtools/rtl-tools/files/rtb_fwc.c:321-340 | All entries of one ring join the end of another, in order |
| ConfigRings.SpliceAndInit | recipes-devtools/rtl-tools/files/rtb_fwc.c:589-593 | After the splice the emptied head is a ring of its own again |
| ConfigStore.ConfigLists.constructor | recipes-devtools/rtl-tools/files/rtb_fwc.c:358-364 | Both lists start empty |
| ConfigStore.ConfigLists.Detach | recipes-devtools/rtl-tools/files/rtb_fwc.c:306-319 | A node leaves its list, whichever it is in, and the other list is untouched |
| ConfigStore.ConfigLists.Update | recipes-devtools/rtl-tools/files/rtb_fwc.c:602-609 | A shorter extra overwrites a prefix of the base item and is freed |
| ConfigStore.ConfigLists.Replace | recipes-devtools/rtl-tools/files/rtb_fwc.c:610-616 | A longer or equal extra takes the place of the base item, which is freed |
| ConfigStore.ConfigLists.Meet | recipes-devtools/rtl-tools/files/rtb_fwc.c:601-617 | Both branches together: the extra leaves its place, in the extras or in the base list, the base value is overridden in its own, and every node stays accounted for |
| ConfigStore.ConfigLists.MeetOnWalk | recipes-devtools/rtl-tools/files/rtb_fwc.c:601-617 | Where the extra is shorter the list is final and the freed extra is read exactly if the item was not the last; otherwise the extra stands in this place and in no earlier one |
| ConfigStore.ConfigLists.ApplyExtra | recipes-devtools/rtl-tools/files/rtb_fwc.c:599-619 | For every base list the inner loop leaves the list that the walk on values leaves, takes the extra off its own list exactly if there is an item of its offset, and tells whether the C loop reads the extra after freeing it: exactly if a longer item of its offset is not the last of the list |
| ConfigStore.ConfigLists.AddConfig | recipes-devtools/rtl-tools/files/rtb_fwc.c:669-675 | A new item at the end of the base list |
| ConfigStore.ConfigLists.AddTail | recipes-devtools/rtl-tools/files/rtb_fwc.c:301-304 | A node of neither list joins the base list at its end |
| ConfigStore.ConfigLists.OverrideNext | recipes-devtools/rtl-tools/files/rtb_fwc.c:596-621 | One turn of the outer loop while its own list is being changed under it |
| ConfigStore.ConfigLists.OverrideExtras | recipes-devtools/rtl-tools/files/rtb_fwc.c:596-621 | After the outer loop the base items have taken in all extras of their offsets in order, and exactly the extras of other offsets are left, in order |
| ConfigStore.ConfigLists.MoveFirst | recipes-devtools/rtl-tools/files/rtb_fwc.c:630-631 | An extra moves from the front of its list to the end of the base list |
| ConfigStore.ConfigLists.AppendExtras | recipes-devtools/rtl-tools/files/rtb_fwc.c:623-632 | All that is left of the extras follows the base items in order |
| ConfigStore.ConfigLists.SpliceExtras | recipes-devtools/rtl-tools/files/rtb_fwc.c:589-593 | All extras join the base list at once |
| ConfigStore.ConfigLists.MergeConfigs | recipes-devtools/rtl-tools/files/rtb_fwc.c:576-633 | For every base list and all extras the pointer-level merge is the merge on sequences; both rings stay well formed, every node is in exactly one list or freed once; and a freed extra is read exactly if one of the extras is shorter than an item of its offset that is not the last |
| ConfigStore.ConfigLists.FreeFirst | recipes-devtools/rtl-tools/files/rtb_fwc.c:376-381 | The first item is unlinked and then freed |
| ConfigStore.ConfigLists.ConfigListsFree | recipes-devtools/rtl-tools/files/rtb_fwc.c:366-386 | In the end both lists are empty and every item has been freed exactly once |
| ConfigCodec.ParsePrintItems | recipes-devtools/rtl-tools/files/rtb_fwc.c:665-684 | Parsing undoes printing for every list of items |
| ConfigCodec.PrintParseItems | recipes-devtools/rtl-tools/files/rtb_fwc.c:665-684 | Printing undoes parsing for every octet sequence of whole items |
| ConfigCodec.FileRoundTrip | recipes-devtools/rtl-tools/files/rtb_fwc.c:1102-1188 | The printed file is accepted if and only if the total length fits 16 bits, and gives back the list |
| ConfigCodec.FileOfParsed | recipes-devtools/rtl-tools/files/rtb_fwc.c:639-687 | Every well-formed file is reproduced octet by octet from the list it parses to |
| ConfigCodec.UnchangedWithoutExtras | recipes-devtools/rtl-tools/files/rtb_fwc.c:1090-1195 | Without extras a file is written back octet by octet if and only if it is accepted, made of whole items and shorter than 65536 octets; the other accepted files lead out of the buffers |
| ConfigCodec.PrinterOverflowIsReached | recipes-devtools/rtl-tools/files/rtb_fwc.c:1102-1188 | A file of 21844 empty items at different offsets is accepted and overruns the printer's buffer |
| ConfigCodec.CutItemIsReached | recipes-devtools/rtl-tools/files/rtb_fwc.c:665-684 | A file of 7 octets is accepted and read beyond its end |
| ConfigCodec.LostItemIsReached | recipes-devtools/rtl-tools/files/rtb_fwc.c:610-616 | A file with one offset twice is accepted, and the merge with one extra of this offset leaves one item of the two |
| ConfigCodec.FreedReadIsReached | recipes-devtools/rtl-tools/files/rtb_fwc.c:602-609 | A file of two items is accepted and makes the merge with one shorter extra read freed memory |
| ConfigCodec.OutcomeWritesMerge | recipes-devtools/rtl-tools/files/rtb_fwc.c:1090-1195 | A written file is accepted again and reads as the merge of what was read with the extras |
| ConfigCodec.OverrideIsWritten | recipes-devtools/rtl-tools/files/rtb_fwc.c:1090-1195 | A file with an item 01 02 and an extra 09 of its offset is written back with 09 02 |
| ConfigCodec.ParseEntries | recipes-devtools/rtl-tools/files/rtb_fwc.c:665-684 | The cursor loop appends exactly the items of the buffer, and leaves the buffer exactly if an item is cut short |
| ConfigCodec.ParseEntry | recipes-devtools/rtl-tools/files/rtb_fwc.c:669-683 | One turn of the cursor loop |
| ConfigCodec.ParseConfig | recipes-devtools/rtl-tools/files/rtb_fwc.c:639-687 | Rejects exactly the files whose magic or length field is wrong; otherwise the base list grows by the items of the file |
| ConfigCodec.CountLengths | recipes-devtools/rtl-tools/files/rtb_fwc.c:1102-1165 | Both 16-bit lengths are those of the list modulo 65536 |
| ConfigCodec.WriteItem | recipes-devtools/rtl-tools/files/rtb_fwc.c:1181-1187 | One item is printed behind what is there |
| ConfigCodec.WriteItems | recipes-devtools/rtl-tools/files/rtb_fwc.c:1181-1188 | The loop stays in the buffer if and only if the items fit, and then the buffer holds their coding in order |
| ConfigCodec.PrintConfigs | recipes-devtools/rtl-tools/files/rtb_fwc.c:1102-1188 | The printer stays inside its allocation if and only if 6 + total is below 65536, and then the buffer is exactly the file of the list, of exactly `config_len` octets |
| ConfigCodec.ReadConfig | recipes-devtools/rtl-tools/files/rtb_fwc.c:1090-1195 | Parse, merge and print together, for every file and all extras: the program ends, leaves its buffers or writes a file, each under its exact condition; the file written is accepted again and its items are those read, octet by octet overridden by the extras of their offsets and followed by the others |

## Left out

- ConfigStore.ConfigLists.MergeConfigs: leaves the inner loop after a shorter extra, because there the C loop goes on comparing an item it has freed (`rtb_fwc.c:608-617`); when that happens is stated, what the freed memory holds is not. After a replacement the loop goes on as in C.
- ConfigStore.ConfigLists.ApplyExtra: the same.
- ConfigCodec.ReadConfig: the same; the fields it stores along the way (baud rate, flow control) and the reading of the file are not modelled, and what happens after a read or write out of bounds is left open.
- H4Transfer.StartXferWait: the exact result is stated for a port without errors and timeouts, on which every read brings at least one octet and the two header octets come together, and for events that fit the 64-octet buffer; outside that only what is written for each poll, the memory bound and the possible results are stated. Reading when nothing has arrived counts as waiting.
- H4Transfer.DownloadPatch: the same.
- H4Transfer.DownloadFwc: the same; only what is written is stated outside that.
- Driver.H5Driver.Attach: the image, the size limit of the chip (any up to the largest of the table) and whether the chip type is read are inputs, and so are the four octets of the baud rate (`hciattach_rtk.c:1289-1315` sends exactly four); the H4 variant of `rtb_config` and its fallbacks are not modelled.
- Uart.H5Link.InitHciCc: the version and chip type fields that completed commands store are not modelled, only the count and the state.
- Driver.H5Driver.InitCommand: the same.
- Driver.H5Driver.StartTransmitWait: the negative result of a failed `writev` is not an outcome, because writes do not fail in the model.
- Uart.H5Link.Recv: in C the pointer to a freed receive buffer stays in place until the next packet; the model clears it. That it is not used in between is part of the invariant.
- Planner.CutPacket: the C pointer is NULL for padding packets and is never followed; the model has no pointer there.
- Planner.ImageIsConserved: stated for images of at least one octet whose packet count fits the 16-bit counters (about 16 MB, far beyond every size limit); the guard at `hciattach_rtk.c:1983` keeps size 0 out.
- `byte_rev_table` is not copied entry by entry; the model computes the reversal it tabulates.
- Real time, termios settings, failing or partial writes, and the disabled `h5_remove_acked_pkt`.
- Patch table lookup, final patch assembly, firmware and text config files, BD address handling, vendor storage: straight copying and finite lookups.
- The other tools, the Weston patches, recipes and scripts.
