# Verified model of the ODILE data-acquisition firmware and server

ODILE is a readout board for CCD detectors. Its FPGA firmware (VHDL) talks UDP over Ethernet to a
C++ server; configuration, sequencer programs and the firmware itself travel over the same link and
live in a flash memory on the board. This project models the parts of both sides where several state
machines have to agree clock by clock, and proves what they achieve together.

Each VHDL process is a record of registers with a `Step` function, one rising edge: signals are read
before the edge, variables change at once. Beside it stands a class whose `Tick` method does the same
work imperatively, in the order of the process, and is proved equal to `Step`. What the circuit
promises is then proved about `Step`, over all runs. The loops of the server are methods with loop
invariants, proved against functions of their inputs.

| file | what it models |
|---|---|
| `Words.dfy`, `InternetChecksum.dfy` | fixed-width words, byte swapping; one's-complement sums (section 1 of RFC 1071) |
| `FrameGenerator.dfy`, `HeaderGenerator.dfy` | the framing machine behind a FIFO of given latency; the Ethernet, IPv4 and UDP header with its checksum circuit |
| `UdpDataBuffer.dfy`, `UdpDataBlock.dfy` | cutting a word stream into packet records; buffer, frame generator and header generator together |
| `FrameReceiver.dfy`, `UdpLink.dfy` | the receiving parser; transmit path and receiver joined by a link with gaps and padding |
| `UdpDataArbiter.dfy`, `ConfigBlockScanner.dfy`, `ScannerOverArbiter.dfy` | the five-client arbiter; the configuration scanner; both together under contention |
| `InputFifoManager.dfy`, `EthernetDataBlock.dfy`, `EthernetDataFrames.dfy` | FIFO choice and near-full guard; the data block built on them; the data block with its header generator, frame by frame |
| `IcmpBlock.dfy`, `EchoPath.dfy` | echo replies and their checksum; from an echo request on the wire to the reply, and ARP frames at the receiver |
| `ConfigRegisterBlock.dfy`, `ConfigDump.dfy` | a register block; scanner, delay lines, all blocks and the reply multiplexer together |
| `ServerConfig.dfy` | the server's configuration messages and what they do to the registers |
| `FlashWriter.dfy`, `FlashConfig.dfy`, `ConfigLoader.dfy` | writing flash; the configuration layout; the loader that reads it back |
| `CommandChannel.dfy` | sending and parsing three-letter commands |
| `SequencerInterface.dfy` | writing, erasing and dumping the sequencer memories |

## Where the code does not do what one would expect

The model follows the code. Each of these is a lemma, with the exact condition where there is one.

- The last adder of both checksum circuits is 16 bits wide. It loses the end-around carry, and the
  checksum is wrong exactly then (`HeaderGenerator.ChecksumVerifies`, `HeaderGenerator.ChecksumCanFail`,
  `IcmpBlock.ReplyVerifiesIff`, `IcmpBlock.ReplyCanFail`).
- Without the Ethernet header the IPv4 checksum sent is that of an earlier header, or the reset value
  (`HeaderGenerator.OwnChecksumIff`, `HeaderGenerator.StaleChecksumIsSent`).
- A frame generator configured for latency 0, and no other, takes one word too many (`FrameGenerator.ExactRequestsIff`).
- An end-of-packet word that opens a run is written to the data FIFO and never recorded
  (`UdpDataBuffer.CoversIffClean`). The clients in the repository never raise that flag.
- A frame of 510 or more payload words wraps its length field and is lost at the receiver
  (`UdpLink.RoundTripIff`); the packetiser never makes one.
- A scan started before the previous grant has dropped reads a stale ready line
  (`ScannerOverArbiter.StaleStart`).
- `writeEPCQ` lets exactly 65536 bytes through and then programs a page it has not erased
  (`FlashWriter.EpcqRunAligned`).
- `writeFlashConfig` fills the size field of a block with the number of words behind the header; the
  loader counts the header as well, as its own comment says. The last word of every block is
  therefore not loaded (`FlashConfig.FlashRoundTrip`).
- The server's comment gives a configuration page 32 blocks; the code writes and loads up to 256
  (`FlashConfig.LayoutPages`).
- Entry or block addresses of 0x80 and above are negative as a `char`, and their message reaches the
  device as a read request (`ServerConfig.WordReachesIff`).
- The parser acts on the second word of a two-word command as a command too; harmless for page
  addresses (`CommandChannel.SetAddressIff`, `CommandChannel.PageAddressIsPlain`). The address
  0xFFFFFFFF cannot be sent at all (`CommandChannel.OpSent`).
- An idle clock between the address word and the data word of a sequencer write loses the write
  (`SequencerInterface.PairWrites`).

## Model

| member | source | states |
|---|---|---|
| `InternetChecksum.VerifiesIff` | ethernet/header_generator.vhd:334-369 | a message verifies (RFC 1071) exactly when the sum of its half-words is a positive multiple of 0xFFFF |
| `InternetChecksum.Fold16Value` | ethernet/header_generator.vhd:362-362 | the 16-bit adder agrees with the one's-complement fold unless it carries, and is one too small otherwise |
| `InternetChecksum.Fold16Checksum` | ethernet/header_generator.vhd:362-364 | complementing the 16-bit fold gives a verifying checksum exactly when the adder does not carry |
| `FrameGenerator.Generator.Tick` | ethernet/ethernet_frame_generator.vhd:146-355 | the process, branch by branch, takes the registers to `Step` of them |
| `FrameGenerator.PayloadStep` | ethernet/ethernet_frame_generator.vhd:201-335 | payload edge k: request k+1 goes out iff k < L, a word is written iff d <= k < d + L, end-of-packet with the last only |
| `FrameGenerator.ExactReadsAndAlignment` | ethernet/ethernet_frame_generator.vhd:201-355 | for every L >= 1 and latency d >= 3, against a FIFO answering d-3 edges later: exactly L requests, exactly those words in order, end-of-packet on the last only |
| `FrameGenerator.ExactRequestsIff` | ethernet/ethernet_frame_generator.vhd:201-335 | exactly L words are requested iff the latency setting is at least 1; with 0 it is L + 1 |
| `FrameGenerator.HeaderRun` | ethernet/ethernet_frame_generator.vhd:201-240 | the header words pass through in order, start-of-packet on the first only; end-of-packet on the last iff there is no payload |
| `FrameGenerator.WholeFrame` | ethernet/ethernet_frame_generator.vhd:170-345 | from the start of a frame, for every d >= 3, any header with any gaps and any payload length, 0 included: header words then payload words, start-of-packet on the first of them all only, end-of-packet on the last only |
| `FrameGenerator.FrameLengthCounts` | ethernet/ethernet_frame_generator.vhd:240-300 | when a frame with payload is complete, `frame_length` holds its number of words, header and payload, in nine bits |
| `FrameGenerator.PauseAfterFrame` | ethernet/ethernet_frame_generator.vhd:323-336 | behind a frame the generator is silent for the `FIFO_out_dly` setting and one edge, then idle |
| `HeaderGenerator.Generator.Tick` | ethernet/header_generator.vhd:189-369 | both processes, run from the same registers, take them to `Step` |
| `HeaderGenerator.StartStep` | ethernet/header_generator.vhd:199-216 | the fields seen at the start edge are the ones the header is built from |
| `HeaderGenerator.PhaseStep` | ethernet/header_generator.vhd:199-309 | state machine and summer stay in step; each edge puts out the next header word, a pause, or the end |
| `HeaderGenerator.WholeHeader` | ethernet/header_generator.vhd:189-369 | one start pulse puts out exactly the header of the start edge's fields, its own checksum included, and leaves the generator ready |
| `HeaderGenerator.HeaderFields` | ethernet/header_generator.vhd:172-309 | field by field what a receiver reads: addresses, ports, version, protocol; the total length is 4 (7 + L) iff 7 + L < 512, the UDP length 4 (2 + L) iff 2 + L < 512 |
| `HeaderGenerator.TotalLengthIff` | ethernet/header_generator.vhd:184-184 | the same for the total length, with or without a UDP header |
| `HeaderGenerator.ChecksumVerifies` | ethernet/header_generator.vhd:334-369 | the IPv4 header (section 3.1 of RFC 791) verifies iff low16(S) + S/65536 < 65536; otherwise the folded sum is exactly one too small |
| `HeaderGenerator.ChecksumCanFail` | ethernet/header_generator.vhd:362-364 | a concrete header whose checksum does not verify |
| `HeaderGenerator.HeaderEdge` | ethernet/header_generator.vhd:189-330 | one edge of a header as the frame generator sees it: position, word, end, and edges left |
| `HeaderGenerator.StaleChecksumWithoutEthernet` | ethernet/header_generator.vhd:199-277 | without the Ethernet header the checksum word carries whatever the register held before |
| `HeaderGenerator.OwnChecksumIff` | ethernet/header_generator.vhd:199-369 | a header carries its own checksum iff the Ethernet header is enabled or the register already holds that value |
| `HeaderGenerator.StaleChecksumIsSent` | ethernet/header_generator.vhd:334-345 | the first header after reset, sent without Ethernet header, carries 0 and does not verify |
| `UdpDataBuffer.DataBuffer.Tick` | ethernet/udp_data_buffer.vhd:128-208 | data FIFO, info register stage, info FIFO and record process, one clock |
| `UdpDataBuffer.RecordConservation` | ethernet/udp_data_buffer.vhd:151-208 | in every run: record lengths + pending + words lost to an early end-of-packet = words written |
| `UdpDataBuffer.CleanStep` | ethernet/udp_data_buffer.vhd:151-208 | a clean edge keeps every word in exactly one packet or pending, in order, under its own port |
| `UdpDataBuffer.CoversIffClean` | ethernet/udp_data_buffer.vhd:168-189 | and only a clean edge does |
| `UdpDataBuffer.RunCovers` | ethernet/udp_data_buffer.vhd:151-208 | the cover over every clean run |
| `UdpDataBuffer.PacketRecordConservation` | ethernet/udp_data_buffer.vhd:151-208 | with end-of-packet low, packets are contiguous same-port runs of 1 to 350 words that, with the pending ones, are exactly the words written |
| `UdpDataBuffer.ClosesExactly` | ethernet/udp_data_buffer.vhd:166-206 | over every run with end-of-packet low: the pending packet is closed iff a word for another port comes, or a word while 350 are pending, or the 125002nd clock without data; it is then all the pending words |
| `UdpDataBuffer.StaleFlush` | ethernet/udp_data_buffer.vhd:195-206 | pending words get their record after exactly 125002 idle clocks, not before |
| `UdpDataBlock.RestStep` | ethernet/udp_data_block.vhd:186-238 | from rest: stay, or take up the packet at the head of the info FIFO |
| `UdpDataBlock.HeaderStep` | ethernet/udp_data_block.vhd:186-238 | an edge of the header phase puts out the next header word of the frame, or nothing |
| `UdpDataBlock.PayloadStep` | ethernet/udp_data_block.vhd:186-238 | an edge of the payload phase takes the word requested one edge ago and puts out the one requested three edges ago |
| `UdpDataBlock.InvStep` | ethernet/udp_data_block.vhd:186-238 | the joint invariant of buffer, frame generator and header generator survives every clean edge, whatever transmit-ready does |
| `UdpDataBlock.EndToEndTransmit` | ethernet/udp_data_block.vhd:186-238 | in every clean run the output is a prefix of the frames of consecutive packets of the words written, each under the port it was written with; each frame carries its true lengths, addresses and port; the data FIFO is never read empty |
| `UdpDataBlock.StartsExactly` | ethernet/udp_data_block.vhd:194-194 | a frame starts iff the generator is idle, a record waits and the transmitter is ready |
| `UdpDataBlock.EverythingIsSent` | ethernet/udp_data_block.vhd:186-238 | any clean run, followed by 125028 clocks plus 22 and one per word for each packet without new words and with the transmitter ready, ends with the frames of all words written put out |
| `UdpDataBlock.NoEopIsClean` | ethernet/udp_data_buffer.vhd:168-189 | runs with end-of-packet low are clean |
| `UdpDataBlock.FrameTakes` | ethernet/udp_data_block.vhd:186-238 | a frame is complete exactly 19 + L edges after its start pulse, and the output is then the completed frames |
| `UdpDataBlock.FrameCompletes` | ethernet/udp_data_block.vhd:186-238 | a started frame is complete after exactly the edges that are left |
| `FrameReceiver.Receiver.Tick` | ethernet/ethernet_frame_reciever.vhd:119-262 | the parser, word by word, takes the registers to `Step` |
| `UdpLink.HeaderStep` | ethernet/ethernet_frame_reciever.vhd:144-259 | each header word of a generated frame moves the receiver on by one and puts nothing out |
| `UdpLink.PayloadStep` | ethernet/ethernet_frame_reciever.vhd:144-259 | payload words come out with the frame's addresses and ports, pad words do not |
| `UdpLink.RoundTrip` | ethernet/ethernet_frame_reciever.vhd:119-262 | any sequence of generated UDP frames, any gaps, any pad words: exactly the payloads come out, each word with its MACs, IPs and ports, and no frame affects the next |
| `UdpLink.RoundTripIff` | ethernet/header_generator.vhd:184-309 | one frame is recovered iff its payload has at most 509 words |
| `UdpLink.WireIsFrame` | ethernet/header_generator.vhd:199-309 | the receiver's input is the transmitted frame followed by the pad words |
| `UdpLink.PrefixOnWire` | ethernet/ethernet_frame_generator.vhd:185-335 | what a link carries of the beats put out, cut at end-of-packet and padded, is the wire form of the packets whose frames are complete |
| `UdpLink.EndToEndLink` | ethernet/udp_data_block.vhd:186-238 | over the beats really put out, any padding, any gaps, cut off anywhere: the (word, port) pairs leaving a remote receiver are a prefix of those written, and exactly those of the frames carried once all are delivered |
| `UdpDataArbiter.ArbiterEntity.Tick` | ethernet/udp_data_arbiter.vhd:182-320 | output multiplexer and state machine, one edge |
| `UdpDataArbiter.ArbiterSafety` | ethernet/udp_data_arbiter.vhd:182-320 | every run: at most one ready line, an output word is that of the client granted at the edge that registered it, busy and valid flags acted on are the grantee's or the idle 0, the timeout counter within 1000, the line reported busy iff a grant was held, and a new grantee asked at that edge before all others that asked |
| `UdpDataArbiter.GrantGoesTo` | ethernet/udp_data_arbiter.vhd:269-291 | from IDLE client c gets the grant iff it asks and no client before it does, nobody iff nobody asks; otherwise the grant passes to no one else |
| `UdpDataArbiter.FirstIsServed` | ethernet/udp_data_arbiter.vhd:182-320 | the first to ask at an idle arbiter is granted at that edge, and its ready line and no other is up after the next |
| `UdpDataArbiter.UnusedGrantEnds` | ethernet/udp_data_arbiter.vhd:256-320 | a grant without busy is withdrawn at most 1001 edges on |
| `UdpDataArbiter.SilentGrantStep` | ethernet/udp_data_arbiter.vhd:256-320 | each silent edge of a busy grant moves the counter, at 1000 the next edge withdraws the grant |
| `UdpDataArbiter.BusyGrantEnds` | ethernet/udp_data_arbiter.vhd:256-320 | a busy grant survives at most 1000 silent edges, and the edge after the 1000th ends it |
| `UdpDataArbiter.SilentGrantEnds` | ethernet/udp_data_arbiter.vhd:256-320 | a grantee that stays silent loses the grant at most 1001 edges on |
| `ConfigBlockScanner.Scanner.Tick` | config_scanner/config_block_scanner.vhd:108-243 | the scanner with its input and output registers, one edge |
| `ScannerOverArbiter.InvStep` | config_scanner/config_block_scanner.vhd:174-235 | scanner state and grant state agree at every edge, for any behaviour of the other clients |
| `ScannerOverArbiter.ScannerDelivery` | ethernet/udp_data_arbiter.vhd:182-320 | under any contention every word the scanner emits leaves the arbiter exactly once and in order, and it holds the grant while it reads a block |
| `ScannerOverArbiter.LoneScannerIsServed` | config_scanner/config_block_scanner.vhd:174-183 | a scanner that waits at an idle arbiter, no other client asking, starts its block within four edges, holding the grant |
| `ScannerOverArbiter.StaleStart` | config_scanner/config_block_scanner.vhd:174-235 | the start condition is exact: started while the old grant is out, the scanner reads a block under another client's grant four edges later |
| `InputFifoManager.FifoSearch.Tick` | ethernet/input_fifo_manager.vhd:282-344 | the stepwise search, one edge |
| `InputFifoManager.Examine` | ethernet/input_fifo_manager.vhd:297-325 | one FIFO is examined per edge and the lowest-index fullest candidate so far is remembered |
| `InputFifoManager.FifoChoice` | ethernet/input_fifo_manager.vhd:282-344 | a search of at most n + 2 edges selects the lowest-index urgent FIFO, else the lowest-index fullest candidate, else none; the selector moves only when the transmitter is free |
| `InputFifoManager.NearFullGuard.Tick` | ethernet/input_fifo_manager.vhd:179-222 | input register and near-full flag, one write clock |
| `InputFifoManager.NoOverflow` | ethernet/input_fifo_manager.vhd:179-222 | if the level seen misses at most the writes of the last K clocks, the true occupancy never exceeds 1920 + K + 2 |
| `InputFifoManager.GuardExactly` | ethernet/input_fifo_manager.vhd:207-222 | the flag is up iff the level seen was 1920 or more; a word is passed on iff the flag was down |
| `InputFifoManager.NothingDropped` | ethernet/input_fifo_manager.vhd:179-189 | while the level seen stays below 1920 every word offered enters the FIFO one clock later |
| `InputFifoManager.OverflowBoundIsTight` | ethernet/input_fifo_manager.vhd:207-222 | the bound is reached for every lag, so K = 125 is exactly what 2047 words can stand |
| `EthernetDataBlock.SingleSource` | ethernet/ethernet_data_block.vhd:225-231 | the selector never changes at an edge after which the frame generator is out of IDLE |
| `EthernetDataBlock.StartsExactly` | ethernet/ethernet_data_block.vhd:225-225 | a data frame starts iff the idle generator sees payload-ready, which comes up only while the transmitter is ready and no frame is made |
| `EthernetDataBlock.FrameStarts` | ethernet/ethernet_data_block.vhd:225-312 | from rest, with the transmitter ready, at most n + 3 edges on a frame from the chosen FIFO has started, if there is a candidate |
| `EthernetDataBlock.PipelineStep` | ethernet/input_fifo_manager.vhd:350-375 | an edge of the payload phase moves every word one register on, from the FIFO to the output |
| `EthernetDataBlock.InvStep` | ethernet/ethernet_data_block.vhd:225-231 | the joint invariant of search, FIFOs, read registers and frame generator |
| `EthernetDataFrames.PortNamesFifo` | ethernet/ethernet_data_block.vhd:225-231 | for any number of FIFOs, the port's low bits are the FIFO's number and the others the base port's |
| `EthernetDataFrames.HeaderEdge` | ethernet/ethernet_data_block.vhd:261-284 | an edge of the header phase puts out the next header word of the frame, or nothing; a frame without payload ends here |
| `EthernetDataFrames.PayloadEdge` | ethernet/ethernet_data_block.vhd:286-312 | an edge of the payload phase puts out the next payload word of the frame, or nothing |
| `EthernetDataFrames.InvStep` | ethernet/ethernet_data_block.vhd:225-312 | the joint invariant of FIFO manager, FIFOs, frame generator and header generator |
| `EthernetDataFrames.SingleSourceFrames` | ethernet/ethernet_data_block.vhd:225-312 | in every run the beats are a prefix of consecutive frames; each frame's payload (possibly empty) is the next words written to one FIFO, and its UDP ports name that FIFO |
| `EthernetDataFrames.DataFrameTakes` | ethernet/ethernet_data_block.vhd:225-312 | a started data frame is complete after the header's words and four more edges, and L + 6 for a payload |
| `EthernetDataBlock.DataFrames` | ethernet/ethernet_frame_generator.vhd:185-335 | in every run, for any number of FIFOs, the payload words put out from each FIFO are a prefix, in order, of the words written to it, and none is read empty |
| `IcmpBlock.Icmp.Tick` | ethernet/icmp_block.vhd:204-361 | checksum computer, reply payload, trigger and reply buffer, one edge |
| `IcmpBlock.RunningSum` | ethernet/icmp_block.vhd:307-336 | for a request of any length the sum stays within 0x2FFFF and congruent mod 65535 to the sum of its half-words |
| `IcmpBlock.ReplyVerifiesIff` | ethernet/icmp_block.vhd:307-336 | the echo reply (RFC 792) verifies iff the final fold does not carry |
| `IcmpBlock.ReplyCanFail` | ethernet/icmp_block.vhd:307-336 | a concrete request whose reply does not verify |
| `IcmpBlock.RequestChecksum` | ethernet/icmp_block.vhd:307-336 | with any gaps, a request leaves its checksum in the register two edges after its last word and the sum clear for the next |
| `IcmpBlock.ReplyPayload` | ethernet/icmp_block.vhd:220-238 | one request more than the FIFO holds words yields the reply message, word for word |
| `IcmpBlock.RequestReplied` | ethernet/icmp_block.vhd:204-361 | from rest, any gaps, any wait: the words handed out are exactly the reply to the request received, they verify iff the final fold does not carry, and the reply is addressed to the sender |
| `IcmpBlock.ReadyExactly` | ethernet/icmp_block.vhd:204-216 | the frame generator is told of a request iff one waits, the transmitter is ready and no frame is made; a request waits until a frame is begun |
| `IcmpBlock.RestsAfterReply` | ethernet/icmp_block.vhd:340-361 | after the reply the block is at rest, ready for the next request |
| `EchoPath.EchoReceived` | ethernet/ethernet_frame_reciever.vhd:202-213 | of an ICMP frame, any pauses, the echo block sees exactly the words behind the first of the message iff it is an echo request for us, and none otherwise |
| `EchoPath.PingAnswered` | ethernet/icmp_block.vhd:204-361 | from the wire to the reply: an echo request for us is answered with exactly its reply, addressed to its sender |
| `EchoPath.ArpReceived` | ethernet/ethernet_frame_reciever.vhd:215-250 | the ARP request and reply strobes come with the end of the frame iff it asks for, or answers to, our address; the sender's addresses stand beside them |
| `IcmpBlock.ReplyLengthIff` | ethernet/icmp_block.vhd:220-238 | the length asked for is that number exactly while the 8-bit sum does not wrap |
| `ConfigRegisterBlock.RegisterBlock.Tick` | common_modules/config_register_block.vhd:93-233 | registers written in place and read out, one edge; the reader's invariant is kept |
| `ConfigRegisterBlock.ReplyWrites` | common_modules/config_register_block.vhd:114-142 | writing a reply word sets its half-word of its own block and nothing of another |
| `ConfigRegisterBlock.SingleRead` | common_modules/config_register_block.vhd:208-231 | a request for one half-word is answered with its reply word iff the block and the register exist |
| `ConfigRegisterBlock.WriteThenRead` | common_modules/config_register_block.vhd:105-233 | what is written is what is read |
| `ConfigRegisterBlock.ReplayRestores` | common_modules/config_register_block.vhd:105-233 | whatever a block holds, writing its dump back restores it |
| `ConfigRegisterBlock.ReplayElsewhere` | common_modules/config_register_block.vhd:114-142 | a dump of one block leaves another block alone |
| `ConfigDump.AddressedStep` | common_modules/config_register_block.vhd:165-233 | a block addressed by a read-all request sends its 2N half-words in order, one per edge |
| `ConfigDump.MuxCarries` | config_scanner/config_read_multiplexer.vhd:57-70 | the multiplexer passes on the one block that answers |
| `ConfigDump.BusStep` | config_scanner/config_block_scanner.vhd:184-225 | one edge moves a request and its replies one register on, anywhere on the bus |
| `ConfigDump.InvStep` | config_scanner/config_block_scanner.vhd:130-243 | what has been put out is the dump of all lower blocks and the words taken from this one, at every edge and for any grant pattern |
| `ConfigDump.ResetInv` | config_scanner/config_block_scanner.vhd:130-160 | the invariant holds after reset, for any register contents |
| `ConfigDump.ScanDumps` | config_scanner/config_block_scanner.vhd:184-225 | a completed full scan has put out exactly the half-words of every existing block, in address order; a single scan those of its block |
| `ConfigDump.ScanEndsExactly` | config_scanner/config_block_scanner.vhd:140-235 | `finished` is raised iff the edge takes the scanner from a scan to IDLE; request and busy lines |
| `ConfigDump.ScanProgress` | config_scanner/config_block_scanner.vhd:174-235 | every edge of a scan lowers a bound on the edges left, as long as requests are granted within g edges |
| `ConfigDump.FullScanCompletes` | config_scanner/config_block_scanner.vhd:155-235 | a full scan, each request granted within g edges, raises `finished` within 128 (g + 27) edges and one per half-word, with every existing block's half-words put out in address order; sent back they restore every register |
| `ConfigDump.SingleScanCompletes` | config_scanner/config_block_scanner.vhd:155-235 | a single scan, within g + 18 edges and one per half-word, with the half-words of the block asked for |
| `ConfigDump.LateReplyIsMissed` | config_scanner/config_block_scanner.vhd:190-206 | a reply later than the scanner's wait is missed |
| `ConfigDump.ReplayAll` | common_modules/config_register_block.vhd:105-145 | sending a full dump back restores each block |
| `ConfigDump.DumpAndReplay` | common_modules/config_register_block.vhd:105-233 | the words of a completed full scan, sent back, restore every register of every block whatever was written in between |
| `ServerConfig.Block.CreateConfigMessages` | server/src/ConfigRegisterBlock.cpp:18-30 | the message list is the encoding of the selected entries, in order |
| `ServerConfig.Block.GetConfigMessages` | server/src/ConfigRegisterBlock.cpp:32-35 | and is returned |
| `ServerConfig.Block.FindEntry` | server/src/ConfigRegisterBlock.cpp:64-70 | the first entry of that name, -1 iff there is none |
| `ServerConfig.WordReachesIff` | server/src/ConfigRegisterBlock.cpp:24-24 | a message word is a write iff neither address is negative, and then names exactly its block and half-word |
| `ServerConfig.MessagesConfigure` | server/src/ConfigRegisterBlock.cpp:18-30 | each named half-word ends at its entry's value, all others are unchanged |
| `ServerConfig.DeltaEqualsFull` | server/src/ConfigRegisterBlock.cpp:18-35 | from default registers, the changed entries alone leave the same registers as all entries |
| `ServerConfig.MessagesExact` | server/src/ConfigRegisterBlock.cpp:22-28 | one message for each changed entry, or each entry in use, and each is such an entry's word |
| `ServerConfig.SharedAddressDiffers` | server/src/ConfigRegisterBlock.cpp:18-30 | two entries on one half-word: delta and full configuration differ |
| `ServerConfig.GetConfigMessage` | server/src/ConfigBlockList.cpp:229-240 | the messages of all blocks, one after the other |
| `ServerConfig.EachBlockItsOwn` | server/src/ConfigBlockList.cpp:229-240 | the message of all blocks leaves each device block as its own messages do |
| `ServerConfig.FullConfiguration` | server/src/ConfigBlockList.cpp:229-240 | so every block ends configured, by full or delta messages |
| `FlashWriter.WriteEpcq` | server/src/ODILEServer.cpp:557-625 | too long: -1 and nothing touched; a read-back error is reported iff flash does not hold the padded pages; pages programmed once, in order, after the erase; other sectors untouched and the rest of the sector blank; no error on a sound device within the erased sector; and the commands sent |
| `FlashWriter.WritePages` | server/src/ODILEServer.cpp:590-624 | the page loop of it |
| `FlashWriter.FillPage` | server/src/ODILEServer.cpp:592-599 | the next page of the data, padded with ones |
| `FlashWriter.WriteFirmware` | server/src/ODILEServer.cpp:426-498 | misaligned: nothing touched; otherwise all pages in flash, or all before the page reported and not that one; no error on a sound device |
| `FlashWriter.WriteFirmwarePage` | server/src/ODILEServer.cpp:439-475 | one page: erase if a sector begins here, program, read back; what follows in the sector stays blank |
| `FlashWriter.ReadPage` | server/src/ODILEServer.cpp:453-457 | the next page of the file, bytes swapped, the last word repeated past its end |
| `FlashWriter.FirmwareWordAt` | server/src/ODILEServer.cpp:453-457 | word by word what a firmware run stores |
| `FlashWriter.EpcqRun` | server/src/ODILEServer.cpp:557-625 | no page twice; erase-before-program iff the pages stay inside the erased sector |
| `FlashWriter.EpcqRunAligned` | server/src/ODILEServer.cpp:560-565 | for an aligned start that is iff fewer than 65536 bytes |
| `FlashWriter.FirmwareRun` | server/src/ODILEServer.cpp:426-476 | erase before program, no page twice, exactly end/65536 + 1 sectors erased |
| `FlashWriter.WritersDecoded` | controller/odile_controller.vhd:421-483 | for a page-aligned start the commands of a writer's run, with anything for other ports in between, are parsed as exactly the operations of that run |
| `ConfigLoader.DataManager.Tick` | config_scanner/config_data_manager.vhd:125-236 | the loader's state machine, one edge |
| `ConfigLoader.HeaderBits` | config_scanner/config_data_manager.vhd:171-179 | the mark and the size field by their bits |
| `ConfigLoader.RankStep` | config_scanner/config_data_manager.vhd:140-229 | every edge keeps the address inside the configuration page (or on the look-ahead behind it) and lowers a bound on the edges left |
| `ConfigLoader.LoaderTerminates` | config_scanner/config_data_manager.vhd:140-229 | whatever the flash answers or fails to answer, the loader is idle again within that bound, and no edge of the run asks for a page outside the configuration page but the look-ahead |
| `ConfigLoader.LoadStep` | config_scanner/config_data_manager.vhd:167-212 | forwarded so far, then the future, is the same at every edge; the load fails iff a page keeps it waiting beyond the timeout |
| `ConfigLoader.LoadDelivers` | config_scanner/config_data_manager.vhd:160-229 | with any gaps within the timeout exactly the marked blocks are forwarded, in order, each to the port in its header, up to its size, header included; `done` is raised once |
| `ConfigLoader.DoneExactly` | config_scanner/config_data_manager.vhd:134-229 | `done` iff a load that has not failed ends, `busy` iff outside IDLE, a load iff commanded |
| `ConfigLoader.CommandedLoad` | config_scanner/config_data_manager.vhd:140-166 | a load command for page p loads the sector at 0x01F60000 + 0x10000 p and raises `done` once |
| `ConfigLoader.PowerOnLoad` | config_scanner/config_data_manager.vhd:151-166 | after power-on the loader waits 50000000 edges and loads page 0 |
| `FlashConfig.InsertHeaders` | server/src/ODILEServer.cpp:645-653 | the in-place insertion loop is in bounds and yields the layout |
| `FlashConfig.StripLayout` | server/src/ODILEServer.cpp:645-653 | deleting every 64th word recovers the message |
| `FlashConfig.LayoutPages` | server/src/ODILEServer.cpp:647-653 | one flash page per block; the layout fits its sector iff the message has at most 16127 words, and never fills it to the last byte |
| `FlashConfig.WriteFlashConfig` | server/src/ODILEServer.cpp:643-668 | page out of range or message too long: nothing touched; otherwise the sector holds the layout and then blanks, the other sectors are untouched |
| `FlashConfig.LayoutLoaded` | config_scanner/config_data_manager.vhd:167-212 | of a layout in flash the loader forwards the first size - 1 words of each block |
| `FlashConfig.FlashRoundTrip` | config_scanner/config_data_manager.vhd:125-236 | written by the server and loaded with any gaps: those words in order to port 0x4268 and no others; the message arrives whole iff it is empty |
| `CommandChannel.StringToInt` | server/src/ODILEServer.cpp:141-148 | the letters as base-256 digits, in 32-bit arithmetic |
| `CommandChannel.SendCommand` | server/src/ODILEServer.cpp:119-136 | the words put on the wire for a command, its prefix and its second word; rejected iff it is not three letters |
| `CommandChannel.CommandParser.Tick` | controller/odile_controller.vhd:292-487 | the command parser, one edge |
| `CommandChannel.LettersCode` | controller/odile_controller.vhd:81-91 | the server's letters spell the parser's command codes |
| `CommandChannel.OpSent` | server/src/ODILEServer.cpp:119-136 | each flash operation is sent as its words, except the address 0xFFFFFFFF |
| `CommandChannel.SetAddressIff` | controller/odile_controller.vhd:421-483 | a set-address command does that and nothing else iff the address is not itself a command |
| `CommandChannel.UpdateAddressIff` | controller/odile_controller.vhd:437-483 | RUA with prefix 'F' or 'A' sets the factory or application address at once; otherwise the next word sets it, and does nothing else iff it is plain |
| `CommandChannel.RegistersFollow` | controller/odile_controller.vhd:421-483 | number of words, address and update address hold what the events say, and change with nothing else |
| `CommandChannel.OneWordParsed` | controller/odile_controller.vhd:372-470 | every one-word command triggers exactly itself, a load command its page; a word that is none triggers nothing; each is acknowledged |
| `CommandChannel.CodesSpelled` | controller/odile_controller.vhd:30-118 | the codes spell the commands |
| `CommandChannel.PageAddressIsPlain` | controller/odile_controller.vhd:30-118 | no page-aligned address is |
| `CommandChannel.SessionDecoded` | controller/odile_controller.vhd:292-487 | a session of flash operations with any gaps between them is carried out exactly, in order |
| `SequencerInterface.Interface.Tick` | interfaces/ethernet_ccdcontrol_interface.vhd:210-488 | data register, writer, reader and eraser, one edge |
| `SequencerInterface.MemoryShapes` | interfaces/ethernet_ccdcontrol_interface.vhd:325-346 | locations and widths of the seven memories |
| `SequencerInterface.PipelineRefines` | interfaces/ethernet_ccdcontrol_interface.vhd:210-291 | register, writer and memory, emptied, are where a writer without pipeline is after the same words |
| `SequencerInterface.EveryLocationOnce` | interfaces/ethernet_ccdcontrol_interface.vhd:437-488 | the order of the erase names each location of the seven memories exactly once |
| `SequencerInterface.EraseStep` | interfaces/ethernet_ccdcontrol_interface.vhd:437-488 | each edge of an erase sends the next word; what it has passed is zero |
| `SequencerInterface.EraseAll` | interfaces/ethernet_ccdcontrol_interface.vhd:437-488 | with no other traffic: 3200 words, `done` with the last, and every location of all seven memories written once, with zero, and nothing else |
| `SequencerInterface.ReadsBack` | interfaces/ethernet_ccdcontrol_interface.vhd:297-406 | a read trigger sends address and data of every location in order, however long the grant takes, raises `done` once, and changes no memory |
| `SequencerInterface.ReaderLines` | interfaces/ethernet_ccdcontrol_interface.vhd:302-406 | request, busy and `done` lines of the reader, and its standstill while the writer works |
| `SequencerInterface.PairWrites` | interfaces/ethernet_ccdcontrol_interface.vhd:236-291 | address word, gap, data word: written iff the gap is empty |
| `SequencerInterface.PortNamesMemory` | interfaces/ethernet_ccdcontrol_interface.vhd:252-263 | an address word for port 0x2000 + m names memory m by its port |
| `SequencerInterface.NoSuchMemory` | interfaces/ethernet_ccdcontrol_interface.vhd:265-285 | a pair that names no memory writes nothing |
| `SequencerInterface.SequencerPorts` | interfaces/ethernet_ccdcontrol_interface.vhd:252-253 | the ports the writer listens to |
| `SequencerInterface.ReplayIsDump` | interfaces/ethernet_ccdcontrol_interface.vhd:297-406 | the replayed stream is the dump |
| `SequencerInterface.DumpReplays` | interfaces/ethernet_ccdcontrol_interface.vhd:236-291 | a dump sent back with any gaps between its pairs restores that memory whatever it held, and leaves the other six alone |

## Left out

- FIFOs and clocks: the vendor FIFOs are unbounded queues on one clock; the crossing of clock domains appears only as the bounded lag of `InputFifoManager.NoOverflow`. FIFO overflow in the UDP buffer is excluded.
- IcmpBlock.RequestReplied: the request FIFO is unbounded, and no second request arrives before the reply is out.
- FrameGenerator.Generator.Tick: the CRC state and the `frame_rdy` output are not modelled.
- UdpDataArbiter.ArbiterEntity.Tick: the destination interface and address, passed on unchanged at every edge, are not modelled.
- CommandChannel.CommandParser.Tick: triggers other than those for the flash are one event each, and the reply registers are not modelled.
- CommandChannel.StringToInt: strings of more than four letters are excluded, because shifting a 32-bit `int` by 32 or more is undefined.
- SequencerInterface.Interface.Tick: the CABAC and CROC register reads behind read triggers 7 and 8 are not modelled.
- Flash device: erase, program and read are modelled from the comments on the commands and on `writeEPCQ`; a device whose `sound` flag is off may store anything, a sound one stores what is written to blank words. EPCQ timing and status are not part of this model.
- Sequencer memories: their bodies are not in the repository. Depth and width follow from the interface's constants and ports; both a registered and an unregistered read address are covered.
- UdpDataBlock.EndToEndTransmit: speaks of runs with clean end-of-packet inputs, because the accounting is provably inexact otherwise (`UdpDataBuffer.CoversIffClean`).
- ConfigDump.ScanDumps: speaks of completed scans; `ConfigDump.FullScanCompletes` shows that they complete when granted the line.
- EchoPath.ArpReceived: an ARP packet without any word behind it is not covered; the target address is then not yet read when the strobes are formed.
- EthernetDataBlock.DataFrames: leaves the header generator open (any header words at any time); `EthernetDataFrames` closes it.
- EthernetDataFrames.SingleSourceFrames: addresses, base port and header configuration stand still during a run, and the Ethernet and IP headers are enabled.
- ConfigLoader.LoadDelivers: assumes that only the flash answers while a page is read; in that state the loader does not look at the port.
- SequencerInterface.EraseAll: assumes no words from outside during the erase; they have priority and displace the eraser's.
- CommandChannel.SessionDecoded: commands other than those for the flash are events without further effect.
- FlashWriter.WriteFirmware: a file whose size is not a multiple of four bytes, and the map file that gives the end address, are not modelled; 32-bit wrap-around of addresses is excluded by the memory size.
- FlashWriter.WriteEpcq: the device is taken to ignore the two lowest address bits; what it does across a page boundary for other alignments is not in the repository.
- Frame rate and transmit exclusion: `frame_rdy` pacing between transmit blocks and the arbitration in front of the MAC.
- Stale-data flush of the input FIFOs and its clock crossing; a flush request is an input of the FIFO choice.
- The ARP block behind the receiver, the MAC core, its configuration script, remote update, LEDs, uptime counters and port routing.
- The command response generator; in the arbiter it is one of the abstract clients.
- `config_changed` and error flags of the register blocks.
- Sockets, threads, INI and FITS files, progress display and `waitForDone` timing of the server.
