# Wadjet-Link in Dafny

A model of the parts of Wadjet-Link, a passive analyser for automotive Ethernet, in which many small steps must add up:
ownership protocols, caches, trackers, file formats and parsers. Each component is modelled in the form it has in the
program. Objects are classes whose methods follow the code and are proved equal to a step function on values. Whole runs
are then studied on those functions.

| component | files |
|---|---|
| bytes, words, byte orders, packets and their times | `Bytes.dfy`, `Packets.dfy` |
| AF_PACKET rings as kernel/user step systems | `RingOrder.dfy`, `BlockRing.dfy`, `BlockHandout.dfy`, `BlockRingSession.dfy`, `BlockRingCalls.dfy`, `FrameRing.dfy` |
| destructor against capture loop | `Handshake.dfy` |
| IPv4 fragment reassembly | `Reassembler.dfy`, `ReassemblyRuns.dfy`, `ReassemblyOrder.dfy`, `ReassemblyTiming.dfy` |
| classic pcap files | `PcapFile.dfy`, `PcapRoundTrip.dfy`, `PcapLayout.dfy` |
| pcapng files | `Pcapng.dfy`, `PcapngWriter.dfy`, `PcapngReading.dfy`, `PcapngPackets.dfy` |
| Internet checksum | `Checksum.dfy` |
| UDS sessions | `UdsSecurity.dfy`, `UdsSession.dfy`, `UdsTracker.dfy` |
| TCP connection tracker | `TcpTracker.dfy` |
| IPv4 and TCP options | `HeaderOptions.dfy` |
| frame decoding, twice, and validation | `FrameDecoders.dfy`, `HeaderLayouts.dfy`, `SomeIpHeaders.dfy`, `PacketView.dfy`, `Dispatcher.dfy`, `DispatcherProperties.dfy`, `DispatcherOutcome.dfy`, `Validation.dfy`, `ValidationErrors.dfy` |
| gPTP TLVs, SOME/IP service discovery | `GptpTlvs.dfy`, `SomeIpSd.dfy` |

Every lemma switches off automatic induction; where an induction is needed, the recursive call is written out.

What a byte, a constant or a guard means is said once more where it matters, in plain numbers and without the functions that
the code is modelled by: `BlockHandout`, `ReassemblyTiming`, `PcapLayout`, `PcapngPackets`, `HeaderLayouts`,
`DispatcherOutcome`, `ValidationErrors`, and the last sections of the other files.

## Where the code does not do what is said of it

Each point has an exact condition and an input.

- `include/wadjet/protocols/ipv4.hpp:166` says overlapping fragments are handled. They are not: a datagram is returned
  exactly when the latest payloads tile it without overlap (`ReassemblyRuns.AnswerIsWhole`, input in
  `ReassemblyOrder.OverlapIsNotReassembled`).
- `include/wadjet/protocols/validation.hpp:108` promises a check of the IPv4 header checksum. The validator sums the
  checksum field too and then compares the sum with the field, and it reads no options. Which right headers of any length
  it accepts is said by `Checksum.ValidatorOnRightHeadersIff`; of those without options, only the ones with a zero field
  (`Checksum.ValidatorOnRightHeaders`, input in `Checksum.RightHeaderRefused`).
- `include/wadjet/protocols/validation.hpp:109-110` promises the UDP and TCP checksums. The validator leaves out the
  transport bytes. A right segment is accepted exactly when the words left out make a multiple of 65535 and the field is
  not 65535, and in UDP also with a zero field (`Validation.RightTcpAcceptedIff`, `Validation.RightUdpAcceptedIff`, inputs
  in `Validation.RightTcpRefused` and `Validation.RightUdpRefused`).
- `include/wadjet/protocols/validation.hpp:95` promises that there are no overlaps between layers. An accepted list
  is free of overlaps exactly when every layer that is not empty starts behind all layers before it, and inside the packet
  exactly when no end wraps around (`Validation.OverlapFreeIff`, `Validation.AcceptedLayersLieInsideIff`, inputs in
  `Validation.OverlapAccepted` and `Validation.WrappedEndAccepted`).
- `include/wadjet/protocols/tcp.hpp:213` promises detection of duplicate sequence numbers. The tracker compares with the
  number of the last SYN, so repeated data beyond it is not recognised, and new data is flagged once numbers wrap
  (`TcpTracker.FlaggedIff`, `TcpTracker.RepeatIsFlaggedIff`, `TcpTracker.AdvanceIsFlaggedIff`, inputs in
  `TcpTracker.RetransmissionMistakes`).
- `src/net/packet_view.cpp:59` means to handle double VLAN tags. The view skips the second tag, but then looks at the type
  behind the first one, so it shows nothing of a double-tagged frame (`DispatcherProperties.ViewAgreesIffNoSecondTag`,
  input in `DispatcherProperties.DoubleTaggedFrame`).
- `src/io/capture_session.cpp:80-81` says that the destructor's wait prevents access to unmapped memory. It does so exactly
  when the capture loop has already set `running_` (`Handshake.UnmapIsSafeIffLoopMarked`, schedule in
  `Handshake.EarlyStopCanFault`).
- `include/wadjet/protocols/someip_sd.hpp:170-172` gives the size of a service discovery header, which
  `src/protocols/dispatcher.cpp:238` cuts off. The end of the entries is computed in 32 bits, and the size is right, and
  the cut inside the packet, exactly when that sum does not wrap (`SomeIpSd.ReportedSizeIff`,
  `DispatcherProperties.SomeIpStaysInsideIff`, inputs in `SomeIpSd.WrappedSizeDecodes` and
  `DispatcherProperties.WrappingDiscoveryLeavesBytes`).
- `src/protocols/someip.cpp:189-192` says that the payload of a segment is what follows the two headers. Its size is the
  announced length, which is not compared with the bytes present, so a copy stays inside them exactly when the announced
  length does (`SomeIpHeaders.CopyOutsideIff`, input in `DispatcherProperties.LongSegmentLeavesBytes`).

Not contradicted anywhere, but worth knowing: the security state keeps a level unlocked through rejections, so when the
lockout ends the level is open again (`UdsSecurity.UnlockedIff`, input in `UdsSecurity.ReopensAfterLockout`).

## Model

| member | source | states |
|---|---|---|
| `RingOrder.FillAppends` | src/io/capture_session.cpp:327-386 | a slot the kernel hands over joins the user's slots at the end of ring order, and the user still owns exactly the slots from its cursor on |
| `RingOrder.ReleaseDropsFirst` | src/io/capture_session.cpp:377-383 | handing back the slot under the cursor and advancing removes exactly the oldest held slot |
| `BlockRing.RestIsGoodPrefix` | src/io/capture_session.cpp:420-477 | any block hands out exactly the packets of its header chain before the first bad header, in order |
| `BlockRing.StepKeeps` | src/io/capture_session.cpp:388-477 | every kernel or consumer step keeps the invariant on ownership, position in the current block, accounting of packets, and the statistics |
| `BlockRing.StepRefinesQueue` | src/io/capture_session.cpp:388-477 | each step of the block ring is one step of an abstract FIFO queue: enqueue, dequeue of the head, or nothing |
| `BlockRing.EveryInterleavingConserves` | src/io/capture_session.cpp:388-477 | in every reachable state of every interleaving: delivered packets, then the rest of the current block, then the other held blocks in ring order, are everything produced |
| `BlockRing.ReleasedOnlyWhenDrained` | src/io/capture_session.cpp:400-417 | a block goes back to the kernel only when everything it had to hand out has been delivered |
| `BlockRing.WellFormedLosesNothing` | src/io/capture_session.cpp:388-477 | with well-formed blocks the produced packets are all packets of all blocks: none lost, none repeated |
| `BlockHandout.HandsOutAlongPath` | src/io/capture_session.cpp:420-477 | along any path of headers that each have between one byte and a block of data and an offset that is not 0, a block hands out exactly their data with times of seconds and nanoseconds; it goes on behind the path exactly when more packets are announced, the chain does not end, and the next header is such a one |
| `BlockHandout.HandsOutSomethingIff` | src/io/capture_session.cpp:430-440 | a block hands out anything exactly when it announces a packet and its first header is such a one |
| `BlockRingSession.CallAnswers` | src/io/capture_session.cpp:420-477 | over any polls, what a call returns is the packet of the header under the cursor, or of the first header of a new block, exactly when that header has between one byte and a block of data and an offset that is not 0 |
| `BlockRingSession.Session.NextPacketV3` | src/io/capture_session.cpp:388-477 | one call drives the step system to its next return, whatever blocks the kernel hands over at each poll, returns exactly the newly delivered packet, and returns one exactly when the header under the cursor is usable in the plain sense |
| `BlockRingSession.Session.TakePacket` | src/io/capture_session.cpp:430-477 | copying a packet, dropping the rest of a bad block and releasing a drained one are the steps of the system; the packet is copied exactly when 0 < length <= block size and the offset is not 0 |
| `BlockRingSession.Session.AwaitBlock` | src/io/capture_session.cpp:388-410 | reading the status and polling at most once between two readings of an empty ring loses no kernel step |
| `BlockRingCalls.CallIsRun` | src/io/capture_session.cpp:388-477 | a call is a run of enabled steps of the ring, with the kernel's fills inside its polls |
| `BlockRingCalls.CallMakesProgress` | src/io/capture_session.cpp:388-477 | while some block is ours, a call delivers a packet or hands a block back, whatever the kernel does; and blocks handed back have been delivered |
| `BlockRingCalls.CallsDeliverWhatWaits` | src/io/capture_session.cpp:388-477 | as many calls as waiting packets and held blocks deliver everything produced before them, whatever the kernel hands over meanwhile |
| `BlockRingCalls.SilentCallsDrain` | src/io/capture_session.cpp:388-477 | and when the kernel falls silent they leave nothing in user hands |
| `FrameRing.StepLifts` | src/io/capture_session.cpp:327-386 | each step of the frame ring is one or two steps of the block ring with one packet in every block |
| `FrameRing.StepRefinesQueue` | src/io/capture_session.cpp:327-386 | the frame ring refines the same queue |
| `FrameRing.EveryInterleavingConserves` | src/io/capture_session.cpp:327-386 | in every interleaving delivered then waiting packets are the usable frames in production order, and the counters are their number and total length |
| `FrameRing.ContentsGrow` | src/io/capture_session.cpp:355-371 | the usable frames are those of 1 to 65535 bytes, with times in nanoseconds |
| `FrameRing.Session.NextPacketV2` | src/io/capture_session.cpp:327-386 | one call makes the ring what the run of steps below makes it, returns exactly the newly delivered packet, and for a frame of ours returns one exactly for 1 to 65535 bytes |
| `FrameRing.CallIsRun` | src/io/capture_session.cpp:327-386 | a call is a run of enabled steps: begin, read the status, at most one poll with the kernel's fills, read again, copy, release |
| `FrameRing.SilentCallsDrain` | src/io/capture_session.cpp:327-386 | when the kernel falls silent, as many calls as frames in user hands deliver everything that was produced |
| `Handshake.UnmapIsSafeIffLoopMarked` | src/io/capture_session.cpp:77-98 | from the moment the destructor starts, some schedule touches unmapped ring memory if and only if the loop has not yet set `running_` |
| `Handshake.EveryScheduleFollows` | src/io/capture_session.cpp:77-98 | over every schedule the destructor closes the descriptor, then unmaps the ring, then clears the pointer, and the loop is announced from its first test of `running_` until it is left |
| `Handshake.AfterStopNeverFaults` | src/io/capture_session.cpp:479-494 | once the destructor's stop follows the loop's own mark, no schedule of the two threads touches unmapped memory |
| `Handshake.EarlyStopCanFault` | src/io/capture_session.cpp:77-98 | a schedule that does, when the destructor starts before the loop has set `running_` |
| `Reassembler.PutReplaces` | src/protocols/ipv4_reassembler.cpp:49 | storing at an offset keeps the offset order, replaces the payload there and changes nothing else |
| `Reassembler.FragmentReassembler.AddFragment` | src/protocols/ipv4_reassembler.cpp:43-79 | cache and answer after a call are those of the step function, and no other unexpired entry changes |
| `Reassembler.FragmentReassembler.CleanupExpired` | src/protocols/ipv4_reassembler.cpp:81-92 | exactly the entries whose last fragment is timeout + 1 seconds old or more, to the nanosecond, are removed |
| `Reassembler.ContiguousSize` | src/protocols/ipv4_reassembler.cpp:58-67 | the accumulation loop finds a size exactly when the pieces tile an interval from 0 |
| `ReassemblyRuns.CacheMirrorsLog` | src/protocols/ipv4_reassembler.cpp:43-92 | after every run each entry holds the latest payload at each offset of the arrivals since the last completion, expiry or clear, and the end of the most recent last fragment |
| `ReassemblyRuns.AnswerIsWhole` | src/protocols/ipv4_reassembler.cpp:43-79 | for any fragments, a call answers exactly when the latest payloads tile the datagram up to the most recent last fragment, and then answers that datagram |
| `ReassemblyRuns.WholeIsUnique` | src/protocols/ipv4_reassembler.cpp:68-76 | a log of arrivals makes up at most one datagram |
| `ReassemblyRuns.BytesComeFromPieces` | src/protocols/ipv4_reassembler.cpp:68-76 | every byte of the answer lies in exactly one stored piece and is that piece's byte |
| `ReassemblyRuns.LatestIs` | src/protocols/ipv4_reassembler.cpp:48-54 | what the log speaks of: the last arrival at each offset, and the end of the last arrival without "more fragments" |
| `ReassemblyTiming.LastUpdateIs` | src/protocols/ipv4_reassembler.cpp:43-54 | over every run an entry carries the clock reading of the latest fragment for its key |
| `ReassemblyTiming.RemovedIff` | src/protocols/ipv4_reassembler.cpp:81-92 | over every run, a call that reads `now` removes an entry exactly when its latest fragment is (timeout + 1) * 1000000000 nanoseconds old or more |
| `ReassemblyTiming.SecondFragmentJoinsIff` | src/protocols/ipv4_reassembler.cpp:43-92 | a second fragment completes a datagram up to one nanosecond before that moment and not at it |
| `ReassemblyOrder.OrderIndependence` | src/protocols/ipv4_reassembler.cpp:43-79 | the fragments of any cut, in any order, with repetitions and other datagrams in between: no answer before the last missing piece, then exactly the payload, and the entry is gone |
| `ReassemblyOrder.CompleteIffAllSeen` | src/protocols/ipv4_reassembler.cpp:56-68 | the completeness test holds exactly when every piece of the cut is there |
| `ReassemblyOrder.WindowIsSteady` | src/protocols/ipv4_reassembler.cpp:81-92 | clock readings within one timeout of each other guarantee that nothing expires, which is the condition of the order theorem |
| `ReassemblyOrder.OverlapIsNotReassembled` | include/wadjet/protocols/ipv4.hpp:166 | two fragments that overlap and together cover a datagram are never answered |
| `PcapFile.Writer.WritePacket` | src/pcap/pcap_writer.cpp:41-75 | the file is the header followed by one record for each packet written so far |
| `PcapFile.Reader.NextPacket` | src/pcap/pcap_reader.cpp:112-159 | hands out the remaining packets one by one, and reports the end exactly when none is left |
| `PcapFile.Reader.ReadAll` | src/pcap/pcap_reader.cpp:161-167 | returns exactly the packets still to come |
| `PcapFile.Reader.Reset` | src/pcap/pcap_reader.cpp:176-184 | all packets are to come again |
| `PcapRoundTrip.RoundTrip` | src/pcap/pcap_reader.cpp:41-167 | for writer and reader hosts of either byte order, reading a written file gives the packets in order, cut to the snap length, up to the first one beyond the reader's limit; all of them if there is none |
| `PcapRoundTrip.HeaderReads` | src/pcap/pcap_reader.cpp:41-96 | all four magic variants are recognised, with their byte order and resolution |
| `PcapRoundTrip.CutFile` | src/pcap/pcap_reader.cpp:98-159 | a file cut after any number of bytes gives exactly the packets whose records are whole |
| `PcapRoundTrip.AnyCutFileReadsPrefix` | src/pcap/pcap_reader.cpp:98-159 | of any file with a readable header, a byte prefix that holds the header gives a prefix of the packets |
| `PcapRoundTrip.TimeSurvives` | src/pcap/pcap_writer.cpp:52-61 | the timestamp comes back at the file's resolution exactly when its seconds are in 0..2^32-1 |
| `PcapLayout.FileHeaderIs` | src/pcap/pcap_writer.cpp:17-24 | the twenty-four bytes of a file header, as numbers in the byte order of the host |
| `PcapLayout.RecordIs` | src/pcap/pcap_writer.cpp:41-65 | a record is sixteen bytes and the kept data: seconds, fraction, kept length and original length, each cut to 32 bits |
| `PcapLayout.RecordTime` | src/pcap/pcap_writer.cpp:52-60 | for times from the epoch to 2^32 seconds, seconds and fraction make up the time at the resolution of the file, with a fraction below a second |
| `PcapLayout.HeaderTakenIff` | src/pcap/pcap_reader.cpp:41-96 | a reader takes exactly the headers that in some byte order say A1B2C3D4 or A1B23C4D and version 2.4, and reads the other fields in that order |
| `PcapLayout.RecordTakenIff` | src/pcap/pcap_reader.cpp:112-159 | a record is taken exactly when its length is at most the snap length and 15220 and its data are there; it is then these data at the time of its two fields |
| `PcapLayout.KeptIs` | src/pcap/pcap_writer.cpp:41-65 | a packet as it comes back: its first bytes up to the snap length, and its time to the nanosecond or microsecond |
| `Pcapng.SizeIsLength` | src/pcap/pcapng_writer.cpp:169-393 | the block length computed beforehand is the number of bytes emitted, and a multiple of four |
| `PcapngWriter.Writer.AddInterface` | src/pcap/pcapng_writer.cpp:70-81 | the file grows by exactly the interface block, byte for byte, and counters and interface list stay those of the blocks |
| `PcapngWriter.Writer.WritePacket` | src/pcap/pcapng_writer.cpp:283-369 | describes a default interface when there is none, refuses an unknown one, and otherwise appends exactly the packet block |
| `PcapngWriter.Writer.WriteStatistics` | src/pcap/pcapng_writer.cpp:97-161 | appends exactly the statistics block |
| `PcapngWriter.Writer.constructor` | src/pcap/pcapng_writer.cpp:36-62 | a new file is its section header, with the missing texts filled in |
| `PcapngWriter.Writer.WriteOptions` | src/pcap/pcapng_writer.cpp:371-384 | the bytes written are the options in order, each padded to four, and the end mark |
| `PcapngReading.LeadingLengthIsExact` | src/pcap/pcapng_writer.cpp:169-369 | the leading length equals the bytes emitted exactly when they number less than 2^32, and the trailing length always repeats it |
| `PcapngReading.EveryRunIsWellFormed` | src/pcap/pcapng_writer.cpp:70-161 | over every sequence of calls, one section header comes first and every packet block names an interface described before it |
| `PcapngReading.EveryRunSplits` | src/pcap/pcapng_writer.cpp:70-161 | over every sequence of calls whose blocks stay below 2^32 bytes, following the leading lengths cuts the file into the written blocks and ends at its end, and `bytes_written_` is the file length |
| `PcapngReading.FileReadsBackIff` | src/pcap/pcapng_writer.cpp:169-393 | any blocks read back as they were written exactly when each stays below 2^32 bytes and its options can be told apart |
| `PcapngReading.EveryRunReadsBack` | src/pcap/pcapng_writer.cpp:70-161 | over every sequence of calls the file reads back block by block exactly under that condition, and short texts given by the caller are enough for the options |
| `PcapngReading.ReadableIsShort` | src/pcap/pcapng_writer.cpp:371-384 | over every sequence of calls the options can be told apart exactly when each value is below 65536 bytes |
| `PcapngReading.FillIsZero` | src/pcap/pcapng_writer.cpp:371-393 | padding is less than four zero bytes, and four zero bytes end the options |
| `PcapngPackets.EveryCallIsInTheFile` | src/pcap/pcapng_writer.cpp:70-161 | over every sequence of calls, the blocks that a reader gets back hold, in order: each interface described; each packet whose interface is known, cut to that interface's snap length, with its length, its comment, and its time in the unit that the option 9 of the interface block announces; each report; and the texts of the section |
| `PcapngPackets.PacketCounterIs` | src/pcap/pcapng_writer.cpp:283-369 | over every sequence of calls the packet counter is the number of packets whose interface was known |
| `PcapngPackets.PacketSays` | src/pcap/pcapng_writer.cpp:283-369 | one packet block: its stamp times 10^(9-r) is the time of the packet without its remainder, for the resolution r of the interface block |
| `PcapngPackets.ReportSays` | src/pcap/pcapng_writer.cpp:97-161 | one statistics block: time in the unit of its interface, packets received and dropped as 64-bit numbers |
| `PcapngPackets.InterfaceSays` | src/pcap/pcapng_writer.cpp:223-281 | one interface block: link type, snap length, name, description, speed and resolution |
| `PcapngReading.SectionReads` | src/pcap/pcapng_writer.cpp:169-221 | the section header in bytes: type, byte-order magic, version 1.0, unspecified length |
| `PcapngReading.EnhancedReads` | src/pcap/pcapng_writer.cpp:326-346 | the packet block in bytes: type 6, interface, both halves of the stamp, both lengths |
| `Checksum.CalculateChecksum` | src/protocols/ipv4.cpp:67-89 | the loops compute the one's complement of the folded 32-bit sum of the words |
| `Checksum.FoldIsResidue` | src/protocols/ipv4.cpp:83-86 | folding terminates and gives the sum mod 65535, with 0 only for 0 |
| `Checksum.ValueIs` | src/protocols/ipv4.cpp:67-89 | for any bytes at all the value follows from one sum: bytes at even places count 256 times, an odd last byte included, kept in 32 bits |
| `Checksum.ChecksIff` | src/protocols/ipv4.cpp:165-173 | the check computes 0 exactly when the words sum to a multiple of 65535 and some byte is not 0 |
| `Checksum.StoredChecksumChecks` | src/protocols/ipv4.cpp:67-89 | storing the checksum of a header in its zeroed field makes the header check |
| `Checksum.DamagedWord` | src/protocols/ipv4.cpp:165-173 | replacing one word goes unnoticed exactly when it is congruent mod 65535 and the header is not all zero |
| `Checksum.OrderOfWords` | src/protocols/ipv4.cpp:67-89 | permuting the words does not change the checksum |
| `Checksum.ValidateIpv4Checksum` | src/protocols/validation.cpp:217-236 | the validator's routine accepts when its own sum equals the field |
| `Checksum.ValidatorAcceptsIff` | src/protocols/validation.cpp:217-236 | which headers that is: all words plus the field once more make a positive multiple of 65535, and the field is below 65535 |
| `Checksum.ValidatorIs` | src/protocols/validation.cpp:217-236 | the same from the twenty bytes alone, with the field at bytes 10 and 11 |
| `Checksum.ValidatorOnRightHeadersIff` | src/protocols/validation.cpp:217-236 | of the right headers of any length the validator accepts exactly those whose options sum to the field mod 65535, with a field below 65535 and something in the first twenty bytes |
| `Checksum.ValidatorOnRightHeaders` | src/protocols/validation.cpp:217-236 | of the right headers without options it accepts exactly those whose field is 0 |
| `Checksum.RightHeaderRefused` | src/protocols/validation.cpp:217-236 | a right header that it refuses |
| `UdsSecurity.LockedOutIff` | src/protocols/uds_session.cpp:54-82 | over any run a level is locked out exactly while some rejection, at least third in a row in 8-bit counting and not followed by an acceptance, is less than ten seconds old |
| `UdsSecurity.UnlockedIff` | src/protocols/uds_session.cpp:18-24 | a level is open exactly when some acceptance was not followed by a reset and no rejection locks it |
| `UdsSecurity.ReopensAfterLockout` | src/protocols/uds_session.cpp:18-74 | a level that is shut by three wrong keys and open again after ten seconds |
| `UdsSecurity.SecurityState.HighestUnlockedLevel` | src/protocols/uds_session.cpp:26-35 | the result is the greatest open level, or 0 |
| `UdsSecurity.SecurityState.KeyRejected` | src/protocols/uds_session.cpp:64-74 | one rejection, as the step that the run theorems speak of |
| `UdsSession.ActByBytes` | src/protocols/uds_decoder.cpp:51-66 | what a raw message does to session type, activity, S3 timeout and security levels is decided by its first two bytes and its direction |
| `UdsSession.UnlockedIff` | src/protocols/uds_session.cpp:329-391 | over every run of raw messages and commands a level is open exactly when a non-request `67 t` with t twice the level came, and after it no change of session type, no ECU-reset request and no reset; seed and negative responses never open anything |
| `UdsSession.KindIs` | src/protocols/uds_session.cpp:301-321 | the session type is that of the last `50 k` response or forced type, or the default after a reset |
| `UdsSession.TimedOutIff` | src/protocols/uds_session.cpp:216-233 | over every run a session reads as timed out exactly when it was opened, not ended since, and nothing touched it for longer than the timeout in force |
| `UdsSession.S3Is` | src/protocols/uds_session.cpp:230-233 | the timeout in force is the one last set, or five seconds since a reset or a change to programming |
| `UdsSession.ResponseTimesAre` | src/protocols/uds_session.cpp:301-321 | after every run P2 is the word at bytes 2 and 3, and P2* ten times the word at bytes 4 and 5, of the last response `50 k` of six or more bytes whose field is not 0, unless the timing was set, reset or changed to programming since; 50 ms and 5 s before any |
| `UdsSession.ResponseTimesMove` | src/protocols/uds_decoder.cpp:370-385 | what each single operation does to the two times, from its raw bytes |
| `UdsSecurity.SeedIs` | src/protocols/uds_session.cpp:47-82 | the seed kept for a level is the last one given, until a key is judged or everything is reset |
| `UdsTracker.Tracker.ProcessMessage` | src/protocols/uds_session.cpp:123-190 | the object after a raw message is the value the run theorems speak of; the answer tells whether it could be decoded |
| `UdsTracker.Tracker.TransitionToSession` | src/protocols/uds_session.cpp:374-391 | the session is active with the new type; every level is closed exactly if the type changed |
| `UdsTracker.SessionManager.Handle` | src/protocols/uds_session.cpp:407-430 | an operation on one control unit creates its session if missing and leaves all others alone |
| `UdsTracker.SessionManager.ResetAll` | src/protocols/uds_session.cpp:443-448 | every session is reset, none is added or lost |
| `UdsTracker.UnitsAreIndependent` | src/protocols/uds_session.cpp:407-453 | each session of a manager is the run of its own unit's operations since it was last removed |
| `TcpTracker.StateReadsTrace` | src/protocols/tcp.cpp:272-363 | the state of a tracked connection is read off its segments since the last reset that counted: whether SYN, then ACK, then FIN occurred in this order; only four of the eleven states are ever reached |
| `TcpTracker.StateWithoutResets` | src/protocols/tcp.cpp:272-363 | without RST that holds of the whole trace, in both directions |
| `TcpTracker.EstablishedOnlyIf` | src/protocols/tcp.cpp:272-363 | Established only after a SYN without ACK, later an ACK without SYN, and after that no FIN or RST |
| `TcpTracker.RemoteSeqIsLastSyn` | src/protocols/tcp.cpp:240-248 | the sequence number kept is that of the last SYN segment, or 0 |
| `TcpTracker.WindowIsLast` | src/protocols/tcp.cpp:237-270 | over every trace: the window and the time of the last segment, and selective acknowledgement exactly when some segment permitted it |
| `TcpTracker.AckIsLast` | src/protocols/tcp.cpp:240-250 | the acknowledgement number of the last segment with ACK, or 0 |
| `TcpTracker.MssIsLast` | src/protocols/tcp.cpp:252-255 | the last segment size given, or 536 |
| `TcpTracker.ScaleIsLast` | src/protocols/tcp.cpp:257-260 | the last window scale given, or 0 |
| `TcpTracker.FlaggedIff` | src/protocols/tcp.cpp:365-388 | over every trace and for every next header: flagged exactly when it has neither SYN nor FIN, the connection is past its handshake, and its number does not exceed that of the last SYN |
| `TcpTracker.RepeatIsFlaggedIff` | src/protocols/tcp.cpp:365-388 | a number carried by any earlier segment is recognised exactly past the handshake and up to the number of the last SYN |
| `TcpTracker.AdvanceIsFlaggedIff` | src/protocols/tcp.cpp:365-388 | a number beyond the last SYN is flagged exactly past the handshake and when it wrapped around |
| `TcpTracker.RetransmissionMistakes` | src/protocols/tcp.cpp:365-388 | inputs for both failures: repeated data unflagged, new data flagged |
| `TcpTracker.ConnectionsAreIndependent` | src/protocols/tcp.cpp:209-235 | every table entry is driven by the segments of its own key alone, since its last creation |
| `TcpTracker.AfterCleanup` | src/protocols/tcp.cpp:390-424 | after a cleanup only SynReceived entries under two minutes, Established and CloseWait remain, unchanged |
| `TcpTracker.ExpiredIff` | src/protocols/tcp.cpp:390-424 | what a cleanup removes, to the nanosecond: closed connections, and those 30 seconds in TIME_WAIT or two minutes half-open |
| `TcpTracker.TcpConnectionTracker.UpdateConnection` | src/protocols/tcp.cpp:237-363 | one update, as the step that the run theorems speak of |
| `TcpTracker.TcpConnectionTracker.CleanupExpired` | src/protocols/tcp.cpp:390-424 | the two loops filter the table exactly by the state and age rule |
| `HeaderOptions.ParseIpv4Options` | src/protocols/ipv4.cpp:33-66 | the loop reads options as the common reading of the bytes does |
| `HeaderOptions.ReencodesPrefix` | src/protocols/ipv4.cpp:33-66 | writing the parsed options again gives exactly the consumed prefix; malformed exactly when parsing stopped at a truncated or badly sized option |
| `HeaderOptions.RoundTrip` | src/protocols/ipv4.cpp:33-66 | parsing what was written gives it back, whatever follows an end mark |
| `HeaderOptions.ParseTcpOptions` | src/protocols/tcp.cpp:104-142 | the TCP parser's list is the IPv4 parser's on the same bytes without NOP and end of list |
| `HeaderOptions.OnlySizedIsFilter` | src/protocols/tcp.cpp:113-120 | what "without" means: the same options in the same order, none but those two kinds missing |
| `FrameDecoders.ParseEthernet` | src/protocols/ethernet.cpp:43-118 | the cursor through no, one or two VLAN tags reads the fields where the frame layout puts them |
| `HeaderLayouts.EthernetReencodes` | src/protocols/ethernet.cpp:43-118 | the decoded header written again, destination, source, tags and type, is the bytes it came from; there is a tag exactly where the bytes have 8100 or 88A8 |
| `HeaderLayouts.EthernetFailsIff` | src/protocols/ethernet.cpp:43-118 | decoding fails exactly when the bytes end before the header does, and then as too short |
| `HeaderLayouts.IPv4Reencodes` | src/protocols/ipv4.cpp:91-163 | the fields and their ranges determine the twenty bytes, flags and fragment offset included |
| `HeaderLayouts.IPv4DecodesIff` | src/protocols/ipv4.cpp:91-201 | which bytes decode: version 4, at least five words, all there, not longer than the datagram, and a right checksum where it is asked for |
| `HeaderLayouts.IPv4Errors` | src/protocols/ipv4.cpp:91-201 | otherwise the first of these that fails names the error |
| `HeaderLayouts.IPv4Decoded` | src/protocols/ipv4.cpp:164-201 | what is decoded: those fields, the options in the bytes from the twentieth to the end of the header, and the verdict on the checksum |
| `HeaderLayouts.UdpReencodes` | src/protocols/udp.cpp:69-107 | the four fields are the eight bytes; refused exactly when these are not there or the length is below eight |
| `HeaderLayouts.TcpReencodes` | src/protocols/tcp.cpp:144-205 | the fields are the twenty bytes, with the offset in the upper half of byte 12 and nine flags |
| `HeaderLayouts.TcpDecodesIff` | src/protocols/tcp.cpp:144-205 | refused exactly when twenty bytes or all the words of the offset are missing, or the words are fewer than five |
| `PacketView.IPv4Agrees` | src/net/packet_view.cpp:55-125 | with at most one tag the view shows exactly the header the decoder decodes, and the decoder refuses a shown one exactly when its length is below five words, beyond the bytes or beyond the total length |
| `PacketView.UdpAgrees` | src/net/packet_view.cpp:135-155 | ports, lengths and payload agree; the decoder refuses exactly the lengths below eight |
| `PacketView.TcpAgrees` | src/net/packet_view.cpp:157-209 | all fields, the six common flags and the payload agree; the decoder refuses exactly a data offset below five or beyond the bytes |
| `PacketView.DoubleTagsHideIPv4` | src/net/packet_view.cpp:70-125 | with two tags the view shows no network layer |
| `DispatcherProperties.ViewAgreesIffNoSecondTag` | src/protocols/dispatcher.cpp:10-76 | with application decoding off, when the dispatcher decodes Ethernet, IPv4 and UDP or TCP, the view shows the same headers, offsets and payload exactly when there is at most one VLAN tag |
| `DispatcherProperties.HeadersAgreeIffNoSecondTag` | src/protocols/dispatcher.cpp:10-327 | with any options the same holds of headers and offsets, and the view's payload is what lies behind the transport header |
| `DispatcherProperties.ApplicationsKeepHeaders` | src/protocols/dispatcher.cpp:112-176 | application decoding adds layers behind the first three and changes none of these |
| `DispatcherProperties.DoubleTaggedFrame` | src/net/packet_view.cpp:55-125 | a frame with two tags that the dispatcher decodes to UDP and the view does not show |
| `DispatcherProperties.FrameShape` | src/protocols/dispatcher.cpp:10-327 | every input gives a list in layer order, no longer than the larger of two and the limit, complete exactly when there is no error |
| `DispatcherOutcome.FrameBecomes` | src/protocols/dispatcher.cpp:10-327 | for every frame and any application decoders, the layers are those up to the transport header followed by those of the decoder that the bytes are handed to, a function of the frame, and the error is that decoder's |
| `DispatcherOutcome.PlainIs` | src/protocols/dispatcher.cpp:10-176 | and those up to the transport header are the ones that decode, to the first that does not, whose error is kept |
| `DispatcherOutcome.PacketBecomes` | src/protocols/dispatcher.cpp:78-110 | both for a packet without a frame around it |
| `DispatcherOutcome.FrameLeaves` | src/protocols/dispatcher.cpp:10-327 | for every frame, the payload left is exactly what lies behind all decoded headers, but for three named cases: nothing behind RTPS and behind a gPTP message that announces too much, and the SOME/IP header itself when a discovery body fails |
| `DispatcherProperties.FramesPassLayering` | src/protocols/dispatcher.cpp:10-327 | every such list passes the layering check, in strict and lenient mode |
| `DispatcherProperties.IpPacketsFailLayering` | src/protocols/dispatcher.cpp:78-110 | a list decoded from an IP packet is refused unless it is empty |
| `DispatcherProperties.SdSliceInsideIff` | src/protocols/dispatcher.cpp:228-241 | with the repository's own discovery decoder, the span formed behind its header lies inside the bytes exactly when the announced entries stay below 2^32 - 8 bytes, or 4 GiB more follow |
| `DispatcherProperties.FrameStaysInsideIff` | src/protocols/dispatcher.cpp:10-327 | for every frame and any application decoders, decoding stays inside the bytes exactly unless the decoder that the frame is handed to, a function of the frame, reads elsewhere or has more cut off than there is |
| `DispatcherProperties.SomeIpStaysInsideIff` | src/protocols/dispatcher.cpp:178-260 | with the SOME/IP and discovery decoders of the repository, for every frame handed to them: exactly unless the bytes are a segment that announces more than is there, or on the discovery port carry entries whose length wraps around |
| `SomeIpHeaders.CopyOutsideIff` | src/protocols/someip.cpp:155-209 | the SOME/IP decoder reads beyond its bytes exactly for an accepted segment whose announced length exceeds them |
| `SomeIpHeaders.AcceptedIff` | src/protocols/someip.cpp:102-209 | which bytes are accepted: version 1, eight bytes announced, and a segment within sixteen megabytes; with the length and the discovery identifier read from the bytes |
| `DispatcherProperties.LongSegmentLeavesBytes` | src/protocols/someip.cpp:174-203 | a frame of sixty-two bytes of which 988 are copied |
| `DispatcherProperties.WrappingDiscoveryLeavesBytes` | src/protocols/dispatcher.cpp:228-241 | a whole frame of seventy bytes that leads outside, with the SOME/IP and discovery decoders of the repository |
| `Dispatcher.Decode` | src/protocols/dispatcher.cpp:10-76 | the result object built up through references is the value the theorems speak of, for any application decoders; a span outside the bytes shows as a missing payload |
| `Dispatcher.DecodeApplication` | src/protocols/dispatcher.cpp:178-260 | the order of the port checks, the layer limit and the rule that an earlier error stays |
| `Validation.ValidateLayering` | src/protocols/validation.cpp:13-101 | strict errors are the first of the lenient ones, which are the errors of each layer against the layers before it |
| `Validation.LayeringAcceptsIff` | src/protocols/validation.cpp:13-101 | no error exactly when every layer stands where the layering rules, said of positions, allow |
| `ValidationErrors.LayeringErrorsAre` | src/protocols/validation.cpp:13-101 | the errors reported are exactly the flaws of each layer among those before it, each of its kind and at its offset |
| `Validation.ValidateLengths` | src/protocols/validation.cpp:103-160 | strict errors are the first of the lenient ones, with sizes that wrap around at 2^64 |
| `Validation.LengthsAcceptIff` | src/protocols/validation.cpp:103-160 | no error exactly when no layer's own length wraps, no layer starts beyond the 64-bit end of the one before, and every 64-bit end is at most the packet length |
| `ValidationErrors.AllLengthErrorsAre` | src/protocols/validation.cpp:103-160 | the errors reported are exactly the gaps, with the end they are measured from, the lengths beyond 64 bits, and the greatest end if it lies behind the packet |
| `Validation.AcceptedLayersLieInsideIff` | src/protocols/validation.cpp:103-160 | accepted layers really lie inside the packet exactly when none of their ends exceeds 64 bits |
| `Validation.WrappedEndAccepted` | src/protocols/validation.cpp:103-160 | two accepted layers of which one ends at 2^64 + 4 |
| `Validation.OverlapFreeIff` | src/protocols/validation.cpp:103-160 | an accepted list has no two layers that share a byte exactly when every layer that is not empty starts at or behind the end of all layers before it |
| `Validation.OverlapFreeIffEndToEnd` | src/protocols/validation.cpp:103-160 | without empty layers and wrapped ends: exactly when each layer starts at the end of the one before |
| `Validation.OverlapAccepted` | src/protocols/validation.cpp:103-160 | two layers that share bytes and are accepted |
| `Validation.ValidateChecksums` | src/protocols/validation.cpp:162-215 | strict errors are the first of the lenient ones, in the order IPv4, UDP, TCP, for the last layer of each name, whenever no read is led astray by a 64-bit sum |
| `ValidationErrors.ChecksumErrorsAre` | src/protocols/validation.cpp:162-215 | an error is reported exactly for the last IPv4, UDP and TCP layer with a bad verdict, at its offset |
| `ValidationErrors.UdpVerdict` | src/protocols/validation.cpp:238-266 | the verdict on UDP from the bytes: the field at bytes 6 and 7, 0 accepted, otherwise against the sum of both addresses, 17 and the length |
| `ValidationErrors.TcpVerdict` | src/protocols/validation.cpp:268-293 | the verdict on TCP: the field at bytes 16 and 17, against the same sum with 6 |
| `ValidationErrors.PseudoSumIs` | src/protocols/validation.cpp:319-357 | that sum, as bytes of the packet |
| `Checksum.OutOfReachIff` | src/protocols/validation.cpp:217-222 | a read is led astray exactly when the offset plus the header length wraps around to a size within the packet |
| `Validation.CalculatePseudoChecksum` | src/protocols/validation.cpp:319-357 | the loops compute the folded sum of addresses, protocol and length |
| `Validation.TransportBytesAreNotCovered` | src/protocols/validation.cpp:238-293 | the verdict on a TCP or UDP segment does not depend on its bytes outside the checksum field |
| `Validation.TcpSumsIff` | src/protocols/validation.cpp:268-293 | the TCP segments accepted: pseudo header plus field make a multiple of 65535, and the field is not 65535 |
| `Validation.UdpSumsIff` | src/protocols/validation.cpp:238-266 | the UDP datagrams accepted: likewise, or with a zero field |
| `Validation.RightTcpAcceptedIff` | src/protocols/validation.cpp:268-293 | a TCP segment with the right checksum is accepted exactly when its words without the field make a multiple of 65535 and the field is not 65535 |
| `Validation.RightUdpAcceptedIff` | src/protocols/validation.cpp:238-266 | a UDP datagram with the right checksum is accepted exactly under the same condition or with a zero field |
| `Validation.RightTcpRefused` | src/protocols/validation.cpp:268-293 | a right TCP segment that is refused |
| `Validation.RightUdpRefused` | src/protocols/validation.cpp:238-266 | a right UDP datagram that is refused |
| `GptpTlvs.ParseTlvArray` | src/protocols/gptp_decoder.cpp:80-104 | the loop returns the TLVs of the reading below |
| `GptpTlvs.SplitIffParsed` | src/protocols/gptp_decoder.cpp:355-382 | the parsed list is the only one whose encoding, with a tail at which no TLV can begin, is the input |
| `GptpTlvs.ParsePathTrace` | src/protocols/gptp_decoder.cpp:429-449 | a list exactly for positive multiples of eight bytes, of as many eights, each its own eight bytes of the input |
| `GptpTlvs.JoinIsInjective` | src/protocols/gptp_decoder.cpp:429-449 | a value is the join of one list only, so every path trace comes back |
| `SomeIpSd.RoundTrip` | src/protocols/someip_sd.cpp:206-276 | decoding a well-formed message within the limits gives exactly its entries and options in order, whatever follows |
| `SomeIpSd.EntryRoundTrip` | src/protocols/someip_sd.cpp:108-166 | both kinds of entry read back from their sixteen bytes |
| `SomeIpSd.EntryIs` | src/protocols/someip_sd.cpp:108-166 | for any sixteen bytes, where each field of the entry comes from; kinds 6 and 7, whatever their upper five bits, are of eventgroups |
| `SomeIpSd.EntryTailIs` | src/protocols/someip_sd.cpp:108-166 | its last four bytes are a minor version, or a counter of four bits and an eventgroup |
| `SomeIpSd.EntriesAre` | src/protocols/someip_sd.cpp:228-241 | on any bytes there are as many entries as fit and are allowed, one every sixteen bytes |
| `SomeIpSd.ParseOption` | src/protocols/someip_sd.cpp:168-204 | on any bytes a round stops or advances by at least three, within the bytes |
| `SomeIpSd.OptionsOccur` | src/protocols/someip_sd.cpp:255-272 | on any bytes every decoded option stands in them whole, behind those before it |
| `SomeIpSd.DecodeMessage` | src/protocols/someip_sd.cpp:206-276 | the loops and length checks, as the function that the theorems speak of |
| `SomeIpSd.DecodesIff` | src/protocols/someip_sd.cpp:206-276 | which bytes decode, from the two lengths with the first end cut to 32 bits, and what is then read from where |
| `SomeIpSd.ReportedSizeIff` | src/protocols/someip_sd.cpp:223-252 | the reported size is the bytes taken exactly when the 32-bit end of the entries does not wrap |
| `SomeIpSd.WrappedSizeDecodes` | src/protocols/someip_sd.cpp:223-252 | twelve bytes that decode and report 2^32 + 4 bytes of themselves |

## Left out

- Sockets, ioctl, mmap, timestamp configuration, filters and kernel statistics: foreign calls. `poll` is the point at which the kernel side of a ring may run.
- Ring memory as raw bytes: blocks, frames and their headers are records, and a packet's bytes are attached to its header.
- Memory models: the two-thread handshake is sequentially consistent and its loop runs once.
- Clocks are parameters of the operations that read them. Where a theorem needs it, they do not run backwards.
- `Reassembler.FragmentReassembler.AddFragment`: fragment offsets are unbounded, where the program stores them in 16 bits.
- `PcapFile.Reader.ReadBytes`: only the in-memory mode; files and their errors are left to the operating system.
- `PcapFile.Writer.WritePacket`: write failures and a closed file are left out, as are `flush` and the destructor.
- `PcapngWriter.Writer.WriteStatistics`: an identifier that was never given out is ruled out, since the program then reads beyond its list; with no interface at all the block may still name an interface that is never described.
- `PcapngReading.EveryRunSplits`: assumes blocks below 2^32 bytes, where the length fields are exact.
- `UdsTracker.Tracker.ProcessMessage`: event callbacks and mutexes are left out; a call is one atomic step.
- UDS services that do not touch a session (identifiers, routines, downloads): field extraction.
- `TcpTracker.TcpConnectionTracker.UpdateConnection`: a connection is updated through its key in the table, not through a pointer kept across a cleanup; MSS, window scale and SACK permission come already parsed from the options.
- `Dispatcher.Decode`: the DoIP, gPTP and RTPS decoders are parameters, of which only their results and whether they read beyond their bytes are known; so are SOME/IP and service discovery, which are also modelled and put in where a theorem is about them. After a read or a span outside the bytes the program's behaviour is undefined, and the model only says that there is no payload.
- `DispatcherProperties.FrameStaysInsideIff`: whether the DoIP, gPTP and RTPS decoders read beyond their bytes is not decided here.
- `Validation.ValidateChecksums`: layers whose offset plus header length wraps around to a size within the packet are ruled out when the program would look at them, since it then reads outside the packet.
- `DispatcherProperties.FramesPassLayering`: how a caller fills in the offsets and lengths of the layer list is not in the repository, so they are arbitrary.
- SOME/IP-TP reassembly beyond the bytes it copies (what it assembles does not influence the header decoder's result), DoIP payloads, gPTP message bodies, RTPS: other decoders, mostly fixed fields.
- Replay, device listing, libpcap capture, scenarios, reports and bindings.
