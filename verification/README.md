# Verification of the strongSwan data path and message codecs

A Dafny model of the protocol machinery in `libipsec`, `libtls`, `libradius` and
`libsimaka`, with proofs of what it promises. `dafny verify dfyconfig.toml` checks
everything.

| module | models |
|---|---|
| `SaMonitor` | the SA manager's monitor: check out, check in, visit, delete, expire and flush SAs under one mutex and one condition variable per entry, as a system of atomic steps |
| `ReplayWindow` | ESP sequence numbers and the circular anti-replay bitmap |
| `EspPacket`, `EspFlow` | ESP padding, encryption and decryption, and the processor: one SA with its lifetime and policies over an unreliable network |
| `IpPacket`, `InternetChecksum` | parsing and building IP packets, with their checksums |
| `PolicyMgr` | the sorted policy list and its priorities |
| `SaLifetime` | soft and hard expiry of an SA |
| `SpiAllocation` | drawing, reserving and releasing SPIs |
| `TlsRecord`, `TlsBuild` | reassembly of TLS records from arbitrary chunks, and cutting records into arbitrary fragments |
| `TlsCbc` | CBC record protection with implicit and explicit IVs |
| `RadiusCrypt`, `RadiusMessage` | RADIUS attribute hiding, attributes, signing and verification |
| `SimakaWire`, `SimakaMessage`, `SimakaGenerate` | EAP-SIM/AKA attributes, receiving messages with their encrypted sub-stream, and generating them |
| `Bytes`, `Ciphers` | shared: bytes, big-endian fields, alignment; ciphers and MACs as functions |

Hash functions, MACs, ciphers and AEAD transforms are parameters: any functions with
known output lengths where decryption undoes encryption. Random numbers, clocks and
settings are parameters too. Objects that the code updates in place are classes; their
methods are proved against functions, and the properties are proved of these functions.
For the SA manager each section that runs with the mutex held is one step, a condvar
wait ends a section, a signal wakes one blocked thread if there is one, and wake-ups may
be spurious.

## Findings

Each comes with the exact condition and with an input that fails.

- The anti-replay bitmap is right exactly for window sizes that divide 2^32
  (`ReplayWindow.WindowTheorem`, `OtherSizesFail`); the default of 128 does.
- An empty TLS record whose header is split over calls is handed on only by the next
  call that brings data (`TlsRecord.Tls.Process`, `LateEmptyRecord`).
- The second ESP padding can break the block alignment for unusual IV and block sizes
  (`EspPacket.EspRoundTrip`, `UnalignedIsRefused`).
- An IPv4 packet whose length field is below 20 is parsed, but what is forwarded of it
  is not parsed again (`IpPacket.ParseEncoding`, `CutHeaderIsParsedOnce`).
- UDP checksums that come out as zero are sent as zero, where RFC 768 asks for all ones
  (`IpPacket.UdpChecksumZero`, `ZeroChecksumSent`).
- Byte limits closer to the end of the 64-bit counter than the largest packet can be
  missed (`SaLifetime.ByteLimitTheorem`, `MissedLimit`; the 32-bit parameter allows
  2^32 - 1 bytes, the processor passes at most 65575), and times above 32 bits are truncated
  (`SaLifetime.TimersTheorem`, `LongLifeEndsAtOnce`).
- Moving an SA can give it the SPI and addresses of another one
  (`SpiAllocation.UpdateDistinct`, `UpdateMakesTwins`).
- A RADIUS message does not verify in general if it is an Access-Request that was signed
  without a generator and with `msg_auth`, or anything else that was signed with one
  (`RadiusMessage.SignVerifyTheorem`, `Refused`).
- A RADIUS password longer than 240 bytes after padding cannot be recovered
  (`RadiusMessage.PasswordRecovered`, `LongPasswordIsLost`), and an empty one is lost
  (`EmptyPasswordIsLost`).
- Failed verification of a RADIUS message leaves the buffer changed
  (`RadiusMessage.LeftUnchanged`, `WrongResponseIsChanged`).
- On a little-endian host the bit length of AT_RES is multiplied after the conversion to
  network order, so that lengths come back only below 32 modulo 256
  (`SimakaGenerate.ReadAllExact`, `LongResIsLost`); lengths up to 16, which section 10.8
  of RFC 4187 allows, are fine.
- Section 10.12 of RFC 4187 has AT_PADDING only where needed, of 4, 8 or 12 bytes; the
  code adds a whole block when the blocks are full (`SimakaGenerate.PaddingTheorem`,
  `FullBlocksArePadded`). The model follows the code.
- Notifications without P bit are generated without the MAC that verification asks for,
  as a remark in the code says (`SimakaGenerate.VerifyAfterGenerate`,
  `RefusedNotification`).
- Checking the MAC of an EAP-SIM/AKA message leaves it zeroed, so that a second check
  fails unless the MAC was all zeros (`SimakaMessage.VerifyAgain`,
  `SimakaGenerate.VerifyGeneratedTwice`, `RefusedTheSecondTime`).

Besides, a thread that finds an SA condemned can wake the deleting thread for nothing, any
number of times, until the waiting threads get the mutex; without such wake-ups and
spurious ones the resumptions are bounded (`SaMonitor.ResumesBounded`, `NudgedInVain`,
`LateWaitersHappen`).

## Model

| member | source | states |
|---|---|---|
| `SaMonitor.StepSafe` | src/libipsec/ipsec_sa_mgr.c:194-259 | Every section run under the mutex (add, checkout, update and query, checkin, delete, flush, wake-up, destruction) keeps: `locked` iff one holder, `waiting_threads` is the number of threads in `wait_for_entry`, `awaits_deletion` iff one remover, no duplicates or dangling entries in the list |
| `SaMonitor.StepKeepsInv` | src/libipsec/ipsec_sa_mgr.c:194-236 | The same together with: no wake-up is lost on any entry |
| `SaMonitor.StepWakes` | src/libipsec/ipsec_sa_mgr.c:202-235 | After any section, a thread blocked on an entry's condvar implies that the entry is locked or that a thread on that condvar is awake already |
| `SaMonitor.RunKeepsInv` | src/libipsec/ipsec_sa_mgr.c:194-259 | The invariant holds after every interleaving, of any length and any number of threads and entries, with spurious wake-ups |
| `SaMonitor.MonitorTheorem` | src/libipsec/ipsec_sa_mgr.c:615-748 | From the initial state, in every interleaving: exactly one holder if locked and none otherwise, exactly one remover if deletion is awaited and none otherwise, and the waiter count is exact |
| `SaMonitor.NoWakeupIsLost` | src/libipsec/ipsec_sa_mgr.c:202-235 | In every interleaving a blocked waiter or remover can count on a holder, whose checkin signals, or on a woken thread |
| `SaMonitor.LookTheorem` | src/libipsec/ipsec_sa_mgr.c:219-236 | In every reachable state, a thread that looks at an entry, for the first time or after a wait: is refused while somebody removes it, waits while somebody holds it, and otherwise holds it or is done with its visit |
| `SaMonitor.VisitsAreAlone` | src/libipsec/ipsec_sa_mgr.c:561-613 | In every reachable state no update and no query goes through on an entry that somebody holds |
| `SaMonitor.RemoveStep` | src/libipsec/ipsec_sa_mgr.c:194-213 | A removal leaves another one alone, waits for a holder, wakes all waiters and waits for them, and takes the entry off the list exactly when there is neither |
| `SaMonitor.AddStep` | src/libipsec/ipsec_sa_mgr.c:537-548 | An added entry is free and comes first |
| `SaMonitor.MayEnter` | src/libipsec/ipsec_sa_mgr.c:615-748 | With the mutex free, an idle thread may do anything to any listed entry, a holder may give it back, and a woken thread may go on |
| `SaMonitor.CondemnedStep` | src/libipsec/ipsec_sa_mgr.c:194-236 | Once `awaits_deletion` is set nobody new acquires the entry, it stays set, the number of waiters never grows and each waiter that resumes lowers it |
| `SaMonitor.CondemnedRun` | src/libipsec/ipsec_sa_mgr.c:194-236 | The same along every run of all threads: nobody new holds the entry, nobody joins the waiters, and the waiters that resume and those that are left are together at most the initial ones |
| `SaMonitor.FreedStep` | src/libipsec/ipsec_sa_mgr.c:615-647 | An entry is freed only by its remover, with no holder and no waiter, and no thread refers to it afterwards |
| `SaMonitor.DrainCanStep` | src/libipsec/ipsec_sa_mgr.c:202-212 | While a free, condemned entry is still listed, some woken thread on its condvar can run |
| `SaMonitor.DrainStep` | src/libipsec/ipsec_sa_mgr.c:202-235 | Each thread that runs on that condvar lowers a measure (twice the waiters plus an awake remover) or takes the entry off the list |
| `SaMonitor.DeletionFinishes` | src/libipsec/ipsec_sa_mgr.c:194-213 | Whatever the schedule of the woken threads on its condvar, the removal ends within the measure, and it cannot get stuck before |
| `SaMonitor.ResumesBounded` | src/libipsec/ipsec_sa_mgr.c:194-236 | Along every run of all threads: the threads on the condvar of a condemned entry resume at most as often as the measure, a holder and the nudges allow, where a nudge is a spurious wake-up of the remover or a thread that finds the entry condemned and signals |
| `SaMonitor.NudgedInVain` | src/libipsec/ipsec_sa_mgr.c:207-234 | Such a thread can wake the remover while the waiters are late, and the remover goes back to sleep in exactly the same state |
| `SaMonitor.LateWaitersHappen` | src/libipsec/ipsec_sa_mgr.c:194-236 | Six sections of three threads that reach such a state from the initial one |
| `SaMonitor.RemovalCanGoOn` | src/libipsec/ipsec_sa_mgr.c:194-236 | In every reachable state with the mutex free, a removal of a free entry has a woken thread that can run |
| `SaMonitor.RunKeepsFlushOk` | src/libipsec/ipsec_sa_mgr.c:242-259 | While a flush walks the list with waits in between, every older entry before its cursor is gone or condemned, in every interleaving |
| `SaMonitor.FlushCoversList` | src/libipsec/ipsec_sa_mgr.c:242-259 | When a flush ends, every entry that existed when it began is gone from the list or is being removed by somebody |
| `ReplayWindow.EspContext.SetWindowBit` | src/libipsec/esp_context.c:79-92 | Changes exactly one bit of the ring that the bytes stand for |
| `ReplayWindow.EspContext.VerifySeqno` | src/libipsec/esp_context.c:116-146 | The code on bytes computes the check on the ring of bits; false on an outbound context |
| `ReplayWindow.EspContext.Shift` | src/libipsec/esp_context.c:157-168 | The clearing loop clears exactly the bits that the window moves over |
| `ReplayWindow.EspContext.SetAuthenticatedSeqno` | src/libipsec/esp_context.c:148-175 | The code on bytes, with jumps beyond the window, is the transition of the ring of bits |
| `ReplayWindow.EspContext.NextSeqno` | src/libipsec/esp_context.c:183-192 | Numbers go up by one; none is given at 2^32 - 1 or on an inbound context |
| `ReplayWindow.SlotsAgree` | src/libipsec/esp_context.c:107-114 | The wrapping `(seqno_index - offset) % window_size` is the intended slot when the size divides 2^32 |
| `ReplayWindow.VerifyIsFresh` | src/libipsec/esp_context.c:107-146 | A ring that agrees with a set of accepted numbers passes s iff s > last, or 0 < s, last - s < size and s not accepted |
| `ReplayWindow.AgreeAfter` | src/libipsec/esp_context.c:148-175 | Accepting a number keeps ring and set in agreement, also for jumps larger than the window |
| `ReplayWindow.RingRefinesSet` | src/libipsec/esp_context.c:116-175 | Over every run of arrivals, authentic or not, bitmap and set let the same ones through |
| `ReplayWindow.OtherSizesFail` | src/libipsec/esp_context.c:107-114 | For a size that does not divide 2^32: two arrivals after which a fresh number in the window is refused |
| `ReplayWindow.WindowTheorem` | src/libipsec/esp_context.c:79-175 | The bitmap refines the set over every run if and only if the window size divides 2^32 |
| `EspPacket.GeneratePadding` | src/libipsec/esp_packet.c:286-294 | Fills the buffer with 1, 2, 3, ... |
| `EspPacket.CheckPadding` | src/libipsec/esp_packet.c:168-180 | Accepts exactly that padding |
| `EspPacket.StripPadding` | src/libipsec/esp_packet.c:185-225 | Trailer, padding check and payload parsing, against a function on the plaintext, with every error case |
| `EspPacket.DecryptPacket` | src/libipsec/esp_packet.c:227-281 | Outcome and window afterwards; the window moves exactly when the ICV is right |
| `EspPacket.EncryptPacket` | src/libipsec/esp_packet.c:296-386 | The packet for the next sequence number; failure without a change when numbers are used up; failure with the number used up when there is no IV or encryption fails |
| `EspPacket.UnpadMeans` | src/libipsec/esp_packet.c:185-225 | A plaintext is accepted, whoever made it, iff it is a payload, the bytes 1, 2, 3 up to n, n, and the next header |
| `EspPacket.PlaintextBytes` | src/libipsec/esp_packet.c:322-350 | What is encrypted has this form |
| `EspPacket.PacketHeader` | src/libipsec/esp_packet.c:352-372 | SPI and sequence number come first, in network order |
| `EspPacket.DecryptMeans` | src/libipsec/esp_packet.c:227-281 | Decryption gives an IP packet iff length, number, ICV and padding are right and the payload parses |
| `EspPacket.PlaintextShape` | src/libipsec/esp_packet.c:322-338 | The pad length fits one byte, the ICV is 4-byte aligned, and the plaintext is whole blocks iff the second padding is |
| `EspPacket.UsualTransforms` | src/libipsec/esp_packet.c:322-338 | It is whole blocks for block size 1, and for IV and block sizes that go with 4-byte alignment |
| `EspPacket.PaddingRoundTrip` | src/libipsec/esp_packet.c:185-225 | Removing the padding gives back payload and next header, for every payload |
| `EspPacket.EspRoundTrip` | src/libipsec/esp_packet.c:227-386 | Decrypting an encrypted packet that passes the window gives payload and next header iff the second padding is a multiple of the block size; otherwise the receiver refuses it |
| `EspPacket.UnalignedIsRefused` | src/libipsec/esp_packet.c:322-338 | Such a packet: one byte of payload, a sound transform with blocks of three bytes |
| `EspPacket.TunnelRoundTrip` | src/libipsec/esp_packet.c:227-386 | A packet that one end parsed comes out equal at the other end, except exactly an IPv4 packet with a length field below 20 |
| `EspFlow.ProcessInbound` | src/libipsec/ipsec_processor.c:92-166 | SPI and address lookup that skips a hard-expired SA, direction check, decryption, use statistics, next-header check, policy search and delivery, on the SA, its context and the policy manager, against the transition of the flow; nothing is delivered that no installed policy lets in |
| `EspFlow.ProcessOutbound` | src/libipsec/ipsec_processor.c:190-250 | Policy search, lookup by reqid, sequence number, encryption and use statistics, against the transition of the flow; nothing goes out when numbers are used up, encryption fails, or the best policy asks for another reqid |
| `EspFlow.StepKeepsInv` | src/libipsec/ipsec_processor.c:92-250 | Sending, any arrival (lost, reordered, duplicated, forged) and any timer keep window and accepted set in agreement and sent and delivered numbers distinct |
| `EspFlow.AtMostOnce` | src/libipsec/ipsec_processor.c:73-250 | Over every run the sender never reuses a number and stops at 2^32 - 1, and the receiver delivers each number at most once |
| `EspFlow.AcceptedArrived` | src/libipsec/ipsec_processor.c:92-166 | Only numbers that arrived are ever accepted |
| `EspFlow.ArrivalOf` | src/libipsec/ipsec_processor.c:73-166 | A packet made by the sender is delivered with its own content iff its number passes the window, the SA is alive, inbound and with a callback, the next header is 4 or 41, the blocks are whole, the payload parses and a policy lets it in |
| `EspFlow.FirstArrivalIsDelivered` | src/libipsec/ipsec_processor.c:73-166 | After every run: a first arrival not behind the window, with a payload that parses, an SA that is not hard-expired, an inbound policy and a callback, is delivered |
| `EspFlow.TunnelDelivers` | src/libipsec/ipsec_processor.c:73-250 | The very packet that one end parsed and sent is what the other end delivers, under the same conditions |
| `EspFlow.PolicyTheorem` | src/libipsec/ipsec_processor.c:73-250 | Over every run all sent packets are selected by the sender's policies, and each delivered packet is let in by the receiver's policies and arrived at its address, under its SPI and number, and opened under the key |
| `EspFlow.SendOf` | src/libipsec/ipsec_processor.c:190-250 | A packet goes out under the next number iff policy, direction, expiry, number and encryption allow it; a failed encryption uses the number up |
| `EspFlow.NoGaps` | src/libipsec/esp_context.c:183-192 | Over every run in which encryption works the numbers are 1, 2, 3 and so on |
| `EspFlow.SentIsCounted` | src/libipsec/ipsec_processor.c:244-244 | Over every run the sender's counters are the number and total size of what was sent, modulo 2^64 |
| `EspFlow.ArrivalCounts` | src/libipsec/ipsec_processor.c:103-134 | At the receiver a packet is counted iff the SA is found and inbound and the packet decrypts, whatever the policies say |
| `EspFlow.HardTimerEnds` | src/libipsec/ipsec_processor.c:103-134 | After a hard timer nothing goes out and nothing comes in |
| `EspFlow.AnnouncedProtocol` | src/libipsec/esp_packet.c:479-487 | The next header is 4 for IPv4 and 41 for IPv6 inside |
| `EspFlow.DeliveryTheorem` | src/libipsec/ipsec_processor.c:73-250 | Over every run in which only packets that the sender made before open under the key of the SA, each delivered packet was sent, under the same number |
| `EspFlow.OpenedIsSent` | src/libipsec/ipsec_processor.c:92-132 | Whatever the window, of a packet that the sender made only the sent packet itself comes out, under its number |
| `EspFlow.DuplicateIsDropped` | src/libipsec/ipsec_processor.c:92-166 | After every run: a number that was accepted is not delivered again |
| `IpPacket.WalkExtensions` | src/libipsec/ip_packet.c:235-278 | The walk over IPv6 extension headers ends on every input, at a suffix, before something that is no extension header |
| `IpPacket.ParseTransportHeaderV6` | src/libipsec/ip_packet.c:235-278 | The cursor loop computes that walk and the ports behind it |
| `IpPacket.WalkPrinted` | src/libipsec/ip_packet.c:235-278 | Any list of extension headers of any lengths is skipped, and a fragment header among them noticed |
| `IpPacket.ParsedV4` | src/libipsec/ip_packet.c:284-330 | Which IPv4 packets parse, and from which bytes version, addresses, protocol, ports, encoding and payload come |
| `IpPacket.ParsedV6` | src/libipsec/ip_packet.c:330-360 | The same for IPv6 after the extension headers |
| `IpPacket.ParsedParts` | src/libipsec/ip_packet.c:284-380 | The encoding is a prefix of the input and the payload a suffix of the encoding |
| `IpPacket.ParseEncoding` | src/libipsec/ip_packet.c:284-380 | Parsing the encoding of a parsed packet gives the same packet, except exactly when the input is IPv4 with a length field below 20: then it fails |
| `IpPacket.CutHeaderIsParsedOnce` | src/libipsec/ip_packet.c:284-380 | Such a packet: a bare header with length 0 |
| `IpPacket.ParseIgnoresTrailer` | src/libipsec/ip_packet.c:284-380 | Bytes after the length in the header make no difference |
| `IpPacket.FixInPlace` | src/libipsec/ip_packet.c:433-490 | Ports and checksum patched in place, against a function on the bytes |
| `IpPacket.FixedParts` | src/libipsec/ip_packet.c:433-490 | Only given ports and the checksum change, at their places in UDP and TCP headers that are complete |
| `IpPacket.PseudoSum` | src/libipsec/ip_packet.c:385-427 | The pseudo header sums up source, destination, protocol and length |
| `IpPacket.SegmentChecks` | src/libipsec/ip_packet.c:433-490 | A receiver that sums up pseudo header and finished UDP or TCP segment gets all ones |
| `IpPacket.HeaderChecks` | src/libipsec/ip_packet.c:508-523 | A receiver that sums up a finished IPv4 header gets all ones |
| `IpPacket.UdpChecksumZero` | src/libipsec/ip_packet.c:445-462 | A UDP checksum is sent as zero, which RFC 768 reserves, iff the whole sum over pseudo header and datagram folds to all ones |
| `InternetChecksum.FoldsToOnes` | src/libstrongswan/utils/chunk.c:1130-1134 | Which a positive sum does iff it is a multiple of 0xffff |
| `IpPacket.ZeroChecksumSent` | src/libipsec/ip_packet.c:445-462 | Such a datagram with two bytes of data |
| `InternetChecksum.Compute` | src/libstrongswan/utils/chunk.c:1118-1144 | The loops over words and carries compute the complement of the 32-bit sum, folded to the number with the same remainder modulo 0xffff, zero for zero only |
| `InternetChecksum.WordsAreWeighed` | src/libstrongswan/utils/chunk.c:1122-1130 | Bytes at even places count 256 times, also the last one of an odd number |
| `InternetChecksum.ChecksumChecks` | src/libstrongswan/utils/chunk.c:1118-1136 | A checksum computed in two stages and written over zeros makes the whole sum to all ones |
| `IpPacket.HeaderConstants` | src/libipsec/ip_packet.c:508-540 | Built headers have no options, fragments or flow label, and 128 hops |
| `IpPacket.UdpRoundTrip` | src/libipsec/ip_packet.c:495-566 | Parsing a built UDP datagram gives version, hosts, ports, protocol and data, for every datagram within the length fields |
| `SaLifetime.IpsecSa.ExpireNow` | src/libipsec/ipsec_sa.c:207-228 | The two flags and the events raised, against a function of the state |
| `SaLifetime.IpsecSa.UpdateUsestats` | src/libipsec/ipsec_sa.c:230-257 | Counters, limits in their order and the resulting expiry, against the run of all traffic and timers so far |
| `SaLifetime.IpsecSa.TimerFired` | src/libipsec/ipsec_sa_mgr.c:346-372 | A timer expires the SA softly or hard, against the same run |
| `SaLifetime.EventsInOrder` | src/libipsec/ipsec_sa.c:207-228 | Over every run the events are none, [soft], [hard] or [soft, hard], as the flags say |
| `SaLifetime.RunExact` | src/libipsec/ipsec_sa.c:207-257 | Over every run: hard-expired iff a packet or byte life limit was reached by the true totals or the hard timer fired; expired at all iff some limit was reached or some timer fired |
| `SaLifetime.FlagsStay` | src/libipsec/ipsec_sa.c:207-228 | Flags are never taken back, and no soft event follows a hard one |
| `SaLifetime.ByteLimitTheorem` | src/libipsec/ipsec_sa.c:230-257 | For packets of at most `max` bytes, a byte limit is noticed in every run iff limit + max <= 2^64: above that the 64-bit counter can wrap around it. The 32-bit parameter allows max = 2^32 - 1 |
| `EspFlow.PacketSize` | src/libipsec/ipsec_processor.c:131-132 | The processor passes at most 65575 bytes, so that for its traffic the theorem holds with max = 65575 |
| `SaLifetime.ExpiredIsNotFound` | src/libipsec/ipsec_sa.c:259-278 | From the moment a hard limit is due no lookup matches, ever; before that exactly those by its own SPI and address or its own reqid and direction do |
| `SaLifetime.TimersTheorem` | src/libipsec/ipsec_sa_mgr.c:346-410 | Timers fire hard at `life`, and soft at `rekey` if 0 < rekey < life, iff the times fit the 32-bit timeout and offset |
| `SaLifetime.LongLifeEndsAtOnce` | src/libipsec/ipsec_sa_mgr.c:377-410 | A life of 2^32 seconds ends at once |
| `SpiAllocation.ClampIsExact` | src/libipsec/ipsec_sa_mgr.c:456-469 | The range after swapping and clamping is the configured one without 0..255, or 256 alone |
| `SpiAllocation.DrawInRange` | src/libipsec/ipsec_sa_mgr.c:482-493 | `spi_min + random % (spi_max - spi_min + 1)` never wraps and stays in the range |
| `SpiAllocation.EveryCandidate` | src/libipsec/ipsec_sa_mgr.c:482-493 | Every number in the range can be drawn |
| `SpiAllocation.Pick` | src/libipsec/ipsec_sa_mgr.c:434-494 | A drawn candidate that is neither pre-allocated nor used by an inbound SA, or none iff all are taken |
| `SpiAllocation.SaManager.AllocateSpi` | src/libipsec/ipsec_sa_mgr.c:434-448 | Succeeds iff the SPI is free, and then reserves it |
| `SpiAllocation.SaManager.GetSpi` | src/libipsec/ipsec_sa_mgr.c:450-501 | Returns the first free candidate drawn from the clamped range, or fails when the generator does; state against the run so far |
| `SpiAllocation.SaManager.AddSa` | src/libipsec/ipsec_sa_mgr.c:503-559 | Fails iff the SA is not supported or one with its SPI and addresses is installed; comes first otherwise; drops the reservation with `update` even when it then fails |
| `SpiAllocation.SaManager.UpdateSa` | src/libipsec/ipsec_sa_mgr.c:561-591 | Gives the first SA with this SPI and addresses new addresses; fails iff there is none |
| `SpiAllocation.SaManager.DelSa` | src/libipsec/ipsec_sa_mgr.c:615-647 | Removes the first SA with this SPI and addresses; fails iff there is none |
| `SpiAllocation.StaysAllocated` | src/libipsec/ipsec_sa_mgr.c:434-448 | A reservation lasts until an SA with its SPI is added with `update` |
| `SpiAllocation.SpiTheorem` | src/libipsec/ipsec_sa_mgr.c:434-559 | Over every run: a returned SPI is in its range, above 255, unused, and not returned again unless its SA was added in between |
| `SpiAllocation.RunDistinct` | src/libipsec/ipsec_sa_mgr.c:503-647 | Over every run of all operations no two installed SAs share SPI and addresses, if no update moves an SA onto another one |
| `SpiAllocation.UpdateDistinct` | src/libipsec/ipsec_sa_mgr.c:561-591 | An update keeps identities distinct iff no other SA has the new one |
| `SpiAllocation.UpdateMakesTwins` | src/libipsec/ipsec_sa_mgr.c:561-591 | Three operations after which two SAs have the same SPI and addresses |
| `SpiAllocation.DeletedForGood` | src/libipsec/ipsec_sa_mgr.c:615-647 | As long as identities are distinct, after a deletion no such SA is left |
| `SpiAllocation.RunDisjoint` | src/libipsec/ipsec_sa_mgr.c:530-539 | Over every run that adds inbound SAs with `update`, no SPI is both reserved and in use |
| `PolicyMgr.PriorityIsLexicographic` | src/libipsec/ipsec_policy_mgr.c:74-114 | The 32-bit value never underflows or wraps, and orders policies exactly by class, then larger mask sum, then port, then protocol |
| `PolicyMgr.AtMostIsNumeric` | src/libstrongswan/selectors/traffic_selector.c:563-579 | Comparing addresses byte by byte is comparing them as numbers, so a selector includes exactly the addresses in its range |
| `PolicyMgr.AppliesMeans` | src/libipsec/ipsec_policy.c:92-135 | A policy applies iff direction and reqid fit, the protocol is its own or it has none, and both addresses and ports are in range as numbers |
| `PolicyMgr.PortsInRange` | src/libipsec/ipsec_policy.c:108-121 | For 16-bit ports, a port matches iff it is in the range or the range is the opaque one |
| `PolicyMgr.MatchIsEquality` | src/libipsec/ipsec_policy.c:92-103 | A policy matches the parameters of a deletion iff they are its own |
| `PolicyMgr.PolicyManager.AddPolicy` | src/libipsec/ipsec_policy_mgr.c:141-176 | The scan and insertion, against the run of all operations so far |
| `PolicyMgr.PolicyManager.DelPolicy` | src/libipsec/ipsec_policy_mgr.c:178-218 | Removes the first entry with equal priority that matches; fails iff there is none |
| `PolicyMgr.PolicyManager.FlushPolicies` | src/libipsec/ipsec_policy_mgr.c:220-235 | Empties the list |
| `PolicyMgr.InstalledTheorem` | src/libipsec/ipsec_policy_mgr.c:141-235 | Over every run each IPsec policy that is not for forwarding is installed as often as it was added and not deleted since the last flush |
| `PolicyMgr.RunOrdered` | src/libipsec/ipsec_policy_mgr.c:141-235 | Over every run the list is sorted by priority, newest first among equals, and holds only what was added |
| `PolicyMgr.DeleteUndoesAdd` | src/libipsec/ipsec_policy_mgr.c:141-218 | Adding and then deleting the same policy gives back the identical list, whatever else is installed and also for ignored policies |
| `PolicyMgr.PolicyManager.FindByPacket` | src/libipsec/ipsec_policy_mgr.c:237-264 | Finds an applicable entry that comes before every other one, or there is none |
| `PolicyMgr.BestMeansFirst` | src/libipsec/ipsec_policy.c:92-135 | In terms of policies: the one found has the lexicographically least key of all that apply and, among equals, was added last |
| `TlsRecord.Tls.Process` | src/libtls/tls.c:283-371 | One call: the records handed on, the status, and buffers that hold exactly the unconsumed tail |
| `TlsRecord.Tls.ProcessAll` | src/libtls/tls.c:283-371 | Any sequence of calls hands on what one parse of the whole stream gives, up to the first status other than NEED_MORE |
| `TlsRecord.ChunkingTheorem` | src/libtls/tls.c:283-371 | However a stream is cut, the records, statuses and remaining bytes are those of the whole stream; at most an empty record that ends in a split header is still pending |
| `TlsRecord.RecordsAppend` | src/libtls/tls.c:283-371 | Parsing a stream and then its continuation is parsing both at once |
| `TlsRecord.LateEmptyRecord` | src/libtls/tls.c:283-371 | Two concrete calls: an empty record whose split header ends a call is not handed on in that call |
| `TlsBuild.FrameRoundTrip` | src/libtls/tls.c:383-410 | Parsing framed records gives back the records, with nothing left |
| `TlsBuild.FrameBytes` | src/libtls/tls.c:383-410 | Type, version, length and body at their places; TLS 1.3 is announced as TLS 1.2 |
| `TlsBuild.Sender.Build` | src/libtls/tls.c:373-441 | One call: fragment, status, total length and what remains to be sent |
| `TlsBuild.Sender.BuildAll` | src/libtls/tls.c:373-441 | For any positive buffer sizes the fragments concatenate to the framed records, the first message length is their total, later ones are 0, and ALREADY_DONE comes exactly with the last fragment |
| `TlsBuild.TransferTheorem` | src/libtls/tls.c:283-441 | Framed records that a new receiver has processed, in whatever chunks, are the original records up to the first status other than NEED_MORE; an empty last record may be pending |
| `TlsBuild.Transfer` | src/libtls/tls.c:283-441 | Building with any buffer sizes and then processing with any cuts hands on the records that were queued |
| `TlsCbc.Strip` | src/libtls/tls_aead_impl.c:118-129 | The padding loop: padding that looks valid is removed, otherwise an error, and a length beyond the record is left to the MAC check |
| `TlsCbc.UnprotectPadded` | src/libtls/tls_aead_impl.c:57-151 | Padding plus MAC is whole blocks, and is taken off again |
| `TlsCbc.UnprotectMeans` | src/libtls/tls_aead_impl.c:118-151 | A plaintext is accepted, whoever made it, iff it is a body, its MAC, and nothing or n + 1 bytes of value n |
| `TlsCbc.PaddedBytes` | src/libtls/tls_aead_impl.c:57-86 | What is encrypted has this form, with the least padding that fills the blocks |
| `TlsCbc.SigHeaderBytes` | src/libtls/tls_aead_impl.c:48-67 | The MAC covers 64 bits of sequence number, type, version and length, in network order |
| `TlsCbc.ImplicitAead.Encrypt` | src/libtls/tls_aead_impl.c:57-95 | Record and stored IV afterwards, against a function of data and IV |
| `TlsCbc.ImplicitAead.Decrypt` | src/libtls/tls_aead_impl.c:97-151 | Gives a body iff the decrypted record is the body, its MAC and well-formed padding; the stored IV becomes the last bytes of the record even when padding or MAC are wrong |
| `TlsCbc.ImplicitStep` | src/libtls/tls_aead_impl.c:57-151 | A record is read as it was sent and both peers then hold its last block as IV |
| `TlsCbc.ImplicitChain` | src/libtls/tls_aead_impl.c:57-151 | The same over every sequence of records from a common IV |
| `TlsCbc.SealExplicit` | src/libtls/tls_aead_expl.c:59-100 | The record with its IV in front |
| `TlsCbc.OpenExplicit` | src/libtls/tls_aead_expl.c:102-160 | Gives a body iff the record without its IV decrypts to the body, its MAC and well-formed padding |
| `TlsCbc.ExplicitRoundTrip` | src/libtls/tls_aead_expl.c:59-160 | Every record is read as it was sent, on its own |
| `RadiusCrypt.Crypt` | src/libradius/radius_message.c:399-458 | With one buffer the routine encrypts the chain, with two it decrypts it; it fails, changing nothing, iff sizes differ or are no positive multiple of 16; the hidden form is, block by block, the exclusive or with hash(secret, authenticator, salt) and then hash(secret, block before) |
| `RadiusCrypt.XorIsXor` | src/libradius/radius_message.c:441-441 | The byte operation is exclusive or, bit by bit |
| `RadiusCrypt.EncryptHides` | src/libradius/radius_message.c:399-458 | Each block of the encrypted value is the exclusive or of the block with its pad |
| `RadiusCrypt.DecryptReveals` | src/libradius/radius_message.c:399-458 | And the decrypted value is what the input hides |
| `RadiusCrypt.DecryptAfterEncrypt` | src/libradius/radius_message.c:399-458 | For every hash, secret, seed and length, decrypting undoes encrypting |
| `RadiusCrypt.EncryptAfterDecrypt` | src/libradius/radius_message.c:399-458 | And the other way round |
| `RadiusCrypt.HideAndReveal` | src/libradius/radius_message.c:399-458 | Hiding in place and revealing into another buffer gives back the value |
| `RadiusMessage.RadiusMessage.Add` | src/libradius/radius_message.c:375-397 | The first non-empty password is kept aside, padded to 16; anything else is appended, cut to 253 bytes, with the length field updated |
| `RadiusMessage.RadiusMessage.Enumerate` | src/libradius/radius_message.c:247-291 | The cursor yields exactly the attributes of the message, and stops at bytes that do not hold another one |
| `RadiusMessage.DecodeEncoded` | src/libradius/radius_message.c:247-291 | Decoding encoded attributes gives them back, whatever truncated bytes follow |
| `RadiusMessage.EncodeDecoded` | src/libradius/radius_message.c:247-291 | And encoding decoded attributes gives back the bytes, for all bytes without an attribute shorter than its header |
| `RadiusMessage.RadiusMessage.Parse` | src/libradius/radius_message.c:697-711 | Received bytes become a message iff their length field is right |
| `RadiusMessage.EnumerateAfterAdds` | src/libradius/radius_message.c:247-397 | After any sequence of additions the message enumerates to what was added, cut to 253 bytes, save passwords kept aside |
| `RadiusMessage.EnumerateWithoutPasswords` | src/libradius/radius_message.c:247-397 | Without passwords among them that is everything that was added |
| `RadiusMessage.RadiusMessage.Sign` | src/libradius/radius_message.c:460-525 | The bytes are those of the message with authenticator, hidden password, Message-Authenticator over zeros, and Response-Authenticator |
| `RadiusMessage.RadiusMessage.Verify` | src/libradius/radius_message.c:527-610 | True iff both authenticators are right and an EAP message has one; says what every failure leaves in the buffer; success leaves every byte unchanged |
| `RadiusMessage.VerifiedMeans` | src/libradius/radius_message.c:527-610 | In bytes: a message verifies, whoever made it, iff it is a request or its authenticator is the hash with that of the request in its place, and the first Message-Authenticator is the MAC over the bytes with zeros in its place, or there is neither one nor EAP |
| `RadiusMessage.EapNeedsMac` | src/libradius/radius_message.c:604-608 | EAP without a Message-Authenticator is refused under all keys, with the buffer left as it was if the response is right; without either the response decides |
| `RadiusMessage.SignedMeans` | src/libradius/radius_message.c:460-525 | In bytes: random authenticator, or hash with that of the request in its place; Message-Authenticator last, over the bytes with zeros there |
| `RadiusMessage.PasswordMeans` | src/libradius/radius_message.c:485-495 | The password goes out as the first 253 bytes of its exclusive or with the pads |
| `RadiusMessage.AttributeBytes` | src/libradius/radius_message.c:375-397 | Type, length, at most 253 bytes of data; passwords padded with zeros to 16 bytes; zeros for the authenticator of a missing request |
| `RadiusMessage.LeftUnchanged` | src/libradius/radius_message.c:527-610 | The buffer is unchanged iff both authenticators are right, or what was written over it was there before |
| `RadiusMessage.WrongResponseIsChanged` | src/libradius/radius_message.c:535-556 | A response under the wrong keys leaves the authenticator of the request in the buffer |
| `RadiusMessage.VerifyAfterSign` | src/libradius/radius_message.c:460-610 | A signed message verifies with the same keys and request authenticator, if no Message-Authenticator was added before, EAP is signed with `msg_auth`, and either a generator was given iff it is an Access-Request, or it is an Access-Request without `msg_auth` |
| `RadiusMessage.SignVerifyTheorem` | src/libradius/radius_message.c:460-610 | Under the first two provisos, it verifies under all hash and MAC functions iff the third one holds |
| `RadiusMessage.Refused` | src/libradius/radius_message.c:460-610 | Otherwise there are a hash and a MAC under which it does not: a constant hash, and a MAC that shows the authenticator |
| `RadiusMessage.SignThenVerify` | src/libradius/radius_message.c:460-711 | Signing, parsing the bytes at the other side and verifying them succeeds, and leaves the same bytes |
| `RadiusMessage.PasswordRecovered` | src/libradius/radius_message.c:485-495 | The hidden password can be recovered iff it fits one attribute (240 bytes when padded) |
| `RadiusMessage.LongPasswordIsLost` | src/libradius/radius_message.c:485-495 | A password of 256 bytes is cut within a block |
| `RadiusMessage.EmptyPasswordIsLost` | src/libradius/radius_message.c:380-387 | An empty password leaves no trace |
| `SimakaWire.ReadOne` | src/libsimaka/simaka_message.c:308-441 | Reads one attribute of any kind from any bytes, or refuses its length, as long as the source reads within the chunk |
| `SimakaWire.ReadPrinted` | src/libsimaka/simaka_message.c:308-441 | Every well-formed attribute, with any reserved bytes or padding, is read as it was printed, whatever follows |
| `SimakaWire.LayoutNumbers` | src/libsimaka/simaka_message.c:308-441 | Which attribute numbers have which layout, and which are refused in the clear |
| `SimakaWire.PrintMeans` | src/libsimaka/simaka_message.c:655-745 | Where length and data are in each layout |
| `SimakaWire.PrintCountedMeans` | src/libsimaka/simaka_message.c:687-713 | And where length field and data are with a length field, in bits for AT_RES |
| `SimakaWire.ReadMeans` | src/libsimaka/simaka_message.c:325-345 | Which lengths of the fixed layouts are accepted, and which bytes are the data |
| `SimakaWire.ReadVariableMeans` | src/libsimaka/simaka_message.c:406-441 | The same for layouts of any number of words |
| `SimakaWire.ReadCountedMeans` | src/libsimaka/simaka_message.c:362-388 | The same for layouts with a length field |
| `SimakaMessage.AbsorbMeans` | src/libsimaka/simaka_message.c:443-482 | What each attribute changes; in the clear no notification may follow one with bit 0x40 cleared |
| `SimakaMessage.UnhiddenIsRefused` | src/libsimaka/simaka_message.c:325-400 | Attributes that have to be hidden are refused in the clear |
| `SimakaMessage.HiddenMeans` | src/libsimaka/simaka_message.c:491-518 | Hidden attributes are those of the decrypted data, which has to be whole blocks; none without key, IV or data |
| `SimakaMessage.SimakaMessage.ParseAttributes` | src/libsimaka/simaka_message.c:308-486 | The loop over the shrinking chunk, on any bytes within bounds, with MAC, IV, encrypted data and P bit, and every refusal |
| `SimakaMessage.SimakaMessage.Decrypt` | src/libsimaka/simaka_message.c:491-518 | Decrypts and parses only with key, IV and data; refuses partial blocks |
| `SimakaMessage.SimakaMessage.Parse` | src/libsimaka/simaka_message.c:520-537 | Clear attributes, then hidden ones; only the hidden ones if the message was parsed before |
| `SimakaMessage.SimakaMessage.Verify` | src/libsimaka/simaka_message.c:539-608 | True iff the subtype needs no MAC or the MAC over the message with zeros in its place is right; the MAC is zeroed, and stays so, iff it gets looked at |
| `SimakaMessage.VerifiedMeans` | src/libsimaka/simaka_message.c:539-608 | By subtype number: which pass without a MAC, which need the MAC over the bytes with zeros in its place and the signature data, and that no other passes; and what is left in the buffer |
| `SimakaMessage.VerifyAgain` | src/libsimaka/simaka_message.c:539-608 | An accepted message is accepted again iff its MAC was not looked at, or is sixteen zeros |
| `SimakaGenerate.EncodeCounted` | src/libsimaka/simaka_message.c:687-713 | Length field as a little-endian host writes it, data and padding |
| `SimakaGenerate.EncodeLength` | src/libsimaka/simaka_message.c:693-702 | The two length bytes as stored: they decode to the length, for AT_RES to eight times the length with its low byte taken modulo 32 |
| `SimakaGenerate.LengthInBits` | src/libsimaka/simaka_message.c:693-702 | Converting to network order first and multiplying then loses the bits of the length between 32 and 128 |
| `SimakaGenerate.EncodeRule` | src/libsimaka/simaka_message.c:655-745 | The bytes of each kind of attribute; data beyond the size of its rule is cut off |
| `SimakaGenerate.EncodeAll` | src/libsimaka/simaka_message.c:630-755 | The loop with its two buffers splits the attributes into a clear and a hidden stream, each in order |
| `SimakaGenerate.Pad` | src/libsimaka/simaka_message.c:757-773 | AT_PADDING of what is missing to whole blocks, a block if nothing is |
| `SimakaGenerate.PaddingTheorem` | src/libsimaka/simaka_message.c:757-773 | The padding is a whole block iff the blocks are full already; for blocks of 16 it is 4, 8 or 12 bytes iff they are not |
| `SimakaGenerate.FullBlocksArePadded` | src/libsimaka/simaka_message.c:757-773 | Such a list: a counter, a nonce and an identity of four bytes |
| `SimakaGenerate.Generate` | src/libsimaka/simaka_message.c:610-849 | The whole message: clear attributes, AT_IV and AT_ENCR_DATA if something is hidden, AT_MAC if the subtype has one, length, signature |
| `SimakaGenerate.RuleNumbers` | src/libsimaka/simaka_message.c:630-755 | Which attribute numbers are written, and which travel hidden |
| `SimakaGenerate.GeneratedBytes` | src/libsimaka/simaka_message.c:757-849 | In bytes: header with length, clear attributes, AT_IV and AT_ENCR_DATA if something is hidden, AT_MAC over all of it with zeros in its place |
| `SimakaGenerate.PlainBytes` | src/libsimaka/simaka_message.c:757-790 | What gets encrypted: the hidden attributes and AT_PADDING with zeros to the next block |
| `SimakaGenerate.ParseAfterGenerate` | src/libsimaka/simaka_message.c:308-849 | Parsing a generated message gives the clear attributes and then the hidden ones, each in their order, for every list of attributes with enough data that fits the buffers |
| `SimakaGenerate.GenerateThenParse` | src/libsimaka/simaka_message.c:308-849 | Generating a challenge or reauthentication, then parsing and verifying it with the same keys succeeds and gives these attributes |
| `SimakaGenerate.ReadAllExact` | src/libsimaka/simaka_message.c:687-713 | They come back unchanged iff each has exactly the size of its rule and every AT_RES a length below 32 modulo 256 |
| `SimakaGenerate.LongResIsLost` | src/libsimaka/simaka_message.c:687-713 | A result of 32 bytes comes back empty |
| `SimakaGenerate.Partition` | src/libsimaka/simaka_message.c:630-660 | Every attribute with a rule is in exactly one of the two streams, as often as it was added |
| `SimakaGenerate.VerifyAfterGenerate` | src/libsimaka/simaka_message.c:539-849 | A generated message verifies iff its subtype has a MAC, needs none, or it is a notification without a hidden P-bit-0 notify |
| `SimakaGenerate.HiddenNotifyIsRefused` | src/libsimaka/simaka_message.c:539-849 | Such a notification is generated, parsed and refused |
| `SimakaGenerate.RefusedNotification` | src/libsimaka/simaka_message.c:539-849 | With a cipher that leaves data alone and a constant MAC, the draft of such a notification fits the buffers, and the message is refused |
| `SimakaGenerate.VerifyGeneratedTwice` | src/libsimaka/simaka_message.c:539-849 | A generated challenge or reauthentication verifies a second time iff its MAC is sixteen zeros |
| `SimakaGenerate.RefusedTheSecondTime` | src/libsimaka/simaka_message.c:539-849 | With the same cipher and MAC, an empty challenge is generated, parsed, accepted the first time and refused the second time |
| `SimakaMessage.KeysMayComeLater` | src/libsimaka/simaka_message.c:491-537 | Parsing without keys and again with keys gives what parsing with keys gives |

## Left out

- The selective retransmission of IKE fragments in `task_manager_v2.c` and everything else in libcharon.
- Failures of hash, MAC and cipher calls and of generators: in this model they always succeed, but for the generator in `get_spi` and IV and encryption of ESP.
- Real cryptography, key derivation, and the secrecy or unforgeability of anything; `EspFlow.DeliveryTheorem` takes it as a hypothesis on the run that nobody else makes packets that open.
- SaMonitor.MonitorTheorem: which entry a lookup finds is left open, so that a step may pick any listed entry; acquires are not part of the monitor's state; threads that wait for the mutex itself are not modelled, nor is fairness.
- SaMonitor.DeletionFinishes: speaks of schedules of the threads on the entry's own condvar; what holds while all others run is in `CondemnedRun`, `ResumesBounded` and `RemovalCanGoOn`, and `NudgedInVain` shows why the bound alone does not do. That a holder checks in again is up to the holder, and that a woken thread gets the mutex is up to the scheduler.
- SpiAllocation.SaManager.DelSa: one step; waiting for holders and waiters is in `SaMonitor`. The same holds for `UpdateSa`.
- EspFlow.ProcessInbound: one SA on each side, and policies that do not change during a run; other SAs, acquires and the lock around the callbacks are left out.
- SaLifetime.IpsecSa.TimerFired: the removal of the entry after a hard timer is a removal in `SaMonitor` and a step in `SpiAllocation`.
- TlsRecord.Tls.Process: lengths above 32 bits in one call are not modelled; the protection layer is a function that judges the records so far.
- RadiusMessage.RadiusMessage.Enumerate: attributes with a length below 2, on which the cursor does not move on or moves into the header, are not modelled. The vendor enumerator is left out.
- RadiusMessage.RadiusMessage.Add: messages of 2^16 bytes and more are not modelled.
- SimakaMessage.SimakaMessage.Parse: bytes on which the code reads beyond the chunk or does not move on are not modelled, nor are AT_MAC, AT_IV and AT_ENCR_DATA inside of encrypted data, where they leave pointers to freed memory.
- SimakaGenerate.Generate: attributes have at least the data that their rules copy, AT_RAND a multiple of four bytes; the buffers of 1024 and 512 bytes are sequences that grow, and writes beyond them are not modelled.
- PolicyMgr.PolicyManager.FindByPacket: a selector's prefix length is given with it, not computed from its addresses; reference counts and the lock are left out.
- Message hooks, debug output, memory ownership and the inner workings of lists and hash tables.
- Sockets, retransmission timers, DNS, PT-TLS, the charon front ends and configuration loading.
- `simaka_manager.c`, `ipsec_event_relay.c` and `radius_config.c`: dispatch to callbacks and a socket pool.
