# Verification of jpcap and of the r0p3 layer stack

This project models, in Dafny 4.11, two programs that work on one another and proves what they
promise:

- **jpcap's packet codec** (`jpcap-0.7/src/c`): the functions that write a packet object into the
  bytes of a frame, the functions that take a captured frame apart, and the Internet checksum;
  with the instance slots that its opens and closes share, the MAC printer, and the timestamp
  arithmetic of the packet driver that comes with it.
- **the layer stack of `src/r0p3`**: the threads Physical, Logical, Network, Arp, Ip and the menu,
  with their queues, finish flags, the address table and its semaphore.

`dafny verify dfyconfig.toml` checks the whole project.

## How it is organised

| file | content |
|---|---|
| `Bytes.dfy`, `Packets.dfy` | bytes, words and byte order; the packet objects as values |
| `Checksum.dfy` | in_cksum and in_cksum2 against section 1 of RFC 1071 |
| `Builder.dfy` | set_packet and the set_* functions on a byte array, each against a function that gives the bytes |
| `Parser.dfy`, `ParserLaws.dfy` | get_packet, the analyze_* functions and writePacket; how a frame is split |
| `Boundaries.dfy` | where a frame is split, in terms of its bytes, for every network type |
| `WireLayout.dfy` | the frames of the builder byte by byte; packets of no known class |
| `ArpLayout.dfy` | for which address lengths set_arp and analyze_arp agree |
| `Ipv6.dfy` | the two walks over the IPv6 extension headers, against the chain of section 4 of RFC 2460 |
| `RoundTrip.dfy`, `SentChecksums.dfy` | what the parser makes of what the builder has made; which checksums verify |
| `StackModel.dfy` | the stack as a machine whose steps are single tests, polls, appends, acquires and releases |
| `Pipeline.dfy`, `PipelineLaws.dfy` | one sequential pipeline that every interleaving refines, and what it conserves |
| `StackLaws.dfy`, `StackTheorems.dfy` | the invariant of every interleaving, and results over whole runs |
| `Answers.dfy` | which replies a host issues |
| `ShutdownLiveness.dfy` | termination of every fair schedule; who waits for whom at the semaphore |
| `Delivery.dfy` | under every fair schedule every packet arrives |
| `Turns.dfy` | how single steps make up a turn of one thread's loop |
| `Hosts.dfy`, `EndToEnd.dfy`, `Resolution.dfy` | any number of hosts on one medium; the stack on top of the codec; when addresses get resolved, and rightly |
| `SelfPacketObject.dfy`, `StackObjects.dfy` | packets, layers and protocols as objects changed in place, tied to the steps |
| `HexText.dfy`, `AddressText.dfy` | addresses as text: table keys, printer, validators, parsers |
| `Allocator.dfy` | instance slots and native handles over all runs |
| `Timestamps.dfy` | system time and performance counter as seconds and microseconds |

Code that changes a buffer, a table or an object is a method with `modifies`, and its contract
equates the new contents with a function of the old; the lemmas are about those functions. The
threads are a step function, so that a run is any sequence of steps; `StackObjects` has the loop
bodies as methods and proves each to be that many steps of its thread.

## Where the code departs from its evident intent

The model follows the code, and says exactly when the code does what it is for:

- `src/r0p3/protocols/Arp.java:42` compares two array references, so the reply branch never runs.
  `Config.compareContents` chooses between that and the comparison its comment asks for. Every
  invariant holds for both. A host ever replies if and only if it compares contents (`RepliesIff`),
  and an address is ever resolved if and only if such a host shares the medium with one of another
  hardware address (`AddressesResolveIff`).
- Hosts that reply do so for any address (`Arp.java:42-49`): `EntriesAreOwnersIff` says when the
  tables are right all the same.
- requestIP waits for the console while it holds the semaphore that Arp.run needs
  (`Arp.java:138-152`): `MenuHolderMovesOn`, `ArpBlockedIff`, `UnansweredPromptStopsArp`.
- An odd trailing byte is summed wrongly by in_cksum on a little-endian host
  (`JpcapSender.c:346`) and by in_cksum2 on a big-endian one (`JpcapSender.c:373`):
  `CksumTotalMeaning`, `Cksum2TotalMeaning`, `TcpChecksumVerifiesIff`, `UdpChecksumVerifiesIff`.
- get_packet starts its walk over IPv6 headers 40 bytes early (`JpcapCaptor.c:740`):
  `WalkFromFixedHeader`, `TransportFoundIff`. analyze_ipv6 advances the wrong pointer over the
  addresses of a routing header (`packet_ipv6.c:133`): `LengthWalkIsChain`.
- A truncated transport header is marked with -1, which is also UNKNOWN_PROTO, and the length is
  then not clamped (`JpcapCaptor.c:792` and `857-860`). Lengths are `short`s, and one of 32768 or
  more is compared as a huge number: `SplitsWholeIff`, `TruncatedTcpIsNotClamped`,
  `LongCaptureIsLost`.
- writePacket dumps as many bytes as were captured, whether or not it has copied as many
  (`JpcapWriter.c:61-74`): `RecordIsCaptureIff`.
- The fragment flags are tested without `ntohs` (`packet_ip.c:50-52`) and the offset is converted
  twice (`packet_ip.c:88`, `JpcapSender.c:323`): `IpFieldsSurviveIff`, `FragmentFields`,
  `OffsetSurvivesIff`.
- set_arp writes addresses at fixed offsets, analyze_arp reads them at offsets that follow from
  the lengths (`packet_arp.c:30-80`): `LayoutsAgreeIff`.
- A frame type that get_packet does not know is taken for a transport protocol (`JpcapCaptor.c:783`),
  so that the length fields 1, 6 and 17 give ICMP, TCP and UDP packets: `OtherCut`,
  `PlainRoundTripIff`.
- Of a capture of exactly 42 bytes of ARP, get_packet leaves the transport protocol unset
  (`JpcapCaptor.c:778`); where the code assigns nothing the model has a parameter `stale`, and
  `ArpRoundTrip` shows that here it makes no difference.
- Opens that fail keep their slot (`JpcapSender.java:36-44`): `FailedSlotsAreLost`,
  `CanOpenAgainIff`. Nothing stops an instance from being closed twice (`JpcapSender.java:67-73`):
  `StaleCloseIsHarmlessIff`, `SecondCloseStealsHandle`.
- Without fix-up each processor has its own start (`time_calls.h:344-356`): `NeverBackIff`,
  `ProcessorsAgreeIff`.

## Model

| member | source | states |
|---|---|---|
| Bytes.StoreHtons | jpcap-0.7/src/c/packet_tcp.c:78-81 | a word converted with htons and stored is in network order on either host, and ntohs of a load gives it back |
| Bytes.LoadIsNet16 | jpcap-0.7/src/c/packet_udp.c:28-31 | ntohs of what a host loads is the network-order value, on either host |
| Checksum.TwoFoldsAreCanonical | jpcap-0.7/src/c/JpcapSender.c:347-349 | two folds of any 32-bit sum give 16 bits, congruent modulo 65535, zero only for zero |
| Checksum.FoldCountIsSharp | jpcap-0.7/src/c/JpcapSender.c:347-349 | one fold is not enough, a third changes nothing |
| Checksum.FoldedLoopIsOnesSum | jpcap-0.7/src/c/JpcapSender.c:338-350 | for up to 65537 words the deferred carries give the ones'-complement sum of RFC 1071 |
| Checksum.FoldedLoopBoundIsSharp | jpcap-0.7/src/c/JpcapSender.c:338-350 | with 65538 words of 0xffff the 32-bit accumulator wraps and the result is wrong |
| Checksum.SwapOnesAdd | jpcap-0.7/src/c/JpcapSender.c:341-344 | exchanging the bytes of both words exchanges the bytes of their ones'-complement sum |
| Checksum.ByteOrderIndependence | jpcap-0.7/src/c/JpcapSender.c:338-378 | section 2(B) of RFC 1071 for sequences of any length, odd ones included |
| Checksum.StoredUnswapped | jpcap-0.7/src/c/JpcapSender.c:325-326 | a host-order sum stored as it is leaves the bytes of the RFC 1071 checksum in memory |
| Checksum.AddWords | jpcap-0.7/src/c/JpcapSender.c:341-344 | the loop leaves, in 32 bits, the start value plus the words of the even part of the region |
| Checksum.InCksum | jpcap-0.7/src/c/JpcapSender.c:338-350 | in_cksum on an array: complement of the twice folded total, odd sizes included |
| Checksum.CksumTotalMeaning | jpcap-0.7/src/c/JpcapSender.c:338-350 | the result of in_cksum, stored, is the RFC 1071 checksum if and only if the size is even, or the host big-endian, or the last byte and the one after it are 0 |
| Checksum.InCksum2 | jpcap-0.7/src/c/JpcapSender.c:352-378 | in_cksum2 on an array: addresses, protocol, length and segment |
| Checksum.Cksum2TotalMeaning | jpcap-0.7/src/c/JpcapSender.c:352-378 | the result of in_cksum2 is the checksum of pseudo-header and segment, zero-padded, if and only if the size is even, or the host little-endian, or the last byte 0 |
| Checksum.InsertedChecksumVerifies | jpcap-0.7/src/c/JpcapSender.c:325-326 | a checksum computed over a zeroed field and stored there makes the checksum of the whole 0 |
| Checksum.UdpChecksumVerifies | jpcap-0.7/src/c/packet_udp.c:53-55 | it still verifies when 0 is replaced by 0xffff, and what is stored is never 0 |
| Builder.SetTcp | jpcap-0.7/src/c/packet_tcp.c:73-105 | the region holds exactly header, checksum and the payload that fits; nothing else is touched |
| Builder.FittingIsLongest | jpcap-0.7/src/c/packet_tcp.c:94-101 | the payload copied is the longest prefix that a packet of 1600 bytes holds |
| Builder.SetUdp | jpcap-0.7/src/c/packet_udp.c:40-56 | the same for UDP, with the zero-checksum rule |
| Builder.SetIp | jpcap-0.7/src/c/packet_ip.c:76-102 | the fields of the IPv4 header that set_ip writes, and nothing outside them |
| Builder.FinishIp | jpcap-0.7/src/c/JpcapSender.c:320-327 | conversion of length and offset and insertion of the checksum complete the header of RFC 791 |
| Builder.SetArp | jpcap-0.7/src/c/packet_arp.c:57-81 | the buffer after set_arp, for addresses of any lengths: each address at its fixed offset, later ones over earlier ones |
| Builder.ArpWrittenSized | jpcap-0.7/src/c/packet_arp.c:57-81 | for six- and four-byte addresses these are the 28 bytes of RFC 826, and no others change |
| ArpLayout.LayoutsAgreeIff | jpcap-0.7/src/c/packet_arp.c:30-80 | analyze_arp recovers all addresses from what set_arp wrote, whatever the buffer held, if and only if the lengths are 6 and 4 (or 0 and 0, or 10 and 0) |
| Builder.SetEther | jpcap-0.7/src/c/packet_datalink.c:51-67 | destination, source and type, or nothing without an EthernetPacket |
| Builder.SetPacket | jpcap-0.7/src/c/JpcapSender.c:227-336 | the buffer begins with the frame of the packet, whatever it held, except for four bits beside the TCP data offset |
| Builder.SendPacket | jpcap-0.7/src/c/JpcapSender.c:154-181 | what goes to pcap_sendpacket is that frame, zero-padded to 60 bytes |
| WireLayout.FrameLaid | jpcap-0.7/src/c/JpcapSender.c:227-336 | the frame of every packet byte by byte, in numbers: Ethernet header or none, the layouts of RFC 791, 793, 768 and 826 at their offsets, the protocol numbers, and the data, all of it and last |
| WireLayout.PlainRoundTripIff | jpcap-0.7/src/c/JpcapSender.c:330-333 | a packet of no known class, with any trailer, parses back with the same Ethernet header, a header of 14 bytes and its data followed by the trailer, if and only if its type is none of those that get_packet treats in a way of its own |
| Ipv6.ChainBounds | jpcap-0.7/src/c/packet_ipv6.c:92-181 | every header of a chain occupies at least 8 bytes |
| Ipv6.AnalyzeIpv6 | jpcap-0.7/src/c/packet_ipv6.c:92-181 | the loop, the inner one over routing addresses included, visits and measures what the recursive walk does, and terminates |
| Ipv6.LengthWalkIsChain | jpcap-0.7/src/c/packet_ipv6.c:92-181 | it visits the chain of RFC 2460 if and only if no routing header with addresses is followed by another extension header; then its length ends where the upper protocol begins |
| Ipv6.Classify | jpcap-0.7/src/c/JpcapCaptor.c:743-771 | the bounded loop computes protocol and remaining length, and its `short` never wraps |
| Ipv6.ClassWalkSteps | jpcap-0.7/src/c/JpcapCaptor.c:744-771 | it takes at most clen/8 steps, rounded up |
| Ipv6.ClassWalkIsChain | jpcap-0.7/src/c/JpcapCaptor.c:744-771 | from the first extension header it follows every chain it does not exhaust: same headers, offsets, upper protocol, remaining length |
| Ipv6.WalksAgree | jpcap-0.7/src/c/JpcapCaptor.c:737-772 | the two walks visit the same headers at the same offsets and account for the same bytes |
| Ipv6.WalkFromFixedHeader | jpcap-0.7/src/c/JpcapCaptor.c:740-744 | started at the fixed header it stops after one step at a protocol from 96 to 111 |
| Ipv6.TransportFoundIff | jpcap-0.7/src/c/JpcapCaptor.c:740-771 | so the right protocol is found if and only if there is no extension header, or the protocol equals the first byte |
| Ipv6.ChainIff | jpcap-0.7/src/c/packet_ipv6.c:114-178 | a chain is exactly the headers of types 0, 43, 44, 51 and 60 in the memory that follow each other: the next one 8 + 4L bytes on after type 51 with length byte L, 8 after type 44, 8 + 8L after the others, up to the first other type |
| Ipv6.LengthWalkIsLaid | jpcap-0.7/src/c/packet_ipv6.c:92-181 | with or without drift: the headers visited follow each other at those distances, 16 bytes further for each routing address, and the length returned is the sum of those distances without the 16 bytes |
| Ipv6.LaidIsWalked | jpcap-0.7/src/c/packet_ipv6.c:92-181 | and whenever such headers lie in the memory these are the ones visited |
| Ipv6.ClassWalkIsLaid | jpcap-0.7/src/c/JpcapCaptor.c:744-771 | the bounded walk, cut short or not: headers at those distances that begin within the capture, where it stops, what is left, and -1 for the types 50 and 59 |
| Parser.ClassifyFrame | jpcap-0.7/src/c/JpcapCaptor.c:705-793 | network and transport protocol for every link type, with every `short` and every branch |
| Parser.AnalyzeNetwork | jpcap-0.7/src/c/JpcapCaptor.c:832-856 | the lengths that the network layer gives |
| Parser.GetPacket | jpcap-0.7/src/c/JpcapCaptor.c:696-904 | the packet object that get_packet builds |
| Parser.WritePacket | jpcap-0.7/src/c/JpcapWriter.c:54-75 | the buffer begins with header followed by data, the rest is untouched, and caplen bytes of it are dumped |
| ParserLaws.RecordIsCaptureIff | jpcap-0.7/src/c/JpcapWriter.c:61-74 | what is dumped of a frame that get_packet has split is the capture, whatever the buffer held, if and only if the length used reaches its end and the parts fit; of a frame split without loss, if and only if all of the capture belongs to the packet |
| ParserLaws.SplitIsExact | jpcap-0.7/src/c/JpcapCaptor.c:861-890 | header and data are adjacent and as long as the clamped length, even if header lengths exceed what is left |
| ParserLaws.SplitIsExactIf | jpcap-0.7/src/c/JpcapCaptor.c:861-890 | the same for lengths up to 65535: exact if the two parts fit a `short`, otherwise negative or short of the datalink header |
| ParserLaws.SplitsWholeIff | jpcap-0.7/src/c/JpcapCaptor.c:831-903 | for every capture of up to 65535 bytes, every link, network and transport type: header ++ data is the prefix of the capture that belongs to the packet, if and only if the length used is that length and the parts fit |
| ParserLaws.ShortCaptureSplitsWholeIff | jpcap-0.7/src/c/JpcapCaptor.c:857-860 | up to 32767 bytes: if and only if the reported length equals what was captured, or is more and is clamped, or is less and not truncated to 16 bits |
| ParserLaws.RuntSplitsWholeIff | jpcap-0.7/src/c/JpcapCaptor.c:857-890 | the same for captures cut inside the datalink header |
| ParserLaws.UnclampedSplitIsWrong | jpcap-0.7/src/c/JpcapCaptor.c:857-903 | without the clamp the split is never that prefix |
| ParserLaws.TruncatedTcpIsNotClamped | jpcap-0.7/src/c/JpcapCaptor.c:788-793 | a capture cut inside the TCP header: 1514 bytes are reported of 44 |
| ParserLaws.LongCaptureIsLost | jpcap-0.7/src/c/JpcapCaptor.c:699 | on every link, a packet with 32768 bytes or more after its network header is never split without loss; on an unknown link it gets no arrays |
| ParserLaws.FrameTypeFixesClass | jpcap-0.7/src/c/JpcapCaptor.c:797-818 | the class of the object goes with the frame type, for captures of any length and whatever is left on the stack |
| Boundaries.CutsThere | jpcap-0.7/src/c/JpcapCaptor.c:861-903 | whatever the protocols, `header` ends behind the network and transport headers or with the packet, `data` goes from there to its end, and the transport fields are read behind the network header |
| Boundaries.Ipv4Cut | jpcap-0.7/src/c/JpcapCaptor.c:727-903 | every IPv4 capture of up to 32767 bytes on every link, with any IHL, data offset, total length, fragment offset and truncation: class, `header` and `data` in terms of the nibbles and bytes of the frame |
| Boundaries.Ipv6Cut | jpcap-0.7/src/c/JpcapCaptor.c:737-903 | the same for IPv6, extension headers included, with the fields that are read |
| Boundaries.ArpCut | jpcap-0.7/src/c/JpcapCaptor.c:774-903 | an ARP packet is all header, as long as its address lengths say or cut to the capture; with 28 bytes or fewer behind the datalink header, what is left on the stack decides whether it is cut |
| Boundaries.OtherCut | jpcap-0.7/src/c/JpcapCaptor.c:783-903 | every other type: the datalink header and then data to the end of the capture; as written, the types 1, 6 and 17 are taken for ICMP, TCP and UDP |
| Boundaries.UnknownCut | jpcap-0.7/src/c/JpcapCaptor.c:718-903 | a frame of an unknown link, or of type 0xffff, is all data |
| Boundaries.FragmentFields | jpcap-0.7/src/c/packet_ip.c:43-61 | for every packet: the offset is that of the packet, and the flags are those bits on a big-endian host but bits of the lower offset byte on a little-endian one |
| RoundTrip.FlagsRead | jpcap-0.7/src/c/packet_tcp.c:84-91 | all eight flags come back from the flag byte |
| RoundTrip.TosSurvivesIff | jpcap-0.7/src/c/packet_ip.c:91-96 | the parts of the TOS byte come back if and only if they fit their bits |
| RoundTrip.OffsetSurvivesIff | jpcap-0.7/src/c/packet_ip.c:85-88 | the offset comes back if and only if it has 13 bits and, on a little-endian sender, two equal bytes |
| RoundTrip.IpRead | jpcap-0.7/src/c/packet_ip.c:26-74 | analyze_ip inverts set_ip field by field, on either host |
| RoundTrip.TcpRead | jpcap-0.7/src/c/packet_tcp.c:22-71 | analyze_tcp inverts set_tcp |
| RoundTrip.UdpRead | jpcap-0.7/src/c/packet_udp.c:20-38 | analyze_udp inverts set_udp |
| RoundTrip.ArpRead | jpcap-0.7/src/c/packet_arp.c:21-55 | analyze_arp, with offsets from the packet, inverts set_arp, with fixed ones |
| RoundTrip.EtherRead | jpcap-0.7/src/c/packet_datalink.c:21-49 | analyze_datalink inverts set_ether |
| RoundTrip.TcpRoundTrip | jpcap-0.7/src/c/JpcapCaptor.c:833-903 | a TCP frame with any trailer parses back to the same MACs and fields and exactly the payload, between hosts of any byte orders |
| RoundTrip.UdpRoundTrip | jpcap-0.7/src/c/JpcapCaptor.c:833-903 | the same for UDP |
| RoundTrip.IpRoundTrip | jpcap-0.7/src/c/JpcapSender.c:303-309 | the same for IPv4 packets of other protocols |
| RoundTrip.ArpRoundTrip | jpcap-0.7/src/c/JpcapSender.c:328-329 | the same for ARP, with or without a trailer |
| RoundTrip.SentIsReceived | jpcap-0.7/src/c/JpcapSender.c:168-172 | what nativeSendPacket hands over, padding included, get_packet turns into the packet that was sent |
| RoundTrip.ArpFrameRoundTrip | jpcap-0.7/src/c/packet_arp.c:21-81 | an ARP packet whose numbers fit comes back identical |
| RoundTrip.TcpFieldsSurviveIff | jpcap-0.7/src/c/packet_tcp.c:31-51 | the TCP fields come back unchanged if and only if each fits its width |
| RoundTrip.IpFieldsSurviveIff | jpcap-0.7/src/c/packet_ip.c:43-61 | the IPv4 fields come back unchanged if and only if each fits, and no fragment flag is set or the receiver is big-endian |
| SentChecksums.VerifiesIff | jpcap-0.7/src/c/JpcapSender.c:338-378 | a stored word verifies if and only if it is congruent to the right checksum modulo 65535 |
| SentChecksums.IpChecksumVerifies | jpcap-0.7/src/c/JpcapSender.c:325-326 | every IPv4 header sent verifies |
| SentChecksums.TcpChecksumVerifiesIff | jpcap-0.7/src/c/packet_tcp.c:102-103 | a TCP segment verifies over its pseudo-header if and only if its trailing byte is summed in its place |
| SentChecksums.UdpChecksumVerifiesIff | jpcap-0.7/src/c/packet_udp.c:53-55 | likewise for UDP, and a checksum of 0 is never sent |
| Pipeline.StepRefines | src/r0p3/layers/Layer.java:63-73 | every step of every thread is a move of one sequential first-in first-out pipeline, or leaves it as it is |
| PipelineLaws.TypedMove | src/r0p3/layers/SelfPacket.java:68-92 | every packet in every line is of its kind: captured and raw, filtered, or our own with the datalink header agreeing with the fields |
| PipelineLaws.UpMove | src/r0p3/layers/Logical.java:27-80 | no move loses, doubles or reorders a wanted frame on its way up |
| PipelineLaws.DownMove | src/r0p3/layers/Network.java:56-63 | no move loses, doubles or reorders a packet on its way down, and none sends a captured one |
| StackLaws.ControlStep | src/r0p3/protocols/Arp.java:31-81 | the semaphore is held exactly in the critical sections, no thread dies, and a poll finds what the test saw |
| StackLaws.ShutdownStep | src/r0p3/layers/Network.java:74-77 | a finish flag is up exactly when the thread below has left its loop |
| StackLaws.TableStep | src/r0p3/protocols/Arp.java:51-61 | the table stays the first-reply-wins fold of what was handled, lagging only while the semaphore is held |
| StackLaws.InvariantRun | src/r0p3/Main.java:30-63 | all of this in every state of every run |
| StackModel.MacFilterIff | src/r0p3/layers/Logical.java:114-156 | the filter accepts exactly if some byte of the source is not ours and every byte of the destination is ours or every one is 0xff |
| StackTheorems.UpwardConservation | src/r0p3/layers/Logical.java:27-77 | handled ++ queued ++ on the way equals the captured sequence filtered on the bytes of source, destination and type, for ARP and for IP, in every reachable state |
| StackTheorems.HandledIsPrefix | src/r0p3/layers/Network.java:37-54 | what a protocol has handled is a prefix of that, and all of it when nothing is on the way |
| StackTheorems.DownwardConservation | src/r0p3/layers/Network.java:56-61 | frames handed over ++ on the way equals what requestIP and Arp.run issued; no captured packet is sent |
| StackTheorems.OwnTrafficIsIgnored | src/r0p3/layers/Logical.java:114-156 | every frame handed over has our MAC, broadcast and the ARP type, and is dropped if captured again |
| StackTheorems.FirstReplyWins | src/r0p3/protocols/Arp.java:51-61 | an address has an entry if and only if a reply for it was handled, and the entry is the first one's |
| StackTheorems.TableIsFirstReplyFold | src/r0p3/protocols/Arp.java:35-68 | over every run, entries are exactly the first replies for an address, keyed by text |
| StackTheorems.TablePersists | src/r0p3/protocols/Arp.java:55-58 | entries never change or vanish |
| StackTheorems.KnownIsNotAsked | src/r0p3/protocols/Arp.java:136-179 | once an address is in the table, no continuation of the run asks for it |
| StackTheorems.NoReplyAsWritten | src/r0p3/protocols/Arp.java:42-49 | with line 42 as written no reply is ever issued |
| Resolution.RepliesIff | src/r0p3/protocols/Arp.java:42-49 | some run of a host issues a reply if and only if it compares contents |
| ShutdownLiveness.StepShortens | src/r0p3/layers/Physical.java:32-65 | after the first finish no step lengthens the way to the end, and each step of a leaving thread shortens it |
| ShutdownLiveness.FairSchedulesFinish | src/r0p3/Main.java:58-61 | 24 rounds of any fair schedule end every thread |
| ShutdownLiveness.ExitEndsEverything | src/r0p3/Main.java:58-104 | choosing 2 in any reachable state ends every thread: two steps of the menu and 24 fair rounds |
| ShutdownLiveness.NobodyLeavesUnasked | src/r0p3/Main.java:81-103 | until 2 is chosen no flag goes up and no thread leaves, in any run |
| Delivery.StepAdvances | src/r0p3/layers/Logical.java:27-80 | while nobody leaves and the outside is quiet, each step of a thread that has something to do shortens what is left to do, and no step adds to it |
| Delivery.EverythingArrives | src/r0p3/Main.java:49-53 | from every reachable state, in any fair schedule, 64 quiet rounds for each packet in the stack bring every wanted frame to its protocol and every packet issued to the sender, once and in order, with the table complete and every request answered |
| ShutdownLiveness.PollsFindPackets | src/r0p3/layers/Layer.java:37-39 | no poll after a non-empty test yields null, in any reachable state |
| ShutdownLiveness.ArpHolderMovesOn | src/r0p3/protocols/Arp.java:35-68 | Arp never waits while it holds the semaphore |
| ShutdownLiveness.MenuHolderMovesOn | src/r0p3/protocols/Arp.java:138-173 | requestIP waits while it holds the semaphore if and only if it is at the prompt without a valid line; every other step leads it on |
| ShutdownLiveness.ArpBlockedIff | src/r0p3/protocols/Arp.java:34-35 | in every reachable state Arp, with a packet to handle, is held up if and only if the menu is inside requestIP |
| ShutdownLiveness.UnansweredPromptStopsArp | src/r0p3/protocols/Arp.java:146-152 | while the prompt is not answered no run handles a packet, changes the table or issues anything |
| ShutdownLiveness.LineFreesSemaphore | src/r0p3/protocols/Arp.java:154-173 | three menu steps after a valid line, counting the one that takes it, requestIP has released the semaphore, whatever the other threads do |
| Hosts.MediumIsOwn | src/r0p3/protocols/Arp.java:161-166 | every frame on a medium shared by such hosts is an ARP frame that one of them issued |
| Hosts.EntriesComeFromReplies | src/r0p3/protocols/Arp.java:42-58 | every entry maps an address that some host asked for to the MAC of a host that replied for it, compares contents and has another MAC than the asker |
| Hosts.AnswersForAnyAddress | src/r0p3/protocols/Arp.java:112-132 | a reply names the address asked for, whoever gives it |
| Answers.RepliesAreAnswers | src/r0p3/protocols/Arp.java:42-49 | the replies issued are exactly one for each packet handled with operation 1 and six zeros as target hardware address, in that order and field by field, if contents are compared, and none otherwise |
| Hosts.AsWrittenNothingIsResolved | src/r0p3/protocols/Arp.java:42-49 | among hosts that run line 42 as written every table stays empty |
| Resolution.Exchange | src/r0p3/protocols/Arp.java:31-179 | a run in which one host asks for an address, another answers and the first learns: request and reply go down one stack and up the other |
| Resolution.UnicastReplyIsLearned | src/r0p3/layers/Logical.java:137-153 | a captured reply addressed to our MAC alone goes up to Arp and into the table |
| Resolution.CapturedReplyIsLearnedIff | src/r0p3/layers/Logical.java:114-156 | a captured reply is learned in some run if and only if its source is not ours and its destination is ours or broadcast, byte by byte |
| Resolution.AddressesResolveIff | src/r0p3/protocols/Arp.java:42-58 | some run gives some host an entry if and only if a host that compares contents and a host with another MAC share the medium |
| Resolution.EntriesAreOwnersIff | src/r0p3/protocols/Arp.java:112-132 | every entry of every run is the MAC of a host configured with that address if and only if every replying host is right for every address |
| EndToEnd.PreparedStep | src/r0p3/protocols/Arp.java:87-133 | every ARP packet that any host issues has the lengths of Ethernet/IPv4 and numbers that fit |
| EndToEnd.HandedFramesArrive | src/r0p3/layers/Physical.java:110-117 | in every run of any number of hosts, what one hands over is, as bytes, captured and parsed by another as the packet it was |
| EndToEnd.RequestOnTheWire | src/r0p3/protocols/Arp.java:94-105 | the 60 bytes that a request becomes, laid out as in RFC 826 |
| EndToEnd.ReplyOnTheWire | src/r0p3/protocols/Arp.java:112-132 | the 60 bytes of the reply to it |
| SelfPacketObject.SelfPacket.constructor | src/r0p3/layers/SelfPacket.java:23-43 | wraps the header of the packet, or a new one |
| SelfPacketObject.SelfPacket.SetMacSrc | src/r0p3/layers/SelfPacket.java:68-72 | field, shared header and packet change together, and nothing else |
| SelfPacketObject.SelfPacket.SetMacDst | src/r0p3/layers/SelfPacket.java:78-82 | the same for the destination |
| SelfPacketObject.SelfPacket.SetEtherType | src/r0p3/layers/SelfPacket.java:88-92 | the same for the type |
| SelfPacketObject.SelfPacket.Rewrite | src/r0p3/layers/Logical.java:55-63 | the rewriting of a packet on its way down, on objects |
| SelfPacketObject.DressedInStep | src/r0p3/layers/Logical.java:55-63 | after it packet.datalink and the fields agree: our MAC, broadcast, the type asked for |
| SelfPacketObject.MacAddressesFilter | src/r0p3/layers/Logical.java:114-156 | the three loops decide "not from us, and to us or to all", stated on the single bytes |
| Turns.StepsAreARun | src/r0p3/layers/Layer.java:10-73 | a turn of one thread alone is a run of the step machine |
| StackObjects.Stack.constructor | src/r0p3/Main.java:19-35 | the wiring of Main is the initial state |
| StackObjects.Stack.PhysicalRun | src/r0p3/layers/Physical.java:31-66 | one turn of the loop: capture, forward, send one |
| StackObjects.Stack.LogicalRun | src/r0p3/layers/Logical.java:27-80 | one turn: filter up or rewrite down |
| StackObjects.Stack.NetworkRun | src/r0p3/layers/Network.java:30-77 | one turn: dispatch or send down; the end of the loop raises both flags |
| StackObjects.Stack.ArpRun | src/r0p3/protocols/Arp.java:31-81 | one turn under the semaphore: reply, insert or nothing |
| StackObjects.Stack.IpRun | src/r0p3/protocols/Ip.java:18-38 | one turn |
| StackObjects.Stack.RequestIP | src/r0p3/protocols/Arp.java:136-179 | a request if and only if the address is not in the table |
| StackObjects.Stack.Finish | src/r0p3/Main.java:58-61 | the first finish |
| HexText.ByteToStrInjective | src/r0p3/protocols/Arp.java:191-196 | byte arrays of any lengths with the same text are equal |
| HexText.ByteToStrLoop | src/r0p3/protocols/Arp.java:191-196 | the loop computes that text |
| HexText.ByteToStrParts | src/r0p3/protocols/Arp.java:191-196 | split at its colons the text gives the bytes back, each as its hexadecimal number in lower case without leading zero |
| AddressText.GetAddress | jpcap-0.7/src/java/jpcap/packet/EthernetPacket.java:40-52 | the loop fills in the 17 characters |
| AddressText.MacRoundTrip | jpcap-0.7/src/java/jpcap/packet/EthernetPacket.java:83-95 | every printed MAC, of bytes of either sign, is accepted and parses back to the same bytes |
| AddressText.HexCharsAre | jpcap-0.7/src/java/jpcap/packet/EthernetPacket.java:83-95 | the two characters are the lower-case hexadecimal digits of the unsigned byte |
| AddressText.AcceptedMacParses | src/r0p3/layers/Logical.java:96-111 | every accepted string splits into six parts that parse to 0..255 |
| AddressText.AcceptedMacIff | src/r0p3/layers/Logical.java:106-111 | the expression accepts exactly what splits at dots, colons and hyphens into six parts of two hexadecimal digits |
| AddressText.OctetIff | src/r0p3/layers/Network.java:105-110 | the expression for an octet accepts exactly one to three digits of value at most 255 |
| AddressText.AcceptedIpIff | src/r0p3/layers/Network.java:105-110 | the whole expression accepts exactly what splits at dots into four octets |
| AddressText.AcceptedIpParses | src/r0p3/layers/Network.java:94-100 | every accepted string splits into four parts that parse to 0..255 |
| AddressText.StoreMac | src/r0p3/layers/Logical.java:96-104 | an accepted line is stored without an exception |
| AddressText.StoreIp | src/r0p3/layers/Network.java:94-101 | likewise |
| Allocator.OpenMeans | jpcap-0.7/src/java/jpcap/JpcapCaptor.java:65-94 | over every run an open takes the least free slot; it fails if and only if all slots are taken or libpcap fails, and then the slot stays taken without a handle; "Another Jpcap instance" is never reported |
| Allocator.CountsAreOfEvents | jpcap-0.7/src/java/jpcap/JpcapInstance.java:4-19 | from the start of the program, the numbers of open instances and of failed opens, and what the next open does, are those counted from the opens and closes alone |
| Allocator.FirstOpensAreInOrder | jpcap-0.7/src/java/jpcap/JpcapInstance.java:4-19 | the first opens get the IDs 0, 1, 2 and so on, up to all 255 |
| Allocator.HandlesAreOwned | jpcap-0.7/src/c/JpcapCaptor.c:365-390 | a native handle is non-null if and only if an open instance holds its ID |
| Allocator.StepKeepsOwned | jpcap-0.7/src/java/jpcap/JpcapSender.java:36-73 | distinct IDs, own handles, and reserved slots = open instances + failed opens |
| Allocator.FailedSlotsAreLost | jpcap-0.7/src/java/jpcap/JpcapSender.java:36-44 | slots of failed opens never come back; after 255 of them nothing opens |
| Allocator.CanOpenAgainIff | jpcap-0.7/src/java/jpcap/JpcapSender.java:36-73 | after some further opens and closes a device can be opened if and only if fewer than 255 opens have failed |
| Allocator.StaleCloseIsHarmlessIff | jpcap-0.7/src/java/jpcap/JpcapSender.java:67-73 | a close by an instance that is closed already keeps the tables right if and only if its slot is free, and then changes nothing |
| Allocator.SecondCloseStealsHandle | jpcap-0.7/src/java/jpcap/JpcapSender.java:36-73 | open, close, open, close of the first: the second instance stays open without its handle, and the next open takes its slot |
| Allocator.Instances.ReserveID | jpcap-0.7/src/java/jpcap/JpcapInstance.java:10-19 | the loop takes the least free slot, or gives -1 and changes nothing |
| Allocator.Instances.OpenDevice | jpcap-0.7/src/c/JpcapSender.c:72-99 | the tables after an open |
| Allocator.Instances.CloseDevice | jpcap-0.7/src/c/JpcapSender.c:385-391 | the tables after a close, of an open instance or a stale one |
| Timestamps.Clock.SynchronizeOnCpu | jpcap-0.7/src/c/win32/WpdPack/Include/time_calls.h:125-153 | the start is system time minus counter, in microseconds, borrow included |
| Timestamps.Clock.TimeSynchronize | jpcap-0.7/src/c/win32/WpdPack/Include/time_calls.h:284-326 | every processor's start, or the first one's, as the mode says, once |
| Timestamps.Clock.GetTimeKQPC | jpcap-0.7/src/c/win32/WpdPack/Include/time_calls.h:333-378 | a read is start plus counter, carry included; with fix-up, the later of it and old_ts |
| Timestamps.GetTimeQST | jpcap-0.7/src/c/win32/WpdPack/Include/time_calls.h:432-441 | the direct conversion of the system time |
| Timestamps.Clock.GetTime | jpcap-0.7/src/c/win32/WpdPack/Include/time_calls.h:446-468 | each mode has its own source: the system time, the first processor, or the processor it runs on, with or without fix-up |
| Timestamps.EpochIsCalendar | jpcap-0.7/src/c/win32/WpdPack/Include/time_calls.h:139-139 | 11644473600 is the number of seconds of the years 1601 to 1969 of the Gregorian calendar |
| Timestamps.FrequencyIff | jpcap-0.7/src/c/win32/WpdPack/Include/time_calls.h:145-145 | the product does not overflow for any remainder if and only if the frequency is at most 9223372036855 |
| Timestamps.TicksSplit | jpcap-0.7/src/c/win32/WpdPack/Include/time_calls.h:343-352 | dividing first and scaling the remainder is the floor of counter * 10^6 / frequency |
| Timestamps.TotalSurvivesIff | jpcap-0.7/src/c/win32/WpdPack/Include/time_calls.h:139-152 | microseconds lie in [0, 10^6), and the total is kept if and only if the seconds fit a LONG |
| Timestamps.ReadingAtSynchronization | jpcap-0.7/src/c/win32/WpdPack/Include/time_calls.h:432-441 | at the count of the synchronization a read equals the direct conversion |
| Timestamps.ReadingFollowsCounter | jpcap-0.7/src/c/win32/WpdPack/Include/time_calls.h:343-376 | reads are monotone, and the time between two is that of the counter up to one microsecond |
| Timestamps.Clock.ReadAll | jpcap-0.7/src/c/win32/WpdPack/Include/time_calls.h:333-378 | any sequence of reads on any processors in fix-up mode: the results are the readings fixed up one after the other, and never go backwards |
| Timestamps.FixedUpIsRunningMaximum | jpcap-0.7/src/c/win32/WpdPack/Include/time_calls.h:358-365 | every fixed-up reading is the latest so far |
| Timestamps.FixedUpNeverGoesBack | jpcap-0.7/src/c/win32/WpdPack/Include/time_calls.h:358-365 | no sequence of fixed-up readings goes backwards |
| Timestamps.FixedUpKeepsOrder | jpcap-0.7/src/c/win32/WpdPack/Include/time_calls.h:358-365 | readings in order pass unchanged |
| Timestamps.NeverBackIff | jpcap-0.7/src/c/win32/WpdPack/Include/time_calls.h:344-356 | without fix-up, reads that move from one processor to another never go backwards if and only if the first one's start is not later |
| Timestamps.ProcessorsAgreeIff | jpcap-0.7/src/c/win32/WpdPack/Include/time_calls.h:344-356 | reads that move freely between two processors never go backwards if and only if their starts are equal |

## Left out

- Sending IPv6 packets, and the fixed-header fields and bodies of extension headers when parsing: the code never writes options and does not read the fields back consistently. Types, lengths and offsets are modelled.
- ICMP: analyze_icmp and its setter do not match, so there is no round trip; only that the class is ICMPPacket and the header has 8 bytes.
- IPv4 and TCP option arrays; header lengths beyond 20 are modelled where they move offsets.
- Raw sockets, getJpcapSenderInstance, filters, statistics, timeouts, device listing: capture is an arbitrary input, transmission an append to a history.
- Builder.SetArp: does not model address arrays shorter than the lengths say, for which the copy throws.
- Builder.SetPacket: does not model frames that exceed the 1600-byte buffer, because set_packet has no bounds check; nor ARP packets with a payload, which it counts without copying it, or with other address lengths than 6 and 4, of which it sends 28 bytes all the same.
- RoundTrip.SentIsReceived: does not model offsets other than 0, because IPPacket.setIPv4Parameter in effect always leaves 0; OffsetSurvivesIff covers the field alone.
- Parser.GetPacket: does not model what is read beyond the region that begins with the frame; such a read gives 0, or a fault in analyze_ipv6. A null `data` or `header` array is the empty sequence, and the packet with a negative length is one outcome without its fields.
- ParserLaws.SplitsWholeIff: does not model an extension-header chain whose length is negative as a `short`, because the code then reads in front of the frame; captures cut inside the datalink header are in RuntSplitsWholeIff.
- Boundaries.Ipv6Cut: does not model captures that end in the datalink or the fixed IPv6 header, because what is cut then depends on memory behind the capture and on the stack; SplitsWholeIff and RuntSplitsWholeIff cover them.
- Boundaries.Ipv4Cut: does not model a packet that runs past the memory, or past 32767 bytes, because its capture ends inside the transport header and the length is not cut.
- Parser.WritePacket: does not model packets that exceed its 1600-byte buffer, because the code has no bounds check.
- Checksum.FoldedLoopIsOnesSum: does not model a 64-bit `unsigned long`, where the accumulator never wraps; 32 bits is the stricter case.
- StackModel: does not model the semaphores of the layers and of Ip, because each is acquired by one thread only, around one append; LinkedList operations are atomic and finish flags visible at once, although the code guarantees neither.
- StackModel: does not model sendPackage failing; a frame counts as handed over when it is given to jpcap's sender.
- StackObjects.Stack.LogicalRun: does not model aliasing of queued packets, because queues hold values; SelfPacketObject has the setters on shared objects. Turns there are without interference; interleavings are in StackModel.
- Timestamps.Clock.GetTimeKQPC: does not model counters faster than 9.2 THz, where the 64-bit product overflows (FrequencyIff); nor reads that interleave, because comparing and storing the shared static `old_ts` is taken as atomic, which the code does not ensure.
- AddressText.MacRoundTrip: does not model digits outside ASCII, which the validators reject and parseInt would accept, nor lines with line terminators, which nextLine never returns.
- RDTSC timestamps, registry and processor affinity.
- Console menus, printing and toString.
