# QTunnel packet core: a Dafny model

This project models the byte-level core of the QTunnel VPN and proves what it promises: the Internet
checksum engine of the IPv4, TCP and UDP classes, the codec that strips a TCP header on one side and
rebuilds it on the other, TLS record framing and the receive buffer, splitting and reassembly of packets,
the ClientHello builders and parsers, TCP options, address text, the kernel's packet filter and the
Wireshark dissector. Objects whose methods update fields are classes, loops over buffers are loops, and each
of them is proved against a function whose properties are then proved for all inputs and all runs.

How the modules build on each other:

- `Bytes`, `Words`, `Protocols`, `Wrappers`: octets, big-endian fields, commuting words, protocol numbers, optional
  values.
- `Checksum`, `Headers`, `Packet`, `TunnelHeaders`: sums and folds, header objects and views, whole packets
  that are rewritten on the way, headers carried through the tunnel. The checksum follows section 1 of
  RFC 1071; the headers follow section 3.1 of RFC 791, section 3.1 of RFC 9293 and RFC 768.
- `Records`, `SafeReceive`: record framing (section 5.1 of RFC 8446) and the buffer a socket fills.
- `Fragments`, `Reassembly`, `Manager`, `Proxy`, `Tunnel`, `Delivery`, `Stream`: from a packet to fragments, to
  records, to a stream, and back to the packet.
- `ArrivalOrder`: the fragments of one packet in any order.
- `Outgoing`: the headers the server generates for a packet it has decoded, and their lengths and checksums.
- `ServerLoop`, `Session`: the server's loop over the records of one receive, and its session, receive after receive,
  each into a fresh buffer.
- `Entries`, `Hello`: length-prefixed lists, the ClientHello and the server name in it (sections 4.1.2, 4.2, 4.2.1
  and 4.2.8 of RFC 8446, section 3 of RFC 6066).
- `TcpOptions`, `AddressText`, `Filter`, `Dissector`: each on its own.
- `KnownAnswers`: one exchange and the other formats worked out octet for octet.

Where the code falls short of what one would expect of it, the model keeps the code as it is and the lemma
states exactly when it does meet the expectation:

- A part is inserted into a packet at the first octet whose *value* equals its offset (`Fragments`,
  `Delivery.InOrderExactly`, `Delivery.LastDecides`).
- Whichever part arrives first fixes the size, and all but the first leave the proxy data out of it: the packet then
  never comes out as it was sent (`ArrivalOrder.OtherFirst`).
- What a dropped part leaves behind spoils the next packet with its id (`ServerLoop.StaleEntrySpoils`).
- The split loop moves its start by 0, 1, 2, ... pieces, sends only whole pieces, and goes astray from the fifth on
  (`Fragments`, `Stream.SentWholeExactly`).
- The records of a packet are separated by 16-bit offsets (`Tunnel.SentIntact`).
- The tail behind a completed record is registered one buffer length too far: octets are lost, or the parser reads
  past the end (`SafeReceive.SafeReceiveExact`, `SafeReceive.FaultsExactly`).
- The server drops the rest of a receive behind a part that completes no packet, and behind a TCP packet with FIN
  or RST (`Session.SessionDelivers`, `ServerLoop.OneBatchDelivers`).
- The server generates no IPv6 header, and reads through the empty one it puts in its place (`ServerLoop.ServesOrNot`, `Outgoing.ServableExactly`).
- The server multiplies the length of a UDP packet by four before it adds the payload to it: total length and
  checksum are right for three payload sizes only (`Outgoing.UdpSentOn`).
- A set NS flag arrives as SYN (`TunnelHeaders.NsArrivesAsSyn`), and the scheme's length getter keeps one octet only.
- The filter looks for ports behind twenty octets even when the header has options (`Filter.FilterExactly`).
- An address in text with a double colon is never read (`AddressText.ColonsNeverRead`).
- A 16-bit sum of an extension's length can be zero, and the search for the server name then never ends
  (`Entries.SearchStuckExactly`).
- The dissector takes the payload of a later fragment for addresses and a transport scheme
  (`Dissector.DissectorAgreesExactly`, `Dissector.LaterFragmentNotShown`).

Integers are unbounded in Dafny, so every width of the source is written out: 8-, 16- and 32-bit sums are reduced
where the source reduces them. Reads past the end of a buffer, exceptions and loops that never end are outcomes of
their own (`OutOfBounds`, `OutOfRange`, `None`, `Stuck`), not preconditions. The exceptions, where the source has no
defined result at all, are named under "Left out": encoding a packet that cannot be cut into forward pieces, TCP
objects and views whose data offset is below five, popping an uncached packet, and keys too long for their list.

The source's KEY_SHARE extension type is 40, where section 4.2 of RFC 8446 assigns 51; the model follows the source.

Much of the driver is templates in headers under `QVPN/QVPN Lib/include`. Where a row is about one, the second
column cites the compiled code it works with and the third column gives the header's lines. The `Fragments` rows that
cite lines 277-287 of `qvpn_driver.cpp` are of this kind: those lines are the compiled members of the builder, and
`add_data` itself is in the header.

## Model

| member | source | states |
|---|---|---|
| Session.SessionDelivers | QVPN/QVPN Lib/src/qvpn_structures.cpp:3986-4008 | a session of the server: complete receives, each into a fresh buffer, that together bring the stream deliver the packets sent, each once and in order, with nothing left in progress, if and only if no receive is overrun, the server can serve every packet, and no receive brings a record behind one that completes no packet or ends its connection; where packets were split, for receives without an overrun; what comes out parses to the proxies and payloads sent (templates in `qvpn_driver.hpp`, lines 2431-2554, and `qvpn_net_tools.hpp`, lines 791-812) |
| Session.OnlyPrefixesDelivered | QVPN/QVPN Lib/src/qvpn_structures.cpp:3986-4008 | safety of a session that goes on: receives without an overrun that bring any beginning of the stream, with nothing behind a stop so far, have delivered a beginning of what was sent (template in `qvpn_driver.hpp`, lines 2431-2554) |
| Session.OverrunLosesPackets | QVPN/QVPN Lib/src/qvpn_structures.cpp:3986-4008 | of packets that were not split, a session with an overrun never delivers all as sent: the octets lost are missing in the end, because every packet delivered takes ten octets of headers (template in `qvpn_lib.hpp`, lines 926-963) |
| Session.EachRecordAlone | QVPN/QVPN Lib/src/qvpn_structures.cpp:3986-4008 | when every record comes in a receive of its own, in whatever chunks, all packets are delivered, split or not, if and only if the server can serve them all (template in `qvpn_driver.hpp`, lines 2431-2554) |
| Session.TcpServed | QVPN/QVPN Lib/src/qvpn_structures.cpp:513-559 | from a TCP header at the sender to the packet the server sends on: its payload, endpoints, total length and both checksums are right (templates in `qvpn_driver.hpp`, lines 2275-2415 and 2431-2554) |
| Outgoing.ServableExactly | QVPN/QVPN Lib/src/qvpn_structures.cpp:483-505 | in plain numbers, the packets the server can generate headers for: TCP and UDP over IPv4 with a scheme long enough for its fields and for the options its offset counts, and every other transport (template in `qvpn_driver.hpp`, lines 2275-2325) |
| Outgoing.EncodedServable | QVPN/QVPN Lib/src/qvpn_structures.cpp:4120-4244 | every TCP or UDP header that was encoded can be served over IPv4, none over IPv6 (template in `qvpn_driver.hpp`, lines 2275-2325) |
| Outgoing.TcpSentOn | QVPN/QVPN Lib/src/qvpn_structures.cpp:483-505 | a TCP packet is sent on in an IPv4 packet from the server to the destination whose total length is its length and whose checksums verify over the octets a receiver adds up; with clear reserved and NS bits its header is the original one with a fresh checksum (template in `qvpn_driver.hpp`, lines 2396-2415) |
| Outgoing.UdpSentOn | QVPN/QVPN Lib/src/qvpn_structures.cpp:887-890 | a UDP packet is sent on with the original length field, but its total length and its checksum are right if and only if the payload leaves 16378 on division by 16384 (template in `qvpn_driver.hpp`, lines 2396-2415) |
| Outgoing.OtherLength | QVPN/QVPN Lib/src/qvpn_structures.cpp:513-559 | a checksum stored for one segment length verifies for another if and only if the two are congruent modulo 65535 |
| ServerLoop.BatchesDeliver | QVPN/QVPN Lib/src/qvpn_driver.cpp:292-326 | the fragments of the stream in any batches: the server's loop gives exactly the packets sent if and only if it can serve them all and no fragment stands in a batch behind one that stops the loop (template in `qvpn_driver.hpp`, lines 2459-2531) |
| ServerLoop.OneBatchDelivers | QVPN/QVPN Lib/src/qvpn_driver.cpp:292-326 | decoded as one batch, the stream comes out whole if and only if all packets can be served, none was split and none but the last carries FIN or RST (template in `qvpn_driver.hpp`, lines 2459-2531) |
| ServerLoop.ServesOrNot | QVPN/QVPN Lib/src/qvpn_structures.cpp:1063-1072 | the loop has a defined result if and only if headers can be generated for every packet it hands on, as `Outgoing.ServableExactly` says (template in `qvpn_driver.hpp`, lines 2459-2531) |
| Session.AtMostTwoRecords | QVPN/QVPN Lib/src/qvpn_structures.cpp:3986-4008 | a complete receive without an overrun holds one or two records (template in `qvpn_lib.hpp`, lines 926-963) |
| ServerLoop.LastBringsOut | QVPN/QVPN Lib/src/qvpn_driver.cpp:292-326 | the last fragment of a packet and no earlier one brings it out, by conservation of octets |
| ServerLoop.RunConserves | QVPN/QVPN Lib/src/qvpn_driver.cpp:292-326 | over every run of acceptable fragments, the octets delivered and those in progress at the end are those in progress before and those the fragments carried (template in `qvpn_driver.hpp`, lines 589-615) |
| ServerLoop.ResetsAsGenerated | QVPN/QVPN Lib/src/qvpn_structures.cpp:581-587 | the two bits of the scheme that stop the loop are FIN and RST of the header the server generates, whatever its ports |
| ServerLoop.ResetsByFlags | QVPN/QVPN Lib/src/qvpn_structures.cpp:581-587 | for a header that was encoded they are the RST and FIN bits of its flags octet, third and first from the right, although NS arrives as SYN |
| ServerLoop.SplitPacketLostInOneBatch | QVPN/QVPN Lib/src/qvpn_driver.cpp:292-326 | the fragments of a split packet that arrive in one receive are dropped but for the first, which stays behind incomplete (template in `qvpn_driver.hpp`, lines 2459-2471) |
| ServerLoop.StaleEntrySpoils | QVPN/QVPN Lib/src/qvpn_driver.cpp:292-326 | an entry left behind under an id spoils the next packet that gets it: sent in one fragment, the packet goes in front of the first zero octet there, comes out only if the sizes happen to add up, and never as it was sent (template in `qvpn_driver.hpp`, lines 473-485) |
| Stream.TcpHeaderEndToEnd | QVPN/QVPN Lib/src/qvpn_structures.cpp:4120-4208 | a TCP header carried through that path and generated on any source port is, after recalculation, the header sent from that port with a fresh checksum if and only if reserved and NS bits are clear; on the original port, which the server uses, it is the header octet for octet if and only if its checksum was fresh, too (template in `qvpn_driver.hpp`, lines 2302-2315 and 2476-2479) |
| Stream.UdpHeaderEndToEnd | QVPN/QVPN Lib/src/qvpn_structures.cpp:4210-4244 | the same for a UDP header: from any source port it is the header sent from that port with a fresh checksum, on the original port the header itself if and only if its checksum was fresh (template in `qvpn_driver.hpp`, lines 2318-2322) |
| Stream.EncodedArrives | QVPN/QVPN Lib/src/qvpn_structures.cpp:4120-4244 | a packet with addresses of the right size and an encoded TCP or UDP header, of fewer than 65229 octets, travels with the default sizes, arrives once and whole beside anything else in progress, and parses to what was sent (template in `qvpn_driver.hpp`, lines 1364-1401) |
| Stream.EncodeAndSend | QVPN/QVPN Lib/src/qvpn_driver.cpp:249-253 | what is sent of one packet between its separators is every record as encoded, under the current id, if and only if all of them stay below 64 KiB; the id steps in eight bits (template in `qvpn_driver.hpp`, lines 1319-1333) |
| Stream.SendAll | QVPN/QVPN Lib/src/qvpn_driver.cpp:374-382 | a run of the sender: encoding and sending packets one after the other puts exactly their stream on the wire, numbered from the driver's id on, and leaves the counter at the id plus their number modulo 256 (templates in `qvpn_driver.hpp`, lines 534-542 and 1319-1333) |
| Stream.ArrivalIds | QVPN/QVPN Lib/src/qvpn_driver.cpp:374-382 | packet `k` of a stream arrives under the id of the first plus `k` modulo 256 (template in `qvpn_driver.hpp`, lines 534-542) |
| Stream.WireFormat | QVPN/QVPN Lib/src/qvpn_driver.cpp:416-437 | every record of every packet octet for octet: record header with its length, id, offset of the piece, announced size, and the piece, the first with the proxy data in front and counted (template in `qvpn_driver.hpp`, lines 1364-1386) |
| Stream.TravelsExactly | QVPN/QVPN Lib/src/qvpn_driver.cpp:384-398 | under any sizes, in plain numbers, which packets travel: in one piece when they need no split or the eight-bit count of pieces is one, else in two to four pieces longer than 255 octets, all records below 64 KiB (template in `qvpn_driver.hpp`, lines 539-562) |
| Stream.SentWholeExactly | QVPN/QVPN Lib/src/qvpn_driver.cpp:357-369 | under any sizes, a packet that can be split is sent whole if and only if it need not be split, or the split size divides its length and the pieces fit their eight-bit count (template in `qvpn_driver.hpp`, lines 539-562) |
| ArrivalOrder.OtherFirst | QVPN/QVPN Lib/src/qvpn_driver.cpp:292-326 | of every packet sent in two to four fragments, in every order in which another fragment arrives first: it never comes out as sent; nothing comes out, and the id is lost for good, unless the proxy data make up a whole number of pieces and the first fragment arrives early enough, and then one packet of the wrong size does (template in `qvpn_driver.hpp`, lines 473-485) |
| ArrivalOrder.FirstFirst | QVPN/QVPN Lib/src/qvpn_driver.cpp:292-326 | in every order in which the first fragment arrives first the packet comes out with the last to arrive, its octets in the order of arrival: as sent if and only if every place got the octets that belong there (template in `qvpn_driver.hpp`, lines 473-485) |
| ArrivalOrder.SwappedBlocks | QVPN/QVPN Lib/src/qvpn_driver.cpp:292-326 | two fragments in the wrong order always lose their id, whatever follows |
| ArrivalOrder.BlockedForGood | QVPN/QVPN Lib/src/qvpn_driver.cpp:292-326 | a packet that has outgrown its size stays in progress over every run, and its id delivers nothing |
| Stream.DefaultConfiguration | QVPN/QVPN Lib/src/qvpn_driver.cpp:357-369 | with the default sizes: exactly which packets can be sent intact, and that a packet arrives whole if and only if it has fewer than 65229 octets or exactly 65230 (template in `qvpn_driver.hpp`, lines 513-531) |
| Stream.SentAsEncoded | QVPN/QVPN Lib/src/qvpn_driver.cpp:249-253 | the send loop hands out the records as they were encoded if and only if all of them together stay below 64 KiB, because the separators have 16 bits |
| Stream.PacketArrives | QVPN/QVPN Lib/src/qvpn_driver.cpp:306-326 | one packet delivers its proxy data and sent payload once, whatever other packets are in progress, and changes nothing about those (template in `qvpn_driver.hpp`, lines 1364-1401) |
| Stream.StreamFrames | QVPN/QVPN Lib/src/qvpn_structures.cpp:4049-4071 | the stream the sender writes - that is what `Stream.SendAll` puts on the wire - is framed into exactly the records it wrote |
| Delivery.PacketIsDelivered | QVPN/QVPN Lib/src/qvpn_driver.cpp:277-326 | any acceptable fragments of one id that together make up the announced size come out as one packet, with the last of them, and leave the other packets alone (template in `qvpn_driver.hpp`, lines 589-615) |
| Delivery.DeliverOne | QVPN/QVPN Lib/src/qvpn_driver.cpp:384-437 | the fragments of one packet are delivered once; its octets are in order after each of them if and only if every offset is new there or what it displaces and what it brings repeat one common word; and the packet arrives as sent if and only if the last fragment puts right what was not (template in `qvpn_driver.hpp`, lines 2882-2918) |
| Delivery.LastDecides | QVPN/QVPN Lib/src/qvpn_driver.cpp:292-326 | the exact condition for the octets in the end, for any number of fragments, whatever went wrong before: those in front of the last fragment's place stand right, and those it displaces are the right ones rotated, with the fragment going round in them (template in `qvpn_driver.hpp`, lines 473-485) |
| Delivery.InOrderExactly | QVPN/QVPN Lib/src/qvpn_driver.cpp:292-326 | that condition for any number of fragments on any octets before them (template in `qvpn_driver.hpp`, lines 473-485) |
| Delivery.DeliverTwo | QVPN/QVPN Lib/src/qvpn_driver.cpp:277-287 | for two fragments the exact condition under which the builder restores the packet: the offset is no octet in front of it, or the misplaced parts repeat one common word (template in `qvpn_driver.hpp`, lines 473-485) |
| Delivery.UnseenAppends | QVPN/QVPN Lib/src/qvpn_driver.cpp:277-287 | offsets that are no octets received so far make the builder a plain concatenation (template in `qvpn_driver.hpp`, lines 473-485) |
| Tunnel.PacketsDoNotInterfere | QVPN/QVPN Lib/src/qvpn_driver.cpp:292-326 | in any interleaving, what comes out under an id is what the fragments with that id alone would give (template in `qvpn_driver.hpp`, lines 589-615) |
| Tunnel.QVPNDriver.EncodeData | QVPN/QVPN Lib/src/qvpn_driver.cpp:416-437 | the records handed to the sender are those of the split packet, the first with proxy data, under the current id; the id counter moves on (template in `qvpn_driver.hpp`, lines 1364-1386) |
| Tunnel.QVPNDriver.DecodeData | QVPN/QVPN Lib/src/qvpn_driver.cpp:292-355 | invariant over every run on arbitrary records: at most one packet comes out per record, no full packet stays behind and the cache is clear (template in `qvpn_driver.hpp`, lines 1388-1401) |
| Tunnel.SentIntact | QVPN/QVPN Lib/src/qvpn_driver.cpp:249-253 | a list of records survives the 16-bit separators if and only if its total length does |
| Tunnel.SplittedPacket.AddData | QVPN/QVPN Lib/src/qvpn_driver.cpp:249-253 | the octets are appended and a separator of two 16-bit ends is added (template in `qvpn_driver.hpp`, lines 311-319) |
| Tunnel.ViewOfPacket | QVPN/QVPN Lib/src/qvpn_driver.cpp:384-398 | a packet that can be split is seen as adjacent pieces from its start whose total is the size announced (template in `qvpn_driver.hpp`, lines 539-562) |
| Tunnel.FullIsPopped | QVPN/QVPN Lib/src/qvpn_driver.cpp:292-326 | the full packet found after a fragment is the one the fragment belongs to, and it is handed over unchanged |
| Proxy.ParseUndoesWrite | data/WireSharkQVPN.lua:208-239 | parsing a packet gives back the proxy data written in front of the payload, and the payload (template in `qvpn_structures.hpp`, lines 1213-1257) |
| Proxy.WriteUndoesParse | data/WireSharkQVPN.lua:208-239 | conversely an IPv4 or IPv6 packet that parses is what writing its parts gives (template in `qvpn_structures.hpp`, lines 1213-1257) |
| Proxy.UnknownNetwork | data/WireSharkQVPN.lua:208-239 | of other network protocols addresses and ports are zero, and the scheme is read behind 38 octets (template in `qvpn_structures.hpp`, lines 1213-1257) |
| Proxy.ProxyDataSizeIsLength | data/WireSharkQVPN.lua:208-239 | the size counted into the first fragment is the number of octets written (template in `qvpn_structures.hpp`, lines 1183-1187) |
| Manager.QVPNPacketManager.BuildPacket | QVPN/QVPN Lib/src/qvpn_driver.cpp:578-591 | which fragments are refused, what the entry of the id becomes, which signal is returned; a valid cache stays valid (template in `qvpn_driver.hpp`, lines 589-615) |
| Manager.RefusedExactly | QVPN/QVPN Lib/src/qvpn_driver.cpp:578-591 | a fragment as written is refused if and only if it carries nothing or reaches beyond the size it announces; every other one changes the entry of its own id and no other (template in `qvpn_driver.hpp`, lines 589-615) |
| Manager.SignalByEntry | QVPN/QVPN Lib/src/qvpn_driver.cpp:578-591 | the signal by what became of the entry: no builder data exactly when nothing changed, a full build exactly when a new entry is full at once, a part otherwise (template in `qvpn_driver.hpp`, lines 589-615) |
| Manager.QVPNPacketManager.constructor | QVPN/QVPN Lib/src/qvpn_driver.cpp:357-369 | no packets, id 0, and the sizes 65229 and 32615 (template in `qvpn_driver.hpp`, lines 513-531) |
| Manager.QVPNPacketManager.HaveFullPackets | QVPN/QVPN Lib/src/qvpn_driver.cpp:292-304 | true exactly when some entry is full, and then the cache points at a full entry that is present |
| Manager.QVPNPacketManager.GetAndPopPacket | QVPN/QVPN Lib/src/qvpn_driver.cpp:306-326 | the cached packet comes out, its entry and nothing else is removed, the cache is cleared; with nothing cached and nothing full a fresh builder comes out |
| Manager.QVPNPacketManager.PopLastPacket | QVPN/QVPN Lib/src/qvpn_driver.cpp:348-355 | the cached entry goes, or nothing happens when there is none |
| Manager.QVPNPacketManager.SplitPacketView | QVPN/QVPN Lib/src/qvpn_driver.cpp:374-382 | the id handed out and the 8-bit step of the counter (template in `qvpn_driver.hpp`, lines 539-562) |
| Manager.QVPNPacketManager.SetDataMaxSize | QVPN/QVPN Lib/src/qvpn_driver.cpp:357-362 | sizes that leave no room are refused; sizes below the metadata wrap to huge ones |
| Manager.DrainDeliversEachOnce | QVPN/QVPN Lib/src/qvpn_driver.cpp:292-326 | whatever the order of the hash map, pops until nothing is full hand over every full packet exactly once, under its id and unchanged, and leave the incomplete ones as they are |
| Manager.DrainTerminates | QVPN/QVPN Lib/src/qvpn_driver.cpp:292-326 | every run of pops ends: each uses up one full packet, and one is left as long as fewer were popped than there were |
| Fragments.AppendsExactlyWhen | QVPN/QVPN Lib/src/qvpn_driver.cpp:277-287 | a part is appended if and only if its offset is no octet received so far or the displaced octets and the new ones repeat one common word (template in `qvpn_driver.hpp`, lines 473-485) |
| Fragments.SwappedFragments | QVPN/QVPN Lib/src/qvpn_driver.cpp:277-287 | when the first fragment, arriving second, ends up in front: exactly when it and the zero-free beginning of the other repeat one word; of `add_data` alone, for in the sender's fragments the sizes then never add up, see `ArrivalOrder.OtherFirst` (template in `qvpn_driver.hpp`, lines 473-485) |
| Fragments.LargeOffsetsAppend | QVPN/QVPN Lib/src/qvpn_driver.cpp:277-287 | offsets above 255 are always appended (template in `qvpn_driver.hpp`, lines 473-485) |
| Fragments.SmallOffsetMisplaced | QVPN/QVPN Lib/src/qvpn_driver.cpp:277-287 | a concrete part with a small offset that lands in the middle (template in `qvpn_driver.hpp`, lines 473-485) |
| Fragments.OverfullStaysIncomplete | QVPN/QVPN Lib/src/qvpn_driver.cpp:277-287 | a builder that has outgrown its packet is never full again, whatever arrives (template in `qvpn_driver.hpp`, lines 473-485) |
| Fragments.SplitPacketView | QVPN/QVPN Lib/src/qvpn_driver.cpp:384-398 | the loop computes the split view its specification defines, iteration by iteration (template in `qvpn_driver.hpp`, lines 539-562) |
| Fragments.SplitsIntoPieces | QVPN/QVPN Lib/src/qvpn_driver.cpp:384-398 | the pieces are adjacent if and only if the loop stays inside the packet; otherwise some piece ends before it begins (template in `qvpn_driver.hpp`, lines 539-562) |
| Fragments.FourPiecesAtMost | QVPN/QVPN Lib/src/qvpn_driver.cpp:384-398 | while the count fits its octet that means: four pieces at most (template in `qvpn_driver.hpp`, lines 547-555) |
| Fragments.FragmentFields | QVPN/QVPN Lib/src/qvpn_driver.cpp:578-591 | id, offset, size and octets are read off a fragment as they were put in |
| Reassembly.OrderIndependentReassembly | QVPN/QVPN Lib/src/qvpn_driver.cpp:384-398 | whatever fragments arrive, in whatever order and however often, placing them by offset recovers the packet if and only if every nonempty piece is among them |
| Reassembly.FragmentOf | QVPN/QVPN Lib/src/qvpn_driver.cpp:194-208 | a fragment carries its piece, the offset of the piece and the size of the packet |
| Records.FramesOfRecords | QVPN/QVPN Lib/src/qvpn_structures.cpp:4049-4071 | any list of records followed by the start of another is cut into exactly those records and stops there |
| Records.FramesConserve | QVPN/QVPN Lib/src/qvpn_structures.cpp:4049-4071 | frames and remainder together are the input |
| Records.ChunkingIrrelevant | QVPN/QVPN Lib/src/qvpn_structures.cpp:3986-4008 | however a stream is cut into chunks, the same records come out and the same remainder stays |
| Records.FramesResume | QVPN/QVPN Lib/src/qvpn_structures.cpp:3986-4008 | framing may be resumed at any cut |
| Records.ParseIgnoresMore | QVPN/QVPN Lib/src/qvpn_structures.cpp:4049-4071 | a complete object stays the same object when more octets follow |
| Records.RecordIsRecord | QVPN/QVPN Lib/src/qvpn_structures.cpp:4024-4032 | the generated record frames its payload if and only if its full length fits 16 bits (template in `qvpn_structures.hpp`, lines 3603-3622) |
| Records.LongLengthsWrap | QVPN/QVPN Lib/src/qvpn_structures.cpp:4049-4071 | a header that announces 65531 octets or more stands for an object of zero to four octets, because the full length is a 16-bit sum; at an empty one framing stops |
| Records.RestIsStuck | QVPN/QVPN Lib/src/qvpn_structures.cpp:4049-4071 | what framing stops at contains no further record |
| SafeReceive.SafeReceiveExact | QVPN/QVPN Lib/src/qvpn_structures.cpp:3986-4008 | a run that ends with full data has cut its input into exactly its records if and only if no later chunk overran the record being completed (template in `qvpn_lib.hpp`, lines 850-975) |
| SafeReceive.SingleRecord | QVPN/QVPN Lib/src/qvpn_structures.cpp:3986-4008 | one record arrives whole however it is cut, and not before its last octet (template in `qvpn_net_tools.hpp`, lines 791-812) |
| SafeReceive.SafeReceiveData.AddObjectsAndValidate | QVPN/QVPN Lib/src/qvpn_structures.cpp:3986-4008 | first and later chunks update objects and signal as specified (template in `qvpn_lib.hpp`, lines 967-975) |
| SafeReceive.SafeReceiveData.AddDataAndParse | QVPN/QVPN Lib/src/qvpn_structures.cpp:3986-4008 | the reparse loop, the misplaced tail and the read past the end included (template in `qvpn_lib.hpp`, lines 926-963) |
| SafeReceive.SafeReceiveData.AddObject | QVPN/QVPN Lib/src/qvpn_structures.cpp:3986-4008 | octets and separator are appended (template in `qvpn_lib.hpp`, lines 882-888) |
| SafeReceive.LossyRun | QVPN/QVPN Lib/src/qvpn_structures.cpp:3986-4008 | after an overrun octets are missing from the objects for good (template in `qvpn_lib.hpp`, lines 926-963) |
| SafeReceive.OverrunHappens | QVPN/QVPN Lib/src/qvpn_structures.cpp:3986-4008 | a concrete run that reports full data although an octet belongs to no object (template in `qvpn_lib.hpp`, lines 926-963) |
| SafeReceive.FaultsExactly | QVPN/QVPN Lib/src/qvpn_structures.cpp:3986-4008 | every run of chunks reads past the end of the vector if and only if some chunk, arriving while the run waits, completes a record and brings five or more further octets (template in `qvpn_lib.hpp`, lines 926-963) |
| SafeReceive.TailDecides | QVPN/QVPN Lib/src/qvpn_structures.cpp:3986-4008 | of any record cut in two: with nothing behind it the run is complete, with one to four octets it goes on, with five or more it reads past the end (template in `qvpn_lib.hpp`, lines 926-963) |
| Checksum.StoreVerifies | QVPN/QVPN Lib/src/qvpn_structures.cpp:513-559 | the stored checksum verifies, for every header, prefix and payload, if and only if the true sum wraps 32 bits a multiple of 65535 times |
| Checksum.SegmentSumIsSum | QVPN/QVPN Lib/src/qvpn_structures.cpp:513-559 | prefix, header and payload summed part by part are the sum of all octets one behind the other, as a receiver adds them up |
| Checksum.StoredOctetsVerify | QVPN/QVPN Lib/src/qvpn_structures.cpp:513-559 | those octets, with the stored checksum in place, verify if and only if their sum without it wraps 32 bits a multiple of 65535 times |
| Checksum.NoWrap | QVPN/QVPN Lib/src/qvpn_structures.cpp:513-559 | up to 65537 words the accumulator does not wrap |
| Checksum.OneWordTooMany | QVPN/QVPN Lib/src/qvpn_structures.cpp:513-559 | that bound is tight: one word more and a checksum fails |
| Checksum.AccumulatorVerifies | QVPN/QVPN Lib/src/qvpn_structures.cpp:294-302 | which sums a 32-bit accumulator gets right |
| Checksum.StoredValueVerifies | QVPN/QVPN Lib/src/qvpn_structures.cpp:294-302 | exactly one stored value verifies, or 0xFFFF in place of a computed zero |
| Checksum.FoldTakesTwoRounds | QVPN/QVPN Lib/src/qvpn_structures.cpp:300-301 | two rounds of the fold suffice for any 32-bit sum |
| Checksum.FoldKeepsResidue | QVPN/QVPN Lib/src/qvpn_structures.cpp:300-301 | the fold stays below 2^16, keeps the value modulo 65535 and gives zero from zero alone |
| Checksum.StoreIdempotent | QVPN/QVPN Lib/src/qvpn_structures.cpp:513-559 | recalculating again changes nothing |
| Checksum.StoreForgetsOldChecksum | QVPN/QVPN Lib/src/qvpn_structures.cpp:513-559 | the old checksum does not influence the new one |
| Checksum.AddWords | QVPN/QVPN Lib/src/qvpn_structures.cpp:294-298 | the word loop adds the 16-bit words modulo 2^32 |
| Checksum.AddBufferWords | QVPN/QVPN Lib/src/qvpn_structures.cpp:1549-1566 | the same through a view |
| Checksum.AddPayload | QVPN/QVPN Lib/src/qvpn_structures.cpp:535-549 | the payload loop counts an odd last octet as the high half of a word |
| Checksum.FoldAndComplement | QVPN/QVPN Lib/src/qvpn_structures.cpp:550-557 | the fold loop ends and complements the folded sum |
| Headers.SetterRunRefinesRecord | QVPN/QVPN Lib/src/qvpn_structures.cpp:614-674 | after any run of setters every getter returns the last value written to its field or the original one; reserved bits, flags and options are untouched |
| Headers.FieldsAreLayout | QVPN/QVPN Lib/src/qvpn_structures.cpp:346-394 | a header is the fields read off it, in the order of section 3.1 of RFC 9293, with its reserved bits and flags between them |
| Headers.TcpPacketLittleEndian.Set | QVPN/QVPN Lib/src/qvpn_structures.cpp:614-674 | each setter of the object writes the octets of its field and no other |
| Headers.TcpPacketView.Set | QVPN/QVPN Lib/src/qvpn_structures.cpp:1649-1707 | each setter of the view writes the same octets in place and leaves the rest of the buffer alone |
| Headers.TcpPacketLittleEndian.constructor | QVPN/QVPN Lib/src/qvpn_structures.cpp:320-333 | twenty octets and the options announced make up the header |
| Headers.TcpPacketView.constructor | QVPN/QVPN Lib/src/qvpn_structures.cpp:1361-1374 | the view covers exactly that stretch of the buffer |
| Headers.TcpPacketLittleEndian.RecalculateTransportChecksum | QVPN/QVPN Lib/src/qvpn_structures.cpp:513-559 | one loop over the header stores the checksum of pseudo-header, header and payload |
| Headers.TcpPacketView.RecalculateTransportChecksum | QVPN/QVPN Lib/src/qvpn_structures.cpp:1540-1594 | three loops store the same checksum, and only its two octets of the shared buffer change |
| Headers.UdpPacketLittleEndian.RecalculateTransportChecksum | QVPN/QVPN Lib/src/qvpn_structures.cpp:839-885 | the UDP checksum of pseudo-header, header and payload |
| Headers.UdpPacketView.RecalculateTransportChecksum | QVPN/QVPN Lib/src/qvpn_structures.cpp:1852-1898 | the same checksum in place, two octets changed |
| Headers.Ipv4PacketLittleEndian.RecalculateIpChecksum | QVPN/QVPN Lib/src/qvpn_structures.cpp:288-303 | the header checksum |
| Packet.RewritingRun | QVPN/QVPN Lib/src/qvpn_structures.cpp:224-256 | after any run of address and port rewrites, recalculation leaves a packet with the endpoints last written, whose IP header and whose transport segment - both addresses, zero, protocol, segment length, header, payload - verify for the length announced, which is the segment's own if the total length is right; and that differs nowhere else |
| Packet.RecalculationVerifies | QVPN/QVPN Lib/src/qvpn_structures.cpp:2081-2145 | both checksums of any recalculated packet verify over the octets a receiver adds up |
| Packet.PrefixIsPseudoHeader | QVPN/QVPN Lib/src/qvpn_structures.cpp:2081-2115 | the pseudo-header built from an IP header is its addresses, zero, protocol, and total length less header length |
| Packet.TrueLengthAnnounced | QVPN/QVPN Lib/src/qvpn_structures.cpp:2081-2115 | and that length is the segment's when the total length is the packet's (template in `qvpn_structures.hpp`, lines 4742-4751) |
| Packet.FullPacket.RecalculateChecksums | QVPN/QVPN Lib/src/qvpn_structures.cpp:2081-2145 | IP checksum first, then the transport checksum over the pseudo-header of the new addresses (template in `qvpn_structures.hpp`, lines 4742-4751) |
| Packet.IpHeaderVerifies | QVPN/QVPN Lib/src/qvpn_structures.cpp:288-303 | every IP header of up to fifteen words verifies after recalculation |
| Packet.RecalculationTouches | QVPN/QVPN Lib/src/qvpn_structures.cpp:513-559 | recalculation changes no octet outside the two checksum fields |
| TunnelHeaders.TcpTunnelIdentity | QVPN/QVPN Lib/src/qvpn_structures.cpp:4120-4208 | encode, decode, rebuild, recalculate gives the header back octet for octet if and only if reserved and NS bits are clear and its checksum was fresh |
| TunnelHeaders.TcpHeaderSurvivesTunnel | QVPN/QVPN Lib/src/qvpn_structures.cpp:483-505 | with those bits clear the far side sends the header with a fresh checksum, whatever its addresses |
| TunnelHeaders.TcpHeaderFromAnyPort | QVPN/QVPN Lib/src/qvpn_structures.cpp:483-505 | with any source port put in, what is sent is the original header from that port with a fresh checksum if and only if those bits are clear (template in `qvpn_driver.hpp`, lines 2302-2315) |
| TunnelHeaders.TcpSchemeRoundTrip | QVPN/QVPN Lib/src/qvpn_structures.cpp:4120-4208 | reading a scheme back gives the fields it was made from |
| TunnelHeaders.RebuiltTcpHeader | QVPN/QVPN Lib/src/qvpn_structures.cpp:483-505 | which octets of a rebuilt header differ from the original |
| TunnelHeaders.RebuiltFromScheme | QVPN/QVPN Lib/src/qvpn_structures.cpp:483-505 | of any scheme whatever, which of its octets the generated header has and where |
| TunnelHeaders.NsArrivesAsSyn | QVPN/QVPN Lib/src/qvpn_structures.cpp:376-379 | the flags arrive unchanged unless NS is set and SYN clear; then SYN arrives set |
| TunnelHeaders.SchemeLengthGetter | QVPN/QVPN Lib/src/qvpn_structures.cpp:4162-4165 | the length getter is right exactly for schemes below 256 octets, and every encoded header is one |
| TunnelHeaders.UdpScheme | QVPN/QVPN Lib/src/qvpn_structures.cpp:4231-4244 | the scheme of a UDP header: a length in front that counts what follows it, and the length field |
| TunnelHeaders.UdpTunnelIdentity | QVPN/QVPN Lib/src/qvpn_structures.cpp:4210-4244 | a UDP header comes back as recalculation would have left it |
| TunnelHeaders.UdpHeaderFromAnyPort | QVPN/QVPN Lib/src/qvpn_structures.cpp:4210-4244 | and with another source port as the original header from that port (template in `qvpn_driver.hpp`, lines 2318-2322) |
| Hello.SchemeUndoesEncode | QVPN/QVPN Lib/src/qvpn_structures.cpp:3201-3227 | the five ranges tile the hello from octet 2 to the end and each holds the field written there |
| Hello.EncodeUndoesScheme | QVPN/QVPN Lib/src/qvpn_structures.cpp:3201-3227 | conversely octets that the ranges tile are the concatenation of the fields read off them |
| Hello.ParseClientScheme | QVPN/QVPN Lib/src/qvpn_structures.cpp:3201-3227 | the straight-line parse yields those ranges, or none where a length would be read past the end |
| Hello.HostsReachServer | QVPN/QVPN Lib/src/qvpn_structures.cpp:3285-3297 | a server that parses a generated hello and searches its extensions is led past versions and key shares and reads exactly the hosts the client named (template in `qvpn_structures.hpp`, lines 3951-3995) |
| Hello.SniRoundTrip | QVPN/QVPN Lib/src/qvpn_structures.cpp:3380-3396 | a host list comes back with the right total in front if and only if it fits that total |
| Hello.ListRoundTrip | QVPN/QVPN Lib/src/qvpn_structures.cpp:2928-2946 | a key-share list reads back, and its total is right if and only if it fits 16 bits |
| Hello.VersionsRoundTrip | QVPN/QVPN Lib/src/qvpn_structures.cpp:2753-2768 | versions read back, and the total is right for at most 127 of them |
| Hello.GenerateSni | QVPN/QVPN Lib/src/qvpn_structures.cpp:3380-3396 | the loop with its 16-bit count and total writes the list |
| Hello.GenerateKeyShares | QVPN/QVPN Lib/src/qvpn_structures.cpp:2928-2946 | likewise for key shares |
| Hello.GenerateVersions | QVPN/QVPN Lib/src/qvpn_structures.cpp:2753-2768 | likewise for versions, with an 8-bit total |
| Hello.HostEntry | QVPN/QVPN Lib/src/qvpn_structures.cpp:3697-3709 | a server-name entry is kind, length and host |
| Entries.ReadIffEncoded | QVPN/QVPN Lib/src/qvpn_structures.cpp:2719-2732 | entries read by their own lengths tile the octets if and only if the octets encode exactly those entries |
| Entries.SearchIsLinear | QVPN/QVPN Lib/src/qvpn_structures.cpp:3285-3297 | on every list of extensions the search visits extension boundaries only and is linear search |
| Entries.NotFoundIffNone | QVPN/QVPN Lib/src/qvpn_structures.cpp:3354-3366 | it returns the empty view exactly when there is no server-name extension |
| Entries.FirstIsFound | QVPN/QVPN Lib/src/qvpn_structures.cpp:3354-3366 | otherwise it returns the first one |
| Entries.GetTlsSniData | QVPN/QVPN Lib/src/qvpn_structures.cpp:3285-3297 | the pointer loop over any octets, with the outcomes of malformed ones |
| Entries.SearchStuckExactly | QVPN/QVPN Lib/src/qvpn_structures.cpp:3285-3297 | on any octets whatever, the search never ends if and only if its steps lead, over headers of other kinds, to one that announces 65532 octets |
| Entries.SearchFoundExactly | QVPN/QVPN Lib/src/qvpn_structures.cpp:3285-3297 | and it finds what it finds if and only if they lead to a server name there |
| Entries.StuckBehindExtensions | QVPN/QVPN Lib/src/qvpn_structures.cpp:3285-3297 | so it never ends on any list of other extensions followed by such a header, with whatever behind it |
| Entries.SearchGetsStuck | QVPN/QVPN Lib/src/qvpn_structures.cpp:3293-3293 | the shortest witness: such a header alone |
| TcpOptions.WalkInvertsEncoding | QVPN/QVPN Lib/src/qvpn_structures.cpp:4711-4755 | on any list of options the walk ends exactly at the end and visits the options encoded |
| TcpOptions.WalkTilesIffOptions | QVPN/QVPN Lib/src/qvpn_structures.cpp:4799-4843 | the walk tiles a block with proper steps if and only if the block is a list of options |
| TcpOptions.TiledBlockIsOptions | QVPN/QVPN Lib/src/qvpn_structures.cpp:4799-4843 | and then it is the list of the options visited |
| TcpOptions.WalkOptions | QVPN/QVPN Lib/src/qvpn_structures.cpp:4711-4742 | the loop over any octets, with the outcomes of malformed ones |
| AddressText.AddressTextRoundTrip | QVPN/QVPN Lib/src/qvpn_tools.cpp:117-137 | an address comes back from its text if and only if it has 1 to 16 octets |
| AddressText.ParseOfPrinted | QVPN/QVPN Lib/src/qvpn_tools.cpp:117-137 | longer addresses come back cut to sixteen octets; the empty one throws |
| AddressText.ColonsNeverRead | QVPN/QVPN Lib/src/qvpn_tools.cpp:117-137 | whatever stands around it, a text without dots that has a double colon is never read: the loop goes on at the second colon, and the number conversion throws |
| AddressText.ParseAddress | QVPN/QVPN Lib/src/qvpn_tools.cpp:117-137 | the parse loop, with the cap on components and the failures of the number conversion |
| AddressText.ToString | QVPN/QVPN Lib/src/qvpn_lib.cpp:366-377 | components separated by dots |
| AddressText.Ipv4TextAgrees | QVPN/QVPN Lib/src/qvpn_lib.cpp:111-117 | the IPv4 class prints the same text |
| Filter.FilterIsConnection | QVPN/QVPN Socket Filter/src/Linux/bpf/bpf_filter.c:40-131 | on machines of either byte order the filter accepts exactly the packets of the connection the key was built from, ports looked for behind twenty octets |
| Filter.FilterExactly | QVPN/QVPN Socket Filter/src/Linux/bpf/bpf_filter.c:40-131 | for every IPv4 packet: the filter decides as the connection predicate does, for every connection, if and only if no ports are looked at, or no transport header fits behind either length, or one fits behind both with the same ports |
| Filter.FilterExactWithoutOptions | QVPN/QVPN Socket Filter/src/Linux/bpf/bpf_filter.c:40-131 | so for headers without options it is the connection predicate |
| Filter.OptionsMislead | QVPN/QVPN Socket Filter/src/Linux/bpf/bpf_filter.c:58-76 | the witness: with options a packet of the connection is turned down |
| Filter.FilterByAddrPort | QVPN/QVPN Socket Filter/src/Linux/bpf/bpf_filter.c:40-131 | the branches of the program, short packets and other versions rejected |
| Filter.QVPN_SocketFilter.constructor | QVPN/QVPN Lib/src/Linux/qvpn_socket_filters.cpp:195-235 | the key of a connection; addresses stay unset unless it is an IPv4 one |
| Filter.SetterRunDescribes | QVPN/QVPN Lib/src/Linux/qvpn_socket_filters.cpp:238-304 | after any run of setters every field written holds the last value written to it, in network order, and every other field what it held; addresses that are not IPv4 ones are ignored |
| Filter.SettersMakeFilter | QVPN/QVPN Lib/src/Linux/qvpn_socket_filters.cpp:238-304 | a run in any order that writes every field, on a key with whatever in it, makes the filter accept exactly the packets of the connection the last values describe |
| Dissector.DissectorAgreesExactly | data/WireSharkQVPN.lua:249-297 | on every buffer of application-data records iterated parsing cuts off the records, and the dissector ends with the buffer having visited exactly these if and only if from the place of each it stays inside the buffer, or there is nothing, or too little for it to look at |
| Dissector.DissectsUpTo | data/WireSharkQVPN.lua:249-297 | otherwise it visits those in front of the first from which it would leave the buffer, and runs out of range there |
| Dissector.DissectorAgreesWithFraming | data/WireSharkQVPN.lua:249-297 | of records it can show by themselves it shows in the buffer what it shows of each alone |
| Dissector.ExpectedOffsets | data/WireSharkQVPN.lua:249-297 | each of them at the offset where it begins |
| Dissector.ShowsWhatWasWritten | data/WireSharkQVPN.lua:161-239 | what it shows of a first fragment with a TCP header is what the encoders put in |
| Dissector.FirstFragmentVisited | data/WireSharkQVPN.lua:249-297 | however short its payload, a first fragment with IPv4 addresses that comes alone is visited at its offset, shown in full, and the buffer read to its end |
| Dissector.ShowsOtherTransports | data/WireSharkQVPN.lua:208-239 | of a first fragment with UDP, or any transport but TCP, it shows everything but a scheme |
| Dissector.LaterFragmentNotShown | data/WireSharkQVPN.lua:161-239 | a later fragment whose payload reads like TCP with too short a scheme runs the dissector out of range wherever it stands, though it is framed like any other record |
| Dissector.Ipv6Misread | data/WireSharkQVPN.lua:208-239 | of a first fragment with IPv6 addresses, if it shows anything, it shows octets of the source address for all addresses and ports |
| KnownAnswers.Exchange | QVPN/QVPN Lib/src/qvpn_driver.cpp:416-437 | two packets numbered 255 and 0, their records octet for octet, and the server's session on these octets (templates in `qvpn_driver.hpp`, lines 1364-1401 and 2431-2554) |
| KnownAnswers.PublishedChecksum | QVPN/QVPN Lib/src/qvpn_structures.cpp:294-302 | the example of section 3 of RFC 1071 |
| KnownAnswers.HelloOctets | QVPN/QVPN Lib/src/qvpn_structures.cpp:2719-2732 | the extensions of a hello octet for octet: versions 43, key shares 40, server name 0 |
| KnownAnswers.KeyInMemory | QVPN/QVPN Lib/src/Linux/qvpn_socket_filters.cpp:195-235 | on a little-endian machine the filter's key holds addresses and ports as they lie in the packet |

## Left out

- Manager.QVPNPacketManager.GetAndPopPacket: requires a cached packet or that none is full; otherwise the source erases from the map it iterates over, which has no defined result.
- Tunnel.QVPNDriver.EncodeData: requires a packet of at most 65535 octets that the configured split can cut into forward pieces; otherwise the source reads before or behind the packet.
- Hello.GenerateKeyShares: requires keys of at most 65531 octets; the source allocates too little for longer ones. The key octets are random and so a parameter.
- Session.SessionDelivers: where packets were split, about receives without an overrun only; a receive that reads past the end of the vector has no continuation in the model. Connecting to a destination and sending to it are taken to succeed.
- Outgoing.ServableExactly: IPv6 packets of TCP and UDP, and schemes shorter than their fields or than the options they count, have no generated header, because the source reads through an empty header or past the scheme.
- Dissector.ShowsWhatWasWritten: about first fragments with IPv4; later fragments are `Dissector.LaterFragmentNotShown`, IPv6 is `Dissector.Ipv6Misread`. Wireshark's own rules for ranges of negative length belong to that program; such a range counts as out of range here.
- Stream.TunnelDelivers: has no row; like `Stream.OnlyPrefixesComeOut` it is about a reference receiver that keeps the remainder and decodes every record. The server's is in `Session`.
- Headers.TcpPacketLittleEndian.constructor: requires a data offset of at least five; below it the source copies a range that ends before it begins.
- Headers.TcpPacketView.constructor: likewise for the view.
- Reassembly.OrderIndependentReassembly: holds of a reference receiver that places parts by their offsets, which the source's builder does not do; it shows that the fragments carry enough for one.
- AddressText.ParseAddress: the delimiters are a data type of two values instead of strings; octets are integers in range.
- Headers.TcpPacketLittleEndian.Set: the eight setters of the class are one method over a data type of setter calls; likewise for the view.
- The failed receives of `safe_recv` and its count of attempts: input and output. Runs here are sequences of chunks received.
- `split_packet`, the copying variant of the split loop: nothing calls it.
- IPv4 views with options: words and octets are mixed up there, so their header size has no use to model.
- `set_tcp_flags`, `set_tcp_length` and `set_transport_length` of TCP: they OR into the bits already there.
- The rule of RFC 768 that a computed zero is sent as all ones: the code does not apply it.
- The record length limit of section 5.1 of RFC 8446: the code enforces 16 bits only.
- HTTP classes, ServerHello cipher suite, `TLS13_MessageLittleEndian`, `IPv6Address::to_string`: separate from the core, or refuted by their own code.
- Handshake authentication, sockets, packet capture, databases, settings, logging, friendly views and colours: input, output and user interface.
- Random octets, random ports and times: parameters, or absent.
