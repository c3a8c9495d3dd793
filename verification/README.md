# Proofs about a small user-space TCP/IP stack

This project models the receiving and sending paths of the stack in Dafny and proves what they keep
and what they deliver. The code that works in place is imperative here too: the slot map, the packet
buffer, the ARP tables, the reassembly nodes and the connection table are classes whose methods are
proved against specification functions; whole runs are then studied on those functions.

## How it is put together

| file | part of the stack |
|---|---|
| `Bytes.dfy`, `Checksum.dfy`, `Buffer.dfy` | integer widths and byte order, RFC 1071 arithmetic, the sliding window of `buf_t` |
| `TimedMap.dfy` | `map_t` with its clock, as a refinement of a finite map of unexpired entries |
| `Ethernet.dfy`, `Arp.dfy`, `ArpExchange.dfy` | framing; the ARP table and the parking of packets, with a log of what came in and went out; address resolution between two stacks |
| `Reassembly.dfy`, `ReassemblyNode.dfy`, `FragmentBuffers.dfy` | one reassembly node: its meaning, its array, and the heap blocks behind it |
| `Fragmentation.dfy` | cutting a payload, and the round trip through a receiver, for one datagram and for many at once |
| `IpPacket.dfy`, `IpInput.dfy`, `IpOutput.dfy` | header bytes; `ip_in` over the keyed node table; `ip_out` over ARP |
| `Udp.dfy`, `UdpOutput.dfy`, `EndToEnd.dfy` | `udp_in`, `udp_send`, and the theorems from one end to the other, for `ip_out` and for `udp_send` |
| `TcpMachine.dfy`, `TcpRuns.dfy`, `TcpStream.dfy`, `TcpAcks.dfy`, `TcpAnswers.dfy` | one connection as a state machine; sequence numbers, delivery, acknowledgements and the bytes sent over whole runs |
| `Tcp.dfy`, `TcpTable.dfy`, `TcpTraffic.dfy` | `tcp_in`, `tcp_send`, `tcp_close` over buffers and the connection map; every key's own history; the layer under any sequence of packets |
| `Layout.dfy`, `Damage.dfy`, `TcpWire.dfy` | every header byte by byte, written and read; packets damaged on the way; the answers of `tcp_in` as bytes |
| `Journey.dfy`, `FirstContact.dfy` | from the call at one machine over its wire and the network to the handler at another, for UDP and TCP; the same on two machines just set up |

Three devices recur. Time is read through `Clock.Time`, which may advance at every reading up to a
horizon; "no expiry" is the premise `Steady`, that nothing live expires before the horizon. A pointer
into a map slot is the slot's index, so a store through a pointer to a deleted entry is modelled
(`TimedMap.Assign`). `IpReceiver` keeps a ghost mirror of its slots with every node replaced by its
value; the abstract table of datagrams is read off the mirror.

## What the proofs show about the code

Properties that hold only under a condition are stated with that condition, in both directions where
both hold.

- A payload fragmented by `ip_out` comes back from `ip_in` whole iff it is at most 65535 bytes long;
  beyond that the 16-bit `total_len` has wrapped and a shorter datagram is delivered
  (`FragmentationRoundTrip` at one node, `IpEndToEnd` through headers and frames). For `udp_send` the bound is
  65527 bytes of data (`CallForDatagram`, `UdpEndToEnd`).
- Expiry never lowers `size`. Each insertion over an expired entry takes one slot's worth of capacity away for
  good (`TimedMap.Set`: `Leaked`), and a map whose counter stands at capacity when its last entry expires refuses
  every later insertion (`ComesToBeExhausted`, `TimedMap.Set`, `TimedMap.Delete`).
- An expired reassembly node takes its fragment buffers with it: blocks that no node holds stay allocated iff an
  entry expires (`LeaksIffExpired`).
- `arp_req` builds its packet in the shared `txbuf`. As long as nothing known of the peer expires during the call,
  the size of `udp_send`'s last piece underflows iff the datagram takes more than one fragment and the peer is
  neither resolved nor waited for (`IpSender.IpOut`, `UdpSend`: `fault`); on a stack just set up the first datagram
  of more than 1472 bytes always ends so (`FirstDatagramFaults`).
- Of a payload for an unknown next hop only the first packet waits for the address, and the others are lost; so a
  payload of more than one fragment never arrives whole that way (`IpSender.FirstContact`, `FirstPieceAlone`).
- `tcp_in` follows a null pointer iff the connection table is full, the segment's connection is not in it, and the
  segment is no reset (`TcpLayer.TcpIn`: `fault`); n + 1 SYNs from different ports bring a new table of n connections
  there (`OneSynTooMany`).
- `ip_in`'s recompute-and-compare test is the all-ones test of RFC 1071 except where the rest of the
  header sums to 0xFFFF and the stored field is 0xFFFF too (`AcceptsIffAllOnes`).
- The handler of a TCP port is given exactly the acknowledged bytes iff no data is passed up outside ESTABLISHED,
  with the SYN, with the acknowledgement that ends the handshake, or after the FIN; each such byte is one too many
  (`HandedIffNoStray`). For every stream, data in any of these places, sent again, is handed over twice
  (`DataOnSynIsHandedTwice`, `DataOnHandshakeAckIsHandedTwice`, `RepeatedFinIsHandedTwice`). Old duplicates of a
  whole connection open it anew, and its stream is handed over once for each of n replays
  (`ReplayedLivesAreHandedAgain`).
- A stack that waits for the address of the one that asks for its own sends the parked packet and does not reply
  (`ArpExchanges.Hear`).
- A changed 16-bit word of an IP header, a datagram or a segment is noticed unless one of the two zeros of
  one's-complement arithmetic took the place of the other outside the checksum (`DamagedHeader`,
  `DamagedDatagram`, `DamagedTcp`).
- In-order data is answered iff the port has a handler and there is a FIN, a clear `not_send_empty_ack`,
  or something for the handler to say (`AnsweredIff`); after a bare handshake the flag is clear in every run
  (`FlagClearOverRuns`).

## Model

| member | source | states |
|---|---|---|
| Bytes.SwappedStore | include/utils.h:12-13 | a field stored through the swap macro lies in network order and reads back modulo 2^16 |
| Checksum.ComputeChecksum16 | src/utils.c:72-91 | up to 131074 bytes, odd lengths included, the uint32_t sum never wraps and the result is the one's-complement checksum; the carry loop runs at most twice |
| Checksum.FoldTwice | src/utils.c:84-88 | two folds bring any 32-bit sum to 16 bits, and to its one's-complement value |
| Checksum.FoldCarries | src/utils.c:84-90 | the carry loop ends with the complement of the one's-complement sum after at most two rounds |
| Checksum.ByteOrderIndependence | src/utils.c:72-91 | for every byte string the checksum over little-endian words is the byte swap of the one over big-endian words (section 2(B) of RFC 1071) |
| Checksum.StoredChecksumIsAccepted | src/ip.c:388-390 | a header sealed with the checksum of its zeroed form passes the receiver's test |
| Checksum.AcceptsIffAllOnes | src/ip.c:243-249 | recompute-and-compare agrees with the all-ones test except for the second zero |
| Checksum.SingleWordChange | src/ip.c:243-249 | a changed 16-bit word of an accepted header goes unnoticed iff it swaps 0x0000 and 0xFFFF outside the checksum field, with another word nonzero |
| Layouts.Rfc1071Example | src/utils.c:72-91 | the example of section 3 of RFC 1071 has the checksum given there |
| Buffers.Buf.Init | src/buf.c:12-21 | succeeds iff the length is below half the array, and the window then ends at the middle |
| Buffers.Buf.AddHeader | src/buf.c:30-38 | the window's end stays put, its old contents follow the new header; refused iff there is no room in front |
| Buffers.Buf.RemoveHeader | src/buf.c:47-55 | drops exactly the front bytes, the window's end stays put; refused iff the window is shorter |
| Buffers.Buf.AddPadding | src/buf.c:64-72 | appends zeros and nothing else |
| Buffers.Buf.RemovePadding | src/buf.c:81-88 | drops exactly the back bytes |
| Buffers.Buf.CopyFrom | src/buf.c:97-102 | the copy's window ends at the middle; it is exact for every buffer whose window does so too |
| TimedMaps.ViewShrinks | src/map.c:62-65 | time only removes entries: what is live later was live before, with the same value |
| TimedMaps.ViewAfterWrite | src/map.c:93-114 | a live write to a key's own slot, or to a dead slot for an absent key, is a map update and leaves keys unique |
| TimedMaps.ViewAfterClear | src/map.c:122-128 | clearing a stamp removes that key alone |
| TimedMaps.LiveWithinStamped | src/map.c:62-65 | the live keys are at most the stamped slots, and exactly as many without a timeout |
| TimedMaps.OthersStay | src/map.c:93-128 | after a change to the entries of one key every other key keeps its entry, or its absence, from then on |
| TimedMaps.TimedMap.constructor | src/map.c:15-30 | a new map is valid, empty and of the given capacity |
| TimedMaps.TimedMap.LiveWithinSize | src/map.c:108 | live entries <= size <= capacity; with no timeout size is their number |
| TimedMaps.TimedMap.LiveBesideLeaked | src/map.c:93-114 | live entries and leaked capacity together stay within size |
| TimedMaps.TimedMap.ComesToBeExhausted | src/map.c:93-114 | a map at capacity is exhausted once its last entry has expired, and one whose capacity has all leaked is exhausted too |
| TimedMaps.TimedMap.Get | src/map.c:74-83 | a hit was the value of a live key when the call began, a miss is no live key when it ends |
| TimedMaps.TimedMap.Set | src/map.c:93-114 | update of the finite map; an absent key is refused iff size is at capacity; leaked capacity grows by one at each insertion over an expired entry and not otherwise; an exhausted map stays exhausted |
| TimedMaps.TimedMap.InsertAbsent | src/map.c:103-113 | with room an absent key always finds a slot: the last return of map_set is not reached |
| TimedMaps.TimedMap.Delete | src/map.c:122-128 | removal from the finite map; size drops by one iff the key was found, and never below 0; leaked capacity does not come back |
| TimedMaps.TimedMap.Assign | src/tcp.c:202 | a store through a value pointer changes that entry's value and no other, and nothing visible if it has been deleted |
| Ethernet.EthernetOut | src/ethernet.c:44-67 | the next frame on the wire is the padded packet behind its header |
| Ethernet.EthernetIn | src/ethernet.c:13-35 | takes off the header and passes up protocol, source and packet; too short a frame is dropped |
| Ethernet.UnframeOfFrame | src/ethernet.c:13-67 | receiving a sent frame gives back protocol, source and the packet followed by its padding |
| Ethernet.FrameIsFor | src/ethernet.c:56-59 | a frame begins with the address it is for, then this interface's, and the packet is behind the header |
| Layouts.FrameLayout | src/ethernet.c:44-59 | addresses, type, packet and zero padding to 60 bytes lie where RFC 894 puts them |
| Layouts.FrameIsRead | src/ethernet.c:13-35 | type, source and packet are read from those places, and only a frame shorter than its header is dropped |
| Arps.ParseArpOfPacket | src/arp.c:59-117 | an ARP packet of this stack is understood by another, padding behind it or not |
| Layouts.ArpLayout | src/arp.c:12-92 | each field of an ARP packet lies where RFC 826 puts it |
| Layouts.ArpIsRead | src/arp.c:102-117 | a packet is taken iff it is whole, for Ethernet and IPv4, and a request or a reply; its fields are read from there |
| Arps.Arp.ArpOut | src/arp.c:143-162 | the packet goes out to the resolved address, or is dropped behind one that waits, or a request goes out and the packet is parked, intact and for a second, if there is room, and lost if not; a request is never sent while one waits; packets parked for other next hops stay as they were |
| Arps.Arp.ArpIn | src/arp.c:100-135 | a refused packet changes nothing; after an accepted one the sender is resolved to the address heard if it had an entry or there was room, and to no other address, the rest of the table only ages, and either the very packet parked for it leaves, as it must while still live, or a request for our address is answered, or neither; packets parked for other next hops stay as they were |
| Arps.Arp.Learn | src/arp.c:119 | the sender's entry is written if it had one or there was room; in a full table an absent sender stays absent; no other entry changes |
| Arps.Arp.Release | src/arp.c:122-127 | exactly the packet in the sender's slot leaves for the address just heard, and that slot alone is freed; nothing leaves only if nothing live was parked |
| Arps.Arp.Exchange | src/arp.c:100-162 | a packet for an unknown next hop, then any calls of arp_out and any of arp_in but for that hop, then an ARP packet from it within the second: the wire shows the request and last that very packet to the address heard, and the next hop is resolved if the table had room |
| Arps.Arp.SentSoFar | src/arp.c:100-162 | at any moment the wire carries what the log says, and each IP packet on it was handed over before for that next hop, unchanged, answers a hand-over of its own, and lies in a frame that begins with the address last heard from that hop |
| Arps.Arp.SendArp | src/arp.c:59-92 | the request or reply goes out from the shared buffer, which is left 60 bytes long |
| Arps.SentIsJustified | src/arp.c:100-162 | in a coherent log each IP packet sent was handed over for that next hop before, unchanged, and carries the address in the most recent ARP packet accepted from it |
| Arps.TicketsDiffer | src/arp.c:122-161 | two packets sent answer two different hand-overs |
| Arps.SentWithinHanded | src/arp.c:122-161 | no packet is sent more often than it was handed over |
| ArpExchanges.RequestAsks | src/arp.c:59-71 | a request goes to everybody, says who asks, and asks for the address wanted |
| ArpExchanges.ReplyTells | src/arp.c:79-92 | a reply goes to the one that asked, and says who has the address |
| ArpExchanges.Hear | src/arp.c:100-135 | a packet parked for the sender leaves, and then nothing is answered; otherwise a request is answered iff it asks for this stack's own address, and nothing else is sent; the sender is resolved in time if there was room |
| ArpExchanges.Resolve | src/arp.c:59-162 | between two stacks: the request of one makes the other reply, unless that waits for the first in turn, and the reply resolves its address and puts the parked packet, unchanged, into a frame for it within the second |
| Reassembly.InsertKeepsNode | src/ip.c:156-204 | any insertion keeps the array sorted, free of repeated spans and within 100 entries; it is refused iff the array is full or the span is held, and otherwise adds exactly that fragment |
| Reassembly.CompleteIffExactCover | src/ip.c:80-93 | for nonempty fragments ending within 65535 the scan succeeds iff a last one was seen and [0, total_len) is covered exactly once, and nothing beyond |
| Reassembly.NoWrapBeforeLast | src/ip.c:86-90 | in a sorted array the scan's 16-bit offset does not wrap before the last fragment |
| Reassembly.MergeLength | src/ip.c:102-109 | whatever the fragments, a complete node merges to total_len bytes or 65536 more |
| Reassembly.MergePlacesFragments | src/ip.c:102-109 | in a complete node each fragment's bytes land at its own offset |
| ReassemblyNodes.ReassemblyNode.InsertFragment | src/ip.c:156-204 | the search, shift and store in the array do what Insert says of its value |
| ReassemblyNodes.ReassemblyNode.IsComplete | src/ip.c:80-93 | the loop with its uint16_t decides completeness of the node's value |
| ReassemblyNodes.ReassemblyNode.MergeInto | src/ip.c:102-109 | the buffer's window holds the datagram, and no byte lands outside the array |
| ReassemblyNodes.ReassemblyNode.Free | src/ip.c:211-219 | the node holds no fragment any more |
| FragmentBuffers.InsertBlock | src/ip.c:156-204 | insertion with its memory: every fragment held keeps a block of its own, and a repeated fragment's block is freed at once |
| FragmentBuffers.FreeAll | src/ip.c:211-219 | the loop frees each block of the node once, in order, and only allocated ones |
| FragmentBuffers.Run | src/ip.c:156-340 | over every run of arrivals and expiries each free is of an allocated block, and each block has exactly one fate |
| FragmentBuffers.ArriveIsTableStep | src/ip.c:303-340 | apart from the blocks, an arrival is the step of the node table |
| FragmentBuffers.BlocksAccountedFor | src/ip.c:156-340 | in every run each block malloc gave out is freed exactly once, or held by exactly one node, or lost with an expired node; the outstanding ones number the sum of fragment_count plus the lost |
| FragmentBuffers.LeaksIffExpired | src/map.c:62-65 | some allocated block is held by no node iff an entry of the map has expired |
| FragmentBuffers.LostIffExpired | src/map.c:62-65 | the account's lost blocks are none iff no entry of the map has expired |
| Fragmentation.PieceBounds | src/ip.c:435-451 | the cuts of ip_out are contiguous, at most 1480 bytes each, nonempty for a nonempty payload, and end at its end |
| Fragmentation.InsertPiece | src/ip.c:156-204 | inserting a piece turns the node of the pieces seen into the node of one more, or is refused if that one was seen |
| Fragmentation.CompletePieces | src/ip.c:80-109 | the node of a set of pieces is complete iff none is missing, and then delivers the payload cut to its length modulo 65536 |
| Fragmentation.RunIsCollect | src/ip.c:303-340 | under any order and repetition, across deliveries too, the node is that of the pieces collected since the last delivery |
| Fragmentation.FragmentationRoundTrip | src/ip.c:227-454 | nothing is delivered before the last missing piece, exactly one datagram at it, and it is the payload iff that is at most 65535 bytes; at one node, which IpEndToEnd joins to the headers |
| Fragmentation.KeysAreIndependent | src/ip.c:303-340 | in any interleaving each (src, dst, id) evolves and delivers as if its fragments had arrived alone |
| IpPackets.ParseOfPacket | src/ip.c:228-282 | a packet written by ip_fragment_out is accepted at its destination and every field and the payload come back, whatever padding follows |
| Layouts.PacketLayout | src/ip.c:371-390 | version, length, id, flag and offset, TTL 64, protocol, addresses and payload lie where RFC 791 puts them, and the header sums to all ones |
| Layouts.PacketIsRead | src/ip.c:228-282 | a packet is taken iff it is whole, of version 4, for this interface or loopback, and its header sums to all ones, less the second zero; every field and the payload are read from those places |
| Damage.DamagedHeader | src/ip.c:228-258 | an accepted packet with a header word changed is refused, except for the two zeros outside the checksum, and then is judged by its other fields alone |
| Damage.ReceiveDamaged | src/ip.c:227-359 | ip_in passes nothing up for a packet so damaged, and the table gains nothing |
| IpInput.CheckHeader | src/ip.c:228-282 | the checks in the buffer decide as Parse does of its bytes, and leave it on the payload |
| IpInput.VerifyChecksum | src/ip.c:243-249 | the stored field is tested and put back |
| IpInput.IpReceiver.GetNode | src/ip.c:119-143 | the node found or a new empty one, no other entry changed; null only for a full map or an expiry in between |
| IpInput.IpReceiver.Reassemble | src/ip.c:303-340 | with no expiry and room it is exactly the step of the node table, and size moves with the number of entries; in any case no other entry changes but by expiring, and a buffer passed up is a completed datagram of this key |
| IpInput.IpReceiver.IpIn | src/ip.c:227-359 | rejected packets change nothing, whole datagrams are passed up unchanged, fragments make the step of the node table, and size moves with the number of entries |
| IpOutput.IpSender.FragmentOut | src/ip.c:371-398 | the packet with its sealed header is handed over, and is the next frame if the next hop's address is still known |
| IpOutput.IpSender.IpOut | src/ip.c:434-454 | exactly the packets of the payload are handed over, in order, and framed if the address outlives the call; when nothing known of the next hop expires meanwhile it faults iff a payload of more than one piece lies in txbuf for a next hop neither resolved nor waited for; to such a next hop, within a second and with room, just one request goes out and just the first packet waits |
| IpOutput.IpSender.FirstContact | src/ip.c:434-454 | a payload for an unknown next hop and an ARP packet from it within the second: the wire shows the request and the first packet, and nothing else of the payload |
| Layouts.PieceLayout | src/ip.c:434-454 | each packet of a payload has at most 1500 bytes, all but the last exactly so, and says in units of 8 where its bytes belong and whether more follow |
| Udp.ComputeTransportChecksum | src/utils.c:112-134 | the checksum over pseudo-header and segment, and every byte of the buffer as before |
| Udp.ParseOfDatagram | src/udp.c:19-79 | what udp_out builds udp_in accepts, with the same ports and data |
| Layouts.PseudoLayout | src/utils.c:121-126 | addresses, zero, protocol and length lie where RFC 768 puts them |
| Layouts.DatagramLayout | src/udp.c:62-71 | ports, length and data lie where RFC 768 puts them, and the sum with the pseudo-header is all ones |
| Layouts.DatagramIsRead | src/udp.c:19-46 | a datagram is taken iff it holds a header and sums to all ones, less the second zero |
| Damage.DamagedDatagram | src/udp.c:25-31 | a datagram with a word changed is ignored, except for the two zeros outside the checksum |
| Damage.DamagedTcp | src/tcp.c:165-169 | the same for a segment |
| Udp.UdpReceiver.Open | src/udp.c:97-99 | the port gets this handler and no other changes; refused iff the port was closed and the table full |
| Udp.UdpReceiver.UdpIn | src/udp.c:19-50 | drops, refuses or hands over as the datagram's checksum and the open ports say; the handler sees exactly its data |
| UdpOutput.WriteUdpHeader | src/udp.c:60-71 | the buffer holds the datagram with its checksum |
| UdpOutput.UdpSend | src/udp.c:119-123 | if the peer's address outlives the call its frames are the next on the wire; when nothing known of the peer expires meanwhile it faults iff the datagram takes more than one fragment and the peer is neither resolved nor waited for; for such a peer, within a second and with room, just one request goes out and just the first packet waits |
| UdpOutput.FirstDatagramFaults | src/udp.c:119-123 | on a stack just set up, with tables of any capacity, the first datagram of more than 1472 bytes faults, whatever its bytes, ports and peer |
| EndToEnd.Host.Receive | src/ethernet.c:13-35 | a frame through ethernet_in, ip_in and udp_in leads to a call only for what it carries or completes; with no expiry and room it is exactly one step of the table, and further frames may follow |
| EndToEnd.Host.ReceiveAll | src/ethernet.c:13-35 | frames received one after the other lead to the table and the calls of the run of steps, provided nothing expires and the run leaves room |
| EndToEnd.FrameOfPiece | src/ip.c:371-398 | the receiver reads piece j's number, flag, offset and bytes out of its frame |
| EndToEnd.HostFollowsPieces | src/ip.c:227-359 | over any traffic with foreign frames in between, the node at the route's key follows the set of the route's pieces alone |
| EndToEnd.OwnCall | src/ip.c:227-359 | in any such run a frame of the route has the payload passed up iff it brings the last piece then missing |
| EndToEnd.PayloadsDoNotMix | src/ip.c:119-143 | when frames of two payloads for one host mix in any way, from two senders or under two numbers, each is passed up at its own last missing frame |
| EndToEnd.HandlerIsCalledIff | src/udp.c:33-49 | a handler is called iff the payload is UDP's, its checksum right and its port open |
| EndToEnd.IpEndToEnd | src/ip.c:227-454 | the frames ip_out sends for a payload of any protocol, in any order, repeated, among foreign frames: nothing is passed up before the last missing one, the payload at it, whole iff at most 65535 bytes long, and its node is gone |
| EndToEnd.FirstPieceAlone | src/ip.c:227-359 | of a payload of more than one piece the first packet alone, however often it is repeated, leads to nothing being passed up |
| EndToEnd.CallForDatagram | src/udp.c:19-50 | the rebuilt datagram leads to a call with the sender's bytes, ports and address iff the data is at most 65527 bytes and the port open |
| EndToEnd.UdpEndToEnd | src/udp.c:19-123 | the frames of one datagram's route received by the host itself: no call before the last missing one, exactly one with the sender's bytes, ports and address at it, iff the data is at most 65527 bytes and the port open |
| Journeys.UdpSendToHandler | src/udp.c:19-123 | from the call of udp_send: the frames it puts on its wire, which the network reorders, repeats and mixes with others, lead at the receiver to no call before the last missing one and to exactly one at it, with the sender's bytes, ports and address, iff the data is at most 65527 bytes and the port open |
| Journeys.IpSendToNet | src/ip.c:227-454 | the same from the call of ip_out to that of net_in, for any protocol |
| Journeys.SegmentArrives | src/tcp.c:119-191 | the bytes rebuilt at the receiver are read back as the segment sent iff it carries at most 65515 bytes, and are dropped otherwise |
| Journeys.SegmentToPeer | src/tcp.c:119-297 | any packet one TCP layer gave to ip_out, taken through ip_out, the network and reassembly, makes the other layer take exactly the step its segment calls for, in whatever state that layer is; a segment of more than 65515 bytes changes nothing |
| Journeys.StaysInStep | src/tcp.c:226-331 | where the receiver awaits the sender's next number, the data of tcp_send is handed over and the receiver awaits the sender's next number again |
| FirstContacts.DatagramInOrder | src/udp.c:19-123 | over a network that delivers every frame in order, one udp_send leads to the handler's call at the last frame and to none before |
| FirstContacts.FirstDatagramArrives | src/udp.c:19-123 | on two machines just set up, after one ARP reply, any udp_send of at most 65527 bytes over such a network has the handler called with just those bytes |
| FirstContacts.FirstSegmentArrives | src/tcp.c:119-297 | on two machines just set up, after one ARP reply, the segment that answers a SYN opens the connection at the other layer, with ack one past its number |
| TcpMachine.StatesStayReachable | src/tcp.c:195-263 | a connection stays in LISTEN, SYN_RECEIVED, ESTABLISHED or LAST_ACK, and changes between them only on SYN, ACK and FIN in that order |
| TcpMachine.SendAllAcknowledges | src/tcp.c:309-331 | each segment of a handler carries the connection's ack, the ACK flag alone and data, and the flag is set iff there was one |
| TcpRuns.StepTiles | src/tcp.c:226-331 | one segment's replies take consecutive sequence numbers from the connection's own |
| TcpRuns.SegmentsTile | src/tcp.c:202-370 | in every run of segments and tcp_close, through close and reopening, the segments of a connection tile the sequence space from ISS, and seq stands past the last |
| TcpRuns.SegmentNumbers | src/tcp.c:202-331 | each segment sent carries ISS plus the lengths of all earlier ones, modulo 2^32 |
| TcpStream.DeliveredIsPrefix | src/tcp.c:195-276 | under any loss, reordering and duplication, resets and data on the SYN included, the bytes delivered in ESTABLISHED are in every life a prefix of the peer's stream, and ack is IRS + 1 plus their number, plus 1 after the FIN, when they are the whole stream |
| TcpStream.HandedIffNoStray | src/tcp.c:267-276 | over all lives the handler is given exactly the acknowledged bytes iff no data was passed up outside ESTABLISHED, and otherwise more by just those bytes |
| TcpStream.DataOnSynIsHandedTwice | src/tcp.c:195-276 | after any traffic that leaves no connection, for every nonempty stream, data on the SYN and sent again is handed over twice |
| TcpStream.DataOnHandshakeAckIsHandedTwice | src/tcp.c:210-276 | the same for data on the handshake's last ACK, repeated |
| TcpStream.RepeatedFinIsHandedTwice | src/tcp.c:245-276 | the same for a FIN with data, repeated |
| TcpStream.ReplayedLivesAreHandedAgain | src/tcp.c:195-276 | the segments of one connection replayed n times open n connections, and the handler is given the whole stream n times though no data strays |
| TcpAcks.FlagClearOverRuns | src/tcp.c:281-330 | if opening segments carry no data, not_send_empty_ack is 0 outside LAST_ACK in every run |
| TcpAcks.AnsweredIff | src/tcp.c:226-295 | exactly which in-order data is answered; the answer carries the new ack, and no bare ACK follows a handler's data without FIN |
| TcpAcks.DataIsAcknowledged | src/tcp.c:226-295 | after a bare handshake every in-order data segment on an open port is acknowledged |
| TcpAnswers.OutOfOrderIsAnswered | src/tcp.c:226-233 | a segment out of order is answered with one bare ACK of what is still expected, and changes nothing |
| TcpAnswers.OutOfOrderTellsHowFar | src/tcp.c:226-233 | in every run that ACK is IRS + 1 plus the number of bytes delivered |
| TcpAnswers.SynIsAnswered | src/tcp.c:196-213 | a bare SYN is answered with SYN and ACK, the number drawn and the SYN's number plus one |
| TcpAnswers.FinIsAnswered | src/tcp.c:234-295 | a FIN in order, with data or without, is answered last of all with FIN and ACK, unless its data finds the port closed |
| TcpAnswers.ResetIsSilent | src/tcp.c:178-182 | a reset removes the connection and nothing is sent |
| TcpAnswers.OthersAreIgnored | src/tcp.c:196-258 | a segment without the flag waited for sends and changes nothing |
| TcpAnswers.AcksAreTrue | src/tcp.c:195-331 | in every run each segment sent acknowledges exactly the bytes delivered so far, and the FIN once taken |
| TcpAnswers.StepSpeaks | src/tcp.c:267-331 | one step sends just the bytes its handler says, and the handler is called exactly for data in order or with the flag waited for |
| TcpAnswers.SentIsWhatWasSaid | src/tcp.c:267-331 | in every run, through close and reopening, the data sent is what the handler has said, byte for byte |
| Tcp.ParseOfTcpBytes | src/tcp.c:119-191 | what tcp_out writes tcp_in accepts, with the same ports, sequence number, flags and payload |
| Layouts.SegmentLayout | src/tcp.c:119-138 | ports, both numbers, header length, flags, window 65535 and data lie where RFC 9293 puts them, and the sum with the pseudo-header is all ones |
| Layouts.SegmentIsRead | src/tcp.c:153-191 | a segment is taken iff it holds a header and sums to all ones, less the second zero; what tcp_in uses is read from those places |
| Tcp.TcpLayer.TcpOut | src/tcp.c:119-145 | the packet given to ip_out encodes the segment with the connection's seq and ack |
| Tcp.TcpLayer.TcpSend | src/tcp.c:309-331 | sends the data, if any, and advances the record as the machine's Send; no other connection changes |
| Tcp.TcpLayer.GetConnection | src/tcp.c:81-91 | the record of the key, or a new one in LISTEN, and no other entry touched; null iff the key is absent and the table full |
| Tcp.TcpLayer.CloseConnection | src/tcp.c:100-103 | the key leaves the table while its record can still be read through the pointer |
| Tcp.TcpLayer.Advance | src/tcp.c:195-263 | the switch moves the record as Judge says: dropped, answered with a duplicate ACK, or on to the reply |
| Tcp.TcpLayer.TcpIn | src/tcp.c:153-297 | the connection addressed takes exactly the machine's step, its segments are what goes to ip_out, the handler sees the bytes of that step, and no other connection changes; it follows a null pointer iff the table is full, the connection absent and the segment no reset |
| TcpWire.AnswerData | src/tcp.c:226-331 | in-order data on an open port puts some packet to the peer whose acknowledgement field holds the data's number plus its length, and one more for a FIN, with the ACK bit set |
| TcpWire.AnswerOutOfOrder | src/tcp.c:226-233 | a segment out of order puts exactly one packet, a bare ACK of what is still expected, and changes no connection |
| TcpWire.AnswerSyn | src/tcp.c:196-295 | a SYN for a new connection puts exactly one packet, with SYN and ACK, the number drawn and the SYN's number plus one |
| TcpWire.AcknowledgeTruly | src/tcp.c:153-297 | among any other packets, every packet sent because of a peer's acknowledges in its bytes just what has been delivered of the peer's stream |
| Tcp.TcpLayer.TcpOpen | src/tcp.c:352-354 | the port gets this handler, no other handler and no connection changes; refused iff the port was closed and the table full |
| Tcp.TcpLayer.TcpClose | src/tcp.c:356-370 | though the map is changed while it is walked, exactly the port's connections go, all others stay as they were, and size is their number |
| TcpTable.TableFollowsHistories | src/tcp.c:81-370 | in any interleaving of segments and tcp_close each key's entry is the connection its own segments and the closings of its port lead to |
| TcpTable.StoredStates | src/tcp.c:195-263 | in every such run every stored connection is in one of the four states, so the default branch is never reached |
| TcpTraffic.TakeAll | src/tcp.c:153-297 | any sequence of packets at a layer without connections, with room for one connection each: no null pointer is followed, and the table and what each packet has handed over are those of the runs |
| TcpTraffic.ConnOfOwn | src/tcp.c:81-103 | among any other packets, a connection in the table is where its own segments bring it in the runs that the delivery theorems speak of |
| TcpTraffic.HandedIsLogged | src/tcp.c:267-276 | what a connection's handler is given, packet by packet, is what the log of those runs says |
| TcpTraffic.StreamToHandler | src/tcp.c:153-297 | delivery at the layer itself: among any other packets one peer's leave a prefix of its stream acknowledged, and the handler has been given exactly what was acknowledged iff no data strayed, and otherwise more by just those bytes |
| TcpTraffic.OneSynTooMany | src/tcp.c:81-91 | a new table of n connections takes the SYNs of n ports and meets its null pointer at the next |

## Left out

- The driver, pcap, `net_poll` and `src/driver.c`'s receive buffer: frames arrive in valid buffers, and sent frames are a sequence.
- The protocol table of `net_in`: the host of `EndToEnd.dfy` passes IP to UDP directly; ARP frames and TCP segments are handled by their own classes.
- ICMP, `icmp_unreachable` and the copy `ip_in` keeps for it: an unknown port or protocol is an outcome without an answer.
- The 127.0.0.1 path of `ip_out` (src/ip.c:408-432) and the `PING` code.
- Statistics, logging, the monitor, and the web server: a TCP handler is an arbitrary sequence of sends on its own connection.
- Failing `malloc`.
- TimedMaps.TimedMap.constructor: the arithmetic by which `map_init` turns bytes into a capacity is not modelled; the capacity is a parameter.
- TCP retransmission, windows and active open, which the program does not have either; `rand` and `time` are inputs.
- ReassemblyNodes.ReassemblyNode.Free: resets the count only; the blocks its loop frees are accounted for in `FragmentBuffers`, where fragment data has an owner.
- ReassemblyNodes.ReassemblyNode.InsertFragment: fragment data is a value in the array, not a pointer to a block; allocation is modelled in `FragmentBuffers.InsertBlock`.
- IpInput.IpReceiver.GetNode: `arrival_time`, which nothing reads, is not modelled.
- FragmentBuffers.LeaksIffExpired: an expiry is an event that may come at any moment; stamps and the clock are those of `TimedMap`.
- IpInput.IpReceiver.Reassemble: it is tied to the exact table step only with nothing expiring before the horizon and room for one more node; otherwise to the frame and to what may be passed up.
- EndToEnd.Host.ReceiveAll: nothing expires and the run leaves room for a node at each frame; without these premises Receive still says what each single frame may lead to.
- Journeys.SegmentToPeer: the segment passed up reaches `tcp_in` in a buffer of its own, and what foreign frames bring to the receiving layer meanwhile is left to its state, which is arbitrary.
- Journeys.UdpSendToHandler: the peer's address does not expire before the run ends.
- TcpTraffic.StreamToHandler: of packets alone; a `tcp_close` of the port in between is left to TcpTable.
- Udp.UdpReceiver.UdpIn: the source address is a value; with an IHL field of 2, zeroing the UDP checksum overwrites two bytes of the address `ip_in` points to, and the source computes with those, so `Host.Receive` departs from it on such a header.
- IpOutput.IpSender.IpOut: stated for payloads below 65662 bytes, all that `buf_init` accepts; `fault` stands for the copy with an underflowed size, and what the program does after it is not modelled.
- Arps.Arp.ArpIn: a parked packet is framed in a copy loaded from its slot, not in the slot itself, which is deleted right after.
- Tcp.TcpLayer.TcpOut: packets go to a recorded `ip_out`, from which `Journeys.SegmentToPeer` takes them on; the urgent pointer is whatever lies in the buffer.
- Tcp.TcpLayer.TcpIn: `fault` stands for following the null pointer; what the program does after it is not modelled.
- TcpTable.TableFollowsHistories: of runs in which the table, which holds any number of connections here, does not fill up.
- TcpStream.DeliveredIsPrefix: for streams below 2^32 bytes, and below 2^32 - 1 where the SYN is repeated in ESTABLISHED; the port has a handler throughout.
- `udp_close`, `ip_prefix_match` and the printing helpers: one-line members.
