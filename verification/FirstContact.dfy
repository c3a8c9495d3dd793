/** Two machines just set up: the theorems of Journey.dfy at work, from the first ARP packet on. */
module FirstContacts {
  import opened Bytes
  import opened Buffers
  import opened TimedMaps
  import opened Ethernet
  import opened Arps
  import opened IpPackets
  import opened Reassembly
  import opened Fragmentation
  import opened IpInput
  import opened IpOutput
  import opened Udp
  import opened EndToEnd
  import opened TcpMachine
  import opened Tcp
  import opened TcpTraffic
  import opened Journeys

  /** A sender that has heard one ARP reply from dst, and knows its address to the end of the run. */
  method NewSender(source: Clock, src: Ip, srcMac: Mac, dst: Ip, dstMac: Mac, table: nat, pending: nat)
    returns (ip: IpSender)
    requires source.Valid() && source.horizon <= source.now + ARP_TIMEOUT_SEC && table > 0
    modifies source
    ensures fresh(ip) && fresh(ip.arp) && fresh(ip.arp.pending) && fresh(ip.arp.pending.slots)
    ensures fresh(ip.arp.txbuf) && fresh(ip.arp.txbuf.payload) && fresh(ip.arp.driver)
    ensures ip.arp.Valid() && ip.arp.clock == source
    ensures ip.arp.ifIp == src && ip.id == 0 && dst in Lasting(ip.arp)
  {
    var arp := NewArp(source, src, srcMac, table, pending);
    HearReply(arp, dst, dstMac);
    ip := new IpSender(arp);
  }

  ghost function ArpParts(arp: Arp): set<object> {
    {arp, arp.clock, arp.table, arp.table.slots, arp.pending, arp.pending.slots, arp.txbuf, arp.txbuf.payload,
     arp.driver}
  }

  method NewArp(source: Clock, src: Ip, srcMac: Mac, table: nat, pending: nat) returns (arp: Arp)
    requires source.Valid()
    ensures fresh(ArpParts(arp) - {source}) && arp.Valid() && arp.clock == source && arp.ifIp == src
    ensures arp.table.size == 0 && arp.table.slots.Length == table
  {
    var wire := new Driver();
    var tx := new Buf();
    arp := new Arp(source, wire, tx, src, srcMac, table, pending);
  }

  method HearReply(arp: Arp, dst: Ip, dstMac: Mac)
    requires arp.Valid() && arp.table.size < arp.table.slots.Length
    requires arp.clock.horizon <= arp.clock.now + ARP_TIMEOUT_SEC
    modifies arp`log, arp.clock, arp.table`size, arp.table.slots, arp.pending`size, arp.pending.slots, arp.txbuf,
             arp.txbuf.payload, arp.driver
    ensures arp.Valid() && dst in Lasting(arp) && Lasting(arp)[dst] == dstMac
  {
    var reply := ArpPacket(ARP_REPLY, dstMac, dst, arp.ifMac, arp.ifIp);
    ParseArpOfPacket(ARP_REPLY, dstMac, dst, arp.ifMac, arp.ifIp, reply);
    var buf := Loaded(reply);
    ghost var released := arp.ArpIn(buf);
  }

  /** A receiver with one open port. */
  method NewHost(source: Clock, address: Ip, nodes: nat, port: u16) returns (host: Host)
    requires source.Valid() && source.horizon <= source.now + IP_FRAG_TIMEOUT_SEC
    modifies source
    ensures fresh(host.ip) && fresh(host.ip.nodes) && fresh(host.ip.nodes.slots)
    ensures Footprint(host.ip.nodes.slots[..]) == {}
    ensures host.Valid() && host.ip.clock == source && host.ip.ifIp == address
    ensures fresh(host.udp.handlers) && fresh(host.udp.handlers.slots)
    ensures host.ip.Steady() && host.ip.Table() == map[] && host.ip.Slack() == 0
    ensures host.ip.nodes.slots.Length == nodes && host.udp.Ports() == {port}
  {
    host := new Host(source, address, nodes, 1);
    NoneLive(host.ip);
    label made:
    var ok := host.udp.Open(port, 0);
    host.ip.Untouched@made();
  }

  lemma NoneLive(ip: IpReceiver)
    requires ip.Valid() && ip.Table() == map[] && ip.clock.horizon <= ip.clock.now + IP_FRAG_TIMEOUT_SEC
    ensures ip.Steady()
  {
    ip.MirrorLife();
    forall i | 0 <= i < |ip.mirror|
      ensures !LiveSlot(ip.mirror[i], IP_FRAG_TIMEOUT_SEC, ip.clock.now)
    {
      if LiveSlot(ip.mirror[i], IP_FRAG_TIMEOUT_SEC, ip.clock.now) {
        ViewOfSlot(ip.mirror, IP_FRAG_TIMEOUT_SEC, ip.clock.now, i);
      }
    }
  }

  method NewSenderApart(source: Clock, src: Ip, srcMac: Mac, dst: Ip, dstMac: Mac, ghost others: set<object>)
    returns (ip: IpSender)
    requires source.Valid() && source.horizon <= source.now + ARP_TIMEOUT_SEC && source !in others
    modifies source
    ensures fresh(ip) && fresh(ip.arp) && fresh(ip.arp.pending) && fresh(ip.arp.pending.slots)
    ensures fresh(ip.arp.txbuf) && fresh(ip.arp.txbuf.payload) && fresh(ip.arp.driver)
    ensures ip.arp.Valid() && ip.arp.clock == source
    ensures ip.arp.ifIp == src && ip.id == 0 && dst in Lasting(ip.arp)
    ensures SenderParts(ip) !! others && unchanged(others)
  {
    ip := NewSender(source, src, srcMac, dst, dstMac, 1, 1);
  }

  method SetUp(source: Clock, other: Clock, src: Ip, srcMac: Mac, dst: Ip, dstMac: Mac, nodes: nat, port: u16)
    returns (ip: IpSender, host: Host)
    requires source.Valid() && source.horizon <= source.now + ARP_TIMEOUT_SEC
    requires other.Valid() && other.horizon <= other.now + IP_FRAG_TIMEOUT_SEC && source != other
    modifies source, other
    ensures fresh(ip) && fresh(ip.arp) && fresh(ip.arp.pending) && fresh(ip.arp.pending.slots)
    ensures fresh(ip.arp.txbuf) && fresh(ip.arp.txbuf.payload) && fresh(ip.arp.driver)
    ensures fresh(host.ip) && fresh(host.ip.nodes) && fresh(host.ip.nodes.slots)
    ensures Footprint(host.ip.nodes.slots[..]) == {}
    ensures SenderParts(ip) !! HostParts(host)
    ensures ip.arp.Valid() && ip.arp.clock == source && ip.arp.ifIp == src && ip.id == 0 && dst in Lasting(ip.arp)
    ensures host.Valid() && host.ip.clock == other && host.ip.ifIp == dst
    ensures host.ip.Steady() && host.ip.Table() == map[] && host.ip.Slack() == 0
    ensures host.ip.nodes.slots.Length == nodes && host.udp.Ports() == {port}
  {
    host := NewHost(other, dst, nodes, port);
    label received:
    ip := NewSenderApart(source, src, srcMac, dst, dstMac, HostParts(host));
    LeftAlone@received(host);
  }

  // ----- The network that loses and reorders nothing

  function InOrder(n: nat): (run: seq<Tagged>)
    ensures |run| == n
  {
    if n == 0 then [] else InOrder(n - 1) + [Own(n - 1)]
  }

  lemma {:induction false} OwnSnoc(run: seq<Tagged>, j: nat)
    ensures OwnPieces(run + [Own(j)]) == OwnPieces(run) + [j]
  {
    assert (run + [Own(j)])[..|run|] == run;
  }

  lemma SeenSnoc(pieces: seq<nat>, j: nat)
    ensures Fragmentation.Seen(pieces + [j]) == Fragmentation.Seen(pieces) + {j}
  {
    SeenOne(pieces + [j]);
    assert (pieces + [j])[..|pieces|] == pieces;
  }

  lemma {:induction false} InOrderSeen(n: nat)
    ensures Fragmentation.Seen(OwnPieces(InOrder(n))) == Below(n)
    ensures forall i | 0 <= i < n :: InOrder(n)[i].Own? && InOrder(n)[i].piece < n
  {
    if n > 0 {
      InOrderSeen(n - 1);
      OwnSnoc(InOrder(n - 1), n - 1);
      SeenSnoc(OwnPieces(InOrder(n - 1)), n - 1);
    }
  }

  lemma {:induction false} InOrderCarriesAll(r: Route, n: nat)
    requires n + 1 == PieceCount(|r.payload|)
    ensures CarriesAll(r, InOrder(n), n)
  {
    InOrderSeen(n);
    assert n in All(r.payload) && n !in Below(n);
  }

  /** udp_send over a network that delivers every frame, in order: one call, at the last frame. */
  method DatagramInOrder(ip: IpSender, host: Host, data: Chunk, srcPort: u16, dst: Ip, dstPort: u16, n: nat,
                         ghost r: Route, ghost call: Option<UdpCall>) returns (calls: seq<Option<UdpCall>>)
    requires n + 1 == PieceCount(UDP_HDR_LEN + |data|)
    requires Linked(ip, host, Datagram(ip.arp.ifIp, dst, srcPort, dstPort, data), dst, PROTOCOL_UDP, n + 1, r)
    requires call == if |data| <= MAX_DATA && dstPort in host.udp.Ports()
                     then Some(UdpCall(ip.arp.ifIp, UdpMessage(srcPort, dstPort, data))) else None
    modifies ip`id, ip.arp`log, ip.arp`tickets, ip.arp.clock, ip.arp.pending`size, ip.arp.pending.slots,
             ip.arp.txbuf, ip.arp.txbuf.payload, ip.arp.driver
    modifies host.ip`mirror, host.ip.clock, host.ip.nodes`size, host.ip.nodes.slots, Footprint(host.ip.nodes.slots[..])
    ensures AllAtLast(calls, n + 1, call)
  {
    InOrderCarriesAll(r, n);
    var run := InOrder(n);
    calls := UdpSendToHandler(ip, host, data, srcPort, dst, dstPort, run, n, r);
    OnlyAtLast(calls, n);
  }

  lemma {:induction false} OnlyAtLast(calls: seq<Option<UdpCall>>, n: nat)
    requires |calls| == n + 1 && forall i | 0 <= i < n && InOrder(n)[i].Own? :: calls[i] == None
    ensures AllAtLast(calls, n + 1, calls[n])
  {
    InOrderSeen(n);
  }

  predicate AllAtLast(calls: seq<Option<UdpCall>>, n: nat, call: Option<UdpCall>)
    requires n > 0
  {
    |calls| == n && (forall i | 0 <= i < n - 1 :: calls[i] == None) && calls[n - 1] == call
  }

  /** After one ARP reply, any udp_send of at most 65527 bytes over such a network has the handler called with just
      those bytes. */
  method FirstDatagramArrives(source: Clock, other: Clock, src: Ip, srcMac: Mac, dst: Ip, dstMac: Mac, nodes: nat,
                              data: Chunk, srcPort: u16, dstPort: u16) returns (calls: seq<Option<UdpCall>>)
    requires source.Valid() && source.horizon <= source.now + ARP_TIMEOUT_SEC
    requires other.Valid() && other.horizon <= other.now + IP_FRAG_TIMEOUT_SEC && source != other
    requires dst != LOOPBACK && |data| <= MAX_DATA && PieceCount(UDP_HDR_LEN + |data|) <= nodes
    modifies source, other
    ensures AllAtLast(calls, PieceCount(UDP_HDR_LEN + |data|), Some(UdpCall(src, UdpMessage(srcPort, dstPort, data))))
  {
    var ip, host := SetUp(source, other, src, srcMac, dst, dstMac, nodes, dstPort);
    ghost var r := RouteTo(ip, dst, PROTOCOL_UDP, Datagram(src, dst, srcPort, dstPort, data));
    ghost var call := Some(UdpCall(src, UdpMessage(srcPort, dstPort, data)));
    calls := DatagramInOrder(ip, host, data, srcPort, dst, dstPort, PieceCount(UDP_HDR_LEN + |data|) - 1, r, call);
  }

  // ----- The first segment

  /** A layer that has just answered the SYN of dst's port dstPort to its own port srcPort. */
  method NewAnswer(src: Ip, dst: Ip, srcPort: u16, dstPort: u16, iss: u32) returns (a: TcpLayer)
    ensures fresh(a.conns.clock) && a.Valid() && a.ifIp == src
    ensures a.log == [Answer(dst, srcPort, dstPort, iss)] && |a.sent| == 1 && a.sent[0].dst == dst
    ensures |a.sent[0].bytes| == TCP_HDR_LEN
  {
    var clock := new Clock(1, 1);
    a := new TcpLayer(clock, src, 1, 1);
    ParseOfTcpBytes(dst, Outgoing(src, dstPort, srcPort, SYN_ONLY), 0);
    SynAnswered(a.Open(srcPort), iss);
    AddressedConcat(TcpKey(dst, dstPort, srcPort), [], []);
    a.conns.LiveWithinSize();
    var buf := Loaded(SynFrom(dst, src, dstPort, srcPort));
    var handed, fault := a.TcpIn(buf, dst, [], iss);
  }

  lemma SynAnswered(registered: bool, iss: u32)
    ensures Step(FRESH_CONN, Incoming(0, SYN_ONLY.flags, 0, []), registered, [], iss).sent ==
            [Segment(iss, 1, Flags(false, true, false, true), [])]
  {
  }

  function Answer(dst: Ip, srcPort: u16, dstPort: u16, iss: u32): Outgoing {
    Outgoing(dst, srcPort, dstPort, Segment(iss, 1, Flags(false, true, false, true), []))
  }

  /** A layer without connections opens one for it. */
  lemma AnswerOpens(src: Ip, dst: Ip, srcPort: u16, dstPort: u16, iss: u32, open: bool, before: Standing,
                    after: Standing, handed: seq<byte>, fault: bool)
    requires before.conns == map[] && !before.full
    requires Takes(src, Answer(dst, srcPort, dstPort, iss), open, [], 0, before, after, handed, fault)
    ensures after.conns == map[TcpKey(src, srcPort, dstPort) := Conn(SynReceived, false, 1, ToU32(iss + 1))]
  {
  }

  method SendFirst(a: TcpLayer, ip: IpSender, host: Host, b: TcpLayer, srcPort: u16, dstPort: u16, iss: u32,
                   ghost r: Route)
    requires Underway(a, 0, ip, host, b, 1, r) && a.log[0] == Answer(r.dst, srcPort, dstPort, iss)
    requires PieceCount(|r.payload|) == 1 && b.Conns() == map[] && b.conns.size < b.conns.slots.Length
    modifies ip`id, ip.arp`log, ip.arp`tickets, ip.arp.clock, ip.arp.pending`size, ip.arp.pending.slots,
             ip.arp.txbuf, ip.arp.txbuf.payload, ip.arp.driver
    modifies host.ip`mirror, host.ip.clock, host.ip.nodes`size, host.ip.nodes.slots, Footprint(host.ip.nodes.slots[..])
    modifies b`sent, b`log, b.conns`size, b.conns.slots
    ensures b.Valid()
    ensures b.Conns() == map[TcpKey(a.ifIp, srcPort, dstPort) := Conn(SynReceived, false, 1, ToU32(iss + 1))]
  {
    InOrderCarriesAll(r, 0);
    ghost var before, open := StandingOf(b), b.Open(dstPort);
    var handed, fault := SegmentToPeer(a, 0, ip, host, b, [], 0, [], 0, r, a.log[0], open, before);
    AnswerOpens(a.ifIp, r.dst, srcPort, dstPort, iss, open, before, StandingOf(b), handed, fault);
  }

  /** It reaches the layer of the other machine, which opens a connection for it. */
  method FirstSegmentArrives(source: Clock, other: Clock, src: Ip, srcMac: Mac, dst: Ip, dstMac: Mac, srcPort: u16,
                             dstPort: u16, iss: u32) returns (b: TcpLayer)
    requires source.Valid() && source.horizon <= source.now + ARP_TIMEOUT_SEC
    requires other.Valid() && other.horizon <= other.now + IP_FRAG_TIMEOUT_SEC && source != other
    requires dst != LOOPBACK
    modifies source, other
    ensures b.Valid()
    ensures b.Conns() == map[TcpKey(src, srcPort, dstPort) := Conn(SynReceived, false, 1, ToU32(iss + 1))]
  {
    var a := NewAnswer(src, dst, srcPort, dstPort, iss);
    var ip, host;
    ghost var r;
    ip, host, r := Connect(source, other, src, srcMac, dst, dstMac, a.sent[0].bytes);
    b := Reach(a, ip, host, srcPort, dstPort, iss, r);
  }

  method Reach(a: TcpLayer, ip: IpSender, host: Host, srcPort: u16, dstPort: u16, iss: u32, ghost r: Route)
    returns (b: TcpLayer)
    requires a.Valid() && |a.sent| == 1 && a.ifIp == ip.arp.ifIp && a.log == [Answer(r.dst, srcPort, dstPort, iss)]
    requires a.sent[0].dst == r.dst && |a.sent[0].bytes| == TCP_HDR_LEN && r.payload == a.sent[0].bytes
    requires Linked(ip, host, a.sent[0].bytes, r.dst, PROTOCOL_TCP, 1, r)
    modifies ip`id, ip.arp`log, ip.arp`tickets, ip.arp.clock, ip.arp.pending`size, ip.arp.pending.slots,
             ip.arp.txbuf, ip.arp.txbuf.payload, ip.arp.driver
    modifies host.ip`mirror, host.ip.clock, host.ip.nodes`size, host.ip.nodes.slots, Footprint(host.ip.nodes.slots[..])
    ensures b.Valid()
    ensures b.Conns() == map[TcpKey(a.ifIp, srcPort, dstPort) := Conn(SynReceived, false, 1, ToU32(iss + 1))]
  {
    b := NewLayer(ip, host, a.sent[0].bytes, r);
    SendFirst(a, ip, host, b, srcPort, dstPort, iss, r);
  }

  /** Two machines ready for a payload of one packet. */
  method Connect(source: Clock, other: Clock, src: Ip, srcMac: Mac, dst: Ip, dstMac: Mac, ghost payload: Payload)
    returns (ip: IpSender, host: Host, ghost r: Route)
    requires source.Valid() && source.horizon <= source.now + ARP_TIMEOUT_SEC
    requires other.Valid() && other.horizon <= other.now + IP_FRAG_TIMEOUT_SEC && source != other
    requires dst != LOOPBACK && PieceCount(|payload|) == 1
    modifies source, other
    ensures ip.arp.ifIp == src && ip.arp.clock == source && host.ip.clock == other && r.dst == dst
    ensures r.payload == payload && r.src == src
    ensures Linked(ip, host, payload, dst, PROTOCOL_TCP, 1, r)
    ensures fresh(ip) && fresh(ip.arp) && fresh(ip.arp.pending) && fresh(ip.arp.pending.slots)
    ensures fresh(ip.arp.txbuf) && fresh(ip.arp.txbuf.payload) && fresh(ip.arp.driver)
    ensures fresh(host.ip) && fresh(host.ip.nodes) && fresh(host.ip.nodes.slots)
    ensures Footprint(host.ip.nodes.slots[..]) == {}
  {
    ip, host := SetUp(source, other, src, srcMac, dst, dstMac, 1, 0);
    r := RouteTo(ip, dst, PROTOCOL_TCP, payload);
  }

  /** A layer on the receiving machine. */
  method NewLayer(ip: IpSender, host: Host, ghost payload: Payload, ghost r: Route) returns (b: TcpLayer)
    requires Linked(ip, host, payload, r.dst, PROTOCOL_TCP, 1, r)
    ensures Linked(ip, host, payload, r.dst, PROTOCOL_TCP, 1, r)
    ensures SenderParts(ip) !! TcpParts(b) && HostParts(host) !! TcpParts(b)
    ensures fresh(b) && fresh(b.conns) && fresh(b.conns.slots)
    ensures b.Valid() && b.ifIp == r.dst && b.conns.clock == host.ip.clock
    ensures b.Conns() == map[] && b.conns.size < b.conns.slots.Length
  {
    b := NewLayerApart(host.ip.clock, host.ip.ifIp, SenderParts(ip), HostParts(host));
    LeftAlone(host);
  }

  method NewLayerApart(source: Clock, address: Ip, ghost some: set<object>, ghost others: set<object>)
    returns (b: TcpLayer)
    requires source.Valid()
    ensures some !! TcpParts(b) && others !! TcpParts(b) && unchanged(others)
    ensures fresh(b) && fresh(b.conns) && fresh(b.conns.slots)
    ensures b.Valid() && b.ifIp == address && b.conns.clock == source
    ensures b.Conns() == map[] && b.conns.size < b.conns.slots.Length
  {
    b := new TcpLayer(source, address, 1, 1);
    b.conns.LiveWithinSize();
  }
}
