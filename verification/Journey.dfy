/** From one machine to the other: the sender's call, the frames on its wire, what the network makes of
    them, and the receiver's call of its handler; for udp_send and for the segments of TCP. */
module Journeys {
  import opened Bytes
  import opened Buffers
  import opened TimedMaps
  import opened Ethernet
  import opened Arps
  import opened IpPackets
  import opened Reassembly
  import opened Fragmentation
  import opened IpInput
  import opened IpOutput
  import opened Udp
  import opened UdpOutput
  import opened TcpMachine
  import opened Tcp
  import opened EndToEnd

  // ----- The network

  /** Frames of a wire in any order, lost or repeated, and anything else in between. */
  function Carried(wire: seq<seq<byte>>, run: seq<Tagged>): (frames: seq<seq<byte>>)
    requires forall i | 0 <= i < |run| && run[i].Own? :: run[i].piece < |wire|
    ensures |frames| == |run|
  {
    seq(|run|, i requires 0 <= i < |run| => match run[i] case Own(j) => wire[j] case Foreign(f) => f)
  }

  /** A run brings every frame of the route, its last one completing them, and every frame fits a buffer. */
  ghost predicate CarriesAll(r: Route, run: seq<Tagged>, last: nat) {
    && Traffic(r, run + [Own(last)])
    && Seen(OwnPieces(run)) < All(r.payload) && Seen(OwnPieces(run)) + {last} == All(r.payload)
    && forall i | 0 <= i < |run| && run[i].Foreign? :: |run[i].frame| < BUF_MIDDLE
  }

  lemma CarriedIsOnWire(r: Route, run: seq<Tagged>, last: nat)
    requires CarriesAll(r, run, last)
    ensures var all := run + [Own(last)];
            && (forall i | 0 <= i < |all| && all[i].Own? :: all[i].piece < |RouteFrames(r)|)
            && Carried(RouteFrames(r), all) == OnWire(r, all)
            && forall i | 0 <= i < |all| :: |OnWire(r, all)[i]| < BUF_MIDDLE
  {
    var all := run + [Own(last)];
    forall i | 0 <= i < |all|
      ensures all[i].Own? ==> all[i].piece < |RouteFrames(r)|
      ensures |OnWire(r, all)[i]| < BUF_MIDDLE
    {
      if all[i].Own? {
        FrameLength(r, all[i].piece);
      } else {
        assert all[i] == run[i];
      }
    }
  }

  lemma FrameLength(r: Route, j: nat)
    requires j < PieceCount(|r.payload|)
    ensures |RouteFrames(r)[j]| < BUF_MIDDLE
  {
    var n := PieceCount(|r.payload|);
    var packets := Packets(r.src, r.dst, r.protocol, r.id, r.payload, n);
    FramesIndex(r.mac, r.ifMac, packets, j);
    PacketsIndex(r.src, r.dst, r.protocol, r.id, r.payload, n, j);
    PieceBounds(|r.payload|, j);
  }

  // ----- Room at the receiver

  /** A frame adds one node at most. */
  lemma StepGrowth(ifIp: Ip, table: map<Key, Node>, frame: seq<byte>)
    requires ValidTable(table)
    ensures |IpStep(ifIp, table, frame).0| <= |table| + 1
  {
    var after := IpStep(ifIp, table, frame).0;
    if after != table {
      var key := IpInput.KeyOf(Parse(ifIp, Unframe(frame).packet));
      NoLarger(after.Keys, table.Keys + {key});
    }
  }

  lemma NoLarger<T>(a: set<T>, b: set<T>)
    requires a <= b
    ensures |a| <= |b|
  {
    assert b == a + (b - a);
  }

  lemma {:induction false} TableGrowth(ifIp: Ip, table: map<Key, Node>, frames: seq<seq<byte>>)
    requires ValidTable(table)
    ensures |TableAfter(ifIp, table, frames)| <= |table| + |frames|
  {
    if |frames| > 0 {
      TableGrowth(ifIp, table, frames[..|frames| - 1]);
      StepGrowth(ifIp, TableAfter(ifIp, table, frames[..|frames| - 1]), frames[|frames| - 1]);
    }
  }

  /** One free slot for each frame is always enough. */
  lemma RoomForAll(host: Host, frames: seq<seq<byte>>)
    requires ValidTable(host.ip.Table())
    requires |host.ip.Table()| + host.ip.Slack() + |frames| <= host.ip.nodes.slots.Length
    ensures host.Roomy(frames)
  {
    forall i | 0 <= i < |frames|
      ensures |TableAfter(host.ip.ifIp, host.ip.Table(), frames[..i])| + host.ip.Slack() < host.ip.nodes.slots.Length
    {
      TableGrowth(host.ip.ifIp, host.ip.Table(), frames[..i]);
    }
  }

  // ----- The sender

  /** The addresses that do not expire before the run under study ends. */
  ghost function Lasting(arp: Arp): map<Ip, Mac>
    reads arp.table.slots, arp.clock
  {
    View(arp.table.slots[..], ARP_TIMEOUT_SEC, arp.clock.horizon)
  }

  lemma LastingIsLive(arp: Arp, ip: Ip)
    requires arp.Valid() && ip in Lasting(arp)
    ensures ip in arp.table.Live() && arp.table.Live()[ip] == Lasting(arp)[ip]
  {
    ViewShrinks(arp.table.slots[..], ARP_TIMEOUT_SEC, arp.clock.now, arp.clock.horizon);
  }

  /** The route of payload to dst, whose address is known to the end. */
  ghost function RouteTo(ip: IpSender, dst: Ip, protocol: byte, payload: Payload): Route
    requires dst in Lasting(ip.arp)
    reads ip, ip.arp.table.slots, ip.arp.clock
  {
    Route(Lasting(ip.arp)[dst], ip.arp.ifMac, ip.arp.ifIp, dst, protocol, ip.id, payload)
  }

  /** udp_send to such an address puts the frames of the route on the wire. */
  method SendDatagram(ip: IpSender, data: Chunk, srcPort: u16, dst: Ip, dstPort: u16) returns (wire: seq<seq<byte>>)
    requires ip.arp.Valid() && dst != LOOPBACK && dst in Lasting(ip.arp)
    modifies ip`id, ip.arp`log, ip.arp`tickets, ip.arp.clock, ip.arp.pending`size, ip.arp.pending.slots,
             ip.arp.txbuf, ip.arp.txbuf.payload, ip.arp.driver
    ensures ip.arp.Valid() && ip.arp.driver.sent == old(ip.arp.driver.sent) + wire
    ensures wire == old(RouteFrames(RouteTo(ip, dst, PROTOCOL_UDP,
                                            Datagram(ip.arp.ifIp, dst, srcPort, dstPort, data))))
  {
    ghost var r := RouteTo(ip, dst, PROTOCOL_UDP, Datagram(ip.arp.ifIp, dst, srcPort, dstPort, data));
    ghost var table := ip.arp.table.slots[..];
    var n := |ip.arp.driver.sent|;
    var fault := UdpSend(ip, data, srcPort, dst, dstPort);
    assert ip.arp.table.slots[..] == table;
    LastingIsLive(ip.arp, dst);
    wire := ip.arp.driver.sent[n..];
    assert wire == RouteFrames(r);
  }

  method Loaded(bytes: seq<byte>) returns (buf: Buf)
    requires |bytes| < BUF_MIDDLE
    ensures fresh(buf) && fresh(buf.payload) && buf.Anchored() && buf.Contents() == bytes
  {
    buf := new Buf();
    Fill(buf, bytes);
  }

  /** So does ip_out of a payload in a buffer of its own. */
  method SendPayload(ip: IpSender, payload: Payload, dst: Ip, protocol: byte) returns (wire: seq<seq<byte>>)
    requires ip.arp.Valid() && dst != LOOPBACK && dst in Lasting(ip.arp)
    modifies ip`id, ip.arp`log, ip.arp`tickets, ip.arp.clock, ip.arp.pending`size, ip.arp.pending.slots,
             ip.arp.txbuf, ip.arp.txbuf.payload, ip.arp.driver
    ensures ip.arp.Valid() && ip.arp.driver.sent == old(ip.arp.driver.sent) + wire
    ensures wire == old(RouteFrames(RouteTo(ip, dst, protocol, payload)))
  {
    ghost var r := RouteTo(ip, dst, protocol, payload);
    var n := |ip.arp.driver.sent|;
    var buf := Loaded(payload);
    ghost var table := ip.arp.table.slots[..];
    var fault := ip.IpOut(buf, dst, protocol);
    assert ip.arp.table.slots[..] == table;
    LastingIsLive(ip.arp, dst);
    wire := ip.arp.driver.sent[n..];
    assert wire == RouteFrames(r);
  }

  // ----- The two machines

  ghost function SenderParts(ip: IpSender): set<object> {
    {ip, ip.arp, ip.arp.clock, ip.arp.pending, ip.arp.pending.slots, ip.arp.txbuf, ip.arp.txbuf.payload, ip.arp.driver}
  }

  ghost function HostParts(host: Host): set<object>
    reads host.ip.nodes.slots, Footprint(host.ip.nodes.slots[..])
  {
    {host.ip, host.ip.nodes, host.ip.nodes.slots, host.ip.clock, host.udp.handlers, host.udp.handlers.slots,
     host.udp.handlers.clock} + Footprint(host.ip.nodes.slots[..])
  }

  /** The host is ready for a run of n frames that carries the route: nothing expires, there is a slot for each
      frame, and nothing with the route's key is under reassembly. */
  ghost predicate Ready(host: Host, r: Route, n: nat)
    reads host.ip, host.ip.nodes, host.ip.nodes.slots, host.ip.clock, Footprint(host.ip.nodes.slots[..]),
          host.udp.handlers, host.udp.handlers.slots, host.udp.handlers.clock
  {
    && host.Valid() && host.ip.ifIp == r.dst && host.ip.Steady()
    && ValidTable(host.ip.Table()) && RouteKey(r) !in host.ip.Table()
    && |host.ip.Table()| + host.ip.Slack() + n <= host.ip.nodes.slots.Length
  }

  /** The payload may set out from ip for dst on the route r, and the host there is ready for a run of n frames. */
  ghost predicate Linked(ip: IpSender, host: Host, payload: Payload, dst: Ip, protocol: byte, n: nat, r: Route)
    reads ip, ip.arp, ip.arp.clock, ip.arp.table, ip.arp.table.slots, ip.arp.pending, ip.arp.pending.slots
    reads ip.arp.txbuf, ip.arp.driver
    reads host.ip, host.ip.nodes, host.ip.nodes.slots, host.ip.clock, Footprint(host.ip.nodes.slots[..])
    reads host.udp.handlers, host.udp.handlers.slots, host.udp.handlers.clock
  {
    && ip.arp.Valid() && dst != LOOPBACK && dst in Lasting(ip.arp) && r == RouteTo(ip, dst, protocol, payload)
    && Ready(host, r, n) && SenderParts(ip) !! HostParts(host)
  }

  /** The receiver's half: the network brings the frames of a datagram's route to the host. */
  method DeliverDatagram(host: Host, wire: seq<seq<byte>>, data: Chunk, srcPort: u16, dstPort: u16,
                         run: seq<Tagged>, last: nat, ghost r: Route) returns (calls: seq<Option<UdpCall>>)
    requires Ready(host, r, |run| + 1) && CarriesAll(r, run, last) && wire == RouteFrames(r)
    requires Carries(r, srcPort, dstPort, data)
    modifies host.ip`mirror, host.ip.clock, host.ip.nodes`size, host.ip.nodes.slots, Footprint(host.ip.nodes.slots[..])
    ensures host.Valid() && |calls| == |run| + 1
    ensures forall i | 0 <= i < |run| && run[i].Own? :: calls[i] == None
    ensures calls[|run|] ==
            if |data| <= MAX_DATA && dstPort in old(host.udp.Ports())
            then Some(UdpCall(r.src, UdpMessage(srcPort, dstPort, data))) else None
  {
    CarriedIsOnWire(r, run, last);
    var frames := Carried(wire, run + [Own(last)]);
    RoomForAll(host, frames);
    calls := UdpEndToEnd(host, frames, r, srcPort, dstPort, data, run, last);
  }

  /** Both leave everything else as it was. */
  method SendDatagramApart(ip: IpSender, data: Chunk, srcPort: u16, dst: Ip, dstPort: u16, ghost others: set<object>)
    returns (wire: seq<seq<byte>>)
    requires ip.arp.Valid() && dst != LOOPBACK && dst in Lasting(ip.arp) && SenderParts(ip) !! others
    modifies ip`id, ip.arp`log, ip.arp`tickets, ip.arp.clock, ip.arp.pending`size, ip.arp.pending.slots,
             ip.arp.txbuf, ip.arp.txbuf.payload, ip.arp.driver
    ensures wire == old(RouteFrames(RouteTo(ip, dst, PROTOCOL_UDP,
                                            Datagram(ip.arp.ifIp, dst, srcPort, dstPort, data))))
    ensures unchanged(others)
  {
    wire := SendDatagram(ip, data, srcPort, dst, dstPort);
  }

  method SendPayloadApart(ip: IpSender, payload: Payload, dst: Ip, protocol: byte, ghost others: set<object>)
    returns (wire: seq<seq<byte>>)
    requires ip.arp.Valid() && dst != LOOPBACK && dst in Lasting(ip.arp) && SenderParts(ip) !! others
    modifies ip`id, ip.arp`log, ip.arp`tickets, ip.arp.clock, ip.arp.pending`size, ip.arp.pending.slots,
             ip.arp.txbuf, ip.arp.txbuf.payload, ip.arp.driver
    ensures wire == old(RouteFrames(RouteTo(ip, dst, protocol, payload)))
    ensures unchanged(others)
  {
    wire := SendPayload(ip, payload, dst, protocol);
  }

  /** The sender at work, the receiver is left as it was. */
  twostate lemma LeftAlone(host: Host)
    requires old(host.Valid()) && unchanged(old(HostParts(host)))
    ensures host.Valid() && host.ip.Table() == old(host.ip.Table()) && host.ip.Slack() == old(host.ip.Slack())
    ensures old(host.ip.Steady()) ==> host.ip.Steady()
    ensures host.udp.Ports() == old(host.udp.Ports()) && host.ip.nodes.slots[..] == old(host.ip.nodes.slots[..])
  {
    host.ip.Untouched();
    host.udp.ClockMoved();
  }

  /** udp_send to handler. */
  method UdpSendToHandler(ip: IpSender, host: Host, data: Chunk, srcPort: u16, dst: Ip, dstPort: u16,
                          run: seq<Tagged>, last: nat, ghost r: Route) returns (calls: seq<Option<UdpCall>>)
    requires Linked(ip, host, Datagram(ip.arp.ifIp, dst, srcPort, dstPort, data), dst, PROTOCOL_UDP, |run| + 1, r)
    requires CarriesAll(r, run, last)
    modifies ip`id, ip.arp`log, ip.arp`tickets, ip.arp.clock, ip.arp.pending`size, ip.arp.pending.slots,
             ip.arp.txbuf, ip.arp.txbuf.payload, ip.arp.driver
    modifies host.ip`mirror, host.ip.clock, host.ip.nodes`size, host.ip.nodes.slots, Footprint(host.ip.nodes.slots[..])
    ensures host.Valid() && |calls| == |run| + 1
    ensures forall i | 0 <= i < |run| && run[i].Own? :: calls[i] == None
    ensures calls[|run|] ==
            if |data| <= MAX_DATA && dstPort in old(host.udp.Ports())
            then Some(UdpCall(ip.arp.ifIp, UdpMessage(srcPort, dstPort, data))) else None
  {
    var wire := SendDatagramApart(ip, data, srcPort, dst, dstPort, HostParts(host));
    LeftAlone(host);
    calls := DeliverDatagram(host, wire, data, srcPort, dstPort, run, last, r);
  }

  /** The network brings the frames of any route to the host: nothing is passed up for them before the last missing
      one, and the payload at it. */
  method DeliverPayload(host: Host, wire: seq<seq<byte>>, run: seq<Tagged>, last: nat, ghost r: Route)
    returns (ups: seq<NetCall>)
    requires Ready(host, r, |run| + 1) && CarriesAll(r, run, last) && wire == RouteFrames(r)
    modifies host.ip`mirror, host.ip.clock, host.ip.nodes`size, host.ip.nodes.slots, Footprint(host.ip.nodes.slots[..])
    ensures host.Valid() && old(host.ip.clock.now) <= host.ip.clock.now && |ups| == |run| + 1
    ensures forall i | 0 <= i < |run| && run[i].Own? :: ups[i] == NoCall
    ensures ups[|run|] == PassedUp(r)
  {
    CarriedIsOnWire(r, run, last);
    var frames := Carried(wire, run + [Own(last)]);
    RoomForAll(host, frames);
    var calls;
    ups, calls := PayloadEndToEnd(host, frames, r, run, last);
  }

  method DeliverPayloadApart(host: Host, wire: seq<seq<byte>>, run: seq<Tagged>, last: nat, ghost r: Route,
                             ghost others: set<object>) returns (ups: seq<NetCall>)
    requires Ready(host, r, |run| + 1) && CarriesAll(r, run, last) && wire == RouteFrames(r)
    requires HostParts(host) !! others
    modifies host.ip`mirror, host.ip.clock, host.ip.nodes`size, host.ip.nodes.slots, Footprint(host.ip.nodes.slots[..])
    ensures host.ip.clock.Valid() && old(host.ip.clock.now) <= host.ip.clock.now && |ups| == |run| + 1
    ensures forall i | 0 <= i < |run| && run[i].Own? :: ups[i] == NoCall
    ensures ups[|run|] == PassedUp(r)
    ensures unchanged(others)
  {
    ups := DeliverPayload(host, wire, run, last, r);
  }

  /** ip_out to net_in, from one machine to the other, for any protocol: of its frames the network makes the last one
      missing last, and the payload is passed up at it; whatever belongs to neither machine stays as it is. */
  method IpSendToNet(ip: IpSender, host: Host, payload: Payload, dst: Ip, protocol: byte, run: seq<Tagged>, last: nat,
                     ghost r: Route, ghost others: set<object>) returns (up: NetCall)
    requires Linked(ip, host, payload, dst, protocol, |run| + 1, r) && CarriesAll(r, run, last)
    requires SenderParts(ip) !! others && HostParts(host) !! others
    modifies ip`id, ip.arp`log, ip.arp`tickets, ip.arp.clock, ip.arp.pending`size, ip.arp.pending.slots,
             ip.arp.txbuf, ip.arp.txbuf.payload, ip.arp.driver
    modifies host.ip`mirror, host.ip.clock, host.ip.nodes`size, host.ip.nodes.slots, Footprint(host.ip.nodes.slots[..])
    ensures host.ip.clock.Valid() && old(host.ip.clock.now) <= host.ip.clock.now
    ensures up == PassedUp(r) && unchanged(others)
  {
    var wire := SendPayloadApart(ip, payload, dst, protocol, HostParts(host) + others);
    LeftAlone(host);
    var ups := DeliverPayloadApart(host, wire, run, last, r, others);
    up := ups[|run|];
  }

  // ----- TCP

  /** The most data a segment can carry to the other end: with the 20-byte header it fills 16 bits. */
  const MAX_SEGMENT: nat := 0xFFFF - TCP_HDR_LEN

  /** The segment of o rebuilt at the receiver is the one sent iff it is at most 65535 bytes long with its header;
      beyond that fewer bytes than a header are left, and tcp_in drops them. */
  lemma SegmentArrives(r: Route, o: Outgoing)
    requires Encodes(r.payload, r.src, o) && o.dst == r.dst
    ensures var s := o.segment;
            ParseTcp(r.src, r.dst, Arrived(r.payload)) ==
            if |s.payload| <= MAX_SEGMENT
            then Some(TcpMessage(o.srcPort, o.dstPort, Incoming(s.seqNo, s.flags, |s.payload|, s.payload)))
            else None
  {
    ArrivedWhole(r.payload);
    var urgent: u16 :| r.payload == TcpBytes(r.src, o, urgent);
    if |o.segment.payload| <= MAX_SEGMENT {
      ParseOfTcpBytes(r.src, o, urgent);
    } else {
      assert |Arrived(r.payload)| < TCP_HDR_LEN;
    }
  }

  /** The objects of a TCP layer, but for the clock, which it shares with its host. */
  ghost function TcpParts(b: TcpLayer): set<object> {
    {b, b.conns, b.conns.slots, b.handlers, b.handlers.slots}
  }

  /** A layer as a received segment finds it and leaves it. */
  datatype Standing = Standing(conns: map<TcpKey, Conn>, full: bool, log: seq<Outgoing>)

  ghost function StandingOf(b: TcpLayer): Standing
    reads b, b.conns, b.conns.slots, b.conns.clock
  {
    Standing(b.Conns(), b.conns.size == b.conns.slots.Length, b.log)
  }

  /** What segment o, sent by src, makes of the layer that receives it: the connection's step, or nothing if the
      segment was too long, or at a fault. */
  ghost predicate Takes(src: Ip, o: Outgoing, open: bool, replies: seq<Chunk>, iss: u32, before: Standing,
                        after: Standing, handed: seq<byte>, fault: bool) {
    var key := TcpKey(src, o.srcPort, o.dstPort);
    var s := o.segment;
    var eff := Step(ConnAt(before.conns, key), Incoming(s.seqNo, s.flags, |s.payload|, s.payload), open, replies, iss);
    && fault == (|s.payload| <= MAX_SEGMENT && key !in before.conns && before.full && !s.flags.rst)
    && if |s.payload| > MAX_SEGMENT || fault then
         after.conns == before.conns && after.log == before.log && handed == []
       else
         && after.conns == After(before.conns, key, eff.conn, eff.closed)
         && after.log == before.log + Addressed(key, eff.sent) && handed == eff.handed
  }

  method TakeSegment(b: TcpLayer, up: NetCall, replies: seq<Chunk>, iss: u32, ghost r: Route, ghost o: Outgoing,
                     ghost before: Standing, ghost open: bool) returns (handed: seq<byte>, fault: bool)
    requires b.Valid() && b.ifIp == r.dst && up == PassedUp(r) && Encodes(r.payload, r.src, o) && o.dst == r.dst
    requires before == StandingOf(b) && open == b.Open(o.dstPort)
    modifies b`sent, b`log, b.conns`size, b.conns.slots, b.conns.clock
    ensures b.Valid() && Takes(r.src, o, open, replies, iss, before, StandingOf(b), handed, fault)
  {
    SegmentArrives(r, o);
    assert |up.payload| <= 0xFFFF;
    var buf := Loaded(up.payload);
    handed, fault := b.TcpIn(buf, up.src, replies, iss);
  }

  /** Packet i that a gave to ip_out may set out for b on the route r, and b's host is ready for a run of n frames. */
  ghost predicate Underway(a: TcpLayer, i: nat, ip: IpSender, host: Host, b: TcpLayer, n: nat, r: Route)
    reads a, a.conns, a.conns.slots, a.conns.clock, a.handlers, a.handlers.slots, a.handlers.clock
    reads b, b.conns, b.conns.slots, b.conns.clock, b.handlers, b.handlers.slots, b.handlers.clock
    reads ip, ip.arp, ip.arp.clock, ip.arp.table, ip.arp.table.slots, ip.arp.pending, ip.arp.pending.slots
    reads ip.arp.txbuf, ip.arp.driver
    reads host.ip, host.ip.nodes, host.ip.nodes.slots, host.ip.clock, Footprint(host.ip.nodes.slots[..])
    reads host.udp.handlers, host.udp.handlers.slots, host.udp.handlers.clock
  {
    && a.Valid() && i < |a.sent| && a.ifIp == ip.arp.ifIp && a != b
    && Linked(ip, host, a.sent[i].bytes, a.sent[i].dst, PROTOCOL_TCP, n, r)
    && b.Valid() && b.ifIp == r.dst && b.conns.clock == host.ip.clock
    && SenderParts(ip) !! TcpParts(b) && HostParts(host) !! TcpParts(b)
  }

  /** The segment on its way, b left alone meanwhile. */
  method SegmentAcross(a: TcpLayer, i: nat, ip: IpSender, host: Host, b: TcpLayer, run: seq<Tagged>, last: nat,
                       ghost r: Route, ghost before: Standing, ghost port: u16, ghost open: bool)
    returns (up: NetCall)
    requires Underway(a, i, ip, host, b, |run| + 1, r) && CarriesAll(r, run, last)
    requires open == b.Open(port) && before == StandingOf(b)
    modifies ip`id, ip.arp`log, ip.arp`tickets, ip.arp.clock, ip.arp.pending`size, ip.arp.pending.slots,
             ip.arp.txbuf, ip.arp.txbuf.payload, ip.arp.driver
    modifies host.ip`mirror, host.ip.clock, host.ip.nodes`size, host.ip.nodes.slots, Footprint(host.ip.nodes.slots[..])
    ensures up == PassedUp(r) && b.Valid() && open == b.Open(port) && before == StandingOf(b)
  {
    up := IpSendToNet(ip, host, a.sent[i].bytes, a.sent[i].dst, PROTOCOL_TCP, run, last, r, TcpParts(b));
    b.ClockMoved();
  }

  /** A segment from one layer to the other: packet i that a gave to ip_out goes through ip_out, the network and the
      reassembly of b's host, and b, in whatever state it is by then, takes the step that a's segment calls for; it
      does nothing if the segment was longer than 16 bits can say. */
  method SegmentToPeer(a: TcpLayer, i: nat, ip: IpSender, host: Host, b: TcpLayer, run: seq<Tagged>, last: nat,
                       replies: seq<Chunk>, iss: u32, ghost r: Route, ghost o: Outgoing, ghost open: bool,
                       ghost before: Standing) returns (handed: seq<byte>, fault: bool)
    requires Underway(a, i, ip, host, b, |run| + 1, r) && CarriesAll(r, run, last)
    requires o == a.log[i] && open == b.Open(o.dstPort) && before == StandingOf(b)
    modifies ip`id, ip.arp`log, ip.arp`tickets, ip.arp.clock, ip.arp.pending`size, ip.arp.pending.slots,
             ip.arp.txbuf, ip.arp.txbuf.payload, ip.arp.driver
    modifies host.ip`mirror, host.ip.clock, host.ip.nodes`size, host.ip.nodes.slots, Footprint(host.ip.nodes.slots[..])
    modifies b`sent, b`log, b.conns`size, b.conns.slots
    ensures b.Valid() && Takes(a.ifIp, o, open, replies, iss, before, StandingOf(b), handed, fault)
  {
    assert Encodes(a.sent[i].bytes, a.ifIp, o) && o.dst == r.dst;
    var up := SegmentAcross(a, i, ip, host, b, run, last, r, before, o.dstPort, open);
    handed, fault := TakeSegment(b, up, replies, iss, r, o, before, open);
  }

  /** Two ends in step stay so: where the receiver awaits the sender's next number, tcp_send's segment has its data
      handed over, and the receiver awaits the sender's next number again. */
  lemma StaysInStep(c: Conn, d: Conn, data: Chunk, replies: seq<Chunk>, iss: u32)
    requires d.state == Established && d.ackNo == c.seqNo && data != []
    ensures var (after, sent) := Send(c, data);
            && |sent| == 1
            && var s := sent[0];
               var eff := Step(d, Incoming(s.seqNo, s.flags, |s.payload|, s.payload), true, replies, iss);
               && eff.handed == data && !eff.closed
               && eff.conn.state == Established && eff.conn.ackNo == after.seqNo
  {
    var sent := Send(c, data).1;
    var m := Incoming(sent[0].seqNo, sent[0].flags, |data|, data);
    match Judge(d, m, iss)
    case Go(d1, flags, close) => AnswerKeeps(d1, flags, close, m, true, replies);
    case _ =>
  }
}
