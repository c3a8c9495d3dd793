/** A receiving host put together from its layers, and the theorem that ties ip_out and udp_send at one
    end to the call at the other, whatever the network does to the order of the frames. */
module EndToEnd {
  import opened Bytes
  import opened Buffers
  import opened TimedMaps
  import opened Ethernet
  import opened IpPackets
  import opened Reassembly
  import opened Fragmentation
  import opened IpInput
  import opened IpOutput
  import opened Udp

  /** One call of a registered handler. */
  datatype UdpCall = UdpCall(src: Ip, message: UdpMessage)

  /** What comes of ip_in's call of net_in: here only UDP is registered above IP. */
  function HandlerCall(ifIp: Ip, ports: set<u16>, call: NetCall): Option<UdpCall> {
    if call.NoCall? || call.protocol != PROTOCOL_UDP then None
    else
      match UdpOutcome(call.src, ifIp, ports, call.payload)
      case Handled(_, m) => Some(UdpCall(call.src, m))
      case _ => None
  }

  /** A handler is called only for UDP, with a right checksum and for a port of its own. */
  lemma HandlerIsCalledIff(ifIp: Ip, ports: set<u16>, call: NetCall)
    ensures HandlerCall(ifIp, ports, call).Some? <==>
            && call.Call? && call.protocol == 17
            && ParseUdp(call.src, ifIp, call.payload).Some?
            && ParseUdp(call.src, ifIp, call.payload).value.dstPort in ports
    ensures HandlerCall(ifIp, ports, call).Some? ==>
              HandlerCall(ifIp, ports, call).value == UdpCall(call.src, ParseUdp(call.src, ifIp, call.payload).value)
  {
  }

  /** A received frame at a host with reassembly table table: the table after it, and what is passed up. */
  function IpStep(ifIp: Ip, table: map<Key, Node>, frame: seq<byte>): (r: (map<Key, Node>, NetCall))
    requires ValidTable(table)
    ensures ValidTable(r.0)
  {
    var up := Unframe(frame);
    if up.Dropped? || up.protocol != PROTOCOL_IP then (table, NoCall)
    else
      var p := Parse(ifIp, up.packet);
      if p.Rejected? then (table, NoCall)
      else if IsFragment(p) then
        var (after, d) := TableStep(table, Arrival(KeyOf(p), FragmentOf(p)));
        (after, if d.Some? then Call(p.protocol, p.src, d.value) else NoCall)
      else (table, Call(p.protocol, p.src, p.payload))
  }

  /** Frames too short for a header, and those of other protocols, come to nothing here. */
  lemma OtherFramesAreIgnored(ifIp: Ip, table: map<Key, Node>, frame: seq<byte>)
    requires ValidTable(table)
    requires |frame| < 14 || 0x100 * frame[12] as int + frame[13] as int != 0x0800
    ensures IpStep(ifIp, table, frame) == (table, NoCall)
  {
  }

  function TableAfter(ifIp: Ip, table: map<Key, Node>, frames: seq<seq<byte>>): (r: map<Key, Node>)
    requires ValidTable(table)
    ensures ValidTable(r)
  {
    if |frames| == 0 then table
    else IpStep(ifIp, TableAfter(ifIp, table, frames[..|frames| - 1]), frames[|frames| - 1]).0
  }

  /** What the i-th of the frames leads ip_in to pass up. */
  function CallAt(ifIp: Ip, table: map<Key, Node>, frames: seq<seq<byte>>, i: nat): NetCall
    requires ValidTable(table) && i < |frames|
  {
    IpStep(ifIp, TableAfter(ifIp, table, frames[..i]), frames[i]).1
  }

  /** up is what the frame by itself leads to, or what its fragment completes, together with those the table
      holds for it or alone; never anything else. */
  ghost predicate Explained(ifIp: Ip, table: map<Key, Node>, frame: seq<byte>, up: NetCall) {
    up.Call? ==>
      var eth := Unframe(frame);
      eth.Upcall? && eth.protocol == PROTOCOL_IP && Taken(Parse(ifIp, eth.packet), table, up)
  }

  class Host {
    const ip: IpReceiver
    const udp: UdpReceiver

    constructor (source: Clock, address: Ip, nodes: nat, ports: nat)
      requires source.Valid()
      ensures Valid() && ip.ifIp == address && ip.Table() == map[] && udp.Ports() == {}
      ensures ip.clock == source && ip.nodes.size == 0 && ip.nodes.slots.Length == nodes
      ensures udp.handlers.size == 0 && udp.handlers.slots.Length == ports
      ensures fresh(ip) && fresh(ip.nodes) && fresh(ip.nodes.slots) && Footprint(ip.nodes.slots[..]) == {}
      ensures fresh(udp.handlers) && fresh(udp.handlers.slots)
    {
      ip := new IpReceiver(source, address, nodes);
      udp := new UdpReceiver(source, address, ports);
    }

    ghost predicate Valid()
      reads ip, ip.nodes, ip.nodes.slots, ip.clock, Footprint(ip.nodes.slots[..]),
            udp.handlers, udp.handlers.slots, udp.handlers.clock
    {
      && ip.Valid() && udp.Valid() && ip.clock == udp.handlers.clock && ip.ifIp == udp.ifIp
    }

    /** ethernet_in through net_in, ip_in and udp_in: up is what ip_in passes up, call the handler's call it leads
        to.  With no expiry in sight and room for one more node it is exactly one step; in any case only what the
        frame carries or completes is passed up. */
    method Receive(buf: Buf) returns (up: NetCall, call: Option<UdpCall>)
      requires Valid() && buf.Valid()
      modifies ip`mirror, ip.clock, ip.nodes`size, ip.nodes.slots, Footprint(ip.nodes.slots[..]), buf, buf.payload
      ensures Valid() && udp.Ports() == old(udp.Ports()) && ip.NoForeignNodes()
      ensures old(ip.clock.now) <= ip.clock.now
      ensures call == HandlerCall(ip.ifIp, old(udp.Ports()), up)
      ensures Explained(ip.ifIp, old(ip.Table()), old(buf.Contents()), up)
      ensures old(ip.Steady()) ==> ip.Steady() && ip.Slack() == old(ip.Slack())
      ensures old(ip.Steady()) && old(ip.nodes.size) < ip.nodes.slots.Length ==>
                ip.Steady() && ValidTable(old(ip.Table())) &&
                (ip.Table(), up) == IpStep(ip.ifIp, old(ip.Table()), old(buf.Contents()))
    {
      ip.TableValid();
      label arrived:
      ip.NotABuffer(ip.nodes.slots[..], buf);
      var eth := EthernetIn(buf);
      ip.Untouched@arrived();
      if eth.Dropped? || eth.protocol != PROTOCOL_IP {
        return NoCall, None;
      }
      up, call := PassIn(buf);
    }

    /** ip_in and what it calls. */
    method PassIn(buf: Buf) returns (up: NetCall, call: Option<UdpCall>)
      requires Valid() && buf.Valid() && ETHER_HDR_LEN <= buf.data
      modifies ip`mirror, ip.clock, ip.nodes`size, ip.nodes.slots, Footprint(ip.nodes.slots[..]), buf, buf.payload
      ensures Valid() && udp.Ports() == old(udp.Ports()) && ip.NoForeignNodes()
      ensures old(ip.clock.now) <= ip.clock.now
      ensures old(ip.Steady()) ==> ip.Steady() && ip.Slack() == old(ip.Slack())
      ensures call == HandlerCall(ip.ifIp, old(udp.Ports()), up)
      ensures Taken(Parse(ip.ifIp, old(buf.Contents())), old(ip.Table()), up)
      ensures old(ip.Steady()) && old(ip.nodes.size) < ip.nodes.slots.Length ==>
                TakenExactly(Parse(ip.ifIp, old(buf.Contents())), old(ip.Table()), ip.Table(), up)
    {
      var out;
      up, out := TakeIn(buf);
      if out == null || up.protocol != PROTOCOL_UDP {
        return up, None;
      }
      call := PassUp(out, up.src);
    }

    /** ip_in up to the call of net_in. */
    method TakeIn(buf: Buf) returns (up: NetCall, out: Buf?)
      requires Valid() && buf.Valid() && ETHER_HDR_LEN <= buf.data
      modifies ip`mirror, ip.clock, ip.nodes`size, ip.nodes.slots, Footprint(ip.nodes.slots[..]), buf, buf.payload
      ensures Valid() && udp.Ports() == old(udp.Ports()) && ip.NoForeignNodes()
      ensures old(ip.clock.now) <= ip.clock.now
      ensures old(ip.Steady()) ==> ip.Steady() && ip.Slack() == old(ip.Slack())
      ensures up.Call? <==> out != null
      ensures out != null ==>
                (out == buf || (fresh(out) && fresh(out.payload))) && out.Valid() && out.Contents() == up.payload
      ensures out != null ==> PSEUDO_HDR_LEN <= out.data && out.len <= 0xFFFF
      ensures Taken(Parse(ip.ifIp, old(buf.Contents())), old(ip.Table()), up)
      ensures old(ip.Steady()) && old(ip.nodes.size) < ip.nodes.slots.Length ==>
                TakenExactly(Parse(ip.ifIp, old(buf.Contents())), old(ip.Table()), ip.Table(), up)
    {
      NotHandlers(ip.nodes.slots[..]);
      up, out := ip.IpIn(buf);
      udp.ClockMoved();
    }

    lemma NotHandlers(s: seq<NodeSlot>)
      ensures udp.handlers !in Footprint(s) && udp.handlers.slots !in Footprint(s)
    {
    }

    /** net_in of the datagram in buf to udp_in. */
    method PassUp(buf: Buf, src: Ip) returns (call: Option<UdpCall>)
      requires Valid() && buf.Valid() && PSEUDO_HDR_LEN <= buf.data && buf.len <= 0xFFFF
      modifies ip.clock, buf, buf.payload
      ensures Valid() && udp.Ports() == old(udp.Ports()) && old(ip.clock.now) <= ip.clock.now
      ensures call == HandlerCall(ip.ifIp, old(udp.Ports()), Call(PROTOCOL_UDP, src, old(buf.Contents())))
      ensures old(ip.Steady()) ==> ip.Steady() && ip.Table() == old(ip.Table())
    {
      label given:
      ip.NotABuffer(ip.nodes.slots[..], buf);
      ip.NotANode(ip.nodes.slots[..]);
      var result := udp.UdpIn(buf, src);
      ip.Untouched@given();
      return if result.Handled? then Some(UdpCall(src, result.message)) else None;
    }

    /** There is room for one more node whenever a frame arrives. */
    ghost predicate Roomy(frames: seq<seq<byte>>)
      requires ValidTable(ip.Table())
      reads ip, ip.nodes, ip.clock
    {
      forall i | 0 <= i < |frames| ::
        |TableAfter(ip.ifIp, ip.Table(), frames[..i])| + ip.Slack() < ip.nodes.slots.Length
    }

    /** Every frame the network delivers, one after the other: the table, what is passed up and the calls are those
        of the runs studied below. */
    method ReceiveAll(frames: seq<seq<byte>>) returns (ups: seq<NetCall>, calls: seq<Option<UdpCall>>)
      requires Valid() && ip.Steady() && ValidTable(ip.Table()) && Roomy(frames)
      requires forall i | 0 <= i < |frames| :: |frames[i]| < BUF_MIDDLE
      modifies ip`mirror, ip.clock, ip.nodes`size, ip.nodes.slots, Footprint(ip.nodes.slots[..])
      ensures Valid() && ip.Steady() && ip.NoForeignNodes() && udp.Ports() == old(udp.Ports())
      ensures ip.Table() == TableAfter(ip.ifIp, old(ip.Table()), frames) && old(ip.clock.now) <= ip.clock.now
      ensures |ups| == |calls| == |frames|
      ensures forall i | 0 <= i < |frames| ::
                ups[i] == CallAt(ip.ifIp, old(ip.Table()), frames, i) &&
                calls[i] == HandlerCall(ip.ifIp, old(udp.Ports()), ups[i])
    {
      ghost var table, slack, ports := ip.Table(), ip.Slack(), udp.Ports();
      ups, calls := [], [];
      var i := 0;
      while i < |frames|
        invariant i <= |frames| && ip.NoForeignNodes() && Received(table, slack, ports, frames[..i], ups, calls)
        invariant old(ip.clock.now) <= ip.clock.now
      {
        i, ups, calls := ReceiveNext(frames, i, ups, calls, table, slack, ports);
      }
      assert frames[..i] == frames;
    }

    /** What frames have made of the host and led to. */
    ghost predicate Received(table: map<Key, Node>, slack: int, ports: set<u16>, frames: seq<seq<byte>>,
                             ups: seq<NetCall>, calls: seq<Option<UdpCall>>)
      requires ValidTable(table)
      reads ip, ip.nodes, ip.nodes.slots, ip.clock, Footprint(ip.nodes.slots[..]),
            udp.handlers, udp.handlers.slots, udp.handlers.clock
    {
      && Valid() && ip.Steady() && udp.Ports() == ports && ip.Slack() == slack
      && ip.Table() == TableAfter(ip.ifIp, table, frames)
      && |ups| == |calls| == |frames|
      && forall k | 0 <= k < |frames| ::
           ups[k] == CallAt(ip.ifIp, table, frames, k) && calls[k] == HandlerCall(ip.ifIp, ports, ups[k])
    }

    method ReceiveNext(frames: seq<seq<byte>>, i: nat, ups: seq<NetCall>, calls: seq<Option<UdpCall>>,
                       ghost table: map<Key, Node>, ghost slack: int, ghost ports: set<u16>)
      returns (next: nat, moreUps: seq<NetCall>, more: seq<Option<UdpCall>>)
      requires ValidTable(table) && i < |frames| && |frames[i]| < BUF_MIDDLE
      requires Received(table, slack, ports, frames[..i], ups, calls)
      requires |TableAfter(ip.ifIp, table, frames[..i])| + slack < ip.nodes.slots.Length
      modifies ip`mirror, ip.clock, ip.nodes`size, ip.nodes.slots, Footprint(ip.nodes.slots[..])
      ensures next == i + 1 && Received(table, slack, ports, frames[..next], moreUps, more) && ip.NoForeignNodes()
      ensures old(ip.clock.now) <= ip.clock.now
    {
      OneMoreFrame(ip.ifIp, table, frames, i);
      var up, call := ReceiveFrame(frames[i]);
      moreUps, more, next := ups + [up], calls + [call], i + 1;
      forall k | 0 <= k < next
        ensures moreUps[k] == CallAt(ip.ifIp, table, frames[..next], k)
        ensures more[k] == HandlerCall(ip.ifIp, ports, moreUps[k])
      {
        CallsStay(ip.ifIp, table, frames, i, k);
      }
    }

    /** One frame in a buffer of its own. */
    method ReceiveFrame(frame: seq<byte>) returns (up: NetCall, call: Option<UdpCall>)
      requires Valid() && ip.Steady() && ValidTable(ip.Table()) && |frame| < BUF_MIDDLE
      requires |ip.Table()| + ip.Slack() < ip.nodes.slots.Length
      modifies ip`mirror, ip.clock, ip.nodes`size, ip.nodes.slots, Footprint(ip.nodes.slots[..])
      ensures Valid() && ip.Steady() && ip.NoForeignNodes() && udp.Ports() == old(udp.Ports())
      ensures ip.Slack() == old(ip.Slack()) && old(ip.clock.now) <= ip.clock.now
      ensures (ip.Table(), up) == IpStep(ip.ifIp, old(ip.Table()), frame)
      ensures call == HandlerCall(ip.ifIp, old(udp.Ports()), up)
    {
      var buf := new Buf();
      Fill(buf, frame);
      ip.Untouched();
      udp.ClockMoved();
      up, call := Receive(buf);
    }
  }

  lemma CallsStay(ifIp: Ip, table: map<Key, Node>, frames: seq<seq<byte>>, i: nat, k: nat)
    requires ValidTable(table) && k <= i < |frames|
    ensures CallAt(ifIp, table, frames[..i + 1], k) == CallAt(ifIp, table, frames, k)
    ensures k < i ==> CallAt(ifIp, table, frames[..i], k) == CallAt(ifIp, table, frames, k)
  {
    assert frames[..i + 1][..k] == frames[..k];
    assert k < i ==> frames[..i][..k] == frames[..k];
  }

  lemma {:induction false} OneMoreFrame(ifIp: Ip, table: map<Key, Node>, frames: seq<seq<byte>>, i: nat)
    requires ValidTable(table) && i < |frames|
    ensures TableAfter(ifIp, table, frames[..i + 1]) == IpStep(ifIp, TableAfter(ifIp, table, frames[..i]), frames[i]).0
  {
    assert frames[..i + 1][..i] == frames[..i];
  }

  // ----- The theorem for ip_out

  /** One payload on its way from src to dst, inside packets numbered id and frames for hardware address mac. */
  datatype Route = Route(mac: Mac, ifMac: Mac, src: Ip, dst: Ip, protocol: byte, id: int, payload: Payload)

  function RouteKey(r: Route): Key { Key(r.src, r.dst, ToU16(r.id)) }

  /** The frames ip_out puts on the wire for it. */
  function RouteFrames(r: Route): (s: seq<seq<byte>>)
    ensures |s| == PieceCount(|r.payload|)
  {
    Frames(r.mac, r.ifMac, Packets(r.src, r.dst, r.protocol, r.id, r.payload, PieceCount(|r.payload|)))
  }

  /** What the receiving host makes of piece j's frame, header by header. */
  lemma FrameOfPiece(r: Route, j: nat)
    requires j < PieceCount(|r.payload|)
    ensures var f := RouteFrames(r)[j];
            && Unframe(f).Upcall? && Unframe(f).protocol == PROTOCOL_IP
            && Parse(r.dst, Unframe(f).packet) ==
                 Accepted(r.protocol, r.src, r.dst, ToU16(r.id), j + 1 < PieceCount(|r.payload|), j * MAX_LOAD,
                          Piece(r.payload, j))
  {
    var n := PieceCount(|r.payload|);
    var packets := Packets(r.src, r.dst, r.protocol, r.id, r.payload, n);
    FramesIndex(r.mac, r.ifMac, packets, j);
    PacketsIndex(r.src, r.dst, r.protocol, r.id, r.payload, n, j);
    PieceBounds(|r.payload|, j);
    UnframeOfFrame(r.mac, r.ifMac, PROTOCOL_IP, packets[j]);
    ParseOfPacket(r.src, r.dst, r.protocol, r.id, j * LOAD_UNITS, j + 1 < n, Piece(r.payload, j), Padded(packets[j]));
  }

  /** What is passed up for the rebuilt payload. */
  function PassedUp(r: Route): NetCall { Call(r.protocol, r.src, Arrived(r.payload)) }

  /** A frame of the route: the node at its key follows the set of pieces seen, and the payload is passed up
      when, and only when, that set fills up. */
  lemma OwnFrame(r: Route, table: map<Key, Node>, got: set<nat>, j: nat)
    requires j < PieceCount(|r.payload|)
    requires ValidTable(table) && NodeAt(table, RouteKey(r)) == NodeOf(r.payload, got)
    requires got <= All(r.payload) && got != All(r.payload)
    ensures var (after, call) := IpStep(r.dst, table, RouteFrames(r)[j]);
            var (seen, d) := Collect(r.payload, got, j);
            && NodeAt(after, RouteKey(r)) == NodeOf(r.payload, seen)
            && call == (if d.Some? then PassedUp(r) else NoCall)
            && seen <= All(r.payload) && seen != All(r.payload)
            && (PieceCount(|r.payload|) > 1 ==> (RouteKey(r) in after <==> d.None?))
            && (PieceCount(|r.payload|) == 1 ==> after == table)
  {
    FrameOfPiece(r, j);
    PieceBounds(|r.payload|, j);
    if PieceCount(|r.payload|) > 1 {
      StepOfFragment(r, table, j);
      OwnFragment(r, table, got, j);
    } else {
      SinglePiece(r.payload, got);
    }
  }

  /** The frame of a piece among others is a fragment for the route's key. */
  lemma StepOfFragment(r: Route, table: map<Key, Node>, j: nat)
    requires j < PieceCount(|r.payload|) && PieceCount(|r.payload|) > 1 && ValidTable(table)
    ensures var (after, d) := TableStep(table, Arrival(RouteKey(r), PieceFragment(r.payload, j)));
            IpStep(r.dst, table, RouteFrames(r)[j]) ==
            (after, if d.Some? then Call(r.protocol, r.src, d.value) else NoCall)
  {
    FrameOfPiece(r, j);
    PieceBounds(|r.payload|, j);
  }

  lemma OwnFragment(r: Route, table: map<Key, Node>, got: set<nat>, j: nat)
    requires j < PieceCount(|r.payload|) && ValidTable(table) && got <= All(r.payload) && got != All(r.payload)
    requires NodeAt(table, RouteKey(r)) == NodeOf(r.payload, got)
    ensures var (after, out) := TableStep(table, Arrival(RouteKey(r), PieceFragment(r.payload, j)));
            var (seen, d) := Collect(r.payload, got, j);
            && NodeAt(after, RouteKey(r)) == NodeOf(r.payload, seen) && out == d
            && (d.Some? ==> d.value == Arrived(r.payload))
            && seen <= All(r.payload) && seen != All(r.payload) && (RouteKey(r) in after <==> d.None?)
  {
    ReceiveIsCollect(r.payload, got, j);
    StepAtKey(table, Arrival(RouteKey(r), PieceFragment(r.payload, j)), RouteKey(r));
  }

  /** With one piece only, nothing is ever waited for. */
  lemma SinglePiece(p: Payload, got: set<nat>)
    requires PieceCount(|p|) == 1
    requires got <= All(p) && got != All(p)
    ensures got == {} && Collect(p, got, 0) == ({}, Some(Arrived(p))) && Piece(p, 0) == Arrived(p) == p
  {
    assert 0 !in got;
    assert got + {0} == All(p);
    PieceBounds(|p|, 0);
    ArrivedWhole(p);
  }

  /** Any other frame leaves the route's node alone. */
  ghost predicate ForeignTo(r: Route, frame: seq<byte>) {
    var up := Unframe(frame);
    up.Upcall? ==> var p := Parse(r.dst, up.packet); IsFragment(p) ==> KeyOf(p) != RouteKey(r)
  }

  lemma ForeignFrame(r: Route, table: map<Key, Node>, frame: seq<byte>)
    requires ValidTable(table) && ForeignTo(r, frame)
    ensures NodeAt(IpStep(r.dst, table, frame).0, RouteKey(r)) == NodeAt(table, RouteKey(r))
    ensures RouteKey(r) in IpStep(r.dst, table, frame).0 <==> RouteKey(r) in table
  {
  }

  /** What the network delivers: pieces of the route, in any order and number, and anything else in between. */
  datatype Tagged = Own(piece: nat) | Foreign(frame: seq<byte>)

  ghost predicate Traffic(r: Route, run: seq<Tagged>) {
    forall i | 0 <= i < |run| ::
      match run[i]
      case Own(j) => j < PieceCount(|r.payload|)
      case Foreign(f) => ForeignTo(r, f)
  }

  ghost function OnWire(r: Route, run: seq<Tagged>): (frames: seq<seq<byte>>)
    requires Traffic(r, run)
    ensures |frames| == |run|
  {
    seq(|run|, i requires 0 <= i < |run| => match run[i] case Own(j) => RouteFrames(r)[j] case Foreign(f) => f)
  }

  function OwnPieces(run: seq<Tagged>): seq<nat> {
    if |run| == 0 then []
    else OwnPieces(run[..|run| - 1]) + match run[|run| - 1] { case Own(j) => [j] case Foreign(_) => [] }
  }

  /** The pieces of the route collected since its last delivery. */
  ghost function Got(r: Route, run: seq<Tagged>): set<nat> { RunCollect(r.payload, {}, OwnPieces(run)).0 }

  lemma {:induction false} CollectSnoc(p: Payload, pieces: seq<nat>, j: nat)
    ensures var (got, out) := RunCollect(p, {}, pieces);
            var (seen, d) := Collect(p, got, j);
            RunCollect(p, {}, pieces + [j]) == (seen, Append(out, d))
  {
    assert (pieces + [j])[..|pieces|] == pieces;
  }

  lemma {:induction false} GotSnoc(r: Route, run: seq<Tagged>)
    requires |run| > 0
    ensures var (got, e) := (Got(r, run[..|run| - 1]), run[|run| - 1]);
            Got(r, run) == if e.Own? then Collect(r.payload, got, e.piece).0 else got
  {
    var pieces := OwnPieces(run[..|run| - 1]);
    match run[|run| - 1]
    case Own(j) => CollectSnoc(r.payload, pieces, j);
    case Foreign(_) => assert OwnPieces(run) == pieces;
  }

  lemma {:induction false} WireOfPrefix(r: Route, run: seq<Tagged>, n: nat)
    requires Traffic(r, run) && n <= |run|
    ensures OnWire(r, run)[..n] == OnWire(r, run[..n])
  {
  }

  /** The node at the route's key is that of the pieces collected. */
  ghost predicate Follows(r: Route, table: map<Key, Node>, run: seq<Tagged>)
    requires ValidTable(table)
  {
    && NodeAt(table, RouteKey(r)) == NodeOf(r.payload, Got(r, run))
    && Got(r, run) <= All(r.payload) && Got(r, run) != All(r.payload)
    && (RouteKey(r) in table <==> Got(r, run) != {})
  }

  lemma FollowsNext(r: Route, before: map<Key, Node>, run: seq<Tagged>)
    requires |run| > 0 && ValidTable(before) && Traffic(r, run) && Follows(r, before, run[..|run| - 1])
    ensures Follows(r, IpStep(r.dst, before, OnWire(r, run)[|run| - 1]).0, run)
  {
    var m := |run| - 1;
    GotSnoc(r, run);
    match run[m]
    case Own(j) =>
      OwnFrame(r, before, Got(r, run[..m]), j);
      OnePieceOnly(r.payload, Got(r, run[..m]), j);
    case Foreign(f) => ForeignFrame(r, before, f);
  }

  /** Of a payload of one piece nothing is ever kept; of others, what has been collected since is never nothing. */
  lemma OnePieceOnly(p: Payload, got: set<nat>, j: nat)
    requires j < PieceCount(|p|) && got <= All(p) && got != All(p)
    ensures PieceCount(|p|) == 1 ==> got == {} && Collect(p, got, j).0 == {}
    ensures Collect(p, got, j).1.None? ==> Collect(p, got, j).0 != {}
    ensures Collect(p, got, j).1.Some? ==> Collect(p, got, j).0 == {}
  {
    if PieceCount(|p|) == 1 {
      SinglePiece(p, got);
    }
    assert j in got + {j};
  }

  /** Over any traffic, the node at the route's key follows the route's pieces alone. */
  lemma {:induction false} HostFollowsPieces(r: Route, table: map<Key, Node>, run: seq<Tagged>)
    requires ValidTable(table) && RouteKey(r) !in table && Traffic(r, run)
    ensures NodeAt(TableAfter(r.dst, table, OnWire(r, run)), RouteKey(r)) == NodeOf(r.payload, Got(r, run))
    ensures Got(r, run) <= All(r.payload) && Got(r, run) != All(r.payload)
    ensures RouteKey(r) in TableAfter(r.dst, table, OnWire(r, run)) <==> Got(r, run) != {}
  {
    if |run| == 0 {
      EmptyNodeOf(r.payload);
      assert 0 in All(r.payload);
    } else {
      var m := |run| - 1;
      HostFollowsPieces(r, table, run[..m]);
      WireOfPrefix(r, run, m);
      FollowsNext(r, TableAfter(r.dst, table, OnWire(r, run[..m])), run);
    }
  }

  /** In any run, a frame of the route has the payload passed up iff it brings the last piece then missing. */
  lemma OwnCall(r: Route, table: map<Key, Node>, run: seq<Tagged>, i: nat)
    requires ValidTable(table) && RouteKey(r) !in table && Traffic(r, run)
    requires i < |run| && run[i].Own?
    ensures CallAt(r.dst, table, OnWire(r, run), i) ==
            if Collect(r.payload, Got(r, run[..i]), run[i].piece).1.Some? then PassedUp(r) else NoCall
  {
    HostFollowsPieces(r, table, run[..i]);
    assert OnWire(r, run)[..i] == OnWire(r, run[..i]);
    OwnFrame(r, TableAfter(r.dst, table, OnWire(r, run[..i])), Got(r, run[..i]), run[i].piece);
  }

  lemma {:induction false} OwnPiecesBefore(run: seq<Tagged>, i: nat)
    requires i < |run| && run[i].Own?
    ensures Seen(OwnPieces(run[..i])) + {run[i].piece} <= Seen(OwnPieces(run))
  {
    var m := |run| - 1;
    var pieces, before := OwnPieces(run), OwnPieces(run[..m]);
    if run[m].Own? {
      SeenOne(pieces);
      assert pieces[..|pieces| - 1] == before;
    } else {
      assert pieces == before;
    }
    if i < m {
      OwnPiecesBefore(run[..m], i);
      assert run[..m][..i] == run[..i];
    }
  }

  /** ip_out to net_in.  The frames of a payload reach the host in any order, with any of them repeated and anything
      foreign in between.  Until the last missing one arrives nothing is passed up for them; at its arrival the
      payload is, from its sender and for its protocol, whole iff it is at most 65535 bytes long, and nothing of it
      stays behind. */
  lemma {:induction false} IpEndToEnd(r: Route, table: map<Key, Node>, run: seq<Tagged>, last: nat)
    requires ValidTable(table) && RouteKey(r) !in table && Traffic(r, run)
    requires Seen(OwnPieces(run)) < All(r.payload) && Seen(OwnPieces(run)) + {last} == All(r.payload)
    ensures Traffic(r, run + [Own(last)])
    ensures forall i | 0 <= i < |run| && run[i].Own? :: CallAt(r.dst, table, OnWire(r, run + [Own(last)]), i) == NoCall
    ensures CallAt(r.dst, table, OnWire(r, run + [Own(last)]), |run|) == PassedUp(r)
    ensures RouteKey(r) !in TableAfter(r.dst, table, OnWire(r, run + [Own(last)]))
    ensures Arrived(r.payload) == r.payload <==> |r.payload| <= 0xFFFF
  {
    assert last in All(r.payload);
    ArrivedWhole(r.payload);
    var all := run + [Own(last)];
    forall i | 0 <= i < |run| && run[i].Own?
      ensures CallAt(r.dst, table, OnWire(r, all), i) == NoCall
    {
      CallBefore(r, table, run, all, i);
    }
    assert all[..|run|] == run;
    BeforeTheLastPiece(r.payload, OwnPieces(run));
    OwnCall(r, table, all, |run|);
    GotSnoc(r, all);
    HostFollowsPieces(r, table, all);
  }

  lemma {:induction false} CallBefore(r: Route, table: map<Key, Node>, run: seq<Tagged>, all: seq<Tagged>, i: nat)
    requires ValidTable(table) && RouteKey(r) !in table && Traffic(r, all)
    requires run <= all && i < |run| && run[i].Own? && Seen(OwnPieces(run)) < All(r.payload)
    ensures CallAt(r.dst, table, OnWire(r, all), i) == NoCall
  {
    assert all[..i] == run[..i];
    OwnPiecesBefore(run, i);
    BeforeTheLastPiece(r.payload, OwnPieces(run[..i]));
    OwnCall(r, table, all, i);
  }

  // ----- Payloads interleaved

  /** Frames of any other payload for the host, from another sender or under another number, are foreign. */
  lemma OtherRouteIsForeign(r: Route, q: Route, j: nat)
    requires q.dst == r.dst && j < PieceCount(|q.payload|)
    requires q.src != r.src || q.id % 0x1_0000 != r.id % 0x1_0000
    ensures ForeignTo(r, RouteFrames(q)[j])
  {
    FrameOfPiece(q, j);
  }

  /** Pieces of two payloads, in any order. */
  datatype Either = First(piece: nat) | Second(piece: nat)

  ghost predicate BothIn(r: Route, q: Route, run: seq<Either>) {
    forall i | 0 <= i < |run| ::
      run[i].piece < PieceCount(|(if run[i].First? then r else q).payload|)
  }

  /** The run as the first of them sees it. */
  ghost function SeenByFirst(r: Route, q: Route, run: seq<Either>): (tagged: seq<Tagged>)
    requires BothIn(r, q, run)
    ensures |tagged| == |run|
  {
    seq(|run|, i requires 0 <= i < |run| =>
      match run[i] case First(j) => Own(j) case Second(j) => Foreign(RouteFrames(q)[j]))
  }

  /** The frames themselves. */
  ghost function MixedFrames(r: Route, q: Route, run: seq<Either>): (frames: seq<seq<byte>>)
    requires BothIn(r, q, run)
    ensures |frames| == |run|
  {
    seq(|run|, i requires 0 <= i < |run| =>
      match run[i] case First(j) => RouteFrames(r)[j] case Second(j) => RouteFrames(q)[j])
  }

  lemma MixedIsTraffic(r: Route, q: Route, run: seq<Either>)
    requires BothIn(r, q, run) && q.dst == r.dst && (q.src != r.src || q.id % 0x1_0000 != r.id % 0x1_0000)
    ensures Traffic(r, SeenByFirst(r, q, run))
    ensures OnWire(r, SeenByFirst(r, q, run)) == MixedFrames(r, q, run)
  {
    forall i | 0 <= i < |run| && run[i].Second?
      ensures ForeignTo(r, SeenByFirst(r, q, run)[i].frame)
    {
      OtherRouteIsForeign(r, q, run[i].piece);
    }
  }

  /** Two payloads for one host whose frames mix in any way do not mix in it: whatever has come of the second, the
      first is passed up when its last missing piece arrives. */
  lemma PayloadsDoNotMix(r: Route, q: Route, table: map<Key, Node>, run: seq<Either>, last: nat)
    requires q.dst == r.dst && (q.src != r.src || q.id % 0x1_0000 != r.id % 0x1_0000)
    requires ValidTable(table) && RouteKey(r) !in table && BothIn(r, q, run + [First(last)]) && BothIn(r, q, run)
    requires var own := Seen(OwnPieces(SeenByFirst(r, q, run))); own < All(r.payload) && own + {last} == All(r.payload)
    ensures CallAt(r.dst, table, MixedFrames(r, q, run + [First(last)]), |run|) == PassedUp(r)
  {
    var tagged := SeenByFirst(r, q, run);
    assert SeenByFirst(r, q, run + [First(last)]) == tagged + [Own(last)];
    MixedIsTraffic(r, q, run);
    MixedIsTraffic(r, q, run + [First(last)]);
    IpEndToEnd(r, table, tagged, last);
  }

  /** When ip_out meets an unknown next hop its first packet alone reaches the wire; a payload of more than one
      piece never comes through then, however often that packet is repeated. */
  lemma FirstPieceAlone(r: Route, table: map<Key, Node>, run: seq<Tagged>, i: nat)
    requires |r.payload| > MAX_LOAD && ValidTable(table) && RouteKey(r) !in table && Traffic(r, run)
    requires forall k | 0 <= k < |run| && run[k].Own? :: run[k].piece == 0
    requires i < |run| && run[i].Own?
    ensures CallAt(r.dst, table, OnWire(r, run), i) == NoCall
  {
    SeenFirst(run);
    assert 1 in All(r.payload) && 1 !in Seen(OwnPieces(run));
    CallBefore(r, table, run, run, i);
  }

  lemma {:induction false} SeenFirst(run: seq<Tagged>)
    requires forall k | 0 <= k < |run| && run[k].Own? :: run[k].piece == 0
    ensures Seen(OwnPieces(run)) <= {0}
  {
    if |run| > 0 {
      var m := |run| - 1;
      SeenFirst(run[..m]);
      if run[m].Own? {
        SeenOne(OwnPieces(run));
        assert OwnPieces(run)[..|OwnPieces(run)| - 1] == OwnPieces(run[..m]);
      } else {
        assert OwnPieces(run) == OwnPieces(run[..m]);
      }
    }
  }

  // ----- The theorem for udp_send

  /** The largest data udp_send can get through: with the 8-byte header it fills 16 bits. */
  const MAX_DATA: nat := 0xFFFF - UDP_HDR_LEN

  ghost predicate Carries(r: Route, srcPort: u16, dstPort: u16, data: Chunk) {
    r.protocol == PROTOCOL_UDP && r.payload == Datagram(r.src, r.dst, srcPort, dstPort, data)
  }

  /** The rebuilt datagram leads to a handler call with the sender's own bytes, ports and address iff the
      data is at most 65527 bytes long and the port is open; beyond that the 16-bit total length has
      wrapped, and what is left is shorter than a UDP header. */
  lemma CallForDatagram(r: Route, ports: set<u16>, srcPort: u16, dstPort: u16, data: Chunk)
    requires Carries(r, srcPort, dstPort, data)
    ensures HandlerCall(r.dst, ports, PassedUp(r)) ==
            if |data| <= MAX_DATA && dstPort in ports then Some(UdpCall(r.src, UdpMessage(srcPort, dstPort, data)))
            else None
  {
    ArrivedWhole(r.payload);
    if |data| <= MAX_DATA {
      ParseOfDatagram(r.src, r.dst, srcPort, dstPort, data);
    } else {
      assert |Arrived(r.payload)| < UDP_HDR_LEN;
    }
  }

  /** Frames of the route and others reach the host itself: until the last missing one nothing is passed up for the
      route, and at its arrival the payload is. */
  method PayloadEndToEnd(host: Host, frames: seq<seq<byte>>, ghost r: Route, ghost run: seq<Tagged>, ghost last: nat)
    returns (ups: seq<NetCall>, calls: seq<Option<UdpCall>>)
    requires host.Valid() && host.ip.Steady() && ValidTable(host.ip.Table()) && host.Roomy(frames)
    requires forall i | 0 <= i < |frames| :: |frames[i]| < BUF_MIDDLE
    requires host.ip.ifIp == r.dst && RouteKey(r) !in host.ip.Table()
    requires Traffic(r, run + [Own(last)]) && frames == OnWire(r, run + [Own(last)])
    requires Seen(OwnPieces(run)) < All(r.payload) && Seen(OwnPieces(run)) + {last} == All(r.payload)
    modifies host.ip`mirror, host.ip.clock, host.ip.nodes`size, host.ip.nodes.slots, Footprint(host.ip.nodes.slots[..])
    ensures host.Valid() && old(host.ip.clock.now) <= host.ip.clock.now
    ensures |ups| == |calls| == |frames| == |run| + 1
    ensures forall i | 0 <= i < |run| && run[i].Own? :: ups[i] == NoCall
    ensures ups[|run|] == PassedUp(r)
    ensures forall i | 0 <= i < |frames| :: calls[i] == HandlerCall(r.dst, old(host.udp.Ports()), ups[i])
  {
    ghost var all := run + [Own(last)];
    assert forall i | 0 <= i < |run| :: run[i] == all[i];
    IpEndToEnd(r, host.ip.Table(), run, last);
    ups, calls := host.ReceiveAll(frames);
  }

  /** The frames UdpSend puts on the wire reach the host itself in any order, with any of them repeated and anything
      foreign in between.  Until the last missing one arrives no handler is called for them; at its arrival the
      handler is called, with the very bytes given to udp_send, their length, the source address and the ports, iff
      the data is at most 65527 bytes and the port is open. */
  method UdpEndToEnd(host: Host, frames: seq<seq<byte>>, ghost r: Route, srcPort: u16, dstPort: u16, data: Chunk,
                     ghost run: seq<Tagged>, ghost last: nat) returns (calls: seq<Option<UdpCall>>)
    requires host.Valid() && host.ip.Steady() && ValidTable(host.ip.Table()) && host.Roomy(frames)
    requires forall i | 0 <= i < |frames| :: |frames[i]| < BUF_MIDDLE
    requires host.ip.ifIp == r.dst && Carries(r, srcPort, dstPort, data) && RouteKey(r) !in host.ip.Table()
    requires Traffic(r, run + [Own(last)]) && frames == OnWire(r, run + [Own(last)])
    requires Seen(OwnPieces(run)) < All(r.payload) && Seen(OwnPieces(run)) + {last} == All(r.payload)
    modifies host.ip`mirror, host.ip.clock, host.ip.nodes`size, host.ip.nodes.slots, Footprint(host.ip.nodes.slots[..])
    ensures host.Valid() && |calls| == |frames| == |run| + 1
    ensures forall i | 0 <= i < |run| && run[i].Own? :: calls[i] == None
    ensures calls[|run|] ==
            if |data| <= MAX_DATA && dstPort in old(host.udp.Ports())
            then Some(UdpCall(r.src, UdpMessage(srcPort, dstPort, data))) else None
  {
    CallForDatagram(r, host.udp.Ports(), srcPort, dstPort, data);
    var ups;
    ups, calls := PayloadEndToEnd(host, frames, r, run, last);
  }
}
