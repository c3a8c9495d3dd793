/** The layer of src/tcp.c under traffic: what any sequence of packets makes of its table and gives to its
    handlers, and so what the runs of one connection mean for it. */
module TcpTraffic {
  import opened Bytes
  import opened Buffers
  import opened TimedMaps
  import opened TcpMachine
  import opened TcpRuns
  import opened TcpStream
  import opened Tcp
  import opened TcpTable

  /** A packet that ip_in hands to tcp_in, what the handler says if it is called, and the number drawn if a
      connection is opened. */
  datatype Packet = Packet(src: Ip, bytes: Chunk, replies: seq<Chunk>, iss: u32)

  /** What the packet is to the table: nothing if tcp_in drops it. */
  function EventOf(ifIp: Ip, open: set<u16>, p: Packet): Option<TableEvent> {
    match ParseTcp(p.src, ifIp, p.bytes)
    case None => None
    case Some(t) => Some(Arrives(Tcp.KeyOf(p.src, t), Event(t.message, t.dstPort in open, p.replies, p.iss)))
  }

  ghost predicate AreEvents(ifIp: Ip, open: set<u16>, packets: seq<Packet>, run: seq<Option<TableEvent>>) {
    |run| == |packets| && forall i | 0 <= i < |run| :: run[i] == EventOf(ifIp, open, packets[i])
  }

  // ----- Runs of packets

  /** The first n of them, without the dropped ones. */
  function EventsOf(run: seq<Option<TableEvent>>, n: nat): seq<TableEvent>
    requires n <= |run|
  {
    if n == 0 then [] else EventsOf(run, n - 1) + if run[n - 1].Some? then [run[n - 1].value] else []
  }

  /** The segments of one connection among them. */
  function Own(run: seq<Option<TableEvent>>, key: TcpKey, n: nat): seq<Event>
    requires n <= |run|
  {
    if n == 0 then [] else Own(run, key, n - 1) + if IsOwn(run[n - 1], key) then [run[n - 1].value.event] else []
  }

  predicate IsOwn(e: Option<TableEvent>, key: TcpKey) {
    e.Some? && e.value.Arrives? && e.value.key == key
  }

  ghost function TableBefore(run: seq<Option<TableEvent>>, n: nat): map<TcpKey, Conn>
    requires n <= |run|
  {
    RunTable(EventsOf(run, n))
  }

  ghost function StepTable(table: map<TcpKey, Conn>, e: Option<TableEvent>): map<TcpKey, Conn> {
    if e.Some? then TableStep(table, e.value) else table
  }

  ghost function HandedIn(table: map<TcpKey, Conn>, e: Option<TableEvent>): seq<byte> {
    if e.Some? && e.value.Arrives? then StepOn(ConnAt(table, e.value.key), e.value.event).handed else []
  }

  /** What the i-th packet has handed over. */
  ghost function HandedBy(run: seq<Option<TableEvent>>, i: nat): seq<byte>
    requires i < |run|
  {
    HandedIn(TableBefore(run, i), run[i])
  }

  /** What each of the first n has handed over. */
  ghost function AllHanded(run: seq<Option<TableEvent>>, n: nat): (s: seq<seq<byte>>)
    requires n <= |run|
    ensures |s| == n
  {
    if n == 0 then [] else AllHanded(run, n - 1) + [HandedBy(run, n - 1)]
  }

  /** All that the handler of a connection has been given by the first n. */
  ghost function HandedTo(run: seq<Option<TableEvent>>, key: TcpKey, n: nat): seq<byte>
    requires n <= |run|
  {
    if n == 0 then [] else HandedTo(run, key, n - 1) + if IsOwn(run[n - 1], key) then HandedBy(run, n - 1) else []
  }

  lemma {:induction false} TableSnoc(events: seq<TableEvent>, e: TableEvent)
    ensures RunTable(events + [e]) == TableStep(RunTable(events), e)
  {
    assert (events + [e])[..|events|] == events;
  }

  lemma OneMorePacket(run: seq<Option<TableEvent>>, i: nat)
    requires i < |run|
    ensures TableBefore(run, i + 1) == StepTable(TableBefore(run, i), run[i])
  {
    var events := EventsOf(run, i);
    if run[i].Some? {
      TableSnoc(events, run[i].value);
    } else {
      assert EventsOf(run, i + 1) == events;
    }
  }

  // ----- The layer itself

  ghost function OpenPorts(tcp: TcpLayer): set<u16>
    reads tcp.handlers, tcp.handlers.slots, tcp.handlers.clock
  {
    tcp.handlers.Live().Keys
  }

  twostate lemma PortsStay(tcp: TcpLayer)
    requires old(tcp.Valid()) && tcp.Valid() && unchanged(tcp.handlers.slots)
    ensures OpenPorts(tcp) == old(OpenPorts(tcp))
  {
    assert tcp.handlers.slots[..] == old(tcp.handlers.slots[..]);
    ViewForever(tcp.handlers.slots[..], old(tcp.conns.clock.now), tcp.conns.clock.now);
  }

  /** The table is this one, of at most most connections. */
  ghost predicate Reached(tcp: TcpLayer, open: set<u16>, table: map<TcpKey, Conn>, most: nat)
    reads tcp, tcp.conns, tcp.conns.slots, tcp.conns.clock, tcp.handlers, tcp.handlers.slots, tcp.handlers.clock
  {
    tcp.Valid() && OpenPorts(tcp) == open && tcp.Conns() == table && |table| <= most
  }

  /** One packet, with room for one more connection. */
  method Take(tcp: TcpLayer, p: Packet, ghost open: set<u16>, ghost table: map<TcpKey, Conn>, ghost most: nat)
    returns (handed: seq<byte>)
    requires Reached(tcp, open, table, most) && most < tcp.conns.slots.Length
    modifies tcp`sent, tcp`log, tcp.conns`size, tcp.conns.slots, tcp.conns.clock
    ensures var e := EventOf(tcp.ifIp, open, p);
            Reached(tcp, open, StepTable(table, e), most + 1) && handed == HandedIn(table, e)
  {
    tcp.conns.LiveWithinSize();
    var buf := new Buf();
    Fill(buf, p.bytes);
    var fault;
    handed, fault := tcp.TcpIn(buf, p.src, p.replies, p.iss);
    PortsStay(tcp);
  }

  method TakeNext(tcp: TcpLayer, p: Packet, i: nat, handed: seq<seq<byte>>, ghost open: set<u16>,
                  ghost run: seq<Option<TableEvent>>) returns (next: nat, more: seq<seq<byte>>)
    requires i < |run| <= tcp.conns.slots.Length && run[i] == EventOf(tcp.ifIp, open, p)
    requires Reached(tcp, open, TableBefore(run, i), i) && handed == AllHanded(run, i)
    modifies tcp`sent, tcp`log, tcp.conns`size, tcp.conns.slots, tcp.conns.clock
    ensures next == i + 1 && Reached(tcp, open, TableBefore(run, next), next) && more == AllHanded(run, next)
  {
    OneMorePacket(run, i);
    var h := Take(tcp, p, open, TableBefore(run, i), i);
    next, more := i + 1, handed + [h];
  }

  /** Any packets at a layer without connections, and with room for one connection each: no null pointer is
      followed, and the table and what the handlers see are those of the runs. */
  method TakeAll(tcp: TcpLayer, packets: seq<Packet>, ghost open: set<u16>, ghost run: seq<Option<TableEvent>>)
    returns (handed: seq<seq<byte>>)
    requires Reached(tcp, open, map[], 0) && |packets| <= tcp.conns.slots.Length
    requires AreEvents(tcp.ifIp, open, packets, run)
    modifies tcp`sent, tcp`log, tcp.conns`size, tcp.conns.slots, tcp.conns.clock
    ensures Reached(tcp, open, TableBefore(run, |run|), |run|)
    ensures handed == AllHanded(run, |run|)
  {
    handed := [];
    var i := 0;
    while i < |packets|
      invariant i <= |run| && Reached(tcp, open, TableBefore(run, i), i)
      invariant handed == AllHanded(run, i)
    {
      i, handed := TakeNext(tcp, packets[i], i, handed, open, run);
    }
  }

  // ----- One connection among all

  function Mets(events: seq<Event>): (h: seq<Happening>)
    ensures |h| == |events|
  {
    seq(|events|, i requires 0 <= i < |events| => Met(events[i]))
  }

  /** The two views of a run of segments agree on the connection. */
  lemma {:induction false} LogIsHistory(events: seq<Event>)
    ensures Present(RunHistory(Mets(events))) == RunLog(events).conn
  {
    if |events| > 0 {
      var m := |events| - 1;
      LogIsHistory(events[..m]);
      assert Mets(events)[..m] == Mets(events[..m]);
    }
  }

  lemma MetsSnoc(events: seq<Event>, e: Event)
    ensures Mets(events + [e]) == Mets(events) + [Met(e)]
  {
  }

  lemma {:induction false} SeenSnoc(events: seq<TableEvent>, e: TableEvent, key: TcpKey)
    ensures SeenBy(events + [e], key) == SeenBy(events, key) + TcpTable.Seen(e, key)
  {
    assert (events + [e])[..|events|] == events;
  }

  /** Packets alone bring no tcp_close. */
  ghost predicate OnlyPackets(run: seq<Option<TableEvent>>) {
    forall i | 0 <= i < |run| && run[i].Some? :: run[i].value.Arrives?
  }

  lemma {:induction false} SeenIsOwn(run: seq<Option<TableEvent>>, key: TcpKey, n: nat)
    requires n <= |run| && OnlyPackets(run)
    ensures SeenBy(EventsOf(run, n), key) == Mets(Own(run, key, n))
  {
    if n > 0 {
      SeenIsOwn(run, key, n - 1);
      SeenIsOwnNext(run, key, n - 1);
    }
  }

  lemma SeenIsOwnNext(run: seq<Option<TableEvent>>, key: TcpKey, i: nat)
    requires i < |run| && OnlyPackets(run) && SeenBy(EventsOf(run, i), key) == Mets(Own(run, key, i))
    ensures SeenBy(EventsOf(run, i + 1), key) == Mets(Own(run, key, i + 1))
  {
    var events := EventsOf(run, i);
    if run[i].Some? {
      SeenSnoc(events, run[i].value, key);
      if IsOwn(run[i], key) {
        MetsSnoc(Own(run, key, i), run[i].value.event);
      }
    } else {
      assert EventsOf(run, i + 1) == events;
    }
  }

  /** A connection in the table is where its own segments have brought it, as TcpStream follows them. */
  lemma {:induction false} ConnOfOwn(run: seq<Option<TableEvent>>, key: TcpKey, n: nat)
    requires n <= |run| && OnlyPackets(run)
    ensures ConnAt(TableBefore(run, n), key) == RunLog(Own(run, key, n)).conn
  {
    TableFollowsHistories(EventsOf(run, n), key);
    SeenIsOwn(run, key, n);
    LogIsHistory(Own(run, key, n));
  }

  lemma {:induction false} LogSnoc(events: seq<Event>, e: Event)
    ensures RunLog(events + [e]).handed == RunLog(events).handed + StepOn(RunLog(events).conn, e).handed
  {
    assert (events + [e])[..|events|] == events;
  }

  /** What its handler has been given, packet by packet, is what TcpStream's log says. */
  lemma {:induction false} HandedIsLogged(run: seq<Option<TableEvent>>, key: TcpKey, n: nat)
    requires n <= |run| && OnlyPackets(run)
    ensures HandedTo(run, key, n) == RunLog(Own(run, key, n)).handed
  {
    if n == 0 {
      assert Own(run, key, 0) == [];
    } else {
      HandedIsLogged(run, key, n - 1);
      ConnOfOwn(run, key, n - 1);
      HandedNext(run, key, n);
    }
  }

  lemma HandedNext(run: seq<Option<TableEvent>>, key: TcpKey, n: nat)
    requires 0 < n <= |run| && HandedTo(run, key, n - 1) == RunLog(Own(run, key, n - 1)).handed
    requires ConnAt(TableBefore(run, n - 1), key) == RunLog(Own(run, key, n - 1)).conn
    ensures HandedTo(run, key, n) == RunLog(Own(run, key, n)).handed
  {
    var own := Own(run, key, n - 1);
    if IsOwn(run[n - 1], key) {
      LogSnoc(own, run[n - 1].value.event);
    } else {
      assert Own(run, key, n) == own;
    }
  }

  /** Delivery at the layer itself: among any other packets, those of one peer, lost, reordered and repeated, leave
      its connection with a prefix of the stream acknowledged, and the handler has been given exactly what was
      acknowledged iff no data strayed. */
  method StreamToHandler(tcp: TcpLayer, packets: seq<Packet>, ghost open: set<u16>,
                         ghost run: seq<Option<TableEvent>>, ghost key: TcpKey, ghost p: Peer)
    returns (handed: seq<seq<byte>>)
    requires Reached(tcp, open, map[], 0) && |packets| <= tcp.conns.slots.Length
    requires AreEvents(tcp.ifIp, open, packets, run)
    requires IsPeer(p) && PeerTraffic(p, Own(run, key, |run|))
    modifies tcp`sent, tcp`log, tcp.conns`size, tcp.conns.slots, tcp.conns.clock
    ensures handed == AllHanded(run, |run|)
    ensures var own := Own(run, key, |run|);
            var l := RunLog(own);
            var given := HandedTo(run, key, |run|);
            && ConnAt(tcp.Conns(), key) == l.conn && InOrder(p, l)
            && (given == Acknowledged(l) <==> StrayBytes(own) == 0)
            && |given| == |Acknowledged(l)| + StrayBytes(own)
  {
    DeliveryInTable(run, key, p);
    handed := TakeAll(tcp, packets, open, run);
  }

  lemma {:induction false} DeliveryInTable(run: seq<Option<TableEvent>>, key: TcpKey, p: Peer)
    requires OnlyPackets(run) && IsPeer(p) && PeerTraffic(p, Own(run, key, |run|))
    ensures var own := Own(run, key, |run|);
            var l := RunLog(own);
            var given := HandedTo(run, key, |run|);
            && ConnAt(TableBefore(run, |run|), key) == l.conn && InOrder(p, l)
            && (given == Acknowledged(l) <==> StrayBytes(own) == 0)
            && |given| == |Acknowledged(l)| + StrayBytes(own)
  {
    var own := Own(run, key, |run|);
    DeliveredIsPrefix(p, own);
    HandedIffNoStray(p, own);
    ConnOfOwn(run, key, |run|);
    HandedIsLogged(run, key, |run|);
  }

  // ----- The null pointer

  /** A SYN from port i of a peer, as tcp_out would send it. */
  function SynFrom(src: Ip, ifIp: Ip, i: u16, port: u16): seq<byte> {
    TcpBytes(src, Outgoing(ifIp, i, port, SYN_ONLY), 0)
  }

  /** The connections opened by the first i ports. */
  ghost predicate Opened(table: map<TcpKey, Conn>, src: Ip, port: u16, i: nat) {
    |table| == i && forall k | k in table :: k.remote == src && k.hostPort == port && k.remotePort < i
  }

  const SYN_ONLY: Segment := Segment(0, 0, Flags(false, true, false, false), [])

  lemma SynOpens(registered: bool)
    ensures !Step(FRESH_CONN, Incoming(0, SYN_ONLY.flags, 0, []), registered, [], 0).closed
  {
  }

  lemma OpensOne(table: map<TcpKey, Conn>, src: Ip, port: u16, i: u16, c: Conn)
    requires Opened(table, src, port, i)
    ensures var key := TcpKey(src, i, port); key !in table && Opened(table[key := c], src, port, i + 1)
  {
  }

  method Knock(tcp: TcpLayer, src: Ip, port: u16, i: u16) returns (fault: bool)
    requires tcp.Valid() && Opened(tcp.Conns(), src, port, i)
    modifies tcp`sent, tcp`log, tcp.conns`size, tcp.conns.slots, tcp.conns.clock
    ensures tcp.Valid() && fault == (i == tcp.conns.slots.Length)
    ensures !fault ==> Opened(tcp.Conns(), src, port, i + 1)
  {
    tcp.conns.LiveWithinSize();
    ghost var key, open := TcpKey(src, i, port), tcp.Open(port);
    ParseOfTcpBytes(src, Outgoing(tcp.ifIp, i, port, SYN_ONLY), 0);
    SynOpens(open);
    OpensOne(tcp.Conns(), src, port, i, Step(FRESH_CONN, Incoming(0, SYN_ONLY.flags, 0, []), open, [], 0).conn);
    var buf := new Buf();
    Fill(buf, SynFrom(src, tcp.ifIp, i, port));
    var handed;
    handed, fault := tcp.TcpIn(buf, src, [], 0);
  }

  /** A table that holds n connections meets its null pointer at the SYN from the next port, and not before. */
  method OneSynTooMany(source: Clock, ip: Ip, n: u16, ports: nat, src: Ip, port: u16) returns (early: bool, last: bool)
    requires source.Valid()
    modifies source
    ensures !early && last
  {
    var tcp := new TcpLayer(source, ip, n, ports);
    early := false;
    for i := 0 to n
      invariant tcp.Valid() && fresh(tcp) && fresh(tcp.conns) && fresh(tcp.conns.slots) && tcp.conns.clock == source
      invariant tcp.conns.slots.Length == n && Opened(tcp.Conns(), src, port, i) && !early
    {
      var fault := Knock(tcp, src, port, i);
      early := early || fault;
    }
    last := Knock(tcp, src, port, n);
  }
}
