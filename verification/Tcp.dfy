/** src/tcp.c over its tables and buffers: segments as bytes, connections as records in the
    slots of a map, written through pointers into them. */
module Tcp {
  import opened Bytes
  import opened Buffers
  import opened Checksum
  import opened TimedMaps
  import opened IpPackets
  import opened Udp
  import opened TcpMachine

  const TCP_HDR_LEN: nat := 20
  const TCP_CHECKSUM_AT: nat := 16

  function FlagsByte(f: Flags): byte {
    (if f.fin then 1 else 0) + (if f.syn then 2 else 0) + (if f.rst then 4 else 0) + (if f.ack then 16 else 0)
  }

  function FlagsOf(b: byte): Flags {
    Flags(b % 2 == 1, (b / 2) % 2 == 1, (b / 4) % 2 == 1, (b / 16) % 2 == 1)
  }

  /** A segment and where it goes; the urgent pointer is whatever the buffer held. */
  datatype Outgoing = Outgoing(dst: Ip, srcPort: u16, dstPort: u16, segment: Segment)

  /** All header fields but the urgent pointer and the checksum, which is 0 here. */
  function TcpHead(o: Outgoing): (s: seq<byte>)
    ensures |s| == TCP_HDR_LEN - 2
  {
    Be16(o.srcPort) + Be16(o.dstPort) + Be32(o.segment.seqNo) + Be32(o.segment.ackNo)
    + [0x50, FlagsByte(o.segment.flags)] + Be16(0xFFFF) + [0, 0]
  }

  /** The header as tcp_out fills it (src/tcp.c:126-135), the checksum still 0. */
  function UnsealedTcp(o: Outgoing, urgent: u16): (s: seq<byte>)
    ensures |s| == TCP_HDR_LEN
  {
    TcpHead(o) + Le16(urgent)
  }

  function TcpBytes(src: Ip, o: Outgoing, urgent: u16): (s: seq<byte>)
    ensures |s| == TCP_HDR_LEN + |o.segment.payload|
  {
    var u := UnsealedTcp(o, urgent) + o.segment.payload;
    SetWord(u, TCP_CHECKSUM_AT, TransportChecksum(PROTOCOL_TCP, src, o.dst, u))
  }

  ghost predicate Encodes(bytes: seq<byte>, src: Ip, o: Outgoing) {
    exists urgent: u16 :: bytes == TcpBytes(src, o, urgent)
  }

  datatype TcpMessage = TcpMessage(srcPort: u16, dstPort: u16, message: Incoming)

  /** The checks of tcp_in (src/tcp.c:156-169) and the fields it uses.  The checksum field stays zeroed in
      the buffer, which shows only if the header length points inside the header. */
  function ParseTcp(src: Ip, ifIp: Ip, s: seq<byte>): Option<TcpMessage> {
    if |s| < TCP_HDR_LEN then None
    else
      var z := SetWord(s, TCP_CHECKSUM_AT, 0);
      if TransportChecksum(PROTOCOL_TCP, src, ifIp, z) != GetLe16(s, TCP_CHECKSUM_AT) then None else Some(TcpFields(z))
  }

  function TcpFields(z: seq<byte>): TcpMessage
    requires TCP_HDR_LEN <= |z|
  {
    var headerLen := 4 * (z[12] / 16);
    TcpMessage(GetBe16(z, 0), GetBe16(z, 2),
               Incoming(GetBe32(z, 4), FlagsOf(z[13]), |z| - headerLen, if headerLen < |z| then z[headerLen..] else []))
  }

  lemma FlagsRoundTrip(f: Flags)
    ensures FlagsOf(FlagsByte(f)) == f
  {
  }

  /** What tcp_out puts on the wire the peer's tcp_in accepts, and reads back as the same segment. */
  lemma ParseOfTcpBytes(src: Ip, o: Outgoing, urgent: u16)
    ensures var s := o.segment;
            ParseTcp(src, o.dst, TcpBytes(src, o, urgent)) ==
            Some(TcpMessage(o.srcPort, o.dstPort, Incoming(s.seqNo, s.flags, |s.payload|, s.payload)))
  {
    var u := UnsealedTcp(o, urgent) + o.segment.payload;
    var b := TcpBytes(src, o, urgent);
    assert SetWord(b, TCP_CHECKSUM_AT, 0) == u;
    FieldsOfHeader(o, urgent);
  }

  lemma FieldsOfHeader(o: Outgoing, urgent: u16)
    ensures var s := o.segment;
            TcpFields(UnsealedTcp(o, urgent) + s.payload) ==
            TcpMessage(o.srcPort, o.dstPort, Incoming(s.seqNo, s.flags, |s.payload|, s.payload))
  {
    var u := UnsealedTcp(o, urgent) + o.segment.payload;
    GetBe16At(u, 0, o.srcPort);
    GetBe16At(u, 2, o.dstPort);
    assert u[4..8] == Be32(o.segment.seqNo);
    GetBe32At(u, 4, o.segment.seqNo);
    FlagsRoundTrip(o.segment.flags);
    assert u[12] == 0x50 && u[13] == FlagsByte(o.segment.flags);
    assert u[20..] == o.segment.payload;
  }

  datatype TcpKey = TcpKey(remote: Ip, remotePort: u16, hostPort: u16)

  /** A call of ip_out. */
  datatype ToIp = ToIp(dst: Ip, bytes: seq<byte>)

  /** sent is log, encoded for the wire. */
  ghost predicate Emits(sent: seq<ToIp>, log: seq<Outgoing>, src: Ip) {
    |sent| == |log| && forall i | 0 <= i < |log| :: sent[i].dst == log[i].dst && Encodes(sent[i].bytes, src, log[i])
  }

  function Addressed(key: TcpKey, segments: seq<Segment>): (r: seq<Outgoing>)
    ensures |r| == |segments|
  {
    seq(|segments|, i requires 0 <= i < |segments| => Outgoing(key.remote, key.hostPort, key.remotePort, segments[i]))
  }

  lemma AddressedConcat(key: TcpKey, a: seq<Segment>, b: seq<Segment>)
    ensures Addressed(key, a + b) == Addressed(key, a) + Addressed(key, b)
    ensures Addressed(key, []) == []
    ensures forall s :: Addressed(key, [s]) == [Outgoing(key.remote, key.hostPort, key.remotePort, s)]
  {
  }

  lemma {:induction false} SendAllSnoc(key: TcpKey, c: Conn, replies: seq<Chunk>, i: nat)
    requires i < |replies|
    ensures var (before, sent) := SendAll(c, replies[..i]);
            var (after, more) := Send(before, replies[i]);
            && SendAll(c, replies[..i + 1]) == (after, sent + more)
            && Addressed(key, sent + more) == Addressed(key, sent) + Addressed(key, more)
  {
    assert replies[..i + 1][..i] == replies[..i];
  }

  class TcpLayer {
    const conns: TimedMap<TcpKey, Conn>
    const handlers: TimedMap<u16, nat>
    const ifIp: Ip
    /** The packets given to ip_out, and the segments they encode. */
    var sent: seq<ToIp>
    ghost var log: seq<Outgoing>

    ghost predicate Valid()
      reads this, conns, conns.slots, conns.clock, handlers, handlers.slots, handlers.clock
    {
      && conns.Valid() && handlers.Valid() && conns.timeout == handlers.timeout == 0 && conns.clock == handlers.clock
      && Emits(sent, log, ifIp)
    }

    ghost function Conns(): map<TcpKey, Conn>
      reads conns, conns.slots, conns.clock
    {
      conns.Live()
    }

    ghost predicate Open(port: u16)
      reads handlers, handlers.slots, handlers.clock
    {
      port in handlers.Live()
    }

    constructor (source: Clock, ip: Ip, capacity: nat, ports: nat)
      requires source.Valid()
      ensures Valid() && ifIp == ip && Conns() == map[] && log == [] && conns.clock == source
      ensures fresh(conns) && fresh(conns.slots) && fresh(handlers) && fresh(handlers.slots)
      ensures conns.slots.Length == capacity && handlers.slots.Length == ports && handlers.Live() == map[]
    {
      conns := new TimedMap<TcpKey, Conn>(capacity, 0, source);
      handlers := new TimedMap<u16, nat>(ports, 0, source);
      ifIp, sent, log := ip, [], [];
    }

    /** tcp_out (src/tcp.c:119-145): seq and ack come from the connection in slot pos. */
    method TcpOut(pos: nat, buf: Buf, key: TcpKey, flags: Flags)
      requires Valid() && pos < conns.slots.Length && conns.slots[pos].Entry?
      requires buf.Anchored() && buf.len <= 0xFFFF
      modifies this`sent, this`log, buf, buf.payload
      ensures Valid()
      ensures var c := conns.slots[pos].value;
              var segment := Segment(c.seqNo, c.ackNo, flags, old(buf.Contents()));
              log == old(log) + [Outgoing(key.remote, key.hostPort, key.remotePort, segment)]
    {
      var c := conns.slots[pos].value;
      ghost var segment := Segment(c.seqNo, c.ackNo, flags, buf.Contents());
      ghost var o := Outgoing(key.remote, key.hostPort, key.remotePort, segment);
      FillSegment(buf, ifIp, key, c.seqNo, c.ackNo, flags);
      sent := sent + [ToIp(key.remote, buf.payload[buf.data..buf.data + buf.len])];
      log := log + [o];
    }

    /** Slot pos is the record of connection key and has value c; base is the table without regard to key.
        A closed connection's record can still be read and written, but is in the table no more. */
    ghost predicate Holding(pos: nat, key: TcpKey, c: Conn, closed: bool, base: map<TcpKey, Conn>)
      reads conns, conns.slots, conns.clock
    {
      && pos < conns.slots.Length && conns.slots[pos].Entry? && conns.slots[pos].key == key &&
         conns.slots[pos].value == c
      && LiveSlot(conns.slots[pos], 0, conns.clock.now) == !closed
      && Conns() == After(base, key, c, closed)
    }

    /** A store through the connection pointer. */
    method Store(pos: nat, c: Conn, ghost key: TcpKey, ghost was: Conn, ghost closed: bool,
                 ghost base: map<TcpKey, Conn>)
      requires Valid() && Holding(pos, key, was, closed, base)
      modifies conns.slots
      ensures Valid() && Holding(pos, key, c, closed, base)
    {
      AfterTwice(base, key, was, c);
      conns.Assign(pos, c);
    }

    /** tcp_out of a buffer of its own with the given data. */
    method SendSegment(pos: nat, key: TcpKey, data: Chunk, flags: Flags)
      requires Valid() && pos < conns.slots.Length && conns.slots[pos].Entry?
      modifies this`sent, this`log
      ensures Valid()
      ensures var c := conns.slots[pos].value;
              log == old(log) + Addressed(key, [Segment(c.seqNo, c.ackNo, flags, data)])
    {
      var buf := new Buf();
      var _ := buf.Init(|data|);
      buf.Write(0, data);
      assert buf.Contents() == data;
      TcpOut(pos, buf, key, flags);
      AddressedConcat(key, [], []);
    }

    /** tcp_send (src/tcp.c:309-331). */
    method TcpSend(pos: nat, key: TcpKey, data: Chunk, ghost was: Conn, ghost closed: bool,
                   ghost base: map<TcpKey, Conn>)
      requires Valid() && Holding(pos, key, was, closed, base)
      modifies this`sent, this`log, conns.slots
      ensures Valid()
      ensures var (c, segments) := Send(was, data);
              Holding(pos, key, c, closed, base) && log == old(log) + Addressed(key, segments)
    {
      AddressedConcat(key, [], []);
      if |data| == 0 {
        return;
      }
      SendSegment(pos, key, data, ACK_ONLY);
      var c := conns.slots[pos].value;
      Store(pos, c.(seqNo := ToU32(c.seqNo + |data|), notSendEmptyAck := true), key, was, closed, base);
    }

    /** A handler at work: an arbitrary sequence of tcp_send calls on its own connection. */
    method CallHandler(pos: nat, key: TcpKey, replies: seq<Chunk>, ghost was: Conn, ghost closed: bool,
                       ghost base: map<TcpKey, Conn>)
      requires Valid() && Holding(pos, key, was, closed, base)
      modifies this`sent, this`log, conns.slots
      ensures Valid()
      ensures var (c, segments) := SendAll(was, replies);
              Holding(pos, key, c, closed, base) && log == old(log) + Addressed(key, segments)
    {
      var i := 0;
      AddressedConcat(key, [], []);
      while i < |replies|
        invariant i <= |replies| && Valid() && Said(pos, key, was, replies[..i], closed, base, old(log))
      {
        i := SayNext(pos, key, replies, i, was, closed, base, old(log));
      }
      assert replies[..i] == replies;
    }

    /** The handler has said replies. */
    ghost predicate Said(pos: nat, key: TcpKey, was: Conn, replies: seq<Chunk>, closed: bool, base: map<TcpKey, Conn>,
                         before: seq<Outgoing>)
      reads this, conns, conns.slots, conns.clock
    {
      var (c, segments) := SendAll(was, replies);
      Holding(pos, key, c, closed, base) && log == before + Addressed(key, segments)
    }

    method SayNext(pos: nat, key: TcpKey, replies: seq<Chunk>, i: nat, ghost was: Conn, ghost closed: bool,
                   ghost base: map<TcpKey, Conn>, ghost before: seq<Outgoing>) returns (next: nat)
      requires Valid() && i < |replies| && Said(pos, key, was, replies[..i], closed, base, before)
      modifies this`sent, this`log, conns.slots
      ensures Valid() && next == i + 1 && Said(pos, key, was, replies[..next], closed, base, before)
    {
      SendAllSnoc(key, was, replies, i);
      TcpSend(pos, key, replies[i], SendAll(was, replies[..i]).0, closed, base);
      next := i + 1;
    }

    /** The last step of tcp_in (src/tcp.c:281-295). */
    method SendReply(pos: nat, key: TcpKey, flags: Flags, ghost was: Conn, ghost closed: bool,
                     ghost base: map<TcpKey, Conn>)
      requires Valid() && Holding(pos, key, was, closed, base)
      modifies this`sent, this`log, conns.slots
      ensures Valid()
      ensures var (c, segments) := Reply(was, flags);
              Holding(pos, key, c, closed, base) && log == old(log) + Addressed(key, segments)
    {
      AddressedConcat(key, [], []);
      if flags == Flags(false, false, false, false) {
        return;
      }
      var c := conns.slots[pos].value;
      if BytesInFlight(0, flags) == 0 && c.notSendEmptyAck {
        Store(pos, c.(notSendEmptyAck := false), key, was, closed, base);
        return;
      }
      SendSegment(pos, key, [], flags);
      Store(pos, c.(seqNo := ToU32(c.seqNo + BytesInFlight(0, flags))), key, was, closed, base);
    }

    /** tcp_get_connection with create_if_missing (src/tcp.c:81-91).  What it returns is null iff the key is absent
        and the table full. */
    method GetConnection(key: TcpKey) returns (pos: nat, found: bool)
      requires Valid()
      modifies conns`size, conns.slots, conns.clock
      ensures Valid() && (forall port :: Open(port) <==> old(Open(port)))
      ensures found == (key in old(Conns()) || old(conns.size) < conns.slots.Length)
      ensures found ==> Holding(pos, key, ConnAt(old(Conns()), key), false, old(Conns()))
      ensures !found ==> Conns() == old(Conns())
    {
      ghost var base := Conns();
      pos, found := conns.Get(key);
      ClockMoved();
      if found {
        AfterSame(base, key);
        return;
      }
      CreateConnection(key);
      label created:
      pos, found := conns.Get(key);
      ClockMoved@created();
    }

    method CreateConnection(key: TcpKey)
      requires Valid() && key !in Conns()
      modifies conns`size, conns.slots, conns.clock
      ensures Valid() && (forall port :: Open(port) <==> old(Open(port)))
      ensures Conns() == if old(conns.size) < conns.slots.Length then old(Conns())[key := FRESH_CONN] else old(Conns())
    {
      ghost var s, h, start := conns.slots[..], handlers.slots[..], conns.clock.now;
      var ok, at := conns.Set(key, FRESH_CONN);
      assert handlers.slots[..] == h;
      if !ok {
        assert conns.slots[..] == s;
      }
      ViewForever(s, start, conns.clock.now);
      ViewForever(h, start, conns.clock.now);
    }

    /** map_delete of the connection in slot pos. */
    method Forget(pos: nat, key: TcpKey)
      requires Valid() && pos < conns.slots.Length
      requires LiveSlot(conns.slots[pos], 0, conns.clock.now) && conns.slots[pos].key == key
      modifies conns`size, conns.slots, conns.clock
      ensures Valid() && (forall port :: Open(port) <==> old(Open(port)))
      ensures conns.slots[..] == old(conns.slots[..])[pos := old(conns.slots[pos]).(stamp := 0)]
      ensures Conns() == old(Conns()) - {key}
    {
      ghost var s, h, start := conns.slots[..], handlers.slots[..], conns.clock.now;
      var hit, at := conns.Delete(key);
      assert handlers.slots[..] == h;
      ViewForever(s, start, conns.clock.now);
      ViewForever(h, start, conns.clock.now);
      ViewOfSlot(s, 0, conns.clock.now, pos);
      assert hit;
      assert at == pos;
    }

    /** tcp_close_connection (src/tcp.c:100-103); the record stays where it is. */
    method CloseConnection(pos: nat, key: TcpKey, ghost was: Conn, ghost base: map<TcpKey, Conn>)
      requires Valid() && Holding(pos, key, was, false, base)
      modifies conns`size, conns.slots, conns.clock
      ensures Valid() && (forall port :: Open(port) <==> old(Open(port)))
      ensures Holding(pos, key, was, true, base)
    {
      Forget(pos, key);
      assert base[key := was] - {key} == base - {key};
    }

    /** With no timeouts, reading the clock changes nothing. */
    twostate lemma ClockMoved()
      requires old(Valid())
      requires unchanged(this) && unchanged(conns) && unchanged(conns.slots) && unchanged(handlers) &&
               unchanged(handlers.slots)
      requires conns.clock.Valid() && old(conns.clock.now) <= conns.clock.now
      ensures Valid() && Conns() == old(Conns()) && (forall port :: Open(port) <==> old(Open(port)))
    {
      assert conns.slots[..] == old(conns.slots[..]) && handlers.slots[..] == old(handlers.slots[..]);
      ViewForever(conns.slots[..], old(conns.clock.now), conns.clock.now);
      ViewForever(handlers.slots[..], old(conns.clock.now), conns.clock.now);
    }

    /** The switch of tcp_in (src/tcp.c:195-263). */
    method Advance(pos: nat, key: TcpKey, m: Incoming, iss: u32, ghost c: Conn, ghost base: map<TcpKey, Conn>)
      returns (go: bool, flags: Flags, ghost close: bool)
      requires Valid() && Holding(pos, key, c, false, base)
      modifies this`sent, this`log, conns`size, conns.slots, conns.clock
      ensures Valid() && (forall port :: Open(port) <==> old(Open(port)))
      ensures match Judge(c, m, iss)
              case Drop => !go && Holding(pos, key, c, false, base) && log == old(log)
              case Duplicate =>
                !go && Holding(pos, key, c, false, base) &&
                log == old(log) + Addressed(key, [Segment(c.seqNo, c.ackNo, ACK_ONLY, [])])
              case Go(c1, f, closing) =>
                go && Holding(pos, key, c1, closing, base) && log == old(log) && flags == f && close == closing
    {
      go, close, flags := true, false, Flags(false, false, false, false);
      AddressedConcat(key, [], []);
      var conn := conns.slots[pos].value;
      match conn.state {
        case Listen =>
          if !m.flags.syn {
            go := false;
            return;
          }
          conn := conn.(seqNo := iss);
          conn := conn.(ackNo := ToU32(m.seqNo + 1));
          flags := Flags(false, true, false, true);
          conn := conn.(state := SynReceived);
          Store(pos, conn, key, c, false, base);
        case SynReceived =>
          if !m.flags.ack {
            go := false;
            return;
          }
          Store(pos, conn.(state := Established), key, c, false, base);
        case Established =>
          if m.seqNo != conn.ackNo {
            SendSegment(pos, key, [], ACK_ONLY);
            go := false;
            return;
          }
          conn := conn.(ackNo := ToU32(conn.ackNo + BytesInFlight(m.gap, m.flags)));
          if m.gap != 0 {
            flags := flags.(ack := true);
          }
          if m.flags.fin {
            flags := flags.(ack := true, fin := true);
            conn := conn.(state := LastAck);
          }
          Store(pos, conn, key, c, false, base);
        case LastAck =>
          if !m.flags.ack {
            go := false;
            return;
          }
          CloseConnection(pos, key, c, base);
          close := true;
        case _ =>
      }
    }

    /** tcp_in (src/tcp.c:153-297).  replies is what the port's handler sends if it is called, iss the number
        drawn if a connection is opened.  The connection addressed takes exactly the machine's step, the
        segments that step sends are what goes to ip_out, and no other connection changes.  fault reports that
        the source follows a null pointer: it does iff the table is full, the connection is not in it and the
        segment is no reset. */
    method TcpIn(buf: Buf, src: Ip, replies: seq<Chunk>, iss: u32) returns (handed: seq<byte>, fault: bool)
      requires Valid() && buf.Valid() && PSEUDO_HDR_LEN <= buf.data && buf.len <= 0xFFFF
      modifies this`sent, this`log, conns`size, conns.slots, conns.clock, buf, buf.payload
      ensures Valid()
      ensures match ParseTcp(src, ifIp, old(buf.Contents()))
              case None => !fault && handed == [] && log == old(log) && Conns() == old(Conns())
              case Some(t) =>
                var key := KeyOf(src, t);
                var eff := Step(ConnAt(old(Conns()), key), t.message, old(Open(t.dstPort)), replies, iss);
                && fault == (key !in old(Conns()) && old(conns.size) == conns.slots.Length && !t.message.flags.rst)
                && Stepped(old(Conns()), old(log), key, eff, handed, fault)
    {
      var t := Verify(buf, src, ifIp);
      if t == None {
        return [], false;
      }
      handed, fault := Process(KeyOf(src, t.value), t.value, replies, iss);
    }

    /** The table and the log after the step eff of connection key, or just as they were at a fault. */
    ghost predicate Stepped(base: map<TcpKey, Conn>, before: seq<Outgoing>, key: TcpKey, eff: Effect,
                            handed: seq<byte>, fault: bool)
      reads this, conns, conns.slots, conns.clock
    {
      if fault then Conns() == base && log == before && handed == []
      else
        && Conns() == After(base, key, eff.conn, eff.closed)
        && log == before + Addressed(key, eff.sent) && handed == eff.handed
    }

    method Process(key: TcpKey, t: TcpMessage, replies: seq<Chunk>, iss: u32) returns (handed: seq<byte>, fault: bool)
      requires Valid()
      modifies this`sent, this`log, conns`size, conns.slots, conns.clock
      ensures Valid()
      ensures fault == (key !in old(Conns()) && old(conns.size) == conns.slots.Length && !t.message.flags.rst)
      ensures var eff := Step(ConnAt(old(Conns()), key), t.message, old(Open(t.dstPort)), replies, iss);
              Stepped(old(Conns()), old(log), key, eff, handed, fault)
    {
      ghost var base, c, before := Conns(), ConnAt(Conns(), key), log;
      var pos, found := GetConnection(key);
      if t.message.flags.rst {
        DroppedTwice(base, key, c, before);
        Drop(key);
        assert Conns() == base - {key} && log == before;
        return [], false;
      }
      if !found {
        return [], true;
      }
      handed := Advanced(pos, key, t, replies, iss, c, base);
      fault := false;
    }

    /** The map_delete that answers a reset. */
    method Drop(key: TcpKey)
      requires Valid()
      modifies conns`size, conns.slots, conns.clock
      ensures Valid() && (forall port :: Open(port) <==> old(Open(port)))
      ensures Conns() == old(Conns()) - {key}
    {
      ghost var s, h, start := conns.slots[..], handlers.slots[..], conns.clock.now;
      var hit, at := conns.Delete(key);
      assert handlers.slots[..] == h;
      ViewForever(s, start, conns.clock.now);
      ViewForever(h, start, conns.clock.now);
    }

    /** What follows once the connection is at hand. */
    method Advanced(pos: nat, key: TcpKey, t: TcpMessage, replies: seq<Chunk>, iss: u32,
                    ghost c: Conn, ghost base: map<TcpKey, Conn>) returns (handed: seq<byte>)
      requires Valid() && Holding(pos, key, c, false, base) && !t.message.flags.rst
      modifies this`sent, this`log, conns`size, conns.slots, conns.clock
      ensures Valid()
      ensures Stepped(base, old(log), key, Step(c, t.message, old(Open(t.dstPort)), replies, iss), handed, false)
    {
      AddressedConcat(key, [], []);
      var go, flags;
      ghost var close;
      go, flags, close := Advance(pos, key, t.message, iss, c, base);
      if !go {
        return [];
      }
      handed := Respond(pos, key, t, flags, replies, conns.slots[pos].value, close, base);
    }

    /** Delivery and reply (src/tcp.c:267-295). */
    method Respond(pos: nat, key: TcpKey, t: TcpMessage, flags: Flags, replies: seq<Chunk>,
                   ghost c1: Conn, ghost close: bool, ghost base: map<TcpKey, Conn>) returns (handed: seq<byte>)
      requires Valid() && Holding(pos, key, c1, close, base)
      modifies this`sent, this`log, conns.slots, conns.clock
      ensures Valid()
      ensures var eff := Answer(c1, flags, close, t.message, old(Open(t.dstPort)), replies);
              Holding(pos, key, eff.conn, close, base) && log == old(log) + Addressed(key, eff.sent) &&
              handed == eff.handed
    {
      handed := [];
      AddressedConcat(key, [], []);
      ghost var c2, segments := c1, [];
      if t.message.gap > 0 {
        var registered := HasHandler(pos, key, t.dstPort, c1, close, base);
        if !registered {
          return;
        }
        handed := t.message.payload;
        CallHandler(pos, key, replies, c1, close, base);
        c2, segments := SendAll(c1, replies).0, SendAll(c1, replies).1;
      }
      SendReply(pos, key, flags, c2, close, base);
      AddressedConcat(key, segments, Reply(c2, flags).1);
    }

    method HasHandler(pos: nat, key: TcpKey, port: u16, ghost c: Conn, ghost close: bool, ghost base: map<TcpKey, Conn>)
      returns (found: bool)
      requires Valid() && Holding(pos, key, c, close, base)
      modifies conns.clock
      ensures Valid() && found == old(Open(port)) && Holding(pos, key, c, close, base)
    {
      var i;
      i, found := handlers.Get(port);
      ClockMoved();
    }

    /** tcp_open (src/tcp.c:352-354). */
    method TcpOpen(port: u16, handler: nat) returns (ok: bool)
      requires Valid()
      modifies handlers`size, handlers.slots, handlers.clock
      ensures Valid() && Conns() == old(Conns())
      ensures ok == (old(Open(port)) || old(handlers.size) < handlers.slots.Length)
      ensures handlers.Live() == if ok then old(handlers.Live())[port := handler] else old(handlers.Live())
    {
      ghost var s, h, start := conns.slots[..], handlers.slots[..], conns.clock.now;
      ghost var pos: nat;
      ok, pos := handlers.Set(port, handler);
      assert conns.slots[..] == s;
      ViewForever(s, start, conns.clock.now);
      ViewForever(h, start, conns.clock.now);
      if !ok {
        assert handlers.slots[..] == h;
      }
    }

    /** tcp_close with close_port_fn (src/tcp.c:356-370): the map is changed while it is walked, yet exactly
        the connections of the port go, every other one stays as it was, and the counter drops by
        as many as went. */
    method TcpClose(port: u16)
      requires Valid()
      modifies conns`size, conns.slots, handlers`size, handlers.slots, conns.clock
      ensures Valid()
      ensures Conns() == (map k | k in old(Conns()) && k.hostPort != port :: old(Conns())[k])
      ensures conns.size == |Conns()| && old(conns.size) == |old(Conns())|
      ensures forall p: u16 :: Open(p) <==> old(Open(p)) && p != port
    {
      conns.LiveWithinSize();
      CloseConnections(port);
      Unregister(port);
      conns.LiveWithinSize();
    }

    /** map_delete of the port's handler. */
    method Unregister(port: u16)
      requires Valid()
      modifies handlers`size, handlers.slots, conns.clock
      ensures Valid() && Conns() == old(Conns())
      ensures forall p: u16 :: Open(p) <==> old(Open(p)) && p != port
    {
      ghost var s, h, start := conns.slots[..], handlers.slots[..], conns.clock.now;
      var hit, at := handlers.Delete(port);
      assert conns.slots[..] == s;
      ViewForever(s, start, conns.clock.now);
      ViewForever(h, start, conns.clock.now);
    }

    /** The walk: map_foreach with a callback that deletes. */
    method CloseConnections(port: u16)
      requires Valid()
      modifies conns`size, conns.slots, conns.clock
      ensures Valid() && (forall p: u16 :: Open(p) <==> old(Open(p)))
      ensures Conns() == (map k | k in old(Conns()) && k.hostPort != port :: old(Conns())[k])
    {
      ghost var base := Conns();
      var i := 0;
      while i < conns.slots.Length
        invariant i <= conns.slots.Length && Valid() && (forall p: u16 :: Open(p) <==> old(Open(p)))
        invariant Thinned(base, Conns(), port)
        invariant Swept(conns.slots[..], conns.clock.now, i, port)
      {
        Visit(i, port, base);
        i := i + 1;
      }
      NoneLeft(base, conns.slots[..], conns.clock.now, port);
    }

    /** One slot of the walk. */
    method Visit(i: nat, port: u16, ghost base: map<TcpKey, Conn>)
      requires Valid() && i < conns.slots.Length && Thinned(base, Conns(), port)
      requires Swept(conns.slots[..], conns.clock.now, i, port)
      modifies conns`size, conns.slots, conns.clock
      ensures Valid() && (forall p: u16 :: Open(p) <==> old(Open(p)))
      ensures Thinned(base, Conns(), port) && Swept(conns.slots[..], conns.clock.now, i + 1, port)
    {
      ghost var s, start := conns.slots[..], conns.clock.now;
      var t := conns.clock.Time();
      ClockMoved();
      var entry := conns.slots[i];
      assert entry == s[i];
      if LiveSlot(entry, 0, t) && entry.key.hostPort == port {
        ThinnedOne(base, Conns(), entry.key);
        Forget(i, entry.key);
      }
      SweptOne(s, start, conns.clock.now, i, port);
    }
  }

  /** now is base less some connections of the port. */
  ghost predicate Thinned(base: map<TcpKey, Conn>, now: map<TcpKey, Conn>, port: u16) {
    && (forall k | k in now :: k in base && now[k] == base[k])
    && (forall k | k in base && k.hostPort != port :: k in now)
  }

  /** No connection of the port is left in the first n slots. */
  ghost predicate Swept(s: seq<Slot<TcpKey, Conn>>, t: nat, n: nat, port: u16) {
    n <= |s| && forall j | 0 <= j < n && LiveSlot(s[j], 0, t) :: s[j].key.hostPort != port
  }

  lemma SweptOne(s: seq<Slot<TcpKey, Conn>>, t: nat, u: nat, n: nat, port: u16)
    requires n < |s| && Swept(s, t, n, port)
    ensures LiveSlot(s[n], 0, u) && s[n].key.hostPort == port ==> Swept(s[n := s[n].(stamp := 0)], u, n + 1, port)
    ensures !(LiveSlot(s[n], 0, u) && s[n].key.hostPort == port) ==> Swept(s, u, n + 1, port)
  {
  }

  lemma ThinnedOne(base: map<TcpKey, Conn>, now: map<TcpKey, Conn>, key: TcpKey)
    requires Thinned(base, now, key.hostPort)
    ensures Thinned(base, now - {key}, key.hostPort)
  {
  }

  lemma NoneLeft(base: map<TcpKey, Conn>, s: seq<Slot<TcpKey, Conn>>, t: nat, port: u16)
    requires Thinned(base, View(s, 0, t), port) && Swept(s, t, |s|, port)
    ensures View(s, 0, t) == map k | k in base && k.hostPort != port :: base[k]
  {
    forall k | k in View(s, 0, t)
      ensures k.hostPort != port
    {
      var j := IndexOf(s, 0, t, k);
    }
  }

  function KeyOf(src: Ip, t: TcpMessage): TcpKey { TcpKey(src, t.srcPort, t.dstPort) }

  method Verify(buf: Buf, src: Ip, ifIp: Ip) returns (t: Option<TcpMessage>)
    requires buf.Valid() && PSEUDO_HDR_LEN <= buf.data && buf.len <= 0xFFFF
    modifies buf, buf.payload
    ensures buf.Valid() && t == ParseTcp(src, ifIp, old(buf.Contents()))
  {
    if buf.len < TCP_HDR_LEN {
      return None;
    }
    var stored, c := Recompute(PROTOCOL_TCP, buf, TCP_CHECKSUM_AT, src, ifIp);
    if c != stored {
      return None;
    }
    return Some(TcpFields(buf.payload[buf.data..buf.data + buf.len]));
  }

  ghost function After(base: map<TcpKey, Conn>, key: TcpKey, c: Conn, closed: bool): map<TcpKey, Conn> {
    if closed then base - {key} else base[key := c]
  }

  function ConnAt(table: map<TcpKey, Conn>, key: TcpKey): Conn {
    if key in table then table[key] else FRESH_CONN
  }

  lemma AfterTwice(base: map<TcpKey, Conn>, key: TcpKey, a: Conn, b: Conn)
    ensures base[key := a][key := b] == base[key := b]
  {
  }

  lemma DroppedTwice(base: map<TcpKey, Conn>, key: TcpKey, c: Conn, log: seq<Outgoing>)
    ensures base[key := c] - {key} == base - {key} && log + Addressed(key, []) == log
  {
  }

  lemma AfterSame(base: map<TcpKey, Conn>, key: TcpKey)
    requires key in base
    ensures base[key := base[key]] == base
  {
  }

  lemma HeadWritten(s: seq<byte>, o: Outgoing)
    requires TCP_HDR_LEN <= |s| && s[TCP_HDR_LEN..] == o.segment.payload
    ensures TcpHead(o) + s[TCP_HDR_LEN - 2..] == UnsealedTcp(o, GetLe16(s, TCP_HDR_LEN - 2)) + o.segment.payload
  {
    assert s[TCP_HDR_LEN - 2..] == s[TCP_HDR_LEN - 2..TCP_HDR_LEN] + o.segment.payload;
    assert s[TCP_HDR_LEN - 2..TCP_HDR_LEN] == Le16(GetLe16(s, TCP_HDR_LEN - 2));
  }

  method FillSegment(buf: Buf, src: Ip, key: TcpKey, seqNo: u32, ackNo: u32, flags: Flags)
    requires buf.Anchored() && buf.len <= 0xFFFF
    modifies buf, buf.payload
    ensures buf.Anchored()
    ensures var segment := Segment(seqNo, ackNo, flags, old(buf.Contents()));
            Encodes(buf.Contents(), src, Outgoing(key.remote, key.hostPort, key.remotePort, segment))
  {
    ghost var segment := Segment(seqNo, ackNo, flags, buf.Contents());
    ghost var o := Outgoing(key.remote, key.hostPort, key.remotePort, segment);
    var _ := buf.AddHeader(TCP_HDR_LEN);
    ghost var s := buf.Contents();
    var head := Be16(key.hostPort) + Be16(key.remotePort) + Be32(seqNo) + Be32(ackNo)
    + [0x50, FlagsByte(flags)] + Be16(0xFFFF) + [0, 0];
    WriteHead(buf, head, o, s);
    SealSegment(PROTOCOL_TCP, buf, TCP_CHECKSUM_AT, src, key.remote);
    assert buf.Contents() == TcpBytes(src, o, GetLe16(s, TCP_HDR_LEN - 2));
  }

  /** The header but for its checksum, in front of the payload. */
  method WriteHead(buf: Buf, head: seq<byte>, ghost o: Outgoing, ghost s: seq<byte>)
    requires buf.Anchored() && head == TcpHead(o) && buf.Contents() == s
    requires TCP_HDR_LEN <= |s| && s[TCP_HDR_LEN..] == o.segment.payload
    modifies buf.payload
    ensures buf.Contents() == UnsealedTcp(o, GetLe16(s, TCP_HDR_LEN - 2)) + o.segment.payload
  {
    buf.Write(0, head);
    HeadWritten(s, o);
    assert buf.Contents() == head + s[TCP_HDR_LEN - 2..];
  }
}
