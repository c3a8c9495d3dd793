/** The answers of tcp_in as bytes: what the packets given to ip_out carry, at the offsets of section 3.1 of
    RFC 9293. */
module TcpWire {
  import opened Bytes
  import opened Buffers
  import opened TimedMaps
  import opened Udp
  import opened TcpMachine
  import opened TcpAcks
  import opened TcpStream
  import opened TcpAnswers
  import opened Tcp
  import opened TcpTable
  import opened TcpTraffic
  import opened Layouts

  /** The packet is for the peer that sent t, carries these numbers and flags, and data if any. */
  predicate Says(p: ToIp, src: Ip, t: TcpMessage, seqNo: u32, ackNo: u32, flags: byte, data: seq<byte>) {
    && p.dst == src && |p.bytes| == 20 + |data| && Word16(p.bytes, 0) == t.dstPort && Word16(p.bytes, 2) == t.srcPort
    && Word32(p.bytes, 4) == seqNo && Word32(p.bytes, 8) == ackNo && p.bytes[13] == flags && p.bytes[20..] == data
  }

  /** The packets given to ip_out since the first n are those of the segments. */
  ghost predicate SaysAll(sent: seq<ToIp>, n: nat, src: Ip, t: TcpMessage, segments: seq<Segment>) {
    |sent| == n + |segments| &&
    forall i | 0 <= i < |segments| :: SaysOne(sent[n + i], src, t, segments[i])
  }

  predicate SaysOne(p: ToIp, src: Ip, t: TcpMessage, s: Segment) {
    Says(p, src, t, s.seqNo, s.ackNo, FlagBits(s.flags), s.payload)
  }

  lemma SentSays(sent: seq<ToIp>, log: seq<Outgoing>, ifIp: Ip, src: Ip, t: TcpMessage, segments: seq<Segment>,
                 before: seq<Outgoing>)
    requires Emits(sent, log, ifIp) && log == before + Addressed(Tcp.KeyOf(src, t), segments)
    ensures SaysAll(sent, |before|, src, t, segments)
  {
    var n := |before|;
    forall i | 0 <= i < |segments|
      ensures SaysOne(sent[n + i], src, t, segments[i])
    {
      assert log[n + i] == Addressed(Tcp.KeyOf(src, t), segments)[i];
      SegmentLayout(sent[n + i].bytes, ifIp, log[n + i]);
    }
  }

  lemma OneSays(sent: seq<ToIp>, n: nat, src: Ip, t: TcpMessage, s: Segment)
    requires SaysAll(sent, n, src, t, [s])
    ensures |sent| == n + 1 && SaysOne(sent[n], src, t, s)
  {
    assert SaysOne(sent[n + 0], src, t, [s][0]);
  }

  /** tcp_in of a packet that passes the checks, for a connection that is there or finds room. */
  method TakeStep(tcp: TcpLayer, bytes: Chunk, src: Ip, replies: seq<Chunk>, iss: u32, ghost t: TcpMessage,
                  ghost base: map<TcpKey, Conn>, ghost before: seq<Outgoing>, ghost e: Event)
    returns (handed: seq<byte>)
    requires tcp.Valid() && ParseTcp(src, tcp.ifIp, bytes) == Some(t) && base == tcp.Conns() && before == tcp.log
    requires Tcp.KeyOf(src, t) in base || tcp.conns.size < tcp.conns.slots.Length
    requires e == Event(t.message, tcp.Open(t.dstPort), replies, iss)
    modifies tcp`sent, tcp`log, tcp.conns`size, tcp.conns.slots, tcp.conns.clock
    ensures tcp.Valid()
    ensures tcp.Stepped(base, before, Tcp.KeyOf(src, t), StepOn(ConnAt(base, Tcp.KeyOf(src, t)), e), handed, false)
  {
    var buf := new Buf();
    Fill(buf, bytes);
    var fault;
    handed, fault := tcp.TcpIn(buf, src, replies, iss);
  }

  /** The packets it sends are those of the step, and they alone are new. */
  method TakeAndAnswer(tcp: TcpLayer, bytes: Chunk, src: Ip, replies: seq<Chunk>, iss: u32, ghost t: TcpMessage,
                       ghost base: map<TcpKey, Conn>, ghost n: nat, ghost e: Event, ghost eff: Effect)
    returns (handed: seq<byte>)
    requires tcp.Valid() && ParseTcp(src, tcp.ifIp, bytes) == Some(t) && base == tcp.Conns() && n == |tcp.sent|
    requires Tcp.KeyOf(src, t) in base || tcp.conns.size < tcp.conns.slots.Length
    requires e == Event(t.message, tcp.Open(t.dstPort), replies, iss)
    requires eff == StepOn(ConnAt(base, Tcp.KeyOf(src, t)), e)
    modifies tcp`sent, tcp`log, tcp.conns`size, tcp.conns.slots, tcp.conns.clock
    ensures tcp.Valid() && handed == eff.handed
    ensures tcp.Conns() == After(base, Tcp.KeyOf(src, t), eff.conn, eff.closed)
    ensures SaysAll(tcp.sent, n, src, t, eff.sent)
  {
    ghost var before := tcp.log;
    handed := TakeStep(tcp, bytes, src, replies, iss, t, base, before, e);
    SentSays(tcp.sent, tcp.log, tcp.ifIp, src, t, eff.sent, before);
  }

  /** Some packet since the first n is for the peer that sent t, with the ACK bit set and this acknowledgement. */
  predicate Acknowledged(sent: seq<ToIp>, n: nat, src: Ip, t: TcpMessage, ackNo: int) {
    exists i | n <= i < |sent| ::
      && sent[i].dst == src && |sent[i].bytes| >= 20 && (sent[i].bytes[13] / 0x10) % 2 == 1
      && Word16(sent[i].bytes, 0) == t.dstPort && Word16(sent[i].bytes, 2) == t.srcPort
      && Word32(sent[i].bytes, 8) == ackNo
  }

  lemma FirstAcknowledges(sent: seq<ToIp>, n: nat, src: Ip, t: TcpMessage, segments: seq<Segment>)
    requires SaysAll(sent, n, src, t, segments) && |segments| > 0 && segments[0].flags.ack
    ensures Acknowledged(sent, n, src, t, segments[0].ackNo)
  {
    AckBit(segments[0].flags);
    assert SaysOne(sent[n + 0], src, t, segments[0]);
    assert Word32(sent[n].bytes, 8) == segments[0].ackNo;
  }

  /** In-order data on an open port, with a clear flag, a FIN, or something for the handler to say: the handler gets
      it, and some packet to the peer has the ACK bit set and, in its acknowledgement field, the number of the data
      plus its length, and one more for a FIN. */
  method AnswerData(tcp: TcpLayer, bytes: Chunk, src: Ip, replies: seq<Chunk>, iss: u32, ghost t: TcpMessage,
                    ghost c: Conn, ghost ackNo: int) returns (handed: seq<byte>)
    requires tcp.Valid() && ParseTcp(src, tcp.ifIp, bytes) == Some(t)
    requires Tcp.KeyOf(src, t) in tcp.Conns() && c == tcp.Conns()[Tcp.KeyOf(src, t)]
    requires InOrderData(c, t.message) && !t.message.flags.syn && tcp.Open(t.dstPort)
    requires t.message.flags.fin || !c.notSendEmptyAck || SomeData(replies)
    requires ackNo == (t.message.seqNo + t.message.gap + if t.message.flags.fin then 1 else 0) % 0x1_0000_0000
    modifies tcp`sent, tcp`log, tcp.conns`size, tcp.conns.slots, tcp.conns.clock
    ensures tcp.Valid() && handed == t.message.payload
    ensures Acknowledged(tcp.sent, |old(tcp.sent)|, src, t, ackNo)
  {
    ghost var base, n, e := tcp.Conns(), |tcp.sent|, Event(t.message, true, replies, iss);
    ghost var eff := StepOn(c, e);
    DataIsAnswered(c, e, ackNo);
    handed := TakeAndAnswer(tcp, bytes, src, replies, iss, t, base, n, e, eff);
    FirstAcknowledges(tcp.sent, n, src, t, eff.sent);
  }

  lemma DataIsAnswered(c: Conn, e: Event, ackNo: int)
    requires InOrderData(c, e.message) && !e.message.flags.syn && e.registered
    requires e.message.flags.fin || !c.notSendEmptyAck || SomeData(e.replies)
    requires ackNo == (e.message.seqNo + e.message.gap + if e.message.flags.fin then 1 else 0) % 0x1_0000_0000
    ensures var (sent, handed) := (StepOn(c, e).sent, StepOn(c, e).handed);
            |sent| > 0 && sent[0].flags.ack && sent[0].ackNo == ackNo && handed == e.message.payload
  {
    AnsweredIff(c, e);
    var j := Judge(c, e.message, e.iss);
    AnswerKeeps(j.conn, j.flags, j.close, e.message, e.registered, e.replies);
  }

  lemma AckBit(f: Flags)
    ensures (FlagBits(f) / 0x10) % 2 == (if f.ack then 1 else 0)
  {
  }

  /** A segment out of order: one packet goes to the peer, a bare acknowledgement of what is still expected, and
      nothing else happens. */
  method AnswerOutOfOrder(tcp: TcpLayer, bytes: Chunk, src: Ip, replies: seq<Chunk>, iss: u32, ghost t: TcpMessage,
                          ghost base: map<TcpKey, Conn>, ghost n: nat) returns (handed: seq<byte>)
    requires tcp.Valid() && ParseTcp(src, tcp.ifIp, bytes) == Some(t) && base == tcp.Conns() && n == |tcp.sent|
    requires Tcp.KeyOf(src, t) in base && base[Tcp.KeyOf(src, t)].state == Established
    requires t.message.seqNo != base[Tcp.KeyOf(src, t)].ackNo && !t.message.flags.rst
    modifies tcp`sent, tcp`log, tcp.conns`size, tcp.conns.slots, tcp.conns.clock
    ensures tcp.Valid() && handed == [] && tcp.Conns() == base && |tcp.sent| == n + 1
    ensures Says(tcp.sent[n], src, t, base[Tcp.KeyOf(src, t)].seqNo, base[Tcp.KeyOf(src, t)].ackNo, 0x10, [])
  {
    ghost var c := base[Tcp.KeyOf(src, t)];
    ghost var e := Event(t.message, tcp.Open(t.dstPort), replies, iss);
    OutOfOrderIsAnswered(c, e);
    AfterSame(base, Tcp.KeyOf(src, t));
    handed := TakeAndAnswer(tcp, bytes, src, replies, iss, t, base, n, e, StepOn(c, e));
    OneSays(tcp.sent, n, src, t, Segment(c.seqNo, c.ackNo, ACK_ONLY, []));
  }

  /** A bare SYN for a new connection: one packet goes back, with SYN and ACK, the number drawn, and the SYN's number
      plus one. */
  method AnswerSyn(tcp: TcpLayer, bytes: Chunk, src: Ip, replies: seq<Chunk>, iss: u32, ghost t: TcpMessage,
                   ghost n: nat) returns (handed: seq<byte>)
    requires tcp.Valid() && ParseTcp(src, tcp.ifIp, bytes) == Some(t) && n == |tcp.sent|
    requires Tcp.KeyOf(src, t) !in tcp.Conns() && tcp.conns.size < tcp.conns.slots.Length
    requires t.message.flags.syn && !t.message.flags.rst && t.message.gap <= 0
    modifies tcp`sent, tcp`log, tcp.conns`size, tcp.conns.slots, tcp.conns.clock
    ensures tcp.Valid() && handed == [] && |tcp.sent| == n + 1
    ensures Says(tcp.sent[n], src, t, iss, (t.message.seqNo + 1) % 0x1_0000_0000, 0x12, [])
  {
    ghost var e := Event(t.message, tcp.Open(t.dstPort), replies, iss);
    SynIsAnswered(FRESH_CONN, e);
    handed := TakeAndAnswer(tcp, bytes, src, replies, iss, t, tcp.Conns(), n, e, StepOn(FRESH_CONN, e));
    OneSays(tcp.sent, n, src, t, Segment(iss, ToU32(t.message.seqNo + 1), SYN_ACK, []));
  }

  /** Every packet since the first n is for dst and acknowledges just this. */
  predicate AllAcknowledge(sent: seq<ToIp>, n: nat, dst: Ip, ackNo: u32) {
    n <= |sent| &&
    forall i | n <= i < |sent| ::
      sent[i].dst == dst && |sent[i].bytes| >= 20 && (sent[i].bytes[13] / 0x10) % 2 == 1 &&
      Word32(sent[i].bytes, 8) == ackNo
  }

  lemma AllSay(sent: seq<ToIp>, n: nat, src: Ip, t: TcpMessage, segments: seq<Segment>, ackNo: u32)
    requires SaysAll(sent, n, src, t, segments)
    requires forall i | 0 <= i < |segments| :: segments[i].flags.ack && segments[i].ackNo == ackNo
    ensures AllAcknowledge(sent, n, src, ackNo)
  {
    forall i | n <= i < |sent|
      ensures sent[i].dst == src && |sent[i].bytes| >= 20 && (sent[i].bytes[13] / 0x10) % 2 == 1
      ensures Word32(sent[i].bytes, 8) == ackNo
    {
      AckBit(segments[i - n].flags);
      assert SaysOne(sent[n + (i - n)], src, t, segments[i - n]);
    }
  }

  /** Over runs: among any other packets, whatever one peer's next packet is, every packet the layer sends because of
      it acknowledges on the wire exactly the bytes of the peer's stream delivered so far, and the FIN once it has
      been taken. */
  method AcknowledgeTruly(tcp: TcpLayer, packet: Packet, ghost open: set<u16>, ghost run: seq<Option<TableEvent>>,
                          ghost p: Peer, ghost t: TcpMessage, ghost e: Event, ghost l: Log)
    returns (handed: seq<byte>)
    requires OnlyPackets(run) && Reached(tcp, open, TableBefore(run, |run|), |run|)
    requires |run| < tcp.conns.slots.Length && ParseTcp(packet.src, tcp.ifIp, packet.bytes) == Some(t)
    requires e == Event(t.message, t.dstPort in open, packet.replies, packet.iss)
    requires IsPeer(p) && PeerTraffic(p, Own(run, Tcp.KeyOf(packet.src, t), |run|))
    requires l == RunLog(Own(run, Tcp.KeyOf(packet.src, t), |run|)) && PeerEvent(p, l.conn, e)
    modifies tcp`sent, tcp`log, tcp.conns`size, tcp.conns.slots, tcp.conns.clock
    ensures tcp.Valid() && handed == StepOn(l.conn, e).handed
    ensures AllAcknowledge(tcp.sent, |old(tcp.sent)|, packet.src,
                           Owed(p, StepOn(l.conn, e).conn, Delivered(l, StepOn(l.conn, e))))
  {
    ghost var key, n, eff := Tcp.KeyOf(packet.src, t), |tcp.sent|, StepOn(l.conn, e);
    ConnOfOwn(run, key, |run|);
    AllTrue(p, Own(run, key, |run|), e);
    tcp.conns.LiveWithinSize();
    handed := TakeAndAnswer(tcp, packet.bytes, packet.src, packet.replies, packet.iss, t, tcp.Conns(), n, e, eff);
    AllSay(tcp.sent, n, packet.src, t, eff.sent, Owed(p, eff.conn, Delivered(l, eff)));
  }

  lemma {:induction false} AllTrue(p: Peer, events: seq<Event>, e: Event)
    requires IsPeer(p) && PeerTraffic(p, events) && PeerEvent(p, RunLog(events).conn, e)
    ensures var l := RunLog(events);
            var eff := StepOn(l.conn, e);
            forall i | 0 <= i < |eff.sent| ::
              eff.sent[i].flags.ack && eff.sent[i].ackNo == Owed(p, eff.conn, Delivered(l, eff))
  {
    var sent := StepOn(RunLog(events).conn, e).sent;
    forall i | 0 <= i < |sent|
      ensures var l := RunLog(events);
              var eff := StepOn(l.conn, e);
              eff.sent[i].flags.ack && eff.sent[i].ackNo == Owed(p, eff.conn, Delivered(l, eff))
    {
      AcksAreTrue(p, events, e, i);
    }
  }
}
