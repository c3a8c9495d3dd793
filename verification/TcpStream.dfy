/** Reliable delivery: what a connection makes of one peer's byte stream under loss,
    reordering and duplication, and which bytes its handler gets to see. */
module TcpStream {
  import opened Bytes
  import opened TcpMachine
  import opened TcpRuns

  /** A peer's stream, and the number its SYN carries.  The k-th byte has number irs + 1 + k. */
  datatype Peer = Peer(irs: u32, stream: seq<byte>)

  predicate IsPeer(p: Peer) { |p.stream| < 0x1_0000_0000 }

  /** m carries the peer's bytes from position k on, and its FIN only behind the last of them. */
  predicate DataAt(p: Peer, m: Incoming, k: nat) {
    && k + |m.payload| <= |p.stream| && m.payload == p.stream[k..k + |m.payload|]
    && m.seqNo == ToU32(p.irs + 1 + k)
    && (m.flags.fin ==> k + |m.payload| == |p.stream|)
  }

  /** A segment the peer may send, first time or again: a reset, its SYN with or without data, data, a bare
      acknowledgement before its FIN or one after it. */
  ghost predicate FromPeer(p: Peer, m: Incoming) {
    || m.flags.rst
    || (m.gap == |m.payload| &&
        if m.flags.syn then m.seqNo == p.irs && m.payload <= p.stream && (m.flags.fin ==> m.payload == p.stream)
        else || (exists k: nat :: DataAt(p, m, k))
             || (m.seqNo == ToU32(p.irs + 2 + |p.stream|) && m.payload == [] && !m.flags.fin))
  }

  // ----- Runs through all the lives of a connection

  /** A connection; the bytes its handler was given in ESTABLISHED, in its present life and in each life that
      has ended; and all the bytes its handler was ever given. */
  datatype Log = Log(conn: Conn, delivered: seq<byte>, ended: seq<seq<byte>>, handed: seq<byte>)

  const NEW_LOG: Log := Log(FRESH_CONN, [], [], [])

  function Delivered(l: Log, eff: Effect): seq<byte> {
    if l.conn.state == Established then l.delivered + eff.handed else l.delivered
  }

  /** A segment after the close meets a connection made anew. */
  function Record(l: Log, e: Event): Log {
    var eff := StepOn(l.conn, e);
    if eff.closed then Log(FRESH_CONN, [], l.ended + [Delivered(l, eff)], l.handed + eff.handed)
    else Log(eff.conn, Delivered(l, eff), l.ended, l.handed + eff.handed)
  }

  function RunLog(events: seq<Event>): Log {
    if |events| == 0 then NEW_LOG else Record(RunLog(events[..|events| - 1]), events[|events| - 1])
  }

  /** Any loss, reordering and duplication of the peer's segments, with a handler on the port.  A SYN repeated
      in ESTABLISHED is no trouble unless the stream is one byte short of all the numbers there are. */
  ghost predicate PeerTraffic(p: Peer, events: seq<Event>) {
    |events| > 0 ==>
      var before := events[..|events| - 1];
      PeerTraffic(p, before) && PeerEvent(p, RunLog(before).conn, events[|events| - 1])
  }

  ghost predicate PeerEvent(p: Peer, c: Conn, e: Event) {
    && FromPeer(p, e.message) && e.registered
    && (e.message.flags.syn && c.state == Established ==> |p.stream| < 0xFFFF_FFFF)
  }

  // ----- Delivery in ESTABLISHED

  /** d is a prefix of the stream, and ack stands just past it. */
  ghost predicate Standing(p: Peer, c: Conn, d: seq<byte>) {
    && Reachable(c.state)
    && d <= p.stream
    && match c.state {
         case Listen => d == []
         case SynReceived => d == [] && c.ackNo == ToU32(p.irs + 1)
         case Established => c.ackNo == ToU32(p.irs + 1 + |d|)
         case _ => d == p.stream && c.ackNo == ToU32(p.irs + 1 + |p.stream| + 1)
       }
  }

  /** So it is in the present life, and each life that has ended delivered a prefix too. */
  ghost predicate InOrder(p: Peer, l: Log) {
    Standing(p, l.conn, l.delivered) && forall i | 0 <= i < |l.ended| :: l.ended[i] <= p.stream
  }

  /** In ESTABLISHED a segment with the expected number is the one with the next bytes. */
  lemma NextBytes(p: Peer, c: Conn, d: seq<byte>, m: Incoming)
    requires IsPeer(p) && Standing(p, c, d) && c.state == Established && FromPeer(p, m) && !m.flags.rst
    requires m.flags.syn ==> |p.stream| < 0xFFFF_FFFF
    requires m.seqNo == c.ackNo
    ensures !m.flags.syn && d + m.payload <= p.stream
    ensures m.flags.fin ==> d + m.payload == p.stream
  {
    if m.flags.syn {
      ToU32Injective(p.irs + 1 + |d|, p.irs + 0x1_0000_0000);
    } else if k: nat :| DataAt(p, m, k) {
      ToU32Injective(p.irs + 1 + k, p.irs + 1 + |d|);
      assert k == |d|;
    }
  }

  /** What one segment must leave behind. */
  ghost predicate StaysInOrder(p: Peer, c: Conn, d: seq<byte>, e: Event) {
    var eff := StepOn(c, e);
    var after := if c.state == Established then d + eff.handed else d;
    after <= p.stream && (!eff.closed ==> Standing(p, eff.conn, after))
  }

  lemma InListen(p: Peer, c: Conn, d: seq<byte>, e: Event)
    requires Standing(p, c, d) && PeerEvent(p, c, e) && c.state == Listen && !e.message.flags.rst
    ensures StaysInOrder(p, c, d, e)
  {
    match Judge(c, e.message, e.iss)
    case Go(c1, flags, close) =>
      AnswerKeeps(c1, flags, close, e.message, e.registered, e.replies);
      ToU32Sum(p.irs, 1);
    case _ =>
  }

  lemma InSynReceived(p: Peer, c: Conn, d: seq<byte>, e: Event)
    requires Standing(p, c, d) && c.state == SynReceived && !e.message.flags.rst
    ensures StaysInOrder(p, c, d, e)
  {
    match Judge(c, e.message, e.iss)
    case Go(c1, flags, close) => AnswerKeeps(c1, flags, close, e.message, e.registered, e.replies);
    case _ =>
  }

  lemma InEstablished(p: Peer, c: Conn, d: seq<byte>, e: Event)
    requires IsPeer(p) && Standing(p, c, d) && PeerEvent(p, c, e) && c.state == Established && !e.message.flags.rst
    ensures StaysInOrder(p, c, d, e)
  {
    if e.message.seqNo == c.ackNo {
      TakesNext(p, c, d, e);
    }
  }

  lemma TakesNext(p: Peer, c: Conn, d: seq<byte>, e: Event)
    requires IsPeer(p) && Standing(p, c, d) && PeerEvent(p, c, e) && c.state == Established && !e.message.flags.rst
    requires e.message.seqNo == c.ackNo
    ensures StaysInOrder(p, c, d, e)
  {
    NextBytes(p, c, d, e.message);
    ToU32Sum(p.irs + 1 + |d|, BytesInFlight(e.message.gap, e.message.flags));
    StepOnNext(c, e);
    assert StepOn(c, e).handed == e.message.payload;
    assert |d + e.message.payload| == |d| + e.message.gap;
  }

  /** A segment with the expected number is taken in. */
  lemma StepOnNext(c: Conn, e: Event)
    requires c.state == Established && e.message.seqNo == c.ackNo && !e.message.flags.rst && e.registered
    ensures var (eff, m) := (StepOn(c, e), e.message);
            && !eff.closed && eff.handed == (if m.gap > 0 then m.payload else [])
            && eff.conn.ackNo == ToU32(c.ackNo + BytesInFlight(m.gap, m.flags))
            && eff.conn.state == if m.flags.fin then LastAck else Established
  {
    var j := Judge(c, e.message, e.iss);
    AnswerKeeps(j.conn, j.flags, j.close, e.message, e.registered, e.replies);
  }

  lemma InLastAck(p: Peer, c: Conn, d: seq<byte>, e: Event)
    requires Standing(p, c, d) && c.state == LastAck && !e.message.flags.rst
    ensures StaysInOrder(p, c, d, e)
  {
    match Judge(c, e.message, e.iss)
    case Go(c1, flags, close) => AnswerKeeps(c1, flags, close, e.message, e.registered, e.replies);
    case _ =>
  }

  lemma StepInOrder(p: Peer, c: Conn, d: seq<byte>, e: Event)
    requires IsPeer(p) && Standing(p, c, d) && PeerEvent(p, c, e)
    ensures StaysInOrder(p, c, d, e)
  {
    if !e.message.flags.rst {
      match c.state
      case Listen => InListen(p, c, d, e);
      case SynReceived => InSynReceived(p, c, d, e);
      case Established => InEstablished(p, c, d, e);
      case _ => InLastAck(p, c, d, e);
    }
  }

  /** For any loss, reordering and duplication, resets included, the bytes delivered by segments processed in
      ESTABLISHED are at every moment, in every life of the connection, a prefix of the peer's stream, and ack is
      irs + 1 plus their number (plus 1 once the FIN has been taken, and then they are the whole stream). */
  lemma {:induction false} DeliveredIsPrefix(p: Peer, events: seq<Event>)
    requires IsPeer(p) && PeerTraffic(p, events)
    ensures InOrder(p, RunLog(events))
  {
    if |events| > 0 {
      var before := events[..|events| - 1];
      DeliveredIsPrefix(p, before);
      var l := RunLog(before);
      StepInOrder(p, l.conn, l.delivered, events[|events| - 1]);
    }
  }

  // ----- What the handler sees

  /** Data that tcp_in passes up outside ESTABLISHED, where ack does not move for it: with the SYN, with the
      acknowledgement that ends the handshake, or with one that arrives after the FIN. */
  predicate Stray(c: Conn, e: Event) {
    && e.message.payload != [] && !e.message.flags.rst
    && (|| (c.state == Listen && e.message.flags.syn)
        || ((c.state == SynReceived || c.state == LastAck) && e.message.flags.ack))
  }

  /** How many such bytes a run passes up. */
  function StrayBytes(events: seq<Event>): nat {
    if |events| == 0 then 0
    else
      var before, e := events[..|events| - 1], events[|events| - 1];
      StrayBytes(before) + (if Stray(RunLog(before).conn, e) then |e.message.payload| else 0)
  }

  function Flatten(parts: seq<seq<byte>>): seq<byte> {
    if |parts| == 0 then [] else Flatten(parts[..|parts| - 1]) + parts[|parts| - 1]
  }

  /** Everything acknowledged as data, life after life. */
  function Acknowledged(l: Log): seq<byte> { Flatten(l.ended) + l.delivered }

  lemma HandedOutside(p: Peer, c: Conn, e: Event)
    requires Reachable(c.state) && PeerEvent(p, c, e) && c.state != Established
    ensures StepOn(c, e).handed == if Stray(c, e) then e.message.payload else []
  {
    if !e.message.flags.rst {
      match Judge(c, e.message, e.iss)
      case Go(c1, flags, close) => AnswerKeeps(c1, flags, close, e.message, e.registered, e.replies);
      case _ =>
    }
  }

  lemma RecordAcknowledges(l: Log, e: Event)
    ensures Acknowledged(Record(l, e)) ==
            Acknowledged(l) + (if l.conn.state == Established then StepOn(l.conn, e).handed else [])
  {
    var d := Delivered(l, StepOn(l.conn, e));
    assert (l.ended + [d])[..|l.ended|] == l.ended;
  }

  /** Over all lives, the handler is given exactly the bytes acknowledged, in order, iff no stray data was
      passed up; otherwise it is given more, by just as many bytes as strayed. */
  lemma {:induction false} HandedIffNoStray(p: Peer, events: seq<Event>)
    requires IsPeer(p) && PeerTraffic(p, events)
    ensures RunLog(events).handed == Acknowledged(RunLog(events)) <==> StrayBytes(events) == 0
    ensures |RunLog(events).handed| == |Acknowledged(RunLog(events))| + StrayBytes(events)
  {
    if |events| > 0 {
      var before, e := events[..|events| - 1], events[|events| - 1];
      HandedIffNoStray(p, before);
      DeliveredIsPrefix(p, before);
      var l := RunLog(before);
      RecordAcknowledges(l, e);
      if l.conn.state != Established {
        HandedOutside(p, l.conn, e);
      }
    }
  }

  // ----- Runs that hand data over more than once

  /** A handler that never answers, on an open port. */
  function Quiet(m: Incoming): Event { Event(m, true, [], 0) }

  lemma {:induction false} RunSnoc(p: Peer, events: seq<Event>, e: Event)
    ensures RunLog(events + [e]) == Record(RunLog(events), e)
    ensures PeerTraffic(p, events + [e]) <==> PeerTraffic(p, events) && PeerEvent(p, RunLog(events).conn, e)
  {
    assert (events + [e])[..|events|] == events;
  }

  /** The SYN, bare or with the whole stream behind it. */
  function SynOf(p: Peer, data: bool): Event {
    var payload := if data then p.stream else [];
    Quiet(Incoming(p.irs, Flags(false, true, false, false), |payload|, payload))
  }

  /** The acknowledgement of the handshake, bare or with the whole stream, and then with or without the FIN. */
  function AckOf(p: Peer): Event { Quiet(Incoming(ToU32(p.irs + 1), ACK_ONLY, 0, [])) }

  function AllOf(p: Peer, fin: bool): Event {
    Quiet(Incoming(ToU32(p.irs + 1), Flags(fin, false, false, true), |p.stream|, p.stream))
  }

  /** The acknowledgement behind the FIN. */
  function LastOf(p: Peer): Event { Quiet(Incoming(ToU32(p.irs + 2 + |p.stream|), ACK_ONLY, 0, [])) }

  function OpenConn(p: Peer, state: State): Conn { Conn(state, false, 1, ToU32(p.irs + 1)) }

  lemma PeerSends(p: Peer, data: bool)
    ensures FromPeer(p, SynOf(p, data).message) && FromPeer(p, AckOf(p).message)
    ensures FromPeer(p, AllOf(p, data).message) && FromPeer(p, LastOf(p).message)
  {
    assert DataAt(p, AckOf(p).message, 0);
    assert DataAt(p, AllOf(p, data).message, 0);
  }

  function Plus(handed: seq<byte>, p: Peer, data: bool): seq<byte> {
    if data then handed + p.stream else handed
  }

  /** No connection is left, or was there yet. */
  ghost predicate Idle(p: Peer, events: seq<Event>) {
    PeerTraffic(p, events) && RunLog(events).conn == FRESH_CONN && RunLog(events).delivered == []
  }

  lemma {:induction false} SynArrives(p: Peer, events: seq<Event>, data: bool)
    requires Idle(p, events)
    ensures var before := RunLog(events);
            && PeerTraffic(p, events + [SynOf(p, data)])
            && RunLog(events + [SynOf(p, data)]) ==
               Log(OpenConn(p, SynReceived), [], before.ended, Plus(before.handed, p, data))
  {
    PeerSends(p, data);
    RunSnoc(p, events, SynOf(p, data));
    SynStep(p, data);
  }

  lemma SynStep(p: Peer, data: bool)
    ensures var eff := StepOn(FRESH_CONN, SynOf(p, data));
            eff == Effect(OpenConn(p, SynReceived), false, eff.sent, SynOf(p, data).message.payload)
  {
  }

  lemma {:induction false} AckArrives(p: Peer, events: seq<Event>, data: bool)
    requires PeerTraffic(p, events) && RunLog(events).conn == OpenConn(p, SynReceived) && RunLog(events).delivered == []
    ensures var before := RunLog(events);
            var after := events + [if data then AllOf(p, false) else AckOf(p)];
            && PeerTraffic(p, after)
            && RunLog(after) == Log(OpenConn(p, Established), [], before.ended, Plus(before.handed, p, data))
  {
    PeerSends(p, false);
    var ack := if data then AllOf(p, false) else AckOf(p);
    RunSnoc(p, events, ack);
    assert StepOn(OpenConn(p, SynReceived), ack) == Effect(OpenConn(p, Established), false, [], ack.message.payload);
  }

  lemma {:induction false} AllArrives(p: Peer, events: seq<Event>, fin: bool)
    requires p.stream != []
    requires PeerTraffic(p, events) && RunLog(events).delivered == [] && RunLog(events).conn == OpenConn(p, Established)
    ensures var (before, after) := (RunLog(events), RunLog(events + [AllOf(p, fin)]));
            && PeerTraffic(p, events + [AllOf(p, fin)])
            && after.handed == before.handed + p.stream && after.delivered == p.stream && after.ended == before.ended
            && (fin ==> after.conn.state == LastAck)
  {
    PeerSends(p, fin);
    RunSnoc(p, events, AllOf(p, fin));
    EstablishedStep(OpenConn(p, Established), AllOf(p, fin));
  }

  lemma EstablishedStep(c: Conn, e: Event)
    requires c.state == Established && e.message.seqNo == c.ackNo && e.registered && e.replies == []
    requires !e.message.flags.rst && e.message.gap > 0
    ensures StepOn(c, e).handed == e.message.payload && !StepOn(c, e).closed
    ensures e.message.flags.fin ==> StepOn(c, e).conn.state == LastAck
  {
  }

  /** The acknowledgement behind the FIN, or the FIN's own segment once more, ends the life; what it carries is
      handed over. */
  lemma {:induction false} LifeEnds(p: Peer, events: seq<Event>, data: bool)
    requires PeerTraffic(p, events) && RunLog(events).conn.state == LastAck
    ensures var before := RunLog(events);
            var after := events + [if data then AllOf(p, true) else LastOf(p)];
            && PeerTraffic(p, after)
            && RunLog(after) == Log(FRESH_CONN, [], before.ended + [before.delivered], Plus(before.handed, p, data))
  {
    PeerSends(p, true);
    var last := if data then AllOf(p, true) else LastOf(p);
    RunSnoc(p, events, last);
    assert StepOn(RunLog(events).conn, last).handed == last.message.payload;
  }

  /** A peer that puts its data on the SYN, and sends it again because ack does not move, has it handed over
      twice. */
  lemma {:induction false} DataOnSynIsHandedTwice(p: Peer, events: seq<Event>)
    requires p.stream != [] && Idle(p, events)
    ensures var after := events + [SynOf(p, true)] + [AckOf(p)] + [AllOf(p, false)];
            PeerTraffic(p, after) && RunLog(after).handed == RunLog(events).handed + p.stream + p.stream
  {
    SynArrives(p, events, true);
    AckArrives(p, events + [SynOf(p, true)], false);
    AllArrives(p, events + [SynOf(p, true)] + [AckOf(p)], false);
  }

  /** The same with its data on the acknowledgement that ends the handshake. */
  lemma {:induction false} DataOnHandshakeAckIsHandedTwice(p: Peer, events: seq<Event>)
    requires p.stream != [] && Idle(p, events)
    ensures var after := events + [SynOf(p, false)] + [AllOf(p, false)] + [AllOf(p, false)];
            PeerTraffic(p, after) && RunLog(after).handed == RunLog(events).handed + p.stream + p.stream
  {
    SynArrives(p, events, false);
    AckArrives(p, events + [SynOf(p, false)], true);
    AllArrives(p, events + [SynOf(p, false)] + [AllOf(p, false)], false);
  }

  /** A handshake, the whole stream and the FIN. */
  function Sent(p: Peer, events: seq<Event>): seq<Event> {
    events + [SynOf(p, false)] + [AckOf(p)] + [AllOf(p, true)]
  }

  lemma {:induction false} SentInOrder(p: Peer, events: seq<Event>)
    requires p.stream != [] && Idle(p, events)
    ensures var (before, after) := (RunLog(events), RunLog(Sent(p, events)));
            && PeerTraffic(p, Sent(p, events)) && after.conn.state == LastAck
            && after.delivered == p.stream && after.ended == before.ended && after.handed == before.handed + p.stream
  {
    SynArrives(p, events, false);
    AckArrives(p, events + [SynOf(p, false)], false);
    AllArrives(p, events + [SynOf(p, false)] + [AckOf(p)], true);
  }

  /** The same after the FIN: its segment, repeated, closes the connection and is handed over again. */
  lemma {:induction false} RepeatedFinIsHandedTwice(p: Peer, events: seq<Event>)
    requires p.stream != [] && Idle(p, events)
    ensures var after := Sent(p, events) + [AllOf(p, true)];
            && PeerTraffic(p, after)
            && RunLog(after).handed == RunLog(events).handed + p.stream + p.stream
            && RunLog(after).ended == RunLog(events).ended + [p.stream]
  {
    SentInOrder(p, events);
    LifeEnds(p, Sent(p, events), true);
  }

  /** One whole life of a connection, n times over. */
  function Lives(p: Peer, n: nat): seq<Event> {
    if n == 0 then [] else Sent(p, Lives(p, n - 1)) + [LastOf(p)]
  }

  function Times(p: Peer, n: nat): seq<byte> {
    if n == 0 then [] else Times(p, n - 1) + p.stream
  }

  /** Everything has been handed over, and acknowledged, n times. */
  ghost predicate Replayed(p: Peer, events: seq<Event>, n: nat) {
    Idle(p, events) && RunLog(events).handed == Times(p, n) && Flatten(RunLog(events).ended) == Times(p, n)
  }

  lemma {:induction false} ReplayOnce(p: Peer, events: seq<Event>, n: nat)
    requires p.stream != [] && Replayed(p, events, n)
    ensures Replayed(p, Sent(p, events) + [LastOf(p)], n + 1)
  {
    SentInOrder(p, events);
    LifeEnds(p, Sent(p, events), false);
    FlattenSnoc(RunLog(events).ended, p.stream);
  }

  lemma {:induction false} FlattenSnoc(parts: seq<seq<byte>>, part: seq<byte>)
    ensures Flatten(parts + [part]) == Flatten(parts) + part
  {
    assert (parts + [part])[..|parts|] == parts;
  }

  /** Nothing tells old duplicates from a new connection: replayed n times, the segments of one connection open
      n of them, and the handler is given the whole stream n times, though no data ever strays. */
  lemma {:induction false} ReplayedLivesAreHandedAgain(p: Peer, n: nat)
    requires p.stream != []
    ensures Replayed(p, Lives(p, n), n)
  {
    if n > 0 {
      ReplayedLivesAreHandedAgain(p, n - 1);
      ReplayOnce(p, Lives(p, n - 1), n - 1);
    }
  }
}
