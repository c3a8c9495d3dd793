/** What a connection says to each segment, state by state, and that it acknowledges, in every run, just what it
    has delivered (sections 3.4 and 3.10.7 of RFC 9293). */
module TcpAnswers {
  import opened Bytes
  import opened TcpMachine
  import opened TcpAcks
  import opened TcpRuns
  import opened TcpStream

  const SYN_ACK: Flags := Flags(false, true, false, true)
  const FIN_ACK: Flags := Flags(true, false, false, true)

  // ----- Segment by segment

  /** A segment out of order is answered at once with a bare acknowledgement of what is still expected, and changes
      nothing. */
  lemma OutOfOrderIsAnswered(c: Conn, e: Event)
    requires c.state == Established && e.message.seqNo != c.ackNo && !e.message.flags.rst
    ensures StepOn(c, e) == Effect(c, false, [Segment(c.seqNo, c.ackNo, ACK_ONLY, [])], [])
  {
  }

  /** A reset removes the connection without a word, in any state. */
  lemma ResetIsSilent(c: Conn, e: Event)
    requires e.message.flags.rst
    ensures StepOn(c, e).closed && StepOn(c, e).sent == [] && StepOn(c, e).handed == []
  {
  }

  /** Before and after the exchange of data, a segment without the flag that is waited for comes to nothing. */
  lemma OthersAreIgnored(c: Conn, e: Event)
    requires !e.message.flags.rst
    requires || (c.state == Listen && !e.message.flags.syn)
             || ((c.state == SynReceived || c.state == LastAck) && !e.message.flags.ack)
    ensures StepOn(c, e) == Effect(c, false, [], [])
  {
  }

  /** A bare SYN to a listening port is answered with SYN and ACK, its number drawn and the SYN's number
      acknowledged, handler or not. */
  lemma SynIsAnswered(c: Conn, e: Event)
    requires c.state == Listen && e.message.flags.syn && !e.message.flags.rst && e.message.gap <= 0
    ensures var ackNo := ToU32(e.message.seqNo + 1);
            && StepOn(c, e).sent == [Segment(e.iss, ackNo, SYN_ACK, [])] && !StepOn(c, e).closed
            && StepOn(c, e).handed == []
            && StepOn(c, e).conn == Conn(SynReceived, c.notSendEmptyAck, ToU32(e.iss + 1), ackNo)
  {
  }

  /** The acknowledgement that ends the handshake is not answered itself. */
  lemma HandshakeEndsSilently(c: Conn, e: Event)
    requires c.state == SynReceived && e.message.flags.ack && !e.message.flags.rst && e.message.gap <= 0
    ensures StepOn(c, e) == Effect(c.(state := Established), false, [], [])
  {
  }

  /** A bare acknowledgement of the present number says nothing new. */
  lemma BareAckIsSilent(c: Conn, e: Event)
    requires c.state == Established && e.message.seqNo == c.ackNo && e.message.gap == 0
    requires !e.message.flags.rst && !e.message.flags.fin && !e.message.flags.syn
    ensures StepOn(c, e) == Effect(c, false, [], [])
  {
  }

  /** A FIN in order is answered, and last of all with FIN and ACK, its number acknowledged, unless it brings data
      for a port without a handler; then nothing is said, though the number has been taken. */
  lemma FinIsAnswered(c: Conn, e: Event)
    requires c.state == Established && e.message.seqNo == c.ackNo && e.message.flags.fin && !e.message.flags.rst
    ensures var (eff, ackNo) := (StepOn(c, e), AckAfter(c, e.message));
            && eff.conn.state == LastAck && eff.conn.ackNo == ackNo && !eff.closed
            && if e.message.gap > 0 && !e.registered then eff.sent == []
               else |eff.sent| > 0 && eff.sent[|eff.sent| - 1].flags == FIN_ACK &&
                    eff.sent[|eff.sent| - 1].ackNo == ackNo && eff.sent[|eff.sent| - 1].payload == []
  {
    var m := e.message;
    var j := Judge(c, m, e.iss);
    AnswerKeeps(j.conn, j.flags, j.close, m, e.registered, e.replies);
    SendAllKeeps(j.conn, if m.gap > 0 then e.replies else []);
  }

  /** The acknowledgement of the FIN ends the connection, and is not answered. */
  lemma LastAckCloses(c: Conn, e: Event)
    requires c.state == LastAck && e.message.flags.ack && !e.message.flags.rst && e.message.gap <= 0
    ensures StepOn(c, e) == Effect(c, true, [], [])
  {
  }

  // ----- What every segment acknowledges

  /** No reset; an acknowledgement of where the connection then stands; SYN to answer a SYN, FIN to answer a FIN. */
  ghost predicate Honest(c: Conn, e: Event, s: Segment) {
    && s.flags.ack && !s.flags.rst && s.ackNo == StepOn(c, e).conn.ackNo
    && (s.flags.syn ==> c.state == Listen && e.message.flags.syn)
    && (s.flags.fin ==> c.state == Established && e.message.flags.fin && e.message.seqNo == c.ackNo)
  }

  lemma AnswerIsHonest(c1: Conn, flags: Flags, close: bool, m: Incoming, registered: bool, replies: seq<Chunk>)
    requires flags.ack || flags == Flags(false, false, false, false)
    requires !flags.rst
    ensures var sent := Answer(c1, flags, close, m, registered, replies).sent;
            forall i | 0 <= i < |sent| ::
              sent[i].flags.ack && !sent[i].flags.rst && sent[i].ackNo == c1.ackNo &&
              (sent[i].flags.syn ==> flags.syn) && (sent[i].flags.fin ==> flags.fin)
  {
    SendAllAcknowledges(c1, if m.gap > 0 then replies else []);
    SendAllKeeps(c1, if m.gap > 0 then replies else []);
  }

  lemma StepIsHonest(c: Conn, e: Event)
    requires Reachable(c.state)
    ensures forall i | 0 <= i < |StepOn(c, e).sent| :: Honest(c, e, StepOn(c, e).sent[i])
  {
    var m := e.message;
    if !m.flags.rst {
      match Judge(c, m, e.iss)
      case Go(c1, flags, close) =>
        AnswerIsHonest(c1, flags, close, m, e.registered, e.replies);
        AnswerKeeps(c1, flags, close, m, e.registered, e.replies);
      case _ =>
    }
  }

  // ----- Over runs

  /** The number after the delivered bytes, and after the FIN once it has been taken. */
  function Owed(p: Peer, c: Conn, delivered: seq<byte>): u32 {
    ToU32(p.irs + 1 + |delivered| + (if c.state == LastAck then 1 else 0))
  }

  /** In every run, through resets and any number of lives, each segment sent acknowledges exactly the bytes
      delivered so far, and the FIN once that has been taken: never less, and never anything undelivered. */
  lemma {:induction false} AcksAreTrue(p: Peer, events: seq<Event>, e: Event, i: nat)
    requires IsPeer(p) && PeerTraffic(p, events) && PeerEvent(p, RunLog(events).conn, e)
    requires i < |StepOn(RunLog(events).conn, e).sent|
    ensures var l := RunLog(events);
            var eff := StepOn(l.conn, e);
            eff.sent[i].flags.ack && eff.sent[i].ackNo == Owed(p, eff.conn, Delivered(l, eff))
  {
    var l := RunLog(events);
    DeliveredIsPrefix(p, events);
    StepIsHonest(l.conn, e);
    if !e.message.flags.rst {
      StepOwes(p, l, e);
    }
  }

  /** Where the connection stands after a segment, even one that ends its life. */
  lemma StepOwes(p: Peer, l: Log, e: Event)
    requires IsPeer(p) && Standing(p, l.conn, l.delivered) && PeerEvent(p, l.conn, e) && !e.message.flags.rst
    requires |StepOn(l.conn, e).sent| > 0
    ensures var eff := StepOn(l.conn, e);
            eff.conn.ackNo == Owed(p, eff.conn, Delivered(l, eff))
  {
    OnlyLastAckCloses(l.conn, e);
    StatesStayReachable(l.conn, e);
    if l.conn.state != LastAck {
      StepInOrder(p, l.conn, l.delivered, e);
      StandingOwes(p, StepOn(l.conn, e).conn, Delivered(l, StepOn(l.conn, e)));
    }
  }

  lemma StandingOwes(p: Peer, c: Conn, d: seq<byte>)
    requires Standing(p, c, d) && c.state != Listen
    ensures c.ackNo == Owed(p, c, d)
  {
  }

  /** Short of a reset only the acknowledgement of the FIN ends a life, and moves nothing else. */
  lemma OnlyLastAckCloses(c: Conn, e: Event)
    requires Reachable(c.state) && !e.message.flags.rst
    ensures StepOn(c, e).closed ==> c.state == LastAck && e.message.flags.ack
    ensures c.state == LastAck ==> StepOn(c, e).conn.state == LastAck && StepOn(c, e).conn.ackNo == c.ackNo
    ensures c.state == Listen && |StepOn(c, e).sent| > 0 ==> StepOn(c, e).conn.state == SynReceived
    ensures c.state != Listen ==> StepOn(c, e).conn.state != Listen
  {
    match Judge(c, e.message, e.iss)
    case Go(c1, flags, close) => AnswerKeeps(c1, flags, close, e.message, e.registered, e.replies);
    case _ =>
  }

  /** Whatever arrives out of order in ESTABLISHED, the peer is told how much of its stream has come through. */
  lemma {:induction false} OutOfOrderTellsHowFar(p: Peer, events: seq<Event>, e: Event)
    requires IsPeer(p) && PeerTraffic(p, events)
    requires var c := RunLog(events).conn;
             c.state == Established && e.message.seqNo != c.ackNo && !e.message.flags.rst
    ensures var l := RunLog(events);
            && StepOn(l.conn, e).sent ==
               [Segment(l.conn.seqNo, ToU32(p.irs + 1 + |l.delivered|), ACK_ONLY, [])]
            && RunLog(events + [e]) == l
  {
    DeliveredIsPrefix(p, events);
    OutOfOrderIsAnswered(RunLog(events).conn, e);
    RunSnoc(p, events, e);
    NothingRecorded(RunLog(events), e);
  }

  lemma NothingRecorded(l: Log, e: Event)
    requires StepOn(l.conn, e).conn == l.conn && !StepOn(l.conn, e).closed && StepOn(l.conn, e).handed == []
    ensures Record(l, e) == l
  {
    assert l.handed + [] == l.handed;
    assert l.delivered + [] == l.delivered;
  }

  // ----- What the handler says

  /** The bytes segments carry, in the order they are sent. */
  function DataOf(sent: seq<Segment>): seq<byte> {
    if |sent| == 0 then [] else DataOf(sent[..|sent| - 1]) + sent[|sent| - 1].payload
  }

  function Spoken(replies: seq<Chunk>): seq<byte> {
    if |replies| == 0 then [] else Spoken(replies[..|replies| - 1]) + replies[|replies| - 1]
  }

  /** The handler is called: for data, in order once the connection is up, and otherwise with the flag that is waited
      for. */
  predicate Called(c: Conn, e: Event) {
    && e.registered && e.message.gap > 0 && !e.message.flags.rst
    && match c.state {
         case Listen => e.message.flags.syn
         case Established => e.message.seqNo == c.ackNo
         case _ => e.message.flags.ack
       }
  }

  lemma {:induction false} DataSnoc(sent: seq<Segment>, s: Segment)
    ensures DataOf(sent + [s]) == DataOf(sent) + s.payload
  {
    assert (sent + [s])[..|sent|] == sent;
  }

  lemma {:induction false} DataConcat(a: seq<Segment>, b: seq<Segment>)
    ensures DataOf(a + b) == DataOf(a) + DataOf(b)
  {
    if |b| == 0 {
      assert a + b == a;
    } else {
      var front, s := b[..|b| - 1], b[|b| - 1];
      assert a + b == (a + front) + [s];
      DataConcat(a, front);
      DataSnoc(a + front, s);
      assert DataOf(a) + DataOf(front) + s.payload == DataOf(a) + (DataOf(front) + s.payload);
    }
  }

  lemma {:induction false} SendAllSpeaks(c: Conn, replies: seq<Chunk>)
    ensures DataOf(SendAll(c, replies).1) == Spoken(replies)
  {
    if |replies| > 0 {
      var m := |replies| - 1;
      var (before, sent) := SendAll(c, replies[..m]);
      SendAllSpeaks(c, replies[..m]);
      DataConcat(sent, Send(before, replies[m]).1);
      DataOfOne(before, replies[m]);
    }
  }

  lemma {:induction false} DataOfOne(c: Conn, data: Chunk)
    ensures DataOf(Send(c, data).1) == data
  {
    if |data| > 0 {
      DataSnoc([], Send(c, data).1[0]);
    }
  }

  lemma {:induction false} ReplySpeaksNot(c: Conn, flags: Flags)
    ensures DataOf(Reply(c, flags).1) == []
  {
    var sent := Reply(c, flags).1;
    if |sent| > 0 {
      assert sent == [] + [sent[0]];
      DataSnoc([], sent[0]);
    }
  }

  /** One step sends just what the handler says, if it is called, and no other byte. */
  lemma {:induction false} StepSpeaks(c: Conn, e: Event)
    requires Reachable(c.state)
    ensures DataOf(StepOn(c, e).sent) == if Called(c, e) then Spoken(e.replies) else []
  {
    if !e.message.flags.rst {
      match Judge(c, e.message, e.iss)
      case Drop =>
      case Duplicate => DataSnoc([], Segment(c.seqNo, c.ackNo, ACK_ONLY, []));
      case Go(_, _, _) => GoSpeaks(c, e);
    }
  }

  lemma {:induction false} GoSpeaks(c: Conn, e: Event)
    requires Reachable(c.state) && !e.message.flags.rst && Judge(c, e.message, e.iss).Go?
    ensures DataOf(StepOn(c, e).sent) == if Called(c, e) then Spoken(e.replies) else []
  {
    var j := Judge(c, e.message, e.iss);
    AnswerSpeaks(j.conn, j.flags, j.close, e.message, e.registered, e.replies);
  }

  lemma {:induction false} AnswerSpeaks(c1: Conn, flags: Flags, close: bool, m: Incoming, registered: bool,
                                        replies: seq<Chunk>)
    ensures DataOf(Answer(c1, flags, close, m, registered, replies).sent) ==
            if m.gap > 0 && registered then Spoken(replies) else []
  {
    if m.gap <= 0 || registered {
      var given := if m.gap > 0 then replies else [];
      var (c2, sent) := SendAll(c1, given);
      SendAllSpeaks(c1, given);
      ReplySpeaksNot(c2, flags);
      DataConcat(sent, Reply(c2, flags).1);
    }
  }

  /** All that the handler has said in the present life of the connection. */
  function Speech(events: seq<Happening>): seq<byte> {
    if |events| == 0 then []
    else
      var before := events[..|events| - 1];
      match events[|events| - 1]
      case Shut => Speech(before)
      case Met(e) =>
        var c := Present(RunHistory(before));
        var said := if Called(c, e) then Spoken(e.replies) else [];
        if c.state != Listen then Speech(before) + said else if Opens(c, e) then said else Speech(before)
  }

  /** In every run, through close and reopening, the data of the segments sent is what the handler has said, byte for
      byte and in order; where SegmentsTile says which number each has. */
  lemma {:induction false} SentIsWhatWasSaid(events: seq<Happening>)
    ensures DataOf(RunHistory(events).sent) == Speech(events)
  {
    if |events| > 0 {
      var before := events[..|events| - 1];
      SentIsWhatWasSaid(before);
      SegmentsTile(before);
      match events[|events| - 1]
      case Shut =>
      case Met(e) => NextSpeaks(RunHistory(before), e);
    }
  }

  lemma {:induction false} NextSpeaks(h: History, e: Event)
    requires Reachable(Present(h).state)
    ensures var (c, said) := (Present(h), if Called(Present(h), e) then Spoken(e.replies) else []);
            DataOf(NextMet(h, e).sent) ==
            if c.state != Listen then DataOf(h.sent) + said else if Opens(c, e) then said else DataOf(h.sent)
  {
    var c := Present(h);
    StepSpeaks(c, e);
    DataConcat(h.sent, StepOn(c, e).sent);
  }
}
