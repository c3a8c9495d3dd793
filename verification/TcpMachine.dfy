/** One connection of src/tcp.c as a state machine: what a segment does to it, and what holds
    over whole runs (sections 3.4 and 3.10.7 of RFC 9293). */
module TcpMachine {
  import opened Bytes

  datatype State =
    | Closed | Listen | SynSent | SynReceived | Established
    | FinWait1 | FinWait2 | Closing | TimeWait | CloseWait | LastAck

  /** seqNo and ackNo are the next numbers to send. */
  datatype Conn = Conn(state: State, notSendEmptyAck: bool, seqNo: u32, ackNo: u32)

  /** A connection after tcp_rst. */
  const FRESH_CONN: Conn := Conn(Listen, false, 0, 0)

  /** The flags this stack looks at or sends. */
  datatype Flags = Flags(fin: bool, syn: bool, rst: bool, ack: bool)

  const ACK_ONLY: Flags := Flags(false, false, false, true)

  /** bytes_in_flight (src/tcp.c:30-37): the length of a segment in sequence space. */
  function BytesInFlight(len: int, flags: Flags): int {
    len + (if flags.syn then 1 else 0) + (if flags.fin then 1 else 0)
  }

  /** A segment as tcp_out sends it. */
  datatype Segment = Segment(seqNo: u32, ackNo: u32, flags: Flags, payload: Chunk)

  function SpaceOf(s: Segment): nat { BytesInFlight(|s.payload|, s.flags) }

  /** A segment as tcp_in sees it: gap is the length behind the header, which a header length beyond
      the end of the segment makes negative; the payload is what lies there otherwise. */
  datatype Incoming = Incoming(seqNo: u32, flags: Flags, gap: int, payload: seq<byte>)

  // ----- tcp_send and tcp_in

  /** tcp_send (src/tcp.c:309-331); its length is a uint16_t, and nothing is sent for 0. */
  function Send(c: Conn, data: Chunk): (Conn, seq<Segment>) {
    if |data| == 0 then (c, [])
    else (c.(seqNo := ToU32(c.seqNo + |data|), notSendEmptyAck := true), [Segment(c.seqNo, c.ackNo, ACK_ONLY, data)])
  }

  /** A handler's calls of tcp_send, in order. */
  function SendAll(c: Conn, replies: seq<Chunk>): (Conn, seq<Segment>) {
    if |replies| == 0 then (c, [])
    else
      var (before, sent) := SendAll(c, replies[..|replies| - 1]);
      var (after, more) := Send(before, replies[|replies| - 1]);
      (after, sent + more)
  }

  /** The reply of tcp_in (src/tcp.c:281-295): none for no flags, none for a bare ACK that a handler's
      segment already carried. */
  function Reply(c: Conn, flags: Flags): (Conn, seq<Segment>) {
    if flags == Flags(false, false, false, false) then (c, [])
    else if BytesInFlight(0, flags) == 0 && c.notSendEmptyAck then (c.(notSendEmptyAck := false), [])
    else (c.(seqNo := ToU32(c.seqNo + BytesInFlight(0, flags))), [Segment(c.seqNo, c.ackNo, flags, [])])
  }

  /** The first step of tcp_in (src/tcp.c:195-263): the new state and the reply flags, or an early return. */
  datatype Verdict = Drop | Duplicate | Go(conn: Conn, flags: Flags, close: bool)

  function Judge(c: Conn, m: Incoming, iss: u32): Verdict {
    match c.state
    case Listen =>
      if !m.flags.syn then Drop
      else
        var accepted := c.(state := SynReceived, seqNo := iss, ackNo := ToU32(m.seqNo + 1));
        Go(accepted, Flags(false, true, false, true), false)
    case SynReceived =>
      if !m.flags.ack then Drop else Go(c.(state := Established), Flags(false, false, false, false), false)
    case Established =>
      if m.seqNo != c.ackNo then Duplicate
      else
        var ackNo := ToU32(c.ackNo + BytesInFlight(m.gap, m.flags));
        Go(c.(ackNo := ackNo, state := if m.flags.fin then LastAck else Established),
           Flags(m.flags.fin, false, false, m.gap != 0 || m.flags.fin), false)
    case LastAck =>
      if !m.flags.ack then Drop else Go(c, Flags(false, false, false, false), true)
    case _ => Go(c, Flags(false, false, false, false), false)
  }

  /** The connection afterwards, whether it was deleted, the segments sent, and the bytes handed to a
      handler, if one was called. */
  datatype Effect = Effect(conn: Conn, closed: bool, sent: seq<Segment>, handed: seq<byte>)

  /** The second and third step of tcp_in (src/tcp.c:267-295): delivery to the handler, which may send,
      and the reply.  Without a handler for data, the source stops here. */
  function Answer(c1: Conn, flags: Flags, close: bool, m: Incoming, registered: bool, replies: seq<Chunk>): Effect {
    if m.gap > 0 && !registered then Effect(c1, close, [], [])
    else
      var (c2, sent) := SendAll(c1, if m.gap > 0 then replies else []);
      var (c3, reply) := Reply(c2, flags);
      Effect(c3, close, sent + reply, if m.gap > 0 then m.payload else [])
  }

  /** tcp_in (src/tcp.c:176-296) behind the checks.  registered: the port has a handler; replies: what
      that handler would send back; iss: the number drawn for a new connection. */
  function Step(c: Conn, m: Incoming, registered: bool, replies: seq<Chunk>, iss: u32): Effect {
    if m.flags.rst then Effect(c, true, [], [])
    else
      match Judge(c, m, iss)
      case Drop => Effect(c, false, [], [])
      case Duplicate => Effect(c, false, [Segment(c.seqNo, c.ackNo, ACK_ONLY, [])], [])
      case Go(c1, flags, close) => Answer(c1, flags, close, m, registered, replies)
  }

  // ----- One segment arriving in its surroundings

  datatype Event = Event(message: Incoming, registered: bool, replies: seq<Chunk>, iss: u32)

  function StepOn(c: Conn, e: Event): Effect { Step(c, e.message, e.registered, e.replies, e.iss) }

  // ----- States

  /** The states a stored connection can be in. */
  predicate Reachable(s: State) { s == Listen || s == SynReceived || s == Established || s == LastAck }

  /** The default branch of tcp_in is never taken; a connection enters SYN_RECEIVED only on a SYN in LISTEN
      and ESTABLISHED only on an ACK in SYN_RECEIVED. */
  lemma StatesStayReachable(c: Conn, e: Event)
    requires Reachable(c.state)
    ensures Reachable(StepOn(c, e).conn.state)
    ensures StepOn(c, e).conn.state == SynReceived ==>
              c.state == SynReceived || (c.state == Listen && e.message.flags.syn)
    ensures StepOn(c, e).conn.state == Established ==>
              c.state == Established || (c.state == SynReceived && e.message.flags.ack)
    ensures StepOn(c, e).conn.state == LastAck ==> c.state == LastAck || (c.state == Established && e.message.flags.fin)
    ensures StepOn(c, e).conn.state == Listen ==> c.state == Listen
  {
    var m := e.message;
    if !m.flags.rst {
      match Judge(c, m, e.iss)
      case Go(c1, flags, close) => AnswerKeeps(c1, flags, close, m, e.registered, e.replies);
      case _ =>
    }
  }

  lemma {:induction false} SendAllKeeps(c: Conn, replies: seq<Chunk>)
    ensures SendAll(c, replies).0.state == c.state && SendAll(c, replies).0.ackNo == c.ackNo
  {
    if |replies| > 0 {
      SendAllKeeps(c, replies[..|replies| - 1]);
    }
  }

  /** Answering moves neither the state nor the acknowledgement. */
  lemma AnswerKeeps(c1: Conn, flags: Flags, close: bool, m: Incoming, registered: bool, replies: seq<Chunk>)
    ensures var eff := Answer(c1, flags, close, m, registered, replies);
            && eff.conn.state == c1.state && eff.conn.ackNo == c1.ackNo && eff.closed == close
            && eff.handed == (if m.gap > 0 && registered then m.payload else [])
  {
    SendAllKeeps(c1, if m.gap > 0 then replies else []);
  }

  ghost predicate SomeData(replies: seq<Chunk>) {
    exists i :: 0 <= i < |replies| && |replies[i]| > 0
  }

  lemma SomeDataSnoc(replies: seq<Chunk>)
    requires |replies| > 0
    ensures SomeData(replies) <==> SomeData(replies[..|replies| - 1]) || |replies[|replies| - 1]| > 0
  {
    var m := |replies| - 1;
    if SomeData(replies) {
      var i :| 0 <= i < |replies| && |replies[i]| > 0;
      if i < m {
        assert |replies[..m][i]| > 0;
      }
    }
    if SomeData(replies[..m]) {
      var i :| 0 <= i < m && |replies[..m][i]| > 0;
      assert |replies[i]| > 0;
    }
  }

  /** Every segment a handler sends carries the connection's ack, the ACK flag alone, and data. */
  lemma {:induction false} SendAllAcknowledges(c: Conn, replies: seq<Chunk>)
    ensures var (after, sent) := SendAll(c, replies);
            && (forall i | 0 <= i < |sent| ::
                  sent[i].ackNo == c.ackNo && sent[i].flags == ACK_ONLY && |sent[i].payload| > 0)
            && after.notSendEmptyAck == (c.notSendEmptyAck || |sent| > 0)
            && (|sent| > 0 <==> SomeData(replies))
  {
    if |replies| > 0 {
      var m := |replies| - 1;
      SendAllAcknowledges(c, replies[..m]);
      SendAllKeeps(c, replies[..m]);
      SomeDataSnoc(replies);
    }
  }
}
