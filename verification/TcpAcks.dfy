/** The acknowledgements a connection owes, and the flag that lets a handler's segment carry them. */
module TcpAcks {
  import opened Bytes
  import opened TcpMachine
  import opened TcpRuns

  /** Segments that open the connection carry no data. */
  predicate BareHandshake(c: Conn, e: Event) {
    c.state == Listen || c.state == SynReceived ==> e.message.gap <= 0
  }

  /** Outside LAST_ACK no acknowledgement is held back. */
  predicate FlagClear(c: Conn) { c.notSendEmptyAck ==> c.state == LastAck }

  lemma AnswerFlag(c1: Conn, flags: Flags, close: bool, m: Incoming, registered: bool, replies: seq<Chunk>)
    ensures var eff := Answer(c1, flags, close, m, registered, replies);
            eff.conn.notSendEmptyAck ==>
              || c1.notSendEmptyAck
              || (m.gap > 0 && registered && (flags.syn || flags.fin || flags == Flags(false, false, false, false)))
  {
    SendAllAcknowledges(c1, if m.gap > 0 then replies else []);
  }

  lemma FlagStaysClear(c: Conn, e: Event)
    requires Reachable(c.state) && FlagClear(c) && BareHandshake(c, e)
    ensures FlagClear(StepOn(c, e).conn)
  {
    var m := e.message;
    if !m.flags.rst {
      match Judge(c, m, e.iss)
      case Go(c1, flags, close) =>
        AnswerFlag(c1, flags, close, m, e.registered, e.replies);
        AnswerKeeps(c1, flags, close, m, e.registered, e.replies);
      case _ =>
    }
  }

  /** A run whose opening segments carry no data. */
  ghost predicate BareRun(events: seq<Happening>) {
    forall i | 0 <= i < |events| && events[i].Met? :: BareHandshake(Present(RunHistory(events[..i])), events[i].event)
  }

  /** In every such run in which only handlers send, the flag is clear whenever a segment meets the connection in
      ESTABLISHED. */
  lemma {:induction false} FlagClearOverRuns(events: seq<Happening>)
    requires BareRun(events)
    ensures FlagClear(Present(RunHistory(events)))
  {
    if |events| > 0 {
      var before, e := events[..|events| - 1], events[|events| - 1];
      assert forall i | 0 <= i < |before| :: before[..i] == events[..i];
      FlagClearOverRuns(before);
      SegmentsTile(before);
      if e.Met? {
        FlagStaysClear(Present(RunHistory(before)), e.event);
      }
    }
  }

  /** Data with the expected number, in ESTABLISHED. */
  predicate InOrderData(c: Conn, m: Incoming) {
    c.state == Established && m.seqNo == c.ackNo && m.gap > 0 && !m.flags.rst
  }

  function AckAfter(c: Conn, m: Incoming): u32 { ToU32(c.ackNo + BytesInFlight(m.gap, m.flags)) }

  lemma AnswerSends(c1: Conn, flags: Flags, close: bool, m: Incoming, replies: seq<Chunk>)
    requires m.gap > 0 && flags.ack && !flags.syn
    ensures var sent := Answer(c1, flags, close, m, true, replies).sent;
            && (forall i | 0 <= i < |sent| :: sent[i].ackNo == c1.ackNo && sent[i].flags.ack)
            && (|sent| > 0 <==> flags.fin || !c1.notSendEmptyAck || SomeData(replies))
            && (SomeData(replies) && !flags.fin && !flags.rst ==> forall i | 0 <= i < |sent| :: sent[i].payload != [])
  {
    SendAllAcknowledges(c1, replies);
    SendAllKeeps(c1, replies);
  }

  /** Which in-order data is answered: with a handler on the port, and a FIN to answer, a clear flag, or something
      for the handler to say.  Every segment of the answer carries the new ack; one that carries the
      handler's data and no FIN is not followed by a bare acknowledgement. */
  lemma AnsweredIff(c: Conn, e: Event)
    requires InOrderData(c, e.message)
    ensures var sent := StepOn(c, e).sent;
            && (|sent| > 0 <==> e.registered && (e.message.flags.fin || !c.notSendEmptyAck || SomeData(e.replies)))
            && (forall i | 0 <= i < |sent| :: sent[i].ackNo == AckAfter(c, e.message) && sent[i].flags.ack)
            && (SomeData(e.replies) && !e.message.flags.fin ==> forall i | 0 <= i < |sent| :: sent[i].payload != [])
    ensures StepOn(c, e).conn.ackNo == AckAfter(c, e.message)
  {
    var m := e.message;
    var go := Judge(c, m, e.iss);
    AnswerKeeps(go.conn, go.flags, go.close, m, e.registered, e.replies);
    if e.registered {
      AnswerSends(go.conn, go.flags, go.close, m, e.replies);
    }
  }

  /** Hence, after a bare handshake, every in-order data segment with a handler is acknowledged. */
  lemma {:induction false} DataIsAcknowledged(events: seq<Happening>, e: Event)
    requires BareRun(events)
    requires InOrderData(Present(RunHistory(events)), e.message) && e.registered
    ensures var c := Present(RunHistory(events));
            exists s :: s in StepOn(c, e).sent && s.flags.ack && s.ackNo == AckAfter(c, e.message)
  {
    var c := Present(RunHistory(events));
    FlagClearOverRuns(events);
    AnsweredIff(c, e);
    assert StepOn(c, e).sent[0] in StepOn(c, e).sent;
  }
}
