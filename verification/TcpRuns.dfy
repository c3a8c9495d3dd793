/** Whole runs of a TCP connection: the sequence numbers it sends, the bytes it delivers,
    and the acknowledgements it owes (sections 3.4 and 3.10.7 of RFC 9293). */
module TcpRuns {
  import opened Bytes
  import opened TcpMachine

  lemma ToU32Sum(x: int, y: int)
    ensures ToU32(ToU32(x) + y) == ToU32(x + y)
  {
    var q := x / 0x1_0000_0000;
    assert x + y == 0x1_0000_0000 * q + (ToU32(x) + y);
    Shift(ToU32(x) + y, q);
  }

  lemma Shift(x: int, q: int)
    ensures ToU32(x + 0x1_0000_0000 * q) == ToU32(x)
  {
    var p := x / 0x1_0000_0000;
    assert x + 0x1_0000_0000 * q == 0x1_0000_0000 * (p + q) + ToU32(x);
  }

  /** Numbers less than 2^32 apart are told apart. */
  lemma ToU32Injective(x: int, y: int)
    requires ToU32(x) == ToU32(y) && -0x1_0000_0000 < x - y < 0x1_0000_0000
    ensures x == y
  {
    var p, q := x / 0x1_0000_0000, y / 0x1_0000_0000;
    assert x - y == 0x1_0000_0000 * (p - q);
  }

  // ----- Sequence numbers

  function SpaceLen(sent: seq<Segment>): nat {
    if |sent| == 0 then 0 else SpaceLen(sent[..|sent| - 1]) + SpaceOf(sent[|sent| - 1])
  }

  /** Each segment starts where the ones before it end, counting from start; only the numbers on the
      wire are reduced modulo 2^32. */
  ghost predicate Tiled(start: nat, sent: seq<Segment>) {
    |sent| > 0 ==>
      && Tiled(start, sent[..|sent| - 1])
      && sent[|sent| - 1].seqNo == ToU32(start + SpaceLen(sent[..|sent| - 1]))
  }

  lemma {:induction false} TiledAt(start: nat, sent: seq<Segment>, i: nat)
    requires Tiled(start, sent) && i < |sent|
    ensures sent[i].seqNo == ToU32(start + SpaceLen(sent[..i]))
  {
    var p := sent[..|sent| - 1];
    if i < |p| {
      TiledAt(start, p, i);
      assert p[..i] == sent[..i];
    } else {
      assert p == sent[..i];
    }
  }

  lemma {:induction false} TiledSnoc(start: nat, sent: seq<Segment>, s: Segment)
    requires Tiled(start, sent) && s.seqNo == ToU32(start + SpaceLen(sent))
    ensures Tiled(start, sent + [s]) && SpaceLen(sent + [s]) == SpaceLen(sent) + SpaceOf(s)
  {
    assert (sent + [s])[..|sent|] == sent;
  }

  lemma {:induction false} TiledConcat(start: nat, a: seq<Segment>, b: seq<Segment>)
    requires Tiled(start, a) && Tiled(start + SpaceLen(a), b)
    ensures Tiled(start, a + b) && SpaceLen(a + b) == SpaceLen(a) + SpaceLen(b)
  {
    if |b| == 0 {
      assert a + b == a;
    } else {
      var p, s, ab := b[..|b| - 1], b[|b| - 1], a + b;
      TiledConcat(start, a, p);
      assert ab[..|ab| - 1] == a + p && ab[|ab| - 1] == s;
      assert start + SpaceLen(a + p) == start + SpaceLen(a) + SpaceLen(p);
    }
  }

  lemma {:induction false} TiledOne(start: nat, s: Segment)
    requires s.seqNo == ToU32(start)
    ensures Tiled(start, [s]) && SpaceLen([s]) == SpaceOf(s)
  {
    TiledSnoc(start, [], s);
    assert [] + [s] == [s];
  }

  /** The connection's own number stands at n, reduced. */
  ghost predicate At(c: Conn, n: nat) { c.seqNo == ToU32(n) }

  lemma {:induction false} SendTiles(c: Conn, n: nat, data: Chunk)
    requires At(c, n)
    ensures var (after, sent) := Send(c, data);
            Tiled(n, sent) && At(after, n + SpaceLen(sent))
  {
    if |data| > 0 {
      TiledOne(n, Segment(c.seqNo, c.ackNo, ACK_ONLY, data));
      ToU32Sum(n, |data|);
    }
  }

  lemma {:induction false} SendAllTiles(c: Conn, n: nat, replies: seq<Chunk>)
    requires At(c, n)
    ensures var (after, sent) := SendAll(c, replies);
            Tiled(n, sent) && At(after, n + SpaceLen(sent))
  {
    if |replies| > 0 {
      var m := |replies| - 1;
      SendAllTiles(c, n, replies[..m]);
      var (before, sent) := SendAll(c, replies[..m]);
      SendsOneMore(before, n, sent, replies[m]);
    }
  }

  lemma {:induction false} SendsOneMore(c: Conn, n: nat, sent: seq<Segment>, data: Chunk)
    requires Tiled(n, sent) && At(c, n + SpaceLen(sent))
    ensures var (after, more) := Send(c, data);
            Tiled(n, sent + more) && At(after, n + SpaceLen(sent + more))
  {
    SendTiles(c, n + SpaceLen(sent), data);
    TiledConcat(n, sent, Send(c, data).1);
  }

  lemma {:induction false} ReplyTiles(c: Conn, n: nat, flags: Flags)
    requires At(c, n)
    ensures var (after, sent) := Reply(c, flags);
            Tiled(n, sent) && At(after, n + SpaceLen(sent))
  {
    if |Reply(c, flags).1| > 0 {
      TiledOne(n, Segment(c.seqNo, c.ackNo, flags, []));
      ToU32Sum(n, BytesInFlight(0, flags));
    }
  }

  lemma {:induction false} AnswerTiles(c1: Conn, n: nat, flags: Flags, close: bool, m: Incoming, registered: bool,
                                       replies: seq<Chunk>)
    requires At(c1, n)
    ensures var eff := Answer(c1, flags, close, m, registered, replies);
            Tiled(n, eff.sent) && At(eff.conn, n + SpaceLen(eff.sent))
  {
    if m.gap <= 0 || registered {
      var given := if m.gap > 0 then replies else [];
      var (c2, sent) := SendAll(c1, given);
      SendAllTiles(c1, n, given);
      ReplyTiles(c2, n + SpaceLen(sent), flags);
      TiledConcat(n, sent, Reply(c2, flags).1);
    }
  }

  /** A SYN in LISTEN draws a new number; any other segment goes on from the present one. */
  predicate Opens(c: Conn, e: Event) {
    c.state == Listen && e.message.flags.syn && !e.message.flags.rst
  }

  lemma {:induction false} JudgeKeepsNumber(c: Conn, n: nat, e: Event)
    requires if Opens(c, e) then n == e.iss else At(c, n)
    requires Judge(c, e.message, e.iss).Go? && !e.message.flags.rst
    ensures At(Judge(c, e.message, e.iss).conn, n)
  {
  }

  lemma {:induction false} StepTiles(c: Conn, n: nat, e: Event)
    requires if Opens(c, e) then n == e.iss else At(c, n)
    ensures var eff := StepOn(c, e);
            Tiled(n, eff.sent) && At(eff.conn, n + SpaceLen(eff.sent))
  {
    var m := e.message;
    if !m.flags.rst {
      match Judge(c, m, e.iss)
      case Drop =>
      case Duplicate =>
        TiledOne(n, Segment(c.seqNo, c.ackNo, ACK_ONLY, []));
      case Go(_, _, _) =>
        GoTiles(c, n, e);
    }
  }

  lemma {:induction false} GoTiles(c: Conn, n: nat, e: Event)
    requires if Opens(c, e) then n == e.iss else At(c, n)
    requires Judge(c, e.message, e.iss).Go? && !e.message.flags.rst
    ensures var eff := StepOn(c, e);
            Tiled(n, eff.sent) && At(eff.conn, n + SpaceLen(eff.sent))
  {
    var j := Judge(c, e.message, e.iss);
    JudgeKeepsNumber(c, n, e);
    AnswerTiles(j.conn, n, j.flags, j.close, e.message, e.registered, e.replies);
  }

  /** The connection at one key through all its lives: opened by a SYN, gone after a close from either end, and
      perhaps opened again; sent is what the present or latest life has sent, iss where it started. */
  datatype History = History(conn: Option<Conn>, iss: u32, sent: seq<Segment>)

  const NO_HISTORY: History := History(None, 0, [])

  function Present(h: History): Conn {
    if h.conn.Some? then h.conn.value else FRESH_CONN
  }

  /** A segment meets the connection, or tcp_close of its port removes it. */
  datatype Happening = Met(event: Event) | Shut

  function Next(h: History, e: Happening): History {
    match e
    case Met(event) => NextMet(h, event)
    case Shut => h.(conn := None)
  }

  function NextMet(h: History, e: Event): History {
    var c := Present(h);
    var eff := StepOn(c, e);
    var conn := if eff.closed then None else Some(eff.conn);
    if c.state == Listen then
      if Opens(c, e) then History(conn, e.iss, eff.sent) else History(conn, h.iss, h.sent)
    else History(conn, h.iss, h.sent + eff.sent)
  }

  function RunHistory(events: seq<Happening>): History {
    if |events| == 0 then NO_HISTORY else Next(RunHistory(events[..|events| - 1]), events[|events| - 1])
  }

  ghost predicate HistoryTiles(h: History) {
    && Reachable(Present(h).state)
    && Tiled(h.iss, h.sent)
    && (Present(h).state != Listen ==> At(Present(h), h.iss + SpaceLen(h.sent)))
  }

  lemma OpensTiled(h: History, e: Event)
    requires HistoryTiles(h) && Opens(Present(h), e)
    ensures HistoryTiles(NextMet(h, e))
  {
    StatesStayReachable(Present(h), e);
    StepTiles(Present(h), e.iss, e);
  }

  lemma NextTiles(h: History, e: Event)
    requires HistoryTiles(h)
    ensures HistoryTiles(NextMet(h, e))
  {
    var c := Present(h);
    if c.state != Listen {
      GoesOn(h, e);
    } else if Opens(c, e) {
      OpensTiled(h, e);
    } else {
      StaysUnopened(c, e);
    }
  }

  lemma StaysUnopened(c: Conn, e: Event)
    requires c.state == Listen && !Opens(c, e)
    ensures StepOn(c, e).conn == c && StepOn(c, e).sent == []
  {
  }

  lemma GoesOn(h: History, e: Event)
    requires HistoryTiles(h) && Present(h).state != Listen
    ensures HistoryTiles(NextMet(h, e))
  {
    var c, n := Present(h), h.iss + SpaceLen(h.sent);
    var eff := StepOn(c, e);
    StatesStayReachable(c, e);
    StepTiles(c, n, e);
    TiledOnward(h, eff);
  }

  lemma {:induction false} TiledOnward(h: History, eff: Effect)
    requires HistoryTiles(h) && Present(h).state != Listen && Reachable(eff.conn.state)
    requires Tiled(h.iss + SpaceLen(h.sent), eff.sent)
    requires At(eff.conn, h.iss + SpaceLen(h.sent) + SpaceLen(eff.sent))
    ensures HistoryTiles(History(if eff.closed then None else Some(eff.conn), h.iss, h.sent + eff.sent))
  {
    TiledConcat(h.iss, h.sent, eff.sent);
  }

  /** Replies, duplicate acknowledgements and handlers' sends tile the sequence space: in every run each
      segment sent carries the initial number plus the lengths of all the segments sent before it, and the
      next number to send is past the last of them. */
  lemma {:induction false} SegmentsTile(events: seq<Happening>)
    ensures HistoryTiles(RunHistory(events))
  {
    if |events| > 0 {
      SegmentsTile(events[..|events| - 1]);
      match events[|events| - 1]
      case Met(e) => NextTiles(RunHistory(events[..|events| - 1]), e);
      case Shut =>
    }
  }

  /** The same, segment by segment. */
  lemma {:induction false} SegmentNumbers(events: seq<Happening>, i: nat)
    requires i < |RunHistory(events).sent|
    ensures NumberedAt(RunHistory(events), i)
  {
    SegmentsTile(events);
    TilesAreNumbered(RunHistory(events), i);
  }

  ghost predicate NumberedAt(h: History, i: nat)
    requires i < |h.sent|
  {
    h.sent[i].seqNo == ToU32(h.iss + SpaceLen(h.sent[..i]))
  }

  lemma TilesAreNumbered(h: History, i: nat)
    requires HistoryTiles(h) && i < |h.sent|
    ensures NumberedAt(h, i)
  {
    TiledAt(h.iss, h.sent, i);
  }
}
