/** The connection table over whole runs: every key sees its own segments, and the closing of its port, only. */
module TcpTable {
  import opened Bytes
  import opened TcpMachine
  import opened TcpRuns
  import opened Tcp

  /** A segment for the connection key, or a call of tcp_close. */
  datatype TableEvent = Arrives(key: TcpKey, event: Event) | ClosesPort(port: u16)

  /** What TcpIn and TcpClose do to the table. */
  ghost function TableStep(table: map<TcpKey, Conn>, e: TableEvent): map<TcpKey, Conn> {
    match e
    case Arrives(key, event) =>
      var eff := StepOn(ConnAt(table, key), event);
      After(table, key, eff.conn, eff.closed)
    case ClosesPort(port) => map k | k in table && k.hostPort != port :: table[k]
  }

  ghost function RunTable(events: seq<TableEvent>): map<TcpKey, Conn> {
    if |events| == 0 then map[] else TableStep(RunTable(events[..|events| - 1]), events[|events| - 1])
  }

  /** What an event is to the connection key. */
  function Seen(e: TableEvent, key: TcpKey): seq<Happening> {
    match e
    case Arrives(k, event) => if k == key then [Met(event)] else []
    case ClosesPort(port) => if key.hostPort == port then [Shut] else []
  }

  function SeenBy(events: seq<TableEvent>, key: TcpKey): seq<Happening> {
    if |events| == 0 then [] else SeenBy(events[..|events| - 1], key) + Seen(events[|events| - 1], key)
  }

  lemma {:induction false} HistorySnoc(events: seq<Happening>, e: Happening)
    ensures RunHistory(events + [e]) == Next(RunHistory(events), e)
  {
    assert (events + [e])[..|events|] == events;
  }

  ghost function Entry(table: map<TcpKey, Conn>, key: TcpKey): Option<Conn> {
    if key in table then Some(table[key]) else None
  }

  lemma EntryAfter(table: map<TcpKey, Conn>, h: History, e: TableEvent, key: TcpKey)
    requires h.conn == Entry(table, key)
    ensures Entry(TableStep(table, e), key) == if Seen(e, key) == [] then h.conn else Next(h, Seen(e, key)[0]).conn
  {
    assert Present(h) == ConnAt(table, key);
  }

  /** Whatever is interleaved, the entry of each key is the connection its own segments and the closings of its port
      lead to, and is missing exactly when they lead to none: so all that holds over the runs of one connection
      holds of every connection in the table. */
  lemma {:induction false} TableFollowsHistories(events: seq<TableEvent>, key: TcpKey)
    ensures RunHistory(SeenBy(events, key)).conn == Entry(RunTable(events), key)
  {
    if |events| > 0 {
      var before, e := events[..|events| - 1], events[|events| - 1];
      TableFollowsHistories(before, key);
      EntryAfter(RunTable(before), RunHistory(SeenBy(before, key)), e, key);
      if Seen(e, key) == [] {
        assert SeenBy(events, key) == SeenBy(before, key);
      } else {
        HistorySnoc(SeenBy(before, key), Seen(e, key)[0]);
        assert SeenBy(events, key) == SeenBy(before, key) + [Seen(e, key)[0]];
      }
    }
  }

  /** In every run every stored connection is in one of the four states tcp_in handles. */
  lemma {:induction false} StoredStates(events: seq<TableEvent>, key: TcpKey)
    requires key in RunTable(events)
    ensures Reachable(RunTable(events)[key].state)
  {
    TableFollowsHistories(events, key);
    SegmentsTile(SeenBy(events, key));
  }
}
