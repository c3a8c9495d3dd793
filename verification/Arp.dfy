/** The ARP table and the packet parking of src/arp.c (RFC 826), with a ghost log of what
    entered and left, from which its safety over whole runs is read off. */
module Arps {
  import opened Bytes
  import opened Buffers
  import opened TimedMaps
  import opened Ethernet

  const ARP_TIMEOUT_SEC: nat := 300
  const ARP_MIN_INTERVAL: nat := 1
  const ARP_PKT_LEN: nat := 28
  const ARP_REQUEST: u16 := 1
  const ARP_REPLY: u16 := 2
  const NO_MAC: Mac := [0, 0, 0, 0, 0, 0]

  function ArpPacket(opcode: u16, senderMac: Mac, senderIp: Ip, targetMac: Mac, targetIp: Ip): (s: seq<byte>)
    ensures |s| == ARP_PKT_LEN
  {
    Be16(1) + Be16(PROTOCOL_IP) + [6, 4] + Be16(opcode) + senderMac + senderIp + targetMac + targetIp
  }

  datatype ArpMessage = ArpMessage(opcode: u16, senderMac: Mac, senderIp: Ip, targetIp: Ip)

  /** The checks of arp_in (src/arp.c:102-117). */
  function ParseArp(s: seq<byte>): Option<ArpMessage> {
    if |s| < ARP_PKT_LEN || GetBe16(s, 0) != 1 || GetBe16(s, 2) != PROTOCOL_IP || s[4] != 6 || s[5] != 4 then None
    else if GetBe16(s, 6) != ARP_REQUEST && GetBe16(s, 6) != ARP_REPLY then None
    else Some(ArpMessage(GetBe16(s, 6), s[8..14], s[14..18], s[24..28]))
  }

  /** What this stack sends, another one understands, link padding and all. */
  lemma ParseArpOfPacket(opcode: u16, senderMac: Mac, senderIp: Ip, targetMac: Mac, targetIp: Ip, s: seq<byte>)
    requires opcode == ARP_REQUEST || opcode == ARP_REPLY
    requires ArpPacket(opcode, senderMac, senderIp, targetMac, targetIp) <= s
    ensures ParseArp(s) == Some(ArpMessage(opcode, senderMac, senderIp, targetIp))
  {
    var p := ArpPacket(opcode, senderMac, senderIp, targetMac, targetIp);
    GetBe16At(s, 0, 1);
    GetBe16At(s, 2, PROTOCOL_IP);
    GetBe16At(s, 6, opcode);
    assert s[8..14] == p[8..14] == senderMac && s[14..18] == p[14..18] == senderIp;
    assert s[24..28] == p[24..28] == targetIp;
  }

  // ----- The log

  /** Learned: an ARP packet was accepted.  Handed: ip gave a packet to arp_out.  SentIp: the packet
      handed at log position ticket went out.  SentArp: a request or a reply went out. */
  datatype Event =
    | Learned(ip: Ip, mac: Mac)
    | Handed(ip: Ip, packet: seq<byte>)
    | SentIp(ip: Ip, mac: Mac, packet: seq<byte>, ticket: nat)
    | SentArp(frame: seq<byte>)

  /** The hardware address in the most recent accepted ARP packet from ip. */
  ghost function LastMac(log: seq<Event>, ip: Ip): Option<Mac> {
    if |log| == 0 then None
    else
      var e := log[|log| - 1];
      if e.Learned? && e.ip == ip then Some(e.mac) else LastMac(log[..|log| - 1], ip)
  }

  /** What an event puts on the wire. */
  ghost function FrameOf(e: Event, ifMac: Mac): seq<seq<byte>> {
    match e
    case SentIp(_, mac, packet, _) => [Frame(mac, ifMac, PROTOCOL_IP, packet)]
    case SentArp(frame) => [frame]
    case _ => []
  }

  ghost function FramesOf(log: seq<Event>, ifMac: Mac): seq<seq<byte>> {
    if |log| == 0 then [] else FramesOf(log[..|log| - 1], ifMac) + FrameOf(log[|log| - 1], ifMac)
  }

  /** The hand-over at position ticket has been answered by a frame. */
  ghost predicate Used(log: seq<Event>, ticket: nat) {
    |log| > 0 && (Used(log[..|log| - 1], ticket) || (log[|log| - 1].SentIp? && log[|log| - 1].ticket == ticket))
  }

  /** An event that may come next: a packet goes out only if it was handed over, unchanged, for that
      next hop, has not gone out yet, and is addressed to the hardware address last heard from it. */
  ghost predicate Recordable(log: seq<Event>, e: Event) {
    e.SentIp? ==>
      && LastMac(log, e.ip) == Some(e.mac)
      && e.ticket < |log| && log[e.ticket] == Handed(e.ip, e.packet) && !Used(log, e.ticket)
  }

  ghost predicate Coherent(log: seq<Event>) {
    |log| > 0 ==> Coherent(log[..|log| - 1]) && Recordable(log[..|log| - 1], log[|log| - 1])
  }

  lemma {:induction false} LogSnoc(log: seq<Event>, e: Event, ifMac: Mac)
    ensures Coherent(log + [e]) <==> Coherent(log) && Recordable(log, e)
    ensures FramesOf(log + [e], ifMac) == FramesOf(log, ifMac) + FrameOf(e, ifMac)
    ensures forall ip :: LastMac(log + [e], ip) == if e.Learned? && e.ip == ip then Some(e.mac) else LastMac(log, ip)
    ensures forall t: nat :: Used(log + [e], t) <==> Used(log, t) || (e.SentIp? && e.ticket == t)
  {
    assert (log + [e])[..|log|] == log;
  }

  lemma TwoMore(log: seq<Event>, a: Event, b: Event)
    ensures log + [a] + [b] == log + [a, b]
  {
  }

  lemma {:induction false} UsedIsEarlier(log: seq<Event>, t: nat)
    requires Coherent(log) && Used(log, t)
    ensures t < |log| - 1
  {
    if Used(log[..|log| - 1], t) {
      UsedIsEarlier(log[..|log| - 1], t);
    }
  }

  lemma {:induction false} SentIsUsed(log: seq<Event>, i: nat)
    requires i < |log| && log[i].SentIp?
    ensures Used(log, log[i].ticket)
  {
    if i < |log| - 1 {
      SentIsUsed(log[..|log| - 1], i);
    }
  }

  /** What coherence says of a whole run: an IP packet that went out at position i had been handed
      over earlier for that next hop, unchanged, and carried the address last heard before i. */
  lemma {:induction false} SentIsJustified(log: seq<Event>, i: nat)
    requires Coherent(log) && i < |log| && log[i].SentIp?
    ensures LastMac(log[..i], log[i].ip) == Some(log[i].mac)
    ensures log[i].ticket < i && log[log[i].ticket] == Handed(log[i].ip, log[i].packet)
  {
    var p := log[..|log| - 1];
    if i < |p| {
      SentIsJustified(p, i);
      assert p[..i] == log[..i];
    } else {
      assert p == log[..i];
    }
  }

  /** Where on the wire the packet sent at position i is. */
  lemma {:induction false} FrameAt(log: seq<Event>, i: nat, ifMac: Mac)
    requires i < |log| && log[i].SentIp?
    ensures var k := |FramesOf(log[..i], ifMac)|;
            && k < |FramesOf(log, ifMac)|
            && FramesOf(log, ifMac)[k] == Frame(log[i].mac, ifMac, PROTOCOL_IP, log[i].packet)
  {
    var p := log[..|log| - 1];
    if i < |p| {
      FrameAt(p, i, ifMac);
      assert p[..i] == log[..i];
    } else {
      assert p == log[..i];
    }
  }

  /** Two packets that went out answer two different hand-overs. */
  lemma {:induction false} TicketsDiffer(log: seq<Event>, i: nat, j: nat)
    requires Coherent(log) && i < j < |log| && log[i].SentIp? && log[j].SentIp?
    ensures log[i].ticket != log[j].ticket
  {
    var p := log[..|log| - 1];
    if j < |p| {
      TicketsDiffer(p, i, j);
    } else {
      SentIsUsed(p, i);
    }
  }

  /** Every resolved address is the one last heard. */
  ghost predicate Resolved(live: map<Ip, Mac>, log: seq<Event>) {
    forall ip | ip in live :: LastMac(log, ip) == Some(live[ip])
  }

  lemma ResolvedAfter(live: map<Ip, Mac>, later: map<Ip, Mac>, log: seq<Event>, e: Event)
    requires Resolved(live, log)
    requires if e.Learned? then later == live[e.ip := e.mac] || (later == live && e.ip !in live) else later == live
    ensures Resolved(later, log + [e])
  {
    LogSnoc(log, e, NO_MAC);
  }

  /** The value constructor of pending: buf_copy. */
  method Copied(buf: Buf) returns (image: Image)
    requires buf.Anchored() && ETHER_HDR_LEN <= buf.data
    ensures image.Anchored() && image.data == buf.data && image.Contents() == buf.Contents()
  {
    var copy := new Buf();
    copy.CopyFrom(buf);
    image := copy.ToImage();
  }

  // ----- Parked packets

  /** The slot holds, ready for framing, the packet handed over at ticket t, which has not gone out. */
  ghost predicate Holds(slot: Slot<Ip, Image>, t: nat, log: seq<Event>) {
    && slot.Entry? && slot.value.Anchored() && ETHER_HDR_LEN <= slot.value.data
    && t < |log| && log[t] == Handed(slot.key, slot.value.Contents()) && !Used(log, t)
  }

  ghost predicate Parked(s: seq<Slot<Ip, Image>>, timeout: nat, now: nat, tickets: seq<nat>, log: seq<Event>) {
    |tickets| == |s| && forall i | 0 <= i < |s| && LiveSlot(s[i], timeout, now) :: Holds(s[i], tickets[i], log)
  }

  /** Parked packets stay parked while slots only die. */
  lemma ParkedLater(s: seq<Slot<Ip, Image>>, r: seq<Slot<Ip, Image>>, timeout: nat, now: nat, later: nat,
                    tickets: seq<nat>, log: seq<Event>)
    requires Parked(s, timeout, now, tickets, log) && now <= later && |r| == |s|
    requires forall i | 0 <= i < |s| :: r[i] == s[i] || !Stamped(r[i])
    ensures Parked(r, timeout, later, tickets, log)
  {
    forall i | 0 <= i < |r| && LiveSlot(r[i], timeout, later)
      ensures r[i] == s[i] && LiveSlot(s[i], timeout, now)
    {
    }
  }

  lemma ParkedWith(s: seq<Slot<Ip, Image>>, timeout: nat, now: nat, tickets: seq<nat>, log: seq<Event>,
                   i: nat, entry: Slot<Ip, Image>, t: nat)
    requires Parked(s, timeout, now, tickets, log) && i < |s| && Holds(entry, t, log)
    ensures Parked(s[i := entry], timeout, now, tickets[i := t], log)
  {
  }

  /** Sending a packet uses up no parked one, since none is parked for that next hop. */
  lemma ParkedSnoc(s: seq<Slot<Ip, Image>>, timeout: nat, now: nat, tickets: seq<nat>, log: seq<Event>, e: Event)
    requires Parked(s, timeout, now, tickets, log) && UniqueKeys(s, timeout, now) && Recordable(log, e)
    requires e.SentIp? ==> e.ip !in View(s, timeout, now)
    ensures Parked(s, timeout, now, tickets, log + [e])
  {
    LogSnoc(log, e, NO_MAC);
    forall i | 0 <= i < |s| && LiveSlot(s[i], timeout, now)
      ensures Holds(s[i], tickets[i], log + [e])
    {
      assert Holds(s[i], tickets[i], log);
      ViewOfSlot(s, timeout, now, i);
    }
  }

  ghost function SentAt(log: seq<Event>, ip: Ip, packet: seq<byte>): set<nat> {
    set i: nat | i < |log| && log[i].SentIp? && log[i].ip == ip && log[i].packet == packet
  }

  ghost function HandedAt(log: seq<Event>, ip: Ip, packet: seq<byte>): set<nat> {
    set i: nat | i < |log| && log[i] == Handed(ip, packet)
  }

  /** In a coherent log no packet is sent more often than it was handed over for that next hop. */
  lemma {:induction false} SentWithinHanded(log: seq<Event>, ip: Ip, packet: seq<byte>)
    requires Coherent(log)
    ensures |SentAt(log, ip, packet)| <= |HandedAt(log, ip, packet)|
  {
    var sent := SentAt(log, ip, packet);
    forall i | i in sent
      ensures log[i].ticket in HandedAt(log, ip, packet)
    {
      SentIsJustified(log, i);
    }
    forall i, j | i in sent && j in sent && i != j
      ensures log[i].ticket != log[j].ticket
    {
      if i < j {
        TicketsDiffer(log, i, j);
      } else {
        TicketsDiffer(log, j, i);
      }
    }
    TicketsInject(log, SentAt(log, ip, packet), HandedAt(log, ip, packet));
  }

  lemma {:induction false} TicketsInject(log: seq<Event>, sent: set<nat>, handed: set<nat>)
    requires forall i | i in sent :: i < |log| && log[i].SentIp? && log[i].ticket in handed
    requires forall i, j | i in sent && j in sent && i != j :: log[i].ticket != log[j].ticket
    ensures |sent| <= |handed|
    decreases |sent|
  {
    if sent != {} {
      var i :| i in sent;
      TicketsInject(log, sent - {i}, handed - {log[i].ticket});
    }
  }

  /** An entry stamped now lives for the whole timeout. */
  lemma StampedNow<V>(s: seq<Slot<Ip, V>>, timeout: nat, now: nat, i: nat)
    requires UniqueKeys(s, timeout, now) && i < |s| && s[i].Entry? && s[i].stamp == now > 0
    ensures forall u | now <= u <= now + timeout ::
              s[i].key in View(s, timeout, u) && View(s, timeout, u)[s[i].key] == s[i].value
  {
    forall u | now <= u <= now + timeout
      ensures s[i].key in View(s, timeout, u) && View(s, timeout, u)[s[i].key] == s[i].value
    {
      ViewShrinks(s, timeout, now, u);
      ViewOfSlot(s, timeout, u, i);
    }
  }

  /** A packet parked at time now in a slot that was dead or its own: it is there for the whole timeout, and
      nothing else has moved. */
  lemma ParksOne(s: seq<Slot<Ip, Image>>, r: seq<Slot<Ip, Image>>, start: nat, now: nat, tickets: seq<nat>,
                 log: seq<Event>, i: nat, ip: Ip, image: Image, t: nat)
    requires Parked(s, ARP_MIN_INTERVAL, start, tickets, log) && 0 < start <= now
    requires i < |s| && r == s[i := Entry(ip, image, now)] && UniqueKeys(r, ARP_MIN_INTERVAL, now)
    requires LiveSlot(s[i], ARP_MIN_INTERVAL, now) ==> s[i].key == ip
    requires Holds(Entry(ip, image, now), t, log)
    ensures Parked(r, ARP_MIN_INTERVAL, now, tickets[i := t], log)
    ensures TouchesOnly(s, r, ARP_MIN_INTERVAL, now, ip)
    ensures forall u | now <= u <= now + ARP_MIN_INTERVAL ::
              ip in View(r, ARP_MIN_INTERVAL, u) && View(r, ARP_MIN_INTERVAL, u)[ip] == image
  {
    ParkedLater(s, s, ARP_MIN_INTERVAL, start, now, tickets, log);
    ParkedWith(s, ARP_MIN_INTERVAL, now, tickets, log, i, r[i], t);
    StampedNow(r, ARP_MIN_INTERVAL, now, i);
  }

  /** Slots s have become r at time t: learned writes ip's entry over its own slot or a dead one. */
  ghost predicate Written(s: seq<Slot<Ip, Mac>>, r: seq<Slot<Ip, Mac>>, t: nat, ip: Ip, mac: Mac, learned: bool,
                          pos: nat) {
    if learned then
      && pos < |s| && r == s[pos := Entry(ip, mac, t)] && t > 0
      && (!LiveSlot(s[pos], ARP_TIMEOUT_SEC, t) || s[pos].key == ip)
    else r == s && ip !in View(s, ARP_TIMEOUT_SEC, t)
  }

  /** How the table went from slots s with counter size at time t to slots r now: in time, ip is resolved to mac
      if there was room or it had an entry; it is resolved to nothing else; and the others have only aged. */
  ghost predicate Settled(s: seq<Slot<Ip, Mac>>, size: nat, t: nat, r: seq<Slot<Ip, Mac>>, now: nat, ip: Ip, mac: Mac) {
    var (aged, live) := (View(s, ARP_TIMEOUT_SEC, now), View(r, ARP_TIMEOUT_SEC, now));
    && (now <= t + ARP_TIMEOUT_SEC && (size < |s| || ip in aged) ==> ip in live)
    && (ip in live ==> live[ip] == mac)
    && (forall k | k != ip :: k in live <==> k in aged)
    && (forall k | k != ip && k in live :: live[k] == aged[k])
  }

  lemma SettledLater(s: seq<Slot<Ip, Mac>>, size: nat, start: nat, r: seq<Slot<Ip, Mac>>, t: nat, now: nat,
                     ip: Ip, mac: Mac, learned: bool, pos: nat)
    requires UniqueKeys(s, ARP_TIMEOUT_SEC, start) && UniqueKeys(r, ARP_TIMEOUT_SEC, t) && start <= t <= now
    requires Written(s, r, t, ip, mac, learned, pos)
    requires size < |s| || ip in View(s, ARP_TIMEOUT_SEC, t) ==> learned
    ensures Settled(s, size, start, r, now, ip, mac)
  {
    ViewShrinks(s, ARP_TIMEOUT_SEC, start, t);
    ViewShrinks(s, ARP_TIMEOUT_SEC, t, now);
    ViewShrinks(r, ARP_TIMEOUT_SEC, t, now);
    assert TouchesOnly(s, r, ARP_TIMEOUT_SEC, t, ip);
    forall k | k != ip
      ensures k in View(r, ARP_TIMEOUT_SEC, now) <==> k in View(s, ARP_TIMEOUT_SEC, now)
      ensures k in View(r, ARP_TIMEOUT_SEC, now) ==>
                View(r, ARP_TIMEOUT_SEC, now)[k] == View(s, ARP_TIMEOUT_SEC, now)[k]
    {
      OthersStay(s, r, ARP_TIMEOUT_SEC, t, now, ip, k);
    }
    if learned {
      StampedNow(r, ARP_TIMEOUT_SEC, t, pos);
    }
  }

  /** What is live at the end was live all the time before. */
  lemma StillLater<V>(s: seq<Slot<Ip, V>>, timeout: nat, start: nat, now: nat, end: nat, ip: Ip)
    requires UniqueKeys(s, timeout, start) && start <= now <= end && ip in View(s, timeout, end)
    ensures ip in View(s, timeout, now) && ip in View(s, timeout, start)
    ensures View(s, timeout, start)[ip] == View(s, timeout, now)[ip] == View(s, timeout, end)[ip]
  {
    ViewShrinks(s, timeout, start, now);
    ViewShrinks(s, timeout, now, end);
  }

  /** Until one second after the time asked, the packet parked for ip is packet. */
  ghost predicate Awaits(s: seq<Slot<Ip, Image>>, asked: nat, now: nat, ip: Ip, packet: seq<byte>) {
    var later := View(s, ARP_MIN_INTERVAL, asked + ARP_MIN_INTERVAL);
    now <= asked + ARP_MIN_INTERVAL ==> ip in later && later[ip].Anchored() && later[ip].Contents() == packet
  }

  lemma AwaitsStill(s: seq<Slot<Ip, Image>>, r: seq<Slot<Ip, Image>>, asked: nat, now: nat, ip: Ip, packet: seq<byte>)
    requires UniqueKeys(r, ARP_MIN_INTERVAL, now) && Spares(s, r, ARP_MIN_INTERVAL, now, ip) && asked <= now
    requires Awaits(s, asked, asked, ip, packet)
    ensures Awaits(r, asked, now, ip, packet)
  {
    var end := asked + ARP_MIN_INTERVAL;
    if now <= end {
      ViewShrinks(r, ARP_MIN_INTERVAL, now, end);
      SparedEntry(s, r, ARP_MIN_INTERVAL, now, end, ip);
    }
  }

  lemma AwaitedLater(s: seq<Slot<Ip, Image>>, asked: nat, now: nat, later: nat, ip: Ip, packet: seq<byte>)
    requires UniqueKeys(s, ARP_MIN_INTERVAL, now) && now <= later <= asked + ARP_MIN_INTERVAL
    requires Awaits(s, asked, now, ip, packet)
    ensures ip in View(s, ARP_MIN_INTERVAL, later) && ip in View(s, ARP_MIN_INTERVAL, now)
    ensures View(s, ARP_MIN_INTERVAL, now)[ip].Anchored() && View(s, ARP_MIN_INTERVAL, now)[ip].Contents() == packet
    ensures View(s, ARP_MIN_INTERVAL, later)[ip] == View(s, ARP_MIN_INTERVAL, now)[ip]
  {
    StillLater(s, ARP_MIN_INTERVAL, now, later, asked + ARP_MIN_INTERVAL, ip);
  }

  lemma AwaitsFrom(s: seq<Slot<Ip, Image>>, start: nat, now: nat, ip: Ip, packet: seq<byte>)
    requires UniqueKeys(s, ARP_MIN_INTERVAL, now) && start <= now <= start + ARP_MIN_INTERVAL
    requires Awaits(s, now, now, ip, packet)
    ensures Awaits(s, start, now, ip, packet)
  {
    AwaitedLater(s, now, now, start + ARP_MIN_INTERVAL, ip, packet);
  }

  // ----- Calls from outside

  /** ip's call of arp_out, or ethernet's of arp_in. */
  datatype Call = Out(packet: seq<byte>, ip: Ip) | In(packet: seq<byte>)

  ghost predicate Fits(c: Call) { |c.packet| + ETHER_HDR_LEN < BUF_MIDDLE }

  /** The call brings an ARP packet from x. */
  ghost predicate Brings(c: Call, x: Ip) {
    c.In? && ParseArp(c.packet).Some? && ParseArp(c.packet).value.senderIp == x
  }

  /** What a wire has gained. */
  ghost function Since<T>(before: seq<T>, after: seq<T>): (more: seq<T>)
    requires before <= after
    ensures after == before + more
  {
    after[|before|..]
  }

  lemma {:induction false} FramesGrow(before: seq<Event>, after: seq<Event>, ifMac: Mac)
    requires before <= after
    ensures FramesOf(before, ifMac) <= FramesOf(after, ifMac)
  {
    if |before| < |after| {
      FramesGrow(before, after[..|after| - 1], ifMac);
    } else {
      assert before == after;
    }
  }

  // ----- The two tables

  ghost predicate Apart<U, V>(a: map<Ip, U>, b: map<Ip, V>) {
    forall ip | ip in a :: ip !in b
  }

  ghost predicate ApartBut<U, V>(a: map<Ip, U>, b: map<Ip, V>, x: Ip) {
    forall ip | ip in a && ip in b :: ip == x
  }

  ghost predicate Within<U>(a: map<Ip, U>, b: map<Ip, U>) {
    forall ip | ip in a :: ip in b && a[ip] == b[ip]
  }

  class Arp {
    const clock: Clock
    const table: TimedMap<Ip, Mac>
    const pending: TimedMap<Ip, Image>
    const txbuf: Buf
    const driver: Driver
    const ifIp: Ip
    const ifMac: Mac
    ghost var log: seq<Event>
    /** For each slot of pending, the log position of the hand-over parked there. */
    ghost var tickets: seq<nat>

    /** Every live slot holds, unchanged and ready for framing, the packet handed over at its own
        ticket, and that packet has not gone out. */
    ghost predicate ParkedHold()
      reads this, clock, pending, pending.slots
    {
      Parked(pending.slots[..], pending.timeout, clock.now, tickets, log)
    }

    ghost predicate TablesValid()
      reads clock, table, table.slots, pending, pending.slots
    {
      && table.clock == pending.clock == clock
      && table.timeout == ARP_TIMEOUT_SEC && pending.timeout == ARP_MIN_INTERVAL
      && table.Valid() && pending.Valid()
    }

    ghost predicate LogValid()
      reads this, clock, table, table.slots, pending, pending.slots
    {
      TablesValid() && Coherent(log) && Resolved(table.Live(), log) && ParkedHold()
    }

    ghost predicate Consistent()
      reads this, clock, table, table.slots, pending, pending.slots, txbuf, driver
    {
      LogValid() && txbuf.Valid() && driver.sent == FramesOf(log, ifMac)
    }

    /** No next hop is both resolved and waited for. */
    ghost predicate Valid()
      reads this, clock, table, table.slots, pending, pending.slots, txbuf, driver
    {
      Consistent() && Apart(table.Live(), pending.Live())
    }

    /** packet is parked for ip, and stays so for one second. */
    ghost predicate Waits(ip: Ip, packet: seq<byte>)
      reads pending.slots, clock
    {
      var s := pending.slots[..];
      var live := View(s, ARP_MIN_INTERVAL, clock.now);
      var later := View(s, ARP_MIN_INTERVAL, clock.now + ARP_MIN_INTERVAL);
      ip in later && ip in live && live[ip] == later[ip] && live[ip].Anchored() && live[ip].Contents() == packet
    }

    constructor (source: Clock, wire: Driver, tx: Buf, ip: Ip, mac: Mac, tableCapacity: nat, pendingCapacity: nat)
      requires source.Valid() && wire.sent == [] && tx.Valid()
      ensures Valid() && log == [] && clock == source && driver == wire && txbuf == tx && ifIp == ip && ifMac == mac
      ensures table.Live() == map[] && pending.Live() == map[]
      ensures fresh(table) && fresh(table.slots) && fresh(pending) && fresh(pending.slots)
      ensures table.size == 0 && table.slots.Length == tableCapacity
      ensures pending.size == 0 && pending.slots.Length == pendingCapacity
    {
      clock, driver, txbuf, ifIp, ifMac := source, wire, tx, ip, mac;
      table := new TimedMap<Ip, Mac>(tableCapacity, ARP_TIMEOUT_SEC, source);
      pending := new TimedMap<Ip, Image>(pendingCapacity, ARP_MIN_INTERVAL, source);
      log, tickets := [], seq(pendingCapacity, _ => 0);
    }

    /** Waiting changes nothing but what has expired. */
    twostate lemma TimePasses()
      requires old(Consistent())
      requires unchanged(this) && unchanged(table) && unchanged(table.slots) && unchanged(pending)
      requires unchanged(pending.slots) && unchanged(txbuf) && unchanged(driver)
      requires clock.Valid() && old(clock.now) <= clock.now
      ensures Consistent()
      ensures Within(table.Live(), old(table.Live())) && Within(pending.Live(), old(pending.Live()))
    {
      assert table.slots[..] == old(table.slots[..]) && pending.slots[..] == old(pending.slots[..]);
      ViewShrinks(table.slots[..], table.timeout, old(clock.now), clock.now);
      ViewShrinks(pending.slots[..], pending.timeout, old(clock.now), clock.now);
      ParkedLater(pending.slots[..], pending.slots[..], pending.timeout, old(clock.now), clock.now, tickets, log);
    }

    /** Extends the log without disturbing what is parked or resolved. */
    ghost method Record(e: Event)
      requires pending.Valid() && pending.clock == clock
      requires Coherent(log) && ParkedHold() && Recordable(log, e)
      requires e.SentIp? ==> e.ip !in pending.Live()
      modifies this`log
      ensures log == old(log) + [e]
      ensures Coherent(log) && ParkedHold()
      ensures FramesOf(log, ifMac) == FramesOf(old(log), ifMac) + FrameOf(e, ifMac)
      ensures !e.Learned? && Resolved(table.Live(), old(log)) ==> Resolved(table.Live(), log)
    {
      LogSnoc(log, e, ifMac);
      ParkedSnoc(pending.slots[..], pending.timeout, clock.now, tickets, log, e);
      if !e.Learned? && Resolved(table.Live(), log) {
        ResolvedAfter(table.Live(), table.Live(), log, e);
      }
      log := log + [e];
    }

    ghost function RequestFrame(target: Ip): seq<byte> {
      Frame(BROADCAST_MAC, ifMac, PROTOCOL_ARP, ArpPacket(ARP_REQUEST, ifMac, ifIp, NO_MAC, target))
    }

    ghost function ReplyFrame(target: Ip, mac: Mac): seq<byte> {
      Frame(mac, ifMac, PROTOCOL_ARP, ArpPacket(ARP_REPLY, ifMac, ifIp, mac, target))
    }

    /** arp_req and arp_resp (src/arp.c:59-92): the packet is built in the shared txbuf, whose
        earlier contents are lost. */
    method SendArp(opcode: u16, target: Ip, targetMac: Mac, to: Mac)
      requires Valid()
      modifies this`log, txbuf, txbuf.payload, driver
      ensures Valid()
      ensures txbuf.len == ETHER_HDR_LEN + ETHERNET_MIN_TRANSPORT_UNIT
      ensures log == old(log) +
              [SentArp(Frame(to, ifMac, PROTOCOL_ARP, ArpPacket(opcode, ifMac, ifIp, targetMac, target)))]
    {
      Transmit(ArpPacket(opcode, ifMac, ifIp, targetMac, target), to);
    }

    method Transmit(packet: seq<byte>, to: Mac)
      requires Valid() && |packet| == ARP_PKT_LEN
      modifies this`log, txbuf, txbuf.payload, driver
      ensures Valid()
      ensures txbuf.len == ETHER_HDR_LEN + ETHERNET_MIN_TRANSPORT_UNIT
      ensures log == old(log) + [SentArp(Frame(to, ifMac, PROTOCOL_ARP, packet))]
    {
      Fill(txbuf, packet);
      EthernetOut(txbuf, to, PROTOCOL_ARP, ifMac, driver);
      Record(SentArp(Frame(to, ifMac, PROTOCOL_ARP, packet)));
    }

    /** arp_out (src/arp.c:143-162).  A resolved next hop gets the packet; otherwise one packet at a time waits
        for the address, and goes unsent if another is waiting already or the map is full.  Packets parked for other
        next hops stay as they were. */
    method ArpOut(buf: Buf, ip: Ip) returns (ghost requested: bool)
      requires Valid()
      requires buf.Anchored() && ETHER_HDR_LEN <= buf.data
      requires buf != txbuf && buf.payload != txbuf.payload
      modifies this`log, this`tickets, clock, pending`size, pending.slots, buf, buf.payload, txbuf, txbuf.payload,
               driver
      ensures Valid() && old(clock.now) <= clock.now
      ensures requested ==> log == old(log) + [Handed(ip, old(buf.Contents())), SentArp(RequestFrame(ip))]
      ensures !requested ==>
                || (ip in old(pending.Live()) && log == old(log) + [Handed(ip, old(buf.Contents()))])
                || (ip in old(table.Live()) &&
                    log == old(log) + Dispatched(old(log), ip, old(table.Live())[ip], old(buf.Contents())))
      ensures requested ==> txbuf.len == ETHER_HDR_LEN + ETHERNET_MIN_TRANSPORT_UNIT && ip !in table.Live()
      ensures requested ==> ip !in View(old(pending.slots[..]), ARP_MIN_INTERVAL, clock.now)
      ensures requested ==> ParkedIfRoom(old(pending.size), ip, old(buf.Contents()))
      ensures TouchesOnly(old(pending.slots[..]), pending.slots[..], ARP_MIN_INTERVAL, clock.now, ip)
      ensures !requested ==> unchanged(txbuf) && unchanged(txbuf.payload) && pending.slots[..] == old(pending.slots[..])
      ensures ip in table.Live() ==>
                && ip in old(table.Live()) && old(table.Live())[ip] == table.Live()[ip]
                && log == old(log) + Dispatched(old(log), ip, table.Live()[ip], old(buf.Contents()))
      ensures ip !in old(table.Live()) && ip !in old(pending.Live()) ==> requested
    {
      ghost var packet, parked := buf.Contents(), pending.slots[..];
      var found, mac := FindMac(ip);
      assert unchanged(buf) && unchanged(buf.payload) && unchanged(pending.slots);
      if found {
        Dispatch(buf, ip, mac, packet);
        return false;
      }
      requested := Enqueue(buf, ip, packet, parked);
    }

    /** What the log gains when a packet is handed over and goes out at once. */
    ghost function Dispatched(before: seq<Event>, ip: Ip, mac: Mac, packet: seq<byte>): seq<Event> {
      [Handed(ip, packet), SentIp(ip, mac, packet, |before|)]
    }

    /** The first map_get of arp_out. */
    method FindMac(ip: Ip) returns (found: bool, mac: Mac)
      requires Valid()
      modifies clock
      ensures Valid() && old(clock.now) <= clock.now
      ensures ip in table.Live() ==> ip in old(table.Live()) && table.Live()[ip] == old(table.Live())[ip]
      ensures ip in pending.Live() ==> ip in old(pending.Live())
      ensures found ==> ip in old(table.Live()) && mac == old(table.Live())[ip]
      ensures found ==> LastMac(log, ip) == Some(mac) && ip !in pending.Live()
      ensures !found ==> ip !in table.Live()
      ensures pending.slots[..] == old(pending.slots[..])
    {
      var i;
      i, found := table.Get(ip);
      TimePasses();
      mac := if found then table.slots[i].value else NO_MAC;
    }

    /** The second; a packet behind another is handed over to no effect. */
    method IsAwaited(ip: Ip, ghost packet: seq<byte>) returns (waiting: bool)
      requires Valid()
      modifies this`log, clock
      ensures Valid() && old(clock.now) <= clock.now
      ensures ip in table.Live() ==> ip in old(table.Live())
      ensures if waiting then ip in old(pending.Live()) else ip !in pending.Live()
      ensures log == if waiting then old(log) + [Handed(ip, packet)] else old(log)
      ensures pending.slots[..] == old(pending.slots[..])
    {
      var i;
      i, waiting := pending.Get(ip);
      TimePasses();
      if waiting {
        HandOver(ip, packet);
      }
    }

    /** With room in pending, whose counter was size, the packet waits; without, it is lost. */
    ghost predicate ParkedIfRoom(size: nat, ip: Ip, packet: seq<byte>)
      reads pending.slots, clock
    {
      if size < pending.slots.Length then Waits(ip, packet)
      else ip !in View(pending.slots[..], ARP_MIN_INTERVAL, clock.now)
    }

    /** The then branch of arp_out. */
    method Dispatch(buf: Buf, ip: Ip, mac: Mac, ghost packet: seq<byte>)
      requires Valid() && LastMac(log, ip) == Some(mac) && ip !in pending.Live()
      requires buf.Anchored() && ETHER_HDR_LEN <= buf.data && buf.Contents() == packet
      requires buf != txbuf && buf.payload != txbuf.payload
      modifies this`log, buf, buf.payload, driver
      ensures Valid()
      ensures log == old(log) + Dispatched(old(log), ip, mac, packet)
    {
      ghost var n := |log|;
      HandOver(ip, packet);
      SendFor(buf, ip, mac, packet, n);
    }

    /** The frame that answers hand-over n. */
    method SendFor(buf: Buf, ip: Ip, mac: Mac, ghost packet: seq<byte>, ghost n: nat)
      requires Valid() && LastMac(log, ip) == Some(mac) && ip !in pending.Live()
      requires n < |log| && log[n] == Handed(ip, packet) && !Used(log, n)
      requires buf.Anchored() && ETHER_HDR_LEN <= buf.data && buf.Contents() == packet
      requires buf != txbuf && buf.payload != txbuf.payload
      modifies this`log, buf, buf.payload, driver
      ensures Valid() && log == old(log) + [SentIp(ip, mac, packet, n)]
    {
      EthernetOut(buf, mac, PROTOCOL_IP, ifMac, driver);
      Record(SentIp(ip, mac, packet, n));
    }

    ghost method HandOver(ip: Ip, packet: seq<byte>)
      requires Valid()
      modifies this`log
      ensures Valid() && log == old(log) + [Handed(ip, packet)]
      ensures !Used(log, |old(log)|) && LastMac(log, ip) == LastMac(old(log), ip)
      ensures table.Live() == old(table.Live()) && pending.slots[..] == old(pending.slots[..])
    {
      LogSnoc(log, Handed(ip, packet), ifMac);
      Record(Handed(ip, packet));
      if Used(log, |log| - 1) {
        UsedIsEarlier(log, |log| - 1);
      }
    }

    /** The else branch of arp_out: at most one packet per next hop waits for its address. */
    method Enqueue(buf: Buf, ip: Ip, ghost packet: seq<byte>, ghost parked: seq<Slot<Ip, Image>>)
      returns (ghost requested: bool)
      requires Valid() && ip !in table.Live() && parked == pending.slots[..]
      requires buf.Anchored() && ETHER_HDR_LEN <= buf.data && buf.Contents() == packet
      requires buf != txbuf && buf.payload != txbuf.payload
      modifies this`log, this`tickets, clock, pending`size, pending.slots, txbuf, txbuf.payload, driver
      ensures Valid() && old(clock.now) <= clock.now && ip !in table.Live()
      ensures requested ==> log == old(log) + [Handed(ip, packet), SentArp(RequestFrame(ip))]
      ensures !requested ==> log == old(log) + [Handed(ip, packet)]
      ensures requested ==> txbuf.len == ETHER_HDR_LEN + ETHERNET_MIN_TRANSPORT_UNIT
      ensures requested ==> ip !in View(parked, ARP_MIN_INTERVAL, clock.now)
      ensures requested ==> ParkedIfRoom(old(pending.size), ip, packet)
      ensures requested ==> TouchesOnly(parked, pending.slots[..], ARP_MIN_INTERVAL, clock.now, ip)
      ensures !requested ==> unchanged(txbuf) && unchanged(txbuf.payload) && pending.slots[..] == parked
      ensures !requested ==> ip in old(pending.Live())
    {
      var waiting := IsAwaited(ip, packet);
      if !waiting {
        AskFor(buf, ip, packet, parked);
      }
      requested := !waiting;
    }

    method AskFor(buf: Buf, ip: Ip, ghost packet: seq<byte>, ghost parked: seq<Slot<Ip, Image>>)
      requires Valid() && ip !in table.Live() && ip !in pending.Live() && parked == pending.slots[..]
      requires buf.Anchored() && ETHER_HDR_LEN <= buf.data && buf.Contents() == packet
      modifies this`log, this`tickets, clock, pending`size, pending.slots, txbuf, txbuf.payload, driver
      ensures Valid() && old(clock.now) <= clock.now && ip !in table.Live()
      ensures log == old(log) + [Handed(ip, packet), SentArp(RequestFrame(ip))]
      ensures txbuf.len == ETHER_HDR_LEN + ETHERNET_MIN_TRANSPORT_UNIT
      ensures ParkedIfRoom(old(pending.size), ip, packet)
      ensures TouchesOnly(parked, pending.slots[..], ARP_MIN_INTERVAL, clock.now, ip)
      ensures ip !in View(parked, ARP_MIN_INTERVAL, clock.now)
    {
      ghost var before := log;
      Remember(buf, ip, packet, parked);
      SendArp(ARP_REQUEST, ip, NO_MAC, BROADCAST_MAC);
      TwoMore(before, Handed(ip, packet), SentArp(RequestFrame(ip)));
    }

    method Remember(buf: Buf, ip: Ip, ghost packet: seq<byte>, ghost parked: seq<Slot<Ip, Image>>)
      requires Valid() && ip !in table.Live() && ip !in pending.Live() && parked == pending.slots[..]
      requires buf.Anchored() && ETHER_HDR_LEN <= buf.data && buf.Contents() == packet
      modifies this`log, this`tickets, clock, pending`size, pending.slots
      ensures Valid() && old(clock.now) <= clock.now && ip !in table.Live() && log == old(log) + [Handed(ip, packet)]
      ensures ParkedIfRoom(old(pending.size), ip, packet)
      ensures TouchesOnly(parked, pending.slots[..], ARP_MIN_INTERVAL, clock.now, ip)
      ensures ip !in View(parked, ARP_MIN_INTERVAL, clock.now)
    {
      ghost var n := |log|;
      HandOver(ip, packet);
      var image := Copied(buf);
      Park(ip, image, n, parked);
    }

    /** The map_set of arp_out: the packet goes into a slot, or nowhere if pending is full. */
    method Park(ip: Ip, image: Image, ghost n: nat, ghost parked: seq<Slot<Ip, Image>>)
      requires Valid() && ip !in table.Live() && ip !in pending.Live() && parked == pending.slots[..]
      requires image.Anchored() && ETHER_HDR_LEN <= image.data
      requires n < |log| && log[n] == Handed(ip, image.Contents()) && !Used(log, n)
      modifies this`tickets, clock, pending`size, pending.slots
      ensures Valid() && old(clock.now) <= clock.now && ip !in table.Live()
      ensures ParkedIfRoom(old(pending.size), ip, image.Contents())
      ensures TouchesOnly(parked, pending.slots[..], ARP_MIN_INTERVAL, clock.now, ip)
      ensures ip !in View(parked, ARP_MIN_INTERVAL, clock.now)
    {
      ghost var resolved := table.slots[..];
      ghost var start := clock.now;
      var ok, pos := pending.Set(ip, image);
      assert table.slots[..] == resolved;
      ViewShrinks(resolved, table.timeout, start, clock.now);
      ViewShrinks(parked, pending.timeout, start, clock.now);
      if ok {
        ParksOne(parked, pending.slots[..], start, clock.now, tickets, log, pos, ip, image, n);
        tickets := tickets[pos := n];
      } else {
        ParkedLater(parked, parked, pending.timeout, start, clock.now, tickets, log);
      }
      assert Resolved(table.Live(), log);
      assert Apart(table.Live(), pending.Live());
    }

    /** The map_set of arp_in.  A full table refuses an absent sender, which then stays absent; any other is
        resolved to the address just heard.  Nothing else changes but by expiring. */
    method Learn(ip: Ip, mac: Mac) returns (ghost learned: bool, ghost pos: nat)
      requires Valid()
      modifies this`log, clock, table`size, table.slots
      ensures Consistent() && old(clock.now) <= clock.now
      ensures ApartBut(table.Live(), pending.Live(), ip)
      ensures log == old(log) + [Learned(ip, mac)] && LastMac(log, ip) == Some(mac)
      ensures Learnt(old(table.slots[..]), old(table.size), ip, mac, learned, pos)
      ensures table.size <= old(table.size) + 1
    {
      learned, pos := Memorize(ip, mac);
      LogSnoc(log, Learned(ip, mac), ifMac);
      Record(Learned(ip, mac));
    }

    /** What the table has become, from slots s with counter size. */
    ghost predicate Learnt(s: seq<Slot<Ip, Mac>>, size: nat, ip: Ip, mac: Mac, learned: bool, pos: nat)
      reads table.slots, clock
    {
      && (size < table.slots.Length || ip in View(s, ARP_TIMEOUT_SEC, clock.now) ==> learned)
      && Written(s, table.slots[..], clock.now, ip, mac, learned, pos)
    }

    method Memorize(ip: Ip, mac: Mac) returns (ghost learned: bool, ghost pos: nat)
      requires Valid()
      modifies clock, table`size, table.slots
      ensures table.Valid() && pending.Valid() && ParkedHold() && old(clock.now) <= clock.now
      ensures ApartBut(table.Live(), pending.Live(), ip)
      ensures Resolved(table.Live(), log + [Learned(ip, mac)])
      ensures Learnt(old(table.slots[..]), old(table.size), ip, mac, learned, pos)
      ensures table.size <= old(table.size) + 1
    {
      ghost var resolved := table.slots[..];
      ghost var parked := pending.slots[..];
      ghost var start := clock.now;
      var ok;
      ok, pos := table.Set(ip, mac);
      learned := ok;
      assert pending.slots[..] == parked;
      ViewShrinks(resolved, table.timeout, start, clock.now);
      ViewShrinks(parked, pending.timeout, start, clock.now);
      ParkedLater(parked, parked, pending.timeout, start, clock.now, tickets, log);
      ResolvedAfter(View(resolved, table.timeout, clock.now), table.Live(), log, Learned(ip, mac));
    }

    /** The second half of arp_in: a parked packet leaves and its slot is freed. */
    method Release(ip: Ip, mac: Mac) returns (released: bool, ghost t: nat)
      requires Consistent() && ApartBut(table.Live(), pending.Live(), ip)
      requires LastMac(log, ip) == Some(mac)
      modifies this`log, clock, pending`size, pending.slots, driver
      ensures Valid() && old(clock.now) <= clock.now
      ensures ip !in pending.Live()
      ensures TouchesOnly(old(pending.slots[..]), pending.slots[..], ARP_MIN_INTERVAL, clock.now, ip)
      ensures released ==> ip in old(pending.Live()) && old(pending.Live())[ip].Anchored()
      ensures released ==> t < |old(log)| && old(log)[t] == Handed(ip, old(pending.Live())[ip].Contents())
      ensures released ==> log == old(log) + [SentIp(ip, mac, old(pending.Live())[ip].Contents(), t)]
      ensures !released ==> log == old(log) && ip !in View(old(pending.slots[..]), pending.timeout, clock.now)
    {
      ghost var parked := pending.slots[..];
      var i, found := pending.Get(ip);
      TimePasses();
      if !found {
        return false, 0;
      }
      t := tickets[i];
      assert parked[i] == pending.slots[i] && Holds(parked[i], t, log);
      Discharge(ip, mac, pending.slots[i].value, t);
      return true, t;
    }

    /** Frames the parked packet and frees its slot. */
    method Discharge(ip: Ip, mac: Mac, image: Image, ghost t: nat)
      requires Consistent() && ApartBut(table.Live(), pending.Live(), ip)
      requires LastMac(log, ip) == Some(mac)
      requires image.Anchored() && ETHER_HDR_LEN <= image.data
      requires t < |log| && log[t] == Handed(ip, image.Contents()) && !Used(log, t)
      modifies this`log, clock, pending`size, pending.slots, driver
      ensures Valid() && old(clock.now) <= clock.now
      ensures ip !in pending.Live()
      ensures TouchesOnly(old(pending.slots[..]), pending.slots[..], ARP_MIN_INTERVAL, clock.now, ip)
      ensures log == old(log) + [SentIp(ip, mac, image.Contents(), t)]
    {
      ghost var packet := image.Contents();
      SendImage(image, mac);
      Unpark(ip);
      assert Apart(table.Live(), pending.Live()) && Resolved(table.Live(), log);
      assert Recordable(log, SentIp(ip, mac, packet, t));
      Record(SentIp(ip, mac, packet, t));
      assert Consistent();
      assert Apart(table.Live(), pending.Live());
    }

    method SendImage(image: Image, mac: Mac)
      requires image.Anchored() && ETHER_HDR_LEN <= image.data
      modifies driver
      ensures driver.sent == old(driver.sent) + [Frame(mac, ifMac, PROTOCOL_IP, image.Contents())]
    {
      var buf2 := new Buf.Load(image);
      EthernetOut(buf2, mac, PROTOCOL_IP, ifMac, driver);
    }

    /** The map_delete of arp_in. */
    method Unpark(ip: Ip)
      requires table.clock == pending.clock == clock && table.Valid() && pending.Valid() && ParkedHold()
      modifies clock, pending`size, pending.slots
      ensures table.Valid() && pending.Valid() && ParkedHold() && old(clock.now) <= clock.now
      ensures ip !in pending.Live() && Within(pending.Live(), old(pending.Live()))
      ensures TouchesOnly(old(pending.slots[..]), pending.slots[..], ARP_MIN_INTERVAL, clock.now, ip)
      ensures Within(table.Live(), old(table.Live()))
      ensures Resolved(old(table.Live()), log) ==> Resolved(table.Live(), log)
    {
      ghost var parked := pending.slots[..];
      ghost var resolved := table.slots[..];
      ghost var start := clock.now;
      var hit, pos := pending.Delete(ip);
      assert table.slots[..] == resolved;
      ViewShrinks(resolved, table.timeout, start, clock.now);
      ViewShrinks(parked, pending.timeout, start, clock.now);
      ParkedLater(parked, pending.slots[..], pending.timeout, start, clock.now, tickets, log);
    }

    /** A packet handed over for ip earlier leaves, unchanged, for the address just heard. */
    ghost predicate Released(before: seq<Event>, after: seq<Event>, ip: Ip, mac: Mac, packet: seq<byte>) {
      exists t: nat :: t < |before| && before[t] == Handed(ip, packet) &&
                       after == before + [Learned(ip, mac), SentIp(ip, mac, packet, t)]
    }

    lemma ReleasedAt(before: seq<Event>, ip: Ip, mac: Mac, packet: seq<byte>, t: nat)
      requires t < |before + [Learned(ip, mac)]| && (before + [Learned(ip, mac)])[t] == Handed(ip, packet)
      ensures Released(before, before + [Learned(ip, mac)] + [SentIp(ip, mac, packet, t)], ip, mac, packet)
    {
      assert before[t] == Handed(ip, packet);
      assert before + [Learned(ip, mac)] + [SentIp(ip, mac, packet, t)] ==
             before + [Learned(ip, mac), SentIp(ip, mac, packet, t)];
    }

    /** What an accepted ARP message adds to the log if nothing is parked for its sender: the address, then a
        reply if it asks for our address. */
    ghost predicate Answered(before: seq<Event>, after: seq<Event>, m: ArpMessage) {
      var heard := before + [Learned(m.senderIp, m.senderMac)];
      var reply := SentArp(ReplyFrame(m.senderIp, m.senderMac));
      after == if m.opcode == ARP_REQUEST && m.targetIp == ifIp then heard + [reply] else heard
    }

    /** How an accepted message is handled, from log before and parked packets waiting. */
    ghost predicate Handled(before: seq<Event>, waiting: map<Ip, Image>, m: ArpMessage, released: bool)
      reads this
    {
      if released then
        && m.senderIp in waiting && waiting[m.senderIp].Anchored()
        && Released(before, log, m.senderIp, m.senderMac, waiting[m.senderIp].Contents())
      else Answered(before, log, m)
    }

    /** What has become of the table, now and, unless it changes again, at the horizon. */
    ghost predicate SettledHere(s: seq<Slot<Ip, Mac>>, size: nat, t: nat, ip: Ip, mac: Mac)
      reads table.slots, clock
    {
      && Settled(s, size, t, table.slots[..], clock.now, ip, mac)
      && Settled(s, size, t, table.slots[..], clock.horizon, ip, mac)
    }

    /** arp_in (src/arp.c:100-135).  The sender is resolved to the address just heard unless it is new and the
        table's counter stands at capacity; in either case the packet parked for it, if that has not expired,
        leaves for that address, and no packet is parked for it any more. */
    method ArpIn(buf: Buf) returns (ghost released: bool)
      requires Valid() && buf.Valid()
      requires buf != txbuf && buf.payload != txbuf.payload
      modifies this`log, clock, table`size, table.slots, pending`size, pending.slots, txbuf, txbuf.payload, driver
      ensures Valid() && old(clock.now) <= clock.now
      ensures ParseArp(old(buf.Contents())).None? ==>
                log == old(log) && table.slots[..] == old(table.slots[..]) &&
                pending.slots[..] == old(pending.slots[..])
      ensures table.size <= old(table.size) + 1
      ensures ParseArp(old(buf.Contents())).Some? ==>
                var m := ParseArp(old(buf.Contents())).value;
                && m.senderIp !in pending.Live()
                && TouchesOnly(old(pending.slots[..]), pending.slots[..], ARP_MIN_INTERVAL, clock.now, m.senderIp)
                && Handled(old(log), old(pending.Live()), m, released)
                && (m.senderIp in View(old(pending.slots[..]), ARP_MIN_INTERVAL, clock.now) ==> released)
                && SettledHere(old(table.slots[..]), old(table.size), old(clock.now), m.senderIp, m.senderMac)
    {
      released := false;
      var parsed := ParseArp(buf.payload[buf.data..buf.data + buf.len]);
      if parsed.Some? {
        released := Handle(parsed.value);
      }
    }

    method Handle(m: ArpMessage) returns (ghost released: bool)
      requires Valid()
      modifies this`log, clock, table`size, table.slots, pending`size, pending.slots, txbuf, txbuf.payload, driver
      ensures Valid() && old(clock.now) <= clock.now
      ensures m.senderIp !in pending.Live()
      ensures TouchesOnly(old(pending.slots[..]), pending.slots[..], ARP_MIN_INTERVAL, clock.now, m.senderIp)
      ensures Handled(old(log), old(pending.Live()), m, released)
      ensures table.size <= old(table.size) + 1
      ensures m.senderIp in View(old(pending.slots[..]), ARP_MIN_INTERVAL, clock.now) ==> released
      ensures SettledHere(old(table.slots[..]), old(table.size), old(clock.now), m.senderIp, m.senderMac)
    {
      ghost var before, parked, s, size, start := log, pending.slots[..], table.slots[..], table.size, clock.now;
      ghost var learned, pos := Learn(m.senderIp, m.senderMac);
      ghost var t, written := clock.now, table.slots[..];
      assert unchanged(pending.slots);
      label heard:
      released := Respond(m, before, parked);
      HandledEarlier(before, parked, start, t, m, released);
      assert unchanged@heard(table.slots);
      SettledLater(s, size, start, written, t, clock.now, m.senderIp, m.senderMac, learned, pos);
      SettledLater(s, size, start, written, t, clock.horizon, m.senderIp, m.senderMac, learned, pos);
    }

    /** The second half of arp_in (src/arp.c:121-134), with the sender's address just learned. */
    method Respond(m: ArpMessage, ghost before: seq<Event>, ghost parked: seq<Slot<Ip, Image>>)
      returns (ghost released: bool)
      requires Consistent() && ApartBut(table.Live(), pending.Live(), m.senderIp) && parked == pending.slots[..]
      requires log == before + [Learned(m.senderIp, m.senderMac)] && LastMac(log, m.senderIp) == Some(m.senderMac)
      modifies this`log, clock, pending`size, pending.slots, txbuf, txbuf.payload, driver
      ensures Valid() && old(clock.now) <= clock.now
      ensures m.senderIp !in pending.Live()
      ensures TouchesOnly(parked, pending.slots[..], ARP_MIN_INTERVAL, clock.now, m.senderIp)
      ensures Handled(before, View(parked, ARP_MIN_INTERVAL, old(clock.now)), m, released)
      ensures m.senderIp in View(parked, ARP_MIN_INTERVAL, clock.now) ==> released
    {
      ghost var start, ticket := clock.now, 0;
      var found;
      found, ticket := Release(m.senderIp, m.senderMac);
      released := found;
      if found {
        ghost var packet := View(parked, ARP_MIN_INTERVAL, start)[m.senderIp].Contents();
        ReleasedAt(before, m.senderIp, m.senderMac, packet, ticket);
      } else if m.opcode == ARP_REQUEST && m.targetIp == ifIp {
        SendArp(ARP_REPLY, m.senderIp, m.senderMac, m.senderMac);
      }
    }

    lemma HandledEarlier(before: seq<Event>, parked: seq<Slot<Ip, Image>>, start: nat, t: nat, m: ArpMessage,
                         released: bool)
      requires UniqueKeys(parked, ARP_MIN_INTERVAL, start) && start <= t
      requires Handled(before, View(parked, ARP_MIN_INTERVAL, t), m, released)
      ensures Handled(before, View(parked, ARP_MIN_INTERVAL, start), m, released)
    {
      ViewShrinks(parked, ARP_MIN_INTERVAL, start, t);
    }

    lemma HandledGrows(before: seq<Event>, waiting: map<Ip, Image>, m: ArpMessage, released: bool)
      requires Handled(before, waiting, m, released)
      ensures before <= log
    {
    }

    /** What the invariant says of the run so far: the wire carries just what the log says, and each IP packet
        on it had been handed over before for that next hop, unchanged, and its frame begins with the address last
        heard from that hop. */
    lemma SentSoFar(i: nat)
      requires Valid() && i < |log| && log[i].SentIp?
      ensures driver.sent == FramesOf(log, ifMac)
      ensures LastMac(log[..i], log[i].ip) == Some(log[i].mac)
      ensures var (k, packet) := (|FramesOf(log[..i], ifMac)|, log[i].packet);
              && k < |driver.sent| && ETHER_HDR_LEN + |packet| <= |driver.sent[k]|
              && Some(driver.sent[k][..6]) == LastMac(log[..i], log[i].ip) && driver.sent[k][6..12] == ifMac
              && driver.sent[k][ETHER_HDR_LEN..ETHER_HDR_LEN + |packet|] == packet
      ensures log[i].ticket < i && log[log[i].ticket] == Handed(log[i].ip, log[i].packet)
      ensures forall j | 0 <= j < |log| && j != i && log[j].SentIp? :: log[j].ticket != log[i].ticket
    {
      SentIsJustified(log, i);
      FrameAt(log, i, ifMac);
      FrameIsFor(log[i].mac, ifMac, PROTOCOL_IP, log[i].packet);
      forall j | 0 <= j < |log| && j != i && log[j].SentIp?
        ensures log[j].ticket != log[i].ticket
      {
        if i < j {
          TicketsDiffer(log, i, j);
        } else {
          TicketsDiffer(log, j, i);
        }
      }
    }

    lemma {:induction false} WireOfRequest(before: seq<Event>, ip: Ip, packet: seq<byte>)
      ensures FramesOf(before + [Handed(ip, packet), SentArp(RequestFrame(ip))], ifMac) ==
              FramesOf(before, ifMac) + [RequestFrame(ip)]
    {
      var handed := before + [Handed(ip, packet)];
      TwoMore(before, Handed(ip, packet), SentArp(RequestFrame(ip)));
      LogSnoc(before, Handed(ip, packet), ifMac);
      LogSnoc(handed, SentArp(RequestFrame(ip)), ifMac);
    }

    lemma {:induction false} WireOfRelease(before: seq<Event>, ip: Ip, mac: Mac, packet: seq<byte>, after: seq<Event>)
      requires Released(before, after, ip, mac, packet)
      ensures FramesOf(after, ifMac) == FramesOf(before, ifMac) + [Frame(mac, ifMac, PROTOCOL_IP, packet)]
    {
      var t: nat :| t < |before| && before[t] == Handed(ip, packet) &&
                    after == before + [Learned(ip, mac), SentIp(ip, mac, packet, t)];
      TwoMore(before, Learned(ip, mac), SentIp(ip, mac, packet, t));
      LogSnoc(before, Learned(ip, mac), ifMac);
      LogSnoc(before + [Learned(ip, mac)], SentIp(ip, mac, packet, t), ifMac);
    }

    /** One call from above or below that brings no ARP packet from x: what is parked for x stays. */
    method Perform(c: Call, ghost x: Ip)
      requires Valid() && Fits(c) && !Brings(c, x)
      modifies this`log, this`tickets, clock, table`size, table.slots, pending`size, pending.slots,
               txbuf, txbuf.payload, driver
      ensures Valid() && old(clock.now) <= clock.now
      ensures Spares(old(pending.slots[..]), pending.slots[..], ARP_MIN_INTERVAL, clock.now, x)
      ensures table.size <= old(table.size) + 1 && old(driver.sent) <= driver.sent
    {
      var buf := new Buf();
      Fill(buf, c.packet);
      match c
      case Out(packet, ip) => PerformOut(buf, ip, packet, x);
      case In(packet) => PerformIn(buf, packet, x);
    }

    method PerformOut(buf: Buf, ip: Ip, ghost packet: seq<byte>, ghost x: Ip)
      requires Valid() && buf.Anchored() && ETHER_HDR_LEN <= buf.data && buf.Contents() == packet
      requires buf != txbuf && buf.payload != txbuf.payload
      modifies this`log, this`tickets, clock, pending`size, pending.slots, buf, buf.payload, txbuf, txbuf.payload,
               driver
      ensures Valid() && old(clock.now) <= clock.now
      ensures Spares(old(pending.slots[..]), pending.slots[..], ARP_MIN_INTERVAL, clock.now, x)
      ensures old(driver.sent) <= driver.sent
    {
      ghost var before, parked := log, pending.slots[..];
      ghost var requested := ArpOut(buf, ip);
      if x != ip || requested {
        SparesOthers(parked, pending.slots[..], ARP_MIN_INTERVAL, clock.now, ip, x);
      }
      FramesGrow(before, log, ifMac);
    }

    method PerformIn(buf: Buf, ghost packet: seq<byte>, ghost x: Ip)
      requires Valid() && buf.Valid() && buf.Contents() == packet && !Brings(In(packet), x)
      requires buf != txbuf && buf.payload != txbuf.payload
      modifies this`log, clock, table`size, table.slots, pending`size, pending.slots, txbuf, txbuf.payload, driver
      ensures Valid() && old(clock.now) <= clock.now
      ensures Spares(old(pending.slots[..]), pending.slots[..], ARP_MIN_INTERVAL, clock.now, x)
      ensures table.size <= old(table.size) + 1 && old(driver.sent) <= driver.sent
    {
      ghost var before, parked, waiting := log, pending.slots[..], pending.Live();
      ghost var released := ArpIn(buf);
      if ParseArp(packet).Some? {
        ghost var m := ParseArp(packet).value;
        SparesOthers(parked, pending.slots[..], ARP_MIN_INTERVAL, clock.now, m.senderIp, x);
        HandledGrows(before, waiting, m, released);
      }
      FramesGrow(before, log, ifMac);
    }

    /** Any number of them. */
    method PerformAll(calls: seq<Call>, ghost x: Ip)
      requires Valid() && forall i | 0 <= i < |calls| :: Fits(calls[i]) && !Brings(calls[i], x)
      modifies this`log, this`tickets, clock, table`size, table.slots, pending`size, pending.slots,
               txbuf, txbuf.payload, driver
      ensures Valid() && old(clock.now) <= clock.now
      ensures Spares(old(pending.slots[..]), pending.slots[..], ARP_MIN_INTERVAL, clock.now, x)
      ensures table.size <= old(table.size) + |calls| && old(driver.sent) <= driver.sent
    {
      ghost var parked := pending.slots[..];
      var i := 0;
      while i < |calls|
        invariant i <= |calls| && Valid() && old(clock.now) <= clock.now
        invariant Spares(parked, pending.slots[..], ARP_MIN_INTERVAL, clock.now, x)
        invariant table.size <= old(table.size) + i && old(driver.sent) <= driver.sent
      {
        ghost var s, t := pending.slots[..], clock.now;
        Perform(calls[i], x);
        SparesMore(parked, s, pending.slots[..], ARP_MIN_INTERVAL, t, clock.now, x);
        i := i + 1;
      }
    }

    /** A packet for an unknown next hop. */
    method Ask(packet: seq<byte>, ip: Ip)
      requires Valid() && ip !in table.Live() && ip !in pending.Live() && pending.size < pending.slots.Length
      requires Fits(Out(packet, ip))
      modifies this`log, this`tickets, clock, pending`size, pending.slots, txbuf, txbuf.payload, driver
      ensures Valid() && old(clock.now) <= clock.now
      ensures driver.sent == old(driver.sent) + [RequestFrame(ip)]
      ensures Awaits(pending.slots[..], clock.now, clock.now, ip, packet)
    {
      ghost var before := log;
      var buf := new Buf();
      Fill(buf, packet);
      ghost var requested := ArpOut(buf, ip);
      WireOfRequest(before, ip, packet);
    }

    /** An ARP packet, for whose sender packet has been parked since the time asked. */
    method Answer(heard: seq<byte>, ghost m: ArpMessage, ghost packet: seq<byte>, ghost asked: nat)
      requires Valid() && Fits(In(heard)) && ParseArp(heard) == Some(m) && asked <= clock.now
      requires Awaits(pending.slots[..], asked, clock.now, m.senderIp, packet)
      modifies this`log, clock, table`size, table.slots, pending`size, pending.slots, txbuf, txbuf.payload, driver
      ensures Valid() && old(clock.now) <= clock.now
      ensures clock.now <= asked + ARP_MIN_INTERVAL ==>
                driver.sent == old(driver.sent) + [Frame(m.senderMac, ifMac, PROTOCOL_IP, packet)]
      ensures clock.now <= old(clock.now) + ARP_TIMEOUT_SEC && old(table.size) < table.slots.Length ==>
                m.senderIp in table.Live() && table.Live()[m.senderIp] == m.senderMac
    {
      ghost var before, parked, t := log, pending.slots[..], clock.now;
      var buf := new Buf();
      Fill(buf, heard);
      ghost var released := ArpIn(buf);
      if clock.now <= asked + ARP_MIN_INTERVAL {
        AwaitedLater(parked, asked, t, clock.now, m.senderIp, packet);
        WireOfRelease(before, m.senderIp, m.senderMac, packet, log);
      }
    }

    /** The round trip of address resolution: a packet for an unknown next hop, then any traffic but an ARP packet
        from it, then an ARP packet from it.  If that comes within a second, the wire shows the request and, last of
        all, that very packet, unchanged, for the address heard; and the next hop is resolved if the table had
        room. */
    method Exchange(packet: seq<byte>, ip: Ip, calls: seq<Call>, heard: seq<byte>, ghost m: ArpMessage)
      returns (ghost asked: nat, ghost answered: nat, ghost between: seq<seq<byte>>)
      requires Valid() && ip !in table.Live() && ip !in pending.Live() && pending.size < pending.slots.Length
      requires Fits(Out(packet, ip)) && Fits(In(heard)) && ParseArp(heard) == Some(m) && m.senderIp == ip
      requires forall i | 0 <= i < |calls| :: Fits(calls[i]) && !Brings(calls[i], ip)
      modifies this`log, this`tickets, clock, table`size, table.slots, pending`size, pending.slots,
               txbuf, txbuf.payload, driver
      ensures Valid() && old(clock.now) <= asked <= answered <= clock.now
      ensures clock.now <= asked + ARP_MIN_INTERVAL ==>
                driver.sent == old(driver.sent) + [RequestFrame(ip)] + between +
                               [Frame(m.senderMac, ifMac, PROTOCOL_IP, packet)]
      ensures clock.now <= answered + ARP_TIMEOUT_SEC && old(table.size) + |calls| < table.slots.Length ==>
                ip in table.Live() && table.Live()[ip] == m.senderMac
    {
      Ask(packet, ip);
      ghost var parked, sent := pending.slots[..], driver.sent;
      asked := clock.now;
      PerformAll(calls, ip);
      answered, between := clock.now, Since(sent, driver.sent);
      AwaitsStill(parked, pending.slots[..], asked, answered, ip, packet);
      Answer(heard, m, packet, asked);
    }
  }
}
