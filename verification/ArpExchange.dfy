/** Address resolution between two stacks: the request that one puts on its wire, what the other makes of it, and
    what comes back (RFC 826). */
module ArpExchanges {
  import opened Bytes
  import opened Buffers
  import opened TimedMaps
  import opened Ethernet
  import opened Arps

  /** A request goes to everybody, says who asks, and asks for ip. */
  lemma RequestAsks(arp: Arp, ip: Ip)
    ensures var f := arp.RequestFrame(ip);
            && |f| == 60 && f[..6] == [0xFF, 0xFF, 0xFF, 0xFF, 0xFF, 0xFF]
            && Unframe(f).Upcall? && Unframe(f).protocol == PROTOCOL_ARP && Unframe(f).src == arp.ifMac
            && ParseArp(Unframe(f).packet) == Some(ArpMessage(ARP_REQUEST, arp.ifMac, arp.ifIp, ip))
  {
    var packet := ArpPacket(ARP_REQUEST, arp.ifMac, arp.ifIp, NO_MAC, ip);
    FrameIsFor(BROADCAST_MAC, arp.ifMac, PROTOCOL_ARP, packet);
    UnframeOfFrame(BROADCAST_MAC, arp.ifMac, PROTOCOL_ARP, packet);
    ParseArpOfPacket(ARP_REQUEST, arp.ifMac, arp.ifIp, NO_MAC, ip, Padded(packet));
  }

  /** A reply goes to the one that asked, and says who has the address asked for. */
  lemma ReplyTells(arp: Arp, ip: Ip, mac: Mac)
    ensures var f := arp.ReplyFrame(ip, mac);
            && |f| == 60 && f[..6] == mac
            && Unframe(f).Upcall? && Unframe(f).protocol == PROTOCOL_ARP && Unframe(f).src == arp.ifMac
            && ParseArp(Unframe(f).packet) == Some(ArpMessage(ARP_REPLY, arp.ifMac, arp.ifIp, ip))
  {
    var packet := ArpPacket(ARP_REPLY, arp.ifMac, arp.ifIp, mac, ip);
    FrameIsFor(mac, arp.ifMac, PROTOCOL_ARP, packet);
    UnframeOfFrame(mac, arp.ifMac, PROTOCOL_ARP, packet);
    ParseArpOfPacket(ARP_REPLY, arp.ifMac, arp.ifIp, mac, ip, Padded(packet));
  }

  /** ethernet_in of a frame in a buffer of its own. */
  method FromWire(frame: seq<byte>) returns (up: Upcall)
    requires |frame| < BUF_MIDDLE
    ensures up == Unframe(frame)
  {
    var buf := new Buf();
    Fill(buf, frame);
    up := EthernetIn(buf);
  }

  /** What a frame with message m comes to.  A packet that waits for its sender leaves, and then a request is not
      answered; otherwise a request is answered iff it asks for this stack's own address, and nothing else is. */
  method Hear(arp: Arp, frame: seq<byte>, ghost m: ArpMessage) returns (ghost released: bool)
    requires arp.Valid() && |frame| < BUF_MIDDLE
    requires Unframe(frame).Upcall? && Unframe(frame).protocol == PROTOCOL_ARP
    requires ParseArp(Unframe(frame).packet) == Some(m)
    modifies arp`log, arp.clock, arp.table`size, arp.table.slots, arp.pending`size, arp.pending.slots, arp.txbuf,
             arp.txbuf.payload, arp.driver
    ensures arp.Valid() && old(arp.clock.now) <= arp.clock.now
    ensures m.senderIp in View(old(arp.pending.slots[..]), ARP_MIN_INTERVAL, arp.clock.now) ==> released
    ensures released ==>
              && m.senderIp in old(arp.pending.Live()) && old(arp.pending.Live())[m.senderIp].Anchored()
              && arp.driver.sent == old(arp.driver.sent) +
                 [Frame(m.senderMac, arp.ifMac, PROTOCOL_IP, old(arp.pending.Live())[m.senderIp].Contents())]
    ensures !released ==>
              arp.driver.sent == old(arp.driver.sent) +
              if m.opcode == ARP_REQUEST && m.targetIp == arp.ifIp then [arp.ReplyFrame(m.senderIp, m.senderMac)]
              else []
    ensures arp.clock.now <= old(arp.clock.now) + ARP_TIMEOUT_SEC && old(arp.table.size) < arp.table.slots.Length ==>
              m.senderIp in arp.table.Live() && arp.table.Live()[m.senderIp] == m.senderMac
  {
    var up := FromWire(frame);
    released := HearPacket(arp, up.packet, m);
  }

  method HearPacket(arp: Arp, packet: seq<byte>, ghost m: ArpMessage) returns (ghost released: bool)
    requires arp.Valid() && |packet| < BUF_MIDDLE && ParseArp(packet) == Some(m)
    modifies arp`log, arp.clock, arp.table`size, arp.table.slots, arp.pending`size, arp.pending.slots, arp.txbuf,
             arp.txbuf.payload, arp.driver
    ensures arp.Valid() && old(arp.clock.now) <= arp.clock.now
    ensures m.senderIp in View(old(arp.pending.slots[..]), ARP_MIN_INTERVAL, arp.clock.now) ==> released
    ensures released ==>
              && m.senderIp in old(arp.pending.Live()) && old(arp.pending.Live())[m.senderIp].Anchored()
              && arp.driver.sent == old(arp.driver.sent) +
                 [Frame(m.senderMac, arp.ifMac, PROTOCOL_IP, old(arp.pending.Live())[m.senderIp].Contents())]
    ensures !released ==>
              arp.driver.sent == old(arp.driver.sent) +
              if m.opcode == ARP_REQUEST && m.targetIp == arp.ifIp then [arp.ReplyFrame(m.senderIp, m.senderMac)]
              else []
    ensures arp.clock.now <= old(arp.clock.now) + ARP_TIMEOUT_SEC && old(arp.table.size) < arp.table.slots.Length ==>
              m.senderIp in arp.table.Live() && arp.table.Live()[m.senderIp] == m.senderMac
  {
    ghost var before, waiting := arp.log, arp.pending.Live();
    var buf := new Buf();
    Fill(buf, packet);
    released := arp.ArpIn(buf);
    if released {
      arp.WireOfRelease(before, m.senderIp, m.senderMac, waiting[m.senderIp].Contents(), arp.log);
    } else {
      WireOfAnswer(arp, before, m);
    }
  }

  lemma {:induction false} WireOfAnswer(arp: Arp, before: seq<Event>, m: ArpMessage)
    requires arp.Answered(before, arp.log, m)
    ensures FramesOf(arp.log, arp.ifMac) ==
            FramesOf(before, arp.ifMac) +
            if m.opcode == ARP_REQUEST && m.targetIp == arp.ifIp then [arp.ReplyFrame(m.senderIp, m.senderMac)] else []
  {
    var heard := before + [Learned(m.senderIp, m.senderMac)];
    LogSnoc(before, Learned(m.senderIp, m.senderMac), arp.ifMac);
    LogSnoc(heard, SentArp(arp.ReplyFrame(m.senderIp, m.senderMac)), arp.ifMac);
  }

  // ----- Two stacks

  ghost function Parts(arp: Arp): set<object> {
    {arp, arp.clock, arp.table, arp.table.slots, arp.pending, arp.pending.slots, arp.txbuf, arp.txbuf.payload,
     arp.driver}
  }

  /** The other stack at work, this one is left as it was. */
  twostate lemma Rests(arp: Arp)
    requires old(arp.Valid()) && unchanged(Parts(arp))
    ensures arp.Valid() && arp.clock.now == old(arp.clock.now) && arp.driver.sent == old(arp.driver.sent)
    ensures arp.table.Live() == old(arp.table.Live()) && arp.pending.slots[..] == old(arp.pending.slots[..])
    ensures arp.pending.Live() == old(arp.pending.Live()) && arp.table.size == old(arp.table.size)
  {
    assert arp.table.slots[..] == old(arp.table.slots[..]) && arp.pending.slots[..] == old(arp.pending.slots[..]);
  }

  method AskApart(a: Arp, packet: seq<byte>, ip: Ip, ghost others: set<object>) returns (request: seq<byte>)
    requires a.Valid() && ip !in a.table.Live() && ip !in a.pending.Live() && a.pending.size < a.pending.slots.Length
    requires Fits(Out(packet, ip)) && Parts(a) !! others
    modifies a`log, a`tickets, a.clock, a.pending`size, a.pending.slots, a.txbuf, a.txbuf.payload, a.driver
    ensures a.Valid() && unchanged(others) && request == a.RequestFrame(ip) && old(a.clock.now) <= a.clock.now
    ensures a.driver.sent == old(a.driver.sent) + [request] && a.table.size == old(a.table.size)
    ensures Awaits(a.pending.slots[..], a.clock.now, a.clock.now, ip, packet)
  {
    a.Ask(packet, ip);
    request := a.driver.sent[|a.driver.sent| - 1];
  }

  method HearApart(b: Arp, request: seq<byte>, asker: Ip, askerMac: Mac, ghost others: set<object>)
    returns (reply: seq<byte>)
    requires b.Valid() && Parts(b) !! others && |request| < BUF_MIDDLE
    requires Unframe(request).Upcall? && Unframe(request).protocol == PROTOCOL_ARP
    requires ParseArp(Unframe(request).packet) == Some(ArpMessage(ARP_REQUEST, askerMac, asker, b.ifIp))
    requires asker !in b.pending.Live()
    modifies b`log, b.clock, b.table`size, b.table.slots, b.pending`size, b.pending.slots, b.txbuf, b.txbuf.payload,
             b.driver
    ensures b.Valid() && unchanged(others) && old(b.clock.now) <= b.clock.now
    ensures reply == b.ReplyFrame(asker, askerMac) && b.driver.sent == old(b.driver.sent) + [reply]
    ensures b.clock.now <= old(b.clock.now) + ARP_TIMEOUT_SEC && old(b.table.size) < b.table.slots.Length ==>
              asker in b.table.Live() && b.table.Live()[asker] == askerMac
  {
    ghost var released := Hear(b, request, ArpMessage(ARP_REQUEST, askerMac, asker, b.ifIp));
    reply := b.driver.sent[|b.driver.sent| - 1];
  }

  method LearnApart(a: Arp, reply: seq<byte>, ghost m: ArpMessage, ghost packet: seq<byte>, ghost asked: nat,
                    ghost others: set<object>)
    requires a.Valid() && Parts(a) !! others && |reply| < BUF_MIDDLE && asked <= a.clock.now
    requires Unframe(reply).Upcall? && ParseArp(Unframe(reply).packet) == Some(m)
    requires Awaits(a.pending.slots[..], asked, a.clock.now, m.senderIp, packet)
    modifies a`log, a.clock, a.table`size, a.table.slots, a.pending`size, a.pending.slots, a.txbuf, a.txbuf.payload,
             a.driver
    ensures a.Valid() && unchanged(others) && old(a.clock.now) <= a.clock.now
    ensures a.clock.now <= asked + ARP_MIN_INTERVAL ==>
              a.driver.sent == old(a.driver.sent) + [Frame(m.senderMac, a.ifMac, PROTOCOL_IP, packet)]
    ensures a.clock.now <= old(a.clock.now) + ARP_TIMEOUT_SEC && old(a.table.size) < a.table.slots.Length ==>
              m.senderIp in a.table.Live() && a.table.Live()[m.senderIp] == m.senderMac
  {
    var up := FromWire(reply);
    a.Answer(up.packet, m, packet, asked);
  }

  /** The exchange from end to end.  a has a packet for b's address and does not know it; its request, as b hears it,
      makes b reply, unless b waits for a in turn; and the reply, as a hears it, puts the packet, unchanged, into a
      frame for b, if it comes within a second.  Both know each other then, if their tables had room. */
  method Resolve(a: Arp, b: Arp, packet: seq<byte>) returns (ghost asked: nat, ghost heard: nat)
    requires a.Valid() && b.Valid() && Parts(a) !! Parts(b) && Fits(Out(packet, b.ifIp))
    requires b.ifIp !in a.table.Live() && b.ifIp !in a.pending.Live() && a.pending.size < a.pending.slots.Length
    requires a.ifIp !in b.pending.Live()
    modifies a`log, a`tickets, a.clock, a.table`size, a.table.slots, a.pending`size, a.pending.slots, a.txbuf,
             a.txbuf.payload, a.driver
    modifies b`log, b.clock, b.table`size, b.table.slots, b.pending`size, b.pending.slots, b.txbuf, b.txbuf.payload,
             b.driver
    ensures a.Valid() && b.Valid() && old(a.clock.now) <= asked <= a.clock.now
    ensures b.driver.sent == old(b.driver.sent) + [b.ReplyFrame(a.ifIp, a.ifMac)]
    ensures a.clock.now <= asked + ARP_MIN_INTERVAL ==>
              a.driver.sent == old(a.driver.sent) + [a.RequestFrame(b.ifIp)] +
                               [Frame(b.ifMac, a.ifMac, PROTOCOL_IP, packet)]
    ensures a.clock.now <= asked + ARP_TIMEOUT_SEC && old(a.table.size) < a.table.slots.Length ==>
              b.ifIp in a.table.Live() && a.table.Live()[b.ifIp] == b.ifMac
    ensures heard == old(b.clock.now) <= b.clock.now
    ensures b.clock.now <= heard + ARP_TIMEOUT_SEC && old(b.table.size) < b.table.slots.Length ==>
              a.ifIp in b.table.Live() && b.table.Live()[a.ifIp] == a.ifMac
  {
    heard := b.clock.now;
    var request := AskApart(a, packet, b.ifIp, Parts(b));
    Rests(b);
    asked := a.clock.now;
    RequestAsks(a, b.ifIp);
    label asking:
    var reply := HearApart(b, request, a.ifIp, a.ifMac, Parts(a));
    Rests@asking(a);
    ReplyTells(b, a.ifIp, a.ifMac);
    label replied:
    LearnApart(a, reply, ArpMessage(ARP_REPLY, b.ifMac, b.ifIp, a.ifIp), packet, asked, Parts(b));
    Rests@replied(b);
  }
}
