/** ip_out and ip_fragment_out of src/ip.c over the ARP layer. */
module IpOutput {
  import opened Bytes
  import opened Buffers
  import opened TimedMaps
  import opened Checksum
  import opened Ethernet
  import opened Arps
  import opened IpPackets
  import opened Fragmentation

  /** Offsets on the wire count units of 8 bytes: 1480 / 8. */
  const LOAD_UNITS: nat := 185

  /** The i-th packet for payload p. */
  function PacketAt(src: Ip, dst: Ip, protocol: byte, id: int, p: Payload, i: nat): seq<byte>
    requires i < PieceCount(|p|)
  {
    Packet(src, dst, protocol, id, i * LOAD_UNITS, i + 1 < PieceCount(|p|), Piece(p, i))
  }

  function Packets(src: Ip, dst: Ip, protocol: byte, id: int, p: Payload, k: nat): (s: seq<seq<byte>>)
    requires k <= PieceCount(|p|)
    ensures |s| == k
  {
    if k == 0 then [] else Packets(src, dst, protocol, id, p, k - 1) + [PacketAt(src, dst, protocol, id, p, k - 1)]
  }

  function Frames(dst: Mac, src: Mac, packets: seq<seq<byte>>): (s: seq<seq<byte>>)
    ensures |s| == |packets|
  {
    if |packets| == 0 then []
    else Frames(dst, src, packets[..|packets| - 1]) + [Frame(dst, src, PROTOCOL_IP, packets[|packets| - 1])]
  }

  lemma {:induction false} FramesSnoc(dst: Mac, src: Mac, packets: seq<seq<byte>>, packet: seq<byte>)
    ensures Frames(dst, src, packets + [packet]) == Frames(dst, src, packets) + [Frame(dst, src, PROTOCOL_IP, packet)]
  {
    assert (packets + [packet])[..|packets|] == packets;
  }

  lemma {:induction false} PacketsIndex(src: Ip, dst: Ip, protocol: byte, id: int, p: Payload, k: nat, i: nat)
    requires i < k <= PieceCount(|p|)
    ensures Packets(src, dst, protocol, id, p, k)[i] == PacketAt(src, dst, protocol, id, p, i)
  {
    if i < k - 1 {
      PacketsIndex(src, dst, protocol, id, p, k - 1, i);
    }
  }

  lemma {:induction false} FramesIndex(dst: Mac, src: Mac, packets: seq<seq<byte>>, i: nat)
    requires i < |packets|
    ensures Frames(dst, src, packets)[i] == Frame(dst, src, PROTOCOL_IP, packets[i])
  {
    if i < |packets| - 1 {
      FramesIndex(dst, src, packets[..|packets| - 1], i);
    }
  }

  /** The packets given to arp_out for next hop ip, oldest first. */
  ghost function HandedTo(log: seq<Event>, ip: Ip): seq<seq<byte>> {
    if |log| == 0 then []
    else
      var e := log[|log| - 1];
      HandedTo(log[..|log| - 1], ip) + (if e.Handed? && e.ip == ip then [e.packet] else [])
  }

  lemma {:induction false} HandedSnoc(log: seq<Event>, e: Event, ip: Ip)
    ensures HandedTo(log + [e], ip) == HandedTo(log, ip) + (if e.Handed? && e.ip == ip then [e.packet] else [])
  {
    assert (log + [e])[..|log|] == log;
  }

  /** What the log gains by one call of arp_out for packet. */
  lemma {:induction false} OneHandOver(log: seq<Event>, ip: Ip, packet: seq<byte>, after: seq<Event>, ifMac: Mac)
    requires |after| <= 1 && (|after| == 1 ==> !after[0].Handed?)
    ensures HandedTo(log + [Handed(ip, packet)] + after, ip) == HandedTo(log, ip) + [packet]
    ensures FramesOf(log + [Handed(ip, packet)] + after, ifMac) ==
            FramesOf(log, ifMac) + (if |after| == 1 then FrameOf(after[0], ifMac) else [])
  {
    HandedSnoc(log, Handed(ip, packet), ip);
    LogSnoc(log, Handed(ip, packet), ifMac);
    var handed := log + [Handed(ip, packet)];
    if |after| == 1 {
      assert handed + after == handed + [after[0]];
      HandedSnoc(handed, after[0], ip);
      LogSnoc(handed, after[0], ifMac);
    } else {
      assert handed + after == handed;
    }
  }

  /** What arp_out has done to the log, in any of its three ways. */
  lemma {:induction false} LogGrew(before: seq<Event>, after: seq<Event>, ip: Ip, packet: seq<byte>, request: seq<byte>,
                                   mac: Mac, ifMac: Mac)
    requires || after == before + [Handed(ip, packet), SentArp(request)]
             || after == before + [Handed(ip, packet)]
             || after == before + [Handed(ip, packet), SentIp(ip, mac, packet, |before|)]
    ensures HandedTo(after, ip) == HandedTo(before, ip) + [packet]
    ensures after == before + [Handed(ip, packet), SentIp(ip, mac, packet, |before|)] ==>
              FramesOf(after, ifMac) == FramesOf(before, ifMac) + [Frame(mac, ifMac, PROTOCOL_IP, packet)]
    ensures after == before + [Handed(ip, packet), SentArp(request)] ==>
              FramesOf(after, ifMac) == FramesOf(before, ifMac) + [request]
    ensures after == before + [Handed(ip, packet)] ==> FramesOf(after, ifMac) == FramesOf(before, ifMac)
  {
    var rest := after[|before| + 1..];
    assert after == before + [Handed(ip, packet)] + rest;
    OneHandOver(before, ip, packet, rest, ifMac);
  }

  class IpSender {
    const arp: Arp
    /** The static datagram counter of ip_out; the wire carries its low 16 bits. */
    var id: nat

    constructor (link: Arp)
      ensures arp == link && id == 0
    {
      arp, id := link, 0;
    }

    /** arp_out, seen from here. */
    method HandOver(buf: Buf, ip: Ip, ghost packet: seq<byte>) returns (ghost requested: bool)
      requires arp.Valid()
      requires buf.Anchored() && ETHER_HDR_LEN <= buf.data && buf.Contents() == packet
      requires buf != arp.txbuf && buf.payload != arp.txbuf.payload
      modifies arp`log, arp`tickets, arp.clock, arp.pending`size, arp.pending.slots, buf, buf.payload,
               arp.txbuf, arp.txbuf.payload, arp.driver
      ensures arp.Valid() && HandedTo(arp.log, ip) == HandedTo(old(arp.log), ip) + [packet]
      ensures arp.txbuf.Valid() && (requested ==> arp.txbuf.len == 60)
      ensures !requested ==> unchanged(arp.txbuf) && unchanged(arp.txbuf.payload)
      ensures Passed(old(Now()), Now(), ip, arp.ifMac, arp.RequestFrame(ip), packet, requested)
    {
      ghost var before := Now();
      requested := CallArp(buf, ip, packet);
      if requested && before.room {
        assert arp.Waits(ip, packet);
      }
    }

    method CallArp(buf: Buf, ip: Ip, ghost packet: seq<byte>) returns (ghost requested: bool)
      requires arp.Valid()
      requires buf.Anchored() && ETHER_HDR_LEN <= buf.data && buf.Contents() == packet
      requires buf != arp.txbuf && buf.payload != arp.txbuf.payload
      modifies arp`log, arp`tickets, arp.clock, arp.pending`size, arp.pending.slots, buf, buf.payload,
               arp.txbuf, arp.txbuf.payload, arp.driver
      ensures arp.Valid() && HandedTo(arp.log, ip) == HandedTo(old(arp.log), ip) + [packet]
      ensures old(arp.clock.now) <= arp.clock.now
      ensures arp.txbuf.Valid() && (requested ==> arp.txbuf.len == 60 && ip !in arp.table.Live())
      ensures !requested ==> unchanged(arp.txbuf) && unchanged(arp.txbuf.payload)
      ensures requested ==> arp.driver.sent == old(arp.driver.sent) + [arp.RequestFrame(ip)]
      ensures requested ==> ip !in View(old(arp.pending.slots[..]), ARP_MIN_INTERVAL, arp.clock.now)
      ensures requested ==> arp.ParkedIfRoom(old(arp.pending.size), ip, packet)
      ensures !requested ==> arp.pending.slots[..] == old(arp.pending.slots[..])
      ensures !requested && ip !in old(arp.table.Live()) ==> arp.driver.sent == old(arp.driver.sent)
      ensures ip in arp.table.Live() ==>
                && ip in old(arp.table.Live()) && old(arp.table.Live())[ip] == arp.table.Live()[ip]
                && arp.driver.sent == old(arp.driver.sent) +
                   [Frame(arp.table.Live()[ip], arp.ifMac, PROTOCOL_IP, packet)]
      ensures ip !in old(arp.table.Live()) && ip !in old(arp.pending.Live()) ==> requested
    {
      ghost var before := arp.log;
      ghost var mac := if ip in arp.table.Live() then arp.table.Live()[ip] else NO_MAC;
      requested := arp.ArpOut(buf, ip);
      LogGrew(before, arp.log, ip, packet, arp.RequestFrame(ip), mac, arp.ifMac);
    }

    /** ip_fragment_out (src/ip.c:371-398): the header goes in front of the data, its checksum last. */
    method FragmentOut(buf: Buf, ip: Ip, protocol: byte, fragId: int, offset: nat, mf: bool)
      returns (ghost requested: bool)
      requires arp.Valid()
      requires buf.Anchored() && IP_HDR_LEN + ETHER_HDR_LEN <= buf.data
      requires buf != arp.txbuf && buf.payload != arp.txbuf.payload
      modifies arp`log, arp`tickets, arp.clock, arp.pending`size, arp.pending.slots, buf, buf.payload,
               arp.txbuf, arp.txbuf.payload, arp.driver
      ensures var packet := Packet(arp.ifIp, ip, protocol, fragId, offset, mf, old(buf.Contents()));
              && arp.Valid() && HandedTo(arp.log, ip) == HandedTo(old(arp.log), ip) + [packet]
              && Passed(old(Now()), Now(), ip, arp.ifMac, arp.RequestFrame(ip), packet, requested)
      ensures arp.txbuf.Valid() && (requested ==> arp.txbuf.len == 60)
      ensures !requested ==> unchanged(arp.txbuf) && unchanged(arp.txbuf.payload)
    {
      ghost var packet := Packet(arp.ifIp, ip, protocol, fragId, offset, mf, buf.Contents());
      WriteHeader(buf, arp.ifIp, ip, protocol, fragId, offset, mf);
      requested := HandOver(buf, ip, packet);
    }

    static method WriteHeader(buf: Buf, src: Ip, dst: Ip, protocol: byte, fragId: int, offset: nat, mf: bool)
      requires buf.Anchored() && IP_HDR_LEN <= buf.data
      modifies buf, buf.payload
      ensures buf.Anchored() && buf.data == old(buf.data) - IP_HDR_LEN
      ensures buf.Contents() == Packet(src, dst, protocol, fragId, offset, mf, old(buf.Contents()))
    {
      ghost var payload := buf.Contents();
      var _ := buf.AddHeader(IP_HDR_LEN);
      var header := UnsealedHeader(src, dst, protocol, fragId, offset, mf, buf.len);
      WriteFront(buf, header, payload);
      SealHeader(buf, header, payload);
    }

    static method WriteFront(buf: Buf, header: seq<byte>, ghost payload: seq<byte>)
      requires buf.Anchored() && |header| <= buf.len && buf.Contents()[|header|..] == payload
      modifies buf.payload
      ensures buf.Contents() == header + payload
    {
      buf.Write(0, header);
    }

    /** The header's checksum goes into its field. */
    static method SealHeader(buf: Buf, ghost header: seq<byte>, ghost payload: seq<byte>)
      requires buf.Anchored() && |header| == IP_HDR_LEN && buf.Contents() == header + payload
      modifies buf.payload
      ensures buf.Contents() == Seal(header) + payload
    {
      Sealed(header, payload);
      var c, rounds := ComputeChecksum16(buf.Read(0, IP_HDR_LEN));
      buf.WriteWord(CHECKSUM_AT, c);
    }

    static lemma Sealed(header: seq<byte>, payload: seq<byte>)
      requires |header| == IP_HDR_LEN
      ensures (header + payload)[..IP_HDR_LEN] == header
      ensures SetWord(header + payload, CHECKSUM_AT, Checksum16(header)) == Seal(header) + payload
    {
    }

    /** The buffer for one piece (src/ip.c:441-443, 448-450). */
    static method PieceBuffer(bytes: seq<byte>) returns (ipBuf: Buf)
      requires |bytes| <= MAX_LOAD
      ensures fresh(ipBuf) && fresh(ipBuf.payload) && ipBuf.Anchored() && IP_HDR_LEN + ETHER_HDR_LEN <= ipBuf.data
      ensures ipBuf.Contents() == bytes
    {
      ipBuf := new Buf();
      var _ := ipBuf.Init(|bytes|);
      ipBuf.Write(0, bytes);
    }

    ghost predicate Done(job: Job, i: nat)
      requires i <= PieceCount(|job.payload|)
      reads arp, arp.table, arp.table.slots, arp.table.clock, arp.driver
    {
      && job.ifIp == arp.ifIp && job.ifMac == arp.ifMac
      && Progress(job, i, HandedTo(arp.log, job.ip), arp.driver.sent, arp.table.Live())
    }

    ghost function Now(): Moment
      reads arp, arp.clock, arp.table, arp.table.slots, arp.table.clock, arp.pending, arp.pending.slots, arp.driver
    {
      Moment(arp.clock.now, arp.table.Live(), arp.pending.slots[..], arp.pending.size < arp.pending.slots.Length,
             arp.driver.sent)
    }

    /** i pieces have gone to a next hop that was neither resolved nor waited for at the time start, with room in
        pending. */
    ghost predicate Unanswered(job: Job, i: nat, start: nat)
      reads arp, arp.clock, arp.table, arp.table.slots, arp.table.clock, arp.pending, arp.pending.slots, arp.driver
    {
      UnansweredAt(job, i, start, arp.RequestFrame(job.ip), Now())
    }

    /** A buffer of its own for the piece, and the packet around it. */
    method Emit(bytes: seq<byte>, ip: Ip, protocol: byte, offset: nat, mf: bool) returns (ghost requested: bool)
      requires arp.Valid() && |bytes| <= MAX_LOAD
      modifies arp`log, arp`tickets, arp.clock, arp.pending`size, arp.pending.slots, arp.txbuf, arp.txbuf.payload,
               arp.driver
      ensures var packet := Packet(arp.ifIp, ip, protocol, id, offset, mf, bytes);
              && arp.Valid() && HandedTo(arp.log, ip) == HandedTo(old(arp.log), ip) + [packet]
              && Passed(old(Now()), Now(), ip, arp.ifMac, arp.RequestFrame(ip), packet, requested)
      ensures arp.txbuf.Valid() && (requested ==> arp.txbuf.len == 60)
      ensures !requested ==> unchanged(arp.txbuf) && unchanged(arp.txbuf.payload)
    {
      var ipBuf := PieceBuffer(bytes);
      requested := FragmentOut(ipBuf, ip, protocol, id, offset, mf);
    }

    /** The piece at i, as one step of the job. */
    method EmitPiece(bytes: seq<byte>, ip: Ip, protocol: byte, i: nat, mf: bool, ghost job: Job, ghost start: nat)
      returns (ghost requested: bool)
      requires arp.Valid() && |bytes| <= MAX_LOAD
      requires job.ip == ip && job.protocol == protocol && job.id == id && i < PieceCount(|job.payload|) && Done(job, i)
      requires Packet(job.ifIp, ip, protocol, id, i * LOAD_UNITS, mf, bytes) ==
               PacketAt(job.ifIp, ip, protocol, id, job.payload, i)
      modifies arp`log, arp`tickets, arp.clock, arp.pending`size, arp.pending.slots, arp.txbuf, arp.txbuf.payload,
               arp.driver
      ensures arp.Valid() && old(arp.clock.now) <= arp.clock.now && Done(job, i + 1)
      ensures old(Unanswered(job, i, start)) ==> Unanswered(job, i + 1, start)
      ensures requested ==> ip !in arp.table.Live() && arp.txbuf.len == 60
      ensures !requested ==> unchanged(arp.txbuf) && unchanged(arp.txbuf.payload)
      ensures if requested then ip !in View(old(arp.pending.slots[..]), ARP_MIN_INTERVAL, arp.clock.now)
              else arp.pending.slots[..] == old(arp.pending.slots[..])
      ensures ip !in old(arp.table.Live()) && ip !in old(arp.pending.Live()) ==> requested
    {
      ghost var before, handed := Now(), HandedTo(arp.log, ip);
      requested := Emit(bytes, ip, protocol, i * LOAD_UNITS, mf);
      ProgressStep(job, i, handed, before.sent, before.resolved, HandedTo(arp.log, ip), arp.driver.sent,
                   arp.table.Live());
      if UnansweredAt(job, i, start, arp.RequestFrame(ip), before) {
        StaysUnanswered(job, i, start, arp.RequestFrame(ip), arp.ifMac, before, Now(), requested);
      }
    }

    /** One more packet: either branch of ip_out's work for the piece at i. */
    method SendPiece(buf: Buf, ip: Ip, protocol: byte, i: nat, n: nat, mf: bool, ghost job: Job, ghost start: nat)
      returns (ghost overwritten: bool)
      requires arp.Valid() && buf.Valid() && buf.Contents() == job.payload && i < PieceCount(|job.payload|)
      requires n == PieceEnd(|job.payload|, i) - i * MAX_LOAD && mf == (i + 1 < PieceCount(|job.payload|))
      requires job.ip == ip && job.protocol == protocol && job.id == id && Done(job, i)
      requires buf == arp.txbuf || (buf != arp.txbuf && buf.payload != arp.txbuf.payload)
      modifies arp`log, arp`tickets, arp.clock, arp.pending`size, arp.pending.slots, arp.txbuf, arp.txbuf.payload,
               arp.driver
      ensures arp.Valid() && old(arp.clock.now) <= arp.clock.now && buf.Valid()
      ensures Done(job, i + 1)
      ensures old(Unanswered(job, i, start)) ==> Unanswered(job, i + 1, start)
      ensures overwritten ==> buf == arp.txbuf && buf.len == 60 && ip !in arp.table.Live()
      ensures overwritten ==> ip !in View(old(arp.pending.slots[..]), ARP_MIN_INTERVAL, arp.clock.now)
      ensures !overwritten ==> buf.Contents() == job.payload
      ensures !overwritten && buf == arp.txbuf ==> arp.pending.slots[..] == old(arp.pending.slots[..])
      ensures buf == arp.txbuf && ip !in old(arp.table.Live()) && ip !in old(arp.pending.Live()) ==> overwritten
    {
      CutAt(job, i, n, mf);
      ghost var requested := EmitPiece(buf.Read(i * MAX_LOAD, n), ip, protocol, i, mf, job, start);
      overwritten := requested && buf == arp.txbuf;
    }

    /** Neither the entry of ip nor its wait for one, in slots parked at the start, has expired meanwhile. */
    ghost predicate StillKnown(ip: Ip, resolved: map<Ip, Mac>, waiting: map<Ip, Image>, parked: seq<Slot<Ip, Image>>)
      reads arp.table, arp.table.slots, arp.table.clock, arp.clock
    {
      && (ip in resolved ==> ip in arp.table.Live())
      && (ip in waiting ==> ip in View(parked, ARP_MIN_INTERVAL, arp.clock.now))
    }

    /** ip_out (src/ip.c:407-454) for a next hop other than loopback.  The payload may sit in the shared
        txbuf, which an ARP request overwrites; the loop then reads a length of 60, and the size of the
        final piece comes out negative.  fault reports that case, where the source copies with a
        wrapped-around size: it occurs, when nothing known of the next hop expires meanwhile, iff more than one
        piece lies in txbuf for a next hop that is neither resolved nor waited for.  Otherwise exactly the
        packets of the payload are handed over, in order.  To a next hop neither resolved nor waited for, however,
        only a request goes out within the second, and only the first packet waits for its answer. */
    method IpOut(buf: Buf, ip: Ip, protocol: byte) returns (fault: bool)
      requires arp.Valid() && buf.Valid() && buf.len < PAYLOAD_LIMIT && ip != LOOPBACK
      requires buf == arp.txbuf || (buf != arp.txbuf && buf.payload != arp.txbuf.payload)
      modifies this`id, arp`log, arp`tickets, arp.clock, arp.pending`size, arp.pending.slots,
               arp.txbuf, arp.txbuf.payload, arp.driver
      ensures arp.Valid() && old(arp.clock.now) <= arp.clock.now
      ensures fault ==> buf == arp.txbuf && old(buf.len) > MAX_LOAD && ip !in arp.table.Live()
      ensures fault ==> ip !in View(old(arp.pending.slots[..]), ARP_MIN_INTERVAL, arp.clock.now)
      ensures buf == arp.txbuf && old(buf.len) > MAX_LOAD && ip !in old(arp.table.Live()) &&
              ip !in old(arp.pending.Live()) ==>
                fault
      ensures StillKnown(ip, old(arp.table.Live()), old(arp.pending.Live()), old(arp.pending.slots[..])) ==>
                (fault <==> buf == arp.txbuf && old(buf.len) > MAX_LOAD &&
                            ip !in old(arp.table.Live()) && ip !in old(arp.pending.Live()))
      ensures !fault ==>
                id == old(id) + 1 && HandedTo(arp.log, ip) == HandedTo(old(arp.log), ip) +
                Packets(arp.ifIp, ip, protocol, old(id), old(buf.Contents()), PieceCount(old(buf.len)))
      ensures ip in arp.table.Live() ==>
                arp.driver.sent == old(arp.driver.sent) +
                Frames(arp.table.Live()[ip], arp.ifMac,
                       Packets(arp.ifIp, ip, protocol, old(id), old(buf.Contents()), PieceCount(old(buf.len))))
      ensures ip !in old(arp.table.Live()) && ip !in old(arp.pending.Live()) &&
              old(arp.pending.size) < arp.pending.slots.Length &&
              arp.clock.now <= old(arp.clock.now) + ARP_MIN_INTERVAL ==>
                AskedFor(ip, old(arp.driver.sent), PacketAt(arp.ifIp, ip, protocol, old(id), old(buf.Contents()), 0),
                         old(arp.clock.now))
    {
      ghost var handed, sent, start := HandedTo(arp.log, ip), arp.driver.sent, arp.clock.now;
      ghost var job := Job(arp.ifIp, arp.ifMac, ip, protocol, id, buf.Contents(), handed, sent);
      ProgressStart(job, arp.table.Live());
      ghost var unknown, gone := Unanswered(job, 0, start), 0;
      fault, gone := SendPieces(buf, ip, protocol, job, start);
      if unknown && arp.clock.now <= start + ARP_MIN_INTERVAL {
        AwaitedLater(arp.pending.slots[..], start, arp.clock.now, arp.clock.now, ip, FirstPacket(job));
      }
      if !fault {
        Count();
      }
    }

    method Count()
      requires arp.Valid()
      modifies this`id
      ensures arp.Valid() && Now() == old(Now()) && id == old(id) + 1
    {
      id := id + 1;
    }

    /** The wire has gained the request for ip alone, and the packet that waits for its answer, until a second after
        start, is packet. */
    ghost predicate AskedFor(ip: Ip, sent: seq<seq<byte>>, packet: seq<byte>, start: nat)
      reads arp, arp.clock, arp.pending, arp.pending.slots, arp.pending.clock, arp.driver
    {
      && arp.driver.sent == sent + [arp.RequestFrame(ip)]
      && ip in arp.pending.Live() && arp.pending.Live()[ip].Anchored()
      && arp.pending.Live()[ip].Contents() == packet
      && Awaits(arp.pending.slots[..], start, arp.clock.now, ip, packet)
    }

    /** A payload for an unknown next hop, and then an ARP packet from it.  If that comes within a second, all the
        wire ever shows of the payload is its first packet: the others are lost. */
    method FirstContact(buf: Buf, ip: Ip, protocol: byte, heard: seq<byte>, ghost m: ArpMessage)
      returns (fault: bool, ghost start: nat)
      requires arp.Valid() && buf.Valid() && buf.len < PAYLOAD_LIMIT && ip != LOOPBACK
      requires buf == arp.txbuf || (buf != arp.txbuf && buf.payload != arp.txbuf.payload)
      requires ip !in arp.table.Live() && ip !in arp.pending.Live() && arp.pending.size < arp.pending.slots.Length
      requires Fits(In(heard)) && ParseArp(heard) == Some(m) && m.senderIp == ip
      modifies this`id, arp`log, arp`tickets, arp.clock, arp.table`size, arp.table.slots, arp.pending`size,
               arp.pending.slots, arp.txbuf, arp.txbuf.payload, arp.driver
      ensures arp.Valid() && start == old(arp.clock.now) <= arp.clock.now
      ensures arp.clock.now <= start + ARP_MIN_INTERVAL ==>
                arp.driver.sent ==
                old(arp.driver.sent) + [arp.RequestFrame(ip)] +
                [Frame(m.senderMac, arp.ifMac, PROTOCOL_IP,
                       PacketAt(arp.ifIp, ip, protocol, old(id), old(buf.Contents()), 0))]
    {
      ghost var first, sent := PacketAt(arp.ifIp, ip, protocol, id, buf.Contents(), 0), arp.driver.sent;
      start := arp.clock.now;
      fault := IpOut(buf, ip, protocol);
      arp.Answer(heard, m, first, start);
    }

    /** All of it but the counter; gone packets have been handed over. */
    method SendPieces(buf: Buf, ip: Ip, protocol: byte, ghost job: Job, ghost start: nat)
      returns (fault: bool, ghost gone: nat)
      requires arp.Valid() && buf.Valid() && buf.Contents() == job.payload
      requires buf == arp.txbuf || (buf != arp.txbuf && buf.payload != arp.txbuf.payload)
      requires job.ip == ip && job.protocol == protocol && job.id == id && Done(job, 0)
      modifies arp`log, arp`tickets, arp.clock, arp.pending`size, arp.pending.slots, arp.txbuf, arp.txbuf.payload,
               arp.driver
      ensures arp.Valid() && old(arp.clock.now) <= arp.clock.now
      ensures fault ==> buf == arp.txbuf && |job.payload| > MAX_LOAD && ip !in arp.table.Live()
      ensures fault ==> ip !in View(old(arp.pending.slots[..]), ARP_MIN_INTERVAL, arp.clock.now)
      ensures buf == arp.txbuf && |job.payload| > MAX_LOAD && ip !in old(arp.table.Live()) &&
              ip !in old(arp.pending.Live()) ==>
                fault
      ensures !fault ==> Done(job, PieceCount(|job.payload|))
      ensures gone > 0 && (old(Unanswered(job, 0, start)) ==> Unanswered(job, gone, start))
    {
      var i, overwritten := SendFullPieces(buf, ip, protocol, job, start);
      if buf.len < i * MAX_LOAD {
        return true, i;
      }
      PieceBounds(|job.payload|, i);
      ghost var _ := SendPiece(buf, ip, protocol, i, buf.len - i * MAX_LOAD, false, job, start);
      return false, i + 1;
    }

    /** The loop of ip_out stands before piece i; overwritten: a request has just destroyed the payload.  parked
        are the slots of pending at the start. */
    ghost predicate Sending(job: Job, buf: Buf, i: nat, overwritten: bool, parked: seq<Slot<Ip, Image>>)
      reads arp, arp.clock, arp.table, arp.table.slots, arp.pending, arp.pending.slots, arp.txbuf, arp.driver, buf,
            buf.payload
    {
      && arp.Valid() && buf.Valid() && i < PieceCount(|job.payload|) && Done(job, i)
      && (0 < i ==> |job.payload| > MAX_LOAD)
      && (if overwritten then buf == arp.txbuf && buf.len == 60 && 0 < i && job.ip !in arp.table.Live()
          else buf.Contents() == job.payload)
      && (if overwritten then job.ip !in View(parked, ARP_MIN_INTERVAL, arp.clock.now)
          else buf == arp.txbuf ==> arp.pending.slots[..] == parked)
    }

    /** The loop of ip_out.  It ends at the last piece, or right after a request has overwritten buf. */
    method SendFullPieces(buf: Buf, ip: Ip, protocol: byte, ghost job: Job, ghost start: nat)
      returns (i: nat, ghost overwritten: bool)
      requires arp.Valid() && buf.Valid() && buf.Contents() == job.payload
      requires buf == arp.txbuf || (buf != arp.txbuf && buf.payload != arp.txbuf.payload)
      requires job.ip == ip && job.protocol == protocol && job.id == id && Done(job, 0)
      modifies arp`log, arp`tickets, arp.clock, arp.pending`size, arp.pending.slots, arp.txbuf, arp.txbuf.payload,
               arp.driver
      ensures old(arp.clock.now) <= arp.clock.now && Sending(job, buf, i, overwritten, old(arp.pending.slots[..]))
      ensures !overwritten ==> i + 1 == PieceCount(|job.payload|)
      ensures old(Unanswered(job, 0, start)) ==> Unanswered(job, i, start)
      ensures buf == arp.txbuf && |job.payload| > MAX_LOAD && ip !in old(arp.table.Live()) &&
              ip !in old(arp.pending.Live()) ==>
                overwritten
    {
      ghost var unknown := buf == arp.txbuf && ip !in arp.table.Live() && ip !in arp.pending.Live();
      ghost var parked := arp.pending.slots[..];
      i, overwritten := 0, false;
      while (i + 1) * MAX_LOAD < buf.len
        invariant old(arp.clock.now) <= arp.clock.now && Sending(job, buf, i, overwritten, parked)
        invariant i == 0 && unknown ==> ip !in arp.table.Live() && ip !in arp.pending.Live()
        invariant 0 < i && unknown ==> overwritten
        invariant old(Unanswered(job, 0, start)) ==> Unanswered(job, i, start)
        decreases PieceCount(|job.payload|) - i
      {
        i, overwritten := SendFullPiece(buf, ip, protocol, i, job, parked, start);
      }
      if !overwritten {
        PieceBounds(|job.payload|, i);
      }
    }

    /** One round of the loop. */
    method SendFullPiece(buf: Buf, ip: Ip, protocol: byte, i: nat, ghost job: Job, ghost parked: seq<Slot<Ip, Image>>,
                         ghost start: nat)
      returns (next: nat, ghost overwritten: bool)
      requires Sending(job, buf, i, false, parked) && (i + 1) * MAX_LOAD < buf.len
      requires buf == arp.txbuf || (buf != arp.txbuf && buf.payload != arp.txbuf.payload)
      requires job.ip == ip && job.protocol == protocol && job.id == id
      modifies arp`log, arp`tickets, arp.clock, arp.pending`size, arp.pending.slots, arp.txbuf, arp.txbuf.payload,
               arp.driver
      ensures old(arp.clock.now) <= arp.clock.now && next == i + 1 && Sending(job, buf, next, overwritten, parked)
      ensures old(Unanswered(job, i, start)) ==> Unanswered(job, next, start)
      ensures buf == arp.txbuf && ip !in old(arp.table.Live()) && ip !in old(arp.pending.Live()) ==> overwritten
    {
      PieceBounds(|job.payload|, i);
      overwritten := SendPiece(buf, ip, protocol, i, MAX_LOAD, true, job, start);
      next := i + 1;
    }
  }

  /** One datagram on its way out, and what had been handed over and framed before it. */
  datatype Job = Job(ifIp: Ip, ifMac: Mac, ip: Ip, protocol: byte, id: int, payload: Payload,
                     handed: seq<seq<byte>>, sent: seq<seq<byte>>)

  /** What the sending of a packet may change. */
  datatype Moment = Moment(now: nat, resolved: map<Ip, Mac>, parked: seq<Slot<Ip, Image>>, room: bool,
                           sent: seq<seq<byte>>)

  /** After i pieces for a next hop that was neither resolved nor waited for at the time start: one second long, the
      wire has the request alone, and of the packets only the first is kept. */
  ghost predicate UnansweredAt(job: Job, i: nat, start: nat, request: seq<byte>, m: Moment) {
    if i == 0 then
      start <= m.now && job.ip !in m.resolved && job.ip !in View(m.parked, ARP_MIN_INTERVAL, m.now) && m.room &&
      m.sent == job.sent
    else
      m.now <= start + ARP_MIN_INTERVAL ==>
        && job.ip !in m.resolved && m.sent == job.sent + [request]
        && Awaits(m.parked, start, m.now, job.ip, FirstPacket(job))
  }

  /** arp_out's part: the packet is framed if the address is still known; else, if nothing waits for it by then,
      the wire gains a request and the packet is parked, with room; else it comes to nothing. */
  ghost predicate Passed(before: Moment, after: Moment, ip: Ip, ifMac: Mac, request: seq<byte>, packet: seq<byte>,
                         requested: bool) {
    && before.now <= after.now
    && (ip in after.resolved ==>
          && !requested && ip in before.resolved && before.resolved[ip] == after.resolved[ip]
          && after.sent == before.sent + [Frame(after.resolved[ip], ifMac, PROTOCOL_IP, packet)])
    && (if requested then
          && ip !in View(before.parked, ARP_MIN_INTERVAL, after.now) && after.sent == before.sent + [request]
          && (before.room ==> Awaits(after.parked, after.now, after.now, ip, packet))
        else
          && after.parked == before.parked && (ip !in before.resolved ==> after.sent == before.sent)
          && (ip in before.resolved || ip in View(before.parked, ARP_MIN_INTERVAL, before.now)))
  }

  lemma StaysUnanswered(job: Job, i: nat, start: nat, request: seq<byte>, ifMac: Mac, before: Moment, after: Moment,
                        requested: bool)
    requires i < PieceCount(|job.payload|)
    requires UniqueKeys(before.parked, ARP_MIN_INTERVAL, before.now)
    requires UniqueKeys(after.parked, ARP_MIN_INTERVAL, after.now)
    requires UnansweredAt(job, i, start, request, before)
    requires Passed(before, after, job.ip, ifMac, request,
                    PacketAt(job.ifIp, job.ip, job.protocol, job.id, job.payload, i), requested)
    ensures UnansweredAt(job, i + 1, start, request, after)
  {
    if after.now <= start + ARP_MIN_INTERVAL {
      if i == 0 {
        assert Awaits(after.parked, after.now, after.now, job.ip, FirstPacket(job));
        AwaitsFrom(after.parked, start, after.now, job.ip, FirstPacket(job));
      } else {
        AwaitedLater(before.parked, start, before.now, after.now, job.ip, FirstPacket(job));
        assert !requested;
      }
    }
  }

  function FirstPacket(job: Job): seq<byte> {
    PacketAt(job.ifIp, job.ip, job.protocol, job.id, job.payload, 0)
  }

  ghost function PacketsOf(job: Job, i: nat): seq<seq<byte>>
    requires i <= PieceCount(|job.payload|)
  {
    Packets(job.ifIp, job.ip, job.protocol, job.id, job.payload, i)
  }

  /** i packets have been handed over, and framed too if the address is known to this day. */
  ghost predicate Progress(job: Job, i: nat, handed: seq<seq<byte>>, sent: seq<seq<byte>>, live: map<Ip, Mac>)
    requires i <= PieceCount(|job.payload|)
  {
    && handed == job.handed + PacketsOf(job, i)
    && (job.ip in live ==> sent == job.sent + Frames(live[job.ip], job.ifMac, PacketsOf(job, i)))
  }

  /** The cut of ip_out at piece i, in terms of the payload. */
  lemma CutAt(job: Job, i: nat, n: nat, mf: bool)
    requires i < PieceCount(|job.payload|)
    requires n == PieceEnd(|job.payload|, i) - i * MAX_LOAD && mf == (i + 1 < PieceCount(|job.payload|))
    ensures i * MAX_LOAD + n <= |job.payload| && n <= MAX_LOAD
    ensures var bytes := job.payload[i * MAX_LOAD..i * MAX_LOAD + n];
            Packet(job.ifIp, job.ip, job.protocol, job.id, i * LOAD_UNITS, mf, bytes) ==
            PacketAt(job.ifIp, job.ip, job.protocol, job.id, job.payload, i)
  {
    PieceBounds(|job.payload|, i);
  }

  lemma ProgressStart(job: Job, live: map<Ip, Mac>)
    ensures Progress(job, 0, job.handed, job.sent, live)
  {
  }

  lemma ProgressStep(job: Job, i: nat, handed: seq<seq<byte>>, sent: seq<seq<byte>>, live: map<Ip, Mac>,
                     handed': seq<seq<byte>>, sent': seq<seq<byte>>, live': map<Ip, Mac>)
    requires i < PieceCount(|job.payload|) && Progress(job, i, handed, sent, live)
    requires var packet := PacketAt(job.ifIp, job.ip, job.protocol, job.id, job.payload, i);
             && handed' == handed + [packet]
             && (job.ip in live' ==> job.ip in live && live[job.ip] == live'[job.ip] &&
                                     sent' == sent + [Frame(live'[job.ip], job.ifMac, PROTOCOL_IP, packet)])
    ensures Progress(job, i + 1, handed', sent', live')
  {
    var packet := PacketAt(job.ifIp, job.ip, job.protocol, job.id, job.payload, i);
    assert PacketsOf(job, i + 1) == PacketsOf(job, i) + [packet];
    if job.ip in live' {
      FramesSnoc(live'[job.ip], job.ifMac, PacketsOf(job, i), packet);
    }
  }
}
