/** udp_send and udp_out of src/udp.c, from the caller's bytes to the frames on the wire. */
module UdpOutput {
  import opened Bytes
  import opened Buffers
  import opened TimedMaps
  import opened Ethernet
  import opened Arps
  import opened IpPackets
  import opened IpOutput
  import opened Fragmentation
  import opened Udp

  /** The frames of one datagram, for a next hop with hardware address mac. */
  function DatagramFrames(mac: Mac, ifMac: Mac, src: Ip, dst: Ip, id: int, p: Payload): (s: seq<seq<byte>>)
    ensures |s| == PieceCount(|p|)
  {
    Frames(mac, ifMac, Packets(src, dst, PROTOCOL_UDP, id, p, PieceCount(|p|)))
  }

  /** udp_out up to the call of ip_out (src/udp.c:62-71). */
  method WriteUdpHeader(buf: Buf, src: Ip, srcPort: u16, dst: Ip, dstPort: u16)
    requires buf.Anchored() && buf.len <= 0xFFFF && UDP_HDR_LEN + PSEUDO_HDR_LEN <= buf.data
    modifies buf, buf.payload
    ensures buf.Anchored() && buf.Contents() == Datagram(src, dst, srcPort, dstPort, old(buf.Contents()))
  {
    ghost var data := buf.Contents();
    var _ := buf.AddHeader(UDP_HDR_LEN);
    var header := Be16(srcPort) + Be16(dstPort) + Be16(buf.len) + [0, 0];
    buf.Write(0, header);
    ghost var u := UnsealedDatagram(srcPort, dstPort, data);
    assert buf.Contents() == header + data == u;
    SealSegment(PROTOCOL_UDP, buf, UDP_CHECKSUM_AT, src, dst);
  }

  /** udp_send (src/udp.c:119-123).  The datagram is built in txbuf and handed to ip_out from there.  If
      the peer's address outlives the call, its frames are exactly the next ones on the wire.  When nothing
      known of the peer expires meanwhile, the call faults iff the datagram takes more than one fragment and the
      peer is neither resolved nor waited for; then only its first packet waits for the peer's address. */
  method UdpSend(ip: IpSender, data: Chunk, srcPort: u16, dst: Ip, dstPort: u16) returns (fault: bool)
    requires ip.arp.Valid() && dst != LOOPBACK
    modifies ip`id, ip.arp`log, ip.arp`tickets, ip.arp.clock, ip.arp.pending`size, ip.arp.pending.slots,
             ip.arp.txbuf, ip.arp.txbuf.payload, ip.arp.driver
    ensures ip.arp.Valid() && old(ip.arp.clock.now) <= ip.arp.clock.now
    ensures fault ==> UDP_HDR_LEN + |data| > MAX_LOAD && dst !in ip.arp.table.Live()
    ensures UDP_HDR_LEN + |data| > MAX_LOAD && dst !in old(ip.arp.table.Live()) &&
            dst !in old(ip.arp.pending.Live()) ==>
              fault
    ensures ip.StillKnown(dst, old(ip.arp.table.Live()), old(ip.arp.pending.Live()), old(ip.arp.pending.slots[..])) ==>
              (fault <==> UDP_HDR_LEN + |data| > MAX_LOAD &&
                          dst !in old(ip.arp.table.Live()) && dst !in old(ip.arp.pending.Live()))
    ensures !fault ==>
              HandedTo(ip.arp.log, dst) == HandedTo(old(ip.arp.log), dst) +
              Packets(ip.arp.ifIp, dst, PROTOCOL_UDP, old(ip.id), Datagram(ip.arp.ifIp, dst, srcPort, dstPort, data),
                      PieceCount(UDP_HDR_LEN + |data|))
    ensures dst in ip.arp.table.Live() ==>
              ip.arp.driver.sent == old(ip.arp.driver.sent) +
              DatagramFrames(ip.arp.table.Live()[dst], ip.arp.ifMac, ip.arp.ifIp, dst, old(ip.id),
                             Datagram(ip.arp.ifIp, dst, srcPort, dstPort, data))
    ensures dst !in old(ip.arp.table.Live()) && dst !in old(ip.arp.pending.Live()) &&
            old(ip.arp.pending.size) < ip.arp.pending.slots.Length &&
            ip.arp.clock.now <= old(ip.arp.clock.now) + ARP_MIN_INTERVAL ==>
              ip.AskedFor(dst, old(ip.arp.driver.sent),
                          PacketAt(ip.arp.ifIp, dst, PROTOCOL_UDP, old(ip.id),
                                   Datagram(ip.arp.ifIp, dst, srcPort, dstPort, data), 0),
                          old(ip.arp.clock.now))
  {
    BuildDatagram(ip.arp, data, srcPort, dst, dstPort);
    fault := ip.IpOut(ip.arp.txbuf, dst, PROTOCOL_UDP);
  }

  /** The datagram takes shape in txbuf; the ARP layer's own state is not touched. */
  method BuildDatagram(arp: Arp, data: Chunk, srcPort: u16, dst: Ip, dstPort: u16)
    requires arp.Valid()
    modifies arp.txbuf, arp.txbuf.payload
    ensures arp.Valid() && arp.txbuf.Contents() == Datagram(arp.ifIp, dst, srcPort, dstPort, data)
  {
    Fill(arp.txbuf, data);
    WriteUdpHeader(arp.txbuf, arp.ifIp, srcPort, dst, dstPort);
  }

  /** The fault at work: on a stack just set up, the very first datagram of more than 1472 bytes faults. */
  method FirstDatagramFaults(source: Clock, address: Ip, mac: Mac, table: nat, pending: nat, data: Chunk,
                             srcPort: u16, dst: Ip, dstPort: u16) returns (fault: bool)
    requires source.Valid() && dst != LOOPBACK && |data| > 1472
    modifies source
    ensures fault
  {
    var wire := new Driver();
    var tx := new Buf();
    var arp := new Arp(source, wire, tx, address, mac, table, pending);
    var ip := new IpSender(arp);
    fault := UdpSend(ip, data, srcPort, dst, dstPort);
  }
}
