/** The wire formats, field by field and byte by byte: what this stack writes where, and what it takes from
    where, against the header diagrams of RFC 894, RFC 826, section 3.1 of RFC 791, RFC 768 and section 3.1 of
    RFC 9293.  Both ends of the stack could agree on a wrong layout; these lemmas say they do not. */
module Layouts {
  import opened Bytes
  import opened Checksum
  import opened Ethernet
  import opened Arps
  import opened IpPackets
  import opened Fragmentation
  import opened IpOutput
  import opened Udp
  import opened TcpMachine
  import opened Tcp

  /** The number in network order at an offset. */
  function Word16(s: seq<byte>, at: nat): nat
    requires at + 2 <= |s|
  {
    0x100 * (s[at] as int) + s[at + 1] as int
  }

  function Word32(s: seq<byte>, at: nat): nat
    requires at + 4 <= |s|
  {
    0x100_0000 * (s[at] as int) + 0x1_0000 * (s[at + 1] as int) + 0x100 * (s[at + 2] as int) + s[at + 3] as int
  }

  lemma WordOfBe16(s: seq<byte>, at: nat, x: int)
    requires at + 2 <= |s| && s[at..at + 2] == Be16(x)
    ensures Word16(s, at) == x % 0x1_0000
  {
    assert s[at] == Be16(x)[0] && s[at + 1] == Be16(x)[1];
    LowWord(x);
  }

  lemma WordOfBe32(s: seq<byte>, at: nat, x: u32)
    requires at + 4 <= |s| && s[at..at + 4] == Be32(x)
    ensures Word32(s, at) == x
  {
    GetBe32At(s, at, x);
  }

  // ----- Frames

  lemma FrameLayout(dst: Mac, src: Mac, protocol: u16, packet: seq<byte>)
    ensures var f := Frame(dst, src, protocol, packet);
            && |f| == 14 + (if |packet| < 46 then 46 else |packet|)
            && f[0..6] == dst && f[6..12] == src && Word16(f, 12) == protocol
            && f[14..14 + |packet|] == packet
            && forall i | 14 + |packet| <= i < |f| :: f[i] == 0
  {
    var f := Frame(dst, src, protocol, packet);
    assert f[12..14] == Be16(protocol);
    WordOfBe16(f, 12, protocol);
  }

  /** What is read of a frame, and that only a shorter one than a header is dropped. */
  lemma FrameIsRead(f: seq<byte>)
    ensures Unframe(f).Upcall? <==> |f| >= 14
    ensures |f| >= 14 ==> Unframe(f) == Upcall(Word16(f, 12), f[6..12], f[14..])
  {
  }

  // ----- ARP

  lemma ArpLayout(opcode: u16, senderMac: Mac, senderIp: Ip, targetMac: Mac, targetIp: Ip)
    ensures var p := ArpPacket(opcode, senderMac, senderIp, targetMac, targetIp);
            && |p| == 28 && Word16(p, 0) == 1 && Word16(p, 2) == 0x0800 && p[4] == 6 && p[5] == 4
            && Word16(p, 6) == opcode && p[8..14] == senderMac && p[14..18] == senderIp
            && p[18..24] == targetMac && p[24..28] == targetIp
  {
    var p := ArpPacket(opcode, senderMac, senderIp, targetMac, targetIp);
    assert p[6..8] == Be16(opcode);
    WordOfBe16(p, 6, opcode);
  }

  /** arp_in takes a packet iff it is whole, for Ethernet and IPv4, and a request or a reply. */
  lemma ArpIsRead(s: seq<byte>)
    ensures ParseArp(s).Some? <==>
            && |s| >= 28 && Word16(s, 0) == 1 && Word16(s, 2) == 0x0800 && s[4] == 6 && s[5] == 4
            && (Word16(s, 6) == 1 || Word16(s, 6) == 2)
    ensures ParseArp(s).Some? ==> ParseArp(s).value == ArpMessage(Word16(s, 6), s[8..14], s[14..18], s[24..28])
  {
  }

  // ----- IPv4

  lemma PacketLayout(src: Ip, dst: Ip, protocol: byte, id: int, offset: nat, mf: bool, payload: seq<byte>)
    requires offset < 0x2000 && 20 + |payload| <= 0xFFFF
    ensures var p := Packet(src, dst, protocol, id, offset, mf, payload);
            && |p| == 20 + |payload| && p[0] == 0x45 && p[1] == 0 && Word16(p, 2) == |p|
            && Word16(p, 4) == id % 0x1_0000 && Word16(p, 6) == (if mf then 0x2000 else 0) + offset
            && p[8] == 64 && p[9] == protocol && AllOnes(p[..20])
            && p[12..16] == src && p[16..20] == dst && p[20..] == payload
  {
    var h := UnsealedHeader(src, dst, protocol, id, offset, mf, IP_HDR_LEN + |payload|);
    var p := Packet(src, dst, protocol, id, offset, mf, payload);
    assert p[..20] == Seal(h);
    StoredChecksumIsAccepted(h, CHECKSUM_AT);
    AcceptsIffAllOnes(Seal(h), CHECKSUM_AT);
    IpHeaderBytes(p, src, dst, protocol, id, offset, mf, payload, Checksum16(h));
  }

  lemma IpHeaderBytes(p: seq<byte>, src: Ip, dst: Ip, protocol: byte, id: int, offset: nat, mf: bool,
                      payload: seq<byte>, c: u16)
    requires offset < 0x2000 && 20 + |payload| <= 0xFFFF
    requires p == SetWord(UnsealedHeader(src, dst, protocol, id, offset, mf, IP_HDR_LEN + |payload|), CHECKSUM_AT, c) +
                  payload
    ensures |p| == 20 + |payload| && p[0] == 0x45 && p[1] == 0 && Word16(p, 2) == |p|
    ensures Word16(p, 4) == id % 0x1_0000 && Word16(p, 6) == (if mf then 0x2000 else 0) + offset
    ensures p[8] == 64 && p[9] == protocol && p[12..16] == src && p[16..20] == dst && p[20..] == payload
  {
    var u := UnsealedHeader(src, dst, protocol, id, offset, mf, IP_HDR_LEN + |payload|);
    assert forall k | 0 <= k < 20 && k != 10 && k != 11 :: p[k] == u[k];
    assert u[2..4] == Be16(|p|) && u[4..6] == Be16(id) && u[12..16] == src && u[16..20] == dst;
    assert u[6..8] == Be16((if mf then IP_MORE_FRAGMENT else 0) + offset);
    WordOfBe16(u, 2, |p|);
    WordOfBe16(u, 4, id);
    WordOfBe16(u, 6, (if mf then IP_MORE_FRAGMENT else 0) + offset);
    assert p[12..16] == u[12..16] && p[16..20] == u[16..20];
  }

  /** The stored checksum is the second zero, over a rest that sums to zero as well: recomputing gives the first. */
  predicate SecondZero(s: seq<byte>, at: nat)
    requires at + 2 <= |s|
  {
    GetLe16(s, at) == 0xFFFF && OnesSum(WordSum(SetWord(s, at, 0))) == 0xFFFF
  }

  /** The packets of ip_out fit a link that carries 1500 bytes, and fill it but for the last; each says where its
      bytes belong, in units of 8, and whether more follow. */
  lemma PieceLayout(src: Ip, dst: Ip, protocol: byte, id: int, payload: Payload, i: nat)
    requires i < PieceCount(|payload|)
    ensures var (p, more) := (PacketAt(src, dst, protocol, id, payload, i), (i + 1) * 1480 < |payload|);
            && 20 <= |p| <= 1500 && (more ==> |p| == 1500) && (i + 1 < PieceCount(|payload|) <==> more)
            && ((p[6] / 0x20) % 2 == 1 <==> more) && 8 * (Word16(p, 6) % 0x2000) == 1480 * i
            && 1480 * i + (|p| - 20) <= |payload| && p[20..] == payload[1480 * i..1480 * i + (|p| - 20)]
            && (!more ==> 1480 * i + (|p| - 20) == |payload|)
  {
    var more := i + 1 < PieceCount(|payload|);
    PieceBounds(|payload|, i);
    PacketLayout(src, dst, protocol, id, i * LOAD_UNITS, more, Piece(payload, i));
    FlagAndOffset(PacketAt(src, dst, protocol, id, payload, i), more, i * LOAD_UNITS);
  }

  lemma FlagAndOffset(p: seq<byte>, mf: bool, offset: nat)
    requires |p| >= 20 && offset < 0x2000 && Word16(p, 6) == (if mf then 0x2000 else 0) + offset
    ensures (p[6] / 0x20) % 2 == 1 <==> mf
    ensures Word16(p, 6) % 0x2000 == offset
  {
  }

  /** What ip_in asks of a header besides its checksum. */
  predicate HeaderFits(ifIp: Ip, s: seq<byte>) {
    && |s| >= 20 && s[0] / 16 == 4 && Word16(s, 2) <= |s| && (s[16..20] == ifIp || s[16..20] == [127, 0, 0, 1])
  }

  lemma HeaderTests(ifIp: Ip, s: seq<byte>)
    ensures Parse(ifIp, s).Accepted? <==> HeaderFits(ifIp, s) && Accepts(s[..20], 10)
  {
    if |s| >= 20 {
      assert s[..20][16..20] == s[16..20];
    }
  }

  /** ip_in takes a packet iff it is whole, of version 4, for this interface or loopback, and its first 20 bytes sum
      to all ones, less the second zero.  Everything it takes from it lies where RFC 791 puts it. */
  lemma PacketIsRead(ifIp: Ip, s: seq<byte>)
    ensures Parse(ifIp, s).Accepted? <==>
            HeaderFits(ifIp, s) && AllOnes(s[..20]) && !SecondZero(s[..20], 10)
    ensures Parse(ifIp, s).Accepted? ==>
              var (p, headerLen, len) := (Parse(ifIp, s), 4 * (s[0] % 16), Word16(s, 2));
              && p.protocol == s[9] && p.src == s[12..16] && p.dst == s[16..20] && p.id == Word16(s, 4)
              && p.mf == ((s[6] / 0x20) % 2 == 1) && p.offset == 8 * (Word16(s, 6) % 0x2000)
              && p.payload == (if headerLen <= len then s[headerLen..len] else s[..len])
  {
    HeaderTests(ifIp, s);
    if |s| >= 20 {
      AcceptsIffAllOnes(s[..20], CHECKSUM_AT);
      FieldsAreRead(ifIp, s);
    }
  }

  lemma FieldsAreRead(ifIp: Ip, s: seq<byte>)
    ensures Parse(ifIp, s).Accepted? ==>
              var (p, headerLen, len) := (Parse(ifIp, s), 4 * (s[0] % 16), Word16(s, 2));
              && p.protocol == s[9] && p.src == s[12..16] && p.dst == s[16..20] && p.id == Word16(s, 4)
              && p.mf == ((s[6] / 0x20) % 2 == 1) && p.offset == 8 * (Word16(s, 6) % 0x2000)
              && p.payload == (if headerLen <= len then s[headerLen..len] else s[..len])
  {
    if |s| >= 20 {
      assert s[..20][16..20] == s[16..20] && s[..20][12..16] == s[12..16];
    }
  }

  // ----- The pseudo-header, UDP and TCP

  lemma PseudoLayout(src: Ip, dst: Ip, protocol: byte, len: nat)
    ensures var p := PseudoHeader(src, dst, protocol, len);
            && |p| == 12 && p[0..4] == src && p[4..8] == dst && p[8] == 0 && p[9] == protocol
            && Word16(p, 10) == len % 0x1_0000
  {
    var p := PseudoHeader(src, dst, protocol, len);
    assert p[10..12] == Be16(len);
    WordOfBe16(p, 10, len);
  }

  /** The pseudo-header and the segment behind it, as the checksum covers them. */
  function Covered(src: Ip, dst: Ip, protocol: byte, s: seq<byte>): (r: seq<byte>)
    ensures |r| == 12 + |s|
  {
    PseudoHeader(src, dst, protocol, |s|) + s
  }

  lemma CoveredWord(src: Ip, dst: Ip, protocol: byte, s: seq<byte>, at: nat, w: u16)
    requires at + 2 <= |s|
    ensures Covered(src, dst, protocol, SetWord(s, at, w)) == SetWord(Covered(src, dst, protocol, s), 12 + at, w)
    ensures GetLe16(Covered(src, dst, protocol, s), 12 + at) == GetLe16(s, at)
  {
  }

  /** udp_in and tcp_in recompute the checksum with its field zeroed: that is the all-ones test over pseudo-header
      and segment, less the second zero. */
  lemma TransportTest(src: Ip, dst: Ip, protocol: byte, s: seq<byte>, at: nat)
    requires at + 2 <= |s| && at % 2 == 0
    ensures var c := Covered(src, dst, protocol, s);
            TransportChecksum(protocol, src, dst, SetWord(s, at, 0)) == GetLe16(s, at) <==>
            AllOnes(c) && !SecondZero(c, 12 + at)
  {
    CoveredWord(src, dst, protocol, s, at, 0);
    AcceptsIffAllOnes(Covered(src, dst, protocol, s), 12 + at);
  }

  /** A sealed segment sums to all ones. */
  lemma SealedSums(src: Ip, dst: Ip, protocol: byte, s: seq<byte>, at: nat)
    requires at + 2 <= |s| && at % 2 == 0 && GetLe16(s, at) == 0
    ensures AllOnes(Covered(src, dst, protocol, SetWord(s, at, TransportChecksum(protocol, src, dst, s))))
  {
    var sealed := SetWord(s, at, TransportChecksum(protocol, src, dst, s));
    assert SetWord(sealed, at, 0) == s;
    TransportTest(src, dst, protocol, sealed, at);
  }

  lemma DatagramLayout(src: Ip, dst: Ip, srcPort: u16, dstPort: u16, data: seq<byte>)
    ensures var d := Datagram(src, dst, srcPort, dstPort, data);
            && |d| == 8 + |data| && Word16(d, 0) == srcPort && Word16(d, 2) == dstPort
            && Word16(d, 4) == |d| % 0x1_0000 && d[8..] == data && AllOnes(Covered(src, dst, 17, d))
  {
    var u := UnsealedDatagram(srcPort, dstPort, data);
    var d := Datagram(src, dst, srcPort, dstPort, data);
    SealedSums(src, dst, PROTOCOL_UDP, u, UDP_CHECKSUM_AT);
    assert d[0..2] == Be16(srcPort) && d[2..4] == Be16(dstPort) && d[4..6] == Be16(UDP_HDR_LEN + |data|);
    WordOfBe16(d, 0, srcPort);
    WordOfBe16(d, 2, dstPort);
    WordOfBe16(d, 4, |d|);
  }

  /** udp_in takes a datagram iff it holds a header and sums to all ones, less the second zero. */
  lemma DatagramIsRead(src: Ip, ifIp: Ip, s: seq<byte>)
    ensures ParseUdp(src, ifIp, s).Some? <==>
            |s| >= 8 && AllOnes(Covered(src, ifIp, 17, s)) && !SecondZero(Covered(src, ifIp, 17, s), 12 + 6)
    ensures ParseUdp(src, ifIp, s).Some? ==>
              ParseUdp(src, ifIp, s).value == UdpMessage(Word16(s, 0), Word16(s, 2), s[8..])
  {
    if |s| >= 8 {
      TransportTest(src, ifIp, PROTOCOL_UDP, s, UDP_CHECKSUM_AT);
    }
  }

  /** A datagram that is not taken is ignored; one that is reaches the handler of its port, or finds the port closed. */
  lemma DatagramComesTo(src: Ip, ifIp: Ip, ports: set<u16>, s: seq<byte>)
    ensures UdpOutcome(src, ifIp, ports, s) ==
            if ParseUdp(src, ifIp, s).None? then Ignored
            else if Word16(s, 2) in ports then Handled(src, UdpMessage(Word16(s, 0), Word16(s, 2), s[8..]))
            else PortUnreachable
  {
    DatagramIsRead(src, ifIp, s);
  }

  /** Every field of what tcp_out sends but the urgent pointer. */
  lemma SegmentLayout(bytes: seq<byte>, src: Ip, o: Outgoing)
    requires Encodes(bytes, src, o)
    ensures |bytes| == 20 + |o.segment.payload| && bytes[20..] == o.segment.payload
    ensures Word16(bytes, 0) == o.srcPort && Word16(bytes, 2) == o.dstPort
    ensures Word32(bytes, 4) == o.segment.seqNo && Word32(bytes, 8) == o.segment.ackNo
    ensures bytes[12] == 0x50 && bytes[13] == FlagBits(o.segment.flags) && Word16(bytes, 14) == 0xFFFF
    ensures AllOnes(Covered(src, o.dst, 6, bytes))
  {
    var urgent: u16 :| bytes == TcpBytes(src, o, urgent);
    SealedSums(src, o.dst, PROTOCOL_TCP, UnsealedTcp(o, urgent) + o.segment.payload, TCP_CHECKSUM_AT);
    var unsealed := UnsealedTcp(o, urgent) + o.segment.payload;
    HeaderBytes(bytes, o, urgent, TransportChecksum(PROTOCOL_TCP, src, o.dst, unsealed));
  }

  lemma HeaderBytes(bytes: seq<byte>, o: Outgoing, urgent: u16, c: u16)
    requires bytes == SetWord(UnsealedTcp(o, urgent) + o.segment.payload, TCP_CHECKSUM_AT, c)
    ensures |bytes| == 20 + |o.segment.payload| && bytes[20..] == o.segment.payload
    ensures Word16(bytes, 0) == o.srcPort && Word16(bytes, 2) == o.dstPort
    ensures Word32(bytes, 4) == o.segment.seqNo && Word32(bytes, 8) == o.segment.ackNo
    ensures bytes[12] == 0x50 && bytes[13] == FlagBits(o.segment.flags) && Word16(bytes, 14) == 0xFFFF
  {
    assert bytes[0..2] == Be16(o.srcPort) && bytes[2..4] == Be16(o.dstPort);
    assert bytes[4..8] == Be32(o.segment.seqNo) && bytes[8..12] == Be32(o.segment.ackNo);
    assert bytes[14..16] == Be16(0xFFFF);
    WordOfBe16(bytes, 0, o.srcPort);
    WordOfBe16(bytes, 2, o.dstPort);
    WordOfBe32(bytes, 4, o.segment.seqNo);
    WordOfBe32(bytes, 8, o.segment.ackNo);
    WordOfBe16(bytes, 14, 0xFFFF);
  }

  /** FIN, SYN, RST and ACK are bits 0, 1, 2 and 4. */
  function FlagBits(f: Flags): byte {
    (if f.fin then 0x01 else 0) + (if f.syn then 0x02 else 0) + (if f.rst then 0x04 else 0) +
    (if f.ack then 0x10 else 0)
  }

  /** tcp_in takes a segment iff it holds a header and sums to all ones, less the second zero. */
  lemma SegmentIsRead(src: Ip, ifIp: Ip, s: seq<byte>)
    ensures ParseTcp(src, ifIp, s).Some? <==>
            |s| >= 20 && AllOnes(Covered(src, ifIp, 6, s)) && !SecondZero(Covered(src, ifIp, 6, s), 12 + 16)
    ensures ParseTcp(src, ifIp, s).Some? ==>
              var (t, headerLen) := (ParseTcp(src, ifIp, s).value, 4 * (s[12] / 16));
              && t.srcPort == Word16(s, 0) && t.dstPort == Word16(s, 2) && t.message.seqNo == Word32(s, 4)
              && t.message.flags ==
                 Flags(s[13] % 2 == 1, (s[13] / 2) % 2 == 1, (s[13] / 4) % 2 == 1, (s[13] / 16) % 2 == 1)
              && t.message.gap == |s| - headerLen
              && (20 <= headerLen ==> t.message.payload == (if headerLen <= |s| then s[headerLen..] else []))
  {
    if |s| >= 20 {
      TransportTest(src, ifIp, PROTOCOL_TCP, s, TCP_CHECKSUM_AT);
    }
  }

  // ----- The example in section 3 of RFC 1071

  lemma Rfc1071Example()
    ensures Checksum16BE([0x00, 0x01, 0xF2, 0x03, 0xF4, 0xF5, 0xF6, 0xF7]) == 0xFFFF - 0xDDF2
  {
    var s: seq<byte> := [0x00, 0x01, 0xF2, 0x03, 0xF4, 0xF5, 0xF6, 0xF7];
    assert s[2..] == [0xF2, 0x03, 0xF4, 0xF5, 0xF6, 0xF7];
    assert s[2..][2..] == [0xF4, 0xF5, 0xF6, 0xF7];
    assert s[2..][2..][2..] == [0xF6, 0xF7];
    assert WordSumBE(s) == 0x0001 + 0xF203 + 0xF4F5 + 0xF6F7;
  }
}
