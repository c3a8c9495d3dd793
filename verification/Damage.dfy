/** What a packet damaged on its way comes to: one 16-bit word changed, and the checks of ip_in, udp_in
    and tcp_in. */
module Damage {
  import opened Bytes
  import opened Buffers
  import opened Checksum
  import opened TimedMaps
  import opened IpPackets
  import opened Fragmentation
  import opened IpInput
  import opened Udp
  import opened Tcp
  import opened Layouts

  // ----- The header of a packet

  /** One word of an accepted header replaced by another: the packet is refused unless one zero took the place of the
      other outside the checksum, and then it is judged by its other fields alone. */
  lemma DamagedHeader(ifIp: Ip, s: seq<byte>, word: nat, w: u16)
    requires Parse(ifIp, s).Accepted? && word % 2 == 0 && word <= 18 && w != GetLe16(s, word)
    ensures var r := SetWord(s, word, w);
            Parse(ifIp, r).Accepted? <==> word != 10 && OtherZero(w, GetLe16(s, word)) && HeaderFits(ifIp, r)
  {
    var h := s[..20];
    var r := SetWord(s, word, w);
    assert r[..20] == SetWord(h, word, w) && GetLe16(h, word) == GetLe16(s, word);
    HeaderTests(ifIp, s);
    HeaderTests(ifIp, r);
    SingleWordChange(h, CHECKSUM_AT, word, w);
    if word != CHECKSUM_AT && OtherZero(w, GetLe16(s, word)) {
      VersionCounts(h, word);
    }
  }

  /** The first word of a header is never zero, since it holds the version. */
  lemma VersionCounts(h: seq<byte>, word: nat)
    requires |h| == 20 && h[0] / 16 == 4 && word % 2 == 0 && 0 < word <= 18
    ensures WordSum(SetWord(SetWord(h, CHECKSUM_AT, 0), word, 0)) > 0
  {
    var z := SetWord(SetWord(h, CHECKSUM_AT, 0), word, 0);
    assert z[0] == h[0] && z[1] == h[1];
    assert WordSum(z) == GetLe16(z, 0) + WordSum(z[2..]);
  }

  /** So ip_in passes nothing up for it, and takes nothing in. */
  method ReceiveDamaged(ip: IpReceiver, buf: Buf, ghost s: seq<byte>, ghost word: nat, ghost w: u16)
    returns (up: NetCall, out: Buf?)
    requires ip.Valid() && buf.Valid() && Parse(ip.ifIp, s).Accepted?
    requires word % 2 == 0 && word <= 18 && w != GetLe16(s, word) && buf.Contents() == SetWord(s, word, w)
    requires word == 10 || !OtherZero(w, GetLe16(s, word))
    modifies ip`mirror, ip.clock, ip.nodes`size, ip.nodes.slots, Footprint(ip.nodes.slots[..]), buf, buf.payload
    ensures ip.Valid() && up == NoCall && out == null
    ensures TableAged(old(ip.Table()), ip.Table())
    ensures old(ip.Steady()) ==> ip.Table() == old(ip.Table())
  {
    DamagedHeader(ip.ifIp, s, word, w);
    up, out := ip.IpIn(buf);
  }

  // ----- The segment behind it

  lemma {:induction false} HasByte(s: seq<byte>, i: nat)
    requires i < |s| && s[i] != 0
    ensures WordSum(s) > 0
  {
    if i >= 2 {
      assert s[2..][i - 2] == s[i];
      HasByte(s[2..], i - 2);
    }
  }

  /** One word of a segment whose checksum was right replaced by another. */
  lemma DamagedSegment(src: Ip, dst: Ip, protocol: byte, s: seq<byte>, at: nat, word: nat, w: u16)
    requires at + 2 <= |s| && at % 2 == 0 && word + 2 <= |s| && word % 2 == 0 && protocol != 0
    requires Accepts(Covered(src, dst, protocol, s), 12 + at) && w != GetLe16(s, word)
    ensures Accepts(Covered(src, dst, protocol, SetWord(s, word, w)), 12 + at) <==>
            word != at && OtherZero(w, GetLe16(s, word))
  {
    var c := Covered(src, dst, protocol, s);
    CoveredWord(src, dst, protocol, s, word, w);
    SingleWordChange(c, 12 + at, 12 + word, w);
    if word != at {
      var z := SetWord(SetWord(c, 12 + at, 0), 12 + word, 0);
      PseudoLayout(src, dst, protocol, |s|);
      assert z[9] == protocol;
      HasByte(z, 9);
    }
  }

  lemma TestIsAccepts(src: Ip, dst: Ip, protocol: byte, s: seq<byte>, at: nat)
    requires at + 2 <= |s|
    ensures TransportChecksum(protocol, src, dst, SetWord(s, at, 0)) == GetLe16(s, at) <==>
            Accepts(Covered(src, dst, protocol, s), 12 + at)
  {
    CoveredWord(src, dst, protocol, s, at, 0);
  }

  /** udp_in ignores a datagram with a word changed, unless one zero took the place of the other outside the
      checksum. */
  lemma DamagedDatagram(src: Ip, ifIp: Ip, s: seq<byte>, word: nat, w: u16)
    requires ParseUdp(src, ifIp, s).Some? && word + 2 <= |s| && word % 2 == 0 && w != GetLe16(s, word)
    ensures ParseUdp(src, ifIp, SetWord(s, word, w)).Some? <==> word != 6 && OtherZero(w, GetLe16(s, word))
  {
    TestIsAccepts(src, ifIp, PROTOCOL_UDP, s, UDP_CHECKSUM_AT);
    TestIsAccepts(src, ifIp, PROTOCOL_UDP, SetWord(s, word, w), UDP_CHECKSUM_AT);
    DamagedSegment(src, ifIp, PROTOCOL_UDP, s, UDP_CHECKSUM_AT, word, w);
  }

  lemma DamagedTcp(src: Ip, ifIp: Ip, s: seq<byte>, word: nat, w: u16)
    requires ParseTcp(src, ifIp, s).Some? && word + 2 <= |s| && word % 2 == 0 && w != GetLe16(s, word)
    ensures ParseTcp(src, ifIp, SetWord(s, word, w)).Some? <==> word != 16 && OtherZero(w, GetLe16(s, word))
  {
    TestIsAccepts(src, ifIp, PROTOCOL_TCP, s, TCP_CHECKSUM_AT);
    TestIsAccepts(src, ifIp, PROTOCOL_TCP, SetWord(s, word, w), TCP_CHECKSUM_AT);
    DamagedSegment(src, ifIp, PROTOCOL_TCP, s, TCP_CHECKSUM_AT, word, w);
  }

  /** Hence no handler is called for it. */
  method HearDamaged(udp: UdpReceiver, buf: Buf, src: Ip, ghost s: seq<byte>, ghost word: nat, ghost w: u16)
    returns (result: UdpResult)
    requires udp.Valid() && buf.Valid() && PSEUDO_HDR_LEN <= buf.data && buf.len <= 0xFFFF
    requires ParseUdp(src, udp.ifIp, s).Some? && word + 2 <= |s| && word % 2 == 0 && w != GetLe16(s, word)
    requires buf.Contents() == SetWord(s, word, w) && (word == 6 || !OtherZero(w, GetLe16(s, word)))
    modifies buf, buf.payload, udp.handlers.clock
    ensures udp.Valid() && result == Ignored
  {
    DamagedDatagram(src, udp.ifIp, s, word, w);
    result := udp.UdpIn(buf, src);
  }

  /** And no connection hears of it. */
  method TakeDamaged(tcp: TcpLayer, buf: Buf, src: Ip, replies: seq<Chunk>, iss: u32, ghost s: seq<byte>,
                     ghost word: nat, ghost w: u16) returns (handed: seq<byte>, fault: bool)
    requires tcp.Valid() && buf.Valid() && PSEUDO_HDR_LEN <= buf.data && buf.len <= 0xFFFF
    requires ParseTcp(src, tcp.ifIp, s).Some? && word + 2 <= |s| && word % 2 == 0 && w != GetLe16(s, word)
    requires buf.Contents() == SetWord(s, word, w) && (word == 16 || !OtherZero(w, GetLe16(s, word)))
    modifies tcp`sent, tcp`log, tcp.conns`size, tcp.conns.slots, tcp.conns.clock, buf, buf.payload
    ensures tcp.Valid() && !fault && handed == [] && tcp.log == old(tcp.log) && tcp.Conns() == old(tcp.Conns())
  {
    DamagedTcp(src, tcp.ifIp, s, word, w);
    handed, fault := tcp.TcpIn(buf, src, replies, iss);
  }
}
