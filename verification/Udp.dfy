/** UDP datagrams (src/udp.c) and the pseudo-header checksum they share with TCP (src/utils.c:112-134). */
module Udp {
  import opened Bytes
  import opened Buffers
  import opened Checksum
  import opened IpPackets
  import opened TimedMaps

  const PSEUDO_HDR_LEN: nat := 12
  const UDP_HDR_LEN: nat := 8

  /** The length field takes the low 16 bits of the segment's length. */
  function PseudoHeader(src: Ip, dst: Ip, protocol: byte, len: nat): (s: seq<byte>)
    ensures |s| == PSEUDO_HDR_LEN
  {
    src + dst + [0, protocol] + Be16(len)
  }

  function TransportChecksum(protocol: byte, src: Ip, dst: Ip, segment: seq<byte>): u16 {
    Checksum16(PseudoHeader(src, dst, protocol, |segment|) + segment)
  }

  /** transport_checksum.  The pseudo-header is laid over the bytes in front of the segment and
      taken away again: the buffer, in front of the window too, ends as it began. */
  method ComputeTransportChecksum(protocol: byte, buf: Buf, src: Ip, dst: Ip) returns (c: u16)
    requires buf.Valid() && PSEUDO_HDR_LEN <= buf.data
    modifies buf, buf.payload
    ensures buf.Valid() && buf.len == old(buf.len) && buf.data == old(buf.data)
    ensures buf.payload[..] == old(buf.payload[..]) && buf.Contents() == old(buf.Contents())
    ensures buf.len + PSEUDO_HDR_LEN <= 131074 ==> c == TransportChecksum(protocol, src, dst, buf.Contents())
  {
    ghost var before, segment := buf.payload[..], buf.Contents();
    var _ := buf.AddHeader(PSEUDO_HDR_LEN);
    ghost var at := buf.data;
    var backup := buf.payload[buf.data..buf.data + PSEUDO_HDR_LEN];
    var pseudo := PseudoHeader(src, dst, protocol, buf.len - PSEUDO_HDR_LEN);
    buf.Write(0, pseudo);
    assert buf.Contents() == pseudo + segment;
    ghost var rounds: nat;
    c, rounds := ComputeChecksum16(buf.payload[buf.data..buf.data + buf.len]);
    buf.Store(buf.data, backup);
    Restored(buf.payload[..], before, at, backup);
    var _ := buf.RemoveHeader(PSEUDO_HDR_LEN);
    assert buf.Contents() == buf.payload[..][buf.data..buf.data + buf.len];
  }

  lemma Restored(s: seq<byte>, before: seq<byte>, at: nat, backup: seq<byte>)
    requires |s| == |before| && at + |backup| <= |s|
    requires backup == before[at..at + |backup|] == s[at..at + |backup|]
    requires forall i | 0 <= i < |s| && !(at <= i < at + |backup|) :: s[i] == before[i]
    ensures s == before
  {
    forall i | at <= i < at + |backup|
      ensures s[i] == before[i]
    {
      assert s[i] == s[at..at + |backup|][i - at];
    }
  }

  /** The checksum of a segment goes into its field, which held 0. */
  method SealSegment(protocol: byte, buf: Buf, at: nat, src: Ip, dst: Ip)
    requires buf.Anchored() && PSEUDO_HDR_LEN <= buf.data && at + 2 <= buf.len && buf.len + PSEUDO_HDR_LEN <= 131074
    modifies buf, buf.payload
    ensures buf.Anchored() && buf.len == old(buf.len) && buf.data == old(buf.data)
    ensures var s := old(buf.Contents());
            buf.Contents() == SetWord(s, at, TransportChecksum(protocol, src, dst, s))
  {
    var c := ComputeTransportChecksum(protocol, buf, src, dst);
    buf.WriteWord(at, c);
  }

  const UDP_CHECKSUM_AT: nat := 6

  // ----- Datagrams as byte strings

  /** Header and data as udp_out lays them out, the checksum still 0 (src/udp.c:62-70). */
  function UnsealedDatagram(srcPort: u16, dstPort: u16, data: seq<byte>): (s: seq<byte>)
    ensures |s| == UDP_HDR_LEN + |data|
  {
    Be16(srcPort) + Be16(dstPort) + Be16(UDP_HDR_LEN + |data|) + [0, 0] + data
  }

  function Datagram(src: Ip, dst: Ip, srcPort: u16, dstPort: u16, data: seq<byte>): (s: seq<byte>)
    ensures |s| == UDP_HDR_LEN + |data|
  {
    var d := UnsealedDatagram(srcPort, dstPort, data);
    SetWord(d, UDP_CHECKSUM_AT, TransportChecksum(PROTOCOL_UDP, src, dst, d))
  }

  datatype UdpMessage = UdpMessage(srcPort: u16, dstPort: u16, data: seq<byte>)

  /** The length and checksum tests of udp_in (src/udp.c:21-31) and the fields it uses; the length
      field of the header is not looked at. */
  function ParseUdp(src: Ip, ifIp: Ip, s: seq<byte>): Option<UdpMessage> {
    if |s| < UDP_HDR_LEN then None
    else if TransportChecksum(PROTOCOL_UDP, src, ifIp, SetWord(s, UDP_CHECKSUM_AT, 0)) !=
            GetLe16(s, UDP_CHECKSUM_AT) then None
    else Some(UdpMessage(GetBe16(s, 0), GetBe16(s, 2), s[UDP_HDR_LEN..]))
  }

  lemma ParseOfDatagram(src: Ip, dst: Ip, srcPort: u16, dstPort: u16, data: seq<byte>)
    ensures ParseUdp(src, dst, Datagram(src, dst, srcPort, dstPort, data)) == Some(UdpMessage(srcPort, dstPort, data))
  {
    var u := UnsealedDatagram(srcPort, dstPort, data);
    var d := Datagram(src, dst, srcPort, dstPort, data);
    assert SetWord(d, UDP_CHECKSUM_AT, 0) == u;
    GetBe16At(d, 0, srcPort);
    GetBe16At(d, 2, dstPort);
    assert d[UDP_HDR_LEN..] == data;
  }

  // ----- udp_in

  datatype UdpResult = Ignored | PortUnreachable | Handled(src: Ip, message: UdpMessage)

  /** What udp_in does with a datagram, given the ports that have a handler. */
  function UdpOutcome(src: Ip, ifIp: Ip, ports: set<u16>, s: seq<byte>): UdpResult {
    match ParseUdp(src, ifIp, s)
    case None => Ignored
    case Some(m) => if m.dstPort in ports then Handled(src, m) else PortUnreachable
  }

  class UdpReceiver {
    /** udp_table: ports to handlers, never expiring. */
    const handlers: TimedMap<u16, nat>
    const ifIp: Ip

    constructor (source: Clock, ip: Ip, capacity: nat)
      requires source.Valid()
      ensures Valid() && ifIp == ip && handlers.clock == source && fresh(handlers) && fresh(handlers.slots) &&
              Ports() == {}
      ensures handlers.slots.Length == capacity && handlers.size == 0
    {
      handlers := new TimedMap<u16, nat>(capacity, 0, source);
      ifIp := ip;
    }

    ghost predicate Valid()
      reads handlers, handlers.slots, handlers.clock
    {
      handlers.Valid() && handlers.timeout == 0
    }

    ghost function Ports(): set<u16>
      reads handlers, handlers.slots, handlers.clock
    {
      handlers.Live().Keys
    }

    /** Ports do not expire. */
    twostate lemma ClockMoved()
      requires old(Valid())
      requires unchanged(handlers) && unchanged(handlers.slots)
      requires handlers.clock.Valid() && old(handlers.clock.now) <= handlers.clock.now
      ensures Valid() && Ports() == old(Ports())
    {
      assert handlers.slots[..] == old(handlers.slots[..]);
      ViewForever(handlers.slots[..], old(handlers.clock.now), handlers.clock.now);
    }

    /** udp_open (src/udp.c:97-99). */
    method Open(port: u16, handler: nat) returns (ok: bool)
      requires Valid()
      modifies handlers`size, handlers.slots, handlers.clock
      ensures Valid()
      ensures ok == (port in old(Ports()) || old(handlers.size) < handlers.slots.Length)
      ensures old(handlers.clock.now) <= handlers.clock.now
      ensures handlers.Live() == if ok then old(handlers.Live())[port := handler] else old(handlers.Live())
    {
      ghost var s, start := handlers.slots[..], handlers.clock.now;
      ghost var pos: nat;
      ok, pos := handlers.Set(port, handler);
      ViewForever(s, start, handlers.clock.now);
      if !ok {
        assert handlers.slots[..] == s;
      }
    }

    method HasHandler(port: u16) returns (found: bool)
      requires Valid()
      modifies handlers.clock
      ensures Valid() && old(handlers.clock.now) <= handlers.clock.now && Ports() == old(Ports())
      ensures found == (port in Ports())
    {
      var i;
      i, found := handlers.Get(port);
      ClockMoved();
    }

    /** udp_in (src/udp.c:19-50): the checksum field is zeroed in place, recomputed and put back; the
        buffer is left on the data when there is a handler for the port. */
    method UdpIn(buf: Buf, src: Ip) returns (result: UdpResult)
      requires Valid() && buf.Valid() && PSEUDO_HDR_LEN <= buf.data && buf.len <= 0xFFFF
      modifies buf, buf.payload, handlers.clock
      ensures Valid() && old(handlers.clock.now) <= handlers.clock.now && Ports() == old(Ports())
      ensures buf.Valid()
      ensures result == UdpOutcome(src, ifIp, old(Ports()), old(buf.Contents()))
      ensures result.Handled? ==> buf.Contents() == result.message.data
    {
      var m := Check(buf, src, ifIp);
      if m == None {
        return Ignored;
      }
      assert Valid() && Ports() == old(Ports());
      result := Deliver(buf, src, m.value);
    }

    /** The lookup and the call of the handler (src/udp.c:34-49). */
    method Deliver(buf: Buf, src: Ip, m: UdpMessage) returns (result: UdpResult)
      requires Valid() && buf.Valid() && UDP_HDR_LEN <= buf.len
      modifies buf, handlers.clock
      ensures Valid() && old(handlers.clock.now) <= handlers.clock.now && Ports() == old(Ports())
      ensures buf.Valid()
      ensures result == if m.dstPort in Ports() then Handled(src, m) else PortUnreachable
      ensures result.Handled? ==> buf.Contents() == old(buf.Contents())[UDP_HDR_LEN..]
    {
      ghost var s := buf.Contents();
      var found := HasHandler(m.dstPort);
      assert unchanged(buf) && unchanged(buf.payload);
      if !found {
        return PortUnreachable;
      }
      Strip(buf, s);
      return Handled(src, m);
    }

    method Strip(buf: Buf, ghost s: seq<byte>)
      requires Valid() && buf.Valid() && UDP_HDR_LEN <= buf.len && buf.Contents() == s
      modifies buf
      ensures Valid() && Ports() == old(Ports()) && buf.Valid()
      ensures buf.Contents() == s[UDP_HDR_LEN..]
    {
      var _ := buf.RemoveHeader(UDP_HDR_LEN);
    }
  }

  /** The stored checksum, and the one of the segment with that field zeroed, as the buffer then is. */
  method Recompute(protocol: byte, buf: Buf, at: nat, src: Ip, dst: Ip) returns (stored: u16, c: u16)
    requires buf.Valid() && PSEUDO_HDR_LEN <= buf.data && at + 2 <= buf.len <= 0xFFFF
    modifies buf, buf.payload
    ensures buf.Valid() && buf.data == old(buf.data)
    ensures buf.Contents() == SetWord(old(buf.Contents()), at, 0)
    ensures stored == GetLe16(old(buf.Contents()), at)
    ensures c == TransportChecksum(protocol, src, dst, SetWord(old(buf.Contents()), at, 0))
  {
    stored := GetLe16(buf.payload[buf.data..buf.data + buf.len], at);
    buf.WriteWord(at, 0);
    c := ComputeTransportChecksum(protocol, buf, src, dst);
  }

  method Check(buf: Buf, src: Ip, ifIp: Ip) returns (m: Option<UdpMessage>)
    requires buf.Valid() && PSEUDO_HDR_LEN <= buf.data && buf.len <= 0xFFFF
    modifies buf, buf.payload
    ensures buf.Valid()
    ensures m == ParseUdp(src, ifIp, old(buf.Contents()))
    ensures m.Some? ==> buf.Contents() == old(buf.Contents())
  {
    if buf.len < UDP_HDR_LEN {
      return None;
    }
    WrittenWord(buf.Contents(), UDP_CHECKSUM_AT, 0);
    var stored, c := Recompute(PROTOCOL_UDP, buf, UDP_CHECKSUM_AT, src, ifIp);
    if c != stored {
      return None;
    }
    buf.WriteWord(UDP_CHECKSUM_AT, c);
    var s := buf.payload[buf.data..buf.data + buf.len];
    return Some(UdpMessage(GetBe16(s, 0), GetBe16(s, 2), s[UDP_HDR_LEN..]));
  }
}
