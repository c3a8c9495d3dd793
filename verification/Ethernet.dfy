/** Framing (src/ethernet.c) over a driver that records what it is given. */
module Ethernet {
  import opened Bytes
  import opened Buffers

  const ETHERNET_MIN_TRANSPORT_UNIT: nat := 46
  const ETHER_HDR_LEN: nat := 14
  const PROTOCOL_IP: u16 := 0x0800
  const PROTOCOL_ARP: u16 := 0x0806
  const BROADCAST_MAC: Mac := [0xFF, 0xFF, 0xFF, 0xFF, 0xFF, 0xFF]

  /** The wire: frames handed to driver_send, oldest first. */
  class Driver {
    var sent: seq<seq<byte>>

    constructor ()
      ensures sent == []
    {
      sent := [];
    }

    method Send(buf: Buf)
      requires buf.Valid()
      modifies this
      ensures sent == old(sent) + [buf.Contents()]
    {
      sent := sent + [buf.payload[buf.data..buf.data + buf.len]];
    }
  }

  function Padded(packet: seq<byte>): seq<byte> {
    packet + Zeros(if |packet| < ETHERNET_MIN_TRANSPORT_UNIT then ETHERNET_MIN_TRANSPORT_UNIT - |packet| else 0)
  }

  function Frame(dst: Mac, src: Mac, protocol: u16, packet: seq<byte>): seq<byte> {
    dst + src + Be16(protocol) + Padded(packet)
  }

  /** ethernet_out (src/ethernet.c:44-67) */
  method EthernetOut(buf: Buf, mac: Mac, protocol: u16, ifMac: Mac, driver: Driver)
    requires buf.Valid() && ETHER_HDR_LEN <= buf.data
    requires buf.data + buf.len + ETHERNET_MIN_TRANSPORT_UNIT < BUF_MAX_LEN
    modifies buf, buf.payload, driver
    ensures buf.Valid()
    ensures buf.Contents() == Frame(mac, ifMac, protocol, old(buf.Contents()))
    ensures driver.sent == old(driver.sent) + [Frame(mac, ifMac, protocol, old(buf.Contents()))]
  {
    ghost var packet := buf.Contents();
    if buf.len < ETHERNET_MIN_TRANSPORT_UNIT {
      var _ := buf.AddPadding(ETHERNET_MIN_TRANSPORT_UNIT - buf.len);
    }
    assert buf.Contents() == Padded(packet);
    var _ := buf.AddHeader(ETHER_HDR_LEN);
    var header := mac + ifMac + Be16(protocol);
    buf.Write(0, header);
    assert buf.Contents() == header + Padded(packet);
    driver.Send(buf);
  }

  datatype Upcall = Upcall(protocol: u16, src: Mac, packet: seq<byte>) | Dropped

  /** What a received frame carries up: protocol, source and everything behind the header. */
  function Unframe(frame: seq<byte>): Upcall {
    if |frame| < ETHER_HDR_LEN then Dropped
    else Upcall(GetBe16(frame, 12), frame[6..12], frame[14..])
  }

  /** ethernet_in (src/ethernet.c:13-35), up to the call of net_in: the buffer is left on the packet. */
  method EthernetIn(buf: Buf) returns (up: Upcall)
    requires buf.Valid()
    modifies buf
    ensures buf.Valid() && buf.data + buf.len == old(buf.data + buf.len)
    ensures up == Unframe(old(buf.Contents()))
    ensures up.Upcall? ==> buf.Contents() == up.packet && buf.data == old(buf.data) + ETHER_HDR_LEN
  {
    if buf.len < ETHER_HDR_LEN {
      return Dropped;
    }
    ghost var frame := buf.Contents();
    var header := buf.payload[buf.data..buf.data + ETHER_HDR_LEN];
    assert header == frame[..14] && header[6..12] == frame[6..12];
    var protocol := Swap16(GetLe16(header, 12));
    SwapParts(header[13], header[12]);
    assert protocol == GetBe16(header, 12) == GetBe16(frame, 12);
    var _ := buf.RemoveHeader(ETHER_HDR_LEN);
    return Upcall(protocol, header[6..12], buf.payload[buf.data..buf.data + buf.len]);
  }

  /** A frame begins with the address it is for, and is from this interface. */
  lemma FrameIsFor(dst: Mac, src: Mac, protocol: u16, packet: seq<byte>)
    ensures var f := Frame(dst, src, protocol, packet);
            && |f| >= ETHER_HDR_LEN + |packet| && f[..6] == dst && f[6..12] == src
            && f[ETHER_HDR_LEN..ETHER_HDR_LEN + |packet|] == packet
  {
  }

  /** Framing loses nothing but the padding of short packets. */
  lemma UnframeOfFrame(dst: Mac, src: Mac, protocol: u16, packet: seq<byte>)
    ensures Unframe(Frame(dst, src, protocol, packet)) == Upcall(protocol, src, Padded(packet))
    ensures packet <= Padded(packet)
  {
    var f := Frame(dst, src, protocol, packet);
    assert f[6..12] == src;
    assert f[14..] == Padded(packet);
    assert f[12] == Be16(protocol)[0] && f[13] == Be16(protocol)[1];
    GetBe16At(f, 12, protocol);
  }
}
