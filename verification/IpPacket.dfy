/** The IPv4 packets of src/ip.c as byte strings: what ip_fragment_out writes and what
    ip_in accepts. */
module IpPackets {
  import opened Bytes
  import opened Checksum

  const IP_HDR_LEN: nat := 20
  const CHECKSUM_AT: nat := 10
  const IP_MORE_FRAGMENT: nat := 0x2000
  const LOOPBACK: Ip := [127, 0, 0, 1]

  const PROTOCOL_TCP: byte := 6
  const PROTOCOL_UDP: byte := 17

  /** The header fields in memory order, with the checksum still 0 (src/ip.c:376-389).  The
      offset is in units of 8 bytes and shares its field with the flag. */
  function UnsealedHeader(src: Ip, dst: Ip, protocol: byte, id: int, offset: nat, mf: bool, len: nat): (h: seq<byte>)
    ensures |h| == IP_HDR_LEN
  {
    [0x45, 0] + Be16(len) + Be16(id) + Be16((if mf then IP_MORE_FRAGMENT else 0) + offset)
    + [64, protocol] + [0, 0] + src + dst
  }

  function Seal(h: seq<byte>): (r: seq<byte>)
    requires |h| == IP_HDR_LEN
    ensures |r| == IP_HDR_LEN
  {
    SetWord(h, CHECKSUM_AT, Checksum16(h))
  }

  function Packet(src: Ip, dst: Ip, protocol: byte, id: int, offset: nat, mf: bool, payload: seq<byte>): seq<byte> {
    Seal(UnsealedHeader(src, dst, protocol, id, offset, mf, IP_HDR_LEN + |payload|)) + payload
  }

  /** offset is in bytes here. */
  datatype Parsed =
    | Rejected
    | Accepted(protocol: byte, src: Ip, dst: Ip, id: u16, mf: bool, offset: u16, payload: Chunk)

  /** buf_remove_header leaves a window that is too short as it is. */
  function WithoutFront(s: seq<byte>, n: nat): seq<byte> {
    if |s| < n then s else s[n..]
  }

  /** The checks of ip_in on the header (src/ip.c:237-258) of a packet of len bytes, at an interface
      with address ifIp. */
  predicate HeaderOk(ifIp: Ip, h: seq<byte>, len: nat)
    requires |h| == IP_HDR_LEN
  {
    && h[0] / 16 == 4 && GetBe16(h, 2) <= len && Accepts(h, CHECKSUM_AT)
    && (h[16..20] == ifIp || h[16..20] == LOOPBACK)
  }

  /** The fields it takes out (src/ip.c:265-273). */
  function Fields(h: seq<byte>, payload: Chunk): Parsed
    requires |h| == IP_HDR_LEN
  {
    var flags := GetBe16(h, 6);
    Accepted(h[9], h[12..16], h[16..20], GetBe16(h, 4), (flags / IP_MORE_FRAGMENT) % 2 == 1,
             (flags % IP_MORE_FRAGMENT) * 8, payload)
  }

  function HeaderLength(h: seq<byte>): nat
    requires |h| == IP_HDR_LEN
  {
    4 * (h[0] % 16)
  }

  function Parse(ifIp: Ip, s: seq<byte>): Parsed {
    if |s| < IP_HDR_LEN || !HeaderOk(ifIp, s[..IP_HDR_LEN], |s|) then Rejected
    else
      var h := s[..IP_HDR_LEN];
      Fields(h, WithoutFront(s[..GetBe16(h, 2)], HeaderLength(h)))
  }

  lemma HeaderFields(h: seq<byte>, src: Ip, dst: Ip, protocol: byte, id: int, offset: nat, mf: bool, len: u16,
                     payload: Chunk)
    requires offset < IP_MORE_FRAGMENT
    requires h == Seal(UnsealedHeader(src, dst, protocol, id, offset, mf, len))
    ensures GetBe16(h, 2) == len && HeaderLength(h) == IP_HDR_LEN
    ensures forall n: nat | len <= n :: HeaderOk(dst, h, n)
    ensures Fields(h, payload) == Accepted(protocol, src, dst, ToU16(id), mf, offset * 8, payload)
  {
    StoredChecksumIsAccepted(UnsealedHeader(src, dst, protocol, id, offset, mf, len), CHECKSUM_AT);
    GetBe16At(h, 2, len);
    assert h[16..20] == dst;
    SealedFields(h, src, dst, protocol, id, offset, mf, len, payload);
  }

  lemma SealedFields(h: seq<byte>, src: Ip, dst: Ip, protocol: byte, id: int, offset: nat, mf: bool, len: u16,
                     payload: Chunk)
    requires offset < IP_MORE_FRAGMENT
    requires h == Seal(UnsealedHeader(src, dst, protocol, id, offset, mf, len))
    ensures Fields(h, payload) == Accepted(protocol, src, dst, ToU16(id), mf, offset * 8, payload)
  {
    SwappedStore(id);
    GetBe16At(h, 6, (if mf then IP_MORE_FRAGMENT else 0) + offset);
    assert h[12..16] == src && h[16..20] == dst;
  }

  /** A packet survives the trip, whatever link padding follows it: every field and exactly the
      payload come back. */
  lemma ParseOfPacket(src: Ip, dst: Ip, protocol: byte, id: int, offset: nat, mf: bool, payload: seq<byte>,
                      s: seq<byte>)
    requires offset < IP_MORE_FRAGMENT && IP_HDR_LEN + |payload| <= 0xFFFF
    requires Packet(src, dst, protocol, id, offset, mf, payload) <= s
    ensures Parse(dst, s) == Accepted(protocol, src, dst, ToU16(id), mf, offset * 8, payload)
  {
    var len := IP_HDR_LEN + |payload|;
    var h := Seal(UnsealedHeader(src, dst, protocol, id, offset, mf, len));
    HeaderFields(h, src, dst, protocol, id, offset, mf, len, payload);
    assert s[..len] == h + payload;
    assert s[..IP_HDR_LEN] == s[..len][..IP_HDR_LEN] == h;
    assert WithoutFront(s[..len], IP_HDR_LEN) == payload;
  }
}
