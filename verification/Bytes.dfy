/** Machine words and byte order: the integer widths of the C program and the
    macros of include/utils.h.  The host is little-endian, as those macros assume. */
module Bytes {

  datatype Option<+T> = None | Some(value: T)

  type byte = x: int | 0 <= x < 0x100
  type u16 = x: int | 0 <= x < 0x1_0000
  type u32 = x: int | 0 <= x < 0x1_0000_0000

  /** Bytes whose number fits a uint16_t. */
  type Chunk = s: seq<byte> | |s| < 0x1_0000

  type Ip = s: seq<byte> | |s| == 4 witness [0, 0, 0, 0]
  type Mac = s: seq<byte> | |s| == 6 witness [0, 0, 0, 0, 0, 0]

  /** Truncation on assignment to a uint16_t or a uint32_t. */
  function ToU16(x: int): u16 { x % 0x1_0000 }
  function ToU32(x: int): u32 { x % 0x1_0000_0000 }

  function Swap16(x: int): u16 {
    (x % 256) * 256 + (x / 256) % 256
  }

  /** A 16-bit value as it lies in little-endian memory. */
  function Le16(x: u16): (s: seq<byte>)
    ensures |s| == 2
  {
    [x % 256, x / 256]
  }

  /** The field obtained by storing swap16(x): network byte order. */
  function Be16(x: int): (s: seq<byte>)
    ensures |s| == 2
  {
    [(x / 256) % 256, x % 256]
  }

  function Be32(x: u32): (s: seq<byte>)
    ensures |s| == 4
  {
    [x / 0x100_0000, (x / 0x1_0000) % 256, (x / 256) % 256, x % 256]
  }

  function GetLe16(s: seq<byte>, at: nat): u16
    requires at + 2 <= |s|
  {
    s[at] as int + 256 * (s[at + 1] as int)
  }

  function GetBe16(s: seq<byte>, at: nat): u16
    requires at + 2 <= |s|
  {
    256 * (s[at] as int) + s[at + 1] as int
  }

  function GetBe32(s: seq<byte>, at: nat): u32
    requires at + 4 <= |s|
  {
    0x1_0000 * GetBe16(s, at) + GetBe16(s, at + 2)
  }

  lemma SwapParts(hi: byte, lo: byte)
    ensures Swap16(256 * hi + lo) == 256 * lo + hi
  {
    assert (256 * hi + lo) / 256 == hi;
  }

  /** A swapped store is network order: hdr->field = swap16(x), then swap16(hdr->field). */
  lemma SwappedStore(x: int)
    ensures Le16(Swap16(x)) == Be16(x)
    ensures GetBe16(Be16(x), 0) == ToU16(x)
  {
    var q, lo := x / 256, x % 256;
    var hi := q % 256;
    assert Swap16(x) == 256 * lo + hi;
    assert (256 * lo + hi) / 256 == lo;
    LowWord(x);
  }

  lemma LowWord(x: int)
    ensures ToU16(x) == 256 * ((x / 256) % 256) + x % 256
  {
    var q := x / 256;
    assert x == 0x1_0000 * (q / 256) + (256 * (q % 256) + x % 256);
  }

  /** Reading, through the swap macro, a field written through it. */
  lemma GetBe16At(s: seq<byte>, at: nat, x: u16)
    requires at + 2 <= |s| && s[at] == Be16(x)[0] && s[at + 1] == Be16(x)[1]
    ensures GetBe16(s, at) == x == Swap16(GetLe16(s, at))
  {
    LowWord(x);
    SwapParts(s[at + 1], s[at]);
  }

  lemma GetBe32At(s: seq<byte>, at: nat, x: u32)
    requires at + 4 <= |s| && s[at..at + 4] == Be32(x)
    ensures GetBe32(s, at) == x
  {
    var q := x / 256;
    var r := x / 0x1_0000;
    assert x / 0x1_0000 == q / 256 && x / 0x100_0000 == r / 256;
    assert s[at] == Be32(x)[0] && s[at + 1] == Be32(x)[1] && s[at + 2] == Be32(x)[2] && s[at + 3] == Be32(x)[3];
  }
}
