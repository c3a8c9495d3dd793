/** The packet buffer of src/buf.c: a window [data, data + len) sliding over a fixed array. */
module Buffers {
  import opened Bytes
  import opened Checksum

  const BUF_MAX_LEN: nat := 2 * 0xFFFF + 0xFF
  const BUF_MIDDLE: nat := BUF_MAX_LEN / 2

  function Zeros(n: nat): (s: seq<byte>)
    ensures |s| == n
  {
    seq(n, _ => 0)
  }

  /** A buf_t as a value, as a map slot holds it. */
  datatype Image = Image(len: nat, data: nat, payload: seq<byte>) {
    ghost predicate Anchored() {
      |payload| == BUF_MAX_LEN && data + len == BUF_MIDDLE
    }

    ghost function Contents(): seq<byte>
      requires Anchored()
    {
      payload[data..data + len]
    }
  }

  lemma SliceOfSlice(s: seq<byte>, lo: nat, hi: nat, at: nat, n: nat)
    requires lo <= hi <= |s| && at + n <= hi - lo
    ensures s[lo..hi][at..at + n] == s[lo + at..lo + at + n]
  {
    var t, r := s[lo..hi][at..at + n], s[lo + at..lo + at + n];
    forall k | 0 <= k < n
      ensures t[k] == r[k]
    {
      assert t[k] == s[lo..hi][at + k];
    }
  }

  class Buf {
    var len: nat
    var data: nat
    const payload: array<byte>

    ghost predicate Valid()
      reads this
    {
      payload.Length == BUF_MAX_LEN && data + len <= BUF_MAX_LEN
    }

    /** The window ends at the middle of the array, as buf_init leaves it. */
    ghost predicate Anchored()
      reads this
    {
      Valid() && data + len == BUF_MIDDLE
    }

    ghost function Contents(): (s: seq<byte>)
      requires Valid()
      reads this, payload
      ensures |s| == len
    {
      payload[data..data + len]
    }

    /** Bytes of the window, as memcpy takes them out. */
    function Read(at: nat, n: nat): (s: seq<byte>)
      requires Valid() && at + n <= len
      reads this, payload
      ensures s == Contents()[at..at + n]
    {
      SliceOfSlice(payload[..], data, data + len, at, n);
      payload[data + at..data + at + n]
    }

    constructor ()
      ensures Anchored() && len == 0 && fresh(payload)
    {
      payload := new byte[BUF_MAX_LEN];
      len, data := 0, BUF_MIDDLE;
    }

    /** The buffer a stored image describes. */
    constructor Load(image: Image)
      requires image.Anchored()
      ensures Anchored() && fresh(payload) && data == image.data && len == image.len
      ensures Contents() == image.Contents()
    {
      payload := new byte[|image.payload|](i requires 0 <= i < |image.payload| => image.payload[i]);
      len, data := image.len, image.data;
      new;
      assert payload[..] == image.payload;
    }

    function ToImage(): (image: Image)
      requires Valid()
      reads this, payload
      ensures Anchored() ==> image.Anchored() && image.Contents() == Contents()
    {
      Image(len, data, payload[..])
    }

    /** buf_init (src/buf.c:12-21) */
    method Init(n: nat) returns (ok: bool)
      requires Valid()
      modifies this
      ensures Valid()
      ensures ok == (n < BUF_MIDDLE)
      ensures ok ==> len == n && Anchored()
      ensures !ok ==> unchanged(this)
    {
      if n >= BUF_MIDDLE {
        return false;
      }
      len := n;
      data := BUF_MIDDLE - n;
      return true;
    }

    /** buf_add_header (src/buf.c:30-38) */
    method AddHeader(n: nat) returns (ok: bool)
      requires Valid()
      modifies this
      ensures Valid() && data + len == old(data + len)
      ensures ok == (n <= old(data))
      ensures ok ==> len == old(len) + n && Contents()[n..] == old(Contents())
      ensures !ok ==> unchanged(this)
    {
      if data < n {
        return false;
      }
      len := len + n;
      data := data - n;
      return true;
    }

    /** buf_remove_header (src/buf.c:47-55) */
    method RemoveHeader(n: nat) returns (ok: bool)
      requires Valid()
      modifies this
      ensures Valid() && data + len == old(data + len)
      ensures ok == (n <= old(len))
      ensures ok ==> Contents() == old(Contents())[n..] && data == old(data) + n
      ensures !ok ==> unchanged(this)
    {
      if len < n {
        return false;
      }
      len := len - n;
      data := data + n;
      return true;
    }

    /** buf_add_padding (src/buf.c:64-72) */
    method AddPadding(n: nat) returns (ok: bool)
      requires Valid()
      modifies this`len, payload
      ensures Valid()
      ensures ok == (old(data + len) + n < BUF_MAX_LEN)
      ensures ok ==> Contents() == old(Contents()) + Zeros(n)
      ensures !ok ==> unchanged(this) && unchanged(payload)
    {
      if data + len + n >= BUF_MAX_LEN {
        return false;
      }
      ghost var before := payload[data..data + len];
      forall i | data + len <= i < data + len + n {
        payload[i] := 0;
      }
      len := len + n;
      assert payload[data..data + len] == before + Zeros(n);
      return true;
    }

    /** buf_remove_padding (src/buf.c:81-88) */
    method RemovePadding(n: nat) returns (ok: bool)
      requires Valid()
      modifies this`len
      ensures Valid()
      ensures ok == (n <= old(len))
      ensures ok ==> Contents() == old(Contents())[..old(len) - n]
      ensures !ok ==> unchanged(this)
    {
      if len < n {
        return false;
      }
      len := len - n;
      return true;
    }

    /** memcpy into the window: header fields and data are written this way. */
    method Write(at: nat, bytes: seq<byte>)
      requires Valid() && at + |bytes| <= len
      modifies payload
      ensures Contents() == old(Contents())[..at] + bytes + old(Contents())[at + |bytes|..]
      ensures forall i | 0 <= i < payload.Length && !(data + at <= i < data + at + |bytes|) ::
                payload[i] == old(payload[i])
    {
      ghost var before := payload[..];
      forall i | 0 <= i < |bytes| {
        payload[data + at + i] := bytes[i];
      }
      ghost var s := before[data..data + len];
      assert payload[data..data + len] == s[..at] + bytes + s[at + |bytes|..];
    }

    /** A checksum field is stored as the machine's own 16-bit word. */
    method WriteWord(at: nat, w: u16)
      requires Valid() && at + 2 <= len
      modifies payload
      ensures Contents() == SetWord(old(Contents()), at, w)
    {
      WrittenWord(Contents(), at, w);
      Write(at, Le16(w));
    }

    /** memcpy to an absolute position of the array, inside the window or not. */
    method Store(pos: nat, bytes: seq<byte>)
      requires pos + |bytes| <= payload.Length
      modifies payload
      ensures payload[pos..pos + |bytes|] == bytes
      ensures forall i | 0 <= i < payload.Length && !(pos <= i < pos + |bytes|) :: payload[i] == old(payload[i])
    {
      forall i | 0 <= i < |bytes| {
        payload[pos + i] := bytes[i];
      }
    }

    /** buf_copy (src/buf.c:97-102).  The whole array is copied but the window is put back where
        buf_init puts it, so the copy is exact for an anchored source and is in general the
        bytes just below the middle. */
    method CopyFrom(src: Buf)
      requires Valid() && src.Valid() && src != this && src.payload != payload
      modifies this, payload
      ensures Valid() && payload[..] == src.payload[..]
      ensures src.len < BUF_MIDDLE ==>
                Anchored() && len == src.len && Contents() == src.payload[BUF_MIDDLE - src.len..BUF_MIDDLE]
      ensures src.Anchored() && src.len < BUF_MIDDLE ==> Contents() == src.Contents()
    {
      var _ := Init(src.len);
      forall i | 0 <= i < BUF_MAX_LEN {
        payload[i] := src.payload[i];
      }
      assert payload[..] == src.payload[..];
    }
  }

  /** buf_init and memcpy: the buffer is reset to hold just these bytes. */
  method Fill(buf: Buf, bytes: seq<byte>)
    requires buf.Valid() && |bytes| < BUF_MIDDLE
    modifies buf, buf.payload
    ensures buf.Anchored() && buf.Contents() == bytes
  {
    var _ := buf.Init(|bytes|);
    buf.Write(0, bytes);
  }
}
