/** The reassembly node of src/ip.c: a fixed array of fragments, sorted in place. */
module ReassemblyNodes {
  import opened Bytes
  import opened Buffers
  import opened Reassembly

  class ReassemblyNode {
    const fragments: array<Fragment>
    var count: nat
    var hasLast: bool
    var totalLen: u16

    ghost predicate Valid()
      reads this, fragments
    {
      fragments.Length == IP_FRAG_MAX_FRAGMENTS && count <= fragments.Length && ValidNode(Value())
    }

    ghost function Value(): Node
      requires count <= fragments.Length
      reads this, fragments
    {
      Node(fragments[..count], hasLast, totalLen)
    }

    constructor ()
      ensures Valid() && Value() == EMPTY_NODE && fresh(fragments)
    {
      fragments := new Fragment[IP_FRAG_MAX_FRAGMENTS];
      count, hasLast, totalLen := 0, false, 0;
    }

    /** ip_reassemble_insert_fragment (src/ip.c:156-204). */
    method InsertFragment(offset: u16, data: Chunk, isLast: bool) returns (ok: bool)
      requires Valid()
      modifies this, fragments
      ensures Valid()
      ensures (Value(), ok) == Insert(old(Value()), Fragment(offset, data, isLast))
    {
      if count >= IP_FRAG_MAX_FRAGMENTS {
        return false;
      }
      var f := Fragment(offset, data, isLast);
      var pos, repeated := FindPosition(f);
      if repeated {
        return false;
      }
      InsertKeepsNode(Value(), f);
      Splice(pos, f);
      return true;
    }

    /** The memmove, the store and the bookkeeping after it. */
    method Splice(pos: nat, f: Fragment)
      requires pos <= count < fragments.Length
      modifies this, fragments
      ensures count <= fragments.Length
      ensures Value() == Node(old(Value()).frags[..pos] + [f] + old(Value()).frags[pos..], old(hasLast) || f.isLast,
                              if f.isLast then ToU16(f.offset + |f.data|) else old(totalLen))
    {
      ghost var before := fragments[..count];
      ShiftIn(pos, f);
      assert before[..pos] == old(fragments[..pos]) && before[pos..] == old(fragments[pos..count]);
      count := count + 1;
      if f.isLast {
        hasLast := true;
        totalLen := ToU16(f.offset + |f.data|);
      }
    }

    /** The search loop: it stops at the first fragment beyond the new one, or at a repetition. */
    method FindPosition(f: Fragment) returns (pos: nat, repeated: bool)
      requires Valid()
      ensures repeated == Repeated(Value().frags[..FirstBeyond(Value().frags, f.offset, 0)], f)
      ensures !repeated ==> pos == FirstBeyond(Value().frags, f.offset, 0)
    {
      ghost var frags := Value().frags;
      ghost var beyond := FirstBeyond(frags, f.offset, 0);
      pos := 0;
      while pos < count
        invariant pos <= beyond
        invariant forall k | 0 <= k < pos :: !SameSpan(frags[k], f)
      {
        assert fragments[pos] == frags[pos];
        if fragments[pos].offset == f.offset && |fragments[pos].data| == |f.data| {
          assert SameSpan(frags[..beyond][pos], f);
          return pos, true;
        }
        if fragments[pos].offset > f.offset {
          break;
        }
        pos := pos + 1;
      }
      return pos, false;
    }

    /** The memmove and the store. */
    method ShiftIn(pos: nat, f: Fragment)
      requires pos <= count < fragments.Length
      modifies fragments
      ensures fragments[..count + 1] == old(fragments[..pos]) + [f] + old(fragments[pos..count])
    {
      ghost var before := fragments[..];
      forall i | pos < i <= count {
        fragments[i] := fragments[i - 1];
      }
      fragments[pos] := f;
      assert fragments[..count + 1] == before[..pos] + [f] + before[pos..count];
    }

    /** ip_reassemble_is_complete (src/ip.c:80-93): the expected offset is a uint16_t. */
    method IsComplete() returns (complete: bool)
      requires Valid()
      ensures complete == Complete(Value())
    {
      if !hasLast {
        return false;
      }
      var expected: u16 := 0;
      var i := 0;
      assert fragments[..count] == fragments[0..count];
      while i < count
        invariant i <= count
        invariant Scan(fragments[i..count], expected) == Scan(Value().frags, 0)
      {
        assert fragments[i..count][1..] == fragments[i + 1..count];
        if fragments[i].offset != expected {
          return false;
        }
        expected := ToU16(expected + |fragments[i].data|);
        i := i + 1;
      }
      return expected == totalLen;
    }

    /** ip_reassemble_merge_fragments (src/ip.c:102-109), into a buffer whose window was set to
        totalLen bytes.  Whatever the fragments, no byte lands outside the buffer's array. */
    method MergeInto(buf: Buf)
      requires Valid() && Complete(Value())
      requires buf.Anchored() && buf.len == totalLen
      modifies buf.payload
      ensures buf.Contents() == Delivery(Value())
    {
      MergeLength(Value().frags, 0);
      ghost var merged := Merge(Value().frags);
      CopyAll(buf);
      SliceOfSlice(buf.payload[..], buf.data, buf.data + |merged|, 0, totalLen);
    }

    method CopyAll(buf: Buf)
      requires count <= fragments.Length && Sorted(Value().frags) && Scan(Value().frags, 0).Some?
      requires buf.Valid() && buf.data + |Merge(Value().frags)| <= BUF_MAX_LEN
      modifies buf.payload
      ensures buf.payload[buf.data..buf.data + |Merge(Value().frags)|] == Merge(Value().frags)
    {
      ghost var frags := Value().frags;
      var offset: u16 := 0;
      var i := 0;
      while i < count
        invariant i <= count
        invariant offset == ToU16(|Merge(frags[..i])|)
        invariant |Merge(frags[..i])| <= |Merge(frags)|
        invariant buf.payload[buf.data..buf.data + |Merge(frags[..i])|] == Merge(frags[..i])
        invariant fragments[..count] == frags
      {
        assert fragments[i] == frags[i];
        i, offset := CopyNext(buf, frags, i, offset, fragments[i].data);
      }
      assert frags[..i] == frags;
    }

    static method CopyNext(buf: Buf, ghost frags: seq<Fragment>, i: nat, offset: u16, data: seq<byte>)
      returns (next: nat, behind: u16)
      requires i < |frags| && data == frags[i].data && Sorted(frags) && Scan(frags, 0).Some?
      requires buf.Valid() && buf.data + |Merge(frags)| <= BUF_MAX_LEN
      requires offset == ToU16(|Merge(frags[..i])|) && |Merge(frags[..i])| <= |Merge(frags)|
      requires buf.payload[buf.data..buf.data + |Merge(frags[..i])|] == Merge(frags[..i])
      modifies buf.payload
      ensures next == i + 1 && behind == ToU16(|Merge(frags[..next])|) && |Merge(frags[..next])| <= |Merge(frags)|
      ensures buf.payload[buf.data..buf.data + |Merge(frags[..next])|] == Merge(frags[..next])
    {
      MergeOffset(frags, 0, i);
      MergeSnoc(frags, i);
      CopyBehind(buf, offset, data, Merge(frags[..i]));
      next, behind := i + 1, ToU16(offset + |data|);
    }

    /** One memcpy of the merge, behind the bytes already copied. */
    static method CopyBehind(buf: Buf, offset: nat, bytes: seq<byte>, ghost done: seq<byte>)
      requires buf.Valid() && offset == |done|
      requires buf.data + |done| + |bytes| <= BUF_MAX_LEN
      requires buf.payload[buf.data..buf.data + |done|] == done
      modifies buf.payload
      ensures buf.payload[buf.data..buf.data + |done + bytes|] == done + bytes
    {
      ghost var at := buf.data;
      ghost var before := buf.payload[at..at + |done|];
      buf.Store(buf.data + offset, bytes);
      assert buf.payload[at..at + |done|] == before;
      assert buf.payload[at..at + |done + bytes|] ==
             buf.payload[at..at + |done|] + buf.payload[at + |done|..at + |done| + |bytes|];
    }

    static lemma MergeSnoc(frags: seq<Fragment>, i: nat)
      requires i < |frags|
      ensures Merge(frags[..i + 1]) == Merge(frags[..i]) + frags[i].data
      ensures |Merge(frags[..i + 1])| <= |Merge(frags)|
    {
      MergeSplit(frags, i);
      var r := frags[..i + 1];
      MergeSplit(r, i);
      assert r[..i] == frags[..i] && r[i + 1..] == [];
    }

    /** ip_reassemble_free_node (src/ip.c:211-219). */
    method Free()
      requires Valid()
      modifies this`count
      ensures Valid() && Value().frags == []
    {
      count := 0;
    }
  }
}
