/** Reassembly of one datagram (section 3.2 of RFC 791) as src/ip.c does it: the value of a
    reassembly node, and what insertion, the completeness scan and the merge mean. */
module Reassembly {
  import opened Bytes

  const IP_FRAG_MAX_FRAGMENTS: nat := 100

  datatype Fragment = Fragment(offset: u16, data: Chunk, isLast: bool)

  datatype Node = Node(frags: seq<Fragment>, hasLast: bool, totalLen: u16)

  const EMPTY_NODE: Node := Node([], false, 0)

  // ----- ip_reassemble_insert_fragment (src/ip.c:156-204)

  predicate SameSpan(a: Fragment, b: Fragment) {
    a.offset == b.offset && |a.data| == |b.data|
  }

  /** The first position at or after i whose fragment starts beyond offset. */
  function FirstBeyond(frags: seq<Fragment>, offset: u16, i: nat): (p: nat)
    requires i <= |frags|
    ensures i <= p <= |frags|
    ensures p < |frags| ==> frags[p].offset > offset
    ensures forall k | i <= k < p :: frags[k].offset <= offset
    decreases |frags| - i
  {
    if i == |frags| || frags[i].offset > offset then i else FirstBeyond(frags, offset, i + 1)
  }

  predicate Repeated(frags: seq<Fragment>, f: Fragment) {
    exists i | 0 <= i < |frags| :: SameSpan(frags[i], f)
  }

  function Insert(n: Node, f: Fragment): (r: (Node, bool)) {
    var pos := FirstBeyond(n.frags, f.offset, 0);
    if |n.frags| >= IP_FRAG_MAX_FRAGMENTS || Repeated(n.frags[..pos], f) then (n, false)
    else (Node(n.frags[..pos] + [f] + n.frags[pos..],
               n.hasLast || f.isLast,
               if f.isLast then ToU16(f.offset + |f.data|) else n.totalLen), true)
  }

  ghost predicate Sorted(frags: seq<Fragment>) {
    forall i, j | 0 <= i < j < |frags| :: frags[i].offset <= frags[j].offset
  }

  ghost predicate Distinct(frags: seq<Fragment>) {
    forall i, j | 0 <= i < j < |frags| :: !SameSpan(frags[i], frags[j])
  }

  ghost predicate ValidNode(n: Node) {
    Sorted(n.frags) && Distinct(n.frags) && |n.frags| <= IP_FRAG_MAX_FRAGMENTS
  }

  /** Any insertion keeps the array sorted, free of repeated spans and within its bound; it is
      refused exactly for a full array or a span already present anywhere, and otherwise adds
      the fragment to those held. */
  lemma InsertKeepsNode(n: Node, f: Fragment)
    requires ValidNode(n)
    ensures ValidNode(Insert(n, f).0)
    ensures Insert(n, f).1 <==> |n.frags| < IP_FRAG_MAX_FRAGMENTS && !Repeated(n.frags, f)
    ensures multiset(Insert(n, f).0.frags) == multiset(n.frags) + (if Insert(n, f).1 then multiset{f} else multiset{})
  {
    var pos := FirstBeyond(n.frags, f.offset, 0);
    RepeatIsFound(n.frags, pos, f);
    if Insert(n, f).1 {
      SplicedIn(n.frags, pos, f);
      SplicedMultiset(n.frags, pos, f);
    }
  }

  /** In a sorted array a repeated span can only sit before the insertion point. */
  lemma RepeatIsFound(frags: seq<Fragment>, pos: nat, f: Fragment)
    requires Sorted(frags) && pos <= |frags|
    requires pos < |frags| ==> frags[pos].offset > f.offset
    ensures Repeated(frags[..pos], f) <==> Repeated(frags, f)
  {
    if Repeated(frags, f) {
      var i :| 0 <= i < |frags| && SameSpan(frags[i], f);
      assert i < pos && frags[..pos][i] == frags[i];
    }
    if Repeated(frags[..pos], f) {
      var i :| 0 <= i < pos && SameSpan(frags[..pos][i], f);
      assert frags[..pos][i] == frags[i];
    }
  }

  lemma SplicedMultiset(frags: seq<Fragment>, pos: nat, f: Fragment)
    requires pos <= |frags|
    ensures multiset(frags[..pos] + [f] + frags[pos..]) == multiset(frags) + multiset{f}
  {
    assert frags == frags[..pos] + frags[pos..];
  }

  lemma SplicedIn(frags: seq<Fragment>, pos: nat, f: Fragment)
    requires Sorted(frags) && Distinct(frags) && pos <= |frags| && !Repeated(frags, f)
    requires forall i | 0 <= i < pos :: frags[i].offset <= f.offset
    requires pos < |frags| ==> f.offset < frags[pos].offset
    ensures Sorted(frags[..pos] + [f] + frags[pos..])
    ensures Distinct(frags[..pos] + [f] + frags[pos..])
  {
    assert forall i | pos <= i < |frags| :: f.offset < frags[i].offset;
    var r := frags[..pos] + [f] + frags[pos..];
    assert forall i | 0 <= i < |r| :: r[i] == if i < pos then frags[i] else if i == pos then f else frags[i - 1];
  }

  // ----- ip_reassemble_is_complete (src/ip.c:80-93)

  /** The uint16_t the scan ends with, or None where an offset differs from the one expected. */
  function Scan(frags: seq<Fragment>, expected: u16): Option<u16> {
    if |frags| == 0 then Some(expected)
    else if frags[0].offset != expected then None
    else Scan(frags[1..], ToU16(expected + |frags[0].data|))
  }

  predicate Complete(n: Node) {
    n.hasLast && Scan(n.frags, 0) == Some(n.totalLen)
  }

  predicate Covers(f: Fragment, p: nat) {
    f.offset <= p < f.offset + |f.data|
  }

  /** How many fragments hold the byte at position p. */
  function CoverCount(frags: seq<Fragment>, p: nat): nat {
    if |frags| == 0 then 0
    else (if Covers(frags[0], p) then 1 else 0) + CoverCount(frags[1..], p)
  }

  /** Each position in [from, to) is held exactly once, and no other position at all. */
  ghost predicate Tiles(frags: seq<Fragment>, from: nat, to: nat) {
    forall p: nat :: CoverCount(frags, p) == if from <= p < to then 1 else 0
  }

  /** Nonempty fragments, none ending beyond 65535. */
  ghost predicate Fits(frags: seq<Fragment>) {
    forall i | 0 <= i < |frags| :: 0 < |frags[i].data| && frags[i].offset + |frags[i].data| <= 0xFFFF
  }

  lemma {:induction false} NotCoveredBelow(frags: seq<Fragment>, p: nat)
    requires forall i | 0 <= i < |frags| :: p < frags[i].offset
    ensures CoverCount(frags, p) == 0
  {
    if |frags| > 0 {
      NotCoveredBelow(frags[1..], p);
    }
  }

  lemma {:induction false} ScanEnd(frags: seq<Fragment>, from: u16)
    requires Fits(frags)
    ensures Scan(frags, from).Some? ==> from <= Scan(frags, from).value
  {
    if |frags| > 0 && frags[0].offset == from {
      ScanEnd(frags[1..], from + |frags[0].data|);
    }
  }

  lemma TailTiles(frags: seq<Fragment>, from: nat, to: nat)
    requires |frags| > 0 && frags[0].offset == from && from + |frags[0].data| <= to
    ensures Tiles(frags, from, to) <==> Tiles(frags[1..], from + |frags[0].data|, to)
  {
    var mid := from + |frags[0].data|;
    if Tiles(frags, from, to) {
      forall p: nat
        ensures CoverCount(frags[1..], p) == if mid <= p < to then 1 else 0
      {
        assert CoverCount(frags, p) == if from <= p < to then 1 else 0;
      }
    }
    if Tiles(frags[1..], mid, to) {
      forall p: nat
        ensures CoverCount(frags, p) == if from <= p < to then 1 else 0
      {
        assert CoverCount(frags[1..], p) == if mid <= p < to then 1 else 0;
      }
    }
  }

  lemma TilingStartsAtFirst(frags: seq<Fragment>, from: nat, to: nat)
    requires Sorted(frags) && Fits(frags) && |frags| > 0
    requires Tiles(frags, from, to)
    ensures frags[0].offset == from && from + |frags[0].data| <= to
  {
    var f := frags[0];
    assert CoverCount(frags, f.offset) > 0;
    if f.offset > from {
      NotCoveredBelow(frags, from);
    }
    var last := f.offset + |f.data| - 1;
    assert CoverCount(frags, last) > 0;
  }

  lemma {:induction false} ScanIffTiles(frags: seq<Fragment>, from: u16, to: u16)
    requires Sorted(frags) && Fits(frags) && from <= to
    ensures Scan(frags, from) == Some(to) <==> Tiles(frags, from, to)
  {
    if |frags| == 0 {
      if from < to {
        assert CoverCount(frags, from) == 0;
      }
    } else {
      var mid := frags[0].offset + |frags[0].data|;
      if frags[0].offset == from && mid <= to {
        ScanIffTiles(frags[1..], mid, to);
        TailTiles(frags, from, to);
      } else {
        if Tiles(frags, from, to) {
          TilingStartsAtFirst(frags, from, to);
        }
        if frags[0].offset == from {
          ScanEnd(frags[1..], mid);
        }
      }
    }
  }

  /** For nonempty fragments that end within 16 bits, the scan succeeds iff a last fragment was
      seen and the fragments cover [0, totalLen) exactly once, and nothing beyond it. */
  lemma CompleteIffExactCover(n: Node)
    requires ValidNode(n) && Fits(n.frags)
    ensures Complete(n) <==> n.hasLast && Tiles(n.frags, 0, n.totalLen)
  {
    ScanIffTiles(n.frags, 0, n.totalLen);
  }

  // ----- ip_reassemble_merge_fragments (src/ip.c:102-109)

  function Merge(frags: seq<Fragment>): seq<byte> {
    if |frags| == 0 then [] else frags[0].data + Merge(frags[1..])
  }

  /** In a sorted array the scan's 16-bit offset cannot wrap before the last fragment. */
  lemma {:induction false} NoWrapBeforeLast(frags: seq<Fragment>, from: u16)
    requires Sorted(frags) && Scan(frags, from).Some? && |frags| > 1
    ensures frags[0].offset == from && from + |frags[0].data| == frags[1].offset
  {
    assert Scan(frags[1..], ToU16(from + |frags[0].data|)).Some?;
  }

  /** Whatever the fragments, a successful scan bounds the merge: it is as long as the scan
      says, or 65536 bytes longer. */
  lemma {:induction false} MergeLength(frags: seq<Fragment>, from: u16)
    requires Sorted(frags) && Scan(frags, from).Some?
    ensures from + |Merge(frags)| == Scan(frags, from).value ||
            from + |Merge(frags)| == Scan(frags, from).value + 0x1_0000
  {
    if |frags| > 1 {
      NoWrapBeforeLast(frags, from);
      MergeLength(frags[1..], frags[1].offset);
    } else if |frags| == 1 {
      assert frags[1..] == [];
    }
  }

  lemma {:induction false} MergeOffset(frags: seq<Fragment>, from: u16, i: nat)
    requires Sorted(frags) && Scan(frags, from).Some? && i < |frags|
    ensures from + |Merge(frags[..i])| == frags[i].offset
  {
    if i > 0 {
      NoWrapBeforeLast(frags, from);
      MergeOffset(frags[1..], frags[1].offset, i - 1);
      assert frags[..i][1..] == frags[1..][..i - 1];
    }
  }

  lemma {:induction false} MergeSplit(frags: seq<Fragment>, i: nat)
    requires i < |frags|
    ensures Merge(frags) == Merge(frags[..i]) + frags[i].data + Merge(frags[i + 1..])
  {
    if i > 0 {
      MergeSplit(frags[1..], i - 1);
      assert frags[..i][1..] == frags[1..][..i - 1];
      assert frags[1..][i..] == frags[i + 1..];
    }
  }

  /** In a complete node every fragment's bytes land at the fragment's own offset. */
  lemma MergePlacesFragments(n: Node, i: nat)
    requires ValidNode(n) && Complete(n) && i < |n.frags|
    ensures n.frags[i].offset + |n.frags[i].data| <= |Merge(n.frags)|
    ensures Merge(n.frags)[n.frags[i].offset..n.frags[i].offset + |n.frags[i].data|] == n.frags[i].data
  {
    MergeOffset(n.frags, 0, i);
    MergeSplit(n.frags, i);
  }

  /** What a complete node delivers: totalLen bytes of the merge. */
  function Delivery(n: Node): (d: seq<byte>)
    requires ValidNode(n) && Complete(n)
    ensures |d| == n.totalLen
  {
    MergeLength(n.frags, 0);
    Merge(n.frags)[..n.totalLen]
  }

  /** One fragment arriving at a node: the node afterwards, and the datagram if now whole. */
  function Receive(n: Node, f: Fragment): (r: (Node, Option<seq<byte>>))
    requires ValidNode(n)
    ensures ValidNode(r.0)
  {
    InsertKeepsNode(n, f);
    var (m, ok) := Insert(n, f);
    if ok && Complete(m) then (EMPTY_NODE, Some(Delivery(m))) else (m, None)
  }
}
