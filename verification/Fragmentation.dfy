/** ip_out's cutting of a payload, and the theorem that a receiver's node undoes it under
    reordering, duplication and interleaving (section 3.2 of RFC 791). */
module Fragmentation {
  import opened Bytes
  import opened Reassembly

  /** 1500 minus the 20-byte header (src/ip.c:435). */
  const MAX_LOAD: nat := 1480

  /** The largest payload a buffer takes is below this (buf_init). */
  const PAYLOAD_LIMIT: nat := 65662

  type Payload = s: seq<byte> | |s| < PAYLOAD_LIMIT

  /** What is left of a payload once its length has been through a uint16_t. */
  function Arrived(p: seq<byte>): seq<byte> { p[..ToU16(|p|)] }

  lemma ArrivedWhole(p: seq<byte>)
    ensures Arrived(p) == p <==> |p| <= 0xFFFF
  {
    if |p| <= 0xFFFF {
      assert p[..|p|] == p;
    }
  }

  /** How many packets the loop of ip_out produces, the final one included (src/ip.c:440-451). */
  function PieceCount(n: nat): nat {
    if n == 0 then 1 else (n - 1) / MAX_LOAD + 1
  }

  function PieceEnd(n: nat, i: nat): nat {
    if (i + 1) * MAX_LOAD < n then (i + 1) * MAX_LOAD else n
  }

  lemma PieceBounds(n: nat, i: nat)
    requires i < PieceCount(n)
    ensures i * MAX_LOAD <= PieceEnd(n, i) <= n
    ensures PieceEnd(n, i) - i * MAX_LOAD <= MAX_LOAD
    ensures i + 1 < PieceCount(n) <==> (i + 1) * MAX_LOAD < n
    ensures i + 1 < PieceCount(n) ==> PieceEnd(n, i) == (i + 1) * MAX_LOAD
    ensures i + 1 == PieceCount(n) ==> PieceEnd(n, i) == n
    ensures n < PAYLOAD_LIMIT ==> i <= 44
    ensures n > 0 ==> i * MAX_LOAD < PieceEnd(n, i)
  {
  }

  /** The bytes of the i-th packet. */
  function Piece(p: Payload, i: nat): seq<byte>
    requires i < PieceCount(|p|)
  {
    PieceBounds(|p|, i);
    p[i * MAX_LOAD..PieceEnd(|p|, i)]
  }

  /** The i-th packet as the receiver's node stores it. */
  function PieceFragment(p: Payload, i: nat): Fragment
    requires i < PieceCount(|p|)
  {
    PieceBounds(|p|, i);
    Fragment(i * MAX_LOAD, Piece(p, i), i + 1 == PieceCount(|p|))
  }

  // ----- The node that has seen a given set of pieces

  ghost function Pick(p: Payload, got: set<nat>, lo: nat, hi: nat): (s: seq<Fragment>)
    requires hi <= PieceCount(|p|)
    ensures |s| <= if lo <= hi then hi - lo else 0
    decreases hi - lo
  {
    if lo >= hi then [] else (if lo in got then [PieceFragment(p, lo)] else []) + Pick(p, got, lo + 1, hi)
  }

  ghost function NodeOf(p: Payload, got: set<nat>): Node {
    var last := PieceCount(|p|) - 1;
    Node(Pick(p, got, 0, last + 1), last in got, if last in got then ToU16(|p|) else 0)
  }

  ghost function Below(n: nat): (s: set<nat>)
    ensures forall i: nat :: i in s <==> i < n
  {
    if n == 0 then {} else Below(n - 1) + {n - 1}
  }

  ghost function All(p: Payload): set<nat> { Below(PieceCount(|p|)) }

  lemma {:induction false} PickOffsets(p: Payload, got: set<nat>, lo: nat, hi: nat)
    requires hi <= PieceCount(|p|)
    ensures forall k | 0 <= k < |Pick(p, got, lo, hi)| ::
              lo * MAX_LOAD <= Pick(p, got, lo, hi)[k].offset < hi * MAX_LOAD
    ensures Sorted(Pick(p, got, lo, hi)) && Distinct(Pick(p, got, lo, hi))
    decreases hi - lo
  {
    if lo < hi {
      PickOffsets(p, got, lo + 1, hi);
    }
  }

  lemma {:induction false} PickSplit(p: Payload, got: set<nat>, lo: nat, mid: nat, hi: nat)
    requires lo <= mid <= hi <= PieceCount(|p|)
    ensures Pick(p, got, lo, hi) == Pick(p, got, lo, mid) + Pick(p, got, mid, hi)
    decreases mid - lo
  {
    if lo < mid {
      PickSplit(p, got, lo + 1, mid, hi);
    }
  }

  lemma {:induction false} PickIgnores(p: Payload, got: set<nat>, j: nat, lo: nat, hi: nat)
    requires hi <= PieceCount(|p|) && !(lo <= j < hi)
    ensures Pick(p, got + {j}, lo, hi) == Pick(p, got, lo, hi)
    decreases hi - lo
  {
    if lo < hi {
      PickIgnores(p, got, j, lo + 1, hi);
    }
  }

  lemma {:induction false} FirstBeyondIs(frags: seq<Fragment>, offset: u16, i: nat, p: nat)
    requires i <= p <= |frags|
    requires forall k | i <= k < p :: frags[k].offset <= offset
    requires p < |frags| ==> frags[p].offset > offset
    ensures FirstBeyond(frags, offset, i) == p
    decreases p - i
  {
    if i < p {
      FirstBeyondIs(frags, offset, i + 1, p);
    }
  }

  lemma InsertBetween(n: Node, a: seq<Fragment>, b: seq<Fragment>, f: Fragment)
    requires n.frags == a + b && |a| + |b| < IP_FRAG_MAX_FRAGMENTS
    requires forall k | 0 <= k < |a| :: a[k].offset < f.offset
    requires forall k | 0 <= k < |b| :: f.offset < b[k].offset
    ensures Insert(n, f) == (Node(a + [f] + b, n.hasLast || f.isLast,
                                  if f.isLast then ToU16(f.offset + |f.data|) else n.totalLen), true)
  {
    FirstBeyondIs(n.frags, f.offset, 0, |a|);
    assert n.frags[..|a|] == a && n.frags[|a|..] == b;
    assert !Repeated(a, f);
  }

  lemma InsertAgain(n: Node, a: seq<Fragment>, b: seq<Fragment>, f: Fragment)
    requires n.frags == a + [f] + b
    requires forall k | 0 <= k < |a| :: a[k].offset < f.offset
    requires forall k | 0 <= k < |b| :: f.offset < b[k].offset
    ensures Insert(n, f) == (n, false)
  {
    FirstBeyondIs(n.frags, f.offset, 0, |a| + 1);
    assert SameSpan(n.frags[..|a| + 1][|a|], f);
  }

  /** The fragments before and after piece j among those picked. */
  lemma AroundPiece(p: Payload, got: set<nat>, j: nat) returns (a: seq<Fragment>, b: seq<Fragment>)
    requires j < PieceCount(|p|)
    ensures |a| + |b| < 45
    ensures forall k | 0 <= k < |a| :: a[k].offset < j * MAX_LOAD
    ensures forall k | 0 <= k < |b| :: j * MAX_LOAD < b[k].offset
    ensures NodeOf(p, got).frags == if j in got then a + [PieceFragment(p, j)] + b else a + b
    ensures NodeOf(p, got + {j}).frags == a + [PieceFragment(p, j)] + b
  {
    a, b := Pick(p, got, 0, j), Pick(p, got, j + 1, PieceCount(|p|));
    SidesOfPiece(p, got, j);
    PickAround(p, got, j);
    PickAround(p, got + {j}, j);
    PickIgnores(p, got, j, 0, j);
    PickIgnores(p, got, j, j + 1, PieceCount(|p|));
  }

  lemma {:induction false} SidesOfPiece(p: Payload, got: set<nat>, j: nat)
    requires j < PieceCount(|p|)
    ensures var (a, b) := (Pick(p, got, 0, j), Pick(p, got, j + 1, PieceCount(|p|)));
            && |a| + |b| < 45
            && (forall k | 0 <= k < |a| :: a[k].offset < j * MAX_LOAD)
            && (forall k | 0 <= k < |b| :: j * MAX_LOAD < b[k].offset)
  {
    PieceBounds(|p|, PieceCount(|p|) - 1);
    PickOffsets(p, got, 0, j);
    PickOffsets(p, got, j + 1, PieceCount(|p|));
  }

  lemma {:induction false} PickAround(p: Payload, got: set<nat>, j: nat)
    requires j < PieceCount(|p|)
    ensures Pick(p, got, 0, PieceCount(|p|)) ==
            var (a, b) := (Pick(p, got, 0, j), Pick(p, got, j + 1, PieceCount(|p|)));
            if j in got then a + [PieceFragment(p, j)] + b else a + b
  {
    PickSplit(p, got, 0, j, PieceCount(|p|));
  }

  lemma LastOfNode(p: Payload, got: set<nat>, j: nat)
    requires j < PieceCount(|p|)
    ensures var (n, m, f) := (NodeOf(p, got), NodeOf(p, got + {j}), PieceFragment(p, j));
            && m.hasLast == (n.hasLast || f.isLast)
            && m.totalLen == if f.isLast then ToU16(f.offset + |f.data|) else n.totalLen
  {
    PieceBounds(|p|, j);
  }

  /** Inserting a piece turns the node of one set of pieces into the node of the larger set; a
      piece already seen is refused. */
  lemma InsertPiece(p: Payload, got: set<nat>, j: nat)
    requires j < PieceCount(|p|)
    ensures Insert(NodeOf(p, got), PieceFragment(p, j)) == (NodeOf(p, got + {j}), j !in got)
  {
    var a, b := AroundPiece(p, got, j);
    if j in got {
      InsertAgain(NodeOf(p, got), a, b, PieceFragment(p, j));
      assert got + {j} == got;
    } else {
      InsertNewPiece(p, got, j, a, b);
    }
  }

  lemma InsertNewPiece(p: Payload, got: set<nat>, j: nat, a: seq<Fragment>, b: seq<Fragment>)
    requires j < PieceCount(|p|) && j !in got && |a| + |b| < 45
    requires forall k | 0 <= k < |a| :: a[k].offset < j * MAX_LOAD
    requires forall k | 0 <= k < |b| :: j * MAX_LOAD < b[k].offset
    requires NodeOf(p, got).frags == a + b && NodeOf(p, got + {j}).frags == a + [PieceFragment(p, j)] + b
    ensures Insert(NodeOf(p, got), PieceFragment(p, j)) == (NodeOf(p, got + {j}), true)
  {
    InsertBetween(NodeOf(p, got), a, b, PieceFragment(p, j));
    LastOfNode(p, got, j);
  }

  /** Where the bytes of pieces i and later begin. */
  function PieceStart(n: nat, i: nat): (at: nat)
    requires i <= PieceCount(n)
    ensures at <= n
  {
    if i == PieceCount(n) then n else (PieceBounds(n, i); i * MAX_LOAD)
  }

  /** The scan and the merge step over a piece that is present. */
  lemma PiecePresent(p: Payload, got: set<nat>, i: nat)
    requires i < PieceCount(|p|) && i in got
    ensures Scan(Pick(p, got, i, PieceCount(|p|)), ToU16(PieceStart(|p|, i))) ==
            Scan(Pick(p, got, i + 1, PieceCount(|p|)), ToU16(PieceStart(|p|, i + 1)))
    ensures Merge(Pick(p, got, i, PieceCount(|p|))) == Piece(p, i) + Merge(Pick(p, got, i + 1, PieceCount(|p|)))
    ensures Piece(p, i) == p[PieceStart(|p|, i)..PieceStart(|p|, i + 1)]
  {
    NextStart(|p|, i);
    var frags := Pick(p, got, i, PieceCount(|p|));
    assert frags[0] == PieceFragment(p, i) && frags[1..] == Pick(p, got, i + 1, PieceCount(|p|));
  }

  lemma NextStart(n: nat, i: nat)
    requires i < PieceCount(n) && n < PAYLOAD_LIMIT
    ensures PieceStart(n, i) == i * MAX_LOAD == ToU16(PieceStart(n, i)) <= PieceEnd(n, i) == PieceStart(n, i + 1)
    ensures ToU16(i * MAX_LOAD + (PieceEnd(n, i) - i * MAX_LOAD)) == ToU16(PieceStart(n, i + 1))
  {
    PieceBounds(n, i);
  }

  /** With no piece missing from i on, the scan and the merge run through to the end. */
  lemma {:induction false} ScanAllPieces(p: Payload, got: set<nat>, i: nat)
    requires i <= PieceCount(|p|)
    requires forall k: nat | i <= k < PieceCount(|p|) :: k in got
    ensures Scan(Pick(p, got, i, PieceCount(|p|)), ToU16(PieceStart(|p|, i))) == Some(ToU16(|p|))
    ensures Merge(Pick(p, got, i, PieceCount(|p|))) == p[PieceStart(|p|, i)..]
    decreases PieceCount(|p|) - i
  {
    if i < PieceCount(|p|) {
      assert i in got;
      PiecePresent(p, got, i);
      ScanAllPieces(p, got, i + 1);
    }
  }

  lemma {:induction false} PickFirst(p: Payload, got: set<nat>, lo: nat, hi: nat, j: nat)
    requires hi <= PieceCount(|p|) && lo <= j < hi && j in got
    ensures |Pick(p, got, lo, hi)| > 0 && Pick(p, got, lo, hi)[0].offset >= lo * MAX_LOAD
    decreases hi - lo
  {
    if lo !in got {
      PickFirst(p, got, lo + 1, hi, j);
    }
  }

  /** With a piece missing before the last, the scan stops at the gap. */
  lemma {:induction false} ScanStopsAtGap(p: Payload, got: set<nat>, i: nat, gap: nat)
    requires i <= gap < PieceCount(|p|) && gap !in got
    requires PieceCount(|p|) - 1 in got
    ensures Scan(Pick(p, got, i, PieceCount(|p|)), ToU16(PieceStart(|p|, i))) == None
    decreases gap - i
  {
    if i in got {
      PiecePresent(p, got, i);
      ScanStopsAtGap(p, got, i + 1, gap);
    } else {
      ScanStopsHere(p, got, i);
    }
  }

  lemma ScanStopsHere(p: Payload, got: set<nat>, i: nat)
    requires i < PieceCount(|p|) && i !in got && PieceCount(|p|) - 1 in got
    ensures Scan(Pick(p, got, i, PieceCount(|p|)), ToU16(PieceStart(|p|, i))) == None
  {
    var n := PieceCount(|p|);
    PieceBounds(|p|, i);
    PickFirst(p, got, i + 1, n, n - 1);
  }

  /** The node is complete iff no piece is missing, and then delivers the payload cut to
      its length modulo 65536, which is the payload itself iff that fits 16 bits. */
  lemma CompletePieces(p: Payload, got: set<nat>)
    requires got <= All(p)
    ensures ValidNode(NodeOf(p, got))
    ensures Complete(NodeOf(p, got)) <==> got == All(p)
    ensures got == All(p) ==> Delivery(NodeOf(p, got)) == Arrived(p)
  {
    var n := PieceCount(|p|);
    PickOffsets(p, got, 0, n);
    PieceBounds(|p|, 0);
    if got == All(p) {
      ScanAllPieces(p, got, 0);
      assert p[0..] == p;
    } else if n - 1 in got {
      var gap :| gap in All(p) && gap !in got;
      ScanStopsAtGap(p, got, 0, gap);
    }
  }

  // ----- Whole runs at one key

  /** The receiver reduced to what matters: the pieces seen since the last delivery. */
  ghost function Collect(p: Payload, got: set<nat>, j: nat): (set<nat>, Option<seq<byte>>) {
    if j !in got && got + {j} == All(p) then ({}, Some(Arrived(p))) else (got + {j}, None)
  }

  lemma ReceiveIsCollect(p: Payload, got: set<nat>, j: nat)
    requires got <= All(p) && j < PieceCount(|p|)
    requires got != All(p)
    ensures ValidNode(NodeOf(p, got))
    ensures var (after, out) := Collect(p, got, j);
            && Receive(NodeOf(p, got), PieceFragment(p, j)) == (NodeOf(p, after), out)
            && after <= All(p) && after != All(p)
  {
    InsertPiece(p, got, j);
    CompletePieces(p, got);
    CompletePieces(p, got + {j});
    NothingPicked(p, 0);
    if j in got {
      assert got + {j} == got;
    }
    assert 0 in All(p);
  }

  lemma {:induction false} NothingPicked(p: Payload, lo: nat)
    ensures Pick(p, {}, lo, PieceCount(|p|)) == []
    decreases PieceCount(|p|) - lo
  {
    if lo < PieceCount(|p|) {
      NothingPicked(p, lo + 1);
    }
  }

  /** What a run has delivered once one more arrival has been handled. */
  function Append<T>(out: seq<T>, d: Option<T>): seq<T> {
    match d
    case None => out
    case Some(x) => out + [x]
  }

  /** A node after a run of fragments, with everything delivered on the way. */
  function RunNode(n: Node, arrivals: seq<Fragment>): (r: (Node, seq<seq<byte>>))
    requires ValidNode(n)
    ensures ValidNode(r.0)
  {
    if |arrivals| == 0 then (n, [])
    else
      var (before, out) := RunNode(n, arrivals[..|arrivals| - 1]);
      var (after, d) := Receive(before, arrivals[|arrivals| - 1]);
      (after, Append(out, d))
  }

  ghost function RunCollect(p: Payload, got: set<nat>, arrivals: seq<nat>): (set<nat>, seq<seq<byte>>) {
    if |arrivals| == 0 then (got, [])
    else
      var (before, out) := RunCollect(p, got, arrivals[..|arrivals| - 1]);
      var (after, d) := Collect(p, before, arrivals[|arrivals| - 1]);
      (after, Append(out, d))
  }

  ghost predicate ArePieces(p: Payload, arrivals: seq<nat>) {
    forall k | 0 <= k < |arrivals| :: arrivals[k] < PieceCount(|p|)
  }

  ghost function PieceFragments(p: Payload, arrivals: seq<nat>): (s: seq<Fragment>)
    requires ArePieces(p, arrivals)
    ensures |s| == |arrivals|
  {
    seq(|arrivals|, k requires 0 <= k < |arrivals| => PieceFragment(p, arrivals[k]))
  }

  /** Any order, any repetition, before and after completion: the node is always the node of the
      set of pieces collected since the last delivery, and delivers exactly when the set fills up. */
  lemma {:induction false} RunIsCollect(p: Payload, arrivals: seq<nat>)
    requires ArePieces(p, arrivals)
    ensures ValidNode(EMPTY_NODE)
    ensures var (got, out) := RunCollect(p, {}, arrivals);
            && RunNode(EMPTY_NODE, PieceFragments(p, arrivals)) == (NodeOf(p, got), out)
            && got <= All(p) && got != All(p)
  {
    if |arrivals| == 0 {
      NothingPicked(p, 0);
      assert 0 in All(p);
    } else {
      var m := |arrivals| - 1;
      RunIsCollect(p, arrivals[..m]);
      assert PieceFragments(p, arrivals)[..m] == PieceFragments(p, arrivals[..m]);
      ReceiveIsCollect(p, RunCollect(p, {}, arrivals[..m]).0, arrivals[m]);
    }
  }

  ghost function Seen(arrivals: seq<nat>): set<nat> {
    set k | 0 <= k < |arrivals| :: arrivals[k]
  }

  lemma {:induction false} BeforeTheLastPiece(p: Payload, arrivals: seq<nat>)
    requires Seen(arrivals) < All(p)
    ensures RunCollect(p, {}, arrivals) == (Seen(arrivals), [])
  {
    if |arrivals| == 0 {
      assert Seen(arrivals) == {};
    }
    if |arrivals| > 0 {
      var m := |arrivals| - 1;
      SeenOne(arrivals);
      assert Seen(arrivals[..m]) < All(p);
      BeforeTheLastPiece(p, arrivals[..m]);
    }
  }

  lemma SeenOne(arrivals: seq<nat>)
    requires |arrivals| > 0
    ensures Seen(arrivals) == Seen(arrivals[..|arrivals| - 1]) + {arrivals[|arrivals| - 1]}
  {
    var m := |arrivals| - 1;
    forall x | x in Seen(arrivals)
      ensures x in Seen(arrivals[..m]) + {arrivals[m]}
    {
      var k :| 0 <= k < |arrivals| && arrivals[k] == x;
      if k < m {
        assert arrivals[..m][k] == x;
      }
    }
    forall x | x in Seen(arrivals[..m])
      ensures x in Seen(arrivals)
    {
      var k :| 0 <= k < m && arrivals[..m][k] == x;
      assert arrivals[k] == x;
    }
  }

  lemma {:induction false} LastPieceCompletes(p: Payload, arrivals: seq<nat>, last: nat)
    requires Seen(arrivals) < All(p) && Seen(arrivals) + {last} == All(p)
    ensures RunCollect(p, {}, arrivals + [last]) == ({}, [Arrived(p)])
  {
    BeforeTheLastPiece(p, arrivals);
    assert (arrivals + [last])[..|arrivals|] == arrivals;
    assert [] + [Arrived(p)] == [Arrived(p)];
  }

  lemma NothingBeforeTheLastPiece(p: Payload, arrivals: seq<nat>, last: nat)
    requires Seen(arrivals) < All(p) && Seen(arrivals) + {last} == All(p)
    ensures ArePieces(p, arrivals)
    ensures RunNode(EMPTY_NODE, PieceFragments(p, arrivals)).1 == []
  {
    SeenArePieces(p, arrivals, last);
    BeforeTheLastPiece(p, arrivals);
    NodeFollowsSet(p, arrivals, Seen(arrivals), []);
  }

  lemma DeliveryAtTheLastPiece(p: Payload, arrivals: seq<nat>, last: nat)
    requires Seen(arrivals) < All(p) && Seen(arrivals) + {last} == All(p)
    ensures ArePieces(p, arrivals + [last])
    ensures RunNode(EMPTY_NODE, PieceFragments(p, arrivals + [last])) == (EMPTY_NODE, [Arrived(p)])
  {
    SeenArePieces(p, arrivals, last);
    LastPieceCompletes(p, arrivals, last);
    NodeFollowsSet(p, arrivals + [last], {}, [Arrived(p)]);
    EmptyNodeOf(p);
  }

  /** The round trip.  Feed a node the fragments of p in any order, with any repetitions, until the
      last missing one arrives: nothing is delivered before that arrival, at it exactly one datagram
      is, and the datagram is p iff p is at most 65535 bytes long. */
  lemma FragmentationRoundTrip(p: Payload, arrivals: seq<nat>, last: nat)
    requires Seen(arrivals) < All(p) && Seen(arrivals) + {last} == All(p)
    ensures ArePieces(p, arrivals) && ArePieces(p, arrivals + [last])
    ensures RunNode(EMPTY_NODE, PieceFragments(p, arrivals)).1 == []
    ensures RunNode(EMPTY_NODE, PieceFragments(p, arrivals + [last])) == (EMPTY_NODE, [Arrived(p)])
    ensures Arrived(p) == p <==> |p| <= 0xFFFF
  {
    ArrivedWhole(p);
    NothingBeforeTheLastPiece(p, arrivals, last);
    DeliveryAtTheLastPiece(p, arrivals, last);
  }

  lemma {:induction false} NodeFollowsSet(p: Payload, arrivals: seq<nat>, got: set<nat>, out: seq<seq<byte>>)
    requires ArePieces(p, arrivals)
    requires RunCollect(p, {}, arrivals) == (got, out)
    ensures RunNode(EMPTY_NODE, PieceFragments(p, arrivals)) == (NodeOf(p, got), out)
  {
    RunIsCollect(p, arrivals);
  }

  lemma SeenArePieces(p: Payload, arrivals: seq<nat>, last: nat)
    requires Seen(arrivals) <= All(p) && last in All(p)
    ensures ArePieces(p, arrivals) && ArePieces(p, arrivals + [last])
  {
    forall k | 0 <= k < |arrivals|
      ensures arrivals[k] < PieceCount(|p|)
    {
      assert arrivals[k] in Seen(arrivals);
    }
  }

  lemma EmptyNodeOf(p: Payload)
    ensures NodeOf(p, {}) == EMPTY_NODE
  {
    NothingPicked(p, 0);
  }

  // ----- Many datagrams at once

  /** The reassembly key (src/ip.c:55-59). */
  datatype Key = Key(src: Ip, dst: Ip, id: u16)

  datatype Arrival = Arrival(key: Key, frag: Fragment)

  datatype Rebuilt = Rebuilt(key: Key, payload: seq<byte>)

  ghost predicate ValidTable(table: map<Key, Node>) {
    forall k | k in table :: ValidNode(table[k])
  }

  function NodeAt(table: map<Key, Node>, k: Key): Node {
    if k in table then table[k] else EMPTY_NODE
  }

  /** One fragment at the table of nodes, as ip_in handles it with no expiry and room in the
      map (src/ip.c:303-340): a node is made on demand and removed on completion. */
  function TableStep(table: map<Key, Node>, a: Arrival): (r: (map<Key, Node>, Option<seq<byte>>))
    requires ValidTable(table)
    ensures ValidTable(r.0)
  {
    var (n, d) := Receive(NodeAt(table, a.key), a.frag);
    if d.Some? then (table - {a.key}, d) else (table[a.key := n], d)
  }

  function RunTable(table: map<Key, Node>, arrivals: seq<Arrival>): (r: (map<Key, Node>, seq<Rebuilt>))
    requires ValidTable(table)
    ensures ValidTable(r.0)
  {
    if |arrivals| == 0 then (table, [])
    else
      var a := arrivals[|arrivals| - 1];
      var (before, out) := RunTable(table, arrivals[..|arrivals| - 1]);
      var (after, d) := TableStep(before, a);
      (after, if d.Some? then out + [Rebuilt(a.key, d.value)] else out)
  }

  function FragmentsOf(arrivals: seq<Arrival>, k: Key): seq<Fragment> {
    if |arrivals| == 0 then []
    else
      var a := arrivals[|arrivals| - 1];
      FragmentsOf(arrivals[..|arrivals| - 1], k) + (if a.key == k then [a.frag] else [])
  }

  function DeliveredTo(out: seq<Rebuilt>, k: Key): seq<seq<byte>> {
    if |out| == 0 then []
    else
      var d := out[|out| - 1];
      DeliveredTo(out[..|out| - 1], k) + (if d.key == k then [d.payload] else [])
  }

  lemma StepAtKey(table: map<Key, Node>, a: Arrival, k: Key)
    requires ValidTable(table)
    ensures var (after, d) := TableStep(table, a);
            if a.key == k then (NodeAt(after, k), d) == Receive(NodeAt(table, k), a.frag)
            else NodeAt(after, k) == NodeAt(table, k)
  {
  }

  lemma {:induction false} RunNodeSnoc(n: Node, arrivals: seq<Fragment>, f: Fragment)
    requires ValidNode(n)
    ensures var (before, out) := RunNode(n, arrivals);
            var (after, d) := Receive(before, f);
            RunNode(n, arrivals + [f]) == (after, Append(out, d))
  {
    assert (arrivals + [f])[..|arrivals|] == arrivals;
  }

  lemma {:induction false} DeliveredToSnoc(out: seq<Rebuilt>, d: Rebuilt, k: Key)
    ensures DeliveredTo(out + [d], k) == DeliveredTo(out, k) + (if d.key == k then [d.payload] else [])
  {
    assert (out + [d])[..|out|] == out;
  }

  /** In any interleaving each key evolves exactly as if its fragments had arrived alone. */
  lemma {:induction false} KeysAreIndependent(table: map<Key, Node>, arrivals: seq<Arrival>, k: Key)
    requires ValidTable(table)
    ensures NodeAt(RunTable(table, arrivals).0, k) == RunNode(NodeAt(table, k), FragmentsOf(arrivals, k)).0
    ensures DeliveredTo(RunTable(table, arrivals).1, k) == RunNode(NodeAt(table, k), FragmentsOf(arrivals, k)).1
  {
    if |arrivals| > 0 {
      var m := |arrivals| - 1;
      var a := arrivals[m];
      KeysAreIndependent(table, arrivals[..m], k);
      var (before, out) := RunTable(table, arrivals[..m]);
      var alone := FragmentsOf(arrivals[..m], k);
      StepAtKey(before, a, k);
      var (after, d) := TableStep(before, a);
      if d.Some? {
        DeliveredToSnoc(out, Rebuilt(a.key, d.value), k);
      }
      if a.key == k {
        RunNodeSnoc(NodeAt(table, k), alone, a.frag);
        assert FragmentsOf(arrivals, k) == alone + [a.frag];
      } else {
        assert FragmentsOf(arrivals, k) == alone;
      }
    }
  }
}
