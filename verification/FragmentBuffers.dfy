/** The malloc'ed copies of fragment data behind the reassembly table of src/ip.c: who holds them,
    who frees them, and what an expiring node loses. */
module FragmentBuffers {
  import opened Reassembly
  import opened Fragmentation

  /** Blocks are numbered in the order malloc hands them out; freed lists the calls of free. */
  datatype Heap = Heap(next: nat, freed: seq<nat>)

  predicate Allocated(h: Heap, b: nat) { b < h.next && b !in h.freed }

  function Malloc(h: Heap): (Heap, nat) { (h.(next := h.next + 1), h.next) }

  /** free is defined for an allocated block only. */
  function Free(h: Heap, b: nat): Heap
    requires Allocated(h, b)
  {
    h.(freed := h.freed + [b])
  }

  ghost predicate NoRepeats(s: seq<nat>) {
    forall i, j | 0 <= i < j < |s| :: s[i] != s[j]
  }

  /** Only blocks that malloc handed out have been freed, each once. */
  ghost predicate Sound(h: Heap) {
    NoRepeats(h.freed) && forall b | b in h.freed :: b < h.next
  }

  /** A node together with the block behind each of its fragments. */
  datatype Holder = Holder(node: Node, blocks: seq<nat>)

  const NEW_HOLDER: Holder := Holder(EMPTY_NODE, [])

  ghost predicate Holds(h: Heap, x: Holder) {
    && ValidNode(x.node) && |x.blocks| == |x.node.frags|
    && NoRepeats(x.blocks) && forall b | b in x.blocks :: Allocated(h, b)
  }

  /** ip_reassemble_insert_fragment (src/ip.c:156-204) with its memory: nothing is allocated for a full
      node, and the block of a repeated fragment is freed at once. */
  function InsertBlock(h: Heap, x: Holder, f: Fragment): (r: (Heap, Holder, bool))
    requires Sound(h) && Holds(h, x)
    ensures (r.1.node, r.2) == Insert(x.node, f)
    ensures Holds(r.0, r.1)
  {
    InsertKeepsNode(x.node, f);
    var pos := FirstBeyond(x.node.frags, f.offset, 0);
    if |x.node.frags| >= IP_FRAG_MAX_FRAGMENTS then (h, x, false)
    else
      var (grown, block) := Malloc(h);
      if Repeated(x.node.frags[..pos], f) then (Free(grown, block), x, false)
      else
        var y := Holder(Insert(x.node, f).0, x.blocks[..pos] + [block] + x.blocks[pos..]);
        BlockSplicedIn(h, x, pos);
        (grown, y, true)
  }

  lemma SplicedNew(s: seq<nat>, pos: nat, b: nat)
    requires NoRepeats(s) && pos <= |s| && b !in s
    ensures NoRepeats(s[..pos] + [b] + s[pos..])
    ensures forall x :: x in s[..pos] + [b] + s[pos..] <==> x in s || x == b
  {
    var r := s[..pos] + [b] + s[pos..];
    forall i, j | 0 <= i < j < |r|
      ensures r[i] != r[j]
    {
      if i == pos {
        assert r[j] == s[j - 1];
      } else if j == pos {
        assert r[i] == s[i];
      }
    }
    assert s == s[..pos] + s[pos..];
  }

  lemma BlockSplicedIn(h: Heap, x: Holder, pos: nat)
    requires Sound(h) && Holds(h, x) && pos <= |x.blocks|
    ensures var blocks := x.blocks[..pos] + [h.next] + x.blocks[pos..];
            && NoRepeats(blocks)
            && (forall b :: b in blocks <==> b in x.blocks || b == h.next)
            && forall b | b in blocks :: Allocated(Malloc(h).0, b)
  {
    assert h.next !in x.blocks;
    SplicedNew(x.blocks, pos, h.next);
  }

  lemma FirstFreed(h: Heap, blocks: seq<nat>)
    requires blocks != [] && NoRepeats(blocks) && forall b | b in blocks :: Allocated(h, b)
    ensures Allocated(h, blocks[0]) && forall b | b in blocks[1..] :: Allocated(Free(h, blocks[0]), b)
  {
    assert blocks[0] in blocks;
    forall b | b in blocks[1..]
      ensures b != blocks[0] && Allocated(h, b)
    {
      var i :| 0 <= i < |blocks| - 1 && blocks[1..][i] == b;
      assert blocks[i + 1] == b && b in blocks;
    }
  }

  /** The loop of ip_reassemble_free_node (src/ip.c:211-219). */
  function FreeAll(h: Heap, blocks: seq<nat>): (r: Heap)
    requires NoRepeats(blocks) && forall b | b in blocks :: Allocated(h, b)
    ensures r == Heap(h.next, h.freed + blocks)
    decreases blocks
  {
    if |blocks| == 0 then h
    else
      FirstFreed(h, blocks);
      FreeAll(Free(h, blocks[0]), blocks[1..])
  }

  // ----- The table

  /** lost: blocks of nodes that expired.  Their slots are overwritten in time, and nobody frees them. */
  datatype Memory = Memory(heap: Heap, table: map<Key, Holder>, lost: set<nat>)

  const NO_MEMORY: Memory := Memory(Heap(0, []), map[], {})

  function HolderAt(table: map<Key, Holder>, k: Key): Holder {
    if k in table then table[k] else NEW_HOLDER
  }

  ghost predicate HeldBy(table: map<Key, Holder>, k: Key, b: nat) {
    k in table && b in table[k].blocks
  }

  ghost predicate Held(table: map<Key, Holder>, b: nat) {
    exists k :: HeldBy(table, k, b)
  }

  /** The sum of fragment_count over all nodes. */
  ghost function Total(table: map<Key, Holder>): nat {
    if table == map[] then 0
    else
      var k :| k in table;
      |table[k].node.frags| + Total(table - {k})
  }

  ghost predicate HoldersHold(h: Heap, table: map<Key, Holder>) {
    forall k | k in table :: Holds(h, table[k]) && table[k].blocks != []
  }

  ghost predicate OneHolderEach(table: map<Key, Holder>) {
    forall k, l, b | HeldBy(table, k, b) && HeldBy(table, l, b) :: k == l
  }

  ghost predicate LostForGood(m: Memory) {
    forall b | b in m.lost :: Allocated(m.heap, b) && !Held(m.table, b)
  }

  ghost predicate NoneForgotten(m: Memory) {
    forall b: nat | b < m.heap.next :: b in m.heap.freed || b in m.lost || Held(m.table, b)
  }

  /** Every block handed out has exactly one fate: freed once, held by one fragment of one node, or lost. */
  ghost predicate Accounted(m: Memory) {
    && Sound(m.heap) && HoldersHold(m.heap, m.table) && OneHolderEach(m.table) && LostForGood(m) && NoneForgotten(m)
    && m.heap.next == |m.heap.freed| + Total(m.table) + |m.lost|
  }

  /** A fragment at the table (src/ip.c:303-340). */
  function Arrive(m: Memory, a: Arrival): Memory
    requires Accounted(m)
  {
    var (h, x, ok) := InsertBlock(m.heap, HolderAt(m.table, a.key), a.frag);
    if ok && Complete(x.node) then Memory(FreeAll(h, x.blocks), m.table - {a.key}, m.lost)
    else Memory(h, m.table[a.key := x], m.lost)
  }

  function Elements(s: seq<nat>): set<nat> { set b | b in s }

  /** An entry passes its 15 seconds. */
  function Expire(m: Memory, k: Key): Memory {
    if k !in m.table then m
    else Memory(m.heap, m.table - {k}, m.lost + Elements(m.table[k].blocks))
  }

  lemma {:induction false} TotalAt(table: map<Key, Holder>, k: Key)
    requires k in table
    ensures Total(table) == |table[k].node.frags| + Total(table - {k})
    decreases |table|
  {
    var j :| j in table && Total(table) == |table[j].node.frags| + Total(table - {j});
    if j != k {
      TotalAt(table - {j}, k);
      TotalAt(table - {k}, j);
      assert table - {j} - {k} == table - {k} - {j};
    }
  }

  lemma TotalWith(table: map<Key, Holder>, k: Key, x: Holder)
    ensures Total(table[k := x]) == |x.node.frags| + Total(table - {k})
    ensures Total(table) == |HolderAt(table, k).node.frags| + Total(table - {k})
  {
    TotalAt(table[k := x], k);
    assert table[k := x] - {k} == table - {k};
    if k in table {
      TotalAt(table, k);
    } else {
      assert table - {k} == table;
    }
  }

  // ----- What each step keeps

  /** The heap h, reached from m's, suits a table with x at key k: see Swapped. */
  ghost predicate Suits(m: Memory, h: Heap, k: Key, x: Holder) {
    var was := HolderAt(m.table, k).blocks;
    && Sound(h) && Holds(h, x)
    && (forall b | b in x.blocks :: b in was || b >= m.heap.next)
    && (forall b | b in h.freed :: b in m.heap.freed || b in was || b >= m.heap.next)
    && (forall b | b in m.heap.freed :: b in h.freed)
    && (forall b: nat | b < h.next && (b in was || b >= m.heap.next) :: b in h.freed || b in x.blocks)
    && m.heap.next <= h.next
    && h.next - |h.freed| - |x.blocks| == m.heap.next - |m.heap.freed| - |was|
  }

  ghost function Swap(m: Memory, h: Heap, k: Key, x: Holder): Memory {
    Memory(h, if x.blocks == [] then m.table - {k} else m.table[k := x], m.lost)
  }

  lemma SwapHeld(m: Memory, h: Heap, k: Key, x: Holder, b: nat)
    requires OneHolderEach(m.table)
    ensures Held(Swap(m, h, k, x).table, b) <==>
              b in x.blocks || (Held(m.table, b) && b !in HolderAt(m.table, k).blocks)
  {
    var t := Swap(m, h, k, x).table;
    if b in x.blocks {
      assert HeldBy(t, k, b);
    }
    if Held(m.table, b) && b !in HolderAt(m.table, k).blocks {
      var j :| HeldBy(m.table, j, b);
      assert HeldBy(t, j, b);
    }
    if Held(t, b) {
      var j :| HeldBy(t, j, b);
      if j != k {
        assert HeldBy(m.table, j, b);
        assert HeldBy(m.table, k, b) ==> j == k;
      }
    }
  }

  lemma SwapHolders(m: Memory, h: Heap, k: Key, x: Holder)
    requires Accounted(m) && Suits(m, h, k, x)
    ensures HoldersHold(h, Swap(m, h, k, x).table) && OneHolderEach(Swap(m, h, k, x).table)
  {
    var t := Swap(m, h, k, x).table;
    forall j, b | j != k && HeldBy(t, j, b)
      ensures Allocated(h, b) && b !in x.blocks
    {
      assert HeldBy(m.table, j, b) && !HeldBy(m.table, k, b);
      assert Holds(m.heap, m.table[j]) && Allocated(m.heap, b);
    }
    forall j | j in t
      ensures Holds(h, t[j]) && t[j].blocks != []
    {
      if j != k {
        assert Holds(m.heap, m.table[j]);
        assert forall b | b in t[j].blocks :: HeldBy(t, j, b);
      }
    }
    forall i, j, b | HeldBy(t, i, b) && HeldBy(t, j, b)
      ensures i == j
    {
      if i != k && j != k {
        assert HeldBy(m.table, i, b) && HeldBy(m.table, j, b);
      }
    }
  }

  /** Putting x at k, or taking the entry away if x holds nothing, keeps the account. */
  lemma Swapped(m: Memory, h: Heap, k: Key, x: Holder)
    requires Accounted(m) && Suits(m, h, k, x)
    ensures Accounted(Swap(m, h, k, x))
  {
    var n := Swap(m, h, k, x);
    SwapHolders(m, h, k, x);
    TotalWith(m.table, k, x);
    assert k in m.table ==> Holds(m.heap, m.table[k]);
    forall b: nat
      ensures Held(n.table, b) <==> b in x.blocks || (Held(m.table, b) && b !in HolderAt(m.table, k).blocks)
    {
      SwapHeld(m, h, k, x, b);
    }
    forall b | b in HolderAt(m.table, k).blocks
      ensures Held(m.table, b)
    {
      assert HeldBy(m.table, k, b);
    }
  }

  lemma {:induction false} Freed(h: Heap, blocks: seq<nat>)
    requires Sound(h) && NoRepeats(blocks) && forall b | b in blocks :: Allocated(h, b)
    ensures Sound(FreeAll(h, blocks)) && Holds(FreeAll(h, blocks), NEW_HOLDER)
  {
    var freed := h.freed + blocks;
    forall i, j | 0 <= i < j < |freed|
      ensures freed[i] != freed[j]
    {
      if i < |h.freed| <= j {
        assert freed[j] == blocks[j - |h.freed|] && freed[j] in blocks;
      }
    }
  }

  lemma HolderHeld(m: Memory, k: Key)
    requires Accounted(m)
    ensures Holds(m.heap, HolderAt(m.table, k))
  {
  }

  lemma ArriveKeeps(m: Memory, a: Arrival)
    requires Accounted(m)
    ensures Accounted(Arrive(m, a))
  {
    var was := HolderAt(m.table, a.key);
    var (h, x, ok) := InsertBlock(m.heap, was, a.frag);
    InsertSuits(m, a);
    if ok && Complete(x.node) {
      Freed(h, x.blocks);
      Swapped(m, FreeAll(h, x.blocks), a.key, NEW_HOLDER);
    } else {
      Swapped(m, h, a.key, x);
    }
  }

  lemma InsertSuits(m: Memory, a: Arrival)
    requires Accounted(m)
    ensures var (h, x, ok) := InsertBlock(m.heap, HolderAt(m.table, a.key), a.frag);
            Suits(m, h, a.key, x) && x.blocks != []
  {
    var was := HolderAt(m.table, a.key);
    var pos := FirstBeyond(was.node.frags, a.frag.offset, 0);
    BlockSplicedIn(m.heap, was, pos);
    var grown := Malloc(m.heap).0;
    assert [m.heap.next][0] == m.heap.next;
    Freed(grown, [m.heap.next]);
  }

  lemma ExpireKeeps(m: Memory, k: Key)
    requires Accounted(m)
    ensures Accounted(Expire(m, k))
  {
    if k in m.table {
      var x := m.table[k];
      TotalAt(m.table, k);
      DistinctCount(x.blocks);
      ExpireLost(m, k);
      assert |m.lost + Elements(x.blocks)| == |m.lost| + |x.blocks|;
      forall b: nat
        ensures Held(m.table - {k}, b) <==> Held(m.table, b) && b !in x.blocks
      {
        SwapHeld(m, m.heap, k, NEW_HOLDER, b);
      }
      ExpireHolders(m, k);
    }
  }

  lemma ExpireHolders(m: Memory, k: Key)
    requires Accounted(m) && k in m.table
    ensures HoldersHold(m.heap, m.table - {k}) && OneHolderEach(m.table - {k})
  {
    forall i, j, b | HeldBy(m.table - {k}, i, b) && HeldBy(m.table - {k}, j, b)
      ensures i == j
    {
      assert HeldBy(m.table, i, b) && HeldBy(m.table, j, b);
    }
  }

  lemma ExpireLost(m: Memory, k: Key)
    requires Accounted(m) && k in m.table
    ensures m.lost !! Elements(m.table[k].blocks)
    ensures forall b | b in m.table[k].blocks :: Held(m.table, b) && Allocated(m.heap, b)
  {
    forall b | b in m.table[k].blocks
      ensures Held(m.table, b) && Allocated(m.heap, b)
    {
      assert HeldBy(m.table, k, b) && Holds(m.heap, m.table[k]);
    }
  }

  lemma {:induction false} DistinctCount(s: seq<nat>)
    requires NoRepeats(s)
    ensures |Elements(s)| == |s|
  {
    if |s| > 0 {
      DistinctCount(s[1..]);
      FirstElement(s);
    }
  }

  lemma FirstElement(s: seq<nat>)
    requires |s| > 0 && NoRepeats(s)
    ensures Elements(s) == Elements(s[1..]) + {s[0]} && s[0] !in Elements(s[1..])
  {
    assert s == [s[0]] + s[1..];
  }

  // ----- Runs

  datatype Event = Arrives(a: Arrival) | Expires(key: Key)

  function After(m: Memory, e: Event): (r: Memory)
    requires Accounted(m)
    ensures Accounted(r)
  {
    match e
    case Arrives(a) => ArriveKeeps(m, a); Arrive(m, a)
    case Expires(k) => ExpireKeeps(m, k); Expire(m, k)
  }

  function Run(events: seq<Event>): (m: Memory)
    ensures Accounted(m)
  {
    if |events| == 0 then NO_MEMORY else After(Run(events[..|events| - 1]), events[|events| - 1])
  }

  /** Forgetting the blocks, an arrival is exactly the step of the table of nodes. */
  ghost function Nodes(table: map<Key, Holder>): map<Key, Node> {
    map k | k in table :: table[k].node
  }

  lemma ArriveIsTableStep(m: Memory, a: Arrival)
    requires Accounted(m)
    ensures ValidTable(Nodes(m.table))
    ensures Nodes(Arrive(m, a).table) == TableStep(Nodes(m.table), a).0
  {
    assert forall k | k in m.table :: Holds(m.heap, m.table[k]);
    HolderHeld(m, a.key);
    var (h, x, ok) := InsertBlock(m.heap, HolderAt(m.table, a.key), a.frag);
    assert NodeAt(Nodes(m.table), a.key) == HolderAt(m.table, a.key).node;
    assert Nodes(m.table[a.key := x]) == Nodes(m.table)[a.key := x.node];
    assert Nodes(m.table - {a.key}) == Nodes(m.table) - {a.key};
    assert Receive(HolderAt(m.table, a.key).node, a.frag).1.Some? <==> ok && Complete(x.node);
  }

  /** In every run each block malloc handed out has been freed exactly once, or backs one fragment of one
      node, or was lost with an expired node; so the blocks outstanding number the sum of
      fragment_count over the nodes, plus the lost ones. */
  lemma {:induction false} BlocksAccountedFor(events: seq<Event>)
    ensures var m := Run(events);
            && NoRepeats(m.heap.freed)
            && m.heap.next - |m.heap.freed| == Total(m.table) + |m.lost|
            && (forall b: nat | b < m.heap.next :: OneFate(b in m.heap.freed, Held(m.table, b), b in m.lost))
            && (forall k, l, b | HeldBy(m.table, k, b) && HeldBy(m.table, l, b) :: k == l)
  {
    var m := Run(events);
    forall b: nat | b < m.heap.next
      ensures OneFate(b in m.heap.freed, Held(m.table, b), b in m.lost)
    {
      if Held(m.table, b) {
        var k :| HeldBy(m.table, k, b);
        assert Holds(m.heap, m.table[k]);
      }
    }
  }

  predicate OneFate(a: bool, b: bool, c: bool) {
    (a && !b && !c) || (!a && b && !c) || (!a && !b && c)
  }

  /** No entry that was there has passed its time. */
  predicate NothingExpired(events: seq<Event>) {
    |events| > 0 ==>
      var before, e := events[..|events| - 1], events[|events| - 1];
      NothingExpired(before) && !(e.Expires? && e.key in Run(before).table)
  }

  /** A block that is allocated and that no node holds: nobody can free it any more. */
  ghost predicate Unreachable(m: Memory, b: nat) {
    Allocated(m.heap, b) && !Held(m.table, b)
  }

  /** Memory leaks iff an entry expires: no other way does a block get out of reach unfreed, and each entry that
      expires takes at least one with it. */
  lemma {:induction false} LeaksIffExpired(events: seq<Event>)
    ensures (exists b: nat :: Unreachable(Run(events), b)) <==> !NothingExpired(events)
  {
    var m := Run(events);
    LostIffExpired(events);
    if m.lost != {} {
      var b :| b in m.lost;
      assert Unreachable(m, b);
    }
    if b: nat :| Unreachable(m, b) {
      assert b in m.lost;
    }
  }

  /** Blocks are lost iff an entry expires: each holds at least one. */
  lemma {:induction false} LostIffExpired(events: seq<Event>)
    ensures Run(events).lost == {} <==> NothingExpired(events)
  {
    if |events| > 0 {
      var before := events[..|events| - 1];
      LostIffExpired(before);
      LostByStep(Run(before), events[|events| - 1]);
    }
  }

  lemma LostByStep(m: Memory, e: Event)
    requires Accounted(m)
    ensures After(m, e).lost == {} <==> m.lost == {} && !(e.Expires? && e.key in m.table)
  {
    if e.Expires? && e.key in m.table {
      assert m.table[e.key].blocks[0] in After(m, e).lost;
    }
  }
}
