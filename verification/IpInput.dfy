/** ip_in of src/ip.c: header checks in the buffer, and the keyed table of reassembly nodes. */
module IpInput {
  import opened Bytes
  import opened Buffers
  import opened TimedMaps
  import opened Checksum
  import opened IpPackets
  import opened Reassembly
  import opened ReassemblyNodes
  import opened Fragmentation

  const IP_FRAG_TIMEOUT_SEC: nat := 15

  type NodeSlot = Slot<Key, ReassemblyNode>
  type ValueSlot = Slot<Key, Node>

  ghost function Footprint(s: seq<NodeSlot>): set<object> {
    (set i | 0 <= i < |s| && s[i].Entry? :: s[i].value as object)
    + (set i | 0 <= i < |s| && s[i].Entry? :: s[i].value.fragments as object)
  }

  /** Slots never share a node or an array. */
  ghost predicate Separate(s: seq<NodeSlot>) {
    forall i, j | 0 <= i < j < |s| :: SlotsSeparate(s, i, j)
  }

  ghost predicate SlotsSeparate(s: seq<NodeSlot>, i: nat, j: nat)
    requires i < |s| && j < |s|
  {
    s[i].Entry? && s[j].Entry? ==> s[i].value != s[j].value && s[i].value.fragments != s[j].value.fragments
  }

  /** mirror is s with every node replaced by its value. */
  ghost predicate Mirrors(s: seq<NodeSlot>, mirror: seq<ValueSlot>)
    reads Footprint(s)
  {
    |mirror| == |s| && forall i | 0 <= i < |s| :: MirrorsSlot(s, mirror, i)
  }

  ghost predicate MirrorsSlot(s: seq<NodeSlot>, mirror: seq<ValueSlot>, i: nat)
    requires i < |s| == |mirror|
    reads Footprint(s)
  {
    match s[i]
    case Blank => mirror[i].Blank?
    case Entry(key, node, stamp) => node.Valid() && mirror[i] == Entry(key, node.Value(), stamp)
  }

  /** Nodes nobody touched are still mirrored. */
  twostate lemma StillMirrors(v: (seq<NodeSlot>, seq<ValueSlot>))
    requires old(Mirrors(v.0, v.1))
    requires unchanged(Footprint(v.0))
    ensures Mirrors(v.0, v.1)
  {
    var (s, m) := v;
    forall i | 0 <= i < |s|
      ensures MirrorsSlot(s, m, i)
    {
      assert old(MirrorsSlot(s, m, i));
      if s[i].Entry? {
        assert s[i].value in Footprint(s) && s[i].value.fragments in Footprint(s);
      }
    }
  }

  /** The slots of s without their values. */
  ghost predicate SameLife(s: seq<NodeSlot>, mirror: seq<ValueSlot>) {
    |mirror| == |s| && forall i | 0 <= i < |s| ::
      if s[i].Blank? then mirror[i].Blank?
      else mirror[i].Entry? && mirror[i].key == s[i].key && mirror[i].stamp == s[i].stamp
  }

  lemma SameLifeView(s: seq<NodeSlot>, mirror: seq<ValueSlot>, t: nat)
    requires SameLife(s, mirror)
    ensures UniqueKeys(s, IP_FRAG_TIMEOUT_SEC, t) <==> UniqueKeys(mirror, IP_FRAG_TIMEOUT_SEC, t)
    ensures forall k :: k in View(s, IP_FRAG_TIMEOUT_SEC, t) <==> k in View(mirror, IP_FRAG_TIMEOUT_SEC, t)
  {
    forall i | 0 <= i < |s|
      ensures LiveSlot(s[i], IP_FRAG_TIMEOUT_SEC, t) <==> LiveSlot(mirror[i], IP_FRAG_TIMEOUT_SEC, t)
    {
    }
    forall k
      ensures k in View(s, IP_FRAG_TIMEOUT_SEC, t) <==> k in View(mirror, IP_FRAG_TIMEOUT_SEC, t)
    {
      if k in LiveKeys(s, IP_FRAG_TIMEOUT_SEC, t) {
        assert HoldsKey(mirror, IP_FRAG_TIMEOUT_SEC, t, k, IndexOf(s, IP_FRAG_TIMEOUT_SEC, t, k));
      }
      if k in LiveKeys(mirror, IP_FRAG_TIMEOUT_SEC, t) {
        assert HoldsKey(s, IP_FRAG_TIMEOUT_SEC, t, k, IndexOf(mirror, IP_FRAG_TIMEOUT_SEC, t, k));
      }
    }
  }

  lemma FoundInMirror(s: seq<NodeSlot>, mirror: seq<ValueSlot>, t: nat, key: Key, pos: nat)
    requires SameLife(s, mirror) && UniqueKeys(mirror, IP_FRAG_TIMEOUT_SEC, t)
    requires HoldsKey(s, IP_FRAG_TIMEOUT_SEC, t, key, pos)
    ensures HoldsKey(mirror, IP_FRAG_TIMEOUT_SEC, t, key, pos) && key in View(mirror, IP_FRAG_TIMEOUT_SEC, t)
  {
    ViewOfSlot(mirror, IP_FRAG_TIMEOUT_SEC, t, pos);
  }

  /** Nothing live at t, or written from then on, expires before the horizon. */
  ghost predicate SteadyFrom(s: seq<ValueSlot>, t: nat, horizon: nat) {
    && horizon <= t + IP_FRAG_TIMEOUT_SEC
    && forall i | 0 <= i < |s| && LiveSlot(s[i], IP_FRAG_TIMEOUT_SEC, t) :: LiveSlot(s[i], IP_FRAG_TIMEOUT_SEC, horizon)
  }

  lemma SteadyView(s: seq<ValueSlot>, t: nat, u: nat, horizon: nat)
    requires UniqueKeys(s, IP_FRAG_TIMEOUT_SEC, t) && SteadyFrom(s, t, horizon) && t <= u <= horizon
    ensures SteadyFrom(s, u, horizon)
    ensures View(s, IP_FRAG_TIMEOUT_SEC, u) == View(s, IP_FRAG_TIMEOUT_SEC, t)
  {
    ViewShrinks(s, IP_FRAG_TIMEOUT_SEC, t, u);
    forall i | 0 <= i < |s| && LiveSlot(s[i], IP_FRAG_TIMEOUT_SEC, u)
      ensures LiveSlot(s[i], IP_FRAG_TIMEOUT_SEC, t)
    {
    }
    forall k | k in LiveKeys(s, IP_FRAG_TIMEOUT_SEC, t)
      ensures k in LiveKeys(s, IP_FRAG_TIMEOUT_SEC, u)
    {
      assert HoldsKey(s, IP_FRAG_TIMEOUT_SEC, u, k, IndexOf(s, IP_FRAG_TIMEOUT_SEC, t, k));
    }
  }

  /** For other keys than key, a holds nothing that b does not hold too. */
  ghost predicate RestWithin(a: map<Key, Node>, b: map<Key, Node>, key: Key) {
    forall k | k in a && k != key :: k in b && a[k] == b[k]
  }

  lemma MirrorsWith(s: seq<NodeSlot>, mirror: seq<ValueSlot>, pos: nat, key: Key, node: ReassemblyNode, stamp: nat)
    requires Separate(s) && Mirrors(s, mirror) && pos < |s| && node.Valid()
    requires forall i | 0 <= i < |s| && s[i].Entry? :: s[i].value != node && s[i].value.fragments != node.fragments
    ensures Separate(s[pos := Entry(key, node, stamp)])
    ensures Mirrors(s[pos := Entry(key, node, stamp)], mirror[pos := Entry(key, node.Value(), stamp)])
  {
    var r := s[pos := Entry(key, node, stamp)];
    var m := mirror[pos := Entry(key, node.Value(), stamp)];
    forall i | 0 <= i < |r|
      ensures MirrorsSlot(r, m, i)
    {
      assert MirrorsSlot(s, mirror, i);
    }
    forall i, j | 0 <= i < j < |r|
      ensures SlotsSeparate(r, i, j)
    {
      assert SlotsSeparate(s, i, j);
    }
  }

  lemma MirrorsCleared(s: seq<NodeSlot>, mirror: seq<ValueSlot>, pos: nat)
    requires Separate(s) && Mirrors(s, mirror) && pos < |s| && s[pos].Entry? && mirror[pos].Entry?
    ensures Separate(s[pos := s[pos].(stamp := 0)])
    ensures Mirrors(s[pos := s[pos].(stamp := 0)], mirror[pos := mirror[pos].(stamp := 0)])
  {
    var r, m := s[pos := s[pos].(stamp := 0)], mirror[pos := mirror[pos].(stamp := 0)];
    forall i | 0 <= i < |r|
      ensures MirrorsSlot(r, m, i)
    {
      assert MirrorsSlot(s, mirror, i);
    }
    forall i, j | 0 <= i < j < |r|
      ensures SlotsSeparate(r, i, j)
    {
      assert SlotsSeparate(s, i, j);
    }
  }

  /** What writing an empty node for an absent key does to the table, seen on the mirror. */
  lemma MirrorWritten(mirror: seq<ValueSlot>, before: nat, now: nat, horizon: nat, pos: nat, key: Key)
    requires UniqueKeys(mirror, IP_FRAG_TIMEOUT_SEC, before) && 0 < before <= now <= horizon && pos < |mirror|
    requires key !in View(mirror, IP_FRAG_TIMEOUT_SEC, before)
    requires !LiveSlot(mirror[pos], IP_FRAG_TIMEOUT_SEC, now) || mirror[pos].key == key
    ensures var written := mirror[pos := Entry(key, EMPTY_NODE, now)];
            var (was, after) := (View(mirror, IP_FRAG_TIMEOUT_SEC, before), View(written, IP_FRAG_TIMEOUT_SEC, now));
            && RestWithin(after, was, key)
            && (SteadyFrom(mirror, before, horizon) ==>
                  SteadyFrom(written, now, horizon) && after == was[key := EMPTY_NODE] && |after| == |was| + 1)
  {
    ViewShrinks(mirror, IP_FRAG_TIMEOUT_SEC, before, now);
    ViewAfterWrite(mirror, IP_FRAG_TIMEOUT_SEC, now, pos, key, EMPTY_NODE, now);
    if SteadyFrom(mirror, before, horizon) {
      SteadyView(mirror, before, now, horizon);
    }
  }

  /** What the mere passing of time does to the table. */
  lemma MirrorAged(mirror: seq<ValueSlot>, before: nat, now: nat, horizon: nat, key: Key)
    requires UniqueKeys(mirror, IP_FRAG_TIMEOUT_SEC, before) && before <= now <= horizon
    ensures forall k | k in View(mirror, IP_FRAG_TIMEOUT_SEC, now) :: k in View(mirror, IP_FRAG_TIMEOUT_SEC, before)
    ensures RestWithin(View(mirror, IP_FRAG_TIMEOUT_SEC, now), View(mirror, IP_FRAG_TIMEOUT_SEC, before), key)
    ensures SteadyFrom(mirror, before, horizon) ==>
              SteadyFrom(mirror, now, horizon) &&
              View(mirror, IP_FRAG_TIMEOUT_SEC, now) == View(mirror, IP_FRAG_TIMEOUT_SEC, before)
  {
    ViewShrinks(mirror, IP_FRAG_TIMEOUT_SEC, before, now);
    if SteadyFrom(mirror, before, horizon) {
      SteadyView(mirror, before, now, horizon);
    }
  }

  /** What changing the value in one slot does to the table. */
  lemma MirrorRevalued(mirror: seq<ValueSlot>, t: nat, horizon: nat, pos: nat, v: Node)
    requires UniqueKeys(mirror, IP_FRAG_TIMEOUT_SEC, t) && pos < |mirror| && mirror[pos].Entry?
    ensures var (key, revalued) := (mirror[pos].key, mirror[pos := mirror[pos].(value := v)]);
            var (was, now) := (View(mirror, IP_FRAG_TIMEOUT_SEC, t), View(revalued, IP_FRAG_TIMEOUT_SEC, t));
            && (SteadyFrom(mirror, t, horizon) ==> SteadyFrom(revalued, t, horizon))
            && now == (if LiveSlot(mirror[pos], IP_FRAG_TIMEOUT_SEC, t) then was[key := v] else was)
            && now - {key} == was - {key}
            && RestWithin(now, was, key)
  {
    var revalued := mirror[pos := mirror[pos].(value := v)];
    if LiveSlot(mirror[pos], IP_FRAG_TIMEOUT_SEC, t) {
      ViewAfterWrite(mirror, IP_FRAG_TIMEOUT_SEC, t, pos, mirror[pos].key, v, mirror[pos].stamp);
    } else {
      ViewAfterDeadWrite(mirror, IP_FRAG_TIMEOUT_SEC, t, pos, revalued[pos]);
    }
  }

  lemma RevaluedSize(mirror: seq<ValueSlot>, t: nat, horizon: nat, pos: nat, v: Node)
    requires UniqueKeys(mirror, IP_FRAG_TIMEOUT_SEC, t) && pos < |mirror| && mirror[pos].Entry?
    ensures |View(mirror[pos := mirror[pos].(value := v)], IP_FRAG_TIMEOUT_SEC, t)| ==
            |View(mirror, IP_FRAG_TIMEOUT_SEC, t)|
  {
    MirrorRevalued(mirror, t, horizon, pos, v);
    if LiveSlot(mirror[pos], IP_FRAG_TIMEOUT_SEC, t) {
      ViewOfSlot(mirror, IP_FRAG_TIMEOUT_SEC, t, pos);
    }
  }

  /** What clearing a stamp, some time later, does to the table. */
  lemma MirrorCleared(mirror: seq<ValueSlot>, before: nat, now: nat, horizon: nat, pos: nat)
    requires UniqueKeys(mirror, IP_FRAG_TIMEOUT_SEC, before) && before <= now <= horizon
    requires pos < |mirror| && LiveSlot(mirror[pos], IP_FRAG_TIMEOUT_SEC, before)
    ensures var (key, cleared) := (mirror[pos].key, mirror[pos := mirror[pos].(stamp := 0)]);
            var (was, after) := (View(mirror, IP_FRAG_TIMEOUT_SEC, before), View(cleared, IP_FRAG_TIMEOUT_SEC, now));
            && key !in after && RestWithin(after, was, key)
            && (SteadyFrom(mirror, before, horizon) ==> SteadyFrom(cleared, now, horizon) && after == was - {key})
  {
    var cleared := mirror[pos].(stamp := 0);
    ViewShrinks(mirror, IP_FRAG_TIMEOUT_SEC, before, now);
    if !LiveSlot(mirror[pos], IP_FRAG_TIMEOUT_SEC, now) {
      ViewOfSlot(mirror, IP_FRAG_TIMEOUT_SEC, before, pos);
    }
    ViewAfterClear(mirror, IP_FRAG_TIMEOUT_SEC, now, pos, cleared);
    if SteadyFrom(mirror, before, horizon) {
      SteadyView(mirror, before, now, horizon);
    }
  }

  lemma ClearedSize(mirror: seq<ValueSlot>, before: nat, now: nat, horizon: nat, pos: nat)
    requires UniqueKeys(mirror, IP_FRAG_TIMEOUT_SEC, before) && before <= now <= horizon
    requires pos < |mirror| && LiveSlot(mirror[pos], IP_FRAG_TIMEOUT_SEC, before) && SteadyFrom(mirror, before, horizon)
    ensures |View(mirror[pos := mirror[pos].(stamp := 0)], IP_FRAG_TIMEOUT_SEC, now)| ==
            |View(mirror, IP_FRAG_TIMEOUT_SEC, before)| - 1
  {
    MirrorCleared(mirror, before, now, horizon, pos);
    ViewOfSlot(mirror, IP_FRAG_TIMEOUT_SEC, before, pos);
    OneFewer(View(mirror, IP_FRAG_TIMEOUT_SEC, before), mirror[pos].key);
  }

  lemma OneFewer(m: map<Key, Node>, key: Key)
    requires key in m
    ensures |m - {key}| == |m| - 1
  {
    assert (m - {key})[key := m[key]] == m;
  }

  lemma FoundValue(mirror: seq<ValueSlot>, t: nat, key: Key, pos: nat)
    requires UniqueKeys(mirror, IP_FRAG_TIMEOUT_SEC, t) && HoldsKey(mirror, IP_FRAG_TIMEOUT_SEC, t, key, pos)
    ensures var table := View(mirror, IP_FRAG_TIMEOUT_SEC, t);
            key in table && table[key] == mirror[pos].value && table[key := NodeAt(table, key)] == table
  {
    ViewOfSlot(mirror, IP_FRAG_TIMEOUT_SEC, t, pos);
  }

  datatype NetCall = NoCall | Call(protocol: byte, src: Ip, payload: seq<byte>)

  class IpReceiver {
    const clock: Clock
    const nodes: TimedMap<Key, ReassemblyNode>
    const ifIp: Ip

    /** The slots with their nodes' values, kept in step by every method. */
    ghost var mirror: seq<ValueSlot>

    ghost predicate Valid()
      reads this, nodes, nodes.slots, clock, Footprint(nodes.slots[..])
    {
      && nodes.clock == clock && nodes.timeout == IP_FRAG_TIMEOUT_SEC
      && nodes.Valid() && Separate(nodes.slots[..]) && Mirrors(nodes.slots[..], mirror)
    }

    /** The datagrams under reassembly. */
    ghost function Table(): map<Key, Node>
      reads this, clock
    {
      View(mirror, IP_FRAG_TIMEOUT_SEC, clock.now)
    }

    /** How far the counter of the map is ahead of the table. */
    ghost function Slack(): int
      reads this, nodes, clock
    {
      nodes.size - |Table()|
    }

    ghost predicate Steady()
      reads this, clock
    {
      SteadyFrom(mirror, clock.now, clock.horizon)
    }

    constructor (source: Clock, ip: Ip, capacity: nat)
      requires source.Valid()
      ensures Valid() && clock == source && ifIp == ip && Table() == map[]
      ensures fresh(nodes) && fresh(nodes.slots) && nodes.slots.Length == capacity && nodes.size == 0
      ensures Footprint(nodes.slots[..]) == {}
    {
      clock, ifIp := source, ip;
      nodes := new TimedMap<Key, ReassemblyNode>(capacity, IP_FRAG_TIMEOUT_SEC, source);
      mirror := seq(capacity, _ => Blank);
    }

    /** Every node in the slots was there before or is new. */
    twostate predicate NoForeignNodes()
      reads nodes.slots
    {
      forall i | 0 <= i < nodes.slots.Length && nodes.slots[i].Entry? ::
        || (old(nodes.slots[i]).Entry? && nodes.slots[i].value == old(nodes.slots[i]).value)
        || (fresh(nodes.slots[i].value) && fresh(nodes.slots[i].value.fragments))
    }

    lemma MirrorLife()
      requires Valid()
      ensures SameLife(nodes.slots[..], mirror)
      ensures UniqueKeys(mirror, IP_FRAG_TIMEOUT_SEC, clock.now)
      ensures forall k :: k in nodes.Live() <==> k in Table()
    {
      var s := nodes.slots[..];
      forall i | 0 <= i < |s|
        ensures if s[i].Blank? then mirror[i].Blank?
                else mirror[i].Entry? && mirror[i].key == s[i].key && mirror[i].stamp == s[i].stamp
      {
        assert MirrorsSlot(s, mirror, i);
      }
      SameLifeView(s, mirror, clock.now);
    }

    lemma NotANode(s: seq<NodeSlot>)
      ensures this !in Footprint(s) && clock !in Footprint(s) && nodes !in Footprint(s) && nodes.slots !in Footprint(s)
    {
    }

    /** The insertion of ip_reassemble_get_node: an empty node for an absent key, if the map takes it. */
    method MakeNode(key: Key) returns (made: bool, ghost pos: nat)
      requires Valid() && key !in Table()
      modifies this`mirror, clock, nodes`size, nodes.slots
      ensures Valid() && old(clock.now) <= clock.now && NoForeignNodes()
      ensures made == (old(nodes.size) < nodes.slots.Length)
      ensures made ==> HoldsKey(mirror, IP_FRAG_TIMEOUT_SEC, clock.now, key, pos) && mirror[pos].value == EMPTY_NODE
      ensures !made ==> mirror == old(mirror) && key !in Table()
      ensures RestWithin(Table(), old(Table()), key)
      ensures old(Steady()) ==> Steady() && Table() == if made then old(Table())[key := EMPTY_NODE] else old(Table())
      ensures old(Steady()) ==> Slack() == old(Slack())
    {
      ghost var slots := nodes.slots[..];
      var node := new ReassemblyNode();
      assert nodes.slots[..] == slots;
      StillMirrors((slots, mirror));
      made, pos := Install(key, node);
    }

    /** The mirror follows the writing of a new node into slot pos. */
    ghost method Adopt(s: seq<NodeSlot>, pos: nat, key: Key, node: ReassemblyNode)
      requires Separate(s) && Mirrors(s, mirror) && node.Valid() && pos < |s|
      requires forall i | 0 <= i < |s| && s[i].Entry? :: s[i].value != node && s[i].value.fragments != node.fragments
      requires nodes.slots[..] == s[pos := Entry(key, node, clock.now)]
      modifies this`mirror
      ensures mirror == old(mirror)[pos := Entry(key, node.Value(), clock.now)]
      ensures Separate(nodes.slots[..]) && Mirrors(nodes.slots[..], mirror)
    {
      MirrorsWith(s, mirror, pos, key, node, clock.now);
      NotANode(nodes.slots[..]);
      ghost var after := mirror[pos := Entry(key, node.Value(), clock.now)];
      label written:
      mirror := after;
      StillMirrors@written((nodes.slots[..], after));
    }

    /** map_set on the nodes; the nodes held so far stay as they were. */
    method PutNode(key: Key, node: ReassemblyNode, ghost held: (seq<NodeSlot>, seq<ValueSlot>))
      returns (made: bool, ghost pos: nat)
      requires Valid() && key !in nodes.Live() && held == (nodes.slots[..], mirror)
      modifies clock, nodes`size, nodes.slots
      ensures nodes.Valid() && old(clock.now) <= clock.now && Mirrors(old(nodes.slots[..]), mirror)
      ensures made == (old(nodes.size) < nodes.slots.Length)
      ensures made ==>
                && pos < nodes.slots.Length &&
                   nodes.slots[..] == old(nodes.slots[..])[pos := Entry(key, node, clock.now)]
                && (LiveSlot(old(nodes.slots[pos]), IP_FRAG_TIMEOUT_SEC, clock.now) ==>
                      old(nodes.slots[pos]).key == key)
      ensures nodes.size == old(nodes.size) + if made then 1 else 0
      ensures !made ==> nodes.slots[..] == old(nodes.slots[..]) && key !in nodes.Live()
    {
      NotANode(held.0);
      made, pos := nodes.Set(key, node);
      StillMirrors(held);
    }

    method Install(key: Key, node: ReassemblyNode) returns (made: bool, ghost pos: nat)
      requires Valid() && key !in Table()
      requires forall i | 0 <= i < nodes.slots.Length && nodes.slots[i].Entry? ::
                 nodes.slots[i].value != node && nodes.slots[i].value.fragments != node.fragments
      requires node.Valid() && node.Value() == EMPTY_NODE
      modifies this`mirror, clock, nodes`size, nodes.slots
      ensures Valid() && old(clock.now) <= clock.now
      ensures forall i | 0 <= i < nodes.slots.Length && nodes.slots[i].Entry? ::
                || (old(nodes.slots[i]).Entry? && nodes.slots[i].value == old(nodes.slots[i]).value)
                || nodes.slots[i].value == node
      ensures made == (old(nodes.size) < nodes.slots.Length)
      ensures made ==> HoldsKey(mirror, IP_FRAG_TIMEOUT_SEC, clock.now, key, pos) && mirror[pos].value == EMPTY_NODE
      ensures !made ==> mirror == old(mirror) && key !in Table()
      ensures RestWithin(Table(), old(Table()), key)
      ensures old(Steady()) ==> Steady() && Table() == if made then old(Table())[key := EMPTY_NODE] else old(Table())
      ensures old(Steady()) ==> Slack() == old(Slack())
    {
      MirrorLife();
      ghost var before, slots, start := mirror, nodes.slots[..], clock.now;
      made, pos := PutNode(key, node, (slots, before));
      if made {
        assert MirrorsSlot(slots, before, pos);
        MirrorWritten(before, start, clock.now, clock.horizon, pos, key);
        Adopt(slots, pos, key, node);
      } else {
        MirrorAged(before, start, clock.now, clock.horizon, key);
      }
    }

    /** map_get on the nodes. */
    method Lookup(key: Key) returns (found: bool, pos: nat)
      requires Valid()
      modifies clock
      ensures Valid() && old(clock.now) <= clock.now
      ensures found ==> HoldsKey(mirror, IP_FRAG_TIMEOUT_SEC, old(clock.now), key, pos)
      ensures found ==> pos < nodes.slots.Length && nodes.slots[pos].Entry? && nodes.slots[pos].key == key
      ensures !found ==> key !in Table()
      ensures RestWithin(Table(), old(Table()), key)
      ensures old(Steady()) ==> Steady() && Table() == old(Table()) && found == (key in Table())
      ensures old(Steady()) && found ==> LiveSlot(mirror[pos], IP_FRAG_TIMEOUT_SEC, clock.now)
    {
      MirrorLife();
      ghost var s, start := nodes.slots[..], clock.now;
      found, pos := FindSlot(key);
      MirrorLife();
      MirrorAged(mirror, start, clock.now, clock.horizon, key);
      if found {
        FoundInMirror(s, mirror, start, key, pos);
      }
    }

    method FindSlot(key: Key) returns (found: bool, pos: nat)
      requires Valid()
      modifies clock
      ensures Valid() && old(clock.now) <= clock.now
      ensures found ==> HoldsKey(old(nodes.slots[..]), IP_FRAG_TIMEOUT_SEC, old(clock.now), key, pos)
      ensures !found ==> key !in nodes.Live()
    {
      NotANode(nodes.slots[..]);
      pos, found := nodes.Get(key);
      Untouched();
    }

    /** The null branch of ip_reassemble_get_node: insert and look up again. */
    method AddNode(key: Key) returns (node: ReassemblyNode?, ghost pos: nat)
      requires Valid() && key !in Table()
      modifies this`mirror, clock, nodes`size, nodes.slots
      ensures Valid() && old(clock.now) <= clock.now && NoForeignNodes()
      ensures node != null ==> HeldAt(key, node, pos) && mirror[pos].value == EMPTY_NODE
      ensures RestWithin(Table(), old(Table()), key)
      ensures old(Steady()) ==> Steady() && (node != null <==> old(nodes.size) < nodes.slots.Length)
      ensures old(Steady()) && node != null ==>
                LiveSlot(mirror[pos], IP_FRAG_TIMEOUT_SEC, clock.now) && Table() == old(Table())[key := EMPTY_NODE]
      ensures old(Steady()) ==> Slack() == old(Slack())
    {
      var made, at := MakeNode(key);
      MirrorLife();
      var found, i := Lookup(key);
      if !found {
        return null, 0;
      }
      assert i == at;
      return nodes.slots[i].value, i;
    }

    ghost predicate HeldAt(key: Key, node: ReassemblyNode, pos: nat)
      reads this, nodes.slots
    {
      && pos < nodes.slots.Length && nodes.slots[pos].Entry? && nodes.slots[pos].key == key &&
         nodes.slots[pos].value == node
      && pos < |mirror| && mirror[pos].Entry?
    }

    /** ip_reassemble_get_node (src/ip.c:119-143): found, or made, or null where the map is full or
        the entry expires before it is looked up again. */
    method GetNode(key: Key) returns (node: ReassemblyNode?, ghost pos: nat)
      requires Valid()
      modifies this`mirror, clock, nodes`size, nodes.slots
      ensures Valid() && old(clock.now) <= clock.now && NoForeignNodes()
      ensures node != null ==> HeldAt(key, node, pos) && (mirror[pos].value == EMPTY_NODE ||
                               (key in old(Table()) && mirror[pos].value == old(Table())[key]))
      ensures RestWithin(Table(), old(Table()), key)
      ensures old(Steady()) ==>
                Steady() && (node != null <==> key in old(Table()) || old(nodes.size) < nodes.slots.Length)
      ensures old(Steady()) && node != null ==>
                LiveSlot(mirror[pos], IP_FRAG_TIMEOUT_SEC, clock.now) &&
                Table() == old(Table())[key := NodeAt(old(Table()), key)]
      ensures old(Steady()) ==> Slack() == old(Slack())
    {
      ghost var table := Table();
      node, pos := FindNode(key);
      assert NoForeignNodes() && (old(Steady()) ==> Slack() == old(Slack()));
      if node == null {
        RestStays(table, Table(), key);
        node, pos := AddNode(key);
      }
    }

    /** Its first map_get. */
    method FindNode(key: Key) returns (node: ReassemblyNode?, ghost pos: nat)
      requires Valid()
      modifies clock
      ensures Valid() && old(clock.now) <= clock.now
      ensures node == null ==> key !in Table()
      ensures node != null ==>
                HeldAt(key, node, pos) && key in old(Table()) && mirror[pos].value == old(Table())[key] &&
                               old(Table())[key := NodeAt(old(Table()), key)] == old(Table())
      ensures RestWithin(Table(), old(Table()), key)
      ensures old(Steady()) ==> Steady() && Table() == old(Table()) && (node != null <==> key in old(Table()))
      ensures old(Steady()) && node != null ==> LiveSlot(mirror[pos], IP_FRAG_TIMEOUT_SEC, clock.now)
    {
      MirrorLife();
      ghost var start := clock.now;
      var found, i := Lookup(key);
      if !found {
        return null, 0;
      }
      FoundValue(mirror, start, key, i);
      return nodes.slots[i].value, i;
    }

    lemma RestStays(was: map<Key, Node>, now: map<Key, Node>, key: Key)
      requires RestWithin(now, was, key)
      ensures forall later | RestWithin(later, now, key) :: RestWithin(later, was, key)
    {
    }

    /** ip_reassemble_insert_fragment on the node in slot pos: no other slot's node changes. */
    method StoreAt(key: Key, node: ReassemblyNode, ghost pos: nat, f: Fragment) returns (ok: bool)
      requires Valid() && HeldAt(key, node, pos)
      modifies this`mirror, node, node.fragments
      ensures Valid() && HeldAt(key, node, pos) && ValidNode(old(mirror)[pos].value)
      ensures node.Valid() && (node.Value(), ok) == Insert(old(mirror)[pos].value, f)
      ensures mirror == old(mirror)[pos := old(mirror)[pos].(value := Insert(old(mirror)[pos].value, f).0)]
    {
      ghost var slots := nodes.slots[..];
      assert MirrorsSlot(slots, mirror, pos);
      ok := node.InsertFragment(f.offset, f.data, f.isLast);
      Undisturbed(node, pos);
      Refresh(node, pos);
    }

    lemma HeldKey(key: Key, node: ReassemblyNode, pos: nat)
      requires Valid() && HeldAt(key, node, pos)
      ensures UniqueKeys(mirror, IP_FRAG_TIMEOUT_SEC, clock.now) && mirror[pos].key == key
    {
      MirrorLife();
      assert MirrorsSlot(nodes.slots[..], mirror, pos);
    }

    lemma TableRevalued(before: seq<ValueSlot>, key: Key, pos: nat, v: Node)
      requires UniqueKeys(before, IP_FRAG_TIMEOUT_SEC, clock.now) && pos < |before| && before[pos].Entry? &&
               before[pos].key == key
      requires mirror == before[pos := before[pos].(value := v)]
      ensures Revalued(before, View(before, IP_FRAG_TIMEOUT_SEC, clock.now), key, pos, v)
      ensures |Table()| == |View(before, IP_FRAG_TIMEOUT_SEC, clock.now)|
      ensures SteadyFrom(before, clock.now, clock.horizon) ==> Steady()
    {
      MirrorRevalued(before, clock.now, clock.horizon, pos, v);
      RevaluedSize(before, clock.now, clock.horizon, pos, v);
    }

    /** The same, seen on the table. */
    method InsertAt(key: Key, node: ReassemblyNode, ghost pos: nat, f: Fragment) returns (ok: bool)
      requires Valid() && HeldAt(key, node, pos)
      modifies this`mirror, node, node.fragments
      ensures Valid() && HeldAt(key, node, pos) && ValidNode(old(mirror)[pos].value)
      ensures node.Valid() && (node.Value(), ok) == Insert(old(mirror)[pos].value, f)
      ensures Revalued(old(mirror), old(Table()), key, pos, Insert(old(mirror)[pos].value, f).0)
      ensures Slack() == old(Slack()) && (old(Steady()) ==> Steady())
    {
      ghost var before := mirror;
      HeldKey(key, node, pos);
      ok := StoreAt(key, node, pos, f);
      TableRevalued(before, key, pos, mirror[pos].value);
    }

    /** The table has changed from was, in key's entry at most, by giving slot pos the value v. */
    ghost predicate Revalued(before: seq<ValueSlot>, was: map<Key, Node>, key: Key, pos: nat, v: Node)
      requires pos < |before|
      reads this, clock
    {
      && RestWithin(Table(), was, key) && Table() - {key} == was - {key}
      && (LiveSlot(before[pos], IP_FRAG_TIMEOUT_SEC, clock.now) ==> Table() == was[key := v])
    }

    /** Changing one node leaves the others' slots mirrored. */
    twostate lemma Undisturbed(new node: ReassemblyNode, pos: nat)
      requires old(Mirrors(nodes.slots[..], mirror)) && Separate(nodes.slots[..])
      requires nodes.slots[..] == old(nodes.slots[..]) && mirror == old(mirror)
      requires pos < nodes.slots.Length && nodes.slots[pos].Entry? && nodes.slots[pos].value == node
      requires unchanged(Footprint(nodes.slots[..]) - {node, node.fragments})
      ensures forall i | 0 <= i < |mirror| && i != pos :: MirrorsSlot(nodes.slots[..], mirror, i)
    {
      var s := nodes.slots[..];
      forall i | 0 <= i < |mirror| && i != pos
        ensures MirrorsSlot(s, mirror, i)
      {
        assert old(MirrorsSlot(s, mirror, i));
        if s[i].Entry? {
          assert if i < pos then SlotsSeparate(s, i, pos) else SlotsSeparate(s, pos, i);
          assert s[i].value in Footprint(s) && s[i].value.fragments in Footprint(s);
        }
      }
    }

    /** A call that leaves nodes and slots alone changes nothing but what has expired meanwhile. */
    twostate lemma Untouched()
      requires old(Valid())
      requires unchanged(this) && unchanged(nodes) && unchanged(nodes.slots)
      requires unchanged(Footprint(nodes.slots[..]))
      requires clock.Valid() && old(clock.now) <= clock.now
      ensures Valid() && TableAged(old(Table()), Table())
      ensures old(Steady()) ==> Steady() && Table() == old(Table())
    {
      var s := nodes.slots[..];
      assert old(nodes.slots[..]) == s;
      StillMirrors((s, mirror));
      ViewShrinks(s, IP_FRAG_TIMEOUT_SEC, old(clock.now), clock.now);
      assert Valid();
      MirrorLife();
      ViewShrinks(mirror, IP_FRAG_TIMEOUT_SEC, old(clock.now), clock.now);
      if old(Steady()) {
        SteadyView(mirror, old(clock.now), clock.now, clock.horizon);
      }
    }

    /** Brings the mirror up to date after a change of the node in slot pos alone. */
    ghost method Refresh(node: ReassemblyNode, pos: nat)
      requires nodes.clock == clock && nodes.timeout == IP_FRAG_TIMEOUT_SEC && nodes.Valid() &&
               Separate(nodes.slots[..])
      requires |mirror| == nodes.slots.Length && pos < |mirror| && node.Valid()
      requires nodes.slots[pos].Entry? && nodes.slots[pos].value == node
      requires forall i | 0 <= i < |mirror| && i != pos :: MirrorsSlot(nodes.slots[..], mirror, i)
      requires mirror[pos].Entry? && mirror[pos].key == nodes.slots[pos].key &&
               mirror[pos].stamp == nodes.slots[pos].stamp
      modifies this`mirror
      ensures Valid()
      ensures mirror == old(mirror)[pos := old(mirror)[pos].(value := node.Value())]
    {
      NotANode(nodes.slots[..]);
      mirror := mirror[pos := mirror[pos].(value := node.Value())];
      forall i | 0 <= i < |mirror|
        ensures MirrorsSlot(nodes.slots[..], mirror, i)
      {
        assert i != pos ==> old(MirrorsSlot(nodes.slots[..], mirror, i));
      }
    }

    /** map_delete on the nodes; those held stay as they were. */
    method DropSlot(key: Key, ghost held: (seq<NodeSlot>, seq<ValueSlot>)) returns (ghost hit: bool, ghost pos: nat)
      requires Valid() && held == (nodes.slots[..], mirror)
      modifies clock, nodes`size, nodes.slots
      ensures nodes.Valid() && old(clock.now) <= clock.now && Mirrors(old(nodes.slots[..]), mirror)
      ensures hit ==> HoldsKey(old(nodes.slots[..]), IP_FRAG_TIMEOUT_SEC, old(clock.now), key, pos)
      ensures hit ==> nodes.slots[..] == old(nodes.slots[..])[pos := old(nodes.slots[..])[pos].(stamp := 0)]
      ensures !hit ==> nodes.slots[..] == old(nodes.slots[..]) && key !in nodes.Live()
      ensures nodes.size == old(nodes.size) - if hit then 1 else 0
    {
      NotANode(held.0);
      hit, pos := nodes.Delete(key);
      StillMirrors(held);
    }

    /** The mirror follows. */
    method DropEntry(key: Key) returns (ghost hit: bool, ghost pos: nat)
      requires Valid()
      modifies this`mirror, clock, nodes`size, nodes.slots
      ensures Valid() && old(clock.now) <= clock.now && NoForeignNodes()
      ensures hit ==> pos < |mirror| && LiveSlot(old(mirror)[pos], IP_FRAG_TIMEOUT_SEC, old(clock.now))
      ensures hit ==> old(mirror)[pos].key == key && mirror == old(mirror)[pos := old(mirror)[pos].(stamp := 0)]
      ensures !hit ==> mirror == old(mirror) && key !in nodes.Live()
      ensures nodes.size == old(nodes.size) - if hit then 1 else 0
    {
      ghost var before, slots := mirror, nodes.slots[..];
      hit, pos := DropSlot(key, (slots, before));
      if hit {
        assert MirrorsSlot(slots, before, pos);
        MirrorsCleared(slots, before, pos);
        NotANode(nodes.slots[..]);
        mirror := mirror[pos := mirror[pos].(stamp := 0)];
        assert nodes.slots[..] == slots[pos := slots[pos].(stamp := 0)];
      } else {
        assert nodes.slots[..] == slots;
      }
    }

    /** map_delete on the nodes. */
    method Remove(key: Key)
      requires Valid()
      modifies this`mirror, clock, nodes`size, nodes.slots
      ensures Valid() && old(clock.now) <= clock.now && NoForeignNodes()
      ensures key !in Table() && RestWithin(Table(), old(Table()), key)
      ensures old(Steady()) ==> Steady() && Table() == old(Table()) - {key}
      ensures old(Steady()) ==> Slack() == old(Slack())
    {
      MirrorLife();
      ghost var before, start := mirror, clock.now;
      ghost var hit, pos := DropEntry(key);
      MirrorLife();
      if hit {
        MirrorCleared(before, start, clock.now, clock.horizon, pos);
        if SteadyFrom(before, start, clock.horizon) {
          ClearedSize(before, start, clock.now, clock.horizon, pos);
        }
      } else {
        MirrorAged(before, start, clock.now, clock.horizon, key);
        NothingRemoved(Table(), key);
      }
    }

    /** Clean-up after delivery (src/ip.c:335-340). */
    method Finish(key: Key, node: ReassemblyNode, ghost pos: nat)
      requires Valid() && HeldAt(key, node, pos)
      modifies this`mirror, clock, nodes`size, nodes.slots, node`count
      ensures Valid() && old(clock.now) <= clock.now && NoForeignNodes()
      ensures key !in Table() && RestWithin(Table(), old(Table()), key)
      ensures old(Steady()) ==> Steady() && Table() == old(Table()) - {key}
      ensures old(Steady()) ==> Slack() == old(Slack())
    {
      FreeAt(key, node, pos);
      Remove(key);
    }

    /** ip_reassemble_free_node on the node in slot pos. */
    method FreeAt(key: Key, node: ReassemblyNode, ghost pos: nat)
      requires Valid() && HeldAt(key, node, pos)
      modifies this`mirror, node`count
      ensures Valid() && RestWithin(Table(), old(Table()), key) && Table() - {key} == old(Table()) - {key}
      ensures Slack() == old(Slack()) && (old(Steady()) ==> Steady())
    {
      ghost var before := mirror;
      HeldKey(key, node, pos);
      assert MirrorsSlot(nodes.slots[..], mirror, pos);
      node.Free();
      Undisturbed(node, pos);
      Refresh(node, pos);
      TableRevalued(before, key, pos, mirror[pos].value);
    }

    /** The buffer for a completed datagram (src/ip.c:327-332). */
    static method Merged(node: ReassemblyNode) returns (out: Buf)
      requires node.Valid() && Complete(node.Value())
      ensures fresh(out) && fresh(out.payload) && out.Anchored() && out.len <= 0xFFFF
      ensures out.Contents() == Delivery(node.Value())
    {
      out := new Buf();
      var _ := out.Init(node.totalLen);
      node.MergeInto(out);
    }

    lemma NotABuffer(s: seq<NodeSlot>, buf: Buf)
      ensures buf !in Footprint(s) && buf.payload !in Footprint(s)
    {
    }

    lemma TableValid()
      requires Valid()
      ensures ValidTable(Table())
    {
      MirrorLife();
      forall k | k in Table()
        ensures ValidNode(Table()[k])
      {
        var i := IndexOf(mirror, IP_FRAG_TIMEOUT_SEC, clock.now, k);
        assert MirrorsSlot(nodes.slots[..], mirror, i);
      }
    }

    /** The fragment path of ip_in (src/ip.c:303-340): a buffer holding the datagram once it is whole.
        With no expiry in sight and room for a new node it is exactly a step of the table of nodes. */
    method Reassemble(key: Key, f: Fragment) returns (out: Buf?)
      requires Valid()
      modifies this`mirror, clock, nodes`size, nodes.slots, Footprint(nodes.slots[..])
      ensures Valid() && old(clock.now) <= clock.now && NoForeignNodes()
      ensures out != null ==> fresh(out) && fresh(out.payload) && out.Anchored() && out.len <= 0xFFFF
      ensures out != null ==> Completes(old(Table()), key, f, out.Contents())
      ensures RestWithin(Table(), old(Table()), key)
      ensures old(Steady()) && (key in old(Table()) || old(nodes.size) < nodes.slots.Length) ==>
                Steady() && IsStep(old(Table()), key, f, Table(), if out != null then Some(out.Contents()) else None)
      ensures old(Steady()) ==> Steady() && Slack() == old(Slack())
    {
      TableValid();
      ghost var table := Table();
      var node, pos := GetNode(key);
      if node == null {
        return null;
      }
      ghost var n := mirror[pos].value;
      HeldValue(key, node, pos);
      StepFrom(table, key, f, n);
      out := Accumulate(key, node, pos, f);
      Overwrites(table, key, NodeAt(table, key), Insert(n, f).0);
    }

    lemma HeldValue(key: Key, node: ReassemblyNode, pos: nat)
      requires Valid() && HeldAt(key, node, pos)
      ensures node.Valid() && ValidNode(mirror[pos].value) && mirror[pos].value == node.Value() &&
              mirror[pos].key == key
      ensures LiveSlot(mirror[pos], IP_FRAG_TIMEOUT_SEC, clock.now) ==>
                key in Table() && Table()[key] == mirror[pos].value
    {
      MirrorLife();
      assert MirrorsSlot(nodes.slots[..], mirror, pos);
      if LiveSlot(mirror[pos], IP_FRAG_TIMEOUT_SEC, clock.now) {
        ViewOfSlot(mirror, IP_FRAG_TIMEOUT_SEC, clock.now, pos);
      }
    }

    /** The rest of it, once the node is at hand. */
    method Accumulate(key: Key, node: ReassemblyNode, ghost pos: nat, f: Fragment) returns (out: Buf?)
      requires Valid() && HeldAt(key, node, pos)
      modifies this`mirror, clock, nodes`size, nodes.slots, node, node.fragments
      ensures Valid() && old(clock.now) <= clock.now && NoForeignNodes()
      ensures out != null ==> fresh(out) && fresh(out.payload) && out.Anchored() && out.len <= 0xFFFF
      ensures ValidNode(old(mirror)[pos].value)
      ensures var (m, ok) := Insert(old(mirror)[pos].value, f);
              && (out != null <==> ok && Complete(m))
              && (out != null ==> ValidNode(m) && out.Contents() == Delivery(m))
              && (old(Steady()) && LiveSlot(old(mirror)[pos], IP_FRAG_TIMEOUT_SEC, old(clock.now)) ==>
                    Steady() && Table() == if out != null then old(Table()) - {key} else old(Table())[key := m])
      ensures RestWithin(Table(), old(Table()), key)
      ensures old(Steady()) ==> Steady() && Slack() == old(Slack())
    {
      var ok := InsertAt(key, node, pos, f);
      if !ok {
        return null;
      }
      out := Conclude(key, node, pos);
    }

    /** The completeness test and what follows it (src/ip.c:325-340). */
    method Conclude(key: Key, node: ReassemblyNode, ghost pos: nat) returns (out: Buf?)
      requires Valid() && HeldAt(key, node, pos) && node.Valid()
      modifies this`mirror, clock, nodes`size, nodes.slots, node`count
      ensures Valid() && old(clock.now) <= clock.now && NoForeignNodes()
      ensures out != null ==> fresh(out) && fresh(out.payload) && out.Anchored() && out.len <= 0xFFFF
      ensures out != null <==> Complete(old(node.Value()))
      ensures out != null ==> out.Contents() == Delivery(old(node.Value()))
      ensures RestWithin(Table(), old(Table()), key)
      ensures old(Steady()) ==> Steady() && Table() == if out != null then old(Table()) - {key} else old(Table())
      ensures old(Steady()) ==> Slack() == old(Slack())
    {
      ghost var slots := nodes.slots[..];
      var complete := node.IsComplete();
      assert nodes.slots[..] == slots;
      Untouched();
      if !complete {
        return null;
      }
      out := Merged(node);
      assert nodes.slots[..] == slots;
      Untouched();
      Finish(key, node, pos);
    }

    /** ip_in (src/ip.c:227-359) up to the call of net_in: out is the buffer passed up, if any. */
    method IpIn(buf: Buf) returns (call: NetCall, out: Buf?)
      requires Valid() && buf.Valid()
      modifies this`mirror, clock, nodes`size, nodes.slots, Footprint(nodes.slots[..]), buf, buf.payload
      ensures Valid() && old(clock.now) <= clock.now && NoForeignNodes()
      ensures call.Call? <==> out != null
      ensures out != null ==> out.Valid() && out.Contents() == call.payload &&
                              (if out == buf then old(buf.data) <= out.data
                               else fresh(out) && fresh(out.payload) && BUF_MIDDLE <= out.data + 0xFFFF)
      ensures out != null ==> out.len <= 0xFFFF
      ensures Taken(Parse(ifIp, old(buf.Contents())), old(Table()), call)
      ensures var p := Parse(ifIp, old(buf.Contents()));
              if IsFragment(p) then RestWithin(Table(), old(Table()), KeyOf(p)) else TableAged(old(Table()), Table())
      ensures var p := Parse(ifIp, old(buf.Contents()));
              var room := !IsFragment(p) || KeyOf(p) in old(Table()) || old(nodes.size) < nodes.slots.Length;
              old(Steady()) && room ==> TakenExactly(p, old(Table()), Table(), call)
      ensures old(Steady()) ==> Steady() && Slack() == old(Slack())
    {
      label start:
      NotABuffer(nodes.slots[..], buf);
      var p := CheckHeader(ifIp, buf);
      Untouched();
      if p.Rejected? {
        return NoCall, null;
      }
      if !p.mf && p.offset == 0 {
        return Call(p.protocol, p.src, p.payload), buf;
      }
      out := Reassemble(KeyOf(p), FragmentOf(p));
      if out == null {
        return NoCall, null;
      }
      return Call(p.protocol, p.src, out.payload[out.data..out.data + out.len]), out;
    }
  }

  /** The header checks of ip_in, done in the buffer (src/ip.c:228-282): the stored checksum is zeroed,
      recomputed and put back; padding and header are then taken off. */
  method CheckHeader(ifIp: Ip, buf: Buf) returns (p: Parsed)
    requires buf.Valid()
    modifies buf, buf.payload
    ensures buf.Valid() && old(buf.data) <= buf.data
    ensures p == Parse(ifIp, old(buf.Contents()))
    ensures p.Accepted? ==> buf.Contents() == p.payload
  {
    if buf.len < IP_HDR_LEN {
      return Rejected;
    }
    ghost var s := buf.Contents();
    var header := buf.payload[buf.data..buf.data + IP_HDR_LEN];
    assert header == s[..IP_HDR_LEN];
    var totalLen := GetBe16(header, 2);
    if header[0] / 16 != 4 || totalLen > buf.len {
      return Rejected;
    }
    var accepted := VerifyChecksum(buf);
    if !accepted || (header[16..20] != ifIp && header[16..20] != LOOPBACK) {
      return Rejected;
    }
    Strip(buf, totalLen, HeaderLength(header));
    return Fields(header, buf.payload[buf.data..buf.data + buf.len]);
  }

  /** Padding behind the datagram goes, then the header in front of its data. */
  method Strip(buf: Buf, totalLen: nat, headerLen: nat)
    requires buf.Valid() && totalLen <= buf.len
    modifies buf
    ensures buf.Valid() && old(buf.data) <= buf.data
    ensures buf.Contents() == WithoutFront(old(buf.Contents())[..totalLen], headerLen)
  {
    if buf.len > totalLen {
      var _ := buf.RemovePadding(buf.len - totalLen);
    }
    var _ := buf.RemoveHeader(headerLen);
  }

  lemma Zeroed(s: seq<byte>)
    requires IP_HDR_LEN <= |s|
    ensures SetWord(s, CHECKSUM_AT, 0)[..IP_HDR_LEN] == SetWord(s[..IP_HDR_LEN], CHECKSUM_AT, 0)
  {
  }

  method VerifyChecksum(buf: Buf) returns (accepted: bool)
    requires buf.Valid() && IP_HDR_LEN <= buf.len
    modifies buf.payload
    ensures accepted == Accepts(old(buf.Contents())[..IP_HDR_LEN], CHECKSUM_AT)
    ensures accepted ==> buf.Contents() == old(buf.Contents())
  {
    ghost var s := buf.Contents();
    var stored := GetLe16(buf.Read(CHECKSUM_AT, 2), 0);
    assert stored == GetLe16(s, CHECKSUM_AT);
    buf.WriteWord(CHECKSUM_AT, 0);
    Zeroed(s);
    var c, rounds := ComputeChecksum16(buf.Read(0, IP_HDR_LEN));
    if c != stored {
      return false;
    }
    buf.WriteWord(CHECKSUM_AT, stored);
    WrittenWord(s, CHECKSUM_AT, 0);
    return true;
  }

  predicate IsFragment(p: Parsed) {
    p.Accepted? && (p.mf || p.offset != 0)
  }

  function KeyOf(p: Parsed): Key
    requires p.Accepted?
  {
    Key(p.src, p.dst, p.id)
  }

  function FragmentOf(p: Parsed): Fragment
    requires p.Accepted?
  {
    Fragment(p.offset, p.payload, !p.mf)
  }

  ghost predicate TableAged(was: map<Key, Node>, now: map<Key, Node>) {
    forall k | k in now :: k in was && now[k] == was[k]
  }

  lemma Overwrites(table: map<Key, Node>, key: Key, a: Node, b: Node)
    ensures table[key := a][key := b] == table[key := b]
    ensures table[key := a] - {key} == table - {key}
  {
  }

  /** TableStep in terms of the node it finds. */
  lemma StepFrom(table: map<Key, Node>, key: Key, f: Fragment, n: Node)
    requires ValidTable(table) && ValidNode(n)
    ensures var (m, ok) := Insert(n, f);
            && (n == NodeAt(table, key) ==>
                  if ok && Complete(m) then ValidNode(m) && IsStep(table, key, f, table - {key}, Some(Delivery(m)))
                  else IsStep(table, key, f, table[key := m], None))
            && (ok && Complete(m) ==> ValidNode(m) && Receive(n, f).1 == Some(Delivery(m)))
  {
    InsertKeepsNode(n, f);
  }

  /** d is what key's datagram, or a new one, becomes with the arrival of f. */
  ghost predicate Completes(table: map<Key, Node>, key: Key, f: Fragment, d: seq<byte>) {
    || Receive(EMPTY_NODE, f).1 == Some(d)
    || (key in table && ValidNode(table[key]) && Receive(table[key], f).1 == Some(d))
  }

  ghost predicate IsStep(table: map<Key, Node>, key: Key, f: Fragment, after: map<Key, Node>, d: Option<seq<byte>>) {
    ValidTable(table) && (after, d) == TableStep(table, Arrival(key, f))
  }

  /** up is what packet p carries, or what its fragment completes. */
  ghost predicate Taken(p: Parsed, was: map<Key, Node>, up: NetCall) {
    if p.Rejected? then up == NoCall
    else if !IsFragment(p) then up == Call(p.protocol, p.src, p.payload)
    else up.Call? ==>
      up.protocol == p.protocol && up.src == p.src && Completes(was, KeyOf(p), FragmentOf(p), up.payload)
  }

  /** The same with nothing expiring and room: the table takes the fragment's step, and is otherwise as it was. */
  ghost predicate TakenExactly(p: Parsed, was: map<Key, Node>, now: map<Key, Node>, up: NetCall) {
    if IsFragment(p) then IsStep(was, KeyOf(p), FragmentOf(p), now, if up.Call? then Some(up.payload) else None)
    else now == was
  }
}
