/** The keyed container of src/map.c: a fixed array of slots, each carrying the time of
    its last write.  Slots are never moved, so a value pointer is a slot index here. */
module TimedMaps {

  /** The source of time(NULL).  Readings are positive and never decrease, and may advance
      between any two of them; horizon is the last reading of the run under study. */
  class Clock {
    var now: nat
    const horizon: nat

    ghost predicate Valid()
      reads this
    {
      0 < now <= horizon
    }

    constructor (start: nat, end: nat)
      requires 0 < start <= end
      ensures Valid() && now == start && horizon == end
    {
      now, horizon := start, end;
    }

    method Time() returns (t: nat)
      requires Valid()
      modifies this
      ensures Valid() && old(now) <= now == t
    {
      t :| now <= t <= horizon;
      now := t;
    }
  }

  /** Blank is zeroed memory; a deleted entry keeps its key and value under stamp 0. */
  datatype Slot<K, V> = Blank | Entry(key: K, value: V, stamp: nat)

  predicate Stamped<K, V>(s: Slot<K, V>) {
    s.Entry? && s.stamp != 0
  }

  /** src/map.c:62-65 */
  predicate LiveSlot<K, V>(s: Slot<K, V>, timeout: nat, t: nat) {
    Stamped(s) && (timeout == 0 || s.stamp + timeout >= t)
  }

  // ----- The finite map a slot array stands for

  ghost predicate HoldsKey<K, V>(s: seq<Slot<K, V>>, timeout: nat, t: nat, k: K, i: nat) {
    i < |s| && LiveSlot(s[i], timeout, t) && s[i].key == k
  }

  ghost predicate UniqueKeys<K, V>(s: seq<Slot<K, V>>, timeout: nat, t: nat) {
    forall i, j | 0 <= i < j < |s| && LiveSlot(s[i], timeout, t) && LiveSlot(s[j], timeout, t) ::
      s[i].key != s[j].key
  }

  ghost function LiveKeys<K, V>(s: seq<Slot<K, V>>, timeout: nat, t: nat): set<K> {
    set i | 0 <= i < |s| && LiveSlot(s[i], timeout, t) :: s[i].key
  }

  ghost function IndexOf<K, V>(s: seq<Slot<K, V>>, timeout: nat, t: nat, k: K): (i: nat)
    requires k in LiveKeys(s, timeout, t)
    ensures HoldsKey(s, timeout, t, k, i)
  {
    assert exists i: nat :: HoldsKey(s, timeout, t, k, i) by {
      var i :| 0 <= i < |s| && LiveSlot(s[i], timeout, t) && s[i].key == k;
      assert HoldsKey(s, timeout, t, k, i);
    }
    var i: nat :| HoldsKey(s, timeout, t, k, i);
    i
  }

  /** The unexpired entries as a map. */
  ghost function View<K, V>(s: seq<Slot<K, V>>, timeout: nat, t: nat): map<K, V> {
    map k | k in LiveKeys(s, timeout, t) :: s[IndexOf(s, timeout, t, k)].value
  }

  lemma ViewOfSlot<K, V>(s: seq<Slot<K, V>>, timeout: nat, t: nat, i: nat)
    requires UniqueKeys(s, timeout, t)
    requires i < |s| && LiveSlot(s[i], timeout, t)
    ensures s[i].key in View(s, timeout, t) && View(s, timeout, t)[s[i].key] == s[i].value
  {
    assert s[i].key in LiveKeys(s, timeout, t);
    var j := IndexOf(s, timeout, t, s[i].key);
    assert j == i;
  }

  /** Time only removes entries: an entry live later was live before, with the same value. */
  lemma ViewShrinks<K, V>(s: seq<Slot<K, V>>, timeout: nat, t: nat, u: nat)
    requires UniqueKeys(s, timeout, t) && t <= u
    ensures UniqueKeys(s, timeout, u)
    ensures forall k | k in View(s, timeout, u) ::
              k in View(s, timeout, t) && View(s, timeout, u)[k] == View(s, timeout, t)[k]
  {
    forall k | k in View(s, timeout, u)
      ensures k in View(s, timeout, t) && View(s, timeout, u)[k] == View(s, timeout, t)[k]
    {
      ViewOfSlot(s, timeout, t, IndexOf(s, timeout, u, k));
    }
  }

  lemma StaysEmpty<K, V>(s: seq<Slot<K, V>>, timeout: nat, t: nat, u: nat)
    requires UniqueKeys(s, timeout, t) && t <= u
    ensures View(s, timeout, t) == map[] ==> View(s, timeout, u) == map[]
  {
    ViewShrinks(s, timeout, t, u);
  }

  /** Without a timeout the time of day does not matter. */
  lemma ViewForever<K, V>(s: seq<Slot<K, V>>, t: nat, u: nat)
    requires UniqueKeys(s, 0, t)
    ensures UniqueKeys(s, 0, u) && View(s, 0, t) == View(s, 0, u)
  {
    forall i | 0 <= i < |s|
      ensures LiveSlot(s[i], 0, t) == LiveSlot(s[i], 0, u)
    {
    }
    assert UniqueKeys(s, 0, u);
    assert LiveKeys(s, 0, t) == LiveKeys(s, 0, u);
    forall k | k in LiveKeys(s, 0, t)
      ensures View(s, 0, t)[k] == View(s, 0, u)[k]
    {
      ViewOfSlot(s, 0, u, IndexOf(s, 0, t, k));
    }
  }

  lemma UniqueAfterWrite<K, V>(s: seq<Slot<K, V>>, timeout: nat, t: nat, i: nat, k: K, v: V, stamp: nat)
    requires UniqueKeys(s, timeout, t) && i < |s|
    requires if LiveSlot(s[i], timeout, t) then s[i].key == k else k !in LiveKeys(s, timeout, t)
    ensures UniqueKeys(s[i := Entry(k, v, stamp)], timeout, t)
  {
    forall j | 0 <= j < |s| && j != i && LiveSlot(s[j], timeout, t)
      ensures s[j].key != k
    {
      ViewOfSlot(s, timeout, t, j);
    }
  }

  /** Writing a live entry for k over k's own slot, or over a dead slot when k is absent. */
  lemma ViewAfterWrite<K, V>(s: seq<Slot<K, V>>, timeout: nat, t: nat, i: nat, k: K, v: V, stamp: nat)
    requires UniqueKeys(s, timeout, t)
    requires i < |s| && LiveSlot(Entry(k, v, stamp), timeout, t)
    requires if LiveSlot(s[i], timeout, t) then s[i].key == k else k !in LiveKeys(s, timeout, t)
    ensures UniqueKeys(s[i := Entry(k, v, stamp)], timeout, t)
    ensures View(s[i := Entry(k, v, stamp)], timeout, t) == View(s, timeout, t)[k := v]
  {
    var r := s[i := Entry(k, v, stamp)];
    UniqueAfterWrite(s, timeout, t, i, k, v, stamp);
    ViewOfSlot(r, timeout, t, i);
    forall x | x in LiveKeys(r, timeout, t) && x != k
      ensures x in LiveKeys(s, timeout, t) && View(r, timeout, t)[x] == View(s, timeout, t)[x]
    {
      var j := IndexOf(r, timeout, t, x);
      ViewOfSlot(s, timeout, t, j);
    }
    forall x | x in LiveKeys(s, timeout, t)
      ensures x in LiveKeys(r, timeout, t)
    {
      var j := IndexOf(s, timeout, t, x);
      assert HoldsKey(r, timeout, t, x, j);
    }
  }

  /** Clearing the stamp of a slot removes its key, if the slot was live at all. */
  lemma ViewAfterClear<K, V>(s: seq<Slot<K, V>>, timeout: nat, t: nat, i: nat, dead: Slot<K, V>)
    requires UniqueKeys(s, timeout, t)
    requires i < |s| && s[i].Entry? && !Stamped(dead)
    requires LiveSlot(s[i], timeout, t) || s[i].key !in LiveKeys(s, timeout, t)
    ensures UniqueKeys(s[i := dead], timeout, t)
    ensures View(s[i := dead], timeout, t) == View(s, timeout, t) - {s[i].key}
  {
    var r := s[i := dead];
    assert UniqueKeys(r, timeout, t);
    var k := s[i].key;
    forall x | x in LiveKeys(r, timeout, t)
      ensures x in LiveKeys(s, timeout, t) && x != k && View(r, timeout, t)[x] == View(s, timeout, t)[x]
    {
      var j := IndexOf(r, timeout, t, x);
      assert j != i && r[j] == s[j];
      ViewOfSlot(s, timeout, t, j);
      if x == k {
        ViewOfSlot(s, timeout, t, i);
      }
    }
    forall x | x in LiveKeys(s, timeout, t) && x != k
      ensures x in LiveKeys(r, timeout, t)
    {
      assert HoldsKey(r, timeout, t, x, IndexOf(s, timeout, t, x));
    }
  }

  /** Writing a dead entry over a dead slot. */
  lemma ViewAfterDeadWrite<K, V>(s: seq<Slot<K, V>>, timeout: nat, t: nat, i: nat, dead: Slot<K, V>)
    requires UniqueKeys(s, timeout, t)
    requires i < |s| && !LiveSlot(s[i], timeout, t) && !LiveSlot(dead, timeout, t)
    ensures UniqueKeys(s[i := dead], timeout, t)
    ensures View(s[i := dead], timeout, t) == View(s, timeout, t)
  {
    var r := s[i := dead];
    assert UniqueKeys(r, timeout, t);
    forall x | x in LiveKeys(r, timeout, t)
      ensures x in LiveKeys(s, timeout, t) && View(r, timeout, t)[x] == View(s, timeout, t)[x]
    {
      ViewOfSlot(s, timeout, t, IndexOf(r, timeout, t, x));
    }
    forall x | x in LiveKeys(s, timeout, t)
      ensures x in LiveKeys(r, timeout, t)
    {
      assert HoldsKey(r, timeout, t, x, IndexOf(s, timeout, t, x));
    }
  }

  lemma NothingRemoved<K, V>(m: map<K, V>, k: K)
    requires k !in m
    ensures m - {k} == m
  {
  }

  // ----- What a change leaves alone

  /** From slots s to slots r nothing live at time t has come or gone but entries of key k. */
  ghost predicate TouchesOnly<K, V>(s: seq<Slot<K, V>>, r: seq<Slot<K, V>>, timeout: nat, t: nat, k: K) {
    |r| == |s| &&
    forall i | 0 <= i < |s| ::
      r[i] == s[i] || ((LiveSlot(s[i], timeout, t) ==> s[i].key == k) && (LiveSlot(r[i], timeout, t) ==> r[i].key == k))
  }

  /** So every other key keeps its entry, or its absence, from then on. */
  lemma OthersStay<K, V>(s: seq<Slot<K, V>>, r: seq<Slot<K, V>>, timeout: nat, t: nat, now: nat, k: K, x: K)
    requires UniqueKeys(s, timeout, now) && UniqueKeys(r, timeout, now) && t <= now
    requires TouchesOnly(s, r, timeout, t, k) && x != k
    ensures x in View(r, timeout, now) <==> x in View(s, timeout, now)
    ensures x in View(r, timeout, now) ==> View(r, timeout, now)[x] == View(s, timeout, now)[x]
  {
    if x in View(r, timeout, now) {
      ViewOfSlot(s, timeout, now, IndexOf(r, timeout, now, x));
    }
    if x in View(s, timeout, now) {
      ViewOfSlot(r, timeout, now, IndexOf(s, timeout, now, x));
    }
  }

  /** If key x has an entry at time t, it is the same one in s and in r. */
  ghost predicate Spares<K, V>(s: seq<Slot<K, V>>, r: seq<Slot<K, V>>, timeout: nat, t: nat, x: K) {
    |r| == |s| && forall i: nat | HoldsKey(s, timeout, t, x, i) :: r[i] == s[i]
  }

  lemma SparesMore<K, V>(s: seq<Slot<K, V>>, r: seq<Slot<K, V>>, q: seq<Slot<K, V>>, timeout: nat, t: nat, now: nat,
                         x: K)
    requires Spares(s, r, timeout, t, x) && Spares(r, q, timeout, now, x) && t <= now
    ensures Spares(s, q, timeout, now, x)
  {
    forall i: nat | HoldsKey(s, timeout, now, x, i)
      ensures q[i] == s[i]
    {
      assert HoldsKey(s, timeout, t, x, i);
      assert HoldsKey(r, timeout, now, x, i);
    }
  }

  lemma SparesOthers<K, V>(s: seq<Slot<K, V>>, r: seq<Slot<K, V>>, timeout: nat, t: nat, k: K, x: K)
    requires TouchesOnly(s, r, timeout, t, k)
    requires x == k ==> x !in View(s, timeout, t)
    ensures Spares(s, r, timeout, t, x)
  {
    forall i: nat | HoldsKey(s, timeout, t, x, i)
      ensures r[i] == s[i]
    {
      assert x in LiveKeys(s, timeout, t);
    }
  }

  lemma SparedEntry<K, V>(s: seq<Slot<K, V>>, r: seq<Slot<K, V>>, timeout: nat, t: nat, now: nat, x: K)
    requires UniqueKeys(r, timeout, now) && Spares(s, r, timeout, t, x) && t <= now && x in View(s, timeout, now)
    ensures x in View(r, timeout, now) && View(r, timeout, now)[x] == View(s, timeout, now)[x]
  {
    var i := IndexOf(s, timeout, now, x);
    assert HoldsKey(s, timeout, t, x, i);
    ViewOfSlot(r, timeout, now, i);
  }

  // ----- Occupancy

  function StampedCount<K, V>(s: seq<Slot<K, V>>): nat {
    if |s| == 0 then 0
    else StampedCount(s[..|s| - 1]) + (if Stamped(s[|s| - 1]) then 1 else 0)
  }

  lemma {:induction false} StampedCountUpdate<K, V>(s: seq<Slot<K, V>>, i: nat, e: Slot<K, V>)
    requires i < |s|
    ensures StampedCount(s[i := e]) ==
            StampedCount(s) - (if Stamped(s[i]) then 1 else 0) + (if Stamped(e) then 1 else 0)
  {
    var n := |s| - 1;
    if i == n {
      assert s[i := e][..n] == s[..n];
    } else {
      assert s[i := e][..n] == s[..n][i := e];
      StampedCountUpdate(s[..n], i, e);
    }
  }

  lemma {:induction false} AllStamped<K, V>(s: seq<Slot<K, V>>)
    ensures StampedCount(s) <= |s|
    ensures StampedCount(s) == |s| <==> forall i | 0 <= i < |s| :: Stamped(s[i])
  {
    if |s| > 0 {
      var p := s[..|s| - 1];
      AllStamped(p);
      if forall i | 0 <= i < |p| :: Stamped(p[i]) {
        assert forall i | 0 <= i < |p| :: Stamped(s[i]);
      } else {
        var i :| 0 <= i < |p| && !Stamped(p[i]);
        assert !Stamped(s[i]);
      }
    }
  }

  lemma LiveKeysSnoc<K, V>(s: seq<Slot<K, V>>, timeout: nat, t: nat)
    requires UniqueKeys(s, timeout, t) && |s| > 0
    ensures var (n, before) := (|s| - 1, LiveKeys(s[..|s| - 1], timeout, t));
            if LiveSlot(s[n], timeout, t) then s[n].key !in before && LiveKeys(s, timeout, t) == before + {s[n].key}
            else LiveKeys(s, timeout, t) == before
  {
    var n := |s| - 1;
    var p := s[..n];
    forall x
      ensures x in LiveKeys(s, timeout, t) <==>
              x in LiveKeys(p, timeout, t) || (LiveSlot(s[n], timeout, t) && x == s[n].key)
    {
      if x in LiveKeys(p, timeout, t) {
        assert HoldsKey(s, timeout, t, x, IndexOf(p, timeout, t, x));
      }
      if x in LiveKeys(s, timeout, t) && IndexOf(s, timeout, t, x) < n {
        assert HoldsKey(p, timeout, t, x, IndexOf(s, timeout, t, x));
      }
      if LiveSlot(s[n], timeout, t) {
        assert HoldsKey(s, timeout, t, s[n].key, n);
      }
    }
  }

  /** At most one entry per stamped slot is live, and with no timeout exactly one. */
  lemma {:induction false} LiveWithinStamped<K, V>(s: seq<Slot<K, V>>, timeout: nat, t: nat)
    requires UniqueKeys(s, timeout, t)
    ensures |LiveKeys(s, timeout, t)| <= StampedCount(s)
    ensures timeout == 0 ==> |LiveKeys(s, timeout, t)| == StampedCount(s)
  {
    if |s| > 0 {
      LiveWithinStamped(s[..|s| - 1], timeout, t);
      LiveKeysSnoc(s, timeout, t);
    }
  }

  // ----- The container

  class TimedMap<K(==), V> {
    const slots: array<Slot<K, V>>
    const timeout: nat
    const clock: Clock
    var size: nat

    ghost predicate Valid()
      reads this, slots, clock
    {
      && clock.Valid()
      && UniqueKeys(slots[..], timeout, clock.now)
      && StampedCount(slots[..]) <= size <= slots.Length
      && (timeout == 0 ==> StampedCount(slots[..]) == size)
    }

    /** The entries unexpired at the last reading of the clock. */
    ghost function Live(): map<K, V>
      reads this, slots, clock
    {
      View(slots[..], timeout, clock.now)
    }

    /** What the counter has over the entries that carry a stamp.  It is lost for good: no operation lowers it,
        and each insertion over an expired entry adds one (see Set and Delete). */
    ghost function Leaked(): (n: nat)
      requires Valid()
      reads this, slots, clock
    {
      size - StampedCount(slots[..])
    }

    /** No room is left and nothing is live: see Set and Delete. */
    ghost predicate Exhausted()
      reads this, slots, clock
    {
      size == slots.Length && Live() == map[]
    }

    constructor (capacity: nat, seconds: nat, source: Clock)
      requires source.Valid()
      ensures Valid() && fresh(slots) && slots.Length == capacity && timeout == seconds && clock == source
      ensures Live() == map[] && size == 0
      ensures forall i | 0 <= i < slots.Length :: slots[i] == Blank
    {
      slots := new Slot<K, V>[capacity](_ => Blank);
      timeout, clock, size := seconds, source, 0;
      new;
      NoneStamped(slots[..]);
      assert LiveKeys(slots[..], timeout, clock.now) == {};
    }

    static lemma {:induction false} NoneStamped(s: seq<Slot<K, V>>)
      requires forall i | 0 <= i < |s| :: s[i] == Blank
      ensures StampedCount(s) == 0
    {
      if |s| > 0 {
        NoneStamped(s[..|s| - 1]);
      }
    }

    /** Live entries never outnumber size; with no timeout the two are equal. */
    lemma LiveWithinSize()
      requires Valid()
      ensures |Live()| <= size <= slots.Length
      ensures timeout == 0 ==> |Live()| == size
    {
      LiveWithinStamped(slots[..], timeout, clock.now);
      assert |Live()| == |Live().Keys|;
      assert Live().Keys == LiveKeys(slots[..], timeout, clock.now);
    }

    /** Leaked capacity is not there for live entries. */
    lemma LiveBesideLeaked()
      requires Valid()
      ensures |Live()| + Leaked() <= size <= slots.Length
    {
      LiveWithinStamped(slots[..], timeout, clock.now);
      assert |Live()| == |Live().Keys|;
      assert Live().Keys == LiveKeys(slots[..], timeout, clock.now);
    }

    /** How a map comes to be exhausted: its counter is at capacity and the last of its entries expires, or all of
        its capacity has leaked. */
    lemma ComesToBeExhausted()
      requires Valid() && size == slots.Length
      requires || (timeout > 0 &&
                   forall i | 0 <= i < slots.Length && Stamped(slots[i]) :: slots[i].stamp + timeout < clock.now)
               || Leaked() == slots.Length
      ensures Exhausted()
    {
      if Leaked() == slots.Length {
        LiveBesideLeaked();
        assert Live() == map[];
      } else {
        assert LiveKeys(slots[..], timeout, clock.now) == {};
      }
    }

    /** map_get (src/map.c:74-83).  A hit was live when the call began; a miss is dead when it ends. */
    method Get(key: K) returns (pos: nat, found: bool)
      requires Valid()
      modifies clock
      ensures Valid() && old(clock.now) <= clock.now
      ensures found ==> HoldsKey(slots[..], timeout, old(clock.now), key, pos)
      ensures found ==> key in old(Live()) && old(Live())[key] == slots[pos].value
      ensures !found ==> key !in Live()
    {
      ghost var s := slots[..];
      ghost var start := clock.now;
      pos, found := 0, false;
      while pos < slots.Length
        invariant pos <= slots.Length
        invariant clock.Valid() && start <= clock.now
        invariant forall i | 0 <= i < pos && LiveSlot(s[i], timeout, clock.now) :: s[i].key != key
      {
        var t := clock.Time();
        assert s[pos] == slots[pos];
        if LiveSlot(slots[pos], timeout, t) && slots[pos].key == key {
          ViewShrinks(s, timeout, start, t);
          ViewOfSlot(s, timeout, start, pos);
          return pos, true;
        }
        pos := pos + 1;
      }
      ViewShrinks(s, timeout, start, clock.now);
    }

    /** map_set (src/map.c:93-114).  It fails only when the key is absent and the counter stands
        at capacity; the last return of the source is not reached.  Expired entries never lower
        the counter, so an exhausted map refuses every later insertion. */
    method Set(key: K, value: V) returns (ok: bool, ghost pos: nat)
      requires Valid()
      modifies this`size, slots, clock
      ensures Valid() && old(clock.now) <= clock.now
      ensures ok ==> pos < slots.Length && slots[..] == old(slots[..])[pos := Entry(key, value, clock.now)]
      ensures ok ==> Live() == View(old(slots[..]), timeout, clock.now)[key := value]
      ensures ok ==> !LiveSlot(old(slots[..])[pos], timeout, clock.now) || old(slots[..])[pos].key == key
      ensures ok ==> size == old(size) || (size == old(size) + 1 && key !in View(old(slots[..]), timeout, clock.now))
      ensures !ok ==> slots[..] == old(slots[..]) && size == old(size) == slots.Length && key !in Live()
      ensures key !in old(Live()) ==> ok == (old(size) < slots.Length)
      ensures ok && key !in old(Live()) ==> size == old(size) + 1
      ensures Leaked() == old(Leaked()) + (if size > old(size) && Stamped(old(slots[..])[pos]) then 1 else 0)
      ensures old(Exhausted()) ==> !ok && Exhausted()
    {
      ghost var s := slots[..];
      ghost var start := clock.now;
      var i, found := Get(key);
      if found {
        Overwrite(i, key, value, start);
        return true, i;
      }
      StaysEmpty(s, timeout, start, clock.now);
      if size == slots.Length {
        return false, 0;
      }
      pos := InsertAbsent(key, value);
      return true, pos;
    }

    /** The first half of map_set: key was found in slot i at time start. */
    method Overwrite(i: nat, key: K, value: V, ghost start: nat)
      requires Valid() && start <= clock.now
      requires UniqueKeys(slots[..], timeout, start) && HoldsKey(slots[..], timeout, start, key, i)
      modifies slots, clock
      ensures Valid() && old(clock.now) <= clock.now
      ensures slots[..] == old(slots[..])[i := Entry(key, value, clock.now)]
      ensures Live() == View(old(slots[..]), timeout, clock.now)[key := value]
      ensures Leaked() == old(Leaked())
    {
      ghost var s := slots[..];
      slots[i] := slots[i].(value := value);
      var t := clock.Time();
      slots[i] := slots[i].(stamp := t);
      assert slots[..] == s[i := Entry(key, value, t)];
      Written(s, start, i, key, value);
    }

    /** The second half of map_set: an absent key goes into the first slot that is not live. */
    method InsertAbsent(key: K, value: V) returns (ghost pos: nat)
      requires Valid() && key !in Live() && size < slots.Length
      modifies this`size, slots, clock
      ensures Valid() && old(clock.now) <= clock.now
      ensures pos < slots.Length && slots[..] == old(slots[..])[pos := Entry(key, value, clock.now)]
      ensures Live() == View(old(slots[..]), timeout, clock.now)[key := value]
      ensures !LiveSlot(old(slots[..])[pos], timeout, clock.now)
      ensures size == old(size) + 1
      ensures Leaked() == old(Leaked()) + (if Stamped(old(slots[..])[pos]) then 1 else 0)
    {
      ghost var s := slots[..];
      ghost var start := clock.now;
      var i := 0;
      while i < slots.Length
        invariant i <= slots.Length
        invariant clock.Valid() && start <= clock.now && slots[..] == s && size == old(size)
        invariant forall j | 0 <= j < i :: Stamped(s[j])
      {
        assert s[i] == slots[i];
        var t := clock.Time();
        if !LiveSlot(slots[i], timeout, t) {
          t := clock.Time();
          slots[i] := Entry(key, value, t);
          assert slots[..] == s[i := Entry(key, value, t)];
          size := size + 1;
          ViewShrinks(s, timeout, start, t);
          Written(s, start, i, key, value);
          return i;
        }
        i := i + 1;
      }
      AllStamped(s);
      assert false;
    }

    /** Slot i has just been rewritten for key at the present time. */
    lemma {:induction false} Written(s: seq<Slot<K, V>>, start: nat, i: nat, key: K, value: V)
      requires clock.Valid() && start <= clock.now
      requires UniqueKeys(s, timeout, start) && i < |s|
      requires slots[..] == s[i := Entry(key, value, clock.now)]
      requires HoldsKey(s, timeout, start, key, i) ||
               (!LiveSlot(s[i], timeout, clock.now) && key !in LiveKeys(s, timeout, clock.now))
      ensures UniqueKeys(slots[..], timeout, clock.now)
      ensures Live() == View(s, timeout, clock.now)[key := value]
      ensures StampedCount(slots[..]) == StampedCount(s) + (if Stamped(s[i]) then 0 else 1)
    {
      ViewShrinks(s, timeout, start, clock.now);
      if HoldsKey(s, timeout, start, key, i) && !LiveSlot(s[i], timeout, clock.now) {
        ViewOfSlot(s, timeout, start, i);
        assert key !in LiveKeys(s, timeout, clock.now);
      }
      ViewAfterWrite(s, timeout, clock.now, i, key, value, clock.now);
      StampedCountUpdate(s, i, Entry(key, value, clock.now));
    }

    /** A store through a value pointer returned by Get: key and stamp stay, whether or not the entry
        has been deleted meanwhile. */
    method Assign(pos: nat, value: V)
      requires Valid() && pos < slots.Length && slots[pos].Entry?
      modifies slots
      ensures Valid() && slots[..] == old(slots[..])[pos := old(slots[..])[pos].(value := value)]
      ensures Live() == if old(LiveSlot(slots[pos], timeout, clock.now)) then old(Live())[slots[pos].key := value]
                        else old(Live())
    {
      ghost var s := slots[..];
      slots[pos] := slots[pos].(value := value);
      assert slots[..] == s[pos := s[pos].(value := value)];
      StampedCountUpdate(s, pos, s[pos].(value := value));
      if LiveSlot(s[pos], timeout, clock.now) {
        ViewAfterWrite(s, timeout, clock.now, pos, s[pos].key, value, s[pos].stamp);
      } else {
        ViewAfterDeadWrite(s, timeout, clock.now, pos, s[pos].(value := value));
      }
    }

    /** The stamp of slot i has just been cleared. */
    lemma {:induction false} Cleared(s: seq<Slot<K, V>>, start: nat, i: nat)
      requires clock.Valid() && start <= clock.now
      requires UniqueKeys(s, timeout, start) && i < |s| && LiveSlot(s[i], timeout, start)
      requires slots[..] == s[i := s[i].(stamp := 0)]
      ensures UniqueKeys(slots[..], timeout, clock.now)
      ensures Live() == View(s, timeout, clock.now) - {s[i].key}
      ensures StampedCount(slots[..]) == StampedCount(s) - 1
    {
      ViewShrinks(s, timeout, start, clock.now);
      StampedCountUpdate(s, i, s[i].(stamp := 0));
      if !LiveSlot(s[i], timeout, clock.now) {
        ViewOfSlot(s, timeout, start, i);
      }
      ViewAfterClear(s, timeout, clock.now, i, s[i].(stamp := 0));
    }

    /** The store of map_delete in slot i, live at time start, and the counter after it. */
    method Clear(i: nat, ghost start: nat)
      requires Valid() && start <= clock.now
      requires UniqueKeys(slots[..], timeout, start) && i < slots.Length && LiveSlot(slots[i], timeout, start)
      modifies this`size, slots
      ensures Valid() && size == old(size) - 1
      ensures slots[..] == old(slots[..])[i := old(slots[..])[i].(stamp := 0)]
      ensures Live() == View(old(slots[..]), timeout, clock.now) - {old(slots[i]).key}
      ensures Leaked() == old(Leaked())
    {
      ghost var s := slots[..];
      slots[i] := slots[i].(stamp := 0);
      assert slots[..] == s[i := s[i].(stamp := 0)];
      Cleared(s, start, i);
      size := size - 1;
    }

    /** map_delete (src/map.c:122-128): the key is gone and the counter, which then cannot be 0, drops by one. */
    method Delete(key: K) returns (ghost found: bool, ghost pos: nat)
      requires Valid()
      modifies this`size, slots, clock
      ensures Valid() && old(clock.now) <= clock.now
      ensures Live() == View(old(slots[..]), timeout, clock.now) - {key}
      ensures found ==> HoldsKey(old(slots[..]), timeout, old(clock.now), key, pos)
      ensures found ==> size == old(size) - 1 && slots[..] == old(slots[..])[pos := old(slots[..])[pos].(stamp := 0)]
      ensures !found ==>
                slots[..] == old(slots[..]) && size == old(size) && key !in View(old(slots[..]), timeout, clock.now)
      ensures Leaked() == old(Leaked())
      ensures old(Exhausted()) ==> Exhausted()
    {
      ghost var s := slots[..];
      ghost var start := clock.now;
      var i, hit := Get(key);
      ViewShrinks(s, timeout, start, clock.now);
      if hit {
        Clear(i, start);
      } else {
        NothingRemoved(Live(), key);
      }
      found, pos := hit, i;
    }
  }
}
