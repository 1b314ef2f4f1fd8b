/** The cache engine: a hash index of node references over the recency list. Every
    method is proved to do to the pair exactly what `CacheModel.Step` does to a list. */
module CacheEngine {
  import opened Prelude
  import opened CacheModel
  import opened RecencyList

  /** Distinct keys are counted by the list that holds them. */
  lemma {:induction false} KeyCount(es: seq<Entry>, keys: set<string>)
    requires DistinctKeys(es)
    requires keys == set e | e in es :: e.key
    ensures |keys| == |es|
  {
    if es != [] {
      var rest := set e | e in es[1..] :: e.key;
      assert es == [es[0]] + es[1..];
      assert keys == rest + {es[0].key};
      KeyCount(es[1..], rest);
    }
  }

  lemma {:induction false} SubsetSize(small: set<string>, large: set<string>)
    requires small <= large && |small| == |large|
    ensures small == large
  {
    assert large == small + (large - small);
  }

  class Cache {
    const entries: RecencyList
    var index: map<string, Node>
    const capacity: Option<nat>
    var evictions: nat
    var expiredRemovals: nat

    /** The index sends the key of every node to that node, and holds nothing else. */
    ghost predicate Valid()
      reads this, entries, entries.repr
    {
      && entries.Valid()
      && |index| == |entries.nodes|
      && (forall i {:trigger entries.nodes[i]} :: 0 <= i < |entries.nodes| ==>
            entries.contents[i].key in index && index[entries.contents[i].key] == entries.nodes[i])
    }

    /** The list this cache stands for. */
    ghost function State(): State
      reads this, entries
    {
      CacheModel.State(capacity, entries.contents, evictions, expiredRemovals)
    }

    constructor (capacity: Option<nat>)
      ensures Valid() && State() == Empty(capacity)
      ensures fresh(entries) && entries.repr == {}
    {
      entries := new RecencyList();
      index := map[];
      this.capacity := capacity;
      evictions, expiredRemovals := 0, 0;
    }

    lemma {:induction false} KeysDistinct()
      requires Valid()
      ensures DistinctKeys(entries.contents)
    {
      forall i, j | 0 <= i < j < |entries.nodes| ensures entries.contents[i].key != entries.contents[j].key {
        assert index[entries.contents[i].key] == entries.nodes[i];
        assert index[entries.contents[j].key] == entries.nodes[j];
      }
    }

    /** The indexed keys are exactly the listed ones. */
    lemma {:induction false} KeysListed()
      requires Valid()
      ensures DistinctKeys(entries.contents)
      ensures index.Keys == set e | e in entries.contents :: e.key
    {
      var es := entries.contents;
      var keys := set e | e in es :: e.key;
      KeysDistinct();
      KeyCount(es, keys);
      forall k | k in keys ensures k in index {
        var j :| 0 <= j < |es| && es[j].key == k;
        assert entries.nodes[j] == index[k];
      }
      SubsetSize(keys, index.Keys);
    }

    /** Each index entry points to the one node that holds its key. */
    lemma {:induction false} Located(key: string) returns (i: nat)
      requires Valid() && key in index
      ensures i < |entries.nodes| && entries.nodes[i] == index[key]
      ensures entries.contents[i] == index[key].entry && index[key].entry.key == key
      ensures Find(entries.contents, key) == Some(entries.contents[i])
      ensures Without(entries.contents, key) == entries.contents[..i] + entries.contents[i + 1..]
    {
      KeysListed();
      i :| 0 <= i < |entries.contents| && entries.contents[i].key == key;
      assert entries.nodes[i] == index[key];
      FindIndex(entries.contents, i);
      WithoutIndex(entries.contents, i);
    }

    /** Looking a key up in the index is looking it up in the list. */
    method Peek(key: string) returns (e: Option<Entry>)
      requires Valid()
      ensures e == Find(entries.contents, key)
      ensures e.Some? <==> key in index
      ensures e.Some? ==> index[key].entry == e.value
    {
      if key in index {
        ghost var _ := Located(key);
        return Some(index[key].entry);
      }
      KeysListed();
      return None;
    }

    method Remove(key: string, ghost i: nat)
      requires Valid() && key in index && i < |entries.nodes| && entries.nodes[i] == index[key]
      modifies this`index, entries, entries.repr
      ensures Valid() && fresh(entries.repr - old(entries.repr))
      ensures entries.contents == old(entries.contents[..i] + entries.contents[i + 1..])
    {
      entries.Remove(index[key], i);
      index := index - {key};
    }

    method EvictOldest()
      requires Valid() && entries.nodes != []
      modifies this`index, this`evictions, entries, entries.repr
      ensures Valid() && fresh(entries.repr - old(entries.repr))
      ensures State() == CacheModel.EvictOldest(old(State()))
    {
      var victim := entries.Oldest();
      index := index - {victim.key};
      entries.PopOldest();
      evictions := evictions + 1;
    }

    /** Overwrites the entry of a resident key in place and moves it to the front. */
    method Rewrite(e: Entry, ghost i: nat)
      requires Valid() && e.key in index && i < |entries.nodes| && entries.nodes[i] == index[e.key]
      modifies entries, entries.repr
      ensures Valid() && entries.repr == old(entries.repr) && index[e.key].entry == e
      ensures entries.contents == [e] + old(entries.contents[..i] + entries.contents[i + 1..])
    {
      entries.Update(index[e.key], e, i);
      entries.MarkUsed(index[e.key], i);
    }

    method Insert(e: Entry)
      requires Valid() && e.key !in index
      modifies this`index, entries, entries.repr
      ensures Valid() && fresh(entries.repr - old(entries.repr))
      ensures entries.contents == [e] + old(entries.contents)
    {
      var n := entries.InsertNewest(e);
      index := index[e.key := n];
    }

    /** Removes a resident key from both structures. */
    method Drop(key: string)
      requires Valid() && key in index
      modifies this`index, entries, entries.repr
      ensures Valid() && fresh(entries.repr - old(entries.repr))
      ensures State() == old(State()).(entries := Without(old(entries.contents), key))
    {
      ghost var i := Located(key);
      Remove(key, i);
    }

    /** Removes a resident key found expired, and counts it. */
    method ReclaimKey(key: string)
      requires Valid() && key in index
      modifies this`index, this`expiredRemovals, entries, entries.repr
      ensures Valid() && fresh(entries.repr - old(entries.repr))
      ensures State() == Reclaim(old(State()), key)
    {
      Drop(key);
      expiredRemovals := expiredRemovals + 1;
    }

    /** Overwrites a resident key and makes it the most recently used. */
    method Use(e: Entry)
      requires Valid() && e.key in index
      modifies entries, entries.repr
      ensures Valid() && entries.repr == old(entries.repr) && index[e.key].entry == e
      ensures entries.contents == [e] + Without(old(entries.contents), e.key)
    {
      ghost var i := Located(e.key);
      Rewrite(e, i);
    }

    method PromoteAt(key: string, ghost i: nat)
      requires Valid() && key in index && i < |entries.nodes| && entries.nodes[i] == index[key]
      modifies entries, entries.repr
      ensures Valid() && entries.repr == old(entries.repr)
      ensures entries.contents == old([entries.contents[i]] + (entries.contents[..i] + entries.contents[i + 1..]))
    {
      entries.MarkUsed(index[key], i);
    }

    /** Makes a resident key the most recently used, its entry untouched. */
    method Promote(key: string)
      requires Valid() && key in index
      modifies entries, entries.repr
      ensures Valid() && entries.repr == old(entries.repr) && index[key].entry == old(index[key].entry)
      ensures entries.contents == [index[key].entry] + Without(old(entries.contents), key)
    {
      ghost var i := Located(key);
      PromoteAt(key, i);
      assert entries.contents[0].key == key;
      assert index[key] == entries.nodes[0];
    }

    method Shrink()
      requires Valid()
      modifies this`index, this`evictions, entries, entries.repr
      ensures Valid() && fresh(entries.repr - old(entries.repr))
      ensures State() == Trim(old(State()))
    {
      while capacity.Some? && |index| > capacity.value
        invariant Valid() && fresh(entries.repr - old(entries.repr))
        invariant Trim(State()) == Trim(old(State()))
        decreases |index|
      {
        EvictOldest();
      }
    }

    method Store(e: Entry)
      requires Valid()
      modifies this`index, this`evictions, entries, entries.repr
      ensures Valid() && fresh(entries.repr - old(entries.repr))
      ensures State() == CacheModel.Store(old(State()), e)
    {
      var resident := Peek(e.key);
      if resident.Some? {
        Use(e);
        return;
      }
      Insert(e);
      Shrink();
    }

    /** Never reads the clock: the outcome is the same at every `now`. */
    method Set(key: string, value: string, ghost now: int)
      requires Valid()
      modifies this, entries, entries.repr
      ensures Valid() && fresh(entries.repr - old(entries.repr))
      ensures State() == Step(old(State()), Op.Set(key, value), now).state
    {
      Store(Entry(key, value, None));
    }

    method SetTtl(key: string, value: string, ttl: int, now: int)
      requires Valid()
      modifies this, entries, entries.repr
      ensures Valid() && fresh(entries.repr - old(entries.repr))
      ensures State() == Step(old(State()), Op.SetTtl(key, value, ttl), now).state
    {
      if ttl <= 0 {
        var _ := Erase(key, now);
        return;
      }
      Store(Entry(key, value, Some(now + ttl * NANOS_PER_MS)));
    }

    /** Removes a resident key and tells whether it was visible. */
    method EraseResident(key: string, now: int) returns (removed: bool)
      requires Valid() && key in index
      modifies this, entries, entries.repr
      ensures Valid() && fresh(entries.repr - old(entries.repr))
      ensures removed == !Expired(old(index[key].entry), now)
      ensures State() ==
              if removed then old(State()).(entries := Without(old(entries.contents), key))
              else Reclaim(old(State()), key)
    {
      removed := !Expired(index[key].entry, now);
      if removed {
        Drop(key);
      } else {
        ReclaimKey(key);
      }
    }

    method Erase(key: string, now: int) returns (removed: bool)
      requires Valid()
      modifies this, entries, entries.repr
      ensures Valid() && fresh(entries.repr - old(entries.repr))
      ensures Outcome(State(), Flag(removed)) == Step(old(State()), Op.Erase(key), now)
    {
      var resident := Peek(key);
      if resident.None? {
        return false;
      }
      removed := EraseResident(key, now);
    }

    /** The live node of a key; an expired one is reclaimed and reported as absent. */
    method FindLive(key: string, now: int) returns (found: bool)
      requires Valid()
      modifies this, entries, entries.repr
      ensures Valid() && fresh(entries.repr - old(entries.repr))
      ensures var e := Find(old(State()).entries, key);
              if e.None? then !found && State() == old(State())
              else if Expired(e.value, now) then !found && State() == Reclaim(old(State()), key)
              else found && State() == old(State()) && key in index && index[key].entry == e.value
    {
      var resident := Peek(key);
      if resident.None? {
        return false;
      }
      if Expired(resident.value, now) {
        ReclaimKey(key);
        return false;
      }
      return true;
    }

    /** A hit makes its entry the most recently used. */
    method Recall(key: string, now: int) returns (value: Option<string>)
      requires Valid()
      modifies this, entries, entries.repr
      ensures Valid() && fresh(entries.repr - old(entries.repr))
      ensures (State(), value) == Read(old(State()), key, now)
    {
      var found := FindLive(key, now);
      if !found {
        return None;
      }
      Promote(key);
      value := Some(index[key].entry.value);
    }

    method Get(key: string, now: int) returns (value: Option<string>)
      requires Valid()
      modifies this, entries, entries.repr
      ensures Valid() && fresh(entries.repr - old(entries.repr))
      ensures Outcome(State(), Value(value)) == Step(old(State()), Op.Get(key), now)
    {
      value := Recall(key, now);
    }

    method GetInto(key: string, out: string, now: int) returns (found: bool, filled: string)
      requires Valid()
      modifies this, entries, entries.repr
      ensures Valid() && fresh(entries.repr - old(entries.repr))
      ensures Outcome(State(), Into(found, filled)) == Step(old(State()), Op.GetInto(key, out), now)
    {
      var value := Recall(key, now);
      if value.None? {
        return false, out;
      }
      return true, value.value;
    }

    method Ttl(key: string, now: int) returns (info: TtlInfo)
      requires Valid()
      modifies this, entries, entries.repr
      ensures Valid() && fresh(entries.repr - old(entries.repr))
      ensures Outcome(State(), Info(info)) == Step(old(State()), Op.Ttl(key), now)
    {
      var resident := Peek(key);
      if resident.None? {
        return Missing;
      }
      var e := resident.value;
      if e.expiresAt.None? {
        return Persistent;
      }
      if e.expiresAt.value <= now {
        ReclaimKey(key);
        return Missing;
      }
      return Expiring((e.expiresAt.value - now) / NANOS_PER_MS);
    }

    method Contains(key: string, now: int) returns (found: bool)
      requires Valid()
      ensures Outcome(State(), Flag(found)) == Step(State(), Op.Contains(key), now)
    {
      var resident := Peek(key);
      found := resident.Some? && !Expired(resident.value, now);
    }

    method Count() returns (n: nat)
      requires Valid()
      ensures n == |State().entries|
    {
      n := |index|;
    }

    method Clear()
      requires Valid()
      modifies this`index, entries
      ensures Valid() && entries.repr == old(entries.repr)
      ensures State() == old(State()).(entries := [])
    {
      index := map[];
      entries.Clear();
    }

    method ExportEntries(now: int) returns (out: seq<EntrySnapshot>)
      requires Valid()
      ensures out == CacheModel.ExportEntries(State().entries, now)
    {
      out := [];
      var n := entries.head;
      ghost var i := 0;
      ghost var es := entries.contents;
      assert es[0..] == es;
      while n != null
        invariant 0 <= i <= |entries.nodes| && n == At(entries.nodes, i)
        invariant out + CacheModel.ExportEntries(es[i..], now) == CacheModel.ExportEntries(es, now)
        decreases |entries.nodes| - i
      {
        var e := n.entry;
        if e.expiresAt.None? {
          out := out + [EntrySnapshot(e.key, e.value, None)];
        } else if e.expiresAt.value > now {
          out := out + [EntrySnapshot(e.key, e.value, Some((e.expiresAt.value - now) / NANOS_PER_MS))];
        }
        assert es[i..][1..] == es[i + 1..];
        n, i := n.next, i + 1;
      }
      assert es[i..] == [] && out + [] == out;
    }
  }
}
