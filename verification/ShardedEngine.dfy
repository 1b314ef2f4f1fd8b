/** The sharded cache on the heap: a fixed list of caches that share nothing, each
    operation routed to one of them. */
module ShardedEngine {
  import opened Prelude
  import opened CacheModel
  import opened Sharding
  import opened CacheEngine

  function Limits(shares: seq<nat>): (r: seq<Option<nat>>)
    ensures |r| == |shares|
    ensures forall i :: 0 <= i < |shares| ==> r[i] == Some(shares[i])
  {
    seq(|shares|, i requires 0 <= i < |shares| => Some(shares[i]))
  }

  /** Caches that share nothing, each valid. */
  ghost predicate Fresh(caches: seq<Cache>)
    reads caches, set c | c in caches :: c.entries, set c, n | c in caches && n in c.entries.repr :: n
  {
    && (forall i :: 0 <= i < |caches| ==> caches[i].Valid())
    && (forall i, j :: 0 <= i < j < |caches| ==> caches[i] != caches[j] && caches[i].entries != caches[j].entries)
  }

  method PlanLimits(requested: nat, total: nat) returns (limits: seq<Option<nat>>)
    ensures limits == Limits(Shares(total, ShardCount(requested, total), ShardCount(requested, total)))
    ensures |limits| > 0
  {
    var count := if requested == 0 then 1 else requested;
    if total < count {
      count := if total > 1 then total else 1;
    }
    var base, remainder := total / count, total % count;
    limits := [];
    for i := 0 to count
      invariant |limits| == i
      invariant forall j :: 0 <= j < i ==> limits[j] == Some(Share(total, count, j))
    {
      limits := limits + [Some(base + if i < remainder then 1 else 0)];
    }
  }

  method MakeShards(limits: seq<Option<nat>>) returns (made: seq<Cache>)
    ensures |made| == |limits| && Fresh(made)
    ensures forall i :: 0 <= i < |made| ==> made[i].State() == Empty(limits[i]) && made[i].entries.repr == {}
  {
    made := [];
    for i := 0 to |limits|
      invariant |made| == i && Fresh(made)
      invariant forall j :: 0 <= j < i ==> made[j].State() == Empty(limits[j]) && made[j].entries.repr == {}
    {
      var c := new Cache(limits[i]);
      made := made + [c];
    }
  }

  lemma {:induction false} ExportNext(shards: Shards, readings: seq<int>, i: nat)
    requires i < |shards| == |readings|
    ensures ExportEach(shards[i..], readings[i..]) ==
            CacheModel.ExportEntries(shards[i].entries, readings[i]) + ExportEach(shards[i + 1..], readings[i + 1..])
  {
    assert shards[i..][1..] == shards[i + 1..] && readings[i..][1..] == readings[i + 1..];
  }

  lemma {:induction false} ExportWhole(shards: Shards, readings: seq<int>)
    requires |readings| == |shards|
    ensures [] + ExportEach(shards[0..], readings[0..]) == ExportEach(shards, readings)
    ensures ExportEach(shards[|shards|..], readings[|shards|..]) == []
  {
    assert shards[0..] == shards && readings[0..] == readings;
  }

  /** The first `n` shards emptied, the others as they are. */
  ghost function Cleared(shards: Shards, n: nat): (r: Shards)
    requires n <= |shards|
    ensures |r| == |shards|
  {
    seq(|shards|, i requires 0 <= i < |shards| => if i < n then shards[i].(entries := []) else shards[i])
  }

  lemma ClearedAll(shards: Shards)
    ensures Cleared(shards, 0) == shards && Cleared(shards, |shards|) == ClearAll(shards)
  {
  }

  lemma ClearedNext(shards: Shards, n: nat)
    requires n < |shards|
    ensures Cleared(shards, n)[n] == shards[n]
    ensures Cleared(shards, n)[n := shards[n].(entries := [])] == Cleared(shards, n + 1)
  {
  }

  class ShardedCache {
    const hash: string -> nat
    const shards: seq<Cache>

    /** No two caches share a list or a node. */
    ghost predicate Separate()
      reads shards, set c | c in shards :: c.entries
    {
      forall i, j :: 0 <= i < j < |shards| ==>
        shards[i] != shards[j] && shards[i].entries != shards[j].entries &&
        shards[i].entries.repr !! shards[j].entries.repr
    }

    /** The list of caches that this one stands for. */
    ghost function View(): (v: Shards)
      reads shards, set c | c in shards :: c.entries
      ensures |v| == |shards| && forall i :: 0 <= i < |v| ==> v[i] == shards[i].State()
    {
      seq(|shards|, i reads shards, set c | c in shards :: c.entries requires 0 <= i < |shards| => shards[i].State())
    }

    ghost predicate Valid()
      reads shards, set c | c in shards :: c.entries, set c, n | c in shards && n in c.entries.repr :: n
    {
      && |shards| > 0 && Separate()
      && forall i :: 0 <= i < |shards| ==> shards[i].Valid()
    }

    ghost function Home(key: string): (c: Cache)
      requires |shards| > 0
      ensures c in shards
    {
      shards[ShardIndex(hash, |shards|, key)]
    }

    method ShardFor(key: string) returns (c: Cache, ghost i: nat)
      requires |shards| > 0
      ensures i == ShardIndex(hash, |shards|, key) && c == shards[i] == Home(key)
      ensures hash(key) < |shards| ==> c == shards[hash(key)]
    {
      c, i := shards[hash(key) % |shards|], hash(key) % |shards|;
    }

    /** Two keys are kept in the same cache exactly when the number of caches divides the
        difference of their hashes. */
    lemma SameHomeIff(a: string, b: string)
      requires |shards| > 0 && Separate()
      ensures Home(a) == Home(b) <==> Divides(|shards|, hash(a) - hash(b))
    {
      SameShardIff(hash, |shards|, a, b);
    }

    /** The nodes of all the caches. */
    ghost function Nodes(): set<object>
      reads shards, set c | c in shards :: c.entries
    {
      set c, n | c in shards && n in c.entries.repr :: n
    }

    /** Every node in use was in use before, or is new. */
    twostate predicate Grown()
      reads shards, set c | c in shards :: c.entries
    {
      forall n :: n in Nodes() ==> n in old(Nodes()) || fresh(n)
    }

    /** Once the caches other than `i` are known untouched, the whole is valid again. */
    twostate lemma Settled(i: nat)
      requires old(Valid()) && i < |shards|
      requires forall j :: 0 <= j < |shards| && j != i ==>
                 unchanged(shards[j]) && unchanged(shards[j].entries) && unchanged(old(shards[j].entries.repr))
      requires shards[i].Valid() && fresh(shards[i].entries.repr - old(shards[i].entries.repr))
      ensures Valid() && Grown() && View() == old(View())[i := shards[i].State()]
    {
    }

    constructor Unbounded(hash: string -> nat, requested: nat)
      ensures Valid() && this.hash == hash
      ensures View() == EmptyShards(Sharding.Unbounded(if requested == 0 then 1 else requested))
    {
      var limits := Sharding.Unbounded(if requested == 0 then 1 else requested);
      var made := MakeShards(limits);
      this.hash, shards := hash, made;
      new;
      assert View() == EmptyShards(limits);
    }

    /** Splits a total capacity over the shards, the first few taking the remainder. */
    constructor Bounded(hash: string -> nat, requested: nat, total: nat)
      ensures Valid() && this.hash == hash
      ensures View() == EmptyShards(Limits(Shares(total, ShardCount(requested, total), ShardCount(requested, total))))
    {
      var limits := PlanLimits(requested, total);
      var made := MakeShards(limits);
      this.hash, shards := hash, made;
      new;
      assert View() == EmptyShards(limits);
    }

    method Set(key: string, data: string, ghost now: int)
      requires Valid()
      modifies Home(key), Home(key).entries, Home(key).entries.repr
      ensures Valid() && Grown()
      ensures View() == ShardedStep(hash, old(View()), Op.Set(key, data), now).0
    {
      var c, i := ShardFor(key);
      c.Set(key, data, now);
      Settled(i);
    }

    method SetTtl(key: string, data: string, ttl: int, now: int)
      requires Valid()
      modifies Home(key), Home(key).entries, Home(key).entries.repr
      ensures Valid() && Grown()
      ensures View() == ShardedStep(hash, old(View()), Op.SetTtl(key, data, ttl), now).0
    {
      var c, i := ShardFor(key);
      c.SetTtl(key, data, ttl, now);
      Settled(i);
    }

    method Get(key: string, now: int) returns (r: Option<string>)
      requires Valid()
      modifies Home(key), Home(key).entries, Home(key).entries.repr
      ensures Valid() && Grown()
      ensures (View(), Value(r)) == ShardedStep(hash, old(View()), Op.Get(key), now)
    {
      var c, i := ShardFor(key);
      r := c.Get(key, now);
      Settled(i);
    }

    method GetInto(key: string, out: string, now: int) returns (found: bool, filled: string)
      requires Valid()
      modifies Home(key), Home(key).entries, Home(key).entries.repr
      ensures Valid() && Grown()
      ensures (View(), Into(found, filled)) == ShardedStep(hash, old(View()), Op.GetInto(key, out), now)
    {
      var c, i := ShardFor(key);
      found, filled := c.GetInto(key, out, now);
      Settled(i);
    }

    method Erase(key: string, now: int) returns (removed: bool)
      requires Valid()
      modifies Home(key), Home(key).entries, Home(key).entries.repr
      ensures Valid() && Grown()
      ensures (View(), Flag(removed)) == ShardedStep(hash, old(View()), Op.Erase(key), now)
    {
      var c, i := ShardFor(key);
      removed := c.Erase(key, now);
      Settled(i);
    }

    method Ttl(key: string, now: int) returns (info: TtlInfo)
      requires Valid()
      modifies Home(key), Home(key).entries, Home(key).entries.repr
      ensures Valid() && Grown()
      ensures (View(), Info(info)) == ShardedStep(hash, old(View()), Op.Ttl(key), now)
    {
      var c, i := ShardFor(key);
      info := c.Ttl(key, now);
      Settled(i);
    }

    method Contains(key: string, now: int) returns (found: bool)
      requires Valid()
      ensures (View(), Flag(found)) == ShardedStep(hash, View(), Op.Contains(key), now)
    {
      var c, i := ShardFor(key);
      found := c.Contains(key, now);
      assert View()[i := View()[i]] == View();
    }

    method ClearShard(i: nat)
      requires Valid() && i < |shards|
      modifies shards[i], shards[i].entries
      ensures Valid() && View() == old(View())[i := old(View())[i].(entries := [])]
    {
      shards[i].Clear();
      Settled(i);
    }

    method Clear()
      requires Valid()
      modifies shards, set c | c in shards :: c.entries
      ensures Valid() && View() == ClearAll(old(View()))
    {
      ghost var view := View();
      ClearedAll(view);
      for i := 0 to |shards|
        invariant Valid() && View() == Cleared(view, i)
      {
        ClearedNext(view, i);
        ClearShard(i);
      }
    }

    /** One shard after another; on a quiescent cache, the exact number of entries. */
    method Size() returns (total: nat)
      requires Valid()
      ensures total == Sum(Sizes(View()))
    {
      total := 0;
      ghost var sizes := Sizes(View());
      for i := 0 to |shards|
        invariant total == Sum(sizes[..i])
      {
        assert sizes[..i + 1][..i] == sizes[..i];
        var n := shards[i].Count();
        total := total + n;
      }
      assert sizes[..|shards|] == sizes;
    }

    /** One shard after another, each with its own reading of the clock. */
    method ExportEntries(readings: seq<int>) returns (all: seq<EntrySnapshot>)
      requires Valid() && |readings| == |shards|
      ensures all == ExportEach(View(), readings)
    {
      all := [];
      ghost var view := View();
      ExportWhole(view, readings);
      for i := 0 to |shards|
        invariant all + ExportEach(view[i..], readings[i..]) == ExportEach(view, readings)
      {
        var part := shards[i].ExportEntries(readings[i]);
        ExportNext(view, readings, i);
        Assoc(all, part, ExportEach(view[i + 1..], readings[i + 1..]));
        all := all + part;
      }
      assert all + [] == all;
    }
  }
}
