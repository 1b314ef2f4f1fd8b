/** The sharded cache as a value: a list of cache states, every key routed to one of
    them by an arbitrary hash. */
module Sharding {
  import opened Prelude
  import opened CacheModel
  import opened Runs
  import Inclusion
  import Expiry

  type Shards = seq<State>

  predicate Keyed(op: Op) {
    !op.Clear? && !op.Export?
  }

  function ShardIndex(hash: string -> nat, count: nat, key: string): (i: nat)
    requires count > 0
    ensures i < count
  {
    hash(key) % count
  }

  ghost predicate Divides(n: int, d: int) {
    exists q: int :: d == q * n
  }

  lemma SmallMultiple(n: int, q: int, d: int)
    requires n > 0 && d == q * n && 0 - n < d < n
    ensures d == 0
  {
  }

  lemma {:induction false} SameRemainder(x: int, y: int, n: int)
    requires n > 0
    ensures x % n == y % n <==> Divides(n, x - y)
  {
    var p, q, i, j := x / n, y / n, x % n, y % n;
    assert x == p * n + i && y == q * n + j;
    Distribute(p, q, n);
    if i == j {
      assert x - y == (p - q) * n;
    }
    if Divides(n, x - y) {
      var d: int :| x - y == d * n;
      Distribute(d, p - q, n);
      SmallMultiple(n, d - (p - q), i - j);
    }
  }

  lemma Distribute(a: int, b: int, n: int)
    ensures (a - b) * n == a * n - b * n
  {
  }

  /** Two keys share a shard if and only if the number of shards divides the difference of
      their hashes; a hash below that number is the number of its shard. */
  lemma {:induction false} SameShardIff(hash: string -> nat, count: nat, a: string, b: string)
    requires count > 0
    ensures ShardIndex(hash, count, a) == ShardIndex(hash, count, b) <==> Divides(count, hash(a) - hash(b))
    ensures hash(a) < count ==> ShardIndex(hash, count, a) == hash(a)
  {
    SameRemainder(hash(a), hash(b), count);
  }

  /** The entry under a key that can be read: resident in the key's own shard and not
      expired. */
  function Seen(hash: string -> nat, shards: Shards, key: string, now: int): Option<Entry>
    requires |shards| > 0
  {
    SeenIn(shards[ShardIndex(hash, |shards|, key)].entries, key, now)
  }

  function ClearAll(shards: Shards): (r: Shards)
    ensures |r| == |shards|
    ensures forall i :: 0 <= i < |shards| ==> r[i] == shards[i].(entries := [])
  {
    seq(|shards|, i requires 0 <= i < |shards| => shards[i].(entries := []))
  }

  /** The export of a quiescent cache; `readings[i]` is the clock read at shard `i`. */
  function ExportEach(shards: Shards, readings: seq<int>): seq<EntrySnapshot>
    requires |readings| == |shards|
  {
    if shards == [] then []
    else ExportEntries(shards[0].entries, readings[0]) + ExportEach(shards[1..], readings[1..])
  }

  function ShardedStep(hash: string -> nat, shards: Shards, op: Op, now: int): (r: (Shards, Answer))
    requires |shards| > 0
    ensures |r.0| == |shards|
  {
    if op.Clear? then (ClearAll(shards), Done)
    else if op.Export? then (shards, Entries(ExportEach(shards, seq(|shards|, i => now))))
    else
      var i := ShardIndex(hash, |shards|, op.key);
      var o := Step(shards[i], op, now);
      (shards[i := o.state], o.answer)
  }

  function ShardedRun(hash: string -> nat, shards: Shards, t: Trace): (r: Shards)
    requires |shards| > 0
    ensures |r| == |shards|
  {
    match t
    case Start => shards
    case Then(before, op, now) => ShardedStep(hash, ShardedRun(hash, shards, before), op, now).0
  }

  function EmptyShards(capacities: seq<Option<nat>>): (r: Shards)
    ensures |r| == |capacities|
    ensures forall i :: 0 <= i < |r| ==> r[i] == Empty(capacities[i])
  {
    seq(|capacities|, i requires 0 <= i < |capacities| => Empty(capacities[i]))
  }

  // ---- A sharded cache is a product of caches

  /** The operations of a run that reach shard `i`. */
  function Subtrace(hash: string -> nat, count: nat, t: Trace, i: nat): Trace
    requires count > 0
  {
    match t
    case Start => Start
    case Then(before, op, now) =>
      var rest := Subtrace(hash, count, before, i);
      if Keyed(op) && ShardIndex(hash, count, op.key) != i then rest else Then(rest, op, now)
  }

  /** Every shard runs as an independent cache on its own part of the run. */
  lemma {:induction false} ShardsIndependent(hash: string -> nat, shards: Shards, t: Trace, i: nat)
    requires i < |shards|
    ensures ShardedRun(hash, shards, t)[i] == Run(shards[i], Subtrace(hash, |shards|, t, i))
  {
    if t.Then? {
      ShardsIndependent(hash, shards, t.before, i);
    }
  }

  /** ... so an answer about a key is the answer of that key's own cache. */
  lemma {:induction false} AnswersIndependent(hash: string -> nat, shards: Shards, t: Trace, op: Op, now: int)
    requires |shards| > 0 && Keyed(op)
    ensures var i := ShardIndex(hash, |shards|, op.key);
            ShardedStep(hash, ShardedRun(hash, shards, t), op, now).1 ==
            Step(Run(shards[i], Subtrace(hash, |shards|, t, i)), op, now).answer
  {
    ShardsIndependent(hash, shards, t, ShardIndex(hash, |shards|, op.key));
  }

  ghost predicate Placed(hash: string -> nat, shards: Shards) {
    |shards| > 0 &&
    forall i :: 0 <= i < |shards| ==>
      forall e :: e in shards[i].entries ==> ShardIndex(hash, |shards|, e.key) == i
  }

  /** What one step can leave in a list: what was there, or an entry of the step's key. */
  lemma {:induction false} StepMembers(s: State, op: Op, now: int, e: Entry)
    requires Sane(s) && e in Step(s, op, now).state.entries
    ensures e in s.entries || (Keyed(op) && e.key == op.key)
  {
    StepShape(s, op, now);
    var c := ChangeOf(s, op, now);
    if c.Stored? {
      assert forall x :: x in Take(s.capacity, [c.e] + Without(s.entries, c.e.key)) ==>
               x in [c.e] + Without(s.entries, c.e.key);
    }
  }

  lemma {:induction false} StepPlaced(hash: string -> nat, shards: Shards, op: Op, now: int)
    requires Placed(hash, shards) && forall i :: 0 <= i < |shards| ==> Sane(shards[i])
    ensures Placed(hash, ShardedStep(hash, shards, op, now).0)
    ensures forall i :: 0 <= i < |shards| ==> Sane(ShardedStep(hash, shards, op, now).0[i])
    ensures forall i :: 0 <= i < |shards| ==>
              ShardedStep(hash, shards, op, now).0[i].capacity == shards[i].capacity
  {
    if Keyed(op) {
      var j := ShardIndex(hash, |shards|, op.key);
      StepSane(shards[j], op, now);
      forall e | e in Step(shards[j], op, now).state.entries ensures ShardIndex(hash, |shards|, e.key) == j {
        StepMembers(shards[j], op, now, e);
      }
    }
  }

  /** In every reachable state each key lives only in its own shard. */
  lemma {:induction false} KeysStayHome(hash: string -> nat, capacities: seq<Option<nat>>, t: Trace)
    requires |capacities| > 0
    ensures Placed(hash, ShardedRun(hash, EmptyShards(capacities), t))
    ensures forall i :: 0 <= i < |capacities| ==>
              Sane(ShardedRun(hash, EmptyShards(capacities), t)[i]) &&
              ShardedRun(hash, EmptyShards(capacities), t)[i].capacity == capacities[i]
  {
    if t.Then? {
      KeysStayHome(hash, capacities, t.before);
      StepPlaced(hash, ShardedRun(hash, EmptyShards(capacities), t.before), t.op, t.now);
    }
  }

  // ---- Unbounded shards are one flat cache

  function Unbounded(count: nat): (r: seq<Option<nat>>)
    ensures |r| == count
    ensures forall i :: 0 <= i < count ==> r[i] == None
  {
    seq(count, i => None)
  }

  /** The same entry is found under every key, whether sharded or flat. */
  ghost predicate SameLookups(hash: string -> nat, shards: Shards, flat: State)
    requires |shards| > 0
  {
    forall k :: Find(shards[ShardIndex(hash, |shards|, k)].entries, k) == Find(flat.entries, k)
  }

  /** A single-key step depends only on what is found under its key. */
  lemma SameChange(s: State, f: State, op: Op, now: int)
    requires Keyed(op) && Find(s.entries, op.key) == Find(f.entries, op.key)
    ensures ChangeOf(s, op, now) == ChangeOf(f, op, now)
    ensures Step(s, op, now).answer == Step(f, op, now).answer
  {
  }

  lemma {:induction false} FlatStep(hash: string -> nat, shards: Shards, flat: State, op: Op, now: int)
    requires |shards| > 0 && SameLookups(hash, shards, flat)
    requires DistinctKeys(flat.entries) && flat.capacity.None?
    requires forall i :: 0 <= i < |shards| ==> DistinctKeys(shards[i].entries) && shards[i].capacity.None?
    ensures SameLookups(hash, ShardedStep(hash, shards, op, now).0, Step(flat, op, now).state)
    ensures Keyed(op) ==> ShardedStep(hash, shards, op, now).1 == Step(flat, op, now).answer
  {
    var shards' := ShardedStep(hash, shards, op, now).0;
    forall k
      ensures Find(shards'[ShardIndex(hash, |shards|, k)].entries, k) == Find(Step(flat, op, now).state.entries, k)
    {
      FlatLookup(hash, shards, flat, op, now, k);
    }
    if Keyed(op) {
      SameChange(shards[ShardIndex(hash, |shards|, op.key)], flat, op, now);
    }
  }

  /** A single-key step touches no other key. */
  lemma ChangeKey(s: State, op: Op, now: int)
    requires Keyed(op)
    ensures var c := ChangeOf(s, op, now);
            (c.Removed? ==> c.key == op.key) && (c.Stored? ==> c.e.key == op.key) && !c.Emptied?
  {
  }

  lemma {:induction false} FlatLookup(hash: string -> nat, shards: Shards, flat: State, op: Op, now: int, k: string)
    requires |shards| > 0 && SameLookups(hash, shards, flat)
    requires DistinctKeys(flat.entries) && flat.capacity.None?
    requires forall i :: 0 <= i < |shards| ==> DistinctKeys(shards[i].entries) && shards[i].capacity.None?
    ensures Find(ShardedStep(hash, shards, op, now).0[ShardIndex(hash, |shards|, k)].entries, k) ==
            Find(Step(flat, op, now).state.entries, k)
  {
    StepLookup(flat, op, now, k);
    assert Find(shards[ShardIndex(hash, |shards|, k)].entries, k) == Find(flat.entries, k);
    if Keyed(op) {
      var j := ShardIndex(hash, |shards|, op.key);
      SameChange(shards[j], flat, op, now);
      StepLookup(shards[j], op, now, k);
      assert !(k == op.key) || ShardIndex(hash, |shards|, k) == j;
      ChangeKey(flat, op, now);
    }
  }

  /** For any hash and shard count, an unbounded sharded cache answers every single-key
      operation of every run exactly as one unsharded cache does. */
  lemma {:induction false} UnboundedIsFlat(hash: string -> nat, count: nat, t: Trace, op: Op, now: int)
    requires count > 0
    ensures SameLookups(hash, ShardedRun(hash, EmptyShards(Unbounded(count)), t), Run(Empty(None), t))
    ensures Keyed(op) ==>
              ShardedStep(hash, ShardedRun(hash, EmptyShards(Unbounded(count)), t), op, now).1 ==
              Step(Run(Empty(None), t), op, now).answer
  {
    if t.Then? {
      UnboundedIsFlat(hash, count, t.before, t.op, t.now);
      UnboundedFlatStep(hash, count, t.before, t.op, t.now);
    }
    UnboundedFlatStep(hash, count, t, op, now);
  }

  lemma {:induction false} UnboundedFlatStep(hash: string -> nat, count: nat, t: Trace, op: Op, now: int)
    requires count > 0
    requires SameLookups(hash, ShardedRun(hash, EmptyShards(Unbounded(count)), t), Run(Empty(None), t))
    ensures var shards, flat := ShardedRun(hash, EmptyShards(Unbounded(count)), t), Run(Empty(None), t);
            && SameLookups(hash, ShardedStep(hash, shards, op, now).0, Step(flat, op, now).state)
            && (Keyed(op) ==> ShardedStep(hash, shards, op, now).1 == Step(flat, op, now).answer)
  {
    KeysStayHome(hash, Unbounded(count), t);
    RunSane(Empty(None), t);
    FlatStep(hash, ShardedRun(hash, EmptyShards(Unbounded(count)), t), Run(Empty(None), t), op, now);
  }

  /** The cache is sound: whatever the hash, the shard count and the capacities, every
      answer about a key is a miss or exactly what a plain map with deadlines answers,
      and never a false miss while the key's shard has evicted nothing. */
  lemma {:induction false} ShardedCacheIsSound(hash: string -> nat, capacities: seq<Option<nat>>, t: Trace, op: Op,
                                               now: int, floor: int)
    returns (ideal: Answer)
    requires |capacities| > 0 && Keyed(op) && Monotone(Then(t, op, now), floor)
    ensures Inclusion.AnswerBelow(ShardedStep(hash, ShardedRun(hash, EmptyShards(capacities), t), op, now).1, ideal)
    ensures Expiry.MapAnswers(Expiry.MapRun(t), op, now, ideal)
    ensures var shards := ShardedRun(hash, EmptyShards(capacities), t);
            shards[ShardIndex(hash, |capacities|, op.key)].evictions == 0 ==>
              ShardedStep(hash, shards, op, now).1 == ideal
  {
    var n := |capacities|;
    var i := ShardIndex(hash, n, op.key);
    ideal := Step(Run(Empty(None), t), op, now).answer;
    AnswersIndependent(hash, EmptyShards(capacities), t, op, now);
    Inclusion.CapacityInclusion(capacities[i], None, Subtrace(hash, n, t, i), op, now);
    AnswersIndependent(hash, EmptyShards(Unbounded(n)), t, op, now);
    UnboundedIsFlat(hash, n, t, op, now);
    Expiry.LazyExpiryInvisible(t, op, now, floor);
    ShardsIndependent(hash, EmptyShards(capacities), t, i);
    if Run(Empty(capacities[i]), Subtrace(hash, n, t, i)).evictions == 0 {
      Inclusion.NoEvictionNoLoss(capacities[i], Subtrace(hash, n, t, i), op, now);
    }
  }

  // ---- Splitting a total capacity

  function Sum(xs: seq<nat>): nat {
    if xs == [] then 0 else Sum(xs[..|xs| - 1]) + xs[|xs| - 1]
  }

  /** The number of shards actually made: never more than the capacity can feed. */
  function ShardCount(requested: nat, total: nat): nat {
    var count := if requested == 0 then 1 else requested;
    if total < count then (if total > 1 then total else 1) else count
  }

  function Share(total: nat, count: nat, i: nat): nat
    requires count > 0
  {
    total / count + if i < total % count then 1 else 0
  }

  function Shares(total: nat, count: nat, n: nat): (r: seq<nat>)
    requires count > 0
    ensures |r| == n
    ensures forall i :: 0 <= i < n ==> r[i] == Share(total, count, i)
  {
    seq(n, i requires i >= 0 => Share(total, count, i))
  }

  lemma {:induction false} SharesSum(total: nat, count: nat, n: nat)
    requires 0 < count && n <= count
    ensures Sum(Shares(total, count, n)) == (total / count) * n + if n < total % count then n else total % count
  {
    if n > 0 {
      SharesSum(total, count, n - 1);
      var xs := Shares(total, count, n);
      assert xs[..n - 1] == Shares(total, count, n - 1);
      assert (total / count) * n == (total / count) * (n - 1) + total / count;
    }
  }

  /** The shard capacities sum to exactly the total, differ by at most one, and none is
      zero unless the total is: then there is one shard, of capacity zero. The first shards
      take the remainder, and there are as many shards as were asked for and can be fed. */
  lemma {:induction false} CapacitySplit(requested: nat, total: nat)
    ensures var n := ShardCount(requested, total);
            && n >= 1
            && Sum(Shares(total, n, n)) == total
            && (forall i, j :: 0 <= i < n && 0 <= j < n ==> Share(total, n, i) <= Share(total, n, j) + 1)
            && (total > 0 ==> forall i :: 0 <= i < n ==> Share(total, n, i) >= 1)
            && (total == 0 ==> n == 1)
            && (forall i, j :: 0 <= i <= j < n ==> Share(total, n, j) <= Share(total, n, i))
            && (requested > 0 ==> n <= requested)
            && (requested <= n || total <= n)
  {
    var n := ShardCount(requested, total);
    SharesSum(total, n, n);
    if total > 0 {
      assert total / n >= 1;
    }
  }

  // ---- Counting keys

  function Sizes(shards: Shards): (r: seq<nat>)
    ensures |r| == |shards|
  {
    seq(|shards|, i requires 0 <= i < |shards| => |shards[i].entries|)
  }

  ghost function KeysOf(es: seq<Entry>): set<string> {
    set e | e in es :: e.key
  }

  /** The keys resident in any shard. */
  ghost function ResidentKeys(shards: Shards): set<string> {
    set i, e | 0 <= i < |shards| && e in shards[i].entries :: e.key
  }

  lemma {:induction false} KeysCount(es: seq<Entry>)
    requires DistinctKeys(es)
    ensures |KeysOf(es)| == |es|
  {
    if es != [] {
      KeysCount(es[1..]);
      assert KeysOf(es) == {es[0].key} + KeysOf(es[1..]);
    }
  }

  /** No key is resident twice. */
  ghost predicate Disjoint(shards: Shards) {
    && (forall i :: 0 <= i < |shards| ==> DistinctKeys(shards[i].entries))
    && (forall i, j :: 0 <= i < j < |shards| ==> KeysOf(shards[i].entries) !! KeysOf(shards[j].entries))
  }

  lemma {:induction false} LastShard(shards: Shards)
    requires shards != [] && Disjoint(shards)
    ensures var n := |shards| - 1;
            && Disjoint(shards[..n]) && Sizes(shards)[..n] == Sizes(shards[..n])
            && ResidentKeys(shards) == ResidentKeys(shards[..n]) + KeysOf(shards[n].entries)
            && ResidentKeys(shards[..n]) !! KeysOf(shards[n].entries)
  {
    var n := |shards| - 1;
    forall i, e | 0 <= i < n && e in shards[i].entries ensures e.key !in KeysOf(shards[n].entries) {
      assert e.key in KeysOf(shards[i].entries);
    }
    forall i, e | 0 <= i < |shards| && e in shards[i].entries
      ensures e.key in ResidentKeys(shards[..n]) + KeysOf(shards[n].entries)
    {
      if i < n {
        assert e in shards[..n][i].entries;
      }
    }
  }

  lemma {:induction false} SizesCount(shards: Shards)
    requires Disjoint(shards)
    ensures Sum(Sizes(shards)) == |ResidentKeys(shards)|
  {
    if shards == [] {
      assert ResidentKeys(shards) == {};
    } else {
      var front, last := shards[..|shards| - 1], shards[|shards| - 1];
      LastShard(shards);
      SizesCount(front);
      KeysCount(last.entries);
      CountTogether(ResidentKeys(front), KeysOf(last.entries));
      SumLast(Sizes(shards));
    }
  }

  lemma CountTogether(a: set<string>, b: set<string>)
    requires a !! b
    ensures |a + b| == |a| + |b|
  {
  }

  lemma SumLast(xs: seq<nat>)
    requires xs != []
    ensures Sum(xs) == Sum(xs[..|xs| - 1]) + xs[|xs| - 1]
  {
  }

  /** With every key in its own shard, the shard sizes add up to the number of keys. */
  lemma {:induction false} SizeCountsKeys(hash: string -> nat, shards: Shards)
    requires Placed(hash, shards) && forall i :: 0 <= i < |shards| ==> DistinctKeys(shards[i].entries)
    ensures Sum(Sizes(shards)) == |ResidentKeys(shards)|
  {
    SizesCount(shards);
  }
}
