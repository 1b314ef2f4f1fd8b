/** The scans that visit shards one at a time while other clients keep working:
    `export_entries` and `size`. Every shard operation is one atomic step. */
module Scan {
  import opened Prelude
  import opened CacheModel
  import opened Runs
  import opened Sharding

  /** A client's operation on one shard, or the scan's visit to its next shard. */
  datatype Event = Client(shard: nat, op: Op, now: int) | Visit(now: int)

  datatype Script = Begin | And(before: Script, event: Event)

  /** The shards, how many the scan has visited, and what it has gathered. */
  datatype Progress = Progress(shards: Shards, visited: nat, out: seq<EntrySnapshot>, total: nat)

  /** A client reaches the shard its key is routed to; a clear reaches one at a time. */
  predicate Allowed(hash: string -> nat, p: Progress, e: Event) {
    |p.shards| > 0 &&
    match e
    case Client(shard, op, _) =>
      shard < |p.shards| && (Keyed(op) ==> ShardIndex(hash, |p.shards|, op.key) == shard)
    case Visit(_) => p.visited < |p.shards|
  }

  function Advance(hash: string -> nat, p: Progress, e: Event): Progress
    requires Allowed(hash, p, e)
  {
    match e
    case Client(shard, op, now) => p.(shards := p.shards[shard := Step(p.shards[shard], op, now).state])
    case Visit(now) =>
      var s := p.shards[p.visited];
      Progress(p.shards, p.visited + 1, p.out + ExportEntries(s.entries, now), p.total + |s.entries|)
  }

  predicate Possible(hash: string -> nat, shards: Shards, c: Script)
    decreases c, 0
  {
    match c
    case Begin => |shards| > 0
    case And(before, e) => Possible(hash, shards, before) && Allowed(hash, Reached(hash, shards, before), e)
  }

  function Reached(hash: string -> nat, shards: Shards, c: Script): (p: Progress)
    requires Possible(hash, shards, c)
    ensures |p.shards| == |shards| > 0
    decreases c, 1
  {
    match c
    case Begin => Progress(shards, 0, [], 0)
    case And(before, e) => Advance(hash, Reached(hash, shards, before), e)
  }

  // ---- The shards stay well formed

  ghost predicate Good(hash: string -> nat, shards: Shards) {
    Placed(hash, shards) && forall i :: 0 <= i < |shards| ==> Sane(shards[i])
  }

  lemma {:induction false} ClientGood(hash: string -> nat, shards: Shards, i: nat, op: Op, now: int)
    requires Good(hash, shards) && i < |shards|
    requires Keyed(op) ==> ShardIndex(hash, |shards|, op.key) == i
    ensures Good(hash, shards[i := Step(shards[i], op, now).state])
    ensures Step(shards[i], op, now).state.capacity == shards[i].capacity
  {
    StepSane(shards[i], op, now);
    forall e | e in Step(shards[i], op, now).state.entries ensures ShardIndex(hash, |shards|, e.key) == i {
      StepMembers(shards[i], op, now, e);
    }
  }

  lemma {:induction false} ReachedGood(hash: string -> nat, shards: Shards, c: Script)
    requires Possible(hash, shards, c) && Good(hash, shards)
    ensures var p := Reached(hash, shards, c);
            && Good(hash, p.shards) && p.visited <= |shards|
            && forall i :: 0 <= i < |shards| ==> p.shards[i].capacity == shards[i].capacity
  {
    if c.And? {
      ReachedGood(hash, shards, c.before);
      if c.event.Client? {
        ClientGood(hash, Reached(hash, shards, c.before).shards, c.event.shard, c.event.op, c.event.now);
      }
    }
  }

  // ---- Every record has an origin, and no key two

  predicate Prefix(c: Script, d: Script) {
    c == d || (d.And? && Prefix(c, d.before))
  }

  lemma {:induction false} ExportOrigin(es: seq<Entry>, now: int, r: EntrySnapshot) returns (e: Entry)
    requires r in ExportEntries(es, now)
    ensures e in es && !Expired(e, now) && r == SnapshotOf(e, now)
  {
    ExportLive(es, now);
    var i :| 0 <= i < |Live(es, now)| && r == SnapshotOf(Live(es, now)[i], now);
    e := Live(es, now)[i];
    assert e in Live(es, now);
  }

  /** Each gathered record is an entry that was resident and live in its key's own shard
      at the moment the scan visited that shard. */
  lemma {:induction false} RecordOrigin(hash: string -> nat, shards: Shards, c: Script, r: EntrySnapshot)
    returns (at: Script, now: int, e: Entry)
    requires Possible(hash, shards, c) && Good(hash, shards)
    requires r in Reached(hash, shards, c).out
    ensures Prefix(And(at, Visit(now)), c)
    ensures Possible(hash, shards, at)
    ensures var p := Reached(hash, shards, at);
            && p.visited == ShardIndex(hash, |shards|, r.key)
            && p.visited < Reached(hash, shards, c).visited
            && e in p.shards[p.visited].entries && !Expired(e, now) && r == SnapshotOf(e, now)
  {
    ReachedGood(hash, shards, c.before);
    var p := Reached(hash, shards, c.before);
    if c.event.Client? || r in p.out {
      at, now, e := RecordOrigin(hash, shards, c.before, r);
    } else {
      at, now := c.before, c.event.now;
      e := ExportOrigin(p.shards[p.visited].entries, now, r);
    }
  }

  predicate DistinctRecords(out: seq<EntrySnapshot>) {
    forall i, j :: 0 <= i < j < |out| ==> out[i].key != out[j].key
  }

  /** Whatever other clients do meanwhile, no key appears twice. */
  lemma {:induction false} NoKeyTwice(hash: string -> nat, shards: Shards, c: Script)
    requires Possible(hash, shards, c) && Good(hash, shards)
    ensures DistinctRecords(Reached(hash, shards, c).out)
  {
    if c.And? {
      NoKeyTwice(hash, shards, c.before);
      if c.event.Visit? {
        var p := Reached(hash, shards, c.before);
        ReachedGood(hash, shards, c.before);
        var part := ExportEntries(p.shards[p.visited].entries, c.event.now);
        PartDistinct(p.shards[p.visited].entries, c.event.now);
        forall r, q | r in p.out && q in part ensures r.key != q.key {
          var _, _, _ := RecordOrigin(hash, shards, c.before, r);
          var e := ExportOrigin(p.shards[p.visited].entries, c.event.now, q);
        }
      }
    }
  }

  lemma {:induction false} PartDistinct(es: seq<Entry>, now: int)
    requires DistinctKeys(es)
    ensures DistinctRecords(ExportEntries(es, now))
  {
    ExportLive(es, now);
    KeepDistinct(es, LiveAt(now));
  }

  // ---- A key left alone is exported

  predicate Writes(op: Op, key: string) {
    (op.Set? || op.SetTtl?) && op.key == key
  }

  predicate Unwritten(c: Script, key: string) {
    match c
    case Begin => true
    case And(before, e) => Unwritten(before, key) && (e.Client? ==> !Writes(e.op, key))
  }

  /** The clock readings of the whole script do not exceed `last`. */
  predicate ReadBy(c: Script, last: int) {
    match c
    case Begin => true
    case And(before, e) => ReadBy(before, last) && e.now <= last
  }

  /** What an operation leaves under a key it does not write was there before. */
  lemma {:induction false} FoundBefore(s: State, op: Op, now: int, key: string)
    requires Sane(s) && !Writes(op, key)
    ensures var r := Find(Step(s, op, now).state.entries, key);
            r.Some? ==> Find(s.entries, key) == r
  {
    StepShape(s, op, now);
    StepSane(s, op, now);
    var es := Step(s, op, now).state.entries;
    var r := Find(es, key);
    if r.Some? {
      StillThere(s, op, now, r.value);
      var i :| 0 <= i < |s.entries| && s.entries[i] == r.value;
      FindIndex(s.entries, i);
    }
  }

  lemma {:induction false} StillThere(s: State, op: Op, now: int, e: Entry)
    requires Sane(s) && !Writes(op, e.key) && e in Step(s, op, now).state.entries
    ensures e in s.entries
  {
    StepShape(s, op, now);
    var c := ChangeOf(s, op, now);
    if c.Stored? {
      assert forall x :: x in Take(s.capacity, [c.e] + Without(s.entries, c.e.key)) ==>
               x in [c.e] + Without(s.entries, c.e.key);
    }
  }

  lemma {:induction false} ResidentBefore(hash: string -> nat, shards: Shards, c: Script, key: string, e: Entry)
    requires Possible(hash, shards, c) && Good(hash, shards) && Unwritten(c, key)
    requires Find(Reached(hash, shards, c).shards[ShardIndex(hash, |shards|, key)].entries, key) == Some(e)
    ensures c.And? ==>
              Find(Reached(hash, shards, c.before).shards[ShardIndex(hash, |shards|, key)].entries, key) == Some(e)
  {
    if c.And? && c.event.Client? {
      ReachedGood(hash, shards, c.before);
      FoundBefore(Reached(hash, shards, c.before).shards[c.event.shard], c.event.op, c.event.now, key);
    }
  }

  /** A key that no client writes during the scan, and that is resident at some moment of it,
      was resident, with the same value and deadline, at every earlier moment. */
  lemma {:induction false} ResidentThroughout(hash: string -> nat, shards: Shards, c: Script, d: Script, key: string,
                                              e: Entry)
    requires Possible(hash, shards, c) && Good(hash, shards) && Unwritten(c, key) && Prefix(d, c)
    requires Find(Reached(hash, shards, c).shards[ShardIndex(hash, |shards|, key)].entries, key) == Some(e)
    ensures Possible(hash, shards, d)
    ensures Find(Reached(hash, shards, d).shards[ShardIndex(hash, |shards|, key)].entries, key) == Some(e)
    decreases c
  {
    if d != c {
      ResidentBefore(hash, shards, c, key, e);
      ResidentThroughout(hash, shards, c.before, d, key, e);
    }
  }

  lemma {:induction false} ExportHas(es: seq<Entry>, now: int, e: Entry)
    requires e in es && !Expired(e, now)
    ensures SnapshotOf(e, now) in ExportEntries(es, now)
  {
    ExportLive(es, now);
    var i :| 0 <= i < |Live(es, now)| && Live(es, now)[i] == e;
    assert ExportEntries(es, now)[i] == SnapshotOf(e, now);
  }

  lemma {:induction false} UntouchedIsGathered(hash: string -> nat, shards: Shards, c: Script, key: string, e: Entry,
                                               last: int)
    returns (now: int)
    requires Possible(hash, shards, c) && Good(hash, shards) && Unwritten(c, key) && ReadBy(c, last)
    requires Find(Reached(hash, shards, c).shards[ShardIndex(hash, |shards|, key)].entries, key) == Some(e)
    requires !Expired(e, last)
    requires Reached(hash, shards, c).visited > ShardIndex(hash, |shards|, key)
    ensures now <= last && SnapshotOf(e, now) in Reached(hash, shards, c).out
  {
    ReachedGood(hash, shards, c.before);
    ResidentBefore(hash, shards, c, key, e);
    var p := Reached(hash, shards, c.before);
    if p.visited > ShardIndex(hash, |shards|, key) {
      now := UntouchedIsGathered(hash, shards, c.before, key, e, last);
    } else {
      now := c.event.now;
      ExportHas(p.shards[p.visited].entries, now, e);
    }
  }

  /** A key that is neither written nor lost nor expired while the scan runs appears in
      the finished scan exactly once, with its value. */
  lemma {:induction false} UntouchedAppearsOnce(hash: string -> nat, shards: Shards, c: Script, key: string,
                                                e: Entry, last: int)
    requires Possible(hash, shards, c) && Good(hash, shards) && Unwritten(c, key) && ReadBy(c, last)
    requires Find(Reached(hash, shards, c).shards[ShardIndex(hash, |shards|, key)].entries, key) == Some(e)
    requires !Expired(e, last) && Reached(hash, shards, c).visited == |shards|
    ensures var out := Reached(hash, shards, c).out;
            exists i :: 0 <= i < |out| && out[i].key == key && out[i].value == e.value &&
              forall j :: 0 <= j < |out| && out[j].key == key ==> j == i
  {
    var out := Reached(hash, shards, c).out;
    var now := UntouchedIsGathered(hash, shards, c, key, e, last);
    NoKeyTwice(hash, shards, c);
    var i :| 0 <= i < |out| && out[i] == SnapshotOf(e, now);
  }

  // ---- The scanned size never exceeds the capacity

  function Capacities(shards: Shards, n: nat): seq<nat>
    requires n <= |shards| && forall i :: 0 <= i < |shards| ==> shards[i].capacity.Some?
  {
    seq(n, i requires 0 <= i < n => shards[i].capacity.value)
  }

  lemma {:induction false} CapacitiesNext(shards: Shards, n: nat)
    requires n < |shards| && forall i :: 0 <= i < |shards| ==> shards[i].capacity.Some?
    ensures Sum(Capacities(shards, n + 1)) == Sum(Capacities(shards, n)) + shards[n].capacity.value
  {
    assert Capacities(shards, n + 1)[..n] == Capacities(shards, n);
  }

  /** One more shard visited adds no more than its capacity. */
  lemma {:induction false} VisitWithin(hash: string -> nat, shards: Shards, p: Progress, now: int)
    requires Good(hash, p.shards) && |p.shards| == |shards| && p.visited < |shards|
    requires forall i :: 0 <= i < |shards| ==> shards[i].capacity.Some? && p.shards[i].capacity == shards[i].capacity
    requires |p.out| <= p.total <= Sum(Capacities(shards, p.visited))
    ensures var q := Advance(hash, p, Visit(now)); |q.out| <= q.total <= Sum(Capacities(shards, q.visited))
  {
    assert Sane(p.shards[p.visited]);
    ExportLive(p.shards[p.visited].entries, now);
    CapacitiesNext(shards, p.visited);
  }

  /** Under any interleaving the one-shard-at-a-time size reports no more than the
      capacity of the shards it has visited, and the export holds no more records. */
  lemma {:induction false} SizeWithinCapacity(hash: string -> nat, shards: Shards, c: Script)
    requires Possible(hash, shards, c) && Good(hash, shards)
    requires forall i :: 0 <= i < |shards| ==> shards[i].capacity.Some?
    ensures var p := Reached(hash, shards, c);
            p.visited <= |shards| && |p.out| <= p.total <= Sum(Capacities(shards, p.visited))
  {
    if c.And? {
      SizeWithinCapacity(hash, shards, c.before);
      ReachedGood(hash, shards, c.before);
      if c.event.Visit? {
        VisitWithin(hash, shards, Reached(hash, shards, c.before), c.event.now);
      }
    }
  }

  lemma {:induction false} SumPrefix(xs: seq<nat>, n: nat)
    requires n <= |xs|
    ensures Sum(xs[..n]) <= Sum(xs)
    decreases |xs|
  {
    if n == |xs| {
      assert xs[..n] == xs;
    } else {
      SumPrefix(xs[..|xs| - 1], n);
      assert xs[..|xs| - 1][..n] == xs[..n];
    }
  }

  /** ... and so never more than the total the cache was made with, whatever number of shards
      was asked for. */
  lemma {:induction false} SizeWithinTotal(hash: string -> nat, shards: Shards, c: Script, requested: nat, total: nat)
    requires Possible(hash, shards, c) && Good(hash, shards) && |shards| == ShardCount(requested, total)
    requires forall i :: 0 <= i < |shards| ==> shards[i].capacity == Some(Share(total, |shards|, i))
    ensures var p := Reached(hash, shards, c); |p.out| <= p.total <= total
  {
    var n, p := |shards|, Reached(hash, shards, c);
    SizeWithinCapacity(hash, shards, c);
    CapacitySplit(requested, total);
    assert Capacities(shards, p.visited) == Shares(total, n, n)[..p.visited];
    SumPrefix(Shares(total, n, n), p.visited);
  }

  // ---- A scan beside other clients is a scan of a cache at rest

  /** Each shard as it was when the scan visited it. */
  function SeenShards(hash: string -> nat, shards: Shards, c: Script): (seen: Shards)
    requires Possible(hash, shards, c)
    ensures |seen| == Reached(hash, shards, c).visited
  {
    match c
    case Begin => []
    case And(before, Client(_, _, _)) => SeenShards(hash, shards, before)
    case And(before, Visit(_)) =>
      var p := Reached(hash, shards, before);
      SeenShards(hash, shards, before) + [p.shards[p.visited]]
  }

  /** The clock readings of those visits. */
  function SeenTimes(c: Script): seq<int> {
    match c
    case Begin => []
    case And(before, Client(_, _, _)) => SeenTimes(before)
    case And(before, Visit(now)) => SeenTimes(before) + [now]
  }

  lemma {:induction false} ExportSnoc(shards: Shards, readings: seq<int>, s: State, now: int)
    requires |shards| == |readings|
    ensures ExportEach(shards + [s], readings + [now]) == ExportEach(shards, readings) + ExportEntries(s.entries, now)
  {
    if shards == [] {
      assert ([] + [s])[1..] == [] && ([] + [now])[1..] == [];
      assert ExportEntries(s.entries, now) + [] == ExportEntries(s.entries, now);
    } else {
      assert (shards + [s])[1..] == shards[1..] + [s] && (readings + [now])[1..] == readings[1..] + [now];
      ExportSnoc(shards[1..], readings[1..], s, now);
      Assoc(ExportEntries(shards[0].entries, readings[0]), ExportEach(shards[1..], readings[1..]),
            ExportEntries(s.entries, now));
    }
  }

  /** Shards as they can be in a cache of this layout. */
  ghost predicate SeenGood(hash: string -> nat, shards: Shards, seen: Shards) {
    |seen| <= |shards| && forall i :: 0 <= i < |seen| ==> OneGood(hash, shards, i, seen[i])
  }

  ghost predicate OneGood(hash: string -> nat, shards: Shards, i: nat, s: State)
    requires i < |shards|
  {
    && Sane(s) && s.capacity == shards[i].capacity
    && forall e :: e in s.entries ==> ShardIndex(hash, |shards|, e.key) == i
  }

  lemma {:induction false} VisitedGood(hash: string -> nat, shards: Shards, c: Script, i: nat)
    requires Possible(hash, shards, c) && Good(hash, shards) && i < |shards|
    ensures OneGood(hash, shards, i, Reached(hash, shards, c).shards[i])
  {
    ReachedGood(hash, shards, c);
    assert Sane(Reached(hash, shards, c).shards[i]);
  }

  lemma {:induction false} SeenSnoc(hash: string -> nat, shards: Shards, seen: Shards, s: State)
    requires SeenGood(hash, shards, seen) && |seen| < |shards| && OneGood(hash, shards, |seen|, s)
    ensures SeenGood(hash, shards, seen + [s])
  {
  }

  /** What a scan gathers while other clients work is what it would gather of a cache at
      rest: the one whose shards are those it saw, each key in its own shard and each shard
      within its capacity. */
  lemma {:induction false} ScanIsExport(hash: string -> nat, shards: Shards, c: Script)
    requires Possible(hash, shards, c) && Good(hash, shards)
    ensures var seen := SeenShards(hash, shards, c);
            && |SeenTimes(c)| == |seen| && SeenGood(hash, shards, seen)
            && Reached(hash, shards, c).out == ExportEach(seen, SeenTimes(c))
  {
    if c.And? {
      ScanIsExport(hash, shards, c.before);
      if c.event.Visit? {
        var p := Reached(hash, shards, c.before);
        VisitedGood(hash, shards, c.before, p.visited);
        SeenSnoc(hash, shards, SeenShards(hash, shards, c.before), p.shards[p.visited]);
        ExportSnoc(SeenShards(hash, shards, c.before), SeenTimes(c.before), p.shards[p.visited], c.event.now);
      }
    }
  }

  /** A finished scan has seen a well-formed cache of the same layout. */
  lemma {:induction false} FinishedScan(hash: string -> nat, shards: Shards, c: Script)
    requires Possible(hash, shards, c) && Good(hash, shards) && Reached(hash, shards, c).visited == |shards|
    ensures var seen := SeenShards(hash, shards, c);
            && |seen| == |SeenTimes(c)| == |shards| && Good(hash, seen)
            && Reached(hash, shards, c).out == ExportEach(seen, SeenTimes(c))
            && forall i :: 0 <= i < |seen| ==> seen[i].capacity == shards[i].capacity
  {
    ScanIsExport(hash, shards, c);
    SeenIsGood(hash, shards, SeenShards(hash, shards, c));
  }

  lemma {:induction false} SeenIsGood(hash: string -> nat, shards: Shards, seen: Shards)
    requires |shards| > 0 && SeenGood(hash, shards, seen) && |seen| == |shards|
    ensures Good(hash, seen) && forall i :: 0 <= i < |seen| ==> seen[i].capacity == shards[i].capacity
  {
    assert forall i :: 0 <= i < |seen| ==> OneGood(hash, shards, i, seen[i]);
  }

  /** The size a finished scan reports is the number of keys in the shards as it saw them. */
  lemma {:induction false} ScannedSize(hash: string -> nat, shards: Shards, c: Script)
    requires Possible(hash, shards, c) && Good(hash, shards) && Reached(hash, shards, c).visited == |shards|
    ensures Reached(hash, shards, c).total == |ResidentKeys(SeenShards(hash, shards, c))|
  {
    SeenSizes(hash, shards, c);
    FinishedScan(hash, shards, c);
    var seen := SeenShards(hash, shards, c);
    assert forall i :: 0 <= i < |seen| ==> Sane(seen[i]);
    SizeCountsKeys(hash, seen);
  }

  lemma {:induction false} SeenSizes(hash: string -> nat, shards: Shards, c: Script)
    requires Possible(hash, shards, c)
    ensures Reached(hash, shards, c).total == Sum(Sizes(SeenShards(hash, shards, c)))
  {
    if c.And? {
      SeenSizes(hash, shards, c.before);
      if c.event.Visit? {
        var p := Reached(hash, shards, c.before);
        SizesSnoc(SeenShards(hash, shards, c.before), p.shards[p.visited]);
      }
    }
  }

  lemma {:induction false} SizesSnoc(shards: Shards, s: State)
    ensures Sum(Sizes(shards + [s])) == Sum(Sizes(shards)) + |s.entries|
  {
    assert Sizes(shards + [s])[..|shards|] == Sizes(shards);
  }
}
