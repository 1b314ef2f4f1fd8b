/** Loading a snapshot: the reverse replay of its records into a sharded cache, and what
    a save followed by a load brings back. */
module Restore {
  import opened Prelude
  import opened CacheModel
  import opened Runs
  import opened Sharding
  import opened Snapshot
  import Scan
  import SnapshotFormat

  /** How long the file sat on disk, by the wall clock in milliseconds; never negative. */
  function Elapsed(savedAt: int, loadedAt: int): int {
    if loadedAt > savedAt then loadedAt - savedAt else 0
  }

  predicate Survives(r: Record, elapsed: int) {
    r.ttl == NO_EXPIRY || r.ttl - elapsed > 0
  }

  /** The `set` that restores a surviving record. */
  function RestoreOp(r: Record, elapsed: int): Op {
    if r.ttl == NO_EXPIRY then Set(r.key, r.value) else SetTtl(r.key, r.value, r.ttl - elapsed)
  }

  /** One record applied, unless it ran out on disk. */
  function RestoreStep(hash: string -> nat, shards: Shards, r: Record, elapsed: int, now: int): (s: Shards)
    requires |shards| > 0
    ensures |s| == |shards|
  {
    if Survives(r, elapsed) then ShardedStep(hash, shards, RestoreOp(r, elapsed), now).0 else shards
  }

  /** Records are applied last to first; `nows[i]` is the clock read when setting
      record `i`. */
  function Replay(hash: string -> nat, shards: Shards, records: seq<Record>, elapsed: int, nows: seq<int>): (r: Shards)
    requires |shards| > 0 && |nows| == |records|
    ensures |r| == |shards|
  {
    if records == [] then shards else
    RestoreStep(hash, Replay(hash, shards, records[1..], elapsed, nows[1..]), records[0], elapsed, nows[0])
  }

  lemma ExpiringStep(hash: string -> nat, shards: Shards, r: Record, elapsed: int, remaining: int, now: int)
    requires |shards| > 0 && r.ttl != NO_EXPIRY && remaining == r.ttl - elapsed > 0
    ensures RestoreStep(hash, shards, r, elapsed, now) ==
            ShardedStep(hash, shards, SetTtl(r.key, r.value, remaining), now).0
  {
  }

  lemma {:induction false} ReplayNext(hash: string -> nat, shards: Shards, records: seq<Record>, elapsed: int,
                                      nows: seq<int>, i: nat)
    requires |shards| > 0 && |nows| == |records| && i < |records|
    ensures Replay(hash, shards, records[i..], elapsed, nows[i..]) ==
            RestoreStep(hash, Replay(hash, shards, records[i + 1..], elapsed, nows[i + 1..]),
                        records[i], elapsed, nows[i])
    ensures Survivors(records[i..], elapsed) ==
            Survivors(records[i + 1..], elapsed) + if Survives(records[i], elapsed) then 1 else 0
  {
    assert records[i..][1..] == records[i + 1..] && nows[i..][1..] == nows[i + 1..];
  }

  /** Before the replay and after it. */
  lemma {:induction false} ReplayEnds(hash: string -> nat, shards: Shards, records: seq<Record>, elapsed: int,
                                      nows: seq<int>)
    requires |shards| > 0 && |nows| == |records|
    ensures Replay(hash, shards, records[|records|..], elapsed, nows[|records|..]) == shards
    ensures Survivors(records[|records|..], elapsed) == 0
    ensures Replay(hash, shards, records[0..], elapsed, nows[0..]) == Replay(hash, shards, records, elapsed, nows)
    ensures Survivors(records[0..], elapsed) == Survivors(records, elapsed)
  {
    assert records[0..] == records && nows[0..] == nows;
  }

  function Survivors(records: seq<Record>, elapsed: int): nat {
    if records == [] then 0
    else (if Survives(records[0], elapsed) then 1 else 0) + Survivors(records[1..], elapsed)
  }

  function SurvivesFor(elapsed: int): Record -> bool {
    r => Survives(r, elapsed)
  }

  /** The number of records that survive. */
  lemma {:induction false} SurvivorsAreKept(records: seq<Record>, elapsed: int)
    ensures Survivors(records, elapsed) == |Keep(records, SurvivesFor(elapsed))|
  {
    if records != [] {
      SurvivorsAreKept(records[1..], elapsed);
    }
  }

  // ---- A replay is a run

  /** The `set`s of a load, in the order it makes them, after the operations of `t`. */
  function LoadTrace(t: Trace, records: seq<Record>, elapsed: int, nows: seq<int>): Trace
    requires |nows| == |records|
  {
    if records == [] then t else
    var rest := LoadTrace(t, records[1..], elapsed, nows[1..]);
    if Survives(records[0], elapsed) then Then(rest, RestoreOp(records[0], elapsed), nows[0]) else rest
  }

  /** Loading into a cache that a run has reached is running the load's operations on. */
  lemma {:induction false} ReplayIsRun(hash: string -> nat, shards: Shards, t: Trace, records: seq<Record>,
                                       elapsed: int, nows: seq<int>)
    requires |shards| > 0 && |nows| == |records|
    ensures Replay(hash, ShardedRun(hash, shards, t), records, elapsed, nows) ==
            ShardedRun(hash, shards, LoadTrace(t, records, elapsed, nows))
  {
    if records != [] {
      ReplayIsRun(hash, shards, t, records[1..], elapsed, nows[1..]);
    }
  }

  /** The readings of a load: record 0 is set last. */
  predicate ReadBackwards(nows: seq<int>, low: int, high: int) {
    && (forall i :: 0 <= i < |nows| ==> low <= nows[i] <= high)
    && (forall i, j :: 0 <= i <= j < |nows| ==> nows[j] <= nows[i])
  }

  lemma {:induction false} LoadSteady(t: Trace, records: seq<Record>, elapsed: int, nows: seq<int>, floor: int,
                                      low: int, high: int)
    requires |nows| == |records| && Monotone(t, floor) && Clock(t, floor) <= low <= high
    requires ReadBackwards(nows, low, high)
    ensures Monotone(LoadTrace(t, records, elapsed, nows), floor)
    ensures Clock(LoadTrace(t, records, elapsed, nows), floor) <= if records == [] then low else nows[0]
  {
    if records != [] {
      LoadSteady(t, records[1..], elapsed, nows[1..], floor, low, high);
    }
  }

  // ---- What the replay leaves in each shard

  function RestoredEntry(r: Record, elapsed: int, now: int): Entry {
    Entry(r.key, r.value,
          if r.ttl == NO_EXPIRY then None else Some(now + (r.ttl - elapsed) * NANOS_PER_MS))
  }

  /** Whether a key belongs to shard `i`. */
  function RoutedTo(hash: string -> nat, count: nat, i: nat): string -> bool
    requires count > 0
  {
    key => ShardIndex(hash, count, key) == i
  }

  function HomeOf(hash: string -> nat, count: nat): string -> nat
    requires count > 0
  {
    key => ShardIndex(hash, count, key)
  }

  /** The surviving records with a key of one's own, in file order. */
  function Restored(mine: string -> bool, records: seq<Record>, elapsed: int, nows: seq<int>): (es: seq<Entry>)
    requires |nows| == |records|
  {
    if records == [] then [] else
    var rest := Restored(mine, records[1..], elapsed, nows[1..]);
    if Survives(records[0], elapsed) && mine(records[0].key)
    then [RestoredEntry(records[0], elapsed, nows[0])] + rest
    else rest
  }

  /** Of those, the first of each key: what an earlier record of a key leaves of the rest. */
  function Latest(mine: string -> bool, records: seq<Record>, elapsed: int, nows: seq<int>): (es: seq<Entry>)
    requires |nows| == |records|
  {
    if records == [] then [] else
    var rest := Latest(mine, records[1..], elapsed, nows[1..]);
    if Survives(records[0], elapsed) && mine(records[0].key)
    then [RestoredEntry(records[0], elapsed, nows[0])] + Without(rest, records[0].key)
    else rest
  }

  lemma {:induction false} LatestDistinct(mine: string -> bool, records: seq<Record>, elapsed: int, nows: seq<int>)
    requires |nows| == |records|
    ensures DistinctKeys(Latest(mine, records, elapsed, nows))
  {
    if records != [] {
      LatestDistinct(mine, records[1..], elapsed, nows[1..]);
      WithoutLookup(Latest(mine, records[1..], elapsed, nows[1..]), records[0].key, records[0].key);
    }
  }

  /** Record `n` is the first of its key that survives. */
  predicate FirstOfKey(records: seq<Record>, elapsed: int, n: nat)
    requires n < |records|
  {
    && Survives(records[n], elapsed)
    && forall j :: 0 <= j < n && records[j].key == records[n].key ==> !Survives(records[j], elapsed)
  }

  /** Of a key of one's own, that list holds what the first surviving record says, and
      nothing exactly when there is none. */
  lemma {:induction false} LatestIsFirst(mine: string -> bool, records: seq<Record>, elapsed: int, nows: seq<int>,
                                         n: nat)
    requires |nows| == |records| && n < |records| && FirstOfKey(records, elapsed, n) && mine(records[n].key)
    ensures Find(Latest(mine, records, elapsed, nows), records[n].key) ==
            Some(RestoredEntry(records[n], elapsed, nows[n]))
  {
    var r, rest := records[0], Latest(mine, records[1..], elapsed, nows[1..]);
    LatestDistinct(mine, records[1..], elapsed, nows[1..]);
    if n > 0 {
      FirstOfTail(records, elapsed, n);
      LatestIsFirst(mine, records[1..], elapsed, nows[1..], n - 1);
      if Survives(r, elapsed) && mine(r.key) {
        WithoutLookup(rest, r.key, records[n].key);
        assert ([RestoredEntry(r, elapsed, nows[0])] + Without(rest, r.key))[1..] == Without(rest, r.key);
      }
    }
  }

  lemma {:induction false} FirstOfTail(records: seq<Record>, elapsed: int, n: nat)
    requires 0 < n < |records| && FirstOfKey(records, elapsed, n)
    ensures FirstOfKey(records[1..], elapsed, n - 1)
    ensures Survives(records[0], elapsed) ==> records[0].key != records[n].key
  {
  }

  lemma {:induction false} LatestOrigin(mine: string -> bool, records: seq<Record>, elapsed: int, nows: seq<int>,
                                        e: Entry)
    returns (n: nat)
    requires |nows| == |records| && e in Latest(mine, records, elapsed, nows)
    ensures n < |records| && FirstOfKey(records, elapsed, n) && mine(records[n].key)
    ensures e == RestoredEntry(records[n], elapsed, nows[n])
  {
    var r, rest := records[0], Latest(mine, records[1..], elapsed, nows[1..]);
    var here := Survives(r, elapsed) && mine(r.key);
    if here && e == RestoredEntry(r, elapsed, nows[0]) {
      n := 0;
    } else {
      var m := LatestOrigin(mine, records[1..], elapsed, nows[1..], e);
      n := m + 1;
      forall j | 0 <= j < n && records[j].key == records[n].key ensures !Survives(records[j], elapsed) {
        if j > 0 {
          assert records[j] == records[1..][j - 1];
        }
      }
    }
  }

  predicate DistinctKeysOf(records: seq<Record>) {
    forall i, j :: 0 <= i < j < |records| ==> records[i].key != records[j].key
  }

  /** No key twice: then nothing is overwritten. */
  lemma {:induction false} LatestIsRestored(mine: string -> bool, records: seq<Record>, elapsed: int, nows: seq<int>)
    requires |nows| == |records| && DistinctKeysOf(records)
    ensures Latest(mine, records, elapsed, nows) == Restored(mine, records, elapsed, nows)
  {
    if records != [] {
      var rest := Latest(mine, records[1..], elapsed, nows[1..]);
      LatestIsRestored(mine, records[1..], elapsed, nows[1..]);
      forall e | e in rest ensures e.key != records[0].key {
        var n := LatestOrigin(mine, records[1..], elapsed, nows[1..], e);
        assert records[1..][n] == records[n + 1];
      }
      WithoutAbsent(rest, records[0].key);
    }
  }

  /** Removing one key from a list and from its first `n` entries. */
  lemma {:induction false} WithoutPrefix(es: seq<Entry>, n: nat, key: string)
    requires DistinctKeys(es) && n <= |es|
    ensures n - 1 <= |Without(es[..n], key)| <= |Without(es, key)|
    ensures Without(es[..n], key) == Without(es, key)[..|Without(es[..n], key)|]
  {
    assert es == es[..n] + es[n..];
    KeepConcat(es[..n], es[n..], NotKey(key));
    if Find(es[..n], key).Some? {
      WithoutSize(es[..n], key);
    } else {
      WithoutAbsent(es[..n], key);
    }
  }

  /** Entries beyond the capacity do not matter for what one more entry leaves. */
  lemma {:induction false} TakeWithout(capacity: Option<nat>, e: Entry, es: seq<Entry>)
    requires DistinctKeys(es)
    ensures Take(capacity, [e] + Without(Take(capacity, es), e.key)) == Take(capacity, [e] + Without(es, e.key))
  {
    if capacity.Some? && |es| > capacity.value {
      WithoutPrefix(es, capacity.value, e.key);
      PrefixCons(e, Without(es[..capacity.value], e.key), Without(es, e.key), capacity.value);
    }
  }

  lemma PrefixCons(e: Entry, xs: seq<Entry>, ys: seq<Entry>, n: nat)
    requires n - 1 <= |xs| <= |ys| && xs == ys[..|xs|]
    ensures Take(Some(n), [e] + xs) == Take(Some(n), [e] + ys)
  {
    assert ([e] + xs)[..n] == ([e] + ys)[..n];
  }

  lemma RestoreStores(s: State, r: Record, elapsed: int, now: int)
    requires Survives(r, elapsed)
    ensures ChangeOf(s, RestoreOp(r, elapsed), now) == Stored(RestoredEntry(r, elapsed, now))
  {
  }

  /** Restoring one more record in front of what its shard already holds, in place of what
      it holds of that key. */
  lemma {:induction false} RestoreOne(s: State, es: seq<Entry>, r: Record, elapsed: int, now: int)
    requires Sane(s) && DistinctKeys(es) && s.entries == Take(s.capacity, es) && Survives(r, elapsed)
    ensures Step(s, RestoreOp(r, elapsed), now).state.entries ==
            Take(s.capacity, [RestoredEntry(r, elapsed, now)] + Without(es, r.key))
  {
    RestoreStores(s, r, elapsed, now);
    StepShape(s, RestoreOp(r, elapsed), now);
    TakeWithout(s.capacity, RestoredEntry(r, elapsed, now), es);
  }

  /** Loading any records, repeated keys included, into an empty cache of any shard count and
      capacities leaves each shard holding, of the keys routed to it, the first surviving
      record of each, in file order, as many as fit. */
  lemma {:induction false} RestoredShard(hash: string -> nat, capacities: seq<Option<nat>>, records: seq<Record>,
                                         elapsed: int, nows: seq<int>, i: nat)
    requires i < |capacities| && |nows| == |records|
    ensures var s := Replay(hash, EmptyShards(capacities), records, elapsed, nows)[i];
            && Sane(s) && s.capacity == capacities[i]
            && s.entries == Take(capacities[i], Latest(RoutedTo(hash, |capacities|, i), records, elapsed, nows))
  {
    if records != [] {
      RestoredShard(hash, capacities, records[1..], elapsed, nows[1..], i);
      var r, s := records[0], Replay(hash, EmptyShards(capacities), records[1..], elapsed, nows[1..])[i];
      if Survives(r, elapsed) && ShardIndex(hash, |capacities|, r.key) == i {
        LatestDistinct(RoutedTo(hash, |capacities|, i), records[1..], elapsed, nows[1..]);
        RestoreOne(s, Latest(RoutedTo(hash, |capacities|, i), records[1..], elapsed, nows[1..]), r, elapsed, nows[0]);
        StepSane(s, RestoreOp(r, elapsed), nows[0]);
      }
    }
  }

  // ---- Save, then load into the same layout

  /** An entry lives on through a save at clock `reading` and `elapsed` milliseconds on disk. */
  predicate Outlives(e: Entry, reading: int, elapsed: int) {
    e.expiresAt.None? || (reading < e.expiresAt.value && Remaining(e.expiresAt.value, reading) > elapsed)
  }

  function OutlivesAt(reading: int, elapsed: int): Entry -> bool {
    e => Outlives(e, reading, elapsed)
  }

  /** `back` is what an entry exported at `reading` becomes when it is set at `now`, its file
      having been on disk for `elapsed` milliseconds: the same key, the same value, a deadline
      exactly if there was one, and then as many nanoseconds from now as the whole
      milliseconds that were left less those on disk. */
  predicate Carries(e: Entry, reading: int, elapsed: int, now: int, back: Entry) {
    && back.key == e.key && back.value == e.value
    && (back.expiresAt.None? <==> e.expiresAt.None?)
    && (e.expiresAt.Some? ==>
          back.expiresAt.value == now + ((e.expiresAt.value - reading) / 1_000_000 - elapsed) * 1_000_000)
  }

  /** `after` is `before`, entry by entry and in order, carried over at the given times. */
  predicate CarriedOver(before: seq<Entry>, after: seq<Entry>, reading: int, elapsed: int, times: seq<int>) {
    && |before| == |after| == |times|
    && forall k :: 0 <= k < |before| ==>
         !Expired(before[k], reading) && Carries(before[k], reading, elapsed, times[k], after[k])
  }

  /** The entry that a record of `e` becomes. */
  function Back(e: Entry, reading: int, elapsed: int, now: int): Entry
    requires !Expired(e, reading)
  {
    RestoredEntry(RecordOf(SnapshotOf(e, reading)), elapsed, now)
  }

  /** Writing an entry's record and restoring it carries the entry over. */
  lemma {:induction false} RecordCarries(e: Entry, reading: int, elapsed: int, now: int)
    requires !Expired(e, reading)
    ensures Carries(e, reading, elapsed, now, Back(e, reading, elapsed, now))
  {
    if e.expiresAt.Some? {
      assert Remaining(e.expiresAt.value, reading) >= 0;
    }
  }

  lemma {:induction false} CarriedCons(e: Entry, now: int, before: seq<Entry>, after: seq<Entry>, reading: int,
                                       elapsed: int, times: seq<int>)
    requires !Expired(e, reading) && CarriedOver(before, after, reading, elapsed, times)
    ensures CarriedOver([e] + before, [Back(e, reading, elapsed, now)] + after, reading, elapsed, [now] + times)
  {
    RecordCarries(e, reading, elapsed, now);
  }

  lemma {:induction false} RestoredConcat(mine: string -> bool, xs: seq<Record>, ys: seq<Record>, elapsed: int,
                                          nows: seq<int>)
    requires |nows| == |xs| + |ys|
    ensures Restored(mine, xs + ys, elapsed, nows) ==
            Restored(mine, xs, elapsed, nows[..|xs|]) + Restored(mine, ys, elapsed, nows[|xs|..])
  {
    if xs == [] {
      assert xs + ys == ys && nows[0..] == nows;
    } else {
      assert (xs + ys)[1..] == xs[1..] + ys;
      assert nows[1..][..|xs| - 1] == nows[..|xs|][1..] && nows[1..][|xs| - 1..] == nows[|xs|..];
      RestoredConcat(mine, xs[1..], ys, elapsed, nows[1..]);
    }
  }

  /** Records of another shard contribute nothing. */
  lemma {:induction false} RestoredElsewhere(mine: string -> bool, rs: seq<Record>, elapsed: int, nows: seq<int>)
    requires |nows| == |rs| && forall r :: r in rs ==> !mine(r.key)
    ensures Restored(mine, rs, elapsed, nows) == []
  {
    if rs != [] {
      RestoredElsewhere(mine, rs[1..], elapsed, nows[1..]);
    }
  }

  lemma {:induction false} RestoredCons(mine: string -> bool, r: Record, rs: seq<Record>, elapsed: int, nows: seq<int>)
    requires |nows| == |rs| + 1
    ensures Restored(mine, [r] + rs, elapsed, nows) ==
            (if Survives(r, elapsed) && mine(r.key) then [RestoredEntry(r, elapsed, nows[0])] else []) +
            Restored(mine, rs, elapsed, nows[1..])
  {
    assert ([r] + rs)[1..] == rs;
  }

  lemma RecordsConcat(xs: seq<EntrySnapshot>, ys: seq<EntrySnapshot>)
    ensures RecordsOf(xs + ys) == RecordsOf(xs) + RecordsOf(ys)
  {
  }

  lemma {:induction false} HomeCons(mine: string -> bool, e: Entry, rs: seq<Record>, reading: int, elapsed: int,
                                    nows: seq<int>)
    requires elapsed >= 0 && |nows| == |rs| + 1 && mine(e.key) && !Expired(e, reading)
    ensures Restored(mine, [RecordOf(SnapshotOf(e, reading))] + rs, elapsed, nows) ==
            (if Outlives(e, reading, elapsed) then [Back(e, reading, elapsed, nows[0])] else []) +
            Restored(mine, rs, elapsed, nows[1..])
  {
    RestoredCons(mine, RecordOf(SnapshotOf(e, reading)), rs, elapsed, nows);
  }

  lemma {:induction false} ExportCons(es: seq<Entry>, reading: int)
    requires es != [] && !Expired(es[0], reading)
    ensures RecordsOf(ExportEntries(es, reading)) ==
            [RecordOf(SnapshotOf(es[0], reading))] + RecordsOf(ExportEntries(es[1..], reading))
  {
    RecordsConcat([SnapshotOf(es[0], reading)], ExportEntries(es[1..], reading));
    assert RecordsOf([SnapshotOf(es[0], reading)]) == [RecordOf(SnapshotOf(es[0], reading))];
  }

  /** A shard's own exported records restore its outliving entries in recency order, each
      with what is left of its time. */
  lemma {:induction false} RestoredHome(mine: string -> bool, es: seq<Entry>, reading: int, elapsed: int,
                                        nows: seq<int>) returns (times: seq<int>)
    requires elapsed >= 0 && |nows| == |ExportEntries(es, reading)| && forall e :: e in es ==> mine(e.key)
    ensures CarriedOver(Keep(es, OutlivesAt(reading, elapsed)),
                        Restored(mine, RecordsOf(ExportEntries(es, reading)), elapsed, nows), reading, elapsed, times)
    ensures forall x :: x in times ==> x in nows
  {
    times := [];
    if es != [] {
      if Expired(es[0], reading) {
        times := RestoredHome(mine, es[1..], reading, elapsed, nows);
      } else {
        var rs := RecordsOf(ExportEntries(es[1..], reading));
        times := RestoredHome(mine, es[1..], reading, elapsed, nows[1..]);
        ExportCons(es, reading);
        HomeCons(mine, es[0], rs, reading, elapsed, nows);
        if Outlives(es[0], reading, elapsed) {
          CarriedCons(es[0], nows[0], Keep(es[1..], OutlivesAt(reading, elapsed)),
                      Restored(mine, rs, elapsed, nows[1..]), reading, elapsed, times);
          times := [nows[0]] + times;
        } else {
          EmptyConcat(Restored(mine, rs, elapsed, nows[1..]));
        }
      }
    }
  }

  /** Every key is in its own shard: `shards[j]` holds only keys that live at `first + j`. */
  ghost predicate AtHome(home: string -> nat, first: nat, shards: Shards) {
    forall j :: 0 <= j < |shards| ==> HoldsOnly(home, first + j, shards[j])
  }

  ghost predicate HoldsOnly(home: string -> nat, i: nat, s: State) {
    DistinctKeys(s.entries) && forall e :: e in s.entries ==> home(e.key) == i
  }

  lemma {:induction false} AtHomeTail(home: string -> nat, first: nat, shards: Shards)
    requires shards != [] && AtHome(home, first, shards)
    ensures AtHome(home, first + 1, shards[1..]) && HoldsOnly(home, first, shards[0])
  {
    assert HoldsOnly(home, first + 0, shards[0]);
    forall j | 0 <= j < |shards| - 1 ensures HoldsOnly(home, first + 1 + j, shards[1..][j]) {
      assert HoldsOnly(home, first + (j + 1), shards[j + 1]);
    }
  }

  lemma {:induction false} ExportedHere(home: string -> nat, first: nat, shards: Shards, readings: seq<int>)
    requires |readings| == |shards| && AtHome(home, first, shards)
    ensures forall r :: r in ExportEach(shards, readings) ==> home(r.key) >= first
    ensures Scan.DistinctRecords(ExportEach(shards, readings))
    decreases |shards|
  {
    if shards != [] {
      AtHomeTail(home, first, shards);
      ExportedHere(home, first + 1, shards[1..], readings[1..]);
      var part := ExportEntries(shards[0].entries, readings[0]);
      Scan.PartDistinct(shards[0].entries, readings[0]);
      forall r | r in part ensures home(r.key) == first {
        var e := Scan.ExportOrigin(shards[0].entries, readings[0], r);
      }
    }
  }

  /** The first shard's part of an export, and the rest of it. */
  lemma {:induction false} RestoredSplit(mine: string -> bool, shards: Shards, readings: seq<int>, elapsed: int,
                                         nows: seq<int>)
    requires shards != [] && |readings| == |shards| && |nows| == |ExportEach(shards, readings)|
    ensures var part := ExportEntries(shards[0].entries, readings[0]);
            var more := ExportEach(shards[1..], readings[1..]);
            && |nows| == |part| + |more|
            && Restored(mine, RecordsOf(ExportEach(shards, readings)), elapsed, nows) ==
               Restored(mine, RecordsOf(part), elapsed, nows[..|part|]) +
               Restored(mine, RecordsOf(more), elapsed, nows[|part|..])
  {
    var part, more := ExportEntries(shards[0].entries, readings[0]), ExportEach(shards[1..], readings[1..]);
    RecordsConcat(part, more);
    RestoredConcat(mine, RecordsOf(part), RecordsOf(more), elapsed, nows);
  }

  lemma EmptyConcat(xs: seq<Entry>)
    ensures xs + [] == xs && [] + xs == xs
  {
  }

  /** None of these exported records is one's own. */
  lemma {:induction false} NothingHere(mine: string -> bool, out: seq<EntrySnapshot>, elapsed: int, nows: seq<int>)
    requires |nows| == |out| && forall r :: r in out ==> !mine(r.key)
    ensures Restored(mine, RecordsOf(out), elapsed, nows) == []
  {
    forall r | r in RecordsOf(out) ensures !mine(r.key) {
      var k :| 0 <= k < |out| && r == RecordOf(out[k]);
      assert out[k] in out;
    }
    RestoredElsewhere(mine, RecordsOf(out), elapsed, nows);
  }

  lemma {:induction false} ForeignPart(home: string -> nat, mine: string -> bool, i: nat, s: State, j: nat,
                                       reading: int)
    requires HoldsOnly(home, j, s) && i != j && forall k :: mine(k) <==> home(k) == i
    ensures forall r :: r in ExportEntries(s.entries, reading) ==> !mine(r.key)
  {
    forall r | r in ExportEntries(s.entries, reading) ensures !mine(r.key) {
      var e := Scan.ExportOrigin(s.entries, reading, r);
    }
  }

  /** An export of which only the first shard's part is one's own. */
  lemma {:induction false} OnlyFirst(mine: string -> bool, shards: Shards, readings: seq<int>, elapsed: int,
                                     nows: seq<int>, n: nat)
    requires shards != [] && |readings| == |shards| && |nows| == |ExportEach(shards, readings)|
    requires n == |ExportEntries(shards[0].entries, readings[0])|
    requires forall r :: r in ExportEach(shards[1..], readings[1..]) ==> !mine(r.key)
    ensures n <= |nows|
    ensures Restored(mine, RecordsOf(ExportEach(shards, readings)), elapsed, nows) ==
            Restored(mine, RecordsOf(ExportEntries(shards[0].entries, readings[0])), elapsed, nows[..n])
  {
    RestoredSplit(mine, shards, readings, elapsed, nows);
    NothingHere(mine, ExportEach(shards[1..], readings[1..]), elapsed, nows[n..]);
    EmptyConcat(Restored(mine, RecordsOf(ExportEntries(shards[0].entries, readings[0])), elapsed, nows[..n]));
  }

  /** An export of which the first shard's part is not one's own. */
  lemma {:induction false} NotFirst(mine: string -> bool, shards: Shards, readings: seq<int>, elapsed: int,
                                    nows: seq<int>, n: nat)
    requires shards != [] && |readings| == |shards| && |nows| == |ExportEach(shards, readings)|
    requires n == |ExportEntries(shards[0].entries, readings[0])|
    requires forall r :: r in ExportEntries(shards[0].entries, readings[0]) ==> !mine(r.key)
    ensures n <= |nows| && |nows[n..]| == |ExportEach(shards[1..], readings[1..])|
    ensures Restored(mine, RecordsOf(ExportEach(shards, readings)), elapsed, nows) ==
            Restored(mine, RecordsOf(ExportEach(shards[1..], readings[1..])), elapsed, nows[n..])
  {
    RestoredSplit(mine, shards, readings, elapsed, nows);
    NothingHere(mine, ExportEntries(shards[0].entries, readings[0]), elapsed, nows[..n]);
    EmptyConcat(Restored(mine, RecordsOf(ExportEach(shards[1..], readings[1..])), elapsed, nows[n..]));
  }

  /** Of a whole export, only shard `i`'s own part comes back to shard `i`. */
  lemma {:induction false} RestoredFromExport(home: string -> nat, mine: string -> bool, first: nat, shards: Shards,
                                              readings: seq<int>, elapsed: int, nows: seq<int>, i: nat)
    returns (own: seq<int>)
    requires |readings| == |shards| && AtHome(home, first, shards) && forall k :: mine(k) <==> home(k) == i
    requires |nows| == |ExportEach(shards, readings)| && first <= i < first + |shards|
    ensures var part := ExportEntries(shards[i - first].entries, readings[i - first]);
            && |own| == |part|
            && Restored(mine, RecordsOf(ExportEach(shards, readings)), elapsed, nows) ==
               Restored(mine, RecordsOf(part), elapsed, own)
    ensures forall x :: x in own ==> x in nows
    decreases |shards|
  {
    var n := |ExportEntries(shards[0].entries, readings[0])|;
    AtHomeTail(home, first, shards);
    if i == first {
      ExportedHere(home, first + 1, shards[1..], readings[1..]);
      OnlyFirst(mine, shards, readings, elapsed, nows, n);
      own := nows[..n];
    } else {
      ForeignPart(home, mine, i, shards[0], first, readings[0]);
      NotFirst(mine, shards, readings, elapsed, nows, n);
      own := RestoredFromExport(home, mine, first + 1, shards[1..], readings[1..], elapsed, nows[n..], i);
    }
  }

  lemma {:induction false} GoodAtHome(hash: string -> nat, shards: Shards)
    requires Scan.Good(hash, shards)
    ensures AtHome(HomeOf(hash, |shards|), 0, shards)
  {
    forall j | 0 <= j < |shards| ensures HoldsOnly(HomeOf(hash, |shards|), 0 + j, shards[j]) {
      assert Sane(shards[j]);
    }
  }

  lemma {:induction false} ExportDistinct(hash: string -> nat, shards: Shards, readings: seq<int>)
    requires Scan.Good(hash, shards) && |readings| == |shards|
    ensures DistinctKeysOf(RecordsOf(ExportEach(shards, readings)))
  {
    GoodAtHome(hash, shards);
    ExportedHere(HomeOf(hash, |shards|), 0, shards, readings);
  }

  /** The records that come back to shard `i`, however many shards were exported. */
  lemma {:induction false} ExportRestores(home: string -> nat, mine: string -> bool, shards: Shards,
                                          readings: seq<int>, elapsed: int, nows: seq<int>, i: nat)
    returns (times: seq<int>)
    requires AtHome(home, 0, shards) && |readings| == |shards| && i < |shards| && elapsed >= 0
    requires forall k :: mine(k) <==> home(k) == i
    requires |nows| == |ExportEach(shards, readings)|
    ensures CarriedOver(Keep(shards[i].entries, OutlivesAt(readings[i], elapsed)),
                        Restored(mine, RecordsOf(ExportEach(shards, readings)), elapsed, nows),
                        readings[i], elapsed, times)
    ensures forall x :: x in times ==> x in nows
  {
    var own := RestoredFromExport(home, mine, 0, shards, readings, elapsed, nows, i);
    assert HoldsOnly(home, 0 + i, shards[i]);
    times := RestoredHome(mine, shards[i].entries, readings[i], elapsed, own);
  }

  lemma {:induction false} TakeAll(capacity: Option<nat>, kept: seq<Entry>, es: seq<Entry>, all: seq<Entry>)
    requires |kept| == |es| && |kept| <= |all| && (capacity.Some? ==> |all| <= capacity.value)
    ensures Take(capacity, es) == es
  {
  }

  /** Replaying a cache's own export into an empty cache of the same layout gives every
      shard its outliving entries in their original recency order: keys and values as they
      were, deadlines by what was left of them when exported, less the time on disk. */
  lemma {:induction false} ReplayRestores(hash: string -> nat, shards: Shards, readings: seq<int>, elapsed: int,
                                          nows: seq<int>, capacities: seq<Option<nat>>, i: nat)
    returns (times: seq<int>)
    requires Scan.Good(hash, shards) && |readings| == |shards| == |capacities| && i < |shards| && elapsed >= 0
    requires forall j :: 0 <= j < |shards| ==> shards[j].capacity == capacities[j]
    requires |nows| == |ExportEach(shards, readings)|
    ensures var records := RecordsOf(ExportEach(shards, readings));
            CarriedOver(Keep(shards[i].entries, OutlivesAt(readings[i], elapsed)),
                        Replay(hash, EmptyShards(capacities), records, elapsed, nows)[i].entries,
                        readings[i], elapsed, times)
    ensures forall x :: x in times ==> x in nows
  {
    var records := RecordsOf(ExportEach(shards, readings));
    ExportDistinct(hash, shards, readings);
    GoodAtHome(hash, shards);
    times := ExportRestores(HomeOf(hash, |shards|), RoutedTo(hash, |shards|, i), shards, readings, elapsed, nows, i);
    RestoredShard(hash, capacities, records, elapsed, nows, i);
    LatestIsRestored(RoutedTo(hash, |shards|, i), records, elapsed, nows);
    assert Sane(shards[i]);
    TakeAll(capacities[i], Keep(shards[i].entries, OutlivesAt(readings[i], elapsed)),
            Restored(RoutedTo(hash, |shards|, i), records, elapsed, nows), shards[i].entries);
  }

  /** The same from the file, and of an export taken while other clients worked: every shard
      gets back what it held when the export came to it. */
  lemma {:induction false} SaveThenLoadHome(hash: string -> nat, shards: Shards, c: Scan.Script, savedAt: int,
                                            loadedAt: int, nows: seq<int>, i: nat) returns (times: seq<int>)
    requires Scan.Possible(hash, shards, c) && Scan.Good(hash, shards) && i < |shards|
    requires Scan.Reached(hash, shards, c).visited == |shards|
    requires SnapshotFormat.Storable(savedAt, RecordsOf(Scan.Reached(hash, shards, c).out))
    requires |nows| == |Scan.Reached(hash, shards, c).out|
    ensures |Scan.SeenShards(hash, shards, c)| == |Scan.SeenTimes(c)| == |shards|
    ensures var d := Decode(FileText(savedAt, RecordsOf(Scan.Reached(hash, shards, c).out)));
            var elapsed := Elapsed(savedAt, loadedAt);
            var seen, reading := Scan.SeenShards(hash, shards, c)[i], Scan.SeenTimes(c)[i];
            && d.Accepted? && d.savedAt == savedAt && |d.records| == |nows|
            && CarriedOver(Keep(seen.entries, OutlivesAt(reading, elapsed)),
                           Replay(hash, EmptyShards(CapacitiesOf(shards)), d.records, elapsed, nows)[i].entries,
                           reading, elapsed, times)
    ensures forall x :: x in times ==> x in nows
  {
    Scan.FinishedScan(hash, shards, c);
    SnapshotFormat.RoundTrip(savedAt, RecordsOf(Scan.Reached(hash, shards, c).out));
    times := ReplayRestores(hash, Scan.SeenShards(hash, shards, c), Scan.SeenTimes(c), Elapsed(savedAt, loadedAt), nows,
                            CapacitiesOf(shards), i);
  }

  function CapacitiesOf(shards: Shards): (r: seq<Option<nat>>)
    ensures |r| == |shards| && forall i :: 0 <= i < |r| ==> r[i] == shards[i].capacity
  {
    seq(|shards|, i requires 0 <= i < |shards| => shards[i].capacity)
  }

  lemma {:induction false} ScanDistinct(hash: string -> nat, shards: Shards, c: Scan.Script)
    requires Scan.Possible(hash, shards, c) && Scan.Good(hash, shards)
    ensures DistinctKeysOf(RecordsOf(Scan.Reached(hash, shards, c).out))
  {
    Scan.NoKeyTwice(hash, shards, c);
  }

  /** A file saved beside any operations of other clients decodes to the records exported,
      and loading it into an empty cache of any hash, shard count and capacities leaves each
      shard the records routed to it that still have time left, in file order, as many as
      fit. */
  lemma {:induction false} SaveThenLoad(hash: string -> nat, shards: Shards, c: Scan.Script, savedAt: int,
                                        loadedAt: int, nows: seq<int>, other: string -> nat,
                                        capacities: seq<Option<nat>>, i: nat)
    requires Scan.Possible(hash, shards, c) && Scan.Good(hash, shards) && i < |capacities|
    requires SnapshotFormat.Storable(savedAt, RecordsOf(Scan.Reached(hash, shards, c).out))
    requires |nows| == |Scan.Reached(hash, shards, c).out|
    ensures var records := RecordsOf(Scan.Reached(hash, shards, c).out);
            var elapsed := Elapsed(savedAt, loadedAt);
            && Decode(FileText(savedAt, records)) == Accepted(savedAt, records)
            && Replay(other, EmptyShards(capacities), records, elapsed, nows)[i].entries ==
               Take(capacities[i], Restored(RoutedTo(other, |capacities|, i), records, elapsed, nows))
  {
    var records := RecordsOf(Scan.Reached(hash, shards, c).out);
    ScanDistinct(hash, shards, c);
    SnapshotFormat.RoundTrip(savedAt, records);
    RestoredShard(other, capacities, records, Elapsed(savedAt, loadedAt), nows, i);
    LatestIsRestored(RoutedTo(other, |capacities|, i), records, Elapsed(savedAt, loadedAt), nows);
  }

  /** Nothing is made up: every entry a load leaves is one that was resident and live in its
      key's own shard when the save came to that shard, carried over. */
  lemma {:induction false} LoadedOrigin(hash: string -> nat, shards: Shards, c: Scan.Script, elapsed: int,
                                        nows: seq<int>, other: string -> nat, capacities: seq<Option<nat>>, i: nat,
                                        e: Entry)
    returns (at: Scan.Script, reading: int, was: Entry, now: int)
    requires Scan.Possible(hash, shards, c) && Scan.Good(hash, shards) && i < |capacities| && elapsed >= 0
    requires |nows| == |Scan.Reached(hash, shards, c).out|
    requires var records := RecordsOf(Scan.Reached(hash, shards, c).out);
             e in Replay(other, EmptyShards(capacities), records, elapsed, nows)[i].entries
    ensures Scan.Prefix(Scan.And(at, Scan.Visit(reading)), c) && Scan.Possible(hash, shards, at)
    ensures var j := ShardIndex(hash, |shards|, e.key);
            && Scan.Reached(hash, shards, at).visited == j && was in Scan.Reached(hash, shards, at).shards[j].entries
            && Outlives(was, reading, elapsed) && now in nows && Carries(was, reading, elapsed, now, e)
    ensures ShardIndex(other, |capacities|, e.key) == i
  {
    var out := Scan.Reached(hash, shards, c).out;
    var n := LoadedRecord(other, capacities, RecordsOf(out), elapsed, nows, i, e);
    assert out[n] in out;
    at, reading, was := Scan.RecordOrigin(hash, shards, c, out[n]);
    now := nows[n];
    RecordCarries(was, reading, elapsed, now);
  }

  /** Every entry a load leaves in a shard is a surviving record routed to it. */
  lemma {:induction false} LoadedRecord(hash: string -> nat, capacities: seq<Option<nat>>, records: seq<Record>,
                                        elapsed: int, nows: seq<int>, i: nat, e: Entry) returns (n: nat)
    requires i < |capacities| && |nows| == |records|
    requires e in Replay(hash, EmptyShards(capacities), records, elapsed, nows)[i].entries
    ensures n < |records| && FirstOfKey(records, elapsed, n) && ShardIndex(hash, |capacities|, e.key) == i
    ensures e == RestoredEntry(records[n], elapsed, nows[n])
  {
    var all := Latest(RoutedTo(hash, |capacities|, i), records, elapsed, nows);
    RestoredShard(hash, capacities, records, elapsed, nows, i);
    assert forall x :: x in Take(capacities[i], all) ==> x in all;
    n := LatestOrigin(RoutedTo(hash, |capacities|, i), records, elapsed, nows, e);
  }

  lemma {:induction false} LatestSize(mine: string -> bool, records: seq<Record>, elapsed: int, nows: seq<int>)
    requires |nows| == |records|
    ensures |Latest(mine, records, elapsed, nows)| <= |records|
  {
    if records != [] {
      LatestSize(mine, records[1..], elapsed, nows[1..]);
    }
  }

  /** Nothing is lost but by time or for lack of room: a key that nobody writes while the save
      runs, and that is there at its end with time left for the disk, comes back, if its new
      shard has room for the records. */
  lemma {:induction false} UntouchedComesBack(hash: string -> nat, shards: Shards, c: Scan.Script, elapsed: int,
                                              nows: seq<int>, other: string -> nat, capacities: seq<Option<nat>>,
                                              key: string, e: Entry, last: int)
    returns (reading: int, now: int)
    requires Scan.Possible(hash, shards, c) && Scan.Good(hash, shards) && |capacities| > 0 && elapsed >= 0
    requires |nows| == |Scan.Reached(hash, shards, c).out|
    requires Scan.Unwritten(c, key) && Scan.ReadBy(c, last) && Scan.Reached(hash, shards, c).visited == |shards|
    requires Find(Scan.Reached(hash, shards, c).shards[ShardIndex(hash, |shards|, key)].entries, key) == Some(e)
    requires Outlives(e, last, elapsed)
    requires var capacity := capacities[ShardIndex(other, |capacities|, key)];
             capacity.None? || |Scan.Reached(hash, shards, c).out| <= capacity.value
    ensures reading <= last && now in nows && !Expired(e, reading)
    ensures var records := RecordsOf(Scan.Reached(hash, shards, c).out);
            var back := Replay(other, EmptyShards(capacities), records, elapsed, nows);
            var r := Find(back[ShardIndex(other, |capacities|, key)].entries, key);
            r.Some? && Carries(e, reading, elapsed, now, r.value)
  {
    var out, i := Scan.Reached(hash, shards, c).out, ShardIndex(other, |capacities|, key);
    reading := Scan.UntouchedIsGathered(hash, shards, c, key, e, last);
    var n :| 0 <= n < |out| && out[n] == SnapshotOf(e, reading);
    now := nows[n];
    OutlivedEarlier(e, reading, last, elapsed);
    ScanDistinct(hash, shards, c);
    RecordComesBack(other, capacities, RecordsOf(out), elapsed, nows, i, n);
    RecordCarries(e, reading, elapsed, now);
  }

  lemma {:induction false} OutlivedEarlier(e: Entry, reading: int, last: int, elapsed: int)
    requires reading <= last && Outlives(e, last, elapsed) && elapsed >= 0
    ensures !Expired(e, reading) && Outlives(e, reading, elapsed)
    ensures Survives(RecordOf(SnapshotOf(e, reading)), elapsed)
  {
  }

  lemma {:induction false} RecordComesBack(hash: string -> nat, capacities: seq<Option<nat>>, records: seq<Record>,
                                           elapsed: int, nows: seq<int>, i: nat, n: nat)
    requires i < |capacities| && |nows| == |records| && n < |records| && FirstOfKey(records, elapsed, n)
    requires ShardIndex(hash, |capacities|, records[n].key) == i
    requires capacities[i].None? || |records| <= capacities[i].value
    ensures Find(Replay(hash, EmptyShards(capacities), records, elapsed, nows)[i].entries, records[n].key) ==
            Some(RestoredEntry(records[n], elapsed, nows[n]))
  {
    RestoredShard(hash, capacities, records, elapsed, nows, i);
    LatestSize(RoutedTo(hash, |capacities|, i), records, elapsed, nows);
    LatestIsFirst(RoutedTo(hash, |capacities|, i), records, elapsed, nows, n);
  }
}
