/** Loading into a live cache, and how far a restored deadline can be from the original. */
module Persistence {
  import opened Prelude
  import opened CacheModel
  import opened Sharding
  import opened Snapshot
  import opened Restore
  import opened ShardedEngine
  import Scan
  import SnapshotFormat

  datatype LoadResult = LoadResult(ok: bool, loaded: nat, expired: nat)

  method ApplyPersistent(cache: ShardedCache, r: Record, elapsed: int, now: int)
    requires cache.Valid() && r.ttl == NO_EXPIRY
    modifies cache.shards, set c | c in cache.shards :: c.entries, cache.Nodes()
    ensures cache.Valid() && cache.Grown()
    ensures cache.View() == RestoreStep(cache.hash, old(cache.View()), r, elapsed, now)
  {
    cache.Set(r.key, r.value, now);
  }

  method ApplyExpiring(cache: ShardedCache, r: Record, elapsed: int, now: int)
    requires cache.Valid() && r.ttl != NO_EXPIRY && r.ttl - elapsed > 0
    modifies cache.shards, set c | c in cache.shards :: c.entries, cache.Nodes()
    ensures cache.Valid() && cache.Grown()
    ensures cache.View() == RestoreStep(cache.hash, old(cache.View()), r, elapsed, now)
  {
    var remaining := r.ttl - elapsed;
    ExpiringStep(cache.hash, cache.View(), r, elapsed, remaining, now);
    cache.SetTtl(r.key, r.value, remaining, now);
  }

  /** Applies one record, unless it ran out on disk. */
  method ApplyOne(cache: ShardedCache, r: Record, elapsed: int, now: int) returns (applied: bool)
    requires cache.Valid()
    modifies cache.shards, set c | c in cache.shards :: c.entries, cache.Nodes()
    ensures cache.Valid() && cache.Grown()
    ensures applied == Survives(r, elapsed)
    ensures cache.View() == RestoreStep(cache.hash, old(cache.View()), r, elapsed, now)
  {
    applied := true;
    if r.ttl == NO_EXPIRY {
      ApplyPersistent(cache, r, elapsed, now);
    } else if r.ttl - elapsed > 0 {
      ApplyExpiring(cache, r, elapsed, now);
    } else {
      applied := false;
    }
  }

  /** What the replay has made of the cache, and how many records it has applied, once
      record `i` and all after it have been dealt with. */
  datatype Stage = Stage(shards: Shards, applied: nat)

  function StageAt(hash: string -> nat, shards: Shards, records: seq<Record>, elapsed: int, nows: seq<int>,
                   i: nat): Stage
    requires |shards| > 0 && |nows| == |records| && i <= |records|
  {
    Stage(Replay(hash, shards, records[i..], elapsed, nows[i..]), Survivors(records[i..], elapsed))
  }

  /** From one stage to the next, by one record. */
  method ApplyNext(cache: ShardedCache, ghost start: Shards, records: seq<Record>, elapsed: int, nows: seq<int>, i: nat,
                   ghost stage: Stage) returns (applied: bool, ghost next: Stage)
    requires cache.Valid() && |start| > 0 && |nows| == |records| && i < |records|
    requires stage == StageAt(cache.hash, start, records, elapsed, nows, i + 1) && cache.View() == stage.shards
    modifies cache.shards, set c | c in cache.shards :: c.entries, cache.Nodes()
    ensures cache.Valid() && cache.Grown()
    ensures next == StageAt(cache.hash, start, records, elapsed, nows, i) && cache.View() == next.shards
    ensures next.applied == stage.applied + if applied then 1 else 0
  {
    ReplayNext(cache.hash, start, records, elapsed, nows, i);
    next := StageAt(cache.hash, start, records, elapsed, nows, i);
    applied := ApplyOne(cache, records[i], elapsed, nows[i]);
  }

  /** Applies parsed records last to first, skipping those that ran out on disk. */
  method Apply(cache: ShardedCache, records: seq<Record>, elapsed: int, nows: seq<int>)
    returns (loaded: nat, expired: nat)
    requires cache.Valid() && |nows| == |records|
    modifies cache.shards, set c | c in cache.shards :: c.entries, cache.Nodes()
    ensures cache.Valid() && cache.Grown()
    ensures cache.View() == Replay(cache.hash, old(cache.View()), records, elapsed, nows)
    ensures loaded == Survivors(records, elapsed) && loaded + expired == |records|
  {
    loaded, expired := 0, 0;
    ReplayEnds(cache.hash, cache.View(), records, elapsed, nows);
    ghost var stage := StageAt(cache.hash, cache.View(), records, elapsed, nows, |records|);
    for i := |records| downto 0
      invariant cache.Valid() && cache.Grown()
      invariant stage == StageAt(cache.hash, old(cache.View()), records, elapsed, nows, i)
      invariant cache.View() == stage.shards
      invariant loaded == stage.applied && loaded + expired == |records| - i
    {
      var applied;
      applied, stage := ApplyNext(cache, old(cache.View()), records, elapsed, nows, i, stage);
      if applied {
        loaded := loaded + 1;
      } else {
        expired := expired + 1;
      }
    }
  }

  /** A missing file is an empty success; a malformed one leaves the cache as it was;
      otherwise every record is applied or counted as expired. */
  method Load(cache: ShardedCache, file: Option<string>, loadedAt: int, clock: nat -> int) returns (r: LoadResult)
    requires cache.Valid()
    modifies cache.shards, set c | c in cache.shards :: c.entries, cache.Nodes()
    ensures cache.Valid() && cache.Grown()
    ensures file.None? ==> r == LoadResult(true, 0, 0) && cache.View() == old(cache.View())
    ensures file.Some? && Decode(file.value).Rejected? ==> !r.ok && cache.View() == old(cache.View())
    ensures file.Some? && Decode(file.value).Accepted? ==>
              var d := Decode(file.value);
              var elapsed := Elapsed(d.savedAt, loadedAt);
              && r.ok && r.loaded == Survivors(d.records, elapsed) && r.loaded + r.expired == |d.records|
              && cache.View() == Replay(cache.hash, old(cache.View()), d.records, elapsed, Readings(clock, |d.records|))
  {
    if file.None? {
      return LoadResult(true, 0, 0);
    }
    var d := Parse(file.value);
    if d.Rejected? {
      return LoadResult(false, 0, 0);
    }
    var loaded, expired := Apply(cache, d.records, Elapsed(d.savedAt, loadedAt), Readings(clock, |d.records|));
    return LoadResult(true, loaded, expired);
  }

  /** The bytes a save writes: the export first, then the stamp of the wall clock. */
  method SaveText(cache: ShardedCache, readings: seq<int>, savedAt: int) returns (file: string, entries: nat)
    requires cache.Valid() && |readings| == |cache.shards|
    ensures var records := RecordsOf(ExportEach(cache.View(), readings));
            file == FileText(savedAt, records) && entries == |records|
  {
    var all := cache.ExportEntries(readings);
    file := Write(savedAt, all);
    entries := |all|;
  }

  // ---- Deadlines across two clocks

  /** Milliseconds of a wall-clock instant given in nanoseconds since the Unix epoch, as a
      duration cast has them: truncated toward zero. */
  function WallMs(wall: int): int {
    if wall >= 0 then wall / NANOS_PER_MS else -((-wall) / NANOS_PER_MS)
  }

  /** `back` is what an entry exported at steady time `exported` becomes when its file, stamped
      at wall time `stamp` and opened at wall time `openedAt`, is applied at steady time `setAt`. */
  predicate Reborn(e: Entry, exported: int, stamp: int, openedAt: int, setAt: int, back: Entry) {
    Carries(e, exported, Elapsed(WallMs(stamp), WallMs(openedAt)), setAt, back)
  }

  /** Whether the file was on disk when the wall clock read zero. */
  predicate AcrossEpoch(stamp: int, openedAt: int) {
    stamp < 0 < openedAt
  }

  /** A deadline moved by the gaps and an error of milliseconds. */
  predicate Drifted(was: int, became: int, gaps: int, acrossEpoch: bool) {
    if acrossEpoch then -NANOS_PER_MS < became - was - gaps < 2 * NANOS_PER_MS
    else -2 * NANOS_PER_MS < became - was - gaps < NANOS_PER_MS
  }

  /** If both clocks advance together, a restored deadline is off by more than -2 ms and
      less than +1 ms, beyond the two gaps nobody counts: from the export to the stamp,
      and from opening the file to the set. Truncation toward zero shifts both bounds by
      one millisecond for a file that was on disk across the epoch. `stamped` and `loaded`
      are the steady times of the two wall-clock readings. */
  lemma {:induction false} DeadlineDrift(e: Entry, exported: int, stamped: int, stamp: int, loaded: int,
                                         openedAt: int, setAt: int, back: Entry)
    requires e.expiresAt.Some? && !Expired(e, exported) && Reborn(e, exported, stamp, openedAt, setAt, back)
    requires stamp <= openedAt && openedAt - stamp == loaded - stamped
    ensures back.expiresAt.Some?
    ensures Drifted(e.expiresAt.value, back.expiresAt.value, (stamped - exported) + (setAt - loaded),
                    AcrossEpoch(stamp, openedAt))
  {
    assert Remaining(e.expiresAt.value, exported) >= 0;
  }

  /** Whatever the wall clock did, a restored entry has no more time left than when it
      was saved. */
  lemma {:induction false} NeverExtended(e: Entry, exported: int, stamp: int, openedAt: int, setAt: int, back: Entry)
    requires e.expiresAt.Some? && !Expired(e, exported) && Reborn(e, exported, stamp, openedAt, setAt, back)
    ensures back.expiresAt.Some? && back.expiresAt.value - setAt <= e.expiresAt.value - exported
  {
    assert Remaining(e.expiresAt.value, exported) >= 0;
  }

  /** Save beside any operations of other clients, then load into an empty cache of any
      layout: every entry is the rebirth of one that was live when the save came to its shard,
      and so, if the clocks advance together, its deadline has drifted by no more than that. */
  lemma {:induction false} LoadedDeadlines(hash: string -> nat, shards: Shards, c: Scan.Script, stamped: int,
                                           stamp: int, loaded: int, openedAt: int, nows: seq<int>,
                                           other: string -> nat, capacities: seq<Option<nat>>, i: nat, e: Entry)
    returns (at: Scan.Script, reading: int, was: Entry, setAt: int)
    requires Scan.Possible(hash, shards, c) && Scan.Good(hash, shards) && i < |capacities|
    requires SnapshotFormat.Storable(WallMs(stamp), RecordsOf(Scan.Reached(hash, shards, c).out))
    requires |nows| == |Scan.Reached(hash, shards, c).out|
    requires stamp <= openedAt && openedAt - stamp == loaded - stamped
    requires var records := RecordsOf(Scan.Reached(hash, shards, c).out);
             var elapsed := Elapsed(WallMs(stamp), WallMs(openedAt));
             e in Replay(other, EmptyShards(capacities), records, elapsed, nows)[i].entries
    ensures var records := RecordsOf(Scan.Reached(hash, shards, c).out);
            Decode(FileText(WallMs(stamp), records)) == Accepted(WallMs(stamp), records)
    ensures Scan.Prefix(Scan.And(at, Scan.Visit(reading)), c) && Scan.Possible(hash, shards, at)
    ensures var j := ShardIndex(hash, |shards|, e.key);
            && Scan.Reached(hash, shards, at).visited == j && was in Scan.Reached(hash, shards, at).shards[j].entries
            && !Expired(was, reading) && setAt in nows && Reborn(was, reading, stamp, openedAt, setAt, e)
    ensures e.key == was.key && e.value == was.value && (e.expiresAt.None? <==> was.expiresAt.None?)
    ensures was.expiresAt.Some? ==>
              e.expiresAt.Some? && Drifted(was.expiresAt.value, e.expiresAt.value,
                                           (stamped - reading) + (setAt - loaded), AcrossEpoch(stamp, openedAt))
  {
    SnapshotFormat.RoundTrip(WallMs(stamp), RecordsOf(Scan.Reached(hash, shards, c).out));
    at, reading, was, setAt := LoadedOrigin(hash, shards, c, Elapsed(WallMs(stamp), WallMs(openedAt)), nows, other,
                                            capacities, i, e);
    if was.expiresAt.Some? {
      DeadlineDrift(was, reading, stamped, stamp, loaded, openedAt, setAt, e);
    }
  }

  /** No entry that has run out by steady time `loaded` comes back. */
  ghost predicate NoneResurrected(exported: int, loaded: int, elapsed: int) {
    forall e: Entry :: !Expired(e, exported) && Survives(RecordOf(SnapshotOf(e, exported)), elapsed) ==>
      !Expired(e, loaded)
  }

  /** A load resurrects nothing if and only if the wall clock measured at least the whole
      milliseconds that really passed since the export. */
  lemma {:induction false} NoneResurrectedIff(exported: int, loaded: int, elapsed: int)
    requires elapsed >= 0
    ensures NoneResurrected(exported, loaded, elapsed) <==> (loaded - exported) / NANOS_PER_MS <= elapsed
  {
    if (loaded - exported) / NANOS_PER_MS <= elapsed {
      forall e: Entry | !Expired(e, exported) && Survives(RecordOf(SnapshotOf(e, exported)), elapsed)
        ensures !Expired(e, loaded)
      {
      }
    } else {
      var e := Entry("", "", Some(loaded));
      assert Remaining(loaded, exported) > elapsed;
      assert !Expired(e, exported) && Survives(RecordOf(SnapshotOf(e, exported)), elapsed) && Expired(e, loaded);
    }
  }

  /** Clocks that advance together resurrect nothing when the stamp is taken with the
      export and the file is not on disk across the epoch. But let the wall clock be set
      back by a minute, so that it reads the same when the file is loaded a minute later:
      a key that had a millisecond left comes back after being dead for the rest. */
  lemma {:induction false} ResurrectionByClock(exported: int, stamp: int, passed: nat)
    requires !AcrossEpoch(stamp, stamp + passed)
    ensures NoneResurrected(exported, exported + passed, Elapsed(WallMs(stamp), WallMs(stamp + passed)))
    ensures var e, minute := Entry("", "", Some(NANOS_PER_MS)), 60_000 * NANOS_PER_MS;
            && !Expired(e, 0) && Expired(e, minute)
            && Survives(RecordOf(SnapshotOf(e, 0)), Elapsed(60_000, 60_000))
            && !NoneResurrected(0, minute, Elapsed(60_000, 60_000))
  {
    NoneResurrectedIff(exported, exported + passed, Elapsed(WallMs(stamp), WallMs(stamp + passed)));
    NoneResurrectedIff(0, 60_000 * NANOS_PER_MS, 0);
  }
}
