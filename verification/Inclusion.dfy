/** Capacity inclusion: give two caches the same operations at the same clock readings
    and the smaller one holds, in the same order, a part of what the larger one holds. */
module Inclusion {
  import opened Prelude
  import opened CacheModel
  import opened Runs

  predicate AtMost(small: Option<nat>, large: Option<nat>) {
    large.None? || (small.Some? && small.value <= large.value)
  }

  /** The larger list outgrows the smaller by no more than the difference in capacity. */
  predicate GapBounded(small: Option<nat>, xs: seq<Entry>, large: Option<nat>, ys: seq<Entry>) {
    small.Some? && large.Some? ==> |ys| - |xs| <= large.value - small.value
  }

  ghost predicate Included(s: State, l: State) {
    && Sane(s) && Sane(l)
    && AtMost(s.capacity, l.capacity)
    && Sub(s.entries, l.entries)
    && GapBounded(s.capacity, s.entries, l.capacity, l.entries)
  }

  /** `a` tells a caller no more than `b`: a miss, or the very same answer. */
  ghost predicate AnswerBelow(a: Answer, b: Answer) {
    match a
    case Done => b.Done?
    case Value(v) => b.Value? && (v.None? || a == b)
    case Into(found, out) => b.Into? && (!found || a == b)
    case Info(info) => b.Info? && (info.Missing? || a == b)
    case Flag(flag) => b.Flag? && (!flag || a == b)
    case Entries(es) => b.Entries? && Sub(es, b.entries)
  }

  lemma {:induction false} FindSub(xs: seq<Entry>, ys: seq<Entry>, key: string)
    requires Sub(xs, ys) && DistinctKeys(ys)
    ensures Find(xs, key).Some? ==> Find(ys, key) == Find(xs, key)
    ensures Find(ys, key).None? ==> Find(xs, key).None?
  {
    SubSize(xs, ys);
    var r := Find(xs, key);
    if r.Some? {
      var i :| 0 <= i < |ys| && ys[i] == r.value;
      FindIndex(ys, i);
    }
  }

  lemma {:induction false} ExportSub(xs: seq<Entry>, ys: seq<Entry>, now: int)
    requires Sub(xs, ys)
    ensures Sub(ExportEntries(xs, now), ExportEntries(ys, now))
    decreases |ys|
  {
    if xs != [] {
      if xs[0] == ys[0] && Sub(xs[1..], ys[1..]) {
        ExportSub(xs[1..], ys[1..], now);
        if !Expired(xs[0], now) {
          SubCons(ExportEntries(xs[1..], now), ExportEntries(ys[1..], now), SnapshotOf(xs[0], now));
        }
      } else {
        ExportSub(xs, ys[1..], now);
        if !Expired(ys[0], now) {
          SubCons(ExportEntries(xs, now), ExportEntries(ys[1..], now), SnapshotOf(ys[0], now));
        }
      }
    }
  }

  /** Removing the same key from both lists. */
  lemma {:induction false} RemoveBoth(c1: Option<nat>, xs: seq<Entry>, c2: Option<nat>, ys: seq<Entry>, key: string)
    requires DistinctKeys(xs) && DistinctKeys(ys) && Sub(xs, ys)
    requires GapBounded(c1, xs, c2, ys)
    ensures Sub(Without(xs, key), Without(ys, key))
    ensures GapBounded(c1, Without(xs, key), c2, Without(ys, key))
  {
    SubKeep(xs, ys, NotKey(key));
    FindSub(xs, ys, key);
    if Find(xs, key).Some? { WithoutSize(xs, key); } else { WithoutAbsent(xs, key); }
    if Find(ys, key).Some? { WithoutSize(ys, key); }
  }

  /** Cutting both lists back to capacity when each is over by at most one. If the
      larger must evict, the gap bound forces the smaller to evict as well. */
  lemma {:induction false} TakeBoth(c1: Option<nat>, xs: seq<Entry>, c2: Option<nat>, ys: seq<Entry>)
    requires AtMost(c1, c2) && Sub(xs, ys) && GapBounded(c1, xs, c2, ys)
    requires c1.Some? ==> |xs| <= c1.value + 1
    requires c2.Some? ==> |ys| <= c2.value + 1
    ensures Sub(Take(c1, xs), Take(c2, ys))
    ensures GapBounded(c1, Take(c1, xs), c2, Take(c2, ys))
  {
    if c2.Some? && |ys| > c2.value {
      SubDropLasts(xs, ys);
    } else if c1.Some? && |xs| > c1.value {
      SubDropLast(xs, ys);
    }
  }

  lemma {:induction false} StoreBoth(s: State, l: State, e: Entry)
    requires Included(s, l)
    ensures Sub(Take(s.capacity, [e] + Without(s.entries, e.key)), Take(l.capacity, [e] + Without(l.entries, e.key)))
    ensures GapBounded(s.capacity, Take(s.capacity, [e] + Without(s.entries, e.key)),
                       l.capacity, Take(l.capacity, [e] + Without(l.entries, e.key)))
  {
    RemoveBoth(s.capacity, s.entries, l.capacity, l.entries, e.key);
    SubCons(Without(s.entries, e.key), Without(l.entries, e.key), e);
    TakeBoth(s.capacity, [e] + Without(s.entries, e.key), l.capacity, [e] + Without(l.entries, e.key));
  }

  /** A read that hits in the larger cache only moves an entry the smaller lacks. */
  lemma {:induction false} TouchLarger(s: State, l: State, e: Entry)
    requires Included(s, l) && Find(s.entries, e.key).None? && Find(l.entries, e.key).Some?
    ensures Sub(s.entries, Take(l.capacity, [e] + Without(l.entries, e.key)))
    ensures |Take(l.capacity, [e] + Without(l.entries, e.key))| == |l.entries|
  {
    RemoveBoth(s.capacity, s.entries, l.capacity, l.entries, e.key);
    WithoutAbsent(s.entries, e.key);
    WithoutSize(l.entries, e.key);
    SubCons(s.entries, Without(l.entries, e.key), e);
  }

  /** How the two caches' rewrites of their lists compare. */
  lemma {:induction false} ChangesCompare(s: State, l: State, op: Op, now: int)
    requires Included(s, l)
    ensures var c, d := ChangeOf(s, op, now), ChangeOf(l, op, now);
            || c == d
            || (c.Same? && d.Removed? && Find(s.entries, d.key).None?)
            || (c.Same? && d.Stored? && Find(s.entries, d.e.key).None? && Find(l.entries, d.e.key).Some?)
    ensures AnswerBelow(Step(s, op, now).answer, Step(l, op, now).answer)
  {
    if op.Export? {
      ExportSub(s.entries, l.entries, now);
    } else if !op.Clear? {
      FindSub(s.entries, l.entries, op.key);
    }
  }

  lemma {:induction false} StepIncluded(s: State, l: State, op: Op, now: int)
    requires Included(s, l)
    ensures Included(Step(s, op, now).state, Step(l, op, now).state)
    ensures AnswerBelow(Step(s, op, now).answer, Step(l, op, now).answer)
  {
    StepSane(s, op, now);
    StepSane(l, op, now);
    StepShape(s, op, now);
    StepShape(l, op, now);
    ChangesCompare(s, l, op, now);
    var c, d := ChangeOf(s, op, now), ChangeOf(l, op, now);
    if c == d && c.Stored? {
      StoreBoth(s, l, c.e);
    } else if d.Removed? {
      RemoveBoth(s.capacity, s.entries, l.capacity, l.entries, d.key);
      if c.Same? { WithoutAbsent(s.entries, d.key); }
    } else if d.Stored? {
      TouchLarger(s, l, d.e);
    }
  }

  /** On every run the smaller cache's list is a subsequence of the larger's, with equal
      entries and a bounded gap, and every answer of the smaller is a miss or equal. */
  lemma {:induction false} CapacityInclusion(small: Option<nat>, large: Option<nat>, t: Trace, op: Op, now: int)
    requires AtMost(small, large)
    ensures Included(Run(Empty(small), t), Run(Empty(large), t))
    ensures AnswerBelow(Step(Run(Empty(small), t), op, now).answer, Step(Run(Empty(large), t), op, now).answer)
  {
    if t.Then? {
      CapacityInclusion(small, large, t.before, t.op, t.now);
      StepIncluded(Run(Empty(small), t.before), Run(Empty(large), t.before), t.op, t.now);
    }
    StepIncluded(Run(Empty(small), t), Run(Empty(large), t), op, now);
  }

  /** Answers and rewrites look at nothing but the list. */
  lemma SameList(s: State, l: State, op: Op, now: int)
    requires s.entries == l.entries
    ensures ChangeOf(s, op, now) == ChangeOf(l, op, now)
    ensures Step(s, op, now).answer == Step(l, op, now).answer
  {
  }

  /** A step that evicts nothing cuts nothing off. */
  lemma {:induction false} NoEvictionStep(s: State, op: Op, now: int)
    requires Sane(s)
    ensures s.evictions <= Step(s, op, now).state.evictions
    ensures Step(s, op, now).state.evictions == s.evictions ==>
              Step(s, op, now).state.entries == Changed(None, s.entries, ChangeOf(s, op, now))
  {
    StepShape(s, op, now);
  }

  /** Misses come only from evictions: a bounded cache that has evicted nothing holds
      exactly what an unbounded one holds, and so answers alike. */
  lemma {:induction false} NoEvictionNoLoss(capacity: Option<nat>, t: Trace, op: Op, now: int)
    requires Run(Empty(capacity), t).evictions == 0
    ensures Run(Empty(capacity), t).entries == Run(Empty(None), t).entries
    ensures Step(Run(Empty(capacity), t), op, now).answer == Step(Run(Empty(None), t), op, now).answer
  {
    if t.Then? {
      var s, l := Run(Empty(capacity), t.before), Run(Empty(None), t.before);
      RunSane(Empty(capacity), t.before);
      RunSane(Empty(None), t.before);
      NoEvictionStep(s, t.op, t.now);
      NoEvictionNoLoss(capacity, t.before, t.op, t.now);
      SameList(s, l, t.op, t.now);
      StepShape(l, t.op, t.now);
    }
    SameList(Run(Empty(capacity), t), Run(Empty(None), t), op, now);
  }
}
