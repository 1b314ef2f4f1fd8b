/** Whole runs of one cache: the invariants every step keeps, the meaning of the list
    order, the choice of victim, and where every stored entry went. */
module Runs {
  import opened Prelude
  import opened CacheModel

  /** A run so far: operations in order, each with the clock reading it made. */
  datatype Trace = Start | Then(before: Trace, op: Op, now: int)

  function Run(s: State, t: Trace): State {
    match t
    case Start => s
    case Then(before, op, now) => Step(Run(s, before), op, now).state
  }

  function Length(t: Trace): nat {
    match t
    case Start => 0
    case Then(before, _, _) => Length(before) + 1
  }

  /** The last reading of the clock, or `floor` before the first. */
  function Clock(t: Trace, floor: int): int {
    match t
    case Start => floor
    case Then(_, _, now) => now
  }

  /** The steady clock never runs backwards. */
  predicate Monotone(t: Trace, floor: int) {
    match t
    case Start => true
    case Then(before, _, now) => Monotone(before, floor) && Clock(before, floor) <= now
  }

  // ---- What every step keeps

  function Take(capacity: Option<nat>, es: seq<Entry>): seq<Entry> {
    if capacity.Some? && |es| > capacity.value then es[..capacity.value] else es
  }

  predicate WithinCapacity(s: State) {
    s.capacity.Some? ==> |s.entries| <= s.capacity.value
  }

  predicate Sane(s: State) {
    DistinctKeys(s.entries) && WithinCapacity(s)
  }

  lemma {:induction false} TrimIsTake(s: State)
    ensures Trim(s) == s.(entries := Take(s.capacity, s.entries),
                          evictions := s.evictions + |s.entries| - |Take(s.capacity, s.entries)|)
    decreases |s.entries|
  {
    if s.capacity.Some? && |s.entries| > s.capacity.value {
      TrimIsTake(EvictOldest(s));
    }
  }

  /** New key or old, a store puts the entry in front of the others and cuts the list
      to capacity; from a sane state it evicts at most once. */
  lemma {:induction false} StoreShape(s: State, e: Entry)
    requires Sane(s)
    ensures var es := [e] + Without(s.entries, e.key);
            && Store(s, e) == s.(entries := Take(s.capacity, es),
                                 evictions := s.evictions + |es| - |Take(s.capacity, es)|)
            && |es| - |Take(s.capacity, es)| <= 1
            && (Find(s.entries, e.key).Some? ==> Take(s.capacity, es) == es)
  {
    if Find(s.entries, e.key).Some? {
      WithoutSize(s.entries, e.key);
    } else {
      WithoutAbsent(s.entries, e.key);
      TrimIsTake(s.(entries := [e] + s.entries));
    }
  }

  /** The ways one step can rewrite the list. */
  datatype Change = Same | Removed(key: string) | Stored(e: Entry) | Emptied

  function ChangeOf(s: State, op: Op, now: int): Change {
    match op
    case Set(k, v) => Stored(Entry(k, v, None))
    case SetTtl(k, v, ttl) =>
      if ttl > 0 then Stored(Entry(k, v, Some(now + ttl * NANOS_PER_MS)))
      else if Find(s.entries, k).Some? then Removed(k) else Same
    case Get(k) => ReadChange(s, k, now)
    case GetInto(k, _) => ReadChange(s, k, now)
    case Ttl(k) => if Find(s.entries, k).Some? && Expired(Find(s.entries, k).value, now) then Removed(k) else Same
    case Erase(k) => if Find(s.entries, k).Some? then Removed(k) else Same
    case Contains(k) => Same
    case Clear => Emptied
    case Export => Same
  }

  function ReadChange(s: State, key: string, now: int): Change {
    match Find(s.entries, key)
    case None => Same
    case Some(e) => if Expired(e, now) then Removed(key) else Stored(e)
  }

  function Changed(capacity: Option<nat>, es: seq<Entry>, c: Change): seq<Entry> {
    match c
    case Same => es
    case Removed(k) => Without(es, k)
    case Stored(e) => Take(capacity, [e] + Without(es, e.key))
    case Emptied => []
  }

  /** Every step is one of those rewrites, and a stored entry is one the step used. */
  lemma {:induction false} StepShape(s: State, op: Op, now: int)
    requires Sane(s)
    ensures var s' := Step(s, op, now).state;
            var c := ChangeOf(s, op, now);
            && s'.capacity == s.capacity
            && s'.entries == Changed(s.capacity, s.entries, c)
            && s'.evictions == s.evictions +
                 (if c.Stored? then |[c.e] + Without(s.entries, c.e.key)| - |s'.entries| else 0)
  {
    var c := ChangeOf(s, op, now);
    if c.Stored? {
      StoreShape(s, c.e);
    }
  }

  function ChangedLookup(r: Option<Entry>, c: Change, key: string): Option<Entry> {
    match c
    case Same => r
    case Removed(k) => if k == key then None else r
    case Stored(e) => if e.key == key then Some(e) else r
    case Emptied => None
  }

  /** Without a capacity, a step changes what is found under a key as its rewrite says. */
  lemma {:induction false} StepLookup(s: State, op: Op, now: int, key: string)
    requires DistinctKeys(s.entries) && s.capacity.None?
    ensures Find(Step(s, op, now).state.entries, key) ==
            ChangedLookup(Find(s.entries, key), ChangeOf(s, op, now), key)
  {
    StepShape(s, op, now);
    var c := ChangeOf(s, op, now);
    if c.Stored? {
      WithoutLookup(s.entries, c.e.key, key);
      assert ([c.e] + Without(s.entries, c.e.key))[1..] == Without(s.entries, c.e.key);
    } else if c.Removed? {
      WithoutLookup(s.entries, c.key, key);
    }
  }

  lemma {:induction false} StepSane(s: State, op: Op, now: int)
    requires Sane(s)
    ensures Sane(Step(s, op, now).state)
    ensures Step(s, op, now).state.capacity == s.capacity
  {
    StepShape(s, op, now);
    var c := ChangeOf(s, op, now);
    if c.Stored? {
      WithoutLookup(s.entries, c.e.key, c.e.key);
    } else if c.Removed? {
      WithoutLookup(s.entries, c.key, c.key);
    }
  }

  /** In every reachable state keys are distinct and the capacity is respected. */
  lemma {:induction false} RunSane(s: State, t: Trace)
    requires Sane(s)
    ensures Sane(Run(s, t)) && Run(s, t).capacity == s.capacity
  {
    if t.Then? {
      RunSane(s, t.before);
      StepSane(Run(s, t.before), t.op, t.now);
    }
  }

  // ---- What can be read after one step

  lemma {:induction false} FindConcat(xs: seq<Entry>, ys: seq<Entry>, key: string)
    ensures Find(xs + ys, key) == if Find(xs, key).Some? then Find(xs, key) else Find(ys, key)
  {
    if xs == [] {
      assert xs + ys == ys;
    } else {
      assert (xs + ys)[1..] == xs[1..] + ys;
      FindConcat(xs[1..], ys, key);
    }
  }

  predicate HasRoom(capacity: Option<nat>) {
    capacity.Some? ==> capacity.value > 0
  }

  lemma {:induction false} FindStored(capacity: Option<nat>, es: seq<Entry>, e: Entry, key: string)
    ensures var after := Take(capacity, [e] + Without(es, e.key));
            && (key == e.key ==> Find(after, key) == if HasRoom(capacity) then Some(e) else None)
            && (key != e.key ==> Find(after, key).None? || Find(after, key) == Find(es, key))
            && (key != e.key && |after| == |[e] + Without(es, e.key)| ==> Find(after, key) == Find(es, key))
  {
    var all := [e] + Without(es, e.key);
    assert all[1..] == Without(es, e.key);
    FindOther(es, e.key, key);
    if capacity.Some? && |all| > capacity.value {
      assert all == all[..capacity.value] + all[capacity.value..];
      FindConcat(all[..capacity.value], all[capacity.value..], key);
    }
  }

  /** Reading changes nothing that can be read; erasing takes away its own key and nothing
      else. */
  lemma {:induction false} SeenAfterRead(s: State, op: Op, now: int, key: string, later: int)
    requires Sane(s) && now <= later && !op.Set? && !op.SetTtl? && !op.Clear?
    ensures SeenIn(Step(s, op, now).state.entries, key, later) ==
            if op.Erase? && op.key == key then None else SeenIn(s.entries, key, later)
  {
    StepShape(s, op, now);
    var c := ChangeOf(s, op, now);
    if c.Stored? {
      HitKeeps(s, c.e, key);
    } else if c.Removed? {
      FindOther(s.entries, c.key, key);
    }
  }

  /** Moving an entry to the front changes nothing that is found. */
  lemma {:induction false} HitKeeps(s: State, e: Entry, key: string)
    requires Sane(s) && Find(s.entries, e.key) == Some(e)
    ensures Find(Changed(s.capacity, s.entries, Stored(e)), key) == Find(s.entries, key)
  {
    WithoutSize(s.entries, e.key);
    FindStored(s.capacity, s.entries, e, key);
  }

  lemma {:induction false} StoreSeen(s: State, e: Entry, key: string, later: int)
    requires Sane(s)
    ensures var after := Changed(s.capacity, s.entries, Stored(e));
            var r := SeenIn(after, key, later);
            if key == e.key then r == if HasRoom(s.capacity) && !Expired(e, later) then Some(e) else None
            else
              || (r.None? && |after| < |[e] + Without(s.entries, e.key)|)
              || r == SeenIn(s.entries, key, later)
  {
    FindStored(s.capacity, s.entries, e, key);
  }

  /** What is left to be read under a key that is written. */
  function Written(capacity: Option<nat>, op: Op, now: int, later: int): Option<Entry>
    requires op.Set? || op.SetTtl?
  {
    if !HasRoom(capacity) then None
    else if op.Set? then Some(Entry(op.key, op.value, None))
    else if later - now < op.ttl * 1_000_000 then Some(Entry(op.key, op.value, Some(now + op.ttl * 1_000_000)))
    else None
  }

  /** What is written can be read until its time is up, if the cache can hold anything at
      all; what is under another key is there as before, or was evicted. */
  lemma {:induction false} SeenAfterWrite(s: State, op: Op, now: int, key: string, later: int)
    requires Sane(s) && now <= later && (op.Set? || op.SetTtl?)
    ensures var s' := Step(s, op, now).state;
            var r := SeenIn(s'.entries, key, later);
            if key == op.key then r == Written(s.capacity, op, now, later)
            else (r.None? && s'.evictions > s.evictions) || r == SeenIn(s.entries, key, later)
  {
    StepShape(s, op, now);
    var c := ChangeOf(s, op, now);
    if c.Stored? {
      StoreSeen(s, c.e, key, later);
    } else if c.Removed? {
      FindOther(s.entries, c.key, key);
    }
  }

  // ---- The list order is last-use order

  /** The key a step counts as used: a stored key, or a key that was read and hit. */
  function Used(s: State, op: Op, now: int): Option<string> {
    match op
    case Set(k, _) => Some(k)
    case SetTtl(k, _, ttl) => if ttl > 0 then Some(k) else None
    case Get(k) => if Step(s, op, now).answer == Value(None) then None else Some(k)
    case GetInto(k, _) => if Step(s, op, now).answer.found then Some(k) else None
    case _ => None
  }

  predicate Reads(op: Op) {
    op.Get? || op.GetInto?
  }

  /** A read that hits brings its entry to the front as it is, a write its own; asking for a
      time to live or for presence, erasing, clearing, exporting and a miss leave the others
      in their order. */
  lemma {:induction false} OnlyUseReorders(s: State, op: Op, now: int)
    requires Sane(s)
    ensures var es := Step(s, op, now).state.entries;
            if Reads(op) && SeenIn(s.entries, op.key, now).Some? then
              es == [SeenIn(s.entries, op.key, now).value] + Without(s.entries, op.key)
            else if op.Set? || (op.SetTtl? && op.ttl > 0) then
              HasRoom(s.capacity) ==>
                es != [] && es[0].key == op.key && es[0].value == op.value && Sub(es[1..], s.entries)
            else Sub(es, s.entries)
  {
    StepShape(s, op, now);
    var c := ChangeOf(s, op, now);
    match c
    case Stored(e) => StoredFront(s, e);
    case Removed(k) => KeepSub(s.entries, NotKey(k));
    case Same => SubRefl(s.entries);
    case Emptied =>
  }

  lemma TakeFront(capacity: Option<nat>, e: Entry, rest: seq<Entry>)
    requires HasRoom(capacity)
    ensures var es := Take(capacity, [e] + rest);
            es != [] && es[0] == e && |es| - 1 <= |rest| && es[1..] == rest[..|es| - 1]
  {
  }

  lemma {:induction false} StoredFront(s: State, e: Entry)
    requires Sane(s)
    ensures var es := Changed(s.capacity, s.entries, Stored(e));
            && (HasRoom(s.capacity) ==> es != [] && es[0] == e && Sub(es[1..], s.entries))
            && (Find(s.entries, e.key).Some? ==> es == [e] + Without(s.entries, e.key))
  {
    var rest := Without(s.entries, e.key);
    StoreShape(s, e);
    if HasRoom(s.capacity) {
      TakeFront(s.capacity, e, rest);
      KeepSub(s.entries, NotKey(e.key));
      SubPrefix(rest, s.entries, |Take(s.capacity, [e] + rest)| - 1);
    }
  }

  lemma {:induction false} SubPrefix(xs: seq<Entry>, ys: seq<Entry>, n: nat)
    requires Sub(xs, ys) && n <= |xs|
    ensures Sub(xs[..n], ys)
    decreases |xs|
  {
    if n == |xs| {
      assert xs[..n] == xs;
    } else {
      SubDropLast(xs, ys);
      SubPrefix(xs[..|xs| - 1], ys, n);
      assert xs[..|xs| - 1][..n] == xs[..n];
    }
  }

  /** The number of the last step that used the key, 0 if none did. */
  function LastUse(s: State, t: Trace, key: string): nat {
    match t
    case Start => 0
    case Then(before, op, now) =>
      if Used(Run(s, before), op, now) == Some(key) then Length(t) else LastUse(s, before, key)
  }

  lemma {:induction false} LastUseBound(s: State, t: Trace, key: string)
    ensures LastUse(s, t, key) <= Length(t)
  {
    if t.Then? {
      LastUseBound(s, t.before, key);
    }
  }

  predicate Descending(es: seq<Entry>, rank: string -> nat) {
    && (forall e :: e in es ==> rank(e.key) > 0)
    && (forall i, j :: 0 <= i < j < |es| ==> rank(es[i].key) > rank(es[j].key))
  }

  lemma {:induction false} KeepDescending(es: seq<Entry>, p: Entry -> bool, rank: string -> nat)
    requires Descending(es, rank)
    ensures Descending(Keep(es, p), rank)
  {
    if es != [] {
      KeepDescending(es[1..], p, rank);
      DescendingCons(es[0], Keep(es[1..], p), rank);
    }
  }

  lemma DescendingCons(e: Entry, es: seq<Entry>, rank: string -> nat)
    requires Descending(es, rank) && rank(e.key) > 0 && forall x :: x in es ==> rank(e.key) > rank(x.key)
    ensures Descending([e] + es, rank)
  {
  }

  function Ranks(s: State, t: Trace): string -> nat {
    key => LastUse(s, t, key)
  }

  /** A step stores exactly the entry of the key it uses. */
  lemma UsedIsStored(s: State, op: Op, now: int)
    ensures var c := ChangeOf(s, op, now);
            Used(s, op, now) == if c.Stored? then Some(c.e.key) else None
  {
  }

  lemma {:induction false} SameRanks(es: seq<Entry>, rank: string -> nat, rank': string -> nat)
    requires Descending(es, rank) && forall e :: e in es ==> rank'(e.key) == rank(e.key)
    ensures Descending(es, rank')
  {
    assert forall i :: 0 <= i < |es| ==> es[i] in es;
  }

  lemma {:induction false} TakeDescending(capacity: Option<nat>, es: seq<Entry>, rank: string -> nat)
    requires Descending(es, rank)
    ensures Descending(Take(capacity, es), rank)
  {
    assert forall e :: e in Take(capacity, es) ==> e in es;
  }

  /** Giving the used key a rank above all others keeps the list in rank order. */
  lemma {:induction false} ChangeDescending(capacity: Option<nat>, es: seq<Entry>, c: Change, rank: string -> nat,
                                            rank': string -> nat, top: nat)
    requires Descending(es, rank)
    requires forall k :: rank(k) < top
    requires forall k :: rank'(k) == if c.Stored? && c.e.key == k then top else rank(k)
    ensures Descending(Changed(capacity, es, c), rank')
  {
    if c.Stored? {
      KeepDescending(es, NotKey(c.e.key), rank);
      SameRanks(Without(es, c.e.key), rank, rank');
      DescendingCons(c.e, Without(es, c.e.key), rank');
      TakeDescending(capacity, [c.e] + Without(es, c.e.key), rank');
    } else if c.Removed? {
      KeepDescending(es, NotKey(c.key), rank);
      SameRanks(Without(es, c.key), rank, rank');
    } else if c.Same? {
      SameRanks(es, rank, rank');
    }
  }

  /** In every reachable state the list is ordered by last use, newest first. */
  lemma {:induction false} ListIsLastUseOrder(capacity: Option<nat>, t: Trace)
    ensures Descending(Run(Empty(capacity), t).entries, Ranks(Empty(capacity), t))
  {
    var s0 := Empty(capacity);
    if t.Then? {
      var s := Run(s0, t.before);
      ListIsLastUseOrder(capacity, t.before);
      RunSane(s0, t.before);
      StepShape(s, t.op, t.now);
      UsedIsStored(s, t.op, t.now);
      forall k ensures Ranks(s0, t.before)(k) < Length(t) {
        LastUseBound(s0, t.before, k);
      }
      ChangeDescending(capacity, s.entries, ChangeOf(s, t.op, t.now),
                       Ranks(s0, t.before), Ranks(s0, t), Length(t));
    }
  }

  /** A store that evicts does so because a new key met a full list, and the list loses
      its last entry. */
  lemma {:induction false} EvictionDropsLast(s: State, op: Op, now: int) returns (e: Entry)
    requires Sane(s)
    requires Step(s, op, now).state.evictions > s.evictions
    ensures Find(s.entries, e.key).None?
    ensures Step(s, op, now).state.entries == ([e] + s.entries)[..|s.entries|]
    ensures Step(s, op, now).state.evictions == s.evictions + 1
  {
    StepShape(s, op, now);
    e := ChangeOf(s, op, now).e;
    StoreShape(s, e);
    WithoutAbsent(s.entries, e.key);
  }

  /** An evicted key is the one unused for longest: every other resident key was used
      later, and stays. */
  lemma {:induction false} VictimIsLeastRecentlyUsed(capacity: Option<nat>, t: Trace, op: Op, now: int,
          victim: string, other: string)
    requires var s := Run(Empty(capacity), t);
             var s' := Step(s, op, now).state;
             && s'.evictions > s.evictions
             && Find(s.entries, victim).Some? && Find(s'.entries, victim).None?
             && Find(s.entries, other).Some? && other != victim
    ensures LastUse(Empty(capacity), t, victim) < LastUse(Empty(capacity), t, other)
    ensures Find(Step(Run(Empty(capacity), t), op, now).state.entries, other).Some?
  {
    var s := Run(Empty(capacity), t);
    var kept := Step(s, op, now).state.entries;
    RunSane(Empty(capacity), t);
    var e := EvictionDropsLast(s, op, now);
    ListIsLastUseOrder(capacity, t);
    LastIsVictim(s.entries, e, kept, victim, other, Ranks(Empty(capacity), t));
  }

  /** All but the last entry stay when a new one comes to the front of a full list. */
  lemma {:induction false} FrontStays(es: seq<Entry>, e: Entry, m: nat)
    requires m < |es| - 1
    ensures es[m] in ([e] + es)[..|es|]
  {
    assert ([e] + es)[..|es|][m + 1] == es[m];
  }

  lemma {:induction false} LastIsVictim(es: seq<Entry>, e: Entry, kept: seq<Entry>, victim: string, other: string,
                                        rank: string -> nat)
    requires Descending(es, rank)
    requires kept == ([e] + es)[..|es|]
    requires Find(es, victim).Some? && Find(kept, victim).None?
    requires Find(es, other).Some? && other != victim
    ensures rank(victim) < rank(other) && Find(kept, other).Some?
  {
    var i :| 0 <= i < |es| && es[i] == Find(es, victim).value;
    var j :| 0 <= j < |es| && es[j] == Find(es, other).value;
    if i < |es| - 1 {
      FrontStays(es, e, i);
    }
    FrontStays(es, e, j);
  }

  // ---- Conservation

  /** What the outside knows of entries coming and going. */
  datatype Ledger = Ledger(stored: nat, erased: nat, cleared: nat)

  function Book(s: State, op: Op, now: int): Ledger {
    var isNew := (op.Set? || (op.SetTtl? && op.ttl > 0)) && Find(s.entries, op.key).None?;
    var erases := op.Erase? || (op.SetTtl? && op.ttl <= 0);
    Ledger(if isNew then 1 else 0,
           if erases && EraseKey(s, op.key, now).answer.flag then 1 else 0,
           if op.Clear? then |s.entries| else 0)
  }

  function Books(s: State, t: Trace): Ledger {
    match t
    case Start => Ledger(0, 0, 0)
    case Then(before, op, now) =>
      var past := Books(s, before);
      var last := Book(Run(s, before), op, now);
      Ledger(past.stored + last.stored, past.erased + last.erased, past.cleared + last.cleared)
  }

  lemma {:induction false} StepConserves(s: State, op: Op, now: int)
    requires Sane(s)
    ensures var s' := Step(s, op, now).state;
            var b := Book(s, op, now);
            |s.entries| + s.evictions + s.expiredRemovals + b.stored ==
            |s'.entries| + s'.evictions + s'.expiredRemovals + b.erased + b.cleared
  {
    StepShape(s, op, now);
    var c := ChangeOf(s, op, now);
    if c.Stored? {
      StoreShape(s, c.e);
      if Find(s.entries, c.e.key).Some? { WithoutSize(s.entries, c.e.key); } else { WithoutAbsent(s.entries, c.e.key); }
    } else if c.Removed? {
      WithoutSize(s.entries, c.key);
    }
  }

  /** Every new-key store is accounted for: still resident, evicted, expired, erased
      while visible, or dropped by a clear. */
  lemma {:induction false} Conservation(capacity: Option<nat>, t: Trace)
    ensures var s := Run(Empty(capacity), t);
            var b := Books(Empty(capacity), t);
            b.stored == |s.entries| + s.evictions + s.expiredRemovals + b.erased + b.cleared
  {
    if t.Then? {
      Conservation(capacity, t.before);
      RunSane(Empty(capacity), t.before);
      StepConserves(Run(Empty(capacity), t.before), t.op, t.now);
    }
  }
}
