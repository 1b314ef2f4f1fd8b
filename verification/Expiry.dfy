/** Lazy expiry against a cache that deletes every entry the instant its deadline
    arrives: when the two can be told apart, and when they cannot. */
module Expiry {
  import opened Prelude
  import opened CacheModel
  import opened Runs

  // ---- An eager cache of the same capacity

  /** The eager cache has already dropped what expired by `now`, then does the same. */
  function EagerStep(capacity: Option<nat>, es: seq<Entry>, op: Op, now: int): Outcome {
    Step(State(capacity, Live(es, now), 0, 0), op, now)
  }

  function EagerRun(capacity: Option<nat>, t: Trace): seq<Entry> {
    match t
    case Start => []
    case Then(before, op, now) => EagerStep(capacity, EagerRun(capacity, before), op, now).state.entries
  }

  /** The list is full and its oldest entry is live although another has expired. */
  predicate LiveVictim(capacity: Option<nat>, es: seq<Entry>, now: int) {
    && es != [] && capacity == Some(|es|)
    && !Expired(es[|es| - 1], now)
    && exists e :: e in es && Expired(e, now)
  }

  predicate AddsKey(s: State, op: Op) {
    (op.Set? || (op.SetTtl? && op.ttl > 0)) && Find(s.entries, op.key).None?
  }

  /** The lazy cache makes room for a new key by evicting a live entry, which the eager
      cache would not: it has already dropped an expired one. */
  predicate Displaces(s: State, op: Op, now: int) {
    AddsKey(s, op) && LiveVictim(s.capacity, s.entries, now)
  }

  lemma {:induction false} LiveTake(capacity: Option<nat>, es: seq<Entry>, now: int)
    requires capacity.Some? ==> |es| <= capacity.value + 1
    ensures Live(Take(capacity, es), now) == Take(capacity, Live(es, now)) <==>
            !(capacity.Some? && |es| > capacity.value && !Expired(es[|es| - 1], now) &&
              exists e :: e in es && Expired(e, now))
  {
    if capacity.Some? && |es| > capacity.value {
      var front, last := es[..|es| - 1], es[|es| - 1];
      assert es == front + [last];
      KeepConcat(front, [last], LiveAt(now));
      if e :| e in es && Expired(e, now) {
        KeepDrops(es, LiveAt(now), e);
      } else {
        KeepAll(es, LiveAt(now));
        KeepAll(front, LiveAt(now));
      }
    }
  }

  lemma {:induction false} LiveStored(es: seq<Entry>, e: Entry, now: int)
    requires !Expired(e, now)
    ensures Live([e] + Without(es, e.key), now) == [e] + Without(Live(es, now), e.key)
  {
    KeepCommute(es, LiveAt(now), NotKey(e.key));
    assert ([e] + Without(es, e.key))[1..] == Without(es, e.key);
  }

  lemma {:induction false} LiveRemoved(es: seq<Entry>, key: string, now: int)
    requires DistinctKeys(es)
    ensures Live(Without(es, key), now) == Without(Live(es, now), key)
    ensures Find(es, key).Some? && Expired(Find(es, key).value, now) ==> Live(Without(es, key), now) == Live(es, now)
  {
    KeepCommute(es, LiveAt(now), NotKey(key));
    FindKeep(es, LiveAt(now), key);
    if Find(Live(es, now), key).None? {
      WithoutAbsent(Live(es, now), key);
    }
  }

  /** How the rewrites of the two lists compare: the eager one has nothing to reclaim. */
  lemma {:induction false} EagerChange(s: State, op: Op, now: int)
    requires Sane(s)
    ensures var l := State(s.capacity, Live(s.entries, now), 0, 0);
            var c, d := ChangeOf(s, op, now), ChangeOf(l, op, now);
            && Sane(l)
            && (c.Stored? ==> d == c && !Expired(c.e, now))
            && (c == d || (c.Removed? && d.Same? && Expired(Find(s.entries, c.key).value, now)))
            && Step(s, op, now).answer == Step(l, op, now).answer
  {
    KeepDistinct(s.entries, LiveAt(now));
    if op.Export? {
      ExportLive(s.entries, now);
    } else if !op.Clear? {
      FindKeep(s.entries, LiveAt(now), op.key);
    }
  }

  /** One step from agreeing states: the answers agree, and the states still agree
      exactly when the step does not displace. */
  lemma {:induction false} StepAgreesIff(s: State, op: Op, now: int)
    requires Sane(s)
    ensures EagerStep(s.capacity, s.entries, op, now).answer == Step(s, op, now).answer
    ensures (Live(Step(s, op, now).state.entries, now) == EagerStep(s.capacity, s.entries, op, now).state.entries)
            <==> !Displaces(s, op, now)
  {
    var l := State(s.capacity, Live(s.entries, now), 0, 0);
    EagerChange(s, op, now);
    StepShape(s, op, now);
    StepShape(l, op, now);
    var c := ChangeOf(s, op, now);
    if c.Stored? {
      StoredAgreesIff(s, op, now, c.e);
    } else if c.Removed? {
      LiveRemoved(s.entries, c.key, now);
    }
  }

  lemma {:induction false} NewKeyAgreesIff(capacity: Option<nat>, es: seq<Entry>, e: Entry, now: int)
    requires !Expired(e, now) && (capacity.Some? ==> |es| <= capacity.value)
    ensures (Live(Take(capacity, [e] + es), now) == Take(capacity, Live([e] + es, now))) <==>
            !LiveVictim(capacity, es, now)
  {
    LiveTake(capacity, [e] + es, now);
    if x :| x in es && Expired(x, now) {
      assert x in [e] + es;
    }
  }

  /** Rewriting a key that is already resident needs no room, in either cache. */
  lemma {:induction false} ResidentAgrees(s: State, e: Entry, now: int)
    requires Sane(s) && !Expired(e, now) && Find(s.entries, e.key).Some?
    ensures var es := [e] + Without(s.entries, e.key);
            Live(Take(s.capacity, es), now) == Take(s.capacity, Live(es, now))
  {
    WithoutSize(s.entries, e.key);
  }

  lemma {:induction false} StoredAgreesIff(s: State, op: Op, now: int, e: Entry)
    requires Sane(s) && !Expired(e, now)
    requires AddsKey(s, op) <==> Find(s.entries, e.key).None?
    ensures (Live(Take(s.capacity, [e] + Without(s.entries, e.key)), now) ==
             Take(s.capacity, [e] + Without(Live(s.entries, now), e.key))) <==> !Displaces(s, op, now)
  {
    LiveStored(s.entries, e, now);
    if Find(s.entries, e.key).Some? {
      ResidentAgrees(s, e, now);
    } else {
      WithoutAbsent(s.entries, e.key);
      NewKeyAgreesIff(s.capacity, s.entries, e, now);
    }
  }

  /** After every step the eager list is the live part of the lazy one. */
  predicate AgreesThroughout(capacity: Option<nat>, t: Trace) {
    match t
    case Start => true
    case Then(before, op, now) =>
      && AgreesThroughout(capacity, before)
      && EagerRun(capacity, t) == Live(Run(Empty(capacity), t).entries, now)
  }

  predicate NeverDisplaces(capacity: Option<nat>, t: Trace) {
    match t
    case Start => true
    case Then(before, op, now) =>
      NeverDisplaces(capacity, before) && !Displaces(Run(Empty(capacity), before), op, now)
  }

  /** What was live at the last step and is live now is just what is live now. */
  lemma {:induction false} LiveLater(capacity: Option<nat>, t: Trace, floor: int, now: int)
    requires AgreesThroughout(capacity, t) && Clock(t, floor) <= now
    ensures Live(EagerRun(capacity, t), now) == Live(Run(Empty(capacity), t).entries, now)
  {
    if t.Then? {
      KeepAbsorb(Run(Empty(capacity), t).entries, LiveAt(now), LiveAt(t.now));
    }
  }

  /** On every run, lazy and eager caches of equal capacity hold the same live entries
      throughout if and only if no step displaces a live entry for an expired one. */
  lemma {:induction false} LazyIsEagerIff(capacity: Option<nat>, t: Trace, floor: int)
    requires Monotone(t, floor)
    ensures AgreesThroughout(capacity, t) <==> NeverDisplaces(capacity, t)
  {
    if t.Then? {
      LazyIsEagerIff(capacity, t.before, floor);
      if AgreesThroughout(capacity, t.before) {
        RunSane(Empty(capacity), t.before);
        LiveLater(capacity, t.before, floor, t.now);
        StepAgreesIff(Run(Empty(capacity), t.before), t.op, t.now);
      }
    }
  }

  /** While that holds, no answer tells the two apart, list order of exports included. */
  lemma {:induction false} LazyAnswersAsEager(capacity: Option<nat>, t: Trace, op: Op, now: int, floor: int)
    requires Monotone(Then(t, op, now), floor) && NeverDisplaces(capacity, t)
    ensures Step(Run(Empty(capacity), t), op, now).answer ==
            EagerStep(capacity, EagerRun(capacity, t), op, now).answer
  {
    LazyIsEagerIff(capacity, t, floor);
    RunSane(Empty(capacity), t);
    LiveLater(capacity, t, floor, now);
    StepAgreesIff(Run(Empty(capacity), t), op, now);
  }

  /** At a displacing step the key of the oldest entry is lost to the lazy cache only. */
  lemma {:induction false} DisplacedKey(s: State, op: Op, now: int)
    requires Sane(s) && Displaces(s, op, now)
    ensures var key := s.entries[|s.entries| - 1].key;
            && Find(Step(s, op, now).state.entries, key).None?
            && Visible(EagerStep(s.capacity, s.entries, op, now).state.entries, key, now).Some?
  {
    var es, last := s.entries, s.entries[|s.entries| - 1];
    var l := State(s.capacity, Live(es, now), 0, 0);
    var e := ChangeOf(s, op, now).e;
    EagerChange(s, op, now);
    StepShape(s, op, now);
    StepShape(l, op, now);
    WithoutAbsent(es, e.key);
    LazyLoses(es, e);
    EagerKeeps(s.capacity, es, e, now);
  }

  lemma {:induction false} LazyLoses(es: seq<Entry>, e: Entry)
    requires DistinctKeys(es) && es != [] && Find(es, e.key).None?
    ensures Find(([e] + es)[..|es|], es[|es| - 1].key).None?
  {
    assert es[|es| - 1] in es;
    assert forall i :: 0 <= i < |es| ==> ([e] + es)[..|es|][i] == if i == 0 then e else es[i - 1];
  }

  lemma {:induction false} VictimIsLive(capacity: Option<nat>, es: seq<Entry>, now: int)
    requires DistinctKeys(es) && LiveVictim(capacity, es, now)
    ensures |Live(es, now)| < |es| && Find(Live(es, now), es[|es| - 1].key) == Some(es[|es| - 1])
  {
    var x :| x in es && Expired(x, now);
    KeepDrops(es, LiveAt(now), x);
    FindIndex(es, |es| - 1);
    FindKeep(es, LiveAt(now), es[|es| - 1].key);
  }

  lemma {:induction false} EagerKeeps(capacity: Option<nat>, es: seq<Entry>, e: Entry, now: int)
    requires DistinctKeys(es) && LiveVictim(capacity, es, now) && Find(es, e.key).None?
    ensures Visible(Take(capacity, [e] + Without(Live(es, now), e.key)), es[|es| - 1].key, now).Some?
  {
    var l, last := Live(es, now), es[|es| - 1];
    VictimIsLive(capacity, es, now);
    WithoutAbsent(l, e.key);
    assert last in es;
    FindConcat([e], l, last.key);
  }

  /** From the last step on, no operation at any instant tells the two caches apart. */
  ghost predicate Alike(capacity: Option<nat>, t: Trace, now: int) {
    forall probe: Op, later: int :: now <= later ==>
      Step(Run(Empty(capacity), t), probe, later).answer ==
      EagerStep(capacity, EagerRun(capacity, t), probe, later).answer
  }

  ghost predicate AlikeThroughout(capacity: Option<nat>, t: Trace) {
    match t
    case Start => true
    case Then(before, op, now) => AlikeThroughout(capacity, before) && Alike(capacity, t, now)
  }

  lemma {:induction false} LazyContains(s: State, key: string, now: int)
    ensures Step(s, Contains(key), now).answer == Flag(Visible(s.entries, key, now).Some?)
  {
  }

  lemma {:induction false} EagerContains(capacity: Option<nat>, es: seq<Entry>, key: string, now: int)
    requires DistinctKeys(es)
    ensures EagerStep(capacity, es, Contains(key), now).answer == Flag(Visible(es, key, now).Some?)
  {
    FindKeep(es, LiveAt(now), key);
  }

  lemma EagerSeesLive(capacity: Option<nat>, xs: seq<Entry>, ys: seq<Entry>, op: Op, now: int)
    requires Live(xs, now) == Live(ys, now)
    ensures EagerStep(capacity, xs, op, now) == EagerStep(capacity, ys, op, now)
  {
  }

  lemma {:induction false} EagerSane(s: State, op: Op, now: int)
    requires Sane(s)
    ensures DistinctKeys(EagerStep(s.capacity, s.entries, op, now).state.entries)
  {
    EagerChange(s, op, now);
    StepSane(State(s.capacity, Live(s.entries, now), 0, 0), op, now);
  }

  lemma ToldApart(capacity: Option<nat>, t: Trace, probe: Op, now: int)
    requires Step(Run(Empty(capacity), t), probe, now).answer !=
             EagerStep(capacity, EagerRun(capacity, t), probe, now).answer
    ensures !Alike(capacity, t, now)
  {
  }

  /** ... so the two caches answer differently when asked for that key. */
  lemma {:induction false} DisplacedTells(capacity: Option<nat>, t: Trace, floor: int)
    requires t.Then? && Monotone(t, floor) && NeverDisplaces(capacity, t.before)
    requires Displaces(Run(Empty(capacity), t.before), t.op, t.now)
    ensures !Alike(capacity, t, t.now)
  {
    var s := Run(Empty(capacity), t.before);
    LazyIsEagerIff(capacity, t.before, floor);
    LiveLater(capacity, t.before, floor, t.now);
    RunSane(Empty(capacity), t.before);
    EagerSeesLive(capacity, EagerRun(capacity, t.before), s.entries, t.op, t.now);
    DisplacedKey(s, t.op, t.now);
    EagerSane(s, t.op, t.now);
    DisplacedAnswers(s, t.op, t.now, s.entries[|s.entries| - 1].key);
    ToldApart(capacity, t, Contains(s.entries[|s.entries| - 1].key), t.now);
  }

  lemma {:induction false} DisplacedAnswers(s: State, op: Op, now: int, key: string)
    requires Find(Step(s, op, now).state.entries, key).None?
    requires var eager := EagerStep(s.capacity, s.entries, op, now).state.entries;
             DistinctKeys(eager) && Visible(eager, key, now).Some?
    ensures Step(Step(s, op, now).state, Contains(key), now).answer !=
            EagerStep(s.capacity, EagerStep(s.capacity, s.entries, op, now).state.entries, Contains(key), now).answer
  {
    LazyContains(Step(s, op, now).state, key, now);
    EagerContains(s.capacity, EagerStep(s.capacity, s.entries, op, now).state.entries, key, now);
  }

  /** On every run, no answer after any step ever tells the lazy cache from the eager one of
      equal capacity, if and only if no step evicts a live entry while an expired one stays. */
  lemma {:induction false} LazyAlikeIff(capacity: Option<nat>, t: Trace, floor: int)
    requires Monotone(t, floor)
    ensures AlikeThroughout(capacity, t) <==> NeverDisplaces(capacity, t)
  {
    if t.Then? {
      LazyAlikeIff(capacity, t.before, floor);
      if NeverDisplaces(capacity, t) {
        forall probe: Op, later: int | t.now <= later
          ensures Step(Run(Empty(capacity), t), probe, later).answer ==
                  EagerStep(capacity, EagerRun(capacity, t), probe, later).answer
        {
          LazyAnswersAsEager(capacity, t, probe, later, floor);
        }
      } else if NeverDisplaces(capacity, t.before) {
        DisplacedTells(capacity, t, floor);
      }
    }
  }

  /** "a" for good, "b" for a millisecond, and "c" when that is over. */
  function FullOfDead(): Trace {
    Then(Then(Then(Start, Set("a", ""), 0), SetTtl("b", "", 1), 0), Set("c", ""), NANOS_PER_MS)
  }

  lemma {:induction false} LazyFullOfDead()
    ensures var t, a := FullOfDead(), Entry("a", "", None);
            var b, c := Entry("b", "", Some(NANOS_PER_MS)), Entry("c", "", None);
            && Run(Empty(Some(2)), t.before) == State(Some(2), [b, a], 0, 0)
            && Run(Empty(Some(2)), t).entries == [c, b]
  {
    var a, b, c := Entry("a", "", None), Entry("b", "", Some(NANOS_PER_MS)), Entry("c", "", None);
    var t := FullOfDead();
    assert [a][1..] == [] && [b, a][1..] == [a] && [c, b, a][..2] == [c, b];
    assert Run(Empty(Some(2)), t.before.before).entries == [a];
    assert Run(Empty(Some(2)), t.before).entries == [b] + [a] == [b, a];
    assert [c] + [b, a] == [c, b, a];
    TrimIsTake(State(Some(2), [c, b, a], 0, 0));
  }

  lemma {:induction false} EagerFullOfDead()
    ensures EagerRun(Some(2), FullOfDead()) == [Entry("c", "", None), Entry("a", "", None)]
  {
    var a, b, c := Entry("a", "", None), Entry("b", "", Some(NANOS_PER_MS)), Entry("c", "", None);
    var t := FullOfDead();
    assert [a][1..] == [] && [b, a][1..] == [a];
    assert EagerRun(Some(2), t.before.before) == [a];
    assert Live([a], 0) == [a];
    assert EagerRun(Some(2), t.before) == [b] + [a] == [b, a];
    assert Live([b, a], NANOS_PER_MS) == [a];
    assert [c] + [a] == [c, a];
  }

  lemma {:induction false} DisplacesThere()
    ensures var t := FullOfDead(); Monotone(t, 0) && Displaces(Run(Empty(Some(2)), t.before), t.op, t.now)
  {
    var a, b := Entry("a", "", None), Entry("b", "", Some(NANOS_PER_MS));
    LazyFullOfDead();
    assert b in [b, a];
  }

  lemma {:induction false} LostToLazy()
    ensures Step(Run(Empty(Some(2)), FullOfDead()), Get("a"), NANOS_PER_MS).answer == Value(None)
  {
    var b, c := Entry("b", "", Some(NANOS_PER_MS)), Entry("c", "", None);
    LazyFullOfDead();
    assert Find([c, b], "a").None?;
  }

  lemma {:induction false} KeptByEager()
    ensures EagerStep(Some(2), EagerRun(Some(2), FullOfDead()), Get("a"), NANOS_PER_MS).answer == Value(Some(""))
  {
    var a, c := Entry("a", "", None), Entry("c", "", None);
    EagerFullOfDead();
    KeepAll([c, a], LiveAt(NANOS_PER_MS));
    FindIndex([c, a], 1);
    GetHits(State(Some(2), [c, a], 0, 0), a, NANOS_PER_MS);
  }

  lemma GetHits(s: State, e: Entry, now: int)
    requires Find(s.entries, e.key) == Some(e) && !Expired(e, now)
    ensures Step(s, Get(e.key), now).answer == Value(Some(e.value))
  {
  }

  /** A bounded cache can lose a live key to an expired one: with room for two, the
      expired "b" is kept and the live "a" is evicted. */
  lemma {:induction false} ExpiredEntriesOccupyCapacity()
    ensures var t := FullOfDead();
            && Monotone(t, 0)
            && Displaces(Run(Empty(Some(2)), t.before), t.op, t.now)
            && Step(Run(Empty(Some(2)), t), Get("a"), NANOS_PER_MS).answer == Value(None)
            && EagerStep(Some(2), EagerRun(Some(2), t), Get("a"), NANOS_PER_MS).answer == Value(Some(""))
  {
    DisplacesThere();
    LostToLazy();
    KeptByEager();
  }

  // ---- Unbounded: a plain map with deadlines

  datatype Item = Item(value: string, expiresAt: Option<int>)

  /** The map after everything due by `now` has been deleted. */
  function Purge(m: map<string, Item>, now: int): map<string, Item> {
    map k | k in m && !Expired(Entry(k, m[k].value, m[k].expiresAt), now) :: m[k]
  }

  function MapStep(m: map<string, Item>, op: Op, now: int): map<string, Item> {
    var p := Purge(m, now);
    match op
    case Set(k, v) => p[k := Item(v, None)]
    case SetTtl(k, v, ttl) => if ttl > 0 then p[k := Item(v, Some(now + ttl * NANOS_PER_MS))] else p - {k}
    case Erase(k) => p - {k}
    case Clear => map[]
    case _ => p
  }

  function MapRun(t: Trace): map<string, Item> {
    match t
    case Start => map[]
    case Then(before, op, now) => MapStep(MapRun(before), op, now)
  }

  function MapTtl(p: map<string, Item>, k: string, now: int): TtlInfo {
    if k !in p then Missing
    else if p[k].expiresAt.None? then Persistent
    else Expiring((p[k].expiresAt.value - now) / NANOS_PER_MS)
  }

  /** The map's entries as export records. */
  ghost function MapRecords(m: map<string, Item>, now: int): set<EntrySnapshot> {
    var p := Purge(m, now);
    set k | k in p :: SnapshotOf(Entry(k, p[k].value, p[k].expiresAt), now)
  }

  /** The answer a purged map would give; an export may list the map in any order but
      each record once. */
  ghost predicate MapAnswers(m: map<string, Item>, op: Op, now: int, a: Answer) {
    var p := Purge(m, now);
    match op
    case Get(k) => a == Value(if k in p then Some(p[k].value) else None)
    case GetInto(k, out) => a == if k in p then Into(true, p[k].value) else Into(false, out)
    case Ttl(k) => a == Info(MapTtl(p, k, now))
    case Erase(k) => a == Flag(k in p)
    case Contains(k) => a == Flag(k in p)
    case Export =>
      && a.Entries?
      && (set r | r in a.entries) == MapRecords(m, now)
      && (forall i, j :: 0 <= i < j < |a.entries| ==> a.entries[i].key != a.entries[j].key)
    case _ => a == Done
  }

  /** The live entry a list holds for a key. */
  function Visible(es: seq<Entry>, key: string, now: int): Option<Item> {
    var r := Find(es, key);
    if r.Some? && !Expired(r.value, now) then Some(Item(r.value.value, r.value.expiresAt)) else None
  }

  function Looked(m: map<string, Item>, key: string): Option<Item> {
    if key in m then Some(m[key]) else None
  }

  ghost predicate SameLive(es: seq<Entry>, m: map<string, Item>, now: int) {
    forall k :: Visible(es, k, now) == Looked(Purge(m, now), k)
  }

  /** What an operation makes of the live item under a key. */
  function ItemAfter(r: Option<Item>, op: Op, now: int, k: string): Option<Item> {
    match op
    case Set(key, v) => if key == k then Some(Item(v, None)) else r
    case SetTtl(key, v, ttl) =>
      if key != k then r else if ttl > 0 then Some(Item(v, Some(now + ttl * NANOS_PER_MS))) else None
    case Erase(key) => if key == k then None else r
    case Clear => None
    case _ => r
  }

  lemma MapItemAfter(m: map<string, Item>, op: Op, now: int, k: string)
    ensures Looked(Purge(MapStep(m, op, now), now), k) == ItemAfter(Looked(Purge(m, now), k), op, now, k)
  {
  }

  lemma {:induction false} ListItemAfter(s: State, op: Op, now: int, k: string)
    requires DistinctKeys(s.entries) && s.capacity.None?
    ensures Visible(Step(s, op, now).state.entries, k, now) == ItemAfter(Visible(s.entries, k, now), op, now, k)
  {
    StepLookup(s, op, now, k);
    ChangeItem(s, op, now, k);
  }

  /** The live item under a key once the list is rewritten. */
  lemma ChangeItem(s: State, op: Op, now: int, k: string)
    ensures var r := ChangedLookup(Find(s.entries, k), ChangeOf(s, op, now), k);
            (if r.Some? && !Expired(r.value, now) then Some(Item(r.value.value, r.value.expiresAt)) else None) ==
            ItemAfter(Visible(s.entries, k, now), op, now, k)
  {
  }

  lemma {:induction false} UnboundedStep(s: State, m: map<string, Item>, op: Op, now: int)
    requires DistinctKeys(s.entries) && s.capacity.None? && SameLive(s.entries, m, now)
    ensures SameLive(Step(s, op, now).state.entries, MapStep(m, op, now), now)
  {
    forall k ensures Visible(Step(s, op, now).state.entries, k, now) == Looked(Purge(MapStep(m, op, now), now), k) {
      assert Visible(s.entries, k, now) == Looked(Purge(m, now), k);
      MapItemAfter(m, op, now, k);
      ListItemAfter(s, op, now, k);
    }
  }

  lemma {:induction false} RecordIsMapped(es: seq<Entry>, m: map<string, Item>, now: int, e: Entry)
    requires DistinctKeys(es) && SameLive(es, m, now) && e in es && !Expired(e, now)
    ensures SnapshotOf(e, now) in MapRecords(m, now)
  {
    var j :| 0 <= j < |es| && es[j] == e;
    FindIndex(es, j);
    assert Visible(es, e.key, now) == Looked(Purge(m, now), e.key);
  }

  lemma {:induction false} MappedIsRecord(es: seq<Entry>, m: map<string, Item>, now: int, k: string)
    requires SameLive(es, m, now) && k in Purge(m, now)
    ensures var e := Entry(k, m[k].value, m[k].expiresAt); e in es && !Expired(e, now)
  {
    assert Visible(es, k, now) == Looked(Purge(m, now), k);
  }

  lemma {:induction false} ExportIsMap(es: seq<Entry>, m: map<string, Item>, now: int)
    requires DistinctKeys(es) && SameLive(es, m, now)
    ensures MapAnswers(m, Export, now, Entries(ExportEntries(es, now)))
  {
    var out, live := ExportEntries(es, now), Live(es, now);
    ExportLive(es, now);
    KeepDistinct(es, LiveAt(now));
    forall r | r in out ensures r in MapRecords(m, now) {
      var i :| 0 <= i < |live| && r == SnapshotOf(live[i], now);
      assert live[i] in live;
      RecordIsMapped(es, m, now, live[i]);
    }
    forall k | k in Purge(m, now) ensures SnapshotOf(Entry(k, m[k].value, m[k].expiresAt), now) in out {
      MappedIsRecord(es, m, now, k);
      var i :| 0 <= i < |live| && live[i] == Entry(k, m[k].value, m[k].expiresAt);
      assert out[i] in out;
    }
  }

  /** Deadlines only ever pass: agreement carries over to any later instant. */
  lemma {:induction false} SameLiveLater(es: seq<Entry>, m: map<string, Item>, now: int, later: int)
    requires SameLive(es, m, now) && now <= later
    ensures SameLive(es, m, later)
  {
    forall k ensures Visible(es, k, later) == Looked(Purge(m, later), k) {
      assert Visible(es, k, now) == Looked(Purge(m, now), k);
    }
  }

  lemma {:induction false} UnboundedRun(t: Trace, floor: int, now: int)
    requires Monotone(t, floor) && Clock(t, floor) <= now
    ensures SameLive(Run(Empty(None), t).entries, MapRun(t), now)
  {
    if t.Then? {
      UnboundedRun(t.before, floor, t.now);
      RunSane(Empty(None), t.before);
      UnboundedStep(Run(Empty(None), t.before), MapRun(t.before), t.op, t.now);
      SameLiveLater(Run(Empty(None), t).entries, MapRun(t), t.now, now);
    }
  }

  /** Lazy expiry is invisible: on every run with a nondecreasing clock an unbounded
      cache answers every operation as the map that deletes entries on time. */
  lemma {:induction false} LazyExpiryInvisible(t: Trace, op: Op, now: int, floor: int)
    requires Monotone(Then(t, op, now), floor)
    ensures MapAnswers(MapRun(t), op, now, Step(Run(Empty(None), t), op, now).answer)
  {
    var s := Run(Empty(None), t);
    UnboundedRun(t, floor, now);
    RunSane(Empty(None), t);
    if op.Export? {
      ExportIsMap(s.entries, MapRun(t), now);
    } else if !op.Clear? {
      MappedAnswer(s, MapRun(t), op, now);
    }
  }

  /** What is visible under its key decides the answer to an operation. */
  lemma MappedAnswer(s: State, m: map<string, Item>, op: Op, now: int)
    requires !op.Clear? && !op.Export? && Visible(s.entries, op.key, now) == Looked(Purge(m, now), op.key)
    ensures MapAnswers(m, op, now, Step(s, op, now).answer)
  {
  }
}
