/** The cache as a value: an ordered list of entries, most recently used first, and
    what each public operation does to it. `now` is the one reading of the steady
    clock, in nanoseconds, that the operation makes; durations are milliseconds. */
module CacheModel {
  import opened Prelude

  const NANOS_PER_MS: int := 1_000_000

  datatype Entry = Entry(key: string, value: string, expiresAt: Option<int>)

  predicate Expired(e: Entry, now: int) {
    e.expiresAt.Some? && e.expiresAt.value <= now
  }

  /** What an outside observer is told of one entry. */
  datatype EntrySnapshot = EntrySnapshot(key: string, value: string, remainingTtl: Option<int>)

  datatype TtlInfo = Missing | Persistent | Expiring(remaining: int)

  datatype State = State(capacity: Option<nat>, entries: seq<Entry>, evictions: nat, expiredRemovals: nat)

  datatype Op =
    | Set(key: string, value: string)
    | SetTtl(key: string, value: string, ttl: int)
    | Get(key: string)
    | GetInto(key: string, out: string)
    | Ttl(key: string)
    | Erase(key: string)
    | Contains(key: string)
    | Clear
    | Export

  datatype Answer =
    | Done
    | Value(value: Option<string>)
    | Into(found: bool, out: string)
    | Info(info: TtlInfo)
    | Flag(flag: bool)
    | Entries(entries: seq<EntrySnapshot>)

  datatype Outcome = Outcome(state: State, answer: Answer)

  function Empty(capacity: Option<nat>): State {
    State(capacity, [], 0, 0)
  }

  // ---- Lookup and removal by key

  function Find(es: seq<Entry>, key: string): (r: Option<Entry>)
    ensures r.Some? ==> r.value in es && r.value.key == key
    ensures r.None? <==> forall e :: e in es ==> e.key != key
  {
    if es == [] then None
    else if es[0].key == key then Some(es[0])
    else Find(es[1..], key)
  }

  /** The entry under a key that can be read at an instant: there, and not expired. */
  function SeenIn(es: seq<Entry>, key: string, now: int): Option<Entry> {
    var r := Find(es, key);
    if r.Some? && !Expired(r.value, now) then r else None
  }

  function NotKey(key: string): Entry -> bool {
    (e: Entry) => e.key != key
  }

  function LiveAt(now: int): Entry -> bool {
    (e: Entry) => !Expired(e, now)
  }

  function Without(es: seq<Entry>, key: string): (r: seq<Entry>)
    ensures forall e :: e in r <==> e in es && e.key != key
  {
    Keep(es, NotKey(key))
  }

  function Live(es: seq<Entry>, now: int): (r: seq<Entry>)
    ensures forall e :: e in r <==> e in es && !Expired(e, now)
  {
    Keep(es, LiveAt(now))
  }

  // ---- The operations

  function Remaining(deadline: int, now: int): int
    requires now < deadline
  {
    (deadline - now) / NANOS_PER_MS
  }

  function Touch(s: State, e: Entry): State {
    s.(entries := [e] + Without(s.entries, e.key))
  }

  function EvictOldest(s: State): State
    requires s.entries != []
  {
    s.(entries := s.entries[..|s.entries| - 1], evictions := s.evictions + 1)
  }

  function Trim(s: State): State
    decreases |s.entries|
  {
    if s.capacity.Some? && |s.entries| > s.capacity.value then Trim(EvictOldest(s)) else s
  }

  function Store(s: State, e: Entry): State {
    if Find(s.entries, e.key).Some? then Touch(s, e)
    else Trim(s.(entries := [e] + s.entries))
  }

  function Reclaim(s: State, key: string): State {
    s.(entries := Without(s.entries, key), expiredRemovals := s.expiredRemovals + 1)
  }

  function EraseKey(s: State, key: string, now: int): Outcome {
    match Find(s.entries, key)
    case None => Outcome(s, Flag(false))
    case Some(e) =>
      if Expired(e, now) then Outcome(Reclaim(s, key), Flag(false))
      else Outcome(s.(entries := Without(s.entries, key)), Flag(true))
  }

  function SnapshotOf(e: Entry, now: int): EntrySnapshot
    requires !Expired(e, now)
  {
    EntrySnapshot(e.key, e.value,
                  if e.expiresAt.None? then None else Some(Remaining(e.expiresAt.value, now)))
  }

  function ExportEntries(es: seq<Entry>, now: int): (r: seq<EntrySnapshot>) {
    if es == [] then []
    else if Expired(es[0], now) then ExportEntries(es[1..], now)
    else [SnapshotOf(es[0], now)] + ExportEntries(es[1..], now)
  }

  /** A read hits iff the key is resident and unexpired; an expired entry met on the
      way is reclaimed, and a hit moves the entry to the front. */
  function Read(s: State, key: string, now: int): (State, Option<string>) {
    match Find(s.entries, key)
    case None => (s, None)
    case Some(e) => if Expired(e, now) then (Reclaim(s, key), None) else (Touch(s, e), Some(e.value))
  }

  function QueryTtl(s: State, key: string, now: int): Outcome {
    match Find(s.entries, key)
    case None => Outcome(s, Info(Missing))
    case Some(e) =>
      if e.expiresAt.None? then Outcome(s, Info(Persistent))
      else if Expired(e, now) then Outcome(Reclaim(s, key), Info(Missing))
      else Outcome(s, Info(Expiring(Remaining(e.expiresAt.value, now))))
  }

  function Step(s: State, op: Op, now: int): Outcome {
    match op
    case Set(k, v) => Outcome(Store(s, Entry(k, v, None)), Done)
    case SetTtl(k, v, ttl) =>
      if ttl <= 0 then Outcome(EraseKey(s, k, now).state, Done)
      else Outcome(Store(s, Entry(k, v, Some(now + ttl * NANOS_PER_MS))), Done)
    case Get(k) => var (s', v) := Read(s, k, now); Outcome(s', Value(v))
    case GetInto(k, out) =>
      var (s', v) := Read(s, k, now);
      Outcome(s', if v.Some? then Into(true, v.value) else Into(false, out))
    case Ttl(k) => QueryTtl(s, k, now)
    case Erase(k) => EraseKey(s, k, now)
    case Contains(k) =>
      var e := Find(s.entries, k);
      Outcome(s, Flag(e.Some? && !Expired(e.value, now)))
    case Clear => Outcome(s.(entries := []), Done)
    case Export => Outcome(s, Entries(ExportEntries(s.entries, now)))
  }

  // ---- Facts about lookup and removal

  predicate DistinctKeys(es: seq<Entry>) {
    forall i, j :: 0 <= i < j < |es| ==> es[i].key != es[j].key
  }

  lemma {:induction false} FindIndex(es: seq<Entry>, i: nat)
    requires i < |es| && DistinctKeys(es)
    ensures Find(es, es[i].key) == Some(es[i])
  {
    assert es[i] in es;
  }

  /** With distinct keys, removing a key removes exactly its one position. */
  lemma {:induction false} WithoutIndex(es: seq<Entry>, i: nat)
    requires i < |es| && DistinctKeys(es)
    ensures Without(es, es[i].key) == es[..i] + es[i + 1..]
  {
    var p := NotKey(es[i].key);
    assert es == es[..i] + ([es[i]] + es[i + 1..]);
    KeepConcat(es[..i], [es[i]] + es[i + 1..], p);
    assert ([es[i]] + es[i + 1..])[1..] == es[i + 1..];
    KeepAll(es[..i], p);
    KeepAll(es[i + 1..], p);
  }

  lemma {:induction false} WithoutAbsent(es: seq<Entry>, key: string)
    requires Find(es, key).None?
    ensures Without(es, key) == es
  {
    KeepAll(es, NotKey(key));
  }

  lemma {:induction false} FindKeep(es: seq<Entry>, p: Entry -> bool, key: string)
    requires DistinctKeys(es)
    ensures Find(Keep(es, p), key) ==
            (var r := Find(es, key); if r.Some? && p(r.value) then r else None)
  {
    if es != [] {
      FindKeep(es[1..], p, key);
      if p(es[0]) {
        assert Keep(es, p)[1..] == Keep(es[1..], p);
      } else if es[0].key == key {
        assert forall e :: e in es[1..] ==> e.key != key;
      }
    }
  }

  lemma {:induction false} KeepDistinct(es: seq<Entry>, p: Entry -> bool)
    requires DistinctKeys(es)
    ensures DistinctKeys(Keep(es, p))
  {
    if es != [] {
      KeepDistinct(es[1..], p);
      assert forall e :: e in Keep(es[1..], p) ==> e.key != es[0].key;
    }
  }

  lemma {:induction false} WithoutLookup(es: seq<Entry>, key: string, other: string)
    requires DistinctKeys(es)
    ensures DistinctKeys(Without(es, key))
    ensures Find(Without(es, key), other) == if other == key then None else Find(es, other)
  {
    KeepDistinct(es, NotKey(key));
    FindKeep(es, NotKey(key), other);
  }

  /** Removing a key does not touch what is found under another. */
  lemma {:induction false} FindOther(es: seq<Entry>, key: string, other: string)
    ensures Find(Without(es, key), other) == if other == key then None else Find(es, other)
  {
    if es != [] {
      FindOther(es[1..], key, other);
      if es[0].key != key {
        assert Without(es, key)[1..] == Without(es[1..], key);
      }
    }
  }

  /** Removing a resident key shortens the list by exactly one. */
  lemma {:induction false} WithoutSize(es: seq<Entry>, key: string)
    requires DistinctKeys(es) && Find(es, key).Some?
    ensures |Without(es, key)| == |es| - 1
  {
    var i :| 0 <= i < |es| && es[i].key == key;
    WithoutIndex(es, i);
  }

  /** Exporting skips expired entries, so it sees only the live part of the list. */
  lemma {:induction false} ExportLive(es: seq<Entry>, now: int)
    ensures ExportEntries(Live(es, now), now) == ExportEntries(es, now)
    ensures |ExportEntries(es, now)| == |Live(es, now)|
    ensures forall i :: 0 <= i < |Live(es, now)| ==>
              ExportEntries(es, now)[i] == SnapshotOf(Live(es, now)[i], now)
  {
    if es != [] {
      ExportLive(es[1..], now);
      if !Expired(es[0], now) {
        assert Live(es, now)[1..] == Live(es[1..], now);
      }
    }
  }
}
