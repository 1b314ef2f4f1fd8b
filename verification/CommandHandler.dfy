/** One parsed command applied to the cache, and the reply it earns. */
module CommandHandler {
  import opened Prelude
  import opened CacheModel
  import opened Runs
  import opened Sharding
  import Protocol
  import Snapshot
  import SnapshotFormat
  import Restore
  import Scan

  datatype Fault = BadRequest(error: Protocol.ParseError) | PersistenceOff | SaveFailed | LoadFailed | LineTooLong

  datatype Reply = Okay | Pong | Bye | NoExpiry | Text(value: string) | Nil | Integer(n: int) | Failure(fault: Fault)

  /** The cache and, when persistence is on, the contents of its snapshot file. */
  datatype Store = Store(hash: string -> nat, shards: Shards, persistence: Option<Option<string>>)

  /** What the outside supplies while one command runs: the clock reading of a cache
      operation, those of an export (by shard) and of a load (by record), the wall clock
      in milliseconds, and whether the disk lets a save through. */
  datatype Moment = Moment(now: int, exportAt: nat -> int, setAt: nat -> int, wall: int, diskOk: bool)

  /** A time to live is given in seconds. */
  function SetOp(key: string, value: string, ttl: Option<int>): Op {
    if ttl.Some? then Op.SetTtl(key, value, ttl.value * 1000) else Op.Set(key, value)
  }

  /** The cache operation of a command that is about one key. */
  function OpOf(c: Protocol.Command): Option<Op> {
    match c.kind
    case SET => Some(SetOp(c.key, c.value, c.ttl))
    case GET => Some(Op.Get(c.key))
    case DELETE => Some(Op.Erase(c.key))
    case EXISTS => Some(Op.Contains(c.key))
    case TTL => Some(Op.Ttl(c.key))
    case _ => None
  }

  /** Seconds to report for a remaining time in milliseconds: rounded up. */
  function SecondsUp(ms: int): int {
    (ms + 999) / 1000
  }

  function ReplyTo(a: Answer): Reply {
    match a
    case Value(v) => if v.Some? then Text(v.value) else Nil
    case Flag(b) => Integer(if b then 1 else 0)
    case Info(Missing) => Nil
    case Info(Persistent) => NoExpiry
    case Info(Expiring(ms)) => Integer(SecondsUp(ms))
    case _ => Okay
  }

  function DoSave(st: Store, m: Moment): (Store, Reply) {
    if st.persistence.None? then (st, Failure(PersistenceOff))
    else if !m.diskOk then (st, Failure(SaveFailed))
    else
      var records := Snapshot.RecordsOf(ExportEach(st.shards, Readings(m.exportAt, |st.shards|)));
      (st.(persistence := Some(Some(Snapshot.FileText(m.wall, records)))), Integer(|records|))
  }

  function ApplyDecoded(st: Store, d: Snapshot.Decoded, m: Moment): (Store, Reply)
    requires |st.shards| > 0
  {
    match d
    case Rejected => (st, Failure(LoadFailed))
    case Accepted(savedAt, records) =>
      var elapsed := Restore.Elapsed(savedAt, m.wall);
      (st.(shards := Restore.Replay(st.hash, st.shards, records, elapsed, Readings(m.setAt, |records|))),
       Integer(Restore.Survivors(records, elapsed)))
  }

  function DoLoad(st: Store, m: Moment): (Store, Reply)
    requires |st.shards| > 0
  {
    match st.persistence
    case None => (st, Failure(PersistenceOff))
    case Some(None) => (st, Integer(0))
    case Some(Some(file)) => ApplyDecoded(st, Snapshot.Decode(file), m)
  }

  function Execute(st: Store, c: Protocol.Command, m: Moment): (r: (Store, Reply))
    requires |st.shards| > 0
    ensures |r.0.shards| == |st.shards|
  {
    match OpOf(c)
    case Some(op) =>
      var (shards, a) := ShardedStep(st.hash, st.shards, op, m.now);
      (st.(shards := shards), ReplyTo(a))
    case None =>
      match c.kind
      case SAVE => DoSave(st, m)
      case LOAD => DoLoad(st, m)
      case QUIT => (st, Bye)
      case _ => (st, Pong)
  }

  // ---- What each reply says

  /** The least whole number of seconds that covers the whole milliseconds in `left`
      nanoseconds; zero exactly when less than a millisecond is left. */
  predicate Covers(n: int, left: int) {
    1000 * (n - 1) < left / 1_000_000 <= 1000 * n && (n == 0 <==> left < 1_000_000)
  }

  /** The reply that a command deserves, given what can be read under its key. */
  predicate Tells(kind: Protocol.Kind, seen: Option<Entry>, now: int, reply: Reply) {
    match kind
    case SET => reply == Okay
    case GET => reply == if seen.Some? then Text(seen.value.value) else Nil
    case DELETE | EXISTS => reply == Integer(if seen.Some? then 1 else 0)
    case TTL =>
      if seen.None? then reply == Nil
      else if seen.value.expiresAt.None? then reply == NoExpiry
      else reply.Integer? && Covers(reply.n, seen.value.expiresAt.value - now)
    case PING => reply == Pong
    case QUIT => reply == Bye
    case SAVE | LOAD => reply.Integer? || reply.Failure?
  }

  /** Every command on every store is answered so. */
  lemma ReplyTells(st: Store, c: Protocol.Command, m: Moment)
    requires |st.shards| > 0
    ensures Tells(c.kind, Seen(st.hash, st.shards, c.key, m.now), m.now, Execute(st, c, m).1)
  {
  }

  /** The shard a key belongs to. */
  function Home(st: Store, key: string): State
    requires |st.shards| > 0
  {
    st.shards[ShardIndex(st.hash, |st.shards|, key)]
  }

  lemma {:induction false} KeyedExecutes(st: Store, c: Protocol.Command, m: Moment)
    requires |st.shards| > 0 && OpOf(c).Some?
    ensures var after := Execute(st, c, m).0;
            && OpOf(c).value.key == c.key && after == st.(shards := after.shards) && |after.shards| == |st.shards|
            && Home(after, c.key) == Step(Home(st, c.key), OpOf(c).value, m.now).state
    ensures var after := Execute(st, c, m).0;
            forall k :: ShardIndex(st.hash, |st.shards|, k) != ShardIndex(st.hash, |st.shards|, c.key) ==>
              Home(after, k) == Home(st, k)
  {
  }

  predicate Asks(kind: Protocol.Kind) {
    kind == Protocol.GET || kind == Protocol.EXISTS || kind == Protocol.TTL
  }

  /** Asking changes nothing that anyone can read, now or later; EXISTS changes nothing at
      all. */
  lemma {:induction false} AskingKeeps(st: Store, c: Protocol.Command, m: Moment, key: string, later: int)
    requires |st.shards| > 0 && Sane(Home(st, c.key)) && Asks(c.kind) && m.now <= later
    ensures var after := Execute(st, c, m).0;
            && Seen(after.hash, after.shards, key, later) == Seen(st.hash, st.shards, key, later)
            && after.persistence == st.persistence && (c.kind == Protocol.EXISTS ==> after == st)
  {
    KeyedExecutes(st, c, m);
    SeenAfterRead(Home(st, c.key), OpOf(c).value, m.now, key, later);
    if c.kind == Protocol.EXISTS {
      assert st.shards[ShardIndex(st.hash, |st.shards|, c.key) := Home(st, c.key)] == st.shards;
    }
  }

  /** DELETE takes its key away, for good, and no other. */
  lemma {:induction false} DeleteRemoves(st: Store, c: Protocol.Command, m: Moment, key: string, later: int)
    requires |st.shards| > 0 && Sane(Home(st, c.key)) && c.kind == Protocol.DELETE && m.now <= later
    ensures var after := Execute(st, c, m).0;
            && Seen(after.hash, after.shards, key, later) ==
               (if key == c.key then None else Seen(st.hash, st.shards, key, later))
            && Find(Home(after, c.key).entries, c.key).None? && after.persistence == st.persistence
  {
    KeyedExecutes(st, c, m);
    SeenAfterRead(Home(st, c.key), OpOf(c).value, m.now, key, later);
    ErasedIsGone(Home(st, c.key), c.key, m.now);
  }

  lemma {:induction false} ErasedIsGone(s: State, key: string, now: int)
    ensures Find(EraseKey(s, key, now).state.entries, key).None?
  {
    FindOther(s.entries, key, key);
  }

  /** Until when a key that was set at `now` can be read: for good, or for its number of
      seconds and not a nanosecond longer. */
  predicate StillThere(ttl: Option<int>, now: int, later: int) {
    ttl.None? || later - now < ttl.value * 1_000_000_000
  }

  /** SET makes its value readable for its time, in a shard that can hold anything at all;
      another key stays as it was unless it is evicted. */
  lemma {:induction false} SetWrites(st: Store, c: Protocol.Command, m: Moment, key: string, later: int)
    requires |st.shards| > 0 && Sane(Home(st, c.key)) && c.kind == Protocol.SET && m.now <= later
    ensures var after := Execute(st, c, m).0;
            var r := Seen(after.hash, after.shards, key, later);
            if key != c.key then
              || (r.None? && Home(after, key).evictions > Home(st, key).evictions)
              || r == Seen(st.hash, st.shards, key, later)
            else if HasRoom(Home(st, key).capacity) && StillThere(c.ttl, m.now, later) then
              && r.Some? && r.value.value == c.value
              && (r.value.expiresAt.None? <==> c.ttl.None?)
              && (c.ttl.Some? ==> r.value.expiresAt.value == m.now + c.ttl.value * 1_000_000_000)
            else r.None?
  {
    KeyedExecutes(st, c, m);
    SeenAfterWrite(Home(st, c.key), OpOf(c).value, m.now, key, later);
  }

  function Ask(kind: Protocol.Kind, key: string): Protocol.Command {
    Protocol.Command(kind, key, "", None)
  }

  /** SET and then GET: the value comes back if and only if the shard can hold anything and
      the time is not up. */
  lemma {:induction false} SetThenGet(st: Store, c: Protocol.Command, m1: Moment, m2: Moment)
    requires |st.shards| > 0 && Sane(Home(st, c.key)) && c.kind == Protocol.SET && m1.now <= m2.now
    ensures var (after, reply) := Execute(st, c, m1);
            && reply == Okay
            && Execute(after, Ask(Protocol.GET, c.key), m2).1 ==
               if HasRoom(Home(st, c.key).capacity) && StillThere(c.ttl, m1.now, m2.now) then Text(c.value) else Nil
  {
    ReplyTells(st, c, m1);
    SetWrites(st, c, m1, c.key, m2.now);
    ReplyTells(Execute(st, c, m1).0, Ask(Protocol.GET, c.key), m2);
  }

  /** Without persistence SAVE and LOAD are refused; a save that the disk does not let through
      leaves the file as it was; a missing file loads nothing; one that is rejected leaves the
      cache as it was. */
  lemma DiskReplies(st: Store, m: Moment)
    requires |st.shards| > 0
    ensures st.persistence.None? ==>
              Execute(st, SAVE_COMMAND, m) == Execute(st, LOAD_COMMAND, m) == (st, Failure(PersistenceOff))
    ensures st.persistence.Some? && !m.diskOk ==> Execute(st, SAVE_COMMAND, m) == (st, Failure(SaveFailed))
    ensures st.persistence == Some(None) ==> Execute(st, LOAD_COMMAND, m) == (st, Integer(0))
    ensures st.persistence.Some? && st.persistence.value.Some? &&
            Snapshot.Decode(st.persistence.value.value).Rejected? ==>
              Execute(st, LOAD_COMMAND, m) == (st, Failure(LoadFailed))
  {
  }

  // ---- The reported time to live

  /** A live key with a deadline is reported with the least whole number of seconds that
      covers its remaining whole milliseconds; that number is zero exactly when less
      than one millisecond is left. */
  lemma TtlReply(st: Store, key: string, e: Entry, m: Moment)
    requires |st.shards| > 0
    requires Find(st.shards[ShardIndex(st.hash, |st.shards|, key)].entries, key) == Some(e)
    requires e.expiresAt.Some? && !Expired(e, m.now)
    ensures var reply := Execute(st, Protocol.Command(Protocol.TTL, key, "", None), m).1;
            var left := e.expiresAt.value - m.now;
            && reply.Integer?
            && 1000 * (reply.n - 1) < left / NANOS_PER_MS <= 1000 * reply.n
            && (reply.n == 0 <==> left < NANOS_PER_MS)
  {
  }

  /** Half a millisecond before its deadline a key is still readable and reported as ":0". */
  lemma ZeroWhileAlive()
    ensures var e := Entry("k", "v", Some(NANOS_PER_MS));
            var st := Store(_ => 0, [State(None, [e], 0, 0)], None);
            var m := Moment(NANOS_PER_MS / 2, _ => 0, _ => 0, 0, true);
            && Execute(st, Protocol.Command(Protocol.TTL, "k", "", None), m).1 == Integer(0)
            && Execute(st, Protocol.Command(Protocol.GET, "k", "", None), m).1 == Text("v")
  {
  }

  // ---- SAVE, then LOAD

  const SAVE_COMMAND := Protocol.Command(Protocol.SAVE, "", "", None)
  const LOAD_COMMAND := Protocol.Command(Protocol.LOAD, "", "", None)

  function Saved(st: Store, m: Moment): seq<Snapshot.Record> {
    Snapshot.RecordsOf(ExportEach(st.shards, Readings(m.exportAt, |st.shards|)))
  }

  lemma SaveExecutes(st: Store, m: Moment)
    requires |st.shards| > 0 && st.persistence.Some? && m.diskOk
    ensures Execute(st, SAVE_COMMAND, m) ==
            (st.(persistence := Some(Some(Snapshot.FileText(m.wall, Saved(st, m))))), Integer(|Saved(st, m)|))
  {
  }

  /** A SAVE that the disk lets through leaves the cache as it was and a file that decodes
      to exactly its exported records; the reply is their number. */
  lemma {:induction false} SaveWritesAll(st: Store, m: Moment) returns (file: string)
    requires |st.shards| > 0 && st.persistence.Some? && m.diskOk
    requires SnapshotFormat.Storable(m.wall, Saved(st, m))
    ensures Execute(st, SAVE_COMMAND, m) == (st.(persistence := Some(Some(file))), Integer(|Saved(st, m)|))
    ensures Snapshot.Decode(file) == Snapshot.Accepted(m.wall, Saved(st, m))
  {
    var records := Saved(st, m);
    file := Snapshot.FileText(m.wall, records);
    SaveExecutes(st, m);
    SnapshotFormat.RoundTrip(m.wall, records);
  }

  lemma LoadExecutes(st: Store, m: Moment, file: string)
    requires |st.shards| > 0 && st.persistence == Some(Some(file))
    ensures Execute(st, LOAD_COMMAND, m) == ApplyDecoded(st, Snapshot.Decode(file), m)
  {
  }

  /** SAVE and then LOAD: the records that come back are the ones exported, and the two
      replies count the records written and the records restored. */
  lemma {:induction false} SaveThenLoadCommands(st: Store, m1: Moment, m2: Moment)
    requires |st.shards| > 0 && st.persistence.Some? && m1.diskOk
    requires SnapshotFormat.Storable(m1.wall, Saved(st, m1))
    ensures var elapsed := Restore.Elapsed(m1.wall, m2.wall);
            var (saved, r1) := Execute(st, SAVE_COMMAND, m1);
            var (loaded, r2) := Execute(saved, LOAD_COMMAND, m2);
            && saved.shards == st.shards && r1 == Integer(|Saved(st, m1)|)
            && r2 == Integer(Restore.Survivors(Saved(st, m1), elapsed))
            && loaded.shards ==
               Restore.Replay(st.hash, st.shards, Saved(st, m1), elapsed, Readings(m2.setAt, |Saved(st, m1)|))
  {
    var file := SaveWritesAll(st, m1);
    LoadExecutes(st.(persistence := Some(Some(file))), m2, file);
  }

  // ---- SAVE, a restart, LOAD

  lemma {:induction false} ExportEachHas(shards: Shards, readings: seq<int>, j: nat, e: Entry)
    requires |readings| == |shards| && j < |shards| && e in shards[j].entries && !Expired(e, readings[j])
    ensures SnapshotOf(e, readings[j]) in ExportEach(shards, readings)
  {
    if j == 0 {
      Scan.ExportHas(shards[0].entries, readings[0], e);
    } else {
      ExportEachHas(shards[1..], readings[1..], j - 1, e);
    }
  }

  lemma {:induction false} RecordSaved(st: Store, m: Moment, key: string, e: Entry) returns (n: nat)
    requires |st.shards| > 0 && Find(Home(st, key).entries, key) == Some(e)
    requires !Expired(e, m.exportAt(ShardIndex(st.hash, |st.shards|, key)))
    ensures n < |Saved(st, m)|
    ensures Saved(st, m)[n] ==
            Snapshot.RecordOf(SnapshotOf(e, m.exportAt(ShardIndex(st.hash, |st.shards|, key))))
  {
    var j, readings := ShardIndex(st.hash, |st.shards|, key), Readings(m.exportAt, |st.shards|);
    ExportEachHas(st.shards, readings, j, e);
    n :| 0 <= n < |ExportEach(st.shards, readings)| &&
         ExportEach(st.shards, readings)[n] == SnapshotOf(e, readings[j]);
  }

  /** A server that starts anew with the file on disk and an empty cache of its own layout. */
  function Restarted(saved: Store, hash: string -> nat, capacities: seq<Option<nat>>): Store {
    Store(hash, EmptyShards(capacities), saved.persistence)
  }

  lemma {:induction false} LoadsRecord(st: Store, m1: Moment, m2: Moment, hash: string -> nat,
                                       capacities: seq<Option<nat>>, n: nat)
    requires |st.shards| > 0 && Scan.Good(st.hash, st.shards) && st.persistence.Some? && m1.diskOk
    requires SnapshotFormat.Storable(m1.wall, Saved(st, m1)) && n < |Saved(st, m1)| && |capacities| > 0
    requires var r := Saved(st, m1)[n];
             var capacity := capacities[ShardIndex(hash, |capacities|, r.key)];
             && Restore.Survives(r, Restore.Elapsed(m1.wall, m2.wall))
             && (capacity.None? || |Saved(st, m1)| <= capacity.value)
    ensures var loaded := Execute(Restarted(Execute(st, SAVE_COMMAND, m1).0, hash, capacities), LOAD_COMMAND, m2).0;
            var r := Saved(st, m1)[n];
            && |loaded.shards| == |capacities| && loaded.hash == hash
            && Find(Home(loaded, r.key).entries, r.key) ==
               Some(Restore.RestoredEntry(r, Restore.Elapsed(m1.wall, m2.wall), m2.setAt(n)))
  {
    var records := Saved(st, m1);
    var file := SaveWritesAll(st, m1);
    LoadExecutes(Restarted(Execute(st, SAVE_COMMAND, m1).0, hash, capacities), m2, file);
    Restore.ExportDistinct(st.hash, st.shards, Readings(m1.exportAt, |st.shards|));
    Restore.RecordComesBack(hash, capacities, records, Restore.Elapsed(m1.wall, m2.wall),
                            Readings(m2.setAt, |records|), ShardIndex(hash, |capacities|, records[n].key), n);
  }

  /** SAVE, a restart with any hash, shard count and capacities, LOAD, GET: a key that was there
      with time left for the disk, and for which there is room, answers with its very value
      until its remaining time is up, and for good if it had no deadline. */
  lemma {:induction false} SurvivesRestart(st: Store, m1: Moment, hash: string -> nat, capacities: seq<Option<nat>>,
                                           m2: Moment, key: string, e: Entry, m3: Moment) returns (n: nat)
    requires |st.shards| > 0 && Scan.Good(st.hash, st.shards) && st.persistence.Some? && m1.diskOk
    requires SnapshotFormat.Storable(m1.wall, Saved(st, m1)) && |capacities| > 0
    requires Find(Home(st, key).entries, key) == Some(e)
    requires Restore.Outlives(e, m1.exportAt(ShardIndex(st.hash, |st.shards|, key)),
                              Restore.Elapsed(m1.wall, m2.wall))
    requires var capacity := capacities[ShardIndex(hash, |capacities|, key)];
             capacity.None? || |Saved(st, m1)| <= capacity.value
    ensures var loaded := Execute(Restarted(Execute(st, SAVE_COMMAND, m1).0, hash, capacities), LOAD_COMMAND, m2).0;
            var exported, elapsed := m1.exportAt(ShardIndex(st.hash, |st.shards|, key)),
                                     Restore.Elapsed(m1.wall, m2.wall);
            && |loaded.shards| > 0
            && Execute(loaded, Ask(Protocol.GET, key), m3).1 ==
               if e.expiresAt.Some? &&
                  m3.now - m2.setAt(n) >= ((e.expiresAt.value - exported) / 1_000_000 - elapsed) * 1_000_000
               then Nil else Text(e.value)
  {
    var exported, elapsed := m1.exportAt(ShardIndex(st.hash, |st.shards|, key)), Restore.Elapsed(m1.wall, m2.wall);
    Restore.OutlivedEarlier(e, exported, exported, elapsed);
    n := RecordSaved(st, m1, key, e);
    Restore.RecordCarries(e, exported, elapsed, m2.setAt(n));
    LoadsRecord(st, m1, m2, hash, capacities, n);
    ReplyTells(Execute(Restarted(Execute(st, SAVE_COMMAND, m1).0, hash, capacities), LOAD_COMMAND, m2).0,
               Ask(Protocol.GET, key), m3);
  }
}
