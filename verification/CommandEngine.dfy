/** Commands executed on the sharded cache itself: what the dispatch does to the caches on
    the heap is what `CommandHandler.Execute` does to their value. */
module CommandEngine {
  import opened Prelude
  import opened CacheModel
  import opened Sharding
  import opened ShardedEngine
  import opened CommandHandler
  import Framing
  import Persistence
  import Protocol
  import Session

  /** One operation took the cache from `before` to `after` and earned the reply. */
  ghost predicate Performed(hash: string -> nat, before: Shards, op: Op, now: int, after: Shards, reply: Reply) {
    |before| > 0 &&
    var (shards, a) := ShardedStep(hash, before, op, now);
    after == shards && reply == ReplyTo(a)
  }

  lemma Earned(hash: string -> nat, before: Shards, op: Op, now: int, after: Shards, a: Answer)
    requires |before| > 0 && ShardedStep(hash, before, op, now) == (after, a)
    ensures Performed(hash, before, op, now, after, ReplyTo(a))
  {
  }

  /** ... and so the reply tells what could be read under the key. */
  lemma PerformedTells(hash: string -> nat, before: Shards, c: Protocol.Command, now: int, after: Shards, reply: Reply)
    requires OpOf(c).Some? && Performed(hash, before, OpOf(c).value, now, after, reply)
    ensures Tells(c.kind, Seen(hash, before, c.key, now), now, reply)
  {
  }

  /** A store is answered alike whatever it did. */
  lemma StoreEarned(hash: string -> nat, before: Shards, key: string, data: string, ttl: Option<int>, now: int)
    requires |before| > 0
    ensures Performed(hash, before, SetOp(key, data, ttl), now,
                      ShardedStep(hash, before, SetOp(key, data, ttl), now).0, Okay)
  {
  }

  method StoreForever(cache: ShardedCache, key: string, data: string, now: int)
    requires cache.Valid()
    modifies cache.shards, set s | s in cache.shards :: s.entries, cache.Nodes()
    ensures cache.Valid() && cache.Grown()
    ensures Performed(cache.hash, old(cache.View()), SetOp(key, data, None), now, cache.View(), Okay)
  {
    StoreEarned(cache.hash, cache.View(), key, data, None, now);
    cache.Set(key, data, now);
  }

  method StoreFor(cache: ShardedCache, key: string, data: string, seconds: int, now: int)
    requires cache.Valid()
    modifies cache.shards, set s | s in cache.shards :: s.entries, cache.Nodes()
    ensures cache.Valid() && cache.Grown()
    ensures Performed(cache.hash, old(cache.View()), SetOp(key, data, Some(seconds)), now, cache.View(), Okay)
  {
    StoreEarned(cache.hash, cache.View(), key, data, Some(seconds), now);
    cache.SetTtl(key, data, seconds * 1000, now);
  }

  method ExecuteSet(cache: ShardedCache, key: string, data: string, ttl: Option<int>, now: int) returns (reply: Reply)
    requires cache.Valid()
    modifies cache.shards, set s | s in cache.shards :: s.entries, cache.Nodes()
    ensures cache.Valid() && cache.Grown()
    ensures Performed(cache.hash, old(cache.View()), SetOp(key, data, ttl), now, cache.View(), reply)
  {
    if ttl.Some? {
      StoreFor(cache, key, data, ttl.value, now);
    } else {
      StoreForever(cache, key, data, now);
    }
    return Okay;
  }

  method ExecuteGet(cache: ShardedCache, key: string, now: int) returns (reply: Reply)
    requires cache.Valid()
    modifies cache.shards, set s | s in cache.shards :: s.entries, cache.Nodes()
    ensures cache.Valid() && cache.Grown()
    ensures Performed(cache.hash, old(cache.View()), Op.Get(key), now, cache.View(), reply)
    ensures Tells(Protocol.GET, Seen(cache.hash, old(cache.View()), key, now), now, reply)
  {
    var value := cache.Get(key, now);
    Earned(cache.hash, old(cache.View()), Op.Get(key), now, cache.View(), Value(value));
    reply := if value.Some? then Text(value.value) else Nil;
    PerformedTells(cache.hash, old(cache.View()), Ask(Protocol.GET, key), now, cache.View(), reply);
  }

  method ExecuteDelete(cache: ShardedCache, key: string, now: int) returns (reply: Reply)
    requires cache.Valid()
    modifies cache.shards, set s | s in cache.shards :: s.entries, cache.Nodes()
    ensures cache.Valid() && cache.Grown()
    ensures Performed(cache.hash, old(cache.View()), Op.Erase(key), now, cache.View(), reply)
    ensures Tells(Protocol.DELETE, Seen(cache.hash, old(cache.View()), key, now), now, reply)
  {
    var removed := cache.Erase(key, now);
    Earned(cache.hash, old(cache.View()), Op.Erase(key), now, cache.View(), Flag(removed));
    reply := Integer(if removed then 1 else 0);
    PerformedTells(cache.hash, old(cache.View()), Ask(Protocol.DELETE, key), now, cache.View(), reply);
  }

  method ExecuteExists(cache: ShardedCache, key: string, now: int) returns (reply: Reply)
    requires cache.Valid()
    ensures Performed(cache.hash, cache.View(), Op.Contains(key), now, cache.View(), reply)
    ensures Tells(Protocol.EXISTS, Seen(cache.hash, cache.View(), key, now), now, reply)
  {
    var found := cache.Contains(key, now);
    Earned(cache.hash, cache.View(), Op.Contains(key), now, cache.View(), Flag(found));
    reply := Integer(if found then 1 else 0);
    PerformedTells(cache.hash, cache.View(), Ask(Protocol.EXISTS, key), now, cache.View(), reply);
  }

  method ExecuteTtl(cache: ShardedCache, key: string, now: int) returns (reply: Reply)
    requires cache.Valid()
    modifies cache.shards, set s | s in cache.shards :: s.entries, cache.Nodes()
    ensures cache.Valid() && cache.Grown()
    ensures Performed(cache.hash, old(cache.View()), Op.Ttl(key), now, cache.View(), reply)
    ensures Tells(Protocol.TTL, Seen(cache.hash, old(cache.View()), key, now), now, reply)
  {
    var info := cache.Ttl(key, now);
    Earned(cache.hash, old(cache.View()), Op.Ttl(key), now, cache.View(), Info(info));
    match info {
      case Missing => reply := Nil;
      case Persistent => reply := NoExpiry;
      case Expiring(ms) => reply := Integer((ms + 999) / 1000);
    }
    PerformedTells(cache.hash, old(cache.View()), Ask(Protocol.TTL, key), now, cache.View(), reply);
  }

  /** The commands about one key. */
  method ExecuteKey(cache: ShardedCache, c: Protocol.Command, m: Moment) returns (reply: Reply)
    requires cache.Valid() && OpOf(c).Some?
    modifies cache.shards, set s | s in cache.shards :: s.entries, cache.Nodes()
    ensures cache.Valid() && cache.Grown()
    ensures Performed(cache.hash, old(cache.View()), OpOf(c).value, m.now, cache.View(), reply)
  {
    match c.kind
    case SET => reply := ExecuteSet(cache, c.key, c.value, c.ttl, m.now);
    case GET => reply := ExecuteGet(cache, c.key, m.now);
    case DELETE => reply := ExecuteDelete(cache, c.key, m.now);
    case TTL => reply := ExecuteTtl(cache, c.key, m.now);
    case EXISTS => reply := ExecuteExists(cache, c.key, m.now);
  }

  method ExecuteSave(cache: ShardedCache, disk: Option<Option<string>>, m: Moment)
    returns (reply: Reply, after: Option<Option<string>>)
    requires cache.Valid()
    ensures (Store(cache.hash, cache.View(), after), reply) == DoSave(Store(cache.hash, cache.View(), disk), m)
  {
    if disk.None? {
      return Failure(PersistenceOff), disk;
    }
    if !m.diskOk {
      return Failure(SaveFailed), disk;
    }
    var file, entries := Persistence.SaveText(cache, Readings(m.exportAt, |cache.shards|), m.wall);
    return Integer(entries), Some(Some(file));
  }

  method ExecuteLoad(cache: ShardedCache, disk: Option<Option<string>>, m: Moment) returns (reply: Reply)
    requires cache.Valid()
    modifies cache.shards, set s | s in cache.shards :: s.entries, cache.Nodes()
    ensures cache.Valid() && cache.Grown()
    ensures (Store(cache.hash, cache.View(), disk), reply) == DoLoad(Store(cache.hash, old(cache.View()), disk), m)
  {
    if disk.None? {
      return Failure(PersistenceOff);
    }
    var r := Persistence.Load(cache, disk.value, m.wall, m.setAt);
    return if r.ok then Integer(r.loaded) else Failure(LoadFailed);
  }

  /** Executes a command on the cache, given what is on disk; answers, and says what is on
      disk afterwards. */
  method Execute(cache: ShardedCache, c: Protocol.Command, disk: Option<Option<string>>, m: Moment)
    returns (reply: Reply, after: Option<Option<string>>)
    requires cache.Valid()
    modifies cache.shards, set s | s in cache.shards :: s.entries, cache.Nodes()
    ensures cache.Valid() && cache.Grown()
    ensures (Store(cache.hash, cache.View(), after), reply) ==
            CommandHandler.Execute(Store(cache.hash, old(cache.View()), disk), c, m)
  {
    after := disk;
    if c.kind == Protocol.PING {
      reply := Pong;
    } else if c.kind == Protocol.QUIT {
      reply := Bye;
    } else if c.kind == Protocol.SAVE {
      reply, after := ExecuteSave(cache, disk, m);
    } else if c.kind == Protocol.LOAD {
      reply := ExecuteLoad(cache, disk, m);
    } else {
      reply := ExecuteKey(cache, c, m);
    }
  }

  /** One line of a connection: parse, execute or refuse, reply, and go on unless the
      send failed or the client said QUIT. */
  method HandleLine(cache: ShardedCache, x: Connected, line: string)
    returns (reply: Reply, go: bool, after: Connected)
    requires cache.Valid()
    modifies cache.shards, set s | s in cache.shards :: s.entries, cache.Nodes()
    ensures cache.Valid() && cache.Grown()
    ensures Answered(cache.hash, old(cache.View()), x, line, cache.View(), reply, go, after)
  {
    var sent := x.sends(x.replied);
    var parsed := Protocol.ParseLine(line);
    if parsed.Err? {
      Refused(cache.hash, cache.View(), x, line, parsed.error);
      return Failure(BadRequest(parsed.error)), sent, x.(replied := x.replied + 1);
    }
    var disk;
    reply, disk := Execute(cache, parsed.command, x.disk, x.moments(x.handled));
    Obeyed(cache.hash, old(cache.View()), x, line, parsed.command, cache.View(), disk, reply);
    go := sent && parsed.command.kind != Protocol.QUIT;
    after := x.(disk := disk, handled := x.handled + 1, replied := x.replied + 1);
  }

  /** A session apart from its cache. */
  datatype Connected = Connected(disk: Option<Option<string>>, moments: nat -> Moment, sends: nat -> bool,
                                 handled: nat, replied: nat)

  /** Nobody else uses the cache. */
  function Nobody(h: nat): seq<Session.Foreign> {
    []
  }

  ghost function SessionOf(hash: string -> nat, shards: Shards, x: Connected): Session.Session {
    Session.Session(Store(hash, shards, x.disk), x.moments, Nobody, x.sends, x.handled, x.replied)
  }

  /** The line was handled as `Session.HandleLine` handles it. */
  ghost predicate Answered(hash: string -> nat, before: Shards, x: Connected, line: string,
                           shards: Shards, reply: Reply, go: bool, after: Connected) {
    && |before| > 0 && |shards| > 0
    && Session.HandleLine(SessionOf(hash, before, x), line) ==
       Framing.Handled(SessionOf(hash, shards, after), reply, go)
  }

  lemma Refused(hash: string -> nat, shards: Shards, x: Connected, line: string, error: Protocol.ParseError)
    requires |shards| > 0 && Protocol.ParseCommand(line) == Protocol.Err(error)
    ensures Answered(hash, shards, x, line, shards, Failure(BadRequest(error)), x.sends(x.replied),
                     x.(replied := x.replied + 1))
  {
  }

  /** A session that has the cache to itself, after a command. */
  lemma {:induction false} Alone(hash: string -> nat, before: Shards, x: Connected, shards: Shards,
                                 disk: Option<Option<string>>)
    requires |before| > 0 && |shards| > 0
    ensures Session.Executed(SessionOf(hash, before, x), Store(hash, shards, disk)) ==
            SessionOf(hash, shards, x.(disk := disk, handled := x.handled + 1, replied := x.replied + 1))
  {
  }

  lemma Commanded(x: Session.Live, line: string, c: Protocol.Command, store: Store, reply: Reply)
    requires |store.shards| > 0 && Protocol.ParseCommand(line) == Protocol.Ok(c)
    requires CommandHandler.Execute(x.store, c, x.moments(x.handled)) == (store, reply)
    ensures Session.HandleLine(x, line) ==
            Framing.Handled(Session.Executed(x, store), reply, x.sends(x.replied) && c.kind != Protocol.QUIT)
  {
  }

  lemma {:induction false} Obeyed(hash: string -> nat, before: Shards, x: Connected, line: string, c: Protocol.Command,
                                  shards: Shards, disk: Option<Option<string>>, reply: Reply)
    requires |before| > 0 && |shards| > 0 && Protocol.ParseCommand(line) == Protocol.Ok(c)
    requires (Store(hash, shards, disk), reply) ==
             CommandHandler.Execute(Store(hash, before, x.disk), c, x.moments(x.handled))
    ensures Answered(hash, before, x, line, shards, reply, x.sends(x.replied) && c.kind != Protocol.QUIT,
                     x.(disk := disk, handled := x.handled + 1, replied := x.replied + 1))
  {
    Alone(hash, before, x, shards, disk);
    Commanded(SessionOf(hash, before, x), line, c, Store(hash, shards, disk), reply);
  }
}
