/** A whole client session: lines framed, parsed, executed on the sharded cache and
    answered, from bytes in to replies out. */
module Session {
  import opened Prelude
  import opened CacheModel
  import opened Runs
  import opened Sharding
  import opened Framing
  import opened CommandHandler
  import Expiry
  import Inclusion
  import Protocol
  import Restore
  import Snapshot

  /** What others do meanwhile: an operation of another client on the shared cache, or a
      save, another client's or the periodic one, that replaces the file. */
  datatype Foreign = Acts(op: Op, now: int) | Saves(file: string, now: int)

  /** The cache behind a session, what the outside supplies for each command in turn, what
      others do between it and the next, and which sends succeed. */
  datatype Session = Session(store: Store, moments: nat -> Moment, others: nat -> seq<Foreign>, sends: nat -> bool,
                             handled: nat, replied: nat)

  /** A cache always has at least one shard. */
  type Live = x: Session | |x.store.shards| > 0
    witness Session(Store(_ => 0, [Empty(None)], None), _ => Moment(0, _ => 0, _ => 0, 0, true), _ => [], _ => true,
                    0, 0)

  function Happens(st: Store, e: Foreign): (r: Store)
    requires |st.shards| > 0
    ensures |r.shards| == |st.shards| && r.hash == st.hash
  {
    match e
    case Acts(op, now) => st.(shards := ShardedStep(st.hash, st.shards, op, now).0)
    case Saves(file, _) => if st.persistence.Some? then st.(persistence := Some(Some(file))) else st
  }

  function Meanwhile(st: Store, es: seq<Foreign>): (r: Store)
    requires |st.shards| > 0
    ensures |r.shards| == |st.shards| && r.hash == st.hash
  {
    if es == [] then st else Happens(Meanwhile(st, es[..|es| - 1]), es[|es| - 1])
  }

  /** A malformed line is answered and forgotten; a command is executed; QUIT is answered
      and ends the session, as does a send that fails. */
  function HandleLine(x: Live, line: string): Handled<Live, Reply> {
    var ok := x.sends(x.replied);
    match Protocol.ParseCommand(line)
    case Err(error) => Handled(x.(replied := x.replied + 1), Failure(BadRequest(error)), ok)
    case Ok(c) =>
      var (store, reply) := Execute(x.store, c, x.moments(x.handled));
      Handled(Executed(x, store), reply, ok && c.kind != Protocol.QUIT)
  }

  /** The session once its command has left the store so, and others have acted. */
  function Executed(x: Live, store: Store): Live
    requires |store.shards| > 0
  {
    x.(store := Meanwhile(store, x.others(x.handled)), handled := x.handled + 1, replied := x.replied + 1)
  }

  /** The operations on the cache that a file's contents amount to when it is loaded. */
  function FileTrace(d: Snapshot.Decoded, m: Moment, t: Trace): Trace {
    match d
    case Rejected => t
    case Accepted(savedAt, records) =>
      Restore.LoadTrace(t, records, Restore.Elapsed(savedAt, m.wall), Readings(m.setAt, |records|))
  }

  /** The run of cache operations once a command has been executed: its own operation, for
      LOAD one for every record restored, and otherwise none. */
  function CommandTrace(st: Store, c: Protocol.Command, m: Moment, t: Trace): Trace {
    match OpOf(c)
    case Some(op) => Then(t, op, m.now)
    case None =>
      if c.kind == Protocol.LOAD && st.persistence.Some? && st.persistence.value.Some?
      then FileTrace(Snapshot.Decode(st.persistence.value.value), m, t)
      else t
  }

  /** ... and once others have acted. */
  function ForeignTrace(t: Trace, es: seq<Foreign>): Trace {
    if es == [] then t else
    var before, e := ForeignTrace(t, es[..|es| - 1]), es[|es| - 1];
    if e.Acts? then Then(before, e.op, e.now) else before
  }

  function LineTrace(x: Live, line: string, t: Trace): Trace {
    ParsedTrace(x, Protocol.ParseCommand(line), t)
  }

  function ParsedTrace(x: Live, parsed: Protocol.ParseResult, t: Trace): Trace {
    match parsed
    case Err(_) => t
    case Ok(c) => ForeignTrace(CommandTrace(x.store, c, x.moments(x.handled), t), x.others(x.handled))
  }

  /** The run of cache operations behind the lines handled. */
  function TraceOf(x: Live, raw: seq<string>, t: Trace): Trace
    decreases |raw|
  {
    if raw == [] then t else
    var line := Clean(raw[0]);
    var y := HandleLine(x, line);
    if y.go then TraceOf(y.state, raw[1..], LineTrace(x, line, t)) else LineTrace(x, line, t)
  }

  lemma {:induction false} FileRuns(st: Store, d: Snapshot.Decoded, m: Moment, shards: Shards, t: Trace)
    requires |shards| > 0 && st.shards == ShardedRun(st.hash, shards, t)
    ensures ApplyDecoded(st, d, m).0 == st.(shards := ShardedRun(st.hash, shards, FileTrace(d, m, t)))
  {
    match d
    case Rejected =>
    case Accepted(savedAt, records) =>
      Restore.ReplayIsRun(st.hash, shards, t, records, Restore.Elapsed(savedAt, m.wall), Readings(m.setAt, |records|));
  }

  /** A command changes the cache by its operations and nothing else. */
  lemma {:induction false} CommandRuns(st: Store, c: Protocol.Command, m: Moment, shards: Shards, t: Trace)
    requires |shards| > 0 && st.shards == ShardedRun(st.hash, shards, t)
    ensures var after := Execute(st, c, m).0;
            after.hash == st.hash && after.shards == ShardedRun(st.hash, shards, CommandTrace(st, c, m, t))
  {
    if c.kind == Protocol.LOAD && st.persistence.Some? && st.persistence.value.Some? {
      FileRuns(st, Snapshot.Decode(st.persistence.value.value), m, shards, t);
    }
  }

  lemma {:induction false} ForeignRuns(st: Store, es: seq<Foreign>, shards: Shards, t: Trace)
    requires |shards| > 0 && st.shards == ShardedRun(st.hash, shards, t)
    ensures Meanwhile(st, es).shards == ShardedRun(st.hash, shards, ForeignTrace(t, es))
  {
    if es != [] {
      ForeignRuns(st, es[..|es| - 1], shards, t);
    }
  }

  /** A line changes the cache by its operations and those of others. */
  lemma {:induction false} LineRuns(x: Live, line: string, shards: Shards, t: Trace)
    requires |shards| > 0 && x.store.shards == ShardedRun(x.store.hash, shards, t)
    ensures var y := HandleLine(x, line).state;
            && y.store.hash == x.store.hash && y.moments == x.moments && y.others == x.others
            && y.store.shards == ShardedRun(x.store.hash, shards, LineTrace(x, line, t))
  {
    match Protocol.ParseCommand(line)
    case Err(_) =>
    case Ok(c) =>
      var m := x.moments(x.handled);
      CommandRuns(x.store, c, m, shards, t);
      ForeignRuns(Execute(x.store, c, m).0, x.others(x.handled), shards, CommandTrace(x.store, c, m, t));
  }

  /** Serving lines is running their operations on the sharded cache. */
  lemma {:induction false} FoldRuns(x: Live, raw: seq<string>, shards: Shards, t: Trace)
    requires |shards| > 0 && x.store.shards == ShardedRun(x.store.hash, shards, t)
    ensures var y := Fold(HandleLine, x, raw).state;
            && y.store.hash == x.store.hash && y.moments == x.moments && y.others == x.others
            && y.store.shards == ShardedRun(x.store.hash, shards, TraceOf(x, raw, t))
    decreases |raw|
  {
    if raw != [] {
      var line := Clean(raw[0]);
      LineRuns(x, line, shards, t);
      if HandleLine(x, line).go {
        FoldRuns(HandleLine(x, line).state, raw[1..], shards, LineTrace(x, line, t));
      }
    }
  }

  /** The steady clock never goes back: not from one command to the next, not from one
      record of a load to the next, which is the one before it in the file, and not while
      others act. */
  ghost predicate Steady(moments: nat -> Moment, others: nat -> seq<Foreign>) {
    && (forall i, j, k :: 0 <= i < j && 0 <= k ==> Between(moments(i), k, moments(j)))
    && (forall i :: 0 <= i ==> FollowUp(moments, others, i))
  }

  /** What others do after command `i` comes before command `i + 1`. */
  ghost predicate FollowUp(moments: nat -> Moment, others: nat -> seq<Foreign>, i: nat) {
    Ascending(others(i), moments(i).setAt(0), moments(i + 1).now)
  }

  ghost predicate Between(m: Moment, k: nat, later: Moment) {
    m.now <= m.setAt(k + 1) <= m.setAt(k) <= later.now
  }

  predicate Ascending(es: seq<Foreign>, low: int, high: int) {
    && (forall i :: 0 <= i < |es| ==> low <= es[i].now <= high)
    && (forall i, j :: 0 <= i <= j < |es| ==> es[i].now <= es[j].now)
  }

  lemma {:induction false} SetsDescend(x: Live, h: nat, i: nat, j: nat)
    requires Steady(x.moments, x.others) && i <= j
    ensures var m := x.moments(h); m.now <= m.setAt(j) <= m.setAt(i) <= x.moments(h + 1).now
    decreases j - i
  {
    assert Between(x.moments(h), i, x.moments(h + 1));
    if i < j {
      SetsDescend(x, h, i + 1, j);
    }
  }

  lemma {:induction false} LoadReadings(x: Live, h: nat, n: nat)
    requires Steady(x.moments, x.others)
    ensures var m := x.moments(h); Restore.ReadBackwards(Readings(m.setAt, n), m.now, m.setAt(0))
  {
    var m := x.moments(h);
    forall i, j | 0 <= i <= j < n ensures m.setAt(j) <= m.setAt(i) {
      SetsDescend(x, h, i, j);
    }
    forall i | 0 <= i < n ensures m.now <= m.setAt(i) <= m.setAt(0) {
      SetsDescend(x, h, 0, i);
    }
  }

  lemma {:induction false} CommandSteady(x: Live, c: Protocol.Command, t: Trace, floor: int)
    requires Steady(x.moments, x.others) && Monotone(t, floor) && Clock(t, floor) <= x.moments(x.handled).now
    ensures var m := x.moments(x.handled);
            && Monotone(CommandTrace(x.store, c, m, t), floor)
            && Clock(CommandTrace(x.store, c, m, t), floor) <= m.setAt(0)
  {
    var st, m := x.store, x.moments(x.handled);
    SetsDescend(x, x.handled, 0, 0);
    if OpOf(c).None? && c.kind == Protocol.LOAD && st.persistence.Some? && st.persistence.value.Some? {
      match Snapshot.Decode(st.persistence.value.value)
      case Rejected =>
      case Accepted(savedAt, records) =>
        LoadReadings(x, x.handled, |records|);
        Restore.LoadSteady(t, records, Restore.Elapsed(savedAt, m.wall), Readings(m.setAt, |records|), floor,
                           m.now, m.setAt(0));
    }
  }

  lemma {:induction false} ForeignSteady(t: Trace, es: seq<Foreign>, floor: int, low: int, high: int)
    requires Monotone(t, floor) && Clock(t, floor) <= low <= high && Ascending(es, low, high)
    ensures Monotone(ForeignTrace(t, es), floor)
    ensures Clock(ForeignTrace(t, es), floor) <= if es == [] then low else es[|es| - 1].now
  {
    if es != [] {
      ForeignSteady(t, es[..|es| - 1], floor, low, high);
    }
  }

  lemma {:induction false} OthersSteady(x: Live, t: Trace, floor: int)
    requires Steady(x.moments, x.others) && Monotone(t, floor) && Clock(t, floor) <= x.moments(x.handled).setAt(0)
    ensures Monotone(ForeignTrace(t, x.others(x.handled)), floor)
    ensures Clock(ForeignTrace(t, x.others(x.handled)), floor) <= x.moments(x.handled + 1).now
  {
    SetsDescend(x, x.handled, 0, 0);
    assert FollowUp(x.moments, x.others, x.handled);
    ForeignSteady(t, x.others(x.handled), floor, x.moments(x.handled).setAt(0), x.moments(x.handled + 1).now);
  }

  function NextHandled(x: Live, parsed: Protocol.ParseResult): nat {
    if parsed.Ok? then x.handled + 1 else x.handled
  }

  lemma HandledNext(x: Live, line: string)
    ensures var y := HandleLine(x, line).state;
            && y.handled == NextHandled(x, Protocol.ParseCommand(line))
            && y.moments == x.moments && y.others == x.others
  {
  }

  lemma {:induction false} ParsedSteady(x: Live, parsed: Protocol.ParseResult, t: Trace, floor: int)
    requires Steady(x.moments, x.others) && Monotone(t, floor) && Clock(t, floor) <= x.moments(x.handled).now
    ensures Monotone(ParsedTrace(x, parsed, t), floor)
    ensures Clock(ParsedTrace(x, parsed, t), floor) <= x.moments(NextHandled(x, parsed)).now
  {
    if parsed.Ok? {
      CommandSteady(x, parsed.command, t, floor);
      OthersSteady(x, CommandTrace(x.store, parsed.command, x.moments(x.handled), t), floor);
    }
  }

  lemma {:induction false} TraceSteady(x: Live, raw: seq<string>, t: Trace, floor: int)
    requires Steady(x.moments, x.others) && Monotone(t, floor) && Clock(t, floor) <= x.moments(x.handled).now
    ensures Monotone(TraceOf(x, raw, t), floor)
    ensures var y := Fold(HandleLine, x, raw).state;
            y.moments == x.moments && Clock(TraceOf(x, raw, t), floor) <= y.moments(y.handled).now
    decreases |raw|
  {
    if raw != [] {
      var line := Clean(raw[0]);
      ParsedSteady(x, Protocol.ParseCommand(line), t, floor);
      HandledNext(x, line);
      if HandleLine(x, line).go {
        TraceSteady(HandleLine(x, line).state, raw[1..], LineTrace(x, line, t), floor);
      }
    }
  }

  /** A session over a cache that the run `past` has reached from empty, the clock having
      started at `floor`; there may or may not be a file on disk. */
  ghost predicate SessionAfter(x: Live, capacities: seq<Option<nat>>, past: Trace, floor: int) {
    && |capacities| > 0 && x.store.shards == ShardedRun(x.store.hash, EmptyShards(capacities), past)
    && Monotone(past, floor) && Clock(past, floor) <= x.moments(x.handled).now
    && Steady(x.moments, x.others)
  }

  /** What a plain map with deadlines has under a key. */
  function Mapped(t: Trace, key: string, now: int): Option<Entry> {
    var p := Expiry.Purge(Expiry.MapRun(t), now);
    if key in p then Some(Entry(key, p[key].value, p[key].expiresAt)) else None
  }

  /** The reply of a command about a key tells what a plain map with deadlines has under that
      key after the same operations, or that nothing is there; and for certain the former
      while the key's shard has evicted nothing. */
  predicate Sound(st: Store, reply: Reply, t: Trace, c: Protocol.Command, now: int)
    requires |st.shards| > 0
  {
    && (Tells(c.kind, Mapped(t, c.key, now), now, reply) || Tells(c.kind, None, now, reply))
    && (Home(st, c.key).evictions == 0 ==> Tells(c.kind, Mapped(t, c.key, now), now, reply))
  }

  lemma MapTells(t: Trace, c: Protocol.Command, now: int, a: Answer)
    requires OpOf(c).Some? && Expiry.MapAnswers(Expiry.MapRun(t), OpOf(c).value, now, a)
    ensures Tells(c.kind, Mapped(t, c.key, now), now, ReplyTo(a))
  {
  }

  lemma MissTells(c: Protocol.Command, now: int, a: Answer, ideal: Answer, t: Trace)
    requires OpOf(c).Some? && Expiry.MapAnswers(Expiry.MapRun(t), OpOf(c).value, now, ideal)
    requires Inclusion.AnswerBelow(a, ideal) && a != ideal
    ensures Tells(c.kind, None, now, ReplyTo(a))
  {
  }

  lemma {:induction false} ReplySound(st: Store, capacities: seq<Option<nat>>, t: Trace, c: Protocol.Command,
                                      m: Moment, floor: int)
    requires |capacities| > 0 && OpOf(c).Some? && Monotone(t, floor) && Clock(t, floor) <= m.now
    requires st.shards == ShardedRun(st.hash, EmptyShards(capacities), t)
    ensures Sound(st, Execute(st, c, m).1, t, c, m.now)
  {
    var op := OpOf(c).value;
    var a := ShardedStep(st.hash, st.shards, op, m.now).1;
    var ideal := ShardedCacheIsSound(st.hash, capacities, t, op, m.now, floor);
    MapTells(t, c, m.now, ideal);
    if a != ideal {
      MissTells(c, m.now, a, ideal, t);
    }
  }

  /** After any lines, the reply to the next line about a key is sound. */
  lemma {:induction false} SoundAfterLines(x: Live, capacities: seq<Option<nat>>, past: Trace, floor: int,
                                           raw: seq<string>, line: string, c: Protocol.Command)
    requires SessionAfter(x, capacities, past, floor)
    requires Protocol.ParseCommand(line) == Protocol.Ok(c) && OpOf(c).Some?
    ensures var y := Fold(HandleLine, x, raw).state;
            Sound(y.store, HandleLine(y, line).reply, TraceOf(x, raw, past), c, y.moments(y.handled).now)
  {
    var y, t := Fold(HandleLine, x, raw).state, TraceOf(x, raw, past);
    FoldRuns(x, raw, EmptyShards(capacities), past);
    TraceSteady(x, raw, past, floor);
    ReplySound(y.store, capacities, t, c, y.moments(y.handled), floor);
  }

  /** However the client's bytes are chunked, whatever was loaded and whatever other clients
      did between its commands: whatever line comes next, its reply about a key says that the
      key is missing, or exactly what a plain map with deadlines would have it say after the
      same operations, and the latter for certain while the key's shard has evicted nothing.
      `k` is the number of lines served, all of them unless one over the limit was refused. */
  lemma {:induction false} RepliesAreSound(x: Live, capacities: seq<Option<nat>>, past: Trace, floor: int,
                                           recvs: seq<Read>, tooLong: Reply, line: string, c: Protocol.Command)
    returns (k: nat)
    requires SessionAfter(x, capacities, past, floor)
    requires Protocol.ParseCommand(line) == Protocol.Ok(c) && OpOf(c).Some?
    ensures ServedUpTo(HandleLine, tooLong, x, Stream(recvs), Serving(HandleLine, tooLong, x, "", recvs), k)
    ensures var y := Serving(HandleLine, tooLong, x, "", recvs).state;
            Sound(y.store, HandleLine(y, line).reply, TraceOf(x, RawLines(Stream(recvs))[..k], past), c,
                  y.moments(y.handled).now)
  {
    assert "" + Stream(recvs) == Stream(recvs);
    k := ServingIsFold(HandleLine, tooLong, x, "", recvs);
    SoundAfterLines(x, capacities, past, floor, RawLines(Stream(recvs))[..k], line, c);
  }

  /** ... and so is every reply that was sent: reply `j` answers line `j`, and if that line is
      about a key, soundly, in the cache as it was when the line was handled. */
  lemma {:induction false} SentRepliesAreSound(x: Live, capacities: seq<Option<nat>>, past: Trace, floor: int,
                                               recvs: seq<Read>, tooLong: Reply, j: nat, c: Protocol.Command)
    returns (k: nat)
    requires SessionAfter(x, capacities, past, floor) && OpOf(c).Some?
    ensures ServedUpTo(HandleLine, tooLong, x, Stream(recvs), Serving(HandleLine, tooLong, x, "", recvs), k)
    ensures j < Answers(Serving(HandleLine, tooLong, x, "", recvs)) ==> j < k <= |RawLines(Stream(recvs))|
    ensures j < Answers(Serving(HandleLine, tooLong, x, "", recvs)) &&
            Protocol.ParseCommand(Clean(RawLines(Stream(recvs))[j])) == Protocol.Ok(c) ==>
              var y := Fold(HandleLine, x, RawLines(Stream(recvs))[..j]).state;
              Sound(y.store, Serving(HandleLine, tooLong, x, "", recvs).sent[j],
                    TraceOf(x, RawLines(Stream(recvs))[..j], past), c, y.moments(y.handled).now)
  {
    var raw, r := RawLines(Stream(recvs)), Serving(HandleLine, tooLong, x, "", recvs);
    assert "" + Stream(recvs) == Stream(recvs);
    k := ServingIsFold(HandleLine, tooLong, x, "", recvs);
    if j < Answers(r) {
      ServedSentAt(HandleLine, tooLong, x, Stream(recvs), r, k, j);
      if Protocol.ParseCommand(Clean(raw[j])) == Protocol.Ok(c) {
        SoundAfterLines(x, capacities, past, floor, raw[..j], Clean(raw[j]), c);
      }
    }
  }

  // ---- How a line ends a session, and how it does not

  /** The word QUIT in any letter case, alone on its line. */
  ghost predicate SaysQuit(line: string) {
    exists seps, verb :: Protocol.Separates(seps, 1) && Protocol.UpperAll(verb) == "QUIT" &&
      line == Protocol.Render(seps, [verb])
  }

  lemma {:induction false} QuitIff(line: string)
    ensures SaysQuit(line) <==> Protocol.ParseCommand(line) == Protocol.Ok(Ask(Protocol.QUIT, ""))
  {
    var c := Ask(Protocol.QUIT, "");
    if SaysQuit(line) {
      var seps, verb :| Protocol.Separates(seps, 1) && Protocol.UpperAll(verb) == "QUIT" &&
        line == Protocol.Render(seps, [verb]);
      assert Protocol.Spelling(c, verb, "") == [verb];
      Protocol.ParserRoundTrip(c, verb, "", seps);
    }
    if Protocol.ParseCommand(line) == Protocol.Ok(c) {
      var verb, numeral, seps := Protocol.ParserSound(line);
      assert Protocol.Spelling(c, verb, numeral) == [verb];
    }
  }

  lemma {:induction false} BareQuit(line: string, c: Protocol.Command)
    requires Protocol.ParseCommand(line) == Protocol.Ok(c) && c.kind == Protocol.QUIT
    ensures c == Ask(Protocol.QUIT, "")
  {
    var verb, numeral, seps := Protocol.ParserSound(line);
  }

  lemma QuitStops(x: Live, line: string)
    ensures var parsed := Protocol.ParseCommand(line);
            var quits := parsed.Ok? && parsed.command.kind == Protocol.QUIT;
            && (HandleLine(x, line).go <==> x.sends(x.replied) && !quits)
            && (quits ==> HandleLine(x, line).reply == Bye)
  {
  }

  /** A session goes on after a line exactly when the reply could be sent and the line is not
      QUIT, which is answered first. */
  lemma {:induction false} GoesOnIff(x: Live, line: string)
    ensures HandleLine(x, line).go <==> x.sends(x.replied) && !SaysQuit(line)
    ensures SaysQuit(line) ==> HandleLine(x, line).reply == Bye
  {
    QuitIff(line);
    QuitStops(x, line);
    var parsed := Protocol.ParseCommand(line);
    if parsed.Ok? && parsed.command.kind == Protocol.QUIT {
      BareQuit(line, parsed.command);
    }
  }

  /** A malformed line is answered with an error and changes nothing. */
  lemma MalformedKeeps(x: Live, line: string)
    requires Protocol.ParseCommand(line).Err?
    ensures HandleLine(x, line).reply == Failure(BadRequest(Protocol.ParseCommand(line).error))
    ensures HandleLine(x, line).state == x.(replied := x.replied + 1)
  {
  }
}
