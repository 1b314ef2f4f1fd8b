/** The accept loop and its worker threads, interleaved step by step: every read or write
    of a shared counter or flag, every thread start and every join is one step. */
module ServerLifecycle {
  /** A worker thread: serving its connection, then past the decrement of the active
      count, then past setting its finished flag, its last act. */
  datatype Phase = Serving | Decremented | Finished

  datatype Thread = Thread(phase: Phase, joins: nat)

  /** Where the thread running `run` is. */
  datatype Loop =
    | Top
    | Reaping(i: nat, ready: bool)
    | Accepting
    | Accepted
    | Admitted
    | Counted
    | Created(id: nat)
    | Joining(rest: seq<nat>)
    | Returned

  datatype Server = Server(
    limit: nat, stop: bool, active: int, served: nat,
    loop: Loop, workers: seq<nat>, threads: map<nat, Thread>)

  datatype Event =
    | Stop
    | PollInterrupted
    | LeaveLoop(pollFailed: bool)
    | StartReap(ready: bool)
    | ReapStep
    | ReapDone
    | AcceptFails
    | AcceptOk
    | Refuse
    | Admit
    | Count
    | SpawnOk(id: nat)
    | SpawnFails
    | Push
    | JoinNext
    | Return
    | Decrement(id: nat)
    | Flag(id: nat)

  predicate Done(s: Server, id: nat) {
    id in s.threads && s.threads[id].phase == Finished
  }

  predicate Enabled(s: Server, e: Event) {
    match e
    case Stop => !s.stop
    case PollInterrupted => s.loop.Top? && !s.stop
    case LeaveLoop(pollFailed) => s.loop.Top? && (s.stop || pollFailed)
    case StartReap(_) => s.loop.Top? && !s.stop
    case ReapStep => s.loop.Reaping? && s.loop.i < |s.workers|
    case ReapDone => s.loop.Reaping? && s.loop.i >= |s.workers|
    case AcceptFails => s.loop.Accepting?
    case AcceptOk => s.loop.Accepting?
    case Refuse => s.loop.Accepted? && s.active >= s.limit
    case Admit => s.loop.Accepted? && s.active < s.limit
    case Count => s.loop.Admitted?
    case SpawnOk(id) => s.loop.Counted? && id !in s.threads
    case SpawnFails => s.loop.Counted?
    case Push => s.loop.Created?
    case JoinNext => s.loop.Joining? && s.loop.rest != [] && Done(s, s.loop.rest[0])
    case Return => s.loop.Joining? && s.loop.rest == []
    case Decrement(id) => id in s.threads && s.threads[id].phase == Serving
    case Flag(id) => id in s.threads && s.threads[id].phase == Decremented
  }

  function Joined(s: Server, id: nat): map<nat, Thread> {
    if id in s.threads then s.threads[id := s.threads[id].(joins := s.threads[id].joins + 1)] else s.threads
  }

  function Step(s: Server, e: Event): Server
    requires Enabled(s, e)
  {
    match e
    case Stop => s.(stop := true)
    case PollInterrupted => s
    case LeaveLoop(_) => s.(loop := Joining(s.workers), workers := [])
    case StartReap(ready) => s.(loop := Reaping(0, ready))
    case ReapStep =>
      var i := s.loop.i;
      if Done(s, s.workers[i])
      then s.(threads := Joined(s, s.workers[i]), workers := s.workers[..i] + s.workers[i + 1..])
      else s.(loop := Reaping(i + 1, s.loop.ready))
    case ReapDone => s.(loop := if s.loop.ready then Accepting else Top)
    case AcceptFails => s.(loop := Top)
    case AcceptOk => s.(loop := Accepted)
    case Refuse => s.(loop := Top)
    case Admit => s.(loop := Admitted)
    case Count => s.(loop := Counted, served := s.served + 1, active := s.active + 1)
    case SpawnOk(id) => s.(loop := Created(id), threads := s.threads[id := Thread(Serving, 0)])
    case SpawnFails => s.(loop := Top, active := s.active - 1)
    case Push => s.(loop := Top, workers := s.workers + [s.loop.id])
    case JoinNext => s.(loop := Joining(s.loop.rest[1..]), threads := Joined(s, s.loop.rest[0]))
    case Return => s.(loop := Returned)
    case Decrement(id) => s.(active := s.active - 1, threads := s.threads[id := s.threads[id].(phase := Decremented)])
    case Flag(id) => s.(threads := s.threads[id := s.threads[id].(phase := Finished)])
  }

  datatype History = Start(limit: nat) | After(before: History, event: Event)

  predicate Possible(h: History)
    decreases h, 0
  {
    match h
    case Start(_) => true
    case After(before, e) => Possible(before) && Enabled(Reach(before), e)
  }

  function Reach(h: History): Server
    requires Possible(h)
    decreases h, 1
  {
    match h
    case Start(limit) => Server(limit, false, 0, 0, Top, [], map[])
    case After(before, e) => Step(Reach(before), e)
  }

  // ---- What every step keeps

  /** Threads that have not yet given back their place in the active count. */
  function ServingIds(threads: map<nat, Thread>): set<nat> {
    set id | id in threads && threads[id].phase == Serving
  }

  /** The threads the accept loop still has to join, each listed once. */
  function Pending(s: Server): seq<nat> {
    s.workers + (match s.loop
                 case Created(id) => [id]
                 case Joining(rest) => rest
                 case _ => [])
  }

  predicate Unique(ids: seq<nat>) {
    forall i, j :: 0 <= i < j < |ids| ==> ids[i] != ids[j]
  }

  /** The active count is the number of connections served or being set up. */
  predicate CountGood(s: Server) {
    && s.active == |ServingIds(s.threads)| + (if s.loop.Counted? then 1 else 0)
    && s.active <= s.limit
    && (s.loop.Admitted? ==> s.active < s.limit)
  }

  /** Every thread was joined once or is still pending, and only finished ones were joined. */
  predicate JoinsGood(s: Server) {
    && Unique(Pending(s))
    && (forall i :: 0 <= i < |Pending(s)| ==> Pending(s)[i] in s.threads && s.threads[Pending(s)[i]].joins == 0)
    && (forall id :: id in s.threads && id !in Pending(s) ==> s.threads[id] == Thread(Finished, 1))
    && ((s.loop.Joining? || s.loop.Returned?) ==> s.workers == [])
  }

  lemma ServingUpdate(threads: map<nat, Thread>, id: nat, t: Thread)
    ensures ServingIds(threads[id := t]) ==
            (if t.phase == Serving then ServingIds(threads) + {id} else ServingIds(threads) - {id})
  {
  }

  lemma {:induction false} StepCount(s: Server, e: Event)
    requires CountGood(s) && Enabled(s, e)
    requires JoinsGood(s)
    ensures CountGood(Step(s, e))
  {
    match e
    case SpawnOk(id) => ServingUpdate(s.threads, id, Thread(Serving, 0));
    case Decrement(id) => ServingUpdate(s.threads, id, s.threads[id].(phase := Decremented));
    case Flag(id) => ServingUpdate(s.threads, id, s.threads[id].(phase := Finished));
    case ReapStep => JoinServing(s, s.workers[s.loop.i]);
    case JoinNext => JoinServing(s, s.loop.rest[0]);
    case _ =>
  }

  lemma {:induction false} JoinServing(s: Server, id: nat)
    ensures ServingIds(Joined(s, id)) == ServingIds(s.threads)
  {
    if id in s.threads {
      ServingUpdate(s.threads, id, s.threads[id].(joins := s.threads[id].joins + 1));
    }
  }

  /** A step that leaves the pending list and the threads' join counts alone. */
  lemma SamePending(s: Server, s': Server)
    requires JoinsGood(s) && Pending(s') == Pending(s)
    requires s'.threads.Keys == s.threads.Keys
    requires forall id :: id in s.threads ==> s'.threads[id].joins == s.threads[id].joins
    requires forall id :: id in s.threads && s.threads[id].phase == Finished ==> s'.threads[id] == s.threads[id]
    requires (s'.loop.Joining? || s'.loop.Returned?) ==> s'.workers == []
    ensures JoinsGood(s')
  {
  }

  /** A join takes one finished thread off the pending list. */
  lemma {:induction false} JoinOne(s: Server, s': Server, i: nat)
    requires JoinsGood(s) && i < |Pending(s)| && Done(s, Pending(s)[i])
    requires Pending(s') == Pending(s)[..i] + Pending(s)[i + 1..]
    requires s'.threads == Joined(s, Pending(s)[i])
    requires (s'.loop.Joining? || s'.loop.Returned?) ==> s'.workers == []
    ensures JoinsGood(s')
  {
    var p, p' := Pending(s), Pending(s');
    forall j | 0 <= j < |p| && j != i ensures p[j] in p' {
      assert p[j] == p'[if j < i then j else j - 1];
    }
  }

  lemma {:induction false} ReapJoins(s: Server)
    requires JoinsGood(s) && Enabled(s, ReapStep)
    ensures JoinsGood(Step(s, ReapStep))
  {
    var s' := Step(s, ReapStep);
    assert Pending(s) == s.workers && Pending(s') == s'.workers;
    if Done(s, s.workers[s.loop.i]) {
      JoinOne(s, s', s.loop.i);
    } else {
      SamePending(s, s');
    }
  }

  lemma {:induction false} NextJoins(s: Server)
    requires JoinsGood(s) && Enabled(s, JoinNext)
    ensures JoinsGood(Step(s, JoinNext))
  {
    var s', rest := Step(s, JoinNext), s.loop.rest;
    assert Pending(s) == rest && Pending(s') == rest[1..] == rest[..0] + rest[1..];
    JoinOne(s, s', 0);
  }

  lemma {:induction false} SpawnJoins(s: Server, id: nat)
    requires JoinsGood(s) && Enabled(s, SpawnOk(id))
    ensures JoinsGood(Step(s, SpawnOk(id)))
  {
    assert Pending(s) == s.workers && Pending(Step(s, SpawnOk(id))) == s.workers + [id];
  }

  lemma {:induction false} StepJoins(s: Server, e: Event)
    requires JoinsGood(s) && Enabled(s, e)
    ensures JoinsGood(Step(s, e))
  {
    match e
    case ReapStep => ReapJoins(s);
    case JoinNext => NextJoins(s);
    case SpawnOk(id) => SpawnJoins(s, id);
    case _ =>
      assert Pending(Step(s, e)) == Pending(s);
      SamePending(s, Step(s, e));
  }

  lemma {:induction false} ReachGood(h: History)
    requires Possible(h)
    ensures CountGood(Reach(h)) && JoinsGood(Reach(h))
  {
    if h.After? {
      ReachGood(h.before);
      StepCount(Reach(h.before), h.event);
      StepJoins(Reach(h.before), h.event);
    }
  }

  /** In every interleaving, failed thread creation included, the active count is the
      number of connections being served or set up and never exceeds the limit, and a
      raised finished flag means the thread has already given its place back. */
  lemma {:induction false} ActiveCountExact(h: History, id: nat)
    requires Possible(h)
    ensures var s := Reach(h);
            && s.active == |ServingIds(s.threads)| + (if s.loop.Counted? then 1 else 0)
            && 0 <= s.active <= s.limit
            && (Done(s, id) ==> id !in ServingIds(s.threads))
  {
    ReachGood(h);
  }

  /** A client is turned away exactly when as many connections as are allowed are being served. */
  lemma {:induction false} RefusedIffFull(h: History)
    requires Possible(h) && Reach(h).loop.Accepted?
    ensures var s := Reach(h);
            && (Enabled(s, Refuse) <==> |ServingIds(s.threads)| == s.limit)
            && (Enabled(s, Admit) <==> |ServingIds(s.threads)| < s.limit)
  {
    ReachGood(h);
  }

  /** When `run` has returned, every thread ever started has finished and was joined
      exactly once, and the active count is zero. */
  lemma {:induction false} RunJoinsEveryThread(h: History)
    requires Possible(h) && Reach(h).loop.Returned?
    ensures var s := Reach(h);
            s.active == 0 && s.workers == [] && forall id :: id in s.threads ==> s.threads[id] == Thread(Finished, 1)
  {
    ReachGood(h);
    var s := Reach(h);
    assert Pending(s) == [];
    assert ServingIds(s.threads) == {};
  }

  /** No thread is ever joined twice. */
  lemma {:induction false} NeverJoinedTwice(h: History, id: nat)
    requires Possible(h) && id in Reach(h).threads
    ensures Reach(h).threads[id].joins <= 1
    ensures Reach(h).threads[id].joins == 1 ==> Done(Reach(h), id)
  {
    ReachGood(h);
    var s := Reach(h);
    if id in Pending(s) {
      var i :| 0 <= i < |Pending(s)| && Pending(s)[i] == id;
    }
  }

  // ---- The loop is never stuck, and shutting down ends

  /** A step of the thread that runs the accept loop. */
  predicate OfLoop(e: Event) {
    !e.Stop? && !e.Decrement? && !e.Flag?
  }

  /** A step of the very thread the loop is waiting to join. */
  predicate OfAwaited(s: Server, e: Event) {
    s.loop.Joining? && s.loop.rest != [] && (e == Decrement(s.loop.rest[0]) || e == Flag(s.loop.rest[0]))
  }

  /** Until it returns, the accept loop can move, or the very thread it waits to join can. */
  lemma {:induction false} NeverStuck(h: History) returns (e: Event)
    requires Possible(h) && !Reach(h).loop.Returned?
    ensures Enabled(Reach(h), e) && (OfLoop(e) || OfAwaited(Reach(h), e))
  {
    ReachGood(h);
    var s := Reach(h);
    match s.loop
    case Top => e := if s.stop then LeaveLoop(false) else StartReap(false);
    case Reaping(i, _) => e := if i < |s.workers| then ReapStep else ReapDone;
    case Accepting => e := AcceptOk;
    case Accepted => e := if s.active >= s.limit then Refuse else Admit;
    case Admitted => e := Count;
    case Counted => e := SpawnFails;
    case Created(_) => e := Push;
    case Joining(rest) =>
      if rest == [] {
        e := Return;
      } else {
        assert Pending(s)[|s.workers|] == rest[0];
        var id := rest[0];
        e := match s.threads[id].phase
             case Serving => Decrement(id)
             case Decremented => Flag(id)
             case Finished => JoinNext;
      }
  }

  function DecrementedIds(threads: map<nat, Thread>): set<nat> {
    set id | id in threads && threads[id].phase == Decremented
  }

  /** What is left to do once the loop has been left. */
  function Remaining(s: Server): nat {
    2 * |ServingIds(s.threads)| + |DecrementedIds(s.threads)| + (if s.stop then 0 else 1) +
    (match s.loop case Joining(rest) => |rest| + 1 case _ => 0)
  }

  lemma DecrementedUpdate(threads: map<nat, Thread>, id: nat, t: Thread)
    ensures DecrementedIds(threads[id := t]) ==
            (if t.phase == Decremented then DecrementedIds(threads) + {id} else DecrementedIds(threads) - {id})
  {
  }

  /** Once the loop is left, every step brings the return of `run` closer: shutting down
      takes boundedly many steps after the connections have ended. */
  lemma {:induction false} ShutdownEnds(h: History, e: Event)
    requires Possible(h) && Enabled(Reach(h), e) && Reach(h).loop.Joining?
    ensures Remaining(Step(Reach(h), e)) < Remaining(Reach(h))
    ensures Step(Reach(h), e).loop.Joining? || Step(Reach(h), e).loop.Returned?
  {
    ReachGood(h);
    var s := Reach(h);
    match e
    case Decrement(id) =>
      ServingUpdate(s.threads, id, s.threads[id].(phase := Decremented));
      DecrementedUpdate(s.threads, id, s.threads[id].(phase := Decremented));
    case Flag(id) =>
      ServingUpdate(s.threads, id, s.threads[id].(phase := Finished));
      DecrementedUpdate(s.threads, id, s.threads[id].(phase := Finished));
    case JoinNext =>
      JoinServing(s, s.loop.rest[0]);
      DecrementedUpdate(s.threads, s.loop.rest[0], Joined(s, s.loop.rest[0])[s.loop.rest[0]]);
    case _ =>
  }

  // ---- Threads that linger

  /** Unjoined threads that no longer count as active. */
  function Lingering(s: Server): set<nat> {
    set id | id in Pending(s) && id !in ServingIds(s.threads)
  }

  function Ids(ids: seq<nat>): set<nat> {
    set id | id in ids
  }

  lemma {:induction false} UniqueSize(ids: seq<nat>)
    requires Unique(ids)
    ensures |Ids(ids)| == |ids|
  {
    if ids != [] {
      UniqueSize(ids[1..]);
      assert Ids(ids) == Ids(ids[1..]) + {ids[0]};
      assert ids[0] !in Ids(ids[1..]);
    }
  }

  /** The threads not yet joined are those serving plus those lingering. */
  lemma {:induction false} ThreadsAlive(h: History)
    requires Possible(h)
    ensures |Pending(Reach(h))| == |ServingIds(Reach(h).threads)| + |Lingering(Reach(h))|
  {
    ReachGood(h);
    var s := Reach(h);
    UniqueSize(Pending(s));
    assert Ids(Pending(s)) == ServingIds(s.threads) + Lingering(s);
  }

  /** At no time are there more unjoined threads than the connection limit. */
  predicate CappedThroughout(h: History)
    requires Possible(h)
  {
    match h
    case Start(_) => true
    case After(before, e) => CappedThroughout(before) && |Pending(Reach(h))| <= Reach(h).limit
  }

  /** Every thread was started while fewer than `limit` workers were listed. */
  predicate RoomAtEverySpawn(h: History)
    requires Possible(h)
  {
    match h
    case Start(_) => true
    case After(before, e) =>
      RoomAtEverySpawn(before) && (e.SpawnOk? ==> |Reach(before).workers| < Reach(before).limit)
  }

  /** Only starting a thread adds one. */
  lemma StepPending(s: Server, e: Event)
    requires Enabled(s, e) && JoinsGood(s)
    ensures Step(s, e).limit == s.limit
    ensures e.SpawnOk? ==> |Pending(Step(s, e))| == |s.workers| + 1
    ensures !e.SpawnOk? ==> |Pending(Step(s, e))| <= |Pending(s)|
  {
  }

  /** The connection limit is a cap on threads exactly on those runs where each thread is
      started with room among the listed workers; the code compares the active count. */
  lemma {:induction false} ThreadsCappedIff(h: History)
    requires Possible(h)
    ensures CappedThroughout(h) <==> RoomAtEverySpawn(h)
  {
    if h.After? {
      ThreadsCappedIff(h.before);
      ReachGood(h.before);
      StepPending(Reach(h.before), h.event);
      if CappedThroughout(h.before) {
        CappedBefore(h.before);
      }
    }
  }

  lemma CappedBefore(h: History)
    requires Possible(h) && CappedThroughout(h)
    ensures |Pending(Reach(h))| <= Reach(h).limit
  {
  }

  // ---- Any number of them

  lemma {:induction false} Next(h0: History, e: Event) returns (h: History)
    requires Possible(h0) && Enabled(Reach(h0), e)
    ensures Possible(h) && Reach(h) == Step(Reach(h0), e)
  {
    h := After(h0, e);
  }

  function UpTo(n: nat): (ids: seq<nat>)
    ensures |ids| == n && forall i :: 0 <= i < n ==> ids[i] == i
  {
    seq(n, i requires i >= 0 => i)
  }

  /** Threads that have given their place back and linger, numbered from zero. */
  function Lingerers(n: nat): map<nat, Thread> {
    map id | id in UpTo(n) :: Thread(Decremented, 0)
  }

  /** A server at rest but for `n` threads that linger. */
  function Crowd(limit: nat, n: nat, loop: Loop): Server {
    Server(limit, false, 0, n, loop, UpTo(n), Lingerers(n))
  }

  /** The loop looks at every one of them and can join none. */
  lemma {:induction false} ReapNone(h0: History, limit: nat, n: nat, i: nat) returns (h: History)
    requires i <= n && Possible(h0) && Reach(h0) == Crowd(limit, n, Reaping(i, true))
    ensures Possible(h) && Reach(h) == Crowd(limit, n, Reaping(n, true))
    decreases n - i
  {
    h := h0;
    if i < n {
      h := Next(h, ReapStep);
      h := ReapNone(h, limit, n, i + 1);
    }
  }

  /** A client that is let in: from an idle accept to a started thread. */
  lemma {:induction false} LetIn(h0: History, id: nat) returns (h: History)
    requires Possible(h0) && Reach(h0).loop.Accepting?
    requires Reach(h0).active < Reach(h0).limit && id !in Reach(h0).threads
    ensures Possible(h)
    ensures var s := Reach(h0);
            Reach(h) == s.(loop := Created(id), served := s.served + 1, active := s.active + 1,
                           threads := s.threads[id := Thread(Serving, 0)])
  {
    h := Next(h0, AcceptOk);
    h := Next(h, Admit);
    h := Next(h, Count);
    h := Next(h, SpawnOk(id));
  }

  lemma GrownCrowd(n: nat)
    ensures UpTo(n) + [n] == UpTo(n + 1)
    ensures Lingerers(n)[n := Thread(Serving, 0)][n := Thread(Decremented, 0)] == Lingerers(n + 1)
  {
  }

  lemma {:induction false} StillAccepting(h0: History, limit: nat, n: nat) returns (h: History)
    requires Possible(h0) && Reach(h0) == Crowd(limit, n, Top)
    ensures Possible(h) && Reach(h) == Crowd(limit, n, Accepting)
  {
    h := Next(h0, StartReap(true));
    h := ReapNone(h, limit, n, 0);
    h := Next(h, ReapDone);
  }

  /** A thread is listed and gives its place back at once. */
  lemma {:induction false} LetOut(h0: History, id: nat) returns (h: History)
    requires Possible(h0) && Reach(h0).loop == Created(id)
    requires id in Reach(h0).threads && Reach(h0).threads[id] == Thread(Serving, 0)
    ensures Possible(h)
    ensures var s := Reach(h0);
            Reach(h) == s.(loop := Top, active := s.active - 1, workers := s.workers + [id],
                           threads := s.threads[id := Thread(Decremented, 0)])
  {
    h := Next(h0, Push);
    h := Next(h, Decrement(id));
  }

  /** One more client comes and goes while none of the lingering threads gets further. */
  lemma {:induction false} OneMoreLingers(h0: History, limit: nat, n: nat) returns (h: History)
    requires limit >= 1 && Possible(h0) && Reach(h0) == Crowd(limit, n, Top)
    ensures Possible(h) && Reach(h) == Crowd(limit, n + 1, Top)
  {
    h := StillAccepting(h0, limit, n);
    h := LetIn(h, n);
    h := LetOut(h, n);
    GrownCrowd(n);
  }

  /** Whatever the connection limit, any number of threads can be waiting to be joined at
      once: each has given its place back but not yet raised its flag. */
  lemma {:induction false} LimitDoesNotCapThreads(limit: nat, n: nat) returns (h: History)
    requires limit >= 1
    ensures Possible(h) && Reach(h) == Crowd(limit, n, Top) && |Pending(Reach(h))| == n
  {
    if n == 0 {
      h := Start(limit);
      assert Lingerers(0) == map[] && UpTo(0) == [];
    } else {
      h := LimitDoesNotCapThreads(limit, n - 1);
      h := OneMoreLingers(h, limit, n - 1);
    }
  }
}
