/** Any number of saves, in any number of processes, writing temporary files and renaming
    them over the snapshot, interleaved step by step with failures and crashes. The file
    system is names of inodes and inodes of bytes; `rename` is one step. */
module AtomicSave {
  import opened Prelude
  import opened Decimal

  // ---- Temporary names

  function TempName(path: string, pid: nat, serial: nat): string {
    path + (".tmp." + (Dec(pid) + ("." + Dec(serial))))
  }

  lemma {:induction false} DigitsThenDot(a: string, b: string, x: string, y: string)
    requires AllDigits(a) && AllDigits(b) && a + ("." + x) == b + ("." + y)
    ensures a == b && x == y
  {
    assert (a + ("." + x))[|a|] == '.' && (b + ("." + y))[|b|] == '.';
    assert forall i :: 0 <= i < |a| ==> (a + ("." + x))[i] == a[i];
    assert forall i :: 0 <= i < |b| ==> (b + ("." + y))[i] == b[i];
    assert |a| == |b|;
    assert a == (a + ("." + x))[..|a|] == b;
    assert x == (a + ("." + x))[|a| + 1..] == (b + ("." + y))[|b| + 1..] == y;
  }

  lemma {:induction false} SamePrefix(p: string, a: string, b: string)
    requires p + a == p + b
    ensures a == b
  {
    assert a == (p + a)[|p|..] == (p + b)[|p|..] == b;
  }

  /** No two saves share a temporary name, and none is the snapshot's own. */
  lemma {:induction false} TempNamesDistinct(path: string, pid: nat, serial: nat, pid': nat, serial': nat)
    ensures TempName(path, pid, serial) == TempName(path, pid', serial') <==> pid == pid' && serial == serial'
    ensures TempName(path, pid, serial) != path
  {
    var t, t' := TempName(path, pid, serial), TempName(path, pid', serial');
    if t == t' {
      SamePrefix(path, ".tmp." + (Dec(pid) + ("." + Dec(serial))), ".tmp." + (Dec(pid') + ("." + Dec(serial'))));
      SamePrefix(".tmp.", Dec(pid) + ("." + Dec(serial)), Dec(pid') + ("." + Dec(serial')));
      DigitsThenDot(Dec(pid), Dec(pid'), Dec(serial), Dec(serial'));
      DecInjective(pid, pid');
      DecInjective(serial, serial');
    }
    assert |t| > |path|;
  }

  // ---- The machine

  datatype Phase = Opening | Writing | Closed | Removing

  /** A save under way: who runs it, what it must write, and how far it is. */
  datatype Save = Save(pid: nat, serial: nat, bytes: string, phase: Phase, inode: nat, written: nat)

  /** `counters` holds the next serial of each live process. `shown` and `published` are
      history: every inode the snapshot path has named, and the bytes of the last rename. */
  datatype World = World(
    names: map<string, nat>, files: map<nat, string>, next: nat,
    counters: map<nat, nat>, saves: map<nat, Save>,
    shown: set<nat>, published: Option<string>)

  datatype Event =
    | StartProcess(pid: nat)
    | Begin(id: nat, pid: nat, bytes: string)
    | Open(id: nat)
    | OpenFails(id: nat)
    | WriteSome(id: nat, n: nat)
    | Flush(id: nat)
    | WriteFails(id: nat)
    | Rename(id: nat)
    | RenameFails(id: nat)
    | Remove(id: nat)
    | Crash(pid: nat)

  function Temp(path: string, s: Save): string {
    TempName(path, s.pid, s.serial)
  }

  predicate Enabled(w: World, e: Event) {
    match e
    case StartProcess(pid) => pid !in w.counters
    case Begin(id, pid, _) => id !in w.saves && pid in w.counters
    case Open(id) => id in w.saves && w.saves[id].phase == Opening
    case OpenFails(id) => id in w.saves && w.saves[id].phase == Opening
    case WriteSome(id, n) =>
      id in w.saves && w.saves[id].phase == Writing && w.saves[id].written + n <= |w.saves[id].bytes|
    case Flush(id) =>
      id in w.saves && w.saves[id].phase == Writing && w.saves[id].written == |w.saves[id].bytes|
    case WriteFails(id) => id in w.saves && w.saves[id].phase == Writing
    case Rename(id) => id in w.saves && w.saves[id].phase == Closed
    case RenameFails(id) => id in w.saves && w.saves[id].phase == Closed
    case Remove(id) => id in w.saves && w.saves[id].phase == Removing
    case Crash(pid) => pid in w.counters
  }

  /** Bytes written at an offset of whatever the file holds by now. */
  function Patch(was: string, offset: nat, chunk: string): string {
    (if |was| >= offset then was[..offset] else was + seq(offset - |was|, _ => 0 as char))
    + chunk
    + (if |was| > offset + |chunk| then was[offset + |chunk|..] else "")
  }

  function Contents(w: World, inode: nat): string {
    if inode in w.files then w.files[inode] else ""
  }

  function Step(path: string, w: World, e: Event): World
    requires Enabled(w, e)
  {
    match e
    case StartProcess(pid) => w.(counters := w.counters[pid := 0])
    case Begin(id, pid, bytes) =>
      w.(saves := w.saves[id := Save(pid, w.counters[pid], bytes, Opening, 0, 0)],
         counters := w.counters[pid := w.counters[pid] + 1])
    case Open(id) =>
      // Truncates a leftover of that name, or creates the file.
      var t := Temp(path, w.saves[id]);
      var inode := if t in w.names then w.names[t] else w.next;
      w.(names := w.names[t := inode], files := w.files[inode := ""],
         next := if t in w.names then w.next else w.next + 1,
         saves := w.saves[id := w.saves[id].(phase := Writing, inode := inode, written := 0)])
    case OpenFails(id) => w.(saves := w.saves - {id})
    case WriteSome(id, n) =>
      var s := w.saves[id];
      w.(files := w.files[s.inode := Patch(Contents(w, s.inode), s.written, s.bytes[s.written..s.written + n])],
         saves := w.saves[id := s.(written := s.written + n)])
    case Flush(id) => w.(saves := w.saves[id := w.saves[id].(phase := Closed)])
    case WriteFails(id) => w.(saves := w.saves[id := w.saves[id].(phase := Removing)])
    case Rename(id) =>
      var t := Temp(path, w.saves[id]);
      if t !in w.names then w.(saves := w.saves[id := w.saves[id].(phase := Removing)])
      else
        w.(names := (w.names - {t})[path := w.names[t]], saves := w.saves - {id},
           shown := w.shown + {w.names[t]}, published := Some(w.saves[id].bytes))
    case RenameFails(id) => w.(saves := w.saves[id := w.saves[id].(phase := Removing)])
    case Remove(id) => w.(names := w.names - {Temp(path, w.saves[id])}, saves := w.saves - {id})
    case Crash(pid) =>
      w.(counters := w.counters - {pid},
         saves := map id | id in w.saves && w.saves[id].pid != pid :: w.saves[id])
  }

  datatype History = Boot | After(before: History, event: Event)

  predicate Possible(path: string, w0: World, h: History)
    decreases h, 0
  {
    match h
    case Boot => true
    case After(before, e) => Possible(path, w0, before) && Enabled(Reach(path, w0, before), e)
  }

  function Reach(path: string, w0: World, h: History): World
    requires Possible(path, w0, h)
    decreases h, 1
  {
    match h
    case Boot => w0
    case After(before, e) => Step(path, Reach(path, w0, before), e)
  }

  // ---- What every step keeps

  /** What a reader opening the path would find. */
  function Snapshot(path: string, w: World): Option<string> {
    if path in w.names then Some(Contents(w, w.names[path])) else None
  }

  /** The snapshot's path and the temporary names of its saves. */
  ghost predicate Ours(path: string, x: string) {
    x == path || exists pid: nat, serial: nat :: x == TempName(path, pid, serial)
  }

  /** Inodes are handed out in order, no two of our names share one, and no temporary name
      leads to anything the path has ever named. Other names may share what they like. */
  ghost predicate NamesGood(path: string, w: World) {
    && (forall x :: x in w.names ==> w.names[x] < w.next)
    && (forall x, y :: x in w.names && y in w.names && Ours(path, x) && Ours(path, y) && w.names[x] == w.names[y] ==>
          x == y)
    && (forall x :: x in w.names && x != path && Ours(path, x) ==> w.names[x] !in w.shown)
    && (forall i :: i in w.shown ==> i < w.next)
    && (path in w.names ==> w.names[path] in w.shown)
  }

  /** Saves under way belong to live processes and have distinct serials there. */
  ghost predicate SavesGood(w: World) {
    && (forall id :: id in w.saves ==>
          w.saves[id].pid in w.counters && w.saves[id].serial < w.counters[w.saves[id].pid])
    && (forall a, b :: a in w.saves && b in w.saves && a != b ==>
          w.saves[a].pid != w.saves[b].pid || w.saves[a].serial != w.saves[b].serial)
  }

  /** An open save owns its temporary file, which holds what it has written so far. */
  ghost predicate SaveOwns(path: string, w: World, s: Save) {
    s.phase.Writing? || s.phase.Closed? ==>
      && Temp(path, s) in w.names && w.names[Temp(path, s)] == s.inode
      && s.written <= |s.bytes| && Contents(w, s.inode) == s.bytes[..s.written]
      && (s.phase.Closed? ==> s.written == |s.bytes|)
  }

  ghost predicate Inv(path: string, w: World) {
    && NamesGood(path, w) && SavesGood(w)
    && forall id :: id in w.saves ==> SaveOwns(path, w, w.saves[id])
  }

  /** Before anything runs: any files under any names, links included, except that the path
      and leftover temporary files of its saves are files of their own. */
  ghost predicate Initial(path: string, w: World) {
    && NamesGood(path, w) && w.saves == map[] && w.counters == map[] && w.published == None
    && w.shown == (if path in w.names then {w.names[path]} else {})
  }

  lemma TempIsOurs(path: string, s: Save)
    ensures Ours(path, Temp(path, s)) && Ours(path, path)
  {
  }

  /** Two saves under way never have the same temporary file. */
  lemma {:induction false} TempsApart(path: string, w: World, a: nat, b: nat)
    requires SavesGood(w) && a in w.saves && b in w.saves && a != b
    ensures Temp(path, w.saves[a]) != Temp(path, w.saves[b])
    ensures Temp(path, w.saves[a]) != path
  {
    TempNamesDistinct(path, w.saves[a].pid, w.saves[a].serial, w.saves[b].pid, w.saves[b].serial);
  }

  lemma {:induction false} OpenNames(path: string, w: World, id: nat)
    requires Inv(path, w) && Enabled(w, Open(id))
    ensures NamesGood(path, Step(path, w, Open(id)))
  {
    TempIsOurs(path, w.saves[id]);
    TempNamesDistinct(path, w.saves[id].pid, w.saves[id].serial, 0, 0);
  }

  lemma {:induction false} RenameNames(path: string, w: World, id: nat)
    requires Inv(path, w) && Enabled(w, Rename(id))
    ensures NamesGood(path, Step(path, w, Rename(id)))
  {
    TempIsOurs(path, w.saves[id]);
    TempNamesDistinct(path, w.saves[id].pid, w.saves[id].serial, 0, 0);
  }

  lemma {:induction false} RemoveNames(path: string, w: World, id: nat)
    requires Inv(path, w) && Enabled(w, Remove(id))
    ensures NamesGood(path, Step(path, w, Remove(id)))
  {
    TempNamesDistinct(path, w.saves[id].pid, w.saves[id].serial, 0, 0);
  }

  lemma {:induction false} StepNames(path: string, w: World, e: Event)
    requires Inv(path, w) && Enabled(w, e)
    ensures NamesGood(path, Step(path, w, e))
  {
    match e
    case Open(id) => OpenNames(path, w, id);
    case Rename(id) => RenameNames(path, w, id);
    case Remove(id) => RemoveNames(path, w, id);
    case _ =>
  }

  lemma {:induction false} BeginSaves(path: string, w: World, id: nat, pid: nat, bytes: string)
    requires SavesGood(w) && Enabled(w, Begin(id, pid, bytes))
    ensures SavesGood(Step(path, w, Begin(id, pid, bytes)))
  {
  }

  lemma {:induction false} CrashSaves(path: string, w: World, pid: nat)
    requires SavesGood(w) && Enabled(w, Crash(pid))
    ensures SavesGood(Step(path, w, Crash(pid)))
  {
  }

  lemma {:induction false} StartSaves(path: string, w: World, pid: nat)
    requires SavesGood(w) && Enabled(w, StartProcess(pid))
    ensures SavesGood(Step(path, w, StartProcess(pid)))
  {
    forall id | id in w.saves ensures w.saves[id].pid != pid {
      assert w.saves[id].pid in w.counters;
    }
  }

  lemma {:induction false} StepSaves(path: string, w: World, e: Event)
    requires SavesGood(w) && Enabled(w, e)
    ensures SavesGood(Step(path, w, e))
  {
    if e.Begin? {
      BeginSaves(path, w, e.id, e.pid, e.bytes);
    } else if e.Crash? {
      CrashSaves(path, w, e.pid);
    } else if e.StartProcess? {
      StartSaves(path, w, e.pid);
    }
  }

  lemma {:induction false} PatchAtEnd(bytes: string, m: nat, n: nat)
    requires m + n <= |bytes|
    ensures Patch(bytes[..m], m, bytes[m..m + n]) == bytes[..m + n]
  {
    assert bytes[..m][..m] == bytes[..m];
    assert bytes[..m] + bytes[m..m + n] + "" == bytes[..m + n];
  }

  /** The save an event is about. */
  function Actor(e: Event): Option<nat> {
    if e.StartProcess? || e.Crash? then None else Some(e.id)
  }

  /** A save's own step leaves its file as its progress says. */
  lemma {:induction false} ActorOwns(path: string, w: World, e: Event)
    requires Inv(path, w) && Enabled(w, e) && Actor(e).Some? && e.id in Step(path, w, e).saves
    ensures SaveOwns(path, Step(path, w, e), Step(path, w, e).saves[e.id])
  {
    if e.WriteSome? {
      assert SaveOwns(path, w, w.saves[e.id]);
      PatchAtEnd(w.saves[e.id].bytes, w.saves[e.id].written, e.n);
    }
  }

  lemma OthersKept(path: string, w: World, e: Event, id: nat)
    requires Enabled(w, e) && Actor(e) != Some(id) && id in Step(path, w, e).saves
    ensures id in w.saves && Step(path, w, e).saves[id] == w.saves[id]
  {
  }

  /** A step on one save's file leaves another's name and bytes alone. */
  lemma {:induction false} FileKept(path: string, w: World, e: Event, id: nat)
    requires Inv(path, w) && Enabled(w, e) && Actor(e).Some? && e.id in w.saves && id in w.saves && e.id != id
    requires w.saves[id].phase.Writing? || w.saves[id].phase.Closed?
    ensures var t, w' := Temp(path, w.saves[id]), Step(path, w, e);
            && t in w'.names && w'.names[t] == w.names[t]
            && Contents(w', w.names[t]) == Contents(w, w.names[t])
  {
    assert SaveOwns(path, w, w.saves[id]) && SaveOwns(path, w, w.saves[e.id]);
    TempIsOurs(path, w.saves[e.id]);
    TempIsOurs(path, w.saves[id]);
    TempsApart(path, w, e.id, id);
    TempsApart(path, w, id, e.id);
  }

  /** No step touches the temporary file of a save it is not about. */
  lemma {:induction false} OthersOwn(path: string, w: World, e: Event, id: nat)
    requires Inv(path, w) && Enabled(w, e) && Actor(e) != Some(id) && id in Step(path, w, e).saves
    ensures id in w.saves && Step(path, w, e).saves[id] == w.saves[id]
    ensures SaveOwns(path, Step(path, w, e), w.saves[id])
  {
    OthersKept(path, w, e, id);
    var s := w.saves[id];
    assert SaveOwns(path, w, s);
    if (s.phase.Writing? || s.phase.Closed?) && Actor(e).Some? && e.id in w.saves {
      FileKept(path, w, e, id);
    }
  }

  lemma {:induction false} StepInv(path: string, w: World, e: Event)
    requires Inv(path, w) && Enabled(w, e)
    ensures Inv(path, Step(path, w, e))
  {
    StepNames(path, w, e);
    StepSaves(path, w, e);
    var w' := Step(path, w, e);
    forall id | id in w'.saves ensures SaveOwns(path, w', w'.saves[id]) {
      if Actor(e) == Some(id) {
        ActorOwns(path, w, e);
      } else {
        OthersOwn(path, w, e, id);
      }
    }
  }

  /** What the path has once named is never written to again. */
  lemma {:induction false} ShownIsFrozen(path: string, w: World, e: Event, i: nat)
    requires Inv(path, w) && Enabled(w, e) && i in w.shown
    ensures i in Step(path, w, e).shown && Contents(Step(path, w, e), i) == Contents(w, i)
  {
    if Actor(e).Some? && e.id in w.saves {
      TempIsOurs(path, w.saves[e.id]);
      assert SaveOwns(path, w, w.saves[e.id]);
      TempNamesDistinct(path, w.saves[e.id].pid, w.saves[e.id].serial, 0, 0);
    }
  }

  /** One step leaves the snapshot alone, or replaces it by one whole save. */
  lemma {:induction false} StepSnapshot(path: string, w: World, e: Event)
    requires Inv(path, w) && Enabled(w, e)
    ensures var w' := Step(path, w, e);
            if e.Rename? && Temp(path, w.saves[e.id]) in w.names
            then Snapshot(path, w') == Some(w.saves[e.id].bytes) == w'.published
            else Snapshot(path, w') == Snapshot(path, w) && w'.published == w.published
  {
    if path in w.names {
      ShownIsFrozen(path, w, e, w.names[path]);
    }
    if Actor(e).Some? && e.id in w.saves {
      TempIsOurs(path, w.saves[e.id]);
      var s := w.saves[e.id];
      assert SaveOwns(path, w, s) && s.bytes[..|s.bytes|] == s.bytes;
      TempNamesDistinct(path, s.pid, s.serial, 0, 0);
    }
  }

  lemma {:induction false} ReachInv(path: string, w0: World, h: History)
    requires Initial(path, w0) && Possible(path, w0, h)
    ensures Inv(path, Reach(path, w0, h))
  {
    if h.After? {
      ReachInv(path, w0, h.before);
      StepInv(path, Reach(path, w0, h.before), h.event);
    }
  }

  /** In every interleaving of saves, failures and crashes the file at the snapshot path
      is its previous contents until the first rename, and from then on the complete
      bytes of the save that renamed last. */
  lemma {:induction false} SnapshotIsAtomic(path: string, w0: World, h: History)
    requires Initial(path, w0) && Possible(path, w0, h)
    ensures var w := Reach(path, w0, h);
            Snapshot(path, w) == if w.published.None? then Snapshot(path, w0) else w.published
  {
    if h.After? {
      SnapshotIsAtomic(path, w0, h.before);
      ReachInv(path, w0, h.before);
      StepSnapshot(path, Reach(path, w0, h.before), h.event);
    }
  }

  /** `published` is always the bytes some save was begun with. */
  predicate Begun(h: History, bytes: string) {
    h.After? && (Begun(h.before, bytes) || (h.event.Begin? && h.event.bytes == bytes))
  }

  /** No step changes what a save is to write. */
  lemma BytesKept(path: string, w: World, e: Event, id: nat)
    requires Enabled(w, e) && id in Step(path, w, e).saves
    ensures var b := Step(path, w, e).saves[id].bytes;
            (e.Begin? && e.bytes == b) || (id in w.saves && w.saves[id].bytes == b)
  {
  }

  ghost predicate AllBegun(w: World, h: History) {
    && (w.published.Some? ==> Begun(h, w.published.value))
    && forall id :: id in w.saves ==> Begun(h, w.saves[id].bytes)
  }

  lemma {:induction false} StepBegun(path: string, w: World, h: History)
    requires h.After? && Enabled(w, h.event) && AllBegun(w, h.before)
    ensures AllBegun(Step(path, w, h.event), h)
  {
    forall id | id in Step(path, w, h.event).saves ensures Begun(h, Step(path, w, h.event).saves[id].bytes) {
      BytesKept(path, w, h.event, id);
    }
  }

  lemma {:induction false} OnlyBegunBytes(path: string, w0: World, h: History)
    requires Initial(path, w0) && Possible(path, w0, h)
    ensures AllBegun(Reach(path, w0, h), h)
  {
    if h.After? {
      OnlyBegunBytes(path, w0, h.before);
      StepBegun(path, Reach(path, w0, h.before), h);
    }
  }

  // ---- Saves clean up after themselves

  predicate Crashed(h: History, pid: nat) {
    h.After? && (Crashed(h.before, pid) || h.event == Crash(pid))
  }

  /** A save of that process and serial has opened its file and has not ended. */
  predicate UnderWay(w: World, id: nat, pid: nat, serial: nat) {
    id in w.saves && w.saves[id].pid == pid && w.saves[id].serial == serial && w.saves[id].phase != Opening
  }

  /** A step makes no temporary file but that of a save it opens. */
  lemma {:induction false} NewName(path: string, w: World, e: Event, pid: nat, serial: nat) returns (id: nat)
    requires Enabled(w, e)
    requires TempName(path, pid, serial) in Step(path, w, e).names && TempName(path, pid, serial) !in w.names
    ensures UnderWay(Step(path, w, e), id, pid, serial)
  {
    id := e.id;
    TempNamesDistinct(path, w.saves[id].pid, w.saves[id].serial, pid, serial);
    TempNamesDistinct(path, pid, serial, pid, serial);
  }

  /** A save ends by taking its temporary file away, unless its process crashes. */
  lemma EndsClean(path: string, w: World, e: Event, id: nat, pid: nat, serial: nat)
    requires Enabled(w, e) && UnderWay(w, id, pid, serial) && TempName(path, pid, serial) in Step(path, w, e).names
    ensures UnderWay(Step(path, w, e), id, pid, serial) || e == Crash(pid) || TempName(path, pid, serial) == path
  {
  }

  /** In every interleaving a temporary file that was not there at the start is that of a save
      under way, or of a process that crashed: success and failure alike leave none behind. */
  lemma {:induction false} NoLeftovers(path: string, w0: World, h: History, pid: nat, serial: nat)
    requires Possible(path, w0, h) && TempName(path, pid, serial) in Reach(path, w0, h).names
    ensures || TempName(path, pid, serial) in w0.names || Crashed(h, pid)
            || exists id :: UnderWay(Reach(path, w0, h), id, pid, serial)
  {
    if h.After? {
      var w := Reach(path, w0, h.before);
      if TempName(path, pid, serial) !in w.names {
        var id := NewName(path, w, h.event, pid, serial);
      } else {
        NoLeftovers(path, w0, h.before, pid, serial);
        if id :| UnderWay(w, id, pid, serial) {
          TempNamesDistinct(path, pid, serial, pid, serial);
          EndsClean(path, w, h.event, id, pid, serial);
        }
      }
    }
  }

  predicate Prefix(g: History, h: History) {
    g == h || (h.After? && Prefix(g, h.before))
  }

  /** A reader that opened the path at any time keeps reading the same bytes, whatever
      saves do afterwards. */
  lemma {:induction false} OpenedFileKeepsContents(path: string, w0: World, g: History, h: History)
    requires Initial(path, w0) && Possible(path, w0, h) && Prefix(g, h)
    requires Possible(path, w0, g) && path in Reach(path, w0, g).names
    ensures var i := Reach(path, w0, g).names[path];
            i in Reach(path, w0, h).shown && Contents(Reach(path, w0, h), i) == Contents(Reach(path, w0, g), i)
    decreases h
  {
    ReachInv(path, w0, g);
    if g != h {
      OpenedFileKeepsContents(path, w0, g, h.before);
      ReachInv(path, w0, h.before);
      ShownIsFrozen(path, Reach(path, w0, h.before), h.event, Reach(path, w0, g).names[path]);
    }
  }
}
