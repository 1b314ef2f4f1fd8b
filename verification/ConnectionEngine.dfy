/** A connection as it is served: lines taken from a buffer, executed on the heap caches and
    answered, until the client leaves. */
module ConnectionEngine {
  import opened Prelude
  import opened Framing
  import opened Sharding
  import opened ShardedEngine
  import opened CommandHandler
  import opened CommandEngine
  import Session

  type LineHandler = Handler<Session.Live, Reply>

  predicate Asked(x: Session.Live, line: string) {
    true
  }

  /** `h` handles lines as a session does; said so that it is used only where it is asked. */
  ghost predicate Follows(h: LineHandler) {
    forall x: Session.Live, line: string {:trigger Asked(x, line)} ::
      Asked(x, line) ==> h(x, line) == Session.HandleLine(x, line)
  }

  lemma {:induction false} HandledSo(h: LineHandler, hash: string -> nat, before: Shards, x: Connected, line: string,
                                     shards: Shards, reply: Reply, go: bool, after: Connected)
    requires Follows(h) && Answered(hash, before, x, line, shards, reply, go, after)
    ensures h(SessionOf(hash, before, x), line) == Handled(SessionOf(hash, shards, after), reply, go)
  {
    assert Asked(SessionOf(hash, before, x), line);
  }

  /** A line handled on the heap cache, as `h` has it. */
  method HandleBy(ghost h: LineHandler, cache: ShardedCache, x: Connected, line: string)
    returns (reply: Reply, go: bool, after: Connected)
    requires cache.Valid() && Follows(h)
    modifies cache.shards, set s | s in cache.shards :: s.entries, cache.Nodes()
    ensures cache.Valid() && cache.Grown()
    ensures h(SessionOf(cache.hash, old(cache.View()), x), line) ==
            Handled(SessionOf(cache.hash, cache.View(), after), reply, go)
  {
    reply, go, after := HandleLine(cache, x, line);
    HandledSo(h, cache.hash, old(cache.View()), x, line, cache.View(), reply, go, after);
  }

  class Connection {
    const cache: ShardedCache
    const buffer: LineBuffer
    var x: Connected
    var sent: seq<Reply>

    ghost predicate Valid()
      reads this, buffer, cache.shards, set s | s in cache.shards :: s.entries,
        set s, n | s in cache.shards && n in s.entries.repr :: n
    {
      cache.Valid() && buffer.Valid()
    }

    /** The session this connection stands for. */
    ghost function Here(): Session.Live
      requires |cache.shards| > 0
      reads this, cache.shards, set s | s in cache.shards :: s.entries
    {
      SessionOf(cache.hash, cache.View(), x)
    }

    constructor (cache: ShardedCache, x: Connected)
      requires cache.Valid()
      ensures Valid() && this.cache == cache && this.x == x && sent == []
      ensures fresh(buffer) && buffer.buffer == "" && buffer.peak == 0
    {
      this.cache, this.x, sent := cache, x, [];
      buffer := new LineBuffer();
    }

    /** One line handled, and its reply sent. */
    method Handle(ghost h: LineHandler, line: string) returns (ghost reply: Reply, go: bool)
      requires Valid() && Follows(h)
      modifies this`x, this`sent, cache.shards, set s | s in cache.shards :: s.entries, cache.Nodes()
      ensures Valid() && cache.Grown()
      ensures sent == old(sent) + [reply] && h(old(Here()), line) == Handled(Here(), reply, go)
    {
      var r, more, after := HandleBy(h, cache, x, line);
      x, sent := after, sent + [r];
      reply, go := r, more;
    }

    /** Takes the next complete line off the buffer, if there is one, and handles it. */
    method Next(ghost h: LineHandler) returns (more: bool, ghost reply: Reply, go: bool)
      requires Valid() && Follows(h)
      modifies this`x, this`sent, buffer`buffer
      modifies cache.shards, set s | s in cache.shards :: s.entries, cache.Nodes()
      ensures Valid() && cache.Grown()
      ensures var raw := RawLines(old(buffer.buffer));
              && more == (raw != [])
              && (more ==>
                    && h(old(Here()), Clean(raw[0])) == Handled(Here(), reply, go) && sent == old(sent) + [reply]
                    && RawLines(buffer.buffer) == raw[1..] && |buffer.buffer| < |old(buffer.buffer)|
                    && Unfinished(buffer.buffer) == Unfinished(old(buffer.buffer)))
              && (!more ==>
                    && Here() == old(Here()) && sent == old(sent)
                    && buffer.buffer == old(buffer.buffer) == Unfinished(buffer.buffer))
    {
      var line := buffer.NextLine();
      if line.None? {
        return false, Okay, true;
      }
      more := true;
      reply, go := Handle(h, line.value);
    }

    /** Handles every complete line already buffered, unless one ends the connection. */
    method Drain(ghost h: LineHandler) returns (go: bool)
      requires Valid() && Follows(h)
      modifies this`x, this`sent, buffer`buffer
      modifies cache.shards, set s | s in cache.shards :: s.entries, cache.Nodes()
      ensures Valid() && cache.Grown()
      ensures var f := Fold(h, old(Here()), RawLines(old(buffer.buffer)));
              && Here() == f.state && sent == old(sent) + f.sent && go == (f.end != Stopped)
              && (go ==> buffer.buffer == Unfinished(old(buffer.buffer)))
    {
      ghost var all := Fold(h, Here(), RawLines(buffer.buffer));
      while true
        invariant Valid() && cache.Grown() && Unfinished(buffer.buffer) == Unfinished(old(buffer.buffer))
        invariant Continues(all, old(sent), sent, Fold(h, Here(), RawLines(buffer.buffer)))
        decreases |buffer.buffer|
      {
        ghost var here, raw, before := Here(), RawLines(buffer.buffer), sent;
        var more;
        ghost var reply;
        more, reply, go := Next(h);
        if !more {
          assert sent + [] == sent;
          return true;
        }
        FoldStepped(h, all, old(sent), here, raw, before, Handled(Here(), reply, go));
        if !go {
          return;
        }
      }
    }

    /** Drains, then refuses an unfinished line that is already too long. */
    method Turn(ghost h: LineHandler) returns (end: Option<End>)
      requires Valid() && Follows(h)
      modifies this`x, this`sent, buffer`buffer
      modifies cache.shards, set s | s in cache.shards :: s.entries, cache.Nodes()
      ensures Valid() && cache.Grown()
      ensures var f := Fold(h, old(Here()), RawLines(old(buffer.buffer)));
              var left := Unfinished(old(buffer.buffer));
              && Here() == f.state && end == Verdict(f, left)
              && sent == old(sent) + f.sent + (if end == Some(TooLong) then [Failure(LineTooLong)] else [])
              && (end.None? ==> buffer.buffer == left)
    {
      var go := Drain(h);
      if !go {
        return Some(Stopped);
      }
      if |buffer.buffer| > MAX_LINE_BYTES {
        sent := sent + [Failure(LineTooLong)];
        return Some(TooLong);
      }
      return None;
    }

    /** One recv into the buffer. */
    method Fill(r: Read)
      requires buffer.Valid() && Chunked([r])
      modifies buffer
      ensures buffer.Valid() && buffer.buffer == old(buffer.buffer) + Data(r)
      ensures buffer.peak <= old(buffer.peak) || buffer.peak <= |old(buffer.buffer)| + READ_CHUNK_BYTES
    {
      assert [r][0] == r;
      assert buffer.buffer + "" == buffer.buffer;
      if r.Chunk? {
        buffer.Append(r.data);
      }
    }

    /** A turn and, if the connection goes on and there is one, the next read. */
    method Round(ghost h: LineHandler, recvs: seq<Read>, i: nat) returns (end: Option<End>)
      requires Valid() && Follows(h) && Chunked(recvs) && i <= |recvs|
      modifies this`x, this`sent, buffer
      modifies cache.shards, set s | s in cache.shards :: s.entries, cache.Nodes()
      ensures Valid() && cache.Grown()
      ensures buffer.peak <= old(buffer.peak) || buffer.peak <= MAX_LINE_BYTES + READ_CHUNK_BYTES
      ensures Advanced(h, old(Here()), old(buffer.buffer), recvs[i..], old(sent), Here(), buffer.buffer, sent, end)
      ensures end.None? ==> i < |recvs|
    {
      ghost var here, held, before := Here(), buffer.buffer, sent;
      end := Turn(h);
      if end.None? {
        if i == |recvs| {
          end := Some(Closed);
        } else {
          Fill(recvs[i]);
        }
      }
      Advances(h, here, held, recvs[i..], before, Here(), buffer.buffer, sent, end);
    }

    /** Serves the client until it disconnects, a line ends the connection, or an unfinished
        line exceeds the limit; holds a bounded number of bytes throughout. */
    method ServeWith(ghost h: LineHandler, recvs: seq<Read>) returns (end: End)
      requires Valid() && Follows(h) && Chunked(recvs)
      modifies this`x, this`sent, buffer
      modifies cache.shards, set s | s in cache.shards :: s.entries, cache.Nodes()
      ensures Valid() && cache.Grown()
      ensures var r := Serving(h, Failure(LineTooLong), old(Here()), old(buffer.buffer), recvs);
              Here() == r.state && sent == old(sent) + r.sent && end == r.end
      ensures buffer.peak <= old(buffer.peak) || buffer.peak <= MAX_LINE_BYTES + READ_CHUNK_BYTES
    {
      ghost var all := Serving(h, Failure(LineTooLong), Here(), buffer.buffer, recvs);
      var i := 0;
      assert recvs[0..] == recvs;
      while true
        invariant Valid() && cache.Grown() && 0 <= i <= |recvs|
        invariant buffer.peak <= old(buffer.peak) || buffer.peak <= MAX_LINE_BYTES + READ_CHUNK_BYTES
        invariant Continues(all, old(sent), sent,
                            Serving(h, Failure(LineTooLong), Here(), buffer.buffer, recvs[i..]))
        decreases |recvs| - i
      {
        ghost var here, held, before := Here(), buffer.buffer, sent;
        var over := Round(h, recvs, i);
        RoundDone(h, all, old(sent), here, held, recvs, i, before, Here(), buffer.buffer, sent, over);
        if over.Some? {
          return over.value;
        }
        i := i + 1;
      }
    }

    method Serve(recvs: seq<Read>) returns (end: End)
      requires Valid() && Chunked(recvs)
      modifies this`x, this`sent, buffer
      modifies cache.shards, set s | s in cache.shards :: s.entries, cache.Nodes()
      ensures Valid() && cache.Grown()
      ensures var r := Serving(Session.HandleLine, Failure(LineTooLong), old(Here()), old(buffer.buffer), recvs);
              Here() == r.state && sent == old(sent) + r.sent && end == r.end
      ensures buffer.peak <= old(buffer.peak) || buffer.peak <= MAX_LINE_BYTES + READ_CHUNK_BYTES
    {
      end := ServeWith(Session.HandleLine, recvs);
    }
  }

  /** Whether the connection is over after a turn. */
  function Verdict(f: Served<Session.Live, Reply>, left: string): Option<End> {
    if f.end == Stopped then Some(Stopped) else if |left| > MAX_LINE_BYTES then Some(TooLong) else None
  }

  /** One round of serving: over with the state and replies that serving ends with, or one
      read further on. */
  ghost predicate Advanced(h: LineHandler, here: Session.Live, held: string, recvs: seq<Read>, sent: seq<Reply>,
                           next: Session.Live, heldNext: string, sentNext: seq<Reply>, end: Option<End>)
  {
    var r := Serving(h, Failure(LineTooLong), here, held, recvs);
    match end
    case Some(e) => next == r.state && sentNext == sent + r.sent && e == r.end
    case None =>
      && recvs != []
      && Continues(r, sent, sentNext, Serving(h, Failure(LineTooLong), next, heldNext, recvs[1..]))
  }

  lemma {:induction false} Advances(h: LineHandler, here: Session.Live, held: string, recvs: seq<Read>,
                                    sent: seq<Reply>, next: Session.Live, heldNext: string, sentNext: seq<Reply>,
                                    end: Option<End>)
    requires var f := Fold(h, here, RawLines(held));
             var left := Unfinished(held);
             && next == f.state
             && end == (if Verdict(f, left).None? && recvs == [] then Some(Closed) else Verdict(f, left))
             && sentNext == sent + f.sent + (if end == Some(TooLong) then [Failure(LineTooLong)] else [])
             && (end.None? ==> heldNext == left + Data(recvs[0]))
    ensures Advanced(h, here, held, recvs, sent, next, heldNext, sentNext, end)
  {
    var f, left := Fold(h, here, RawLines(held)), Unfinished(held);
    if end.None? {
      var more := Serving(h, Failure(LineTooLong), next, heldNext, recvs[1..]);
      ServeReadsOn(h, Failure(LineTooLong), here, held, recvs);
      assert sent + f.sent + [] == sent + f.sent;
      Assoc(sent, f.sent, more.sent);
    } else {
      Assoc(sent, f.sent, if end == Some(TooLong) then [Failure(LineTooLong)] else []);
      assert f.sent + [] == f.sent;
    }
  }

  lemma {:induction false} RoundDone(h: LineHandler, all: Served<Session.Live, Reply>, first: seq<Reply>,
                                   here: Session.Live, held: string, recvs: seq<Read>, i: nat, sent: seq<Reply>,
                                   next: Session.Live, heldNext: string, sentNext: seq<Reply>, end: Option<End>)
    requires i <= |recvs|
    requires Continues(all, first, sent, Serving(h, Failure(LineTooLong), here, held, recvs[i..]))
    requires Advanced(h, here, held, recvs[i..], sent, next, heldNext, sentNext, end)
    ensures end.None? ==>
              && i < |recvs|
              && Continues(all, first, sentNext, Serving(h, Failure(LineTooLong), next, heldNext, recvs[i + 1..]))
    ensures end.Some? ==> all.state == next && first + all.sent == sentNext && all.end == end.value
  {
    if end.None? {
      assert recvs[i..][1..] == recvs[i + 1..];
    }
  }

  lemma {:induction false} FoldStepped(h: LineHandler, all: Served<Session.Live, Reply>, sent: seq<Reply>,
                                       now: Session.Live, raw: seq<string>, sentNow: seq<Reply>,
                                       y: Handled<Session.Live, Reply>)
    requires Continues(all, sent, sentNow, Fold(h, now, raw)) && raw != [] && h(now, Clean(raw[0])) == y
    ensures y.go ==> Continues(all, sent, sentNow + [y.reply], Fold(h, y.state, raw[1..]))
    ensures !y.go ==> all.state == y.state && sent + all.sent == sentNow + [y.reply] && all.end == Stopped
  {
    FoldNext(h, now, raw, y);
    Assoc(sentNow, [y.reply], Fold(h, y.state, raw[1..]).sent);
  }
}
