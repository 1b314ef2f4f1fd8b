/** The limit on the length of a line: which streams every chunking serves, which streams
    some chunking serves, and how far apart the two are. */
module LineLimit {
  import opened Prelude
  import opened Framing

  // ---- Every chunking

  /** The stream delivered one byte at a time. */
  function Bytewise(s: string): (recvs: seq<Read>)
    ensures Chunked(recvs)
  {
    if s == [] then [] else [Chunk(s[..1])] + Bytewise(s[1..])
  }

  lemma {:induction false} BytewiseStream(s: string)
    ensures Stream(Bytewise(s)) == s
  {
    if s != [] {
      BytewiseStream(s[1..]);
      assert Bytewise(s)[1..] == Bytewise(s[1..]);
      assert s == s[..1] + s[1..];
    }
  }

  /** A line that does not stop the serving is handled, and the rest is served on. */
  lemma {:induction false} ServeLine<S, R>(h: Handler<S, R>, tooLong: R, s: S, line: string, recvs: seq<Read>)
    requires NewlineAt(line) == |line| && h(s, Clean(line)).go
    ensures Serving(h, tooLong, s, line + "\n", recvs).end ==
            Serving(h, tooLong, h(s, Clean(line)).state, "", recvs).end
  {
    LineAndRest(line, "");
    assert "\n" + "" == "\n" && [line] + RawLines("") == [line];
    var x, f := h(s, Clean(line)), Fold(h, s, [line]);
    assert [line][1..] == [];
    assert Fold(h, x.state, []) == Served(x.state, [], Closed);
    assert f.state == x.state && f.end == Closed;
    if recvs != [] {
      ServeReadsOn(h, tooLong, s, line + "\n", recvs);
      ServeReadsOn(h, tooLong, f.state, "", recvs);
    }
  }

  lemma {:induction false} FitsLine<S, R>(h: Handler<S, R>, s: S, line: string, rest: string)
    requires NewlineAt(line) == |line| && |line| <= MAX_LINE_BYTES
    requires !Fits(h, s, MAX_LINE_BYTES, RawLines(line + ("\n" + rest)), Unfinished(line + ("\n" + rest)))
    ensures h(s, Clean(line)).go
    ensures !Fits(h, h(s, Clean(line)).state, MAX_LINE_BYTES, RawLines(rest), Unfinished(rest))
  {
    LineAndRest(line, rest);
    assert ([line] + RawLines(rest))[1..] == RawLines(rest);
  }

  lemma {:induction false} ServeByte<S, R>(h: Handler<S, R>, tooLong: R, s: S, line: string, c: char, more: seq<Read>)
    requires NewlineAt(line) == |line| && |line| <= MAX_LINE_BYTES
    ensures Serving(h, tooLong, s, line, [Chunk([c])] + more).end == Serving(h, tooLong, s, line + [c], more).end
  {
    NoLine(line);
    assert ([Chunk([c])] + more)[1..] == more;
    ServeReadsOn(h, tooLong, s, line, [Chunk([c])] + more);
  }

  /** Byte by byte, a served line that does not fit is caught as soon as it is too long. */
  lemma {:induction false} BytewiseCatches<S, R>(h: Handler<S, R>, tooLong: R, s: S, line: string, rest: string)
    requires NewlineAt(line) == |line| && |line| <= MAX_LINE_BYTES
    requires !Fits(h, s, MAX_LINE_BYTES, RawLines(line + rest), Unfinished(line + rest))
    ensures Serving(h, tooLong, s, line, Bytewise(rest)).end == TooLong
    decreases |rest|, 0
  {
    NoLine(line);
    assert line + [] == line;
    if rest != [] {
      assert rest == [rest[0]] + rest[1..];
      NextByte(h, tooLong, s, line, rest[0], rest[1..]);
      ServeByte(h, tooLong, s, line, rest[0], Bytewise(rest[1..]));
      assert rest[..1] == [rest[0]];
    }
  }

  lemma {:induction false} NextByte<S, R>(h: Handler<S, R>, tooLong: R, s: S, line: string, c: char, rest: string)
    requires NewlineAt(line) == |line| && |line| <= MAX_LINE_BYTES
    requires !Fits(h, s, MAX_LINE_BYTES, RawLines(line + ([c] + rest)), Unfinished(line + ([c] + rest)))
    ensures Serving(h, tooLong, s, line + [c], Bytewise(rest)).end == TooLong
    decreases |rest|, 1
  {
    if c == '\n' {
      FitsLine(h, s, line, rest);
      assert "" + rest == rest;
      BytewiseCatches(h, tooLong, h(s, Clean(line)).state, "", rest);
      ServeLine(h, tooLong, s, line, Bytewise(rest));
    } else {
      NewlineConcat(line, [c]);
      NoLine(line + [c]);
      if |line + [c]| <= MAX_LINE_BYTES {
        assert line + ([c] + rest) == (line + [c]) + rest;
        BytewiseCatches(h, tooLong, s, line + [c], rest);
      }
    }
  }

  /** Every way of chunking a stream serves it whole if and only if everything served
      fits the line limit. */
  lemma {:induction false} ChunkingSafeIff<S, R>(h: Handler<S, R>, tooLong: R, s: S, stream: string)
    ensures (forall recvs :: Chunked(recvs) && Stream(recvs) == stream ==>
               Serving(h, tooLong, s, "", recvs).end != TooLong)
            <==> Fits(h, s, MAX_LINE_BYTES, RawLines(stream), Unfinished(stream))
  {
    assert "" + stream == stream;
    if Fits(h, s, MAX_LINE_BYTES, RawLines(stream), Unfinished(stream)) {
      forall recvs | Chunked(recvs) && Stream(recvs) == stream
        ensures Serving(h, tooLong, s, "", recvs).end != TooLong
      {
        ChunkingIndependent(h, tooLong, s, "", recvs);
      }
    } else {
      BytewiseStream(stream);
      BytewiseCatches(h, tooLong, s, "", stream);
    }
  }

  /** The limit as documented counts the newline; the code does not. A line whose bytes and
      newline exceed it by one is never refused. */
  lemma {:induction false} NewlineNotCounted<S, R>(h: Handler<S, R>, tooLong: R, s: S, line: string, recvs: seq<Read>)
    requires NewlineAt(line) == |line| == MAX_LINE_BYTES && Chunked(recvs) && Stream(recvs) == line + "\n"
    ensures |Stream(recvs)| == MAX_LINE_BYTES + 1 && Serving(h, tooLong, s, "", recvs).end != TooLong
  {
    var stream := line + "\n";
    LineAndRest(line, "");
    assert "\n" + "" == "\n";
    assert [line] + RawLines("") == [line] && [line][1..] == [];
    assert "" + stream == stream;
    ChunkingIndependent(h, tooLong, s, "", recvs);
  }

  // ---- Some chunking

  /** The longest line that can be let through: checked at the limit, then completed by one
      more read. */
  const LONGEST_LINE: nat := MAX_LINE_BYTES + READ_CHUNK_BYTES - 1

  /** A line over the limit is served: byte by byte up to the limit, and the rest of it
      together with its newline. */
  lemma {:induction false} OverlongLineServed<S, R>(h: Handler<S, R>, tooLong: R, s: S, line: string, tail: string)
    requires NewlineAt(line) == |line| == MAX_LINE_BYTES
    requires NewlineAt(tail) == |tail| && 0 < |tail| < READ_CHUNK_BYTES
    ensures var recvs := Bytewise(line) + [Chunk(tail + "\n")];
            && Chunked(recvs) && Stream(recvs) == line + (tail + "\n")
            && Serving(h, tooLong, s, "", recvs).end != TooLong
  {
    var last := [Chunk(tail + "\n")];
    BytewiseStream(line);
    StreamConcat(Bytewise(line), last);
    StreamCons(tail + "\n", []);
    assert last + [] == last && "" + line == line && tail + "\n" + "" == tail + "\n";
    ServeParts(h, tooLong, s, line, tail, []);
    ServeAtRest(h, tooLong, h(s, Clean(line + tail)).state);
  }

  lemma {:induction false} ServeAtRest<S, R>(h: Handler<S, R>, tooLong: R, s: S)
    ensures Serving(h, tooLong, s, "", []).end == Closed
  {
    NoLine("");
  }

  /** An unfinished line, then a read that completes it: it is handled and serving goes on. */
  lemma {:induction false} ServeChunk<S, R>(h: Handler<S, R>, tooLong: R, s: S, line: string, tail: string,
                                            more: seq<Read>)
    requires NewlineAt(line) == |line| <= MAX_LINE_BYTES && NewlineAt(tail) == |tail|
    ensures var x := h(s, Clean(line + tail));
            Serving(h, tooLong, s, line, [Chunk(tail + "\n")] + more).end ==
            if x.go then Serving(h, tooLong, x.state, "", more).end else Stopped
  {
    var recvs := [Chunk(tail + "\n")] + more;
    NoLine(line);
    NewlineConcat(line, tail);
    assert recvs[1..] == more && recvs[0] == Chunk(tail + "\n");
    assert line + (tail + "\n") == (line + tail) + "\n";
    ServeReadsOn(h, tooLong, s, line, recvs);
    if h(s, Clean(line + tail)).go {
      ServeLine(h, tooLong, s, line + tail, more);
    } else {
      StopAtLine(h, tooLong, s, line + tail, more);
    }
  }

  lemma {:induction false} StopAtLine<S, R>(h: Handler<S, R>, tooLong: R, s: S, line: string, recvs: seq<Read>)
    requires NewlineAt(line) == |line| && !h(s, Clean(line)).go
    ensures Serving(h, tooLong, s, line + "\n", recvs).end == Stopped
  {
    LineAndRest(line, "");
    assert "\n" + "" == "\n" && [line] + RawLines("") == [line];
    assert Fold(h, s, [line]).end == Stopped;
  }

  lemma {:induction false} FirstByte(line: string, c: char, rest: string, bytes: string)
    requires bytes != [] && c == bytes[0] && rest == bytes[1..] && NewlineAt(line + bytes) == |line + bytes|
    ensures line + bytes == (line + [c]) + rest && NewlineAt(line) == |line|
  {
    NewlineConcat(line, bytes);
  }

  lemma {:induction false} FirstChunk(c: char, rest: string, bytes: string, more: seq<Read>)
    requires bytes != [] && c == bytes[0] && rest == bytes[1..]
    ensures Bytewise(bytes) + more == [Chunk([c])] + (Bytewise(rest) + more)
  {
    assert bytes[..1] == [c];
    Assoc([Chunk([c])], Bytewise(rest), more);
  }

  /** Bytes of an unfinished line within the limit, one at a time. */
  lemma {:induction false} ServeBytes<S, R>(h: Handler<S, R>, tooLong: R, s: S, line: string, bytes: string,
                                            more: seq<Read>)
    requires NewlineAt(line + bytes) == |line + bytes| <= MAX_LINE_BYTES
    ensures Serving(h, tooLong, s, line, Bytewise(bytes) + more).end == Serving(h, tooLong, s, line + bytes, more).end
    decreases |bytes|
  {
    if bytes == [] {
      assert line + bytes == line && [] + more == more;
    } else {
      var c, rest := bytes[0], bytes[1..];
      FirstByte(line, c, rest, bytes);
      FirstChunk(c, rest, bytes, more);
      ServeByte(h, tooLong, s, line, c, Bytewise(rest) + more);
      ServeBytes(h, tooLong, s, line + [c], rest, more);
    }
  }

  /** Each line byte by byte up to the limit, and what is over it in one read. */
  function Deliver(s: string): (recvs: seq<Read>)
    ensures Chunked(recvs)
    decreases |s|
  {
    var n := NewlineAt(s);
    if n == |s| || n > LONGEST_LINE then Bytewise(s) else
    var k := if n <= MAX_LINE_BYTES then n else MAX_LINE_BYTES;
    Bytewise(s[..k]) + ([Chunk(s[k..n + 1])] + Deliver(s[n + 1..]))
  }

  lemma {:induction false} StreamConcat(a: seq<Read>, b: seq<Read>)
    ensures Stream(a + b) == Stream(a) + Stream(b)
  {
    if a == [] {
      assert a + b == b;
    } else {
      assert (a + b)[1..] == a[1..] + b;
      StreamConcat(a[1..], b);
    }
  }

  lemma {:induction false} StreamCons(data: string, more: seq<Read>)
    ensures Stream([Chunk(data)] + more) == data + Stream(more)
  {
    assert ([Chunk(data)] + more)[1..] == more;
  }

  lemma CutTwice(s: string, k: nat, n: nat)
    requires k <= n <= |s|
    ensures s == s[..k] + (s[k..n] + s[n..])
  {
  }

  lemma {:induction false} DeliverStream(s: string)
    ensures Stream(Deliver(s)) == s
    decreases |s|
  {
    var n := NewlineAt(s);
    if n == |s| || n > LONGEST_LINE {
      BytewiseStream(s);
    } else {
      var k := if n <= MAX_LINE_BYTES then n else MAX_LINE_BYTES;
      var rest := Deliver(s[n + 1..]);
      DeliverStream(s[n + 1..]);
      BytewiseStream(s[..k]);
      StreamConcat(Bytewise(s[..k]), [Chunk(s[k..n + 1])] + rest);
      StreamCons(s[k..n + 1], rest);
      CutTwice(s, k, n + 1);
    }
  }

  lemma ShiftSlice(s: string, i: nat, j: nat)
    requires 0 < i <= j <= |s|
    ensures s[1..][i - 1..j - 1] == s[i..j]
  {
  }

  lemma TailSlice(s: string, j: nat)
    requires 0 < j <= |s|
    ensures s[0..j][1..] == s[1..][0..j - 1]
  {
  }

  lemma {:induction false} NewlineFree(s: string, i: nat, j: nat)
    requires i <= j <= NewlineAt(s)
    ensures NewlineAt(s[i..j]) == j - i
    decreases j
  {
    if i > 0 {
      NewlineFree(s[1..], i - 1, j - 1);
      ShiftSlice(s, i, j);
    } else if j > 0 {
      NewlineFree(s[1..], 0, j - 1);
      TailSlice(s, j);
    }
  }

  lemma {:induction false} NewlineThere(s: string)
    requires NewlineAt(s) < |s|
    ensures s[NewlineAt(s)] == '\n'
  {
    if s[0] != '\n' {
      NewlineThere(s[1..]);
    }
  }

  /** A line and the split of it at `k`. */
  lemma {:induction false} LineParts(s: string, k: nat, n: nat)
    requires k <= n == NewlineAt(s) < |s|
    ensures NewlineAt(s[..k]) == k && NewlineAt(s[k..n]) == n - k
    ensures s[..k] + s[k..n] == s[..n] && s[k..n + 1] == s[k..n] + "\n"
  {
    NewlineFree(s, 0, k);
    NewlineFree(s, k, n);
    NewlineThere(s);
    CutAtNewline(s, k, n);
  }

  lemma CutAtNewline(s: string, k: nat, n: nat)
    requires k <= n < |s| && s[n] == '\n'
    ensures s[0..k] == s[..k] && s[..k] + s[k..n] == s[..n] && s[k..n + 1] == s[k..n] + "\n"
  {
    assert s[n..n + 1] == "\n" && s[k..n + 1] == s[k..n] + s[n..n + 1];
  }

  /** Delivered so, a stream whose lines are not too long for any chunking is served. */
  lemma {:induction false} DeliverServes<S, R>(h: Handler<S, R>, tooLong: R, s: S, stream: string)
    requires Fits(h, s, LONGEST_LINE, RawLines(stream), Unfinished(stream))
    ensures Serving(h, tooLong, s, "", Deliver(stream)).end != TooLong
    decreases |stream|
  {
    var n := NewlineAt(stream);
    if n == |stream| {
      NoLine(stream);
      ServeWithin(h, tooLong, s, stream);
    } else {
      FirstLine(stream, n);
      var x, rest := h(s, Clean(stream[..n])), stream[n + 1..];
      if x.go {
        assert RawLines(stream)[1..] == RawLines(rest);
        DeliverServes(h, tooLong, x.state, rest);
      }
      ServeDelivered(h, tooLong, s, stream, n);
    }
  }

  lemma {:induction false} ServeWithin<S, R>(h: Handler<S, R>, tooLong: R, s: S, line: string)
    requires NewlineAt(line) == |line| <= MAX_LINE_BYTES
    ensures Serving(h, tooLong, s, "", Bytewise(line)).end != TooLong
  {
    assert "" + line == line && Bytewise(line) + [] == Bytewise(line);
    ServeBytes(h, tooLong, s, "", line, []);
    NoLine(line);
    ServeEnds(h, tooLong, s, line);
  }

  /** A line in two parts: byte by byte, then in one read with its newline. */
  lemma {:induction false} ServeParts<S, R>(h: Handler<S, R>, tooLong: R, s: S, line: string, tail: string,
                                            more: seq<Read>)
    requires NewlineAt(line) == |line| <= MAX_LINE_BYTES && NewlineAt(tail) == |tail|
    ensures var x := h(s, Clean(line + tail));
            Serving(h, tooLong, s, "", Bytewise(line) + ([Chunk(tail + "\n")] + more)).end ==
            if x.go then Serving(h, tooLong, x.state, "", more).end else Stopped
  {
    assert "" + line == line;
    ServeBytes(h, tooLong, s, "", line, [Chunk(tail + "\n")] + more);
    ServeChunk(h, tooLong, s, line, tail, more);
  }

  lemma {:induction false} DeliverFirst(s: string, n: nat, k: nat)
    requires n == NewlineAt(s) < |s| && n <= LONGEST_LINE && k == if n <= MAX_LINE_BYTES then n else MAX_LINE_BYTES
    ensures Deliver(s) == Bytewise(s[..k]) + ([Chunk(s[k..n + 1])] + Deliver(s[n + 1..]))
  {
  }

  /** The first delivered line. */
  lemma {:induction false} ServeDelivered<S, R>(h: Handler<S, R>, tooLong: R, s: S, stream: string, n: nat)
    requires n == NewlineAt(stream) < |stream| && n <= LONGEST_LINE
    ensures var x := h(s, Clean(stream[..n]));
            Serving(h, tooLong, s, "", Deliver(stream)).end ==
            if x.go then Serving(h, tooLong, x.state, "", Deliver(stream[n + 1..])).end else Stopped
  {
    var k := if n <= MAX_LINE_BYTES then n else MAX_LINE_BYTES;
    LineParts(stream, k, n);
    DeliverFirst(stream, n, k);
    ServeParts(h, tooLong, s, stream[..k], stream[k..n], Deliver(stream[n + 1..]));
  }

  lemma {:induction false} RawLinesShort(s: string)
    ensures forall i :: 0 <= i < |RawLines(s)| ==> |RawLines(s)[i]| < |s|
    decreases |s|
  {
    var n := NewlineAt(s);
    if n < |s| {
      FirstRaw(s, n);
      RawLinesShort(s[n + 1..]);
    }
  }

  lemma {:induction false} FitsAppend<S, R>(h: Handler<S, R>, s: S, limit: nat, a: seq<string>, b: seq<string>,
                                            unfinished: string)
    requires forall i :: 0 <= i < |a| ==> |a[i]| <= limit
    requires Fold(h, s, a).end != Stopped ==> Fits(h, Fold(h, s, a).state, limit, b, unfinished)
    ensures Fits(h, s, limit, a + b, unfinished)
    decreases |a|
  {
    if a == [] {
      assert a + b == b;
    } else {
      assert (a + b)[1..] == a[1..] + b;
      if h(s, Clean(a[0])).go {
        FitsAppend(h, h(s, Clean(a[0])).state, limit, a[1..], b, unfinished);
      }
    }
  }

  /** Whatever the chunking, no line longer than that is served. */
  lemma {:induction false} ServedLinesFit<S, R>(h: Handler<S, R>, tooLong: R, s: S, buffer: string, recvs: seq<Read>)
    requires Chunked(recvs) && |buffer| <= MAX_LINE_BYTES + READ_CHUNK_BYTES
    requires Serving(h, tooLong, s, buffer, recvs).end != TooLong
    ensures Fits(h, s, LONGEST_LINE, RawLines(buffer + Stream(recvs)), Unfinished(buffer + Stream(recvs)))
    decreases |recvs|
  {
    var rest := Stream(recvs);
    var f, left := Fold(h, s, RawLines(buffer)), Unfinished(buffer);
    RawLinesShort(buffer);
    LinesConcat(buffer, rest);
    if f.end != Stopped {
      if recvs == [] {
        UnfinishedHasNoNewline(buffer);
        NoLine(left);
        assert left + rest == left;
      } else {
        StreamNext(left, recvs);
        ServeReadsOn(h, tooLong, s, buffer, recvs);
        ServedLinesFit(h, tooLong, f.state, left + Data(recvs[0]), recvs[1..]);
      }
    }
    FitsAppend(h, s, LONGEST_LINE, RawLines(buffer), RawLines(left + rest), Unfinished(left + rest));
  }

  /** Some way of chunking a stream serves it without the length error if and only if no
      line served has more bytes than the limit and one read allow together, and the rest
      is within the limit. Beyond that, every chunking is refused. */
  lemma {:induction false} SomeChunkingServesIff<S, R>(h: Handler<S, R>, tooLong: R, s: S, stream: string)
    ensures (exists recvs :: Chunked(recvs) && Stream(recvs) == stream &&
                             Serving(h, tooLong, s, "", recvs).end != TooLong)
            <==> Fits(h, s, LONGEST_LINE, RawLines(stream), Unfinished(stream))
  {
    assert "" + stream == stream;
    if recvs :| Chunked(recvs) && Stream(recvs) == stream && Serving(h, tooLong, s, "", recvs).end != TooLong {
      ServedLinesFit(h, tooLong, s, "", recvs);
    }
    if Fits(h, s, LONGEST_LINE, RawLines(stream), Unfinished(stream)) {
      DeliverStream(stream);
      DeliverServes(h, tooLong, s, stream);
    }
  }
}
