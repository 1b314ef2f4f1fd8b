/** A byte stream cut into lines, and a connection served from arbitrarily chunked reads.
    What a line does is a parameter here: a handler from a state and a line to a new
    state, a reply, and whether to go on. */
module Framing {
  import opened Prelude

  const MAX_LINE_BYTES: nat := 64 * 1024
  const READ_CHUNK_BYTES: nat := 16 * 1024

  // ---- Lines of a stream

  /** The position of the first newline, or the length if there is none. */
  function NewlineAt(s: string): (n: nat)
    ensures n <= |s|
  {
    if s == [] || s[0] == '\n' then 0 else 1 + NewlineAt(s[1..])
  }

  /** The terminated lines of a stream, terminators removed. */
  function RawLines(s: string): seq<string>
    decreases |s|
  {
    var n := NewlineAt(s);
    if n == |s| then [] else [s[..n]] + RawLines(s[n + 1..])
  }

  /** What follows the last newline. */
  function Unfinished(s: string): string
    decreases |s|
  {
    var n := NewlineAt(s);
    if n == |s| then s else Unfinished(s[n + 1..])
  }

  /** A carriage return before the newline belongs to the terminator. */
  function Clean(raw: string): string {
    if raw != [] && raw[|raw| - 1] == '\r' then raw[..|raw| - 1] else raw
  }

  lemma {:induction false} NewlineConcat(a: string, b: string)
    ensures NewlineAt(a) < |a| ==> NewlineAt(a + b) == NewlineAt(a)
    ensures NewlineAt(a) == |a| ==> NewlineAt(a + b) == |a| + NewlineAt(b)
  {
    if a == [] {
      assert a + b == b;
    } else if a[0] != '\n' {
      assert (a + b)[1..] == a[1..] + b;
      NewlineConcat(a[1..], b);
    }
  }

  lemma {:induction false} UnfinishedHasNoNewline(s: string)
    ensures NewlineAt(Unfinished(s)) == |Unfinished(s)|
    decreases |s|
  {
    if NewlineAt(s) < |s| {
      UnfinishedHasNoNewline(s[NewlineAt(s) + 1..]);
    }
  }

  lemma {:induction false} NoLine(s: string)
    requires NewlineAt(s) == |s|
    ensures RawLines(s) == [] && Unfinished(s) == s
  {
  }

  /** Bytes that arrive later only continue the unfinished line. */
  lemma {:induction false} LinesConcat(a: string, b: string)
    ensures RawLines(a + b) == RawLines(a) + RawLines(Unfinished(a) + b)
    ensures Unfinished(a + b) == Unfinished(Unfinished(a) + b)
    decreases |a|
  {
    var n := NewlineAt(a);
    if n == |a| {
      NoLine(a);
      assert [] + RawLines(a + b) == RawLines(a + b);
    } else {
      LinesConcat(a[n + 1..], b);
      NewlineConcat(a, b);
      FirstLine(a, n);
      FirstLine(a + b, n);
      CutFirst(a, b, n);
      Assoc([a[..n]], RawLines(a[n + 1..]), RawLines(Unfinished(a) + b));
    }
  }

  lemma CutFirst(a: string, b: string, n: nat)
    requires n < |a|
    ensures (a + b)[..n] == a[..n] && (a + b)[n + 1..] == a[n + 1..] + b
  {
  }

  lemma {:induction false} FirstLine(s: string, n: nat)
    requires NewlineAt(s) == n < |s|
    ensures RawLines(s) == [s[..n]] + RawLines(s[n + 1..])
    ensures Unfinished(s) == Unfinished(s[n + 1..])
  {
    FirstRaw(s, n);
    LaterRest(s, n);
  }

  lemma {:induction false} FirstRaw(s: string, n: nat)
    requires NewlineAt(s) == n < |s|
    ensures RawLines(s) == [s[..n]] + RawLines(s[n + 1..])
  {
  }

  lemma {:induction false} LaterRest(s: string, n: nat)
    requires NewlineAt(s) == n < |s|
    ensures Unfinished(s) == Unfinished(s[n + 1..])
  {
  }

  lemma CutLine(line: string, rest: string)
    ensures var s := line + ("\n" + rest); s[..|line|] == line && s[|line| + 1..] == rest
  {
  }

  lemma {:induction false} LineAndRest(line: string, rest: string)
    requires NewlineAt(line) == |line|
    ensures RawLines(line + ("\n" + rest)) == [line] + RawLines(rest)
    ensures Unfinished(line + ("\n" + rest)) == Unfinished(rest)
  {
    var s := line + ("\n" + rest);
    NewlineConcat(line, "\n" + rest);
    CutLine(line, rest);
    FirstLine(s, |line|);
  }

  lemma {:induction false} FirstNewlineIs(s: string)
    ensures '\n' !in s[..NewlineAt(s)] && (NewlineAt(s) < |s| ==> s[NewlineAt(s)] == '\n')
  {
    if s != [] && s[0] != '\n' {
      FirstNewlineIs(s[1..]);
      assert s[..NewlineAt(s)] == [s[0]] + s[1..][..NewlineAt(s[1..])];
    }
  }

  lemma {:induction false} NoNewline(s: string)
    requires '\n' !in s
    ensures NewlineAt(s) == |s|
  {
    FirstNewlineIs(s);
  }

  predicate EndsInReturn(s: string) {
    s != [] && s[|s| - 1] == '\r'
  }

  /** `text` is a line, its terminator, and the rest: a carriage return before the newline is
      part of the terminator. */
  predicate TakesOff(text: string, line: string, rest: string) {
    '\n' !in line && (text == line + "\r\n" + rest || (text == line + "\n" + rest && !EndsInReturn(line)))
  }

  lemma {:induction false} CutAtNewline(text: string, n: nat, line: string)
    requires n == NewlineAt(text) < |text|
    requires line == if EndsInReturn(text[..n]) then text[..n - 1] else text[..n]
    ensures TakesOff(text, line, text[n + 1..])
  {
    FirstNewlineIs(text);
    if EndsInReturn(text[..n]) {
      assert line == text[..n][..n - 1];
      assert text == line + "\r\n" + text[n + 1..];
    } else {
      assert text == line + "\n" + text[n + 1..];
    }
  }

  // ---- The line buffer

  class LineBuffer {
    var buffer: string
    /** The most it has ever held. */
    ghost var peak: nat

    ghost predicate Valid()
      reads this
    {
      |buffer| <= peak
    }

    constructor ()
      ensures Valid() && buffer == "" && peak == 0
    {
      buffer := "";
      peak := 0;
    }

    method Append(data: string)
      requires Valid()
      modifies this
      ensures Valid() && buffer == old(buffer) + data
      ensures peak == if |buffer| > old(peak) then |buffer| else old(peak)
    {
      buffer := buffer + data;
      if |buffer| > peak {
        peak := |buffer|;
      }
    }

    /** Takes the first complete line off the front, if there is one. */
    method NextLine() returns (line: Option<string>)
      requires Valid()
      modifies this`buffer
      ensures Valid()
      ensures line.None? ==> buffer == old(buffer) && RawLines(buffer) == [] && Unfinished(buffer) == buffer
      ensures line.Some? ==> RawLines(old(buffer)) != [] && line.value == Clean(RawLines(old(buffer))[0])
      ensures line.Some? ==> RawLines(buffer) == RawLines(old(buffer))[1..]
      ensures line.Some? ==> Unfinished(buffer) == Unfinished(old(buffer))
      ensures line.Some? ==> |buffer| < |old(buffer)|
      ensures line.None? ==> '\n' !in buffer
      ensures line.Some? ==> TakesOff(old(buffer), line.value, buffer)
    {
      var n := FindNewline();
      if n == |buffer| {
        FirstNewlineIs(buffer);
        assert buffer[..n] == buffer;
        return None;
      }
      CutAtNewline(buffer, n, if EndsInReturn(buffer[..n]) then buffer[..n - 1] else buffer[..n]);
      var raw := buffer[..n];
      buffer := buffer[n + 1..];
      if raw != [] && raw[|raw| - 1] == '\r' {
        return Some(raw[..|raw| - 1]);
      }
      return Some(raw);
    }

    method FindNewline() returns (n: nat)
      ensures n == NewlineAt(buffer)
    {
      n := 0;
      assert buffer[0..] == buffer;
      while n < |buffer| && buffer[n] != '\n'
        invariant n <= |buffer| && n + NewlineAt(buffer[n..]) == NewlineAt(buffer)
      {
        assert buffer[n..][1..] == buffer[n + 1..];
        n := n + 1;
      }
    }
  }

  // ---- Serving lines

  datatype Handled<+S, +R> = Handled(state: S, reply: R, go: bool)

  type Handler<!S, R> = (S, string) -> Handled<S, R>

  /** How serving ended: the handler stopped it, the stream did, or a line grew too long. */
  datatype End = Stopped | Closed | TooLong

  datatype Served<+S, +R> = Served(state: S, sent: seq<R>, end: End)

  /** The reference: each line of the whole stream handled in turn until one stops it. */
  function Fold<S, R>(h: Handler<S, R>, s: S, raw: seq<string>): (f: Served<S, R>)
    ensures f.end != TooLong
    decreases |raw|
  {
    if raw == [] then Served(s, [], Closed) else
    var x := h(s, Clean(raw[0]));
    if !x.go then Served(x.state, [x.reply], Stopped) else
    var rest := Fold(h, x.state, raw[1..]);
    rest.(sent := [x.reply] + rest.sent)
  }

  /** One recv: some bytes, or an interruption that delivered none. After the last one the
      peer has closed or the socket has failed. */
  datatype Read = Chunk(data: string) | Interrupted

  function Data(r: Read): string {
    if r.Chunk? then r.data else ""
  }

  function Stream(recvs: seq<Read>): string {
    if recvs == [] then "" else Data(recvs[0]) + Stream(recvs[1..])
  }

  predicate Chunked(recvs: seq<Read>) {
    forall i :: 0 <= i < |recvs| && recvs[i].Chunk? ==> 1 <= |recvs[i].data| <= READ_CHUNK_BYTES
  }

  /** The connection: drain the buffered lines, check the unfinished one, read more. */
  function Serving<S, R>(h: Handler<S, R>, tooLong: R, s: S, buffer: string, recvs: seq<Read>): Served<S, R>
    decreases |recvs|
  {
    var f := Fold(h, s, RawLines(buffer));
    var left := Unfinished(buffer);
    if f.end == Stopped then f
    else if |left| > MAX_LINE_BYTES then Served(f.state, f.sent + [tooLong], TooLong)
    else if recvs == [] then f
    else
      var more := Serving(h, tooLong, f.state, left + Data(recvs[0]), recvs[1..]);
      more.(sent := f.sent + more.sent)
  }

  /** Everything served fits: each line, up to the one that stops the serving, has at most
      `limit` bytes before its newline, and the unfinished rest, if none does, is no longer
      than a line may be. */
  predicate Fits<S, R>(h: Handler<S, R>, s: S, limit: nat, raw: seq<string>, unfinished: string)
    decreases |raw|
  {
    if raw == [] then |unfinished| <= MAX_LINE_BYTES else
    var x := h(s, Clean(raw[0]));
    |raw[0]| <= limit && (x.go ==> Fits(h, x.state, limit, raw[1..], unfinished))
  }

  /** One reply per line, up to and including the line that stops the serving. */
  lemma {:induction false} OneReplyPerLine<S, R>(h: Handler<S, R>, s: S, raw: seq<string>)
    ensures var f := Fold(h, s, raw);
            if f.end == Closed then |f.sent| == |raw| else 1 <= |f.sent| <= |raw|
    decreases |raw|
  {
    if raw != [] {
      OneReplyPerLine(h, h(s, Clean(raw[0])).state, raw[1..]);
    }
  }

  lemma {:induction false} FoldConcat<S, R>(h: Handler<S, R>, s: S, a: seq<string>, b: seq<string>)
    ensures var f := Fold(h, s, a);
            Fold(h, s, a + b) ==
            if f.end == Stopped then f else
            (var g := Fold(h, f.state, b); g.(sent := f.sent + g.sent))
    decreases |a|
  {
    if a == [] {
      assert a + b == b;
      assert [] + Fold(h, s, b).sent == Fold(h, s, b).sent;
    } else {
      assert (a + b)[1..] == a[1..] + b;
      FoldConcat(h, h(s, Clean(a[0])).state, a[1..], b);
    }
  }

  /** The replies of a prefix followed by those of the rest. */
  function After<S, R>(f: Served<S, R>, g: Served<S, R>): Served<S, R> {
    g.(sent := f.sent + g.sent)
  }

  lemma ServeEnds<S, R>(h: Handler<S, R>, tooLong: R, s: S, buffer: string)
    requires |Unfinished(buffer)| <= MAX_LINE_BYTES
    ensures Serving(h, tooLong, s, buffer, []) == Fold(h, s, RawLines(buffer))
  {
  }

  lemma ServeReadsOn<S, R>(h: Handler<S, R>, tooLong: R, s: S, buffer: string, recvs: seq<Read>)
    requires Fold(h, s, RawLines(buffer)).end != Stopped && |Unfinished(buffer)| <= MAX_LINE_BYTES && recvs != []
    ensures var f := Fold(h, s, RawLines(buffer));
            Serving(h, tooLong, s, buffer, recvs) ==
            After(f, Serving(h, tooLong, f.state, Unfinished(buffer) + Data(recvs[0]), recvs[1..]))
  {
  }

  lemma {:induction false} StreamNext(left: string, recvs: seq<Read>)
    requires recvs != []
    ensures left + Stream(recvs) == (left + Data(recvs[0])) + Stream(recvs[1..])
  {
    Assoc(left, Data(recvs[0]), Stream(recvs[1..]));
  }

  /** What was served before an unfinished line was refused, and the refusal. */
  function Refused<S, R>(f: Served<S, R>, tooLong: R): Served<S, R> {
    Served(f.state, f.sent + [tooLong], TooLong)
  }

  /** Line `k` of a stream, or what is unfinished after the last, is over the limit. */
  predicate OverLimit(stream: string, k: nat)
    requires k <= |RawLines(stream)|
  {
    |if k < |RawLines(stream)| then RawLines(stream)[k] else Unfinished(stream)| > MAX_LINE_BYTES
  }

  /** Serving handled the first `k` lines of the stream one by one and did nothing else: all
      lines, or those before a line that is over the limit and was refused. */
  ghost predicate ServedUpTo<S, R>(h: Handler<S, R>, tooLong: R, s: S, stream: string, r: Served<S, R>, k: nat) {
    var raw := RawLines(stream);
    k <= |raw| &&
    var f := Fold(h, s, raw[..k]);
    if r.end == TooLong then f.end == Closed && r == Refused(f, tooLong) && OverLimit(stream, k)
    else k == |raw| && r == f
  }

  lemma {:induction false} ServedWhole<S, R>(h: Handler<S, R>, tooLong: R, s: S, stream: string)
    ensures ServedUpTo(h, tooLong, s, stream, Fold(h, s, RawLines(stream)), |RawLines(stream)|)
  {
    assert RawLines(stream)[..|RawLines(stream)|] == RawLines(stream);
  }

  /** An unfinished line that is already too long is so when it is finished. */
  lemma {:induction false} GrowsLonger(left: string, rest: string)
    requires NewlineAt(left) == |left| > MAX_LINE_BYTES
    ensures OverLimit(left + rest, 0)
  {
    NewlineConcat(left, rest);
    var n := NewlineAt(left + rest);
    if n < |left + rest| {
      FirstRaw(left + rest, n);
    } else {
      NoLine(left + rest);
    }
  }

  lemma {:induction false} RefusedHere<S, R>(h: Handler<S, R>, tooLong: R, s: S, stream: string)
    requires OverLimit(stream, 0)
    ensures ServedUpTo(h, tooLong, s, stream, Served(s, [tooLong], TooLong), 0)
  {
    assert RawLines(stream)[..0] == [] && [] + [tooLong] == [tooLong];
  }

  /** What is served of a continuation, after the lines of a buffer. */
  lemma {:induction false} ServedOn<S, R>(h: Handler<S, R>, tooLong: R, s: S, buffer: string, rest: string,
                                          r: Served<S, R>, k: nat)
    requires Fold(h, s, RawLines(buffer)).end != Stopped
    requires ServedUpTo(h, tooLong, Fold(h, s, RawLines(buffer)).state, Unfinished(buffer) + rest, r, k)
    ensures ServedUpTo(h, tooLong, s, buffer + rest, After(Fold(h, s, RawLines(buffer)), r), |RawLines(buffer)| + k)
  {
    var a, b := RawLines(buffer), RawLines(Unfinished(buffer) + rest);
    LinesConcat(buffer, rest);
    assert (a + b)[..|a| + k] == a + b[..k];
    FoldConcat(h, s, a, b[..k]);
    var f, g := Fold(h, s, a), Fold(h, Fold(h, s, a).state, b[..k]);
    if r.end == TooLong {
      Assoc(f.sent, g.sent, [tooLong]);
    }
  }

  lemma {:induction false} StoppedEarly<S, R>(h: Handler<S, R>, tooLong: R, s: S, buffer: string, rest: string)
    requires Fold(h, s, RawLines(buffer)).end == Stopped
    ensures ServedUpTo(h, tooLong, s, buffer + rest, Fold(h, s, RawLines(buffer)), |RawLines(buffer + rest)|)
  {
    LinesConcat(buffer, rest);
    FoldConcat(h, s, RawLines(buffer), RawLines(Unfinished(buffer) + rest));
    ServedWhole(h, tooLong, s, buffer + rest);
  }

  /** The buffered lines, and then an unfinished one that is refused. */
  lemma {:induction false} RefusedNow<S, R>(h: Handler<S, R>, tooLong: R, s: S, buffer: string, rest: string)
    requires Fold(h, s, RawLines(buffer)).end != Stopped && |Unfinished(buffer)| > MAX_LINE_BYTES
    ensures ServedUpTo(h, tooLong, s, buffer + rest, Refused(Fold(h, s, RawLines(buffer)), tooLong), |RawLines(buffer)|)
  {
    var f := Fold(h, s, RawLines(buffer));
    UnfinishedHasNoNewline(buffer);
    GrowsLonger(Unfinished(buffer), rest);
    RefusedHere(h, tooLong, f.state, Unfinished(buffer) + rest);
    ServedOn(h, tooLong, s, buffer, rest, Served(f.state, [tooLong], TooLong), 0);
  }

  /** The buffered lines, and then what is served with the next read. */
  lemma {:induction false} ServedNext<S, R>(h: Handler<S, R>, tooLong: R, s: S, buffer: string, recvs: seq<Read>,
                                            m: nat)
    requires Fold(h, s, RawLines(buffer)).end != Stopped && |Unfinished(buffer)| <= MAX_LINE_BYTES && recvs != []
    requires var x, left := Fold(h, s, RawLines(buffer)).state, Unfinished(buffer) + Data(recvs[0]);
             ServedUpTo(h, tooLong, x, left + Stream(recvs[1..]), Serving(h, tooLong, x, left, recvs[1..]), m)
    ensures ServedUpTo(h, tooLong, s, buffer + Stream(recvs), Serving(h, tooLong, s, buffer, recvs),
                       |RawLines(buffer)| + m)
  {
    var x, left := Fold(h, s, RawLines(buffer)).state, Unfinished(buffer) + Data(recvs[0]);
    StreamNext(Unfinished(buffer), recvs);
    ServeReadsOn(h, tooLong, s, buffer, recvs);
    ServedOn(h, tooLong, s, buffer, Stream(recvs), Serving(h, tooLong, x, left, recvs[1..]), m);
  }

  /** Of every stream, in every split into reads, serving handles the lines one by one: all
      of them, or those before one that really is over the limit. */
  lemma {:induction false} ServingIsFold<S, R>(h: Handler<S, R>, tooLong: R, s: S, buffer: string, recvs: seq<Read>)
    returns (k: nat)
    ensures ServedUpTo(h, tooLong, s, buffer + Stream(recvs), Serving(h, tooLong, s, buffer, recvs), k)
    decreases |recvs|
  {
    var rest := Stream(recvs);
    var f, left := Fold(h, s, RawLines(buffer)), Unfinished(buffer);
    if f.end == Stopped {
      k := |RawLines(buffer + rest)|;
      StoppedEarly(h, tooLong, s, buffer, rest);
    } else if |left| > MAX_LINE_BYTES {
      RefusedNow(h, tooLong, s, buffer, rest);
      k := |RawLines(buffer)|;
    } else if recvs == [] {
      assert buffer + rest == buffer;
      k := |RawLines(buffer)|;
      ServedWhole(h, tooLong, s, buffer);
    } else {
      var m := ServingIsFold(h, tooLong, f.state, left + Data(recvs[0]), recvs[1..]);
      ServedNext(h, tooLong, s, buffer, recvs, m);
      k := |RawLines(buffer)| + m;
    }
  }

  lemma {:induction false} FitsConcat<S, R>(h: Handler<S, R>, s: S, limit: nat, a: seq<string>, b: seq<string>,
                                            unfinished: string)
    requires Fits(h, s, limit, a + b, unfinished) && Fold(h, s, a).end != Stopped
    ensures Fits(h, Fold(h, s, a).state, limit, b, unfinished)
    decreases |a|
  {
    if a == [] {
      assert a + b == b;
    } else {
      assert (a + b)[1..] == a[1..] + b;
      FitsConcat(h, h(s, Clean(a[0])).state, limit, a[1..], b, unfinished);
    }
  }

  /** If everything fits then no line that serving reaches is over the limit. */
  lemma {:induction false} FitsWithin<S, R>(h: Handler<S, R>, s: S, stream: string, k: nat)
    requires Fits(h, s, MAX_LINE_BYTES, RawLines(stream), Unfinished(stream))
    requires k <= |RawLines(stream)| && Fold(h, s, RawLines(stream)[..k]).end == Closed
    ensures !OverLimit(stream, k)
  {
    var raw := RawLines(stream);
    assert raw == raw[..k] + raw[k..];
    FitsConcat(h, s, MAX_LINE_BYTES, raw[..k], raw[k..], Unfinished(stream));
  }

  /** Chunking does not matter: when everything served fits, any split into reads sends
      exactly the replies of handling the whole stream's lines one by one. */
  lemma {:induction false} ChunkingIndependent<S, R>(h: Handler<S, R>, tooLong: R, s: S, buffer: string,
                                                     recvs: seq<Read>)
    requires Fits(h, s, MAX_LINE_BYTES, RawLines(buffer + Stream(recvs)), Unfinished(buffer + Stream(recvs)))
    ensures Serving(h, tooLong, s, buffer, recvs) == Fold(h, s, RawLines(buffer + Stream(recvs)))
  {
    var stream := buffer + Stream(recvs);
    var k := ServingIsFold(h, tooLong, s, buffer, recvs);
    if Fold(h, s, RawLines(stream)[..k]).end == Closed {
      FitsWithin(h, s, stream, k);
    }
    assert RawLines(stream)[..|RawLines(stream)|] == RawLines(stream);
  }

  /** The reply to line `j` is what handling it earns after the lines before it. */
  lemma {:induction false} FoldSentAt<S, R>(h: Handler<S, R>, s: S, raw: seq<string>, j: nat)
    requires j < |Fold(h, s, raw).sent|
    ensures j < |raw| && Fold(h, s, raw[..j]).end == Closed
    ensures Fold(h, s, raw).sent[j] == h(Fold(h, s, raw[..j]).state, Clean(raw[j])).reply
    decreases |raw|
  {
    if j > 0 {
      var x := h(s, Clean(raw[0]));
      FoldSentAt(h, x.state, raw[1..], j - 1);
      assert raw[..j][1..] == raw[1..][..j - 1];
      FoldNext(h, s, raw[..j], x);
    }
  }

  /** How many of the replies answer lines: all but a refusal. */
  function Answers<S, R>(r: Served<S, R>): int {
    if r.end == TooLong then |r.sent| - 1 else |r.sent|
  }

  /** The same of serving. */
  lemma {:induction false} ServedSentAt<S, R>(h: Handler<S, R>, tooLong: R, s: S, stream: string, r: Served<S, R>,
                                              k: nat, j: nat)
    requires ServedUpTo(h, tooLong, s, stream, r, k) && j < Answers(r)
    ensures j < k <= |RawLines(stream)|
    ensures var raw := RawLines(stream); r.sent[j] == h(Fold(h, s, raw[..j]).state, Clean(raw[j])).reply
  {
    var raw := RawLines(stream);
    FoldSentAt(h, s, raw[..k], j);
    assert raw[..k][..j] == raw[..j];
  }

  /** The first line of several. */
  lemma {:induction false} FoldNext<S, R>(h: Handler<S, R>, s: S, raw: seq<string>, x: Handled<S, R>)
    requires raw != [] && h(s, Clean(raw[0])) == x
    ensures Fold(h, s, raw) ==
            if x.go then After(Served(x.state, [x.reply], Closed), Fold(h, x.state, raw[1..]))
            else Served(x.state, [x.reply], Stopped)
  {
  }

  // ---- Which lines the handler is given

  /** A stream of lines, each with its terminator, and something unfinished after them. */
  function Terminated(lines: seq<string>, crlf: seq<bool>, rest: string): string
    requires |crlf| == |lines|
  {
    if lines == [] then rest else
    lines[0] + (if crlf[0] then "\r\n" else "\n") + Terminated(lines[1..], crlf[1..], rest)
  }

  /** No line holds a newline, nor ends in a carriage return that would be taken for part of
      its terminator. */
  predicate AreLines(lines: seq<string>, crlf: seq<bool>, rest: string) {
    && |crlf| == |lines| && '\n' !in rest
    && forall i :: 0 <= i < |lines| ==> '\n' !in lines[i] && (crlf[i] || !EndsInReturn(lines[i]))
  }

  /** The lines themselves handled in turn until one stops it. */
  function Each<S, R>(h: Handler<S, R>, s: S, lines: seq<string>): Served<S, R>
    decreases |lines|
  {
    if lines == [] then Served(s, [], Closed) else
    var x := h(s, lines[0]);
    if x.go then After(Served(x.state, [x.reply], Closed), Each(h, x.state, lines[1..]))
    else Served(x.state, [x.reply], Stopped)
  }

  lemma {:induction false} RawOfLine(line: string, crlf: bool, rest: string)
    requires '\n' !in line && (crlf || !EndsInReturn(line))
    ensures var s, raw := line + (if crlf then "\r\n" else "\n") + rest, if crlf then line + "\r" else line;
            RawLines(s) == [raw] + RawLines(rest) && Unfinished(s) == Unfinished(rest) && Clean(raw) == line
  {
    var s, raw := line + (if crlf then "\r\n" else "\n") + rest, if crlf then line + "\r" else line;
    assert s == raw + ("\n" + rest);
    NoNewline(raw);
    LineAndRest(raw, rest);
    if crlf {
      assert raw[..|raw| - 1] == line;
    }
  }

  lemma {:induction false} RawOfLines(lines: seq<string>, crlf: seq<bool>, rest: string) returns (raw: seq<string>)
    requires AreLines(lines, crlf, rest)
    ensures raw == RawLines(Terminated(lines, crlf, rest)) && |raw| == |lines|
    ensures forall i :: 0 <= i < |raw| ==> Clean(raw[i]) == lines[i]
  {
    if lines == [] {
      raw := [];
      NoNewline(rest);
      NoLine(rest);
    } else {
      var more := RawOfLines(lines[1..], crlf[1..], rest);
      RawOfLine(lines[0], crlf[0], Terminated(lines[1..], crlf[1..], rest));
      raw := [if crlf[0] then lines[0] + "\r" else lines[0]] + more;
    }
  }

  lemma {:induction false} FoldIsEach<S, R>(h: Handler<S, R>, s: S, raw: seq<string>, lines: seq<string>)
    requires |raw| == |lines| && forall i :: 0 <= i < |raw| ==> Clean(raw[i]) == lines[i]
    ensures Fold(h, s, raw) == Each(h, s, lines)
    decreases |raw|
  {
    if raw != [] {
      FoldNext(h, s, raw, h(s, lines[0]));
      FoldIsEach(h, h(s, lines[0]).state, raw[1..], lines[1..]);
    }
  }

  /** However a stream of lines is split into reads, and whether its lines end in a newline
      or in a carriage return and a newline, the handler is given exactly those lines, in
      order: all of them, or the first `k` when the next is refused for its length. */
  lemma {:induction false} HandlesExactly<S, R>(h: Handler<S, R>, tooLong: R, s: S, recvs: seq<Read>,
                                                lines: seq<string>, crlf: seq<bool>, rest: string) returns (k: nat)
    requires AreLines(lines, crlf, rest) && Stream(recvs) == Terminated(lines, crlf, rest)
    ensures k <= |lines|
    ensures var r := Serving(h, tooLong, s, "", recvs);
            if r.end == TooLong then r == Refused(Each(h, s, lines[..k]), tooLong) else r == Each(h, s, lines)
  {
    var stream := Stream(recvs);
    assert "" + stream == stream;
    k := ServingIsFold(h, tooLong, s, "", recvs);
    var raw := RawOfLines(lines, crlf, rest);
    FoldIsEach(h, s, raw[..k], lines[..k]);
    assert lines[..|lines|] == lines;
  }

  /** A buffered line is handed over without its terminator, of either kind and whatever its
      length, and what follows it is served as if it had come first. */
  lemma {:induction false} HandsOver<S, R>(h: Handler<S, R>, tooLong: R, s: S, line: string, crlf: bool, rest: string,
                                           recvs: seq<Read>)
    requires '\n' !in line && (crlf || !EndsInReturn(line))
    ensures var x := h(s, line);
            Serving(h, tooLong, s, line + (if crlf then "\r\n" else "\n") + rest, recvs) ==
            if x.go then After(Served(x.state, [x.reply], Closed), Serving(h, tooLong, x.state, rest, recvs))
            else Served(x.state, [x.reply], Stopped)
  {
    var buffer, raw := line + (if crlf then "\r\n" else "\n") + rest, if crlf then line + "\r" else line;
    var x := h(s, line);
    RawOfLine(line, crlf, rest);
    assert ([raw] + RawLines(rest))[1..] == RawLines(rest);
    FoldNext(h, s, [raw] + RawLines(rest), x);
    if x.go {
      ServeAfter(h, tooLong, s, buffer, x, rest, recvs);
    }
  }

  lemma {:induction false} ServeAfter<S, R>(h: Handler<S, R>, tooLong: R, s: S, buffer: string, x: Handled<S, R>,
                                            rest: string, recvs: seq<Read>)
    requires Unfinished(buffer) == Unfinished(rest)
    requires Fold(h, s, RawLines(buffer)) ==
             After(Served(x.state, [x.reply], Closed), Fold(h, x.state, RawLines(rest)))
    ensures Serving(h, tooLong, s, buffer, recvs) ==
            After(Served(x.state, [x.reply], Closed), Serving(h, tooLong, x.state, rest, recvs))
  {
    var g := Fold(h, x.state, RawLines(rest));
    if g.end != Stopped {
      Assoc([x.reply], g.sent, [tooLong]);
      if recvs != [] {
        Assoc([x.reply], g.sent, Serving(h, tooLong, g.state, Unfinished(rest) + Data(recvs[0]), recvs[1..]).sent);
      }
    }
  }

  /** What has been sent so far and what `rest` will still send make up `all`. */
  ghost predicate Continues<S, R>(all: Served<S, R>, first: seq<R>, sent: seq<R>, rest: Served<S, R>) {
    rest.state == all.state && rest.end == all.end && first + all.sent == sent + rest.sent
  }
}
