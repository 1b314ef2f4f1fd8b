/** Replies as the client receives them: bytes in which it has to find the replies again. */
module Wire {
  import opened Prelude
  import opened Decimal
  import opened CacheModel
  import opened Runs
  import opened Sharding
  import opened Framing
  import opened CommandHandler
  import Protocol
  import Restore
  import Scan
  import Session
  import Snapshot
  import SnapshotFormat

  const MAX_ECHO: nat := 32

  // ---- The text of a reply

  /** The part of a token that an error repeats. */
  function Echo(token: string): (e: string)
    ensures e <= token && |e| <= 32 && (|e| < 32 ==> e == token)
  {
    if |token| > MAX_ECHO then token[..MAX_ECHO] else token
  }

  predicate Plain(s: string) {
    '\n' !in s
  }

  type Words = s: string | Plain(s) witness ""

  /** A piece of an error: fixed wording, which is on one line, a number, or text from
      elsewhere. */
  datatype Piece = Wording(words: Words) | Numeral(n: nat) | Quote(text: string)

  function PieceText(p: Piece): string {
    match p
    case Wording(words) => words
    case Numeral(n) => Dec(n)
    case Quote(text) => text
  }

  function Join(ps: seq<Piece>): string {
    if ps == [] then "" else PieceText(ps[0]) + Join(ps[1..])
  }

  function Name(kind: Protocol.Kind): Words {
    Protocol.CommandName(kind)
  }

  function Arguments(kind: Protocol.Kind): Words {
    if kind == Protocol.SET then " key value [ttl_seconds]" else if Protocol.TakesKey(kind) then " key" else ""
  }

  /** What closes the quotation of a token. */
  function Closing(token: string): Words {
    if |token| > MAX_ECHO then "...'" else "'"
  }

  // The fixed wordings, long ones in two parts.
  const EMPTY_COMMAND: Words := "empty command"
  const WRONG_NUMBER: Words := "wrong number of "
  const ARGUMENTS_FOR: Words := "arguments for '"
  const EXPECTED: Words := "' (expected '"
  const END_EXPECTED: Words := "')"
  const INVALID_TTL: Words := "invalid TTL '"
  const EXPECTED_WHOLE: Words := " (expected a whole "
  const NUMBER_OF_SECONDS: Words := "number of seconds)"
  const NEGATIVE_TTL: Words := "TTL must not be negative"
  const TTL_TOO_LARGE: Words := "TTL too large (maximum "
  const SECONDS: Words := " seconds)"
  const UNKNOWN_COMMAND: Words := "unknown command '"
  const NOT_ENABLED: Words := "persistence is not enabled"
  const ON_THIS_SERVER: Words := " on this server"
  const SAVE_FAILED: Words := "save failed: "
  const LOAD_FAILED: Words := "load failed: "
  const LINE_TOO_LONG: Words := "line too long (maximum "
  const BYTES_CLOSING: Words := " bytes); closing "
  const CONNECTION: Words := "connection"

  function Complaint(e: Protocol.ParseError): seq<Piece> {
    match e
    case EmptyCommand => [Wording(EMPTY_COMMAND)]
    case WrongArity(kind) =>
      [Wording(WRONG_NUMBER), Wording(ARGUMENTS_FOR), Wording(Name(kind)), Wording(EXPECTED), Wording(Name(kind)),
       Wording(Arguments(kind)), Wording(END_EXPECTED)]
    case InvalidTtl(token) =>
      [Wording(INVALID_TTL), Quote(Echo(token)), Wording(Closing(token)), Wording(EXPECTED_WHOLE),
       Wording(NUMBER_OF_SECONDS)]
    case NegativeTtl => [Wording(NEGATIVE_TTL)]
    case TtlTooLarge => [Wording(TTL_TOO_LARGE), Numeral(Protocol.MAX_TTL_SECONDS), Wording(SECONDS)]
    case UnknownCommand(token) => [Wording(UNKNOWN_COMMAND), Quote(Echo(token)), Wording(Closing(token))]
  }

  /** `reason` is what the file layer reported, when it did. */
  function Message(f: Fault, reason: string): seq<Piece> {
    match f
    case BadRequest(e) => Complaint(e)
    case PersistenceOff => [Wording(NOT_ENABLED), Wording(ON_THIS_SERVER)]
    case SaveFailed => [Wording(SAVE_FAILED), Quote(reason)]
    case LoadFailed => [Wording(LOAD_FAILED), Quote(reason)]
    case LineTooLong =>
      [Wording(LINE_TOO_LONG), Numeral(MAX_LINE_BYTES), Wording(BYTES_CLOSING), Wording(CONNECTION)]
  }

  /** A reply without its newline. */
  function Line(r: Reply, reason: string): string {
    match r
    case Okay => "+OK"
    case Pong => "+PONG"
    case Bye => "+BYE"
    case NoExpiry => "+NOEXPIRE"
    case Text(value) => "=" + value
    case Nil => "_"
    case Integer(n) => ":" + Signed(n)
    case Failure(f) => "-ERR " + Join(Message(f, reason))
  }

  function Lines(rs: seq<Reply>, reason: string): seq<string> {
    if rs == [] then [] else [Line(rs[0], reason)] + Lines(rs[1..], reason)
  }

  function Bytes(rs: seq<Reply>, reason: string): string {
    if rs == [] then "" else Line(rs[0], reason) + ("\n" + Bytes(rs[1..], reason))
  }

  // ---- Counting newlines

  function Newlines(s: string): nat {
    if s == [] then 0 else (if s[0] == '\n' then 1 else 0) + Newlines(s[1..])
  }

  lemma {:induction false} NewlinesConcat(a: string, b: string)
    ensures Newlines(a + b) == Newlines(a) + Newlines(b)
  {
    if a == [] {
      assert a + b == b;
    } else {
      assert (a + b)[1..] == a[1..] + b;
      NewlinesConcat(a[1..], b);
    }
  }

  lemma {:induction false} PlainIff(s: string)
    ensures Plain(s) <==> Newlines(s) == 0
    ensures Plain(s) <==> NewlineAt(s) == |s|
  {
    if s != [] {
      PlainIff(s[1..]);
      assert s == [s[0]] + s[1..];
    }
  }

  lemma PlainParts(s: string, i: nat)
    requires Plain(s) && i <= |s|
    ensures Plain(s[..i]) && Plain(s[i..])
  {
  }

  lemma {:induction false} FirstNewline(s: string)
    ensures NewlineAt(s) < |s| ==> Newlines(s) == 1 + Newlines(s[NewlineAt(s) + 1..]) && Plain(s[..NewlineAt(s)])
  {
    if s != [] && s[0] != '\n' {
      FirstNewline(s[1..]);
      var n := NewlineAt(s[1..]);
      if n < |s[1..]| {
        assert s[1..][n + 1..] == s[n + 2..];
        assert s[..n + 1] == [s[0]] + s[1..][..n];
      }
    }
  }

  /** A stream has as many lines as newlines, and no line holds one. */
  lemma {:induction false} LinesArePlain(s: string)
    ensures |RawLines(s)| == Newlines(s)
    ensures forall line :: line in RawLines(s) ==> Plain(line) && Plain(Clean(line))
    decreases |s|
  {
    var n := NewlineAt(s);
    FirstNewline(s);
    if n == |s| {
      PlainIff(s);
    } else {
      FirstRaw(s, n);
      LinesArePlain(s[n + 1..]);
      if s[..n] != [] {
        PlainParts(s[..n], n - 1);
      }
    }
  }

  // ---- A client reading the bytes

  /** The client's lines are the replies, one for one, when each is on one line. */
  lemma {:induction false} RepliesAreLines(rs: seq<Reply>, reason: string)
    requires OneLineEach(rs, reason)
    ensures RawLines(Bytes(rs, reason)) == Lines(rs, reason) && Unfinished(Bytes(rs, reason)) == ""
  {
    if rs != [] {
      RepliesAreLines(rs[1..], reason);
      PlainIff(Line(rs[0], reason));
      LineAndRest(Line(rs[0], reason), Bytes(rs[1..], reason));
    }
  }

  predicate OneLineEach(rs: seq<Reply>, reason: string) {
    forall r :: r in rs ==> Plain(Line(r, reason))
  }

  lemma {:induction false} LinesPerReply(rs: seq<Reply>, reason: string)
    ensures Newlines(Bytes(rs, reason)) >= |rs|
    ensures Newlines(Bytes(rs, reason)) == |rs| <==> OneLineEach(rs, reason)
  {
    if rs != [] {
      var line, rest := Line(rs[0], reason), Bytes(rs[1..], reason);
      LinesPerReply(rs[1..], reason);
      NewlinesConcat(line, "\n" + rest);
      NewlinesConcat("\n", rest);
      PlainIff(line);
      assert Newlines("\n") == 1;
      assert rs == [rs[0]] + rs[1..];
    }
  }

  /** Counting lines counts replies if and only if every reply is on one line. */
  lemma {:induction false} CountableIff(rs: seq<Reply>, reason: string)
    ensures |RawLines(Bytes(rs, reason))| == |rs| <==> OneLineEach(rs, reason)
  {
    LinesPerReply(rs, reason);
    LinesArePlain(Bytes(rs, reason));
  }

  /** The text a reply takes from elsewhere: a stored value, a repeated token, a report. */
  function Borrowed(r: Reply, reason: string): string {
    match r
    case Text(value) => value
    case Failure(BadRequest(InvalidTtl(token))) => Echo(token)
    case Failure(BadRequest(UnknownCommand(token))) => Echo(token)
    case Failure(SaveFailed) => reason
    case Failure(LoadFailed) => reason
    case _ => ""
  }

  lemma PlainConcat(a: string, b: string)
    ensures Plain(a + b) <==> Plain(a) && Plain(b)
  {
  }

  lemma {:induction false} DigitsArePlain(n: nat)
    ensures Plain(Dec(n))
  {
    assert forall i :: 0 <= i < |Dec(n)| ==> IsDigit(Dec(n)[i]);
  }

  lemma {:induction false} NumeralIsPlain(n: int)
    ensures Plain(Signed(n))
  {
    DigitsArePlain(if n < 0 then -n else n);
    if n < 0 {
      PlainConcat("-", Dec(-n));
    }
  }

  predicate AllPlain(ps: seq<Piece>) {
    forall i :: 0 <= i < |ps| ==> Plain(PieceText(ps[i]))
  }

  lemma {:induction false} JoinPlain(ps: seq<Piece>)
    ensures Plain(Join(ps)) <==> AllPlain(ps)
  {
    if ps != [] {
      JoinPlain(ps[1..]);
      PlainConcat(PieceText(ps[0]), Join(ps[1..]));
      assert ps == [ps[0]] + ps[1..];
    }
  }

  /** An error quotes at most one text, the one it borrows. */
  lemma {:induction false} QuotesBorrowed(f: Fault, reason: string, i: nat)
    requires i < |Message(f, reason)| && Message(f, reason)[i].Quote?
    ensures Message(f, reason)[i].text == Borrowed(Failure(f), reason)
  {
  }

  lemma {:induction false} MessagePlain(f: Fault, reason: string)
    ensures Plain(Join(Message(f, reason))) <==> Plain(Borrowed(Failure(f), reason))
  {
    var ps := Message(f, reason);
    JoinPlain(ps);
    if Plain(Borrowed(Failure(f), reason)) {
      forall i | 0 <= i < |ps| ensures Plain(PieceText(ps[i])) {
        match ps[i]
        case Wording(_) =>
        case Numeral(n) => DigitsArePlain(n);
        case Quote(_) => QuotesBorrowed(f, reason, i);
      }
    } else {
      var i := BorrowedQuoted(f, reason);
    }
  }

  lemma {:induction false} BorrowedQuoted(f: Fault, reason: string) returns (i: nat)
    requires Borrowed(Failure(f), reason) != ""
    ensures i < |Message(f, reason)| && Message(f, reason)[i] == Quote(Borrowed(Failure(f), reason))
  {
    i := 1;
  }

  /** A reply is on one line exactly when the text it borrows is. */
  lemma {:induction false} OneLineIff(r: Reply, reason: string)
    ensures Plain(Line(r, reason)) <==> Plain(Borrowed(r, reason))
  {
    match r
    case Failure(f) =>
      MessagePlain(f, reason);
      PlainConcat("-ERR ", Join(Message(f, reason)));
    case Integer(n) =>
      NumeralIsPlain(n);
      PlainConcat(":", Signed(n));
    case Text(value) => PlainConcat("=", value);
    case _ =>
  }

  lemma {:induction false} SignedSign(n: int)
    ensures Signed(n)[0] == '-' <==> n < 0
  {
    if n >= 0 {
      assert IsDigit(Dec(n)[0]);
    }
  }

  lemma {:induction false} SignedInjective(m: int, n: int)
    requires Signed(m) == Signed(n)
    ensures m == n
  {
    SignedSign(m);
    SignedSign(n);
    if m < 0 {
      assert Signed(m)[1..] == Dec(-m) && Signed(n)[1..] == Dec(-n);
      DecInjective(-m, -n);
    } else {
      DecInjective(m, n);
    }
  }

  /** The line tells the reply: no other reply looks like one that is not an error. */
  lemma {:induction false} LineTellsReply(q: Reply, r: Reply, reason: string)
    requires !q.Failure?
    ensures Line(q, reason) == Line(r, reason) <==> q == r
  {
    if Line(q, reason) == Line(r, reason) {
      assert Line(q, reason)[0] == Line(r, reason)[0];
      if q.Text? {
        assert Line(q, reason)[1..] == q.value && Line(r, reason)[1..] == r.value;
      } else if q.Integer? {
        assert Line(q, reason)[1..] == Signed(q.n) && Line(r, reason)[1..] == Signed(r.n);
        SignedInjective(q.n, r.n);
      }
    }
  }

  // ---- The documented errors

  lemma JoinOne(p: Piece)
    ensures Join([p]) == PieceText(p)
  {
    assert [p][1..] == [];
    assert PieceText(p) + "" == PieceText(p);
  }

  lemma {:induction false} JoinNext(p: Piece, ps: seq<Piece>)
    ensures Join([p] + ps) == PieceText(p) + Join(ps)
  {
    assert ([p] + ps)[1..] == ps;
  }

  lemma {:induction false} JoinTwo(p: Piece, q: Piece)
    ensures Join([p, q]) == PieceText(p) + PieceText(q)
  {
    assert [p, q] == [p] + [q];
    JoinNext(p, [q]);
    JoinOne(q);
  }

  lemma {:induction false} JoinThree(p: Piece, q: Piece, r: Piece)
    ensures Join([p, q, r]) == PieceText(p) + PieceText(q) + PieceText(r)
  {
    assert [p, q, r] == [p] + [q, r];
    JoinNext(p, [q, r]);
    JoinTwo(q, r);
    Assoc(PieceText(p), PieceText(q), PieceText(r));
  }

  /** The errors of the documentation that are told by a word or two, and how much of a token
      is repeated. */
  lemma {:induction false} DocumentedErrors(token: string, reason: string)
    ensures Join(Message(BadRequest(Protocol.EmptyCommand), reason)) == "empty command"
    ensures Join(Message(BadRequest(Protocol.NegativeTtl), reason)) == "TTL must not be negative"
    ensures |token| <= 32 ==>
              Join(Message(BadRequest(Protocol.UnknownCommand(token)), reason)) == "unknown command '" + token + "'"
    ensures |token| > 32 ==>
              Join(Message(BadRequest(Protocol.UnknownCommand(token)), reason)) ==
              "unknown command '" + token[..32] + "...'"
    ensures Join(Message(SaveFailed, reason)) == "save failed: " + reason
    ensures Join(Message(LoadFailed, reason)) == "load failed: " + reason
  {
    JoinOne(Wording(EMPTY_COMMAND));
    JoinOne(Wording(NEGATIVE_TTL));
    JoinThree(Wording(UNKNOWN_COMMAND), Quote(Echo(token)), Wording(Closing(token)));
    JoinTwo(Wording(SAVE_FAILED), Quote(reason));
    JoinTwo(Wording(LOAD_FAILED), Quote(reason));
  }

  // ---- A client that knows the documented replies

  predicate IsNumeral(s: string) {
    if s != [] && s[0] == '-' then |s| > 1 && AllDigits(s[1..]) else s != [] && AllDigits(s)
  }

  /** Dispatches on the first byte. */
  function Hear(line: string): Option<Reply> {
    if line == "+OK" then Some(Okay)
    else if line == "+PONG" then Some(Pong)
    else if line == "+BYE" then Some(Bye)
    else if line == "+NOEXPIRE" then Some(NoExpiry)
    else if line == "_" then Some(Nil)
    else if line == [] then None
    else if line[0] == '=' then Some(Text(line[1..]))
    else if line[0] == ':' && IsNumeral(line[1..]) then
      Some(Integer(if line[1] == '-' then 0 - NumberOf(line[2..]) else NumberOf(line[1..])))
    else None
  }

  lemma {:induction false} HeardNumber(n: int)
    ensures Hear(":" + Signed(n)) == Some(Integer(n))
  {
    var line := ":" + Signed(n);
    assert line[0] == ':' && line[1..] == Signed(n) && line[1] == Signed(n)[0];
    SignedSign(n);
    ValueOfDec(if n < 0 then -n else n);
    if n < 0 {
      assert line[2..] == Dec(-n) == line[1..][1..];
    }
  }

  lemma {:induction false} HeardText(value: string)
    ensures Hear("=" + value) == Some(Text(value))
  {
    var line := "=" + value;
    assert line[0] == '=' && line[1..] == value;
  }

  lemma {:induction false} HeardError(message: string)
    ensures Hear("-ERR " + message) == None && "-ERR " <= "-ERR " + message
  {
    assert ("-ERR " + message)[0] == '-';
  }

  /** What was sent is what is heard, and an error is known by its first bytes. */
  lemma {:induction false} HeardAsSent(r: Reply, reason: string)
    ensures !r.Failure? ==> Hear(Line(r, reason)) == Some(r)
    ensures r.Failure? ==> Hear(Line(r, reason)) == None && "-ERR " <= Line(r, reason)
  {
    match r
    case Integer(n) => HeardNumber(n);
    case Text(value) => HeardText(value);
    case Failure(f) => HeardError(Join(Message(f, reason)));
    case _ =>
  }

  // ---- When a reply is on one line, told before it is made

  /** The command reads a visible value that has a newline in it. */
  predicate Spans(st: Store, c: Protocol.Command, m: Moment)
    requires |st.shards| > 0
  {
    var seen := Seen(st.hash, st.shards, c.key, m.now);
    c.kind == Protocol.GET && seen.Some? && !Plain(seen.value.value)
  }

  lemma BorrowedByCommand(st: Store, c: Protocol.Command, m: Moment, reason: string)
    requires |st.shards| > 0 && Plain(reason)
    ensures Plain(Borrowed(Execute(st, c, m).1, reason)) <==> !Spans(st, c, m)
  {
  }

  /** Of all commands on all stores, the reply is on one line unless it is a GET of a
      visible value with a newline. */
  lemma {:induction false} CommandOneLineIff(st: Store, c: Protocol.Command, m: Moment, reason: string)
    requires |st.shards| > 0 && Plain(reason)
    ensures Plain(Line(Execute(st, c, m).1, reason)) <==> !Spans(st, c, m)
  {
    BorrowedByCommand(st, c, m, reason);
    OneLineIff(Execute(st, c, m).1, reason);
  }

  lemma {:induction false} TokensPlain(line: string)
    requires Plain(line)
    ensures forall token :: token in Protocol.Tokens(line) ==> Plain(token)
    decreases |line|
  {
    var n := Protocol.SepRun(line);
    if n < |line| {
      var r := line[n..];
      var m := Protocol.WordRun(r);
      Protocol.FirstToken(line, n, r, m, r[..m], r[m..]);
      PlainParts(line, n);
      PlainParts(r, m);
      TokensPlain(r[m..]);
    } else {
      Protocol.NoMoreTokens(line, 0);
      assert line[0..] == line;
    }
  }

  lemma ErrorEchoes(toks: seq<string>)
    ensures match Protocol.ParseTokens(toks)
            case Err(InvalidTtl(token)) => token in toks
            case Err(UnknownCommand(token)) => token in toks
            case _ => true
  {
  }

  predicate LineSpans(x: Session.Live, line: string) {
    match Protocol.ParseCommand(line)
    case Err(_) => false
    case Ok(c) => Spans(x.store, c, x.moments(x.handled))
  }

  lemma {:induction false} RefusalPlain(line: string, reason: string)
    requires Plain(line) && Protocol.ParseCommand(line).Err?
    ensures Plain(Line(Failure(BadRequest(Protocol.ParseCommand(line).error)), reason))
  {
    TokensPlain(line);
    ErrorEchoes(Protocol.Tokens(line));
    OneLineIff(Failure(BadRequest(Protocol.ParseCommand(line).error)), reason);
  }

  lemma HandledReply(x: Session.Live, line: string)
    ensures Session.HandleLine(x, line).reply ==
            match Protocol.ParseCommand(line)
            case Err(error) => Failure(BadRequest(error))
            case Ok(c) => Execute(x.store, c, x.moments(x.handled)).1
  {
  }

  lemma {:induction false} LineOneLineIff(x: Session.Live, line: string, reason: string)
    requires Plain(line) && Plain(reason)
    ensures Plain(Line(Session.HandleLine(x, line).reply, reason)) <==> !LineSpans(x, line)
  {
    HandledReply(x, line);
    match Protocol.ParseCommand(line)
    case Err(_) => RefusalPlain(line, reason);
    case Ok(c) => CommandOneLineIff(x.store, c, x.moments(x.handled), reason);
  }

  /** No line handled asks for such a value. */
  predicate NeverSpans(x: Session.Live, raw: seq<string>)
    decreases |raw|
  {
    raw != [] ==>
      var y := Session.HandleLine(x, Clean(raw[0]));
      !LineSpans(x, Clean(raw[0])) && (y.go ==> NeverSpans(y.state, raw[1..]))
  }

  lemma {:induction false} FoldOneLineIff(x: Session.Live, raw: seq<string>, reason: string)
    requires Plain(reason) && forall line :: line in raw ==> Plain(Clean(line))
    ensures OneLineEach(Fold(Session.HandleLine, x, raw).sent, reason) <==> NeverSpans(x, raw)
    decreases |raw|
  {
    if raw != [] {
      var y := Session.HandleLine(x, Clean(raw[0]));
      LineOneLineIff(x, Clean(raw[0]), reason);
      if y.go {
        FoldOneLineIff(y.state, raw[1..], reason);
        ConsSent(Session.HandleLine, x, raw, reason);
      }
    }
  }

  lemma {:induction false} ConsSent(h: Handler<Session.Live, Reply>, x: Session.Live, raw: seq<string>, reason: string)
    requires raw != [] && h(x, Clean(raw[0])).go
    ensures var y := h(x, Clean(raw[0]));
            OneLineEach(Fold(h, x, raw).sent, reason) <==>
            Plain(Line(y.reply, reason)) && OneLineEach(Fold(h, y.state, raw[1..]).sent, reason)
  {
    var y := h(x, Clean(raw[0]));
    AllCons(y.reply, Fold(h, y.state, raw[1..]).sent, reason);
  }

  lemma AllCons(q: Reply, rs: seq<Reply>, reason: string)
    ensures OneLineEach([q] + rs, reason) <==> Plain(Line(q, reason)) && OneLineEach(rs, reason)
  {
    assert q in [q] + rs;
    assert forall r :: r in rs ==> r in [q] + rs;
  }

  lemma {:induction false} AllSnoc(rs: seq<Reply>, q: Reply, reason: string)
    ensures OneLineEach(rs + [q], reason) <==> OneLineEach(rs, reason) && Plain(Line(q, reason))
  {
    assert q in rs + [q];
    assert forall r :: r in rs ==> r in rs + [q];
  }

  /** A refusal is on one line, so it is the lines served that matter. */
  lemma {:induction false} ServedOneLine(h: Handler<Session.Live, Reply>, x: Session.Live, stream: string,
                                         r: Served<Session.Live, Reply>, k: nat, reason: string)
    requires ServedUpTo(h, Failure(LineTooLong), x, stream, r, k)
    ensures OneLineEach(r.sent, reason) <==> OneLineEach(Fold(h, x, RawLines(stream)[..k]).sent, reason)
  {
    OneLineIff(Failure(LineTooLong), reason);
    AllSnoc(Fold(h, x, RawLines(stream)[..k]).sent, Failure(LineTooLong), reason);
  }

  lemma {:induction false} StreamOneLineIff(x: Session.Live, stream: string, k: nat, reason: string)
    requires Plain(reason) && k <= |RawLines(stream)|
    ensures OneLineEach(Fold(Session.HandleLine, x, RawLines(stream)[..k]).sent, reason) <==>
            NeverSpans(x, RawLines(stream)[..k])
  {
    LinesArePlain(stream);
    assert forall line :: line in RawLines(stream)[..k] ==> line in RawLines(stream);
    FoldOneLineIff(x, RawLines(stream)[..k], reason);
  }

  /** In every session, with or without persistence, whatever others do and however its bytes
      are chunked, the client can count its replies by counting lines if and only if none of
      the `k` lines served is a GET that meets a visible value with a newline. */
  lemma {:induction false} SessionCountableIff(x: Session.Live, recvs: seq<Read>, reason: string) returns (k: nat)
    requires Plain(reason)
    ensures var r := Serving(Session.HandleLine, Failure(LineTooLong), x, "", recvs);
            && ServedUpTo(Session.HandleLine, Failure(LineTooLong), x, Stream(recvs), r, k)
            && (|RawLines(Bytes(r.sent, reason))| == |r.sent| <==> NeverSpans(x, RawLines(Stream(recvs))[..k]))
  {
    assert "" + Stream(recvs) == Stream(recvs);
    var r := Serving(Session.HandleLine, Failure(LineTooLong), x, "", recvs);
    k := ServingIsFold(Session.HandleLine, Failure(LineTooLong), x, "", recvs);
    StreamOneLineIff(x, Stream(recvs), k, reason);
    ServedOneLine(Session.HandleLine, x, Stream(recvs), r, k, reason);
    CountableIff(r.sent, reason);
  }

  // ---- What keeps newlines out

  ghost predicate PlainState(s: State) {
    Sane(s) && forall e :: e in s.entries ==> Plain(e.value)
  }

  ghost predicate PlainShards(shards: Shards) {
    forall i :: 0 <= i < |shards| ==> PlainState(shards[i])
  }

  predicate PlainRecords(records: seq<Snapshot.Record>) {
    forall i :: 0 <= i < |records| ==> Plain(records[i].value)
  }

  /** Loading the file, if it can be, brings no newline. */
  predicate PlainFile(file: string) {
    var d := Snapshot.Decode(file);
    d.Accepted? ==> PlainRecords(d.records)
  }

  ghost predicate PlainStore(st: Store) {
    && PlainShards(st.shards)
    && (st.persistence.Some? && st.persistence.value.Some? ==> PlainFile(st.persistence.value.value))
  }

  predicate PlainOp(op: Op) {
    op.Set? || op.SetTtl? ==> Plain(op.value)
  }

  predicate PlainForeign(e: Session.Foreign) {
    match e
    case Acts(op, _) => PlainOp(op)
    case Saves(file, _) => PlainFile(file)
  }

  /** Neither the cache nor the file holds a value with a newline, and others bring none. */
  ghost predicate PlainSession(x: Session.Live) {
    PlainStore(x.store) && forall h, i :: 0 <= h && 0 <= i < |x.others(h)| ==> PlainForeign(x.others(h)[i])
  }

  lemma {:induction false} StepPlain(s: State, op: Op, now: int)
    requires PlainState(s) && PlainOp(op)
    ensures PlainState(Step(s, op, now).state)
  {
    StepSane(s, op, now);
    StepShape(s, op, now);
    var c := ChangeOf(s, op, now);
    if c.Stored? {
      assert forall x :: x in Take(s.capacity, [c.e] + Without(s.entries, c.e.key)) ==>
               x in [c.e] + Without(s.entries, c.e.key);
    }
  }

  lemma {:induction false} ShardedPlain(hash: string -> nat, shards: Shards, op: Op, now: int)
    requires |shards| > 0 && PlainShards(shards) && PlainOp(op)
    ensures PlainShards(ShardedStep(hash, shards, op, now).0)
  {
    if Keyed(op) {
      StepPlain(shards[ShardIndex(hash, |shards|, op.key)], op, now);
    }
  }

  lemma {:induction false} ReplayPlain(hash: string -> nat, shards: Shards, records: seq<Snapshot.Record>, elapsed: int,
                                       nows: seq<int>)
    requires |shards| > 0 && PlainShards(shards) && |nows| == |records| && PlainRecords(records)
    ensures PlainShards(Restore.Replay(hash, shards, records, elapsed, nows))
  {
    if records != [] {
      ReplayPlain(hash, shards, records[1..], elapsed, nows[1..]);
      assert Plain(records[0].value);
      ShardedPlain(hash, Restore.Replay(hash, shards, records[1..], elapsed, nows[1..]),
                   Restore.RestoreOp(records[0], elapsed), nows[0]);
    }
  }

  lemma {:induction false} ExportPlain(shards: Shards, readings: seq<int>)
    requires |readings| == |shards| && PlainShards(shards)
    ensures forall r :: r in ExportEach(shards, readings) ==> Plain(r.value)
  {
    if shards != [] {
      ExportPlain(shards[1..], readings[1..]);
      forall r | r in ExportEntries(shards[0].entries, readings[0]) ensures Plain(r.value) {
        var e := Scan.ExportOrigin(shards[0].entries, readings[0], r);
      }
    }
  }

  /** What is saved from such a cache is such a file, whether or not it can be loaded. */
  lemma {:induction false} SavePlain(st: Store, m: Moment)
    requires PlainShards(st.shards)
    ensures PlainFile(Snapshot.FileText(m.wall, Saved(st, m)))
  {
    var out := ExportEach(st.shards, Readings(m.exportAt, |st.shards|));
    ExportPlain(st.shards, Readings(m.exportAt, |st.shards|));
    assert forall i :: 0 <= i < |out| ==> out[i] in out;
    SnapshotFormat.RoundTripOrRejected(m.wall, Saved(st, m));
  }

  lemma {:induction false} LoadPlain(st: Store, d: Snapshot.Decoded, m: Moment)
    requires |st.shards| > 0 && PlainStore(st) && (d.Accepted? ==> PlainRecords(d.records))
    ensures PlainStore(ApplyDecoded(st, d, m).0)
  {
    if d.Accepted? {
      ReplayPlain(st.hash, st.shards, d.records, Restore.Elapsed(d.savedAt, m.wall), Readings(m.setAt, |d.records|));
    }
  }

  lemma CommandWords(toks: seq<string>)
    ensures match Protocol.ParseTokens(toks)
            case Ok(c) => c.value == "" || c.value in toks
            case Err(_) => true
  {
  }

  lemma {:induction false} OpPlain(line: string, c: Protocol.Command)
    requires Plain(line) && Protocol.ParseCommand(line) == Protocol.Ok(c)
    ensures OpOf(c).Some? ==> PlainOp(OpOf(c).value)
  {
    TokensPlain(line);
    CommandWords(Protocol.Tokens(line));
  }

  lemma {:induction false} KeyedKeeps(st: Store, c: Protocol.Command, m: Moment)
    requires |st.shards| > 0 && PlainStore(st) && OpOf(c).Some? && PlainOp(OpOf(c).value)
    ensures PlainStore(Execute(st, c, m).0)
  {
    ShardedPlain(st.hash, st.shards, OpOf(c).value, m.now);
  }

  lemma {:induction false} DiskKeeps(st: Store, c: Protocol.Command, m: Moment)
    requires |st.shards| > 0 && PlainStore(st) && OpOf(c).None?
    ensures PlainStore(Execute(st, c, m).0)
  {
    if st.persistence.Some? {
      if c.kind == Protocol.SAVE {
        SavePlain(st, m);
      } else if c.kind == Protocol.LOAD && st.persistence.value.Some? {
        LoadPlain(st, Snapshot.Decode(st.persistence.value.value), m);
      }
    }
  }

  lemma {:induction false} MeanwhilePlain(st: Store, es: seq<Session.Foreign>)
    requires |st.shards| > 0 && PlainStore(st) && forall i :: 0 <= i < |es| ==> PlainForeign(es[i])
    ensures PlainStore(Session.Meanwhile(st, es))
  {
    if es != [] {
      var before, e := Session.Meanwhile(st, es[..|es| - 1]), es[|es| - 1];
      MeanwhilePlain(st, es[..|es| - 1]);
      assert PlainForeign(e);
      if e.Acts? {
        ShardedPlain(before.hash, before.shards, e.op, e.now);
      }
    }
  }

  lemma {:induction false} CommandKeeps(st: Store, line: string, c: Protocol.Command, m: Moment)
    requires |st.shards| > 0 && PlainStore(st) && Plain(line) && Protocol.ParseCommand(line) == Protocol.Ok(c)
    ensures PlainStore(Execute(st, c, m).0)
  {
    OpPlain(line, c);
    if OpOf(c).Some? {
      KeyedKeeps(st, c, m);
    } else {
      DiskKeeps(st, c, m);
    }
  }

  lemma HandledStore(x: Session.Live, line: string)
    ensures var y := Session.HandleLine(x, line).state;
            && y.others == x.others
            && y.store == match Protocol.ParseCommand(line)
                          case Err(_) => x.store
                          case Ok(c) =>
                            Session.Meanwhile(Execute(x.store, c, x.moments(x.handled)).0, x.others(x.handled))
  {
  }

  lemma {:induction false} LineKeeps(x: Session.Live, line: string)
    requires PlainSession(x) && Plain(line)
    ensures PlainSession(Session.HandleLine(x, line).state)
  {
    HandledStore(x, line);
    match Protocol.ParseCommand(line)
    case Err(_) =>
    case Ok(c) =>
      CommandKeeps(x.store, line, c, x.moments(x.handled));
      MeanwhilePlain(Execute(x.store, c, x.moments(x.handled)).0, x.others(x.handled));
  }

  lemma {:induction false} ShownPlain(x: Session.Live, line: string)
    requires PlainSession(x)
    ensures !LineSpans(x, line)
  {
  }

  /** One line in, one line out, and neither cache nor file gains a newline. */
  lemma {:induction false} LineSends(x: Session.Live, line: string, reason: string)
    requires PlainSession(x) && Plain(line) && Plain(reason)
    ensures Plain(Line(Session.HandleLine(x, line).reply, reason))
    ensures PlainSession(Session.HandleLine(x, line).state)
  {
    ShownPlain(x, line);
    LineOneLineIff(x, line, reason);
    LineKeeps(x, line);
  }

  lemma {:induction false} FoldSends(x: Session.Live, raw: seq<string>, reason: string)
    requires PlainSession(x) && Plain(reason) && forall line :: line in raw ==> Plain(Clean(line))
    ensures PlainSession(Fold(Session.HandleLine, x, raw).state)
    ensures OneLineEach(Fold(Session.HandleLine, x, raw).sent, reason)
    decreases |raw|
  {
    if raw != [] {
      LineSends(x, Clean(raw[0]), reason);
      FoldSends(Session.HandleLine(x, Clean(raw[0])).state, raw[1..], reason);
    }
  }

  /** Whatever bytes a client sends and however they are chunked, SAVE and LOAD included,
      if neither the cache nor the file on disk starts out with a newline in a value then
      the bytes it gets back split into lines in which it hears exactly the replies. */
  lemma {:induction false} ClientReadsReplies(x: Session.Live, recvs: seq<Read>, reason: string)
    requires PlainSession(x) && Plain(reason)
    ensures var sent := Serving(Session.HandleLine, Failure(LineTooLong), x, "", recvs).sent;
            && RawLines(Bytes(sent, reason)) == Lines(sent, reason) && Unfinished(Bytes(sent, reason)) == ""
            && |Lines(sent, reason)| == |sent|
            && forall i :: 0 <= i < |sent| ==> Heard(Lines(sent, reason)[i], sent[i])
  {
    assert "" + Stream(recvs) == Stream(recvs);
    var k := ServingIsFold(Session.HandleLine, Failure(LineTooLong), x, "", recvs);
    LinesArePlain(Stream(recvs));
    assert forall line :: line in RawLines(Stream(recvs))[..k] ==> line in RawLines(Stream(recvs));
    FoldSends(x, RawLines(Stream(recvs))[..k], reason);
    ServedOneLine(Session.HandleLine, x, Stream(recvs), Serving(Session.HandleLine, Failure(LineTooLong), x, "", recvs),
                  k, reason);
    RepliesAreLines(Serving(Session.HandleLine, Failure(LineTooLong), x, "", recvs).sent, reason);
    LinesHeard(Serving(Session.HandleLine, Failure(LineTooLong), x, "", recvs).sent, reason);
  }

  /** The client hears that reply, or that there was an error. */
  predicate Heard(line: string, r: Reply) {
    Hear(line) == if r.Failure? then None else Some(r)
  }

  lemma {:induction false} LinesHeard(rs: seq<Reply>, reason: string)
    ensures |Lines(rs, reason)| == |rs| && forall i :: 0 <= i < |rs| ==> Heard(Lines(rs, reason)[i], rs[i])
  {
    if rs != [] {
      HeardAsSent(rs[0], reason);
      LinesHeard(rs[1..], reason);
    }
  }

  // ---- What lets them in

  /** A cache of one unbounded shard, with a snapshot of one persistent record on disk. */
  function OneOnDisk(key: string, value: string): Store {
    Store(_ => 0, [Empty(None)], Some(Some(Snapshot.FileText(0, [Snapshot.Record(key, value, Snapshot.NO_EXPIRY)]))))
  }

  lemma {:induction false} ReplaysOne(hash: string -> nat, r: Snapshot.Record, elapsed: int, nows: seq<int>)
    requires r.ttl == Snapshot.NO_EXPIRY && |nows| == 1
    ensures var shards := Restore.Replay(hash, [Empty(None)], [r], elapsed, nows);
            shards == [State(None, [Entry(r.key, r.value, None)], 0, 0)]
  {
    assert [r][1..] == [] && nows[1..] == [];
    var e := Entry(r.key, r.value, None);
    assert Restore.Replay(hash, [Empty(None)], [], elapsed, []) == [Empty(None)];
    assert ShardIndex(hash, 1, r.key) == 0;
    assert [e] + [] == [e];
    assert Step(Empty(None), Op.Set(r.key, r.value), nows[0]).state == State(None, [e], 0, 0);
  }

  lemma {:induction false} AppliesOne(st: Store, savedAt: int, r: Snapshot.Record, m: Moment)
    requires r.ttl == Snapshot.NO_EXPIRY && st.shards == [Empty(None)]
    ensures ApplyDecoded(st, Snapshot.Accepted(savedAt, [r]), m).0 ==
            st.(shards := [State(None, [Entry(r.key, r.value, None)], 0, 0)])
  {
    ReplaysOne(st.hash, r, Restore.Elapsed(savedAt, m.wall), Readings(m.setAt, 1));
  }

  lemma {:induction false} LoadsOne(st: Store, r: Snapshot.Record, m: Moment)
    requires r.ttl == Snapshot.NO_EXPIRY && st.shards == [Empty(None)] && SnapshotFormat.Storable(0, [r])
    requires st.persistence == Some(Some(Snapshot.FileText(0, [r])))
    ensures Execute(st, LOAD_COMMAND, m).0 == st.(shards := [State(None, [Entry(r.key, r.value, None)], 0, 0)])
  {
    SnapshotFormat.RoundTrip(0, [r]);
    LoadExecutes(st, m, Snapshot.FileText(0, [r]));
    AppliesOne(st, 0, r, m);
  }

  lemma {:induction false} GetsOne(st: Store, e: Entry, m: Moment)
    requires st.shards == [State(None, [e], 0, 0)] && e.expiresAt.None?
    ensures Execute(st, Protocol.Command(Protocol.GET, e.key, "", None), m).1 == Text(e.value)
  {
    assert ShardIndex(st.hash, 1, e.key) == 0;
  }

  lemma {:induction false} BytesOfOne(value: string, reason: string)
    ensures |RawLines(Bytes([Text(value)], reason))| == 1 + Newlines(value)
  {
    LinesArePlain(Bytes([Text(value)], reason));
    assert [Text(value)][1..] == [];
    NewlinesConcat("=" + value, "\n" + "");
    NewlinesConcat("=", value);
    assert Newlines("\n" + "") == 1 && Newlines("=") == 0;
  }

  /** A LOAD brings back any value at all, and the reply to a GET of it takes one line
      more for every newline in it. */
  lemma {:induction false} LoadedValueSpansLines(key: string, value: string, m1: Moment, m2: Moment, reason: string)
    requires SnapshotFormat.Storable(0, [Snapshot.Record(key, value, Snapshot.NO_EXPIRY)])
    ensures var st := Execute(OneOnDisk(key, value), LOAD_COMMAND, m1).0;
            var reply := Execute(st, Protocol.Command(Protocol.GET, key, "", None), m2).1;
            reply == Text(value) && |RawLines(Bytes([reply], reason))| == 1 + Newlines(value)
  {
    LoadsOne(OneOnDisk(key, value), Snapshot.Record(key, value, Snapshot.NO_EXPIRY), m1);
    GetsOne(Execute(OneOnDisk(key, value), LOAD_COMMAND, m1).0, Entry(key, value, None), m2);
    BytesOfOne(value, reason);
  }
}
