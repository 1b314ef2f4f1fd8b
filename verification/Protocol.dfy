/** The request line: its tokens, its numbers, and the command it spells. */
module Protocol {
  import opened Prelude
  import opened Decimal

  const MAX_TTL_SECONDS: int := 315360000

  datatype Kind = SET | GET | DELETE | EXISTS | TTL | PING | SAVE | LOAD | QUIT

  datatype Command = Command(kind: Kind, key: string, value: string, ttl: Option<int>)

  datatype ParseError =
    | EmptyCommand
    | WrongArity(kind: Kind)
    | InvalidTtl(token: string)
    | NegativeTtl
    | TtlTooLarge
    | UnknownCommand(token: string)

  datatype ParseResult = Ok(command: Command) | Err(error: ParseError)

  // ---- Tokens

  predicate IsSep(c: char) {
    c == ' ' || c == '\t'
  }

  predicate AllSeps(s: string) {
    forall i :: 0 <= i < |s| ==> s[i] == ' ' || s[i] == '\t'
  }

  /** A nonempty run of characters none of which separates. */
  predicate IsWord(s: string) {
    s != [] && ' ' !in s && '\t' !in s
  }

  function SepRun(s: string): (n: nat)
    ensures n <= |s| && AllSeps(s[..n])
    ensures n < |s| ==> !IsSep(s[n])
  {
    if s == [] || !IsSep(s[0]) then 0 else 1 + SepRun(s[1..])
  }

  function WordRun(s: string): (n: nat)
    ensures n <= |s| && (forall i :: 0 <= i < n ==> !IsSep(s[i]))
    ensures n < |s| ==> IsSep(s[n])
  {
    if s == [] || IsSep(s[0]) then 0 else 1 + WordRun(s[1..])
  }

  function Tokens(s: string): (toks: seq<string>)
    ensures forall i :: 0 <= i < |toks| ==> IsWord(toks[i])
    decreases |s|
  {
    var r := s[SepRun(s)..];
    if r == [] then [] else
    var n := WordRun(r);
    [r[..n]] + Tokens(r[n..])
  }

  method SkipSeps(line: string, i: nat) returns (j: nat)
    requires i <= |line|
    ensures j == i + SepRun(line[i..])
  {
    j := i;
    while j < |line| && IsSep(line[j])
      invariant i <= j <= |line| && j - i + SepRun(line[j..]) == SepRun(line[i..])
    {
      assert line[j..][1..] == line[j + 1..];
      j := j + 1;
    }
  }

  method SkipWord(line: string, i: nat) returns (j: nat)
    requires i <= |line|
    ensures j == i + WordRun(line[i..])
  {
    j := i;
    while j < |line| && !IsSep(line[j])
      invariant i <= j <= |line| && j - i + WordRun(line[j..]) == WordRun(line[i..])
    {
      assert line[j..][1..] == line[j + 1..];
      j := j + 1;
    }
  }

  method Tokenize(line: string) returns (tokens: seq<string>)
    ensures tokens == Tokens(line)
  {
    tokens := [];
    var i := 0;
    assert line[0..] == line;
    while i < |line|
      invariant 0 <= i <= |line|
      invariant tokens + Tokens(line[i..]) == Tokens(line)
    {
      var start := SkipSeps(line, i);
      if start >= |line| {
        NoMoreTokens(line, i);
        return;
      }
      var end := SkipWord(line, start);
      NextToken(line, i, start, end, tokens);
      tokens := tokens + [line[start..end]];
      i := end;
    }
    NoMoreTokens(line, i);
  }

  lemma NoMoreTokens(line: string, i: nat)
    requires i <= |line| && i + SepRun(line[i..]) >= |line|
    ensures Tokens(line[i..]) == []
  {
  }

  lemma FirstToken(s: string, n: nat, r: string, m: nat, word: string, tail: string)
    requires n == SepRun(s) < |s| && r == s[n..] && m == WordRun(r) && word == r[..m] && tail == r[m..]
    ensures m > 0 && Tokens(s) == [word] + Tokens(tail)
  {
  }

  lemma {:induction false} NextToken(line: string, i: nat, start: nat, end: nat, before: seq<string>)
    requires i <= |line| && start == i + SepRun(line[i..]) < |line| && end == start + WordRun(line[start..])
    ensures start < end <= |line|
    ensures before + Tokens(line[i..]) == before + [line[start..end]] + Tokens(line[end..])
  {
    TokenAt(line, i, start, end);
    Assoc(before, [line[start..end]], Tokens(line[end..]));
  }

  lemma {:induction false} TokenAt(line: string, i: nat, start: nat, end: nat)
    requires i <= |line| && start == i + SepRun(line[i..]) < |line| && end == start + WordRun(line[start..])
    ensures start < end <= |line| && Tokens(line[i..]) == [line[start..end]] + Tokens(line[end..])
  {
    Slices(line, i, start);
    Slices(line, start, end);
    FirstToken(line[i..], start - i, line[start..], end - start, line[start..end], line[end..]);
  }

  lemma Slices(s: string, i: nat, j: nat)
    requires i <= j <= |s|
    ensures s[i..][..j - i] == s[i..j] && s[i..][j - i..] == s[j..]
  {
  }

  // ---- Lines and their tokens

  /** Separators and tokens in turn, separators first and last. */
  function Render(seps: seq<string>, toks: seq<string>): string
    requires |seps| == |toks| + 1
  {
    if toks == [] then seps[0] else seps[0] + (toks[0] + Render(seps[1..], toks[1..]))
  }

  /** Runs of spaces and tabs that keep the tokens apart: only the first and the last may
      be empty. */
  predicate Separates(seps: seq<string>, count: nat) {
    && |seps| == count + 1
    && (forall i :: 0 <= i <= count ==> AllSeps(seps[i]))
    && (forall i :: 0 < i < count ==> seps[i] != [])
  }

  lemma {:induction false} SepRunUnique(sep: string, rest: string)
    requires AllSeps(sep) && (rest != [] ==> !IsSep(rest[0]))
    ensures SepRun(sep + rest) == |sep|
  {
    if sep == [] {
      assert sep + rest == rest;
    } else {
      assert (sep + rest)[1..] == sep[1..] + rest;
      SepRunUnique(sep[1..], rest);
    }
  }

  lemma {:induction false} WordRunUnique(word: string, rest: string)
    requires (forall i :: 0 <= i < |word| ==> !IsSep(word[i])) && (rest != [] ==> IsSep(rest[0]))
    ensures WordRun(word + rest) == |word|
  {
    if word == [] {
      assert word + rest == rest;
    } else {
      assert (word + rest)[1..] == word[1..] + rest;
      WordRunUnique(word[1..], rest);
    }
  }

  lemma {:induction false} TokensCons(sep: string, word: string, rest: string)
    requires AllSeps(sep) && IsWord(word) && (rest != [] ==> IsSep(rest[0]))
    ensures Tokens(sep + (word + rest)) == [word] + Tokens(rest)
  {
    SepRunUnique(sep, word + rest);
    WordRunUnique(word, rest);
    assert (sep + (word + rest))[|sep|..] == word + rest;
    assert (word + rest)[..|word|] == word && (word + rest)[|word|..] == rest;
  }

  lemma {:induction false} NoTokens(sep: string)
    requires AllSeps(sep)
    ensures Tokens(sep) == []
  {
    SepRunUnique(sep, "");
    assert sep + "" == sep;
  }

  lemma StartsWithSep(seps: seq<string>, toks: seq<string>)
    requires |seps| == |toks| + 1 && AllSeps(seps[0]) && (toks != [] ==> seps[0] != [])
    ensures Render(seps, toks) != [] ==> IsSep(Render(seps, toks)[0])
  {
  }

  /** However the tokens of a line are spaced, they are found again. */
  lemma {:induction false} TokensOfRender(seps: seq<string>, toks: seq<string>)
    requires Separates(seps, |toks|) && forall i :: 0 <= i < |toks| ==> IsWord(toks[i])
    ensures Tokens(Render(seps, toks)) == toks
    decreases |toks|
  {
    if toks == [] {
      NoTokens(seps[0]);
    } else {
      TokensOfRender(seps[1..], toks[1..]);
      StartsWithSep(seps[1..], toks[1..]);
      TokensCons(seps[0], toks[0], Render(seps[1..], toks[1..]));
    }
  }

  /** Every line is its own tokens, spaced in some way. */
  lemma {:induction false} RenderOfTokens(line: string) returns (seps: seq<string>)
    ensures Separates(seps, |Tokens(line)|) && Render(seps, Tokens(line)) == line
    ensures line != [] && IsSep(line[0]) ==> seps[0] != []
    decreases |line|
  {
    var n := SepRun(line);
    var r := line[n..];
    if r == [] {
      seps := [line];
      assert line == line[..n];
      NoTokens(line);
    } else {
      var m := n + WordRun(r);
      Slices(line, n, m);
      FirstToken(line, n, r, m - n, line[n..m], line[m..]);
      var more := RenderOfTokens(line[m..]);
      seps := [line[..n]] + more;
      if line[m..] == [] {
        NoTokens(line[m..]);
      }
      RenderFront(line, n, m, more, Tokens(line[m..]));
    }
  }

  lemma {:induction false} RenderFront(line: string, n: nat, m: nat, seps: seq<string>, toks: seq<string>)
    requires n <= m <= |line| && AllSeps(line[..n]) && Separates(seps, |toks|)
    requires Render(seps, toks) == line[m..] && (toks != [] ==> seps[0] != [])
    ensures Separates([line[..n]] + seps, |toks| + 1)
    ensures Render([line[..n]] + seps, [line[n..m]] + toks) == line
  {
    RenderCons(line[..n], line[n..m], seps, toks);
    assert line[..n] + (line[n..m] + line[m..]) == line;
  }

  lemma {:induction false} RenderCons(sep: string, word: string, seps: seq<string>, toks: seq<string>)
    requires |seps| == |toks| + 1
    ensures Render([sep] + seps, [word] + toks) == sep + (word + Render(seps, toks))
  {
    assert ([sep] + seps)[1..] == seps && ([word] + toks)[1..] == toks;
  }

  // ---- Words of a command

  function Upper(c: char): char {
    if 'a' <= c <= 'z' then (c as int - 'a' as int + 'A' as int) as char else c
  }

  function UpperAll(s: string): (r: string)
    ensures |r| == |s| && forall i :: 0 <= i < |s| ==> r[i] == Upper(s[i])
  {
    seq(|s|, i requires 0 <= i < |s| => Upper(s[i]))
  }

  const SMALL: string := "abcdefghijklmnopqrstuvwxyz"
  const CAPITAL: string := "ABCDEFGHIJKLMNOPQRSTUVWXYZ"

  /** Letter by letter, and nothing else changes. */
  lemma UpperTable(c: char)
    ensures forall i :: 0 <= i < 26 ==> Upper(SMALL[i]) == CAPITAL[i]
    ensures c !in SMALL ==> Upper(c) == c
  {
    assert 'a' <= c <= 'z' ==> c == SMALL[c as int - 'a' as int];
  }

  method ToUpper(text: string) returns (out: string)
    ensures out == UpperAll(text)
  {
    out := text;
    for i := 0 to |text|
      invariant |out| == |text|
      invariant forall j :: 0 <= j < i ==> out[j] == Upper(text[j])
      invariant forall j :: i <= j < |text| ==> out[j] == text[j]
    {
      if 'a' <= out[i] <= 'z' {
        out := out[i := (out[i] as int - 'a' as int + 'A' as int) as char];
      }
    }
  }

  /** The whole text as a 64-bit integer: an optional minus sign and digits, no more. */
  function ParseInteger(text: string): Option<int> {
    var digits := if text != [] && text[0] == '-' then text[1..] else text;
    if digits == [] || !AllDigits(digits) then None else
    var n := if text[0] == '-' then 0 - NumberOf(digits) else NumberOf(digits);
    if -MAX_LONG - 1 <= n <= MAX_LONG then Some(n) else None
  }

  function CommandName(kind: Kind): string {
    match kind
    case SET => "SET"
    case GET => "GET"
    case DELETE => "DELETE"
    case EXISTS => "EXISTS"
    case TTL => "TTL"
    case PING => "PING"
    case SAVE => "SAVE"
    case LOAD => "LOAD"
    case QUIT => "QUIT"
  }

  function KindOf(verb: string): Option<Kind> {
    if verb == "SET" then Some(SET)
    else if verb == "GET" then Some(GET)
    else if verb == "DELETE" || verb == "DEL" then Some(DELETE)
    else if verb == "EXISTS" then Some(EXISTS)
    else if verb == "TTL" then Some(TTL)
    else if verb == "PING" then Some(PING)
    else if verb == "SAVE" then Some(SAVE)
    else if verb == "LOAD" then Some(LOAD)
    else if verb == "QUIT" then Some(QUIT)
    else None
  }

  predicate TakesKey(kind: Kind) {
    kind == GET || kind == DELETE || kind == EXISTS || kind == TTL
  }

  // ---- The parser

  function ParseSet(toks: seq<string>): ParseResult {
    if |toks| < 3 || |toks| > 4 then Err(WrongArity(SET))
    else if |toks| == 3 then Ok(Command(SET, toks[1], toks[2], None))
    else
      var seconds := ParseInteger(toks[3]);
      if seconds.None? then Err(InvalidTtl(toks[3]))
      else if seconds.value < 0 then Err(NegativeTtl)
      else if seconds.value > MAX_TTL_SECONDS then Err(TtlTooLarge)
      else Ok(Command(SET, toks[1], toks[2], seconds))
  }

  function ParseTokens(toks: seq<string>): ParseResult {
    if toks == [] then Err(EmptyCommand) else
    match KindOf(UpperAll(toks[0]))
    case None => Err(UnknownCommand(toks[0]))
    case Some(kind) =>
      if kind == SET then ParseSet(toks)
      else if TakesKey(kind) then
        if |toks| == 2 then Ok(Command(kind, toks[1], "", None)) else Err(WrongArity(kind))
      else
        if |toks| == 1 then Ok(Command(kind, "", "", None)) else Err(WrongArity(kind))
  }

  function ParseCommand(line: string): ParseResult {
    ParseTokens(Tokens(line))
  }

  // ---- Round trip

  /** What a command can be: separator-free nonempty arguments where its kind takes them,
      and a time to live in range. */
  predicate WellFormed(c: Command) {
    && (if c.kind == SET || TakesKey(c.kind) then IsWord(c.key) else c.key == "")
    && (if c.kind == SET then IsWord(c.value) else c.value == "")
    && (c.ttl.Some? ==> c.kind == SET && 0 <= c.ttl.value <= MAX_TTL_SECONDS)
  }

  /** The words of a command, given a spelling of its verb and of its time to live. */
  function Spelling(c: Command, verb: string, numeral: string): seq<string> {
    [verb] + (if c.kind == SET || TakesKey(c.kind) then [c.key] else []) +
    (if c.kind == SET then [c.value] else []) + (if c.ttl.Some? then [numeral] else [])
  }

  /** The verb is the command's name in some letter case, or the short form of DELETE. */
  predicate Names(verb: string, kind: Kind) {
    UpperAll(verb) == CommandName(kind) || (kind == DELETE && UpperAll(verb) == "DEL")
  }

  predicate Spells(c: Command, verb: string, numeral: string) {
    Names(verb, c.kind) && (c.ttl.Some? ==> Denotes(numeral, c.ttl.value))
  }

  lemma {:induction false} NameInAnyCase(kind: Kind, verb: string)
    requires Names(verb, kind)
    ensures IsWord(verb) && KindOf(UpperAll(verb)) == Some(kind)
  {
    forall i | 0 <= i < |verb| ensures !IsSep(verb[i]) {
      assert Upper(verb[i]) == UpperAll(verb)[i];
      assert !IsSep(UpperAll(verb)[i]);
    }
  }

  lemma OnlyNames(kind: Kind, verb: string)
    requires KindOf(UpperAll(verb)) == Some(kind)
    ensures Names(verb, kind)
  {
  }

  /** The documented names. */
  lemma CommandTable()
    ensures KindOf("SET") == Some(SET) && KindOf("GET") == Some(GET) && KindOf("DELETE") == Some(DELETE)
    ensures KindOf("DEL") == Some(DELETE) && KindOf("EXISTS") == Some(EXISTS) && KindOf("TTL") == Some(TTL)
    ensures KindOf("PING") == Some(PING) && KindOf("QUIT") == Some(QUIT)
    ensures KindOf("SAVE") == Some(SAVE) && KindOf("LOAD") == Some(LOAD)
  {
  }

  /** The number parser accepts exactly the numerals of 64-bit integers. */
  lemma {:induction false} ParsesNumeralIff(numeral: string, n: int)
    ensures ParseInteger(numeral) == Some(n) <==> Denotes(numeral, n) && -MAX_LONG - 1 <= n <= MAX_LONG
  {
    if numeral != [] && numeral[0] == '-' {
      assert !AllDigits(numeral);
    }
  }

  lemma {:induction false} NumeralIsWord(numeral: string, n: int)
    requires Denotes(numeral, n)
    ensures IsWord(numeral)
  {
    if numeral[0] == '-' {
      assert forall i :: 1 <= i < |numeral| ==> numeral[i] == numeral[1..][i - 1];
    }
  }

  lemma {:induction false} ParsesSpelling(c: Command, verb: string, numeral: string)
    requires WellFormed(c) && Spells(c, verb, numeral)
    ensures ParseTokens(Spelling(c, verb, numeral)) == Ok(c)
  {
    NameInAnyCase(c.kind, verb);
    if c.ttl.Some? {
      ParsesNumeralIff(numeral, c.ttl.value);
    }
  }

  lemma {:induction false} SpelledByTokens(toks: seq<string>) returns (verb: string, numeral: string)
    requires (forall i :: 0 <= i < |toks| ==> IsWord(toks[i])) && ParseTokens(toks).Ok?
    ensures var c := ParseTokens(toks).command;
            WellFormed(c) && Spells(c, verb, numeral) && toks == Spelling(c, verb, numeral)
  {
    var c := ParseTokens(toks).command;
    verb, numeral := toks[0], if |toks| == 4 then toks[3] else "";
    OnlyNames(c.kind, verb);
    if c.ttl.Some? {
      ParsesNumeralIff(numeral, c.ttl.value);
    }
  }

  lemma {:induction false} SpellingWords(c: Command, verb: string, numeral: string)
    requires WellFormed(c) && Spells(c, verb, numeral)
    ensures forall i :: 0 <= i < |Spelling(c, verb, numeral)| ==> IsWord(Spelling(c, verb, numeral)[i])
  {
    NameInAnyCase(c.kind, verb);
    if c.ttl.Some? {
      NumeralIsWord(numeral, c.ttl.value);
    }
  }

  /** Any command, its verb the command's name in any letter case, its arguments spaced by
      any runs of spaces and tabs, is parsed back to exactly that command. */
  lemma {:induction false} ParserRoundTrip(c: Command, verb: string, numeral: string, seps: seq<string>)
    requires WellFormed(c) && Spells(c, verb, numeral) && Separates(seps, |Spelling(c, verb, numeral)|)
    ensures ParseCommand(Render(seps, Spelling(c, verb, numeral))) == Ok(c)
  {
    SpellingWords(c, verb, numeral);
    TokensOfRender(seps, Spelling(c, verb, numeral));
    ParsesSpelling(c, verb, numeral);
  }

  /** In particular with the time to live printed in decimal. */
  lemma {:induction false} PrintedRoundTrip(c: Command, verb: string, seps: seq<string>)
    requires WellFormed(c) && UpperAll(verb) == CommandName(c.kind)
    requires var numeral := if c.ttl.Some? then Signed(c.ttl.value) else "";
             Separates(seps, |Spelling(c, verb, numeral)|)
    ensures var numeral := if c.ttl.Some? then Signed(c.ttl.value) else "";
            ParseCommand(Render(seps, Spelling(c, verb, numeral))) == Ok(c)
  {
    if c.ttl.Some? {
      SignedDenotes(c.ttl.value);
    }
    ParserRoundTrip(c, verb, if c.ttl.Some? then Signed(c.ttl.value) else "", seps);
  }

  /** Every accepted line is such a spelling of the command it was parsed to; nothing
      else is accepted. */
  lemma {:induction false} ParserSound(line: string) returns (verb: string, numeral: string, seps: seq<string>)
    requires ParseCommand(line).Ok?
    ensures var c := ParseCommand(line).command;
            && WellFormed(c) && Spells(c, verb, numeral)
            && Separates(seps, |Spelling(c, verb, numeral)|) && line == Render(seps, Spelling(c, verb, numeral))
  {
    verb, numeral := SpelledByTokens(Tokens(line));
    seps := RenderOfTokens(line);
  }

  // ---- Refused lines

  predicate IsName(verb: string) {
    exists kind :: Names(verb, kind)
  }

  /** How many words a command of this kind may have, its name included. */
  predicate Arity(kind: Kind, words: nat) {
    match kind
    case SET => words == 3 || words == 4
    case GET | DELETE | EXISTS | TTL => words == 2
    case PING | SAVE | LOAD | QUIT => words == 1
  }

  /** The words of a SET with a time to live, which denotes `n`. */
  predicate SetsFor(toks: seq<string>, n: int) {
    |toks| == 4 && Names(toks[0], SET) && Denotes(toks[3], n) && -MAX_LONG - 1 <= n <= MAX_LONG
  }

  lemma {:induction false} KindIsNamed(verb: string)
    ensures match KindOf(UpperAll(verb))
            case None => !IsName(verb)
            case Some(kind) => IsName(verb) && forall k :: Names(verb, k) <==> k == kind
  {
    forall k | Names(verb, k) ensures KindOf(UpperAll(verb)) == Some(k) {
      NameInAnyCase(k, verb);
    }
    if KindOf(UpperAll(verb)).Some? {
      OnlyNames(KindOf(UpperAll(verb)).value, verb);
    }
  }

  /** What the words must be for each refusal by name or by number of words. */
  lemma {:induction false} RefusedWords(toks: seq<string>, verb: string, kind: Kind)
    ensures ParseTokens(toks) == Err(EmptyCommand) <==> toks == []
    ensures ParseTokens(toks) == Err(UnknownCommand(verb)) <==> toks != [] && toks[0] == verb && !IsName(verb)
    ensures ParseTokens(toks) == Err(WrongArity(kind)) <==>
            toks != [] && Names(toks[0], kind) && !Arity(kind, |toks|)
  {
    if toks != [] {
      KindIsNamed(toks[0]);
    }
  }

  /** ... and for each refusal of a time to live. */
  lemma {:induction false} RefusedTtl(toks: seq<string>, token: string)
    ensures ParseTokens(toks) == Err(InvalidTtl(token)) <==>
            |toks| == 4 && Names(toks[0], SET) && toks[3] == token && forall n :: !SetsFor(toks, n)
    ensures ParseTokens(toks) == Err(NegativeTtl) <==> exists n :: SetsFor(toks, n) && n < 0
    ensures ParseTokens(toks) == Err(TtlTooLarge) <==> exists n :: SetsFor(toks, n) && n > 10 * 365 * 24 * 60 * 60
  {
    if toks != [] {
      KindIsNamed(toks[0]);
    }
    if |toks| == 4 && Names(toks[0], SET) {
      forall n ensures SetsFor(toks, n) <==> ParseInteger(toks[3]) == Some(n) {
        ParsesNumeralIff(toks[3], n);
      }
      if ParseInteger(toks[3]).Some? {
        assert SetsFor(toks, ParseInteger(toks[3]).value);
      }
    }
  }

  /** A line without any word is one of separators only. */
  lemma {:induction false} BlankIff(line: string)
    ensures Tokens(line) == [] <==> AllSeps(line)
  {
    if AllSeps(line) {
      NoTokens(line);
    } else {
      var seps := RenderOfTokens(line);
    }
  }

  // ---- The parser as a method

  /** The number of arguments is checked by kind, the time to live last. */
  method ParseLine(line: string) returns (r: ParseResult)
    ensures r == ParseCommand(line)
  {
    var tokens := Tokenize(line);
    if tokens == [] {
      return Err(EmptyCommand);
    }
    var verb := ToUpper(tokens[0]);
    var kind := KindOf(verb);
    if kind.None? {
      return Err(UnknownCommand(tokens[0]));
    }
    if kind.value == SET {
      return ParseSet(tokens);
    }
    if TakesKey(kind.value) {
      return if |tokens| == 2 then Ok(Command(kind.value, tokens[1], "", None)) else Err(WrongArity(kind.value));
    }
    return if |tokens| == 1 then Ok(Command(kind.value, "", "", None)) else Err(WrongArity(kind.value));
  }
}
