/** The snapshot file: its writer, the stream reads of its parser, and the parser. */
module Snapshot {
  import opened Prelude
  import opened CacheModel
  import opened Decimal

  const MAGIC: string := "CACHEX-SNAPSHOT"
  const NO_EXPIRY: int := -1
  const MIN_RECORD_BYTES: int := 7
  const MAX_INT: int := 0x7fff_ffff

  datatype Record = Record(key: string, value: string, ttl: int)

  function RecordOf(e: EntrySnapshot): Record {
    Record(e.key, e.value, if e.remainingTtl.Some? then e.remainingTtl.value else NO_EXPIRY)
  }

  // ---- The writer

  function RecordText(r: Record): (s: string)
    ensures |s| >= MIN_RECORD_BYTES + |r.key| + |r.value|
  {
    Dec(|r.key|) + " " + Dec(|r.value|) + " " + Signed(r.ttl) + "\n" + r.key + r.value + "\n"
  }

  function Body(records: seq<Record>): (s: string)
    ensures |s| >= MIN_RECORD_BYTES * |records|
  {
    if records == [] then "" else RecordText(records[0]) + Body(records[1..])
  }

  function HeaderText(savedAt: int, count: nat): string {
    MAGIC + " " + Dec(1) + " " + Signed(savedAt) + "\n" + Dec(count) + "\n"
  }

  function FileText(savedAt: int, records: seq<Record>): string {
    HeaderText(savedAt, |records|) + Body(records)
  }

  lemma {:induction false} BodyConcat(rs: seq<Record>, r: Record)
    ensures Body(rs + [r]) == Body(rs) + RecordText(r)
  {
    if rs == [] {
      assert [r][1..] == [];
    } else {
      assert (rs + [r])[1..] == rs[1..] + [r];
      BodyConcat(rs[1..], r);
    }
  }

  function RecordsOf(entries: seq<EntrySnapshot>): (r: seq<Record>)
    ensures |r| == |entries|
    ensures forall i :: 0 <= i < |r| ==> r[i] == RecordOf(entries[i])
  {
    seq(|entries|, i requires 0 <= i < |entries| => RecordOf(entries[i]))
  }

  method WriteRecord(e: EntrySnapshot) returns (out: string)
    ensures out == RecordText(RecordOf(e))
  {
    var ttl := if e.remainingTtl.Some? then e.remainingTtl.value else NO_EXPIRY;
    out := Dec(|e.key|) + " " + Dec(|e.value|) + " " + Signed(ttl) + "\n";
    out := out + e.key;
    out := out + e.value;
    out := out + "\n";
  }

  method WriteBody(entries: seq<EntrySnapshot>) returns (out: string)
    ensures out == Body(RecordsOf(entries))
  {
    out := "";
    ghost var all := RecordsOf(entries);
    for i := 0 to |entries|
      invariant out == Body(all[..i])
    {
      var record := WriteRecord(entries[i]);
      BodyConcat(all[..i], all[i]);
      assert all[..i + 1] == all[..i] + [all[i]];
      out := out + record;
    }
    assert all[..|entries|] == all;
  }

  method Write(savedAt: int, entries: seq<EntrySnapshot>) returns (out: string)
    ensures out == FileText(savedAt, RecordsOf(entries))
  {
    out := MAGIC + " " + Dec(1) + " " + Signed(savedAt) + "\n" + Dec(|entries|) + "\n";
    var body := WriteBody(entries);
    out := out + body;
  }

  // ---- Stream reads

  /** An input stream: what is left to read, the size of the file, and the two flags.
      Once a flag is up every further read fails. */
  datatype Stream = Stream(rest: string, size: nat, eof: bool, fail: bool)

  predicate Ready(st: Stream) {
    !st.eof && !st.fail
  }

  predicate IsSpace(c: char) {
    c == ' ' || c == '\t' || c == '\n' || c == '\r' || c == 11 as char || c == 12 as char
  }

  function SkipSpace(s: string): (r: string)
    ensures |r| <= |s| && (r != [] ==> !IsSpace(r[0]))
  {
    if s != [] && IsSpace(s[0]) then SkipSpace(s[1..]) else s
  }

  function WordLength(s: string): (n: nat)
    ensures n <= |s|
  {
    if s == [] || IsSpace(s[0]) then 0 else 1 + WordLength(s[1..])
  }

  /** `in >> word` */
  function ReadWord(st: Stream): (Stream, string) {
    if !Ready(st) then (st.(fail := true), "") else
    var r := SkipSpace(st.rest);
    if r == [] then (Stream([], st.size, true, true), "") else
    var n := WordLength(r);
    (Stream(r[n..], st.size, n == |r|, false), r[..n])
  }

  /** An optional sign and the digits after it: what follows, how many digits, the number. */
  function ScanInt(s: string): (string, nat, int)
    requires s != []
  {
    var (rest, n, v) := ScanNat(if s[0] == '-' || s[0] == '+' then s[1..] else s);
    (rest, n, if s[0] == '-' then 0 - v else v)
  }

  /** `in >> number`, for a signed type with largest value `max` */
  function ReadInt(st: Stream, max: int): (Stream, int) {
    if !Ready(st) then (st.(fail := true), 0) else
    var r := SkipSpace(st.rest);
    if r == [] then (Stream([], st.size, true, true), 0) else
    var (rest, n, v) := ScanInt(r);
    (Stream(rest, st.size, rest == [], n == 0 || !(-max - 1 <= v <= max)), v)
  }

  /** `in.get()` */
  function GetChar(st: Stream): (Stream, Option<char>) {
    if !Ready(st) then (st.(fail := true), None)
    else if st.rest == [] then (st.(eof := true, fail := true), None)
    else (st.(rest := st.rest[1..]), Some(st.rest[0]))
  }

  /** `read_exact` */
  function ReadExact(st: Stream, n: nat): (Stream, Option<string>) {
    if n == 0 then (st, Some(""))
    else if !Ready(st) then (st.(fail := true), None)
    else if |st.rest| < n then (Stream([], st.size, true, true), None)
    else (st.(rest := st.rest[n..]), Some(st.rest[..n]))
  }

  /** The file size minus `tellg()`, which is -1 on a stream with a flag up. */
  function BytesLeft(st: Stream): nat {
    if Ready(st) then |st.rest| else st.size + 1
  }

  // ---- The parser

  /** The line in front of a record: two lengths, the remaining time, a newline. */
  function ParseSizes(st: Stream): Option<(nat, nat, int, Stream)> {
    var (s1, keyLen) := ReadInt(st, MAX_LONG);
    var (s2, valueLen) := ReadInt(s1, MAX_LONG);
    var (s3, ttl) := ReadInt(s2, MAX_LONG);
    if s3.fail || keyLen < 0 || valueLen < 0 then None else
    var (s4, c) := GetChar(s3);
    if c != Some('\n') || keyLen > st.size || valueLen > st.size - keyLen then None
    else Some((keyLen, valueLen, ttl, s4))
  }

  function ParsePayload(st: Stream, keyLen: nat, valueLen: nat): Option<(string, string, Stream)> {
    var (s1, key) := ReadExact(st, keyLen);
    if key.None? then None else
    var (s2, value) := ReadExact(s1, valueLen);
    if value.None? then None else
    var (s3, c) := GetChar(s2);
    if c != Some('\n') then None else Some((key.value, value.value, s3))
  }

  function ParseRecord(st: Stream): Option<(Record, Stream)> {
    match ParseSizes(st)
    case None => None
    case Some((keyLen, valueLen, ttl, st')) =>
      match ParsePayload(st', keyLen, valueLen)
      case None => None
      case Some((key, value, end)) => Some((Record(key, value, ttl), end))
  }

  type Reader = Stream -> Option<(Record, Stream)>

  /** `count` reads in a row, all of which must succeed. */
  function ReadMany(one: Reader, st: Stream, count: nat): Option<(seq<Record>, Stream)>
    decreases count
  {
    if count == 0 then Some(([], st)) else
    match one(st)
    case None => None
    case Some((r, st')) =>
      match ReadMany(one, st', count - 1)
      case None => None
      case Some((rs, end)) => Some(([r] + rs, end))
  }

  function ParseRecords(st: Stream, count: nat): Option<(seq<Record>, Stream)> {
    ReadMany(ParseRecord, st, count)
  }

  datatype Decoded = Rejected | Accepted(savedAt: int, records: seq<Record>)

  /** The header and the count: the save time, the count, and the stream after them. */
  function ParseHeader(file: string): Option<(int, nat, Stream)> {
    var (s1, magic) := ReadWord(Stream(file, |file|, false, false));
    var (s2, version) := ReadInt(s1, MAX_INT);
    var (s3, savedAt) := ReadInt(s2, MAX_LONG);
    if s3.fail || magic != MAGIC || version != 1 then None else
    var (s4, count) := ReadInt(s3, MAX_LONG);
    if s4.fail || count < 0 then None else
    Some((savedAt, count, GetChar(s4).0))
  }

  function Decode(file: string): Decoded {
    match ParseHeader(file)
    case None => Rejected
    case Some((savedAt, count, st)) =>
      if count > BytesLeft(st) / MIN_RECORD_BYTES then Rejected else
      match ParseRecords(st, count)
      case None => Rejected
      case Some((records, _)) => Accepted(savedAt, records)
  }

  method ReadHeader(file: string) returns (h: Option<(int, nat, Stream)>)
    ensures h == ParseHeader(file)
  {
    var st := Stream(file, |file|, false, false);
    var magic, version, savedAt, count;
    st, magic := ReadWord(st).0, ReadWord(st).1;
    st, version := ReadInt(st, MAX_INT).0, ReadInt(st, MAX_INT).1;
    st, savedAt := ReadInt(st, MAX_LONG).0, ReadInt(st, MAX_LONG).1;
    if st.fail || magic != MAGIC || version != 1 {
      return None;
    }
    st, count := ReadInt(st, MAX_LONG).0, ReadInt(st, MAX_LONG).1;
    if st.fail || count < 0 {
      return None;
    }
    return Some((savedAt, count, GetChar(st).0));
  }

  method ReadRecords(begin: Stream, count: nat) returns (records: Option<seq<Record>>)
    ensures var r := ParseRecords(begin, count);
            records == if r.None? then None else Some(r.value.0)
  {
    var st := begin;
    var parsed: seq<Record> := [];
    PrependNone(ParseRecords(begin, count));
    for i := 0 to count
      invariant ParseRecords(begin, count) == Prepend(parsed, ParseRecords(st, count - i))
    {
      var r := ParseRecord(st);
      if r.None? {
        return None;
      }
      PrependTwice(parsed, r.value.0, ParseRecords(r.value.1, count - i - 1));
      parsed, st := parsed + [r.value.0], r.value.1;
    }
    assert parsed + [] == parsed;
    return Some(parsed);
  }

  /** The loader's parsing half: everything is read before anything is applied. */
  method Parse(file: string) returns (d: Decoded)
    ensures d == Decode(file)
  {
    var h := ReadHeader(file);
    if h.None? {
      return Rejected;
    }
    var (savedAt, count, st) := h.value;
    if count > BytesLeft(st) / MIN_RECORD_BYTES {
      return Rejected;
    }
    var records := ReadRecords(st, count);
    return if records.None? then Rejected else Accepted(savedAt, records.value);
  }

  function Prepend(rs: seq<Record>, r: Option<(seq<Record>, Stream)>): Option<(seq<Record>, Stream)> {
    match r
    case None => None
    case Some((more, end)) => Some((rs + more, end))
  }

  lemma {:induction false} PrependNone(r: Option<(seq<Record>, Stream)>)
    ensures Prepend([], r) == r
  {
    if r.Some? {
      assert [] + r.value.0 == r.value.0;
    }
  }

  lemma {:induction false} PrependTwice(rs: seq<Record>, r: Record, tail: Option<(seq<Record>, Stream)>)
    ensures Prepend(rs, Prepend([r], tail)) == Prepend(rs + [r], tail)
  {
    if tail.Some? {
      assert rs + ([r] + tail.value.0) == rs + [r] + tail.value.0;
    }
  }
}
