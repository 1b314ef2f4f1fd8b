/** Which files a load accepts and what it reads in them, told by their bytes alone. */
module SnapshotGrammar {
  import opened Prelude
  import opened Decimal
  import opened CacheModel
  import opened Snapshot
  import opened SnapshotFormat

  // ---- The grammar

  predicate White(c: char) {
    c in [' ', '\t', '\n', '\r', 11 as char, 12 as char]
  }

  predicate Blank(s: string) {
    forall i :: 0 <= i < |s| ==> White(s[i])
  }

  /** Digits that denote the number, with or without a sign. */
  predicate Numeral(s: string, n: int) {
    Denotes(s, n) || (|s| > 1 && s[0] == '+' && AllDigits(s[1..]) && NumberOf(s[1..]) == n)
  }

  /** White space, which may be missing, and a numeral. */
  datatype Field = Field(blank: string, numeral: string)

  function FieldText(f: Field): string {
    f.blank + f.numeral
  }

  predicate Spells(f: Field, n: int, max: int) {
    Blank(f.blank) && Numeral(f.numeral, n) && -max - 1 <= n <= max
  }

  /** Set off from the digits before it, by white space or by its sign. */
  predicate SetOff(f: Field) {
    f.blank != "" || (f.numeral != "" && (f.numeral[0] == '+' || f.numeral[0] == '-'))
  }

  /** How the three numbers of a record are written. */
  datatype RecordForm = RecordForm(keyLen: Field, valueLen: Field, ttl: Field)

  predicate RecordSpelled(f: RecordForm, r: Record) {
    && Spells(f.keyLen, |r.key|, MAX_LONG)
    && Spells(f.valueLen, |r.value|, MAX_LONG) && SetOff(f.valueLen)
    && Spells(f.ttl, r.ttl, MAX_LONG) && SetOff(f.ttl)
  }

  /** A record and what follows it. */
  function RecordBytes(f: RecordForm, r: Record, rest: string): (s: string)
    ensures |s| >= |rest|
  {
    FieldText(f.keyLen) + (FieldText(f.valueLen) + (FieldText(f.ttl) +
      ("\n" + (r.key + (r.value + ("\n" + rest))))))
  }

  function BodyBytes(forms: seq<RecordForm>, records: seq<Record>, rest: string): string
    requires |forms| == |records|
  {
    if records == [] then rest
    else RecordBytes(forms[0], records[0], BodyBytes(forms[1..], records[1..], rest))
  }

  predicate BodySpelled(forms: seq<RecordForm>, records: seq<Record>) {
    |forms| == |records| && forall i :: 0 <= i < |records| ==> RecordSpelled(forms[i], records[i])
  }

  /** White space before the magic word, three numbers after it, the one byte that ends the
      count, the numbers of the records, and whatever follows the last record. */
  datatype FileForm = FileForm(blank: string, version: Field, stamp: Field, count: Field, gap: string,
                               forms: seq<RecordForm>, trailing: string)

  function FileBytes(f: FileForm, records: seq<Record>): string
    requires |f.forms| == |records|
  {
    f.blank + ("CACHEX-SNAPSHOT" + (FieldText(f.version) + (FieldText(f.stamp) + (FieldText(f.count) +
      (f.gap + BodyBytes(f.forms, records, f.trailing))))))
  }

  /** The count may be the end of the file, if it is zero. */
  predicate GapSpelled(f: FileForm) {
    if f.gap == "" then f.forms == [] && f.trailing == "" else |f.gap| == 1 && !IsDigit(f.gap[0])
  }

  predicate HeadSpelled(f: FileForm, savedAt: int, count: nat) {
    && Blank(f.blank)
    && Spells(f.version, 1, MAX_INT) && f.version.blank != ""
    && Spells(f.stamp, savedAt, MAX_LONG) && SetOff(f.stamp)
    && Spells(f.count, count, MAX_LONG) && SetOff(f.count)
  }

  predicate FileSpelled(f: FileForm, savedAt: int, records: seq<Record>) {
    HeadSpelled(f, savedAt, |records|) && BodySpelled(f.forms, records) && GapSpelled(f)
  }

  // ---- Numbers

  lemma {:induction false} SkipBlank(blank: string, s: string)
    requires Blank(blank) && s != [] && !IsSpace(s[0])
    ensures SkipSpace(blank + s) == s
  {
    if blank == [] {
      assert blank + s == s;
    } else {
      assert (blank + s)[1..] == blank[1..] + s;
      SkipBlank(blank[1..], s);
    }
  }

  lemma {:induction false} SkipSplits(s: string) returns (blank: string)
    ensures Blank(blank) && s == blank + SkipSpace(s)
  {
    blank := [];
    if s != [] && IsSpace(s[0]) {
      var more := SkipSplits(s[1..]);
      blank := [s[0]] + more;
    }
  }

  lemma {:induction false} ScansDigits(digits: string, tail: string)
    requires digits != [] && AllDigits(digits) && (tail != [] ==> !IsDigit(tail[0]))
    ensures ScanNat(digits + tail) == (tail, |digits|, NumberOf(digits))
  {
    DigitRunUnique(digits, tail);
    assert (digits + tail)[..|digits|] == digits && (digits + tail)[|digits|..] == tail;
  }

  lemma {:induction false} ScansNumeral(s: string, n: int, tail: string)
    requires Numeral(s, n) && (tail != [] ==> !IsDigit(tail[0]))
    ensures var text := s + tail;
            && text != [] && !IsSpace(text[0])
            && ScanInt(text).0 == tail && ScanInt(text).1 > 0 && ScanInt(text).2 == n
  {
    if s[0] == '-' || s[0] == '+' {
      assert (s + tail)[1..] == s[1..] + tail;
      ScansDigits(s[1..], tail);
    } else {
      ScansDigits(s, tail);
    }
  }

  /** A field is read back, and nothing after it is. */
  lemma {:induction false} ReadsField(st: Stream, f: Field, n: int, max: int, tail: string)
    requires Ready(st) && Spells(f, n, max) && st.rest == FieldText(f) + tail
    requires tail != [] ==> !IsDigit(tail[0])
    ensures ReadInt(st, max) == (Stream(tail, st.size, tail == [], false), n)
  {
    ScansNumeral(f.numeral, n, tail);
    Assoc(f.blank, f.numeral, tail);
    SkipBlank(f.blank, f.numeral + tail);
  }

  lemma {:induction false} NumeralScanned(r: string) returns (numeral: string)
    requires r != [] && ScanInt(r).1 > 0
    ensures Numeral(numeral, ScanInt(r).2) && r == numeral + ScanInt(r).0
    ensures ScanInt(r).0 != [] ==> !IsDigit(ScanInt(r).0[0])
  {
    var sign := r[0] == '-' || r[0] == '+';
    var s := if sign then r[1..] else r;
    var n := DigitRun(s);
    numeral := if sign then [r[0]] + s[..n] else s[..n];
    if sign {
      assert numeral[1..] == s[..n];
    }
  }

  /** ... and what is read is a field. */
  lemma {:induction false} FieldRead(st: Stream, max: int) returns (f: Field, tail: string)
    requires !ReadInt(st, max).0.fail
    ensures Ready(st) && Spells(f, ReadInt(st, max).1, max) && st.rest == FieldText(f) + tail
    ensures tail != [] ==> !IsDigit(tail[0])
    ensures ReadInt(st, max).0 == Stream(tail, st.size, tail == [], false)
  {
    var blank := SkipSplits(st.rest);
    var r := SkipSpace(st.rest);
    var numeral := NumeralScanned(r);
    f, tail := Field(blank, numeral), ScanInt(r).0;
    Assoc(blank, numeral, tail);
  }

  lemma {:induction false} NotDigit(f: Field, n: int, max: int, tail: string)
    requires Spells(f, n, max) && SetOff(f)
    ensures FieldText(f) + tail != [] && !IsDigit((FieldText(f) + tail)[0])
  {
    assert f.blank != "" ==> White(f.blank[0]) && (FieldText(f) + tail)[0] == f.blank[0];
  }

  /** A field that does not start with a digit is set off. */
  lemma {:induction false} FieldSetOff(f: Field, n: int, max: int, tail: string)
    requires Spells(f, n, max) && !IsDigit((FieldText(f) + tail)[0])
    ensures SetOff(f)
  {
    if f.blank == "" {
      assert (FieldText(f) + tail)[0] == f.numeral[0];
    }
  }

  // ---- Records

  lemma {:induction false} ReadsSpelledSizes(st: Stream, f: RecordForm, r: Record, rest: string)
    requires Ready(st) && RecordSpelled(f, r) && |r.key| + |r.value| <= st.size
    requires st.rest == FieldText(f.keyLen) + (FieldText(f.valueLen) + (FieldText(f.ttl) + ("\n" + rest)))
    ensures ParseSizes(st) == Some((|r.key|, |r.value|, r.ttl, st.(rest := rest)))
  {
    var u3 := "\n" + rest;
    var u2 := FieldText(f.ttl) + u3;
    var u1 := FieldText(f.valueLen) + u2;
    NotDigit(f.valueLen, |r.value|, MAX_LONG, u2);
    NotDigit(f.ttl, r.ttl, MAX_LONG, u3);
    ReadsField(st, f.keyLen, |r.key|, MAX_LONG, u1);
    ReadsField(st.(rest := u1), f.valueLen, |r.value|, MAX_LONG, u2);
    ReadsField(st.(rest := u2), f.ttl, r.ttl, MAX_LONG, u3);
    ReadsNewline(st.(rest := u3), rest);
  }

  /** A record is read back however its numbers are written. */
  lemma {:induction false} ReadsSpelled(st: Stream, f: RecordForm, r: Record, rest: string)
    requires Ready(st) && RecordSpelled(f, r) && st.rest == RecordBytes(f, r, rest) && |st.rest| <= st.size
    ensures ParseRecord(st) == Some((r, st.(rest := rest)))
  {
    var payload := r.key + (r.value + ("\n" + rest));
    ReadsSpelledSizes(st, f, r, payload);
    ReadsPayload(st.(rest := payload), r.key, r.value, rest);
  }

  lemma {:induction false} SizesRead(st: Stream) returns (f: RecordForm, rest: string)
    requires ParseSizes(st).Some?
    ensures var (keyLen, valueLen, ttl, st') := ParseSizes(st).value;
            && Ready(st) && st' == st.(rest := rest)
            && Spells(f.keyLen, keyLen, MAX_LONG)
            && Spells(f.valueLen, valueLen, MAX_LONG) && SetOff(f.valueLen)
            && Spells(f.ttl, ttl, MAX_LONG) && SetOff(f.ttl)
            && st.rest == FieldText(f.keyLen) + (FieldText(f.valueLen) + (FieldText(f.ttl) + ("\n" + rest)))
  {
    var s1 := ReadInt(st, MAX_LONG).0;
    var s2 := ReadInt(s1, MAX_LONG).0;
    var ttl, u3 := FieldRead(s2, MAX_LONG);
    var valueLen, u2 := FieldRead(s1, MAX_LONG);
    var keyLen, u1 := FieldRead(st, MAX_LONG);
    FieldSetOff(ttl, ReadInt(s2, MAX_LONG).1, MAX_LONG, u3);
    FieldSetOff(valueLen, ReadInt(s1, MAX_LONG).1, MAX_LONG, u2);
    f, rest := RecordForm(keyLen, valueLen, ttl), u3[1..];
    assert u3 == "\n" + rest;
  }

  lemma {:induction false} BytesRead(st: Stream, n: nat)
    requires Ready(st) && ReadExact(st, n).1.Some?
    ensures var (st', bytes) := ReadExact(st, n);
            |bytes.value| == n && st' == st.(rest := st'.rest) && st.rest == bytes.value + st'.rest
  {
    if n == 0 {
      assert st.rest == "" + st.rest;
    }
  }

  lemma {:induction false} PayloadRead(st: Stream, keyLen: nat, valueLen: nat)
    requires Ready(st) && ParsePayload(st, keyLen, valueLen).Some?
    ensures var (key, value, st') := ParsePayload(st, keyLen, valueLen).value;
            && |key| == keyLen && |value| == valueLen && st' == st.(rest := st'.rest)
            && st.rest == key + (value + ("\n" + st'.rest))
  {
    var s1 := ReadExact(st, keyLen).0;
    BytesRead(st, keyLen);
    BytesRead(s1, valueLen);
    var s2 := ReadExact(s1, valueLen).0;
    assert s2.rest == [s2.rest[0]] + s2.rest[1..];
  }

  /** What is read as a record is one. */
  lemma {:induction false} RecordRead(st: Stream) returns (f: RecordForm)
    requires ParseRecord(st).Some?
    ensures var (r, st') := ParseRecord(st).value;
            Ready(st) && st' == st.(rest := st'.rest) && RecordSpelled(f, r) && st.rest == RecordBytes(f, r, st'.rest)
  {
    var form, rest := SizesRead(st);
    f := form;
    var (keyLen, valueLen, _, st1) := ParseSizes(st).value;
    PayloadRead(st1, keyLen, valueLen);
  }

  /** Where the stream is before record `i`. */
  function StreamAt(st: Stream, forms: seq<RecordForm>, records: seq<Record>, rest: string, i: nat): Stream
    requires |forms| == |records| && i <= |records|
  {
    st.(rest := BodyBytes(forms[i..], records[i..], rest))
  }

  lemma {:induction false} BodyAt(forms: seq<RecordForm>, records: seq<Record>, rest: string, i: nat)
    requires |forms| == |records| && i < |records|
    ensures BodyBytes(forms[i..], records[i..], rest) ==
            RecordBytes(forms[i], records[i], BodyBytes(forms[i + 1..], records[i + 1..], rest))
  {
    assert forms[i..][1..] == forms[i + 1..] && records[i..][1..] == records[i + 1..];
  }

  lemma {:induction false} BodyShrinks(forms: seq<RecordForm>, records: seq<Record>, rest: string, i: nat)
    requires |forms| == |records| && i <= |records|
    ensures |BodyBytes(forms[i..], records[i..], rest)| <= |BodyBytes(forms, records, rest)|
  {
    if i == 0 {
      assert forms[0..] == forms && records[0..] == records;
    } else {
      BodyShrinks(forms, records, rest, i - 1);
      BodyAt(forms, records, rest, i - 1);
    }
  }

  lemma {:induction false} ReadsAt(st: Stream, forms: seq<RecordForm>, records: seq<Record>, rest: string, i: nat)
    requires BodySpelled(forms, records) && Ready(st) && i < |records|
    requires |BodyBytes(forms, records, rest)| <= st.size
    ensures ParseRecord(StreamAt(st, forms, records, rest, i)) ==
            Some((records[i], StreamAt(st, forms, records, rest, i + 1)))
  {
    BodyAt(forms, records, rest, i);
    BodyShrinks(forms, records, rest, i);
    ReadsSpelled(StreamAt(st, forms, records, rest, i), forms[i], records[i],
                 BodyBytes(forms[i + 1..], records[i + 1..], rest));
  }

  /** Reads that follow one another. */
  lemma {:induction false} ReadsAll(one: Reader, sts: seq<Stream>, records: seq<Record>)
    requires |sts| == |records| + 1
    requires forall i :: 0 <= i < |records| ==> one(sts[i]) == Some((records[i], sts[i + 1]))
    ensures ReadMany(one, sts[0], |records|) == Some((records, sts[|records|]))
    decreases |records|
  {
    if records != [] {
      forall i | 0 <= i < |records| - 1 ensures one(sts[1..][i]) == Some((records[1..][i], sts[1..][i + 1])) {
        assert one(sts[i + 1]) == Some((records[i + 1], sts[i + 2]));
      }
      ReadsAll(one, sts[1..], records[1..]);
      NextRecord(one, sts[0], records[0], sts[1], |records| - 1, records[1..], sts[|records|]);
      assert records == [records[0]] + records[1..];
    }
  }

  lemma {:induction false} ReadsBody(st: Stream, forms: seq<RecordForm>, records: seq<Record>, rest: string)
    requires BodySpelled(forms, records) && (records != [] ==> Ready(st))
    requires st.rest == BodyBytes(forms, records, rest) && |st.rest| <= st.size
    ensures ParseRecords(st, |records|) == Some((records, st.(rest := rest)))
  {
    var n := |records|;
    var sts := seq(n + 1, i requires 0 <= i <= n => StreamAt(st, forms, records, rest, i));
    forall i | 0 <= i < n ensures ParseRecord(sts[i]) == Some((records[i], sts[i + 1])) {
      ReadsAt(st, forms, records, rest, i);
    }
    ReadsAll(ParseRecord, sts, records);
    assert forms[0..] == forms && records[0..] == records && records[n..] == [];
  }

  /** `before` starts with a record, and `after` is what is left of it. */
  ghost predicate RecordOff(before: Stream, f: RecordForm, r: Record, after: Stream) {
    && Ready(before) && after == before.(rest := after.rest)
    && RecordSpelled(f, r) && before.rest == RecordBytes(f, r, after.rest)
  }

  /** The reader takes off nothing but records. */
  ghost predicate TakesOnlyRecords(one: Reader) {
    forall st :: one(st).Some? ==> exists f :: RecordOff(st, f, one(st).value.0, one(st).value.1)
  }

  lemma {:induction false} BodyCons(st: Stream, f: RecordForm, r: Record, st': Stream, forms: seq<RecordForm>,
                                    records: seq<Record>, rest: string)
    requires RecordOff(st, f, r, st') && BodySpelled(forms, records) && st'.rest == BodyBytes(forms, records, rest)
    ensures Ready(st) && BodySpelled([f] + forms, [r] + records)
    ensures st.rest == BodyBytes([f] + forms, [r] + records, rest)
  {
    assert ([f] + forms)[1..] == forms && ([r] + records)[1..] == records;
  }

  lemma {:induction false} AllRead(one: Reader, st: Stream, count: nat) returns (forms: seq<RecordForm>)
    requires TakesOnlyRecords(one) && ReadMany(one, st, count).Some?
    ensures var (records, end) := ReadMany(one, st, count).value;
            && |records| == count && BodySpelled(forms, records) && (count > 0 ==> Ready(st))
            && st.rest == BodyBytes(forms, records, end.rest)
    decreases count
  {
    forms := [];
    if count > 0 {
      var (r, st') := one(st).value;
      var f :| RecordOff(st, f, r, st');
      var more := AllRead(one, st', count - 1);
      var (records, end) := ReadMany(one, st', count - 1).value;
      BodyCons(st, f, r, st', more, records, end.rest);
      forms := [f] + more;
    }
  }

  lemma {:induction false} BodyRead(st: Stream, count: nat) returns (forms: seq<RecordForm>)
    requires ParseRecords(st, count).Some?
    ensures var (records, end) := ParseRecords(st, count).value;
            && |records| == count && BodySpelled(forms, records) && (count > 0 ==> Ready(st))
            && st.rest == BodyBytes(forms, records, end.rest)
  {
    forall st | ParseRecord(st).Some?
      ensures exists f :: RecordOff(st, f, ParseRecord(st).value.0, ParseRecord(st).value.1)
    {
      var f := RecordRead(st);
      assert RecordOff(st, f, ParseRecord(st).value.0, ParseRecord(st).value.1);
    }
    forms := AllRead(ParseRecord, st, count);
  }

  lemma {:induction false} BodyLength(forms: seq<RecordForm>, records: seq<Record>, rest: string)
    requires BodySpelled(forms, records)
    ensures |BodyBytes(forms, records, rest)| >= MIN_RECORD_BYTES * |records| + |rest|
    decreases |records|
  {
    if records != [] {
      BodyLength(forms[1..], records[1..], rest);
      FieldLength(forms[0].keyLen, |records[0].key|);
      FieldLength(forms[0].valueLen, |records[0].value|);
      FieldLength(forms[0].ttl, records[0].ttl);
    }
  }

  lemma FieldLength(f: Field, n: int)
    requires Spells(f, n, MAX_LONG)
    ensures |FieldText(f)| >= if SetOff(f) then 2 else 1
  {
  }

  // ---- Whole files

  lemma {:induction false} ReadsWord(st: Stream, blank: string, tail: string)
    requires Ready(st) && Blank(blank) && st.rest == blank + ("CACHEX-SNAPSHOT" + tail)
    requires tail != [] && White(tail[0])
    ensures ReadWord(st) == (st.(rest := tail), MAGIC)
  {
    SkipBlank(blank, MAGIC + tail);
    WordUnique(MAGIC, tail);
    assert (MAGIC + tail)[..|MAGIC|] == MAGIC && (MAGIC + tail)[|MAGIC|..] == tail;
  }

  lemma {:induction false} WordSplits(s: string) returns (tail: string)
    ensures tail == s[WordLength(s)..] && s == s[..WordLength(s)] + tail
    ensures tail != [] ==> White(tail[0])
  {
    tail := s[WordLength(s)..];
    if s != [] && !IsSpace(s[0]) {
      var more := WordSplits(s[1..]);
      assert more == tail;
    }
  }

  lemma {:induction false} WordRead(st: Stream) returns (blank: string, tail: string)
    requires ReadWord(st).1 == MAGIC
    ensures Ready(st) && Blank(blank) && st.rest == blank + ("CACHEX-SNAPSHOT" + tail)
    ensures ReadWord(st).0 == Stream(tail, st.size, tail == [], false)
    ensures tail != [] ==> White(tail[0])
  {
    var r := SkipSpace(st.rest);
    blank := SkipSplits(st.rest);
    tail := WordSplits(r);
    assert r[..WordLength(r)] == MAGIC;
  }

  lemma {:induction false} ReadsSpelledHeader(f: FileForm, savedAt: int, records: seq<Record>)
    requires FileSpelled(f, savedAt, records)
    ensures var file, body := FileBytes(f, records), BodyBytes(f.forms, records, f.trailing);
            && ParseHeader(file).Some?
            && var (stamp, count, st) := ParseHeader(file).value;
               && stamp == savedAt && count == |records| && st.rest == body && st.size == |file|
               && (f.gap != "" ==> Ready(st))
  {
    var file := FileBytes(f, records);
    var u4 := f.gap + BodyBytes(f.forms, records, f.trailing);
    var u3 := FieldText(f.count) + u4;
    var u2 := FieldText(f.stamp) + u3;
    var u1 := FieldText(f.version) + u2;
    assert u1[0] == f.version.blank[0];
    ReadsWord(Opened(file), f.blank, u1);
    NotDigit(f.stamp, savedAt, MAX_LONG, u3);
    NotDigit(f.count, |records|, MAX_LONG, u4);
    ReadsField(Opened(file).(rest := u1), f.version, 1, MAX_INT, u2);
    ReadsField(Opened(file).(rest := u2), f.stamp, savedAt, MAX_LONG, u3);
    ReadsField(Opened(file).(rest := u3), f.count, |records|, MAX_LONG, u4);
    if f.gap != "" {
      assert u4[1..] == BodyBytes(f.forms, records, f.trailing);
    }
  }

  /** Every file of this form is accepted, and read as what it spells. */
  lemma {:induction false} SpelledIsAccepted(f: FileForm, savedAt: int, records: seq<Record>)
    requires FileSpelled(f, savedAt, records)
    ensures Decode(FileBytes(f, records)) == Accepted(savedAt, records)
  {
    var file := FileBytes(f, records);
    ReadsSpelledHeader(f, savedAt, records);
    var (_, _, st) := ParseHeader(file).value;
    BodyLength(f.forms, records, f.trailing);
    ReadsBody(st, f.forms, records, f.trailing);
  }

  lemma {:induction false} HeaderRead(file: string) returns (f: FileForm, body: string)
    requires ParseHeader(file).Some?
    ensures var (savedAt, count, st) := ParseHeader(file).value;
            && HeadSpelled(f, savedAt, count) && st.rest == body
            && (if f.gap == "" then body == "" && !Ready(st) else |f.gap| == 1 && !IsDigit(f.gap[0]))
            && file == f.blank + ("CACHEX-SNAPSHOT" + (FieldText(f.version) + (FieldText(f.stamp) +
                         (FieldText(f.count) + (f.gap + body)))))
  {
    var s1 := ReadWord(Opened(file)).0;
    var s2 := ReadInt(s1, MAX_INT).0;
    var s3 := ReadInt(s2, MAX_LONG).0;
    var count, u4 := FieldRead(s3, MAX_LONG);
    var stamp, u3 := FieldRead(s2, MAX_LONG);
    var version, u2 := FieldRead(s1, MAX_INT);
    var blank, u1 := WordRead(Opened(file));
    FieldSetOff(count, ReadInt(s3, MAX_LONG).1, MAX_LONG, u4);
    FieldSetOff(stamp, ReadInt(s2, MAX_LONG).1, MAX_LONG, u3);
    StartsBlank(version, 1, u2);
    var gap := if u4 == [] then "" else u4[..1];
    body := if u4 == [] then "" else u4[1..];
    assert u4 == gap + body;
    f := FileForm(blank, version, stamp, count, gap, [], "");
  }

  lemma {:induction false} StartsBlank(f: Field, n: int, tail: string)
    requires Spells(f, n, MAX_INT)
    ensures FieldText(f) + tail != [] && (f.blank == "" ==> !White((FieldText(f) + tail)[0]))
  {
    if f.blank == "" {
      assert (FieldText(f) + tail)[0] == f.numeral[0];
    }
  }

  /** Every accepted file is of this form, and what was read is what it spells. */
  lemma {:induction false} AcceptedIsSpelled(file: string, savedAt: int, records: seq<Record>) returns (f: FileForm)
    requires Decode(file) == Accepted(savedAt, records)
    ensures FileSpelled(f, savedAt, records) && file == FileBytes(f, records)
  {
    var head, body := HeaderRead(file);
    var (_, count, st) := ParseHeader(file).value;
    var forms := BodyRead(st, count);
    f := head.(forms := forms, trailing := ParseRecords(st, count).value.1.rest);
  }

  /** A load accepts exactly the files of this form. */
  lemma {:induction false} AcceptedIff(file: string, savedAt: int, records: seq<Record>)
    ensures Decode(file) == Accepted(savedAt, records) <==>
            exists f :: FileSpelled(f, savedAt, records) && file == FileBytes(f, records)
  {
    if Decode(file) == Accepted(savedAt, records) {
      var f := AcceptedIsSpelled(file, savedAt, records);
    }
    if f :| FileSpelled(f, savedAt, records) && file == FileBytes(f, records) {
      SpelledIsAccepted(f, savedAt, records);
    }
  }

  // ---- What a save writes

  /** Entry by entry: the key, the value, and the remaining milliseconds or -1. */
  predicate Lists(records: seq<Record>, entries: seq<EntrySnapshot>) {
    && |records| == |entries|
    && forall i :: 0 <= i < |entries| ==>
         && records[i].key == entries[i].key && records[i].value == entries[i].value
         && records[i].ttl == if entries[i].remainingTtl.Some? then entries[i].remainingTtl.value else -1
  }

  /** The file of a save is of this form too, and lists the entries that were exported. */
  lemma {:induction false} WrittenIsSpelled(savedAt: int, entries: seq<EntrySnapshot>)
    returns (f: FileForm, records: seq<Record>)
    requires Storable(savedAt, RecordsOf(entries))
    ensures FileSpelled(f, savedAt, records) && Lists(records, entries)
    ensures FileText(savedAt, RecordsOf(entries)) == FileBytes(f, records)
  {
    records := RecordsOf(entries);
    RoundTrip(savedAt, records);
    f := AcceptedIsSpelled(FileText(savedAt, records), savedAt, records);
  }
}
