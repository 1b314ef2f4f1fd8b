/** What the snapshot format promises: whatever was written is read back exactly, provided
    its numbers fit the loader's integers, and otherwise rejected. */
module SnapshotFormat {
  import opened Prelude
  import opened Decimal
  import opened Snapshot

  // ---- Round trip

  predicate Fits(n: int, max: int) {
    -max - 1 <= n <= max
  }

  predicate RecordFits(r: Record) {
    Fits(|r.key|, MAX_LONG) && Fits(|r.value|, MAX_LONG) && Fits(r.ttl, MAX_LONG)
  }

  /** Every number of the file fits the loader's 64-bit integers. */
  predicate Storable(savedAt: int, records: seq<Record>) {
    && Fits(savedAt, MAX_LONG) && Fits(|records|, MAX_LONG)
    && forall i :: 0 <= i < |records| ==> RecordFits(records[i])
  }

  predicate Lead(s: string) {
    s == "" || s == " " || s == "\n"
  }

  lemma {:induction false} SkipLead(lead: string, s: string)
    requires Lead(lead) && s != [] && !IsSpace(s[0])
    ensures SkipSpace(lead + s) == s
  {
    if lead == "" {
      assert lead + s == s;
    } else {
      assert (lead + s)[1..] == s;
    }
  }

  lemma {:induction false} ScansSign(negative: bool, digits: string, v: nat, tail: string)
    requires digits != [] && IsDigit(digits[0]) && ScanNat(digits + tail) == (tail, |digits|, v)
    ensures var s := (if negative then "-" + digits else digits) + tail;
            && !IsSpace(s[0])
            && ScanInt(s) == (tail, |digits|, if negative then 0 - v else v)
  {
    if negative {
      assert ("-" + digits + tail)[1..] == digits + tail;
    }
  }

  lemma {:induction false} ScansSigned(n: int, tail: string)
    requires tail != [] && !IsDigit(tail[0])
    ensures !IsSpace((Signed(n) + tail)[0])
    ensures var (rest, digits, v) := ScanInt(Signed(n) + tail); rest == tail && digits > 0 && v == n
  {
    var m := if n < 0 then -n else n;
    ScansDec(m, tail);
    ScansSign(n < 0, Dec(m), m, tail);
  }

  /** A printed number followed by a non-digit is read back, and nothing more is. */
  lemma {:induction false} ReadsInt(st: Stream, lead: string, n: int, tail: string, max: int)
    requires Ready(st) && Lead(lead) && st.rest == lead + (Signed(n) + tail)
    requires tail != [] && !IsDigit(tail[0]) && Fits(n, max)
    ensures ReadInt(st, max) == (st.(rest := tail), n)
  {
    ScansSigned(n, tail);
    SkipLead(lead, Signed(n) + tail);
  }

  /** A record's text, read from the left. */
  lemma {:induction false} RecordTextNested(r: Record, tail: string)
    ensures RecordText(r) + tail ==
            Dec(|r.key|) + (" " + (Dec(|r.value|) + (" " + (Signed(r.ttl) +
              ("\n" + (r.key + (r.value + ("\n" + tail))))))))
  {
    var t1 := Dec(|r.key|) + " ";
    var t2 := t1 + Dec(|r.value|);
    var t3 := t2 + " ";
    var t4 := t3 + Signed(r.ttl);
    var t5 := t4 + "\n";
    var t6 := t5 + r.key;
    var t7 := t6 + r.value;
    var u7 := "\n" + tail;
    var u6 := r.value + u7;
    var u5 := r.key + u6;
    var u4 := "\n" + u5;
    var u3 := Signed(r.ttl) + u4;
    var u2 := " " + u3;
    var u1 := Dec(|r.value|) + u2;
    Assoc(t7, "\n", tail);
    Assoc(t6, r.value, u7);
    Assoc(t5, r.key, u6);
    Assoc(t4, "\n", u5);
    Assoc(t3, Signed(r.ttl), u4);
    Assoc(t2, " ", u3);
    Assoc(t1, Dec(|r.value|), u2);
    Assoc(Dec(|r.key|), " ", u1);
  }

  lemma {:induction false} ReadsBytes(st: Stream, s: string, tail: string)
    requires Ready(st) && st.rest == s + tail
    ensures ReadExact(st, |s|) == (st.(rest := tail), Some(s))
  {
    assert (s + tail)[..|s|] == s && (s + tail)[|s|..] == tail;
  }

  lemma {:induction false} ReadsNewline(st: Stream, tail: string)
    requires Ready(st) && st.rest == "\n" + tail
    ensures GetChar(st) == (st.(rest := tail), Some('\n'))
  {
    assert ("\n" + tail)[1..] == tail;
  }

  lemma {:induction false} ReadsSizes(st: Stream, keyLen: nat, valueLen: nat, ttl: int, tail: string)
    requires Ready(st) && keyLen + valueLen <= st.size
    requires Fits(keyLen, MAX_LONG) && Fits(valueLen, MAX_LONG) && Fits(ttl, MAX_LONG)
    requires st.rest == Dec(keyLen) + (" " + (Dec(valueLen) + (" " + (Signed(ttl) + ("\n" + tail)))))
    ensures ParseSizes(st) == Some((keyLen, valueLen, ttl, st.(rest := tail)))
  {
    var u2 := " " + (Signed(ttl) + ("\n" + tail));
    var u1 := " " + (Dec(valueLen) + u2);
    assert "" + (Dec(keyLen) + u1) == Dec(keyLen) + u1;
    ReadsInt(st, "", keyLen, u1, MAX_LONG);
    ReadsInt(st.(rest := u1), " ", valueLen, u2, MAX_LONG);
    ReadsInt(st.(rest := u2), " ", ttl, "\n" + tail, MAX_LONG);
    ReadsNewline(st.(rest := "\n" + tail), tail);
  }

  lemma {:induction false} ReadsPayload(st: Stream, key: string, value: string, tail: string)
    requires Ready(st) && st.rest == key + (value + ("\n" + tail))
    ensures ParsePayload(st, |key|, |value|) == Some((key, value, st.(rest := tail)))
  {
    ReadsBytes(st, key, value + ("\n" + tail));
    ReadsBytes(st.(rest := value + ("\n" + tail)), value, "\n" + tail);
    ReadsNewline(st.(rest := "\n" + tail), tail);
  }

  /** One written record is read back, leaving exactly what follows it. */
  lemma {:induction false} ReadsRecord(st: Stream, r: Record, tail: string)
    requires Ready(st) && st.rest == RecordText(r) + tail && |st.rest| <= st.size
    requires RecordFits(r)
    ensures ParseRecord(st) == Some((r, st.(rest := tail)))
  {
    var payload := r.key + (r.value + ("\n" + tail));
    RecordTextNested(r, tail);
    ReadsSizes(st, |r.key|, |r.value|, r.ttl, payload);
    ReadsPayload(st.(rest := payload), r.key, r.value, tail);
  }

  lemma NextRecord(one: Reader, st: Stream, r: Record, st': Stream, count: nat, rs: seq<Record>, end: Stream)
    requires one(st) == Some((r, st')) && ReadMany(one, st', count) == Some((rs, end))
    ensures ReadMany(one, st, count + 1) == Some(([r] + rs, end))
  {
  }

  lemma {:induction false} ReadsFirst(st: Stream, records: seq<Record>)
    requires Ready(st) && records != [] && st.rest == Body(records) && |st.rest| <= st.size
    requires RecordFits(records[0])
    ensures |Body(records[1..])| <= |st.rest|
    ensures ParseRecord(st) == Some((records[0], st.(rest := Body(records[1..]))))
  {
    ReadsRecord(st, records[0], Body(records[1..]));
  }

  type Printer = seq<Record> -> string

  /** The reader takes the first record off whatever the printer printed, leaving the
      print of the others. */
  ghost predicate Inverts(one: Reader, text: Printer) {
    forall st, rs: seq<Record> ::
      Ready(st) && rs != [] && st.rest == text(rs) && |st.rest| <= st.size && RecordFits(rs[0]) ==>
        one(st) == Some((rs[0], st.(rest := text(rs[1..])))) && |text(rs[1..])| <= |text(rs)|
  }

  lemma {:induction false} ParserInverts()
    ensures Inverts(ParseRecord, Body)
  {
    forall st, rs: seq<Record> |
        Ready(st) && rs != [] && st.rest == Body(rs) && |st.rest| <= st.size && RecordFits(rs[0])
      ensures ParseRecord(st) == Some((rs[0], st.(rest := Body(rs[1..])))) && |Body(rs[1..])| <= |Body(rs)|
    {
      ReadsFirst(st, rs);
    }
  }

  lemma {:induction false} ReadsMany(one: Reader, text: Printer, st: Stream, records: seq<Record>)
    requires Inverts(one, text) && text([]) == ""
    requires Ready(st) && st.rest == text(records) && |st.rest| <= st.size
    requires forall i :: 0 <= i < |records| ==> RecordFits(records[i])
    ensures ReadMany(one, st, |records|) == Some((records, st.(rest := [])))
    decreases |records|
  {
    if records == [] {
      assert st.(rest := []) == st;
    } else {
      var st' := st.(rest := text(records[1..]));
      assert one(st) == Some((records[0], st'));
      ReadsMany(one, text, st', records[1..]);
      NextRecord(one, st, records[0], st', |records[1..]|, records[1..], st.(rest := []));
      assert records == [records[0]] + records[1..];
    }
  }

  lemma {:induction false} ReadsRecords(st: Stream, records: seq<Record>)
    requires Ready(st) && st.rest == Body(records) && |st.rest| <= st.size
    requires forall i :: 0 <= i < |records| ==> RecordFits(records[i])
    ensures ParseRecords(st, |records|) == Some((records, st.(rest := [])))
  {
    ParserInverts();
    ReadsMany(ParseRecord, Body, st, records);
  }

  lemma {:induction false} WordUnique(w: string, tail: string)
    requires tail != [] && IsSpace(tail[0]) && forall i :: 0 <= i < |w| ==> !IsSpace(w[i])
    ensures WordLength(w + tail) == |w|
  {
    if w == [] {
      assert w + tail == tail;
    } else {
      assert (w + tail)[1..] == w[1..] + tail;
      WordUnique(w[1..], tail);
    }
  }

  lemma {:induction false} ReadsMagic(st: Stream, tail: string)
    requires Ready(st) && st.rest == MAGIC + tail && tail != [] && IsSpace(tail[0])
    ensures ReadWord(st) == (st.(rest := tail), MAGIC)
  {
    SkipLead("", MAGIC + tail);
    assert "" + (MAGIC + tail) == MAGIC + tail;
    WordUnique(MAGIC, tail);
    assert (MAGIC + tail)[..|MAGIC|] == MAGIC && (MAGIC + tail)[|MAGIC|..] == tail;
  }

  /** The file up to and including the save time, followed by anything on a new line. */
  function Start(savedAt: int, tail: string): string {
    MAGIC + (" " + (Signed(1) + (" " + (Signed(savedAt) + ("\n" + tail)))))
  }

  lemma {:induction false} FileNested(savedAt: int, records: seq<Record>)
    ensures FileText(savedAt, records) == Start(savedAt, Dec(|records|) + ("\n" + Body(records)))
  {
    var body := Body(records);
    var t1 := MAGIC + " ";
    var t2 := t1 + Dec(1);
    var t3 := t2 + " ";
    var t4 := t3 + Signed(savedAt);
    var t5 := t4 + "\n";
    var t6 := t5 + Dec(|records|);
    var u5 := Dec(|records|) + ("\n" + body);
    var u4 := "\n" + u5;
    var u3 := Signed(savedAt) + u4;
    Assoc(t6, "\n", body);
    Assoc(t5, Dec(|records|), "\n" + body);
    Assoc(t4, "\n", u5);
    Assoc(t3, Signed(savedAt), u4);
    Assoc(t2, " ", u3);
    Assoc(t1, Dec(1), " " + u3);
    Assoc(MAGIC, " ", Dec(1) + (" " + u3));
  }

  /** The three header reads, whatever follows the header line. */
  lemma {:induction false} ReadsStart(st: Stream, savedAt: int, tail: string)
    requires Ready(st) && st.rest == Start(savedAt, tail) && Fits(savedAt, MAX_LONG)
    ensures ReadWord(st).1 == MAGIC
    ensures ReadInt(ReadWord(st).0, MAX_INT).1 == 1
    ensures ReadInt(ReadInt(ReadWord(st).0, MAX_INT).0, MAX_LONG) == (st.(rest := "\n" + tail), savedAt)
  {
    var u2 := " " + (Signed(savedAt) + ("\n" + tail));
    var u1 := " " + (Signed(1) + u2);
    ReadsMagic(st, u1);
    ReadsInt(st.(rest := u1), " ", 1, u2, MAX_INT);
    ReadsInt(st.(rest := u2), " ", savedAt, "\n" + tail, MAX_LONG);
  }

  function Opened(file: string): Stream {
    Stream(file, |file|, false, false)
  }

  lemma {:induction false} ReadsHeader(savedAt: int, records: seq<Record>)
    requires Fits(savedAt, MAX_LONG) && Fits(|records|, MAX_LONG)
    ensures var file := FileText(savedAt, records);
            ParseHeader(file) == Some((savedAt, |records|, Opened(file).(rest := Body(records))))
  {
    var file := FileText(savedAt, records);
    var tail := "\n" + Body(records);
    FileNested(savedAt, records);
    ReadsStart(Opened(file), savedAt, Dec(|records|) + tail);
    ReadsInt(Opened(file).(rest := "\n" + (Dec(|records|) + tail)), "\n", |records|, tail, MAX_LONG);
    ReadsNewline(Opened(file).(rest := tail), Body(records));
  }

  /** Whatever was saved is read back: every key, value and remaining time, in order,
      with the time of the save; no bound check rejects a written file. */
  lemma {:induction false} RoundTrip(savedAt: int, records: seq<Record>)
    requires Storable(savedAt, records)
    ensures Decode(FileText(savedAt, records)) == Accepted(savedAt, records)
  {
    var file := FileText(savedAt, records);
    ReadsHeader(savedAt, records);
    ReadsRecords(Opened(file).(rest := Body(records)), records);
  }

  // ---- Numbers that do not fit

  lemma {:induction false} OversizedInt(st: Stream, lead: string, n: int, tail: string, max: int)
    requires Ready(st) && Lead(lead) && st.rest == lead + (Signed(n) + tail)
    requires tail != [] && !IsDigit(tail[0]) && !Fits(n, max)
    ensures ReadInt(st, max).0.fail
  {
    ScansSigned(n, tail);
    SkipLead(lead, Signed(n) + tail);
  }

  lemma FailedInt(st: Stream, max: int)
    requires st.fail
    ensures ReadInt(st, max).0.fail
  {
  }

  lemma {:induction false} RejectsSizes(st: Stream, keyLen: nat, valueLen: nat, ttl: int, tail: string)
    requires Ready(st) && !(Fits(keyLen, MAX_LONG) && Fits(valueLen, MAX_LONG) && Fits(ttl, MAX_LONG))
    requires st.rest == Dec(keyLen) + (" " + (Dec(valueLen) + (" " + (Signed(ttl) + ("\n" + tail)))))
    ensures ParseSizes(st).None?
  {
    var u2 := " " + (Signed(ttl) + ("\n" + tail));
    var u1 := " " + (Dec(valueLen) + u2);
    assert "" + (Dec(keyLen) + u1) == Dec(keyLen) + u1;
    var s1 := ReadInt(st, MAX_LONG).0;
    var s2 := ReadInt(s1, MAX_LONG).0;
    if !Fits(keyLen, MAX_LONG) {
      OversizedInt(st, "", keyLen, u1, MAX_LONG);
      FailedInt(s1, MAX_LONG);
      FailedInt(s2, MAX_LONG);
    } else {
      ReadsInt(st, "", keyLen, u1, MAX_LONG);
      if !Fits(valueLen, MAX_LONG) {
        OversizedInt(s1, " ", valueLen, u2, MAX_LONG);
        FailedInt(s2, MAX_LONG);
      } else {
        ReadsInt(s1, " ", valueLen, u2, MAX_LONG);
        OversizedInt(s2, " ", ttl, "\n" + tail, MAX_LONG);
      }
    }
  }

  lemma {:induction false} RejectsRecord(st: Stream, r: Record, tail: string)
    requires Ready(st) && st.rest == RecordText(r) + tail && !RecordFits(r)
    ensures ParseRecord(st).None?
  {
    RecordTextNested(r, tail);
    RejectsSizes(st, |r.key|, |r.value|, r.ttl, r.key + (r.value + ("\n" + tail)));
  }

  /** The reader refuses the first record of a print if its numbers do not fit. */
  ghost predicate Refuses(one: Reader, text: Printer) {
    forall st, rs: seq<Record> :: Ready(st) && rs != [] && st.rest == text(rs) && !RecordFits(rs[0]) ==> one(st).None?
  }

  lemma {:induction false} ParserRefuses()
    ensures Refuses(ParseRecord, Body)
  {
    forall st, rs: seq<Record> | Ready(st) && rs != [] && st.rest == Body(rs) && !RecordFits(rs[0])
      ensures ParseRecord(st).None?
    {
      RejectsRecord(st, rs[0], Body(rs[1..]));
    }
  }

  lemma {:induction false} RefusesMany(one: Reader, text: Printer, st: Stream, records: seq<Record>, i: nat)
    requires Inverts(one, text) && Refuses(one, text)
    requires Ready(st) && st.rest == text(records) && |st.rest| <= st.size
    requires i < |records| && !RecordFits(records[i])
    ensures ReadMany(one, st, |records|).None?
    decreases |records|
  {
    if RecordFits(records[0]) {
      RefusesMany(one, text, st.(rest := text(records[1..])), records[1..], i - 1);
    }
  }

  lemma {:induction false} RejectsRecords(st: Stream, records: seq<Record>, i: nat)
    requires Ready(st) && st.rest == Body(records) && |st.rest| <= st.size
    requires i < |records| && !RecordFits(records[i])
    ensures ParseRecords(st, |records|).None?
  {
    ParserInverts();
    ParserRefuses();
    RefusesMany(ParseRecord, Body, st, records, i);
  }

  lemma {:induction false} RejectsStamp(savedAt: int, tail: string)
    requires !Fits(savedAt, MAX_LONG)
    ensures ParseHeader(Start(savedAt, tail)).None?
  {
    var u2 := " " + (Signed(savedAt) + ("\n" + tail));
    var u1 := " " + (Signed(1) + u2);
    var st := Opened(Start(savedAt, tail));
    ReadsMagic(st, u1);
    ReadsInt(st.(rest := u1), " ", 1, u2, MAX_INT);
    OversizedInt(st.(rest := u2), " ", savedAt, "\n" + tail, MAX_LONG);
  }

  lemma {:induction false} RejectsCount(savedAt: int, count: nat, body: string)
    requires Fits(savedAt, MAX_LONG) && !Fits(count, MAX_LONG)
    ensures ParseHeader(Start(savedAt, Dec(count) + ("\n" + body))).None?
  {
    var st := Opened(Start(savedAt, Dec(count) + ("\n" + body)));
    ReadsStart(st, savedAt, Dec(count) + ("\n" + body));
    OversizedInt(st.(rest := "\n" + (Dec(count) + ("\n" + body))), "\n", count, "\n" + body, MAX_LONG);
  }

  lemma {:induction false} RejectsHeader(savedAt: int, records: seq<Record>)
    requires !Fits(savedAt, MAX_LONG) || !Fits(|records|, MAX_LONG)
    ensures ParseHeader(FileText(savedAt, records)).None?
  {
    FileNested(savedAt, records);
    if Fits(savedAt, MAX_LONG) {
      RejectsCount(savedAt, |records|, Body(records));
    } else {
      RejectsStamp(savedAt, Dec(|records|) + ("\n" + Body(records)));
    }
  }

  lemma RejectedByHeader(file: string)
    requires ParseHeader(file).None?
    ensures Decode(file) == Rejected
  {
  }

  lemma RejectedByRecords(file: string, savedAt: int, count: nat, st: Stream)
    requires ParseHeader(file) == Some((savedAt, count, st)) && ParseRecords(st, count).None?
    ensures Decode(file) == Rejected
  {
  }

  lemma {:induction false} OversizedRejected(savedAt: int, records: seq<Record>)
    requires !Storable(savedAt, records)
    ensures Decode(FileText(savedAt, records)) == Rejected
  {
    var file := FileText(savedAt, records);
    if !Fits(savedAt, MAX_LONG) || !Fits(|records|, MAX_LONG) {
      RejectsHeader(savedAt, records);
      RejectedByHeader(file);
    } else {
      var i :| 0 <= i < |records| && !RecordFits(records[i]);
      var st := Opened(file).(rest := Body(records));
      ReadsHeader(savedAt, records);
      RejectsRecords(st, records, i);
      RejectedByRecords(file, savedAt, |records|, st);
    }
  }

  /** Every file ever written decodes to exactly what was written if all its numbers fit,
      and is rejected if one does not: no third outcome. */
  lemma {:induction false} RoundTripOrRejected(savedAt: int, records: seq<Record>)
    ensures Decode(FileText(savedAt, records)) ==
            if Storable(savedAt, records) then Accepted(savedAt, records) else Rejected
  {
    if Storable(savedAt, records) {
      RoundTrip(savedAt, records);
    } else {
      OversizedRejected(savedAt, records);
    }
  }
}
