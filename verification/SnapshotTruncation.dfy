/** A saved file cut short. A read on the cut stream either raises a flag or does what
    it would have done on the whole file, so an accepted parse of the cut file is a parse
    of the whole file that stops early. */
module SnapshotTruncation {
  import opened Prelude
  import opened Decimal
  import opened Snapshot
  import opened SnapshotFormat

  /** Both streams can be read and `s` has `cut` more to read than `t`. */
  predicate Cuts(t: Stream, s: Stream, cut: string) {
    Ready(t) && Ready(s) && s.rest == t.rest + cut && t.size <= s.size
  }

  lemma {:induction false} SkipSpaceCut(a: string, cut: string)
    requires SkipSpace(a) != []
    ensures SkipSpace(a + cut) == SkipSpace(a) + cut
  {
    if IsSpace(a[0]) {
      assert (a + cut)[1..] == a[1..] + cut;
      SkipSpaceCut(a[1..], cut);
    }
  }

  lemma {:induction false} DigitRunCut(a: string, cut: string)
    requires DigitRun(a) < |a|
    ensures DigitRun(a + cut) == DigitRun(a)
  {
    if IsDigit(a[0]) {
      assert (a + cut)[1..] == a[1..] + cut;
      DigitRunCut(a[1..], cut);
    }
  }

  lemma {:induction false} WordLengthCut(a: string, cut: string)
    requires WordLength(a) < |a|
    ensures WordLength(a + cut) == WordLength(a)
  {
    if !IsSpace(a[0]) {
      assert (a + cut)[1..] == a[1..] + cut;
      WordLengthCut(a[1..], cut);
    }
  }

  lemma {:induction false} ScanNatCut(a: string, cut: string)
    requires ScanNat(a).0 != []
    ensures ScanNat(a + cut) == (ScanNat(a).0 + cut, ScanNat(a).1, ScanNat(a).2)
  {
    var n := DigitRun(a);
    DigitRunCut(a, cut);
    assert (a + cut)[..n] == a[..n] && (a + cut)[n..] == a[n..] + cut;
  }

  lemma {:induction false} ScanIntCut(a: string, cut: string)
    requires a != [] && ScanInt(a).0 != []
    ensures ScanInt(a + cut) == (ScanInt(a).0 + cut, ScanInt(a).1, ScanInt(a).2)
  {
    assert (a + cut)[1..] == a[1..] + cut;
    ScanNatCut(if a[0] == '-' || a[0] == '+' then a[1..] else a, cut);
  }

  lemma {:induction false} CutInt(t: Stream, s: Stream, cut: string, max: int)
    requires Cuts(t, s, cut) && Ready(ReadInt(t, max).0)
    ensures Cuts(ReadInt(t, max).0, ReadInt(s, max).0, cut)
    ensures ReadInt(s, max).1 == ReadInt(t, max).1
    ensures ReadInt(s, max).0.size == s.size && ReadInt(t, max).0.size == t.size
  {
    SkipSpaceCut(t.rest, cut);
    ScanIntCut(SkipSpace(t.rest), cut);
  }

  lemma {:induction false} CutWord(t: Stream, s: Stream, cut: string)
    requires Cuts(t, s, cut) && Ready(ReadWord(t).0)
    ensures Cuts(ReadWord(t).0, ReadWord(s).0, cut)
    ensures ReadWord(s).1 == ReadWord(t).1
    ensures ReadWord(s).0.size == s.size && ReadWord(t).0.size == t.size
  {
    var r := SkipSpace(t.rest);
    var n := WordLength(r);
    SkipSpaceCut(t.rest, cut);
    WordLengthCut(r, cut);
    assert (r + cut)[..n] == r[..n] && (r + cut)[n..] == r[n..] + cut;
  }

  lemma {:induction false} CutChar(t: Stream, s: Stream, cut: string)
    requires Cuts(t, s, cut) && t.rest != []
    ensures Cuts(GetChar(t).0, GetChar(s).0, cut)
    ensures GetChar(s).1 == GetChar(t).1
  {
    assert (t.rest + cut)[1..] == t.rest[1..] + cut;
  }

  lemma {:induction false} CutExact(t: Stream, s: Stream, cut: string, n: nat)
    requires Cuts(t, s, cut) && ReadExact(t, n).1.Some?
    ensures Cuts(ReadExact(t, n).0, ReadExact(s, n).0, cut)
    ensures ReadExact(s, n).1 == ReadExact(t, n).1
  {
    if n > 0 {
      assert (t.rest + cut)[..n] == t.rest[..n] && (t.rest + cut)[n..] == t.rest[n..] + cut;
    }
  }

  lemma {:induction false} CutSizes(t: Stream, s: Stream, cut: string)
    requires Cuts(t, s, cut) && ParseSizes(t).Some?
    ensures var (k, v, ttl, t') := ParseSizes(t).value;
            ParseSizes(s).Some? && ParseSizes(s).value.0 == k && ParseSizes(s).value.1 == v &&
            ParseSizes(s).value.2 == ttl && Cuts(t', ParseSizes(s).value.3, cut)
  {
    var t1 := ReadInt(t, MAX_LONG).0;
    var t2 := ReadInt(t1, MAX_LONG).0;
    CutInt(t, s, cut, MAX_LONG);
    var s1 := ReadInt(s, MAX_LONG).0;
    CutInt(t1, s1, cut, MAX_LONG);
    var s2 := ReadInt(s1, MAX_LONG).0;
    CutInt(t2, s2, cut, MAX_LONG);
    CutChar(ReadInt(t2, MAX_LONG).0, ReadInt(s2, MAX_LONG).0, cut);
  }

  lemma {:induction false} CutPayload(t: Stream, s: Stream, cut: string, k: nat, v: nat)
    requires Cuts(t, s, cut) && ParsePayload(t, k, v).Some?
    ensures ParsePayload(s, k, v).Some?
    ensures ParsePayload(s, k, v).value.0 == ParsePayload(t, k, v).value.0
    ensures ParsePayload(s, k, v).value.1 == ParsePayload(t, k, v).value.1
    ensures Cuts(ParsePayload(t, k, v).value.2, ParsePayload(s, k, v).value.2, cut)
  {
    CutExact(t, s, cut, k);
    var t1, s1 := ReadExact(t, k).0, ReadExact(s, k).0;
    CutExact(t1, s1, cut, v);
    CutChar(ReadExact(t1, v).0, ReadExact(s1, v).0, cut);
  }

  lemma {:induction false} CutRecord(t: Stream, s: Stream, cut: string, r: Record, t': Stream) returns (s': Stream)
    requires Cuts(t, s, cut) && ParseRecord(t) == Some((r, t'))
    ensures ParseRecord(s) == Some((r, s')) && Cuts(t', s', cut)
  {
    CutSizes(t, s, cut);
    var (k, v, _, tMid) := ParseSizes(t).value;
    var sMid := ParseSizes(s).value.3;
    CutPayload(tMid, sMid, cut, k, v);
    s' := ParsePayload(sMid, k, v).value.2;
  }

  /** The reader treats a cut stream as the whole one for as long as it succeeds. */
  ghost predicate Oblivious(one: Reader) {
    forall t, s, cut :: Cuts(t, s, cut) && one(t).Some? ==>
      one(s).Some? && one(s).value.0 == one(t).value.0 && Cuts(one(t).value.1, one(s).value.1, cut)
  }

  lemma {:induction false} ParserOblivious()
    ensures Oblivious(ParseRecord)
  {
    forall t, s, cut | Cuts(t, s, cut) && ParseRecord(t).Some?
      ensures ParseRecord(s).Some? && ParseRecord(s).value.0 == ParseRecord(t).value.0 &&
              Cuts(ParseRecord(t).value.1, ParseRecord(s).value.1, cut)
    {
      var _ := CutRecord(t, s, cut, ParseRecord(t).value.0, ParseRecord(t).value.1);
    }
  }

  /** Records read from the cut stream are the first records of the whole one, and the
      part cut off is still unread after them. */
  lemma {:induction false} CutRecords(one: Reader, t: Stream, s: Stream, cut: string, count: nat,
                                      rs: seq<Record>, tEnd: Stream)
    returns (sEnd: Stream)
    requires Oblivious(one)
    requires Cuts(t, s, cut) && ReadMany(one, t, count) == Some((rs, tEnd))
    ensures ReadMany(one, s, count) == Some((rs, sEnd)) && Cuts(tEnd, sEnd, cut)
    decreases count
  {
    if count == 0 {
      sEnd := s;
    } else {
      assert one(t).Some? && one(s).Some?;
      var t', s' := one(t).value.1, one(s).value.1;
      sEnd := CutRecords(one, t', s', cut, count - 1, ReadMany(one, t', count - 1).value.0, tEnd);
    }
  }

  /** No record can be read once a flag is up. */
  lemma {:induction false} StuckRecords(st: Stream, count: nat)
    requires !Ready(st) && count > 0
    ensures ParseRecords(st, count).None?
  {
    assert ParseSizes(st).None?;
  }

  // ---- The cut header

  /** A parsed header went through three successful reads and a fourth for the count. */
  lemma {:induction false} HeaderReads(file: string) returns (s3: Stream)
    requires ParseHeader(file).Some?
    ensures s3 == ReadInt(ReadInt(ReadWord(Opened(file)).0, MAX_INT).0, MAX_LONG).0
    ensures Ready(ReadWord(Opened(file)).0) && Ready(ReadInt(ReadWord(Opened(file)).0, MAX_INT).0) && Ready(s3)
    ensures !ReadInt(s3, MAX_LONG).0.fail && ReadInt(s3, MAX_LONG).1 >= 0
    ensures ParseHeader(file) ==
            Some((ReadInt(ReadInt(ReadWord(Opened(file)).0, MAX_INT).0, MAX_LONG).1,
                  ReadInt(s3, MAX_LONG).1, GetChar(ReadInt(s3, MAX_LONG).0).0))
  {
    s3 := ReadInt(ReadInt(ReadWord(Opened(file)).0, MAX_INT).0, MAX_LONG).0;
  }

  /** If the cut file's header parses at all, its save time is the whole file's and the
      count is read from what the cut left of the count line. */
  lemma {:induction false} CutStart(savedAt: int, tail: string, k: nat) returns (left: Stream)
    requires k < |Start(savedAt, tail)| && Fits(savedAt, MAX_LONG)
    requires ParseHeader(Start(savedAt, tail)[..k]).Some?
    ensures Ready(left) && left.size == k && left.rest + Start(savedAt, tail)[k..] == "\n" + tail
    ensures !ReadInt(left, MAX_LONG).0.fail && ReadInt(left, MAX_LONG).1 >= 0
    ensures ParseHeader(Start(savedAt, tail)[..k]) ==
            Some((savedAt, ReadInt(left, MAX_LONG).1, GetChar(ReadInt(left, MAX_LONG).0).0))
  {
    var file := Start(savedAt, tail);
    var cut := file[k..];
    left := HeaderReads(file[..k]);
    var t, s := Opened(file[..k]), Opened(file);
    assert file[..k] + cut == file;
    ReadsStart(s, savedAt, tail);
    CutWord(t, s, cut);
    CutInt(ReadWord(t).0, ReadWord(s).0, cut, MAX_INT);
    CutInt(ReadInt(ReadWord(t).0, MAX_INT).0, ReadInt(ReadWord(s).0, MAX_INT).0, cut, MAX_LONG);
  }

  lemma {:induction false} DigitPrefix(p: string, d: string, cut: string, rest: string)
    requires AllDigits(p) && p != [] && d != [] && rest != [] && !IsDigit(rest[0])
    requires p + cut == d + rest
    ensures |p| <= |d| && p[0] == d[0]
    ensures |p| == |d| ==> cut == rest
  {
    assert (p + cut)[0] == p[0] && (d + rest)[0] == d[0];
    assert (d + rest)[|d|] == rest[0];
    assert forall i :: 0 <= i < |p| ==> (p + cut)[i] == p[i];
    assert cut == (p + cut)[|p|..] && rest == (d + rest)[|d|..];
  }

  /** A prefix of a printed number that reaches the end of the cut file. */
  lemma {:induction false} DigitsLeft(p: string, n: nat, cut: string, body: string)
    requires p != [] && DigitRun(p) == |p|
    requires p + cut == Dec(n) + ("\n" + body)
    ensures AllDigits(p) && (NumberOf(p) == 0 <==> n == 0)
    ensures n == 0 ==> cut == "\n" + body
  {
    assert p[..|p|] == p;
    DigitPrefix(p, Dec(n), cut, "\n" + body);
    NoLeadingZero(n);
    if n == 0 {
      assert p[..0] == [];
    } else {
      PositiveNumber(p);
    }
  }

  /** A count read up to the end of the cut file is zero only if the whole count is,
      and then nothing but the newline and the body is missing. */
  lemma {:induction false} CountCut(left: Stream, n: nat, cut: string, body: string)
    requires Ready(left) && left.rest + cut == "\n" + (Dec(n) + ("\n" + body))
    requires !ReadInt(left, MAX_LONG).0.fail && ReadInt(left, MAX_LONG).0.eof
    ensures ReadInt(left, MAX_LONG).1 == 0 <==> n == 0
    ensures n == 0 ==> cut == "\n" + body
  {
    var whole := "\n" + (Dec(n) + ("\n" + body));
    var p := left.rest[1..];
    assert left.rest[0] == whole[0] && whole[1..] == p + cut == Dec(n) + ("\n" + body);
    assert SkipSpace(left.rest) == SkipSpace(p);
    assert p != [] && p[0] == (p + cut)[0] == Dec(n)[0];
    assert SkipSpace(p) == p;
    DigitsLeft(p, n, cut, body);
    assert p[..|p|] == p;
  }

  lemma {:induction false} ReadsLastZero(st: Stream)
    requires Ready(st) && st.rest == "\n" + "0"
    ensures ReadInt(st, MAX_LONG) == (Stream([], st.size, true, false), 0)
  {
    SkipLead("\n", "0");
    ScansSign(false, "0", 0, "");
  }

  // ---- The theorem

  /** What the loader sees of the file after the cut at `k`. */
  lemma {:induction false} CutMidway(savedAt: int, records: seq<Record>, k: nat, left: Stream)
    requires Storable(savedAt, records) && k < |FileText(savedAt, records)| && left.size == k
    requires Ready(left) && Ready(ReadInt(left, MAX_LONG).0)
    requires left.rest + FileText(savedAt, records)[k..] == "\n" + (Dec(|records|) + ("\n" + Body(records)))
    ensures ReadInt(left, MAX_LONG).1 == |records| > 0
    ensures ParseRecords(GetChar(ReadInt(left, MAX_LONG).0).0, |records|).None?
  {
    var file := FileText(savedAt, records);
    var cut, tail := file[k..], "\n" + Body(records);
    var whole := Opened(file).(rest := "\n" + (Dec(|records|) + tail));
    ReadsInt(whole, "\n", |records|, tail, MAX_LONG);
    CutInt(left, whole, cut, MAX_LONG);
    var t, s := ReadInt(left, MAX_LONG).0, ReadInt(whole, MAX_LONG).0;
    CutChar(t, s, cut);
    ReadsNewline(s, Body(records));
    var t', s' := GetChar(t).0, GetChar(s).0;
    ReadsRecords(s', records);
    if ParseRecords(t', |records|).Some? {
      ParserOblivious();
      var (rs, tEnd) := ParseRecords(t', |records|).value;
      var sEnd := CutRecords(ParseRecord, t', s', cut, |records|, rs, tEnd);
    }
  }

  lemma {:induction false} DecodesZero(cut: string, savedAt: int)
    requires cut == Start(savedAt, "0") && Fits(savedAt, MAX_LONG)
    ensures Decode(cut) == Accepted(savedAt, [])
  {
    ReadsStart(Opened(cut), savedAt, "0");
    ReadsLastZero(Opened(cut).(rest := "\n" + "0"));
  }

  lemma {:induction false} EmptyWithoutNewline(savedAt: int, records: seq<Record>)
    requires records == []
    ensures var file := FileText(savedAt, records); |file| > 0 && file[..|file| - 1] == Start(savedAt, "0")
  {
    FileNested(savedAt, records);
    assert Dec(0) == "0" && Body(records) == "";
    StartEnd(savedAt);
  }

  /** The one cut that loses nothing: the last newline of an empty snapshot. */
  predicate Harmless(savedAt: int, records: seq<Record>, k: nat) {
    records == [] && k == |FileText(savedAt, records)| - 1
  }

  /** An empty snapshot that lacks its last newline still decodes, to no entries. */
  lemma {:induction false} MissingLastNewline(savedAt: int, records: seq<Record>, k: nat)
    requires Storable(savedAt, records) && Harmless(savedAt, records, k)
    ensures Decode(FileText(savedAt, records)[..k]) == Accepted(savedAt, records)
  {
    EmptyWithoutNewline(savedAt, records);
    DecodesZero(FileText(savedAt, records)[..k], savedAt);
  }

  lemma {:induction false} StartEnd(savedAt: int)
    ensures Start(savedAt, "0" + ("\n" + "")) == Start(savedAt, "0") + "\n"
  {
    assert "0" + ("\n" + "") == "0" + "\n";
    var u3 := "\n" + "0";
    var u2 := Signed(savedAt) + u3;
    var u1 := " " + u2;
    Assoc("\n", "0", "\n");
    Assoc(Signed(savedAt), u3, "\n");
    Assoc(" ", u2, "\n");
    Assoc(Signed(1), u1, "\n");
    Assoc(" ", Signed(1) + u1, "\n");
    Assoc(MAGIC, " " + (Signed(1) + u1), "\n");
  }

  lemma RejectedWhen(file: string)
    requires ParseHeader(file).Some? ==> ParseRecords(ParseHeader(file).value.2, ParseHeader(file).value.1).None?
    ensures Decode(file) == Rejected
  {
  }

  lemma {:induction false} TruncationRejected(savedAt: int, records: seq<Record>, k: nat)
    requires Storable(savedAt, records) && k < |FileText(savedAt, records)|
    requires !Harmless(savedAt, records, k)
    requires ParseHeader(FileText(savedAt, records)[..k]).Some?
    ensures var (_, count, st) := ParseHeader(FileText(savedAt, records)[..k]).value;
            ParseRecords(st, count).None?
  {
    var file := FileText(savedAt, records);
    FileNested(savedAt, records);
    var left := CutStart(savedAt, Dec(|records|) + ("\n" + Body(records)), k);
    if Ready(ReadInt(left, MAX_LONG).0) {
      CutMidway(savedAt, records, k, left);
    } else {
      CountCut(left, |records|, file[k..], Body(records));
      StuckRecords(GetChar(ReadInt(left, MAX_LONG).0).0, ReadInt(left, MAX_LONG).1);
    }
  }

  /** Every other proper prefix of a saved file is rejected. */
  lemma {:induction false} TruncationDetected(savedAt: int, records: seq<Record>, k: nat)
    requires Storable(savedAt, records) && k < |FileText(savedAt, records)|
    requires !Harmless(savedAt, records, k)
    ensures Decode(FileText(savedAt, records)[..k]) == Rejected
  {
    if ParseHeader(FileText(savedAt, records)[..k]).Some? {
      TruncationRejected(savedAt, records, k);
    }
    RejectedWhen(FileText(savedAt, records)[..k]);
  }

  /** Cutting a saved file anywhere is noticed, if and only if the cut is not harmless. */
  lemma {:induction false} TruncationRejectedIff(savedAt: int, records: seq<Record>, k: nat)
    requires Storable(savedAt, records) && k < |FileText(savedAt, records)|
    ensures Decode(FileText(savedAt, records)[..k]) == Rejected <==> !Harmless(savedAt, records, k)
  {
    if Harmless(savedAt, records, k) {
      MissingLastNewline(savedAt, records, k);
    } else {
      TruncationDetected(savedAt, records, k);
    }
  }
}
