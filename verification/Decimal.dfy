/** Decimal numerals, as `std::to_string` and `operator<<` print them. */
module Decimal {

  predicate IsDigit(c: char) {
    '0' <= c <= '9'
  }

  function DigitChar(d: nat): (c: char)
    requires d < 10
    ensures IsDigit(c) && DigitValue(c) == d
  {
    ('0' as int + d) as char
  }

  function DigitValue(c: char): (d: nat)
    requires IsDigit(c)
    ensures d < 10
  {
    c as int - '0' as int
  }

  predicate AllDigits(s: string) {
    forall i :: 0 <= i < |s| ==> IsDigit(s[i])
  }

  /** The number a run of digits denotes, leading zeros allowed. */
  function NumberOf(s: string): nat
    requires AllDigits(s)
  {
    if s == [] then 0 else NumberOf(s[..|s| - 1]) * 10 + DigitValue(s[|s| - 1])
  }

  function Dec(n: nat): (s: string)
    ensures |s| >= 1 && AllDigits(s)
  {
    if n < 10 then [DigitChar(n)] else Dec(n / 10) + [DigitChar(n % 10)]
  }

  function Signed(n: int): (s: string)
    ensures |s| >= 1
  {
    if n < 0 then "-" + Dec(-n) else Dec(n)
  }

  /** Reading a printed number gives it back. */
  lemma {:induction false} ValueOfDec(n: nat)
    ensures NumberOf(Dec(n)) == n
  {
    if n >= 10 {
      ValueOfDec(n / 10);
      assert Dec(n)[..|Dec(n)| - 1] == Dec(n / 10);
    } else {
      assert Dec(n)[..0] == [];
    }
  }

  lemma {:induction false} DecInjective(m: nat, n: nat)
    requires Dec(m) == Dec(n)
    ensures m == n
  {
    ValueOfDec(m);
    ValueOfDec(n);
  }

  /** Printed numbers carry no leading zero. */
  lemma {:induction false} NoLeadingZero(n: nat)
    ensures Dec(n)[0] == '0' <==> n == 0
  {
    if n >= 10 {
      NoLeadingZero(n / 10);
    }
  }

  /** An optional minus sign and digits that denote the number; zeros in front do not matter. */
  predicate Denotes(numeral: string, n: int) {
    || (numeral != [] && AllDigits(numeral) && NumberOf(numeral) == n)
    || (|numeral| > 1 && numeral[0] == '-' && AllDigits(numeral[1..]) && NumberOf(numeral[1..]) == -n)
  }

  lemma {:induction false} SignedDenotes(n: int)
    ensures Denotes(Signed(n), n)
  {
    ValueOfDec(if n < 0 then -n else n);
    if n < 0 {
      assert Signed(n)[1..] == Dec(-n);
    }
  }

  /** Ten to the power of `n`. */
  function Scale(n: nat): nat {
    if n == 0 then 1 else 10 * Scale(n - 1)
  }

  /** Each digit counts for its place: further digits shift the ones before them. */
  lemma {:induction false} PlaceValue(a: string, b: string)
    requires AllDigits(a) && AllDigits(b)
    ensures NumberOf(a + b) == NumberOf(a) * Scale(|b|) + NumberOf(b)
  {
    if b == [] {
      assert a + b == a;
    } else {
      var front := b[..|b| - 1];
      PlaceValue(a, front);
      assert (a + b)[..|a + b| - 1] == a + front;
      assert NumberOf(a) * Scale(|b|) == NumberOf(a) * Scale(|front|) * 10;
    }
  }

  /** The ten digits. */
  lemma DigitTable(d: nat)
    requires d < 10
    ensures NumberOf(["0123456789"[d]]) == d && Dec(d) == ["0123456789"[d]]
  {
    assert ["0123456789"[d]][..0] == [];
  }

  // ---- Runs of digits at the front of a text

  function DigitRun(s: string): (n: nat)
    ensures n <= |s| && AllDigits(s[..n])
    ensures n < |s| ==> !IsDigit(s[n])
  {
    if s == [] || !IsDigit(s[0]) then 0 else 1 + DigitRun(s[1..])
  }

  lemma {:induction false} DigitRunUnique(digits: string, rest: string)
    requires AllDigits(digits) && (rest != [] ==> !IsDigit(rest[0]))
    ensures DigitRun(digits + rest) == |digits|
  {
    if digits != [] {
      assert (digits + rest)[1..] == digits[1..] + rest;
      DigitRunUnique(digits[1..], rest);
    } else {
      assert digits + rest == rest;
    }
  }

  /** Scans the digits in front: what follows them, how many, and their number. */
  function ScanNat(s: string): (string, nat, nat) {
    var n := DigitRun(s);
    (s[n..], n, NumberOf(s[..n]))
  }

  lemma {:induction false} ScansDec(n: nat, tail: string)
    requires tail != [] ==> !IsDigit(tail[0])
    ensures ScanNat(Dec(n) + tail) == (tail, |Dec(n)|, n)
  {
    DigitRunUnique(Dec(n), tail);
    ValueOfDec(n);
    assert (Dec(n) + tail)[..|Dec(n)|] == Dec(n) && (Dec(n) + tail)[|Dec(n)|..] == tail;
  }

  lemma {:induction false} PositiveNumber(s: string)
    requires AllDigits(s) && s != [] && s[0] != '0'
    ensures NumberOf(s) > 0
  {
    if |s| > 1 {
      PositiveNumber(s[..|s| - 1]);
    }
  }
}
