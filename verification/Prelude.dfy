/** Sequence vocabulary shared by every part of the model: options, order-preserving
    filters and order-preserving inclusion. */
module Prelude {

  datatype Option<+T> = None | Some(value: T)

  /** The largest 64-bit signed integer. */
  const MAX_LONG: int := 0x7fff_ffff_ffff_ffff

  lemma Assoc<T>(a: seq<T>, b: seq<T>, c: seq<T>)
    ensures (a + b) + c == a + (b + c)
  {
  }

  /** The first `n` readings of a clock. */
  function Readings(clock: nat -> int, n: nat): (r: seq<int>)
    ensures |r| == n && forall i :: 0 <= i < n ==> r[i] == clock(i)
  {
    seq(n, i requires i >= 0 => clock(i))
  }

  /** The elements of `xs` that satisfy `p`, in their original order. */
  function Keep<T(!new)>(xs: seq<T>, p: T -> bool): (ys: seq<T>)
    ensures |ys| <= |xs|
    ensures forall y :: y in ys <==> y in xs && p(y)
  {
    if xs == [] then []
    else if p(xs[0]) then [xs[0]] + Keep(xs[1..], p)
    else Keep(xs[1..], p)
  }

  lemma {:induction false} KeepConcat<T(!new)>(xs: seq<T>, ys: seq<T>, p: T -> bool)
    ensures Keep(xs + ys, p) == Keep(xs, p) + Keep(ys, p)
  {
    if xs == [] {
      assert xs + ys == ys;
    } else {
      assert (xs + ys)[1..] == xs[1..] + ys;
      KeepConcat(xs[1..], ys, p);
    }
  }

  lemma {:induction false} KeepAll<T(!new)>(xs: seq<T>, p: T -> bool)
    requires forall x :: x in xs ==> p(x)
    ensures Keep(xs, p) == xs
  {
    if xs != [] {
      KeepAll(xs[1..], p);
    }
  }

  /** A filter that drops something yields a strictly shorter sequence. */
  lemma {:induction false} KeepDrops<T(!new)>(xs: seq<T>, p: T -> bool, x: T)
    requires x in xs && !p(x)
    ensures |Keep(xs, p)| < |xs|
  {
    if p(xs[0]) {
      KeepDrops(xs[1..], p, x);
    }
  }

  /** Filtering first by the weaker predicate `q` changes nothing. */
  lemma {:induction false} KeepAbsorb<T(!new)>(xs: seq<T>, p: T -> bool, q: T -> bool)
    requires forall x :: x in xs && p(x) ==> q(x)
    ensures Keep(Keep(xs, q), p) == Keep(xs, p)
  {
    if xs != [] {
      KeepAbsorb(xs[1..], p, q);
      if q(xs[0]) {
        assert Keep(xs, q)[1..] == Keep(xs[1..], q);
      }
    }
  }

  lemma {:induction false} KeepCommute<T(!new)>(xs: seq<T>, p: T -> bool, q: T -> bool)
    ensures Keep(Keep(xs, q), p) == Keep(Keep(xs, p), q)
  {
    if xs != [] {
      KeepCommute(xs[1..], p, q);
      if q(xs[0]) {
        assert Keep(xs, q)[1..] == Keep(xs[1..], q);
      }
      if p(xs[0]) {
        assert Keep(xs, p)[1..] == Keep(xs[1..], p);
      }
    }
  }

  /** Two predicates that agree on `xs` filter it alike. */
  lemma {:induction false} KeepSame<T(!new)>(xs: seq<T>, p: T -> bool, q: T -> bool)
    requires forall x :: x in xs ==> p(x) == q(x)
    ensures Keep(xs, p) == Keep(xs, q)
  {
    if xs != [] {
      KeepSame(xs[1..], p, q);
    }
  }

  /** `xs` is obtained from `ys` by deleting elements: same elements, same order. */
  ghost predicate Sub<T>(xs: seq<T>, ys: seq<T>)
  {
    xs == [] ||
    (ys != [] && ((xs[0] == ys[0] && Sub(xs[1..], ys[1..])) || Sub(xs, ys[1..])))
  }

  lemma {:induction false} SubRefl<T>(xs: seq<T>)
    ensures Sub(xs, xs)
  {
    if xs != [] {
      SubRefl(xs[1..]);
    }
  }

  lemma {:induction false} SubSize<T>(xs: seq<T>, ys: seq<T>)
    requires Sub(xs, ys)
    ensures |xs| <= |ys|
    ensures forall x :: x in xs ==> x in ys
    decreases |ys|
  {
    if xs != [] {
      if xs[0] == ys[0] && Sub(xs[1..], ys[1..]) {
        SubSize(xs[1..], ys[1..]);
        assert xs == [xs[0]] + xs[1..];
      } else {
        SubSize(xs, ys[1..]);
      }
    }
  }

  lemma {:induction false} SubKeep<T(!new)>(xs: seq<T>, ys: seq<T>, p: T -> bool)
    requires Sub(xs, ys)
    ensures Sub(Keep(xs, p), Keep(ys, p))
    decreases |ys|
  {
    if xs != [] {
      if xs[0] == ys[0] && Sub(xs[1..], ys[1..]) {
        SubKeep(xs[1..], ys[1..], p);
        if p(xs[0]) {
          assert Keep(xs, p)[1..] == Keep(xs[1..], p);
          assert Keep(ys, p)[1..] == Keep(ys[1..], p);
        }
      } else {
        SubKeep(xs, ys[1..], p);
        SubCons(Keep(xs, p), Keep(ys[1..], p), ys[0]);
      }
    }
  }

  lemma {:induction false} KeepSub<T(!new)>(xs: seq<T>, p: T -> bool)
    ensures Sub(Keep(xs, p), xs)
  {
    if xs != [] {
      KeepSub(xs[1..], p);
      assert xs == [xs[0]] + xs[1..];
      SubCons(Keep(xs[1..], p), xs[1..], xs[0]);
    }
  }

  lemma {:induction false} SubCons<T>(xs: seq<T>, ys: seq<T>, y: T)
    requires Sub(xs, ys)
    ensures Sub(xs, [y] + ys)
    ensures Sub([y] + xs, [y] + ys)
  {
    assert ([y] + ys)[1..] == ys;
    assert ([y] + xs)[1..] == xs;
  }

  /** Deleting the last element of both sides keeps the inclusion. */
  lemma {:induction false} SubDropLasts<T>(xs: seq<T>, ys: seq<T>)
    requires Sub(xs, ys) && xs != []
    ensures ys != [] && Sub(xs[..|xs| - 1], ys[..|ys| - 1])
    decreases |ys|
  {
    if xs[0] == ys[0] && Sub(xs[1..], ys[1..]) {
      if |xs| > 1 {
        SubDropLasts(xs[1..], ys[1..]);
        assert xs[..|xs| - 1][1..] == xs[1..][..|xs| - 2];
        assert ys[..|ys| - 1][1..] == ys[1..][..|ys| - 2];
      }
    } else {
      SubDropLasts(xs, ys[1..]);
      assert ys[..|ys| - 1][1..] == ys[1..][..|ys| - 2];
    }
  }

  /** Deleting the last element of the smaller side keeps the inclusion. */
  lemma {:induction false} SubDropLast<T>(xs: seq<T>, ys: seq<T>)
    requires Sub(xs, ys) && xs != []
    ensures Sub(xs[..|xs| - 1], ys)
    decreases |ys|
  {
    if xs[0] == ys[0] && Sub(xs[1..], ys[1..]) {
      if |xs| > 1 {
        SubDropLast(xs[1..], ys[1..]);
        assert xs[..|xs| - 1][1..] == xs[1..][..|xs| - 2];
      }
    } else {
      SubDropLast(xs, ys[1..]);
    }
  }
}
