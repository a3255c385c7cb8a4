/** Sums and arithmetic means of a real-valued column. */
module Averages {

  function SumOf<T>(s: seq<T>, f: T --> real): real
    requires forall i :: 0 <= i < |s| ==> f.requires(s[i])
  {
    if s == [] then 0.0 else f(s[0]) + SumOf(s[1..], f)
  }

  /** `Series.mean()` of a non-empty column. */
  function MeanOf<T>(s: seq<T>, f: T --> real): (m: real)
    requires s != []
    requires forall i :: 0 <= i < |s| ==> f.requires(s[i])
    ensures m * |s| as real == SumOf(s, f)
  {
    SumOf(s, f) / |s| as real
  }

  /** The mean of a column holding one value throughout is that value. */
  lemma MeanOfConstant<T>(s: seq<T>, f: T --> real, c: real)
    requires s != []
    requires forall i :: 0 <= i < |s| ==> f.requires(s[i]) && f(s[i]) == c
    ensures MeanOf(s, f) == c
  {
    SumOfConstant(s, f, c);
  }

  /** A column holding one value `c` throughout sums to `c` times its length. */
  lemma {:induction false} SumOfConstant<T>(s: seq<T>, f: T --> real, c: real)
    requires forall i :: 0 <= i < |s| ==> f.requires(s[i]) && f(s[i]) == c
    ensures SumOf(s, f) == |s| as real * c
  {
    if s != [] {
      SumOfConstant(s[1..], f, c);
    }
  }

  lemma {:induction false} SumOfConcat<T>(a: seq<T>, b: seq<T>, f: T --> real)
    requires forall i :: 0 <= i < |a| ==> f.requires(a[i])
    requires forall i :: 0 <= i < |b| ==> f.requires(b[i])
    ensures SumOf(a + b, f) == SumOf(a, f) + SumOf(b, f)
  {
    if a == [] {
      assert a + b == b;
    } else {
      assert (a + b)[1..] == a[1..] + b;
      SumOfConcat(a[1..], b, f);
    }
  }

  /** A sum does not depend on the order of its terms. */
  lemma {:induction false} SumOfPermutation<T>(a: seq<T>, b: seq<T>, f: T --> real)
    requires multiset(a) == multiset(b)
    requires forall i :: 0 <= i < |a| ==> f.requires(a[i])
    ensures forall i :: 0 <= i < |b| ==> f.requires(b[i])
    ensures SumOf(a, f) == SumOf(b, f)
    decreases |a|
  {
    forall i | 0 <= i < |b|
      ensures f.requires(b[i])
    {
      assert b[i] in multiset(a);
    }
    if a != [] {
      var x := a[0];
      assert x in multiset(b);
      var k :| 0 <= k < |b| && b[k] == x;
      var rest := b[..k] + b[k + 1..];
      assert b == b[..k] + [x] + b[k + 1..];
      assert a == [x] + a[1..];
      assert multiset(b) == multiset(b[..k]) + multiset{x} + multiset(b[k + 1..]);
      assert multiset(rest) == multiset(b[..k]) + multiset(b[k + 1..]);
      assert multiset(a) == multiset{x} + multiset(a[1..]);
      assert multiset(a[1..]) == multiset(a) - multiset{x};
      assert multiset(rest) == multiset(b) - multiset{x};
      SumOfPermutation(a[1..], rest, f);
      SumOfConcat(b[..k], b[k + 1..], f);
      SumOfConcat(b[..k] + [x], b[k + 1..], f);
      SumOfConcat(b[..k], [x], f);
    }
  }

  /** Terms that agree term by term have the same sum. */
  lemma {:induction false} SumOfCongruent<T>(s: seq<T>, f: T --> real, g: T --> real)
    requires forall i :: 0 <= i < |s| ==> f.requires(s[i]) && g.requires(s[i]) && f(s[i]) == g(s[i])
    ensures SumOf(s, f) == SumOf(s, g)
  {
    if s != [] {
      SumOfCongruent(s[1..], f, g);
    }
  }

  lemma {:induction false} SumOfBounds<T>(s: seq<T>, f: T --> real, lo: real, hi: real)
    requires forall i :: 0 <= i < |s| ==> f.requires(s[i]) && lo <= f(s[i]) <= hi
    ensures |s| as real * lo <= SumOf(s, f) <= |s| as real * hi
  {
    if s != [] {
      SumOfBounds(s[1..], f, lo, hi);
    }
  }

  /** A mean lies between any lower and upper bound of its terms. */
  lemma MeanOfBounds<T>(s: seq<T>, f: T --> real, lo: real, hi: real)
    requires s != []
    requires forall i :: 0 <= i < |s| ==> f.requires(s[i]) && lo <= f(s[i]) <= hi
    ensures lo <= MeanOf(s, f) <= hi
  {
    SumOfBounds(s, f, lo, hi);
    QuotientBounds(SumOf(s, f), |s| as real, lo, hi);
  }

  lemma QuotientBounds(total: real, n: real, lo: real, hi: real)
    requires n > 0.0 && n * lo <= total <= n * hi
    ensures lo <= total / n <= hi
  {
    DivNonNegative(total - n * lo, n);
    DivNonNegative(n * hi - total, n);
    assert (total - n * lo) / n == total / n - lo;
    assert (n * hi - total) / n == hi - total / n;
  }

  lemma DivNonNegative(a: real, n: real)
    requires a >= 0.0 && n > 0.0
    ensures a / n >= 0.0
  {
  }
}
