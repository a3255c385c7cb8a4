/** Positional notation: the value of a digit string in a base, and its inverse. */
module Positional {

  function Pow(b: nat, n: nat): (r: nat)
    ensures b > 0 ==> r > 0
  {
    if n == 0 then 1 else b * Pow(b, n - 1)
  }

  predicate IsDigits(ds: seq<int>, base: nat)
  {
    forall i :: 0 <= i < |ds| ==> 0 <= ds[i] < base
  }

  /** Most significant digit first; the empty string has value 0. */
  function Value(ds: seq<int>, base: nat): (v: nat)
    requires IsDigits(ds, base)
    ensures v < Pow(base, |ds|)
  {
    if ds == [] then 0
    else
      var v' := Value(ds[..|ds| - 1], base);
      BoundStep(v', ds[|ds| - 1], base, Pow(base, |ds| - 1));
      v' * base + ds[|ds| - 1]
  }

  function Quot(v: nat, base: nat): nat
    requires base > 0
  {
    v / base
  }

  function Rem(v: nat, base: nat): (r: nat)
    requires base > 0
    ensures r < base
  {
    v % base
  }

  /** The `width` least significant digits of `v`, most significant first. */
  function Digits(v: nat, base: nat, width: nat): (ds: seq<int>)
    requires base > 1
    ensures |ds| == width && IsDigits(ds, base)
    decreases width
  {
    if width == 0 then [] else Digits(Quot(v, base), base, width - 1) + [Rem(v, base)]
  }

  lemma MulLe(a: int, b: int, c: int)
    requires a <= b && c >= 0
    ensures a * c <= b * c
  {
    assert (b - a) * c >= 0;
  }

  lemma MulStrictLt(a: int, b: int, c: int)
    requires c > 0 && a * c < b * c
    ensures a < b
  {
    if a >= b {
      MulLe(b, a, c);
    }
  }

  lemma BoundStep(q: nat, d: int, base: nat, p: nat)
    requires 0 <= d < base && q < p
    ensures q * base + d < p * base
  {
    MulLe(q, p - 1, base);
    assert (p - 1) * base == p * base - base;
  }

  lemma DivModOf(q: nat, d: int, base: nat)
    requires 0 <= d < base
    ensures Quot(q * base + d, base) == q && Rem(q * base + d, base) == d
  {
    var n := q * base + d;
    var t, r := n / base, n % base;
    assert n == t * base + r;
    assert (t - q) * base == d - r;
    MulStrictLt(t - q, 1, base);
    MulStrictLt(-1, t - q, base);
  }

  lemma DivMod(v: nat, base: nat)
    requires base > 0
    ensures v == Quot(v, base) * base + Rem(v, base)
  {
  }

  lemma DivBound(v: nat, base: nat, p: nat)
    requires base > 0 && v < p * base
    ensures Quot(v, base) < p
  {
    assert v / base * base <= v;
    MulStrictLt(v / base, p, base);
  }

  lemma {:induction false} ValueOfDigits(v: nat, base: nat, width: nat)
    requires base > 1 && v < Pow(base, width)
    ensures Value(Digits(v, base, width), base) == v
    decreases width
  {
    if width > 0 {
      var ds := Digits(v, base, width);
      assert ds[..width - 1] == Digits(Quot(v, base), base, width - 1);
      assert Pow(base, width) == Pow(base, width - 1) * base;
      DivBound(v, base, Pow(base, width - 1));
      ValueOfDigits(Quot(v, base), base, width - 1);
      DivMod(v, base);
    }
  }

  lemma {:induction false} DigitsOfValue(ds: seq<int>, base: nat)
    requires base > 1 && IsDigits(ds, base)
    ensures Digits(Value(ds, base), base, |ds|) == ds
    decreases |ds|
  {
    if ds != [] {
      var pre := ds[..|ds| - 1];
      DivModOf(Value(pre, base), ds[|ds| - 1], base);
      DigitsOfValue(pre, base);
    }
  }

  lemma {:induction false} PowAdd(b: nat, m: nat, n: nat)
    ensures Pow(b, m + n) == Pow(b, m) * Pow(b, n)
  {
    if n > 0 {
      PowAdd(b, m, n - 1);
      var x, y := Pow(b, m), Pow(b, n - 1);
      assert Pow(b, m + n) == b * (x * y);
      assert b * (x * y) == x * (b * y);
    }
  }

  lemma {:induction false} PowPow(b: nat, k: nat, n: nat)
    ensures Pow(Pow(b, k), n) == Pow(b, k * n)
  {
    if n > 0 {
      PowPow(b, k, n - 1);
      PowAdd(b, k, k * (n - 1));
      assert k + k * (n - 1) == k * n;
    }
  }

  /** 64 hex digits and 32 bytes both hold exactly the integers below 2^256. */
  lemma PowMonotone(b: nat, m: nat, n: nat)
    requires b > 0 && m <= n
    ensures Pow(b, m) <= Pow(b, n)
  {
    PowAdd(b, m, n - m);
    MulLe(1, Pow(b, n - m), Pow(b, m));
  }

  lemma FieldWidths()
    ensures Pow(16, 64) == Pow(2, 256)
    ensures Pow(256, 32) == Pow(2, 256)
  {
    assert Pow(2, 4) == 16 by {
      assert Pow(2, 1) == 2;
      assert Pow(2, 2) == 4;
      assert Pow(2, 3) == 8;
    }
    assert Pow(2, 8) == 256 by {
      PowAdd(2, 4, 4);
    }
    PowPow(2, 4, 64);
    PowPow(2, 8, 32);
  }
}
