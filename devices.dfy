/**
 * The list of distinct device names that `verify` accumulates (each name
 * at its first occurrence, in order), and what `len(...unique())` counts.
 */
module Devices {

  predicate NoDuplicates(s: seq<string>)
  {
    forall i, j :: 0 <= i < j < |s| ==> s[i] != s[j]
  }

  /** The position of the first occurrence of `x` in `s`. */
  function FirstIndex(s: seq<string>, x: string): (k: nat)
    requires x in s
    ensures k < |s| && s[k] == x
    ensures forall i :: 0 <= i < k ==> s[i] != x
  {
    if s[0] == x then 0 else 1 + FirstIndex(s[1..], x)
  }

  /**
   * Each element of `s` once, in the order of first occurrence; grown one
   * element at a time, as the loop grows it.
   */
  function Distinct(s: seq<string>): (d: seq<string>)
    ensures forall x :: x in d <==> x in s
    ensures NoDuplicates(d)
    ensures forall i, j :: 0 <= i < j < |d| ==> FirstIndex(s, d[i]) < FirstIndex(s, d[j])
  {
    if s == [] then []
    else
      var pre := s[..|s| - 1];
      var x := s[|s| - 1];
      var d := Distinct(pre);
      FirstIndexInPrefix(s, |s| - 1);
      if x in d then d
      else
        assert forall i :: 0 <= i < |s| - 1 ==> s[i] != x by {
          assert forall i :: 0 <= i < |s| - 1 ==> s[i] == pre[i];
        }
        assert FirstIndex(s, x) == |s| - 1;
        d + [x]
  }

  /** One more name extends the list exactly when it is new. */
  lemma DistinctSnoc(s: seq<string>, x: string)
    ensures Distinct(s + [x]) == if x in s then Distinct(s) else Distinct(s) + [x]
  {
    assert (s + [x])[..|s|] == s;
  }

  lemma FirstIndexInPrefix(s: seq<string>, n: nat)
    requires n <= |s|
    ensures forall y :: y in s[..n] ==> FirstIndex(s, y) == FirstIndex(s[..n], y)
  {
    forall y | y in s[..n]
      ensures FirstIndex(s, y) == FirstIndex(s[..n], y)
    {
      var k, k' := FirstIndex(s, y), FirstIndex(s[..n], y);
      assert s[k'] == y;
      assert forall i :: 0 <= i < k' ==> s[i] == s[..n][i];
    }
  }

  /** The set of elements of `s`, as `set(s)` would give it. */
  function Elements(s: seq<string>): (e: set<string>)
    ensures forall x :: x in e <==> x in s
  {
    set x | x in s
  }

  lemma {:induction false} NoDuplicatesSize(s: seq<string>)
    requires NoDuplicates(s)
    ensures |Elements(s)| == |s|
  {
    if s != [] {
      var pre := s[..|s| - 1];
      NoDuplicatesSize(pre);
      assert Elements(s) == Elements(pre) + {s[|s| - 1]};
      assert s[|s| - 1] !in Elements(pre);
    }
  }

  /** `len(s.unique())`: the number of distinct elements. */
  lemma DistinctSize(s: seq<string>)
    ensures |Distinct(s)| == |Elements(s)|
  {
    NoDuplicatesSize(Distinct(s));
    assert Elements(Distinct(s)) == Elements(s);
  }

  lemma {:induction false} NoDuplicatesCount(s: seq<string>, x: string)
    requires NoDuplicates(s)
    ensures multiset(s)[x] == if x in s then 1 else 0
  {
    if s != [] {
      var pre := s[..|s| - 1];
      NoDuplicatesCount(pre, x);
      assert s == pre + [s[|s| - 1]];
    }
  }

  /** Two duplicate-free lists with the same elements are permutations of each other. */
  lemma SameElementsPermutation(a: seq<string>, b: seq<string>)
    requires NoDuplicates(a) && NoDuplicates(b)
    requires forall x :: x in a <==> x in b
    ensures multiset(a) == multiset(b)
  {
    forall x
      ensures multiset(a)[x] == multiset(b)[x]
    {
      NoDuplicatesCount(a, x);
      NoDuplicatesCount(b, x);
    }
  }
}
