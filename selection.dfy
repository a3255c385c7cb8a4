/**
 * Row selection as a data frame does it: `df.loc[mask]` and `df.loc[pred]`
 * keep the chosen rows, unchanged and in their original order, and
 * `pd.concat` joins frames end to end.
 */
module Selection {

  /** The rows for which `keep` holds, in input order. */
  function Select<T(!new)>(rows: seq<T>, keep: T -> bool): (r: seq<T>)
    ensures |r| <= |rows|
    ensures forall x :: x in r <==> x in rows && keep(x)
  {
    if rows == [] then []
    else (if keep(rows[0]) then [rows[0]] else []) + Select(rows[1..], keep)
  }

  /** `df.loc[mask]` for a boolean list with one entry per row. */
  function Mask<T(!new)>(rows: seq<T>, mask: seq<bool>): (r: seq<T>)
    requires |mask| == |rows|
    ensures |r| <= |rows|
    ensures forall x :: x in r <==> exists i :: 0 <= i < |rows| && mask[i] && rows[i] == x
  {
    if rows == [] then []
    else (if mask[0] then [rows[0]] else []) + Mask(rows[1..], mask[1..])
  }

  /** `sub` is `s` with some elements removed and the rest in order. */
  ghost predicate IsSubsequence<T>(sub: seq<T>, s: seq<T>)
    decreases |s|
  {
    if sub == [] then true
    else if s == [] then false
    else (sub[0] == s[0] && IsSubsequence(sub[1..], s[1..])) || IsSubsequence(sub, s[1..])
  }

  /** `pd.concat(frames)` without the error on an empty list. */
  function Flatten<T(!new)>(frames: seq<seq<T>>): (r: seq<T>)
    ensures forall x :: x in r <==> exists k :: 0 <= k < |frames| && x in frames[k]
  {
    if frames == [] then []
    else
      var pre := frames[..|frames| - 1];
      assert forall k :: 0 <= k < |pre| ==> pre[k] == frames[k];
      Flatten(pre) + frames[|frames| - 1]
  }

  /** A mask that agrees with `keep` row by row selects what `keep` selects. */
  lemma {:induction false} MaskIsSelect<T(!new)>(rows: seq<T>, mask: seq<bool>, keep: T -> bool)
    requires |mask| == |rows|
    requires forall i :: 0 <= i < |rows| ==> mask[i] == keep(rows[i])
    ensures Mask(rows, mask) == Select(rows, keep)
  {
    if rows != [] {
      MaskIsSelect(rows[1..], mask[1..], keep);
    }
  }

  lemma {:induction false} SelectIsSubsequence<T(!new)>(rows: seq<T>, keep: T -> bool)
    ensures IsSubsequence(Select(rows, keep), rows)
  {
    if rows != [] {
      SelectIsSubsequence(rows[1..], keep);
      var tail := Select(rows[1..], keep);
      if keep(rows[0]) {
        assert Select(rows, keep) == [rows[0]] + tail;
      } else {
        assert Select(rows, keep) == tail;
        SubsequenceOfTail(tail, rows);
      }
    }
  }

  lemma SubsequenceOfTail<T>(sub: seq<T>, s: seq<T>)
    requires s != [] && IsSubsequence(sub, s[1..])
    ensures IsSubsequence(sub, s)
  {
  }

  lemma {:induction false} SubsequenceTransitive<T>(a: seq<T>, b: seq<T>, c: seq<T>)
    requires IsSubsequence(a, b) && IsSubsequence(b, c)
    ensures IsSubsequence(a, c)
    decreases |c|
  {
    if a != [] {
      assert b != [] && c != [];
      if IsSubsequence(b, c[1..]) {
        SubsequenceTransitive(a, b, c[1..]);
      } else if a[0] == b[0] && IsSubsequence(a[1..], b[1..]) {
        SubsequenceTransitive(a[1..], b[1..], c[1..]);
      } else {
        SubsequenceTransitive(a, b[1..], c[1..]);
      }
    }
  }

  /** Selection distributes over concatenation. */
  lemma {:induction false} SelectConcat<T(!new)>(a: seq<T>, b: seq<T>, keep: T -> bool)
    ensures Select(a + b, keep) == Select(a, keep) + Select(b, keep)
  {
    if a != [] {
      assert (a + b)[1..] == a[1..] + b;
      SelectConcat(a[1..], b, keep);
    } else {
      assert a + b == b;
    }
  }

  /** A dropped row leaves the rows around it as they would be without it. */
  lemma SelectSkip<T(!new)>(before: seq<T>, x: T, after: seq<T>, keep: T -> bool)
    requires !keep(x)
    ensures Select(before + [x] + after, keep) == Select(before, keep) + Select(after, keep)
  {
    var single := [x];
    assert single[1..] == [];
    assert Select(single, keep) == [];
    SelectConcat(before, single, keep);
    SelectConcat(before + single, after, keep);
    assert Select(before + single, keep) == Select(before, keep);
  }

  /** Two selections in a row are one selection by the conjunction. */
  lemma {:induction false} SelectSelect<T(!new)>(rows: seq<T>, p: T -> bool, q: T -> bool, both: T -> bool)
    requires forall x :: both(x) == (p(x) && q(x))
    ensures Select(Select(rows, p), q) == Select(rows, both)
  {
    if rows != [] {
      SelectSelect(rows[1..], p, q, both);
      var sp := Select(rows, p);
      if p(rows[0]) {
        assert sp == [rows[0]] + Select(rows[1..], p);
        assert sp[0] == rows[0] && sp[1..] == Select(rows[1..], p);
        assert Select(sp, q) == (if q(rows[0]) then [rows[0]] else []) + Select(sp[1..], q);
      } else {
        assert sp == Select(rows[1..], p);
      }
    }
  }

  lemma SelectIdempotent<T(!new)>(rows: seq<T>, keep: T -> bool)
    ensures Select(Select(rows, keep), keep) == Select(rows, keep)
  {
    SelectSelect(rows, keep, keep, keep);
  }

  /** Selection returns its input exactly when every row is kept. */
  lemma {:induction false} SelectKeepsAllIff<T(!new)>(rows: seq<T>, keep: T -> bool)
    ensures Select(rows, keep) == rows <==> forall i :: 0 <= i < |rows| ==> keep(rows[i])
  {
    if rows != [] {
      SelectKeepsAllIff(rows[1..], keep);
      if !keep(rows[0]) {
        assert |Select(rows, keep)| < |rows|;
      } else {
        assert forall i :: 1 <= i < |rows| ==> rows[i] == rows[1..][i - 1];
      }
    }
  }

  /** The number of copies of `x` kept depends only on how many the input has. */
  lemma {:induction false} SelectCount<T(!new)>(rows: seq<T>, keep: T -> bool, x: T)
    ensures multiset(Select(rows, keep))[x] == if keep(x) then multiset(rows)[x] else 0
  {
    if rows != [] {
      SelectCount(rows[1..], keep, x);
      assert rows == [rows[0]] + rows[1..];
    }
  }

  lemma SelectPermutation<T(!new)>(a: seq<T>, b: seq<T>, keep: T -> bool)
    requires multiset(a) == multiset(b)
    ensures multiset(Select(a, keep)) == multiset(Select(b, keep))
  {
    forall x
      ensures multiset(Select(a, keep))[x] == multiset(Select(b, keep))[x]
    {
      SelectCount(a, keep, x);
      SelectCount(b, keep, x);
    }
  }

  /** Selecting from concatenated frames is concatenating the selections. */
  lemma {:induction false} SelectFlatten<T(!new)>(frames: seq<seq<T>>, keep: T -> bool)
    ensures Select(Flatten(frames), keep)
         == Flatten(seq(|frames|, k requires 0 <= k < |frames| => Select(frames[k], keep)))
  {
    if frames != [] {
      var n := |frames|;
      var pre := frames[..n - 1];
      SelectFlatten(pre, keep);
      SelectConcat(Flatten(pre), frames[n - 1], keep);
      var all := seq(n, k requires 0 <= k < n => Select(frames[k], keep));
      assert all[..n - 1] == seq(n - 1, k requires 0 <= k < n - 1 => Select(pre[k], keep));
    }
  }
}
