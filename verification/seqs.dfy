/** Sequence helpers shared by the catalog listings and the account views. */
module Seqs {

  /** No element occurs twice. */
  predicate NoDup<T(==)>(s: seq<T>) {
    forall i, j :: 0 <= i < j < |s| ==> s[i] != s[j]
  }

  /** The elements of `s` with later repetitions dropped; the first occurrence of
      each value keeps its place.  This is what a `DISTINCT` projection returns,
      up to an order the database leaves unspecified. */
  function Distinct<T(==,!new)>(s: seq<T>): (r: seq<T>)
    ensures NoDup(r)
    ensures forall x :: x in r <==> x in s
    ensures |r| <= |s|
  {
    if |s| == 0 then []
    else
      var front := Distinct(s[..|s| - 1]);
      var last := s[|s| - 1];
      assert forall x :: x in s <==> x in s[..|s| - 1] || x == last;
      if last in front then front else front + [last]
  }

  /** Number of occurrences of `x` in `s`. */
  function Count<T(==)>(s: seq<T>, x: T): nat {
    if |s| == 0 then 0
    else (if s[0] == x then 1 else 0) + Count(s[1..], x)
  }

  lemma {:induction false} CountPositive<T>(s: seq<T>, x: T)
    ensures Count(s, x) > 0 <==> x in s
  {
    if |s| > 0 {
      CountPositive(s[1..], x);
      assert x in s <==> s[0] == x || x in s[1..];
    }
  }

  lemma {:induction false} CountAppend<T>(s: seq<T>, x: T, y: T)
    ensures Count(s + [y], x) == Count(s, x) + (if y == x then 1 else 0)
  {
    if |s| > 0 {
      assert (s + [y])[1..] == s[1..] + [y];
      CountAppend(s[1..], x, y);
    }
  }

  /** In a duplicate-free sequence every member occurs exactly once. */
  lemma {:induction false} CountNoDup<T>(s: seq<T>, x: T)
    requires NoDup(s)
    ensures Count(s, x) == (if x in s then 1 else 0)
  {
    if |s| > 0 {
      assert NoDup(s[1..]) by {
        forall i, j | 0 <= i < j < |s[1..]| ensures s[1..][i] != s[1..][j] {
          assert s[1..][i] == s[i + 1] && s[1..][j] == s[j + 1];
        }
      }
      CountNoDup(s[1..], x);
      assert s[0] !in s[1..] by {
        forall k | 0 <= k < |s[1..]| ensures s[1..][k] != s[0] {
          assert s[1..][k] == s[k + 1];
        }
      }
      assert x in s <==> s[0] == x || x in s[1..];
    }
  }

  /** Sum over the keys `ks` of the number of times each occurs in `xs`. */
  function SumOfCounts<T(==)>(ks: seq<T>, xs: seq<T>): nat {
    if |ks| == 0 then 0 else Count(xs, ks[0]) + SumOfCounts(ks[1..], xs)
  }

  lemma {:induction false} SumOfCountsAppend<T>(ks: seq<T>, xs: seq<T>, y: T)
    ensures SumOfCounts(ks, xs + [y]) == SumOfCounts(ks, xs) + Count(ks, y)
  {
    if |ks| > 0 {
      CountAppend(xs, ks[0], y);
      SumOfCountsAppend(ks[1..], xs, y);
    }
  }

  /** Counting every element of `xs` once per key, over a duplicate-free list
      of keys that covers `xs`, gives back the length of `xs`. */
  lemma {:induction false} SumOfCountsCovers<T>(ks: seq<T>, xs: seq<T>)
    requires NoDup(ks)
    requires forall x :: x in xs ==> x in ks
    ensures SumOfCounts(ks, xs) == |xs|
  {
    if |xs| == 0 {
      SumOfCountsEmpty(ks, xs);
    } else {
      var front, last := xs[..|xs| - 1], xs[|xs| - 1];
      assert xs == front + [last];
      assert forall x :: x in front ==> x in xs;
      SumOfCountsCovers(ks, front);
      SumOfCountsAppend(ks, front, last);
      CountNoDup(ks, last);
    }
  }

  lemma {:induction false} SumOfCountsEmpty<T>(ks: seq<T>, xs: seq<T>)
    requires |xs| == 0
    ensures SumOfCounts(ks, xs) == 0
  {
    if |ks| > 0 {
      SumOfCountsEmpty(ks[1..], xs);
    }
  }

  /** The last `n` elements of `s` (all of `s` when it is shorter): Python's `s[-n:]`
      for a positive `n`. */
  function Tail<T>(s: seq<T>, n: nat): (r: seq<T>)
    requires n > 0
    ensures |r| == if |s| < n then |s| else n
    ensures forall i :: 0 <= i < |r| ==> r[i] == s[|s| - |r| + i]
  {
    if |s| <= n then s else s[|s| - n..]
  }
}
