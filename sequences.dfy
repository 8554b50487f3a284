/** Sequence operations shared by the list-handling code: `Array.prototype.filter`,
    insertion into a JavaScript `Set`, and the order-preservation facts about them. */
module Sequences {

  /** No element occurs twice. */
  predicate NoDuplicates<T(==)>(s: seq<T>) {
    forall i, j :: 0 <= i < j < |s| ==> s[i] != s[j]
  }

  /** `a` is obtained from `b` by deleting elements, keeping the order of the rest. */
  predicate IsSubsequence<T(==)>(a: seq<T>, b: seq<T>)
    decreases |b|
  {
    a == [] ||
    (b != [] && ((a[0] == b[0] && IsSubsequence(a[1..], b[1..])) || IsSubsequence(a, b[1..])))
  }

  /** `a` occurs as a contiguous block inside `b`. */
  predicate IsInfix<T(==)>(a: seq<T>, b: seq<T>) {
    exists k :: 0 <= k <= |b| - |a| && InfixAt(a, b, k)
  }

  /** `a` occurs in `b` starting at index `k`. */
  predicate InfixAt<T(==)>(a: seq<T>, b: seq<T>, k: int) {
    0 <= k <= |b| - |a| && b[k..k + |a|] == a
  }

  /** Index of the first occurrence of `x` in `s`. */
  function FirstIndex<T(==)>(s: seq<T>, x: T): (k: nat)
    requires x in s
    ensures k < |s| && s[k] == x
    ensures forall j :: 0 <= j < k ==> s[j] != x
  {
    if s[0] == x then 0 else 1 + FirstIndex(s[1..], x)
  }

  /** `xs.filter(p)`: the elements satisfying `p`, in their original order. */
  function Filter<T>(xs: seq<T>, p: T -> bool): (r: seq<T>)
    ensures |r| <= |xs|
    ensures forall k :: 0 <= k < |r| ==> r[k] in xs && p(r[k])
    ensures forall k :: 0 <= k < |xs| && p(xs[k]) ==> xs[k] in r
    decreases |xs|
  {
    if xs == [] then []
    else if p(xs[0]) then [xs[0]] + Filter(xs[1..], p)
    else Filter(xs[1..], p)
  }

  lemma {:induction false} FilterAppend<T>(xs: seq<T>, ys: seq<T>, p: T -> bool)
    ensures Filter(xs + ys, p) == Filter(xs, p) + Filter(ys, p)
    decreases |xs|
  {
    if xs == [] {
      assert xs + ys == ys;
    } else {
      assert (xs + ys)[1..] == xs[1..] + ys;
      FilterAppend(xs[1..], ys, p);
    }
  }

  /** The filtered list is a subsequence of the original one: order is kept. */
  lemma {:induction false} FilterIsSubsequence<T>(xs: seq<T>, p: T -> bool)
    ensures IsSubsequence(Filter(xs, p), xs)
    decreases |xs|
  {
    if xs != [] {
      FilterIsSubsequence(xs[1..], p);
    }
  }

  /** Each element `p` keeps occurs as often in the result as in the input. */
  lemma {:induction false} FilterKeepsMultiplicity<T>(xs: seq<T>, p: T -> bool, x: T)
    ensures multiset(Filter(xs, p))[x] == if p(x) then multiset(xs)[x] else 0
    decreases |xs|
  {
    if xs != [] {
      FilterKeepsMultiplicity(xs[1..], p, x);
      assert xs == [xs[0]] + xs[1..];
    }
  }

  /** A filter every element passes changes nothing. */
  lemma {:induction false} FilterAllPass<T>(xs: seq<T>, p: T -> bool)
    requires forall k :: 0 <= k < |xs| ==> p(xs[k])
    ensures Filter(xs, p) == xs
    decreases |xs|
  {
    if xs != [] {
      FilterAllPass(xs[1..], p);
    }
  }

  /** Filtering twice by the same predicate is filtering once. */
  lemma FilterIdempotent<T>(xs: seq<T>, p: T -> bool)
    ensures Filter(Filter(xs, p), p) == Filter(xs, p)
  {
    FilterAllPass(Filter(xs, p), p);
  }

  /** Filtering never introduces a repeated element. */
  lemma {:induction false} FilterNoDuplicates<T>(xs: seq<T>, p: T -> bool)
    requires NoDuplicates(xs)
    ensures NoDuplicates(Filter(xs, p))
    decreases |xs|
  {
    if xs != [] {
      assert NoDuplicates(xs[1..]) by {
        forall i, j | 0 <= i < j < |xs[1..]| ensures xs[1..][i] != xs[1..][j] {
          assert xs[1..][i] == xs[i + 1] && xs[1..][j] == xs[j + 1];
        }
      }
      FilterNoDuplicates(xs[1..], p);
      if p(xs[0]) {
        var r, rest := Filter(xs, p), Filter(xs[1..], p);
        assert r == [xs[0]] + rest;
        forall i, j | 0 <= i < j < |r| ensures r[i] != r[j] {
          assert r[j] == rest[j - 1];
          if i == 0 {
            var m :| 0 <= m < |xs[1..]| && xs[1..][m] == rest[j - 1];
            assert r[j] == xs[m + 1];
          } else {
            assert r[i] == rest[i - 1];
          }
        }
      }
    }
  }

  /** `Array.from(new Set(xs))`: every element once, at the position of its first
      appearance. Built by inserting the elements one after another, as `Set` does. */
  function Dedupe<T(==)>(xs: seq<T>): (r: seq<T>)
    ensures forall k :: 0 <= k < |r| ==> r[k] in xs
    ensures forall k :: 0 <= k < |xs| ==> xs[k] in r
    ensures NoDuplicates(r)
    decreases |xs|
  {
    if xs == [] then []
    else
      var prev := Dedupe(xs[..|xs| - 1]);
      if xs[|xs| - 1] in prev then prev else prev + [xs[|xs| - 1]]
  }

  /** The elements of `Dedupe(xs)` are ordered by where they first appear in `xs`. */
  lemma {:induction false} DedupeKeepsFirstAppearanceOrder<T>(xs: seq<T>)
    ensures forall i, j :: 0 <= i < j < |Dedupe(xs)| ==>
      FirstIndex(xs, Dedupe(xs)[i]) < FirstIndex(xs, Dedupe(xs)[j])
    decreases |xs|
  {
    if xs != [] {
      var init, last := xs[..|xs| - 1], xs[|xs| - 1];
      assert xs == init + [last];
      DedupeKeepsFirstAppearanceOrder(init);
      FirstIndexOfPrefix(init, last);
      var prev, r := Dedupe(init), Dedupe(xs);
      forall i, j | 0 <= i < j < |r|
        ensures FirstIndex(xs, r[i]) < FirstIndex(xs, r[j])
      {
        assert r[i] == prev[i] && r[i] in init;
        if j < |prev| {
          assert r[j] == prev[j] && r[j] in init;
        } else {
          assert r[j] == last && last !in prev;
          assert last !in init;
        }
      }
    }
  }

  /** Extending a list at the end keeps the first index of what was already there. */
  lemma FirstIndexOfPrefix<T>(init: seq<T>, last: T)
    ensures forall x :: x in init ==> FirstIndex(init + [last], x) == FirstIndex(init, x)
    ensures last !in init ==> FirstIndex(init + [last], last) == |init|
  {
    var s := init + [last];
    forall x | x in init
      ensures FirstIndex(s, x) == FirstIndex(init, x)
    {
      var k := FirstIndex(init, x);
      assert s[k] == x;
      var m := FirstIndex(s, x);
      assert init[m] == s[m];
    }
    if last !in init {
      assert s[|init|] == last;
    }
  }
}
