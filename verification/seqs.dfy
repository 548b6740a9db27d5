/** `Array.prototype.filter`: the order-preserving sub-list of the elements
    that satisfy a predicate. */
module Seqs {

  function Filter<T>(s: seq<T>, keep: T -> bool): (r: seq<T>)
    ensures |r| <= |s|
    ensures forall i :: 0 <= i < |r| ==> keep(r[i])
    ensures forall x :: x in r ==> x in s
    ensures forall x :: x in s && keep(x) ==> x in r
  {
    if |s| == 0 then []
    else if keep(s[0]) then [s[0]] + Filter(s[1..], keep)
    else Filter(s[1..], keep)
  }

  /** Order-preserving sub-list: `a` is obtained from `b` by deleting elements. */
  ghost predicate IsSubsequence<T>(a: seq<T>, b: seq<T>)
    decreases |b|
  {
    if |a| == 0 then true
    else if |b| == 0 then false
    else if a[0] == b[0] then IsSubsequence(a[1..], b[1..])
    else IsSubsequence(a, b[1..])
  }

  lemma {:induction false} FilterIsSubsequence<T>(s: seq<T>, keep: T -> bool)
    ensures IsSubsequence(Filter(s, keep), s)
  {
    if |s| > 0 {
      FilterIsSubsequence(s[1..], keep);
      if !keep(s[0]) {
        SubsequenceDropHead(Filter(s[1..], keep), s);
      }
    }
  }

  /** A sub-list of the tail is a sub-list of the whole. */
  lemma {:induction false} SubsequenceDropHead<T>(a: seq<T>, b: seq<T>)
    requires |b| >= 1
    requires IsSubsequence(a, b[1..])
    ensures IsSubsequence(a, b)
    decreases |a| + |b|
  {
    if |a| > 0 && a[0] == b[0] {
      // the tail of `a` is a sub-list of what is left of b[1..] once its head is gone
      SubsequenceTail(a, b[1..]);
    }
  }

  /** Dropping the head of a non-empty sub-list leaves a sub-list. */
  lemma {:induction false} SubsequenceTail<T>(a: seq<T>, b: seq<T>)
    requires |a| >= 1
    requires IsSubsequence(a, b)
    ensures IsSubsequence(a[1..], b)
    decreases |a| + |b|
  {
    assert |b| >= 1;
    if a[0] == b[0] {
      SubsequenceDropHead(a[1..], b);
    } else {
      SubsequenceTail(a, b[1..]);
      SubsequenceDropHead(a[1..], b);
    }
  }

  /** Every occurrence of a kept element survives; no other element does. */
  lemma {:induction false} FilterMultiplicity<T>(s: seq<T>, keep: T -> bool, x: T)
    ensures multiset(Filter(s, keep))[x] == if keep(x) then multiset(s)[x] else 0
  {
    if |s| > 0 {
      FilterMultiplicity(s[1..], keep, x);
      assert s == [s[0]] + s[1..];
      assert multiset(s) == multiset{s[0]} + multiset(s[1..]);
    }
  }

  /** Filtering distributes over concatenation. */
  lemma {:induction false} FilterAppend<T>(a: seq<T>, b: seq<T>, keep: T -> bool)
    ensures Filter(a + b, keep) == Filter(a, keep) + Filter(b, keep)
  {
    if |a| == 0 {
      assert a + b == b;
    } else {
      assert (a + b)[1..] == a[1..] + b;
      FilterAppend(a[1..], b, keep);
    }
  }

  /** Filtering depends only on the verdicts of the predicate on the elements. */
  lemma {:induction false} FilterCongruence<T>(s: seq<T>, keep: T -> bool, keep': T -> bool)
    requires forall i :: 0 <= i < |s| ==> keep(s[i]) == keep'(s[i])
    ensures Filter(s, keep) == Filter(s, keep')
  {
    if |s| > 0 {
      FilterCongruence(s[1..], keep, keep');
    }
  }

  /** If filtering `rest` gives the filtered tail of `s` followed by
      `extra`, then putting the head of `s` in front of `rest` gives the
      filtered `s` followed by `extra`. */
  lemma FilterSameHead<T>(s: seq<T>, rest: seq<T>, extra: seq<T>, keep: T -> bool)
    requires |s| > 0
    requires Filter(rest, keep) == Filter(s[1..], keep) + extra
    ensures Filter([s[0]] + rest, keep) == Filter(s, keep) + extra
  {
    FilterCons(s[0], rest, keep);
    if keep(s[0]) {
      AppendAssociative([s[0]], Filter(s[1..], keep), extra);
    }
  }

  /** Stated on its own so that callers regroup a concatenation in a small
      context rather than next to `Filter`'s quantified facts. */
  lemma AppendAssociative<T>(a: seq<T>, b: seq<T>, c: seq<T>)
    ensures a + (b + c) == (a + b) + c
  {
  }

  /** Filtering a list with a known head. */
  lemma FilterCons<T>(x: T, s: seq<T>, keep: T -> bool)
    ensures keep(x) ==> Filter([x] + s, keep) == [x] + Filter(s, keep)
    ensures !keep(x) ==> Filter([x] + s, keep) == Filter(s, keep)
  {
    assert ([x] + s)[1..] == s;
  }

  /** `s.indexOf(x)` with `|s|` in place of -1: the position of the first
      occurrence of `x`. */
  function FirstIndex<T(==)>(s: seq<T>, x: T): (r: nat)
    ensures r <= |s|
    ensures r < |s| <==> x in s
    ensures r < |s| ==> s[r] == x
    ensures forall j :: 0 <= j < r ==> s[j] != x
  {
    if |s| == 0 then 0
    else if s[0] == x then 0
    else 1 + FirstIndex(s[1..], x)
  }

  /** Appending an element leaves the first occurrences of earlier
      elements where they were, and a new element is first met at the end. */
  lemma FirstIndexAppend<T>(s: seq<T>, y: T, x: T)
    ensures x in s ==> FirstIndex(s + [y], x) == FirstIndex(s, x)
    ensures x !in s && x == y ==> FirstIndex(s + [y], x) == |s|
  {
    if x in s {
      assert (s + [y])[FirstIndex(s, x)] == x;
    } else if x == y {
      assert (s + [y])[|s|] == x;
    }
  }
}
