/** Row selection by a boolean mask (`data[ind]` followed by `reset_index`):
    the order-preserving filter every step of the pipeline is built from. */
module Seqs {

  /** The elements of `s` satisfying `p`, in their original order. */
  function Filter<T(!new)>(s: seq<T>, p: T -> bool): (r: seq<T>)
    ensures |r| <= |s|
    ensures forall x :: x in r <==> x in s && p(x)
  {
    if s == [] then []
    else (if p(s[0]) then [s[0]] else []) + Filter(s[1..], p)
  }

  /** How many elements of `s` satisfy `p` (`np.sum(ind)`). */
  function CountWhere<T(!new)>(s: seq<T>, p: T -> bool): nat
  {
    if s == [] then 0
    else (if p(s[0]) then 1 else 0) + CountWhere(s[1..], p)
  }

  /** `a` is obtained from `b` by deleting some elements. */
  predicate IsSubsequence<T(==)>(a: seq<T>, b: seq<T>)
    decreases |b|
  {
    if a == [] then true
    else if b == [] then false
    else if a[0] == b[0] then IsSubsequence(a[1..], b[1..])
    else IsSubsequence(a, b[1..])
  }

  /** The number of survivors is the number of elements that satisfy the mask. */
  lemma {:induction false} FilterCount<T(!new)>(s: seq<T>, p: T -> bool)
    ensures |Filter(s, p)| == CountWhere(s, p)
  {
    if s != [] {
      FilterCount(s[1..], p);
    }
  }

  /** Every element is either kept or removed: the survivors of a mask plus
      the elements its complement counts make up the input. */
  lemma {:induction false} FilterSplit<T(!new)>(s: seq<T>, p: T -> bool, q: T -> bool)
    requires forall i :: 0 <= i < |s| ==> q(s[i]) == !p(s[i])
    ensures |Filter(s, p)| + CountWhere(s, q) == |s|
  {
    if s != [] {
      FilterSplit(s[1..], p, q);
    }
  }

  /** Filtering distributes over concatenation, so no element moves past another. */
  lemma {:induction false} FilterAppend<T(!new)>(a: seq<T>, b: seq<T>, p: T -> bool)
    ensures Filter(a + b, p) == Filter(a, p) + Filter(b, p)
  {
    if a == [] {
      assert a + b == b;
    } else {
      assert (a + b)[1..] == a[1..] + b;
      FilterAppend(a[1..], b, p);
    }
  }

  /** Two successive filters are one filter by the conjunction. */
  lemma {:induction false} FilterFilter<T(!new)>(s: seq<T>, p: T -> bool, q: T -> bool, both: T -> bool)
    requires forall i :: 0 <= i < |s| ==> both(s[i]) == (p(s[i]) && q(s[i]))
    ensures Filter(Filter(s, p), q) == Filter(s, both)
  {
    if s != [] {
      FilterFilter(s[1..], p, q, both);
      var head := if p(s[0]) then [s[0]] else [];
      FilterAppend(head, Filter(s[1..], p), q);
    }
  }

  /** A filter agreeing with another on every element of `s` selects the same rows. */
  lemma {:induction false} FilterExtensional<T(!new)>(s: seq<T>, p: T -> bool, q: T -> bool)
    requires forall i :: 0 <= i < |s| ==> p(s[i]) == q(s[i])
    ensures Filter(s, p) == Filter(s, q)
  {
    if s != [] {
      FilterExtensional(s[1..], p, q);
    }
  }

  /** A mask every element passes removes nothing. */
  lemma {:induction false} FilterKeepsAll<T(!new)>(s: seq<T>, p: T -> bool)
    requires forall i :: 0 <= i < |s| ==> p(s[i])
    ensures Filter(s, p) == s
  {
    if s != [] {
      FilterKeepsAll(s[1..], p);
    }
  }

  /** A mask no element passes removes everything. */
  lemma {:induction false} FilterDropsAll<T(!new)>(s: seq<T>, p: T -> bool)
    requires forall i :: 0 <= i < |s| ==> !p(s[i])
    ensures Filter(s, p) == []
  {
    if s != [] {
      FilterDropsAll(s[1..], p);
    }
  }

  /** Dropping the first element of a subsequence leaves a subsequence. */
  lemma {:induction false} SubsequenceTail<T>(a: seq<T>, b: seq<T>)
    requires a != [] && IsSubsequence(a, b)
    ensures IsSubsequence(a[1..], b)
    decreases |b|, 1
  {
    if a[0] == b[0] {
      SubsequenceCons(a[1..], b[1..], b[0]);
    } else {
      SubsequenceTail(a, b[1..]);
      SubsequenceCons(a[1..], b[1..], b[0]);
    }
  }

  /** Prepending an element to the larger sequence keeps a subsequence a subsequence. */
  lemma {:induction false} SubsequenceCons<T>(a: seq<T>, b: seq<T>, x: T)
    requires IsSubsequence(a, b)
    ensures IsSubsequence(a, [x] + b)
    decreases |b| + 1, 0
  {
    assert ([x] + b)[1..] == b;
    if a != [] && a[0] == x {
      SubsequenceTail(a, b);
    }
  }

  /** The filter keeps the survivors in their input order. */
  lemma {:induction false} FilterIsSubsequence<T(!new)>(s: seq<T>, p: T -> bool)
    ensures IsSubsequence(Filter(s, p), s)
  {
    if s != [] {
      FilterIsSubsequence(s[1..], p);
      if p(s[0]) {
        assert Filter(s, p) == [s[0]] + Filter(s[1..], p);
        assert Filter(s, p)[1..] == Filter(s[1..], p);
      } else {
        assert Filter(s, p) == Filter(s[1..], p);
        assert s == [s[0]] + s[1..];
        SubsequenceCons(Filter(s[1..], p), s[1..], s[0]);
      }
    }
  }

  /** `f` applied to every element, in order. */
  function Map<A, B>(s: seq<A>, f: A -> B): (r: seq<B>)
    ensures |r| == |s|
    ensures forall i :: 0 <= i < |s| ==> r[i] == f(s[i])
  {
    seq(|s|, i requires 0 <= i < |s| => f(s[i]))
  }

  /** Selecting by a property of the image is selecting the image of the selection. */
  lemma {:induction false} MapFilter<A(!new), B(!new)>(s: seq<A>, f: A -> B, p: B -> bool)
    ensures Map(Filter(s, x => p(f(x))), f) == Filter(Map(s, f), p)
  {
    if s != [] {
      MapFilter(s[1..], f, p);
      assert Map(s, f)[1..] == Map(s[1..], f);
      var q := x => p(f(x));
      var head := if q(s[0]) then [s[0]] else [];
      assert Filter(s, q) == head + Filter(s[1..], q);
      assert Map(head + Filter(s[1..], q), f) == Map(head, f) + Map(Filter(s[1..], q), f);
    }
  }

  /** The positions from `k` on whose elements pass `p`, in order: where
      the elements of the selection come from. */
  function Selected<T(!new)>(s: seq<T>, p: T -> bool, k: nat): (ps: seq<nat>)
    requires k <= |s|
    ensures |ps| == |Filter(s[k..], p)|
    ensures forall j :: 0 <= j < |ps| ==> k <= ps[j] < |s| && p(s[ps[j]]) && Filter(s[k..], p)[j] == s[ps[j]]
    decreases |s| - k
  {
    if k == |s| then []
    else
      var rest := Selected(s, p, k + 1);
      assert s[k..][1..] == s[k + 1..];
      assert Filter(s[k..], p) == (if p(s[k]) then [s[k]] else []) + Filter(s[k + 1..], p);
      (if p(s[k]) then [k] else []) + rest
  }

  /** Tests that agree position by position select the same positions. */
  lemma {:induction false} SelectedAgree<A(!new), B(!new)>(a: seq<A>, b: seq<B>, p: A -> bool, q: B -> bool, k: nat)
    requires k <= |a| == |b| && forall i :: k <= i < |a| ==> (p(a[i]) <==> q(b[i]))
    ensures Selected(a, p, k) == Selected(b, q, k)
    decreases |a| - k
  {
    if k < |a| {
      SelectedAgree(a, b, p, q, k + 1);
    }
  }

  /** `Selected` from the start describes the whole selection. */
  lemma SelectedFromStart<T(!new)>(s: seq<T>, p: T -> bool)
    ensures |Selected(s, p, 0)| == |Filter(s, p)|
    ensures forall j :: 0 <= j < |Filter(s, p)| ==>
      Selected(s, p, 0)[j] < |s| && Filter(s, p)[j] == s[Selected(s, p, 0)[j]] && p(s[Selected(s, p, 0)[j]])
  {
    assert s[0..] == s;
  }

  /** Every selected element passes `q` exactly when every element that
      passes `p` does. */
  lemma FilterAll<T(!new)>(s: seq<T>, p: T -> bool, q: T -> bool)
    ensures (forall i :: 0 <= i < |s| && p(s[i]) ==> q(s[i])) <==>
      (forall i :: 0 <= i < |Filter(s, p)| ==> q(Filter(s, p)[i]))
  {
    if forall i :: 0 <= i < |s| && p(s[i]) ==> q(s[i]) {
      FilterAllKept(s, p, q);
    } else {
      var k :| 0 <= k < |s| && p(s[k]) && !q(s[k]);
      var f := Filter(s, p);
      assert s[k] in f;
      var j :| 0 <= j < |f| && f[j] == s[k];
      assert !q(Filter(s, p)[j]);
    }
  }

  lemma FilterAllKept<T(!new)>(s: seq<T>, p: T -> bool, q: T -> bool)
    requires forall i :: 0 <= i < |s| && p(s[i]) ==> q(s[i])
    ensures forall i :: 0 <= i < |Filter(s, p)| ==> q(Filter(s, p)[i])
  {
    var f := Filter(s, p);
    forall i | 0 <= i < |f| ensures q(f[i])
    {
      assert f[i] in f;
      var k :| 0 <= k < |s| && s[k] == f[i];
    }
  }

  /** The distinct elements of `s` in order of first appearance (pandas `unique()`). */
  function Distinct<T(==,!new)>(s: seq<T>): (r: seq<T>)
    ensures forall x :: x in r <==> x in s
    ensures forall i, j :: 0 <= i < j < |r| ==> r[i] != r[j]
  {
    if s == [] then []
    else
      var rest := Distinct(s[..|s| - 1]);
      assert s == s[..|s| - 1] + [s[|s| - 1]];
      if s[|s| - 1] in rest then rest else rest + [s[|s| - 1]]
  }
}
