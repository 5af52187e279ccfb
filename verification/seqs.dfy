/** Order-preserving selection over sequences (Python list comprehensions with a condition, `zip`). */
module Seqs {

  predicate Distinct<T(==)>(s: seq<T>) {
    forall i, j :: 0 <= i < j < |s| ==> s[i] != s[j]
  }

  /** Position of the first occurrence of `x`, Python's `list.index`. */
  function IndexOf<T(==)>(s: seq<T>, x: T): (k: nat)
    requires x in s
    ensures k < |s| && s[k] == x
    ensures forall j :: 0 <= j < k ==> s[j] != x
  {
    if s[0] == x then 0 else 1 + IndexOf(s[1..], x)
  }

  /** `[x for x in s if p(x)]`. */
  function Filter<T(==,!new)>(s: seq<T>, p: T -> bool): (r: seq<T>)
    ensures |r| <= |s|
    ensures forall x :: x in r <==> x in s && p(x)
  {
    if s == [] then [] else (if p(s[0]) then [s[0]] else []) + Filter(s[1..], p)
  }

  /** An element survives `Filter` exactly when it is in `s` and satisfies `p`. */
  lemma FilterMember<T(!new)>(s: seq<T>, p: T -> bool, x: T)
    ensures x in Filter(s, p) <==> x in s && p(x)
  {
    var r := Filter(s, p);
    if x in r {
      var i :| 0 <= i < |r| && r[i] == x;
    }
    if x in s && p(x) {
      var i :| 0 <= i < |s| && s[i] == x;
    }
  }

  /** Some element of `s` satisfies `q`. */
  ghost predicate Any<T>(s: seq<T>, q: T -> bool) {
    exists k :: 0 <= k < |s| && q(s[k])
  }

  /** Some element of `s` satisfies both `p` and `q`. */
  ghost predicate AnyBoth<T>(s: seq<T>, p: T -> bool, q: T -> bool) {
    exists j :: 0 <= j < |s| && p(s[j]) && q(s[j])
  }

  /** Some survivor of `Filter` satisfies `q` exactly when some element of `s` satisfies both `p` and `q`. */
  lemma FilterExists<T(!new)>(s: seq<T>, p: T -> bool, q: T -> bool)
    ensures Any(Filter(s, p), q) <==> AnyBoth(s, p, q)
  {
    var r := Filter(s, p);
    if Any(r, q) {
      var k :| 0 <= k < |r| && q(r[k]);
      FilterMember(s, p, r[k]);
      var j :| 0 <= j < |s| && s[j] == r[k];
    }
    if AnyBoth(s, p, q) {
      var j :| 0 <= j < |s| && p(s[j]) && q(s[j]);
      FilterMember(s, p, s[j]);
      var k :| 0 <= k < |r| && r[k] == s[j];
    }
  }

  /** Filtering commutes with concatenation, so survivors keep their relative order. */
  lemma {:induction false} FilterAppend<T(!new)>(a: seq<T>, b: seq<T>, p: T -> bool)
    ensures Filter(a + b, p) == Filter(a, p) + Filter(b, p)
  {
    if a != [] {
      assert (a + b)[1..] == a[1..] + b;
      FilterAppend(a[1..], b, p);
    } else {
      assert a + b == b;
    }
  }

  lemma {:induction false} FilterDistinct<T(!new)>(s: seq<T>, p: T -> bool)
    requires Distinct(s)
    ensures Distinct(Filter(s, p))
  {
    if s != [] {
      FilterDistinct(s[1..], p);
    }
  }

  /**
   * Over a sequence without repetitions, the selected elements appear in
   * strictly increasing order of their position in the original sequence;
   * sorting them by that position therefore changes nothing.
   */
  lemma {:induction false} FilterInOriginalOrder<T(!new)>(s: seq<T>, p: T -> bool)
    requires Distinct(s)
    ensures forall i, j :: 0 <= i < j < |Filter(s, p)| ==>
      IndexOf(s, Filter(s, p)[i]) < IndexOf(s, Filter(s, p)[j])
  {
    if s != [] {
      var rest := Filter(s[1..], p);
      FilterInOriginalOrder(s[1..], p);
      forall x | x in rest
        ensures IndexOf(s, x) == 1 + IndexOf(s[1..], x)
      {
        assert x in s[1..];
        assert x != s[0];
      }
    }
  }

  /** The first element kept by `Filter` is the first element of `s` that satisfies `p`. */
  lemma {:induction false} FilterFirst<T(!new)>(s: seq<T>, p: T -> bool)
    requires Filter(s, p) != []
    ensures exists i :: 0 <= i < |s| && s[i] == Filter(s, p)[0] && p(s[i]) && forall j :: 0 <= j < i ==> !p(s[j])
  {
    if !p(s[0]) {
      FilterFirst(s[1..], p);
      var i :| 0 <= i < |s[1..]| && s[1..][i] == Filter(s[1..], p)[0] && p(s[1..][i]) && forall j :: 0 <= j < i ==> !p(s[1..][j]);
      assert s[i + 1] == s[1..][i];
      forall j | 0 <= j < i + 1
        ensures !p(s[j])
      {
        if j > 0 {
          assert s[j] == s[1..][j - 1];
        }
      }
    }
  }

  /** The positions from `from` on whose element of `s` satisfies `p`, in increasing order. */
  function KeptIndices<T>(s: seq<T>, p: T -> bool, from: nat): (r: seq<nat>)
    requires from <= |s|
    ensures forall i :: 0 <= i < |r| ==> from <= r[i] < |s| && p(s[r[i]])
    ensures forall i, j :: 0 <= i < j < |r| ==> r[i] < r[j]
    ensures forall k :: from <= k < |s| && p(s[k]) ==> k in r
    decreases |s| - from
  {
    if from == |s| then []
    else (if p(s[from]) then [from] else []) + KeptIndices(s, p, from + 1)
  }

  /** `r` lists the elements of `s` at the positions `idx`, in that order. */
  ghost predicate PicksAt<T>(r: seq<T>, s: seq<T>, idx: seq<nat>) {
    |r| == |idx| && forall i :: 0 <= i < |idx| ==> idx[i] < |s| && r[i] == s[idx[i]]
  }

  lemma PicksAtCons<T>(r: seq<T>, s: seq<T>, idx: seq<nat>, j: nat)
    requires PicksAt(r, s, idx) && j < |s|
    ensures PicksAt([s[j]] + r, s, [j] + idx)
  {
    var r', idx' := [s[j]] + r, [j] + idx;
    forall i | 0 <= i < |idx'|
      ensures idx'[i] < |s| && r'[i] == s[idx'[i]]
    {
      if i > 0 {
        assert r'[i] == r[i - 1] && idx'[i] == idx[i - 1];
      }
    }
  }

  /**
   * `Filter` keeps exactly the elements at the positions `KeptIndices`
   * lists, so the survivors keep their relative order (no distinctness needed).
   */
  lemma {:induction false} FilterAsIndices<T(!new)>(s: seq<T>, p: T -> bool, from: nat)
    requires from <= |s|
    ensures PicksAt(Filter(s[from..], p), s, KeptIndices(s, p, from))
    decreases |s| - from
  {
    if from < |s| {
      FilterAsIndices(s, p, from + 1);
      var t := s[from..];
      assert t[0] == s[from] && t[1..] == s[from + 1..];
      if p(s[from]) {
        PicksAtCons(Filter(s[from + 1..], p), s, KeptIndices(s, p, from + 1), from);
      }
    }
  }

  /** `Filter(s, p)` is the subsequence of `s` at the positions `KeptIndices(s, p, 0)`. */
  lemma FilterSubsequence<T(!new)>(s: seq<T>, p: T -> bool)
    ensures |Filter(s, p)| == |KeptIndices(s, p, 0)|
    ensures forall i :: 0 <= i < |Filter(s, p)| ==> Filter(s, p)[i] == s[KeptIndices(s, p, 0)[i]]
  {
    FilterAsIndices(s, p, 0);
    assert s[0..] == s;
  }

  function Min(a: int, b: int): int {
    if a <= b then a else b
  }

  /** Python's `zip(a, b)`: pairs by position, truncated to the shorter input. */
  function Zip<A, B>(a: seq<A>, b: seq<B>): (r: seq<(A, B)>)
    ensures |r| == Min(|a|, |b|)
    ensures forall i :: 0 <= i < |r| ==> r[i] == (a[i], b[i])
  {
    if a == [] || b == [] then [] else [(a[0], b[0])] + Zip(a[1..], b[1..])
  }
}
