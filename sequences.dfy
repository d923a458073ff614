/**
  `Array.prototype.filter` and `Array.prototype.slice(0, n)` over Dafny
  sequences, with what they promise: a filter result is the subsequence
  of its input made of exactly the elements the predicate keeps.
*/
module Sequences {

  /** `sub` can be obtained from `s` by deleting elements, without reordering. */
  predicate IsSubsequence<T(==)>(sub: seq<T>, s: seq<T>)
    decreases |s|
  {
    if sub == [] then true
    else if s == [] then false
    else if sub[0] == s[0] then IsSubsequence(sub[1..], s[1..])
    else IsSubsequence(sub, s[1..])
  }

  /** Every sequence is a subsequence of itself. */
  lemma {:induction false} SubsequenceReflexive<T>(s: seq<T>)
    ensures IsSubsequence(s, s)
  {
    if s != [] {
      SubsequenceReflexive(s[1..]);
    }
  }

  /** A subsequence is no longer than the sequence it is taken from. */
  lemma {:induction false} SubsequenceLength<T>(sub: seq<T>, s: seq<T>)
    requires IsSubsequence(sub, s)
    ensures |sub| <= |s|
    decreases |s|
  {
    if sub != [] {
      if sub[0] == s[0] {
        SubsequenceLength(sub[1..], s[1..]);
      } else {
        SubsequenceLength(sub, s[1..]);
      }
    }
  }

  /** Every element of a subsequence is an element of the sequence. */
  lemma {:induction false} SubsequenceElement<T>(sub: seq<T>, s: seq<T>, j: nat)
    requires IsSubsequence(sub, s)
    requires j < |sub|
    ensures exists k :: 0 <= k < |s| && s[k] == sub[j]
    decreases |s|
  {
    if sub[0] == s[0] {
      if j > 0 {
        SubsequenceElement(sub[1..], s[1..], j - 1);
        var k :| 0 <= k < |s| - 1 && s[1..][k] == sub[1..][j - 1];
        assert s[k + 1] == sub[j];
      }
    } else {
      SubsequenceElement(sub, s[1..], j);
      var k :| 0 <= k < |s| - 1 && s[1..][k] == sub[j];
      assert s[k + 1] == sub[j];
    }
  }

  /** A subsequence of a sequence ordered strictly by `rank` is ordered by it too. */
  lemma {:induction false} SubsequenceSorted<T>(sub: seq<T>, s: seq<T>, rank: T -> int)
    requires IsSubsequence(sub, s)
    requires forall i, j :: 0 <= i < j < |s| ==> rank(s[i]) < rank(s[j])
    ensures forall i, j :: 0 <= i < j < |sub| ==> rank(sub[i]) < rank(sub[j])
    decreases |s|
  {
    if sub != [] {
      if sub[0] == s[0] {
        SubsequenceSorted(sub[1..], s[1..], rank);
        forall j | 0 < j < |sub| ensures rank(sub[0]) < rank(sub[j]) {
          SubsequenceElement(sub[1..], s[1..], j - 1);
          var k :| 0 <= k < |s| - 1 && s[1..][k] == sub[1..][j - 1];
          assert s[k + 1] == sub[j];
        }
      } else {
        SubsequenceSorted(sub, s[1..], rank);
      }
    }
  }

  /** `s.filter(keep)`: the elements of `s` that `keep` accepts, in their order. */
  function Filter<T(==)>(s: seq<T>, keep: T -> bool): (r: seq<T>)
    ensures IsSubsequence(r, s)
    ensures forall i :: 0 <= i < |r| ==> keep(r[i])
  {
    if s == [] then []
    else
      var rest := Filter(s[1..], keep);
      assert s == [s[0]] + s[1..];
      if keep(s[0]) then [s[0]] + rest else rest
  }

  /** Every element the predicate accepts is kept as often as it occurs in `s`. */
  lemma {:induction false} FilterCount<T>(s: seq<T>, keep: T -> bool, x: T)
    requires keep(x)
    ensures multiset(Filter(s, keep))[x] == multiset(s)[x]
  {
    if s != [] {
      FilterCount(s[1..], keep, x);
      assert s == [s[0]] + s[1..];
    }
  }

  /** An element is in the filter result exactly when it is in `s` and kept. */
  lemma FilterMembership<T>(s: seq<T>, keep: T -> bool, x: T)
    ensures x in Filter(s, keep) <==> x in s && keep(x)
  {
    var r := Filter(s, keep);
    if x in r {
      var i :| 0 <= i < |r| && r[i] == x;
      SubsequenceElement(r, s, i);
    }
    if x in s && keep(x) {
      FilterCount(s, keep, x);
      assert multiset(s)[x] > 0;
    }
  }

  /** A predicate that accepts no element gives the empty sequence. */
  lemma {:induction false} FilterNone<T>(s: seq<T>, keep: T -> bool)
    requires forall i :: 0 <= i < |s| ==> !keep(s[i])
    ensures Filter(s, keep) == []
  {
    if s != [] {
      FilterNone(s[1..], keep);
    }
  }

  /** Two predicates that agree on the elements of `s` filter it alike. */
  lemma {:induction false} FilterCongruent<T>(s: seq<T>, p: T -> bool, q: T -> bool)
    requires forall i :: 0 <= i < |s| ==> p(s[i]) == q(s[i])
    ensures Filter(s, p) == Filter(s, q)
  {
    if s != [] {
      FilterCongruent(s[1..], p, q);
    }
  }

  /** `s.slice(0, n)` for `n >= 0`: at most the first `n` elements. */
  function Take<T>(s: seq<T>, n: nat): (r: seq<T>)
    ensures |r| == if |s| < n then |s| else n
    ensures r == s[..|r|]
  {
    if |s| <= n then s else s[..n]
  }
}
