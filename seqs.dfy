/**
 * The array operations the components apply to their nested lists: `filter`, the pair of
 * `splice` calls a drag-and-drop performs, and the duplicate test behind `includes`.
 */
module Seqs {

  /** `Array.prototype.filter`: the elements of `s` that satisfy `keep`, in their original order. */
  function Filter<T(==,!new)>(s: seq<T>, keep: T -> bool): (r: seq<T>)
    ensures |r| <= |s|
    ensures forall x :: x in r <==> x in s && keep(x)
  {
    if s == [] then []
    else
      assert s == [s[0]] + s[1..];
      (if keep(s[0]) then [s[0]] else []) + Filter(s[1..], keep)
  }

  /** Filtering keeps every occurrence of a kept element and none of a dropped one. */
  lemma {:induction false} FilterCounts<T(!new)>(s: seq<T>, keep: T -> bool)
    ensures forall x :: multiset(Filter(s, keep))[x] == if keep(x) then multiset(s)[x] else 0
  {
    if s != [] {
      FilterCounts(s[1..], keep);
      assert s == [s[0]] + s[1..];
    }
  }

  /**
   * `r` is `s` with some elements left out: each element of `s` is either skipped or is the
   * next element of `r`, so what remains keeps its order.
   */
  predicate Subsequence<T(==)>(r: seq<T>, s: seq<T>)
    decreases |s|
  {
    if s == [] then r == []
    else Subsequence(r, s[1..]) || (r != [] && r[0] == s[0] && Subsequence(r[1..], s[1..]))
  }

  /** The survivors of a filter keep the order they had. */
  lemma {:induction false} FilterInOrder<T(!new)>(s: seq<T>, keep: T -> bool)
    ensures Subsequence(Filter(s, keep), s)
  {
    if s != [] {
      FilterInOrder(s[1..], keep);
      var rest := Filter(s[1..], keep);
      if keep(s[0]) {
        assert Filter(s, keep) == [s[0]] + rest;
        assert ([s[0]] + rest)[1..] == rest;
      } else {
        assert Filter(s, keep) == rest;
      }
    }
  }

  /** A subsequence has no occurrence its source lacks. */
  lemma {:induction false} SubsequenceCounts<T>(r: seq<T>, s: seq<T>)
    requires Subsequence(r, s)
    ensures multiset(r) <= multiset(s)
    decreases |s|
  {
    if s != [] {
      assert s == [s[0]] + s[1..];
      if Subsequence(r, s[1..]) {
        SubsequenceCounts(r, s[1..]);
      } else {
        SubsequenceCounts(r[1..], s[1..]);
        assert r == [r[0]] + r[1..];
      }
    }
  }

  /**
   * Order and multiplicities pin a filter down: a list that keeps the order of `s` and holds
   * every occurrence of the kept elements and none of the others is `Filter(s, keep)`.
   */
  lemma {:induction false} FilterUnique<T(!new)>(r: seq<T>, s: seq<T>, keep: T -> bool)
    requires Subsequence(r, s)
    requires forall x :: multiset(r)[x] == if keep(x) then multiset(s)[x] else 0
    ensures r == Filter(s, keep)
    decreases |s|
  {
    if s == [] {
    } else {
      var x := s[0];
      assert s == [x] + s[1..];
      if Subsequence(r, s[1..]) {
        SubsequenceCounts(r, s[1..]);
        // `r` misses the first occurrence of `x`, so `x` is not kept.
        assert multiset(s)[x] == multiset(s[1..])[x] + 1;
        assert !keep(x);
        assert forall y :: multiset(r)[y] == if keep(y) then multiset(s[1..])[y] else 0 by {
          forall y ensures multiset(r)[y] == if keep(y) then multiset(s[1..])[y] else 0 {
            if y != x {
              assert multiset(s)[y] == multiset(s[1..])[y];
            }
          }
        }
        FilterUnique(r, s[1..], keep);
      } else {
        assert r == [x] + r[1..];
        assert keep(x) by {
          assert multiset(r)[x] > 0;
        }
        FilterUnique(r[1..], s[1..], keep);
      }
    }
  }

  /** Filtering commutes with concatenation: the survivors keep their relative order. */
  lemma {:induction false} FilterAppend<T(!new)>(a: seq<T>, b: seq<T>, keep: T -> bool)
    ensures Filter(a + b, keep) == Filter(a, keep) + Filter(b, keep)
  {
    if a == [] {
      assert a + b == b;
    } else {
      assert (a + b)[0] == a[0];
      assert (a + b)[1..] == a[1..] + b;
      FilterAppend(a[1..], b, keep);
    }
  }

  /** When nothing is dropped the list comes back unchanged, element for element. */
  lemma {:induction false} FilterKeepsAll<T(!new)>(s: seq<T>, keep: T -> bool)
    requires forall i :: 0 <= i < |s| ==> keep(s[i])
    ensures Filter(s, keep) == s
  {
    if s != [] {
      FilterKeepsAll(s[1..], keep);
    }
  }

  /** `copy.splice(i, 1)`: the element at `i` is taken out. */
  function RemoveAt<T>(s: seq<T>, i: nat): (r: seq<T>)
    requires i < |s|
    ensures |r| == |s| - 1
    ensures forall k :: 0 <= k < |r| ==> r[k] == if k < i then s[k] else s[k + 1]
  {
    s[..i] + s[i + 1..]
  }

  /** `copy.splice(i, 0, x)`: `x` is put in at `i`, later elements move one up. */
  function InsertAt<T>(s: seq<T>, i: nat, x: T): (r: seq<T>)
    requires i <= |s|
    ensures |r| == |s| + 1 && r[i] == x
    ensures forall k :: 0 <= k < |r| && k != i ==> r[k] == if k < i then s[k] else s[k - 1]
  {
    s[..i] + [x] + s[i..]
  }

  /** The list after a drop: the element at `from` is spliced out and spliced back in at `to`. */
  function Moved<T>(s: seq<T>, from: nat, to: nat): seq<T>
    requires from < |s| && to < |s|
  {
    InsertAt(RemoveAt(s, from), to, s[from])
  }

  /** Where each element of a moved list comes from. */
  lemma MovedAt<T>(s: seq<T>, from: nat, to: nat, k: nat)
    requires from < |s| && to < |s| && k < |s|
    ensures |Moved(s, from, to)| == |s|
    ensures Moved(s, from, to)[k] ==
      if k == to then s[from]
      else if from < to && from <= k < to then s[k + 1]
      else if to < from && to < k <= from then s[k - 1]
      else s[k]
  {
  }

  /**
   * A drop is a permutation that puts the dragged element at `to`; taking it out again gives
   * the list without it in its old order, so every other element keeps its relative order.
   */
  lemma MovedIsPermutation<T>(s: seq<T>, from: nat, to: nat)
    requires from < |s| && to < |s|
    ensures |Moved(s, from, to)| == |s|
    ensures Moved(s, from, to)[to] == s[from]
    ensures multiset(Moved(s, from, to)) == multiset(s)
    ensures RemoveAt(Moved(s, from, to), to) == RemoveAt(s, from)
  {
    var x := s[from];
    var rest := s[..from] + s[from + 1..];
    SplitMultiset(s, from);
    var m := rest[..to] + [x] + rest[to..];
    assert Moved(s, from, to) == m;
    SplitMultiset(m, to);
    assert m[..to] == rest[..to];
    assert m[to + 1..] == rest[to..];
    assert rest == rest[..to] + rest[to..];
  }

  /** Taking an element out of a duplicate-free list leaves a duplicate-free list. */
  lemma RemoveAtKeepsDistinct<T>(s: seq<T>, i: nat)
    requires i < |s| && Distinct(s)
    ensures Distinct(RemoveAt(s, i))
  {
    var r := RemoveAt(s, i);
    forall j, k | 0 <= j < k < |r| ensures r[j] != r[k] {
      var a := if j < i then j else j + 1;
      var b := if k < i then k else k + 1;
      assert a < b && r[j] == s[a] && r[k] == s[b];
    }
  }

  /** Taking the element at `i` out of a list takes one occurrence out of its multiset. */
  lemma SplitMultiset<T>(s: seq<T>, i: nat)
    requires i < |s|
    ensures multiset(s) == multiset(s[..i] + s[i + 1..]) + multiset{s[i]}
  {
    assert s == s[..i] + [s[i]] + s[i + 1..];
  }

  /** Dropping an element onto its own position changes nothing. */
  lemma MovedToSelf<T>(s: seq<T>, i: nat)
    requires i < |s|
    ensures Moved(s, i, i) == s
  {
    assert Moved(s, i, i) == s[..i] + [s[i]] + s[i + 1..];
    assert s == s[..i] + [s[i]] + s[i + 1..];
  }

  /**
   * The two splices performed on the copied array: the dragged element is held while the ones
   * between the two positions shift by one towards the gap, then written at `to`.
   */
  method MoveInPlace<T>(a: array<T>, from: nat, to: nat)
    requires from < a.Length && to < a.Length
    modifies a
    ensures a[..] == Moved(old(a[..]), from, to)
  {
    ghost var s := a[..];
    var dragged := a[from];
    if from < to {
      var i := from;
      while i < to
        invariant from <= i <= to
        invariant forall k :: 0 <= k < from || i <= k < a.Length ==> a[k] == s[k]
        invariant forall k :: from <= k < i ==> a[k] == s[k + 1]
      {
        a[i] := a[i + 1];
        i := i + 1;
      }
    } else {
      var i := from;
      while i > to
        invariant to <= i <= from
        invariant forall k :: 0 <= k <= i || from < k < a.Length ==> a[k] == s[k]
        invariant forall k :: i < k <= from ==> a[k] == s[k - 1]
      {
        a[i] := a[i - 1];
        i := i - 1;
      }
    }
    a[to] := dragged;
    forall k | 0 <= k < a.Length
      ensures a[k] == Moved(s, from, to)[k]
    {
      MovedAt(s, from, to, k);
    }
  }

  /** No element occurs twice. */
  predicate Distinct<T(==)>(s: seq<T>) {
    forall i, j :: 0 <= i < j < |s| ==> s[i] != s[j]
  }

  /** In a duplicate-free list every element occurs at most once. */
  lemma {:induction false} DistinctOccursOnce<T>(s: seq<T>)
    requires Distinct(s)
    ensures forall x :: multiset(s)[x] <= 1
  {
    if s != [] {
      assert s == [s[0]] + s[1..];
      assert s[0] !in s[1..] by {
        forall j | 0 <= j < |s[1..]| ensures s[1..][j] != s[0] {
          assert s[1..][j] == s[j + 1];
        }
      }
      assert Distinct(s[1..]) by {
        forall i, j | 0 <= i < j < |s[1..]| ensures s[1..][i] != s[1..][j] {
          assert s[1..][i] == s[i + 1] && s[1..][j] == s[j + 1];
        }
      }
      DistinctOccursOnce(s[1..]);
    }
  }

  /** An element found at two positions occurs at least twice. */
  lemma RepeatOccursTwice<T>(s: seq<T>, i: nat, j: nat)
    requires i < j < |s|
    ensures s[i] == s[j] ==> multiset(s)[s[i]] >= 2
  {
    assert s == s[..j] + s[j..];
    assert s[i] in s[..j];
    assert s[j] in s[j..];
  }

  /** A permutation of a duplicate-free list is duplicate-free. */
  lemma PermutationKeepsDistinct<T>(a: seq<T>, b: seq<T>)
    requires multiset(a) == multiset(b) && Distinct(a)
    ensures Distinct(b)
  {
    DistinctOccursOnce(a);
    forall i, j | 0 <= i < j < |b|
      ensures b[i] != b[j]
    {
      RepeatOccursTwice(b, i, j);
    }
  }

  /** No two elements share a key. */
  predicate DistinctBy<T, K(==)>(s: seq<T>, key: T -> K) {
    forall i, j :: 0 <= i < j < |s| ==> key(s[i]) != key(s[j])
  }

  /** Filtering a list whose keys are distinct leaves a list whose keys are distinct. */
  lemma {:induction false} FilterKeepsDistinctBy<T(!new), K>(s: seq<T>, keep: T -> bool, key: T -> K)
    requires DistinctBy(s, key)
    ensures DistinctBy(Filter(s, keep), key)
  {
    if s != [] {
      var tail := s[1..];
      assert DistinctBy(tail, key) by {
        forall i, j | 0 <= i < j < |tail| ensures key(tail[i]) != key(tail[j]) {
          assert tail[i] == s[i + 1] && tail[j] == s[j + 1];
        }
      }
      FilterKeepsDistinctBy(tail, keep, key);
      var ft := Filter(tail, keep);
      if keep(s[0]) {
        var r := [s[0]] + ft;
        assert Filter(s, keep) == r;
        forall m | 0 <= m < |ft| ensures key(ft[m]) != key(s[0]) {
          assert ft[m] in tail;
          var n :| 0 <= n < |tail| && tail[n] == ft[m];
          assert tail[n] == s[n + 1];
        }
        ConsDistinctBy(s[0], ft, key);
      } else {
        assert Filter(s, keep) == ft;
      }
    }
  }

  /** Putting in front an element whose key is new keeps the keys distinct. */
  lemma ConsDistinctBy<T, K>(x: T, s: seq<T>, key: T -> K)
    requires DistinctBy(s, key)
    requires forall m :: 0 <= m < |s| ==> key(s[m]) != key(x)
    ensures DistinctBy([x] + s, key)
  {
    var r := [x] + s;
    forall i, j | 0 <= i < j < |r| ensures key(r[i]) != key(r[j]) {
      assert r[j] == s[j - 1];
      if 0 < i {
        assert r[i] == s[i - 1];
      }
    }
  }
}
