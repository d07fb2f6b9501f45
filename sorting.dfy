/** Merge sort (`merge_sort` and its helper `merge` in python_utils/utils.py).

    Python compares list elements with `<`. The model orders elements of any
    type `T` by an integer key, so that two different elements may compare
    equal; this is what makes the tie rule of `merge` observable. */
module Sorting {

  /** Elements appear in non-decreasing key order. */
  ghost predicate SortedBy<T>(s: seq<T>, key: T -> int) {
    forall i, j :: 0 <= i < j < |s| ==> key(s[i]) <= key(s[j])
  }

  /** What `merge` computes: repeatedly take the front element of `left` when
      its key is strictly smaller, and the front element of `right` otherwise
      (so on a tie the right element goes first); once one side is exhausted
      the rest of the other follows in order. */
  function Merged<T>(left: seq<T>, right: seq<T>, key: T -> int): (r: seq<T>)
    ensures |r| == |left| + |right|
    decreases |left| + |right|
  {
    if left == [] then right
    else if right == [] then left
    else if key(left[0]) < key(right[0]) then [left[0]] + Merged(left[1..], right, key)
    else [right[0]] + Merged(left, right[1..], key)
  }

  /** The merge holds every element of both sides, as often as they do. */
  lemma {:induction false} MergedPermutes<T>(left: seq<T>, right: seq<T>, key: T -> int)
    ensures multiset(Merged(left, right, key)) == multiset(left) + multiset(right)
    decreases |left| + |right|
  {
    if left != [] && right != [] {
      if key(left[0]) < key(right[0]) {
        MergedPermutes(left[1..], right, key);
        MultisetFront(left, Merged(left[1..], right, key), right);
      } else {
        MergedPermutes(left, right[1..], key);
        MultisetFront(right, Merged(left, right[1..], key), left);
      }
    } else if left == [] {
      assert left + right == right;
    } else {
      assert left + right == left;
    }
  }

  /** Putting the front of `s` before a permutation of the rest of `s` and
      `other` gives a permutation of both. */
  lemma MultisetFront<T>(s: seq<T>, rest: seq<T>, other: seq<T>)
    requires s != [] && multiset(rest) == multiset(s[1..]) + multiset(other)
    ensures multiset([s[0]] + rest) == multiset(s) + multiset(other)
  {
    assert s == [s[0]] + s[1..];
  }

  /** Every key in `s` is at least `b`. */
  ghost predicate AllAtLeast<T>(s: seq<T>, key: T -> int, b: int) {
    forall k :: 0 <= k < |s| ==> b <= key(s[k])
  }

  /** A lower bound on both sides is a lower bound on their merge. */
  lemma {:induction false} MergedAtLeast<T>(left: seq<T>, right: seq<T>, key: T -> int, b: int)
    requires AllAtLeast(left, key, b) && AllAtLeast(right, key, b)
    ensures AllAtLeast(Merged(left, right, key), key, b)
    decreases |left| + |right|
  {
    if left != [] && right != [] {
      if key(left[0]) < key(right[0]) {
        MergedAtLeast(left[1..], right, key, b);
      } else {
        MergedAtLeast(left, right[1..], key, b);
      }
    }
  }

  /** Merging two sorted sequences gives a sorted sequence. */
  lemma {:induction false} MergedSorted<T>(left: seq<T>, right: seq<T>, key: T -> int)
    requires SortedBy(left, key) && SortedBy(right, key)
    ensures SortedBy(Merged(left, right, key), key)
    decreases |left| + |right|
  {
    if left != [] && right != [] {
      var x, rest;
      if key(left[0]) < key(right[0]) {
        x, rest := left[0], Merged(left[1..], right, key);
        SortedTail(left, key);
        MergedSorted(left[1..], right, key);
        MergedAtLeast(left[1..], right, key, key(x));
      } else {
        x, rest := right[0], Merged(left, right[1..], key);
        SortedTail(right, key);
        MergedSorted(left, right[1..], key);
        MergedAtLeast(left, right[1..], key, key(x));
      }
      SortedCons(x, rest, key);
    }
  }

  /** An element no greater than every element of a sorted sequence can be
      put in front of it. */
  lemma SortedCons<T>(x: T, s: seq<T>, key: T -> int)
    requires SortedBy(s, key) && AllAtLeast(s, key, key(x))
    ensures SortedBy([x] + s, key)
  {
    var t := [x] + s;
    forall i, j | 0 <= i < j < |t| ensures key(t[i]) <= key(t[j]) {
      assert t[j] == s[j - 1];
      if i > 0 {
        assert t[i] == s[i - 1];
      }
    }
  }

  /** `merge`: a two-cursor loop appending to `result`, followed by the
      remainders of both sides. */
  method Merge<T>(left: seq<T>, right: seq<T>, key: T -> int) returns (result: seq<T>)
    ensures result == Merged(left, right, key)
  {
    result := [];
    var i, j := 0, 0;
    while i < |left| && j < |right|
      invariant 0 <= i <= |left| && 0 <= j <= |right|
      invariant result + Merged(left[i..], right[j..], key) == Merged(left, right, key)
      decreases |left| - i + |right| - j
    {
      MergeStep(left, right, key, i, j, result);
      if key(left[i]) < key(right[j]) {
        result := result + [left[i]];
        i := i + 1;
      } else {
        result := result + [right[j]];
        j := j + 1;
      }
    }
    MergeRest(left, right, key, i, j, result);
    result := result + left[i..];
    result := result + right[j..];
  }

  /** One step of the loop of `merge` keeps its invariant. */
  lemma MergeStep<T>(left: seq<T>, right: seq<T>, key: T -> int, i: nat, j: nat, result: seq<T>)
    requires i < |left| && j < |right|
    requires result + Merged(left[i..], right[j..], key) == Merged(left, right, key)
    ensures key(left[i]) < key(right[j]) ==>
      (result + [left[i]]) + Merged(left[i + 1..], right[j..], key) == Merged(left, right, key)
    ensures key(left[i]) >= key(right[j]) ==>
      (result + [right[j]]) + Merged(left[i..], right[j + 1..], key) == Merged(left, right, key)
  {
    assert left[i..][0] == left[i] && left[i..][1..] == left[i + 1..];
    assert right[j..][0] == right[j] && right[j..][1..] == right[j + 1..];
    if key(left[i]) < key(right[j]) {
      var m := Merged(left[i + 1..], right[j..], key);
      assert Merged(left[i..], right[j..], key) == [left[i]] + m;
      assert result + ([left[i]] + m) == (result + [left[i]]) + m;
    } else {
      var m := Merged(left[i..], right[j + 1..], key);
      assert Merged(left[i..], right[j..], key) == [right[j]] + m;
      assert result + ([right[j]] + m) == (result + [right[j]]) + m;
    }
  }

  /** Once one side is used up, the rest of the merge is what remains of
      both sides, in order. */
  lemma MergeRest<T>(left: seq<T>, right: seq<T>, key: T -> int, i: nat, j: nat, result: seq<T>)
    requires i <= |left| && j <= |right| && (i == |left| || j == |right|)
    requires result + Merged(left[i..], right[j..], key) == Merged(left, right, key)
    ensures result + left[i..] + right[j..] == Merged(left, right, key)
  {
    if i == |left| {
      assert left[i..] == [] && result + left[i..] == result;
    } else {
      assert right[j..] == [] && (result + left[i..]) + right[j..] == result + left[i..];
    }
  }

  /** `merge_sort`: split at `|s| / 2`, sort both halves, merge them. The
      result is a sorted permutation of the input, and an input of length at
      most one is returned unchanged. */
  function MergeSort<T>(s: seq<T>, key: T -> int): (r: seq<T>)
    ensures multiset(r) == multiset(s)
    ensures SortedBy(r, key)
    ensures |s| <= 1 ==> r == s
    decreases |s|
  {
    if |s| <= 1 then s
    else
      var mid := |s| / 2;
      var left := MergeSort(s[..mid], key);
      var right := MergeSort(s[mid..], key);
      MergedSorted(left, right, key);
      MergedPermutes(left, right, key);
      HalvesMultiset(s, mid);
      Merged(left, right, key)
  }

  lemma HalvesMultiset<T>(s: seq<T>, mid: nat)
    requires mid <= |s|
    ensures multiset(s[..mid]) + multiset(s[mid..]) == multiset(s)
  {
    assert s == s[..mid] + s[mid..];
  }

  /** The sort is not stable: of two elements with equal keys, the one that
      came second in the input comes first in the output. */
  lemma MergeSortSwapsEqualKeys<T>(a: T, b: T, key: T -> int)
    requires key(a) == key(b)
    ensures MergeSort([a, b], key) == [b, a]
  {
    var s := [a, b];
    assert s[..1] == [a] && s[1..] == [b];
    assert Merged([a], [b], key) == [b] + Merged([a], [], key);
  }

  /** Integers ordered by their own value, as Python orders a list of ints. */
  function IntKey(x: int): int { x }

  /** Two sorted sequences of integers that are permutations of each other
      are equal. */
  lemma {:induction false} SortedPermutationsEqual(a: seq<int>, b: seq<int>)
    requires SortedBy(a, IntKey) && SortedBy(b, IntKey)
    requires multiset(a) == multiset(b)
    ensures a == b
    decreases |a|
  {
    if a == [] {
      assert |multiset(b)| == 0;
    } else {
      assert |multiset(b)| == |a|;
      SortedPermutationsSameHead(a, b);
      assert a == [a[0]] + a[1..] && b == [b[0]] + b[1..];
      assert multiset(a[1..]) == multiset(b[1..]) by {
        assert multiset(a[1..]) == multiset(a) - multiset{a[0]};
        assert multiset(b[1..]) == multiset(b) - multiset{b[0]};
      }
      SortedTail(a, IntKey);
      SortedTail(b, IntKey);
      SortedPermutationsEqual(a[1..], b[1..]);
    }
  }

  /** Both are the least element of the same multiset. */
  lemma SortedPermutationsSameHead(a: seq<int>, b: seq<int>)
    requires SortedBy(a, IntKey) && SortedBy(b, IntKey)
    requires a != [] && b != [] && multiset(a) == multiset(b)
    ensures a[0] == b[0]
  {
    assert a[0] in multiset(b);
    assert b[0] in multiset(a);
    var j :| 0 <= j < |b| && b[j] == a[0];
    var i :| 0 <= i < |a| && a[i] == b[0];
    assert IntKey(a[0]) <= IntKey(a[i]) && IntKey(b[0]) <= IntKey(b[j]);
  }

  lemma SortedTail<T>(s: seq<T>, key: T -> int)
    requires s != [] && SortedBy(s, key)
    ensures SortedBy(s[1..], key)
  {
    forall i, j | 0 <= i < j < |s[1..]|
      ensures key(s[1..][i]) <= key(s[1..][j])
    {
      assert s[1..][i] == s[i + 1] && s[1..][j] == s[j + 1];
    }
  }

  /** On integers the output depends only on the multiset of the input. */
  lemma MergeSortPermutationInvariant(s: seq<int>, t: seq<int>)
    requires multiset(s) == multiset(t)
    ensures MergeSort(s, IntKey) == MergeSort(t, IntKey)
  {
    SortedPermutationsEqual(MergeSort(s, IntKey), MergeSort(t, IntKey));
  }

  /** A sorted permutation of `s` is what `MergeSort` returns for it. */
  lemma MergeSortIsTheSortedPermutation(s: seq<int>, t: seq<int>)
    requires SortedBy(t, IntKey) && multiset(t) == multiset(s)
    ensures MergeSort(s, IntKey) == t
  {
    SortedPermutationsEqual(MergeSort(s, IntKey), t);
  }

  lemma MergeSortExample()
    ensures MergeSort([5, 3, 1, 4, 1, 5, 9, 2, 6], IntKey) == [1, 1, 2, 3, 4, 5, 5, 6, 9]
  {
    ExampleSorted();
    ExamplePermutation();
    MergeSortIsTheSortedPermutation([5, 3, 1, 4, 1, 5, 9, 2, 6], [1, 1, 2, 3, 4, 5, 5, 6, 9]);
  }

  lemma ExampleSorted()
    ensures SortedBy([1, 1, 2, 3, 4, 5, 5, 6, 9], IntKey)
  {
  }

  lemma ExamplePermutation()
    ensures multiset([5, 3, 1, 4, 1, 5, 9, 2, 6]) == multiset([1, 1, 2, 3, 4, 5, 5, 6, 9])
  {
    ExampleInputMultiset();
    ExampleOutputMultiset();
    ExampleMultisetsEqual();
  }

  lemma ExampleInputMultiset()
    ensures multiset([5, 3, 1, 4, 1, 5, 9, 2, 6]) == multiset{5, 3, 1, 4, 1, 5, 9, 2, 6}
  {
  }

  lemma ExampleOutputMultiset()
    ensures multiset([1, 1, 2, 3, 4, 5, 5, 6, 9]) == multiset{1, 1, 2, 3, 4, 5, 5, 6, 9}
  {
  }

  lemma ExampleMultisetsEqual()
    ensures multiset{5, 3, 1, 4, 1, 5, 9, 2, 6} == multiset{1, 1, 2, 3, 4, 5, 5, 6, 9}
  {
  }
}
