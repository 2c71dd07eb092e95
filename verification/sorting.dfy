/** Ascending sort of a duration array (what `Arrays.sort(long[])` does), as an
    insertion sort over sequences, together with the counting facts the median
    needs. */
module Sorting {

  predicate Sorted(s: seq<int>) {
    forall i, j :: 0 <= i < j < |s| ==> s[i] <= s[j]
  }

  /** Places x into a sorted sequence, keeping it sorted. */
  function Insert(x: int, s: seq<int>): (r: seq<int>)
    requires Sorted(s)
    ensures Sorted(r)
    ensures multiset(r) == multiset(s) + multiset{x}
  {
    if s == [] || x <= s[0] then
      [x] + s
    else
      var rest := Insert(x, s[1..]);
      assert s == [s[0]] + s[1..];
      assert forall k :: 0 <= k < |rest| ==> s[0] <= rest[k] by {
        forall k | 0 <= k < |rest|
          ensures s[0] <= rest[k]
        {
          assert rest[k] in multiset(rest);
          if rest[k] != x {
            assert rest[k] in multiset(s[1..]);
          }
        }
      }
      [s[0]] + rest
  }

  /** The sorted rearrangement of s. */
  function Sort(s: seq<int>): (r: seq<int>)
    ensures Sorted(r)
    ensures multiset(r) == multiset(s)
    ensures |r| == |s|
  {
    if s == [] then
      []
    else
      assert s == [s[0]] + s[1..];
      var r := Insert(s[0], Sort(s[1..]));
      assert |r| == |multiset(r)| == |multiset(s)|;
      r
  }

  /** There is only one sorted rearrangement of a collection, so Sort describes
      whatever ascending sort the program calls. */
  lemma {:induction false} SortedPermutationUnique(a: seq<int>, b: seq<int>)
    requires Sorted(a) && Sorted(b)
    requires multiset(a) == multiset(b)
    ensures a == b
    decreases |a|
  {
    assert |a| == |multiset(a)| == |multiset(b)| == |b|;
    if a != [] {
      assert a[0] in multiset(b);
      assert b[0] in multiset(a);
      assert a[0] == b[0];
      assert a == [a[0]] + a[1..];
      assert b == [b[0]] + b[1..];
      assert multiset(a[1..]) == multiset(a) - multiset{a[0]};
      assert multiset(b[1..]) == multiset(b) - multiset{b[0]};
      SortedPermutationUnique(a[1..], b[1..]);
    }
  }

  /** Which side of a pivot an element is counted on. */
  datatype Side = AtMost | AtLeast

  predicate OnSide(x: int, pivot: int, side: Side) {
    match side
    case AtMost => x <= pivot
    case AtLeast => x >= pivot
  }

  /** Number of elements of s on the given side of pivot. */
  function Count(s: seq<int>, pivot: int, side: Side): nat {
    if s == [] then 0
    else (if OnSide(s[0], pivot, side) then 1 else 0) + Count(s[1..], pivot, side)
  }

  lemma {:induction false} CountInsert(x: int, s: seq<int>, pivot: int, side: Side)
    requires Sorted(s)
    ensures Count(Insert(x, s), pivot, side) == Count([x] + s, pivot, side)
    decreases |s|
  {
    assert ([x] + s)[1..] == s;
    if s != [] && x > s[0] {
      assert Insert(x, s) == [s[0]] + Insert(x, s[1..]);
      assert ([s[0]] + Insert(x, s[1..]))[1..] == Insert(x, s[1..]);
      CountInsert(x, s[1..], pivot, side);
      assert ([x] + s[1..])[1..] == s[1..];
    }
  }

  /** Sorting does not change how many elements lie on either side of a pivot. */
  lemma {:induction false} CountSort(s: seq<int>, pivot: int, side: Side)
    ensures Count(Sort(s), pivot, side) == Count(s, pivot, side)
  {
    if s != [] {
      CountSort(s[1..], pivot, side);
      CountInsert(s[0], Sort(s[1..]), pivot, side);
      assert ([s[0]] + Sort(s[1..]))[1..] == Sort(s[1..]);
    }
  }

  /** In a sorted sequence, an element at most the pivot at slot k has the
      whole prefix up to it at most the pivot as well. */
  lemma {:induction false} CountSortedPrefix(s: seq<int>, k: nat, pivot: int)
    requires Sorted(s) && k < |s| && s[k] <= pivot
    ensures Count(s, pivot, AtMost) >= k + 1
  {
    if k > 0 {
      CountSortedPrefix(s[1..], k - 1, pivot);
    }
  }

  /** In a sorted sequence, an element at least the pivot at slot k has the
      whole suffix from it at least the pivot as well. */
  lemma {:induction false} CountSortedSuffix(s: seq<int>, k: nat, pivot: int)
    requires Sorted(s) && k < |s| && s[k] >= pivot
    ensures Count(s, pivot, AtLeast) >= |s| - k
  {
    if k > 0 {
      CountSortedSuffix(s[1..], k - 1, pivot);
    } else if |s| > 1 {
      assert s[1] >= pivot;
      CountSortedSuffix(s[1..], 0, pivot);
    }
  }
}
