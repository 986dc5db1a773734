/** arrays/HalfSort: sorts the first half `arr[0..mid)` of an array in place with
    `Arrays.sort(arr, 0, mid)`, where `mid = n / 2`, and then copies the second half
    `arr[mid..n)` element by element into a new array `secondHalf`. */
module HalfSort {

  /** `s[lo..hi)` is in non-decreasing order. */
  predicate SortedRange(s: seq<int>, lo: nat, hi: nat)
    requires lo <= hi <= |s|
  {
    forall i, j :: lo <= i < j < hi ==> s[i] <= s[j]
  }

  predicate Sorted(s: seq<int>)
  {
    SortedRange(s, 0, |s|)
  }

  /** Exchanges two cells and keeps the array a permutation of what it was. */
  method Swap(a: array<int>, i: int, j: int)
    requires 0 <= i < a.Length && 0 <= j < a.Length
    modifies a
    ensures a[i] == old(a[j]) && a[j] == old(a[i])
    ensures forall k :: 0 <= k < a.Length && k != i && k != j ==> a[k] == old(a[k])
    ensures multiset(a[..]) == multiset(old(a[..]))
  {
    a[i], a[j] := a[j], a[i];
  }

  /** One pass of insertion sort: with `a[lo..i)` sorted, sinks `a[i]` to its place so
      that `a[lo..i]` is sorted; only cells of `a[lo..i]` move. */
  method Insert(a: array<int>, lo: nat, i: nat)
    requires lo <= i < a.Length
    requires SortedRange(a[..], lo, i)
    modifies a
    ensures SortedRange(a[..], lo, i + 1)
    ensures multiset(a[..]) == multiset(old(a[..]))
    ensures forall k :: 0 <= k < a.Length && !(lo <= k <= i) ==> a[k] == old(a[k])
  {
    var j := i;
    while j > lo && a[j - 1] > a[j]
      invariant lo <= j <= i
      invariant forall p, q :: lo <= p < q <= i && q != j ==> a[p] <= a[q]
      invariant multiset(a[..]) == multiset(old(a[..]))
      invariant forall k :: 0 <= k < a.Length && !(lo <= k <= i) ==> a[k] == old(a[k])
    {
      Swap(a, j - 1, j);
      j := j - 1;
    }
  }

  lemma MultisetCancel(a: multiset<int>, b: multiset<int>, c: multiset<int>)
    requires a + b == a + c
    ensures b == c
  {
    forall x ensures b[x] == c[x] {
      assert (a + b)[x] == a[x] + b[x] && (a + c)[x] == a[x] + c[x];
    }
  }

  /** When two equally long sequences agree outside `[lo, hi)` and are permutations of
      each other, so are their slices `[lo, hi)`. */
  lemma SlicePermutation(s: seq<int>, t: seq<int>, lo: nat, hi: nat)
    requires lo <= hi <= |s| == |t|
    requires multiset(s) == multiset(t)
    requires s[..lo] == t[..lo] && s[hi..] == t[hi..]
    ensures multiset(s[lo..hi]) == multiset(t[lo..hi])
  {
    assert s == s[..lo] + s[lo..hi] + s[hi..];
    assert t == t[..lo] + t[lo..hi] + t[hi..];
    assert multiset(s) == multiset(s[..lo]) + multiset(s[lo..hi]) + multiset(s[hi..]);
    assert multiset(t) == multiset(t[..lo]) + multiset(t[lo..hi]) + multiset(t[hi..]);
    forall x ensures multiset(s[lo..hi])[x] == multiset(t[lo..hi])[x] {
      assert multiset(s)[x] == multiset(s[..lo])[x] + multiset(s[lo..hi])[x] + multiset(s[hi..])[x];
      assert multiset(t)[x] == multiset(t[..lo])[x] + multiset(t[lo..hi])[x] + multiset(t[hi..])[x];
    }
  }

  /** Arrays.sort(a, lo, hi): sorts `a[lo..hi)` into non-decreasing order, as a
      permutation of its old contents, and leaves every cell outside the range alone.
      The library's algorithm is not modelled; this is an insertion sort with the same
      postcondition. */
  method SortRange(a: array<int>, lo: nat, hi: nat)
    requires lo <= hi <= a.Length
    modifies a
    ensures SortedRange(a[..], lo, hi)
    ensures multiset(a[lo..hi]) == multiset(old(a[lo..hi]))
    ensures a[..lo] == old(a[..lo]) && a[hi..] == old(a[hi..])
  {
    ghost var original := a[..];
    var i := lo;
    while i < hi
      invariant lo <= i <= hi
      invariant SortedRange(a[..], lo, i)
      invariant multiset(a[..]) == multiset(original)
      invariant forall k :: 0 <= k < a.Length && !(lo <= k < hi) ==> a[k] == original[k]
    {
      Insert(a, lo, i);
      i := i + 1;
    }
    assert a[..lo] == original[..lo];
    assert a[hi..] == original[hi..];
    SlicePermutation(a[..], original, lo, hi);
  }

  /** The program: sort the first `n / 2` cells in place, then copy the rest into a new
      array of length `n - n / 2`. */
  method HalfSort(arr: array<int>) returns (secondHalf: array<int>)
    modifies arr
    ensures fresh(secondHalf)
    ensures secondHalf.Length == arr.Length - arr.Length / 2
    ensures arr.Length / 2 <= secondHalf.Length
    ensures SortedRange(arr[..], 0, arr.Length / 2)
    ensures multiset(arr[..arr.Length / 2]) == multiset(old(arr[..arr.Length / 2]))
    ensures arr[arr.Length / 2..] == old(arr[arr.Length / 2..])
    ensures forall i :: 0 <= i < secondHalf.Length ==> secondHalf[i] == arr[arr.Length / 2 + i]
  {
    var n := arr.Length;
    var mid := n / 2;
    SortRange(arr, 0, mid);
    assert arr[0..mid] == arr[..mid];
    assert old(arr[0..mid]) == old(arr[..mid]);
    ghost var sortedHalf := arr[..mid];
    secondHalf := new int[n - mid];
    for i := 0 to secondHalf.Length
      modifies secondHalf
      invariant forall k :: 0 <= k < i ==> secondHalf[k] == arr[mid + k]
    {
      secondHalf[i] := arr[mid + i];
    }
    assert arr[..mid] == sortedHalf;
  }

  lemma SortedHeadLeast(s: seq<int>, x: int)
    requires s != [] && Sorted(s) && x in s
    ensures s[0] <= x
  {
  }

  lemma SortedTail(s: seq<int>)
    requires s != [] && Sorted(s)
    ensures Sorted(s[1..])
  {
  }

  /** A sorted arrangement of a multiset is unique, so the sort's two postconditions
      determine the first half completely. */
  lemma {:induction false} SortedPermutationUnique(s: seq<int>, t: seq<int>)
    requires Sorted(s) && Sorted(t) && multiset(s) == multiset(t)
    ensures s == t
    decreases |s|
  {
    assert |s| == |t| by {
      assert |multiset(s)| == |s| && |multiset(t)| == |t|;
    }
    if s != [] {
      assert t[0] in multiset(s) by {
        assert t[0] in multiset(t);
      }
      assert s[0] in multiset(t) by {
        assert s[0] in multiset(s);
      }
      SortedHeadLeast(s, t[0]);
      SortedHeadLeast(t, s[0]);
      assert multiset(s[1..]) == multiset(t[1..]) by {
        assert s == [s[0]] + s[1..] && t == [t[0]] + t[1..];
        assert multiset(s) == multiset{s[0]} + multiset(s[1..]);
        assert multiset(t) == multiset{t[0]} + multiset(t[1..]);
        MultisetCancel(multiset{s[0]}, multiset(s[1..]), multiset(t[1..]));
      }
      SortedTail(s);
      SortedTail(t);
      SortedPermutationUnique(s[1..], t[1..]);
    }
  }

  /** The program's array {5, 2, 9, 1, 6, 3, 8, 4}: the first half becomes 1, 2, 5, 9,
      the rest stays 6, 3, 8, 4 and is what secondHalf holds. */
  method ProgramExample()
  {
    var arr := new int[] [5, 2, 9, 1, 6, 3, 8, 4];
    ghost var firstHalf := arr[..4];
    assert firstHalf == [5, 2, 9, 1];
    var secondHalf := HalfSort(arr);
    assert arr[4..] == [6, 3, 8, 4];
    assert secondHalf[..] == [6, 3, 8, 4];
    assert multiset(arr[..4]) == multiset([1, 2, 5, 9]);
    SortedPermutationUnique(arr[..4], [1, 2, 5, 9]);
    assert arr[..] == [1, 2, 5, 9, 6, 3, 8, 4] by {
      assert arr[..] == arr[..4] + arr[4..];
    }
  }
}
