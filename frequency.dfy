/** java_8_features/SortTheElementsArray: despite its name the program sorts nothing;
    it counts how often each element of an int array occurs, with
    `Arrays.stream(arr).boxed().collect(groupingBy(num -> num, counting()))`.
    The collector visits the elements left to right and either starts a key at one
    or adds one to its count. */
module Frequency {
  import opened RemoveDuplicates

  /** The frequency map of `arr`, as the collector builds it. */
  function Frequencies(arr: seq<int>): map<int, nat>
  {
    if arr == [] then map[]
    else
      var m, x := Frequencies(arr[..|arr| - 1]), arr[|arr| - 1];
      m[x := (if x in m then m[x] else 0) + 1]
  }

  /** The keys are exactly the elements of `arr`, and each key maps to its number of
      occurrences, which is therefore at least one. */
  lemma {:induction false} FrequenciesCount(arr: seq<int>)
    ensures forall k :: k in Frequencies(arr) <==> k in arr
    ensures forall k :: k in Frequencies(arr) ==> Frequencies(arr)[k] == multiset(arr)[k]
    ensures forall k :: k in Frequencies(arr) ==> Frequencies(arr)[k] >= 1
  {
    if arr != [] {
      var init, x := arr[..|arr| - 1], arr[|arr| - 1];
      assert arr == init + [x];
      FrequenciesCount(init);
      assert multiset(arr) == multiset(init) + multiset{x};
    }
  }

  /** The count recorded for `k`, zero when `k` is not a key. */
  function CountOf(m: map<int, nat>, k: int): nat
  {
    if k in m then m[k] else 0
  }

  /** Sum of the counts of the keys listed in `ks`. */
  function SumOver(ks: seq<int>, m: map<int, nat>): nat
  {
    if ks == [] then 0 else CountOf(m, ks[0]) + SumOver(ks[1..], m)
  }

  lemma {:induction false} SumOverAppend(a: seq<int>, b: seq<int>, m: map<int, nat>)
    ensures SumOver(a + b, m) == SumOver(a, m) + SumOver(b, m)
    decreases |a|
  {
    if a != [] {
      assert (a + b)[1..] == a[1..] + b;
      SumOverAppend(a[1..], b, m);
    } else {
      assert a + b == b;
    }
  }

  /** Changing the count of a key that is listed once changes the sum by the difference;
      changing one that is not listed changes nothing. */
  lemma {:induction false} SumOverUpdate(ks: seq<int>, m: map<int, nat>, x: int, v: nat)
    requires NoDuplicates(ks)
    ensures SumOver(ks, m[x := v]) == if x in ks then SumOver(ks, m) - CountOf(m, x) + v else SumOver(ks, m)
    decreases |ks|
  {
    if ks != [] {
      assert x in ks[1..] ==> ks[0] != x by {
        if x in ks[1..] {
          var j :| 0 <= j < |ks[1..]| && ks[1..][j] == x;
          assert ks[j + 1] == x;
        }
      }
      assert x in ks <==> x == ks[0] || x in ks[1..] by {
        assert ks == [ks[0]] + ks[1..];
      }
      SumOverUpdate(ks[1..], m, x, v);
    }
  }

  /** What the frequency proof needs of the first-occurrence listing. */
  lemma FirstOccurrencesFacts(xs: seq<int>)
    ensures NoDuplicates(FirstOccurrences(xs))
    ensures forall x :: x in FirstOccurrences(xs) <==> x in xs
  {
    DistinctIsFirstOccurrences(xs);
    DistinctProperties(xs);
  }

  /** Summed once per key, keys taken in order of first occurrence, the counts total
      the length of `arr`. */
  lemma {:induction false} FrequencyTotalFirst(arr: seq<int>)
    ensures SumOver(FirstOccurrences(arr), Frequencies(arr)) == |arr|
  {
    if arr != [] {
      var init, x := arr[..|arr| - 1], arr[|arr| - 1];
      var m, fo := Frequencies(init), FirstOccurrences(init);
      FrequencyTotalFirst(init);
      FirstOccurrencesFacts(init);
      SumOverUpdate(fo, m, x, CountOf(m, x) + 1);
      assert Frequencies(arr) == m[x := CountOf(m, x) + 1];
      if x in init {
        assert FirstOccurrences(arr) == fo + [];
        assert fo + [] == fo;
      } else {
        FrequenciesCount(init);
        assert [x][1..] == [];
        SumOverAppend(fo, [x], m[x := 1]);
      }
    }
  }

  /** The counts, summed over the distinct elements of `arr`, total `arr.length`. */
  lemma FrequencyTotal(arr: seq<int>)
    ensures forall k :: k in Distinct(arr) <==> k in Frequencies(arr)
    ensures NoDuplicates(Distinct(arr))
    ensures SumOver(Distinct(arr), Frequencies(arr)) == |arr|
  {
    DistinctIsFirstOccurrences(arr);
    DistinctProperties(arr);
    FrequenciesCount(arr);
    FrequencyTotalFirst(arr);
  }

  /** The program's array {5, 8, 5, 7, 8, 10}. */
  lemma ProgramExample()
    ensures Frequencies([5, 8, 5, 7, 8, 10]) == map[5 := 2, 8 := 2, 7 := 1, 10 := 1]
  {
    var arr := [5, 8, 5, 7, 8, 10];
    assert arr[..5] == [5, 8, 5, 7, 8];
    assert arr[..5][..4] == [5, 8, 5, 7];
    assert arr[..5][..4][..3] == [5, 8, 5];
    assert arr[..5][..4][..3][..2] == [5, 8];
    assert arr[..5][..4][..3][..2][..1] == [5];
    assert Frequencies([5]) == map[5 := 1] by {
      assert [5][..0] == [];
    }
    assert Frequencies([5, 8]) == map[5 := 1, 8 := 1];
    assert Frequencies([5, 8, 5]) == map[5 := 2, 8 := 1];
    assert Frequencies([5, 8, 5, 7]) == map[5 := 2, 8 := 1, 7 := 1];
    assert Frequencies([5, 8, 5, 7, 8]) == map[5 := 2, 8 := 2, 7 := 1];
  }
}
