/** java_8_features/MaxMinWithStreams: the largest and smallest number of a list,
    each computed by `mapToInt(Integer::intValue).max()` / `.min()`.  IntStream.max
    and IntStream.min are reductions with Math.max and Math.min, so both are
    modelled through Streams.Reduce and return an OptionalInt, absent on an empty list. */
module MaxMin {
  import opened Streams

  /** Math.max(int, int). */
  function MathMax(a: int, b: int): (r: int)
    ensures r == a || r == b
    ensures a <= r && b <= r
  {
    if a >= b then a else b
  }

  /** Math.min(int, int). */
  function MathMin(a: int, b: int): (r: int)
    ensures r == a || r == b
    ensures r <= a && r <= b
  {
    if a <= b then a else b
  }

  /** Folding with Math.max keeps one of the values seen and bounds all of them. */
  lemma {:induction false} FoldMaxBounds(acc: int, xs: seq<int>)
    ensures Fold(acc, xs, MathMax) == acc || Fold(acc, xs, MathMax) in xs
    ensures acc <= Fold(acc, xs, MathMax)
    ensures forall i :: 0 <= i < |xs| ==> xs[i] <= Fold(acc, xs, MathMax)
    decreases |xs|
  {
    if xs != [] {
      FoldMaxBounds(MathMax(acc, xs[0]), xs[1..]);
      forall i | 1 <= i < |xs| ensures xs[i] == xs[1..][i - 1] { }
    }
  }

  /** Folding with Math.min keeps one of the values seen and is below all of them. */
  lemma {:induction false} FoldMinBounds(acc: int, xs: seq<int>)
    ensures Fold(acc, xs, MathMin) == acc || Fold(acc, xs, MathMin) in xs
    ensures Fold(acc, xs, MathMin) <= acc
    ensures forall i :: 0 <= i < |xs| ==> Fold(acc, xs, MathMin) <= xs[i]
    decreases |xs|
  {
    if xs != [] {
      FoldMinBounds(MathMin(acc, xs[0]), xs[1..]);
      forall i | 1 <= i < |xs| ensures xs[i] == xs[1..][i - 1] { }
    }
  }

  /** IntStream.max(): absent exactly for an empty list; otherwise a member of the
      list that no element exceeds. */
  function Max(numbers: seq<int>): (r: Option<int>)
    ensures r.None? <==> numbers == []
    ensures r.Some? ==> r.value in numbers
    ensures r.Some? ==> forall i :: 0 <= i < |numbers| ==> numbers[i] <= r.value
  {
    if numbers == [] then None
    else
      FoldMaxBounds(numbers[0], numbers[1..]);
      assert forall i :: 1 <= i < |numbers| ==> numbers[i] == numbers[1..][i - 1];
      Reduce(numbers, MathMax)
  }

  /** IntStream.min(): absent exactly for an empty list; otherwise a member of the
      list that no element undercuts. */
  function Min(numbers: seq<int>): (r: Option<int>)
    ensures r.None? <==> numbers == []
    ensures r.Some? ==> r.value in numbers
    ensures r.Some? ==> forall i :: 0 <= i < |numbers| ==> r.value <= numbers[i]
  {
    if numbers == [] then None
    else
      FoldMinBounds(numbers[0], numbers[1..]);
      assert forall i :: 1 <= i < |numbers| ==> numbers[i] == numbers[1..][i - 1];
      Reduce(numbers, MathMin)
  }

  /** The two contracts above pin the result down: any member of the list that bounds
      it from above is the maximum, and likewise for the minimum. */
  lemma MaxMinUnique(numbers: seq<int>, hi: int, lo: int)
    requires hi in numbers && forall i :: 0 <= i < |numbers| ==> numbers[i] <= hi
    requires lo in numbers && forall i :: 0 <= i < |numbers| ==> lo <= numbers[i]
    ensures Max(numbers) == Some(hi) && Min(numbers) == Some(lo)
  {
  }

  /** On a non-empty list both are present and the minimum does not exceed the maximum. */
  lemma MinAtMostMax(numbers: seq<int>)
    requires numbers != []
    ensures Max(numbers).Some? && Min(numbers).Some?
    ensures Min(numbers).value <= Max(numbers).value
  {
    assert numbers[0] in numbers;
  }

  /** The program's list [1, 2, 5, 0, 19] has maximum 19 and minimum 0. */
  lemma ProgramExample()
    ensures Max([1, 2, 5, 0, 19]) == Some(19)
    ensures Min([1, 2, 5, 0, 19]) == Some(0)
  {
    MaxMinUnique([1, 2, 5, 0, 19], 19, 0);
  }

  /** An empty list prints nothing: both results are absent. */
  lemma EmptyListAbsent()
    ensures Max([]) == None && Min([]) == None
  {
  }
}
