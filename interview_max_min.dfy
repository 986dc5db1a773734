/** java_8_features/interview/MaxMinWithStreams: the same IntStream.max()/min()
    reductions as MaxMin, applied to the list 1..7. */
module InterviewMaxMin {
  import opened Streams
  import opened MaxMin

  /** Every element is strictly smaller than the next one. */
  predicate StrictlyIncreasing(xs: seq<int>)
  {
    forall i, j :: 0 <= i < j < |xs| ==> xs[i] < xs[j]
  }

  /** For a strictly increasing list the maximum is its last element and the minimum its first. */
  lemma IncreasingEnds(nums: seq<int>)
    requires nums != [] && StrictlyIncreasing(nums)
    ensures Max(nums) == Some(nums[|nums| - 1])
    ensures Min(nums) == Some(nums[0])
  {
    MaxMinUnique(nums, nums[|nums| - 1], nums[0]);
  }

  /** The program's list 1..7 has maximum 7 and minimum 1. */
  lemma ProgramExample()
    ensures Max([1, 2, 3, 4, 5, 6, 7]) == Some(7)
    ensures Min([1, 2, 3, 4, 5, 6, 7]) == Some(1)
  {
    IncreasingEnds([1, 2, 3, 4, 5, 6, 7]);
  }
}
