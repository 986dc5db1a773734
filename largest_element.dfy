/** java_8_features/LargestElementInArray: `Arrays.stream(arr).max()` followed by
    `orElseThrow`, which turns an absent maximum into an IllegalArgumentException. */
module LargestElement {
  import opened Streams
  import opened MaxMin

  /** The exceptions the program can raise. */
  datatype Exception = IllegalArgumentException(message: string)

  /** The largest element of `arr`, or the "Array is Empty" exception when there is none. */
  function Largest(arr: seq<int>): (r: Result<int, Exception>)
    ensures r.Failure? <==> arr == []
    ensures r.Failure? ==> r.error == IllegalArgumentException("Array is Empty")
    ensures r.Success? ==> r.value in arr
    ensures r.Success? ==> forall i :: 0 <= i < |arr| ==> arr[i] <= r.value
  {
    match Max(arr)
    case None => Failure(IllegalArgumentException("Array is Empty"))
    case Some(max) => Success(max)
  }

  /** The program's array {34, 2, 5, 6, 10, 780} yields 780. */
  lemma ProgramExample()
    ensures Largest([34, 2, 5, 6, 10, 780]) == Success(780)
  {
    MaxMinUnique([34, 2, 5, 6, 10, 780], 780, 2);
  }
}
