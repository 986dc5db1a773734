# Java exercise programs, modelled in Dafny

The repository is a set of Java back-end tutorials. Its only front-end file,
`java_oop_tutorial.tsx`, is a static tutorial page with no logic. The computations
live in small Java programs under `src/`, each a `main` over a hard-coded input.
This project models eight of them. Each hard-coded input becomes a parameter. The
computation is stated in Dafny and proved against a specification, and each
program's own example is checked by a lemma.

- `Streams` (`streams.dfy`): `Optional`/`OptionalInt` as `Option`, an exception as
  `Result`, and sequential `Stream.reduce(op)`. An empty stream gives absent.
  Otherwise the first element seeds the accumulator, and `acc := op(acc, next)`
  runs left to right. `IntStream.max()`/`min()` are `reduce(Math::max)` /
  `reduce(Math::min)`, so they are built on it too.
- `Armstrong` (`armstrong.dfy`, `amstrong/AmstrongNumber.java`): `leng` and the
  digit-power loop become methods with loop invariants over a digit-sequence
  specification. Java `int` arithmetic is modelled exactly over the whole int
  range:
  - `/` and `%` truncate toward zero, so a negative number has non-positive digits.
  - `Math.pow(digit, len)` returns the exact power here. Its specification makes the
    result exact when both arguments are integers and the result is representable as
    a double, and |digit| <= 9, len <= 10 give at most 9^10.
  - The double addition `sum + Math.pow(...)` is then exact too, because every value
    stays below 2^53.
  - `sum += <double>` narrows to int, which saturates.

  The model proves that saturation never changes the verdict. It also proves that
  a negative number with an odd digit count (such as -371) is reported exactly
  when its absolute value is.
- `HalfSort` (`half_sort.dfy`, `arrays/HalfSort.java`): works in place on an
  `array<int>`. `Arrays.sort(arr, 0, mid)` becomes an insertion sort on the range,
  with sortedness, permutation and frame postconditions. The `for` loop copies
  `arr[mid..n)` into a fresh `secondHalf`.
- `RemoveDuplicates` (`remove_duplicates.dfy`): `distinct()` as a left-to-right
  filter over a set of elements already seen, generic in the element type. It is
  proved equal to an independent first-occurrence definition, duplicate-free,
  set-preserving and idempotent.
- `Frequency` (`frequency.dfy`, `SortTheElementsArray.java`): `groupingBy(num -> num,
  counting())` as a `map<int, nat>` built element by element. It is proved equal to
  the multiset count, and its counts sum to the array's length.
- `MaxMin`, `InterviewMaxMin`, `LargestElement`, `LastElement`: the `max()`/`min()`
  reductions, `orElseThrow` with `IllegalArgumentException("Array is Empty")`, and
  `reduce((first, second) -> second)`.

## Model

| member | source | states |
|---|---|---|
| `Armstrong.Leng` | src/amstrong/AmstrongNumber.java:22-30 | `leng(num)` returns the digit count: 0 for 0, otherwise the `len` with 10^(len-1) <= abs(num) < 10^len |
| `Armstrong.NumDigitsBounds` | src/amstrong/AmstrongNumber.java:22-29 | closed form of the digit count: 0 for 0, otherwise 10^(len-1) <= abs(n) < 10^len |
| `Armstrong.Quot` | src/amstrong/AmstrongNumber.java:12 | Java's int `/`: truncates toward zero, so abs(q) == abs(a) / b and q has the sign of a (or is 0) |
| `Armstrong.Rem` | src/amstrong/AmstrongNumber.java:10 | Java's int `%`: q * b + r == a with abs(r) < b, and r has the sign of a (or is 0) |
| `Armstrong.Narrow` | src/amstrong/AmstrongNumber.java:11 | the double-to-int narrowing in `sum +=`: always an int, and the identity on values that are already ints, `Integer.MAX_VALUE` above the range and `Integer.MIN_VALUE` below it |
| `Armstrong.Pow` | src/amstrong/AmstrongNumber.java:11 | `Math.pow(digit, len)`: the exact integer power b^e, which `Math.pow` returns for integer operands with a representable result |
| `Armstrong.SaturatingSum` | src/amstrong/AmstrongNumber.java:9-13 | the main loop's accumulation of digit powers into `sum`, narrowing after each add; it stays in the int range when it starts there |
| `Armstrong.ProgramSum` | src/amstrong/AmstrongNumber.java:6-13 | the value of `sum` after the loop, starting from 0 with `len = leng(num)`; always an int |
| `Armstrong.DigitsRange` | src/amstrong/AmstrongNumber.java:9-12 | with truncating `%` and `/`, every digit of a non-negative number is in 0..9 and of a negative one in -9..0 |
| `Armstrong.CheckArmstrong` | src/amstrong/AmstrongNumber.java:5-19 | the digit loop runs exactly `leng(num)` times; `sum` is the narrowed digit-power sum, least significant digit first; "Armstrong" is reported exactly when `sum == num`, and that is exactly when the exact digit-power sum equals `num` |
| `Armstrong.ProgramSumClosedForm` | src/amstrong/AmstrongNumber.java:9-13 | after the loop `sum` is the exact sum of digit^len, capped at Integer.MAX_VALUE (non-negative input or even length) or floored at Integer.MIN_VALUE (negative input, odd length) |
| `Armstrong.RangeEndsRejected` | src/amstrong/AmstrongNumber.java:9-14 | neither Integer.MAX_VALUE nor Integer.MIN_VALUE is reported, and neither equals its exact digit-power sum |
| `Armstrong.VerdictUnaffectedByNarrowing` | src/amstrong/AmstrongNumber.java:11-14 | for every int, comparing the saturated `sum` with `num` gives the same answer as comparing the exact digit-power sum |
| `Armstrong.DigitsNegated` | src/amstrong/AmstrongNumber.java:10-12 | truncating `%` and `/` make the digits of -n the negated digits of n |
| `Armstrong.NegativeNumbers` | src/amstrong/AmstrongNumber.java:9-14 | with an odd digit count, -n passes the test exactly when n does; with an even count no negative number passes |
| `Armstrong.RunProgram` | src/amstrong/AmstrongNumber.java:4-19 | `main` on 371: `CheckArmstrong` reaches the "Armstrong Number" branch after three iterations, with `sum == 371` |
| `Armstrong.ProgramExample` | src/amstrong/AmstrongNumber.java:5-15 | 371 has 3 digits, its loop sum is 371 and it is reported as an Armstrong number |
| `Armstrong.NegativeExample` | src/amstrong/AmstrongNumber.java:9-15 | -371 is reported as an Armstrong number too |
| `HalfSort.SortRange` | src/arrays/HalfSort.java:10 | `Arrays.sort(a, lo, hi)` leaves `a[lo..hi)` non-decreasing, a permutation of its old contents, and every cell outside the range unchanged |
| `HalfSort.HalfSort` | src/arrays/HalfSort.java:6-16 | `mid = n/2 <= n - mid == secondHalf.length`; `arr[0..mid)` ends sorted and a permutation of the old first half; `arr[mid..n)` is unchanged; `secondHalf[i] == arr[mid+i]` for every i; `secondHalf` is a new array |
| `HalfSort.ProgramExample` | src/arrays/HalfSort.java:7-14 | `main` on {5, 2, 9, 1, 6, 3, 8, 4}: `arr` becomes {1, 2, 5, 9, 6, 3, 8, 4} and `secondHalf` holds {6, 3, 8, 4} |
| `HalfSort.SortedPermutationUnique` | src/arrays/HalfSort.java:10 | two sorted sequences with the same multiset are equal, so the sort's postconditions fix the first half (the example's becomes 1, 2, 5, 9) |
| `RemoveDuplicates.DistinctFrom` | src/java_8_features/RemoveDuplicates.java:12-14 | sequential `distinct()` with a set of elements already seen: an element passes when unseen and is then recorded as seen |
| `RemoveDuplicates.Distinct` | src/java_8_features/RemoveDuplicates.java:12-14 | `stream().distinct().collect(...)`: `DistinctFrom` started from an empty seen set |
| `RemoveDuplicates.DistinctFromProperties` | src/java_8_features/RemoveDuplicates.java:12-14 | given a set of elements already seen, `distinct` emits no element twice, exactly the unseen input elements, and never more elements than the input has |
| `RemoveDuplicates.DistinctProperties` | src/java_8_features/RemoveDuplicates.java:12-14 | output has no duplicates, an element is in the output iff it is in the input, and the output is never longer than the input |
| `RemoveDuplicates.DistinctIsFirstOccurrences` | src/java_8_features/RemoveDuplicates.java:11-14 | output equals the list of input positions whose element did not occur earlier, in input order |
| `RemoveDuplicates.DistinctIdempotent` | src/java_8_features/RemoveDuplicates.java:12-14 | applying `distinct` twice gives the same list as applying it once |
| `RemoveDuplicates.IntegerExample` | src/java_8_features/RemoveDuplicates.java:11-15 | [1, 2, 2, 3, 4, 4, 5] becomes [1, 2, 3, 4, 5] |
| `RemoveDuplicates.StringExample` | src/java_8_features/RemoveDuplicates.java:18-22 | the String list gives ["apple", "orange", "banana"]: the same generic operation on another element type |
| `Frequency.Frequencies` | src/java_8_features/SortTheElementsArray.java:11-14 | `groupingBy(num -> num, counting())`: elements are visited left to right, and each one starts its key at 1 or adds 1 to that key's count |
| `Frequency.FrequenciesCount` | src/java_8_features/SortTheElementsArray.java:11-14 | the keys are exactly the elements of `arr`, each value is the number of occurrences of its key, and every value is at least 1 |
| `Frequency.FrequencyTotal` | src/java_8_features/SortTheElementsArray.java:11-14 | the distinct elements of `arr` are exactly the keys, listed without repetition, and their counts sum to `arr.length` |
| `Frequency.ProgramExample` | src/java_8_features/SortTheElementsArray.java:9-14 | {5, 8, 5, 7, 8, 10} maps 5 to 2, 8 to 2, 7 to 1 and 10 to 1 |
| `Streams.Fold` | src/java_8_features/RetrieveLastElement.java:14-15 | the accumulation loop of sequential `reduce`: `acc := op(acc, next)` for each further element, left to right |
| `Streams.Reduce` | src/java_8_features/RetrieveLastElement.java:14-15 | `reduce(op)` is absent exactly on an empty stream |
| `Streams.FoldAppend` | src/java_8_features/RetrieveLastElement.java:14-15 | folding a list extended by y applies the operator once more, to the old result and y |
| `Streams.ReduceAppend` | src/java_8_features/RetrieveLastElement.java:14-15 | reducing `xs + [y]` gives y for empty xs; otherwise it gives op applied to the reduction of xs and y |
| `MaxMin.MathMax` | src/java_8_features/MaxMinWithStreams.java:14 | `Math.max`, the operator `IntStream.max()` reduces with: one of its two arguments, and at least both |
| `MaxMin.MathMin` | src/java_8_features/MaxMinWithStreams.java:17 | `Math.min`, the operator `IntStream.min()` reduces with: one of its two arguments, and at most both |
| `MaxMin.Max` | src/java_8_features/MaxMinWithStreams.java:14 | `max()` is absent iff the list is empty; otherwise it is a member of the list and at least every element |
| `MaxMin.Min` | src/java_8_features/MaxMinWithStreams.java:17 | `min()` is absent iff the list is empty; otherwise it is a member of the list and at most every element |
| `MaxMin.MaxMinUnique` | src/java_8_features/MaxMinWithStreams.java:14-17 | a member that bounds the list from above is its `max()`, and one that bounds it from below is its `min()` |
| `MaxMin.MinAtMostMax` | src/java_8_features/MaxMinWithStreams.java:14-17 | for a non-empty list both are present and min <= max |
| `MaxMin.EmptyListAbsent` | src/java_8_features/MaxMinWithStreams.java:14-21 | an empty list gives absent max and min, so nothing is printed |
| `MaxMin.ProgramExample` | src/java_8_features/MaxMinWithStreams.java:11-17 | [1, 2, 5, 0, 19] has max 19 and min 0 |
| `InterviewMaxMin.IncreasingEnds` | src/java_8_features/interview/MaxMinWithStreams.java:9-16 | for a strictly increasing non-empty list, max is its last element and min its first |
| `InterviewMaxMin.ProgramExample` | src/java_8_features/interview/MaxMinWithStreams.java:9-16 | the list 1..7 has max 7 and min 1 |
| `LargestElement.Largest` | src/java_8_features/LargestElementInArray.java:11-13 | an empty array throws `IllegalArgumentException("Array is Empty")` and only an empty one does; otherwise the result is an element of `arr` and at least every element |
| `LargestElement.ProgramExample` | src/java_8_features/LargestElementInArray.java:9-13 | {34, 2, 5, 6, 10, 780} gives 780 |
| `LastElement.KeepSecond` | src/java_8_features/RetrieveLastElement.java:15 | the lambda `(first, second) -> second` |
| `LastElement.LastOf` | src/java_8_features/RetrieveLastElement.java:14-15 | `strings.stream().reduce((first, second) -> second)`: absent exactly when the list is empty |
| `LastElement.LastOfIsLast` | src/java_8_features/RetrieveLastElement.java:14-15 | `reduce((first, second) -> second)` is absent on an empty list and otherwise the list's last element |
| `LastElement.AppendGivesLast` | src/java_8_features/RetrieveLastElement.java:15 | appending y to any list makes the reduction y |
| `LastElement.ProgramExample` | src/java_8_features/RetrieveLastElement.java:11-15 | the example list gives "Ruby" |

## Left out

- `java_oop_tutorial.tsx`: a static React page (tab and selector state, markup, icons) with no computation.
- Console output (`System.out.println`, string concatenation, `ifPresent` printing): the models return the values that would be printed.
- Floating point in `AmstrongNumber.java`: `Math.pow` is exact for integer operands whose result a double can represent (here at most 9^10), and the double addition is exact below 2^53, so the arithmetic is modelled as integer arithmetic followed by the saturating double-to-int narrowing.
- The unused local `digit` inside `leng` is dropped.
- `Arrays.sort`'s own algorithm (a dual-pivot quicksort): replaced by an insertion sort with the same contract. Its range-check exceptions cannot arise, because `0 <= mid <= n`.
- `secondHalf` is an `Integer[]`: boxing is not modelled, and the model uses an `array<int>`. Every cell is filled, so no `null` is ever observed.
- `HashMap` iteration order in `SortTheElementsArray.java`: unspecified, so the result is a Dafny `map`. Java's `Long` counts are `nat`.
- Stream laziness, collectors, boxing to `Integer`, and `toList()` versus `collect(Collectors.toList())`: only the resulting values are modelled.
- `LargestElementInArray.java`, `MaxMinWithStreams.java`, `interview/MaxMinWithStreams.java`, `RemoveDuplicates.java`, `RetrieveLastElement.java` and `SortTheElementsArray.java` have no state or loops. They are modelled on sequences (`seq`), not Java arrays or lists.
- `InterviewMaxMin.IncreasingEnds`: "max is the last element" is proved only for strictly increasing lists, such as that program's 1..7; for other lists, `MaxMin.Max` and `MaxMin.Min` give the general bounds.
