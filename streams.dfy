/** The slice of java.util.stream that the exercise programs use: the Optional that
    terminal reductions return, the exception an orElseThrow raises, and the
    sequential semantics of Stream.reduce(BinaryOperator). */
module Streams {

  /** Optional / OptionalInt: a value that may be absent. */
  datatype Option<+T> = None | Some(value: T)

  /** A computation that either yields a value or throws an exception. */
  datatype Result<+T, +E> = Success(value: T) | Failure(error: E)

  /** The accumulation loop of a sequential reduce: each further element is combined
      into the accumulator with `op(accumulator, element)`, left to right. */
  function Fold<T>(acc: T, xs: seq<T>, op: (T, T) -> T): T
    decreases |xs|
  {
    if xs == [] then acc else Fold(op(acc, xs[0]), xs[1..], op)
  }

  /** Stream.reduce(BinaryOperator): absent on an empty stream; otherwise the first
      element seeds the accumulator and the rest are folded into it. */
  function Reduce<T>(xs: seq<T>, op: (T, T) -> T): (r: Option<T>)
    ensures r.None? <==> xs == []
  {
    if xs == [] then None else Some(Fold(xs[0], xs[1..], op))
  }

  /** Folding one more element at the end applies the operator once more. */
  lemma {:induction false} FoldAppend<T>(acc: T, xs: seq<T>, y: T, op: (T, T) -> T)
    ensures Fold(acc, xs + [y], op) == op(Fold(acc, xs, op), y)
    decreases |xs|
  {
    if xs == [] {
      assert xs + [y] == [y];
      assert [y][1..] == [];
    } else {
      assert (xs + [y])[0] == xs[0];
      assert (xs + [y])[1..] == xs[1..] + [y];
      FoldAppend(op(acc, xs[0]), xs[1..], y, op);
    }
  }

  /** Reducing a stream extended by `y` combines the old reduction with `y`, or is
      `y` alone when the old stream was empty. */
  lemma ReduceAppend<T>(xs: seq<T>, y: T, op: (T, T) -> T)
    ensures Reduce(xs + [y], op) == Some(if xs == [] then y else op(Reduce(xs, op).value, y))
  {
    if xs == [] {
      assert xs + [y] == [y];
    } else {
      assert (xs + [y])[0] == xs[0];
      assert (xs + [y])[1..] == xs[1..] + [y];
      FoldAppend(xs[0], xs[1..], y, op);
    }
  }
}
