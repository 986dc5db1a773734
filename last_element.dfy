/** java_8_features/RetrieveLastElement: `strings.stream().reduce((first, second) -> second)`,
    whose Optional result is the last element of the list. */
module LastElement {
  import opened Streams

  /** The lambda `(first, second) -> second`. */
  function KeepSecond<T>(first: T, second: T): T { second }

  /** The reduction the program performs. */
  function LastOf<T>(xs: seq<T>): (r: Option<T>)
    ensures r.None? <==> xs == []
  {
    Reduce(xs, KeepSecond)
  }

  /** Appending `y` to any list makes the reduction yield `y`. */
  lemma {:induction false} AppendGivesLast<T>(xs: seq<T>, y: T)
    ensures LastOf(xs + [y]) == Some(y)
  {
    ReduceAppend(xs, y, KeepSecond);
  }

  /** The reduction is absent for an empty list and is the last element otherwise. */
  lemma {:induction false} LastOfIsLast<T>(xs: seq<T>)
    ensures LastOf(xs) == if xs == [] then None else Some(xs[|xs| - 1])
  {
    if xs != [] {
      assert xs == xs[..|xs| - 1] + [xs[|xs| - 1]];
      AppendGivesLast(xs[..|xs| - 1], xs[|xs| - 1]);
    }
  }

  /** The program's list ends with "Ruby". */
  lemma ProgramExample()
    ensures LastOf(["Java", "Python", "C++", "JavaScript", "Ruby"]) == Some("Ruby")
  {
    LastOfIsLast(["Java", "Python", "C++", "JavaScript", "Ruby"]);
  }
}
