/** java_8_features/RemoveDuplicates: `list.stream().distinct()` collected into a list.
    A sequential distinct() passes an element on when it has not been seen before and
    records it as seen; it works for any element type with equality (the program
    applies it to Integer and String lists). */
module RemoveDuplicates {

  /** No element occurs twice. */
  predicate NoDuplicates<T(==)>(xs: seq<T>)
  {
    forall i, j :: 0 <= i < j < |xs| ==> xs[i] != xs[j]
  }

  /** distinct() over `xs`, given the set of elements already seen. */
  function DistinctFrom<T(==)>(xs: seq<T>, seen: set<T>): seq<T>
    decreases |xs|
  {
    if xs == [] then []
    else if xs[0] in seen then DistinctFrom(xs[1..], seen)
    else [xs[0]] + DistinctFrom(xs[1..], seen + {xs[0]})
  }

  /** `stream().distinct().collect(...)`: nothing has been seen at the start. */
  function Distinct<T(==)>(xs: seq<T>): seq<T>
  {
    DistinctFrom(xs, {})
  }

  /** Reference definition: keep position i exactly when xs[i] does not occur in xs[..i]. */
  function FirstOccurrences<T(==)>(xs: seq<T>): seq<T>
  {
    if xs == [] then []
    else
      var init, last := xs[..|xs| - 1], xs[|xs| - 1];
      FirstOccurrences(init) + (if last in init then [] else [last])
  }

  /** What DistinctFrom passes on: no element twice, none of the seen ones, exactly the
      unseen elements of the input, and never more elements than the input. */
  lemma {:induction false} DistinctFromProperties<T>(xs: seq<T>, seen: set<T>)
    ensures NoDuplicates(DistinctFrom(xs, seen))
    ensures forall x :: x in DistinctFrom(xs, seen) <==> x in xs && x !in seen
    ensures |DistinctFrom(xs, seen)| <= |xs|
    decreases |xs|
  {
    if xs != [] {
      var tail := xs[1..];
      assert forall x :: x in xs <==> x == xs[0] || x in tail by {
        assert xs == [xs[0]] + tail;
      }
      if xs[0] in seen {
        DistinctFromProperties(tail, seen);
      } else {
        DistinctFromProperties(tail, seen + {xs[0]});
        var rest := DistinctFrom(tail, seen + {xs[0]});
        forall i, j | 0 <= i < j < |[xs[0]] + rest|
          ensures ([xs[0]] + rest)[i] != ([xs[0]] + rest)[j]
        {
          if i == 0 {
            assert ([xs[0]] + rest)[j] == rest[j - 1];
          } else {
            assert ([xs[0]] + rest)[i] == rest[i - 1];
            assert ([xs[0]] + rest)[j] == rest[j - 1];
          }
        }
      }
    }
  }

  /** Output elements are exactly the input elements, none twice, and no more of them. */
  lemma DistinctProperties<T>(xs: seq<T>)
    ensures NoDuplicates(Distinct(xs))
    ensures forall x :: x in Distinct(xs) <==> x in xs
    ensures |Distinct(xs)| <= |xs|
  {
    DistinctFromProperties(xs, {});
  }

  /** Running the seen-set filter on a suffix after a prefix `p` adds exactly the first
      occurrences that the suffix contributes. */
  lemma {:induction false} FirstOccurrencesSplit<T>(p: seq<T>, ys: seq<T>)
    ensures FirstOccurrences(p + ys) == FirstOccurrences(p) + DistinctFrom(ys, set x | x in p)
    decreases |ys|
  {
    if ys == [] {
      assert p + ys == p;
    } else {
      var y := ys[0];
      var p' := p + [y];
      assert p + ys == p' + ys[1..];
      FirstOccurrencesSplit(p', ys[1..]);
      assert p'[..|p'| - 1] == p;
      assert (set x | x in p') == (set x | x in p) + {y};
      if y in p {
        assert (set x | x in p) + {y} == (set x | x in p);
      }
    }
  }

  /** distinct() keeps the first occurrence of each element, in input order. */
  lemma DistinctIsFirstOccurrences<T>(xs: seq<T>)
    ensures Distinct(xs) == FirstOccurrences(xs)
  {
    FirstOccurrencesSplit([], xs);
    assert [] + xs == xs;
    assert (set x: T | x in []) == {};
  }

  /** A list without duplicates passes through unchanged, if none of it was seen. */
  lemma {:induction false} DistinctFromUnchanged<T>(xs: seq<T>, seen: set<T>)
    requires NoDuplicates(xs)
    requires forall x :: x in xs ==> x !in seen
    ensures DistinctFrom(xs, seen) == xs
    decreases |xs|
  {
    if xs != [] {
      assert xs[0] !in seen;
      forall x | x in xs[1..] ensures x !in seen + {xs[0]} {
        var k :| 0 <= k < |xs[1..]| && xs[1..][k] == x;
        assert xs[k + 1] == x;
      }
      DistinctFromUnchanged(xs[1..], seen + {xs[0]});
    }
  }

  /** distinct() is idempotent. */
  lemma DistinctIdempotent<T>(xs: seq<T>)
    ensures Distinct(Distinct(xs)) == Distinct(xs)
  {
    DistinctProperties(xs);
    DistinctFromUnchanged(Distinct(xs), {});
  }

  /** The program's Integer list. */
  lemma IntegerExample()
    ensures Distinct([1, 2, 2, 3, 4, 4, 5]) == [1, 2, 3, 4, 5]
  {
  }

  /** The program's String list. */
  lemma StringExample()
    ensures Distinct(["apple", "orange", "apple", "banana"]) == ["apple", "orange", "banana"]
  {
  }
}
