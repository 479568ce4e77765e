/** Sequences without repetitions and the sizes of finite sets. */
module Sequences {

  ghost predicate Distinct<T>(xs: seq<T>) {
    forall i, j | 0 <= i < j < |xs| :: xs[i] != xs[j]
  }

  lemma {:induction false} SizeOfDistinct<T>(keys: seq<T>)
    requires Distinct(keys)
    ensures |set h | h in keys| == |keys|
  {
    if keys != [] {
      var front, last := keys[..|keys| - 1], keys[|keys| - 1];
      SizeOfDistinct(front);
      assert (set h | h in keys) == (set h | h in front) + {last};
      assert last !in front;
    }
  }

  lemma {:induction false} SubsetOfSameSize<T>(small: set<T>, large: set<T>)
    requires small <= large && |small| == |large|
    ensures small == large
  {
    if small != {} {
      var x :| x in small;
      SubsetOfSameSize(small - {x}, large - {x});
    }
  }

  lemma {:induction false} SubsetSize<T>(small: set<T>, large: set<T>)
    requires small <= large
    ensures |small| <= |large|
  {
    if small != {} {
      var x :| x in small;
      SubsetSize(small - {x}, large - {x});
    }
  }
}
