/** Small shared definitions: an optional value and distinctness of a sequence. */
module Wrappers {

  datatype Option<+T> = None | Some(value: T)

  /** No element occurs twice in `s`. */
  ghost predicate Distinct<T>(s: seq<T>) {
    forall i, j :: 0 <= i < j < |s| ==> s[i] != s[j]
  }

  /** A sequence without repetitions has as many elements as its set of elements. */
  lemma {:induction false} DistinctCard<T>(s: seq<T>)
    requires Distinct(s)
    ensures |set x | x in s| == |s|
  {
    if s != [] {
      DistinctCard(s[1..]);
      assert (set x | x in s) == {s[0]} + (set x | x in s[1..]);
      assert s[0] !in s[1..];
    }
  }

  /** Each element of a sequence without repetitions occurs in its multiset at most once. */
  lemma {:induction false} DistinctMultiplicity<T>(s: seq<T>, x: T)
    requires Distinct(s)
    ensures multiset(s)[x] <= 1
  {
    if s != [] {
      assert s == [s[0]] + s[1..];
      DistinctMultiplicity(s[1..], x);
      if s[0] == x {
        assert x !in s[1..];
      }
    }
  }

  /** A permutation of a sequence without repetitions has none either. */
  lemma DistinctPermutation<T>(s: seq<T>, s': seq<T>)
    requires Distinct(s) && multiset(s) == multiset(s')
    ensures Distinct(s')
  {
    forall i, j | 0 <= i < j < |s'| ensures s'[i] != s'[j] {
      if s'[i] == s'[j] {
        assert s' == s'[..j] + s'[j..];
        assert s'[i] in multiset(s'[..j]);
        assert s'[j] in multiset(s'[j..]);
        DistinctMultiplicity(s, s'[i]);
        assert false;
      }
    }
  }
}
