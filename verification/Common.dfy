/** Datatypes shared by the other modules. */
module Common {

  /** A nullable column or an optional argument. */
  datatype Option<+T> = None | Some(value: T)

  /** The outcome of an operation that raises in the source. */
  datatype Result<+T, +E> = Ok(value: T) | Err(error: E)

  predicate Distinct<T(==)>(s: seq<T>) {
    forall i, j :: 0 <= i < j < |s| ==> s[i] != s[j]
  }

  /** A sequence without repetitions is no longer than a set that holds its elements. */
  lemma {:induction false} DistinctFits<T>(s: seq<T>, u: set<T>)
    requires Distinct(s)
    requires forall x :: x in s ==> x in u
    ensures |s| <= |u|
  {
    if s != [] {
      var last := s[|s| - 1];
      var front := s[..|s| - 1];
      forall x | x in front ensures x in u - {last} {
        assert x in s;
      }
      DistinctFits(front, u - {last});
    }
  }

  lemma DistinctElementIsNew<T>(s: seq<T>, n: nat)
    requires n < |s| && Distinct(s)
    ensures s[n] !in s[..n]
  {
  }

  lemma {:induction false} SubsetSize<T>(s: set<T>, t: set<T>)
    requires s <= t
    ensures |s| <= |t|
  {
    if s != {} {
      var x :| x in s;
      SubsetSize(s - {x}, t - {x});
    }
  }
}
