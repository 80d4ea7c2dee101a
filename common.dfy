/** Small shared vocabulary: an optional value and two properties of sequences. */
module Common {

  datatype Option<T> = None | Some(value: T)

  /** No element occurs twice. */
  predicate Distinct<T(==)>(s: seq<T>) {
    forall i, j :: 0 <= i < j < |s| ==> s[i] != s[j]
  }

  /** Strictly ascending. */
  predicate Increasing(s: seq<int>) {
    forall i, j :: 0 <= i < j < |s| ==> s[i] < s[j]
  }

  /** A strictly ascending sequence has no duplicates. */
  lemma IncreasingDistinct(s: seq<int>)
    requires Increasing(s)
    ensures Distinct(s)
  {
  }
}
