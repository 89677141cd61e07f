/** Sequence-to-set facts shared by the pruning proofs. */
module Collections {

  /** The elements of `s`, as a set. */
  ghost function Elems<T>(s: seq<T>): set<T> {
    set x | x in s
  }

  predicate Distinct<T(==)>(s: seq<T>) {
    forall i, j | 0 <= i < j < |s| :: s[i] != s[j]
  }

  lemma ElemsCons<T>(s: seq<T>)
    requires |s| > 0
    ensures Elems(s) == {s[0]} + Elems(s[1..])
  {
  }

  /** A sequence without repetitions has as many elements as its set. */
  lemma {:induction false} DistinctElems<T>(s: seq<T>)
    requires Distinct(s)
    ensures |Elems(s)| == |s|
  {
    if |s| > 0 {
      ElemsCons(s);
      assert Distinct(s[1..]) by {
        forall i, j | 0 <= i < j < |s[1..]| ensures s[1..][i] != s[1..][j] {
          assert s[1..][i] == s[i + 1] && s[1..][j] == s[j + 1];
        }
      }
      DistinctElems(s[1..]);
      assert s[0] !in Elems(s[1..]);
    }
  }

  /** A subset as large as its superset is the superset. */
  lemma SubsetSameSize<T>(a: set<T>, b: set<T>)
    requires a <= b && |a| == |b|
    ensures a == b
  {
    assert |b - a| == |b| - |a|;
  }

  lemma MinusUnion<T>(a: set<T>, x: T, b: set<T>)
    ensures a - ({x} + b) == (a - {x}) - b
  {
  }
}
