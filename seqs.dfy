/** Sequences in which no element occurs twice. */
module Seqs {

  /** No element of `s` occurs twice. */
  predicate Distinct<T(==)>(s: seq<T>) {
    forall i, j :: 0 <= i < j < |s| ==> s[i] != s[j]
  }

  /** Two sequences concatenate without repetition exactly when neither
      repeats an element and they share none. */
  lemma DistinctAppend<T>(a: seq<T>, b: seq<T>)
    ensures Distinct(a + b) <==> Distinct(a) && Distinct(b) && forall x :: x in a ==> x !in b
  {
    var c := a + b;
    if Distinct(c) {
      forall x | x in a ensures x !in b {
        var i :| 0 <= i < |a| && a[i] == x;
        forall j | 0 <= j < |b| ensures b[j] != x {
          assert c[i] == a[i] && c[|a| + j] == b[j];
        }
      }
      forall i, j | 0 <= i < j < |a| ensures a[i] != a[j] {
        assert c[i] == a[i] && c[j] == a[j];
      }
      forall i, j | 0 <= i < j < |b| ensures b[i] != b[j] {
        assert c[|a| + i] == b[i] && c[|a| + j] == b[j];
      }
    }
    if Distinct(a) && Distinct(b) && forall x :: x in a ==> x !in b {
      forall i, j | 0 <= i < j < |c| ensures c[i] != c[j] {
        if i >= |a| {
          assert c[i] == b[i - |a|] && c[j] == b[j - |a|];
        } else if j >= |a| {
          assert c[i] in a && c[j] in b;
        }
      }
    }
  }
}
