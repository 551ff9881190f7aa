/** Lists of distinct elements and their parts. */
module Listing {

  /** Those elements of a list that are in a set. */
  function Among<T(==)>(l: seq<T>, keep: set<T>): seq<T> {
    if l == [] then []
    else Among(l[..|l| - 1], keep) + (if l[|l| - 1] in keep then [l[|l| - 1]] else [])
  }

  lemma AmongStep<T>(l: seq<T>, i: nat, keep: set<T>)
    requires i < |l|
    ensures Among(l[..i + 1], keep) == Among(l[..i], keep) + (if l[i] in keep then [l[i]] else [])
  {
    assert l[..i + 1][..i] == l[..i];
  }

  predicate Distinct<T(==)>(l: seq<T>) {
    forall i, j | 0 <= i < j < |l| :: l[i] != l[j]
  }

  lemma DistinctAppend<T>(l: seq<T>)
    requires l != [] && Distinct(l)
    ensures
      var n := |l| - 1;
      var front := set x | x in l[..n];
      l[n] !in front && (set x | x in l) == front + {l[n]}
  {
    var n := |l| - 1;
    assert l == l[..n] + [l[n]];
  }

  /** A list is one of distinct elements exactly if it holds none of them twice. */
  lemma {:induction false} DistinctIff<T>(l: seq<T>)
    ensures Distinct(l) <==> forall x :: multiset(l)[x] <= 1
  {
    if l != [] {
      var n := |l| - 1;
      DistinctIff(l[..n]);
      assert l == l[..n] + [l[n]];
      if Distinct(l) {
        assert l[n] !in l[..n];
      } else if Distinct(l[..n]) {
        var i :| 0 <= i < n && l[i] == l[n];
        assert l[..n][i] == l[n];
        assert multiset(l)[l[n]] >= 2;
      } else {
        var x :| multiset(l[..n])[x] > 1;
        assert multiset(l)[x] > 1;
      }
    }
  }
}
