/** Statements about every two elements of a list, and why the order of the list does not matter to them. */
module Pairs {
  import opened StableSort

  /** Every two elements, at different places, are related. */
  ghost predicate Pairwise<T>(s: seq<T>, rel: (T, T) -> bool) {
    forall i, j :: 0 <= i < j < |s| ==> rel(s[i], s[j])
  }

  ghost predicate Symmetric<T(!new)>(rel: (T, T) -> bool) { forall x, y :: rel(x, y) ==> rel(y, x) }

  lemma PairwiseSnoc<T>(s: seq<T>, x: T, rel: (T, T) -> bool)
    ensures Pairwise(s + [x], rel) <==> Pairwise(s, rel) && forall i :: 0 <= i < |s| ==> rel(s[i], x)
  {
    var t := s + [x];
    if Pairwise(t, rel) {
      forall i, j | 0 <= i < j < |s| ensures rel(s[i], s[j]) { assert rel(t[i], t[j]); }
      forall i | 0 <= i < |s| ensures rel(s[i], x) { assert rel(t[i], t[|s|]); }
    }
  }

  /** Listing the same elements in another order changes nothing. */
  lemma PairwisePermutes<T(!new)>(s: seq<T>, t: seq<T>, rel: (T, T) -> bool)
    requires Symmetric(rel) && multiset(s) == multiset(t) && Pairwise(s, rel)
    ensures Pairwise(t, rel)
  {
    MultisetMember(s, t);
    forall i, j | 0 <= i < j < |t| ensures rel(t[i], t[j]) {
      if t[i] == t[j] {
        CountTwice(t, i, j);
        Twice(s, t[i], rel);
      } else {
        assert t[i] in s && t[j] in s;
        var p, q :| 0 <= p < |s| && 0 <= q < |s| && s[p] == t[i] && s[q] == t[j];
        if p < q { assert rel(s[p], s[q]); } else { assert rel(s[q], s[p]); }
      }
    }
  }

  /** An element listed twice is related to itself. */
  lemma {:induction false} Twice<T>(s: seq<T>, x: T, rel: (T, T) -> bool)
    requires Pairwise(s, rel) && multiset(s)[x] >= 2
    ensures rel(x, x)
  {
    var r := s[1..];
    assert s == [s[0]] + r;
    if s[0] == x {
      assert x in multiset(r);
      var k :| 0 <= k < |r| && r[k] == x;
      assert rel(s[0], s[k + 1]);
    } else {
      forall i, j | 0 <= i < j < |r| ensures rel(r[i], r[j]) { assert rel(s[i + 1], s[j + 1]); }
      Twice(r, x, rel);
    }
  }
}
