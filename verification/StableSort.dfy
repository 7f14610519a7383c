/** Go's stable sorts (`sort.SliceStable`, and `slices.SortFunc` where ties do not matter) over a comparator that
    answers a negative number, zero or a positive number. */
module StableSort {

  /** What a comparator must satisfy for sorting by it to mean anything. */
  ghost predicate TotalPreorder<T(!new)>(cmp: (T, T) -> int) {
    && (forall x, y :: cmp(x, y) < 0 <==> cmp(y, x) > 0)
    && (forall x, y, z :: cmp(x, y) <= 0 && cmp(y, z) <= 0 ==> cmp(x, z) <= 0)
  }

  ghost predicate Sorted<T>(s: seq<T>, cmp: (T, T) -> int) {
    forall i, j :: 0 <= i < j < |s| ==> cmp(s[i], s[j]) <= 0
  }

  /** The elements of `s` that compare equal to `x`, in the order they are listed. */
  ghost function Class<T>(s: seq<T>, x: T, cmp: (T, T) -> int): seq<T> {
    if s == [] then []
    else (if cmp(x, s[0]) == 0 then [s[0]] else []) + Class(s[1..], x, cmp)
  }

  function Insert<T>(x: T, s: seq<T>, cmp: (T, T) -> int): (r: seq<T>)
    ensures |r| == |s| + 1
  {
    if s == [] || cmp(x, s[0]) <= 0 then [x] + s else [s[0]] + Insert(x, s[1..], cmp)
  }

  function Sort<T>(s: seq<T>, cmp: (T, T) -> int): (r: seq<T>)
    ensures |r| == |s|
  {
    if s == [] then [] else Insert(s[0], Sort(s[1..], cmp), cmp)
  }

  lemma {:induction false} InsertPermutes<T>(x: T, s: seq<T>, cmp: (T, T) -> int)
    ensures multiset(Insert(x, s, cmp)) == multiset{x} + multiset(s)
  {
    if s != [] {
      InsertPermutes(x, s[1..], cmp);
      assert s == [s[0]] + s[1..];
    }
  }

  lemma {:induction false} SortPermutes<T>(s: seq<T>, cmp: (T, T) -> int)
    ensures multiset(Sort(s, cmp)) == multiset(s)
  {
    if s != [] {
      SortPermutes(s[1..], cmp);
      InsertPermutes(s[0], Sort(s[1..], cmp), cmp);
      assert s == [s[0]] + s[1..];
    }
  }

  lemma MultisetMember<T>(s: seq<T>, u: seq<T>)
    requires multiset(s) == multiset(u)
    ensures forall x :: x in s <==> x in u
  {
    forall x ensures x in s <==> x in u {
      assert x in s <==> x in multiset(s);
      assert x in u <==> x in multiset(u);
    }
  }

  lemma SortedCons<T>(x: T, s: seq<T>, cmp: (T, T) -> int)
    requires Sorted(s, cmp) && forall k :: 0 <= k < |s| ==> cmp(x, s[k]) <= 0
    ensures Sorted([x] + s, cmp)
  {
  }

  lemma {:induction false} InsertAbove<T>(y: T, x: T, s: seq<T>, cmp: (T, T) -> int)
    requires cmp(y, x) <= 0 && forall k :: 0 <= k < |s| ==> cmp(y, s[k]) <= 0
    ensures forall k :: 0 <= k <= |s| ==> cmp(y, Insert(x, s, cmp)[k]) <= 0
  {
    if s != [] { InsertAbove(y, x, s[1..], cmp); }
  }

  lemma {:induction false} InsertSorted<T(!new)>(x: T, s: seq<T>, cmp: (T, T) -> int)
    requires TotalPreorder(cmp) && Sorted(s, cmp)
    ensures Sorted(Insert(x, s, cmp), cmp)
  {
    if s == [] || cmp(x, s[0]) <= 0 {
      forall k | 0 <= k < |s| ensures cmp(x, s[k]) <= 0 { assert k == 0 || cmp(s[0], s[k]) <= 0; }
      SortedCons(x, s, cmp);
    } else {
      InsertSorted(x, s[1..], cmp);
      InsertAbove(s[0], x, s[1..], cmp);
      SortedCons(s[0], Insert(x, s[1..], cmp), cmp);
    }
  }

  lemma {:induction false} SortSorted<T(!new)>(s: seq<T>, cmp: (T, T) -> int)
    requires TotalPreorder(cmp)
    ensures Sorted(Sort(s, cmp), cmp)
  {
    if s != [] {
      SortSorted(s[1..], cmp);
      InsertSorted(s[0], Sort(s[1..], cmp), cmp);
    }
  }

  lemma ClassCons<T>(x: T, s: seq<T>, y: T, cmp: (T, T) -> int)
    ensures Class([x] + s, y, cmp) == (if cmp(y, x) == 0 then [x] else []) + Class(s, y, cmp)
  {
    assert ([x] + s)[1..] == s;
  }

  lemma {:induction false} InsertClass<T(!new)>(x: T, s: seq<T>, y: T, cmp: (T, T) -> int)
    requires TotalPreorder(cmp)
    ensures Class(Insert(x, s, cmp), y, cmp) == (if cmp(y, x) == 0 then [x] else []) + Class(s, y, cmp)
  {
    if s == [] || cmp(x, s[0]) <= 0 {
      ClassCons(x, s, y, cmp);
    } else {
      InsertClass(x, s[1..], y, cmp);
      ClassCons(s[0], Insert(x, s[1..], cmp), y, cmp);
      NotBoth(x, s[0], y, cmp);
    }
  }

  lemma NotBoth<T(!new)>(x: T, z: T, y: T, cmp: (T, T) -> int)
    requires TotalPreorder(cmp) && cmp(x, z) > 0
    ensures cmp(y, x) != 0 || cmp(y, z) != 0
  {
    if cmp(y, x) == 0 { assert cmp(x, y) <= 0; }
  }

  /** Sorting keeps the listed order among elements that compare equal. */
  lemma {:induction false} SortStable<T(!new)>(s: seq<T>, y: T, cmp: (T, T) -> int)
    requires TotalPreorder(cmp)
    ensures Class(Sort(s, cmp), y, cmp) == Class(s, y, cmp)
  {
    if s != [] {
      SortStable(s[1..], y, cmp);
      InsertClass(s[0], Sort(s[1..], cmp), y, cmp);
    }
  }

  lemma CountTwice<T>(s: seq<T>, i: nat, j: nat)
    requires i < j < |s| && s[i] == s[j]
    ensures multiset(s)[s[i]] >= 2
  {
    assert s == s[..j] + [s[j]] + s[j + 1..];
    assert s[i] in s[..j];
  }

  lemma {:induction false} CountOnce<T>(s: seq<T>, x: T)
    requires forall i, j :: 0 <= i < j < |s| ==> s[i] != s[j]
    ensures multiset(s)[x] <= 1
  {
    if s != [] {
      CountOnce(s[1..], x);
      assert s == [s[0]] + s[1..];
      forall k | 0 <= k < |s[1..]| ensures s[1..][k] != s[0] { assert s[1..][k] == s[k + 1]; }
    }
  }
}
