/** Splitting a sorted list where its key changes: jq's `group_by` after the sort. */
module Grouping {
  import opened StableSort

  /** One more element: in the last group, or in a group of its own. */
  function Place<T>(gs: seq<seq<T>>, x: T, join: bool): (next: seq<seq<T>>)
    requires join ==> gs != []
    ensures next != []
    ensures (forall i :: 0 <= i < |gs| ==> gs[i] != []) ==> forall i :: 0 <= i < |next| ==> next[i] != []
  {
    if join then gs[..|gs| - 1] + [gs[|gs| - 1] + [x]] else gs + [[x]]
  }

  predicate Joins<T>(p: seq<T>, x: T, cmp: (T, T) -> int) { p != [] && cmp(p[|p| - 1], x) == 0 }

  /** An element joins the last group when it compares equal to the element before it. */
  function Split<T>(s: seq<T>, cmp: (T, T) -> int): (gs: seq<seq<T>>)
    ensures s != [] ==> gs != []
    ensures forall i :: 0 <= i < |gs| ==> gs[i] != []
  {
    if s == [] then []
    else Place(Split(s[..|s| - 1], cmp), s[|s| - 1], Joins(s[..|s| - 1], s[|s| - 1], cmp))
  }

  lemma SplitSnoc<T>(p: seq<T>, x: T, cmp: (T, T) -> int)
    ensures Split(p + [x], cmp) == Place(Split(p, cmp), x, Joins(p, x, cmp))
  {
    assert (p + [x])[..|p|] == p;
  }

  /** `gs` cuts `s` into its classes: every group is a whole class, in the order `s` lists it, the groups ascend, and
      every element is in one. */
  ghost predicate Classes<T>(gs: seq<seq<T>>, s: seq<T>, cmp: (T, T) -> int) {
    && Whole(gs, s, cmp)
    && (forall i, j :: 0 <= i < j < |gs| ==> cmp(gs[i][0], gs[j][0]) < 0)
    && (forall r :: r in s ==> exists i :: 0 <= i < |gs| && r in gs[i])
  }

  ghost predicate Whole<T>(gs: seq<seq<T>>, s: seq<T>, cmp: (T, T) -> int) {
    forall i :: 0 <= i < |gs| ==> gs[i] != [] && gs[i] == Class(s, gs[i][0], cmp)
  }

  lemma {:induction false} ClassAppend<T>(s: seq<T>, x: T, y: T, cmp: (T, T) -> int)
    ensures Class(s + [x], y, cmp) == Class(s, y, cmp) + (if cmp(y, x) == 0 then [x] else [])
  {
    if s == [] {
      assert s + [x] == [x];
    } else {
      ClassAppend(s[1..], x, y, cmp);
      assert (s + [x])[1..] == s[1..] + [x];
    }
  }

  lemma {:induction false} ClassMembers<T>(s: seq<T>, y: T, r: T, cmp: (T, T) -> int)
    ensures r in Class(s, y, cmp) <==> r in s && cmp(y, r) == 0
  {
    if s != [] {
      ClassMembers(s[1..], y, r, cmp);
      assert s == [s[0]] + s[1..];
    }
  }

  lemma {:induction false} ClassEmpty<T>(s: seq<T>, y: T, cmp: (T, T) -> int)
    requires forall i :: 0 <= i < |s| ==> cmp(y, s[i]) != 0
    ensures Class(s, y, cmp) == []
  {
    if s != [] { ClassEmpty(s[1..], y, cmp); }
  }

  /** The class of the last group is the class of the last element. */
  ghost predicate EndsWith<T>(gs: seq<seq<T>>, s: seq<T>, cmp: (T, T) -> int) {
    s != [] ==> gs != [] && gs[|gs| - 1] != [] && cmp(gs[|gs| - 1][0], s[|s| - 1]) == 0
  }

  lemma {:induction false} SplitClasses<T(!new)>(s: seq<T>, cmp: (T, T) -> int)
    requires TotalPreorder(cmp) && Sorted(s, cmp)
    ensures Classes(Split(s, cmp), s, cmp) && EndsWith(Split(s, cmp), s, cmp)
  {
    if s != [] {
      var p, x := s[..|s| - 1], s[|s| - 1];
      assert s == p + [x];
      SortedSnoc(s, cmp);
      hide Classes, EndsWith, Sorted, Split, TotalPreorder;
      SplitClasses(p, cmp);
      SplitStep(p, x, cmp);
    } else {
      NoClasses(s, cmp);
    }
  }

  lemma NoClasses<T>(s: seq<T>, cmp: (T, T) -> int)
    requires s == []
    ensures Classes(Split(s, cmp), s, cmp) && EndsWith(Split(s, cmp), s, cmp)
  {
  }

  lemma SplitStep<T(!new)>(p: seq<T>, x: T, cmp: (T, T) -> int)
    requires TotalPreorder(cmp) && Sorted(p, cmp) && (p != [] ==> cmp(p[|p| - 1], x) <= 0)
    requires Classes(Split(p, cmp), p, cmp) && EndsWith(Split(p, cmp), p, cmp)
    ensures Classes(Split(p + [x], cmp), p + [x], cmp) && EndsWith(Split(p + [x], cmp), p + [x], cmp)
  {
    SplitSnoc(p, x, cmp);
    if Joins(p, x, cmp) { JoinGroup(Split(p, cmp), p, x, cmp); } else { NewGroup(Split(p, cmp), p, x, cmp); }
  }

  lemma SortedSnoc<T>(s: seq<T>, cmp: (T, T) -> int)
    requires Sorted(s, cmp) && s != []
    ensures Sorted(s[..|s| - 1], cmp)
    ensures |s| > 1 ==> cmp(s[..|s| - 1][|s| - 2], s[|s| - 1]) <= 0
  {
  }

  lemma JoinGroup<T(!new)>(gs: seq<seq<T>>, p: seq<T>, x: T, cmp: (T, T) -> int)
    requires TotalPreorder(cmp) && Classes(gs, p, cmp) && EndsWith(gs, p, cmp) && Joins(p, x, cmp)
    ensures var next := gs[..|gs| - 1] + [gs[|gs| - 1] + [x]]; Classes(next, p + [x], cmp) && EndsWith(next, p + [x], cmp)
  {
    JoinWhole(gs, p, x, cmp);
    ChainZero(gs[|gs| - 1][0], p[|p| - 1], x, cmp);
    JoinRest(gs, p, x, cmp);
  }

  lemma ChainZero<T(!new)>(x: T, y: T, z: T, cmp: (T, T) -> int)
    requires TotalPreorder(cmp) && cmp(y, z) == 0
    ensures cmp(x, y) < 0 ==> cmp(x, z) < 0
    ensures cmp(x, y) == 0 ==> cmp(x, z) == 0
  {
    assert cmp(z, y) <= 0;
    if cmp(x, y) <= 0 {
      assert cmp(x, z) <= 0;
      if cmp(z, x) <= 0 { assert cmp(y, x) <= 0; }
    }
  }

  lemma JoinWhole<T(!new)>(gs: seq<seq<T>>, p: seq<T>, x: T, cmp: (T, T) -> int)
    requires TotalPreorder(cmp) && p != [] && Classes(gs, p, cmp) && EndsWith(gs, p, cmp) && cmp(p[|p| - 1], x) == 0
    ensures Whole(gs[..|gs| - 1] + [gs[|gs| - 1] + [x]], p + [x], cmp)
  {
    var n := |gs| - 1;
    var next := gs[..n] + [gs[n] + [x]];
    forall i | 0 <= i < |next| ensures next[i] != [] && next[i] == Class(p + [x], next[i][0], cmp) {
      ClassAppend(p, x, gs[i][0], cmp);
      if i < n { assert cmp(gs[i][0], gs[n][0]) < 0; }
      ChainZero(gs[i][0], p[|p| - 1], x, cmp);
      ChainZero(gs[i][0], gs[n][0], p[|p| - 1], cmp);
    }
  }

  lemma JoinRest<T>(gs: seq<seq<T>>, p: seq<T>, x: T, cmp: (T, T) -> int)
    requires p != [] && Classes(gs, p, cmp) && EndsWith(gs, p, cmp) && cmp(p[|p| - 1], x) == 0
    requires Whole(gs[..|gs| - 1] + [gs[|gs| - 1] + [x]], p + [x], cmp)
    requires cmp(gs[|gs| - 1][0], x) == 0
    ensures var next := gs[..|gs| - 1] + [gs[|gs| - 1] + [x]]; Classes(next, p + [x], cmp) && EndsWith(next, p + [x], cmp)
  {
    var n := |gs| - 1;
    var next := gs[..n] + [gs[n] + [x]];
    forall i | 0 <= i < |next| ensures next[i][0] == gs[i][0] {
      assert gs[i] != [];
    }
    forall r | r in p + [x] ensures exists i :: 0 <= i < |next| && r in next[i] {
      if r in p {
        var i :| 0 <= i < |gs| && r in gs[i];
        assert r in next[i];
      } else {
        assert x in next[n];
      }
    }
  }

  lemma NewGroup<T(!new)>(gs: seq<seq<T>>, p: seq<T>, x: T, cmp: (T, T) -> int)
    requires TotalPreorder(cmp) && Sorted(p, cmp) && Classes(gs, p, cmp)
    requires p != [] ==> cmp(p[|p| - 1], x) < 0
    ensures Classes(gs + [[x]], p + [x], cmp) && EndsWith(gs + [[x]], p + [x], cmp)
  {
    var next := gs + [[x]];
    NewGroupWhole(gs, p, x, cmp);
    forall i, j | 0 <= i < j < |next| ensures cmp(next[i][0], next[j][0]) < 0 {
      if j == |gs| { GroupBelow(gs, p, x, i, cmp); }
    }
    forall r | r in p + [x] ensures exists i :: 0 <= i < |next| && r in next[i] {
      if r in p {
        var i :| 0 <= i < |gs| && r in gs[i];
        assert r in next[i];
      } else {
        assert x in next[|gs|];
      }
    }
    SelfZero(x, cmp);
  }

  lemma NewGroupWhole<T(!new)>(gs: seq<seq<T>>, p: seq<T>, x: T, cmp: (T, T) -> int)
    requires TotalPreorder(cmp) && Sorted(p, cmp) && Classes(gs, p, cmp)
    requires p != [] ==> cmp(p[|p| - 1], x) < 0
    ensures Whole(gs + [[x]], p + [x], cmp)
  {
    var next := gs + [[x]];
    forall i | 0 <= i < |p| ensures cmp(x, p[i]) != 0 { AllBelow(p, x, i, cmp); }
    SelfZero(x, cmp);
    ClassEmpty(p, x, cmp);
    forall i | 0 <= i < |next| ensures next[i] != [] && next[i] == Class(p + [x], next[i][0], cmp) {
      ClassAppend(p, x, next[i][0], cmp);
      if i < |gs| { GroupBelow(gs, p, x, i, cmp); }
    }
  }

  lemma GroupBelow<T(!new)>(gs: seq<seq<T>>, p: seq<T>, x: T, i: nat, cmp: (T, T) -> int)
    requires TotalPreorder(cmp) && Sorted(p, cmp) && Classes(gs, p, cmp) && i < |gs|
    requires p != [] ==> cmp(p[|p| - 1], x) < 0
    ensures gs[i] != [] && cmp(gs[i][0], x) < 0
  {
    GroupMember(gs, p, i, cmp);
    var k :| 0 <= k < |p| && p[k] == gs[i][0];
    AllBelow(p, x, k, cmp);
  }

  lemma SelfZero<T(!new)>(x: T, cmp: (T, T) -> int)
    requires TotalPreorder(cmp)
    ensures cmp(x, x) == 0
  {
  }

  lemma AllBelow<T(!new)>(p: seq<T>, x: T, i: nat, cmp: (T, T) -> int)
    requires TotalPreorder(cmp) && Sorted(p, cmp) && i < |p| && cmp(p[|p| - 1], x) < 0
    ensures cmp(p[i], x) < 0 && cmp(x, p[i]) != 0
  {
    var l := p[|p| - 1];
    SelfZero(l, cmp);
    assert cmp(p[i], l) <= 0;
    assert cmp(p[i], x) <= 0;
    assert cmp(x, p[i]) <= 0 ==> cmp(x, l) <= 0;
  }

  lemma GroupMember<T(!new)>(gs: seq<seq<T>>, s: seq<T>, i: nat, cmp: (T, T) -> int)
    requires TotalPreorder(cmp) && Classes(gs, s, cmp) && i < |gs|
    ensures gs[i] != [] && exists k :: 0 <= k < |s| && s[k] == gs[i][0]
  {
    SelfZero(gs[i][0], cmp);
    assert gs[i][0] in gs[i];
    ClassMembers(s, gs[i][0], gs[i][0], cmp);
  }

  /** A stable sort followed by the split cuts any list into its classes. */
  lemma SortedSplitIsClasses<T(!new)>(list: seq<T>, cmp: (T, T) -> int)
    requires TotalPreorder(cmp)
    ensures Classes(Split(Sort(list, cmp), cmp), list, cmp)
  {
    var s, gs := Sort(list, cmp), Split(Sort(list, cmp), cmp);
    SortSorted(list, cmp);
    SplitClasses(s, cmp);
    SortPermutes(list, cmp);
    MultisetMember(s, list);
    forall i | 0 <= i < |gs| ensures gs[i] != [] && gs[i] == Class(list, gs[i][0], cmp) { SortStable(list, gs[i][0], cmp); }
  }

  ghost predicate StrictlyAscending<T>(s: seq<T>, cmp: (T, T) -> int) {
    forall i, j :: 0 <= i < j < |s| ==> cmp(s[i], s[j]) < 0
  }

  lemma FirstBelow<T(!new)>(s: seq<T>, x: T, cmp: (T, T) -> int)
    requires TotalPreorder(cmp) && StrictlyAscending(s, cmp) && x in s
    ensures x == s[0] || cmp(s[0], x) < 0
  {
    var k :| 0 <= k < |s| && s[k] == x;
  }

  lemma StrictTail<T>(s: seq<T>, cmp: (T, T) -> int)
    requires StrictlyAscending(s, cmp) && s != []
    ensures StrictlyAscending(s[1..], cmp)
  {
  }

  lemma TailMembers<T(!new)>(s: seq<T>, x: T, cmp: (T, T) -> int)
    requires TotalPreorder(cmp) && StrictlyAscending(s, cmp) && s != []
    ensures x in s[1..] <==> x in s && x != s[0]
  {
    AboveFirst(s, cmp);
    assert s == [s[0]] + s[1..];
  }

  lemma AboveFirst<T(!new)>(s: seq<T>, cmp: (T, T) -> int)
    requires TotalPreorder(cmp) && StrictlyAscending(s, cmp) && s != []
    ensures s[0] !in s[1..]
  {
    SelfZero(s[0], cmp);
    forall k | 0 <= k < |s[1..]| ensures s[1..][k] != s[0] { assert cmp(s[0], s[k + 1]) < 0; }
  }

  /** A strictly ascending list is determined by its members. */
  lemma {:induction false} StrictUnique<T(!new)>(a: seq<T>, b: seq<T>, cmp: (T, T) -> int)
    requires TotalPreorder(cmp) && StrictlyAscending(a, cmp) && StrictlyAscending(b, cmp)
    requires forall x :: x in a <==> x in b
    ensures a == b
  {
    assert a != [] ==> a[0] in b;
    assert b != [] ==> b[0] in a;
    if a != [] {
      FirstBelow(a, b[0], cmp);
      FirstBelow(b, a[0], cmp);
      StrictTail(a, cmp);
      StrictTail(b, cmp);
      forall x ensures x in a[1..] <==> x in b[1..] {
        TailMembers(a, x, cmp);
        TailMembers(b, x, cmp);
      }
      StrictUnique(a[1..], b[1..], cmp);
      assert a == [a[0]] + a[1..] && b == [b[0]] + b[1..];
    }
  }
}
