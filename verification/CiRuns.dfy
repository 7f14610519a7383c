/** The check runs of one head: grouped by (name, app id), reduced to the latest of every group, and judged. */
module CiRuns {
  import opened Orders
  import opened JqOrder
  import StableSort
  import opened Grouping

  /** One check run, reduced to what the verdict reads. */
  datatype Run = Run(name: string, status: string, conclusion: Json, appID: Json, id: Json, idNum: real)

  function KeyCmp(a: Run, b: Run): int {
    var c := Compare(a.name, b.name);
    if c != 0 then c else JqCmp(a.appID, b.appID)
  }

  predicate SameKey(a: Run, b: Run) { a.name == b.name && a.appID == b.appID }

  lemma KeyCmpLaws()
    ensures StableSort.TotalPreorder(KeyCmp)
    ensures forall a, b :: KeyCmp(a, b) == 0 <==> SameKey(a, b)
    ensures forall a, b :: KeyCmp(a, b) == -KeyCmp(b, a)
  {
    forall a, b ensures (KeyCmp(a, b) == 0 <==> SameKey(a, b)) && KeyCmp(a, b) == -KeyCmp(b, a) { KeyCmpPair(a, b); }
    forall a, b, c | KeyCmp(a, b) <= 0 && KeyCmp(b, c) <= 0 ensures KeyCmp(a, c) <= 0 { KeyCmpTransitive(a, b, c); }
  }

  lemma KeyCmpPair(a: Run, b: Run)
    ensures KeyCmp(a, b) == 0 <==> SameKey(a, b)
    ensures KeyCmp(a, b) == -KeyCmp(b, a)
  {
    CompareEqual(a.name, b.name);
    CompareAntisymmetric(a.name, b.name);
    JqEqual(a.appID, b.appID);
    JqAntisymmetric(a.appID, b.appID);
  }

  lemma KeyCmpTransitive(a: Run, b: Run, c: Run)
    requires KeyCmp(a, b) <= 0 && KeyCmp(b, c) <= 0
    ensures KeyCmp(a, c) <= 0
  {
    StringsChain(a.name, b.name, c.name);
    if Compare(a.name, b.name) == 0 && Compare(b.name, c.name) == 0 { JqTransitive(a.appID, b.appID, c.appID); }
  }

  // ---- group_by([.name, .app_id]) ----

  function Groups(runs: seq<Run>): seq<seq<Run>> { Split(StableSort.Sort(runs, KeyCmp), KeyCmp) }

  /** The stable sort and adjacent split yield exactly the (name, app id) classes, each in listed order. */
  lemma GroupsAreClasses(runs: seq<Run>)
    ensures Classes(Groups(runs), runs, KeyCmp)
  {
    KeyCmpLaws();
    SortedSplitIsClasses(runs, KeyCmp);
  }

  method CiGroup(runs: seq<Run>) returns (groups: seq<seq<Run>>)
    ensures groups == Groups(runs)
  {
    hide KeyCmp, StableSort.Sort, Split;
    var sorted := StableSort.Sort(runs, KeyCmp);
    SplitNothing();
    groups := [];
    for i := 0 to |sorted|
      invariant groups == Split(sorted[..i], KeyCmp)
    {
      ghost var p := sorted[..i];
      SplitSnoc(p, sorted[i], KeyCmp);
      assert sorted[..i + 1] == p + [sorted[i]];
      if i > 0 && KeyCmp(sorted[i - 1], sorted[i]) == 0 {
        assert Joins(p, sorted[i], KeyCmp);
        groups := groups[..|groups| - 1] + [groups[|groups| - 1] + [sorted[i]]];
      } else {
        groups := groups + [[sorted[i]]];
      }
    }
    assert sorted[..|sorted|] == sorted;
  }

  lemma SplitNothing()
    ensures Split<Run>([], KeyCmp) == []
  {
  }

  // ---- max_by(.id) ----

  /** `r` is the run to keep of `g`: the highest id, and the last listed of those that have it. */
  ghost predicate IsLatest(g: seq<Run>, r: Run) {
    exists k :: 0 <= k < |g| && g[k] == r
             && (forall i :: 0 <= i < |g| ==> g[i].idNum <= r.idNum)
             && (forall i :: k < i < |g| ==> g[i].idNum < r.idNum)
  }

  function Latest(g: seq<Run>): (r: Run)
    requires g != []
    ensures IsLatest(g, r)
  {
    var n := |g| - 1;
    if n == 0 then assert g[0] == g[0]; g[0]
    else
      var l := Latest(g[..n]);
      assert forall i :: 0 <= i < n ==> g[..n][i] == g[i];
      if g[n].idNum >= l.idNum then g[n] else l
  }

  method CiLatest(g: seq<Run>) returns (l: Run)
    requires g != []
    ensures l == Latest(g) && IsLatest(g, l)
  {
    hide IsLatest;
    l := g[0];
    for i := 1 to |g|
      invariant l == Latest(g[..i])
    {
      assert g[..i + 1][..i] == g[..i];
      if g[i].idNum >= l.idNum { l := g[i]; }
    }
    assert g[..|g|] == g;
  }

  // ---- The latest run of every group ----

  function LatestOf(gs: seq<seq<Run>>): seq<Run>
    requires forall i :: 0 <= i < |gs| ==> gs[i] != []
  {
    seq(|gs|, i requires 0 <= i < |gs| => Latest(gs[i]))
  }

  /** No two runs of one class share an id. */
  ghost predicate DistinctIds(runs: seq<Run>) {
    forall i, j :: 0 <= i < j < |runs| && SameKey(runs[i], runs[j]) ==> runs[i].idNum != runs[j].idNum
  }

  /** `r` is listed, and no run of its class has a higher id. */
  ghost predicate Top(runs: seq<Run>, r: Run) {
    r in runs && forall q :: q in runs && SameKey(r, q) ==> q.idNum <= r.idNum
  }

  lemma LatestIsTop(runs: seq<Run>, i: nat)
    requires i < |Groups(runs)|
    ensures var g := Groups(runs)[i]; Top(runs, Latest(g)) && SameKey(g[0], Latest(g))
  {
    GroupsAreClasses(runs);
    var g := Groups(runs)[i];
    var l := Latest(g);
    assert l in g;
    ClassMembers(runs, g[0], l, KeyCmp);
    KeyCmpPair(g[0], l);
    forall q | q in runs && SameKey(l, q) ensures q.idNum <= l.idNum {
      KeyCmpPair(g[0], q);
      ClassMembers(runs, g[0], q, KeyCmp);
    }
  }

  lemma TopIsLatest(runs: seq<Run>, r: Run)
    requires DistinctIds(runs) && Top(runs, r)
    ensures r in LatestOf(Groups(runs))
  {
    GroupsAreClasses(runs);
    var gs := Groups(runs);
    var i :| 0 <= i < |gs| && r in gs[i];
    var l := Latest(gs[i]);
    LatestIsTop(runs, i);
    ClassMembers(runs, gs[i][0], r, KeyCmp);
    KeyCmpPair(gs[i][0], r);
    TopUnique(runs, r, l);
    assert LatestOf(gs)[i] == l;
  }

  lemma TopUnique(runs: seq<Run>, r: Run, l: Run)
    requires DistinctIds(runs) && Top(runs, r) && Top(runs, l) && SameKey(r, l)
    ensures r == l
  {
    var k :| 0 <= k < |runs| && runs[k] == r;
    var m :| 0 <= m < |runs| && runs[m] == l;
  }

  lemma LatestAscending(runs: seq<Run>)
    ensures StrictlyAscending(LatestOf(Groups(runs)), KeyCmp)
  {
    GroupsAreClasses(runs);
    var gs := Groups(runs);
    forall i, j | 0 <= i < j < |gs| ensures KeyCmp(Latest(gs[i]), Latest(gs[j])) < 0 {
      LatestIsTop(runs, i);
      LatestIsTop(runs, j);
      SameKeySameOrder(gs[i][0], Latest(gs[i]), gs[j][0], Latest(gs[j]));
    }
  }

  lemma SameKeySameOrder(a: Run, b: Run, c: Run, d: Run)
    requires SameKey(a, b) && SameKey(c, d)
    ensures KeyCmp(a, c) == KeyCmp(b, d)
  {
  }

  /** The latest list holds exactly the run of highest id of every class ... */
  lemma LatestIsTopOfEveryClass(runs: seq<Run>, r: Run)
    requires DistinctIds(runs)
    ensures r in LatestOf(Groups(runs)) <==> Top(runs, r)
  {
    var gs := Groups(runs);
    if r in LatestOf(gs) {
      var i :| 0 <= i < |gs| && LatestOf(gs)[i] == r;
      LatestIsTop(runs, i);
    }
    if Top(runs, r) { TopIsLatest(runs, r); }
  }

  lemma DistinctIgnoresListing(a: seq<Run>, b: seq<Run>)
    requires multiset(a) == multiset(b) && DistinctIds(a)
    ensures DistinctIds(b)
  {
    StableSort.MultisetMember(a, b);
    forall i, j | 0 <= i < j < |b| && SameKey(b[i], b[j]) ensures b[i].idNum != b[j].idNum {
      assert b[i] in a && b[j] in a;
      var k :| 0 <= k < |a| && a[k] == b[i];
      var m :| 0 <= m < |a| && a[m] == b[j];
      if b[i] == b[j] { StableSort.CountTwice(b, i, j); }
      StableSort.CountOnce(a, b[i]);
    }
  }

  /** ... so it does not depend on the order in which the runs were listed. */
  lemma LatestIgnoresListing(a: seq<Run>, b: seq<Run>)
    requires multiset(a) == multiset(b) && DistinctIds(a)
    ensures LatestOf(Groups(a)) == LatestOf(Groups(b))
  {
    DistinctIgnoresListing(a, b);
    StableSort.MultisetMember(a, b);
    forall r ensures r in LatestOf(Groups(a)) <==> r in LatestOf(Groups(b)) {
      LatestIsTopOfEveryClass(a, r);
      LatestIsTopOfEveryClass(b, r);
    }
    LatestAscending(a);
    LatestAscending(b);
    KeyCmpLaws();
    StrictUnique(LatestOf(Groups(a)), LatestOf(Groups(b)), KeyCmp);
  }

  /** A note: this older cancelled run was superseded by that one. */
  datatype Note = Superseded(cancelled: Run, latest: Run)

  predicate Cancelled(r: Run) { r.status == "completed" && r.conclusion == Str("cancelled") }

  function NotesOf(g: seq<Run>, l: Run): seq<Note> {
    if g == [] then []
    else
      var r := g[|g| - 1];
      NotesOf(g[..|g| - 1], l) + (if Cancelled(r) && r.idNum != l.idNum then [Superseded(r, l)] else [])
  }

  function AllNotes(gs: seq<seq<Run>>): seq<Note>
    requires forall i :: 0 <= i < |gs| ==> gs[i] != []
  {
    if gs == [] then [] else AllNotes(gs[..|gs| - 1]) + NotesOf(gs[|gs| - 1], Latest(gs[|gs| - 1]))
  }

  lemma {:induction false} NotesMembers(g: seq<Run>, l: Run, n: Note)
    ensures n in NotesOf(g, l) <==> n.latest == l && n.cancelled in g && Cancelled(n.cancelled) && n.cancelled.idNum != l.idNum
  {
    if g != [] {
      NotesMembers(g[..|g| - 1], l, n);
      assert g == g[..|g| - 1] + [g[|g| - 1]];
    }
  }

  lemma {:induction false} AllNotesMembers(gs: seq<seq<Run>>, n: Note)
    requires forall i :: 0 <= i < |gs| ==> gs[i] != []
    ensures n in AllNotes(gs) <==> exists i :: 0 <= i < |gs| && n in NotesOf(gs[i], Latest(gs[i]))
  {
    hide NotesOf, Latest;
    if gs != [] {
      var init := gs[..|gs| - 1];
      AllNotesMembers(init, n);
      if i :| 0 <= i < |gs| && n in NotesOf(gs[i], Latest(gs[i])) {
        if i < |init| { assert init[i] == gs[i]; }
      }
      if n in AllNotes(init) {
        var i :| 0 <= i < |init| && n in NotesOf(init[i], Latest(init[i]));
        assert gs[i] == init[i];
      }
    }
  }

  /** The notes name exactly the cancelled runs that are not the latest of their class, each with the one that is. */
  lemma NotesExactly(runs: seq<Run>, r: Run, l: Run)
    ensures Superseded(r, l) in AllNotes(Groups(runs)) <==>
            r in runs && Cancelled(r) && l in LatestOf(Groups(runs)) && SameKey(r, l) && r.idNum != l.idNum
  {
    Start(runs);
    GroupsAreClasses(runs);
    hide NotesOf, Latest, Groups, Classes;
    var gs := Groups(runs);
    AllNotesMembers(gs, Superseded(r, l));
    if i :| 0 <= i < |gs| && Superseded(r, l) in NotesOf(gs[i], Latest(gs[i])) {
      NotesMembers(gs[i], Latest(gs[i]), Superseded(r, l));
      InGroup(runs, i, r);
      LatestIsTop(runs, i);
      assert LatestOf(gs)[i] == l;
    }
    if r in runs && Cancelled(r) && l in LatestOf(gs) && SameKey(r, l) && r.idNum != l.idNum {
      var i :| 0 <= i < |gs| && LatestOf(gs)[i] == l;
      LatestIsTop(runs, i);
      InGroup(runs, i, r);
      NotesMembers(gs[i], l, Superseded(r, l));
    }
  }

  /** Group `i` holds the runs of its class. */
  lemma InGroup(runs: seq<Run>, i: nat, r: Run)
    requires i < |Groups(runs)|
    ensures Groups(runs)[i] != [] && (r in Groups(runs)[i] <==> r in runs && SameKey(Groups(runs)[i][0], r))
  {
    GroupsAreClasses(runs);
    var g := Groups(runs)[i];
    ClassMembers(runs, g[0], r, KeyCmp);
    KeyCmpPair(g[0], r);
  }

  method GroupNotes(g: seq<Run>, l: Run) returns (notes: seq<Note>)
    ensures notes == NotesOf(g, l)
  {
    notes := [];
    for k := 0 to |g|
      invariant notes == NotesOf(g[..k], l)
    {
      assert g[..k + 1][..k] == g[..k];
      if Cancelled(g[k]) && g[k].idNum != l.idNum { notes := notes + [Superseded(g[k], l)]; }
    }
    assert g[..|g|] == g;
  }

  method CiNormalize(runs: seq<Run>) returns (latest: seq<Run>, notes: seq<Note>)
    ensures latest == LatestOf(Groups(runs)) && notes == AllNotes(Groups(runs))
  {
    latest, notes := [], [];
    var gs := CiGroup(runs);
    Start(runs);
    assert gs[..0] == [];
    hide *;
    for i := 0 to |gs|
      invariant forall k :: 0 <= k < |gs| ==> gs[k] != []
      invariant latest == LatestOf(gs[..i]) && notes == AllNotes(gs[..i])
    {
      var l := CiLatest(gs[i]);
      latest := latest + [l];
      var more := GroupNotes(gs[i], l);
      notes := notes + more;
      Snoc(gs, i);
    }
    assert gs[..|gs|] == gs;
  }

  lemma Start(runs: seq<Run>)
    ensures forall k :: 0 <= k < |Groups(runs)| ==> Groups(runs)[k] != []
    ensures LatestOf([]) == [] && AllNotes([]) == []
  {
  }

  lemma Snoc(gs: seq<seq<Run>>, i: nat)
    requires i < |gs| && forall k :: 0 <= k < |gs| ==> gs[k] != []
    ensures LatestOf(gs[..i + 1]) == LatestOf(gs[..i]) + [Latest(gs[i])]
    ensures AllNotes(gs[..i + 1]) == AllNotes(gs[..i]) + NotesOf(gs[i], Latest(gs[i]))
  {
    assert gs[..i + 1][..i] == gs[..i];
  }
}
