/** The one-pass path conflict check of the STORED extractor, over tables keyed by joined paths. */
module ZipPaths {
  import opened Text
  import opened Pairs

  datatype Kind = File | Directory

  /** An entry's path without the trailing slash, and whether it had one. */
  datatype Item = Item(plain: string, dir: bool)

  function Parts(x: Item): (parts: seq<string>)
    ensures |parts| >= 1
  {
    Split(x.plain, '/')
  }

  predicate Below(a: seq<string>, b: seq<string>) { |a| < |b| && b[..|a|] == a }

  /** Two entries conflict: the same path, or a file where the other needs a directory. */
  predicate Conflict(a: Item, b: Item) {
    a.plain == b.plain || (!a.dir && Below(Parts(a), Parts(b))) || (!b.dir && Below(Parts(b), Parts(a)))
  }

  predicate Compatible(a: Item, b: Item) { !Conflict(a, b) }

  /** The key of the first `j` components. */
  function Key(parts: seq<string>, j: nat): string
    requires j <= |parts|
  {
    Join(parts[..j], '/')
  }

  /** Keys are as good as the components they join. */
  lemma KeyIs(x: Item, j: nat, y: Item)
    requires 1 <= j <= |Parts(x)|
    ensures Key(Parts(x), j) == y.plain <==> Parts(x)[..j] == Parts(y)
  {
    SplitFree(x.plain, '/');
    SplitJoin(Parts(x)[..j], '/');
    JoinSplit(y.plain, '/');
  }

  lemma WholeKey(x: Item)
    ensures Key(Parts(x), |Parts(x)|) == x.plain && Parts(x)[..|Parts(x)|] == Parts(x)
  {
    JoinSplit(x.plain, '/');
    assert Parts(x)[..|Parts(x)|] == Parts(x);
  }

  /** The path `k` is one of the first components of some entry, or all of them. */
  ghost predicate Named(done: seq<Item>, k: string) {
    exists i, j :: 0 <= i < |done| && 1 <= j <= |Parts(done[i])| && k == Key(Parts(done[i]), j)
  }

  ghost predicate IsFile(done: seq<Item>, k: string) {
    exists i :: 0 <= i < |done| && !done[i].dir && done[i].plain == k
  }

  ghost predicate IsDeclared(done: seq<Item>, k: string) {
    exists i :: 0 <= i < |done| && done[i].plain == k
  }

  /** What the tables say about the entries seen so far. */
  ghost predicate Tracks(paths: map<string, Kind>, declared: set<string>, done: seq<Item>) {
    && (forall k :: k in declared <==> IsDeclared(done, k))
    && (forall k :: k in paths <==> Named(done, k))
    && (forall k :: k in paths ==> (paths[k] == File <==> IsFile(done, k)))
  }

  /** One entry against the tables: they report a conflict exactly when it conflicts with an entry seen before, and
      otherwise take it in. */
  method Claim(paths: map<string, Kind>, declared: set<string>, x: Item, ghost done: seq<Item>)
    returns (conflict: bool, paths': map<string, Kind>, declared': set<string>)
    requires Tracks(paths, declared, done)
    ensures conflict <==> exists i :: 0 <= i < |done| && Conflict(done[i], x)
    ensures !conflict ==> Tracks(paths', declared', done + [x])
  {
    var parts := Parts(x);
    conflict := x.plain in declared || (!x.dir && x.plain in paths);
    for j := 0 to |parts| - 1
      invariant conflict <==> Found(done, x, j)
    {
      var k := Key(parts, j + 1);
      FoundStep(done, x, j);
      FileNamed(done, k);
      conflict := conflict || (k in paths && paths[k] == File);
    }
    FoundIsConflict(done, x);
    paths', declared' := paths, declared;
    if conflict { return; }
    for j := 0 to |parts| - 1
      invariant forall k :: k in paths' <==> k in paths || exists i :: 1 <= i <= j && k == Key(parts, i)
      invariant forall k :: k in paths' ==> paths'[k] == if k in paths then paths[k] else Directory
    {
      var k := Key(parts, j + 1);
      if k !in paths' { paths' := paths'[k := Directory]; }
    }
    ghost var implied := paths';
    paths' := paths'[x.plain := if x.dir then Directory else File];
    declared' := declared + {x.plain};
    Taken(paths, declared, done, x, implied, paths', declared');
  }

  /** What the scan has found after looking at `j` ancestors. */
  ghost predicate Found(done: seq<Item>, x: Item, j: nat)
    requires j < |Parts(x)|
  {
    IsDeclared(done, x.plain) || (!x.dir && Named(done, x.plain)) || exists i :: 1 <= i <= j && IsFile(done, Key(Parts(x), i))
  }

  lemma FoundStep(done: seq<Item>, x: Item, j: nat)
    requires j + 1 < |Parts(x)|
    ensures Found(done, x, j + 1) <==> Found(done, x, j) || IsFile(done, Key(Parts(x), j + 1))
  {
    hide Parts, Key, IsFile, Named;
  }

  /** Looking at all ancestors finds exactly the conflicts. */
  lemma FoundIsConflict(done: seq<Item>, x: Item)
    ensures Found(done, x, |Parts(x)| - 1) <==> exists i :: 0 <= i < |done| && Conflict(done[i], x)
  {
    hide Parts;
    if i :| 0 <= i < |done| && Conflict(done[i], x) {
      ConflictFound(done, x, i);
    }
    if Found(done, x, |Parts(x)| - 1) {
      if IsDeclared(done, x.plain) {
        var i :| 0 <= i < |done| && done[i].plain == x.plain;
        assert Conflict(done[i], x);
      } else if !x.dir && Named(done, x.plain) {
        var i, j :| 0 <= i < |done| && 1 <= j <= |Parts(done[i])| && x.plain == Key(Parts(done[i]), j);
        KeyIs(done[i], j, x);
        WholeKey(done[i]);
        assert Conflict(done[i], x);
      } else {
        var j :| 1 <= j <= |Parts(x)| - 1 && IsFile(done, Key(Parts(x), j));
        var i :| 0 <= i < |done| && !done[i].dir && done[i].plain == Key(Parts(x), j);
        KeyIs(x, j, done[i]);
        assert Conflict(done[i], x);
      }
    }
  }

  lemma ConflictFound(done: seq<Item>, x: Item, i: nat)
    requires i < |done| && Conflict(done[i], x)
    ensures Found(done, x, |Parts(x)| - 1)
  {
    hide Parts, Key;
    var y := done[i];
    if y.plain != x.plain {
      if !y.dir && Below(Parts(y), Parts(x)) {
        KeyIs(x, |Parts(y)|, y);
        assert IsFile(done, Key(Parts(x), |Parts(y)|));
      } else {
        KeyIs(y, |Parts(x)|, x);
        assert Named(done, x.plain);
      }
    }
  }

  lemma NamedSnoc(done: seq<Item>, x: Item, k: string)
    ensures Named(done + [x], k) <==> Named(done, k) || exists j :: 1 <= j <= |Parts(x)| && k == Key(Parts(x), j)
  {
    hide Parts, Key;
    var all := done + [x];
    if Named(done, k) {
      var i, j :| 0 <= i < |done| && 1 <= j <= |Parts(done[i])| && k == Key(Parts(done[i]), j);
      assert all[i] == done[i];
    }
    if j :| 1 <= j <= |Parts(x)| && k == Key(Parts(x), j) {
      assert all[|done|] == x;
    }
  }

  lemma FilesSnoc(done: seq<Item>, x: Item, k: string)
    ensures IsFile(done + [x], k) <==> IsFile(done, k) || (!x.dir && x.plain == k)
    ensures IsDeclared(done + [x], k) <==> IsDeclared(done, k) || x.plain == k
  {
    var all := done + [x];
    assert all[|done|] == x;
    forall i | 0 <= i < |done| ensures all[i] == done[i] {}
  }

  /** The updated tables track the longer list. */
  lemma Taken(paths: map<string, Kind>, declared: set<string>, done: seq<Item>, x: Item,
              implied: map<string, Kind>, paths': map<string, Kind>, declared': set<string>)
    requires Tracks(paths, declared, done) && !Found(done, x, |Parts(x)| - 1)
    requires forall k :: k in implied <==> k in paths || exists i :: 1 <= i <= |Parts(x)| - 1 && k == Key(Parts(x), i)
    requires forall k :: k in implied ==> implied[k] == if k in paths then paths[k] else Directory
    requires paths' == implied[x.plain := if x.dir then Directory else File] && declared' == declared + {x.plain}
    ensures Tracks(paths', declared', done + [x])
  {
    hide Parts, Key;
    forall k ensures k in declared' <==> IsDeclared(done + [x], k) { FilesSnoc(done, x, k); }
    forall k ensures k in paths' <==> Named(done + [x], k) {
      NamedSnoc(done, x, k);
      WholeKey(x);
      LastOrBefore(x, k);
    }
    forall k | k in paths' ensures paths'[k] == File <==> IsFile(done + [x], k) {
      FilesSnoc(done, x, k);
      if k !in paths { FileNamed(done, k); }
    }
  }

  lemma LastOrBefore(x: Item, k: string)
    ensures (exists j :: 1 <= j <= |Parts(x)| && k == Key(Parts(x), j))
            <==> k == x.plain || exists j :: 1 <= j <= |Parts(x)| - 1 && k == Key(Parts(x), j)
  {
    WholeKey(x);
    hide Parts, Key;
    if k == x.plain { assert k == Key(Parts(x), |Parts(x)|); }
  }

  lemma FileNamed(done: seq<Item>, k: string)
    ensures IsFile(done, k) ==> Named(done, k)
  {
    if IsFile(done, k) {
      var i :| 0 <= i < |done| && !done[i].dir && done[i].plain == k;
      WholeKey(done[i]);
      assert 0 <= i < |done| && 1 <= |Parts(done[i])| <= |Parts(done[i])| && k == Key(Parts(done[i]), |Parts(done[i])|);
    }
  }

  /** The tables before the first entry. */
  lemma TracksNothing()
    ensures Tracks(map[], {}, [])
  {
  }

  /** The whole list in one pass: it raises a conflict exactly when two of its entries conflict. */
  method AnyConflict(xs: seq<Item>) returns (conflict: bool)
    ensures !conflict <==> Pairwise(xs, Compatible)
  {
    var paths: map<string, Kind>, declared: set<string> := map[], {};
    TracksNothing();
    assert xs[..0] == [];
    for i := 0 to |xs|
      invariant Tracks(paths, declared, xs[..i]) && Pairwise(xs[..i], Compatible)
    {
      hide Conflict, Tracks;
      var bad, paths', declared' := Claim(paths, declared, xs[i], xs[..i]);
      assert xs[..i + 1] == xs[..i] + [xs[i]];
      if bad {
        ConflictSpoils(xs, i);
        return true;
      }
      PairwiseSnoc(xs[..i], xs[i], Compatible);
      paths, declared := paths', declared';
    }
    assert xs[..|xs|] == xs;
    return false;
  }

  lemma ConflictSpoils(xs: seq<Item>, i: nat)
    requires i < |xs| && exists k :: 0 <= k < i && Conflict(xs[..i][k], xs[i])
    ensures !Pairwise(xs, Compatible)
  {
    hide Conflict;
    var k :| 0 <= k < i && Conflict(xs[..i][k], xs[i]);
    assert !Compatible(xs[k], xs[i]);
  }

  /** So the order in which the entries are listed does not matter. */
  lemma OrderIrrelevant(xs: seq<Item>, ys: seq<Item>)
    requires multiset(xs) == multiset(ys)
    ensures Pairwise(xs, Compatible) <==> Pairwise(ys, Compatible)
  {
    assert Symmetric(Compatible);
    if Pairwise(xs, Compatible) { PairwisePermutes(xs, ys, Compatible); }
    if Pairwise(ys, Compatible) { PairwisePermutes(ys, xs, Compatible); }
  }
}
