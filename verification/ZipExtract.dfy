/** Extracting entries into a staging directory: exactly when it works out, and what tree it leaves. */
module ZipExtract {
  import opened Wrappers
  import opened Bytes
  import opened Sequences
  import opened Text
  import opened Pairs
  import opened ZipRead
  import opened ZipMember
  import opened ZipPaths
  import opened ZipStored

  datatype Node = Folder | Regular(content: seq<byte>)

  type Path = seq<string>

  datatype StageError = Exists | NoParent | Missing | NotEmpty | Payload(cause: ReadError)

  /** Everything in a directory tree lies in a directory of the tree (or at its root). */
  ghost predicate Rooted(t: map<Path, Node>) {
    forall p :: p in t ==> p != [] && ParentIn(t, p)
  }

  predicate ParentIn(t: map<Path, Node>, p: Path)
    requires p != []
  {
    |p| == 1 || (p[..|p| - 1] in t && t[p[..|p| - 1]] == Folder)
  }

  lemma RootedAdds(t: map<Path, Node>, p: Path, n: Node)
    requires Rooted(t) && p != [] && ParentIn(t, p) && (p !in t || (n.Regular? && t[p].Regular?))
    ensures Rooted(t[p := n])
  {
    var u := t[p := n];
    forall q | q in u ensures q != [] && ParentIn(u, q) {
      if q != p { assert q in t; }
      assert ParentIn(t, q);
    }
  }

  /** Nothing lies directly in `p`. */
  ghost predicate Bare(t: map<Path, Node>, p: Path) {
    forall q :: q in t && |q| == |p| + 1 ==> q[..|p|] != p
  }

  lemma RootedDrops(t: map<Path, Node>, p: Path)
    requires Rooted(t) && Bare(t, p)
    ensures Rooted(t - {p})
  {
    var u := t - {p};
    forall q | q in u ensures q != [] && ParentIn(u, q) { assert ParentIn(t, q); }
  }

  lemma FileIsBare(t: map<Path, Node>, p: Path)
    requires Rooted(t) && p in t && t[p].Regular?
    ensures Bare(t, p)
  {
    forall q | q in t && |q| == |p| + 1 ensures q[..|p|] != p { assert ParentIn(t, q); }
  }

  /** A staging directory: `Mkdir` refuses an existing path, and files are created exclusively. */
  class Stage {
    var tree: map<Path, Node>

    /** A new directory. */
    constructor ()
      ensures tree == map[]
    {
      tree := map[];
    }

    method Mkdir(rel: string) returns (err: Option<StageError>)
      requires Rooted(tree)
      modifies this
      ensures Rooted(tree)
      ensures var p := Split(rel, '/');
              && err == (if p in old(tree) then Some(Exists) else if !ParentIn(old(tree), p) then Some(NoParent) else None)
              && tree == if err.None? then old(tree)[p := Folder] else old(tree)
    {
      var p := Split(rel, '/');
      if p in tree { return Some(Exists); }
      if !ParentIn(tree, p) { return Some(NoParent); }
      RootedAdds(tree, p, Folder);
      tree := tree[p := Folder];
      return None;
    }

    method Create(rel: string) returns (err: Option<StageError>)
      requires Rooted(tree)
      modifies this
      ensures Rooted(tree)
      ensures var p := Split(rel, '/');
              && err == (if p in old(tree) then Some(Exists) else if !ParentIn(old(tree), p) then Some(NoParent) else None)
              && tree == if err.None? then old(tree)[p := Regular([])] else old(tree)
    {
      var p := Split(rel, '/');
      if p in tree { return Some(Exists); }
      if !ParentIn(tree, p) { return Some(NoParent); }
      RootedAdds(tree, p, Regular([]));
      tree := tree[p := Regular([])];
      return None;
    }

    /** `zipCreate`: a new file with its content. */
    method Write(rel: string, data: seq<byte>) returns (err: Option<StageError>)
      requires Rooted(tree)
      modifies this
      ensures Rooted(tree)
      ensures var p := Split(rel, '/');
              && err == (if p in old(tree) then Some(Exists) else if !ParentIn(old(tree), p) then Some(NoParent) else None)
              && tree == if err.None? then old(tree)[p := Regular(data)] else old(tree)
    {
      err := Create(rel);
      if err.Some? { return; }
      var p := Split(rel, '/');
      RootedAdds(tree, p, Regular(data));
      tree := tree[p := Regular(data)];
    }

    /** `Remove`: a file, or a directory with nothing in it. */
    method Remove(rel: string) returns (err: Option<StageError>)
      requires Rooted(tree)
      modifies this
      ensures Rooted(tree)
      ensures var p := Split(rel, '/');
              && (err.None? <==> p in old(tree) && Bare(old(tree), p))
              && tree == if err.None? then old(tree) - {p} else old(tree)
    {
      var p := Split(rel, '/');
      if p !in tree { return Some(Missing); }
      if exists q :: q in tree && |q| == |p| + 1 && q[..|p|] == p { return Some(NotEmpty); }
      RootedDrops(tree, p);
      tree := tree - {p};
      return None;
    }

    /** Every directory of `parts`, tolerating those that exist: it works out exactly when no file stands in the way, and
        then adds exactly the missing ones. */
    method MkdirChain(parts: Path) returns (err: Option<StageError>)
      requires Rooted(tree) && Free(parts, '/')
      modifies this
      ensures Rooted(tree) && Kept(old(tree), tree)
      ensures err.None? <==> NoFileInWay(old(tree), parts, |parts|)
      ensures err.None? ==> tree == WithChain(old(tree), parts, |parts|)
    {
      hide *;
      ghost var before := tree;
      ChainStart(before, parts);
      for i := 0 to |parts|
        invariant Rooted(tree) && tree == WithChain(before, parts, i) && Kept(before, tree)
        invariant NoFileInWay(before, parts, i)
      {
        ChainNext(before, parts, i);
        var made := Mkdir(Join(parts[..i + 1], '/'));
        if made.Some? && made.value != Exists { return made; }
      }
      return None;
    }
  }

  /** Nothing is lost or changed. */
  ghost predicate Kept(t: map<Path, Node>, u: map<Path, Node>) { forall p :: p in t ==> p in u && u[p] == t[p] }

  /** The tree with the first `i` directories of `parts` added where nothing was. */
  ghost function WithChain(t: map<Path, Node>, parts: Path, i: nat): map<Path, Node>
    requires i <= |parts|
  {
    if i == 0 then t
    else
      var u := WithChain(t, parts, i - 1);
      if parts[..i] in u then u else u[parts[..i] := Folder]
  }

  /** It is the old tree and folders at prefixes of the path. */
  lemma {:induction false} ChainHolds(t: map<Path, Node>, parts: Path, i: nat)
    requires i <= |parts|
    ensures var u := WithChain(t, parts, i);
            && Kept(t, u) && (forall p :: p in u && p !in t ==> u[p] == Folder && 1 <= |p| <= i && p == parts[..|p|])
            && forall j :: 1 <= j <= i ==> parts[..j] in u
  {
    if i > 0 { ChainHolds(t, parts, i - 1); }
  }

  /** No file of the tree is where one of the first `i - 1` directories of `parts` must be. */
  ghost predicate NoFileInWay(t: map<Path, Node>, parts: Path, i: nat)
    requires i <= |parts|
  {
    forall j :: 1 <= j < i && parts[..j] in t ==> t[parts[..j]] == Folder
  }

  lemma ChainStart(t: map<Path, Node>, parts: Path)
    ensures WithChain(t, parts, 0) == t && Kept(t, t) && NoFileInWay(t, parts, 0)
  {
  }

  /** The next directory fails for want of a parent exactly when the path before it is a file. */
  lemma ChainNext(t: map<Path, Node>, parts: Path, i: nat)
    requires i < |parts| && Rooted(t) && NoFileInWay(t, parts, i) && Free(parts, '/')
    ensures var u, p := WithChain(t, parts, i), parts[..i + 1];
            && Split(Join(p, '/'), '/') == p && Kept(t, u)
            && WithChain(t, parts, i + 1) == (if p in u then u else u[p := Folder]) && Kept(t, WithChain(t, parts, i + 1))
            && (p in u || ParentIn(u, p) ==> NoFileInWay(t, parts, i + 1))
            && (p !in u && !ParentIn(u, p) ==> !NoFileInWay(t, parts, |parts|))
  {
    hide *;
    PrefixJoins(parts, i + 1);
    ChainHolds(t, parts, i);
    ChainUnfolds(t, parts, i);
    ChainParent(t, WithChain(t, parts, i), parts, i);
    WayNext(t, parts, i);
  }

  lemma PrefixJoins(parts: Path, i: nat)
    requires 1 <= i <= |parts| && Free(parts, '/')
    ensures Split(Join(parts[..i], '/'), '/') == parts[..i]
  {
    SplitJoin(parts[..i], '/');
  }

  lemma ChainUnfolds(t: map<Path, Node>, parts: Path, i: nat)
    requires i < |parts|
    ensures var u, p := WithChain(t, parts, i), parts[..i + 1];
            WithChain(t, parts, i + 1) == (if p in u then u else u[p := Folder]) && Kept(t, WithChain(t, parts, i + 1))
  {
    ChainHolds(t, parts, i + 1);
  }

  lemma WayNext(t: map<Path, Node>, parts: Path, i: nat)
    requires i < |parts| && NoFileInWay(t, parts, i)
    ensures NoFileInWay(t, parts, i + 1) <==> (1 <= i && parts[..i] in t ==> t[parts[..i]] == Folder)
    ensures !NoFileInWay(t, parts, i + 1) ==> !NoFileInWay(t, parts, |parts|)
  {
  }

  lemma ChainParent(t: map<Path, Node>, u: map<Path, Node>, parts: Path, i: nat)
    requires i < |parts| && Rooted(t) && Kept(t, u) && forall j :: 1 <= j <= i ==> parts[..j] in u
    requires forall p :: p in u && p !in t ==> u[p] == Folder && 1 <= |p| <= i && p == parts[..|p|]
    ensures var p := parts[..i + 1];
            && p != [] && (ParentIn(u, p) <==> (1 <= i && parts[..i] in t ==> t[parts[..i]] == Folder))
            && (p in u ==> ParentIn(u, p))
  {
    var p := parts[..i + 1];
    assert p[..i] == parts[..i];
    assert p in u ==> p in t && ParentIn(t, p);
  }

  // ---- What an entry leaves in the tree ----

  /** An entry as the extraction sees it: its path without trailing slashes, and the bytes of its payload. */
  datatype Output = Output(item: Item, content: seq<byte>)

  function OutputOf(f: seq<byte>, s: Stored): Output {
    Output(Item(TrimRight(s.path, '/'), s.dir),
           if s.local.data + s.entry.uncompressed <= |f| then f[s.local.data..s.local.data + s.entry.uncompressed] else [])
  }

  function Outputs(f: seq<byte>, ss: seq<Stored>): seq<Output> {
    if ss == [] then [] else Outputs(f, ss[..|ss| - 1]) + [OutputOf(f, ss[|ss| - 1])]
  }

  /** How many components of an entry's path are directories. */
  function Upto(o: Output): nat { |Parts(o.item)| - if o.item.dir then 0 else 1 }

  ghost predicate MadeDir(os: seq<Output>, p: Path) {
    exists i :: 0 <= i < |os| && DirOf(os[i], p)
  }

  ghost predicate DirOf(o: Output, p: Path) { 1 <= |p| <= Upto(o) && p == Parts(o.item)[..|p|] }

  ghost predicate MadeFile(os: seq<Output>, p: Path) {
    exists i :: 0 <= i < |os| && FileOf(os[i], p)
  }

  predicate FileOf(o: Output, p: Path) { !o.item.dir && Parts(o.item) == p }

  /** The tree `u` is the tree `t` grown by what the entries call for: every directory on their paths that was missing, and
      their files with their bytes. */
  ghost predicate Grown(t: map<Path, Node>, u: map<Path, Node>, os: seq<Output>) {
    && Kept(t, u)
    && (forall p :: p in u <==> p in t || MadeDir(os, p) || MadeFile(os, p))
    && (forall p :: p in u && p !in t && MadeDir(os, p) ==> u[p] == Folder)
    && (forall i :: 0 <= i < |os| && !os[i].item.dir && Parts(os[i].item) in u ==> u[Parts(os[i].item)] == Regular(os[i].content))
  }

  /** Nothing of the tree is in the entry's way: where it needs a parent directory there is a directory or nothing, and
      where its file goes there is nothing. A directory entry tolerates whatever has its own name. */
  ghost predicate Admits(t: map<Path, Node>, o: Output) {
    NoFileInWay(t, Parts(o.item), |Parts(o.item)|) && (!o.item.dir ==> Parts(o.item) !in t)
  }

  predicate Unrelated(a: Output, b: Output) { !Conflict(a.item, b.item) }

  lemma MadeSnoc(os: seq<Output>, o: Output, p: Path)
    ensures MadeDir(os + [o], p) <==> MadeDir(os, p) || DirOf(o, p)
    ensures MadeFile(os + [o], p) <==> MadeFile(os, p) || FileOf(o, p)
  {
    hide DirOf, FileOf;
    var all := os + [o];
    assert all[|os|] == o;
    forall i | 0 <= i < |os| ensures all[i] == os[i] {}
  }

  lemma SameParts(x: Item, y: Item)
    requires Parts(x) == Parts(y)
    ensures x.plain == y.plain
  {
    JoinSplit(x.plain, '/');
    JoinSplit(y.plain, '/');
  }

  /** Where the next entry needs a directory, the entries before it have left a directory or nothing. */
  lemma DirsFree(t: map<Path, Node>, u: map<Path, Node>, done: seq<Output>, o: Output, p: Path)
    requires Grown(t, u, done) && DirOf(o, p) && p in u && p !in t
    requires forall i :: 0 <= i < |done| ==> Unrelated(done[i], o)
    ensures u[p] == Folder
  {
    hide Parts, Conflict;
    if MadeFile(done, p) {
      var i :| 0 <= i < |done| && FileOf(done[i], p);
      FileOnPath(done[i], o, p);
    }
  }

  lemma FileOnPath(a: Output, o: Output, p: Path)
    requires FileOf(a, p) && DirOf(o, p)
    ensures !Unrelated(a, o)
  {
    if |p| < |Parts(o.item)| {
      assert Below(Parts(a.item), Parts(o.item));
    } else {
      assert p == Parts(o.item);
      SameParts(a.item, o.item);
    }
  }

  /** Where its file goes, they have left what was there. */
  lemma FileFree(t: map<Path, Node>, u: map<Path, Node>, done: seq<Output>, o: Output)
    requires Grown(t, u, done) && !o.item.dir
    requires forall i :: 0 <= i < |done| ==> Unrelated(done[i], o)
    ensures Parts(o.item) in u <==> Parts(o.item) in t
  {
    hide Parts, Conflict;
    var p := Parts(o.item);
    if MadeDir(done, p) {
      var i :| 0 <= i < |done| && DirOf(done[i], p);
      FileOnPath(o, done[i], p);
      Swap(o, done[i]);
    }
    if MadeFile(done, p) {
      var i :| 0 <= i < |done| && FileOf(done[i], p);
      SamePaths(done[i], o);
    }
  }

  lemma Swap(a: Output, b: Output)
    ensures Unrelated(a, b) <==> Unrelated(b, a)
  {
  }

  lemma SamePaths(a: Output, b: Output)
    requires Parts(a.item) == Parts(b.item)
    ensures !Unrelated(a, b)
  {
    SameParts(a.item, b.item);
  }

  /** So the directories of the next entry can be made exactly when the old tree allows it. */
  lemma ChainFree(t: map<Path, Node>, u: map<Path, Node>, done: seq<Output>, o: Output)
    requires Grown(t, u, done) && forall i :: 0 <= i < |done| ==> Unrelated(done[i], o)
    ensures NoFileInWay(u, Parts(o.item)[..Upto(o)], Upto(o)) <==> NoFileInWay(t, Parts(o.item)[..Upto(o)], Upto(o))
  {
    GrownKeeps(t, u, done);
    hide Parts, Grown, Unrelated;
    var parts, n := Parts(o.item)[..Upto(o)], Upto(o);
    if NoFileInWay(t, parts, n) {
      forall j | 1 <= j < n && parts[..j] in u ensures u[parts[..j]] == Folder {
        assert parts[..j] == Parts(o.item)[..j];
        if parts[..j] !in t { DirsFree(t, u, done, o, parts[..j]); }
      }
    }
  }

  lemma GrownKeeps(t: map<Path, Node>, u: map<Path, Node>, os: seq<Output>)
    requires Grown(t, u, os)
    ensures Kept(t, u)
  {
    hide MadeDir, MadeFile, Parts;
  }

  /** Making them adds exactly them. */
  lemma ChainMade(t: map<Path, Node>, u: map<Path, Node>, done: seq<Output>, o: Output, p: Path)
    requires Grown(t, u, done) && forall i :: 0 <= i < |done| ==> Unrelated(done[i], o)
    ensures var v := WithChain(u, Parts(o.item)[..Upto(o)], Upto(o));
            && Kept(u, v) && (p in v <==> p in u || DirOf(o, p)) && (DirOf(o, p) && p !in t ==> v[p] == Folder)
  {
    var parts, n := Parts(o.item)[..Upto(o)], Upto(o);
    var v := WithChain(u, parts, n);
    ChainHolds(u, parts, n);
    hide Parts, Grown, Unrelated, WithChain;
    if DirOf(o, p) {
      assert parts[..|p|] == p && p in v;
      if p in u && p !in t { DirsFree(t, u, done, o, p); }
    }
    assert p in v && p !in u ==> parts[..|p|] == Parts(o.item)[..|p|];
  }

  /** What the next directory leaves, path by path. */
  lemma GrownDirAt(t: map<Path, Node>, u: map<Path, Node>, done: seq<Output>, o: Output, p: Path)
    requires Grown(t, u, done) && o.item.dir && forall i :: 0 <= i < |done| ==> Unrelated(done[i], o)
    ensures var v, all := WithChain(u, Parts(o.item), |Parts(o.item)|), done + [o];
            && (p in t ==> p in v && v[p] == t[p]) && (p in v <==> p in t || MadeDir(all, p) || MadeFile(all, p))
            && (p in v && p !in t && MadeDir(all, p) ==> v[p] == Folder)
  {
    DropAll(Parts(o.item));
    MadeSnoc(done, o, p);
    hide Parts, Unrelated, WithChain, DirOf, MadeDir, MadeFile;
    ChainMade(t, u, done, o, p);
  }

  lemma GrownFiles(t: map<Path, Node>, u: map<Path, Node>, os: seq<Output>)
    requires Grown(t, u, os)
    ensures forall i :: 0 <= i < |os| && !os[i].item.dir ==>
              Parts(os[i].item) in u && u[Parts(os[i].item)] == Regular(os[i].content)
  {
    hide Parts;
    forall i | 0 <= i < |os| && !os[i].item.dir ensures Parts(os[i].item) in u {
      assert FileOf(os[i], Parts(os[i].item));
      assert MadeFile(os, Parts(os[i].item));
    }
  }

  lemma GrownDir(t: map<Path, Node>, u: map<Path, Node>, done: seq<Output>, o: Output)
    requires Grown(t, u, done) && o.item.dir && forall i :: 0 <= i < |done| ==> Unrelated(done[i], o)
    ensures Grown(t, WithChain(u, Parts(o.item), |Parts(o.item)|), done + [o])
  {
    hide Parts, Unrelated, WithChain, DirOf, MadeDir, MadeFile;
    var v, all := WithChain(u, Parts(o.item), |Parts(o.item)|), done + [o];
    GrownFiles(t, u, done);
    ChainHolds(u, Parts(o.item), |Parts(o.item)|);
    FilesStay(u, v, done, o);
    forall p
      ensures p in t ==> p in v && v[p] == t[p]
      ensures p in v <==> p in t || MadeDir(all, p) || MadeFile(all, p)
      ensures p in v && p !in t && MadeDir(all, p) ==> v[p] == Folder
    {
      GrownDirAt(t, u, done, o, p);
    }
  }

  lemma FilesStay(u: map<Path, Node>, v: map<Path, Node>, done: seq<Output>, o: Output)
    requires Kept(u, v)
    requires forall i :: 0 <= i < |done| && !done[i].item.dir ==>
               Parts(done[i].item) in u && u[Parts(done[i].item)] == Regular(done[i].content)
    requires !o.item.dir ==> Parts(o.item) in v && v[Parts(o.item)] == Regular(o.content)
    ensures var all := done + [o];
            forall i :: 0 <= i < |all| && !all[i].item.dir && Parts(all[i].item) in v ==>
              v[Parts(all[i].item)] == Regular(all[i].content)
  {
    hide Parts;
  }

  /** The file of the next entry can be created exactly when the old tree admits it. */
  lemma FileFits(t: map<Path, Node>, u: map<Path, Node>, done: seq<Output>, o: Output)
    requires Grown(t, u, done) && !o.item.dir && Admits(t, o) && forall i :: 0 <= i < |done| ==> Unrelated(done[i], o)
    ensures var v := WithChain(u, Parts(o.item)[..Upto(o)], Upto(o)); Parts(o.item) !in v && ParentIn(v, Parts(o.item))
  {
    var p := Parts(o.item);
    FileFree(t, u, done, o);
    ChainMade(t, u, done, o, p);
    if |p| > 1 {
      var q := p[..|p| - 1];
      ChainMade(t, u, done, o, q);
      assert DirOf(o, q);
      GrownKeeps(t, u, done);
    }
  }

  lemma GrownFileAt(t: map<Path, Node>, u: map<Path, Node>, done: seq<Output>, o: Output, p: Path)
    requires Grown(t, u, done) && !o.item.dir && Admits(t, o) && forall i :: 0 <= i < |done| ==> Unrelated(done[i], o)
    ensures var v := WithChain(u, Parts(o.item)[..Upto(o)], Upto(o))[Parts(o.item) := Regular(o.content)];
            var all := done + [o];
            && (p in t ==> p in v && v[p] == t[p]) && (p in v <==> p in t || MadeDir(all, p) || MadeFile(all, p))
            && (p in v && p !in t && MadeDir(all, p) ==> v[p] == Folder)
  {
    MadeSnoc(done, o, p);
    FileFree(t, u, done, o);
    ChainMade(t, u, done, o, p);
    assert DirOf(o, p) ==> p != Parts(o.item);
    assert FileOf(o, p) <==> p == Parts(o.item);
    hide Parts, Unrelated, WithChain, DirOf, FileOf, MadeDir, MadeFile;
  }

  lemma GrownFile(t: map<Path, Node>, u: map<Path, Node>, done: seq<Output>, o: Output)
    requires Grown(t, u, done) && !o.item.dir && Admits(t, o) && forall i :: 0 <= i < |done| ==> Unrelated(done[i], o)
    ensures Grown(t, WithChain(u, Parts(o.item)[..Upto(o)], Upto(o))[Parts(o.item) := Regular(o.content)], done + [o])
  {
    FileFree(t, u, done, o);
    hide Parts, Unrelated, WithChain, DirOf, MadeDir, MadeFile;
    var v := WithChain(u, Parts(o.item)[..Upto(o)], Upto(o))[Parts(o.item) := Regular(o.content)];
    var all := done + [o];
    GrownFiles(t, u, done);
    ChainHolds(u, Parts(o.item)[..Upto(o)], Upto(o));
    FilesStay(u, v, done, o);
    forall p
      ensures p in t ==> p in v && v[p] == t[p]
      ensures p in v <==> p in t || MadeDir(all, p) || MadeFile(all, p)
      ensures p in v && p !in t && MadeDir(all, p) ==> v[p] == Folder
    {
      GrownFileAt(t, u, done, o, p);
    }
  }

  /** What can be done in a tree that has grown could be done before. */
  lemma AdmitsBefore(t: map<Path, Node>, u: map<Path, Node>, o: Output)
    requires Kept(t, u)
    ensures o.item.dir && NoFileInWay(u, Parts(o.item), |Parts(o.item)|) ==> Admits(t, o)
    ensures !o.item.dir && ParentIn(WithChain(u, Parts(o.item)[..Upto(o)], Upto(o)), Parts(o.item))
            && Parts(o.item) !in WithChain(u, Parts(o.item)[..Upto(o)], Upto(o)) && NoFileInWay(u, Parts(o.item)[..Upto(o)], Upto(o))
            ==> Admits(t, o)
  {
    var parts, n := Parts(o.item), Upto(o);
    ChainHolds(u, parts[..n], n);
    var v := WithChain(u, parts[..n], n);
    hide Parts, WithChain;
    if !o.item.dir && ParentIn(v, parts) && parts !in v && NoFileInWay(u, parts[..n], n) {
      forall j | 1 <= j < |parts| && parts[..j] in t ensures t[parts[..j]] == Folder {
        if j < n { assert parts[..n][..j] == parts[..j]; }
      }
    }
  }

  // ---- Extraction ----

  /** An entry whose payload can be read as it lies in the file. */
  predicate Ready(d: Directory, s: Stored) {
    s.entry.compression == 0 && s.entry.compressed == s.entry.uncompressed && s.local.data + s.entry.compressed <= d.central
  }

  /** The payload has the checksum its record declares. */
  predicate Intact(h: Hash, f: seq<byte>, s: Stored) { s.dir || Checksum(h, OutputOf(f, s).content) == s.entry.crc }

  method ExtractFile(stage: Stage, f: seq<byte>, d: Directory, s: Stored, rel: string, h: Hash,
                     stored: seq<byte> -> Source, inflate: seq<byte> -> Source) returns (err: Option<StageError>)
    requires Rooted(stage.tree) && d.central <= |f| && Ready(d, s) && !s.dir && Section(stored)
    modifies stage
    ensures Rooted(stage.tree) && Kept(old(stage.tree), stage.tree)
    ensures var p := Split(rel, '/');
            && (err.None? <==> p !in old(stage.tree) && ParentIn(old(stage.tree), p) && Intact(h, f, s))
            && (p !in old(stage.tree) && ParentIn(old(stage.tree), p) ==>
                  stage.tree == old(stage.tree)[p := Regular(OutputOf(f, s).content)])
  {
    hide Rooted, ParentIn, Split, Checksum, Verdict, Honest, Section;
    err := stage.Create(rel);
    if err.Some? { return; }
    var m := OpenMember(f, d.central, s.entry, s.local, h, stored, inflate).value;
    StoredVerdict(f, d.central, s.entry, s.local, h, stored, inflate);
    var content, end := CopyAll(m);
    var p := Split(rel, '/');
    RootedAdds(stage.tree, p, Regular(content));
    stage.tree := stage.tree[p := Regular(content)];
    if end != End { return Some(Payload(end)); }
  }

  lemma {:induction false} OutputsAt(f: seq<byte>, ss: seq<Stored>)
    ensures |Outputs(f, ss)| == |ss| && forall i :: 0 <= i < |ss| ==> Outputs(f, ss)[i] == OutputOf(f, ss[i])
  {
    hide OutputOf;
    if ss != [] { OutputsAt(f, ss[..|ss| - 1]); }
  }

  lemma OutputsSnoc(f: seq<byte>, ss: seq<Stored>, i: nat)
    requires i < |ss|
    ensures Outputs(f, ss[..i + 1]) == Outputs(f, ss[..i]) + [OutputOf(f, ss[i])]
  {
    assert ss[..i + 1][..i] == ss[..i];
  }

  /** The old tree admits the entry, and its payload is intact. */
  ghost predicate Extractable(t: map<Path, Node>, h: Hash, f: seq<byte>, s: Stored) {
    Admits(t, OutputOf(f, s)) && Intact(h, f, s)
  }

  /** Every entry in the order of the archive. Unrelated entries are extracted exactly when the tree admits each of them
      and each payload has its checksum; the tree has then grown by exactly what they call for. */
  method ExtractStored(stage: Stage, f: seq<byte>, d: Directory, ss: seq<Stored>, h: Hash,
                       stored: seq<byte> -> Source, inflate: seq<byte> -> Source) returns (err: Option<StageError>)
    requires Rooted(stage.tree) && d.central <= |f| && Section(stored) && forall s :: s in ss ==> Ready(d, s)
    modifies stage
    ensures Rooted(stage.tree) && Kept(old(stage.tree), stage.tree)
    ensures err.None? ==> forall s :: s in ss ==> Extractable(old(stage.tree), h, f, s)
    ensures Pairwise(Outputs(f, ss), Unrelated) ==>
              && (err.None? <==> forall s :: s in ss ==> Extractable(old(stage.tree), h, f, s))
              && (err.None? ==> Grown(old(stage.tree), stage.tree, Outputs(f, ss)))
  {
    hide *;
    ghost var t := stage.tree;
    Nothing(t, f, ss);
    for i := 0 to |ss|
      invariant Rooted(stage.tree) && Kept(t, stage.tree)
      invariant Going(t, stage.tree, f, ss, i)
      invariant forall s :: s in ss[..i] ==> Extractable(t, h, f, s)
    {
      var s := ss[i];
      ghost var u := stage.tree;
      var parts := Split(TrimRight(s.path, '/'), '/');
      OutputIs(f, s);
      OneMore(ss, i);
      if s.dir {
        DirNext(t, u, f, ss, i, h);
        err := stage.MkdirChain(parts);
        KeptTrans(t, u, stage.tree);
        if err.Some? { return; }
        continue;
      }
      FileNext(t, u, f, ss, i, h);
      err := stage.MkdirChain(parts[..|parts| - 1]);
      KeptTrans(t, u, stage.tree);
      if err.Some? { return; }
      ghost var v := stage.tree;
      err := ExtractFile(stage, f, d, s, Join(parts, '/'), h, stored, inflate);
      KeptTrans(t, v, stage.tree);
      if err.Some? { return; }
    }
    DropAll(ss);
    Arrived(t, stage.tree, f, ss);
    return None;
  }

  /** What holds after `i` entries. */
  ghost predicate Going(t: map<Path, Node>, u: map<Path, Node>, f: seq<byte>, ss: seq<Stored>, i: nat)
    requires i <= |ss|
  {
    Pairwise(Outputs(f, ss), Unrelated) ==> Grown(t, u, Outputs(f, ss[..i]))
  }

  lemma Nothing(t: map<Path, Node>, f: seq<byte>, ss: seq<Stored>)
    ensures ss[..0] == [] && Going(t, t, f, ss, 0) && Kept(t, t)
  {
    assert Outputs(f, ss[..0]) == [];
  }

  lemma Arrived(t: map<Path, Node>, u: map<Path, Node>, f: seq<byte>, ss: seq<Stored>)
    requires Going(t, u, f, ss, |ss|)
    ensures Pairwise(Outputs(f, ss), Unrelated) ==> Grown(t, u, Outputs(f, ss))
  {
    hide Grown, Unrelated;
    DropAll(ss);
  }

  lemma KeptTrans(t: map<Path, Node>, u: map<Path, Node>, v: map<Path, Node>)
    requires Kept(t, u) && Kept(u, v)
    ensures Kept(t, v)
  {
  }

  lemma OneMore(ss: seq<Stored>, i: nat)
    requires i < |ss|
    ensures ss[i] in ss && forall s :: s in ss[..i + 1] <==> s in ss[..i] || s == ss[i]
  {
    assert ss[..i + 1] == ss[..i] + [ss[i]];
  }

  lemma OutputIs(f: seq<byte>, s: Stored)
    ensures var o := OutputOf(f, s);
            && Parts(o.item) == Split(TrimRight(s.path, '/'), '/') && o.item.dir == s.dir && Free(Parts(o.item), '/')
            && Split(Join(Parts(o.item), '/'), '/') == Parts(o.item) && Upto(o) == |Parts(o.item)| - if s.dir then 0 else 1
  {
    SplitFree(TrimRight(s.path, '/'), '/');
    SplitJoin(Parts(OutputOf(f, s).item), '/');
  }

  /** The facts of the next entry, when the entries are unrelated. */
  lemma NextFacts(t: map<Path, Node>, u: map<Path, Node>, f: seq<byte>, ss: seq<Stored>, i: nat)
    requires i < |ss| && Pairwise(Outputs(f, ss), Unrelated) && Going(t, u, f, ss, i)
    ensures var done, o := Outputs(f, ss[..i]), OutputOf(f, ss[i]);
            && Grown(t, u, done) && (forall k :: 0 <= k < |done| ==> Unrelated(done[k], o))
            && Outputs(f, ss[..i + 1]) == done + [o]
  {
    hide Grown, Unrelated, OutputOf;
    var all, done, o := Outputs(f, ss), Outputs(f, ss[..i]), OutputOf(f, ss[i]);
    OutputsAt(f, ss);
    OutputsAt(f, ss[..i]);
    OutputsSnoc(f, ss, i);
    forall k | 0 <= k < |done| ensures Unrelated(done[k], o) { assert done[k] == all[k] && o == all[i]; }
  }

  lemma DirNext(t: map<Path, Node>, u: map<Path, Node>, f: seq<byte>, ss: seq<Stored>, i: nat, h: Hash)
    requires i < |ss| && ss[i].dir && Going(t, u, f, ss, i) && Kept(t, u)
    ensures var parts := Parts(OutputOf(f, ss[i]).item);
            && (NoFileInWay(u, parts, |parts|) ==> Extractable(t, h, f, ss[i]))
            && (Pairwise(Outputs(f, ss), Unrelated) && Extractable(t, h, f, ss[i]) ==> NoFileInWay(u, parts, |parts|))
            && Going(t, WithChain(u, parts, |parts|), f, ss, i + 1)
  {
    hide *;
    var o := OutputOf(f, ss[i]);
    DirFacts(t, h, f, ss[i]);
    AdmitsBefore(t, u, o);
    if Pairwise(Outputs(f, ss), Unrelated) {
      NextFacts(t, u, f, ss, i);
      ChainFree(t, u, Outputs(f, ss[..i]), o);
      GrownDir(t, u, Outputs(f, ss[..i]), o);
    }
    Gone(t, WithChain(u, Parts(o.item), |Parts(o.item)|), f, ss, i + 1);
  }

  lemma DirFacts(t: map<Path, Node>, h: Hash, f: seq<byte>, s: Stored)
    requires s.dir
    ensures var o := OutputOf(f, s);
            && o.item.dir && Upto(o) == |Parts(o.item)| && Parts(o.item)[..Upto(o)] == Parts(o.item) && Intact(h, f, s)
            && (Extractable(t, h, f, s) <==> NoFileInWay(t, Parts(o.item), |Parts(o.item)|))
            && (Admits(t, o) <==> NoFileInWay(t, Parts(o.item), |Parts(o.item)|))
  {
    hide NoFileInWay, Parts;
  }

  lemma FileNext(t: map<Path, Node>, u: map<Path, Node>, f: seq<byte>, ss: seq<Stored>, i: nat, h: Hash)
    requires i < |ss| && !ss[i].dir && Going(t, u, f, ss, i) && Kept(t, u)
    ensures var o := OutputOf(f, ss[i]);
            var parts, n := Parts(o.item), |Parts(o.item)| - 1;
            var v := WithChain(u, parts[..n], n);
            && Free(parts[..n], '/') && |parts[..n]| == n
            && (NoFileInWay(u, parts[..n], n) && parts !in v && ParentIn(v, parts) && Intact(h, f, ss[i]) ==> Extractable(t, h, f, ss[i]))
            && (Pairwise(Outputs(f, ss), Unrelated) && Extractable(t, h, f, ss[i]) ==>
                  NoFileInWay(u, parts[..n], n) && parts !in v && ParentIn(v, parts) && Intact(h, f, ss[i]))
            && (Extractable(t, h, f, ss[i]) ==> Going(t, v[parts := Regular(o.content)], f, ss, i + 1))
  {
    hide *;
    var o := OutputOf(f, ss[i]);
    OutputIs(f, ss[i]);
    var n := |Parts(o.item)| - 1;
    FreePrefix(Parts(o.item), n);
    AdmitsBefore(t, u, o);
    ExtractableParts(t, h, f, ss[i]);
    if Extractable(t, h, f, ss[i]) {
      var w := WithChain(u, Parts(o.item)[..n], n)[Parts(o.item) := Regular(o.content)];
      if Pairwise(Outputs(f, ss), Unrelated) {
        NextFacts(t, u, f, ss, i);
        AdmitsChain(t, o);
        ChainFree(t, u, Outputs(f, ss[..i]), o);
        FileFits(t, u, Outputs(f, ss[..i]), o);
        GrownFile(t, u, Outputs(f, ss[..i]), o);
      }
      Gone(t, w, f, ss, i + 1);
    }
  }

  lemma ExtractableParts(t: map<Path, Node>, h: Hash, f: seq<byte>, s: Stored)
    ensures Extractable(t, h, f, s) <==> Admits(t, OutputOf(f, s)) && Intact(h, f, s)
  {
    hide Admits, Intact;
  }

  lemma AdmitsChain(t: map<Path, Node>, o: Output)
    requires Admits(t, o)
    ensures NoFileInWay(t, Parts(o.item)[..Upto(o)], Upto(o))
  {
    var parts, n := Parts(o.item), Upto(o);
    hide Parts;
    forall j | 1 <= j < n && parts[..n][..j] in t ensures t[parts[..n][..j]] == Folder { assert parts[..n][..j] == parts[..j]; }
  }

  lemma FreePrefix(parts: Path, n: nat)
    requires Free(parts, '/') && n <= |parts|
    ensures Free(parts[..n], '/') && |parts[..n]| == n
  {
  }

  lemma Gone(t: map<Path, Node>, u: map<Path, Node>, f: seq<byte>, ss: seq<Stored>, i: nat)
    requires i <= |ss| && (Pairwise(Outputs(f, ss), Unrelated) ==> Grown(t, u, Outputs(f, ss[..i])))
    ensures Going(t, u, f, ss, i)
  {
    hide Grown, Unrelated;
  }

  // ---- What the inspection has already settled ----

  lemma LastPartEmpty(s: string)
    requires s != "" && s[|s| - 1] == '/'
    ensures "" in Split(s, '/')
  {
    var a := s[..|s| - 1];
    assert s == a + (['/'] + []);
    SplitConcat(a, [], '/');
    var parts := Split(s, '/');
    assert parts[|Split(a, '/')|] == [];
  }

  /** Trimming all trailing slashes is trimming the one that marks a directory. */
  lemma TrimIsPlain(name: string, nfc: string -> string)
    requires SafePath(name, nfc)
    ensures TrimRight(name, '/') == Plain(name)
    ensures !IsDir(name) ==> TrimRight(name, '/') == name
  {
    var plain := Plain(name);
    if plain != "" && plain[|plain| - 1] == '/' { LastPartEmpty(plain); }
    assert TrimRight(plain, '/') == plain;
  }

  /** Admitted entries can be read as they lie, and no two of them conflict. */
  lemma AdmittedUnrelated(f: seq<byte>, ns: Names, lim: Limits, d: Directory, ss: seq<Stored>)
    requires Admissible(f, ns, lim, d, ss)
    ensures Pairwise(Outputs(f, ss), Unrelated)
    ensures forall s :: s in ss ==> Ready(d, s) && (!s.dir ==> TrimRight(s.path, '/') == s.path)
  {
    hide *;
    AdmissibleParts(f, ns, lim, d, ss);
    OutputsAt(f, ss);
    ItemsAt(ns, d.records, 0);
    FitsAll(f, ns, lim, d, ss);
    forall i, j | 0 <= i < j < |ss| ensures Unrelated(Outputs(f, ss)[i], Outputs(f, ss)[j]) {
      ItemsAt(ns, d.records, i);
      ItemsAt(ns, d.records, j);
      EntryItem(f, ns, lim, d, i, ss);
      EntryItem(f, ns, lim, d, j, ss);
      NoConflict(Items(ns, d.records), Outputs(f, ss), i, j);
    }
    UnrelatedPairs(Outputs(f, ss));
  }

  lemma UnrelatedPairs(os: seq<Output>)
    requires forall i, j :: 0 <= i < j < |os| ==> Unrelated(os[i], os[j])
    ensures Pairwise(os, Unrelated)
  {
    hide Unrelated;
  }

  lemma NoConflict(xs: seq<Item>, os: seq<Output>, i: nat, j: nat)
    requires i < j < |xs| == |os| && Pairwise(xs, Compatible) && os[i].item == xs[i] && os[j].item == xs[j]
    ensures Unrelated(os[i], os[j])
  {
    hide Conflict;
    assert Compatible(xs[i], xs[j]);
  }

  lemma FitsAll(f: seq<byte>, ns: Names, lim: Limits, d: Directory, ss: seq<Stored>)
    requires AllFit(f, ns, lim, d, d.records, ss)
    ensures |ss| == |d.records| && forall s :: s in ss ==> Ready(d, s) && (!s.dir ==> TrimRight(s.path, '/') == s.path)
  {
    hide LocalAt, SafePath;
    forall s | s in ss ensures Ready(d, s) && (!s.dir ==> TrimRight(s.path, '/') == s.path) {
      var i :| 0 <= i < |ss| && ss[i] == s;
      assert Fits(f, ns, lim, d, d.records[i], ss[i]);
      TrimIsPlain(s.path, ns.nfc);
    }
  }

  lemma EntryItem(f: seq<byte>, ns: Names, lim: Limits, d: Directory, i: nat, ss: seq<Stored>)
    requires AllFit(f, ns, lim, d, d.records, ss) && i < |ss|
    ensures i < |d.records| && OutputOf(f, ss[i]).item == ItemOf(ns, d.records[i])
  {
    hide LocalAt, KindOK;
    assert Fits(f, ns, lim, d, d.records[i], ss[i]);
    TrimIsPlain(ss[i].path, ns.nfc);
  }

  // ---- The run ----

  datatype RunError = Inspection(cause: StoredError) | Extraction(fault: StageError)

  /** An archive the inspection admits, with its directory and its entries. */
  ghost predicate Accepted(f: seq<byte>, ns: Names, lim: Limits, report: seq<Record> -> bool, d: Directory, ss: seq<Stored>) {
    LaidOut(f, Caps(lim.metadata, lim.entries, lim.metadata), report, d) && Admissible(f, ns, lim, d, ss)
  }

  lemma AdmittedOnce(f: seq<byte>, ns: Names, lim: Limits, report: seq<Record> -> bool, d: Directory, ss: seq<Stored>,
                     e: Directory, ts: seq<Stored>)
    requires Accepted(f, ns, lim, report, d, ss) && Accepted(f, ns, lim, report, e, ts)
    ensures d == e && ss == ts
  {
    hide *;
    AdmittedParts(f, ns, lim, report, d, ss);
    AdmittedParts(f, ns, lim, report, e, ts);
    LaidOutUnique(f, Caps(lim.metadata, lim.entries, lim.metadata), report, d, e);
    AdmissibleParts(f, ns, lim, d, ss);
    AdmissibleParts(f, ns, lim, e, ts);
    FitUnique(f, ns, lim, d, ss, ts);
  }

  lemma AdmittedParts(f: seq<byte>, ns: Names, lim: Limits, report: seq<Record> -> bool, d: Directory, ss: seq<Stored>)
    ensures Accepted(f, ns, lim, report, d, ss) <==>
              LaidOut(f, Caps(lim.metadata, lim.entries, lim.metadata), report, d) && Admissible(f, ns, lim, d, ss)
  {
    hide LaidOut, Admissible;
  }

  /** Inspecting the staged archive and extracting it: it succeeds exactly for the archives the inspection admits whose
      entries the stage admits and whose payloads are intact, and the stage then grows by exactly what they call for. */
  method StoredRun(stage: Stage, f: seq<byte>, ns: Names, lim: Limits, report: seq<Record> -> bool, h: Hash,
                   stored: seq<byte> -> Source, inflate: seq<byte> -> Source)
    returns (res: Result<(Directory, seq<Stored>), RunError>)
    requires Rooted(stage.tree) && Section(stored)
    modifies stage
    ensures Rooted(stage.tree) && Kept(old(stage.tree), stage.tree)
    ensures res.Ok? ==>
              && Accepted(f, ns, lim, report, res.value.0, res.value.1)
              && (forall s :: s in res.value.1 ==> Extractable(old(stage.tree), h, f, s))
              && Grown(old(stage.tree), stage.tree, Outputs(f, res.value.1))
    ensures res.Err? ==> forall d, ss :: Accepted(f, ns, lim, report, d, ss) ==>
              exists s :: s in ss && !Extractable(old(stage.tree), h, f, s)
  {
    hide *;
    var inspected := InspectStored(f, ns, lim, report);
    StillKept(stage.tree);
    if inspected.Err? {
      forall d, ss ensures !Accepted(f, ns, lim, report, d, ss) { AdmittedParts(f, ns, lim, report, d, ss); }
      return Err(Inspection(inspected.error));
    }
    var d, ss := inspected.value.0, inspected.value.1;
    AdmittedParts(f, ns, lim, report, d, ss);
    InFile(f, Caps(lim.metadata, lim.entries, lim.metadata), report, d);
    AdmittedUnrelated(f, ns, lim, d, ss);
    var err := ExtractStored(stage, f, d, ss, h, stored, inflate);
    if err.Some? {
      forall e, ts | Accepted(f, ns, lim, report, e, ts) ensures ts == ss { AdmittedOnce(f, ns, lim, report, d, ss, e, ts); }
      return Err(Extraction(err.value));
    }
    return Ok((d, ss));
  }

  lemma StillKept(t: map<Path, Node>)
    ensures Kept(t, t)
  {
  }

  lemma InFile(f: seq<byte>, caps: Caps, report: seq<Record> -> bool, d: Directory)
    requires LaidOut(f, caps, report, d)
    ensures d.central <= |f|
  {
    MetadataIsTail(f, caps, report, d);
  }
}
