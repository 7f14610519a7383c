/** The QNX6 directory walk and path resolution, over any image: a possibly cyclic graph of directory inodes. */
module QnxWalk {
  import opened Wrappers
  import opened Orders
  import opened Sequences
  import StableSort
  import Text

  const MAX_DEPTH := 40
  const ROOT: nat := 1

  datatype Error = ParseError | IoError

  datatype Entry = Entry(name: string, ino: nat)

  datatype Node = Node(mode: nat, size: nat)

  /** An image as the walk sees it: what reading an inode and listing a directory answer. */
  datatype Image = Image(inode: nat -> Result<Node, Error>, listdir: nat -> Result<seq<Entry>, Error>)

  datatype WalkEntry = WalkEntry(path: string, mode: nat, size: nat, isDir: bool)

  /** The file type bits of a mode say directory. */
  predicate IsDir(mode: nat) { mode / 0x1000 % 16 == 4 }

  function EntryCmp(a: Entry, b: Entry): int {
    var c := Compare(a.name, b.name);
    if c != 0 then c else Sign(a.ino, b.ino)
  }

  /** What a walk has done so far. `listed` is the order in which directories were read, `bases` under which path. */
  datatype Progress = Progress(visited: set<nat>, truncated: bool, out: seq<WalkEntry>, listed: seq<nat>, bases: seq<string>)

  function Enter(p: Progress, ino: nat, base: string): Progress {
    p.(visited := p.visited + {ino}, listed := p.listed + [ino], bases := p.bases + [base])
  }

  function Emit(p: Progress, path: string, node: Node): Progress {
    p.(out := p.out + [WalkEntry(path, node.mode, node.size, IsDir(node.mode))])
  }

  datatype Outcome = Done(p: Progress) | Failed(p: Progress, e: Error)

  function WalkDir(img: Image, ino: nat, base: string, depth: nat, p: Progress): Outcome
    requires depth <= MAX_DEPTH + 1
    decreases MAX_DEPTH + 1 - depth, 0, 0
  {
    if depth > MAX_DEPTH then Done(p.(truncated := true))
    else if ino in p.visited then Done(p)
    else
      match img.listdir(ino)
      case Err(e) => Failed(p.(visited := p.visited + {ino}), e)
      case Ok(es) => WalkEntries(img, StableSort.Sort(es, EntryCmp), base, depth, Enter(p, ino, base))
  }

  function WalkEntries(img: Image, es: seq<Entry>, base: string, depth: nat, p: Progress): Outcome
    requires depth <= MAX_DEPTH
    decreases MAX_DEPTH - depth, 1, |es|
  {
    if es == [] then Done(p)
    else
      match img.inode(es[0].ino)
      case Err(e) => Failed(p, e)
      case Ok(node) =>
        match WalkEntry1(img, es[0], node, base, depth, p)
        case Failed(q, e) => Failed(q, e)
        case Done(q) => WalkEntries(img, es[1..], base, depth, q)
  }

  /** One entry: emitted, then entered when it is a directory. */
  function WalkEntry1(img: Image, e: Entry, node: Node, base: string, depth: nat, p: Progress): Outcome
    requires depth <= MAX_DEPTH
    decreases MAX_DEPTH - depth, 0, 1
  {
    var path := base + "/" + e.name;
    var emitted := Emit(p, path, node);
    if IsDir(node.mode) then WalkDir(img, e.ino, path, depth + 1, emitted) else Done(emitted)
  }

  const START := Progress({}, false, [], [], [])

  function WalkImage(img: Image): Outcome { WalkDir(img, ROOT, "", 0, START) }

  // ---- Every directory once, and every entry of it ----

  /** The line of an entry of a directory that is listed under the path `base`. */
  function LineOf(img: Image, base: string, e: Entry): WalkEntry {
    match img.inode(e.ino)
    case Ok(node) => WalkEntry(base + "/" + e.name, node.mode, node.size, IsDir(node.mode))
    case Err(_) => WalkEntry(base + "/" + e.name, 0, 0, false)
  }

  function LinesOf(img: Image, base: string, es: seq<Entry>): multiset<WalkEntry> {
    if es == [] then multiset{} else multiset{LineOf(img, base, es[0])} + LinesOf(img, base, es[1..])
  }

  /** The lines of all entries of some directories, each listed under its path. */
  function AllLines(img: Image, dirs: seq<nat>, bases: seq<string>): multiset<WalkEntry>
    requires |dirs| == |bases|
  {
    if dirs == [] then multiset{}
    else
      var n := |dirs| - 1;
      AllLines(img, dirs[..n], bases[..n]) + (match img.listdir(dirs[n]) case Ok(es) => LinesOf(img, bases[n], es) case Err(_) => multiset{})
  }

  ghost predicate Distinct(s: seq<nat>) { forall i, j :: 0 <= i < j < |s| ==> s[i] != s[j] }

  /** The directory can be read, and so can the inode of each of its entries. */
  ghost predicate Readable(img: Image, dir: nat) {
    img.listdir(dir).Ok? && forall e :: e in img.listdir(dir).value ==> img.inode(e.ino).Ok?
  }

  /** The first directory is the root, under the empty path; each later one was an entry of an earlier one, and its path is
      that one's path and the entry's name. */
  ghost predicate Routed(img: Image, dirs: seq<nat>, bases: seq<string>) {
    && |bases| == |dirs|
    && forall i :: 0 <= i < |dirs| ==>
         if i == 0 then dirs[0] == ROOT && bases[0] == "" else RoutedTo(img, dirs[..i], bases[..i], dirs[i], bases[i])
  }

  ghost predicate RoutedTo(img: Image, dirs: seq<nat>, bases: seq<string>, ino: nat, base: string)
    requires |bases| == |dirs|
  {
    exists j, e :: 0 <= j < |dirs| && ListedIn(img, dirs[j], e) && e.ino == ino && base == bases[j] + "/" + e.name
  }

  ghost predicate ListedIn(img: Image, dir: nat, e: Entry) { img.listdir(dir).Ok? && e in img.listdir(dir).value }

  /** Each directory is read at most once, those read are those visited, and the line of every entry of each was emitted,
      save those still `owed` by the directories being walked. */
  ghost predicate Tallied(img: Image, p: Progress, owed: multiset<WalkEntry>) {
    && Distinct(p.listed) && |p.bases| == |p.listed|
    && (forall i :: i in p.listed <==> i in p.visited)
    && multiset(p.out) + owed == AllLines(img, p.listed, p.bases)
  }

  lemma {:induction false} InsertLines(img: Image, base: string, x: Entry, es: seq<Entry>)
    ensures LinesOf(img, base, StableSort.Insert(x, es, EntryCmp)) == multiset{LineOf(img, base, x)} + LinesOf(img, base, es)
  {
    hide LineOf, EntryCmp;
    var r := StableSort.Insert(x, es, EntryCmp);
    if es == [] || EntryCmp(x, es[0]) <= 0 {
      assert r[1..] == es;
    } else {
      InsertLines(img, base, x, es[1..]);
      assert r[1..] == StableSort.Insert(x, es[1..], EntryCmp);
    }
  }

  lemma {:induction false} SortLines(img: Image, base: string, es: seq<Entry>)
    ensures LinesOf(img, base, StableSort.Sort(es, EntryCmp)) == LinesOf(img, base, es)
  {
    if es != [] {
      SortLines(img, base, es[1..]);
      InsertLines(img, base, es[0], StableSort.Sort(es[1..], EntryCmp));
    }
  }

  lemma LinesSnoc(img: Image, dirs: seq<nat>, bases: seq<string>, ino: nat, base: string)
    requires |dirs| == |bases| && img.listdir(ino).Ok?
    ensures AllLines(img, dirs + [ino], bases + [base]) == AllLines(img, dirs, bases) + LinesOf(img, base, img.listdir(ino).value)
  {
    assert (dirs + [ino])[..|dirs|] == dirs && (bases + [base])[..|bases|] == bases;
  }

  lemma {:induction false} WalkDirTallies(img: Image, ino: nat, base: string, depth: nat, p: Progress, owed: multiset<WalkEntry>)
    requires depth <= MAX_DEPTH + 1 && Tallied(img, p, owed)
    requires WalkDir(img, ino, base, depth, p).Done?
    ensures Tallied(img, WalkDir(img, ino, base, depth, p).p, owed)
    decreases MAX_DEPTH + 1 - depth, 0, 0
  {
    if depth <= MAX_DEPTH && ino !in p.visited {
      var es := img.listdir(ino).value;
      LinesSnoc(img, p.listed, p.bases, ino, base);
      SortLines(img, base, es);
      EnterTallied(img, p, ino, base, owed);
      WalkEntriesTallies(img, StableSort.Sort(es, EntryCmp), base, depth, Enter(p, ino, base), owed);
    }
  }

  lemma EnterTallied(img: Image, p: Progress, ino: nat, base: string, owed: multiset<WalkEntry>)
    requires Tallied(img, p, owed) && ino !in p.visited && img.listdir(ino).Ok?
    ensures Tallied(img, Enter(p, ino, base), LinesOf(img, base, img.listdir(ino).value) + owed)
  {
    LinesSnoc(img, p.listed, p.bases, ino, base);
    hide AllLines, LinesOf;
  }

  lemma {:induction false} WalkEntriesTallies(img: Image, es: seq<Entry>, base: string, depth: nat, p: Progress, owed: multiset<WalkEntry>)
    requires depth <= MAX_DEPTH && Tallied(img, p, LinesOf(img, base, es) + owed)
    requires WalkEntries(img, es, base, depth, p).Done?
    ensures Tallied(img, WalkEntries(img, es, base, depth, p).p, owed)
    decreases MAX_DEPTH - depth, 1, |es|
  {
    if es != [] {
      var node := img.inode(es[0].ino).value;
      var path := base + "/" + es[0].name;
      var emitted := Emit(p, path, node);
      var rest := LinesOf(img, base, es[1..]) + owed;
      EmitTallied(img, p, LineOf(img, base, es[0]), rest);
      if IsDir(node.mode) { WalkDirTallies(img, es[0].ino, path, depth + 1, emitted, rest); }
      WalkEntriesTallies(img, es[1..], base, depth, WalkEntry1(img, es[0], node, base, depth, p).p, owed);
    }
  }

  lemma EmitTallied(img: Image, p: Progress, l: WalkEntry, owed: multiset<WalkEntry>)
    ensures Tallied(img, p, multiset{l} + owed) ==> Tallied(img, p.(out := p.out + [l]), owed)
  {
    hide AllLines, Distinct;
  }

  /** A completed walk has read every inode it lists. */
  lemma {:induction false} WalkDirReads(img: Image, ino: nat, base: string, depth: nat, p: Progress)
    requires depth <= MAX_DEPTH + 1 && WalkDir(img, ino, base, depth, p).Done?
    ensures forall d :: d in WalkDir(img, ino, base, depth, p).p.listed && d !in p.listed ==> Readable(img, d)
    decreases MAX_DEPTH + 1 - depth, 0, 0
  {
    if depth <= MAX_DEPTH && ino !in p.visited {
      var es := img.listdir(ino).value;
      var sorted := StableSort.Sort(es, EntryCmp);
      StableSort.SortPermutes(es, EntryCmp);
      StableSort.MultisetMember(sorted, es);
      WalkEntriesReads(img, sorted, base, depth, Enter(p, ino, base));
    }
  }

  lemma {:induction false} WalkEntriesReads(img: Image, es: seq<Entry>, base: string, depth: nat, p: Progress)
    requires depth <= MAX_DEPTH && WalkEntries(img, es, base, depth, p).Done?
    ensures forall e :: e in es ==> img.inode(e.ino).Ok?
    ensures forall d :: d in WalkEntries(img, es, base, depth, p).p.listed && d !in p.listed ==> Readable(img, d)
    decreases MAX_DEPTH - depth, 1, |es|
  {
    if es != [] {
      var node := img.inode(es[0].ino).value;
      var path := base + "/" + es[0].name;
      var emitted := Emit(p, path, node);
      if IsDir(node.mode) { WalkDirReads(img, es[0].ino, path, depth + 1, emitted); }
      WalkEntriesReads(img, es[1..], base, depth, WalkEntry1(img, es[0], node, base, depth, p).p);
      assert es == [es[0]] + es[1..];
    }
  }

  /** The walk goes from directory to directory by their entries, and only adds to what it has listed. */
  lemma {:induction false} WalkDirRoutes(img: Image, ino: nat, base: string, depth: nat, p: Progress)
    requires depth <= MAX_DEPTH + 1 && Routed(img, p.listed, p.bases)
    requires if p.listed == [] then ino == ROOT && base == "" else RoutedTo(img, p.listed, p.bases, ino, base)
    ensures var q := WalkDir(img, ino, base, depth, p).p;
            Routed(img, q.listed, q.bases) && p.listed <= q.listed && p.bases <= q.bases
    decreases MAX_DEPTH + 1 - depth, 0, 0
  {
    if depth <= MAX_DEPTH && ino !in p.visited && img.listdir(ino).Ok? {
      var es := img.listdir(ino).value;
      var sorted := StableSort.Sort(es, EntryCmp);
      StableSort.SortPermutes(es, EntryCmp);
      StableSort.MultisetMember(sorted, es);
      RoutedSnoc(img, p.listed, p.bases, ino, base);
      WalkEntriesRoutes(img, ino, |p.listed|, sorted, base, depth, Enter(p, ino, base));
    }
  }

  lemma RoutedSnoc(img: Image, dirs: seq<nat>, bases: seq<string>, ino: nat, base: string)
    requires Routed(img, dirs, bases) && if dirs == [] then ino == ROOT && base == "" else RoutedTo(img, dirs, bases, ino, base)
    ensures Routed(img, dirs + [ino], bases + [base])
  {
    hide RoutedTo;
    var ds, bs := dirs + [ino], bases + [base];
    forall i | 0 <= i < |dirs| ensures ds[..i] == dirs[..i] && bs[..i] == bases[..i] {}
    assert ds[..|dirs|] == dirs && bs[..|dirs|] == bases;
  }

  lemma {:induction false} WalkEntriesRoutes(img: Image, dir: nat, j: nat, es: seq<Entry>, base: string, depth: nat, p: Progress)
    requires depth <= MAX_DEPTH && Routed(img, p.listed, p.bases)
    requires j < |p.listed| && p.listed[j] == dir && p.bases[j] == base && forall e :: e in es ==> ListedIn(img, dir, e)
    ensures var q := WalkEntries(img, es, base, depth, p).p;
            Routed(img, q.listed, q.bases) && p.listed <= q.listed && p.bases <= q.bases
    decreases MAX_DEPTH - depth, 1, |es|
  {
    hide Routed, ListedIn;
    assert |p.bases| == |p.listed| by { SameLength(img, p.listed, p.bases); }
    if es != [] && img.inode(es[0].ino).Ok? {
      var node := img.inode(es[0].ino).value;
      var path := base + "/" + es[0].name;
      var emitted := Emit(p, path, node);
      assert es[0] in es;
      assert RoutedTo(img, p.listed, p.bases, es[0].ino, path);
      if IsDir(node.mode) { WalkDirRoutes(img, es[0].ino, path, depth + 1, emitted); }
      var r := WalkEntry1(img, es[0], node, base, depth, p);
      SameLength(img, r.p.listed, r.p.bases);
      if r.Done? { WalkEntriesRoutes(img, dir, j, es[1..], base, depth, r.p); }
    }
  }

  lemma SameLength(img: Image, dirs: seq<nat>, bases: seq<string>)
    ensures Routed(img, dirs, bases) ==> |bases| == |dirs|
  {
    hide RoutedTo;
  }

  /** What a completed walk has listed: each directory once, reached by entries from the root and read in full. */
  ghost predicate ListedOnce(img: Image, out: seq<WalkEntry>, dirs: seq<nat>, bases: seq<string>) {
    && Distinct(dirs) && Routed(img, dirs, bases) && (forall d :: d in dirs ==> Readable(img, d))
    && multiset(out) == AllLines(img, dirs, bases)
  }

  /** A completed walk reads every visited directory exactly once and emits exactly the lines of their entries, cycles or
      not. */
  lemma WalkListsOnce(img: Image)
    requires WalkImage(img).Done?
    ensures var p := WalkImage(img).p;
            ListedOnce(img, p.out, p.listed, p.bases) && forall i :: i in p.listed <==> i in p.visited
  {
    WalkDirTallies(img, ROOT, "", 0, START, multiset{});
    WalkDirReads(img, ROOT, "", 0, START);
    WalkDirRoutes(img, ROOT, "", 0, START);
  }

  // ---- Exactly the reachable directories ----

  /** `b` is listed in directory `a` and is itself a directory. */
  ghost predicate Edge(img: Image, a: nat, b: nat) {
    && img.listdir(a).Ok? && (exists e :: e in img.listdir(a).value && e.ino == b)
    && img.inode(b).Ok? && IsDir(img.inode(b).value.mode)
  }

  ghost predicate Chain(img: Image, c: seq<nat>) {
    c != [] && forall i, j :: 0 <= i && j == i + 1 < |c| ==> Edge(img, c[i], c[j])
  }

  ghost predicate Reachable(img: Image, a: nat, b: nat) {
    exists c :: Chain(img, c) && c[0] == a && c[|c| - 1] == b
  }

  lemma ReachSelf(img: Image, a: nat)
    ensures Reachable(img, a, a)
  {
    assert Chain(img, [a]);
  }

  lemma ReachStep(img: Image, a: nat, b: nat, c: nat)
    requires Reachable(img, a, b) && Edge(img, b, c)
    ensures Reachable(img, a, c)
  {
    var p :| Chain(img, p) && p[0] == a && p[|p| - 1] == b;
    var q := p + [c];
    forall i, j | 0 <= i && j == i + 1 < |q| ensures Edge(img, q[i], q[j]) { assert j < |p| ==> Edge(img, p[i], p[j]); }
    assert Chain(img, q);
  }

  /** Every directory among `es`, and every one listed in a directory of `dirs`, has been visited. */
  ghost predicate Closed(img: Image, dirs: set<nat>, visited: set<nat>) {
    forall a, b :: a in dirs && Edge(img, a, b) ==> b in visited
  }

  /** A walk only adds: to the visited set, and to the truncation mark. */
  ghost predicate Grows(p: Progress, q: Progress) { p.visited <= q.visited && (p.truncated ==> q.truncated) }

  lemma {:induction false} WalkDirGrows(img: Image, ino: nat, base: string, depth: nat, p: Progress)
    requires depth <= MAX_DEPTH + 1
    ensures Grows(p, WalkDir(img, ino, base, depth, p).p)
    decreases MAX_DEPTH + 1 - depth, 0, 0
  {
    if depth <= MAX_DEPTH && ino !in p.visited && img.listdir(ino).Ok? {
      var q := Enter(p, ino, base);
      WalkEntriesGrows(img, StableSort.Sort(img.listdir(ino).value, EntryCmp), base, depth, q);
    }
  }

  lemma {:induction false} WalkEntriesGrows(img: Image, es: seq<Entry>, base: string, depth: nat, p: Progress)
    requires depth <= MAX_DEPTH
    ensures Grows(p, WalkEntries(img, es, base, depth, p).p)
    decreases MAX_DEPTH - depth, 1, |es|
  {
    if es != [] && img.inode(es[0].ino).Ok? {
      var node := img.inode(es[0].ino).value;
      WalkEntry1Grows(img, es[0], node, base, depth, p);
      var r := WalkEntry1(img, es[0], node, base, depth, p);
      if r.Done? { WalkEntriesGrows(img, es[1..], base, depth, r.p); }
    }
  }

  lemma WalkEntry1Grows(img: Image, e: Entry, node: Node, base: string, depth: nat, p: Progress)
    requires depth <= MAX_DEPTH
    ensures Grows(p, WalkEntry1(img, e, node, base, depth, p).p)
    decreases MAX_DEPTH - depth, 0, 1
  {
    var path := base + "/" + e.name;
    WalkDirGrows(img, e.ino, path, depth + 1, Emit(p, path, node));
  }

  /** What an untruncated walk of one directory leaves behind: it is visited, and so is everything listed in it or in
      any directory newly visited on the way. */
  lemma {:induction false} WalkDirCloses(img: Image, ino: nat, base: string, depth: nat, p: Progress)
    requires depth <= MAX_DEPTH + 1
    requires var r := WalkDir(img, ino, base, depth, p); r.Done? && !r.p.truncated
    ensures var q := WalkDir(img, ino, base, depth, p).p;
            ino in q.visited && Closed(img, q.visited - p.visited, q.visited)
    decreases MAX_DEPTH + 1 - depth, 0, 0
  {
    if ino !in p.visited {
      var es := img.listdir(ino).value;
      var sorted := StableSort.Sort(es, EntryCmp);
      var q := Enter(p, ino, base);
      WalkEntriesCloses(img, sorted, base, depth, q);
      WalkEntriesGrows(img, sorted, base, depth, q);
      StableSort.SortPermutes(es, EntryCmp);
      StableSort.MultisetMember(sorted, es);
      var r := WalkEntries(img, sorted, base, depth, q).p;
      forall a, b | a in r.visited - p.visited && Edge(img, a, b) ensures b in r.visited {
        if a == ino {
          var e :| e in es && e.ino == b;
          assert e in sorted;
        }
      }
    }
  }

  lemma {:induction false} WalkEntriesCloses(img: Image, es: seq<Entry>, base: string, depth: nat, p: Progress)
    requires depth <= MAX_DEPTH
    requires var r := WalkEntries(img, es, base, depth, p); r.Done? && !r.p.truncated
    ensures var q := WalkEntries(img, es, base, depth, p).p;
            && Closed(img, q.visited - p.visited, q.visited)
            && forall e :: e in es && img.inode(e.ino).Ok? && IsDir(img.inode(e.ino).value.mode) ==> e.ino in q.visited
    decreases MAX_DEPTH - depth, 1, |es|
  {
    if es != [] {
      var node := img.inode(es[0].ino).value;
      var path := base + "/" + es[0].name;
      var m := WalkEntry1(img, es[0], node, base, depth, p).p;
      WalkEntriesGrows(img, es[1..], base, depth, m);
      if IsDir(node.mode) {
        WalkDirCloses(img, es[0].ino, path, depth + 1, Emit(p, path, node));
      }
      WalkEntriesCloses(img, es[1..], base, depth, m);
      WalkEntry1Grows(img, es[0], node, base, depth, p);
    }
  }

  /** Nothing unreachable is ever visited, completed walk or not. */
  lemma {:induction false} WalkDirStaysIn(img: Image, ino: nat, base: string, depth: nat, p: Progress)
    requires depth <= MAX_DEPTH + 1 && Reachable(img, ROOT, ino)
    requires forall i :: i in p.visited ==> Reachable(img, ROOT, i)
    ensures forall i :: i in WalkDir(img, ino, base, depth, p).p.visited ==> Reachable(img, ROOT, i)
    decreases MAX_DEPTH + 1 - depth, 0, 0
  {
    if depth <= MAX_DEPTH && ino !in p.visited && img.listdir(ino).Ok? {
      var es := img.listdir(ino).value;
      var sorted := StableSort.Sort(es, EntryCmp);
      StableSort.SortPermutes(es, EntryCmp);
      StableSort.MultisetMember(sorted, es);
      WalkEntriesStaysIn(img, ino, sorted, base, depth, Enter(p, ino, base));
    }
  }

  lemma {:induction false} WalkEntriesStaysIn(img: Image, dir: nat, es: seq<Entry>, base: string, depth: nat, p: Progress)
    requires depth <= MAX_DEPTH && Reachable(img, ROOT, dir)
    requires img.listdir(dir).Ok? && forall e :: e in es ==> e in img.listdir(dir).value
    requires forall i :: i in p.visited ==> Reachable(img, ROOT, i)
    ensures forall i :: i in WalkEntries(img, es, base, depth, p).p.visited ==> Reachable(img, ROOT, i)
    decreases MAX_DEPTH - depth, 1, |es|
  {
    if es != [] && img.inode(es[0].ino).Ok? {
      var node := img.inode(es[0].ino).value;
      var path := base + "/" + es[0].name;
      assert es[0] in es;
      if IsDir(node.mode) {
        ReachStep(img, ROOT, dir, es[0].ino);
        WalkDirStaysIn(img, es[0].ino, path, depth + 1, Emit(p, path, node));
      }
      var r := WalkEntry1(img, es[0], node, base, depth, p);
      if r.Done? { WalkEntriesStaysIn(img, dir, es[1..], base, depth, r.p); }
    }
  }

  lemma {:induction false} ClosedHoldsReachable(img: Image, c: seq<nat>, visited: set<nat>)
    requires Chain(img, c) && c[0] in visited && Closed(img, visited, visited)
    ensures c[|c| - 1] in visited
  {
    if |c| > 1 {
      var d := c[1..];
      assert Edge(img, c[0], c[1]);
      forall i, j | 0 <= i && j == i + 1 < |d| ensures Edge(img, d[i], d[j]) { assert d[i] == c[i + 1] && d[j] == c[j + 1]; }
      ClosedHoldsReachable(img, d, visited);
    }
  }

  /** A completed walk that the depth cap never cut visits exactly the directories reachable from the root. */
  lemma WalkVisitsReachable(img: Image)
    requires WalkImage(img).Done? && !WalkImage(img).p.truncated
    ensures forall i :: i in WalkImage(img).p.visited <==> Reachable(img, ROOT, i)
  {
    var v := WalkImage(img).p.visited;
    ReachSelf(img, ROOT);
    WalkDirStaysIn(img, ROOT, "", 0, START);
    WalkDirCloses(img, ROOT, "", 0, START);
    assert v - {} == v;
    forall i | Reachable(img, ROOT, i) ensures i in v {
      var c :| Chain(img, c) && c[0] == ROOT && c[|c| - 1] == i;
      ClosedHoldsReachable(img, c, v);
    }
  }

  // ---- In which order ----

  /** Entries are walked by name, and by inode number where names repeat. */
  lemma EntriesAscend(es: seq<Entry>)
    ensures var s := StableSort.Sort(es, EntryCmp);
            && multiset(s) == multiset(es)
            && forall i, j :: 0 <= i < j < |s| ==>
                 Lexicographic(s[i].name, s[j].name, CharBelow) || (s[i].name == s[j].name && s[i].ino <= s[j].ino)
  {
    var s := StableSort.Sort(es, EntryCmp);
    StableSort.SortPermutes(es, EntryCmp);
    EntryCmpLaws();
    StableSort.SortSorted(es, EntryCmp);
    hide Lexicographic, StableSort.Sort;
    forall i, j | 0 <= i < j < |s|
      ensures Lexicographic(s[i].name, s[j].name, CharBelow) || (s[i].name == s[j].name && s[i].ino <= s[j].ino)
    {
      assert EntryCmp(s[i], s[j]) <= 0;
      CompareIsLexicographic(s[i].name, s[j].name);
      CompareEqual(s[i].name, s[j].name);
    }
  }

  lemma EntryCmpLaws()
    ensures StableSort.TotalPreorder(EntryCmp)
  {
    forall a, b ensures EntryCmp(a, b) < 0 <==> EntryCmp(b, a) > 0 {
      CompareAntisymmetric(a.name, b.name);
    }
    forall a, b, c | EntryCmp(a, b) <= 0 && EntryCmp(b, c) <= 0 ensures EntryCmp(a, c) <= 0 {
      StringsChain(a.name, b.name, c.name);
    }
  }

  /** The lines from `a` to `b` all lie below a path. */
  ghost predicate Under(out: seq<WalkEntry>, a: nat, b: nat, path: string) {
    a <= b <= |out| && forall i :: a <= i < b ==> path + "/" <= out[i].path
  }

  /** The lines from `from` to `to`: one for each entry, in order, each followed by what lies below it. `at` says where
      each entry's own line is. */
  ghost predicate Preorder(img: Image, base: string, es: seq<Entry>, out: seq<WalkEntry>, from: nat, to: nat, at: seq<nat>) {
    && |at| == |es| + 1 && at[0] == from && at[|es|] == to <= |out|
    && forall k, n :: 0 <= k && n == k + 1 < |at| ==> Stretch(img, base, es[k], out, at[k], at[n])
  }

  /** The lines from `a` to `b` are that of an entry and those below it. */
  ghost predicate Stretch(img: Image, base: string, e: Entry, out: seq<WalkEntry>, a: nat, b: nat) {
    a < b <= |out| && out[a] == LineOf(img, base, e) && Under(out, a + 1, b, base + "/" + e.name)
  }

  lemma UnderDeeper(out: seq<WalkEntry>, a: nat, b: nat, base: string, name: string)
    requires Under(out, a, b, base + "/" + name)
    ensures Under(out, a, b, base)
  {
    forall i | a <= i < b ensures base + "/" <= out[i].path {
      assert base + "/" <= base + "/" + name + "/" <= out[i].path;
    }
  }

  lemma UnderJoin(out: seq<WalkEntry>, later: seq<WalkEntry>, a: nat, b: nat, c: nat, path: string)
    requires out <= later && Under(out, a, b, path) && Under(later, b, c, path)
    ensures Under(later, a, c, path)
  {
  }

  lemma {:induction false} WalkDirUnder(img: Image, ino: nat, base: string, depth: nat, p: Progress)
    requires depth <= MAX_DEPTH + 1
    ensures var q := WalkDir(img, ino, base, depth, p).p; p.out <= q.out && Under(q.out, |p.out|, |q.out|, base)
    decreases MAX_DEPTH + 1 - depth, 0, 0
  {
    hide WalkEntries;
    if depth <= MAX_DEPTH && ino !in p.visited && img.listdir(ino).Ok? {
      WalkEntriesUnder(img, StableSort.Sort(img.listdir(ino).value, EntryCmp), base, depth, Enter(p, ino, base));
    }
  }

  lemma {:induction false} WalkEntriesUnder(img: Image, es: seq<Entry>, base: string, depth: nat, p: Progress)
    requires depth <= MAX_DEPTH
    ensures var q := WalkEntries(img, es, base, depth, p).p; p.out <= q.out && Under(q.out, |p.out|, |q.out|, base)
    decreases MAX_DEPTH - depth, 1, |es|
  {
    hide WalkEntry1;
    if es != [] && img.inode(es[0].ino).Ok? {
      var node := img.inode(es[0].ino).value;
      WalkEntry1Under(img, es[0], node, base, depth, p);
      var r := WalkEntry1(img, es[0], node, base, depth, p);
      if r.Done? {
        WalkEntriesUnder(img, es[1..], base, depth, r.p);
        UnderJoin(r.p.out, WalkEntries(img, es[1..], base, depth, r.p).p.out, |p.out|, |r.p.out|,
                  |WalkEntries(img, es[1..], base, depth, r.p).p.out|, base);
      }
    }
  }

  lemma WalkEntry1Under(img: Image, e: Entry, node: Node, base: string, depth: nat, p: Progress)
    requires depth <= MAX_DEPTH && img.inode(e.ino) == Ok(node)
    ensures var q := WalkEntry1(img, e, node, base, depth, p).p;
            && p.out <= q.out && |p.out| < |q.out| && q.out[|p.out|] == LineOf(img, base, e)
            && Under(q.out, |p.out| + 1, |q.out|, base + "/" + e.name) && Under(q.out, |p.out|, |q.out|, base)
    decreases MAX_DEPTH - depth, 0, 1
  {
    hide WalkDir;
    var path := base + "/" + e.name;
    var m := Emit(p, path, node);
    WalkDirUnder(img, e.ino, path, depth + 1, m);
    var q := WalkEntry1(img, e, node, base, depth, p).p;
    assert m.out <= q.out && m.out[|p.out|] == LineOf(img, base, e);
    UnderDeeper(q.out, |p.out| + 1, |q.out|, base, e.name);
  }

  /** The walk of a directory's entries is in preorder. */
  lemma {:induction false} EntriesInPreorder(img: Image, es: seq<Entry>, base: string, depth: nat, p: Progress) returns (at: seq<nat>)
    requires depth <= MAX_DEPTH && WalkEntries(img, es, base, depth, p).Done?
    ensures var out := WalkEntries(img, es, base, depth, p).p.out; Preorder(img, base, es, out, |p.out|, |out|, at)
    decreases |es|
  {
    hide WalkEntry1, LineOf;
    if es == [] {
      at := [|p.out|];
    } else {
      var node := img.inode(es[0].ino).value;
      var r := WalkEntry1(img, es[0], node, base, depth, p).p;
      WalkEntry1Under(img, es[0], node, base, depth, p);
      var rest := EntriesInPreorder(img, es[1..], base, depth, r);
      WalkEntriesUnder(img, es[1..], base, depth, r);
      at := [|p.out|] + rest;
      PreorderCons(img, base, es, r.out, WalkEntries(img, es[1..], base, depth, r).p.out, |p.out|, rest);
    }
  }

  lemma PreorderCons(img: Image, base: string, es: seq<Entry>, mid: seq<WalkEntry>, out: seq<WalkEntry>, from: nat, rest: seq<nat>)
    requires es != [] && mid <= out && from < |mid| && mid[from] == LineOf(img, base, es[0])
    requires Under(mid, from + 1, |mid|, base + "/" + es[0].name) && Preorder(img, base, es[1..], out, |mid|, |out|, rest)
    ensures Preorder(img, base, es, out, from, |out|, [from] + rest)
  {
    hide LineOf;
    var at := [from] + rest;
    forall k, n | 0 <= k && n == k + 1 < |at| ensures Stretch(img, base, es[k], out, at[k], at[n]) {
      if k > 0 { assert es[k] == es[1..][k - 1] && at[k] == rest[k - 1] && at[n] == rest[n - 1]; }
    }
  }

  /** A directory that is read adds its entries in ascending order, each followed by everything below it. */
  lemma WalkInPreorder(img: Image, ino: nat, base: string, depth: nat, p: Progress) returns (at: seq<nat>)
    requires depth <= MAX_DEPTH && ino !in p.visited && WalkDir(img, ino, base, depth, p).Done?
    ensures img.listdir(ino).Ok?
    ensures var out := WalkDir(img, ino, base, depth, p).p.out;
            Preorder(img, base, StableSort.Sort(img.listdir(ino).value, EntryCmp), out, |p.out|, |out|, at)
  {
    hide WalkEntries, EntryCmp, StableSort.Sort;
    at := EntriesInPreorder(img, StableSort.Sort(img.listdir(ino).value, EntryCmp), base, depth, Enter(p, ino, base));
  }

  // ---- When a walk is cut ----

  lemma ChainCons(img: Image, a: nat, c: seq<nat>)
    requires Chain(img, c) && Edge(img, a, c[0])
    ensures Chain(img, [a] + c)
  {
    var d := [a] + c;
    forall i, j | 0 <= i && j == i + 1 < |d| ensures Edge(img, d[i], d[j]) { assert i > 0 ==> Edge(img, c[i - 1], c[i]); }
  }

  lemma {:induction false} CutIsDeep(img: Image, ino: nat, base: string, depth: nat, p: Progress) returns (c: seq<nat>)
    requires depth <= MAX_DEPTH + 1 && !p.truncated && WalkDir(img, ino, base, depth, p).p.truncated
    ensures Chain(img, c) && c[0] == ino && |c| == MAX_DEPTH + 2 - depth
    decreases MAX_DEPTH + 1 - depth, 0, 0
  {
    hide WalkEntries;
    if depth > MAX_DEPTH {
      c := [ino];
    } else {
      var es := img.listdir(ino).value;
      var sorted := StableSort.Sort(es, EntryCmp);
      StableSort.SortPermutes(es, EntryCmp);
      StableSort.MultisetMember(sorted, es);
      c := EntriesCut(img, ino, sorted, base, depth, Enter(p, ino, base));
    }
  }

  lemma {:induction false} EntriesCut(img: Image, dir: nat, es: seq<Entry>, base: string, depth: nat, p: Progress) returns (c: seq<nat>)
    requires depth <= MAX_DEPTH && !p.truncated && WalkEntries(img, es, base, depth, p).p.truncated
    requires img.listdir(dir).Ok? && forall e :: e in es ==> e in img.listdir(dir).value
    ensures Chain(img, c) && c[0] == dir && |c| == MAX_DEPTH + 2 - depth
    decreases MAX_DEPTH - depth, 1, |es|
  {
    hide WalkDir;
    var node := img.inode(es[0].ino).value;
    var r := WalkEntry1(img, es[0], node, base, depth, p);
    if r.p.truncated {
      var path := base + "/" + es[0].name;
      var d := CutIsDeep(img, es[0].ino, path, depth + 1, Emit(p, path, node));
      assert Edge(img, dir, es[0].ino);
      ChainCons(img, dir, d);
      c := [dir] + d;
    } else {
      c := EntriesCut(img, dir, es[1..], base, depth, r.p);
    }
  }

  /** The depth cap cuts only trees with a chain of more directories than it allows. */
  lemma ShallowIsWhole(img: Image)
    requires forall c :: Chain(img, c) && c[0] == ROOT ==> |c| < MAX_DEPTH + 2
    ensures !WalkImage(img).p.truncated
  {
    if WalkImage(img).p.truncated { var c := CutIsDeep(img, ROOT, "", 0, START); }
  }

  // ---- Path resolution ----

  function NonEmpty(parts: seq<string>): seq<string> {
    if parts == [] then [] else (if parts[0] != "" then [parts[0]] else []) + NonEmpty(parts[1..])
  }

  lemma {:induction false} NonEmptyConcat(a: seq<string>, b: seq<string>)
    ensures NonEmpty(a + b) == NonEmpty(a) + NonEmpty(b)
  {
    if a == [] {
      assert a + b == b;
    } else {
      NonEmptyConcat(a[1..], b);
      assert a + b == [a[0]] + (a[1..] + b);
      NonEmptyCons(a[0], a[1..] + b);
      Assoc(if a[0] != "" then [a[0]] else [], NonEmpty(a[1..]), NonEmpty(b));
    }
  }

  lemma NonEmptyCons(x: string, s: seq<string>)
    ensures NonEmpty([x] + s) == (if x != "" then [x] else []) + NonEmpty(s)
  {
    assert ([x] + s)[1..] == s;
  }

  /** The components of a path: what lies between slashes, empty parts dropped. */
  function Components(path: string): seq<string> { NonEmpty(Text.Split(path, '/')) }

  lemma ComponentsChild(base: string, name: string)
    requires name != "" && '/' !in name
    ensures Components(base + "/" + name) == Components(base) + [name]
  {
    assert base + "/" + name == base + (['/'] + name);
    Text.SplitConcat(base, name, '/');
    Text.SplitOne(name, '/');
    NonEmptyConcat(Text.Split(base, '/'), [name]);
    assert NonEmpty([name]) == [name];
  }

  /** What is still to be read from position `start` on. */
  function Rest(s: string, start: nat): seq<string> {
    if start <= |s| then Components(s[start..]) else []
  }

  lemma TakePart(s: string, start: nat, i: nat)
    requires start <= i <= |s| && '/' !in s[start..i] && (i < |s| ==> s[i] == '/')
    ensures Rest(s, start) == (if start < i then [s[start..i]] else []) + Rest(s, i + 1)
  {
    var part := s[start..i];
    NonEmptyCons(part, []);
    assert [part] + [] == [part];
    if i == |s| {
      assert s[start..] == part;
      Text.SplitOne(part, '/');
    } else {
      assert s[start..] == part + (['/'] + s[i + 1..]);
      Text.SplitConcat(part, s[i + 1..], '/');
      Text.SplitOne(part, '/');
      NonEmptyConcat([part], Text.Split(s[i + 1..], '/'));
    }
  }

  lemma RestEnds(s: string)
    ensures Rest(s, 0) == Components(s) && Rest(s, |s| + 1) == []
  {
    DropAll(s);
  }

  /** `splitNonEmpty`. */
  method SplitNonEmpty(s: string) returns (out: seq<string>)
    ensures out == Components(s)
  {
    hide Rest, Components;
    out := [];
    var start: nat := 0;
    RestEnds(s);
    for i := 0 to |s| + 1
      invariant start <= |s| + 1 && (i == |s| + 1 ==> start == i)
      invariant i <= |s| ==> start <= i && '/' !in s[start..i]
      invariant out + Rest(s, start) == Components(s)
    {
      if i == |s| || s[i] == '/' {
        TakePart(s, start, i);
        Assoc(out, if start < i then [s[start..i]] else [], Rest(s, i + 1));
        if i > start { out := out + [s[start..i]]; }
        start := i + 1;
      } else {
        SliceSnoc(s, start, i);
      }
    }
  }

  /** The first entry of that name. */
  function Find(es: seq<Entry>, name: string): Option<Entry> {
    if es == [] then None else if es[0].name == name then Some(es[0]) else Find(es[1..], name)
  }

  datatype Resolution = Found(ino: nat, node: Node) | Missing | Unreadable(e: Error)

  function ResolveFrom(img: Image, ino: nat, parts: seq<string>): Result<Option<nat>, Error>
    decreases |parts|
  {
    if parts == [] then Ok(Some(ino))
    else
      match img.listdir(ino)
      case Err(e) => Err(e)
      case Ok(es) =>
        match Find(es, parts[0])
        case None => Ok(None)
        case Some(e) => ResolveFrom(img, e.ino, parts[1..])
  }

  function Resolved(img: Image, path: string): Resolution {
    match ResolveFrom(img, ROOT, Components(path))
    case Err(e) => Unreadable(e)
    case Ok(None) => Missing
    case Ok(Some(ino)) => match img.inode(ino) case Ok(node) => Found(ino, node) case Err(e) => Unreadable(e)
  }

  /** `e` is what a name stands for in a directory: the first entry that carries it. */
  ghost predicate FirstNamed(es: seq<Entry>, name: string, e: Entry) {
    exists k :: 0 <= k < |es| && es[k] == e && e.name == name && forall j :: 0 <= j < k ==> es[j].name != name
  }

  ghost predicate StepsTo(img: Image, dir: nat, name: string, to: nat) {
    img.listdir(dir).Ok? && exists e :: FirstNamed(img.listdir(dir).value, name, e) && e.ino == to
  }

  /** A chain of inodes, one step for each component. */
  ghost predicate Follows(img: Image, from: nat, parts: seq<string>, c: seq<nat>) {
    |c| == |parts| + 1 && c[0] == from && forall i :: 0 <= i < |parts| ==> StepsTo(img, c[i], parts[i], c[i + 1])
  }

  ghost predicate Leads(img: Image, from: nat, parts: seq<string>, to: nat) {
    exists c :: Follows(img, from, parts, c) && c[|parts|] == to
  }

  ghost predicate Lacks(img: Image, dir: nat, name: string) {
    img.listdir(dir).Ok? && forall e :: e in img.listdir(dir).value ==> e.name != name
  }

  /** The components before some name lead to a readable directory without an entry of that name. */
  ghost predicate Lost(img: Image, from: nat, parts: seq<string>) {
    exists n: nat, d: nat :: n < |parts| && Leads(img, from, parts[..n], d) && Lacks(img, d, parts[n])
  }

  /** The components before some name lead to a directory that does not read. */
  ghost predicate Blocked(img: Image, from: nat, parts: seq<string>, e: Error) {
    exists n: nat, d: nat :: n < |parts| && Leads(img, from, parts[..n], d) && img.listdir(d) == Err(e)
  }

  /** What the outcome of a resolution says about the image. */
  ghost predicate Answers(img: Image, parts: seq<string>, r: Resolution) {
    match r
    case Found(ino, node) => Leads(img, ROOT, parts, ino) && img.inode(ino) == Ok(node)
    case Missing => Lost(img, ROOT, parts)
    case Unreadable(e) => Blocked(img, ROOT, parts, e) || exists i :: Leads(img, ROOT, parts, i) && img.inode(i) == Err(e)
  }

  lemma {:induction false} FindIs(es: seq<Entry>, name: string)
    ensures forall e :: FirstNamed(es, name, e) <==> Find(es, name) == Some(e)
    ensures Find(es, name) == None <==> forall e :: e in es ==> e.name != name
  {
    if es != [] {
      FindIs(es[1..], name);
      if es[0].name == name {
        assert FirstNamed(es, name, es[0]);
      } else {
        forall e ensures FirstNamed(es, name, e) <==> FirstNamed(es[1..], name, e) {
          FirstNamedRest(es, name, e);
        }
      }
    }
  }

  lemma FirstNamedRest(es: seq<Entry>, name: string, e: Entry)
    requires es != [] && es[0].name != name
    ensures FirstNamed(es, name, e) <==> FirstNamed(es[1..], name, e)
  {
    if FirstNamed(es, name, e) {
      var k :| 0 <= k < |es| && es[k] == e && e.name == name && forall j :: 0 <= j < k ==> es[j].name != name;
      assert es[1..][k - 1] == e;
    }
    if FirstNamed(es[1..], name, e) {
      var k :| 0 <= k < |es[1..]| && es[1..][k] == e && e.name == name && forall j :: 0 <= j < k ==> es[1..][j].name != name;
      assert es[k + 1] == e;
      forall j | 0 <= j < k + 1 ensures es[j].name != name { assert j > 0 ==> es[j] == es[1..][j - 1]; }
    }
  }

  /** Along a chain the rest of the resolution is that from its end. */
  lemma {:induction false} AlongChain(img: Image, from: nat, parts: seq<string>, n: nat, c: seq<nat>)
    requires n <= |parts| && Follows(img, from, parts[..n], c)
    ensures ResolveFrom(img, from, parts) == ResolveFrom(img, c[n], parts[n..])
    decreases n
  {
    if n == 0 {
      assert parts[0..] == parts;
    } else {
      assert StepsTo(img, c[0], parts[..n][0], c[1]);
      FindIs(img.listdir(from).value, parts[0]);
      forall i | 0 <= i < n - 1 ensures StepsTo(img, c[1..][i], parts[1..][..n - 1][i], c[1..][i + 1]) {
        assert StepsTo(img, c[i + 1], parts[..n][i + 1], c[i + 2]);
      }
      AlongChain(img, c[1], parts[1..], n - 1, c[1..]);
      assert parts[1..][n - 1..] == parts[n..];
    }
  }

  lemma LeadsOn(img: Image, from: nat, parts: seq<string>, n: nat, d: nat)
    requires n <= |parts| && Leads(img, from, parts[..n], d)
    ensures ResolveFrom(img, from, parts) == ResolveFrom(img, d, parts[n..])
  {
    var c :| Follows(img, from, parts[..n], c) && c[n] == d;
    AlongChain(img, from, parts, n, c);
  }

  lemma StepThenLead(img: Image, from: nat, next: nat, parts: seq<string>, n: nat, d: nat)
    requires 0 < n <= |parts| && StepsTo(img, from, parts[0], next) && Leads(img, next, parts[1..][..n - 1], d)
    ensures Leads(img, from, parts[..n], d)
  {
    var c :| Follows(img, next, parts[1..][..n - 1], c) && c[n - 1] == d;
    var b := [from] + c;
    forall i | 0 <= i < n ensures StepsTo(img, b[i], parts[..n][i], b[i + 1]) {
      if i > 0 { assert StepsTo(img, c[i - 1], parts[1..][..n - 1][i - 1], c[i]); }
    }
    assert Follows(img, from, parts[..n], b);
  }

  lemma {:induction false} Traced(img: Image, from: nat, parts: seq<string>)
    ensures match ResolveFrom(img, from, parts)
            case Ok(Some(i)) => Leads(img, from, parts, i)
            case Ok(None) => Lost(img, from, parts)
            case Err(e) => Blocked(img, from, parts, e)
    decreases |parts|
  {
    assert Follows(img, from, parts[..0], [from]);
    assert Leads(img, from, parts[..0], from);
    if parts == [] {
      assert parts[..0] == parts;
    } else if img.listdir(from).Ok? {
      FindIs(img.listdir(from).value, parts[0]);
      match Find(img.listdir(from).value, parts[0])
      case None => assert Lacks(img, from, parts[0]);
      case Some(e) =>
        assert StepsTo(img, from, parts[0], e.ino);
        Traced(img, e.ino, parts[1..]);
        TracedStep(img, from, parts, e.ino);
    }
  }

  lemma TracedStep(img: Image, from: nat, parts: seq<string>, next: nat)
    requires parts != [] && StepsTo(img, from, parts[0], next)
    ensures forall i :: Leads(img, next, parts[1..], i) ==> Leads(img, from, parts, i)
    ensures Lost(img, next, parts[1..]) ==> Lost(img, from, parts)
    ensures forall e :: Blocked(img, next, parts[1..], e) ==> Blocked(img, from, parts, e)
  {
    var rest := parts[1..];
    assert rest[..|rest|] == rest && parts[..|parts|] == parts;
    forall i | Leads(img, next, rest, i) ensures Leads(img, from, parts, i) {
      StepThenLead(img, from, next, parts, |parts|, i);
    }
    if Lost(img, next, rest) {
      var n: nat, d: nat :| n < |rest| && Leads(img, next, rest[..n], d) && Lacks(img, d, rest[n]);
      StepThenLead(img, from, next, parts, n + 1, d);
      assert Lacks(img, d, parts[n + 1]);
    }
    forall e | Blocked(img, next, rest, e) ensures Blocked(img, from, parts, e) {
      var n: nat, d: nat :| n < |rest| && Leads(img, next, rest[..n], d) && img.listdir(d) == Err(e);
      StepThenLead(img, from, next, parts, n + 1, d);
    }
  }

  /** The outcome of a resolution is the one that is true of the image. */
  lemma ResolvedAnswers(img: Image, path: string, r: Resolution)
    ensures Answers(img, Components(path), r) <==> r == Resolved(img, path)
  {
    hide Components;
    var parts := Components(path);
    Traced(img, ROOT, parts);
    if Answers(img, parts, r) { AnswerIsResolved(img, parts, r); }
  }

  lemma AnswerIsResolved(img: Image, parts: seq<string>, r: Resolution)
    requires Answers(img, parts, r)
    ensures match r
            case Found(ino, node) => ResolveFrom(img, ROOT, parts) == Ok(Some(ino)) && img.inode(ino) == Ok(node)
            case Missing => ResolveFrom(img, ROOT, parts) == Ok(None)
            case Unreadable(e) =>
              || ResolveFrom(img, ROOT, parts) == Err(e)
              || exists i :: ResolveFrom(img, ROOT, parts) == Ok(Some(i)) && img.inode(i) == Err(e)
  {
    assert parts[..|parts|] == parts && parts[|parts|..] == [];
    match r
    case Found(ino, _) => LeadsOn(img, ROOT, parts, |parts|, ino);
    case Missing =>
      var n: nat, d: nat :| n < |parts| && Leads(img, ROOT, parts[..n], d) && Lacks(img, d, parts[n]);
      LeadsOn(img, ROOT, parts, n, d);
      FindIs(img.listdir(d).value, parts[n]);
    case Unreadable(e) =>
      if Blocked(img, ROOT, parts, e) {
        var n: nat, d: nat :| n < |parts| && Leads(img, ROOT, parts[..n], d) && img.listdir(d) == Err(e);
        LeadsOn(img, ROOT, parts, n, d);
      } else {
        var i :| Leads(img, ROOT, parts, i) && img.inode(i) == Err(e);
        LeadsOn(img, ROOT, parts, |parts|, i);
      }
  }

  method Resolve(img: Image, path: string) returns (r: Resolution)
    ensures r == Resolved(img, path)
    ensures forall s :: Answers(img, Components(path), s) <==> s == r
  {
    forall s ensures Answers(img, Components(path), s) <==> s == Resolved(img, path) { ResolvedAnswers(img, path, s); }
    var ino: nat := ROOT;
    var parts := SplitNonEmpty(path);
    for i := 0 to |parts|
      invariant ResolveFrom(img, ino, parts[i..]) == ResolveFrom(img, ROOT, parts)
    {
      assert parts[i..][0] == parts[i] && parts[i..][1..] == parts[i + 1..];
      match img.listdir(ino) {
        case Err(e) => return Unreadable(e);
        case Ok(es) =>
          var found := false;
          for k := 0 to |es|
            invariant !found && Find(es[k..], parts[i]) == Find(es, parts[i])
          {
            assert es[k..][0] == es[k] && es[k..][1..] == es[k + 1..];
            if es[k].name == parts[i] {
              ino, found := es[k].ino, true;
              break;
            }
          }
          if !found { return Missing; }
      }
    }
    match img.inode(ino) {
      case Ok(node) => r := Found(ino, node);
      case Err(e) => r := Unreadable(e);
    }
  }

  // ---- Walk and resolve agree ----

  /** Names that a path can address: in every directory of the tree distinct, not empty and without a slash. Nothing is
      asked of other inodes, whose data may read as any records. */
  ghost predicate WellNamed(img: Image) {
    forall d :: Reachable(img, ROOT, d) && img.listdir(d).Ok? ==> GoodNames(img.listdir(d).value)
  }

  ghost predicate GoodNames(es: seq<Entry>) {
    && (forall i :: 0 <= i < |es| ==> es[i].name != "" && '/' !in es[i].name)
    && (forall i, j :: 0 <= i < j < |es| ==> es[i].name != es[j].name)
  }

  lemma {:induction false} FindListed(es: seq<Entry>, e: Entry)
    requires GoodNames(es) && e in es
    ensures Find(es, e.name) == Some(e)
  {
    if es[0] != e {
      var i :| 0 <= i < |es| && es[i] == e;
      assert es[1..][i - 1] == e;
      FindListed(es[1..], e);
    }
  }

  lemma {:induction false} ResolveSnoc(img: Image, ino: nat, parts: seq<string>, dir: nat, e: Entry)
    requires ResolveFrom(img, ino, parts) == Ok(Some(dir))
    requires img.listdir(dir).Ok? && GoodNames(img.listdir(dir).value) && e in img.listdir(dir).value
    ensures ResolveFrom(img, ino, parts + [e.name]) == Ok(Some(e.ino))
    decreases |parts|
  {
    if parts == [] {
      FindListed(img.listdir(dir).value, e);
      assert ([] + [e.name])[1..] == [];
    } else {
      var next := Find(img.listdir(ino).value, parts[0]).value;
      ResolveSnoc(img, next.ino, parts[1..], dir, e);
      assert (parts + [e.name])[1..] == parts[1..] + [e.name];
    }
  }

  /** An emitted entry is what resolving its path finds. */
  ghost predicate Agrees(img: Image, w: WalkEntry) {
    Resolved(img, w.path).Found? && Resolved(img, w.path).node == Node(w.mode, w.size)
  }

  ghost predicate AllAgree(img: Image, out: seq<WalkEntry>) { forall i :: 0 <= i < |out| ==> Agrees(img, out[i]) }

  lemma {:induction false} WalkDirAgrees(img: Image, ino: nat, base: string, depth: nat, p: Progress)
    requires depth <= MAX_DEPTH + 1 && WellNamed(img) && AllAgree(img, p.out) && Reachable(img, ROOT, ino)
    requires ResolveFrom(img, ROOT, Components(base)) == Ok(Some(ino))
    ensures AllAgree(img, WalkDir(img, ino, base, depth, p).p.out)
    decreases MAX_DEPTH + 1 - depth, 0, 0
  {
    if depth <= MAX_DEPTH && ino !in p.visited && img.listdir(ino).Ok? {
      var es := img.listdir(ino).value;
      var sorted := StableSort.Sort(es, EntryCmp);
      StableSort.SortPermutes(es, EntryCmp);
      StableSort.MultisetMember(sorted, es);
      WalkEntriesAgrees(img, ino, sorted, base, depth, Enter(p, ino, base));
    }
  }

  lemma {:induction false} WalkEntriesAgrees(img: Image, dir: nat, es: seq<Entry>, base: string, depth: nat, p: Progress)
    requires depth <= MAX_DEPTH && WellNamed(img) && AllAgree(img, p.out) && Reachable(img, ROOT, dir)
    requires img.listdir(dir).Ok? && forall e :: e in es ==> e in img.listdir(dir).value
    requires ResolveFrom(img, ROOT, Components(base)) == Ok(Some(dir))
    ensures AllAgree(img, WalkEntries(img, es, base, depth, p).p.out)
    decreases MAX_DEPTH - depth, 1, |es|
  {
    hide Agrees, WalkDir, ResolveFrom, Resolved, WellNamed, Components, AllAgree, Reachable, Edge;
    if es != [] && img.inode(es[0].ino).Ok? {
      var node := img.inode(es[0].ino).value;
      var path := base + "/" + es[0].name;
      assert es[0] in es;
      ChildResolves(img, dir, base, es[0]);
      ChildAgrees(img, path, es[0].ino, p.out);
      var emitted := Emit(p, path, node);
      if IsDir(node.mode) {
        ReachListed(img, dir, es[0]);
        WalkDirAgrees(img, es[0].ino, path, depth + 1, emitted);
      }
      var r := WalkEntry1(img, es[0], node, base, depth, p);
      if r.Done? { WalkEntriesAgrees(img, dir, es[1..], base, depth, r.p); }
    }
  }

  lemma ReachListed(img: Image, dir: nat, e: Entry)
    requires Reachable(img, ROOT, dir) && img.listdir(dir).Ok? && e in img.listdir(dir).value
    requires img.inode(e.ino).Ok? && IsDir(img.inode(e.ino).value.mode)
    ensures Reachable(img, ROOT, e.ino)
  {
    assert Edge(img, dir, e.ino);
    ReachStep(img, ROOT, dir, e.ino);
  }

  lemma ChildAgrees(img: Image, path: string, ino: nat, out: seq<WalkEntry>)
    requires AllAgree(img, out) && img.inode(ino).Ok? && ResolveFrom(img, ROOT, Components(path)) == Ok(Some(ino))
    ensures var node := img.inode(ino).value; AllAgree(img, out + [WalkEntry(path, node.mode, node.size, IsDir(node.mode))])
  {
    hide Components, ResolveFrom;
    var node := img.inode(ino).value;
    assert Agrees(img, WalkEntry(path, node.mode, node.size, IsDir(node.mode)));
  }

  lemma ChildResolves(img: Image, dir: nat, base: string, e: Entry)
    requires img.listdir(dir).Ok? && WellNamed(img) && e in img.listdir(dir).value && Reachable(img, ROOT, dir)
    requires ResolveFrom(img, ROOT, Components(base)) == Ok(Some(dir))
    ensures ResolveFrom(img, ROOT, Components(base + "/" + e.name)) == Ok(Some(e.ino))
  {
    ComponentsChild(base, e.name);
    ResolveSnoc(img, ROOT, Components(base), dir, e);
  }

  /** Every (path, mode, size) the walk emits, completed or not, is what resolving that path returns. */
  lemma WalkAgreesWithResolve(img: Image)
    requires WellNamed(img)
    ensures AllAgree(img, WalkImage(img).p.out)
  {
    assert Components("") == [];
    ReachSelf(img, ROOT);
    WalkDirAgrees(img, ROOT, "", 0, START);
  }

  // ---- The walk as it is run ----

  /** A directory, unfolded once. */
  lemma WalkDirCases(img: Image, ino: nat, base: string, depth: nat, p: Progress)
    requires depth <= MAX_DEPTH + 1
    ensures var o := WalkDir(img, ino, base, depth, p);
            if depth > MAX_DEPTH then o == Done(p.(truncated := true))
            else if ino in p.visited then o == Done(p)
            else if img.listdir(ino).Err? then o == Failed(p.(visited := p.visited + {ino}), img.listdir(ino).error)
            else o == WalkEntries(img, StableSort.Sort(img.listdir(ino).value, EntryCmp), base, depth, Enter(p, ino, base))
  {
    hide WalkEntries;
  }

  class Walker {
    const img: Image
    var visited: set<nat>
    var truncated: bool
    var emitted: seq<WalkEntry>
    ghost var listed: seq<nat>
    ghost var bases: seq<string>

    constructor (img: Image)
      ensures this.img == img && State() == START
    {
      this.img := img;
      visited, truncated, emitted, listed, bases := {}, false, [], [], [];
    }

    ghost function State(): Progress
      reads this
    {
      Progress(visited, truncated, emitted, listed, bases)
    }

    method Walk(ino: nat, base: string, depth: nat) returns (err: Option<Error>)
      requires depth <= MAX_DEPTH + 1
      modifies this
      ensures var o := WalkDir(img, ino, base, depth, old(State()));
              State() == o.p && err == if o.Done? then None else Some(o.e)
      decreases MAX_DEPTH + 1 - depth, 0
    {
      WalkDirCases(img, ino, base, depth, State());
      hide WalkDir, WalkEntries, WalkEntry1, EntryCmp, StableSort.Sort;
      if depth > MAX_DEPTH {
        truncated := true;
        return None;
      }
      if ino in visited { return None; }
      visited := visited + {ino};
      match img.listdir(ino) {
        case Err(e) => return Some(e);
        case Ok(es) =>
          listed, bases := listed + [ino], bases + [base];
          var entries := StableSort.Sort(es, EntryCmp);
          ghost var start := State();
          WalkNoRest(img, entries, base, depth, start);
          for i := 0 to |entries|
            invariant WalkEntries(img, entries[i..], base, depth, State()) == WalkEntries(img, entries, base, depth, start)
          {
            WalkRestCases(img, entries, i, base, depth, State());
            err := WalkOne(entries[i], base, depth);
            if err.Some? { return; }
          }
          WalkNoRest(img, entries, base, depth, State());
          return None;
      }
    }

    /** One entry: its line, and what is below it. */
    method WalkOne(e: Entry, base: string, depth: nat) returns (err: Option<Error>)
      requires depth <= MAX_DEPTH
      modifies this
      ensures img.inode(e.ino).Err? ==> State() == old(State()) && err == Some(img.inode(e.ino).error)
      ensures img.inode(e.ino).Ok? ==>
                var o := WalkEntry1(img, e, img.inode(e.ino).value, base, depth, old(State()));
                State() == o.p && err == if o.Done? then None else Some(o.e)
      decreases MAX_DEPTH - depth, 1
    {
      hide WalkDir, IsDir;
      var path := base + "/" + e.name;
      match img.inode(e.ino) {
        case Err(x) => return Some(x);
        case Ok(node) =>
          emitted := emitted + [WalkEntry(path, node.mode, node.size, IsDir(node.mode))];
          err := None;
          if IsDir(node.mode) { err := Walk(e.ino, path, depth + 1); }
      }
    }
  }

  lemma WalkRestCases(img: Image, es: seq<Entry>, i: nat, base: string, depth: nat, p: Progress)
    requires depth <= MAX_DEPTH && i < |es|
    ensures img.inode(es[i].ino).Err? ==> WalkEntries(img, es[i..], base, depth, p) == Failed(p, img.inode(es[i].ino).error)
    ensures img.inode(es[i].ino).Ok? ==>
              var q := WalkEntry1(img, es[i], img.inode(es[i].ino).value, base, depth, p);
              WalkEntries(img, es[i..], base, depth, p) == if q.Failed? then q else WalkEntries(img, es[i + 1..], base, depth, q.p)
  {
    hide WalkDir, WalkEntry1;
    assert es[i..][0] == es[i] && es[i..][1..] == es[i + 1..];
  }

  lemma WalkNoRest(img: Image, es: seq<Entry>, base: string, depth: nat, p: Progress)
    requires depth <= MAX_DEPTH
    ensures WalkEntries(img, es[|es|..], base, depth, p) == Done(p) && es[0..] == es
  {
    DropAll(es);
  }
}
