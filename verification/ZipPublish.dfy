/** The whole STORED run: the stage with its copy of the archive, the extraction, the reports beside the entries, and the
    check that nothing else is there. It says exactly which archives are published, and as what. */
module ZipPublish {
  import opened Wrappers
  import opened Bytes
  import opened Sequences
  import opened Text
  import opened Pairs
  import opened ZipRead
  import opened ZipMember
  import opened ZipPaths
  import opened ZipStored
  import opened ZipExtract
  import ArtifactPath

  // ---- What the run keeps beside the entries ----

  const ARCHIVE := "archive.zip"
  const REPORT := "zip-stored.v1.json"
  const STDOUT := "stdout.txt"
  const STDERR := "stderr.txt"
  const SPEC := "manifest-spec.json"
  const MANIFEST := "analysis-manifest.v1.json"

  /** A name the run uses itself, in passing or to the end. */
  predicate Reserved(name: string) { name == ARCHIVE || name == SPEC || Report(name) }

  /** A file that is published beside the entries. */
  predicate Report(name: string) { name == REPORT || name == STDOUT || name == STDERR || name == MANIFEST }

  lemma NamesApart()
    ensures '/' !in ARCHIVE && '/' !in REPORT && '/' !in STDOUT && '/' !in STDERR && '/' !in SPEC && '/' !in MANIFEST
    ensures ARCHIVE !in {REPORT, STDOUT, STDERR, SPEC, MANIFEST} && REPORT !in {STDOUT, STDERR, SPEC, MANIFEST}
    ensures STDOUT !in {STDERR, SPEC, MANIFEST} && STDERR !in {SPEC, MANIFEST} && SPEC != MANIFEST
  {
    assert STDOUT[3] == 'o' && STDERR[3] == 'e' && REPORT[0] == 'z' && SPEC[0] == 'm';
  }

  /** What the rest of the run produces for some entries, paths apart: the report, if it fits its cap; the manifest's
      specification; the manifest, if the tool takes the launcher and the arguments; and whether it still verifies. */
  datatype Paperwork = Paperwork(report: Option<seq<byte>>, spec: Option<seq<byte>>, manifest: Option<seq<byte>>, verified: bool)
  {
    predicate Complete() { report.Some? && spec.Some? && manifest.Some? && verified }
  }

  /** No place that a report or the specification needs is taken. */
  predicate Vacant(t: map<Path, Node>) {
    [REPORT] !in t && [STDOUT] !in t && [STDERR] !in t && [SPEC] !in t && [MANIFEST] !in t
  }

  /** The tree without the copy of the archive and with the reports. */
  function Filed(t: map<Path, Node>, paper: Paperwork): map<Path, Node>
    requires paper.Complete()
  {
    (t - {[ARCHIVE]})[[REPORT] := Regular(paper.report.value)][[STDOUT] := Regular([])][[STDERR] := Regular([])]
      [[MANIFEST] := Regular(paper.manifest.value)]
  }

  /** The manifest tool records no path that is not artifact-relative. */
  method CheckPaths(dec: ArtifactPath.Decoding, paths: seq<string>) returns (ok: bool)
    ensures ok <==> forall p :: p in paths ==> ArtifactPath.Relative(dec, p)
  {
    hide ArtifactPath.Relative;
    for i := 0 to |paths|
      invariant forall k :: 0 <= k < i ==> ArtifactPath.Relative(dec, paths[k])
    {
      var taken := ArtifactPath.RelativePath(dec, paths[i]);
      if !taken {
        assert paths[i] in paths;
        return false;
      }
    }
    return true;
  }

  /** The manifest records the report, the entries' files and the two logs, so it is the files that decide. */
  method CheckManifest(dec: ArtifactPath.Decoding, outputs: seq<string>) returns (ok: bool)
    ensures ok <==> forall p :: p in outputs ==> ArtifactPath.Relative(dec, p)
  {
    OwnPathsRelative(dec);
    hide ArtifactPath.Relative, REPORT, STDOUT, STDERR;
    ok := CheckPaths(dec, [REPORT] + outputs + [STDOUT, STDERR]);
  }

  /** The run's own paths are relative. */
  lemma OwnPathsRelative(dec: ArtifactPath.Decoding)
    ensures ArtifactPath.Relative(dec, REPORT) && ArtifactPath.Relative(dec, STDOUT) && ArtifactPath.Relative(dec, STDERR)
  {
    assert SimpleName(REPORT) && SimpleName(STDOUT) && SimpleName(STDERR);
    hide SimpleName, ArtifactPath.Relative;
    SimpleRelative(dec, REPORT);
    SimpleRelative(dec, STDOUT);
    SimpleRelative(dec, STDERR);
  }

  /** Small letters, digits, dots and dashes, and more than dots. */
  predicate SimpleName(s: string) {
    && |s| > 2 && s[0] != '.'
    && forall i :: 0 <= i < |s| ==> 'a' <= s[i] <= 'z' || '0' <= s[i] <= '9' || s[i] == '.' || s[i] == '-'
  }

  lemma SimpleRelative(dec: ArtifactPath.Decoding, name: string)
    requires SimpleName(name)
    ensures ArtifactPath.Relative(dec, name)
  {
    SplitOne(name, '/');
    assert ArtifactPath.Literal(name) && !ArtifactPath.Space(name[0]) && !ArtifactPath.HasScheme(name);
    hide ArtifactPath.Relative, ArtifactPath.HasScheme, ArtifactPath.Literal, Split;
    ArtifactPath.LiteralRelative(dec, name);
  }

  /** The reports in the order of the code; the specification of the manifest is there only while it is needed. */
  method FileReports(stage: Stage, paper: Paperwork, dec: ArtifactPath.Decoding, outputs: seq<string>) returns (ok: bool)
    requires Rooted(stage.tree) && [ARCHIVE] in stage.tree && stage.tree[[ARCHIVE]].Regular?
    modifies stage
    ensures Rooted(stage.tree)
    ensures ok <==> paper.Complete() && Vacant(old(stage.tree)) && forall p :: p in outputs ==> ArtifactPath.Relative(dec, p)
    ensures ok ==> stage.tree == Filed(old(stage.tree), paper)
  {
    hide Rooted, ParentIn, Bare, Split, ArtifactPath.Relative;
    ghost var t := stage.tree;
    NamesApart();
    TopLevel(ARCHIVE);
    TopLevel(REPORT);
    TopLevel(STDOUT);
    TopLevel(STDERR);
    TopLevel(SPEC);
    TopLevel(MANIFEST);
    if paper.report.None? { return false; }
    var err := stage.Write(REPORT, paper.report.value);
    if err.Some? { return false; }
    err := stage.Write(STDOUT, []);
    if err.Some? { return false; }
    err := stage.Write(STDERR, []);
    if err.Some? { return false; }
    FileIsBare(stage.tree, [ARCHIVE]);
    err := stage.Remove(ARCHIVE);
    if paper.spec.None? { return false; }
    err := stage.Write(SPEC, paper.spec.value);
    if err.Some? { return false; }
    var taken := CheckManifest(dec, outputs);
    if !taken || paper.manifest.None? { return false; }
    err := stage.Write(MANIFEST, paper.manifest.value);
    if err.Some? { return false; }
    FileIsBare(stage.tree, [SPEC]);
    err := stage.Remove(SPEC);
    if !paper.verified { return false; }
    SpecPasses(t, paper);
    return true;
  }

  lemma TopLevel(name: string)
    requires '/' !in name
    ensures Split(name, '/') == [name] && forall t: map<Path, Node> :: ParentIn(t, [name])
  {
    SplitOne(name, '/');
  }

  lemma SpecPasses(t: map<Path, Node>, paper: Paperwork)
    requires paper.Complete() && Vacant(t)
    ensures var u := t[[REPORT] := Regular(paper.report.value)][[STDOUT] := Regular([])][[STDERR] := Regular([])] - {[ARCHIVE]};
            u[[SPEC] := Regular(paper.spec.value)][[MANIFEST] := Regular(paper.manifest.value)] - {[SPEC]} == Filed(t, paper)
  {
    NamesApart();
    hide ARCHIVE, REPORT, STDOUT, STDERR, SPEC, MANIFEST;
  }

  // ---- The expected tree ----

  ghost predicate FileNamed(ss: seq<Stored>, k: string) { exists s :: s in ss && !s.dir && s.path == k }

  ghost predicate ExpectedFile(ss: seq<Stored>, k: string) { Report(k) || FileNamed(ss, k) }

  ghost predicate ExpectedDir(f: seq<byte>, ss: seq<Stored>, k: string) {
    exists s, j :: s in ss && 1 <= j <= Upto(OutputOf(f, s)) && k == Key(Parts(OutputOf(f, s).item), j)
  }

  /** The relative paths of the files and directories that must be there at the end, and of the files to record. */
  method Expected(ghost f: seq<byte>, ss: seq<Stored>) returns (files: set<string>, dirs: set<string>, outputs: seq<string>)
    ensures forall k :: k in outputs <==> FileNamed(ss, k)
    ensures forall k :: k in files <==> ExpectedFile(ss, k)
    ensures forall k :: k in dirs <==> ExpectedDir(f, ss, k)
  {
    hide Split, TrimRight;
    files, dirs, outputs := {REPORT, STDOUT, STDERR, MANIFEST}, {}, [];
    for i := 0 to |ss|
      invariant forall k :: k in outputs <==> FileNamed(ss[..i], k)
      invariant forall k :: k in files <==> ExpectedFile(ss[..i], k)
      invariant forall k :: k in dirs <==> ExpectedDir(f, ss[..i], k)
    {
      var s := ss[i];
      var parts := Split(TrimRight(s.path, '/'), '/');
      OutputIs(f, s);
      OneMore(ss, i);
      var upto := |parts|;
      if !s.dir {
        outputs := outputs + [s.path];
        files := files + {s.path};
        upto := upto - 1;
      }
      ghost var before := dirs;
      for j := 1 to upto + 1
        invariant forall k :: k in dirs <==> k in before || exists n :: 1 <= n < j && k == Key(parts, n)
      {
        dirs := dirs + {Key(parts, j)};
      }
      forall k ensures k in dirs <==> ExpectedDir(f, ss[..i + 1], k) {
        ExpectedDirNext(f, ss, i, k);
        assert k in dirs <==> k in before || exists n :: 1 <= n <= upto && k == Key(parts, n);
      }
      forall k ensures FileNamed(ss[..i + 1], k) <==> FileNamed(ss[..i], k) || (!s.dir && s.path == k) {}
    }
    DropAll(ss);
  }

  lemma ExpectedDirNext(f: seq<byte>, ss: seq<Stored>, i: nat, k: string)
    requires i < |ss|
    ensures ExpectedDir(f, ss[..i + 1], k) <==>
              ExpectedDir(f, ss[..i], k) || exists n :: 1 <= n <= Upto(OutputOf(f, ss[i])) && k == Key(Parts(OutputOf(f, ss[i]).item), n)
  {
    hide Parts, Key, OutputOf;
    OneMore(ss, i);
  }

  ghost predicate FileAt(t: map<Path, Node>, k: string) { exists p :: p in t && t[p].Regular? && k == Join(p, '/') }

  ghost predicate DirAt(t: map<Path, Node>, k: string) { exists p :: p in t && t[p].Folder? && k == Join(p, '/') }

  /** The tree holds what is expected, as what it is expected to be, and nothing else. */
  ghost predicate Closed(t: map<Path, Node>, f: seq<byte>, ss: seq<Stored>) {
    forall k :: (FileAt(t, k) <==> ExpectedFile(ss, k)) && (DirAt(t, k) <==> ExpectedDir(f, ss, k))
  }

  method ValidateTree(t: map<Path, Node>, files: set<string>, dirs: set<string>) returns (ok: bool)
    ensures ok <==> forall k :: (FileAt(t, k) <==> k in files) && (DirAt(t, k) <==> k in dirs)
  {
    hide Join;
    var seenFiles := set p | p in t && t[p].Regular? :: Join(p, '/');
    var seenDirs := set p | p in t && t[p].Folder? :: Join(p, '/');
    assert forall k :: k in seenFiles <==> FileAt(t, k);
    assert forall k :: k in seenDirs <==> DirAt(t, k);
    ok := seenFiles == files && seenDirs == dirs;
  }

  lemma ClosedIs(t: map<Path, Node>, f: seq<byte>, ss: seq<Stored>, files: set<string>, dirs: set<string>)
    requires forall k :: (k in files <==> ExpectedFile(ss, k)) && (k in dirs <==> ExpectedDir(f, ss, k))
    ensures Closed(t, f, ss) <==> forall k :: (FileAt(t, k) <==> k in files) && (DirAt(t, k) <==> k in dirs)
  {
    hide FileAt, DirAt, ExpectedFile, ExpectedDir;
  }

  // ---- What is published ----

  /** Exactly the directories and files of the entries, the files with their payloads, and the four reports. */
  ghost predicate Published(t: map<Path, Node>, paper: Paperwork, os: seq<Output>) {
    && paper.Complete()
    && (forall p :: p in t <==> MadeDir(os, p) || MadeFile(os, p) || ReportPath(p))
    && (forall p :: p in t && MadeDir(os, p) ==> t[p] == Folder)
    && (forall i :: 0 <= i < |os| && !os[i].item.dir && Parts(os[i].item) in t ==> t[Parts(os[i].item)] == Regular(os[i].content))
    && (forall p :: p in t && ReportPath(p) ==> t[p] == Regular(ReportText(p[0], paper)))
  }

  predicate ReportPath(p: Path) { |p| == 1 && Report(p[0]) }

  function ReportText(name: string, paper: Paperwork): seq<byte>
    requires paper.Complete()
  {
    if name == REPORT then paper.report.value else if name == MANIFEST then paper.manifest.value else []
  }

  /** The stage as the extraction finds it. */
  function Staged(f: seq<byte>): map<Path, Node> { map[[ARCHIVE] := Regular(f)] }

  function First(o: Output): string { Parts(o.item)[0] }

  /** The stage's own copy is in the way of every entry under its name, except a directory of just that name: that one is
      tolerated, and nothing is made for it. */
  lemma StageAdmits(f: seq<byte>, o: Output)
    ensures Admits(Staged(f), o) <==> First(o) != ARCHIVE || (o.item.dir && |Parts(o.item)| == 1)
    ensures First(o) == ARCHIVE && |Parts(o.item)| == 1 ==> WithChain(Staged(f), Parts(o.item), 1) == Staged(f)
  {
    var parts, t := Parts(o.item), Staged(f);
    hide Parts, ARCHIVE;
    forall j | 1 <= j <= |parts| ensures parts[..j] in t <==> j == 1 && parts[0] == ARCHIVE {
      assert |parts[..j]| == j && parts[..j][0] == parts[0];
      assert parts[..j] == [ARCHIVE] <==> j == 1 && parts[0] == ARCHIVE;
    }
    assert parts[..|parts|] == parts;
    assert t[[ARCHIVE]].Regular? && parts[..1] in t <==> parts[0] == ARCHIVE;
    assert parts[0] == ARCHIVE && |parts| > 1 ==> !NoFileInWay(t, parts, |parts|);
    assert WithChain(t, parts, 0) == t;
  }

  lemma FirstIsMade(os: seq<Output>, i: nat)
    requires i < |os|
    ensures MadeDir(os, [First(os[i])]) || MadeFile(os, [First(os[i])])
  {
    var o := os[i];
    hide Parts;
    var p := [First(o)];
    assert p == Parts(o.item)[..1];
    assert DirOf(o, p) || FileOf(o, p);
  }

  lemma MadeIsFirst(os: seq<Output>, p: Path)
    requires MadeDir(os, p) || MadeFile(os, p)
    ensures p != [] && Free(p, '/') && exists i :: 0 <= i < |os| && p[0] == First(os[i])
  {
    hide DirOf, FileOf;
    var i :| 0 <= i < |os| && (DirOf(os[i], p) || FileOf(os[i], p));
    OnPath(os[i], p);
  }

  lemma OnPath(o: Output, p: Path)
    requires DirOf(o, p) || FileOf(o, p)
    ensures p != [] && Free(p, '/') && p[0] == First(o)
  {
    SplitFree(o.item.plain, '/');
  }

  /** The places of the reports stay vacant exactly when no entry's path begins with one of their names. */
  lemma VacantIff(f: seq<byte>, u: map<Path, Node>, os: seq<Output>)
    requires Grown(Staged(f), u, os)
    ensures Vacant(u) <==> forall i :: 0 <= i < |os| ==> First(os[i]) == ARCHIVE || !Reserved(First(os[i]))
  {
    NamesApart();
    hide ARCHIVE, REPORT, STDOUT, STDERR, SPEC, MANIFEST, MadeDir, MadeFile, Parts, First;
    if Vacant(u) {
      forall i | 0 <= i < |os| ensures First(os[i]) == ARCHIVE || !Reserved(First(os[i])) { FirstIsMade(os, i); }
    } else {
      var name :| name in {REPORT, STDOUT, STDERR, SPEC, MANIFEST} && [name] in u;
      assert [name][0] == name && [ARCHIVE][0] == ARCHIVE;
      MadeIsFirst(os, [name]);
    }
  }

  /** When no path begins with a reserved name, the run ends in the published tree. */
  lemma FiledIsPublished(f: seq<byte>, u: map<Path, Node>, os: seq<Output>, paper: Paperwork)
    requires Grown(Staged(f), u, os) && paper.Complete() && forall i :: 0 <= i < |os| ==> !Reserved(First(os[i]))
    ensures Published(Filed(u, paper), paper, os)
  {
    NamesApart();
    GrownFiles(Staged(f), u, os);
    hide ARCHIVE, REPORT, STDOUT, STDERR, SPEC, MANIFEST, MadeDir, MadeFile, Parts, First;
    var v := Filed(u, paper);
    forall p
      ensures p in v <==> MadeDir(os, p) || MadeFile(os, p) || ReportPath(p)
      ensures p in v && MadeDir(os, p) ==> v[p] == Folder
      ensures p in v && ReportPath(p) ==> v[p] == Regular(ReportText(p[0], paper))
    {
      FiledAt(f, u, os, paper, p);
    }
    forall i | 0 <= i < |os| && !os[i].item.dir ensures v[Parts(os[i].item)] == u[Parts(os[i].item)] {
      FileIsMade(os, i);
      FiledAt(f, u, os, paper, Parts(os[i].item));
    }
  }

  lemma FiledAt(f: seq<byte>, u: map<Path, Node>, os: seq<Output>, paper: Paperwork, p: Path)
    requires Grown(Staged(f), u, os) && paper.Complete() && forall i :: 0 <= i < |os| ==> !Reserved(First(os[i]))
    ensures var v := Filed(u, paper);
            && (p in v <==> MadeDir(os, p) || MadeFile(os, p) || ReportPath(p))
            && (MadeDir(os, p) || MadeFile(os, p) ==> p in u && v[p] == u[p])
            && (p in v && MadeDir(os, p) ==> v[p] == Folder)
            && (p in v && ReportPath(p) ==> v[p] == Regular(ReportText(p[0], paper)))
  {
    NamesApart();
    hide ARCHIVE, REPORT, STDOUT, STDERR, SPEC, MANIFEST, MadeDir, MadeFile, Parts, First;
    assert [ARCHIVE][0] == ARCHIVE && [REPORT][0] == REPORT && [MANIFEST][0] == MANIFEST && [STDOUT][0] == STDOUT && [STDERR][0] == STDERR;
    if MadeDir(os, p) || MadeFile(os, p) {
      MadeIsFirst(os, p);
      assert !Reserved(p[0]);
    }
    if |p| == 1 { assert p == [p[0]]; }
  }

  lemma FileIsMade(os: seq<Output>, i: nat)
    requires i < |os| && !os[i].item.dir
    ensures MadeFile(os, Parts(os[i].item))
  {
    assert FileOf(os[i], Parts(os[i].item));
  }

  // ---- It is what is expected ----

  lemma ReportIsPath(p: Path)
    requires p != [] && Free(p, '/')
    ensures Report(Join(p, '/')) <==> ReportPath(p)
  {
    NamesApart();
    hide REPORT, STDOUT, STDERR, MANIFEST;
    var k := Join(p, '/');
    if Report(k) { JoinInjective(p, [k], '/'); }
  }

  /** Path by path: everything published is expected as what it is, and everything expected is published. */
  lemma PublishedIsExpected(t: map<Path, Node>, f: seq<byte>, ss: seq<Stored>, paper: Paperwork, p: Path)
    requires Published(t, paper, Outputs(f, ss)) && Pairwise(Outputs(f, ss), Unrelated)
    requires forall s :: s in ss ==> !Reserved(First(OutputOf(f, s))) && (!s.dir ==> TrimRight(s.path, '/') == s.path)
    ensures p in t ==> p != [] && Free(p, '/')
    ensures p != [] && Free(p, '/') ==>
              && (p in t && t[p].Folder? <==> ExpectedDir(f, ss, Join(p, '/')))
              && (p in t && t[p].Regular? <==> ExpectedFile(ss, Join(p, '/')))
  {
    hide *;
    var os := Outputs(f, ss);
    PublishedAt(t, os, paper, p);
    if MadeDir(os, p) || MadeFile(os, p) {
      MadeIsFirst(os, p);
      NotReport(f, ss, p);
    }
    if ReportPath(p) { ReportIsFree(p); }
    if p != [] && Free(p, '/') {
      DirExpected(f, ss, p);
      FileExpected(f, ss, p);
    }
    if MadeDir(os, p) { NotBoth(os, p); }
  }

  lemma PublishedAt(t: map<Path, Node>, os: seq<Output>, paper: Paperwork, p: Path)
    requires Published(t, paper, os)
    ensures p in t <==> MadeDir(os, p) || MadeFile(os, p) || ReportPath(p)
    ensures p in t && MadeDir(os, p) ==> t[p] == Folder
    ensures p in t && (MadeFile(os, p) || ReportPath(p)) ==> t[p].Regular?
    ensures p in t && t[p].Folder? ==> !t[p].Regular?
    ensures p in t ==> t[p].Folder? || t[p].Regular?
  {
    hide MadeDir, Parts, ReportPath;
    if MadeFile(os, p) {
      var i :| 0 <= i < |os| && FileOf(os[i], p);
      assert p == Parts(os[i].item) && !os[i].item.dir;
    }
  }

  lemma NotReport(f: seq<byte>, ss: seq<Stored>, p: Path)
    requires MadeDir(Outputs(f, ss), p) || MadeFile(Outputs(f, ss), p)
    requires forall s :: s in ss ==> !Reserved(First(OutputOf(f, s)))
    ensures !ReportPath(p)
  {
    MadeIsFirst(Outputs(f, ss), p);
    OutputsAt(f, ss);
    hide First, OutputOf, Outputs, MadeDir, MadeFile, Report;
    var i :| 0 <= i < |ss| && p[0] == First(OutputOf(f, ss[i]));
    assert ss[i] in ss;
  }

  lemma ReportIsFree(p: Path)
    requires ReportPath(p)
    ensures p != [] && Free(p, '/')
  {
    NamesApart();
    hide REPORT, STDOUT, STDERR, MANIFEST;
  }

  lemma DirExpected(f: seq<byte>, ss: seq<Stored>, p: Path)
    requires p != [] && Free(p, '/')
    ensures MadeDir(Outputs(f, ss), p) <==> ExpectedDir(f, ss, Join(p, '/'))
  {
    hide Parts, OutputOf;
    OutputsAt(f, ss);
    var os, k := Outputs(f, ss), Join(p, '/');
    if MadeDir(os, p) {
      var i :| 0 <= i < |os| && DirOf(os[i], p);
      assert ss[i] in ss && os[i] == OutputOf(f, ss[i]) && k == Key(Parts(os[i].item), |p|);
    }
    if ExpectedDir(f, ss, k) {
      var s, j :| s in ss && 1 <= j <= Upto(OutputOf(f, s)) && k == Key(Parts(OutputOf(f, s).item), j);
      var i :| 0 <= i < |ss| && ss[i] == s;
      OutputIs(f, s);
      JoinInjective(p, Parts(os[i].item)[..j], '/');
      assert DirOf(os[i], p);
    }
  }

  lemma FileExpected(f: seq<byte>, ss: seq<Stored>, p: Path)
    requires p != [] && Free(p, '/') && forall s :: s in ss && !s.dir ==> TrimRight(s.path, '/') == s.path
    ensures MadeFile(Outputs(f, ss), p) || ReportPath(p) <==> ExpectedFile(ss, Join(p, '/'))
  {
    ReportIsPath(p);
    hide ReportPath, Report;
    OutputsAt(f, ss);
    var os, k := Outputs(f, ss), Join(p, '/');
    if MadeFile(os, p) {
      var i :| 0 <= i < |os| && FileOf(os[i], p);
      JoinSplit(ss[i].path, '/');
      assert ss[i] in ss;
    }
    if s :| s in ss && !s.dir && s.path == k {
      var i :| 0 <= i < |ss| && ss[i] == s;
      SplitJoin(p, '/');
      assert FileOf(os[i], p);
    }
  }

  lemma NotBoth(os: seq<Output>, p: Path)
    requires Pairwise(os, Unrelated) && MadeDir(os, p)
    ensures !MadeFile(os, p)
  {
    hide DirOf, FileOf, Unrelated;
    var i :| 0 <= i < |os| && DirOf(os[i], p);
    forall j | 0 <= j < |os| ensures !FileOf(os[j], p) {
      if i == j {
        DirIsNoFile(os[i], p);
      } else {
        Swap(os[j], os[i]);
        assert i < j ==> Unrelated(os[i], os[j]);
        OffPath(os[j], os[i], p);
      }
    }
  }

  lemma OffPath(a: Output, o: Output, p: Path)
    requires Unrelated(a, o) && DirOf(o, p)
    ensures !FileOf(a, p)
  {
    hide *;
    if FileOf(a, p) { FileOnPath(a, o, p); }
  }

  lemma DirIsNoFile(o: Output, p: Path)
    requires DirOf(o, p)
    ensures !FileOf(o, p)
  {
  }

  lemma PublishedIsClosed(t: map<Path, Node>, f: seq<byte>, ss: seq<Stored>, paper: Paperwork)
    requires Published(t, paper, Outputs(f, ss)) && Pairwise(Outputs(f, ss), Unrelated)
    requires forall s :: s in ss ==> !Reserved(First(OutputOf(f, s))) && (!s.dir ==> TrimRight(s.path, '/') == s.path)
    ensures Closed(t, f, ss)
  {
    hide Published, Unrelated, Reserved, First, OutputOf, ExpectedFile, ExpectedDir, Join;
    forall k ensures (FileAt(t, k) <==> ExpectedFile(ss, k)) && (DirAt(t, k) <==> ExpectedDir(f, ss, k)) {
      SplitFree(k, '/');
      JoinSplit(k, '/');
      PublishedIsExpected(t, f, ss, paper, Split(k, '/'));
      forall p | p in t ensures p != [] && Free(p, '/')
        ensures t[p].Folder? <==> ExpectedDir(f, ss, Join(p, '/'))
        ensures t[p].Regular? <==> ExpectedFile(ss, Join(p, '/'))
      {
        PublishedIsExpected(t, f, ss, paper, p);
      }
    }
  }

  /** The directory that was tolerated under the name of the stage's own copy is expected, and missing once the copy is
      removed. */
  lemma ToleratedIsMissed(f: seq<byte>, u: map<Path, Node>, ss: seq<Stored>, paper: Paperwork, s: Stored)
    requires Grown(Staged(f), u, Outputs(f, ss)) && paper.Complete()
    requires s in ss && Admits(Staged(f), OutputOf(f, s)) && First(OutputOf(f, s)) == ARCHIVE
    ensures !Closed(Filed(u, paper), f, ss)
  {
    var o, v := OutputOf(f, s), Filed(u, paper);
    StageAdmits(f, o);
    NamesApart();
    hide Admits, ARCHIVE, REPORT, STDOUT, STDERR, SPEC, MANIFEST, Parts, OutputOf, MadeDir, MadeFile, Outputs;
    assert Parts(o.item)[..1] == [ARCHIVE];
    assert ExpectedDir(f, ss, ARCHIVE) by { assert Key(Parts(o.item), 1) == ARCHIVE && Upto(o) == 1; }
    forall p | p in v ensures Join(p, '/') != ARCHIVE {
      FiledIsFree(f, u, Outputs(f, ss), paper, p);
      if Join(p, '/') == ARCHIVE { JoinInjective(p, [ARCHIVE], '/'); }
    }
    assert !DirAt(v, ARCHIVE);
  }

  lemma FiledIsFree(f: seq<byte>, u: map<Path, Node>, os: seq<Output>, paper: Paperwork, p: Path)
    requires Grown(Staged(f), u, os) && paper.Complete() && p in Filed(u, paper)
    ensures p != [] && Free(p, '/') && p != [ARCHIVE]
  {
    NamesApart();
    hide ARCHIVE, REPORT, STDOUT, STDERR, SPEC, MANIFEST, MadeDir, MadeFile;
    if MadeDir(os, p) || MadeFile(os, p) { MadeIsFirst(os, p); }
    assert [ARCHIVE][0] == ARCHIVE && [REPORT][0] == REPORT && [MANIFEST][0] == MANIFEST && [STDOUT][0] == STDOUT && [STDERR][0] == STDERR;
  }

  // ---- The whole run ----

  /** The payload is intact, the path does not begin with a name the run uses itself, and a file's path is one the manifest
      can record. */
  ghost predicate Publishable(dec: ArtifactPath.Decoding, h: Hash, f: seq<byte>, s: Stored) {
    Intact(h, f, s) && !Reserved(First(OutputOf(f, s))) && (s.dir || ArtifactPath.Relative(dec, s.path))
  }

  datatype PublishError = NotExtracted(cause: RunError) | NotReported | NotClosed

  /** The run succeeds exactly when the archive is accepted with publishable entries only and its paperwork can be done, and
      then what it leaves is exactly the entries and the reports. */
  method Publish(f: seq<byte>, ns: Names, lim: Limits, report: seq<Record> -> bool, h: Hash, stored: seq<byte> -> Source,
                 inflate: seq<byte> -> Source, dec: ArtifactPath.Decoding, papers: seq<Stored> -> Paperwork)
    returns (res: Result<map<Path, Node>, PublishError>)
    requires Section(stored)
    ensures res.Ok? <==> exists d, ss :: Accepted(f, ns, lim, report, d, ss) && papers(ss).Complete()
                                         && forall s :: s in ss ==> Publishable(dec, h, f, s)
    ensures res.Ok? ==> forall d, ss :: Accepted(f, ns, lim, report, d, ss) ==> Published(res.value, papers(ss), Outputs(f, ss))
  {
    hide *;
    var stage := new Stage();
    EmptyRooted();
    var staged := stage.Write(ARCHIVE, f);
    StagedIs(f);
    var run := StoredRun(stage, f, ns, lim, report, h, stored, inflate);
    if run.Err? {
      forall d, ss, s | Accepted(f, ns, lim, report, d, ss) && s in ss && !Extractable(Staged(f), h, f, s)
        ensures !Publishable(dec, h, f, s)
      {
        PublishableIs(dec, h, f, s);
      }
      return Err(NotExtracted(run.error));
    }
    var d, ss := run.value.0, run.value.1;
    forall e, ts | Accepted(f, ns, lim, report, e, ts) ensures ts == ss { AdmittedOnce(f, ns, lim, report, d, ss, e, ts); }
    AcceptedFacts(f, ns, lim, report, d, ss);
    ghost var u := stage.tree;
    var paper := papers(ss);
    AfterExtraction(f, u, ss, h, paper);
    StageKeeps(f, u);
    var files, dirs, outputs := Expected(f, ss);
    PublishableAll(dec, h, f, ss, Staged(f), outputs);
    var filed := FileReports(stage, paper, dec, outputs);
    if !filed { return Err(NotReported); }
    ClosedIs(stage.tree, f, ss, files, dirs);
    var closed := ValidateTree(stage.tree, files, dirs);
    if !closed { return Err(NotClosed); }
    return Ok(stage.tree);
  }

  ghost predicate Unreserved(f: seq<byte>, ss: seq<Stored>) { forall s :: s in ss ==> !Reserved(First(OutputOf(f, s))) }

  /** After an extraction that worked, what is left to ask of the entries. */
  lemma PublishableAll(dec: ArtifactPath.Decoding, h: Hash, f: seq<byte>, ss: seq<Stored>, t: map<Path, Node>, outputs: seq<string>)
    requires forall s :: s in ss ==> Extractable(t, h, f, s)
    requires forall k :: k in outputs <==> FileNamed(ss, k)
    ensures (forall s :: s in ss ==> Publishable(dec, h, f, s)) <==>
              Unreserved(f, ss) && forall p :: p in outputs ==> ArtifactPath.Relative(dec, p)
  {
    hide Admits, Intact, Reserved, First, OutputOf, ArtifactPath.Relative;
    if forall s :: s in ss ==> Publishable(dec, h, f, s) {
      forall p | p in outputs ensures ArtifactPath.Relative(dec, p) {
        var s :| s in ss && !s.dir && s.path == p;
        assert Publishable(dec, h, f, s);
      }
    }
    if Unreserved(f, ss) && forall p :: p in outputs ==> ArtifactPath.Relative(dec, p) {
      forall s | s in ss ensures Publishable(dec, h, f, s) {
        assert Extractable(t, h, f, s);
        if !s.dir { assert FileNamed(ss, s.path); }
      }
    }
  }

  /** What a caller can read off the name: a file's path in ASCII without percent signs is recorded unless it is blank or
      begins like a URI. */
  lemma LiteralPublishable(dec: ArtifactPath.Decoding, h: Hash, f: seq<byte>, ns: Names, lim: Limits, report: seq<Record> -> bool,
                           d: Directory, ss: seq<Stored>, s: Stored)
    requires Accepted(f, ns, lim, report, d, ss) && s in ss && ArtifactPath.Literal(s.path)
    ensures Publishable(dec, h, f, s) <==>
              && Intact(h, f, s) && !Reserved(First(OutputOf(f, s)))
              && (s.dir || (!ArtifactPath.Blank(s.path) && !ArtifactPath.HasScheme(s.path)))
  {
    hide *;
    PublishableParts(dec, h, f, s);
    if !s.dir {
      AcceptedPath(f, ns, lim, report, d, ss, s);
      ArtifactPath.LiteralRelative(dec, s.path);
    }
  }

  lemma PublishableParts(dec: ArtifactPath.Decoding, h: Hash, f: seq<byte>, s: Stored)
    ensures Publishable(dec, h, f, s) <==>
              Intact(h, f, s) && !Reserved(First(OutputOf(f, s))) && (s.dir || ArtifactPath.Relative(dec, s.path))
  {
    hide Intact, Reserved, First, OutputOf, ArtifactPath.Relative;
  }

  lemma AcceptedPath(f: seq<byte>, ns: Names, lim: Limits, report: seq<Record> -> bool, d: Directory, ss: seq<Stored>, s: Stored)
    requires Accepted(f, ns, lim, report, d, ss) && s in ss && !s.dir
    ensures '\\' !in s.path && forall p :: p in Split(s.path, '/') ==> p !in {"", ".", ".."}
  {
    hide LaidOut, KindOK, PayloadOK, Total, Items, Spans, Pairwise;
    var i :| 0 <= i < |ss| && ss[i] == s;
    assert Fits(f, ns, lim, d, d.records[i], s);
  }

  lemma EmptyRooted()
    ensures Rooted(map[])
  {
  }

  lemma StagedIs(f: seq<byte>)
    ensures Split(ARCHIVE, '/') == [ARCHIVE] && ParentIn(map[], [ARCHIVE]) && map[][[ARCHIVE] := Regular(f)] == Staged(f)
  {
    NamesApart();
    TopLevel(ARCHIVE);
  }

  lemma StageKeeps(f: seq<byte>, u: map<Path, Node>)
    requires Kept(Staged(f), u)
    ensures [ARCHIVE] in u && u[[ARCHIVE]].Regular?
  {
  }

  lemma PublishableIs(dec: ArtifactPath.Decoding, h: Hash, f: seq<byte>, s: Stored)
    ensures Publishable(dec, h, f, s) ==> Extractable(Staged(f), h, f, s)
  {
    StageAdmits(f, OutputOf(f, s));
    hide Admits, Intact, OutputOf, First, Staged, ArtifactPath.Relative;
  }

  lemma AcceptedFacts(f: seq<byte>, ns: Names, lim: Limits, report: seq<Record> -> bool, d: Directory, ss: seq<Stored>)
    requires Accepted(f, ns, lim, report, d, ss)
    ensures Pairwise(Outputs(f, ss), Unrelated) && forall s :: s in ss && !s.dir ==> TrimRight(s.path, '/') == s.path
  {
    hide *;
    AdmittedParts(f, ns, lim, report, d, ss);
    AdmittedUnrelated(f, ns, lim, d, ss);
  }

  /** What the extraction leaves decides the rest of the run. */
  lemma AfterExtraction(f: seq<byte>, u: map<Path, Node>, ss: seq<Stored>, h: Hash, paper: Paperwork)
    requires Grown(Staged(f), u, Outputs(f, ss)) && Pairwise(Outputs(f, ss), Unrelated)
    requires forall s :: s in ss ==> Extractable(Staged(f), h, f, s)
    requires forall s :: s in ss && !s.dir ==> TrimRight(s.path, '/') == s.path
    ensures Kept(Staged(f), u)
    ensures !Unreserved(f, ss) && paper.Complete() && Vacant(u) ==> !Closed(Filed(u, paper), f, ss)
    ensures Unreserved(f, ss) ==> Vacant(u)
    ensures Unreserved(f, ss) && paper.Complete() ==>
              Closed(Filed(u, paper), f, ss) && Published(Filed(u, paper), paper, Outputs(f, ss))
  {
    hide *;
    GrownKeeps(Staged(f), u, Outputs(f, ss));
    VacantIff(f, u, Outputs(f, ss));
    OutputsAt(f, ss);
    UnreservedIs(f, ss);
    forall s | s in ss ensures Admits(Staged(f), OutputOf(f, s)) { ExtractableParts(Staged(f), h, f, s); }
    if Unreserved(f, ss) {
      if paper.Complete() {
        FiledIsPublished(f, u, Outputs(f, ss), paper);
        PublishedIsClosed(Filed(u, paper), f, ss, paper);
      }
    } else if paper.Complete() && Vacant(u) {
      var s :| s in ss && Reserved(First(OutputOf(f, s)));
      var i :| 0 <= i < |ss| && ss[i] == s;
      assert Outputs(f, ss)[i] == OutputOf(f, s);
      ToleratedIsMissed(f, u, ss, paper, s);
    }
  }

  lemma UnreservedIs(f: seq<byte>, ss: seq<Stored>)
    ensures Unreserved(f, ss) <==> forall s :: s in ss ==> !Reserved(First(OutputOf(f, s)))
  {
    hide Reserved, First, OutputOf;
  }
}
