/** The CI gate of a merge: the verdict over the latest check runs, and the path-filter exemption that can take a
    required check out of the required set. */
module CiGate {
  import opened Wrappers
  import opened Text
  import opened JqOrder
  import opened CiRuns
  import opened PathGlob
  import opened ChangedFiles
  import Orders
  import StableSort

  // ---- The verdict ----

  /** The verdicts in precedence order; `Pending` with no names is the one for a head without any check run. */
  datatype Verdict =
    | Failed(names: seq<string>)
    | Pending(names: seq<string>)
    | Skipped(names: seq<string>)
    | Missing(names: seq<string>)
    | Green

  predicate Completed(r: Run) { r.status == "completed" }

  predicate Passed(r: Run) {
    Completed(r) && r.conclusion.Str? && r.conclusion.s in {"success", "skipped", "neutral"}
  }

  predicate Succeeded(r: Run) { Completed(r) && r.conclusion == Str("success") }

  function Names(runs: seq<Run>): set<string> { set r | r in runs :: r.name }

  function FailedNames(latest: seq<Run>): set<string> { set r | r in latest && Completed(r) && !Passed(r) :: r.name }

  function PendingNames(latest: seq<Run>): set<string> { set r | r in latest && !Completed(r) :: r.name }

  function SkippedNames(latest: seq<Run>, req: seq<string>): set<string> {
    set r | r in latest && Passed(r) && !Succeeded(r) && r.name in req :: r.name
  }

  /** The required names no latest run reports, in the required order. */
  function Absent(latest: seq<Run>, req: seq<string>): seq<string> {
    if req == [] then []
    else Absent(latest, req[..|req| - 1]) + (if req[|req| - 1] in Names(latest) then [] else [req[|req| - 1]])
  }

  /** The precedence: failed, pending, nothing reported, required but skipped, missing, green. */
  function Judge(latest: seq<Run>, req: seq<string>): Verdict {
    if FailedNames(latest) != {} then Failed(Orders.SortedSet(FailedNames(latest)))
    else if PendingNames(latest) != {} then Pending(Orders.SortedSet(PendingNames(latest)))
    else if latest == [] then Pending([])
    else if SkippedNames(latest, req) != {} then Skipped(Orders.SortedSet(SkippedNames(latest, req)))
    else if Absent(latest, req) != [] then Missing(Absent(latest, req))
    else Green
  }

  lemma {:induction false} AbsentMembers(latest: seq<Run>, req: seq<string>, n: string)
    ensures n in Absent(latest, req) <==> n in req && n !in Names(latest)
  {
    if req != [] {
      AbsentMembers(latest, req[..|req| - 1], n);
      assert req == req[..|req| - 1] + [req[|req| - 1]];
    }
  }

  /** Green means: something ran, everything that ran passed, and every required name ran and succeeded. */
  lemma GreenIff(latest: seq<Run>, req: seq<string>)
    ensures Judge(latest, req).Green? <==>
              && latest != []
              && (forall r :: r in latest ==> Passed(r) && (r.name in req ==> Succeeded(r)))
              && (forall n :: n in req ==> exists r :: r in latest && r.name == n)
  {
    forall n ensures n in Absent(latest, req) <==> n in req && n !in Names(latest) { AbsentMembers(latest, req, n); }
    if Judge(latest, req).Green? {
      forall r | r in latest ensures Passed(r) && (r.name in req ==> Succeeded(r)) {
        assert r.name !in FailedNames(latest) && r.name !in PendingNames(latest);
        assert r.name !in SkippedNames(latest, req);
      }
      forall n | n in req ensures exists r :: r in latest && r.name == n {
        assert n !in Absent(latest, req);
        assert n in Names(latest);
      }
    } else if latest != [] && (forall r :: r in latest ==> Passed(r) && (r.name in req ==> Succeeded(r))) {
      assert FailedNames(latest) == {} && PendingNames(latest) == {} && SkippedNames(latest, req) == {};
      var n := Absent(latest, req)[0];
      assert n in Absent(latest, req);
    }
  }

  // What each refusal says of the runs, in the order of precedence.

  /** What can be wrong with a run: it failed, it is not completed, or it is required and passed without success. */
  datatype Fault = Fails | Waits | Idles(req: seq<string>)

  predicate Has(r: Run, x: Fault) {
    match x
    case Fails => Completed(r) && !Passed(r)
    case Waits => !Completed(r)
    case Idles(req) => Passed(r) && !Succeeded(r) && r.name in req
  }

  ghost predicate AnyRun(latest: seq<Run>, x: Fault) { exists r :: r in latest && Has(r, x) }

  /** The distinct names of the runs that have the fault, ascending. */
  ghost predicate Lists(names: seq<string>, latest: seq<Run>, x: Fault) {
    Orders.Ascending(names) && forall n :: n in names <==> exists r :: r in latest && r.name == n && Has(r, x)
  }

  ghost predicate Unreported(latest: seq<Run>, n: string) { forall r :: r in latest ==> r.name != n }

  /** The entries of `req` that no run reports, each as often as it is listed and in that order; `ks` says which. */
  ghost predicate Unanswered(names: seq<string>, latest: seq<Run>, req: seq<string>, ks: seq<nat>) {
    && |ks| == |names| && (forall i, j :: 0 <= i < j < |ks| ==> ks[i] < ks[j])
    && (forall i :: 0 <= i < |ks| ==> ks[i] < |req| && names[i] == req[ks[i]] && Unreported(latest, names[i]))
    && forall k: nat :: k < |req| && Unreported(latest, req[k]) ==> k in ks
  }

  /** A verdict that is right about the runs, and the first that is. */
  ghost predicate Deserved(latest: seq<Run>, req: seq<string>, v: Verdict) {
    match v
    case Failed(names) => AnyRun(latest, Fails) && Lists(names, latest, Fails)
    case Pending(names) => !AnyRun(latest, Fails) && (latest == [] || AnyRun(latest, Waits)) && Lists(names, latest, Waits)
    case Skipped(names) =>
      !AnyRun(latest, Fails) && !AnyRun(latest, Waits) && latest != [] && AnyRun(latest, Idles(req)) && Lists(names, latest, Idles(req))
    case Missing(names) =>
      && !AnyRun(latest, Fails) && !AnyRun(latest, Waits) && latest != [] && !AnyRun(latest, Idles(req))
      && names != [] && exists ks :: Unanswered(names, latest, req, ks)
    case Green =>
      && !AnyRun(latest, Fails) && !AnyRun(latest, Waits) && latest != [] && !AnyRun(latest, Idles(req))
      && forall n :: n in req ==> !Unreported(latest, n)
  }

  lemma ListsUnique(a: seq<string>, b: seq<string>, latest: seq<Run>, x: Fault)
    requires Lists(a, latest, x) && Lists(b, latest, x)
    ensures a == b
  {
    Orders.AscendingUnique(a, b);
  }

  lemma ListsSet(s: set<string>, latest: seq<Run>, x: Fault)
    requires forall n :: n in s <==> exists r :: r in latest && r.name == n && Has(r, x)
    ensures Lists(Orders.SortedSet(s), latest, x)
    ensures s != {} <==> AnyRun(latest, x)
  {
    Orders.SortedSetAscending(s);
    Orders.SortedSetElements(s);
    if r :| r in latest && Has(r, x) { assert r.name in s; }
    if s != {} { var n :| n in s; }
  }

  lemma {:induction false} AbsentAnswers(latest: seq<Run>, req: seq<string>) returns (ks: seq<nat>)
    ensures Unanswered(Absent(latest, req), latest, req, ks)
  {
    hide *;
    if req == [] {
      NoAnswers(latest, req);
      return [];
    }
    var n, init := req[|req| - 1], req[..|req| - 1];
    ks := AbsentAnswers(latest, init);
    NextAnswer(Absent(latest, init), latest, init, n, ks);
    AbsentStep(latest, req);
    if Unreported(latest, n) { ks := ks + [|init|]; }
  }

  lemma NoAnswers(latest: seq<Run>, req: seq<string>)
    requires req == []
    ensures Unanswered(Absent(latest, req), latest, req, [])
  {
  }

  lemma AbsentStep(latest: seq<Run>, req: seq<string>)
    requires req != []
    ensures var n, init := req[|req| - 1], req[..|req| - 1];
            && req == init + [n]
            && Absent(latest, req) == if Unreported(latest, n) then Absent(latest, init) + [n] else Absent(latest, init)
  {
    assert req[|req| - 1] in Names(latest) <==> !Unreported(latest, req[|req| - 1]);
    hide Unreported, Names;
    assert Absent(latest, req[..|req| - 1]) + [] == Absent(latest, req[..|req| - 1]);
  }

  lemma NextAnswer(names: seq<string>, latest: seq<Run>, req: seq<string>, n: string, ks: seq<nat>)
    requires Unanswered(names, latest, req, ks)
    ensures if Unreported(latest, n) then Unanswered(names + [n], latest, req + [n], ks + [|req|])
            else Unanswered(names, latest, req + [n], ks)
  {
    hide Unreported;
    var all, js, ns := req + [n], ks + [|req|], names + [n];
    forall k | 0 <= k < |req| ensures all[k] == req[k] {}
    if Unreported(latest, n) {
      forall i | 0 <= i < |js| ensures js[i] < |all| && ns[i] == all[js[i]] && Unreported(latest, ns[i]) {
        assert i < |ks| ==> js[i] == ks[i] && ns[i] == names[i];
      }
      forall k: nat | k < |all| && Unreported(latest, all[k]) ensures k in js {
        assert js[|ks|] == |req|;
        if k < |req| { assert k in ks; }
      }
    }
  }

  lemma {:induction false} UnansweredIs(names: seq<string>, latest: seq<Run>, req: seq<string>, ks: seq<nat>)
    requires Unanswered(names, latest, req, ks)
    ensures names == Absent(latest, req)
    decreases |req|
  {
    if req != [] {
      var n, init, m := |req| - 1, req[..|req| - 1], |ks| - 1;
      assert req[n] in Names(latest) <==> !Unreported(latest, req[n]);
      LastAnswer(names, latest, req, ks);
      hide Unanswered, Names;
      if ks != [] && ks[m] == n {
        UnansweredIs(names[..m], latest, init, ks[..m]);
      } else {
        UnansweredIs(names, latest, init, ks);
        assert Absent(latest, init) + [] == Absent(latest, init);
      }
    } else {
      NothingAnswers(names, latest, ks);
    }
  }

  lemma NothingAnswers(names: seq<string>, latest: seq<Run>, ks: seq<nat>)
    ensures Unanswered(names, latest, [], ks) ==> names == []
  {
    if Unanswered(names, latest, [], ks) { NoneBelow(ks, 0); }
  }

  lemma NoneBelow(ks: seq<nat>, n: nat)
    requires forall i :: 0 <= i < |ks| ==> ks[i] < n
    ensures n == 0 ==> ks == []
  {
    if ks != [] { assert ks[0] < n; }
  }

  lemma LastAnswer(names: seq<string>, latest: seq<Run>, req: seq<string>, ks: seq<nat>)
    requires Unanswered(names, latest, req, ks) && req != []
    ensures var n, init, m := |req| - 1, req[..|req| - 1], |ks| - 1;
            if ks != [] && ks[m] == n then
              |names| == |ks| && names == names[..m] + [req[n]] && Unreported(latest, req[n]) && Unanswered(names[..m], latest, init, ks[..m])
            else !Unreported(latest, req[n]) && Unanswered(names, latest, init, ks)
  {
    hide Unanswered;
    if ks != [] && ks[|ks| - 1] == |req| - 1 {
      LastUnanswered(names, latest, req, ks);
    } else {
      LastReported(names, latest, req, ks);
    }
  }

  lemma LastUnanswered(names: seq<string>, latest: seq<Run>, req: seq<string>, ks: seq<nat>)
    requires Unanswered(names, latest, req, ks) && req != [] && ks != [] && ks[|ks| - 1] == |req| - 1
    ensures var n, init, m := |req| - 1, req[..|req| - 1], |ks| - 1;
            |names| == |ks| && names == names[..m] + [req[n]] && Unreported(latest, req[n]) && Unanswered(names[..m], latest, init, ks[..m])
  {
    var n, init, m := |req| - 1, req[..|req| - 1], |ks| - 1;
    hide Unreported;
    var before, at := names[..m], ks[..m];
    forall i | 0 <= i < m ensures at[i] < n && before[i] == init[at[i]] && Unreported(latest, before[i]) {
      assert ks[i] < ks[m] && names[i] == req[ks[i]];
    }
    forall k: nat | k < n && Unreported(latest, init[k]) ensures k in at { FoundBefore(ks, k); }
    assert names == before + [names[m]];
  }

  lemma FoundBefore(ks: seq<nat>, k: nat)
    requires k in ks && k != ks[|ks| - 1]
    ensures k in ks[..|ks| - 1]
  {
    var i :| 0 <= i < |ks| && ks[i] == k;
    assert ks[..|ks| - 1][i] == k;
  }

  lemma LastReported(names: seq<string>, latest: seq<Run>, req: seq<string>, ks: seq<nat>)
    requires Unanswered(names, latest, req, ks) && req != [] && (ks == [] || ks[|ks| - 1] != |req| - 1)
    ensures !Unreported(latest, req[|req| - 1]) && Unanswered(names, latest, req[..|req| - 1], ks)
  {
    var n, init := |req| - 1, req[..|req| - 1];
    hide Unreported;
    forall k | 0 <= k < n ensures init[k] == req[k] {}
    NotLast(ks, n);
  }

  lemma NotLast(ks: seq<nat>, n: nat)
    requires (forall i, j :: 0 <= i < j < |ks| ==> ks[i] < ks[j]) && forall i :: 0 <= i < |ks| ==> ks[i] <= n
    ensures n in ks ==> ks[|ks| - 1] == n
  {
  }

  /** The verdict is deserved, and no other is. */
  lemma JudgeDeserved(latest: seq<Run>, req: seq<string>, v: Verdict)
    ensures Deserved(latest, req, v) <==> v == Judge(latest, req)
  {
    JudgeCases(latest, req);
    hide Judge, Lists, AnyRun, Unanswered;
    var w := Judge(latest, req);
    if Deserved(latest, req, v) {
      if v.Failed? && w.Failed? { ListsUnique(v.names, w.names, latest, Fails); }
      if v.Pending? && w.Pending? { ListsUnique(v.names, w.names, latest, Waits); }
      if v.Skipped? && w.Skipped? { ListsUnique(v.names, w.names, latest, Idles(req)); }
      if v.Missing? {
        var ks :| Unanswered(v.names, latest, req, ks);
        UnansweredIs(v.names, latest, req, ks);
      }
      if w.Missing? {
        var ls :| Unanswered(w.names, latest, req, ls);
        UnansweredIs(w.names, latest, req, ls);
      }
    }
  }

  lemma FailedIs(latest: seq<Run>)
    ensures Lists(Orders.SortedSet(FailedNames(latest)), latest, Fails) && (FailedNames(latest) != {} <==> AnyRun(latest, Fails))
  {
    ListsSet(FailedNames(latest), latest, Fails);
  }

  lemma PendingIs(latest: seq<Run>)
    ensures Lists(Orders.SortedSet(PendingNames(latest)), latest, Waits) && (PendingNames(latest) != {} <==> AnyRun(latest, Waits))
  {
    ListsSet(PendingNames(latest), latest, Waits);
  }

  lemma SkippedIs(latest: seq<Run>, req: seq<string>)
    ensures Lists(Orders.SortedSet(SkippedNames(latest, req)), latest, Idles(req))
    ensures SkippedNames(latest, req) != {} <==> AnyRun(latest, Idles(req))
  {
    ListsSet(SkippedNames(latest, req), latest, Idles(req));
  }

  lemma JudgeCases(latest: seq<Run>, req: seq<string>)
    ensures Deserved(latest, req, Judge(latest, req))
    ensures Absent(latest, req) == [] <==> forall n :: n in req ==> !Unreported(latest, n)
  {
    hide Lists, Unanswered, FailedNames, PendingNames, SkippedNames, Absent, Unreported, AnyRun, Orders.SortedSet;
    FailedIs(latest);
    PendingIs(latest);
    SkippedIs(latest, req);
    var ks := AbsentAnswers(latest, req);
    AbsentNone(latest, req);
    if latest == [] { NoRuns(); }
  }

  lemma NoRuns()
    ensures FailedNames([]) == {} && PendingNames([]) == {} && Lists([], [], Waits) && !AnyRun([], Fails)
  {
  }

  lemma AbsentNone(latest: seq<Run>, req: seq<string>)
    ensures Absent(latest, req) == [] <==> forall n :: n in req ==> !Unreported(latest, n)
  {
    forall n ensures n in Absent(latest, req) <==> n in req && Unreported(latest, n) {
      AbsentMembers(latest, req, n);
      assert n in Names(latest) <==> !Unreported(latest, n);
    }
    if Absent(latest, req) != [] { assert Absent(latest, req)[0] in Absent(latest, req); }
  }

  method CiAbsent(latest: seq<Run>, req: seq<string>) returns (out: seq<string>)
    ensures out == Absent(latest, req)
  {
    out := [];
    for i := 0 to |req|
      invariant out == Absent(latest, req[..i])
    {
      assert req[..i + 1][..i] == req[..i];
      var seen := CiSeen(latest, req[i]);
      if !seen { out := out + [req[i]]; }
    }
    assert req[..|req|] == req;
  }

  method CiSeen(latest: seq<Run>, name: string) returns (seen: bool)
    ensures seen <==> name in Names(latest)
  {
    for i := 0 to |latest|
      invariant forall k :: 0 <= k < i ==> latest[k].name != name
    {
      if latest[i].name == name { return true; }
    }
    return false;
  }

  /** `uniqueSorted`: sorted, then adjacent duplicates dropped. */
  method UniqueSorted(names: seq<string>) returns (out: seq<string>)
    ensures out == Orders.SortedSet(set n | n in names)
  {
    ghost var s := set n | n in names;
    var sorted := StableSort.Sort(names, Orders.Compare);
    SortedNames(names);
    out := DropRepeats(sorted);
    Orders.SortedSetAscending(s);
    Orders.SortedSetElements(s);
    Orders.AscendingUnique(out, Orders.SortedSet(s));
  }

  lemma SortedNames(names: seq<string>)
    ensures StableSort.Sorted(StableSort.Sort(names, Orders.Compare), Orders.Compare)
    ensures forall n :: n in StableSort.Sort(names, Orders.Compare) <==> n in names
  {
    Orders.CompareIsTotalOrder();
    StableSort.SortSorted(names, Orders.Compare);
    StableSort.SortPermutes(names, Orders.Compare);
    StableSort.MultisetMember(StableSort.Sort(names, Orders.Compare), names);
  }

  method DropRepeats(sorted: seq<string>) returns (out: seq<string>)
    requires StableSort.Sorted(sorted, Orders.Compare)
    ensures Orders.Ascending(out) && forall n :: n in out <==> n in sorted
  {
    out := [];
    for i := 0 to |sorted|
      invariant forall n :: n in out <==> n in sorted[..i]
      invariant Orders.Ascending(out)
      invariant if i == 0 then out == [] else out != [] && out[|out| - 1] == sorted[i - 1]
    {
      assert sorted[..i + 1] == sorted[..i] + [sorted[i]];
      if i == 0 || sorted[i] != sorted[i - 1] {
        assert i > 0 ==> Orders.Compare(sorted[i - 1], sorted[i]) <= 0;
        if i > 0 { Orders.CompareEqual(sorted[i - 1], sorted[i]); }
        AscendingSnoc(out, sorted[i]);
        out := out + [sorted[i]];
      }
    }
    assert sorted[..|sorted|] == sorted;
  }

  lemma AscendingSnoc(out: seq<string>, n: string)
    requires Orders.Ascending(out) && (out != [] ==> Orders.Compare(out[|out| - 1], n) < 0)
    ensures Orders.Ascending(out + [n])
  {
    forall i | 0 <= i < |out| ensures Orders.Compare(out[i], n) < 0 {
      if i < |out| - 1 { Orders.StringsChain(out[i], out[|out| - 1], n); }
    }
  }

  /** The one verdict the runs deserve. */
  method CiVerdict(latest: seq<Run>, req: seq<string>) returns (v: Verdict)
    ensures v == Judge(latest, req)
    ensures forall w :: Deserved(latest, req, w) <==> w == v
  {
    forall w ensures Deserved(latest, req, w) <==> w == Judge(latest, req) { JudgeDeserved(latest, req, w); }
    hide Deserved;
    var failed, pending, skipped: seq<string> := [], [], [];
    for i := 0 to |latest|
      invariant (set n | n in failed) == FailedNames(latest[..i])
      invariant (set n | n in pending) == PendingNames(latest[..i])
      invariant (set n | n in skipped) == SkippedNames(latest[..i], req)
    {
      var r := latest[i];
      assert latest[..i + 1] == latest[..i] + [r];
      NamesGrow(latest[..i], r, req);
      if r.status != "completed" {
        pending := pending + [r.name];
      } else if !r.conclusion.Str? || r.conclusion.s !in {"success", "skipped", "neutral"} {
        failed := failed + [r.name];
      } else if r.conclusion.s != "success" && r.name in req {
        skipped := skipped + [r.name];
      }
    }
    assert latest[..|latest|] == latest;
    if |failed| > 0 {
      assert failed[0] in FailedNames(latest);
      var names := UniqueSorted(failed);
      return Failed(names);
    }
    if |pending| > 0 {
      assert pending[0] in PendingNames(latest);
      var names := UniqueSorted(pending);
      return Pending(names);
    }
    if |latest| == 0 { return Pending([]); }
    if |skipped| > 0 {
      assert skipped[0] in SkippedNames(latest, req);
      var names := UniqueSorted(skipped);
      return Skipped(names);
    }
    var missing := CiAbsent(latest, req);
    v := if |missing| > 0 then Missing(missing) else Green;
  }

  lemma NamesGrow(p: seq<Run>, r: Run, req: seq<string>)
    ensures FailedNames(p + [r]) == FailedNames(p) + (if Completed(r) && !Passed(r) then {r.name} else {})
    ensures PendingNames(p + [r]) == PendingNames(p) + (if !Completed(r) then {r.name} else {})
    ensures SkippedNames(p + [r], req) == SkippedNames(p, req) + (if Passed(r) && !Succeeded(r) && r.name in req then {r.name} else {})
  {
  }

  // ---- Path filters: did a required check have no reason to run? ----

  /** What the workflow scanner reports of one file for one check name. */
  datatype PfScan = PfScan(pats: seq<string>, job: bool, pr: bool, ignored: bool, flow: bool, other: string, unsup: string)

  /** The repository as the evaluation sees it: the workflow files of a tree, and the scan of one of them for a check
      (None when the file cannot be read). */
  datatype Repo = Repo(workflows: string -> seq<string>, scan: (string, string, string) -> Option<PfScan>)

  datatype PfResult = Skip(wfs: seq<string>) | RunIt | Unknown | NoAnswer

  /** What one workflow says about the check. */
  datatype Carrier = NotCarrier | Skips | Runs | Undecided

  predicate Hits(pat: string, files: seq<string>) { exists f :: f in files && Match(GlobRE(pat), f) }

  /** An empty pattern line is ignored; the others hit a changed file, miss them all, or are not supported. */
  predicate Hitting(pat: string, files: seq<string>) { pat != "" && PatOK(pat) && Hits(pat, files) }

  predicate Unsupported(pat: string) { pat != "" && !PatOK(pat) }

  function JudgeWorkflow(sc: Option<PfScan>, files: seq<string>): Carrier {
    if sc.None? || sc.value.unsup != "" then Undecided
    else if !sc.value.job then NotCarrier
    else if sc.value.other != "" || !sc.value.pr || sc.value.ignored || sc.value.flow then Undecided
    else JudgePatterns(sc.value.pats, files)
  }

  function JudgePatterns(pats: seq<string>, files: seq<string>): Carrier {
    if forall p :: p in pats ==> p == "" then Runs
    else if exists p :: p in pats && Hitting(p, files) then Runs
    else if exists p :: p in pats && Unsupported(p) then Undecided
    else Skips
  }

  function Judgement(repo: Repo, tree: string, chk: string, files: seq<string>, wf: string): Carrier {
    JudgeWorkflow(repo.scan(tree, wf, chk), files)
  }

  datatype Tally = Tally(anyRun: bool, skipped: seq<string>)

  /** The workflow loop over one tree: it ends, undecided, with the first workflow that is. */
  function TallyOf(repo: Repo, tree: string, chk: string, files: seq<string>, wfs: seq<string>): Option<Tally> {
    if wfs == [] then Some(Tally(false, []))
    else
      var wf := wfs[|wfs| - 1];
      match TallyOf(repo, tree, chk, files, wfs[..|wfs| - 1])
      case None => None
      case Some(t) =>
        match Judgement(repo, tree, chk, files, wf)
        case NotCarrier => Some(t)
        case Runs => Some(t.(anyRun := true))
        case Skips => Some(t.(skipped := t.skipped + [wf]))
        case Undecided => None
  }

  /** One tree: the check is skipped only when some workflow carries it and every one that does skips it. */
  function TreeResult(repo: Repo, tree: string, chk: string, files: seq<string>): PfResult {
    match TallyOf(repo, tree, chk, files, repo.workflows(tree))
    case None => Unknown
    case Some(t) => if t.anyRun then RunIt else if t.skipped == [] then Unknown else Skip(t.skipped)
  }

  lemma {:induction false} TallyMeaning(repo: Repo, tree: string, chk: string, files: seq<string>, wfs: seq<string>)
    ensures var t := TallyOf(repo, tree, chk, files, wfs);
            && (t.Some? <==> forall wf :: wf in wfs ==> !Judgement(repo, tree, chk, files, wf).Undecided?)
            && (t.Some? ==> (t.value.anyRun <==> exists wf :: wf in wfs && Judgement(repo, tree, chk, files, wf).Runs?))
            && (t.Some? ==> forall wf :: wf in t.value.skipped <==> wf in wfs && Judgement(repo, tree, chk, files, wf).Skips?)
  {
    if wfs != [] {
      TallyMeaning(repo, tree, chk, files, wfs[..|wfs| - 1]);
      var wf := wfs[|wfs| - 1];
      assert wfs == wfs[..|wfs| - 1] + [wf];
      assert forall x :: x in wfs <==> x in wfs[..|wfs| - 1] || x == wf;
    }
  }

  lemma {:induction false} TallyStuck(repo: Repo, tree: string, chk: string, files: seq<string>, wfs: seq<string>, i: nat)
    requires i <= |wfs| && TallyOf(repo, tree, chk, files, wfs[..i]).None?
    ensures TallyOf(repo, tree, chk, files, wfs).None?
    decreases |wfs|
  {
    if i < |wfs| {
      assert wfs[..|wfs| - 1][..i] == wfs[..i];
      TallyStuck(repo, tree, chk, files, wfs[..|wfs| - 1], i);
    } else {
      assert wfs[..i] == wfs;
    }
  }

  method AnyLine(pat: string, files: seq<string>) returns (hit: bool)
    ensures hit <==> Hits(pat, files)
  {
    for i := 0 to |files|
      invariant forall k :: 0 <= k < i ==> !Match(GlobRE(pat), files[k])
    {
      if Match(GlobRE(pat), files[i]) { return true; }
    }
    return false;
  }

  /** What one pattern line says. */
  method ScanPattern(pat: string, files: seq<string>) returns (hit: bool, bad: bool)
    ensures hit <==> Hitting(pat, files)
    ensures bad <==> Unsupported(pat)
  {
    hit, bad := false, false;
    if pat == "" { return; }
    if !PatOK(pat) { return false, true; }
    hit := AnyLine(pat, files);
  }

  /** The pattern loop of one carrier: it stops at the first hit and remembers an unsupported pattern. */
  method ScanPatterns(pats: seq<string>, files: seq<string>) returns (hit: bool, bad: bool)
    ensures hit <==> exists p :: p in pats && Hitting(p, files)
    ensures !hit ==> (bad <==> exists p :: p in pats && Unsupported(p))
  {
    hide PatOK, Hits;
    bad := false;
    for i := 0 to |pats|
      invariant forall k :: 0 <= k < i ==> !Hitting(pats[k], files)
      invariant bad <==> exists k :: 0 <= k < i && Unsupported(pats[k])
    {
      var h, b := ScanPattern(pats[i], files);
      if h { return true, bad; }
      bad := bad || b;
    }
    return false, bad;
  }

  method JudgeFile(sc: Option<PfScan>, files: seq<string>) returns (c: Carrier)
    ensures c == JudgeWorkflow(sc, files)
  {
    if sc.None? || sc.value.unsup != "" { return Undecided; }
    if !sc.value.job { return NotCarrier; }
    if sc.value.other != "" || !sc.value.pr || sc.value.ignored || sc.value.flow { return Undecided; }
    if forall p :: p in sc.value.pats ==> p == "" { return Runs; }
    var hit, bad := ScanPatterns(sc.value.pats, files);
    c := if hit then Runs else if bad then Undecided else Skips;
  }

  method PfTree(repo: Repo, tree: string, chk: string, files: seq<string>) returns (r: PfResult)
    ensures r == TreeResult(repo, tree, chk, files)
  {
    hide JudgeWorkflow;
    var wfs := repo.workflows(tree);
    if wfs == [] { return Unknown; }
    var carriers, anyRun := 0, false;
    var skipped: seq<string> := [];
    for i := 0 to |wfs|
      invariant TallyOf(repo, tree, chk, files, wfs[..i]) == Some(Tally(anyRun, skipped))
      invariant carriers >= 0 && (carriers == 0 <==> !anyRun && skipped == [])
    {
      assert wfs[..i + 1][..i] == wfs[..i];
      var c := JudgeFile(repo.scan(tree, wfs[i], chk), files);
      match c {
        case NotCarrier =>
        case Undecided =>
          TallyStuck(repo, tree, chk, files, wfs, i + 1);
          return Unknown;
        case Runs => carriers, anyRun := carriers + 1, true;
        case Skips => carriers, skipped := carriers + 1, skipped + [wfs[i]];
      }
    }
    assert wfs[..|wfs|] == wfs;
    if carriers == 0 { return Unknown; }
    if anyRun { return RunIt; }
    return Skip(skipped);
  }

  predicate TouchesWorkflows(files: seq<string>) { exists f :: f in files && HasPrefix(f, ".github/workflows/") }

  /** Both trees must skip: a change that narrows its own filters cannot exempt itself. */
  function Evaluate(repo: Repo, head: string, base: Option<string>, chk: string, files: seq<string>): PfResult {
    if TouchesWorkflows(files) then Unknown
    else
      var h := TreeResult(repo, head, chk, files);
      if !h.Skip? then h
      else if base.None? then NoAnswer
      else
        var b := TreeResult(repo, base.value, chk, files);
        if b.Skip? then h else b
  }

  method PfEval(repo: Repo, head: string, base: Option<string>, chk: string, files: seq<string>) returns (r: PfResult)
    ensures r == Evaluate(repo, head, base, chk, files)
  {
    for i := 0 to |files|
      invariant forall k :: 0 <= k < i ==> !HasPrefix(files[k], ".github/workflows/")
    {
      if HasPrefix(files[i], ".github/workflows/") { return Unknown; }
    }
    var h := PfTree(repo, head, chk, files);
    if !h.Skip? { return h; }
    if base.None? { return NoAnswer; }
    var b := PfTree(repo, base.value, chk, files);
    if !b.Skip? { return b; }
    return h;
  }

  /** A workflow that skips with reason: it runs on pull requests only, filters by paths, and lists only supported
      patterns, none of which means one of the files. */
  ghost predicate RightlySkips(sc: PfScan, files: seq<string>) {
    && sc.pr && sc.other == "" && !sc.ignored && !sc.flow
    && (exists p :: p in sc.pats && p != "")
    && (forall p, f :: p in sc.pats && p != "" && f in files ==> PatOK(p) && !Match(Glob(p), f))
  }

  /** The check is skipped in `tree` with reason: every workflow could be read and parsed, some carry the check, and
      every one that does skips it with reason. */
  ghost predicate FilteredOut(repo: Repo, tree: string, chk: string, files: seq<string>) {
    && (exists wf :: wf in repo.workflows(tree) && Carries(repo, tree, chk, wf))
    && (forall wf :: wf in repo.workflows(tree) ==>
          && repo.scan(tree, wf, chk).Some? && repo.scan(tree, wf, chk).value.unsup == ""
          && (Carries(repo, tree, chk, wf) ==> RightlySkips(repo.scan(tree, wf, chk).value, files)))
  }

  ghost predicate Carries(repo: Repo, tree: string, chk: string, wf: string) {
    repo.scan(tree, wf, chk).Some? && repo.scan(tree, wf, chk).value.job
  }

  /** A tree that skips on the lines of a listing skips with reason for the names listed, when they all survive. */
  lemma TreeSkipSound(repo: Repo, tree: string, chk: string, names: seq<string>)
    requires TreeResult(repo, tree, chk, Lines(Listing(names))).Skip? && forall f :: f in names ==> Survives(f)
    ensures FilteredOut(repo, tree, chk, names)
  {
    hide Survives;
    var files := Lines(Listing(names));
    var wfs := repo.workflows(tree);
    var t := TallyOf(repo, tree, chk, files, wfs).value;
    TallyMeaning(repo, tree, chk, files, wfs);
    assert t.skipped[0] in t.skipped;
    assert Carries(repo, tree, chk, t.skipped[0]);
    forall wf | wf in wfs
      ensures repo.scan(tree, wf, chk).Some? && repo.scan(tree, wf, chk).value.unsup == ""
      ensures Carries(repo, tree, chk, wf) ==> RightlySkips(repo.scan(tree, wf, chk).value, names)
    {
      assert !Judgement(repo, tree, chk, files, wf).Undecided? && !Judgement(repo, tree, chk, files, wf).Runs?;
      if Carries(repo, tree, chk, wf) { SkipsSound(repo.scan(tree, wf, chk).value, names); }
    }
  }

  lemma SkipsSound(sc: PfScan, names: seq<string>)
    requires JudgeWorkflow(Some(sc), Lines(Listing(names))).Skips? && forall f :: f in names ==> Survives(f)
    ensures RightlySkips(sc, names)
  {
    hide Survives, PatOK, Match, Glob, GlobRE, Listing, Lines;
    var files := Lines(Listing(names));
    forall p, f | p in sc.pats && p != "" && f in names ensures PatOK(p) && !Match(Glob(p), f) {
      assert !Unsupported(p) && !Hitting(p, files);
      NotHit(p, names);
      if Match(Glob(p), f) { SurvivorIsHit(names, f, p); }
    }
  }

  lemma NotHit(p: string, names: seq<string>)
    requires !Hits(p, Lines(Listing(names)))
    ensures !Hit(p, names)
  {
  }

  // ---- The gate ----

  /** The pull request's changed files: unreadable, or the entries of the listing. */
  datatype PrFiles = Unreadable | Files(entries: seq<FileEntry>)
  {
    /** Their names. */
    function Names(): seq<string> { if Files? then NamesOf(entries) else [] }

    /** What is captured of them. */
    function Text(): string { Listing(Names()) }
  }

  const FILES_CAP := 3000

  /** Whether a required check without any run is taken out of the required set. */
  predicate Exempt(repo: Repo, head: string, base: Option<string>, pr: PrFiles, chk: string) {
    && pr.Files? && pr.Text() != "" && |pr.entries| < FILES_CAP
    && Evaluate(repo, head, base, chk, Lines(pr.Text())).Skip?
  }

  function RemoveAll(req: seq<string>, drop: seq<string>): seq<string> {
    if req == [] then []
    else RemoveAll(req[..|req| - 1], drop) + (if req[|req| - 1] in drop then [] else [req[|req| - 1]])
  }

  function Exempted(repo: Repo, head: string, base: Option<string>, pr: PrFiles, names: seq<string>): seq<string> {
    if names == [] then []
    else
      var chk := names[|names| - 1];
      Exempted(repo, head, base, pr, names[..|names| - 1]) + (if chk != "" && Exempt(repo, head, base, pr, chk) then [chk] else [])
  }

  /** What is still required after the exemption. The names without a run travel through a captured listing, one per
      line. */
  function Required(repo: Repo, head: string, base: Option<string>, pr: PrFiles, latest: seq<Run>, req: seq<string>): seq<string> {
    var listing := CmdSub(Join(Absent(latest, req), '\n'));
    if listing == "" then req else RemoveAll(req, Exempted(repo, head, base, pr, Lines(listing)))
  }

  method RemoveNames(req: seq<string>, drop: seq<string>) returns (out: seq<string>)
    ensures out == RemoveAll(req, drop)
  {
    out := [];
    for i := 0 to |req|
      invariant out == RemoveAll(req[..i], drop)
    {
      assert req[..i + 1][..i] == req[..i];
      var keep := true;
      for k := 0 to |drop|
        invariant keep <==> req[i] !in drop[..k]
      {
        if req[i] == drop[k] { keep := false; break; }
      }
      if keep { out := out + [req[i]]; }
    }
    assert req[..|req|] == req;
  }

  method CiGate(repo: Repo, head: string, base: Option<string>, pr: PrFiles, latest: seq<Run>, required: seq<string>)
    returns (v: Verdict)
    ensures v == Judge(latest, Required(repo, head, base, pr, latest, required))
  {
    var req := required;
    var missing := CiAbsent(latest, req);
    var absent := CmdSub(Join(missing, '\n'));
    if absent != "" {
      var skipped := ExemptNames(repo, head, base, pr, Lines(absent));
      if |skipped| > 0 { req := RemoveNames(req, skipped); } else { RemoveNothing(req); }
    }
    v := CiVerdict(latest, req);
  }

  /** The loop over the listed names. An unreadable file list ends it at the first name. */
  method ExemptNames(repo: Repo, head: string, base: Option<string>, pr: PrFiles, names: seq<string>) returns (skipped: seq<string>)
    ensures skipped == Exempted(repo, head, base, pr, names)
  {
    skipped := [];
    var text, count := "", 0;
    if pr.Files? { text, count := ListFiles(pr.entries); }
    for i := 0 to |names|
      invariant skipped == Exempted(repo, head, base, pr, names[..i])
    {
      assert names[..i + 1][..i] == names[..i];
      var chk := names[i];
      if chk == "" { continue; }
      if pr.Unreadable? {
        ExemptNothing(repo, head, base, pr, names);
        ExemptNothing(repo, head, base, pr, names[..i]);
        return;
      }
      var res := Unknown;
      if text != "" && count < FILES_CAP { res := PfEval(repo, head, base, chk, Lines(text)); }
      if res.Skip? { skipped := skipped + [chk]; }
    }
    assert names[..|names|] == names;
  }

  lemma {:induction false} ExemptNothing(repo: Repo, head: string, base: Option<string>, pr: PrFiles, names: seq<string>)
    requires pr.Unreadable?
    ensures Exempted(repo, head, base, pr, names) == []
  {
    if names != [] { ExemptNothing(repo, head, base, pr, names[..|names| - 1]); }
  }

  lemma {:induction false} RemoveNothing(req: seq<string>)
    ensures RemoveAll(req, []) == req
  {
    if req != [] {
      RemoveNothing(req[..|req| - 1]);
      assert req == req[..|req| - 1] + [req[|req| - 1]];
    }
  }

  lemma {:induction false} RemoveAllMembers(req: seq<string>, drop: seq<string>, n: string)
    ensures n in RemoveAll(req, drop) <==> n in req && n !in drop
  {
    if req != [] {
      RemoveAllMembers(req[..|req| - 1], drop, n);
      assert req == req[..|req| - 1] + [req[|req| - 1]];
    }
  }

  lemma {:induction false} ExemptedMembers(repo: Repo, head: string, base: Option<string>, pr: PrFiles, names: seq<string>, n: string)
    ensures n in Exempted(repo, head, base, pr, names) <==> n in names && n != "" && Exempt(repo, head, base, pr, n)
  {
    if names != [] {
      ExemptedMembers(repo, head, base, pr, names[..|names| - 1], n);
      assert names == names[..|names| - 1] + [names[|names| - 1]];
    }
  }

  /** A required name was taken out of the required set with reason: no changed file lies under the workflows directory,
      and with these changed files it is filtered out in the head tree and in the base tree. */
  ghost predicate RightlyExempt(repo: Repo, head: string, base: Option<string>, pr: PrFiles, chk: string) {
    && pr.Files? && |pr.entries| < FILES_CAP && base.Some?
    && !TouchesWorkflows(pr.Names())
    && FilteredOut(repo, head, chk, pr.Names())
    && FilteredOut(repo, base.value, chk, pr.Names())
  }

  /** If the gate lets a merge through, something ran, everything that ran passed, and every required name either ran and
      only succeeded, or never ran and is rightly exempt. */
  ghost predicate Sound(repo: Repo, head: string, base: Option<string>, pr: PrFiles, latest: seq<Run>, req: seq<string>) {
    Judge(latest, Required(repo, head, base, pr, latest, req)).Green? ==>
      && latest != [] && (forall r :: r in latest ==> Passed(r))
      && forall n :: n in req ==>
           || ((exists r :: r in latest && r.name == n) && forall r :: r in latest && r.name == n ==> Succeeded(r))
           || ((forall r :: r in latest ==> r.name != n) && RightlyExempt(repo, head, base, pr, n))
  }

  /** A name some line of which looks like a file under the workflows directory. */
  predicate Flagged(f: string) { exists l :: l in Lines(StripNul(f)) && HasPrefix(l, ".github/workflows/") }

  /** A name the listing does no harm to: it survives, or it stops every exemption. */
  predicate Harmless(f: string) { Survives(f) || Flagged(f) }

  /** The gate is sound for every pull request whose changed files have harmless names. Nothing is assumed of the check
      names: one that the line-by-line listing would tear apart can only keep the gate shut. */
  lemma GateIsSound(repo: Repo, head: string, base: Option<string>, pr: PrFiles, latest: seq<Run>, req: seq<string>)
    requires (forall n :: n in req ==> n != "") && forall f :: f in pr.Names() ==> Harmless(f)
    ensures Sound(repo, head, base, pr, latest, req)
  {
    hide Harmless;
    var left := Required(repo, head, base, pr, latest, req);
    if Judge(latest, left).Green? {
      GreenIff(latest, left);
      forall n | n in req
        ensures || ((exists r :: r in latest && r.name == n) && forall r :: r in latest && r.name == n ==> Succeeded(r))
                || ((forall r :: r in latest ==> r.name != n) && RightlyExempt(repo, head, base, pr, n))
      {
        if n !in left {
          AbsentAllExempt(repo, head, base, pr, latest, req);
          ExemptIsRight(repo, head, base, pr, n);
          AbsentMembers(latest, req, n);
          assert forall r :: r in latest ==> r.name in Names(latest);
        }
      }
    }
  }

  lemma ExemptIsRight(repo: Repo, head: string, base: Option<string>, pr: PrFiles, chk: string)
    requires Exempt(repo, head, base, pr, chk) && forall f :: f in pr.Names() ==> Harmless(f)
    ensures RightlyExempt(repo, head, base, pr, chk)
  {
    hide Survives, Flagged, FilteredOut, TreeResult;
    var names := pr.Names();
    forall f | f in names ensures Survives(f) && !HasPrefix(f, ".github/workflows/") { NotFlagged(names, f); }
    TreeSkipSound(repo, head, chk, names);
    TreeSkipSound(repo, base.value, chk, names);
  }

  /** What an exemption has seen of every name: neither it nor a line of it is under the workflows directory. */
  lemma NotFlagged(names: seq<string>, f: string)
    requires f in names && !TouchesWorkflows(Lines(Listing(names)))
    ensures !Flagged(f) && !HasPrefix(f, ".github/workflows/")
  {
    hide Listing, Lines, StripNul, HasPrefix;
    var k :| 0 <= k < |names| && names[k] == f;
    forall l | l in Lines(StripNul(f)) ensures !HasPrefix(l, ".github/workflows/") {
      PrefixedLine(l);
      if l != "" { LineListed(names, k, l); }
    }
    FirstLine(f);
  }

  lemma PrefixedLine(l: string)
    ensures HasPrefix(l, ".github/workflows/") ==> l != ""
  {
  }

  /** The first line of a name begins as the name does, as far as there is no newline or NUL. */
  lemma FirstLine(f: string)
    ensures HasPrefix(f, ".github/workflows/") ==>
              exists l :: l in Lines(StripNul(f)) && HasPrefix(l, ".github/workflows/")
  {
    var d := ".github/workflows/";
    if HasPrefix(f, d) {
      var rest := f[|d|..];
      assert f == d + rest;
      hide HasPrefix, Lines, StripNul;
      StripNulPrefix(d, rest);
      LinePrefix(d, StripNul(rest));
      assert Lines(StripNul(f))[0] in Lines(StripNul(f));
    }
  }

  lemma StripNulPrefix(d: string, rest: string)
    requires '\0' !in d
    ensures StripNul(d + rest) == d + StripNul(rest)
  {
    StripNulConcat(d, rest);
    StripNulFree(d);
  }

  lemma {:induction false} LinePrefix(d: string, rest: string)
    requires '\n' !in d
    ensures HasPrefix(Lines(d + rest)[0], d)
  {
    if d != [] {
      assert (d + rest)[0] == d[0] && (d + rest)[1..] == d[1..] + rest;
      LinePrefix(d[1..], rest);
      assert d == [d[0]] + d[1..];
    }
  }

  /** When the gate is green, exactly the names without a run were taken out, and each of them is exempt. */
  lemma AbsentAllExempt(repo: Repo, head: string, base: Option<string>, pr: PrFiles, latest: seq<Run>, req: seq<string>)
    requires forall n :: n in req ==> n != ""
    requires Judge(latest, Required(repo, head, base, pr, latest, req)).Green?
    ensures forall n :: n in req && n !in Required(repo, head, base, pr, latest, req) ==>
              n in Absent(latest, req) && Exempt(repo, head, base, pr, n)
  {
    var left, absent := Required(repo, head, base, pr, latest, req), Absent(latest, req);
    var listing := CmdSub(Join(absent, '\n'));
    var drop := Exempted(repo, head, base, pr, Lines(listing));
    GreenIff(latest, left);
    if absent != [] {
      forall i | 0 <= i < |absent| ensures absent[i] != "" && '\n' !in absent[i] && '\0' !in absent[i] {
        DroppedName(repo, head, base, pr, latest, req, absent[i]);
      }
      CapturedNames(absent);
      forall n | n in req && n !in left ensures n in absent && Exempt(repo, head, base, pr, n) {
        RemoveAllMembers(req, drop, n);
        ExemptedMembers(repo, head, base, pr, Lines(listing), n);
      }
    }
  }

  /** A name without a run can only have left the required set as one whole line of the listing. */
  lemma DroppedName(repo: Repo, head: string, base: Option<string>, pr: PrFiles, latest: seq<Run>, req: seq<string>, n: string)
    requires forall n :: n in req ==> n != ""
    requires Judge(latest, Required(repo, head, base, pr, latest, req)).Green?
    requires n in Absent(latest, req)
    ensures n != "" && '\n' !in n && '\0' !in n
  {
    var left := Required(repo, head, base, pr, latest, req);
    var listing := CmdSub(Join(Absent(latest, req), '\n'));
    GreenIff(latest, left);
    AbsentMembers(latest, req, n);
    assert forall r :: r in latest ==> r.name in Names(latest);
    assert n !in left;
    RemoveAllMembers(req, Exempted(repo, head, base, pr, Lines(listing)), n);
    ExemptedMembers(repo, head, base, pr, Lines(listing), n);
    CapturedLines(Absent(latest, req), n);
  }

  // ---- When the gate opens ----

  /** A name that its listing leaves as it is. */
  ghost predicate Clean(n: string) { n != "" && '\n' !in n && '\0' !in n }

  ghost predicate AllClean(names: seq<string>) { forall i :: 0 <= i < |names| ==> Clean(names[i]) }

  /** No workflow of the tree lists a pattern that spells the placeholder. */
  ghost predicate Plain(repo: Repo, tree: string, chk: string) {
    forall wf, p :: wf in repo.workflows(tree) && repo.scan(tree, wf, chk).Some? && p in repo.scan(tree, wf, chk).value.pats ==>
      !Contains(p, PLACEHOLDER)
  }

  lemma HitsExactly(p: string, files: seq<string>)
    requires PatOK(p) && !Contains(p, PLACEHOLDER)
    ensures Hits(p, files) <==> exists f :: f in files && Match(Glob(p), f)
  {
    GlobREExact(p);
    hide Match, GlobRE, Glob, PatOK, Contains;
  }

  /** A workflow skips exactly when it carries the check, can be read, and skips with reason. */
  lemma SkipsExactly(sc: PfScan, files: seq<string>)
    requires files != [] && forall p :: p in sc.pats ==> !Contains(p, PLACEHOLDER)
    ensures JudgeWorkflow(Some(sc), files).Skips? <==> sc.unsup == "" && sc.job && RightlySkips(sc, files)
  {
    hide PatOK, Match, Glob, GlobRE, Hits, Contains;
    forall p | p in sc.pats && p != "" && PatOK(p) ensures Hits(p, files) <==> exists f :: f in files && Match(Glob(p), f) {
      HitsExactly(p, files);
    }
    assert files[0] in files;
    assert forall p :: p in sc.pats && Unsupported(p) ==> p != "" && !PatOK(p);
  }

  lemma JudgementIs(repo: Repo, tree: string, chk: string, files: seq<string>, wf: string)
    requires Plain(repo, tree, chk) && wf in repo.workflows(tree) && files != []
    ensures var sc := repo.scan(tree, wf, chk);
            && (Judgement(repo, tree, chk, files, wf).Skips? <==>
                  Carries(repo, tree, chk, wf) && sc.value.unsup == "" && RightlySkips(sc.value, files))
            && (Judgement(repo, tree, chk, files, wf).NotCarrier? <==> sc.Some? && sc.value.unsup == "" && !sc.value.job)
  {
    hide RightlySkips, Contains, Hitting, Unsupported;
    if repo.scan(tree, wf, chk).Some? { SkipsExactly(repo.scan(tree, wf, chk).value, files); }
  }

  /** A tree skips the check exactly when the check is filtered out in it. */
  lemma TreeSkipsExactly(repo: Repo, tree: string, chk: string, files: seq<string>)
    requires Plain(repo, tree, chk) && files != []
    ensures TreeResult(repo, tree, chk, files).Skip? <==> FilteredOut(repo, tree, chk, files)
  {
    hide Judgement, RightlySkips, Plain;
    var wfs := repo.workflows(tree);
    forall wf | wf in wfs
      ensures var sc := repo.scan(tree, wf, chk);
              && (Judgement(repo, tree, chk, files, wf).Skips? <==>
                    Carries(repo, tree, chk, wf) && sc.value.unsup == "" && RightlySkips(sc.value, files))
              && (Judgement(repo, tree, chk, files, wf).NotCarrier? <==> sc.Some? && sc.value.unsup == "" && !sc.value.job)
    {
      JudgementIs(repo, tree, chk, files, wf);
    }
    TallyMeaning(repo, tree, chk, files, wfs);
    var t := TallyOf(repo, tree, chk, files, wfs);
    if t.Some? && t.value.skipped != [] { assert t.value.skipped[0] in t.value.skipped; }
    hide TallyOf;
    assert t.Some? ==> (t.value.skipped != [] <==> exists wf :: wf in wfs && Judgement(repo, tree, chk, files, wf).Skips?);
  }

  /** An exemption is granted exactly when it is right. */
  lemma ExemptExactly(repo: Repo, head: string, base: Option<string>, pr: PrFiles, chk: string)
    requires AllClean(pr.Names()) && Plain(repo, head, chk) && (base.Some? ==> Plain(repo, base.value, chk))
    ensures Exempt(repo, head, base, pr, chk) <==> pr.Names() != [] && RightlyExempt(repo, head, base, pr, chk)
  {
    hide TreeResult, FilteredOut, Plain, NamesOf, TouchesWorkflows;
    if pr.Files? {
      var names := pr.Names();
      if names == [] {
        assert pr.Text() == "" by { NoNames(); }
      } else {
        CapturedNames(names);
        TreeSkipsExactly(repo, head, chk, names);
        if base.Some? { TreeSkipsExactly(repo, base.value, chk, names); }
      }
    }
  }

  lemma NoNames()
    ensures Listing([]) == ""
  {
  }

  /** The gate opens exactly when something ran, everything that ran passed, and every required name either ran and only
      succeeded, or never ran and is rightly exempt. */
  ghost predicate Open(repo: Repo, head: string, base: Option<string>, pr: PrFiles, latest: seq<Run>, req: seq<string>) {
    && latest != [] && (forall r :: r in latest ==> Passed(r))
    && forall n :: n in req ==>
         || ((exists r :: r in latest && r.name == n) && forall r :: r in latest && r.name == n ==> Succeeded(r))
         || ((forall r :: r in latest ==> r.name != n) && pr.Names() != [] && RightlyExempt(repo, head, base, pr, n))
  }

  /** With clean names, what stays required is what ran or is not rightly exempt. */
  lemma RequiredIs(repo: Repo, head: string, base: Option<string>, pr: PrFiles, latest: seq<Run>, req: seq<string>, n: string)
    requires AllClean(req) && AllClean(pr.Names())
    requires forall c :: c in req ==> Plain(repo, head, c) && (base.Some? ==> Plain(repo, base.value, c))
    ensures n in Required(repo, head, base, pr, latest, req) <==>
            n in req && (n in Names(latest) || pr.Names() == [] || !RightlyExempt(repo, head, base, pr, n))
  {
    hide RightlyExempt, Exempt, Plain;
    var absent := Absent(latest, req);
    AbsentMembers(latest, req, n);
    AbsentClean(latest, req);
    if n in req { ExemptExactly(repo, head, base, pr, n); }
    if absent == [] {
      assert CmdSub(Join(absent, '\n')) == "" by { NoNames(); }
    } else {
      CapturedNames(absent);
      RemoveAllMembers(req, Exempted(repo, head, base, pr, absent), n);
      ExemptedMembers(repo, head, base, pr, absent, n);
      if n in absent { CleanIsNamed(absent, n); }
    }
  }

  lemma CleanIsNamed(names: seq<string>, n: string)
    requires AllClean(names) && n in names
    ensures n != ""
  {
  }

  lemma AbsentClean(latest: seq<Run>, req: seq<string>)
    requires AllClean(req)
    ensures AllClean(Absent(latest, req))
  {
    var absent := Absent(latest, req);
    forall i | 0 <= i < |absent| ensures Clean(absent[i]) {
      AbsentMembers(latest, req, absent[i]);
      assert absent[i] in req;
    }
  }

  /** The gate opens when it should: on clean names and plain patterns its verdict is exactly this. */
  lemma GateOpensExactly(repo: Repo, head: string, base: Option<string>, pr: PrFiles, latest: seq<Run>, req: seq<string>)
    requires AllClean(req) && AllClean(pr.Names())
    requires forall c :: c in req ==> Plain(repo, head, c) && (base.Some? ==> Plain(repo, base.value, c))
    ensures Judge(latest, Required(repo, head, base, pr, latest, req)).Green? <==> Open(repo, head, base, pr, latest, req)
  {
    hide RightlyExempt, Plain, Required;
    var left := Required(repo, head, base, pr, latest, req);
    GreenIff(latest, left);
    hide Judge;
    forall n ensures n in left <==> n in req && (n in Names(latest) || pr.Names() == [] || !RightlyExempt(repo, head, base, pr, n)) {
      RequiredIs(repo, head, base, pr, latest, req, n);
    }
    assert forall n :: n in Names(latest) <==> exists r :: r in latest && r.name == n;
    assert forall r :: Succeeded(r) ==> Passed(r);
  }

  // ---- Names the listing tears apart ----

  /** One workflow, the same in every tree, with a single job and a single pattern. */
  function OneWorkflow(p: string): Repo {
    Repo(_ => ["w.yml"], (_, _, _) => Some(PfScan([p], true, true, false, false, "", "")))
  }

  /** A run that passed. */
  function OneRun(): seq<Run> { [Run("other", "completed", Str("success"), Null, Null, 1.0)] }

  function Entries(names: seq<string>): seq<FileEntry> { seq(|names|, i requires 0 <= i < |names| => FileEntry(names[i], None)) }

  lemma {:induction false} EntryNames(names: seq<string>)
    ensures NamesOf(Entries(names)) == names
  {
    if names != [] {
      var init := names[..|names| - 1];
      EntryNames(init);
      assert Entries(names)[..|names| - 1] == Entries(init);
      assert names == init + [names[|names| - 1]];
    }
  }

  /** A pattern that means a changed file and hits no line of the listing lets a required check be skipped wrongly. */
  lemma MissedIsUnsound(names: seq<string>, f: string, p: string)
    requires f in names && PatOK(p) && Match(Glob(p), f) && !Hit(p, names)
    requires Listing(names) != "" && |names| < FILES_CAP && !TouchesWorkflows(Lines(Listing(names)))
    ensures !Sound(OneWorkflow(p), "h", Some("b"), Files(Entries(names)), OneRun(), ["c"])
  {
    hide PatOK, Match, Glob, Survives, Listing, FilteredOut;
    var repo, pr, files := OneWorkflow(p), Files(Entries(names)), Lines(Listing(names));
    EntryNames(names);
    OneSkips(p, names, "h");
    OneSkips(p, names, "b");
    assert Exempt(repo, "h", Some("b"), pr, "c");
    OneRequired(repo, pr);
    NotFilteredOut(p, names, f);
    OneGreen(repo, pr);
  }

  /** A green verdict from which the check was taken without reason. */
  lemma OneGreen(repo: Repo, pr: PrFiles)
    requires Required(repo, "h", Some("b"), pr, OneRun(), ["c"]) == [] && !FilteredOut(repo, "h", "c", pr.Names())
    ensures !Sound(repo, "h", Some("b"), pr, OneRun(), ["c"])
  {
    hide Required, FilteredOut;
    GreenIff(OneRun(), []);
    assert Judge(OneRun(), Required(repo, "h", Some("b"), pr, OneRun(), ["c"])).Green?;
    assert "c" in ["c"] && !RightlyExempt(repo, "h", Some("b"), pr, "c");
    assert forall r :: r in OneRun() ==> r.name == "other";
    assert "other" != "c" by { assert |"other"| != |"c"|; }
  }

  lemma OneSkips(p: string, names: seq<string>, tree: string)
    requires PatOK(p) && !Hit(p, names)
    ensures TreeResult(OneWorkflow(p), tree, "c", Lines(Listing(names))).Skip?
  {
    var repo, files := OneWorkflow(p), Lines(Listing(names));
    assert p != "";
    hide PatOK, Match, GlobRE, Listing, Lines;
    assert !Hitting(p, files) && !Unsupported(p);
    OneJudged(p, files);
    assert Judgement(repo, tree, "c", files, "w.yml") == Skips;
    assert ["w.yml"][..0] == [];
    assert TallyOf(repo, tree, "c", files, []) == Some(Tally(false, []));
  }

  lemma OneJudged(p: string, files: seq<string>)
    requires p != "" && !Hitting(p, files) && !Unsupported(p)
    ensures JudgePatterns([p], files) == Skips
  {
    hide Hitting, Unsupported;
    assert [p][0] in [p];
  }

  lemma NotFilteredOut(p: string, names: seq<string>, f: string)
    requires f in names && p != "" && Match(Glob(p), f)
    ensures !FilteredOut(OneWorkflow(p), "h", "c", names)
  {
    hide Match, Glob;
    var repo := OneWorkflow(p);
    assert "w.yml" in repo.workflows("h") && Carries(repo, "h", "c", "w.yml");
    assert p in repo.scan("h", "w.yml", "c").value.pats;
  }

  lemma OneRequired(repo: Repo, pr: PrFiles)
    requires Exempt(repo, "h", Some("b"), pr, "c")
    ensures Required(repo, "h", Some("b"), pr, OneRun(), ["c"]) == []
  {
    hide Exempt, CmdSub, Lines, Join, Absent;
    OneAbsent();
    ExemptedMembers(repo, "h", Some("b"), pr, ["c"], "c");
    assert ["c"][..0] == [] && "c" in ["c"];
    assert RemoveAll([], Exempted(repo, "h", Some("b"), pr, ["c"])) == [];
  }

  lemma OneAbsent()
    ensures Absent(OneRun(), ["c"]) == ["c"]
    ensures var listing := CmdSub(Join(["c"], '\n')); listing != "" && Lines(listing) == ["c"]
  {
    assert ["c"][..0] == [] && |"other"| != |"c"|;
    hide CmdSub, Join;
    CapturedNames(["c"]);
  }

  /** A name beside harmless others never makes the gate unsound. */
  ghost predicate GateSafe(f: string) {
    forall repo, head, base, pr: PrFiles, latest, req: seq<string> ::
      f in pr.Names() && (forall g :: g in pr.Names() && g != f ==> Harmless(g)) && (forall n :: n in req ==> n != "") ==>
        Sound(repo, head, base, pr, latest, req)
  }

  /** Exactly the harmless names. */
  lemma GateSafeExactly(f: string)
    ensures GateSafe(f) <==> Harmless(f)
  {
    hide Harmless, Sound;
    if Harmless(f) {
      forall repo, head, base, pr: PrFiles, latest, req: seq<string> |
        f in pr.Names() && (forall g :: g in pr.Names() && g != f ==> Harmless(g)) && (forall n :: n in req ==> n != "")
        ensures Sound(repo, head, base, pr, latest, req)
      {
        GateIsSound(repo, head, base, pr, latest, req);
      }
    } else {
      var names, p := HarmfulName(f);
      EntryNames(names);
      assert Files(Entries(names)).Names() == names;
    }
  }

  lemma HarmfulName(f: string) returns (names: seq<string>, p: string)
    requires !Harmless(f)
    ensures f in names && (forall g :: g in names && g != f ==> Harmless(g))
    ensures !Sound(OneWorkflow(p), "h", Some("b"), Files(Entries(names)), OneRun(), ["c"])
  {
    hide PatOK, Match, Glob, Hit, Sound, Listing, Named;
    var ls := Lines(StripNul(f));
    if i, j :| 0 <= i < j < |ls| && Named(ls[i]) && Named(ls[j]) {
      TornIsMissed(f, i, j);
      TornListing(f, i);
      names, p := [f], Woven(f);
    } else {
      BlankIsMissed(f);
      PlainIsHarmless();
      names, p := ["a/b", f], "*";
    }
    MissedIsUnsound(names, f, p);
  }

  lemma PlainIsHarmless()
    ensures Harmless("a/b") && !TouchesWorkflows(Lines("a/b"))
  {
    StripNulFree("a/b");
    SplitOne("a/b", '\n');
    assert Lines("a/b") == ["a/b"];
    assert ["a/b"][0] != "";
    assert Survives("a/b");
  }

  lemma TornListing(f: string, i: nat)
    requires var ls := Lines(StripNul(f)); i < |ls| && Named(ls[i]) && !Flagged(f)
    ensures Listing([f]) != "" && !TouchesWorkflows(Lines(Listing([f])))
  {
    var s := StripNul(f);
    hide StripNul, HasPrefix, TrimRight;
    LineListed([f], 0, Lines(s)[i]);
    assert Lines("") == [""];
    forall l | l in Lines(Listing([f])) ensures !HasPrefix(l, ".github/workflows/") { TrimKeepsLines(s, l); }
  }

  /** The shortest such input: one changed file named `x`, newline, `y`, and a workflow that lists the pattern `x*y`. */
  lemma NewlineName()
    ensures !Harmless("x\ny") && PatOK("x*y") && Match(Glob("x*y"), "x\ny")
    ensures !Sound(OneWorkflow("x*y"), "h", Some("b"), Files([FileEntry("x\ny", None)]), OneRun(), ["c"])
  {
    var f, p := "x\ny", "x*y";
    NewlineLines();
    NewlinePattern();
    assert !Hit(p, [f]);
    hide PatOK, Match, Glob, Hit, Sound, Listing;
    MissedIsUnsound([f], f, p);
    assert Entries([f]) == [FileEntry(f, None)];
  }

  lemma NewlineLines()
    ensures StripNul("x\ny") == "x\ny" && Lines("x\ny") == ["x", "y"] && Listing(["x\ny"]) == "x\ny"
    ensures !Harmless("x\ny") && !TouchesWorkflows(["x", "y"])
  {
    StripNulFree("x\ny");
    SplitOne("x", '\n');
    SplitOne("y", '\n');
    assert "x\ny" == "x" + (['\n'] + "y");
    SplitConcat("x", "y", '\n');
    assert Named("x") && Named("y") by { assert Nameable("x"[0]) && Nameable("y"[0]); }
    var ls := ["x", "y"];
    assert Lines("x\ny") == ls && Named(ls[0]) && Named(ls[1]);
    hide Named, Lines, StripNul;
    assert !Survives("x\ny");
    assert forall l :: l in ls ==> |l| == 1;
  }

  lemma NewlinePattern()
    ensures var p := "x*y"; PatOK(p) && Match(Glob(p), "x\ny") && !Match(GlobRE(p), "x") && !Match(GlobRE(p), "y")
  {
    var p := "x*y";
    assert p[1..] == "*y" && p[1..][1..] == "y" && p[1..][1..][1..] == "";
    assert !Contains(p, "**") && !Contains(p, PLACEHOLDER);
    GlobPieces(p);
    GlobREExact(p);
    assert Glob(p) == [Lit('x'), Star, Lit('y')];
    assert [Lit('x'), Star, Lit('y')][1..] == [Star, Lit('y')] && [Star, Lit('y')][1..] == [Lit('y')] && [Lit('y')][1..] == [];
    assert "x\ny"[1..] == "\ny" && "\ny"[1..] == "y" && "x"[1..] == "";
    assert Match([Lit('y')], "y");
    assert Match([Star, Lit('y')], "\ny");
  }
}
