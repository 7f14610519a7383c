/** The merge train: a batch of pull requests is gated once as one local head and then merged in order into a main branch
    that other writers may move between any two steps. */
module MergeTrain {
  import opened Wrappers
  import opened Sequences

  /** One commit on main: the merge of a pull request at some head, or anything else. */
  datatype Change = Merge(pr: string, head: string) | Foreign(id: nat)

  /** A commit of main is identified with its first-parent history, as a commit hash identifies it. */
  type Chain = seq<Change>

  /** The train worktree: the base commit and the pull-request heads merged onto it, in order. */
  datatype Local = Local(base: Chain, prs: seq<Change>)

  datatype PrView = PrView(state: string, draft: bool, baseName: string, head: string)

  datatype LocalMerge = Clean | Conflict | Broken

  datatype GateAnswer = Green | Red(rc: int) | LockTimeout | GateBroken(rc: int)

  /** Everything outside the train, as a function of time: main and its other writers, git, gh, the gate and the
      wait-and-merge step. Every history of the outside world is one such value. */
  datatype World = World(
    main: nat -> Chain,
    fetch: nat -> bool,
    view: (nat, string) -> Option<PrView>,
    prHead: (nat, string) -> Option<string>,
    cwdOK: (nat, string, string) -> bool,
    worktree: nat -> bool,
    merge: (nat, Local, Change) -> LocalMerge,
    gate: (nat, Local) -> GateAnswer,
    waitMerge: (nat, string, string) -> int,
    mainTree: Chain -> int,
    localTree: Local -> int)
  {
    /** What is assumed of the outside: main only grows, a pull request is merged at most once, one that is open has not
        been merged, and the wait answers 0 only once the pull request is on main at the gated head. */
    ghost predicate Honest() {
      && (forall s, t :: s <= t ==> main(s) <= main(t))
      && (forall t, i, j :: 0 <= i < j < |main(t)| && main(t)[i].Merge? && main(t)[j].Merge? ==> main(t)[i].pr != main(t)[j].pr)
      && (forall t, p :: view(t, p).Some? && view(t, p).value.state == "OPEN" ==> Unmerged(main(t), p))
      && (forall t: nat, p, h :: waitMerge(t, p, h) == 0 ==> Merge(p, h) in main(t + 1))
    }

    // What had gone wrong outside by some time.

    ghost predicate FetchFailed(now: nat) { exists t: nat :: t < now && !fetch(t) }

    ghost predicate WorktreeFailed(now: nat) { exists t: nat :: t < now && !worktree(t) }

    ghost predicate MergeBroke(now: nat) { exists t: nat, l, c :: t < now && merge(t, l, c) == Broken }

    ghost predicate GateBroke(now: nat) { exists t: nat, l :: t < now && gate(t, l).GateBroken? }

    ghost predicate LockedOut(now: nat, l: Local) { exists t: nat :: t < now && gate(t, l) == LockTimeout }

    ghost predicate Conflicted(now: nat, base: Chain, c: Change) {
      exists t: nat, prs :: t < now && merge(t, Local(base, prs), c) == Conflict
    }

    /** A pull request that had fitted did not fit again when the first of them were merged anew. */
    ghost predicate Misfitted(now: nat, base: Chain, cs: seq<Change>) {
      exists t: nat, i: nat :: t < now && i < |cs| && merge(t, Local(base, cs[..i]), cs[i]) != Clean
    }

    ghost predicate GateSaid(now: nat, g: Gated) {
      exists t: nat :: t < now && (if g.green then gate(t, g.what) == Green else gate(t, g.what).Red?)
    }
  }

  lemma StillMisfitted(w: World, now: nat, base: Chain, cs: seq<Change>, ds: seq<Change>)
    requires w.Misfitted(now, base, cs) && cs <= ds
    ensures w.Misfitted(now, base, ds)
  {
    var t: nat, i: nat :| t < now && i < |cs| && w.merge(t, Local(base, cs[..i]), cs[i]) != Clean;
    assert ds[..i] == cs[..i] && ds[i] == cs[i];
  }

  ghost predicate Unmerged(c: Chain, p: string) { forall h :: Merge(p, h) !in c }

  datatype Status =
    | Unset | Refused(why: string) | Dropped | Culprit | Merged(note: string) | Pending(note: string) | OutOfBand

  datatype End = End(code: int, state: string)

  /** One gate run: what was gated and whether it was green. */
  datatype Gated = Gated(what: Local, green: bool)

  function Lower(s: string): string {
    seq(|s|, i requires 0 <= i < |s| => if 'A' <= s[i] <= 'Z' then s[i] - 'A' + 'a' else s[i])
  }

  /** The pin is a prefix of the head, case aside. */
  predicate PinMatches(head: string, pin: string) { Lower(pin) <= Lower(head) }

  /** Why a pull request may not board the train at time `t`; empty when it may. The tests are in the order the code
      makes them. */
  function Refusal(w: World, t: nat, p: string, base: string, pin: map<string, string>, pcwd: map<string, string>): string {
    match w.view(t, p)
    case None => "gh-view-failed"
    case Some(v) =>
      if v.state != "OPEN" then "not-open"
      else if v.draft then "draft"
      else if v.baseName != base then "base-not-" + base
      else if v.head == "" then "no-head"
      else if p !in pin || pin[p] == "" then "rdd-unconfirmed"
      else if !PinMatches(v.head, pin[p]) then "rdd-head-mismatch"
      else if p in pcwd && pcwd[p] != "" && !w.cwdOK(t, p, pcwd[p]) then "pr-cwd-mismatch"
      else if w.prHead(t, p) != Some(v.head) then "head-moved"
      else ""
  }

  predicate SameLetter(a: char, b: char) { a == b || ('A' <= a <= 'Z' && b == a - 'A' + 'a') || ('A' <= b <= 'Z' && a == b - 'A' + 'a') }

  /** A pin matches when the head begins with it, letter by letter, case aside. */
  lemma PinIsPrefix(head: string, pin: string)
    ensures PinMatches(head, pin) <==> |pin| <= |head| && forall i :: 0 <= i < |pin| ==> SameLetter(pin[i], head[i])
  {
    var a, b := Lower(pin), Lower(head);
    if PinMatches(head, pin) {
      forall i | 0 <= i < |pin| ensures SameLetter(pin[i], head[i]) { assert a[i] == b[i]; }
    }
    if |pin| <= |head| && forall i :: 0 <= i < |pin| ==> SameLetter(pin[i], head[i]) {
      assert forall i :: 0 <= i < |pin| ==> a[i] == b[i];
    }
  }

  /** A pull request boards exactly when it is an open non-draft on the base, its head is known, confirmed by a pin and still
      the head of the branch, and the worktree given for it, if any, stands at that head. */
  lemma BoardsExactly(w: World, t: nat, p: string, base: string, pin: map<string, string>, pcwd: map<string, string>)
    ensures Refusal(w, t, p, base, pin, pcwd) == "" <==>
            exists v :: w.view(t, p) == Some(v)
              && v.state == "OPEN" && !v.draft && v.baseName == base && v.head != ""
              && p in pin && pin[p] != "" && PinMatches(v.head, pin[p])
              && (p in pcwd && pcwd[p] != "" ==> w.cwdOK(t, p, pcwd[p]))
              && w.prHead(t, p) == Some(v.head)
  {
    if w.view(t, p).Some? { assert w.view(t, p) == Some(w.view(t, p).value); }
  }

  ghost predicate Distinct(s: seq<string>) { forall i, j :: 0 <= i < j < |s| ==> s[i] != s[j] }

  /** The merge commits of some pull requests at their recorded heads. */
  function Merges(ps: seq<string>, heads: map<string, string>): seq<Change>
    requires forall p :: p in ps ==> p in heads
  {
    seq(|ps|, i requires 0 <= i < |ps| => Merge(ps[i], heads[ps[i]]))
  }

  lemma MergesLength(ps: seq<string>, heads: map<string, string>)
    requires forall p :: p in ps ==> p in heads
    ensures |Merges(ps, heads)| == |ps|
  {
  }

  lemma MergesSnoc(ps: seq<string>, p: string, heads: map<string, string>)
    requires p in heads && forall q :: q in ps ==> q in heads
    ensures Merges(ps + [p], heads) == Merges(ps, heads) + [Merge(p, heads[p])]
  {
  }

  // ---- The protocol step ----

  /** The parent of `c` is the expected tip. */
  predicate Follows(c: Chain, tip: Chain) { c != [] && c[..|c| - 1] == tip }

  /** The heart of the protocol. Main was fetched at the expected tip; the wait for `p` answered 0; main is fetched again
      and its parent is the expected tip. Then the one new commit is `p` at the gated head, and nothing else got in. */
  lemma OneCommitIsOurs(w: World, t: nat, u: nat, tip: Chain, p: string, h: string)
    requires w.Honest() && t + 1 <= u
    requires w.waitMerge(t, p, h) == 0 && Unmerged(tip, p)
    requires Follows(w.main(u), tip)
    ensures w.main(u) == tip + [Merge(p, h)]
  {
    var c := w.main(u);
    assert w.main(t + 1) <= c;
    assert Merge(p, h) in c;
    assert c == tip + [c[|c| - 1]];
  }

  /** And the check raises no false alarm: when the wait answered 0 and the parent of main is not the expected tip, then
      something else has been committed on top of that tip. */
  lemma RaceIsReal(w: World, t: nat, u: nat, tip: Chain, p: string, h: string)
    requires w.Honest() && t + 1 <= u
    requires w.waitMerge(t, p, h) == 0 && Unmerged(tip, p) && tip <= w.main(u)
    requires !Follows(w.main(u), tip)
    ensures Raced(tip, w.main(u), p)
  {
    var c, n := w.main(u), |tip|;
    assert w.main(t + 1) <= c;
    var i :| 0 <= i < |w.main(t + 1)| && w.main(t + 1)[i] == Merge(p, h);
    assert c[i] == Merge(p, h);
    TipLacks(tip, c, p, h, i);
    var j := if i == n then n + 1 else n;
    assert Alien(c, j, p) && !Alien(c, i, p);
  }

  lemma TipLacks(tip: Chain, c: Chain, p: string, h: string, i: nat)
    requires Unmerged(tip, p) && tip <= c && i < |c| && c[i] == Merge(p, h)
    requires !Follows(c, tip)
    ensures |tip| <= i && |c| >= |tip| + 2
  {
    assert tip == c[..|tip|];
    assert |c| >= 1;
  }

  /** The commit at `j` is not a merge of `p`. */
  ghost predicate Alien(c: Chain, j: nat, p: string)
    requires j < |c|
  {
    !(c[j].Merge? && c[j].pr == p)
  }

  /** Main has grown over the expected tip by a merge of `p` and by something else. */
  ghost predicate Raced(tip: Chain, c: Chain, p: string) {
    && tip < c && (exists i :: |tip| <= i < |c| && !Alien(c, i, p)) && exists j :: |tip| <= j < |c| && Alien(c, j, p)
  }

  /** A pull request that was open after the base was read, and is not among those merged since, is on neither. */
  lemma NotYetMerged(w: World, t: nat, b: nat, done: seq<string>, heads: map<string, string>, p: string)
    requires w.Honest() && b <= t
    requires w.view(t, p).Some? && w.view(t, p).value.state == "OPEN"
    requires p !in done && forall q :: q in done ==> q in heads
    ensures Unmerged(w.main(b) + Merges(done, heads), p)
  {
    assert w.main(b) <= w.main(t);
    assert Unmerged(w.main(t), p);
    forall i | 0 <= i < |w.main(b)| ensures forall h :: w.main(b)[i] != Merge(p, h) { assert w.main(t)[i] in w.main(t); }
  }

  // ---- Bisect ----

  /** The number of halvings that bring `n` candidates down to one. */
  function CeilLog2(n: nat): nat { if n <= 1 then 0 else 1 + CeilLog2((n + 1) / 2) }

  lemma {:induction false} CeilLog2Monotone(a: nat, b: nat)
    requires a <= b
    ensures CeilLog2(a) <= CeilLog2(b)
    decreases b
  {
    if a > 1 { CeilLog2Monotone((a + 1) / 2, (b + 1) / 2); }
  }

  /** Halving a bracket of at least two candidates costs one run and leaves one halving less to do, on either side. */
  lemma Halving(lo: nat, mid: nat, hi: nat)
    requires hi - lo > 1 && mid == (lo + hi) / 2
    ensures lo < mid < hi
    ensures 1 + CeilLog2(hi - mid) <= CeilLog2(hi - lo) && 1 + CeilLog2(mid - lo) <= CeilLog2(hi - lo)
  {
    CeilLog2Monotone(hi - mid, (hi - lo + 1) / 2);
    CeilLog2Monotone(mid - lo, (hi - lo + 1) / 2);
  }

  lemma {:induction false} CeilLog2Bounds(n: nat)
    requires n >= 1
    ensures n <= Pow2(CeilLog2(n)) && (n > 1 ==> Pow2(CeilLog2(n)) < 2 * n)
  {
    if n > 1 { CeilLog2Bounds((n + 1) / 2); }
  }

  function Pow2(k: nat): nat { if k == 0 then 1 else 2 * Pow2(k - 1) }

  /** A completed bisect: prefix `k` was seen red, and prefix `k - 1` green (or it is the bare base). */
  ghost predicate Names(runs: seq<Gated>, base: Chain, prs: seq<Change>, k: nat) {
    && 1 <= k <= |prs|
    && Gated(Local(base, prs[..k]), false) in runs
    && (k == 1 || Gated(Local(base, prs[..k - 1]), true) in runs)
  }

  /** When the gate is a monotone function of the prefix and the base is green, the named pull request ends the first
      red prefix. */
  lemma FirstRedPrefix(runs: seq<Gated>, base: Chain, prs: seq<Change>, k: nat, red: nat -> bool)
    requires Names(runs, base, prs, k)
    requires forall j: nat, g :: j <= |prs| && Gated(Local(base, prs[..j]), g) in runs ==> g == !red(j)
    requires !red(0) && forall i: nat, j: nat :: i <= j && red(i) ==> red(j)
    ensures red(k) && forall j: nat :: j < k ==> !red(j)
  {
    assert red(k);
    assert !red(k - 1);
  }

  // ---- The merge phase, on values ----

  /** Where the merge phase stands: the pull requests merged, main as last fetched, the expected tip, whether and why the
      train has stopped, and the pull requests whose merge was asked for. */
  datatype Phase = Phase(ok: seq<string>, fetched: Chain, tip: Chain, stopped: bool, rc: int, asked: seq<string>)

  /** Main as last fetched is the base plus exactly one commit for each pull request of `ps`, in order. */
  ghost predicate OnMain(base: Chain, heads: map<string, string>, ps: seq<string>, fetched: Chain) {
    (forall p :: p in ps ==> p in heads) && fetched == base + Merges(ps, heads)
  }

  /** The wait for the last pull request that was merged answered 0, but then main could not be fetched or was raced. */
  predicate Lost(ph: Phase) { ph.stopped && ph.ok == ph.asked && ph.ok != [] && ph.rc in {21, 31} }

  /** Main was the base plus exactly the commits of the others before it. After a race it also holds the commit of the last
      one, and something else besides. */
  ghost predicate LostAt(base: Chain, heads: map<string, string>, ph: Phase)
    requires ph.ok != []
  {
    var init, last := ph.ok[..|ph.ok| - 1], ph.ok[|ph.ok| - 1];
    && (forall p :: p in init ==> p in heads)
    && if ph.rc == 21 then OnMain(base, heads, init, ph.fetched) else Raced(base + Merges(init, heads), ph.fetched, last)
  }

  /** Why the train has stopped: the wait for the last pull request asked for gave this answer, or what was needed before
      or after it failed. */
  ghost predicate StoppedBy(w: World, heads: map<string, string>, ph: Phase, now: nat) {
    if ph.asked != ph.ok && ph.asked != [] then
      var p := ph.asked[|ph.asked| - 1];
      p in heads && ph.rc != 0 && exists t: nat :: t < now && w.waitMerge(t, p, heads[p]) == ph.rc
    else if Lost(ph) then ph.rc == 21 ==> w.FetchFailed(now)
    else ph.rc == 29 && w.WorktreeFailed(now)
  }

  /** The state after `n` pull requests of `merged` were looked at. While nothing has stopped the train, all of them are
      merged and main is the base plus exactly their commits; a stop leaves the merged ones a prefix, and main still
      exactly theirs unless the last of them was lost. */
  ghost predicate Sound(w: World, base: Chain, heads: map<string, string>, merged: seq<string>, ph: Phase, now: nat, n: nat) {
    && n <= |merged| && |ph.ok| <= n && ph.ok == merged[..|ph.ok|]
    && |ph.ok| <= |ph.asked| <= |ph.ok| + 1 && |ph.asked| <= |merged| && ph.asked == merged[..|ph.asked|]
    && (!ph.stopped ==> |ph.ok| == n && |ph.asked| == n && ph.tip == ph.fetched)
    && (if Lost(ph) then LostAt(base, heads, ph) else OnMain(base, heads, ph.ok, ph.fetched))
    && (ph.stopped ==> StoppedBy(w, heads, ph, now))
    && WasMain(w, ph.fetched, now)
  }

  ghost predicate WasMain(w: World, c: Chain, now: nat) { exists t: nat :: t < now && w.fetch(t) && c == w.main(t) }

  ghost predicate SeenFrom(w: World, c: Chain, from: nat) { exists t: nat :: from <= t && w.fetch(t) && c == w.main(t) }

  lemma SeenEarlier(w: World, from: nat, later: nat)
    requires from <= later
    ensures forall c :: SeenFrom(w, c, later) ==> SeenFrom(w, c, from)
  {
  }

  /** Main as seen later is main as seen before, or more. */
  lemma MovedOn(w: World, c: Chain, since: nat, from: nat)
    requires w.Honest() && since <= from && SeenFrom(w, c, from) && c != w.main(since)
    ensures w.main(since) < c
  {
  }

  lemma SoundStuck(w: World, base: Chain, heads: map<string, string>, merged: seq<string>, ph: Phase, now: nat, n: nat)
    requires Sound(w, base, heads, merged, ph, now, n) && ph.stopped && n < |merged|
    ensures Sound(w, base, heads, merged, ph, now, n + 1)
  {
  }

  /** What a train that nothing has stopped can count on. */
  lemma SoundRunning(w: World, base: Chain, heads: map<string, string>, merged: seq<string>, ph: Phase, now: nat, n: nat)
    requires Sound(w, base, heads, merged, ph, now, n)
    ensures |ph.ok| <= n <= |merged| && WasMain(w, ph.fetched, now)
    ensures !ph.stopped ==> ph.ok == ph.asked == merged[..n] && ph.tip == ph.fetched && OnMain(base, heads, ph.ok, ph.fetched)
  {
  }

  lemma SoundLater(w: World, base: Chain, heads: map<string, string>, merged: seq<string>, ph: Phase, now: nat, n: nat, later: nat)
    requires Sound(w, base, heads, merged, ph, now, n) && now <= later
    ensures Sound(w, base, heads, merged, ph, later, n)
  {
  }

  /** The train stops before pull request `n` is asked for. */
  lemma SoundStop(w: World, base: Chain, heads: map<string, string>, merged: seq<string>, ph: Phase, now: nat, n: nat, later: nat)
    requires Sound(w, base, heads, merged, ph, now, n) && !ph.stopped && n < |merged| && now <= later && w.WorktreeFailed(later)
    ensures Sound(w, base, heads, merged, ph.(stopped := true, rc := 29), later, n + 1)
  {
    hide OnMain;
  }

  /** Pull request `n` is asked for, and the wait does not answer 0. */
  lemma SoundAsked(w: World, base: Chain, heads: map<string, string>, merged: seq<string>, ph: Phase, now: nat, n: nat, t: nat, later: nat)
    requires Sound(w, base, heads, merged, ph, now, n) && !ph.stopped && n < |merged| && now <= t < later
    requires merged[n] in heads && w.waitMerge(t, merged[n], heads[merged[n]]) != 0
    ensures var q := ph.(stopped := true, rc := w.waitMerge(t, merged[n], heads[merged[n]]), asked := ph.asked + [merged[n]]);
            Sound(w, base, heads, merged, q, later, n + 1)
  {
    hide OnMain;
    assert merged[..n + 1] == merged[..n] + [merged[n]];
  }

  /** Pull request `n` is merged, and then main cannot be fetched or has been raced. */
  lemma SoundLost(w: World, base: Chain, heads: map<string, string>, merged: seq<string>, ph: Phase, now: nat, n: nat, later: nat, rc: int, c: Chain)
    requires Sound(w, base, heads, merged, ph, now, n) && !ph.stopped && n < |merged| && now <= later
    requires WasMain(w, c, later)
    requires if rc == 21 then c == ph.fetched && w.FetchFailed(later) else rc == 31 && Raced(ph.tip, c, merged[n])
    ensures var q := Phase(ph.ok + [merged[n]], c, ph.tip, true, rc, ph.asked + [merged[n]]);
            Sound(w, base, heads, merged, q, later, n + 1)
  {
    assert merged[..n + 1] == merged[..n] + [merged[n]];
    var q := ph.ok + [merged[n]];
    assert q[..|q| - 1] == ph.ok;
    hide Raced, Merges;
  }

  /** Pull request `n` is merged, and main has grown by exactly its commit. */
  lemma SoundMerged(w: World, base: Chain, heads: map<string, string>, merged: seq<string>, ph: Phase, now: nat, n: nat, later: nat, c: Chain)
    requires Sound(w, base, heads, merged, ph, now, n) && !ph.stopped && n < |merged| && now <= later
    requires merged[n] in heads && c == ph.fetched + [Merge(merged[n], heads[merged[n]])] && WasMain(w, c, later)
    ensures var q := ph.(ok := ph.ok + [merged[n]], fetched := c, tip := c, asked := ph.asked + [merged[n]]);
            Sound(w, base, heads, merged, q, later, n + 1)
  {
    assert merged[..n + 1] == merged[..n] + [merged[n]];
    MergesSnoc(ph.ok, merged[n], heads);
    Assoc(base, Merges(ph.ok, heads), [Merge(merged[n], heads[merged[n]])]);
  }

  /** The state once the wait for `p` answered 0 and main was fetched at time `u`, or could not be. */
  function AfterMerge(w: World, u: nat, ph: Phase, p: string): Phase {
    var q := ph.(ok := ph.ok + [p], asked := ph.asked + [p]);
    if !w.fetch(u) then q.(stopped := true, rc := 21)
    else
      var c := w.main(u);
      if Follows(c, ph.tip) then q.(fetched := c, tip := c) else q.(fetched := c, stopped := true, rc := 31)
  }

  /** The soundness of one merge: it is here that the expected-tip check rules out every interleaved commit. */
  lemma AfterMergeSound(w: World, base: Chain, heads: map<string, string>, merged: seq<string>, ph: Phase, n: nat, t: nat, p: string)
    requires w.Honest() && Sound(w, base, heads, merged, ph, t, n) && !ph.stopped
    requires n < |merged| && p == merged[n] && p in heads
    requires w.waitMerge(t, p, heads[p]) == 0 && Unmerged(ph.tip, p)
    ensures Sound(w, base, heads, merged, AfterMerge(w, t + 1, ph, p), t + 2, n + 1)
  {
    hide *;
    SoundRunning(w, base, heads, merged, ph, t, n);
    TipBefore(w, ph.fetched, t);
    FetchedNow(w, t + 1);
    AfterMergeCases(w, t + 1, ph, p);
    if !w.fetch(t + 1) {
      SoundLost(w, base, heads, merged, ph, t, n, t + 2, 21, ph.fetched);
    } else if Follows(w.main(t + 1), ph.tip) {
      OneCommitIsOurs(w, t, t + 1, ph.tip, p, heads[p]);
      SoundMerged(w, base, heads, merged, ph, t, n, t + 2, w.main(t + 1));
    } else {
      RaceIsReal(w, t, t + 1, ph.tip, p, heads[p]);
      SoundLost(w, base, heads, merged, ph, t, n, t + 2, 31, w.main(t + 1));
    }
  }

  lemma AfterMergeCases(w: World, u: nat, ph: Phase, p: string)
    ensures var q, c := AfterMerge(w, u, ph, p), w.main(u);
            if !w.fetch(u) then q == Phase(ph.ok + [p], ph.fetched, ph.tip, true, 21, ph.asked + [p])
            else if Follows(c, ph.tip) then q == ph.(ok := ph.ok + [p], fetched := c, tip := c, asked := ph.asked + [p])
            else q == Phase(ph.ok + [p], c, ph.tip, true, 31, ph.asked + [p])
  {
  }

  /** The tip is still below main one step later, and both have been seen. */
  lemma TipBefore(w: World, tip: Chain, t: nat)
    requires w.Honest() && WasMain(w, tip, t)
    ensures tip <= w.main(t + 1) && WasMain(w, tip, t + 2)
  {
  }

  lemma FetchedNow(w: World, t: nat)
    ensures if w.fetch(t) then WasMain(w, w.main(t), t + 1) else w.FetchFailed(t + 1)
  {
  }

  // ---- The train ----

  predicate HasRepeat(s: seq<string>) { exists i, j :: 0 <= i < j < |s| && s[i] == s[j] }

  /** The end states of a stopped merge phase by return code; any other code is `not-merged`, 19. */
  function StopEnd(rc: int): End {
    if rc == 17 then End(17, "ci-failed")
    else if rc == 18 then End(18, "merge-degraded")
    else if rc == 21 then End(21, "fetch-failed")
    else if rc == 29 then End(29, "train-error")
    else if rc == 31 then End(31, "main-raced")
    else if rc == 33 then End(33, "merged-out-of-band")
    else End(19, "not-merged")
  }

  class Train {
    const w: World
    const prs: seq<string>
    const baseName: string
    const pin: map<string, string>
    const pcwd: map<string, string>
    const bisect: bool

    var now: nat
    var heads: map<string, string>
    var status: map<string, Status>
    var keep: seq<string>
    var merged: seq<string>
    var mergedOK: seq<string>
    var base: Chain
    var fetched: Chain
    var wt: Local
    var trainSHA: Local
    var expTip: Chain
    var stopped: Option<string>
    var stopRC: int
    var culprit: Option<string>
    var ended: Option<End>

    ghost var since: nat
    ghost var checkedAt: map<string, nat>
    ghost var runs: seq<Gated>
    ghost var asked: seq<string>
    ghost var askedAt: map<string, nat>

    constructor (w: World, prs: seq<string>, baseName: string, pin: map<string, string>, pcwd: map<string, string>, bisect: bool)
      ensures this.w == w && this.prs == prs && this.baseName == baseName && this.pin == pin && this.pcwd == pcwd && this.bisect == bisect
      ensures now == 0 && ended.None? && stopped.None? && culprit.None?
      ensures keep == [] && merged == [] && mergedOK == [] && runs == [] && asked == []
      ensures heads == map[] && checkedAt == map[] && status == map[] && askedAt == map[]
    {
      this.w, this.prs, this.baseName, this.pin, this.pcwd, this.bisect := w, prs, baseName, pin, pcwd, bisect;
      now, heads, status, keep, merged, mergedOK := 0, map[], map[], [], [], [];
      base, fetched, wt, trainSHA, expTip := [], [], Local([], []), Local([], []), [];
      stopped, stopRC, culprit, ended := None, 0, None, None;
      since, checkedAt, runs, asked, askedAt := 0, map[], [], [], map[];
    }

    /** The status a pull request is reported with. */
    function StatusOf(p: string): Status
      reads this
    {
      if p in status then status[p] else Unset
    }

    // ---- Step 1: who may board ----

    /** Why `p` may not board at time `t` of this train. */
    function Why(t: nat, p: string): string { Refusal(w, t, p, baseName, pin, pcwd) }

    /** Those of `ps` that may board, each judged at the moment it was looked at, in order. */
    ghost function Boarding(ps: seq<string>, at: map<string, nat>): seq<string> {
      if ps == [] then []
      else
        var p := ps[|ps| - 1];
        Boarding(ps[..|ps| - 1], at) + (if p in at && Why(at[p], p) == "" then [p] else [])
    }

    lemma BoardingNone(at: map<string, nat>)
      ensures Boarding([], at) == []
    {
    }

    lemma {:induction false} BoardingLocal(ps: seq<string>, at: map<string, nat>, p: string, t: nat)
      requires p !in ps
      ensures Boarding(ps, at[p := t]) == Boarding(ps, at)
    {
      if ps != [] { BoardingLocal(ps[..|ps| - 1], at, p, t); }
    }

    lemma BoardingStep(ps: seq<string>, at: map<string, nat>, p: string, t: nat)
      requires p !in ps
      ensures Boarding(ps + [p], at[p := t]) == Boarding(ps, at) + (if Why(t, p) == "" then [p] else [])
    {
      BoardingLocal(ps, at, p, t);
      assert (ps + [p])[..|ps|] == ps;
    }

    lemma {:induction false} BoardingMembers(ps: seq<string>, at: map<string, nat>, p: string)
      ensures p in Boarding(ps, at) <==> p in ps && p in at && Why(at[p], p) == ""
    {
      if ps != [] {
        BoardingMembers(ps[..|ps| - 1], at, p);
        assert ps == ps[..|ps| - 1] + [ps[|ps| - 1]];
      }
    }

    lemma {:induction false} BoardingDistinct(ps: seq<string>, at: map<string, nat>)
      requires Distinct(ps)
      ensures Distinct(Boarding(ps, at))
    {
      if ps != [] {
        BoardingDistinct(ps[..|ps| - 1], at);
        BoardingMembers(ps[..|ps| - 1], at, ps[|ps| - 1]);
      }
    }

    /** Looks at one pull request now. */
    method CheckOne(p: string)
      modifies `now, `heads, `status, `keep, `checkedAt
      ensures now == old(now) + 1 && checkedAt == old(checkedAt)[p := old(now)]
      ensures var v := w.view(old(now), p); heads == if v.Some? then old(heads)[p := v.value.head] else old(heads)
      ensures var why := Why(old(now), p);
              if why == "" then keep == old(keep) + [p] && status == old(status) && w.view(old(now), p).Some?
              else keep == old(keep) && status == old(status)[p := Refused(why)]
    {
      var why := Why(now, p);
      if w.view(now, p).Some? { heads := heads[p := w.view(now, p).value.head]; }
      checkedAt := checkedAt[p := now];
      if why != "" { status := status[p := Refused(why)]; } else { keep := keep + [p]; }
      now := now + 1;
    }

    /** What is recorded about one pull request once it was looked at. */
    ghost predicate Recorded(since: nat, p: string)
      reads this
    {
      && p in checkedAt && since <= checkedAt[p] < now
      && StatusOf(p) == (if Why(checkedAt[p], p) == "" then Unset else Refused(Why(checkedAt[p], p)))
      && (Why(checkedAt[p], p) == "" ==>
            p in heads && w.view(checkedAt[p], p).Some? && heads[p] == w.view(checkedAt[p], p).value.head)
    }

    method CheckPRs()
      requires ended.None? && Distinct(prs) && status == map[] && keep == []
      modifies `now, `heads, `status, `keep, `checkedAt
      ensures now >= old(now)
      ensures forall p :: p in prs ==> Recorded(old(now), p)
      ensures keep == Boarding(prs, checkedAt)
    {
      hide Why, Boarding;
      ghost var start := now;
      BoardingNone(checkedAt);
      assert prs[..0] == [];
      for i := 0 to |prs|
        invariant now >= start
        invariant forall k :: 0 <= k < i ==> Recorded(start, prs[k])
        invariant forall k :: i <= k < |prs| ==> prs[k] !in status
        invariant keep == Boarding(prs[..i], checkedAt)
      {
        BoardingStep(prs[..i], checkedAt, prs[i], now);
        assert prs[..i + 1] == prs[..i] + [prs[i]];
        CheckOne(prs[i]);
      }
      assert prs[..|prs|] == prs;
    }

    // ---- Step 2: the local train ----

    /** Every pull request of `ps` has a recorded head. */
    ghost predicate Headed(ps: seq<string>)
      reads `heads
    {
      forall p :: p in ps ==> p in heads
    }

    function MergeOf(p: string): Change
      requires p in heads
      reads `heads
    {
      Merge(p, heads[p])
    }

    method Finish(code: int, state: string)
      requires ended.None?
      modifies `ended
      ensures ended == Some(End(code, state))
    {
      ended := Some(End(code, state));
    }

    /** One local merge in the train worktree. */
    method MergeNoFF(p: string) returns (r: LocalMerge)
      requires p in heads
      modifies `now, `wt
      ensures now == old(now) + 1
      ensures wt == if r == Clean then Local(old(wt).base, old(wt).prs + [Merge(p, heads[p])]) else old(wt)
      ensures r == w.merge(old(now), old(wt), Merge(p, heads[p]))
    {
      r := w.merge(now, wt, MergeOf(p));
      if r == Clean { wt := Local(wt.base, wt.prs + [MergeOf(p)]); }
      now := now + 1;
    }

    /** Merges one pull request into the local train, drops it on a conflict, or ends the run. */
    method Board(p: string)
      requires ended.None? && p in heads
      modifies `now, `status, `merged, `wt, `ended
      ensures now == old(now) + 1
      ensures var r := w.merge(old(now), old(wt), Merge(p, heads[p]));
              && merged == (if r == Clean then old(merged) + [p] else old(merged))
              && wt == (if r == Clean then Local(old(wt).base, old(wt).prs + [Merge(p, heads[p])]) else old(wt))
              && status == (if r == Conflict then old(status)[p := Dropped] else old(status))
              && ended == (if r == Broken then Some(End(29, "train-error")) else None)
    {
      var r := MergeNoFF(p);
      match r {
        case Clean => merged := merged + [p];
        case Conflict => status := status[p := Dropped];
        case Broken => Finish(29, "train-error");
      }
    }

    /** What the local train looks like when `ps` have been tried: in it, in order, those that merged; the others were
        dropped and nobody else's status changed. */
    ghost predicate Built(ps: seq<string>, was: map<string, Status>)
      reads `base, `heads, `merged, `wt, `status
    {
      TrainIs(base, heads, merged, wt, ps) && RowsAre(status, was, merged, ps)
    }

    lemma BuiltStep(ps: seq<string>, p: string, was: map<string, Status>, m: seq<string>, st: map<string, Status>, t: Local)
      requires p !in ps && p in heads && TrainIs(base, heads, m, t, ps) && RowsAre(st, was, m, ps)
      requires (merged == m + [p] && status == st && wt == Local(base, t.prs + [Merge(p, heads[p])]))
            || (merged == m && status == st[p := Dropped] && wt == t)
      ensures Built(ps + [p], was)
    {
      TrainGrows(base, heads, m, t, ps, p);
      RowsGrow(st, was, m, ps, p);
      hide TrainIs, RowsAre;
    }

    /** Those of `ps` that merge cleanly when they are tried one after the other from time `t` on. */
    ghost function Fitting(ps: seq<string>, t: nat): (m: seq<string>)
      requires Headed(ps)
      reads `heads, `base
      ensures forall p :: p in m ==> p in ps
    {
      if ps == [] then []
      else
        var m := Fitting(ps[..|ps| - 1], t);
        if w.merge(t + |ps| - 1, Local(base, Merges(m, heads)), MergeOf(ps[|ps| - 1])) == Clean then m + [ps[|ps| - 1]] else m
    }

    /** What the merge of `ps[i]` answers then. */
    ghost function Tried(ps: seq<string>, t: nat, i: nat): LocalMerge
      requires Headed(ps) && i < |ps|
      reads `heads, `base
    {
      w.merge(t + i, Local(base, Merges(Fitting(ps[..i], t), heads)), MergeOf(ps[i]))
    }

    /** The first `n` were tried, none broke off, and exactly those that merged cleanly are aboard. */
    ghost predicate TriedSoFar(ps: seq<string>, t: nat, n: nat)
      requires Headed(ps) && n <= |ps|
      reads `heads, `base, `merged
    {
      && merged == Fitting(ps[..n], t)
      && forall k :: 0 <= k < n ==> Tried(ps, t, k) == if ps[k] in merged then Clean else Conflict
    }

    lemma FittingNext(ps: seq<string>, t: nat, n: nat)
      requires Headed(ps) && n < |ps|
      ensures var m := Fitting(ps[..n], t);
              && Fitting(ps[..n + 1], t) == (if Tried(ps, t, n) == Clean then m + [ps[n]] else m)
              && forall p :: p in m ==> p in ps[..n]
    {
      hide Merges;
      assert ps[..n + 1][..n] == ps[..n] && ps[..n + 1][n] == ps[n];
    }

    lemma TriedNext(ps: seq<string>, t: nat, n: nat, m: seq<string>)
      requires Headed(ps) && Distinct(ps) && n < |ps| && m == Fitting(ps[..n], t)
      requires forall k :: 0 <= k < n ==> Tried(ps, t, k) == if ps[k] in m then Clean else Conflict
      requires Tried(ps, t, n) != Broken && merged == if Tried(ps, t, n) == Clean then m + [ps[n]] else m
      ensures TriedSoFar(ps, t, n + 1)
    {
      hide Fitting, Tried;
      FittingNext(ps, t, n);
      assert ps[n] !in ps[..n];
      forall k | 0 <= k < n ensures ps[k] in merged <==> ps[k] in m { assert ps[k] != ps[n]; }
    }

    ghost predicate AnyBroken(ps: seq<string>, t: nat)
      requires Headed(ps)
      reads `heads, `base
    {
      exists i :: 0 <= i < |ps| && Tried(ps, t, i) == Broken
    }

    ghost predicate AllConflict(ps: seq<string>, t: nat)
      requires Headed(ps)
      reads `heads, `base
    {
      forall i :: 0 <= i < |ps| ==> Tried(ps, t, i) == Conflict
    }

    lemma TriedAll(ps: seq<string>, t: nat, was: map<string, Status>)
      requires Headed(ps) && TriedSoFar(ps, t, |ps|) && Built(ps[..|ps|], was)
      ensures merged == Fitting(ps, t) && (merged == [] <==> AllConflict(ps, t)) && !AnyBroken(ps, t) && Built(ps, was)
      ensures forall i :: 0 <= i < |ps| ==> Tried(ps, t, i) == if ps[i] in merged then Clean else Conflict
      ensures forall p :: p in merged ==> p in ps
    {
      hide Merges, Tried, RowsAre, InOrder;
      assert ps[..|ps|] == ps;
      assert merged != [] ==> merged[0] in ps;
    }

    /** The train is built of exactly those that merge cleanly, in order; the others conflicted and are dropped. A merge
        that breaks off ends the run, and so does a train on which nothing fits. */
    method BuildTrain()
      requires ended.None? && Headed(keep) && Distinct(keep) && merged == []
      modifies `now, `status, `merged, `wt, `trainSHA, `ended
      ensures now >= old(now) && forall p :: p in merged ==> p in keep
      ensures ended.None? || ended == Some(End(28, "train-empty")) ==> now == old(now) + 1 + |keep|
      ensures ended == Some(End(29, "train-error")) ==> Trouble()
      ensures ended.None? ==> Built(keep, old(status)) && merged != [] && trainSHA == wt
      ensures ended.None? ==> merged == Fitting(keep, old(now) + 1)
      ensures ended.None? ==> forall i :: 0 <= i < |keep| ==> Tried(keep, old(now) + 1, i) == if keep[i] in merged then Clean else Conflict
      ensures ended.None? || ended == Some(End(29, "train-error")) || ended == Some(End(28, "train-empty"))
      ensures ended == Some(End(29, "train-error")) <==>
                !w.worktree(old(now)) || AnyBroken(keep, old(now) + 1)
      ensures ended == Some(End(28, "train-empty")) <==>
                w.worktree(old(now)) && AllConflict(keep, old(now) + 1)
      ensures ended == Some(End(28, "train-empty")) ==> merged == []
    {
      hide *;
      ghost var t, was := now + 1, status;
      if !w.worktree(now) {
        now := now + 1;
        Finish(29, "train-error");
        NoWorktree(now - 1);
        return;
      }
      now := now + 1;
      wt := Local(base, []);
      NothingTried(keep, t, was);
      for i := 0 to |keep|
        invariant ended.None? && now == t + i
        invariant Built(keep[..i], was) && TriedSoFar(keep, t, i)
      {
        ghost var m, st, l := merged, status, wt;
        TriedIs(keep, t, i, was);
        Board(keep[i]);
        BoardedNext(keep, t, i, m, st, l, was);
        if ended.Some? {
          BrokeOff(keep, t, i);
          return;
        }
      }
      TriedAll(keep, t, was);
      if |merged| == 0 {
        Finish(28, "train-empty");
        return;
      }
      trainSHA := wt;
    }

    /** What ends a run as `train-error` by itself: a worktree that cannot be made or reset, a merge that breaks off, a gate
        that does not run, or a pull request of the train that does not fit again. */
    ghost predicate Trouble()
      reads `now, `base, `heads, `merged
    {
      || w.WorktreeFailed(now) || w.MergeBroke(now) || w.GateBroke(now)
      || (Headed(merged) && w.Misfitted(now, base, Merges(merged, heads)))
    }

    lemma NoWorktree(t: nat)
      requires !w.worktree(t) && t < now
      ensures Trouble()
    {
    }

    lemma BrokeOff(ps: seq<string>, t: nat, i: nat)
      requires Headed(ps) && i < |ps| && t + i < now && Tried(ps, t, i) == Broken
      ensures Trouble()
    {
    }

    lemma NothingTried(ps: seq<string>, t: nat, was: map<string, Status>)
      requires Headed(ps) && merged == [] && status == was && wt == Local(base, [])
      ensures TriedSoFar(ps, t, 0) && Built(ps[..0], was)
    {
    }

    /** The next attempt is made on the worktree as it stands. */
    lemma TriedIs(ps: seq<string>, t: nat, i: nat, was: map<string, Status>)
      requires Headed(ps) && i < |ps| && now == t + i && TriedSoFar(ps, t, i) && Built(ps[..i], was)
      ensures ps[i] in heads && Tried(ps, t, i) == w.merge(now, wt, Merge(ps[i], heads[ps[i]]))
      ensures TrainIs(base, heads, merged, wt, ps[..i]) && RowsAre(status, was, merged, ps[..i])
      ensures merged == Fitting(ps[..i], t) && wt.base == base
      ensures forall k :: 0 <= k < i ==> Tried(ps, t, k) == if ps[k] in merged then Clean else Conflict
    {
      hide Merges, InOrder, Distinct;
    }

    /** After one boarding: a merge that broke off, or one more of them tried. */
    lemma BoardedNext(ps: seq<string>, t: nat, i: nat, m: seq<string>, st: map<string, Status>, l: Local, was: map<string, Status>)
      requires Headed(ps) && Distinct(ps) && i < |ps| && m == Fitting(ps[..i], t) && l.base == base
      requires forall k :: 0 <= k < i ==> Tried(ps, t, k) == if ps[k] in m then Clean else Conflict
      requires TrainIs(base, heads, m, l, ps[..i]) && RowsAre(st, was, m, ps[..i]) && ps[i] in heads
      requires var r := Tried(ps, t, i);
               && merged == (if r == Clean then m + [ps[i]] else m)
               && wt == (if r == Clean then Local(base, l.prs + [Merge(ps[i], heads[ps[i]])]) else l)
               && status == (if r == Conflict then st[ps[i] := Dropped] else st)
      ensures Tried(ps, t, i) == Broken ==> AnyBroken(ps, t) && !AllConflict(ps, t)
      ensures Tried(ps, t, i) != Broken ==> Built(ps[..i + 1], was) && TriedSoFar(ps, t, i + 1)
    {
      hide Fitting, Tried, Merges, InOrder, TrainIs, RowsAre, Built, TriedSoFar;
      if Tried(ps, t, i) != Broken {
        assert ps[..i + 1] == ps[..i] + [ps[i]] && ps[i] !in ps[..i];
        BuiltStep(ps[..i], ps[i], was, m, st, l);
        TriedNext(ps, t, i, m);
      }
    }

    // ---- Step 3: one gate on the train head, and the bisect ----

    /** One gate run over the worktree: 0 green, 16 red, 22 lock timeout (only inside a bisect), otherwise the run has
        ended. */
    method RunGate(inBisect: bool) returns (rc: int)
      requires ended.None?
      modifies `now, `runs, `ended
      ensures now == old(now) + 1 && rc in {0, 16, 22, 29}
      ensures old(RealBy(now)) ==> RealBy(now)
      ensures rc == 22 ==> w.LockedOut(now, wt)
      ensures rc == 29 ==> w.GateBroke(now)
      ensures match w.gate(old(now), wt)
              case Green => rc == 0 && runs == old(runs) + [Gated(wt, true)] && ended.None?
              case Red(_) => rc == 16 && runs == old(runs) + [Gated(wt, false)] && ended.None?
              case LockTimeout =>
                rc == 22 && runs == old(runs) && ended == if inBisect then None else Some(End(22, "gate-lock-timeout"))
              case GateBroken(_) => rc == 29 && runs == old(runs) && ended == Some(End(29, "train-error"))
    {
      var a := w.gate(now, wt);
      now := now + 1;
      GateAnswered(now - 1, wt);
      match a {
        case Green =>
          runs := runs + [Gated(wt, true)];
          return 0;
        case Red(_) =>
          runs := runs + [Gated(wt, false)];
          return 16;
        case LockTimeout =>
          if !inBisect { Finish(22, "gate-lock-timeout"); }
          return 22;
        case GateBroken(_) =>
          Finish(29, "train-error");
          return 29;
      }
    }

    lemma MergesPrefix(ps: seq<string>, m: nat)
      requires Headed(ps) && m <= |ps|
      ensures Merges(ps[..m], heads) == Merges(ps, heads)[..m]
    {
    }

    lemma TroubleIs(ps: seq<string>)
      requires Headed(ps) && Headed(merged) && ps <= merged
      requires w.WorktreeFailed(now) || w.MergeBroke(now) || w.GateBroke(now) || w.Misfitted(now, base, Merges(ps, heads))
      ensures Trouble()
    {
      MergesPrefix(merged, |ps|);
      MergesLength(ps, heads);
      assert merged[..|ps|] == ps;
      var cs := Merges(merged, heads);
      assert cs[..|ps|] <= cs;
      if w.Misfitted(now, base, Merges(ps, heads)) { StillMisfitted(w, now, base, Merges(ps, heads), cs); }
    }

    lemma GateAnswered(t: nat, l: Local)
      requires t < now
      ensures match w.gate(t, l)
              case Green => w.GateSaid(now, Gated(l, true))
              case Red(_) => w.GateSaid(now, Gated(l, false))
              case LockTimeout => w.LockedOut(now, l)
              case GateBroken(_) => w.GateBroke(now)
    {
    }

    /** Resets the worktree to the base and merges `ps` again. */
    method Rebuild(ps: seq<string>)
      requires ended.None? && Headed(ps) && Headed(merged) && ps <= merged
      modifies `now, `wt, `ended
      ensures now >= old(now)
      ensures ended.None? ==> wt == Local(base, Merges(ps, heads))
      ensures ended.Some? ==> ended == Some(End(29, "train-error")) && Trouble()
    {
      hide Trouble, World.Misfitted;
      if !w.worktree(now) {
        now := now + 1;
        Finish(29, "train-error");
        assert w.WorktreeFailed(now) by { assert !w.worktree(now - 1); }
        TroubleIs(ps);
        return;
      }
      now := now + 1;
      wt := Local(base, []);
      for i := 0 to |ps|
        invariant ended.None? && now >= old(now)
        invariant wt == Local(base, Merges(ps[..i], heads))
      {
        assert ps[..i + 1] == ps[..i] + [ps[i]];
        MergesSnoc(ps[..i], ps[i], heads);
        var r := MergeNoFF(ps[i]);
        if r != Clean {
          Finish(29, "train-error");
          RefitFails(ps, i);
          return;
        }
      }
      assert ps[..|ps|] == ps;
    }

    lemma RefitFails(ps: seq<string>, i: nat)
      requires Headed(ps) && Headed(merged) && ps <= merged && i < |ps| && now > 0
      requires w.merge(now - 1, Local(base, Merges(ps[..i], heads)), MergeOf(ps[i])) != Clean
      ensures Trouble()
    {
      MergesPrefix(ps, i);
      MergesLength(ps, heads);
      assert Merges(ps, heads)[i] == MergeOf(ps[i]);
      assert w.Misfitted(now, base, Merges(ps, heads));
      TroubleIs(ps);
    }

    /** Every recorded gate run is one the gate answered so. */
    ghost predicate RealBy(t: nat)
      reads `runs
    {
      forall g :: g in runs ==> w.GateSaid(t, g)
    }

    lemma RealLater(t: nat)
      requires RealBy(t) && t <= now
      ensures RealBy(now)
    {
    }

    /** What the bisect knows: the prefix of length `hi` was seen red, the prefix of length `lo` green, or it is the base;
        and it has not spent more gate runs than halving needs. */
    ghost predicate Bracketed(lo: nat, hi: nat, spent: nat)
      requires Headed(merged)
      reads `heads, `merged, `base, `runs
    {
      && lo < hi <= |merged|
      && Gated(Local(base, Merges(merged, heads)[..hi]), false) in runs
      && (lo == 0 || Gated(Local(base, Merges(merged, heads)[..lo]), true) in runs)
      && spent + CeilLog2(hi - lo) <= CeilLog2(|merged|)
    }

    /** Every gate run was on the base plus exactly a prefix of the train, in order. */
    ghost predicate PrefixesGated()
      requires Headed(merged)
      reads `heads, `merged, `base, `runs
    {
      forall g :: g in runs ==> exists m: nat :: m <= |merged| && g.what == Local(base, Merges(merged, heads)[..m])
    }

    /** Halves until one candidate is left, or until the gate lock cannot be had. `spent` counts the gate runs. */
    method Bisect() returns (k: Option<nat>, ghost spent: nat)
      requires ended.None? && Headed(merged) && merged != []
      requires Gated(Local(base, Merges(merged, heads)), false) in runs && PrefixesGated() && RealBy(now)
      modifies `now, `wt, `runs, `ended
      ensures now >= old(now) && PrefixesGated() && RealBy(now) && old(runs) <= runs && |runs| <= |old(runs)| + spent
      ensures spent <= CeilLog2(|merged|)
      ensures ended.Some? ==> ended == Some(End(29, "train-error")) && k.None? && Trouble()
      ensures k.Some? ==> 1 <= k.value <= |merged| && Names(runs, base, Merges(merged, heads), k.value)
      ensures ended.None? && k.None? ==> exists t: nat, c :: old(now) <= t < now && w.gate(t, c) == LockTimeout
    {
      hide CeilLog2, Merges, RealBy, Trouble;
      var lo, hi: nat := 0, |merged|;
      spent := 0;
      MergesLength(merged, heads);
      assert Merges(merged, heads)[..|merged|] == Merges(merged, heads);
      while hi - lo > 1
        invariant ended.None? && now >= old(now) && old(runs) <= runs && |runs| <= |old(runs)| + spent
        invariant Bracketed(lo, hi, spent) && PrefixesGated() && RealBy(now)
        decreases hi - lo
      {
        var mid := (lo + hi) / 2;
        Halving(lo, mid, hi);
        ghost var at := now;
        Rebuild(merged[..mid]);
        RealLater(at);
        if ended.Some? { return None, spent; }
        MergesPrefix(merged, mid);
        var rc := RunGate(true);
        if ended.Some? {
          TroubleIs([]);
          return None, spent;
        }
        if rc == 22 { return None, spent; }
        spent := spent + 1;
        if rc == 0 { lo := mid; } else { hi := mid; }
      }
      return Some(hi), spent;
    }

    /** The train boards the merge phase only on a green gate over its head; on red it ends, naming the pull request that
        ends the first red prefix it found, if the bisect was asked for and ran to its end. */
    method RunTrainGate()
      requires ended.None? && Headed(merged) && merged != [] && runs == [] && culprit.None?
      requires trainSHA == wt == Local(base, Merges(merged, heads))
      modifies `now, `wt, `runs, `status, `culprit, `ended
      ensures now >= old(now)
      ensures PrefixesGated() && RealBy(now) && |runs| <= 1 + CeilLog2(|merged|)
      ensures ended.None? ==> runs == [Gated(trainSHA, true)] && wt == trainSHA && status == old(status) && culprit.None?
      ensures ended.Some? ==> ended.value in {End(22, "gate-lock-timeout"), End(26, "train-gate-failed"), End(29, "train-error")}
      ensures ended == Some(End(26, "train-gate-failed")) ==> Gated(trainSHA, false) in runs
      ensures ended == Some(End(22, "gate-lock-timeout")) ==> w.LockedOut(now, trainSHA)
      ensures ended == Some(End(29, "train-error")) ==> Trouble()
      ensures culprit.Some? ==>
                && bisect && ended == Some(End(26, "train-gate-failed"))
                && status == old(status)[culprit.value := Culprit]
                && exists k: nat :: Names(runs, base, Merges(merged, heads), k) && culprit.value == merged[k - 1]
      ensures culprit.None? ==> status == old(status)
      ensures bisect && ended == Some(End(26, "train-gate-failed")) && culprit.None? ==>
                exists t: nat, c :: old(now) <= t < now && w.gate(t, c) == LockTimeout
    {
      hide CeilLog2, Merges, PrefixesGated, Names, Trouble;
      var rc := RunGate(false);
      WholeGated();
      if rc == 29 { TroubleIs([]); }
      if ended.Some? || rc == 0 { return; }
      ghost var named: nat := 1;
      if bisect {
        var k, spent := Bisect();
        if ended.Some? { return; }
        if k.Some? {
          named := k.value;
          culprit := Some(merged[k.value - 1]);
          status := status[merged[k.value - 1] := Culprit];
        }
      }
      Finish(26, "train-gate-failed");
      assert culprit.Some? ==> Names(runs, base, Merges(merged, heads), named) && culprit.value == merged[named - 1];
    }

    /** A run over the whole train is a run over a prefix of it. */
    lemma WholeGated()
      requires Headed(merged) && |runs| <= 1 && forall g :: g in runs ==> g.what == Local(base, Merges(merged, heads))
      ensures PrefixesGated()
    {
      MergesLength(merged, heads);
      var all := Merges(merged, heads);
      hide Merges;
      assert all[..|merged|] == all;
    }

    // ---- Step 4: main must still be where the train was built ----

    method PreMerge()
      requires ended.None?
      modifies `now, `fetched, `expTip, `ended
      ensures now >= old(now)
      ensures ended.None? ==> fetched == base == expTip && WasMain(w, fetched, now)
      ensures ended.Some? ==> ended.value in {End(21, "fetch-failed"), End(30, "base-moved")}
      ensures ended == Some(End(30, "base-moved")) ==> fetched != base && SeenFrom(w, fetched, old(now)) && WasMain(w, fetched, now)
      ensures ended == Some(End(21, "fetch-failed")) ==> w.FetchFailed(now)
    {
      if !w.fetch(now) {
        now := now + 1;
        assert !w.fetch(now - 1);
        Finish(21, "fetch-failed");
        return;
      }
      fetched := w.main(now);
      assert SeenFrom(w, fetched, now);
      now := now + 1;
      if fetched != base {
        Finish(30, "base-moved");
        return;
      }
      expTip := base;
    }

    // ---- Step 5: merge in order ----

    /** The tree on main must be the tree of the base plus the pull requests merged. */
    method VerifyTree()
      requires ended.None? && Headed(merged) && mergedOK <= merged
      requires trainSHA == Local(base, Merges(merged, heads))
      modifies `now, `wt, `ended
      ensures now >= old(now)
      ensures ended.None? ==> mergedOK == [] || w.mainTree(fetched) == w.localTree(Local(base, Merges(mergedOK, heads)))
      ensures ended.Some? ==> ended.value in {End(29, "train-error"), End(32, "tree-mismatch")}
      ensures ended == Some(End(29, "train-error")) ==> Trouble()
      ensures ended == Some(End(32, "tree-mismatch")) ==>
                mergedOK != [] && w.mainTree(fetched) != w.localTree(Local(base, Merges(mergedOK, heads)))
    {
      if |mergedOK| == 0 { return; }
      var want;
      if |mergedOK| == |merged| {
        assert mergedOK == merged;
        want := w.localTree(trainSHA);
      } else {
        Rebuild(mergedOK);
        if ended.Some? { return; }
        want := w.localTree(wt);
      }
      if w.mainTree(fetched) != want { Finish(32, "tree-mismatch"); }
    }

    /** All of `ps` were open, at their recorded heads, at some moment between the reading of the base and now. */
    ghost predicate OpenSince(ps: seq<string>)
      reads `base, `since, `checkedAt
    {
      && base == w.main(since)
      && forall p :: p in ps ==>
           && p in checkedAt && since <= checkedAt[p]
           && w.view(checkedAt[p], p).Some? && w.view(checkedAt[p], p).value.state == "OPEN"
    }

    ghost function Now(): Phase
      reads `mergedOK, `fetched, `expTip, `stopped, `stopRC, `asked
    {
      Phase(mergedOK, fetched, expTip, stopped.Some?, stopRC, asked)
    }

    ghost predicate MainState(n: nat)
      reads `mergedOK, `fetched, `expTip, `stopped, `stopRC, `asked, `heads, `merged, `base, `now
    {
      Sound(w, base, heads, merged, Now(), now, n)
    }

    /** The wait answered 0 for `p`: it counts as merged, and main is fetched and must have grown by exactly one commit. */
    method AfterMerged(p: string)
      requires stopped.None?
      modifies `now, `status, `mergedOK, `fetched, `expTip, `stopped, `stopRC
      ensures now == old(now) + 1
      ensures mergedOK == old(mergedOK) + [p]
      ensures Now().(asked := asked + [p]) == AfterMerge(w, old(now), old(Now()), p)
      ensures p in status && status[p].Merged? && status == old(status)[p := status[p]]
    {
      status := status[p := Merged("")];
      mergedOK := mergedOK + [p];
      now := now + 1;
      if !w.fetch(now - 1) {
        stopped, stopRC := Some(p), 21;
        status := status[p := Merged("fetch after the merge failed")];
        return;
      }
      fetched := w.main(now - 1);
      if !Follows(fetched, expTip) {
        stopped, stopRC := Some(p), 31;
        status := status[p := Merged("main-raced")];
      } else {
        expTip := fetched;
      }
    }

    /** A worktree was given for `p`. */
    predicate Given(p: string) { p in pcwd && pcwd[p] != "" }

    /** A worktree at the head of `p`, unless one was given. */
    method TakeWorktree(p: string) returns (ok: bool)
      modifies `now
      ensures now == if Given(p) then old(now) else old(now) + 1
      ensures ok <==> Given(p) || w.worktree(old(now))
    {
      if Given(p) { return true; }
      ok := w.worktree(now);
      now := now + 1;
    }

    /** The merge of `p` was asked for with a worktree at hand, and answered 0 exactly when `p` counts as merged. */
    ghost predicate AskedOne(t: nat, p: string, counts: bool, at: map<string, nat>)
      reads `heads, `since
    {
      && p in heads && p in at && since <= at[p] < t && (Given(p) || (at[p] > 0 && w.worktree(at[p] - 1)))
      && (w.waitMerge(at[p], p, heads[p]) == 0 <==> counts)
    }

    ghost predicate AskedWell(t: nat, a: seq<string>, ok: seq<string>, at: map<string, nat>)
      reads `heads, `since
    {
      forall i :: 0 <= i < |a| ==> AskedOne(t, a[i], i < |ok|, at)
    }

    lemma AskedNext(t: nat, later: nat, a: seq<string>, ok: seq<string>, at: map<string, nat>, p: string, u: nat)
      requires AskedWell(t, ok, ok, at) && a == ok + [p] && p !in ok && t <= later && p in heads && since <= u < later
      requires Given(p) || (u > 0 && w.worktree(u - 1))
      ensures AskedWell(later, a, if w.waitMerge(u, p, heads[p]) == 0 then a else ok, at[p := u])
    {
      forall q | q in ok ensures q != p { }
    }

    lemma AskedLater(t: nat)
      requires AskedWell(t, asked, mergedOK, askedAt) && t <= now
      ensures AskedWell(now, asked, mergedOK, askedAt)
    {
    }

    lemma NobodyAsked()
      requires asked == []
      ensures AskedWell(now, asked, mergedOK, askedAt)
    {
    }

    lemma NotAskedYet(n: nat)
      requires n < |merged| && Distinct(merged)
      ensures merged[n] !in merged[..n]
    {
    }

    /** The turn of `p` in a train that nothing has stopped. */
    method MergeNext(p: string, ghost n: nat)
      requires w.Honest() && n < |merged| && p == merged[n] && Distinct(merged) && p in heads
      requires stopped.None? && MainState(n) && OpenSince(merged) && since <= now && AskedWell(now, asked, mergedOK, askedAt)
      modifies `now, `status, `mergedOK, `fetched, `expTip, `stopped, `stopRC, `asked, `askedAt
      ensures now >= old(now) && MainState(n + 1) && AskedWell(now, asked, mergedOK, askedAt)
      ensures p in status && status == old(status)[p := status[p]]
      ensures if mergedOK == old(mergedOK) then status[p].Pending? || status[p].OutOfBand?
              else mergedOK == old(mergedOK) + [p] && status[p].Merged?
    {
      hide Sound, World.Honest, OpenSince, Distinct, AskedWell, Given, World.WorktreeFailed;
      ghost var before, t := Now(), now;
      var ok := TakeWorktree(p);
      AskedLater(t);
      if !ok {
        WorktreeGone(t);
        SoundStop(w, base, heads, merged, before, t, n, now);
        stopped, stopRC := Some(p), 29;
        status := status[p := Pending("worktree-failed")];
      } else {
        SoundLater(w, base, heads, merged, before, t, n, now);
        AskMerge(p, n);
      }
    }

    lemma WorktreeGone(t: nat)
      requires !w.worktree(t) && t < now
      ensures w.WorktreeFailed(now)
    {
    }

    /** With a worktree at hand, the wait is called at the gated head. */
    method AskMerge(p: string, ghost n: nat)
      requires w.Honest() && n < |merged| && p == merged[n] && Distinct(merged) && p in heads
      requires stopped.None? && MainState(n) && OpenSince(merged) && since <= now && AskedWell(now, asked, mergedOK, askedAt)
      requires Given(p) || (now > 0 && w.worktree(now - 1))
      modifies `now, `status, `mergedOK, `fetched, `expTip, `stopped, `stopRC, `asked, `askedAt
      ensures now >= old(now) && MainState(n + 1) && AskedWell(now, asked, mergedOK, askedAt)
      ensures p in status && status == old(status)[p := status[p]]
      ensures if mergedOK == old(mergedOK) then status[p].Pending? || status[p].OutOfBand?
              else mergedOK == old(mergedOK) + [p] && status[p].Merged?
    {
      hide Sound, World.Honest, AfterMerge, OpenSince, Distinct, AskedWell, Given;
      ghost var u := now;
      var mrc := w.waitMerge(now, p, heads[p]);
      AnswerCounts(p, n);
      now := now + 1;
      ghost var a, at := asked + [p], askedAt[p := u];
      if mrc == 0 { AfterMerged(p); } else { StopAt(p, mrc); }
      asked, askedAt := a, at;
    }

    /** Whatever the wait answers, the state of the merge phase stays sound. */
    lemma AnswerCounts(p: string, n: nat)
      requires w.Honest() && n < |merged| && p == merged[n] && Distinct(merged) && p in heads
      requires stopped.None? && MainState(n) && OpenSince(merged) && since <= now && AskedWell(now, asked, mergedOK, askedAt)
      requires Given(p) || (now > 0 && w.worktree(now - 1))
      ensures var mrc, a, at := w.waitMerge(now, p, heads[p]), asked + [p], askedAt[p := now];
              if mrc == 0 then
                && Sound(w, base, heads, merged, AfterMerge(w, now + 1, Now(), p), now + 2, n + 1)
                && AskedWell(now + 2, a, mergedOK + [p], at)
              else
                && Sound(w, base, heads, merged, Now().(stopped := true, rc := mrc, asked := a), now + 1, n + 1)
                && AskedWell(now + 1, a, mergedOK, at)
    {
      hide Sound, World.Honest, AfterMerge, OpenSince, OnMain, WasMain, Unmerged, Distinct, Lost, LostAt, StoppedBy, AskedWell, Given;
      SoundRunning(w, base, heads, merged, Now(), now, n);
      NotAskedYet(n);
      AskedNext(now, if w.waitMerge(now, p, heads[p]) == 0 then now + 2 else now + 1, asked + [p], asked, askedAt, p, now);
      if w.waitMerge(now, p, heads[p]) == 0 {
        NextUnmerged(n);
        AfterMergeSound(w, base, heads, merged, Now(), n, now, p);
      } else {
        SoundAsked(w, base, heads, merged, Now(), now, n, now, now + 1);
      }
    }

    /** The wait did not answer 0. */
    method StopAt(p: string, mrc: int)
      modifies `status, `stopped, `stopRC
      ensures stopped == Some(p) && stopRC == mrc
      ensures status == old(status)[p := if mrc == 33 then OutOfBand else Pending("stopped")]
    {
      stopped, stopRC := Some(p), mrc;
      status := status[p := if mrc == 33 then OutOfBand else Pending("stopped")];
    }

    /** The next pull request is not yet on main as last fetched. */
    lemma NextUnmerged(n: nat)
      requires w.Honest() && n < |merged| && Distinct(merged) && MainState(n) && stopped.None? && OpenSince(merged)
      ensures Unmerged(expTip, merged[n])
    {
      SoundRunning(w, base, heads, merged, Now(), now, n);
      NotYetMerged(w, checkedAt[merged[n]], since, mergedOK, heads, merged[n]);
    }

    /** What the receipt says of the first `n`: merged, or left pending or merged out of band. */
    ghost predicate RowState(n: nat)
      requires n <= |merged|
      reads `merged, `mergedOK, `status
    {
      forall i :: 0 <= i < n ==>
        merged[i] in status &&
        if i < |mergedOK| then status[merged[i]].Merged? else status[merged[i]].Pending? || status[merged[i]].OutOfBand?
    }

    lemma AllHeaded()
      requires Headed(merged)
      ensures forall q :: q in merged ==> q in heads
    {
    }

    /** The merge loop: it asks for nothing more once the train has stopped. */
    method MergeLoop()
      requires w.Honest() && Distinct(merged) && Headed(merged) && OpenSince(merged)
      requires stopped.None? && MainState(0) && since <= now && asked == []
      modifies `now, `status, `mergedOK, `fetched, `expTip, `stopped, `stopRC, `asked, `askedAt
      ensures now >= old(now) && MainState(|merged|) && RowState(|merged|) && AskedWell(now, asked, mergedOK, askedAt)
      ensures forall q :: q !in merged ==> SameAt(status, old(status), q)
    {
      hide Sound, World.Honest, OpenSince, OnMain, WasMain, Headed, AskedWell, Given;
      NobodyAsked();
      assert forall q :: q in merged ==> q in heads by { AllHeaded(); }
      for i := 0 to |merged|
        invariant now >= old(now) && MainState(i) && RowState(i) && AskedWell(now, asked, mergedOK, askedAt)
        invariant forall q :: q !in merged ==> SameAt(status, old(status), q)
      {
        SoundRunning(w, base, heads, merged, Now(), now, i);
        var p := merged[i];
        if stopped.Some? {
          SoundStuck(w, base, heads, merged, Now(), now, i);
          status := status[p := Pending("after #" + stopped.value)];
        } else {
          MergeNext(p, i);
        }
      }
    }

    // ---- How a run ends ----

    /** The tree on main is the tree of the base plus the pull requests merged. */
    ghost predicate TreeAgrees()
      reads `mergedOK, `fetched, `base, `heads
    {
      Headed(mergedOK) && (mergedOK == [] || w.mainTree(fetched) == w.localTree(Local(base, Merges(mergedOK, heads))))
    }

    /** There is a tree on main that is not the tree of the base plus the pull requests merged. */
    ghost predicate TreeDiffers()
      reads `mergedOK, `fetched, `base, `heads
    {
      Headed(mergedOK) && mergedOK != [] && w.mainTree(fetched) != w.localTree(Local(base, Merges(mergedOK, heads)))
    }

    /** Why a train stopped, what main is then, and what the end state makes of it: the one that belongs to the code, unless
        the tree on main could not be confirmed. */
    ghost predicate StoppedWell()
      reads `mergedOK, `fetched, `expTip, `stopped, `stopRC, `asked, `heads, `base, `now, `ended
    {
      && StoppedBy(w, heads, Now(), now)
      && (if Lost(Now()) then LostAt(base, heads, Now()) else OnMain(base, heads, mergedOK, fetched))
      && ended.Some?
      && StopEnd(stopRC).code == (if stopRC in {17, 18, 21, 29, 31, 33} then stopRC else 19)
      && (ended.value == StopEnd(stopRC)
          || (StopEnd(stopRC).state in {"not-merged", "ci-failed", "merge-degraded"} && ended.value.state in {"train-error", "tree-mismatch"}))
    }

    /** The end states that follow the merge loop, and what each of them says of main. */
    ghost predicate EndedWell()
      reads this
    {
      && ended.Some?
      && (stopped.Some? ==> StoppedWell())
      && (stopped.None? ==> ended.value.state in {"merged", "train-partial", "train-error", "tree-mismatch"})
      && (ended.value.state == "train-error" ==> Trouble() || (stopped.Some? && stopRC == 29))
      && (ended.value.state == "tree-mismatch" ==> OnMain(base, heads, mergedOK, fetched) && TreeDiffers())
      && (ended.value.state in {"not-merged", "ci-failed", "merge-degraded"} ==>
            OnMain(base, heads, mergedOK, fetched) && TreeAgrees() && stopped.Some?)
      && (ended.value.state == "merged-out-of-band" ==> OnMain(base, heads, mergedOK, fetched) && stopped.Some?)
      && (ended.value.state in {"merged", "train-partial"} ==>
            mergedOK == merged && OnMain(base, heads, merged, fetched) && TreeAgrees() && stopped.None?)
      && (ended.value.state == "merged" <==> ended.value.code == 0)
      && (ended.value.state == "merged" ==> forall p :: p in prs ==> p in status && status[p].Merged?)
      && (ended.value.state == "train-partial" ==> exists p :: p in prs && !(p in status && status[p].Merged?))
      && ended.value in {End(0, "merged"), End(17, "ci-failed"), End(18, "merge-degraded"), End(19, "not-merged"),
                         End(21, "fetch-failed"), End(27, "train-partial"), End(29, "train-error"), End(31, "main-raced"),
                         End(32, "tree-mismatch"), End(33, "merged-out-of-band")}
    }

    /** After the loop: the end state is told from why the train stopped, or from the trees and the receipt rows. */
    method Conclude()
      requires ended.None? && MainState(|merged|) && Headed(merged)
      requires trainSHA == Local(base, Merges(merged, heads))
      modifies `now, `wt, `ended
      ensures now >= old(now) && EndedWell()
    {
      SoundEnd(w, base, heads, merged, Now(), now);
      hide *;
      if stopped.Some? { ConcludeStopped(); } else { ConcludeDone(); }
    }

    /** Later is no earlier. */
    lemma StoppedLater(at: nat)
      requires StoppedBy(w, heads, Now(), at) && at <= now
      ensures StoppedBy(w, heads, Now(), now)
    {
    }

    method ConcludeStopped()
      requires ended.None? && Headed(merged) && mergedOK <= merged && stopped.Some?
      requires trainSHA == Local(base, Merges(merged, heads))
      requires StoppedBy(w, heads, Now(), now)
      requires if Lost(Now()) then LostAt(base, heads, Now()) else OnMain(base, heads, mergedOK, fetched)
      modifies `now, `wt, `ended
      ensures now >= old(now) && EndedWell()
    {
      hide StoppedBy, LostAt, OnMain, Merges, Trouble;
      ghost var at := now;
      var end := StopEnd(stopRC);
      if end.state in {"not-merged", "ci-failed", "merge-degraded"} {
        VerifyTree();
        StoppedLater(at);
        if ended.Some? { return; }
      }
      Finish(end.code, end.state);
    }

    method ConcludeDone()
      requires ended.None? && Headed(merged) && mergedOK == merged && stopped.None? && OnMain(base, heads, merged, fetched)
      requires trainSHA == Local(base, Merges(merged, heads))
      modifies `now, `wt, `ended
      ensures now >= old(now) && EndedWell()
    {
      hide OnMain, Merges, StoppedWell, Trouble;
      VerifyTree();
      if ended.Some? { return; }
      for i := 0 to |prs|
        invariant ended.None? && forall k :: 0 <= k < i ==> prs[k] in status && status[prs[k]].Merged?
      {
        if !(prs[i] in status && status[prs[i]].Merged?) {
          assert prs[i] in prs;
          Finish(27, "train-partial");
          return;
        }
      }
      Finish(0, "merged");
    }

    /** What every run ends with. Nothing is asked to be merged unless the gate was green over the base plus all the pull
        requests of the train; what is asked for and what is merged are prefixes of the train, in order; and the train is
        made of pull requests that passed every check after the base was read. */
    ghost predicate Ran()
      reads this
    {
      && ended.Some?
      && mergedOK <= asked <= merged && |asked| <= |mergedOK| + 1
      && (forall p :: p in merged ==> p in prs && p in heads && p in checkedAt && since <= checkedAt[p] && Why(checkedAt[p], p) == ""
                                      && heads[p] == w.view(checkedAt[p], p).value.head)
      && (asked != [] ==> Gated(Local(base, Merges(merged, heads)), true) in runs && base == w.main(since))
      && AskedWell(now, asked, mergedOK, askedAt)
      && (ended.value.state in {"base-moved", "train-gate-failed", "train-empty", "gate-lock-timeout", "usage"} ==> asked == [])
    }

    /** The two end states that report success: main as last fetched is the base plus exactly one commit for each pull
        request merged, in order, nothing else in between, and its tree is the one that was gated. */
    ghost predicate Delivered()
      reads this
    {
      && Headed(merged) && mergedOK == merged != []
      && fetched == w.main(since) + Merges(merged, heads) && WasMain(w, fetched, now)
      && Gated(Local(w.main(since), Merges(merged, heads)), true) in runs
      && w.mainTree(fetched) == w.localTree(Local(w.main(since), Merges(merged, heads)))
    }

    /** Why `p` may be missing from the train: it was refused when it was looked at, or it conflicted on the base and
        others. */
    ghost predicate Excluded(t: nat, p: string)
      reads `base, `since, `checkedAt, `heads
    {
      Turned(p) || (p in heads && w.Conflicted(t, base, MergeOf(p)))
    }

    /** Nobody is missing from the train without a reason. */
    ghost predicate LeftOut(t: nat)
      reads `base, `since, `checkedAt, `heads, `merged
    {
      forall p :: p in prs && p !in merged ==> Excluded(t, p)
    }

    lemma LeftOutLater(t: nat)
      requires LeftOut(t) && t <= now
      ensures LeftOut(now)
    {
    }

    ghost predicate Turned(p: string)
      reads `since, `checkedAt
    {
      p in checkedAt && since <= checkedAt[p] && Why(checkedAt[p], p) != ""
    }

    /** The batch is not empty and names nobody twice. */
    ghost predicate Proper() { prs != [] && Distinct(prs) }

    /** The pull requests that boarded, what is known of each, and that everyone else was refused. */
    ghost predicate Boarded()
      reads `base, `since, `keep, `checkedAt, `heads, `status
    {
      && base == w.main(since) && Distinct(prs) && Distinct(keep) && keep == Boarding(prs, checkedAt)
      && (forall p :: p in keep ==> Passed(p))
      && (forall p :: p in prs && p !in keep ==> p in status && status[p].Refused? && Turned(p))
    }

    /** `p` is in the batch and passed every check at a moment after the base was read. */
    ghost predicate Passed(p: string)
      reads `heads, `checkedAt, `since
    {
      && p in prs && p in heads && p in checkedAt && since <= checkedAt[p] && Why(checkedAt[p], p) == ""
      && w.view(checkedAt[p], p).Some? && w.view(checkedAt[p], p).value.state == "OPEN"
      && heads[p] == w.view(checkedAt[p], p).value.head
    }

    lemma RecordedBoards(from: nat)
      requires Distinct(prs) && base == w.main(since) && since <= from
      requires forall p :: p in prs ==> Recorded(from, p)
      requires keep == Boarding(prs, checkedAt)
      ensures Boarded()
    {
      BoardingDistinct(prs, checkedAt);
      forall p | p in prs
        ensures p in keep <==> Why(checkedAt[p], p) == ""
        ensures p in keep ==> Passed(p)
        ensures p !in keep ==> p in status && status[p].Refused? && Turned(p)
      {
        BoardingMembers(prs, checkedAt, p);
        assert Recorded(from, p);
      }
      forall p | p in keep ensures Passed(p) { BoardingMembers(prs, checkedAt, p); }
    }

    /** Reads the base, then lets the pull requests board. */
    method Prepare()
      requires ended.None? && keep == [] && status == map[] && merged == [] && mergedOK == [] && asked == [] && runs == []
      requires stopped.None? && culprit.None?
      modifies `now, `fetched, `base, `since, `heads, `status, `keep, `checkedAt, `ended
      ensures now >= old(now)
      ensures ended.None? ==> Boarded() && since < now && Proper()
      ensures ended.Some? ==> Ran() && Outcome() && Caused()
    {
      hide Boarded, Recorded, Ran, Outcome, Caused, Boarding, Passed, RedTrain, LeftOut, Proper, HasRepeat, Trouble, Distinct;
      hide Refusal, Merges, World.LockedOut, WasMain;
      ProperIs();
      NoRuns();
      if prs == [] || HasRepeat(prs) {
        Finish(2, "usage");
        EndedEarly();
        return;
      }
      if !w.fetch(now) {
        now := now + 1;
        assert !w.fetch(now - 1);
        Finish(21, "fetch-failed");
        EndedEarly();
        return;
      }
      fetched := w.main(now);
      base := fetched;
      since := now;
      now := now + 1;
      Admit();
    }

    /** The pull requests board; nobody boarding ends the run. */
    method Admit()
      requires ended.None? && keep == [] && status == map[] && merged == [] && mergedOK == [] && asked == [] && runs == []
      requires stopped.None? && culprit.None? && Proper() && base == w.main(since) && since < now
      modifies `now, `heads, `status, `keep, `checkedAt, `ended
      ensures now >= old(now)
      ensures ended.None? ==> Boarded()
      ensures ended.Some? ==> Ran() && Outcome() && Caused()
    {
      ProperIs();
      hide *;
      ghost var from := now;
      CheckPRs();
      RecordedBoards(from);
      if |keep| == 0 {
        Finish(28, "train-empty");
        NobodyBoards();
      }
    }

    lemma NobodyBoards()
      requires Boarded() && keep == [] && merged == [] && mergedOK == [] && asked == [] && runs == []
      requires stopped.None? && culprit.None? && Proper() && ended == Some(End(28, "train-empty"))
      ensures Ran() && Outcome() && Caused()
    {
      NoRuns();
      assert LeftOut(now);
      CauseIs();
      hide *;
      EndedEarly();
    }

    /** Everything known once the train is built: who is on it, and that nobody else can end up merged. */
    ghost predicate Aboard()
      reads `base, `since, `merged, `checkedAt, `heads, `status, `trainSHA
    {
      && base == w.main(since) && Distinct(merged) && merged != [] && Headed(merged)
      && (forall p :: p in merged ==> Passed(p))
      && ((forall p :: p in prs ==> p in merged) ==> merged == prs)
      && (forall p :: p in prs && p !in merged ==> p in status && (status[p].Refused? || status[p].Dropped?))
      && trainSHA == Local(base, Merges(merged, heads))
    }

    lemma {:induction false} BoardingAll(ps: seq<string>, at: map<string, nat>)
      requires forall p :: p in ps ==> p in Boarding(prs, at)
      ensures Boarding(ps, at) == ps
    {
      if ps != [] {
        BoardingAll(ps[..|ps| - 1], at);
        BoardingMembers(prs, at, ps[|ps| - 1]);
        assert ps == ps[..|ps| - 1] + [ps[|ps| - 1]];
      }
    }

    lemma BuiltAboard(was: map<string, Status>)
      requires Built(keep, was) && merged != [] && trainSHA == wt
      requires base == w.main(since) && Distinct(prs) && Distinct(keep) && keep == Boarding(prs, checkedAt)
      requires forall p :: p in keep ==> Passed(p)
      requires forall p :: p in prs && p !in keep ==> p in was && was[p].Refused?
      ensures Aboard()
    {
      if forall p :: p in prs ==> p in merged {
        BoardingAll(prs, checkedAt);
        InOrderAll(merged, keep);
      }
      forall p | p in prs && p !in merged ensures p in status && (status[p].Refused? || status[p].Dropped?) {
        if p !in keep { assert SameAt(status, was, p); }
      }
    }

    method Build()
      requires ended.None? && Boarded() && merged == []
      modifies `now, `status, `merged, `wt, `trainSHA, `ended
      ensures now >= old(now) && forall p :: p in merged ==> Passed(p)
      ensures ended.None? ==> Aboard() && wt == trainSHA
      ensures ended.Some? ==> ended.value in {End(29, "train-error"), End(28, "train-empty")}
      ensures ended.None? || ended.value.state == "train-empty" ==> LeftOut(now)
      ensures ended.Some? && ended.value.state == "train-empty" ==> merged == []
      ensures ended.Some? && ended.value.state == "train-error" ==> Trouble()
    {
      hide LeftOut, Trouble, Tried, Passed, AnyBroken, Why, Built;
      ghost var was, t := status, now + 1;
      KeepHeaded();
      BuildTrain();
      if ended.None? || ended.value.state == "train-empty" {
        DropsExcluded(t);
        if ended.None? { BuiltAboard(was); }
      }
    }

    lemma KeepHeaded()
      requires Boarded()
      ensures Headed(keep)
    {
    }

    /** Whoever boarded and is not on the train conflicted when it was tried. */
    lemma DropsExcluded(t: nat)
      requires Headed(keep) && now == t + |keep| && forall p :: p in prs && p !in keep ==> Turned(p)
      requires forall i :: 0 <= i < |keep| && keep[i] !in merged ==> Tried(keep, t, i) == Conflict
      ensures LeftOut(now)
    {
      hide Tried, Passed, Turned;
      forall p | p in prs && p !in merged ensures Excluded(now, p) {
        if p in keep {
          var i :| 0 <= i < |keep| && keep[i] == p;
          TriedConflict(keep, t, i);
        }
      }
    }

    lemma TriedConflict(ps: seq<string>, t: nat, i: nat)
      requires Headed(ps) && i < |ps| && t + i < now && Tried(ps, t, i) == Conflict
      ensures ps[i] in heads && w.Conflicted(now, base, MergeOf(ps[i]))
    {
    }

    /** Builds the train, gates it and checks main. Nothing has been asked to be merged yet. */
    method Depart()
      requires w.Honest() && ended.None? && stopped.None? && Boarded() && since < now && Proper()
      requires merged == [] && mergedOK == [] && asked == [] && runs == [] && culprit.None?
      modifies `now, `status, `merged, `wt, `trainSHA, `ended, `runs, `culprit, `fetched, `expTip
      ensures ended.None? ==>
                && Aboard() && runs == [Gated(trainSHA, true)] && fetched == base == expTip && WasMain(w, fetched, now) && culprit.None?
                && since < now && LeftOut(now) && RealBy(now)
      ensures ended.Some? ==> Ran() && Outcome() && Caused()
    {
      hide *;
      Build();
      if ended.Some? {
        NoRuns();
        CauseIs();
        EndedEarly();
        return;
      }
      AllPassed();
      ghost var from := now;
      GateAndCheck();
      if ended.None? { LeftOutLater(from); }
      if ended.Some? {
        if ended.value.state == "base-moved" { MovedOn(w, fetched, since, from); }
        CauseIs();
        EndedEarly();
      }
    }

    lemma AllPassed()
      requires Aboard()
      ensures forall p :: p in merged ==> Passed(p)
    {
    }

    lemma NoRuns()
      requires runs == []
      ensures RealBy(now)
    {
    }

    /** What an end before the merge phase is due to. */
    ghost predicate EarlyCause()
      reads this
    {
      && ended.Some? && RealBy(now)
      && (ended.value.state == "usage" <==> !Proper())
      && (ended.value.state == "fetch-failed" ==> w.FetchFailed(now))
      && (ended.value.state == "train-error" ==> Trouble())
      && (ended.value.state == "train-empty" ==> LeftOut(now) && merged == [])
      && (ended.value.state == "gate-lock-timeout" ==> Headed(merged) && w.LockedOut(now, Local(base, Merges(merged, heads))))
      && (ended.value.state == "base-moved" ==> w.main(since) < fetched && WasMain(w, fetched, now))
    }

    lemma CauseIs()
      requires ended.Some? && RealBy(now)
      requires ended.value.state == "usage" <==> !Proper()
      requires ended.value.state == "fetch-failed" ==> w.FetchFailed(now)
      requires ended.value.state == "train-error" ==> Trouble()
      requires ended.value.state == "train-empty" ==> LeftOut(now) && merged == []
      requires ended.value.state == "gate-lock-timeout" ==> Headed(merged) && w.LockedOut(now, Local(base, Merges(merged, heads)))
      requires ended.value.state == "base-moved" ==> w.main(since) < fetched && WasMain(w, fetched, now)
      ensures EarlyCause()
    {
    }

    lemma ProperIs()
      ensures Proper() <==> prs != [] && !HasRepeat(prs)
      ensures !HasRepeat(prs) ==> Distinct(prs)
    {
    }

    /** A run that ends before the merge phase has asked for nothing. */
    lemma EndedEarly()
      requires mergedOK == [] && asked == [] && stopped.None? && forall p :: p in merged ==> Passed(p)
      requires EarlyCause()
      requires if ended.value.state == "train-gate-failed" then RedTrain() else culprit.None?
      requires ended.value in {End(2, "usage"), End(21, "fetch-failed"), End(22, "gate-lock-timeout"), End(26, "train-gate-failed"),
                               End(28, "train-empty"), End(29, "train-error"), End(30, "base-moved")}
      ensures Ran() && Outcome() && Caused()
    {
      hide Why, Merges, Delivered, TreeAgrees, OnMain, RedTrain, StoppedWell, TreeDiffers, ReallyRaced, Trouble, LeftOut, Proper;
      hide World.LockedOut, World.FetchFailed, RealBy, WasMain;
    }

    /** Every end state has its cause outside: a stop of the merge phase has the one that `StoppedBy` gives. */
    ghost predicate Caused()
      reads this
    {
      && ended.Some? && RealBy(now)
      && ended.value in {End(0, "merged"), End(2, "usage"), End(17, "ci-failed"), End(18, "merge-degraded"), End(19, "not-merged"),
                         End(21, "fetch-failed"), End(22, "gate-lock-timeout"), End(26, "train-gate-failed"),
                         End(27, "train-partial"), End(28, "train-empty"), End(29, "train-error"), End(30, "base-moved"),
                         End(31, "main-raced"), End(32, "tree-mismatch"), End(33, "merged-out-of-band")}
      && (ended.value.state == "usage" <==> !Proper())
      && (ended.value.state == "fetch-failed" ==> w.FetchFailed(now) || (stopped.Some? && stopRC == 21))
      && (ended.value.state == "train-error" ==> Trouble() || (stopped.Some? && stopRC == 29))
      && (ended.value.state == "gate-lock-timeout" ==> Headed(merged) && w.LockedOut(now, Local(base, Merges(merged, heads))))
      && (ended.value.state == "train-empty" ==> merged == [])
      && (ended.value.state in {"train-empty", "train-partial"} ==> LeftOut(now))
      && (ended.value.state == "base-moved" || stopped.Some? ==> WasMain(w, fetched, now))
      && (ended.value.state in {"not-merged", "ci-failed", "merge-degraded", "main-raced", "merged-out-of-band"} ==> stopped.Some?)
    }

    /** The gate, then the check that main has not moved. */
    method GateAndCheck()
      requires ended.None? && Aboard() && wt == trainSHA && runs == [] && culprit.None? && since < now
      modifies `now, `wt, `runs, `status, `culprit, `ended, `fetched, `expTip
      ensures ended.None? ==>
                && status == old(status) && runs == [Gated(trainSHA, true)] && culprit.None?
                && fetched == base == expTip && WasMain(w, fetched, now)
      ensures now >= old(now) && RealBy(now)
      ensures ended.Some? && ended.value.state == "fetch-failed" ==> w.FetchFailed(now)
      ensures ended.Some? && ended.value.state == "train-error" ==> Trouble()
      ensures ended.Some? && ended.value.state == "gate-lock-timeout" ==>
                Headed(merged) && w.LockedOut(now, Local(base, Merges(merged, heads)))
      ensures ended.Some? ==> if ended.value.state == "train-gate-failed" then RedTrain() else culprit.None?
      ensures ended.Some? && ended.value.state == "base-moved" ==>
                fetched != w.main(since) && SeenFrom(w, fetched, old(now)) && WasMain(w, fetched, now)
      ensures ended.Some? ==> ended.value in {End(21, "fetch-failed"), End(22, "gate-lock-timeout"), End(26, "train-gate-failed"),
                                              End(29, "train-error"), End(30, "base-moved")}
    {
      hide Merges, WasMain, Names, CeilLog2, Passed, RealBy, Trouble, World.LockedOut, World.FetchFailed;
      ghost var from := now;
      RunTrainGate();
      if ended.None? {
        ghost var t := now;
        SeenEarlier(w, from, now);
        PreMerge();
        RealLater(t);
      }
    }

    method Run()
      requires w.Honest() && ended.None? && stopped.None? && culprit.None?
      requires keep == [] && merged == [] && mergedOK == [] && runs == [] && asked == [] && status == map[]
      modifies this
      ensures Ran() && Outcome() && Caused()
      ensures Smooth() && Alone() ==> Success()
    {
      hide *;
      Prepare();
      if ended.None? { Depart(); }
      if ended.None? { MergePhase(); }
      if Smooth() && Alone() { SmoothRun(); }
    }

    /** What the end state says of main and of the batch. */
    ghost predicate Outcome()
      reads this
    {
      && ended.Some?
      && (ended.value.state == "merged" <==> ended.value.code == 0)
      && (ended.value.state in {"merged", "train-partial"} ==> Delivered())
      && (ended.value.state == "merged" ==> merged == prs)
      && (ended.value.state == "train-partial" ==> exists p :: p in prs && p !in merged)
      && (ended.value.state in {"not-merged", "ci-failed", "merge-degraded"} ==>
            OnMain(w.main(since), heads, mergedOK, fetched) && TreeAgrees())
      && (ended.value.state == "merged-out-of-band" ==> OnMain(w.main(since), heads, mergedOK, fetched))
      && (ended.value.state == "base-moved" ==> w.main(since) < fetched)
      && (ended.value.state == "train-gate-failed" <==> ended.value.code == 26)
      && (ended.value.state == "train-gate-failed" ==> RedTrain())
      && (culprit.Some? ==> ended.value.state == "train-gate-failed")
      && (ended.value.state == "tree-mismatch" ==> base == w.main(since) && OnMain(base, heads, mergedOK, fetched) && TreeDiffers())
      && (stopped.Some? ==> base == w.main(since) && StoppedWell())
      && (ended.value.state == "main-raced" ==> stopped.Some? && (asked == mergedOK ==> ReallyRaced()))
    }

    // ---- When everything goes well ----

    /** Nothing outside fails: every fetch and worktree works, every pull request of the batch passes the checks whenever it
        is looked at, every merge is clean, the gate is green, every wait answers 0, and equal histories have equal trees. */
    ghost predicate Smooth() {
      && Proper()
      && (forall t :: w.fetch(t)) && (forall t :: w.worktree(t))
      && (forall t, p :: p in prs ==> Why(t, p) == "")
      && (forall t, l, c :: w.merge(t, l, c) == Clean)
      && (forall t, l :: w.gate(t, l) == Green)
      && (forall t, p, h :: p in prs ==> w.waitMerge(t, p, h) == 0)
      && (forall c, l: Local :: c == l.base + l.prs ==> w.mainTree(c) == w.localTree(l))
    }

    /** As far as the train could see, main grew over the base only by merges it asked for. */
    ghost predicate Alone()
      reads `now, `since, `asked, `heads
    {
      forall t: nat, i :: t < now && |w.main(since)| <= i < |w.main(t)| ==> Ours(w.main(t)[i])
    }

    ghost predicate Ours(c: Change)
      reads `asked, `heads
    {
      c.Merge? && c.pr in asked && c.pr in heads && c.head == heads[c.pr]
    }

    /** The whole batch is merged, each at its recorded head, and nothing else is on main. */
    ghost predicate Success()
      reads this
    {
      && ended == Some(End(0, "merged")) && mergedOK == asked == merged == prs && Headed(prs)
      && fetched == w.main(since) + Merges(prs, heads)
    }

    lemma LastAnswers()
      requires Smooth() && Ran() && asked != []
      ensures var p := asked[|asked| - 1]; p in heads && forall t :: w.waitMerge(t, p, heads[p]) == 0
    {
      var p := asked[|asked| - 1];
      assert p in merged;
    }

    lemma NoTrouble()
      requires Smooth()
      ensures !Trouble() && !w.FetchFailed(now) && !w.WorktreeFailed(now) && forall l :: !w.LockedOut(now, l)
    {
    }

    /** A stop needs a wait that does not answer 0, a fetch or a worktree that fails, or a race. */
    lemma SmoothStops()
      requires Smooth() && Ran() && Outcome() && Caused() && stopped.Some?
      ensures mergedOK == asked && ended == Some(End(31, "main-raced"))
    {
      hide Merges, Why, OnMain, LostAt, TreeAgrees, TreeDiffers, Delivered, RedTrain, ReallyRaced, AskedWell, World.Honest, Smooth, Alone;
      hide World.FetchFailed, World.WorktreeFailed, Trouble, LeftOut, RealBy, WasMain, Proper;
      if asked != [] { LastAnswers(); }
      NoTrouble();
    }

    lemma NotExcluded(t: nat, p: string)
      requires Smooth() && p in prs
      ensures !Excluded(t, p)
    {
    }

    lemma NobodyLeftOut()
      requires Smooth() && LeftOut(now)
      ensures forall p :: p in prs ==> p in merged
    {
      hide Smooth, Excluded;
      forall p | p in prs ensures p in merged { NotExcluded(now, p); }
    }

    lemma NoRed()
      requires Smooth() && RealBy(now)
      ensures !RedTrain()
    {
    }

    /** A pull request merged before has its place on main. */
    lemma Placed(was: Chain, ps: seq<string>, c: Chain, p: string)
      requires Headed(ps) && was + Merges(ps, heads) <= c && p in ps
      ensures exists i :: 0 <= i < |was + Merges(ps, heads)| && c[i].Merge? && c[i].pr == p
    {
      var k :| 0 <= k < |ps| && ps[k] == p;
      var pre := was + Merges(ps, heads);
      assert pre[|was| + k] == Merge(p, heads[p]);
      assert c[|was| + k] == pre[|was| + k];
    }

    /** What came after those merged before is the last one asked for. */
    lemma OnlyLast(was: Chain, init: seq<string>, last: string, c: Chain, j: nat)
      requires Headed(init) && was + Merges(init, heads) <= c && asked == init + [last]
      requires |was + Merges(init, heads)| <= j < |c| && Ours(c[j])
      requires forall i, k :: 0 <= i < k < |c| && c[i].Merge? && c[k].Merge? ==> c[i].pr != c[k].pr
      ensures !Alien(c, j, last)
    {
      hide Merges;
      if c[j].pr in init { Placed(was, init, c, c[j].pr); }
    }

    /** Without other writers there is no race, */
    lemma NoRace()
      requires w.Honest() && Alone() && WasMain(w, fetched, now) && asked == mergedOK != []
      requires Headed(mergedOK[..|mergedOK| - 1])
      ensures !ReallyRaced()
    {
      var init, last := mergedOK[..|mergedOK| - 1], mergedOK[|mergedOK| - 1];
      var t: nat :| t < now && w.fetch(t) && fetched == w.main(t);
      var pre := w.main(since) + Merges(init, heads);
      hide Merges, Alien, Ours;
      if pre <= fetched {
        forall j | |pre| <= j < |fetched| ensures !Alien(fetched, j, last) {
          assert Ours(w.main(t)[j]);
          OnlyLast(w.main(since), init, last, fetched, j);
        }
      }
    }

    /** and main does not move under the gate. */
    lemma NoMove()
      requires Alone() && WasMain(w, fetched, now) && asked == []
      ensures !(w.main(since) < fetched)
    {
      var t: nat :| t < now && w.fetch(t) && fetched == w.main(t);
      hide Ours;
      if w.main(since) < fetched { NotOurs(w.main(t)[|w.main(since)|]); }
    }

    lemma NotOurs(c: Change)
      requires asked == []
      ensures !Ours(c)
    {
    }

    lemma TreesAgree()
      requires Smooth() && OnMain(base, heads, mergedOK, fetched)
      ensures !TreeDiffers()
    {
      var l := Local(base, Merges(mergedOK, heads));
      assert fetched == l.base + l.prs;
    }

    lemma NotStopped()
      requires w.Honest() && Ran() && Outcome() && Caused() && Smooth() && Alone()
      ensures stopped.None?
    {
      hide Smooth, Alone, Ran, World.Honest, Merges, RedTrain, Delivered, LeftOut, StoppedWell, OnMain, TreeDiffers, TreeAgrees;
      if stopped.Some? {
        SmoothStops();
        NoRace();
      }
    }

    /** A run in which nothing fails and nobody interferes merges the whole batch. */
    lemma SmoothRun()
      requires w.Honest() && Ran() && Outcome() && Caused() && Smooth() && Alone()
      ensures Success()
    {
      NotStopped();
      NoTrouble();
      hide Smooth, Alone, World.Honest, Merges, LeftOut, StoppedWell, Trouble, WasMain, RealBy, World.LockedOut, World.FetchFailed;
      hide AskedWell, OnMain, TreeDiffers, TreeAgrees, RedTrain;
      if ended.value.state in {"train-empty", "train-partial"} { NobodyLeftOut(); }
      if ended.value.state == "train-gate-failed" { NoRed(); }
      if ended.value.state == "base-moved" { NoMove(); }
      if ended.value.state == "tree-mismatch" { TreesAgree(); }
      SmoothIsProper();
    }

    lemma SmoothIsProper()
      requires Smooth()
      ensures Proper() && prs != [] && prs[0] in prs
    {
    }

    /** The gate was red over the base plus all the pull requests of the train. A culprit is the one that ends a red prefix
        after a green one; a bisect that names none could not get the gate lock. */
    ghost predicate RedTrain()
      reads this
    {
      && base == w.main(since) && merged != [] && Headed(merged)
      && Gated(Local(base, Merges(merged, heads)), false) in runs
      && (culprit.Some? ==> bisect && exists k: nat :: Names(runs, base, Merges(merged, heads), k) && culprit.value == merged[k - 1])
      && (bisect && culprit.None? ==> exists t: nat, c :: t < now && w.gate(t, c) == LockTimeout)
    }

    /** Main holds the base, the pull requests merged before, then the last one and something that is not it. */
    ghost predicate ReallyRaced()
      reads `mergedOK, `fetched, `heads, `since
    {
      && mergedOK != [] && Headed(mergedOK[..|mergedOK| - 1])
      && Raced(w.main(since) + Merges(mergedOK[..|mergedOK| - 1], heads), fetched, mergedOK[|mergedOK| - 1])
    }

    /** The merge loop, for a train that was gated green, and what it concludes. */
    method MergePhase()
      requires w.Honest() && ended.None? && stopped.None? && culprit.None? && Aboard() && mergedOK == [] && asked == []
      requires runs == [Gated(trainSHA, true)] && fetched == base == expTip && WasMain(w, fetched, now)
      requires since < now && LeftOut(now) && RealBy(now) && Proper()
      modifies `now, `status, `mergedOK, `fetched, `expTip, `stopped, `stopRC, `asked, `askedAt, `wt, `ended
      ensures Ran() && Outcome() && Caused()
    {
      hide Sound, Why, Merges, Ran, Outcome, OpenSince, OnMain, RowState, EndedWell, TreeAgrees, Aboard, Passed, SameAt, Headed;
      hide WasMain, World.Honest, Distinct, Lost, StoppedWell, TreeDiffers, LeftOut, RealBy, Proper, Caused, AskedWell, Trouble;
      hide Refusal, Excluded, Given, MergeOf;
      ghost var start := now;
      SoundStart(w, base, heads, merged, Now(), now);
      OpenAboard();
      ghost var was := status;
      MergeLoop();
      hide *;
      LeftOutLater(start);
      RealLater(start);
      Arrive(was);
    }

    /** What the run concludes when the merge loop is done. `was` are the rows before it. */
    method Arrive(ghost was: map<string, Status>)
      requires ended.None? && culprit.None? && MainState(|merged|) && RowState(|merged|)
      requires base == w.main(since) && Headed(merged) && merged != [] && (forall p :: p in merged ==> Passed(p))
      requires (forall p :: p in prs ==> p in merged) ==> merged == prs
      requires forall p :: p in prs && p !in merged ==> p in was && (was[p].Refused? || was[p].Dropped?)
      requires forall p :: p !in merged ==> SameAt(status, was, p)
      requires trainSHA == Local(base, Merges(merged, heads)) && runs == [Gated(trainSHA, true)]
      requires AskedWell(now, asked, mergedOK, askedAt) && LeftOut(now) && RealBy(now) && Proper()
      modifies `now, `wt, `ended
      ensures Ran() && Outcome() && Caused()
    {
      hide Sound, Why, Merges, Ran, Outcome, OnMain, RowState, EndedWell, TreeAgrees, Passed, SameAt, Headed;
      hide WasMain, LeftOut, RealBy, Proper, Caused, AskedWell;
      ghost var ph, t, start := Now(), now, now;
      Conclude();
      hide *;
      SoundLater(w, base, heads, merged, ph, t, |merged|, now);
      LeftOutLater(start);
      RealLater(start);
      AskedLater(t);
      RanWell(was);
      EndCaused();
    }

    lemma EndCaused()
      requires MainState(|merged|) && EndedWell() && LeftOut(now) && RealBy(now) && Proper()
      ensures Caused()
    {
      SoundEnd(w, base, heads, merged, Now(), now);
      hide Sound, LeftOut, RealBy, Proper, Trouble, WasMain, OnMain, TreeDiffers, TreeAgrees, LostAt, StoppedBy;
    }

    lemma OpenAboard()
      requires Aboard()
      ensures OpenSince(merged) && Distinct(merged) && base == w.main(since) && Headed(merged) && merged != []
      ensures forall p :: p in merged ==> Passed(p)
      ensures (forall p :: p in prs ==> p in merged) ==> merged == prs
      ensures forall p :: p in prs && p !in merged ==> p in status && (status[p].Refused? || status[p].Dropped?)
      ensures trainSHA == Local(base, Merges(merged, heads))
    {
    }

    /** The end states, read together with the state of the merge phase and the rows of the receipt. */
    lemma RanWell(was: map<string, Status>)
      requires MainState(|merged|) && RowState(|merged|) && EndedWell() && culprit.None?
      requires base == w.main(since) && Headed(merged) && merged != [] && (forall p :: p in merged ==> Passed(p))
      requires (forall p :: p in prs ==> p in merged) ==> merged == prs
      requires forall p :: p in prs && p !in merged ==> p in was && (was[p].Refused? || was[p].Dropped?)
      requires forall p :: p !in merged ==> SameAt(status, was, p)
      requires trainSHA == Local(base, Merges(merged, heads)) && runs == [Gated(trainSHA, true)]
      requires AskedWell(now, asked, mergedOK, askedAt)
      ensures Ran() && Outcome()
    {
      hide Merges, Why, Sound, AskedWell;
      SoundEnd(w, base, heads, merged, Now(), now);
      assert forall p :: p in prs && p !in merged ==> SameAt(status, was, p);
    }
  }

  lemma SoundStart(w: World, base: Chain, heads: map<string, string>, merged: seq<string>, ph: Phase, now: nat)
    requires ph.ok == [] && ph.asked == [] && !ph.stopped && ph.fetched == base == ph.tip && WasMain(w, base, now)
    ensures Sound(w, base, heads, merged, ph, now, 0)
  {
    assert base + Merges([], heads) == base;
  }

  lemma {:induction false} InOrderMembers(a: seq<string>, b: seq<string>)
    requires InOrder(a, b)
    ensures forall p :: p in a ==> p in b
    decreases |b|
  {
    if a != [] {
      var x := b[|b| - 1];
      if a[|a| - 1] == x { InOrderMembers(a[..|a| - 1], b[..|b| - 1]); } else { InOrderMembers(a, b[..|b| - 1]); }
      assert a == a[..|a| - 1] + [a[|a| - 1]] && b == b[..|b| - 1] + [x];
    }
  }

  /** Leaving nothing out leaves the list as it is. */
  lemma {:induction false} InOrderAll(a: seq<string>, b: seq<string>)
    requires InOrder(a, b) && Distinct(b) && forall p :: p in b ==> p in a
    ensures a == b
    decreases |b|
  {
    if b == [] {
    } else {
      var x, c := b[|b| - 1], b[..|b| - 1];
      assert b == c + [x];
      InOrderLast(a, c, x);
      AllButLast(a, c, x);
      InOrderAll(a[..|a| - 1], c);
      assert a == a[..|a| - 1] + [x];
    }
  }

  lemma AllButLast(a: seq<string>, c: seq<string>, x: string)
    requires a != [] && a[|a| - 1] == x && x !in c && forall p :: p in c ==> p in a
    ensures forall p :: p in c ==> p in a[..|a| - 1]
  {
    assert a == a[..|a| - 1] + [x];
  }

  lemma InOrderLast(a: seq<string>, c: seq<string>, x: string)
    requires InOrder(a, c + [x]) && x in a && x !in c
    ensures a[|a| - 1] == x && InOrder(a[..|a| - 1], c)
  {
    assert (c + [x])[..|c|] == c;
    if InOrder(a, c) { InOrderMembers(a, c); }
  }

  lemma SoundEnd(w: World, base: Chain, heads: map<string, string>, merged: seq<string>, ph: Phase, now: nat)
    requires Sound(w, base, heads, merged, ph, now, |merged|)
    ensures ph.ok <= merged && ph.ok <= ph.asked <= merged && |ph.asked| <= |ph.ok| + 1 && WasMain(w, ph.fetched, now)
    ensures if Lost(ph) then LostAt(base, heads, ph) else OnMain(base, heads, ph.ok, ph.fetched)
    ensures if ph.stopped then StoppedBy(w, heads, ph, now) else ph.ok == merged
  {
    hide OnMain, LostAt, StoppedBy;
    assert merged[..|merged|] == merged;
  }

  ghost predicate SameAt(a: map<string, Status>, b: map<string, Status>, p: string) {
    (p in a <==> p in b) && (p in a ==> a[p] == b[p])
  }

  /** The worktree `t` is the base and, in order, those of `ps` that are in `m`. */
  ghost predicate TrainIs(base: Chain, heads: map<string, string>, m: seq<string>, t: Local, ps: seq<string>) {
    && (forall p :: p in m ==> p in heads) && Distinct(m) && InOrder(m, ps) && (forall p :: p in m ==> p in ps)
    && t == Local(base, Merges(m, heads))
  }

  /** Those of `ps` that are not in `m` are dropped, and no other row has changed. */
  ghost predicate RowsAre(st: map<string, Status>, was: map<string, Status>, m: seq<string>, ps: seq<string>) {
    && (forall p :: p in ps && p !in m ==> p in st && st[p] == Dropped)
    && (forall p :: p !in ps || p in m ==> SameAt(st, was, p))
  }

  lemma TrainGrows(base: Chain, heads: map<string, string>, m: seq<string>, t: Local, ps: seq<string>, p: string)
    requires TrainIs(base, heads, m, t, ps) && p !in ps && p in heads
    ensures TrainIs(base, heads, m + [p], Local(base, t.prs + [Merge(p, heads[p])]), ps + [p])
    ensures TrainIs(base, heads, m, t, ps + [p])
  {
    MergesSnoc(m, p, heads);
    InOrderTake(m, ps, p);
    InOrderSkip(m, ps, p);
    hide InOrder, Merges;
  }

  lemma RowsGrow(st: map<string, Status>, was: map<string, Status>, m: seq<string>, ps: seq<string>, p: string)
    requires RowsAre(st, was, m, ps) && p !in ps && forall q :: q in m ==> q in ps
    ensures RowsAre(st, was, m + [p], ps + [p])
    ensures RowsAre(st[p := Dropped], was, m, ps + [p])
  {
  }

  /** `a` is `b` with some elements left out. */
  ghost predicate InOrder(a: seq<string>, b: seq<string>) {
    if a == [] then true
    else if b == [] then false
    else if a[|a| - 1] == b[|b| - 1] then InOrder(a[..|a| - 1], b[..|b| - 1])
    else InOrder(a, b[..|b| - 1])
  }

  lemma InOrderTake(a: seq<string>, b: seq<string>, p: string)
    requires InOrder(a, b)
    ensures InOrder(a + [p], b + [p])
  {
    assert (a + [p])[..|a|] == a && (b + [p])[..|b|] == b;
  }

  lemma InOrderSkip(a: seq<string>, b: seq<string>, p: string)
    requires InOrder(a, b) && p !in a
    ensures InOrder(a, b + [p])
  {
    assert (b + [p])[..|b|] == b;
    assert a != [] ==> a[|a| - 1] in a;
  }
}
