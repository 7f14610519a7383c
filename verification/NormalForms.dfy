/** Canonical ordering and canonical composition (sections 3.11 and 3.12 of the Unicode Standard) over any scheme of
    combining classes, full decompositions and primary composites. */
module NormalForms {
  import opened Wrappers
  import opened Sequences
  import StableSort

  /** `ccc` is the combining class, `dec` the full canonical decomposition of one code point and `pair` the composite of
      two. */
  datatype Scheme = Scheme(ccc: int -> nat, dec: int -> seq<int>, pair: (int, int) -> Option<int>)
  {
    /** A code point that decomposition leaves alone. */
    ghost predicate Leaf(r: int) { dec(r) == [r] }

    ghost predicate AllLeaf(s: seq<int>) { forall i :: 0 <= i < |s| ==> Leaf(s[i]) }

    /** Decompositions are full, and a composite decomposes to what its two parts decompose to. */
    ghost predicate Lawful() {
      && (forall r, x {:trigger x in dec(r)} :: x in dec(r) ==> dec(x) == [x])
      && (forall a, b :: pair(a, b).Some? ==> dec(pair(a, b).value) == dec(a) + dec(b))
    }

    /** Only starters compose with what follows, and to starters. */
    ghost predicate StartersCompose() {
      forall a, b :: pair(a, b).Some? ==> ccc(a) == 0 && ccc(pair(a, b).value) == 0
    }
  }

  function DecomposeAll(u: Scheme, s: seq<int>): seq<int> {
    if s == [] then [] else u.dec(s[0]) + DecomposeAll(u, s[1..])
  }

  /** Puts one more code point in front of a canonically ordered text: it moves right past smaller non-zero classes and
      never past a starter. */
  function InsertMark(u: Scheme, x: int, s: seq<int>): seq<int> {
    if s == [] || u.ccc(x) == 0 || u.ccc(s[0]) == 0 || u.ccc(x) <= u.ccc(s[0]) then [x] + s
    else [s[0]] + InsertMark(u, x, s[1..])
  }

  /** The Canonical Ordering Algorithm as a function of the text. */
  function Reorder(u: Scheme, s: seq<int>): seq<int> {
    if s == [] then [] else InsertMark(u, s[0], Reorder(u, s[1..]))
  }

  /** No adjacent pair is a reorderable pair: a non-starter never follows one of a higher class. */
  ghost predicate Ordered(u: Scheme, s: seq<int>) {
    forall i, j :: 0 <= i && j == i + 1 < |s| && u.ccc(s[j]) != 0 ==> u.ccc(s[i]) <= u.ccc(s[j])
  }

  /** What the composition loop carries: the text so far, the index of the last starter and the class of the last code
      point appended (256 while a leading non-starter blocks everything). */
  datatype Composing = Composing(out: seq<int>, starter: nat, last: nat)

  function ComposeStep(u: Scheme, st: Composing, r: int): (next: Composing)
    requires st.starter < |st.out|
    ensures next.starter < |next.out|
  {
    var combining := u.ccc(r);
    var c := u.pair(st.out[st.starter], r);
    if c.Some? && (st.last < combining || st.last == 0) then st.(out := st.out[st.starter := c.value])
    else Composing(st.out + [r], if combining == 0 then |st.out| else st.starter, combining)
  }

  function ComposeFrom(u: Scheme, st: Composing, rs: seq<int>): seq<int>
    requires st.starter < |st.out|
    decreases |rs|
  {
    if rs == [] then st.out else ComposeFrom(u, ComposeStep(u, st, rs[0]), rs[1..])
  }

  function ComposeStart(u: Scheme, r: int): Composing {
    Composing([r], 0, if u.ccc(r) != 0 then 256 else 0)
  }

  function ComposeAll(u: Scheme, rs: seq<int>): seq<int> {
    if rs == [] then [] else ComposeFrom(u, ComposeStart(u, rs[0]), rs[1..])
  }

  /** Normalization Form D and Normalization Form C. */
  function Nfd(u: Scheme, s: seq<int>): seq<int> { Reorder(u, DecomposeAll(u, s)) }

  function Nfc(u: Scheme, s: seq<int>): seq<int> { ComposeAll(u, Nfd(u, s)) }

  // ---- Decomposition ----

  lemma DecIsFull(u: Scheme, r: int, x: int)
    requires u.Lawful() && x in u.dec(r)
    ensures u.Leaf(x)
  {
  }

  lemma {:induction false} DecomposeAllIsFull(u: Scheme, s: seq<int>)
    requires u.Lawful()
    ensures u.AllLeaf(DecomposeAll(u, s))
  {
    if s != [] {
      DecomposeAllIsFull(u, s[1..]);
      forall i | 0 <= i < |u.dec(s[0])| ensures u.Leaf(u.dec(s[0])[i]) { DecIsFull(u, s[0], u.dec(s[0])[i]); }
    }
  }

  lemma {:induction false} DecomposeAllConcat(u: Scheme, p: seq<int>, q: seq<int>)
    ensures DecomposeAll(u, p + q) == DecomposeAll(u, p) + DecomposeAll(u, q)
  {
    if p == [] {
      assert p + q == q;
    } else {
      DecomposeAllConcat(u, p[1..], q);
      assert (p + q)[1..] == p[1..] + q;
    }
  }

  lemma {:induction false} DecomposeAllLeaf(u: Scheme, s: seq<int>)
    requires u.AllLeaf(s)
    ensures DecomposeAll(u, s) == s
  {
    if s != [] {
      assert u.Leaf(s[0]);
      DecomposeAllLeaf(u, s[1..]);
    }
  }

  lemma DecomposeSplit(u: Scheme, p: seq<int>, x: int, mid: seq<int>)
    ensures DecomposeAll(u, p + [x] + mid) == DecomposeAll(u, p) + u.dec(x) + DecomposeAll(u, mid)
  {
    DecomposeAllConcat(u, p + [x], mid);
    DecomposeAllConcat(u, p, [x]);
  }

  // ---- Canonical ordering ----

  lemma {:induction false} InsertMarkSwap(u: Scheme, a: int, b: int, s: seq<int>)
    requires u.ccc(a) != 0 && u.ccc(b) != 0 && u.ccc(a) != u.ccc(b)
    ensures InsertMark(u, a, InsertMark(u, b, s)) == InsertMark(u, b, InsertMark(u, a, s))
  {
    if s != [] && u.ccc(s[0]) != 0 && u.ccc(s[0]) < u.ccc(a) && u.ccc(s[0]) < u.ccc(b) {
      InsertMarkSwap(u, a, b, s[1..]);
    }
  }

  lemma ReorderCons(u: Scheme, x: int, s: seq<int>)
    ensures Reorder(u, [x] + s) == InsertMark(u, x, Reorder(u, s))
  {
    assert ([x] + s)[1..] == s;
  }

  /** The order of a text depends on its tail only through the order of that tail. */
  lemma {:induction false} ReorderTail(u: Scheme, p: seq<int>, s: seq<int>, v: seq<int>)
    requires Reorder(u, s) == Reorder(u, v)
    ensures Reorder(u, p + s) == Reorder(u, p + v)
  {
    if p == [] {
      assert p + s == s && p + v == v;
    } else {
      ReorderTail(u, p[1..], s, v);
      assert (p + s)[1..] == p[1..] + s;
      assert (p + v)[1..] == p[1..] + v;
    }
  }

  /** Exchanging a reorderable pair anywhere does not change the canonical order. */
  lemma ReorderSwap(u: Scheme, p: seq<int>, a: int, b: int, q: seq<int>)
    requires u.ccc(a) != 0 && u.ccc(b) != 0 && u.ccc(a) != u.ccc(b)
    ensures Reorder(u, p + ([a] + ([b] + q))) == Reorder(u, p + ([b] + ([a] + q)))
  {
    ReorderCons(u, a, [b] + q);
    ReorderCons(u, b, [a] + q);
    ReorderCons(u, a, q);
    ReorderCons(u, b, q);
    InsertMarkSwap(u, a, b, Reorder(u, q));
    ReorderTail(u, p, [a] + ([b] + q), [b] + ([a] + q));
  }

  /** A mark may be pulled left over a run of marks of smaller class. */
  lemma {:induction false} ReorderPull(u: Scheme, mid: seq<int>, r: int, q: seq<int>)
    requires forall i :: 0 <= i < |mid| ==> 0 < u.ccc(mid[i]) < u.ccc(r)
    ensures Reorder(u, mid + ([r] + q)) == Reorder(u, [r] + (mid + q))
  {
    if mid == [] {
      assert mid + ([r] + q) == [r] + (mid + q);
    } else {
      var x, m := mid[0], mid[1..];
      ReorderPull(u, m, r, q);
      PullOne(u, x, m, r, q);
      assert mid == [x] + m;
      Assoc([x], m, [r] + q);
      Assoc([x], m, q);
    }
  }

  lemma PullOne(u: Scheme, x: int, m: seq<int>, r: int, q: seq<int>)
    requires 0 < u.ccc(x) < u.ccc(r)
    requires Reorder(u, m + ([r] + q)) == Reorder(u, [r] + (m + q))
    ensures Reorder(u, [x] + (m + ([r] + q))) == Reorder(u, [r] + ([x] + (m + q)))
  {
    ReorderTail(u, [x], m + ([r] + q), [r] + (m + q));
    ReorderSwap(u, [], x, r, m + q);
    assert [] + ([x] + ([r] + (m + q))) == [x] + ([r] + (m + q));
    assert [] + ([r] + ([x] + (m + q))) == [r] + ([x] + (m + q));
  }

  lemma OrderedTail(u: Scheme, s: seq<int>)
    requires s != [] && Ordered(u, s)
    ensures Ordered(u, s[1..])
    ensures |s| > 1 && u.ccc(s[1]) != 0 ==> u.ccc(s[0]) <= u.ccc(s[1])
  {
    var v := s[1..];
    forall i, j | 0 <= i && j == i + 1 < |v| && u.ccc(v[j]) != 0 ensures u.ccc(v[i]) <= u.ccc(v[j]) {
      assert v[i] == s[j] && v[j] == s[j + 1];
    }
  }

  lemma OrderedCons(u: Scheme, x: int, s: seq<int>)
    requires Ordered(u, s)
    requires s != [] && u.ccc(s[0]) != 0 ==> u.ccc(x) <= u.ccc(s[0])
    ensures Ordered(u, [x] + s)
  {
    var v := [x] + s;
    forall i, j | 0 <= i && j == i + 1 < |v| && u.ccc(v[j]) != 0 ensures u.ccc(v[i]) <= u.ccc(v[j]) {
      assert v[j] == s[i];
    }
  }

  lemma {:induction false} InsertMarkOrdered(u: Scheme, x: int, s: seq<int>)
    requires Ordered(u, s)
    ensures Ordered(u, InsertMark(u, x, s))
  {
    if s == [] || u.ccc(x) == 0 || u.ccc(s[0]) == 0 || u.ccc(x) <= u.ccc(s[0]) {
      OrderedCons(u, x, s);
    } else {
      OrderedTail(u, s);
      InsertMarkOrdered(u, x, s[1..]);
      OrderedCons(u, s[0], InsertMark(u, x, s[1..]));
    }
  }

  /** The result is canonically ordered ... */
  lemma {:induction false} ReorderOrdered(u: Scheme, s: seq<int>)
    ensures Ordered(u, Reorder(u, s))
  {
    if s != [] {
      ReorderOrdered(u, s[1..]);
      InsertMarkOrdered(u, s[0], Reorder(u, s[1..]));
    }
  }

  /** ... and a canonically ordered text is left alone. */
  lemma {:induction false} ReorderFixed(u: Scheme, s: seq<int>)
    requires Ordered(u, s)
    ensures Reorder(u, s) == s
  {
    if s != [] {
      OrderedTail(u, s);
      ReorderFixed(u, s[1..]);
    }
  }

  lemma {:induction false} InsertMarkPermutes(u: Scheme, x: int, s: seq<int>)
    ensures multiset(InsertMark(u, x, s)) == multiset{x} + multiset(s)
  {
    if s != [] {
      InsertMarkPermutes(u, x, s[1..]);
      assert s == [s[0]] + s[1..];
    }
  }

  lemma {:induction false} ReorderPermutes(u: Scheme, s: seq<int>)
    ensures multiset(Reorder(u, s)) == multiset(s)
  {
    if s != [] {
      ReorderPermutes(u, s[1..]);
      InsertMarkPermutes(u, s[0], Reorder(u, s[1..]));
      assert s == [s[0]] + s[1..];
    }
  }

  lemma ReorderLeaf(u: Scheme, s: seq<int>)
    requires u.AllLeaf(s)
    ensures u.AllLeaf(Reorder(u, s))
  {
    ReorderPermutes(u, s);
    StableSort.MultisetMember(Reorder(u, s), s);
    var r := Reorder(u, s);
    forall i | 0 <= i < |r| ensures u.Leaf(r[i]) { assert r[i] in s; }
  }

  /** A starter is never crossed, so the text before it and the text from it on are ordered independently. */
  lemma {:induction false} ReorderAtStarter(u: Scheme, p: seq<int>, q: seq<int>)
    requires q == [] || u.ccc(q[0]) == 0
    ensures Reorder(u, p + q) == Reorder(u, p) + Reorder(u, q)
  {
    if p == [] {
      assert p + q == q;
    } else {
      ReorderAtStarter(u, p[1..], q);
      assert (p + q)[1..] == p[1..] + q;
      ReorderHead(u, q);
      InsertMarkAtStarter(u, p[0], Reorder(u, p[1..]), Reorder(u, q));
    }
  }

  lemma ReorderHead(u: Scheme, q: seq<int>)
    requires q == [] || u.ccc(q[0]) == 0
    ensures Reorder(u, q) == [] || u.ccc(Reorder(u, q)[0]) == 0
  {
  }

  lemma {:induction false} InsertMarkAtStarter(u: Scheme, x: int, s: seq<int>, v: seq<int>)
    requires v == [] || u.ccc(v[0]) == 0
    ensures InsertMark(u, x, s + v) == InsertMark(u, x, s) + v
  {
    if s == [] {
      assert s + v == v;
    } else if u.ccc(x) == 0 || u.ccc(s[0]) == 0 || u.ccc(x) <= u.ccc(s[0]) {
      assert [x] + (s + v) == ([x] + s) + v;
    } else {
      InsertMarkAtStarter(u, x, s[1..], v);
      assert (s + v)[1..] == s[1..] + v;
      assert [s[0]] + (InsertMark(u, x, s[1..]) + v) == ([s[0]] + InsertMark(u, x, s[1..])) + v;
    }
  }

  function ByClass(u: Scheme): (int, int) -> int { (a: int, b: int) => u.ccc(a) - u.ccc(b) }

  /** On a run of non-starters the algorithm is a stable sort by class. */
  lemma {:induction false} ReorderRun(u: Scheme, run: seq<int>)
    requires forall i :: 0 <= i < |run| ==> u.ccc(run[i]) != 0
    ensures Reorder(u, run) == StableSort.Sort(run, ByClass(u))
  {
    if run != [] {
      ReorderRun(u, run[1..]);
      ReorderPermutes(u, run[1..]);
      var rest := Reorder(u, run[1..]);
      StableSort.MultisetMember(rest, run[1..]);
      forall i | 0 <= i < |rest| ensures u.ccc(rest[i]) != 0 { assert rest[i] in run[1..]; }
      InsertRun(u, run[0], rest);
    }
  }

  lemma {:induction false} InsertRun(u: Scheme, x: int, s: seq<int>)
    requires u.ccc(x) != 0 && forall i :: 0 <= i < |s| ==> u.ccc(s[i]) != 0
    ensures InsertMark(u, x, s) == StableSort.Insert(x, s, ByClass(u))
  {
    if s != [] {
      InsertRun(u, x, s[1..]);
      if u.ccc(x) <= u.ccc(s[0]) {
        assert ByClass(u)(x, s[0]) <= 0;
        assert StableSort.Insert(x, s, ByClass(u)) == [x] + s;
      } else {
        assert ByClass(u)(x, s[0]) > 0;
        assert StableSort.Insert(x, s, ByClass(u)) == [s[0]] + StableSort.Insert(x, s[1..], ByClass(u));
      }
    }
  }

  // ---- Composition ----

  /** What holds between two steps of composition over a canonically ordered, fully decomposed text: after the starter
      come only marks of class at most `last`, and the rest of the text, which follows a code point of class `prev`,
      carries on in order. */
  ghost predicate ComposingOk(u: Scheme, st: Composing, prev: nat, rest: seq<int>) {
    && st.starter < |st.out|
    && u.AllLeaf(rest) && Ordered(u, rest)
    && (forall i :: st.starter < i < |st.out| ==> u.Leaf(st.out[i]) && 0 < u.ccc(st.out[i]) <= st.last)
    && (st.starter + 1 < |st.out| ==> st.last <= prev)
    && (rest != [] && u.ccc(rest[0]) != 0 ==> prev <= u.ccc(rest[0]))
  }

  /** One composition leaves the canonical decomposition of the whole text unchanged. */
  lemma ComposeKeepsNfd(u: Scheme, p: seq<int>, x: int, mid: seq<int>, r: int, c: int, q: seq<int>)
    requires u.dec(c) == u.dec(x) + [r] && u.AllLeaf(mid)
    requires forall i :: 0 <= i < |mid| ==> 0 < u.ccc(mid[i]) < u.ccc(r)
    ensures Reorder(u, DecomposeAll(u, p + [c] + mid) + q) == Reorder(u, DecomposeAll(u, p + [x] + mid) + ([r] + q))
  {
    var d, front := DecomposeAll(u, p), DecomposeAll(u, p) + u.dec(x);
    DecomposeSplit(u, p, x, mid);
    DecomposeSplit(u, p, c, mid);
    DecomposeAllLeaf(u, mid);
    Regroup(d, u.dec(x), [r], mid, q);
    ReorderPull(u, mid, r, q);
    ReorderTail(u, front, mid + ([r] + q), [r] + (mid + q));
  }

  lemma Regroup<T>(d: seq<T>, e: seq<T>, r: seq<T>, mid: seq<T>, q: seq<T>)
    ensures d + (e + r) + mid + q == (d + e) + (r + (mid + q))
    ensures d + e + mid + (r + q) == (d + e) + (mid + (r + q))
  {
  }

  lemma ComposingStep(u: Scheme, st: Composing, prev: nat, rest: seq<int>)
    requires rest != [] && ComposingOk(u, st, prev, rest)
    ensures ComposingOk(u, ComposeStep(u, st, rest[0]), u.ccc(rest[0]), rest[1..])
  {
    OrderedTail(u, rest);
    assert u.Leaf(rest[0]);
  }

  lemma {:induction false} ComposeFromKeepsNfd(u: Scheme, st: Composing, prev: nat, rest: seq<int>)
    requires u.Lawful() && ComposingOk(u, st, prev, rest)
    ensures Nfd(u, ComposeFrom(u, st, rest)) == Reorder(u, DecomposeAll(u, st.out) + rest)
    decreases |rest|
  {
    if rest == [] {
      assert DecomposeAll(u, st.out) + rest == DecomposeAll(u, st.out);
    } else {
      ComposingStep(u, st, prev, rest);
      ComposeFromKeepsNfd(u, ComposeStep(u, st, rest[0]), u.ccc(rest[0]), rest[1..]);
      ComposeStepKeepsNfd(u, st, prev, rest);
    }
  }

  lemma ComposeStepKeepsNfd(u: Scheme, st: Composing, prev: nat, rest: seq<int>)
    requires u.Lawful() && rest != [] && ComposingOk(u, st, prev, rest)
    ensures Reorder(u, DecomposeAll(u, ComposeStep(u, st, rest[0]).out) + rest[1..])
         == Reorder(u, DecomposeAll(u, st.out) + rest)
  {
    var r := rest[0];
    assert u.Leaf(r);
    assert rest == [r] + rest[1..];
    if u.pair(st.out[st.starter], r).Some? && (st.last < u.ccc(r) || st.last == 0) {
      ReplaceKeepsNfd(u, st.out, st.starter, r, rest[1..]);
    } else {
      DecomposeAllConcat(u, st.out, [r]);
      DecomposeAllLeaf(u, [r]);
      Assoc(DecomposeAll(u, st.out), [r], rest[1..]);
    }
  }

  lemma ReplaceKeepsNfd(u: Scheme, out: seq<int>, k: nat, r: int, q: seq<int>)
    requires u.Lawful() && k < |out| && u.Leaf(r) && u.pair(out[k], r).Some?
    requires forall i :: k < i < |out| ==> u.Leaf(out[i]) && 0 < u.ccc(out[i]) < u.ccc(r)
    ensures Reorder(u, DecomposeAll(u, out[k := u.pair(out[k], r).value]) + q)
         == Reorder(u, DecomposeAll(u, out) + ([r] + q))
  {
    var p, x, mid := out[..k], out[k], out[k + 1..];
    var c := u.pair(x, r).value;
    assert out == p + [x] + mid;
    assert out[k := c] == p + [c] + mid;
    ComposeKeepsNfd(u, p, x, mid, r, c, q);
  }

  // ---- Composition as the standard defines it ----

  /** Where the last starter of a text stands. */
  function LastStarter(u: Scheme, out: seq<int>): (k: Option<nat>)
    ensures k.Some? ==> k.value < |out| && u.ccc(out[k.value]) == 0
    ensures forall i: nat :: i < |out| && (k.Some? ==> i > k.value) ==> u.ccc(out[i]) != 0
  {
    if out == [] then None
    else if u.ccc(out[|out| - 1]) == 0 then Some(|out| - 1)
    else LastStarter(u, out[..|out| - 1])
  }

  /** A following code point is blocked from the starter at `k` by a starter in between, or by a mark of at least its own
      class. */
  ghost predicate Blocked(u: Scheme, out: seq<int>, k: nat, r: int) {
    exists i :: k < i < |out| && (u.ccc(out[i]) == 0 || u.ccc(out[i]) >= u.ccc(r))
  }

  /** The next code point composes with the last starter when it is not blocked from it and they have a composite. */
  ghost function Accept(u: Scheme, out: seq<int>, r: int): seq<int> {
    match LastStarter(u, out)
    case None => out + [r]
    case Some(k) =>
      if u.pair(out[k], r).Some? && !Blocked(u, out, k, r) then out[k := u.pair(out[k], r).value] else out + [r]
  }

  ghost function ComposedByDefinition(u: Scheme, out: seq<int>, rs: seq<int>): seq<int>
    decreases |rs|
  {
    if rs == [] then out else ComposedByDefinition(u, Accept(u, out, rs[0]), rs[1..])
  }

  /** What the two variables of the loop stand for: `starter` is the last starter, if there is one, and `last` the class
      of the code point before, if that is not the starter itself. */
  ghost predicate Tracks(u: Scheme, st: Composing) {
    && st.starter < |st.out|
    && if u.ccc(st.out[st.starter]) == 0 then
         LastStarter(u, st.out) == Some(st.starter)
         && st.last == if st.starter + 1 == |st.out| then 0 else u.ccc(st.out[|st.out| - 1])
       else
         st.starter == 0 && LastStarter(u, st.out) == None
  }

  lemma LastStarterSnoc(u: Scheme, out: seq<int>, r: int)
    ensures LastStarter(u, out + [r]) == if u.ccc(r) == 0 then Some(|out|) else LastStarter(u, out)
  {
    assert (out + [r])[..|out|] == out;
  }

  lemma LastStarterIs(u: Scheme, out: seq<int>, k: nat)
    requires k < |out| && u.ccc(out[k]) == 0 && forall i :: k < i < |out| ==> u.ccc(out[i]) != 0
    ensures LastStarter(u, out) == Some(k)
  {
    var l := LastStarter(u, out);
    assert l.Some? ==> l.value == k;
  }

  lemma ComposesToStarter(u: Scheme, a: int, b: int)
    requires u.StartersCompose() && u.pair(a, b).Some?
    ensures u.ccc(a) == 0 && u.ccc(u.pair(a, b).value) == 0
  {
  }

  predicate Composes(u: Scheme, st: Composing, r: int)
    requires st.starter < |st.out|
  {
    u.pair(st.out[st.starter], r).Some? && (st.last < u.ccc(r) || st.last == 0)
  }

  /** On canonically ordered text the variable `last` tells whether anything blocks. */
  lemma LastTellsBlocked(u: Scheme, st: Composing, prev: nat, rest: seq<int>)
    requires rest != [] && ComposingOk(u, st, prev, rest) && Tracks(u, st) && u.ccc(st.out[st.starter]) == 0
    ensures Blocked(u, st.out, st.starter, rest[0]) <==> !(st.last < u.ccc(rest[0]) || st.last == 0)
  {
    var out, k, r := st.out, st.starter, rest[0];
    if k + 1 < |out| {
      assert 0 < u.ccc(out[|out| - 1]) == st.last;
      if st.last >= u.ccc(r) { assert Blocked(u, out, k, r); }
    }
  }

  lemma TracksComposed(u: Scheme, st: Composing, c: int)
    requires Tracks(u, st) && u.ccc(st.out[st.starter]) == 0 && u.ccc(c) == 0
    ensures Tracks(u, st.(out := st.out[st.starter := c]))
  {
    LastStarterIs(u, st.out[st.starter := c], st.starter);
  }

  lemma TracksAppended(u: Scheme, st: Composing, r: int)
    requires Tracks(u, st)
    ensures Tracks(u, Composing(st.out + [r], if u.ccc(r) == 0 then |st.out| else st.starter, u.ccc(r)))
  {
    LastStarterSnoc(u, st.out, r);
  }

  lemma StarterOf(u: Scheme, st: Composing)
    requires Tracks(u, st)
    ensures st.starter < |st.out|
    ensures LastStarter(u, st.out) == if u.ccc(st.out[st.starter]) == 0 then Some(st.starter) else None
  {
  }

  /** The test of the loop is the definition: on canonically ordered text it composes exactly when nothing blocks. */
  lemma StepIsAccept(u: Scheme, st: Composing, prev: nat, rest: seq<int>)
    requires u.StartersCompose() && rest != [] && ComposingOk(u, st, prev, rest) && Tracks(u, st)
    ensures ComposeStep(u, st, rest[0]).out == Accept(u, st.out, rest[0]) && Tracks(u, ComposeStep(u, st, rest[0]))
  {
    hide Tracks, ComposingOk, Blocked, LastStarter, Scheme.StartersCompose;
    var r := rest[0];
    StarterOf(u, st);
    if u.pair(st.out[st.starter], r).Some? { ComposesToStarter(u, st.out[st.starter], r); }
    if u.ccc(st.out[st.starter]) == 0 { LastTellsBlocked(u, st, prev, rest); }
    if Composes(u, st, r) {
      TracksComposed(u, st, u.pair(st.out[st.starter], r).value);
    } else {
      TracksAppended(u, st, r);
    }
  }

  lemma {:induction false} FromIsDefinition(u: Scheme, st: Composing, prev: nat, rest: seq<int>)
    requires u.StartersCompose() && ComposingOk(u, st, prev, rest) && Tracks(u, st)
    ensures ComposeFrom(u, st, rest) == ComposedByDefinition(u, st.out, rest)
    decreases |rest|
  {
    hide ComposingOk, Tracks, Accept;
    if rest != [] {
      StepIsAccept(u, st, prev, rest);
      ComposingStep(u, st, prev, rest);
      StepInRange(u, st, prev, rest);
      FromIsDefinition(u, ComposeStep(u, st, rest[0]), u.ccc(rest[0]), rest[1..]);
    }
  }

  lemma StepInRange(u: Scheme, st: Composing, prev: nat, rest: seq<int>)
    requires ComposingOk(u, st, prev, rest)
    ensures st.starter < |st.out|
  {
  }

  /** NFC composes exactly the pairs the standard lets compose: the loop with its two variables is the definition by
      blocking. */
  lemma NfcComposesByDefinition(u: Scheme, s: seq<int>)
    requires u.Lawful() && u.StartersCompose()
    ensures Nfc(u, s) == ComposedByDefinition(u, [], Nfd(u, s))
  {
    var rs := Nfd(u, s);
    DecomposeAllIsFull(u, s);
    ReorderLeaf(u, DecomposeAll(u, s));
    ReorderOrdered(u, DecomposeAll(u, s));
    if rs != [] {
      OrderedTail(u, rs);
      var st := ComposeStart(u, rs[0]);
      assert Accept(u, [], rs[0]) == st.out;
      assert LastStarter(u, []) == None;
      LastStarterSnoc(u, [], rs[0]);
      assert [] + [rs[0]] == st.out;
      FromIsDefinition(u, st, u.ccc(rs[0]), rs[1..]);
    }
  }

  /** Composition preserves canonical equivalence: the canonical decomposition of the normalised text is that of the
      text. */
  lemma NfcPreservesEquivalence(u: Scheme, s: seq<int>)
    requires u.Lawful()
    ensures Nfd(u, Nfc(u, s)) == Nfd(u, s)
  {
    var rs := Nfd(u, s);
    DecomposeAllIsFull(u, s);
    ReorderLeaf(u, DecomposeAll(u, s));
    ReorderOrdered(u, DecomposeAll(u, s));
    if rs != [] {
      OrderedTail(u, rs);
      var st := ComposeStart(u, rs[0]);
      ComposeFromKeepsNfd(u, st, u.ccc(rs[0]), rs[1..]);
      assert u.Leaf(rs[0]);
      DecomposeAllLeaf(u, [rs[0]]);
      assert DecomposeAll(u, st.out) + rs[1..] == rs;
      ReorderFixed(u, rs);
    }
  }

  lemma NfcIdempotent(u: Scheme, s: seq<int>)
    requires u.Lawful()
    ensures Nfc(u, Nfc(u, s)) == Nfc(u, s)
  {
    NfcPreservesEquivalence(u, s);
  }

  /** Two texts have the same NFC exactly when they are canonically equivalent. */
  lemma NfcDecidesEquivalence(u: Scheme, s: seq<int>, v: seq<int>)
    requires u.Lawful()
    ensures Nfc(u, s) == Nfc(u, v) <==> Nfd(u, s) == Nfd(u, v)
  {
    NfcPreservesEquivalence(u, s);
    NfcPreservesEquivalence(u, v);
  }

  // ---- The loops ----

  /** The canonical ordering algorithm in place: every maximal run of non-starters is sorted stably by class. */
  method ReorderInPlace(u: Scheme, rs: array<int>)
    modifies rs
    ensures rs[..] == Reorder(u, old(rs[..]))
  {
    ghost var was := rs[..];
    ghost var done: seq<int> := [];
    assert Reorder(u, was[..0]) == [] && Boundary(u, was, 0);
    hide Reorder, Boundary, InsertMark, StableSort.Sort;
    var i := 0;
    while i < rs.Length
      invariant 0 <= i <= rs.Length == |was|
      invariant Boundary(u, was, i)
      invariant done == Reorder(u, was[..i]) && |done| == i
      invariant forall k :: 0 <= k < i ==> rs[k] == done[k]
      invariant forall k :: i <= k < rs.Length ==> rs[k] == was[k]
    {
      if u.ccc(rs[i]) == 0 {
        done := StarterStep(u, was, i);
        i := i + 1;
      } else {
        var j := RunEnd(u, rs, i);
        assert rs[i..j] == was[i..j];
        SliceStable(rs, i, j, ByClass(u));
        done := RunStep(u, was, i, j);
        i := j;
      }
    }
    assert was[..i] == was && rs[..] == done;
  }

  ghost predicate Boundary(u: Scheme, s: seq<int>, i: nat)
    requires i <= |s|
  {
    0 < i < |s| ==> u.ccc(s[i]) == 0 || u.ccc(s[i - 1]) == 0
  }

  /** The end of the run of non-starters that begins at `i`. */
  method RunEnd(u: Scheme, rs: array<int>, i: nat) returns (j: nat)
    requires i < rs.Length && u.ccc(rs[i]) != 0
    ensures i < j <= rs.Length
    ensures forall k :: i <= k < j ==> u.ccc(rs[k]) != 0
    ensures j < rs.Length ==> u.ccc(rs[j]) == 0
  {
    j := i;
    while j < rs.Length && u.ccc(rs[j]) != 0
      invariant i <= j <= rs.Length
      invariant forall k :: i <= k < j ==> u.ccc(rs[k]) != 0
    {
      j := j + 1;
    }
  }

  /** `sort.SliceStable` over the slice [i, j). */
  method SliceStable(rs: array<int>, i: nat, j: nat, cmp: (int, int) -> int)
    requires i <= j <= rs.Length
    modifies rs
    ensures forall k :: 0 <= k < i || j <= k < rs.Length ==> rs[k] == old(rs[k])
    ensures forall k :: i <= k < j ==> rs[k] == StableSort.Sort(old(rs[i..j]), cmp)[k - i]
  {
    var run := StableSort.Sort(rs[i..j], cmp);
    forall k | i <= k < j { rs[k] := run[k - i]; }
  }

  lemma StarterStep(u: Scheme, s: seq<int>, i: nat) returns (done: seq<int>)
    requires i < |s| && u.ccc(s[i]) == 0 && |Reorder(u, s[..i])| == i
    ensures done == Reorder(u, s[..i + 1]) == Reorder(u, s[..i]) + [s[i]]
  {
    done := Reorder(u, s[..i + 1]);
    assert s[..i + 1] == s[..i] + [s[i]];
    ReorderStarter(u, s[..i], s[i]);
  }

  lemma RunStep(u: Scheme, s: seq<int>, i: nat, j: nat) returns (done: seq<int>)
    requires i < j <= |s| && Boundary(u, s, i)
    requires forall k :: i <= k < j ==> u.ccc(s[k]) != 0
    requires j < |s| ==> u.ccc(s[j]) == 0
    ensures done == Reorder(u, s[..j]) == Reorder(u, s[..i]) + StableSort.Sort(s[i..j], ByClass(u))
    ensures Boundary(u, s, j)
  {
    done := Reorder(u, s[..j]);
    assert s[..j] == s[..i] + s[i..j];
    ReorderRunAfter(u, s[..i], s[i..j]);
  }

  lemma ReorderStarter(u: Scheme, p: seq<int>, x: int)
    requires u.ccc(x) == 0
    ensures Reorder(u, p + [x]) == Reorder(u, p) + [x]
  {
    ReorderAtStarter(u, p, [x]);
  }

  /** A run of non-starters after a starter, or at the start of the text, is sorted on its own. */
  lemma ReorderRunAfter(u: Scheme, p: seq<int>, run: seq<int>)
    requires p == [] || u.ccc(p[|p| - 1]) == 0
    requires forall k :: 0 <= k < |run| ==> u.ccc(run[k]) != 0
    ensures Reorder(u, p + run) == Reorder(u, p) + StableSort.Sort(run, ByClass(u))
  {
    hide InsertMark, StableSort.Sort, StableSort.Insert;
    ReorderRun(u, run);
    if p == [] {
      assert p + run == run && [] + StableSort.Sort(run, ByClass(u)) == StableSort.Sort(run, ByClass(u));
    } else {
      var f, x := p[..|p| - 1], p[|p| - 1];
      assert p == f + [x];
      ReorderAcrossStarter(u, f, x, run);
    }
  }

  lemma ReorderAcrossStarter(u: Scheme, f: seq<int>, x: int, run: seq<int>)
    requires u.ccc(x) == 0
    ensures Reorder(u, (f + [x]) + run) == Reorder(u, f + [x]) + Reorder(u, run)
  {
    ReorderStarter(u, f, x);
    ReorderAtStarter(u, f, [x] + run);
    ReorderCons(u, x, run);
    Assoc(f, [x], run);
    Assoc(Reorder(u, f), [x], Reorder(u, run));
  }

  method ComposeRunes(u: Scheme, rs: seq<int>) returns (out: seq<int>)
    ensures out == ComposeAll(u, rs)
  {
    if |rs| == 0 { return rs; }
    out := [rs[0]];
    var starter: nat := 0;
    var last := u.ccc(rs[0]);
    if last != 0 { last := 256; }
    for i := 1 to |rs|
      invariant starter < |out|
      invariant ComposeFrom(u, Composing(out, starter, last), rs[i..]) == ComposeAll(u, rs)
    {
      var r := rs[i];
      var combining := u.ccc(r);
      var c := u.pair(out[starter], r);
      assert rs[i..][0] == r && rs[i..][1..] == rs[i + 1..];
      if c.Some? && (last < combining || last == 0) {
        out := out[starter := c.value];
        continue;
      }
      if combining == 0 { starter := |out|; }
      last := combining;
      out := out + [r];
    }
  }
}
