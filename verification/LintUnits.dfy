/** How the block linter cuts a Markdown document into units, and how a waiver finds the unit it silences. Lines are given
    with what the line patterns say about them. */
module LintUnits {
  import opened Wrappers

  datatype Fence = Fence(ch: char, len: nat)

  /** A line without its quote mark: its trimmed text, and which patterns match it. */
  datatype Line = Line(text: string, quoted: bool, sep: bool, row: bool, heading: bool, item: bool, opens: Option<Fence>)

  /** What the patterns guarantee: a table separator is a table row, and neither is blank. */
  predicate WellFormed(lines: seq<Line>) {
    forall i :: 0 <= i < |lines| ==> (lines[i].sep ==> lines[i].row) && (lines[i].row ==> lines[i].text != "")
  }

  // ---- Fences ----

  /** The line is nothing but the fence's character, at least as often as it was opened with. */
  predicate Closes(l: Line, f: Fence) {
    l.text != "" && |l.text| >= f.len && forall i :: 0 <= i < |l.text| ==> l.text[i] == f.ch
  }

  function CountChar(s: string, c: char): nat {
    if s == [] then 0 else (if s[0] == c then 1 else 0) + CountChar(s[1..], c)
  }

  lemma {:induction false} CountIsAll(s: string, c: char)
    ensures CountChar(s, c) <= |s|
    ensures CountChar(s, c) == |s| <==> forall i :: 0 <= i < |s| ==> s[i] == c
  {
    if s != [] {
      CountIsAll(s[1..], c);
      assert s == [s[0]] + s[1..];
    }
  }

  /** The fence opened on line `o` is still open before line `n`: no line between them closes it. */
  ghost predicate OpenFrom(lines: seq<Line>, o: nat, n: nat) {
    && 1 <= o < n <= |lines| + 1 && lines[o - 1].opens.Some?
    && Unclosed(lines, lines[o - 1].opens.value, o, n)
  }

  ghost predicate Unclosed(lines: seq<Line>, f: Fence, o: nat, n: nat)
    requires n <= |lines| + 1
  {
    forall m: nat :: o < m < n ==> !ClosedAt(lines, m, f)
  }

  predicate ClosedAt(lines: seq<Line>, m: nat, f: Fence)
    requires 1 <= m <= |lines|
  {
    Closes(lines[m - 1], f)
  }

  /** Line `o` opens a fence: it looks like one, and no fence opened before is still open there. */
  ghost predicate Opener(lines: seq<Line>, o: nat)
    decreases o
  {
    && 1 <= o <= |lines| && lines[o - 1].opens.Some?
    && forall p: nat :: p < o && Opener(lines, p) ==> !OpenFrom(lines, p, o)
  }

  /** Line `n` is a fence line or lies inside a fence. */
  ghost predicate InFence(lines: seq<Line>, n: nat) {
    exists o: nat :: Opener(lines, o) && (o == n || (OpenFrom(lines, o, n) && n <= |lines|))
  }

  /** No fence that was opened before another is still open behind that one's first line. */
  lemma NotOpenPast(lines: seq<Line>, o: nat, p: nat, n: nat)
    requires Opener(lines, o) && Opener(lines, p) && p < o < n
    ensures !OpenFrom(lines, p, n)
  {
    assert !OpenFrom(lines, p, o);
    assert OpenFrom(lines, p, n) ==> OpenFrom(lines, p, o);
  }

  /** Every fence open before line `n` is the one opened on line `o`. */
  lemma OnlyOpen(lines: seq<Line>, o: nat, p: nat, n: nat)
    requires Opener(lines, o) && OpenFrom(lines, o, n) && Opener(lines, p) && OpenFrom(lines, p, n)
    ensures o == p
  {
    assert o < n && p < n;
    hide Opener, OpenFrom;
    if o < p { NotOpenPast(lines, p, o, n); }
    if p < o { NotOpenPast(lines, o, p, n); }
  }

  /** The fenced lines are exactly those of the fences, and a fence that is never closed is reported with its first line
      and how many lines follow it. */
  method ScanFences(lines: seq<Line>) returns (fenced: set<nat>, unclosed: seq<(nat, nat)>)
    ensures forall n: nat :: n in fenced <==> InFence(lines, n)
    ensures forall o: nat :: (o, |lines| - o) in unclosed <==> Opener(lines, o) && OpenFrom(lines, o, |lines| + 1)
    ensures |unclosed| <= 1 && forall u :: u in unclosed ==> u.0 + u.1 == |lines|
  {
    fenced, unclosed := {}, [];
    var open: Option<Fence> := None;
    var openLine: nat := 0;
    for i := 0 to |lines|
      invariant forall n: nat :: n in fenced <==> n <= i && InFence(lines, n)
      invariant open.Some? ==> Opener(lines, openLine) && OpenFrom(lines, openLine, i + 1) && lines[openLine - 1].opens == open
      invariant open.None? ==> NoneOpen(lines, i + 1)
    {
      var n, l := i + 1, lines[i];
      if open.None? {
        FreeLine(lines, n);
        if l.opens.Some? {
          open, openLine := l.opens, n;
          fenced := fenced + {n};
        }
        continue;
      }
      assert InFence(lines, n);
      fenced := fenced + {n};
      CountIsAll(l.text, open.value.ch);
      if l.text != "" && |l.text| >= open.value.len && CountChar(l.text, open.value.ch) == |l.text| {
        ClosedNow(lines, openLine, n);
        open := None;
      }
    }
    forall n: nat | InFence(lines, n) ensures n <= |lines| {}
    forall o: nat | Opener(lines, o) && OpenFrom(lines, o, |lines| + 1) ensures open.Some? && o == openLine {
      if open.Some? { OnlyOpen(lines, openLine, o, |lines| + 1); }
    }
    if open.Some? { unclosed := [(openLine, |lines| - openLine)]; }
  }

  /** No fence is open before line `n`. */
  ghost predicate NoneOpen(lines: seq<Line>, n: nat) { forall p: nat :: Opener(lines, p) ==> !OpenFrom(lines, p, n) }

  /** Outside every fence a line is fenced only if it opens one. */
  lemma FreeLine(lines: seq<Line>, n: nat)
    requires 1 <= n <= |lines| && NoneOpen(lines, n)
    ensures Opener(lines, n) <==> lines[n - 1].opens.Some?
    ensures InFence(lines, n) <==> Opener(lines, n)
    ensures Opener(lines, n) ==> OpenFrom(lines, n, n + 1)
    ensures !Opener(lines, n) ==> NoneOpen(lines, n + 1)
  {
    forall p: nat | Opener(lines, p) && p != n ensures !OpenFrom(lines, p, n + 1) {
      assert p < n && OpenFrom(lines, p, n + 1) ==> OpenFrom(lines, p, n);
    }
  }

  lemma ClosedNow(lines: seq<Line>, o: nat, n: nat)
    requires Opener(lines, o) && OpenFrom(lines, o, n) && n <= |lines| && ClosedAt(lines, n, lines[o - 1].opens.value)
    ensures NoneOpen(lines, n + 1)
  {
    forall p: nat | Opener(lines, p) && OpenFrom(lines, p, n + 1) ensures p == o || p == n {
      if p < n {
        assert OpenFrom(lines, p, n);
        OnlyOpen(lines, o, p, n);
      }
    }
    assert !Opener(lines, n);
  }

  // ---- Units ----

  datatype Kind = Para | Item | Row | Header | Heading

  /** A unit: its lines' texts, its first line, its kind, and whether it is quoted throughout. */
  datatype Unit = Unit(parts: seq<string>, line: nat, kind: Kind, quoted: bool) {
    function End(): int { line + |parts| - 1 }
  }

  /** A line that belongs to some unit. */
  ghost predicate Content(lines: seq<Line>, fenced: set<nat>, n: int) {
    1 <= n <= |lines| && n !in fenced && lines[n - 1].text != "" && !lines[n - 1].sep
  }

  /** A line that cannot continue a paragraph or list item. */
  ghost predicate Breaks(lines: seq<Line>, fenced: set<nat>, n: int)
    requires 1 <= n <= |lines|
  {
    n in fenced || lines[n - 1].text == "" || lines[n - 1].row || lines[n - 1].heading || lines[n - 1].item
  }

  /** An unfenced table separator. */
  ghost predicate Separator(lines: seq<Line>, fenced: set<nat>, n: int) {
    1 <= n <= |lines| && n !in fenced && lines[n - 1].sep
  }

  /** The unit is made of consecutive content lines. */
  ghost predicate Lines(lines: seq<Line>, fenced: set<nat>, u: Unit) {
    && u.parts != [] && 1 <= u.line && u.End() <= |lines|
    && (forall n :: u.line <= n <= u.End() ==> Content(lines, fenced, n))
    && u.parts == Texts(lines, u.line, u.End() + 1) && u.quoted == AllQuoted(lines, u.line, u.End() + 1)
  }

  /** The texts of the lines from `a` up to the one before `b`, */
  function Texts(lines: seq<Line>, a: nat, b: nat): (t: seq<string>)
    requires 1 <= a <= b <= |lines| + 1
    ensures |t| == b - a
  {
    if a == b then [] else Texts(lines, a, b - 1) + [lines[b - 2].text]
  }

  /** and whether all of them are quoted. */
  predicate AllQuoted(lines: seq<Line>, a: nat, b: nat)
    requires 1 <= a <= b <= |lines| + 1
  {
    a == b || (AllQuoted(lines, a, b - 1) && lines[b - 2].quoted)
  }

  /** Looking no further than line `hi`: a row alone, a header being a row right before a separator; a heading alone; else a
      paragraph or item, begun by a line that is none of these and continued up to the next line that breaks it. */
  ghost predicate Shaped(lines: seq<Line>, fenced: set<nat>, u: Unit, hi: nat)
    requires Lines(lines, fenced, u) && hi <= |lines|
  {
    var first := lines[u.line - 1];
    if first.row then
      |u.parts| == 1 && u.kind == if u.line + 1 <= hi && Separator(lines, fenced, u.line + 1) then Header else Row
    else if first.heading then |u.parts| == 1 && u.kind == Heading
    else
      && u.kind == (if first.item then Item else Para)
      && (forall n :: u.line < n <= u.End() ==> !Breaks(lines, fenced, n))
      && (u.End() < |lines| ==> Breaks(lines, fenced, u.End() + 1))
  }

  ghost predicate UnitOK(lines: seq<Line>, fenced: set<nat>, u: Unit, hi: nat)
    requires hi <= |lines|
  {
    Lines(lines, fenced, u) && Shaped(lines, fenced, u, hi)
  }

  predicate Holds(u: Unit, n: int) { u.line <= n <= u.End() }

  ghost predicate Covered(units: seq<Unit>, n: int) { exists i :: 0 <= i < |units| && Holds(units[i], n) }

  /** The units found so far, all before line `before`, cover every content line before it. */
  ghost predicate Found(lines: seq<Line>, fenced: set<nat>, units: seq<Unit>, before: int, hi: nat)
    requires hi <= |lines|
  {
    && (forall i :: 0 <= i < |units| ==> UnitOK(lines, fenced, units[i], hi) && units[i].End() < before)
    && (forall i, j :: 0 <= i < j < |units| ==> units[i].End() < units[j].line)
    && (forall n :: n < before && Content(lines, fenced, n) ==> Covered(units, n))
  }

  /** The units partition the document: in increasing order and without overlap, they cover exactly the lines that are
      neither fenced nor blank nor table separators, each with its line's text. */
  ghost predicate Partition(lines: seq<Line>, fenced: set<nat>, units: seq<Unit>) {
    Found(lines, fenced, units, |lines| + 1, |lines|)
  }

  /** The paragraph or item being collected, whose last line is the one before `next`. */
  ghost predicate Pending(lines: seq<Line>, fenced: set<nat>, u: Unit, next: int) {
    && Lines(lines, fenced, u) && u.End() + 1 == next
    && !lines[u.line - 1].row && !lines[u.line - 1].heading && u.kind == (if lines[u.line - 1].item then Item else Para)
    && forall n :: u.line < n <= u.End() ==> !Breaks(lines, fenced, n)
  }

  /** What holds before line `next`. */
  ghost predicate State(lines: seq<Line>, fenced: set<nat>, units: seq<Unit>, buf: Unit, next: nat) {
    && 1 <= next <= |lines| + 1 && Found(lines, fenced, units, if buf.parts == [] then next else buf.line, next - 1)
    && (if buf.parts == [] then buf == Empty() else Pending(lines, fenced, buf, next))
  }

  function Empty(): (u: Unit)
    ensures u == Unit([], 0, Para, true)
  {
    Unit([], 0, Para, true)
  }

  function Flushed(units: seq<Unit>, buf: Unit): seq<Unit> { if buf.parts == [] then units else units + [buf] }

  method ExtractUnits(lines: seq<Line>, fenced: set<nat>) returns (units: seq<Unit>)
    requires WellFormed(lines)
    ensures Partition(lines, fenced, units)
  {
    hide *;
    units := [];
    var buf := Empty();
    Start(lines, fenced);
    for idx := 0 to |lines|
      invariant State(lines, fenced, units, buf, idx + 1)
    {
      var i, l := idx + 1, lines[idx];
      if i in fenced || l.text == "" {
        FlushAt(lines, fenced, units, buf, i);
        Skip(lines, fenced, Flushed(units, buf), i);
        units, buf := Flushed(units, buf), Empty();
        continue;
      }
      if l.sep {
        FlushAt(lines, fenced, units, buf, i);
        units, buf := Flushed(units, buf), Empty();
        SeparatorAt(lines, fenced, units, i);
        var n := |units|;
        if n > 0 && units[n - 1].kind == Row && units[n - 1].line == i - 1 {
          units := units[n - 1 := units[n - 1].(kind := Header)];
        }
        continue;
      }
      if l.row || l.heading {
        FlushAt(lines, fenced, units, buf, i);
        var u := Unit([l.text], i, if l.row then Row else Heading, l.quoted);
        Single(lines, fenced, Flushed(units, buf), u, i);
        units, buf := Flushed(units, buf) + [u], Empty();
        continue;
      }
      if l.item && buf.parts != [] {
        FlushAt(lines, fenced, units, buf, i);
        units, buf := Flushed(units, buf), Empty();
      }
      Collect(lines, fenced, units, buf, i);
      if buf.line == 0 { buf := buf.(line := i, kind := if l.item then Item else Para); }
      buf := buf.(parts := buf.parts + [l.text], quoted := buf.quoted && l.quoted);
    }
    FlushEnd(lines, fenced, units, buf);
    units := Flushed(units, buf);
  }

  lemma Start(lines: seq<Line>, fenced: set<nat>)
    ensures State(lines, fenced, [], Empty(), 1)
  {
  }

  /** A line that is no separator decides nothing about the rows before it. */
  lemma LookOn(lines: seq<Line>, fenced: set<nat>, units: seq<Unit>, before: int, i: nat)
    requires 1 <= i <= |lines| && Found(lines, fenced, units, before, i - 1) && !Separator(lines, fenced, i)
    ensures Found(lines, fenced, units, before, i)
  {
    hide Lines, Content, Breaks, Covered;
    forall k | 0 <= k < |units| ensures UnitOK(lines, fenced, units[k], i) { assert UnitOK(lines, fenced, units[k], i - 1); }
  }

  lemma Skip(lines: seq<Line>, fenced: set<nat>, units: seq<Unit>, i: nat)
    requires WellFormed(lines) && 1 <= i <= |lines| && State(lines, fenced, units, Empty(), i)
    requires i in fenced || lines[i - 1].text == ""
    ensures State(lines, fenced, units, Empty(), i + 1)
  {
    LookOn(lines, fenced, units, i, i);
    assert !Content(lines, fenced, i);
    hide UnitOK, Content, Covered;
  }

  /** A line that breaks the paragraph completes it. */
  lemma FlushAt(lines: seq<Line>, fenced: set<nat>, units: seq<Unit>, buf: Unit, i: nat)
    requires WellFormed(lines) && 1 <= i <= |lines| && State(lines, fenced, units, buf, i)
    requires i in fenced || lines[i - 1].text == "" || lines[i - 1].sep || lines[i - 1].row || lines[i - 1].heading || lines[i - 1].item
    ensures State(lines, fenced, Flushed(units, buf), Empty(), i)
  {
    if buf.parts != [] {
      assert Breaks(lines, fenced, i);
      assert UnitOK(lines, fenced, buf, i - 1);
      Append(lines, fenced, units, buf, i, i - 1);
    }
  }

  /** The next unit starts where the others end. */
  lemma Append(lines: seq<Line>, fenced: set<nat>, units: seq<Unit>, u: Unit, next: nat, hi: nat)
    requires hi <= |lines| && Found(lines, fenced, units, u.line, hi) && UnitOK(lines, fenced, u, hi) && u.End() + 1 == next
    ensures Found(lines, fenced, units + [u], next, hi)
  {
    assert u.line <= u.End();
    hide UnitOK, Content;
    var all := units + [u];
    assert all[|units|] == u;
    forall i | 0 <= i < |units| ensures all[i] == units[i] {}
    forall n | n < next && Content(lines, fenced, n) ensures Covered(all, n) {
      if n < u.line {
        var k :| 0 <= k < |units| && Holds(units[k], n);
        assert all[k] == units[k];
      }
    }
  }

  lemma Single(lines: seq<Line>, fenced: set<nat>, units: seq<Unit>, u: Unit, i: nat)
    requires 1 <= i <= |lines| && State(lines, fenced, units, Empty(), i)
    requires i !in fenced && lines[i - 1].text != "" && !lines[i - 1].sep && (lines[i - 1].row || lines[i - 1].heading)
    requires u == Unit([lines[i - 1].text], i, if lines[i - 1].row then Row else Heading, lines[i - 1].quoted)
    ensures State(lines, fenced, units + [u], Empty(), i + 1)
  {
    LookOn(lines, fenced, units, i, i);
    assert Texts(lines, i, i) == [] && AllQuoted(lines, i, i);
    assert UnitOK(lines, fenced, u, i);
    hide UnitOK, Content, Covered;
    Append(lines, fenced, units, u, i + 1, i);
  }

  /** A separator turns the row right before it into a header, and nothing else. */
  lemma SeparatorAt(lines: seq<Line>, fenced: set<nat>, units: seq<Unit>, i: nat)
    requires WellFormed(lines) && 1 <= i <= |lines| && State(lines, fenced, units, Empty(), i)
    requires i !in fenced && lines[i - 1].text != "" && lines[i - 1].sep
    ensures var n := |units|;
            State(lines, fenced,
                  if n > 0 && units[n - 1].kind == Row && units[n - 1].line == i - 1 then units[n - 1 := units[n - 1].(kind := Header)]
                  else units, Empty(), i + 1)
  {
    var n := |units|;
    var turned := n > 0 && units[n - 1].kind == Row && units[n - 1].line == i - 1;
    var after := if turned then units[n - 1 := units[n - 1].(kind := Header)] else units;
    assert Separator(lines, fenced, i);
    NotContent(lines, fenced, i);
    hide Found, Separator, Content, WellFormed;
    TurnedOK(lines, fenced, units, after, i);
    FoundBy(lines, fenced, units, after, i);
  }

  /** The units after a separator on line `i`, one by one. */
  lemma TurnedOK(lines: seq<Line>, fenced: set<nat>, units: seq<Unit>, after: seq<Unit>, i: nat)
    requires 1 <= i <= |lines| && Found(lines, fenced, units, i, i - 1) && Separator(lines, fenced, i)
    requires var n := |units|;
             after == if n > 0 && units[n - 1].kind == Row && units[n - 1].line == i - 1 then units[n - 1 := units[n - 1].(kind := Header)]
                      else units
    ensures |after| == |units|
    ensures forall k :: 0 <= k < |units| ==>
              UnitOK(lines, fenced, after[k], i) && after[k].line == units[k].line && after[k].End() == units[k].End()
  {
    hide UnitOK, Found, Separator;
    forall k | 0 <= k < |units|
      ensures UnitOK(lines, fenced, after[k], i) && after[k].line == units[k].line && after[k].End() == units[k].End()
    {
      SeparatorTurns(lines, fenced, units, k, i);
    }
  }

  /** Units on the same lines cover the same lines. */
  lemma FoundBy(lines: seq<Line>, fenced: set<nat>, units: seq<Unit>, after: seq<Unit>, i: nat)
    requires 1 <= i <= |lines| && Found(lines, fenced, units, i, i - 1) && !Content(lines, fenced, i) && |after| == |units|
    requires forall k :: 0 <= k < |units| ==>
               UnitOK(lines, fenced, after[k], i) && after[k].line == units[k].line && after[k].End() == units[k].End()
    ensures Found(lines, fenced, after, i + 1, i)
  {
    SameCover(units, after);
    hide UnitOK, Content, Covered;
  }

  lemma NotContent(lines: seq<Line>, fenced: set<nat>, i: nat)
    requires Separator(lines, fenced, i)
    ensures !Content(lines, fenced, i)
  {
  }

  lemma SameCover(units: seq<Unit>, after: seq<Unit>)
    requires |units| == |after| && forall k :: 0 <= k < |units| ==> after[k].line == units[k].line && after[k].End() == units[k].End()
    ensures forall n :: Covered(units, n) ==> Covered(after, n)
  {
    forall n | Covered(units, n) ensures Covered(after, n) {
      var k :| 0 <= k < |units| && Holds(units[k], n);
      assert Holds(after[k], n);
    }
  }

  lemma SeparatorTurns(lines: seq<Line>, fenced: set<nat>, units: seq<Unit>, k: nat, i: nat)
    requires 1 <= i <= |lines| && Found(lines, fenced, units, i, i - 1) && Separator(lines, fenced, i) && k < |units|
    ensures var n := |units|;
            var u := if k == n - 1 && units[k].kind == Row && units[k].line == i - 1 then units[k].(kind := Header) else units[k];
            UnitOK(lines, fenced, u, i)
  {
    hide Content, Breaks, Covered;
    var u := units[k];
    assert UnitOK(lines, fenced, u, i - 1);
    if u.line == i - 1 && k < |units| - 1 {
      Later(lines, fenced, units, k, i);
    }
  }

  /** Only the last unit ends right before line `i`. */
  lemma Later(lines: seq<Line>, fenced: set<nat>, units: seq<Unit>, k: nat, i: nat)
    requires 1 <= i <= |lines| && Found(lines, fenced, units, i, i - 1) && k < |units| - 1
    ensures units[k].line < i - 1
  {
    hide Content, Breaks, Covered, Shaped;
    assert UnitOK(lines, fenced, units[k], i - 1) && UnitOK(lines, fenced, units[k + 1], i - 1);
  }

  /** A plain line starts a paragraph or item, or continues the one being collected. */
  lemma Collect(lines: seq<Line>, fenced: set<nat>, units: seq<Unit>, buf: Unit, i: nat)
    requires 1 <= i <= |lines| && State(lines, fenced, units, buf, i)
    requires var l := lines[i - 1]; i !in fenced && l.text != "" && !l.sep && !l.row && !l.heading && (l.item ==> buf.parts == [])
    ensures var l := lines[i - 1];
            var b := if buf.line == 0 then buf.(line := i, kind := if l.item then Item else Para) else buf;
            State(lines, fenced, units, b.(parts := b.parts + [l.text], quoted := b.quoted && l.quoted), i + 1)
  {
    var l := lines[i - 1];
    var b := if buf.line == 0 then buf.(line := i, kind := if l.item then Item else Para) else buf;
    var c := b.(parts := b.parts + [l.text], quoted := b.quoted && l.quoted);
    LookOn(lines, fenced, units, if buf.parts == [] then i else buf.line, i);
    Grown(lines, fenced, b, c, i);
    hide Found, Pending;
  }

  lemma Grown(lines: seq<Line>, fenced: set<nat>, b: Unit, c: Unit, i: nat)
    requires 1 <= i <= |lines| && Content(lines, fenced, i) && !lines[i - 1].row && !lines[i - 1].heading
    requires c == b.(parts := b.parts + [lines[i - 1].text], quoted := b.quoted && lines[i - 1].quoted)
    requires if b.parts == [] then b.line == i && b.quoted && b.kind == (if lines[i - 1].item then Item else Para)
             else Pending(lines, fenced, b, i) && !lines[i - 1].item
    ensures Pending(lines, fenced, c, i + 1)
  {
    hide Content, Breaks;
    if b.parts == [] {
      assert Texts(lines, i, i) == [] && AllQuoted(lines, i, i);
      assert c.parts == Texts(lines, i, i + 1) && c.quoted == AllQuoted(lines, i, i + 1) && c.End() == i;
    } else {
      assert !Breaks(lines, fenced, i) by { Continues(lines, fenced, i); }
      assert c.line <= i && c.End() == i;
    }
  }

  lemma Continues(lines: seq<Line>, fenced: set<nat>, i: nat)
    requires 1 <= i <= |lines| && Content(lines, fenced, i)
    requires !lines[i - 1].row && !lines[i - 1].heading && !lines[i - 1].item
    ensures !Breaks(lines, fenced, i)
  {
  }

  lemma FlushEnd(lines: seq<Line>, fenced: set<nat>, units: seq<Unit>, buf: Unit)
    requires State(lines, fenced, units, buf, |lines| + 1)
    ensures Partition(lines, fenced, Flushed(units, buf))
  {
    if buf.parts != [] {
      assert UnitOK(lines, fenced, buf, |lines|);
      Append(lines, fenced, units, buf, |lines| + 1, |lines|);
    }
  }

  // ---- The partition, and where waivers land ----

  /** Every line lies in at most one unit, and in one exactly if it is a content line. */
  lemma CoveredOnce(lines: seq<Line>, fenced: set<nat>, units: seq<Unit>, n: int)
    requires Partition(lines, fenced, units)
    ensures Covered(units, n) <==> Content(lines, fenced, n)
    ensures forall i, j :: 0 <= i < |units| && 0 <= j < |units| && Holds(units[i], n) && Holds(units[j], n) ==> i == j
  {
    hide Breaks, Shaped, Content;
    if i :| 0 <= i < |units| && Holds(units[i], n) {
      assert UnitOK(lines, fenced, units[i], |lines|);
    }
    if Content(lines, fenced, n) { InDocument(lines, fenced, n); }
  }

  lemma InDocument(lines: seq<Line>, fenced: set<nat>, n: int)
    requires Content(lines, fenced, n)
    ensures 1 <= n <= |lines|
  {
  }

  /** `unitEnd`: the last line of a unit, found by scanning the document again. */
  method UnitEnd(lines: seq<Line>, fenced: set<nat>, u: Unit) returns (end: nat)
    ensures u.kind in {Row, Header, Heading} ==> end == u.line
    ensures u.kind in {Para, Item} && u.line <= |lines| ==> Stops(lines, fenced, u.line, end)
  {
    if u.kind == Row || u.kind == Header || u.kind == Heading { return u.line; }
    end := u.line;
    var n := u.line + 1;
    while n <= |lines|
      invariant n == end + 1 && u.line <= end && (u.line <= |lines| ==> end <= |lines|)
      invariant forall m :: u.line < m <= end && m <= |lines| ==> !Breaks(lines, fenced, m)
    {
      var l := lines[n - 1];
      if n in fenced || l.text == "" || l.row || l.heading || l.item { return; }
      end := n;
      n := n + 1;
    }
  }

  /** A scan from `line` stops at `x`. */
  ghost predicate Stops(lines: seq<Line>, fenced: set<nat>, line: nat, x: int) {
    && line <= x <= |lines| && (forall n :: line < n <= x ==> !Breaks(lines, fenced, n))
    && (x < |lines| ==> Breaks(lines, fenced, x + 1))
  }

  lemma StopsOnce(lines: seq<Line>, fenced: set<nat>, line: nat, x: int, y: int)
    requires Stops(lines, fenced, line, x) && Stops(lines, fenced, line, y)
    ensures x == y
  {
    hide Breaks;
  }

  /** Where the second scanner stops for a unit of the document is where the unit ends. */
  lemma EndsAgree(lines: seq<Line>, fenced: set<nat>, units: seq<Unit>, i: nat, end: nat)
    requires Partition(lines, fenced, units) && i < |units|
    requires units[i].kind in {Row, Header, Heading} ==> end == units[i].line
    requires units[i].kind in {Para, Item} ==> Stops(lines, fenced, units[i].line, end)
    ensures end == units[i].End()
  {
    hide Breaks, Content;
    var u := units[i];
    assert UnitOK(lines, fenced, u, |lines|);
    if u.kind == Para || u.kind == Item { StopsOnce(lines, fenced, u.line, end, u.End()); }
  }

  /** An accepted waiver: a rule and the line it stands on. */
  datatype Waiver = Waiver(rule: string, line: nat)

  /** A unit of the document is waived exactly when a waiver for the rule stands on one of its lines. */
  method Waived(lines: seq<Line>, fenced: set<nat>, waivers: seq<Waiver>, rule: string, units: seq<Unit>, i: nat) returns (r: bool)
    requires Partition(lines, fenced, units) && i < |units|
    ensures r <==> exists w :: w in waivers && Silences(w, rule, units[i])
  {
    hide Content, Breaks, Covered, Shaped;
    var u := units[i];
    assert UnitOK(lines, fenced, u, |lines|);
    var last := UnitEnd(lines, fenced, u);
    EndsAgree(lines, fenced, units, i, last);
    for k := 0 to |waivers|
      invariant forall w :: w in waivers[..k] ==> !Silences(w, rule, u)
    {
      var w := waivers[k];
      if w.rule == rule && u.line <= w.line && w.line <= last {
        assert w in waivers && Silences(w, rule, u);
        return true;
      }
      assert waivers[..k + 1] == waivers[..k] + [w];
    }
    assert waivers[..|waivers|] == waivers;
    return false;
  }

  predicate Silences(w: Waiver, rule: string, u: Unit) { w.rule == rule && Holds(u, w.line) }

  /** So a waiver silences at most one unit, and none where it stands on a line of no unit. */
  lemma WaiverSilencesOne(lines: seq<Line>, fenced: set<nat>, units: seq<Unit>, w: Waiver)
    requires Partition(lines, fenced, units)
    ensures forall i, j :: 0 <= i < |units| && 0 <= j < |units| && Silences(w, w.rule, units[i]) && Silences(w, w.rule, units[j]) ==> i == j
    ensures (exists i :: 0 <= i < |units| && Silences(w, w.rule, units[i])) <==> Content(lines, fenced, w.line)
  {
    hide Partition, Content;
    CoveredOnce(lines, fenced, units, w.line);
    if Covered(units, w.line) {
      var i :| 0 <= i < |units| && Holds(units[i], w.line);
      assert Silences(w, w.rule, units[i]);
    }
  }
}
