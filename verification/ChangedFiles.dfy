/** The changed files of a pull request as the gate captures them: names joined by newlines, read back line by line. A name
    may itself hold a newline; this module says exactly which names survive that. */
module ChangedFiles {
  import opened Wrappers
  import opened Text
  import opened PathGlob

  /** One entry of the files listing; a rename carries its old name too. */
  datatype FileEntry = FileEntry(filename: string, previous: Option<string>)

  function NamesOf(entries: seq<FileEntry>): seq<string> {
    if entries == [] then []
    else
      var e := entries[|entries| - 1];
      NamesOf(entries[..|entries| - 1]) + [e.filename] + (if e.previous.Some? then [e.previous.value] else [])
  }

  /** What is captured of some names. */
  function Listing(names: seq<string>): string { CmdSub(Join(names, '\n')) }

  method ListFiles(entries: seq<FileEntry>) returns (text: string, count: nat)
    ensures text == Listing(NamesOf(entries)) && count == |entries|
  {
    var names: seq<string> := [];
    for i := 0 to |entries|
      invariant names == NamesOf(entries[..i])
    {
      assert entries[..i + 1][..i] == entries[..i];
      names := names + [entries[i].filename];
      if entries[i].previous.Some? { names := names + [entries[i].previous.value]; }
    }
    assert entries[..|entries|] == entries;
    return Listing(names), |entries|;
  }

  // ---- Which names survive ----

  /** A character that an accepted pattern can spell; any other can only be met by a star. */
  predicate Nameable(c: char) { PatChar(c) && c != '*' }

  predicate Named(line: string) { exists i :: 0 <= i < |line| && Nameable(line[i]) }

  /** The name, NULs aside, is not made of newlines only, and at most one of its lines holds a nameable character. */
  predicate Survives(f: string) {
    var ls := Lines(StripNul(f));
    && (exists i :: 0 <= i < |ls| && ls[i] != "")
    && forall i, j :: 0 <= i < j < |ls| ==> !(Named(ls[i]) && Named(ls[j]))
  }

  /** `t` is `s` without some characters that no pattern can spell. */
  ghost predicate Thins(s: string, t: string) {
    if s == [] then t == []
    else (t != [] && s[0] == t[0] && Thins(s[1..], t[1..])) || (!Nameable(s[0]) && Thins(s[1..], t))
  }

  ghost predicate Spellable(p: seq<Tok>) { forall i :: 0 <= i < |p| && p[i].Lit? ==> Nameable(p[i].c) }

  /** A pattern that matches a text matches every thinning of it. */
  lemma {:induction false} ThinsMatch(p: seq<Tok>, s: string, t: string)
    requires Spellable(p) && Match(p, s) && Thins(s, t)
    ensures Match(p, t)
    decreases |p| + |s|
  {
    if p != [] {
      if p[0].Lit? {
        assert Nameable(s[0]);
        ThinsMatch(p[1..], s[1..], t[1..]);
      } else if Match(p[1..], s) {
        ThinsMatch(p[1..], s, t);
      } else if t != [] && s[0] == t[0] && Thins(s[1..], t[1..]) {
        ThinsMatch(p, s[1..], t[1..]);
      } else {
        ThinsMatch(p, s[1..], t);
      }
    }
  }

  lemma {:induction false} ThinsTrans(a: string, b: string, c: string)
    requires Thins(a, b) && Thins(b, c)
    ensures Thins(a, c)
    decreases |a|
  {
    if a != [] {
      if b != [] && a[0] == b[0] && Thins(a[1..], b[1..]) {
        if c != [] && b[0] == c[0] && Thins(b[1..], c[1..]) {
          ThinsTrans(a[1..], b[1..], c[1..]);
        } else {
          ThinsTrans(a[1..], b[1..], c);
        }
      } else {
        ThinsTrans(a[1..], b, c);
      }
    }
  }

  lemma {:induction false} ThinsStripNul(s: string)
    ensures Thins(s, StripNul(s))
  {
    if s != [] { ThinsStripNul(s[1..]); }
  }

  /** When no line is named, everything can go. */
  lemma {:induction false} ThinsNothing(s: string)
    requires forall i :: 0 <= i < |Lines(s)| ==> !Named(Lines(s)[i])
    ensures Thins(s, [])
  {
    if s != [] {
      var r := Lines(s[1..]);
      HeadUnnamed(s);
      forall i | 0 <= i < |r| ensures !Named(r[i]) { TailUnnamed(s, i); }
      ThinsNothing(s[1..]);
    }
  }

  lemma HeadUnnamed(s: string)
    requires s != [] && !Named(Lines(s)[0])
    ensures !Nameable(s[0])
  {
    if s[0] != '\n' { assert Lines(s)[0][0] == s[0]; }
  }

  lemma TailUnnamed(s: string, i: nat)
    requires s != [] && i < |Lines(s[1..])|
    requires forall k :: 0 <= k < |Lines(s)| && (k == i || k == i + 1) ==> !Named(Lines(s)[k])
    ensures !Named(Lines(s[1..])[i])
  {
    var r, ls := Lines(s[1..]), Lines(s);
    if s[0] == '\n' {
      assert ls[i + 1] == r[i];
    } else if i == 0 {
      forall k | 0 <= k < |r[0]| ensures !Nameable(r[0][k]) { assert ls[0][k + 1] == r[0][k]; }
    } else {
      assert ls[i] == r[i];
    }
  }

  /** When every line but one is unnamed, the text thins to that line. */
  lemma {:induction false} ThinsToLine(s: string, k: nat)
    requires k < |Lines(s)| && forall i :: 0 <= i < |Lines(s)| && i != k ==> !Named(Lines(s)[i])
    ensures Thins(s, Lines(s)[k])
  {
    if s != [] {
      var r, ls := Lines(s[1..]), Lines(s);
      if s[0] == '\n' {
        assert ls == [[]] + r;
        if k == 0 {
          forall i | 0 <= i < |r| ensures !Named(r[i]) { assert ls[i + 1] == r[i]; }
          ThinsNothing(s[1..]);
        } else {
          forall i | 0 <= i < |r| && i != k - 1 ensures !Named(r[i]) { assert ls[i + 1] == r[i]; }
          ThinsToLine(s[1..], k - 1);
        }
      } else {
        assert ls == [[s[0]] + r[0]] + r[1..];
        if k > 0 { HeadUnnamed(s); }
        forall i | 0 <= i < |r| && i != k ensures !Named(r[i]) {
          if i > 0 { assert ls[i] == r[i]; } else { HeadLine(s); }
        }
        ThinsToLine(s[1..], k);
        if k > 0 { assert ls[k] == r[k]; }
      }
    }
  }

  lemma HeadLine(s: string)
    requires s != [] && s[0] != '\n' && !Named(Lines(s)[0])
    ensures !Named(Lines(s[1..])[0])
  {
    var r := Lines(s[1..]);
    forall k | 0 <= k < |r[0]| ensures !Nameable(r[0][k]) { assert Lines(s)[0][k + 1] == r[0][k]; }
  }

  // ---- Lines stay in the listing ----

  lemma {:induction false} StripNulConcat(a: string, b: string)
    ensures StripNul(a + b) == StripNul(a) + StripNul(b)
  {
    if a == [] {
      assert a + b == b;
    } else {
      assert (a + b)[0] == a[0] && (a + b)[1..] == a[1..] + b;
      StripNulConcat(a[1..], b);
    }
  }

  lemma {:induction false} LineJoined(names: seq<string>, i: nat, l: string)
    requires i < |names| && l in Lines(StripNul(names[i]))
    ensures l in Lines(StripNul(Join(names, '\n')))
  {
    if |names| > 1 {
      var a, b := names[0], Join(names[1..], '\n');
      assert a + ['\n'] + b == a + (['\n'] + b);
      StripNulConcat(a, ['\n'] + b);
      StripNulConcat(['\n'], b);
      assert StripNul(['\n']) == ['\n'];
      SplitConcat(StripNul(a), StripNul(b), '\n');
      if i > 0 { LineJoined(names[1..], i - 1, l); }
    }
  }

  lemma {:induction false} TrimKeepsLines(s: string, l: string)
    ensures l in Lines(TrimRight(s, '\n')) ==> l in Lines(s)
    ensures l in Lines(s) && l != "" ==> l in Lines(TrimRight(s, '\n'))
    decreases |s|
  {
    if s != [] && s[|s| - 1] == '\n' {
      var q := s[..|s| - 1];
      TrimKeepsLines(q, l);
      SplitConcat(q, [], '\n');
      assert s == q + (['\n'] + []);
    }
  }

  /** Every line of a name that is not empty is a line of the listing. */
  lemma LineListed(names: seq<string>, i: nat, l: string)
    requires i < |names| && l in Lines(StripNul(names[i])) && l != ""
    ensures l in Lines(Listing(names))
  {
    LineJoined(names, i, l);
    TrimKeepsLines(StripNul(Join(names, '\n')), l);
  }

  // ---- The names that survive are judged as they are ----

  ghost predicate Hit(p: string, names: seq<string>) {
    exists l :: l in Lines(Listing(names)) && Match(GlobRE(p), l)
  }

  lemma {:induction false} GlobSpells(p: string)
    requires forall i :: 0 <= i < |p| ==> PatChar(p[i])
    ensures Spellable(Glob(p))
  {
    if p != [] {
      if HasPrefix(p, "**") { GlobSpells(p[2..]); } else { GlobSpells(p[1..]); }
    }
  }

  /** A surviving name is hit by every pattern that means it. */
  lemma SurvivorIsHit(names: seq<string>, f: string, p: string)
    requires f in names && Survives(f) && PatOK(p) && Match(Glob(p), f)
    ensures Hit(p, names)
  {
    var k :| 0 <= k < |names| && names[k] == f;
    var l := SurvivorLine(f);
    LineListed(names, k, l);
    GlobSpells(p);
    ThinsMatch(Glob(p), f, l);
    GlobRENeverMisses(p, l);
  }

  lemma SurvivorLine(f: string) returns (l: string)
    requires Survives(f)
    ensures l in Lines(StripNul(f)) && l != "" && Thins(f, l)
  {
    var s := StripNul(f);
    var ls := Lines(s);
    var k :| 0 <= k < |ls| && ls[k] != "";
    if i :| 0 <= i < |ls| && Named(ls[i]) { k := i; }
    ThinsStripNul(f);
    ThinsToLine(s, k);
    ThinsTrans(f, s, ls[k]);
    return ls[k];
  }

  // ---- The others are not ----

  /** The pattern that spells every nameable character of a text and puts a star around each. */
  function Woven(f: string): string {
    if f == [] then "*" else if Nameable(f[0]) then ['*', f[0]] + Woven(f[1..]) else Woven(f[1..])
  }

  function WovenToks(f: string): seq<Tok> {
    if f == [] then [Star] else if Nameable(f[0]) then [Star, Lit(f[0])] + WovenToks(f[1..]) else WovenToks(f[1..])
  }

  function Weight(s: string): nat {
    if s == [] then 0 else (if Nameable(s[0]) then 1 else 0) + Weight(s[1..])
  }

  /** Stars and spelled characters alternate. */
  lemma {:induction false} WovenAlternates(f: string)
    ensures var w := Woven(f);
            && |w| % 2 == 1
            && forall i :: 0 <= i < |w| ==> if i % 2 == 0 then w[i] == '*' else Nameable(w[i])
  {
    if f != [] {
      WovenAlternates(f[1..]);
      if Nameable(f[0]) {
        var v, w := Woven(f[1..]), Woven(f);
        forall i | 0 <= i < |w| ensures if i % 2 == 0 then w[i] == '*' else Nameable(w[i]) {
          if i >= 2 { assert w[i] == v[i - 2] && (i - 2) % 2 == i % 2; }
        }
      }
    }
  }

  ghost predicate Alternates(p: string) { forall i, j :: 0 <= i && j == i + 1 < |p| ==> (p[i] == '*') != (p[j] == '*') }

  lemma PrefixChars(p: string, sub: string)
    requires |sub| >= 2
    ensures HasPrefix(p, sub) ==> |p| >= 2 && p[0] == sub[0] && p[1] == sub[1]
  {
    if HasPrefix(p, sub) { assert p[..|sub|][0] == p[0] && p[..|sub|][1] == p[1]; }
  }

  lemma {:induction false} AlternatesLacks(p: string, sub: string)
    requires Alternates(p) && |sub| >= 2 && (sub[0] == '*') == (sub[1] == '*')
    ensures !Contains(p, sub)
  {
    if p != [] {
      var q := p[1..];
      forall i, j | 0 <= i && j == i + 1 < |q| ensures (q[i] == '*') != (q[j] == '*') { assert q[i] == p[i + 1] && q[j] == p[j + 1]; }
      AlternatesLacks(q, sub);
      PrefixChars(p, sub);
    }
  }

  lemma WovenAccepted(f: string)
    ensures var p := Woven(f); PatOK(p) && TrimSuffix(p) == p && !Contains(p, "**") && !Contains(p, PLACEHOLDER)
  {
    var p := Woven(f);
    WovenAlternates(f);
    WovenStars(p);
    hide Alternates, Contains, Woven, TrimSuffix;
    AlternatesLacks(p, "**");
    AlternatesLacks(p, PLACEHOLDER);
  }

  lemma WovenStars(p: string)
    requires |p| % 2 == 1 && forall i :: 0 <= i < |p| ==> if i % 2 == 0 then p[i] == '*' else Nameable(p[i])
    ensures Alternates(p) && TrimSuffix(p) == p && p != "" && forall i :: 0 <= i < |p| ==> PatChar(p[i])
  {
    if |p| >= 3 { assert p[|p| - 3..][1] == p[|p| - 2]; }
    forall i | 0 <= i < |p| ensures PatChar(p[i]) { assert p[i] == '*' || Nameable(p[i]); }
  }

  lemma {:induction false} WovenPieces(f: string)
    ensures Pieces(Woven(f)) == WovenToks(f)
  {
    if f == [] {
      assert Pieces("*") == [Star];
    } else {
      WovenPieces(f[1..]);
      if Nameable(f[0]) {
        var w := Woven(f);
        PiecesCons(w);
        PiecesCons(w[1..]);
        assert w[1..][1..] == Woven(f[1..]);
      }
    }
  }

  lemma {:induction false} WovenMatches(f: string)
    ensures Match(WovenToks(f), f) && WovenToks(f) != [] && WovenToks(f)[0] == Star
  {
    if f != [] {
      WovenMatches(f[1..]);
      if Nameable(f[0]) {
        var t := WovenToks(f);
        assert t[1..] == [Lit(f[0])] + WovenToks(f[1..]) && t[1..][1..] == WovenToks(f[1..]);
        assert Match(t[1..], f);
      }
    }
  }

  lemma {:induction false} WovenWeighs(f: string)
    ensures Literals(WovenToks(f)) == Weight(f) && Spellable(WovenToks(f))
  {
    if f != [] {
      WovenWeighs(f[1..]);
      if Nameable(f[0]) {
        var t := WovenToks(f);
        assert t[1..][1..] == WovenToks(f[1..]);
      }
    }
  }

  /** A match spells every literal of the pattern. */
  lemma {:induction false} MatchWeighs(p: seq<Tok>, s: string)
    requires Spellable(p) && Match(p, s)
    ensures Weight(s) >= Literals(p)
    decreases |p| + |s|
  {
    if p != [] {
      if p[0].Lit? {
        MatchWeighs(p[1..], s[1..]);
      } else if Match(p[1..], s) {
        MatchWeighs(p[1..], s);
      } else {
        MatchWeighs(p, s[1..]);
      }
    }
  }

  lemma {:induction false} NamedWeighs(s: string)
    ensures Named(s) <==> Weight(s) > 0
  {
    if s != [] {
      NamedWeighs(s[1..]);
      if i :| 0 <= i < |s[1..]| && Nameable(s[1..][i]) { assert Nameable(s[i + 1]); }
      if i :| 0 < i < |s| && Nameable(s[i]) { assert Nameable(s[1..][i - 1]); }
    }
  }

  /** A text weighs at least what any two of its lines weigh together. */
  lemma {:induction false} LinesWeigh(s: string, i: nat, j: nat)
    requires i < |Lines(s)| && j < |Lines(s)|
    ensures Weight(s) >= Weight(Lines(s)[i])
    ensures i != j ==> Weight(s) >= Weight(Lines(s)[i]) + Weight(Lines(s)[j])
  {
    if s != [] {
      LineAt(s, i);
      LineAt(s, j);
      hide Lines;
      if s[0] == '\n' {
        LinesWeigh(s[1..], if i > 0 then i - 1 else 0, if j > 0 then j - 1 else 0);
      } else {
        LinesWeigh(s[1..], i, j);
      }
    }
  }

  /** A line of a text is a line of its tail, longer by the first character if it is the first. */
  lemma LineAt(s: string, i: nat)
    requires s != [] && i < |Lines(s)|
    ensures var r, l := Lines(s[1..]), Lines(s)[i];
            if s[0] == '\n' then |r| == |Lines(s)| - 1 && l == if i == 0 then [] else r[i - 1]
            else |r| == |Lines(s)| && Weight(l) == Weight(r[i]) + if i == 0 && Nameable(s[0]) then 1 else 0
  {
    var r := Lines(s[1..]);
    if s[0] != '\n' {
      assert Lines(s) == [[s[0]] + r[0]] + r[1..];
      if i == 0 { assert ([s[0]] + r[0])[1..] == r[0]; }
    }
  }

  lemma {:induction false} StripNulWeighs(s: string)
    ensures Weight(StripNul(s)) == Weight(s)
  {
    if s != [] { StripNulWeighs(s[1..]); }
  }

  /** A name with two named lines: an accepted pattern means it, and hits no line of it. */
  lemma TornIsMissed(f: string, i: nat, j: nat)
    requires var ls := Lines(StripNul(f)); i < j < |ls| && Named(ls[i]) && Named(ls[j])
    ensures PatOK(Woven(f)) && Match(Glob(Woven(f)), f) && !Hit(Woven(f), [f])
  {
    var p, s := Woven(f), StripNul(f);
    WovenAccepted(f);
    WovenPieces(f);
    WovenMatches(f);
    GlobPieces(p);
    GlobREExact(p);
    forall l | l in Lines(Listing([f])) ensures !Match(GlobRE(p), l) {
      TrimKeepsLines(s, l);
      var k :| 0 <= k < |Lines(s)| && Lines(s)[k] == l;
      LineIsLighter(s, i, j, k);
      StripNulWeighs(f);
      TooLight(f, l);
    }
  }

  lemma LineIsLighter(s: string, i: nat, j: nat, k: nat)
    requires i < j < |Lines(s)| && Named(Lines(s)[i]) && Named(Lines(s)[j]) && k < |Lines(s)|
    ensures Weight(Lines(s)[k]) < Weight(s)
  {
    NamedWeighs(Lines(s)[i]);
    NamedWeighs(Lines(s)[j]);
    LinesWeigh(s, k, if k == i then j else i);
  }

  lemma TooLight(f: string, l: string)
    requires Weight(l) < Weight(f)
    ensures !Match(WovenToks(f), l)
  {
    WovenWeighs(f);
    if Match(WovenToks(f), l) { MatchWeighs(WovenToks(f), l); }
  }

  lemma {:induction false} StarRun(s: string)
    requires '/' !in s
    ensures Match([Star], s)
  {
    if s != [] { StarRun(s[1..]); }
  }

  lemma HeadEmpty(s: string)
    requires s != []
    ensures Lines(s)[0] == "" <==> s[0] == '\n'
  {
  }

  lemma {:induction false} OnlyNewlines(s: string)
    requires forall i :: 0 <= i < |Lines(s)| ==> Lines(s)[i] == ""
    ensures forall i :: 0 <= i < |s| ==> s[i] == '\n'
  {
    if s != [] {
      var r, ls := Lines(s[1..]), Lines(s);
      HeadEmpty(s);
      assert ls == [[]] + r;
      forall i | 0 <= i < |r| ensures r[i] == "" { assert ls[i + 1] == r[i]; }
      OnlyNewlines(s[1..]);
      assert s == [s[0]] + s[1..];
    }
  }

  lemma {:induction false} TrimAll(a: string, s: string)
    requires (a == "" || a[|a| - 1] != '\n') && forall i :: 0 <= i < |s| ==> s[i] == '\n'
    ensures TrimRight(a + s, '\n') == a
    decreases |s|
  {
    if s == [] {
      assert a + s == a;
    } else {
      var q := s[..|s| - 1];
      assert (a + s)[|a + s| - 1] == '\n' && (a + s)[..|a + s| - 1] == a + q;
      TrimAll(a, q);
    }
  }

  lemma {:induction false} StripNulChars(s: string)
    ensures forall c :: c in s && c != '\0' ==> c in StripNul(s)
  {
    if s != [] {
      StripNulChars(s[1..]);
      assert s == [s[0]] + s[1..];
    }
  }

  /** A name of nothing but newlines leaves no line behind: beside another file the pattern `*` misses it. */
  lemma BlankIsMissed(f: string)
    requires forall i :: 0 <= i < |Lines(StripNul(f))| ==> Lines(StripNul(f))[i] == ""
    ensures PatOK("*") && Match(Glob("*"), f) && Listing(["a/b", f]) == "a/b" && !Hit("*", ["a/b", f])
  {
    var s := StripNul(f);
    OnlyNewlines(s);
    StripNulChars(f);
    StarRun(f);
    StarPattern();
    BlankListing(f);
    StarStops();
    SplitOne("a/b", '\n');
    hide Match, Listing, StripNul;
    assert forall l :: l in Lines("a/b") ==> l == "a/b";
  }

  lemma BlankListing(f: string)
    requires forall i :: 0 <= i < |StripNul(f)| ==> StripNul(f)[i] == '\n'
    ensures Listing(["a/b", f]) == "a/b"
  {
    var s := StripNul(f);
    PlainStays("a/b\n");
    TwoJoined("a/b", f);
    TrimBlank(s);
    hide StripNul, TrimRight, Join;
    StripNulConcat("a/b\n", f);
    assert "a/b" + ['\n'] == "a/b\n";
  }

  lemma TwoJoined(a: string, b: string)
    ensures Join([a, b], '\n') == a + ['\n'] + b
  {
    assert [a, b][1..] == [b];
  }

  lemma TrimBlank(s: string)
    requires forall i :: 0 <= i < |s| ==> s[i] == '\n'
    ensures TrimRight("a/b\n" + s, '\n') == "a/b"
  {
    hide TrimRight;
    assert "a/b\n" + s == "a/b" + ("\n" + s);
    TrimAll("a/b", "\n" + s);
  }

  lemma PlainStays(s: string)
    requires '\0' !in s
    ensures StripNul(s) == s
  {
    StripNulFree(s);
  }

  lemma StarStops()
    ensures !Match([Star], "a/b")
  {
    assert "a/b"[1..] == "/b";
    assert !Match([Star], "/b");
  }

  lemma StarPattern()
    ensures PatOK("*") && Glob("*") == [Star] && GlobRE("*") == [Star]
  {
    assert Woven("") == "*";
    WovenAccepted("");
    WovenPieces("");
    GlobPieces("*");
    GlobREShape("*");
    PiecesContain("*");
    ReplaceNothing(Pieces("*"), Lits(PLACEHOLDER), [DStar]);
  }

  /** A name is judged as it is, whatever else has changed and whichever accepted pattern is listed. */
  ghost predicate Safe(f: string) {
    forall names: seq<string>, p :: f in names && PatOK(p) && Match(Glob(p), f) ==> Hit(p, names)
  }

  /** Exactly the surviving names are. */
  lemma SafeExactly(f: string)
    ensures Safe(f) <==> Survives(f)
  {
    hide Survives, Hit, PatOK, Glob, Match;
    if Survives(f) {
      forall names: seq<string>, p | f in names && PatOK(p) && Match(Glob(p), f) ensures Hit(p, names) { SurvivorIsHit(names, f, p); }
    } else {
      var names, p := Missed(f);
    }
  }

  lemma Missed(f: string) returns (names: seq<string>, p: string)
    requires !Survives(f)
    ensures f in names && PatOK(p) && Match(Glob(p), f) && !Hit(p, names)
  {
    hide PatOK, Glob, Match, Hit, Named;
    var ls := Lines(StripNul(f));
    if i, j :| 0 <= i < j < |ls| && Named(ls[i]) && Named(ls[j]) {
      TornIsMissed(f, i, j);
      return [f], Woven(f);
    }
    BlankIsMissed(f);
    return ["a/b", f], "*";
  }
}
