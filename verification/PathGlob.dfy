/** Workflow path patterns: which are accepted, what they mean, and the regular expression built from them. */
module PathGlob {
  import opened Sequences

  /** A pattern as a list of pieces: one literal character, any run without '/', any run. */
  datatype Tok = Lit(c: char) | Star | DStar

  predicate Match(p: seq<Tok>, s: string)
    decreases |p| + |s|
  {
    if p == [] then s == []
    else
      match p[0]
      case Lit(c) => s != [] && s[0] == c && Match(p[1..], s[1..])
      case Star => Match(p[1..], s) || (s != [] && s[0] != '/' && Match(p, s[1..]))
      case DStar => Match(p[1..], s) || (s != [] && Match(p, s[1..]))
  }

  predicate HasPrefix<T(==)>(s: seq<T>, sub: seq<T>) { |sub| <= |s| && s[..|sub|] == sub }

  predicate Contains<T(==)>(s: seq<T>, sub: seq<T>) {
    HasPrefix(s, sub) || (s != [] && Contains(s[1..], sub))
  }

  /** `strings.ReplaceAll`: leftmost, non-overlapping. */
  function ReplaceAll<T(==)>(s: seq<T>, sub: seq<T>, by_: seq<T>): seq<T>
    requires sub != []
  {
    if HasPrefix(s, sub) then by_ + ReplaceAll(s[|sub|..], sub, by_)
    else if s == [] then []
    else [s[0]] + ReplaceAll(s[1..], sub, by_)
  }

  function Lits(s: string): seq<Tok> { seq(|s|, i requires 0 <= i < |s| => Lit(s[i])) }

  const PLACEHOLDER := "@@DS@@"

  predicate PatChar(c: char) {
    'A' <= c <= 'Z' || 'a' <= c <= 'z' || '0' <= c <= '9' || c in "_.*/@-"
  }

  function TrimSuffix(p: string): string {
    if |p| >= 3 && p[|p| - 3..] == "/**" then p[..|p| - 3] else p
  }

  /** The patterns the gate is willing to judge: a restricted alphabet, and a double star only as the last component. */
  predicate PatOK(p: string) {
    p != "" && (forall i :: 0 <= i < |p| ==> PatChar(p[i])) && !Contains(TrimSuffix(p), "**")
  }

  /** The regular expression as the code builds it: `**` becomes a placeholder, `*` becomes `[^/]*`, and then the
      placeholder becomes `.*`; every other character is escaped to a literal. */
  function GlobRE(p: string): seq<Tok> {
    ReplaceAll(ReplaceAll(Lits(ReplaceAll(p, "**", PLACEHOLDER)), [Lit('*')], [Star]), Lits(PLACEHOLDER), [DStar])
  }

  /** What the pattern means: `**` crosses directories, `*` does not, everything else is itself. */
  function Glob(p: string): seq<Tok> {
    if p == [] then []
    else if HasPrefix(p, "**") then [DStar] + Glob(p[2..])
    else [if p[0] == '*' then Star else Lit(p[0])] + Glob(p[1..])
  }

  // ---- Replacement, piece by piece ----

  /** A string without `**`, piece by piece. */
  function Pieces(q: string): seq<Tok> { seq(|q|, i requires 0 <= i < |q| => if q[i] == '*' then Star else Lit(q[i])) }

  lemma PiecesCons(q: string)
    requires q != []
    ensures Pieces(q) == [if q[0] == '*' then Star else Lit(q[0])] + Pieces(q[1..])
    ensures Lits(q) == [Lit(q[0])] + Lits(q[1..])
  {
  }

  lemma {:induction false} ReplaceNothing<T>(s: seq<T>, sub: seq<T>, by_: seq<T>)
    requires sub != [] && !Contains(s, sub)
    ensures ReplaceAll(s, sub, by_) == s
  {
    if s != [] {
      ReplaceNothing(s[1..], sub, by_);
      assert s == [s[0]] + s[1..];
    }
  }

  /** Occurrences do not reach across an element that `sub` does not hold. */
  lemma {:induction false} ReplaceAround<T>(a: seq<T>, x: T, b: seq<T>, sub: seq<T>, by_: seq<T>)
    requires sub != [] && x !in sub
    ensures ReplaceAll(a + [x] + b, sub, by_) == ReplaceAll(a, sub, by_) + [x] + ReplaceAll(b, sub, by_)
    decreases |a|
  {
    var s := a + [x] + b;
    PrefixAround(a, x, b, sub);
    if HasPrefix(a, sub) {
      DropAround(a, x, b, |sub|);
      ReplaceAround(a[|sub|..], x, b, sub, by_);
      Assoc4(by_, ReplaceAll(a[|sub|..], sub, by_), [x], ReplaceAll(b, sub, by_));
    } else if a == [] {
      assert s == [x] + b;
      assert s[1..] == b;
    } else {
      DropAround(a, x, b, 1);
      ReplaceAround(a[1..], x, b, sub, by_);
      Assoc4([a[0]], ReplaceAll(a[1..], sub, by_), [x], ReplaceAll(b, sub, by_));
    }
  }

  lemma DropAround<T>(a: seq<T>, x: T, b: seq<T>, k: nat)
    requires k <= |a|
    ensures (a + [x] + b)[k..] == a[k..] + [x] + b
  {
  }

  lemma PrefixAround<T>(a: seq<T>, x: T, b: seq<T>, sub: seq<T>)
    requires x !in sub
    ensures HasPrefix(a + [x] + b, sub) <==> HasPrefix(a, sub)
  {
    var s := a + [x] + b;
    if |sub| <= |a| {
      assert s[..|sub|] == a[..|sub|];
    } else if |sub| <= |s| {
      assert s[..|sub|][|a|] == x;
    }
  }

  lemma {:induction false} StarsReplaced(q: string)
    ensures ReplaceAll(Lits(q), [Lit('*')], [Star]) == Pieces(q)
  {
    if q != [] {
      StarsReplaced(q[1..]);
      PiecesCons(q);
      var l := Lits(q);
      assert l[..1] == [Lit(q[0])] && l[1..] == Lits(q[1..]);
    }
  }

  lemma {:induction false} GlobPieces(q: string)
    requires !Contains(q, "**")
    ensures Glob(q) == Pieces(q)
  {
    if q != [] {
      GlobPieces(q[1..]);
      PiecesCons(q);
    }
  }

  lemma GlobSlashStars()
    ensures Glob("/**") == [Lit('/'), DStar]
  {
    assert "/**"[1..] == "**" && "**"[2..] == "";
    assert Glob("**") == [DStar] + Glob("");
  }

  lemma {:induction false} GlobTrailing(q: string)
    requires !Contains(q, "**")
    ensures Glob(q + "/**") == Pieces(q) + [Lit('/'), DStar]
  {
    if q == [] {
      GlobSlashStars();
      assert q + "/**" == "/**" && Pieces(q) == [];
    } else {
      GlobTrailing(q[1..]);
      PiecesCons(q);
      NotDoubled(q);
      GlobStep(q);
    }
  }

  lemma GlobStep(q: string)
    requires q != [] && !HasPrefix(q + "/**", "**")
    ensures Glob(q + "/**") == [if q[0] == '*' then Star else Lit(q[0])] + Glob(q[1..] + "/**")
  {
    TailAround(q, "/**");
    GlobOne(q + "/**");
    hide Glob, HasPrefix;
  }

  lemma TailAround(q: string, tail: string)
    requires q != []
    ensures (q + tail)[0] == q[0] && (q + tail)[1..] == q[1..] + tail
  {
  }

  /** A character that begins no double star stands for itself. */
  lemma GlobOne(p: string)
    requires p != [] && !HasPrefix(p, "**")
    ensures Glob(p) == [if p[0] == '*' then Star else Lit(p[0])] + Glob(p[1..])
  {
  }

  lemma NotDoubled(q: string)
    requires q != [] && !HasPrefix(q, "**")
    ensures !HasPrefix(q + "/**", "**")
  {
    var p := q + "/**";
    if |q| >= 2 {
      assert p[..2] == q[..2];
    } else {
      assert p[..2][1] == '/';
    }
  }

  /** The expression built for an accepted pattern: the pieces of the part before a trailing double-star component,
      with the placeholder replaced in them too. */
  lemma GlobREShape(p: string)
    requires PatOK(p)
    ensures var q := TrimSuffix(p);
            GlobRE(p) == ReplaceAll(Pieces(q), Lits(PLACEHOLDER), [DStar]) + (if q == p then [] else [Lit('/'), DStar])
    ensures Glob(p) == Pieces(TrimSuffix(p)) + (if TrimSuffix(p) == p then [] else [Lit('/'), DStar])
  {
    var q := TrimSuffix(p);
    ReplaceNothing(q, "**", PLACEHOLDER);
    if q == p {
      StarsReplaced(q);
      GlobPieces(q);
    } else {
      assert p == q + "/**";
      GlobTrailing(q);
      TrailingRE(q);
    }
  }

  lemma TrailingRE(q: string)
    requires !Contains(q, "**")
    ensures GlobRE(q + "/**") == ReplaceAll(Pieces(q), Lits(PLACEHOLDER), [DStar]) + [Lit('/'), DStar]
  {
    var r := q + "/" + PLACEHOLDER;
    TrailingDouble(q);
    StarsReplaced(r);
    PiecesOfPlaceholder();
    PiecesAround(q);
    ReplaceAround(Pieces(q), Lit('/'), Lits(PLACEHOLDER), Lits(PLACEHOLDER), [DStar]);
  }

  lemma PiecesAround(q: string)
    ensures Pieces(q + "/" + PLACEHOLDER) == Pieces(q) + [Lit('/')] + Lits(PLACEHOLDER)
  {
    PiecesOfPlaceholder();
    var r := q + "/" + PLACEHOLDER;
    forall i | 0 <= i < |r| ensures Pieces(r)[i] == (Pieces(q) + [Lit('/')] + Pieces(PLACEHOLDER))[i] {}
  }

  lemma TrailingDouble(q: string)
    requires !Contains(q, "**")
    ensures ReplaceAll(q + "/**", "**", PLACEHOLDER) == q + "/" + PLACEHOLDER
  {
    ReplaceNothing(q, "**", PLACEHOLDER);
    ReplaceAround(q, '/', "**", "**", PLACEHOLDER);
    assert q + "/**" == q + ['/'] + "**";
    assert "**"[2..] == "";
    assert ReplaceAll("**", "**", PLACEHOLDER) == PLACEHOLDER + ReplaceAll("", "**", PLACEHOLDER);
  }

  lemma PiecesOfPlaceholder()
    ensures Pieces(PLACEHOLDER) == Lits(PLACEHOLDER)
    ensures ReplaceAll(Lits(PLACEHOLDER), Lits(PLACEHOLDER), [DStar]) == [DStar]
  {
    var l := Lits(PLACEHOLDER);
    assert l[..|l|] == l && l[|l|..] == [];
    assert ReplaceAll([], l, [DStar]) == [];
  }

  // ---- How far the expression emulates the pattern ----

  lemma {:induction false} LiteralRun(x: string, rest: seq<Tok>, s: string)
    requires Match(Lits(x) + rest, s)
    ensures HasPrefix(s, x) && Match(rest, s[|x|..])
  {
    if x == [] {
      assert Lits(x) + rest == rest;
    } else {
      PiecesCons(x);
      assert (Lits(x) + rest)[1..] == Lits(x[1..]) + rest;
      LiteralRun(x[1..], rest, s[1..]);
      assert x == [x[0]] + x[1..] && s == [s[0]] + s[1..];
    }
  }

  lemma {:induction false} AnyRun(k: nat, rest: seq<Tok>, s: string)
    requires k <= |s| && Match(rest, s[k..])
    ensures Match([DStar] + rest, s)
    decreases k
  {
    assert ([DStar] + rest)[1..] == rest;
    if k > 0 {
      assert s[1..][k - 1..] == s[k..];
      AnyRun(k - 1, rest, s[1..]);
    }
  }

  /** Two piece lists that differ in their tails: matching carries over when it does for the tails. */
  lemma {:induction false} MatchHead(t: Tok, p: seq<Tok>, q: seq<Tok>, s: string)
    requires Match([t] + p, s)
    requires forall u :: Match(p, u) ==> Match(q, u)
    ensures Match([t] + q, s)
    decreases |s|
  {
    assert ([t] + p)[1..] == p && ([t] + q)[1..] == q;
    if !t.Lit? && !Match(p, s) { MatchHead(t, p, q, s[1..]); }
  }

  lemma {:induction false} ReplacedMatches(x: seq<Tok>, tail: seq<Tok>, s: string)
    requires Match(x + tail, s)
    ensures Match(ReplaceAll(x, Lits(PLACEHOLDER), [DStar]) + tail, s)
    decreases |x|
  {
    var ph := Lits(PLACEHOLDER);
    if HasPrefix(x, ph) {
      var rest := x[|ph|..];
      assert x == ph + rest;
      Assoc(ph, rest, tail);
      LiteralRun(PLACEHOLDER, rest + tail, s);
      ReplacedMatches(rest, tail, s[|PLACEHOLDER|..]);
      Assoc([DStar], ReplaceAll(rest, ph, [DStar]), tail);
      AnyRun(|PLACEHOLDER|, ReplaceAll(rest, ph, [DStar]) + tail, s);
    } else if x != [] {
      var rest := x[1..];
      assert x == [x[0]] + rest;
      Assoc([x[0]], rest, tail);
      Assoc([x[0]], ReplaceAll(rest, ph, [DStar]), tail);
      forall u | Match(rest + tail, u) ensures Match(ReplaceAll(rest, ph, [DStar]) + tail, u) { ReplacedMatches(rest, tail, u); }
      MatchHead(x[0], rest + tail, ReplaceAll(rest, ph, [DStar]) + tail, s);
    }
  }

  /** No match is ever missed: whatever an accepted pattern matches, the expression matches. */
  lemma GlobRENeverMisses(p: string, s: string)
    requires PatOK(p) && Match(Glob(p), s)
    ensures Match(GlobRE(p), s)
  {
    GlobREShape(p);
    ReplacedMatches(Pieces(TrimSuffix(p)), if TrimSuffix(p) == p then [] else [Lit('/'), DStar], s);
  }

  /** The literal characters of a pattern; every match is at least that long. */
  function Literals(p: seq<Tok>): nat {
    if p == [] then 0 else (if p[0].Lit? then 1 else 0) + Literals(p[1..])
  }

  lemma {:induction false} MatchLength(p: seq<Tok>, s: string)
    requires Match(p, s)
    ensures |s| >= Literals(p)
    decreases |p| + |s|
  {
    if p != [] {
      match p[0]
      case Lit(_) => MatchLength(p[1..], s[1..]);
      case _ => if Match(p[1..], s) { MatchLength(p[1..], s); } else { MatchLength(p, s[1..]); }
    }
  }

  lemma {:induction false} ShortestMatch(p: seq<Tok>) returns (s: string)
    ensures Match(p, s) && |s| == Literals(p)
  {
    if p == [] {
      s := [];
    } else {
      s := ShortestMatch(p[1..]);
      if p[0].Lit? {
        var t := s;
        s := [p[0].c] + t;
        assert s[1..] == t;
      }
    }
  }

  lemma {:induction false} LiteralsConcat(p: seq<Tok>, q: seq<Tok>)
    ensures Literals(p + q) == Literals(p) + Literals(q)
  {
    if p == [] {
      assert p + q == q;
    } else {
      LiteralsConcat(p[1..], q);
      assert (p + q)[1..] == p[1..] + q;
    }
  }

  lemma {:induction false} LiteralsOf(x: string)
    ensures Literals(Lits(x)) == |x|
  {
    if x != [] {
      LiteralsOf(x[1..]);
      PiecesCons(x);
    }
  }

  lemma {:induction false} ReplacementDropsLiterals(x: seq<Tok>)
    ensures var r := Literals(ReplaceAll(x, Lits(PLACEHOLDER), [DStar]));
            r <= Literals(x) && (Contains(x, Lits(PLACEHOLDER)) ==> r < Literals(x))
    decreases |x|
  {
    var ph := Lits(PLACEHOLDER);
    if HasPrefix(x, ph) {
      var rest := x[|ph|..];
      ReplacementDropsLiterals(rest);
      assert x == ph + rest;
      LiteralsConcat(ph, rest);
      LiteralsOf(PLACEHOLDER);
      LiteralsConcat([DStar], ReplaceAll(rest, ph, [DStar]));
    } else if x != [] {
      ReplacementDropsLiterals(x[1..]);
      LiteralsConcat([x[0]], ReplaceAll(x[1..], ph, [DStar]));
      assert x == [x[0]] + x[1..];
      LiteralsConcat([x[0]], x[1..]);
    }
  }

  lemma {:induction false} PiecesContain(q: string)
    ensures Contains(Pieces(q), Lits(PLACEHOLDER)) <==> Contains(q, PLACEHOLDER)
  {
    PiecesPrefix(q);
    if q != [] {
      PiecesContain(q[1..]);
      PiecesCons(q);
      assert Pieces(q)[1..] == Pieces(q[1..]);
    }
  }

  lemma PiecesPrefix(q: string)
    ensures HasPrefix(Pieces(q), Lits(PLACEHOLDER)) <==> HasPrefix(q, PLACEHOLDER)
  {
    var ps, ph := Pieces(q), Lits(PLACEHOLDER);
    if HasPrefix(ps, ph) {
      forall i | 0 <= i < |PLACEHOLDER| ensures q[i] == PLACEHOLDER[i] { assert ps[i] == ps[..|ph|][i] == ph[i]; }
      assert q[..|PLACEHOLDER|] == PLACEHOLDER;
    }
    if HasPrefix(q, PLACEHOLDER) {
      forall i | 0 <= i < |ph| ensures ps[i] == ph[i] { assert q[i] == q[..|PLACEHOLDER|][i]; }
      assert ps[..|ph|] == ph;
    }
  }

  lemma {:induction false} ContainsAround<T>(a: seq<T>, x: T, b: seq<T>, sub: seq<T>)
    requires sub != [] && x !in sub
    ensures Contains(a + [x] + b, sub) <==> Contains(a, sub) || Contains(b, sub)
  {
    PrefixAround(a, x, b, sub);
    if a == [] {
      assert [] + [x] + b == [x] + b;
      assert ([x] + b)[1..] == b;
    } else {
      ContainsAround(a[1..], x, b, sub);
      assert (a + [x] + b)[1..] == a[1..] + [x] + b;
    }
  }

  lemma PlaceholderBeforeSuffix(p: string)
    ensures Contains(p, PLACEHOLDER) <==> Contains(TrimSuffix(p), PLACEHOLDER)
  {
    var q := TrimSuffix(p);
    if q != p {
      assert p == q + ['/'] + "**";
      ContainsAround(q, '/', "**", PLACEHOLDER);
      assert "**"[1..] == "*" && "*"[1..] == "";
      assert !Contains("*", PLACEHOLDER);
    }
  }

  /** A path that the expression matches and the pattern does not. */
  lemma PlaceholderOvermatches(p: string) returns (s: string)
    requires PatOK(p) && Contains(p, PLACEHOLDER)
    ensures Match(GlobRE(p), s) && !Match(Glob(p), s)
  {
    var q := TrimSuffix(p);
    var tail: seq<Tok> := if q == p then [] else [Lit('/'), DStar];
    PlaceholderBeforeSuffix(p);
    GlobREShape(p);
    PiecesContain(q);
    ReplacementDropsLiterals(Pieces(q));
    LiteralsConcat(Pieces(q), tail);
    LiteralsConcat(ReplaceAll(Pieces(q), Lits(PLACEHOLDER), [DStar]), tail);
    s := ShortestMatch(GlobRE(p));
    if Match(Glob(p), s) {
      MatchLength(Glob(p), s);
      assert false;
    }
  }

  /** Such patterns are accepted: the placeholder is one, and its expression matches every path. */
  lemma PlaceholderIsAccepted()
    ensures PatOK(PLACEHOLDER) && Contains(PLACEHOLDER, PLACEHOLDER)
    ensures Match(GlobRE(PLACEHOLDER), "x") && !Match(Glob(PLACEHOLDER), "x")
  {
    PlaceholderOK();
    hide PatOK, GlobRE, Glob, Contains, Match;
    GlobREShape(PLACEHOLDER);
    PlaceholderToks();
  }

  lemma PlaceholderOK()
    ensures PatOK(PLACEHOLDER) && Contains(PLACEHOLDER, PLACEHOLDER) && TrimSuffix(PLACEHOLDER) == PLACEHOLDER
  {
    var p := PLACEHOLDER;
    NoStarLacks(p);
    assert p[..|p|] == p && HasPrefix(p, p);
    hide HasPrefix;
  }

  lemma {:induction false} NoStarLacks(s: string)
    requires '*' !in s
    ensures !Contains(s, "**")
  {
    if s != [] { NoStarLacks(s[1..]); }
    assert "**"[0] == '*';
  }

  lemma PlaceholderToks()
    ensures var toks := Pieces(PLACEHOLDER);
            && Match(ReplaceAll(toks, Lits(PLACEHOLDER), [DStar]) + [], "x") && !Match(toks + [], "x")
  {
    PiecesOfPlaceholder();
    hide ReplaceAll;
    assert Pieces(PLACEHOLDER) + [] == Pieces(PLACEHOLDER) && [DStar] + [] == [DStar];
    assert Pieces(PLACEHOLDER)[0] == Lit('@');
    assert Match([DStar], "x");
  }

  /** The comment in the code calls the emulation exact. It is, for an accepted pattern, exactly when the pattern does
      not itself spell the placeholder: otherwise the expression matches a path the pattern does not. */
  lemma GlobREExact(p: string)
    requires PatOK(p)
    ensures (forall s :: Match(GlobRE(p), s) <==> Match(Glob(p), s)) <==> !Contains(p, PLACEHOLDER)
  {
    if Contains(p, PLACEHOLDER) {
      var s := PlaceholderOvermatches(p);
    } else {
      PlaceholderBeforeSuffix(p);
      GlobREShape(p);
      PiecesContain(TrimSuffix(p));
      ReplaceNothing(Pieces(TrimSuffix(p)), Lits(PLACEHOLDER), [DStar]);
    }
  }
}
