/** The path check of the analysis manifest: a recorded path must be canonical and artifact-relative, judged after reading
    its percent escapes and compatibility characters until they stop changing it. */
module ArtifactPath {
  import opened Bytes
  import opened Sequences
  import opened Text

  // ---- Reading a path ----

  /** What the generated table folds a character to, and what a run of escaped bytes outside ASCII decodes to. */
  datatype RawDecoding = RawDecoding(fold: char -> string, high: seq<byte> -> string)
  {
    ghost predicate Ok() { forall c :: c < '\U{80}' ==> fold(c) == [c] }
  }

  function Itself(c: char): string { [c] }

  function Replacement(b: seq<byte>): string { "\U{FFFD}" }

  type Decoding = d: RawDecoding | d.Ok() witness RawDecoding(Itself, Replacement)

  predicate Hex(c: char) { '0' <= c <= '9' || 'A' <= c <= 'F' || 'a' <= c <= 'f' }

  function Digit(c: char): nat
    requires Hex(c)
    ensures Digit(c) < 16
  {
    if c <= '9' then c as int - '0' as int else if c <= 'F' then c as int - 'A' as int + 10 else c as int - 'a' as int + 10
  }

  predicate Escaped(s: string) { |s| >= 3 && s[0] == '%' && Hex(s[1]) && Hex(s[2]) }

  /** The bytes of the run of escapes that `s` begins with. */
  function Escapes(s: string): (b: seq<byte>)
    ensures 3 * |b| <= |s| && (Escaped(s) <==> b != [])
  {
    if Escaped(s) then [16 * Digit(s[1]) + Digit(s[2])] + Escapes(s[3..]) else []
  }

  function HighRun(b: seq<byte>): (n: nat)
    ensures n <= |b| && (n == 0 <==> b == [] || b[0] < 0x80)
  {
    if b == [] || b[0] < 0x80 then 0 else 1 + HighRun(b[1..])
  }

  /** Bytes as text: ASCII stands for itself, and what lies between is decoded run by run. */
  function TextOf(d: Decoding, b: seq<byte>): string
    decreases |b|
  {
    if b == [] then []
    else if b[0] < 0x80 then [b[0] as char] + TextOf(d, b[1..])
    else d.high(b[..HighRun(b)]) + TextOf(d, b[HighRun(b)..])
  }

  /** `pyUnquote`: every run of escapes is decoded as one. */
  function Unquote(d: Decoding, s: string): string {
    if s == [] then []
    else if Escaped(s) then TextOf(d, Escapes(s)) + Unquote(d, s[3 * |Escapes(s)|..])
    else [s[0]] + Unquote(d, s[1..])
  }

  /** `nfkc`: character by character. */
  function Fold(d: Decoding, s: string): string { if s == [] then [] else d.fold(s[0]) + Fold(d, s[1..]) }

  function Round(d: Decoding, s: string): string { Fold(d, Unquote(d, s)) }

  function Rounds(d: Decoding, s: string, n: nat): string { if n == 0 then s else Round(d, Rounds(d, s, n - 1)) }

  // ---- Canonical relative paths ----

  /** What `pySpace` calls white space. */
  predicate Space(c: char) {
    || '\t' <= c <= '\r' || '\U{1C}' <= c <= ' ' || c == '\U{85}' || c == '\U{A0}' || c == '\U{1680}'
    || '\U{2000}' <= c <= '\U{200A}' || c == '\U{2028}' || c == '\U{2029}' || c == '\U{202F}' || c == '\U{205F}' || c == '\U{3000}'
  }

  predicate Blank(s: string) { forall i :: 0 <= i < |s| ==> Space(s[i]) }

  predicate SchemeChar(c: char) { Letter(c) || '0' <= c <= '9' || c == '+' || c == '.' || c == '-' }

  /** A letter, then letters, digits and the signs of a URI scheme, up to a colon. */
  predicate HasScheme(s: string) {
    exists i :: 0 < i < |s| && s[i] == ':' && Letter(s[0]) && forall k :: 0 <= k < i ==> SchemeChar(s[k])
  }

  /** The components without empty ones and dots. */
  function Proper(parts: seq<string>): seq<string> {
    if parts == [] then []
    else (if parts[0] == "" || parts[0] == "." then [] else [parts[0]]) + Proper(parts[1..])
  }

  function TrimSlashes(s: string): string { if s != [] && s[0] == '/' then TrimSlashes(s[1..]) else s }

  /** `pyParts`: a root of one slash, or of two when there are exactly two, then the proper components. */
  function PyParts(s: string): seq<string> {
    if s != [] && s[0] == '/' then
      var rest := TrimSlashes(s);
      [if |s| - |rest| == 2 then "//" else "/"] + Proper(Split(rest, '/'))
    else Proper(Split(s, '/'))
  }

  /** `pyNorm`. */
  function PyNorm(s: string): string {
    var parts := PyParts(s);
    if parts == [] then "."
    else if parts[0] != [] && parts[0][0] == '/' then parts[0] + Join(parts[1..], '/')
    else Join(parts, '/')
  }

  /** A relative path of ordinary components, or the directory itself; no backslash, no scheme. */
  ghost predicate Canonical(s: string) {
    '\\' !in s && !HasScheme(s) && (s == "." || forall p :: p in Split(s, '/') ==> p !in {"", ".", ".."})
  }

  /** Something other than white space, settled after seven rounds of reading, and then canonical. */
  ghost predicate Relative(d: Decoding, s: string) {
    !Blank(s) && (forall n: nat :: n >= 7 ==> Rounds(d, s, n) == Rounds(d, s, 7)) && Canonical(Rounds(d, s, 7))
  }

  lemma {:induction false} ProperKeeps(parts: seq<string>)
    ensures |Proper(parts)| <= |parts|
    ensures Proper(parts) == parts <==> "" !in parts && "." !in parts
    ensures forall p :: p in Proper(parts) <==> p in parts && p != "" && p != "."
  {
    if parts != [] {
      ProperKeeps(parts[1..]);
      assert parts == [parts[0]] + parts[1..];
      if Proper(parts) == parts { assert parts[0] != "" && parts[0] != "." && Proper(parts)[1..] == parts[1..]; }
    }
  }

  /** A path without a root is its own normal form exactly when nothing is dropped from it, or it is the dot. */
  lemma NormIsItself(s: string)
    requires s == [] || s[0] != '/'
    ensures PyNorm(s) == s <==> s == "." || ("" !in Split(s, '/') && "." !in Split(s, '/'))
  {
    var parts := Split(s, '/');
    var kept := Proper(parts);
    ProperKeeps(parts);
    SplitFree(s, '/');
    JoinSplit(s, '/');
    ProperFree(parts);
    if kept != [] && Join(kept, '/') == s { SplitJoin(kept, '/'); }
    if s == "." {
      SplitOne(".", '/');
      assert parts[1..] == [];
    }
  }

  lemma ProperFree(parts: seq<string>)
    requires Free(parts, '/')
    ensures Free(Proper(parts), '/')
    ensures Proper(parts) != [] ==> Proper(parts)[0] == [] || Proper(parts)[0][0] != '/'
  {
    ProperKeeps(parts);
    var kept := Proper(parts);
    forall i | 0 <= i < |kept| ensures '/' !in kept[i] { assert kept[i] in kept; }
  }

  lemma RootIsEmptyPart(s: string)
    ensures s != [] && s[0] == '/' ==> "" in Split(s, '/') && s != "."
  {
    if s != [] && s[0] == '/' { assert Split(s, '/')[0] == ""; }
  }

  /** The refusals of the code, together. */
  lemma CanonicalIs(s: string)
    ensures Canonical(s) <==>
              !('\\' in s || HasScheme(s) || (s != [] && s[0] == '/') || ".." in PyParts(s) || PyNorm(s) != s)
  {
    var parts := Split(s, '/');
    RootIsEmptyPart(s);
    if s == [] || s[0] != '/' {
      NormIsItself(s);
      ProperKeeps(parts);
      hide HasScheme, PyNorm, Split;
      assert s == "." ==> ".." !in parts by { SplitOne(".", '/'); }
    }
  }

  lemma {:induction false} RoundsFixed(d: Decoding, s: string, i: nat, n: nat)
    requires Rounds(d, s, i + 1) == Rounds(d, s, i) && i <= n
    ensures Rounds(d, s, n) == Rounds(d, s, i)
  {
    if i < n { RoundsFixed(d, s, i, n - 1); }
  }

  /** `relativePath`: at most eight rounds, then the tests. */
  method RelativePath(d: Decoding, text: string) returns (ok: bool)
    ensures ok <==> Relative(d, text)
  {
    hide Round, Canonical, HasScheme, PyParts, PyNorm;
    if Blank(text) { return false; }
    var normalized, stable := text, false;
    for i := 0 to 8
      invariant normalized == Rounds(d, text, i)
      invariant i > 0 ==> Rounds(d, text, i) != Rounds(d, text, i - 1)
    {
      var decoded := Round(d, normalized);
      if decoded == normalized {
        forall n: nat | n >= i ensures Rounds(d, text, n) == Rounds(d, text, i) { RoundsFixed(d, text, i, n); }
        stable := true;
        break;
      }
      normalized := decoded;
    }
    if !stable { return false; }
    CanonicalIs(normalized);
    return !('\\' in normalized || HasScheme(normalized) || (normalized != [] && normalized[0] == '/')
             || ".." in PyParts(normalized) || PyNorm(normalized) != normalized);
  }

  // ---- What reading cannot change ----

  lemma FoldConcat(d: Decoding, a: string, b: string)
    ensures Fold(d, a + b) == Fold(d, a) + Fold(d, b)
  {
    if a == [] {
      assert a + b == b;
    } else {
      assert (a + b)[0] == a[0] && (a + b)[1..] == a[1..] + b;
      FoldConcat(d, a[1..], b);
      Assoc(d.fold(a[0]), Fold(d, a[1..]), Fold(d, b));
    }
  }

  /** A character that no escape holds ends every run of escapes. */
  predicate Breaks(c: char) { c != '%' && !Hex(c) }

  lemma {:induction false} EscapesStop(a: string, c: char, b: string)
    requires Breaks(c)
    ensures Escapes(a + [c] + b) == Escapes(a)
    decreases |a|
  {
    var s := a + [c] + b;
    assert s[|a|] == c && forall i :: 0 <= i < |a| ==> s[i] == a[i];
    if Escaped(a) {
      assert s[3..] == a[3..] + [c] + b;
      EscapesStop(a[3..], c, b);
    }
  }

  lemma {:induction false} UnquoteBreaks(d: Decoding, a: string, c: char, b: string)
    requires Breaks(c)
    ensures Unquote(d, a + [c] + b) == Unquote(d, a) + [c] + Unquote(d, b)
    decreases |a|
  {
    var s := a + [c] + b;
    EscapesStop(a, c, b);
    if a == [] {
      assert s[0] == c && s[1..] == b;
      assert [] + [c] + Unquote(d, b) == [c] + Unquote(d, b);
    } else if Escaped(a) {
      var n := 3 * |Escapes(a)|;
      assert s[n..] == a[n..] + [c] + b;
      UnquoteBreaks(d, a[n..], c, b);
      Assoc4(TextOf(d, Escapes(a)), Unquote(d, a[n..]), [c], Unquote(d, b));
    } else {
      assert s[0] == a[0] && s[1..] == a[1..] + [c] + b;
      UnquoteBreaks(d, a[1..], c, b);
      Assoc4([a[0]], Unquote(d, a[1..]), [c], Unquote(d, b));
    }
  }

  /** So a round reads both sides of it on their own. */
  lemma RoundBreaks(d: Decoding, a: string, c: char, b: string)
    requires Breaks(c) && c < '\U{80}'
    ensures Round(d, a + [c] + b) == Round(d, a) + [c] + Round(d, b)
  {
    UnquoteBreaks(d, a, c, b);
    FoldConcat(d, Unquote(d, a) + [c], Unquote(d, b));
    FoldConcat(d, Unquote(d, a), [c]);
    assert Fold(d, [c]) == [c] by { assert [c][1..] == []; }
  }

  predicate Literal(s: string) { forall i :: 0 <= i < |s| ==> s[i] != '%' && s[i] < '\U{80}' }

  lemma {:induction false} LiteralStays(d: Decoding, s: string)
    requires Literal(s)
    ensures Unquote(d, s) == s && Fold(d, s) == s
  {
    if s != [] {
      LiteralStays(d, s[1..]);
      assert s == [s[0]] + s[1..];
    }
  }

  lemma {:induction false} LiteralRounds(d: Decoding, s: string, n: nat)
    requires Literal(s)
    ensures Rounds(d, s, n) == s
  {
    LiteralStays(d, s);
    if n > 0 { LiteralRounds(d, s, n - 1); }
  }

  /** A path of ASCII without percent signs, of ordinary components, is refused only when it is blank or begins like a
      URI. */
  lemma LiteralRelative(d: Decoding, s: string)
    requires Literal(s) && '\\' !in s && forall p :: p in Split(s, '/') ==> p !in {"", ".", ".."}
    ensures Relative(d, s) <==> !Blank(s) && !HasScheme(s)
  {
    hide Round, HasScheme, Blank, Split;
    forall n: nat ensures Rounds(d, s, n) == s { LiteralRounds(d, s, n); }
  }

  // ---- No reading of an accepted path leaves the artifacts ----

  /** Not absolute, no way up, no backslash, no scheme. */
  ghost predicate Inside(s: string) {
    '\\' !in s && !HasScheme(s) && (s == [] || s[0] != '/') && ".." !in Split(s, '/')
  }

  lemma CharStays(d: Decoding, s: string, i: nat)
    requires i < |s| && Breaks(s[i]) && s[i] < '\U{80}'
    ensures Round(d, s) == Round(d, s[..i]) + [s[i]] + Round(d, s[i + 1..])
  {
    assert s == s[..i] + [s[i]] + s[i + 1..];
    RoundBreaks(d, s[..i], s[i], s[i + 1..]);
  }

  lemma SchemeStays(d: Decoding, s: string)
    requires HasScheme(s)
    ensures HasScheme(Round(d, s))
  {
    var i :| 0 < i < |s| && s[i] == ':' && Letter(s[0]) && forall k :: 0 <= k < i ==> SchemeChar(s[k]);
    CharStays(d, s, i);
    LiteralStays(d, s[..i]);
    var r := Round(d, s);
    hide Round;
    assert r[i] == ':' && r[..i] == s[..i];
    forall k | 0 <= k < i ensures r[k] == s[k] { assert r[..i][k] == s[..i][k]; }
  }

  lemma {:induction false} PartStays(d: Decoding, parts: seq<string>, i: nat)
    requires i < |parts| && parts[i] == ".."
    ensures ".." in Split(Round(d, Join(parts, '/')), '/')
  {
    DotsStay(d);
    JoinHead(parts);
    hide Round, Split, Join;
    if |parts| > 1 {
      RoundSplits(d, parts[0], Join(parts[1..], '/'));
      if i > 0 { PartStays(d, parts[1..], i - 1); }
    }
  }

  lemma JoinHead(parts: seq<string>)
    requires parts != []
    ensures Join(parts, '/') == if |parts| == 1 then parts[0] else parts[0] + ['/'] + Join(parts[1..], '/')
  {
  }

  lemma DotsStay(d: Decoding)
    ensures Split(Round(d, ".."), '/') == [".."]
  {
    LiteralStays(d, "..");
    SplitOne("..", '/');
  }

  lemma SlashBreaks()
    ensures Breaks('/')
  {
  }

  lemma RoundSplits(d: Decoding, a: string, b: string)
    ensures Split(Round(d, a + ['/'] + b), '/') == Split(Round(d, a), '/') + Split(Round(d, b), '/')
  {
    SlashBreaks();
    hide *;
    RoundBreaks(d, a, '/', b);
    Assoc(Round(d, a), ['/'], Round(d, b));
    SplitConcat(Round(d, a), Round(d, b), '/');
  }

  /** What leads outside still does after a round. */
  lemma OutsideStays(d: Decoding, s: string)
    requires !Inside(s)
    ensures !Inside(Round(d, s))
  {
    hide Round;
    if '\\' in s {
      var i :| 0 <= i < |s| && s[i] == '\\';
      CharStays(d, s, i);
    } else if HasScheme(s) {
      SchemeStays(d, s);
    } else if s != [] && s[0] == '/' {
      CharStays(d, s, 0);
      EmptyRound(d, s[..0]);
    } else {
      var parts := Split(s, '/');
      var i :| 0 <= i < |parts| && parts[i] == "..";
      JoinSplit(s, '/');
      PartStays(d, parts, i);
    }
  }

  lemma EmptyRound(d: Decoding, s: string)
    requires s == []
    ensures Round(d, s) == []
  {
  }

  lemma {:induction false} OutsideRounds(d: Decoding, s: string, n: nat, m: nat)
    requires n <= m && !Inside(Rounds(d, s, n))
    ensures !Inside(Rounds(d, s, m))
  {
    if n < m {
      OutsideRounds(d, s, n, m - 1);
      OutsideStays(d, Rounds(d, s, m - 1));
    }
  }

  lemma CanonicalInside(s: string)
    requires Canonical(s)
    ensures Inside(s)
  {
    if s == "." { SplitOne(".", '/'); }
    RootIsEmptyPart(s);
  }

  /** However often the escapes of an accepted path are read, it never leads outside. */
  lemma NoReadingEscapes(d: Decoding, s: string, n: nat)
    requires Relative(d, s)
    ensures Inside(Rounds(d, s, n))
  {
    hide Round, Canonical, Inside, Blank;
    var m := if n <= 7 then 7 else n;
    CanonicalInside(Rounds(d, s, 7));
    if !Inside(Rounds(d, s, n)) { OutsideRounds(d, s, n, m); }
  }

  lemma EscapingIsRefused(d: Decoding, s: string, n: nat)
    requires !Inside(Rounds(d, s, n))
    ensures !Relative(d, s)
  {
    hide Relative, Inside;
    if Relative(d, s) { NoReadingEscapes(d, s, n); }
  }
}
