/** The few string operations of Go and the shell that the modelled code relies on. */
module Text {

  /** `strings.Split` by one character: always at least one part. */
  function Split(s: string, sep: char): (parts: seq<string>)
    ensures |parts| >= 1
  {
    if s == [] then [[]]
    else
      var r := Split(s[1..], sep);
      if s[0] == sep then [[]] + r else [[s[0]] + r[0]] + r[1..]
  }

  predicate Letter(c: char) { 'a' <= c <= 'z' || 'A' <= c <= 'Z' }

  /** `strings.Join` with a one-character separator. */
  function Join(parts: seq<string>, sep: char): string {
    if |parts| == 0 then []
    else if |parts| == 1 then parts[0]
    else parts[0] + [sep] + Join(parts[1..], sep)
  }

  ghost predicate Free(parts: seq<string>, sep: char) { forall i :: 0 <= i < |parts| ==> sep !in parts[i] }

  lemma {:induction false} SplitFree(s: string, sep: char)
    ensures Free(Split(s, sep), sep)
  {
    if s != [] { SplitFree(s[1..], sep); }
  }

  lemma {:induction false} JoinSplit(s: string, sep: char)
    ensures Join(Split(s, sep), sep) == s
  {
    if s != [] {
      var r := Split(s[1..], sep);
      JoinSplit(s[1..], sep);
      assert s == [s[0]] + s[1..];
      hide Join;
      if s[0] == sep { JoinEmptyHead(r, sep); } else { JoinLongerHead(s[0], r, sep); }
    }
  }

  lemma JoinEmptyHead(r: seq<string>, sep: char)
    requires r != []
    ensures Join([[]] + r, sep) == [sep] + Join(r, sep)
  {
    assert ([[]] + r)[1..] == r;
  }

  lemma JoinLongerHead(x: char, r: seq<string>, sep: char)
    requires r != []
    ensures Join([[x] + r[0]] + r[1..], sep) == [x] + Join(r, sep)
  {
    var parts := [[x] + r[0]] + r[1..];
    assert parts[1..] == r[1..];
    if |r| > 1 { LongerHead([x], r[0], [sep], Join(r[1..], sep)); }
  }

  lemma LongerHead(x: string, a: string, b: string, c: string)
    ensures (x + a) + b + c == x + (a + b + c)
  {
  }

  lemma {:induction false} SplitAtSeparator(p: string, rest: string, sep: char)
    requires sep !in p
    ensures Split(p + [sep] + rest, sep) == [p] + Split(rest, sep)
  {
    if p == [] {
      assert p + [sep] + rest == [sep] + rest;
      assert ([sep] + rest)[1..] == rest;
    } else {
      SplitAtSeparator(p[1..], rest, sep);
      assert (p + [sep] + rest)[1..] == p[1..] + [sep] + rest;
      assert p == [p[0]] + p[1..];
    }
  }

  lemma SplitCons(x: char, s: string, sep: char)
    ensures var r := Split(s, sep); Split([x] + s, sep) == if x == sep then [[]] + r else [[x] + r[0]] + r[1..]
  {
    assert ([x] + s)[1..] == s;
  }

  /** Splitting a text joined at a separator splits the two sides. */
  lemma {:induction false} SplitConcat(a: string, b: string, sep: char)
    ensures Split(a + ([sep] + b), sep) == Split(a, sep) + Split(b, sep)
  {
    if a == [] {
      assert a + ([sep] + b) == [sep] + b;
      SplitCons(sep, b, sep);
    } else {
      SplitConcat(a[1..], b, sep);
      assert a + ([sep] + b) == [a[0]] + (a[1..] + ([sep] + b));
      SplitCons(a[0], a[1..] + ([sep] + b), sep);
      HeadConcat(a[0], Split(a[1..], sep), Split(b, sep));
    }
  }

  lemma HeadConcat(x: char, r: seq<string>, t: seq<string>)
    requires r != []
    ensures [[]] + (r + t) == ([[]] + r) + t
    ensures [[x] + (r + t)[0]] + (r + t)[1..] == ([[x] + r[0]] + r[1..]) + t
  {
  }

  lemma {:induction false} SplitOne(p: string, sep: char)
    requires sep !in p
    ensures Split(p, sep) == [p]
  {
    if p != [] {
      SplitOne(p[1..], sep);
      assert p == [p[0]] + p[1..];
    }
  }

  /** Splitting undoes joining. */
  lemma {:induction false} SplitJoin(parts: seq<string>, sep: char)
    requires parts != [] && Free(parts, sep)
    ensures Split(Join(parts, sep), sep) == parts
  {
    if |parts| == 1 {
      SplitOne(parts[0], sep);
    } else {
      SplitJoin(parts[1..], sep);
      SplitAtSeparator(parts[0], Join(parts[1..], sep), sep);
    }
  }

  lemma JoinInjective(a: seq<string>, b: seq<string>, sep: char)
    requires a != [] && b != [] && Free(a, sep) && Free(b, sep) && Join(a, sep) == Join(b, sep)
    ensures a == b
  {
    SplitJoin(a, sep);
    SplitJoin(b, sep);
  }

  /** `lines`: the lines of a captured output. */
  function Lines(s: string): seq<string> { Split(s, '\n') }

  function StripNul(s: string): string {
    if s == [] then [] else if s[0] == '\0' then StripNul(s[1..]) else [s[0]] + StripNul(s[1..])
  }

  function TrimRight(s: string, c: char): string {
    if s == [] || s[|s| - 1] != c then s else TrimRight(s[..|s| - 1], c)
  }

  /** What `$(...)` makes of an output: NULs dropped, trailing newlines removed. */
  function CmdSub(s: string): string { TrimRight(StripNul(s), '\n') }

  lemma {:induction false} StripNulFree(s: string)
    ensures '\0' !in StripNul(s)
    ensures '\0' !in s ==> StripNul(s) == s
  {
    if s != [] {
      StripNulFree(s[1..]);
      assert s == [s[0]] + s[1..];
    }
  }

  lemma {:induction false} TrimRightKeeps(s: string, c: char, x: char)
    requires x !in s
    ensures x !in TrimRight(s, c)
  {
    if s != [] && s[|s| - 1] == c { TrimRightKeeps(s[..|s| - 1], c, x); }
  }

  lemma {:induction false} JoinEnds(parts: seq<string>, sep: char)
    requires parts != [] && parts[|parts| - 1] != []
    ensures var j := Join(parts, sep); j != [] && j[|j| - 1] == parts[|parts| - 1][|parts[|parts| - 1]| - 1]
  {
    if |parts| > 1 { JoinEnds(parts[1..], sep); }
  }

  lemma {:induction false} JoinLacks(parts: seq<string>, sep: char, x: char)
    requires x != sep && forall i :: 0 <= i < |parts| ==> x !in parts[i]
    ensures x !in Join(parts, sep)
  {
    if |parts| > 1 { JoinLacks(parts[1..], sep, x); }
  }

  lemma {:induction false} PartsLack(s: string, sep: char, x: char)
    requires x !in s
    ensures forall i :: 0 <= i < |Split(s, sep)| ==> x !in Split(s, sep)[i]
  {
    if s != [] {
      PartsLack(s[1..], sep, x);
      assert s == [s[0]] + s[1..];
    }
  }

  /** The lines of the captured listing of some names: each is free of newlines and NULs, and they are the names
      themselves when all of those are, and none is empty. */
  lemma CapturedLines(names: seq<string>, line: string)
    requires line in Lines(CmdSub(Join(names, '\n')))
    ensures '\n' !in line && '\0' !in line
  {
    var joined := Join(names, '\n');
    StripNulFree(joined);
    TrimRightKeeps(StripNul(joined), '\n', '\0');
    SplitFree(CmdSub(joined), '\n');
    PartsLack(CmdSub(joined), '\n', '\0');
  }

  lemma CapturedNames(names: seq<string>)
    requires names != []
    requires forall i :: 0 <= i < |names| ==> names[i] != "" && '\n' !in names[i] && '\0' !in names[i]
    ensures CmdSub(Join(names, '\n')) != "" && Lines(CmdSub(Join(names, '\n'))) == names
  {
    var joined := Join(names, '\n');
    JoinLacks(names, '\n', '\0');
    StripNulFree(joined);
    JoinEnds(names, '\n');
    SplitJoin(names, '\n');
    var last := names[|names| - 1];
    assert last[|last| - 1] in last;
  }
}
