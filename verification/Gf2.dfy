/** Polynomials over GF(2), written as their coefficients from the highest power down, and division with remainder by
    shifting. */
module Gf2 {
  type Poly = seq<bool>

  function Zeros(n: nat): (z: Poly)
    ensures |z| == n
  {
    seq(n, _ => false)
  }

  function Ones(n: nat): (p: Poly)
    ensures |p| == n
  {
    seq(n, _ => true)
  }

  /** The polynomial of degree `n` with these powers. */
  function WithPowers(n: nat, powers: set<nat>): Poly { seq(n + 1, i requires 0 <= i <= n => n - i in powers) }

  /** Addition, which is also subtraction. */
  function Plus(p: Poly, q: Poly): (s: Poly)
    requires |p| == |q|
    ensures |s| == |p|
  {
    seq(|p|, i requires 0 <= i < |p| => p[i] != q[i])
  }

  function Scale(t: bool, g: Poly): (s: Poly)
    ensures |s| == |g|
  {
    if t then g else Zeros(|g|)
  }

  /** The product of `q` and a divisor. */
  function Times(q: Poly, g: Poly): (p: Poly)
    requires g != []
    ensures |p| == |q| + |g| - 1
  {
    if q == [] then Zeros(|g| - 1) else Plus(Scale(q[0], g) + Zeros(|q| - 1), [false] + Times(q[1..], g))
  }

  /** `r` is what is left of `p` after taking a multiple of `g` away: the remainder, of smaller degree than `g`. */
  ghost predicate IsRemainder(p: Poly, g: Poly, r: Poly)
    requires g != []
  {
    |r| == |g| - 1 && exists q :: |q| + |r| == |p| && p == Plus(Times(q, g), Zeros(|q|) + r)
  }

  lemma TimesHead(q: Poly, g: Poly)
    requires q != [] && g != [] && g[0]
    ensures Times(q, g)[0] == q[0]
    ensures forall i :: 0 <= i < |q| + |g| - 2 ==>
              Times(q, g)[i + 1] == ((Scale(q[0], g) + Zeros(|q| - 1))[i + 1] != Times(q[1..], g)[i])
  {
  }

  /** There is only one remainder. */
  lemma {:induction false} RemainderUnique(q: Poly, v: Poly, g: Poly, r: Poly, s: Poly)
    requires g != [] && g[0] && |q| == |v| && |r| == |s| == |g| - 1
    requires Plus(Times(q, g), Zeros(|q|) + r) == Plus(Times(v, g), Zeros(|v|) + s)
    ensures r == s
  {
    var a, b := Plus(Times(q, g), Zeros(|q|) + r), Plus(Times(v, g), Zeros(|v|) + s);
    if q == [] {
      assert Zeros(0) + r == r && Zeros(0) + s == s && Times(q, g) == Times(v, g);
      forall i | 0 <= i < |r| ensures r[i] == s[i] { assert a[i] == b[i]; }
    } else {
      TimesHead(q, g);
      TimesHead(v, g);
      assert a[0] == b[0];
      UniqueTail(Scale(q[0], g) + Zeros(|q| - 1), Times(q[1..], g), Times(v[1..], g), r, s);
      RemainderUnique(q[1..], v[1..], g, r, s);
    }
  }

  lemma UniqueTail(h: Poly, c: Poly, d: Poly, r: Poly, s: Poly)
    requires |c| == |d| == |h| - 1 && |r| == |s| <= |c|
    requires var n := |h| - |r|; Plus(Plus(h, [false] + c), Zeros(n) + r) == Plus(Plus(h, [false] + d), Zeros(n) + s)
    ensures var n := |h| - |r| - 1; Plus(c, Zeros(n) + r) == Plus(d, Zeros(n) + s)
  {
    var n := |h| - |r|;
    var a, b := Plus(c, Zeros(n - 1) + r), Plus(d, Zeros(n - 1) + s);
    forall i | 0 <= i < |a| ensures a[i] == b[i] {
      UniqueAt(h, c, d, Zeros(n) + r, Zeros(n) + s, i);
      Padded(n, r, i + 1);
      Padded(n, s, i + 1);
    }
  }

  lemma UniqueAt(h: Poly, c: Poly, d: Poly, x: Poly, y: Poly, i: nat)
    requires |c| == |d| == |h| - 1 == |x| - 1 == |y| - 1 && i < |c|
    requires Plus(Plus(h, [false] + c), x) == Plus(Plus(h, [false] + d), y)
    ensures (c[i] != x[i + 1]) == (d[i] != y[i + 1])
  {
    SameAt(Plus(h, [false] + c), x, Plus(h, [false] + d), y, i + 1);
  }

  /** The shift register: one bit enters at the top, and the divisor is taken away when a 1 leaves. */
  function Feed(g: Poly, r: Poly, b: bool): (s: Poly)
    requires |r| == |g| - 1 > 0
    ensures |s| == |r|
  {
    Plus(r[1..] + [false], Scale(r[0] != b, g[1..]))
  }

  function FeedAll(g: Poly, r: Poly, bits: Poly): (s: Poly)
    requires |r| == |g| - 1 > 0
    ensures |s| == |r|
    decreases |bits|
  {
    if bits == [] then r else FeedAll(g, Feed(g, r, bits[0]), bits[1..])
  }

  lemma {:induction false} FeedConcat(g: Poly, r: Poly, a: Poly, b: Poly)
    requires |r| == |g| - 1 > 0
    ensures FeedAll(g, r, a + b) == FeedAll(g, FeedAll(g, r, a), b)
    decreases |a|
  {
    if a == [] {
      assert a + b == b;
    } else {
      FeedConcat(g, Feed(g, r, a[0]), a[1..], b);
      assert (a + b)[1..] == a[1..] + b;
    }
  }

  /** Bits may enter the register all at once, ahead of the shifts. */
  lemma {:induction false} FeedAtOnce(g: Poly, r: Poly, v: Poly)
    requires |r| == |g| - 1 > 0 && |v| <= |r|
    ensures FeedAll(g, Plus(r, v + Zeros(|r| - |v|)), Zeros(|v|)) == FeedAll(g, r, v)
    decreases |v|
  {
    var all := Plus(r, v + Zeros(|r| - |v|));
    if v == [] {
      assert all == r;
    } else {
      var next := Feed(g, r, v[0]);
      FeedAtOnce(g, next, v[1..]);
      assert Zeros(|v|)[1..] == Zeros(|v| - 1);
      assert Feed(g, all, false) == Plus(next, v[1..] + Zeros(|r| - |v| + 1));
    }
  }

  /** A register fed a message holds the remainder of the message with its start value added at the top and zeros
      appended. */
  lemma {:induction false} FeedDivides(g: Poly, r: Poly, m: Poly) returns (q: Poly)
    requires |r| == |g| - 1 > 0 && g[0]
    ensures |q| == |m| && Plus(r + Zeros(|m|), m + Zeros(|r|)) == Plus(Times(q, g), Zeros(|m|) + FeedAll(g, r, m))
    decreases |m|
  {
    if m == [] {
      q := [];
      assert Plus(r + Zeros(0), m + Zeros(|r|)) == r;
      assert Plus(Times(q, g), Zeros(0) + r) == r;
    } else {
      var t, next := r[0] != m[0], Feed(g, r, m[0]);
      var rest := FeedDivides(g, next, m[1..]);
      q := [t] + rest;
      assert q[1..] == rest;
      DividesStep(g, r, m, rest);
    }
  }

  lemma FeedAt(g: Poly, r: Poly, b: bool, n: nat, i: nat)
    requires |r| == |g| - 1 > 0 && 0 < n && 0 < i < |r| + n
    ensures (Feed(g, r, b) + Zeros(n - 1))[i - 1] == ((r + Zeros(n))[i] != (Scale(r[0] != b, g) + Zeros(n - 1))[i])
  {
  }

  lemma PlusAt(p: Poly, q: Poly, i: nat)
    requires |p| == |q| && i < |p|
    ensures Plus(p, q)[i] == (p[i] != q[i])
  {
  }

  lemma Padded(n: nat, f: Poly, i: nat)
    requires 0 < n && 0 < i < n + |f|
    ensures (Zeros(n) + f)[i] == (Zeros(n - 1) + f)[i - 1]
  {
  }

  lemma TailPadded(m: Poly, n: nat, i: nat)
    requires m != [] && 0 < i < |m| + n
    ensures (m + Zeros(n))[i] == (m[1..] + Zeros(n))[i - 1]
  {
  }

  lemma DividesStep(g: Poly, r: Poly, m: Poly, rest: Poly)
    requires |r| == |g| - 1 > 0 && g[0] && m != [] && |rest| == |m| - 1
    requires var next := Feed(g, r, m[0]);
             Plus(next + Zeros(|m| - 1), m[1..] + Zeros(|r|)) == Plus(Times(rest, g), Zeros(|m| - 1) + FeedAll(g, next, m[1..]))
    ensures var q := [r[0] != m[0]] + rest;
            Plus(r + Zeros(|m|), m + Zeros(|r|)) == Plus(Times(q, g), Zeros(|m|) + FeedAll(g, r, m))
  {
    var q := [r[0] != m[0]] + rest;
    assert q[1..] == rest;
    var f := FeedAll(g, r, m);
    var a, b := Plus(r + Zeros(|m|), m + Zeros(|r|)), Plus(Times(q, g), Zeros(|m|) + f);
    forall i | 0 <= i < |a| ensures a[i] == b[i] {
      PlusAt(r + Zeros(|m|), m + Zeros(|r|), i);
      PlusAt(Times(q, g), Zeros(|m|) + f, i);
      TimesHead(q, g);
      if i > 0 { DividesAt(g, r, m, Times(rest, g), f, i); }
    }
  }

  lemma DividesAt(g: Poly, r: Poly, m: Poly, c: Poly, f: Poly, i: nat)
    requires |r| == |f| == |g| - 1 > 0 && m != [] && |c| == |m| - 1 + |r| && 0 < i < |m| + |r|
    requires Plus(Feed(g, r, m[0]) + Zeros(|m| - 1), m[1..] + Zeros(|r|)) == Plus(c, Zeros(|m| - 1) + f)
    ensures ((r + Zeros(|m|))[i] != (m + Zeros(|r|))[i])
            == (((Scale(r[0] != m[0], g) + Zeros(|m| - 1))[i] != c[i - 1]) != (Zeros(|m|) + f)[i])
  {
    hide *;
    FeedAt(g, r, m[0], |m|, i);
    TailPadded(m, |r|, i);
    Padded(|m|, f, i);
    SameAt(Feed(g, r, m[0]) + Zeros(|m| - 1), m[1..] + Zeros(|r|), c, Zeros(|m| - 1) + f, i - 1);
  }

  lemma SameAt(a: Poly, b: Poly, c: Poly, d: Poly, i: nat)
    requires |a| == |b| == |c| == |d| && i < |a| && Plus(a, b) == Plus(c, d)
    ensures (a[i] != b[i]) == (c[i] != d[i])
  {
    PlusAt(a, b, i);
    PlusAt(c, d, i);
  }
}
