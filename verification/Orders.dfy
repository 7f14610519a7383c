/** `strings.Compare`, and what makes it (and any comparator) a total order. */
module Orders {

  function Sign(a: int, b: int): (c: int)
    ensures c == -1 <==> a < b
    ensures c == 1 <==> a > b
  {
    if a < b then -1 else if a > b then 1 else 0
  }

  /** `strings.Compare`: the first difference decides, and a proper prefix comes first. */
  function Compare(a: string, b: string): int {
    if a == [] || b == [] then Sign(|a|, |b|)
    else if a[0] != b[0] then Sign(a[0] as int, b[0] as int)
    else Compare(a[1..], b[1..])
  }

  /** A comparator whose zero is equality and whose sign is a total order. */
  ghost predicate TotalOrder<T(!new)>(cmp: (T, T) -> int) {
    && (forall x, y :: cmp(x, y) == 0 <==> x == y)
    && (forall x, y :: cmp(x, y) == -cmp(y, x))
    && (forall x, y, z :: cmp(x, y) <= 0 && cmp(y, z) <= 0 ==> cmp(x, z) <= 0)
  }

  lemma {:induction false} CompareEqual(a: string, b: string)
    ensures Compare(a, b) == 0 <==> a == b
  {
    if a != [] && b != [] {
      CompareEqual(a[1..], b[1..]);
      assert a == [a[0]] + a[1..] && b == [b[0]] + b[1..];
    }
  }

  lemma {:induction false} CompareAntisymmetric(a: string, b: string)
    ensures Compare(a, b) == -Compare(b, a)
  {
    if a != [] && b != [] { CompareAntisymmetric(a[1..], b[1..]); }
  }

  lemma {:induction false} CompareTransitive(a: string, b: string, c: string)
    requires Compare(a, b) <= 0 && Compare(b, c) <= 0
    ensures Compare(a, c) <= 0
  {
    if a != [] && b != [] && c != [] && a[0] == b[0] && b[0] == c[0] { CompareTransitive(a[1..], b[1..], c[1..]); }
  }

  /** Two steps up the order, one of them strict, are a strict step up. */
  lemma StringsChain(x: string, y: string, z: string)
    requires Compare(x, y) <= 0 && Compare(y, z) <= 0
    ensures Compare(x, z) <= 0
    ensures Compare(x, z) == 0 <==> Compare(x, y) == 0 && Compare(y, z) == 0
  {
    CompareTransitive(x, y, z);
    CompareEqual(x, y);
    CompareEqual(y, z);
    CompareEqual(x, z);
    CompareAntisymmetric(x, y);
  }

  lemma CompareIsTotalOrder()
    ensures TotalOrder(Compare)
  {
    forall x, y ensures Compare(x, y) == 0 <==> x == y { CompareEqual(x, y); }
    forall x, y ensures Compare(x, y) == -Compare(y, x) { CompareAntisymmetric(x, y); }
    forall x, y, z | Compare(x, y) <= 0 && Compare(y, z) <= 0 ensures Compare(x, z) <= 0 { CompareTransitive(x, y, z); }
  }

  ghost predicate Ascending(s: seq<string>) { forall i, j :: 0 <= i < j < |s| ==> Compare(s[i], s[j]) < 0 }

  predicate IsLeast(k: string, s: set<string>) { k in s && forall o :: o in s ==> Compare(k, o) <= 0 }

  lemma LeastIsUnique(s: set<string>)
    ensures forall k, l :: IsLeast(k, s) && IsLeast(l, s) ==> k == l
  {
    forall k, l | IsLeast(k, s) && IsLeast(l, s) ensures k == l { LeastPair(k, l); }
  }

  lemma {:induction false} HasLeast(s: set<string>)
    requires s != {}
    ensures exists k :: IsLeast(k, s)
  {
    var x :| x in s;
    CompareEqual(x, x);
    var rest := s - {x};
    if rest == {} {
      assert s == {x};
      assert IsLeast(x, s);
    } else {
      HasLeast(rest);
      var k :| IsLeast(k, rest);
      CompareAntisymmetric(x, k);
      if Compare(x, k) <= 0 {
        forall o | o in s ensures Compare(x, o) <= 0 {
          if o != x { CompareTransitive(x, k, o); }
        }
        assert IsLeast(x, s);
      } else {
        assert IsLeast(k, s);
      }
    }
  }

  function Least(s: set<string>): (k: string)
    requires s != {}
    ensures IsLeast(k, s)
  {
    HasLeast(s);
    LeastIsUnique(s);
    var k :| IsLeast(k, s);
    k
  }

  /** The elements of a set of strings in ascending order. */
  function SortedSet(s: set<string>): (r: seq<string>)
    decreases |s|
  {
    if s == {} then [] else [Least(s)] + SortedSet(s - {Least(s)})
  }

  lemma {:induction false} SortedSetElements(s: set<string>)
    ensures forall k :: k in SortedSet(s) <==> k in s
    decreases |s|
  {
    if s != {} {
      SortedSetElements(s - {Least(s)});
    }
  }

  lemma {:induction false} SortedSetAscending(s: set<string>)
    ensures Ascending(SortedSet(s))
    decreases |s|
  {
    if s != {} {
      var k := Least(s);
      SortedSetAscending(s - {k});
      SortedSetElements(s - {k});
      AscendingCons(k, SortedSet(s - {k}), s);
    }
  }

  lemma AscendingCons(k: string, r: seq<string>, s: set<string>)
    requires Ascending(r) && IsLeast(k, s) && forall x :: x in r ==> x in s && x != k
    ensures Ascending([k] + r)
  {
    forall j | 0 <= j < |r| ensures Compare(k, r[j]) < 0 { LeastBelow(k, r[j], s); }
    AscendingPrepend(k, r);
  }

  lemma LeastBelow(k: string, x: string, s: set<string>)
    requires IsLeast(k, s) && x in s && x != k
    ensures Compare(k, x) < 0
  {
    CompareEqual(k, x);
  }

  lemma AscendingPrepend(k: string, r: seq<string>)
    requires Ascending(r) && forall j :: 0 <= j < |r| ==> Compare(k, r[j]) < 0
    ensures Ascending([k] + r)
  {
  }

  /** An ascending list is determined by its elements. */
  lemma {:induction false} AscendingUnique(a: seq<string>, b: seq<string>)
    requires Ascending(a) && Ascending(b)
    requires forall k :: k in a <==> k in b
    ensures a == b
  {
    assert a != [] ==> a[0] in b;
    assert b != [] ==> b[0] in a;
    if a != [] {
      FirstIsLeast(a, b[0]);
      FirstIsLeast(b, a[0]);
      LeastPair(a[0], b[0]);
      AscendingTail(a);
      AscendingTail(b);
      AscendingUnique(a[1..], b[1..]);
      assert a == [a[0]] + a[1..] && b == [b[0]] + b[1..];
    }
  }

  lemma LeastPair(x: string, y: string)
    requires Compare(x, y) <= 0 && Compare(y, x) <= 0
    ensures x == y
  {
    CompareAntisymmetric(x, y);
    CompareEqual(x, y);
  }

  lemma FirstIsLeast(a: seq<string>, k: string)
    requires Ascending(a) && k in a
    ensures Compare(a[0], k) <= 0
  {
    var i :| 0 <= i < |a| && a[i] == k;
    CompareEqual(k, k);
  }

  lemma AscendingTail(a: seq<string>)
    requires Ascending(a) && a != []
    ensures Ascending(a[1..])
    ensures forall k :: k in a[1..] <==> k in a && k != a[0]
  {
    CompareEqual(a[0], a[0]);
    forall k ensures k in a[1..] <==> k in a && k != a[0] {
      if k in a[1..] {
        var i :| 0 <= i < |a[1..]| && a[1..][i] == k;
        assert Compare(a[0], a[i + 1]) < 0;
      }
      assert a == [a[0]] + a[1..];
    }
  }

  // ---- Which order ----

  /** The first difference decides, and a proper prefix comes first. */
  ghost predicate Lexicographic<T>(x: seq<T>, y: seq<T>, below: (T, T) -> bool) {
    exists n: nat :: Differ(x, y, n, below)
  }

  /** The lists agree up to `n`, and there the first one ends or is below the second. */
  ghost predicate Differ<T>(x: seq<T>, y: seq<T>, n: nat, below: (T, T) -> bool) {
    && n <= |x| && n < |y| && x[..n] == y[..n] && (n == |x| || below(x[n], y[n]))
  }

  /** One element further in front. */
  lemma DifferCons<T>(x: seq<T>, y: seq<T>, n: nat, below: (T, T) -> bool)
    requires x != [] && y != [] && x[0] == y[0]
    ensures Differ(x, y, n + 1, below) <==> Differ(x[1..], y[1..], n, below)
  {
    if n < |x| && n + 1 < |y| {
      assert x[..n + 1] == [x[0]] + x[1..][..n] && y[..n + 1] == [y[0]] + y[1..][..n];
      assert x[..n + 1][1..] == x[1..][..n] && y[..n + 1][1..] == y[1..][..n];
    }
  }

  lemma LexicographicCons<T>(x: seq<T>, y: seq<T>, below: (T, T) -> bool)
    requires x != [] && y != []
    ensures x[0] == y[0] && !below(x[0], x[0]) ==> (Lexicographic(x, y, below) <==> Lexicographic(x[1..], y[1..], below))
    ensures x[0] != y[0] ==> (Lexicographic(x, y, below) <==> below(x[0], y[0]))
  {
    hide Differ;
    forall n: nat | x[0] == y[0] ensures Differ(x, y, n + 1, below) <==> Differ(x[1..], y[1..], n, below) { DifferCons(x, y, n, below); }
    DifferFirst(x, y, below);
    if n: nat :| Differ(x, y, n, below) {
      if x[0] == y[0] && !below(x[0], x[0]) { assert n > 0 && Differ(x[1..], y[1..], n - 1, below); }
    }
    if x[0] == y[0] {
      if n: nat :| Differ(x[1..], y[1..], n, below) { assert Differ(x, y, n + 1, below); }
    }
  }

  lemma DifferFirst<T>(x: seq<T>, y: seq<T>, below: (T, T) -> bool)
    requires x != [] && y != []
    ensures Differ(x, y, 0, below) <==> below(x[0], y[0])
    ensures forall n: nat :: n > 0 && Differ(x, y, n, below) ==> x[0] == y[0]
  {
    forall n: nat | n > 0 && Differ(x, y, n, below) ensures x[0] == y[0] { assert x[..n][0] == y[..n][0]; }
  }

  lemma LexicographicEnd<T>(x: seq<T>, y: seq<T>, below: (T, T) -> bool)
    requires x == [] || y == []
    ensures Lexicographic(x, y, below) <==> |x| < |y|
  {
    if x == [] && y != [] { assert Differ(x, y, 0, below); }
  }

  predicate CharBelow(a: char, b: char) { a < b }

  predicate StringBelow(a: string, b: string) { Compare(a, b) < 0 }

  /** `strings.Compare` is the lexicographic order of the code points. */
  lemma {:induction false} CompareIsLexicographic(a: string, b: string)
    ensures Compare(a, b) < 0 <==> Lexicographic(a, b, CharBelow)
  {
    hide Lexicographic;
    if a == [] || b == [] {
      LexicographicEnd(a, b, CharBelow);
    } else {
      LexicographicCons(a, b, CharBelow);
      if a[0] == b[0] { CompareIsLexicographic(a[1..], b[1..]); }
    }
  }
}
