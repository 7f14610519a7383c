/** The overlap check of the STORED extractor: the spans of local headers and payloads are sorted by where they start, and
    only neighbours are compared. */
module ZipSpans {
  import opened StableSort
  import opened Pairs

  /** The bytes from a local header up to the end of its payload. */
  datatype Span = Span(start: int, end: int)

  predicate Apart(a: Span, b: Span) { a.end <= b.start || b.end <= a.start }

  predicate InOrder(a: Span, b: Span) { a.end <= b.start }

  function ByStart(a: Span, b: Span): int { if a.start < b.start then -1 else if a.start == b.start then 0 else 1 }

  ghost predicate NonEmpty(s: seq<Span>) { forall i :: 0 <= i < |s| ==> s[i].start < s[i].end }

  /** No two spans share a byte, although only neighbours in sorted order are compared. */
  method SpansOverlap(ranges: seq<Span>) returns (overlap: bool)
    requires NonEmpty(ranges)
    ensures !overlap <==> Pairwise(ranges, Apart)
  {
    hide *;
    var sorted := Sort(ranges, ByStart);
    var i := 1;
    OrderedStart(sorted);
    while i < |sorted|
      invariant 1 <= i && Ordered(sorted, i) && (|sorted| <= 1 || i <= |sorted|)
    {
      if sorted[i].start < sorted[i - 1].end {
        NeighboursOverlap(ranges, i);
        return true;
      }
      NextInOrder(ranges, i);
      i := i + 1;
    }
    AllInOrder(ranges, i);
    return false;
  }

  /** The first `i` spans follow each other. */
  ghost predicate Ordered(s: seq<Span>, i: nat) { i <= |s| ==> Pairwise(s[..i], InOrder) }

  lemma OrderedStart(s: seq<Span>)
    ensures Ordered(s, 1)
  {
  }

  lemma NextInOrder(ranges: seq<Span>, i: nat)
    requires NonEmpty(ranges) && var s := Sort(ranges, ByStart); 1 <= i < |s| && Ordered(s, i) && s[i - 1].end <= s[i].start
    ensures Ordered(Sort(ranges, ByStart), i + 1)
  {
    SortFacts(ranges);
    var s := Sort(ranges, ByStart);
    assert s[..i + 1] == s[..i] + [s[i]];
    forall k | 0 <= k < i ensures InOrder(s[..i][k], s[i]) {
      if k < i - 1 { assert InOrder(s[..i][k], s[..i][i - 1]); }
    }
    PairwiseSnoc(s[..i], s[i], InOrder);
  }

  lemma NeighboursOverlap(ranges: seq<Span>, i: nat)
    requires NonEmpty(ranges) && var s := Sort(ranges, ByStart); 1 <= i < |s| && s[i].start < s[i - 1].end
    ensures !Pairwise(ranges, Apart)
  {
    SortFacts(ranges);
    var s := Sort(ranges, ByStart);
    assert ByStart(s[i - 1], s[i]) <= 0 && !Apart(s[i - 1], s[i]);
    if Pairwise(ranges, Apart) { PairwisePermutes(ranges, s, Apart); }
  }

  lemma AllInOrder(ranges: seq<Span>, i: nat)
    requires NonEmpty(ranges) && var s := Sort(ranges, ByStart); 1 <= i && |s| <= i && Ordered(s, i)
    requires |Sort(ranges, ByStart)| <= 1 || i == |Sort(ranges, ByStart)|
    ensures Pairwise(ranges, Apart)
  {
    SortFacts(ranges);
    var s := Sort(ranges, ByStart);
    if |s| > 1 {
      assert s[..|s|] == s && Pairwise(s, InOrder);
      forall i, j | 0 <= i < j < |s| ensures Apart(s[i], s[j]) { assert InOrder(s[i], s[j]); }
    }
    PairwisePermutes(s, ranges, Apart);
  }

  lemma SortFacts(ranges: seq<Span>)
    requires NonEmpty(ranges)
    ensures var s := Sort(ranges, ByStart);
            multiset(s) == multiset(ranges) && Sorted(s, ByStart) && NonEmpty(s) && Symmetric(Apart)
  {
    SortPermutes(ranges, ByStart);
    SortSorted(ranges, ByStart);
    var s := Sort(ranges, ByStart);
    MultisetMember(s, ranges);
    forall i | 0 <= i < |s| ensures s[i].start < s[i].end { assert s[i] in ranges; }
  }

  // ---- What disjoint spans cannot exceed ----

  function Length(s: seq<Span>): int { if s == [] then 0 else s[0].end - s[0].start + Length(s[1..]) }

  lemma {:induction false} InsertLength(x: Span, s: seq<Span>)
    ensures Length(Insert(x, s, ByStart)) == x.end - x.start + Length(s)
  {
    if s != [] && ByStart(x, s[0]) > 0 {
      InsertLength(x, s[1..]);
    } else {
      assert ([x] + s)[1..] == s;
    }
  }

  lemma {:induction false} SortLength(s: seq<Span>)
    ensures Length(Sort(s, ByStart)) == Length(s)
  {
    if s != [] {
      SortLength(s[1..]);
      InsertLength(s[0], Sort(s[1..], ByStart));
    }
  }

  lemma {:induction false} OrderedFit(s: seq<Span>, lo: int, hi: int)
    requires lo <= hi && NonEmpty(s) && Pairwise(s, InOrder) && forall i :: 0 <= i < |s| ==> lo <= s[i].start && s[i].end <= hi
    ensures Length(s) <= hi - lo
  {
    if s != [] {
      var r := s[1..];
      forall i, j | 0 <= i < j < |r| ensures InOrder(r[i], r[j]) { assert InOrder(s[i + 1], s[j + 1]); }
      forall i | 0 <= i < |r| ensures s[0].end <= r[i].start { assert InOrder(s[0], s[i + 1]); }
      OrderedFit(r, s[0].end, hi);
    }
  }

  /** Disjoint spans inside a region are together no longer than the region, in whatever order they are listed. */
  lemma ApartFit(s: seq<Span>, lo: int, hi: int)
    requires lo <= hi && NonEmpty(s) && Pairwise(s, Apart) && forall i :: 0 <= i < |s| ==> lo <= s[i].start && s[i].end <= hi
    ensures Length(s) <= hi - lo
  {
    SortFacts(s);
    var t := Sort(s, ByStart);
    MultisetMember(s, t);
    PairwisePermutes(s, t, Apart);
    forall i, j | 0 <= i < j < |t| ensures InOrder(t[i], t[j]) { assert ByStart(t[i], t[j]) <= 0 && Apart(t[i], t[j]); }
    forall i | 0 <= i < |t| ensures lo <= t[i].start && t[i].end <= hi { assert t[i] in s; }
    OrderedFit(t, lo, hi);
    SortLength(s);
  }
}
