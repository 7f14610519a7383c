/** The NFC normaliser behind ZIP entry names: canonical decomposition, canonical ordering and canonical composition
    (sections 3.11 and 3.12 of the Unicode Standard). The generated tables are a parameter; `Tables` states the facts
    about them that the results need. Text is a sequence of code points. */
module ZipName {
  import opened Wrappers
  import opened NormalForms

  const HANGUL_S_BASE := 0xAC00
  const HANGUL_L_BASE := 0x1100
  const HANGUL_V_BASE := 0x1161
  const HANGUL_T_BASE := 0x11A7
  const HANGUL_L_COUNT := 19
  const HANGUL_V_COUNT := 21
  const HANGUL_T_COUNT := 28
  const HANGUL_N_COUNT := HANGUL_V_COUNT * HANGUL_T_COUNT
  const HANGUL_S_COUNT := HANGUL_L_COUNT * HANGUL_N_COUNT

  datatype Decomp = Decomp(cp: int, a: int, b: int)
  datatype Composite = Composite(a: int, b: int, cp: int)
  datatype CccRange = CccRange(lo: int, hi: int, combining: nat)
  {
    predicate Holds(r: int) { lo <= r <= hi }
  }

  /** The three tables. `depth` is the certificate that decomposition ends: it bounds how many rows a code point can
      unfold through. The code itself never reads it. */
  datatype RawTables = RawTables(decomp: seq<Decomp>, compose: seq<Composite>, ccc: seq<CccRange>, depth: map<int, nat>)
  {
    function Depth(r: int): nat { if r in depth then depth[r] else 0 }

    ghost predicate Ok() {
      && DecompOk() && ComposeOk() && CccOk()
    }

    /** Sorted for the binary search, well-founded, and without a row for a Hangul syllable or conjoining jamo. */
    ghost predicate DecompOk() {
      && (forall i, j :: 0 <= i < j < |decomp| ==> decomp[i].cp < decomp[j].cp)
      && (forall i :: 0 <= i < |decomp| ==>
            && Depth(decomp[i].a) < Depth(decomp[i].cp)
            && (decomp[i].b != 0 ==> Depth(decomp[i].b) < Depth(decomp[i].cp))
            && !IsSyllable(decomp[i].cp) && !IsJamo(decomp[i].cp))
    }

    /** Sorted by pair, and every row inverts a decomposition row. */
    ghost predicate ComposeOk() {
      && (forall i, j :: 0 <= i < j < |compose| ==> PairBelow(compose[i], compose[j].a, compose[j].b))
      && (forall i :: 0 <= i < |compose| ==>
            compose[i].b != 0 && Decomp(compose[i].cp, compose[i].a, compose[i].b) in decomp)
    }

    /** Only starters begin a composite, and a composite is a starter; no Hangul syllable or jamo is a mark. */
    ghost predicate StartersCompose() {
      && (forall i, j :: 0 <= i < |compose| && 0 <= j < |ccc| ==> !ccc[j].Holds(compose[i].a) && !ccc[j].Holds(compose[i].cp))
      && (forall j, r :: 0 <= j < |ccc| && (IsSyllable(r) || IsJamo(r)) ==> !ccc[j].Holds(r))
    }

    ghost predicate CccOk() {
      && (forall i :: 0 <= i < |ccc| ==> ccc[i].lo <= ccc[i].hi && ccc[i].combining < 256)
      && (forall i, j :: 0 <= i < j < |ccc| ==> ccc[i].hi < ccc[j].lo)
    }
  }

  type Tables = t: RawTables | t.Ok() witness RawTables([], [], [], map[])

  predicate IsSyllable(r: int) { HANGUL_S_BASE <= r < HANGUL_S_BASE + HANGUL_S_COUNT }

  predicate IsJamo(r: int) {
    || HANGUL_L_BASE <= r < HANGUL_L_BASE + HANGUL_L_COUNT
    || HANGUL_V_BASE <= r < HANGUL_V_BASE + HANGUL_V_COUNT
    || HANGUL_T_BASE < r < HANGUL_T_BASE + HANGUL_T_COUNT
  }

  predicate PairBelow(c: Composite, a: int, b: int) { c.a < a || (c.a == a && c.b < b) }

  /** `sort.Search`: the smallest index in [lo, hi) from which `f` holds, by bisection. */
  function Search(lo: nat, hi: nat, f: nat -> bool): (i: nat)
    requires lo <= hi
    requires forall j, k :: lo <= j <= k < hi && f(j) ==> f(k)
    ensures lo <= i <= hi
    ensures forall j :: lo <= j < i ==> !f(j)
    ensures i < hi ==> f(i)
    decreases hi - lo
  {
    if lo == hi then lo
    else
      var h := (lo + hi) / 2;
      if !f(h) then Search(h + 1, hi, f) else Search(lo, h, f)
  }

  /** The decomposition row of a code point, if it has one. */
  function FindDecomp(t: Tables, r: int): (d: Option<Decomp>)
    ensures d.None? ==> forall i :: 0 <= i < |t.decomp| ==> t.decomp[i].cp != r
    ensures d.Some? ==> d.value in t.decomp && d.value.cp == r
  {
    var reached := (i: nat) => i < |t.decomp| && t.decomp[i].cp >= r;
    var i := Search(0, |t.decomp|, reached);
    assert forall j :: 0 <= j < i ==> t.decomp[j].cp < r by {
      forall j: nat | j < i ensures t.decomp[j].cp < r { assert !reached(j); }
    }
    if i == |t.decomp| || t.decomp[i].cp != r then None else Some(t.decomp[i])
  }

  /** The canonical combining class: that of the range holding `r`, 0 outside every range. */
  function Ccc(t: Tables, r: int): (c: nat)
    ensures c < 256
    ensures forall i :: 0 <= i < |t.ccc| && t.ccc[i].lo <= r <= t.ccc[i].hi ==> c == t.ccc[i].combining
    ensures c != 0 ==> exists i :: 0 <= i < |t.ccc| && t.ccc[i].lo <= r <= t.ccc[i].hi
  {
    var reached := (i: nat) => i < |t.ccc| && t.ccc[i].hi >= r;
    var i := Search(0, |t.ccc|, reached);
    assert forall j :: 0 <= j < i ==> t.ccc[j].hi < r by {
      forall j: nat | j < i ensures t.ccc[j].hi < r { assert !reached(j); }
    }
    if i < |t.ccc| && t.ccc[i].lo <= r then t.ccc[i].combining else 0
  }

  /** The full canonical decomposition of one code point. */
  function Decompose(t: Tables, r: int): seq<int>
    decreases t.Depth(r)
  {
    if IsSyllable(r) then
      var s := r - HANGUL_S_BASE;
      var lv := [HANGUL_L_BASE + s / HANGUL_N_COUNT, HANGUL_V_BASE + (s % HANGUL_N_COUNT) / HANGUL_T_COUNT];
      if s % HANGUL_T_COUNT != 0 then lv + [HANGUL_T_BASE + s % HANGUL_T_COUNT] else lv
    else
      match FindDecomp(t, r)
      case None => [r]
      case Some(d) => Decompose(t, d.a) + (if d.b != 0 then Decompose(t, d.b) else [])
  }

  function PairCompose(t: Tables, a: int, b: int): Option<int> {
    if HANGUL_L_BASE <= a < HANGUL_L_BASE + HANGUL_L_COUNT && HANGUL_V_BASE <= b < HANGUL_V_BASE + HANGUL_V_COUNT then
      Some(HANGUL_S_BASE + ((a - HANGUL_L_BASE) * HANGUL_V_COUNT + (b - HANGUL_V_BASE)) * HANGUL_T_COUNT)
    else if IsSyllable(a) && (a - HANGUL_S_BASE) % HANGUL_T_COUNT == 0 && HANGUL_T_BASE < b < HANGUL_T_BASE + HANGUL_T_COUNT then
      Some(a + (b - HANGUL_T_BASE))
    else
      var i := Search(0, |t.compose|, (i: nat) => i < |t.compose| && !PairBelow(t.compose[i], a, b));
      if i < |t.compose| && t.compose[i].a == a && t.compose[i].b == b then Some(t.compose[i].cp) else None
  }

  // ---- Decomposition ----

  /** A code point that decomposition leaves alone. */
  ghost predicate Leaf(t: Tables, r: int) { !IsSyllable(r) && FindDecomp(t, r).None? }

  ghost predicate AllLeaf(t: Tables, s: seq<int>) { forall i :: 0 <= i < |s| ==> Leaf(t, s[i]) }

  lemma JamoIsLeaf(t: Tables, r: int)
    requires IsJamo(r)
    ensures Leaf(t, r)
  {
    NoRow(t, r);
  }

  lemma NoRow(t: Tables, r: int)
    requires forall i :: 0 <= i < |t.decomp| ==> t.decomp[i].cp != r
    ensures FindDecomp(t, r).None?
  {
  }

  lemma NoRowIsLeaf(t: Tables, r: int)
    requires !IsSyllable(r) && FindDecomp(t, r).None?
    ensures Leaf(t, r)
  {
  }

  lemma SyllableParts(s: int)
    requires 0 <= s < HANGUL_S_COUNT
    ensures 0 <= s / HANGUL_N_COUNT < HANGUL_L_COUNT && 0 <= (s % HANGUL_N_COUNT) / HANGUL_T_COUNT < HANGUL_V_COUNT
    ensures 0 <= s % HANGUL_T_COUNT < HANGUL_T_COUNT
  {
  }

  lemma SyllableIsFull(t: Tables, r: int)
    requires IsSyllable(r)
    ensures AllLeaf(t, Decompose(t, r))
  {
    hide Leaf;
    var s := r - HANGUL_S_BASE;
    SyllableParts(s);
    JamoIsLeaf(t, HANGUL_L_BASE + s / HANGUL_N_COUNT);
    JamoIsLeaf(t, HANGUL_V_BASE + (s % HANGUL_N_COUNT) / HANGUL_T_COUNT);
    if s % HANGUL_T_COUNT != 0 { JamoIsLeaf(t, HANGUL_T_BASE + s % HANGUL_T_COUNT); }
  }

  /** Decomposition is full: nothing in its result decomposes further. */
  lemma {:induction false} DecomposeIsFull(t: Tables, r: int)
    ensures AllLeaf(t, Decompose(t, r))
    decreases t.Depth(r)
  {
    hide Leaf;
    if IsSyllable(r) {
      SyllableIsFull(t, r);
    } else {
      match FindDecomp(t, r)
      case None => NoRowIsLeaf(t, r);
      case Some(d) =>
        DecomposeIsFull(t, d.a);
        if d.b != 0 { DecomposeIsFull(t, d.b); }
    }
  }

  /** Whatever pair composes to `c`, `c` decomposes to what the pair decomposes to. */
  lemma PairComposeInverts(t: Tables, a: int, b: int)
    requires PairCompose(t, a, b).Some?
    ensures Decompose(t, PairCompose(t, a, b).value) == Decompose(t, a) + Decompose(t, b)
  {
    PairCases(t, a, b);
    hide *;
    var c := PairCompose(t, a, b).value;
    if Composite(a, b, c) in t.compose {
      RowInverts(t, c, a, b);
    } else if LeadPair(a, b) && c == LeadSyllable(a, b) {
      LeadVowelInverts(t, a, b);
    } else {
      TrailInverts(t, a, b);
    }
  }

  predicate LeadPair(a: int, b: int) {
    HANGUL_L_BASE <= a < HANGUL_L_BASE + HANGUL_L_COUNT && HANGUL_V_BASE <= b < HANGUL_V_BASE + HANGUL_V_COUNT
  }

  predicate TrailPair(a: int, b: int) {
    IsSyllable(a) && (a - HANGUL_S_BASE) % HANGUL_T_COUNT == 0 && HANGUL_T_BASE < b < HANGUL_T_BASE + HANGUL_T_COUNT
  }

  function LeadSyllable(a: int, b: int): int {
    HANGUL_S_BASE + ((a - HANGUL_L_BASE) * HANGUL_V_COUNT + (b - HANGUL_V_BASE)) * HANGUL_T_COUNT
  }

  /** The three ways a pair composes: a lead and a vowel, a syllable and its trail, or a row of the table. */
  lemma PairCases(t: Tables, a: int, b: int)
    requires PairCompose(t, a, b).Some?
    ensures var c := PairCompose(t, a, b).value;
            || (LeadPair(a, b) && IsJamo(a) && !IsSyllable(a) && IsSyllable(c) && c == LeadSyllable(a, b))
            || (TrailPair(a, b) && !IsJamo(a) && IsSyllable(c) && c == a + (b - HANGUL_T_BASE))
            || Composite(a, b, c) in t.compose
  {
    if LeadPair(a, b) { LeadVowel(a - HANGUL_L_BASE, b - HANGUL_V_BASE); }
    if TrailPair(a, b) { SyllableTrail(a - HANGUL_S_BASE, b - HANGUL_T_BASE); }
  }

  lemma LeadVowelInverts(t: Tables, a: int, b: int)
    requires LeadPair(a, b)
    ensures Decompose(t, LeadSyllable(a, b)) == Decompose(t, a) + Decompose(t, b)
  {
    JamoIsLeaf(t, a);
    JamoIsLeaf(t, b);
    LeadVowel(a - HANGUL_L_BASE, b - HANGUL_V_BASE);
  }

  lemma TrailInverts(t: Tables, a: int, b: int)
    requires TrailPair(a, b)
    ensures Decompose(t, a + (b - HANGUL_T_BASE)) == Decompose(t, a) + Decompose(t, b)
  {
    JamoIsLeaf(t, b);
    SyllableTrail(a - HANGUL_S_BASE, b - HANGUL_T_BASE);
  }

  lemma LeadVowel(l: int, v: int)
    requires 0 <= l < HANGUL_L_COUNT && 0 <= v < HANGUL_V_COUNT
    ensures var s := (l * HANGUL_V_COUNT + v) * HANGUL_T_COUNT;
            && 0 <= s < HANGUL_S_COUNT && s / HANGUL_N_COUNT == l
            && (s % HANGUL_N_COUNT) / HANGUL_T_COUNT == v && s % HANGUL_T_COUNT == 0
  {
  }

  lemma SyllableTrail(s: int, tr: int)
    requires 0 <= s < HANGUL_S_COUNT && s % HANGUL_T_COUNT == 0 && 0 < tr < HANGUL_T_COUNT
    ensures var u := s + tr;
            && u < HANGUL_S_COUNT && u / HANGUL_N_COUNT == s / HANGUL_N_COUNT
            && (u % HANGUL_N_COUNT) / HANGUL_T_COUNT == (s % HANGUL_N_COUNT) / HANGUL_T_COUNT && u % HANGUL_T_COUNT == tr
  {
    var q, v := s / HANGUL_N_COUNT, s / HANGUL_T_COUNT - HANGUL_V_COUNT * (s / HANGUL_N_COUNT);
    assert s == HANGUL_N_COUNT * q + HANGUL_T_COUNT * v && 0 <= v < HANGUL_V_COUNT;
    Quotient(q, HANGUL_T_COUNT * v, HANGUL_N_COUNT);
    Quotient(q, HANGUL_T_COUNT * v + tr, HANGUL_N_COUNT);
    Quotient(v, 0, HANGUL_T_COUNT);
    Quotient(v, tr, HANGUL_T_COUNT);
    Quotient(HANGUL_V_COUNT * q + v, tr, HANGUL_T_COUNT);
  }

  lemma Quotient(q: int, r: int, n: int)
    requires 0 <= r < n && n in {HANGUL_N_COUNT, HANGUL_T_COUNT}
    ensures (n * q + r) / n == q && (n * q + r) % n == r
  {
  }

  lemma RowInverts(t: Tables, c: int, a: int, b: int)
    requires Composite(a, b, c) in t.compose
    ensures Decompose(t, c) == Decompose(t, a) + Decompose(t, b)
  {
    var i :| 0 <= i < |t.compose| && t.compose[i] == Composite(a, b, c);
    var k :| 0 <= k < |t.decomp| && t.decomp[k] == Decomp(c, a, b);
    assert FindDecomp(t, c) == Some(Decomp(c, a, b));
  }

  // ---- The tables as a normalisation scheme ----

  function SchemeOf(t: Tables): Scheme {
    Scheme(r => Ccc(t, r), r => Decompose(t, r), (a, b) => PairCompose(t, a, b))
  }

  lemma TablesLawful(t: Tables)
    ensures SchemeOf(t).Lawful()
  {
    var u := SchemeOf(t);
    forall r, x {:trigger x in u.dec(r)} | x in u.dec(r) ensures u.dec(x) == [x] { DecomposeIsFull(t, r); }
    forall a, b | u.pair(a, b).Some? ensures u.dec(u.pair(a, b).value) == u.dec(a) + u.dec(b) { PairComposeInverts(t, a, b); }
  }

  lemma ComposeSearch(t: Tables, c: Composite)
    requires c in t.compose && !LeadPair(c.a, c.b) && !TrailPair(c.a, c.b)
    ensures PairCompose(t, c.a, c.b) == Some(c.cp)
  {
    var k :| 0 <= k < |t.compose| && t.compose[k] == c;
    var reached := (i: nat) => i < |t.compose| && !PairBelow(t.compose[i], c.a, c.b);
    assert reached(k) && forall j :: 0 <= j < k ==> !reached(j);
    assert Search(0, |t.compose|, reached) == k;
  }

  /** A pair that composes begins with a starter and gives one. */
  lemma StartersCompose(t: Tables, a: int, b: int)
    requires t.StartersCompose() && PairCompose(t, a, b).Some?
    ensures Ccc(t, a) == 0 && Ccc(t, PairCompose(t, a, b).value) == 0
  {
    PairCases(t, a, b);
    var c := PairCompose(t, a, b).value;
    hide PairCompose, IsSyllable, IsJamo;
    assert forall j :: 0 <= j < |t.ccc| ==> !t.ccc[j].Holds(a) && !t.ccc[j].Holds(c);
  }

  /** The normaliser composes exactly as the standard defines it. */
  lemma ZipNfcComposesByDefinition(t: Tables, s: seq<int>)
    requires t.StartersCompose()
    ensures var u := SchemeOf(t); Nfc(u, s) == ComposedByDefinition(u, [], Nfd(u, s))
  {
    var u := SchemeOf(t);
    TablesLawful(t);
    forall a, b | u.pair(a, b).Some? ensures u.ccc(a) == 0 && u.ccc(u.pair(a, b).value) == 0 { StartersCompose(t, a, b); }
    NfcComposesByDefinition(u, s);
  }

  /** The normaliser keeps the canonical decomposition of the text and is idempotent. */
  lemma ZipNfcIsCanonical(t: Tables, s: seq<int>)
    ensures Nfd(SchemeOf(t), Nfc(SchemeOf(t), s)) == Nfd(SchemeOf(t), s)
    ensures Nfc(SchemeOf(t), Nfc(SchemeOf(t), s)) == Nfc(SchemeOf(t), s)
  {
    TablesLawful(t);
    NfcPreservesEquivalence(SchemeOf(t), s);
  }

  /** Of all the spellings of a name that are canonically equivalent, exactly one passes the entry-path test
      `zipNFC(name) == name`. */
  lemma OneSpellingPerName(t: Tables, s: seq<int>)
    ensures var u := SchemeOf(t);
            forall v :: Nfd(u, v) == Nfd(u, s) ==> (Nfc(u, v) == v <==> v == Nfc(u, s))
  {
    var u := SchemeOf(t);
    ZipNfcIsCanonical(t, s);
  }

  // ---- Canonical equivalence ----

  /** What a Hangul syllable maps to: a lead and a vowel, or the syllable without its trail and the trail. */
  ghost predicate HangulMaps(r: int, a: int, b: int) {
    || (LeadPair(a, b) && r == LeadSyllable(a, b))
    || (TrailPair(a, b) && r == a + (b - HANGUL_T_BASE))
  }

  function RowMapping(d: Decomp): seq<int> { if d.b != 0 then [d.a, d.b] else [d.a] }

  /** The canonical mappings: every row of the table, of one part or of two, and those of the syllables. */
  ghost predicate Maps(t: Tables, r: int, m: seq<int>) {
    || (exists d :: d in t.decomp && d.cp == r && m == RowMapping(d))
    || (|m| == 2 && HangulMaps(r, m[0], m[1]))
  }

  ghost predicate Unmapped(t: Tables, r: int) { forall m :: !Maps(t, r, m) }

  /** One code point replaced by its mapping, anywhere in a text. */
  ghost predicate Replaces(t: Tables, s: seq<int>, v: seq<int>) {
    exists p, r, m, q :: Maps(t, r, m) && s == p + [r] + q && v == p + m + q
  }

  /** Two neighbouring marks put in the order of their classes. */
  ghost predicate Exchanges(t: Tables, s: seq<int>, v: seq<int>) {
    exists p, a, b, q ::
      && Unmapped(t, a) && Unmapped(t, b) && Ccc(t, a) > Ccc(t, b) > 0
      && s == p + [a, b] + q && v == p + [b, a] + q
  }

  ghost predicate Step(t: Tables, s: seq<int>, v: seq<int>) { Replaces(t, s, v) || Exchanges(t, s, v) }

  ghost predicate Chain(t: Tables, c: seq<seq<int>>) {
    c != [] && forall i, j :: 0 <= i && j == i + 1 < |c| ==> Step(t, c[i], c[j]) || Step(t, c[j], c[i])
  }

  /** Canonical equivalence: steps forwards and backwards lead from one text to the other. */
  ghost predicate Equivalent(t: Tables, s: seq<int>, v: seq<int>) {
    exists c :: Chain(t, c) && c[0] == s && c[|c| - 1] == v
  }

  lemma RowIsFound(t: Tables, d: Decomp)
    requires d in t.decomp
    ensures FindDecomp(t, d.cp) == Some(d) && !IsSyllable(d.cp)
  {
    var k :| 0 <= k < |t.decomp| && t.decomp[k] == d;
  }

  lemma SyllableMaps(r: int) returns (a: int, b: int)
    requires IsSyllable(r)
    ensures HangulMaps(r, a, b)
  {
    var s := r - HANGUL_S_BASE;
    SyllableParts(s);
    if s % HANGUL_T_COUNT == 0 {
      a, b := HANGUL_L_BASE + s / HANGUL_N_COUNT, HANGUL_V_BASE + (s % HANGUL_N_COUNT) / HANGUL_T_COUNT;
      WholeSyllable(s);
    } else {
      a, b := r - s % HANGUL_T_COUNT, HANGUL_T_BASE + s % HANGUL_T_COUNT;
    }
  }

  lemma WholeSyllable(s: int)
    requires 0 <= s < HANGUL_S_COUNT && s % HANGUL_T_COUNT == 0
    ensures (s / HANGUL_N_COUNT * HANGUL_V_COUNT + (s % HANGUL_N_COUNT) / HANGUL_T_COUNT) * HANGUL_T_COUNT == s
  {
  }

  /** A code point has no mapping exactly when decomposition leaves it alone. */
  lemma UnmappedIsLeaf(t: Tables, r: int)
    ensures Unmapped(t, r) <==> Leaf(t, r)
  {
    if IsSyllable(r) {
      var a, b := SyllableMaps(r);
      assert Maps(t, r, [a, b]);
    } else if FindDecomp(t, r).Some? {
      assert Maps(t, r, RowMapping(FindDecomp(t, r).value));
    } else {
      forall m ensures !Maps(t, r, m) {
        if Maps(t, r, m) { MapsDecompose(t, r, m); }
      }
    }
  }

  lemma RowDecomposes(t: Tables, d: Decomp)
    requires d in t.decomp
    ensures Decompose(t, d.cp) == DecomposeAll(SchemeOf(t), RowMapping(d)) && FindDecomp(t, d.cp).Some?
  {
    RowIsFound(t, d);
    if d.b != 0 { DecomposeTwo(SchemeOf(t), d.a, d.b); } else { DecomposeOne(SchemeOf(t), d.a); }
    hide DecomposeAll, IsSyllable;
    assert Decompose(t, d.a) + [] == Decompose(t, d.a);
  }

  lemma HangulDecomposes(t: Tables, r: int, a: int, b: int)
    requires HangulMaps(r, a, b)
    ensures Decompose(t, r) == DecomposeAll(SchemeOf(t), [a, b]) && IsSyllable(r)
  {
    DecomposeTwo(SchemeOf(t), a, b);
    hide DecomposeAll, Decompose;
    if LeadPair(a, b) && r == LeadSyllable(a, b) {
      LeadVowelInverts(t, a, b);
      LeadVowel(a - HANGUL_L_BASE, b - HANGUL_V_BASE);
    } else {
      TrailInverts(t, a, b);
      SyllableTrail(a - HANGUL_S_BASE, b - HANGUL_T_BASE);
    }
  }

  /** A code point with a mapping decomposes to what its mapping decomposes to. */
  lemma MapsDecompose(t: Tables, r: int, m: seq<int>)
    requires Maps(t, r, m)
    ensures Decompose(t, r) == DecomposeAll(SchemeOf(t), m)
    ensures IsSyllable(r) || FindDecomp(t, r).Some?
  {
    hide Decompose, DecomposeAll, SchemeOf, RowMapping, HangulMaps, IsSyllable, FindDecomp;
    if d :| d in t.decomp && d.cp == r && m == RowMapping(d) {
      RowDecomposes(t, d);
    } else {
      HangulDecomposes(t, r, m[0], m[1]);
      assert m == [m[0], m[1]];
    }
  }

  lemma DecomposeOne(u: Scheme, a: int)
    ensures DecomposeAll(u, [a]) == u.dec(a)
  {
    assert DecomposeAll(u, [a][1..]) == [];
  }

  lemma DecomposeTwo(u: Scheme, a: int, b: int)
    ensures DecomposeAll(u, [a, b]) == u.dec(a) + u.dec(b)
  {
    assert [a, b][1..] == [b];
    DecomposeOne(u, b);
  }

  lemma ReplaceKeepsNfd(t: Tables, p: seq<int>, r: int, m: seq<int>, q: seq<int>)
    requires Maps(t, r, m)
    ensures Nfd(SchemeOf(t), p + [r] + q) == Nfd(SchemeOf(t), p + m + q)
  {
    MapsDecompose(t, r, m);
    hide Maps, Decompose, Reorder;
    var u := SchemeOf(t);
    DecomposeSplit(u, p, r, q);
    DecomposeAllConcat(u, p + m, q);
    DecomposeAllConcat(u, p, m);
  }

  lemma ExchangeKeepsNfd(t: Tables, p: seq<int>, a: int, b: int, q: seq<int>)
    requires Unmapped(t, a) && Unmapped(t, b) && Ccc(t, a) > Ccc(t, b) > 0
    ensures Nfd(SchemeOf(t), p + [a, b] + q) == Nfd(SchemeOf(t), p + [b, a] + q)
  {
    UnmappedIsLeaf(t, a);
    UnmappedIsLeaf(t, b);
    LeafStays(t, a);
    LeafStays(t, b);
    hide Unmapped, Leaf, Decompose, Ccc, Reorder;
    var u := SchemeOf(t);
    LeafPair(u, p, a, b, q);
    LeafPair(u, p, b, a, q);
    ReorderSwap(u, DecomposeAll(u, p), a, b, DecomposeAll(u, q));
  }

  /** No step changes the canonical decomposition of the whole text. */
  lemma StepKeepsNfd(t: Tables, s: seq<int>, v: seq<int>)
    requires Step(t, s, v)
    ensures Nfd(SchemeOf(t), s) == Nfd(SchemeOf(t), v)
  {
    hide Maps, Unmapped, Ccc, Nfd, SchemeOf;
    if Replaces(t, s, v) {
      var p, r, m, q :| Maps(t, r, m) && s == p + [r] + q && v == p + m + q;
      ReplaceKeepsNfd(t, p, r, m, q);
    } else {
      var p, a, b, q :|
        && Unmapped(t, a) && Unmapped(t, b) && Ccc(t, a) > Ccc(t, b) > 0
        && s == p + [a, b] + q && v == p + [b, a] + q;
      ExchangeKeepsNfd(t, p, a, b, q);
    }
  }

  lemma LeafPair(u: Scheme, p: seq<int>, a: int, b: int, q: seq<int>)
    requires u.Leaf(a) && u.Leaf(b)
    ensures DecomposeAll(u, p + [a, b] + q) == DecomposeAll(u, p) + ([a] + ([b] + DecomposeAll(u, q)))
  {
    DecomposeAllConcat(u, p + [a, b], q);
    DecomposeAllConcat(u, p, [a, b]);
    DecomposeTwo(u, a, b);
  }

  lemma {:induction false} ChainKeepsNfd(t: Tables, c: seq<seq<int>>)
    requires Chain(t, c)
    ensures Nfd(SchemeOf(t), c[0]) == Nfd(SchemeOf(t), c[|c| - 1])
  {
    hide Step, SchemeOf, Nfd;
    if |c| > 1 {
      assert Step(t, c[0], c[1]) || Step(t, c[1], c[0]);
      if Step(t, c[0], c[1]) { StepKeepsNfd(t, c[0], c[1]); } else { StepKeepsNfd(t, c[1], c[0]); }
      ChainTail(t, c);
      ChainKeepsNfd(t, c[1..]);
    }
  }

  lemma ChainTail(t: Tables, c: seq<seq<int>>)
    requires Chain(t, c) && |c| > 1
    ensures Chain(t, c[1..])
  {
    hide Step;
    var d := c[1..];
    forall i, j | 0 <= i && j == i + 1 < |d| ensures Step(t, d[i], d[j]) || Step(t, d[j], d[i]) {
      assert d[i] == c[j] && d[j] == c[j + 1];
    }
  }

  lemma Same(t: Tables, s: seq<int>)
    ensures Equivalent(t, s, s)
  {
    assert Chain(t, [s]);
  }

  lemma OneStep(t: Tables, s: seq<int>, v: seq<int>)
    requires Step(t, s, v)
    ensures Equivalent(t, s, v)
  {
    assert Chain(t, [s, v]);
  }

  lemma Across(t: Tables, s: seq<int>, v: seq<int>, w: seq<int>)
    requires Equivalent(t, s, v) && Equivalent(t, v, w)
    ensures Equivalent(t, s, w)
  {
    hide Step;
    var c :| Chain(t, c) && c[0] == s && c[|c| - 1] == v;
    var d :| Chain(t, d) && d[0] == v && d[|d| - 1] == w;
    var e := c + d[1..];
    forall i, j | 0 <= i && j == i + 1 < |e| ensures Step(t, e[i], e[j]) || Step(t, e[j], e[i]) {
      if j >= |c| { assert e[j] == d[j - |c| + 1] && e[i] == d[j - |c|]; }
    }
    assert Chain(t, e);
  }

  lemma Back(t: Tables, s: seq<int>, v: seq<int>)
    requires Equivalent(t, s, v)
    ensures Equivalent(t, v, s)
  {
    hide Step;
    var c :| Chain(t, c) && c[0] == s && c[|c| - 1] == v;
    var d := seq(|c|, i requires 0 <= i < |c| => c[|c| - 1 - i]);
    assert Chain(t, d);
  }

  lemma StepWithin(t: Tables, f: seq<int>, s: seq<int>, v: seq<int>, g: seq<int>)
    requires Step(t, s, v)
    ensures Step(t, f + s + g, f + v + g)
  {
    hide Maps, Unmapped, Ccc;
    if Replaces(t, s, v) {
      var p, r, m, q :| Maps(t, r, m) && s == p + [r] + q && v == p + m + q;
      Widen(f, p, [r], q, g);
      Widen(f, p, m, q, g);
      assert Replaces(t, f + s + g, f + v + g);
    } else {
      var p, a, b, q :|
        && Unmapped(t, a) && Unmapped(t, b) && Ccc(t, a) > Ccc(t, b) > 0
        && s == p + [a, b] + q && v == p + [b, a] + q;
      Widen(f, p, [a, b], q, g);
      Widen(f, p, [b, a], q, g);
      assert Exchanges(t, f + s + g, f + v + g);
    }
  }

  lemma Widen(f: seq<int>, p: seq<int>, x: seq<int>, q: seq<int>, g: seq<int>)
    ensures f + (p + x + q) + g == (f + p) + x + (q + g)
  {
  }

  lemma Within(t: Tables, f: seq<int>, s: seq<int>, v: seq<int>, g: seq<int>)
    requires Equivalent(t, s, v)
    ensures Equivalent(t, f + s + g, f + v + g)
  {
    hide Step;
    var c :| Chain(t, c) && c[0] == s && c[|c| - 1] == v;
    var d := seq(|c|, i requires 0 <= i < |c| => f + c[i] + g);
    forall i, j | 0 <= i && j == i + 1 < |d| ensures Step(t, d[i], d[j]) || Step(t, d[j], d[i]) {
      if Step(t, c[i], c[j]) { StepWithin(t, f, c[i], c[j], g); } else { StepWithin(t, f, c[j], c[i], g); }
    }
    assert Chain(t, d);
  }

  lemma Beside(t: Tables, s: seq<int>, v: seq<int>, f: seq<int>, g: seq<int>)
    requires Equivalent(t, s, v) && Equivalent(t, f, g)
    ensures Equivalent(t, s + f, v + g)
  {
    Within(t, [], s, v, f);
    Within(t, v, f, g, []);
    assert [] + s + f == s + f && [] + v + f == v + f && v + f + [] == v + f && v + g + [] == v + g;
    Across(t, s + f, v + f, v + g);
  }

  lemma MapStep(t: Tables, r: int, m: seq<int>)
    requires Maps(t, r, m)
    ensures Equivalent(t, [r], m)
  {
    assert [r] == [] + [r] + [] && m == [] + m + [];
    OneStep(t, [r], m);
  }

  lemma RowMaps(t: Tables, d: Decomp)
    requires d in t.decomp
    ensures Maps(t, d.cp, RowMapping(d))
  {
  }

  lemma LeafStays(t: Tables, r: int)
    requires Leaf(t, r)
    ensures Decompose(t, r) == [r]
  {
  }

  /** Decomposition leaves a code point alone exactly when it has no mapping. */
  lemma StaysItself(t: Tables, r: int)
    ensures Decompose(t, r) == [r] <==> Unmapped(t, r)
  {
    UnmappedIsLeaf(t, r);
    DecomposeIsFull(t, r);
    hide Unmapped;
    if Leaf(t, r) { LeafStays(t, r); }
    if Decompose(t, r) == [r] { assert Leaf(t, Decompose(t, r)[0]); }
  }

  /** Decomposition is reached by replacing code points by their mappings. */
  lemma {:induction false} DecomposeReaches(t: Tables, r: int)
    ensures Equivalent(t, [r], Decompose(t, r))
    decreases t.Depth(r)
  {
    hide Equivalent, Maps;
    if IsSyllable(r) {
      SyllableReaches(t, r);
    } else if FindDecomp(t, r).None? {
      Same(t, [r]);
    } else {
      var d := FindDecomp(t, r).value;
      RowMaps(t, d);
      MapStep(t, r, RowMapping(d));
      DecomposeReaches(t, d.a);
      if d.b != 0 {
        DecomposeReaches(t, d.b);
        Beside(t, [d.a], Decompose(t, d.a), [d.b], Decompose(t, d.b));
        assert [d.a] + [d.b] == RowMapping(d);
      } else {
        assert Decompose(t, d.a) + [] == Decompose(t, d.a);
      }
      Across(t, [r], RowMapping(d), Decompose(t, r));
    }
  }

  lemma SyllableReaches(t: Tables, r: int)
    requires IsSyllable(r)
    ensures Equivalent(t, [r], Decompose(t, r))
  {
    hide Equivalent;
    var a, b := SyllableMaps(r);
    MapStep(t, r, [a, b]);
    MapsDecompose(t, r, [a, b]);
    DecomposeTwo(SchemeOf(t), a, b);
    PartsReach(t, r, a, b);
    Across(t, [r], [a, b], Decompose(t, r));
  }

  lemma PartsReach(t: Tables, r: int, a: int, b: int)
    requires HangulMaps(r, a, b)
    ensures Equivalent(t, [a, b], Decompose(t, a) + Decompose(t, b))
  {
    JamoIsLeaf(t, b);
    LeafStays(t, b);
    if TrailPair(a, b) {
      WholeReaches(t, a);
      hide *;
      Same(t, [b]);
      Beside(t, [a], Decompose(t, a), [b], [b]);
    } else {
      JamoIsLeaf(t, a);
      LeafStays(t, a);
      hide *;
      Same(t, [a, b]);
    }
  }

  lemma WholeReaches(t: Tables, a: int)
    requires IsSyllable(a) && (a - HANGUL_S_BASE) % HANGUL_T_COUNT == 0
    ensures Equivalent(t, [a], Decompose(t, a))
  {
    hide Equivalent, Decompose, Leaf;
    var l, v := SyllableMaps(a);
    TrailDiffers(a, l, v);
    LeadVowelInverts(t, l, v);
    JamoIsLeaf(t, l);
    JamoIsLeaf(t, v);
    LeafStays(t, l);
    LeafStays(t, v);
    MapStep(t, a, [l, v]);
    assert [l] + [v] == [l, v];
  }

  lemma TrailDiffers(a: int, l: int, v: int)
    requires IsSyllable(a) && (a - HANGUL_S_BASE) % HANGUL_T_COUNT == 0 && HangulMaps(a, l, v)
    ensures LeadPair(l, v) && a == LeadSyllable(l, v)
  {
    if TrailPair(l, v) { SyllableTrail(l - HANGUL_S_BASE, v - HANGUL_T_BASE); }
  }

  lemma {:induction false} DecomposeAllReaches(t: Tables, s: seq<int>)
    ensures Equivalent(t, s, DecomposeAll(SchemeOf(t), s))
  {
    hide Equivalent, Decompose;
    if s == [] {
      Same(t, s);
    } else {
      DecomposeReaches(t, s[0]);
      DecomposeAllReaches(t, s[1..]);
      Beside(t, [s[0]], Decompose(t, s[0]), s[1..], DecomposeAll(SchemeOf(t), s[1..]));
      assert [s[0]] + s[1..] == s;
    }
  }

  ghost predicate AllUnmapped(t: Tables, s: seq<int>) { forall i :: 0 <= i < |s| ==> Unmapped(t, s[i]) }

  /** Canonical ordering is reached by exchanges. */
  lemma {:induction false} InsertReaches(t: Tables, x: int, s: seq<int>)
    requires Unmapped(t, x) && AllUnmapped(t, s)
    ensures Equivalent(t, [x] + s, InsertMark(SchemeOf(t), x, s))
  {
    hide Equivalent, Unmapped, Ccc;
    if s == [] || Ccc(t, x) == 0 || Ccc(t, s[0]) == 0 || Ccc(t, x) <= Ccc(t, s[0]) {
      Same(t, [x] + s);
    } else {
      var y, rest := s[0], s[1..];
      assert [x] + s == [] + [x, y] + rest && [y] + ([x] + rest) == [] + [y, x] + rest;
      assert Exchanges(t, [x] + s, [y] + ([x] + rest));
      OneStep(t, [x] + s, [y] + ([x] + rest));
      InsertReaches(t, x, rest);
      Same(t, [y]);
      Beside(t, [y], [y], [x] + rest, InsertMark(SchemeOf(t), x, rest));
      Across(t, [x] + s, [y] + ([x] + rest), InsertMark(SchemeOf(t), x, s));
    }
  }

  lemma {:induction false} ReorderReaches(t: Tables, s: seq<int>)
    requires AllUnmapped(t, s)
    ensures Equivalent(t, s, Reorder(SchemeOf(t), s)) && AllUnmapped(t, Reorder(SchemeOf(t), s))
  {
    hide Equivalent, Unmapped, InsertMark;
    var u := SchemeOf(t);
    if s == [] {
      Same(t, s);
    } else {
      ReorderReaches(t, s[1..]);
      Same(t, [s[0]]);
      Beside(t, [s[0]], [s[0]], s[1..], Reorder(u, s[1..]));
      InsertReaches(t, s[0], Reorder(u, s[1..]));
      assert [s[0]] + s[1..] == s;
      Across(t, s, [s[0]] + Reorder(u, s[1..]), Reorder(u, s));
      StillUnmapped(t, s);
    }
  }

  lemma StillUnmapped(t: Tables, s: seq<int>)
    requires AllUnmapped(t, s)
    ensures AllUnmapped(t, Reorder(SchemeOf(t), s))
  {
    hide Unmapped;
    var r := Reorder(SchemeOf(t), s);
    ReorderPermutes(SchemeOf(t), s);
    forall i | 0 <= i < |r| ensures Unmapped(t, r[i]) {
      assert r[i] in multiset(r);
      assert r[i] in s;
    }
  }

  lemma {:induction false} DecomposeAllUnmapped(t: Tables, s: seq<int>)
    ensures AllUnmapped(t, DecomposeAll(SchemeOf(t), s))
  {
    hide Unmapped, Leaf;
    if s != [] {
      DecomposeIsFull(t, s[0]);
      var d := Decompose(t, s[0]);
      forall i | 0 <= i < |d| ensures Unmapped(t, d[i]) { UnmappedIsLeaf(t, d[i]); }
      DecomposeAllUnmapped(t, s[1..]);
    }
  }

  /** A text in which nothing is left to do: no code point has a mapping and no mark follows one of a higher class. */
  ghost predicate Normal(t: Tables, v: seq<int>) { AllUnmapped(t, v) && Ordered(SchemeOf(t), v) }

  lemma NfdReaches(t: Tables, s: seq<int>)
    ensures Equivalent(t, s, Nfd(SchemeOf(t), s)) && Normal(t, Nfd(SchemeOf(t), s))
  {
    var u := SchemeOf(t);
    hide Equivalent, AllUnmapped, SchemeOf;
    DecomposeAllReaches(t, s);
    DecomposeAllUnmapped(t, s);
    ReorderReaches(t, DecomposeAll(u, s));
    Across(t, s, DecomposeAll(u, s), Nfd(u, s));
    ReorderOrdered(u, DecomposeAll(u, s));
  }

  lemma NormalIsNfd(t: Tables, v: seq<int>)
    requires Normal(t, v)
    ensures Nfd(SchemeOf(t), v) == v
  {
    hide Unmapped, Leaf;
    var u := SchemeOf(t);
    forall i | 0 <= i < |v| ensures u.Leaf(v[i]) {
      UnmappedIsLeaf(t, v[i]);
      LeafStays(t, v[i]);
    }
    DecomposeAllLeaf(u, v);
    ReorderFixed(u, v);
  }

  /** The decomposition the normaliser computes is the one normal text that the mappings and exchanges lead to. */
  lemma NfdIsNormalForm(t: Tables, s: seq<int>, v: seq<int>)
    ensures v == Nfd(SchemeOf(t), s) <==> Normal(t, v) && Equivalent(t, s, v)
  {
    NfdReaches(t, s);
    hide Normal, Nfd, SchemeOf;
    if Normal(t, v) && Equivalent(t, s, v) {
      NormalIsNfd(t, v);
      EquivalentKeepsNfd(t, s, v);
    }
  }

  lemma EquivalentKeepsNfd(t: Tables, s: seq<int>, v: seq<int>)
    requires Equivalent(t, s, v)
    ensures Nfd(SchemeOf(t), s) == Nfd(SchemeOf(t), v)
  {
    var c :| Chain(t, c) && c[0] == s && c[|c| - 1] == v;
    ChainKeepsNfd(t, c);
  }

  /** Two names have one normal form exactly when mappings and exchanges, made and unmade, lead from one to the other. */
  lemma ZipNfcDecidesEquivalence(t: Tables, s: seq<int>, v: seq<int>)
    ensures Nfc(SchemeOf(t), s) == Nfc(SchemeOf(t), v) <==> Equivalent(t, s, v)
  {
    var u := SchemeOf(t);
    TablesLawful(t);
    NfcDecidesEquivalence(u, s, v);
    NfdReaches(t, s);
    NfdReaches(t, v);
    hide Equivalent, Nfd, SchemeOf;
    if Equivalent(t, s, v) { EquivalentKeepsNfd(t, s, v); }
    if Nfd(u, s) == Nfd(u, v) {
      Back(t, v, Nfd(u, v));
      Across(t, s, Nfd(u, s), v);
    }
  }

  lemma NfcOfEquivalents(t: Tables, s: seq<int>)
    ensures Equivalent(t, s, Nfc(SchemeOf(t), s))
    ensures forall v :: Equivalent(t, s, v) <==> Nfc(SchemeOf(t), v) == Nfc(SchemeOf(t), s)
  {
    hide Equivalent, Nfc;
    ZipNfcIsCanonical(t, s);
    forall v ensures Equivalent(t, s, v) <==> Nfc(SchemeOf(t), v) == Nfc(SchemeOf(t), s) { ZipNfcDecidesEquivalence(t, s, v); }
  }

  /** Every row, of one part or two, listed for composition or not, may be replaced anywhere in a name. */
  lemma RowKeepsNfc(t: Tables, d: Decomp, p: seq<int>, q: seq<int>)
    requires d in t.decomp
    ensures var u := SchemeOf(t); Nfc(u, p + [d.cp] + q) == Nfc(u, p + RowMapping(d) + q)
  {
    assert Maps(t, d.cp, RowMapping(d));
    MapStep(t, d.cp, RowMapping(d));
    Within(t, p, [d.cp], RowMapping(d), q);
    ZipNfcDecidesEquivalence(t, p + [d.cp] + q, p + RowMapping(d) + q);
  }

  /** What a pair composes to: the syllable that maps to it, and otherwise the composite that lists it. */
  lemma PairComposeIs(t: Tables, a: int, b: int, c: int)
    ensures PairCompose(t, a, b) == Some(c) <==>
            HangulMaps(c, a, b) || (Composite(a, b, c) in t.compose && forall x :: !HangulMaps(x, a, b))
  {
    if LeadPair(a, b) {
      LeadVowel(a - HANGUL_L_BASE, b - HANGUL_V_BASE);
      assert HangulMaps(LeadSyllable(a, b), a, b);
    } else if TrailPair(a, b) {
      assert HangulMaps(a + (b - HANGUL_T_BASE), a, b);
    } else {
      if Composite(a, b, c) in t.compose { ComposeSearch(t, Composite(a, b, c)); }
    }
  }

  method ZipNfc(t: Tables, runes: seq<int>) returns (out: seq<int>)
    ensures out == Nfc(SchemeOf(t), runes)
    ensures Equivalent(t, runes, out) && forall v :: Equivalent(t, runes, v) ==> Nfc(SchemeOf(t), v) == out
  {
    hide Equivalent, Reorder, ComposeAll;
    NfcOfEquivalents(t, runes);
    ghost var u := SchemeOf(t);
    var dec := [];
    for i := 0 to |runes|
      invariant dec == DecomposeAll(u, runes[..i])
    {
      assert runes[..i + 1] == runes[..i] + [runes[i]];
      DecomposeAllConcat(u, runes[..i], [runes[i]]);
      dec := dec + Decompose(t, runes[i]);
    }
    assert runes[..|runes|] == runes;
    var buffer := new int[|dec|](i requires 0 <= i < |dec| => dec[i]);
    assert buffer[..] == dec;
    ReorderInPlace(SchemeOf(t), buffer);
    out := ComposeRunes(SchemeOf(t), buffer[..]);
  }
}
