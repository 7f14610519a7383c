/** jq's total order over JSON values: null < false < true < numbers < strings < arrays < objects. */
module JqOrder {
  import opened Orders
  import StableSort

  /** What `strconv.ParseFloat` can answer: a literal out of range reads as an infinity. */
  datatype Float = NaN | NegInf | Fin(r: real) | PosInf

  datatype Json =
    | Null
    | Bool(b: bool)
    | Num(n: Float)
    | Str(s: string)
    | Arr(elems: seq<Json>)
    | Obj(fields: map<string, Json>)

  predicate FloatLess(a: Float, b: Float) {
    match (a, b)
    case (Fin(x), Fin(y)) => x < y
    case (NegInf, Fin(_)) => true
    case (NegInf, PosInf) => true
    case (Fin(_), PosInf) => true
    case _ => false
  }

  function CmpFloat(a: Float, b: Float): int {
    if FloatLess(a, b) then -1
    else if FloatLess(b, a) then 1
    else if a.NaN? != b.NaN? then if a.NaN? then -1 else 1
    else 0
  }

  function OrderRank(v: Json): int {
    match v
    case Null => 0
    case Bool(b) => if !b then 1 else 2
    case Num(_) => 3
    case Str(_) => 4
    case Arr(_) => 5
    case Obj(_) => 6
  }

  function JqCmp(a: Json, b: Json): int
    decreases a, 1, 0
  {
    if OrderRank(a) != OrderRank(b) then Sign(OrderRank(a), OrderRank(b))
    else
      match (a, b)
      case (Num(x), Num(y)) => CmpFloat(x, y)
      case (Str(x), Str(y)) => Compare(x, y)
      case (Arr(x), Arr(y)) => CmpElems(x, y)
      case (Obj(x), Obj(y)) =>
        SortedSetElements(x.Keys);
        var ka, kb := SortedSet(x.Keys), SortedSet(y.Keys);
        var c := CmpKeys(ka, kb);
        if c != 0 then c else CmpFields(a, x, y, ka)
      case _ => 0
  }

  /** The element loop, then the lengths. */
  function CmpElems(x: seq<Json>, y: seq<Json>): int
    decreases x
  {
    if x == [] || y == [] then Sign(|x|, |y|)
    else
      var c := JqCmp(x[0], y[0]);
      if c != 0 then c else CmpElems(x[1..], y[1..])
  }

  /** The loop over both sorted key lists, then their lengths. */
  function CmpKeys(x: seq<string>, y: seq<string>): int {
    if x == [] || y == [] then Sign(|x|, |y|)
    else
      var c := Compare(x[0], y[0]);
      if c != 0 then c else CmpKeys(x[1..], y[1..])
  }

  /** The loop over the common keys. A key the second object lacks reads as null there. */
  function CmpFields(ghost whole: Json, x: map<string, Json>, y: map<string, Json>, ks: seq<string>): int
    requires whole == Obj(x) && forall k :: k in ks ==> k in x
    decreases whole, 0, |ks|
  {
    if ks == [] then 0
    else
      var c := JqCmp(x[ks[0]], if ks[0] in y then y[ks[0]] else Null);
      if c != 0 then c else CmpFields(whole, x, y, ks[1..])
  }

  // ---- The comparison answers 0 exactly on equal values ----

  lemma {:induction false} KeysEqual(x: seq<string>, y: seq<string>)
    ensures CmpKeys(x, y) == 0 <==> x == y
  {
    if x != [] && y != [] {
      CompareEqual(x[0], y[0]);
      KeysEqual(x[1..], y[1..]);
      assert x == [x[0]] + x[1..] && y == [y[0]] + y[1..];
    }
  }

  /** Objects with the same sorted keys have the same keys. */
  lemma SameKeys(x: map<string, Json>, y: map<string, Json>)
    requires SortedSet(x.Keys) == SortedSet(y.Keys)
    ensures x.Keys == y.Keys
  {
    SortedSetElements(x.Keys);
    SortedSetElements(y.Keys);
  }

  lemma {:induction false} JqEqual(a: Json, b: Json)
    ensures JqCmp(a, b) == 0 <==> a == b
    decreases a, 1, 0
  {
    match (a, b) {
      case (Str(x), Str(y)) => CompareEqual(x, y);
      case (Arr(x), Arr(y)) => ElemsEqual(x, y);
      case (Obj(x), Obj(y)) =>
        var ka, kb := SortedSet(x.Keys), SortedSet(y.Keys);
        KeysEqual(ka, kb);
        if ka == kb {
          SameKeys(x, y);
          SortedSetElements(x.Keys);
          FieldsEqual(a, x, y, ka);
          if forall k :: k in ka ==> x[k] == y[k] { assert x == y; }
        }
      case _ =>
    }
  }

  lemma {:induction false} ElemsEqual(x: seq<Json>, y: seq<Json>)
    ensures CmpElems(x, y) == 0 <==> x == y
    decreases x
  {
    if x != [] && y != [] {
      JqEqual(x[0], y[0]);
      ElemsEqual(x[1..], y[1..]);
      assert x == [x[0]] + x[1..] && y == [y[0]] + y[1..];
    }
  }

  lemma {:induction false} FieldsEqual(whole: Json, x: map<string, Json>, y: map<string, Json>, ks: seq<string>)
    requires whole == Obj(x) && forall k :: k in ks ==> k in x && k in y
    ensures CmpFields(whole, x, y, ks) == 0 <==> forall k :: k in ks ==> x[k] == y[k]
    decreases whole, 0, |ks|
  {
    if ks != [] {
      JqEqual(x[ks[0]], y[ks[0]]);
      FieldsEqual(whole, x, y, ks[1..]);
      assert ks == [ks[0]] + ks[1..];
    }
  }

  // ---- Exchanging the operands changes the sign ----

  lemma {:induction false} KeysAntisymmetric(x: seq<string>, y: seq<string>)
    ensures CmpKeys(x, y) == -CmpKeys(y, x)
  {
    if x != [] && y != [] {
      CompareAntisymmetric(x[0], y[0]);
      KeysAntisymmetric(x[1..], y[1..]);
    }
  }

  lemma {:induction false} JqAntisymmetric(a: Json, b: Json)
    ensures JqCmp(a, b) == -JqCmp(b, a)
    decreases a, 1, 0
  {
    match (a, b) {
      case (Str(x), Str(y)) => CompareAntisymmetric(x, y);
      case (Arr(x), Arr(y)) => ElemsAntisymmetric(x, y);
      case (Obj(x), Obj(y)) =>
        var ka, kb := SortedSet(x.Keys), SortedSet(y.Keys);
        KeysAntisymmetric(ka, kb);
        KeysEqual(ka, kb);
        if ka == kb {
          SameKeys(x, y);
          SortedSetElements(x.Keys);
          FieldsAntisymmetric(a, b, x, y, ka);
        }
      case _ =>
    }
  }

  lemma {:induction false} ElemsAntisymmetric(x: seq<Json>, y: seq<Json>)
    ensures CmpElems(x, y) == -CmpElems(y, x)
    decreases x
  {
    if x != [] && y != [] {
      JqAntisymmetric(x[0], y[0]);
      ElemsAntisymmetric(x[1..], y[1..]);
    }
  }

  lemma {:induction false} FieldsAntisymmetric(a: Json, b: Json, x: map<string, Json>, y: map<string, Json>, ks: seq<string>)
    requires a == Obj(x) && b == Obj(y) && forall k :: k in ks ==> k in x && k in y
    ensures CmpFields(a, x, y, ks) == -CmpFields(b, y, x, ks)
    decreases a, 0, |ks|
  {
    if ks != [] {
      JqAntisymmetric(x[ks[0]], y[ks[0]]);
      FieldsAntisymmetric(a, b, x, y, ks[1..]);
    }
  }

  // ---- Transitivity, through nested arrays and objects ----

  lemma {:induction false} KeysTransitive(x: seq<string>, y: seq<string>, z: seq<string>)
    requires CmpKeys(x, y) <= 0 && CmpKeys(y, z) <= 0
    ensures CmpKeys(x, z) <= 0
  {
    if x != [] && y != [] && z != [] {
      StringsChain(x[0], y[0], z[0]);
      if Compare(x[0], y[0]) == 0 && Compare(y[0], z[0]) == 0 { KeysTransitive(x[1..], y[1..], z[1..]); }
    }
  }

  lemma {:induction false} JqTransitive(a: Json, b: Json, c: Json)
    requires JqCmp(a, b) <= 0 && JqCmp(b, c) <= 0
    ensures JqCmp(a, c) <= 0
    decreases a, 1, 0
  {
    if OrderRank(a) == OrderRank(b) == OrderRank(c) {
      match (a, b, c) {
        case (Str(x), Str(y), Str(z)) => CompareTransitive(x, y, z);
        case (Arr(x), Arr(y), Arr(z)) => ElemsTransitive(x, y, z);
        case (Obj(x), Obj(y), Obj(z)) => ObjectsTransitive(a, b, c, x, y, z);
        case _ =>
      }
    }
  }

  lemma {:induction false} ObjectsTransitive(a: Json, b: Json, c: Json, x: map<string, Json>, y: map<string, Json>, z: map<string, Json>)
    requires a == Obj(x) && b == Obj(y) && c == Obj(z)
    requires JqCmp(a, b) <= 0 && JqCmp(b, c) <= 0
    ensures JqCmp(a, c) <= 0
    decreases a, 0, |x| + 1
  {
    var ka, kb, kc := SortedSet(x.Keys), SortedSet(y.Keys), SortedSet(z.Keys);
    KeysTransitive(ka, kb, kc);
    KeysEqual(ka, kb);
    KeysEqual(kb, kc);
    KeysEqual(ka, kc);
    KeysAntisymmetric(ka, kb);
    if ka == kb && kb == kc {
      SameKeys(x, y);
      SameKeys(y, z);
      SortedSetElements(x.Keys);
      SortedSetSize(x.Keys);
      FieldsTransitive(a, b, x, y, z, ka);
    }
  }

  lemma {:induction false} SortedSetSize(s: set<string>)
    ensures |SortedSet(s)| == |s|
    decreases |s|
  {
    if s != {} { SortedSetSize(s - {Least(s)}); }
  }

  /** As StringsChain, for values smaller than the one under comparison. */
  lemma JqChain(x: Json, y: Json, z: Json)
    requires JqCmp(x, y) <= 0 && JqCmp(y, z) <= 0
    ensures JqCmp(x, z) <= 0
    ensures JqCmp(x, z) == 0 <==> JqCmp(x, y) == 0 && JqCmp(y, z) == 0
    decreases x, 2
  {
    JqTransitive(x, y, z);
    JqEqual(x, y);
    JqEqual(y, z);
    JqEqual(x, z);
    JqAntisymmetric(x, y);
  }

  lemma {:induction false} ElemsTransitive(x: seq<Json>, y: seq<Json>, z: seq<Json>)
    requires CmpElems(x, y) <= 0 && CmpElems(y, z) <= 0
    ensures CmpElems(x, z) <= 0
    decreases x
  {
    if x != [] && y != [] && z != [] {
      JqChain(x[0], y[0], z[0]);
      if JqCmp(x[0], y[0]) == 0 && JqCmp(y[0], z[0]) == 0 { ElemsTransitive(x[1..], y[1..], z[1..]); }
    }
  }

  lemma {:induction false} FieldsTransitive(
    a: Json, b: Json, x: map<string, Json>, y: map<string, Json>, z: map<string, Json>, ks: seq<string>)
    requires a == Obj(x) && b == Obj(y) && forall k :: k in ks ==> k in x && k in y && k in z
    requires CmpFields(a, x, y, ks) <= 0 && CmpFields(b, y, z, ks) <= 0
    ensures CmpFields(a, x, z, ks) <= 0
    decreases a, 0, |ks|
  {
    if ks != [] {
      var k := ks[0];
      JqChain(x[k], y[k], z[k]);
      if JqCmp(x[k], y[k]) == 0 && JqCmp(y[k], z[k]) == 0 { FieldsTransitive(a, b, x, y, z, ks[1..]); }
    }
  }

  /** jq's order is a total order: reflexive, antisymmetric in sign, transitive, and 0 only between equal values. */
  lemma JqCmpIsTotalOrder()
    ensures TotalOrder(JqCmp)
  {
    forall x, y ensures JqCmp(x, y) == 0 <==> x == y { JqEqual(x, y); }
    forall x, y ensures JqCmp(x, y) == -JqCmp(y, x) { JqAntisymmetric(x, y); }
    forall x, y, z | JqCmp(x, y) <= 0 && JqCmp(y, z) <= 0 ensures JqCmp(x, z) <= 0 { JqTransitive(x, y, z); }
  }

  // ---- Which order it is ----

  /** null < false < true < numbers < strings < arrays < objects, between values of different kinds. */
  predicate KindBelow(a: Json, b: Json) {
    || (a.Null? && !b.Null?)
    || (a == Bool(false) && !b.Null? && b != Bool(false))
    || (a == Bool(true) && !b.Null? && !b.Bool?)
    || (a.Num? && (b.Str? || b.Arr? || b.Obj?))
    || (a.Str? && (b.Arr? || b.Obj?))
    || (a.Arr? && b.Obj?)
  }

  /** The order of the extended reals, with what is no number in front. */
  predicate FloatBelow(a: Float, b: Float) {
    match (a, b)
    case (NaN, _) => !b.NaN?
    case (_, NaN) => false
    case (NegInf, _) => !b.NegInf?
    case (_, PosInf) => !a.PosInf?
    case (Fin(x), Fin(y)) => x < y
    case _ => false
  }

  predicate JqBelow(a: Json, b: Json) { JqCmp(a, b) < 0 }

  /** At the first of the keys where the values differ, the first one's is below. */
  ghost predicate FieldsBelow(x: map<string, Json>, y: map<string, Json>, ks: seq<string>)
    requires forall k :: k in ks ==> k in x && k in y
  {
    exists i :: 0 <= i < |ks| && JqBelow(x[ks[i]], y[ks[i]]) && forall j :: 0 <= j < i ==> x[ks[j]] == y[ks[j]]
  }

  /** What it is for one value to come before another. */
  ghost predicate Before(a: Json, b: Json) {
    || KindBelow(a, b)
    || match (a, b)
       case (Num(x), Num(y)) => FloatBelow(x, y)
       case (Str(x), Str(y)) => Lexicographic(x, y, CharBelow)
       case (Arr(x), Arr(y)) => Lexicographic(x, y, JqBelow)
       case (Obj(x), Obj(y)) =>
         || Lexicographic(SortedSet(x.Keys), SortedSet(y.Keys), StringBelow)
         || (x.Keys == y.Keys && KeysIn(x) && FieldsBelow(x, y, SortedSet(x.Keys)))
       case _ => false
  }

  ghost predicate KeysIn(x: map<string, Json>)
    ensures KeysIn(x)
  {
    SortedSetElements(x.Keys);
    forall k :: k in SortedSet(x.Keys) ==> k in x
  }

  lemma {:induction false} ElemsLexicographic(x: seq<Json>, y: seq<Json>)
    ensures CmpElems(x, y) < 0 <==> Lexicographic(x, y, JqBelow)
  {
    hide Lexicographic, JqCmp;
    if x == [] || y == [] {
      LexicographicEnd(x, y, JqBelow);
    } else {
      LexicographicCons(x, y, JqBelow);
      JqEqual(x[0], y[0]);
      if x[0] == y[0] { ElemsLexicographic(x[1..], y[1..]); }
    }
  }

  lemma {:induction false} KeysLexicographic(x: seq<string>, y: seq<string>)
    ensures CmpKeys(x, y) < 0 <==> Lexicographic(x, y, StringBelow)
  {
    hide Lexicographic, Compare;
    if x == [] || y == [] {
      LexicographicEnd(x, y, StringBelow);
    } else {
      LexicographicCons(x, y, StringBelow);
      CompareEqual(x[0], y[0]);
      if x[0] == y[0] { KeysLexicographic(x[1..], y[1..]); }
    }
  }

  lemma {:induction false} FieldsFirst(whole: Json, x: map<string, Json>, y: map<string, Json>, ks: seq<string>)
    requires whole == Obj(x) && forall k :: k in ks ==> k in x && k in y
    ensures CmpFields(whole, x, y, ks) < 0 <==> FieldsBelow(x, y, ks)
  {
    hide JqCmp;
    if ks != [] {
      JqEqual(x[ks[0]], y[ks[0]]);
      FieldsFirst(whole, x, y, ks[1..]);
      if x[ks[0]] == y[ks[0]] {
        if i :| 0 <= i < |ks[1..]| && JqBelow(x[ks[1..][i]], y[ks[1..][i]]) && forall j :: 0 <= j < i ==> x[ks[1..][j]] == y[ks[1..][j]] {
          forall j | 0 <= j < i + 1 ensures x[ks[j]] == y[ks[j]] { if j > 0 { assert ks[1..][j - 1] == ks[j]; } }
          assert JqBelow(x[ks[i + 1]], y[ks[i + 1]]);
        }
        if i :| 0 <= i < |ks| && JqBelow(x[ks[i]], y[ks[i]]) && forall j :: 0 <= j < i ==> x[ks[j]] == y[ks[j]] {
          assert i > 0 && ks[1..][i - 1] == ks[i];
          forall j | 0 <= j < i - 1 ensures x[ks[1..][j]] == y[ks[1..][j]] { assert ks[1..][j] == ks[j + 1]; }
        }
      } else if JqBelow(x[ks[0]], y[ks[0]]) {
        assert FieldsBelow(x, y, ks);
      }
    }
  }

  /** The comparator is below zero exactly when the first value comes before the second. */
  lemma JqCmpIsBefore(a: Json, b: Json)
    ensures JqCmp(a, b) < 0 <==> Before(a, b)
  {
    match (a, b) {
      case (Str(x), Str(y)) => CompareIsLexicographic(x, y);
      case (Arr(x), Arr(y)) => ElemsLexicographic(x, y);
      case (Obj(x), Obj(y)) =>
        var ka, kb := SortedSet(x.Keys), SortedSet(y.Keys);
        KeysLexicographic(ka, kb);
        KeysEqual(ka, kb);
        if ka == kb {
          SameKeys(x, y);
          SortedSetElements(x.Keys);
          FieldsFirst(a, x, y, ka);
        }
      case _ =>
    }
  }

  // ---- The key loop ----

  /** `sortedKeys`: the keys in whatever order the map yields them, then sorted. */
  method SortedKeys(m: map<string, Json>) returns (keys: seq<string>)
    ensures keys == SortedSet(m.Keys)
  {
    keys := [];
    var rest := m.Keys;
    while rest != {}
      invariant rest <= m.Keys
      invariant forall k :: k in keys <==> k in m.Keys - rest
      invariant forall i, j :: 0 <= i < j < |keys| ==> keys[i] != keys[j]
      decreases rest
    {
      var k :| k in rest;
      assert k !in keys;
      ghost var before := keys;
      rest := rest - {k};
      keys := keys + [k];
      assert forall o :: o in keys <==> o in before || o == k;
    }
    keys := SortStrings(m.Keys, keys);
  }

  /** `sort.Strings` of a listing without repetition. */
  method SortStrings(ghost s: set<string>, listed: seq<string>) returns (keys: seq<string>)
    requires forall k :: k in listed <==> k in s
    requires forall i, j :: 0 <= i < j < |listed| ==> listed[i] != listed[j]
    ensures keys == SortedSet(s)
  {
    keys := StableSort.Sort(listed, Compare);
    CompareIsTotalOrder();
    StableSort.SortSorted(listed, Compare);
    StableSort.SortPermutes(listed, Compare);
    StableSort.MultisetMember(keys, listed);
    SortedDistinctAscends(listed, keys);
    SortedSetAscending(s);
    SortedSetElements(s);
    AscendingUnique(keys, SortedSet(s));
  }

  lemma SortedDistinctAscends(listed: seq<string>, keys: seq<string>)
    requires forall i, j :: 0 <= i < j < |listed| ==> listed[i] != listed[j]
    requires multiset(keys) == multiset(listed) && StableSort.Sorted(keys, Compare)
    ensures Ascending(keys)
  {
    forall i, j | 0 <= i < j < |keys| ensures Compare(keys[i], keys[j]) < 0 {
      CompareEqual(keys[i], keys[j]);
      if keys[i] == keys[j] {
        StableSort.CountTwice(keys, i, j);
        StableSort.CountOnce(listed, keys[i]);
      }
    }
  }
}
