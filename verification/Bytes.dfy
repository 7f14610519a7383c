/** Bytes and little-endian integers. */
module Bytes {
  type byte = x: int | 0 <= x < 0x100

  type u16 = x: int | 0 <= x < 0x1_0000
  type u32 = x: int | 0 <= x < 0x1_0000_0000
  type u64 = x: int | 0 <= x < 0x1_0000_0000_0000_0000

  const MAX_INT64: int := 0x7FFF_FFFF_FFFF_FFFF
  const MIN_INT64: int := -0x8000_0000_0000_0000
  const TWO64: int := 0x1_0000_0000_0000_0000

  function Le16(b: seq<byte>, o: nat): u16
    requires o + 2 <= |b|
  {
    b[o] as int + 0x100 * (b[o + 1] as int)
  }

  function Le32(b: seq<byte>, o: nat): u32
    requires o + 4 <= |b|
  {
    Le16(b, o) as int + 0x1_0000 * (Le16(b, o + 2) as int)
  }

  function Le64(b: seq<byte>, o: nat): u64
    requires o + 8 <= |b|
  {
    Le32(b, o) as int + 0x1_0000_0000 * (Le32(b, o + 4) as int)
  }

  function Lo(n: nat): byte { n % 0x100 }

  /** Byte `k` of the little-endian form of `n`. */
  function ByteOf(n: nat, k: nat): byte { if k == 0 then Lo(n) else ByteOf(n / 0x100, k - 1) }

  lemma Le16Bytes(b: seq<byte>, o: nat, n: nat)
    requires o + 2 <= |b| && n < 0x1_0000 && b[o] == ByteOf(n, 0) && b[o + 1] == ByteOf(n, 1)
    ensures Le16(b, o) == n
  {
  }

  lemma Le32Bytes(b: seq<byte>, o: nat, n: nat)
    requires o + 4 <= |b| && n < 0x1_0000_0000
    requires b[o] == ByteOf(n, 0) && b[o + 1] == ByteOf(n, 1) && b[o + 2] == ByteOf(n, 2) && b[o + 3] == ByteOf(n, 3)
    ensures Le32(b, o) == n
  {
    var h := n / 0x100;
    var q := h / 0x100;
    assert n == 0x1_0000 * q + 0x100 * (h % 0x100) + n % 0x100 && q < 0x1_0000;
    ByteOfDrops(n);
    Le16Bytes(b, o + 2, q);
    hide ByteOf;
    assert b[o] == n % 0x100 && b[o + 1] == h % 0x100;
  }

  lemma ByteOfDrops(n: nat)
    ensures ByteOf(n, 0) == n % 0x100 && ByteOf(n, 1) == n / 0x100 % 0x100
    ensures ByteOf(n, 2) == ByteOf(n / 0x100 / 0x100, 0) && ByteOf(n, 3) == ByteOf(n / 0x100 / 0x100, 1)
  {
    assert ByteOf(n, 2) == ByteOf(n / 0x100, 1);
    assert ByteOf(n, 3) == ByteOf(n / 0x100, 2) == ByteOf(n / 0x100 / 0x100, 1);
  }

  /** And back: the bytes of a two- or four-byte field are those of its value. */
  lemma BytesOfLe16(b: seq<byte>, o: nat)
    requires o + 2 <= |b|
    ensures b[o] == ByteOf(Le16(b, o), 0) && b[o + 1] == ByteOf(Le16(b, o), 1)
  {
    assert Le16(b, o) / 0x100 == b[o + 1];
  }

  lemma BytesOfLe32(b: seq<byte>, o: nat)
    requires o + 4 <= |b|
    ensures var n := Le32(b, o);
            b[o] == ByteOf(n, 0) && b[o + 1] == ByteOf(n, 1) && b[o + 2] == ByteOf(n, 2) && b[o + 3] == ByteOf(n, 3)
  {
    var n := Le32(b, o);
    ByteOfDrops(n);
    assert n / 0x100 / 0x100 == Le16(b, o + 2) && n / 0x100 == b[o + 1] + 0x100 * Le16(b, o + 2);
    BytesOfLe16(b, o + 2);
    hide ByteOf;
  }

  lemma Le64Bytes(b: seq<byte>, o: nat, n: nat)
    requires o + 8 <= |b| && n < 0x1_0000_0000_0000_0000 && forall k: nat :: k < 8 ==> b[o + k] == ByteOf(n, k)
    ensures Le64(b, o) == n
  {
    var q := n / 0x1_0000_0000;
    ByteOfHigh(n);
    ByteOfLow(n);
    assert b[o + 0] == ByteOf(n, 0) && b[o + 1] == ByteOf(n, 1) && b[o + 2] == ByteOf(n, 2) && b[o + 3] == ByteOf(n, 3);
    assert b[o + 4] == ByteOf(n, 4) && b[o + 5] == ByteOf(n, 5) && b[o + 6] == ByteOf(n, 6) && b[o + 7] == ByteOf(n, 7);
    hide ByteOf, Le32;
    Le32Bytes(b, o, n % 0x1_0000_0000);
    Le32Bytes(b, o + 4, q);
  }

  lemma ByteOfHigh(n: nat)
    ensures var q := n / 0x1_0000_0000;
            ByteOf(n, 4) == ByteOf(q, 0) && ByteOf(n, 5) == ByteOf(q, 1) && ByteOf(n, 6) == ByteOf(q, 2) && ByteOf(n, 7) == ByteOf(q, 3)
  {
    var h := n / 0x1_0000;
    assert h / 0x1_0000 == n / 0x1_0000_0000;
    ByteOfShift(n, 4);
    ByteOfShift(n, 5);
    ByteOfShift(n, 6);
    ByteOfShift(n, 7);
    ByteOfShift(h, 2);
    ByteOfShift(h, 3);
    ByteOfShift(h, 4);
    ByteOfShift(h, 5);
  }

  /** Two bytes on is the same as a division by 0x10000. */
  lemma ByteOfShift(n: nat, k: nat)
    requires k >= 2
    ensures ByteOf(n, k) == ByteOf(n / 0x1_0000, k - 2)
  {
    assert n / 0x100 / 0x100 == n / 0x1_0000;
    assert ByteOf(n, k) == ByteOf(n / 0x100, k - 1) == ByteOf(n / 0x100 / 0x100, k - 2);
  }

  lemma Shed(q: nat, m: nat)
    ensures (0x100 * q + m) % 0x100 == m % 0x100 && (0x100 * q + m) / 0x100 == q + m / 0x100
  {
  }

  /** What is added above byte `k` does not show in it. */
  lemma {:induction false} ByteOfSum(q: nat, m: nat, k: nat, p: nat)
    requires p == Pow256(k + 1)
    ensures ByteOf(p * q + m, k) == ByteOf(m, k)
  {
    var r := Pow256(k);
    assert p * q == 0x100 * (r * q) by { Regroup(r, q); }
    Shed(r * q, m);
    if k > 0 { ByteOfSum(q, m / 0x100, k - 1, r); }
  }

  lemma Regroup(r: nat, q: nat)
    ensures 0x100 * r * q == 0x100 * (r * q) && r * q >= 0
  {
  }

  function Pow256(k: nat): nat { if k == 0 then 1 else 0x100 * Pow256(k - 1) }

  lemma ByteOfLow(n: nat)
    ensures var m := n % 0x1_0000_0000;
            ByteOf(n, 0) == ByteOf(m, 0) && ByteOf(n, 1) == ByteOf(m, 1) && ByteOf(n, 2) == ByteOf(m, 2) && ByteOf(n, 3) == ByteOf(m, 3)
  {
    var q, m := n / 0x1_0000_0000, n % 0x1_0000_0000;
    assert n == 0x1_0000_0000 * q + m;
    assert Pow256(1) == 0x100 && Pow256(2) == 0x1_0000 && Pow256(3) == 0x100_0000 && Pow256(4) == 0x1_0000_0000;
    hide ByteOf, Pow256;
    ByteOfSum(0x100_0000 * q, m, 0, 0x100);
    ByteOfSum(0x1_0000 * q, m, 1, 0x1_0000);
    ByteOfSum(0x100 * q, m, 2, 0x100_0000);
    ByteOfSum(q, m, 3, 0x1_0000_0000);
  }

  function Max(a: int, b: int): int { if a >= b then a else b }

  function Min(a: int, b: int): int { if a <= b then a else b }
}
