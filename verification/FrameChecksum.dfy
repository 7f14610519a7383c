/** The frame checksums that serial analysis tries on the last one or two bytes of every frame, and the residue each test
    amounts to. */
module FrameChecksum {
  import opened Gf2

  type Bytes = seq<bv8>

  // ---- One-byte checksums ----

  /** Addition that wraps at 256. */
  function Add8(a: bv8, b: bv8): bv8 { a + b }

  function Sum(b: Bytes): bv8 { if b == [] then 0 else Add8(Sum(b[..|b| - 1]), b[|b| - 1]) }

  function Xor(b: Bytes): bv8 { if b == [] then 0 else Xor(b[..|b| - 1]) ^ b[|b| - 1] }

  method Sum8(b: Bytes) returns (s: bv8)
    ensures s == Sum(b)
  {
    s := 0;
    for i := 0 to |b|
      invariant s == Sum(b[..i])
    {
      assert b[..i + 1][..i] == b[..i];
      s := s + b[i];
    }
    assert b[..|b|] == b;
  }

  /** The byte that makes the sum zero. */
  function TwosComp(b: Bytes): bv8 { 0 - Sum(b) }

  method TwosComp8(b: Bytes) returns (s: bv8)
    ensures s == TwosComp(b)
  {
    var sum := Sum8(b);
    s := 0 - sum;
  }

  method Xor8(b: Bytes) returns (x: bv8)
    ensures x == Xor(b)
  {
    x := 0;
    for i := 0 to |b|
      invariant x == Xor(b[..i])
    {
      assert b[..i + 1][..i] == b[..i];
      x := x ^ b[i];
    }
    assert b[..|b|] == b;
  }

  lemma SumSnoc(b: Bytes, x: bv8)
    ensures Sum(b + [x]) == Add8(Sum(b), x)
  {
    assert (b + [x])[..|b|] == b;
  }

  lemma SumOne(x: bv8)
    ensures Sum([]) == 0 && Sum([x]) == x
  {
    assert [x][..0] == [];
  }

  /** The byte sum is additive over concatenation, and the sum of one byte is the byte: this is all there is to it. */
  lemma {:induction false} SumAdds(a: Bytes, b: Bytes, x: bv8)
    ensures Sum(a + b) == Add8(Sum(a), Sum(b)) && Sum([x]) == x
    decreases |b|
  {
    hide Sum, Add8;
    SumOne(x);
    if b == [] {
      assert a + b == a;
      SumsRegroup(Sum(a), 0, 0);
    } else {
      var init, last := b[..|b| - 1], b[|b| - 1];
      SumAdds(a, init, x);
      assert a + b == (a + init) + [last] && b == init + [last];
      SumSnoc(a + init, last);
      SumSnoc(init, last);
      SumsRegroup(Sum(a), Sum(init), last);
    }
  }

  lemma SumsRegroup(a: bv8, b: bv8, c: bv8)
    ensures Add8(Add8(a, b), c) == Add8(a, Add8(b, c)) && Add8(a, 0) == a && Add8(0, a) == a
  {
  }

  /** How many of the bytes have a bit of the mask set. */
  function Carrying(b: Bytes, mask: bv8): nat {
    if b == [] then 0 else Carrying(b[..|b| - 1], mask) + if b[|b| - 1] & mask != 0 then 1 else 0
  }

  /** A bit of the xor is set exactly when an odd number of bytes have it. */
  lemma {:induction false} XorIsParity(b: Bytes, mask: bv8)
    requires mask & (mask - 1) == 0
    ensures Xor(b) & mask != 0 <==> Carrying(b, mask) % 2 == 1
  {
    if b != [] {
      XorIsParity(b[..|b| - 1], mask);
      OneBit(Xor(b[..|b| - 1]), b[|b| - 1], mask);
    }
  }

  lemma OneBit(a: bv8, x: bv8, mask: bv8)
    requires mask & (mask - 1) == 0
    ensures (a ^ x) & mask != 0 <==> ((a & mask != 0) != (x & mask != 0))
  {
  }

  // ---- CRC-16 ----

  function ModbusBit(c: bv16): bv16 { if c & 1 != 0 then (c >> 1) ^ 0xA001 else c >> 1 }

  function CcittBit(c: bv16): bv16 { if c & 0x8000 != 0 then (c << 1) ^ 0x1021 else c << 1 }

  function Top(x: bv8): bv16 { (x as bv16) << 8 }

  function Bottom(x: bv8): bv16 { x as bv16 }

  /** The n-th power of two. */
  function Mask(n: nat): bv16
    requires n < 16
  {
    if n == 0 then 0x1 else if n == 1 then 0x2 else if n == 2 then 0x4 else if n == 3 then 0x8
    else if n == 4 then 0x10 else if n == 5 then 0x20 else if n == 6 then 0x40 else if n == 7 then 0x80
    else if n == 8 then 0x100 else if n == 9 then 0x200 else if n == 10 then 0x400 else if n == 11 then 0x800
    else if n == 12 then 0x1000 else if n == 13 then 0x2000 else if n == 14 then 0x4000
    else 0x8000
  }

  predicate Has(c: bv16, n: nat)
    requires n < 16
  {
    c & Mask(n) != 0
  }

  /** A CRC register: how a byte enters it, and its step per bit. */
  datatype Crc = Modbus | Ccitt {
    function Lane(x: bv8): bv16 { if Modbus? then Bottom(x) else Top(x) }

    function Enter(c: bv16, x: bv8): bv16 { c ^ Lane(x) }

    function Bit(c: bv16): bv16 { if Modbus? then ModbusBit(c) else CcittBit(c) }

    function Bits(c: bv16, n: nat): bv16 { if n == 0 then c else Bit(Bits(c, n - 1)) }

    function Byte(c: bv16, x: bv8): bv16 { Bits(Enter(c, x), 8) }

    function Of(b: Bytes): bv16 { if b == [] then 0xFFFF else Byte(Of(b[..|b| - 1]), b[|b| - 1]) }

    // The checksum as published: bits sent in order, a divisor, and a remainder.

    /** x^16 + x^15 + x^2 + 1 and x^16 + x^12 + x^5 + 1. */
    ghost function Divisor(): (g: Poly)
      ensures |g| == 17 && g[0]
    {
      WithPowers(16, if Modbus? then {16, 15, 2, 0} else {16, 12, 5, 0})
    }

    /** Modbus takes the low bit of a byte for the highest power, CCITT the high bit, and so do their registers. */
    function ByteBits(x: bv8): (v: Poly)
      ensures |v| == 8
    {
      seq(8, i requires 0 <= i < 8 => Has(Bottom(x), if Modbus? then i else 7 - i))
    }

    function Coefficients(c: bv16): (r: Poly)
      ensures |r| == 16
    {
      seq(16, i requires 0 <= i < 16 => Has(c, if Modbus? then i else 15 - i))
    }

    function MessageBits(b: Bytes): Poly { if b == [] then [] else MessageBits(b[..|b| - 1]) + ByteBits(b[|b| - 1]) }

    /** The message with 16 zeros appended and its first 16 bits inverted. */
    function Dividend(b: Bytes): Poly {
      var m := MessageBits(b);
      Plus(Ones(16) + Zeros(|m|), m + Zeros(16))
    }

    /** The 16-bit number that is the CRC of a message. */
    ghost predicate IsCrc(b: Bytes, c: bv16) { IsRemainder(Dividend(b), Divisor(), Coefficients(c)) }
  }

  // ---- The register divides ----

  lemma Single(n: nat)
    requires n < 16
    ensures Mask(n) != 0 && Mask(n) & (Mask(n) - 1) == 0
  {
  }

  lemma SingleXor(c: bv16, d: bv16, m: bv16)
    requires m != 0 && m & (m - 1) == 0
    ensures (c ^ d) & m != 0 <==> ((c & m != 0) != (d & m != 0))
  {
  }

  lemma HasXor(c: bv16, d: bv16, n: nat)
    requires n < 16
    ensures Has(c ^ d, n) == (Has(c, n) != Has(d, n))
  {
    Single(n);
    hide Mask;
    SingleXor(c, d, Mask(n));
  }

  lemma XorAdds(k: Crc, c: bv16, d: bv16)
    ensures k.Coefficients(c ^ d) == Plus(k.Coefficients(c), k.Coefficients(d))
  {
    hide Has;
    forall i: nat | i < 16 ensures Has(c ^ d, i) == (Has(c, i) != Has(d, i)) { HasXor(c, d, i); }
  }

  lemma NextMask(n: nat)
    requires 0 < n < 16
    ensures Mask(n) == Up(Mask(n - 1)) && Down(Mask(n)) == Mask(n - 1)
  {
  }

  lemma EndMasks()
    ensures Mask(0) == 1 && Mask(15) == 0x8000
  {
  }

  function Up(c: bv16): bv16 { c << 1 }

  function Down(c: bv16): bv16 { c >> 1 }

  lemma MovesUp(c: bv16, m: bv16, w: bv16)
    ensures w == Up(m) && m == Down(w) ==> (Up(c) & w == 0 <==> c & m == 0)
  {
  }

  lemma MovesDown(c: bv16, m: bv16, w: bv16)
    ensures w == Up(m) && m == Down(w) ==> (Down(c) & m == 0 <==> c & w == 0)
  {
  }

  lemma MaskMovesUp(c: bv16, n: nat)
    requires 0 < n < 16
    ensures Up(c) & Mask(n) == 0 <==> c & Mask(n - 1) == 0
  {
    NextMask(n);
    hide *;
    MovesUp(c, Mask(n - 1), Mask(n));
  }

  lemma MaskMovesDown(c: bv16, n: nat)
    requires n < 15
    ensures Down(c) & Mask(n) == 0 <==> c & Mask(n + 1) == 0
  {
    NextMask(n + 1);
    hide *;
    MovesDown(c, Mask(n), Mask(n + 1));
  }

  lemma Emptied(c: bv16)
    ensures Up(c) & Mask(0) == 0 && Down(c) & Mask(15) == 0
  {
    EndMasks();
    hide Mask;
  }

  lemma HasUp(c: bv16, n: nat)
    requires n < 16
    ensures Has(Up(c), n) == (n > 0 && Has(c, n - 1))
  {
    hide Mask, Up, Down;
    if n > 0 { MaskMovesUp(c, n); } else { Emptied(c); }
  }

  lemma HasDown(c: bv16, n: nat)
    requires n < 16
    ensures Has(Down(c), n) == (n < 15 && Has(c, n + 1))
  {
    hide Mask, Up, Down;
    if n < 15 { MaskMovesDown(c, n); } else { Emptied(c); }
  }

  /** A shift drops the top coefficient. */
  lemma ShiftDrops(c: bv16)
    ensures Ccitt.Coefficients(Up(c)) == Ccitt.Coefficients(c)[1..] + [false]
    ensures Modbus.Coefficients(Down(c)) == Modbus.Coefficients(c)[1..] + [false]
  {
    hide Has, Up, Down;
    var up, down := Up(c), Down(c);
    forall i: nat | i < 16 ensures Has(up, i) == (i > 0 && Has(c, i - 1)) { HasUp(c, i); }
    forall i: nat | i < 16 ensures Has(down, i) == (i < 15 && Has(c, i + 1)) { HasDown(c, i); }
  }

  lemma DivisorAt(n: nat)
    requires n < 16
    ensures Has(0x1021, n) == (n in {12, 5, 0}) && Has(0xA001, n) == (15 - n in {15, 2, 0})
  {
  }

  lemma DivisorTail()
    ensures Ccitt.Coefficients(0x1021) == Ccitt.Divisor()[1..]
    ensures Modbus.Coefficients(0xA001) == Modbus.Divisor()[1..]
  {
    hide Has;
    forall n: nat | n < 16 ensures Has(0x1021, n) == (n in {12, 5, 0}) && Has(0xA001, n) == (15 - n in {15, 2, 0}) {
      DivisorAt(n);
    }
  }

  lemma PlusZeros(p: Poly)
    ensures Plus(p, Zeros(|p|)) == p
  {
  }

  lemma TopIs(k: Crc, c: bv16)
    ensures k.Coefficients(c)[0] == Has(c, if k.Modbus? then 0 else 15)
  {
    hide Has;
  }

  lemma EndBits(c: bv16)
    ensures Has(c, 0) == (c & 1 != 0) && Has(c, 15) == (c & 0x8000 != 0)
  {
  }

  function Step(c: bv16, d: bv16, out: bool): bv16 { if out then c ^ d else c }

  /** One step of the register: shift, and add the divisor when a 1 falls out. */
  lemma BitIs(c: bv16)
    ensures Modbus.Bit(c) == Step(Down(c), 0xA001, c & 1 != 0)
    ensures Ccitt.Bit(c) == Step(Up(c), 0x1021, c & 0x8000 != 0)
  {
    ModbusBitIs(c);
    CcittBitIs(c);
    hide ModbusBit, CcittBit, Step, Up, Down;
  }

  lemma ModbusBitIs(c: bv16)
    ensures ModbusBit(c) == Step(Down(c), 0xA001, c & 1 != 0)
  {
  }

  lemma CcittBitIs(c: bv16)
    ensures CcittBit(c) == Step(Up(c), 0x1021, c & 0x8000 != 0)
  {
  }

  lemma StepAdds(k: Crc, c: bv16, d: bv16, out: bool)
    ensures k.Coefficients(Step(c, d, out)) == Plus(k.Coefficients(c), Scale(out, k.Coefficients(d)))
  {
    hide Crc.Coefficients, Plus;
    XorAdds(k, c, d);
    PlusZeros(k.Coefficients(c));
  }

  lemma BitFeeds(k: Crc, c: bv16)
    ensures k.Coefficients(k.Bit(c)) == Feed(k.Divisor(), k.Coefficients(c), false)
  {
    BitIs(c);
    TopIs(k, c);
    EndBits(c);
    ShiftDrops(c);
    DivisorTail();
    hide Crc.Divisor, Plus, Scale, Crc.Coefficients, Crc.Bit, Has, Step, Up, Down;
    if k.Modbus? {
      StepAdds(k, Down(c), 0xA001, k.Coefficients(c)[0]);
    } else {
      StepAdds(k, Up(c), 0x1021, k.Coefficients(c)[0]);
    }
  }

  lemma EnterAdds(k: Crc, c: bv16, x: bv8)
    ensures k.Coefficients(k.Enter(c, x)) == Plus(k.Coefficients(c), k.ByteBits(x) + Zeros(8))
  {
    LaneBits(k, x);
    hide Crc.Coefficients, Crc.Lane, Crc.ByteBits;
    XorAdds(k, c, k.Lane(x));
  }

  lemma MaskUp(n: nat)
    requires n < 8
    ensures Mask(n + 8) == Mask(n) << 8 && Mask(n) & 0xFF00 == 0
  {
  }

  lemma LaneMask(b: bv16, m: bv16)
    requires b & 0xFF00 == 0 && m & 0xFF00 == 0
    ensures b & (m << 8) == 0 && (b << 8) & m == 0
    ensures (b << 8) & (m << 8) == 0 <==> b & m == 0
  {
  }

  lemma LaneHas(x: bv8, n: nat)
    requires n < 8
    ensures Has(Top(x), n + 8) == Has(Bottom(x), n) && !Has(Top(x), n) && !Has(Bottom(x), n + 8)
  {
    MaskUp(n);
    LowByte(x);
    hide Mask;
    LaneMask(Bottom(x), Mask(n));
  }

  lemma LaneBits(k: Crc, x: bv8)
    ensures k.Coefficients(k.Lane(x)) == k.ByteBits(x) + Zeros(8)
  {
    hide Has, Top, Bottom;
    forall n: nat | n < 8 ensures Has(Bottom(x), n) == Has(Top(x), n + 8) { LaneHas(x, n); }
    forall n: nat | n < 8 ensures !Has(Top(x), n) { LaneHas(x, n); }
    forall n: nat | 8 <= n < 16 ensures !Has(Bottom(x), n) { LaneHas(x, n - 8); }
  }

  lemma {:induction false} BitsFeed(k: Crc, c: bv16, n: nat)
    ensures k.Coefficients(k.Bits(c, n)) == FeedAll(k.Divisor(), k.Coefficients(c), Zeros(n))
  {
    hide Crc.Coefficients, Crc.Divisor, Crc.Bit;
    if n > 0 {
      BitsFeed(k, c, n - 1);
      var d := k.Bits(c, n - 1);
      BitFeeds(k, d);
      assert Zeros(n) == Zeros(n - 1) + [false];
      FeedConcat(k.Divisor(), k.Coefficients(c), Zeros(n - 1), [false]);
    }
  }

  /** A byte entered at once and shifted eight times is its eight bits fed one by one. */
  lemma ByteFeeds(k: Crc, c: bv16, x: bv8)
    ensures k.Coefficients(k.Byte(c, x)) == FeedAll(k.Divisor(), k.Coefficients(c), k.ByteBits(x))
  {
    hide Crc.Coefficients, Crc.Divisor, Crc.Enter, Crc.Bits;
    EnterAdds(k, c, x);
    BitsFeed(k, k.Enter(c, x), 8);
    FeedAtOnce(k.Divisor(), k.Coefficients(c), k.ByteBits(x));
  }

  lemma {:induction false} OfFeeds(k: Crc, b: Bytes)
    ensures k.Coefficients(k.Of(b)) == FeedAll(k.Divisor(), Ones(16), k.MessageBits(b))
  {
    if b == [] {
      assert k.Coefficients(0xFFFF) == Ones(16);
    } else {
      var c, init := k.Of(b[..|b| - 1]), b[..|b| - 1];
      hide Crc.Coefficients, Crc.Divisor, Crc.Byte, Crc.ByteBits;
      OfFeeds(k, init);
      ByteFeeds(k, c, b[|b| - 1]);
      FeedConcat(k.Divisor(), Ones(16), k.MessageBits(init), k.ByteBits(b[|b| - 1]));
    }
  }

  lemma SameCoefficients(k: Crc, c: bv16, d: bv16)
    requires k.Coefficients(c) == k.Coefficients(d)
    ensures c == d
  {
    var x := c ^ d;
    forall n: nat | n < 16 ensures !Has(x, n) {
      HasXor(c, d, n);
      hide Has;
      var i := if k.Modbus? then n else 15 - n;
      assert k.Coefficients(c)[i] == k.Coefficients(d)[i];
    }
    NothingSet(x);
    XorZero(c, d);
  }

  lemma NothingSet(x: bv16)
    requires forall n: nat | n < 16 :: !Has(x, n)
    ensures x == 0
  {
    LowNibble(x, 0);
    LowNibble(x, 4);
    LowNibble(x, 8);
    LowNibble(x, 12);
    hide Has;
    Nibbles(x);
  }

  lemma LowNibble(x: bv16, n: nat)
    requires n in {0, 4, 8, 12} && !Has(x, n) && !Has(x, n + 1) && !Has(x, n + 2) && !Has(x, n + 3)
    ensures n == 0 ==> x & 0xF == 0
    ensures n == 4 ==> x & 0xF0 == 0
    ensures n == 8 ==> x & 0xF00 == 0
    ensures n == 12 ==> x & 0xF000 == 0
  {
  }

  lemma Nibbles(x: bv16)
    requires x & 0xF == 0 && x & 0xF0 == 0 && x & 0xF00 == 0 && x & 0xF000 == 0
    ensures x == 0
  {
  }

  /** The register is the CRC, and nothing else is. */
  lemma OfIsCrc(k: Crc, b: Bytes, c: bv16)
    ensures k.IsCrc(b, c) <==> c == k.Of(b)
  {
    hide Crc.Coefficients, Crc.Divisor, Crc.Of, Crc.MessageBits;
    OfFeeds(k, b);
    var q := FeedDivides(k.Divisor(), Ones(16), k.MessageBits(b));
    if k.IsCrc(b, c) {
      var v :| |v| + 16 == |k.Dividend(b)| && k.Dividend(b) == Plus(Times(v, k.Divisor()), Zeros(|v|) + k.Coefficients(c));
      RemainderUnique(v, q, k.Divisor(), k.Coefficients(c), k.Coefficients(k.Of(b)));
      SameCoefficients(k, c, k.Of(b));
    }
  }

  method Crc16(k: Crc, b: Bytes) returns (crc: bv16)
    ensures crc == k.Of(b)
    ensures forall c :: k.IsCrc(b, c) <==> c == crc
  {
    forall c ensures k.IsCrc(b, c) <==> c == k.Of(b) { OfIsCrc(k, b, c); }
    hide Crc.IsCrc;
    crc := 0xFFFF;
    for i := 0 to |b|
      invariant crc == k.Of(b[..i])
    {
      assert b[..i + 1][..i] == b[..i];
      crc := k.Enter(crc, b[i]);
      ghost var entered := crc;
      for j := 0 to 8
        invariant crc == k.Bits(entered, j)
      {
        crc := k.Bit(crc);
      }
    }
    assert b[..|b|] == b;
  }

  /** "123456789". */
  const NINE: Bytes := [0x31, 0x32, 0x33, 0x34, 0x35, 0x36, 0x37, 0x38, 0x39]

  lemma EightBits(k: Crc, c: bv16)
    ensures k.Bits(c, 8) == k.Bit(k.Bit(k.Bit(k.Bit(k.Bit(k.Bit(k.Bit(k.Bit(c))))))))
  {
    hide Crc.Bit;
    assert k.Bits(c, 0) == c && k.Bits(c, 2) == k.Bit(k.Bit(k.Bits(c, 0)));
    assert k.Bits(c, 4) == k.Bit(k.Bit(k.Bits(c, 2)));
    assert k.Bits(c, 6) == k.Bit(k.Bit(k.Bits(c, 4)));
    assert k.Bits(c, 8) == k.Bit(k.Bit(k.Bits(c, 6)));
  }

  lemma NinePrefix(k: Crc, n: nat)
    requires n < 9
    ensures k.Of(NINE[..n + 1]) == k.Byte(k.Of(NINE[..n]), NINE[n])
  {
    assert NINE[..n + 1][..n] == NINE[..n];
  }

  /** The published check values of both algorithms. */
  lemma CheckValues()
    ensures Modbus.Of(NINE) == 0x4B37 && Ccitt.Of(NINE) == 0x29B1
  {
    assert NINE[..9] == NINE;
    NineModbus();
    NineCcitt();
  }

  lemma FiveModbus()
    ensures Modbus.Of(NINE[..5]) == 0xA471
  {
    assert Modbus.Of(NINE[..0]) == 0xFFFF;
    hide Crc.Of, Crc.Byte;
    NinePrefix(Modbus, 0);
    ModbusStep0();
    NinePrefix(Modbus, 1);
    ModbusStep1();
    NinePrefix(Modbus, 2);
    ModbusStep2();
    NinePrefix(Modbus, 3);
    ModbusStep3();
    NinePrefix(Modbus, 4);
    ModbusStep4();
  }

  lemma NineModbus()
    ensures Modbus.Of(NINE[..9]) == 0x4B37
  {
    FiveModbus();
    hide Crc.Of, Crc.Byte;
    NinePrefix(Modbus, 5);
    ModbusStep5();
    NinePrefix(Modbus, 6);
    ModbusStep6();
    NinePrefix(Modbus, 7);
    ModbusStep7();
    NinePrefix(Modbus, 8);
    ModbusStep8();
  }

  lemma ModbusStep0()
    ensures Modbus.Byte(0xFFFF, 0x31) == 0x947E
  {
    EightBits(Modbus, Modbus.Enter(0xFFFF, 0x31));
  }

  lemma ModbusStep1()
    ensures Modbus.Byte(0x947E, 0x32) == 0xF595
  {
    EightBits(Modbus, Modbus.Enter(0x947E, 0x32));
  }

  lemma ModbusStep2()
    ensures Modbus.Byte(0xF595, 0x33) == 0x7A75
  {
    EightBits(Modbus, Modbus.Enter(0xF595, 0x33));
  }

  lemma ModbusStep3()
    ensures Modbus.Byte(0x7A75, 0x34) == 0x30BA
  {
    EightBits(Modbus, Modbus.Enter(0x7A75, 0x34));
  }

  lemma ModbusStep4()
    ensures Modbus.Byte(0x30BA, 0x35) == 0xA471
  {
    EightBits(Modbus, Modbus.Enter(0x30BA, 0x35));
  }

  lemma ModbusStep5()
    ensures Modbus.Byte(0xA471, 0x36) == 0x32E4
  {
    EightBits(Modbus, Modbus.Enter(0xA471, 0x36));
  }

  lemma ModbusStep6()
    ensures Modbus.Byte(0x32E4, 0x37) == 0x9D73
  {
    EightBits(Modbus, Modbus.Enter(0x32E4, 0x37));
  }

  lemma ModbusStep7()
    ensures Modbus.Byte(0x9D73, 0x38) == 0x37DD
  {
    EightBits(Modbus, Modbus.Enter(0x9D73, 0x38));
  }

  lemma ModbusStep8()
    ensures Modbus.Byte(0x37DD, 0x39) == 0x4B37
  {
    EightBits(Modbus, Modbus.Enter(0x37DD, 0x39));
  }

  lemma FiveCcitt()
    ensures Ccitt.Of(NINE[..5]) == 0x4560
  {
    assert Ccitt.Of(NINE[..0]) == 0xFFFF;
    hide Crc.Of, Crc.Byte;
    NinePrefix(Ccitt, 0);
    CcittStep0();
    NinePrefix(Ccitt, 1);
    CcittStep1();
    NinePrefix(Ccitt, 2);
    CcittStep2();
    NinePrefix(Ccitt, 3);
    CcittStep3();
    NinePrefix(Ccitt, 4);
    CcittStep4();
  }

  lemma NineCcitt()
    ensures Ccitt.Of(NINE[..9]) == 0x29B1
  {
    FiveCcitt();
    hide Crc.Of, Crc.Byte;
    NinePrefix(Ccitt, 5);
    CcittStep5();
    NinePrefix(Ccitt, 6);
    CcittStep6();
    NinePrefix(Ccitt, 7);
    CcittStep7();
    NinePrefix(Ccitt, 8);
    CcittStep8();
  }

  lemma CcittStep0()
    ensures Ccitt.Byte(0xFFFF, 0x31) == 0xC782
  {
    EightBits(Ccitt, Ccitt.Enter(0xFFFF, 0x31));
  }

  lemma CcittStep1()
    ensures Ccitt.Byte(0xC782, 0x32) == 0x3DBA
  {
    EightBits(Ccitt, Ccitt.Enter(0xC782, 0x32));
  }

  lemma CcittStep2()
    ensures Ccitt.Byte(0x3DBA, 0x33) == 0x5BCE
  {
    EightBits(Ccitt, Ccitt.Enter(0x3DBA, 0x33));
  }

  lemma CcittStep3()
    ensures Ccitt.Byte(0x5BCE, 0x34) == 0x5349
  {
    EightBits(Ccitt, Ccitt.Enter(0x5BCE, 0x34));
  }

  lemma CcittStep4()
    ensures Ccitt.Byte(0x5349, 0x35) == 0x4560
  {
    EightBits(Ccitt, Ccitt.Enter(0x5349, 0x35));
  }

  lemma CcittStep5()
    ensures Ccitt.Byte(0x4560, 0x36) == 0x2EF4
  {
    EightBits(Ccitt, Ccitt.Enter(0x4560, 0x36));
  }

  lemma CcittStep6()
    ensures Ccitt.Byte(0x2EF4, 0x37) == 0x7718
  {
    EightBits(Ccitt, Ccitt.Enter(0x2EF4, 0x37));
  }

  lemma CcittStep7()
    ensures Ccitt.Byte(0x7718, 0x38) == 0xA12B
  {
    EightBits(Ccitt, Ccitt.Enter(0x7718, 0x38));
  }

  lemma CcittStep8()
    ensures Ccitt.Byte(0xA12B, 0x39) == 0x29B1
  {
    EightBits(Ccitt, Ccitt.Enter(0xA12B, 0x39));
  }

  /** The bit shifted out can be read off the result: the steps can be undone. */
  function ModbusUndo(r: bv16): bv16 { if r & 0x8000 != 0 then ((r ^ 0xA001) << 1) | 1 else r << 1 }

  function CcittUndo(r: bv16): bv16 { if r & 1 != 0 then ((r ^ 0x1021) >> 1) | 0x8000 else r >> 1 }

  lemma ModbusUndone(c: bv16)
    ensures ModbusUndo(ModbusBit(c)) == c
  {
  }

  lemma CcittUndone(c: bv16)
    ensures CcittUndo(CcittBit(c)) == c
  {
    hide CcittBit, CcittUndo;
    if c & 0x8000 != 0 { CcittHighUndone(c); } else { CcittLowUndone(c); }
  }

  lemma CcittHighUndone(c: bv16)
    requires c & 0x8000 != 0
    ensures CcittUndo(CcittBit(c)) == c
  {
    HighBitBack(c);
  }

  lemma CcittLowUndone(c: bv16)
    requires c & 0x8000 == 0
    ensures CcittUndo(CcittBit(c)) == c
  {
    NoHighBit(c);
  }

  lemma HighBitBack(c: bv16)
    requires c & 0x8000 != 0
    ensures ((c << 1) ^ 0x1021) & 1 != 0 && ((((c << 1) ^ 0x1021) ^ 0x1021) >> 1) | 0x8000 == c
  {
  }

  lemma NoHighBit(c: bv16)
    requires c & 0x8000 == 0
    ensures (c << 1) & 1 == 0 && (c << 1) >> 1 == c
  {
  }

  lemma BitInjective(k: Crc, c: bv16, d: bv16)
    requires k.Bit(c) == k.Bit(d)
    ensures c == d
  {
    hide ModbusBit, CcittBit, ModbusUndo, CcittUndo;
    if k.Modbus? {
      ModbusUndone(c);
      ModbusUndone(d);
    } else {
      CcittUndone(c);
      CcittUndone(d);
    }
  }

  lemma {:induction false} BitsInjective(k: Crc, c: bv16, d: bv16, n: nat)
    requires k.Bits(c, n) == k.Bits(d, n)
    ensures c == d
  {
    if n > 0 {
      BitInjective(k, k.Bits(c, n - 1), k.Bits(d, n - 1));
      BitsInjective(k, c, d, n - 1);
    }
  }

  // ---- What a register becomes when its own bytes are fed to it ----

  lemma EvenBit(c: bv16)
    requires c & 1 == 0
    ensures Modbus.Bit(c) == c >> 1
  {
  }

  lemma LowBit(c: bv16)
    requires c & 0x8000 == 0
    ensures Ccitt.Bit(c) == c << 1
  {
  }

  lemma ShiftsDown(x: bv16)
    requires x & 0xFF00 == 0
    ensures (x << 8) & 1 == 0 && (x << 8) >> 1 == x << 7
    ensures (x << 7) & 1 == 0 && (x << 7) >> 1 == x << 6
    ensures (x << 6) & 1 == 0 && (x << 6) >> 1 == x << 5
    ensures (x << 5) & 1 == 0 && (x << 5) >> 1 == x << 4
    ensures (x << 4) & 1 == 0 && (x << 4) >> 1 == x << 3
    ensures (x << 3) & 1 == 0 && (x << 3) >> 1 == x << 2
    ensures (x << 2) & 1 == 0 && (x << 2) >> 1 == x << 1
    ensures (x << 1) & 1 == 0 && (x << 1) >> 1 == x << 0
    ensures x << 0 == x
  {
  }

  lemma ShiftsUp(x: bv16)
    requires x & 0xFF00 == 0
    ensures (x << 0) & 0x8000 == 0 && (x << 0) << 1 == x << 1
    ensures (x << 1) & 0x8000 == 0 && (x << 1) << 1 == x << 2
    ensures (x << 2) & 0x8000 == 0 && (x << 2) << 1 == x << 3
    ensures (x << 3) & 0x8000 == 0 && (x << 3) << 1 == x << 4
    ensures (x << 4) & 0x8000 == 0 && (x << 4) << 1 == x << 5
    ensures (x << 5) & 0x8000 == 0 && (x << 5) << 1 == x << 6
    ensures (x << 6) & 0x8000 == 0 && (x << 6) << 1 == x << 7
    ensures (x << 7) & 0x8000 == 0 && (x << 7) << 1 == x << 8
    ensures x << 0 == x
  {
  }

  /** One more step, when the bit shifted out is clear. */
  lemma ModbusStep(c: bv16, n: nat, y: bv16)
    requires Modbus.Bits(c, n) == y && y & 1 == 0
    ensures Modbus.Bits(c, n + 1) == y >> 1
  {
    EvenBit(y);
  }

  lemma CcittStep(c: bv16, n: nat, y: bv16)
    requires Ccitt.Bits(c, n) == y && y & 0x8000 == 0
    ensures Ccitt.Bits(c, n + 1) == y << 1
  {
    LowBit(y);
  }

  lemma ModbusHalfDown(x: bv16)
    requires x & 0xFF00 == 0
    ensures Modbus.Bits(x << 8, 4) == x << 4
  {
    assert Modbus.Bits(x << 8, 0) == x << 8;
    hide *;
    ShiftsDown(x);
    ModbusStep(x << 8, 0, x << 8);
    ModbusStep(x << 8, 1, x << 7);
    ModbusStep(x << 8, 2, x << 6);
    ModbusStep(x << 8, 3, x << 5);
  }

  /** Eight steps move a byte from the top of the Modbus register to its bottom, */
  lemma ModbusDown(x: bv16)
    requires x & 0xFF00 == 0
    ensures Modbus.Bits(x << 8, 8) == x
  {
    hide *;
    ShiftsDown(x);
    ModbusHalfDown(x);
    ModbusStep(x << 8, 4, x << 4);
    ModbusStep(x << 8, 5, x << 3);
    ModbusStep(x << 8, 6, x << 2);
    ModbusStep(x << 8, 7, x << 1);
  }

  lemma CcittHalfUp(x: bv16)
    requires x & 0xFF00 == 0
    ensures Ccitt.Bits(x, 4) == x << 4
  {
    assert Ccitt.Bits(x, 0) == x;
    hide *;
    ShiftsUp(x);
    CcittStep(x, 0, x << 0);
    CcittStep(x, 1, x << 1);
    CcittStep(x, 2, x << 2);
    CcittStep(x, 3, x << 3);
  }

  /** and from the bottom of the CCITT register to its top. */
  lemma CcittUp(x: bv16)
    requires x & 0xFF00 == 0
    ensures Ccitt.Bits(x, 8) == x << 8
  {
    hide *;
    ShiftsUp(x);
    CcittHalfUp(x);
    CcittStep(x, 4, x << 4);
    CcittStep(x, 5, x << 5);
    CcittStep(x, 6, x << 6);
    CcittStep(x, 7, x << 7);
  }

  function Word(hi: bv8, lo: bv8): bv16 { Top(hi) | Bottom(lo) }

  lemma Moves(x: bv8)
    ensures Modbus.Bits(Top(x), 8) == Bottom(x) && Ccitt.Bits(Bottom(x), 8) == Top(x)
  {
    hide Crc.Bits;
    LowByte(x);
    ModbusDown(x as bv16);
    CcittUp(x as bv16);
  }

  lemma LowByte(x: bv8)
    ensures (x as bv16) & 0xFF00 == 0
  {
  }

  lemma ZeroStays(k: Crc)
    ensures k.Bits(0, 8) == 0
  {
    hide Crc.Bits;
    if k.Modbus? { ModbusDown(0); } else { CcittUp(0); }
  }

  // What enters the register, one direction at a time.

  lemma ModbusEnters(hi: bv8, lo: bv8)
    ensures Modbus.Enter(Word(hi, lo), lo) == Top(hi)
  {
  }

  lemma ModbusEntered(c: bv16, hi: bv8, lo: bv8)
    requires Modbus.Enter(c, lo) == Top(hi)
    ensures c == Word(hi, lo)
  {
  }

  lemma CcittEnters(hi: bv8, lo: bv8)
    ensures Ccitt.Enter(Word(hi, lo), hi) == Bottom(lo)
  {
  }

  lemma CcittEntered(c: bv16, hi: bv8, lo: bv8)
    requires Ccitt.Enter(c, hi) == Bottom(lo)
    ensures c == Word(hi, lo)
  {
  }

  lemma XorSelf(c: bv16)
    ensures c ^ c == 0
  {
  }

  lemma XorZero(c: bv16, d: bv16)
    requires c ^ d == 0
    ensures c == d
  {
  }

  /** The register is zero after a byte exactly when the byte cancelled it. */
  lemma ZeroAfter(k: Crc, c: bv16, x: bv8)
    ensures k.Byte(c, x) == 0 <==> c == k.Lane(x)
  {
    hide Crc.Bits, Crc.Lane, Crc.Enter;
    ZeroStays(k);
    LaneCancels(k, x);
    if k.Byte(c, x) == 0 {
      BitsInjective(k, k.Enter(c, x), 0, 8);
      LaneCancelled(k, c, x);
    }
  }

  lemma LaneCancels(k: Crc, x: bv8)
    ensures k.Enter(k.Lane(x), x) == 0
  {
    hide Crc.Lane;
    XorSelf(k.Lane(x));
  }

  lemma LaneCancelled(k: Crc, c: bv16, x: bv8)
    requires k.Enter(c, x) == 0
    ensures c == k.Lane(x)
  {
    hide Crc.Lane;
    XorZero(c, k.Lane(x));
  }

  lemma ModbusByte(c: bv16, lo: bv8, hi: bv8)
    ensures Modbus.Byte(c, lo) == Bottom(hi) <==> c == Word(hi, lo)
  {
    hide Crc.Bits, Crc.Enter, Word, Top, Bottom;
    Moves(hi);
    ModbusEnters(hi, lo);
    if Modbus.Byte(c, lo) == Bottom(hi) {
      BitsInjective(Modbus, Modbus.Enter(c, lo), Top(hi), 8);
      ModbusEntered(c, hi, lo);
    }
  }

  lemma CcittByte(c: bv16, hi: bv8, lo: bv8)
    ensures Ccitt.Byte(c, hi) == Top(lo) <==> c == Word(hi, lo)
  {
    hide Crc.Bits, Crc.Enter, Word, Top, Bottom;
    Moves(lo);
    CcittEnters(hi, lo);
    if Ccitt.Byte(c, hi) == Top(lo) {
      BitsInjective(Ccitt, Ccitt.Enter(c, hi), Bottom(lo), 8);
      CcittEntered(c, hi, lo);
    }
  }

  /** Feeding two more bytes leaves zero exactly when they are the register, in the byte order of the algorithm. */
  lemma ModbusResidue(c: bv16, lo: bv8, hi: bv8)
    ensures Modbus.Byte(Modbus.Byte(c, lo), hi) == 0 <==> c == Word(hi, lo)
  {
    hide Crc.Byte, Word, Top, Bottom;
    ModbusByte(c, lo, hi);
    ZeroAfter(Modbus, Modbus.Byte(c, lo), hi);
  }

  lemma CcittResidue(c: bv16, hi: bv8, lo: bv8)
    ensures Ccitt.Byte(Ccitt.Byte(c, hi), lo) == 0 <==> c == Word(hi, lo)
  {
    hide Crc.Byte, Word, Top, Bottom;
    CcittByte(c, hi, lo);
    ZeroAfter(Ccitt, Ccitt.Byte(c, hi), lo);
  }

  // ---- The tests over frames ----

  predicate OneByteHit(fn: Bytes -> bv8, skip: nat, fr: Bytes) {
    |fr| > skip + 1 && fn(fr[skip..|fr| - 1]) == fr[|fr| - 1]
  }

  predicate TwoByteHit(fn: Bytes -> bv16, littleEndian: bool, skip: nat, fr: Bytes) {
    |fr| >= skip + 3
    && fn(fr[skip..|fr| - 2]) == if littleEndian then Word(fr[|fr| - 1], fr[|fr| - 2]) else Word(fr[|fr| - 2], fr[|fr| - 1])
  }

  /** How many frames satisfy a test. */
  function Count(frames: seq<Bytes>, p: Bytes -> bool): nat {
    if frames == [] then 0 else Count(frames[..|frames| - 1], p) + if p(frames[|frames| - 1]) then 1 else 0
  }

  method TestOneByte(frames: seq<Bytes>, fn: Bytes -> bv8, skip: nat) returns (used: nat, hits: nat)
    ensures used == Count(frames, fr => |fr| > skip + 1) && hits == Count(frames, fr => OneByteHit(fn, skip, fr))
  {
    used, hits := 0, 0;
    ghost var u: Bytes -> bool, h: Bytes -> bool := fr => |fr| > skip + 1, fr => OneByteHit(fn, skip, fr);
    for i := 0 to |frames|
      invariant used == Count(frames[..i], u) && hits == Count(frames[..i], h)
    {
      var fr := frames[i];
      assert frames[..i + 1][..i] == frames[..i];
      if |fr| > skip + 1 {
        used := used + 1;
        if fn(fr[skip..|fr| - 1]) == fr[|fr| - 1] { hits := hits + 1; }
      }
    }
    assert frames[..|frames|] == frames;
  }

  method TestTwoByte(frames: seq<Bytes>, fn: Bytes -> bv16, littleEndian: bool, skip: nat) returns (used: nat, hits: nat)
    ensures used == Count(frames, fr => |fr| >= skip + 3) && hits == Count(frames, fr => TwoByteHit(fn, littleEndian, skip, fr))
  {
    hide Word;
    used, hits := 0, 0;
    ghost var u: Bytes -> bool, h: Bytes -> bool := fr => |fr| >= skip + 3, fr => TwoByteHit(fn, littleEndian, skip, fr);
    for i := 0 to |frames|
      invariant used == Count(frames[..i], u) && hits == Count(frames[..i], h)
    {
      var fr := frames[i];
      assert frames[..i + 1][..i] == frames[..i];
      if |fr| < skip + 3 { continue; }
      used := used + 1;
      var hi, lo := fr[|fr| - 2], fr[|fr| - 1];
      var want := if littleEndian then Word(lo, hi) else Word(hi, lo);
      if fn(fr[skip..|fr| - 2]) == want { hits := hits + 1; }
    }
    assert frames[..|frames|] == frames;
  }

  /** A test that implies another counts no more frames, and equally many exactly when every frame of the wider test passes
      the narrower one. */
  lemma {:induction false} CountAll(frames: seq<Bytes>, u: Bytes -> bool, h: Bytes -> bool)
    requires forall fr :: h(fr) ==> u(fr)
    ensures Count(frames, h) <= Count(frames, u)
    ensures Count(frames, h) == Count(frames, u) <==> forall fr :: fr in frames && u(fr) ==> h(fr)
  {
    if frames != [] {
      var init := frames[..|frames| - 1];
      CountAll(init, u, h);
      assert frames == init + [frames[|frames| - 1]];
    }
  }

  // ---- Every test is a residue test ----

  lemma SumIsResidue(fr: Bytes, skip: nat)
    requires |fr| > skip + 1
    ensures OneByteHit(TwosComp, skip, fr) <==> Sum(fr[skip..]) == 0
  {
    var all := fr[skip..];
    assert all[..|all| - 1] == fr[skip..|fr| - 1];
  }

  lemma XorIsResidue(fr: Bytes, skip: nat)
    requires |fr| > skip + 1
    ensures OneByteHit(Xor, skip, fr) <==> Xor(fr[skip..]) == 0
  {
    var all := fr[skip..];
    assert all[..|all| - 1] == fr[skip..|fr| - 1];
  }

  lemma OfTwoMore(k: Crc, b: Bytes)
    requires |b| >= 2
    ensures k.Of(b) == k.Byte(k.Byte(k.Of(b[..|b| - 2]), b[|b| - 2]), b[|b| - 1])
  {
    assert b[..|b| - 1][..|b| - 2] == b[..|b| - 2];
  }

  /** The little-endian Modbus test hits exactly when the CRC of everything, stored bytes included, is zero, */
  lemma ModbusIsResidue(fr: Bytes, skip: nat)
    requires |fr| >= skip + 3
    ensures TwoByteHit(b => Modbus.Of(b), true, skip, fr) <==> Modbus.Of(fr[skip..]) == 0
  {
    hide Crc.Byte, Word;
    var all := fr[skip..];
    assert all[..|all| - 2] == fr[skip..|fr| - 2];
    OfTwoMore(Modbus, all);
    ModbusResidue(Modbus.Of(fr[skip..|fr| - 2]), fr[|fr| - 2], fr[|fr| - 1]);
  }

  /** and so does the big-endian CCITT test. */
  lemma CcittIsResidue(fr: Bytes, skip: nat)
    requires |fr| >= skip + 3
    ensures TwoByteHit(b => Ccitt.Of(b), false, skip, fr) <==> Ccitt.Of(fr[skip..]) == 0
  {
    hide Crc.Byte, Word;
    var all := fr[skip..];
    assert all[..|all| - 2] == fr[skip..|fr| - 2];
    OfTwoMore(Ccitt, all);
    CcittResidue(Ccitt.Of(fr[skip..|fr| - 2]), fr[|fr| - 2], fr[|fr| - 1]);
  }

  /** What is reported as a candidate. */
  predicate Candidate(used: nat, hits: nat) { used > 0 && hits == used }

  lemma {:induction false} CountSome(frames: seq<Bytes>, p: Bytes -> bool)
    ensures Count(frames, p) > 0 <==> exists fr :: fr in frames && p(fr)
  {
    if frames != [] {
      var init := frames[..|frames| - 1];
      CountSome(init, p);
      assert frames == init + [frames[|frames| - 1]];
    }
  }

  /** So an algorithm is reported as a candidate exactly when there is a useful frame and every one has residue zero. */
  lemma ModbusCandidate(frames: seq<Bytes>, skip: nat)
    ensures Candidate(Count(frames, fr => |fr| >= skip + 3), Count(frames, fr => TwoByteHit(b => Modbus.Of(b), true, skip, fr)))
            <==> (exists fr :: fr in frames && |fr| >= skip + 3)
                 && forall fr :: fr in frames && |fr| >= skip + 3 ==> Modbus.Of(fr[skip..]) == 0
  {
    hide Word;
    CountAll(frames, fr => |fr| >= skip + 3, fr => TwoByteHit(b => Modbus.Of(b), true, skip, fr));
    CountSome(frames, fr => |fr| >= skip + 3);
    forall fr: Bytes | |fr| >= skip + 3 ensures TwoByteHit(b => Modbus.Of(b), true, skip, fr) <==> Modbus.Of(fr[skip..]) == 0 {
      ModbusIsResidue(fr, skip);
    }
  }

  lemma CcittCandidate(frames: seq<Bytes>, skip: nat)
    ensures Candidate(Count(frames, fr => |fr| >= skip + 3), Count(frames, fr => TwoByteHit(b => Ccitt.Of(b), false, skip, fr)))
            <==> (exists fr :: fr in frames && |fr| >= skip + 3)
                 && forall fr :: fr in frames && |fr| >= skip + 3 ==> Ccitt.Of(fr[skip..]) == 0
  {
    hide Word;
    CountAll(frames, fr => |fr| >= skip + 3, fr => TwoByteHit(b => Ccitt.Of(b), false, skip, fr));
    CountSome(frames, fr => |fr| >= skip + 3);
    forall fr: Bytes | |fr| >= skip + 3 ensures TwoByteHit(b => Ccitt.Of(b), false, skip, fr) <==> Ccitt.Of(fr[skip..]) == 0 {
      CcittIsResidue(fr, skip);
    }
  }
}
