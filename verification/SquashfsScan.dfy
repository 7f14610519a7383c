/** The chunked scan for a SquashFS v4 superblock. */
module SquashfsScan {
  import opened Wrappers
  import opened Bytes

  const SB_SIZE: nat := 96
  const NO_TABLE: nat := 0xFFFF_FFFF_FFFF_FFFF
  const CHUNK: nat := 0x10_0000
  const OVERLAP: nat := 3

  function Pow2(n: nat): nat { if n == 0 then 1 else 2 * Pow2(n - 1) }

  /** `1<<n` in 64 bits: nothing is left of the bit from 64 on. */
  function Shl1(n: nat): nat { if n < 64 then Pow2(n) else 0 }

  predicate MagicAt(f: seq<byte>, o: nat) {
    o + 4 <= |f| && f[o] == 0x68 && f[o + 1] == 0x73 && f[o + 2] == 0x71 && f[o + 3] == 0x73
  }

  /** The superblock whose 96 bytes start at `o`. */
  datatype Superblock = Superblock(
    inodes: u32, block: u32, fragments: u32, compression: u16, log: u16, flags: u16, ids: u16, major: u16, minor: u16,
    used: u64, idTable: u64, xattr: u64, inodeTable: u64, dirTable: u64, fragTable: u64, exportTable: u64)

  function SuperblockAt(f: seq<byte>, o: nat): Superblock
    requires o + SB_SIZE <= |f|
  {
    Superblock(Le32(f, o + 4), Le32(f, o + 12), Le32(f, o + 16), Le16(f, o + 20), Le16(f, o + 22), Le16(f, o + 24),
               Le16(f, o + 26), Le16(f, o + 28), Le16(f, o + 30), Le64(f, o + 40), Le64(f, o + 48), Le64(f, o + 56),
               Le64(f, o + 64), Le64(f, o + 72), Le64(f, o + 80), Le64(f, o + 88))
  }

  predicate ValidTable(x: u64, used: u64) { x == NO_TABLE || SB_SIZE <= x < used }

  predicate Exportable(sb: Superblock) { sb.flags / 0x80 % 2 == 1 }

  function Tables(sb: Superblock): seq<u64> { [sb.idTable, sb.xattr, sb.inodeTable, sb.dirTable, sb.fragTable, sb.exportTable] }

  function Required(sb: Superblock): seq<u64> {
    [sb.idTable, sb.inodeTable, sb.dirTable]
    + (if sb.fragments != 0 then [sb.fragTable] else []) + if Exportable(sb) then [sb.exportTable] else []
  }

  /** The test of the code, which checks neither the range of `log` nor `used > 96`. */
  predicate ValidSuperblock(sb: Superblock, room: nat) {
    && sb.inodes != 0 && sb.ids != 0 && sb.major == 4 && sb.minor == 0 && 1 <= sb.compression <= 6
    && sb.block == Shl1(sb.log) && 4096 <= sb.block <= 1048576
    && sb.used <= room
    && (forall x :: x in Tables(sb) ==> ValidTable(x, sb.used))
    && forall x :: x in Required(sb) ==> x != NO_TABLE
  }

  /** A superblock as it should be: block size and its logarithm agree and lie in their ranges, the filesystem is larger
      than its superblock and ends within the file, and every table lies inside, present where it is needed. */
  predicate SoundSuperblock(sb: Superblock, room: nat) {
    && sb.inodes != 0 && sb.ids != 0 && sb.major == 4 && sb.minor == 0 && 1 <= sb.compression <= 6
    && 12 <= sb.log <= 20 && sb.block == Pow2(sb.log) && SB_SIZE < sb.used <= room
    && Inside(sb.idTable, sb, true) && Inside(sb.inodeTable, sb, true) && Inside(sb.dirTable, sb, true)
    && Inside(sb.xattr, sb, false) && Inside(sb.fragTable, sb, sb.fragments != 0) && Inside(sb.exportTable, sb, Exportable(sb))
  }

  predicate Inside(x: u64, sb: Superblock, needed: bool) { SB_SIZE <= x < sb.used || (!needed && x == NO_TABLE) }

  lemma {:induction false} Pow2Grows(a: nat, b: nat)
    requires a <= b
    ensures Pow2(a) <= Pow2(b)
  {
    if a < b { Pow2Grows(a, b - 1); }
  }

  lemma Pow2Values()
    ensures Pow2(11) == 2048 && Pow2(12) == 4096 && Pow2(20) == 1048576 && Pow2(21) == 2097152
  {
    assert Pow2(4) == 16;
    assert Pow2(8) == 256;
    assert Pow2(16) == 65536;
  }

  /** The block size bounds the logarithm: no range check of its own is needed. */
  lemma BlockBoundsLog(log: nat)
    ensures 4096 <= Shl1(log) <= 1048576 <==> 12 <= log <= 20
  {
    Pow2Values();
    if log <= 11 { Pow2Grows(log, 11); } else if log <= 20 { Pow2Grows(12, log); Pow2Grows(log, 20); } else { Pow2Grows(21, log); }
  }

  /** The test accepts exactly the sound superblocks, although it leaves two of their conditions out. */
  lemma ValidIsSound(sb: Superblock, room: nat)
    ensures ValidSuperblock(sb, room) <==> SoundSuperblock(sb, room)
  {
    BlockBoundsLog(sb.log);
    hide Shl1, Pow2;
    assert Shl1(sb.log) == Pow2(sb.log) || sb.log > 20 by { ShlIsPow2(sb.log); }
    if ValidSuperblock(sb, room) {
      ValidParts(sb, room);
    }
  }

  lemma ShlIsPow2(log: nat)
    ensures log <= 20 ==> Shl1(log) == Pow2(log)
  {
  }

  lemma ValidParts(sb: Superblock, room: nat)
    requires ValidSuperblock(sb, room)
    ensures Inside(sb.idTable, sb, true) && Inside(sb.inodeTable, sb, true) && Inside(sb.dirTable, sb, true)
    ensures Inside(sb.xattr, sb, false) && Inside(sb.fragTable, sb, sb.fragments != 0) && Inside(sb.exportTable, sb, Exportable(sb))
  {
    hide Shl1;
    var r, t := Required(sb), Tables(sb);
    assert r[0] in r && r[1] in r && r[2] in r;
    assert sb.fragments != 0 ==> r[3] == sb.fragTable && r[3] in r;
    assert Exportable(sb) ==> r[|r| - 1] == sb.exportTable && r[|r| - 1] in r;
    assert t[0] in t && t[1] in t && t[2] in t && t[3] in t && t[4] in t && t[5] in t;
    assert NO_TABLE == 0xFFFF_FFFF_FFFF_FFFF;
  }

  // ---- The scan ----

  /** A file holds a valid superblock at `o`. */
  predicate FoundAt(f: seq<byte>, o: nat) {
    MagicAt(f, o) && o + SB_SIZE <= |f| && ValidSuperblock(SuperblockAt(f, o), |f| - o)
  }

  // ---- Writing a superblock, and reading it back ----

  const MAGIC: seq<byte> := [0x68, 0x73, 0x71, 0x73]

  /** Byte `i` of a superblock as version 4.0 of the format lays it out, the two fields that the scan does not look at
      included. */
  function SuperblockByte(sb: Superblock, mtime: u32, root: u64, i: nat): byte
    requires i < SB_SIZE
  {
    if i < 4 then MAGIC[i]
    else if i < 8 then ByteOf(sb.inodes, i - 4)
    else if i < 12 then ByteOf(mtime, i - 8)
    else if i < 16 then ByteOf(sb.block, i - 12)
    else if i < 20 then ByteOf(sb.fragments, i - 16)
    else if i < 22 then ByteOf(sb.compression, i - 20)
    else if i < 24 then ByteOf(sb.log, i - 22)
    else if i < 26 then ByteOf(sb.flags, i - 24)
    else if i < 28 then ByteOf(sb.ids, i - 26)
    else if i < 30 then ByteOf(sb.major, i - 28)
    else if i < 32 then ByteOf(sb.minor, i - 30)
    else if i < 40 then ByteOf(root, i - 32)
    else if i < 48 then ByteOf(sb.used, i - 40)
    else if i < 56 then ByteOf(sb.idTable, i - 48)
    else if i < 64 then ByteOf(sb.xattr, i - 56)
    else if i < 72 then ByteOf(sb.inodeTable, i - 64)
    else if i < 80 then ByteOf(sb.dirTable, i - 72)
    else if i < 88 then ByteOf(sb.fragTable, i - 80)
    else ByteOf(sb.exportTable, i - 88)
  }

  ghost predicate Written(f: seq<byte>, o: nat, sb: Superblock, mtime: u32, root: u64) {
    o + SB_SIZE <= |f| && forall i: nat :: i < SB_SIZE ==> f[o + i] == SuperblockByte(sb, mtime, root, i)
  }

  lemma Field16(f: seq<byte>, o: nat, sb: Superblock, mtime: u32, root: u64, i: nat, n: u16)
    requires Written(f, o, sb, mtime, root) && i + 2 <= SB_SIZE
    requires forall k: nat :: k < 2 ==> SuperblockByte(sb, mtime, root, i + k) == ByteOf(n, k)
    ensures Le16(f, o + i) == n
  {
    hide ByteOf, SuperblockByte;
    forall k: nat | k < 2 ensures f[o + i + k] == ByteOf(n, k) { assert f[o + (i + k)] == SuperblockByte(sb, mtime, root, i + k); }
    assert f[o + i + 0] == ByteOf(n, 0);
    Le16Bytes(f, o + i, n);
  }

  lemma Field32(f: seq<byte>, o: nat, sb: Superblock, mtime: u32, root: u64, i: nat, n: u32)
    requires Written(f, o, sb, mtime, root) && i + 4 <= SB_SIZE
    requires forall k: nat :: k < 4 ==> SuperblockByte(sb, mtime, root, i + k) == ByteOf(n, k)
    ensures Le32(f, o + i) == n
  {
    hide ByteOf, SuperblockByte;
    forall k: nat | k < 4 ensures f[o + i + k] == ByteOf(n, k) { assert f[o + (i + k)] == SuperblockByte(sb, mtime, root, i + k); }
    assert f[o + i + 0] == ByteOf(n, 0);
    Le32Bytes(f, o + i, n);
  }

  lemma Field64(f: seq<byte>, o: nat, sb: Superblock, mtime: u32, root: u64, i: nat, n: u64)
    requires Written(f, o, sb, mtime, root) && i + 8 <= SB_SIZE
    requires forall k: nat :: k < 8 ==> SuperblockByte(sb, mtime, root, i + k) == ByteOf(n, k)
    ensures Le64(f, o + i) == n
  {
    hide ByteOf, SuperblockByte;
    forall k: nat | k < 8 ensures f[o + i + k] == ByteOf(n, k) { assert f[o + (i + k)] == SuperblockByte(sb, mtime, root, i + k); }
    Le64Bytes(f, o + i, n);
  }

  /** Every field of a superblock is read back from where it is written. */
  lemma WrittenIsRead(f: seq<byte>, o: nat, sb: Superblock, mtime: u32, root: u64)
    requires Written(f, o, sb, mtime, root)
    ensures MagicAt(f, o) && SuperblockAt(f, o) == sb
  {
    hide ByteOf, Le16, Le32, Le64;
    assert f[o + 0] == SuperblockByte(sb, mtime, root, 0) && f[o + 1] == SuperblockByte(sb, mtime, root, 1);
    assert f[o + 2] == SuperblockByte(sb, mtime, root, 2) && f[o + 3] == SuperblockByte(sb, mtime, root, 3);
    Field32(f, o, sb, mtime, root, 4, sb.inodes);
    Field32(f, o, sb, mtime, root, 12, sb.block);
    Field32(f, o, sb, mtime, root, 16, sb.fragments);
    Field16(f, o, sb, mtime, root, 20, sb.compression);
    Field16(f, o, sb, mtime, root, 22, sb.log);
    Field16(f, o, sb, mtime, root, 24, sb.flags);
    Field16(f, o, sb, mtime, root, 26, sb.ids);
    Field16(f, o, sb, mtime, root, 28, sb.major);
    Field16(f, o, sb, mtime, root, 30, sb.minor);
    Field64(f, o, sb, mtime, root, 40, sb.used);
    Field64(f, o, sb, mtime, root, 48, sb.idTable);
    Field64(f, o, sb, mtime, root, 56, sb.xattr);
    Field64(f, o, sb, mtime, root, 64, sb.inodeTable);
    Field64(f, o, sb, mtime, root, 72, sb.dirTable);
    Field64(f, o, sb, mtime, root, 80, sb.fragTable);
    Field64(f, o, sb, mtime, root, 88, sb.exportTable);
  }

  /** So the scan takes a written superblock for one exactly when it is sound. */
  lemma WrittenIsFound(f: seq<byte>, o: nat, sb: Superblock, mtime: u32, root: u64)
    requires Written(f, o, sb, mtime, root)
    ensures FoundAt(f, o) <==> SoundSuperblock(sb, |f| - o)
  {
    WrittenIsRead(f, o, sb, mtime, root);
    ValidIsSound(sb, |f| - o);
    hide Written, SuperblockAt, ValidSuperblock, SoundSuperblock, MagicAt;
  }

  /** `bytes.Index(w[from:], magic)`, as a position in `w`. */
  function Index(w: seq<byte>, from: nat): (j: Option<nat>)
    ensures j.Some? ==> from <= j.value && MagicAt(w, j.value)
    ensures forall k :: from <= k && (j.Some? ==> k < j.value) ==> !MagicAt(w, k)
    decreases |w| - from
  {
    if from + 4 > |w| then None else if MagicAt(w, from) then Some(from) else Index(w, from + 1)
  }

  /** The scan by overlapping chunks finds the smallest offset in the whole file that holds a valid superblock, and none
      only when there is none. */
  method FindSquashfsOffset(f: seq<byte>) returns (r: Option<nat>)
    ensures r.Some? ==> FoundAt(f, r.value) && forall o: nat :: o < r.value ==> !FoundAt(f, o)
    ensures r.None? ==> forall o: nat :: !FoundAt(f, o)
  {
    hide ValidSuperblock, SuperblockAt;
    var size := |f|;
    var length := Min(CHUNK, size) + OVERLAP;
    var base: nat := 0;
    while base < size
      invariant forall o: nat :: o < base ==> !FoundAt(f, o)
    {
      var n := Min(length, size - base);
      var window := f[base..base + n];
      var from: nat := 0;
      while true
        invariant from <= |window| && forall o: nat :: o < base + from ==> !FoundAt(f, o)
        decreases |window| - from
      {
        var found := Index(window, from);
        NotSkipped(f, base, n, from);
        if found.None? { break; }
        var pos := found.value;
        var offset := base + pos;
        if offset + SB_SIZE <= size && ValidSuperblock(SuperblockAt(f, offset), size - offset) { return Some(offset); }
        from := pos + 1;
      }
      base := base + CHUNK;
    }
    return None;
  }

  /** A window misses no candidate that starts in its chunk. */
  lemma NotSkipped(f: seq<byte>, base: nat, n: nat, from: nat)
    requires base < |f| && n == Min(Min(CHUNK, |f|) + OVERLAP, |f| - base)
    requires forall o: nat :: o < base + from ==> !FoundAt(f, o)
    ensures var w := f[base..base + n];
            var found := Index(w, from);
            && (found.Some? ==> MagicAt(f, base + found.value))
            && forall o: nat :: o < base + (if found.Some? then found.value else CHUNK) ==> !FoundAt(f, o)
  {
    hide FoundAt;
    var w := f[base..base + n];
    forall o: nat | base <= o < base + CHUNK && FoundAt(f, o) ensures MagicAt(w, o - base) { InWindow(f, base, n, o); }
  }

  lemma InWindow(f: seq<byte>, base: nat, n: nat, o: nat)
    requires base <= o < base + CHUNK && base < |f| && n == Min(Min(CHUNK, |f|) + OVERLAP, |f| - base) && FoundAt(f, o)
    ensures MagicAt(f[base..base + n], o - base)
  {
    hide ValidSuperblock, SuperblockAt;
  }
}
