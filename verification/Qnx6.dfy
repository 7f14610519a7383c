/** The block layer of the QNX6 reader: block positions, the indirect block tree read with an early stop, inodes and
    directories. */
module Qnx6 {
  import opened Wrappers
  import opened Sequences
  import opened Bytes
  import opened QnxWalk

  const NO_BLOCK := 0xFFFF_FFFF
  const INODE_SIZE := 128
  const DIRENT_SIZE := 32
  const LONGNAME := 0xFF

  /** The image as opened: partition offset, block size and block offset, what a read of `n` bytes at a position
      answers, and the size of the file when it can be told. */
  datatype RawReader = Reader(poff: int, bs: nat, off: nat, readAt: (int, nat) -> Result<seq<byte>, Error>, size: Option<nat>)
  {
    /** Machine ranges, and a read never returns more than it was asked for. */
    ghost predicate Ok() {
      && MIN_INT64 <= poff <= MAX_INT64
      && 512 <= bs < 0x1_0000_0000 && off < 40
      && (forall pos, n :: readAt(pos, n).Ok? ==> |readAt(pos, n).value| <= n)
      && (size.Some? ==> size.value <= MAX_INT64)
    }
  }

  type Reader = r: RawReader | r.Ok() witness Reader(0, 512, 0, (pos, n) => Result.Ok([]), None)

  // ---- Machine arithmetic ----

  /** Two's complement reading of a mathematical integer as uint64. */
  function ToU64(x: int): u64 { x % TWO64 }

  /** `bits.Mul64`. */
  function Mul64(x: u64, y: u64): (u64, u64)
  {
    MulFits(x, y);
    (x * y / TWO64, x * y % TWO64)
  }

  lemma MulFits(x: u64, y: u64)
    ensures 0 <= x * y / TWO64 < TWO64
  {
    var m: int := TWO64 - 1;
    MulMono(x, y, m);
    MulMono(m, x, m);
    assert x * m == m * x;
    assert x * y <= 0xFFFF_FFFF_FFFF_FFFE_0000_0000_0000_0001;
  }

  lemma MulMono(x: nat, y: nat, z: nat)
    requires y <= z
    ensures 0 <= x * y <= x * z
  {
  }

  function BlockPos(r: Reader, blk: u32): Result<int, Error> {
    var (hi, lo) := Mul64(ToU64(blk + r.off), r.bs);
    if hi != 0 || lo > MAX_INT64 then Err(ParseError)
    else if lo > MAX_INT64 - Max(r.poff, 0) then Err(ParseError)
    else Ok(r.poff + lo)
  }

  /** For every partition offset, the position is the true one or the block is refused, and it is refused exactly when
      the position, or the distance from the partition start, is past what an int64 holds. Nothing wraps. */
  lemma BlockPosExact(r: Reader, blk: u32)
    ensures var dist := (blk + r.off) * r.bs;
            BlockPos(r, blk) == if dist <= MAX_INT64 && r.poff + dist <= MAX_INT64 then Ok(r.poff + dist) else Err(ParseError)
  {
    var a: nat := blk + r.off;
    assert ToU64(a) == a;
    var dist := a * r.bs;
    NatProduct(a, r.bs);
    HighWord(dist);
    assert Mul64(a, r.bs) == (dist / TWO64, dist % TWO64);
    hide Mul64, ToU64;
  }

  lemma NatProduct(x: nat, y: nat)
    ensures x * y >= 0
  {
  }

  /** A product fits a word exactly when its high word is zero. */
  lemma HighWord(x: nat)
    ensures x / TWO64 == 0 <==> x < TWO64
    ensures x < TWO64 ==> x % TWO64 == x
  {
  }

  /** How many bytes the image holds from the partition start, as the code computes it in uint64. */
  function RealBytes(size: nat, poff: int): u64 {
    var ahead := ToU64(Max(poff, 0));
    var behind := ToU64(ToU64(-(Min(poff, 0) + 1)) + 1);
    var total := ToU64(ToU64(size) + behind);
    total - Min(ahead, total)
  }

  lemma RealBytesExact(size: nat, poff: int)
    requires size <= MAX_INT64 && MIN_INT64 <= poff <= MAX_INT64
    ensures RealBytes(size, poff) == Max(size - poff, 0)
  {
    assert ToU64(size) == size;
    if poff < 0 {
      assert ToU64(-(poff + 1)) == -(poff + 1);
      assert ToU64(-poff) == -poff && ToU64(size - poff) == size - poff && ToU64(0) == 0;
    } else {
      assert ToU64(-1) == TWO64 - 1;
      assert ToU64(TWO64) == 0 && ToU64(poff) == poff;
    }
    hide ToU64;
  }

  // ---- The block tree ----

  function RawBlk(r: Reader, blk: u32): (b: Result<seq<byte>, Error>)
    ensures b.Ok? ==> |b.value| <= r.bs
  {
    match BlockPos(r, blk)
    case Err(e) => Err(e)
    case Ok(pos) => r.readAt(pos, r.bs)
  }

  /** The pointers held by one indirect block; a short block is a parse error. */
  function Pointers(r: Reader, blk: u32): Result<seq<u32>, Error> {
    match RawBlk(r, blk)
    case Err(e) => Err(e)
    case Ok(raw) =>
      if |raw| < 4 * (r.bs / 4) then Err(ParseError)
      else Ok(seq(r.bs / 4, i requires 0 <= i < r.bs / 4 => Le32(raw, 4 * i)))
  }

  datatype Root = Root(size: nat, ptrs: seq<u32>, levels: nat)

  /** How a walk over the leaves ended: at the end of the tree, because enough was held, or with an error. */
  datatype Leaves = Go(buf: seq<byte>) | Stop(buf: seq<byte>) | Fail(e: Error)

  /** The leaf walk that collects leaf blocks behind `buf` until `limit` bytes are held. */
  function Collect(r: Reader, ptrs: seq<u32>, levels: nat, limit: nat, buf: seq<byte>): Leaves
    decreases levels, |ptrs|
  {
    if ptrs == [] then Go(buf)
    else if ptrs[0] == NO_BLOCK then Collect(r, ptrs[1..], levels, limit, buf)
    else
      match CollectOne(r, ptrs[0], levels, limit, buf)
      case Go(b) => Collect(r, ptrs[1..], levels, limit, b)
      case other => other
  }

  function CollectOne(r: Reader, blk: u32, levels: nat, limit: nat, buf: seq<byte>): Leaves
    decreases levels, 0
  {
    if levels == 0 then
      match RawBlk(r, blk)
      case Err(e) => Fail(e)
      case Ok(raw) => if |buf + raw| >= limit then Stop(buf + raw) else Go(buf + raw)
    else
      match Pointers(r, blk)
      case Err(e) => Fail(e)
      case Ok(sub) => Collect(r, sub, levels - 1, limit, buf)
  }

  /** The depth-first concatenation of all leaf blocks, when every block of the tree reads. */
  function Whole(r: Reader, ptrs: seq<u32>, levels: nat): Option<seq<byte>>
    decreases levels, |ptrs|
  {
    if ptrs == [] then Some([])
    else if ptrs[0] == NO_BLOCK then Whole(r, ptrs[1..], levels)
    else
      match (WholeOne(r, ptrs[0], levels), Whole(r, ptrs[1..], levels))
      case (Some(a), Some(b)) => Some(a + b)
      case _ => None
  }

  function WholeOne(r: Reader, blk: u32, levels: nat): Option<seq<byte>>
    decreases levels, 0
  {
    if levels == 0 then
      match RawBlk(r, blk) case Ok(raw) => Some(raw) case Err(_) => None
    else
      match Pointers(r, blk) case Ok(sub) => Whole(r, sub, levels - 1) case Err(_) => None
  }

  /** The limit of a read: the declared size, capped at what the image holds when that is known and not zero. */
  function LimitOf(r: Reader, size: nat): nat {
    if r.size.None? then size
    else
      var held := RealBytes(r.size.value, r.poff);
      if held > 0 then Min(size, held) else size
  }

  function ReadFile(r: Reader, rn: Root): Result<seq<byte>, Error> {
    if rn.size == 0 then Ok([])
    else
      match Collect(r, rn.ptrs, rn.levels, LimitOf(r, rn.size), [])
      case Fail(e) => Err(e)
      case Go(buf) => Ok(buf[..Min(|buf|, rn.size)])
      case Stop(buf) => Ok(buf[..Min(|buf|, rn.size)])
  }

  /** What an early-stopping walk holds, measured against the whole: all of it while below the limit, and otherwise a
      prefix that has just reached the limit. */
  ghost predicate Measured(o: Leaves, buf: seq<byte>, whole: seq<byte>, limit: nat) {
    match o
    case Go(b) => b == buf + whole && |b| < limit
    case Stop(b) => b <= buf + whole && limit <= |b|
    case Fail(_) => false
  }

  lemma {:induction false} CollectMeasured(r: Reader, ptrs: seq<u32>, levels: nat, limit: nat, buf: seq<byte>)
    requires |buf| < limit && Whole(r, ptrs, levels).Some?
    ensures Measured(Collect(r, ptrs, levels, limit, buf), buf, Whole(r, ptrs, levels).value, limit)
    decreases levels, |ptrs|
  {
    if ptrs == [] {
      assert buf + [] == buf;
    } else if ptrs[0] == NO_BLOCK {
      CollectMeasured(r, ptrs[1..], levels, limit, buf);
    } else {
      var a, b := WholeOne(r, ptrs[0], levels).value, Whole(r, ptrs[1..], levels).value;
      CollectOneMeasured(r, ptrs[0], levels, limit, buf);
      match CollectOne(r, ptrs[0], levels, limit, buf)
      case Go(held) =>
        CollectMeasured(r, ptrs[1..], levels, limit, held);
        Assoc(buf, a, b);
      case Stop(held) =>
        Assoc(buf, a, b);
        assert held <= (buf + a) + b;
    }
  }

  lemma {:induction false} CollectOneMeasured(r: Reader, blk: u32, levels: nat, limit: nat, buf: seq<byte>)
    requires |buf| < limit && WholeOne(r, blk, levels).Some?
    ensures Measured(CollectOne(r, blk, levels, limit, buf), buf, WholeOne(r, blk, levels).value, limit)
    decreases levels, 0
  {
    if levels != 0 { CollectMeasured(r, Pointers(r, blk).value, levels - 1, limit, buf); }
  }

  /** Whatever the tree and whichever blocks fail, less than one block more than the limit is ever held. */
  lemma {:induction false} CollectBounded(r: Reader, ptrs: seq<u32>, levels: nat, limit: nat, buf: seq<byte>)
    requires |buf| < limit
    ensures var o := Collect(r, ptrs, levels, limit, buf);
            (o.Go? ==> |o.buf| < limit) && (o.Stop? ==> limit <= |o.buf| < limit + r.bs)
    decreases levels, |ptrs|
  {
    if ptrs != [] {
      if ptrs[0] == NO_BLOCK {
        CollectBounded(r, ptrs[1..], levels, limit, buf);
      } else {
        CollectOneBounded(r, ptrs[0], levels, limit, buf);
        var o := CollectOne(r, ptrs[0], levels, limit, buf);
        if o.Go? { CollectBounded(r, ptrs[1..], levels, limit, o.buf); }
      }
    }
  }

  lemma {:induction false} CollectOneBounded(r: Reader, blk: u32, levels: nat, limit: nat, buf: seq<byte>)
    requires |buf| < limit
    ensures var o := CollectOne(r, blk, levels, limit, buf);
            (o.Go? ==> |o.buf| < limit) && (o.Stop? ==> limit <= |o.buf| < limit + r.bs)
    decreases levels, 0
  {
    if levels != 0 && Pointers(r, blk).Ok? { CollectBounded(r, Pointers(r, blk).value, levels - 1, limit, buf); }
  }

  /** The early stop is invisible: when every block reads and the image is not shorter than the declared size (or its
      size cannot be told), the file is the first `size` bytes of the concatenated leaves. A cap by a shorter image
      still yields a prefix that holds everything up to the cap. */
  lemma ReadFileExact(r: Reader, rn: Root)
    requires Whole(r, rn.ptrs, rn.levels).Some?
    ensures var whole := Whole(r, rn.ptrs, rn.levels).value;
            var limit := LimitOf(r, rn.size);
            && ReadFile(r, rn).Ok?
            && (limit == rn.size ==> ReadFile(r, rn).value == whole[..Min(|whole|, rn.size)])
            && ReadFile(r, rn).value <= whole
            && Min(limit, |whole|) <= |ReadFile(r, rn).value| <= rn.size
  {
    if rn.size != 0 {
      var whole := Whole(r, rn.ptrs, rn.levels).value;
      var limit := LimitOf(r, rn.size);
      CollectMeasured(r, rn.ptrs, rn.levels, limit, []);
      assert [] + whole == whole;
    }
  }

  /** The cap only ever bites when the image is shorter than the declared size. */
  lemma LimitIsSize(r: Reader, size: nat)
    ensures r.size.Some? ==> (LimitOf(r, size) == size <==> r.size.value <= r.poff || size <= r.size.value - r.poff)
    ensures r.size.None? ==> LimitOf(r, size) == size
    ensures size > 0 ==> 0 < LimitOf(r, size) <= size
  {
    if r.size.Some? { RealBytesExact(r.size.value, r.poff); }
  }

  /** The read as it is run: the buffer grows in the callback. */
  class RnRead {
    const r: Reader
    const limit: nat
    var buf: seq<byte>

    constructor (r: Reader, limit: nat)
      ensures this.r == r && this.limit == limit && buf == []
    {
      this.r, this.limit, buf := r, limit, [];
    }

    /** The callback for one leaf block. */
    method Leaf(blk: u32) returns (stop: bool, err: Option<Error>)
      modifies this
      ensures CollectOne(r, blk, 0, limit, old(buf)) == if err.Some? then Fail(err.value) else if stop then Stop(buf) else Go(buf)
    {
      match RawBlk(r, blk) {
        case Err(e) => return true, Some(e);
        case Ok(raw) =>
          buf := buf + raw;
          return |buf| >= limit, None;
      }
    }

    method EachLeaf(ptrs: seq<u32>, levels: nat) returns (stop: bool, err: Option<Error>)
      modifies this
      ensures Collect(r, ptrs, levels, limit, old(buf)) == if err.Some? then Fail(err.value) else if stop then Stop(buf) else Go(buf)
      decreases levels
    {
      for i := 0 to |ptrs|
        invariant Collect(r, ptrs[i..], levels, limit, buf) == Collect(r, ptrs, levels, limit, old(buf))
      {
        var p := ptrs[i];
        assert ptrs[i..][0] == p && ptrs[i..][1..] == ptrs[i + 1..];
        if p == NO_BLOCK { continue; }
        if levels == 0 {
          stop, err := Leaf(p);
          if stop || err.Some? { return; }
          continue;
        }
        match Pointers(r, p) {
          case Err(e) => return false, Some(e);
          case Ok(sub) =>
            stop, err := EachLeaf(sub, levels - 1);
            if stop || err.Some? { return; }
        }
      }
      return false, None;
    }
  }

  method ReadRNFile(r: Reader, rn: Root) returns (out: Result<seq<byte>, Error>)
    ensures out == ReadFile(r, rn)
  {
    if rn.size == 0 { return Ok([]); }
    var limit := rn.size;
    if r.size.Some? {
      var held := RealBytes(r.size.value, r.poff);
      if held > 0 { limit := Min(rn.size, held); }
    }
    var rd := new RnRead(r, limit);
    var stop, err := rd.EachLeaf(rn.ptrs, rn.levels);
    if err.Some? { return Err(err.value); }
    return Ok(rd.buf[..Min(|rd.buf|, rn.size)]);
  }

  // ---- The block offset ----

  /** The first leaf of a tree: none when every pointer is unused. */
  function FirstLeaf(r: Reader, ptrs: seq<u32>, levels: nat): Result<Option<u32>, Error>
    decreases levels, |ptrs|
  {
    if ptrs == [] then Ok(None)
    else if ptrs[0] == NO_BLOCK then FirstLeaf(r, ptrs[1..], levels)
    else if levels == 0 then Ok(Some(ptrs[0]))
    else
      match Pointers(r, ptrs[0])
      case Err(e) => Err(e)
      case Ok(sub) =>
        match FirstLeaf(r, sub, levels - 1)
        case Ok(None) => FirstLeaf(r, ptrs[1..], levels)
        case other => other
  }

  /** The bytes of a leaf look like a root directory inode. */
  predicate LooksLikeRoot(raw: seq<byte>) {
    |raw| >= 34 && IsDir(Le16(raw, 32)) && 0 < Le64(raw, 0) < 50_000_000
  }

  /** What trying the block offset of `r` on a tree answers. */
  function ProbeTree(r: Reader, ptrs: seq<u32>, levels: nat): Result<bool, Error> {
    match FirstLeaf(r, ptrs, levels)
    case Err(e) => Err(e)
    case Ok(None) => Ok(false)
    case Ok(Some(blk)) => match RawBlk(r, blk) case Err(e) => Err(e) case Ok(raw) => Ok(LooksLikeRoot(raw))
  }

  function Probe(r: Reader, rn: Root): Result<bool, Error> { ProbeTree(r, rn.ptrs, rn.levels) }

  function At(r: Reader, off: nat): Reader
    requires off < 40
  {
    Reader(r.poff, r.bs, off, r.readAt, r.size)
  }

  /** The probing callback: it stops at the first leaf, whatever it finds there. */
  method ProbeLeaf(r: Reader, ptrs: seq<u32>, levels: nat) returns (stop: bool, err: Option<Error>, found: bool)
    ensures ProbeTree(r, ptrs, levels) == if err.Some? then Err(err.value) else Ok(found)
    ensures err.None? ==> (stop <==> FirstLeaf(r, ptrs, levels).Ok? && FirstLeaf(r, ptrs, levels).value.Some?)
    decreases levels
  {
    for i := 0 to |ptrs|
      invariant FirstLeaf(r, ptrs[i..], levels) == FirstLeaf(r, ptrs, levels)
    {
      var p := ptrs[i];
      assert ptrs[i..][0] == p && ptrs[i..][1..] == ptrs[i + 1..];
      if p == NO_BLOCK { continue; }
      if levels == 0 {
        match RawBlk(r, p) {
          case Err(e) => return true, Some(e), false;
          case Ok(raw) => return true, None, LooksLikeRoot(raw);
        }
      }
      match Pointers(r, p) {
        case Err(e) => return false, Some(e), false;
        case Ok(sub) =>
          stop, err, found := ProbeLeaf(r, sub, levels - 1);
          if stop || err.Some? { return; }
      }
    }
    return false, None, false;
  }

  /** Detection takes the smallest offset that shows a root directory, passing over offsets that fail to read; a parse
      error at an earlier offset ends it, and no offset at all is a parse error. */
  method DetectOff(r: Reader, rn: Root) returns (off: Result<nat, Error>)
    ensures rn.size == 0 ==> off == Ok(0)
    ensures rn.size != 0 ==>
              match off
              case Ok(c) => c < 40 && Probe(At(r, c), rn) == Ok(true)
                            && forall d: nat :: d < c ==> Probe(At(r, d), rn) in {Ok(false), Err(IoError)}
              case Err(e) =>
                && e == ParseError
                && ((forall d: nat :: d < 40 ==> Probe(At(r, d), rn) in {Ok(false), Err(IoError)})
                    || exists c: nat :: c < 40 && Probe(At(r, c), rn) == Err(ParseError)
                         && forall d: nat :: d < c ==> Probe(At(r, d), rn) in {Ok(false), Err(IoError)})
  {
    if rn.size == 0 { return Ok(0); }
    for cand := 0 to 40
      invariant forall d: nat :: d < cand ==> Probe(At(r, d), rn) in {Ok(false), Err(IoError)}
    {
      var stop, err, found := ProbeLeaf(At(r, cand), rn.ptrs, rn.levels);
      match err {
        case Some(IoError) => continue;
        case Some(ParseError) =>
          assert Probe(At(r, cand), rn) == Err(ParseError);
          return Err(ParseError);
        case None =>
          if found { return Ok(cand); }
      }
    }
    return Err(ParseError);
  }

  // ---- Inodes and directories ----

  function Inode(tab: seq<byte>, ino: nat): Result<(Node, Root), Error> {
    if ino == 0 then Err(ParseError)
    else
      var off := (ino - 1) * INODE_SIZE;
      if off + INODE_SIZE > |tab| then Err(ParseError)
      else
        var e := tab[off..off + INODE_SIZE];
        Ok((Node(Le16(e, 32), Le64(e, 0)),
            Root(Le64(e, 0), seq(16, i requires 0 <= i < 16 => Le32(e, 36 + 4 * i)), e[100])))
  }

  function Latin1(b: seq<byte>): string { seq(|b|, i requires 0 <= i < |b| => b[i] as char) }

  function LongName(bs: nat, names: seq<byte>, idx: u32): Result<string, Error> {
    var off := idx * bs;
    if off + 2 > |names| then Err(ParseError)
    else
      var end := Min(off + 2 + Le16(names, off), |names|);
      Ok(Latin1(names[off + 2..end]))
  }

  function DirentName(bs: nat, names: seq<byte>, e: seq<byte>): Result<string, Error>
    requires |e| == DIRENT_SIZE
  {
    if e[4] == LONGNAME then LongName(bs, names, Le32(e, 8))
    else Ok(Latin1(e[5..Min(5 + e[4] as int, DIRENT_SIZE)]))
  }

  /** The records of a directory from offset `o` on: free slots and the two dot names are passed over. */
  function Dirents(bs: nat, names: seq<byte>, data: seq<byte>, o: nat): Result<seq<Entry>, Error>
    decreases |data| - o
  {
    if o + DIRENT_SIZE > |data| then Ok([])
    else
      var e := data[o..o + DIRENT_SIZE];
      if Le32(e, 0) == 0 then Dirents(bs, names, data, o + DIRENT_SIZE)
      else
        match DirentName(bs, names, e)
        case Err(err) => Err(err)
        case Ok(name) =>
          match Dirents(bs, names, data, o + DIRENT_SIZE)
          case Err(err) => Err(err)
          case Ok(rest) => Ok((if name in {".", ".."} then [] else [Entry(name, Le32(e, 0))]) + rest)
  }

  /** A short read of a directory is an error, never an empty directory. */
  function ListDir(r: Reader, tab: seq<byte>, names: seq<byte>, ino: nat): Result<seq<Entry>, Error> {
    match Inode(tab, ino)
    case Err(e) => Err(e)
    case Ok((node, root)) =>
      match ReadFile(r, root)
      case Err(e) => Err(e)
      case Ok(data) => if |data| < node.size then Err(ParseError) else Dirents(r.bs, names, data, 0)
  }

  method ParseDirents(bs: nat, names: seq<byte>, data: seq<byte>) returns (es: Result<seq<Entry>, Error>)
    ensures es == Dirents(bs, names, data, 0)
  {
    var entries: seq<Entry> := [];
    var o := 0;
    ghost var goal := Dirents(bs, names, data, 0);
    assert goal.Ok? ==> [] + goal.value == goal.value;
    while o + DIRENT_SIZE <= |data|
      invariant 0 <= o
      invariant var rest := Dirents(bs, names, data, o);
                if rest.Err? then goal == rest else goal == Ok(entries + rest.value)
    {
      var e := data[o..o + DIRENT_SIZE];
      ghost var rest := Dirents(bs, names, data, o + DIRENT_SIZE);
      o := o + DIRENT_SIZE;
      if Le32(e, 0) == 0 { continue; }
      var name := DirentName(bs, names, e);
      if name.Err? { return Err(name.error); }
      if name.value in {".", ".."} {
        assert rest.Ok? ==> [] + rest.value == rest.value;
        continue;
      }
      if rest.Ok? { Assoc(entries, [Entry(name.value, Le32(e, 0))], rest.value); }
      entries := entries + [Entry(name.value, Le32(e, 0))];
    }
    assert entries + [] == entries;
    return Ok(entries);
  }

  // ---- What a listing lists ----

  /** Record `k` of a directory's data. */
  function Slot(data: seq<byte>, k: nat): (e: seq<byte>)
    requires (k + 1) * DIRENT_SIZE <= |data|
    ensures |e| == DIRENT_SIZE
  {
    data[k * DIRENT_SIZE..(k + 1) * DIRENT_SIZE]
  }

  /** A record in use has an inode number. */
  predicate Used(data: seq<byte>, k: nat) { (k + 1) * DIRENT_SIZE <= |data| && Le32(Slot(data, k), 0) != 0 }

  /** The name of every record in use can be read. */
  ghost predicate NamesRead(bs: nat, names: seq<byte>, data: seq<byte>, from: nat) {
    forall k: nat :: k >= from && Used(data, k) ==> DirentName(bs, names, Slot(data, k)).Ok?
  }

  /** Record `k` is in use and names something other than the directory itself or its parent. */
  predicate Names(bs: nat, names: seq<byte>, data: seq<byte>, k: nat) {
    && Used(data, k) && DirentName(bs, names, Slot(data, k)).Ok?
    && DirentName(bs, names, Slot(data, k)).value !in {".", ".."}
  }

  function EntryAt(bs: nat, names: seq<byte>, data: seq<byte>, k: nat): Entry
    requires Names(bs, names, data, k)
  {
    Entry(DirentName(bs, names, Slot(data, k)).value, Le32(Slot(data, k), 0))
  }

  /** The entries are the naming records from `from` on, each once and in the order of the data; `ks` says which. */
  ghost predicate Lists(bs: nat, names: seq<byte>, data: seq<byte>, from: nat, es: seq<Entry>, ks: seq<nat>) {
    && |ks| == |es| && (forall i, j :: 0 <= i < j < |ks| ==> ks[i] < ks[j])
    && (forall i :: 0 <= i < |ks| ==>
          ks[i] >= from && Names(bs, names, data, ks[i]) && es[i] == EntryAt(bs, names, data, ks[i]))
    && forall k: nat :: k >= from && Names(bs, names, data, k) ==> k in ks
  }

  lemma {:induction false} DirentsList(bs: nat, names: seq<byte>, data: seq<byte>, from: nat) returns (ks: seq<nat>)
    ensures var es := Dirents(bs, names, data, from * DIRENT_SIZE);
            && (es.Ok? <==> NamesRead(bs, names, data, from)) && (es.Err? ==> es.error == ParseError)
            && (es.Ok? ==> Lists(bs, names, data, from, es.value, ks))
    decreases |data| - from * DIRENT_SIZE
  {
    ks := [];
    if (from + 1) * DIRENT_SIZE <= |data| {
      var later := DirentsList(bs, names, data, from + 1);
      ks := if Names(bs, names, data, from) then [from] + later else later;
      DirentsStep(bs, names, data, from, later);
    } else {
      PastEnd(data, from);
    }
  }

  // ---- Writing a directory, and listing it ----

  /** One record of a directory: a name in bytes and an inode number. */
  datatype Record = Record(name: seq<byte>, ino: u32)

  ghost predicate Spelled32(e: seq<byte>, o: nat, n: u32) {
    o + 4 <= |e| && e[o] == ByteOf(n, 0) && e[o + 1] == ByteOf(n, 1) && e[o + 2] == ByteOf(n, 2) && e[o + 3] == ByteOf(n, 3)
  }

  /** A short name lies in the record after its length. */
  ghost predicate ShortAt(e: seq<byte>, name: seq<byte>) {
    |e| == DIRENT_SIZE && |name| <= 27 && e[4] == |name| && e[5..5 + |name|] == name
  }

  /** A long name lies in the block of the names file that the record gives, after its length in two bytes. */
  ghost predicate LongAt(bs: nat, names: seq<byte>, e: seq<byte>, name: seq<byte>, idx: u32) {
    var o := idx * bs;
    && |e| == DIRENT_SIZE && e[4] == LONGNAME && Spelled32(e, 8, idx)
    && o >= 0 && o + 2 + |name| <= |names| && |name| < 0x1_0000
    && names[o] == ByteOf(|name|, 0) && names[o + 1] == ByteOf(|name|, 1) && names[o + 2..o + 2 + |name|] == name
  }

  ghost predicate RecordAt(bs: nat, names: seq<byte>, e: seq<byte>, d: Record) {
    d.ino != 0 && Spelled32(e, 0, d.ino) && (ShortAt(e, d.name) || exists idx :: LongAt(bs, names, e, d.name, idx))
  }

  /** Directory data written for these records, with free slots between them. */
  ghost predicate DirectoryAt(bs: nat, names: seq<byte>, data: seq<byte>, ds: seq<Option<Record>>) {
    && |ds| * DIRENT_SIZE <= |data| < (|ds| + 1) * DIRENT_SIZE
    && forall k :: 0 <= k < |ds| ==>
         match ds[k]
         case None => Spelled32(Slot(data, k), 0, 0)
         case Some(d) => RecordAt(bs, names, Slot(data, k), d)
  }

  /** What a listing of the records should say: all but the directory itself and its parent. */
  function Listing(ds: seq<Option<Record>>): seq<Entry> {
    if ds == [] then []
    else
      (match ds[0]
       case None => []
       case Some(d) => if Latin1(d.name) in {".", ".."} then [] else [Entry(Latin1(d.name), d.ino)])
      + Listing(ds[1..])
  }

  lemma SpelledIsRead(e: seq<byte>, o: nat, n: u32)
    requires Spelled32(e, o, n)
    ensures Le32(e, o) == n
  {
    Le32Bytes(e, o, n);
  }

  lemma LongIsRead(bs: nat, names: seq<byte>, e: seq<byte>, name: seq<byte>, idx: u32)
    requires LongAt(bs, names, e, name, idx)
    ensures DirentName(bs, names, e) == Ok(Latin1(name))
  {
    SpelledIsRead(e, 8, idx);
    Le16Bytes(names, idx * bs, |name|);
    hide Latin1, ByteOf, Le32, Le16;
  }

  lemma RecordIsRead(bs: nat, names: seq<byte>, e: seq<byte>, d: Record)
    requires |e| == DIRENT_SIZE && RecordAt(bs, names, e, d)
    ensures Le32(e, 0) == d.ino && DirentName(bs, names, e) == Ok(Latin1(d.name))
  {
    SpelledIsRead(e, 0, d.ino);
    hide Spelled32, Le32;
    if !ShortAt(e, d.name) {
      var idx :| LongAt(bs, names, e, d.name, idx);
      LongIsRead(bs, names, e, d.name, idx);
    }
  }

  /** A directory is listed as it was written, long names and short alike. */
  lemma {:induction false} WrittenIsListed(bs: nat, names: seq<byte>, data: seq<byte>, ds: seq<Option<Record>>, from: nat)
    requires DirectoryAt(bs, names, data, ds) && from <= |ds|
    ensures Dirents(bs, names, data, from * DIRENT_SIZE) == Ok(Listing(ds[from..]))
    decreases |ds| - from
  {
    if from < |ds| {
      WrittenIsListed(bs, names, data, ds, from + 1);
      DirentsUnfold(bs, names, data, from);
      assert ds[from..][1..] == ds[from + 1..];
      SlotIsRead(bs, names, data, ds, from);
      hide Dirents, DirentName, Latin1, Slot, DirectoryAt, Le32;
      assert [] + Listing(ds[from + 1..]) == Listing(ds[from + 1..]);
    }
  }

  lemma SlotIsRead(bs: nat, names: seq<byte>, data: seq<byte>, ds: seq<Option<Record>>, k: nat)
    requires DirectoryAt(bs, names, data, ds) && k < |ds|
    ensures Used(data, k) <==> ds[k].Some?
    ensures ds[k].Some? ==>
              DirentName(bs, names, Slot(data, k)) == Ok(Latin1(ds[k].value.name)) && Le32(Slot(data, k), 0) == ds[k].value.ino
  {
    hide Slot, DirentName, Latin1, Le32, Spelled32;
    match ds[k]
    case None => SpelledIsRead(Slot(data, k), 0, 0);
    case Some(d) => RecordIsRead(bs, names, Slot(data, k), d);
  }

  /** An inode as the format lays it out: size, mode, sixteen block pointers and the depth of their tree. */
  ghost predicate InodeAt(e: seq<byte>, mode: u16, r: Root) {
    && |e| == INODE_SIZE && r.size < TWO64
    && (forall k: nat :: k < 8 ==> e[k] == ByteOf(r.size, k))
    && e[32] == ByteOf(mode, 0) && e[33] == ByteOf(mode, 1)
    && |r.ptrs| == 16 && (forall i :: 0 <= i < 16 ==> Spelled32(e, 36 + 4 * i, r.ptrs[i]))
    && e[100] == r.levels
  }

  /** Inode `ino` of the table is read as it was written. */
  lemma InodeIsRead(tab: seq<byte>, ino: nat, mode: u16, r: Root)
    requires ino > 0 && ino * INODE_SIZE <= |tab| && InodeAt(tab[(ino - 1) * INODE_SIZE..ino * INODE_SIZE], mode, r)
    ensures Inode(tab, ino) == Ok((Node(mode, r.size), r))
  {
    var e := tab[(ino - 1) * INODE_SIZE..ino * INODE_SIZE];
    assert forall k: nat :: k < 8 ==> e[0 + k] == ByteOf(r.size, k);
    Le64Bytes(e, 0, r.size);
    Le16Bytes(e, 32, mode);
    forall i | 0 <= i < 16 ensures Le32(e, 36 + 4 * i) == r.ptrs[i] { SpelledIsRead(e, 36 + 4 * i, r.ptrs[i]); }
    hide ByteOf, Le16, Le32, Le64;
    assert seq(16, i requires 0 <= i < 16 => Le32(e, 36 + 4 * i)) == r.ptrs;
  }

  /** An indirect block is read as the pointers written in it; bytes left over behind them do not matter. */
  lemma PointersAreRead(r: Reader, blk: u32, raw: seq<byte>, ps: seq<u32>)
    requires RawBlk(r, blk) == Ok(raw) && |ps| == r.bs / 4 && forall i :: 0 <= i < |ps| ==> Spelled32(raw, 4 * i, ps[i])
    ensures Pointers(r, blk) == Ok(ps)
  {
    assert |ps| > 0 && Spelled32(raw, 4 * (|ps| - 1), ps[|ps| - 1]);
    forall i | 0 <= i < |ps| ensures Le32(raw, 4 * i) == ps[i] { SpelledIsRead(raw, 4 * i, ps[i]); }
    hide Le32, RawBlk;
    assert seq(r.bs / 4, i requires 0 <= i < r.bs / 4 => Le32(raw, 4 * i)) == ps;
  }

  lemma PastEnd(data: seq<byte>, from: nat)
    requires (from + 1) * DIRENT_SIZE > |data|
    ensures forall k: nat :: k >= from ==> !Used(data, k)
  {
  }

  lemma DirentsStep(bs: nat, names: seq<byte>, data: seq<byte>, from: nat, later: seq<nat>)
    requires (from + 1) * DIRENT_SIZE <= |data|
    requires var rest := Dirents(bs, names, data, (from + 1) * DIRENT_SIZE);
             && (rest.Ok? <==> NamesRead(bs, names, data, from + 1)) && (rest.Err? ==> rest.error == ParseError)
             && (rest.Ok? ==> Lists(bs, names, data, from + 1, rest.value, later))
    ensures var es := Dirents(bs, names, data, from * DIRENT_SIZE);
            && (es.Ok? <==> NamesRead(bs, names, data, from)) && (es.Err? ==> es.error == ParseError)
            && (es.Ok? ==> Lists(bs, names, data, from, es.value, if Names(bs, names, data, from) then [from] + later else later))
  {
    DirentsUnfold(bs, names, data, from);
    NamesReadStep(bs, names, data, from);
    hide Dirents, DirentName, NamesRead, Lists, Slot;
    var rest := Dirents(bs, names, data, (from + 1) * DIRENT_SIZE);
    if Used(data, from) { DirentNameError(bs, names, Slot(data, from)); }
    if rest.Ok? { ListsStep(bs, names, data, from, rest.value, later); }
    assert rest.Ok? ==> [] + rest.value == rest.value;
  }

  lemma DirentsUnfold(bs: nat, names: seq<byte>, data: seq<byte>, from: nat)
    requires (from + 1) * DIRENT_SIZE <= |data|
    ensures var rest := Dirents(bs, names, data, (from + 1) * DIRENT_SIZE);
            Dirents(bs, names, data, from * DIRENT_SIZE)
            == if !Used(data, from) then rest
               else
                 match DirentName(bs, names, Slot(data, from))
                 case Err(err) => Err(err)
                 case Ok(name) =>
                   match rest
                   case Err(err) => Err(err)
                   case Ok(es) => Ok((if name in {".", ".."} then [] else [Entry(name, Le32(Slot(data, from), 0))]) + es)
  {
    hide DirentName;
    assert from * DIRENT_SIZE + DIRENT_SIZE == (from + 1) * DIRENT_SIZE;
  }

  lemma NamesReadStep(bs: nat, names: seq<byte>, data: seq<byte>, from: nat)
    ensures NamesRead(bs, names, data, from) <==>
              NamesRead(bs, names, data, from + 1) && (Used(data, from) ==> DirentName(bs, names, Slot(data, from)).Ok?)
  {
    hide DirentName, Used, Slot;
    UsedFits(data);
  }

  lemma UsedFits(data: seq<byte>)
    ensures forall k: nat :: Used(data, k) ==> (k + 1) * DIRENT_SIZE <= |data|
  {
  }

  /** One more record in front: listed when it names something. */
  lemma ListsStep(bs: nat, names: seq<byte>, data: seq<byte>, from: nat, es: seq<Entry>, ks: seq<nat>)
    requires Lists(bs, names, data, from + 1, es, ks)
    ensures if Names(bs, names, data, from) then
              Lists(bs, names, data, from, [EntryAt(bs, names, data, from)] + es, [from] + ks)
            else Lists(bs, names, data, from, es, ks)
  {
    hide Names, EntryAt;
    if Names(bs, names, data, from) { ListsMore(bs, names, data, from, es, ks); }
  }

  lemma ListsMore(bs: nat, names: seq<byte>, data: seq<byte>, from: nat, es: seq<Entry>, ks: seq<nat>)
    requires Lists(bs, names, data, from + 1, es, ks) && Names(bs, names, data, from)
    ensures Lists(bs, names, data, from, [EntryAt(bs, names, data, from)] + es, [from] + ks)
  {
    hide Names, EntryAt;
    var all, items := [from] + ks, [EntryAt(bs, names, data, from)] + es;
    assert |all| == |items|;
    forall i | 0 <= i < |all|
      ensures all[i] >= from && Names(bs, names, data, all[i]) && items[i] == EntryAt(bs, names, data, all[i])
    {
      if i > 0 { assert all[i] == ks[i - 1] && items[i] == es[i - 1]; }
    }
    forall i, j | 0 <= i < j < |all| ensures all[i] < all[j] {
      assert all[j] == ks[j - 1];
      if i > 0 { assert all[i] == ks[i - 1]; }
    }
    forall k: nat | k >= from && Names(bs, names, data, k) ensures k in all {
      if k == from { assert all[0] == k; } else { assert k in ks; }
    }
  }

  lemma DirentNameError(bs: nat, names: seq<byte>, e: seq<byte>)
    requires |e| == DIRENT_SIZE
    ensures DirentName(bs, names, e).Err? ==> DirentName(bs, names, e).error == ParseError
  {
  }

  /** A directory is listed from all of its data or not at all: an inode out of range, data that cannot be read, a short
      read and an unreadable name are each an error; otherwise every naming record is listed, once and in order, and
      nothing else. */
  method ListDirectory(r: Reader, tab: seq<byte>, names: seq<byte>, ino: nat) returns (es: Result<seq<Entry>, Error>)
    ensures es == ListDir(r, tab, names, ino)
    ensures ino == 0 || ino * INODE_SIZE > |tab| ==> es == Err(ParseError)
    ensures 0 < ino * INODE_SIZE <= |tab| ==>
              && Inode(tab, ino).Ok?
              && var (node, root) := Inode(tab, ino).value;
              && var data := ReadFile(r, root);
              && (data.Err? ==> es == Err(data.error))
              && (data.Ok? && |data.value| != node.size ==> es == Err(ParseError))
              && (data.Ok? && |data.value| == node.size ==>
                    if NamesRead(r.bs, names, data.value, 0) then
                      es.Ok? && exists ks :: Lists(r.bs, names, data.value, 0, es.value, ks)
                    else es == Err(ParseError))
  {
    ListingFacts(r, tab, names, ino);
    hide ReadFile, Dirents, NamesRead, Lists;
    match Inode(tab, ino) {
      case Err(e) => return Err(e);
      case Ok((node, root)) =>
        var read := ReadRNFile(r, root);
        if read.Err? { return Err(read.error); }
        if |read.value| < node.size { return Err(ParseError); }
        es := ParseDirents(r.bs, names, read.value);
    }
  }

  lemma ListingFacts(r: Reader, tab: seq<byte>, names: seq<byte>, ino: nat)
    ensures 0 < ino * INODE_SIZE <= |tab| <==> Inode(tab, ino).Ok?
    ensures Inode(tab, ino).Err? ==> Inode(tab, ino).error == ParseError
    ensures Inode(tab, ino).Ok? ==>
              && var (node, root) := Inode(tab, ino).value;
              && root.size == node.size
              && var data := ReadFile(r, root);
              data.Ok? ==>
                && |data.value| <= node.size
                && var es := Dirents(r.bs, names, data.value, 0);
                && (es.Ok? <==> NamesRead(r.bs, names, data.value, 0)) && (es.Err? ==> es.error == ParseError)
                && (es.Ok? ==> exists ks :: Lists(r.bs, names, data.value, 0, es.value, ks))
  {
    if Inode(tab, ino).Ok? {
      var (node, root) := Inode(tab, ino).value;
      ReadNoMore(r, root);
      hide ReadFile, Dirents, NamesRead, Lists;
      if ReadFile(r, root).Ok? { var ks := DirentsList(r.bs, names, ReadFile(r, root).value, 0); }
    }
  }

  lemma ReadNoMore(r: Reader, rn: Root)
    ensures ReadFile(r, rn).Ok? ==> |ReadFile(r, rn).value| <= rn.size
  {
  }

  /** The image behind a reader and its loaded tables, as the walk sees it. */
  function ImageOf(r: Reader, tab: seq<byte>, names: seq<byte>): Image {
    Image(
      (ino: nat) => match Inode(tab, ino) case Ok((node, _)) => Result.Ok(node) case Err(e) => Result.Err(e),
      (ino: nat) => ListDir(r, tab, names, ino))
  }

  /** Listing a whole image: the walk from the root, over the directories as they are read. Whatever the blocks hold, a
      listing that ends without an error lists every directory once and all its entries, and those are all directories
      there are unless it says it was cut; when the directories of the tree are well named, every line of it, even of one
      that ended early, is what its path resolves to. */
  method ListImage(r: Reader, tab: seq<byte>, names: seq<byte>)
    returns (out: seq<WalkEntry>, truncated: bool, err: Option<Error>)
    ensures var img := ImageOf(r, tab, names);
            && (err.None? ==> exists dirs: seq<nat>, bases ::
                  && ListedOnce(img, out, dirs, bases)
                  && (!truncated ==> forall d :: d in dirs <==> Reachable(img, ROOT, d)))
            && (WellNamed(img) ==> AllAgree(img, out))
  {
    var img := ImageOf(r, tab, names);
    var walker := new Walker(img);
    assert 0 <= MAX_DEPTH + 1;
    hide *;
    err := walker.Walk(ROOT, "", 0);
    out, truncated := walker.emitted, walker.truncated;
    WalkedImage(img, walker.State(), err);
    WalkerHolds(walker);
  }

  lemma WalkerHolds(walker: Walker)
    ensures walker.State().out == walker.emitted && walker.State().truncated == walker.truncated
  {
  }

  lemma WalkedImage(img: Image, p: Progress, err: Option<Error>)
    requires var o := WalkDir(img, ROOT, "", 0, START); p == o.p && err == if o.Done? then None else Some(o.e)
    ensures err.None? ==> exists dirs: seq<nat>, bases ::
              && ListedOnce(img, p.out, dirs, bases)
              && (!p.truncated ==> forall d :: d in dirs <==> Reachable(img, ROOT, d))
    ensures WellNamed(img) ==> AllAgree(img, p.out)
  {
    assert WalkImage(img) == WalkDir(img, ROOT, "", 0, START);
    hide WalkDir, Reachable, ListedOnce, AllAgree, WellNamed;
    if err.None? {
      WalkListsOnce(img);
      if !p.truncated { WalkVisitsReachable(img); }
    }
    if WellNamed(img) { WalkAgreesWithResolve(img); }
  }
}
