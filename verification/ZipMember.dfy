/** Reading one member: the local header (section 4.3.7 of PKWARE APPNOTE.TXT), and the streaming reader that delivers
    exactly the declared size and then checks the CRC. */
module ZipMember {
  import opened Wrappers
  import opened Bytes
  import opened Sequences
  import opened ZipRead

  const LOCAL_SIZE: nat := 30

  /** A local header with its raw name; `data` is the absolute offset of the payload. */
  datatype Local = Local(
    needed: u16, flags: u16, compression: u16, time: u16, date: u16, crc: u32, compressed: u32, uncompressed: u32,
    name: seq<byte>, extra: seq<byte>, data: nat)

  /** The bytes from `o` on spell the header, its extra area is well formed, and the payload starts right behind it. */
  ghost predicate LocalAt(f: seq<byte>, o: nat, l: Local) {
    && l.data == o + LOCAL_SIZE + |l.name| + |l.extra| <= |f| && Le32(f, o) == 0x0403_4B50
    && Le16(f, o + 4) == l.needed && Le16(f, o + 6) == l.flags && Le16(f, o + 8) == l.compression
    && Le16(f, o + 10) == l.time && Le16(f, o + 12) == l.date && Le32(f, o + 14) == l.crc
    && Le32(f, o + 18) == l.compressed && Le32(f, o + 22) == l.uncompressed
    && Le16(f, o + 26) == |l.name| && Le16(f, o + 28) == |l.extra|
    && f[o + 30..o + 30 + |l.name|] == l.name && f[o + 30 + |l.name|..l.data] == l.extra && ExtraOK(l.extra)
  }

  lemma LocalAtUnique(f: seq<byte>, o: nat, l: Local, k: Local)
    requires LocalAt(f, o, l) && LocalAt(f, o, k)
    ensures l == k
  {
  }

  /** The header is read exactly when one is there. */
  method ReadLocalHeader(f: seq<byte>, o: nat) returns (r: Result<Local, ZipError>)
    ensures r.Ok? ==> LocalAt(f, o, r.value)
    ensures r.Err? ==> forall l :: !LocalAt(f, o, l)
  {
    hide ExtraOK;
    if o + LOCAL_SIZE > |f| { return Err(Truncated); }
    if Le32(f, o) != 0x0403_4B50 { return Err(BadSignature); }
    var n, x := Le16(f, o + 26), Le16(f, o + 28);
    if o + LOCAL_SIZE + n + x > |f| { return Err(Truncated); }
    var extra := f[o + 30 + n..o + 30 + n + x];
    var bad := ScanExtra(extra);
    if bad.Some? { return Err(bad.value); }
    return Ok(Local(Le16(f, o + 4), Le16(f, o + 6), Le16(f, o + 8), Le16(f, o + 10), Le16(f, o + 12), Le32(f, o + 14),
                    Le32(f, o + 18), Le32(f, o + 22), f[o + 30..o + 30 + n], extra, o + 30 + n + x));
  }

  // ---- The source of a member ----

  datatype SourceError = Eof | UnexpectedEof | Broken(code: int)

  /** A source holds a payload and answers each read as it likes: how many bytes of a buffer it fills (never past the
      payload) and with which error, depending on the number of the call, the position and the buffer's length. */
  datatype Source = Source(payload: seq<byte>, answer: (nat, nat, nat) -> (nat, Option<SourceError>))

  /** Where a source stands: bytes handed out and reads answered. */
  datatype At = At(pos: nat, calls: nat)

  function Filled(s: Source, at: At, len: nat): (n: nat)
    requires at.pos <= |s.payload|
    ensures n <= len && at.pos + n <= |s.payload|
  {
    Min(s.answer(at.calls, at.pos, len).0, Min(len, |s.payload| - at.pos))
  }

  function Failed(s: Source, at: At, len: nat): Option<SourceError> { s.answer(at.calls, at.pos, len).1 }

  /** It reports nothing but the end of its payload, only there, and never answers a real buffer with nothing at all. */
  ghost predicate Honest(s: Source) {
    forall at: At, len: nat :: at.pos <= |s.payload| ==>
      var n, e := Filled(s, at, len), Failed(s, at, len);
      && (e.Some? ==> e.value == Eof && at.pos + n == |s.payload|)
      && (len > 0 && n == 0 ==> e.Some?)
  }

  // ---- The checksum ----

  /** A running checksum over bytes. */
  datatype Hash = Hash(init: u32, step: (u32, byte) -> u32, sum: u32 -> u32)

  function Fold(h: Hash, state: u32, b: seq<byte>): u32
    decreases |b|
  {
    if b == [] then state else Fold(h, h.step(state, b[0]), b[1..])
  }

  function Checksum(h: Hash, b: seq<byte>): u32 { h.sum(Fold(h, h.init, b)) }

  /** Feeding the chunks one by one is feeding their concatenation. */
  lemma {:induction false} FoldAppend(h: Hash, state: u32, a: seq<byte>, b: seq<byte>)
    ensures Fold(h, state, a + b) == Fold(h, Fold(h, state, a), b)
    decreases |a|
  {
    if a == [] {
      assert a + b == b;
    } else {
      assert (a + b)[0] == a[0] && (a + b)[1..] == a[1..] + b;
      FoldAppend(h, h.step(state, a[0]), a[1..], b);
    }
  }

  // ---- The member reader ----

  datatype ReadError = End | ShortPayload | TooLong | BadCrc | CorruptDeflate(cause: SourceError) | SourceFailed(cause: SourceError)

  datatype Member = Member(src: Source, hash: Hash, want: u32, size: nat, deflated: bool)

  datatype Progress = Progress(at: At, crc: u32, read: nat, err: Option<ReadError>)

  function Fresh(m: Member): Progress { Progress(At(0, 0), m.hash.init, 0, None) }

  ghost predicate Valid(m: Member, p: Progress) {
    && p.read <= m.size && p.read <= |m.src.payload| && p.crc == Fold(m.hash, m.hash.init, m.src.payload[..p.read])
    && (p.err.None? ==> p.at.pos == p.read)
    && (p.err == Some(End) ==> p.read == m.size && Checksum(m.hash, m.src.payload[..m.size]) == m.want)
  }

  /** What one call gave its caller: the bytes it put into the buffer and the error it returned. */
  datatype Reply = Reply(bytes: seq<byte>, err: Option<ReadError>)

  function Classify(m: Member, e: SourceError): ReadError {
    if e == UnexpectedEof then ShortPayload else if m.deflated then CorruptDeflate(e) else SourceFailed(e)
  }

  /** One read with a buffer of `len` bytes, as a function of the reader's progress. */
  function Step(m: Member, p: Progress, len: nat): (r: (Progress, Reply))
    requires Valid(m, p)
  {
    if p.err.Some? then (p, Reply([], p.err))
    else if p.read == m.size then
      var e := Finish(m, p);
      (p.(err := Some(e), at := if m.deflated then After(m.src, p.at, 1) else p.at), Reply([], Some(e)))
    else
      var k := Min(len, m.size - p.read);
      var n, e := Filled(m.src, p.at, k), Failed(m.src, p.at, k);
      var got := m.src.payload[p.at.pos..p.at.pos + n];
      var q := Progress(After(m.src, p.at, k), Fold(m.hash, p.crc, got), p.read + n, None);
      if e.None? || (e.value == Eof && q.read == m.size) then (q, Reply(got, None))
      else
        var err := if e.value == Eof then ShortPayload else Classify(m, e.value);
        (q.(err := Some(err)), Reply(got, Some(err)))
  }

  function After(s: Source, at: At, len: nat): At
    requires at.pos <= |s.payload|
  {
    At(at.pos + Filled(s, at, len), at.calls + 1)
  }

  function Finish(m: Member, p: Progress): ReadError
    requires Valid(m, p) && p.err.None?
  {
    if m.deflated && Filled(m.src, p.at, 1) != 0 then TooLong
    else if m.hash.sum(p.crc) != m.want then BadCrc
    else End
  }

  /** The reader itself: its methods update its fields in place. */
  class MemberReader {
    const m: Member
    var at: At
    var crc: u32
    var read: nat
    var err: Option<ReadError>

    constructor (m: Member)
      ensures this.m == m && State() == Fresh(m) && Valid(m, State())
    {
      this.m := m;
      at, crc, read, err := At(0, 0), m.hash.init, 0, None;
    }

    function State(): Progress reads this { Progress(at, crc, read, err) }

    method Read(len: nat) returns (bytes: seq<byte>, e: Option<ReadError>)
      requires Valid(m, State())
      modifies this
      ensures (State(), Reply(bytes, e)) == Step(m, old(State()), len) && Valid(m, State())
    {
      StepValid(m, State(), len);
      if err.Some? { return [], err; }
      if read == m.size {
        e := FinishMember();
        return [], e;
      }
      var k := Min(len, m.size - read);
      var n, failed := Filled(m.src, at, k), Failed(m.src, at, k);
      bytes := m.src.payload[at.pos..at.pos + n];
      at := After(m.src, at, k);
      crc := Fold(m.hash, crc, bytes);
      read := read + n;
      if failed.None? || (failed.value == Eof && read == m.size) { return bytes, None; }
      if failed.value == Eof { err := Some(ShortPayload); } else { err := Some(Classify(m, failed.value)); }
      return bytes, err;
    }

    method FinishMember() returns (e: Option<ReadError>)
      requires Valid(m, State()) && err.None? && read == m.size
      modifies this
      ensures (State(), Reply([], e)) == Step(m, old(State()), 0)
    {
      if m.deflated {
        var n := Filled(m.src, at, 1);
        at := After(m.src, at, 1);
        if n != 0 { err := Some(TooLong); return err; }
      }
      if m.hash.sum(crc) != m.want { err := Some(BadCrc); return err; }
      err := Some(End);
      return err;
    }
  }

  /** A way to read bytes that holds exactly those bytes and is honest about them. */
  ghost predicate Section(open: seq<byte> -> Source) { forall b :: open(b).payload == b && Honest(open(b)) }

  /** A reader over the payload of an entry: STORED straight from the file, DEFLATE through the decoder. */
  function OpenMember(f: seq<byte>, central: nat, r: Record, l: Local, h: Hash, stored: seq<byte> -> Source, inflate: seq<byte> -> Source):
    Result<Member, ZipError>
    requires central <= |f|
  {
    if l.data + r.compressed > central then Err(PayloadRange)
    else
      var raw := f[l.data..l.data + r.compressed];
      if r.compression == 0 then
        if r.compressed != r.uncompressed then Err(BadStoredSize)
        else Ok(Member(stored(raw), h, r.crc, r.uncompressed, false))
      else if r.compression == 8 then Ok(Member(inflate(raw), h, r.crc, r.uncompressed, true))
      else Err(Unsupported)
  }

  /** A STORED member is never short or too long: what it deserves is decided by the CRC of the bytes in the file alone. */
  lemma StoredVerdict(f: seq<byte>, central: nat, r: Record, l: Local, h: Hash, stored: seq<byte> -> Source, inflate: seq<byte> -> Source)
    requires central <= |f| && r.compression == 0 && OpenMember(f, central, r, l, h, stored, inflate).Ok? && Section(stored)
    ensures var m := OpenMember(f, central, r, l, h, stored, inflate).value;
            && m.src.payload[..Min(m.size, |m.src.payload|)] == f[l.data..l.data + r.uncompressed] && Honest(m.src)
            && Verdict(m) == if Checksum(h, f[l.data..l.data + r.uncompressed]) == r.crc then End else BadCrc
  {
    hide Honest;
    var raw := f[l.data..l.data + r.compressed];
    DropAll(raw);
  }

  /** Every step keeps the reader valid, delivers the next piece of the payload, fits the buffer, and reports exactly the
      error it then keeps. */
  lemma StepValid(m: Member, p: Progress, len: nat)
    requires Valid(m, p)
    ensures var (q, r) := Step(m, p, len);
            && Valid(m, q) && p.read <= q.read && r.bytes == m.src.payload[p.read..q.read] && |r.bytes| <= len
            && r.err == q.err && (p.err.Some? ==> q == p)
  {
    hide Fold;
    if p.err.None? && p.read != m.size {
      NextFold(m, p, Filled(m.src, p.at, Min(len, m.size - p.read)));
    }
  }

  lemma NextFold(m: Member, p: Progress, n: nat)
    requires Valid(m, p) && p.read + n <= |m.src.payload|
    ensures Fold(m.hash, p.crc, m.src.payload[p.read..p.read + n]) == Fold(m.hash, m.hash.init, m.src.payload[..p.read + n])
  {
    var got := m.src.payload[p.read..p.read + n];
    FoldAppend(m.hash, m.hash.init, m.src.payload[..p.read], got);
    assert m.src.payload[..p.read + n] == m.src.payload[..p.read] + got;
  }

  // ---- Whole runs ----

  /** The progress after reading with the given buffer lengths, one call each, from the start. */
  function Run(m: Member, lens: seq<nat>): (p: Progress)
    ensures Valid(m, p)
  {
    if lens == [] then Fresh(m)
    else
      var p := Run(m, lens[..|lens| - 1]);
      StepValid(m, p, lens[|lens| - 1]);
      Step(m, p, lens[|lens| - 1]).0
  }

  /** The reply to the last call of a run. */
  function LastReply(m: Member, lens: seq<nat>): Reply
    requires lens != []
  {
    Step(m, Run(m, lens[..|lens| - 1]), lens[|lens| - 1]).1
  }

  /** Everything the calls delivered. */
  function Delivered(m: Member, lens: seq<nat>): seq<byte> {
    if lens == [] then [] else Delivered(m, lens[..|lens| - 1]) + LastReply(m, lens).bytes
  }

  /** For every source and all buffer sizes: what was delivered is a prefix of the payload, never longer than the declared
      size; a clean end comes only after exactly that many bytes with the declared CRC. */
  lemma {:induction false} RunDeliversPrefix(m: Member, lens: seq<nat>)
    ensures var p := Run(m, lens);
            p.read <= m.size && p.read <= |m.src.payload| && Delivered(m, lens) == m.src.payload[..p.read]
    ensures lens != [] && LastReply(m, lens).err == Some(End) ==>
              Delivered(m, lens) == m.src.payload[..m.size] && |Delivered(m, lens)| == m.size
              && Checksum(m.hash, Delivered(m, lens)) == m.want
  {
    hide Step, Fold;
    if lens != [] {
      var before := lens[..|lens| - 1];
      RunDeliversPrefix(m, before);
      StepValid(m, Run(m, before), lens[|lens| - 1]);
    }
  }

  /** Once a call returned an error, every later one returns the same error and no byte. */
  lemma {:induction false} ErrorsStick(m: Member, lens: seq<nat>, more: seq<nat>)
    requires lens != [] && LastReply(m, lens).err.Some?
    ensures Run(m, lens + more) == Run(m, lens) && Delivered(m, lens + more) == Delivered(m, lens)
    ensures LastReply(m, lens + more).err == LastReply(m, lens).err
  {
    hide Valid, Step;
    if more == [] {
      StepValid(m, Run(m, lens[..|lens| - 1]), lens[|lens| - 1]);
      assert lens + more == lens;
    } else {
      var init, len := more[..|more| - 1], more[|more| - 1];
      ErrorsStick(m, lens, init);
      LastKept(m, lens);
      StepStuck(m, Run(m, lens + init), len);
      assert (lens + more)[..|lens + more| - 1] == lens + init && (lens + more)[|lens + more| - 1] == len;
    }
  }

  lemma LastKept(m: Member, lens: seq<nat>)
    requires lens != []
    ensures Run(m, lens).err == LastReply(m, lens).err
  {
    hide Valid, Step;
    StepValid(m, Run(m, lens[..|lens| - 1]), lens[|lens| - 1]);
  }

  lemma StepStuck(m: Member, p: Progress, len: nat)
    requires Valid(m, p) && p.err.Some?
    ensures Step(m, p, len) == (p, Reply([], p.err))
  {
  }

  /** What the payload deserves, whoever reads it and however. */
  function Verdict(m: Member): ReadError {
    if |m.src.payload| < m.size then ShortPayload
    else if m.deflated && |m.src.payload| > m.size then TooLong
    else if Checksum(m.hash, m.src.payload[..m.size]) != m.want then BadCrc
    else End
  }

  lemma StepVerdict(m: Member, p: Progress, len: nat)
    requires Honest(m.src) && Valid(m, p) && p.err.None?
    ensures var q := Step(m, p, len).0;
            && (q.err.Some? ==> q.err == Some(Verdict(m)) && q.read == Min(m.size, |m.src.payload|))
            && (len > 0 && q.err.None? ==> q.read > p.read)
  {
    var k := Min(len, m.size - p.read);
    if p.read == m.size {
      var n, e := Filled(m.src, p.at, 1), Failed(m.src, p.at, 1);
      assert p.at.pos <= |m.src.payload|;
    } else {
      var n, e := Filled(m.src, p.at, k), Failed(m.src, p.at, k);
      assert p.at.pos <= |m.src.payload|;
    }
  }

  /** Over an honest source every run that reaches an error reaches the verdict, having delivered all there is up to the
      declared size; and one more call than there are bytes, with real buffers, always reaches it. So neither the caller's
      buffer sizes nor the way the source splits its reads can change what is read. */
  lemma {:induction false} RunReachesVerdict(m: Member, lens: seq<nat>)
    requires Honest(m.src)
    ensures var p := Run(m, lens);
            && (p.err.Some? ==> p.err == Some(Verdict(m)) && Delivered(m, lens) == m.src.payload[..Min(m.size, |m.src.payload|)])
            && ((forall i :: 0 <= i < |lens| ==> lens[i] > 0) ==> p.err.Some? || p.read >= |lens|)
    ensures (forall i :: 0 <= i < |lens| ==> lens[i] > 0) && |lens| > m.size ==> LastReply(m, lens).err == Some(Verdict(m))
  {
    RunDeliversPrefix(m, lens);
    if lens != [] {
      var before, len := lens[..|lens| - 1], lens[|lens| - 1];
      RunReachesVerdict(m, before);
      RunDeliversPrefix(m, before);
      var p := Run(m, before);
      StepValid(m, p, len);
      if p.err.None? { StepVerdict(m, p, len); }
    }
  }

  /** `copyAll`: reads to the first error with a fixed buffer, and so copies all there is up to the declared size. */
  method CopyAll(m: Member) returns (out: seq<byte>, e: ReadError)
    requires Honest(m.src)
    ensures out == m.src.payload[..Min(m.size, |m.src.payload|)] && e == Verdict(m)
  {
    hide Step, Honest, Verdict;
    var reader := new MemberReader(m);
    out := [];
    while true
      invariant Valid(m, reader.State()) && reader.m == m && reader.err.None? && out == m.src.payload[..reader.read]
      invariant fresh(reader)
      decreases m.size - reader.read
    {
      StepValid(m, reader.State(), 0x10_0000);
      StepVerdict(m, reader.State(), 0x10_0000);
      var bytes, err := reader.Read(0x10_0000);
      out := out + bytes;
      if err.Some? { return out, err.value; }
    }
  }
}
