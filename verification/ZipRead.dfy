/** The strict classic-ZIP directory reader: the end record is searched backwards, the central directory is walked record
    by record (sections 4.3.12 and 4.3.16 of PKWARE APPNOTE.TXT). A file is a sequence of bytes. */
module ZipRead {
  import opened Wrappers
  import opened Bytes
  import opened Sequences

  datatype ZipError =
    | TruncatedEocd | EocdNotFound | MultiDisk | Zip64 | TooManyEntries | CentralTooBig | FieldTooBig | ImpossibleRange
    | TruncatedHeader | BadSignature | FieldOutOfRange | MalformedExtra | ImpossibleOffset | Rejected | CountMismatch
    | Truncated | PayloadRange | BadStoredSize | Unsupported

  const EOCD_SIG: seq<byte> := [0x50, 0x4B, 0x05, 0x06]
  const LOCATOR_SIG: seq<byte> := [0x50, 0x4B, 0x06, 0x07]
  const CENTRAL_SIG: seq<byte> := [0x50, 0x4B, 0x01, 0x02]
  const EOCD_SIZE: nat := 22
  const CENTRAL_SIZE: nat := 46
  const TAIL_SIZE: nat := 65557

  predicate SigAt(f: seq<byte>, o: nat, sig: seq<byte>)
    requires |sig| == 4
  {
    o + 4 <= |f| && f[o] == sig[0] && f[o + 1] == sig[1] && f[o + 2] == sig[2] && f[o + 3] == sig[3]
  }

  // ---- The end record ----

  /** A 22-byte end record at `o` whose comment ends exactly at the end of the file. */
  predicate EndsFile(f: seq<byte>, o: nat) {
    SigAt(f, o, EOCD_SIG) && o + EOCD_SIZE <= |f| && o + EOCD_SIZE + Le16(f, o + 20) == |f|
  }

  /** The greatest such offset in the whole file. */
  ghost predicate IsEocd(f: seq<byte>, o: nat) {
    EndsFile(f, o) && forall p: nat :: p > o ==> !EndsFile(f, p)
  }

  lemma EocdUnique(f: seq<byte>, o: nat, p: nat)
    requires IsEocd(f, o) && IsEocd(f, p)
    ensures o == p
  {
  }

  /** `bytes.LastIndex(b[:n], signature)`. */
  function LastSig(b: seq<byte>, n: nat): (i: Option<nat>)
    requires n <= |b|
    ensures i.Some? ==> i.value + 4 <= n && SigAt(b, i.value, EOCD_SIG)
    ensures forall k: nat :: (i.Some? ==> k > i.value) && k + 4 <= n ==> !SigAt(b, k, EOCD_SIG)
  {
    if n < 4 then None
    else if SigAt(b, n - 4, EOCD_SIG) then Some(n - 4)
    else LastSig(b, n - 1)
  }

  /** The signature does not overlap itself, so searching on below a candidate skips none. */
  lemma SigsApart(b: seq<byte>, i: nat, j: nat)
    requires SigAt(b, i, EOCD_SIG) && SigAt(b, j, EOCD_SIG) && i < j
    ensures i + 4 <= j
  {
    assert j != i + 1 && j != i + 2 && j != i + 3;
  }

  method FindEocd(f: seq<byte>) returns (r: Result<nat, ZipError>)
    ensures r.Ok? ==> IsEocd(f, r.value)
    ensures r.Err? ==> r.error in {TruncatedEocd, EocdNotFound} && forall o: nat :: !EndsFile(f, o)
  {
    hide LastSig, IsEocd, EndsFile, SigAt, Le16;
    var size := |f|;
    BeyondEnd(f);
    if size < EOCD_SIZE { return Err(TruncatedEocd); }
    var fixed := size - EOCD_SIZE;
    if SigAt(f, fixed, EOCD_SIG) && Le16(f, fixed + 20) == 0 {
      FixedEnd(f);
      return Ok(fixed);
    }
    var length := Min(size, TAIL_SIZE);
    var base := size - length;
    r := SearchTail(f, base, f[base..]);
  }

  /** The search from the end of the tail down, candidate by candidate. */
  method SearchTail(f: seq<byte>, base: nat, tail: seq<byte>) returns (r: Result<nat, ZipError>)
    requires base <= |f| && base == |f| - Min(|f|, TAIL_SIZE) && tail == f[base..]
    ensures r.Ok? ==> IsEocd(f, r.value)
    ensures r.Err? ==> r.error == EocdNotFound && forall o: nat :: !EndsFile(f, o)
  {
    hide LastSig, IsEocd, EndsFile, SigAt, Le16, Min;
    var start := |tail|;
    BeyondEnd(f);
    while true
      invariant 0 <= start <= |tail|
      invariant start < |tail| ==> SigAt(tail, start, EOCD_SIG)
      invariant forall o: nat :: o >= base + start ==> !EndsFile(f, o)
      decreases start
    {
      var found := LastSig(tail, start);
      NoneBetween(f, base, start);
      if found.None? { return Err(EocdNotFound); }
      var k := found.value;
      TailSig(f, base, k);
      CandidateEnds(tail, k);
      if k + EOCD_SIZE <= |tail| && k + EOCD_SIZE + Le16(tail, k + 20) == |tail| {
        Greatest(f, base + k);
        return Ok(base + k);
      }
      start := k;
    }
  }

  lemma FixedEnd(f: seq<byte>)
    requires |f| >= EOCD_SIZE && SigAt(f, |f| - EOCD_SIZE, EOCD_SIG) && Le16(f, |f| - EOCD_SIZE + 20) == 0
    ensures IsEocd(f, |f| - EOCD_SIZE)
  {
  }

  lemma BeyondEnd(f: seq<byte>)
    ensures forall o: nat :: o >= |f| ==> !EndsFile(f, o)
    ensures |f| < EOCD_SIZE ==> forall o: nat :: !EndsFile(f, o)
  {
  }

  lemma CandidateEnds(b: seq<byte>, k: nat)
    requires SigAt(b, k, EOCD_SIG)
    ensures EndsFile(b, k) <==> k + EOCD_SIZE <= |b| && k + EOCD_SIZE + Le16(b, k + 20) == |b|
  {
  }

  lemma Greatest(f: seq<byte>, o: nat)
    requires EndsFile(f, o) && forall p: nat :: p > o ==> !EndsFile(f, p)
    ensures IsEocd(f, o)
  {
  }

  lemma TailSig(f: seq<byte>, base: nat, k: nat)
    requires base <= |f|
    ensures SigAt(f[base..], k, EOCD_SIG) <==> SigAt(f, base + k, EOCD_SIG)
    ensures EndsFile(f[base..], k) <==> EndsFile(f, base + k)
  {
  }

  /** Below a candidate, nothing ends the file except at or under the next signature found there; and no end record lies
      before the last 65557 bytes. */
  lemma NoneBetween(f: seq<byte>, base: nat, start: nat)
    requires base <= |f| && base == |f| - Min(|f|, TAIL_SIZE) && start <= |f| - base
    requires start < |f| - base ==> SigAt(f[base..], start, EOCD_SIG)
    requires forall o: nat :: o >= base + start ==> !EndsFile(f, o)
    ensures var found := LastSig(f[base..], start);
            forall o: nat :: (found.Some? ==> o > base + found.value) ==> !EndsFile(f, o)
  {
    hide SigAt, EndsFile;
    forall o: nat | EndsFile(f, o) && o < base + start
      ensures base <= o && SigAt(f[base..], o - base, EOCD_SIG) && o - base + 4 <= start
    {
      LateSig(f, base, start, o);
    }
  }

  lemma LateSig(f: seq<byte>, base: nat, start: nat, o: nat)
    requires base <= |f| && base == |f| - Min(|f|, TAIL_SIZE) && start <= |f| - base
    requires start < |f| - base ==> SigAt(f[base..], start, EOCD_SIG)
    requires EndsFile(f, o) && o < base + start
    ensures base <= o && SigAt(f[base..], o - base, EOCD_SIG) && o - base + 4 <= start
  {
    EndsLate(f, o);
    TailSig(f, base, o - base);
    if start < |f| - base { SigsApart(f[base..], o - base, start); }
  }

  lemma EndsLate(f: seq<byte>, o: nat)
    requires EndsFile(f, o)
    ensures o >= |f| - TAIL_SIZE
  {
  }

  // ---- One central-directory record ----

  /** A central-directory record with everything it carries. */
  datatype Record = Record(
    madeBy: u16, needed: u16, flags: u16, compression: u16, time: u16, date: u16,
    crc: u32, compressed: u32, uncompressed: u32,
    disk: u16, internal_: u16, external: u32, offset: u32,
    name: seq<byte>, extra: seq<byte>, comment: seq<byte>)

  function Size(r: Record): nat { CENTRAL_SIZE + |r.name| + |r.extra| + |r.comment| }

  predicate Encodable(r: Record) { |r.name| < 0x1_0000 && |r.extra| < 0x1_0000 && |r.comment| < 0x1_0000 }

  /** The bytes from `o` on spell the record, field by field as section 4.3.12 lays them out. */
  ghost predicate RecordAt(f: seq<byte>, o: nat, r: Record) {
    && o + Size(r) <= |f| && SigAt(f, o, CENTRAL_SIG)
    && Le16(f, o + 4) == r.madeBy && Le16(f, o + 6) == r.needed && Le16(f, o + 8) == r.flags && Le16(f, o + 10) == r.compression
    && Le16(f, o + 12) == r.time && Le16(f, o + 14) == r.date && Le32(f, o + 16) == r.crc
    && Le32(f, o + 20) == r.compressed && Le32(f, o + 24) == r.uncompressed
    && Le16(f, o + 28) == |r.name| && Le16(f, o + 30) == |r.extra| && Le16(f, o + 32) == |r.comment|
    && Le16(f, o + 34) == r.disk && Le16(f, o + 36) == r.internal_ && Le32(f, o + 38) == r.external && Le32(f, o + 42) == r.offset
    && f[o + 46..o + 46 + |r.name|] == r.name
    && f[o + 46 + |r.name|..o + 46 + |r.name| + |r.extra|] == r.extra
    && f[o + 46 + |r.name| + |r.extra|..o + Size(r)] == r.comment
  }

  lemma RecordAtUnique(f: seq<byte>, o: nat, r: Record, q: Record)
    requires RecordAt(f, o, r) && RecordAt(f, o, q)
    ensures r == q
  {
  }

  /** Whatever the bytes behind a signature are, they spell exactly one record, if its variable part fits. */
  function Decode(f: seq<byte>, o: nat): (r: Record)
    requires o + CENTRAL_SIZE <= |f|
    requires o + CENTRAL_SIZE + Le16(f, o + 28) + Le16(f, o + 30) + Le16(f, o + 32) <= |f|
    ensures Encodable(r) && Size(r) == CENTRAL_SIZE + Le16(f, o + 28) + Le16(f, o + 30) + Le16(f, o + 32)
    ensures SigAt(f, o, CENTRAL_SIG) ==> RecordAt(f, o, r)
  {
    var n, x, c := Le16(f, o + 28), Le16(f, o + 30), Le16(f, o + 32);
    Record(Le16(f, o + 4), Le16(f, o + 6), Le16(f, o + 8), Le16(f, o + 10), Le16(f, o + 12), Le16(f, o + 14),
           Le32(f, o + 16), Le32(f, o + 20), Le32(f, o + 24), Le16(f, o + 34), Le16(f, o + 36), Le32(f, o + 38), Le32(f, o + 42),
           f[o + 46..o + 46 + n], f[o + 46 + n..o + 46 + n + x], f[o + 46 + n + x..o + 46 + n + x + c])
  }

  // ---- Extra fields ----

  /** An extra-field area is a run of (kind, length, data) blocks that ends with the area, none of them ZIP64. */
  predicate ExtraOK(x: seq<byte>) {
    if x == [] then true
    else
      && |x| >= 4 && 4 + Le16(x, 2) <= |x| && Le16(x, 0) != 1
      && ExtraOK(x[4 + Le16(x, 2)..])
  }

  method ScanExtra(x: seq<byte>) returns (err: Option<ZipError>)
    ensures err.None? <==> ExtraOK(x)
    ensures err.Some? ==> err.value in {MalformedExtra, Zip64}
  {
    hide ExtraOK, Le16;
    var cursor := 0;
    assert x[0..] == x;
    while cursor < |x|
      invariant 0 <= cursor <= |x|
      invariant ExtraOK(x[cursor..]) == ExtraOK(x)
    {
      NextBlock(x, cursor);
      if cursor + 4 > |x| { return Some(MalformedExtra); }
      var kind, length := Le16(x, cursor), Le16(x, cursor + 2);
      cursor := cursor + 4;
      if cursor + length > |x| { return Some(MalformedExtra); }
      if kind == 1 { return Some(Zip64); }
      cursor := cursor + length;
    }
    NoBlocks(x);
    return None;
  }

  lemma NextBlock(x: seq<byte>, o: nat)
    requires o < |x|
    ensures ExtraOK(x[o..]) <==>
              && o + 4 <= |x| && o + 4 + Le16(x, o + 2) <= |x| && Le16(x, o) != 1 && ExtraOK(x[o + 4 + Le16(x, o + 2)..])
  {
    var rest := x[o..];
    if |rest| >= 4 {
      assert Le16(rest, 0) == Le16(x, o) && Le16(rest, 2) == Le16(x, o + 2);
      hide Le16;
      if 4 + Le16(rest, 2) <= |rest| { assert rest[4 + Le16(rest, 2)..] == x[o + 4 + Le16(x, o + 2)..]; }
    }
  }

  lemma NoBlocks(x: seq<byte>)
    ensures ExtraOK(x[|x|..])
  {
  }

  // ---- The central directory ----

  datatype Caps = Caps(maxCentral: nat, maxEntries: nat, maxField: nat)

  /** Where the central directory lies: its file, the prefix before the archive, its first byte and the end record. */
  datatype Frame = Frame(f: seq<byte>, prefix: nat, central: nat, eocd: nat, maxField: nat)

  /** What a record must satisfy besides its layout: fields within the cap, a well-formed extra area, no ZIP64 marker, and
      a local header before the central directory. */
  predicate Acceptable(c: Frame, r: Record) {
    && |r.name| <= c.maxField && |r.extra| <= c.maxField && |r.comment| <= c.maxField
    && ExtraOK(r.extra)
    && r.disk == 0 && r.compressed != 0xFFFF_FFFF && r.uncompressed != 0xFFFF_FFFF && r.offset != 0xFFFF_FFFF
    && r.offset + c.prefix < c.central
  }

  /** One record, with the refusals in the order the code makes them. */
  method ReadRecord(c: Frame, o: nat) returns (r: Result<Record, ZipError>)
    requires c.eocd <= |c.f|
    ensures r.Ok? ==> RecordAt(c.f, o, r.value) && o + Size(r.value) <= c.eocd && Acceptable(c, r.value)
    ensures r.Err? ==> forall q :: RecordAt(c.f, o, q) && o + Size(q) <= c.eocd ==> !Acceptable(c, q)
  {
    if o + CENTRAL_SIZE > c.eocd { return Err(TruncatedHeader); }
    if !SigAt(c.f, o, CENTRAL_SIG) { return Err(BadSignature); }
    var n, x, k := Le16(c.f, o + 28), Le16(c.f, o + 30), Le16(c.f, o + 32);
    if n > c.maxField || x > c.maxField || k > c.maxField { return Err(FieldTooBig); }
    if o + CENTRAL_SIZE + n + x + k > c.eocd { return Err(FieldOutOfRange); }
    var rec := Decode(c.f, o);
    OnlyRecord(c.f, o, rec);
    var bad := ScanExtra(rec.extra);
    if bad.Some? { return Err(bad.value); }
    if rec.disk != 0 || rec.compressed == 0xFFFF_FFFF || rec.uncompressed == 0xFFFF_FFFF || rec.offset == 0xFFFF_FFFF {
      return Err(Zip64);
    }
    if rec.offset + c.prefix >= c.central { return Err(ImpossibleOffset); }
    return Ok(rec);
  }

  lemma OnlyRecord(f: seq<byte>, o: nat, r: Record)
    requires RecordAt(f, o, r)
    ensures forall q :: RecordAt(f, o, q) ==> q == r
  {
    forall q | RecordAt(f, o, q) ensures q == r { RecordAtUnique(f, o, r, q); }
  }

  /** The records lie one behind the other from `o` to exactly `end`. */
  ghost predicate Tiles(f: seq<byte>, o: nat, rs: seq<Record>, end: nat)
    decreases |rs|
  {
    if rs == [] then o == end else RecordAt(f, o, rs[0]) && Tiles(f, o + Size(rs[0]), rs[1..], end)
  }

  /** Every record is acceptable, and the caller admits each on top of those before it. */
  ghost predicate Admitted(c: Frame, rs: seq<Record>, admit: seq<Record> -> bool) {
    forall i :: 0 <= i < |rs| ==> Acceptable(c, rs[i]) && admit(rs[..i + 1])
  }

  lemma {:induction false} TilesSnoc(f: seq<byte>, o: nat, rs: seq<Record>, m: nat, r: Record)
    requires Tiles(f, o, rs, m) && RecordAt(f, m, r)
    ensures Tiles(f, o, rs + [r], m + Size(r))
    decreases |rs|
  {
    hide RecordAt, ExtraOK;
    if rs == [] {
      assert ([] + [r])[1..] == [];
    } else {
      TilesSnoc(f, o + Size(rs[0]), rs[1..], m, r);
      assert (rs + [r])[1..] == rs[1..] + [r];
    }
  }

  lemma {:induction false} TilesSplit(f: seq<byte>, o: nat, rs: seq<Record>, k: nat, end: nat) returns (m: nat)
    requires Tiles(f, o, rs, end) && k <= |rs|
    ensures Tiles(f, o, rs[..k], m) && Tiles(f, m, rs[k..], end) && m <= end
    decreases |rs|
  {
    hide RecordAt, ExtraOK;
    if k == 0 {
      m := o;
      assert rs[..0] == [] && rs[0..] == rs;
      TilesForward(f, o, rs, end);
    } else {
      m := TilesSplit(f, o + Size(rs[0]), rs[1..], k - 1, end);
      assert rs[..k][0] == rs[0] && rs[..k][1..] == rs[1..][..k - 1] && rs[k..] == rs[1..][k - 1..];
    }
  }

  lemma {:induction false} TilesForward(f: seq<byte>, o: nat, rs: seq<Record>, end: nat)
    requires Tiles(f, o, rs, end)
    ensures o <= end
    decreases |rs|
  {
    hide RecordAt, ExtraOK;
    if rs != [] { TilesForward(f, o + Size(rs[0]), rs[1..], end); }
  }

  /** The two tilings of one region with equally many records are the same. */
  lemma {:induction false} TilesUnique(f: seq<byte>, o: nat, rs: seq<Record>, m: nat, qs: seq<Record>, end: nat)
    requires Tiles(f, o, rs, m) && Tiles(f, o, qs, end) && |rs| <= |qs|
    ensures rs == qs[..|rs|]
    decreases |rs|
  {
    hide RecordAt, ExtraOK;
    if rs != [] {
      RecordAtUnique(f, o, rs[0], qs[0]);
      TilesUnique(f, o + Size(rs[0]), rs[1..], m, qs[1..], end);
      assert rs == [rs[0]] + rs[1..] && qs[..|rs|] == [qs[0]] + qs[1..][..|rs| - 1];
    }
  }

  /** A central directory of `n` records: they tile the region before the end record, and all of them are admitted. */
  ghost predicate Central(c: Frame, n: nat, rs: seq<Record>, admit: seq<Record> -> bool) {
    |rs| == n && Tiles(c.f, c.central, rs, c.eocd) && Admitted(c, rs, admit)
  }

  method ReadCentral(c: Frame, n: nat, admit: seq<Record> -> bool) returns (r: Result<seq<Record>, ZipError>)
    requires c.central <= c.eocd <= |c.f|
    ensures r.Ok? ==> Central(c, n, r.value, admit)
    ensures r.Err? ==> forall rs :: !Central(c, n, rs, admit)
  {
    hide RecordAt, Acceptable, ExtraOK;
    var position: nat := c.central;
    var entries: seq<Record> := [];
    for index := 0 to n
      invariant |entries| == index && position <= c.eocd
      invariant Tiles(c.f, c.central, entries, position) && Admitted(c, entries, admit)
    {
      var rec := ReadRecord(c, position);
      if rec.Err? {
        NoCentral(c, n, entries, position, admit);
        return Err(rec.error);
      }
      TilesSnoc(c.f, c.central, entries, position, rec.value);
      if !admit(entries + [rec.value]) {
        NotAdmitted(c, n, entries + [rec.value], position + Size(rec.value), admit);
        return Err(Rejected);
      }
      AdmittedSnoc(c, entries, rec.value, admit);
      entries := entries + [rec.value];
      position := position + Size(rec.value);
    }
    if position != c.eocd {
      WrongEnd(c, n, entries, position, admit);
      return Err(CountMismatch);
    }
    return Ok(entries);
  }

  lemma AdmittedSnoc(c: Frame, rs: seq<Record>, r: Record, admit: seq<Record> -> bool)
    requires Admitted(c, rs, admit) && Acceptable(c, r) && admit(rs + [r])
    ensures Admitted(c, rs + [r], admit)
  {
    var q := rs + [r];
    forall i | 0 <= i < |q| ensures Acceptable(c, q[i]) && admit(q[..i + 1]) {
      if i < |rs| { assert q[..i + 1] == rs[..i + 1]; } else { assert q[..i + 1] == q; }
    }
  }

  /** Any central directory starts with the records already read, and the next one lies where the walk stands. */
  lemma CentralContinues(c: Frame, n: nat, rs: seq<Record>, done: seq<Record>, o: nat, admit: seq<Record> -> bool)
    requires Central(c, n, rs, admit) && |done| <= n && Tiles(c.f, c.central, done, o)
    ensures done == rs[..|done|]
    ensures |done| < n ==> RecordAt(c.f, o, rs[|done|]) && o + Size(rs[|done|]) <= c.eocd && Acceptable(c, rs[|done|])
    ensures |done| == n ==> o == c.eocd
  {
    hide RecordAt, ExtraOK, Acceptable;
    var k := |done|;
    var m := TilesSplit(c.f, c.central, rs, k, c.eocd);
    TilesUnique(c.f, c.central, done, o, rs, c.eocd);
    TilesEnd(c.f, c.central, done, o, m);
    if k < n { TilesForward(c.f, o + Size(rs[k]), rs[k..][1..], c.eocd); }
  }

  /** A record that cannot be read where the walk stands leaves no central directory at all. */
  lemma NoCentral(c: Frame, n: nat, done: seq<Record>, o: nat, admit: seq<Record> -> bool)
    requires |done| < n && Tiles(c.f, c.central, done, o)
    requires forall q :: RecordAt(c.f, o, q) && o + Size(q) <= c.eocd ==> !Acceptable(c, q)
    ensures forall rs :: !Central(c, n, rs, admit)
  {
    hide RecordAt, ExtraOK, Acceptable;
    forall rs | Central(c, n, rs, admit) ensures false { CentralContinues(c, n, rs, done, o, admit); }
  }

  lemma {:induction false} TilesEnd(f: seq<byte>, o: nat, rs: seq<Record>, m: nat, end: nat)
    requires Tiles(f, o, rs, m) && Tiles(f, o, rs, end)
    ensures m == end
    decreases |rs|
  {
    hide RecordAt, ExtraOK;
    if rs != [] { TilesEnd(f, o + Size(rs[0]), rs[1..], m, end); }
  }

  lemma CentralAdmits(c: Frame, n: nat, rs: seq<Record>, k: nat, admit: seq<Record> -> bool)
    requires Central(c, n, rs, admit) && 0 < k <= n
    ensures admit(rs[..k])
  {
    hide ExtraOK, RecordAt;
    assert Acceptable(c, rs[k - 1]);
  }

  lemma NotAdmitted(c: Frame, n: nat, done: seq<Record>, o: nat, admit: seq<Record> -> bool)
    requires 0 < |done| <= n && Tiles(c.f, c.central, done, o) && !admit(done)
    ensures forall rs :: !Central(c, n, rs, admit)
  {
    hide RecordAt, ExtraOK, Acceptable;
    forall rs | Central(c, n, rs, admit) ensures false {
      CentralContinues(c, n, rs, done, o, admit);
      CentralAdmits(c, n, rs, |done|, admit);
    }
  }

  lemma WrongEnd(c: Frame, n: nat, done: seq<Record>, o: nat, admit: seq<Record> -> bool)
    requires |done| == n && Tiles(c.f, c.central, done, o) && o != c.eocd
    ensures forall rs :: !Central(c, n, rs, admit)
  {
    hide RecordAt, ExtraOK, Acceptable;
    forall rs | Central(c, n, rs, admit) ensures false { CentralContinues(c, n, rs, done, o, admit); }
  }

  // ---- The whole directory ----

  /** The parsed directory: the prefix before the archive, the absolute central offset and size, the end record and the
      records. */
  datatype Directory = Directory(prefix: nat, central: nat, size: nat, eocd: nat, records: seq<Record>)

  /** What the end record at `e` declares: single disk, no ZIP64 marker or locator, counts and sizes within the caps, and a
      central directory that ends where the end record starts. */
  predicate EocdAcceptable(f: seq<byte>, e: nat, caps: Caps)
    requires EndsFile(f, e)
  {
    && Le16(f, e + 4) == 0 && Le16(f, e + 6) == 0 && Le16(f, e + 8) == Le16(f, e + 10)
    && Le16(f, e + 10) != 0xFFFF && Le32(f, e + 12) != 0xFFFF_FFFF && Le32(f, e + 16) != 0xFFFF_FFFF
    && !(e >= 20 && SigAt(f, e - 20, LOCATOR_SIG))
    && Le16(f, e + 10) <= caps.maxEntries && Le32(f, e + 12) <= caps.maxCentral && Le16(f, e + 20) <= caps.maxField
    && Le32(f, e + 12) + Le32(f, e + 16) <= e
  }

  /** The directory `d` is laid out in the file: the last end record says where it lies and how many records it has, and
      they tile the region from the central offset to the end record. */
  ghost predicate LaidOut(f: seq<byte>, caps: Caps, admit: seq<Record> -> bool, d: Directory) {
    && IsEocd(f, d.eocd) && EocdAcceptable(f, d.eocd, caps)
    && d.size == Le32(f, d.eocd + 12) && d.central == d.eocd - d.size && d.prefix == d.central - Le32(f, d.eocd + 16)
    && Central(Frame(f, d.prefix, d.central, d.eocd, caps.maxField), Le16(f, d.eocd + 10), d.records, admit)
  }

  /** The reader accepts a file exactly when some directory is laid out in it, and returns that one: nothing that is laid
      out is refused, and nothing else is accepted. */
  method ReadZipDirectory(f: seq<byte>, caps: Caps, admit: seq<Record> -> bool) returns (r: Result<Directory, ZipError>)
    ensures r.Ok? ==> LaidOut(f, caps, admit, r.value)
    ensures r.Err? ==> forall d :: !LaidOut(f, caps, admit, d)
  {
    var found := FindEocd(f);
    if found.Err? { return Err(found.error); }
    hide IsEocd, Central;
    var e := found.value;
    OnlyEocd(f, e, caps, admit);
    var read := ReadEocd(f, e, caps);
    if read.Err? { return Err(read.error); }
    var c := read.value;
    var rs := ReadCentral(c, Le16(f, e + 10), admit);
    if rs.Err? {
      NoneLaidOut(f, caps, admit, c, Le16(f, e + 10));
      return Err(rs.error);
    }
    return Ok(Directory(c.prefix, c.central, Le32(f, e + 12), e, rs.value));
  }

  /** What the end record declares, with the refusals in the order the code makes them. */
  method ReadEocd(f: seq<byte>, e: nat, caps: Caps) returns (r: Result<Frame, ZipError>)
    requires IsEocd(f, e)
    ensures r.Ok? <==> EocdAcceptable(f, e, caps)
    ensures r.Ok? ==> r.value == Frame(f, e - Le32(f, e + 12) - Le32(f, e + 16), e - Le32(f, e + 12), e, caps.maxField) && e <= |f|
  {
    assert EndsFile(f, e);
    hide IsEocd;
    var disk, cdDisk, diskEntries, entries := Le16(f, e + 4), Le16(f, e + 6), Le16(f, e + 8), Le16(f, e + 10);
    var cdSize, cdOffset, comment := Le32(f, e + 12), Le32(f, e + 16), Le16(f, e + 20);
    if disk != 0 || cdDisk != 0 || diskEntries != entries { return Err(MultiDisk); }
    if diskEntries == 0xFFFF || entries == 0xFFFF || cdSize == 0xFFFF_FFFF || cdOffset == 0xFFFF_FFFF { return Err(Zip64); }
    if e >= 20 && SigAt(f, e - 20, LOCATOR_SIG) { return Err(Zip64); }
    if entries > caps.maxEntries { return Err(TooManyEntries); }
    if cdSize > caps.maxCentral { return Err(CentralTooBig); }
    if comment > caps.maxField { return Err(FieldTooBig); }
    var prefix: int := e - cdSize - cdOffset;
    if prefix < 0 || cdOffset + prefix < 0 || cdOffset + prefix + cdSize != e { return Err(ImpossibleRange); }
    return Ok(Frame(f, prefix, cdOffset + prefix, e, caps.maxField));
  }

  lemma OnlyEocd(f: seq<byte>, e: nat, caps: Caps, admit: seq<Record> -> bool)
    requires IsEocd(f, e)
    ensures forall d :: LaidOut(f, caps, admit, d) ==> d.eocd == e && EocdAcceptable(f, e, caps)
  {
    hide Central;
    forall d | LaidOut(f, caps, admit, d) ensures d.eocd == e && EocdAcceptable(f, e, caps) { EocdUnique(f, e, d.eocd); }
  }

  lemma NoneLaidOut(f: seq<byte>, caps: Caps, admit: seq<Record> -> bool, c: Frame, n: nat)
    requires IsEocd(f, c.eocd) && c.f == f && c.maxField == caps.maxField && n == Le16(f, c.eocd + 10)
    requires c.central == c.eocd - Le32(f, c.eocd + 12) && c.prefix == c.central - Le32(f, c.eocd + 16)
    requires forall rs :: !Central(c, n, rs, admit)
    ensures forall d :: !LaidOut(f, caps, admit, d)
  {
    hide *;
    forall d | LaidOut(f, caps, admit, d) ensures false { LaidOutCentral(f, caps, admit, c, n, d); }
  }

  lemma LaidOutCentral(f: seq<byte>, caps: Caps, admit: seq<Record> -> bool, c: Frame, n: nat, d: Directory)
    requires IsEocd(f, c.eocd) && c.f == f && c.maxField == caps.maxField && n == Le16(f, c.eocd + 10)
    requires c.central == c.eocd - Le32(f, c.eocd + 12) && c.prefix == c.central - Le32(f, c.eocd + 16)
    requires LaidOut(f, caps, admit, d)
    ensures Central(c, n, d.records, admit)
  {
    hide Central;
    EocdUnique(f, c.eocd, d.eocd);
  }

  /** At most one directory is laid out in a file. */
  lemma LaidOutUnique(f: seq<byte>, caps: Caps, admit: seq<Record> -> bool, d: Directory, q: Directory)
    requires LaidOut(f, caps, admit, d) && LaidOut(f, caps, admit, q)
    ensures d == q
  {
    hide RecordAt, Acceptable, ExtraOK;
    EocdUnique(f, d.eocd, q.eocd);
    TilesUnique(f, d.central, d.records, d.eocd, q.records, d.eocd);
  }

  /** The staged metadata: the central directory and the end record with its comment. */
  function Metadata(f: seq<byte>, d: Directory): seq<byte>
    requires d.central + d.size <= |f| && d.eocd <= |f|
  {
    f[d.central..d.central + d.size] + f[d.eocd..]
  }

  /** It is the file from the central offset to its end. */
  lemma MetadataIsTail(f: seq<byte>, caps: Caps, admit: seq<Record> -> bool, d: Directory)
    requires LaidOut(f, caps, admit, d)
    ensures d.central + d.size == d.eocd && Metadata(f, d) == f[d.central..]
  {
  }

  // ---- Writing, and reading back ----

  /** Byte `i` of the fixed part of a record (section 4.3.12). */
  function HeaderByte(r: Record, i: nat): byte
    requires i < CENTRAL_SIZE
  {
    if i < 4 then CENTRAL_SIG[i]
    else if i < 6 then ByteOf(r.madeBy, i - 4)
    else if i < 8 then ByteOf(r.needed, i - 6)
    else if i < 10 then ByteOf(r.flags, i - 8)
    else if i < 12 then ByteOf(r.compression, i - 10)
    else if i < 14 then ByteOf(r.time, i - 12)
    else if i < 16 then ByteOf(r.date, i - 14)
    else if i < 20 then ByteOf(r.crc, i - 16)
    else if i < 24 then ByteOf(r.compressed, i - 20)
    else if i < 28 then ByteOf(r.uncompressed, i - 24)
    else if i < 30 then ByteOf(|r.name|, i - 28)
    else if i < 32 then ByteOf(|r.extra|, i - 30)
    else if i < 34 then ByteOf(|r.comment|, i - 32)
    else if i < 36 then ByteOf(r.disk, i - 34)
    else if i < 38 then ByteOf(r.internal_, i - 36)
    else if i < 42 then ByteOf(r.external, i - 38)
    else ByteOf(r.offset, i - 42)
  }

  function Header(r: Record): (h: seq<byte>)
    ensures |h| == CENTRAL_SIZE
  {
    seq(CENTRAL_SIZE, i requires 0 <= i < CENTRAL_SIZE => HeaderByte(r, i))
  }

  function Encode(r: Record): seq<byte> { Header(r) + r.name + r.extra + r.comment }

  function EncodeAll(rs: seq<Record>): seq<byte> { if rs == [] then [] else Encode(rs[0]) + EncodeAll(rs[1..]) }

  /** The end record (section 4.3.16) of a single-disk archive. */
  function EocdByte(n: nat, size: nat, offset: nat, comment: seq<byte>, i: nat): byte
    requires i < EOCD_SIZE
  {
    if i < 4 then EOCD_SIG[i]
    else if i < 8 then 0
    else if i < 10 then ByteOf(n, i - 8)
    else if i < 12 then ByteOf(n, i - 10)
    else if i < 16 then ByteOf(size, i - 12)
    else if i < 20 then ByteOf(offset, i - 16)
    else ByteOf(|comment|, i - 20)
  }

  function Eocd(n: nat, size: nat, offset: nat, comment: seq<byte>): seq<byte> {
    seq(EOCD_SIZE, i requires 0 <= i < EOCD_SIZE => EocdByte(n, size, offset, comment, i)) + comment
  }

  /** An archive: anything in front, the local part, the central directory and the end record. */
  function WriteZip(stub: seq<byte>, body: seq<byte>, rs: seq<Record>, comment: seq<byte>): seq<byte> {
    stub + body + EncodeAll(rs) + Eocd(|rs|, |EncodeAll(rs)|, |body|, comment)
  }

  /** The fixed part of the record is spelled at `o`. */
  ghost predicate HeaderAt(f: seq<byte>, o: nat, r: Record) {
    o + CENTRAL_SIZE <= |f| && forall i: nat :: i < CENTRAL_SIZE ==> f[o + i] == HeaderByte(r, i)
  }

  lemma Field16(f: seq<byte>, o: nat, r: Record, i: nat, n: u16)
    requires HeaderAt(f, o, r) && i + 2 <= CENTRAL_SIZE && HeaderByte(r, i) == ByteOf(n, 0) && HeaderByte(r, i + 1) == ByteOf(n, 1)
    ensures Le16(f, o + i) == n
  {
    hide ByteOf, HeaderByte;
    assert f[o + (i + 1)] == HeaderByte(r, i + 1);
    Le16Bytes(f, o + i, n);
  }

  lemma Field32(f: seq<byte>, o: nat, r: Record, i: nat, n: u32)
    requires HeaderAt(f, o, r) && i + 4 <= CENTRAL_SIZE
    requires forall k: nat :: k < 4 ==> HeaderByte(r, i + k) == ByteOf(n, k)
    ensures Le32(f, o + i) == n
  {
    hide ByteOf, HeaderByte;
    assert f[o + (i + 0)] == ByteOf(n, 0) && f[o + (i + 1)] == ByteOf(n, 1) && f[o + (i + 2)] == ByteOf(n, 2) && f[o + (i + 3)] == ByteOf(n, 3);
    Le32Bytes(f, o + i, n);
  }

  lemma HeaderFields(f: seq<byte>, o: nat, r: Record)
    requires HeaderAt(f, o, r) && Encodable(r)
    ensures SigAt(f, o, CENTRAL_SIG)
    ensures Le16(f, o + 4) == r.madeBy && Le16(f, o + 6) == r.needed && Le16(f, o + 8) == r.flags && Le16(f, o + 10) == r.compression
    ensures Le16(f, o + 12) == r.time && Le16(f, o + 14) == r.date && Le32(f, o + 16) == r.crc
    ensures Le32(f, o + 20) == r.compressed && Le32(f, o + 24) == r.uncompressed
    ensures Le16(f, o + 28) == |r.name| && Le16(f, o + 30) == |r.extra| && Le16(f, o + 32) == |r.comment|
    ensures Le16(f, o + 34) == r.disk && Le16(f, o + 36) == r.internal_ && Le32(f, o + 38) == r.external && Le32(f, o + 42) == r.offset
  {
    hide ByteOf, Le16, Le32;
    Field16(f, o, r, 4, r.madeBy);
    Field16(f, o, r, 6, r.needed);
    Field16(f, o, r, 8, r.flags);
    Field16(f, o, r, 10, r.compression);
    Field16(f, o, r, 12, r.time);
    Field16(f, o, r, 14, r.date);
    Field32(f, o, r, 16, r.crc);
    Field32(f, o, r, 20, r.compressed);
    Field32(f, o, r, 24, r.uncompressed);
    Field16(f, o, r, 28, |r.name|);
    Field16(f, o, r, 30, |r.extra|);
    Field16(f, o, r, 32, |r.comment|);
    Field16(f, o, r, 34, r.disk);
    Field16(f, o, r, 36, r.internal_);
    Field32(f, o, r, 38, r.external);
    Field32(f, o, r, 42, r.offset);
    assert f[o + 0] == HeaderByte(r, 0) && f[o + 1] == HeaderByte(r, 1) && f[o + 2] == HeaderByte(r, 2) && f[o + 3] == HeaderByte(r, 3);
  }

  lemma FieldsHeader(f: seq<byte>, o: nat, r: Record)
    requires RecordAt(f, o, r)
    ensures HeaderAt(f, o, r)
  {
    hide ByteOf, Le16, Le32;
    BytesOfLe16(f, o + 4);
    BytesOfLe16(f, o + 6);
    BytesOfLe16(f, o + 8);
    BytesOfLe16(f, o + 10);
    BytesOfLe16(f, o + 12);
    BytesOfLe16(f, o + 14);
    BytesOfLe32(f, o + 16);
    BytesOfLe32(f, o + 20);
    BytesOfLe32(f, o + 24);
    BytesOfLe16(f, o + 28);
    BytesOfLe16(f, o + 30);
    BytesOfLe16(f, o + 32);
    BytesOfLe16(f, o + 34);
    BytesOfLe16(f, o + 36);
    BytesOfLe32(f, o + 38);
    BytesOfLe32(f, o + 42);
  }

  /** A region spells a record exactly when its bytes are the encoding of the record. */
  lemma RecordAtEncodes(f: seq<byte>, o: nat, r: Record)
    requires Encodable(r) && o + Size(r) <= |f|
    ensures RecordAt(f, o, r) <==> f[o..o + Size(r)] == Encode(r)
  {
    hide *;
    if RecordAt(f, o, r) { RecordEncoded(f, o, r); }
    if f[o..o + Size(r)] == Encode(r) { EncodedRecord(f, o, r); }
  }

  lemma RecordEncoded(f: seq<byte>, o: nat, r: Record)
    requires RecordAt(f, o, r)
    ensures f[o..o + Size(r)] == Encode(r)
  {
    hide *;
    FieldsHeader(f, o, r);
    RecordFields(f, o, r);
    HeaderSpelled(f, o, r);
    Glue(f, o, o + 46, o + 46 + |r.name|, o + 46 + |r.name| + |r.extra|, o + Size(r));
  }

  lemma RecordFields(f: seq<byte>, o: nat, r: Record)
    requires RecordAt(f, o, r)
    ensures o + Size(r) <= |f| && Size(r) == 46 + |r.name| + |r.extra| + |r.comment|
    ensures f[o + 46..o + 46 + |r.name|] == r.name
    ensures f[o + 46 + |r.name|..o + 46 + |r.name| + |r.extra|] == r.extra
    ensures f[o + 46 + |r.name| + |r.extra|..o + Size(r)] == r.comment
    ensures Encode(r) == Header(r) + r.name + r.extra + r.comment
  {
    hide Header;
  }

  lemma HeaderSpelled(f: seq<byte>, o: nat, r: Record)
    requires HeaderAt(f, o, r)
    ensures o + 46 <= |f| && f[o..o + 46] == Header(r)
  {
    hide HeaderByte;
  }

  lemma Glue<T>(f: seq<T>, a: nat, b: nat, c: nat, d: nat, e: nat)
    requires a <= b <= c <= d <= e <= |f|
    ensures f[a..e] == f[a..b] + f[b..c] + f[c..d] + f[d..e]
  {
    assert f[a..c] == f[a..b] + f[b..c] && f[a..d] == f[a..c] + f[c..d] && f[a..e] == f[a..d] + f[d..e];
  }

  lemma EncodedRecord(f: seq<byte>, o: nat, r: Record)
    requires Encodable(r) && o + Size(r) <= |f| && f[o..o + Size(r)] == Encode(r)
    ensures RecordAt(f, o, r)
  {
    hide HeaderByte, SigAt, Le16, Le32;
    forall i: nat | i < CENTRAL_SIZE ensures f[o + i] == HeaderByte(r, i) {
      assert f[o..o + Size(r)][i] == Encode(r)[i] == Header(r)[i];
    }
    HeaderFields(f, o, r);
    hide Header, HeaderAt;
    Cut(f, o, Header(r), r.name, r.extra, r.comment);
  }

  /** Cutting a region where its four parts meet. */
  lemma Cut(f: seq<byte>, o: nat, h: seq<byte>, n: seq<byte>, x: seq<byte>, c: seq<byte>)
    requires o + |h| + |n| + |x| + |c| <= |f| && f[o..o + |h| + |n| + |x| + |c|] == h + n + x + c
    ensures f[o + |h|..o + |h| + |n|] == n && f[o + |h| + |n|..o + |h| + |n| + |x|] == x
    ensures f[o + |h| + |n| + |x|..o + |h| + |n| + |x| + |c|] == c
  {
    var e := f[o..o + |h| + |n| + |x| + |c|];
    assert e[|h|..|h| + |n|] == n && e[|h| + |n|..|h| + |n| + |x|] == x && e[|h| + |n| + |x|..] == c;
    SliceOfSlice(f, o, o + |h| + |n| + |x| + |c|, |h|, |h| + |n|);
    SliceOfSlice(f, o, o + |h| + |n| + |x| + |c|, |h| + |n|, |h| + |n| + |x|);
    SliceOfSlice(f, o, o + |h| + |n| + |x| + |c|, |h| + |n| + |x|, |e|);
  }

  lemma SliceOfSlice<T>(f: seq<T>, a: nat, b: nat, i: nat, j: nat)
    requires a <= b <= |f| && i <= j <= b - a
    ensures f[a..b][i..j] == f[a + i..a + j]
  {
    forall k | 0 <= k < j - i ensures f[a..b][i..j][k] == f[a + i..a + j][k] {}
  }

  /** Records tile a region exactly when its bytes are their encodings in order. */
  lemma {:induction false} TilesEncode(f: seq<byte>, o: nat, rs: seq<Record>, end: nat)
    requires o <= end <= |f| && forall r :: r in rs ==> Encodable(r)
    ensures Tiles(f, o, rs, end) <==> f[o..end] == EncodeAll(rs)
    decreases |rs|
  {
    hide RecordAt, Header;
    if rs != [] {
      var r := rs[0];
      var m := o + Size(r);
      if m <= end {
        RecordAtEncodes(f, o, r);
        TilesEncode(f, m, rs[1..], end);
        SplitAt(f, o, m, end, Encode(r), EncodeAll(rs[1..]));
      } else if Tiles(f, o, rs, end) {
        TilesForward(f, m, rs[1..], end);
      }
    }
  }

  lemma SplitAt(f: seq<byte>, o: nat, m: nat, end: nat, x: seq<byte>, y: seq<byte>)
    requires o <= m <= end <= |f| && |x| == m - o
    ensures f[o..end] == x + y <==> f[o..m] == x && f[m..end] == y
  {
    SliceOfSlice(f, o, end, 0, m - o);
    SliceOfSlice(f, o, end, m - o, end - o);
    if f[o..end] == x + y {
      assert (x + y)[0..m - o] == x && (x + y)[m - o..] == y;
    }
    assert f[o..end] == f[o..m] + f[m..end];
  }

  /** What the end record's bytes say. */
  ghost predicate EocdSays(f: seq<byte>, e: nat, n: nat, size: nat, offset: nat, comment: seq<byte>) {
    && EndsFile(f, e) && f[e + EOCD_SIZE..] == comment
    && Le16(f, e + 4) == 0 && Le16(f, e + 6) == 0 && Le16(f, e + 8) == n && Le16(f, e + 10) == n
    && Le32(f, e + 12) == size && Le32(f, e + 16) == offset
  }

  lemma EocdBytes(f: seq<byte>, e: nat, n: nat, size: nat, offset: nat, comment: seq<byte>)
    requires e <= |f| && n < 0x1_0000 && size < 0x1_0000_0000 && offset < 0x1_0000_0000 && |comment| < 0x1_0000
    ensures EocdSays(f, e, n, size, offset, comment) <==> f[e..] == Eocd(n, size, offset, comment)
  {
    if f[e..] == Eocd(n, size, offset, comment) {
      forall i: nat | i < EOCD_SIZE ensures f[e + i] == EocdByte(n, size, offset, comment, i) {
        assert f[e..][i] == Eocd(n, size, offset, comment)[i];
      }
      EocdRead(f, e, n, size, offset, comment);
    }
    if EocdSays(f, e, n, size, offset, comment) {
      EocdSpelled(f, e, n, size, offset, comment);
      assert f[e..] == f[e..e + EOCD_SIZE] + f[e + EOCD_SIZE..];
    }
  }

  lemma EocdRead(f: seq<byte>, e: nat, n: nat, size: nat, offset: nat, comment: seq<byte>)
    requires n < 0x1_0000 && size < 0x1_0000_0000 && offset < 0x1_0000_0000 && |comment| < 0x1_0000
    requires e + EOCD_SIZE <= |f| && f[e..] == Eocd(n, size, offset, comment)
    requires forall i: nat :: i < EOCD_SIZE ==> f[e + i] == EocdByte(n, size, offset, comment, i)
    ensures EocdSays(f, e, n, size, offset, comment)
  {
    assert f[e + EOCD_SIZE..] == f[e..][EOCD_SIZE..] == comment;
    assert f[e + 0] == EOCD_SIG[0] && f[e + 1] == EOCD_SIG[1] && f[e + 2] == EOCD_SIG[2] && f[e + 3] == EOCD_SIG[3];
    hide Eocd, Le16, Le32;
    assert ByteOf(0, 0) == 0 && ByteOf(0, 1) == 0;
    hide ByteOf;
    Le16Bytes(f, e + 4, 0);
    Le16Bytes(f, e + 6, 0);
    Le16Bytes(f, e + 8, n);
    Le16Bytes(f, e + 10, n);
    Le32Bytes(f, e + 12, size);
    Le32Bytes(f, e + 16, offset);
    Le16Bytes(f, e + 20, |comment|);
  }

  lemma EocdSpelled(f: seq<byte>, e: nat, n: nat, size: nat, offset: nat, comment: seq<byte>)
    requires EocdSays(f, e, n, size, offset, comment)
    ensures f[e..e + EOCD_SIZE] + comment == Eocd(n, size, offset, comment)
  {
    hide Le16, Le32;
    assert ByteOf(0, 0) == 0 && ByteOf(0, 1) == 0;
    hide ByteOf;
    BytesOfLe16(f, e + 4);
    BytesOfLe16(f, e + 6);
    BytesOfLe16(f, e + 8);
    BytesOfLe16(f, e + 10);
    BytesOfLe32(f, e + 12);
    BytesOfLe32(f, e + 16);
    BytesOfLe16(f, e + 20);
    forall i: nat | i < EOCD_SIZE ensures f[e + i] == EocdByte(n, size, offset, comment, i) {}
  }

  /** What the writer must be given: fields that fit their lengths and the caller's caps, no ZIP64 marker, no ZIP64 locator
      in front of the end record, and no later end record hiding in the comment. */
  ghost predicate Writable(stub: seq<byte>, body: seq<byte>, rs: seq<Record>, comment: seq<byte>, caps: Caps, admit: seq<Record> -> bool) {
    var size := |EncodeAll(rs)|;
    var e := |stub| + |body| + size;
    var f := WriteZip(stub, body, rs, comment);
    && |rs| < 0xFFFF && |rs| <= caps.maxEntries && size < 0xFFFF_FFFF && size <= caps.maxCentral
    && |body| < 0xFFFF_FFFF && |comment| < 0x1_0000 && |comment| <= caps.maxField
    && (forall r :: r in rs ==> Encodable(r))
    && Admitted(Frame(f, |stub|, |stub| + |body|, e, caps.maxField), rs, admit)
    && !(e >= 20 && SigAt(f, e - 20, LOCATOR_SIG))
    && forall p: nat :: p > e ==> !EndsFile(f, p)
  }

  /** Reading undoes writing: what was written is laid out in the file, so the reader returns it. */
  lemma ReadingUndoesWriting(stub: seq<byte>, body: seq<byte>, rs: seq<Record>, comment: seq<byte>, caps: Caps, admit: seq<Record> -> bool)
    requires Writable(stub, body, rs, comment, caps, admit)
    ensures var f := WriteZip(stub, body, rs, comment);
            var size := |EncodeAll(rs)|;
            LaidOut(f, caps, admit, Directory(|stub|, |stub| + |body|, size, |stub| + |body| + size, rs))
  {
    hide *;
    var f, size := WriteZip(stub, body, rs, comment), |EncodeAll(rs)|;
    var central, e := |stub| + |body|, |stub| + |body| + size;
    WritableParts(stub, body, rs, comment, caps, admit);
    WrittenParts(stub, body, rs, comment);
    TilesEncode(f, central, rs, e);
    EocdBytes(f, e, |rs|, size, |body|, comment);
    WrittenLaidOut(f, caps, admit, Directory(|stub|, central, size, e, rs), comment);
  }

  lemma WritableParts(stub: seq<byte>, body: seq<byte>, rs: seq<Record>, comment: seq<byte>, caps: Caps, admit: seq<Record> -> bool)
    requires Writable(stub, body, rs, comment, caps, admit)
    ensures var size := |EncodeAll(rs)|;
            var e := |stub| + |body| + size;
            var f := WriteZip(stub, body, rs, comment);
            && |rs| < 0xFFFF && |rs| <= caps.maxEntries && size < 0xFFFF_FFFF && size <= caps.maxCentral
            && |body| < 0xFFFF_FFFF && |comment| < 0x1_0000 && |comment| <= caps.maxField
            && (forall r :: r in rs ==> Encodable(r))
            && Admitted(Frame(f, |stub|, |stub| + |body|, e, caps.maxField), rs, admit)
            && !(e >= 20 && SigAt(f, e - 20, LOCATOR_SIG))
            && forall p: nat :: p > e ==> !EndsFile(f, p)
  {
    hide Admitted, SigAt, EndsFile, Encodable, EncodeAll, WriteZip;
  }

  lemma WrittenParts(stub: seq<byte>, body: seq<byte>, rs: seq<Record>, comment: seq<byte>)
    ensures var f, size := WriteZip(stub, body, rs, comment), |EncodeAll(rs)|;
            var e := |stub| + |body| + size;
            e <= |f| && f[|stub| + |body|..e] == EncodeAll(rs) && f[e..] == Eocd(|rs|, size, |body|, comment)
  {
    hide EncodeAll, Eocd;
    Middle(stub + body, EncodeAll(rs), Eocd(|rs|, |EncodeAll(rs)|, |body|, comment));
  }

  lemma WrittenLaidOut(f: seq<byte>, caps: Caps, admit: seq<Record> -> bool, d: Directory, comment: seq<byte>)
    requires d.prefix <= d.central && d.eocd == d.central + d.size
    requires EocdSays(f, d.eocd, |d.records|, d.size, d.central - d.prefix, comment)
    requires Tiles(f, d.central, d.records, d.eocd)
    requires Admitted(Frame(f, d.prefix, d.central, d.eocd, caps.maxField), d.records, admit)
    requires |d.records| < 0xFFFF && |d.records| <= caps.maxEntries && d.size < 0xFFFF_FFFF && d.size <= caps.maxCentral
    requires d.central - d.prefix < 0xFFFF_FFFF && |comment| < 0x1_0000 && |comment| <= caps.maxField
    requires !(d.eocd >= 20 && SigAt(f, d.eocd - 20, LOCATOR_SIG))
    requires forall p: nat :: p > d.eocd ==> !EndsFile(f, p)
    ensures LaidOut(f, caps, admit, d)
  {
    hide Tiles, Admitted, Le16, Le32;
  }

  lemma Middle(a: seq<byte>, b: seq<byte>, c: seq<byte>)
    ensures (a + b + c)[|a|..|a| + |b|] == b && (a + b + c)[|a| + |b|..] == c
  {
  }

  /** And writing undoes reading: whatever file the reader accepts, writing what it returned around the bytes it did not
      look at gives the file back, byte for byte. */
  lemma WritingUndoesReading(f: seq<byte>, caps: Caps, admit: seq<Record> -> bool, d: Directory)
    requires LaidOut(f, caps, admit, d)
    ensures d.prefix <= d.central <= d.eocd && d.eocd + EOCD_SIZE <= |f|
    ensures WriteZip(f[..d.prefix], f[d.prefix..d.central], d.records, f[d.eocd + EOCD_SIZE..]) == f
  {
    hide *;
    LaidOutSays(f, caps, admit, d);
    var rs, comment := d.records, f[d.eocd + EOCD_SIZE..];
    TilesForward(f, d.central, rs, d.eocd);
    TilesEncodable(f, d.central, rs, d.eocd);
    TilesEncode(f, d.central, rs, d.eocd);
    EocdBytes(f, d.eocd, |rs|, d.size, d.central - d.prefix, comment);
    Rewritten(f, d.prefix, d.central, d.eocd, rs, comment);
  }

  lemma LaidOutSays(f: seq<byte>, caps: Caps, admit: seq<Record> -> bool, d: Directory)
    requires LaidOut(f, caps, admit, d)
    ensures d.prefix <= d.central && d.eocd == d.central + d.size && d.eocd + EOCD_SIZE <= |f| && |f| - d.eocd - EOCD_SIZE < 0x1_0000
    ensures |d.records| < 0x1_0000 && d.size < 0x1_0000_0000 && d.central - d.prefix < 0x1_0000_0000
    ensures Tiles(f, d.central, d.records, d.eocd)
    ensures EocdSays(f, d.eocd, |d.records|, d.size, d.central - d.prefix, f[d.eocd + EOCD_SIZE..])
  {
    hide Tiles, Admitted, Le16, Le32, SigAt;
  }

  lemma Rewritten(f: seq<byte>, p: nat, c: nat, e: nat, rs: seq<Record>, comment: seq<byte>)
    requires p <= c <= e <= |f| && f[c..e] == EncodeAll(rs)
    requires f[e..] == Eocd(|rs|, e - c, c - p, comment)
    ensures WriteZip(f[..p], f[p..c], rs, comment) == f
  {
    hide EncodeAll, Eocd;
    assert |EncodeAll(rs)| == e - c && |f[p..c]| == c - p;
    Glue(f, 0, p, c, e, |f|);
    DropAll(f);
  }

  lemma {:induction false} TilesEncodable(f: seq<byte>, o: nat, rs: seq<Record>, end: nat)
    requires Tiles(f, o, rs, end)
    ensures forall r :: r in rs ==> Encodable(r)
    decreases |rs|
  {
    if rs != [] {
      assert Le16(f, o + 28) == |rs[0].name|;
      TilesEncodable(f, o + Size(rs[0]), rs[1..], end);
      assert rs == [rs[0]] + rs[1..];
    }
  }
}
