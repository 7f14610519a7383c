/** The STORED extractor's inspection: an archive is admitted only if every entry is a plain STORED file or directory with
    agreeing headers, a safe path that conflicts with no other, and a payload that overlaps no other. */
module ZipStored {
  import opened Wrappers
  import opened Bytes
  import opened Sequences
  import opened Text
  import opened Pairs
  import opened ZipRead
  import opened ZipMember
  import opened ZipPaths
  import opened ZipSpans

  datatype StoredError =
    | BadArchive(cause: ZipError) | PathTooLong | BadNameEncoding | UnsafePath | TooDeep | PathConflict | SpecialEntry
    | InconsistentAttributes | NotPlainStored | BadSize | EntryTooBig | TotalTooBig | HeaderMismatch | CrossesCentral
    | RangesOverlap

  /** How raw names become text: validity in UTF-8, the two decodings, and the NFC form. */
  datatype Names = Names(valid: seq<byte> -> bool, utf8: seq<byte> -> string, cp437: seq<byte> -> string, nfc: string -> string)

  datatype Limits = Limits(metadata: nat, entries: nat, path: nat, depth: nat, entry: nat, total: nat)

  /** The bit of `x` with the given weight. */
  predicate Bit(x: nat, weight: nat)
    requires weight > 0
  {
    x / weight % 2 == 1
  }

  function NameOf(ns: Names, r: Record): string { if Bit(r.flags, 0x800) then ns.utf8(r.name) else ns.cp437(r.name) }

  predicate IsDir(name: string) { name != "" && name[|name| - 1] == '/' }

  function Plain(name: string): string { if IsDir(name) then name[..|name| - 1] else name }

  // ---- Safe paths ----

  predicate DrivePrefix(name: string) { |name| >= 2 && name[1] == ':' && Letter(name[0]) }

  predicate Special(c: char) { c < ' ' || c == '\U{7F}' }

  predicate BadPart(p: string) { p == "" || p == "." || p == ".." || exists i :: 0 <= i < |p| && Special(p[i]) }

  predicate PathUnsafe(name: string, plain: string, parts: seq<string>, nfc: string -> string) {
    plain == "" || (name != "" && name[0] == '/') || '\\' in name || '\0' in name || DrivePrefix(name)
    || (exists i :: 0 <= i < |parts| && BadPart(parts[i])) || nfc(name) != name
  }

  /** The paths an extraction may use: relative, in their NFC form, of ordinary components only. */
  ghost predicate SafePath(name: string, nfc: string -> string) {
    && nfc(name) == name && '\\' !in name && '\0' !in name && !DrivePrefix(name)
    && forall p :: p in Split(Plain(name), '/') ==> p !in {"", ".", ".."} && forall c :: c in p ==> !Special(c)
  }

  lemma SafeIsNotUnsafe(name: string, nfc: string -> string)
    ensures SafePath(name, nfc) <==> !PathUnsafe(name, Plain(name), Split(Plain(name), '/'), nfc)
  {
    var plain := Plain(name);
    var parts := Split(plain, '/');
    assert parts[0] in parts;
    assert plain == "" || plain[0] == '/' ==> parts[0] == [];
    forall i | 0 <= i < |parts| ensures parts[i] in parts {}
    forall p | p in parts ensures BadPart(p) <==> p in {"", ".", ".."} || exists c :: c in p && Special(c) { PartIsBad(p); }
  }

  lemma PartIsBad(p: string)
    ensures BadPart(p) <==> p in {"", ".", ".."} || exists c :: c in p && Special(c)
  {
    if c :| c in p && Special(c) {
      var i :| 0 <= i < |p| && p[i] == c;
    }
    if i :| 0 <= i < |p| && Special(p[i]) {
      assert p[i] in p;
    }
  }

  // ---- One entry ----

  function ItemOf(ns: Names, r: Record): Item { Item(Plain(NameOf(ns, r)), IsDir(NameOf(ns, r))) }

  /** A name within the caps, decodable, and safe to use as a path. */
  ghost predicate NameOK(ns: Names, lim: Limits, r: Record) {
    && |r.name| <= lim.path && (Bit(r.flags, 0x800) ==> ns.valid(r.name)) && SafePath(NameOf(ns, r), ns.nfc)
    && |Parts(ItemOf(ns, r))| <= lim.depth
  }

  /** A plain file or directory, stored as it is: no link or device, no encryption or data descriptor. */
  predicate KindOK(ns: Names, lim: Limits, r: Record) {
    var dir := IsDir(NameOf(ns, r));
    && (if r.madeBy / 0x100 == 3 then r.external / 0x1_0000 / 0x1000 == if dir then 4 else 8
        else Bit(r.external, 0x10) == dir && !Bit(r.external, 0x40))
    && !Bit(r.flags, 1) && !Bit(r.flags, 8) && r.compression == 0
    && r.compressed == r.uncompressed && (dir ==> r.uncompressed == 0) && r.uncompressed <= lim.entry
  }

  predicate Agrees(r: Record, l: Local) {
    && l.needed == r.needed && l.flags == r.flags && l.compression == r.compression && l.time == r.time && l.date == r.date
    && l.crc == r.crc && l.compressed == r.compressed && l.uncompressed == r.uncompressed && l.name == r.name
  }

  /** The local header the entry declares is there, agrees with it, and its payload ends before the central directory. */
  ghost predicate PayloadOK(f: seq<byte>, d: Directory, r: Record, l: Local) {
    LocalAt(f, d.prefix + r.offset, l) && Agrees(r, l) && l.data + l.compressed <= d.central
  }

  method CheckName(ns: Names, lim: Limits, r: Record) returns (err: Option<StoredError>)
    ensures err.None? <==> NameOK(ns, lim, r)
  {
    if |r.name| > lim.path { return Some(PathTooLong); }
    if Bit(r.flags, 0x800) && !ns.valid(r.name) { return Some(BadNameEncoding); }
    var name := NameOf(ns, r);
    var parts := Split(Plain(name), '/');
    SafeIsNotUnsafe(name, ns.nfc);
    if PathUnsafe(name, Plain(name), parts, ns.nfc) { return Some(UnsafePath); }
    if |parts| > lim.depth { return Some(TooDeep); }
    return None;
  }

  method CheckKind(ns: Names, lim: Limits, r: Record) returns (err: Option<StoredError>)
    ensures err.None? <==> KindOK(ns, lim, r)
  {
    var dir := IsDir(NameOf(ns, r));
    var host, mode := r.madeBy / 0x100, r.external / 0x1_0000;
    if host == 3 {
      if mode / 0x1000 != if dir then 4 else 8 { return Some(SpecialEntry); }
    } else if Bit(r.external, 0x10) != dir || Bit(r.external, 0x40) {
      return Some(InconsistentAttributes);
    }
    if Bit(r.flags, 1) || Bit(r.flags, 8) || r.compression != 0 { return Some(NotPlainStored); }
    if r.compressed != r.uncompressed || (dir && r.uncompressed != 0) { return Some(BadSize); }
    if r.uncompressed > lim.entry { return Some(EntryTooBig); }
    return None;
  }

  method CheckLocal(f: seq<byte>, d: Directory, r: Record) returns (res: Result<Local, StoredError>)
    ensures res.Ok? ==> PayloadOK(f, d, r, res.value)
    ensures res.Err? ==> forall l :: !PayloadOK(f, d, r, l)
  {
    hide LocalAt;
    var read := ReadLocalHeader(f, d.prefix + r.offset);
    if read.Err? { return Err(BadArchive(read.error)); }
    var l := read.value;
    if !Agrees(r, l) || l.data + l.compressed > d.central {
      OtherLocals(f, d, r, l);
      return Err(if !Agrees(r, l) then HeaderMismatch else CrossesCentral);
    }
    return Ok(l);
  }

  lemma OtherLocals(f: seq<byte>, d: Directory, r: Record, l: Local)
    requires LocalAt(f, d.prefix + r.offset, l) && !(Agrees(r, l) && l.data + l.compressed <= d.central)
    ensures forall k :: !PayloadOK(f, d, r, k)
  {
    hide LocalAt;
    forall k ensures !PayloadOK(f, d, r, k) {
      if LocalAt(f, d.prefix + r.offset, k) { LocalAtUnique(f, d.prefix + r.offset, l, k); }
    }
  }

  // ---- The whole archive ----

  /** An admitted entry: its central record, its local header, its path. */
  datatype Stored = Stored(entry: Record, local: Local, path: string, dir: bool)

  ghost predicate Fits(f: seq<byte>, ns: Names, lim: Limits, d: Directory, r: Record, s: Stored) {
    && s.entry == r && s.path == NameOf(ns, r) && s.dir == IsDir(s.path)
    && NameOK(ns, lim, r) && KindOK(ns, lim, r) && PayloadOK(f, d, r, s.local)
  }

  function SpanOf(d: Directory, s: Stored): Span { Span(d.prefix + s.entry.offset, s.local.data + s.local.compressed) }

  function Items(ns: Names, rs: seq<Record>): seq<Item> {
    if rs == [] then [] else Items(ns, rs[..|rs| - 1]) + [ItemOf(ns, rs[|rs| - 1])]
  }

  function Spans(d: Directory, ss: seq<Stored>): seq<Span> {
    if ss == [] then [] else Spans(d, ss[..|ss| - 1]) + [SpanOf(d, ss[|ss| - 1])]
  }

  function Total(rs: seq<Record>): nat {
    if rs == [] then 0 else Total(rs[..|rs| - 1]) + rs[|rs| - 1].uncompressed
  }

  ghost predicate AllFit(f: seq<byte>, ns: Names, lim: Limits, d: Directory, rs: seq<Record>, ss: seq<Stored>) {
    |ss| == |rs| && forall i :: 0 <= i < |rs| ==> Fits(f, ns, lim, d, rs[i], ss[i])
  }

  /** What the inspection promises of the entries it admits: each one fits, together they stay within the total, no two
      paths conflict, and no two spans share a byte. */
  ghost predicate Admissible(f: seq<byte>, ns: Names, lim: Limits, d: Directory, ss: seq<Stored>) {
    && AllFit(f, ns, lim, d, d.records, ss) && Total(d.records) <= lim.total
    && Pairwise(Items(ns, d.records), Compatible) && Pairwise(Spans(d, ss), Apart)
  }

  lemma {:induction false} ItemsAt(ns: Names, rs: seq<Record>, k: nat)
    requires k <= |rs|
    ensures |Items(ns, rs)| == |rs| && Items(ns, rs)[..k] == Items(ns, rs[..k])
    ensures k < |rs| ==> Items(ns, rs)[k] == ItemOf(ns, rs[k])
    decreases |rs|
  {
    hide ItemOf;
    if k == |rs| {
      assert rs[..k] == rs;
      if rs != [] { ItemsAt(ns, rs[..k - 1], k - 1); }
      DropAll(Items(ns, rs));
    } else {
      var q := rs[..|rs| - 1];
      ItemsAt(ns, q, k);
      assert q[..k] == rs[..k] && (k < |q| ==> q[k] == rs[k]);
      assert (Items(ns, q) + [ItemOf(ns, rs[|q|])])[..k] == Items(ns, q)[..k];
    }
  }

  lemma {:induction false} TotalGrows(rs: seq<Record>, k: nat)
    requires k <= |rs|
    ensures Total(rs[..k]) <= Total(rs)
    decreases |rs|
  {
    if k == |rs| {
      assert rs[..k] == rs;
    } else {
      TotalGrows(rs[..|rs| - 1], k);
      assert rs[..|rs| - 1][..k] == rs[..k];
    }
  }

  /** The entries, one by one, with the refusals in the order the code makes them. */
  method InspectEntries(f: seq<byte>, ns: Names, lim: Limits, d: Directory) returns (res: Result<seq<Stored>, StoredError>)
    ensures res.Ok? ==> Admissible(f, ns, lim, d, res.value)
    ensures res.Err? ==> forall ss :: !Admissible(f, ns, lim, d, ss)
  {
    hide *;
    var rs := d.records;
    var records: seq<Stored> := [];
    var total: nat := 0;
    var paths: map<string, Kind>, declared: set<string> := map[], {};
    NothingYet(f, ns, lim, d, rs);
    for i := 0 to |rs|
      invariant AllFit(f, ns, lim, d, rs[..i], records)
      invariant total == Total(rs[..i]) <= lim.total
      invariant Tracks(paths, declared, Items(ns, rs[..i])) && Pairwise(Items(ns, rs[..i]), Compatible)
    {
      var r := rs[i];
      var bad := CheckName(ns, lim, r);
      if bad.Some? {
        EntryRefused(f, ns, lim, d, i);
        return Err(bad.value);
      }
      var x := ItemOf(ns, r);
      var conflict, paths', declared' := Claim(paths, declared, x, Items(ns, rs[..i]));
      NextItem(ns, rs, i);
      if conflict {
        PathRefused(f, ns, lim, d, i);
        return Err(PathConflict);
      }
      paths, declared := paths', declared';
      bad := CheckKind(ns, lim, r);
      if bad.Some? {
        EntryRefused(f, ns, lim, d, i);
        return Err(bad.value);
      }
      total := total + r.uncompressed;
      NextTotal(rs, i);
      if total > lim.total {
        TotalRefused(f, ns, lim, d, i);
        return Err(TotalTooBig);
      }
      var local := CheckLocal(f, d, r);
      if local.Err? {
        EntryRefused(f, ns, lim, d, i);
        return Err(local.error);
      }
      var s := Stored(r, local.value, NameOf(ns, r), IsDir(NameOf(ns, r)));
      NextFits(f, ns, lim, d, i, records, s);
      records := records + [s];
    }
    DropAll(rs);
    SpansFilled(f, ns, lim, d, records);
    var overlap := SpansOverlap(Spans(d, records));
    if overlap {
      SpansRefused(f, ns, lim, d, records);
      return Err(RangesOverlap);
    }
    AllAdmissible(f, ns, lim, d, records);
    return Ok(records);
  }

  lemma NothingYet(f: seq<byte>, ns: Names, lim: Limits, d: Directory, rs: seq<Record>)
    ensures rs[..0] == [] && AllFit(f, ns, lim, d, rs[..0], []) && Total(rs[..0]) == 0 <= lim.total
    ensures Tracks(map[], {}, Items(ns, rs[..0])) && Pairwise(Items(ns, rs[..0]), Compatible)
  {
    TracksNothing();
    assert Items(ns, []) == [];
  }

  lemma NextItem(ns: Names, rs: seq<Record>, i: nat)
    requires i < |rs|
    ensures Items(ns, rs[..i + 1]) == Items(ns, rs[..i]) + [ItemOf(ns, rs[i])]
    ensures Pairwise(Items(ns, rs[..i]), Compatible)
            && (forall k :: 0 <= k < |Items(ns, rs[..i])| ==> !Conflict(Items(ns, rs[..i])[k], ItemOf(ns, rs[i])))
            ==> Pairwise(Items(ns, rs[..i + 1]), Compatible)
  {
    hide Conflict;
    assert rs[..i + 1][..i] == rs[..i];
    PairwiseSnoc(Items(ns, rs[..i]), ItemOf(ns, rs[i]), Compatible);
  }

  lemma NextTotal(rs: seq<Record>, i: nat)
    requires i < |rs|
    ensures Total(rs[..i + 1]) == Total(rs[..i]) + rs[i].uncompressed
  {
    assert rs[..i + 1][..i] == rs[..i];
  }

  lemma NextFits(f: seq<byte>, ns: Names, lim: Limits, d: Directory, i: nat, ss: seq<Stored>, s: Stored)
    requires i < |d.records| && AllFit(f, ns, lim, d, d.records[..i], ss)
    requires NameOK(ns, lim, d.records[i]) && KindOK(ns, lim, d.records[i]) && PayloadOK(f, d, d.records[i], s.local)
    requires s == Stored(d.records[i], s.local, NameOf(ns, d.records[i]), IsDir(NameOf(ns, d.records[i])))
    ensures AllFit(f, ns, lim, d, d.records[..i + 1], ss + [s])
  {
    hide NameOK, KindOK, PayloadOK;
    assert Fits(f, ns, lim, d, d.records[i], s);
    hide Fits;
    var rs, all := d.records[..i + 1], ss + [s];
    forall k | 0 <= k < i + 1 ensures Fits(f, ns, lim, d, rs[k], all[k]) {
      if k < i { assert Fits(f, ns, lim, d, d.records[..i][k], ss[k]); }
    }
  }

  lemma EntryRefused(f: seq<byte>, ns: Names, lim: Limits, d: Directory, i: nat)
    requires i < |d.records|
    requires !NameOK(ns, lim, d.records[i]) || !KindOK(ns, lim, d.records[i]) || forall l :: !PayloadOK(f, d, d.records[i], l)
    ensures forall ss :: !Admissible(f, ns, lim, d, ss)
  {
    hide NameOK, KindOK, PayloadOK;
    forall ss ensures !Admissible(f, ns, lim, d, ss) {
      assert AllFit(f, ns, lim, d, d.records, ss) ==> Fits(f, ns, lim, d, d.records[i], ss[i]);
    }
  }

  lemma PathRefused(f: seq<byte>, ns: Names, lim: Limits, d: Directory, i: nat)
    requires i < |d.records|
    requires exists k :: 0 <= k < |Items(ns, d.records[..i])| && Conflict(Items(ns, d.records[..i])[k], ItemOf(ns, d.records[i]))
    ensures forall ss :: !Admissible(f, ns, lim, d, ss)
  {
    hide Conflict;
    ItemsAt(ns, d.records, i);
    ConflictSpoils(Items(ns, d.records), i);
  }

  lemma TotalRefused(f: seq<byte>, ns: Names, lim: Limits, d: Directory, i: nat)
    requires i < |d.records| && Total(d.records[..i + 1]) > lim.total
    ensures forall ss :: !Admissible(f, ns, lim, d, ss)
  {
    TotalGrows(d.records, i + 1);
  }

  /** Only one list of entries can fit the records. */
  lemma FitUnique(f: seq<byte>, ns: Names, lim: Limits, d: Directory, ss: seq<Stored>, ts: seq<Stored>)
    requires AllFit(f, ns, lim, d, d.records, ss) && AllFit(f, ns, lim, d, d.records, ts)
    ensures ss == ts
  {
    hide NameOK, KindOK, LocalAt, Agrees;
    forall i | 0 <= i < |ss| ensures ss[i] == ts[i] {
      assert Fits(f, ns, lim, d, d.records[i], ss[i]) && Fits(f, ns, lim, d, d.records[i], ts[i]);
      LocalAtUnique(f, d.prefix + d.records[i].offset, ss[i].local, ts[i].local);
    }
  }

  lemma SpansRefused(f: seq<byte>, ns: Names, lim: Limits, d: Directory, ss: seq<Stored>)
    requires AllFit(f, ns, lim, d, d.records, ss) && !Pairwise(Spans(d, ss), Apart)
    ensures forall ts :: !Admissible(f, ns, lim, d, ts)
  {
    hide AllFit;
    forall ts ensures !Admissible(f, ns, lim, d, ts) {
      if AllFit(f, ns, lim, d, d.records, ts) { FitUnique(f, ns, lim, d, ss, ts); }
    }
  }

  lemma AllAdmissible(f: seq<byte>, ns: Names, lim: Limits, d: Directory, ss: seq<Stored>)
    requires AllFit(f, ns, lim, d, d.records, ss) && Total(d.records) <= lim.total
    requires Pairwise(Items(ns, d.records), Compatible) && Pairwise(Spans(d, ss), Apart)
    ensures Admissible(f, ns, lim, d, ss)
  {
  }

  lemma {:induction false} SpansAt(d: Directory, ss: seq<Stored>)
    ensures |Spans(d, ss)| == |ss| && forall i :: 0 <= i < |ss| ==> Spans(d, ss)[i] == SpanOf(d, ss[i])
  {
    if ss != [] { SpansAt(d, ss[..|ss| - 1]); }
  }

  /** Every span holds a local header and the payload. */
  lemma FitSpan(f: seq<byte>, ns: Names, lim: Limits, d: Directory, r: Record, s: Stored)
    requires Fits(f, ns, lim, d, r, s)
    ensures var p := SpanOf(d, s);
            d.prefix <= p.start && p.end <= d.central && p.end - p.start >= r.uncompressed + LOCAL_SIZE
  {
    hide NameOK;
  }

  lemma SpansFilled(f: seq<byte>, ns: Names, lim: Limits, d: Directory, ss: seq<Stored>)
    requires AllFit(f, ns, lim, d, d.records, ss)
    ensures NonEmpty(Spans(d, ss))
    ensures |Spans(d, ss)| == |ss|
    ensures forall i :: 0 <= i < |ss| ==> d.prefix <= Spans(d, ss)[i].start && Spans(d, ss)[i].end <= d.central
  {
    hide Fits;
    SpansAt(d, ss);
    forall i | 0 <= i < |ss|
      ensures Spans(d, ss)[i].start < Spans(d, ss)[i].end && d.prefix <= Spans(d, ss)[i].start && Spans(d, ss)[i].end <= d.central
    {
      FitSpan(f, ns, lim, d, d.records[i], ss[i]);
    }
  }

  /** The inspection accepts exactly the archives whose directory is laid out and whose entries are admissible. */
  method InspectStored(f: seq<byte>, ns: Names, lim: Limits, report: seq<Record> -> bool)
    returns (res: Result<(Directory, seq<Stored>), StoredError>)
    ensures var caps := Caps(lim.metadata, lim.entries, lim.metadata);
            && (res.Ok? ==> LaidOut(f, caps, report, res.value.0) && Admissible(f, ns, lim, res.value.0, res.value.1))
            && (res.Err? ==> forall d, ss :: !(LaidOut(f, caps, report, d) && Admissible(f, ns, lim, d, ss)))
  {
    hide *;
    var caps := Caps(lim.metadata, lim.entries, lim.metadata);
    var dir := ReadZipDirectory(f, caps, report);
    if dir.Err? { return Err(BadArchive(dir.error)); }
    var entries := InspectEntries(f, ns, lim, dir.value);
    if entries.Err? {
      forall d | LaidOut(f, caps, report, d) ensures d == dir.value { LaidOutUnique(f, caps, report, d, dir.value); }
      return Err(entries.error);
    }
    return Ok((dir.value, entries.value));
  }

  // ---- What admission guarantees ----

  lemma {:induction false} SpansCover(f: seq<byte>, ns: Names, lim: Limits, d: Directory, rs: seq<Record>, ss: seq<Stored>)
    requires AllFit(f, ns, lim, d, rs, ss)
    ensures Length(Spans(d, ss)) >= Total(rs) + LOCAL_SIZE * |rs|
    decreases |rs|
  {
    hide Fits, SpanOf;
    if rs != [] {
      var n := |rs| - 1;
      assert Fits(f, ns, lim, d, rs[n], ss[n]);
      forall i | 0 <= i < n ensures Fits(f, ns, lim, d, rs[..n][i], ss[..n][i]) { assert Fits(f, ns, lim, d, rs[i], ss[i]); }
      SpansCover(f, ns, lim, d, rs[..n], ss[..n]);
      FitSpan(f, ns, lim, d, rs[n], ss[n]);
      LengthSnoc(Spans(d, ss[..n]), SpanOf(d, ss[n]));
    }
  }

  lemma {:induction false} LengthSnoc(s: seq<Span>, x: Span)
    ensures Length(s + [x]) == Length(s) + x.end - x.start
  {
    if s == [] {
      assert ([] + [x])[1..] == [];
    } else {
      assert (s + [x])[1..] == s[1..] + [x];
      LengthSnoc(s[1..], x);
    }
  }

  /** Everything that is extracted, plus 30 bytes of header per entry, was paid for with distinct bytes of the archive: no
      admitted archive expands. */
  lemma AdmittedFits(f: seq<byte>, ns: Names, lim: Limits, caps: Caps, report: seq<Record> -> bool, d: Directory, ss: seq<Stored>)
    requires LaidOut(f, caps, report, d) && Admissible(f, ns, lim, d, ss)
    ensures Pairwise(Spans(d, ss), Apart)
    ensures forall i :: 0 <= i < |Spans(d, ss)| ==> d.prefix <= Spans(d, ss)[i].start && Spans(d, ss)[i].end <= d.central
    ensures Total(d.records) + LOCAL_SIZE * |d.records| <= d.central - d.prefix
  {
    MetadataIsTail(f, caps, report, d);
    assert d.prefix <= d.central;
    hide *;
    AdmissibleParts(f, ns, lim, d, ss);
    SpansFilled(f, ns, lim, d, ss);
    SpansCover(f, ns, lim, d, d.records, ss);
    ApartFit(Spans(d, ss), d.prefix, d.central);
  }

  lemma AdmissibleParts(f: seq<byte>, ns: Names, lim: Limits, d: Directory, ss: seq<Stored>)
    requires Admissible(f, ns, lim, d, ss)
    ensures AllFit(f, ns, lim, d, d.records, ss) && Total(d.records) <= lim.total
    ensures Pairwise(Items(ns, d.records), Compatible) && Pairwise(Spans(d, ss), Apart)
  {
  }
}
