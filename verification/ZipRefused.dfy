/** Accepted archives that the STORED run does not publish: five inputs, each of one empty entry. */
module ZipRefused {
  import opened Bytes
  import opened Text
  import opened ZipRead
  import opened ZipMember
  import opened ZipPaths
  import opened ZipStored
  import opened ZipExtract
  import opened ZipPublish
  import ArtifactPath

  // ---- The archive of one empty entry ----

  function Chars(b: seq<byte>): string { seq(|b|, i requires 0 <= i < |b| => b[i] as char) }

  function CodesOf(s: string): seq<byte> { seq(|s|, i requires 0 <= i < |s| => (s[i] as int) % 0x100) }

  function Same(s: string): string { s }

  predicate AnyBytes(b: seq<byte>) { true }

  predicate AnyRecords(rs: seq<Record>) { true }

  function PlainNames(): Names { Names(AnyBytes, Chars, Chars, Same) }

  function SmallLimits(): Limits { Limits(1000, 10, 100, 10, 0, 0) }

  /** The record of an empty entry, as a file system without Unix modes writes it. */
  function EmptyRecord(name: string): Record {
    Record(0, 20, 0, 0, 0, 0, 0, 0, 0, 0, 0, if IsDir(name) then 0x10 else 0, 0, CodesOf(name), [], [])
  }

  /** Its local header. */
  function EmptyLocal(name: string): seq<byte> {
    [0x50, 0x4B, 3, 4, 20, 0, 0, 0, 0, 0, 0, 0, 0, 0, 0, 0, 0, 0, 0, 0, 0, 0, 0, 0, 0, 0, |name| % 0x100, 0, 0, 0] + CodesOf(name)
  }

  /** The archive of just that entry. */
  function OneEntry(name: string): seq<byte> { WriteZip([], EmptyLocal(name), [EmptyRecord(name)], []) }

  function OneDirectory(name: string): Directory {
    Directory.Directory(0, 30 + |name|, 46 + |name|, 76 + 2 * |name|, [EmptyRecord(name)])
  }

  function OneStored(name: string): Stored {
    Stored(EmptyRecord(name), Local(20, 0, 0, 0, 0, 0, 0, 0, CodesOf(name), [], 30 + |name|), name, IsDir(name))
  }

  predicate Ascii(name: string) { forall i :: 0 <= i < |name| ==> ' ' <= name[i] <= '~' }

  lemma CharsBytes(name: string)
    requires Ascii(name)
    ensures Chars(CodesOf(name)) == name
  {
  }

  lemma OneWritable(name: string)
    requires 11 <= |name| <= 13
    ensures Writable([], EmptyLocal(name), [EmptyRecord(name)], [], Caps(1000, 10, 1000), AnyRecords)
    ensures |EncodeAll([EmptyRecord(name)])| == 46 + |name|
  {
    var r, body, f := EmptyRecord(name), EmptyLocal(name), OneEntry(name);
    hide Header, EmptyLocal, CodesOf;
    OneHeader(name);
    hide EmptyRecord;
    assert [r][1..] == [];
    assert EncodeAll([r]) == Encode(r) + [];
    assert f[76 + 2 * |name| - 20] != LOCATOR_SIG[0];
  }

  lemma OneHeader(name: string)
    requires 11 <= |name| <= 13
    ensures var r := EmptyRecord(name);
            && |r.name| == |name| && r.extra == [] && r.comment == [] && r.disk == 0 && r.compressed == 0 && r.uncompressed == 0 && r.offset == 0
            && |EmptyLocal(name)| == 30 + |name| && |Encode(r)| == 46 + |name| && Encode(r)[26 + |name|] != 0x50
  {
    var r := EmptyRecord(name);
    assert Encode(r)[26 + |name|] == HeaderByte(r, 26 + |name|);
    assert ByteOf(0, 0) == 0 && ByteOf(0, 1) == 0 && ByteOf(0x10, 0) == 0x10 && ByteOf(0x10, 1) == 0;
  }

  lemma EmptyLocalBytes(name: string)
    requires 11 <= |name| <= 13
    ensures var b := EmptyLocal(name);
            && |b| == 30 + |name| && b[30..] == CodesOf(name) && b[0] == 0x50 && b[1] == 0x4B && b[2] == 3 && b[3] == 4 && b[4] == 20
            && b[26] == |name| && forall i :: 5 <= i < 30 && i != 26 ==> b[i] == 0
  {
    hide CodesOf;
    assert |CodesOf(name)| == |name| by { OneHeader(name); }
  }

  lemma OneLocalAt(name: string)
    requires 11 <= |name| <= 13
    ensures LocalAt(OneEntry(name), 0, OneStored(name).local)
  {
    var b, f := EmptyLocal(name), OneEntry(name);
    EmptyLocalBytes(name);
    assert |CodesOf(name)| == |name| by { OneHeader(name); }
    OneBegins(name);
    hide EmptyLocal, OneEntry, CodesOf;
    assert forall i :: 0 <= i < 30 ==> f[i] == b[i];
    assert f[30..30 + |name|] == CodesOf(name);
  }

  lemma OneBegins(name: string)
    ensures var b, f := EmptyLocal(name), OneEntry(name);
            |b| <= |f| && f[..|b|] == b && (forall i :: 0 <= i < |b| ==> f[i] == b[i]) && f[30..|b|] == b[30..]
  {
    var b := EmptyLocal(name);
    hide EmptyLocal, EncodeAll, Eocd;
    assert |b| >= 30 by { EmptyLocalLong(name); }
  }

  lemma EmptyLocalLong(name: string)
    ensures |EmptyLocal(name)| >= 30
  {
  }

  /** The archive of one empty entry is accepted, if its name is safe. */
  lemma OneAccepted(name: string)
    requires 11 <= |name| <= 13 && Ascii(name) && SafePath(name, Same) && |Split(Plain(name), '/')| <= 10
    ensures Accepted(OneEntry(name), PlainNames(), SmallLimits(), AnyRecords, OneDirectory(name), [OneStored(name)])
  {
    hide *;
    OneWritable(name);
    ReadingUndoesWriting([], EmptyLocal(name), [EmptyRecord(name)], [], Caps(1000, 10, 1000), AnyRecords);
    OneFits(name);
    OneFrame(name);
    AdmittedParts(OneEntry(name), PlainNames(), SmallLimits(), AnyRecords, OneDirectory(name), [OneStored(name)]);
  }

  lemma OneFrame(name: string)
    requires 11 <= |name| <= 13 && |EncodeAll([EmptyRecord(name)])| == 46 + |name|
    ensures var body, size := EmptyLocal(name), |EncodeAll([EmptyRecord(name)])|;
            && Directory.Directory(0, |body|, size, |body| + size, [EmptyRecord(name)]) == OneDirectory(name)
            && OneEntry(name) == WriteZip([], body, [EmptyRecord(name)], [])
    ensures SmallLimits().metadata == 1000 && SmallLimits().entries == 10
  {
    hide EncodeAll, WriteZip;
  }

  lemma OneFits(name: string)
    requires 11 <= |name| <= 13 && Ascii(name) && SafePath(name, Same) && |Split(Plain(name), '/')| <= 10
    ensures Admissible(OneEntry(name), PlainNames(), SmallLimits(), OneDirectory(name), [OneStored(name)])
  {
    var f, ns, lim, d, r, t := OneEntry(name), PlainNames(), SmallLimits(), OneDirectory(name), EmptyRecord(name), OneStored(name);
    OneNameOK(name);
    OneKindOK(name);
    OneLocalAt(name);
    hide OneEntry, LocalAt, NameOK, KindOK, NameOf, CodesOf, PlainNames;
    assert Fits(f, ns, lim, d, r, t);
    hide Fits;
    assert [r][..0] == [] && [t][..0] == [] && Total([]) == 0;
    ItemsAt(ns, [r], 0);
    SpansAt(d, [t]);
  }

  lemma OneNameOK(name: string)
    requires 11 <= |name| <= 13 && Ascii(name) && SafePath(name, Same) && |Split(Plain(name), '/')| <= 10
    ensures NameOK(PlainNames(), SmallLimits(), EmptyRecord(name)) && NameOf(PlainNames(), EmptyRecord(name)) == name
  {
    CharsBytes(name);
    assert |EmptyRecord(name).name| == |name| by { OneHeader(name); }
    hide SafePath, CodesOf, Chars, Plain, Split;
  }

  lemma OneKindOK(name: string)
    requires NameOf(PlainNames(), EmptyRecord(name)) == name
    ensures KindOK(PlainNames(), SmallLimits(), EmptyRecord(name))
  {
    hide NameOf, PlainNames, CodesOf;
  }

  /** Three accepted archives that the run refuses for the name of its own copy, whatever the checksum: a file of that
      name, a file below it, and the directory of that name, which the extraction tolerates. */
  lemma OwnNameRefused(dec: ArtifactPath.Decoding, h: Hash, name: string)
    requires name in {"archive.zip", "archive.zip/x", "archive.zip/"}
    ensures Accepted(OneEntry(name), PlainNames(), SmallLimits(), AnyRecords, OneDirectory(name), [OneStored(name)])
    ensures forall d, ss :: Accepted(OneEntry(name), PlainNames(), SmallLimits(), AnyRecords, d, ss) ==>
              exists s :: s in ss && !Publishable(dec, h, OneEntry(name), s)
    ensures Admits(Staged(OneEntry(name)), OutputOf(OneEntry(name), OneStored(name))) <==> name == "archive.zip/"
  {
    hide *;
    OwnNameParts(name);
    OneAccepted(name);
    OwnOutput(name);
    StageAdmits(OneEntry(name), OutputOf(OneEntry(name), OneStored(name)));
    PublishableParts(dec, h, OneEntry(name), OneStored(name));
    OneRefused(dec, h, name);
  }

  lemma OneRefused(dec: ArtifactPath.Decoding, h: Hash, name: string)
    requires Accepted(OneEntry(name), PlainNames(), SmallLimits(), AnyRecords, OneDirectory(name), [OneStored(name)])
    requires !Publishable(dec, h, OneEntry(name), OneStored(name))
    ensures forall d, ss :: Accepted(OneEntry(name), PlainNames(), SmallLimits(), AnyRecords, d, ss) ==>
              exists s :: s in ss && !Publishable(dec, h, OneEntry(name), s)
  {
    hide *;
    forall d, ss | Accepted(OneEntry(name), PlainNames(), SmallLimits(), AnyRecords, d, ss)
      ensures exists s :: s in ss && !Publishable(dec, h, OneEntry(name), s)
    {
      AdmittedOnce(OneEntry(name), PlainNames(), SmallLimits(), AnyRecords, d, ss, OneDirectory(name), [OneStored(name)]);
      assert ss[0] in ss;
    }
  }

  lemma OwnOutput(name: string)
    requires Split(TrimRight(name, '/'), '/') == if name == "archive.zip/x" then [ARCHIVE, "x"] else [ARCHIVE]
    ensures var o := OutputOf(OneEntry(name), OneStored(name));
            && Reserved(First(o)) && First(o) == ARCHIVE && (o.item.dir <==> IsDir(name)) && (|Parts(o.item)| == 1 <==> name != "archive.zip/x")
  {
    hide Split, TrimRight, OneEntry;
  }

  lemma OwnNameParts(name: string)
    requires name in {"archive.zip", "archive.zip/x", "archive.zip/"}
    ensures 11 <= |name| <= 13 && Ascii(name) && SafePath(name, Same) && |Split(Plain(name), '/')| <= 10
    ensures Split(TrimRight(name, '/'), '/') == if name == "archive.zip/x" then [ARCHIVE, "x"] else [ARCHIVE]
    ensures IsDir(name) <==> name == "archive.zip/"
  {
    hide *;
    OwnPlain(name);
    OwnParts();
    OwnLow(name);
    PrintableIsSafe(name, if name == "archive.zip/x" then [ARCHIVE, "x"] else [ARCHIVE]);
  }

  lemma OwnPlain(name: string)
    requires name in {"archive.zip", "archive.zip/x", "archive.zip/"}
    ensures var plain := if name == "archive.zip/" then "archive.zip" else name; Plain(name) == plain && TrimRight(name, '/') == plain
    ensures (IsDir(name) <==> name == "archive.zip/") && 11 <= |name| <= 13
  {
    if name == "archive.zip/" { assert name[..11] == "archive.zip"; }
    assert TrimRight("archive.zip", '/') == "archive.zip";
  }

  lemma OwnParts()
    ensures Split("archive.zip", '/') == [ARCHIVE] && Split("archive.zip/x", '/') == [ARCHIVE, "x"]
  {
    hide Split;
    SplitOne("archive.zip", '/');
    TwoParts("archive.zip", "x");
    assert "archive.zip/x" == "archive.zip" + ['/'] + "x";
  }

  /** Printable ASCII without a backslash or a drive is as safe as its components. */
  lemma PrintableIsSafe(name: string, parts: seq<string>)
    requires Ascii(name) && '\\' !in name && !DrivePrefix(name) && Split(Plain(name), '/') == parts
    requires forall i :: 0 <= i < |parts| ==> Ascii(parts[i]) && parts[i] !in {"", ".", ".."}
    ensures SafePath(name, Same)
  {
    PrintableIsOrdinary(name);
    hide Split, Plain, Ascii, DrivePrefix, Special;
    forall i | 0 <= i < |parts| ensures forall c :: c in parts[i] ==> !Special(c) { PrintableIsOrdinary(parts[i]); }
  }

  lemma PrintableIsOrdinary(s: string)
    requires Ascii(s)
    ensures '\0' !in s && forall c :: c in s ==> !Special(c)
  {
  }

  lemma OwnLow(name: string)
    requires name in {"archive.zip", "archive.zip/x", "archive.zip/"}
    ensures Ascii(name) && '\\' !in name && !DrivePrefix(name)
    ensures ARCHIVE == "archive.zip" && Ascii(ARCHIVE) && Ascii("x") && "archive.zip" !in {"", ".", ".."} && "x" !in {"", ".", ".."}
  {
    assert |"archive.zip"| == 11 && |"x"| == 1 && "x"[0] == 'x';
  }

  // ---- Names the manifest does not take ----

  /** Two more, with an empty file each: a name like a URI, and one whose percent escapes spell the parent directory. Their
      payload may be intact and their first component is nobody else's. */
  lemma ForeignNameRefused(dec: ArtifactPath.Decoding, h: Hash, name: string)
    requires name in {"scheme:file", "%2E%2E/file"}
    ensures Accepted(OneEntry(name), PlainNames(), SmallLimits(), AnyRecords, OneDirectory(name), [OneStored(name)])
    ensures !Reserved(First(OutputOf(OneEntry(name), OneStored(name))))
    ensures Intact(h, OneEntry(name), OneStored(name)) <==> Checksum(h, []) == 0
    ensures forall d, ss :: Accepted(OneEntry(name), PlainNames(), SmallLimits(), AnyRecords, d, ss) ==>
              exists s :: s in ss && !Publishable(dec, h, OneEntry(name), s)
  {
    hide *;
    ForeignParts(name);
    ForeignSafe(name);
    OneAccepted(name);
    ForeignOutput(h, name);
    ForeignNotRelative(dec, name);
    PublishableParts(dec, h, OneEntry(name), OneStored(name));
    OneRefused(dec, h, name);
  }

  function ForeignSplit(name: string): seq<string> { if name == "scheme:file" then [name] else ["%2E%2E", "file"] }

  lemma ForeignParts(name: string)
    requires name in {"scheme:file", "%2E%2E/file"}
    ensures Split(name, '/') == ForeignSplit(name) && |ForeignSplit(name)| <= 2
    ensures |name| == 11 && !IsDir(name) && Plain(name) == name && TrimRight(name, '/') == name
  {
    ForeignSplits();
    hide Split;
    assert |"scheme:file"| == 11 && |"%2E%2E/file"| == 11;
    assert name[10] == 'e';
  }

  lemma ForeignSplits()
    ensures Split("scheme:file", '/') == ["scheme:file"] && Split("%2E%2E/file", '/') == ["%2E%2E", "file"]
  {
    hide Split;
    SplitOne("scheme:file", '/');
    TwoParts("%2E%2E", "file");
    assert "%2E%2E/file" == "%2E%2E" + ['/'] + "file";
  }

  lemma TwoParts(a: string, b: string)
    requires '/' !in a && '/' !in b
    ensures Split(a + ['/'] + b, '/') == [a, b]
  {
    hide Split;
    SplitOne(a, '/');
    SplitOne(b, '/');
    assert a + ['/'] + b == a + (['/'] + b);
    SplitConcat(a, b, '/');
  }

  lemma ForeignSafe(name: string)
    requires name in {"scheme:file", "%2E%2E/file"} && Split(Plain(name), '/') == ForeignSplit(name)
    ensures Ascii(name) && SafePath(name, Same)
  {
    ForeignPrintable(name);
    hide Split, Plain, Ascii, DrivePrefix, SafePath;
    PrintableIsSafe(name, ForeignSplit(name));
  }

  lemma ForeignPrintable(name: string)
    requires name in {"scheme:file", "%2E%2E/file"}
    ensures Ascii(name) && '\\' !in name && !DrivePrefix(name)
    ensures forall i :: 0 <= i < |ForeignSplit(name)| ==> Ascii(ForeignSplit(name)[i]) && ForeignSplit(name)[i] !in {"", ".", ".."}
  {
    assert |"scheme:file"| == 11 && |"%2E%2E"| == 6 && |"file"| == 4;
  }

  lemma ForeignOutput(h: Hash, name: string)
    requires name in {"scheme:file", "%2E%2E/file"}
    requires Split(name, '/') == ForeignSplit(name) && TrimRight(name, '/') == name && !IsDir(name) && |name| == 11
    ensures var f, s := OneEntry(name), OneStored(name);
            && !s.dir && s.path == name && !Reserved(First(OutputOf(f, s))) && (Intact(h, f, s) <==> Checksum(h, []) == 0)
  {
    ForeignUnreserved(name);
    hide Split, TrimRight, OneEntry, Checksum, Reserved, ForeignSplit;
    assert OutputOf(OneEntry(name), OneStored(name)).content == [];
  }

  lemma ForeignUnreserved(name: string)
    requires name in {"scheme:file", "%2E%2E/file"}
    ensures ForeignSplit(name) != [] && !Reserved(ForeignSplit(name)[0])
  {
    assert "scheme:file"[6] == ':' && |"scheme:file"| == 11 && |"%2E%2E"| == 6;
  }

  lemma ForeignNotRelative(dec: ArtifactPath.Decoding, name: string)
    requires name in {"scheme:file", "%2E%2E/file"}
    ensures !ArtifactPath.Relative(dec, name)
  {
    if name == "scheme:file" { SchemeNotRelative(dec); } else { EscapedNotRelative(dec); }
  }

  lemma SchemeNotRelative(dec: ArtifactPath.Decoding)
    ensures !ArtifactPath.Relative(dec, "scheme:file")
  {
    var s := "scheme:file";
    assert s[6] == ':' && ArtifactPath.HasScheme(s);
    hide ArtifactPath.Relative, ArtifactPath.HasScheme;
    assert ArtifactPath.Rounds(dec, s, 0) == s;
    ArtifactPath.EscapingIsRefused(dec, s, 0);
  }

  lemma EscapedNotRelative(dec: ArtifactPath.Decoding)
    ensures !ArtifactPath.Relative(dec, "%2E%2E/file")
  {
    var s := "%2E%2E/file";
    OneReading(dec);
    ParentSplit();
    hide ArtifactPath.Relative, ArtifactPath.Round;
    assert ArtifactPath.Rounds(dec, s, 1) == "../file";
    ArtifactPath.EscapingIsRefused(dec, s, 1);
  }

  lemma ParentSplit()
    ensures ".." in Split("../file", '/')
  {
    TwoParts("..", "file");
    hide Split;
    assert "../file" == ".." + ['/'] + "file" && ["..", "file"][0] == "..";
  }

  lemma OneReading(dec: ArtifactPath.Decoding)
    ensures ArtifactPath.Round(dec, "%2E%2E/file") == "../file"
  {
    ArtifactPath.SlashBreaks();
    WordsRead(dec);
    hide ArtifactPath.Round, ArtifactPath.Breaks;
    assert "%2E%2E/file" == "%2E%2E" + ['/'] + "file";
    ArtifactPath.RoundBreaks(dec, "%2E%2E", '/', "file");
    assert "../file" == ".." + ['/'] + "file";
  }

  lemma WordsRead(dec: ArtifactPath.Decoding)
    ensures ArtifactPath.Round(dec, "%2E%2E") == ".." && ArtifactPath.Round(dec, "file") == "file"
  {
    DotsRead(dec);
    hide ArtifactPath.Unquote, ArtifactPath.Fold;
    ArtifactPath.LiteralStays(dec, "file");
    ArtifactPath.LiteralStays(dec, "..");
  }

  lemma DotsRead(dec: ArtifactPath.Decoding)
    ensures ArtifactPath.Unquote(dec, "%2E%2E") == ".."
  {
    assert "%2E%2E"[3..] == "%2E" && "%2E"[3..] == "" && "%2E%2E"[6..] == "";
    assert ArtifactPath.Escapes("%2E") == [0x2E];
    assert ArtifactPath.Escapes("%2E%2E") == [0x2E, 0x2E];
    assert [0x2E, 0x2E][1..] == [0x2E] && [0x2E][1..] == [];
    assert ArtifactPath.TextOf(dec, [0x2E]) == ".";
    assert ArtifactPath.TextOf(dec, [0x2E, 0x2E]) == "..";
  }
}
