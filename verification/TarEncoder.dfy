/**
 The canonical ustar writer behind `create_tar_gz` of scripts/release_archive.py, before
 compression, and its round trip through the bounded parser.
 */
module TarEncoder {
  import opened Wrappers
  import opened Bytes
  import opened RawTar

  /** One release source: its archive name in UTF-8, its content, whether it is executable, and the
      time stamp all members get. */
  datatype Member = Member(name: seq<Byte>, data: seq<Byte>, executable: bool, mtime: int)

  /** What tarfile writes for a member that does not fit a plain header: an extension header first,
      with type flag x, then whatever it describes. */
  type Extension = Member -> seq<Byte>

  // ---- octal printing ----

  function Pow8(width: nat): (p: nat)
    ensures p > 0
  {
    if width == 0 then 1 else 8 * Pow8(width - 1)
  }

  /** `"%0*o" % (width, n)` for a number that fits. */
  function OctalDigits(n: nat, width: nat): (s: seq<Byte>)
    requires n < Pow8(width)
    ensures |s| == width && IsOctal(s)
  {
    if width == 0 then [] else OctalDigits(n / 8, width - 1) + [48 + n % 8]
  }

  lemma {:induction false} PrintThenRead(n: nat, width: nat)
    requires n < Pow8(width)
    ensures OctalValue(OctalDigits(n, width)) == n
  {
    if width > 0 {
      PrintThenRead(n / 8, width - 1);
      assert OctalDigits(n, width)[..width - 1] == OctalDigits(n / 8, width - 1);
    }
  }

  lemma {:induction false} ReadThenPrint(s: seq<Byte>)
    requires IsOctal(s)
    ensures OctalValue(s) < Pow8(|s|) && OctalDigits(OctalValue(s), |s|) == s
  {
    if s != [] {
      var prefix, last := s[..|s| - 1], s[|s| - 1] - 48;
      ReadThenPrint(prefix);
      assert OctalValue(s) / 8 == OctalValue(prefix) && OctalValue(s) % 8 == last;
      assert s == prefix + [s[|s| - 1]];
    }
  }

  /** A printed field, terminated by NULs or spaces, is read back to the printed number. */
  lemma PrintedField(n: nat, width: nat, terminator: seq<Byte>)
    requires 0 < width && n < Pow8(width)
    requires forall i :: 0 <= i < |terminator| ==> IsPad(terminator[i])
    ensures NumericField(OctalDigits(n, width) + terminator, n)
  {
    var field := OctalDigits(n, width) + terminator;
    PrintThenRead(n, width);
    assert field[0..width] == OctalDigits(n, width);
    assert DigitsBetween(field, 0, width);
  }

  lemma FieldWidths()
    ensures Pow8(7) == 2097152 && Pow8(6) == 262144
    ensures Pow8(11) == 8589934592 && MAX_ENTRY_BYTES < Pow8(11)
  {
    assert Pow8(3) == 512;
    assert Pow8(6) == 262144;
    assert Pow8(9) == 134217728;
  }

  // ---- the writer ----

  /** What the writer refuses: `_require_source` and `_require_plain_name`. */
  predicate IsAcceptedSource(m: Member) {
    1 <= |m.data| <= MAX_ENTRY_BYTES && IsPlainName(m.name)
  }

  /** What fits a plain ustar header. A name of exactly 100 bytes does, without a NUL behind it. */
  predicate FitsUstar(m: Member) {
    && |m.name| <= 100 && (forall i :: 0 <= i < |m.name| ==> m.name[i] < 0x80)
    && 0 <= m.mtime < Pow8(11) && |m.data| < Pow8(11)
  }

  /** What the reader can take back. */
  predicate IsReadable(m: Member) {
    FitsUstar(m) && |m.name| < 100
  }

  predicate IsExtension(e: seq<Byte>) {
    |e| >= 512 && e[156] == 120
  }

  ghost predicate GoodExtension(ext: Extension) {
    forall m :: !FitsUstar(m) ==> IsExtension(ext(m))
  }

  function Mode(m: Member): (n: nat)
    ensures n < Pow8(7)
  {
    FieldWidths();
    if m.executable then 493 else 420
  }

  function Number(n: nat, width: nat): (s: seq<Byte>)
    requires n < Pow8(width)
    ensures |s| == width + 1
  {
    OctalDigits(n, width) + [0]
  }

  /** Bytes 0 to 147: name, mode, uid, gid, size, mtime. */
  function HeaderFront(m: Member): (s: seq<Byte>)
    requires FitsUstar(m)
    ensures |s| == 148
  {
    (m.name + Zeros(100 - |m.name|))
    + (Number(Mode(m), 7) + (Number(0, 7) + Number(0, 7)))
    + (Number(|m.data|, 11) + Number(m.mtime, 11))
  }

  /** Bytes 156 to 511: type, link name, magic and version, owner names, device, prefix, padding. */
  function HeaderBack(): (s: seq<Byte>)
    ensures |s| == 356
  {
    [48] + Zeros(100) + (MAGIC + VERSION) + Zeros(64 + 16 + 167)
  }

  function EncodeHeader(m: Member): (h: seq<Byte>)
    requires FitsUstar(m)
    ensures |h| == 512
  {
    FieldWidths();
    var checksum := Sum(HeaderFront(m)) + 8 * 32 + Sum(HeaderBack());
    HeaderFront(m) + (OctalDigits(checksum, 6) + [0, SPACE]) + HeaderBack()
  }

  function ToSegment(m: Member): Segment
    requires FitsUstar(m)
  {
    Segment(EncodeHeader(m), m.name, m.data)
  }

  function ToSegments(members: seq<Member>): (s: seq<Segment>)
    requires forall i :: 0 <= i < |members| ==> FitsUstar(members[i])
    ensures |s| == |members|
    ensures forall i :: 0 <= i < |s| ==> s[i] == ToSegment(members[i])
  {
    seq(|members|, i requires 0 <= i < |members| => ToSegment(members[i]))
  }

  /** Two zero blocks, then zeros up to a whole 10240-byte record. */
  function TrailerSize(size: nat): (n: nat)
    ensures n >= 1024 && (size + n) % 10240 == 0
  {
    1024 + (10240 - (size + 1024) % 10240) % 10240
  }

  function Written(ext: Extension, m: Member): seq<Byte> {
    if FitsUstar(m) then EncodeHeader(m) + m.data + Zeros(Padded(|m.data|) - |m.data|) else ext(m)
  }

  function WriteAll(ext: Extension, members: seq<Member>): seq<Byte> {
    if members == [] then [] else Written(ext, members[0]) + WriteAll(ext, members[1..])
  }

  function EncodeTar(ext: Extension, members: seq<Member>): seq<Byte> {
    var flat := WriteAll(ext, members);
    flat + Zeros(TrailerSize(|flat|))
  }

  lemma {:induction false} WriteAllAppend(ext: Extension, members: seq<Member>, m: Member)
    ensures WriteAll(ext, members + [m]) == WriteAll(ext, members) + Written(ext, m)
  {
    hide Written;
    if members == [] {
      assert ([] + [m])[1..] == [];
    } else {
      WriteAllAppend(ext, members[1..], m);
      assert (members + [m])[1..] == members[1..] + [m];
    }
  }

  method CreateTar(ext: Extension, members: seq<Member>) returns (r: Result<seq<Byte>, Member>)
    ensures r.Success? <==> forall i :: 0 <= i < |members| ==> IsAcceptedSource(members[i])
    ensures r.Success? ==> r.value == EncodeTar(ext, members)
    ensures r.Failure? ==> r.error in members && !IsAcceptedSource(r.error)
  {
    hide Written, IsAcceptedSource, TrailerSize;
    var output: seq<Byte> := [];
    for i := 0 to |members|
      invariant forall j :: 0 <= j < i ==> IsAcceptedSource(members[j])
      invariant output == WriteAll(ext, members[..i])
    {
      var m := members[i];
      if !IsAcceptedSource(m) {
        return Failure(m);
      }
      WriteAllAppend(ext, members[..i], m);
      output := output + Written(ext, m);
      assert members[..i + 1] == members[..i] + [m];
    }
    assert members[..|members|] == members;
    return Success(output + Zeros(TrailerSize(|output|)));
  }

  // ---- the round trip ----

  lemma FrontFields(m: Member)
    requires FitsUstar(m)
    ensures HeaderFront(m)[..100] == m.name + Zeros(100 - |m.name|)
    ensures HeaderFront(m)[124..136] == Number(|m.data|, 11)
  {
  }

  lemma BackFields()
    ensures var b := HeaderBack();
            && b[0] == 48 && b[1..101] == Zeros(100) && b[101..107] == MAGIC && b[107..109] == VERSION
            && AllZero(b[189..344])
  {
  }

  lemma EncodedHeaderIsUstar(m: Member)
    requires IsReadable(m) && IsPlainName(m.name)
    ensures UstarHeader(EncodeHeader(m), m.name, |m.data|)
  {
    hide HeaderFront, HeaderBack, NumericField, IsUtf8, OctalDigits;
    var h := EncodeHeader(m);
    var front, back := HeaderFront(m), HeaderBack();
    FieldWidths();
    FrontFields(m);
    BackFields();
    assert h[..148] == front && h[156..] == back;
    assert h[..100] == front[..100];
    assert h[124..136] == front[124..136];
    PrintedField(|m.data|, 11, [0]);
    PrintedField(Sum(front) + 8 * 32 + Sum(back), 6, [0, SPACE]);
    assert h[148..156] == OctalDigits(ComputedChecksum(h), 6) + [0, SPACE];
    assert h[156] == back[0] && h[157..257] == back[1..101] && h[345..500] == back[189..344];
    assert h[257..263] == back[101..107] && h[263..265] == back[107..109];
    AsciiIsUtf8(m.name);
  }

  lemma {:induction false} FlattenAligned(segments: seq<Segment>)
    requires forall i :: 0 <= i < |segments| ==> |segments[i].header| == 512
    ensures |Flatten(segments)| % 512 == 0
  {
    if segments != [] {
      FlattenAligned(segments[1..]);
    }
  }

  lemma EncodedIsValid(members: seq<Member>)
    requires forall i :: 0 <= i < |members| ==> FitsUstar(members[i])
    requires forall i :: 0 <= i < |members| ==> IsReadable(members[i]) && IsAcceptedSource(members[i])
    ensures forall i :: 0 <= i < |members| ==> ValidSegment(ToSegments(members)[i])
  {
    hide UstarHeader, EncodeHeader, FitsUstar, IsPlainName;
    forall i | 0 <= i < |members|
      ensures ValidSegment(ToSegments(members)[i])
    {
      EncodedHeaderIsUstar(members[i]);
    }
  }

  lemma TrailerIsWholeBlocks(size: nat)
    requires size % 512 == 0
    ensures TrailerSize(size) % 512 == 0
  {
    hide TrailerSize;
    var blocks, records := size / 512, (size + TrailerSize(size)) / 10240;
    assert TrailerSize(size) == 512 * (20 * records - blocks);
  }

  lemma {:induction false} ReadableIsFlat(ext: Extension, members: seq<Member>)
    requires forall i :: 0 <= i < |members| ==> FitsUstar(members[i])
    ensures WriteAll(ext, members) == Flatten(ToSegments(members))
  {
    hide EncodeHeader, FitsUstar, Padded, ToSegments;
    if members == [] {
      assert ToSegments(members) == [];
    } else {
      FirstSegment(members);
      ReadableIsFlat(ext, members[1..]);
    }
  }

  lemma EncodedIsTail(ext: Extension, members: seq<Member>)
    requires forall i :: 0 <= i < |members| ==> FitsUstar(members[i])
    requires forall i :: 0 <= i < |members| ==> IsReadable(members[i]) && IsAcceptedSource(members[i])
    ensures IsTail(EncodeTar(ext, members), ToSegments(members))
  {
    hide ValidSegment, EncodeHeader, FitsUstar, IsAcceptedSource, Flatten, TrailerSize, WriteAll;
    EncodedIsValid(members);
    ReadableIsFlat(ext, members);
    var flat := Flatten(ToSegments(members));
    FlattenAligned(ToSegments(members));
    TrailerIsWholeBlocks(|flat|);
    assert EncodeTar(ext, members)[|flat|..] == Zeros(TrailerSize(|flat|));
  }

  /** The members' names, sizes and data offsets, computed without any header. */
  function Layout(members: seq<Member>, offset: nat): seq<Record> {
    if members == [] then []
    else [Record(members[0].name, |members[0].data|, offset + 512)]
         + Layout(members[1..], offset + 512 + Padded(|members[0].data|))
  }

  function SizeTotal(members: seq<Member>): nat {
    if members == [] then 0 else |members[0].data| + SizeTotal(members[1..])
  }

  lemma FirstSegment(members: seq<Member>)
    requires members != [] && forall i :: 0 <= i < |members| ==> FitsUstar(members[i])
    ensures ToSegments(members)[0] == ToSegment(members[0]) && ToSegments(members)[1..] == ToSegments(members[1..])
  {
    hide ToSegment, ToSegments, FitsUstar;
  }

  lemma BlockSize(m: Member)
    requires FitsUstar(m)
    ensures ToSegment(m).name == m.name && ToSegment(m).payload == m.data
    ensures |Block(ToSegment(m))| == 512 + Padded(|m.data|)
  {
    hide EncodeHeader, FitsUstar;
  }

  lemma {:induction false} LayoutIsRecords(members: seq<Member>, offset: nat)
    requires forall i :: 0 <= i < |members| ==> FitsUstar(members[i])
    ensures Records(ToSegments(members), offset) == Layout(members, offset)
    ensures PayloadTotal(ToSegments(members)) == SizeTotal(members)
  {
    hide ToSegment, ToSegments, FitsUstar, Padded, Block;
    if members != [] {
      FirstSegment(members);
      BlockSize(members[0]);
      LayoutIsRecords(members[1..], offset + 512 + Padded(|members[0].data|));
    } else {
      assert ToSegments(members) == [];
    }
  }

  /** The writer takes files that are not empty and not too large, under plain names. */
  lemma AcceptedIff(m: Member)
    ensures IsAcceptedSource(m) <==> m.data != [] && |m.data| <= 268435456 && IsFileName(m.name)
  {
  }

  // ---- what cannot be read back ----

  lemma FittingHeader(m: Member, rest: seq<Byte>)
    requires FitsUstar(m) && EncodeHeader(m) <= rest
    ensures rest[156] == 48 && rest[..100] == m.name + Zeros(100 - |m.name|) && rest[124..136] == Number(|m.data|, 11)
  {
    hide HeaderFront, HeaderBack, OctalDigits;
    var h := EncodeHeader(m);
    FieldWidths();
    FrontFields(m);
    BackFields();
    assert h[..148] == HeaderFront(m) && h[156..] == HeaderBack();
    assert rest[..512] == h && rest[156] == h[156] == h[156..][0];
    assert rest[..100] == h[..100] == h[..148][..100];
    assert rest[124..136] == h[124..136] == h[..148][124..136];
  }

  /** The type flag tells plain members from extensions. */
  lemma FlagOf(ext: Extension, m: Member, rest: seq<Byte>)
    requires GoodExtension(ext) && Written(ext, m) <= rest
    ensures |rest| >= 512 && rest[156] == (if FitsUstar(m) then 48 else 120)
  {
    hide EncodeHeader, Padded;
    if FitsUstar(m) {
      assert EncodeHeader(m) <= Written(ext, m);
      FittingHeader(m, rest);
    } else {
      assert rest[156] == ext(m)[156];
    }
  }

  /** A header that the reader takes is not an extension's, and holds a NUL behind the name. */
  lemma TakenHeader(ext: Extension, m: Member, rest: seq<Byte>, s: Segment)
    requires GoodExtension(ext) && IsAcceptedSource(m) && Written(ext, m) <= rest
    requires ValidSegment(s) && |rest| >= 512 && rest[..512] == s.header
    ensures IsReadable(m) && |s.payload| == |m.data|
  {
    hide EncodeHeader, NumericField, IsUtf8, ComputedChecksum, OctalDigits, Padded;
    assert rest[156] == s.header[156] && (rest[156] == 0 || rest[156] == 48);
    FlagOf(ext, m, rest);
    FittingHeader(m, rest);
    assert s.header[..100] == rest[..100] && s.header[124..136] == rest[124..136];
    assert forall k :: 0 <= k < |m.name| ==> rest[..100][k] == m.name[k] != 0;
    assert rest[..100][|s.name|] == 0;
    FieldWidths();
    PrintedField(|m.data|, 11, [0]);
    OctalFieldExact(rest[124..136], |m.data|);
    OctalFieldExact(rest[124..136], |s.payload|);
  }

  /** If a stream that begins with these members is an archive of the format, all of them are
      readable. */
  lemma {:induction false} ArchiveIsReadable(ext: Extension, members: seq<Member>, zeros: seq<Byte>,
                                             segments: seq<Segment>)
    requires GoodExtension(ext) && (forall i :: 0 <= i < |members| ==> IsAcceptedSource(members[i])) && AllZero(zeros)
    requires IsTail(WriteAll(ext, members) + zeros, segments)
    ensures forall i :: 0 <= i < |members| ==> IsReadable(members[i])
    decreases |members|
  {
    hide EncodeHeader, UstarHeader, Padded, IsAcceptedSource, IsReadable, FitsUstar, GoodExtension;
    if members != [] {
      var m, rest := members[0], WriteAll(ext, members) + zeros;
      var tail := WriteAll(ext, members[1..]) + zeros;
      assert rest == Written(ext, m) + tail;
      FlagOf(ext, m, rest);
      assert segments != [];
      FirstBlock(rest, segments);
      TakenHeader(ext, m, rest, segments[0]);
      WrittenSize(ext, m);
      assert rest[512 + Padded(|m.data|)..] == tail;
      ArchiveIsReadable(ext, members[1..], zeros, segments[1..]);
    }
  }

  lemma WrittenSize(ext: Extension, m: Member)
    requires IsReadable(m)
    ensures |Written(ext, m)| == 512 + Padded(|m.data|)
  {
    hide EncodeHeader;
  }

  // ---- the main result ----

  /** Main result: what the writer produces for accepted sources parses back to exactly the written
      names, sizes and offsets if and only if the list is within the archive bounds and every
      member fits a plain header with a name shorter than 100 bytes. It is refused otherwise. */
  lemma RoundTrip(ext: Extension, members: seq<Member>)
    requires GoodExtension(ext) && forall i :: 0 <= i < |members| ==> IsAcceptedSource(members[i])
    ensures ParseTar(EncodeTar(ext, members)) == Success(Layout(members, 0))
            <==> 1 <= |members| <= 32 && SizeTotal(members) <= 805306368
                 && forall i :: 0 <= i < |members| ==> IsReadable(members[i])
    ensures ParseTar(EncodeTar(ext, members)).Success?
            ==> ParseTar(EncodeTar(ext, members)) == Success(Layout(members, 0))
  {
    hide IsAcceptedSource, IsReadable, GoodExtension, TrailerSize, Layout, UstarHeader;
    var data := EncodeTar(ext, members);
    if ParseTar(data).Success? {
      ParserIsExact(data, ParseTar(data).value);
      var parsed :| IsArchive(data, parsed) && ParseTar(data).value == Records(parsed, 0);
      ArchiveIsReadable(ext, members, Zeros(TrailerSize(|WriteAll(ext, members)|)), parsed);
      ReadableFits(members);
      EncodedIsTail(ext, members);
      LayoutIsRecords(members, 0);
      UniqueSegments(data, ToSegments(members), parsed);
    }
    if 1 <= |members| <= MAX_ENTRIES && SizeTotal(members) <= MAX_TOTAL_BYTES
       && forall i :: 0 <= i < |members| ==> IsReadable(members[i]) {
      ReadableFits(members);
      EncodedIsTail(ext, members);
      LayoutIsRecords(members, 0);
      assert IsArchive(data, ToSegments(members));
      ParserIsExact(data, Layout(members, 0));
    }
  }

  lemma ReadableFits(members: seq<Member>)
    requires forall i :: 0 <= i < |members| ==> IsReadable(members[i])
    ensures forall i :: 0 <= i < |members| ==> FitsUstar(members[i])
  {
  }

  // ---- every byte of a header ----

  /** A ustar header of a release file, byte by byte: mode 0755 or 0644, owner 0, the time stamp, no
      link, owner names, devices or prefix. */
  ghost predicate IsHeaderOf(h: seq<Byte>, m: Member)
    requires |m.name| <= 100 && m.mtime >= 0
  {
    && |h| == 512
    && h[..100] == m.name + Zeros(100 - |m.name|)
    && NumericField(h[100..108], if m.executable then 493 else 420)
    && NumericField(h[108..116], 0) && NumericField(h[116..124], 0)
    && NumericField(h[124..136], |m.data|) && NumericField(h[136..148], m.mtime)
    && NumericField(h[148..156], ComputedChecksum(h))
    && h[156] == 48 && AllZero(h[157..257])
    && h[257..265] == [117, 115, 116, 97, 114, 0, 48, 48]
    && AllZero(h[265..512])
  }

  lemma NumbersOf(m: Member)
    requires FitsUstar(m)
    ensures Number(Mode(m), 7) == OctalDigits(if m.executable then 493 else 420, 7) + [0]
    ensures var f := HeaderFront(m);
            && f[100..108] == Number(Mode(m), 7) && f[108..116] == Number(0, 7) && f[116..124] == Number(0, 7)
            && f[136..148] == Number(m.mtime, 11)
  {
    hide OctalDigits;
    FieldWidths();
  }

  lemma BackBytes()
    ensures var b := HeaderBack();
            && b[101..109] == [117, 115, 116, 97, 114, 0, 48, 48] && AllZero(b[109..356])
  {
    var b := HeaderBack();
    assert b[101..107] == MAGIC && b[107..109] == VERSION;
    assert b[101..109] == b[101..107] + b[107..109];
  }

  lemma HeaderIs(m: Member)
    requires FitsUstar(m)
    ensures IsHeaderOf(EncodeHeader(m), m)
  {
    hide HeaderFront, HeaderBack, NumericField, OctalDigits, Number, Mode;
    var h, front, back := EncodeHeader(m), HeaderFront(m), HeaderBack();
    FieldWidths();
    FrontFields(m);
    BackFields();
    BackBytes();
    NumbersOf(m);
    NumbersAreRead(m);
    assert h[..148] == front && h[156..] == back && h[..100] == front[..100];
    assert h[100..108] == front[100..108] && h[108..116] == front[108..116] && h[116..124] == front[116..124];
    assert h[124..136] == front[124..136] && h[136..148] == front[136..148];
    assert h[148..156] == OctalDigits(ComputedChecksum(h), 6) + [0, SPACE];
    PrintedField(Sum(front) + 8 * 32 + Sum(back), 6, [0, SPACE]);
    assert h[156] == back[0] && h[157..257] == back[1..101] && h[257..265] == back[101..109];
    assert h[265..512] == back[109..356];
  }

  lemma NumbersAreRead(m: Member)
    requires FitsUstar(m)
    ensures NumericField(Number(Mode(m), 7), if m.executable then 493 else 420)
    ensures NumericField(Number(0, 7), 0) && NumericField(Number(|m.data|, 11), |m.data|)
    ensures NumericField(Number(m.mtime, 11), m.mtime)
  {
    hide NumericField, OctalDigits;
    FieldWidths();
    PrintedField(Mode(m), 7, [0]);
    PrintedField(0, 7, [0]);
    PrintedField(|m.data|, 11, [0]);
    PrintedField(m.mtime, 11, [0]);
  }

  lemma {:induction false} WriteAllSplits(ext: Extension, members: seq<Member>, i: nat)
    requires i <= |members|
    ensures WriteAll(ext, members) == WriteAll(ext, members[..i]) + WriteAll(ext, members[i..])
  {
    hide Written;
    if i == 0 {
      assert members[..0] == [] && members[0..] == members;
    } else {
      WriteAllSplits(ext, members[1..], i - 1);
      assert members[..i][1..] == members[1..][..i - 1] && members[1..][i - 1..] == members[i..];
    }
  }

  /** Main result: after what comes before it, every fitting member is written as its header, its
      content and zeros up to a whole block; the last member is followed by zeros only, at least
      two blocks and up to a whole record of 20. */
  lemma MemberIsWritten(ext: Extension, members: seq<Member>, i: nat)
    requires i < |members| && FitsUstar(members[i])
    ensures var m, tar, p := members[i], EncodeTar(ext, members), |WriteAll(ext, members[..i])|;
            && p + 512 + Padded(|m.data|) <= |tar| && |m.data| <= Padded(|m.data|) < |m.data| + 512
            && IsHeaderOf(tar[p..p + 512], m) && tar[p + 512..p + 512 + |m.data|] == m.data
            && AllZero(tar[p + 512 + |m.data|..p + 512 + Padded(|m.data|)])
            && (i + 1 < |members| ==> |WriteAll(ext, members[..i + 1])| == p + 512 + Padded(|m.data|))
            && (i + 1 == |members| ==> AllZero(tar[p + 512 + |m.data|..]))
    ensures var n := |EncodeTar(ext, members)|;
            n % 10240 == 0 && |WriteAll(ext, members)| + 1024 <= n < |WriteAll(ext, members)| + 1024 + 10240
  {
    hide EncodeHeader, TrailerSize, IsHeaderOf, FitsUstar, Padded, WriteAll, EncodeTar, AllZero;
    var m, before := members[i], WriteAll(ext, members[..i]);
    var h, fill := EncodeHeader(m), Zeros(Padded(|m.data|) - |m.data|);
    HeaderIs(m);
    PaddedIs(|m.data|);
    var rest := AroundMember(ext, members, i);
    Slices(before, h, m.data, fill, rest);
    TarLength(ext, members);
    if i + 1 == |members| { ZerosJoin(fill, rest); }
  }

  lemma TarLength(ext: Extension, members: seq<Member>)
    ensures var n := |EncodeTar(ext, members)|;
            n % 10240 == 0 && |WriteAll(ext, members)| + 1024 <= n < |WriteAll(ext, members)| + 1024 + 10240
  {
    hide TrailerSize, WriteAll;
    TrailerIsSmall(|WriteAll(ext, members)|);
  }

  lemma ZerosJoin(a: seq<Byte>, b: seq<Byte>)
    requires AllZero(a) && AllZero(b)
    ensures AllZero(a + b)
  {
  }

  lemma FirstWritten(ext: Extension, members: seq<Member>)
    requires members != []
    ensures WriteAll(ext, members) == Written(ext, members[0]) + WriteAll(ext, members[1..])
  {
    hide Written;
  }

  lemma NothingWritten(ext: Extension)
    ensures WriteAll(ext, []) == []
  {
  }

  lemma WrittenIs(ext: Extension, m: Member)
    requires FitsUstar(m)
    ensures Written(ext, m) == EncodeHeader(m) + (m.data + Zeros(Padded(|m.data|) - |m.data|))
  {
    hide EncodeHeader, Padded;
  }

  /** What stands around one member. */
  lemma AroundMember(ext: Extension, members: seq<Member>, i: nat) returns (rest: seq<Byte>)
    requires i < |members| && FitsUstar(members[i])
    ensures var m := members[i];
            && EncodeTar(ext, members)
               == WriteAll(ext, members[..i])
                  + (EncodeHeader(m) + (m.data + (Zeros(Padded(|m.data|) - |m.data|) + rest)))
            && |WriteAll(ext, members[..i + 1])| == |WriteAll(ext, members[..i])| + 512 + Padded(|m.data|)
    ensures i + 1 == |members| ==> AllZero(rest)
  {
    hide EncodeHeader, TrailerSize, FitsUstar, Padded, WriteAll, Written, AllZero;
    var m, before := members[i], WriteAll(ext, members[..i]);
    FirstWritten(ext, members[i..]);
    WrittenIs(ext, m);
    NothingWritten(ext);
    WriteAllSplits(ext, members, i);
    WriteAllAppend(ext, members[..i], m);
    assert members[..i + 1] == members[..i] + [m];
    rest := WriteAll(ext, members[i + 1..]) + Zeros(TrailerSize(|WriteAll(ext, members)|));
    assert members[i..][1..] == members[i + 1..];
    assert i + 1 == |members| ==> members[i + 1..] == [];
    assert i + 1 == |members| ==> rest == Zeros(TrailerSize(|WriteAll(ext, members)|));
  }

  lemma Slices(a: seq<Byte>, h: seq<Byte>, d: seq<Byte>, fill: seq<Byte>, rest: seq<Byte>)
    requires |h| == 512
    ensures var s, p := a + (h + (d + (fill + rest))), |a|;
            && s[p..p + 512] == h && s[p + 512..p + 512 + |d|] == d
            && s[p + 512 + |d|..p + 512 + |d| + |fill|] == fill && s[p + 512 + |d|..] == fill + rest
  {
    var s, p := a + (h + (d + (fill + rest))), |a|;
    assert s[p..] == h + (d + (fill + rest));
    assert s[p + 512..] == d + (fill + rest);
  }

  lemma PaddedIs(n: nat)
    ensures n <= Padded(n) < n + 512
  {
  }

  lemma TrailerIsSmall(size: nat)
    ensures 1024 <= TrailerSize(size) < 1024 + 10240 && (size + TrailerSize(size)) % 10240 == 0
  {
  }
}
