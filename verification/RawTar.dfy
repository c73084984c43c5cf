/**
 The bounded ustar preflight of scripts/release_archive.py.

 `ParseTar` follows the script's checks in order; `ValidateRawTar` is the loop proved equal
 to it. The independent description is `IsArchive`: header blocks, payloads, zero padding
 and a zero trailer, concatenated (POSIX.1-2017, pax, "ustar Interchange Format").
 `ParserIsExact` says the two agree on every byte sequence.
 */
module RawTar {
  import opened Wrappers
  import opened Bytes

  const MAX_ENTRY_BYTES: nat := 0x1000_0000
  const MAX_TOTAL_BYTES: nat := 0x3000_0000
  const MAX_ENTRIES: nat := 32
  const SPACE: Byte := 32
  const MAGIC: seq<Byte> := [117, 115, 116, 97, 114, 0]  // "ustar" NUL
  const VERSION: seq<Byte> := [48, 48]  // "00"

  datatype TarError =
    | Unaligned | NoEndMarker | OneZeroBlock | NoncanonicalEnd | HiddenTrailer
    | TooManyEntries | ForbiddenNumber | NotOctal | ChecksumMismatch | NotUstar
    | SpecialEntry | LinkOrPrefix | BadNameField | NotUtf8 | UnsafeName
    | EntryTooLarge | TotalTooLarge | PayloadOutOfRange | DirtyPadding | NoMembers

  datatype Record = Record(name: seq<Byte>, size: nat, dataOffset: nat)
  datatype Header = Header(name: seq<Byte>, size: nat)

  // ---- octal fields ----

  predicate IsPad(b: Byte) {
    b == 0 || b == SPACE
  }

  predicate IsOctalDigit(b: Byte) {
    48 <= b <= 55
  }

  predicate IsOctal(s: seq<Byte>) {
    forall i :: 0 <= i < |s| ==> IsOctalDigit(s[i])
  }

  /** `rstrip(b"\x00 ")` */
  function TrimRight(s: seq<Byte>): (t: seq<Byte>)
    ensures t <= s
    ensures forall i :: |t| <= i < |s| ==> IsPad(s[i])
    ensures t != [] ==> !IsPad(t[|t| - 1])
  {
    if s != [] && IsPad(s[|s| - 1]) then TrimRight(s[..|s| - 1]) else s
  }

  /** `lstrip(b" ")`, as the number of bytes dropped. */
  function LeadingSpaces(s: seq<Byte>): (n: nat)
    ensures n <= |s|
    ensures forall i :: 0 <= i < n ==> s[i] == SPACE
    ensures n < |s| ==> s[n] != SPACE
  {
    if s != [] && s[0] == SPACE then 1 + LeadingSpaces(s[1..]) else 0
  }

  function OctalValue(s: seq<Byte>): nat
    requires IsOctal(s)
  {
    if s == [] then 0 else 8 * OctalValue(s[..|s| - 1]) + (s[|s| - 1] - 48)
  }

  function ParseTarOctal(field: seq<Byte>): Result<nat, TarError> {
    if field == [] || field[0] >= 0x80 then Failure(ForbiddenNumber)
    else
      var right := TrimRight(field);
      var value := right[LeadingSpaces(right)..];
      if value == [] || !IsOctal(value) then Failure(NotOctal) else Success(OctalValue(value))
  }

  /** What a numeric field looks like: spaces, octal digits, then NULs or spaces. */
  ghost predicate NumericField(field: seq<Byte>, v: nat) {
    exists a, b :: DigitsBetween(field, a, b) && OctalValue(field[a..b]) == v
  }

  ghost predicate DigitsBetween(field: seq<Byte>, a: int, b: int) {
    && 0 <= a < b <= |field|
    && (forall i :: 0 <= i < a ==> field[i] == ' ' as int)
    && IsOctal(field[a..b])
    && (forall i :: b <= i < |field| ==> field[i] == 0 || field[i] == ' ' as int)
  }

  /** The octal parser accepts exactly the numeric fields, with their value. */
  lemma OctalFieldExact(field: seq<Byte>, v: nat)
    ensures ParseTarOctal(field) == Success(v) <==> NumericField(field, v)
  {
    var right := TrimRight(field);
    var n := LeadingSpaces(right);
    if ParseTarOctal(field) == Success(v) {
      assert right[n..] == field[n..|right|];
      assert DigitsBetween(field, n, |right|);
    }
    if NumericField(field, v) {
      var a, b :| DigitsBetween(field, a, b) && OctalValue(field[a..b]) == v;
      assert IsOctalDigit(field[a..b][0]) && IsOctalDigit(field[a..b][b - 1 - a]);
      assert |right| == b;
      assert n == a;
      assert right[n..] == field[a..b];
    }
  }

  // ---- headers ----

  /** `_require_plain_name` on the UTF-8 bytes of the name: every character it looks at is
      ASCII, and an ASCII byte never occurs inside a multi-byte UTF-8 sequence. */
  predicate IsPlainName(name: seq<Byte>) {
    && name != [] && name != [46] && name != [46, 46]
    && forall i :: 0 <= i < |name| ==> name[i] != 0 && name[i] != 92 && name[i] != 47
  }

  /** `field.find(b"\x00")`, with |field| for "not found". */
  function FirstNul(field: seq<Byte>): (n: nat)
    ensures n <= |field|
    ensures forall i :: 0 <= i < n ==> field[i] != 0
    ensures n < |field| ==> field[n] == 0
  {
    if field == [] || field[0] == 0 then 0 else 1 + FirstNul(field[1..])
  }

  function ComputedChecksum(header: seq<Byte>): nat
    requires |header| == 512
  {
    Sum(header[..148]) + 8 * 32 + Sum(header[156..])
  }

  function ReadName(field: seq<Byte>): Result<seq<Byte>, TarError> {
    var end := FirstNul(field);
    if end == |field| || !AllZero(field[end + 1..]) then Failure(BadNameField)
    else if !IsUtf8(field[..end]) then Failure(NotUtf8)
    else if !IsPlainName(field[..end]) then Failure(UnsafeName)
    else Success(field[..end])
  }

  function ReadHeader(header: seq<Byte>): Result<Header, TarError>
    requires |header| == 512
  {
    var stored :- ParseTarOctal(header[148..156]);
    if stored != ComputedChecksum(header) then Failure(ChecksumMismatch)
    else if header[257..263] != MAGIC || header[263..265] != VERSION then Failure(NotUstar)
    else if header[156] != 0 && header[156] != 48 then Failure(SpecialEntry)
    else if !AllZero(header[157..257]) || !AllZero(header[345..500]) then Failure(LinkOrPrefix)
    else
      var name :- ReadName(header[..100]);
      var size :- ParseTarOctal(header[124..136]);
      Success(Header(name, size))
  }

  /** A name field is the name, NUL-padded to the field's width. */
  ghost predicate NameField(field: seq<Byte>, name: seq<Byte>) {
    && |name| < |field|
    && field == name + Zeros(|field| - |name|)
    && IsFileName(name) && IsUtf8(name)
  }

  /** A name that no path separator, NUL or dot name can hide in. */
  ghost predicate IsFileName(name: seq<Byte>) {
    && name != [] && name != ['.' as int] && name != ['.' as int, '.' as int]
    && 0 !in name && '/' as int !in name && '\\' as int !in name
  }

  /** The field-by-field description of an acceptable ustar header. */
  ghost predicate UstarHeader(header: seq<Byte>, name: seq<Byte>, size: nat) {
    && |header| == 512
    && NameField(header[..100], name)
    && NumericField(header[124..136], size)
    && NumericField(header[148..156], ComputedChecksum(header))
    && (header[156] == 0 || header[156] == 48)
    && AllZero(header[157..257])
    && header[257..263] == ['u' as int, 's' as int, 't' as int, 'a' as int, 'r' as int, 0]
    && header[263..265] == ['0' as int, '0' as int]
    && AllZero(header[345..500])
  }

  lemma NameFieldExact(field: seq<Byte>, name: seq<Byte>)
    ensures ReadName(field) == Success(name) <==> NameField(field, name)
  {
    var end := FirstNul(field);
    if ReadName(field) == Success(name) {
      assert field[end..] == Zeros(|field| - end) by {
        assert field[end..] == [field[end]] + field[end + 1..];
      }
      assert field == field[..end] + field[end..];
    }
    if NameField(field, name) {
      assert forall i :: 0 <= i < |name| ==> field[i] == name[i];
      assert field[|name|] == 0;
      assert end == |name|;
      assert field[..end] == name;
    }
  }

  lemma HeaderExact(header: seq<Byte>, name: seq<Byte>, size: nat)
    requires |header| == 512
    ensures ReadHeader(header) == Success(Header(name, size)) <==> UstarHeader(header, name, size)
  {
    NameFieldExact(header[..100], name);
    OctalFieldExact(header[124..136], size);
    OctalFieldExact(header[148..156], ComputedChecksum(header));
  }

  // ---- the parser ----

  function Padded(size: nat): (p: nat)
    ensures size <= p < size + 512 && p % 512 == 0
  {
    (size + 511) / 512 * 512
  }

  predicate CanonicalEnd(data: seq<Byte>, logicalEnd: nat)
    requires logicalEnd <= |data|
  {
    |data| - logicalEnd >= 1024 && (|data| - logicalEnd) % 512 == 0
  }

  function ParseEnd(data: seq<Byte>, offset: nat, records: seq<Record>): Result<seq<Record>, TarError>
    requires offset + 512 <= |data|
  {
    if offset + 1024 > |data| || !AllZero(data[offset + 512..offset + 1024]) then Failure(OneZeroBlock)
    else if !CanonicalEnd(data, offset) then Failure(NoncanonicalEnd)
    else if !AllZero(data[offset..]) then Failure(HiddenTrailer)
    else if records == [] then Failure(NoMembers)
    else Success(records)
  }

  function ParseFrom(data: seq<Byte>, offset: nat, records: seq<Record>, total: nat)
    : Result<seq<Record>, TarError>
    requires offset <= |data|
    decreases |data| - offset
  {
    if offset + 512 > |data| then Failure(NoEndMarker)
    else
      var block := data[offset..offset + 512];
      if AllZero(block) then ParseEnd(data, offset, records)
      else if |records| >= MAX_ENTRIES then Failure(TooManyEntries)
      else
        var header :- ReadHeader(block);
        var dataOffset := offset + 512;
        var paddedEnd := dataOffset + Padded(header.size);
        if header.size > MAX_ENTRY_BYTES then Failure(EntryTooLarge)
        else if total + header.size > MAX_TOTAL_BYTES then Failure(TotalTooLarge)
        else if paddedEnd > |data| then Failure(PayloadOutOfRange)
        else if !AllZero(data[dataOffset + header.size..paddedEnd]) then Failure(DirtyPadding)
        else ParseFrom(data, paddedEnd, records + [Record(header.name, header.size, dataOffset)], total + header.size)
  }

  function ParseTar(data: seq<Byte>): Result<seq<Record>, TarError> {
    if |data| % 512 != 0 then Failure(Unaligned) else ParseFrom(data, 0, [], 0)
  }

  /** The trailer check reads at most one mebibyte at a time. */
  method ValidateTarTermination(data: seq<Byte>, logicalEnd: nat) returns (r: Result<(), TarError>)
    requires logicalEnd <= |data|
    ensures r == if !CanonicalEnd(data, logicalEnd) then Failure(NoncanonicalEnd)
                 else if !AllZero(data[logicalEnd..]) then Failure(HiddenTrailer) else Success(())
  {
    if !CanonicalEnd(data, logicalEnd) {
      return Failure(NoncanonicalEnd);
    }
    var remaining := |data| - logicalEnd;
    while remaining > 0
      invariant 0 <= remaining <= |data| - logicalEnd
      invariant forall i :: logicalEnd <= i < |data| - remaining ==> data[i] == 0
    {
      var position := |data| - remaining;
      var size := if remaining < 1024 * 1024 then remaining else 1024 * 1024;
      var chunk := data[position..position + size];
      if !AllZero(chunk) {
        var i :| 0 <= i < |chunk| && chunk[i] != 0;
        assert data[logicalEnd..][position - logicalEnd + i] != 0;
        return Failure(HiddenTrailer);
      }
      assert forall i :: position <= i < position + size ==> data[i] == chunk[i - position];
      remaining := remaining - size;
    }
    return Success(());
  }

  method ValidateRawTar(data: seq<Byte>) returns (r: Result<seq<Record>, TarError>)
    ensures r == ParseTar(data)
  {
    hide ReadHeader, Padded, AllZero;
    if |data| % 512 != 0 {
      return Failure(Unaligned);
    }
    var records: seq<Record>, total, offset := [], 0, 0;
    while true
      invariant 0 <= offset <= |data| && 0 <= total
      invariant ParseTar(data) == ParseFrom(data, offset, records, total)
      decreases |data| - offset
    {
      if offset + 512 > |data| {
        return Failure(NoEndMarker);
      }
      var block := data[offset..offset + 512];
      if AllZero(block) {
        if offset + 1024 > |data| || !AllZero(data[offset + 512..offset + 1024]) {
          return Failure(OneZeroBlock);
        }
        var _ :- ValidateTarTermination(data, offset);
        break;
      }
      if |records| >= MAX_ENTRIES {
        return Failure(TooManyEntries);
      }
      var header :- ReadHeader(block);
      if header.size > MAX_ENTRY_BYTES {
        return Failure(EntryTooLarge);
      }
      total := total + header.size;
      if total > MAX_TOTAL_BYTES {
        return Failure(TotalTooLarge);
      }
      var dataOffset := offset + 512;
      var paddedEnd := dataOffset + Padded(header.size);
      if paddedEnd > |data| {
        return Failure(PayloadOutOfRange);
      }
      if !AllZero(data[dataOffset + header.size..paddedEnd]) {
        return Failure(DirtyPadding);
      }
      records := records + [Record(header.name, header.size, dataOffset)];
      offset := paddedEnd;
    }
    if records == [] {
      return Failure(NoMembers);
    }
    return Success(records);
  }

  // ---- the format, described without a parser ----

  datatype Segment = Segment(header: seq<Byte>, name: seq<Byte>, payload: seq<Byte>)

  ghost predicate ValidSegment(s: Segment) {
    UstarHeader(s.header, s.name, |s.payload|) && |s.payload| <= 268435456
  }

  function Block(s: Segment): seq<Byte> {
    s.header + s.payload + Zeros(Padded(|s.payload|) - |s.payload|)
  }

  function Flatten(segments: seq<Segment>): seq<Byte> {
    if segments == [] then [] else Block(segments[0]) + Flatten(segments[1..])
  }

  function PayloadTotal(segments: seq<Segment>): nat {
    if segments == [] then 0 else |segments[0].payload| + PayloadTotal(segments[1..])
  }

  /** The records an archive's members have when the first header is at `offset`. */
  function Records(segments: seq<Segment>, offset: nat): seq<Record> {
    if segments == [] then []
    else [Record(segments[0].name, |segments[0].payload|, offset + 512)]
         + Records(segments[1..], offset + |Block(segments[0])|)
  }

  /** `rest` is the given members followed by a canonical all-zero trailer. */
  ghost predicate IsTail(rest: seq<Byte>, segments: seq<Segment>) {
    && (forall i :: 0 <= i < |segments| ==> ValidSegment(segments[i]))
    && Flatten(segments) <= rest
    && var trailer := rest[|Flatten(segments)|..];
       AllZero(trailer) && |trailer| >= 1024 && |trailer| % 512 == 0
  }

  ghost predicate IsArchive(data: seq<Byte>, segments: seq<Segment>) {
    && IsTail(data, segments)
    && 1 <= |segments| <= 32
    && PayloadTotal(segments) <= 805306368
  }

  // ---- the parser accepts exactly the format ----

  lemma ValidHeaderIsNotZero(s: Segment)
    requires ValidSegment(s)
    ensures |s.header| == 512 && !AllZero(s.header)
  {
    assert s.header[257..263][0] == 117;
  }

  lemma FirstBlock(rest: seq<Byte>, segments: seq<Segment>)
    requires IsTail(rest, segments) && segments != []
    ensures var s := segments[0];
            var end := 512 + Padded(|s.payload|);
            && |Block(s)| == end <= |rest|
            && rest[..512] == s.header
            && rest[512..512 + |s.payload|] == s.payload
            && AllZero(rest[512 + |s.payload|..end])
            && IsTail(rest[end..], segments[1..])
  {
    hide UstarHeader, AllZero;
    var s := segments[0];
    var flat := Flatten(segments);
    ValidHeaderIsNotZero(s);
    var end := |Block(s)|;
    assert rest == flat + rest[|flat|..];
    assert rest == Block(s) + (Flatten(segments[1..]) + rest[|flat|..]);
    assert rest[end..] == Flatten(segments[1..]) + rest[|flat|..];
    assert rest[..end] == Block(s);
    assert rest[512 + |s.payload|..end] == Block(s)[512 + |s.payload|..] == Zeros(Padded(|s.payload|) - |s.payload|);
    assert rest[end..][|Flatten(segments[1..])|..] == rest[|flat|..];
  }

  lemma TrailerIsParsed(data: seq<Byte>, offset: nat, records: seq<Record>, total: nat)
    requires offset <= |data| && AllZero(data[offset..])
    requires |data| - offset >= 1024 && (|data| - offset) % 512 == 0 && records != []
    ensures ParseFrom(data, offset, records, total) == Success(records)
  {
    hide ReadHeader;
    var rest := data[offset..];
    assert data[offset..offset + 512] == rest[..512];
    assert data[offset + 512..offset + 1024] == rest[512..1024];
  }

  lemma OnlyTrailer(rest: seq<Byte>)
    requires IsTail(rest, [])
    ensures AllZero(rest) && |rest| >= 1024 && |rest| % 512 == 0
  {
    assert rest[0..] == rest;
  }

  lemma {:induction false} FormatIsParsed(data: seq<Byte>, offset: nat, records: seq<Record>, total: nat,
                                          segments: seq<Segment>)
    requires offset <= |data|
    requires IsTail(data[offset..], segments)
    requires 1 <= |records| + |segments| <= MAX_ENTRIES
    requires total + PayloadTotal(segments) <= MAX_TOTAL_BYTES
    ensures ParseFrom(data, offset, records, total) == Success(records + Records(segments, offset))
    decreases |segments|
  {
    hide UstarHeader, ReadHeader, AllZero, Padded, Block, IsTail, ParseEnd;
    var rest := data[offset..];
    if segments == [] {
      OnlyTrailer(rest);
      TrailerIsParsed(data, offset, records, total);
      assert records + Records(segments, offset) == records;
    } else {
      FirstBlock(rest, segments);
      FirstIsValid(rest, segments);
      var s := segments[0];
      var end := 512 + Padded(|s.payload|);
      ValidHeaderIsNotZero(s);
      HeaderExact(s.header, s.name, |s.payload|);
      assert data[offset..offset + 512] == rest[..512];
      assert data[offset + 512 + |s.payload|..offset + end] == rest[512 + |s.payload|..end];
      assert data[offset + end..] == rest[end..];
      var record := Record(s.name, |s.payload|, offset + 512);
      FormatIsParsed(data, offset + end, records + [record], total + |s.payload|, segments[1..]);
      assert records + [record] + Records(segments[1..], offset + end) == records + Records(segments, offset);
    }
  }

  lemma PrependBlock(rest: seq<Byte>, s: Segment, segments: seq<Segment>)
    requires ValidSegment(s)
    requires var end := 512 + Padded(|s.payload|);
             && end <= |rest|
             && rest[..512] == s.header
             && rest[512..512 + |s.payload|] == s.payload
             && AllZero(rest[512 + |s.payload|..end])
             && IsTail(rest[end..], segments)
    ensures IsTail(rest, [s] + segments) && |Block(s)| == 512 + Padded(|s.payload|)
  {
    hide UstarHeader, Padded;
    var end := 512 + Padded(|s.payload|);
    AllZeroIsZeros(rest[512 + |s.payload|..end]);
    assert rest[..end] == Block(s);
    assert ([s] + segments)[1..] == segments;
    var flat := Flatten([s] + segments);
    assert flat == Block(s) + Flatten(segments);
    assert rest == rest[..end] + rest[end..];
    assert rest[|flat|..] == rest[end..][|Flatten(segments)|..];
  }

  lemma {:induction false} ParsedIsFormat(data: seq<Byte>, offset: nat, records: seq<Record>, total: nat)
    returns (segments: seq<Segment>)
    requires offset <= |data| && |records| <= MAX_ENTRIES && total <= MAX_TOTAL_BYTES
    requires ParseFrom(data, offset, records, total).Success?
    ensures IsTail(data[offset..], segments)
    ensures 1 <= |records| + |segments| <= MAX_ENTRIES
    ensures total + PayloadTotal(segments) <= MAX_TOTAL_BYTES
    ensures ParseFrom(data, offset, records, total) == Success(records + Records(segments, offset))
    decreases |data| - offset
  {
    hide UstarHeader, ReadHeader, AllZero, Padded, Block;
    var rest := data[offset..];
    var block := data[offset..offset + 512];
    assert rest[..512] == block;
    if AllZero(block) {
      segments := [];
      assert rest[0..] == rest;
      assert records + Records(segments, offset) == records;
    } else {
      var header := ReadHeader(block).value;
      HeaderExact(block, header.name, header.size);
      var end := 512 + Padded(header.size);
      var s := Segment(block, header.name, rest[512..512 + header.size]);
      var record := Record(header.name, header.size, offset + 512);
      var others := ParsedIsFormat(data, offset + end, records + [record], total + header.size);
      assert data[offset + end..] == rest[end..];
      assert data[offset + 512 + header.size..offset + end] == rest[512 + header.size..end];
      PrependBlock(rest, s, others);
      segments := [s] + others;
      assert segments[1..] == others;
      assert records + [record] + Records(others, offset + end) == records + Records(segments, offset);
    }
  }

  lemma AlignedArchive(data: seq<Byte>, segments: seq<Segment>)
    requires IsTail(data, segments)
    ensures |data| % 512 == 0
    decreases |segments|
  {
    hide UstarHeader, Block;
    if segments == [] {
      assert data[0..] == data;
    } else {
      FirstBlock(data, segments);
      var end := 512 + Padded(|segments[0].payload|);
      AlignedArchive(data[end..], segments[1..]);
      assert |data| == end + |data[end..]|;
    }
  }

  /** Main result: the parser accepts exactly the archives of the format, with exactly their
      members' names, sizes and data offsets. No byte of an accepted stream is unexplained. */
  lemma ParserIsExact(data: seq<Byte>, records: seq<Record>)
    ensures ParseTar(data) == Success(records)
            <==> exists segments :: IsArchive(data, segments) && records == Records(segments, 0)
  {
    assert data[0..] == data;
    if ParseTar(data) == Success(records) {
      var segments := ParsedIsFormat(data, 0, [], 0);
      assert IsArchive(data, segments) && records == Records(segments, 0);
    }
    if exists segments :: IsArchive(data, segments) && records == Records(segments, 0) {
      var segments :| IsArchive(data, segments) && records == Records(segments, 0);
      AlignedArchive(data, segments);
      FormatIsParsed(data, 0, [], 0, segments);
      assert [] + Records(segments, 0) == records;
    }
  }

  /** The decomposition is unique: a stream is a member list and a trailer in one way only. */
  lemma FirstIsValid(rest: seq<Byte>, segments: seq<Segment>)
    requires IsTail(rest, segments) && segments != []
    ensures ValidSegment(segments[0]) && |segments[0].header| == 512
  {
    hide NameField, NumericField, AllZero;
  }

  lemma EmptyTail(rest: seq<Byte>, left: seq<Segment>, right: seq<Segment>)
    requires IsTail(rest, left) && IsTail(rest, right) && (left == [] || right == [])
    ensures left == right
  {
    hide UstarHeader, Block, Padded;
    assert rest[0..] == rest;
    if left != [] { FirstBlock(rest, left); ValidHeaderIsNotZero(left[0]); }
    if right != [] { FirstBlock(rest, right); ValidHeaderIsNotZero(right[0]); }
  }

  lemma {:induction false} UniqueSegments(rest: seq<Byte>, left: seq<Segment>, right: seq<Segment>)
    requires IsTail(rest, left) && IsTail(rest, right)
    ensures left == right
    decreases |left|
  {
    hide UstarHeader, ReadHeader, Block, Padded, IsTail;
    if left == [] || right == [] {
      EmptyTail(rest, left, right);
    } else {
      FirstBlock(rest, left);
      FirstBlock(rest, right);
      var l, r := left[0], right[0];
      FirstIsValid(rest, left);
      FirstIsValid(rest, right);
      HeaderExact(l.header, l.name, |l.payload|);
      HeaderExact(r.header, r.name, |r.payload|);
      assert l == r;
      UniqueSegments(rest[512 + Padded(|l.payload|)..], left[1..], right[1..]);
      assert left == [l] + left[1..] && right == [r] + right[1..];
    }
  }

  /** Two accepted streams of one length with the same headers and payloads are identical. */
  lemma SameMembersSameBytes(first: seq<Byte>, second: seq<Byte>, left: seq<Segment>, right: seq<Segment>)
    requires IsArchive(first, left) && IsArchive(second, right)
    requires |first| == |second| && |left| == |right|
    requires forall i :: 0 <= i < |left| ==> left[i].header == right[i].header && left[i].payload == right[i].payload
    ensures first == second
  {
    forall i | 0 <= i < |left|
      ensures left[i] == right[i]
    {
      HeaderExact(left[i].header, left[i].name, |left[i].payload|);
      HeaderExact(right[i].header, right[i].name, |right[i].payload|);
    }
    assert left == right;
    var flat := Flatten(left);
    assert first == flat + first[|flat|..] && second == flat + second[|flat|..];
    AllZeroIsZeros(first[|flat|..]);
    AllZeroIsZeros(second[|flat|..]);
  }

  /** The first member's region, cut out of the whole stream. */
  lemma FirstRegion(data: seq<Byte>, offset: nat, s: Segment, segments: seq<Segment>)
    requires offset <= |data| && segments != [] && segments[0] == s && IsTail(data[offset..], segments)
    ensures offset + 512 + Padded(|s.payload|) + 1024 <= |data|
    ensures data[offset..offset + 512] == s.header
    ensures data[offset + 512..offset + 512 + |s.payload|] == s.payload
    ensures ValidSegment(s)
  {
    hide UstarHeader, Block, Flatten;
    var rest := data[offset..];
    FirstBlock(rest, segments);
    var end := 512 + Padded(|s.payload|);
    assert data[offset + end..] == rest[end..];
    assert data[offset..offset + 512] == rest[..512];
    assert data[offset + 512..offset + 512 + |s.payload|] == rest[512..512 + |s.payload|];
    TrailerFits(rest[end..], segments[1..]);
  }

  lemma {:induction false} RecordsAreAligned(segments: seq<Segment>, offset: nat)
    ensures |Records(segments, offset)| == |segments|
    ensures forall i :: 0 <= i < |segments| ==>
              Records(segments, offset)[i].dataOffset == offset + |Flatten(segments[..i])| + 512
    ensures forall i :: 0 <= i < |segments| ==>
              Records(segments, offset)[i].size == |segments[i].payload|
    decreases |segments|
  {
    hide Block;
    if segments != [] {
      RecordsAreAligned(segments[1..], offset + |Block(segments[0])|);
      forall i | 1 <= i < |segments|
        ensures Records(segments, offset)[i].dataOffset == offset + |Flatten(segments[..i])| + 512
      {
        assert segments[..i][1..] == segments[1..][..i - 1];
      }
    }
  }

  lemma {:induction false} FlattenSplits(segments: seq<Segment>, k: nat)
    requires k <= |segments|
    ensures Flatten(segments) == Flatten(segments[..k]) + Flatten(segments[k..])
    decreases k
  {
    hide Block;
    if k > 0 {
      FlattenSplits(segments[1..], k - 1);
      assert segments[..k][1..] == segments[1..][..k - 1];
      assert segments[1..][k - 1..] == segments[k..];
    } else {
      assert segments[..0] == [] && segments[0..] == segments;
    }
  }

  lemma TailSplits(rest: seq<Byte>, segments: seq<Segment>, k: nat)
    requires IsTail(rest, segments) && k <= |segments|
    ensures |Flatten(segments[..k])| <= |rest| && IsTail(rest[|Flatten(segments[..k])|..], segments[k..])
  {
    hide ValidSegment, Flatten, AllZero;
    FlattenSplits(segments, k);
    var f, g := Flatten(segments[..k]), Flatten(segments[k..]);
    assert rest[..|f + g|] == f + g;
    assert rest[|f|..][..|g|] == g;
    assert rest[|f|..][|g|..] == rest[|f + g|..];
  }

  /** Every accepted member's data lies strictly inside the stream, below the next member's
      header, and holds the payload the record describes. */
  lemma RegionsAreDisjoint(data: seq<Byte>, segments: seq<Segment>, k: nat)
    requires IsArchive(data, segments) && k < |segments|
    ensures |Records(segments, 0)| == |segments|
    ensures var r := Records(segments, 0)[k];
            && 512 <= r.dataOffset
            && r.dataOffset + Padded(r.size) + 1024 <= |data|
            && data[r.dataOffset - 512..r.dataOffset] == segments[k].header
            && data[r.dataOffset..r.dataOffset + r.size] == segments[k].payload
            && (k + 1 < |segments| ==> Records(segments, 0)[k + 1].dataOffset == r.dataOffset + Padded(r.size) + 512)
  {
    hide IsTail, ValidSegment, Padded, Flatten, Block, Records;
    RecordsAreAligned(segments, 0);
    TailSplits(data, segments, k);
    FirstRegion(data, |Flatten(segments[..k])|, segments[k], segments[k..]);
    if k + 1 < |segments| {
      assert segments[..k + 1] == segments[..k] + [segments[k]];
      FlattenSplits(segments[..k + 1], k);
      assert segments[..k + 1][..k] == segments[..k] && segments[..k + 1][k..] == [segments[k]];
      FlattenOne(segments[k]);
    }
  }

  lemma FlattenOne(s: Segment)
    requires ValidSegment(s)
    ensures |Flatten([s])| == 512 + Padded(|s.payload|)
  {
    assert [s][1..] == [];
  }

  lemma TrailerFits(rest: seq<Byte>, segments: seq<Segment>)
    requires IsTail(rest, segments)
    ensures |rest| >= 1024
  {
  }
}
