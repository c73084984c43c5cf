/**
 The ZIP files that the preflight of scripts/release_archive.py accepts, written field by field:
 every central-directory entry and the end record are printed from their values in little-endian
 order (PKWARE APPNOTE sections 4.3.12 and 4.3.16).
 */
module ZipFormat {
  import opened Wrappers
  import opened Bytes
  import opened ZipPreflight

  // ---- little-endian numbers ----

  function Le16(n: nat): (s: seq<Byte>)
    requires n < 0x1_0000
    ensures |s| == 2
  {
    [n % 256, n / 256]
  }

  function Le32(n: nat): (s: seq<Byte>)
    requires n < 0x1_0000_0000
    ensures |s| == 4
  {
    Le16(n % 65536) + Le16(n / 65536)
  }

  lemma Le16Iff(s: seq<Byte>, at: nat, n: nat)
    requires at + 2 <= |s| && n < 0x1_0000
    ensures s[at..at + 2] == Le16(n) <==> U16(s, at) == n
  {
    assert s[at..at + 2] == [s[at], s[at + 1]];
  }

  lemma Le32Iff(s: seq<Byte>, at: nat, n: nat)
    requires at + 4 <= |s| && n < 0x1_0000_0000
    ensures s[at..at + 4] == Le32(n) <==> U32(s, at) == n
  {
    assert s[at..at + 4] == s[at..at + 2] + s[at + 2..at + 4];
    Le16Iff(s, at, n % 65536);
    Le16Iff(s, at + 2, n / 65536);
    assert s[at..at + 4][..2] == s[at..at + 2] && s[at..at + 4][2..] == s[at + 2..at + 4];
    assert Le32(n)[..2] == Le16(n % 65536) && Le32(n)[2..] == Le16(n / 65536);
  }

  // ---- entries ----

  datatype Entry = Entry(madeBy: nat, needed: nat, flags: nat, compression: nat, time: nat, date: nat,
                         crc: nat, compressed: nat, size: nat, disk: nat,
                         internalBits: nat, externalBits: nat, offset: nat,
                         name: seq<Byte>, extra: seq<Byte>, comment: seq<Byte>)

  predicate Fits(e: Entry) {
    && e.madeBy < 0x1_0000 && e.needed < 0x1_0000 && e.flags < 0x1_0000 && e.compression < 0x1_0000
    && e.time < 0x1_0000 && e.date < 0x1_0000 && e.disk < 0x1_0000 && e.internalBits < 0x1_0000
    && e.crc < 0x1_0000_0000 && e.compressed < 0x1_0000_0000 && e.size < 0x1_0000_0000
    && e.externalBits < 0x1_0000_0000 && e.offset < 0x1_0000_0000
    && |e.name| < 0x1_0000 && |e.extra| < 0x1_0000 && |e.comment| < 0x1_0000
  }

  /** Not encrypted, stored or deflated, and no field says ZIP64. */
  predicate IsPlain(e: Entry) {
    && e.flags % 2 == 0 && (e.compression == 0 || e.compression == 8)
    && e.compressed < 4294967295 && e.size < 4294967295 && e.offset < 4294967295 && e.disk < 65535
  }

  /** Bytes 0 to 15. */
  function EntryFront(e: Entry): (s: seq<Byte>)
    requires Fits(e)
    ensures |s| == 16
  {
    [0x50, 0x4B, 1, 2] + Le16(e.madeBy) + Le16(e.needed) + Le16(e.flags) + Le16(e.compression) + Le16(e.time)
    + Le16(e.date)
  }

  /** Bytes 16 to 45. */
  function EntryBack(e: Entry): (s: seq<Byte>)
    requires Fits(e)
    ensures |s| == 30
  {
    (Le32(e.crc) + Le32(e.compressed) + Le32(e.size))
    + (Le16(|e.name|) + Le16(|e.extra|) + Le16(|e.comment|) + Le16(e.disk) + Le16(e.internalBits))
    + (Le32(e.externalBits) + Le32(e.offset))
  }

  function RenderEntry(e: Entry): seq<Byte>
    requires Fits(e)
  {
    EntryFront(e) + EntryBack(e) + (e.name + e.extra + e.comment)
  }

  lemma FrontSlices(e: Entry)
    requires Fits(e)
    ensures var s := EntryFront(e);
            && s[..4] == [0x50, 0x4B, 1, 2] && s[4..6] == Le16(e.madeBy) && s[6..8] == Le16(e.needed)
            && s[8..10] == Le16(e.flags) && s[10..12] == Le16(e.compression) && s[12..14] == Le16(e.time)
            && s[14..16] == Le16(e.date)
  {
    hide Le16;
  }

  lemma BackSlices(e: Entry)
    requires Fits(e)
    ensures var s := EntryBack(e);
            && s[0..4] == Le32(e.crc) && s[4..8] == Le32(e.compressed) && s[8..12] == Le32(e.size)
            && s[12..14] == Le16(|e.name|) && s[14..16] == Le16(|e.extra|) && s[16..18] == Le16(|e.comment|)
            && s[18..20] == Le16(e.disk) && s[20..22] == Le16(e.internalBits)
            && s[22..26] == Le32(e.externalBits) && s[26..30] == Le32(e.offset)
  {
    hide Le16, Le32;
    var a := Le32(e.crc) + Le32(e.compressed) + Le32(e.size);
    var b := Le16(|e.name|) + Le16(|e.extra|) + Le16(|e.comment|) + Le16(e.disk) + Le16(e.internalBits);
    var c := Le32(e.externalBits) + Le32(e.offset);
    assert EntryBack(e)[..12] == a && EntryBack(e)[12..22] == b && EntryBack(e)[22..] == c;
  }

  /** The fields of a printed entry, at their offsets. */
  lemma EntryFields(e: Entry)
    requires Fits(e)
    ensures var s := RenderEntry(e);
            && |s| == 46 + |e.name| + |e.extra| + |e.comment| && s[..4] == [0x50, 0x4B, 1, 2]
            && U16(s, 8) == e.flags && U16(s, 10) == e.compression
            && U32(s, 20) == e.compressed && U32(s, 24) == e.size
            && U16(s, 28) == |e.name| && U16(s, 30) == |e.extra| && U16(s, 32) == |e.comment|
            && U16(s, 34) == e.disk && U32(s, 42) == e.offset
  {
    hide Le16, Le32, U16, U32, EntryFront, EntryBack;
    FrontSlices(e);
    BackSlices(e);
    var s, f, b := RenderEntry(e), EntryFront(e), EntryBack(e);
    assert s[..16] == f && s[16..46] == b;
    assert s[8..10] == f[8..10] && s[10..12] == f[10..12] && s[..4] == f[..4];
    assert s[20..24] == b[4..8] && s[24..28] == b[8..12];
    assert s[28..30] == b[12..14] && s[30..32] == b[14..16] && s[32..34] == b[16..18] && s[34..36] == b[18..20];
    assert s[42..46] == b[26..30];
    Le16Iff(s, 8, e.flags);
    Le16Iff(s, 10, e.compression);
    Le32Iff(s, 20, e.compressed);
    Le32Iff(s, 24, e.size);
    Le16Iff(s, 28, |e.name|);
    Le16Iff(s, 30, |e.extra|);
    Le16Iff(s, 32, |e.comment|);
    Le16Iff(s, 34, e.disk);
    Le32Iff(s, 42, e.offset);
  }

  /** The entry whose printed form has these bytes. */
  function ReadFields(s: seq<Byte>): (e: Entry)
    requires |s| >= 46 && |s| == 46 + U16(s, 28) + U16(s, 30) + U16(s, 32)
    ensures Fits(e)
  {
    var n, x := 46 + U16(s, 28), 46 + U16(s, 28) + U16(s, 30);
    Entry(U16(s, 4), U16(s, 6), U16(s, 8), U16(s, 10), U16(s, 12), U16(s, 14),
          U32(s, 16), U32(s, 20), U32(s, 24), U16(s, 34), U16(s, 36), U32(s, 38), U32(s, 42),
          s[46..n], s[n..x], s[x..])
  }

  lemma FieldsPrint(s: seq<Byte>)
    requires |s| >= 46 && |s| == 46 + U16(s, 28) + U16(s, 30) + U16(s, 32) && s[..4] == [0x50, 0x4B, 1, 2]
    ensures RenderEntry(ReadFields(s)) == s
  {
    hide Le16, Le32, U16, U32, EntryFront, EntryBack;
    var e := ReadFields(s);
    FrontPrints(s);
    BackPrints(s);
    assert s == s[..16] + s[16..46] + s[46..];
    assert s[46..] == e.name + e.extra + e.comment;
  }

  lemma FrontPrints(s: seq<Byte>)
    requires |s| >= 46 && |s| == 46 + U16(s, 28) + U16(s, 30) + U16(s, 32) && s[..4] == [0x50, 0x4B, 1, 2]
    ensures EntryFront(ReadFields(s)) == s[..16]
  {
    hide Le16, Le32, U16, U32;
    Le16Iff(s, 4, U16(s, 4));
    Le16Iff(s, 6, U16(s, 6));
    Le16Iff(s, 8, U16(s, 8));
    Le16Iff(s, 10, U16(s, 10));
    Le16Iff(s, 12, U16(s, 12));
    Le16Iff(s, 14, U16(s, 14));
    assert s[..16] == s[..4] + s[4..6] + s[6..8] + s[8..10] + s[10..12] + s[12..14] + s[14..16];
  }

  lemma BackPrints(s: seq<Byte>)
    requires |s| >= 46 && |s| == 46 + U16(s, 28) + U16(s, 30) + U16(s, 32)
    ensures EntryBack(ReadFields(s)) == s[16..46]
  {
    hide Le16, Le32, U16, U32;
    Le32Iff(s, 16, U32(s, 16));
    Le32Iff(s, 20, U32(s, 20));
    Le32Iff(s, 24, U32(s, 24));
    Le16Iff(s, 28, U16(s, 28));
    Le16Iff(s, 30, U16(s, 30));
    Le16Iff(s, 32, U16(s, 32));
    Le16Iff(s, 34, U16(s, 34));
    Le16Iff(s, 36, U16(s, 36));
    Le32Iff(s, 38, U32(s, 38));
    Le32Iff(s, 42, U32(s, 42));
    var a := s[16..20] + s[20..24] + s[24..28];
    var b := s[28..30] + s[30..32] + s[32..34] + s[34..36] + s[36..38];
    var c := s[38..42] + s[42..46];
    assert s[16..46] == a + b + c;
  }

  /** Main result: the entries the preflight takes are the printed forms of plain entries. */
  lemma EntryIff(s: seq<Byte>)
    ensures IsEntry(s) <==> exists e :: Fits(e) && IsPlain(e) && RenderEntry(e) == s
  {
    hide U16, U32, RenderEntry, Fits;
    if IsEntry(s) {
      FieldsPrint(s);
      var e := ReadFields(s);
      assert Fits(e) && IsPlain(e) && RenderEntry(e) == s;
    }
    if e :| Fits(e) && IsPlain(e) && RenderEntry(e) == s {
      EntryFields(e);
    }
  }

  // ---- the end record ----

  datatype End = End(disk: nat, centralDisk: nat, here: nat, count: nat, size: nat, offset: nat, comment: seq<Byte>)

  predicate EndFits(r: End) {
    && r.disk < 0x1_0000 && r.centralDisk < 0x1_0000 && r.here < 0x1_0000 && r.count < 0x1_0000
    && r.size < 0x1_0000_0000 && r.offset < 0x1_0000_0000 && |r.comment| < 0x1_0000
  }

  function RenderEnd(r: End): (s: seq<Byte>)
    requires EndFits(r)
    ensures |s| == 22 + |r.comment|
  {
    [0x50, 0x4B, 5, 6] + Le16(r.disk) + Le16(r.centralDisk) + Le16(r.here) + Le16(r.count)
    + Le32(r.size) + Le32(r.offset) + Le16(|r.comment|) + r.comment
  }

  ghost predicate EndsWithRecord(data: seq<Byte>, at: nat) {
    exists r :: EndFits(r) && at <= |data| && data[at..] == RenderEnd(r)
  }

  lemma EndFields(data: seq<Byte>, at: nat, r: End)
    requires EndFits(r) && at <= |data| && data[at..] == RenderEnd(r)
    ensures IsEnd(data, at)
    ensures U16(data, at + 4) == r.disk && U16(data, at + 6) == r.centralDisk
    ensures U16(data, at + 8) == r.here && U16(data, at + 10) == r.count
    ensures U32(data, at + 12) == r.size && U32(data, at + 16) == r.offset && U16(data, at + 20) == |r.comment|
  {
    hide Le16, Le32, U16, U32;
    var s := RenderEnd(r);
    assert s[..4] == [0x50, 0x4B, 5, 6] && s[4..6] == Le16(r.disk) && s[6..8] == Le16(r.centralDisk);
    assert s[8..10] == Le16(r.here) && s[10..12] == Le16(r.count);
    assert s[12..16] == Le32(r.size) && s[16..20] == Le32(r.offset) && s[20..22] == Le16(|r.comment|);
    Parts(data, at);
    Le16Iff(data, at + 4, r.disk);
    Le16Iff(data, at + 6, r.centralDisk);
    Le16Iff(data, at + 8, r.here);
    Le16Iff(data, at + 10, r.count);
    Le32Iff(data, at + 12, r.size);
    Le32Iff(data, at + 16, r.offset);
    Le16Iff(data, at + 20, |r.comment|);
  }

  lemma Parts(data: seq<Byte>, at: nat)
    requires at <= |data|
    ensures |data| - at >= 22 ==>
              && data[at..][..4] == data[at..at + 4] && data[at..][4..6] == data[at + 4..at + 6]
              && data[at..][6..8] == data[at + 6..at + 8] && data[at..][8..10] == data[at + 8..at + 10]
              && data[at..][10..12] == data[at + 10..at + 12] && data[at..][12..16] == data[at + 12..at + 16]
              && data[at..][16..20] == data[at + 16..at + 20] && data[at..][20..22] == data[at + 20..at + 22]
  {
  }

  lemma EndReads(data: seq<Byte>, at: nat) returns (r: End)
    requires IsEnd(data, at)
    ensures EndFits(r) && data[at..] == RenderEnd(r)
    ensures r == End(U16(data, at + 4), U16(data, at + 6), U16(data, at + 8), U16(data, at + 10), U32(data, at + 12),
                     U32(data, at + 16), data[at + 22..])
  {
    hide Le16, Le32, U16, U32;
    r := End(U16(data, at + 4), U16(data, at + 6), U16(data, at + 8), U16(data, at + 10), U32(data, at + 12),
             U32(data, at + 16), data[at + 22..]);
    Le16Iff(data, at + 4, r.disk);
    Le16Iff(data, at + 6, r.centralDisk);
    Le16Iff(data, at + 8, r.here);
    Le16Iff(data, at + 10, r.count);
    Le32Iff(data, at + 12, r.size);
    Le32Iff(data, at + 16, r.offset);
    Le16Iff(data, at + 20, |r.comment|);
    var s := data[at..];
    assert s == data[at..at + 4] + data[at + 4..at + 6] + data[at + 6..at + 8] + data[at + 8..at + 10]
                + data[at + 10..at + 12] + data[at + 12..at + 16] + data[at + 16..at + 20] + data[at + 20..at + 22]
                + data[at + 22..];
  }

  lemma EndIff(data: seq<Byte>, at: nat)
    ensures IsEnd(data, at) <==> EndsWithRecord(data, at)
  {
    hide RenderEnd, EndFits, U16, U32;
    if IsEnd(data, at) {
      var r := EndReads(data, at);
    }
    if EndsWithRecord(data, at) {
      var r :| EndFits(r) && at <= |data| && data[at..] == RenderEnd(r);
      EndFields(data, at, r);
    }
  }

  // ---- whole files ----

  function RenderEntries(entries: seq<Entry>): seq<Byte>
    requires forall i :: 0 <= i < |entries| ==> Fits(entries[i])
  {
    if entries == [] then [] else RenderEntry(entries[0]) + RenderEntries(entries[1..])
  }

  ghost predicate AllPlain(entries: seq<Entry>) {
    forall i :: 0 <= i < |entries| ==> Fits(entries[i]) && IsPlain(entries[i])
  }

  lemma {:induction false} PlainAreEntries(entries: seq<Entry>) returns (parts: seq<seq<Byte>>)
    requires AllPlain(entries)
    ensures |parts| == |entries| && AreEntries(parts) && Concat(parts) == RenderEntries(entries)
  {
    hide RenderEntry, IsEntry, Fits, IsPlain;
    parts := [];
    if entries != [] {
      var rest := PlainAreEntries(entries[1..]);
      EntryIff(RenderEntry(entries[0]));
      parts := [RenderEntry(entries[0])] + rest;
      assert parts[1..] == rest;
    }
  }

  lemma {:induction false} EntriesArePlain(parts: seq<seq<Byte>>) returns (entries: seq<Entry>)
    requires AreEntries(parts)
    ensures AllPlain(entries) && |entries| == |parts| && RenderEntries(entries) == Concat(parts)
  {
    hide RenderEntry, IsEntry, Fits, IsPlain;
    entries := [];
    if parts != [] {
      var rest := EntriesArePlain(parts[1..]);
      EntryIff(parts[0]);
      var e :| Fits(e) && IsPlain(e) && RenderEntry(e) == parts[0];
      entries := [e] + rest;
      assert entries[1..] == rest;
    }
  }

  /** The last 20 bytes before the end record start with the ZIP64 locator's signature. */
  predicate LooksZip64(front: seq<Byte>) {
    |front| >= 20 && front[|front| - 20..|front| - 16] == [0x50, 0x4B, 6, 7]
  }

  /** A prefix, the entries, and one end record that counts and places them on one disk. */
  ghost predicate IsZipFile(data: seq<Byte>, prefix: seq<Byte>, entries: seq<Entry>, comment: seq<Byte>) {
    && AllPlain(entries) && |entries| <= 32 && |RenderEntries(entries)| <= 262144
    && |prefix| < 4294967295 && |comment| < 65536
    && data == prefix + RenderEntries(entries)
               + RenderEnd(End(0, 0, |entries|, |entries|, |RenderEntries(entries)|, |prefix|, comment))
    && (forall at: nat :: EndsWithRecord(data, at) ==> at == |prefix + RenderEntries(entries)|)
    && !LooksZip64(prefix + RenderEntries(entries))
  }

  lemma LocatorIff(data: seq<Byte>, end: nat)
    requires end <= |data|
    ensures HasZip64Locator(data, end) && end + 22 <= |data| <==> LooksZip64(data[..end]) && end + 22 <= |data|
  {
    if end >= 20 {
      assert data[..end][end - 20..end - 16] == data[end - 20..end - 16] == data[end - 20..][..4];
    }
  }

  lemma FileIsZip(data: seq<Byte>, prefix: seq<Byte>, entries: seq<Entry>, comment: seq<Byte>)
    requires IsZipFile(data, prefix, entries, comment)
    ensures exists parts, end: nat :: IsZip(data, parts, end)
  {
    hide RenderEnd, RenderEntry, IsEnd, U16, U32, IsEntry, Fits, IsPlain, EndsWithRecord;
    var parts := PlainAreEntries(entries);
    var dir := RenderEntries(entries);
    var r, end := End(0, 0, |entries|, |entries|, |dir|, |prefix|, comment), |prefix + dir|;
    assert data[end..] == RenderEnd(r) && data[|prefix|..end] == dir && data[..end] == prefix + dir;
    EndFields(data, end, r);
    LocatorIff(data, end);
    forall p | 0 <= p < |data| && IsEnd(data, p)
      ensures p == end
    {
      EndIff(data, p);
    }
    assert IsZip(data, parts, end);
  }

  lemma ZipIsFile(data: seq<Byte>, parts: seq<seq<Byte>>, end: nat)
    requires IsZip(data, parts, end)
    ensures exists prefix, entries, comment :: IsZipFile(data, prefix, entries, comment)
  {
    hide RenderEnd, RenderEntry, IsEnd, U16, U32, IsEntry, AllPlain, EndsWithRecord;
    var entries := EntriesArePlain(parts);
    EndInside(data, end);
    var dir, prefix := Concat(parts), data[..U32(data, end + 16)];
    var r := EndReads(data, end);
    LocatorIff(data, end);
    assert prefix + dir == data[..end] && data == data[..end] + data[end..];
    forall at: nat | EndsWithRecord(data, at)
      ensures at == end
    {
      EndIff(data, at);
      EndInside(data, at);
    }
    assert IsZipFile(data, prefix, entries, r.comment);
  }

  lemma EndInside(data: seq<Byte>, at: nat)
    ensures IsEnd(data, at) ==> at + 22 <= |data|
  {
  }

  /** Main result: the preflight accepts exactly the files made of a prefix, at most 32 plain entries
      of at most 262144 bytes and the one end record that counts and places them. */
  lemma AcceptedIff(data: seq<Byte>)
    ensures ParseZip(data).Success? <==> exists prefix, entries, comment :: IsZipFile(data, prefix, entries, comment)
  {
    hide IsZip, IsZipFile, ParseZip;
    PreflightIsExact(data);
    if ParseZip(data).Success? {
      assert ParseZip(data).value == ();
      var parts, end: nat :| IsZip(data, parts, end);
      ZipIsFile(data, parts, end);
    }
    if prefix, entries, comment :| IsZipFile(data, prefix, entries, comment) {
      FileIsZip(data, prefix, entries, comment);
    }
  }
}
