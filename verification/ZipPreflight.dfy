/**
 The ZIP metadata preflight of scripts/release_archive.py.

 `ParseZip` follows the script's checks in order and `ValidateZipStructure` is its two loops.
 The independent description is `IsZip`: a prefix, whole central-directory entries and one
 end record with its comment (PKWARE APPNOTE sections 4.3.12 and 4.3.16).
 */
module ZipPreflight {
  import opened Wrappers
  import opened Bytes

  const TAIL_BYTES: nat := 65557
  const MAX_ENTRIES: nat := 32
  const MAX_CENTRAL_DIRECTORY_BYTES: nat := 262144
  const U16_MAX: nat := 0xFFFF
  const U32_MAX: nat := 0xFFFF_FFFF
  const END_SIGNATURE: seq<Byte> := [0x50, 0x4B, 5, 6]
  const ENTRY_SIGNATURE: seq<Byte> := [0x50, 0x4B, 1, 2]
  const LOCATOR_SIGNATURE: seq<Byte> := [0x50, 0x4B, 6, 7]

  datatype ZipError =
    | EndMissingOrAmbiguous | Multidisk | Zip64 | TooManyEntries | DirectoryTooLarge
    | DirectoryOutOfRange | EntryTruncated | BadEntrySignature | Encrypted | ForbiddenMethod
    | Zip64Entry | VariableFieldsTruncated | EntryBound | InconsistentCount

  function U16(s: seq<Byte>, at: nat): (n: nat)
    requires at + 2 <= |s|
    ensures n <= U16_MAX
  {
    s[at] as int + 256 * s[at + 1] as int
  }

  function U32(s: seq<Byte>, at: nat): (n: nat)
    requires at + 4 <= |s|
    ensures n <= U32_MAX
  {
    U16(s, at) + 65536 * U16(s, at + 2)
  }

  // ---- the end-of-central-directory record ----

  /** An end record, with its comment, occupies `s` from `at` to the very end. */
  predicate IsEnd(s: seq<Byte>, at: nat) {
    && at + 22 <= |s|
    && s[at..at + 4] == END_SIGNATURE
    && at + 22 + U16(s, at + 20) == |s|
  }

  /** Every position from `at` on where a whole-file scan finds an end record. */
  function EndsFrom(s: seq<Byte>, at: nat): (ends: seq<nat>)
    requires at <= |s|
    ensures forall p: nat :: p in ends <==> at <= p && IsEnd(s, p)
    ensures forall i, j :: 0 <= i < j < |ends| ==> ends[i] < ends[j]
    decreases |s| - at
  {
    if at == |s| then []
    else
      var later := EndsFrom(s, at + 1);
      assert forall i :: 0 <= i < |later| ==> later[i] in later;
      if IsEnd(s, at) then [at] + later else later
  }

  /** A comment is at most 65535 bytes long, so no end record starts before the tail. */
  lemma {:induction false} EndsLieInTail(s: seq<Byte>, from: nat)
    requires from <= |s| && (forall p :: 0 <= p < from ==> !IsEnd(s, p))
    ensures EndsFrom(s, 0) == EndsFrom(s, from)
    decreases from
  {
    if from > 0 {
      EndsLieInTail(s, from - 1);
    }
  }

  lemma TailShiftsEnds(data: seq<Byte>, start: nat, index: nat)
    requires start <= |data|
    ensures IsEnd(data[start..], index) <==> IsEnd(data, start + index)
  {
    if index + 22 <= |data| - start {
      assert data[start..][index..index + 4] == data[start + index..start + index + 4];
    }
  }

  /** The scan of the last 65557 bytes finds what a whole-file scan would find. */
  method FindEnds(data: seq<Byte>) returns (ends: seq<nat>)
    ensures ends == EndsFrom(data, 0)
  {
    var tailSize := if |data| < TAIL_BYTES then |data| else TAIL_BYTES;
    var start := |data| - tailSize;
    var tail := data[start..];
    EndsLieInTail(data, start);
    ends := [];
    for index := 0 to |tail|
      invariant ends + EndsFrom(data, start + index) == EndsFrom(data, start)
    {
      TailShiftsEnds(data, start, index);
      if !(index + 4 <= |tail| && tail[index..index + 4] == END_SIGNATURE) || |tail| - index < 22 {
        continue;
      }
      if start + index + 22 + U16(tail, index + 20) == |data| {
        ends := ends + [start + index];
      }
    }
  }

  // ---- central-directory entries ----

  /** The checks on one entry; the result is the entry's size. */
  function ReadEntry(central: seq<Byte>, cursor: nat): (r: Result<nat, ZipError>)
    requires cursor <= |central|
    ensures r.Success? ==> 46 <= r.value <= |central| - cursor
  {
    if |central| - cursor < 46 then Failure(EntryTruncated)
    else if central[cursor..cursor + 4] != ENTRY_SIGNATURE then Failure(BadEntrySignature)
    else if U16(central, cursor + 8) % 2 == 1 then Failure(Encrypted)
    else if U16(central, cursor + 10) != 0 && U16(central, cursor + 10) != 8 then Failure(ForbiddenMethod)
    else if U32(central, cursor + 20) == U32_MAX || U32(central, cursor + 24) == U32_MAX
            || U32(central, cursor + 42) == U32_MAX || U16(central, cursor + 34) == U16_MAX then Failure(Zip64Entry)
    else
      var size := 46 + U16(central, cursor + 28) + U16(central, cursor + 30) + U16(central, cursor + 32);
      if cursor + size > |central| then Failure(VariableFieldsTruncated) else Success(size)
  }

  /** The number of entries in the rest of the directory, when it consists of whole entries. */
  function ParseDirectory(central: seq<Byte>, cursor: nat, parsed: nat): Result<nat, ZipError>
    requires cursor <= |central|
    decreases |central| - cursor
  {
    if cursor == |central| then Success(parsed)
    else
      var size :- ReadEntry(central, cursor);
      if parsed + 1 > MAX_ENTRIES then Failure(EntryBound)
      else ParseDirectory(central, cursor + size, parsed + 1)
  }

  // ---- the whole preflight ----

  predicate HasZip64Locator(data: seq<Byte>, end: nat)
    requires end <= |data|
  {
    end >= 20 && data[end - 20..][..4] == LOCATOR_SIGNATURE
  }

  function ParseZip(data: seq<Byte>): Result<(), ZipError> {
    var ends := EndsFrom(data, 0);
    if |ends| != 1 then Failure(EndMissingOrAmbiguous)
    else
      var end := ends[0];
      assert end in ends;
      var count, size, offset := U16(data, end + 10), U32(data, end + 12), U32(data, end + 16);
      if U16(data, end + 4) != 0 || U16(data, end + 6) != 0 || U16(data, end + 8) != count then Failure(Multidisk)
      else if count == U16_MAX || size == U32_MAX || offset == U32_MAX || HasZip64Locator(data, end) then Failure(Zip64)
      else if count > MAX_ENTRIES then Failure(TooManyEntries)
      else if size > MAX_CENTRAL_DIRECTORY_BYTES then Failure(DirectoryTooLarge)
      else if offset + size != end || offset > |data| then Failure(DirectoryOutOfRange)
      else
        var parsed :- ParseDirectory(data[offset..end], 0, 0);
        if parsed != count then Failure(InconsistentCount) else Success(())
  }

  method ValidateCentralDirectory(central: seq<Byte>) returns (r: Result<nat, ZipError>)
    ensures r == ParseDirectory(central, 0, 0)
  {
    var cursor, parsed := 0, 0;
    while cursor < |central|
      invariant 0 <= cursor <= |central|
      invariant ParseDirectory(central, 0, 0) == ParseDirectory(central, cursor, parsed)
    {
      var size :- ReadEntry(central, cursor);
      cursor := cursor + size;
      parsed := parsed + 1;
      if parsed > MAX_ENTRIES {
        return Failure(EntryBound);
      }
    }
    return Success(parsed);
  }

  method ValidateZipStructure(data: seq<Byte>) returns (r: Result<(), ZipError>)
    ensures r == ParseZip(data)
  {
    var ends := FindEnds(data);
    if |ends| != 1 {
      return Failure(EndMissingOrAmbiguous);
    }
    var end := ends[0];
    assert end in ends;
    var count, size, offset := U16(data, end + 10), U32(data, end + 12), U32(data, end + 16);
    if U16(data, end + 4) != 0 || U16(data, end + 6) != 0 || U16(data, end + 8) != count {
      return Failure(Multidisk);
    }
    if count == U16_MAX || size == U32_MAX || offset == U32_MAX || HasZip64Locator(data, end) {
      return Failure(Zip64);
    }
    if count > MAX_ENTRIES {
      return Failure(TooManyEntries);
    }
    if size > MAX_CENTRAL_DIRECTORY_BYTES {
      return Failure(DirectoryTooLarge);
    }
    if offset + size != end || offset > |data| {
      return Failure(DirectoryOutOfRange);
    }
    var parsed :- ValidateCentralDirectory(data[offset..end]);
    if parsed != count {
      return Failure(InconsistentCount);
    }
    return Success(());
  }

  // ---- the format, described without a parser ----

  /** One whole, unencrypted, stored or deflated, non-ZIP64 entry: its three length fields
      account for exactly its bytes. */
  predicate IsEntry(e: seq<Byte>) {
    && |e| >= 46
    && e[..4] == ENTRY_SIGNATURE
    && |e| == 46 + U16(e, 28) + U16(e, 30) + U16(e, 32)
    && U16(e, 8) % 2 == 0
    && (U16(e, 10) == 0 || U16(e, 10) == 8)
    && U32(e, 20) < U32_MAX && U32(e, 24) < U32_MAX && U32(e, 42) < U32_MAX && U16(e, 34) < U16_MAX
  }

  function Concat(entries: seq<seq<Byte>>): seq<Byte> {
    if entries == [] then [] else entries[0] + Concat(entries[1..])
  }

  predicate AreEntries(entries: seq<seq<Byte>>) {
    forall i :: 0 <= i < |entries| ==> IsEntry(entries[i])
  }

  /** One disk, the declared number of entries, right after a prefix of the declared length,
      right before the only end record. */
  predicate IsZip(data: seq<Byte>, entries: seq<seq<Byte>>, end: nat) {
    && AreEntries(entries) && |entries| <= MAX_ENTRIES
    && IsEnd(data, end) && (forall p :: 0 <= p < |data| && IsEnd(data, p) ==> p == end)
    && U16(data, end + 4) == 0 && U16(data, end + 6) == 0
    && U16(data, end + 8) == |entries| && U16(data, end + 10) == |entries|
    && U32(data, end + 12) == |Concat(entries)| <= MAX_CENTRAL_DIRECTORY_BYTES
    && U32(data, end + 16) < U32_MAX
    && U32(data, end + 16) + |Concat(entries)| == end
    && data[U32(data, end + 16)..end] == Concat(entries)
    && !HasZip64Locator(data, end)
  }

  /** Reading at the front of `e + rest` sees exactly the entry `e`. */
  lemma EntryIsRead(central: seq<Byte>, cursor: nat, e: seq<Byte>)
    requires cursor <= |central| && e <= central[cursor..] && IsEntry(e)
    ensures ReadEntry(central, cursor) == Success(|e|)
  {
    assert forall i :: 0 <= i < |e| ==> central[cursor + i] == e[i] by {
      assert forall i :: 0 <= i < |e| ==> central[cursor..][i] == e[i];
    }
    assert central[cursor..cursor + 4] == e[..4];
  }

  lemma ReadIsEntry(central: seq<Byte>, cursor: nat)
    requires cursor <= |central| && ReadEntry(central, cursor).Success?
    ensures IsEntry(central[cursor..cursor + ReadEntry(central, cursor).value])
  {
    var size := ReadEntry(central, cursor).value;
    var e := central[cursor..cursor + size];
    assert forall i :: 0 <= i < size ==> central[cursor + i] == e[i];
    assert central[cursor..cursor + 4] == e[..4];
  }

  lemma {:induction false} EntriesAreParsed(central: seq<Byte>, cursor: nat, parsed: nat, entries: seq<seq<Byte>>)
    requires cursor <= |central| && central[cursor..] == Concat(entries) && AreEntries(entries)
    requires parsed + |entries| <= MAX_ENTRIES
    ensures ParseDirectory(central, cursor, parsed) == Success(parsed + |entries|)
    decreases |entries|
  {
    hide IsEntry, ReadEntry;
    if entries != [] {
      var e := entries[0];
      EntryIsRead(central, cursor, e);
      assert central[cursor + |e|..] == central[cursor..][|e|..] == Concat(entries[1..]);
      EntriesAreParsed(central, cursor + |e|, parsed + 1, entries[1..]);
    }
  }

  lemma {:induction false} ParsedAreEntries(central: seq<Byte>, cursor: nat, parsed: nat)
    returns (entries: seq<seq<Byte>>)
    requires cursor <= |central| && ParseDirectory(central, cursor, parsed).Success? && parsed <= MAX_ENTRIES
    ensures AreEntries(entries) && central[cursor..] == Concat(entries)
    ensures parsed + |entries| <= MAX_ENTRIES
    ensures ParseDirectory(central, cursor, parsed) == Success(parsed + |entries|)
    decreases |central| - cursor
  {
    hide IsEntry, ReadEntry;
    if cursor == |central| {
      entries := [];
    } else {
      ReadIsEntry(central, cursor);
      var size := ReadEntry(central, cursor).value;
      var e := central[cursor..cursor + size];
      var others := ParsedAreEntries(central, cursor + size, parsed + 1);
      entries := [e] + others;
      assert entries[1..] == others;
      assert central[cursor..] == e + central[cursor + size..];
    }
  }

  /** Main result: the preflight accepts exactly the archives of the format. In particular the
      directory consists of exactly the declared number of whole entries, ending at the end
      record. */
  lemma PreflightIsExact(data: seq<Byte>)
    ensures ParseZip(data) == Success(()) <==> exists entries, end: nat :: IsZip(data, entries, end)
  {
    hide IsEntry, U16, U32, EndsFrom, ReadEntry;
    var ends := EndsFrom(data, 0);
    if ParseZip(data) == Success(()) {
      var end := ends[0];
      assert end in ends;
      var offset := U32(data, end + 16);
      var central := data[offset..end];
      var entries := ParsedAreEntries(central, 0, 0);
      assert central[0..] == central;
      assert IsZip(data, entries, end);
    }
    if exists entries, end: nat :: IsZip(data, entries, end) {
      var entries, end: nat :| IsZip(data, entries, end);
      SingleEnd(data, end);
      var central := data[U32(data, end + 16)..end];
      assert central[0..] == central;
      EntriesAreParsed(central, 0, 0, entries);
    }
  }

  lemma SingleEnd(data: seq<Byte>, end: nat)
    requires IsEnd(data, end) && (forall p :: 0 <= p < |data| && IsEnd(data, p) ==> p == end)
    ensures EndsFrom(data, 0) == [end]
  {
    var ends := EndsFrom(data, 0);
    assert end in ends;
    forall i | 0 <= i < |ends|
      ensures ends[i] == end
    {
      assert ends[i] in ends;
    }
    assert ends[0] == ends[|ends| - 1] == end;
  }

  /** Entries are self-delimiting, so a directory splits into entries in one way only. */
  lemma {:induction false} UniqueEntries(left: seq<seq<Byte>>, right: seq<seq<Byte>>)
    requires AreEntries(left) && AreEntries(right) && Concat(left) == Concat(right)
    ensures left == right
    decreases |left|
  {
    if left != [] && right != [] {
      hide IsEntry;
      var whole := Concat(left);
      assert whole[0..] == whole;
      EntryIsRead(whole, 0, left[0]);
      EntryIsRead(whole, 0, right[0]);
      assert left[0] == whole[..|left[0]|] == right[0];
      assert Concat(left[1..]) == whole[|left[0]|..] == Concat(right[1..]);
      UniqueEntries(left[1..], right[1..]);
      assert left == [left[0]] + left[1..] && right == [right[0]] + right[1..];
    }
  }
}
