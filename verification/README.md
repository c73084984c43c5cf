# Verified models of the release and CI scripts

Wenlan's release pipeline rests on a handful of Python scripts: they decide which tests a
change runs, which archive bytes may be unpacked, which build artifact becomes a release,
which caches are deleted, whether a crate is uploaded, which functions count as readers of
page prose, and which benchmark differences count as significant. This project models those
scripts in Dafny, statement by statement where they loop over state, and proves what they
are for.

Each script has its own modules. A loop that updates variables is a method with a loop; it is
proved equal to a function of its inputs, and the theorems are about that function, stated
against a definition that shares nothing with the loop: a grammar, a graph distance, a
greatest set, a history of runs.

| script | modules |
|---|---|
| `scripts/release_archive.py` | `Bytes`, `RawTar`, `TarEncoder`, `ZipPreflight`, `ZipFormat` |
| `scripts/m5-reader-sweep.py` | `RustMask`, `TextMask`, `RustTokens`, `FnSpans`, `Declarations`, `Headers`, `FnItems`, `OwnBodies`, `CallSites`, `CallIndex`, `SourceIndex`, `FunctionTexts`, `CallTexts`, `ReaderSweep`, `LoneFn` |
| `scripts/ci_test_plan.py` | `PackageGraph`, `PathRules`, `JobRules`, `Filterset`, `TestPlan`, `TestPlanLaws`, `PlanSelections`, `PlanGates`, `PlanCommands`, `PlatformPlans`, `DroppedTarget` |
| `scripts/analyze_paired.py` | `SignedRank`, `BenjaminiHochberg` |
| `scripts/validate-release-candidate.py` | `LockTransform`, `LockStanzas`, `ArtifactSelection` |
| `scripts/ci-cache-maintenance.py` | `CachePrune` |
| `scripts/publish-crate.py` | `CratePublish` |

`Strings` (Python's string order, `sorted`, `join`, `split` and `lower`), `Decimals`, `Collections`
and `Wrappers` are shared.
`dafny verify dfyconfig.toml` checks everything.

## What the proofs show about the scripts

Most of the properties hold without exception. These are the places where a script does less
than its surroundings suggest; each has an exact condition or a concrete input in the model.

- A backslash at the end of a line inside a string literal makes the lexer treat the next
  character as escaped, even on the next line (`scripts/m5-reader-sweep.py:137-146`), unlike
  Rust. `RustTokens.TokenIff` says for which strings it still ends at the right quote
  (`InStep`), and `RustTokens.MaskKeepsPlain` that on a file of such strings, with raw strings,
  comments and literals over any number of lines, the mask is exact. It is enough that no
  continuation line is empty or starts with a quote or a backslash
  (`RustTokens.OrdinaryContinuation`); a last line that is just the closing quote breaks it if the
  string was in step before (`RustTokens.QuoteAfterBreakFails`, smallest file in
  `RustTokens.EscapeCrossesLines`).
- A character literal is masked if and only if its `\u{...}` body has at most six characters
  (`RustTokens.LiteralIff`): Rust also allows underscores, so the quote of `'\u{10_FFFF}'` stays
  (`RustTokens.LongLiteralIsKept`).
- A header line gets a span if and only if no earlier span runs over it
  (`OwnBodies.StartsSpanIff`). Against a grammar of Rust functions (header, signature of nested
  brackets, then `;` or a body), in which a text can be read in one way only
  (`FnItems.ItemIsUnique`), the span is exactly its function if and only if the function has a
  body, its signature holds no brace and it has at most 12000 line breaks
  (`OwnBodies.OwnBodyIff`). A declaration in a trait gets the next braces, whether those of the next
  function, which then has no span (`OwnBodies.TraitDeclarationMisfires`), or of a constant
  (`OwnBodies.AssociatedConstMisfires`); a const argument in braces ends the span within the
  signature (`OwnBodies.BracedArgumentMisfires`). Own body or not, a closed span is brace-matched text
  if and only if the first brace from the header line on opens (`FnSpans.SpanIsMatchedIff`,
  `FnSpans.BodylessHeaderMisfires`).
- On a masked line the pattern for headers (`scripts/m5-reader-sweep.py:102-104`) matches the header of
  a Rust function if and only if it has no `const`, no `safe` and no `extern`, no attribute stands
  before it on the line and no space within `pub(...)`; a raw identifier is read as the name r
  (`Headers.MaskedHeaderIff`). The pattern's own `extern "..."` alternative never matches, because no
  quote survives the mask. So neither an `extern "C" fn` (`Headers.ExternCIsNoHeader`) nor a
  `const fn`, although that is declared (`Headers.ConstFnIsNoHeader`), starts a span.
- `via` in the sweep lists all shortest predecessors exactly when no two of them share a name,
  since the frontier is keyed by name (`ReaderSweep.ViaIsExact`). In an index built from files
  this always holds, because a name that stands for two functions is declared on two lines and
  not resolved at all (`SourceIndex.ViaIsExactInWalkedFiles`), unless some `fn` is followed by
  another `fn` as its name. An `fn` is recorded if and only if an even number of `fn` stands directly
  before it (`Declarations.FoundIffEven`), which gives the exact condition
  (`SourceIndex.IndexResolvesIff`); `LoneFn.LoneFnLosesPredecessor` is a four-line file with a lone
  `fn` whose sweep misses a predecessor.
- The second ownership check of the sweep (`scripts/m5-reader-sweep.py:487`) never raises:
  the rows it could complain about were validated when they were made.
- The guard against a non-positive variance (`scripts/analyze_paired.py:126-127`) never fires.
- `build_platform_plan`'s guard for a filterset that lost every owner
  (`scripts/ci_test_plan.py:833-836`) never fires (`PlatformPlans.PlatformPlanSucceedsIff`), and
  neither do the guards of a local run (`TestPlanLaws.LocalRunNeverFails`), as long as package
  names consist of ASCII letters, digits, `-` and `_`.
- `cli_server_integration` and `contract_integration` in `packages` mode drop the collected
  targets of packages that are not listed. Every target is kept if and only if no package suite
  was selected or every target's package is among the selected ones
  (`TestPlanLaws.IntegrationKeepsTargetsIff`), so these two suites are not monotone in the
  changed paths. `TestPlanLaws.TargetIsLostIff` says exactly when adding paths loses a target;
  `DroppedTarget.AddingPathDropsTarget` edits a server test and then also removes
  a CLI test, and the edited test is no longer run.
- The tar writer accepts names the reader refuses: a name of exactly 100 bytes fills its field
  and leaves no NUL (`scripts/release_archive.py:231-234`), and a longer or non-ASCII one needs an
  extension header. `TarEncoder.RoundTrip` holds if and only if no member has such a name, every
  time fits its field and the list is within the bounds.
- A full core suite does not translate into commands if the core package has no integration target
  that is not manual-only; every other suite of every plan does (`PlanCommands.PlansTranslate`).
- Swapping the two versions undoes the lockfile transform if and only if no member's stanza
  already had a line with the target version (`LockTransform.UndoneIff`).
- An index response with a malformed line before the wanted record is an error, not a hit
  (`CratePublish.SparseIndexContains`); a non-positive poll limit after a failed upload loses
  cargo's own status (`CratePublish.RunsAreExact`), which the default limits rule out
  (`CratePublish.DefaultLimits`).

## Model

| member | source | states |
|---|---|---|
| RawTar.OctalFieldExact | scripts/release_archive.py:183-189 | a numeric field is read as v exactly when it is spaces, octal digits of value v, then NULs or spaces |
| RawTar.NameFieldExact | scripts/release_archive.py:231-238 | a name field is accepted exactly when it is a plain UTF-8 name NUL-padded to its width |
| Bytes.Utf8Iff | scripts/release_archive.py:234-238 | a name decodes exactly when it is the UTF-8 encoding of some text, whose code points are printed six bits to a byte |
| RawTar.HeaderExact | scripts/release_archive.py:220-239 | a header is accepted exactly when it meets the ustar field description, checksum included |
| RawTar.ValidateTarTermination | scripts/release_archive.py:166-180 | the chunked loop succeeds exactly when at least 1024 bytes, a multiple of 512, follow and all are zero |
| RawTar.ValidateRawTar | scripts/release_archive.py:192-258 | the block loop computes the recursive parser, which the theorems below characterise |
| RawTar.ParserIsExact | scripts/release_archive.py:192-258 | a stream is accepted with given records if and only if it is a bounded member list (header, payload, zero padding) followed by a whole-block zero trailer of at least 1024 bytes; no byte is unexplained |
| RawTar.UniqueSegments | scripts/release_archive.py:192-258 | a stream is a member list and trailer in one way only |
| RawTar.SameMembersSameBytes | scripts/release_archive.py:192-258 | two accepted streams of one length with the same headers and payloads are identical |
| RawTar.RegionsAreDisjoint | scripts/release_archive.py:245-255 | each record's data lies inside the stream, before the trailer, abuts the next header and is the member's payload |
| TarEncoder.PrintThenRead | scripts/release_archive.py:183-189 | printing a number that fits in octal and reading it gives the number back |
| TarEncoder.ReadThenPrint | scripts/release_archive.py:183-189 | reading octal digits and printing them at the same width gives the digits back |
| TarEncoder.PrintedField | scripts/release_archive.py:183-189 | a printed field with NUL or space terminator is a numeric field of the printed value |
| TarEncoder.EncodedHeaderIsUstar | scripts/release_archive.py:427-438 | the header written for a name shorter than 100 bytes meets the reader's field description; size and checksum fit their fields |
| TarEncoder.CreateTar | scripts/release_archive.py:405-438 | writing succeeds exactly when every source is acceptable, and then writes the members in order, each in its own encoding |
| TarEncoder.AcceptedIff | scripts/release_archive.py:405-410 | the writer takes files that are not empty and at most 256 MiB, under names that are not empty, `.` or `..` and hold no NUL, slash or backslash |
| TarEncoder.HeaderIs | scripts/release_archive.py:427-438 | every byte of a written header: the name, mode 0755 for executables and 0644 otherwise, owner 0, size, time stamp, checksum, and zeros elsewhere but for the ustar magic |
| TarEncoder.MemberIsWritten | scripts/release_archive.py:419-438 | every fitting member stands in the written archive as its header, its content and zeros up to a whole block, followed by the next member or by zeros only, up to a whole record |
| TarEncoder.ArchiveIsReadable | scripts/release_archive.py:192-258 | whatever follows the written members, the stream is an archive of the reader's format only if every member fits a plain header with a name shorter than 100 bytes |
| TarEncoder.RoundTrip | scripts/release_archive.py:192-258 | what the writer produces for accepted sources parses back to exactly the written names, sizes and offsets if and only if the list is within the entry and size bounds and every member fits a plain header with an ASCII name shorter than 100 bytes; it is refused otherwise |
| ZipPreflight.EndsLieInTail | scripts/release_archive.py:74-88 | no end record starts before a prefix without one, so scanning the rest finds them all |
| ZipPreflight.FindEnds | scripts/release_archive.py:74-88 | scanning the last 65557 bytes finds exactly the end records of a whole-file scan, in order |
| ZipPreflight.ValidateCentralDirectory | scripts/release_archive.py:129-163 | the cursor loop counts the entries the recursive reader counts, with the same refusals |
| ZipPreflight.ValidateZipStructure | scripts/release_archive.py:71-163 | the preflight's steps compute the functional preflight, with the same order of refusals |
| ZipPreflight.PreflightIsExact | scripts/release_archive.py:71-163 | a file is accepted if and only if its one end record is preceded by a directory of exactly the declared number of whole, plain, non-ZIP64 entries |
| ZipFormat.EntryIff | scripts/release_archive.py:129-163 | the entries the preflight takes are the little-endian printed forms of plain entries, field by field |
| ZipFormat.EndIff | scripts/release_archive.py:80-88 | an end record is the printed form of its fields and comment |
| ZipFormat.AcceptedIff | scripts/release_archive.py:71-163 | the preflight accepts exactly the files made of a prefix, at most 32 plain entries of at most 262144 bytes, and the one end record that counts and places them |
| ZipPreflight.UniqueEntries | scripts/release_archive.py:129-163 | a directory splits into entries in one way only |
| RustMask.MaskLine | scripts/m5-reader-sweep.py:124-186 | the character loop over an array, carrying the four lexer variables, computes the mask and the state after it |
| RustMask.RustStructure | scripts/m5-reader-sweep.py:116-188 | the line loop masks every line from the state the previous one left |
| RustMask.MaskIsSound | scripts/m5-reader-sweep.py:116-188 | from any carried state the masked line has the line's length, each character is the original or a space, and no quote, `//`, `/*` or character literal survives |
| RustMask.MaskIsClean | scripts/m5-reader-sweep.py:159-186 | nothing the lexer reacts to starts anywhere in a masked line |
| RustMask.CleanIsKept | scripts/m5-reader-sweep.py:159-186 | a line in which nothing opens is masked to itself and ends in code |
| RustMask.MaskIsIdempotent | scripts/m5-reader-sweep.py:116-188 | masking a masked file changes nothing, whatever state the first pass started in |
| TextMask.LinesAreText | scripts/m5-reader-sweep.py:116-188 | masking line by line and joining is masking the whole text, line breaks kept |
| RustTokens.StringIff | scripts/m5-reader-sweep.py:137-146 | the lexer leaves a string literal exactly at its own closing quote if and only if the string keeps in step over its escaped line breaks |
| RustTokens.LiteralIff | scripts/m5-reader-sweep.py:159-186 | a character literal is blanked as a whole if and only if its `\u` body has at most six characters |
| RustTokens.TokenIff | scripts/m5-reader-sweep.py:116-188 | the lexer reads a token of Rust source, over however many lines, as what it is if and only if its string keeps in step and its `\u` literal is short |
| RustTokens.CommentIsSkipped | scripts/m5-reader-sweep.py:148-157 | a block comment, nested to any depth and over any number of lines, is blanked up to the end that closes it |
| RustTokens.RawIsSkipped | scripts/m5-reader-sweep.py:128-135 | a raw string with h hashes, over any number of lines, is blanked up to its own delimiter |
| RustTokens.MaskKeepsPlain | scripts/m5-reader-sweep.py:116-188 | on every file of Rust tokens whose strings keep in step and whose `\u` literals are short, masking line by line keeps exactly the plain characters and the line breaks |
| RustTokens.OrdinaryContinuation | scripts/m5-reader-sweep.py:137-146 | a string keeps in step if no line after a backslash is empty or starts with a quote or a backslash |
| RustTokens.QuoteAfterBreakFails | scripts/m5-reader-sweep.py:137-146 | after a string that keeps in step up to a last line of just its closing quote, behind a backslash, the mask blanks the first character of code |
| RustTokens.EscapeCrossesLines | scripts/m5-reader-sweep.py:137-146 | the shortest such file: the mask blanks the character behind the string |
| RustTokens.LongLiteralIsKept | scripts/m5-reader-sweep.py:108-110 | a valid literal with an underscore whose quote the mask keeps |
| FnSpans.LineOffsets | scripts/m5-reader-sweep.py:319-324 | each line's offset is the number of characters, line breaks included, before it |
| FnSpans.ScanLine | scripts/m5-reader-sweep.py:239-244 | the column loop stops where the recursive brace scan does, with the same depth |
| FnSpans.FindEnd | scripts/m5-reader-sweep.py:237-255 | the line loop, cap included, finds the end the recursive scan over lines finds |
| FnSpans.BodySpans | scripts/m5-reader-sweep.py:227-275 | the outer loop yields the spans of the recursive definition |
| FnSpans.ScanFromIsTextScan | scripts/m5-reader-sweep.py:238-255 | a scan line by line ends where a scan of the joined text ends |
| FnSpans.SpanIsFirstClosing | scripts/m5-reader-sweep.py:237-264 | a closed span ends at the first position of the text where a `{` has been seen and the depth is not positive |
| FnSpans.SpanIsMatchedIff | scripts/m5-reader-sweep.py:237-264 | a closed span is brace-matched text, up to the end of its first `{`, if and only if the first brace from the header line on opens |
| FnSpans.BodylessHeaderMisfires | scripts/m5-reader-sweep.py:237-275 | a concrete file where a bodyless header swallows the next function |
| FnSpans.SpansAreDisjoint | scripts/m5-reader-sweep.py:227-275 | of two closed spans the earlier ends strictly before the later starts, whatever lines are headers |
| OwnBodies.StartsSpanIff | scripts/m5-reader-sweep.py:227-275 | a header line starts a span if and only if no other span's lines run over it, for any header pattern |
| FnItems.SigEndIs | scripts/m5-reader-sweep.py:227-275 | reading brackets from left to right ends a signature where the grammar does, at its `;` or the `{` of its body |
| FnItems.ItemIsUnique | scripts/m5-reader-sweep.py:227-275 | a text begins with one function at most, so its own body does not depend on the reading |
| OwnBodies.OwnBodyIff | scripts/m5-reader-sweep.py:227-275 | a span is closed and holds exactly its own function if and only if the function has a body, its signature holds no brace and it is within the limit of lines; a span that closes otherwise ends within the signature, or beyond the `;` of a function without a body |
| OwnBodies.SpanClosesIff | scripts/m5-reader-sweep.py:237-264 | a span closes exactly when the braces of the text from its header on close within 12000 line breaks |
| OwnBodies.OpenSpanEnds | scripts/m5-reader-sweep.py:237-264 | a span that does not close runs to line 12001 after its first, or to the last line |
| OwnBodies.TraitDeclarationMisfires | scripts/m5-reader-sweep.py:227-275 | two items of a trait: the span of the declaration is the next function's body, which has no span |
| OwnBodies.AssociatedConstMisfires | scripts/m5-reader-sweep.py:227-275 | a trait with an associated constant: the declaration's span is the constant's value |
| OwnBodies.BracedArgumentMisfires | scripts/m5-reader-sweep.py:227-275 | a const argument in braces: the span ends with it, and the body is in no span |
| Headers.MatchIff | scripts/m5-reader-sweep.py:102-104 | the header pattern matches a line, with a position and a name, if and only if the line is the header of a Rust function in which the pattern has an alternative for every part |
| Headers.HeaderSeesFn | scripts/m5-reader-sweep.py:102-104 | every line the header pattern matches has a match of the declaration pattern with the same name |
| Headers.MaskedHeaderIff | scripts/m5-reader-sweep.py:102-104 | once masked, the header of a Rust function is matched, at its place, if and only if it has no `const`, `safe` or `extern`, no attribute before it and no space within `pub(...)`; the name is its own unless it is a raw identifier |
| Headers.ExternCIsNoHeader | scripts/m5-reader-sweep.py:102-104 | masked, `extern "C" fn f() {` is no header |
| Headers.ConstFnIsNoHeader | scripts/m5-reader-sweep.py:102-104 | `const fn f() {` is kept by the mask and declared, but gets no span |
| FnSpans.Owners | scripts/m5-reader-sweep.py:327-333 | the owners of an offset are exactly the closed spans around it, in order |
| FnSpans.AtMostOneOwner | scripts/m5-reader-sweep.py:327-333 | no offset has two owners |
| FnSpans.BisectRight | scripts/m5-reader-sweep.py:418 | binary search returns how many offsets are at most x |
| FnSpans.LineOf | scripts/m5-reader-sweep.py:418 | every character of the file, line breaks included, is reported on the one line that holds it |
| Declarations.FoundIff | scripts/m5-reader-sweep.py:373-376 | an `fn` with a name is among the declaration matches if and only if no earlier match took it for its name |
| Declarations.FoundIffEven | scripts/m5-reader-sweep.py:373-376 | an `fn` with a name is among the declaration matches if and only if an even number of `fn` stands directly before it |
| Declarations.DeclaredIsNamed | scripts/m5-reader-sweep.py:373-376 | over all files, a name's recorded declaration lines are those on which such an `fn` names it |
| Declarations.SharedNameIsDeclaredTwice | scripts/m5-reader-sweep.py:373-402 | two function spans with one name, in one file or two, have at least two recorded declaration lines, unless a declaration is itself named `fn` |
| Declarations.LoneFnHidesDeclaration | scripts/m5-reader-sweep.py:373-376 | a concrete text where one of two functions' declarations is not recorded |
| CallSites.CallsAreMatches | scripts/m5-reader-sweep.py:316-414 | the calls found from left to right are exactly the matches of the call pattern, none is passed over |
| CallIndex.AddCallIsExact | scripts/m5-reader-sweep.py:414-426 | one call site adds exactly one edge, in both directions, one unresolved name, or nothing when it is a definition |
| CallIndex.BuildCalls | scripts/m5-reader-sweep.py:410-426 | the loop over files and matches accumulates what the recursive definition does |
| CallIndex.CallsAreExact | scripts/m5-reader-sweep.py:410-426 | over all files an edge is recorded, under its caller and under its name, exactly for a counted call inside a closed span, and a name is unresolved exactly if a counted call of it is in none |
| SourceIndex.DefinitionOffsets | scripts/m5-reader-sweep.py:368-371 | the loop over the lines collects the offset of every header's name |
| SourceIndex.RecordDeclarations | scripts/m5-reader-sweep.py:373-376 | the loop over the matches adds exactly this file's declaration lines to what was declared before |
| SourceIndex.LocateFunctions | scripts/m5-reader-sweep.py:392-402 | the two counters number repeated names: each function gets the locator of its path, name and ordinal |
| SourceIndex.BuildIndex | scripts/m5-reader-sweep.py:349-435 | the two passes yield the functions, the declaration lines of every name and the calls of the index the theorems below are about |
| FunctionTexts.FunctionOfSpan | scripts/m5-reader-sweep.py:256-402 | every function of the index has the name of its span, the locator made of its path, name and ordinal, and is SQL-bearing if and only if the predicate holds of its own text: the characters of the file's lines within a closed span, or the lines of one that does not close |
| FunctionTexts.FunctionsAreSpans | scripts/m5-reader-sweep.py:378-402 | the functions of the index are the spans of the files, in order, and no others |
| FunctionTexts.ShortPaths | scripts/m5-reader-sweep.py:302-313 | the short path of a walked file is `core/`, `server/`, `cli/` or `mcp/` and the rest of its path |
| SourceIndex.ShortPathIsInjective | scripts/m5-reader-sweep.py:302-313 | within the walked directories no two paths have one short path |
| SourceIndex.IndexIsValid | scripts/m5-reader-sweep.py:392-402 | no two functions of an index have one locator, when short paths differ |
| SourceIndex.IndexResolvesUniquely | scripts/m5-reader-sweep.py:373-402 | no name that stands for two functions is declared once, unless a declaration is itself named `fn` |
| SourceIndex.IndexResolvesIff | scripts/m5-reader-sweep.py:373-402 | names are resolved uniquely if and only if no name of two functions is left with exactly one declaration line, not counting an `fn` that another one reads as its name |
| SourceIndex.EdgeIsCall | scripts/m5-reader-sweep.py:410-426 | the search follows an edge exactly when the caller has a counted call, inside its own closed span, of a name declared on one line |
| SourceIndex.BlockedIsOrphan | scripts/m5-reader-sweep.py:336-346 | a function stops the sweep exactly when its name is declared on one line and a counted call of it is in no closed span |
| CallTexts.EdgeIff | scripts/m5-reader-sweep.py:316-426 | the search follows an edge exactly when the callee's name is named by declarations on one line of all files, and some file has a call of it, not at a definition, between the start and the end of a closed span of the caller |
| CallTexts.BlockedIff | scripts/m5-reader-sweep.py:336-426 | a function stops the sweep exactly when its name is named by declarations on one line and some file has a call of it, not at a definition, in no closed span |
| CallTexts.CallIff | scripts/m5-reader-sweep.py:316 | the call pattern matches where a name of ASCII letter or underscore and word characters, not inside a longer word, is followed by white space or nothing and a parenthesis |
| CallTexts.DefinedIff | scripts/m5-reader-sweep.py:368-371 | the definition offsets are where the names of headers stand |
| ReaderSweep.Readers | scripts/m5-reader-sweep.py:471-475 | the first loop yields the rows of depth 0, failing exactly when one of them is called from an unowned place |
| ReaderSweep.Expand | scripts/m5-reader-sweep.py:483-503 | one level of the search adds exactly the rows of that level and their locators |
| ReaderSweep.Sweep | scripts/m5-reader-sweep.py:468-509 | the level loop yields the rows of all levels up to the cap, or fails |
| ReaderSweep.EligibleIsValidated | scripts/m5-reader-sweep.py:483-487 | the repeated ownership check of a frontier cannot fail |
| ReaderSweep.LevelIsDistance | scripts/m5-reader-sweep.py:482-507 | a function is on level d exactly when its shortest chain of calls to an SQL-bearing function has d steps |
| ReaderSweep.RowsAreExact | scripts/m5-reader-sweep.py:468-509 | for any cap, a row exists exactly for each function whose distance is within the cap, with its locator and name, that distance as depth, and `via` empty at depth 0 |
| ReaderSweep.RowsAreDistinct | scripts/m5-reader-sweep.py:479-503 | no function gets two rows |
| ReaderSweep.ViaIsExact | scripts/m5-reader-sweep.py:480-507 | `via` is exactly the set of shortest predecessors if and only if no two of them share a name |
| ReaderSweep.ViaListsAllPredecessors | scripts/m5-reader-sweep.py:480-507 | in any index where no resolvable name stands for two functions, `via` is always exactly the set of all shortest predecessors |
| SourceIndex.ViaIsExactInFiles | scripts/m5-reader-sweep.py:349-509 | in the index of any files with different short paths in which no declaration is named `fn`, `via` is exactly the set of all shortest predecessors |
| SourceIndex.ViaIsExactInWalkedFiles | scripts/m5-reader-sweep.py:349-509 | the same for any files with different paths under the walked directories |
| ReaderSweep.SharedNameLosesPredecessor | scripts/m5-reader-sweep.py:480-507 | in any index, `via` misses a predecessor where two SQL-bearing functions share a name declared once and a function that is not SQL-bearing calls it |
| LoneFn.LoneFnLosesPredecessor | scripts/m5-reader-sweep.py:349-507 | a four-line file in whose index `via` misses a predecessor |
| ReaderSweep.FailureIsExact | scripts/m5-reader-sweep.py:336-346 | the sweep fails exactly when a function within the cap, declared once, is called from a place without a unique owner |
| PackageGraph.ReverseDependencies | scripts/ci_test_plan.py:304-325 | fails exactly when a path dependency is absent, and otherwise inverts the path dependencies |
| PackageGraph.ResolveIff | scripts/ci_test_plan.py:310-318 | the path dependencies resolve exactly when no package depends by path on an absent one |
| PackageGraph.Closure | scripts/ci_test_plan.py:328-337 | on any graph, cycles and repeated queue entries included, the worklist ends with exactly the packages that reach the seed |
| PathRules.NormalizeIsStable | scripts/ci_test_plan.py:248-254 | an accepted path keeps its parts when normalized, and normalizing again changes nothing |
| PathRules.NormalizeIff | scripts/ci_test_plan.py:248-254 | a path is accepted exactly when it is not empty, not absolute and has no `..` between its slashes; the other names are kept |
| PathRules.ReadWorkspace | scripts/ci_test_plan.py:257-301 | succeeds exactly when there are packages and no kept package name repeats, and yields the packages and directories without the desktop app |
| PathRules.WorkspaceNames | scripts/ci_test_plan.py:270-301 | the kept names are exactly the metadata's names other than the desktop app's |
| PathRules.WorkspaceIs | scripts/ci_test_plan.py:286-301 | a kept package stands under its name, and its directory for the name of the last package there |
| PathRules.WorkspaceDirectories | scripts/ci_test_plan.py:286-301 | no other directory is kept |
| PathRules.Owner | scripts/ci_test_plan.py:340-349 | the package of the longest directory that contains the path, none exactly when no directory does |
| PathRules.LongestIsUnique | scripts/ci_test_plan.py:340-349 | no two directories that contain a path are equally long, so the owner does not depend on their order |
| PathRules.ClassifyFits | scripts/ci_test_plan.py:529-655 | a classified path only selects packages and targets that the workspace has and that belong to the suite |
| PathRules.WidensIff | scripts/ci_test_plan.py:529-655 | a path widens the plan exactly when no other job owns it and it is a shared input, a missing isolated test input, or a path for which the deepest package directory containing it, if any, has no rule |
| JobRules.OwnedElsewhereIff | scripts/ci_test_plan.py:352-400 | the paths other jobs own, by their first directories and by name |
| PlanSelections.RaisesIff | scripts/ci_test_plan.py:563-587 | a path raises exactly when it is an isolated input that exists and the workspace has no core package |
| TestPlan.CollectPaths | scripts/ci_test_plan.py:517-655 | the loop over the paths accumulates the fold of their effects, stopping at the first that raises or widens |
| TestPlan.CollectIsTotal | scripts/ci_test_plan.py:529-655 | when no path raises, the outcome is full if some path widens and otherwise the union of what each path contributes |
| TestPlan.TotalIsMonotone | scripts/ci_test_plan.py:529-655 | what a set of paths selects is contained in what any larger set selects |
| TestPlan.NestedExpressions | scripts/ci_test_plan.py:477-482 | the two nested sorted loops append one expression per package and name |
| TestPlan.WorkspaceLibPlan | scripts/ci_test_plan.py:468-493 | the loops and the branch build the suite of the functional definition |
| TestPlan.BuildTestPlan | scripts/ci_test_plan.py:496-712 | the suites of a plan, with the same errors in the same order, as a function of workspace, existing paths, event and paths |
| TestPlan.BuildPlan | scripts/ci_test_plan.py:715-746 | the plan with both gates, as a function of the same inputs |
| PlanSelections.OutcomeIs | scripts/ci_test_plan.py:529-655 | the first path that raises or widens decides; without one the plan is the selection |
| PlanSelections.PlanSelects | scripts/ci_test_plan.py:517-712 | for a pull request, merge group or push and paths none of which raises or widens: what each suite runs, from the kinds of the paths alone (sources and their dependents, test files known or not, the README that a test reads, isolated inputs) |
| PlanSelections.SourceChangeSelects | scripts/ci_test_plan.py:645-653 | one changed source file runs the unit tests of exactly the packages that reach its own through path dependencies, the integration suites and the core suite of those that have one, and the smokes |
| PlanSelections.ReadmeSelects | scripts/ci_test_plan.py:639-643 | the README that a Rust test reads runs the unit tests of its package and nothing else |
| PlanGates.GatesAre | scripts/ci_test_plan.py:403-451 | fmt is on exactly when a file with the suffix `.rs` in any case changed, clippy exactly when something changed that clippy reads or, in a full plan, that is not known to leave it alone |
| PlanGates.SharedInputIff | scripts/ci_test_plan.py:553-559 | the shared inputs are the listed files, manifests, build scripts and native sources by their suffix in any case |
| PlanGates.FullIffWidens | scripts/ci_test_plan.py:218-230 | when no path raises, a plan is full, in every suite, exactly when some path widens it |
| TestPlanLaws.PlanIgnoresOrder | scripts/ci_test_plan.py:715-746 | when no path raises, reordering or repeating the changed paths leaves every suite and both gates unchanged |
| TestPlanLaws.WorkspaceSuiteIsExact | scripts/ci_test_plan.py:468-493 | the workspace suite runs exactly the selected tests, although filters of wholly selected packages are dropped |
| TestPlanLaws.LocalRunNeverFails | scripts/ci_test_plan.py:1041-1073 | reading the filterset of any plan the planner returns back for a local run hits neither guard and yields exactly what the changed paths select |
| TestPlanLaws.CoverageIsMonotone | scripts/ci_test_plan.py:496-712 | adding paths never shrinks the tests run by `workspace_lib` and `core_integration`, nor turns off the canonical smokes |
| TestPlanLaws.GatesAreMonotone | scripts/ci_test_plan.py:430-451 | adding paths never turns off the fmt or the clippy gate |
| TestPlanLaws.IntegrationKeepsTargetsIff | scripts/ci_test_plan.py:657-699 | the two integration suites run every collected target if and only if no package suite is selected or every target's package is |
| TestPlanLaws.TargetIsLostIff | scripts/ci_test_plan.py:657-699 | adding paths to a plan below the full one loses an integration target if and only if it was collected while no package suite was selected and the added paths select package suites, but not its package |
| DroppedTarget.TestPathIsTarget | scripts/ci_test_plan.py:589-637 | for any workspace, an integration test's path below its package directory is classified by the package, its name and whether the target is known |
| DroppedTarget.AddingPathDropsTarget | scripts/ci_test_plan.py:599-676 | a concrete workspace and change where the plan runs the edited test, and no longer does once another package's test is removed too |
| PlatformPlans.BuildPlatformPlan | scripts/ci_test_plan.py:749-840 | the platform plan is the function of the inputs that the results below are about |
| PlatformPlans.RestrictIsExact | scripts/ci_test_plan.py:811-840 | restricting the suite of a selection never fails, and what is left runs exactly the tests of the behavioural packages that the suite ran |
| PlatformPlans.PlatformPlanSucceedsIff | scripts/ci_test_plan.py:749-840 | the platform plan fails only where the paths or the plan for the relevant paths do; its own guard never fires |
| PlatformPlans.PlatformPlanIsExact | scripts/ci_test_plan.py:749-840 | the platform plan is the plan for the relevant paths, except that a workspace suite that is not the full one runs exactly the behavioural packages' tests |
| PlatformPlans.OtherEventsRunEverything | scripts/ci_test_plan.py:759-765 | for any other event than a pull request, merge group or push, the plan and the platform plan run everything, whatever changed, and fail exactly when a path is malformed or a path dependency unknown |
| PlatformPlans.IrrelevantPathsSkip | scripts/ci_test_plan.py:766-795 | where no changed path is a shared Cargo file or a platform-relevant file below `crates`, the platform plan runs nothing |
| PlatformPlans.PlatformPlansTranslate | scripts/ci_test_plan.py:1306-1551 | the same for every platform plan, when package names are ASCII |
| Filterset.ParseExprExact | scripts/ci_test_plan.py:1050-1058 | an expression is read as e exactly when it is e's text in nextest's language and e's names are readable |
| Filterset.FiltersetRoundTrip | scripts/ci_test_plan.py:468-493 | a printed filterset is read back as the same expressions in the same order |
| Filterset.NamesIff | scripts/ci_test_plan.py:1050-1058 | the readable names are ASCII words with `-` for packages and with `:` for tests |
| Filterset.ParsedIsPrinted | scripts/ci_test_plan.py:1049-1066 | any text that is read is the printed form of what was read |
| Filterset.ReadLocal | scripts/ci_test_plan.py:1041-1073 | the loop returns the broad, prefix and exact selections, or the first of the two errors that applies |
| Filterset.LocalPartsExact | scripts/ci_test_plan.py:1044-1066 | the three selections are the whole packages, the modules and the tests of the expressions |
| Filterset.LocalReadsBack | scripts/ci_test_plan.py:1041-1073 | a printed filterset is read back with its own package list exactly when every name is readable |
| Filterset.PlatformKeepsBehavioral | scripts/ci_test_plan.py:816-839 | matching expressions by their `package(...)` prefix keeps exactly those of the behavioural packages, and the lost-owner guard cannot fire |
| PlanCommands.PlansTranslate | scripts/ci_test_plan.py:1306-1551 | every suite of every plan translates to commands, except a full core suite exactly when the core package has no target that is not manual-only; a suite has no commands exactly when its mode is skip, exactly when its `required` output is false |
| PlanCommands.RustCiIffCommands | scripts/ci_test_plan.py:843-878 | the Rust CI job is required exactly when some suite has commands or the smokes are on |
| PlanCommands.AcceptanceIffCommands | scripts/ci_test_plan.py:865-872 | canonical acceptance is required exactly when the CLI and server suite or the core suite has commands, or the smokes are on |
| PlanCommands.CorePackageMeansNoRaise | scripts/ci_test_plan.py:563-587 | with the core package in the workspace no path raises |
| PlanCommands.IntegrationCommandsRun | scripts/ci_test_plan.py:1410-1456 | the argument vectors of an integration suite are `cargo nextest run` with packages, targets and a filterset only, and together run exactly the targets the suite covers |
| PlanCommands.CoreCommandsRun | scripts/ci_test_plan.py:1458-1504 | the core command is `cargo nextest run` with the core package, the `eval-harness` feature and exactly the covered targets, never a manual-only one |
| PlanCommands.CommandsAreRuns | scripts/ci_test_plan.py:1328-1551 | every command of every suite of every plan is `cargo nextest run` with known flags; exactly the workspace commands run library tests, exactly the core command needs a feature |
| PlanCommands.WorkspaceCommandSelects | scripts/ci_test_plan.py:1395-1407 | the workspace command runs the library tests of exactly the suite's packages, their unit-test bins and the suite's filterset, and has no other flag |
| PlanCommands.FullWorkspaceCommandSelects | scripts/ci_test_plan.py:1382-1394 | the command of the full workspace suite runs every package but the desktop app, with all unit-test bins and no filterset |
| SignedRank.GroupRank | scripts/analyze_paired.py:109-115 | a run of ties from i to j gets the average of its 1-based ranks, which is the rank counted from the deltas themselves |
| SignedRank.FillRanks | scripts/analyze_paired.py:107-116 | the nested loops fill the array with every delta's tie-averaged rank |
| SignedRank.SignedRank | scripts/analyze_paired.py:96-125 | the number of non-zero deltas, W and the tie-corrected variance of their definitions by counting |
| SignedRank.CounterIsTieTerm | scripts/analyze_paired.py:123-124 | the sum of t^3 - t over tie groups is the sum over deltas of t^2 - 1 |
| SignedRank.RanksAddUp | scripts/analyze_paired.py:106-116 | averaged tie ranks sum to n(n+1)/2 |
| SignedRank.SignedRanksAddUp | scripts/analyze_paired.py:117-119 | the two rank sums add up to n(n+1)/2, so W is at most n(n+1)/4 |
| SignedRank.PermutationInvariant | scripts/analyze_paired.py:96-125 | permuting the deltas, zeros included, changes neither the number of non-zero ones, a rank sum, W nor the variance |
| SignedRank.NegationInvariant | scripts/analyze_paired.py:96-125 | negating all deltas, zeros included, swaps the rank sums and keeps W and the variance |
| SignedRank.VarianceLowerBound | scripts/analyze_paired.py:122-127 | the variance is at least n(n+1)^2/16, with equality exactly when all magnitudes tie, so it is positive for n at least 1 |
| BenjaminiHochberg.StableOrderIsOrder | scripts/analyze_paired.py:180 | the stable sort yields every index once, by ascending p-value |
| BenjaminiHochberg.ThreshRank | scripts/analyze_paired.py:182-185 | the last rank whose p-value is within its threshold, and none after it |
| BenjaminiHochberg.FindThreshRank | scripts/analyze_paired.py:182-185 | the loop computes that rank |
| BenjaminiHochberg.BenjaminiHochberg | scripts/analyze_paired.py:175-190 | for a level of at least 0, or p-values of at least 0, the result is the greatest set S whose p-values are all at most q times its size over m |
| BenjaminiHochberg.StepUpIsGreatest | scripts/analyze_paired.py:175-190 | under the same condition the step-up over any ascending order yields a feasible set that contains every feasible set |
| BenjaminiHochberg.TiesDoNotMatter | scripts/analyze_paired.py:180-190 | under the same condition, how the sort breaks ties does not show in the result |
| BenjaminiHochberg.NegativeLevel | scripts/analyze_paired.py:182-190 | below level 0 nothing is significant when no p-value is negative |
| LockTransform.FindSectionEnd | scripts/validate-release-candidate.py:341-344 | the stanza ends at the first line that opens a section |
| LockTransform.ReadStanza | scripts/validate-release-candidate.py:345-355 | the row loop returns the last name, whether there is a source and the rows with the base version |
| LockTransform.NotReplacedOnce | scripts/validate-release-candidate.py:364-368 | none exactly when every member was replaced once |
| LockTransform.ExpectedLockTransform | scripts/validate-release-candidate.py:318-374 | succeeds exactly when every member has one source-less stanza pinning the base version once, and then rewrites exactly the member rows |
| LockStanzas.AcceptedIff | scripts/validate-release-candidate.py:332-368 | the rewrite succeeds exactly when every workspace member has one package stanza without a source line, and that stanza pins the base version on exactly one line |
| LockStanzas.ResultIs | scripts/validate-release-candidate.py:332-363 | exactly the lines that pin the base version within member stanzas change, to lines that pin the target version |
| LockTransform.OneRowPerMember | scripts/validate-release-candidate.py:332-368 | an accepted file has exactly one rewritten row per workspace member, inside its stanza, different for different members, and keeps every other line |
| LockTransform.UndoneIff | scripts/validate-release-candidate.py:332-368 | swapping the versions undoes the transform if and only if no member's stanza already had a target-version line |
| LockTransform.TextIsLines | scripts/validate-release-candidate.py:332-374 | splitting the joined result at line breaks gives back the rewritten lines |
| Decimals.DecimalReadsBack | scripts/validate-release-candidate.py:879-883 | a printed attempt number reads back |
| Decimals.ReadsBackDecimal | scripts/validate-release-candidate.py:987-996 | an attempt number without leading zero prints back as it was |
| ArtifactSelection.NameParsesExact | scripts/validate-release-candidate.py:987-997 | a name parses to an attempt and target exactly when it is `release-candidate-`, the run, the attempt and the target, joined by dashes |
| ArtifactSelection.CandidateArtifactIndex | scripts/validate-release-candidate.py:978-1004 | succeeds exactly when the run's artifacts are well named, recent enough and not repeated, and indexes exactly those |
| ArtifactSelection.NewestAttempt | scripts/validate-release-candidate.py:1021-1025 | the newest attempt that has an artifact for the target, if any |
| ArtifactSelection.LatestCandidateArtifactAttempts | scripts/validate-release-candidate.py:1007-1031 | the newest attempt of every target, or an error when the index is bad or a target has none |
| ArtifactSelection.ValidateAttempt | scripts/validate-release-candidate.py:944-974 | the checks pass exactly when each expected target has exactly one job, of this run and attempt, that succeeded |
| ArtifactSelection.LatestReleaseTargetAttempts | scripts/validate-release-candidate.py:916-975 | succeeds exactly when every target's attempt is valid and its job there is good, and returns the same attempts |
| ArtifactSelection.CandidateArtifactsForAttempts | scripts/validate-release-candidate.py:1034-1058 | binds each target to the artifact of its attempt, with distinct ids, or fails when that cannot be done |
| ArtifactSelection.NewestIsLast | scripts/validate-release-candidate.py:1007-1031 | over any history of reruns an attempt is the newest indexed one if and only if it is the last that emitted the target |
| ArtifactSelection.SelectCandidates | scripts/validate-release-candidate.py:1344-1362 | over any history of reruns, in whatever order its artifacts are listed, selection succeeds exactly when it can, with one artifact per target: that of the last emitting attempt, whose job succeeded, with distinct ids |
| ArtifactSelection.CanSelectIff | scripts/validate-release-candidate.py:916-1058 | when a selection is possible, written out: artifact names, attempts, job names, status, conclusion and identity |
| CachePrune.EvictOldest | scripts/ci-cache-maintenance.py:95-99 | the loop selects the shortest prefix that reaches the target and the projection it leaves |
| CachePrune.BuildPrunePlan | scripts/ci-cache-maintenance.py:59-114 | the whole plan, with the same refusals in the same order, as a function of the inputs |
| CachePrune.PlanSucceedsIff | scripts/ci-cache-maintenance.py:67-77 | a plan is made exactly when the usage is not negative, the target is positive, no prefix is empty, every row is complete and no id occurs twice |
| CachePrune.PlanReports | scripts/ci-cache-maintenance.py:78-114 | the plan reports its inputs, the bytes it frees, its counts and the bytes of the caches it may not touch |
| CachePrune.PlanIsMinimal | scripts/ci-cache-maintenance.py:95-114 | the deletions are the shortest oldest-first prefix of the unprotected caches that reaches the target, all of them if none does; projection and status match exactly |
| CachePrune.DeletionsAreSafe | scripts/ci-cache-maintenance.py:78-99 | only caches of the inventory without a protected prefix are deleted, none twice, and no unprotected cache that stays is older than a deleted one, by last access, then creation, then id |
| CachePrune.SortIsOldestFirst | scripts/ci-cache-maintenance.py:88-94 | the sort yields an oldest-first arrangement |
| CachePrune.OldestFirstIsUnique | scripts/ci-cache-maintenance.py:88-94 | with distinct ids there is only one oldest-first arrangement |
| CachePrune.PlanIgnoresOrder | scripts/ci-cache-maintenance.py:59-114 | the plan does not depend on the order of the inventory |
| CratePublish.PathsShareOnlyCase | scripts/publish-crate.py:47-60 | two crates share an index file exactly when their names differ in letter case only |
| CratePublish.IndexPathParts | scripts/publish-crate.py:47-60 | the index file of a crate lies in `1`, `2`, `3` and its first letter, or its first two pairs of letters, under its lower-case name |
| CratePublish.ValidNameIff | scripts/publish-crate.py:25-38 | a crate name is a letter and at most 63 letters, digits, `_` and `-` |
| CratePublish.ValidVersionIff | scripts/publish-crate.py:36-44 | a version is 1 to 128 characters without white space and control characters |
| CratePublish.SparseIndexContains | scripts/publish-crate.py:63-91 | true exactly when the exact record comes before any malformed line, an error exactly when a malformed line comes before the record, false otherwise |
| CratePublish.World.PollForExactVersion | scripts/publish-crate.py:128-155 | the loop leaves the history and answer of the recursive poll, and refuses a non-positive limit |
| CratePublish.PollIsExact | scripts/publish-crate.py:128-155 | a poll does exactly a run of probes with one sleep between two, of which only the last may see the version, using every attempt if none does |
| CratePublish.World.PublishCrate | scripts/publish-crate.py:158-230 | the whole new history and the result, as a function of the world, the old history and the request |
| CratePublish.RunsAreExact | scripts/publish-crate.py:158-230 | against any registry and upload tool, a run does t and ends with r if and only if t and r belong together result by result and t records the world's answers |
| CratePublish.ZeroMeansSeen | scripts/publish-crate.py:158-230 | 0 is returned exactly when some probe of the run saw the exact version, and that probe is the run's last action |
| CratePublish.UploadIsGuarded | scripts/publish-crate.py:172-196 | cargo is called at most once, and exactly when the inputs are good, the first probe answered "absent" and there is a token |
| CratePublish.StatusIsCargos | scripts/publish-crate.py:198-230 | a non-zero status is cargo's own and is returned exactly when every allowed poll missed; a successful but invisible upload is an error |
| CratePublish.DefaultLimits | scripts/publish-crate.py:20-21 | with the default limits a run takes at most 25 actions and always polls |
| CratePublish.EveryRunHappens | scripts/publish-crate.py:158-230 | every history and result in the list of runs happens in some world |
| CratePublish.NoUploadOnceSeen | scripts/publish-crate.py:158-230 | over any number of reruns against a registry that keeps what it has, nothing is uploaded once any probe has seen the version |

## Left out

- The regular-expression engine and Unicode: the header, declaration and call patterns, raw strings, character literals, filterset expressions and artifact names have recognisers of their own; what counts as `\w` and `\s` is a parameter of which only a few facts are used.
- `strip_test`: a file is given by its lines and their structure. The files are given in the order of their paths.
- The `SQLBLK`/`PROSE` tests that mark a function's text as SQL-bearing are an arbitrary predicate on that text. Visibility, line numbers, the `ext` and `exposure` columns, the `TRUNCATED` report, the final sort of the rows and inventory rendering in the reader sweep; `via` is modelled as a set.
- OwnBodies.OwnBodyIff: type macros written with braces outside all brackets of a signature are not in the grammar of functions.
- SourceIndex.IndexIsValid: paths outside the four walked directories are assumed to have different short paths; inside them this is proved.
- The details of unresolved calls: a name is recorded as unresolved without the list of its places.
- gzip, `tarfile`, `zipfile` and the extraction functions: archives are byte sequences. Writing a ZIP is not modelled.
- TarEncoder.CreateTar: for a member that does not fit a plain ustar header, what `tarfile` writes is arbitrary apart from its being at least one block with type flag `x`.
- The p-value, `normal_cdf`, the bootstrap, rounding and the reports of the statistics: numbers are exact reals.
- BenjaminiHochberg.BenjaminiHochberg: the greatest-set theorem asks for a level of at least 0 or non-negative p-values; a negative level together with negative p-values is not characterised.
- The planner's `reasons`, JSON shape errors, the file system (existing paths are an input), partitions, archives, the local and macOS command lists, the clippy command and nextest's inventory checks.
- PathRules.ReadWorkspace: manifest paths are given relative to the workspace root.
- The TOML cross-checks after the lockfile rewrite and the rejection of qualified references: `tomllib` is a library, and these checks only refuse more.
- API clients, downloads, pagination, receipts and summaries of release validation; the other transforms of version files in `scripts/validate-release-candidate.py`.
- The cache API client and receipt of `scripts/ci-cache-maintenance.py`.
- The HTTP fetch and JSON decoding behind a probe in `scripts/publish-crate.py`: the registry's answers and the upload's outcome are arbitrary functions of the history; messages are not modelled.
- The relay, the Rust crates, the desktop app and the configuration and policy checkers of the repository.
