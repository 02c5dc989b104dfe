# formatelf, modelled and proved in Dafny

formatelf rewrites ELF files: it parses a file into an image (headers, section
contents, the dynamic array), edits the image, gives grown sections a new place
in the file and in memory, checks what a loader relies on, and streams the new
file from the old one and the spans that changed. This project models that
machinery and proves what it promises. Bytes are integers below 256, files are
sequences of bytes, and a loader is a function from a file and its program
headers to a partial map from addresses to bytes (`Loader.Mem`).

The image is modelled twice. `Ir.Image` is a value, and the layout's decisions,
the symbol rename and the string edits are functions on it. `Ir.ElfImage` is the
object the operations update in place: `LayoutOps`, `Relayout`, `RenameOps`,
`Stub`, `Rpath` and `Needed` hold the methods, each proved to compute its
function. The theorems are lemmas about the functions.

| modules | what they hold |
|---|---|
| `Bytes`, `Words`, `Align`, `Sorting` | integers in byte strings, arrays of words, alignment arithmetic, stable sorting |
| `Ir`, `Codec`, `Parser`, `RoundTrip` | the image, header records, parsing, and how parsing and writing undo each other |
| `Records`, `ParsedRecords`, `RenamedRecords` | the place of every field in the file's bytes, as the gABI gives it |
| `Serialize`, `Writer` | what a written file must be, byte by byte, and the streaming loop that writes it |
| `Layout`, `LayoutOps`, `Relayout` | both layouts as functions, in place, and `finalize` |
| `RegionFacts`, `Shape`, `Placed`, `Segments`, `Accepted`, `Dynamic`, `Verify` | a layout run step by step, up to every check of `verify::run` |
| `Append`, `Shift`, `Prepend`, `Loader`, `Memory`, `AppendTheorems`, `PrependTheorems`, `Outcome`, `Overlay`, `StaleNote` | what each layout guarantees about the file it writes and the memory a loader builds from it |
| `Paths`, `Finalized` | which way `finalize` goes, and the same for it as a whole, from file to file |
| `AddressRefs`, `Verified` | what the layouts refuse to move and what the verifier accepts, in the gABI's numbers |
| `NewSection`, `Reclaim`, `Repatch`, `Stub` | invariants over any number of relayouts, stub and note installs |
| `Example`, `Sample`, `SampleFiles` | programs the layouts accept, with their files |
| `Failures`, `NoteFailures`, `OverlayFailure`, `StringFailure`, `EscapedCount` | inputs on which a promise fails |
| `Bits`, `GnuHash`, `GnuTable`, `SysvHash`, `Reorder`, `Relocs`, `SymbolNames`, `Symbols`, `Rename`, `RenameOps`, `RenameTheorems` | dynamic symbol renames and both hash tables, against the loader's lookups |
| `Glob`, `Pool`, `Populate`, `Reachable` | the dependency resolver: glob matching, worker pools, the cache search and what it finds in a file system |
| `DynStrings`, `Rpath`, `FilterDirs`, `Needed` | dynamic string edits |

The two layouts are runs of one shape, `Placed.Job`: an image whose tables
already have their offsets, a geometry, the sections to move and the file range
kept sections occupy. What a run needs of its input is stated as predicates
(`Append.AppendReady`, `Prepend.PrependReady`): header sizes of the class,
power-of-two alignments, an aligned base address, loads that do not overlap,
sections that do not overlap in the file, a string table the tags fit, an entry
inside code. From these the arithmetic of each layout establishes `Dynamic.Ready`,
and everything else follows from that. `SampleFiles` shows a program, with its file,
that meets all of these conditions for both layouts while its string table, dynamic
array and entry stub move, and that can be patched any number of times.

The ld-cache note's segment may stand anywhere. A note this program installs is
always the last table entry (`StaleNote.FreshNoteIsLast`), so a prepend loses track
of it (below); `Segments.NoteReady` asks only that its stale index names no load,
which, header fields that fit aside, is exactly when the file is written
(`StaleNote.StaleNoteWritten`), and the theorems about that file need no more.

`.gnu.hash` is proved against the lookup of the GNU C library, which masks where
the builder takes a remainder, so that their number of bloom words must be a power
of two; `.hash` is proved against
"Hash Table" in chapter 5 of the System V gABI, and the order of loads against
"Program Header" in the same chapter.

## What the code does not promise

Nine properties turn out to hold only under a condition; each is proved with the
exact condition, and with an input that fails it.

- The glob matcher tries a literal match before the star, so a `*` in the text
  can consume the star of the pattern (`Glob.PatternExactness`, `Glob.TextExactness`;
  `Glob.StarAgainstStar`).
- A hash table whose first hashed symbol is symbol 0 loses it
  (`GnuHash.ReachableIff`; `GnuHash.SymbolZeroUnreachable`).
- A hash table whose number of bloom words is not a power of two can deny a symbol
  to a loader that masks (`GnuHash.FilterCoversIff`; `GnuHash.ThreeWordsDeny`).
- The prepend layout remembers the ld-cache note by an index it takes before it
  rotates the new loads into place. A note behind the first load loses its segment
  (`Outcome.PrependNoteFollows`), and its extent goes into the entry one or two
  places before it. When that is a load, the file is refused (`StaleNote.StaleLoads`,
  `StaleNote.StaleNoteWritten`; `NoteFailures.FreshNoteRefused`); otherwise it is
  written with that entry framing the note (`StaleNote.StaleNoteMisframes`;
  `NoteFailures.FreshNoteMisframed`).
- The byte the append layout leaves past its region is meant to be zero padding, but
  when a reclaiming run ends before the input did it is a byte of the old region,
  which the next run can take for an overlay (`Overlay.AppendOverlay`;
  `OverlayFailure.ReclaimMakesOverlay`).
- A reclaiming run takes any executable load placed as the stub section for the
  stub's own. A stub just installed has offset and address 0, so a program whose
  code is placed there loses it (`Reclaim.ReclaimDropsRegion`, `Stub.NewStubReclaim`;
  `Failures.NewStubDropsCode`).
- A dynamic string that shares bytes with a reused slot keeps its value only if it
  already has the bytes written there (`DynStrings.SetKeeps`,
  `DynStrings.SharedTail`, `DynStrings.SharedHead`; `StringFailure.SharedTailRenames`).
- A directory is expanded with the flag of its first visit. Library directories are
  roots without recursion, so one that lies below a recursive path is never
  descended into (`Reachable.FindsAllIff`, `Reachable.RunFindsAllIff`;
  `Reachable.LibraryLost`).
- Whether a pushed program header fits in place is judged by `e_phnum`. Where that is
  the escape although the table is shorter, a longer table overruns it
  (`Paths.LongerTableIff`; `EscapedCount.EscapeOverruns`).

Two more concern what can be written and read back: appending to a file without
sections writes one the parser rejects (`Outcome.AppendSectionlessUnreadable`), and
an ELF32 relocation cannot follow its symbol past index 2^24
(`Relocs.RemapInfoFollows`).

## Model

| member | source | states |
|---|---|---|
| `AppendTheorems.AppendPreservesProgram` | src/layout.rs:488-550 | every address of a load the layout keeps reads the same byte in the loaded output as in the loaded input, unless its file position is in the ELF header or in a section rewritten in place |
| `AppendTheorems.AppendRelocates` | src/layout.rs:275-301 | every relocated section is read, at its new address and through the region's loads, with exactly its final contents |
| `AppendTheorems.AppendEstablishesVerify` | src/layout.rs:540-549 | from a ready input the appended image passes all of `verify::run` without relying on the check, and writing can then fail only on a header field too wide for the class, never on an overlapping or out-of-file span |
| `Append.AppendIsReady` | src/layout.rs:502-542 | the append arithmetic (alignment, offset, address, tables, total) establishes every file and memory condition the layout theorems need |
| `PrependTheorems.PrependPreservesProgram` | src/layout.rs:322-421 | every address of an original load outside sections rewritten in place reads the same byte, at the same address, in the loaded output, wherever the ld-cache note's segment stands as long as the file is not refused |
| `PrependTheorems.PrependMovesBytes` | src/layout.rs:380-388 | every input byte not rewritten in place is found exactly `shift` bytes higher in the output |
| `PrependTheorems.PrependRelocates` | src/layout.rs:399-405 | every relocated section is read at its new, lower address with its final contents |
| `PrependTheorems.PrependEstablishesVerify` | src/layout.rs:322-421 | from a ready input the prepended image passes `verify::run`, and writing can fail only on a header field too wide for the class |
| `PrependTheorems.PrependKeepsTail` | src/layout.rs:390-394 | with `keep_tail` the output ends where the moved-up input ends, byte for byte from any point past the kept sections |
| `Outcome.PrependKeepsOverlay` | src/layout.rs:44-59 | with `keep_tail`, what lies past everything the input's headers describe is still the end of the output |
| `Prepend.PrependIsReady` | src/layout.rs:339-405 | the prepend arithmetic establishes every file and memory condition the layout theorems need |
| `Outcome.AppendParses` | src/layout.rs:548-549 | parsing an appended file gives back the image that was written, its dynamic array up to the terminating null, when the counts need no section-0 escape |
| `Outcome.PrependParses` | src/layout.rs:418-419 | the same for a prepended file |
| `Outcome.AppendSectionlessUnreadable` | src/layout.rs:541 | appending to a file without sections sets a table offset with count 0, so the parser looks for section 0 past the end and rejects the file |
| `Outcome.LoadsStayAscending` | src/layout.rs:406-412 | both layouts keep the `PT_LOAD`s ascending by address |
| `Outcome.PrependNoteFollows` | src/layout.rs:377 | in a prepend the ld-cache `PT_NOTE` frames its moved section if and only if it precedes the first load in the table: its index is taken before the rotation |
| `StaleNote.StaleLoads` | src/layout.rs:611-621 | in a prepend whose note lies behind the first load, the final table still maps the original loads and the region's if and only if the entry the stale index names (a load of the region, or the original entry one or two places before the note) is not a load |
| `StaleNote.StaleNoteWritten` | src/layout.rs:377-419 | the prepend of a file whose note lies behind the first load writes its output if and only if the entry the stale index names is no load and every header field fits the class |
| `StaleNote.StaleNoteRefused` | src/layout.rs:377-419 | if that entry is a load, the prepend ends in a constraint error: the overwritten load overlaps the region's data load |
| `StaleNote.StaleNoteMisframes` | src/layout.rs:611-621 | otherwise the entry at the stale index frames the note's section in place of its own extent, unless a section of its own decides it, and the note's segment, further down the table, keeps its old header |
| `StaleNote.InstallNote` | src/ldcache.rs:104-150 | in place: a found note is left alone if equal and replaced with size 0 otherwise; a missing one gets a name, a section and a placeholder segment, all last; each error leaves the image unchanged |
| `StaleNote.NoteHeld` | src/ldcache.rs:104-150 | the note's section holds the note; a new one is a loaded note aligned at 4 with a read-only `PT_NOTE` |
| `StaleNote.FreshNoteIsLast` | src/ldcache.rs:139-149 | a newly installed note's segment is the last table entry, so it lies behind the first load whenever there is one |
| `NoteFailures.FreshNoteRefused` | src/layout.rs:377-419 | a concrete program with one load and a note just installed: every prepend of it is refused |
| `NoteFailures.FreshNoteMisframed` | src/layout.rs:377-419 | the same program with a `PT_GNU_RELRO` entry behind its load: the file is written and parses back with that entry framing the note and the note's own segment empty |
| `RegionFacts.PlanOk` | src/layout.rs:247-273 | a planned region holds exactly the chosen sections, each aligned and past the header space, none overlapping, data before a page-aligned code part, and has two loads exactly with a code part |
| `RegionFacts.RebaseHit` | src/layout.rs:686-696 | a value inside a moved section's old range is rebased at the same inner offset |
| `RegionFacts.RebaseMiss` | src/layout.rs:686-696 | a value in no moved section's old range is unchanged |
| `Placed.FinalRegions` | src/serialize.rs:138-145 | no two of the headers, tables and sections of a final image share a file position, and all lie inside the file |
| `Placed.FinalWrites` | src/layout.rs:418-419 | the writer succeeds on a final image exactly when its headers encode; the file then holds every header and section, and the moved input everywhere else |
| `Segments.FinalLoads` | src/layout.rs:287-293 | the final table has exactly the original loads, untouched, and the region's, after them or before them |
| `Segments.SegmentsFrame` | src/layout.rs:611-650 | in the final image `PT_PHDR`, `PT_INTERP`, `PT_DYNAMIC` and `PT_MIPS_ABIFLAGS` frame exactly their targets, and so does the ld-cache note when its index is still right |
| `Segments.SegmentsByType` | src/layout.rs:611-660 | by type number: 6 frames the table of 56- or 32-byte entries, 3 `.interp`, 2 the dynamic section, 0x70000003 `.MIPS.abiflags`, in file and memory alike |
| `Segments.OthersStay` | src/layout.rs:611-660 | every other segment but the note's keeps its extent |
| `Segments.NoteFound` | src/layout.rs:479-486 | the note's segment is the first of type 4 at the file offset of `.note.nixos.ldcache` |
| `Accepted.FinalDisjoint` | src/layout.rs:532-534 | no load of the final image overlaps another in memory |
| `Accepted.FinalAnchor` | src/layout.rs:528-534 | `PT_PHDR` has the address the kernel derives for the moved table from the lowest-offset load |
| `Accepted.FinalFileBounds` | src/layout.rs:535-536 | tables, segments and sections of the final image end inside the file |
| `Accepted.HomeCovers` | src/layout.rs:253-256 | a moved section lies in its load's file and memory ranges at the same distance from both starts; code in R+X, the rest in R+W, never both |
| `Accepted.FinalAligned` | src/layout.rs:427-441 | a moved section's offset and address are multiples of its `sh_addralign`, up to the region's own alignment |
| `Dynamic.FinalAccepted` | src/verify.rs:36-94 | the final image of either layout passes every check of `verify::run` |
| `Verified.RunExact` | src/verify.rs:36-92 | the verifier accepts exactly the images that meet the listed conditions, written in the gABI's numbers: powers of two, congruence, no load both writable and executable, loads clear of each other, a mapped table, its anchor, file bounds, links, interpreter, entry, strings, dynamic segment and address tags; every violation is a constraint error |
| `Verified.DisjointIff` | src/verify.rs:64-74 | the test of neighbours in the sorted loads passes exactly when every two loads, in table order, are clear of each other |
| `Verified.AcceptedMemory` | src/verify.rs:52-74 | in an accepted file no address lies in two loads or in a load both writable and executable |
| `Verified.AcceptedTable` | src/verify.rs:76-88 | a loader of an accepted file finds the whole program header table in memory |
| `Dynamic.FinalDynamicAddrs` | src/verify.rs:206-227 | every address-valued dynamic tag of the final image is mapped |
| `Dynamic.FinalDynstr` | src/layout.rs:698-705 | `DT_STRTAB` is the final `.dynstr` address, `DT_STRSZ` its final size, and every string tag lies inside it |
| `Dynamic.FinalEntryAddr` | src/layout.rs:295-297 | with a code part the entry is 16 bytes into the stub section, and unchanged otherwise |
| `Memory.TagFollowsSection` | src/layout.rs:665-696 | an address tag, one of eighteen by number, into a moved section is rebased to the same inner offset of where the section's bytes are now read; one that points into none keeps its value |
| `Memory.OtherTagKept` | src/layout.rs:665-708 | a tag that is none of the eighteen address tags, `DT_STRSZ` or `DT_MIPS_RLD_MAP_REL` keeps its value |
| `Memory.RewrittenInPlace` | src/serialize.rs:62-82 | an address in a section rewritten in place reads that section's new byte |
| `Memory.MovedHome` | src/layout.rs:287-293 | a moved section's load: same distance in file and memory, executable exactly for code, writable exactly for data |
| `LayoutOps.RelocationSet` | src/layout.rs:190-221 | drops exactly the loads `Layout.DropPrior` names and returns the region start and the ascending list of sections to move |
| `LayoutOps.RegionLayout` | src/layout.rs:427-437 | the accumulator loop yields the aligned offsets and the end of the specification |
| `LayoutOps.PlanRegion` | src/layout.rs:247-273 | data and code partition, offsets, part ends and load count of the specification |
| `LayoutOps.AssertNoAddressRefs` | src/layout.rs:574-606 | true exactly when no allocated relocation target or symbol value lies in a range |
| `AddressRefs.ScanExact` | src/layout.rs:554-606 | the scan passes exactly when no `r_offset` of a loaded `SHT_RELA` (records of 24 or 12 bytes) or `SHT_REL` (16 or 8) and no `st_value` of a loaded symbol table (8 bytes into records of 24, 4 into records of 16) lies in a range, the fields read at those places of the sections' bytes |
| `AddressRefs.AppendRefusedIff` | src/layout.rs:444-470 | the append layout refuses with an unsupported error if and only if such a value lies in the old place of a section it moves |
| `AddressRefs.PrependRefusedIff` | src/layout.rs:444-470 | the same for the prepend layout |
| `LayoutOps.PlaceRelocated` | src/layout.rs:444-474 | refuses exactly on such a reference; otherwise every chosen section, and no other, has its new offset, address and size, and the old ranges are recorded in order |
| `LayoutOps.Emit` | src/layout.rs:277-300 | sections placed, one or two loads pushed, entry moved onto a stub in the code part; nothing else changes |
| `LayoutOps.SyncSegments` | src/layout.rs:611-650 | each framing segment gets its target's extent, the ld-cache note by index; all others are unchanged |
| `LayoutOps.FixupDynamicAddrs` | src/layout.rs:665-706 | the three passes over the array equal one pointwise specification |
| `LayoutOps.FixupRldMapRel` | src/layout.rs:711-730 | every `DT_MIPS_RLD_MAP_REL` is the wrapped distance from its own slot to `.rld_map`, or 0 |
| `LayoutOps.SyncDynamic` | src/layout.rs:88-100 | the dynamic section becomes the encoded array, zero-padded to the section's size; fails exactly when an entry does not encode |
| `Relayout.AppendLayout` | src/layout.rs:488-550 | the in-place append writes exactly the file its specification names, or fails with the same kind of error |
| `Relayout.PrependPlan` | src/layout.rs:339-376 | applicable exactly when there are loads, the base is aligned and the region fits below it; then the specified geometry and shift |
| `Relayout.PrependLayout` | src/layout.rs:322-421 | the in-place prepend writes exactly the specified file, reports no room exactly when there is none, or fails with the same kind of error |
| `Relayout.OverlayOf` | src/layout.rs:44-59 | true exactly when a non-zero byte lies past everything the parsed headers describe |
| `Parser.OverlayIff` | src/layout.rs:44-59 | a file has an overlay exactly when some non-zero byte follows both tables, every segment and every section with file bytes |
| `Relayout.Finalize` | src/layout.rs:113-169 | chooses in-place rewrite, prepend, append, or prepend with append as fallback, and returns that path's file |
| `Paths.RewritesIff` | src/layout.rs:102-136 | a file is rewritten in place exactly when no section with file bytes changed its length (the dynamic array counted in entries of 16 or 8 bytes, never shrinking) and the image has no more program headers than `e_phnum` says |
| `Paths.LongerTableIff` | src/layout.rs:122-136 | a program header table longer than the input's is written over it if and only if nothing grew, `e_phnum` is the escape 0xffff and the new table is no longer than that; every other longer table moves |
| `EscapedCount.EscapeOverruns` | src/layout.rs:122-136 | a concrete file of 184 bytes with one program header and an escaped count: with a second one pushed it is rewritten in place |
| `Paths.MovesHow` | src/layout.rs:143-168 | any other file is refused unless a program or shared object, appended to if no non-zero byte follows what its headers describe and it has no `.bun` section, and otherwise prepended to if there is room |
| `Paths.RegionsApart` | src/layout.rs:122-136 | if no two of the input's header, tables and sections share a byte, and edits leave the tables and sections at their places, no two parts of the image written in place share one, and all lie inside the file |
| `Relayout.SectionMovesIff` | src/layout.rs:211-219 | a section with bytes moves exactly when its length changed or it lies at or past a reclaimed region's start |
| `Prepend.RoomIff` | src/layout.rs:340-370 | the prepend layout applies exactly when the lowest load address is a multiple of the largest load alignment and the whole region, unrounded, fits below it |
| `Append.AppendOffsetLeast` | src/layout.rs:499-516 | the region starts at the first aligned file offset past the kept content whose address is past every segment |
| `Finalized.FinalizePreserves` | src/layout.rs:113-169 | whichever path `finalize` takes, from a file whose parts are apart if it is rewritten in place, parsing the file it writes gives headers by which a loader finds, at every address of a kept load whose file byte nothing rewrites, the byte it found in the input by the input's own headers |
| `Finalized.RewritingReady` | src/layout.rs:122-136 | taking the in-place path from a file whose parts are apart, through edits that keep their places, leads to an image none of whose parts touch |
| `Finalized.InPlaceTags` | src/layout.rs:711-731 | in place only `DT_MIPS_RLD_MAP_REL` may change; its slot's address plus its value is the address of `.rld_map` modulo the word |
| `Finalized.InPlacePreserves` | src/layout.rs:127-138 | the in-place rewrite keeps the byte at every loaded address that no header and no section changes |
| `Finalized.InPlaceRewrites` | src/layout.rs:133-138 | a section the in-place rewrite changes is read with its new bytes at its address |
| `Finalized.InPlaceParses` | src/layout.rs:133-138 | parsing the rewritten file gives back the image that was written, when no two parts of the file touch |
| `Reclaim.PriorIsDataLoad` | src/layout.rs:195-202 | after an append, and any edits that leave the loads in place, the next run's search for a load at the table's offset finds the region's data load, when no original load starts there |
| `Reclaim.ReclaimDropsRegion` | src/layout.rs:204-210 | a reclaiming run drops exactly the one or two loads the previous run added if and only if no load is placed as a stub section that lies before the region; otherwise it also drops one original load |
| `Reclaim.StubStartsCode` | src/layout.rs:259-265 | a stub that is the only code moved starts the code part when its alignment divides the page |
| `Reclaim.AppendStarts` | src/layout.rs:277-300 | from a ready input that moves no code but the stub, the appended image has its stub at the file offset and address of the region's code load |
| `Repatch.ChainCode` | src/layout.rs:211-220 | over any chain of reclaiming appends, with edits between them that resize no other code, every run moves no code but the stub |
| `Repatch.LoadsNeverPileUp` | src/layout.rs:186-221 | over any number of reclaiming appends, stated on their inputs alone, the loads are the original ones and those of the current region, so their number stays the original count plus 1 or 2 |
| `Repatch.UnstubbedNeverPileUp` | src/layout.rs:186-221 | for a program that starts without a stub and has no executable load at offset 0 and address 0, no condition on later stubs is needed: whatever stubs and notes are installed in between, its loads are kept |
| `Repatch.FilesNeverPileUp` | src/layout.rs:488-550 | the same from file to file: each one parsed, edited and patched into the next, every file read back has the first one's loads, unchanged, and those of one region |
| `SampleFiles.FilesExist` | src/layout.rs:488-550 | a concrete program and its file, given a library and a stub so that its name table, string table, dynamic array and stub move, can be patched any number of times in a row, under the conditions of the row above |
| `Stub.SetBytes` | src/stub.rs:33-86 | replaces or adds the stub as specified, with the program entry at offset 8, and reports each error without changing the image |
| `Stub.StubInstalled` | src/stub.rs:33-86 | the stub's section holds the given bytes but for the eight at 8, which are the program's entry, and a new one is code, not writable, aligned at 16 and without a place |
| `Stub.InstallChains` | src/stub.rs:48-61 | installing a stub keeps at most one stub section, whose word at offset 8 is the entry of the program behind any earlier stub |
| `Stub.RelayoutChains` | src/layout.rs:277-300 | both layouts keep that invariant |
| `Stub.RunChains` | src/stub.rs:10-11 | over any sequence of installs, relayouts and re-reads of an unstubbed program there is at most one stub and its word at offset 8 is the program's own entry |
| `Stub.StubIsEntered` | src/layout.rs:289-297 | after a relayout that places the stub, the entry is its address plus 16, inside a load that is executable and not writable |
| `Stub.NewStubReclaim` | src/layout.rs:225-230 | a stub newly added after an earlier relayout has offset and address 0, so the next reclaiming run keeps exactly the original loads if and only if no executable one is placed at offset 0 and address 0 |
| `Failures.NewStubDropsCode` | src/layout.rs:225-230 | a concrete program with its code at offset 0 and address 0: patched once and given a stub, its only load is dropped by the next run |
| `Stub.InstallEdits` | src/stub.rs:56-86 | installing a stub leaves loads, names and places as the next reclaiming run needs them |
| `StaleNote.NoteEdits` | src/ldcache.rs:104-150 | so does installing a note |
| `Serialize.RenderedIsRender` | src/serialize.rs:106-163 | a file that holds every span and the moved input elsewhere is determined byte for byte |
| `Serialize.DeltaRendersRegions` | src/serialize.rs:36-45 | dropping the spans the input already holds changes no output byte when no two regions touch |
| `Serialize.WriteRegions` | src/serialize.rs:106-163 | with regions apart and inside the file the writer succeeds; every region is read back and every other byte is the moved input's or zero |
| `Serialize.SortApart` | src/serialize.rs:117 | sorting spans by position neither hides nor creates an overlap |
| `Writer.OwnedSpans` | src/serialize.rs:26-84 | the changed spans, headers first; fails exactly when a header does not encode or a section's size is stale |
| `Writer.Fill` | src/serialize.rs:121-136 | a gap is zero before the moved input, the input's bytes within it and zero after it |
| `Writer.WriteToShifted` | src/serialize.rs:106-163 | the streamed output equals the pointwise specification; fails exactly on a stale size, a field too wide, or colliding or overrunning changed spans |
| `Parser.ParseImage` | src/parser.rs:31-74 | the parsing loops compute the specified image, and fail exactly when it does |
| `Parser.ReadEntries` | src/parser.rs:78-91 | the dynamic array up to and including the first `DT_NULL` |
| `ParsedRecords.HeaderParsed` | src/parser.rs:132-168 | every file header field of a parsed file equals the bytes at its gABI offset, and the counts are those of the header or, when escaped, section 0's `sh_info`, `sh_size` and `sh_link` |
| `ParsedRecords.PhdrParsed` | src/parser.rs:35-40 | program header k is read field by field at `e_phoff` + 56k or 32k: in ELF64 `p_offset` 8 and `p_vaddr` 16 bytes in, and so on for all eight, in ELF32 in that class's order |
| `ParsedRecords.ShdrParsed` | src/parser.rs:42-47 | section header i is read field by field at `e_shoff` + 64i or 40i |
| `ParsedRecords.SectionParsed` | src/parser.rs:49-58 | a section's contents are the file's bytes at its offset, and `SHT_NOBITS` has none |
| `ParsedRecords.DynamicParsed` | src/parser.rs:171-193 | the dynamic array is that of the first dynamic section, a whole number of entries, or else of the first `PT_DYNAMIC` at its file offset, each entry read at its place, up to the first null |
| `ParsedRecords.SectionFound` | src/ir.rs:236-250 | a section found by name is the first whose bytes in the name table, up to a NUL or the table's end, are that name |
| `RoundTrip.ParseWritten` | src/parser.rs:31-74 | parsing a file that holds an image's headers, tables and sections gives that image back, its dynamic array up to the terminating null |
| `RoundTrip.WriteThenParse` | src/serialize.rs:106-163 | writing an image with disjoint regions over any input, then parsing, gives the image back |
| `RoundTrip.PaddedBack` | src/layout.rs:85-100 | the encoded, zero-padded dynamic section reads back as the entries followed by nulls |
| `RoundTrip.ParseThenWrite` | src/codec.rs:127-144 | writing an unmodified parsed file gives the file back byte for byte if and only if its count fields are the ones the writer chooses |
| `RoundTrip.SectionlessUnreadable` | src/parser.rs:139-150 | an image without sections but with a table offset too close to the end is written to a file that does not parse |
| `Codec.ReadWritePhdr` | src/codec.rs:204-266 | a written program header reads back, in both classes and byte orders |
| `Codec.WriteReadPhdr` | src/codec.rs:204-266 | a read program header is written back to its own bytes |
| `Records.PhdrRead` | src/codec.rs:204-236 | each of the eight fields is the integer at its literal gABI offset and width, per class and byte order |
| `Records.PhdrWritten` | src/codec.rs:238-269 | and is written there |
| `Codec.ReadWriteShdr` | src/codec.rs:271-340 | a written section header reads back |
| `Codec.WriteReadShdr` | src/codec.rs:271-340 | a read section header is written back to its own bytes |
| `Records.ShdrRead` | src/codec.rs:271-307 | each of the ten fields is the integer at its literal gABI offset and width |
| `Records.ShdrWritten` | src/codec.rs:309-344 | and is written there |
| `Codec.ReadWriteDyn` | src/codec.rs:346-391 | a written dynamic entry reads back if and only if its tag fits the class's signed word |
| `Codec.WriteReadDyn` | src/codec.rs:346-391 | a read dynamic entry is written back to its own bytes |
| `Records.DynRead` | src/codec.rs:346-366 | the tag is the first word, signed, and the value the second |
| `Records.DynWritten` | src/codec.rs:368-392 | and they are written there |
| `Codec.ReadWriteEhdr` | src/codec.rs:54-200 | a written file header reads back with the escaped counts |
| `Codec.WriteReadEhdr` | src/codec.rs:127-144 | a read file header is written back to its own bytes if and only if the count fields are the ones the writer would choose |
| `Records.EhdrRead` | src/codec.rs:54-125 | each field of the file header is the integer at its literal gABI offset and width, behind the identification |
| `Records.EhdrReadable` | src/codec.rs:54-76 | a file header is read exactly when the magic, class and byte order are known ones and the file holds the class's 64 or 52 bytes |
| `Records.EhdrWrittenAt` | src/codec.rs:148-202 | and each field is written there, the counts escaped |
| `Bytes.GetPut` | src/ir.rs:22-62 | an integer stored in either byte order reads back |
| `Bytes.GetPutOther` | src/ir.rs:22-62 | a store leaves every disjoint field alone |
| `Bytes.GetLittle` | src/codec.rs:25-44 | a little-endian integer is the sum of its bytes times powers of 256, least first |
| `Bytes.GetBig` | src/codec.rs:25-44 | a big-endian one, most significant first |
| `Ir.NulEndUnique` | src/ir.rs:234-238 | the end of a string in a table is the first NUL from its offset |
| `GnuHash.HashPolynomial` | src/symbols.rs:45-51 | the wrapping hash is the polynomial in 33 modulo 2^32 |
| `GnuHash.BloomCovers` | src/symbols.rs:244-251 | the bloom filter passes every hashed symbol |
| `GnuHash.WalkRun` | src/symbols.rs:264-269 | a chain walk from any member of a bucket's run stops inside the run and finds the first match there if there is one |
| `GnuHash.LookupExact` | src/symbols.rs:239-270 | the GNU C library's lookup (bloom word chosen by masking, bucket, chain walk) never leaves its bucket's run and finds the first hashed symbol of a name exactly when there is one, when the number of bloom words is a power of two |
| `GnuHash.RemainderLookupExact` | src/symbols.rs:239-270 | a lookup that takes the remainder, as the builder does, is exact for any number of bloom words |
| `GnuHash.FilterCoversIff` | src/symbols.rs:244-251 | masking finds the bloom word of every hashed symbol of every table if and only if their number is a power of two |
| `GnuHash.ThreeWordsDeny` | src/symbols.rs:244-251 | a concrete table with three bloom words and one symbol, which the masking lookup denies |
| `GnuHash.ReachableIff` | src/symbols.rs:255-263 | every hashed symbol is reachable from its bucket if and only if none of them is symbol 0 |
| `GnuHash.SymbolZeroUnreachable` | src/symbols.rs:255-263 | with `symndx` 0 a table of one symbol denies having it |
| `GnuTable.Refill` | src/symbols.rs:239-270 | the in-place refill leaves exactly the specified bytes: header and tail kept, bloom words, buckets and chain filled; fails only when an index exceeds 32 bits |
| `GnuTable.ReadRebuilt` | src/symbols.rs:192-205 | the loader reads the filled table out of the rebuilt bytes, under the unchanged header |
| `SysvHash.BucketVisitsExactly` | src/symbols.rs:303-317 | following a chain strictly decreases the index, and a bucket's chain visits exactly the symbols from 1 to the last whose hash falls in that bucket, for any chain count |
| `SysvHash.MixIsGabi` | src/symbols.rs:53-64 | one step of the hash, with its masks and shifts, is the gABI's: s = (16h + c) mod 2^32, the low 28 bits of s with the four bits above them exclusive-ored into bits 4 to 7 |
| `SysvHash.HashOfGabi` | src/symbols.rs:53-64 | the hash of a name is that recurrence from 0, below 2^28, and the base-16 polynomial of the bytes whenever that is below 2^28 |
| `Bits.XorOp` | src/symbols.rs:60 | the exclusive or of two digits, stated bit by bit, is the machine operation |
| `SysvHash.SearchExact` | src/symbols.rs:303-317 | the loader's search finds a symbol of a name, other than symbol 0, exactly when there is one |
| `SysvHash.Refill` | src/symbols.rs:306-317 | the in-place rebuild leaves exactly the specified bytes |
| `SysvHash.ReadRebuilt` | src/symbols.rs:287-295 | the loader reads the filled buckets and chains out of the rebuilt bytes |
| `Reorder.Positions` | src/symbols.rs:218-226 | the index loop fills two arrays that are inverse permutations, `new2old` being the bucket order |
| `Reorder.ReorderRecords` | src/symbols.rs:323-329 | the in-place move leaves record `k` of the area the one that was at `new2old[k]`, and every other byte as it was |
| `Reorder.RecordMoved` | src/symbols.rs:228-236 | every record of the whole table is the one from its old index |
| `Relocs.RemapInfoFollows` | src/symbols.rs:356-371 | a rewritten `r_info` keeps its type bits, and names the new index if and only if that index fits (24 bits in ELF32) |
| `Relocs.RemapRelocs` | src/symbols.rs:344-373 | the in-place loop rewrites each record of a table as specified |
| `Relocs.RecordFollows` | src/symbols.rs:353-372 | a rewritten record keeps type, offset and addend |
| `RenamedRecords.RelocationRenamed` | src/symbols.rs:332-375 | after a rename record r of every `SHT_RELA` (24r, 12r) and `SHT_REL` (16r, 8r) section keeps its offset, addend and type at their literal places, and names the same symbol, renamed, with the same version |
| `RenamedRecords.SymbolPlaces` | src/symbols.rs:68-86 | symbol k stands at 24k or 16k, its name at the offset its first four bytes say, its version at 2k |
| `RenamedRecords.GnuHeaderPlaces` | src/symbols.rs:195-198 | the four header words of `.gnu.hash` in their order |
| `RenamedRecords.GnuOffsets` | src/symbols.rs:199-201 | the buckets start behind 16 bytes and the bloom words of 8 or 4 bytes, the chain behind the buckets |
| `RenamedRecords.GnuPlaces` | src/symbols.rs:236-270 | the table a loader searches is read word by word at those offsets |
| `RenamedRecords.SysvPlaces` | src/symbols.rs:283-296 | a usable `.hash` gives its two counts in its first two words and holds that many more |
| `SymbolNames.AppendReads` | src/symbols.rs:118-126 | an appended name reads back if and only if it has no NUL |
| `SymbolNames.RenamedFollow` | src/symbols.rs:104-126 | after the renames every symbol's name is what the map says, and the rest of every record is unchanged |
| `Rename.RelocationFollows` | src/symbols.rs:228-237 | through the GNU rebuild every relocation names the same symbol record and version entry as before |
| `Rename.GnuLookupExact` | src/symbols.rs:173-271 | the GNU C library's search of the rebuilt section over the reordered symbol table is exact, for a power of two of bloom words |
| `RenameOps.RenameDynamicSymbols` | src/symbols.rs:88-134 | in place: a missing section is reported; nothing changes when no name is in the map; otherwise it fails exactly when the names do not fit the string table or `.gnu.hash` is cut short, and names, order, versions, relocations and both tables are as specified when it succeeds |
| `RenameOps.NamesFit` | src/symbols.rs:115-125 | the names fit if and only if the string table and all new names but the last stay within 32-bit offsets |
| `RenameOps.RebuildGnuHash` | src/symbols.rs:173-271 | too small a section is an error, an empty table is left alone, otherwise the specified image and permutation |
| `RenameOps.RebuildSysvHash` | src/symbols.rs:273-319 | an unusable table is left alone, otherwise the specified image, hashes taken through `new2old` |
| `RenameTheorems.RenamedSymbol` | src/symbols.rs:228-237 | after a whole rename no symbol is lost or duplicated: old places are a permutation, and each symbol is the one from its old place, renamed as the map says, with its version |
| `RenameTheorems.RenamedRelocation` | src/symbols.rs:332-374 | after a whole rename every relocation keeps type, offset and addend and names the same, possibly renamed, symbol |
| `RenameTheorems.RenamedGnuLookup` | src/symbols.rs:88-134 | after a whole rename the GNU C library's `.gnu.hash` search finds any name exactly when a hashed symbol has it, for a power of two of bloom words |
| `RenameTheorems.RenamedSysvLookup` | src/symbols.rs:88-134 | after a whole rename the loader's `.hash` search finds any name exactly when a symbol other than symbol 0 has it, the table having one chain word per symbol |
| `Glob.GlobMatch` | src/autoformatelf.rs:624-647 | the loop terminates and is right whenever pattern or text has no `*`; it never reports a match that is none |
| `Glob.GlobDecidesMatching` | src/autoformatelf.rs:624-647 | with a `*` on at most one side the matcher decides the recursive meaning |
| `Glob.NeverOvermatches` | src/autoformatelf.rs:627-641 | a reported match is a match, whatever the pattern and the text |
| `Glob.PatternExactness` | src/autoformatelf.rs:628-631 | a pattern is matched rightly against every text if and only if it has no `*` |
| `Glob.TextExactness` | src/autoformatelf.rs:628-631 | a text is matched rightly by every pattern if and only if it has no `*` |
| `Glob.StarAgainstStar` | src/autoformatelf.rs:628-631 | pattern `*` and text `*a`: a match the loop denies |
| `Pool.StepInv` | src/autoformatelf.rs:388-400 | every interleaved step keeps the invariant that each index below the cursor is held by exactly one worker, once |
| `Pool.HeldOnce` | src/autoformatelf.rs:393-397 | no two workers ever hold the same item |
| `Pool.StepProgress` | src/autoformatelf.rs:393-397 | every step of a running worker brings the pool closer to its end |
| `Pool.ParMapAnySchedule` | src/autoformatelf.rs:377-409 | for any worker count and any schedule that lets the workers finish, each item is processed exactly once and the sorted results are the sequential ones |
| `Pool.ParMap` | src/autoformatelf.rs:377-409 | the result is the sequential `filter_map` |
| `Pool.PatchAllAnySchedule` | src/autoformatelf.rs:414-459 | for any schedule the merged result is Ok exactly when the sequential run is; then every file was patched exactly once and the list is a permutation of the sequential one; an error is that of a file that fails |
| `Pool.PatchAll` | src/autoformatelf.rs:414-459 | Ok exactly when no file fails, with the sequential multiset of missing dependencies |
| `Populate.RoundProgress` | src/autoformatelf.rs:139-174 | every round visits a new path or is the last, so the search ends over a finite universe |
| `Populate.DiscoverOnce` | src/autoformatelf.rs:143-145 | the visited paths are exactly the expanded ones, and none is expanded twice |
| `Populate.DiscoverComplete` | src/autoformatelf.rs:142-174 | every root is visited, every expanded item's libraries are recorded, and what those lead to is visited |
| `Populate.EntriesPicked` | src/autoformatelf.rs:151-161 | a directory's files are its shared objects that are no directory, each at its position among them in entry order; its directories are followed in that order if the flag is set |
| `Reachable.SearchExact` | src/autoformatelf.rs:142-174 | from the file system alone: an expanded item is a root, a directory in one expanded recursively, or a search path of a library an expanded one yields, with that one's flag; all such are visited; and the libraries are exactly those that expanded files, and shared objects in expanded directories, parse to |
| `Reachable.TrailFound` | src/autoformatelf.rs:142-174 | a shared object reached from a recursive root through directories is found unless one of those was first visited without recursion |
| `Reachable.FindsAllIff` | src/autoformatelf.rs:142-146 | the search finds every shared object under the recursive roots of every file system if and only if no root is recursive or every root is so on its first occurrence |
| `Reachable.RunFindsAllIff` | src/autoformatelf.rs:349-354 | for the roots of a run: if and only if it is not recursive, has no paths, or every library directory is also a path |
| `Reachable.LibraryLost` | src/autoformatelf.rs:349-354 | a concrete tree of three directories with a library at the bottom, its middle one also given as a library directory: the library is reached from the recursive path and not found |
| `Populate.FindEarliest` | src/autoformatelf.rs:178-184 | the first compatible provider is that of the earliest discovered library of that name and architecture |
| `Populate.Cache.Populate` | src/autoformatelf.rs:127-175 | for every worker count the cache gains exactly the sequential search's libraries, in its order |
| `Populate.Cache.ReadItem` | src/autoformatelf.rs:147-162 | the loop over sorted entries gives exactly those files and directories |
| `Populate.Cache.Find` | src/autoformatelf.rs:178-184 | the first listed provider with a compatible OS ABI |
| `Populate.DedupKeepsAll` | src/autoformatelf.rs:546-556 | every directory is kept exactly once, in the order of first occurrence |
| `Populate.DedupPaths` | src/autoformatelf.rs:546-554 | the loop with its set of seen directories computes that list |
| `DynStrings.SetReads` | src/ops.rs:119-129 | what is stored reads back if and only if it has no NUL |
| `DynStrings.SetAgain` | src/ops.rs:116-118 | storing the same string in its slot again changes nothing |
| `DynStrings.SetKeeps` | src/ops.rs:119-129 | a terminated string keeps its value if and only if the table grows or the string already has the bytes written wherever it meets them |
| `DynStrings.SharedTail` | src/ops.rs:121-126 | a string starting inside the reused slot keeps its value if and only if it starts past the bytes written or the new string has that tail |
| `DynStrings.SharedHead` | src/ops.rs:121-126 | a string running into the reused slot keeps its value if and only if the slot already held the new string |
| `DynStrings.ClearKeeps` | src/ops.rs:119-129 | a string that meets none of the bytes written keeps its value |
| `DynStrings.SetInPlace` | src/ops.rs:119-129 | the slot is overwritten byte by byte exactly when the string fits, and the table grows otherwise |
| `Rpath.SetRpath` | src/rpath.rs:111-154 | the two loops and the insertion give the specified array and table |
| `Rpath.ReadPath` | src/rpath.rs:14-30 | the scan returns the first `DT_RUNPATH`, else the last `DT_RPATH`, before `DT_NULL` |
| `Rpath.PathReads` | src/rpath.rs:20-29 | before the first null, the string of the first entry of tag 29, or else of the last of tag 15, or else none |
| `Rpath.SetThenRead` | src/rpath.rs:111-154 | setting, then reading, returns the value set, under both tag policies |
| `Rpath.SetTags` | src/rpath.rs:123-136 | after a set an entry of tag 29 is there unless the old tag is forced, and then none is and one of tag 15 is |
| `Rpath.SetTwice` | src/rpath.rs:111-154 | setting the same value again changes nothing |
| `Rpath.SetKeepsOthers` | src/rpath.rs:136-152 | every other tag keeps its entry, and the string it names keeps its value if and only if it already has the bytes written into a reused slot wherever it meets them |
| `Rpath.AddThenRead` | src/rpath.rs:39-47 | what was added is read after what was there |
| `Rpath.RemoveThenRead` | src/rpath.rs:32-36 | after a removal nothing is read |
| `Rpath.KeptExactly` | src/rpath.rs:32-37 | exactly the entries of tags other than 15 and 29 are left, each at its position among them |
| `FilterDirs.PartsOfJoin` | src/rpath.rs:80-89 | splitting joined components gives them back |
| `FilterDirs.PartsOfAdded` | src/rpath.rs:39-47 | the path read after an addition splits into the components there were, followed by the new one |
| `FilterDirs.WalkKeeps` | src/rpath.rs:80-89 | exactly the components that are relative, or allowed and accepted by the probe after it was asked about the earlier ones, are kept, each once and in order |
| `FilterDirs.FilterSplits` | src/rpath.rs:80-89 | the filtered path splits into exactly those components |
| `FilterDirs.KeepAll` | src/rpath.rs:174-179 | accepting everything only drops empty components |
| `Needed.AddThenNeeded` | src/ops.rs:170-182 | an added library is read first, before those that were there |
| `Needed.LibsListed` | src/ops.rs:364-376 | the names read are the readable strings of the entries of tag 1 before the first null, each at its position among them |
| `Needed.RemoveThenNeeded` | src/ops.rs:184-198 | a removed library is read no more, the others keep their order |
| `Needed.ReplaceThenNeeded` | src/ops.rs:200-219 | a replaced library is read under its new name at its old place |
| `Needed.SonameSetThenRead` | src/ops.rs:148-168 | a soname that was set is read back, and setting it again changes nothing |
| `Needed.RemoveNeeded` | src/ops.rs:184-198 | dropping the entries at the collected offsets drops exactly the entries that name the library |
| `Needed.ReplaceNeeded` | src/ops.rs:200-219 | one appended string, and every matching entry repointed at it |
| `Loader.MemOf` | src/verify.rs:56-76 | loads that do not overlap determine the byte at every address of each of them |
| `Shift.ShiftedInput` | src/layout.rs:380-387 | every condition on a layout's input survives moving all file offsets up |
| `Outcome.KeptSizesMatch` | src/layout.rs:212-219 | every section left in place has the size its header states if and only if the guard on empty sections passes over none whose size changed |
| `Outcome.RldMapReached` | src/layout.rs:708-730 | adding `DT_MIPS_RLD_MAP_REL` to the tag's own slot address gives the address of `.rld_map`, modulo the class's word |
| `Outcome.FinalRldMap` | src/layout.rs:697 | both layouts compute that tag from the final addresses |
| `Outcome.MapFollows` | src/layout.rs:711-731 | after either layout the tag's own slot plus its value is the final address of `.rld_map` modulo 2^64 or 2^32 |
| `Relayout.AppendResultAppends` | src/layout.rs:168 | the file the append path returns is one the append theorems speak of |
| `Relayout.PrependResultPrepends` | src/layout.rs:153-163 | the file the prepend path returns is one the prepend theorems speak of |
| `Relayout.MeasureSegments` | src/layout.rs:504-520 | the loop yields the largest alignment, the highest segment end and the lowest load address |
| `Reclaim.AppendIsRun` | src/layout.rs:540-542 | every append that succeeds starts its region at the program header table, as the runs above require |
| `Stub.LayoutsStart` | src/layout.rs:380-397 | both layouts start from an image with the same sections, names and entry |
| `FilterDirs.Filter` | src/rpath.rs:80-89 | the loop keeps and asks about exactly the specified directories |
| `Needed.AddNeeded` | src/ops.rs:170-182 | in place: one appended string and one entry in front |
| `Needed.SetSoname` | src/ops.rs:148-168 | in place: untouched for executables; otherwise the first soname entry, or a new one, points at the stored string |
| `Rpath.AddRpath` | src/rpath.rs:39-47 | in place: the path read, joined with the new directory, and set |
| `Rpath.RemoveRpath` | src/rpath.rs:32-36 | in place: exactly the path entries are gone |
| `Symbols.ReorderSections` | src/symbols.rs:228-237 | the reorder changes the symbol table, the version array and the relocation tables as specified, and no other section |
| `Populate.Cache.Fold` | src/autoformatelf.rs:165-172 | each parsed library is listed under its name and architecture after those found before, and its directories are followed next |
| `Serialize.RenderIsRendered` | src/serialize.rs:106-163 | spans that do not overlap are all found in the output, and every byte outside them is the moved input's or zero |
| `Overlay.PadByte` | src/layout.rs:535-536 | the byte past the appended region is covered by nothing, so it is the input's byte there, or zero past the input's end |
| `Overlay.DescribedEndIs` | src/layout.rs:46-56 | what an appended file's headers describe ends exactly with its region |
| `Overlay.AppendOverlay` | src/layout.rs:41-59 | the next run sees an overlay in an appended file if and only if the region's planned end lies before the input's end and the input has a non-zero byte there |
| `OverlayFailure.ReclaimMakesOverlay` | src/layout.rs:536 | two runs from the file of a concrete program: patched with a library and a stub, then with a shorter stub. The first output has no overlay, the second one has, a byte of the first stub |
| `StringFailure.SharedTailRenames` | src/ops.rs:121-126 | a concrete file whose library name is the tail of its run path: setting a shorter run path makes the program ask for another library |
| `SampleFiles.BothLayoutsAccept` | src/layout.rs:322-550 | a concrete program, read from its file and given a library and a stub, meets the input conditions of both layouts with all of its sections moving |
| `Overlay.AppendKeepsAppending` | src/layout.rs:41-43 | without reclaiming the padding byte is zero and never taken for an overlay |

## Left out

- 64-bit sums: offsets, addresses and sizes are unbounded naturals, so saturation and overflow on hostile headers are not modelled; the codec still rejects a field that does not fit its class.
- Borrowed section contents: the writer recognises an unmodified section by its pointer into the input; the model drops a span when its bytes equal the input's at its place, which the pointer test implies.
- Text encoding: names and strings are byte strings; the checks that they are valid UTF-8 are not modelled.
- Error messages are collapsed to their kinds, and what an operation leaves in the image after reporting an error is stated only where the method says so.
- A writer that fails returns no file; bytes already streamed to its output are not modelled.
- Fallbacks for files without section headers: the string table and interpreter recovered from segments are not part of the image.
- The OS ABI and ABI version are kept only inside the identification bytes.
- `page_size_for`: the page size is a parameter of the layouts.
- Symbol renames require that the five sections they look for are not relocation tables and do not hold the section names (`Symbols.Separate`), and that version arrays, chains and relocation indices cover the symbol table; the code panics otherwise.
- `rebuild_sysv_hash` with fewer chain words than symbols: `SysvHash.BucketVisitsExactly` says what is visited; the lookup by name is stated for one chain word per symbol, as the gABI requires.
- Which file names are shared objects', what parsing a file yields and the order of directory entries are parameters of the file system (`Populate.World`).
- Directory symlink cycles: the search is over a finite set of paths.
- File system probing, memory mapping, temporary files, command line parsing, `main.rs`, `patch.rs`, `cli.rs`: input and output only.
- `ldcache::build` up to the note's bytes, `rpath::shrink`'s machine test, `parse_dlopen_json`, `patch_one`'s wiring: they call into the file system; the probe of `FilterDirs` and the item functions of `Pool` stand for them.
- OS ABI tables, execstack flags, `no_default_lib`, `add_debug_tag`, `clear_symbol_version`, `set_interpreter`: one-field edits that would add easy members.
- File space of a dropped region: the number of loads is proved bounded, reuse of its bytes is not claimed, since stale entries still raise the region's address.
- `Repatch.Chain`: every run of a chain is asked for the append conditions of its own edited input; that they follow from those of the first file is proved for the programs of `SampleFiles.FilesExist`, not in general.
- The stub's machine code and the bun runtime: only the layout facts they rely on are modelled.
- MIPS64's unusual `r_info` layout is not modelled.
