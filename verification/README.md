# go2xp in Dafny

go2xp takes a 32-bit Windows executable whose Go program contains the go2xp shim and rewrites it so that it loads on an
older Windows. Imports of functions the target lacks are taken out of the import table, and their slots in the import
address table (IAT) hold the addresses of polyfills instead. Two hooks of the shim do the same for functions that are
looked up at run time. This project models the rewriting and the hooks, and proves what they promise.

Verify it with `dafny verify dfyconfig.toml`.

## How the model is organised

| files | what they model |
|---|---|
| `Bytes`, `Align` | machine integers, little-endian words, C strings, the mask form of rounding up |
| `Image`, `RawImage`, `Appending` | headers and section table of a PE32 file, the class `Raw` that edits them in place, `AddSection` |
| `ImportReader` | `reader`: the map from addresses to file offsets and the walk over the import table |
| `Runs`, `Grouping`, `Dropped`, `Layout`, `Rebuild`, `RoundTrip` | `rebuildImports`: grouping, cutting into runs, layout, strings, and reading the result back |
| `ShimTable`, `TableGen`, `TableContents`, `HookTables` | GO2XPTBL: the scanner, the generator `gen_table.py`, and both readers of its output |
| `Profiles`, `Redirecting`, `Patcher`, `Verifier`, `PatchTheorems`, `TableTheorems`, `Twice` | `Patch` and `Verify`, and what ties them together |
| `Loader`, `LoadTheorems` | a loader over an arbitrary resolver, and what patching means for it |
| `Examples`, `ExampleImage`, `ExamplePatches`, `ExampleAnswer` | small complete files: one that meets every hypothesis, with its patched form byte by byte, and inputs for which a property fails |
| `Hooks`, `GetProc`, `LoadLib`, `Completion` | the assembly hooks as programs over registers and a stack |
| `NtCreate` | `polyNtCreateFile` over a handle table, and `copyUTF16` |

Code that updates state is imperative here too: `Raw`, `Reader`, the register machines and the process with its handles
are classes, and the loops of the original are loops. Each method is proved against a function, and the theorems are
about those functions. Reads and writes of files, the JSON profile and the command line are parameters and results.

The main results:

* **Loading preserves meaning** (`LoadTheorems`). A byte below the new section, outside the redirected slots and the
  header fields that the patch rewrites, is the same after loading the original and the patched image, whatever the
  resolver answers, if and only if it does not lie in the slot of an import by the empty name. A redirected slot holds
  its polyfill's address under every resolver if and only if no survivor's slot overlaps it; any slot holds the answer
  for an import if and only if the last survivor over it asks for the same thing, and the shim's own slots do. For an
  import whose slot overlaps no other, `ImportFate` says which it is by the table's records and the profile. The
  resolver is asked for the same things in the same order, without the redirected ones, if and only if no survivor is
  imported by the empty name.
* **Round trip** (`PatchTheorems`). Reading the patched file gives the surviving imports in order, each numbered by its
  run, if and only if all their names lie below 2^31. The rebuilt table is the unique split into maximal runs, and its
  size and the place of every name follow from the survivors.
* **Verify and fixed point** (`PatchTheorems`, `TableTheorems`, `Twice`). Whatever table a patched image is read with, it
  passes `Verify` if and only if the patcher, given that table, would leave all remaining imports alone, and patching
  it again changes no import if and only if it would redirect none of them. The table is the original one if the patch
  writes nowhere into it and nothing in front of it can become one (`Undisturbed`, a condition on the input). Then
  `Patch` run on its own result succeeds if and only if the headers have room for two section headers, and changes no
  import.
* **The table** (`ShimTable`, `TableContents`, `HookTables`). The scan finds the lowest valid table on every byte
  string. What the generator writes is read back by the patcher, and found by the hooks, wherever the linker places it,
  if and only if no two strings share a symbol.
* **The hooks** (`GetProc`, `LoadLib`, `Completion`, `NtCreate`). Each refines a short specification with the stack
  balanced and the saved registers restored, and each answer is also stated case by case, in terms of what the caller
  passes and what memory holds. The library hook never stores outside its buffer; packets and handles are conserved over
  every run of calls.
* **The decisions** (`Profiles`, `Patcher`, `Verifier`). When a file opens, when Patch succeeds, what happens to an
  import, and what Verify lists are stated in terms of the file's format, the table's records and the profile's entries.

Where the code does not do what one might expect, the model follows the code. One lemma states the exact condition,
another gives an input for which it fails:

| property that can fail | exact condition | input |
|---|---|---|
| both address maps agree | `Image.MapsAgreeIff` | `Examples.FileOffMapsUnbacked` |
| SizeOfImage covers all sections after AddSection | `Appending.SizeOfImageCoversIff` | `Examples.SizeOfImageMayNotCover` |
| dropped DLLs are no longer imported | `Dropped.DroppedAreGoneIff` | `ExamplePatches.DroppedMayStillBeImported` |
| the survivors read back | `PatchTheorems.ReadBackIff` | `ExamplePatches.HighNamesAreLost` |
| a patched image passes Verify and is a fixed point | `PatchTheorems.VerifiesIff`, `PatchTheorems.UnchangedIff` | `ExamplePatches.PatchCanDisturbTheTable` |
| a byte is the same after loading | `LoadTheorems.LoadingPreserved` | `ExamplePatches.EmptyNameBecomesOrdinalZero` |
| the loader asks for the same things | `LoadTheorems.RequestsKept` | `ExamplePatches.EmptyNameBecomesOrdinalZero` |
| redirected slots survive loading | `LoadTheorems.RedirectedSlotLoadedIff` | `ExamplePatches.OverlapOverwritesPolyfill` |
| generated strings are intact and read back | `TableContents.GeneratedReadsBackIff` | `TableContents.DotAndUnderscoreCollide` |
| patcher and hook choose the same polyfill | `HookTables.HookAgreesIff` | `HookTables.OneNameTwoPolyfills` |

The condition for Verify speaks of the table the patched image is read with. `Undisturbed` says of the input alone when
that is the original table. Its part about candidates is exact: every byte in front of the new section's data is
foreseen from the input (`TableTheorems.Foreseen`), so whether a patched image has any candidate in front of the table is
a property of the input (`TableTheorems.NoCandidateIff`). For a candidate that does arise it asks for a reason in bytes
the patch leaves alone why it cannot be parsed; `TableTheorems.TableStaysIff` is the exact form, about the patched bytes.

The design notes say that the run-time `GetProcAddress` and `LoadLibraryExW` are always hooked and that a lookup matches
the DLL as well as the name. The code hooks them only when the table has their polyfill, and matches the name alone; the
model does what the code does.

## Model

| member | source | states |
|---|---|---|
| Align.AlignUpExact | internal/pe/patch.go:143-148 | the mask form gives the least multiple of a power of two not below its argument, exactly when the addition does not wrap around; when it wraps the result is 0 |
| Align.LeastMultipleIsLeast | internal/patch/patch.go:354-359 | no smaller multiple of the alignment reaches the argument |
| Image.ParsesIff | internal/pe/patch.go:22-48 | a file parses, and to these header fields, exactly when it has the marks, counts and fields of a PE32 file in their places |
| Image.MaxVEndIsMax | internal/pe/patch.go:163-165 | the running maximum bounds every section end in memory and is one of them |
| Image.MaxRawEndIsMax | internal/pe/patch.go:166-168 | the running maximum bounds every section end in the file and is one of them |
| Image.FirstRawIsMin | internal/pe/patch.go:157-162 | the running minimum is the lowest raw pointer of a section with data |
| Image.NextIsBehind | internal/pe/patch.go:173-174 | the next section's place is aligned and lies behind every section, in memory and in the file |
| Image.OffInIff | internal/pe/pe.go:146-158 | the reader's map on any section table: the first section that covers the address decides, by its raw data and the length of the file |
| Image.FileOffIff | internal/pe/patch.go:134-141 | the patcher's map on any section table: the first section whose rounded extent covers the address decides |
| Image.BackedMaps | internal/pe/pe.go:146-158 | an address with file data maps to that data under the reader's map and under the patcher's |
| Image.FileOffAgrees | internal/pe/patch.go:134-141 | whenever the reader maps an address the patcher maps it to the same offset; the reader maps exactly the addresses with file data |
| Image.MapsAgreeIff | internal/pe/patch.go:134-141 | the two maps agree if and only if the address has file data or lies in no section's rounded extent |
| Examples.FileOffMapsUnbacked | internal/pe/patch.go:134-141 | a well-formed file and an address without file data that the patcher maps to the start of the headers |
| RawImage.Raw.constructor | internal/pe/patch.go:39-47 | the fields are those that the header bytes hold |
| RawImage.Raw.SetU16 | internal/pe/patch.go:63 | the two bytes read as the value, the length and every other byte are unchanged |
| RawImage.Raw.SetU32 | internal/pe/patch.go:64 | the four bytes read as the value, the length and every other byte are unchanged |
| RawImage.Raw.SetVersions | internal/pe/patch.go:67-72 | all four version fields are set; nothing outside the fields changes; the headers stay as they are |
| RawImage.Raw.ClearDynamicBase | internal/pe/patch.go:76-83 | bits 0x60 of the characteristics are cleared, the old value returned, nothing else changed |
| RawImage.Raw.ZeroCheckSum | internal/pe/patch.go:86 | the checksum is zero, nothing else changed |
| RawImage.Raw.SetDataDir | internal/pe/patch.go:92-96 | the directory entry is set, nothing else changed |
| RawImage.Raw.ReadSections | internal/pe/patch.go:107-122 | the section table as it is in the bytes now |
| Image.NameCut | internal/pe/patch.go:124-131 | a section's name is what lies in front of the first NUL |
| RawImage.Raw.FileOff | internal/pe/patch.go:134-141 | the loop returns the offset of the first section whose rounded extent holds the address, in 32-bit arithmetic |
| RawImage.Raw.Extents | internal/pe/patch.go:157-169 | the loop finds the lowest raw pointer and both highest ends |
| RawImage.Raw.PlaceData | internal/pe/patch.go:177-181 | the file grows exactly as far as needed, the data lies at its place, the rest of what it grew by is zero, no other byte changes |
| RawImage.Raw.WriteExtents | internal/pe/patch.go:184-191 | name and extents are written, nothing else |
| RawImage.Raw.WriteRest | internal/pe/patch.go:192-196 | the twelve reserved bytes are zero, the characteristics written, nothing else changed |
| RawImage.Raw.WriteSectionHeader | internal/pe/patch.go:183-196 | all forty bytes: padded name, extents, zeros, characteristics; they read back as the section; nothing else changes |
| RawImage.Raw.WriteHeaders | internal/pe/patch.go:183-200 | header, section count and image size are written, nothing else changes |
| RawImage.Raw.AddSection | internal/pe/patch.go:153-202 | fails, changing nothing, exactly when 40 bytes of header room are missing; else the file reads as the old one with one more section that holds the data, and returns its address |
| Appending.NewDataPlaced | internal/pe/patch.go:173-181 | every address of the new section maps to the byte of the data it stands for |
| Appending.OldAddressMaps | internal/pe/patch.go:173-174 | every address below the new section maps as before |
| Appending.OldByteKept | internal/pe/patch.go:153-202 | every address that was mapped maps to the same offset and the same byte |
| Appending.SizeOfImageCovers | internal/pe/patch.go:200 | with room below 2^32 the new image size is the rounded end of the new section and covers all |
| Appending.SizeOfImageCoversIff | internal/pe/patch.go:200 | the new image size covers every section if and only if its rounded end does not wrap around |
| Examples.SizeOfImageMayNotCover | internal/pe/patch.go:200 | AddSection called on a well-formed file: the SizeOfImage it writes does not cover the sections |
| Appending.SoundKept | internal/pe/patch.go:153-202 | AddSection keeps an image well formed: aligned, apart in memory and in the file, behind the headers |
| Appending.SectionsExtended | internal/pe/patch.go:173-191 | a section placed by the two roundings extends a well-formed section table |
| ImportReader.Reader.Off | internal/pe/pe.go:146-158 | the loop computes the map from addresses to offsets, and every offset it returns lies in the file |
| ImportReader.Reader.U32 | internal/pe/pe.go:160-166 | the word at a mapped address, None when four bytes are not there |
| ImportReader.Reader.CStr | internal/pe/pe.go:168-178 | the bytes up to the first NUL, None when there is none |
| ImportReader.Reader.ReadThunks | internal/pe/pe.go:201-218 | the inner loop lists the imports of one descriptor, addresses wrapping around at 2^32; it is endless exactly when it would come back to its first entry |
| ImportReader.Reader.ReadEntry | internal/pe/pe.go:209-216 | one lookup entry: ordinal by bit 31, else the name two bytes behind the address |
| ImportReader.Reader.Imports | internal/pe/pe.go:180-221 | the outer loop lists the imports of all descriptors up to the empty one, likewise |
| ImportReader.TableEndIff | internal/pe/pe.go:184-192 | the descriptor that ends the table: no lookup table, and name and slots zero or unreadable |
| ImportReader.ThunksShape | internal/pe/pe.go:201-218 | all imports of a descriptor carry its DLL and number, names hold no NUL, an ordinal only without a name |
| ImportReader.DescriptorsShape | internal/pe/pe.go:180-221 | imports come in descriptor order, one DLL per descriptor |
| ImportReader.ThunksEnd | internal/pe/pe.go:201-218 | when the sections end below the top of the address space the inner loop ends |
| ImportReader.DescriptorsEnd | internal/pe/pe.go:180-221 | and so does the outer loop |
| ImportReader.ImportsEnd | internal/pe/pe.go:180-221 | reading the import table of such an image terminates |
| ImportReader.EndlessMeans | internal/pe/pe.go:201-218 | the inner loop is endless if and only if every address of its round holds an entry to follow |
| ImportReader.RoundIsRound | internal/pe/pe.go:202 | after 2^30 steps both loops are back at their first address |
| Runs.KeptMembers | internal/patch/patch.go:221-223 | an import survives exactly when it is listed and its slot is not redirected |
| Runs.KeptPlaces | internal/patch/patch.go:214-229 | the survivors are the imports at exactly the places whose slot is not redirected, each once and in order |
| Runs.KeptOrdered | internal/patch/patch.go:214-229 | filtering keeps descriptor order |
| Runs.FlatSuffix | internal/patch/patch.go:240-255 | the pieces from one on are the survivors from its position on |
| Runs.RunSplitUnique | internal/patch/patch.go:231-255 | the split into maximal runs is unique, so the loop's result is the only one possible |
| Runs.RunIndexOfPiece | internal/patch/patch.go:246-254 | every import of piece i lies in run i |
| Runs.NumberedIsRenumbered | internal/patch/patch.go:246-254 | numbering by piece is numbering by run |
| Runs.RenumberedIdempotent | internal/patch/patch.go:231-255 | splitting what was already split leaves every descriptor one run |
| Grouping.GroupByDescriptor | internal/patch/patch.go:212-229 | one group per descriptor in order, holding its survivors in order; together they are all survivors |
| Grouping.SplitGroup | internal/patch/patch.go:246-254 | the loop cuts a group into maximal runs of adjacent slots, FirstThunk being the first slot |
| Grouping.SplitGroups | internal/patch/patch.go:240-255 | the pieces of all groups are the maximal runs of all survivors; the DLL of every group without survivors is reported |
| Grouping.GroupBoundary | internal/patch/patch.go:241-245 | runs never join across groups |
| Dropped.DroppedMeans | internal/patch/patch.go:242-245 | a DLL is reported exactly when some descriptor of that name loses all its imports |
| Dropped.DroppedPlaces | internal/patch/patch.go:240-245 | the report names the DLLs of exactly the descriptors that lose all their imports, each once and in order |
| Dropped.DroppedAreGoneIff | internal/patch/patch.go:75-80 | nothing is imported from the reported DLLs if and only if every DLL that keeps an import keeps one in each of its descriptors |
| Layout.PlanInts | internal/patch/patch.go:263-275 | where each lookup table and the strings start |
| Layout.IntStartsApart | internal/patch/patch.go:270-275 | the lookup tables follow the descriptors without overlap |
| Layout.AppendEntry | internal/patch/patch.go:280-288 | the string with its hint and NUL is appended, padded to an even length, and nothing else |
| Layout.Intern | internal/patch/patch.go:289-293 | every string seen so far has one intact copy at an even offset, where it occurred first; copies do not overlap and account for the whole buffer |
| Layout.InternDlls | internal/patch/patch.go:278-293 | exactly the DLL names of the pieces are interned behind the tables, each once |
| Layout.InternNames | internal/patch/patch.go:294-312 | exactly the function names are interned behind the DLL names, each once; earlier bytes stay |
| Layout.FillDescriptor | internal/patch/patch.go:318-323 | the five words of a descriptor are written and no others |
| Layout.FillInt | internal/patch/patch.go:324-336 | the lookup table of a piece is written with its terminator and nothing else |
| Layout.FillPieces | internal/patch/patch.go:316-338 | all pieces are in place at the end, the empty descriptor and the strings untouched, and kept counts the imports |
| Layout.BuildSection | internal/patch/patch.go:257-340 | the section describes exactly the pieces, with each name at its computed place and with exactly the computed size; its parts are disjoint, its strings intact and even |
| Rebuild.PlannedSectionRVA | internal/patch/patch.go:342-352 | the precomputed address is the one AddSection uses |
| Rebuild.SizeOfSplit | internal/patch/patch.go:257-312 | the size of the section, the number of descriptors and the place of every name follow from the imports it is built of |
| Rebuild.RebuildImports | internal/patch/patch.go:200-340 | a complete import directory for the survivors, of exactly the computed size, their number, the reported DLLs and the size of the descriptor array |
| RoundTrip.ReadEntry | internal/patch/patch.go:328-331 | a lookup entry reads back as the import it was written for if and only if that is by ordinal or its name lies below 2^31 |
| RoundTrip.ReadPiece | internal/pe/pe.go:201-218 | a piece's lookup table reads back in full length, and as its imports with their slots if and only if their names lie below 2^31 |
| RoundTrip.ReadPieces | internal/pe/pe.go:180-221 | likewise the descriptors, as the pieces, numbered by position |
| RoundTrip.ReadBack | internal/patch/patch.go:200-340 | a loaded directory reads back as the survivors, in order, numbered by run, if and only if all names lie below 2^31 |
| ShimTable.IndexMagic | internal/pe/pe.go:93-97 | the first occurrence of the magic at or behind the start, or the length of the file |
| ShimTable.ReadRecord | internal/pe/pe.go:117-135 | one record with both names read through the address map, None when either is bad or empty |
| ShimTable.ReadTableAt | internal/pe/pe.go:111-138 | all records of the table at an offset, None when its count is zero or too large or a record is bad |
| ShimTable.ReadTable | internal/pe/pe.go:89-109 | the loop that skips eight bytes a hit gives the same answer as trying every offset |
| ShimTable.TableIff | internal/pe/pe.go:111-138 | a place holds a valid table, with these records, exactly when magic, version, a count that fits and that many records with non-empty names are there |
| ShimTable.CandidateIff | internal/pe/pe.go:93-101 | a candidate is the magic with a complete header of version 1 |
| ShimTable.MagicHasNoBorder | internal/pe/pe.go:98-99 | two occurrences of the magic never overlap |
| ShimTable.ScanMeaning | internal/pe/pe.go:88-109 | on every byte string: the table of the lowest valid candidate; an error when there are only invalid ones; no table and no error when there is none |
| ShimTable.LowestIsFound | internal/pe/pe.go:88-109 | the lowest valid table is the one returned |
| ShimTable.TableReread | internal/pe/pe.go:111-138 | a valid table that is untouched in a changed file, names included, is the same valid table there |
| TableGen.SymsCollide | shim/gen_table.py:61-62 | two names share a symbol exactly when they differ at most in dots against underscores |
| TableGen.Generate | shim/gen_table.py:65-92 | the directives written are the table, both lists and every string once |
| TableGen.WriteList | shim/gen_table.py:80-84 | a list's directives: the items and a final null |
| TableGen.WriteString | shim/gen_table.py:85-91 | a string's directives: its NUL-padded text in groups of eight |
| TableGen.WriteStrings | shim/gen_table.py:85-91 | every string of the set exactly once |
| TableContents.BlockContents | shim/gen_table.py:70-92 | linked, the table symbol holds header and records, the list symbols their pointers and a null, and every other symbol only strings |
| TableContents.StringsIntactIffNoCollision | shim/gen_table.py:61-62 | every string is linked intact if and only if no two share a symbol |
| TableContents.DotAndUnderscoreCollide | shim/gen_table.py:61-62 | two names that share a symbol and are not both linked intact |
| TableContents.GeneratedRowsNamed | shim/gen_table.py:72-76 | every name of a row and every list item is among the strings written |
| TableContents.RowParses | internal/pe/pe.go:117-135 | a generated record parses as the row it was generated from |
| TableContents.GeneratedTableParses | shim/gen_table.py:65-92 | wherever the linker puts things, the patcher's parser returns exactly the generator's rows in order |
| TableContents.GeneratedReadsBackIff | shim/gen_table.py:65-92 | the patcher reads back the table and the list items if and only if no two strings written share a symbol |
| TableContents.GeneratedTableParsesIff | shim/gen_table.py:65-92 | when every list item is the name of a row, the table alone is read back if and only if no two strings share a symbol |
| TableTheorems.NameKept | internal/pe/pe.go:122-129 | a name no patch writes into reads the same in the patched file |
| TableTheorems.BecomesRight | internal/patch/patch.go:116-176 | bytes of a patched image that follow from the input: untouched ones, all header fields and the new section header, the redirected slots, padding |
| TableTheorems.Foreseen | internal/patch/patch.go:116-176 | every byte of a patched image in front of the new section's data follows from the input |
| TableTheorems.QuietIff | internal/pe/pe.go:93-101 | in front of the new section's data a patched image has no candidate for a table at a place if and only if one of its twelve foreseen bytes differs from magic and version |
| TableTheorems.NoCandidateIff | internal/pe/pe.go:93-101 | in front of a table no patch writes into, whether a patched image has a candidate is a property of the input |
| TableTheorems.BarrenStays | internal/pe/pe.go:111-121 | an untouched candidate without entries, or with a name below the image base, is no table afterwards either |
| TableTheorems.TableStaysIff | internal/pe/pe.go:89-109 | a table no patch writes into stays the lowest valid one if and only if at every place in front of it that is not quiet the patched image has no valid table |
| TableTheorems.TableStays | internal/pe/pe.go:89-109 | if the input is `Undisturbed`, scanning the patched image finds the same table |
| TableTheorems.PatchedOpens | internal/pe/pe.go:51-86 | if no patch writes into the table, the patched image opens, with the surviving imports and with this table or one in front of it |
| TableTheorems.PatchPassesVerify | internal/patch/verify.go:10-58 | a patched image whose input is `Undisturbed` passes Verify with the same profile; `PatchTheorems.VerifiesIff` is the exact condition |
| TableTheorems.PatchingIsIdempotent | internal/patch/patch.go:122-176 | if the input is `Undisturbed`, patching again redirects nothing, keeps every import, and each descriptor is already one run; `PatchTheorems.UnchangedIff` is the exact condition |
| Twice.PatchableAgain | internal/patch/patch.go:83-186 | if the input is `Undisturbed` and has room for the new section twice, the patched image meets what Patch asks of its input |
| Twice.AcceptableAgain | internal/pe/patch.go:170-172 | if the input is `Undisturbed`, a second patch is accepted exactly when the original headers have room for two section headers |
| Twice.PatchTwice | internal/patch/patch.go:83-186 | Patch run on its own result: under both conditions the second run succeeds exactly when the headers have that room, redirects and drops nothing, and its result imports the same |
| ExamplePatches.SmallIsPatchable | internal/patch/patch.go:83-186 | a complete image in several variants, all of which Patch accepts |
| ExamplePatches.SmallIsUndisturbed | internal/pe/pe.go:88-109 | without the trap it meets the condition of the theorems above |
| ExamplePatches.SmallIsTwiceReady | internal/patch/patch.go:83-186 | and can be patched twice |
| ExamplePatches.PatchCanDisturbTheTable | internal/patch/patch.go:157 | two images whose patched forms are read with another table, because the polyfill address completes a magic; they fail Verify, and a second patch is refused for one and redirects an own slot of the other |
| ExamplePatches.PatchPlain | internal/patch/patch.go:83-186 | Patch run twice on a file: the result passes Verify and is a fixed point; the DLL reported as dropped is still imported from |
| ExamplePatches.PatchOthers | internal/patch/patch.go:83-186 | Patch run on four files: two results fail Verify, one is refused and one changed by a second patch; one makes the loader ask for something else; in one a polyfill's address is overwritten |
| ExamplePatches.DroppedMayStillBeImported | internal/patch/patch.go:242-245 | an opened file and a target for which a DLL is reported as dropped although another descriptor still imports from it |
| ExamplePatches.HighNamesAreLost | internal/patch/patch.go:328-331 | a file with a section at 2^31, of no patched form of which the survivors read back |
| ExamplePatches.PatchHigh | internal/patch/patch.go:83-186 | Patch accepts that file, and its result does not import what survived |
| ExampleAnswer.KnownAnswer | internal/patch/patch.go:83-186 | what every patched form of one file holds, byte by byte: header fields, new section header, slot, and the rebuilt directory |
| Profiles.EqFold | internal/patch/patch.go:56-73 | equality but for the case of ASCII letters, letter by letter |
| Profiles.Missing | internal/patch/patch.go:42-54 | some whole-DLL entry is the DLL but for case, or the DLL's own list has the name exactly |
| Profiles.BuildMaps | internal/patch/patch.go:95-105 | an address is an own slot exactly when some record names it; a function's polyfill is that of the last record that provides it |
| Profiles.OwnSlotsMeans | internal/patch/patch.go:102-104 | every record's own slot is in the set, and nothing else |
| Profiles.PolyMapLast | internal/patch/patch.go:98-101 | a function has a polyfill exactly when some record provides it, and then that of the last one |
| Profiles.DecideImport | internal/patch/patch.go:126-151 | own slots left alone, missing functions redirected or refused, hooks redirected when their polyfill exists |
| Profiles.DecisionMeans | internal/patch/patch.go:126-151 | when an import is left alone, refused or redirected, and where to, in terms of the table's records and the profile's entries |
| Profiles.BadSlotsMeans | internal/patch/patch.go:152-160 | the redirected slots are those of the imports decided to be redirected |
| Redirecting.RedirectImports | internal/patch/patch.go:122-161 | succeeds exactly when nothing is refused and every slot maps to the file; then only redirected slots changed, and each byte of them is that of the last redirection covering it |
| Redirecting.RedirectPlaces | internal/patch/patch.go:152-160 | the report names exactly the redirected imports, each once and in order, with where they go |
| Redirecting.SoundAfterSlots | internal/patch/patch.go:152-160 | writing slots leaves headers and section table as they are |
| Patcher.Open | internal/pe/pe.go:51-86 | versions, imports and table, or an error when any of them cannot be read |
| Patcher.OpensIff | internal/pe/pe.go:51-86 | a file opens, and to these fields, imports and table, exactly when its headers have the format, the import directory can be walked, and the lowest valid table is that one, or there is none and no candidate for one |
| Patcher.PatchHeader | internal/patch/patch.go:117-120 | versions set, relocation flags clear, checksum zero, nothing else changed |
| Patcher.Rewrite | internal/patch/patch.go:116-185 | slots, import directory, new section and data directory are in place, and no byte outside them and the header fields changes |
| Patcher.Patch | internal/patch/patch.go:83-186 | succeeds exactly when the image reads, has a table, polyfills for all that is missing, mapped slots and header room; the result is the rewritten image |
| Patcher.AcceptableIff | internal/patch/patch.go:83-175 | when Patch succeeds, in terms of the table's records, the profile's entries, the section table and the header room |
| Verifier.Verify | internal/patch/verify.go:10-58 | None when the file cannot be read, otherwise exactly the problems there are, each as often as its import is listed |
| Verifier.ProblemsListed | internal/patch/verify.go:20-50 | the same of the list: wrong versions, relocation flag, imports the target lacks, and hooks not in place, in terms of records and entries |
| Verifier.PassesIff | internal/patch/verify.go:10-58 | any opened image passes exactly when all four versions are the profile's, bit 6 of the characteristics is clear and every import is one the patcher would leave alone |
| Verifier.VerifyImports | internal/patch/verify.go:40-50 | the loop lists the problems of every import that is not an own slot |
| Verifier.CleanIffLeft | internal/patch/verify.go:40-50 | Verify finds no fault with an import exactly when the patcher would leave it alone |
| Verifier.AllClean | internal/patch/verify.go:40-50 | a list of imports has no problem exactly when the patcher would leave each alone |
| Verifier.FlagIsClear | internal/patch/verify.go:26-28 | the flag the patcher clears is the one Verify tests |
| PatchTheorems.PatchedIsSuccess | internal/patch/patch.go:83-186 | every success of Patch meets the hypothesis of the theorems |
| PatchTheorems.ReadBackIff | internal/patch/patch.go:326-335 | reading the patched image gives as many imports as survive, and exactly these, in order, numbered by run, if and only if their names lie below 2^31 |
| PatchTheorems.ImportsReadBack | internal/patch/patch.go:163-176 | with names below 2^31, reading the patched image gives the survivors, in order, numbered by run |
| PatchTheorems.Reopened | internal/pe/pe.go:51-86 | what opening the patched image returns, field by field |
| PatchTheorems.PatchedFields | internal/patch/patch.go:117-120 | the version, checksum and characteristics fields of a patched image, at their offsets, bit by bit |
| PatchTheorems.RemainingAreLeft | internal/patch/patch.go:122-161 | everything still imported is something the patcher decided to leave alone |
| PatchTheorems.VerifiesIff | internal/patch/verify.go:10-58 | a patched image that opens, with whatever table, passes Verify if and only if the patcher, given that table, would leave all that remains alone |
| PatchTheorems.UnchangedIff | internal/patch/patch.go:122-176 | patching it again redirects no slot if and only if it would redirect none of what remains, and if and only if no import changes |
| PatchTheorems.PatchedSizeCoversIff | internal/pe/patch.go:200 | a patched image's SizeOfImage covers all its sections if and only if the new one's rounded end does not wrap around |
| PatchTheorems.PatchedSizeCovers | internal/pe/patch.go:200 | so it does when the new section lies below 2^31 |
| PatchTheorems.PatchedIsSound | internal/patch/patch.go:171-176 | the patched image is again well formed, if one more section can be counted and placed in memory and in the file |
| Loader.WalksAgree | internal/pe/pe.go:180-221 | the loader binds exactly the imports the reader lists, in order and to the same slots |
| Loader.BindPieces | internal/patch/patch.go:316-338 | the loader's walk over a rebuilt directory gives the bindings of the survivors |
| Loader.LastOutside | internal/patch/patch.go:152-160 | leaving out bindings changes what is stored last only in their slots |
| Loader.LoadedIsLast | internal/patch/patch.go:126-130 | after loading a byte is that of the answer to the last binding over it, or the mapped one when there is none |
| Loader.SameLoadIff | internal/patch/patch.go:126-130 | two lists of bindings leave the same byte under every resolver if and only if the last binding over it is the same, or there is none and the mapped bytes are the same |
| Loader.KeptIffNothingStored | internal/patch/patch.go:152-160 | a byte keeps its mapped value under every resolver if and only if no binding stores into it |
| LoadTheorems.BindingsMatchImports | internal/pe/pe.go:180-221 | the bindings of an opened image correspond to its imports |
| LoadTheorems.PatchedBindings | internal/patch/patch.go:163-176 | the bindings of the patched image are those of the survivors |
| LoadTheorems.RebuiltIffNoEmptyName | internal/patch/patch.go:326-335 | bindings are rebuilt unchanged exactly when none is by the empty name |
| LoadTheorems.RequestsKept | internal/patch/patch.go:122-185 | the resolver is asked the same, in order, without the redirected imports, if and only if no survivor is by the empty name |
| ExamplePatches.EmptyNameBecomesOrdinalZero | internal/patch/patch.go:326-331 | a complete image with an import by the empty name: reader, loader, and the loader on every patched form, which does not load its slot alike |
| LoadTheorems.MappedSame | internal/patch/patch.go:116-185 | before binding, the mapped image, headers included, is unchanged below the new section outside the redirected slots and rewritten header fields |
| LoadTheorems.LoadingPreserved | internal/patch/patch.go:116-185 | a byte below the new section, outside the redirected slots and rewritten header fields, is the same after loading either image, under every resolver, if and only if the last import stored over it is not by the empty name |
| LoadTheorems.UntouchedHeaders | internal/patch/patch.go:116-120 | in front of the first section's data a patch writes nothing but the named header fields |
| LoadTheorems.RedirectedSlotMapped | internal/patch/patch.go:157 | in the patched file each byte of a redirected slot is that of its polyfill's address, the last redirection winning where slots overlap |
| LoadTheorems.RedirectedSlotLoadedIff | internal/patch/patch.go:152-160 | after loading, under every resolver, such a byte is still that of the polyfill's address if and only if no survivor's slot covers it |
| ExamplePatches.OverlapOverwritesPolyfill | internal/patch/patch.go:221-223 | a complete image with slots two bytes apart: in no patched form does the polyfill's address survive loading under every resolver |
| LoadTheorems.SurvivorAnswersIff | internal/patch/patch.go:152-160 | after loading, under every resolver, a byte is that of the answer for an import if and only if the last survivor over it asks for the same thing through the same slot |
| LoadTheorems.OwnSlotReachesExport | internal/patch/patch.go:126-130 | each byte of a slot that some record names as own is that of the answer for the function it was imported as, if no later survivor's slot covers it |
| LoadTheorems.ImportFate | internal/patch/patch.go:122-161 | every import whose slot overlaps no other: after loading, under every resolver, its slot holds the last polyfill's address if the target lacks it or it is hooked, it is not an own slot and some record provides it; otherwise the resolver's answer |
| LoadTheorems.FileByteSurvivesIff | internal/patch/patch.go:152-160 | a byte of the patched file survives loading under every resolver if and only if no survivor's slot covers it |
| Hooks.NameUnique | shim/shim_windows_386.s:662-670 | at most one string is stored at an address |
| GetProc.Cpu.Prologue | shim/shim_windows_386.s:593-598 | three registers saved and a zero pushed |
| GetProc.Cpu.Epilogue | shim/shim_windows_386.s:701-706 | registers restored, return address and two arguments popped |
| GetProc.Cpu.CallReal | shim/shim_windows_386.s:634-643 | the real function is asked with the hook's own arguments and the stack is as before |
| GetProc.Cpu.Fail | shim/shim_windows_386.s:694-699 | error 127 is set, the result is zero, the stack as before |
| GetProc.Cpu.Compare | shim/shim_windows_386.s:662-670 | the compare loop answers exactly whether the string at SI is the one at DI |
| GetProc.Cpu.FindOverride | shim/shim_windows_386.s:608-628 | the list loop answers exactly whether the name is an override |
| GetProc.Cpu.FindEntry | shim/shim_windows_386.s:648-679 | the table loop finds the first entry with a polyfill and the name, if there is one |
| GetProc.Cpu.AskFirst | shim/shim_windows_386.s:599-643 | whether the real function is asked first and has answered, and where a miss goes |
| GetProc.Cpu.Serve | shim/shim_windows_386.s:645-699 | the table's answer, else the real function's or failure |
| GetProc.Cpu.GetProcAddress | shim/shim_windows_386.s:592-706 | result and calls are those of the cases; arguments popped, EBX, ESI and EDI restored on every path |
| GetProc.LookupIsFirst | shim/shim_windows_386.s:653-679 | the entry served is the first with a polyfill and that name; none is served only when there is none |
| GetProc.ResolutionMeans | shim/shim_windows_386.s:592-706 | the result and the calls in every case: missing library, forced mode or override, any other name, each with a first entry for the name or none |
| GetProc.AnsweredOnce | shim/shim_windows_386.s:592-706 | these cases leave no second answer |
| HookTables.GeneratedTableServes | shim/gen_table.py:70-79 | the generated table in memory is a table as the lookup requires it, with the generator's names and polyfills |
| HookTables.GeneratedListsRead | shim/gen_table.py:80-84 | the generated lists in memory end where the hooks stop and hold the generator's items |
| HookTables.GeneratedServesIff | shim/gen_table.py:65-92 | the hooks find table, lists and every string at its symbol if and only if no two strings share a symbol |
| HookTables.LookupByName | shim/shim_windows_386.s:653-679 | the lookup over memory is the lookup by name |
| HookTables.HookAgreesIff | internal/patch/patch.go:98-101 | patcher and hook choose the same polyfill for every entry of any table if and only if the first record for a name and the last for each of its keys have the same one |
| HookTables.OneNameTwoPolyfills | internal/patch/patch.go:98-101 | a table of two records for which they do not |
| HookTables.HookAgreesIffOnePerName | internal/patch/patch.go:98-101 | in a table that lists no function twice, they agree if and only if no name has two polyfills |
| LoadLib.Cpu.CompareFolded | shim/shim_windows_386.s:483-498 | the loop answers exactly whether the ASCII-folded wide name is the list's string |
| LoadLib.Cpu.FindMissing | shim/shim_windows_386.s:477-501 | the loop answers exactly whether the name is in the list of missing DLLs |
| LoadLib.Cpu.CallSystemDirectory | shim/shim_windows_386.s:509-514 | the API gets the buffer and its size in units, and may leave anything in it |
| LoadLib.Cpu.Store | shim/shim_windows_386.s:538 | one unit inside the buffer is written |
| LoadLib.Cpu.CopyName | shim/shim_windows_386.s:525-544 | the name with its NUL is appended inside the buffer, or given up for a separator or for its length |
| LoadLib.Cpu.FromSystem32 | shim/shim_windows_386.s:509-544 | the path or the reason there is none, for any length the API returns |
| LoadLib.Cpu.CallReal | shim/shim_windows_386.s:554-563 | the real loader gets path, file and masked flags |
| LoadLib.Cpu.FailTooLong | shim/shim_windows_386.s:545-551 | error 206 is set and the result is zero |
| LoadLib.Cpu.Choose | shim/shim_windows_386.s:474-544 | the label reached is the one the plan leads to |
| LoadLib.Cpu.Finish | shim/shim_windows_386.s:545-563 | result and calls of each label |
| LoadLib.Cpu.LoadLibraryExW | shim/shim_windows_386.s:468-569 | result and calls are those of the cases; arguments popped, registers restored, every store inside the buffer |
| LoadLib.TailOfName | shim/shim_windows_386.s:527-542 | a bare name is copied in full with its NUL or not at all; any other name is never copied |
| LoadLib.TailMeans | shim/shim_windows_386.s:524-542 | what is copied of any name, terminated or not, by the first place where it stops |
| LoadLib.PlanDelivers | shim/shim_windows_386.s:468-569 | the result and the calls in every case: no name, missing, without the flag, no directory, too long a directory, and by the first place where the name stops |
| LoadLib.BareNameLoadsFromSystemDirectory | shim/shim_windows_386.s:465-467 | with the SYSTEM32 flag a bare name that is not missing is loaded by exactly directory, one backslash, name, NUL, or not at all, and precisely when it fits |
| LoadLib.OtherNameIsNeverBuilt | shim/shim_windows_386.s:531-537 | a name with a separator is never put behind the directory |
| LoadLib.SentinelIffMissing | shim/shim_windows_386.s:477-504 | the sentinel is returned without a load exactly when the folded name is in the list |
| LoadLib.SearchFlagsCleared | shim/shim_windows_386.s:555-556 | flag bits 0x1F00 are always cleared, and no others |
| Completion.FilledReadsBack | shim/shim_windows_386.s:751-763 | the caller reads back the entry and the count, and nothing else changed |
| Completion.FilledReports | shim/shim_windows_386.s:751-763 | the five words the caller finds, wherever it asked for them, and everything else as it was |
| Completion.Cpu.Dequeue | shim/shim_windows_386.s:730-748 | the plain call as the hook uses it: one packet or none, results in the scratch words |
| Completion.Cpu.Fill | shim/shim_windows_386.s:751-765 | the entry and the count of one are written for the caller |
| Completion.Cpu.PushArguments | shim/shim_windows_386.s:732-743 | the five arguments: port, addresses of the three scratch words, timeout |
| Completion.Cpu.Take | shim/shim_windows_386.s:727-770 | TRUE exactly when the count is not zero, the port delivers and a packet waits, a failed one included; then the head is taken and its words are with the caller, else nothing changes; the plain call gets the caller's port and timeout |
| Completion.Cpu.GetQueuedCompletionStatusEx | shim/shim_windows_386.s:722-776 | the same with six arguments popped and the registers restored |
| Completion.PacketsConserved | shim/shim_windows_386.s:708-721 | over every run, the entries reported are the packets that arrived, in order, and exactly the rest still waits; TRUE once for each |
| Completion.Poll | shim/shim_windows_386.s:722-776 | a caller that calls the hook in a loop and reads its entries from memory gets exactly the packets that arrived, in order, and the rest still waits |
| NtCreate.Process.Native | shim/poly_windows_386.go:319-320 | the real call opens one handle or none |
| NtCreate.Process.CloseResult | shim/poly_windows_386.go:347-348 | the handle is closed and the caller's variable zeroed |
| NtCreate.Process.PolyNtCreateFile | shim/poly_windows_386.go:311-357 | status, requests, open handles and the caller's handle variable in every case; a second request exactly for the requests worth one; the caller's attributes are not written |
| NtCreate.RetriesIff | shim/poly_windows_386.go:321-336 | which requests are worth a second try, condition by condition and bit by bit |
| NtCreate.SingleComponent | shim/poly_windows_386.go:328-336 | the loop refuses exactly two dots and the names that hold a backslash, a slash, a colon or a NUL |
| NtCreate.HandleIffSuccess | shim/poly_windows_386.go:341-356 | a success leaves exactly one new handle, a failure none, and a success of the second try is no reparse point |
| NtCreate.AgainDiffers | shim/poly_windows_386.go:337-340 | the second request differs from the first only in bit 12 of the attributes cleared and bit 21 of the options set |
| NtCreate.HandlesConserved | shim/poly_windows_386.go:311-357 | over every run there is one open handle per success that was not closed, none per refusal, and each is accounted for |
| NtCreate.OpenAndClose | shim/poly_windows_386.go:311-357 | a caller that opens and closes in a loop has one open handle per success it was told of, less the ones it closed |
| NtCreate.CopyUtf16 | shim/poly_windows_386.go:413-424 | the units that fit, each from two bytes, a NUL, and the rest of the buffer untouched |

## Left out

- File, JSON and command line handling: contents and profile are inputs, the check of the profile's subsystem version included; both reads of the input file see the same bytes.
- The internals of debug/pe: a file parses when it has the MZ mark, an optional header with at least two data directories, and the section table directly behind it; other checks of that package are not modelled.
- PE32+ images, the export reader, the audit and lazy-import reports, relocations, bound imports and the IAT data directory, which the patcher leaves alone.
- Go panics: slices out of range and section tables that wrap around are excluded by the well-formedness of the input image instead of being modelled as panics. Host integers are 64 bits wide.
- Descriptors without entries are not reported by the reader, as in the code, so they are not rebuilt either.
- File bytes behind the last section's data may be overwritten by the new section; no theorem claims that they are kept.
- Result.Redirected is kept as a list of imports and addresses in import order; its formatting and sorting are not modelled.
- The field sizeOfImage of Raw, which nothing reads.
- Patcher.Patch: asks for sections as a linker writes them, file data under the slots to be redirected, and room for the new section below 2^32.
- RawImage.Raw.constructor: takes headers that parse and start at offset 64 or later; the error returns of OpenRaw are those of `ParseHeader`, which `Patch` has met before.
- RawImage.Raw.AddSection: asks for sections as a linker writes them; the source accepts overlapping, unaligned or wrapping sections and then overwrites what lies in the way.
- ImportReader.Reader.ReadThunks: an endless walk ends with an outcome of its own, which `Open` reports as an error; the original goes on until memory is exhausted.
- ImportReader.Reader.Imports: likewise.
- Layout.FillInt: asks that the section ends at 2^32 at the latest, where addresses would wrap around.
- Layout.FillPieces: likewise.
- Layout.BuildSection: likewise.
- Rebuild.RebuildImports: likewise, with the size computed from the survivors.
- Redirecting.RedirectImports: asks for file data under the redirected slots; without it the source writes to whatever the address maps to.
- Patcher.Rewrite: asks for the same as Patcher.Patch.
- Patcher.Open: checks of debug/pe beyond those of `ParseHeader` are not modelled.
- TableContents.StringsIntactIffNoCollision: says what overwriting directives would give; an assembler that refuses overlapping data, which is not part of this model, reports the same collisions earlier.
- LoadTheorems.LoadingPreserved: like all results about what a patched image imports it asks for names below 2^31, the exact condition of `PatchTheorems.ReadBackIff`; the loader maps headers and section data as the section table says, reads all lookup tables before it stores an answer, and initialisation code and forwarders are behind the resolver.
- TableTheorems.PatchPassesVerify: `Undisturbed` is a sufficient condition on the input for the original table to be read; the exact condition of `PatchTheorems.VerifiesIff` speaks of the table that is read.
- TableTheorems.PatchingIsIdempotent: likewise, with `PatchTheorems.UnchangedIff`.
- Twice.PatchTwice: likewise, and asks for room for the new section twice.
- TableGen.Generate: the strings come in an open order, since the order of directives has no meaning to the linker; the assembler's rejection of colliding directives appears as contents that are overwritten. The callback trampolines and stubs that the generator also writes are not modelled.
- GetProc.Cpu.GetProcAddress: strings and table lie in memory that is only read; the real function is any function of its two arguments.
- LoadLib.Cpu.LoadLibraryExW: the name does not lie inside the hook's own buffer, and the stack does not touch the end of the address space.
- Completion.Cpu.GetQueuedCompletionStatusEx: timeouts, errors and the alertable flag are one parameter, whether the port delivers a packet; the stack holds fewer than 2^30 words.
- NtCreate.CopyUtf16: the source must hold the units to be copied, otherwise Go panics.
- NtCreate.Process.PolyNtCreateFile: the kernel's replies are parameters; a name's buffer is as long as its length says.
- The other polyfills (constant results, class-number maps, thin system call wrappers) add only easy members.
