# Section recovery of `arm_bin2elf`

`arm_bin2elf.py` turns a raw ARM firmware dump into an ELF file. Before it writes any ELF, it
works out where the sections of the image lie:

1. It finds `.ARM.exidx`, the exception index table. It looks for runs of 8-byte entries
   that pass a strict validity test. It scans with a 16-byte and then an 8-byte alignment.
   If both fail, it falls back to the end of a zero-filled block.
2. It places `.text` at the base address, up to `.ARM.exidx`.
3. It places `.data` after `.ARM.exidx`, up to the end of the file.
4. It places `.bss` and any numbered `.bssN` sections after `.data`, up to the end of the
   address space.
5. It lists the sections by address. Zero-sized sections come first at a shared address.
   Sections past the 32-bit address limit are dropped.
6. It trims each size so that no section overlaps the next one.
7. It derives each section's alignment and its offset in the file.

Steps 2-4 keep any address or length the user gave with `--section NAME@ADDR:LEN` and fill
in only missing values. Step 6 may still reduce a given length, to the room before the next
section or below the address-space ceiling.

This project models that logic in Dafny, together with the command-line side:

- `parse_section_param`, including Python's `int(x, 0)`;
- the merging of the `--section` arguments;
- the widening of the address space in `main`.

How the Python maps onto the model:

- The option object `po` is the class `Layout.Options`.
- Its two dictionaries, which keep insertion order, are `OrderedDict.ODict` values.
- The firmware file is the byte sequence `img` of its contents: a seek and read become
  indexing, and a short read happens at the end of the sequence.
- Every exception that ends a run is an `Outcomes.Error`, carried in a `Result` or `Outcome`.

Most loops are methods, each proved equal to a recursive specification function. The
properties are lemmas about those functions. The scanners are generic in the entry test,
so that their proofs never unfold the arithmetic of the validity check.

One reading of the `.ARM.exidx` search has, for instance, a table at offset 0 of the image
reported at offset 0. The code never reports offset 0, for a different reason in each scanner,
and the model follows the code:

- The index-table scanners reject a candidate at offset 0. Their entry test needs a function
  address strictly between the base and the candidate, which leaves no room at offset 0
  (`ExidxEntry.InCode`, used by `ExidxEntry.IsProperEntry`).
- The empty-section fallback reports the end of a zero block, never its start, so its result
  always lies past the start of the search (`EmptyScan.EmptyFound`).

## Model

| member | source | states |
|---|---|---|
| Prel31.ToU32 | arm_bin2elf.py:113 | the `c_uint` conversion gives a value in [0, 2^32) congruent to its input modulo 2^32 |
| Prel31.SignExtend | arm_bin2elf.py:102-106 | the result lies in [-2^(bits-1), 2^(bits-1)) |
| Prel31.SignExtendCongruent | arm_bin2elf.py:102-106 | the result differs from the input by a multiple of 2^bits |
| Prel31.SignExtendUnique | arm_bin2elf.py:102-106 | it is the only value in that range congruent to the input, so the bit arithmetic is a two's-complement reading |
| Prel31.SignExtendSmall | arm_bin2elf.py:102-106 | a value below the sign bit is unchanged |
| Prel31.Prel31ToAddr | arm_bin2elf.py:109-113 | a converted prel31 field is a 32-bit unsigned address |
| Prel31.Prel31ToAddrIsSignExtend | arm_bin2elf.py:109-113 | the address is the reference plus the 31-bit sign-extended offset, truncated to 32 bits |
| Prel31.Prel31Offset | arm_bin2elf.py:112 | a 31-bit field with bit 30 clear is a forward offset of itself; with bit 30 set, it is that value minus 2^31 |
| Prel31.Prel31ToAddrNoWrap | arm_bin2elf.py:109-113 | without wrap-around, bit 30 clear points at or after the reference and bit 30 set points before it |
| ExidxEntry.ReadU32 | arm_bin2elf.py:159-161 | a 4-byte read succeeds exactly when four bytes remain at the offset |
| ExidxEntry.IsProperEntry | arm_bin2elf.py:116-169 | a bad first word (zero, bit 31 set, outside `.text` or misaligned) rejects the entry; EXIDX_CANTUNWIND accepts it; an inline entry is accepted exactly when bits 30-28 are clear; an out-of-line entry is accepted only when it points, word aligned, into one of the two `.ARM.extab` windows at a readable word designating code; the only error is a negative seek, for candidates in the first 0x100 bytes; conversely, an out-of-line entry with a good first word is accepted whenever its table entry lies word aligned in a window at or after the base and the word read there designates code |
| ExidxEntry.VerdictIgnoresImageUnlessOutOfLine | arm_bin2elf.py:125-147 | verdicts on CANTUNWIND and inline entries do not depend on the image contents |
| ExidxEntry.SeekErrorExactly | arm_bin2elf.py:152-159 | the validator raises exactly when an out-of-line entry with a good first word points, word aligned, into an `.ARM.extab` window below the base address |
| ExidxScan.ProperEntryTestSeekErrorsOnly | arm_bin2elf.py:194 | the entry test a scan uses fails only with a negative seek |
| ExidxScan.CandPosIsMultiple | arm_bin2elf.py:183-216 | the k-th candidate is at `start + k * align` |
| ExidxScan.RunEntries | arm_bin2elf.py:186-197 | the inner loop counts the leading run of accepted entries, stops at the first rejected entry or at end of file, and reports which |
| ExidxScan.TryCandidate | arm_bin2elf.py:186-209 | a match has at least one entry, room after it, and valid padding |
| ExidxScan.MatchEntries | arm_bin2elf.py:186-209 | a matching candidate has exactly `count` accepted entries, then a rejected one, then padding that is all zeros |
| ExidxScan.LastMatch | arm_bin2elf.py:209-214 | the remembered match is the last matching candidate before the scan stops |
| ExidxScan.ScanNotFound | arm_bin2elf.py:217-221 | the scan returns (-1, 0) exactly when no candidate before the stopping one matches and none raised |
| ExidxScan.ScanFound | arm_bin2elf.py:209-222 | a reported table is on the candidate grid and is a match; its length is 8 times its entry count; no later candidate matched |
| ExidxScan.ScanSeekErrors | arm_bin2elf.py:172-222 | the scan fails only with a negative seek |
| ExidxScan.CountEntries | arm_bin2elf.py:186-197 | the inner loop computes the run of accepted entries |
| ExidxScan.CheckCandidate | arm_bin2elf.py:186-209 | one outer iteration computes that candidate's verdict |
| ExidxScan.DetectExidx | arm_bin2elf.py:172-222 | the scanner returns the last match before the stop, (-1, 0) if none, or the error |
| EmptyScan.ZeroSet | arm_bin2elf.py:239-240 | "0 in the set and one element" means the block is all zeros |
| EmptyScan.DetectEmptyExidx | arm_bin2elf.py:225-249 | the fallback scanner computes the end of the first run of zero blocks |
| EmptyScan.EmptyNotFound | arm_bin2elf.py:247-248 | it returns (-1, 0) exactly when no full block is all zeros |
| EmptyScan.EmptyFoundShape | arm_bin2elf.py:234-246 | a result is the end of the last block in the first run of zero blocks |
| EmptyScan.EmptyFound | arm_bin2elf.py:237-249 | a reported offset lies past the start, inside the image, on the grid, and right after a zero block |
| EmptyScan.EmptyOnZeroImage | arm_bin2elf.py:234-246 | on an image all zeros from the start, the result is the end of the last full block |
| OrderedDict.PutValid | arm_bin2elf.py:272 | assigning a key keeps the key list free of duplicates |
| Layout.ExidxPlacementInImage | arm_bin2elf.py:258-271 | a detected `.ARM.exidx` lies inside the image, at an offset and with a length that are multiples of 8 |
| Layout.ExidxNotFoundExactly | arm_bin2elf.py:259-271 | "no matches found" is raised exactly when both scans and the fallback find nothing |
| Layout.LocateExidx | arm_bin2elf.py:258-271 | the 16-byte scan, the 8-byte scan and the fallback, in that order |
| Layout.SettledExidx | arm_bin2elf.py:252-279 | settling adds only `.ARM.exidx` and changes no other entry; it fails exactly when no address was given and the search failed |
| Layout.ExidxDefaults | arm_bin2elf.py:259-279 | a detected address is base plus the found offset, inside the image, and the found length keeps it inside; a given address without a length gets 16 bytes |
| Layout.SettleExidx | arm_bin2elf.py:252-283 | the tables become the settled ones, or stay as they were on failure |
| Layout.RecordExidx | arm_bin2elf.py:272-279 | records a known search outcome into the tables |
| Layout.SettledText | arm_bin2elf.py:295-309 | adds only `.text`; fails exactly when it has no address and `.ARM.exidx` is within 16 bytes of the base |
| Layout.TextReachesExidx | arm_bin2elf.py:301-309 | a default `.text` starts at the base, and a default size ends it where `.ARM.exidx` starts |
| Layout.SettleText | arm_bin2elf.py:286-312 | the tables become the settled ones, or stay as they were on failure |
| Layout.SettledData | arm_bin2elf.py:320-340 | adds only `.data` |
| Layout.DataFollowsExidx | arm_bin2elf.py:327-338 | a default `.data` starts at the end of `.ARM.exidx`, and a default size ends it at the end of the file |
| Layout.SettleData | arm_bin2elf.py:315-343 | the tables become the settled ones |
| Layout.BssChainGrows | arm_bin2elf.py:380-392 | the `.bssN` loop only adds addresses, only for numbered `.bss` names that have a size |
| Layout.BssPlaced | arm_bin2elf.py:355-378 | after the `.bss` step, `.bss` has an address and a size, and the chain starts from it |
| Layout.BssKeepsOverrides | arm_bin2elf.py:346-395 | sizes gain at most `.bss`; addresses gain only `.bss` and numbered `.bss` names that have a size; nothing given is changed |
| Layout.BssDefaults | arm_bin2elf.py:361-375 | a default `.bss` starts where `.data` ends; a default size runs to the end of the address space, or is 0 when `.bss` starts past it |
| Layout.ChainLinks | arm_bin2elf.py:380-392 | each `.bssN` without an address starts where the previous numbered `.bss` (or `.bss`) ends |
| Layout.BssChained | arm_bin2elf.py:380-392 | the same, for the whole settled size table |
| Layout.SettleBss | arm_bin2elf.py:346-395 | the tables become the settled ones |
| Layout.SettledExidxValid | arm_bin2elf.py:272-277 | settling `.ARM.exidx` keeps both tables free of duplicate keys |
| Layout.SettledTextValid | arm_bin2elf.py:302-309 | the same for `.text` |
| Layout.SettledDataValid | arm_bin2elf.py:328-338 | the same for `.data` |
| Layout.BssChainValid | arm_bin2elf.py:380-392 | the same for the `.bssN` loop |
| Layout.SettledBssValid | arm_bin2elf.py:361-392 | the same for the whole `.bss` step |
| SectionOrder.InsertAscends | arm_bin2elf.py:402 | inserting into a strictly ascending list keeps it strictly ascending and adds exactly the new value |
| SectionOrder.AscendingValues | arm_bin2elf.py:402 | `sorted(set(values))` is strictly ascending and holds exactly the address values |
| SectionOrder.CutAt | arm_bin2elf.py:403-406 | the loop stops at the first address past the limit |
| SectionOrder.CutMembers | arm_bin2elf.py:402-406 | the addresses visited are exactly those up to the limit |
| SectionOrder.GroupMembers | arm_bin2elf.py:408-417 | one address's pass lists exactly the sections at that address that are zero-sized (or not) |
| SectionOrder.GroupsMembers | arm_bin2elf.py:402-417 | the order lists exactly the sections whose address was visited |
| SectionOrder.GroupsDistinct | arm_bin2elf.py:402-417 | no section is listed twice |
| SectionOrder.GroupsInOrder | arm_bin2elf.py:402-417 | earlier entries have lower addresses, or the same address and zero size first |
| SectionOrder.AppendZeroSized | arm_bin2elf.py:408-412 | the first inner loop appends the zero-sized sections at the address, in table order |
| SectionOrder.AppendOthers | arm_bin2elf.py:414-417 | the second inner loop appends the remaining sections at the address, in table order |
| SectionOrder.GetSectionsOrder | arm_bin2elf.py:398-418 | the method computes the specified order |
| SectionOrder.OrderShape | arm_bin2elf.py:398-418 | each section with an address up to the limit is listed exactly once and no other; addresses never decrease; at one address zero-sized sections come first |
| SectionSizes.UpdateSectSizes | arm_bin2elf.py:478-500 | the reverse pass leaves addresses alone and yields the specified sizes, or fails with the specified error |
| SectionSizes.SizesFromSucceeds | arm_bin2elf.py:481-492 | the pass succeeds exactly when every section fits (a non-negative gap, and a non-negative room under the limit) |
| SectionSizes.SizesFromFailure | arm_bin2elf.py:483-492 | a failure comes from the last-listed section that does not fit, with the error that depends on where it is |
| SectionSizes.SizesOutcome | arm_bin2elf.py:478-500 | for the whole pass: success exactly when all fit; otherwise, the error of the last section in address order that does not fit |
| SectionSizes.SizedLayout | arm_bin2elf.py:478-500 | after a successful pass every listed section has a size; each ends by the next start; the last ends by `base + addrspacelen + 1`; every one ends by `limit + 1 - 16`; given sizes only shrink; new ones are non-negative; unlisted sections are untouched |
| SectionSizes.SizedByRoom | arm_bin2elf.py:478-500 | after a successful pass each listed section's size is its given size when that fits the room up to the next start and the ceiling, and that room otherwise |
| SectionSizes.LayoutOfSizes | arm_bin2elf.py:493-500 | the same facts, from the per-section results of the pass |
| SectionPlacement.LargestAlignDivides | arm_bin2elf.py:453-454 | halving stops at the largest power of two up to the start that divides the value |
| SectionPlacement.NaturalAlignIsLargest | arm_bin2elf.py:452-454 | a section's alignment is a power of two up to 32, divides its address and size, and is the largest such |
| SectionPlacement.HalveUntilDivides | arm_bin2elf.py:453-454 | one halving loop computes that power |
| SectionPlacement.GetSectionsAlign | arm_bin2elf.py:444-458 | every listed section, and nothing else, gets its natural alignment |
| SectionPlacement.GetSectionsPos | arm_bin2elf.py:461-475 | every listed section, and nothing else, gets `max(0, addr - base)`; that is its distance from the base when it starts at or after it, and 0 otherwise |
| Converter.SettledAll | arm_bin2elf.py:561-564 | after the four settle steps, the address table holds every earlier name plus `.ARM.exidx`, `.text`, `.data` and `.bss` |
| Converter.SettledAllValid | arm_bin2elf.py:561-564 | the settle steps keep the tables free of duplicate keys |
| Converter.SettleSections | arm_bin2elf.py:561-564 | the four settle steps in turn, stopping at the first failure |
| Converter.Reconcile | arm_bin2elf.py:566-576 | order, size pass, alignments and offsets; the addresses are kept; it fails exactly when the size pass does, with its error; otherwise the order is the address order of the input tables, the new sizes are exactly what the size pass makes of the input sizes, the order holds each in-limit section once by address, the sizes make them fit, and the alignments and offsets are the natural ones |
| Converter.Place | arm_bin2elf.py:575-576 | alignments and offsets for exactly the listed sections |
| Converter.Bin2Elf | arm_bin2elf.py:552-576 | stops with the settle error when settling fails; otherwise everything `Converter.Reconcile` states, taken from the settled tables: the settled addresses, the size-pass error on failure, and on success the address order of the settled tables, exactly the sizes the size pass makes of the settled sizes, and the placement |
| SectionParam.ParseInt0 | arm_bin2elf.py:597-600 | a literal `int(x, 0)` accepts is non-negative; a rejected one raises an invalid-literal error |
| SectionParam.DigitsRoundTrip | arm_bin2elf.py:597-600 | reading a number's digits back in its base gives the number |
| SectionParam.DigitsShape | arm_bin2elf.py:594 | written digits are characters the address pattern accepts, with no leading zero |
| SectionParam.HexRoundTrip | arm_bin2elf.py:597-600 | `0x` literals are read back exactly |
| SectionParam.BinRoundTrip | arm_bin2elf.py:597-600 | `0b` literals are read back exactly |
| SectionParam.DecRoundTrip | arm_bin2elf.py:597-600 | decimal literals are read back exactly |
| SectionParam.LeadingZeroRejected | arm_bin2elf.py:597-600 | a decimal literal with a leading zero is rejected unless it is all zeros |
| SectionParam.RunEnd | arm_bin2elf.py:594 | a greedy character class ends within the string |
| SectionParam.RunEndAt | arm_bin2elf.py:594 | the greedy run ends at the first character outside the class |
| SectionParam.OptionalNumber | arm_bin2elf.py:594 | an optional `@ADDR` or `:LEN` group advances the match only forwards |
| SectionParam.ParseSectionParam | arm_bin2elf.py:590-600 | an argument fails only for lacking a name or for an invalid literal |
| SectionParam.NumberGroupIn | arm_bin2elf.py:594 | a separator followed by a hex literal is captured as that literal |
| SectionParam.NoNumberGroup | arm_bin2elf.py:594 | without the separator, nothing is captured |
| SectionParam.NameGroup | arm_bin2elf.py:594 | the search starts at the name and takes it whole |
| SectionParam.AddrGroup | arm_bin2elf.py:594 | a written address is captured |
| SectionParam.LenGroup | arm_bin2elf.py:594 | a written length is captured |
| SectionParam.SearchFormatted | arm_bin2elf.py:594 | the search captures exactly the parts an argument was written with |
| SectionParam.ParseFormatted | arm_bin2elf.py:590-600 | `NAME[@0xADDR][:0xLEN]`, with any of the four part combinations, parses back to its name, address and length |
| SectionParam.TablesOfArgs | arm_bin2elf.py:664-668 | the merged tables have no duplicate keys and hold, for each name, the last address and the last length given |
| SectionParam.MergeSectionArgs | arm_bin2elf.py:664-668 | the merging loop computes those tables |
| SectionParam.HighestKey | arm_bin2elf.py:671 | `max(..., key=...)` picks one of the keys |
| SectionParam.HighestKeyIsFirstMaximum | arm_bin2elf.py:671 | it is the first key, in table order, with the highest address |
| SectionParam.NeededLenAsWritten | arm_bin2elf.py:671-672 | the lookup fails exactly when the highest-placed section has no length |
| SectionParam.WidenedLen | arm_bin2elf.py:670-674 | the result is at least the requested length or is the cap `0xFFFFFFFF`, and it exceeds the requested length only up to the cap |
| SectionParam.WidenedCovers | arm_bin2elf.py:670-674 | unless capped, the widened space reaches every given section's start and the highest one's end, and is never narrowed; it is the requested length, the cap or exactly the needed end; it is the requested length when that already reaches the needed end, and otherwise no more than the needed end |
| SectionParam.AddressOnlyOverrideStops | arm_bin2elf.py:670-672 | `-s .ARM.exidx@0x1001000` makes the lookup fail, though the corrected reading needs only 0x1000 bytes |
| SectionParam.PrepareOptions | arm_bin2elf.py:658-674 | the option object holds the merged tables, well formed, and the address space widened by the corrected reading of line 672, in which a section without a length counts as length 0, so the KeyError of the code as written never occurs |

## Left out

- Writing the ELF file is not part of this model: `armfw_bin2elf_update_elffile` (503-549), `armfw_bin2elf_copy_template` (421-441) and the pyelftools library. It is file and library I/O.
- The firmware file is modelled as its contents. The file handle, `seek` and `tell` are replaced by indexing into the byte sequence and by its length.
- Console output is dropped: verbose printing, and the `eprint` warnings for multiple matches, reduced sizes and sections past the limit. It has no effect on the results.
- Argument parsing beyond `--section` is left out: the output file name, the template name, `--dry-run`, `--verbose`, and the defaults 0x2000000 and 0x1000000. `PrepareOptions` takes the base address and the address-space length as parameters.
- The top-level error handler and its exit code 10 are left out. Every exception is an `Error` value instead.
- The 64-bit branch of `armfw_bin2elf` is left out: `is_arm64` is always false there, so the limit is fixed at `0xFFFFFFFF`.
- `expect_func_align` and `expect_sect_align` are the constants 2 and 0x10, which `main` always sets.
- The rounding to `sect_align` in the `.data` and `.bss` steps is left out: the alignment is always 1 there, so the rounding does nothing.
- The checks that `.ARM.exidx` (or `.data`) is settled before `.text`, `.data` and `.bss` are preconditions, because `armfw_bin2elf` always settles them in that order.
- `ExidxScan.DetectExidx` requires an alignment of at least 8, as the scanner itself asserts.
- `Layout.SettleExidx` is split into `Layout.LocateExidx` (the three scans) and `Layout.RecordExidx` (the table updates). This keeps the proofs small; the two together do what the source does.
- `SectionSizes.UpdateSectSizes` does not state the size table after a failure. The source raises partway through the pass, and the program then ends.
- `SectionSizes.SizedLayout` needs a duplicate-free order. `SectionOrder.OrderShape` proves that the real order is one.
- `SectionParam.ParseInt0` covers only what the argument pattern can capture: signs, whitespace and underscores cannot occur there. A literal with the `0o` prefix is handled but cannot be captured either.
- `SectionParam.ParseSectionParam` models the pattern's own matching: leftmost name, greedy runs, optional groups. It is not a general regular-expression engine.
- `tests/conftest.py` and `gimbal_tool.py` are not part of this model.

## Findings

| source | as written | input that shows it | evidently intended | confidence | as-written member | corrected member |
|---|---|---|---|---|---|---|
| arm_bin2elf.py:670-674 | the length of the highest-placed `--section` is read as `po.section_size[sect_last]` without a check, so a KeyError ends the run | `-s .ARM.exidx@0x1001000` with the default base: an address-only override, which the `.ARM.exidx` step supports by giving it a 16-byte length | a section given without a length ends no earlier than it starts (length 0 here), the address space is widened only as far as needed, and conversion goes on | not executed | SectionParam.NeededLenAsWritten (shown by SectionParam.AddressOnlyOverrideStops) | SectionParam.WidenedLen (property SectionParam.WidenedCovers; used by SectionParam.PrepareOptions) |
