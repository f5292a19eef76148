# AptioFixPkg boot path and input shims, modelled in Dafny

This project models the core of AptioFixPkg, a set of UEFI drivers that let macOS boot on AMI Aptio firmware.

It covers two drivers.

**AptioMemoryFix** keeps track of the firmware memory map while boot.efi runs:
- merging and retyping descriptors;
- allocating from the top of memory;
- copying runtime descriptors into the virtual map;
- protecting runtime areas from relocation and restoring them;
- the custom KASLR slide, with its valid-slide analysis, its boot-args text and the csr-active-config override;
- the safe-mode slide unlock;
- the kernel entry patch and its two fixups (normal boot and hibernate wake);
- the boot-services and runtime-services overrides;
- the boot-args helpers;
- the StartImage hook.

**AptioInputFix** keeps the pure parts of its AMI input shims:
- the twelve-slot key FIFO;
- the PS/2 to USB tables;
- the eight-entry modifier remap;
- key insertion and reporting;
- the pointer jitter filter, boost and accumulation;
- the AIKTranslate translator;
- the AmiShim entry point and exit handler.

Firmware services, CPU instructions, the clock and protocol calls are inputs: a status, a value or a sequence of readings. Every operation is a pure function, or a method with a loop. Its contract states what the C code promises. Lemmas connect each operation to an inverse, an invariant or an independent reference definition.

Files, one module each:

| file | module | models |
|---|---|---|
| `types.dfy` | `Types` | statuses, memory types, descriptors, page totals |
| `memory_map.dfy` | `MemoryMap` | ShrinkMemMap, AllocatePagesFromTop, GetMemoryMapAlloc, FixMemMap |
| `boot_fixes.dfy` | `BootFixes` | kernel entry patch, virtual map copy, CSM region, boot and wake fixups |
| `rt_shims.dfy` | `RtShims` | runtime-area protection and restore, OrgGetVariable |
| `custom_slide.dfy` | `CustomSlide` | slide windows, valid slides, random slide, GetVariable overrides, safe-mode unlock |
| `service_overrides.dfy` | `ServiceOverrides` | boot and runtime service overrides |
| `aptio_memory_fix.dfy` | `AptioMemoryFix` | entry point, StartImage hook, RunImageWithOverrides, jump-back |
| `boot_args.dfy` | `BootArgs`, `BootArgsLemmas` | GetBootArgs, BootArgsFind, RemoveArgumentFromCommandLine |
| `utils.dfy` | `Utils` | ToUpperChar, StrStriBasic, StriStartsWithBasic, ConvertUnicodeStrToAsciiStr, FileDevicePathToStr |
| `mach_o.dfy` | `MachO` | MachOGetEntryAddress |
| `input_keys.dfy` | `InputKeys` | shift-state flags, HID modifier bits, remap, keypad digits |
| `ps2_map.dfy` | `Ps2Map` | the two 128-entry PS/2 to USB tables |
| `shim_slots.dfy` | `ShimSlots` | the install scan and lookup shared by the shims |
| `ami_shim_keycode.dfy` | `AmiShimKeycode` | key ring, SendData, InsertKey, modifiers, ReadEfikey, install |
| `ami_shim_pointer.dfy` | `AmiShimPointer` | clamp, jitter filter, boost, smoothing, polling, GetState, install |
| `ami_shim.dfy` | `AmiShim` | modifier map configuration, entry point, exit handler |
| `aik_translate.dfy` | `AikTranslate` | AIKTranslate and its configuration |

## Model

| member | source | states |
|---|---|---|
| Types.TotalPagesAppend | Platform/AptioMemoryFix/MemoryMap.c:84-86 | appending a descriptor adds its NumberOfPages to the map's page total |
| MemoryMap.Join | Platform/AptioMemoryFix/MemoryMap.c:80-86 | the joined entry keeps the earlier descriptor's start, virtual start and attributes, becomes free memory and holds the pages of both |
| MemoryMap.Shrink | Platform/AptioMemoryFix/MemoryMap.c:40-107 | the merged map is non-empty, no longer than the input, and starts where the input starts |
| MemoryMap.ShrinkMemMap | Platform/AptioMemoryFix/MemoryMap.c:40-107 | the in-place loop yields the merged map, and the returned size is its entry count times the descriptor size, never more than the input size |
| MemoryMap.ShrinkPrefixStep | Platform/AptioMemoryFix/MemoryMap.c:60-106 | merging one more input descriptor is one more loop iteration on the map merged so far |
| MemoryMap.ShrinkLastAgrees | Platform/AptioMemoryFix/MemoryMap.c:61-78 | the last merged entry has the same attributes, end and joinability as the last input descriptor |
| MemoryMap.JoinDecidedByInput | Platform/AptioMemoryFix/MemoryMap.c:61-78 | whether the next descriptor joins is decided by the previous input descriptor alone |
| MemoryMap.ShrinkPreservesPages | Platform/AptioMemoryFix/MemoryMap.c:80-86 | merging keeps the total page count of the map |
| MemoryMap.StepAddsPages | Platform/AptioMemoryFix/MemoryMap.c:80-101 | one iteration, join or keep, adds exactly the pages of the descriptor it takes in |
| MemoryMap.ShrinkLeavesNoJoinablePair | Platform/AptioMemoryFix/MemoryMap.c:61-101 | no two neighbours of the merged map pass the join test |
| MemoryMap.ShrinkFixesJoinFreeMap | Platform/AptioMemoryFix/MemoryMap.c:87-101 | a map with no joinable neighbours is returned unchanged |
| MemoryMap.ShrinkIdempotent | Platform/AptioMemoryFix/MemoryMap.c:40-107 | a second pass over a merged map changes nothing |
| MemoryMap.RunStarts | Platform/AptioMemoryFix/MemoryMap.c:87-101 | the indices where a new output entry begins are indices of the input |
| MemoryMap.RunStartsShape | Platform/AptioMemoryFix/MemoryMap.c:54-58 | the first run starts at index 0 and run starts strictly ascend |
| MemoryMap.RunMergePrefix | Platform/AptioMemoryFix/MemoryMap.c:80-86 | merging a run inside a prefix looks at nothing past the prefix |
| MemoryMap.ShrinkMergesRunsKeep | Platform/AptioMemoryFix/MemoryMap.c:87-101 | a last descriptor that cannot be joined opens a run of its own, and every entry is still its run's merge |
| MemoryMap.JoinStepShape | Platform/AptioMemoryFix/MemoryMap.c:80-86 | a joined last descriptor leaves the run starts alone and replaces the last entry by its join |
| MemoryMap.ShrinkMergesRunsJoin | Platform/AptioMemoryFix/MemoryMap.c:80-86 | a joined last descriptor extends the last run, and every entry is still its run's merge |
| MemoryMap.JoinKeepsEarlierRuns | Platform/AptioMemoryFix/MemoryMap.c:80-86 | a join leaves every earlier run's entry as it was |
| MemoryMap.JoinExtendsLastRun | Platform/AptioMemoryFix/MemoryMap.c:80-86 | after a join, the last entry is the merge of the extended last run |
| MemoryMap.LastRunMerge | Platform/AptioMemoryFix/MemoryMap.c:80-86 | in a map the shrink loop merged run by run, the last entry is the merge of the last run |
| MemoryMap.JoinAbsorbsLastRun | Platform/AptioMemoryFix/MemoryMap.c:80-86 | when the new descriptor joins the last entry, the run count stays and the last entry becomes the merge of the run extended by that descriptor |
| MemoryMap.RunMergeAbsorbsLast | Platform/AptioMemoryFix/MemoryMap.c:84-85 | joining a map's last descriptor onto the merge of a run ending just before it gives the merge of the run through the end |
| MemoryMap.RunMergeAbsorbs | Platform/AptioMemoryFix/MemoryMap.c:84-85 | joining a descriptor onto a run's merge is the merge of the longer run |
| MemoryMap.ShrinkMergesRuns | Platform/AptioMemoryFix/MemoryMap.c:40-107 | the output is exactly one entry per run of joinable neighbours, in input order: a lone descriptor comes through unchanged and a longer run becomes one free-memory entry with the run's pages |
| MemoryMap.PlaceBelow | Platform/AptioMemoryFix/MemoryMap.c:271-286 | the chosen address lies inside the descriptor and the pages end at or below the ceiling |
| MemoryMap.ScanFromTop | Platform/AptioMemoryFix/MemoryMap.c:262-302 | *Memory only goes down; without a fit the status is EFI_NOT_FOUND; an allocation lies inside a fitting descriptor, below the ceiling, outside the slide area when checked, and carries AllocatePages' status; MemoryMap.ScanPicksLastFit (unchecked) and MemoryMap.ScanSkipsSlideOverlaps (checked) pin down which descriptor |
| MemoryMap.LastFit | Platform/AptioMemoryFix/MemoryMap.c:262-302 | the reference choice: the last descriptor that fits, or none when no descriptor fits |
| MemoryMap.ClearFitBelow | Platform/AptioMemoryFix/MemoryMap.c:262-302 | the reference choice with the slide check: the chosen descriptor fits under the ceiling in force, its placement misses the slide area, and that ceiling never rises |
| MemoryMap.ScanSkipsSlideOverlaps | Platform/AptioMemoryFix/MemoryMap.c:262-302 | with the slide check the backward scan allocates where the reference choice says, under the lowered ceiling, or returns EFI_NOT_FOUND with *Memory at the last lowered ceiling |
| MemoryMap.ScanPicksLastFit | Platform/AptioMemoryFix/MemoryMap.c:262-302 | without the slide check the backward scan allocates in the last fitting descriptor at the PlaceBelow address, and calls AllocatePages only then |
| MemoryMap.AllocatePagesFromTop | Platform/AptioMemoryFix/MemoryMap.c:240-307 | a failed map fetch is returned as is with *Memory untouched; otherwise the scan decides |
| MemoryMap.FirstEnding | Platform/AptioMemoryFix/MemoryMap.c:183-237 | the first round that ends the retry loop, with no earlier round ending it |
| MemoryMap.RoundOutcome | Platform/AptioMemoryFix/MemoryMap.c:183-237 | the ending round's allocation failure or fetch status is returned, and a map exactly on success |
| MemoryMap.Retry | Platform/AptioMemoryFix/MemoryMap.c:183-237 | the loop's result is the outcome of its first ending round, and a map is present iff the status is success |
| MemoryMap.GetMemoryMapAlloc | Platform/AptioMemoryFix/MemoryMap.c:156-238 | a probe answer other than EFI_BUFFER_TOO_SMALL is returned with a NULL map; otherwise the retry loop decides |
| MemoryMap.FixMemMap | Platform/AptioMemoryFix/Lib.c:226-309 | each runtime reserved range becomes MMIO when the iGPU option is on; a legacy-area range becomes ACPI NVS with no attributes when that option is on; no other field and no other descriptor changes |
| MemoryMap.FixMemMapIdempotent | Platform/AptioMemoryFix/Lib.c:226-309 | a second pass finds nothing to fix |
| MemoryMap.ShippedFixMemMapRetypesOnlyIgpu | Platform/AptioMemoryFix/Lib.c:249-273 | with the shipped options (iGPU retype on, legacy retype not configured) a runtime reserved range becomes MMIO with its attribute kept, and every other descriptor is left as it was |
| MemoryMap.FixMemMapLeavesNoRuntimeReserved | Platform/AptioMemoryFix/Lib.c:226-309 | with the iGPU option on, no runtime reserved range is left |
| BootFixes.InitialEntrySave | Platform/AptioMemoryFix/BootFixes.c:31-32 | the save buffer holds 32 bytes and records no code yet |
| BootFixes.Splice | Platform/AptioMemoryFix/BootFixes.c:184-187 | CopyMem puts the bytes at the address and changes nothing else |
| BootFixes.KernelEntryPatchJump | Platform/AptioMemoryFix/BootFixes.c:162-199 | the size is always recorded; code longer than the buffer gives EFI_NOT_FOUND with memory untouched; otherwise the entry bytes are saved, overwritten with the jump code, and the entry is recorded |
| BootFixes.RestoreEntryCode | Platform/AptioMemoryFix/BootFixes.c:1061-1062 | the saved bytes are back at the recorded entry |
| BootFixes.PatchRestoreRoundTrip | Platform/AptioMemoryFix/BootFixes.c:184-187 | restoring after a successful patch gives back the original kernel memory |
| BootFixes.SpliceUndo | Platform/AptioMemoryFix/BootFixes.c:184-187 | copying the overwritten bytes back undoes a splice |
| BootFixes.KernelEntryFromMachOPatchJump | Platform/AptioMemoryFix/BootFixes.c:201-222 | an unknown Mach-O signature or an image without LC_UNIXTHREAD gives EFI_NOT_FOUND with nothing changed; otherwise the entry of the first LC_UNIXTHREAD, plus the slide and truncated to 32 bits, is patched |
| BootFixes.RuntimeDescriptors | Platform/AptioMemoryFix/BootFixes.c:293 | every descriptor kept is runtime and not reserved |
| BootFixes.ExecSetVirtualAddressesToMemMap | Platform/AptioMemoryFix/BootFixes.c:248-332 | when the runtime descriptors fit the 64-entry buffer they are all copied and SetVirtualAddressMap's status is returned; otherwise EFI_OUT_OF_RESOURCES with exactly the descriptors that fit; the relocated system table comes from the last copied descriptor holding it |
| BootFixes.CopyStep | Platform/AptioMemoryFix/BootFixes.c:293-319 | one loop turn keeps the copy invariant: runtime descriptors so far, within the buffer, relocated address current |
| BootFixes.TracksAppend | Platform/AptioMemoryFix/BootFixes.c:313-318 | copying a descriptor keeps the relocated address that of the last copy holding the system table |
| BootFixes.RuntimeDescriptorsStep | Platform/AptioMemoryFix/BootFixes.c:293-309 | one more input descriptor adds itself to the runtime list iff it is runtime and not reserved |
| BootFixes.AppendContaining | Platform/AptioMemoryFix/BootFixes.c:314-318 | an appended descriptor holding the area becomes its last holder; otherwise the last holder is unchanged |
| BootFixes.RuntimeDescriptorsPrefix | Platform/AptioMemoryFix/BootFixes.c:275-322 | the runtime list of a prefix is a prefix of the whole list |
| BootFixes.RuntimeDescriptorsOverflow | Platform/AptioMemoryFix/BootFixes.c:295-298 | where the copy runs out of room, the list so far is exactly the first buffer-size/descriptor-size entries of the whole list |
| BootFixes.ProtectCsmRegion | Platform/AptioMemoryFix/BootFixes.c:995-1022 | only the first boot-services data descriptor reaching into 0x9E000..0xA0000 becomes ACPI NVS; every other descriptor is unchanged |
| BootFixes.FirstCandidateLeads | Platform/AptioMemoryFix/BootFixes.c:995-1022 | a candidate in front is the first and no later descriptor is |
| BootFixes.FirstCandidateShifts | Platform/AptioMemoryFix/BootFixes.c:995-1022 | past a non-candidate, the first candidate is that of the rest |
| BootFixes.ProtectCsmRegionRetypesAtMostOne | Platform/AptioMemoryFix/BootFixes.c:995-1022 | at most one descriptor changes, and only in its type |
| BootFixes.FixBootingWithoutRelocBlock | Platform/AptioMemoryFix/BootFixes.c:1024-1065 | csr-active-config is written back only when the field exists and was recorded; the slide state is cleared; the map changes only in types; the entry bytes are restored |
| BootFixes.NormalBootUndoesPreparation | Platform/AptioMemoryFix/BootFixes.c:1024-1065 | after the protection and the patch, the normal-boot fixup gives the kernel back its original map and entry code |
| BootFixes.VisibleChain | Platform/AptioMemoryFix/BootFixes.c:1091-1098 | the records the kernel reads are the chain's records before the first end marker |
| BootFixes.DisableMemoryMapHandoff | Platform/AptioMemoryFix/BootFixes.c:1091-1098 | the walk keeps the chain's length and every byte count |
| BootFixes.TerminatedTail | Platform/AptioMemoryFix/BootFixes.c:1091-1098 | the rest of a terminated chain past a non-end record is terminated |
| BootFixes.DisableMemoryMapHandoffHidesMap | Platform/AptioMemoryFix/BootFixes.c:1091-1098 | after the walk the kernel sees no memory-map record |
| BootFixes.DisableMemoryMapHandoffKeepsPrefix | Platform/AptioMemoryFix/BootFixes.c:1091-1098 | every record the kernel still sees is one it saw before, in the same order |
| BootFixes.PassedRecordVisible | Platform/AptioMemoryFix/BootFixes.c:1097 | a record the walk passes over stays visible ahead of the rest |
| BootFixes.DisableMemoryMapHandoffWithoutMap | Platform/AptioMemoryFix/BootFixes.c:1091-1098 | a chain with no visible memory-map record is left alone |
| BootFixes.FixHibernateWakeWithoutRelocBlock | Platform/AptioMemoryFix/BootFixes.c:1067-1130 | the header's system table offset is the relocated address minus the runtime pages, truncated to 32 bits; the kernel then sees no memory-map hand-off record, and every record it still sees is one it saw before, in order; the entry bytes are restored |
| RtShims.ProtectedPairs | Platform/AptioMemoryFix/RtShims.c:72-113 | the table of qualifying descriptors is no longer than the map |
| RtShims.ProtectRtMemoryFromRelocation | Platform/AptioMemoryFix/RtShims.c:72-113 | each runtime code range, and each runtime data range other than the system table's, becomes MMIO; the table records the first 64 of them in map order |
| RtShims.InnerPassWithoutEntry | Platform/AptioMemoryFix/RtShims.c:130-137 | a descriptor with no table entry keeps its type and the count of entries left |
| RtShims.InnerPassWithoutEntryWhenAbsent | Platform/AptioMemoryFix/RtShims.c:130-137 | the same, as an implication for any descriptor |
| RtShims.RestorePrefix | Platform/AptioMemoryFix/RtShims.c:115-142 | the outer loop writes only types, and only where an entry has the same start |
| RtShims.RestoreProtectedRtMemoryTypes | Platform/AptioMemoryFix/RtShims.c:115-142 | only types change, only at descriptors with an entry, and an empty table changes nothing |
| RtShims.ProtectedPairsEntries | Platform/AptioMemoryFix/RtShims.c:93-112 | with distinct starts, a descriptor has a table entry iff it qualifies, and that entry holds its type |
| RtShims.StartsOfPairs | Platform/AptioMemoryFix/RtShims.c:93-112 | every table entry names a descriptor of the map |
| RtShims.InnerPassWithOneEntry | Platform/AptioMemoryFix/RtShims.c:130-137 | with one matching entry the inner loop writes its type and counts down once |
| RtShims.ProtectedPairsDistinct | Platform/AptioMemoryFix/RtShims.c:93-112 | table entries start at distinct addresses when descriptors do |
| RtShims.InnerPassUndoes | Platform/AptioMemoryFix/RtShims.c:130-137 | for one descriptor, the restore puts back the type the protection took away |
| RtShims.RestorePrefixUndoes | Platform/AptioMemoryFix/RtShims.c:115-142 | the restore pass over the first n protected descriptors gives back the original ones, with the entries left counted exactly |
| RtShims.PrefixCountGrows | Platform/AptioMemoryFix/RtShims.c:93-112 | the qualifying count grows by one exactly at a qualifying descriptor |
| RtShims.PrefixCountBounded | Platform/AptioMemoryFix/RtShims.c:93-112 | a prefix never qualifies more descriptors than the whole map |
| RtShims.ProtectRestoreRoundTrip | Platform/AptioMemoryFix/RtShims.c:72-142 | with distinct starts and at most 64 qualifying descriptors, restoring after protecting gives back the original map |
| RtShims.OrgGetVariable | Platform/AptioMemoryFix/RtShims.c:33-50 | the saved original is called when captured, otherwise the current service, with the arguments unchanged |
| CustomSlide.IsSandyOrIvy | Platform/AptioMemoryFix/CustomSlide.c:67-83 | true exactly for family 6 with model 0x2A or 0x3A, stated on the raw CPUID bits |
| CustomSlide.SandyOrIvyCached | Platform/AptioMemoryFix/CustomSlide.c:57-89 | CPUID is consulted only when nothing is cached, and the answer is cached |
| CustomSlide.SlideRange | Platform/AptioMemoryFix/CustomSlide.c:91-109 | the window starts at the slide times the granularity above the kernel base, plus the gap for high slides on Sandy or Ivy Bridge, and spans the speculated kernel size |
| CustomSlide.WindowCovers | Platform/AptioMemoryFix/CustomSlide.c:503-534 | a point between the first and last window of a run of slides lies in some window of the run |
| CustomSlide.OverlapsWithSlideMeaning | Platform/AptioMemoryFix/CustomSlide.c:503-534 | without wrap-around, the span test holds iff some slide window meets the range |
| CustomSlide.Clipped | Platform/AptioMemoryFix/CustomSlide.c:252-268 | the clipped size is at most the descriptor's size and the window's size |
| CustomSlide.ValidSlidesBelowAscending | Platform/AptioMemoryFix/CustomSlide.c:223-288 | the slides found below n ascend strictly and are below n |
| CustomSlide.ValidSlidesBelowMembers | Platform/AptioMemoryFix/CustomSlide.c:223-288 | a slide below n is listed iff the map supports it |
| CustomSlide.ValidSlidesShape | Platform/AptioMemoryFix/CustomSlide.c:221-288 | the valid list ascends strictly, holds at most 256 slides, and holds a slide iff the map supports it |
| CustomSlide.CheckSlide | Platform/AptioMemoryFix/CustomSlide.c:224-287 | the inner loop marks a slide supported iff its window is covered by free memory only |
| CustomSlide.DecideOnCustomSlideImplementation | Platform/AptioMemoryFix/CustomSlide.c:182-323 | a failed map fetch leaves the list alone; otherwise the list is rebuilt as exactly the valid slides |
| CustomSlide.SlideIndexOf | Platform/AptioMemoryFix/CustomSlide.c:131-132 | the index drawn from a reading is below 256 |
| CustomSlide.FirstNonzeroIndex | Platform/AptioMemoryFix/CustomSlide.c:126-133 | the loop settles on the first reading with a nonzero index, and that index is 1..255 |
| CustomSlide.GenerateRandomSlideValue | Platform/AptioMemoryFix/CustomSlide.c:111-141 | the slide is a valid one, picked by the first nonzero index modulo the list length |
| CustomSlide.DecToAsciiDigits | Platform/AptioMemoryFix/Lib.h:22-23 | values 0..9 print as their digit and DEC_SPACE as a space |
| CustomSlide.SlideDigits | Platform/AptioMemoryFix/BootFixes.c:801-820 | always three characters: the decimal digits left-aligned, padded with spaces |
| CustomSlide.ParseField | Platform/AptioMemoryFix/BootFixes.c:801-820 | a three-character field reads back as the value of its leading digits |
| CustomSlide.SlideDigitsRoundTrip | Platform/AptioMemoryFix/BootFixes.c:801-820 | the padded digits always read back as the slide printed |
| CustomSlide.DigitReadsBack | Platform/AptioMemoryFix/Lib.h:22 | a value 0..9 prints as a digit that reads back as itself |
| CustomSlide.AppendSlideArgument | Platform/AptioMemoryFix/BootFixes.c:781-824 | the stored text ends in "slide=" and the three digits; " slide=NNN" is appended to a read text when 11 more bytes fit, otherwise the text is only the argument |
| CustomSlide.InitialSlideState | Platform/AptioMemoryFix/CustomSlide.c:30-55 | at load nothing is stored, analysed or recorded, and the list counts 256 slides |
| CustomSlide.GetVariableCsrActiveConfig | Platform/AptioMemoryFix/CustomSlide.c:325-373 | a missing or short buffer only learns the size; otherwise the original value, or 0 after an error, is recorded and returned with bit 6 set, and *DataSize is the original call's |
| CustomSlide.GetVariableBootArgs | Platform/AptioMemoryFix/CustomSlide.c:375-428 | the text is built once and then served from the cache; a missing or short buffer gets EFI_BUFFER_TOO_SMALL; *DataSize is always the stored size |
| CustomSlide.AnalyzeIfNeeded | Platform/AptioMemoryFix/CustomSlide.c:578-581 | the analysis runs only when no slide= was given and it has not run; a failed map fetch keeps the previous list; nothing else changes |
| CustomSlide.GetVariableCustomSlide | Platform/AptioMemoryFix/CustomSlide.c:536-600 | other variables go to the original service; csr-active-config is always overridden; boot-args is overridden iff the list is partial and non-empty after the analysis |
| CustomSlide.BootArgsServedFromCache | Platform/AptioMemoryFix/CustomSlide.c:391-425 | a repeated boot-args read serves the same stored text and leaves the state alone, whatever the environment |
| CustomSlide.HideSlideFromOS | Platform/AptioMemoryFix/CustomSlide.c:143-180 | "slide=" is removed from the command line; the list and the stored text are cleared; the flags stay |
| CustomSlide.RestoreCustomSlideOverrides | Platform/AptioMemoryFix/CustomSlide.c:602-622 | the recorded csr-active-config is written back iff the field exists and a value was recorded; then the slide is hidden |
| CustomSlide.CsrOverrideRoundTrip | Platform/AptioMemoryFix/CustomSlide.c:325-373 | boot.efi reads the value with bit 6 forced on, and the kernel gets back the value the firmware had stored |
| CustomSlide.HiddenSlideNotServed | Platform/AptioMemoryFix/CustomSlide.c:576-595 | once the slide is hidden, boot-args reads go to the original service as long as the analysis does not run again |
| CustomSlide.Patch | Platform/AptioMemoryFix/CustomSlide.c:498-499 | both four-byte occurrences become 0xFF and every other byte is kept |
| CustomSlide.SequenceNotSelfOverlapping | Platform/AptioMemoryFix/CustomSlide.c:449 | the byte sequence 01 40 00 00 cannot occur again 1 to 3 bytes later |
| CustomSlide.FirstScan | Platform/AptioMemoryFix/CustomSlide.c:463-467 | the first scan stops at the first occurrence, or past the scan end when there is none |
| CustomSlide.SecondScanAsWritten | Platform/AptioMemoryFix/CustomSlide.c:478-482 | the second scan as written never moves backwards |
| CustomSlide.SafeModeLoopAsWritten | Platform/AptioMemoryFix/CustomSlide.c:462-491 | a pair to patch lies within the scan range and starts with an occurrence |
| CustomSlide.UnlockSlideSupportForSafeModeAsWritten | Platform/AptioMemoryFix/CustomSlide.c:430-501 | the image keeps its length |
| CustomSlide.SafeModeAsWrittenPatchesUnmatchedBytes | Platform/AptioMemoryFix/CustomSlide.c:478-499 | an image with one occurrence and no partner gets eight bytes overwritten as written, and none under the corrected loop |
| CustomSlide.SecondScan | Platform/AptioMemoryFix/CustomSlide.c:478-482 | the corrected second scan returns the first partner within 0x10 bytes, or the offset just past that distance |
| CustomSlide.SafeModeLoop | Platform/AptioMemoryFix/CustomSlide.c:462-491 | a found pair is an occurrence with a partner at or after the start |
| CustomSlide.NoFirstNoPair | Platform/AptioMemoryFix/CustomSlide.c:471-474 | without a first occurrence there is no pair |
| CustomSlide.UnpartneredFirstNoPair | Platform/AptioMemoryFix/CustomSlide.c:486-490 | an occurrence without a partner rules out every pair before the resumed search |
| CustomSlide.PartneredFirstIsLeast | Platform/AptioMemoryFix/CustomSlide.c:462-491 | an occurrence with a partner is the least pair |
| CustomSlide.SafeModeLoopFindsLeastPair | Platform/AptioMemoryFix/CustomSlide.c:462-491 | the corrected loop finds the least pair, or reports none exactly when there is none |
| CustomSlide.UnlockSlideSupportForSafeMode | Platform/AptioMemoryFix/CustomSlide.c:430-501 | an image with no pair is unchanged; otherwise exactly the least pair is overwritten |
| ServiceOverrides.InstallBsOverrides | Platform/AptioMemoryFix/ServiceOverrides.c:48-69 | the four routines are saved and replaced by the hooks, nothing else changes, and the checksum is consistent |
| ServiceOverrides.UninstallBsOverrides | Platform/AptioMemoryFix/ServiceOverrides.c:71-85 | the saved routines go back and the checksum is consistent |
| ServiceOverrides.BsOverridesRoundTrip | Platform/AptioMemoryFix/ServiceOverrides.c:48-85 | install then uninstall gives back a table whose checksum was consistent |
| ServiceOverrides.InstallRtOverrides | Platform/AptioMemoryFix/ServiceOverrides.c:87-100 | the checksum and SetVirtualAddressMap are saved, the hook goes in and the checksum is recomputed |
| ServiceOverrides.UninstallRtOverrides | Platform/AptioMemoryFix/ServiceOverrides.c:102-110 | the saved routine and the saved checksum go back |
| ServiceOverrides.RtOverridesRoundTrip | Platform/AptioMemoryFix/ServiceOverrides.c:87-110 | the runtime round trip is exact whatever the checksum was |
| ServiceOverrides.MOAllocatePages | Platform/AptioMemoryFix/ServiceOverrides.c:148-192 | the call is forwarded and its answer returned; a kernel placement lowers the minimum (replacing 0) and raises the maximum; only the first successful wake image allocation is recorded |
| ServiceOverrides.Replay | Platform/AptioMemoryFix/ServiceOverrides.c:148-192 | a run of calls never changes the wake flag |
| ServiceOverrides.ReplayTracksPlacements | Platform/AptioMemoryFix/ServiceOverrides.c:160-173 | from 0/0, the minimum is the lowest placement address and the maximum the highest placement end |
| ServiceOverrides.ReplayCapturesFirstImage | Platform/AptioMemoryFix/ServiceOverrides.c:175-183 | during wake the recorded address is the first successful image allocation's, and 0 when there is none |
| ServiceOverrides.MOGetMemoryMap | Platform/AptioMemoryFix/ServiceOverrides.c:227-260 | on success the CSM region is protected and the map merged, with the size, page total and descriptor size tracked; any other status passes everything through |
| ServiceOverrides.RetypePreservesPages | Platform/AptioMemoryFix/ServiceOverrides.c:227-260 | maps that differ only in types hold the same pages |
| ServiceOverrides.MOHandleProtocol | Platform/AptioMemoryFix/ServiceOverrides.c:118-143 | the stored answer stands unless it failed for graphics output, in which case LocateProtocol answers |
| ServiceOverrides.HibernateEntry | Platform/AptioMemoryFix/ServiceOverrides.c:313-316 | the wake entry is a 32-bit address |
| ServiceOverrides.MOExitBootServices | Platform/AptioMemoryFix/ServiceOverrides.c:265-320 | a wake with no image is refused before exiting; an exit error comes back before any patch; a normal exit patches the entry of the kernel's first LC_UNIXTHREAD at the slide below the lowest placement, and changes nothing for an unknown signature or an image without that command; a wake exit patches the image's entry |
| ServiceOverrides.MOSetVirtualAddressMap | Platform/AptioMemoryFix/ServiceOverrides.c:325-376 | the hook is removed, the runtime areas protected and the protected map virtualized; the status is the virtualization's |
| ServiceOverrides.ProtectionKeepsVirtualMap | Platform/AptioMemoryFix/ServiceOverrides.c:325-376 | protection changes only the types of the descriptors the kernel maps |
| ServiceOverrides.RetypedRuntimeDescriptors | Platform/AptioMemoryFix/RtShims.c:93-112 | retyping runtime code and data as MMIO keeps each of them in the virtual map list |
| AptioMemoryFix.AptioMemoryFixEntrypoint | Platform/AptioMemoryFix/AptioMemoryFix.c:266-307 | an installed marker gives EFI_ALREADY_STARTED with nothing changed; otherwise StartImage is saved and hooked and the checksum recomputed |
| AptioMemoryFix.EntrypointHooksOnce | Platform/AptioMemoryFix/AptioMemoryFix.c:266-307 | loading the driver twice never hooks StartImage twice |
| AptioMemoryFix.RunImageWithOverrides | Platform/AptioMemoryFix/AptioMemoryFix.c:71-142 | a preparation or pool failure is returned before anything is installed; otherwise the image runs with the overrides, the runtime system table and the safe-mode unlock, and every override is removed afterwards |
| AptioMemoryFix.MoveRecoveryFlag | Platform/AptioMemoryFix/AptioMemoryFix.c:190-202 | a pending aptiofixflag becomes recovery-boot-mode and is deleted; other variables are kept |
| AptioMemoryFix.DetectBooterStartImage | Platform/AptioMemoryFix/AptioMemoryFix.c:149-261 | without a loaded image the call is rejected; a non-boot.efi image, or any image whose path text could not be allocated, goes to the original StartImage; a nested boot.efi in recovery mode stores aptiofixflag and cold-resets; otherwise the image boots with the count raised and the wake flag from the probe |
| AptioMemoryFix.FirstBooterStartRuns | Platform/AptioMemoryFix/AptioMemoryFix.c:190-233 | the first boot.efi start hands a pending flag over as recovery-boot-mode |
| AptioMemoryFix.KernelEntryPatchJumpBack | Platform/AptioMemoryFix/AptioMemoryFix.c:49-63 | the boot fixup runs on a normal boot and the wake fixup on a wake, as gHibernateWake decides; either way the entry bytes are restored |
| AptioMemoryFix.JumpBackUndoesEntryPatch | Platform/AptioMemoryFix/AptioMemoryFix.c:49-63 | after KernelEntryPatchJump, the jump back gives the kernel its original memory, on a normal boot and on a wake alike |
| BootArgs.GetBootArgs | Platform/AptioMemoryFix/BootArgs.c:19-59 | the Version word alone selects the layout, and the view's fields come from that layout |
| BootArgs.FindFrom | Platform/AptioMemoryFix/BootArgs.c:61-110 | the page-step scan returns a candidate that looks like boot_args, at or before the known match |
| BootArgs.BootArgsFind | Platform/AptioMemoryFix/BootArgs.c:61-110 | the address returned is the first page-step candidate at or after the start that looks like boot_args |
| BootArgs.FindFirst | Platform/AptioMemoryFix/BootArgs.c:121 | the first index where the argument occurs, or none when it occurs nowhere |
| BootArgs.BlankToken | Platform/AptioMemoryFix/BootArgs.c:123-125 | exactly the token from the index to the next space or the end turns into spaces; every other character is kept |
| BootArgs.BlankArgument | Platform/AptioMemoryFix/BootArgs.c:120-127 | when the blanking loop ends, the line keeps its length and only spaces are written; for a non-empty, space-free argument a character becomes a space exactly when it lies in a token that starts with an occurrence of the argument, and every other character is kept |
| BootArgs.BlankTokenArgumentTokens | Platform/AptioMemoryFix/BootArgs.c:120-125 | after one pass blanks the token at a token-start occurrence, the positions still to be blanked are exactly the other argument tokens of the original line |
| BootArgs.BlankedOccurrenceWasThere | Platform/AptioMemoryFix/BootArgs.c:120-125 | a token-start occurrence found after a blank was already one before it, and its token has not grown |
| BootArgs.OtherOccurrenceSurvives | Platform/AptioMemoryFix/BootArgs.c:120-125 | blanking one argument token leaves every other token-start occurrence and its token intact |
| BootArgs.BlankArgumentIntended | Platform/AptioMemoryFix/BootArgs.c:120-127 | the intended blanking loop keeps the line's length and writes nothing but spaces |
| BootArgs.BlankTokenNoGrowth | Platform/AptioMemoryFix/BootArgs.c:123-125 | blanking never adds non-space characters |
| BootArgs.BlankTokenProgress | Platform/AptioMemoryFix/BootArgs.c:123-125 | blanking a token that starts with a non-space removes at least one non-space |
| BootArgs.SkipLeadingSpaces | Platform/AptioMemoryFix/BootArgs.c:132-134 | the result is a suffix of the line that does not start with a space |
| BootArgs.CollapseSpaces | Platform/AptioMemoryFix/BootArgs.c:136-142 | collapsing never lengthens the line, leaves no two spaces adjacent, keeps every non-space character in order, and keeps a non-space first character |
| BootArgs.Compact | Platform/AptioMemoryFix/BootArgs.c:130-142 | compaction never lengthens the line |
| BootArgs.RemoveArgumentFromCommandLine | Platform/AptioMemoryFix/BootArgs.c:112-147 | when the routine returns, the buffer keeps its length; for a non-empty, space-free argument it holds the input line with every token starting with the argument turned into spaces, compacted, then zeros to the old length |
| BootArgs.NextSpace | Platform/AptioMemoryFix/BootArgs.c:123 | the first space at or after the index, or the end |
| BootArgs.NextSpaceAgree | Platform/AptioMemoryFix/BootArgs.c:123 | texts that agree from the index on have the same next space |
| BootArgsLemmas.BlankTokenKeepsOccurrencesAtTokenStart | Platform/AptioMemoryFix/BootArgs.c:120-127 | an argument without spaces that occurs only at token starts keeps doing so after a blank |
| BootArgsLemmas.BlankArgumentTerminates | Platform/AptioMemoryFix/BootArgs.c:120-127 | the loop returns for a non-empty argument without spaces that occurs only at token starts |
| BootArgsLemmas.FirstOccurrenceInsideTokenDiverges | Platform/AptioMemoryFix/BootArgs.c:120-127 | a first occurrence inside a token is found again forever: the loop never returns |
| BootArgsLemmas.SlideInsideTokenDiverges | Platform/AptioMemoryFix/BootArgs.c:120-127 | as written, removing "slide=" from "xslide=1 slide=0" never returns |
| BootArgsLemmas.BlankArgumentIntendedClears | Platform/AptioMemoryFix/BootArgs.c:120-127 | after the intended loop a non-empty argument without spaces occurs at no token start |
| BootArgsLemmas.BlankArgumentIntendedClearsFrom | Platform/AptioMemoryFix/BootArgs.c:120-127 | scanning on from a position before which no token-start occurrence is left leaves none anywhere |
| BootArgsLemmas.BlankingKeepsTokenStartsClear | Platform/AptioMemoryFix/BootArgs.c:122-126 | blanking a token-start occurrence with none before it leaves none up to and including it |
| BootArgsLemmas.BlankArgumentRemovesAll | Platform/AptioMemoryFix/BootArgs.c:120-127 | when the loop ends the argument occurs nowhere in the line |
| BootArgsLemmas.BlankArgumentNoNul | Platform/AptioMemoryFix/BootArgs.c:123-125 | blanking never introduces a NUL |
| BootArgsLemmas.CollapseNoNul | Platform/AptioMemoryFix/BootArgs.c:136-142 | collapsing never introduces a NUL |
| BootArgsLemmas.SkipLeadingKeepsWords | Platform/AptioMemoryFix/BootArgs.c:132-134 | skipping leading spaces keeps every non-space character |
| BootArgsLemmas.ContentsOfPadded | Platform/AptioMemoryFix/BootArgs.c:144-146 | the zeroed tail ends the line right after the compacted text |
| BootArgsLemmas.RemoveArgumentResult | Platform/AptioMemoryFix/BootArgs.c:112-147 | the argument is gone, the line has no leading or doubled space, keeps the blanked line's words in order, is no longer, and is NUL-terminated by the zeroed tail; for a non-empty, space-free argument the blanked line is the input with exactly the argument's tokens turned into spaces, so the result holds the input's words outside those tokens, in order |
| Utils.ToUpperCharAsWritten | Platform/AptioMemoryFix/Utils.c:19-34 | codes above 0xFF are kept and 0x80..0xFF come back sign-extended above 0xFF |
| Utils.ToUpperCharAsWrittenConflates | Platform/AptioMemoryFix/Utils.c:32-33 | as written, 0xE9 and 0xFFE9 fold to the same value |
| Utils.ToUpperChar | Platform/AptioMemoryFix/Utils.c:19-34 | only 'a'..'z' change, to their upper case; every other code is kept |
| Utils.ToUpperCharFoldsOnlyLetters | Platform/AptioMemoryFix/Utils.c:19-34 | two codes fold together iff they are equal or the two cases of one ASCII letter |
| Utils.StrStriBasic | Platform/AptioMemoryFix/Utils.c:57-92 | the result is the first case-insensitive occurrence, none when there is none, and 0 for an empty search string |
| Utils.StriStartsWithBasic | Platform/AptioMemoryFix/Lib.c:189-224 | FALSE for NULL; two empty strings match; an empty prefix of a non-empty string does not; otherwise a case-insensitive prefix test |
| Utils.LowBytes | Platform/AptioMemoryFix/Utils.c:47-50 | every character becomes its low byte |
| Utils.ConvertUnicodeStrToAsciiStr | Platform/AptioMemoryFix/Utils.c:36-55 | NULL for a missing buffer or size 0; otherwise the low bytes of at most size-1 characters followed by a NUL |
| Utils.AsciiRoundTrip | Platform/AptioMemoryFix/Utils.c:36-55 | widening the narrowed text gives back an ASCII source that fits |
| Utils.Joined | Platform/AptioMemoryFix/Utils.c:115-118 | a backslash goes between unless the text is empty or already ends with one; the text is kept as a prefix and no NUL is introduced |
| Utils.CollectAsWritten | Platform/AptioMemoryFix/Utils.c:110-124 | the as-written walk only appends to the text, introduces no NUL, and keeps the text and its NUL inside the 256-character buffer |
| Utils.FileDevicePathToStrAsWritten | Platform/AptioMemoryFix/Utils.c:94-135 | as written, a returned text is non-empty, NUL-free and fits the buffer; NULL when AllocatePool gives no buffer |
| Utils.FileDevicePathToStrAsWrittenDropsFittingNode | Platform/AptioMemoryFix/Utils.c:113-119 | as written, a 60-character name after a 100-character one is dropped although it fits |
| Utils.Collect | Platform/AptioMemoryFix/Utils.c:110-124 | the collected text stays NUL-free and within the 256-character buffer |
| Utils.FileDevicePathToStr | Platform/AptioMemoryFix/Utils.c:94-135 | a returned text is non-empty, NUL-free and fits the buffer; NULL when no name is taken or AllocatePool gives no buffer |
| Utils.FileDevicePathToStrSingleName | Platform/AptioMemoryFix/Utils.c:94-135 | a single file-path node whose name fits comes out whole |
| Utils.Visited | Platform/AptioMemoryFix/Utils.c:110 | the walk looks at no more than four nodes, all before the end node and well formed |
| Utils.FileNames | Platform/AptioMemoryFix/Utils.c:111-113 | the file-path names, each non-empty and NUL-free |
| Utils.JoinAll | Platform/AptioMemoryFix/Utils.c:115-118 | joining NUL-free names gives NUL-free text |
| Utils.Kept | Platform/AptioMemoryFix/Utils.c:114 | the names taken, each one that fits after those taken before it, keep the joined text and its NUL in the buffer |
| Utils.FileDevicePathToStrJoinsFittingNames | Platform/AptioMemoryFix/Utils.c:94-135 | the result is exactly the '\'-join, in order, of the visited file-path names that fit after the names taken before them, or NULL when that join is empty or AllocatePool gives no buffer |
| Utils.CollectFoldsNames | Platform/AptioMemoryFix/Utils.c:110-124 | the walk takes the visited file-path names one by one, joining each on when it fits after the text so far |
| Utils.FoldFittingKeeps | Platform/AptioMemoryFix/Utils.c:114-118 | taking names one by one gives the join of exactly the names that fit after those taken before them |
| Utils.KeptStep | Platform/AptioMemoryFix/Utils.c:114-118 | one more name is joined on exactly when it fits |
| Utils.FitsCountsName | Platform/AptioMemoryFix/Utils.c:113-114 | for a well-formed file-path node the length field's fit test is the test on the name's own length |
| Utils.FileDevicePathToStrKeepsFittingNode | Platform/AptioMemoryFix/Utils.c:113-119 | the intended test keeps the second name that the as-written test drops |
| MachO.MachOGetEntryAddress | Platform/AptioMemoryFix/Mach-O/Mach-O.c:20-93 | 0 for an unknown signature or without LC_UNIXTHREAD; otherwise the first thread command's rip or eip, by header width |
| ShimSlots.ClaimSlot | AptioFixPkg/Platform/AptioInputFix/AmiShimKeycode.c:435-446 | EFI_ALREADY_STARTED iff another slot holds the handle; a claimed slot is the first free one; no claim only when no slot is free |
| ShimSlots.FindFirst | AptioFixPkg/Platform/AptioInputFix/AmiShimKeycode.c:282-291 | the first slot holding the value, or none iff no slot holds it |
| InputKeys.TranslateModifiers | Platform/AptioInputFix/Keycode/AIKTranslate.c:22-63 | nothing is reported without the valid flag; each pressed modifier reports its whole remap entry |
| InputKeys.DisjointRemapExact | Platform/AptioInputFix/Keycode/AIKTranslate.c:22-63 | with disjoint non-zero entries, an entry shows iff the state is valid and its modifier pressed |
| InputKeys.ContributionExact | Platform/AptioInputFix/Keycode/AIKTranslate.c:22-63 | one entry that shares no bit with the others shows iff its modifier is pressed |
| InputKeys.DefaultRemapExact | Platform/AptioInputFix/Keycode/AIKTranslate.c:22-63 | with the default map each pressed modifier shows its own HID bit and nothing else |
| InputKeys.KeypadUsage | AptioFixPkg/Platform/AptioInputFix/AmiShimKeycode.c:200-239 | a digit's keypad usage lies in 0x59..0x62 |
| InputKeys.KeypadDigit | AptioFixPkg/Platform/AptioInputFix/AmiShimKeycode.c:200-239 | a usage stands for a digit iff it lies in 0x59..0x62 |
| InputKeys.KeypadRoundTrip | AptioFixPkg/Platform/AptioInputFix/AmiShimKeycode.c:200-239 | digits and keypad usages correspond one to one |
| InputKeys.UpdateNumpad | AptioFixPkg/Platform/AptioInputFix/AmiShimKeycode.c:200-239 | a digit key reports its keypad usage; any other key keeps its usage |
| Ps2Map.Ps2ToUsbMapShape | AptioFixPkg/Platform/AptioInputFix/AmiShimPs2Map.c:18-659 | every entry has a zero usage exactly at an unmapped code, then with no names, and 0x1E is the letter A |
| Ps2Map.EntryShape | AptioFixPkg/Platform/AptioInputFix/AmiShimPs2Map.c:19-658 | one entry: a zero usage iff the code is unmapped, and then no names |
| Ps2Map.EntryShape00To1F | AptioFixPkg/Platform/AptioInputFix/AmiShimPs2Map.c:19-178 | the same for scan codes 0x00..0x1F |
| Ps2Map.EntryShape20To3F | AptioFixPkg/Platform/AptioInputFix/AmiShimPs2Map.c:179-338 | the same for scan codes 0x20..0x3F |
| Ps2Map.EntryShape40To5F | AptioFixPkg/Platform/AptioInputFix/AmiShimPs2Map.c:339-498 | the same for scan codes 0x40..0x5F |
| Ps2Map.EntryShape60To7F | AptioFixPkg/Platform/AptioInputFix/AmiShimPs2Map.c:499-658 | the same for scan codes 0x60..0x7F |
| Ps2Map.TablesIdentical | Platform/AptioInputFix/Keycode/AIKMap.c:19-660 | the translator's table equals the keycode shim's |
| AmiShimKeycode.Advance | AptioFixPkg/Platform/AptioInputFix/AmiShimKeycode.c:46-50 | one step along the ring wraps at twelve slots |
| AmiShimKeycode.Contents | AptioFixPkg/Platform/AptioInputFix/AmiShimKeycode.c:35-76 | the ring holds as many keys as its count |
| AmiShimKeycode.InitKeysBuffer | AptioFixPkg/Platform/AptioInputFix/AmiShimKeycode.c:26-32 | the ring is reset to empty |
| AmiShimKeycode.DropOldest | AptioFixPkg/Platform/AptioInputFix/AmiShimKeycode.c:35-53 | forgetting the oldest key leaves the rest in order |
| AmiShimKeycode.ReadKeysBuffer | AptioFixPkg/Platform/AptioInputFix/AmiShimKeycode.c:35-53 | an empty ring gives nothing; otherwise the oldest key is returned and dropped |
| AmiShimKeycode.SlotsDistinct | AptioFixPkg/Platform/AptioInputFix/AmiShimKeycode.c:55-76 | different positions among the keys held are different slots |
| AmiShimKeycode.PushAppends | AptioFixPkg/Platform/AptioInputFix/AmiShimKeycode.c:55-76 | pushing into a ring with room appends the key after those held |
| AmiShimKeycode.PushKeepsHeld | AptioFixPkg/Platform/AptioInputFix/AmiShimKeycode.c:55-76 | the slot a push writes holds none of the keys already held |
| AmiShimKeycode.WriteKeysBuffer | AptioFixPkg/Platform/AptioInputFix/AmiShimKeycode.c:55-76 | the key is appended, after the oldest one is dropped from a full ring |
| AmiShimKeycode.WriteThenReadIsFifo | AptioFixPkg/Platform/AptioInputFix/AmiShimKeycode.c:35-76 | what is written comes back out in order: the ring is a FIFO of the last twelve keys |
| AmiShimKeycode.SendData | AptioFixPkg/Platform/AptioInputFix/AmiShimKeycode.c:79-119 | the pending keys are reported with the modifiers, then cleared, and a later empty report is scheduled exactly when the database now holds something |
| AmiShimKeycode.SendDataSettles | AptioFixPkg/Platform/AptioInputFix/AmiShimKeycode.c:79-119 | a report is followed by one empty report, and then SendData is quiet |
| AmiShimKeycode.FlushBeforeInsert | AptioFixPkg/Platform/AptioInputFix/AmiShimKeycode.c:121-151 | pending keys are flushed when one is pending or the new key repeats one |
| AmiShimKeycode.InsertKey | AptioFixPkg/Platform/AptioInputFix/AmiShimKeycode.c:121-151 | after any flush the key is appended |
| AmiShimKeycode.InsertKeyKeepsOnePending | AptioFixPkg/Platform/AptioInputFix/AmiShimKeycode.c:121-151 | at most one key is ever pending |
| AmiShimKeycode.TranslateModifiersAsWritten | AptioFixPkg/Platform/AptioInputFix/AmiShimKeycode.c:153-198 | as written, nothing is reported without the valid flag |
| AmiShimKeycode.LeftShiftReportedAsRightShift | AptioFixPkg/Platform/AptioInputFix/AmiShimKeycode.c:168-170 | as written, a lone left shift reports the right-shift bit; the per-flag translation reports the left one |
| AmiShimKeycode.UpdateModifiers | AptioFixPkg/Platform/AptioInputFix/AmiShimKeycode.c:153-198 | changed modifiers flush the pending keys and become current; unchanged ones change nothing |
| AmiShimKeycode.AppendData | AptioFixPkg/Platform/AptioInputFix/AmiShimKeycode.c:241-270 | a mapped scan code updates the modifiers and inserts its key; an unmapped one is ignored; data with no usable scan code only updates the modifiers |
| AmiShimKeycode.FindProtocol | AptioFixPkg/Platform/AptioInputFix/AmiShimKeycode.c:282-291 | none iff This is NULL or no slot owns it; otherwise the first owner |
| AmiShimKeycode.ReadSlot | AptioFixPkg/Platform/AptioInputFix/AmiShimKeycode.c:293-314 | outside polling a saved key is served first; otherwise the original's status stands; a key is translated and saved when polling; EFI_NOT_READY flushes; other errors change nothing |
| AmiShimKeycode.ReadEfikey | AptioFixPkg/Platform/AptioInputFix/AmiShimKeycode.c:272-315 | an unknown protocol gives EFI_INVALID_PARAMETER with nothing changed; otherwise only the owner's slot takes part |
| AmiShimKeycode.InstallOnHandle | AptioFixPkg/Platform/AptioInputFix/AmiShimKeycode.c:435-466 | a duplicate handle, a full table or a failed buffer creation is reported and no slot changes; otherwise the first free slot is set up |
| AmiShimKeycode.InstalledNeverDoubleHooks | AptioFixPkg/Platform/AptioInputFix/AmiShimKeycode.c:458-464 | an installed slot never records the hook as its original |
| AmiShimPointer.Abs | AptioFixPkg/Platform/AptioInputFix/AmiShimPointer.c:29-36 | the magnitude narrowed to UINT8: below 256, and the true magnitude when it fits |
| AmiShimPointer.InternalClamp | AptioFixPkg/Platform/AptioInputFix/AmiShimPointer.c:40-52 | the result lies in the range and is the value when it already does |
| AmiShimPointer.ClampIdempotentMonotone | AptioFixPkg/Platform/AptioInputFix/AmiShimPointer.c:40-52 | clamping twice is clamping once, and clamping keeps order |
| AmiShimPointer.FilterAxis | AptioFixPkg/Platform/AptioInputFix/AmiShimPointer.c:56-97 | one axis: a small move is dropped exactly when the history is all still, and the history records stillness |
| AmiShimPointer.FilterOut | AptioFixPkg/Platform/AptioInputFix/AmiShimPointer.c:56-97 | a one- or two-unit move on an axis still for the last five samples is dropped; the index moves on one slot |
| AmiShimPointer.FilterRun | AptioFixPkg/Platform/AptioInputFix/AmiShimPointer.c:56-97 | the filter state stays valid over a series of samples |
| AmiShimPointer.Offset | AptioFixPkg/Platform/AptioInputFix/AmiShimPointer.c:56-97 | how many slots past a start a slot lies |
| AmiShimPointer.StillRunMarksHistory | AptioFixPkg/Platform/AptioInputFix/AmiShimPointer.c:56-97 | after n still samples the index has moved n slots and each slot passed records stillness |
| AmiShimPointer.StillSampleMarks | AptioFixPkg/Platform/AptioInputFix/AmiShimPointer.c:56-97 | a still sample marks the slot the filter had reached, leaves the other slots alone and moves the index on |
| AmiShimPointer.MarksStep | AptioFixPkg/Platform/AptioInputFix/AmiShimPointer.c:56-97 | a still sample extends the run of still slots past the starting index by one and moves the index on |
| AmiShimPointer.OffsetOfIndex | AptioFixPkg/Platform/AptioInputFix/AmiShimPointer.c:56-97 | the slot reached after n steps lies n slots past the start |
| AmiShimPointer.StillnessSuppressesJitter | AptioFixPkg/Platform/AptioInputFix/AmiShimPointer.c:56-97 | five still samples arm the filter: the next small move is dropped and a larger one passes |
| AmiShimPointer.BoostValue | AptioFixPkg/Platform/AptioInputFix/AmiShimPointer.c:170-180 | magnitudes below 80 are quadrupled and larger ones pass unchanged |
| AmiShimPointer.BoostJumpsAtEighty | AptioFixPkg/Platform/AptioInputFix/AmiShimPointer.c:170-180 | the boost is not monotone: 79 becomes 316 while 80 stays 80 |
| AmiShimPointer.Smooth | AptioFixPkg/Platform/AptioInputFix/AmiShimPointer.c:182-207 | both axes are clamped to ±96 and Z is dropped; a still sample leaves the history alone; otherwise it is filtered and boosted |
| AmiShimPointer.PollFrom | AptioFixPkg/Platform/AptioInputFix/AmiShimPointer.c:211-252 | the poll loop keeps every slot's identity and the shared filter valid |
| AmiShimPointer.PositionHandler | AptioFixPkg/Platform/AptioInputFix/AmiShimPointer.c:211-252 | nothing is polled before the first GetState; otherwise each device's reading is smoothed into its accumulators |
| AmiShimPointer.Started | AptioFixPkg/Platform/AptioInputFix/AmiShimPointer.c:254-298 | the first call starts usage and polls at once |
| AmiShimPointer.UpdateState | AptioFixPkg/Platform/AptioInputFix/AmiShimPointer.c:254-298 | pending motion or a button change is reported and cleared; otherwise EFI_NOT_READY |
| AmiShimPointer.Cleared | AptioFixPkg/Platform/AptioInputFix/AmiShimPointer.c:288-294 | a reported pointer has no pending motion |
| AmiShimPointer.ReportedOnce | AptioFixPkg/Platform/AptioInputFix/AmiShimPointer.c:254-298 | right after a report, a call with no button change and no new motion finds nothing |
| AmiShimPointer.PollAccumulates | AptioFixPkg/Platform/AptioInputFix/AmiShimPointer.c:211-252 | a poll keeps pending motion's flag and never touches Z |
| AmiShimPointer.SimplePointers | AptioFixPkg/Platform/AptioInputFix/AmiShimPointer.c:315-319 | the simple pointer of every slot, in slot order |
| AmiShimPointer.GetState | AptioFixPkg/Platform/AptioInputFix/AmiShimPointer.c:300-337 | a NULL This or State, or an unknown protocol, gives EFI_INVALID_PARAMETER; otherwise the first owning slot is updated |
| AmiShimPointer.Installed | AptioFixPkg/Platform/AptioInputFix/AmiShimPointer.c:460-469 | the slot records the device, protocols and original routine, never the hook |
| AmiShimPointer.InstallOnHandle | AptioFixPkg/Platform/AptioInputFix/AmiShimPointer.c:446-471 | a duplicate handle or a full table is reported with no change; otherwise the first free slot is set up and GetState hooked |
| AmiShim.ConfigureModifierMap | Platform/AptioInputFix/AmiShim.c:24-55 | the remap is the default bits with alt and GUI swapped |
| AmiShim.ConfiguredRemapIsPermutation | Platform/AptioInputFix/AmiShim.c:24-55 | the configured remap rearranges the eight default bits without losing or duplicating any |
| AmiShim.ConfiguredRemapExact | Platform/AptioInputFix/AmiShim.c:24-55 | under the configured remap each pressed modifier reports exactly its own entry |
| AmiShim.EntryPoint | Platform/AptioInputFix/AmiShim.c:74-93 | the remap is configured and success is reported even when the exit event could not be created |
| AmiShim.ExitBootServicesHandler | Platform/AptioInputFix/AmiShim.c:57-72 | the shutdown work is done on the first call only, and the remap is kept |
| AmiShim.ExitHandlerActsOnce | Platform/AptioInputFix/AmiShim.c:57-72 | however often the handler is signalled, the work happens once |
| AikTranslate.AikTranslateConfigure | Platform/AptioInputFix/Keycode/AIKTranslate.c:108-139 | the translator's remap is the default map |
| AikTranslate.Translate | Platform/AptioInputFix/Keycode/AIKTranslate.c:141-174 | modifiers under the remap; a usable, mapped scan code gives its key after the numpad fix; anything else gives UsbHidUndefined |
| AikTranslate.ConfiguredTranslateExact | Platform/AptioInputFix/Keycode/AIKTranslate.c:108-174 | with its own configuration the translator reports each pressed modifier as its own HID bit and nothing else |
| AikTranslate.AgreesWithKeycodeShim | Platform/AptioInputFix/Keycode/AIKTranslate.c:141-174 | the translator and the keycode shim read the same key from a mapped scan code |

## Left out

- UINT64 arithmetic is unbounded. Truncation is modelled only where it is visible: 32-bit kernel entries, the system table offset, the hibernate entry, the slide address and the wrapping sum in OverlapsWithSlide.
- Page-table work is not modelled: GetCurrentPageTable, VmMapVirtualPages and VmFlashCaches in ExecSetVirtualAddressesToMemMap, and the CPU instructions behind them. CPUID, the TSC and RDRAND are input values.
- Debug and console output is not modelled: DEBUG, PrintScreen, PrintMemMap, PrintSystemTable, WaitForKeyPress and GuidStr only report.
- Firmware services are inputs (a status, a map or a value): AllocatePages, AllocatePool in FileDevicePathToStr (whether it returns a buffer), GetMemoryMap, GetVariable, LocateProtocol, StartImage, ExitBootServices and SetVirtualAddressMap. A SetVariable failure in DetectBooterStartImage only prints a warning, so it is not modelled.
- HideSlideFromOS: the device tree's /chosen boot-args property is not modelled, because the flat device tree library is not part of this model. Only the kernel command line is cleaned.
- CustomSlide.AppendSlideArgument follows the explicit text building in Platform/AptioMemoryFix/BootFixes.c:781-824. AppendArgumentToCommandLine, called at CustomSlide.c:400, is not part of this model.
- FixHibernateWakeWithoutRelocBlock: only the force-old-memory-map configuration is modelled. The other branch restores types from a hand-off buffer whose layout is not part of this model.
- The newer FixBooting and the relocation-block variants are not part of this model. Only the *WithoutRelocBlock fixups are.
- AptioMemoryFix.KernelEntryPatchJumpBack: AptioMemoryFix.c:57-60 calls FixBooting and FixHibernateWake, whose bodies are not part of this model. BootFixes.FixBootingWithoutRelocBlock and BootFixes.FixHibernateWakeWithoutRelocBlock stand in for them, so the restored entry bytes, and the rest of each outcome, are promised for those fixups only. The dispatch on gHibernateWake is the source's.
- ServiceOverrides.MOExitBootServices: the -aptiodump debug path is treated as off. With it on, ServiceOverrides.c:288-294 would skip ForceExitBootServices and return EFI_SUCCESS. APTIOFIX_ALLOW_MEMORY_DUMP_ARG is 0 in Config.h:76.
- ServiceOverrides.MOSetVirtualAddressMap: the deferred exit of ServiceOverrides.c:344-351, which only the -aptiodump path reaches, is not modelled.
- PrepareJumpFromKernel, CopyEfiSysTableToSeparateRtDataArea, MOAllocatePool and MOFreePool are reduced to a status input or left out. So are DirectAllocatePool and DirectFreePool. They copy or allocate memory the model treats as opaque.
- AptioMemoryFix.RunImageWithOverrides: InstallRtShims (Platform/AptioMemoryFix/AptioMemoryFix.c:102), ReadBooterArguments (:126) and UninstallRtShims (:139) are not part of this member's model: it does not install or remove the runtime-services shims, and it does not parse the booter's load options.
- UnlockSlideSupportForSafeModeAndCheckSlide and ProcessBooterImage in BootFixes.c are left out. The boot path calls the CustomSlide.c unlock (Platform/AptioMemoryFix/AptioMemoryFix.c:120), and the model runs that unlock in its corrected form (see the first Findings row and the AptioMemoryFix.RunImageWithOverrides line below).
- BootArgs.BootArgsFind: the C loop has no bound. The model takes as a precondition that a match lies within `limit` page steps.
- BootArgs.RemoveArgumentFromCommandLine returns None where the C loop never ends, which is when the first occurrence is inside a token.
- BootArgs.BlankArgument: states exactly which characters become spaces only for a non-empty argument without spaces, such as the "slide=" the boot path removes. For other arguments it promises only that the length is kept and that only spaces are written.
- MemoryMap.Shrink requires a non-empty map. With an empty map the C code's remaining-size counter starts below zero.
- RunImageWithOverrides and the safe-mode unlock require an image of at least 20 bytes. Below that the C end pointer lies before the start of the image.
- Utils.FileDevicePathToStr requires well-formed file-path nodes. An empty first name would make the C code read before the start of its buffer.
- The pointer accumulators are unbounded INT32 values. The AMI smoothing branch is compiled out, and the absolute-pointer branch is a stub in the C code.
- AmiShimPointer.GetState models the State pointer only as present or NULL.
- PositionState readings are inputs. The reset of unused PositionState fields is not modelled.
- The timer plumbing is not modelled: ReadEfikeyHandler, the manual poll timer, Init, Exit, Install, Uninstall, TimerSetup and ArriveHandler only wire events and protocols. TimerUninstall compares the saved period with itself, and that is not modelled either.
- AmiShimKeycode.SendData drops the keymap database status.
- AmiShimKeycode.ReadEfikey: the original ReadEfikey's status and key are inputs. The NULL original of an already-hooked protocol is not modelled.
- AmiShimKeycode.InstallOnHandle: a failed CreateKeyStrokesBuffer may already have written the buffer index into the slot. The model leaves the slot unchanged.
- AptioMemoryFix.RunImageWithOverrides: runs the corrected safe-mode unlock, CustomSlide.UnlockSlideSupportForSafeMode. The C code at Platform/AptioMemoryFix/AptioMemoryFix.c:119-121 runs the unlock as written, which also overwrites the bytes at the end of its second scan when no second sequence follows the first. The contract promises the corrected patch only.
- AptioMemoryFix.DetectBooterStartImage: decides with the corrected Utils.FileDevicePathToStr and Utils.StrStriBasic. As written, a second file-path name that fits can be dropped before the boot.efi test, and a character in 0x80..0xFF matches the code 0xFF00 above it. The contract does not promise the as-written decision in those cases.
- Utils.StrStriBasic: folds case with the corrected Utils.ToUpperChar. As written, a character in 0x80..0xFF and the code 0xFF00 above it compare equal, so the C code can report a match the contract does not.
- Utils.StriStartsWithBasic: folds case with the corrected Utils.ToUpperChar, with the same consequence as for Utils.StrStriBasic.
- Utils.ToUpperCharAsWritten: takes CHAR8 to be signed, because the CHAR8 typedef is not part of this model. With an unsigned CHAR8, 0x80..0xFF would come back unchanged and the second Findings row would not arise.
- AmiShimKeycode.UpdateModifiers: translates with the corrected InputKeys.TranslateModifiers. As written, left shift reports the right-shift bit, and the contract does not promise that.
- AmiShimKeycode.AppendData: updates the modifiers through InputKeys.TranslateModifiers, with the same difference as AmiShimKeycode.UpdateModifiers.
- AmiShimKeycode.ReadSlot: reports modifiers through InputKeys.TranslateModifiers, with the same difference as AmiShimKeycode.UpdateModifiers.
- AmiShimKeycode.ReadEfikey: serves keys through AmiShimKeycode.ReadSlot, with the same difference as AmiShimKeycode.UpdateModifiers.
- MemoryMap.GetMemoryMapAlloc: requires that some retry round ends the loop (RetryEnds). The C do/while loop has no bound, and a firmware that keeps answering EFI_BUFFER_TOO_SMALL would keep it running.
- CustomSlide.GetVariableCustomSlide: requires a reading whose slide index is nonzero (HasUsableReading). The C loop retries the random source until the index is nonzero and would run forever without such a reading.
- CustomSlide.GenerateRandomSlideValue: requires HasUsableReading, for the same reason as CustomSlide.GetVariableCustomSlide.
- APPLE_KEY_CODE is a datatype, because AppleHid.h is not part of this model. EFI_KEY is used only for its digit positions.

## Findings

| source | as written | input that shows it | evidently intended | confidence | as-written member | corrected member |
|---|---|---|---|---|---|---|
| Platform/AptioMemoryFix/CustomSlide.c:478-499 | the second scan also stops at the scan end without a match, and the loop then patches whatever lies there | a 20-byte image `01 40 00 00` followed by 16 zero bytes: bytes 0..7 become 0xFF although bytes 4..7 never held the sequence | patch only a first occurrence and a real second occurrence within 0x10 bytes | not executed | CustomSlide.UnlockSlideSupportForSafeModeAsWritten, CustomSlide.SafeModeAsWrittenPatchesUnmatchedBytes | CustomSlide.UnlockSlideSupportForSafeMode, CustomSlide.SafeModeLoopFindsLeastPair |
| Platform/AptioMemoryFix/Utils.c:32-33 | the CHAR16 is narrowed to a signed CHAR8 for toupper, so 0x80..0xFF come back sign-extended | 0xE9 and 0xFFE9 both fold to 0xFFE9, so StrStriBasic matches one for the other | fold only 'a'..'z' and return every other code unchanged | not executed | Utils.ToUpperCharAsWritten, Utils.ToUpperCharAsWrittenConflates | Utils.ToUpperChar, Utils.ToUpperCharFoldsOnlyLetters |
| Platform/AptioMemoryFix/Utils.c:113-119 | the fit test adds a character count to a byte size | a 100-character name then a 60-character name: 162 of 256 characters are needed, but the test sees 202 + 61 and drops the second name | compare characters with characters | not executed | Utils.FileDevicePathToStrAsWritten, Utils.FileDevicePathToStrAsWrittenDropsFittingNode | Utils.FileDevicePathToStr, Utils.FileDevicePathToStrKeepsFittingNode |
| AptioFixPkg/Platform/AptioInputFix/AmiShimKeycode.c:168-170 | the left-shift flag ORs in the right-shift entry of the remap | shift state 0x80000002 (valid, left shift only) reports the right-shift bit 0x20, and the left-shift bit 0x02 can never be reported | each flag reports its own entry, as the translator's copy does at Platform/AptioInputFix/Keycode/AIKTranslate.c:39-41 | not executed | AmiShimKeycode.TranslateModifiersAsWritten, AmiShimKeycode.LeftShiftReportedAsRightShift | InputKeys.TranslateModifiers, InputKeys.DefaultRemapExact |
| Platform/AptioMemoryFix/BootArgs.c:120-127 | the loop searches again from the start of the line and stops only when no occurrence is left, but blanks only an occurrence at a token start | the line "xslide=1 slide=0" with the argument "slide=": the occurrence inside "xslide=1" is found on every pass, so the loop never ends | blank every occurrence at a token start and pass over the others | not executed | BootArgs.BlankArgument, BootArgsLemmas.FirstOccurrenceInsideTokenDiverges, BootArgsLemmas.SlideInsideTokenDiverges | BootArgs.BlankArgumentIntended, BootArgsLemmas.BlankArgumentIntendedClears |
