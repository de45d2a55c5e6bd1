# TomatBoot in Dafny

TomatBoot is a UEFI boot loader. It reads a configuration file, loads a kernel image into memory, and hands it the
tables its boot protocol asks for: a Multiboot2 information structure, or the stivale and stivale2 structures. This
project models the parts of the loader that compute something and proves what they promise.

| file | what it models |
|---|---|
| `Bytes.dfy`, `Layout.dfy` | little-endian words, the rounding macro `ALIGN_VALUE`, and packed structures |
| `MemoryMap.dfy`, `Coalesce.dfy`, `StivaleMemoryMap.dfy` | firmware memory map, its retyping, and the in-place merge of neighbours |
| `Machine.dfy`, `ElfLoader.dfy` | byte memory, the page allocator, and the ELF32/ELF64 segment loader |
| `Paging.dfy`, `HigherHalf.dfy` | four-level page tables in that memory, their edit, and the stivale load end to end |
| `TagStream.dfy`, `BootParams.dfy`, `Mb2Info.dfy`, `Mb2Header.dfy`, `Mb2Kernel.dfy` | Multiboot2: tag stream, growing buffer, tags, header, and the load end to end |
| `AcpiTimer.dfy` | the delay loop on the 24-bit timer and the time conversions |
| `Calendar.dfy` | Julian day number and Unix time |
| `BootConfig.dfy` | the configuration file: its meaning and the line loop |
| `DevicePath.dfy` | device paths as bytes and as nodes, and the choice of a partition |
| `GfxModes.dfy` | the cyclic search through the graphics modes |
| `Modules.dfy`, `StivaleModules.dfy` | loaded modules; the module list of stivale and the module array of stivale2 |

Everything read from or written to bytes is tied to the declared layout: each structure is written down as its list of
fields, and the reader is proved to get the fields back. Types and numbers in those results are literals.

Code that changes state is modelled by methods on arrays and objects, each proved against a specification function;
the lemmas are about those functions. `dafny verify dfyconfig.toml` checks everything.

## How to read the model

- Words have their width. Where the C code computes in 32 or 64 bits the model reduces modulo 2^32 or 2^64; everything
  else is unbounded. Masking with a power of two less one is written as a remainder, and bit tests as divisions.
- Physical memory is a total function from addresses to bytes, shared by the loaded images and the page tables.
  `Platform.free` is the set of page numbers the firmware can still give, and `willing` is its freedom to refuse.
- `AllocatePages(AllocateAddress)` succeeds only on pages that are all free. `GetMemoryMap` returns no more than the
  size it is given, with a stride of at least 40 bytes, the size of the descriptor structure. `FileRead` gives
  exactly the bytes asked for or an error.
- `FirmwareTables` says what the firmware leaves behind: free pages are identity mapped (section 2.3.4 of the UEFI 2.8
  specification), page tables are not in free pages, no walk comes back to the level-4 table, and the first level-4
  entry is a plain table entry. `FirmwareTablesExist` gives such tables.
- The Multiboot2 buffer starts at an address that is a multiple of 8, as pool memory does, so offsets and addresses
  round up alike.
- The code does not check `p_filesz <= p_memsz`. `SaneSegment` asks for it, because the fill length would wrap.
- `ELF_INFO` is not initialised in mb2, so `VirtualOffset` is an input of `LoadMB2Kernel`.

## What is false of the code, and exactly when it holds

- Merging keeps the coverage of a kind of memory if and only if no merged run of that kind reaches 2^64 bytes
  (`MergePreservesCoverage`; `FullAddressSpaceIsLost` is an input that fails). For a sorted map that is a condition on
  its last chain of neighbours (`SortedStaysSorted`).
- The pages asked for cover a segment if and only if its size is at most one page below the word size
  (`PagesCoverSegment`); above that, rounding up wraps to zero pages.
- A segment linked in the top two gigabytes is placed under its link if and only if the entry point is strictly above
  0xffffffff80000000, or its physical address says the same (`LandsUnderItsLink`; `EntryAtTheBaseIsLow` fails).
- `MicroSecondDelay` and `NanoSecondDelay` keep their promise on every clock if and only if the tick count fits 32 bits
  (`DelayKeptExactly`); so does the conversion of nanoseconds to ticks and back (`NanoRoundTrip`).
- A delay returns on every clock read 1 to S ticks apart if and only if S is at most 2^23 (`ReturnsExactly`;
  `SkippingNeverReturns` is a clock that fails).
- `GetUnixEpoch` takes its year in a byte. For a 16-bit year the result is Unix time if and only if the year is below
  256, so never for a date the firmware clock can show (`UnixEpochExactly`).
- stivale and stivale2 report the same memory type exactly for the types of `TablesAgreeExactly`: the table of stivale
  has no slot for persistent memory and reads the word after it.
- A tag reads back if and only if its size fits 32 bits (`OversizedTagIsLost`).

The configuration documentation says global keys may appear anywhere in the file (CONFIG.md:24-25). The code looks at
them only before the first entry (src/config/BootEntries.c:258-265); the model follows the code. The documentation
also leaves `mb2` out of the protocols (CONFIG.md:32), which the code accepts.

## Model

| member | source | states |
|---|---|---|
| Bytes.AlignValueRoundsUp | lib/uefi/Include/Base.h:883 | for every alignment that divides the modulus of the word, `ALIGN_VALUE` rounds up to its next multiple, and gives zero exactly when that does not fit |
| Bytes.RoundUpIsLeast | lib/uefi/Include/Base.h:883 | for every alignment the rounded value is a multiple, not below the value, and less than one step above it |
| Bytes.ByteOfLE | src/loaders/mb2/mb2.c:413-416 | a word is stored low byte first: byte i is the digit of weight 256^i |
| Layout.FieldsRead | src/loaders/elf/elf64.h:117-126 | every field of a packed structure reads back at the sum of the widths before it, whatever stands around the structure |
| Coalesce.MergePreservesCoverage | src/loaders/stivale2/stivale2.c:606-636 | output and input cover every address with a kind equally often, and hold equally many bytes of it, if and only if no run of that kind fills the address space |
| Coalesce.FullAddressSpaceIsLost | src/loaders/stivale2/stivale2.c:623-626 | two halves of the address space merge into an entry of length zero that covers nothing |
| Coalesce.HitsIsMembership | src/loaders/stivale2/stivale2.c:612-614 | for a range that does not come round, being covered is lying between base and end |
| Coalesce.MergeIsCanonical | src/loaders/stivale2/stivale2.c:608-636 | no two consecutive entries have the same type and touch; merging the output again gives the output |
| Coalesce.SplitInvariant | src/loaders/stivale2/stivale2.c:608-636 | cutting any descriptor into two adjacent pieces leaves the output as it is |
| Coalesce.SortedStaysSorted | src/loaders/stivale2/stivale2.c:606-636 | a sorted map without overlaps gives one; nothing of a kind is lost if and only if the map does not end in a chain of that kind over the whole address space |
| Coalesce.LastEntry | src/loaders/stivale2/stivale2.c:623-635 | once something was read there is a last entry; its type is LastType and its base plus length is LastEnd |
| Coalesce.StepOnWords | src/loaders/stivale2/stivale2.c:613-635 | one pass in wrapped 64-bit lengths is one step of the merge on the true lengths |
| Coalesce.ProtocolsAgree | src/loaders/stivale/stivale.c:280-310 | stivale and stivale2 write the same entries up to the number of the kernel type, whenever the tables agree on the types present |
| Coalesce.TablesAgreeExactly | src/loaders/stivale/stivale.c:24-39 | the two tables agree on a type exactly when it is not persistent memory, or is the kernel type, or the stray word says reserved |
| MemoryMap.KindsExactly | src/loaders/stivale2/stivale2.c:32-48 | in both tables, and for every kernel type, exactly conventional memory (7) is usable, 8 is bad, 1 to 4 are reclaimable, 9 and 10 are ACPI, the kernel type is the kernel, and the rest is reserved; only stivale's stray word decides 14 |
| Coalesce.HandedOver | src/loaders/stivale2/stivale2.c:606-636 | the entries of a kind cover every address as often, and hold as many bytes, as the descriptors of the firmware types meant for it, if and only if no run of the kind fills the address space |
| StivaleMemoryMap.WriteEntries | src/loaders/stivale2/stivale2.c:606-636 | the loop writes exactly the merge of the retyped descriptors, at most one entry per descriptor, and nothing behind them |
| StivaleMemoryMap.BuildMemoryMap | src/loaders/stivale2/stivale2.c:503-524 | the buffer made from the first size and a page is large enough for whatever the second call returns; each kind covers exactly what the descriptors of its firmware types cover, unless a run fills the address space; behind the entries, and after an error of that call everywhere, the buffer is as it was made |
| MemoryMap.MoreBytesMoreDescriptors | src/loaders/stivale2/stivale2.c:511-524 | a map that is not longer holds no more descriptors |
| MemoryMap.DescriptorReadsBack | lib/uefi/Include/Uefi/UefiSpec.h:98-130 | a descriptor that stands at i times the stride is read field by field, for every stride of at least 40 |
| Machine.Platform.AllocateAddress | src/loaders/elf/ElfLoader64.c:58 | pages are granted only when all are free, and are then no longer free |
| Machine.Platform.AllocatePage | src/loaders/stivale2/stivale2.c:487 | a page that was free and no longer is, or null when there is none |
| Machine.PagesTouched | src/loaders/elf/ElfLoader64.c:58 | the pages of a range are exactly those that have an address in common with it |
| Paging.PrepareHigherHalf | src/loaders/stivale2/stivale2.c:480-495 | the four table writes, in order, leave memory related to the old one by `EditOf` |
| Paging.EditedIsEditOf | src/loaders/stivale2/stivale2.c:483-495 | after the writes slot 256 is old slot 0, slot 511 leads to the new table, whose last two entries are the first two of the low table and whose others are zero; all other bytes are kept |
| Paging.HighAlias | src/loaders/stivale/stivale.c:238-239 | 0xffff800000000000 + x translates as x for x below 2^39, and x as before |
| Paging.KernelAlias | src/loaders/stivale/stivale.c:241-250 | 0xffffffff80000000 + x translates as x for x below 2^31 |
| Paging.LastSlotOtherwiseUnmapped | src/loaders/stivale/stivale.c:241-250 | the rest of the last level-4 slot is unmapped |
| Paging.ElsewhereUnchanged | src/loaders/stivale/stivale.c:235-250 | outside slots 256 and 511 every address translates as before |
| Paging.MaskAgreesOnPlainEntries | src/loaders/stivale2/stivale2.c:493 | the loader's mask gives the table the processor walks to when bits 52 to 62 are clear |
| Paging.WalkFrame | src/loaders/stivale2/stivale2.c:480-495 | a walk gives the same result in any memory that agrees on the tables it reads |
| Paging.TranslateByBits | src/loaders/stivale2/stivale2.c:476-495 | translation is the four-level walk: nine address bits pick the entry on each level, bit 0 is present, bit 7 maps a gigabyte or two megabytes, and the rest of the address is the offset |
| ElfLoader.PagesCoverSegment | src/loaders/elf/ElfLoader64.c:52-53 | the pages cover the segment with less than a page to spare exactly when its size rounds up within the word; otherwise no page is asked for |
| ElfLoader.SegmentReadsBack | src/loaders/elf/elf64.h:117-126 | for both classes, a program header laid out as declared at the place the file header names is read as its fields, and loaded exactly when its type is 1 and its memory size is not zero |
| ElfLoader.HeaderReadsBack | src/loaders/elf/elf64.h:66-81 | for both classes, a file header laid out as declared is read as its fields exactly when the identification has the magic, the class, little endian and version 1 |
| ElfLoader.PlacedByOffset | src/loaders/elf/ElfLoader64.c:56 | the load address is the virtual address less the offset in 64 bits, or the physical address when the offset is zero |
| ElfLoader.LoadSegment | src/loaders/elf/ElfLoader64.c:48-60 | succeeds exactly when pages and file bytes are to be had; then the image is in memory, its pages are taken, and only pages taken now have changed |
| ElfLoader.LoadSegments | src/loaders/elf/ElfLoader64.c:41-75 | succeeds exactly when every header can be read and every segment loads from what the earlier ones left; then all images are whole, no two overlap, and the bounds are the tightest |
| ElfLoader.LoadElf | src/loaders/elf/ElfLoader32.c:14-95 | for either class: succeeds exactly under `LoadSucceeds`; then every image is whole and none overlap, the bounds are tightest, and the section headers and entry are those of the file |
| ElfLoader.FreePagesAreDisjoint | src/loaders/elf/ElfLoader64.c:58 | a segment in free pages cannot overlap one whose pages are taken |
| ElfLoader.StaysIntact | src/loaders/elf/ElfLoader64.c:58-60 | later loading leaves an earlier image whole |
| ElfLoader.TightestStep | src/loaders/elf/ElfLoader64.c:62-68 | the running minimum and maximum stay the least interval around the images |
| HigherHalf.LandsUnderItsLink | src/loaders/stivale2/stivale2.c:76-79 | a higher-half segment is placed under its link exactly when the entry of the stivale header, or the ELF entry where that is zero, is strictly above the base, or the physical address agrees |
| HigherHalf.EntryAtTheBaseIsLow | src/loaders/stivale2/stivale2.c:77 | an entry at the very base is taken for low, and a segment linked there lands elsewhere |
| HigherHalf.LoadKernel | src/loaders/stivale2/stivale2.c:144-167 | succeeds exactly under `KernelLoads`; the offset is the base exactly when the entry that is jumped to is strictly above it; after load and page-table edit every image byte shows at its physical address, below 512 GiB and 2 GiB also at the two aliases, and the hole below is unmapped |
| HigherHalf.KernelReadableAtItsLink | src/loaders/stivale2/stivale2.c:156-164 | with an entry above the base, or an agreeing physical address, every linked byte of a higher-half segment reads as the file byte, or zero past the file size, at its linked address |
| HigherHalf.SeenAfterEdit | src/loaders/stivale2/stivale2.c:480-495 | a byte loaded before the edit is kept by it and reached from its address wherever that is, and from both aliases where they exist |
| HigherHalf.TranslationKept | src/loaders/elf/ElfLoader64.c:58-60 | loading into free pages changes no translation |
| HigherHalf.FirmwareTablesExist | src/loaders/stivale2/stivale2.c:480-495 | identity tables with free pages, as the end-to-end result asks for, exist |
| TagStream.WalkReadsBack | src/loaders/mb2/mb2.c:33-59 | walking a stream of laid tags closed by an end tag gives exactly those tags in order |
| TagStream.ReadsBack | src/loaders/mb2/mb2.c:255-262 | type, size and payload of a written tag read back when the size fits 32 bits |
| TagStream.OversizedTagIsLost | src/loaders/mb2/mb2.c:260 | a written tag reads back if and only if its size fits 32 bits |
| TagStream.LaidFrame | src/loaders/mb2/mb2.c:40-43 | tags laid before a point survive any change after it |
| TagStream.LaidSnoc | src/loaders/mb2/mb2.c:51-58 | a tag put at the end of a laid stream extends it to the next multiple of 8 |
| BootParams.Params.Reset | src/loaders/mb2/mb2.c:149-151 | the buffer starts with eight bytes and no tag |
| BootParams.Params.PushBootParams | src/loaders/mb2/mb2.c:33-59 | the buffer grows by the size rounded up to 8, keeps what it held, and holds the data where the returned base says |
| BootParams.Params.PushTag | src/loaders/mb2/mb2.c:265-272 | one tag is added behind all earlier ones, with the payload bytes that were written |
| BootParams.Params.PushStruct | src/loaders/mb2/mb2.c:295-313 | one given tag is added behind all earlier ones |
| Mb2Info.PushEarlyTags | src/loaders/mb2/mb2.c:254-339 | succeeds exactly when every module loads and every demanded ACPI table exists; then the stream is command line, loader name, modules in order, framebuffer and ACPI tables |
| Mb2Info.PushSections | src/loaders/mb2/mb2.c:356-365 | the section-header tag is added behind all earlier ones |
| Mb2Info.TailFits | src/loaders/mb2/mb2.c:388-429 | for every stride of at least 40 and every final map within the reserved size, both map tags and the end tag fit the region and start at multiples of 8 |
| Mb2Info.WriteMapEntries | src/loaders/mb2/mb2.c:409-416 | the loop writes one entry per descriptor, in order, and changes nothing before them |
| Mb2Info.WriteMapTag | src/loaders/mb2/mb2.c:403-416 | the memory-map tag stands where it was written, over the descriptors of the final map |
| Mb2Info.WriteTail | src/loaders/mb2/mb2.c:403-429 | the three tail tags stand one after another at multiples of 8 and what was before the region is kept |
| Mb2Info.FinishTail | src/loaders/mb2/mb2.c:380-429 | walking the final buffer gives all pushed tags, then a memory-map tag in which every descriptor reads back, the firmware's own map, and the end tag |
| Mb2Info.TailReads | src/loaders/mb2/mb2.c:403-429 | of the tail tags a kernel reads, for every descriptor, start, size in bytes, type and zero at multiples of 24, then the firmware's map with its stride and version, then the end |
| Mb2Info.ModuleTagReads | src/loaders/mb2/mb2.c:284-289 | a kernel reads start and end modulo 2^32 and the string |
| Mb2Info.ModuleTagsInOrder | src/loaders/mb2/mb2.c:277-292 | one tag for each module, in the order of the boot entry |
| Mb2Info.FramebufferTagReads | src/loaders/mb2/mb2.c:296-313 | a kernel reads address, pitch in bytes, width, height, 32 bits a pixel, and the three colour fields |
| Mb2Info.SectionsTagReads | src/loaders/mb2/mb2.c:357-365 | a kernel reads the count, the entry size, the name index and the section headers |
| Mb2Info.OtherTagsRead | src/loaders/mb2/mb2.c:254-339 | the place, type and contents of command line, loader name, modules, framebuffer and ACPI tables among the early tags |
| Mb2Header.LoadMB2Header | src/loaders/mb2/mb2.c:78-119 | finds the least 8-aligned offset below 32768 with a valid header, or nothing exactly when there is none; the contents are given exactly when the file holds them all |
| Mb2Header.CheckRequests | src/loaders/mb2/mb2.c:159-186 | an information request is refused exactly when it is not optional and asks for something unsupported; otherwise it updates what it asks for |
| Mb2Header.CheckTag | src/loaders/mb2/mb2.c:158-251 | a tag is accepted exactly when it is not rejected, and updates only the findings of its type |
| Mb2Header.WalkHeaderTags | src/loaders/mb2/mb2.c:153-252 | the walk accepts exactly the lists without a rejected tag; the last ACPI request and the last entry address win |
| Mb2Header.OneMoreTag | src/loaders/mb2/mb2.c:178-195 | what one more tag does to the entry address, the demanded tables and the raw-image flag |
| Mb2Header.HeaderFound | src/loaders/mb2/mb2.c:93-107 | four words are a header exactly when they are the magic number, architecture zero, and sum to zero modulo 2^32; the place must be a multiple of 8 below 32768 |
| Mb2Header.HeaderTagReadsBack | src/loaders/mb2/mb2.c:154-158 | a tag laid out as declared is read as its type, flags and body |
| Mb2Header.RequestsRead | src/loaders/mb2/mb2.c:159-166 | an information request asks for exactly the words it lists |
| Mb2Header.RejectedTags | src/loaders/mb2/mb2.c:158-251 | which tag numbers are refused, and when |
| Mb2Kernel.LoadEither | src/loaders/mb2/mb2.c:346-354 | the ELF32 image is used exactly when it loads, the ELF64 one exactly when that loads |
| Mb2Kernel.NeverBothClasses | src/loaders/mb2/mb2.c:348-354 | no file has a valid header of both classes |
| Mb2Kernel.LoadMB2Kernel | src/loaders/mb2/mb2.c:121-438 | a kernel is started exactly when the first header's tags, the modules, the image and the final map allow it; it then finds its image loaded and, walking the buffer, every tag in order |
| Mb2Kernel.RequestsAreAnswered | src/loaders/mb2/mb2.c:168-184 | the information a kernel may insist on is exactly the information some pushed tag gives |
| AcpiTimer.InternalAcpiDelay | src/uefi/AcpiTimerLib.c:48-73 | the nested loops compute the outcome `Delay` of the clock |
| AcpiTimer.NotBeforeTarget | src/uefi/AcpiTimerLib.c:69 | the bit test never ends a wait at or before its target, whatever the wraps |
| AcpiTimer.SeenOncePassed | src/uefi/AcpiTimerLib.c:69 | a read at most 2^23 ticks past the target ends the wait |
| AcpiTimer.DelayNeverShort | src/uefi/AcpiTimerLib.c:56-73 | on any clock that never runs back, a call that returns took at least D + D/2^22 + 1 ticks |
| AcpiTimer.DelayBounded | src/uefi/AcpiTimerLib.c:56-73 | if reads come 1 to S ticks apart with S at most 2^23, the call returns, within D + (2*(D/2^22) + 1)*S ticks |
| AcpiTimer.ReturnsExactly | src/uefi/AcpiTimerLib.c:69-71 | the call returns on every clock read 1 to S ticks apart if and only if S is at most 2^23 |
| AcpiTimer.SkippingNeverReturns | src/uefi/AcpiTimerLib.c:69-71 | a clock that steps 2^23 + 1 and 2^23 - 1 ticks in turn is never seen past its target, so no number of reads ends the call |
| AcpiTimer.MicroSecondDelay | src/uefi/AcpiTimerLib.c:83-97 | the call delays by the converted tick count and returns its argument; if the count fits 32 bits it took more than the microseconds asked for |
| AcpiTimer.DelayKept | src/uefi/AcpiTimerLib.c:83-121 | a call that returns took more than the micro- or nanoseconds asked for, although the conversion rounds down |
| AcpiTimer.DelayKeptExactly | src/uefi/AcpiTimerLib.c:75-121 | both calls keep that on every clock if and only if the tick count fits 32 bits |
| AcpiTimer.NanoSecondDelay | src/uefi/AcpiTimerLib.c:107-121 | the call delays by the converted tick count and returns its argument; if the count fits 32 bits it took more than the nanoseconds asked for |
| AcpiTimer.TimeIsExact | src/uefi/AcpiTimerLib.c:187-208 | the result is the exact quotient rounded down, in 64 bits; the remainder term never overflows, the whole-seconds term does not while the result fits |
| AcpiTimer.TimeIsMonotone | src/uefi/AcpiTimerLib.c:187-208 | more ticks never give less time, while the result fits |
| AcpiTimer.NanoRoundTrip | src/uefi/AcpiTimerLib.c:107-121 | nanoseconds to ticks and back lose at most 280 ns and never gain, if and only if the ticks fit 32 bits |
| Calendar.JdnCountsDays | src/util/TimeUtils.c:4-9 | the expression is the count of calendar days from year 0, for every valid date |
| Calendar.GetJdnCountsDays | src/util/TimeUtils.c:4-9 | in 64 bits too, for 16-bit years |
| Calendar.NextDayIsNextJdn | src/util/TimeUtils.c:4-9 | the next calendar day has the next number, over month ends, leap days and centuries |
| Calendar.JdnOrdersDates | src/util/TimeUtils.c:4-9 | numbers order dates as the calendar does, and no two dates share one |
| Calendar.UnixEpochOfReceivedYear | src/util/TimeUtils.c:11-18 | for the year received, the result is 86400 times the days since 1970 plus the seconds of the day, modulo 2^64 |
| Calendar.UnixEpochExactly | src/util/TimeUtils.c:11 | with a 16-bit year cut to a byte the result is Unix time if and only if the year is below 256 |
| BootConfig.LoadBootEntries | src/config/BootEntries.c:222-338 | accepts exactly the admissible files; then there is one entry per entry line, in order, each holding what its own lines mean |
| BootConfig.ApplyLine | src/config/BootEntries.c:270-336 | a line is accepted exactly when it fits its entry, and takes the entry to the meaning of one line more; the waiting module stays the first one without a string |
| BootConfig.AddModule | src/config/BootEntries.c:305-317 | the new module is last, and waits for a string if none did |
| BootConfig.TagModule | src/config/BootEntries.c:319-335 | the first module without a string gets it, and the one after it waits |
| BootConfig.BootEntry.InsertTail | src/config/BootEntries.c:312 | the linked list holds its old modules and the new one behind them |
| BootConfig.MeaningSnoc | src/config/BootEntries.c:270-336 | what one more line does to the meaning of an entry |
| BootConfig.BlocksAreTheFile | src/config/BootEntries.c:238-270 | entries and their lines, laid end to end, are the file from its first entry line on |
| BootConfig.StringsNeverOutnumberPaths | src/config/BootEntries.c:319-325 | at no point of an accepted file has an entry more module strings than module paths |
| BootConfig.GetBootEntryAt | src/config/BootEntries.c:33-41 | the entry at the index, or none when the index is out of range |
| BootConfig.LinesMean | src/config/BootEntries.c:246-319 | what a line says, for every spelling of every key and any text behind it |
| BootConfig.OtherLines | src/config/BootEntries.c:246-319 | a line says nothing exactly when it begins with none of the keys |
| BootConfig.ProtocolNames | src/config/BootEntries.c:290-302 | the four protocol names, and the three that take module strings |
| BootConfig.OneEntryFile | src/config/BootEntries.c:222-338 | from text to meaning: a file that says everything once is accepted exactly when its lines fit the buffer, its URIs resolve and its protocol takes module strings, and then gives that name, protocol, path, command line and tagged module |
| DevicePath.InsideDevicePath | src/util/DPUtils.c:7-24 | true exactly when the nodes of the one path are a prefix of the other's |
| DevicePath.LastDevicePathNode | src/util/DPUtils.c:26-37 | where the last node starts, or nothing exactly for a path without nodes |
| DevicePath.RemoveLastDevicePathNode | src/util/DPUtils.c:39-58 | the new path reads as all nodes but the last |
| DevicePath.FlatReadsBack | src/util/DPUtils.c:47-57 | nodes laid end to end and closed with an end node read back as those nodes |
| DevicePath.NodesAreNodes | src/util/DPUtils.c:26-37 | the bytes of a path are its nodes end to end |
| DevicePath.ChooseBootPartition | src/config/BootEntries.c:84-143 | the first handle on the boot drive whose last node is a hard-drive node with the number; an earlier handle error stops the search |
| DevicePath.PartitionNodeReads | lib/uefi/Include/Protocol/DevicePath.h:973-1011 | a hard-drive node laid out as declared, behind the nodes of a drive, is the wanted partition exactly when type, subtype and number say so |
| GfxModes.GetModeCommon | src/util/GfxUtils.c:9-49 | ends at the nearest supported mode in the direction, or where it started when there is no other |
| GfxModes.GetFirstGfxMode | src/util/GfxUtils.c:51-53 | the least supported mode |
| GfxModes.NextAndPrevAreInverse | src/util/GfxUtils.c:55-61 | next and previous undo each other on supported modes |
| GfxModes.NextInList | src/util/GfxUtils.c:55-57 | next takes each supported mode to the one after it, and the last to the first |
| GfxModes.TourVisitsAll | src/util/GfxUtils.c:51-57 | going from the first mode by next, the k-th stop is the supported mode numbered k modulo their count: each once per turn, for ever |
| GfxModes.GetBestGfxMode | src/util/GfxUtils.c:63-101 | the first exact match if there is one; otherwise a supported mode not larger in both directions; unset exactly when there is none |
| StivaleModules.PushModules | src/loaders/stivale/stivale.c:202-226 | following the list from the structure reads the modules in the order of the boot entry, and the count is right |
| StivaleModules.ListReads | src/loaders/stivale/stivale.c:216-223 | following the next pointers of a linked list reads its records in order |
| StivaleModules.FillModules | src/loaders/stivale2/stivale2.c:320-351 | the array of stivale2 holds the same records as the list of stivale |
| StivaleModules.RecordSays | src/loaders/stivale/stivale.c:211-214 | a record begins where the file was put, its end less its begin is the size modulo 2^64, and its text is the tag when that fits |

## Left out

- GetBestGfxMode: how close the chosen mode is to the request is not stated, because the replacement rule keeps no best choice; leaving the result unset is modelled as `None`.
- LoadKernel: a null answer from `AllocatePages(1)` for the new table is not checked by the loaders; such a run ends without a result here. The entry point of the stivale header is an input, so the search for its ELF section is not modelled.
- LoadElf: products of header fields that overflow a C `int` are taken at their mathematical value; what memory holds after a failed load is stated only as "only pages taken during the load changed".
- LoadMB2Kernel: a first header that the file cuts short, or whose tags run out of it, is excluded (the loader then reads memory it has not filled), and so is a section entry size of zero, which the code divides by. A final memory map of 4 GiB or more is excluded, since its size fields have 32 bits. Pool memory and page memory are kept apart, and pool allocations do not fail.
- InternalAcpiDelay: the loop is watched for a given number of timer reads, so that a clock that never ends it can be spoken of; the timer is the 24-bit one.
- LoadBootEntries: `ParseUri` is an input that maps a URI to a location or an error; splitting the URI text, the numeric global keys and the choice among configuration file names are not modelled. Modules are linked forward only; the boot entries are a sequence.
- ChooseBootPartition: the search by partition GUID is not modelled; it differs only in the test on the last node.
- RemoveLastDevicePathNode: a path without nodes is excluded; the code then computes with a null pointer.
- GetModeCommon: starting at -1 with no supported mode is excluded; the loop never ends there.
- Mb2Info.WriteMapTag: memory types of entries are an input, since the table is indexed without a range check.
- Page-table words are read and written at their physical addresses; the identity map makes these the addresses the loaders use. Five-level paging, TLB effects, CR0 and the jump stubs are not modelled.
- Framebuffer, epoch, firmware and RSDP tags of stivale2, SMP start-up (never requested), the Linux protocol, menus, drawing, NVRAM settings and the ACPI table search are not modelled.
