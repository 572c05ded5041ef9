# ccontrol, modelled in Dafny

ccontrol lets a program choose which colours of the last-level cache its data
lives in. A kernel module reserves physical memory and sorts its pages by
cache colour. For a set of colours it hands out a device whose pages all have
those colours. A user-space library maps such a device as a *zone* and serves
`malloc`-style requests from it with a small free-list allocator that lives
inside the zone.

This project models the core of that system and proves what it promises:

- **The in-zone free list** (`ccontrol/src/lib/freelist.c`, `ccontrol/lib/freelist.h`).
  - `FreelistModel` is the reference definition over the zone's layout. The
    zone is a dummy head record followed by records that tile the zone, each
    one free or handed out.
  - `Freelist.Arena` is the allocator as the C code runs it. A class holds the
    zone's `size` and `next` words, keyed by record offset. The `while` loops
    of `fl_findfit` and `fl_findprevious` walk the list. `Allocate` and `Free`
    are proved to compute the reference functions.
  - Both allocate with the intended adjusted size. `fl_adjustsize` as
    written wraps in `size_t` for the 23 largest requests. That is the
    first row under "## Findings"; `AdjustSizeWrapped` and `AllocateWrapped`
    model it.
  - `FreelistCapacity` relates `fl_allocate` and `fl_free`: round trips, the
    largest request a fresh zone grants, and runs of requests.
- **Colour sets** (`ccontrol/lib/colorset.h`). `ColorSets.ColorSet` is an
  array of 16 64-bit words updated in place. Set, clear and zero are proved
  against the set of colours the words hold.
- **Zones** (`ccontrol/src/lib/ccontrol.c`).
  - Zone sizing.
  - The staged creation with unwinding and the best-effort teardown. The
    system calls are modelled as events with their outcomes as parameters.
  - The guards in front of the free list. As written they test only for
    NULL; the entry points are modelled with MAP_FAILED refused too (see
    "## Findings").
- **The LD_PRELOAD layer** (`ccontrol/src/lib/libc_bypass.c` and its later
  copy `src/lib/libc_bypass.c`).
  - The colour-list and size parsers, over glibc's `strtoul` with base 0.
  - The `in_init`/`init_ok` bootstrap.
  - The dispatch of `malloc`, `free`, `realloc` and `calloc`.
- **The older multi-device allocator** (`ccontrol/malloc/malloc.c`).
  `KcacheModel` holds the allocator's rules on values, both as written and
  corrected. `Kcache.Allocator` is the `config` array of devices with its
  scanning loops, running the corrected rules. Each correction comes from a
  row under "## Findings", and the rows below say "corrected" wherever a
  member states the corrected behaviour.
- **The kernel modules**, with pages as page-frame numbers and the page
  colour as a parameter.
  - `PagePool` models `ccontrol/src/module/ccontrol.c`:
    - per-colour page stacks;
    - round-robin `create_colored` with rollback;
    - `free_colored`, `ioctl_new`/`ioctl_free`, `clean_devices` and `reserve_memory`.
  - `Partition` models `ccontrol/module/ccontrol.c`:
    - the colour map of both `init_colormap` variants;
    - the subdivision check;
    - the distribution of pages to partitions.
  - `Frames` holds what the two modules share: head sizes, block counts and
    stacks of pages. It also holds the newer module's fault and mmap
    handlers (`Frames.FaultAt`, `Frames.Mmap`). The older module's fault
    handler is `Partition.FaultOld`, and its mmap check is
    `Partition.MmapNarrow`.

Two arithmetic settings hold throughout:

- **Word sizes.** Sizes follow an LP64 build: `size_t` and `unsigned long` are
  64 bits, `unsigned int` is 32 bits, `sizeof(fl)` is 16 and `PAGE_SIZE` is
  4096. Wrap-around is written out where the code relies on it or suffers
  from it.
- **Build parameters.** The cache geometry comes from headers that are not
  part of this model, so it enters as parameters. `LL_NUM_COLORS` is
  `ncolors`. `L2_NUM_COLORS` is `l2`, where 0 means the macro is undefined.
  `PFN_TO_COLOR` is `color`. `MAX_SUBDIVISIONS` is taken to equal
  `LL_NUM_COLORS`.

## Model

| member | source | states |
|---|---|---|
| CStdlib.DigitValue | ccontrol/src/lib/libc_bypass.c:44 | the digit value strtoul gives a character is at most 36, and below 10 exactly for decimal digits |
| CStdlib.SkipSpace | ccontrol/src/lib/libc_bypass.c:44 | strtoul's leading white space: the position returned is no earlier than the start, and no white space is left before it |
| CStdlib.DigitsEnd | ccontrol/src/lib/libc_bypass.c:44 | strtoul stops at the first non-digit of the base: every character before the end is a digit and the one at the end is not |
| CStdlib.StrToUL | ccontrol/src/lib/libc_bypass.c:44 | strtoul with base 0: the value is at most ULONG_MAX, the end pointer lies within the string, a leading digit is always consumed, and ERANGE comes with ULONG_MAX |
| CStdlib.StrToULDecimal | ccontrol/src/lib/libc_bypass.c:74 | strtoul reads back the decimal spelling of every unsigned long, stopping right after it |
| CStdlib.Decimal | ccontrol/src/lib/libc_bypass.c:44 | the decimal spelling of a number is non-empty, made of digits, and has no leading zero unless the number is 0 |
| CStdlib.DecimalDigits | ccontrol/src/lib/libc_bypass.c:44 | the digits of a decimal spelling run to its end and denote the number |
| ColorSets.ColorElt | ccontrol/lib/colorset.h:22 | the word holding colour c is c / NBITS, one of the CSET_SIZE = 16 words for c < 1024 |
| ColorSets.ColorPosition | ccontrol/lib/colorset.h:21-23 | distinct colours never share both a word and a bit position |
| ColorSets.WithColor | ccontrol/lib/colorset.h:38-39 | after COLOR_SET(c), c is set and every other colour keeps its membership |
| ColorSets.WithoutColor | ccontrol/lib/colorset.h:40-41 | after COLOR_CLR(c), c is clear and every other colour keeps its membership |
| ColorSets.NoColors | ccontrol/lib/colorset.h:42-48 | after COLOR_ZERO no colour below 1024 is set |
| ColorSets.MembersWithColor | ccontrol/lib/colorset.h:38-39 | COLOR_SET adds exactly c to the set of colours |
| ColorSets.MembersWithoutColor | ccontrol/lib/colorset.h:40-41 | COLOR_CLR removes exactly c from the set of colours |
| ColorSets.MembersNoColors | ccontrol/lib/colorset.h:42-48 | COLOR_ZERO leaves the empty set |
| ColorSets.WithColorIdempotent | ccontrol/lib/colorset.h:38-39 | COLOR_SET twice is COLOR_SET once |
| ColorSets.WithoutColorIdempotent | ccontrol/lib/colorset.h:40-41 | COLOR_CLR twice is COLOR_CLR once |
| ColorSets.ColorSet.constructor | ccontrol/lib/colorset.h:29-31 | a color_set is CSET_SIZE words, holding whatever it was created with |
| ColorSets.ColorSet.Set | ccontrol/lib/colorset.h:38-39 | COLOR_SET in place: the words become WithColor of the old words, so c joins and nothing else changes |
| ColorSets.ColorSet.Clr | ccontrol/lib/colorset.h:40-41 | COLOR_CLR in place: the words become WithoutColor of the old words |
| ColorSets.ColorSet.Zero | ccontrol/lib/colorset.h:42-48 | the clearing loop leaves every word 0, so COLOR_ISSET is false for every colour |
| FreelistLayout.VoidToFl | ccontrol/lib/freelist.h:27 | VOID_TO_FL steps back one header from a user pointer |
| FreelistLayout.VoidToFlAfterFlToVoid | ccontrol/lib/freelist.h:25-27 | VOID_TO_FL undoes FL_TO_VOID, and the user pointer lies HEADER_SIZE past its record |
| FreelistModel.AdjustSize | ccontrol/src/lib/freelist.c:25-33 | the intended fl_adjustsize, without the size_t wrap (corrected half of the freelist.c:28-31 finding): the smallest multiple of sizeof(fl) that holds the request plus its header |
| FreelistModel.AdjustSizeWrapped | ccontrol/src/lib/freelist.c:25-33 | fl_adjustsize as written in size_t: a multiple of sizeof(fl) below 2^64 that equals the intended size modulo 2^64, and equals it outright exactly for requests up to SIZE_MAX - 23 |
| FreelistModel.Init | ccontrol/src/lib/freelist.c:76-86 | fl_init leaves a well-formed zone whose head counts the zone less one record and whose list is one free node of that size right after the head; the count is exact exactly when the zone is aligned |
| FreelistModel.FirstFit | ccontrol/src/lib/freelist.c:37-55 | first fit: no free record before the choice holds the request, and the choice is a free record that does (or there is none) |
| FreelistModel.Carve | ccontrol/src/lib/freelist.c:106-118 | a node with less than sizeof(fl) to spare is handed out whole; otherwise it keeps its address and shrinks, and the block is its high end |
| FreelistModel.FirstFitInList | ccontrol/src/lib/freelist.c:37-55 | the first fit by address is the first fit in list order: every earlier node is too small |
| FreelistModel.AllocateRefusal | ccontrol/src/lib/freelist.c:88-103 | fl_allocate with the intended adjusted size (corrected, freelist.c:28-31 finding) returns NULL and leaves the zone alone exactly for a zero request, an adjusted size above the head's count, or no node that fits |
| FreelistModel.AllocateSuccess | ccontrol/src/lib/freelist.c:104-121 | a granted block is carved from the first node that fits; it is no longer free, holds the adjusted size with less than sizeof(fl) of slack, and the head's count drops by the adjusted size |
| FreelistModel.AllocatePreserves | ccontrol/src/lib/freelist.c:88-122 | fl_allocate keeps the zone well formed: tiled, coalesced, every record roomy, the head never understating the free bytes |
| FreelistModel.AllocateKeepsExact | ccontrol/src/lib/freelist.c:106-120 | in an aligned zone the head's count stays equal to the free bytes after fl_allocate |
| FreelistModel.FreeListSizeSum | ccontrol/src/lib/freelist.c:12-16 | when the count is exact, head.size is the sum of the node sizes |
| FreelistModel.FreeListIncreasing | ccontrol/src/lib/freelist.c:57-72 | the free list is in strictly ascending address order |
| FreelistModel.FreeListSeparated | ccontrol/src/lib/freelist.c:141-159 | consecutive nodes of the list are never adjacent: a handed-out record lies between them |
| FreelistModel.ZoneConservation | ccontrol/src/lib/freelist.c:12-16 | free and handed-out bytes add up to the zone less the head record |
| FreelistModel.Neighbours | ccontrol/src/lib/freelist.c:141-159 | around a block being freed, fl_findprevious stops at the right place, and the two adjacency tests hold exactly when the neighbouring records are free |
| FreelistModel.MergedRun | ccontrol/src/lib/freelist.c:141-159 | fl_free merges the block with its free neighbours into one record spanning exactly their bytes, bordered by no free record |
| FreelistModel.FreePreserves | ccontrol/src/lib/freelist.c:125-160 | fl_free keeps the zone well formed, and the block's bytes end up inside one free record |
| FreelistModel.FreeKeepsExact | ccontrol/src/lib/freelist.c:135 | in an aligned zone the head's count stays equal to the free bytes after fl_free |
| Freelist.Arena.Init | ccontrol/src/lib/freelist.c:76-86 | fl_init writes the head and a single node whose words represent the reference Init |
| Freelist.Arena.FindFit | ccontrol/src/lib/freelist.c:37-55 | the walk returns the first node in list order that holds the request, with its predecessor (the head for the first node), or NULL |
| Freelist.Arena.FindPrevious | ccontrol/src/lib/freelist.c:57-72 | the walk returns the last node below the address, or the head when there is none |
| Freelist.Arena.Allocate | ccontrol/src/lib/freelist.c:88-122 | fl_allocate with the intended adjusted size (corrected, freelist.c:28-31 finding) returns the pointer the reference Allocate gives, and the words afterwards represent its zone |
| Freelist.Arena.Free | ccontrol/src/lib/freelist.c:125-160 | fl_free leaves words representing the reference Free's zone; NULL changes nothing |
| Freelist.CarveWords | ccontrol/src/lib/freelist.c:106-120 | the word updates of fl_allocate: an unlinked whole node or a cut-off tail, and the head's count less the adjusted size |
| FreelistCapacity.MaxRequest | ccontrol/tests/fl.c:14 | the largest request a fresh zone grants is the free bytes rounded down to whole records, less one header |
| FreelistCapacity.MaxRequestGranted | ccontrol/src/lib/freelist.c:88-122 | a fresh zone grants MaxRequest and refuses every larger request |
| FreelistCapacity.TestMaxAligned | ccontrol/lib/freelist.h:34 | zone size less ALLOCATOR_OVERHEAD is grantable exactly when the zone size is a whole number of records |
| FreelistCapacity.TestMaxRefused | ccontrol/tests/fl.c:33-34 | a 500-byte zone refuses 500 - ALLOCATOR_OVERHEAD = 476 bytes |
| FreelistCapacity.AdjustSizeMonotone | ccontrol/src/lib/freelist.c:25-33 | the intended fl_adjustsize never decreases as the request grows (the size_t one does, see WrappedAdjustNotMonotone) |
| FreelistCapacity.WrappedAdjustNotMonotone | ccontrol/src/lib/freelist.c:25-33 | in size_t, SIZE_MAX - 23 adjusts to 2^64 - 16, while SIZE_MAX - 22 and SIZE_MAX - 7 adjust to 0 and SIZE_MAX adjusts to 16 |
| FreelistCapacity.SizeMaxGranted | ccontrol/src/lib/freelist.c:88-122 | as written, a fresh 64-byte zone serves SIZE_MAX with a 16-byte block and SIZE_MAX - 7 with a pointer past the zone's end (as-written half of the freelist.c:28-31 finding) |
| FreelistCapacity.HugeRequestRefused | ccontrol/src/lib/freelist.c:88-103 | with the intended size, fl_allocate agrees with the code wherever the adjustment does not wrap, and refuses, leaving the zone alone, wherever it wraps (corrected half) |
| FreelistCapacity.FreeUndoesAllocate | ccontrol/src/lib/freelist.c:125-160 | freeing the block just allocated puts back the records the zone had, and the count grows by the block's size |
| FreelistCapacity.FreeRestoresExact | ccontrol/src/lib/freelist.c:120 | in an aligned zone, allocate then free restores the zone exactly, count included |
| FreelistCapacity.UnalignedDrift | ccontrol/src/lib/freelist.c:106-110 | in an unaligned zone a node handed out whole makes the count overstate the free bytes after the free |
| FreelistCapacity.FreshZoneGrantsRun | ccontrol/src/lib/freelist.c:88-122 | a fresh zone grants every request of a run whose consumption fits its free bytes |
| Zones.MemsizeToZonesize | ccontrol/src/lib/ccontrol.c:56-59 | ccontrol_memsize2zonesize with the overhead as a parenthesised sum, `nballoc - 1` in unsigned int: a size_t result |
| Zones.MemsizeToZonesizeExpanded | ccontrol/lib/freelist.h:34 | the same line with the macro's trailing ';': only memsize plus the overhead is returned |
| Zones.ReadingsAgree | ccontrol/src/lib/ccontrol.c:58 | the two readings agree exactly for one allocation; for none the subtraction wraps |
| Zones.MemsizeToZonesizeTooSmall | ccontrol/src/lib/ccontrol.c:58 | a zone sized for one 1024-byte allocation cannot serve it |
| Zones.ZoneSizeFor | ccontrol/src/lib/ccontrol.c:56-59 | a zone size that is whole records and covers the head, the data, and a header plus rounding per allocation |
| Zones.ZoneSizeForSuffices | ccontrol/src/lib/ccontrol.c:56-59 | a fresh zone of ZoneSizeFor bytes grants every request of the run, in order |
| Zones.Zone.constructor | ccontrol/src/lib/ccontrol.c:45-47 | a new zone has no descriptor, no mapping and size 0 |
| Zones.New | ccontrol/src/lib/ccontrol.c:39-49 | ccontrol_new returns NULL exactly when malloc fails, otherwise a fresh zone with fd -1, p NULL, size 0 |
| Zones.CreateZone | ccontrol/src/lib/ccontrol.c:61-131 | NULL arguments give 1 with no call; otherwise the setup calls up to the first failure, then the undoing of the successful ones latest first and 1; or on success a mapped zone with a fresh free list, its size and device recorded, and 0 |
| Zones.FailedCreateReleasesAll | ccontrol/src/lib/ccontrol.c:118-128 | a failed creation releases exactly what each successful step acquired, each once, in reverse order |
| Zones.UnwindReverse | ccontrol/src/lib/ccontrol.c:118-128 | the unwinding is the releases of the successful steps in reverse order |
| Zones.DestroyZone | ccontrol/src/lib/ccontrol.c:137-174 | munmap and close whatever happens; 1 exactly for a NULL zone, a control device that will not open, or a failed IOCTL_FREE |
| Zones.TeardownUndoesSetup | ccontrol/src/lib/ccontrol.c:137-174 | tearing down a created zone releases what creation kept, latest first |
| Zones.Malloc | ccontrol/src/lib/ccontrol.c:177-182 | with the checked guard (corrected half of the ccontrol.c:177-196 finding): NULL without a zone, without a mapping or after a failed mmap, otherwise fl_allocate on the zone |
| Zones.Free | ccontrol/src/lib/ccontrol.c:184-189 | with the checked guard (corrected): nothing without a zone, without a mapping or after a failed mmap, otherwise fl_free on the zone |
| Zones.Realloc | ccontrol/src/lib/ccontrol.c:191-196 | with the checked guard (corrected): NULL without a zone, without a mapping or after a failed mmap, otherwise fl_realloc's result |
| Zones.MapFailedPassesGuard | ccontrol/src/lib/ccontrol.c:177-196 | the guard as written passes MAP_FAILED, which a failed create leaves in the zone, on to the free list; the checked guard refuses exactly that pointer and decides every other one as written |
| BypassParse.Span | ccontrol/src/lib/libc_bypass.c:58-61 | the colours a..b |
| BypassParse.Bounded | ccontrol/src/lib/libc_bypass.c:54-57 | a reversed range or an upper bound from 1024 up is rejected, any other range kept |
| BypassParse.FirstToken | ccontrol/src/lib/libc_bypass.c:41-53 | text not starting with a digit is rejected; an accepted token's range lies below 1024 and consumes text |
| BypassParse.ColorList | ccontrol/src/lib/libc_bypass.c:40-65 | the result is 0 or 1; the colours set before stay set and every new one is below 1024; a list not starting with a digit gives 1 and sets nothing |
| BypassParse.ParseColorList | ccontrol/src/lib/libc_bypass.c:36-66 | parse_color_list clears the set, then leaves the code and the colours ColorList gives |
| BypassParse.SetSpan | ccontrol/src/lib/libc_bypass.c:58-61 | the inner loop adds exactly the colours a..b |
| BypassParse.ReadToken | ccontrol/src/lib/libc_bypass.c:41-63 | one pass of the loop up to setting the bits computes FirstToken |
| BypassParse.RenderParses | ccontrol/src/lib/libc_bypass.c:36-66 | every list of valid ranges in decimal reads back with result 0 and exactly the covered colours |
| BypassParse.BadRangeRejected | ccontrol/src/lib/libc_bypass.c:54-57 | a reversed or out-of-range token gives 1, leaving only the colours set before it |
| BypassParse.PartialSetKept | ccontrol/src/lib/libc_bypass.c:54-57 | "1,5-2" gives 1 with colour 1 still set |
| BypassParse.OctalTen | ccontrol/src/lib/libc_bypass.c:44 | "010" is colour 8, since base 0 reads a leading 0 as octal |
| BypassParse.OctalSplit | ccontrol/src/lib/libc_bypass.c:44 | "08" sets colours 0 and 8 with no ',' between them |
| BypassParse.ParseSize | ccontrol/src/lib/libc_bypass.c:69-92 | parse_size fails exactly when strtoul overflows, with ERANGE; without a suffix the size is strtoul's value |
| BypassParse.ParseSizeDecimal | ccontrol/src/lib/libc_bypass.c:69-92 | a decimal size without suffix reads back unscaled |
| BypassParse.ParseSizeScales | ccontrol/src/lib/libc_bypass.c:77-91 | a decimal number with a suffix reads back multiplied by the suffix's power of two, modulo 2^64 |
| BypassParse.SizeWraps | ccontrol/src/lib/libc_bypass.c:80-86 | "17179869184g" and every multiple of 2^34 gibibytes read as size 0 with no error |
| BypassParse.ParseSizeCheckedExact | ccontrol/src/lib/libc_bypass.c:69-92 | a checked parse succeeds exactly when the scaled number fits, and then agrees with parse_size |
| LibcBypass.Outcome | ccontrol/src/lib/libc_bypass.c:105-160 | init creates a zone only for the colours and the size the build parses from the environment |
| LibcBypass.Mmap | ccontrol/src/lib/libc_bypass.c:162 | MMAP gives an anonymous mapping of the length, or MAP_FAILED |
| LibcBypass.Bypass.constructor | ccontrol/src/lib/libc_bypass.c:33-34 | both flags clear and the zone unmapped |
| LibcBypass.Bypass.Init | ccontrol/src/lib/libc_bypass.c:105-160 | in_init is set first; on success the zone is created, in_init clear and init_ok set; a failure ends the process with in_init still set (same in src/lib/libc_bypass.c:47-105) |
| LibcBypass.Bypass.Cleanup | ccontrol/src/lib/libc_bypass.c:94-103 | only with init_ok set: destroy the zone, _exit on failure, otherwise clear init_ok (same in src/lib/libc_bypass.c:36-45) |
| LibcBypass.Bypass.Malloc | ccontrol/src/lib/libc_bypass.c:163-170 | an anonymous mapping, or MAP_FAILED, during init; otherwise init when idle, then fl_allocate with the intended size (freelist.c:28-31 finding) on the zone (same in src/lib/libc_bypass.c:108-115) |
| LibcBypass.Bypass.Free | ccontrol/src/lib/libc_bypass.c:172-179 | nothing during init; otherwise init when idle, then fl_free on the zone (same in src/lib/libc_bypass.c:117-124) |
| LibcBypass.Bypass.Realloc | ccontrol/src/lib/libc_bypass.c:181-191 | during init, memcpy copies n bytes into a fresh mapping and dies of a memory fault when n > 0 and the mmap failed or ptr is NULL, otherwise the mapping or MAP_FAILED comes back; outside init, init when idle, then fl_realloc (same in src/lib/libc_bypass.c:126-136) |
| LibcBypass.Bypass.Calloc | ccontrol/src/lib/libc_bypass.c:193-209 | NULL for a zero count or size; otherwise the wrapped product served as malloc serves it, through fl_allocate with the intended size (same in src/lib/libc_bypass.c:138-154) |
| LibcBypass.DecimalEnvironmentCreates | ccontrol/src/lib/libc_bypass.c:137-159 | valid ranges and a decimal size in the environment lead init to a zone for exactly those colours and bytes |
| KcacheModel.Normalize | ccontrol/malloc/malloc.c:58-66 | a multiple of MIN_SIZE at least the size, wrapping to 0 in the last 15 values |
| KcacheModel.NormalizeIdempotent | ccontrol/malloc/malloc.c:58-66 | normalize is idempotent |
| KcacheModel.Request | ccontrol/malloc/malloc.c:172-173 | the size allocate looks for is positive, at most ULONG_MAX, and one header past a multiple of MIN_SIZE |
| KcacheModel.FirstFit | ccontrol/malloc/malloc.c:104-127 | the first region in list order that is large enough, all earlier ones too small |
| KcacheModel.FindPrevious | ccontrol/malloc/malloc.c:129-147 | the first region ending at the address, none earlier does |
| KcacheModel.FindNext | ccontrol/malloc/malloc.c:149-166 | the first region starting at the address, none earlier does |
| KcacheModel.Remove | ccontrol/malloc/malloc.c:78-102 | extract drops exactly the element at k, the rest kept in order |
| KcacheModel.Allocated | ccontrol/malloc/malloc.c:168-207 | allocate as written faults exactly when a request within the device size meets an empty list, is NULL exactly when the request is above the device size or no region fits, changes nothing then, and otherwise hands out a block whose header is the request; the region it is carved from and the list afterwards are AllocatedCarves |
| KcacheModel.DestroyedWith | ccontrol/malloc/malloc.c:210-248 | destroy drops the block's header, keeps the device's size and descriptor, and puts at the front a region starting at or below the block; where the bytes go is DestroyedFixedFrees |
| KcacheModel.Mapped | ccontrol/malloc/malloc.c:313-316 | a mapped device holds one free region covering it |
| KcacheModel.AllocatedKeeps | ccontrol/malloc/malloc.c:168-207 | allocate as written keeps regions and blocks apart and no two free regions touching |
| KcacheModel.RequestChecked | ccontrol/malloc/malloc.c:172-176 | the corrected request (malloc.c:63-64 and 173-175 findings): none exactly for 0, which the code serves, or an overflow; otherwise a header past a MIN_SIZE multiple that holds the request, equal to the request as written |
| KcacheModel.ZeroRequestServed | ccontrol/malloc/malloc.c:168-207 | as written no request is refused for being 0: malloc(0) on a fresh device gets an 8-byte, all-header block at the device's end, so the device is no longer roomy and destroy's link store lands past the mapping |
| KcacheModel.AllocatedFixedSound | ccontrol/malloc/malloc.c:168-207 | the corrected allocate keeps the device sound and its block holds the request |
| KcacheModel.DestroyedFixedSound | ccontrol/malloc/malloc.c:210-248 | destroy with the successor at the block's end keeps the device sound |
| KcacheModel.RemoveBytes | ccontrol/malloc/malloc.c:78-101 | extract takes exactly the extracted region's bytes out of the free ones and keeps the rest apart |
| KcacheModel.ConsBytes | ccontrol/malloc/malloc.c:72-76 | insert at the front adds exactly the inserted region's bytes to the free ones |
| KcacheModel.MergePrevBytes | ccontrol/malloc/malloc.c:224-232 | merging the block into the region ending at it frees the block's bytes on top of the list's, and the grown region ends where the block ends |
| KcacheModel.MergeNextBytes | ccontrol/malloc/malloc.c:234-243 | with the successor looked for at the grown region's end (the corrected malloc.c:235), merging in the region found there keeps the same free bytes, and the region keeps its start |
| KcacheModel.DestroyedFixedFrees | ccontrol/malloc/malloc.c:210-248 | on a disjoint device, destroy with the successor at the block's end frees exactly the block's bytes, which were not free before, and the front region covers the whole block |
| KcacheModel.WholeBytes | ccontrol/malloc/malloc.c:189-193 | a region handed out whole leaves the list, and exactly its bytes stop being free |
| KcacheModel.SplitBytes | ccontrol/malloc/malloc.c:194-202 | a split region shrinks in place, and exactly its high r bytes stop being free |
| KcacheModel.AllocatedCarves | ccontrol/malloc/malloc.c:168-207 | allocate as written carves its block from the first fitting region: the whole region when it fits exactly, else its high end with the region shrunk in place; exactly the block's bytes stop being free |
| KcacheModel.AllocatedFixedCarves | ccontrol/malloc/malloc.c:168-207 | the corrected allocate (malloc.c:193-201, 173-175 and 108-112 findings) carves its block from the first region fitting the checked request: whole when a split would leave less than a record, else the high r bytes; exactly the block's bytes stop being free |
| KcacheModel.ScaledSuccessorOverlaps | ccontrol/malloc/malloc.c:235 | the struct-scaled successor merges a region far past the block, covering a live block |
| KcacheModel.ScaledSuccessorMissesNeighbour | ccontrol/malloc/malloc.c:235 | the struct-scaled successor misses the region that touches the block, which the byte-wise one merges |
| KcacheModel.RemnantTooSmall | ccontrol/malloc/malloc.c:193-201 | a split can leave an 8-byte free record whose link overlays the new block's header |
| KcacheModel.EmptyListFaults | ccontrol/malloc/malloc.c:108-112 | after the device is used up, find_fit reads through the empty list's NULL head |
| KcacheModel.HugeRequestWraps | ccontrol/malloc/malloc.c:63-64 | a request among the 15 largest sizes normalizes to 0 and gets an 8-byte block |
| KcacheModel.MapFailedAccepted | ccontrol/malloc/malloc.c:308 | init takes MAP_FAILED for a mapping and writes past the address space |
| KcacheModel.KeepsInPlaceFixedHolds | ccontrol/malloc/malloc.c:409-413 | a block kept by the corrected check holds the new size; the check as written never keeps a block for its own request |
| KcacheModel.KeptBlockTooSmall | ccontrol/malloc/malloc.c:409-413 | malloc(1) then realloc(p, 24) keeps a block holding 16 bytes |
| KcacheModel.CopyLengthFixed | ccontrol/malloc/malloc.c:418 | the copy fits both the old and the new block's data |
| KcacheModel.CopyOverruns | ccontrol/malloc/malloc.c:418 | shrinking 120 to 24 bytes copies more than either block holds |
| KcacheModel.CallocSizeChecked | ccontrol/malloc/malloc.c:442 | none exactly when the product passes ULONG_MAX, otherwise the product |
| KcacheModel.CallocWraps | ccontrol/malloc/malloc.c:442 | calloc(2^32, 2^32) asks for 0 bytes |
| Kcache.Opened | ccontrol/malloc/malloc.c:297-318 | the corrected init loop (malloc.c:308 finding): devices opened and mapped in turn until the first open failure or MAP_FAILED, earlier ones untouched |
| Kcache.OpenedHealthy | ccontrol/malloc/malloc.c:278-322 | the corrected init, with the MAP_FAILED check, keeps every device ready |
| Kcache.TestedHealthy | ccontrol/malloc/malloc.c:327-337 | test_init keeps every device ready |
| Kcache.MallocedHealthy | ccontrol/malloc/malloc.c:345-362 | the corrected malloc (malloc.c:63-64, 108-112, 173-175 and 193-201 findings) keeps the devices ready and its block holds the request |
| Kcache.CallocedHealthy | ccontrol/malloc/malloc.c:429-451 | the corrected calloc (malloc.c:442 finding) keeps the devices ready and its block holds the product |
| Kcache.ResizedGrants | ccontrol/malloc/malloc.c:409-423 | the corrected realloc (malloc.c:409 and 418 findings): its block holds the new size and the copy fits both blocks |
| Kcache.ResizedHealthy | ccontrol/malloc/malloc.c:381-427 | the corrected realloc keeps the devices ready |
| Kcache.CleanupCloses | ccontrol/malloc/malloc.c:255-276 | cleanup closes every open descriptor and only those |
| Kcache.Allocator.constructor | ccontrol/malloc/malloc.c:41-46 | four devices of 32 pages, none opened |
| Kcache.Allocator.FindFit | ccontrol/malloc/malloc.c:104-127 | the do-while walk returns FirstFit; it is called only on a non-empty list |
| Kcache.Allocator.FindPrevious | ccontrol/malloc/malloc.c:129-147 | the walk returns FindPrevious |
| Kcache.Allocator.FindNext | ccontrol/malloc/malloc.c:149-166 | the walk returns FindNext |
| Kcache.Allocator.Extract | ccontrol/malloc/malloc.c:78-102 | the device's list loses exactly region k |
| Kcache.Allocator.Insert | ccontrol/malloc/malloc.c:72-76 | the region goes to the front of the list |
| Kcache.Allocator.Allocate | ccontrol/malloc/malloc.c:168-207 | the corrected allocate: the device becomes AllocatedFixed of the old one, refusing 0 and overflowing requests, and the pointer is its block |
| Kcache.Allocator.Destroy | ccontrol/malloc/malloc.c:210-248 | the corrected destroy (malloc.c:235 finding): the device becomes DestroyedFixed of the old one |
| Kcache.Allocator.Init | ccontrol/malloc/malloc.c:278-322 | the corrected init (malloc.c:308 finding): the devices become Opened's, and it fails exactly when an open fails or mmap returns MAP_FAILED |
| Kcache.Allocator.TestInit | ccontrol/malloc/malloc.c:327-337 | init runs only while the first device has no descriptor |
| Kcache.Allocator.Malloc | ccontrol/malloc/malloc.c:345-362 | NULL when init fails, otherwise the corrected allocate on the thread's device, so malloc(0) is NULL (malloc.c:173-175 finding) |
| Kcache.Allocator.Free | ccontrol/malloc/malloc.c:364-379 | nothing for NULL; otherwise the corrected destroy |
| Kcache.Allocator.Realloc | ccontrol/malloc/malloc.c:381-427 | malloc for NULL, free and NULL for size 0, otherwise the corrected Resized (malloc.c:409 and 418 findings) |
| Kcache.Allocator.Calloc | ccontrol/malloc/malloc.c:429-451 | the corrected calloc (malloc.c:442 finding): NULL for a zero count or size or an overflowing product, otherwise allocate of the product |
| Kcache.Allocator.Cleanup | ccontrol/malloc/malloc.c:255-276 | as written: munmap from each mapped device's list head, not its base (see HeadLeavesBase), then close of every open descriptor, device by device |
| KcacheModel.HeadLeavesBase | ccontrol/malloc/malloc.c:255-276 | once a freed block heads the list, the head cleanup unmaps from lies past the mapping's base: two 16-byte requests and a free of the first move it 131048 bytes up |
| Frames.HeadPages | ccontrol/src/module/ccontrol.c:605 | the smallest power of two at least the number of colours |
| Frames.HavingMembers | ccontrol/src/module/ccontrol.c:573-574 | the pages filed under a colour are exactly those of that colour |
| Frames.BinnedWhole | ccontrol/src/module/ccontrol.c:569-575 | sorting pages into bins by a key loses and invents none |
| Frames.PushedPooled | ccontrol/src/module/ccontrol.c:574 | pushing pages on their key's stack adds exactly them to the pool |
| Frames.PushedOne | ccontrol/src/module/ccontrol.c:574 | a pushed page lands on top of its key's stack |
| Frames.RowCol | ccontrol/src/module/ccontrol.c:231-249 | round-robin rounds and positions are quotient and remainder |
| Frames.FaultAt | ccontrol/src/module/ccontrol.c:120-141 | the newer module's fault handler, and the corrected half of the module/ccontrol.c:141 finding: it serves page offset mod 2^32 when that is below the page count and the insert succeeds, else VM_FAULT_ERROR |
| Frames.BlockCountCeil | ccontrol/src/module/ccontrol.c:617-619 | the blocks hold the memory and one fewer would not |
| Frames.Mmap | ccontrol/src/module/ccontrol.c:160-189 | -EPERM for a nonzero offset, -ENOMEM for more pages than the device holds, -EPERM for a private mapping, else 0 |
| Frames.MappedFaultServed | ccontrol/src/module/ccontrol.c:128-138 | every fault inside an accepted mapping is served with the device page at its offset |
| PagePool.VisitOrdered | ccontrol/src/module/ccontrol.c:233-234 | each round visits exactly the set colours below LL_NUM_COLORS, each once, in ascending order |
| PagePool.ShareSplit | ccontrol/src/module/ccontrol.c:231-242 | every colour gets one page per completed round, plus one for those before the cut |
| PagePool.SharesBalanced | ccontrol/src/module/ccontrol.c:231-242 | an earlier colour in a round has as many pages as a later one, or one more |
| PagePool.SharesTotal | ccontrol/src/module/ccontrol.c:231-242 | the shares add up to the pages taken |
| PagePool.Dealt | ccontrol/src/module/ccontrol.c:231-242 | a request that can be met receives exactly the requested number of pages |
| PagePool.DealStuck | ccontrol/src/module/ccontrol.c:243-246 | an empty stack on a colour's turn means the request could not be met |
| PagePool.DealDone | ccontrol/src/module/ccontrol.c:240-241 | reaching size pages means the request could be met and the device holds exactly Dealt |
| PagePool.PagesFor | ccontrol/src/module/ccontrol.c:213-215 | bytes rounded up to whole pages: enough pages, one fewer would not be |
| PagePool.Find | ccontrol/src/module/ccontrol.c:347-355 | the walk finds the device with the minor, or reports none |
| PagePool.FindUnique | ccontrol/src/module/ccontrol.c:347-360 | with distinct minors, Find names the one device with that minor and reports none exactly when there is none |
| PagePool.Deal | ccontrol/src/module/ccontrol.c:231-249 | the loop takes size pages exactly when the request can be met, leaving the stacks cut by each colour's share and the device holding Dealt; otherwise it stops at an empty stack |
| PagePool.DealRound | ccontrol/src/module/ccontrol.c:233-248 | one round over the set colours: full, stuck, or a round completed with the first colour's stack shorter |
| PagePool.PassFrom | ccontrol/src/module/ccontrol.c:233-248 | one pass of the `for` loop as written; a pass that runs through keeps the number of stacks and has taken one page per colour visited |
| PagePool.Spin | ccontrol/src/module/ccontrol.c:231-249 | turns of the `while(1)` loop as written; while it runs, each turn has taken one page per colour visited |
| PagePool.EmptySetSpins | ccontrol/src/module/ccontrol.c:231-249 | with no colour of the set below the number of colours, no colour is visited, and after any number of turns nothing is taken, nothing fails and the device is not full: the loop never ends |
| PagePool.Take | ccontrol/src/module/ccontrol.c:236-246 | the colour's top page moves to the device when its stack is not empty |
| PagePool.FreedHealthy | ccontrol/src/module/ccontrol.c:341-364 | ioctl_free keeps the pool healthy |
| PagePool.CleanedHealthy | ccontrol/src/module/ccontrol.c:524-534 | clean_devices keeps the pool healthy |
| PagePool.CreatedHealthy | ccontrol/src/module/ccontrol.c:303-338 | ioctl_new keeps the pool healthy |
| PagePool.ReservedHealthy | ccontrol/src/module/ccontrol.c:547-582 | reserve_memory keeps the pool healthy |
| PagePool.RestoredHealthy | ccontrol/src/module/ccontrol.c:255-262 | a rollback restores every stack as a multiset, so the pool stays healthy |
| PagePool.RolledBack | ccontrol/src/module/ccontrol.c:255-261 | pushing the pages taken back on their colours' stacks restores every stack as a multiset |
| PagePool.ColoredPush | ccontrol/src/module/ccontrol.c:279 | stacks stay single-coloured when pages are pushed on their colour's stack |
| PagePool.Pool.constructor | ccontrol/src/module/ccontrol.c:105-108 | empty stacks, no heads, no devices |
| PagePool.Pool.Reclaim | ccontrol/src/module/ccontrol.c:275-280 | each page goes on top of its colour's stack, in order |
| PagePool.Pool.CreateColored | ccontrol/src/module/ccontrol.c:199-267 | on success the device has exactly the pages rounded up from the bytes, dealt round-robin from the stack tops; on -ENOMEM every stack is restored as a multiset; corrected (ccontrol.c:231-249 finding): a set with no colour below the number of colours is -EINVAL with nothing changed |
| PagePool.Pool.FreeColored | ccontrol/src/module/ccontrol.c:269-283 | every page of the device goes back on its colour's stack |
| PagePool.Pool.IoctlNew | ccontrol/src/module/ccontrol.c:303-338 | a failed cdev_add returns its error with the pages given back; otherwise the device joins the front with the next minor; corrected (ccontrol.c:231-249 finding): an empty colour set is -EINVAL |
| PagePool.Pool.Register | ccontrol/src/module/ccontrol.c:328-331 | the device gets the next minor and joins the front of the list |
| PagePool.Pool.FindDevice | ccontrol/src/module/ccontrol.c:347-355 | the walk returns Find |
| PagePool.Pool.IoctlFree | ccontrol/src/module/ccontrol.c:341-364 | an unknown minor is -EINVAL and changes nothing; otherwise the device leaves and its pages return |
| PagePool.Pool.CleanDevices | ccontrol/src/module/ccontrol.c:524-544 | every device leaves and its pages return to the stacks |
| PagePool.Pool.ReturnDevices | ccontrol/src/module/ccontrol.c:528-534 | the devices leave front first, each one's pages going back |
| PagePool.Pool.ReserveMemory | ccontrol/src/module/ccontrol.c:547-582 | the heads obtained join the heads and their pages the stacks; fewer than asked means -ENOMEM |
| PagePool.Pool.PushHeads | ccontrol/src/module/ccontrol.c:557-576 | the first n heads join and every page of them is pushed on its colour's stack |
| Partition.SumWrappedMod | ccontrol/module/ccontrol.c:265-267 | the wrapped sum is the true sum modulo 2^32 |
| Partition.WrappedSumAccepted | ccontrol/module/ccontrol.c:265-274 | sizes whose true sum is far above the colour count pass the check |
| Partition.SubdivSum | ccontrol/module/ccontrol.c:265-267 | the loop's exact sum, which the wrapped one matches modulo 2^32 |
| Partition.Owner | ccontrol/module/ccontrol.c:76-78 | the subdivision whose rank range holds the colour's rank |
| Partition.OwnerUnique | ccontrol/module/ccontrol.c:76-78 | exactly one subdivision's ranks hold each rank |
| Partition.StrideMembers | ccontrol/module/ccontrol.c:56-59 | the colours written for one L2 colour are exactly those with its remainder, ascending |
| Partition.GroupedMembers | ccontrol/module/ccontrol.c:54-60 | the table holds the colours of the L2 colours written so far, sorted by L2 colour and then by colour |
| Partition.ColorOrderPermutation | ccontrol/module/ccontrol.c:49-83 | both variants order every colour exactly once; with an L2, by residue modulo L2_NUM_COLORS and ascending within |
| Partition.StrideBound | ccontrol/module/ccontrol.c:57 | every colour the first loop writes is a colour |
| Partition.GroupColors | ccontrol/module/ccontrol.c:53-60 | the colors[] table is ColorOrder |
| Partition.WriteStride | ccontrol/module/ccontrol.c:56-59 | one outer pass writes the stride of one L2 colour from the index on |
| Partition.PartsHold | ccontrol/module/ccontrol.c:327-354 | the partitions hold exactly the heads' pages, each in the partition its colour maps to |
| Partition.TablesFreed | ccontrol/module/ccontrol.c:226-232 | the corrected freeing (module/ccontrol.c:310-315 finding): each page table allocated before the failing one is freed exactly once |
| Partition.TablesFreedTwice | ccontrol/module/ccontrol.c:308-317 | a vmalloc failure after the first table frees every earlier table twice |
| Partition.MmapNarrow | ccontrol/module/ccontrol.c:166-191 | ccontrol_mmap as written accepts exactly a shared mapping at offset 0 whose page count modulo 2^32 is within the device |
| Partition.NarrowMmapAliases | ccontrol/module/ccontrol.c:169-179 | 2^32 + 1 pages over a one-page device are accepted and a fault 2^32 pages in serves page 0; the checked count refuses it |
| Partition.OutOfRangeFaultOops | ccontrol/module/ccontrol.c:115-143 | the older fault handler dereferences NULL exactly on the faults the newer one refuses for their offset, and answers every other fault as the newer one does; a fault one page past a one-page device's only page is one |
| Partition.Partitions.constructor | ccontrol/module/ccontrol.c:40 | the colour map zeroed, no partitions, heads of HeadPages pages |
| Partition.Partitions.InitColormap | ccontrol/module/ccontrol.c:49-83 | colour ranked x goes to Owner(subdivs, x), every colour to some subdivision |
| Partition.Partitions.AssignColors | ccontrol/module/ccontrol.c:62-65 | subdivs[i] consecutive colours of the order go to subdivision i |
| Partition.Partitions.Scatter | ccontrol/module/ccontrol.c:342-353 | each page of the head is appended to the partition of its colour |
| Partition.Partitions.Reserve | ccontrol/module/ccontrol.c:327-354 | up to blocks heads are taken and every page is appended to its partition |
| Partition.Partitions.Init | ccontrol/module/ccontrol.c:245-379 | with the corrected checks (module/ccontrol.c:265-267 and 310-315 findings): -EPERM when the exact sum of the sizes is not the colour count; the kernel errors passed on; on success every page of every head in its partition and each device given its partition |

## Left out

- Kernel plumbing is not modelled: cdev, class and device registration, `copy_from_user`/`copy_to_user` in `control_ioctl`, `vm_insert_page` (its outcome is a parameter), `alloc_pages`, `__free_pages`, `kmalloc`/`vmalloc`/`vfree` (their outcomes are parameters), `printk`, and node statistics.
- System calls are not executed. The user-space calls are events whose outcomes are parameters: open, ioctl, mknod, unlink, mmap, munmap, close, atexit, getenv, exit and _exit.
- Concurrency is out of scope. The mutex of `ccontrol/malloc/malloc.c` is not modelled, and `get_device` is `tid % DEVICES` for a given `tid`.
- Kcache.Allocator.Free, Kcache.Allocator.Realloc: a block handed out by another thread's device is required away. In C, `m_lock` serialises the calls, and `destroy(get_device(), ptr)` files that block in the caller's device list (malloc.c:364-427), so one device's list ends up holding memory of another device's mapping. The model keeps each block's header with the device that handed it out.
- Byte contents are opaque. `memcpy` and `memset` are modelled only as the number of bytes copied.
- `fl_realloc`, `ccontrol_str2cset` and `ccontrol_str2size` are called but defined nowhere shown. Their results are parameters.
- cache.h and cache_info.h are not part of this model. `LL_NUM_COLORS`, `L2_NUM_COLORS` and `PFN_TO_COLOR` are parameters, and `MAX_SUBDIVISIONS` is assumed to equal `LL_NUM_COLORS`.
- `order < 0` from `get_order` cannot happen for a positive colour count and is not modelled.
- The capacity of the stacks (`2*nbh` per colour) and of the partition tables (`blocks*2*subdivs[i]`) is not modelled. Stacks and tables are unbounded sequences.
- The per-colour counters `nbpages[]` and `sizes[]` are counted exactly, not in `unsigned int`.
- PagePool.Pool.CreateColored: the rollback order is stated only as a multiset per stack.
- Partition.Partitions.Init: partition-table entries past a failing vmalloc are uninitialised in C and are not modelled.
- Partition.Partitions.Init: the `cdev_add` error in `ccontrol_setup_dev` is only printed, so it is not modelled.
- Kcache.Allocator.FindFit: requires a non-empty list, because the do-while reads the first record; the empty case is the EmptyListFaults finding.
- Zones.CreateZone: requires a size of at least two free-list records, the smallest zone fl_init can lay out.
- LibcBypass.Bypass.Init: likewise covers only environments whose size parses to at least two records.
- Zones.Malloc, Zones.Free, Zones.Realloc: a zone that has already been destroyed is required away. The code would hand its unmapped address to the free list, a use after teardown by the caller.
- LibcBypass.Bypass.Realloc: during init, an old block shorter than n is over-read. The model states the number of bytes copied (n), not what lies behind ptr.
- Floating point, timing and the benchmarks are not modelled. The CLI launcher, the random-access test harness and the stub and declaration-only files are not modelled either.

## Findings

| source | as written | input that shows it | evidently intended | confidence | as-written member | corrected member |
|---|---|---|---|---|---|---|
| ccontrol/src/lib/ccontrol.c:58 | the zone size adds one header per allocation but no rounding, and with the header's trailing ';' not even that | nballoc = 1, memsize = 1024 gives 1048 bytes, where fl_allocate needs 1040 free and the zone has 1032 | a size that serves the allocations it is computed for | not executed | Zones.MemsizeToZonesizeTooSmall | Zones.ZoneSizeForSuffices |
| ccontrol/tests/fl.c:33-34 | a 500-byte zone is expected to grant 500 - ALLOCATOR_OVERHEAD bytes | 476 bytes adjust to 496, and the zone holds 484 free | expect MaxRequest(500) = 472 bytes, or use a zone that is a whole number of records | not executed | FreelistCapacity.TestMaxRefused | FreelistCapacity.MaxRequestGranted |
| ccontrol/malloc/malloc.c:235 | `it+it->size` steps over `it->size` records, not bytes | free a 24-byte block with a free region 384 bytes above it: that region is merged over a live block | look for the successor at the block's end | not executed | KcacheModel.ScaledSuccessorOverlaps | KcacheModel.DestroyedFixedSound |
| ccontrol/malloc/malloc.c:193-201 | any region larger than the request is split | malloc(131048) on a fresh device leaves an 8-byte record whose link overlays the block's header | hand out whole any region that would leave less than a record | not executed | KcacheModel.RemnantTooSmall | KcacheModel.AllocatedFixedSound |
| ccontrol/malloc/malloc.c:108-112 | find_fit's do-while reads the first record before testing for NULL | malloc(0), malloc(131048), then malloc(1) | refuse the request when the list is empty | not executed | KcacheModel.EmptyListFaults | KcacheModel.AllocatedFixedSound |
| ccontrol/malloc/malloc.c:63-64 | normalize wraps for the 15 largest sizes | malloc(ULONG_MAX) gets an 8-byte block | refuse a request whose rounding overflows | not executed | KcacheModel.HugeRequestWraps | KcacheModel.RequestChecked |
| ccontrol/malloc/malloc.c:308 | a mapping is checked against NULL | mmap returning MAP_FAILED is taken as the device's base | check against MAP_FAILED | not executed | KcacheModel.MapFailedAccepted | Kcache.OpenedHealthy |
| ccontrol/malloc/malloc.c:409 | the block is kept when its header equals the raw new size | malloc(1), then realloc(p, 24) keeps a 16-byte block | keep the block when allocate would ask for its size | not executed | KcacheModel.KeptBlockTooSmall | KcacheModel.KeepsInPlaceFixedHolds |
| ccontrol/malloc/malloc.c:418 | memcpy copies the old block's whole size | shrinking a 120-byte block to 24 bytes copies 120 bytes | copy what both blocks hold | not executed | KcacheModel.CopyOverruns | KcacheModel.CopyLengthFixed |
| ccontrol/malloc/malloc.c:442 | the product `size * nm` wraps | calloc(2^32, 2^32) asks for 0 bytes | refuse a product past ULONG_MAX | not executed | KcacheModel.CallocWraps | KcacheModel.CallocSizeChecked |
| ccontrol/module/ccontrol.c:265-267 | the subdivision sizes are summed in unsigned int | sizes 2^32 - 1 and n + 1 sum to n | compare the true sum | not executed | Partition.WrappedSumAccepted | Partition.SubdivSum |
| ccontrol/module/ccontrol.c:310-315 | the rollback frees the page tables, and cleanup frees them again | a vmalloc failure at partition 1 of 2 frees table 0 twice | free each allocated table once | not executed | Partition.TablesFreedTwice | Partition.TablesFreed |
| ccontrol/module/ccontrol.c:169-179 | the page count of a mapping is held in unsigned int | 2^32 + 1 pages over a one-page device are accepted | compare the full page count | not executed | Partition.NarrowMmapAliases | Frames.MappedFaultServed |
| ccontrol/src/lib/freelist.c:28-31 | the header and the rounding are added in size_t | fl_allocate(z, SIZE_MAX) on a fresh 64-byte zone returns a 16-byte block, and SIZE_MAX - 7 a pointer past the zone | refuse a request whose adjusted size overflows | not executed | FreelistCapacity.SizeMaxGranted | FreelistCapacity.HugeRequestRefused |
| ccontrol/malloc/malloc.c:173-175 | `size <= 0` is tested after the header is added, so it never holds | malloc(0) on a fresh device gets an 8-byte, all-header block at the device's end; freeing it stores the link past the mapping | refuse a zero request | not executed | KcacheModel.ZeroRequestServed | KcacheModel.AllocatedFixedSound |
| ccontrol/src/lib/ccontrol.c:177-196 | the entry points test `z->p` against NULL only | a zone whose mmap failed keeps MAP_FAILED, and ccontrol_malloc hands it to fl_allocate | refuse a zone whose mapping failed | not executed | Zones.MapFailedPassesGuard | Zones.Malloc |
| ccontrol/src/module/ccontrol.c:231-249 | the `while(1)` loop ends only when a set colour gives the last page or has none | a colour set with no colour below LL_NUM_COLORS: the `for` loop visits nothing, so the kernel spins forever in the ioctl | refuse such a set with -EINVAL | not executed | PagePool.EmptySetSpins | PagePool.Pool.CreateColored |
| ccontrol/module/ccontrol.c:141 | the debug printk at `out:` reads page_count(page) while page is still NULL | a fault at page offset 1 of a one-page device | return VM_FAULT_ERROR without touching a page | not executed | Partition.OutOfRangeFaultOops | Frames.FaultAt |
