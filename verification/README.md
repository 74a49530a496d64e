# MikoOS: a verified model of its page allocator, floppy image, boot path and cooperative kernel

This Dafny project models the parts of MikoOS whose correctness is decided by code rather than by
hardware, and proves what they promise. `dafny verify dfyconfig.toml` checks everything.

| Modules | What they cover |
|---|---|
| `Bits`, `Bitmap`, `PageModel`, `PageRuns`, `PageHistory`, `PageAllocator` | the physical page allocator: packed bitmap, page descriptors and zone counters kept in agreement; first fit; release; every history of requests and releases |
| `BootInfo`, `MemoryInit` | validation of the firmware memory map, and building the allocator from it |
| `E820`, `Handoff` | the loader's collection loop against any BIOS, the published table, and the whole way from firmware answers to the allocator |
| `Fat12`, `ImageBuilder`, `ImageChecker`, `Loader` | the FAT12 image writer, its checker, and the sector-at-a-time boot reader with its directory search |
| `UserMode`, `UserDemo` | the user page tables and the pointer check; the order in which a page is taken, mapped, unmapped and given back |
| `TaskSwitch`, `Threads` | the cooperative task switch over word memory and several stacks; threads together with the pages they live in |
| `Bringup` | the whole way: firmware answers, `init`, any page traffic, any run of the threads |
| `Console`, `Keyboard` | the pixel console and the keyboard ring |
| `Prelude`, `Arithmetic`, `ByteMemory` | shared types, division facts, byte arrays |

How the pieces fit. The allocator is described twice. `PageModel.Memory` is a value holding the bitmap
as truth values, the page descriptors and the zones; `PageModel.Consistent` is the agreement that
`check_allocation_state` tests. `PageAllocator.MemoryDescriptor` is the mutable object with the 64-bit
words and the two arrays, and each of its methods is proved to do exactly what the function on values
does. Histories (`PageHistory`) are proved over the values. The image is handled the same way:
`ImageBuilder.Build` patches two byte arrays in place and is proved to reach
`ImageBuilder.Finished`, which says where each file's directory entry, links and bytes are; the checker
and the loader are proved against that. The console object is proved to keep its framebuffer equal to the
rendering of a grid of characters (`Console.Shows`), and the keyboard ring to be a 64-slot queue that
drops the newest byte.

Every operation is described a second time without the function that specifies it: what a request answers in
bytes of zones and bits (`PageRuns.AllocateAnswers`), when `init` succeeds in addresses of the map
(`MemoryInit.InitSucceeds`), what a firmware answer means in its buffer (`E820.AnswerMeans`), what an accepted
image is byte for byte (`ImageChecker.AcceptedMeans`), who is ready and who has finished after a switch
(`TaskSwitch.SwitchStates`), where a line of text stands (`Console.LinesReadBack`). These statements use numbers
where the definitions use names.

Findings about the code itself:

- The image checker and the loader disagree on what a file is. The checker accepts any end mark from 0xFF8 up,
  and an empty file whose first cluster field is such a mark; the loader stops on 0xFFF alone, and reads before
  it tests. `Loader.Machine.LoadAccepted` takes any image the checker passes: the file is loaded if and only if
  the address line is open, the file is not empty (its chain has a cluster) and the end mark is 0xFFF. In the
  other cases `Loader.Machine.LoadFile` says what happens instead, the 16-bit wrap-around of the sector number
  and the overflowing divisions included. `Loader.AcceptedButNotLoaded` is an accepted image with end mark 0xFF8,
  `Loader.EmptyFileNotLoaded` a family of accepted images of an empty file, one for each first cluster from
  0xFF8 to 0xFFFF. The builder writes 0xFFF and refuses empty files, so every built image loads.
- `init_page` with an attribute word of zero leaves a free page of a zone used but without attribute.
  `PageModel.InitPageAgrees` is the exact condition, `PageModel.ZeroAttributesDisagree` a state with one page on
  which it fails; no caller passes zero.
- `readable` with length 0 accepts some addresses only, while the empty range needs no access at all.
  `UserMode.ReadableOfNothing` gives the exact set, which includes both end addresses;
  `UserMode.NothingIsRefused` shows address 0 refused and the address just behind the code page accepted.
- Backspace takes back a printed character except in the bottom right corner, where the cursor has
  wrapped to the top. `Console.BackspaceTakesBack` is the exact condition,
  `Console.BackspaceInCorner` the failure on a screen of two by two cells.
- The "overlapping E820 RAM zones" assertion, the RAM total overflow, `page_free_count > 0` inside a
  commit (`PageModel.FreePageIsCounted`), every assertion of `release` on a run that is held, and the closing
  self-check of `init` are proved unreachable.

## Model

| member | source | states |
|---|---|---|
| `Bits.MaskTestsBit` | src/kernel/memory/allocator.rs:69-73 | the test `word & (1 << k) != 0` reads exactly bit k |
| `Bits.SetBit` | src/kernel/memory.rs:127-139 | or-ing in the mask sets bit k and no other bit |
| `Bits.ClearBit` | src/kernel/memory.rs:127-139 | and-ing with the inverted mask clears bit k and no other bit |
| `Bitmap.WritesOneBit` | src/kernel/memory.rs:127-139 | rewriting word i/64 changes page i's truth value only, padding bits of the last word included |
| `Bitmap.PacksUnique` | src/kernel/memory/allocator.rs:69-73 | the packed words are determined by the truth values they hold: restoring the bits restores the words |
| `PageModel.FreePageIsCounted` | src/kernel/memory.rs:150-151 | a free page of a zone is counted: `page_free_count > 0` in every agreeing state |
| `PageModel.InitPageAgrees` | src/kernel/memory.rs:141-170 | `init_page` with any attribute word, on any page of any agreeing state: the three forms agree afterwards iff a page of a zone is left with an attribute |
| `PageModel.ZeroAttributesDisagree` | src/kernel/memory.rs:141-170 | an agreeing state with one free page, built in the proof, which an attribute word of zero leaves used and without attribute, so that the forms disagree |
| `PageModel.CleanPageAgrees` | src/kernel/memory.rs:172-193 | `clean_page` keeps the agreement, shared references included |
| `PageModel.CleanUndoesInit` | src/kernel/memory.rs:141-193 | giving back one reference undoes taking it, for a free page and for a shared one, which stays used: bits and counters are restored |
| `PageModel.SharedStaysUsed` | src/kernel/memory.rs:141-193 | taking a used page once more and giving it back once leaves it used iff `REFERENCED` or `KERNEL_SHARE_TO_USER` is on it, or it had another reference |
| `PageModel.Determined` | src/kernel/memory/allocator.rs:256-300 | the zone counters are redundant: two agreeing states with equal pages and bits are equal |
| `PageAllocator.MemoryDescriptor.IsUsed` | src/kernel/memory/allocator.rs:69-73 | the packed test answers whether that page is used |
| `PageAllocator.MemoryDescriptor.SetUsed` | src/kernel/memory.rs:127-139 | one truth value changes, everything else stays |
| `PageAllocator.MemoryDescriptor.InitPage` | src/kernel/memory.rs:142-170 | the in-place update is the specified one, in all three forms, for any attribute word |
| `PageAllocator.MemoryDescriptor.CleanPage` | src/kernel/memory.rs:173-193 | likewise for giving back a reference |
| `PageAllocator.MemoryDescriptor.ScanZone` | src/kernel/memory/allocator.rs:102-113 | the `consecutive` counter finds the smallest start of a free run of that length inside the bounds, or there is none |
| `PageAllocator.MemoryDescriptor.FindRun` | src/kernel/memory/allocator.rs:85-112 | over all zones, with both size shortcuts: the first fit in table order, or no place anywhere |
| `PageAllocator.MemoryDescriptor.Allocate` | src/kernel/memory/allocator.rs:75-126 | result and whole new state of a request; a failed request changes nothing |
| `PageAllocator.MemoryDescriptor.Release` | src/kernel/memory/allocator.rs:128-151 | validation of the whole run first: a refused run changes nothing, an accepted one is cleared |
| `PageAllocator.MemoryDescriptor.CheckAllocationState` | src/kernel/memory/allocator.rs:254-301 | the check passes exactly on the states in which owner, address, bit, descriptor and counters tell the truth, and returns the totals over all zones |
| `PageAllocator.CheckDecides` | src/kernel/memory/allocator.rs:254-301 | on a layout as `init` builds it, that truth is the agreement of the three forms that every operation keeps |
| `PageAllocator.ZoneTruthTold` | src/kernel/memory/allocator.rs:260-288 | what one zone must look like to pass, page by page, with the free counter the number of zero bits and the page count checked too |
| `PageAllocator.TruthTold` | src/kernel/memory/allocator.rs:291-296 | a state passes iff its zones do and no hole and no reserved page is free |
| `PageRuns.ShortcutsAreSafe` | src/kernel/memory/allocator.rs:94-96 | wherever a place of `count` free pages exists, neither the saturating size test nor the free counter would skip it |
| `PageRuns.AllocateOutcome` | src/kernel/memory/allocator.rs:75-126 | InvalidCount iff count is 0; OutOfMemory iff no single zone, cut at 10 MiB for `Mapped`, has the consecutive free pages; errors leave the state; success is the first fit |
| `PageRuns.FitsIsRoom` | src/kernel/memory/allocator.rs:88-97 | a place fits iff it lies in the zone's bytes, for `Mapped` below 10 MiB, and every bit of it is zero |
| `PageRuns.AllocateAnswers` | src/kernel/memory/allocator.rs:75-126 | OutOfMemory iff no zone has such room anywhere, its last page included; otherwise the first room in table order, smallest start |
| `PageRuns.WholeZoneGranted` | src/kernel/memory/allocator.rs:224-243 | a zone without a used page is granted whole |
| `PageRuns.GrantedPages` | src/kernel/memory/allocator.rs:112-122 | flags and reference of each granted page, `PAGE_TABLE_MAPPED` exactly below 10 MiB; all other pages and bits unchanged |
| `PageRuns.FirstFitUnique` | src/kernel/memory/allocator.rs:85-122 | there is one first fit: earliest zone, smallest start |
| `PageRuns.AllocateCommits` | src/kernel/memory/allocator.rs:112-122 | exactly the granted pages change, they were free, and the free total falls by `count` |
| `PageRuns.AllocatedIsLive` | src/kernel/memory/allocator.rs:25-33 | a granted run lies in one zone and is exclusively held |
| `PageRuns.LiveIsReleasable` | src/kernel/memory/allocator.rs:128-146 | every check of `release` holds for every live run |
| `PageRuns.ReleaseAnswers` | src/kernel/memory/allocator.rs:128-151 | a release is refused iff one of its checks fails, each of them listed; otherwise exactly the run's pages become free |
| `PageRuns.ReleaseUndoesAllocate` | src/kernel/memory/allocator.rs:112-151 | releasing a run right after obtaining it restores bitmap, descriptors and counters exactly |
| `PageRuns.ReleasesCommute` | src/kernel/memory/allocator.rs:128-151 | two live runs may be released in either order with the same final state |
| `PageRuns.FirstFitStable` | src/kernel/memory/allocator.rs:187-191 | a first fit stays the first fit in any fuller memory where its pages are free |
| `PageHistory.RunSafe` | src/kernel/memory/allocator.rs:75-151 | every finite history of requests and releases: no assertion fails, the three forms agree, held runs are disjoint and in one zone each, held plus free pages are conserved, reserved pages, holes and padding are untouched |
| `PageHistory.HeldIsNotReserved` | src/kernel/memory.rs:323-333 | no run handed out in any history meets a page reserved at start |
| `PageHistory.SameRunAgain` | src/kernel/task.rs:280-284 | if only requests happened since a run was obtained, releasing it and repeating the request gives the same run |
| `BootInfo.ValidateEntries` | src/kernel/bootinfo.rs:78-97 | accepts iff no end overflows and all non-empty ranges are pairwise disjoint; an error names the first offending entry's fault |
| `BootInfo.HeaderAccepted` | src/kernel/bootinfo.rs:62-76 | the headers accepted, field by field, and which error the others get |
| `BootInfo.TableAccepted` | src/kernel/bootinfo.rs:78-97 | a table is acceptable iff no end overflows and no byte lies in two entries |
| `BootInfo.FaultMeans` | src/kernel/bootinfo.rs:78-97 | the error of a refused entry: no machine number as its end, or a byte of it in an earlier entry |
| `BootInfo.BootLayout` | src/kernel/bootinfo.rs:117-127 | the four fixed ranges that must lie in an entry of RAM |
| `BootInfo.OrderIrrelevant` | src/kernel/bootinfo.rs:78-97 | acceptance depends on the entries, not on their order |
| `BootInfo.DisjointLength` | src/kernel/bootinfo.rs:78-97 | accepted ranges below a bound have a total length below it |
| `BootInfo.RamTotalFits` | src/kernel/memory.rs:226-228 | the running RAM total of an accepted map never overflows |
| `MemoryInit.UsableRangeIsWholePages` | src/kernel/memory.rs:46-56 | the usable range holds exactly the 2 MiB pages lying wholly inside the entry |
| `MemoryInit.ZonesApart` | src/kernel/memory.rs:314-321 | the "overlapping E820 RAM zones" assertion is unreachable for an accepted map |
| `MemoryInit.Survey` | src/kernel/memory.rs:206-234 | end of RAM and RAM total; stops iff an alignment overflows or no whole page exists |
| `MemoryInit.AddZone` | src/kernel/memory.rs:297-321 | one more zone: its pages get their owner and a clear bit, nothing else changes |
| `MemoryInit.ZonedIsConsistent` | src/kernel/memory.rs:293-322 | after the zone loop the three forms agree already |
| `MemoryInit.ReservedFits` | src/kernel/memory.rs:271-281 | past the size checks the reservation stays inside the page array |
| `MemoryInit.ReservePages` | src/kernel/memory.rs:327-333 | exactly the pages below the end of the metadata become reserved |
| `MemoryInit.Init` | src/kernel/memory.rs:196-388 | succeeds iff the map is alignable, has a whole RAM page and its metadata fits; otherwise the error of the first failing check; the free pages are then exactly the whole RAM pages above everything in use, the zones those of the map; no later assertion fails |
| `MemoryInit.BitsSizeCoversMap` | src/kernel/memory.rs:239-239 | the page count is the least one that reaches the end of every non-empty entry, of whatever type |
| `MemoryInit.PlanIsPlaced` | src/kernel/memory.rs:250-268 | bitmap, page array, zone array and end are the first boundaries behind one another, unless a sum overflows |
| `MemoryInit.SizedAnswers` | src/kernel/memory.rs:269-281 | the answer of the size checks for any map and plan: too large, not in RAM from `_text` on, or the plan |
| `MemoryInit.SizedOverflows` | src/kernel/memory.rs:239-268 | exactly when rounding or placing overflows |
| `MemoryInit.InitSucceeds` | src/kernel/memory.rs:196-281 | in addresses: when `init` succeeds; it needs one RAM entry from 1 MiB to the metadata's end, and nothing below 1 MiB |
| `MemoryInit.OrdinaryMap` | src/kernel/memory.rs:196-281 | the ordinary 2 GiB map with its hole below 1 MiB succeeds |
| `MemoryInit.FreePagesAfterInit` | src/kernel/memory.rs:286-333 | a page is free afterwards iff it lies wholly in an entry of RAM and not below the metadata's end; the flags of the reserved ones |
| `MemoryInit.ZoneInEntry` | src/kernel/memory.rs:289-313 | every zone is all the whole pages of one entry of RAM |
| `MemoryInit.BuiltIsSafeStart` | src/kernel/memory.rs:334-363 | what `init` builds satisfies the invariant that all histories keep |
| `MemoryInit.FreePagesAvoidMetadata` | src/kernel/memory.rs:249-285 | no byte of a free page lies below the end of bitmap, page array and zone array, and every one lies in a RAM entry |
| `MemoryInit.FreePagesAvoidReserved` | src/kernel/memory.rs:50-55 | no byte of a free page lies in an entry of another type |
| `E820.CollectMap` | src/boot/loader.asm:251-332 | any BIOS: it is asked up to the first answer that ends the loop, so at most 33 times, with token zero first and then the token of the last answer; each call returns into a memory with the entries so far and no complete flag; writes only into header, table and scratch; success exactly when a map of 1 to 32 entries is delivered, the complete flag over exactly those entries, a rejected header otherwise |
| `E820.CallsAreBounded` | src/boot/loader.asm:301-302 | the answer that ends the loop is at latest the 33rd |
| `E820.DeliveryMeans` | src/boot/loader.asm:281-322 | what a delivered map is, register by register |
| `E820.CallsMean` | src/boot/loader.asm:263-277 | registers and buffer of every call: function 0xE820, size 24, signature, the last answer's token, zeros with the attribute word 1 |
| `E820.TableMeans` | src/boot/loader.asm:251-262 | where header and entries stand in memory, by address |
| `E820.WaitingIsRejected` | src/kernel/bootinfo.rs:61-76 | while the collection is under way the kernel would refuse the header |
| `E820.Round` | src/boot/loader.asm:263-318 | one call: the table grows by the normalised answer or the loop ends as decided |
| `E820.NormaliseScratch` | src/boot/loader.asm:287-299 | disabled entries lose their length, entries with extended attributes become reserved |
| `E820.AnswerMeans` | src/boot/loader.asm:285-298 | address, length and type taken from an answer, by its ECX and attribute bits: a basic answer as it is, a disabled one empty, further attributes reserved |
| `E820.RamAnswer` | src/boot/loader.asm:285-298 | which bytes an answer makes RAM, in terms of its buffer |
| `E820.FlagDecides` | src/kernel/bootinfo.rs:61-76 | the header is accepted iff the complete flag is set over a non-empty table, and gives its count |
| `E820.PublishedIsRead` | src/kernel/bootinfo.rs:101-113 | the kernel reads exactly the entries the loader published, in order |
| `E820.DeliveryUnique` | src/boot/loader.asm:316-323 | a BIOS delivers at most one map |
| `E820.ReadMemoryMap` | src/kernel/bootinfo.rs:101-139 | succeeds iff header, entries and fixed boot layout all check out, and returns the table; otherwise the error of the first check that fails |
| `Handoff.InitFromHandoff` | src/kernel/memory.rs:196-363 | the kernel's side of the start: from a published table to an allocator that satisfies the invariant |
| `Handoff.Boot` | src/kernel/memory.rs:200-202 | loader and kernel together: the allocator comes up iff the BIOS delivers a map that passes every check, and is built from the delivered answers |
| `Handoff.FreeByteIsFirmwareRam` | src/kernel/bootinfo.rs:78-97 | every byte that can ever be handed out lies in a range that an answer of the firmware reports, in its own buffer, as plain RAM, and every answer that reports the byte does |
| `Handoff.ReportedPageIsFree` | src/kernel/memory.rs:196-333 | conversely a whole page inside plain reported RAM, above everything in use, is free |
| `Fat12.LookupIsEntry` | scripts/build_image.py:17-20 | the lookup by byte pairs finds the entry that the table's layout, two entries in three bytes, puts there |
| `Fat12.StoredReadsBack` | scripts/build_image.py:72-75 | a stored 12-bit link reads back |
| `Fat12.StoredKeepsOthers` | scripts/build_image.py:72-75 | a store leaves every other entry, neighbours sharing a byte included |
| `Fat12.ChainMeans` | scripts/build_image.py:34-40 | a chain, link by link: first cluster, data area, table entries, end mark |
| `ImageBuilder.StoreLink` | scripts/build_image.py:72-75 | the in-place byte-pair patch is that store |
| `ImageBuilder.StoredLinksLinked` | scripts/build_image.py:69-75 | a file's stores form its ascending chain ending in 0xFFF and leave all other entries |
| `ImageBuilder.BlocksAreContent` | scripts/build_image.py:76-78 | the cluster-wise copies place the content as one block |
| `ImageBuilder.WriteFile` | scripts/build_image.py:64-78 | one file's directory entry, links and data, nothing else |
| `ImageBuilder.OldFileKept` | scripts/build_image.py:60-79 | writing a later file keeps an earlier one's entry, chain and bytes |
| `ImageBuilder.Build` | scripts/build_image.py:55-81 | succeeds iff all files are non-empty and fit in the data clusters; then every file is placed, both tables are equal, and all else in directory, data area and table is zero |
| `ImageBuilder.StopMeans` | scripts/build_image.py:60-63 | which file stops the build, and whether as empty or as too much for the floppy |
| `ImageBuilder.BuildFloppy` | scripts/build_image.py:45-83 | the whole program with its boot sector and loader size checks, and which error each failure gives; its closing check never fails |
| `ImageBuilder.FileReadsBack` | scripts/build_image.py:60-79 | following a placed file's entry gives its chain and original bytes |
| `ImageBuilder.FinishedIsAccepted` | scripts/build_image.py:82-82 | every image the builder finishes passes the checker |
| `ImageBuilder.MediaSurvives` | scripts/build_image.py:57-58 | entries 0 and 1 keep the media values through the whole build |
| `ImageBuilder.ParametersMean` | scripts/build_image.py:48-50 | the ten fields of the parameter block, and that the layout constants are made of them |
| `ImageBuilder.EntryInImage` | scripts/build_image.py:64-68 | all 32 bytes of a file's directory entry in a finished image |
| `ImageBuilder.FileInImage` | scripts/build_image.py:59-79 | where its bytes stand, by address |
| `ImageBuilder.LinksInImage` | scripts/build_image.py:69-75 | its table entries, and that entries of no file are zero |
| `ImageChecker.FollowIsChain` | scripts/build_image.py:34-40 | following succeeds exactly on chains that end, stay in the data area, never repeat and avoid seen clusters |
| `ImageChecker.ReadChain` | scripts/build_image.py:34-40 | terminates on every table, cyclic and cross-linked ones included, and returns the chain's bytes |
| `ImageChecker.Check` | scripts/build_image.py:23-42 | decides exactly its demands on any byte string |
| `ImageChecker.AcceptedIsLayout` | scripts/build_image.py:28-42 | acceptance is the existence of acyclic, pairwise disjoint chains of ceil(size/512) clusters that begin with the files |
| `ImageChecker.AcceptedMeans` | scripts/build_image.py:23-42 | acceptance in bytes of the image: signature, equal tables, entries, links, contents, all chains apart |
| `ImageChecker.ChainUnique` | scripts/build_image.py:34-40 | a chain is determined by its first cluster |
| `Loader.AddressInverts` | src/boot/loader.asm:746-762 | cylinder, head and sector address the linear sector they were computed from |
| `Loader.LoaderGeometry` | src/boot/fat12.inc:3-7 | the numbers built into the loader are those of the parameter block |
| `Loader.NamesSpelled` | scripts/build_image.py:51-52 | the two directory names, character by character |
| `Loader.Machine.ReadSectors` | src/boot/loader.asm:746-770 | the division arithmetic reads the sectors asked for |
| `Loader.Machine.GetFatEntry` | src/boot/loader.asm:774-812 | the two-sector lookup equals the flat 12-bit entry, and only its buffer changes; where the byte offset overflows the 16-bit quotient it faults instead |
| `Loader.StraddledPair` | src/boot/loader.asm:791-803 | the byte pair in the two-sector buffer is the table's, on a sector boundary too |
| `Loader.Machine.CopyKernelSector` | src/boot/loader.asm:659-718 | with A20 open one sector is copied up and the counter advances, otherwise memory is as before |
| `Loader.AcceptedButNotLoaded` | src/boot/loader.asm:211-219 | an image that passes the checker and whose file the loader reads past its end mark 0xFF8, to sector 4119 of 2880 |
| `Loader.EmptyFileNotLoaded` | src/boot/loader.asm:182-219 | for each first cluster from 0xFF8 to 0xFFFF an image of an empty file that passes the checker and never loads: at 0xFFF sector 4126 of 2880 is asked for, at 0xFFE1 the sector number wraps around to the boot sector |
| `Loader.FinishedLoads` | src/boot/loader.asm:195-219 | every file of a finished image has a chain that ends in 0xFFF, and its bytes begin with the content |
| `Loader.Machine.FindKernel` | src/boot/loader.asm:109-164 | the search over the root directory finds the first entry with the kernel's name, and its first cluster, or there is none |
| `Loader.Machine.LoadFile` | src/boot/loader.asm:182-219 | on any chain the checker accepts, the empty one included: the sectors lie in order from 1 MiB and the counter is at 1 MiB + 512 per cluster; the file is loaded iff A20 is open, the chain is not empty and its mark is 0xFFF; otherwise the loop halts at the probe, asks for a sector beyond the disk, or faults in a division, as stated; an empty chain from 0xFFE1 on first brings up a sector from the start of the disk |
| `Loader.Machine.LoadAccepted` | src/boot/loader.asm:182-219 | on any image the checker passes: memory at 1 MiB begins with the file iff A20 is open, the file is not empty and its end mark is 0xFFF |
| `Loader.Machine.LoadFound` | src/boot/loader.asm:182-219 | on a built image: what lies at 1 MiB is the file that was given to the builder |
| `Loader.Machine.LoadKernel` | src/boot/loader.asm:109-219 | end to end on the built floppy: the kernel's entry is found, and what lies at 1 MiB is the kernel iff A20 is open |
| `UserMode.WalkIsGranted` | src/kernel/usermode.rs:260-283 | over all 64-bit addresses the four-level walk opens exactly the code page (read, execute) and the stack page (read, write) |
| `UserMode.UserSees` | src/kernel/usermode.rs:260-283 | the same in numbers: which addresses, which physical byte, which rights |
| `UserMode.ReadableIsAccessible` | src/kernel/usermode.rs:322-327 | for length > 0 the two-interval test holds iff every byte is user-accessible, wrap-around included |
| `UserMode.ReadableOfNothing` | src/kernel/usermode.rs:322-327 | for length 0 the test holds exactly on the two closed address ranges |
| `UserMode.NothingIsRefused` | src/kernel/usermode.rs:322-327 | the empty range at address 0 is refused though no byte of it is inaccessible; the one just behind the code page is accepted though that byte is not accessible |
| `UserMode.UserSpace.InstallMapping` | src/kernel/usermode.rs:260-283 | the entries written are the described tables, over whatever an earlier mapping left |
| `UserMode.UserSpace.ClearMapping` | src/kernel/usermode.rs:208-211 | entry 0 of the root is cleared and nothing else |
| `UserMode.ClearedIsUnreachable` | src/kernel/usermode.rs:208-211 | with that entry cleared no address is reachable |
| `UserDemo.InstalledIsConfined` | src/kernel/usermode.rs:179-196 | everything user code reaches lies in the page that is held |
| `UserDemo.GiveBackNeedsUnmap` | src/kernel/usermode.rs:208-213 | giving the page back keeps "all that is reachable is held and live" iff nothing is reachable any more |
| `UserDemo.StepSafe` | src/kernel/usermode.rs:166-213 | every other step (take, map, enter, leave, unmap) keeps it |
| `UserDemo.CrossingMeans` | src/kernel/usermode.rs:183-207 | entering sets RSP0 and ACTIVE, leaving puts both back, nothing else changes |
| `UserDemo.MappingMeans` | src/kernel/usermode.rs:179-211 | mapping opens two small pages at the start of the held page and nothing else; unmapping closes all |
| `UserDemo.OwningMeans` | src/kernel/usermode.rs:168-213 | taking and giving back change one page, below 10 MiB, and no other |
| `UserDemo.ActiveReadable` | src/kernel/usermode.rs:322-341 | while ACTIVE is set, the pointer check and the page walk agree on every non-empty range |
| `UserDemo.Demonstration.GiveBack` | src/kernel/usermode.rs:212-213 | demands that nothing is reachable, and gives the page back |
| `UserDemo.Demonstration.Run` | src/kernel/usermode.rs:166-218 | take, map, enter, leave, unmap, give back, in this order, through safe states only; afterwards nothing is reachable, bookkeeping and RSP0 are as before, and it may be run again |
| `TaskSwitch.Machine.ContextSwitch` | src/kernel/task_switch.S:8-28 | six pushes, the saved stack pointer, the new one, six pops and the return |
| `TaskSwitch.SaveThenLoad` | src/kernel/task_switch.S:8-28 | the frame a task leaves loads back as the registers, stack pointer and return address of its call |
| `TaskSwitch.SavedWords` | src/kernel/task_switch.S:8-28 | each saved word by its place below the stack pointer; nothing else is written but the context |
| `TaskSwitch.SwitchResumes` | src/kernel/task.rs:154-188 | a switch keeps the invariant and continues the other task as it was suspended |
| `TaskSwitch.SwitchAllowed` | src/kernel/task.rs:154-166 | exactly when a hand-over is allowed |
| `TaskSwitch.SwitchStates` | src/kernel/task.rs:159-171 | after a hand-over a running caller is ready, a finished one finished, the next one running, third tasks unchanged |
| `TaskSwitch.OnlyExitFinishes` | src/kernel/task.rs:190-210 | in any step a task becomes a zombie only by its own exit, and the boot task never |
| `TaskSwitch.ExitAndReap` | src/kernel/task.rs:204-210 | when exiting and giving back are possible, and all they change |
| `TaskSwitch.YieldedCanResume` | src/kernel/task.rs:154-188 | a task that yielded stays ready through any run in which nobody resumes it, and can then be resumed by whoever is current, given 56 bytes of stack |
| `TaskSwitch.ReachableIsNumbered` | src/kernel/task.rs:96-113 | in every reachable state process numbers are distinct and below the next one, and all tasks share the page tables |
| `TaskSwitch.ReachableKeepsInv` | src/kernel/task.rs:247-258 | from the start of tasking, one running boot task on its own stack, every reachable state satisfies the invariant |
| `TaskSwitch.RunKeepsInv` | src/kernel/task.rs:154-210 | what that invariant is, kept by every run: only the current task is running, RSP0 is its stack top, every suspended frame is whole |
| `TaskSwitch.ResumesExactly` | src/kernel/task_switch.S:8-28 | over any run of other tasks, a resumed task sees the registers, stack pointer and return address of its call, and the stack assertions hold |
| `TaskSwitch.FirstFrameSuspends` | src/kernel/task.rs:108-124 | the synthetic frame is a suspended task whose resumption is the trampoline |
| `TaskSwitch.CreatedThread` | src/kernel/task.rs:96-124 | descriptor fields, canary and first frame of a new thread by address; everything else unchanged |
| `TaskSwitch.FirstEntry` | src/kernel/task.rs:108-124 | a new thread enters the trampoline with RSP = top - 8 and RSP mod 16 = 8, whatever ran in between |
| `TaskSwitch.ZombieNeverRuns` | src/kernel/task.rs:159-210 | a task that has exited is never current again in any run |
| `TaskSwitch.ReapedElsewhere` | src/kernel/task.rs:276-279 | a finished task that is not current has neither the stack pointer nor RSP0, and cannot be switched to |
| `TaskSwitch.Machine.SwitchTo` | src/kernel/task.rs:154-188 | states, RSP0, CURRENT, memory and registers after a hand-over, or no change when an assertion refuses it |
| `TaskSwitch.Machine.CreateKernelThread` | src/kernel/task.rs:92-124 | descriptor, canary, first frame and process number of a new thread, in a page that is no task's |
| `Threads.GrantedIsFresh` | src/kernel/task.rs:89-93 | the page the allocator grants is no task's page: it meets neither a thread's page nor the boot task |
| `Threads.SpawnSucceeds` | src/kernel/task.rs:86-95 | creating a thread fails only for want of a page or of a process number |
| `Threads.SpawnMeans` | src/kernel/task.rs:86-133 | creation takes exactly one free page below 10 MiB, in whose start the thread lives, and adds one task and one token |
| `Threads.StepKeepsInv` | src/kernel/task.rs:86-285 | scheduler and allocator together: every thread lives in a held page of its own through switches, creations, exits, reaping and any other requests and releases |
| `Threads.ReachableIsHoused` | src/kernel/task.rs:247-285 | in every reachable state a thread's page is held by its token alone and lies above the kernel image |
| `Threads.ReapReleases` | src/kernel/task.rs:276-280 | a finished thread's page can always be given back: no assertion of `release` fails, and the stack in use is not in that page |
| `Threads.ReapMeans` | src/kernel/task.rs:276-280 | giving back frees exactly that page and forgets that token |
| `Threads.CreateThread` | src/kernel/task.rs:86-133 | `create_kernel_thread` in place, its page request included |
| `Threads.FreeThread` | src/kernel/task.rs:276-280 | giving the page back in place; the release is not refused |
| `Bringup.InitLeadsToStart` | src/kernel/main.rs:67-105 | after `init` and any history of requests and releases, with the boot task inside the kernel image, tasking starts in a start state of `Threads` |
| `Bringup.HeldIsFirmwareRam` | src/kernel/main.rs:67-105 | over firmware answers, page traffic and thread runs of any kind: every byte of every run ever held lies above the kernel image, is RAM by one answer of the firmware and nothing else by any |
| `Bringup.ThreadsLiveInRam` | src/kernel/task.rs:86-133 | in every reachable state a thread's descriptor and whole stack are backed by such bytes |
| `Console.Console.Init` | src/kernel/console.rs:42-68 | accepts exactly the modes that pass the assertions, and starts with an empty grid over what was there |
| `Console.ModeAccepted` | src/kernel/console.rs:42-68 | the accepted modes field by field, attribute bits 0 and 7 among them |
| `Console.PixelInWindow` | src/kernel/console.rs:57-59 | every pixel of an accepted mode lies inside the 16 MiB window |
| `Console.RunInside` | src/kernel/console.rs:96-126 | after any byte stream the cursor and every drawn cell lie on the grid |
| `Console.LineFeed` | src/kernel/console.rs:74-78 | a line feed goes to the start of the next row, from the last to the first, and draws nothing |
| `Console.CarriageReturn` | src/kernel/console.rs:102-102 | a carriage return goes to the start of the same row |
| `Console.LinesReadBack` | src/kernel/console.rs:96-126 | a text of lines: line i stands in the i-th row from where it began, around the bottom |
| `Console.RowInBuffer` | src/kernel/console.rs:88-91 | every pixel index of a cell on the grid is below stride times height |
| `Console.CellDrawnAt` | src/kernel/console.rs:80-94 | pixel by pixel, which index the nested drawing loops write and with what |
| `Console.PixelMeans` | src/kernel/console.rs:80-87 | a set font bit takes the color, a clear one is black; bit 7 is the leftmost column |
| `Console.PixelOnScreen` | src/kernel/console.rs:80-94 | which dot of which character stands at a pixel, or what was there before |
| `Console.DrawShows` | src/kernel/console.rs:80-94 | drawing in place turns the rendering of a grid into the rendering of the new grid |
| `Console.OutsideUntouched` | src/kernel/console.rs:80-94 | line padding and the strips outside whole cells keep their pixels |
| `Console.BackspaceTakesBack` | src/kernel/console.rs:109-117 | backspace after a printed byte restores the cursor and blanks the cell iff the byte was not in the bottom right corner of a larger screen |
| `Console.BackspaceInCorner` | src/kernel/console.rs:109-117 | on two by two cells, a byte printed in the corner stays after backspace and the top left cell is blanked instead |
| `Console.BackspaceMoves` | src/kernel/console.rs:109-117 | from any cell: one cell back in reading order, not past the first, and that cell blank |
| `Console.TabStops` | src/kernel/console.rs:103-108 | at any column a tab blanks exactly the 8 - x mod 8 cells ahead of the cursor in reading order, around line end and bottom too, and moves on by as many; inside a line it stops at the next multiple of eight |
| `Console.ReadsOneCell` | src/kernel/console.rs:88-88 | a position in reading order is one cell, so one byte is read there |
| `Console.TextReadsBack` | src/kernel/console.rs:118-124 | a printable text that fits the screen stands there in reading order from the cursor, around the bottom too |
| `Console.Console.Glyph` | src/kernel/console.rs:80-94 | the drawing loops draw one cell of the grid |
| `Console.Console.Byte` | src/kernel/console.rs:96-126 | one byte of output is one step of the grid, or nothing without a framebuffer |
| `Console.Console.WriteStr` | src/kernel/console.rs:143-150 | a string is its bytes in order |
| `Keyboard.ByteQueue.Push` | src/kernel/keyboard.rs:40-47 | appended, or counted as dropped when 64 bytes wait |
| `Keyboard.ByteQueue.Pop` | src/kernel/keyboard.rs:49-57 | the oldest byte, order of the rest kept |
| `Keyboard.ByteQueue.OnInterrupt` | src/kernel/keyboard.rs:171-187 | empty and spoiled answers are counted, others queued |
| `Keyboard.SpoiledIsMask` | src/kernel/keyboard.rs:181-184 | the spoiled answers are those with bit 5, 6 or 7, the mask 0xE0 |
| `Keyboard.InterruptMeans` | src/kernel/keyboard.rs:171-187 | queue, dropped and errors after one interrupt, for every status byte |
| `Keyboard.ByteQueue.Drain` | src/kernel/keyboard.rs:208-244 | everything waiting is shown in order and both loss counters are reported and cleared |
| `Keyboard.NothingUncounted` | src/kernel/keyboard.rs:20-58 | every history: shown plus waiting bytes are the arrived ones in order, with exactly the counted ones missing, and at most 64 wait |
| `Keyboard.KeptOnlyGrows` | src/kernel/keyboard.rs:20-58 | in every history accepted bytes are never overwritten, reordered or taken back |
| `Keyboard.NoLossWhileRoom` | src/kernel/keyboard.rs:40-47 | as long as 64 slots suffice every intact byte is kept and no loss is counted |
| `Keyboard.SubsequenceCount` | src/kernel/keyboard.rs:20-58 | kept plus missing is arrived, and with no loss nothing was altered |
| `Keyboard.EveryFaultCounted` | src/kernel/keyboard.rs:176-184 | every faulty interrupt is counted once, reported or not |

## Left out

- Machine words of the bitmap are numbers below 2^64 with recursively defined bit operators; page attributes are sets of named flags instead of u64 masks.
- Counters are unbounded: the overflow of `reference_count` (only by 2^64 shared references), of `dropped` and of `errors` is not modelled.
- Shared references are covered page by page; no history in the model takes a second reference, as no caller in the source does.
- PageAllocator.MemoryDescriptor.Allocate: the search and commit loops of the source's one body are separate methods called from it, as are the two loops of `release`.
- A `PageRun` is a value; that a token is used once is the discipline of the histories in `PageHistory`, where the source relies on Rust's move semantics.
- The page and zone arrays of `init` are fresh arrays rather than memory at the planned addresses; the plan itself (sizes, alignment, end) is modelled, and `kernel_end` is a parameter. Pointers from page to zone are indices.
- `Handoff.Boot`: low memory between the loader's collection and the kernel's reading is taken as unchanged.
- BIOS sector reads of sectors the disk has are taken to succeed (the loader retries for ever on failure) and to return the image's sectors.
- `ImageBuilder.Build` takes any number of files up to the 224 root entries; the program has two (`ImageBuilder.BuildFloppy`).
- A20 is either open or closed for a whole load.
- The other entries of the root page table are taken to be closed to user code; the source asserts this of entry 256 and the boot code leaves the rest empty or kernel-only. TLB flushes, the syscall gate, the user code's own run and the copying of its bytes are not modelled.
- The history fields of `UserDemo.Demonstration` and the call logs of `E820.Firmware` are ghost records kept by their methods.
- A load that goes wrong is ended by the model where the loader would repeat a failing read, or a dividing instruction after its fault, for ever.
- Task stacks are words at multiples of eight. A task computes, also after it has exited, by changing its own stack and unowned memory only; the stack canary is written but its later test is not modelled. The exit code and progress fields are left out, and the boot task is task 0.
- The console's debug port, the BUSY flag and the colours' names; the font is any 256 by 16 table. The framebuffer's byte alignment is not required by the source and does not appear in the model.
- 8042 start-up, interrupt controller, descriptor tables, traps, system call dispatch, processor reports, VBE mode enumeration, the first boot sector's own copy of the FAT routine, demonstration and check drivers: effects on hardware, or settled by reading one branch.
