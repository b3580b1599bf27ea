# argaldOS: disk installer, terminal, paging and printf

A Dafny model of four stateful parts of the repository, each proved against a simpler description of what
it is for. Imperative C code appears as classes and methods that update arrays and fields in place; every
such method is tied to a function of the old state, and what the source promises is proved about that
function.

* **The limine installer** (`Bytes`, `BlockCache`, `UndoLog`, `Rollback`, `UninstallFile`, `Installer`,
  `Crc32`, `GptLayout`, `GptTables`, `GptFields`, `GptEmbed`, `InstallPlan`, `BiosInstall`, `TornInstall`). A
  one-block write-back cache over a disk whose transfers may fail or tear at any point refines a flat byte
  array. Every write saves the bytes it replaces; throwing the cache away and replaying the log backwards
  restores the disk whatever part of the dirty data had reached it, and which sequences of writes this protects
  from every fault is decided.
  The log survives a round trip through its file. Embedding the second stage into a GPT disk keeps every used
  partition entry and leaves both headers valid; a failed installation is undone.
* **The frame allocator and the page tables** (`FrameAllocator`, `PageTables`). The bitmap is the set of
  live frames, and four-level tables built from such frames are a partial map that `map_page`,
  `unmap_page` and `map_range` update at exactly the pages they name.
* **The flanterm terminal** (`PendingCells`, `Geometry`, `TextState`, `Screen`, `ControlFunctions`,
  `ControlParameters`, `Machine`, `ControlSequences`, `ControlEffects`, `CharacterStreams`, `CharacterEffects`,
  `Terminal`). Committed grid, queue and map encode one logical screen; the incremental flush leaves every
  pixel of the framebuffer as a redraw of that screen with its cursor would. One byte is one step of a state
  machine, whatever the bytes are, and the loops behind the control functions are compared with ECMA-48.
* **printf** (`Numerals`, `Printf`, `Directives`, `StandardTexts`, `WrittenDirectives`). The output for a
  capacity is the unbounded output cut short, the count does not depend on the capacity, exactly which numbers
  read back is decided, and exactly when a written directive puts out what ISO C99 asks for.

`Arithmetic` and `DigitStrings` are shared: products and remainders, and what a string of digits denotes.

The main results are `BlockCache.CacheRefinesFlatArray`, `Rollback.RolledBackIffShielded`,
`UninstallFile.UninstallUndoesInstall`, `Crc32.TableCrc`, `GptEmbed.EmbeddingKeepsGptValid`,
`BiosInstall.InstallOnGpt` with `InstallFitsLog` and `InstalledGptIsIntact`,
`GptLayout.GuardMeansRoom`, `FrameAllocator.RunsKeepTrack`,
`PageTables.Paging.MapPage` with `UnmapPage` and `MapRange`, `PageTables.RangeIsMapPageFold`,
`Screen.Screen.Flush` with `Geometry.DisplayDeterminesPixels`, `Terminal.Terminal.Write`,
`ControlSequences.ControlSequenceArrives` with the lemmas of `ControlEffects`,
`CharacterStreams.CodePointArrives` and `RestoreBringsBack`, the
lemmas of `ControlFunctions` whose names end in `IsStandard`, `Numerals.PrintedNumberReads`,
`WrittenDirectives.IntegerDirective`, and `Printf.VSnprintf` with `CapacityOnlyTruncates`.

Some promises do not hold of the code. They are stated with the exact condition under which they do:

* a write that fails after its first block is not in the undo log, because the counter moves only after the
  copying loop, so not every installation is always rolled back (`Rollback.RolledBackIffShielded`);
* zeroing many partition entries overflows the undo log (`BiosInstall.InstallFitsLog`);
* DCH with a count that reaches past the row also blanks cells left of the cursor
  (`ControlFunctions.DeleteIsStandard`), ECH, ED and EL 0 depend on pending wraps, margins and the shape of
  the screen, EL 1 spares the cursor's own cell (`ControlFunctions.EraseLineIsStandard`), ICH by zero blanks
  the rest of the row, IL outside the region still blanks a row, and DL ignores the cursor's row
  (`ControlFunctions.InsertIsStandard`, `InsertLinesIsStandard`, `DeleteLinesIsStandard`);
* a wrap below the scrolling region can take the cursor off the screen (`TextState.CursorLeavesScreen`);
* CUD pulls the cursor up by one when it is just below the scrolling region
  (`ControlFunctions.DownMovesDown`);
* a cancelled private introducer makes the next control sequence a private one
  (`ControlSequences.CancelKeepsPrivate`);
* `#` replaces leading digits of a number that is as long as its field, and signs and prefixes are cut when
  the buffer is full (`Numerals.PrintedNumberReads`, `Numerals.HashDropsDigits`);
* a number that does not fit 32 characters loses digits, zeros or its sign, one justified left the zeros of its
  precision, and one with `#` digits or zeros that its prefix takes the place of
  (`StandardTexts.NumberIsStandard`);
* the fields of the chosen memory region are ints (`FrameAllocator.FieldsKeepValues`), and the allocator's
  bitmap has flags for pages beyond the region (`FrameAllocator.AllocationInRegion`);
* the halves of the second stage are cut to 16 bits above 254 sectors (`GptLayout.HalvesCover`), and a first
  half longer than all below the end of the table area slips past the guard of the embedding
  (`GptLayout.GuardMeansRoom`, `GptLayout.LargeHalfWraps`), though no installation then completes
  (`BiosInstall.BeyondTableNeverCompletes`);
* the installer's own stage write can stay on the disk after a successful undo (`TornInstall.TornHalfStays`);
* map_range differs from map_page on flags above the low twelve bits (`PageTables.RangesAlwaysFold`).

`dafny verify dfyconfig.toml` checks everything.

## Model

| member | source | states |
|---|---|---|
| `BlockCache.FlushKeepsFlat` | limine/limine.c:265-284 | a flush, complete or torn, leaves the bytes that callers see unchanged; if it completes, the disk equals them |
| `BlockCache.CacheBlockKeepsFlat` | limine/limine.c:286-311 | changing the cached block, flushing the old one if dirty, is invisible to callers, and each disk byte is the old one or the one the cache held for it |
| `BlockCache.ReadRefines` | limine/limine.c:426-446 | a completed read of any offset and length returns what the flat array holds there, and no read changes the flat array |
| `BlockCache.WriteRefines` | limine/limine.c:476-497 | a write splices exactly the bytes its loop got through into the flat array, and no other disk byte becomes anything but the flat array's byte |
| `BlockCache.WriteStopsAtBlock` | limine/limine.c:476-497 | a write that fails after it has begun stops at the end of a block |
| `BlockCache.CacheRefinesFlatArray` | limine/limine.c:232-311 | any interleaving of reads, writes and flushes at any block size returns and leaves behind what a flat byte array would, up to the first failure |
| `BlockCache.ReadServes` | limine/limine.c:426-446 | a device that does not fail serves every read inside its whole blocks |
| `BlockCache.WriteServes` | limine/limine.c:476-497 | a device that does not fail serves every write inside its whole blocks |
| `UndoLog.StepKeepsUndoable` | limine/limine.c:426-497 | every completed read, write or flush of an installation keeps the disk restorable from the log; a failed one leaves the log as it was |
| `UndoLog.InstallLeavesBehind` | limine/limine.c:1062-1067 | however an installation ends, the log restores every byte outside the abandoning write |
| `UndoLog.UninstallReplays` | limine/limine.c:499-549 | an uninstall that reports success, through any retries, has replayed its entries onto the disk as it found it, whatever the cache held |
| `UndoLog.UninstallServes` | limine/limine.c:499-549 | on a device that does not fail it reports success |
| `UndoLog.ReplayRestoresExactly` | limine/limine.c:327-333 | replaying the reversed log restores the initial disk if and only if the bytes it does not cover are still the initial ones |
| `UndoLog.OnlyTornWritesLose` | limine/limine.c:448-497 | whatever ends an installation, only a write of several blocks that failed between two of them, with the log not full, has got any byte through unlogged; a failed read, save, flush or one-block write, and a full log, lose nothing |
| `UndoLog.RollbackRestores` | limine/limine.c:448-549 | abandoning a run at any step, with any part of the dirty data on the disk, and uninstalling restores every byte; after such a torn write each byte is restored or one that write had got through, and all are exactly when it left no unlogged byte changed |
| `Rollback.RolledBackIffShielded` | limine/limine.c:448-549 | for every block size and sequence of reads, writes and flushes: whatever the disk, the data and the faults, an uninstall that reports success restores the disk, if and only if all of each write but its last block has been written before (or the log is full by then) |
| `Rollback.OneWriteIsRolledBack` | limine/limine.c:448-549 | so a single write is always rolled back if and only if it does not straddle two blocks |
| `Rollback.CompletesIffLogHasRoom` | limine/limine.c:453-456 | on a device that never fails, an installation completes if and only if the 256 entries of the log suffice for its writes |
| `UninstallFile.StoreThenLoad` | limine/limine.c:341-424 | storing succeeds exactly for logs without empty entries, and loading the file gives the same log |
| `UninstallFile.LoadThenStore` | limine/limine.c:341-424 | whatever file loads is a stored log of at most 256 entries, up to trailing bytes |
| `UninstallFile.LittleEndianAt` | limine/limine.c:341-379 | byte i of a stored number has the weight 256^i |
| `UninstallFile.UninstallUndoesInstall` | limine/limine.c:649-664 | install, flush, store the reversed log, load it in another process and uninstall: the disk has its pre-install bytes |
| `Installer.Session.DeviceInit` | limine/limine.c:232-263 | succeeds if and only if one of the guesses 512, 2048 and 4096 can be read whole by its transfer, whatever the faults; the first such becomes the block size, with that block cached and clean |
| `Installer.Session.DeviceRead` | limine/limine.c:426-446 | the loop with its chunks equals the read that ReadRefines is about, for every outcome |
| `Installer.Session.DeviceWrite` | limine/limine.c:448-497 | log full, save-read, copying loop, counter: equals the logged write, or the plain write while uninstalling |
| `Installer.Session.TryRead` | limine/limine.c:551-554 | a completed read keeps the session recoverable and returns the flat bytes; a failed one leaves every byte outside the log as it was found |
| `Installer.Session.TryWrite` | limine/limine.c:556-561 | a completed write keeps the session recoverable and writes the flat array; a failed one leaves every unlogged byte as it was found, but for whole blocks it had got through: none if the log was full, the save failed, or it lies in one block |
| `Installer.Session.UninstallAll` | limine/limine.c:499-549 | the loop with its one retry per entry equals the uninstall that UninstallReplays is about |
| `Installer.Session.StoreUninstallData` | limine/limine.c:341-379 | produces the stored log, or nothing for a log with an empty entry |
| `Installer.Session.LoadUninstallData` | limine/limine.c:381-424 | produces the log of the file, or the error the C code reports |
| `Crc32.TableEntry` | limine/limine.c:115-148 | each of the 256 table entries is eight bit steps of its index |
| `Crc32.LookupIsByteStep` | limine/limine.c:161-171 | one table look-up advances the remainder by a whole byte |
| `Crc32.TableCrc` | limine/limine.c:161-171 | for every byte string the table-driven loop computes the bit-at-a-time reflected CRC with polynomial 0xEDB88320 (section 8 of RFC 1952) |
| `GptLayout.HalvesCover` | limine/limine.c:874-879 | the two 16-bit halves cover stage 2 if and only if it has at most 254 sectors |
| `GptLayout.GuardMeansRoom` | limine/limine.c:949-953 | for every first half below 64 KiB: embedding is refused exactly when the half takes more than 32 blocks or a used entry would not fit, if and only if the half takes at most 32 blocks, or entries are of one byte, or entries fit a block and the half is not longer than all below the table area's end, or entries do not fit a block and one is in use |
| `GptLayout.CountBeyond` | limine/limine.c:935-953 | for a first half longer than all below the table area's end the location wraps, and the count with it: to at least 2^47 for entries of 2 bytes up to a block, to a negative number for entries of one byte, to 0 for longer ones |
| `GptLayout.LargeHalfWraps` | limine/limine.c:935-953 | a stage 2 of 70 sectors on 512-byte blocks with the table in block 2 is to start at 2^64 - 512 and makes the new count 2^57 - 12 |
| `GptLayout.LayoutFits` | limine/limine.c:935-953 | both halves and both enlarged arrays fit their areas, in the backup area too although the count comes from the primary one, if and only if the first half takes at most 32 blocks |
| `GptTables.ResizedHeader` | limine/limine.c:989-1003 | a rewritten header carries its own checksum over 92 bytes with the field zeroed, the array checksum and the count, and nothing else changed |
| `GptFields.FieldsAreRead` | limine/limine.c:76-99 | what the installer takes for the header size, MyLBA, AlternateLBA, the array's block, the count and the entry size of a header are the members of those names of a struct packed with the declared widths |
| `GptFields.HeaderIsPacked` | limine/limine.c:76-99 | every header is such a struct, packed |
| `GptFields.ResizedIsPacked` | limine/limine.c:989-1003 | rewriting a header gives it the new count, the checksum of the entries and the checksum of its own 92 bytes with that member zero, and changes no other member |
| `GptFields.ValidHeaderIsPacked` | limine/limine.c:76-99 | the validity that embedding keeps is that of section 5.3.2 of the UEFI specification, member by member: EFI PART, 92 bytes, MyLBA, and both checksums |
| `GptFields.EntryIsRead` | limine/limine.c:101-112 | a packed partition entry is 128 bytes long and counts as used if and only if its unique GUID is not zero |
| `GptEmbed.StagedBytes` | limine/limine.c:1019-1047 | after the stage writes both halves are in place and the boot sector is the image's, but for timestamp, partition table and the four location words |
| `GptEmbed.StagedKeeps` | limine/limine.c:1019-1047 | the stage writes change nothing outside the boot sector and the two halves |
| `GptEmbed.EmbeddingKeepsGptValid` | limine/limine.c:920-1047 | on a well-ordered disk with agreeing arrays, for every size of the first half: the places an embedding uses are in order if and only if the half takes at most 32 blocks, and then a successful embedding leaves every used entry's bytes in both arrays, blanks the rest, and leaves both headers valid, as GptFields has it member by member, for the new count, the primary's AlternateLBA naming the backup |
| `GptEmbed.UsedEntryIsKept` | limine/limine.c:920-933 | each used entry lies among the bytes kept |
| `BiosInstall.ScanEntries` | limine/limine.c:920-933 | the scan finds the largest used index of the flat array, through the cache |
| `BiosInstall.EmbedGpt` | limine/limine.c:920-1007 | performs exactly the specified embedding, or refuses without changing a byte, and issues exactly the planned operations up to a failure |
| `BiosInstall.InstallStages` | limine/limine.c:1019-1047 | performs exactly the specified stage writes |
| `BiosInstall.ProbeGpt` | limine/limine.c:668-686 | finds the first header with the GPT signature among the two logical block sizes |
| `InstallPlan.ProbedMeans` | limine/limine.c:668-686 | a GPT is found at 512 bytes, or else at 4096 bytes, exactly where 96 bytes start with EFI PART |
| `InstallPlan.InstallWritesIff` | limine/limine.c:668-953 | the installer plans to write if and only if the probe finds a header, the block its AlternateLBA names says EFI PART, the entry sizes are usable, and the new count exceeds the last used index |
| `InstallPlan.PlanInstalls` | limine/limine.c:668-1047 | the planned reads and writes, one after the other, turn the flat array into the embedded and staged one, or leave it as it was |
| `BiosInstall.Undo` | limine/limine.c:1062-1067 | equals the uninstall of what the issued operations have left; if it reports success the disk is restored, up to a torn write |
| `BiosInstall.InstallSteps` | limine/limine.c:668-1047 | issues a prefix of the operations that the disk and the image determine, all of them unless one failed; installs the image as specified, or leaves the flat array as it was if it gives up or finds no GPT |
| `BiosInstall.InstallOnGpt` | limine/limine.c:668-1069 | installs the image with a log that restores the initial disk; or uninstalls what the operations issued, a prefix of the planned ones, have left, and if that reports success the disk is the initial one, unless the last of them was a write torn between two blocks, of which only bytes it got through may then remain |
| `BiosInstall.InstalledGptIsIntact` | limine/limine.c:920-1047 | on a well-ordered disk what a completed installation leaves, whatever the size of the image, has two valid headers that name their own blocks, and every used entry |
| `BiosInstall.InstallFitsLog` | limine/limine.c:448-497 | on a device that never fails, an embedding installation runs into the limit of 256 log entries if and only if twice the number of zeroed entries and eleven exceed it |
| `BiosInstall.BeyondTableNeverCompletes` | limine/limine.c:935-969 | with a first half longer than all below the table area's end the guard lets the embedding through and no installation completes, whatever the device and its faults |
| `TornInstall.TornHalfStays` | limine/limine.c:1029-1030 | on every well-ordered GPT disk, an image that the installer embeds whose first half straddles two blocks and differs from the disk before the last of them has faults after which the undo reports success and the disk has changed |
| `FrameAllocator.ChooseRegion` | src/kernel/pmm.c:48-63 | the first of the longest usable regions at or above 1 MiB |
| `FrameAllocator.FieldsKeepValues` | src/kernel/pmm.c:64-77 | the int fields of the chosen region, and the int sum where frames start, keep the 64-bit values if and only if the region is shorter than 2 GiB and its bitmap ends below 2 GiB |
| `FrameAllocator.Pmm.constructor` | src/kernel/pmm.c:43-93 | on any memory map: the fields are those of the chosen region as ints, and the bitmap has exactly the reserved indices set; if the region fits them, as FieldsKeepValues has it, the allocator is ready with no live frame |
| `FrameAllocator.Pmm.Kmalloc` | src/kernel/pmm.c:98-132 | hands out the first free frame, which was not live, and sets its flag only |
| `FrameAllocator.Pmm.Kfree` | src/kernel/pmm.c:134-148 | a live frame's flag, and only that one, is cleared |
| `FrameAllocator.RunsKeepTrack` | src/kernel/pmm.c:98-148 | over any run of takes and gives the bitmap is the reserved indices plus the live frames, and live frames are aligned and clear of the bitmap |
| `FrameAllocator.TakeThenGive` | src/kernel/pmm.c:98-148 | giving a fresh frame back restores bitmap and live set |
| `FrameAllocator.AllocationInRegion` | src/kernel/pmm.c:68-77 | an allocated frame lies inside the region if and only if its index is below the pages the bitmap leaves over, and first fit keeps to those while one is free |
| `PageTables.LeafEntryMeaning` | src/kernel/paging.c:545-545 | the leaf entry is the address of the physical page plus the low twelve flag bits, with the present bit set |
| `PageTables.SameIndices` | src/kernel/paging.c:508-512 | the four indices are the digits in base 512 of the page, PML4 first, so two addresses share them if and only if they lie in the same page of the 48-bit space |
| `PageTables.TranslateIsLeaf` | src/kernel/paging.c:18-19 | on an unshared tree the four-level walk finds what the named tables say |
| `PageTables.LinkKeepsLeaves` | src/kernel/paging.c:486-495 | linking a fresh zeroed frame changes no page's translation |
| `PageTables.LeafWriteLeaves` | src/kernel/paging.c:544-550 | writing a leaf entry changes the translation of its own page and of no other |
| `PageTables.Paging.GetNextTable` | src/kernel/paging.c:457-501 | returns the linked table, or links a new one with bits 7; no translation changes and at most one frame is taken |
| `PageTables.Paging.MapPage` | src/kernel/paging.c:503-554 | the mapping is updated at exactly the page of the address, or unchanged when no frame is left; at most three frames are taken |
| `PageTables.Paging.UnmapPage` | src/kernel/paging.c:556-568 | the page of the address is removed from the mapping and nothing else changes |
| `PageTables.Paging.MapRange` | src/kernel/paging.c:48-92 | the loop enters page after page, from the page of the first address to the end, into the map; RangeMapAt says with which targets |
| `PageTables.RangeIsMapPageFold` | src/kernel/paging.c:48-92 | map_range enters what map_page would on each page if, and in at most the 48-bit space only if, on no page flags change the page or the rest of the target changes the flags |
| `PageTables.RangesAlwaysFold` | src/kernel/paging.c:48-92 | so it does for every range if and only if the flags have no bit above the low twelve, which map_range does not mask, and what a misaligned direct map leaves below the page adds no bit to them |
| `PageTables.RangeMapAt` | src/kernel/paging.c:48-92 | every page w of the range is present and, for a page-aligned direct map at hhdm and flags below 4096, maps to w - hhdm if hhdm <= w and to w otherwise, and carries the flags; for other bases and flags, if and only if they leave page and flags alone |
| `PageTables.RangeMapElsewhere` | src/kernel/paging.c:48-92 | pages outside keep their translation |
| `PendingCells.RoomForItem` | src/drivers/terminal/flanterm/backends/fb.c:521-543 | while some cell has no item the queue is shorter than the screen (pigeonhole) |
| `PendingCells.PushPutsCell` | src/drivers/terminal/flanterm/backends/fb.c:521-543 | a push keeps items and mapped cells in bijection and is exactly one cell of the logical screen |
| `PendingCells.ScrolledRows` | src/drivers/terminal/flanterm/backends/fb.c:573-596 | scrolling moves exactly the rows of the margin region up, blanks the last and leaves the others |
| `PendingCells.RevScrolledRows` | src/drivers/terminal/flanterm/backends/fb.c:545-571 | scrolling down moves exactly the rows of the margin region down, blanks the first and leaves the others |
| `PendingCells.Flushed` | src/drivers/terminal/flanterm/backends/fb.c:757-786 | when every item is handled the grid is the logical screen and nothing is mapped |
| `Geometry.LayoutIsOk` | src/drivers/terminal/flanterm/backends/fb.c:1060-1070 | for all sizes, scales and margins with room for a cell the text area lies inside the margins |
| `Geometry.PixelInBounds` | src/drivers/terminal/flanterm/backends/fb.c:447-448 | pixels of a cell lie in the framebuffer |
| `Geometry.CellsAreDisjoint` | src/drivers/terminal/flanterm/backends/fb.c:447-448 | no pixel belongs to two cells |
| `Geometry.CellsCoverText` | src/drivers/terminal/flanterm/backends/fb.c:447-448 | every pixel of the text area belongs to a cell |
| `Geometry.PlotUpdatesDisplay` | src/drivers/terminal/flanterm/backends/fb.c:440-474 | plotting a cell changes what is displayed at that cell only |
| `Geometry.DisplayDeterminesPixels` | src/drivers/terminal/flanterm/backends/fb.c:811-836 | two framebuffers that display the same cells agree on every visible pixel |
| `Screen.Screen.PushToQueue` | src/drivers/terminal/flanterm/backends/fb.c:521-543 | the push is one cell of the logical screen, in place |
| `Screen.Screen.Scroll` | src/drivers/terminal/flanterm/backends/fb.c:573-596 | the in-place loop over grid, map and queue scrolls the logical screen |
| `Screen.Screen.RevScroll` | src/drivers/terminal/flanterm/backends/fb.c:545-571 | so does the downward loop with its wrapping index |
| `Screen.Screen.SetCursorPos` | src/drivers/terminal/flanterm/backends/fb.c:615-634 | the cursor is clamped onto the screen, with the C code's sign test on 32 bits |
| `Screen.Screen.RawPutchar` | src/drivers/terminal/flanterm/backends/fb.c:789-809 | one character is put, with wrap and scroll |
| `Screen.Screen.PlotChar` | src/drivers/terminal/flanterm/backends/fb.c:440-474 | every pixel of the cell, and no other, is drawn |
| `Screen.Screen.Flush` | src/drivers/terminal/flanterm/backends/fb.c:750-787 | the logical screen is unchanged and committed, the map empty, and every pixel of the framebuffer is the foreground of its cell exactly when the font sets it, or else the cursor is shown there but not both, and the background otherwise, the default background standing for transparent colours and the margins |
| `Screen.Screen.FullRefresh` | src/drivers/terminal/flanterm/backends/fb.c:811-836 | with nothing pending every pixel of the framebuffer obeys the same law as after a flush |
| `Screen.DisplayIsRedrawn` | src/drivers/terminal/flanterm/backends/fb.c:440-474 | a framebuffer that displays the cells with the cursor's inverted obeys that law, pixel by pixel, on every visible pixel |
| `Screen.Screen.constructor` | src/drivers/terminal/flanterm/backends/fb.c:1072-1096 | a blank screen with nothing pending |
| `TextState.BlanksFill` | src/drivers/terminal/flanterm/backends/fb.c:789-809 | without scrolling, n blanks fill n consecutive cells, up to the end of the region or of a row below it; on a screen taller than wide they start over in row cols - 1 |
| `TextState.CursorLeavesScreen` | src/drivers/terminal/flanterm/backends/fb.c:789-809 | a character takes the cursor off the bottom of the screen if and only if it wraps from the last row below a region that ends higher up, on a screen wider than tall; no further character brings it back or changes a cell |
| `ControlFunctions.DownMovesDown` | src/drivers/terminal/flanterm/flanterm.c:546-581 | CUD moves down, by as much as the margins allow, if and only if the cursor is not just below the region; inside the region the cursor stays there, and CUU undoes CUD |
| `ControlFunctions.InsertMeans` | src/drivers/terminal/flanterm/flanterm.c:696-706 | ICH cell by cell for every count, zero included |
| `ControlFunctions.InsertIsStandard` | src/drivers/terminal/flanterm/flanterm.c:696-706 | ICH leaves the cells of section 8.3.64 of ECMA-48 for every screen content if and only if the count is not zero |
| `ControlFunctions.DeleteIsStandard` | src/drivers/terminal/flanterm/flanterm.c:707-718 | DCH is that of section 8.3.26 of ECMA-48 for every screen content if and only if the characters fit on the row, with the exact condition for counts that defeat the sign test; for every cursor, margins and screen size |
| `ControlFunctions.DeleteUndoesInsert` | src/drivers/terminal/flanterm/flanterm.c:696-718 | DCH after ICH restores the screen, up to the characters pushed off the row |
| `ControlFunctions.EraseCharsIsStandard` | src/drivers/terminal/flanterm/flanterm.c:712-718 | ECH is that of section 8.3.38 of ECMA-48 if and only if the cursor is on screen, no wrap is pending (but on one column) and it stays on the row or nothing below belongs to the region |
| `ControlFunctions.EraseBelowIsStandard` | src/drivers/terminal/flanterm/flanterm.c:661-673 | ED 0 is that of section 8.3.39 of ECMA-48 if and only if the cursor is on screen, no wrap is pending, and it is in the last row or the region reaches that row on a screen no taller than wide |
| `ControlFunctions.EraseAboveIsStandard` | src/drivers/terminal/flanterm/flanterm.c:674-690 | ED 1 is that of section 8.3.39 of ECMA-48 if and only if the cursor is above the end of the region and above row cols |
| `ControlFunctions.EraseLineIsStandard` | src/drivers/terminal/flanterm/flanterm.c:728-750 | EL 0 if and only if the cursor is on screen and no wrap is pending (but on one column), EL 2 always, EL 1 never (section 8.3.41 of ECMA-48) |
| `ControlFunctions.ScrollUpMeans` | src/drivers/terminal/flanterm/flanterm.c:625-631 | DL by n moves the rows of the region by n |
| `ControlFunctions.ScrollDownMeans` | src/drivers/terminal/flanterm/flanterm.c:632-641 | scrolling down n times moves the rows of the region down by n and touches no other row |
| `ControlFunctions.InsertLinesMeans` | src/drivers/terminal/flanterm/flanterm.c:632-641 | IL inserts exactly n blank rows at the cursor and pushes the rest of the region down; below the region it blanks the cursor's row |
| `ControlFunctions.InsertLinesIsStandard` | src/drivers/terminal/flanterm/flanterm.c:632-641 | IL leaves the cells of section 8.3.67 of ECMA-48 for every screen content if and only if the count is zero or the cursor is in the region; the cursor, which the standard sends to the line home position, stays |
| `ControlFunctions.DeleteLinesIsStandard` | src/drivers/terminal/flanterm/flanterm.c:625-631 | DL leaves the cells of section 8.3.32 of ECMA-48 for every screen content if and only if the count is zero or the cursor is in the first row of the region; the cursor, which the standard sends to the line home position, stays |
| `ControlFunctions.ControlKeepsOk` | src/drivers/terminal/flanterm/flanterm.c:536-783 | every control function keeps the margins in order and the cursor on screen or on the pending wrap |
| `ControlParameters.ParametersArrive` | src/drivers/terminal/flanterm/flanterm.c:497-531 | the final byte finds the first sixteen written parameters modulo 2^32, and defaults for the rest |
| `ControlSequences.ControlSequenceArrives` | src/drivers/terminal/flanterm/flanterm.c:484-788 | ESC [ numbers final, or ESC [ ? numbers final, fed byte by byte, is one application of the end of a sequence with exactly those numbers to the machine as it was: screen, modes and saved cursor included; unless a private introducer was left over, which makes it private; the ControlEffects rows say what each final byte then does |
| `ControlSequences.CursorModeArrives` | src/drivers/terminal/flanterm/flanterm.c:391-423 | ESC [ ? 25 h and l show and hide the cursor and do nothing else |
| `ControlSequences.InsertModeArrives` | src/drivers/terminal/flanterm/flanterm.c:435-459 | ESC [ 4 h and l switch insert mode and do nothing else |
| `ControlEffects.VerticalArrives` | src/drivers/terminal/flanterm/flanterm.c:543-581 | ESC [ n A, B, e, E, F move the cursor up or down by n rows, as far as the margins or the screen, E and F to the first column, and do nothing else (sections 8.3.19 and 8.3.22 of ECMA-48) |
| `ControlEffects.SidewaysArrives` | src/drivers/terminal/flanterm/flanterm.c:582-592 | ESC [ n C and a move the cursor right by n columns, D left, as far as the row, and do nothing else (sections 8.3.18 and 8.3.20 of ECMA-48) |
| `ControlEffects.PositionArrives` | src/drivers/terminal/flanterm/flanterm.c:598-624 | ESC [ n d, G, grave, and ESC [ n ; l H, f put the cursor in row n and column l, counted from 1 and cut to the screen, and do nothing else (section 8.3.21 of ECMA-48) |
| `ControlEffects.EditArrives` | src/drivers/terminal/flanterm/flanterm.c:625-718 | ESC [ n @, P, X, L, M change the cells as the functions do that InsertIsStandard, DeleteIsStandard, EraseCharsIsStandard, InsertLinesIsStandard and DeleteLinesIsStandard compare with ECMA-48, leave the reported cursor, and do nothing else |
| `ControlEffects.EraseDisplayArrives` | src/drivers/terminal/flanterm/flanterm.c:661-695 | ESC [ n J erases as EraseBelowIsStandard and EraseAboveIsStandard have it for 0 and 1, blanks every cell for 2 and 3, and does nothing else |
| `ControlEffects.EraseLineArrives` | src/drivers/terminal/flanterm/flanterm.c:728-750 | ESC [ n K erases as EraseLineIsStandard has it, and does nothing else |
| `ControlEffects.MarginsArrive` | src/drivers/terminal/flanterm/flanterm.c:725-773 | ESC [ n ; l r sets the margins if they are in order and on the screen, and else to the whole screen, the cursor going home; ESC [ u goes to the saved cursor |
| `ControlEffects.SaveArrives` | src/drivers/terminal/flanterm/flanterm.c:722-724 | ESC [ s saves the reported cursor and does nothing else |
| `ControlEffects.NothingArrives` | src/drivers/terminal/flanterm/flanterm.c:536-788 | no other final byte but h and l changes anything but the colours that SGR selects |
| `ControlSequences.CancelKeepsPrivate` | src/drivers/terminal/flanterm/flanterm.c:1207-1216 | such an introducer is left over by ESC [ ? CAN |
| `CharacterStreams.SequenceArrives` | src/drivers/terminal/flanterm/flanterm.c:1217-1260 | a lead byte with the continuation bytes it asks for puts the glyph of their bits once and changes nothing else, in whatever state of an escape sequence it arrives |
| `CharacterStreams.CodePointArrives` | src/drivers/terminal/flanterm/flanterm.c:1217-1260 | the UTF-8 encoding (section 3 of RFC 3629) of every code point from 0x80 to 21 bits puts the glyph of that code point |
| `CharacterStreams.RestoreBringsBack` | src/drivers/terminal/flanterm/flanterm.c:790-810 | ESC 8 brings back cursor, pending wrap, colours and character set of the last ESC 7 after any bytes without another ESC 7, a reset included |
| `CharacterEffects.PutMeans` | src/drivers/terminal/flanterm/backends/fb.c:789-809 | cell by cell: a character goes to the cursor, or from the pending wrap to the next row, where at the end of the region the rows of the region move up and the lowest is blank |
| `CharacterEffects.OpenedMeans` | src/drivers/terminal/flanterm/flanterm.c:1328-1335 | insert mode moves the cells right of the cursor right by one |
| `CharacterEffects.PrintableArrives` | src/drivers/terminal/flanterm/flanterm.c:1328-1352 | a byte that prints puts its own glyph, the one of the DEC special graphics, or 0xfe, after making room in insert mode |
| `CharacterEffects.ControlCharacterArrives` | src/drivers/terminal/flanterm/flanterm.c:1280-1325 | BS, HT, LF, VT, FF, CR, SO and SI move the cursor or select the character set as their names say, scrolling at the end of the region; NUL, BEL and DEL do nothing |
| `CharacterEffects.EscapeCodeArrives` | src/drivers/terminal/flanterm/flanterm.c:839-874 | ESC D and ESC E go down a row, ESC M up, scrolling at the margins; ESC c clears screen, margins, modes and saved cursor but not the colours or what ESC 7 saved |
| `CharacterEffects.CharsetArrives` | src/drivers/terminal/flanterm/flanterm.c:1266-1276 | ESC ( and ESC ) followed by 0 or B make G0 or G1 the DEC special graphics or not, and do nothing else |
| `CharacterEffects.GlyphMeans` | src/drivers/terminal/flanterm/flanterm.c:1230-1242 | a decoded code point with room on its row puts its glyph in the cursor's cell, or, without one, a box and blanks over as many cells as it is wide, cell by cell |
| `CharacterEffects.OscArrives` | src/drivers/terminal/flanterm/flanterm.c:461-482 | an operating system command, up to its BEL or ESC backslash, changes nothing |
| `CharacterEffects.CancelArrives` | src/drivers/terminal/flanterm/flanterm.c:1207-1216 | CAN and SUB abandon whatever is half read, but for a private introducer, and change nothing else |
| `CharacterEffects.FunctionKeyArrives` | src/drivers/terminal/flanterm/flanterm.c:484-489 | ESC [ [ and one more byte do nothing |
| `Machine.StepKeepsOk` | src/drivers/terminal/flanterm/flanterm.c:1206-1353 | every byte keeps: top < bottom <= rows, the parameter count at most 16 and less while a digit was read, at most 3 UTF-8 bytes to come, g_select <= 2, scrolling on, the cursor at most one past its row |
| `Terminal.Terminal.constructor` | src/drivers/terminal/flanterm/backends/fb.c:1133-1142 | the end of the initialisation: the machine is well formed and the framebuffer displays the blank screen |
| `Terminal.Terminal.CursorUp` | src/drivers/terminal/flanterm/flanterm.c:543-561 | the row is RowUp of the reported row |
| `Terminal.Terminal.CursorDown` | src/drivers/terminal/flanterm/flanterm.c:562-581 | the row is RowDown of the reported row |
| `Terminal.Terminal.DeleteLines` | src/drivers/terminal/flanterm/flanterm.c:625-631 | the loop is the n-fold scroll |
| `Terminal.Terminal.InsertLines` | src/drivers/terminal/flanterm/flanterm.c:632-641 | the loop under a temporary top margin is the n-fold downward scroll, and the margin is restored |
| `Terminal.Terminal.EraseDisplay` | src/drivers/terminal/flanterm/flanterm.c:661-695 | is the ED of the specification |
| `Terminal.Terminal.InsertChars` | src/drivers/terminal/flanterm/flanterm.c:696-706 | the descending loop is ICH |
| `Terminal.Terminal.DeleteChars` | src/drivers/terminal/flanterm/flanterm.c:707-718 | is the DCH of the specification, wrap of the subtraction included |
| `Terminal.Terminal.EraseChars` | src/drivers/terminal/flanterm/flanterm.c:712-718 | is the ECH of the specification |
| `Terminal.Terminal.EraseLine` | src/drivers/terminal/flanterm/flanterm.c:728-750 | is the EL of the specification |
| `Terminal.Terminal.ControlSequenceParse` | src/drivers/terminal/flanterm/flanterm.c:484-788 | one step of the machine inside a control sequence, of which ControlEffects proves what whole sequences do |
| `Terminal.Terminal.Execute` | src/drivers/terminal/flanterm/flanterm.c:538-783 | control functions run with scrolling off, which is then restored; ControlEffects proves what each final byte does |
| `Terminal.Terminal.EscapeParse` | src/drivers/terminal/flanterm/flanterm.c:812-887 | one step of the machine inside an escape sequence |
| `Terminal.Terminal.CharacterByte` | src/drivers/terminal/flanterm/flanterm.c:1278-1352 | one byte outside escape sequences |
| `Terminal.Terminal.PutByte` | src/drivers/terminal/flanterm/flanterm.c:1206-1353 | every byte terminates, is one step of the machine, keeps it well formed and leaves the framebuffer untouched |
| `Terminal.Terminal.FlushScreen` | src/drivers/terminal/flanterm/flanterm.c:117-119 | a flush changes nothing but the framebuffer, every pixel of which is then the font's, in the colours of its cell, exchanged under the cursor if it is shown |
| `Terminal.Terminal.Write` | src/drivers/terminal/flanterm/flanterm.c:112-120 | any byte string is a run of the machine, after which, with autoflush, every pixel of the framebuffer is that of the screen reached, cursor included, by the law of Flush |
| `Numerals.FieldLength` | src/stdlib/printf.c:207-231 | without zero padding the field length is the larger of length and width, with the number at the right place |
| `Numerals.FillDigits` | src/stdlib/printf.c:299-306 | the do-while loop produces the low digits, as many as fit |
| `Numerals.NtoaLong` | src/stdlib/printf.c:289-308 | puts out the text of a number |
| `Numerals.DigitCountIs` | src/stdlib/printf.c:299-305 | a number has at most n digits if and only if it is below base^n |
| `Numerals.LowDigitsRead` | src/stdlib/printf.c:299-305 | digits that fit the buffer read back as the value |
| `Numerals.NumberShape` | src/stdlib/printf.c:235-284 | every number put out is spaces, sign, prefix, zeros and digits, in that order, for all flags, precisions and widths |
| `Numerals.PrintedNumberReads` | src/stdlib/printf.c:235-308 | a reader like strtol gets sign and value back, in base 2, 8, 10 and 16 and for all values, flags, precisions and widths, if and only if the digits fit the buffer, the prefix replaces none of them and is not cut, and a minus has room |
| `Numerals.HashDropsDigits` | src/stdlib/printf.c:251-256 | %#4x of 0x1234 is 0x34 |
| `Numerals.SignIsPrinted` | src/stdlib/printf.c:271-281 | without a prefix, room for the sign is left for 64-bit values if and only if neither precision nor zero padding asks for 32 digits or more |
| `Numerals.Atoi` | src/stdlib/printf.c:196-203 | the number is that of the digits, modulo 2^32, and reading stops at the first other character |
| `Numerals.AtoiInvertsDecimal` | src/stdlib/printf.c:196-203 | reading a decimal numeral below 2^32 gives its value back |
| `Printf.IntegerReads` | src/stdlib/printf.c:690-763 | an integer conversion reads back as its argument, cut to its length modifier, exactly under the condition of PrintedNumberReads |
| `Printf.LongReads` | src/stdlib/printf.c:586-763 | %ld, %li, %lu, %lx, %lX and %lo put out every 64-bit value so that it reads back |
| `Printf.OutConversion` | src/stdlib/printf.c:690-857 | what each specifier puts out and how many arguments it takes |
| `Printf.VSnprintf` | src/stdlib/printf.c:586-865 | the count is the length of the unbounded output, cast to an int; the buffer holds that output cut to n - 1 characters and a NUL, and is otherwise untouched; what the output of a written directive is, WrittenDirectives proves |
| `Printf.CapacityOnlyTruncates` | src/stdlib/printf.c:135-140 | the string left by a smaller capacity is a prefix of that left by a larger one, whatever was in the buffers |
| `Directives.FlagsFieldMeans` | src/stdlib/printf.c:609-621 | after the flag characters, each flag is set if and only if its character is among them |
| `Directives.WrittenIsParsed` | src/stdlib/printf.c:607-688 | a written directive - flags, width and precision in decimal or by argument, length, specifier - is read as exactly those flags and numbers, a width below zero meaning left |
| `StandardTexts.NumberIsStandard` | src/stdlib/printf.c:235-308 | a number is put out as section 7.19.6.1 of ISO C99 has it, for every base, value, precision, width and flags, if and only if digits and zeros fit 32 characters with the sign, or the sign is a space that the field supplies anyway, and a field justified left needs no zeros; with # if and only if the prefix fits too and no digit and not too few zeros give way to it, as spelled out for each base |
| `WrittenDirectives.IntegerDirective` | src/stdlib/printf.c:690-763 | the output of a written integer directive is the text that the standard gives for its flags, width, precision, length and argument, if and only if that condition holds; # asks for nothing in decimal, and ll is compiled out |
| `WrittenDirectives.OtherDirective` | src/stdlib/printf.c:784-855 | %s puts out its string, or as many characters of it as the precision says, on the right of its field or with - on the left; %c a character likewise; %% a percent sign |
| `WrittenDirectives.PointerDirective` | src/stdlib/printf.c:830-847 | %p puts out sixteen upper-case hexadecimal digits, leading zeros included |
| `WrittenDirectives.ZeroPaddedHexadecimal` | src/stdlib/printf.c:289-308 | %0wX puts out every 32-bit number in upper-case hexadecimal with zeros in front up to width w, as far as 32 characters |

## Left out

- limine/limine.c: the MBR path and its sanity checks, to which a disk without a GPT goes on (the model ends there as NoGpt), installing into a numbered partition, argument parsing, messages, endianness swaps (a little-endian machine is modelled), `enroll_config`, allocation failures and stdio buffering.
- limine/limine.c: seeks are part of the transfer they precede, and 64-bit wrap of a device offset during a transfer is not modelled; offsets computed by the layout code do wrap.
- limine/limine-bios-hdd.h: the image is an arbitrary byte string with a second stage of 2 to 254 sectors.
- BiosInstall.InstallSteps: headers with an entry size of zero, or with a larger entry size in the backup header, end as Undefined, because the C code then divides by zero or reads past a buffer.
- UninstallFile.StoreThenLoad: a file that announces more than 256 entries ends as Overrun, because the C code has no check for it.
- GptEmbed.EmbeddingKeepsGptValid: assumes the disk order boot sector, header, table, backup table, backup header, arrays that agree on used entries and entry size, and headers of 92 bytes that name their own blocks; the code checks none of this, and rewrites what it finds.
- GptLayout.GuardMeansRoom: assumes that the table area ends below 2^64 bytes; a larger starting block, which no disk has, makes the products wrap in further ways.
- BiosInstall.InstalledGptIsIntact: entries longer than a logical block are covered for first halves of at most 32 blocks; for longer halves the code lets an array without used entries through, with nothing left of it and the half before it (GptLayout.LayoutFits).
- src/kernel/paging.c: `init_paging` beyond allocating the PML4, loading CR3, TLB effects, and how permissions combine across levels.
- PageTables.Paging.UnmapPage: the last write goes to the table frame, where the C code uses the physical address as a pointer.
- PageTables.Paging.MapRange: a machine that halts for want of a frame is a result of false.
- FrameAllocator.Pmm.Kmalloc: taking and giving frames is described for a chosen region that fits the int fields; beyond, the addresses the C code computes wrap.
- FrameAllocator.FirstFree: the halt of a machine without free frames is an address of 0.
- FrameAllocator.Pmm.Kfree: only live frames are given back; `map_at_addr` is not modelled.
- src/drivers/terminal/flanterm/backends/fb.c: canvas, masking, the font bitmap (a function of character, row and column), the bump allocator, colour conversion and deinitialisation.
- Screen.Screen.FullRefresh: called with an empty queue, as the initialisation does; with items queued, drawing the cursor would leave an orphaned one.
- Terminal.Terminal.Sgr: which colours SGR selects, bold and reverse video are not modelled; any two colours may result.
- Terminal.Terminal.PutGlyph: the translation tables (code page 437, character widths, DEC special graphics) are arbitrary functions.
- Terminal.Terminal.ControlFunction: callbacks (bell, reports, keyboard lights) have no effect.
- Terminal.Terminal.constructor: screens have fewer than 2^30 columns and rows.
- src/stdlib/printf.c: floating point, exponent notation and long long are compiled out; printing to the terminal or a function, and sprintf with its unlimited capacity, are not modelled.
- Numerals.ReadNumber: the reader that printed numbers are compared with is strtol in a given base without its range errors; it takes `0b` for a prefix of base 2.
- WrittenDirectives.IntegerDirective: `%b` is taken from C23, as C99 has none; `ll` takes no argument and puts out nothing, as long long is compiled out.
- Printf.VSnprintf: formats that end inside a directive, and missing or mistyped arguments, have no defined behaviour in C and are excluded; string lengths are not cut to 32 bits, and no output reaches 2^64 characters.
- FAT32, ELF, PCI, USB, ATA, serial, keyboard, timer, descriptor tables and shell: port I/O, assembly or straight-line code.
