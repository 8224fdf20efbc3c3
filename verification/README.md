# nvmfs model

A Dafny model of nvmfs, a log-structured file system over byte-addressable
non-volatile memory, and of the wear-leveling layers underneath it. The modules
follow the five layers of the program, and the contract of one layer is what the
next one assumes.

1. **Append log over chained pages** (`Nvm`, `ChainedSpace`, `PageSource`,
   `ContinousSpace`, `LogLayout`, `Log`). The device is a mutable byte array with
   the trace of every store made to it; an aligned eight-byte word is one
   indivisible store, anything else is stored byte by byte. A crash is a cut of
   that trace. Pages hold the address of the next page in their first eight bytes,
   and the log is the stream of the 4088-byte bodies.
2. **Files and directories replayed from the log** (`FileExtents`,
   `FileExtentTree`, `FileRead`, `FileState`, `FileRuns`, `FilePlaces`, `FileReplay`,
   `FileOutcomes`, `FileLogSpace`, `FileDataManager`, `FileInodeInfo`, `FileCrash`,
   `FileDevice`, `FileHistory`, `DirLog`, `DentryCache`, `DirInode`). The interval map
   refines a flat byte array; replaying the log gives back the live state, and
   `FileReplay` says of each field which entry it comes from; what a write comes
   to is stated for every answer the log may give to its appends, and `FilePlaces`
   says where each of its bytes is put. `FileHistory` joins all of it to the bytes of the device, over whole histories of writes,
   truncates, losses of power and mounts.
3. **Remap and swap of blocks and pages** (`PageUnmapTable`, `Remap`, `RemapRuns`,
   `BlockManager`, `SeqLock`). Forward and reverse tables stay inverse
   permutations, bytes in use keep their values, and readers that take no lock are
   right when their check passes.
4. **Crash-recoverable block swap and the reader/writer lock** (`SwapMedium`,
   `SwapProtocol`, `SwapRecovery`, `SwapSafety`, `SwapHistory`, `SwapSteps`,
   `SwapTransaction`, `AccessMap`, `RwLock`). Any number of swaps may be under way
   when the machine stops, at any store, and again inside any number of
   recoveries. The lock excludes in every run, and from every state there is a run
   that lets a waiting writer in.
5. **Allocators and mount** (`ExtentTree`, `BlockPool`, `PagePool`, `PoolRuns`,
   `InodeTable`, `FsConstructor`, with `Permutations` and `Wrappers` for what
   several modules share). Blocks and pages are conserved over every run of calls,
   and the traversal of the directory graph marks exactly what is reachable.

Imperative code is modelled by classes and methods over mutable arrays and fields,
each proved against a function of the old state; the protocols (swaps, locks) are
state machines over their stores and steps, and the theorems range over every run.

## Where the code falls short of its intent

The model does what the code does. Where that misses the evident intent, the
project states exactly when it does not:

- A read puts the zeroes of a hole to `readStart`, behind the place they belong
  (src/fs/FileExtentTree.c:340-343). It stays inside its destination if and only if
  no hole in front of stored bytes is longer than the range goes on behind the hole
  (`FileRead.StaysInsideIff`; `FileRead.ReadOverruns` is a read that zeroes 90 bytes
  behind its 110). It is right for a zeroed destination under just this condition,
  and for every destination if and only if no hole of the range is followed by stored
  bytes (`FileRead.ReadRightIff`).
- `effectiveSize` counts re-inserted bytes twice (src/fs/FileExtentTree.c:148). It
  stays exact if and only if no extent runs across the end of the new one
  (`FileExtentTree.EffectiveSizeExact`, `FileExtentTree.EffectiveSizeDrifts`).
- A failed append has already been charged (src/fs/Log.c:50-52), and it fails if and
  only if fewer pages are free than it needs: `Log.LostSpace`, `Log.Log.LogWrite`.
- File writes ignore a failed append (src/fs/FileDataManager.c:75, 125-126, 173-174).
  A write is found by the next mount, and keeps to the spaces of its file, if and only
  if the free pages cover its log entries (`FileOutcomes.LastsIff`,
  `FileLogSpace.WriteLastsIff`, `FileLogSpace.WriteNeeds`). Otherwise data is lost at
  the mount (`FileState.UnloggedFillIsLost`), or, when a new area is not added, goes
  to the page behind the old one, whoever has it (`FileOutcomes.UnaddedAreaOverwrites`,
  `FileOutcomes.NeighbourOverwritten`), or nowhere (`FileOutcomes.FirstWriteNowhere`).
- The block pool's counter is off by the blocks its cache handed out and by the busy
  blocks of a recovery (src/fs/BlockPool.c:32-38, 179-183): `BlockPool.BlockPool.BlockPoolGet`,
  `BlockPool.BlockPool.RecoveryEnd` give the exact drift.
- Recovery reports a page number where an address is expected
  (src/fs/PagePool.c:318): right exactly for the pages of block 0
  (`PagePool.ReportsOwnBlockIff`). So busy pages in two blocks are reported as one
  block, and a tree stays a tree if and only if no block is reported twice
  (`ExtentTree.PutCanonicalIff`, `PagePool.SecondReportFails`).
- The transaction index never wraps (src/wearlevel/BlockSwapTransactionLogArea.c:35-42),
  and recovery looks at 64 entries: a swap survives every crash if and only if its
  index is below 64 (`SwapHistory.SafeExactlyInTheFirst64`). The layout reserves two
  megabytes for the area, so an entry runs into what lies behind it if and only if its
  index is 65536 or more (`SwapMedium.EntryInAreaIff`).
- The forward map is rebuilt modulo 512: it is the inverse of the unmap table if and
  only if there are at most 512 blocks (`AccessMap.InverseUpTo512`). Block addresses
  wrap at 32 bits: distinct if and only if there are at most 2048 blocks
  (`SwapMedium.AddressesDistinct`).
- A mount reads the page entries of a split block with the wrong stride
  (src/wearlevel/PageUnmapTable.c:188-198), right exactly for the first six pages, and
  uses whole logical page numbers as places in a table of 512
  (src/wearlevel/NVMAccessController.c:117-120), inside it if and only if the logical
  block is 0 (`AccessMap.BatchReadsRightIff`, `AccessMap.PageTableFitsIff`).
- The lock word counts 256 readers: exclusive in every run if and only if at most 256
  threads use it (`RwLock.ExclusiveUpTo256`). The sequence lock word has 22 bits:
  2^21 write sections inside one read defeat the check (`SeqLock.TornReadPasses`).
- A split formats the page unmap group of the physical block while lookups use the
  logical one (src/wearlevel-refactor/BlockManager.c:406): sound if and only if the
  two are the same, or the looked-up group already was the identity and the
  overwritten one is not in use for something else (`RemapRuns.SplitKeepsInvIff`).
- A write does not move its block out of the free coldness list
  (src/wearlevel-refactor/BlockManager.c:351-363): the list stays right if and only if
  the block was not in it, and otherwise the next fast swap may lose the block
  (`RemapRuns.WriteKeepsFreeListIff`, `RemapRuns.WrittenFreeBlockIsLost`).
- A fast swap keeps the bytes in use if and only if the target had none that the
  source lacks (`Remap.FastKeepsBusyIff`, `Remap.SlowKeepsBusyIff`).

## Model

| member | source | states |
|---|---|---|
| Nvm.LERoundTrip | src/fs/Log.c:43 | decoding the little-endian bytes of a word that fits gives the number back |
| Nvm.LEInverse | src/fs/Log.c:97-103 | encoding the number read from k bytes gives the same k bytes: the coding is a bijection |
| ChainedSpace.LocateInjective | src/fs/ContinousSpace.c:7-15 | different stream positions of a chain are different bytes of the device |
| ChainedSpace.FollowLink | src/fs/ContinousSpace.c:152-170 | the link of a page leads to the stream byte after the last one of the page |
| ChainedSpace.NextAddrLocates | src/fs/ContinousSpace.c:195-215 | following the links from the address of stream byte o for n bytes ends at the address of stream byte o + n |
| ChainedSpace.NextAddrAdditive | src/fs/ContinousSpace.c:195-215 | moving by m and then by n bytes is moving by m + n, on any linked chain |
| ChainedSpace.CalculateNextAddr | src/fs/ContinousSpace.c:195-215 | the loop over the pages returns the address of stream byte o + size |
| ChainedSpace.StreamStoresEffect | src/fs/ContinousSpace.c:152-170 | the stores of a stream write of any length replace exactly its range of the stream and no page link |
| ChainedSpace.StreamStoresWithin | src/fs/ContinousSpace.c:139-170 | every single store of such a write, torn or not, lies inside the addresses of its range |
| ChainedSpace.ContinousSpaceWrite | src/fs/ContinousSpace.c:152-170 | the stream is spliced with the buffer, the links are as before, and the trace grows by exactly those stores |
| ChainedSpace.ContinousSpaceRead | src/fs/ContinousSpace.c:172-193 | returns exactly the asked-for range of the stream, across any number of pages |
| ContinousSpace.LinkStoresEffect | src/fs/ContinousSpace.c:91-104 | the link stores append the pages to the chain, in order, and change no byte of any stream |
| ContinousSpace.AllocAreas | src/fs/ContinousSpace.c:51-89 | all the pages asked for, distinct and taken from the allocator; none, and the allocator as before, exactly when it has fewer |
| ContinousSpace.PagesLeast | src/fs/ContinousSpace.c:122-132 | the pages asked for are as few as hold the bytes: k pages are enough exactly when the rest of the last page and k bodies are |
| ContinousSpace.ContinousSpace.Format | src/fs/ContinousSpace.c:17-29 | a chain of one page with its whole body free; an error, with nothing changed, exactly when there is no free page |
| ContinousSpace.ContinousSpace.LinkAreas | src/fs/ContinousSpace.c:91-104 | the chain grows by the pages, the page count and the rest size with it |
| ContinousSpace.ContinousSpace.EssureEnoughSpace | src/fs/ContinousSpace.c:122-132 | links exactly the pages that are missing; fails, with nothing changed, exactly when fewer are free |
| ContinousSpace.ContinousSpace.RebuildEnd | src/fs/ContinousSpace.c:246-260 | the walk along the links finds the page count and the rest size for the last address read |
| ContinousSpace.ContinousSpace.Destroy | src/fs/ContinousSpace.c:35-49 | every page of the chain goes back to the allocator |
| LogLayout.HeadDecodes | src/fs/Log.c:97-103 | kind and size are read back from the head of every entry, and no head is the zero word |
| LogLayout.LogAtUnique | src/fs/Log.c:88-125 | the bytes of a stream determine its entries: at most one list of entries can be read from a position |
| LogLayout.HeadIsOneStore | src/fs/Log.c:60-63 | the eight-byte head never straddles a page: it is one indivisible store |
| LogLayout.CrashBeforeHead | src/fs/Log.c:38-66 | however many stores of the links, the body and the foot arrive without the head, the log read back is the old one |
| LogLayout.HeadCommits | src/fs/Log.c:58-63 | the head over a complete body and foot makes the log the old entries and the whole new one |
| LogLayout.AppendAtomic | src/fs/Log.c:38-66 | an append whose body comes in any order before its head, cut after any store: the old entries, or the old entries and the whole new one |
| LogLayout.LogWriteAtomic | src/fs/Log.c:38-66 | the stores of LogWrite, page linking included, cut anywhere: old log until the last store, old log and new entry after it |
| LogLayout.StepWriteAtomic | src/fs/Log.c:132-168 | the same for a stepwise append with any number of pieces |
| Log.AppendGeometry | src/fs/Log.c:38-66 | linking exactly the missing pages puts the next write position in the last page again, aligned, with room for a foot |
| Log.LogForEachEntry | src/fs/Log.c:88-125 | the loop over the entries calls back, in order, with kind, data and addresses of exactly the entries of the log, and returns the address behind them |
| Log.Log.LogFormat | src/fs/Log.c:12-26 | an empty log behind the reserved bytes; an error, with nothing changed, exactly when there is no free page |
| Log.Log.LogRebuild | src/fs/Log.c:199-222 | from the bytes alone: the same entries, write position, rest size, page count and chain the writer had, and the callbacks of every entry |
| Log.Log.LogWrite | src/fs/Log.c:38-66 | one entry more, through exactly the stores of LogWriteAtomic, with the pages and the rest size it leaves; it fails exactly when fewer pages are free than the entry and its foot need, stores nothing then, but has charged the space: the account of the log is right afterwards if and only if the pages were there |
| Log.Log.LogStepWriteBegin | src/fs/Log.c:132-154 | the pages, addresses and foot of a stepwise append, before any of its data; it fails under exactly the condition of LogWrite |
| Log.LogStepWriteContinue | src/fs/Log.c:156-163 | one piece goes to the stream, the handle moves behind it |
| Log.LogStepWriteEnd | src/fs/Log.c:165-168 | the head is stored, once and last |
| Log.AppendedByStep | src/fs/Log.c:132-168 | the device behind the stores of a stepwise append holds the old entries and the new one |
| Log.LostSpace | src/fs/Log.c:50-52 | the charge of a failed append is never zero: the account is off afterwards whatever the sizes |
| Log.LogGeometry | src/fs/Log.c:38-66 | after any run of successful appends: write position aligned and in the last page, rest size the rest of that page and between 8 and 4088, page count the length of the chain |
| Log.SameLog | src/fs/Log.c:199-222 | two logs that describe the same bytes agree in entries, write position, first page, rest size and page count |
| FileExtents.ClipAt | src/fs/FileExtentTree.c:163-252 | cutting a range out of the extents unmaps exactly its positions |
| FileExtents.OverrideAt | src/fs/FileExtentTree.c:254-268 | erase and insert is the override of the map position -> device address at every position |
| FileExtents.OverrideSorted | src/fs/FileExtentTree.c:254-268 | sorted, disjoint, non-empty extents stay so |
| FileExtentTree.FileExtentTree.ExtentTreeLowerBound | src/fs/FileExtentTree.c:64-87 | the last extent that starts at the position or before, or none |
| FileExtentTree.FileExtentTree.InsertExtentNode | src/fs/FileExtentTree.c:140-149 | the node goes to its place in the order and its size is counted |
| FileExtentTree.FileExtentTree.EraseNode | src/fs/FileExtentTree.c:177-248 | in each of the four overlap cases the node becomes exactly its parts outside the range, and the walk goes on behind them |
| FileExtentTree.FileExtentTree.ExtentTreeErase | src/fs/FileExtentTree.c:163-252 | the walk, which deletes and inserts while it goes, ends with the range cut out of every extent and the account off by the re-inserted bytes |
| FileExtentTree.FileExtentTree.FileExtentTreeAddExtent | src/fs/FileExtentTree.c:254-268 | the tree is overridden by the new extent; the drift of effectiveSize grows by exactly the bytes counted twice |
| FileExtentTree.FileExtentTree.FileExtentTreeAddSpace | src/fs/FileExtentTree.c:14-41 | the space is added in order and counted |
| FileExtentTree.FileExtentTree.FileExtentTreeTruncate | src/fs/FileExtentTree.c:407-411 | no extents, size zero, spaces kept |
| FileExtentTree.EffectiveSizeExact | src/fs/FileExtentTree.c:254-268 | an exact effectiveSize stays exact if and only if no extent runs across the end of the new one |
| FileExtentTree.ReAddedIs | src/fs/FileExtentTree.c:204-239 | otherwise it grows by what that extent has behind the end of the new one |
| FileExtentTree.EffectiveSizeDrifts | src/fs/FileExtentTree.c:235 | three bytes written into a ten-byte extent leave ten bytes mapped and fifteen counted |
| FileRead.ReadIntoZeros | src/fs/FileExtentTree.c:270-361 | into a destination that was zero the read gives the bytes of the flat file, holes zero |
| FileRead.ReadWithoutGap | src/fs/FileExtentTree.c:270-361 | so it does into any destination when no hole is followed by stored bytes |
| FileRead.ReadKeepsGap | src/fs/FileExtentTree.c:340-343 | otherwise the first byte of such a hole keeps what the destination held |
| FileRead.ReadRightIff | src/fs/FileExtentTree.c:270-361 | into a destination exactly as long as the range: right for zeroes if and only if no hole in front of stored bytes is longer than the range goes on behind it, right for every destination if and only if the mapped positions of the range are a prefix of it |
| FileRead.StaysInsideIff | src/fs/FileExtentTree.c:340-343 | a read leaves every byte behind its destination as it was if and only if no hole in front of stored bytes is longer than the range goes on behind it |
| FileRead.ReadOverruns | src/fs/FileExtentTree.c:340-343 | reading a hole of 100 bytes and 10 bytes of data zeroes 90 bytes behind the 110 of the destination |
| FileRead.FileExtentTreeRead | src/fs/FileExtentTree.c:270-361 | the loop over the extents leaves in the buffer exactly what these lemmas are about, whenever its stores stay in the buffer |
| FileState.RebuildIsLive | src/fs/FileDataManager.c:333-394 | replaying the log and the fix-up give the running manager field by field: extents, spaces, current area, write position, size, last page, length |
| FileState.FillGood | src/fs/FileDataManager.c:69-79 | writing into the free rest of the current area keeps all extents inside their spaces and apart on the device, and the log true |
| FileState.GrowGood | src/fs/FileDataManager.c:87-105 | adding an area only when the current one is full keeps the write position the log implies correct |
| FileState.FillView | src/fs/FileDataManager.c:69-79 | the file is the old one overlaid with the data; no other byte of it changes |
| FileState.StepDone | src/fs/FileDataManager.c:69-105 | a finished step leaves a state that replays, and the file overlaid with the data of the step |
| FileState.StepCut | src/fs/FileDataManager.c:69-105 | a step cut before its log entry leaves log and file as they were |
| FileState.UnloggedFillIsLost | src/fs/FileDataManager.c:75-76 | what one missing entry costs: the running file has the data, the remounted file is as before; LastsIff says when a write is spared this |
| FileRuns.CommittedAll | src/fs/FileDataManager.c:184-202 | an uncut write is committed to its last byte |
| FileRuns.CrashedWrite | src/fs/FileDataManager.c:69-202 | a write cut after any data store or log entry: the rebuilt file is the old one overlaid with the committed prefix of the data, never a mixture |
| FileRuns.FinishedWrite | src/fs/FileDataManager.c:184-202 | an uncut write: the running file is the old one overlaid with all the data |
| FileRuns.WriteStepsOk | src/fs/FileDataManager.c:143-182 | rest of the area, new area, fill, new area, ...: every step of every write meets the conditions of the steps, and together they carry the whole buffer |
| FileRuns.EventRefines | src/fs/FileDataManager.c:184-213 | a write, a truncate or a crash inside a write, with the mount after it, does to the file what it does to a flat byte array |
| FileRuns.HistoryRefines | src/fs/FileDataManager.c:63-213 | so does every history of them, and at its end replaying the log gives the running state |
| FileOutcomes.LastsIff | src/fs/FileDataManager.c:69-182 | a write, with any answers of the log to its appends, leaves memory and remounted file the same and all its bytes in free space of the file if and only if every append was made |
| FileOutcomes.SameFileReads | src/fs/FileDataManager.c:320-331 | the same there means the same bytes read, whatever is on the device |
| FileOutcomes.SpacesOnly | src/fs/FileDataManager.c:69-182 | with every append made no byte outside the spaces of the file changes |
| FileOutcomes.MadeRun | src/fs/FileDataManager.c:69-182 | and the write ends exactly where the steps of FileRuns do |
| FileOutcomes.UnaddedAreaOverwrites | src/fs/FileDataManager.c:125-126 | when AddNewSpace fails on a file whose area is full, the data is stored right behind that area |
| FileOutcomes.NeighbourOverwritten | src/fs/FileDataManager.c:125-126 | a concrete file and neighbour: one byte written without a log page, and the byte of the neighbour is gone |
| FileOutcomes.FirstWriteNowhere | src/fs/FileDataManager.c:87-95 | when the first area of a file is not added, its data is stored nowhere, and the length grows |
| FileLogSpace.MadeIffPages | src/fs/Log.c:38-66 | the appends of a list of entries are all made if and only if the free pages are enough for all of them together |
| FileLogSpace.WriteLastsIff | src/fs/FileDataManager.c:184-202 | so a write lasts if and only if the free pages cover its log entries, which can be told before it |
| FileLogSpace.WriteNeeds | src/fs/FileDataManager.c:107-182 | the log space of a write: 56 bytes for each new area, 32 for the rest of the current one |
| FileDataManager.ContainerFits | src/fs/FileDataManager.c:143-157 | as many blocks as the size rounds up to hold the data, and every area but the last is filled |
| FileDataManager.FileDataManager.WriteDataToArea | src/fs/FileDataManager.c:69-79 | whether or not the append was made: the store at the write position, the tree, the length and the position change as the fill step says, and the log does if it was; area and hint stay |
| FileDataManager.FileDataManager.AddNewSpace | src/fs/FileDataManager.c:87-105 | an error exactly when the append failed, with everything as before; otherwise the new area is the current one, written from its start, a page is the hint for the next page from now on, the space is added and the log has the entry |
| FileDataManager.FileDataManager.FileDataManagerWriteDataSmall | src/fs/FileDataManager.c:107-128 | an error, with nothing changed, exactly when there is no page; otherwise the rest of the area and the page, where the data goes whatever the appends answered |
| FileDataManager.FileDataManager.FileDataManagerWriteDataLarge | src/fs/FileDataManager.c:143-182 | an error, with nothing changed, exactly when the blocks are too few; otherwise the rest of the area and the blocks of the container one after the other, whatever the appends answered |
| FileDataManager.FileDataManager.FileDataManagerWriteData | src/fs/FileDataManager.c:184-202 | an error, with nothing changed, exactly when page or blocks are missing for what the current area cannot take; otherwise the steps of the write, which last if and only if every append was made, and then every byte is where Place puts it and the file is the old one overlaid with the buffer, through the stores the crash theorems cut |
| FileDataManager.FileDataManager.FileDataManagerTruncate | src/fs/FileDataManager.c:204-213 | an empty file, logged, whose spaces, current area, write position and page hint are as before, so what fitted the rest of the area still does; an error, with nothing changed, exactly when the append failed |
| FilePlaces.AreasPlaced | src/fs/FileDataManager.c:155-170 | new areas are filled one after the other: byte j goes to the j-th byte of them laid end to end, and what the last one has left over can be written next |
| FilePlaces.WritePlaced | src/fs/FileDataManager.c:184-202 | every write fills the rest of the current area first and then the new areas without a gap; every other position of the file stays where it was |
| FileReplay.LastPageIs | src/fs/FileDataManager.c:345-354 | after replaying any log the hint is the last page that was added, invalid if there was none |
| FileReplay.CurrentAreaIs | src/fs/FileDataManager.c:333-361 | the current area is the last one added, and the write position the end of the last write |
| FileReplay.SpacesAre | src/fs/FileDataManager.c:345-354 | the spaces are exactly those that were added |
| FileReplay.SpacesAscend | src/fs/FileExtentTree.c:13-45 | they are in the order of their addresses, after every log |
| FileReplay.LengthIs | src/fs/FileDataManager.c:333-367 | the length is the end of the farthest write since the last truncate |
| FileReplay.MapIs | src/fs/FileDataManager.c:333-367 | every position of the file is where the last entry that touched it put it |
| FileReplay.HintIsLastPage | src/fs/FileDataManager.c:87-105 | in every good state the running hint is the last page added, and a mount finds the same |
| FileReplay.WritePositionIs | src/fs/FileDataManager.c:356-377 | in every good state the write position is the end of the last write when that is in the current area, else its start |
| FileReplay.TruncateKeeps | src/fs/FileDataManager.c:204-213 | rebuilt from a log with a truncate more the manager has the same spaces, area, write position, rest and hint, and no extent and no length |
| FileDataManager.FileDataManager.FileDataManagerReadData | src/fs/FileDataManager.c:320-331 | clipped at the length of the file; the bytes of the flat file under the condition of ReadRightIff, and nothing behind them under that of StaysInsideIff |
| FileInodeInfo.VisitDecodes | src/fs/FileInodeInfo.c:122-166 | the callback of an entry recovers the very operation that was encoded |
| FileInodeInfo.EntryFields | include/fs/FileInodeInfo.h:12-23 | the kind and the eight-byte fields of every entry, in the order of the C structures |
| FileInodeInfo.VisitsDecode | src/fs/FileInodeInfo.c:122-184 | so do the callbacks of a whole log, in order |
| FileInodeInfo.ReplayVisits | src/fs/FileInodeInfo.c:122-166 | the callbacks one after the other compute the replay of the operations |
| FileInodeInfo.Rebuild | src/fs/FileInodeInfo.c:174-184 | from the bytes of the log alone: the manager the operations give, and the log as the writer had it |
| FileCrash.OnMediumAgree | src/fs/Log.c:88-125 | a log depends on the bytes of its own pages only |
| FileCrash.AppendHolds | src/fs/Log.c:38-66 | a cut append beside file data: the operations logged before, or one more |
| FileCrash.LowerCut | src/fs/FileDataManager.c:69-202 | the byte-level stores of data and log entries cut after any one leave the device as after some number of whole steps, after all when nothing is cut |
| FileCrash.ViewAgrees | src/fs/FileDataManager.c:320-331 | file contents do not depend on the pages of the log |
| FileCrash.CrashedWriteOnDevice | src/fs/FileDataManager.c:69-202 | end to end on bytes: cut the stores of a write anywhere; the device then holds a log, in the pages there were and perhaps some of the given ones, whose operations keep off those pages, fit their entries and rebuild to a good manager, and the file is the old one overlaid with a prefix of the data, all of it and the running state when nothing is cut |
| FileDevice.SharesLower | src/fs/ContinousSpace.c:51-132 | pages from the allocator that are enough for all entries give every append its room, with no page too many |
| FileDevice.RunFine | src/fs/FileDataManager.c:107-182 | the stores of a write lie in the spaces of the file and off the log pages, its operations fit their entries, and they take up the bytes LogBytes counts |
| FileDevice.RunMisses | src/fs/FileDataManager.c:107-182 | no store of a write goes to a byte outside the spaces of the file and the areas it gets |
| FileHistory.LogUnique | src/fs/Log.c:199-222 | from one first page the bytes hold at most one log that a mount can read |
| FileHistory.EventHappens | src/fs/FileDataManager.c:184-213 | a write or truncate, finished or cut after any store, leaves a log a mount can read, the file as a flat one would be, and every byte outside its pages and spaces as it was |
| FileHistory.NextRefines | src/fs/FileDataManager.c:184-213 | and this is the only state the bytes allow |
| FileHistory.HistoryRefines | src/fs/FileDataManager.c:184-213 | every history of writes, truncates, losses of power at any store and mounts, on the bytes of the device: each state is good and found by a mount, and the file goes through it as a flat array would |
| FileHistory.FormattedHeld | src/fs/Log.c:12-26 | a formatted log is where such a history can start, with an empty file |
| FileHistory.MountAfterCrash | src/fs/FileInodeInfo.c:174-184 | the rebuild that reads the bytes ends in exactly that state, ready for the next event |
| DirLog.HeaderDecodes | src/fs/DirInodeInfo.c:98-124 | inode, type, name length and hash are read back from the structure in front of a name |
| DirLog.VisitReplays | src/fs/DirInodeInfo.c:227-266 | the callback of an entry does to the dentries what the operation did, the name address being where the bytes it read end |
| DirLog.ReplayIsLive | src/fs/DirInodeInfo.c:227-284 | replaying the log of any add and remove history gives exactly its dentries, every name at the address the writer used |
| DirLog.DentriesStay | src/fs/DirInodeInfo.c:98-139 | growing the log moves no name |
| DirLog.NamesReadBack | src/fs/DirInodeInfo.c:58-72 | every dentry of every history points at the bytes of its name and has its hash |
| DentryCache.DirFileDentryCache.LookupByIno | src/fs/DirFileDentryCache.c:28-39 | finds the dentry of the inode if and only if there is one |
| DentryCache.DirFileDentryCache.JustAppendDentry | src/fs/DirFileDentryCache.c:88-104 | both indexes and both counters have the new dentry |
| DentryCache.DirFileDentryCache.RemoveDentry | src/fs/DirFileDentryCache.c:106-123 | both indexes and both counters are without it; false exactly when there was none |
| DirInode.StrcmpIsEquality | src/fs/DirFileDentryCache.c:41-67 | comparing two terminated names of one length up to the terminator is comparing all their bytes |
| DirInode.DJBHash | src/fs/DirInodeInfo.c:5-17 | the loop computes the hash the log and the cache are about |
| DirInode.HistoryAdd | src/fs/DirInodeInfo.c:98-124 | adding a new inode under a new name keeps inodes and names unique at every moment of the history |
| DirInode.HistoryRemove | src/fs/DirInodeInfo.c:126-139 | so does removing |
| DirInode.NamesNow | src/fs/DirInodeInfo.c:96-139 | an addition brings its name and loses none; a removal takes the name of its inode and no other |
| DirInode.PrefixesUnique | src/fs/DirInodeInfo.c:227-266 | a history with unique inodes never replays an inode that is still there |
| DirInode.CrashedAdd | src/fs/DirInodeInfo.c:98-124 | adding a dentry cut after any store: a rebuild finds the dentries before or the dentries with the whole new one |
| DirInode.DirInodeInfo.Format | src/fs/DirInodeInfo.c:19-34 | an empty directory with an empty log; an error, with nothing changed, exactly when there is no free page |
| DirInode.DirInodeInfo.ReadName | src/fs/DirInodeInfo.c:58-72 | the bytes read are the name that was added |
| DirInode.DirInodeInfo.FindName | src/fs/DirFileDentryCache.c:41-67 | one bucket by hash, length and bytes finds the dentry of the name, or there is none |
| DirInode.DirInodeInfo.LookupDentryByName | src/fs/DirInodeInfo.c:74-96 | the directory itself for ., its parent for .., else the inode the history gives the name, or none exactly when no dentry has it |
| DirInode.DirInodeInfo.AppendDentryCheck | src/fs/DirFileDentryCache.c:75-86 | true exactly when the inode or the name is taken |
| DirInode.DirInodeInfo.AddDentry | src/fs/DirInodeInfo.c:98-124 | one operation more in log, cache and history; an error exactly when inode or name is taken, or when fewer pages are free than the entry needs, with the directory as before |
| DirInode.DirInodeInfo.RemoveDentry | src/fs/DirInodeInfo.c:126-139 | one operation more; an error exactly when there is no such inode, or when fewer pages are free than the entry needs |
| DirInode.DirInodeInfo.Rebuild | src/fs/DirInodeInfo.c:273-284 | from the bytes of the log alone: the directory with the history that was written, the same dentries, counts and log |
| SwapMedium.CopyDone | src/wearlevel/BlockSwapTransactionLogArea.c:89-108 | a block copied byte by byte holds the copied bytes and nothing else changed |
| SwapMedium.AddressesDistinct | include/wearlevel/Layouter.h:73-76 | block addresses are distinct if and only if there are at most 2048 blocks |
| SwapMedium.EntryInAreaIff | src/wearlevel/BlockSwapTransactionLogArea.c:35-50 | a transaction entry lies in the two megabytes the layout reserves for the area if and only if its index is below 65536 |
| SwapProtocol.AllowedKeepsPhase | src/wearlevel/BlockSwapTransactionLogArea.c:56-147 | every single store a swap may make in a phase keeps what that phase, or the next after a commit, promises |
| SwapProtocol.EventKeepsInv | src/wearlevel/BlockSwapTransactionLogArea.c:44-182 | no store of any of several swaps, of their recovery or of anybody else breaks the protocol of any of them |
| SwapRecovery.EntryLegal | src/wearlevel/BlockSwapTransactionLogArea.c:110-167 | from whatever step is committed, the stores of recovery are ones the protocol allows and lead to the last step |
| SwapRecovery.IdleStores | src/wearlevel/BlockSwapTransactionLogArea.c:184-217 | recovery stores nothing for an entry that is invalid or finished |
| SwapSafety.EntryCut | src/wearlevel/BlockSwapTransactionLogArea.c:110-167 | the recovery of one entry cut after any store: the swap is further on or where it was, all others untouched |
| SwapSafety.AreaCut | src/wearlevel/BlockSwapTransactionLogArea.c:184-217 | the same for the recovery of the whole area |
| SwapSafety.AreaDone | src/wearlevel/BlockSwapTransactionLogArea.c:184-217 | run to its end it settles every swap it looks at |
| SwapSafety.RecoveryFinishesSwaps | src/wearlevel/BlockSwapTransactionLogArea.c:110-217 | after any number of interrupted recoveries a finished one leaves exactly the swapped state of every committed swap, the original of every other, and no live entry |
| SwapSafety.BusyBlocksSurvive | src/wearlevel/BlockSwapTransactionLogArea.c:184-217 | a busy logical block has its bytes afterwards if and only if it had them before |
| SwapHistory.SwapEventsInvisible | src/wearlevel/BlockSwapTransactionLogArea.c:169-182 | beginning, carrying on, recovering or ending a swap changes the bytes of no busy logical block |
| SwapHistory.OtherStoreSeen | src/wearlevel/MapInfoManager.c:166-208 | a store of somebody else changes what is seen of its own block, as it says, and of no other |
| SwapHistory.RunKeepsInv | src/wearlevel/BlockSwapTransactionLogArea.c:44-182 | the protocol holds after every run of events |
| SwapHistory.RunInvisible | src/wearlevel/BlockSwapTransactionLogArea.c:169-182 | every run of swaps, any number interleaved, leaves every busy logical block its bytes |
| SwapHistory.SwapsLoseNothing | src/wearlevel/BlockSwapTransactionLogArea.c:56-217 | any run of interleaved swaps, a crash at any store, any number of interrupted recoveries and a finished one: the busy logical blocks are the same, with the same bytes |
| SwapHistory.TxnLegal | src/wearlevel/BlockSwapTransactionLogArea.c:56-147 | every store of a complete or a quick transaction is one the protocol allows, and the last one finishes it |
| SwapHistory.HalfWay | src/wearlevel/MapInfoManager.c:201-208 | there is a point, between the two unmap stores, where both blocks claim to be the same logical block |
| SwapHistory.LostIfNotScanned | src/wearlevel/BlockSwapTransactionLogArea.c:184-217 | a swap in an entry recovery does not look at can be caught there |
| SwapHistory.SafeExactlyInTheFirst64 | src/wearlevel/BlockSwapTransactionLogArea.c:35-50 | a swap is safe at every crash point if and only if its index is below 64 |
| SwapTransaction.InverseSwapped | src/wearlevel/MapInfoManager.c:201-208 | exchanging two unmap entries and the two map entries they name keeps map and table inverse |
| SwapTransaction.SwapArea.Memcpy | src/wearlevel/BlockSwapTransactionLogArea.c:89-108 | the copy loop makes exactly the stores of a block copy |
| SwapTransaction.SwapArea.CommitFirst | src/wearlevel/BlockSwapTransactionLogArea.c:56-71 | the fields of the entry and, last, its flags |
| SwapTransaction.SwapArea.CommitStep | src/wearlevel/BlockSwapTransactionLogArea.c:72-87 | the falling-through switch sets exactly the flags of all steps up to this one |
| SwapTransaction.SwapArea.SwapBlock | src/wearlevel/MapInfoManager.c:201-208 | both unmap entries in this order, and the forward map stays their inverse |
| SwapTransaction.SwapArea.GetSwapBlock | src/wearlevel/SwapTable.c:39-44 | the swap blocks in turn |
| SwapTransaction.SwapArea.TransactionInit | src/wearlevel/BlockSwapTransactionLogArea.c:35-50 | the index only grows: the wrap is lost |
| SwapTransaction.SwapArea.DoBlockCompleteSwapTransaction | src/wearlevel/BlockSwapTransactionLogArea.c:89-108 | makes exactly the stores of TxnLegal and ends with the blocks swapped and the maps inverse |
| SwapTransaction.SwapArea.DoBlockQuickSwapTransaction | src/wearlevel/BlockSwapTransactionLogArea.c:137-147 | the same for the quick form |
| SwapTransaction.SwapArea.DoBlockSwapTransaction | src/wearlevel/BlockSwapTransactionLogArea.c:169-182 | complete when the new block is in use, quick when it is not |
| SwapTransaction.SwapArea.CompleteRecovery | src/wearlevel/BlockSwapTransactionLogArea.c:110-135 | the falling-through switch makes exactly the stores that are left to make |
| SwapTransaction.SwapArea.QuickRecovery | src/wearlevel/BlockSwapTransactionLogArea.c:149-167 | the same for a quick entry |
| SwapTransaction.SwapArea.RecoverySwapBlock | src/wearlevel/MapInfoManager.c:423-429 | both unmap entries; the forward map is left to the rebuild |
| SwapTransaction.SwapArea.RecoverEntry | src/wearlevel/BlockSwapTransactionLogArea.c:190-215 | one entry of the area by its flags |
| SwapTransaction.SwapArea.LogAreaRecovery | src/wearlevel/BlockSwapTransactionLogArea.c:184-217 | the loop over the first 64 entries is the recovery the theorems are about |
| AccessMap.Rebuild | src/wearlevel/NVMAccessController.c:90-130 | every entry of the forward map is the last physical block that has this index |
| AccessMap.InverseUpTo512 | src/wearlevel/NVMAccessController.c:90-130 | it is the inverse of the unmap table if and only if there are at most 512 blocks |
| AccessMap.PageUnmapTableBatchGet | src/wearlevel/PageUnmapTable.c:177-199 | the loop that reads the page entries of a split block, with the packed entry each comes from |
| AccessMap.BatchReadsRightIff | src/wearlevel/PageUnmapTable.c:122-199 | the packed entry it reads for a page is the one the program wrote if and only if the page is one of the first six |
| AccessMap.PageTableFitsIff | src/wearlevel/NVMAccessController.c:110-122 | the places the rebuild uses in the page table of a split block lie inside it if and only if its logical block is 0 |
| AccessMap.RecoveredPermutation | src/wearlevel/BlockSwapTransactionLogArea.c:184-217 | after a crash and a finished recovery the unmap table is a permutation again |
| AccessMap.MountReadsOldBytes | src/wearlevel/NVMAccessController.c:90-130 | crash, interrupted recoveries, recovery, rebuild: looking a busy logical block up in the forward map finds the bytes it had |
| RwLock.SwapKeepsInv | src/wearlevel/NVMAccessController.c:145-237 | every successful compare-and-swap of the four operations keeps the meaning of the word: 0 nobody, 1 one owner, 2 count readers, 3 count readers and one waiting writer (when one succeeds: SwapSucceedsIff) |
| RwLock.ActionKeepsInv | src/wearlevel/NVMAccessController.c:145-237 | so does every other step, failed swaps, loads and spins included |
| RwLock.RunKeepsInv | src/wearlevel/NVMAccessController.c:145-237 | so does every interleaving of any number of threads up to 256 |
| RwLock.InvExcludes | src/wearlevel/NVMAccessController.c:145-237 | an owner is alone: no second owner, no reader beside it |
| RwLock.ExclusiveUpTo256 | src/wearlevel/NVMAccessController.c:145-237 | the lock excludes in every run if and only if at most 256 threads use it |
| RwLock.UnsafeFrom257 | src/wearlevel/NVMAccessController.c:145-201 | a run of 257 threads that ends with a reader beside an owner |
| RwLock.WaiterNotOvertaken | src/wearlevel/NVMAccessController.c:145-225 | while a writer waits no reader comes in, and the last reader out hands it the lock (that writers come to wait: WriterRegisters) |
| RwLock.SwapSucceedsIff | src/wearlevel/NVMAccessController.c:145-237 | a compare-and-swap on the word just loaded succeeds if and only if it is a release, or a lock and the word is 0 or 2 |
| RwLock.WriterRegisters | src/wearlevel/NVMAccessController.c:203-225 | a writer that finds readers leaves the word 3 with their count and waits |
| RwLock.WaiterGetsIn | src/wearlevel/NVMAccessController.c:145-225 | from any state in which a writer waits there is a run, that of the readers leaving, that ends with it writing and nobody else changed |
| RwLock.EveryWriterGetsIn | src/wearlevel/NVMAccessController.c:145-237 | from any state of up to 256 threads there is a run after which a given thread has the lock to itself |
| RwLock.MappingKept | src/wearlevel/NVMAccessController.c:309-325 | while a thread holds the lock shared the mapping it translated by does not change |
| SeqLock.ActionKeepsInv | src/wearlevel-refactor/MapTable.c:144-197 | every step of any reader, writer or swapper keeps what readers in the middle of a read know |
| SeqLock.CheckPasses | src/wearlevel-refactor/MapTable.c:144-160 | two lock words agree if and only if no section is open and a multiple of 2^21 sections ended in between |
| SeqLock.PassedReadIsOneState | src/wearlevel-refactor/BlockManager.c:33-43 | a read of any part of a block whose check passes, with fewer than 2^21 sections in it, has the bytes of one state, the one it began in |
| SeqLock.EveryPassedReadIsOneState | src/wearlevel-refactor/BlockManager.c:33-43 | in every run from a formatted table, for every offset and length inside a block |
| SeqLock.BeginsIff | src/wearlevel-refactor/MapTable.c:144-195 | a section of a block can begin, and so can a read of any part of it, exactly when nobody is inside one |
| SeqLock.ReadPasses | src/wearlevel-refactor/BlockManager.c:33-43 | a read nobody disturbs has the bytes of its range, passes its check and changes nothing |
| SeqLock.TornReadPasses | src/wearlevel-refactor/MapTable.c:144-160 | with exactly 2^21 sections the check passes on bytes the block never had between two sections, for a read of any length from two bytes on |
| SeqLock.HeldIsStable | src/wearlevel-refactor/MapTable.c:174-197 | what a writer has locked no step of anybody else changes |
| SeqLock.FastSwapRuns | src/wearlevel-refactor/BlockManager.c:120-148 | a fast swap between lock and unlock is such a run: readers find the bytes of the first block where they look for them |
| PageUnmapTable.SetChangesOne | src/wearlevel-refactor/PageUnmapTable.c:82-129 | setting one packed nine-bit slot changes the entry of no other page |
| PageUnmapTable.BatchFormat | src/wearlevel-refactor/PageUnmapTable.c:131-150 | whatever the group and the stack held, all 512 entries are the identity |
| Remap.FastKeepsInv | src/wearlevel-refactor/BlockManager.c:120-148 | a fast swap keeps map and unmap table inverse, for whole and split blocks |
| Remap.FastReads | src/wearlevel-refactor/BlockManager.c:120-148 | every byte reads as before but those of the target, which read what the source had |
| Remap.FastMoves | src/wearlevel-refactor/BlockManager.c:120-148 | a fast swap exchanges what the two physical blocks are mapped from, in both tables, and of the bytes changes those of the target alone |
| Remap.FastKeepsBusyIff | src/wearlevel-refactor/BlockManager.c:120-148 | every byte in use keeps its value if and only if the target had none in use that differ |
| Remap.SlowIsTwoFast | src/wearlevel-refactor/BlockManager.c:150-184 | a three-way swap is two two-way swaps |
| Remap.SlowReads | src/wearlevel-refactor/BlockManager.c:150-184 | every byte reads as before but those of the third block |
| Remap.SlowMoves | src/wearlevel-refactor/BlockManager.c:150-184 | a slow swap moves the three blocks round by one place, bytes and both tables alike, and touches no other block |
| Remap.SlowKeepsBusyIff | src/wearlevel-refactor/BlockManager.c:150-184 | every byte in use keeps its value if and only if the third block had none in use that differ |
| Remap.PageSwapKeepsInv | src/wearlevel-refactor/PageManager.c:97-154 | swapping two pages of a split block keeps the page map and the packed group inverse, and every other pair of tables |
| Remap.PageFastMoves | src/wearlevel-refactor/PageManager.c:97-122 | after a fast page swap either physical page has the entry the other had, the page map names the other page, no other entry differs, and the target page holds the bytes of the source |
| Remap.PageSlowMoves | src/wearlevel-refactor/PageManager.c:124-154 | after a slow page swap the same holds of the tables, and the bytes of the two pages have changed places |
| Remap.PageFastReads | src/wearlevel-refactor/PageManager.c:97-122 | only the logical page on the target physical page reads other bytes: those of the source page |
| Remap.PageSlowReads | src/wearlevel-refactor/PageManager.c:124-154 | a slow page swap is not seen at any byte |
| RemapRuns.SplitKeepsInvIff | src/wearlevel-refactor/BlockManager.c:394-410 | a split keeps the tables sound if and only if the group formatted is the one looked up, or formatting it changed nothing that matters |
| RemapRuns.WriteKeeps | src/wearlevel-refactor/BlockManager.c:351-363 | a write to a whole block is seen at its addresses and nowhere else |
| RemapRuns.WritePageKeeps | src/wearlevel-refactor/PageManager.c:235-247 | so is a write through the page map of a split block |
| RemapRuns.OpKeeps | src/wearlevel-refactor/BlockManager.c:120-184 | every operation keeps the tables sound and every byte the users wrote |
| RemapRuns.RunKeeps | src/wearlevel-refactor/BlockManager.c:120-184 | so does every run of writes, trims, splits, block swaps and page swaps |
| RemapRuns.UsedAfterIs | src/wearlevel-refactor/BlockManager.c:351-410 | what every operation does to what is in use: a write marks its block or page, a trim unmarks its own, a split and the swaps leave every byte as much in use as it was |
| RemapRuns.FormattedIsSound | src/wearlevel-refactor/MapTable.c:8-20 | formatting establishes it, whatever the medium held: every block its own, none in use, none split |
| RemapRuns.WriteKeepsFreeListIff | src/wearlevel-refactor/BlockManager.c:351-363 | after a write the free list holds only unused blocks if and only if the written block was not in it |
| RemapRuns.FastSwapKeepsFreeList | src/wearlevel-refactor/BlockManager.c:120-148 | taking the target from the free list and giving the source back keeps it right |
| RemapRuns.TrimKeepsFreeList | src/wearlevel-refactor/BlockManager.c:378-392 | the block a trim lets go of can join the free list: nothing on it is in use any more |
| RemapRuns.WrittenFreeBlockIsLost | src/wearlevel-refactor/BlockManager.c:351-363 | a byte written to a block of the free list is lost to the fast swap that takes that block |
| BlockManager.SortBlocks | src/wearlevel-refactor/BlockManager.c:84-96 | the three block numbers ascending, and the same three |
| BlockManager.Managers.BlockSwapFast | src/wearlevel-refactor/BlockManager.c:120-148 | copy, unmap table and map table together are the fast swap of the lemmas; in terms of the state before: the two physical blocks have exchanged their logical ones, and the target holds the bytes of the source |
| BlockManager.Managers.BlockSwapSlow | src/wearlevel-refactor/BlockManager.c:150-184 | both copies and both tables together are the slow swap of the lemmas |
| BlockManager.Managers.PageUnmapSet | src/wearlevel-refactor/PageUnmapTable.c:106-129 | PageUnmapGet of this page is the value afterwards; of every other page, in this and every other block, it is what it was |
| BlockManager.Managers.MapPageSwap | src/wearlevel-refactor/MapTable.c:316-327 | exchanges the physical pages of two logical pages |
| BlockManager.Managers.SwapPageFast | src/wearlevel-refactor/PageManager.c:97-122 | copy, page map and packed group together are the fast page swap of the lemmas; in terms of the state before: the two physical pages have exchanged their entries in both tables, every other entry is as it was, and the target holds the bytes of the source |
| BlockManager.Managers.SwapPageSlow | src/wearlevel-refactor/PageManager.c:124-154 | three copies through the spare page, page map and packed group together are the slow page swap; in terms of the state before: the two physical pages have exchanged their entries in both tables and their bytes, and everything else is as it was |
| BlockManager.Managers.BlockManagerSplit | src/wearlevel-refactor/BlockManager.c:394-410 | formats the group of the physical block, and keeps the tables sound exactly under the condition of SplitKeepsInvIff |
| BlockManager.Managers.BlockManagerWrite | src/wearlevel-refactor/BlockManager.c:351-363 | stores at the physical block and marks the logical one in use |
| ExtentTree.CanonicalUnique | src/fs/ExtentTree.c:92-130 | a sorted, disjoint, maximally merged tree is determined by the numbers it covers |
| ExtentTree.UnitsAscend | src/fs/ExtentTree.c:151-177 | its numbers in order ascend |
| ExtentTree.UnitsCover | src/fs/ExtentTree.c:151-177 | and are exactly the covered ones |
| ExtentTree.PutCanonical | src/fs/ExtentTree.c:92-130 | all four ways of putting a range keep the tree sorted, disjoint and maximally merged |
| ExtentTree.PutCovers | src/fs/ExtentTree.c:92-130 | and add exactly its numbers |
| ExtentTree.PutCanonicalIff | src/fs/ExtentTree.c:92-130 | putting a range keeps the tree a tree if and only if none of its numbers is there |
| ExtentTree.GetTakesSmallest | src/fs/ExtentTree.c:151-177 | what is taken is exactly the smallest min(size, all) numbers in order; both parts stay canonical |
| ExtentTree.GetThenPutBack | src/fs/ExtentTree.c:151-186 | putting back what was taken gives the very tree there was |
| ExtentTree.ReverseCovers | src/fs/ExtentTree.c:188-214 | reversing is the complement below the bound |
| ExtentTree.ReverseTwice | src/fs/ExtentTree.c:188-214 | reversing twice is the identity on trees |
| ExtentTree.PutAllCovers | src/fs/ExtentTree.c:179-186 | a batch of ranges apart from the tree and from each other gives the union |
| ExtentTree.ExtentContainer.Append | src/fs/ExtentTree.c:132-149 | one extent more and its size, across the doubling of the array |
| ExtentTree.ExtentTree.Next | src/fs/ExtentTree.c:29-54 | the place of an address in the order |
| ExtentTree.ExtentTree.ExtentTreePut | src/fs/ExtentTree.c:92-130 | the nodes merged, resized and inserted in place are those of the lemmas |
| ExtentTree.ExtentTree.ExtentTreeGet | src/fs/ExtentTree.c:151-177 | tree and container after the loop are what is left and what is taken |
| ExtentTree.ExtentTree.ExtentTreeBatchPut | src/fs/ExtentTree.c:179-186 | the ranges of the container one after the other |
| ExtentTree.ExtentTree.ExtentTreeReverseHolesAndExtents | src/fs/ExtentTree.c:188-214 | the loop over the nodes leaves the reversed tree |
| BlockPool.PutBag | src/fs/BlockPool.c:110-158 | a block put into the tree is there once more, and was not there before |
| BlockPool.GetBag | src/fs/BlockPool.c:73-79 | what is taken and what is left are together what there was |
| BlockPool.ReverseBag | src/fs/BlockPool.c:179-183 | a tree and its reverse share out the numbers below the bound |
| BlockPool.BlockPool.GetFromCache | src/fs/BlockPool.c:32-38 | served from the end of the cache: caller and pool share what the pool had, and the tree is as before; the counter misses these blocks |
| BlockPool.BlockPool.GetFromTree | src/fs/BlockPool.c:39-71 | served from the tree: the caller has the cache and then the smallest blocks of the tree, two more of which are cached, as far as there are that many |
| BlockPool.BlockPool.BlockPoolGet | src/fs/BlockPool.c:22-71 | the blocks got and the free ones are exactly the free ones before; how many, which, what cache and tree have left, and the drift of the counter, in every case |
| BlockPool.BlockPool.BlockPoolPut | src/fs/BlockPool.c:110-158 | the free blocks are those before and those put, each once; the cache has them all, or when that is too many the last half of a full cache, and the tree the others |
| BlockPool.BlockPool.BlockPoolExtentGet | src/fs/BlockPool.c:73-79 | the smallest blocks of the tree as extents, as many as there are of the number wanted, none lost; the cache is not asked |
| BlockPool.BlockPool.BlockPoolExtentPut | src/fs/BlockPool.c:160-167 | the ranges are free again, each block once |
| BlockPool.BlockPool.RecoveryNotifyBlockBusy | src/fs/BlockPool.c:174-177 | while recovering the tree holds exactly the busy blocks; it stays a tree if and only if none of them was reported before |
| BlockPool.ReportedTwice | src/fs/ExtentTree.c:92-130 | a block reported a second time finds no place in the tree or breaks it |
| BlockPool.BlockPool.RecoveryEnd | src/fs/BlockPool.c:179-183 | busy and free blocks share out all blocks; the counter is right if and only if none was busy |
| PagePool.Ffz | src/fs/PagePool.c:57-61 | the lowest zero bit of a word that has one |
| PagePool.BitmapZeroGet | src/fs/PagePool.c:63-77 | the first zero bit of the first word that has one, going round from the start; -1 exactly when every bit is set |
| PagePool.AddedOk | src/fs/PagePool.c:111-131 | a new sub-pool keeps the pool sound and no page becomes live |
| PagePool.HandedOk | src/fs/PagePool.c:98-155 | handing out a page makes exactly that page live and keeps counts, list and total right, also when it was the last |
| PagePool.ReturnedOk | src/fs/PagePool.c:242-295 | giving a page back makes exactly that page free and keeps counts, list and total right |
| PagePool.RevivedReturnedOk | src/fs/PagePool.c:242-295 | also when all pages of its block were in use |
| PagePool.ReleasedOk | src/fs/PagePool.c:133-143 | letting an unused block go changes no live page |
| PagePool.ReportsOwnBlockIff | src/fs/PagePool.c:302-332 | recovery reports the block of a page if and only if it is one of the first 512 pages |
| PagePool.SecondReportFails | src/fs/PagePool.c:302-332 | two blocks with busy pages, both below page 2^21, are reported as the same block, and the second report does not leave a tree |
| PagePool.PagePool.AddSubPool | src/fs/PagePool.c:111-131 | a block moves from the block pool to this one; fails exactly when there is none |
| PagePool.PagePool.TakePage | src/fs/PagePool.c:98-155 | one page of this block, live from now on: the next zero of its bitmap from where the last search ended |
| PagePool.PagePool.PagePoolAlloc | src/fs/PagePool.c:157-191 | a page nobody has, of the first block of the list and its next free one, or the first page of a new block when no block has one; none exactly when both pools have nothing; no block is lost |
| PagePool.PagePool.PagePoolAllocWithHint | src/fs/PagePool.c:193-235 | a page nobody has, or none exactly when both pools have nothing; from the hinted block when that has a free page, else as without a hint |
| PagePool.PagePool.ReleaseBlock | src/fs/PagePool.c:133-143 | the block leaves this pool and the block pool has exactly it more |
| PagePool.PagePool.PagePoolFree | src/fs/PagePool.c:242-295 | exactly this page becomes free; its block goes back to the block pool if and only if no page of it is in use any more and three blocks, this one included, have a free page, and otherwise no block changes hands; a block that was full becomes the first of the list |
| PagePool.GoesBackIs | src/fs/PagePool.c:277-284 | the counters the code looks at say exactly that |
| PagePool.OpenBlocksIs | src/fs/PagePool.c:242-295 | the sub-pools in the tree are the blocks with a free page, and subPoolNum counts them |
| PoolRuns.RunCalls | src/fs/PagePool.c:157-295 | over any run of calls to both pools, with what they answered: block pool, page pool and callers together have every block, the pages in use are those the callers have, and a page was refused exactly when every block was with a caller or full |
| PoolRuns.InOnePlace | src/fs/BlockPool.c:22-167 | so each block is in exactly one of tree, cache, page pool and callers |
| PoolRuns.OncePuttable | src/fs/BlockPool.c:160-167 | ranges that callers have can be put back one after the other |
| InodeTable.UnmarkedIs | src/fs/InodeTable.c:75-86 | the list built by recovery has each unmarked number but 0 exactly once |
| InodeTable.InodeTable.Format | src/fs/InodeTable.c:8-27 | every number but 0 is free, in order |
| InodeTable.InodeTable.Recovery | src/fs/InodeTable.c:34-41 | every cell unmarked, no free list yet |
| InodeTable.InodeTable.NotifyInodeInuse | src/fs/InodeTable.c:43-57 | marks the inode with its stored address and says whether it was marked |
| InodeTable.InodeTable.AppendToList | src/fs/InodeTable.c:59-73 | the number goes behind the list that runs through the cells; no other cell of use changes |
| InodeTable.InodeTable.RecoveryEnd | src/fs/InodeTable.c:75-86 | the free list is the unmarked numbers but 0, in order; the marked cells keep their addresses |
| InodeTable.InodeTable.GetIno | src/fs/InodeTable.c:88-107 | the first of the list, or none exactly when it is empty |
| InodeTable.InodeTable.PutIno | src/fs/InodeTable.c:109-113 | behind the others, so numbers come back first in, first out; 0 never |
| InodeTable.InodeTable.UpdateInodeAddr | src/fs/InodeTable.c:115-119 | the cell of a number in use and the address on the medium change, no other does, nor the free list |
| FsConstructor.MarkStep | src/fs/FsConstructor.c:51-72 | marking an inode and queueing its children keeps the worklist invariant |
| FsConstructor.FewerUnmarked | src/fs/FsConstructor.c:51-72 | and leaves fewer unmarked inodes |
| FsConstructor.SkipStep | src/fs/FsConstructor.c:51-72 | skipping a marked one keeps it too |
| FsConstructor.ClosedIsAll | src/fs/FsConstructor.c:51-72 | with an empty queue every inode on a path from the root is marked |
| FsConstructor.AllMarked | src/fs/FsConstructor.c:51-72 | marked are exactly the reachable |
| FsConstructor.FsConstructorRun | src/fs/FsConstructor.c:51-72 | ends on every directory graph, cycles and duplicates included, with exactly the reachable inodes marked, each with its address |
| FsConstructor.Mount | src/fs/FsConstructor.c:51-72 | afterwards the free list has each unreachable number but 0 exactly once, ascending, and every reachable inode is found at its address on the medium |

## Left out

- FileDataManager.FileDataManager.WriteDataToArea: a store that would run off the end of the device stores nothing; the code would look up its address behind the end of the tables.
- FileDataManager.FileDataManager.FileDataManagerWriteData: starts from a file no append of which failed, since the code has no rule for one whose write position lies outside its area; the log is kept as a sequence of operations with the answers to the appends as a parameter, tied to free pages in `FileLogSpace` and to the bytes in `FileHistory`. Writes of no bytes are left out: the code would make an extent of no bytes.
- FileDataManager.FileDataManager.FileDataManagerReadData: the buffer stands for the destination and the memory behind it that the read stores to; that it may be longer than the destination is the failure `FileRead.StaysInsideIff` is about.
- FileHistory.HistoryRefines: events get pages enough for their log entries; what happens otherwise is `FileLogSpace.WriteLastsIff`.
- Log.Log.LogWrite: entries are shorter than 4 GiB, the width of the size field, and not both of type 0 and empty, since the head of such an entry reads as the end of the log; the program logs neither.
- Log.Log.LogFormat: the reserved bytes and a first entry's words fit the first page; the code does not check it.
- FsConstructor.FsConstructorRun: the stored addresses of reachable inodes are not the invalid address, since an inode gets its address before a directory names it. What the recovery of an inode puts into the queue is a parameter, and the queue is a first-in first-out sequence, so the growth of the circular buffer is not modelled.
- PagePool.PagePool.PagePoolFree: the page is one that was handed out; the code does not check for a double free.
- RemapRuns.RunKeeps: swap targets are not in use, whole-block writes stay in their block and splits format the right group, which the callers must see to; the if-and-only-if lemmas say what happens otherwise.
- SwapHistory.SafeExactlyInTheFirst64: entries from index 64 on are spare slots here. That is what they are up to index 65535 (`SwapMedium.EntryInAreaIff`); the overwriting of the page swap area behind them by later ones is not modelled.
- AccessMap.Rebuild: the page tables of split blocks are not part of the result, since the code stores outside them (`AccessMap.PageTableFitsIff`); `AccessMap.MountReadsOldBytes` is about whole blocks.
- BlockPool.BlockPool.RecoveryNotifyBlockBusy: no node starts where the range does; the code has no place for one that does and does not come back.
- SwapSafety.RecoveryFinishesSwaps: swaps under way at the same time use different blocks, entries and spare blocks, as the block locks and the swap table arrange; their indices are below 64.
- SwapTransaction.SwapArea.DoBlockSwapTransaction: the logical blocks' own locks are not taken here; the access lock is `RwLock`.
- BlockManager.Managers.BlockSwapFast: runs between lock and unlock; the interleaving with readers is in `SeqLock`. BlockManagerMemset, Merge and the retry loops that take several locks are not modelled.
- Stores reach the medium in program order; caches and fences are not modelled.
- LogWriteReserveData, the base inode information, timestamps and owners.
- LogRecoveryInit and the notification of log pages during recovery; the rebuild path is modelled.
- FileDataManagerMergeData, which nothing calls, and Destroy of files.
- The recovery cache of directory entries; the children found by a directory's recovery are a parameter.
- The spin locks of the pools and the second look at the list after a block was fetched: the pools are sequential here.
- Memory allocation always succeeds; reads of nodes after they were freed (ExtentTreePut, PageSubPoolDeprecate) are not modelled.
- Red-black trees, radix trees, hash lists and linked lists are ordered sequences, maps and buckets.
- NVMAccesser chunking and the WearLeveler dispatch; address translation is the map lookup.
- Page-level swap transactions and page-level locks of both wear-leveling layers, and special-block swaps.
- Coldness, LRU order and wear counts: only membership of the free list is modelled.
- Checks for equality, iteration for printing, ioctl, VFS and kernel glue.
