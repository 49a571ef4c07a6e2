# FAT allocation, file truncation, boot images and block copies: a verified model

This project models the parts of Freescale MQX 3.8 in which state is changed step by step
and the interesting properties hold across many steps:

- the cluster allocator of the MFS file system over a FAT12, FAT16 or FAT32 volume, down to
  the bits of a table entry and the write-back cache of table sectors;
- creating a file over one that exists, while other handles are open on it;
- clearing a cluster through the directory sector buffer;
- the ELF overlay and the two-pass image builder of the `image.py` boot tool;
- the re-blocking file copy of `ddcopy.py`;
- the truncating appends that make up one line of a directory listing.

## How it is organised

| file | contents |
|---|---|
| `Bytes.dfy`, `Arithmetic.dfy` | bytes, little-endian words, division by a variable divisor |
| `FatChains.dfy` | the table as a sequence of links: trails, chains, the cyclic search order, counting |
| `Allocation.dfy` | what extending and releasing do to a table, and the loops' intermediate states |
| `Volume.dfy` | sound volumes, and what requests do to their files |
| `Requests.dfy` | the requests a drive serves, and runs of them: soundness and count |
| `FatBytes.dfy` | packing links into sectors |
| `FatBits.dfy` | the same on the bits of the table, one law for all three FAT types |
| `Errors.dfy`, `BlockDevice.dfy` | error codes; the block device, any transfer of which may fail |
| `FatCache.dfy` | the table seen through a window of cached sectors over several copies |
| `FatTable.dfy` | class `Table`: reading and writing one entry through the cache |
| `DataArea.dfy` | where the sectors of clusters lie |
| `FreeCount.dfy` | the 32-bit count of unused clusters and its unknown mark |
| `Drive.dfy` | class `Drive`: search, extend, release, count |
| `Runs.dfy` | what the operations mean on a sound volume |
| `DirectorySector.dfy` | class `DirectoryBuffer`: clearing a cluster |
| `FileCreation.dfy` | classes `Handle` and `FileSystem`: creating and truncating files |
| `ElfLoading.dfy`, `BootImage.dfy` | the overlay of segments; class `Image` |
| `BlockCopy.dfy` | classes `ReadFile` and `WriteFile`, and the copy loop |
| `DirectoryListing.dfy` | the formatter, the appends, one line |

The classes carry the fields the C structures and Python objects have and update them in
place. Every method is proved against functions or predicates over sequences, and the
properties proper are lemmas about those. Reading a link reads bytes out of a cached window
(`Table.GetClusterFromFat`), writing one writes them (`Table.PutEntry`); `Drive.Fat()` is the
sequence of links all those bytes stand for, and the allocator is specified in terms of it.
Every transfer may fail (`Device`); a ghost counter of failures lets a contract say what holds
when none does.

A FAT32 entry whose reserved bits are set reads as the end of a chain whatever is written to
it. `Drive.Stuck()` is the set of such clusters; no operation requires it to be empty, and
`FatChains.Masked` says what it makes of a table that was meant to be written.

What a contract computes with is pinned down independently of the functions it names: entries by
the bits of the table (`FatBits.LinkBits`, `FatBits.EntryWritten`), copies of the table by their
place on the device (`FatCache.CopyHolds`), sectors of clusters by division
(`DataArea.IsSectorOf`), words by their bytes (`Bytes.IsWord`), copies by their bytes
(`BlockCopy.IsCopy`), and codes and marks by their numbers.

The layers meet in three places. `Drive.ExtendChain`, `Drive.ReleaseChain`,
`Drive.AllocateFirstCluster` and `Drive.GetDiskFreeSpaceInternal` promise `Requests.Step`, so a
sequence of calls is a run in the sense of `Requests.RunsKeepSoundIff` and
`Requests.AnswersRightIff`. `FileSystem.CreateFile` uses what releasing means for a volume
(`Requests.ProperRelease`) to tell which directory entries lose their file, which open handles
are left standing at clusters of no file, and which would start over at an unused one. It asks
nothing of the other entries and handles.
`BootImage.ActionElf` carries the bytes of ELF segments through the overlay and both passes of
the image into the file written.

## What the code turns out to do

These are proved; some contradict a comment or the apparent intention.

- A request for exactly one cluster more than there are, on a disk that is not full, appends all
  there are and reports success (`Allocation.ReportIsTruthful`, `Allocation.LinkToItself`). The
  reason is that the cluster linked last still counts as unused, and is the last one the next
  search looks at; it gets linked to itself, and the closing write repairs that.
- `MFS_LOST_CHAIN` never leaves a release: its error is overwritten by that of writing the table
  back (`Drive.ReleaseChain`). What creating a file does about `MFS_LOST_CHAIN` is never reached
  (`FileSystem.TruncateExisting`).
- Of a chain that ends in a bad link, releasing leaves the last cluster in use for ever
  (`Allocation.LostChainIsReleasedButLast`). Of a circle, everything is freed
  (`Allocation.CycleIsReleased`).
- The tail walk of an extension does not end on a circle (`FatChains.TailWalkEndsOrNever`), so
  extending has a precondition; on a sound volume it always holds (`Runs.SoundTrails`).
- A search that starts below the first cluster finds nothing, however many clusters are unused
  (`FatChains.IsSearchResult`). The comment at
  `mfs/source/generic/mfs_cluster.c:79` has it return 0xffff when nothing is found; the code
  returns `CLUSTER_INVALID`, which is 1 (`mfs/source/include/mfs_prv.h:74`).
- A FAT32 entry whose reserved bits are set reads as an end of chain, and writing does not
  change that (`FatBytes.UnpackPack`). Extending a chain whose last entry is such a one reports
  success and a first new cluster, but the new clusters are a chain no link leads to
  (`Allocation.MaskedExtended`). Releasing one leaves its last cluster in use and counts it as
  unused (`Allocation.MaskedFreed`, `Requests.ReleaseCounts`).
- An extension that a failed write of the cache stops before it closes the chain leaves a link to
  a cluster that still counts as unused, so the volume is not sound any more
  (`Drive.ExtendChain`, `Volume.TurnedIsSound`).
- A release that does not start at the first cluster of a file leaves a link to an unused cluster;
  that is the only thing by which a request spoils a sound volume (`Requests.StepKeepsSound`).
- A bad-cluster mark survives a write only on FAT32 (`FatBytes.BadMarkNeedsFat32`).
- A failed load of the cache window leaves it partly overwritten and still claiming to hold the
  sectors it held before, so a failed read can change what later reads see: any link of which a
  byte was cached, and no other (`FatCache.FailedLoadIff`, `Table.MoveWindow`).
- A free count that is wrong at mount, and not marked unknown, is what the query answers
  (`Drive.GetDiskFreeSpaceInternal`). It stays wrong until counting takes it past zero or up to
  the unknown mark, when the next query counts again, or until as many releases have miscounted
  as it was short of (`Requests.WrongCountHeals`, `Requests.RunningOutHeals`).
- A release on a writable drive that is not write-through never reports an error, even if a transfer
  failed half-way (`Drive.ReleaseChain`).
- Truncating a file resets the position of every open handle of it but not the copy of the
  directory entry each of them keeps. A handle that remembers the first cluster of the file
  starts over at a cluster that is unused by then, if there was one and its entry could be
  changed (`FileCreation.StartsOver`, promised for every handle by `FileSystem.CreateFile`).
- The first cluster of a new file is at first known only to the handle that wrote to it: the
  directory gets it when the handle is closed or flushed, and earlier only under write-through
  (`mfs/source/generic/mfs_write.c:116-144` and `:346-348`). A file created over such an entry
  gives nothing of that chain back: it stays in use and no entry names it
  (`FileCreation.LeftBehind`).
- When giving back the chain of an existing file fails on a write-through drive, creating it
  returns a handle together with the error that the file exists. On other drives it succeeds, and
  empties the entry, although part of the chain may still be in use
  (`FileSystem.Filled`, promised by `FileSystem.CreateFile`).
- Flushing the directory buffer marks it clean even when the write failed, and clearing a
  cluster then overwrites it (`DirectoryBuffer.FlushDirectorySectorBuffer`,
  `DirectoryBuffer.ClearCluster`).
- A segment the ELF file does not fully back shrinks the buffer and pulls down everything laid
  behind it (`ElfLoading.RestMoves`). For segments that do not overlap `ElfLoading.LoadedIff` says
  exactly which addresses and sizes are safe from that; ascending ones are
  (`ElfLoading.InOrderIsLoaded`), and `ElfLoading.OutOfOrderMoves` is a case that is not. For
  segments of every kind, overlapping ones included, `ElfLoading.LoadedIffOriginsAgree` does.
- The last incomplete block of a copy is written over zeros, not over the bytes just read from
  the target (`BlockCopy.CopiedBytes`). A size limit on the source is ignored unless it is read
  by blocks (`ReadFile.Read`).

## Model

| member | source | states |
|---|---|---|
| FatChains.TrailsAgree | mfs/source/generic/mfs_cluster.c:245-257 | Two walks that are at the same cluster are at the same cluster any number of links later |
| FatChains.FullTrailIsDistinct | mfs/source/generic/mfs_cluster.c:245-257 | A walk that ends meets no cluster twice |
| FatChains.FullTrailIsUnique | mfs/source/generic/mfs_cluster.c:245-257 | The walk from a cluster to where it ends is determined by the table |
| FatChains.DistinctClustersAreFew | mfs/source/generic/mfs_cluster.c:245-257 | Distinct clusters are at most as many as the table has |
| FatChains.TailWalkEndsOrNever | mfs/source/generic/mfs_cluster.c:245-257 | The tail walk ends if and only if it does so within as many links as there are clusters; otherwise every number of steps is possible |
| FatChains.UnusedFromIsSearchOrder | mfs/source/generic/mfs_cluster.c:103-129 | The two ranges a search looks at list exactly the unused clusters, in strictly increasing cyclic distance from the start |
| FatChains.SearchInTwoRanges | mfs/source/generic/mfs_cluster.c:103-129 | A search of the upper range, and of the lower one only if that was in vain, gives the first unused cluster in cyclic order, or none exactly if there is none |
| FatChains.FirstUnusedIsUnique | mfs/source/generic/mfs_cluster.c:103-129 | There is only one such cluster |
| FatChains.SearchTells | mfs/source/generic/mfs_cluster.c:103-129 | The answer of a search is 1 if and only if it starts below 2 or no entry is 0; otherwise it is the number of an entry that is 0, and none lies nearer behind the start |
| FatChains.CountIsSize | mfs/source/generic/mfs_cluster.c:505-518 | The count is the number of clusters whose entry is 0 |
| FatChains.CountUnusedUpdate | mfs/source/generic/mfs_fat.c:461-471 | One written link changes the number of unused clusters by what it was and is |
| FatChains.MaskedUnused | mfs/source/generic/mfs_cluster.c:103-129 | As long as no entry that cannot be changed was meant to become unused, searches and counts are not led astray by such entries |
| Allocation.LinkedIsChain | mfs/source/generic/mfs_cluster.c:261-298 | Linking distinct clusters up makes them one chain with an end mark, and changes no other link |
| Allocation.LinkedIsUnique | mfs/source/generic/mfs_cluster.c:261-298 | No other table does |
| Allocation.AppendedFacts | mfs/source/generic/mfs_cluster.c:261-298 | The clusters an extension by k appends are min(k, free) distinct ones, all unused before |
| Allocation.AppendedAreNext | mfs/source/generic/mfs_cluster.c:261-298 | They are the next unused ones behind the tail, appended in the order in which they lie behind it, going on at the first cluster after the last |
| Allocation.ReportIsTruthful | mfs/source/generic/mfs_cluster.c:266-298 | Disk full is reported if and only if fewer clusters were appended than asked for, except when one more than the (non-zero) number of unused ones was asked for |
| Allocation.UnusedIndex | mfs/source/generic/mfs_cluster.c:264-285 | While extending, only clusters not linked yet and the one linked last are unused |
| Allocation.StillUnused | mfs/source/generic/mfs_cluster.c:264-285 | All of those are |
| Allocation.NextFound | mfs/source/generic/mfs_cluster.c:264-285 | The next search finds the next cluster of the original search order, and, when all are linked, the one linked last |
| Allocation.LinkNext | mfs/source/generic/mfs_cluster.c:264-285 | One turn of the loop keeps the state it started in, with one more cluster appended |
| Allocation.LinkToItself | mfs/source/generic/mfs_cluster.c:264-285 | The turn after the last unused cluster links that cluster to itself and changes nothing else |
| Allocation.FoundByTurn | mfs/source/generic/mfs_cluster.c:264-285 | The search of a turn fails exactly if a cluster has been linked to itself or none was unused to begin with |
| Allocation.CloseChain | mfs/source/generic/mfs_cluster.c:290-293 | Wherever the loop stopped, the closing write gives the table in which old tail and new clusters are a chain |
| Allocation.TurnedIsExtending | mfs/source/generic/mfs_cluster.c:264-285 | After any number of turns the table is in the state the search order predicts |
| Allocation.TurnFinds | mfs/source/generic/mfs_cluster.c:264-275 | The loop can make exactly one turn more than there are unused clusters, and none if there are none |
| Allocation.TurnedUnused | mfs/source/generic/mfs_cluster.c:264-285 | No cluster becomes unused on the way; the one linked last is unused until one is linked behind it, itself included |
| Allocation.TurnFindsMasked | mfs/source/generic/mfs_cluster.c:264-275 | Both hold as well when the entry of the tail, or any other, cannot be changed |
| Allocation.TurnsClosed | mfs/source/generic/mfs_cluster.c:261-298 | Making all turns asked for, or all possible ones, and closing gives the specified table; too few turns were made exactly if the disk is reported full |
| Allocation.FirstAppended | mfs/source/generic/mfs_cluster.c:277-281 | The cluster the first turn links is the first of those appended |
| Allocation.ReleasedIsUnique | mfs/source/generic/mfs_cluster.c:161-194 | The clusters a release gives back are determined by the table and the first cluster |
| Allocation.ChainIsReleased | mfs/source/generic/mfs_cluster.c:161-194 | A well-formed chain is given back whole |
| Allocation.LostChainIsReleasedButLast | mfs/source/generic/mfs_cluster.c:161-194 | Of a chain with a bad last link, all clusters but the last are given back |
| Allocation.CycleIsReleased | mfs/source/generic/mfs_cluster.c:161-194 | On a circle, every cluster reached by any number of links is given back |
| Allocation.ReleaseNext | mfs/source/generic/mfs_cluster.c:161-194 | One turn of a release: a cluster with a good link was not freed before, and the state is kept with it freed |
| Allocation.FreedCount | mfs/source/generic/mfs_cluster.c:143-203 | Giving back n clusters raises the number of unused ones by n |
| Allocation.MaskedFreed | mfs/source/generic/mfs_cluster.c:161-194 | A release frees all the clusters it visits if and only if the entry of the last one can be changed; otherwise all but that one |
| Allocation.LinkedCount | mfs/source/generic/mfs_cluster.c:214-301 | Appending n clusters lowers it by n |
| Allocation.ExtendedChain | mfs/source/generic/mfs_cluster.c:214-301 | Extending turns a chain into old followed by new, with no other link changed and the count lower by the number appended; link by link, with the end mark 0xFFFFFFF |
| Allocation.MaskedExtended | mfs/source/generic/mfs_cluster.c:214-301 | An extension reaches the chain if and only if the entry of its tail can be changed or nothing is appended; otherwise the new clusters are a chain no link leads to |
| Allocation.ExtendThenRelease | mfs/source/generic/mfs_cluster.c:143-301 | Extending by any number and then releasing gives the table that releasing at once gives, if and only if the extension reached the chain |
| Allocation.DetachedRelease | mfs/source/generic/mfs_cluster.c:143-301 | If it did not, the new clusters stay in use |
| Volume.SoundEveryChainEnds | mfs/source/generic/mfs_cluster.c:144-301 | On a sound volume the links from any cluster in use lead to an end mark without meeting a cluster twice |
| Volume.OnePlace | mfs/source/generic/mfs_cluster.c:144-301 | A cluster has one place in one file |
| Volume.SoundNoLinkToUnused | mfs/source/generic/mfs_cluster.c:144-301 | No link leads to an unused cluster |
| Volume.SoundOnePredecessor | mfs/source/generic/mfs_cluster.c:144-301 | No two links lead to the same cluster |
| Volume.SoundHeads | mfs/source/generic/mfs_cluster.c:144-301 | The clusters in use that no link leads to are exactly the first clusters of files |
| Volume.NewChainKeepsVolume | mfs/source/generic/mfs_cluster.c:214-301 | Unused clusters linked up to a chain of their own leave every other chain as it was |
| Volume.CreateKeepsVolume | mfs/source/generic/mfs_write.c:116-144 | So does a first cluster for a file |
| Volume.AppendKeepsVolume | mfs/source/generic/mfs_cluster.c:214-301 | Appending to the chain of one file changes no other |
| Volume.ExtendKeepsVolume | mfs/source/generic/mfs_cluster.c:214-301 | Extending leaves a table of chains in any case: the file has grown, or the new clusters are a lost chain |
| Volume.TurnedIsSound | mfs/source/generic/mfs_cluster.c:264-293 | After n turns of the loop of an extension, before the closing write, the volume is sound if and only if no turn was made, or one whose link cannot be written |
| Volume.TurnLinks | mfs/source/generic/mfs_cluster.c:264-285 | The link each turn makes, unless it is in an entry that cannot be changed; the one turn too many makes it from a cluster to itself |
| Volume.RemoveKeepsVolume | mfs/source/generic/mfs_cluster.c:143-203 | Freeing the chain of one file leaves every other chain as it was |
| Volume.ShortenKeepsVolume | mfs/source/generic/mfs_cluster.c:143-203 | Freeing all but its last cluster leaves that as a chain of its own |
| Volume.ReleaseKeepsVolume | mfs/source/generic/mfs_cluster.c:143-203 | Releasing leaves a table of chains in any case: the file is gone, or its last cluster is a lost chain |
| Volume.ReleaseKeepsOthers | mfs/source/generic/mfs_cluster.c:143-203 | And every other file is as it was |
| Volume.FormattedIsSound | mfs/source/generic/mfs_format.c:248-283 | A table as formatting leaves it is sound: nothing in use, but for the root directory of FAT32, and some clusters marked bad |
| Requests.StepKeepsSound | mfs/source/generic/mfs_cluster.c:143-301 | Every create, extend (disk full or not), release and query keeps a volume sound, whatever entries cannot be changed, if and only if a release does not start in the middle of a chain, or starts at an entry that cannot be changed |
| Requests.ProperRelease | mfs/source/generic/mfs_cluster.c:143-203 | A release on a sound volume from any cluster that is not the middle of a chain: the exact table and files; only the chain of a file that starts there is given back |
| Requests.ImproperRelease | mfs/source/generic/mfs_cluster.c:143-203 | A release from the middle of a chain whose entry can be changed leaves an unsound volume |
| Requests.RunsKeepSound | mfs/source/generic/mfs_cluster.c:143-301 | Every table that a run of such requests from a sound one passes through is sound |
| Requests.RunsKeepSoundIff | mfs/source/generic/mfs_cluster.c:143-301 | In a run from a sound table every table is sound if and only if no release of it starts in the middle of a chain, at an entry that can be changed |
| Requests.StepCounts | mfs/source/generic/mfs_cluster.c:47-73 | An unknown count becomes right by a query and by nothing else; a known one becomes unknown or is as far off as before, one more for a release that cannot free its last cluster; a right one does not become unknown |
| Requests.ReleaseCounts | mfs/source/generic/mfs_cluster.c:161-194 | A release is counted as one cluster too many if and only if the entry of the last one cannot be changed |
| Requests.StepKeepsCount | mfs/source/generic/mfs_cluster.c:489-529 | A count that is unknown or right stays so if and only if it is unknown or the request does not miscount |
| Requests.RunsKeepCount | mfs/source/generic/mfs_cluster.c:489-529 | Over runs of all four requests, a count that is unknown or right stays so as long as no release miscounts while it is known |
| Requests.RunsKeepCountIff | mfs/source/generic/mfs_cluster.c:489-529 | And it stays so throughout if and only if that is so |
| Requests.AnswersAreRight | mfs/source/generic/mfs_cluster.c:489-529 | Then every query is answered with the number a scan would give |
| Requests.AnswersRightIff | mfs/source/generic/mfs_cluster.c:489-529 | Every answer of every run in which no release miscounts while the count is known equals the scan if and only if the count is unknown or right at the start |
| Requests.ExcessGrows | mfs/source/generic/mfs_cluster.c:47-73 | While the count stays known, it is too high by what it was and the number of releases miscounted since |
| Requests.CountRightIff | mfs/source/generic/mfs_cluster.c:489-529 | In every run and at every moment a known count is right if and only if what it was off when it became known and the releases miscounted since add up to zero; it was off then only at the start of the run |
| Requests.WrongCountHeals | mfs/source/generic/mfs_cluster.c:47-73 | A count wrong at the start that has stayed known is right if and only if as many releases have miscounted as it was short of; without miscounting, it is unknown or right if and only if it has met the unknown mark |
| Requests.RunningOutHeals | mfs/source/generic/mfs_cluster.c:61-73 | A run in which that happens: zero counted, one cluster unused, and that one taken |
| FatBytes.UnpackPack | mfs/source/include/mfs_prv.h:384-406 | An entry reads back as the code written, cut to its width, or as an end of chain if it is a FAT32 entry with reserved bits set; writing leaves reserved bits alone. For every code |
| FatBytes.ReadBackIsCode | mfs/source/generic/mfs_fat.c:283-333 | The codes read back unchanged are exactly those below the end marks and the end mark itself |
| FatBytes.StuckAreStuck | mfs/source/generic/mfs_fat.c:326-333 | Entries with reserved bits set read as ends of chains |
| FatBytes.BadMarkNeedsFat32 | mfs/source/generic/mfs_fat.c:434-461 | A bad-cluster mark is read back if and only if the volume is FAT32 |
| FatBytes.UpperHalfKept | mfs/source/include/mfs_prv.h:386-389 | Writing a FAT12 entry leaves the value of the one behind it, with which it shares a byte |
| FatBytes.LowerHalfKept | mfs/source/include/mfs_prv.h:391-394 | And of the one before it |
| FatBytes.OtherEntryAfterWrite | mfs/source/generic/mfs_fat.c:409-461 | Writing an entry leaves the link and the reserved bits of every other |
| FatBytes.LinksAfterWrite | mfs/source/generic/mfs_fat.c:409-461 | Writing any code to an entry changes that link as it reads back and no other, and no reserved bits, whatever the FAT type |
| FatBits.BitsMakeByte | mfs/source/generic/mfs_fat.c:283-333 | The bits of a byte, each with its weight, make it up |
| FatBits.BitAtPlace | mfs/source/generic/mfs_fat.c:283-333 | The bits of the table are those of its sectors laid end to end, least significant bit of a byte first |
| FatBits.LinkBits | mfs/source/generic/mfs_fat.c:283-333 | On every FAT type, with w = 12, 16 or 32: bit k of the link of cluster c is bit w c + k of the table, unless the bits from 3 on are all set, or one of the four highest of FAT32 is, which reads as 0xFFFFFFF |
| FatBits.EntryWritten | mfs/source/generic/mfs_fat.c:409-461 | Writing a code for cluster c writes bit k of it to bit w c + k of the table, for as many bits as an entry has, 28 of them on FAT32, and changes no other bit |
| FatBits.StuckBits | mfs/source/generic/mfs_fat.c:326-333 | The entries that cannot be changed are those of FAT32 with one of the four highest bits set |
| FatCache.WriteBackKeepsLogical | mfs/source/generic/mfs_fat.c:78-104 | However far a write-back got, a reader sees the same table, and no copy has lost what lies outside the window |
| FatCache.WriteBackIsDurable | mfs/source/generic/mfs_fat.c:78-104 | After a write-back that got through, every copy holds the table as a reader sees it |
| FatCache.CleanIsFirstCopy | mfs/source/generic/mfs_fat.c:207-217 | While the window is clean, sector i of the table a reader sees is sector i behind the start of the first copy |
| FatCache.MovingCleanWindow | mfs/source/generic/mfs_fat.c:184-218 | Moving a window that is not dirty changes nothing a reader sees |
| FatCache.UncachedSurvive | mfs/source/generic/mfs_fat.c:207-217 | Whatever has got into the window, every link of which no byte lies in it is the same for later readers |
| FatCache.FailedLoadIff | mfs/source/generic/mfs_fat.c:207-217 | Some failed load changes a link for later readers if and only if a byte of its entry is cached, be it one of the two of a FAT12 entry at the edge of the window |
| FatCache.ClampedWindowReaches | mfs/source/generic/mfs_fat.c:166-205 | A window moved to the first sector of an entry, but not beyond the table, also holds its last sector |
| FatCache.WriteWindowByte | mfs/source/generic/mfs_fat.c:409-461 | A byte written in the window is that byte of the table, and no other |
| FatCache.EntryFromWindow | mfs/source/generic/mfs_fat.c:272-333 | The bytes read from the window are those of the entry of the table |
| BlockDevice.Device.ReadSector | mfs/source/generic/mfs_rw.c:216-296 | A read delivers the sector, or fails and says so |
| BlockDevice.Device.WriteSector | mfs/source/generic/mfs_rw.c:58-186 | A write changes its sector and no other; failed, it may leave anything there |
| FatTable.Table.FlushCopy | mfs/source/generic/mfs_fat.c:92-97 | Writes the window to one copy and touches no other sector; fails exactly if a transfer did |
| FatTable.Table.FlushCopies | mfs/source/generic/mfs_fat.c:89-98 | The same for every copy: on success all of them hold the window |
| FatTable.Table.FlushFatCache | mfs/source/generic/mfs_fat.c:58-108 | The table a reader sees never changes; on success the window is clean and every copy holds the table; on failure it stays dirty; copy f lies f table sizes behind the first |
| FatTable.Table.LoadWindow | mfs/source/generic/mfs_fat.c:207-217 | On success the window holds the sectors asked for; otherwise it is overwritten up to the sector that failed |
| FatTable.Table.MoveWindow | mfs/source/generic/mfs_fat.c:184-218 | Saves and moves the window: nothing is lost on success, nor when saving fails, which leaves it dirty; when loading fails it is half overwritten, clean, keeps its old place, and the links not cached survive; copies that agreed still do |
| FatTable.Table.ReadFat | mfs/source/generic/mfs_fat.c:156-221 | Afterwards the entry is in the window; the table a reader sees is unchanged, or, if loading failed, the links not cached are; where exactly the window then is |
| FatTable.Table.GetClusterFromFat | mfs/source/generic/mfs_fat.c:234-340 | The link of a cluster; an error, and the end mark, exactly if the number is no cluster or a transfer failed; what survives then; stated on the bits of the table as well |
| FatTable.Table.PutCached | mfs/source/generic/mfs_fat.c:397-459 | Writing an entry that is in the window changes one link as it reads back, for any code, and no other; stated on the bits of the table as well |
| FatTable.Table.PutEntry | mfs/source/generic/mfs_fat.c:354-475 | Changes one link of the table as it reads back, for any code, and no other; tells whether that link was unused before; a failed save changes nothing; stated on the bits of the table as well |
| FreeCount.CountedOneWrite | mfs/source/generic/mfs_fat.c:461-471 | One counted write keeps a right count right and an unknown one unknown; any other one is as far off as before, or has become unknown |
| Drive.Drive.PutFat | mfs/source/generic/mfs_fat.c:354-475 | Writes a link, for any code, and counts it, also where the entry cannot be changed; succeeds exactly on a cluster of a writable drive without a failed transfer; the new count, as a number |
| Drive.Drive.FindUnusedClusterIn | mfs/source/generic/mfs_cluster.c:103-129 | The first unused cluster of a range; a number that is no cluster, or a failed transfer, ends the search |
| Drive.Drive.FindUnusedClusterFrom | mfs/source/generic/mfs_cluster.c:85-132 | The first unused cluster in cyclic order from any start; only the hint changes, and only if one was found, even when saving the cache failed; what the answer is, on the numbers stored |
| DataArea.SectorsOfCluster | mfs/source/include/mfs_prv.h:285-286 | A sector belongs to cluster c if and only if its distance from the start of the area, divided by the sectors of a cluster, is c - 2 |
| DataArea.SectorsAreDisjoint | mfs/source/include/mfs_prv.h:285-286 | No sector belongs to two clusters |
| DataArea.SectorBehindAll | mfs/source/include/mfs_prv.h:285-286 | A sector behind the last cluster belongs to none |
| Drive.Drive.NoSectorIsNoCluster | mfs/source/include/mfs_prv.h:285-286 | The number that stands for no sector belongs to no cluster |
| Drive.Drive.InvalidateDataSector | mfs/source/generic/mfs_data_sector.c:97-117 | Forgets the cached data sector, except on a read-only drive |
| Drive.Drive.WriteBackFat | mfs/source/generic/mfs_fat.c:122-143 | A reader sees the same table; on a write-through drive whose copies agreed, every copy on the device now is that table |
| Drive.Drive.DropDataSectorOf | mfs/source/generic/mfs_cluster.c:174-188 | The cached data sector is dropped if and only if it lies in this cluster, and then its number is 0xFFFFFFFF; afterwards it lies in no cluster given back |
| Drive.Drive.ReleaseClusters | mfs/source/generic/mfs_cluster.c:161-194 | Ends on every table, circles and unchangeable entries included; visits exactly the clusters up to the first bad link, frees those that can be, changes no other entry, and counts all of them; when saving the cache fails, a first part of that; the cached data sector is dropped if and only if it lay in one of them |
| Drive.Drive.ReleaseChain | mfs/source/generic/mfs_cluster.c:143-203 | The same for the whole operation, with no effect on a read-only drive or for a number that is no cluster; never reports a lost chain, and no error at all on a drive that is not write-through; the cached data sector is dropped if and only if it lay in a freed cluster, or in the one whose entry could not be written; on a write-through drive every copy of the table on the device is the new one |
| Drive.Drive.FindTail | mfs/source/generic/mfs_cluster.c:245-257 | On a table without a circle: the last cluster, or a lost chain exactly if its link is bad |
| Drive.Drive.LinkCluster | mfs/source/generic/mfs_cluster.c:264-285 | One turn of the loop of an extension |
| Drive.Drive.LinkClusters | mfs/source/generic/mfs_cluster.c:264-285 | The loop: as many turns as asked for, or all possible ones |
| Drive.Drive.AppendClusters | mfs/source/generic/mfs_cluster.c:261-298 | The table, the error and the first new cluster, as specified without the loop; when saving the cache failed, the table after some number of turns, closed or not |
| Drive.Drive.ExtendChain | mfs/source/generic/mfs_cluster.c:214-301 | Extends from any member of a chain by any number: exact table, count, error and first new cluster, for every shortage and whether or not the tail can be changed; a lost chain, a number that is no cluster and a count of zero change nothing; no success after a failed transfer; when saving the cache failed, the exact table and count for the number of turns made; the errors of a number that is no cluster and of a count of zero |
| Drive.Drive.AddClusterToChain | mfs/source/generic/mfs_cluster.c:312-320 | The same for one cluster |
| Drive.Drive.CountUnusedClusters | mfs/source/generic/mfs_cluster.c:505-518 | Counts the unused clusters; fails exactly if a transfer did |
| Drive.Drive.GetDiskFreeSpaceInternal | mfs/source/generic/mfs_cluster.c:489-529 | The answer is the number of unused clusters if and only if the cached count was unknown or right; it is cached, which is the query step of a run; it is the cached count unless that is 0xFFFFFFFF |
| Drive.Drive.AllocateFirstCluster | mfs/source/generic/mfs_write.c:116-144 | Takes the first unused cluster from the hint on and ends a chain in it; disk full exactly if the hint lies below the first cluster or none is unused |
| Runs.SoundTrails | mfs/source/generic/mfs_cluster.c:245-257 | On a sound volume every tail walk ends |
| Runs.ExtendOnSound | mfs/source/generic/mfs_cluster.c:214-301 | Extending from any cluster of a file appends to the chain of that file, or starts a lost chain; count, error and first new cluster as specified |
| Runs.ReleaseOnSound | mfs/source/generic/mfs_cluster.c:143-203 | Releasing from the first cluster of a file visits its chain and nothing else; how far the number of unused clusters rises; the first cluster is unused afterwards if and only if its entry can be changed; every entry of the table, which is 0 for the clusters of the file that can be changed |
| Runs.ExtendThenReleaseCount | mfs/source/generic/mfs_cluster.c:143-301 | After extending and releasing, the count is the one that releasing at once gives, if and only if it was unknown or at least the number of clusters appended |
| DirectorySector.DirectoryBuffer.FlushDirectorySectorBuffer | mfs/source/generic/mfs_rw.c:355-383 | On success the device holds what the buffer held; the buffer counts as clean either way |
| DirectorySector.DirectoryBuffer.WriteZeros | mfs/source/generic/mfs_cluster.c:350-353 | The loop: zeroes sectors one after the other, up to the first that fails, and touches no others |
| DirectorySector.DirectoryBuffer.ClearCluster | mfs/source/generic/mfs_cluster.c:330-356 | On success the disk, buffer included, changes in exactly the sectors of the cluster, all of which are there and every byte of which becomes zero, and the buffer is the sector it claims to hold; what can change on failure; apart from the directory sector that waited, no sector of another cluster or of the table changes |
| DirectorySector.ClusterIsZeroed | mfs/source/generic/mfs_cluster.c:347-353 | Zeroing as many sectors as a cluster has, from its first one on, zeroes the sectors that belong to it by division, and no others |
| DirectorySector.TableUntouched | mfs/source/generic/mfs_cluster.c:330-356 | Changes of sectors behind the table change nothing a reader of the table sees |
| FileCreation.CreatedBits | mfs/source/generic/mfs_create.c:97-99 | Bit by bit: 0x20 is set, 0x10, 0x40 and 0x80 are clear, and the four lowest are those asked for; the handle is read-only if and only if 0x01 is |
| FileCreation.TruncatedFiles | mfs/source/generic/mfs_create.c:116-129 | After a truncation every other file is as it was, and the truncated one is gone, unless the entry of its only cluster cannot be changed |
| FileCreation.StartsOver | mfs/source/generic/mfs_write.c:116-119 | A handle that starts over goes to an unused cluster if and only if it would have before or its cluster was given back; of the first clusters of files, that is the one of the truncated file, if its entry can be changed |
| FileCreation.LeftBehind | mfs/source/generic/mfs_write.c:116-144 | A chain that only a handle of the entry knows stays in use when a file is created over the entry, and no entry names it |
| FileCreation.ReleaseOnVolume | mfs/source/generic/mfs_cluster.c:143-203 | The same for one release step of a drive: sound afterwards if and only if that is so, and then files and table are known |
| FileCreation.FileSystem.AfterTruncation | mfs/source/generic/mfs_create.c:116-149 | Of the entries that named a file and the handles that stood in theirs, exactly those of the file that is gone lose it; when each handle, started over, goes to an unused cluster |
| FileCreation.FileSystem.AgreesIff | mfs/source/generic/mfs_create.c:116-149 | So directory and handles that all agreed with the files still do if and only if no file is gone, or no entry names it and no handle stands in it |
| FileCreation.FileSystem.UpdateEntry | mfs/source/generic/mfs_dir_entry.c:399-441 | The entry of a handle is put into the directory, or nothing changes |
| FileCreation.FileSystem.ResetHandles | mfs/source/generic/mfs_create.c:137-146 | Every handle of the entry forgets its position, and no other handle changes |
| FileCreation.FileSystem.ReleaseFile | mfs/source/generic/mfs_create.c:121-121 | Gives back from any first cluster: the request step, soundness exactly if it is not the middle of a chain, and then files and table |
| FileCreation.FileSystem.EmptyEntry | mfs/source/generic/mfs_create.c:124-147 | The entry becomes empty, in the directory unless storing it fails; then exactly the handles of the entry are set back |
| FileCreation.FileSystem.TruncateExisting | mfs/source/generic/mfs_create.c:116-149 | The same after giving the chain back; no lost chain comes back; entry, directory and every handle, also when something failed |
| FileCreation.FileSystem.GetHandle | mfs/source/generic/mfs_handle.c:55-81 | A new handle on the entry at the end of the list, before its first cluster, or none if no memory is left |
| FileCreation.FileSystem.StoreAttribute | mfs/source/generic/mfs_create.c:154-158 | The attribute is stored, in the directory too unless that fails; nothing fails if it is the same |
| FileCreation.FileSystem.FillHandle | mfs/source/generic/mfs_create.c:113-158 | Without a failure: volume, files, directory, the entries and handles that lose their file, and for every open handle when it would start over at an unused cluster. Always: entry, directory, error, and which handles are set back |
| FileCreation.FileSystem.CreateFound | mfs/source/generic/mfs_create.c:95-176 | The same for the whole outcome, found or new, with the errors; access and attribute bit by bit |
| FileCreation.FileSystem.CreateFile | mfs/source/generic/mfs_create.c:56-179 | A handle comes back exactly if nothing refuses one, and each refusal has its own error and changes nothing; otherwise the outcome as above, whatever failed; access, and the attribute bit by bit |
| ElfLoading.LoadedLast | tools/ddcopy/image.py:103-118 | A loader leaves at an address the byte of the last segment that reaches it, or a zero behind its bytes |
| ElfLoading.LoadedNowhere | tools/ddcopy/image.py:103-118 | And a zero where none does |
| ElfLoading.RestMoves | tools/ddcopy/image.py:112-117 | What lies behind a segment moves down by what the file does not back of it |
| ElfLoading.LoadsIntoIff | tools/ddcopy/image.py:112-117 | One segment is laid over every buffer of a length right if and only if the file backs it fully or the buffer ends with it |
| ElfLoading.BuiltIsLoaded | tools/ddcopy/image.py:103-118 | If that holds for each segment in turn, overlapping or not, the buffer is memory as a loader leaves it (`LoadedIffOriginsAgree` is the exact condition) |
| ElfLoading.HarmlessIsLoaded | tools/ddcopy/image.py:103-118 | For segments that do not overlap, in any order, it also is if every one that is laid below bytes laid before is fully backed |
| ElfLoading.MarkIsLost | tools/ddcopy/image.py:103-118 | If one is not, a file of the same addresses and sizes shows the damage at the first byte of the segment pulled down |
| ElfLoading.LoadedIff | tools/ddcopy/image.py:103-118 | So addresses and sizes alone tell exactly whether every such file is built right, for segments that do not overlap |
| ElfLoading.BuiltByteFrom | tools/ddcopy/image.py:103-118 | Which byte of which segment each byte of the buffer is, told from addresses and sizes, for segments that may overlap |
| ElfLoading.LoadedByteFrom | tools/ddcopy/image.py:103-118 | And which one a loader leaves there |
| ElfLoading.LoadedIffOriginsAgree | tools/ddcopy/image.py:103-118 | Every file with these addresses and sizes, overlapping or not, is built right if and only if the two are the same up to the end of the last segment |
| ElfLoading.BuiltHasSize | tools/ddcopy/image.py:111-117 | The size of the buffer follows from addresses and sizes alone |
| ElfLoading.BuiltLength | tools/ddcopy/image.py:103-118 | For segments in order, the buffer ends with the bytes of the last one |
| ElfLoading.InOrderIsLoaded | tools/ddcopy/image.py:103-118 | For segments in order, the buffer holds the bytes of each at its address less the lowest, and zeros elsewhere |
| ElfLoading.OutOfOrderMoves | tools/ddcopy/image.py:103-118 | Two segments in descending order for which it does not |
| ElfLoading.LowestAddress | tools/ddcopy/image.py:105-109 | The lowest address of all segments |
| ElfLoading.Build | tools/ddcopy/image.py:103-118 | The loop builds the specified buffer, for any segments |
| Bytes.WordBytes | tools/ddcopy/image.py:183-195 | The four bytes of a word, the least significant one first |
| BootImage.FromElf | tools/ddcopy/image.py:92-120 | An application with these addresses and bytes, or the first address out of range |
| BootImage.PackWords | tools/ddcopy/image.py:183-195 | The words, readable at their offsets; fails exactly if one does not fit into 32 bits; the four bytes of each |
| BootImage.ImageVectorTable.ToBytes | tools/ddcopy/image.py:177-196 | Tag, length, version and seven words, readable at their offsets; fails exactly if a word does not fit |
| BootImage.BootDataStructure.ToBytes | tools/ddcopy/image.py:230-238 | Three words, readable at their offsets; fails exactly if one does not fit |
| BootImage.DeviceConfigData.ToBytes | tools/ddcopy/image.py:258-264 | The eight bytes of the device configuration |
| BootImage.SecondPass | tools/ddcopy/image.py:341-345 | Writing all parts again moves nothing |
| BootImage.LayoutDescribes | tools/ddcopy/image.py:295-346 | In the parts laid one after the other, the addresses they contain lead to each of them |
| BootImage.DescribedAddresses | tools/ddcopy/image.py:322-340 | Which bytes the ten words of such an image have; the length is the least multiple of 512 that holds the program and what lies in front of it |
| BootImage.Image.ToBytes | tools/ddcopy/image.py:295-346 | An image that describes the application, also when called again; fails exactly if the headers do not fit before the base, or an address or the size not into 32 bits; byte by byte for the ten words |
| BootImage.SameImageSameApplication | tools/ddcopy/image.py:295-346 | An image gives back its inputs: applications with one base and one image are the same |
| BootImage.SameApplicationSameImage | tools/ddcopy/image.py:295-346 | An application has only one image |
| BootImage.CreateImage | tools/ddcopy/image.py:272-293 | Refuses addresses out of order, and no others |
| BootImage.ActionElf | tools/ddcopy/image.py:369-382 | The file written describes the application, and holds memory as a loader leaves it behind the header whenever segments are apart and harmless, or are overlapping ones that are built right; exactly when it can be written, and the error otherwise; the ten words, byte by byte |
| BlockCopy.WrittenTwice | tools/ddcopy/ddcopy.py:286-293 | Two writes, one behind the other, are one |
| BlockCopy.ReadFile.Read | tools/ddcopy/ddcopy.py:203-236 | Delivers the next piece of what remains, of any size, and nothing only if nothing remains; how long the piece is |
| BlockCopy.ReadFile.Delivered | tools/ddcopy/ddcopy.py:203-236 | A source delivers its bytes from the start on, and no more than the size if it is read by blocks and one was given |
| BlockCopy.WriteFile.WriteBlock | tools/ddcopy/ddcopy.py:289-293 | Of all that came so far, whole blocks are in the file and less than a block waits |
| BlockCopy.WriteFile.Write | tools/ddcopy/ddcopy.py:295-299 | The same, with or without blocks |
| BlockCopy.WriteFile.WriteRemains | tools/ddcopy/ddcopy.py:275-284 | The file is the copy specified for all that came |
| BlockCopy.RemainsWritten | tools/ddcopy/ddcopy.py:275-284 | Blocks and then the padded rest are one write of everything |
| BlockCopy.CopyFile | tools/ddcopy/ddcopy.py:547-554 | The target depends on what the source delivers, not on the pieces it comes in, and is a copy of that byte by byte |
| BlockCopy.CopiedBytes | tools/ddcopy/ddcopy.py:275-299 | Every byte of the target: the source; zeros behind it up to the least multiple of the block size, as far as the old file reached; the old file elsewhere, and zeros in a gap behind its end |
| DirectoryListing.LineLayout | mfs/source/generic/dir_read.c:184-246 | At which offset each column of a mode lies, which name follows, the long one if it could be read, and the end of the line |
| DirectoryListing.Snprintf | mqx/source/fio/io_spr.c:85-106 | As much of a text as fits, and a terminator, at a place in a buffer; the whole length is returned |
| DirectoryListing.PutBehind | mfs/source/generic/dir_read.c:186-247 | Text put behind as much as fitted of the text before it is as much as fits of both |
| DirectoryListing.Append | mfs/source/generic/dir_read.c:186-247 | The same for one append, cut off or not |
| DirectoryListing.DirectoryStruct.PutColumns | mfs/source/generic/dir_read.c:184-233 | All columns of a mode, cut off once |
| DirectoryListing.DirectoryStruct.Read | mfs/source/generic/dir_read.c:158-253 | The buffer holds the first characters of the whole line and a terminator, nothing beyond its size has changed, and the length of the whole line is returned; character by character |

## Left out

- Drive.Drive.ExtendChain: after a failed load of the cache it promises a well-formed state and an error, but nothing about the table, because it goes on writing to a cache that the load may have changed (`FatCache.FailedLoadIff`). When saving the cache fails, and in the operations that only read, the table is stated.
- Drive.Drive.AddClusterToChain: the same.
- FAT32 volumes with cluster numbers above 0xFFFFFF5, which would read as marks: not modelled (`Geometry.Valid`); mounting does not exclude them.
- FileCreation.FileSystem.CreateFile: locking, the search for the entry and the making of a new one come in as parameters (`locked`, `found`); they are not part of this model.
- FileCreation.FileSystem.UpdateEntry: the directory is a map from positions to entries; that it is stored in sectors and clusters is not part of this model. When looking up the entry fails with an error, the code copies through a null pointer (`mfs/source/generic/mfs_dir_entry.c:424-434`); here nothing changes then.
- BlockDevice.Device.ReadSector: retries, multi-sector transfers and partition offsets are folded into one transfer that succeeds or fails.
- BlockDevice.Device.WriteSector: the same, and reading a sector back to verify it.
- DirectoryListing.Snprintf: formats arrive as finished text; number formatting, and sizes of 2^31 and more, which the formatter takes as negative, are left out.
- Mounting a volume: only the state it leaves is modelled, as the constructors of `Table` and `Drive`; the count and the hint that FAT32 takes from the volume are parameters.
- `MFS_Bad_clusters`, `MFS_Last_cluster` and `MFS_Get_disk_free_space`: one scan, one read and one multiplication over what is modelled.
- `MFS_Create_new_file` and `MFS_Create_temp_file`: the same steps as `MFS_Create_file` without the truncation.
- `BinaryApplication.FromBin`: the same checks as `FromElf` in another order over bytes read as they are.
- Command lines, and addresses and sizes given as text: they arrive as numbers here.
- Negative sizes and block sizes, which `ddcopy.py` accepts as text: they arrive as natural numbers.
- `ReadDevice` and `WriteDevice` of `ddcopy.py`: they rest on win32 calls that are not part of this repository.
- `mfs_attribute.c`, the flash file system, USB and the example applications: single accesses, driver glue and device input and output.
