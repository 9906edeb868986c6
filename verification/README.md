# NostaluxOS kernel: a verified model

This project models the parts of the NostaluxOS kernel that carry the most state and the most
branching, and proves what they promise, for all inputs and all runs. The model keeps the form of
the code: the file system, the page tables, the heap, the resolver cache, the DHCP client, the
datagram sender and the HTTP request are classes that change their fields; the loops over buffers
are loops over arrays; the parsers are loops proved against functions, whose own properties are
lemmas. Integer widths and wrap-around are written out where they matter.

**File system** (`Fs*.dfy`). The two-slot volume on a disk that can lose power, tear a write at any
set of sectors, report errors or fail to answer. The record table and its byte image round-trip;
a commit is crash-atomic from every trusted mount, over runs of any length and across the wrap of
the 32-bit generation; every mutation of the live volume refines a map from names to bytes and
leaves, at every crash point, a disk that mounts the old files or the new ones; boot never writes
to a disk it does not trust, moves leftovers aside without losing a byte, and tests a new volume
without risking its files; the first format and the legacy upgrade have the exact conditions under
which they are atomic.

**Memory** (`PageTree.dfy`, `Paging.dfy`, `PagingCopy.dfy`, `Heap.dfy`, `MemoryMap.dfy`). The
four-level page tables of all address spaces refine one flat map; mapping, unmapping, creation and
destruction change exactly what they should, and copies across pages are all or nothing. The heap
is canonical: its block list is a function of the set of live allocations. The sweep over the
firmware's memory map computes cardinalities of sets of addresses.

**Programs** (`Elf.dfy`, `ElfLoader.dfy`, `AppImage.dfy`). Which images are accepted, exactly; the
three independent checks of a plan agree; a launched process sees its image and a zeroed stack,
no other process sees any change, and a launch that fails leaves nothing behind.

**HTTP and URLs** (`HttpText.dfy`, `Chunked*.dfy`, `HttpHead.dfy`, `HttpResponse.dfy`,
`HttpGrammar.dfy`, `Url*.dfy`, `HttpGet.dfy`, `HttpSteps.dfy`, `HttpRequest.dfy`, `AppNetwork.dfy`,
`AppHttp.dfy`). The response
parser accepts exactly a grammar and reads exactly what it says; the in-place chunk decoder is the
decoder; path normalization is `remove_dot_segments` of section 5.2.4 of RFC 3986 and relative
references resolve as section 5.2.2 says; the asynchronous request is a state machine with safety
and progress over whole runs, and every redirect it follows goes to the RFC's target.

**Datagrams, DNS, DHCP** (`Checksum.dfy`, `Ipv4.dfy`, `Udp.dfy`, `UdpSender.dfy`, `Dns*.dfy`,
`Dhcp.dfy`). Every frame the sender hands to the link is received as the datagram that was sent, by
exactly the stations it is for; compressed names expand exactly as the message spells them; an
answer, also a negative one, rests on a chain of records and lives no longer than any of them; a
cache hit is the latest answer, before it expires; no lease is used past its end.

Where the code does not keep what one would expect, an input shows it and the exact condition is
proved:

- the first format is crash-atomic only for an empty volume: `FsCrash.FormatIsAtomicIff`, `FsCrash.TornFormat`;
- the legacy upgrade is crash-atomic from the preferred slot, or when no mixture of tables loads:
  `FsUpgrade.UpgradeIsAtomicIff`, `FsUpgrade.UpgradeCanFail`;
- a queued packet can wait forever when refused flushes outpace the ticks: `UdpSender.GoneIff`, `UdpSender.NeverDue`;
- DHCP renewal can come after rebinding: `Dhcp.RenewalBeforeRebindIff`, `Dhcp.RenewalAfterRebind`;
- a refused acknowledgement of no time costs the lease: `Dhcp.Client.Receive`, `Dhcp.Client.ReceiveThenTick`,
  `Dhcp.Client.ZeroAckExists`;
- a URL that parses can lack room for its slash: `UrlResolve.RefusedForRoom`, `UrlResolve.LongQueryIsRefused`;
- a URL that parses can have no request text, and its request starts and never completes: `HttpSteps.TextFits`,
  `HttpSteps.TextlessUrl`, `HttpRequest.TextlessStarts`, `HttpSteps.TextOrNothing`;
- DNS names with different labels can have the same text: `DnsName.LabelsReadBackIff`, `DnsName.DottedLabel`.

One comment disagrees with the code and the code is followed: kernel/heap.c:13 speaks of a 32-byte
block header, but the fields and their alignment make 48 bytes.

## Model

| member | source | states |
|---|---|---|
| `FsTable.TableRoundTrip` | kernel/fs.c:253-466 | every list of validly and uniquely named files that fits the 32 records parses back, in order and byte for byte, from the table it packs into |
| `FsTable.ParsePacked` | kernel/fs.c:363-466 | parsing from the middle of a packed table gives exactly the files packed there, in order |
| `FsTable.ParsedFilesAreValid` | kernel/fs.c:363-466 | whatever table is accepted, its files have valid, pairwise different names, legal sizes and need no more extents than the table has |
| `FsTable.AcceptedTableReserializes` | kernel/fs.c:247-466 | every accepted table re-serializes, and the new table reads as the same files |
| `FsLegacy.LegacyFilesAreValid` | kernel/fs.c:299-348 | an accepted version 1-4 table mounts validly and uniquely named files |
| `FsLegacy.LegacyTableMigrates` | kernel/fs.c:299-348 | what a legacy table mounts always fits a version 5 table, which reads as the same files |
| `FsImage.ImageRoundTrip` | kernel/fs.c:253-297 | the records read from the byte image of a table are the records it was made of |
| `FsCodec.Serialize` | kernel/fs.c:253-297 | the loops leave exactly the packed table of the live files, or fail exactly when they need too many extents |
| `FsCodec.ValidateCurrent` | kernel/fs.c:371-415 | the first pass accepts exactly the tables that parse, without touching the mounted view |
| `FsCodec.DeserializeCurrent` | kernel/fs.c:350-466 | an accepted table replaces the view by its files in order; a rejected one leaves the view as it was |
| `FsCodec.DeserializeLegacy` | kernel/fs.c:299-348 | the same for versions 1-4, with every file kept in its slot |
| `FsCodec.GatherChain` | kernel/fs.c:444-461 | the copied-out bytes are the concatenation of the chain's extents |
| `FsCodec.WriteExtents` | kernel/fs.c:264-294 | a file's head and continuation records in place, every other record unchanged |
| `FsCodec.NameSeenBefore` | kernel/fs.c:385-392 | whether an earlier head in the table has the name |
| `FsCodec.ContinuationsFollow` | kernel/fs.c:396-411 | exactly when the records after a head continue it to its size |
| `FsCodec.FillCurrent` | kernel/fs.c:417-465 | the second pass mounts the parsed files in order in the first slots |
| `FsCodec.ValidateLegacy` | kernel/fs.c:304-323 | the first pass accepts exactly the legacy tables that parse |
| `FsImage.RecordRoundTrip` | kernel/fs.c:253-297 | a record is read back from its bytes |
| `FsLegacy.LegacyChain` | kernel/fs.c:299-348 | a legacy record is a chain of one current record with the same file |
| `FsDisk.NewHeaderReads` | kernel/fs.c:165-235 | a published header reads back with its own generation and table checksum and is valid, for every checksum function |
| `FsDisk.HeaderRoundTrip` | kernel/fs.c:602-611 | a header is read back from its bytes |
| `FsDisk.HeaderSumIgnoresSeal` | kernel/fs.c:220-235 | the header checksum does not depend on itself |
| `FsDisk.NextIsNewer` | kernel/fs.c:205-208 | the successor is newer, its predecessor is not, and the two are never ambiguous, for every 32-bit generation |
| `FsDisk.InactiveTableIsIrrelevant` | kernel/fs.c:647-797 | any damage to the table of the slot that is not mounted leaves the mounted slot, generation and files what they were |
| `FsDisk.SuccessorSelected` | kernel/fs.c:205-208 | a slot whose generation follows the other's by one, modulo 2^32, is selected without ambiguity |
| `FsDisk.PublishedMounts` | kernel/fs.c:556-797 | a completed commit is what the next boot selects and trusts, for every generation including the wrap to zero and next to a legacy slot |
| `FsCrash.CommitIsCrashAtomic` | kernel/fs.c:556-640 | from a trusted mount, a power cut at any point of a commit, with any subset of the table sectors written, mounts exactly the old view or exactly the new files, and the active slot is untouched |
| `FsCrash.CrashCases` | kernel/fs.c:556-640 | a commit cut short has touched only the target's table, or is complete |
| `FsCrash.RunMountsLastCommit` | kernel/fs.c:556-797 | after any number of commits the next boot trusts exactly the last committed list, across generation wrap-around |
| `FsCrash.RunIsCrashAtomic` | kernel/fs.c:556-797 | after any run of commits, a power cut in one more leaves the last committed list or the new one |
| `FsCrash.TrustAfterCut` | kernel/fs.c:556-797 | after a power cut in a commit the next mount is trusted exactly when the commit was complete, the other header is not one that only lacks its table, or that table is still as it was |
| `FsCrash.RunWithCuts` | kernel/fs.c:556-797 | in every run that mixes commits, power cuts in commits and reboots, from a trusted disk without such a header, every mount is trusted and shows the files before the last commit or those of it |
| `FsCrash.FormatIsAtomicIff` | kernel/fs.c:1243-1256 | every crash state of a first format mounts as blank or with the new files if and only if there are no files to write |
| `FsCrash.TornFormat` | kernel/fs.c:576-636 | for any files there is a crash state of the format that mounts as corrupt |
| `FsCrash.FormatCrashCases` | kernel/fs.c:556-640 | a format cut short leaves a disk that is blank, corrupt or has the new files, and nothing else |
| `FsCrash.ImageIsZeroIff` | kernel/fs.c:253-297 | a table is all zero exactly when it holds no file |
| `FsCrash.TornIsMixture` | kernel/fs.c:576-600 | a torn table is a mixture of old and new sectors, each wholly one or the other |
| `FsUpgrade.UpgradeIsAtomicIff` | kernel/fs.c:1320-1353 | every crash state of a legacy upgrade shows the recovered files or the new ones if and only if the recovered slot is the preferred one or no mixture of the other slot's old table and the new image loads as different files |
| `FsUpgrade.PreferredUpgradeIsAtomic` | kernel/fs.c:1320-1353 | an upgrade from the preferred slot is crash-atomic |
| `FsUpgrade.BadUpgrade` | kernel/fs.c:1320-1353 | each loadable mixture is what some crash state shows |
| `FsUpgrade.UpgradeCanFail` | kernel/fs.c:1320-1353 | for every checksum function: a disk with two legacy slots, and a power cut in its upgrade after which files mount that are neither the recovered nor the new ones |
| `FsRecovery.SomeNameIsFree` | kernel/fs.c:938-1014 | of the 33 recovery names one is always free, whatever the 32 slots hold, so a leftover can always be moved |
| `FsRecovery.CandidatesDiffer` | kernel/fs.c:911-992 | the recovery names are pairwise different |
| `FsRecovery.CandidateIsValid` | kernel/fs.c:911-992 | and all valid file names |
| `FsRecovery.RenamedKeeps` | kernel/fs.c:938-1014 | moving leftovers of the self test and a physical system.log away keeps every file's bytes, every other name, distinctness and the number of extents, and leaves no leftover; without leftovers nothing changes |
| `FsRecovery.PictureAdds` | kernel/fs.c:1158-1168 | the default picture is added under its name exactly when it is missing and a slot is free, and nothing else changes |
| `FsContents.CostIsPack` | kernel/fs.c:247-297 | the extents counted slot by slot are the records of the packed table |
| `FsSelfTest.DefaultFilesOk` | kernel/fs.c:1222-1241 | the default files are valid, distinct and none is a file of the self test |
| `FsContents.ContentsChar` | kernel/fs.c:1390-1397 | the logical map of a view is exactly the names and bytes of its used slots |
| `FsContents.SetSlot` | kernel/fs.c:1399-1462 | rewriting or filling one slot changes exactly one entry of the logical map and keeps names unique |
| `FsContents.RenameSlot` | kernel/fs.c:1520-1562 | renaming a slot moves its bytes to the new name and changes no other entry |
| `FsContents.ClearSlot` | kernel/fs.c:1576-1594 | clearing a slot removes exactly its name |
| `FsContents.DistinctLive` | kernel/fs.c:867-874 | slots have distinct names exactly when the listed files do |
| `FsDrive.Drive.Write` | kernel/ata.c:149-175 | the three outcomes of a write: nothing transferred, all of it, or any subset of the sectors; every intermediate media is a crash state |
| `FsDrive.Drive.Read` | kernel/ata.c:131-147 | either the sectors as they are or a reported error |
| `FsDrive.LandSome` | kernel/ata.c:149-175 | what an unfinished write leaves: every sector the old one or the new one |
| `FsVolume.Volume.ReconcileTable` | kernel/fs.c:495-509 | match and mismatch are decided by the whole table on disk; a failed read is neither |
| `FsVolume.Volume.ReconcileSlot` | kernel/fs.c:511-522 | match means that both header and table of the slot are the expected ones |
| `FsVolume.Volume.WriteTable` | kernel/fs.c:576-600 | only the target slot's table changes, in every crash state too, and success means the whole image is there |
| `FsVolume.Volume.WriteHeader` | kernel/fs.c:602-636 | success means the header sector is the new one; otherwise the old or the new one stands |
| `FsVolume.Volume.Sync` | kernel/fs.c:556-640 | a commit fails only by the drive or for want of extents; slot and generation advance exactly on success; every crash state lies on the commit's path |
| `FsVolume.Volume.Commit` | kernel/fs.c:799-831 | true leaves a disk that mounts the new files (or a volume that has stopped writing), false one that mounts the old ones; every crash state shows one of the two; a volatile volume never writes |
| `FsVolume.SyncMeans` | kernel/fs.c:544-640 | what every way a commit can end, or be cut short, leaves for the next boot |
| `FsVolume.SyncPublishes` | kernel/fs.c:556-640 | a completed commit, also the first one, is what the next boot mounts |
| `FsVolume.Volume.CommitToDisk` | kernel/fs.c:814-830 | on a persistent volume: the new files are durable, or the volume stops writing and the old ones stand |
| `FsVolume.Volume.Replace` | kernel/fs.c:799-831 | one slot is replaced and committed, or restored; refused only by the disk or the extent budget |
| `FsVolume.Volume.FindSlot` | kernel/fs.c:867-874 | the first slot of the name, or none |
| `FsVolume.Volume.AllocateSlot` | kernel/fs.c:1016-1021 | the first free slot, or none exactly when all are used |
| `FsVolume.Volume.Locate` | kernel/fs.c:1407-1411 | the file's slot, or a free one for a new file, or none exactly when there is neither |
| `FsVolume.Volume.Touch` | kernel/fs.c:1399-1423 | creates an empty file or keeps an existing one; false leaves view and map unchanged; no other entry changes |
| `FsVolume.Volume.WriteBytes` | kernel/fs.c:1425-1462 | true means the map has exactly these bytes under the name; false means nothing changed; the refusals are exactly the stated ones |
| `FsVolume.Volume.Append` | kernel/fs.c:1479-1518 | true means the old bytes followed by the new ones; the size limit counts both |
| `FsVolume.Volume.PlanRename` | kernel/fs.c:1520-1550 | a rename is refused exactly when a name is invalid, protected, missing or taken |
| `FsVolume.Volume.Rename` | kernel/fs.c:1520-1562 | true moves the bytes to the new name; false changes nothing |
| `FsVolume.Volume.Remove` | kernel/fs.c:1576-1594 | true removes exactly that name; false changes nothing |
| `FsVolume.Volume.LoadSlotInto` | kernel/fs.c:468-493 | a slot is mounted exactly as its image reads, or the view is left alone |
| `FsVolume.Volume.CompareTables` | kernel/fs.c:524-542 | decides whether the two tables on disk are equal |
| `FsVolume.Volume.ReadHeader` | kernel/fs.c:663-671 | the header as it lies on disk, whether it is valid and whether it is stray; an error only for a failed read |
| `FsVolume.Volume.ScanSlots` | kernel/fs.c:658-741 | without an I/O error, exactly what both headers and tables on disk say |
| `FsVolume.Volume.TrySlot` | kernel/fs.c:743-773 | a valid slot is mounted exactly when it loads, and otherwise the view is left alone |
| `FsVolume.Volume.Load` | kernel/fs.c:647-797 | whatever reads fail, a result without an I/O error is the fault-free mount of the media, and nothing is written |
| `FsVolume.Volume.Adopt` | kernel/fs.c:1128-1214 | the volume becomes persistent only on a trusted mount; a trusted older version and a trusted disk with leftovers are rewritten tidied, no other disk is written, and every crash state shows the files before or after |
| `FsVolume.Volume.Boot` | kernel/fs.c:1125-1271 | boot writes only to blank disks, trusted older ones and trusted ones with leftovers; a loaded volume has its files, with leftovers renamed and the picture added, in every crash state too; a blank disk without faults ends with exactly the default files, and no crash state shows anything else |
| `FsVolume.Volume.Format` | kernel/fs.c:1243-1256 | persistent exactly when the first commit succeeded, refused only by the drive; every crash state, and the disk after a failure, is blank, corrupt or has the seeded files, and without files to write never corrupt |
| `FsVolume.Volume.Seed` | kernel/fs.c:1222-1241 | the default files, and nothing else |
| `FsVolume.Volume.UpgradeLegacy` | kernel/fs.c:1320-1353 | only an available and confirmed upgrade writes; success is a persistent volume, failure only the drive's; when the recovered slot is preferred or no mixture loads, every crash state and every end shows the recovered files or the new ones |
| `FsVolume.Volume.PerformUpgrade` | kernel/fs.c:1333-1352 | persistent on success; any other end is the drive's and leaves the backend as it was; the same crash states |
| `FsVolume.FormatMeans` | kernel/fs.c:1243-1256 | what every way a first commit can end, or be cut short, leaves for the next boot |
| `FsVolume.UpgradeMeans` | kernel/fs.c:1320-1353 | the same for an upgrade |
| `FsVolume.Volume.Quarantine` | kernel/fs.c:938-958 | every leftover of the self test under the first free recovery name; a name is always found |
| `FsVolume.Volume.QuarantineLog` | kernel/fs.c:994-1014 | a physical system.log under the first free recovery name |
| `FsVolume.Volume.AddPicture` | kernel/fs.c:1158-1168 | the picture in the first free slot, unless it is there already or all are taken |
| `FsVolume.Volume.Tidy` | kernel/fs.c:1148-1168 | all edits of boot at once; the result is valid and fits the table; nothing changes without leftovers on a current volume |
| `FsVolume.Volume.Reload` | kernel/fs.c:1605-1624 | the view the disk shows, if it is trusted; without a fault the files are what they were |
| `FsVolume.Volume.TestWrite` | kernel/fs.c:1639-1655 | the file of the self test is written and survives a reload; any failure ends the test, with the default files on disk in every crash state |
| `FsVolume.Volume.TestRename` | kernel/fs.c:1657-1677 | the same for its renaming |
| `FsVolume.Volume.TestRemove` | kernel/fs.c:1679-1692 | the same for its removal |
| `FsVolume.Volume.SelfTest` | kernel/fs.c:1633-1696 | on a new volume, whatever fails and whenever power goes, the disk shows the default files with nothing beside them but a file of the test; without a fault the test passes and leaves exactly the default files |
| `PageTree.WalkRefinesFlat` | kernel/paging.c:620-664 | the four-level walk and the flat page map agree on every user page of every space |
| `PageTree.LeafSlotIsNode` | kernel/paging.c:510-543 | the walk to the last table finds exactly the table of the tree |
| `PageTree.FramesAreDistinct` | kernel/paging.c:321-344 | no two mapped pages, in one space or in two, share a frame |
| `PageTree.AddTableKeepsFlat` | kernel/paging.c:428-446 | linking a new table changes no mapping of any space |
| `PageTree.AddLeafExtendsFlat` | kernel/paging.c:448-482 | linking a page adds exactly that mapping |
| `PageTree.RemoveLeafShrinksFlat` | kernel/paging.c:600-615 | clearing a leaf removes exactly that mapping |
| `PageTree.RemoveSpaceKeepsOthers` | kernel/paging.c:407-426 | destroying a space leaves every mapping of the others |
| `Paging.MappedIsListed` | kernel/paging.c:545-560 | every mapped page is on its space's ownership list (which has no repetitions) |
| `Paging.Machine.Link` | kernel/paging.c:321-344 | a zeroed, owned, present page, with the tree invariant kept and nothing else changed |
| `Paging.Machine.EnsureTable` | kernel/paging.c:428-446 | the next table exists or memory was refused; no mapping changes; an existing entry is already as required |
| `Paging.Machine.EnsurePath` | kernel/paging.c:458-469 | all tables down to the last, or memory was refused; no mapping changes |
| `Paging.Machine.MapPage` | kernel/paging.c:448-482 | exactly one fresh zeroed page with the asked rights, or no mapping changed and the page was mapped or memory refused |
| `Paging.Machine.MapAnonymous` | kernel/paging.c:484-508 | the whole range as fresh zeroed pages, or the flat map is what it was; refused only for a bad range, a mapped page or want of memory |
| `Paging.Machine.Undo` | kernel/paging.c:496-505 | the rollback cannot fail and restores the flat map |
| `Paging.Machine.RangeOwned` | kernel/paging.c:577-590 | true exactly when every page of the range is mapped and owned |
| `Paging.Machine.PageOwned` | kernel/paging.c:579-589 | true exactly when the page is mapped; the ownership search then cannot fail |
| `Paging.Machine.UnmapRange` | kernel/paging.c:598-616 | exactly the pages of the range go, with their frames and list entries |
| `Paging.Machine.UnmapAnonymous` | kernel/paging.c:562-618 | succeeds exactly when every page of a valid range is mapped, and then removes exactly those; otherwise nothing changes |
| `Paging.Machine.UnmapPage` | kernel/paging.c:600-615 | one leaf, its frame and its list entry go, nothing else |
| `Paging.Machine.FindAllocation` | kernel/paging.c:545-560 | the first list entry of the frame |
| `Paging.Machine.Create` | kernel/paging.c:353-383 | a space that maps no user page and shares every kernel entry; refused only for used reserved slots or want of memory, and then nothing changes |
| `Paging.Machine.Destroy` | kernel/paging.c:407-426 | exactly the pages of the space are released; other spaces keep mappings and bytes |
| `PagingCopy.Translate` | kernel/paging.c:620-664 | a frame exactly when the address is mapped with the needed right, and then the one of the flat map |
| `PagingCopy.RangeMapped` | kernel/paging.c:666-688 | true exactly when every byte of the range is accessible |
| `PagingCopy.Chunk` | kernel/paging.c:713-715 | a piece never leaves its page and is never empty |
| `PagingCopy.CopyToUser` | kernel/paging.c:690-737 | all bytes or none; every byte of every space outside the range is unchanged; the second walk cannot fail |
| `PagingCopy.CopyFromUser` | kernel/paging.c:739-765 | succeeds exactly when every byte is accessible, and gives exactly the bytes the process sees |
| `PagingCopy.CopyRoundTrip` | kernel/paging.c:690-765 | what was copied in is what is copied out |
| `Heap.Canonical` | kernel/heap.c:57-143 | two heaps over one region with the same blocks in use are the same list, whatever calls led to them; so freeing in any order, or freeing what was just allocated, restores the list |
| `Heap.AllFreedIsFresh` | kernel/heap.c:24-143 | with nothing allocated the heap is the single block of its initialisation |
| `Heap.FitIffRoom` | kernel/heap.c:57-92 | a free block fits a request exactly when any stretch of the region free of allocations could hold it |
| `Heap.LiveAreDisjoint` | kernel/heap.c:57-143 | payloads are 16-byte aligned, inside the heap and pairwise disjoint |
| `Heap.Conservation` | kernel/heap.c:145-157 | free, used and header bytes always add up to the region |
| `Heap.PagesAreDisjoint` | kernel/paging.c:321-338 | the aligned pages cut out of two 8192-byte allocations lie inside them and are disjoint |
| `Heap.Allocator.constructor` | kernel/heap.c:24-55 | one free block over the aligned region, or no heap exactly when it is too small |
| `Heap.Allocator.Malloc` | kernel/heap.c:57-92 | null exactly when the size is zero or overflows, there is no heap, or no room; otherwise one new allocation of at least the size, accounted for, and all others kept |
| `Heap.Allocator.FirstFit` | kernel/heap.c:68-88 | the first block that fits |
| `Heap.Allocator.Take` | kernel/heap.c:70-86 | the block is split or taken whole, the tiling and the no-adjacent-free invariant kept |
| `Heap.Allocator.Free` | kernel/heap.c:94-143 | exactly the allocation with this payload goes; an invalid or repeated free changes nothing; the accounting-recovery branch is dead |
| `Heap.Allocator.FindBlock` | kernel/heap.c:104-111 | the block with exactly this payload, if any |
| `Heap.Allocator.MergePass` | kernel/heap.c:133-142 | afterwards no two neighbours are free and the allocations are the same |
| `Heap.Allocator.MergeNext` | kernel/heap.c:127-131 | merging a free block with its free successor keeps the tiling and the allocations |
| `Heap.Allocator.FreeSpace` | kernel/heap.c:145-153 | the free payload bytes, which with used bytes and headers make up the region |
| `MemoryMap.DetectMemory` | kernel/memtest.c:43-172 | for every map, sorted or not, overlapping or not: the totals are the numbers of addresses covered by a usable and by no other entry, whole and clipped, and the heap limit ends the maximal usable run from 8 MiB up to 1 GiB; false exactly for an invalid map or no usable address |
| `MemoryMap.Sweep` | kernel/memtest.c:107-165 | the totals over the gaps equal the pointwise counts, and no addition saturates |
| `MemoryMap.GapIsUniform` | kernel/memtest.c:110-135 | between two neighbouring end points an address is usable exactly when the overlap flags say so |
| `MemoryMap.SaturationIsHarmless` | kernel/memtest.c:17-22 | below the last address the saturated range end covers the same addresses |
| `MemoryMap.CountIsCardinality` | kernel/memtest.c:137-145 | the counts are cardinalities of sets of addresses |
| `MemoryMap.Collect` | kernel/memtest.c:72-82 | both borders of every enabled range are among the end points |
| `MemoryMap.Sort` | kernel/memtest.c:89-97 | sorted, and the same multiset |
| `MemoryMap.Insert` | kernel/memtest.c:89-97 | one value inserted into the sorted prefix, the rest unchanged |
| `MemoryMap.Dedupe` | kernel/memtest.c:99-105 | the sorted list without repetitions, in place |
| `MemoryMap.DedupedIncreases` | kernel/memtest.c:99-105 | without repetitions a sorted list strictly increases |
| `MemoryMap.ClassifyGap` | kernel/memtest.c:113-135 | usable exactly when some usable and no reserved entry overlaps the gap |
| `HttpText.FindCrlf` | kernel/http_client.c:201-213 | the first line end in the range, or none |
| `HttpText.SkipBlanks` | kernel/http_client.c:356-365 | the first byte that is neither blank nor tab |
| `HttpText.SkipToken` | kernel/http_client.c:367-389 | the end of the token |
| `HttpText.SkipQuoted` | kernel/http_client.c:391-433 | the byte after the closing quote of a well-formed quoted string |
| `HttpText.ParseHeaderView` | kernel/http_client.c:310-354 | a token, a colon and a trimmed printable value, or nothing |
| `HttpText.HeaderLineIsPrintable` | kernel/http_client.c:310-354 | an accepted header line holds no control byte but tab |
| `Chunked.ParseSizeLine` | kernel/http_client.c:673-702 | the hexadecimal number of the leading digits, if it fits 64 bits and the extensions are well formed |
| `Chunked.ValidateExtensions` | kernel/http_client.c:624-671 | accepts exactly the extension lists of the grammar function |
| `Chunked.SizeLineIsPrintable` | kernel/http_client.c:624-702 | an accepted size line holds no control byte but tab, so it cannot hide a line end |
| `Chunked.ValidateTrailers` | kernel/http_client.c:762-819 | the end of the trailer section, or the code's error |
| `ChunkedGrammar.TrailerIff` | kernel/http_client.c:762-819 | trailers are accepted exactly when they are allowed header lines and an empty line within 8192 bytes |
| `ChunkedGrammar.DecodeIff` | kernel/http_client.c:821-904 | the decoder accepts exactly the bodies of the grammar within the framing limit and reads exactly the concatenation of their data |
| `ChunkedGrammar.WellFormedDecodes` | kernel/http_client.c:821-904 | every well-formed body decodes to its data |
| `ChunkedGrammar.DecodedIsWellFormed` | kernel/http_client.c:821-904 | every body that decodes is well formed |
| `ChunkedGrammar.EncodeDecode` | kernel/http_client.c:673-904 | decoding undoes plain chunking of any pieces whose framing fits |
| `ChunkedGrammar.EncodedLengthBound` | kernel/http_client.c:762-904 | an accepted body is at most 16384 + 8192 bytes longer than its payload |
| `ChunkedWalk.Walk` | kernel/http_client.c:821-904 | either pass returns the decoder's result on the original bytes; the compacting pass leaves the payload at the front and everything after it unchanged |
| `ChunkedWalk.CopyDown` | kernel/http_client.c:895-900 | a forward copy to a lower address moves the original bytes |
| `ChunkedWalk.FindLineEnd` | kernel/http_client.c:704-735 | the end of a size line within 1024 bytes, or the code's error |
| `ChunkedWalk.ReadTurn` | kernel/http_client.c:830-894 | what one round of the loop reads |
| `ChunkedWalk.TurnDecodes` | kernel/http_client.c:830-903 | the decoder is that round followed by the rest |
| `ChunkedWalk.DecodeBody` | kernel/http_client.c:906-930 | the payload in place, or the error and an untouched buffer; the second pass can neither fail nor disagree |
| `HttpHead.ParseContentLength` | kernel/http_client.c:232-257 | the decimal number, if it is one and fits 64 bits |
| `HttpHead.ParseTransferEncoding` | kernel/http_client.c:459-540 | the codings of the list added to those seen, or refusal |
| `HttpHead.CodingsStayOk` | kernel/http_client.c:459-540 | chunked and identity never together, and identity never with another coding |
| `HttpHead.ParseFields` | kernel/http_client.c:1101-1136 | all field lines of a block, none empty, one after the other |
| `HttpHead.FieldsFromOk` | kernel/http_client.c:542-606 | over all fields of a head a transfer coding is recorded exactly when one was seen, and the codings stay legal |
| `HttpResponse.ParseStatus` | kernel/http_client.c:1034-1078 | the three-digit status of an HTTP/1.0 or 1.1 line, or the code's error |
| `HttpResponse.FindSeparator` | kernel/http_client.c:215-230 | the first empty line |
| `HttpResponse.CheckUri` | kernel/http_client.c:978-1001 | exactly the non-empty texts of URI bytes and whole percent escapes |
| `HttpResponse.ParseHead` | kernel/http_client.c:1003-1157 | the head at a position; its body starts within the first 8192 bytes |
| `HttpResponse.ParseFinalHead` | kernel/http_client.c:1236-1269 | the final head after at most eight informational ones |
| `HttpResponse.ParseResponse` | kernel/http_client.c:1212-1302 | head and decoded body of the original bytes, the body in place; a rejected response leaves the buffer unmodified |
| `HttpResponse.FramingIsUnambiguous` | kernel/http_client.c:1138-1299 | an accepted response is never both chunked and of stated length, names chunked or identity but not both when it names a coding, has exactly the stated length, and unless chunked has no byte outside head and body |
| `HttpResponse.FinalHeadOk` | kernel/http_client.c:1138-1145 | a final head never has both framings or an unknown coding |
| `HttpGrammar.HeadIff` | kernel/http_client.c:1003-1157 | a head is accepted exactly when it is a status line, field lines and an empty line within 8192 bytes that are legal one after the other and together, and it is read as what they say |
| `HttpGrammar.ResponseIff` | kernel/http_client.c:1212-1302 | the parser accepts exactly the responses of the grammar (at most eight informational heads, a final head, a body it frames) and reads exactly what they say |
| `HttpGrammar.FieldRoundTrip` | kernel/http_client.c:310-354 | a field line written from a token and a trimmed printable value is read back as both |
| `HttpGrammar.DecimalRoundTrip` | kernel/http_client.c:232-257 | the decimal text of a number reads as that number |
| `HttpGrammar.PlainResponse` | kernel/http_client.c:1212-1302 | every body sent with its length arrives byte for byte |
| `HttpResponse.ResponseFitsBuffer` | kernel/network.c:17-19 | every accepted response whose body fits the capacity fits the capacity plus the allowance |
| `UrlPath.RulesOnSegment` | kernel/network.c:721-775 | the rules of section 5.2.4 of RFC 3986, read one segment at a time |
| `UrlPath.ResultIsDotFree` | kernel/network.c:688-775 | the result is rooted, has no dot segment and is no longer than the input |
| `UrlPath.DotFreeIsFixed` | kernel/network.c:721-775 | a path without dot segments, empty segments included, is left as it is |
| `UrlPath.NormalizedShape` | kernel/network.c:693-781 | authority and query are unchanged, the path is rooted and free of dot segments, the result fits the buffer |
| `UrlPath.NormalizeIsIdempotent` | kernel/network.c:693-781 | normalizing twice is normalizing once |
| `UrlNormalize.Normalize` | kernel/network.c:693-781 | the loop over the fixed buffer computes exactly remove_dot_segments of RFC 3986 on the path |
| `UrlNormalize.FindPath` | kernel/network.c:699-704 | the end of the authority |
| `UrlNormalize.FindQuery` | kernel/network.c:707-712 | the end of the path |
| `UrlNormalize.Rebuild` | kernel/network.c:715-780 | authority, new path and query in the fixed buffer, refused exactly when a needed slash has no room |
| `UrlNormalize.BuildPath` | kernel/network.c:721-775 | the built path is remove_dot_segments of the path, and never outgrows what was read |
| `UrlNormalize.Retreat` | kernel/network.c:746-756 | the walk back drops exactly the last segment and its slash |
| `UrlNormalize.Segment` | kernel/network.c:738-770 | one segment, as the RFC's rules treat it |
| `UrlResolve.ParseUrl` | kernel/network.c:540-638 | accepts exactly the URLs with a host, an optional port of 1 to 65535 and visible bytes |
| `UrlResolve.CheckAuthority` | kernel/network.c:550-601 | a host, or a host, one colon and a port, of allowed bytes and within the capacities |
| `UrlResolve.CheckPort` | kernel/network.c:579-594 | exactly the decimal numbers from 1 to 65535 |
| `UrlResolve.CheckScheme` | kernel/network.c:655-675 | exactly the references that start with a scheme |
| `UrlResolve.DirectoryLength` | kernel/network.c:853-858 | the base path up to its last slash |
| `UrlResolve.Append` | kernel/network.c:822-868 | the merged reference, assembled in order |
| `UrlResolve.NormalParses` | kernel/network.c:540-781 | a URL that parses still parses without its fragment and in normal form, so the fetched URL never fails to parse again |
| `UrlResolve.RefusedForRoom` | kernel/network.c:715-780 | a URL that parses is refused for want of room if and only if it has no path and fills the buffer up to its fragment |
| `UrlResolve.LongQueryIsRefused` | kernel/network.c:715-780 | such a URL: a host and a query, 511 bytes |
| `UrlResolve.TargetIsRfc` | kernel/network.c:783-875 | from a normal URL without fragment, every accepted redirect leads to the target of section 5.2.2 of RFC 3986, again without a fragment |
| `UrlResolve.BuildTarget` | kernel/network.c:783-870 | the normalized absolute URL of a reference, or the refusal |
| `UrlResolve.ResolveRedirect` | kernel/network.c:783-875 | an accepted target is normal, parses and is the one the reference stands for |
| `UrlResolve.RelativeResolves` | kernel/network.c:815-870 | for every normal base, a relative reference resolves as section 5.2.2 of RFC 3986 says |
| `UrlResolve.NormalUrlIsBase` | kernel/network.c:783-875 | a normal URL without fragment, as every URL the machine fetches is, is such a base |
| `HttpSteps.DrivenOk` | kernel/network.c:1240-1340 | whatever the environment answers, a call of the driver keeps the request well formed: a normal, parsable URL without fragment, pairwise different visited URLs one more than the redirects, a piece to send that is a segment or the rest, resolver and connection only in their states, success only when complete; the URL changes only by a redirect received in that call, to where its Location leads |
| `HttpSteps.RunOk` | kernel/network.c:1240-1340 | so does every run of calls; no request follows more than five redirects or fetches a URL twice |
| `HttpSteps.RunEnds` | kernel/network.c:964-969 | every request ends: one call at or after the time out is enough |
| `HttpSteps.FinishedStays` | kernel/network.c:1240-1243 | a finished request does not move, in any run |
| `HttpSteps.CompletedWasReceived` | kernel/network.c:1113-1207 | a run that completes read its body, offset and status from a response that was received and parsed, and that is not a redirect to follow |
| `HttpSteps.RunCompletes` | kernel/network.c:983-1340 | when device, stack and server cooperate, every running request whose URL has a request text completes within six calls |
| `HttpSteps.RunFollows` | kernel/network.c:1113-1207 | in every run each URL but the first was fetched in a call that received a redirect for the one before, and is where the Location of that very response leads: a relative reference to the target of section 5.2.2 of RFC 3986 |
| `HttpSteps.TextFits` | kernel/network.c:1061-1077 | the request text of every URL that parses fits its 1024 bytes; there is none exactly when host or path has a byte from 127 up |
| `HttpSteps.TextlessUrl` | kernel/network.c:540-638 | such a URL parses and is in normal form: a host and a path with a byte of 128 |
| `HttpRequest.TextlessStarts` | kernel/network.c:1349-1432 | a request for it is started, within any limits |
| `HttpSteps.TextOrNothing` | kernel/network.c:1029-1340 | over any run of a new request: if its URL has a text, so has every URL it is redirected to; if not, nothing is ever sent, no other URL is fetched and the request never completes |
| `HttpSteps.TextlessFails` | kernel/network.c:1061-1077 | when all else goes well, a request without a text fails as an invalid argument in its third call at the latest |
| `HttpResponse.RedirectTargetIsAscii` | kernel/http_client.c:978-1001 | the Location of an accepted redirect is a URI reference and has no byte from 127 up |
| `HttpGet.BuildGet` | kernel/http_client.c:138-199 | the request text in the buffer, or the reason: host, path or room |
| `HttpGet.GetIsUnambiguous` | kernel/http_client.c:101-199 | a request text determines host and path: nothing in them can end a line or a field early |
| `HttpGet.AppendText` | kernel/http_client.c:66-99 | all of the text after what is there, or nothing |
| `HttpSteps.FailOk` | kernel/network.c:939-962 | a failed request never reports success and holds neither resolver nor connection |
| `HttpSteps.BeginConnectOk` | kernel/network.c:983-1027 | a connection attempt starts with nothing sent, or fails |
| `HttpSteps.BeginResolutionOk` | kernel/network.c:1029-1059 | resolving starts afresh for the current URL, or fails |
| `HttpSteps.BeginSendOk` | kernel/network.c:1061-1111 | sending never passes the end of the request, and every piece is a whole segment or the rest |
| `HttpSteps.VisitedMore` | kernel/network.c:1155-1178 | the visited URLs stay one more than the redirects, pairwise different and normal |
| `HttpRequest.Requests.Start` | kernel/network.c:1349-1432 | succeeds exactly when the limits hold, the URL parses and does not lack room for its slash, the device is up, memory is there, and nothing is busy or allocated, and otherwise gives the first failing check's error; then the request is fresh under a non-zero handle; a refused start changes nothing |
| `HttpRequest.Requests.Drive` | kernel/network.c:1240-1340 | performs exactly one step of the pure machine on the shared request, with the busy flag following; a complete request has exactly the decoded body |
| `HttpRequest.Requests.DriveReceiving` | kernel/network.c:1209-1238 | the peer closes, then this side, then the response is read, or the code's error |
| `HttpRequest.Requests.ParseCompleted` | kernel/network.c:1113-1207 | fails, follows one redirect, or completes with exactly the decoded body in place |
| `HttpRequest.Redirected` | kernel/network.c:1130-1186 | a redirect is followed exactly when the limit allows it and its target resolves and was not visited; the capacity test never fails |
| `HttpRequest.WasVisited` | kernel/network.c:971-981 | true exactly for a URL in the list |
| `HttpRequest.Requests.NextHandle` | kernel/network.c:1342-1347 | the counter, never zero, and the next one differs |
| `HttpRequest.Requests.Read` | kernel/network.c:1467-1506 | exactly the asked-for part of the decoded body, only of a complete request and only for its handle, and otherwise the reason |
| `HttpRequest.Requests.Cancel` | kernel/network.c:1508-1522 | its own handle only; an active request becomes canceled and gives up the busy flag, a finished one is left alone |
| `HttpRequest.Requests.Close` | kernel/network.c:1524-1537 | its own handle only; afterwards nothing is allocated and the busy flag is the synchronous operations' own |
| `HttpRequest.Requests.BeginOperation` | kernel/network.c:471-480 | a synchronous operation gets the busy flag exactly when nothing holds it |
| `AppNetwork.Services.Start` | kernel/app_network_services.c:179-271 | for every backend failure: a handle exactly when the caller may, nobody owns the request, the arguments are good and the backend does not fail; an owned request is left alone; no backend handle is lost |
| `AppNetwork.Services.RetryCleanup` | kernel/app_network_services.c:49-57 | a pending cleanup is finished, or kept because the backend failed |
| `AppNetwork.Services.Retire` | kernel/app_network_services.c:59-69 | the process loses the request at once; the backend handle is closed or kept for cleanup |
| `AppNetwork.Services.Find` | kernel/app_network_services.c:71-79 | the backend handle exactly for the owner with its own handle |
| `AppNetwork.TakeHandle` | kernel/app_network_services.c:81-93 | positive, and not the one given out before |
| `AppNetwork.Services.Cancel` | kernel/app_network_services.c:388-402 | done exactly for the owner with its own handle when the backend does not fail, and otherwise the code's error |
| `AppNetwork.Services.Close` | kernel/app_network_services.c:404-421 | the same, and the record is kept until the backend has closed it |
| `AppNetwork.Services.ReleaseProcess` | kernel/app_network_services.c:461-467 | afterwards the process owns nothing and nobody else's request changed |
| `AppHttp.AppRequests.Start` | kernel/app_network_services.c:179-271 | over the real request: a handle exactly when the process may, nothing is taken, the arguments are within the limits and the request starts, and otherwise exactly the code's error with nothing changed; no failed start leaves a handle behind |
| `AppHttp.AppRequests.Retire` | kernel/app_network_services.c:59-69 | cancel and close cannot fail, so no cleanup is ever pending |
| `AppHttp.AppRequests.RetryCleanup` | kernel/app_network_services.c:49-57 | there is never anything to retry |
| `AppHttp.AppRequests.Read` | kernel/app_network_services.c:331-386 | the owner of a complete request gets exactly the asked-for part of the decoded body, and otherwise exactly the code's error |
| `AppHttp.AppRequests.Cancel` | kernel/app_network_services.c:388-402 | the owner's cancel cannot fail and frees the busy flag |
| `AppHttp.AppRequests.Close` | kernel/app_network_services.c:404-421 | the owner's close cannot fail; afterwards nothing is allocated |
| `AppHttp.AppRequests.ReleaseProcess` | kernel/app_network_services.c:461-467 | the request of a process that is gone is gone, every other is kept |
| `Checksum.Folded` | kernel/net.c:161-164 | folding keeps the residue modulo 65535 and is zero only for zero |
| `Checksum.ChecksumVerifies` | kernel/net.c:151-168 | a sum with its own checksum verifies, and so does one where zero was replaced by all ones |
| `Checksum.AddWords` | kernel/net.c:151-159 | the exact word sum while it fits 32 bits, odd last byte included |
| `Checksum.FinishSum` | kernel/net.c:161-164 | the complement of the folded sum |
| `Checksum.InternetChecksum` | kernel/net.c:166-168 | the checksum of any text of up to 65536 bytes |
| `Udp.UdpArrives` | kernel/net.c:522-558 | every datagram of any length passes the receiver's checks and yields the same ports and data |
| `Udp.IpHeaderVerifies` | kernel/net.c:436-449 | every header that is written sums to zero |
| `Udp.UdpVerifies` | kernel/net.c:541-551 | so does every datagram with its pseudo header, and its checksum field is never zero |
| `Udp.PacketArrives` | kernel/net.c:427-457 | every packet passes the receiver's header checks and yields the same payload, whatever padding follows |
| `Udp.FrameArrives` | kernel/net.c:1806-1941 | a whole frame is received as the datagram that was sent exactly when frame and packet are for the station: its address, its subnet, everyone, or the DHCP client of a station without an address; otherwise nothing is received |
| `UdpSender.DeliveryArrives` | kernel/net.c:427-558 | every frame a sender hands to the link is received as the logged datagram by the stations it is for, and by no other |
| `UdpSender.Sender.SendWithMac` | kernel/net.c:427-457 | the frame on the link carries exactly the datagram, whether its payload was in the transmit buffer already or elsewhere |
| `UdpSender.Sender.WriteHeaders` | kernel/net.c:436-449 | Ethernet and IPv4 headers with a valid checksum, and the bytes behind them untouched |
| `UdpSender.Sender.SendFromFrame` | kernel/net.c:480-520 | sent at once, queued with a copy taken before the ARP question overwrites the buffer, or refused with nothing changed, as the route and the link decide and nothing else |
| `UdpSender.Sender.Send` | kernel/net.c:530-558 | every sendable datagram is sent or queued exactly as its route says, unless the link turns it down or another packet waits |
| `UdpSender.Sender.WriteUdp` | kernel/net.c:541-551 | the datagram in the transmit buffer, with its checksum, never zero |
| `UdpSender.Sender.Flush` | kernel/net.c:459-478 | succeeds exactly when nothing waits or the next hop is known and the link takes the frame; then the waiting datagram is sent once, to that station |
| `UdpSender.Sender.Tick` | kernel/net.c:1943-1969 | the waiting packet advances as the retry rules say, and the run it has been through grows by this tick; it is dropped unsent only after three questions or three attempts |
| `UdpSender.Sender.Learn` | kernel/net.c:299-325 | a usable address is learned, the waiting datagram goes out exactly when its next hop is known and the link takes it, and the run it has been through grows by this flush |
| `UdpSender.Sender.Configure` | kernel/net.c:2109-2123 | another network drops the waiting packet and the known stations; the same one keeps both |
| `UdpSender.WaitingEnds` | kernel/net.c:459-478 | no packet outlives more due ticks than it has questions and offers left, whatever the cache and the link do and however many received packets flush it in between (below 2^32 refusals) |
| `UdpSender.GoneIff` | kernel/net.c:1943-1969 | over every run of ticks and flushes a packet stops waiting exactly when the link takes it, or a tick finds it due with three questions asked or three offers refused, the offers counted modulo 2^32 |
| `UdpSender.StillWaiting` | kernel/net.c:459-478 | a packet that still waits is the one queued, with its clock and counts as the run makes them |
| `UdpSender.SlowTicksAreDue` | kernel/net.c:1943-1969 | when ticks are a second apart every tick is due, whatever flushes lie between them |
| `UdpSender.NeverDue` | kernel/net.c:459-478 | with ticks half a second apart and a refused flush before each, a packet waits through any number of rounds |
| `UdpSender.TransportChecksum` | kernel/net.c:170-183 | the checksum over pseudo header and datagram |
| `DnsName.ValidateName` | kernel/net.c:960-986 | exactly the names of up to 253 bytes whose labels have 1 to 63 allowed bytes, a root dot removed |
| `DnsName.EncodeName` | kernel/net.c:988-1013 | the length-prefixed labels and a zero, or nothing exactly when they do not fit |
| `DnsName.WireFits` | kernel/net.c:1015-1032 | a valid name always fits the query buffer |
| `DnsName.ExpandName` | kernel/net.c:1127-1172 | the expansion of arbitrary bytes ends within the hop bound and never exceeds 253 bytes |
| `DnsName.ExpandIff` | kernel/net.c:1127-1172 | a name is returned exactly when the message spells it in at most 129 steps within the limits, with the right next offset |
| `DnsName.LabelsReadBackIff` | kernel/net.c:1155-1166 | the text of a name gives back its labels exactly when none of them holds a dot |
| `DnsName.TextDeterminesLabels` | kernel/net.c:1127-1172 | names that expand to the same text, in one message or two, have the same labels when no label holds a dot |
| `DnsName.DottedLabel` | kernel/net.c:1155-1166 | one label with a dot and two labels expand to the same text |
| `DnsName.SpelledExpands` | kernel/net.c:1127-1172 | what is spelled within the limits expands |
| `DnsName.ExpandedIsSpelled` | kernel/net.c:1127-1172 | what expands is spelled within the limits |
| `DnsName.AcceptsWhole` | kernel/net.c:960-986 | the byte-by-byte check accepts exactly the legal lists of labels |
| `DnsName.EncodeExpand` | kernel/net.c:988-1172 | an encoded name expands to itself anywhere in a message, ending after its encoding |
| `DnsName.PointerExpand` | kernel/net.c:1139-1152 | so does a pointer to it, ending after the pointer |
| `DnsName.CycleIsRefused` | kernel/net.c:1137-1150 | a pointer to itself is refused |
| `DnsAnswer.ReadRecord` | kernel/net.c:1186-1208 | a record within the message, or none |
| `DnsAnswer.LookUp` | kernel/net.c:1262-1304 | one pass over the records of the message |
| `DnsAnswer.ChaseIsChained` | kernel/net.c:1243-1340 | the chain, from any name and any number of aliases on |
| `DnsAnswer.LookWireIsLook` | kernel/net.c:1262-1312 | the inner loop is a search of the record list; one unreadable record makes the answer malformed |
| `DnsAnswer.LookFromDescribes` | kernel/net.c:1262-1312 | what one pass finds: the first usable address and the least time to live of all of them, or the alias |
| `DnsAnswer.InOrderIff` | kernel/net.c:1262-1304 | a pass fails exactly when a record of the name is malformed, anything follows an alias, or an alias follows a usable address |
| `DnsAnswer.FindAddress` | kernel/net.c:1243-1340 | the nested loops compute the chase over the record list |
| `DnsAnswer.AnswerIsChained` | kernel/net.c:1243-1340 | every answer rests on a chain of at most eight aliases from the query: an address is the first usable one at its end, with the least time to live of chain and addresses; not-found is a dead end, with the chain's least; malformed is records out of order, an alias of itself or one alias too many |
| `DnsCache.Cache.Store` | kernel/net.c:1088-1125 | at most one entry changes; a valid one of another name is given up only when all are valid and it is least recently used; the drop case is exact |
| `DnsCache.Cache.Query` | kernel/net.c:1511-1540 | a hit repeats the latest store for the name, strictly before its expiry, and happens exactly when a live entry has the name, which then counts as just used |
| `DnsCache.Cache.Find` | kernel/net.c:1079-1086 | the only valid entry of the name, in any case |
| `DnsCache.Cache.Select` | kernel/net.c:1095-1112 | a free slot, else a least recently used one |
| `DnsCache.Cache.Expire` | kernel/net.c:1069-1077 | exactly the expired entries become invalid |
| `DnsCache.Remaining` | kernel/net.c:1060-1067 | rounded up, and zero exactly at or after expiry |
| `DnsCache.WriteOk` | kernel/net.c:1088-1125 | a store keeps one entry per name and every entry current |
| `DnsCache.DropOk` | kernel/net.c:1112-1112 | an answer that finds no slot leaves no stale entry of its name behind |
| `DnsCache.NamedOnce` | kernel/net.c:1079-1086 | no name has two valid entries, in whatever case |
| `DnsCache.Cache.Clear` | kernel/net.c:1609-1612 | nothing is cached |
| `DnsCache.Cache.Tick` | kernel/net.c:2043-2064 | the new time, and exactly the expired entries gone |
| `DnsCache.Cache.Configure` | kernel/net.c:2109-2123 | another network or resolver forgets every answer, the same one none |
| `DnsReceive.ZoneIff` | kernel/net.c:1342-1353 | a zone holds exactly the names that end with its labels, in whatever case |
| `DnsReceive.FindNegative` | kernel/net.c:1355-1404 | the least time, capped at 60 seconds, that an SOA record of an enclosing zone grants by its time to live and minimum field; records that grant none are passed over |
| `DnsReceive.NegativeIsBounded` | kernel/net.c:1243-1509 | a negative answer with a time rests on a chain of aliases from the name and an SOA record of a zone around its end; the time is the least over the chain, that record, its minimum, the cap and every other such record that grants any |
| `DnsReceive.Judge` | kernel/net.c:1418-1508 | what a response says: malformed, a server error, an address or none |
| `DnsReceive.CheckSections` | kernel/net.c:1210-1234 | three lists of readable records that fill the message |
| `DnsReceive.Resolver.Receive` | kernel/net.c:1406-1509 | a message is handled exactly when it answers the pending query; it ends it as it says, an answer with a time is remembered until it expires, and nothing else changes |
| `Dhcp.ParseOptions` | kernel/net.c:715-789 | the loop computes the options of the packet |
| `Dhcp.OptionsIff` | kernel/net.c:715-789 | options are read exactly from packets with the cookie that hold a list of options and padding with an end mark and a message type; they are the first well-formed one of each kind |
| `Dhcp.ListReadsBack` | kernel/net.c:613-632 | every list of appended options, with any padding and anything after its end, is read as what it means |
| `Dhcp.OnlyLists` | kernel/net.c:724-788 | only such lists are read |
| `Dhcp.LeaseIsZeroIff` | kernel/net.c:895-901 | an acknowledgement grants no time exactly when it says so |
| `Dhcp.MaskBitsAreLeadingOnes` | kernel/net.c:213-217 | the bit test accepts exactly the masks of 1 to 32 leading ones |
| `Dhcp.TimersBeforeEnd` | kernel/net.c:895-917 | both timers lie before the end of every accepted lease |
| `Dhcp.RenewalBeforeRebindIff` | kernel/net.c:902-917 | renewal comes no later than rebinding exactly when the packet's renewal time is not before the end or within seven eighths, or its rebind time lies between renewal time and end, with half and seven eighths of the lease for times it does not give |
| `Dhcp.RenewalAfterRebind` | kernel/net.c:911-917 | a lease of 100 s with renewal at 99 s rebinds at 87 s |
| `Dhcp.Client.Tick` | kernel/net.c:1971-2028 | after every tick of every run: no lease has run out, leased states have a usable address and mask and timers before the end, all others no address; the state is the one the elapsed time calls for, and a message is sent exactly on a change or when it is due |
| `Dhcp.Client.Advance` | kernel/net.c:1971-2028 | the same for the state machine alone |
| `Dhcp.RetryDelay` | kernel/net.c:634-637 | between four and 64 seconds |
| `Dhcp.Client.Receive` | kernel/net.c:797-927 | a packet is handled exactly when it answers the transaction and its message counts in the state; an offer, a refusal and an acknowledgement have exactly their effects; a packet that is not handled changes nothing, except that an acknowledgement of no time that passes every check costs the lease time and may change the server |
| `Dhcp.Client.TakeAck` | kernel/net.c:864-927 | bound with the granted configuration, server and timers, except that a lease time of zero leaves state and configuration but not lease time and server |
| `Dhcp.Client.TakeOffer` | kernel/net.c:814-840 | the offer is remembered whole, and asked for |
| `Dhcp.ConfigIsUsable` | kernel/net.c:868-890 | whatever the options say, mask, gateway and resolver are usable or absent |
| `Dhcp.Client.TimersIff` | kernel/net.c:895-917 | while leased the timers precede the end exactly when no acknowledgement of no time was refused since the last one taken |
| `Dhcp.Client.ReceiveThenTick` | kernel/net.c:797-2028 | after any packet and the next tick the lease is kept exactly when it has not run out, nothing refused it and no acknowledgement of no time was refused |
| `Dhcp.Client.ZeroAckExists` | kernel/net.c:864-901 | in every state that can be acknowledged such a packet exists |
| `Dhcp.Client.Start` | kernel/net.c:929-949 | discovering without any address, under a non-zero transaction |
| `Dhcp.Client.Restart` | kernel/net.c:791-795 | the next transaction number, skipping zero |
| `Elf.InspectAccepts` | kernel/elf64_loader.c:200-283 | an accepted image's segments are well formed, byte-disjoint and tightly bounded |
| `Elf.InspectIff` | kernel/elf64_loader.c:85-283 | an image with a good header is accepted exactly when it has no unsupported header, its at most sixteen segments are in order alone and in pairs, the entry lies in executable file bytes, and no two bytes are too far apart; the plan lists exactly the load headers |
| `Elf.InspectIsConsistent` | kernel/app_process.c:66-116 | the process table's checker accepts every plan inspection accepts |
| `Elf.NoWritableCode` | kernel/app_runtime.c:66-108 | no page of an accepted plan is both writable and executable, so the runtime's checker never refuses one |
| `ElfLoader.InspectSegment` | kernel/elf64_loader.c:85-198 | one more segment planned, or the code's error |
| `ElfLoader.InspectImage` | kernel/elf64_loader.c:200-283 | the plan of the program headers, or the code's error |
| `ElfLoader.PlanIsConsistent` | kernel/app_process.c:66-116 | true exactly for a consistent plan |
| `ElfLoader.PagePermissions` | kernel/app_runtime.c:66-108 | the union of the rights of the segments on a page, refused exactly when writable and executable |
| `ElfLoader.LoadContiguous` | kernel/elf64_loader.c:285-325 | every file byte at its address and zeros elsewhere in the span, nothing beyond; an error leaves the buffer unchanged |
| `ElfLoader.LoadSegments` | kernel/elf64_loader.c:312-319 | after the loop every segment's bytes are in place and nothing outside the span changed |
| `ElfLoader.SegmentIsConsistent` | kernel/app_process.c:81-107 | exactly the segments inside the image, apart from the earlier ones and not writable code |
| `ElfLoader.OneBacks` | kernel/elf64_loader.c:312-319 | no address is backed by two segments |
| `ElfLoader.LoadedIsUnique` | kernel/elf64_loader.c:308-318 | that description determines the loaded bytes |
| `AppImage.MappedSeen` | kernel/paging.c:484-508 | mapping gives one run of zeroed pages to one process; every other byte any process sees is unchanged |
| `AppImage.MapPlan` | kernel/app_runtime.c:132-147 | every used page of the plan with its rights; only memory can refuse it; in either case every other process sees and keeps what it had |
| `AppImage.MapPlanPage` | kernel/app_runtime.c:141-146 | one page with its rights, zeroed; only memory can refuse it, and then no process sees a change |
| `AppImage.StackMapped` | kernel/app_runtime.c:162-164 | mapping the stack last completes the launch and disturbs nothing loaded |
| `AppImage.LoadPlan` | kernel/app_runtime.c:149-160 | every segment's bytes from the file; it cannot fail |
| `AppImage.MapAndLoad` | kernel/app_runtime.c:110-165 | unless the image meets the stack or memory runs out, the process sees exactly its image and a zeroed stack; in either case every other process sees and keeps what it had |
| `AppImage.Launch` | kernel/app_runtime.c:189-255 | a running process sees exactly its verified image and a zeroed stack and no other process a change; a launch that fails, at whatever step, leaves the same spaces, the same pages in use and what every process sees |
| `AppImage.LaunchPlan` | kernel/app_runtime.c:208-215 | create, map and load, and destroy on failure; the reasons a launch fails |
| `AppImage.RefusedSeen` | kernel/paging.c:484-508 | a refused mapping changes nothing any process sees, even where the tables it made stay |
| `AppImage.DestroyedSeen` | kernel/paging.c:353-426 | creating a space, working in it and destroying it leaves the spaces, pages and frames in use as they were |
| `AppImage.LaunchedKeepsCodeReadOnly` | kernel/app_runtime.c:66-165 | with no-execute support no page of a launched process is writable and executable |

## Left out

- FsDrive.Drive.Write: sectors are written whole or not at all; a sector torn inside is not modelled.
- FsDisk.NewHeaderReads: the FNV-1a checksum is a parameter, so every result holds for any checksum function; that a damaged table is noticed is not claimed.
- FsVolume.Volume.Boot: the log messages are not modelled; the contents of the default files are a parameter.
- FsVolume.Volume.Load: bytes after the terminator of a stored name are not kept; equality of names is equality of C strings.
- Paging.Machine.MapPage: a frame is any number not in use; that the heap gives such frames is Heap.PagesAreDisjoint. CR3, INVLPG, CPUID and the framebuffer mapping are not modelled.
- Paging.Machine.MapAnonymous: tables made for a range that is rolled back stay allocated, as in the code; the contract speaks of the flat map.
- Heap.Allocator.constructor: requires a region that ends inside the address space and does not start at 0, as the caller provides it.
- MemoryMap.DetectMemory: the entries are a parameter; how they lie in low memory, and the pattern probing of kernel/memtest.c, are not modelled.
- HttpResponse.ParseHead: the connection-close token, the reason phrase, the header lookup and the progress estimate are left out.
- HttpSteps.DrivenOk: the TCP client, the device, the clock and the resolver are an environment that may answer anything; the error a parse failure maps to is given by the environment.
- AppImage.Launch: process table, startup argument and scheduler are one flag, whether they take the process.
- HttpRequest.Requests.BeginOperation: the synchronous ping, resolve and GET calls appear only as holders of the busy flag.
- AppNetwork.Services.Start: over any backend, the arguments are one flag and the errors one status; AppHttp.AppRequests.Start has both in full over the real request. The status call is left out.
- UdpSender.Sender.Learn: the eight slots of the address cache and its replacement are a map that may forget entries at any time; ARP replies, ICMP, the TCP handler, the port bindings and the DNS client's withdrawal of its own packet are left out.
- DnsCache.Cache.Query: sending and retrying queries, and cancelling one, are left out.
- Dhcp.Client.SendMessage: the bytes of the messages are left out, except that appended options are read back; so are stopping the client and the static configuration.
- Elf.InspectIff: a power of two is defined by halving, not by the bit test of the code.
- ElfLoader.LoadContiguous: the overlap test of the two host buffers is left out, since an array and a sequence never overlap.
- Null pointers and null callbacks, which the code refuses at the door, do not exist in the model.
- Drawing, windows, the shell, games, the BMP decoder, the application manifest and catalog, interrupts, timers, keyboard and mouse are left out.
