# FatFs volume layer and Paho MQTT codec: a verified model

The firmware carries two components whose behaviour is worth more than a reading of their bodies: the FatFs R0.10a
file system module (`FATFS/src/ff.c`) and the Eclipse Paho embedded MQTT codec (`mqtt/src`). This project models both
in Dafny, branch by branch, in the form the C code has (objects updated in place, cursors, loops, buffers), and proves
what the code keeps over all its inputs and over whole runs.

The configuration is that of `ffconf.h`: sectors of 512 bytes, a private sector buffer per file, long names of up to
255 characters, fast seek, one partition per drive, no erase command. The format is that of the Microsoft FAT32 File
System Specification 1.03, with the sub-type boundaries 4086 and 65526 of the code, which are one higher than those of
the specification. The packets are those of MQTT 3.1.1.

## How it is built

The lower layers carry two drives: `disk`, the sectors on the medium, and `logical`, what the module means by them
while its one-sector window is dirty. `Fatfs.Valid` ties the two together: `logical` is `disk` under the window, a clean
window shows its sector, and all FAT copies on `logical` agree. On top of it `fat` is the FAT as a sequence of numbers,
and everything about chains is proved about that sequence.

- `Bytes`, `Geometry`, `Volume`: words in sectors, the regions of a volume, the window, FSINFO
- `FatEntries`, `FatAccess`: entries of 12, 16 and 28 bits, `get_fat` and `put_fat`
- `Chains`, `ClusterAlloc`, `AllocatorRuns`, `AllocatorCalls`: the FAT as a forest of chains, the allocator, runs of
  its steps and of its calls
- `DataArea`, `LinkMap`: where the bytes of a file are, the cluster link map
- `FileObject`, `FileBuffer`, `FileRead`, `FileWrite`, `FileSeek`, `FileTruncate`, `FileSync`, `FileSession`: an open
  file, its operations, and runs of them as runs of a flat byte array
- `Mount`, `Format`, `FormatDrive`: `find_volume`, `f_mkfs`, and the two together
- `Lfn`, `ShortNames`, `PathNames`, `NumNames`, `DirTable`, `DirScan`, `DirSearch`, `FileNames`: long, short and numbered
  names, names in paths, directory tables, search and registration, and these together
- `LockTable`: the table of open objects
- `MqttPacket`, `MqttStrings`, `MqttPublish`, `MqttSubscribe`, `MqttConnect`, `MqttStream`: length fields, strings,
  packets, and the two packet readers

Formats are defined once and used by the side that writes and the side that reads. So that both cannot be wrong in the
same way, offsets, bits, marks and boundaries are also stated in figures, in the contracts or as lemmas about whole
sectors, entries and packets byte by byte.

`dafny verify dfyconfig.toml` checks the whole project.

## What turned out false

Some promises hold on fewer inputs than a reader expects. Each is proved with its exact condition; where that does not
show one by itself, a lemma gives an input on which the promise fails:

- The recount of `f_getfree` on FAT16 and FAT32 includes the two reserved entries; it is right if and only if neither
  is zero (`SectorScanExact`, with an input).
- `find_volume` checks no sum for overflow; the geometry it sets up is sound if and only if none wraps
  (`AcceptedGeometry`, input `WrappedAccepted`).
- `find_volume` accepts a FAT32 volume with one reserved sector, whose FSINFO sector is the first FAT sector; `sync_fs`
  leaves the FAT alone if and only if FSINFO lies in front of it (`FsInfoOverFat`, `SyncFs`, `FSync`, input
  `OneReservedAccepted`).
- `f_mkfs` can lay out and write a volume without a single cluster, which cannot be mounted, and one with more clusters
  than 28-bit numbers name, which can; a sound volume results if and only if the plan leaves a cluster and no more than
  can be named (`FormatAndMount`, inputs `NothingLeft`, `TooManyClusters`).
- Building a link map fails if and only if the end mark of the chain is one more than its last cluster number
  (`CreateLinkMap`, `RunsOnExactly` with an input).
- A link map does not follow a file that grows: a fast seek is aborted if and only if it goes behind the clusters the map
  was made of (`SeekFast`), a read if and only if it needs a cluster behind them, other than the first (`FRead`).
- `pick_lfn` refuses names of 254 characters, not only of 255 (`PickLfn`, `EchoLongName`).
- The 256th reader of an object is taken for a writer (`Opened`, `Run`, input `ReaderTooMany`).
- `MQTTPacket_len` asks for one byte too many at exactly four lengths, which are named (`PacketLenExact`).
- `MQTTDeserialize_connect` never stores the protocol version (`EchoConnect`), takes parts and continuations of the
  protocol name (`CheckVersion`, inputs in `OtherNames`), and refuses an empty user name unless something follows
  (`DeserializeConnect`, input `EmptyUser`).
- `MQTTPacket_read` takes an unfinished length field for a finished one (`TakenPacket`, with two inputs);
  `MQTTPacket_readnb` does not (`ReadNb`).

## Model

| member | source | states |
|---|---|---|
| Bytes.LittleEndian | stm32f4_ucosii_lwip_mqtt-master/FATFS/src/ff.h:327-336 | Words are loaded and stored with the low byte first |
| Geometry.OverlayChange | stm32f4_ucosii_lwip_mqtt-master/FATFS/src/ff.c:753-771 | Writing other bytes into the window changes the sector it stands for, with its copy in the second FAT, and no other; copies that were equal stay equal |
| Volume.SyncWindow | stm32f4_ucosii_lwip_mqtt-master/FATFS/src/ff.c:753-774 | The drive becomes the logical drive (drive under the dirty window), every FAT copy included; the logical drive itself does not change and the window is clean |
| Volume.MoveWindow | stm32f4_ucosii_lwip_mqtt-master/FATFS/src/ff.c:779-795 | The window shows the wanted sector of the logical drive, which does not change; a window that was somewhere else is written back first |
| Volume.SyncFs | stm32f4_ucosii_lwip_mqtt-master/FATFS/src/ff.c:805-834 | Nothing is left in a cache: the drive equals the logical drive, in which only the FSINFO sector changed, and that only when it had to be written; the volume stays sound if and only if that sector is not the first FAT sector |
| Volume.FsInfoOverFat | stm32f4_ucosii_lwip_mqtt-master/FATFS/src/ff.c:816-826 | Writing FSINFO leaves the FAT as it is if and only if the sector behind the boot sector lies in front of the FAT, for every table whose second entry is not zero |
| Mount.OneReservedAccepted | stm32f4_ucosii_lwip_mqtt-master/FATFS/src/ff.c:2138-2318 | On every drive that begins with a certain boot sector with one reserved sector, find_volume finds and takes the volume, no number wraps, FSINFO is kept up to date, and writing it changes the FAT of every volume whose second entry is not zero |
| FatEntries.EntryInside | stm32f4_ucosii_lwip_mqtt-master/FATFS/src/ff.c:875-892 | No entry touches a byte behind the FAT size a mount asks for, and the last entry touches the last of these bytes, for all three packings |
| FatEntries.Stored12 | stm32f4_ucosii_lwip_mqtt-master/FATFS/src/ff.c:918-934 | Storing a FAT12 entry and reading any entry back: the low 12 bits for the stored one, no change for the others, the neighbour that shares a byte included |
| FatEntries.StoredTable | stm32f4_ucosii_lwip_mqtt-master/FATFS/src/ff.c:909-961 | Storing into one entry changes that entry to the 12, 16 or 28 bits it can hold and no other; FAT32 keeps the reserved top bits |
| FatEntries.Packed | stm32f4_ucosii_lwip_mqtt-master/FATFS/src/ff.c:863-899 | Byte by byte: two entries of 12 bits in three bytes, one of 16 in two, one of 28 in four |
| FatEntries.Repacked | stm32f4_ucosii_lwip_mqtt-master/FATFS/src/ff.c:909-961 | Byte by byte what a store makes of FAT12 entries: the half byte of the neighbour stays |
| FatEntries.RepackedWide | stm32f4_ucosii_lwip_mqtt-master/FATFS/src/ff.c:909-961 | And of wider ones: the top four bits of a FAT32 entry stay |
| FatAccess.WindowShowsEntry | stm32f4_ucosii_lwip_mqtt-master/FATFS/src/ff.c:880-891 | A FAT16 or FAT32 entry never crosses a sector, and the window over its sector shows its value |
| FatAccess.GetFat | stm32f4_ucosii_lwip_mqtt-master/FATFS/src/ff.c:863-899 | The entry on the logical drive, from a window that may have to move, twice for a FAT12 entry across two sectors; 1 for a number out of range |
| FatAccess.PutFat | stm32f4_ucosii_lwip_mqtt-master/FATFS/src/ff.c:909-961 | Exactly one entry of the logical FAT changes, in all copies alike, and nothing outside the FAT; the FAT32 reserved bits stay |
| Chains.RemovedChain | stm32f4_ucosii_lwip_mqtt-master/FATFS/src/ff.c:987-1010 | remove_chain from the first cluster of a chain frees exactly the clusters of that chain |
| Chains.RemovedForest | stm32f4_ucosii_lwip_mqtt-master/FATFS/src/ff.c:987-1010 | Removing one chain leaves the others as disjoint acyclic chains that cover all used clusters |
| Chains.SearchVisitsAll | stm32f4_ucosii_lwip_mqtt-master/FATFS/src/ff.c:1034-1058 | The wrap-around search visits every cluster of the volume exactly once before it gives up, from any start |
| Chains.StretchedChain | stm32f4_ucosii_lwip_mqtt-master/FATFS/src/ff.c:1060-1063 | Linking a free cluster behind the last one makes a chain that is the old one with the new cluster at its end |
| Chains.StretchedForest | stm32f4_ucosii_lwip_mqtt-master/FATFS/src/ff.c:1060-1063 | Stretching replaces one chain of the forest by the longer one; every other chain stays |
| Chains.CreatedForest | stm32f4_ucosii_lwip_mqtt-master/FATFS/src/ff.c:1060-1063 | A new chain of one formerly free cluster joins the forest |
| Chains.CutForest | stm32f4_ucosii_lwip_mqtt-master/FATFS/src/ff.c:3399-3413 | Truncating keeps the first k clusters of one chain as a chain, frees the rest of it, and touches no other chain |
| ClusterAlloc.RemoveChain | stm32f4_ucosii_lwip_mqtt-master/FATFS/src/ff.c:972-1014 | On any FAT contents, cyclic ones included, it ends; table and answer are those of following and freeing links one by one; a known free count grows by exactly the clusters freed |
| ClusterAlloc.CreateChain | stm32f4_ucosii_lwip_mqtt-master/FATFS/src/ff.c:1024-1075 | The answer is the existing successor, else the first free cluster: behind the given one, or for a new chain behind the last allocated one, or from 2 on when that is out of range, it is the nearest zero entry, wrapping around once; 0 only when every entry is used, 1 on a broken one; the table changes by exactly that link and end mark |
| Chains.FirstFreeThere | stm32f4_ucosii_lwip_mqtt-master/FATFS/src/ff.c:1034-1058 | On a table with free clusters 3 and 6 and the hint 5 it is 6 |
| ClusterAlloc.FindFree | stm32f4_ucosii_lwip_mqtt-master/FATFS/src/ff.c:1046-1058 | The loop finds the first free cluster behind the hint in wrap-around order, passing only used ones |
| ClusterAlloc.CountFreeSectors | stm32f4_ucosii_lwip_mqtt-master/FATFS/src/ff.c:3346-3364 | The sector-wise scan counts the zero entries of the whole table, the two reserved ones included |
| ClusterAlloc.GetFree | stm32f4_ucosii_lwip_mqtt-master/FATFS/src/ff.c:3314-3372 | The cached count if it can be one, else the recount, which becomes the cached one; a FAT12 scan fails if and only if an entry holds 1 |
| ClusterAlloc.SectorScanExact | stm32f4_ucosii_lwip_mqtt-master/FATFS/src/ff.c:3346-3364 | The recount of a FAT16 or FAT32 volume is the number of free clusters if and only if neither reserved entry is zero; a full table with a zero entry is reported to have a free cluster |
| AllocatorRuns.Conservation | stm32f4_ucosii_lwip_mqtt-master/FATFS/src/ff.c:972-1075 | In every forest, free clusters and clusters on chains add up to the clusters of the volume |
| AllocatorRuns.RunKeeps | stm32f4_ucosii_lwip_mqtt-master/FATFS/src/ff.c:972-1075 | After any run of creations, stretchings, removals and truncations the table is the forest of the resulting chains, and no cluster was lost or gained |
| AllocatorCalls.RunCalls | stm32f4_ucosii_lwip_mqtt-master/FATFS/src/ff.c:972-1075 | Any calls of create_chain and remove_chain, in any order, on the drive: each answer is a free cluster, or 0 exactly when the volume is full; the calls make a run of the steps above, every cluster is free or on a chain, and an exact free count stays exact |
| AllocatorRuns.UnnamedChainStays | stm32f4_ucosii_lwip_mqtt-master/FATFS/src/ff.c:972-1075 | A chain that no operation of a run names is there afterwards with the same links |
| DataArea.ClusterSectorRange | stm32f4_ucosii_lwip_mqtt-master/FATFS/src/ff.c:845-853 | Every sector of a cluster in the table lies behind the FAT copies and on the drive, and determines its cluster and its place in it |
| DataArea.ClusterSteps | stm32f4_ucosii_lwip_mqtt-master/FATFS/src/ff.c:845-853 | Cluster 2 begins the data area, and each cluster begins where the one before ends |
| DataArea.SectorSteps | stm32f4_ucosii_lwip_mqtt-master/FATFS/src/ff.c:845-853 | The sectors of a file are those of its clusters in order |
| DataArea.SectorOfInjective | stm32f4_ucosii_lwip_mqtt-master/FATFS/src/ff.c:845-853 | Different sectors of one chain are different sectors of the drive |
| DataArea.GrownForest | stm32f4_ucosii_lwip_mqtt-master/FATFS/src/ff.c:1024-1075 | A file whose chain grew by free clusters leaves every other chain of the forest alone |
| LinkMap.LookupFragments | stm32f4_ucosii_lwip_mqtt-master/FATFS/src/ff.c:1087-1104 | Looking up any cluster order in the run-length form of a chain gives that element of the chain, and 0 behind its end |
| LinkMap.RunsPrefix | stm32f4_ucosii_lwip_mqtt-master/FATFS/src/ff.c:3008-3030 | The size a link map needs never falls as a chain gets longer, and grows by one run a cluster at most |
| LinkMap.ClmtClust | stm32f4_ucosii_lwip_mqtt-master/FATFS/src/ff.c:1087-1104 | For every offset in the file the link map gives the chain element at offset divided by the cluster size |
| FileBuffer.FlushBuffer | stm32f4_ucosii_lwip_mqtt-master/FATFS/src/ff.c:2615-2619 | Writing a dirty sector buffer back does not change what the file shows, nor any sector of another chain |
| FileBuffer.LoadBuffer | stm32f4_ucosii_lwip_mqtt-master/FATFS/src/ff.c:2613-2625 | The buffer comes to stand for another sector of the file; what the file shows does not change |
| FileObject.StretchChain | stm32f4_ucosii_lwip_mqtt-master/FATFS/src/ff.c:1024-1075 | create_chain for an open file: the successor on the chain, a new last cluster, 0 on a full volume, 1 only on a FAT with an entry holding 1; all that was true of the file stays true |
| FileRead.ReadStep | stm32f4_ucosii_lwip_mqtt-master/FATFS/src/ff.c:2572-2637 | One round hands out at least one byte, and exactly the bytes of the file at its cursor, whether directly from several sectors, patched from a dirty buffer, or through the buffer; it fails if and only if a link map has no cluster there |
| FileRead.FRead | stm32f4_ucosii_lwip_mqtt-master/FATFS/src/ff.c:2548-2639 | Returns the next btr bytes of the file or those up to its end, wherever they are cached, and moves the cursor behind them; less, and it is aborted, if and only if a link map of fewer clusters ends before, and then all up to the cluster boundary where it does; an aborted file, or one not open for reading, gives nothing and does not change |
| FileWrite.DiskWriteRun | stm32f4_ucosii_lwip_mqtt-master/FATFS/src/ff.c:2712-2713 | A multi-sector write replaces exactly its run of sectors, in the drive and in the logical drive |
| FileWrite.WriteStep | stm32f4_ucosii_lwip_mqtt-master/FATFS/src/ff.c:2673-2755 | One round puts at least one byte into the file, or says why not: the volume is full, the link map ends, or the FAT has a broken entry; the chain grows no further than the bytes need; everything else in the file and on the volume stays |
| FileWrite.FWrite | stm32f4_ucosii_lwip_mqtt-master/FATFS/src/ff.c:2649-2761 | The file is the old one with the written bytes patched over it, its chain no longer than they need; less is written only when no cluster can be had, nothing when the file would reach 4 GB; it is aborted only on a FAT with an entry holding 1, and an aborted file does not change |
| FileSeek.SeekNormal | stm32f4_ucosii_lwip_mqtt-master/FATFS/src/ff.c:3061-3137 | The cursor reaches the offset, or the end of a read-only file, or the end of the last cluster of a full volume; bytes before the old end stay, and the chain grows no further than the cursor needs; aborted only on a FAT with an entry holding 1 |
| FileSeek.SeekFast | stm32f4_ucosii_lwip_mqtt-master/FATFS/src/ff.c:3031-3056 | The cursor reaches the offset or the end of the file without any FAT access, with cluster and buffer of that place; aborted if and only if the map was made before the file had the cluster to go to |
| FileSeek.CursorUnique | stm32f4_ucosii_lwip_mqtt-master/FATFS/src/ff.c:3031-3137 | Offset, chain and size determine the current cluster and, inside a sector, the buffered sector: both ways of seeking end in the same place |
| FileSeek.CreateLinkMap | stm32f4_ucosii_lwip_mqtt-master/FATFS/src/ff.c:3008-3030 | Reports 2 + 2 times the number of maximal runs, whatever the table size; fills the table if and only if that fits, never writes behind its given size, and answers FR_INT_ERR exactly when the end mark is one more than the last cluster; the cursor, the chain and the drive stay |
| FileSeek.RunsOnExactly | stm32f4_ucosii_lwip_mqtt-master/FATFS/src/ff.c:3017-3023 | When that is: the last cluster of the chain is the last of the volume and its mark is the number of FAT entries; with a table of three entries where it is so |
| FileSeek.FSeek | stm32f4_ucosii_lwip_mqtt-master/FATFS/src/ff.c:2991-3140 | With a table attached and the offset CREATE_LINKMAP it makes the link map and moves nothing; else it seeks, and cursor, size and answer are told in terms of offset, size, mode and map |
| FileTruncate.TruncatedCount | stm32f4_ucosii_lwip_mqtt-master/FATFS/src/ff.c:3399-3413 | Truncating a chain to k clusters frees as many clusters as the chain loses |
| FileTruncate.FTruncate | stm32f4_ucosii_lwip_mqtt-master/FATFS/src/ff.c:3381-3427 | The file keeps the bytes before the cursor and the first ceil(cursor / cluster size) clusters; exactly the others become free; a dirty buffer is written; a link map stays good exactly when none of its clusters is cut off |
| FileSync.UpdatedEntryReads | stm32f4_ucosii_lwip_mqtt-master/FATFS/src/ff.c:2793-2799 | Size and start cluster stored in a directory entry read back, and its name and the rest of the sector stay |
| FileSync.FSync | stm32f4_ucosii_lwip_mqtt-master/FATFS/src/ff.c:2770-2808 | After a changed file was synchronised the drive alone holds its bytes on its chain; in its directory entry bit 5 of the attribute is set and the other bits stay, size, both halves of the start cluster and the time are stored at offsets 28, 20, 26 and 22, the access date is 0, and the rest of the entry and of its sector stays; the drive holds the chain in the FAT if and only if FSINFO was not written into the FAT; no sector changed but those of the file, FSINFO and its entry |
| FileSession.Perform | stm32f4_ucosii_lwip_mqtt-master/FATFS/src/ff.c:2548-3427 | Any one of read, write, seek, link map, detach, truncate, synchronise, on a live or an aborted file: cursor, bytes read, number of bytes written, room of the file and of the volume are exactly those of a flat byte array with a cursor, its runs grow by one a cluster at most; after a synchronisation that had something to write the drive alone shows the bytes; all invariants and the bytes of all other chains are kept |
| FileSession.Run | stm32f4_ucosii_lwip_mqtt-master/FATFS/src/ff.c:2548-3427 | For any sequence of operations there is a run of the flat byte array with the same answers from the same start to the same end; after each synchronisation that had something to write, a reader of the drive alone finds the bytes the flat array has then; other chains keep their bytes, the FAT stays a forest, an exact free count stays exact |
| FileSession.RunConserves | stm32f4_ucosii_lwip_mqtt-master/FATFS/src/ff.c:2548-3427 | On every run the room of the file and the free room of the volume together stay the same |
| Mount.FindBoot | stm32f4_ucosii_lwip_mqtt-master/FATFS/src/ff.c:2212-2230 | The boot sector taken is sector 0 when that is one of a FAT volume; when sector 0 is a boot sector of another kind, the first of the four partition starts that holds one; nothing else is found |
| Mount.ReadBpb | stm32f4_ucosii_lwip_mqtt-master/FATFS/src/ff.c:2234-2285 | The boot sector passes if and only if it is acceptable, and then the geometry is the one its numbers give |
| Mount.AcceptedGeometry | stm32f4_ucosii_lwip_mqtt-master/FATFS/src/ff.c:2237-2285 | An accepted boot sector on a drive that holds it gives the geometry all other proofs use if and only if no sum of its numbers wraps 32 bits; on FAT12 and FAT16 cluster numbers stay below the end mark |
| Mount.WrappedAccepted | stm32f4_ucosii_lwip_mqtt-master/FATFS/src/ff.c:2138-2285 | On every drive that begins with a certain boot sector, find_volume finds and takes the volume, although its second FAT would end beyond the largest sector number: the condition cannot be dropped |
| Mount.MountedRegions | stm32f4_ucosii_lwip_mqtt-master/FATFS/src/ff.c:845-892 | After a mount every FAT access stays inside the first copy, and FAT copies, root directory and all clusters are disjoint and inside the volume |
| Mount.FindVolume | stm32f4_ucosii_lwip_mqtt-master/FATFS/src/ff.c:2200-2328 | The answer for any drive contents, by the sector found as above; a volume taken is FAT12 below 4086 clusters, FAT32 from 65526 on, else FAT16; an accepted volume whose copies agree and whose numbers do not wrap satisfies the invariants of all operations, with the counts of FSINFO |
| Mount.PartitionFields | stm32f4_ucosii_lwip_mqtt-master/FATFS/src/ff.c:2218-2221 | Type and start sector of the four partitions are at 450 and 454, and 16, 32 and 48 bytes behind |
| Mount.FloppyAccepted | stm32f4_ucosii_lwip_mqtt-master/FATFS/src/ff.c:2234-2318 | The boot sector of a 1.44 MB floppy disk is taken as FAT12 with 2847 clusters, FAT at 1, root directory at 19, data at 33 |
| Mount.PartitionAccepted | stm32f4_ucosii_lwip_mqtt-master/FATFS/src/ff.c:2212-2318 | A disk with another file system in its second partition and a FAT volume in the third: that one is taken, as FAT16 with 16343 clusters, with all region starts |
| Mount.CardAccepted | stm32f4_ucosii_lwip_mqtt-master/FATFS/src/ff.c:2234-2318 | A boot sector with 32 reserved sectors and FAT size, root cluster and FSINFO in the FAT32 fields is taken as FAT32 with 130812 clusters, with all region starts |
| Mount.FsInfoRead | stm32f4_ucosii_lwip_mqtt-master/FATFS/src/ff.c:2291-2308 | FSINFO is read if and only if the volume is FAT32 and the word at 48 is 1; its counts are taken from 488 and 492 if and only if the three signatures stand byte by byte at 0, 484 and 510 |
| Format.ChooseUnit | stm32f4_ucosii_lwip_mqtt-master/FATFS/src/ff.c:4026-4033 | Sectors per cluster: a power of two up to 128, the wanted size where that is possible, else the default for the volume size, in figures |
| Format.MakePlan | stm32f4_ucosii_lwip_mqtt-master/FATFS/src/ff.c:4010-4072 | The layout, or the refusal, is the function PlanFor of drive size, partitioning, wanted cluster size and erase block; every layout is a sound one, FAT12 below 4086 clusters, FAT32 from 65526 on, else FAT16 |
| Format.PlanIsPlanned | stm32f4_ucosii_lwip_mqtt-master/FATFS/src/ff.c:4036-4072 | Every layout has its metadata aligned to the erase block, a FAT large enough for its clusters, and the sub-type of its own cluster count |
| Format.FatSectorsLeast | stm32f4_ucosii_lwip_mqtt-master/FATFS/src/ff.c:4036-4048 | The FAT is as small as it can be for the number of clusters it is laid out for, on all three sub-types |
| FormatDrive.CardPlan | stm32f4_ucosii_lwip_mqtt-master/FATFS/src/ff.c:4010-4072 | The layout of a drive of 512 megabytes with erase blocks of 64 sectors, number by number |
| FormatDrive.MkFs | stm32f4_ucosii_lwip_mqtt-master/FATFS/src/ff.c:3973-4206 | It answers what the plan says, and FR_DISK_ERR exactly when the drive lacks a sector that is written; on success every sector of the drive is told: partition table, boot sector and FSINFO with their copies, FAT and root directory, and all others as they were |
| FormatDrive.BootBytes16 | stm32f4_ucosii_lwip_mqtt-master/FATFS/src/ff.c:4115-4152 | The boot sector of a FAT16 volume, byte by byte |
| FormatDrive.BootBytes32 | stm32f4_ucosii_lwip_mqtt-master/FATFS/src/ff.c:4115-4152 | The boot sector of a FAT32 volume, byte by byte, up to the FAT size |
| FormatDrive.BootTail32 | stm32f4_ucosii_lwip_mqtt-master/FATFS/src/ff.c:4136-4152 | And from the root cluster to its end |
| FormatDrive.TableBytes | stm32f4_ucosii_lwip_mqtt-master/FATFS/src/ff.c:4074-4108 | The partition table, byte by byte, and the system ID for each sub-type and size |
| FormatDrive.FatBytesMade | stm32f4_ucosii_lwip_mqtt-master/FATFS/src/ff.c:4158-4174 | The first FAT sector, byte by byte, for each sub-type |
| FormatDrive.BackupsTold | stm32f4_ucosii_lwip_mqtt-master/FATFS/src/ff.c:4152-4206 | On FAT32 boot sector, FSINFO and their copies are where the boot sector says |
| FormatDrive.LayoutAccepted | stm32f4_ucosii_lwip_mqtt-master/FATFS/src/ff.c:4115-4156 | A planned layout is accepted by find_volume, with its own sub-type, cluster count and region starts and no number wrapped, if and only if one cluster is left behind the metadata and all clusters can be named; without a cluster it is refused |
| FormatDrive.NewVolumeMade | stm32f4_ucosii_lwip_mqtt-master/FATFS/src/ff.c:4158-4206 | The FAT written is the forest of the root directory alone, every entry of the root directory is zero, and the FSINFO count is the number of zero entries |
| FormatDrive.FormatAndMount | stm32f4_ucosii_lwip_mqtt-master/FATFS/src/ff.c:3973-4206 | Formatting, then mounting, on any drive: both succeed with a sound geometry if and only if the plan for drive size and arguments leaves a cluster behind the aligned metadata and no more than 28-bit numbers name; then all invariants hold, there is no file and no entry, and the free count is exact |
| FormatDrive.NothingLeft | stm32f4_ucosii_lwip_mqtt-master/FATFS/src/ff.c:4054-4072 | On a drive of 128 sectors with erase blocks of 128 sectors f_mkfs plans and can write a layout that find_volume refuses |
| FormatDrive.TooManyClusters | stm32f4_ucosii_lwip_mqtt-master/FATFS/src/ff.c:4036-4072 | On a drive of 256 gigabytes with clusters of one sector f_mkfs lays out, and find_volume accepts, a volume with more clusters than 28-bit numbers name |
| DirTable.DirSdi | stm32f4_ucosii_lwip_mqtt-master/FATFS/src/ff.c:1115-1153 | Succeeds exactly for indices the table has, and stands on that entry: sector and offset in figures, 16 entries of 32 bytes in a sector; fails on a broken start cluster |
| DirTable.ClearCluster | stm32f4_ucosii_lwip_mqtt-master/FATFS/src/ff.c:1197-1205 | Moving the window by hand over a new cluster leaves exactly that cluster zero on the logical drive, and the window clean on its first sector |
| DirTable.StretchTable | stm32f4_ucosii_lwip_mqtt-master/FATFS/src/ff.c:1188-1207 | The table gains exactly one formerly free cluster, filled with zeros; or nothing, on a full volume or when the search for a cluster meets an entry holding 1 |
| DirTable.DirNext | stm32f4_ucosii_lwip_mqtt-master/FATFS/src/ff.c:1163-1221 | To the next entry; which answer at the end of a sector, a cluster, the table, the 16-bit index, and when the table grows |
| DirTable.StepTo | stm32f4_ucosii_lwip_mqtt-master/FATFS/src/ff.c:1115-1221 | Stepping i times from entry 0 reaches entry i exactly when the table has it |
| DirTable.StepAndJump | stm32f4_ucosii_lwip_mqtt-master/FATFS/src/ff.c:1115-1221 | Stepping i times and dir_sdi(i) succeed together and end in the same index, cluster, sector and offset, for static and chained tables |
| DirScan.RegisteredFound | stm32f4_ucosii_lwip_mqtt-master/FATFS/src/ff.c:1488-1539 | On the entries as values: after a name was stored in the blank run of a table that did not have it, the scan of dir_find ends on its short entry, its long name recognised |
| DirScan.ShortFound | stm32f4_ucosii_lwip_mqtt-master/FATFS/src/ff.c:1503-1536 | A registered name is found by its 8.3 form alone: the search passes over the entries of the long name |
| DirScan.ScanExtended | stm32f4_ucosii_lwip_mqtt-master/FATFS/src/ff.c:1503-1536 | A name not found in a table is not found when zero entries follow it |
| DirScan.CaseBlind | stm32f4_ucosii_lwip_mqtt-master/FATFS/src/ff.c:1307-1333 | Searches for names that differ in letter case only end alike, on any entries |
| DirScan.ScanMeans | stm32f4_ucosii_lwip_mqtt-master/FATFS/src/ff.c:1488-1539 | For any entries: the scan ends on the first entry in front of the first zero entry that is in use, no volume label, and either has the wanted 8.3 form, which stands for the name, or behind it all segments of a long name that match the buffer, in descending order and with its checksum; the index of the first segment is told; nothing is found only if there is no such entry |
| DirScan.SumExample | stm32f4_ucosii_lwip_mqtt-master/FATFS/src/ff.c:1468-1477 | The checksum of README.TXT is 0x73 |
| DirSearch.DirFind | stm32f4_ucosii_lwip_mqtt-master/FATFS/src/ff.c:1488-1539 | Through window and cluster chain, dir_find ends where the scan of the entries of the table ends: on the first target, as in ScanMeans, or nowhere if there is none |
| DirSearch.DirAlloc | stm32f4_ucosii_lwip_mqtt-master/FATFS/src/ff.c:1232-1257 | Finds the first row of nent blank entries, growing the table if it must; denied only when there is no such row and the table cannot grow, aborted only on a FAT with an entry holding 1 |
| NumNames.DigitsStand | stm32f4_ucosii_lwip_mqtt-master/FATFS/src/ff.c:1435-1441 | The hexadecimal digits that are put into a name stand for the number |
| NumNames.NumberBack | stm32f4_ucosii_lwip_mqtt-master/FATFS/src/ff.c:1409-1456 | The number can be read back from the name, so different numbers give different names; the extension stays, and the first byte unless it is blank |
| NumNames.NumberExamples | stm32f4_ucosii_lwip_mqtt-master/FATFS/src/ff.c:1422-1435 | Up to 5 the number is the candidate number; the checksum of the name ab from 6 on is 0x459E |
| NumNames.KeptMeans | stm32f4_ucosii_lwip_mqtt-master/FATFS/src/ff.c:1447-1453 | The base is kept up to its first blank, or its full room, or a double-byte character that would be cut |
| NumNames.NumberedExamples | stm32f4_ucosii_lwip_mqtt-master/FATFS/src/ff.c:1409-1456 | Three numbered names, byte by byte |
| NumNames.CutExample | stm32f4_ucosii_lwip_mqtt-master/FATFS/src/ff.c:1447-1456 | A base whose last place would hold half a double-byte character, byte by byte |
| NumNames.GenNumName | stm32f4_ucosii_lwip_mqtt-master/FATFS/src/ff.c:1409-1456 | The loops give the candidate of that number: what fits of the base, double-byte characters uncut, a tilde, the digits of the number or of the checksum, blanks, the extension |
| DirSearch.NumberName | stm32f4_ucosii_lwip_mqtt-master/FATFS/src/ff.c:1625-1634 | Takes the first of the numbered short names that no entry has, and gives up only when all 99 are taken |
| DirSearch.StoreShort | stm32f4_ucosii_lwip_mqtt-master/FATFS/src/ff.c:1659-1672 | The short entry is the 8.3 form, the letter-case flags and zeros, and no other entry changes |
| DirSearch.DirRegister | stm32f4_ucosii_lwip_mqtt-master/FATFS/src/ff.c:1608-1675 | The entries of the name are in a formerly blank run, the highest segment first, the short entry last, numbered when the 8.3 form lost something; every other entry of the table and every other file stays |
| DirSearch.RegisterThenFind | stm32f4_ucosii_lwip_mqtt-master/FATFS/src/ff.c:1488-1675 | dir_find, dir_register, dir_find: a name below 255 characters that was not found and then was registered is found on the entry just written, by the same request and by its 8.3 form alone, which nothing had before; entries in use are unchanged |
| Lfn.FitLfn | stm32f4_ucosii_lwip_mqtt-master/FATFS/src/ff.c:1371-1396 | The entry becomes that segment of the name: characters, one terminator, padding, order byte with LLE on the last segment only |
| Lfn.Offsets | stm32f4_ucosii_lwip_mqtt-master/FATFS/src/ff.c:1303 | The thirteen places of characters in an entry |
| Lfn.SegmentBytes | stm32f4_ucosii_lwip_mqtt-master/FATFS/src/ff.c:1371-1396 | The one segment of the name abc, byte by byte |
| Lfn.SegmentOrders | stm32f4_ucosii_lwip_mqtt-master/FATFS/src/ff.c:1371-1396 | Which segments carry the mark, and how many entries a name takes |
| Lfn.CmpLfn | stm32f4_ucosii_lwip_mqtt-master/FATFS/src/ff.c:1307-1333 | The loop decides whether the segment matches the buffer |
| Lfn.SegmentMatches | stm32f4_ucosii_lwip_mqtt-master/FATFS/src/ff.c:1307-1333 | On a stored segment, cmp_lfn accepts if and only if name and buffer agree on its positions, and on the end when the name ends there |
| Lfn.AllAgree | stm32f4_ucosii_lwip_mqtt-master/FATFS/src/ff.c:1307-1333 | All segments of a stored name are accepted if and only if the names are equal up to ff_wtoupper and have fewer than 255 characters |
| Lfn.PickLfn | stm32f4_ucosii_lwip_mqtt-master/FATFS/src/ff.c:1338-1366 | Reads its part of the name back; fails exactly on the last segment of a name of 254 or 255 characters |
| Lfn.PickName | stm32f4_ucosii_lwip_mqtt-master/FATFS/src/ff.c:1338-1366 | Reading all segments rebuilds the name if and only if it has at most 253 characters: for 254 the terminator that is always added no longer fits |
| Lfn.EchoLongName | stm32f4_ucosii_lwip_mqtt-master/FATFS/src/ff.c:1338-1396 | Storing all segments of a name and reading them back gives the name, exactly up to 253 characters |
| ShortNames.GetFileInfo | stm32f4_ucosii_lwip_mqtt-master/FATFS/src/ff.c:1742-1769 | The printing loop gives the concatenation of what each byte of the entry adds |
| ShortNames.Characters | stm32f4_ucosii_lwip_mqtt-master/FATFS/src/ff.c:1825-1910 | The characters by themselves: illegal ones, replaced ones, separators, blanks, letter case, bytes of double-byte characters |
| ShortNames.FlagsStored | stm32f4_ucosii_lwip_mqtt-master/FATFS/src/ff.c:1659-1672 | The case flags are 0x08 and 0x10 in byte 12 of an entry and come back from it; bytes 11 and 13 to 31 are zero |
| PathNames.SpelledOnce | stm32f4_ucosii_lwip_mqtt-master/FATFS/src/ff.c:1822-1838 | The characters of a segment are the one list of single- and double-byte codes that is spelled in the path up to a separator or the end, where the second byte of a character is never taken for a separator |
| PathNames.ShortForm | stm32f4_ucosii_lwip_mqtt-master/FATFS/src/ff.c:1859-1926 | For any name: NS_LOSS if and only if the codes of its parts do not fit 8 and 3 bytes or some character has no place in an 8.3 form; NS_LFN if and only if so, or a character is above ASCII, or a part mixes cases; the form holds as many characters of both parts as fit, without blanks and with underscores for what has no place; without NS_LFN the flags hold the cases |
| ShortNames.FormWhole | stm32f4_ucosii_lwip_mqtt-master/FATFS/src/ff.c:1859-1926 | The form of a name that has 8.3 shape holds the codes of all its characters, the last dot aside |
| ShortNames.FormExample | stm32f4_ucosii_lwip_mqtt-master/FATFS/src/ff.c:1859-1926 | The form of +a .b.cdef, byte by byte: a character replaced, blanks left out, a letter cut off |
| ShortNames.SameForm | stm32f4_ucosii_lwip_mqtt-master/FATFS/src/ff.c:1859-1926 | Names that differ in letter case only have the same 8.3 form, and both lose something or neither does |
| PathNames.CreateName | stm32f4_ucosii_lwip_mqtt-master/FATFS/src/ff.c:1815-1926 | Refuses exactly segments with a broken double-byte character, a code the table does not have, an illegal character, more than 255 characters, or nothing left once stripped; else takes the Unicode name without trailing spaces and dots, and tells where the next one starts |
| ShortNames.PrintBack | stm32f4_ucosii_lwip_mqtt-master/FATFS/src/ff.c:1742-1769 | A name held in form and flags prints as it was, letter case included |
| ShortNames.PrintUpper | stm32f4_ucosii_lwip_mqtt-master/FATFS/src/ff.c:1742-1769 | Without the flags a form prints as the codes of its name in capitals, also when its first byte was the mark of a deleted entry |
| PathNames.EchoName | stm32f4_ucosii_lwip_mqtt-master/FATFS/src/ff.c:1742-1926 | create_name, the entry that is made of it, get_fileinfo: a segment accepted without NS_LFN comes back, trailing spaces and dots aside; one with NS_LFN and without NS_LOSS comes back in capitals |
| FileNames.FindPath | stm32f4_ucosii_lwip_mqtt-master/FATFS/src/ff.c:1488-1926 | create_name, then dir_find: ends where the scan of the entries for the name and form of the segment ends, on the first target or nowhere if there is none |
| FileNames.RegisterPath | stm32f4_ucosii_lwip_mqtt-master/FATFS/src/ff.c:1488-1926 | A segment that was not found is registered: its entry is in a formerly blank place and no entry in use changed, get_fileinfo prints it as the segment, and every path whose segment differs in letter case only finds it |
| LockTable.Locks.ChkLock | stm32f4_ucosii_lwip_mqtt-master/FATFS/src/ff.c:642-664 | The answer for any table, object and access |
| LockTable.Locks.IncLock | stm32f4_ucosii_lwip_mqtt-master/FATFS/src/ff.c:678-706 | A handle on the entry of the object, made if it is not there; 0, and no change, exactly when there is no room or a second handle would write |
| LockTable.Locks.DecLock | stm32f4_ucosii_lwip_mqtt-master/FATFS/src/ff.c:710-729 | One entry counts one handle less and is blank when that was the last; an error for an index out of range |
| LockTable.Locks.Open | stm32f4_ucosii_lwip_mqtt-master/FATFS/src/ff.c:642-706 | Refused as locked if and only if a handle is out that excludes it; else the handle is counted, and the table stays exact if and only if the open was not a 256th reader |
| LockTable.Locks.Close | stm32f4_ucosii_lwip_mqtt-master/FATFS/src/ff.c:710-729 | Closing an open handle always succeeds and takes exactly that handle away |
| LockTable.CheckMeans | stm32f4_ucosii_lwip_mqtt-master/FATFS/src/ff.c:642-664 | chk_lock in terms of the handles that are out, for reading, writing and deleting: locked if and only if one of them excludes the access, too many if and only if the object is new and no entry is blank; after a grant inc_lock does not fail |
| LockTable.Opened | stm32f4_ucosii_lwip_mqtt-master/FATFS/src/ff.c:678-706 | Registering what was granted keeps keys distinct and every counter equal to its readers, or 0x100 for one writer, if and only if the object did not have 255 readers |
| LockTable.Closed | stm32f4_ucosii_lwip_mqtt-master/FATFS/src/ff.c:710-729 | So does closing |
| LockTable.AllClosed | stm32f4_ucosii_lwip_mqtt-master/FATFS/src/ff.c:710-729 | With no handle out the table is empty |
| LockTable.ReaderTooMany | stm32f4_ucosii_lwip_mqtt-master/FATFS/src/ff.c:678-729 | A table of one entry with 255 readers: the 256th is let in, further ones are refused, and the first close frees the entry |
| LockTable.Run | stm32f4_ucosii_lwip_mqtt-master/FATFS/src/ff.c:642-729 | Over any run of opens and closes, up to the first 256th reader of an object, the table counts exactly the handles that are out, and is empty when there is none |
| MqttPacket.EncodeValue | stm32f4_ucosii_lwip_mqtt-master/mqtt/src/MQTTPacket.c:29-45 | An encoding stands for its number, every byte but the last announces another |
| MqttPacket.EncodeLength | stm32f4_ucosii_lwip_mqtt-master/mqtt/src/MQTTPacket.c:29-45 | It takes one to four bytes, with the boundaries of section 2.2.3 |
| MqttPacket.EncodeExamples | stm32f4_ucosii_lwip_mqtt-master/mqtt/src/MQTTPacket.c:29-45 | The boundaries of section 2.2.3 and its example 321, byte by byte |
| MqttPacket.EncodeInto | stm32f4_ucosii_lwip_mqtt-master/mqtt/src/MQTTPacket.c:29-45 | The loop writes exactly the encoding at the cursor and nothing else |
| MqttPacket.DecodeEncode | stm32f4_ucosii_lwip_mqtt-master/mqtt/src/MQTTPacket.c:29-81 | Decoding inverts encoding for 0 to 268435455, whatever follows |
| MqttPacket.DecodeBuf | stm32f4_ucosii_lwip_mqtt-master/mqtt/src/MQTTPacket.c:54-118 | The decoding loop gives the value of the length field and its size, for any bytes |
| MqttPacket.PacketLenExact | stm32f4_ucosii_lwip_mqtt-master/mqtt/src/MQTTPacket.c:84-98 | Never less than the packet takes, and one more at exactly four lengths |
| MqttStrings.WriteMqttString | stm32f4_ucosii_lwip_mqtt-master/mqtt/src/MQTTPacket.c:194-209 | Both forms of a string are written as length and characters, the cursor moves behind them, the rest of the buffer stays |
| MqttStrings.BigEndian | stm32f4_ucosii_lwip_mqtt-master/mqtt/src/MQTTPacket.c:125-188 | Numbers and string lengths have the high byte first |
| MqttStrings.ReadLenString | stm32f4_ucosii_lwip_mqtt-master/mqtt/src/MQTTPacket.c:215-240 | Succeeds if and only if length and characters end at the given end at the latest, and then gives these characters |
| MqttPublish.SerializePublish | stm32f4_ucosii_lwip_mqtt-master/mqtt/src/MQTTSerializePublish.c:55-91 | Writes exactly the packet of section 3.3 and nothing behind it, its first byte 3 in the high half and dup, QoS and retain in the bits below, or refuses a short buffer and leaves it alone |
| MqttPublish.PublishWire | stm32f4_ucosii_lwip_mqtt-master/mqtt/src/MQTTSerializePublish.c:55-91 | Two packets byte by byte: with a packet identifier and every flag, and without either |
| MqttPublish.DeserializePublish | stm32f4_ucosii_lwip_mqtt-master/mqtt/src/MQTTDeserializePublish.c:36-69 | Every field of a PUBLISH packet comes back, with any valid length field |
| MqttPublish.EchoPublish | stm32f4_ucosii_lwip_mqtt-master/mqtt/src/MQTTDeserializePublish.c:36-69 | Serialising, then deserialising is the identity on every field; a refused buffer was too short by at most one byte |
| MqttSubscribe.SubscribeLength | stm32f4_ucosii_lwip_mqtt-master/mqtt/src/MQTTSubscribeClient.c:28-36 | The declared length is the length of variable header and payload |
| MqttSubscribe.SerializeSubscribe | stm32f4_ucosii_lwip_mqtt-master/mqtt/src/MQTTSubscribeClient.c:50-86 | Writes exactly the packet of section 3.8, one item per filter in order, its first byte 0x82 or with dup 0x8A, or refuses |
| MqttSubscribe.SubscribeWire | stm32f4_ucosii_lwip_mqtt-master/mqtt/src/MQTTSubscribeClient.c:50-86 | The packet of two filters with QoS 1 and 2, byte by byte |
| MqttSubscribe.DeserializeSubscribe | stm32f4_ucosii_lwip_mqtt-master/mqtt/src/MQTTSubscribeServer.c:35-70 | All filters with their QoS come back in order, and the loop ends with the packet |
| MqttSubscribe.EchoSubscribe | stm32f4_ucosii_lwip_mqtt-master/mqtt/src/MQTTSubscribeServer.c:35-70 | Identity for any number of filters in either string form; refused exactly when MQTTPacket_len exceeds the buffer |
| MqttSubscribe.SerializeUnsubscribe | stm32f4_ucosii_lwip_mqtt-master/mqtt/src/MQTTUnsubscribeClient.c:49-82 | Writes exactly the packet of section 3.10, its first byte 0xA2 or with dup 0xAA, or refuses |
| MqttSubscribe.UnsubscribeWire | stm32f4_ucosii_lwip_mqtt-master/mqtt/src/MQTTUnsubscribeClient.c:49-82 | The packet of two filters, byte by byte |
| MqttSubscribe.DeserializeUnsubscribe | stm32f4_ucosii_lwip_mqtt-master/mqtt/src/MQTTUnsubscribeServer.c:34-66 | All filters come back in order |
| MqttSubscribe.EchoUnsubscribe | stm32f4_ucosii_lwip_mqtt-master/mqtt/src/MQTTUnsubscribeServer.c:34-66 | Identity for any number of filters |
| MqttConnect.ConnectLength | stm32f4_ucosii_lwip_mqtt-master/mqtt/src/MQTTConnectClient.c:27-48 | The declared length is the length of the packet body for every choice of optional fields |
| MqttConnect.SerializeConnect | stm32f4_ucosii_lwip_mqtt-master/mqtt/src/MQTTConnectClient.c:58-121 | Writes exactly the packet of section 3.1 for every choice of will, user name and password, its first byte 0x10, version and keep-alive time behind the protocol name and between them the flags of section 3.1.2.3 bit by bit; or refuses |
| MqttConnect.ConnectWire | stm32f4_ucosii_lwip_mqtt-master/mqtt/src/MQTTConnectClient.c:58-121 | A packet of version 4 with every optional field, byte by byte |
| MqttConnect.ConnectWire3 | stm32f4_ucosii_lwip_mqtt-master/mqtt/src/MQTTConnectClient.c:58-121 | One of version 3 with none |
| MqttConnect.FlagFields | stm32f4_ucosii_lwip_mqtt-master/mqtt/src/MQTTConnectServer.c:79-101 | The flags byte bit by bit, in figures; every flag read from it is the one that was put in |
| MqttConnect.CheckVersion | stm32f4_ucosii_lwip_mqtt-master/mqtt/src/MQTTConnectServer.c:30-42 | Accepts if and only if the version is 3 or 4 and the name agrees with its protocol name as far as the shorter of the two goes |
| MqttConnect.OtherNames | stm32f4_ucosii_lwip_mqtt-master/mqtt/src/MQTTConnectServer.c:30-42 | What else passes for the protocol name: exactly its proper parts from the start, the empty one included, and what continues it |
| MqttConnect.DeserializeConnect | stm32f4_ucosii_lwip_mqtt-master/mqtt/src/MQTTConnectServer.c:51-108 | A packet, whatever follows it in the buffer, is taken if and only if a password comes with a user name and, when nothing follows, the last credential is not empty; then every field comes back |
| MqttConnect.EmptyUser | stm32f4_ucosii_lwip_mqtt-master/mqtt/src/MQTTConnectServer.c:91-104 | A packet the standard allows that is refused: an empty user name and no password |
| MqttConnect.EchoConnect | stm32f4_ucosii_lwip_mqtt-master/mqtt/src/MQTTConnectServer.c:51-108 | Identity on all fields but the version, which is never stored, exactly when the credentials allow |
| MqttStream.DecodeNb | stm32f4_ucosii_lwip_mqtt-master/mqtt/src/MQTTPacket.c:324-352 | Goes on with a length field of which some bytes were read before; no byte is lost or read twice; fails only on a transport error or a fifth byte |
| MqttStream.ReadNb | stm32f4_ucosii_lwip_mqtt-master/mqtt/src/MQTTPacket.c:362-411 | One call from any state: bytes taken are part of the packet at hand and of nothing behind it; a finished packet is in the buffer exactly; a failure has a cause and resets the state |
| MqttStream.WireUnique | stm32f4_ucosii_lwip_mqtt-master/mqtt/src/MQTTPacket.c:324-411 | A stream can be cut into packets in one way only |
| MqttStream.ReadStream | stm32f4_ucosii_lwip_mqtt-master/mqtt/src/MQTTPacket.c:362-411 | Repeated calls over any fragmentation return exactly the packets of the stream in order, each with its type and bytes, and nothing of the next packet is consumed; enough answers deliver all of them |
| MqttStream.ReadBlocking | stm32f4_ucosii_lwip_mqtt-master/mqtt/src/MQTTPacket.c:290-316 | On any stream: what is read is the first byte, the value of the next bytes up to one without the top bit or four or the end, and as many bytes as that says; -1 when they are not there or do not fit |
| MqttStream.TakesPacket | stm32f4_ucosii_lwip_mqtt-master/mqtt/src/MQTTPacket.c:54-118 | A packet at the start of a stream is what is taken |
| MqttStream.TakenPacket | stm32f4_ucosii_lwip_mqtt-master/mqtt/src/MQTTPacket.c:290-316 | What is taken is a packet if and only if the stream starts with one; two streams with an unfinished length field from which it takes one all the same |
| MqttStream.ReadBoth | stm32f4_ucosii_lwip_mqtt-master/mqtt/src/MQTTPacket.c:290-411 | On every stream of packets both readers agree: what the resumable one returned, whatever the fragmentation, is what the blocking one returns first, and all of it when the answers deliver the stream |

## Left out

- FileSession.Run: on a volume with FSINFO in front of its FAT, because f_sync breaks the FAT otherwise, as FsInfoOverFat shows; the file is open for reading and writing; a synchronisation with nothing written since the last one does not touch the drive, and nothing is said of the drive then.
- LockTable.Run: ends at the first 256th reader of an object, because the table no longer tells its readers then, as Opened shows.
- FWrite: with a table attached asks for one that CREATE_LINKMAP filled and f_truncate did not cut since, as FRead and FSeek do, because anything else in it sends the file to clusters it does not own; the time stamp of the entry is a parameter of FSync.
- FSync: what an f_write or f_lseek that was aborted by an entry holding 1 leaves behind is told by its answer and the abort flag; synchronising such a file is outside the statement after f_write, whose size is not updated then.
- EchoName: as PrintUpper; the tables behind ff_convert and ff_wtoupper are parameters, of which `Tables` says what holds of the entries of cc936.c; get_fileinfo prints bytes, as it does for `_LFN_UNICODE` 0.
- RegisterPath: names of 255 characters are not registered, because no search matches them afterwards, as AllAgree shows.
- RegisterThenFind: for tables whose zero entries are all at the end, which is how every table in use is.
- EchoPublish: the packet identifier comes back above QoS 0 only, because it is not sent otherwise.
- AllAgree: ff_wtoupper is any function that maps zero and nothing else to zero.
- Disk errors: the drive answers every request for a sector it has; FR_DISK_ERR paths are left out, but for sectors f_mkfs or find_volume ask for behind the end of the drive.
- An entry holding 0 or 1 on the chain of an open file or directory table, and a chain that runs in a circle: the chains of open files and tables are complete; anywhere else in the FAT any entry may hold 1, and remove_chain, create_chain and f_getfree are modelled on any table.
- The read-only, tiny-buffer, re-entrant, multi-partition, multi-sector-size and relative-path configurations.
- `_FS_LOCK` is 0 in ffconf.h, which compiles the lock table out; it is modelled for a table of any size, apart from the files.
- f_open, f_close, f_opendir, f_readdir, f_unlink, f_mkdir, f_rename, f_chmod, f_utime, labels, dir_read, dir_remove and follow_path; they combine the modelled parts.
- f_mkdir leaves a zeroed window marked clean for a moment, which breaks the window invariant until the next move_window.
- f_forward, f_fdisk, f_gets, f_puts, f_printf: formatting or easy members.
- The boot sectors and the FAT head are values built by functions rather than byte by byte in the window; name buffers are arrays where the source writes to them and values where it only reads.
- Malformed MQTT packets, where early exits answer the size of the length field; the deserializers are proved on packets as the standard has them, the readers on any stream.
- Acknowledgements, CONNACK, SUBACK, UNSUBACK, PINGREQ, DISCONNECT: short packets of fixed form.
- MQTTFormat.c, the network callbacks, the drivers and the applications.
