# A verified model of the file system, CANopen and socket cores

This project models three parts of the firmware in Dafny and proves what they are for.

**FatFs (`ff.c`).** A volume is an array of sectors behind a one-sector write-back window. On it stand, each proved
against a simpler counterpart of the one below:

- the packed FAT12/16/32 codec and the window, as a map from clusters to links (`FatCodec`, `FatVolume`);
- the cluster allocator, as a forest of disjoint chains with a free count (`ClusterChains`, `ClusterForest`);
- an open file with its private sector buffer, as a byte sequence with a cursor (`FileLayout`, `FatFile`), with the
  run-length link map of fast seek (`FastSeek`), and two files side by side (`StaleBuffer`);
- directory tables, as maps from names to entries (`DirTable`, `FatDir`), and long names in them: written and read
  (`LongName`, `LongDir`), looked for (`LongFind`), and registered and removed as a map (`LongMap`);
- wildcard matching, against a declarative semantics (`PatternMatch`);
- as a separate variant, exFAT: the allocation bitmap in packed bytes (`AllocationBitmap`) and chains that are only
  partly on the FAT (`ExFat`).

**CanFestival.** Communicating nodes as state machines: SDO transfers, expedited, segmented and in blocks (`SdoLine`,
`SdoNode`, `SdoSegmented`, `SdoBlock`; CiA 301, section 7.2.4), the LSS FastScan (`FastScan`, `LssNode`; CiA 305),
packing and unpacking of PDOs (`BitCopy`, `Pdo`; CiA 301, section 7.2.2; `Bits`) and the alarm table (`Alarms`).

**lwIP (`api_msg.c`).** The resumable vectored write (`VectoredWrite`).

Code which changes objects in place is modelled as classes with loops; where a theorem is about whole runs, each
method is proved equal to a step function, and the theorem is about that function. `dafny verify dfyconfig.toml`
checks everything.

## Assumptions

- FatFs: sectors of 512 bytes, `FF_FS_TINY` 0, read/write, one or two FATs, `FF_FS_EXFAT` 0 for all modules but the
  exFAT ones, long names only in the modules named after them. The disk never fails, so `FR_DISK_ERR` does not occur.
  What mounting checks (sizes, bounds of `n_fatent`, a data area inside the disk) is the invariant of a volume.
  Masking with the cluster size less one is written as a remainder. The root directory of a FAT12/16 volume fills
  whole sectors. The size of the long name buffer, `FF_MAX_LFN` + 1, is not a multiple of 13, and case folding maps
  the end mark, and nothing else, to itself.
- Where the source returns `FR_INT_ERR` for states which the invariant excludes, the model has the branch and proves
  that it is not reached.
- SDO: one transfer line at each node, the fixed-size line buffer, little-endian byte order. Block transfers have a
  block size below 32 and 1 to 255 bytes: `lastblockoffset` is 8 bits wide (sdo.c:1462, sdo.c:1534), and a segment
  number of 32 or more in the first byte would read as a command specifier. In the protocol theorems the channel keeps
  the order of frames; for block transfers it may lose any of them.
- FastScan: the code inside the `CO_ENABLE_LSS_FS` guards, every answer arrives before the time-out.
- PDO: mapped objects are not strings; index and subindex are one key; the range test of an object is a parameter.
- lwIP: no send time-out, no core locking; what `tcp_write`, the send buffer and `tcp_output` answer is a parameter.
- Timers: `value` plus the elapsed time does not wrap; callbacks are scripts of `SetAlarm` and `DelAlarm` calls.

## Findings

Properties which the code does not have in general, with the exact condition or a witness:

- `f_getfree` on FAT16 and FAT32 also looks at entries 0 and 1 (`FatVolume.Volume.GetFree`: exact just when they are
  not zero, or the count was known).
- `f_expand` on FAT volumes, with allocation (`opt` set) and a sound table, succeeds just when the first free run does
  not cross the end of the table (`FatVolume.Volume.Expand`, `ClusterForest.ClusterSpace.Allocate`;
  `ClusterChains.RunCanCross` is such a run). Where it crosses, it fails after it has linked the clusters up to the
  end and without adjusting the free count. Without allocation it succeeds there, too, and stores as the next hint the
  cluster before a run that is not contiguous.
- `f_expand` on exFAT with allocation gives the object a chain of its size just when the first free run does not cross
  the end of the table. Where it crosses, it succeeds all the same unless a bit behind the allocation bitmap is set,
  the object has clusters past the last one, and those at the start of the table stay free (`ExFat.ExObject.Expand`).
- After `f_truncate` the clean sector buffer may belong to a freed cluster (`FatFile.FileObj.Truncate`). What is done
  to another open file then keeps this one just when the sector in its buffer has not been written with other bytes
  (`FatFile.FileObj.OtherFileKept`, `FatFile.FileObj.OtherFileKeptCut`); it is enough that the buffer was empty before
  or held a sector of its own file. `StaleBuffer.Run` is a run in which the buffer ends up out of date.
- `CREATE_LINKMAP` fails just when the end mark of the chain equals the number after its last cluster
  (`FastSeek.LinkMap.Create`). With a link map `f_write` reports a full disk at the end of the chain
  (`FastSeek.LinkMap.NextCluster`).
- The wildcard test is right for all names just when the pattern has at most four wildcard terms, beyond which it
  never reports a match, and each has under 256 question marks (`PatternMatch.RightForAllNames`). 256 of them match
  like a star (`PatternMatch.LongTerm`).
- An expedited SDO transfer of no bytes delivers four (`SdoSegmented.ExpeditedDownload`,
  `SdoSegmented.ExpeditedUpload`: the data arrives just when it is not empty).
- A node without an SDO client entry never releases a line by its time-out (`SdoNode.Node.OnTimeout`).
- A blocking vectored write can take turns which send nothing: with further vectors left, no buffer space and a 16-bit
  remainder of zero (`VectoredWrite.TurnWithoutProgress`).
- The assertion that the offset is below the length, with which a vectored write is taken up again, holds just when a
  byte is left (`VectoredWrite.WriteMsg.Unfinished`), not with only empty vectors to go
  (`VectoredWrite.Conn.EmptyBehind`).
- With overrun a periodic alarm is next due whole intervals after the wake-up, not after its own deadline, unless that
  was whole intervals after the wake-up itself (`Alarms.AlarmTable.TimeDispatch`).

## Model

| member | source | states |
|---|---|---|
| FatCodec.DecodeStored | Application/Users/FATFS/src/ff.c:1147-1165 | An entry stored by put_fat reads back by get_fat as the value cut to the width of the format, for FAT12, FAT16 and FAT32 |
| FatCodec.DecodeOther | Application/Users/FATFS/src/ff.c:1221-1250 | Storing one entry leaves the value of every other entry as it was, the FAT12 neighbour in the shared byte included |
| FatCodec.TopsKept | Application/Users/FATFS/src/ff.c:1245-1249 | put_fat leaves the top four bits of every FAT32 entry alone |
| FatCodec.TableUpdate | Application/Users/FATFS/src/ff.c:1209-1258 | On the table of links put_fat is one map update |
| FatVolume.Volume.SyncWindow | Application/Users/FATFS/src/ff.c:1025-1041 | A dirty window goes to its sector, and to the mirror if that sector is in the first FAT; nothing else changes, and every FAT sector not dirty in the window equals its mirror |
| FatVolume.Volume.MoveWindow | Application/Users/FATFS/src/ff.c:1047-1068 | The window shows the wanted sector; the content of every sector, window before disk, is as it was outside the second FAT |
| FatVolume.Volume.GetFat | Application/Users/FATFS/src/ff.c:1131-1200 | The link of the cluster, or 1 out of range, in all three formats, also for an entry across two sectors; no link and no data sector changes |
| FatVolume.Volume.PutFat | Application/Users/FATFS/src/ff.c:1209-1258 | The table changes at exactly the one entry, or not at all with FR_INT_ERR out of range, while the write-back window may move between the two bytes of the entry; every data sector stays |
| ClusterChains.CreateKeepsForest | Application/Users/FATFS/src/ff.c:1570-1574 | After any number of the put_fat calls of create_chain the used clusters are a forest of disjoint chains; after all of them the chain has grown by exactly the new cluster |
| ClusterChains.RemoveKeepsForest | Application/Users/FATFS/src/ff.c:1417-1456 | The same for remove_chain: after any prefix of its writes a forest, at the end the kept clusters and nothing else of the chain |
| ClusterChains.RunAddsChain | Application/Users/FATFS/src/ff.c:5542-5552 | The writes of f_expand over free clusters add one chain of consecutive clusters to the forest |
| ClusterChains.RunNoSharing | Application/Users/FATFS/src/ff.c:5542-5552 | After any prefix of the writes of f_expand no cluster has two predecessors |
| ClusterChains.RemoveApplied | Application/Users/FATFS/src/ff.c:1417-1456 | remove_chain frees exactly the suffix, ends the cluster before it, and leaves every other entry |
| ClusterChains.CreateCount | Application/Users/FATFS/src/ff.c:1576-1579 | An exact or unknown free count stays so over create_chain |
| ClusterChains.RunCount | Application/Users/FATFS/src/ff.c:5562-5565 | An exact or unknown free count stays so over f_expand |
| ClusterChains.CountZero | Application/Users/FATFS/src/ff.c:1515 | With an exact or unknown count, a count of zero means that no cluster is free |
| ClusterChains.NearestUnique | Application/Users/FATFS/src/ff.c:1556-1569 | The cyclic scan from a hint determines its cluster |
| ClusterChains.ScanStep | Application/Users/FATFS/src/ff.c:5529-5541 | One turn of the search for a run: it completes the first free run, extends it, or starts again, without missing an earlier one |
| ClusterChains.ScanEnds | Application/Users/FATFS/src/ff.c:5540 | After a whole round without success there is no free run of the length asked for |
| ClusterChains.RunConsecutive | Application/Users/FATFS/src/ff.c:5529-5541 | A run found is a block of consecutive clusters just when it does not pass the end of the table |
| ClusterChains.FirstRunDecides | Application/Users/FATFS/src/ff.c:5529-5541 | The first free run is one only: it fits below the end of the table or it crosses it |
| ClusterChains.RunCanCross | Application/Users/FATFS/src/ff.c:5529-5552 | A table of six entries whose first free run of two clusters crosses the end |
| FatVolume.Volume.PickedUnique | Application/Users/FATFS/src/ff.c:1544-1569 | The links and the hint determine the cluster which create_chain takes |
| FatVolume.Volume.PickCluster | Application/Users/FATFS/src/ff.c:1544-1569 | The choice of create_chain: the next number if that cluster is free, otherwise the first free one after the hint; 0 only if none is free |
| FatVolume.Volume.CreateChain | Application/Users/FATFS/src/ff.c:1494-1585 | An existing successor is returned and nothing changes; otherwise exactly the two writes for the chosen free cluster are made and the count is kept; with an exact or unknown count it reports a full disk just when no cluster is free |
| FatVolume.Volume.RemoveChain | Application/Users/FATFS/src/ff.c:1399-1456 | The writes are exactly those which end the kept part and free the suffix; the free count stays exact or unknown |
| FatVolume.Volume.FindRun | Application/Users/FATFS/src/ff.c:5529-5541 | The first free run in scan order, or FR_DENIED just when there is none, although the run counter is not reset at the wrap-around |
| FatVolume.Volume.Expand | Application/Users/FATFS/src/ff.c:5528-5567 | f_expand (FAT branch), both options: it takes the first free run in scan order; on a sound table with opt set it succeeds just when that run does not cross the end of the table; where it crosses, the part written stays and the count is not adjusted |
| FatVolume.Volume.GetFree | Application/Users/FATFS/src/ff.c:4769-4828 | f_getfree: with an exact or unknown count the answer is the number of free clusters just when the count was known, the format is FAT12, or entries 0 and 1 are not zero |
| ClusterForest.ClusterSpace.Stretch | Application/Users/FATFS/src/ff.c:1494-1585 | create_chain at the end of a chain keeps the forest and the count; it fails just when nothing is free |
| ClusterForest.ClusterSpace.Follow | Application/Users/FATFS/src/ff.c:1508-1514 | create_chain inside a chain returns the successor and changes nothing |
| ClusterForest.ClusterSpace.Remove | Application/Users/FATFS/src/ff.c:1399-1456 | remove_chain keeps the forest and the count; exactly the suffix becomes free |
| ClusterForest.ClusterSpace.Allocate | Application/Users/FATFS/src/ff.c:5528-5567 | f_expand with opt set: FR_OK just when the first free run does not cross the end of the table, and then a chain of consecutive clusters which were free is added; FR_DENIED just when there is no run; FR_INT_ERR just when the first run crosses: the clusters up to the end of the table are then a chain of no object, with the old count, which is that much too large |
| FatFile.FileObj.constructor | Application/Users/FATFS/src/ff.c:3653-3842 | What f_open leaves is a valid object: the cursor at the start and nothing in the buffer |
| FatFile.FileObj.Read | Application/Users/FATFS/src/ff.c:3850-3940 | f_read returns the slice of the byte sequence at the cursor, as long as asked for or left, over the direct, buffered and partial-sector paths, and nothing but the cursor moves |
| FatFile.FileObj.Write | Application/Users/FATFS/src/ff.c:3950-4062 | f_write splices the bytes into the sequence at the cursor; fewer only where the disk is full or the file ends at 4 GiB; it fails only on a damaged FAT; nothing at all is written only on a disk which was full before |
| FatFile.FileObj.Seek | Application/Users/FATFS/src/ff.c:4445-4519 | f_lseek puts the cursor at the target, clipped to the size without write access; beyond the end the file grows, short of the target only on a full disk; the old bytes stay |
| FatFile.FileObj.Truncate | Application/Users/FATFS/src/ff.c:4842-4885 | f_truncate cuts the sequence at the cursor, keeps exactly the clusters for the bytes left, frees the others and keeps the count; the buffer is clean and equals its sector, even where the file has lost that sector |
| FatFile.FileObj.OtherFileKept | Application/Users/FATFS/src/ff.c:3850-4062 | Two open files with no cluster in common: whatever f_read, f_write and f_lseek do to one, the other keeps its clusters and bytes; it stays valid if before its buffer was empty or held one of its sectors, and in any case just when the sector in its buffer has not been written with other bytes |
| FatFile.FileObj.OtherFileKeptCut | Application/Users/FATFS/src/ff.c:4842-4885 | The same over f_truncate of the one file: the other keeps its clusters and bytes, and it stays valid just when the sector in its buffer has not been written with other bytes |
| StaleBuffer.Run | Application/Users/FATFS/src/ff.c:4842-4885 | A run in which f_truncate frees the cluster of the sector in the buffer, another file takes the cluster and writes it, and the buffer no longer equals the disk |
| FatFile.OnlyFileTwice | Application/Users/FATFS/src/ff.c:3950-4062 | Changes which stay inside one file compose |
| FatFile.FileObj.NextCluster | Application/Users/FATFS/src/ff.c:3977-3999 | At a cluster boundary f_write finds the next cluster of the file or adds one; the invariant of the cursor holds again |
| FatFile.FileObj.WriteDirect | Application/Users/FATFS/src/ff.c:4011-4032 | Whole sectors straight from the caller, the sector buffer refilled where it has become stale |
| FatFile.FileObj.FetchSectors | Application/Users/FATFS/src/ff.c:3896-3915 | Whole sectors straight to the caller, a dirty buffer in place of its stale sector |
| FatFile.FileObj.SeekFollow | Application/Users/FATFS/src/ff.c:4473-4494 | The loop of f_lseek over the chain, stretching it in write mode |
| FatFile.SplicedRun | Application/Users/FATFS/src/ff.c:4011-4032 | Writing whole sectors changes the file as it changes the sectors |
| FatFile.SplicedPart | Application/Users/FATFS/src/ff.c:4047-4055 | Writing part of a sector changes the file as it changes the sector |
| FileLayout.SectorsApart | Application/Users/FATFS/src/ff.c:1114-1123 | Files without a common cluster have no common sector |
| FileLayout.ChainGivesSectors | Application/Users/FATFS/src/ff.c:1114-1123 | The sectors of a chain are distinct and lie in the data area |
| FastSeek.FragmentsEncode | Application/Users/FATFS/src/ff.c:4394-4418 | The fragments of a chain are its run-length encoding: they stand for it, none is empty, no two neighbours could be joined |
| FastSeek.LinkMap.Create | Application/Users/FATFS/src/ff.c:4394-4418 | CREATE_LINKMAP fills the table with the encoding; the size reported is twice the fragments plus two; FR_NOT_ENOUGH_CORE just when that exceeds the size given; FR_INT_ERR just when the end mark of the chain looks like the next cluster number |
| FastSeek.LinkMap.ClmtClust | Application/Users/FATFS/src/ff.c:1597-1615 | clmt_clust equals walking the chain, and 0 behind its end |
| FastSeek.LinkMap.Seek | Application/Users/FATFS/src/ff.c:4419-4440 | A seek by the map ends with the cursor, cluster and sector which the chain gives, in a valid file object |
| FastSeek.LinkMap.LocateRead | Application/Users/FATFS/src/ff.c:3875-3895 | f_read with a map finds the same cluster and sector as without, and reads no FAT entry |
| FastSeek.LinkMap.NextCluster | Application/Users/FATFS/src/ff.c:3984-3994 | f_write with a map follows the chain but never lengthens it: at its end it reports a full disk, whatever is free |
| Bits.Flipped | Application/Users/FATFS/src/ff.c:1335 | The exclusive or with a mask flips one bit of a byte and leaves the others |
| AllocationBitmap.BitMap.FindBitmap | Application/Users/FATFS/src/ff.c:1274-1307 | The stepping through bits, bytes and sectors finds the first free run in scan order, or 0 just when there is none; no bit changes |
| AllocationBitmap.BitMap.ScanBit | Application/Users/FATFS/src/ff.c:1292-1303 | What the scan makes of one bit, at the wrap-around as well |
| AllocationBitmap.BitMap.ChangeBitmap | Application/Users/FATFS/src/ff.c:1314-1343 | The bits of the block become the value one after the other, up to the first which has it already; FR_OK just when none has; no other bit changes, in packed bytes across sectors and also past the last cluster, where the function does not stop |
| ExFat.FoundOne | Application/Users/FATFS/src/ff.c:1292-1303 | find_bitmap asked for one cluster: 0 just when none is free |
| ExFat.LinkOf | Application/Users/FATFS/src/ff.c:1167-1191 | What get_fat reports of the lazy chain: the end at the last cluster; the next cluster elsewhere, once no fragment is pending |
| ExFat.ExObject.GetFat | Application/Users/FATFS/src/ff.c:1167-1191 | get_fat over the status, the counters and the FAT |
| ExFat.ExObject.FillFirstFrag | Application/Users/FATFS/src/ff.c:1350-1366 | The links implied by the status go to the FAT; the object stands for the same chain |
| ExFat.ExObject.FillLastFrag | Application/Users/FATFS/src/ff.c:1373-1388 | The pending links go to the FAT, the last cluster gets the given link |
| ExFat.ExObject.Flush | Application/Users/FATFS/src/ff.c:1350-1388 | After both the plain walk over the FAT gives the chain, unless it is contiguous |
| ExFat.ExObject.CreateChain | Application/Users/FATFS/src/ff.c:1494-1585 | It fails just when no cluster is free; otherwise the object stands for the same chain with one free cluster appended; the count stays exact or unknown |
| ExFat.ExObject.Append | Application/Users/FATFS/src/ff.c:1526-1540 | The new status, counters and links stand for the chain with the cluster appended, in every case of the status |
| ExFat.ExObject.RemoveChain | Application/Users/FATFS/src/ff.c:1399-1482 | On a flushed chain exactly the suffix becomes free and the new status stands for the kept prefix |
| ExFat.ExObject.Expand | Application/Users/FATFS/src/ff.c:5504-5567 | f_expand on exFAT takes the first free run in scan order. With opt set and FR_OK the object stands for a chain of its size just when that run does not cross the end of the table; otherwise the bits behind the map are set and the clusters at the start of the table are not |
| ExFat.BlockTaken | Application/Users/FATFS/src/ff.c:5514-5526 | What change_bitmap makes of a run which find_bitmap has found wrapped around: FR_INT_ERR just when a bit behind the map is set |
| ExFat.ExObject.IsContiguous | Application/Users/FATFS/src/ff.c:1464-1475 | The check whether the kept chain has become contiguous |
| ExFat.Kept | Application/Users/FATFS/src/ff.c:1458-1482 | The kept prefix is what the status stands for, as the status is or as contiguous |
| ExFat.AppendFragment | Application/Users/FATFS/src/ff.c:1535-1538 | A cluster which does not follow starts a new fragment once the last one is on the FAT |
| DirTable.FindsAll | Application/Users/FATFS/src/ff.c:2386-2424 | In a table where nothing live follows the first unused entry, dir_find finds a name just when an entry has it |
| DirTable.Registered | Application/Users/FATFS/src/ff.c:2510-2528 | A registered name is found where it was put; every other name resolves as before |
| DirTable.Removed | Application/Users/FATFS/src/ff.c:2565-2574 | A removed name is absent; every other name resolves as before |
| DirTable.Stretched | Application/Users/FATFS/src/ff.c:1740-1757 | A stretch into a cleared cluster changes no name |
| FatDir.Dir.SetIndex | Application/Users/FATFS/src/ff.c:1666-1706 | The cursor goes to the entry at the offset, or FR_INT_ERR just when there is none |
| FatDir.Dir.Next | Application/Users/FATFS/src/ff.c:1714-1765 | The cursor goes to the next entry; at the end the table grows by a cluster of blank entries, or is left as it was |
| FatDir.Dir.Stretch | Application/Users/FATFS/src/ff.c:1740-1757 | create_chain and dir_clear for the table: old entries kept, new ones blank, no other sector touched |
| FatDir.Dir.FindName | Application/Users/FATFS/src/ff.c:2386-2424 | dir_find ends on the entry with the name or reports FR_NO_FILE just when there is none; table, links and counts stay |
| FatDir.Dir.Allocate | Application/Users/FATFS/src/ff.c:1775-1806 | The first free entry; FR_DENIED only with every entry in use and a table which cannot grow |
| FatDir.Dir.Register | Application/Users/FATFS/src/ff.c:2510-2528 | An absent name gets an entry and is then found there; every other name keeps its place; sectors outside the table stay |
| FatDir.Dir.Remove | Application/Users/FATFS/src/ff.c:2565-2574 | The name is absent afterwards and every other name keeps its place |
| LongName.SumSfn | Application/Users/FATFS/src/ff.c:2022-2033 | The checksum over the eleven bytes |
| LongName.PutLfn | Application/Users/FATFS/src/ff.c:1928-1953 | An entry with the thirteen characters of its piece, the end mark and the filler, and the order byte |
| LongName.PickLfn | Application/Users/FATFS/src/ff.c:1890-1919 | pick_lfn equals its specification on any entry and buffer |
| LongName.PickPiece | Application/Users/FATFS/src/ff.c:1890-1953 | pick_lfn of what put_lfn made puts exactly the piece into the buffer, also for lengths which are multiples of 13 |
| LongDir.ReadNext | Application/Users/FATFS/src/ff.c:2312-2330 | The loop of dir_read equals its specification: orders, checksums and resets |
| LongDir.NameReadBack | Application/Users/FATFS/src/ff.c:2312-2330 | A name written in pieces before its short entry is read back exactly, whatever the buffer held |
| LongDir.AllocateBlock | Application/Users/FATFS/src/ff.c:1775-1806 | dir_alloc for several entries: the block is free and no such row of free entries ends before it; FR_DENIED only where no row is long enough and the table cannot grow, FR_INT_ERR only on a damaged FAT |
| LongDir.RegisterLong | Application/Users/FATFS/src/ff.c:2493-2528 | The pieces and the short entry are written into the first free block and nothing else changes; a well-kept directory stays well kept, the short name is found there, every other name where it was; it fails only as dir_alloc does |
| LongDir.BlockRegistered | Application/Users/FATFS/src/ff.c:2493-2528 | What the block does to the names of the table |
| LongDir.WriteAndRead | Application/Users/FATFS/src/ff.c:2312-2528 | A name registered and then read from its first entry on comes back exactly, with its own entry |
| LongFind.CmpLfn | Application/Users/FATFS/src/ff.c:1854-1882 | cmp_lfn equals its specification on any entry and buffer |
| LongFind.AllPieces | Application/Users/FATFS/src/ff.c:1854-1882 | The pieces of a name all compare equal with the buffer just when the names are the same up to case folding |
| LongFind.FindLong | Application/Users/FATFS/src/ff.c:2386-2424 | The loop of dir_find with long names equals its specification: the entry found and the offset of its block |
| LongFind.FindFirst | Application/Users/FATFS/src/ff.c:2386-2424 | In a well-ended table dir_find ends on the first entry which the name hits, by the pieces before it or by the short name, and fails just when there is none; the block is the pieces before the entry |
| LongMap.BlockHit | Application/Users/FATFS/src/ff.c:2386-2528 | A search hits a registered name just when it asks for its long name, in either case of letters, or its short name |
| LongMap.LongRegistered | Application/Users/FATFS/src/ff.c:2386-2528 | Once a name stands in a free block every search ends on it, with its block, if it asks for it and nothing before is hit, and where it ended before otherwise |
| LongMap.RegisterName | Application/Users/FATFS/src/ff.c:2493-2528 | dir_register, and what every later search arrives at; where it fails no search changes |
| LongMap.RemoveBlock | Application/Users/FATFS/src/ff.c:2540-2565 | dir_remove deletes exactly the entries from the start of the block to the short entry |
| LongMap.LongRemoved | Application/Users/FATFS/src/ff.c:2386-2565 | Once the entry found is removed with its block no search hits it, every other entry is hit as before, and every search which did not end there ends where it did |
| LongMap.RemoveName | Application/Users/FATFS/src/ff.c:2353-2565 | dir_find and dir_remove together: FR_NO_FILE and no change just when nothing is found, otherwise the entry goes with its pieces |
| LongMap.RegisteredRemoved | Application/Users/FATFS/src/ff.c:2353-2565 | Removing what was registered undoes it: every search ends where it did before |
| PatternMatch.RunMatches | Application/Users/FATFS/src/ff.c:2773-2779 | A wildcard term means as many characters as it has question marks, or more with a star |
| PatternMatch.PatternMatch | Application/Users/FATFS/src/ff.c:2752-2791 | The result is what the code accepts, for every pattern, provided it has no more wildcard terms than the recursion count; the early stop at the end of the name loses no match; it terminates |
| PatternMatch.Test | Application/Users/FATFS/src/ff.c:2718-2791 | The result for every pattern and name: accepted, and at most four wildcard terms. Where each term has under 256 question marks that is the declarative meaning, within those four terms |
| PatternMatch.AcceptsShort | Application/Users/FATFS/src/ff.c:2752-2791 | What the code accepts is what the pattern means, where each term has under 256 question marks |
| PatternMatch.RightForAllNames | Application/Users/FATFS/src/ff.c:2718-2791 | The test is right for all names just when the pattern has at most four terms and each has under 256 question marks |
| PatternMatch.LongTerm | Application/Users/FATFS/src/ff.c:2773-2779 | 256 question marks in one term: the test answers that the empty name matches, which it does not |
| FastScan.Words | Application/Users/CanFestival/src/lss.c:203-287 | From the start of a word on: all words elected and exactly their holders in configuration mode, or an abort at a word whose known bits nobody has |
| FastScan.SearchFinds | Application/Users/CanFestival/src/lss.c:203-287 | The bitwise search for one word arrives at the least value some slave can take |
| FastScan.SearchFails | Application/Users/CanFestival/src/lss.c:203-287 | Where no slave can take the word the search arrives at a value nobody has |
| FastScan.ScanOutcome | Application/Users/CanFestival/src/lss.c:103-158 | Any network, any known bits: which of the three outcomes a scan has, with the number of requests |
| FastScan.FullScanElectsLeast | Application/Users/CanFestival/src/lss.c:203-287 | With every bit unknown the scan finishes after 133 requests, and exactly the slaves with the lexicographically least identity are in configuration mode |
| LssNode.Master.Start | Application/Users/CanFestival/src/lss.c:485-511 | The start of a scan, in place, equals the step function |
| LssNode.Master.OnIdentifySlave | Application/Users/CanFestival/src/lss.c:591-597 | An answer, in place, equals the step function |
| LssNode.Master.OnMsgTimeout | Application/Users/CanFestival/src/lss.c:103-158 | LssAlarmMSG, in place, equals the step function |
| LssNode.Master.OnScanTimeout | Application/Users/CanFestival/src/lss.c:203-287 | LssAlarmFS, in place, equals the step function |
| LssNode.Slave.OnFastScan | Application/Users/CanFestival/src/lss.c:904-981 | The slave, in place, equals the step function |
| SdoNode.Node.Receive | Application/Users/CanFestival/src/sdo.c:745-1790 | proceedSDO, all command specifiers and both roles, in place: state, buffer, object and frames sent are those of the step function the protocol theorems use |
| SdoNode.Node.ToLine | Application/Users/CanFestival/src/sdo.c:352-402 | SDOtoLine, in place |
| SdoNode.Node.FromLine | Application/Users/CanFestival/src/sdo.c:302-345 | lineToSDO, in place |
| SdoNode.Node.CommitObject | Application/Users/CanFestival/src/sdo.c:203-240 | SDOlineToObjdict and the release of the line |
| SdoNode.Node.FromObject | Application/Users/CanFestival/src/sdo.c:244-295 | objdictToSDOline: the line holds the object, or an error code |
| SdoNode.Node.Fail | Application/Users/CanFestival/src/sdo.c:416-440 | failedSDO: a server releases the line, a client keeps it as aborted, an abort frame is sent |
| SdoNode.Node.SendSegments | Application/Users/CanFestival/src/sdo.c:1462-1495 | The loop which sends a block equals its recursive specification |
| SdoNode.Node.OnTimeout | Application/Users/CanFestival/src/sdo.c:137-167 | SDOTimeoutAlarm: an abort and a free line, or nothing at all on a node without an SDO client of that number |
| SdoNode.Node.Write | Application/Users/CanFestival/src/sdo.c:1868-1983 | _writeNetworkDict: the request and the line |
| SdoNode.Node.Read | Application/Users/CanFestival/src/sdo.c:2086-2150 | _readNetworkDict: the request and the line |
| SdoSegmented.SegmentReceived | Application/Users/CanFestival/src/sdo.c:860-963 | One segment: the receiver extends its prefix of the data by exactly the bytes sent |
| SdoSegmented.DownloadReaches | Application/Users/CanFestival/src/sdo.c:860-1327 | At every exchange of a download the server has the prefix received so far and both toggles agree |
| SdoSegmented.DownloadDelivers | Application/Users/CanFestival/src/sdo.c:860-1327 | A segmented download ends finished in ceil(n/7) segments with the object equal to the data |
| SdoSegmented.UploadReaches | Application/Users/CanFestival/src/sdo.c:860-1327 | The same for every exchange of an upload |
| SdoSegmented.UploadDelivers | Application/Users/CanFestival/src/sdo.c:860-1327 | A segmented upload ends finished in ceil(n/7) segments with the bytes of the object |
| SdoSegmented.ExpeditedDownload | Application/Users/CanFestival/src/sdo.c:965-1094 | An expedited download ends finished, and delivers the data just when it is not empty |
| SdoSegmented.ExpeditedUpload | Application/Users/CanFestival/src/sdo.c:1096-1218 | An expedited upload ends finished, and delivers the object just when it is not empty |
| SdoBlock.StepKeeps | Application/Users/CanFestival/src/sdo.c:1359-1789 | Every step of two nodes, with any frame lost and any time-out, keeps the protocol invariant |
| SdoBlock.RunSafe | Application/Users/CanFestival/src/sdo.c:1359-1789 | In every run the receiver holds a prefix of the data; inside a block its offset is the sender's lastblockoffset plus 7 times its seqno; a finished transfer has delivered every byte; the object is the old one or the new one |
| SdoBlock.Completes | Application/Users/CanFestival/src/sdo.c:1359-1789 | Whatever was lost before: while the last segment of the block or what it causes is on its way, delivering the frames completes the transfer |
| SdoBlock.DownloadBegins | Application/Users/CanFestival/src/sdo.c:1868-1983 | A block download of 1 to 255 bytes starts in the invariant |
| SdoBlock.UploadBegins | Application/Users/CanFestival/src/sdo.c:2086-2150 | A block upload of 1 to 255 bytes starts in the invariant |
| BitCopy.CopyBits | Application/Users/CanFestival/src/pdo.c:427-481 | Exactly the field is copied, between any bit offsets and in either byte order; every other bit of the destination stays; it terminates |
| BitCopy.MergedBit | Application/Users/CanFestival/src/pdo.c:437-460 | The byte written: the bits of the field from the source, the others from the destination |
| Pdo.Node.Build | Application/Users/CanFestival/src/pdo.c:49-110 | The frame holds the low bits of every included object at its offset; it fails just when such an object cannot be read |
| Pdo.Node.Receive | Application/Users/CanFestival/src/pdo.c:226-294 | Every included field goes to its object; it stops at the first one which cannot be written |
| Pdo.SameLayout | Application/Users/CanFestival/src/pdo.c:49-294 | Sender and receiver skip the same mappings and agree on every offset |
| Pdo.RoundTrip | Application/Users/CanFestival/src/pdo.c:49-294 | What is taken for a mapping is exactly the low Size bits of the sender's value |
| Pdo.Exchange | Application/Users/CanFestival/src/pdo.c:49-294 | buildPDO on one node and proceedPDO on another: the same objects included, each receiver object with the low bits of the sender's, no other object changed |
| Pdo.WholeValue | Application/Users/CanFestival/src/pdo.c:49-294 | A value without bits above the field arrives unchanged |
| VectoredWrite.NextChunk | Application/Users/LwIP/api/api_msg.c:1679-1728 | A chunk of the current vector is the next piece of the concatenation |
| VectoredWrite.WriteMsg.Accept | Application/Users/LwIP/api/api_msg.c:1716-1728 | The cursor moves by exactly the bytes accepted; what is done is the prefix of the concatenation |
| VectoredWrite.WriteMsg.Unfinished | Application/Users/LwIP/api/api_msg.c:1658-1659 | The assertion at the start of the function holds just when a byte is left in the current vector or a later one |
| VectoredWrite.Conn.SendChunks | Application/Users/LwIP/api/api_msg.c:1679-1729 | The loop keeps: what tcp_write has accepted is the prefix of length offset; how it ends in the blocking and the non-blocking case |
| VectoredWrite.Conn.WriteMore | Application/Users/LwIP/api/api_msg.c:1643-1806 | Any tcp_write and buffer outcomes: nothing skipped or repeated; a blocking write which ends with ERR_OK has offset equal to len; where the write is left open the offset is below len just when a byte is left in the vectors, so always if none is empty |
| VectoredWrite.Conn.EmptyBehind | Application/Users/LwIP/api/api_msg.c:1658-1659 | A write left open with only an empty vector to go: the assertion does not hold |
| VectoredWrite.Conn.DoWrite | Application/Users/LwIP/api/api_msg.c:1813-1860 | The start of a write, and its refusals |
| VectoredWrite.Conn.OnWritable | Application/Users/LwIP/api/api_msg.c:354-425 | poll_tcp and sent_tcp take the write up where it stopped |
| VectoredWrite.TurnWithoutProgress | Application/Users/LwIP/api/api_msg.c:1702-1729 | Exactly when a turn of the loop moves nothing and yet asks for another one |
| Alarms.MarkedDue | Application/Users/CanFestival/src/timers.c:121-160 | Exactly the due alarms are marked; the others keep their deadlines; a periodic alarm is next due at the first whole number of intervals after the wake-up that lies behind the dispatch, which is a whole number of intervals after its own deadline just when that was so after the wake-up |
| Alarms.AlarmTable.SetAlarm | Application/Users/CanFestival/src/timers.c:57-94 | A free row with the deadline asked for, or -1 just when every row is in use; the others stay; the sleep is never longer than the new alarm allows |
| Alarms.AlarmTable.DelAlarm | Application/Users/CanFestival/src/timers.c:103-114 | The row is free and every other row stays |
| Alarms.AlarmTable.MarkDue | Application/Users/CanFestival/src/timers.c:121-160 | The first loop of TimeDispatch, with the new sleep no longer than any armed row |
| Alarms.AlarmTable.TimeDispatch | Application/Users/CanFestival/src/timers.c:121-182 | Callbacks which set and delete alarms included: only due alarms fire, once and in row order; each due alarm fires unless deleted before its turn; a deleted one does not; without overrun at its deadline; a periodic one is next due a whole number of intervals after the wake-up, without overrun one interval after its deadline |

## Left out

- FatFs: `f_mkfs`, partitions, mounting, volume labels, `f_open` by path, `f_unlink`, `f_rename`, time stamps;
  conversion of names and code pages (case folding is a parameter); numbered short names for colliding long ones; more
  than one file object on one file, file locks, `FF_FS_TINY`; failing disks, except that forest theorems hold after
  every prefix of writes.
- ExFat: the FAT of the exFAT variant is an array of entries and shares no window with the bitmap, which has its own;
  the exFAT directory entry set and checksums.
- FatFile.FileObj.Seek: the bytes between the old end and a target beyond it are whatever the sectors hold, as in the
  code.
- ExFat.ExObject.Expand: with the bits behind the map which a block can reach on the disk; the file size of a 64-bit
  object is a number without a bound.
- FatDir.Dir.Register: one name in eleven bytes and no attributes besides; opening by path is not part of this model.
- LongMap.RegisterName: the short name is given; the numbered one which dir_register makes for a lossy name is not
  made.
- LongDir.ReadNext: reading for files; the volume label branch of dir_read is left out, and the object's own entry
  set.
- FastSeek.LinkMap.NextCluster: the first cluster of an empty file, which f_write allocates with a link map as
  without.
- SdoNode.Node.Receive: return codes, log messages, CRC of block transfers (recorded by the source, never checked),
  timer handles, callbacks, more than one line; a client which receives the end response of a block download with no
  line in use reads an unset line number in the source and does nothing here.
- SdoNode.Node.Write: values no longer than the line buffer; the source copies as many bytes as its caller says
  without looking at the size of the buffer.
- SdoBlock.Completes: frames lost with nothing left on the way end in a time-out, not in delivery; there is no retry
  then.
- FastScan.ScanOutcome: answers which arrive after the time-out; the other LSS services.
- Pdo.Node.Receive: visible strings, the callbacks of written objects, the search for the PDO by its identifier;
  transmit triggers and SYNC.
- Pdo.Exchange: where two included mappings of the receiver name the same object only the last one is stated.
- VectoredWrite.Conn.WriteMore: termination of the loop, which TurnWithoutProgress shows to depend on the TCP layer;
  the send time-out.
- Alarms.AlarmTable.TimeDispatch: alarms set by a callback during a dispatch keep their own deadline by SetAlarm but
  are not followed through the dispatch.
- NMT, EMCY, heartbeat, SYNC, object dictionary tables, drivers, the rest of lwIP and the boot loader tools.
