# A verified model of EgGS

EgGS is a small kernel in C. This project models its four storage layers - the interrupt-driven disk driver with its
elevator queue, the buffer cache, the bitmap allocators, and the Minix file system with its zone trees, inode table and
directories - and two smaller parts, the integer formatter and the text screen. Objects that the C code changes in
place are classes; loops are loops with invariants; the C tables and linked structures are sequence fields.

`dafny verify dfyconfig.toml` checks everything.

## How it is arranged

| file | what it holds |
|---|---|
| `Bytes`, `Lists`, `Devices` | bytes and blocks, lists without repetition, commands and 32-bit arithmetic |
| `Elevator`, `RequestPool`, `Geometry` | request order and insertion, the 32 slots and their list, sector arithmetic |
| `Driver` | the disk driver as a machine driven by interrupts, with submission |
| `Queues`, `Cache` | free ring and hash chains; the buffer cache with asynchronous requests |
| `Completion` | the driver's good answers as the cache's completed requests |
| `Bitmaps`, `Mounting` | first-zero scans, allocation, boot-time counts; loading a superblock |
| `ZoneTree`, `Reach`, `FileSystem` | places of zone numbers, the walk over a file, growing, truncating, files coming and going |
| `Layers` | the cache operations as the file system sees them |
| `Directory` | lookup and creation of names |
| `InodeCodec`, `InodeCache` | the on-disk inode, the table in memory |
| `Number`, `Screen` | the formatter and reader, the scrolling screen |

The disk below the driver (`HardDisk`) answers each command with a good or a failed result as it pleases; an arbitrary
parameter says which write commands get DRQ. The cache (`BufferCache`) knows of the driver only that a locked buffer has one request in flight,
that any request may be answered at any time (an arbitrary parameter says when), and that requests succeed;
`Completion` proves that what the driver does with a good answer is what the cache takes it for, as long as the
partitions in use do not overlap. The file system (`FileSystem`) knows of the cache only the bytes each block shows and
the number of holders of each buffer; `Layers` proves that each cache operation it calls acts on these two maps as
`FileSystem` has it, whenever there is a buffer for the block and the block has fewer than 255 holders. The files in
`FileSystem.inodes` are what `InodeCache.Table.view` is for one device. Kernel code is one thread: interrupts are the
only concurrency.

## Main results

* Every step of the driver keeps the pool, the queue, the buffer locks, the installed handler and the outstanding
  command in agreement; every sequence of answers empties the queue, in at most 45 interrupts a request.
* A failed answer costs the request in service exactly one error, and a missed DRQ exactly one; a request that can be
  served is never given up before it has had seven of them, over any run.
* A read that ends well has brought exactly its block's two sectors. A write that ends well has put on the disk exactly
  the two sectors that were handed over, which are the buffer's if nobody stored into it since it was submitted; a
  store after the last was handed over leaves disk and buffer equal if and only if it changed nothing.
* The buffer cache shows the same block contents through every get, read, put, eviction and sync, and its ring and
  chains hold every header exactly as they should, so lookup finds a header whenever there is one.
* `sync_dev` brings the device into agreement with the cache whatever the disk's answers if and only if no buffer of it
  was behind before the call; called twice, it always does.
* No zone is ever reachable in two ways; `locate_by_inode` is a flat map that changes in one entry only; `truncate`
  gives back exactly what the file reaches.
* An inode is written back to its own 32 bytes and to no others, and no two slots hold the same inode.
* A created name is looked up again exactly when no earlier entry begins with it and the entry is within the size.
* `number` writes exactly the laid-out text for every argument; the screen is the last 25 rows of an endless terminal.

## What the code does that its comments do not say

The member that proves it, with the exact condition where there is one, is named in brackets.

* `do_hd_request` tests `block + 2` in 32 bits: a request for one of the last two sector numbers below 2^32 passes and
  would address outside its partition; below that every admitted request is contained (`AdmittedIsContained`).
  `b_blocknr<<1` wraps as well: from block 2^31 on a request names the sectors of a block 2^31 lower
  (`ShiftNamesBlock`). Together, an admitted request goes to its own block exactly when the block number is below
  2^31 - 1 (`AdmittedIsOwnBlock`), and the driver asks for such numbers.
* The same test always asks for two sectors, so the retry of a block's second sector is refused exactly when the
  partition ends with that block (`RetryRefused`); such a request is given up before its seven errors.
* With two queued requests of equal key the elevator can make a second descent (`EqualKeysBreakOneDescent`); the exact
  condition is in `InsertKeepsOneDescent`. The buffer cache never submits equal keys.
* `bad_rw_intr` reads the head of the queue after it may have emptied it; the model reads nothing then. In the same way
  `insert_into_queues` writes the back link of the old front of a chain only when there is one.
* `sync_dev` returns while writes are in flight. Call a buffer of the device behind if it is dirty, and either locked or
  different from the disk. If none is behind before the call, disk and cache agree on the device after it; if one is,
  the worst answers of the disk leave them different (`SyncDev`), as a run shows (`UnsyncedRun`). A second call waits
  for the first one's writes, so after it they agree (`SyncTwice`).
* Holders store into buffers whose write is in flight: `create_inode_by_name` and the bitmap functions do not wait. The
  driver is not disturbed (`HardDisk.Store`), the write carries whatever was handed over (`Carried` in `Interrupt`), and
  it carries the buffer's final bytes if there was no store since submission, and after the last hand-over only if the
  store changed nothing (`Overtake`). The buffer stays dirty, so the next write-back repairs it.
* `invalidate_buff` keeps the reference it took when somebody else holds the buffer; so `truncate` of a file with a held
  zone leaves a reference behind, and the ownership invariant survives exactly when no zone of the file was held.
* On a full device `create_block` zeroes what block 0 shows and returns 0 (`CreateBlock`).
* `add_zone_bitmap` accepts zone `s_nzones`, which does not exist and cannot be freed, exactly when all existing zones
  are taken and the next bit is clear (`OffByOne`). Bitmaps with set padding, as mkfs makes them, never get there.
* `truncate` ignores inodes that are neither regular files nor directories, and `create_inode` leaves the mode zero, so
  an unlinked file whose mode was never set keeps its zones marked (`DropFile`).
* `read_inode` loads the disk copy over an inode in memory that has no links, and loses its changes exactly when the two
  differ (`ReadInode`).
* `create_inode` marks a number before `new_inode` may find that number in the inode table and fail; the number then
  stays marked without a file (`CreateInode`).
* Lookup compares only as many bytes as the searched name has, so it finds the first entry that begins with the name
  (`PrefixIsFound`), and it finds entries whose inode number is 0 as well. A new entry that starts in a partial last
  entry, in a directory whose size is not a multiple of 32, is not found (`CreatedIsFound`).
* When lookup meets a hole in a directory it skips the block, but reads the entry after it through the NULL that stands
  for the missing buffer - unless the hole is in the last block. The model calls this `Fault` and says exactly when it
  happens (`Found`); directories without holes never get there (`DenseNeverFaults`).
* `lock_inode` never sets the lock, so the inode table's locks play no part. `lock_buff` does not wait, so `LlRwBlock` asks
  that a plain read or write be submitted for an unlocked buffer; its callers in the cache wait first.

## Model

| member | source | states |
|---|---|---|
| Elevator.InsertKeepsOneDescent | blk/blk_main.c:55-66 | After insertion where the scan stops, the queue has at most one descent if and only if the scan stopped early, or the last key is below the new one, or the queue ascended |
| Elevator.DistinctInsertKeepsOneDescent | blk/blk_main.c:55-66 | A key not queued yet always keeps one descent |
| Elevator.TailBelow | blk/blk_main.c:58-62 | A scan that runs to the end past a descent has only smaller keys behind that descent |
| Elevator.EqualKeysBreakOneDescent | blk/blk_main.c:55-66 | A concrete queue on which an equal key makes a second descent |
| Elevator.OrderMeans | blk/blk_main.h:37-45 | Reads come before writes, then devices in order, then sectors |
| Elevator.OrderTotal | blk/blk_main.h:42-45 | The order is strict and total |
| Elevator.AscendingInsert | blk/blk_main.c:55-66 | In an ascending queue a new key behind the head goes to its sorted place |
| Elevator.HeadAdvance | blk/hd.c:337-337 | A head one sector further compares with every other even-sector key as before |
| Elevator.HeadAdvanceKeepsOrder | blk/blk_main.h:42-45 | Advancing the head changes neither the descents of the queue nor where any later request is inserted |
| Geometry.ChsRoundTrip | blk/hd.c:263-267 | For every sector of the drive the cylinder/head/sector address denotes that sector and lies within the geometry |
| Geometry.ChsInjective | blk/hd.c:263-267 | No two sectors get the same address |
| Geometry.AdmitsInside | blk/hd.c:252-252 | As long as nothing wraps, the bound test passes if and only if two sectors from this one on are in the partition |
| Geometry.AdmittedIsContained | blk/hd.c:249-257 | An admitted request lies in its partition if and only if sector + 2 does not wrap in 32 bits |
| Geometry.RetryRefused | blk/hd.c:252-256 | The retry of a block's second sector is refused if and only if the partition ends with that block |
| Geometry.ShiftNamesBlock | blk/blk_main.c:137-137 | The shifted block number names the block's own sectors if and only if the block is below 2^31; else those of the block 2^31 lower |
| Geometry.AdmittedIsOwnBlock | blk/hd.c:249-257 | A request that passes the test goes to its own block of its own partition if and only if the block number is below 2^31 - 1 |
| RequestPool.Pool.constructor | blk/blk_main.c:151-160 | All slots free, empty list, invariant established |
| RequestPool.Pool.FindSlot | blk/blk_main.c:110-117 | The highest free slot a command may take, or -1 when all of them are busy; writes see only the first two thirds |
| RequestPool.Pool.Scan | blk/blk_main.c:58-62 | The walk along the links stops at the first position where the key fits, or at the last |
| RequestPool.Pool.Add | blk/blk_main.c:39-69 | The list becomes the old one with exactly the new request behind the stop position, never in front of the head; links, slots and the write limit stay in agreement |
| RequestPool.Pool.Pop | blk/hd.c:47-69 | The head leaves the list and its slot becomes free; everything else stays |
| RequestPool.Pool.SetHead | blk/hd.c:333-341 | Progress of the head changes nothing else |
| Driver.AdmittedTarget | blk/hd.c:249-267 | What the controller is sent for an admitted request is the request's own sector in its partition, with a head number the controller accepts |
| Driver.RefusedOutside | blk/hd.c:249-256 | A waiting request is refused if and only if its partition does not exist or has not two sectors from the request's on |
| Driver.InsertKeeps | blk/blk_main.c:133-147 | Adding the request of a freshly locked buffer keeps locks, requests and order in agreement |
| Driver.FreshKey | blk/blk_main.c:133-138 | A buffer that is not queued yields a key that is not queued |
| Driver.HeadKeeps | blk/hd.c:333-341 | Progress or an error of the head keeps locks, requests and order in agreement |
| Driver.PopKeeps | blk/hd.c:47-69 | Ending the head and unlocking its buffer keeps locks, requests and order in agreement |
| Driver.ReuseKeeps | blk/buffer.c:213-219 | Any change of an unlocked buffer that keeps the cache's keys distinct keeps locks, requests and order in agreement |
| Driver.DroppedTrans | blk/hd.c:234-256 | Going through the queue, twice, is going through the queue: requests given up, errors and missed DRQs add up |
| Driver.GivenUpHasSeven | blk/hd.c:222-223 | A servable request that was given up on the way is a write whose errors and missed DRQs made seven |
| Driver.HeadStays | blk/hd.c:228-322 | A servable request that is a read, or misses too few DRQs, stays first, with exactly the errors it had and the DRQs it missed, and then nothing else has changed |
| Driver.HardDisk.constructor | blk/hd.c:269-279 | The idle machine at boot, owing a reset, satisfies the invariant |
| Driver.HardDisk.EndRequest | blk/hd.c:47-69 | The head is removed and its buffer unlocked with the given result; a failure needs an unservable request or seven faults |
| Driver.HardDisk.BadRwIntr | blk/hd.c:220-226 | Exactly one error more for the head: at the seventh it goes, a reset is owed from the fourth on; nothing else changes, and the remaining work drops |
| Driver.HardDisk.StartHead | blk/hd.c:228-256 | Either the outstanding command serves the head - a reset if owed, else a recalibration if owed, else its transfer - or the head was refused, or missed a DRQ and took one error |
| Driver.HardDisk.StartAdmitted | blk/hd.c:257-292 | For an admitted head: reset, recalibration or transfer, whichever is due |
| Driver.HardDisk.StartTransfer | blk/hd.c:292-322 | The command names exactly the remaining sectors; a write has handed over its first one; without DRQ the head takes one error |
| Driver.HardDisk.DoHdRequest | blk/hd.c:228-322 | Ends with a command for the head outstanding or an empty queue; only requests that cannot be served, and writes that missed DRQ until they had seven errors, were given up, and every missed DRQ is accounted for |
| Driver.HardDisk.Fail | blk/hd.c:327-333 | A failed answer costs the head exactly one error: it stays, with a reset from the fourth on, or at the seventh it goes, alone; its successors keep their errors |
| Driver.HardDisk.PortRead | blk/hd.c:325-341 | The controller's sector lands in the half of the block where it belongs |
| Driver.HardDisk.ReadIntr | blk/hd.c:325-354 | A good answer moves the head on by one correct sector, its errors forgotten, or ends it with the whole block; a failed one costs it exactly one error |
| Driver.HardDisk.WriteIntr | blk/hd.c:356-383 | The same for writes, whose errors stay: the sectors handed over are on the disk, and they are the buffer's if it was not stored into |
| Driver.HardDisk.RecalIntr | blk/hd.c:385-397 | A good answer goes on to the recalibration still owed, or to the transfer; a failed one costs the head exactly one error |
| Driver.HardDisk.Interrupt | blk/hd.c:325-397 | For every handler and answer: the invariant holds again, the measure drops, the disk changes in at most the sector being written; a failed answer costs the head exactly one error and nobody else anything; a good read leaves buffer and disk equal on the sectors done; a good write has put exactly what was handed over on the disk, which is the buffer's if it was not stored into |
| Driver.HardDisk.Serve | blk/hd.c:220-397 | Over any answers, the head is still served or has ended well as long as its failed answers and missed DRQs are fewer than seven |
| Driver.HardDisk.Drain | blk/hd.c:228-397 | Any sequence of answers empties the queue within 45 interrupts a request and leaves no buffer locked |
| Driver.HardDisk.Reuse | blk/buffer.c:213-219 | Whatever the cache does with an unlocked buffer between requests, the driver's invariant holds, as long as no two headers get the same block |
| Driver.HardDisk.Store | fs/inode.c:653-657 | A store into a buffer whose write is queued or in flight changes that buffer only; pool, queue, locks, order, command and remaining work stay |
| Driver.HardDisk.Overtake | fs/super.c:289-292 | After a store behind the last hand-over, a write that ends well leaves disk and buffer equal if and only if the store changed nothing; the buffer is dirty and unlocked |
| Driver.HardDisk.AddRequest | blk/blk_main.c:39-69 | The buffer is counted as clean; a stopped drive is started, else the elevator places the request |
| Driver.HardDisk.Enlist | blk/blk_main.c:43-66 | The request is on the list: alone, or behind the stop position of the elevator |
| Driver.HardDisk.AwaitSlot | blk/blk_main.c:105-132 | The repeat loop ends with a slot the command may use; it waits only when every such slot was busy, and the waiting buffer is left alone |
| Driver.HardDisk.LockForTransfer | blk/blk_main.c:71-104 | The buffer stays locked if and only if there is something to transfer |
| Driver.HardDisk.Submit | blk/blk_main.c:105-148 | The request for the whole block goes in exactly once |
| Driver.HardDisk.LlRwBlock | blk/blk_main.c:71-148 | For blocks below 2^31 - 1: ignored and declined submissions change nothing; only read-ahead and write-ahead decline, only when full; all others queue exactly their block |
| Queues.RingUnlink | blk/buffer.c:108-114 | Removing any member of the ring leaves a ring of the others, in order, or a lone header pointing at itself |
| Queues.RingAppend | blk/buffer.c:119-123 | Inserting before the head appends to the ring, also to an empty one |
| Queues.ChainUnlink | blk/buffer.c:101-107 | Removing any member of a chain leaves a chain of the others in order |
| Queues.ChainPush | blk/buffer.c:124-131 | Insertion puts the header in front of the chain |
| Queues.UnchainKeeps | blk/buffer.c:101-107 | Removal from the hash disturbs no other chain, also for a header that is in none |
| Queues.ChainInKeeps | blk/buffer.c:124-131 | Insertion into the hash disturbs no other chain |
| Queues.Links.constructor | blk/buffer.c:341-375 | Every header once on the ring in array order, all chains empty |
| Queues.Links.RemoveFromQueues | blk/buffer.c:99-115 | The header is in neither structure, all others as before |
| Queues.Links.InsertIntoQueues | blk/buffer.c:117-132 | The header is last on the ring and in the chain of its key, all others as before |
| Cache.CoherentUpdate | blk/buffer.c:149-169 | A change of one header under its key affects what is shown for that key only |
| Cache.CoherentRekey | blk/buffer.c:211-219 | A clean, idle header can change its key without changing what any block shows |
| Cache.TornWrite | blk/hd.c:356-383 | What the disk has of a block whose write is in flight does not matter to the cache |
| Cache.RekeyCounts | blk/buffer.c:211-219 | Taking over an unheld header changes the holders of the new key only |
| Cache.XorBits | blk/buffer.c:96-96 | The hash combines device and block by exclusive or, bit by bit |
| Cache.BufferCache.constructor | blk/buffer.c:341-375 | The cache at boot shows the disk |
| Cache.BufferCache.Complete | blk/hd.c:325-383 | The answer to one request changes one header and its block on the disk only, and nothing shown |
| Cache.BufferCache.Interrupts | blk/buffer.c:12-21 | Answers from the disk, to any requests in flight, change nothing a reader sees |
| Cache.BufferCache.FindBuff | blk/buffer.c:134-147 | Returns the header of the key if and only if one exists anywhere |
| Cache.BufferCache.SyncDev | blk/buffer.c:49-63 | No dirty buffer of the device is left, and nothing shown changes. Whatever the answers, disk and cache agree on the device afterwards if no buffer of it was behind before; under the worst answers, only then |
| Cache.BufferCache.SyncTwice | blk/buffer.c:49-63 | After two calls in a row disk and cache agree on the device |
| Cache.UnsyncedRun | blk/buffer.c:49-63 | A run after whose sync_dev the disk lacks what was written |
| Cache.BufferCache.Victim | blk/buffer.c:177-193 | The victim is unheld, dirty only if all unheld buffers are, locked only if all that are as clean are, and the earliest such on the ring; none if all are held |
| Cache.BufferCache.Rekey | blk/buffer.c:211-219 | One unheld, clean, idle header changes its key and goes to the end of the ring; nothing else changes |
| Cache.BufferCache.NewBuff | blk/buffer.c:173-224 | The victim is cleaned and re-keyed, every other header keeps key, holders and valid bytes; failure means all were held or the key was there |
| Cache.BufferCache.RetainBuff | blk/buffer.c:149-169 | One more holder for exactly a cached block |
| Cache.BufferCache.GetBuff | blk/buffer.c:227-237 | Returns a held header of the key; only that key's holders change; what every block shows stays |
| Cache.BufferCache.PutBuff | blk/buffer.c:239-247 | One holder less for exactly that block |
| Cache.BufferCache.ReadBuff | blk/buffer.c:253-269 | Returns a held buffer with exactly the bytes the block shows; fails only without a driver, and then holds nothing |
| Cache.BufferCache.InvalidateBuff | blk/buffer.c:65-77 | Unheld: the block shows what the disk has, holders unchanged; held: nothing shown changes and one reference is lost |
| Layers.CountsToHolders | blk/buffer.c:149-169 | A change in one key's holders is a change of the holders map in one place |
| Completion.OtherBlocks | blk/hd.c:292-318 | With partitions in use that do not overlap, writing a sector of one block changes no other block |
| Completion.LastAnswer | blk/hd.c:325-383 | A good answer to the last sector completes the buffer's request as the cache has it, on the disk seen as a map from blocks to bytes |
| Completion.WriteAnswered | blk/hd.c:356-383 | Any answer to a write changes only the block being written |
| Layers.ReadBuff | blk/buffer.c:253-269 | On the file system's two maps: the bytes shown, and one holder more, whenever the block is cached or a buffer is free |
| Layers.ZeroBlock | fs/zone.c:25-33 | Whenever the block is cached or a buffer is free: the block shows zeros, no other block changes, no holder is left behind |
| Layers.InvalidateBuff | fs/zone.c:10-15 | On the two maps: bytes given up when unheld, a reference lost when held |
| Bitmaps.ZerosSet | fs/super.c:268-268 | Setting a clear bit lowers the number of clear bits by one |
| Bitmaps.FlatSet | fs/super.c:9-19 | Setting or clearing bit j of block i acts on bit 8192 * i + j of the map and on no other |
| Bitmaps.FindFirstZero | fs/super.c:21-35 | The word-wise scan gives the first clear bit of the block, or 8192 |
| Bitmaps.ScanBlocks | fs/super.c:256-260 | The first clear bit of the whole map, or none if and only if all are set |
| Bitmaps.CountFree | fs/sys_fs.c:38-49 | The countdown loops count the clear bits |
| Bitmaps.Super.constructor | fs/super.c:197-200 | Bit 0 of either loaded map is set and no other bit changes |
| Mounting.ReadSuper | fs/super.c:123-201 | Mounting succeeds if and only if the magic number is right and every map block can be read; then each is held once and the maps are the device's with bit 0 set; otherwise no reference is left |
| Mounting.LoadMaps | fs/super.c:173-195 | Both loops load everything or, at the first unreadable block, everything is released |
| Bitmaps.Super.AddInodeBitmap | fs/super.c:203-228 | The lowest free inode number, one bit changed; 0 if and only if none is free |
| Bitmaps.Super.FreeInodeBitmap | fs/super.c:230-245 | Block num / 8192 and bit num % 8192 are bit num of the map, which is cleared, and no other |
| Bitmaps.Super.AddZoneBitmap | fs/super.c:247-274 | The lowest free zone up to and including s_nzones, one bit changed; 0 when none |
| Bitmaps.Super.FreeZoneBitmap | fs/super.c:276-293 | Block and bit of the zone's number are the zone's bit of the map, which is cleared, and no other |
| Bitmaps.Super.OffByOne | fs/super.c:262-262 | Zone s_nzones is handed out if and only if all existing zones are taken and the next bit is clear |
| Bitmaps.Super.TakeAndReturnZone | fs/super.c:247-293 | Freeing what was just allocated restores the map, if and only if the zone handed out exists |
| Bitmaps.Super.TakeAllZones | fs/sys_fs.c:38-43 | As many allocations in a row succeed as the boot-time count of free zones |
| Bitmaps.Super.TakeAllInodes | fs/sys_fs.c:44-49 | As many allocations in a row succeed as the boot-time count of free inodes |
| ZoneTree.SlotOfInjective | fs/inode.c:365-443 | Two logical blocks never have their zone number in the same place |
| ZoneTree.LinkInInode | fs/inode.c:375-382 | Setting an empty number in the inode to a zeroed zone changes that place and no other of any file |
| ZoneTree.LinkInBlock | fs/inode.c:399-405 | Setting an empty entry of an index block to a zeroed zone changes that place and no other of any file |
| ZoneTree.OnlyAtAfter | fs/zone.c:18-34 | Zeroing a fresh zone and then linking it changes one place |
| ZoneTree.FreshStaysDisjoint | fs/inode.c:365-443 | Putting a zone nobody has into an empty place keeps all zones distinct |
| ZoneTree.UnownedBlock | fs/zone.c:25-33 | Zeroing a block of no file moves no zone |
| ZoneTree.DataBlock | fs/inode.c:653-657 | Rewriting a data block moves no zone |
| Reach.ReachableIsHeld | fs/inode.c:445-463 | The zones met on the walk of truncate are exactly those held at the places of the file |
| Reach.GroupsMembers | fs/zone.c:54-70 | What lies behind a double indirect block is what lies behind its entries |
| Reach.EntriesMembers | fs/zone.c:36-52 | What an index block lists are its nonzero entries |
| Reach.WalkOnce | fs/inode.c:445-463 | When no zone is shared the walk meets each zone once |
| Reach.DoubleFrame | fs/zone.c:54-70 | The part of the walk not yet done is unaffected by what was given back |
| FileSystem.LinkSound | fs/inode.c:365-443 | Linking a fresh zone keeps the ownership invariant |
| FileSystem.LookupMeans | fs/inode.c:365-443 | Logical block b is number b in the inode for b < 7, entry b - 7 of the block named by the eighth number for the next 512, and else entry (b - 519) % 512 of the block named by entry (b - 519) / 512 of the block named by the ninth; entries are 16 bits, low byte first |
| FileSystem.GrowsFlat | fs/inode.c:365-443 | Seen as flat maps from logical block to zone, only one entry of one file can have changed, and every block of every file kept its bytes |
| FileSystem.EmptiedPlaces | fs/inode.c:445-463 | After truncate the file holds nothing and every other file what it held |
| FileSystem.FreedZeros | fs/super.c:276-293 | Clearing the bits of a set of marked zones raises the free count by its size |
| FileSystem.FileSystem.constructor | fs/super.c:123-201 | Any image whose files satisfy the ownership invariant can be mounted |
| FileSystem.FormattedSound | fs/inode.c:445-463 | A formatted device with one directory satisfies the ownership invariant, whatever its other blocks hold |
| FileSystem.FileSystem.CreateBlock | fs/zone.c:18-34 | The lowest free zone becomes marked and zeroed, owned by no file, no reference left; 0 exactly on a full device, and then block 0 is zeroed |
| FileSystem.FileSystem.LocateByInode | fs/inode.c:365-443 | Gives the zone that stands where the number of the logical block has to stand, in the inode or behind its index blocks; changes nothing if it is there or only looked for; else supplies it zeroed with the index blocks needed, three zones at most; 0 on creation only when the device is full; the ownership invariant stays |
| FileSystem.FileSystem.LocateSingle | fs/inode.c:383-408 | The same behind the single indirect block, two zones at most |
| FileSystem.FileSystem.LocateDouble | fs/inode.c:409-443 | The same behind the double indirect block |
| FileSystem.FileSystem.DeleteBlock | fs/zone.c:10-15 | Exactly that zone is given back, with a reference lost if it was held |
| FileSystem.FileSystem.DeleteIndirecteBlock | fs/zone.c:36-52 | Exactly the index block and what it lists are given back, each once |
| FileSystem.FileSystem.DeleteDoubleIndirecteBlock | fs/zone.c:54-70 | Exactly the double indirect block and all behind it are given back, each once |
| FileSystem.FileSystem.Truncate | fs/inode.c:445-463 | If the mode's type bits are 0x8000 or 0x4000, no place of the file holds a zone afterwards and every zone it held is free; exactly the zones it reached are, and the free count rises by their number; references and the ownership invariant stay if and only if none was held. Other inodes are left alone, with everything else |
| FileSystem.FileSystem.CreateInode | fs/inode.c:345-363 | The lowest free inode number becomes an empty file with one link and mode 0; no zone moves; it fails only when none is free or the lowest is in the inode table, and then that number stays marked |
| FileSystem.FileSystem.DeleteInode | fs/inode.c:323-343 | An unlinked file disappears and its number is free again; no zone is affected |
| FileSystem.FileSystem.DropFile | fs/inode.c:280-293 | The last release of an unlinked file removes it and frees its number; if it is a regular file or a directory every zone it held is free, else none is freed; the invariant survives if and only if nobody held any of them |
| Directory.DenseBound | fs/inode.c:370-373 | A file without holes has fewer blocks than the device has zones, so the panic for large blocks cannot happen on the walk |
| Directory.RetainInodeByName | fs/inode.c:465-550 | In the directory, or, for .. in inode 1 of a mounted device, in the directory it is mounted on: the inode number in the first entry whose name's bytes begin with all bytes of the searched name; nothing if there is none; a fault exactly at a hole before the last block. File systems and references are unchanged |
| Directory.Scan | fs/inode.c:506-541 | Before entry i is looked at, the block held is logical block i / 32 and the place in it i % 32; the result is the first match, or the end, or the first hole |
| Directory.DenseNeverFaults | fs/inode.c:512-519 | In a directory without holes the search never reads through NULL |
| Directory.FindFree | fs/inode.c:618-637 | The search for the first unused entry, extending the directory block by block; all it passed is in use |
| Directory.CreateInodeByName | fs/inode.c:602-666 | On success a new empty file is named in the first unused entry and nothing else changes in this or any other directory; 0 only for an empty name, no first block, no room or no number, and then no file is new and no other entry different |
| Directory.FilledIsCreated | fs/inode.c:638-659 | The steps of the fill together leave exactly one entry changed |
| Directory.CreatedIsFound | fs/inode.c:465-550 | A later lookup of the name ends at the new entry if and only if no earlier entry begins with the name and the entry is within the size |
| Directory.CreateThenFind | fs/inode.c:602-666 | Create and look up, one after the other, give the same inode if and only if the new entry is the first that begins with the name and is within the size - unless .. leads to another directory |
| Directory.PrefixIsFound | util.c:320-334 | An entry for a longer name also answers to any beginning of it |
| InodeCodec.DecodeInjective | inc/fs.h:84-92 | No two byte patterns stand for the same on-disk inode |
| InodeCodec.DecodeMeans | inc/fs.h:84-92 | Where each field lies in the 32 bytes, low byte first |
| InodeCodec.PutSlot | fs/inode.c:106-108 | Writing one inode's 32 bytes leaves the other 31 of the block |
| InodeCache.WriteBackFrame | fs/inode.c:84-112 | Writing an inode back changes it on the disk to what was written, and no other inode on any device |
| InodeCache.DiskInodeMeans | fs/inode.c:64-82 | An inode on disk is that of the 32 bytes at 32 * ((num - 1) % 32) in the block (num - 1) / 32 behind the boot block, the superblock and both maps of the device's first superblock |
| InodeCache.CoherentReuse | fs/inode.c:172-180 | A clean slot can take on another inode without changing what any inode is |
| InodeCache.ResolveFrame | fs/inode.c:208-223 | Where a walk through the mounts ends depends only on which slots are mount points |
| InodeCache.Table.constructor | fs/inode.c:131-136 | An all-zero table shows the disk |
| InodeCache.Table.Mounted | fs/inode.c:208-223 | A table in use, with any acyclic mounts, satisfies the invariant |
| InodeCache.MountedDevice | fs/inode.c:208-223 | A state with a mounted device, in which looking up the mount point leads to the device's root |
| InodeCache.Table.SyncInode | fs/inode.c:84-112 | The slot is clean; of all bytes on all disks exactly the inode's own 32 were written, behind the maps of its device; no other inode changed |
| InodeCache.Table.FindInode | fs/inode.c:187-234 | Ends, for acyclic mounts, at the inode under all mounts, and finds its slot if and only if there is one |
| InodeCache.Table.Victim | fs/inode.c:142-170 | The first unheld clean slot after the last one taken, or else the first unheld one |
| InodeCache.Table.NewInode | fs/inode.c:131-185 | A dirty victim is written back before it is reused; fails if and only if the inode is in memory already |
| InodeCache.Table.GetInode | fs/inode.c:267-278 | The one slot of the inode, held once more; no other slot's holders change and no inode changes |
| InodeCache.Table.ReadInode | fs/inode.c:308-321 | Hands out the inode as it is, and if it was not in memory that of its own 32 bytes; changes are lost if and only if it was in memory, changed, without links, and different on disk |
| InodeCache.Table.PutInode | fs/inode.c:280-306 | In the table: the last holder of a linked inode leaves it clean on the disk; of an unlinked one, a zeroed slot |
| InodeCache.Table.SyncAll | fs/inode.c:114-129 | Afterwards the disk has every inode as it is |
| InodeCache.Table.NoTwins | fs/inode.c:131-185 | No two slots ever hold the same inode |
| Number.DigitsValue | util.c:93-96 | The digits stand for the number, without leading zero |
| Number.DigitsShort | util.c:71-71 | No number of so many bits has more digits than bits, so tmp never overflows |
| Number.LayoutLength | util.c:67-129 | The text has length max(width, sign + prefix + max(precision, digits)) |
| Number.LayoutMeans | util.c:80-127 | Sign, prefix, zeros up to the precision and digits come in this order; the rest of the width is spaces on the right, zeros before the digits or spaces on the left |
| Number.LayoutExamples | util.c:67-129 | 255 as %04x is 00ff, 42 as %6d has four spaces in front, -5 as %-4d two behind |
| Number.DigitTable | util.c:71-75 | The two digit tables |
| Number.BodyDecodes | util.c:81-96 | The printed digits read back as the magnitude, and the sign tells its sign |
| Number.FillTmp | util.c:92-96 | The division loop leaves the digits in tmp from right to left, 32 at most |
| Number.Format | util.c:67-129 | Refuses exactly the bases outside 2..36, and otherwise writes exactly the sign, prefix, zeros, digits and padding asked for |
| Number.SkipAtoi | util.c:49-56 | Stops at the first non-digit with the value of the digits, wrapped to 32 bits |
| Number.RoundTrip | util.c:49-129 | Reading back plain base-10 output gives every non-negative int again |
| Screen.MemCpy | util.c:4-10 | A correct move whenever the destination is not ahead of the source inside the range |
| Screen.MemSetW | util.c:19-24 | Exactly the given 16-bit cells are set |
| Screen.PokeShown | scrn.c:135-141 | A write at the cursor changes exactly the cell under it |
| Screen.ScrollShown | scrn.c:24-35 | The shifted memory with a blank last row shows the terminal one row further down |
| Screen.Screen.Cls | scrn.c:63-82 | The memory shows a blank terminal |
| Screen.Screen.Scroll | scrn.c:15-36 | One row further if the cursor left the last row, else nothing |
| Screen.Screen.PutCh | scrn.c:108-160 | The cursor goes one cell on, back, to the next tab stop, to the line start or to the next line; a printable character changes exactly the cell under it; behind the last row everything moves up by one; memory and cursor keep showing the last 25 rows of the terminal |
| Screen.Screen.Puts | scrn.c:163-171 | So they do for a whole string up to its terminating zero |

## Left out

* `controller_ready`, `drive_busy`, delay loops and interrupts while the queue is idle; the model's disk answers when it pleases.
* `init_hd_info`: drive geometry and partition tables are given, with every partition inside its disk.
* Failed requests above the driver. The memory layout made by `init_buff` is not modelled, only the linking.
* Cache.BufferCache.GetBuff: does not model the endless wait when every buffer is held; some buffer must be free, and holders stay below 256 as the byte-wide count demands.
* Driver.HardDisk.LlRwBlock: asks for block numbers below 2^31 - 1, the exact condition under which an admitted request goes to its own block (AdmittedIsOwnBlock); higher ones name other blocks' sectors, so queue order and contents mean nothing for them.
* Layers.ReadBuff: does not hold when the block is not cached and every buffer is held, or the block has 255 holders; FileSystem.ReadBuff has no such limits.
* Layers.ZeroBlock: the same limits.
* Cache.BufferCache.Complete: when a buffer is dirtied while its write is in flight, the model lets the disk hold any bytes until the next write-back.
* `read_buff_page`, `read_buff_ahead`, `invalidate_buffs`: thin variants of what is modelled.
* `put_super`, and the table of superblocks: each `Super` is one mounted device.
* Mounting.ReadSuper: the numbers in the superblock must fit the map slots and the maps, which the source takes on trust.
* Bitmaps.Super.AddZoneBitmap: the bitmap buffers are always loaded, so the tests for missing ones are not modelled.
* FileSystem.FileSystem.CreateBlock: panics are not modelled as outcomes; where the text says so they are proved impossible.
* Directory.RetainInodeByName: the final read_inode, and the exchange of the directory's reference when ".." crosses a mount point, are not modelled.
* Directory.CreateInodeByName: does not model that the emptied entry past the end is left unmarked as dirty when no inode is free.
* InodeCache.Table.PutInode: the truncation and the bitmap change before the slot is zeroed are in FileSystem.DropFile.
* InodeCache.Table.SyncAll: pipes do not exist in the model.
* Number.Format: widths and precisions are unbounded, so C overflow of their sum is not modelled; the type bits are seven booleans.
* `vsprintf`, `printk`, `putx`, `move_csr`, `settextcolor`: argument fetching and port output.
* `retain_inode_by_path`, `permission`: partial in the source.
* `page.c`, `fs/name2inode.c`: not in the build.
* Descriptor tables, interrupt stubs, timer and boot code: hardware set-up; an interrupt is a call of the installed handler.
