# Verified model of uhyve's snapshot, migration, translation and ring logic

uhyve is a KVM monitor for a unikernel. Apart from calls into KVM, sockets and
the verbs library, what it does is work on one flat guest memory: it walks and
edits the guest's page tables, saves and reloads pages, copies buffers through
virtual addresses, shares packet rings with the guest, and stops all vCPU
threads to take a consistent picture. This project models that work and proves
what it is for. `dafny verify dfyconfig.toml` checks everything.

The parts:

* `Pte`, `Scan`, `ScanPaths`, `Records`, `FrozenScan`: the dirty-page scan over
  self-contained page tables and the record stream of a checkpoint file.
* `Checkpoints`, `IncrementalDumps`, `FullCheckpoints`: whole runs of guest
  execution, dumps, commits and restarts. The main theorem is
  `Checkpoints.RestartRestores`.
* `Regions`, `LiveMigration`, `LiveTheorems`, `LiveProgress`, `SelfMap`,
  `Coverage`: RDMA migration, live and cold, as a step system in which the guest
  writes between the clearing of an entry, the lookup of its page among the
  registered regions, its queueing and the copying of each word.
* `BootGuest`: the assumptions of these theorems hold for the machine uhyve
  boots with at least one gigabyte of memory, so the theorems speak of real runs,
  and what they say about that machine.
* `CheckpointBarrier`, `MigrationBarrier` (over `Barriers`): the stop-the-world
  handshakes of any number of vCPU threads.
* `Ring`, `RingProgress`: the packet rings and the transmit doorbell.
* `FreeList`: the guest's free list inverted into allocated chunks.
* `Bytes`, `Walker`, `BootTables`, `Hypercalls`, `Aarch64`, `Aarch64Entries`:
  page walks and the copy loops built on them.
* `SendQueue`, `TcpMigration`: RDMA requests and queue flow control, and the
  TCP stream between the two hosts.
* `SList`, `Breakpoints`, `BreakpointLists`, `GdbPackets`: the breakpoint lists
  of the GDB stub, the memory they patch, and packet framing.

## What is assumed

* Page tables keep their structure while they are scanned; only ACCESSED and
  DIRTY change. There are no 1 GiB pages. Tables and mapped pages lie inside
  guest memory.
* Every guest access sets the bits of the leaf it goes through. Host-side
  writes set none, so `Config.tracked` leaves out the words that the host
  writes; what the kernel loader wrote must lie below an accessed leaf at the
  first checkpoint (the Dump event of `Checkpoints.Step`).
* Timer ticks do not overlap each other or a migration, and SIGALRM is taken by
  a vCPU thread that is in the guest.
* Both ends of a ring follow the order fill, increment, announce; the guest's
  half is taken to mirror the host's.
* An RDMA queue pair completes in order and grants exactly the requested 8192
  outstanding requests; memory regions are disjoint.
* `send` and `recv` transfer something, `write` to the network never fails for
  good; host transfers in the hypercalls return between 0 and the requested
  length, and the buffers lie outside the request structures, whose `buf` field
  the loops re-read.

## What the proofs found

* The boot tables map themselves through PML4 slot 511, so one scan meets a
  page-directory entry twice: as a 2 MiB leaf and, through slot 511, as a 4 KiB
  leaf. A frozen dump is still complete (`SelfMap.SelfMapWidestFirst`). A live
  migration is not: a guest write to a clean 2 MiB page between the two visits
  has its bit cleared by the second visit, which queues only 4 KiB; from the
  second round on every page can be clean. `LiveTheorems.DeliversIffUpToDate`
  gives the exact condition, and by `BootGuest.BootMachineVerdict` no clearing
  live migration of the machine uhyve boots is safe, from whatever start.
* A cold migration registers only allocated chunks, the first of which starts at
  8 MiB. The page tables at 0x10000, and every page that starts in a free region,
  are scanned, cleared and then not listed; a 2 MiB page that runs past its chunk
  is refused by the adapter. `LiveTheorems.DeliversIffOnTheWay` is the exact
  condition, `BootGuest.AllocatedOnlyNeverDelivers` the consequence.
* After a checkpoint (`no_checkpoint > 0`) an incremental scan selects DIRTY, so
  a migration never sends clean pages: `LiveTheorems.DeliversIffUpToDate`,
  `BootGuest.CleanPagesAreLost`.
* `determine_mem_mappings` does not count the chunk behind the last free region:
  `FreeList.CountedIffLastEnds`.
* `virt_to_phys` keeps bit 63 of the address: `Walker.HitShape`,
  `BootTables.BootUpperHalf`.
* Over TCP a cold migration without allocated regions announces memory it does
  not send, and the receiver waits forever: `TcpMigration.AgreesIffSent`.
* Two breakpoints of different length at one address, removed oldest first, trip
  the assertion on the patched byte: `Breakpoints.RemoveKeepsIff`,
  `Breakpoints.TwoLengthsAbort`.
* `recv_packet` looks at `buffer[2]` also for packets shorter than two
  characters: `GdbPackets.FrameReceivedIff`, `GdbPackets.StaleColon`.

## Model

| member | source | states |
|---|---|---|
| Pte.DecodeInjective | uhyve-x86_64.c:142-200 | The field view of a 64-bit entry loses no bit: equal fields mean equal entries |
| Pte.DecodeBits | uhyve-x86_64.c:142-200 | PRESENT, ACCESSED, DIRTY and PSE are bits 0, 5, 6 and 7 of an entry, the frame is bits 12 to 62 |
| Pte.ClearBits | uhyve-x86_64.c:726-731 | The two masks of the scan clear exactly ACCESSED and DIRTY, or PSE, and no other bit of any entry |
| Pte.DestOffsetDecoded | uhyve-x86_64.c:517-526 | For every entry the destination offset is the address of the page the entry maps, 2 MiB or 4 KiB as PSE says |
| Scan.Checkpointer.ScanPageTables | uhyve-x86_64.c:704-745 | The in-place scan does the visits of the walk in order, each tested on the memory left by the ones before. Word by word: an incremental scan clears both bits of every visited entry that carried ACCESSED (first checkpoint) or DIRTY (later ones) and changes nothing else, a full checkpoint changes nothing |
| Scan.Checkpointer.ScanTable | uhyve-x86_64.c:709-743 | One level of the nested loops does all visits below its table, although entries change under it |
| Scan.Checkpointer.ScanEntry | uhyve-x86_64.c:717-741 | Descend, take as a leaf or skip, decided on the memory of that moment, gives the visits of the memory at the start |
| Scan.Checkpointer.VisitLeaf | uhyve-x86_64.c:722-739 | A flagged leaf is cleared before its record is written, a 4 KiB record drops the PSE bit |
| Scan.WalkFramed | uhyve-x86_64.c:708-743 | The walk of the tables depends only on the words it reads, and not on their ACCESSED and DIRTY bits: clearing bits during the scan cannot misdirect it |
| Scan.VisitIsRead | uhyve-x86_64.c:710-733 | Every leaf the scan tests is a present word of the tables, and a 2 MiB leaf carries PSE |
| Scan.ScanMemory | uhyve-x86_64.c:706-737 | The same of any list of visits: what a scan makes of each word of memory, for every checkpoint number and both kinds of checkpoint |
| ScanPaths.EachPathOnce | uhyve-x86_64.c:709-741 | The scan visits exactly the leaves found at four loop indices, in the order of the loops, and no path twice; a 2 MiB leaf has three indices |
| Records.ParseSerialize | uhyve-x86_64.c:1094-1106 | Reading a written checkpoint stream gives back the very records that were written |
| Records.DestIsOffset | uhyve-x86_64.c:1094-1106 | In bytes, a record goes to the destination offset of its stored word and is 2 MiB long exactly if bit 7 of that word is set |
| Records.LoadedWord | uhyve-x86_64.c:1094-1106 | A loaded word has the value of the records that cover it, and its old value if none does |
| Records.LoadFile | uhyve-x86_64.c:1094-1106 | The read loop stores every record of any file in order, and reports a cut-off page |
| Records.LoadCheckpoint | uhyve-x86_64.c:1063-1110 | For every directory the files 0..n, or n alone, are loaded in order up to the first that is missing (-1) or cut short (abort) |
| Records.LoadedIffWhole | uhyve-x86_64.c:1069-1104 | Loading succeeds if and only if every needed file exists and ends at a record boundary |
| Records.FirstBad | uhyve-x86_64.c:1069-1104 | A load that fails ends at the first bad file, with -1 if it is absent and the abort if it is cut short, and memory then holds the files before it and the whole pages of a file cut short |
| Records.WrittenFilesLoad | uhyve-x86_64.c:1063-1110 | Files written by dumps load, and give the pages of the records they were written from |
| FrozenScan.RecordFaithful | uhyve-x86_64.c:726-739 | Each record of a frozen scan is the page of a flagged leaf as memory was when the scan began, except for bits the scan itself clears in tables |
| FrozenScan.ScanRecords | uhyve-x86_64.c:722-741 | The scan writes one record for each leaf that carries the selected flag, in the order of the visits, for that leaf's page |
| FrozenScan.ScanComplete | uhyve-x86_64.c:704-745 | Every word below a flagged leaf is in some record |
| FrozenScan.AllCleared | uhyve-x86_64.c:728-737 | A scan that clears, which by ScanMemory every incremental one does, leaves no leaf flagged |
| FrozenScan.ScanTouches | uhyve-x86_64.c:728-737 | A scan changes no word but leaf entries, and nothing at all for full checkpoints |
| FrozenScan.DumpedWord | uhyve-x86_64.c:704-745 | Loading a dump over an older image gives current memory wherever the image was right or a leaf was flagged |
| Checkpoints.RunKeeps | uhyve-x86_64.c:706 | Whatever the guest does, each tracked word equals the chain of files so far or lies below a flagged leaf |
| Checkpoints.DumpKeeps | uhyve-x86_64.c:852-879 | A dump completes its checkpoint and prepares the next one |
| Checkpoints.RestartKeeps | uhyve-x86_64.c:1063-1110 | A restart gives memory of the announced checkpoint and a machine whose next incremental dump is again complete |
| Checkpoints.RestartRestores | uhyve-x86_64.c:704-906 | Over every run of guest execution, dumps, commits and restarts, crashes between dump and commit included, a restart brings back all tracked memory as it was at the last announced dump |
| IncrementalDumps.OnlyMarkedSaved | uhyve-x86_64.c:706-741 | Between two incremental dumps of a run: each record of the second file is the page of a leaf that was clean after the first dump and is dirty now (but for entries dirty and not accessed before the very first dump) |
| IncrementalDumps.NothingRanNothingSaved | uhyve-x86_64.c:722-741 | If the guest does not run between two incremental dumps, the second file is empty |
| FullCheckpoints.SavedIffPending | uhyve-x86_64.c:706-741 | A full checkpoint saves exactly the words below accessed leaves |
| FullCheckpoints.RunGrown | uhyve-x86_64.c:728-737 | In every full-checkpoint run the saved sets only grow from file to file, also across restarts |
| FullCheckpoints.ChainForgets | uhyve-x86_64.c:1063-1110 | A file that holds all that earlier files hold makes them irrelevant |
| FullCheckpoints.NewestFileSuffices | uhyve-x86_64.c:1063 | In every state a full-checkpoint run reaches, loading file n alone gives exactly the memory of loading files 0..n |
| Regions.PhysWhole | uhyve-x86_64.c:445-463 | Every page of guest memory outside the I/O gap lies in one of the regions that a live migration registers |
| Regions.PhysExact | uhyve-x86_64.c:445-463 | The registered physical regions hold an address if and only if it is guest memory outside 0xD0000000 to 0xFFFFFFFF |
| Regions.NothingBelowFirst | uhyve-x86_64.c:779 | No address below 8 MiB lies in a region taken from a free list |
| LiveMigration.RunKeeps | uhyve-migration-rdma.c:905-923 | A guest write at any moment leaves each tracked page flagged, in hand, queued or equal at the destination |
| LiveMigration.TestKeeps | uhyve-x86_64.c:726-740 | Clearing a leaf before handing it over loses no tracked page, provided that while the guest runs no datum is sent by the 2 MiB visit of an entry alone |
| LiveMigration.OneSizeNarrow | uhyve-x86_64.c:720-739 | Tables whose entries are visited in one size meet that proviso |
| LiveMigration.EnqueueKeeps | uhyve-migration-rdma.c:692-747 | Looking a page up and listing it queues all its words, or it was not needed |
| LiveMigration.CopyKeeps | uhyve-migration-rdma.c:770-821 | Copying queued words in any order, while others are still to come, keeps the same |
| LiveTheorems.MigrationDelivers | uhyve-migration-rdma.c:880-983 | If each stale tracked word is below a flagged leaf whose page lies in a region, every finished run of a live or cold incremental migration is free of faults and has the destination equal to the frozen source, after at most four pre-copy rounds |
| LiveTheorems.LostForever | uhyve-migration-rdma.c:905-983 | From any state in which a tracked page is stale and not on its way, or a request will be refused, the migration can finish without delivering |
| LiveTheorems.StaleNeverDelivers | uhyve-migration-rdma.c:730-735 | For all tables and regions: a stale tracked word without a flagged leaf whose page lies in a region keeps any migration, live or cold, from delivering |
| LiveTheorems.DeliversIffOnTheWay | uhyve-migration-rdma.c:703-735 | A cold migration delivers if and only if every stale tracked word has a flagged leaf whose page lies in a region and no page that is picked leaves its region; so does a live one with all memory registered that meets the proviso of TestKeeps |
| LiveTheorems.DeliversIffUpToDate | uhyve-x86_64.c:704-745 | With all memory registered, for every start: a cold migration delivers if and only if each tracked word is equal at the destination or below a leaf with the selected flag; a live one if and only if, besides, no datum lies below the 2 MiB visit of an entry and outside its 4 KiB visit, should the scan clear bits |
| LiveTheorems.UnlistedTableWord | uhyve-migration-rdma.c:730-735 | A page-table word in no registered page never reaches the destination: no run delivers |
| LiveTheorems.AliasedWriteIsLost | uhyve-x86_64.c:720-739 | Where such a datum exists, no clearing live migration delivers, whatever is flagged and whatever the destination holds: a guest write between the two visits can be lost |
| LiveProgress.MigrationEnds | uhyve-migration-rdma.c:862-923 | However much the guest runs in between, a live migration takes at most the events of five full scans, a cold one of one |
| LiveProgress.AlwaysMovable | uhyve-migration-rdma.c:770-821 | No reachable migration is stuck before its end |
| SelfMap.SelfMapWidestFirst | uhyve-x86_64.c:369 | In every self-mapped table tree each entry is visited as 2 MiB leaf before it is visited as 4 KiB leaf, so frozen dumps are complete |
| Coverage.WalkIsVisited | uhyve-x86_64.c:1399-1443 | Whatever address the walker resolves through 4 KiB or 2 MiB pages, the scan visits a leaf that covers it |
| Coverage.BootAliases | uhyve-x86_64.c:368-372 | Each page directory entry of the boot tables is scanned both as a 2 MiB leaf and as a 4 KiB leaf |
| Coverage.BootTwoSizes | uhyve-x86_64.c:368-372 | So the boot tables are not scanned in one size per entry |
| BootGuest.BootValid | uhyve-x86_64.c:352-377 | With one gigabyte of memory behind them, the boot tables meet all that the checkpoint and migration theorems ask of tables |
| BootGuest.BootRegistered | uhyve-x86_64.c:445-463 | Registering all memory registers every page of the boot mapping |
| BootGuest.BootMachineVerdict | uhyve-x86_64.c:352-377 | On the machine uhyve boots, with all memory registered and for every start: a cold migration delivers exactly when each tracked word is equal or below a flagged leaf, a live one that clears bits never does, and one that does not clear bits under the same condition as a cold one |
| BootGuest.AllocatedOnlyNeverDelivers | uhyve-migration-rdma.c:883-887 | A cold migration that registers the chunks of any free list never gets the page tables at 0x10000 across: no run of it delivers |
| BootGuest.CleanPagesAreLost | uhyve-x86_64.c:706 | After a checkpoint both kinds of migration fail from a start that would have been complete before it |
| BootGuest.BootRun | uhyve-x86_64.c:835-906 | That machine has a run that dumps, announces and restarts, in both checkpoint modes |
| Barriers.ArriveKeeps | uhyve.c:790-791 | A barrier never lets a thread run ahead of, or fall behind, its generation |
| CheckpointBarrier.RunInv | uhyve-x86_64.c:848-905 | In every interleaving each thread stands where the checkpoint number and its barrier arrivals say, and each file part fits the phase |
| CheckpointBarrier.StopTheWorld | uhyve-x86_64.c:852-879 | From opening the memory file to the end of the dump all threads are inside their handlers and the guest state cannot change |
| CheckpointBarrier.ConsistentCut | uhyve-x86_64.c:854-905 | Every finished checkpoint has all CPU files and the memory file under its number, and all show one guest state |
| CheckpointBarrier.NoDeadlock | uhyve.c:612-618 | While a tick is being handled some thread can always take its next step |
| CheckpointBarrier.TickEnds | uhyve-x86_64.c:835-906 | Handling one tick takes at most n * (n + 12) steps of the handshake among n threads, however guest code and page dumps come between |
| CheckpointBarrier.NextCheckpoint | uhyve-x86_64.c:835-906 | Every run can be continued to one that has completed its next checkpoint |
| CheckpointBarrier.SomeCheckpoints | uhyve-x86_64.c:835-906 | For any number of threads some run completes any number of checkpoints |
| MigrationBarrier.ConsistentHandover | uhyve-x86_64.c:957-978 | While memory is finally copied and CPU states are sent, all vCPUs have saved the same state and none ever runs again |
| MigrationBarrier.NoDeadlock | uhyve.c:620-636 | The handshake between vCPU threads and migration thread cannot get stuck before the states are sent |
| MigrationBarrier.MigrationEnds | uhyve-x86_64.c:957-978 | The whole handover takes at most 8 n + 6 steps, however guest code and page copies come between |
| MigrationBarrier.Completes | uhyve-x86_64.c:957-978 | Every run can be continued to one that has sent all states |
| MigrationBarrier.SomeHandover | uhyve.c:620-636 | For any number of threads some run hands over all states, each saved in the final guest state |
| Ring.CounterDistance | uhyve-net.h:41-51 | Within the queue size the wrapping 64-bit difference is the true one, and two packets in the queue never share a slot |
| Ring.RingIsSafe | uhyve.c:228-287 | Under every interleaving with stale counter loads and any wraparound, 0 to 8 packets are unread and the handled packets are a prefix of the published ones |
| Ring.ProducerTouchesOnlyFreeSlots | uhyve.c:237-252 | A producer about to write never touches an unread packet |
| Ring.NoLostDoorbell | uhyve.c:264-287 | A transmit thread that blocks has handled every announced packet |
| RingProgress.ConsumerMoves | uhyve.c:264-287 | A transmit thread that is awake, or whose doorbell has rung, always has a next step |
| RingProgress.ProducerMoves | uhyve.c:234-257 | So has a producer, in every state |
| RingProgress.TakesIffThere | uhyve.c:271-285 | It takes the next packet exactly if one was published when it looked, and the length is the published one |
| RingProgress.RoomIff | uhyve.c:237-240 | A producer goes on exactly if fewer than 8 packets were unread when it looked |
| RingProgress.ConsumerRests | uhyve.c:264-287 | While nothing is produced the consumer takes a bounded number of steps |
| RingProgress.RestingIsDone | uhyve.c:264-287 | When it can take none any more, every published packet has been handled |
| RingProgress.Drains | uhyve.c:264-287 | From every reachable state with a resting producer the consumer alone reaches that state |
| Ring.Transmit | uhyve.c:273-282 | A packet is written completely and in order, whatever the short and failed writes before, as long as write() never fails for good; or not at all when its length reaches the MTU |
| FreeList.MemMappings.CheckForIoGap | uhyve-x86_64.c:488-515 | A chunk is removed, shrunk, moved or split in place; slot index and count follow |
| FreeList.MemMappings.DetermineMemMappings | uhyve-x86_64.c:759-805 | The written chunks are the stretches between free regions without the gap; the count is short by one exactly when there is a trailing stretch |
| FreeList.SlotFits | uhyve-x86_64.c:772-774 | Through removal, shrinking and splitting, every slot index stays below list length + 2 |
| FreeList.ChunksCover | uhyve-x86_64.c:759-805 | An address is in a written chunk if and only if it is between 0x800000 and the end, not free and not in the gap |
| FreeList.ChunksDisjoint | uhyve-x86_64.c:759-805 | The written chunks are disjoint and ascending |
| FreeList.CountedIffLastEnds | uhyve-x86_64.c:774-801 | The counted chunks cover all allocated memory if and only if the last free region ends at the end of memory or the uncounted chunk is empty, which it never is when adjacent free regions are merged |
| Walker.HitShape | uhyve-x86_64.c:1413-1419 | For arbitrary tables a low-half hit leaves exactly the rest of its page; in the upper half bit 63 puts the address beyond the page end |
| Walker.SmallPage | uhyve-x86_64.c:1399-1430 | Four present entries, found by nine bits of the address each from 0x10000 on, give the frame of the last one plus the offset, and the end of that 4 KiB page |
| Walker.LargePage | uhyve-x86_64.c:1399-1430 | Three with a large last one: the same for its 2 MiB page |
| Walker.HugePage | uhyve-x86_64.c:1399-1430 | Two with a large last one: the same for its 1 GiB page |
| Walker.AbsentEntry | uhyve-x86_64.c:1399-1443 | An absent entry at any of the four levels gives (0, 0) |
| Walker.UpperTwin | uhyve-x86_64.c:1408-1419 | An upper-half address finds the entries of its low-half twin, with the result 2^63 too high |
| Walker.SamePage | uhyve-x86_64.c:1399-1428 | Addresses of one page translate to consecutive physical addresses |
| BootTables.SetupPageTables | uhyve-x86_64.c:352-377 | The three tables are built and nothing outside them changes |
| BootTables.BootTranslation | uhyve-x86_64.c:352-377 | On these tables each address below 1 GiB translates to itself with the next 2 MiB boundary, every other low-half address to (0, 0) |
| BootTables.BootWritable | uhyve-x86_64.c:366-372 | Every entry on the way of an address below 1 GiB is present and writable |
| BootTables.BootUpperHalf | uhyve-x86_64.c:1416 | On the boot tables such addresses are mapped, beyond the page end that is returned |
| Hypercalls.ProgressIffMapped | uhyve.c:410-412 | A copy step moves forward if and only if its page is mapped |
| Hypercalls.WriteHypercall | uhyve.c:400-422 | The loop ends and the host receives exactly the bytes a byte-by-byte translated copy would send, up to its first short answer, whose length is reported; each time it is asked for the rest or what is left of the page, whichever is less |
| Hypercalls.ShortAnswerEnds | uhyve.c:414-417 | An answer below the amount asked for is the last one, and the total reported ends with it |
| Hypercalls.ScatterChunk | uhyve.c:434-436 | Within a page byte-by-byte translated stores equal one contiguous store |
| Hypercalls.ReadHypercall | uhyve.c:424-446 | Memory afterwards equals a byte-by-byte translated copy of the bytes read, over any mix of page sizes; each time the host is asked for the rest or what is left of the page, whichever is less |
| Aarch64.FlatEqualsRecursive | uhyve-aarch64.c:114-190 | Outside the static range both walks agree on every address, with the right page end, exactly when four entries are nonzero; otherwise the recursive walk gives (0, 0) |
| Aarch64Entries.FourEntries | uhyve-aarch64.c:114-190 | For any four words on the way, found by nine bits of the address each from the root table on, both walks return the frame of the last word plus the offset; a static address maps to itself in the flat walk, and a zero word gives (0, 0) in the recursive one |
| SendQueue.QueuePair.PostSend | uhyve-migration-rdma.c:781-782 | The queue takes what fits, in order, and hands back the rest |
| SendQueue.Sender.AppendToSendList | uhyve-migration-rdma.c:664-677 | The request is appended, and asks for a completion exactly if it is an 8192nd one |
| SendQueue.Sender.CreateSendListEntry | uhyve-migration-rdma.c:692-747 | The request carries the keys of the first region that holds its page's start, and the destination offset of its entry; outside all regions nothing is listed |
| SendQueue.Sender.EnqueueAllMrs | uhyve-migration-rdma.c:831-856 | Each byte is carried by as many requests as there are regions holding it, none larger than the maximum |
| SendQueue.Sender.Seal | uhyve-migration-rdma.c:968-978 | Only the last request has the last-page id and it is signalled; an empty list gets a dummy |
| SendQueue.Sender.ProcessSendList | uhyve-migration-rdma.c:770-821 | Every request is posted once and in order within queue depth, polling never waits for nothing, there are ceil(L/8192) posts and the last completion is that of the last page |
| SendQueue.Sender.CompleteDump | uhyve-migration-rdma.c:936-983 | With page-aligned regions the destination ends equal to the source on every byte of every region and unchanged elsewhere |
| SendQueue.CarriedArrive | uhyve-migration-rdma.c:739-743 | In-place writes deliver exactly the bytes that some request carries |
| SendQueue.AlignedOffset | uhyve-x86_64.c:517-526 | Applied to a plain offset instead of an entry, determine_dest_offset is the identity if and only if the offset is a page boundary |
| TcpMigration.Socket.SendData | uhyve-migration.c:287-299 | All bytes are sent in order under every fragmentation |
| TcpMigration.Socket.RecvData | uhyve-migration.c:267-279 | Exactly the next bytes of the stream land at the destination and nothing else changes |
| TcpMigration.SendMigration | uhyve-x86_64.c:949-985 | The stream is regions, memory, CPU states and clock |
| TcpMigration.LoadMigrationData | uhyve-x86_64.c:994-1030 | For every fragmentation the receiver stores and returns what the stream says and consumes exactly that much |
| TcpMigration.ChunksRoundTrip | uhyve-migration.c:319-347 | Region lists survive encoding |
| TcpMigration.RegionLayout | uhyve-migration.h:80-83 | Region i is announced as its size and then its address, eight bytes each |
| Bytes.EncodeAt | uhyve-migration.c:287-299 | Numbers travel as they lie in memory: byte k is digit k to base 256 |
| TcpMigration.AgreesIffSent | uhyve-migration-tcp.c:50-96 | On every announced region the destination's memory equals the source's and no other byte changes; CPU states and clock agree and the stream is used up. Exactly unless a cold migration announces nonempty memory while having no allocated regions: then the receiver hangs |
| TcpMigration.GuestSizeRoundTrip | uhyve-x86_64.c:935-938 | Both hosts compute the same guest size for every requested size, although below 768 MB the subtraction wraps |
| TcpMigration.GuestUsable | uhyve-x86_64.c:1151-1156 | The physical regions add up to the requested size, which from 768 MiB on is also the size sent |
| SList.List.InsertHead | queue.h:130-133 | The entry becomes the head of an intact list |
| SList.List.Find | queue.h:107-110 | The first entry with this address and length, or none |
| SList.List.Remove | queue.h:144-155 | The list without exactly this entry, in the old order |
| Breakpoints.Gdb.AddBreakpoint | uhyve-gdb.c:1040-1066 | The linked lists and the patched memory change as the command's specification says, including the failure at four hardware breakpoints |
| Breakpoints.Gdb.RemoveBreakpoint | uhyve-gdb.c:1068-1088 | The same for removal, including the assertion that ends the program |
| Breakpoints.InsertKeeps | uhyve-gdb.c:680-701 | Inserting always keeps memory equal to the program with int3 exactly at active addresses |
| Breakpoints.RemoveKeepsIff | uhyve-gdb.c:703-714 | One removal never aborts, and keeps that property if and only if the entry is not overlapped by a newer one of another length |
| Breakpoints.RunSound | uhyve-gdb.c:776-892 | Over any command sequence with one length per address nothing aborts, memory is patched exactly at active addresses, at most four hardware breakpoints exist, and removing all software breakpoints in any order restores the program |
| BreakpointLists.CommandEffect | uhyve-gdb.c:1040-1088 | One command on what its list shows, newest first: a new key goes to the front with reply 0, a fifth hardware breakpoint and an unknown key are answered with -1, nothing else is; the other list stays, and hardware commands neither touch memory nor abort |
| BreakpointLists.ShowsSetKeys | uhyve-gdb.c:776-892 | Over any command sequence either list shows, newest first, exactly the keys that were set with reply 0 and not removed since |
| Breakpoints.TwoLengthsAbort | uhyve-gdb.c:703-714 | Two lengths at one address, removed oldest first, trip the assertion |
| GdbPackets.Mem2Hex | uhyve-gdb.c:132-144 | The loop writes the two digits of each byte in order |
| GdbPackets.HexDigits | uhyve-gdb.c:97-126 | Digits are read in upper and lower case and written in lower case, every other character is invalid |
| GdbPackets.HexRoundTrip | uhyve-gdb.c:132-163 | The digits written for some bytes denote these bytes and no others |
| GdbPackets.Hex2Mem | uhyve-gdb.c:150-163 | The bytes the digits denote |
| GdbPackets.Connection.RecvPacket | uhyve-gdb.c:235-337 | The receive loops, acknowledgements, the static buffer and the abort on non-ASCII input follow the packet specification for every input |
| GdbPackets.Connection.SendPacketNoAck | uhyve-gdb.c:343-371 | A string is sent as its frame with the checksum |
| GdbPackets.SumIsTotal | uhyve-gdb.c:356-367 | The checksum is the sum of the characters modulo 256 |
| GdbPackets.FrameOk | uhyve-gdb.c:343-371 | The reply OK travels as $OK#9a |
| GdbPackets.FrameReceivedIff | uhyve-gdb.c:274-333 | After any noise a framed payload is returned and acknowledged with '+', if and only if index 2 of the buffer is not a colon; a sequence id is echoed and stripped |
| GdbPackets.PrefixIsNull | uhyve-gdb.c:263-313 | A connection that ends anywhere before the last checksum digit of a frame gives NULL without an acknowledgement |
| GdbPackets.StaleColon | uhyve-gdb.c:325-331 | The colon can be left over: after a packet with a sequence id, a one-character packet is answered with a made-up id and its text is not returned |
| GdbPackets.RecoversAfterBad | uhyve-gdb.c:304-317 | A wrong checksum is answered with '-' and the next good frame is received |
| GdbPackets.DollarRestarts | uhyve-gdb.c:290-291 | A '$' inside a packet starts it again |
| GdbPackets.OverlongDropped | uhyve-gdb.c:286-302 | Data that fills the buffer is dropped without an acknowledgement |

## Left out

- Scan.Checkpointer.ScanTable: models the four nested loops as one loop per level with recursion; order and effects are the same.
- FreeList.MemMappings.DetermineMemMappings: takes the list pointers already translated, and requires a list that is sorted, disjoint, nonempty and outside the gap.
- Hypercalls.WriteHypercall: does not model a host error of -1 (taken as a large success by the code) or an unmapped buffer, on which the loop spins.
- Hypercalls.ReadHypercall: requires a mapped buffer that overlaps neither the table entries translating it nor the request structure.
- TcpMigration.Socket.RecvData: requires the bytes to be in the stream already, where the code would block until they are.
- TcpMigration.LoadMigrationData: requires a stream that loads; Received says for every other stream whether the code hangs or writes out of range.
- SendQueue.Sender.ProcessSendList: completions with an error status, which the code only reports, are modelled in LiveMigration (fault) and not here.
- LiveMigration.CopyKeeps: words are copied one by one in any order; the destination index is the source index, which DestOffsetDecoded justifies. After a fault any listed word may or may not arrive.
- Restart of several cores: CPU 0 increments the checkpoint number without a barrier against the other cores' read_cpu_state, so nothing is claimed about the numbers they read.
- Reference counts above one: bp_list_insert is only called after bp_list_find failed, so its sharing branch is unreachable and is not modelled.
- The configuration file as a round trip, the MAC address check, parameter parsing and load_kernel.
- KVM calls, registers, interrupt controller, clocks, CPUID; set-up of sockets, verbs and TAP devices; on-demand-paging prefetch; the compiled-out dirty log.
- A walk that would read table entries outside guest memory: such entries count as not present.
