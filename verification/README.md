# A verified model of the p2p-network client and tracker

The system shares files between clients. A tracker keeps a registry of torrents and of the
clients that share them. A client cuts a file into segments of 8000 bytes, downloads
segments from several peers at once with one worker thread per peer, and serves the
segments it has to other clients.

The project models these parts:

- **Segments and files on disk** (`Blocks`, `SegmentTable`, `ClientFile`, `FileManager`,
  `SharedStream`): segment geometry, zero-padded blocks, the shared segment table with its
  cached completion flag, reading and writing of segments, several readers of one stream.
  `ClientFile.File` and `FileManager.FileManager` are classes whose methods are proved
  against functions on values.
- **The download protocol** (`Swarm`, `SwarmSafety`, `SwarmOutcome`, `SwarmDisk`,
  `SwarmRefinement`, `DownloadWorker`, `Responder`, `Interleaving`): a transition system of
  any number of nodes and any number of workers. A step is one mutex-guarded call on a file,
  one state read by a responder's scan, one byte read from a peer's disk, one byte written
  to the own disk, or one message that arrives or is lost; a store may fail before any of
  its bytes. So list replies, fragment replies and stores are all interleaved with
  everything else. `SwarmDisk` says what is on the disks after a run.
  `DownloadWorker.DoWork` is the worker's loop as a method that runs against arbitrary
  interference by the other threads, and `SwarmRefinement` ties the small steps to the
  contracts of the responder and the file manager.
- **The lock tables** (`LockTables`, `LockCalls`): the two mutexes, the condition variable
  and the two tables of the file manager, with one step per mutex operation.
- **The download manager** (`DownloadManager`): peers of a file and the pool of workers.
- **The tracker** (`Allocation`, `Registry`, `Tracker`, `TrackerRuns`): allocation of hashes by salting,
  the vectors of clients and torrents, and runs of the tracker's operations, which are shown
  to refine a relation between addresses and hashes.
- **The two file formats** (`LittleEndian`, `Torrents`, `ClientDatabase`): torrent files and
  the client's list of torrent files.

`std::hash` is an arbitrary function from byte strings to 64-bit numbers. A `std::string` is
a sequence of bytes. Numbers in files are little-endian, as on the machines the programs
are built for. The 32-bit conversion of a torrent's size and the 32-bit salt counter are
modelled with their wrap-around.

## Where the code is unfinished, or does not do what it promises

Deviations, where the model follows the stated intent:

- The copy constructor of `File` (src/client/file/File.cpp:48) copies nothing; the model's
  files are shared objects.
- The constructor of a worker reads a pointer it has moved from
  (src/client/download/DownloadWorker.cpp:65-68); the model takes the torrent of the file.
- The responder answers from a hard-coded database (src/client/networking/ResponderThread.cpp:39-41)
  and from a null data pointer (line 74). The model's responder answers from the client's
  own files, with the bytes of `getSegment` as the commented line 75 intends. It asks for
  the bytes of the file that lie in the segment: with the default size that line 75 uses, a
  last segment that is not full could not be read (`FileManager.DefaultSizeFailsExactlyAtShortEnd`).
  `set_fragments(totalSegs++, i)` (line 55) is an append.
- `addTorrent` locks a mutex it already holds (src/server/database/Database.cpp:69-70 with
  53); it is one atomic operation here. An announcement is two such operations, Put and
  Join, with other threads in between; New stands for both at once. `addTorrentToClient` changes copies (lines 18, 25);
  the model changes the entries.

Shown as they are, with the exact condition under which they are right:

- A store that fails, because the local file does not open
  (src/client/file/FileManager.cpp:61-64) or a write fails (lines 72-73), is not noticed by
  the worker, which marks the segment COMPLETE (src/client/download/DownloadWorker.cpp:43-44);
  peers then download and pass on what is on that disk. `SwarmDisk.FailedStoreTrace` ends with
  a complete file of which nothing is stored. The model keeps, for each node and segment,
  how many bytes of the block came through: as many as the store wrote, but no more than the
  peer has. In every reached state the block is on disk exactly if the source has only
  zeros after these (`SwarmSafety.ContentExactly`, `SwarmSafety.CopyAsGoodAsOriginal`,
  `SwarmDisk.FailedStoreHarmlessExactly`), and no byte is ever wrong other than by being 0
  (`SwarmSafety.SourceOrZero`). A segment of which no store failed at any node came through
  whole (`SwarmSafety.ContentIntegrity`).
- The failed opening also keeps the write lock: the contract of
  `FileManager.FileManager.StoreSegmentToFile`. A reader of that file then waits for ever:
  `LockTables.LeftEntryTrace`.
- `getSegment` seeks, tells and reads on the stream of the table entry while it holds no
  mutex (src/client/file/FileManager.cpp:120-139), so a reader can get another one's segment:
  `SharedStream.StolenReadTrace`, `SharedStream.ReadRightExactly`. With a mutex, or with a
  stream of its own, it does not: `SharedStream.AloneReadsRight`. The responder makes a file
  manager for each message (src/client/networking/ResponderThread.cpp:35), hence each reply
  has its own stream, and the swarm reads each byte at its own position.
- After a read past the end the stream that all readers of a file share has failed, and
  later reads give nothing: the contract of `FileManager.FileManager.GetSegment`.
- A torrent of 2^31 bytes or more is cut into the wrong number of segments, mostly none, and
  then counts as complete: `ClientFile.CutRightExactlyBelow2GiB`, `ClientFile.AskNewFile`,
  although src/shared/Torrent.h:18 promises files of up to 4 GB.
- `readLock` lets go of one mutex before it takes the other; a file can then be in both
  tables: `LockTables.GapTrace`, `LockTables.ExclusionBreaksExactly`. The variant that keeps
  the mutex excludes it: `LockTables.TablesExclusive`.
- Readers of one file share one table entry, and the first to unlock removes it:
  `LockTables.SharedEntryTrace`, `LockTables.ProtectionEndsExactly`.
- A thread can be left waiting for ever, in three ways: `readUnlock` never notifies
  (`LockTables.LeftWaitingTrace`), a thread can begin to wait after the notification that it
  needed (`LockTables.LostWakeupTrace`), and a writer whose file does not open leaves its
  entry behind (`LockTables.LeftEntryTrace`). Exactly these steps do it:
  `LockTables.StrandedExactly`; without them a run that comes to rest has everyone through:
  `LockTables.RestExactly`.
- The tracker thread does not use the hash that `addTorrent` returns, although
  src/server/database/Database.h:23 says that it may differ: `Tracker.ReplyIdentifiesExactly`,
  `Tracker.AnnouncerFoundExactly`, and `Tracker.TwoOfOneName` for a run in which it goes wrong.
- `addPeersToFile` adds only known addresses (`DownloadManager.AsWrittenFindsNoPeers`), and
  `checkIfWorkersWorkWithPeer` takes any two IPv4 peers, and any two IPv6 peers, for the
  same, because their empty strings of the other family agree
  (`DownloadManager.AsWrittenServedExactly`). With the addition alone repaired, only the
  first reply that names peers of a family leads to workers for it
  (`DownloadManager.AsWrittenServesFirstReply`, `DownloadManager.AsWrittenServesOne`). With
  both repaired there is exactly one worker for each peer.
- `setSegmentState` stores the state before it rejects DOWNLOADING: the contract of
  `ClientFile.File.SetSegmentState`.
- A saved list counts entries without a path but does not write them:
  `ClientDatabase.SavedListsPathsExactly`, `ClientDatabase.PathlessEntryCutsList`.
- `saveToFile` of a torrent remembers the name of the content instead of the name of the
  torrent file, so the list loses the entry: `ClientDatabase.SavedEntryFoundExactly`.

## Model

| member | source | states |
|---|---|---|
| Blocks.CountIsCeiling | src/client/file/File.cpp:72-76 | numOfSegments is the only n with 8000*(n-1) < size <= 8000*n |
| Blocks.RangesPartition | src/client/file/File.cpp:72-80 | each position below size lies in the clipped range of exactly one segment, number p/8000 |
| Blocks.OffsetsFitInt32 | src/client/file/FileManager.cpp:69 | for sizes below 2^31 every seek offset fits a signed 32-bit int; the end of the last block does exactly up to size 2147480000 |
| Blocks.WriteByte | src/client/file/FileManager.cpp:69-70 | a byte written at any position is there, every other position reads as before, and the file grows only as far as needed |
| Blocks.WriteAt | src/client/file/FileManager.cpp:69-70 | the block is at its offset, all other positions are unchanged, the length is exact |
| Blocks.Block | src/client/file/FileManager.cpp:139-149 | a block has 8000 bytes: those of the file and zeros past its end |
| Blocks.SplitAndReassemble | src/client/file/FileManager.cpp:91-95 | storing all blocks into a zero-filled file in any order, repetitions included, gives the file back after truncation |
| SegmentTable.PollAgreesWithScan | src/client/file/File.cpp:33-45 | the cached answer equals a fresh scan exactly when the cache is sound, and asking keeps it sound |
| SegmentTable.SetKeepsLatch | src/client/file/File.cpp:19-27 | setting a state keeps the cache sound exactly when the cache is not set or the state is COMPLETE; so a release of a DOWNLOADING segment does |
| ClientFile.CutRightExactlyBelow2GiB | src/client/file/File.cpp:49-53 | the generated number of segments is ceil(size/8000) if and only if the 32-bit size is below 2^31 |
| ClientFile.LargeFileSegments | src/client/file/File.cpp:72-79 | from 2^31 on there is one segment in the last 8000 sizes and none below |
| ClientFile.AskNewFile | src/client/file/File.cpp:33-53 | a new file counts as complete exactly if it is empty or of a size from 2^31 to 2^32 - 8000 |
| ClientFile.File.constructor | src/client/file/File.cpp:49-58 | a new file has all its segments FREE and no completion flag |
| ClientFile.File.GenerateSegments | src/client/file/File.cpp:72-81 | the loop creates the segments with C++ division on the signed size |
| ClientFile.File.TryToSetStateSegmentStateToDownload | src/client/file/File.cpp:10-17 | one atomic claim: true and DOWNLOADING if FREE, else false and nothing changes |
| ClientFile.File.SetSegmentState | src/client/file/File.cpp:19-27 | the state is stored in every case; it throws exactly for DOWNLOADING |
| ClientFile.File.IsComplete | src/client/file/File.cpp:33-45 | the answer is the cached flag or the scan, it is cached, and from a sound cache it is the scan |
| FileManager.FileManager.CreateLocalFile | src/client/file/FileManager.cpp:91-100 | the file has size zero bytes; an old one is replaced |
| FileManager.FileManager.StoreSegmentToFile | src/client/file/FileManager.cpp:48-80 | the first 8000 bytes are written at the segment's offset and the lock entry is gone; a missing file changes nothing but leaves the lock entry behind; a file locked for reading makes the call wait |
| FileManager.FileManager.WriteBlock | src/client/file/FileManager.cpp:66-70 | writing byte by byte gives the block write |
| FileManager.FileManager.WriteUnlock | src/client/file/FileManager.cpp:259-275 | exactly the first entry of the name is removed, if there is one |
| FileManager.FileManager.GetSegment | src/client/file/FileManager.cpp:106-152 | of a call that no other reader interrupts: byte j is the file's byte at the segment's offset + j, and 0 from the size on; nothing is returned for a size above 8000, a missing file, a short read, or any read of that stream after a short one |
| FileManager.ReadGivesBlock | src/client/file/FileManager.cpp:139-149 | reading the bytes of a held segment gives exactly the source's padded block |
| FileManager.StoreThenRead | src/client/file/FileManager.cpp:48-152 | a stored block is read back, and reads of other segments are not affected |
| FileManager.DefaultSizeFailsExactlyAtShortEnd | src/client/file/FileManager.h:44 | with the default size a read of an exact-length file fails for the last segment if it is not full, and for no other |
| SharedStream.AloneReadsRight | src/client/file/FileManager.cpp:127-139 | a reader that is guarded from seek to read, or has its own stream, gets its segment in every run, or nothing after a read past the end |
| SharedStream.FailsOnlyPastEnd | src/client/file/FileManager.cpp:139-144 | such a stream fails only after a reader has asked for bytes past the end |
| SharedStream.ReadRightExactly | src/client/file/FileManager.cpp:127-139 | a read is right for every file of a length if and only if the stream is at the reader's offset, nothing is read, or both places are too near the end |
| SharedStream.StolenReadTrace | src/client/file/FileManager.cpp:120-134 | as written, a run of two readers of one stream in which the first gets the second one's segment |
| Responder.Respond | src/client/networking/ResponderThread.cpp:32-82 | each request gets the reply of its kind: a list names what some file of the client has COMPLETE, a fragment is the file's own bytes |
| Responder.AddCompleteSegments | src/client/networking/ResponderThread.cpp:53-57 | the inner loop appends the ids of the COMPLETE segments |
| Responder.RespondList | src/client/networking/ResponderThread.cpp:47-63 | the list is the concatenation over all files of that hash: i is in it if and only if some file of that hash has segment i COMPLETE, ascending if there is one file |
| Responder.RespondFragment | src/client/networking/ResponderThread.cpp:64-80 | F_FINE if and only if some file of that hash has the segment COMPLETE, and then with the bytes that the file system has there in the last such file, zeros after its end; else F_NO_FILE and nothing else |
| Responder.CompleteIdsExact | src/client/networking/ResponderThread.cpp:53-57 | a list names exactly the COMPLETE segments, each once, ascending |
| Responder.ListOfOne | src/client/networking/ResponderThread.cpp:51-59 | with distinct hashes the list is that of the one file |
| Responder.AnsweredExactlyWhenComplete | src/client/networking/ResponderThread.cpp:66-78 | F_FINE if and only if some file of that hash has the segment COMPLETE |
| Responder.ListedThenFine | src/client/networking/ResponderThread.cpp:51-76 | a segment once listed is answered F_FINE with the source's block by every later state that keeps COMPLETE segments |
| Swarm.InitInv | src/client/file/File.cpp:49-56 | seeds and fresh leechers satisfy the invariant |
| Swarm.StepInv | src/client/download/DownloadWorker.cpp:34-50 | every step of any worker, spawn or poll keeps the invariant: block contents, claims one to one, sound cache, served lists, settled entries, bytes in flight |
| Swarm.RunInv | src/client/download/DownloadWorker.cpp:17-51 | the invariant holds after every run |
| SwarmSafety.ContentExactly | src/client/download/DownloadWorker.cpp:34-48 | in every reachable state, failing stores included, a segment has the source's padded block on disk if and only if the source has only zeros after what came through, and replies carry what came through to the peer |
| SwarmSafety.SourceOrZero | src/client/file/FileManager.cpp:48-80 | each byte on every disk, in every reply and in every block being stored is the source's or 0 |
| SwarmSafety.CopyAsGoodAsOriginal | src/client/download/DownloadWorker.cpp:42-44 | when a store is over, the segment is whole on the own disk if and only if the source is zero after what was stored and what the peer has; without a failure, if and only if it is whole at the peer |
| SwarmSafety.ContentIntegrity | src/client/download/DownloadWorker.cpp:34-48 | under any interleaving each COMPLETE segment has the source's padded block on disk and each reply in flight carries its segment's bytes, for all segments of which no store failed |
| SwarmSafety.ExclusiveClaims | src/client/file/File.cpp:10-27 | a segment is DOWNLOADING if and only if a worker is between its claim and its release, and never two |
| SwarmSafety.CompleteStays | src/client/file/File.cpp:19-27 | no run ever leaves COMPLETE |
| SwarmSafety.LatchAgrees | src/client/file/File.cpp:33-45 | in every reachable state isComplete answers like a fresh scan; the disk begins with the source if and only if what did not come through is zeros, and so it does if the file is complete and no store failed |
| SwarmSafety.PollSetsFlag | src/client/file/File.cpp:33-45 | in every reachable state, asking sets the cached flag to what a scan gives and changes nothing else |
| SwarmSafety.FlagStays | src/client/file/File.cpp:34-43 | a cached flag that is set stays set in every run |
| SwarmSafety.ListedMeansServed | src/client/networking/ResponderThread.cpp:68-76 | a request for a listed segment is answered F_FINE, each byte can be read, and the stored data is what was read (the source's block unless a store of it failed), never what follows an empty reply |
| SwarmSafety.NeverStuck | src/client/download/DownloadWorker.cpp:35-48 | list ids are in range and reads inside the file: a worker can step if and only if it is not done |
| SwarmDisk.DiskFollowsSchedule | src/client/file/FileManager.cpp:69-70 | in every run, failing stores included, the byte writes at a node are a schedule of its stores that has made its disk |
| SwarmDisk.ConcurrentStoresSerialise | src/client/file/FileManager.cpp:223-257 | in every reachable state a node's disk is the one that storing what has been stored of each segment gives, one after the other, in any order, whatever the interleaving was and whichever stores failed |
| SwarmDisk.DiskExactly | src/client/file/FileManager.cpp:48-80 | in every reachable state each byte of a disk is the source's as far as its segment came through and 0 from there on, what is not stored is as at first, and the length is exact |
| SwarmDisk.DownloadedBlocks | src/client/file/FileManager.cpp:69-70 | when no store goes on at a node and none of its downloaded segments was spoiled, its disk is that of storing the source's blocks of these in any order |
| SwarmDisk.FailedStoreHarmlessExactly | src/client/file/FileManager.cpp:61-64 | in every reachable state a store that fails marks its segment COMPLETE, and the block is on disk if and only if the source is zero after the bytes written or those the peer has, whichever are fewer |
| SwarmDisk.FailedStoreTrace | src/client/download/DownloadWorker.cpp:43-44 | for every source of at most 8000 bytes a run ends with a file that reports complete and has only zeros |
| Interleaving.StoresSerialise | src/client/file/FileManager.cpp:69-70 | complete interleavings of stores of distinct segments equal running them in any order |
| Interleaving.PartialUnique | src/client/file/FileManager.cpp:69-70 | the progress of the stores alone determines the disk, its length included |
| Interleaving.SameSegmentDoesNotSerialise | src/client/file/FileManager.cpp:69-70 | two stores of one segment commute if and only if their data are equal |
| SwarmOutcome.WorkUsesUp | src/client/download/DownloadWorker.cpp:35-48 | every worker step lowers the bound on the steps left |
| SwarmOutcome.EveryScheduleEnds | src/client/download/DownloadWorker.cpp:34-50 | in every run from the start the workers take at most 16005*n + 3 steps each, whatever the schedule and the network |
| SwarmOutcome.CompleteExplained | src/client/download/DownloadWorker.cpp:42-44 | a segment became COMPLETE only if a list of one of the node's workers named it |
| SwarmOutcome.Outcome | src/client/download/DownloadWorker.cpp:35-50 | when all workers are done nothing is DOWNLOADING, a named segment is COMPLETE or failed at least once, and without failure COMPLETE means initially so or named |
| SwarmSafety.ErrorsRecorded | src/client/download/DownloadWorker.cpp:38-40 | a step records a failed download exactly for the segment whose reply is lost, and a failed store exactly for the segment whose store fails |
| SwarmOutcome.CoveredMeansDownloaded | src/client/download/DownloadWorker.cpp:49-50 | lists that cover the file and no download errors give a complete file; its disk begins with the source if and only if what did not come through is zeros, and so it does if no store failed |
| SwarmOutcome.CanFinish | src/client/download/DownloadManager.cpp:15-19 | from every reachable state the workers can be run to their end within their bound, without new errors or failed stores |
| SwarmOutcome.RetryCompletes | src/client/download/DownloadManager.cpp:58-63 | from every reachable state a new worker with a complete peer can make the whole file COMPLETE, and bring it home if no store has failed |
| SwarmRefinement.AloneList | src/client/networking/CSocket.cpp:5-31 | an undisturbed list request ends with the responder's list reply |
| SwarmRefinement.AloneDownload | src/client/download/DownloadWorker.cpp:36-44 | an undisturbed download is claim, F_FINE reply of the responder, block write and COMPLETE |
| SwarmRefinement.CreateLeecher | src/client/file/FileManager.cpp:91-97 | the file object and the local file of a torrent below 2^31 bytes are an initial leecher |
| DownloadWorker.DoWork | src/client/download/DownloadWorker.cpp:17-51 | against any interference the worker ends, in a reachable state where each listed segment is not FREE or has failed, and is on disk if and only if what did not come through is zeros, so if COMPLETE and no store of it failed |
| DownloadWorker.DownloadFragment | src/client/download/DownloadWorker.cpp:36-47 | the loop body ends at the next list entry, and its segment is not FREE or has failed, and is on disk if and only if what did not come through is zeros |
| DownloadWorker.RequestFragment | src/client/networking/CSocket.cpp:33-52 | the reply is F_ERROR or what came through to the peer, which is the segment's block unless a store of it failed |
| DownloadWorker.RequestFragmentsList | src/client/networking/CSocket.cpp:5-31 | the request ends with the worker done, or with an ascending list of all that was COMPLETE at the peer when it began and of nothing that is not COMPLETE when it ends |
| LockTables.StepInv | src/client/file/FileManager.cpp:154-275 | every mutex operation of every thread keeps the lock invariant |
| LockCalls.CallsGoOn | src/client/file/FileManager.cpp:154-275 | in every run each thread is outside or still in the last call it has begun, waits and wakeups included: who reads a file has called readLock for it, who writes one writeLock |
| LockCalls.ReadLockReturns | src/client/file/FileManager.cpp:180-206 | readLock returns true if and only if a reader has the file open or it can be opened, then with an entry; else the table is as it was |
| LockCalls.ReaderGoesOnTrace | src/client/file/FileManager.cpp:169-178 | a run in which a reader waits for a writer, is notified, and reads |
| LockCalls.WriterGoesOnTrace | src/client/file/FileManager.cpp:240-253 | a run in which a writer waits for a reader, is notified by a writer of another file, and writes |
| LockTables.TablesMatchHolders | src/client/file/FileManager.cpp:223-275 | each name is in the write table as often as threads hold its write lock and as its file did not open for a writer, in the read table at most once, and an unlocking writer finds its entry |
| LockTables.HoldAndWaitOnlyWR | src/client/file/FileManager.cpp:170-176 | a thread in the condition wait holds no mutex, and hold-and-wait goes only from writeLockMutex to readLockMutex |
| LockTables.BlockedExactlyWhenStuck | src/client/file/FileManager.cpp:154-275 | a thread cannot step if and only if it needs a mutex that is taken |
| LockTables.SomeoneCanStep | src/client/file/FileManager.cpp:154-275 | whenever a thread is blocked on a mutex another thread can step |
| LockTables.TablesExclusive | src/client/file/FileManager.cpp:154-207 | if readLock keeps writeLockMutex until it inserts, no name is ever in both tables |
| LockTables.ExclusionBreaksExactly | src/client/file/FileManager.cpp:178-202 | a step breaks exclusion if and only if it inserts a reader whose name is in the write table or the reverse |
| LockTables.GapTrace | src/client/file/FileManager.cpp:178-180 | as written, a run of two threads ends with one reading and one writing the same file |
| LockTables.ProtectionEndsExactly | src/client/file/FileManager.cpp:210-221 | a step leaves a reader without its entry if and only if it is another reader's unlock of that name |
| LockTables.NoReadWhileWriting | src/client/file/FileManager.cpp:223-257 | while readers have their entries no file is read and written at once |
| LockTables.SharedEntryTrace | src/client/file/FileManager.cpp:181-189 | two readers and a writer: after one reader's unlock the writer writes what the other reads |
| LockTables.StrandedExactly | src/client/file/FileManager.cpp:154-275 | from a state in which everyone waits for someone who will unlock, or a notification is coming, a step leaves somebody behind if and only if it is a readUnlock of a file that a writer waits for, the last writer's failed opening of a file that a reader waits for, or a wait for nothing, with no notification coming |
| LockTables.RestExactly | src/client/file/FileManager.cpp:154-275 | when every thread is outside or waits, no reader has an entry, only the writers' entries left behind remain, and nobody waits if and only if nobody is stranded; so it is if no step of the run left anybody behind |
| LockTables.LeftWaitingTrace | src/client/file/FileManager.cpp:210-221 | a writer that waits for a reader still waits after the reader unlocked, with no lock held by anyone |
| LockTables.LostWakeupTrace | src/client/file/FileManager.cpp:169-176 | a reader finds a writer, the writer unlocks and notifies, and then the reader begins to wait, with no lock held by anyone |
| LockTables.LeftEntryTrace | src/client/file/FileManager.cpp:61-64 | a writer whose file does not open leaves its entry, and a reader that comes afterwards waits for ever |
| DownloadManager.DownloadManager.AddPeersToFile | src/client/download/DownloadManager.cpp:87-100 | the four loops add the peers of the four lists in their order |
| DownloadManager.DownloadManager.StartWorkersForNewPeers | src/client/download/DownloadManager.cpp:48-57 | a worker is started for each peer that no existing worker matches |
| DownloadManager.DownloadManager.UpdatePeersAndStartWorkers | src/client/download/DownloadManager.cpp:33-47 | one tracker reply: first the peers it names are added, then workers are started for all peers not yet served |
| DownloadManager.ResponseContains | src/client/download/DownloadManager.cpp:87-100 | repaired, a reply adds exactly the addresses it names and drops none |
| DownloadManager.ResponseOrigin | src/client/download/DownloadManager.cpp:87-100 | each peer a reply adds is an entry, port included, of a list of its own address family |
| DownloadManager.ResponseOrder | src/client/download/DownloadManager.cpp:88-99 | repaired, a reply adds its new addresses in the order IPv6 peers, IPv6 seeds, IPv4 seeds, IPv4 peers, each where it comes first, with the next id; all other entries were known |
| DownloadManager.OneWorkerPerPeer | src/client/download/DownloadManager.cpp:48-62 | repaired, after any replies the peers are distinct with ids 1 to n and the workers are exactly one for each |
| DownloadManager.AsWrittenFindsNoPeers | src/client/download/DownloadManager.cpp:71-100 | as written no reply ever leads to a peer or a worker, whatever the comparison of workers is |
| DownloadManager.ResponseOneAddress | src/client/download/DownloadManager.cpp:87-100 | in both variants every peer has an address of one family at most |
| DownloadManager.AsWrittenServedExactly | src/client/download/DownloadManager.cpp:81-85 | as written a peer counts as served if and only if a worker is for its family; that is right if and only if a worker is for the peer or none is for its family |
| DownloadManager.AsWrittenServesFirstReply | src/client/download/DownloadManager.cpp:48-57 | with the addition repaired and the comparison of workers as written, after any replies: a peer that a further reply adds gets a worker if and only if the file had no peer of its family before |
| DownloadManager.AsWrittenServesOne | src/client/download/DownloadManager.cpp:48-57 | so of two peers of a family told in two replies the second gets no worker, and told in one reply both get one |
| Torrents.TorrentObject.GenDefaultHash | src/shared/Torrent.cpp:6-8 | the hash becomes that of the name, nothing else changes |
| Torrents.TorrentObject.GenSaltedHash | src/shared/Torrent.cpp:10-12 | the salt is appended to the name for good and the hash is that of the new name |
| Torrents.TorrentObject.SaveToFile | src/shared/Torrent.cpp:66-75 | the file is the encoding; the remembered path is the content's name |
| Torrents.TorrentObject.LoadFromFile | src/shared/Torrent.cpp:49-64 | the fields are those decoded and the path is the file's; a missing file gives size 2^32-1 |
| Torrents.ChainGrows | src/shared/Torrent.cpp:10-12 | salted names get strictly longer, so they are pairwise distinct |
| Torrents.ChainIsDecimals | src/server/database/Database.cpp:66-72 | the k-th salted name is the name with the decimals of 1 to k behind it, for k below 2^32 |
| Torrents.ChainWraps | src/server/database/Database.cpp:66-72 | with the salt after 2^32 - 1 the counter begins anew, at 0 |
| Torrents.DecimalIsValue | src/shared/Torrent.cpp:10-12 | the appended salt is the number in ASCII digits without leading zeros |
| Torrents.DecodeEncode | src/shared/Torrent.cpp:49-75 | decoding an encoding with anything after it gives the torrent and takes exactly the written bytes |
| Torrents.RoundTripExactly | src/shared/Torrent.cpp:70-72 | a torrent survives a round trip if and only if its name is shorter than 2^32 bytes |
| Torrents.EncodeInjective | src/shared/Torrent.cpp:66-72 | no encoding equals or begins another |
| Torrents.EncodeDecode | src/shared/Torrent.cpp:49-58 | what decodes is the encoding of its result |
| Torrents.EncodeLayout | src/shared/Torrent.cpp:66-72 | which bytes of the file hold the hash, the size, the length of the name and the name |
| LittleEndian.LastByteCountsMost | src/shared/Torrent.cpp:51-56 | the last byte of a number in a file is its most significant one |
| ClientDatabase.Database.SaveToFile | src/client/database/Database.cpp:58-75 | the list file is the count and the paths in order; 1 is returned and nothing written when it cannot be opened |
| ClientDatabase.Database.LoadFromFile | src/client/database/Database.cpp:29-56 | the entries are the torrents of the listed files that exist; a missing list changes nothing |
| ClientDatabase.SavedListsPathsExactly | src/client/database/Database.cpp:63-72 | a saved list names the paths if and only if as many entries have a path as the 16-bit count says |
| ClientDatabase.PathsInOrder | src/client/database/Database.cpp:65-71 | the paths of a list are those of the entries that have one, in the order of the entries |
| ClientDatabase.SavedLayout | src/client/database/Database.cpp:63-64 | a saved list begins with two bytes that count the entries |
| ClientDatabase.PathsLayout | src/client/database/Database.cpp:69-71 | where each path lies: four bytes with its length, then the path, one after the other |
| ClientDatabase.PathlessEntryCutsList | src/client/database/Database.cpp:65-68 | one entry without a path gives a list that ends too early |
| ClientDatabase.PathsOfCount | src/client/database/Database.cpp:65-68 | that is, below 2^16 entries, if and only if every entry has a path |
| ClientDatabase.LoadKeepsPresent | src/client/database/Database.cpp:40-53 | loading keeps exactly the paths whose files exist, in order |
| ClientDatabase.PresentInOrder | src/client/database/Database.cpp:40-53 | which are in the order of the list |
| ClientDatabase.SaveLoadSave | src/client/database/Database.cpp:29-75 | save, load, save: the second list names the present paths, and with none missing it is the first byte for byte |
| ClientDatabase.LoadedExactly | src/client/database/Database.cpp:40-53 | an entry is loaded if and only if its path is listed and names a torrent file of it |
| ClientDatabase.FoundAgainExactly | src/client/database/Database.cpp:29-75 | an entry is found again by loading the saved list if and only if its path is among those read, all files read are whole and its own is of it |
| ClientDatabase.SavedEntryFoundExactly | src/shared/Torrent.cpp:66-75 | the entry of a saved torrent survives saving and loading the list if and only if the content's name is among the paths read (below 2^16 entries: every entry has a path), all files read are whole, and the torrent file has the name of the content, or that name is a torrent file of it anyway |
| Allocation.TerminatesWithinStored | src/server/database/Database.cpp:65-78 | with m stored torrents and no collision among m+1 salted names at most m salts are tried |
| Registry.Database.AddTorrent | src/server/database/Database.cpp:65-78 | the loop stops at the first salted name whose hash is not taken and stores that |
| Registry.Database.IsHashUnique | src/server/database/Database.cpp:52-63 | whether no stored torrent has the hash |
| Registry.Database.AddOrUpdateClient | src/server/database/Database.cpp:4-14 | the first client of the address gets the torrents, or the client is appended |
| Registry.Database.AddTorrentToClient | src/server/database/Database.cpp:16-28 | the first client of the address, or a new one, gets the torrent unless it has its hash |
| Registry.Database.DeleteClient | src/server/database/Database.cpp:30-43 | the clients that are not equal stay, in order |
| Registry.Database.GetClientsWith | src/server/database/Database.cpp:93-104 | the clients that have the hash |
| Registry.Database.HasTorrent | src/server/database/ClientInfo.h:45-50 | whether some torrent of the client has the hash |
| Registry.WithExact | src/server/database/Database.cpp:93-104 | each client with the hash once, in order of registration, and no other |
| Registry.AddedEntry | src/server/database/Database.cpp:16-28 | every client keeps its place and only that of the address changes, by the torrent behind its others unless it has the hash; a new client comes last |
| Registry.UpdatedEntry | src/server/database/Database.cpp:4-14 | every client keeps its place and only the torrents of that of the address change; a new client comes last |
| Registry.DeletedExact | src/server/database/Database.cpp:30-43 | the clients that are not equal stay untouched in their order |
| Registry.UpdateRefines | src/server/database/Database.cpp:4-14 | sets the address's hashes only; torrents stay distinct if and only if those given are |
| Registry.AddRefines | src/server/database/ClientInfo.h:58-62 | adds one hash to one address only; torrents stay distinct by hash |
| Registry.DeleteRefines | src/server/database/ClientInfo.h:67-69 | removes the address if and only if it is registered with that address family |
| Registry.WithRefines | src/server/database/Database.cpp:93-104 | an address is returned if and only if it is related to the hash |
| Tracker.TrackerThread.Respond | src/server/TrackerThread.cpp:18-71 | each message changes the registry by its operation and gets its reply |
| Tracker.TrackerThread.HandleNew | src/server/TrackerThread.cpp:44-57 | the torrent is stored under an allocated hash, the client is registered under the default hash and told that one |
| Tracker.TrackerThread.HandleSeedNotification | src/server/TrackerThread.cpp:3-11 | the client is registered for the first torrent with the hash, if any |
| Tracker.TrackerThread.Seedlist | src/server/TrackerThread.cpp:25-43 | the clients with the hash, split by address family |
| Tracker.SeedlistExact | src/server/TrackerThread.cpp:30-40 | each client found is in exactly one of the two lists |
| Tracker.StepRefines | src/server/TrackerThread.cpp:18-60 | each operation is one operation on the relation and keeps hashes, names, addresses and torrents distinct |
| Tracker.RunRefines | src/server/database/Database.cpp:4-104 | every run refines the run of the relation |
| Tracker.QueriesFollowRelation | src/server/database/Database.cpp:93-104 | after every run a query returns exactly the related addresses, none twice |
| Tracker.HashesIdentify | src/server/database/Database.cpp:52-78 | after every run stored hashes and names are pairwise distinct and each hash is that of its name |
| TrackerRuns.StoredAsSent | src/server/database/Database.cpp:65-78 | after every run the stored torrents are those announced, one for each, in order, each with the size that was sent and a name that begins with the sent one |
| TrackerRuns.PutKeeps | src/server/database/Database.cpp:73-75 | an announcement leaves the stored torrents in their places and puts the new one last |
| TrackerRuns.ClientHasTorrent | src/server/TrackerThread.cpp:3-11 | who announces a torrent has it as it was sent, and who notifies as a seed has the stored one, unless it had that hash before |
| TrackerRuns.ClientsInOrder | src/server/database/Database.cpp:4-43 | after every run the clients stand in the order in which they were last newly registered |
| TrackerRuns.QueryInOrder | src/server/database/Database.cpp:93-104 | and a query returns them in that order |
| TrackerRuns.SeedlistInOrder | src/server/TrackerThread.cpp:30-40 | and so does the reply for each address family |
| Tracker.ReplyIdentifiesExactly | src/server/TrackerThread.cpp:45-57 | the stored hash identifies the new torrent; the replied hash does if and only if the default hash was free, else it names an older torrent |
| Tracker.AnnouncerFoundExactly | src/server/TrackerThread.cpp:48-50 | a query for the new torrent finds its announcer if and only if the default hash was free |
| Tracker.SplitRuns | src/server/TrackerThread.cpp:48-50 | taking the announcements of a run apart into their two critical sections gives the same registry, so these runs are among the interleaved ones |
| Tracker.JoinExactly | src/server/TrackerThread.cpp:49-50 | after any run, whatever came in between: joining makes the client found under the hash of the name, and under no other |
| Tracker.TwoOfOneName | src/server/TrackerThread.cpp:44-57 | a run of two announcements of one name: the second torrent is stored with a 1 behind its name, and its client is told the first torrent's hash and is not found under its own |

## Left out

- Sockets, timeouts and Protobuf encoding: a request yields the peer's reply or F_ERROR.
- The user interface, option parsing and the accept loops.
- Dishonest peers and arbitrary fragment ids: peers are trusted (doc/projekt-koncowy.tex:271);
  ids that come from lists are proved to be in range.
- Fair scheduling of threads that wait for a mutex or are woken: which steps leave a thread
  waiting for ever is proved, that a thread that can go on does so is not.
- FileManager.FileManager.StoreSegmentToFile: a call that has to wait for readers ends there
  with the result Waits, and a write that fails after the opening is not modelled there;
  waiting is modelled in `LockTables`, failing writes in `Swarm`.
- FileManager.FileManager.GetSegment: a call is not interrupted by other readers of the same
  stream there; how they interfere is modelled in `SharedStream`.
- Object lifetimes, iterator invalidation in readUnlock, exceptions and logging.
- Values of `Torrent` and `ClientInfo` are copied by the C++ vectors, so vectors hold values
  here and an update through a reference writes the element back; aliasing is not modelled.
- The list of a client's database holds torrents; that each is wrapped in a `File` is not
  modelled there. The peers of a file are modelled in `DownloadManager`.
- storeFile, handleUnavailables, getClients, hasTorrent of the tracker's database and the
  getters: stubs or trivial.
- The polling loop of manageWorkers: its rounds are modelled, its sleeping is not.
- Torrent.LoadFromFile: of torrent and list files that end too early nothing is promised, as
  the code then uses uninitialised lengths.
- SwarmSafety.NeverStuck: the swarm's steps do not take the locks of the file manager, so a
  store that must wait for readers is not modelled there; the swarm has all the interleavings
  the locks allow and more, so safety and the bounds on steps carry over, absence of waiting
  does not.
- SwarmOutcome.CanFinish: says that the workers can finish when no store waits for the file
  manager's locks; that the operating system schedules them is assumed.
- SwarmOutcome.RetryCompletes: likewise supposes that no store waits for the locks.
