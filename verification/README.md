# A distributed block device, verified

Each node of the system runs a RAM disk with an asynchronous backup. A kernel driver joins the local RAM disk and the
disks of other nodes into one linear volume. A user-space controller brings the cluster up, watches the peers'
heartbeats and completes the table of replicas. This project models the code that decides where bytes go, which copies
exist, and what a node believes about its peers, and proves what that code keeps.

`dafny verify dfyconfig.toml` checks everything.

| file | what it holds |
|---|---|
| `Bytes.dfy` | sectors, splices and slices of byte sequences |
| `LinearVolume.dfy` | the volume on values: admission, routing, splitting, and the flat array it refines, over whole runs |
| `VolumeHistory.dfy` | runs on the volume told by requests and replies: which complete, and what each read returns |
| `RamDisk.dfy` | the RAM disk: scatter/gather copies between a byte array and the pages of a request, in place |
| `VolumeDevice.dfy` | the volume as the driver keeps it: the walk over a list of RAM disks, proved against `LinearVolume` |
| `BackupMachine.dfy` | the backup as a step machine: any number of writers, one consumer, semaphore, condition bit, wait queue |
| `BackupProtocol.dfy` | what every step keeps: exclusion, wake-ups, order |
| `BackupCoherence.dfy` | where RAM disk and backup may differ in any reachable state, and which steps keep it that way |
| `BackupOutcome.dfy` | what a run leaves behind: drained machines, shutdowns, and the bytes that end stale |
| `BackupContents.dfy` | what both disks hold after a run, read off the run's events; what a writer has done when it leaves |
| `BackupLateCopy.dfy` | the order of the source, copy after hook, byte by byte: a schedule that is coherent, and runs that are not |
| `BackupLiveness.dfy` | work already begun ends, the backup catches up, and a shutdown ends |
| `BackupDevice.dfy` | the producer hook, the copy routine and the queue, in place |
| `BackupPieces.dfy` | the hook on the pieces the volume hands to a RAM disk: which of them the backup gets |
| `Checksum.dfy` | the Internet checksum against the one's-complement sum of RFC 1071, and the Echo message of RFC 792 |
| `Heartbeat.dfy` | the failure detector: flags, state file and notices over all runs |
| `HeartbeatOutcome.dfy` | what one pass does to a peer, in terms of clocks, pings and the peers before it |
| `ReplicaJoin.dfy` | the five nested loops that complete the replica table |
| `BringUp.dfy` | the two counters that gate loading the volume and reporting success |
| `BringUpReplies.dfy` | the same told by the commands: whose module loads, whose reply counts, when the load gate opens |

The main results, hardest first:

- Any run of reads and writes on the volume gets the replies of one flat array and leaves the same bytes
  (`RunRefinesFlat`, and `RunIsPlain` with no admission check on the flat side): a read returns byte for byte what the
  last completed write before it put there (`RunReadsLatest`). The driver's loop over real arrays and pages does exactly
  that, request by request and over runs (`DeviceMakeRequest`, `ServeRun`). What it submits to the
  children is a partition of the request (`CompletedInPieces`), and the walk is the fold of serving just those pieces
  (`VolumeServesRoute`).
- In every reachable state of the backup no wake-up is lost and nothing queued is lost, duplicated or reordered. A run
  stays coherent - a byte that differs is still going to be copied or was thrown away at exit - if and only if no writer
  changes a byte that no entry still to be served covers; with hook and copy as one step every run that links nothing to
  a cleared queue is such a run. In every reachable state each byte of the RAM disk is the one last written to its place,
  read off the run's events (`RamHoldsLastWritten`), and a drained backup that was kept coherent holds the same
  (`DrainedHoldsLastWritten`).
- In the order of the source, with the copy after the hook, a schedule that guarantees coherence, and from every state
  reached that way, before a shutdown, a finishing run that ends with equal disks (`CatchesUpInStep`). For each byte of
  a drained or shut-down machine, exactly when it ends stale.
- Heartbeat flags and state file agree after every pass; failure notices alternate with recoveries. A connected peer is
  reported down if and only if it missed its heartbeat and the gateway answered for it and for every peer before it that
  missed one (`ReportedIff`).
- Without stale replies the load gate opens if and only if the first command that makes each peer load its module also
  brings that peer's message (`LoadsIffAllAnswer`).
- The checksum is that of RFC 1071 with no overflow of the 32-bit accumulator, and is insensitive to word order and
  byte order.

## Where the code does not do what it is for

The model keeps the code as it is. Where that breaks a property, the exact condition is proved, and where the condition
does not show it already, a concrete input or run that fails.

- **The split length** (`jcm_controller/vrd_2018_04_18.c:60`). `bio_split` is given the absolute number of the boundary
  sector instead of the distance to it, and front and remainder are used the other way round. As written
  (`SplitRule.AsWritten`), a request is served exactly when it does not cross a child boundary, and a run answers like
  the flat array if and only if none of its admitted in-range requests does. The refinement theorems are about the
  evident intent (`SplitRule.AtBoundary`): the front up to the boundary goes to the current child and the rest
  continues. `VolumeDevice` models that rule.
- **The 32-bit total** (`jcm_controller/vrd_2018_04_18.c:25`). The bounds check is exact if and only if the children add
  up to less than 4 GiB; above that the volume's own last sector is refused. The check itself wraps at 64 bits, so an
  admitted request lies inside the volume if and only if its end does not wrap.
- **The copy after the hook** (`jcm_controller/DMBD_BACKUP/bestio/ramdisk.c:61-80`). The hook queues a write before its
  bytes reach the RAM disk, so the consumer can copy too early and the backup stays stale for good, at rest
  (`LateCopyLosesAWrite`) and after a clean shutdown (`CleanExitKeepsTheLoss`). In the order of the source
  (`CopyPoint.AfterHook`) a run stays coherent if and only if no writer changes a byte that no entry still to be served
  covers; it always does when the consumer never copies a byte of an entry before the entry's own writer has put it, in
  particular when it leaves an entry alone until that writer has returned. Once nothing is left to do for a byte,
  whether the machine has drained or shut down, it differs if and only if the last event that touched it was a write
  that came too late. The call of the hook (`ramdisk.c:61`) and of `backup_init` (`main.c:225`) are commented out; they
  are modelled as `vrd_set_hook_request` wires them.
- **Shutdown** (`jcm_controller/DMBD_BACKUP/bestio/main.c:229-255`). Nothing uninstalls the hook and nothing waits for
  writers. Each entry was stored or thrown away if and only if no writer linked one after the queue was cleared. With
  hook and copy as one step, or with every copy in time, the disks then differ at most where entries were thrown away.
  The thread does not serve what is queued before it exits, so a write linked in time can be thrown away
  (`ExitThrowsAway`). A write after the clear leaves a difference nothing accounts for (`LateWriteAfterExit`).
- **A bio that is not at its beginning** (`jcm_controller/DMBD_BACKUP/bestio/main.c:74-89`). The clone has a slot for
  each of the bio's segments but only those its iterator still visits are filled, from slot 0 on. Unless all are
  visited, the copy stops at a null slot and the write is dropped; a line in the log is all that tells
  (`AdvancedWriteIsDropped`). Of the pieces the volume cuts, the backup gets those that start in the first segment of
  the request and end in the last; of the two parts of a cut it gets both only if there is a single segment.
- **Heartbeat flags** are never initialised. Agreement of flags and file holds after every pass of every run if and only
  if no peer's flag happens to start as `DISCONNECT`.
- **The timeout** at `jcm_controller/DMBD_BACKUP/dmbd_hb.c:368-370` passes a double to `abs`, which truncates it: a peer
  times out at a gap of 11000 ticks, not just above 10000.
- **One socket for all peers** (`jcm_controller/DMBD_BACKUP/jcm_controller.c:41-67`). The second `connect` on it fails.
  With the socket as in the source (`Sockets.Shared`) genuine replies can load the volume in a cluster of two and in no
  larger one. The safety theorems hold for that and for one connection per peer.
- **Stale replies in `msg_send`** (`jcm_controller/DMBD_BACKUP/jcm_controller.c:71-90`). One buffer serves all peers, and
  a `read` that returns -1 puts its terminator in front of it, so an earlier "success", or whatever the stack held, is
  counted again. The replies counted by the first load are one genuine "success" of each peer if and only if no reached
  peer failed both reads while the buffer held "success"; `LoadOnOneReady` loads the volume with one of two peers ready,
  and `GarbageLoads` with none.
- **Stale replies in `nbd_msg_send`** (`jcm_controller/DMBD_BACKUP/jcm_controller.c:185-190`). A read that brings nothing
  leaves an earlier peer's reply in the buffer, which is then counted again. "success" always follows n-1 counted replies
  for n-1 different peers, but the replies were all sent if and only if no silent peer met such a buffer.

## Model

| member | source | states |
|---|---|---|
| `LinearVolume.WalkRefinesFlat` | jcm_controller/vrd_2018_04_18.c:50-76 | Routed, split at every child boundary and served child by child, an in-range request has exactly the effect it has on the concatenation of the children, for any number of children including empty ones; an empty request just past the end is the only one lost |
| `LinearVolume.RouteTiles` | jcm_controller/vrd_2018_04_18.c:50-76 | From any child on, the pieces of the route are non-empty, on ever later children, each inside its child, and adjacent: together they are exactly the sectors asked for |
| `LinearVolume.PiecesPartitionRequest` | jcm_controller/vrd_2018_04_18.c:45-76 | The route of every request the bounds check admits without 64-bit wrap is a partition of the request |
| `LinearVolume.WalkServesRoute` | jcm_controller/vrd_2018_04_18.c:50-76 | The walk over the children from any one on is the fold of serving the pieces of the route, each once and in order, for every non-empty request, in range or not |
| `LinearVolume.VolumeServesRoute` | jcm_controller/vrd_2018_04_18.c:50-76 | The same for the whole volume |
| `LinearVolume.AsWrittenServesIffNotCrossing` | jcm_controller/vrd_2018_04_18.c:58-67 | With the split length and the roles of the two halves as in line 60, a request is served if and only if it ends within the child that holds its first sector, and then as intended |
| `LinearVolume.AsWrittenRunIff` | jcm_controller/vrd_2018_04_18.c:39-86 | With line 60 as written, a run of non-empty requests gets the replies of the flat array and ends in its bytes if and only if every admitted in-range request stays within the child that holds its first sector |
| `LinearVolume.AsWrittenLosesARead` | jcm_controller/vrd_2018_04_18.c:58-67 | A two-sector read over two one-sector disks is in range and lost |
| `LinearVolume.WalkBeyondEnd` | jcm_controller/vrd_2018_04_18.c:50-55 | A request that starts beyond the last child reaches no child |
| `LinearVolume.AdmittedInRangeIff` | jcm_controller/vrd_2018_04_18.c:45-47 | An admitted request lies inside the real concatenation, wrapped total or not, if and only if its end does not wrap 64 bits |
| `LinearVolume.WrappedSectorIsAdmitted` | jcm_controller/vrd_2018_04_18.c:45-47 | Sector 2^55 passes the check of every volume whose total is at least one sector |
| `LinearVolume.LastSectorRefused` | jcm_controller/vrd_2018_04_18.c:45-47 | From 4 GiB on the volume's own last sector is refused |
| `LinearVolume.AdmissionExactIff` | jcm_controller/vrd_2018_04_18.c:45-47 | The check admits exactly the in-range requests if and only if the children add up to less than 2^32 bytes |
| `LinearVolume.PublishedCapacity` | jcm_controller/vrd_2018_04_18.c:128-144 | The published capacity is the sum of the children's capacities modulo 2^23 sectors, and equals that sum if and only if the children add up to less than 2^32 bytes |
| `LinearVolume.StepRefinesFlat` | jcm_controller/vrd_2018_04_18.c:39-86 | Any one non-empty request, admitted or not, gets the reply of the flat array and leaves the same bytes |
| `LinearVolume.RunRefinesFlat` | jcm_controller/vrd_2018_04_18.c:39-86 | Any run of non-empty requests gets the replies of one flat array and ends in the same bytes, with the children's sizes unchanged |
| `LinearVolume.RunIsPlain` | jcm_controller/vrd_2018_04_18.c:39-86 | Below 4 GiB, a run of in-range requests completes with the answers of an array that checks nothing, and ends in its bytes |
| `VolumeHistory.RunReadsLatest` | jcm_controller/vrd_2018_04_18.c:39-86 | In any run of non-empty requests, a request completes if and only if it ends within the children's total modulo 2^32 bytes; a completed read returns for each byte what the last completed write before it put there, or the initial byte; the children hold the same after the run |
| `VolumeHistory.FlatRunHolds` | jcm_controller/vrd_2018_04_18.c:45-84 | The same for a run on one array behind any total: which requests fail, which never complete, and what the others read and leave |
| `VolumeHistory.CompletesIff` | jcm_controller/vrd_2018_04_18.c:45-47 | The 64-bit check against the 32-bit total, and the end of the last child, amount to one comparison without wrap-around |
| `VolumeDevice.Volume.constructor` | jcm_controller/vrd_2018_04_18.c:113-131 | The loop's 32-bit accumulation ends in the exact byte sum of the children modulo 2^32 |
| `VolumeDevice.WrappedAddition` | jcm_controller/vrd_2018_04_18.c:129-131 | Adding a 64-bit product to the 32-bit total and storing it back keeps the exact sum modulo 2^32 |
| `VolumeDevice.Volume.DeviceMakeRequest` | jcm_controller/vrd_2018_04_18.c:39-86 | Children, status and reply end up as the volume's answer on values says, for every request of whole sectors whose sector and size fit their types; a completed read has delivered the bytes to its pages in order and changed no other byte of them, also when segments overlap; the record of pieces handed to children grows by exactly the route when the request completes, and by nothing otherwise; the volume stays valid |
| `VolumeDevice.Volume.ServeRun` | jcm_controller/vrd_2018_04_18.c:39-86 | Requests one after the other, each with pages of its own: the volume gives the replies of one flat array and ends in its bytes |
| `VolumeDevice.Volume.WalkChildren` | jcm_controller/vrd_2018_04_18.c:50-76 | The walk over the children completes the request, having submitted exactly its route, or runs out of children, having submitted nothing |
| `VolumeDevice.Volume.Visit` | jcm_controller/vrd_2018_04_18.c:50-76 | One turn of the loop, skipping, cutting or serving, keeps the loop invariant or completes the request, and records exactly the piece it hands out |
| `VolumeDevice.Volume.Submit` | jcm_controller/vrd_2018_04_18.c:69-73 | A piece in the child's own sectors is recorded once; a write replaces those bytes of that child and touches no other; a read delivers them to the pages |
| `VolumeDevice.Volume.Dispatch` | jcm_controller/vrd_2018_04_18.c:61-73 | The same in the course of a request: two deliveries to the pages, one behind the other, are one |
| `VolumeDevice.AnswersLikeFlat` | jcm_controller/vrd_2018_04_18.c:45-84 | In terms of the flat array: which requests fail, which complete, which bytes a write replaces and a read delivers, and that nothing else changes |
| `VolumeDevice.CompletedInPieces` | jcm_controller/vrd_2018_04_18.c:45-76 | A completed non-empty request was submitted as a partition of itself: non-empty pieces, in order, adjacent, each inside its child, together the sectors asked for |
| `VolumeDevice.InHandPast` | jcm_controller/vrd_2018_04_18.c:51-55 | Skipping a child that ends before the request keeps what is done plus what is ahead equal to the whole walk |
| `VolumeDevice.InHandAcross` | jcm_controller/vrd_2018_04_18.c:58-67 | So does cutting at the child's end: the front's effect on memory, the rebased sector, the remaining bio and the pieces so far stay in step with the walk |
| `VolumeDevice.InHandWithin` | jcm_controller/vrd_2018_04_18.c:68-74 | Handing the child the whole remainder completes the walk, and the pieces are the route |
| `VolumeDevice.EndWalk` | jcm_controller/vrd_2018_04_18.c:50-81 | A walk that runs out of children has changed nothing |
| `RamDisk.Disk.constructor` | jcm_controller/DMBD_BACKUP/bestio/main.c:224-224 | A disk of n MiB, a whole number of sectors |
| `RamDisk.Disk.MakeRequest` | jcm_controller/DMBD_BACKUP/bestio/ramdisk.c:47-87 | Answers as its 64-bit bounds check decides, and changes nothing unless it completes; a write puts the bytes of the bio's window, laid end to end, at its place; a read leaves in every page byte what was delivered to it last, the others as they were, also when segments overlap; when none do, the window holds that range of the disk |
| `RamDisk.CheckIsExact` | jcm_controller/DMBD_BACKUP/bestio/ramdisk.c:55-56 | Without 64-bit wrap-around a request completes when it lies on the disk and fails otherwise |
| `RamDisk.CheckWithWrap` | jcm_controller/DMBD_BACKUP/bestio/ramdisk.c:55-60 | With wrap-around: sectors count modulo 2^55, a request completes if and only if it then ends on the disk, and slips through if and only if its end lies past 2^64 by no more than the disk's size |
| `RamDisk.WrappedRequest` | jcm_controller/DMBD_BACKUP/bestio/ramdisk.c:55-60 | Sector 2^55 is served as sector 0, and a request that ends past 2^64 slips through the check |
| `RamDisk.Disk.CopyIn` | jcm_controller/DMBD_BACKUP/bestio/ramdisk.c:60-80 | The segment loop of a write is one splice of the window's bytes |
| `RamDisk.Disk.CopyOut` | jcm_controller/DMBD_BACKUP/bestio/ramdisk.c:60-80 | The segment loop of a read, on the pages and, without overlaps, as one splice of the stream of segments |
| `RamDisk.Disk.DeliverAll` | jcm_controller/DMBD_BACKUP/bestio/ramdisk.c:62-80 | The loop: the pages have received the window's bytes in order and nothing else |
| `RamDisk.Disk.CollectNext` | jcm_controller/DMBD_BACKUP/bestio/ramdisk.c:62-80 | One turn of the write loop extends the copied part by the next segment, clipped to the iterator |
| `RamDisk.Disk.DeliverNext` | jcm_controller/DMBD_BACKUP/bestio/ramdisk.c:68-79 | One turn of the read loop, one memcpy, extends what the pages have received by the next segment, clipped to the iterator |
| `RamDisk.Disk.CollectSegment` | jcm_controller/DMBD_BACKUP/bestio/ramdisk.c:71-73 | One memcpy to the disk carries the stream's next bytes |
| `RamDisk.StreamRun` | jcm_controller/DMBD_BACKUP/bestio/ramdisk.c:62-64 | The part of a segment from any byte on is contiguous both in its page and in the bytes laid end to end |
| `RamDisk.PageAfterRun` | jcm_controller/DMBD_BACKUP/bestio/ramdisk.c:68-70 | Delivering bytes to one segment is one splice of its page and leaves every other page alone |
| `RamDisk.DisjointNaming` | jcm_controller/DMBD_BACKUP/bestio/ramdisk.c:62-70 | With segments that do not overlap, each byte is the last delivered to its place, and the place of a byte outside the range receives nothing |
| `RamDisk.WriteThenRead` | jcm_controller/DMBD_BACKUP/bestio/ramdisk.c:55-87 | What is written under one segmentation is read back under any other; no byte outside the range moves |
| `BackupMachine.CloneIsContiguous` | jcm_controller/DMBD_BACKUP/bestio/main.c:72-89 | The segment addresses of a clone are prefix sums: read through its segments, it covers its range byte by byte |
| `BackupProtocol.StepKeepsMutex` | jcm_controller/DMBD_BACKUP/bestio/main.c:94-96 | Every step of every thread keeps: the semaphore is taken exactly while one thread, and only one, is inside |
| `BackupProtocol.StepKeepsWakeUp` | jcm_controller/DMBD_BACKUP/bestio/main.c:94-100 | Every step keeps: work queued while the consumer waits or sleeps means the bit is set or about to be; a sleeper with the bit set is or will be woken; nobody waits without a test of the list since the bit was last cleared |
| `BackupProtocol.PendingWorkCanMove` | jcm_controller/DMBD_BACKUP/bestio/main.c:163-187 | With an entry queued or in flight and the thread alive, some thread can take a step without a timeout and without a new write |
| `BackupProtocol.StepKeepsInOrder` | jcm_controller/DMBD_BACKUP/bestio/main.c:94-96 | Every step keeps: entries linked are those stored, in flight, discarded and queued, in this order |
| `BackupCoherence.EveryReachableState` | jcm_controller/DMBD_BACKUP/bestio/main.c:62-189 | Well-formedness, exclusion, wake-ups and order hold after any run of any number of writers, whichever side of the hook the copy is on |
| `BackupCoherence.NoLostWakeUp` | jcm_controller/DMBD_BACKUP/bestio/main.c:163-187 | In every reachable state with an entry queued, a waiting consumer finds the bit set or a writer that will set it, a sleeping one is or will be woken, and as long as it lives someone can move |
| `BackupCoherence.NothingLostOrReordered` | jcm_controller/DMBD_BACKUP/bestio/main.c:172-186 | In every reachable state, stored, in-flight, discarded and queued entries are the sequence of linked ones: none lost, duplicated or reordered |
| `BackupCoherence.StepKeepsWellFormed` | jcm_controller/DMBD_BACKUP/bestio/main.c:72-89 | Queued and taken clones always address exactly their own range of the RAM disk |
| `BackupCoherence.StepByte` | jcm_controller/DMBD_BACKUP/bestio/main.c:62-186 | What every step makes of every byte, either side of the hook: linking an entry that covers it to a queue still served makes it coherent, overwriting it does unless that is late, and no other step changes its standing |
| `BackupCoherence.StepKeepsCoherent` | jcm_controller/DMBD_BACKUP/bestio/main.c:62-186 | Every step other than a copy made after its hook or with a link to a cleared queue keeps every byte coherent |
| `BackupCoherence.StepCoherentIffGuarded` | jcm_controller/DMBD_BACKUP/bestio/ramdisk.c:61-80 | A step keeps the state coherent if and only if the RAM disk already holds each value it writes there or some entry still to be served, unfinished or discarded covers the byte |
| `BackupCoherence.CoherentIffGuarded` | jcm_controller/DMBD_BACKUP/bestio/ramdisk.c:61-80 | Either side of the hook, all states of a run are coherent if and only if all its writes are so guarded |
| `BackupOutcome.EveryReachableStateCoherent` | jcm_controller/DMBD_BACKUP/bestio/main.c:62-186 | With hook and copy as one step, in every state of every run that links nothing to a cleared queue, each byte is still to be copied, was thrown away, or is bound to settle to the RAM disk's value |
| `BackupCoherence.CoherentMeans` | jcm_controller/DMBD_BACKUP/bestio/main.c:119-148 | Coherence of a byte, spelled out: a difference is queued, taken but not copied, thrown away, or in flight with the RAM disk's value; a byte gone stale in flight is covered by another entry |
| `BackupOutcome.BackupIsFaithful` | jcm_controller/DMBD_BACKUP/bestio/main.c:156-255 | In every run with hook and copy as one step: drained, the backup equals the RAM disk; shut down, they differ only inside entries thrown away or linked too late, and without late links only inside entries thrown away |
| `BackupContents.RamHoldsLastWritten` | jcm_controller/DMBD_BACKUP/bestio/ramdisk.c:61-80 | In every reachable state each byte of the RAM disk is the payload byte of the last linked request that covers it, with the copy after the hook of the last put at its place, and the initial byte if there is none; the requests are those the writers brought |
| `BackupContents.DrainedHoldsLastWritten` | jcm_controller/DMBD_BACKUP/bestio/main.c:165-186 | Drained, with hook and copy as one step or with guarded writes, the backup too holds at every place the byte last written there |
| `BackupContents.ExitHoldsLastWritten` | jcm_controller/DMBD_BACKUP/bestio/main.c:229-255 | Shut down, so it does wherever no entry thrown away or linked too late covers the byte |
| `BackupContents.EnqueuedAreLinked` | jcm_controller/DMBD_BACKUP/bestio/main.c:72-96 | The entries ever linked are, one for one and in order, those of the requests whose writers linked, each addressing exactly its own request's range |
| `BackupContents.LeavesComplete` | jcm_controller/DMBD_BACKUP/bestio/main.c:62-103 | When a writer leaves it has linked its request once, released the semaphore once, set the bit once, woken the consumer if and only if the bit was clear, and put each byte once where the copy follows the hook |
| `BackupContents.ExitThrowsAway` | jcm_controller/DMBD_BACKUP/bestio/main.c:187-255 | A run in which a write linked before the shutdown is thrown away by it: nothing was stored and the disks differ |
| `BackupOutcome.ExitIsCleanIff` | jcm_controller/DMBD_BACKUP/bestio/main.c:229-255 | In every run that has shut down, whichever side of the hook the copy is on, each entry ever linked was stored or thrown away, in order, if and only if no writer linked one after the queue was cleared |
| `BackupOutcome.LateWriteAfterExit` | jcm_controller/DMBD_BACKUP/bestio/main.c:244-255 | A run that shuts down an empty queue and then lets one write through the hook: the disks differ and no entry was thrown away |
| `BackupOutcome.DrainedIsEqual` | jcm_controller/DMBD_BACKUP/bestio/main.c:165-186 | Nothing queued, in flight or thrown away: the disks are equal |
| `BackupOutcome.AfterExit` | jcm_controller/DMBD_BACKUP/bestio/main.c:229-255 | In a coherent state after the queue is cleared, the disks differ at most inside entries thrown away |
| `BackupOutcome.GuardedIsFaithful` | jcm_controller/DMBD_BACKUP/bestio/ramdisk.c:61-80 | Either side of the hook, a run with guarded writes that has drained leaves equal disks, and one that was shut down differs only inside entries thrown away |
| `BackupOutcome.SettledStaleIff` | jcm_controller/DMBD_BACKUP/bestio/ramdisk.c:61-80 | Either side of the hook, once nothing is left to do for a byte it differs if and only if the last event that touched it was a write for which no entry was left and whose value was not the one the backup was bound to hold |
| `BackupOutcome.DrainedStaleIff` | jcm_controller/DMBD_BACKUP/bestio/main.c:165-186 | The same at the end of every drained run, for every byte no discarded entry covers |
| `BackupOutcome.ExitStaleIff` | jcm_controller/DMBD_BACKUP/bestio/main.c:229-255 | The same after every shutdown, with late links or without, for every byte no discarded entry covers |
| `BackupLateCopy.InStepIsCoherent` | jcm_controller/DMBD_BACKUP/bestio/ramdisk.c:61-80 | If the consumer never copies a byte of an entry before the entry's own writer has put it, and nobody links to a cleared queue, the run is coherent throughout, whatever else overlaps |
| `BackupLateCopy.LateCopyLosesAWrite` | jcm_controller/DMBD_BACKUP/bestio/ramdisk.c:61-80 | A run from equal disks that comes to rest, all writers gone and nothing queued, with a stale backup |
| `BackupLateCopy.CleanExitKeepsTheLoss` | jcm_controller/DMBD_BACKUP/bestio/main.c:229-255 | That run followed by a clean shutdown: every entry was stored, none thrown away, and the disks differ |
| `BackupLiveness.StepLeavesLess` | jcm_controller/DMBD_BACKUP/bestio/main.c:94-187 | Every step of work already begun, of any thread, lowers one count of what is left to do |
| `BackupLiveness.FinishingRunsEnd` | jcm_controller/DMBD_BACKUP/bestio/main.c:94-187 | Without new writes, timeouts and a shutdown no run is longer than that count |
| `BackupLiveness.EndsDrained` | jcm_controller/DMBD_BACKUP/bestio/main.c:163-187 | Such a run can only end with queue and in-flight slot empty, unless the thread was told to stop |
| `BackupLiveness.CatchesUp` | jcm_controller/DMBD_BACKUP/bestio/main.c:62-189 | From every reachable state before a shutdown some run of such steps empties queue and in-flight slot; with hook and copy as one step it ends with the backup equal to the RAM disk |
| `BackupLiveness.CatchesUpInStep` | jcm_controller/DMBD_BACKUP/bestio/ramdisk.c:61-80 | In the order of the source, from every state reached in step before a shutdown, letting the writers finish and then the consumer is in step, ends, and leaves equal disks |
| `BackupLiveness.ShutdownEnds` | jcm_controller/DMBD_BACKUP/bestio/main.c:163-255 | From every reachable state in which the thread has been told to stop, thread and queue can be shut down without any new write, at the latest when the wait times out |
| `BackupDevice.Clone.constructor` | jcm_controller/DMBD_BACKUP/bestio/main.c:74-82 | A clone with as many empty slots as the bio has segments |
| `BackupDevice.Backup.constructor` | jcm_controller/DMBD_BACKUP/bestio/main.c:202-208 | An empty queue and a clear bit |
| `BackupDevice.Backup.BackupBio` | jcm_controller/DMBD_BACKUP/bestio/main.c:62-103 | A write appends one fresh clone, sets the bit, and wakes exactly if the bit was clear; the filled slots address the write's range, and the clone is the write's entry if and only if the iterator starts at the first segment and visits all; a read does nothing |
| `BackupDevice.Backup.QBio` | jcm_controller/DMBD_BACKUP/bestio/main.c:105-153 | The backup receives at the clone's place the bytes now found at its addresses; a null address stops it with code 1 and the backup as it was |
| `BackupDevice.Backup.CopyPages` | jcm_controller/DMBD_BACKUP/bestio/main.c:119-140 | Code 1 exactly if some address is null; otherwise every slot becomes a page and the pages hold the fetched bytes, in order |
| `BackupDevice.Backup.CopyPage` | jcm_controller/DMBD_BACKUP/bestio/main.c:120-139 | One slot's address is replaced by the bytes found there, the others stay |
| `BackupDevice.Backup.Submit` | jcm_controller/DMBD_BACKUP/bestio/main.c:146-148 | The payload is on the backup device when the completion arrives, and nothing else changed |
| `BackupDevice.Backup.ServeHead` | jcm_controller/DMBD_BACKUP/bestio/main.c:165-186 | The head leaves the queue; the backup's range becomes the RAM disk's present contents of the same range exactly when the hook filled every slot, and otherwise the write is dropped |
| `BackupPieces.VisitedCount` | jcm_controller/DMBD_BACKUP/bestio/main.c:83-89 | The hook fills one slot for each segment from that of the first byte to that of the last |
| `BackupPieces.BackupPiece` | jcm_controller/DMBD_BACKUP/bestio/main.c:62-103 | The clone of a piece is its entry, and so will reach the backup, if and only if the piece starts in the first segment and ends in the last |
| `BackupPieces.CutPieces` | jcm_controller/vrd_2018_04_18.c:58-67 | Of a request cut in two the front is such a piece if and only if the cut falls in the last segment, the rest if and only if it falls in the first, and both if and only if there is a single segment |
| `BackupPieces.AdvancedWriteIsDropped` | jcm_controller/DMBD_BACKUP/bestio/main.c:119-124 | A bio of two segments with one byte left to write: queued, served, and not on the backup |
| `BackupDevice.FetchedClone` | jcm_controller/DMBD_BACKUP/bestio/main.c:119-140 | Gathering a clone's segments yields the one contiguous range of the RAM disk its request names |
| `BackupDevice.LoadsFetchRange` | jcm_controller/DMBD_BACKUP/bestio/main.c:138-138 | The machine's byte-wise copying, run without interference, fetches that same range |
| `Checksum.InCksum` | jcm_controller/DMBD_BACKUP/dmbd_hb.c:45-74 | For up to 65536 bytes, even or odd, no operation on the signed 32-bit accumulator overflows, and the answer is the complement of the one's-complement sum (section 1 of RFC 1071) |
| `Checksum.SumBound` | jcm_controller/DMBD_BACKUP/dmbd_hb.c:57-65 | The word sum of up to 65536 bytes is below 2^31 |
| `Checksum.TwoFoldsSuffice` | jcm_controller/DMBD_BACKUP/dmbd_hb.c:69-71 | Two folds and truncation give the fully carried sum of any non-negative int |
| `Checksum.OnesSumIsCanon` | jcm_controller/DMBD_BACKUP/dmbd_hb.c:57-71 | The one's-complement sum is the ordinary sum modulo 65535, with 65535 for a non-zero multiple |
| `Checksum.CksumIsNegatedSum` | jcm_controller/DMBD_BACKUP/dmbd_hb.c:71-71 | The answer is congruent to minus the word sum modulo 65535 |
| `Checksum.ChecksumRoundTrip` | jcm_controller/DMBD_BACKUP/dmbd_hb.c:90-92 | Storing the checksum in a zeroed, word-aligned field makes the checksum of the whole packet 0 |
| `Checksum.OneWordErrorDetected` | jcm_controller/DMBD_BACKUP/dmbd_hb.c:45-74 | In a packet that checks out, replacing one word goes unnoticed if and only if it exchanges the two zeros 0 and 0xFFFF and some word stays non-zero |
| `Checksum.ChecksumIgnoresOrder` | jcm_controller/DMBD_BACKUP/dmbd_hb.c:57-71 | Packets made of the same words in any order have the same checksum (section 2 (A) of RFC 1071) |
| `Checksum.ChecksumOfSwapped` | jcm_controller/DMBD_BACKUP/dmbd_hb.c:57-71 | Swapping the bytes of every word, an odd byte padded, swaps the bytes of the checksum (section 2 (B) of RFC 1071) |
| `Checksum.FillEcho` | jcm_controller/DMBD_BACKUP/dmbd_hb.c:84-91 | The buffer holds an unsigned Echo message: type 8, code 0, checksum 0, identifier and sequence number modulo 65536 as big-endian numbers, zeros to byte 28, then the data |
| `Checksum.SendIcmp` | jcm_controller/DMBD_BACKUP/dmbd_hb.c:78-92 | The message sent is type 8, code 0, carries identifier and sequence number big-endian in bytes 4 to 7, zeros to byte 28 and then the data, and its checksum is 0 |
| `Heartbeat.TimedOutIff` | jcm_controller/DMBD_BACKUP/dmbd_hb.c:368-370 | With the quotient truncated by abs, a peer times out exactly at gaps of 11000 ticks or more, in either direction |
| `Heartbeat.SweepPerPeer` | jcm_controller/DMBD_BACKUP/dmbd_hb.c:360-418 | Up to the node whose gateway ping fails, each peer gets the flag and the entry its time stamp demands; later peers, the local node and the key set do not change |
| `Heartbeat.PassPerPeer` | jcm_controller/DMBD_BACKUP/dmbd_hb.c:342-418 | The same for a whole pass, with the sender's fresh time stamp |
| `Heartbeat.SweepLeavesOthers` | jcm_controller/DMBD_BACKUP/dmbd_hb.c:360-365 | The local node's entry, and any entry of no peer, is never touched |
| `Heartbeat.RunKeepsAgreement` | jcm_controller/DMBD_BACKUP/dmbd_hb.c:360-417 | Over every run, a peer's flag is DISCONNECT exactly when the file says "disconnect", the key set is constant and the local entry never changes |
| `Heartbeat.StrayFlagSurvives` | jcm_controller/DMBD_BACKUP/dmbd_hb.c:370-376 | If a peer's flag starts as DISCONNECT, a pass cut short by the gateway leaves flag and file at odds |
| `Heartbeat.AgreementIffNoStrayFlag` | jcm_controller/DMBD_BACKUP/dmbd_hb.c:360-417 | From hb_start, agreement holds after every pass of every run if and only if no peer's flag starts as DISCONNECT |
| `Heartbeat.NoticesAlternate` | jcm_controller/DMBD_BACKUP/dmbd_hb.c:378-414 | In every run from hb_start, between two equal notices about a peer lies one to the contrary, and the file always tells the latest notice, whatever the flags held |
| `Heartbeat.PassJustifies` | jcm_controller/DMBD_BACKUP/dmbd_hb.c:368-415 | Every HB_DOWN of a pass belongs to a peer with a gap of at least 11000 ticks and a gateway that answered, every recovery to one with a smaller gap, and none to a peer behind a failed ping |
| `HeartbeatOutcome.PassOutcome` | jcm_controller/DMBD_BACKUP/dmbd_hb.c:342-418 | One pass and one peer, in clocks and pings only: who gets the time stamp; a missed heartbeat, with the gateway answering for this peer and every earlier one that missed, gives DISCONNECT, "disconnect" and one HB_DOWN if the entry said "connect"; a peer in time with a DISCONNECT flag is restored; all others keep flag and entry and nothing is sent about them |
| `HeartbeatOutcome.ReportedIff` | jcm_controller/DMBD_BACKUP/dmbd_hb.c:368-399 | A connected peer gets exactly one HB_DOWN from a pass if and only if the gap is at least 11000 ticks, its gateway ping returns 0 or more, and so does that of every earlier peer with such a gap |
| `Heartbeat.Detector.HbStart` | jcm_controller/DMBD_BACKUP/dmbd_hb.c:479-503 | The file lists exactly the configured nodes, all "connect"; with no nodes it stays as it was; the flags are not touched |
| `Heartbeat.Detector.HbReceive` | jcm_controller/DMBD_BACKUP/dmbd_hb.c:324-422 | The two loops over the node array end in the state the pass on values gives |
| `Heartbeat.Detector.StampSender` | jcm_controller/DMBD_BACKUP/dmbd_hb.c:342-357 | The sender's entry, unless it is the local one, gets the clock as its time stamp; every other time stamp, and every address and flag, stays |
| `Heartbeat.Detector.JudgePeer` | jcm_controller/DMBD_BACKUP/dmbd_hb.c:378-416 | One peer's flag, file entry and notice, timed out or recovered |
| `ReplicaJoin.JoinTakesLastMatch` | jcm_controller/DMBD_BACKUP/json_file.c:167-238 | A cell ends up with export and port of the last entry, in configuration order, of another node with this row's node_ip, this cell's address and a device name in which "nbd" stands nowhere; without one it keeps its old values |
| `ReplicaJoin.LastIsUnique` | jcm_controller/DMBD_BACKUP/json_file.c:167-238 | That last entry is unique, so the reference determines the cell |
| `ReplicaJoin.IsNbdIff` | jcm_controller/DMBD_BACKUP/json_file.c:214-214 | The device test finds "nbd" if and only if it stands somewhere in the name |
| `ReplicaJoin.JoinIsIdempotent` | jcm_controller/DMBD_BACKUP/json_file.c:212-224 | A second run changes nothing; addresses and device names are never touched |
| `ReplicaJoin.ReadNBDReplication` | jcm_controller/DMBD_BACKUP/json_file.c:158-239 | The five loops over the table in place leave in each cell what the join gives for it |
| `ReplicaJoin.JoinRows` | jcm_controller/DMBD_BACKUP/json_file.c:177-234 | One other node's sets meet every row |
| `ReplicaJoin.JoinRow` | jcm_controller/DMBD_BACKUP/json_file.c:182-233 | One row meets the sets in order, the other rows stay |
| `ReplicaJoin.JoinSet` | jcm_controller/DMBD_BACKUP/json_file.c:193-230 | Every cell of the row meets one set's entries |
| `ReplicaJoin.JoinCell` | jcm_controller/DMBD_BACKUP/json_file.c:199-228 | One cell meets the entries in order, the other cells stay |
| `BringUp.BringUpIsSafe` | jcm_controller/DMBD_BACKUP/jcm_controller.c:565-640 | In every run without stale replies the volume is loaded at most once, when each peer has loaded its module and its own "success" has been counted exactly once |
| `BringUp.FirstLoadIsSafeIff` | jcm_controller/DMBD_BACKUP/jcm_controller.c:565-591 | Whenever a run first tries to load the volume, the replies counted are one genuine "success" of each peer if and only if no reached peer so far failed both reads while the buffer held "success" |
| `BringUp.RepliesSentIff` | jcm_controller/DMBD_BACKUP/jcm_controller.c:71-90 | In every run each "success" msg_send counted was the peer's own if and only if no reached peer ever failed both reads while the buffer held an earlier one |
| `BringUp.LoadOnOneReady` | jcm_controller/DMBD_BACKUP/jcm_controller.c:71-90 | Three nodes, one "success", one broken connection, and the volume is loaded |
| `BringUp.SuccessIsSafe` | jcm_controller/DMBD_BACKUP/jcm_controller.c:625-640 | In every run "success" reaches the client at most once, after a load that worked and one counted NBD reply for each peer |
| `BringUp.SuccessIsGenuineIff` | jcm_controller/DMBD_BACKUP/jcm_controller.c:611-640 | In every run that has written "success", the NBD replies behind it were all sent if and only if no silent peer met a buffer that held an earlier one |
| `BringUp.SendKeepsCredible` | jcm_controller/DMBD_BACKUP/jcm_controller.c:51-100 | A send credits peers only; genuine credits are for different peers, each with its module loaded; the counter grows by the replies credited and nothing else changes |
| `BringUpReplies.SendCountsIff` | jcm_controller/DMBD_BACKUP/jcm_controller.c:51-90 | One msg_send counts a peer's own "success" if and only if the peer is reached, the text after its first read is CONTROL_SET_ON, its insmod works, it had not loaded before and the second read brings the message; it counts an unsent one if and only if both reads fail on a buffer that holds "success"; each peer once at most |
| `BringUpReplies.SendLoadsIff` | jcm_controller/DMBD_BACKUP/jcm_controller.c:406-410 | A peer's module is newly loaded if and only if the peer is reached, the text after its first read is CONTROL_SET_ON and its insmod works |
| `BringUpReplies.RunLoadsIff` | jcm_controller/DMBD_BACKUP/jcm_controller.c:406-440 | In every run a peer's module is loaded if and only if some command did that |
| `BringUpReplies.RunCountsIff` | jcm_controller/DMBD_BACKUP/jcm_controller.c:51-90 | In every run a peer's own "success" is counted if and only if the first command that made it load its module also brought the message |
| `BringUpReplies.LoadStandsOnInsmods` | jcm_controller/DMBD_BACKUP/jcm_controller.c:565-591 | In every run, stale replies or not, behind each genuine reply that any attempt to load the volume counted there is a command by which that peer's insmod worked |
| `BringUpReplies.LoadsIffAllAnswer` | jcm_controller/DMBD_BACKUP/jcm_controller.c:565-591 | In every run without stale replies the load gate opens if and only if each peer's insmod worked and its message came with it |
| `BringUpReplies.SuccessIffAllReply` | jcm_controller/DMBD_BACKUP/jcm_controller.c:611-640 | The command that loads the volume writes "success" if and only if nbd_msg_send reaches every peer and finds NBD_CLIENT_LOAD in its buffer there |
| `BringUp.HandleKeepsPhase` | jcm_controller/DMBD_BACKUP/jcm_controller.c:565-640 | Every command without stale replies keeps: before the load the counter is the number of peers counted; afterwards the load gate cannot open again |
| `BringUp.HandleKeepsSound` | jcm_controller/DMBD_BACKUP/jcm_controller.c:565-640 | Every command keeps: no NBD reply is counted before a load that worked, at most one for each peer after it, and "success" is written when every peer's is |
| `BringUp.NbdSendKeepsOrder` | jcm_controller/DMBD_BACKUP/jcm_controller.c:166-196 | NBD replies are counted for ever later peers, one each at most, and nothing else changes |
| `BringUp.NbdCountedIff` | jcm_controller/DMBD_BACKUP/jcm_controller.c:166-190 | A reply is counted for a peer if and only if it is reached and the buffer then holds NBD_CLIENT_LOAD, fresh or left over |
| `BringUp.RepliesGenuineIff` | jcm_controller/DMBD_BACKUP/jcm_controller.c:185-190 | All replies one nbd_msg_send counts were sent if and only if no reached peer stays silent while the buffer still holds NBD_CLIENT_LOAD |
| `BringUp.SuccessOnOneReply` | jcm_controller/DMBD_BACKUP/jcm_controller.c:185-190 | Three nodes, one NBD reply, and "success" is written |
| `BringUp.SharedSocketLoadsIffTwoNodes` | jcm_controller/DMBD_BACKUP/jcm_controller.c:41-67 | With the one socket of the source, some run without stale replies loads the volume if and only if the cluster has two nodes |
| `BringUp.GarbageLoads` | jcm_controller/DMBD_BACKUP/jcm_controller.c:39-90 | With the one socket and a buffer that happens to hold "success", a run in which nobody answers loads the volume in a cluster of any size |
| `BringUp.Controller.constructor` | jcm_controller/DMBD_BACKUP/jcm_controller.c:30-33 | All counters zero, no flag set |
| `BringUp.Controller.MsgSend` | jcm_controller/DMBD_BACKUP/jcm_controller.c:37-104 | The loop over the peers reads, counts and stops as the send on values does, buffer included |
| `BringUp.Controller.NbdMsgSend` | jcm_controller/DMBD_BACKUP/jcm_controller.c:151-200 | So does the second one |
| `BringUp.Controller.HandleCommand` | jcm_controller/DMBD_BACKUP/jcm_controller.c:565-640 | One command changes the globals as the step on values does, and sets the success flag exactly when "success" is written |

## Left out

- `jcm_controller/vrd_2018_04_18.c`: device registration, `gendisk` and queue set-up. The two children of `device_init`
  are generalised to any list.
- Concurrent requests on the volume: the cursor `lh` is a global, so requests are taken one at a time.
- VolumeDevice.Volume.DeviceMakeRequest: models the split rule the code evidently intends, because with the call as
  written no request that crosses a boundary is served, which `AsWrittenServesIffNotCrossing` states.
- VolumeDevice.Volume.Submit: children are RAM disks only; an NBD device is taken to serve a request the same way.
- VolumeDevice.Volume.ServeRun: requests that share no page, so that a reply cannot change what a later write carries.
- RamDisk.Disk.MakeRequest: what a request that ends past 2^64 (`Astray`) does to memory outside the disk, and a transfer
  direction other than read or write. An empty segment is passed over.
- RamDisk.WriteThenRead: the read's segments do not overlap; with overlaps `MakeRequest` says what each page byte holds.
- BackupPieces.BackupPiece: no segment is empty, and a piece has as many segments as the bio it was cut from.
- Page allocation, `kmap` and `kmalloc` failures: allocation succeeds. The branch at `bestio/main.c:121-124` is kept.
- BackupDevice.Backup.BackupBio: a slot the hook does not fill is taken to be null, which the allocator does not promise;
  page offsets of a clone are not modelled, since source and target of the copy use the same one.
- BackupDevice.Backup.ServeHead: one turn of the thread's loop without interruption; interleavings are those of
  `BackupMachine`, whose writes are those the hook clones whole.
- The list head is freed with the queue: an entry linked afterwards is modelled as going to a list nobody reads.
  `backup_clear_queue` runs without the semaphore; clearing is one step.
- Signals to the backup thread: an interrupted wait is the same step as a timeout.
- A fixed, little-endian byte order for `in_cksum` (by `ChecksumOfSwapped` the other one gives the same stored bytes).
- `recv_icmp`, `nu_pinger` and sockets: a ping is a number given to the pass. The clock does not wrap.
- Heartbeat.Detector.HbReceive: a state file that cannot be read or lacks a peer's entry is not followed into the JSON
  library; the model then sends no notice.
- `teng_ip`, which is never filled in: a notice names the peer.
- ReplicaJoin.ReadNBDReplication: strings of any length instead of `memcpy` of 32 and 16 bytes; JSON already parsed;
  every replica has the same number of cells. `ReadDMBDReplication` and `ReadDMBDRemote` would add easy members only.
- BringUp.Controller.MsgSend: how messages are framed on the socket and the byte in front of the buffer that a failed
  `read` overwrites are not modelled.
- Bring-up: `insmod`, `nbd-client` and `mount` are outcomes; modules are never unloaded; one coordinator. A peer that
  has its module loaded does not answer. The "unsuccess" reply is never sent by this code (the branch at
  `jcm_controller.c:440-447` is dead) and is not modelled, nor which client socket "success" is written to.
- The dead branch at `dmbd_hb.c:348-352`, and the command-line client.
