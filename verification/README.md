# Verified models of three kernel-course systems

This project models, in Dafny, the hard parts of the repository's three larger
programs and proves what they do for every input and every run.

1. **The file system tools** (`Myfsck/`): the checker `myfsck`, the image builder
   `mkfs` and the lister `lsfs`, which share one on-disk format.
   - `FsImage` gives the image as the checker and the lister read it, and an
     order-free predicate `Consistent`. `Report` lists the faults the checker looks for
     and the order in which it does. `Fsck` is the checker as it runs, with its tables as
     arrays and every error exit as a verdict; it passes an image exactly when
     `Consistent` holds, and otherwise reports the first fault in that order.
   - `Tree`, `Conservation`, `Preorder` and `Lister` prove what acceptance means: a rooted
     tree, exact block accounting, and a recursive listing that terminates, is complete
     and comes in depth-first order.
   - `Bytes`, `Volume`, `Nodes`, `HostTree` and `Mkfs` model the builder down to the
     bytes of each sector. `Acceptance` and `EndToEnd` run it against the checker.
2. **The rate-monotonic scheduler** (`RMS_Linux_Schedular/`): `Scheduler` is the state
   machine, `RateMonotonic` what is true of all its runs, `Isolation` what each
   operation leaves alone, `Mp2` the module's operations as they update the list and the
   current task in place.
3. **The page-fault profiler** (`Virtual_Memory_Page_Fault_Profiler/`): `Ring` is the
   sample buffer under every interleaving of writer and reader, `FaultCounts` the
   counters that feed it, `Profiler` the word-level writer and reader, `Delivery` the
   counters followed through the buffer to what the monitor prints.

`Options`, `Arith` and `Cards` hold shared helpers. `dafny verify dfyconfig.toml` verifies
everything.

## Results worth knowing

- `mkfs` rounds a directory's size to the next multiple of 512 even when it already
  is one. An image it builds is therefore accepted exactly when no directory has a
  multiple of 32 entries, "." and ".." included; the only complaint `myfsck` can have
  about a built image is about a size (`EndToEnd.MakeAndCheck`). This holds for every
  tree that `mkfs` manages to copy, however many hard links it has. A root with 30 empty
  files is copied and then refused (`EndToEnd.ThirtyFilesRefused`).
- `mkfs` succeeds on every tree that fits with each name copied, and on none that would
  not fit with each file stored once; without hard links the two are the same and success
  is decided exactly (`EndToEnd.MakeImage`). `Consistent` is therefore not empty.
- `lsfs` reads inode 1 even when the superblock counts fewer than two inodes. Its listing
  of an accepted image is right exactly when that inode is counted or no directory
  (`Lister.Lsfs`). An image of five blocks passes `myfsck` and is listed wrongly
  (`Lister.StrayAccepted`).
- That the root is a directory is nowhere checked by `myfsck`. It follows from the
  parent and chain tests (`Tree.PathFromChain`).
- The admission bound of the scheduler fails for negative computation times: they
  become huge unsigned numbers, and `comp_time*1000` wraps. An admitted registration
  keeps the bound exactly when its computation time is not negative, and a run keeps it
  throughout exactly when it admits no negative time (`RateMonotonic.AdmissionKeepsBound`,
  `RateMonotonic.BoundIffNonNegative`, `RateMonotonic.NegativeTimesSlipThrough`).
- A monitor run over a buffer whose two occupied pieces touch prints the newer
  samples before the older ones; otherwise it prints in order (`Ring.PrintedInOrder`).
  12001 samples without a monitor run lead there (`Ring.LapPrintsOutOfOrder`).
- A sample is lost exactly when 12000 newer ones were followed by one more before it was
  printed (`Ring.LostUnlessPrinted`).
- The comment at `Virtual_Memory_Page_Fault_Profiler/mp3.c:95-96` says that the first
  registration resets the buffer. The code does not, and the model follows the code.

## Assumptions

- Checker: the image holds as many blocks as its superblock says; inode numbers in
  directory blocks are below the number of inodes; there are at most 65536 inodes and
  2^23 blocks (`FsImage.Checkable`). The 32-bit wrap of the data region's end is modelled.
- Builder: the volume of `main` (995 data blocks, 200 inodes, 1024 blocks in all).
  Running out of blocks, running out of inodes and files past 140 blocks are modelled as
  failures. Host names hold no NUL byte. The hard-link table may miss a host inode it has
  seen, nondeterministically; a lookup that finds one needs no free inode.
- Scheduler: each critical section and each timer callback is one atomic step; so is a
  yield with the call that blocks it, and a dispatch with the policy changes after it.
  A jiffy is one millisecond. Only the module changes the policy of registered processes.
- Profiler: a monitor run does not overlap a sampling step, and a sample's jiffies word
  is never -1.

## Model

| member | source | states |
|---|---|---|
| Layout.RegionsAdjoin | Myfsck/fs.h:35-47 | inode blocks, bitmap blocks and data blocks follow one another without gap or overlap, for every image size |
| Fsck.CheckImage | Myfsck/myfsck.c:333-372 | the checker passes exactly the consistent images; otherwise it reports the first fault in the order of its tests |
| Fsck.Helper | Myfsck/myfsck.c:198-331 | the three passes together: passing means consistent, failing reports the first fault |
| Report.FaultFree | Myfsck/myfsck.c:198-331 | an image is consistent exactly when no test finds a fault |
| Report.FirstFaultUnique | Myfsck/myfsck.c:198-331 | the first fault, and so the message, is determined by the image |
| Report.ReferenceErrors | Myfsck/myfsck.c:265-328 | a reference error concerns the least bad inode, only after clean passes before; which one depends on its links, then its parent, then its chain |
| Report.BitmapErrors | Myfsck/myfsck.c:255-263 | a bitmap error concerns the least bad block, only after a clean first pass |
| Report.FirstPassErrors | Myfsck/myfsck.c:216-253 | a first-pass error concerns the least bad inode and its first bad slot; range before sharing before bitmap bit, then format, then size |
| Fsck.CheckSize | Myfsck/myfsck.c:21-31 | passes exactly when the superblock's sizes add up in 32-bit arithmetic; yields the data region |
| Fsck.ScanEntry | Myfsck/myfsck.c:63-91 | one directory entry's effect on the four tables; fails exactly on a "." that names another inode |
| Fsck.TraverseDirent | Myfsck/myfsck.c:57-93 | a directory block adds its 32 entries to the reference counts, parent tables and "."/".." counters |
| Fsck.CheckDirectAddress | Myfsck/myfsck.c:98-134 | direct slots are in range, unshared and marked; visited blocks and block count are exact |
| Fsck.CheckIndirectAddress | Myfsck/myfsck.c:137-196 | the same for the indirect block and its 128 words |
| Fsck.CheckInode | Myfsck/myfsck.c:222-252 | an in-use inode passes only with a right size and, for a directory, one self-naming "." and one ".." |
| Fsck.FirstPass | Myfsck/myfsck.c:216-253 | after it, tables and visited blocks describe all in-use inodes, each of which passed |
| Fsck.BitmapPass | Myfsck/myfsck.c:255-263 | passes exactly when every marked data block is held by some slot |
| Fsck.CheckReference | Myfsck/myfsck.c:266-328 | passes exactly when the inode's reference count, parent and chain rules hold |
| Fsck.ReferencePass | Myfsck/myfsck.c:265-328 | passes exactly when those rules hold for every inode |
| Fsck.WalkToRoot | Myfsck/myfsck.c:308-326 | the ".." walk ends within one step per inode and succeeds exactly when some iterate is the root |
| Fsck.ChainLoops | Myfsck/myfsck.c:314-318 | once the chain repeats, every later iterate is one already seen |
| Fsck.ParentDecided | Myfsck/myfsck.c:300-307 | with one link, comparing ".." to the last observed parent decides the parent rule |
| Fsck.TableIsParentTable | Myfsck/myfsck.c:77-82 | with one ".." per directory the recorded table is the image's parent table |
| Report.ViolationRefutes | Myfsck/log.h:7-90 | every error message means the image is inconsistent, and all but the size error break a non-size rule |
| Tree.PathFromChain | Myfsck/myfsck.c:290-327 | a chain to the root gives a path of entries down from it, and the root is a directory |
| Tree.InUsePath | Myfsck/myfsck.c:269-273 | every in-use inode of an accepted image hangs below the root |
| Tree.RootUnnamed | Myfsck/myfsck.c:74-88 | no ordinary entry of an accepted image names the root |
| Tree.UniquePath | Myfsck/myfsck.c:284-288 | a directory of an accepted image has exactly one path |
| Tree.ConsistentIsRootedTree | Myfsck/myfsck.c:266-328 | acceptance means: nothing in use, or a tree rooted in inode 1 |
| Conservation.BlocksConserved | Myfsck/myfsck.c:227-263 | marked data blocks equal the rounded-up sizes plus indirect blocks of the in-use inodes |
| Lister.Lsfs | Myfsck/lsfs.c:99-135 | on an accepted image the listing ends, shows each directory once, each file nlink times, and nothing else, in depth-first order, exactly when no uncounted root is listed |
| Lister.EntriesInOrder | Myfsck/lsfs.c:38-61 | lines reached through an earlier entry of a directory come before lines reached through a later one |
| Lister.HeaderFirst | Myfsck/lsfs.c:36-54 | a directory's header comes before every line below it |
| Lister.OneListing | Myfsck/lsfs.c:30-97 | the order leaves one listing only, line by line |
| Preorder.OneOrder | Myfsck/lsfs.c:30-97 | paths can be listed in depth-first order in one way only |
| Lister.StrayAccepted | Myfsck/lsfs.c:131 | an image with one counted inode passes the checker, yet its inode 1 reads as a directory |
| Lister.LsDir | Myfsck/lsfs.c:30-54 | a directory's listing has its header, then one line for every entry at or below it, in depth-first order |
| Lister.WalkDirblock | Myfsck/lsfs.c:56-97 | a block's listing has one line for every entry reached through it, in the order of its entries |
| Lister.WalkEntry | Myfsck/lsfs.c:61-96 | free, "." and ".." entries give nothing; a directory gives its subtree |
| Lister.BelowShrinks | Myfsck/lsfs.c:83-86 | the measure of the unguarded recursion: fewer entries lie below a child than below its parent |
| Bytes.WriteReadInode | Myfsck/mkfs.c:308-329 | a written inode reads back; the other inodes of its block are untouched |
| Bytes.InodeInverse | Myfsck/fs.h:26-33 | decoding undoes encoding of an inode |
| Bytes.DirentInverse | Myfsck/fs.h:50-53 | decoding undoes encoding of a directory entry |
| Bytes.PadNameReads | Myfsck/mkfs.c:242-244 | a copied name reads back as itself, cut at 14 bytes |
| Volume.ClaimOwn | Myfsck/mkfs.c:386-403 | giving the next free block to an empty slot keeps slots and blocks one to one |
| Volume.GrowDirect | Myfsck/mkfs.c:385-390 | a new direct block keeps ownership, contents and the zero blocks beyond |
| Volume.GrowWord | Myfsck/mkfs.c:397-404 | so does a new word in an existing indirect block |
| Volume.GrowIndirect | Myfsck/mkfs.c:392-404 | so does the switch from direct to indirect blocks |
| Volume.WriteChunk | Myfsck/mkfs.c:406-409 | patching the last block appends the chunk to that inode and changes no other |
| Mkfs.Builder.constructor | Myfsck/mkfs.c:111-136 | a fresh volume: nothing allocated, all data blocks zero and free |
| Mkfs.Builder.Rinode | Myfsck/mkfs.c:320-329 | reads the inode's entry of the table |
| Mkfs.Builder.Winode | Myfsck/mkfs.c:308-318 | replaces one inode and touches only inode blocks |
| Mkfs.Builder.Ialloc | Myfsck/mkfs.c:342-353 | one new empty inode, numbered next; the allocation invariant holds; fails exactly when all 199 are taken |
| Mkfs.Builder.Bmap | Myfsck/mkfs.c:383-405 | finds or claims the block for the next byte; fails exactly when the disk is full |
| Mkfs.Builder.BmapIndirect | Myfsck/mkfs.c:391-405 | the indirect case of the same |
| Mkfs.Builder.AppendBlocks | Myfsck/mkfs.c:381-413 | the copying loop: contents grow by the bytes given, block by block |
| Mkfs.Builder.Iappend | Myfsck/mkfs.c:371-416 | contents become old contents plus new bytes, other inodes keep contents and addresses, block use exact; fails exactly when it does not fit |
| Mkfs.Builder.FetchHardLink | Myfsck/mkfs.c:53-83 | a fresh file inode, or the one made earlier for the same host inode; fails only without a free inode |
| Mkfs.Builder.CopyFile | Myfsck/mkfs.c:235-238 | copying in reads of one block gives the file's bytes |
| Mkfs.Builder.AddFile | Myfsck/mkfs.c:215-239 | the file inode holds the host file's bytes and its links stay right whichever way the lookup answers |
| Mkfs.Builder.BeginDir | Myfsck/mkfs.c:150-165 | "." and ".." are written and the parent gains a link |
| Mkfs.Builder.AddChild | Myfsck/mkfs.c:206-240 | the inode of a host entry, directory or file, holds its contents and is owed one entry |
| Mkfs.Builder.AddItem | Myfsck/mkfs.c:189-245 | one host entry: its inode is filled, then named by one new entry; nothing else changes |
| Mkfs.Builder.AddDir | Myfsck/mkfs.c:138-254 | succeeds when the subtree fits; the directory then holds exactly the host directory, with two links and one per subdirectory |
| Mkfs.Builder.RoundSize | Myfsck/mkfs.c:247-252 | only the size changes, to the next multiple of 512 |
| Mkfs.Builder.Balloc | Myfsck/mkfs.c:355-367 | afterwards a block's bit is set exactly below the given count; only the bitmap block changes |
| Mkfs.NamingsBound | Myfsck/mkfs.c:221-225 | link counts cannot overflow a short: an inode has at most 995 * 32 names |
| Nodes.EntryStep | Myfsck/mkfs.c:242-244 | writing an owed entry keeps the tree invariant and settles the link |
| HostTree.ProgressNext | Myfsck/mkfs.c:182-245 | add_dir's loop invariant: names, order, contents, link counts, blocks and inodes used at most and at least |
| HostTree.SharingCosts | Myfsck/mkfs.c:217-234 | storing each file once costs no more inodes and blocks than once per name, and as much when no file has two names |
| HostTree.HostsHeld | Myfsck/mkfs.c:215-239 | inodes that hold a tree include one for each of its host files |
| HostTree.SizesHeld | Myfsck/mkfs.c:383-384 | a tree that was copied has no file or directory past 140 blocks |
| Acceptance.LinksAccepted | Myfsck/myfsck.c:269-288 | link counts of a built image always satisfy the checker |
| Acceptance.ChainAccepted | Myfsck/myfsck.c:308-326 | every ".." chain of a built image reaches the root |
| Acceptance.SizeDecided | Myfsck/myfsck.c:235-250 | the size test passes for every built file, and for a directory exactly when its last block is not full |
| Acceptance.AcceptedUnlessFull | Myfsck/myfsck.c:198-331 | a built image satisfies all other rules, and is consistent exactly when no directory's last block is full |
| EndToEnd.MakeImage | Myfsck/mkfs.c:256-293 | succeeds on every tree that fits, fails on every tree that cannot; on success the disk reads back as the tree, sizes included, and is consistent exactly without full directory blocks |
| EndToEnd.FitsEither | Myfsck/mkfs.c:217-234 | fitting with every name copied and fitting with every file stored once agree on trees without hard links |
| EndToEnd.CopiedFits | Myfsck/mkfs.c:138-254 | a tree that was copied fits with each file stored once |
| EndToEnd.MakeAndCheck | Myfsck/myfsck.c:333-372 | mkfs then myfsck, on any tree copied: passes exactly without full directory blocks, else reports a size error |
| EndToEnd.ThirtyFilesFit | Myfsck/mkfs.c:247-252 | 30 empty files fit the volume and fill the root's block |
| EndToEnd.ThirtyFilesRefused | Myfsck/myfsck.c:243-250 | mkfs copies them and myfsck reports a size error |
| EndToEnd.EmptyTreeBytes | Myfsck/mkfs.c:150-165 | the bytes of the root inode and of its block for an empty source directory |
| EndToEnd.BytesRead | Myfsck/mkfs.c:382-413 | reading an inode through its slots gives what was appended to it |
| EndToEnd.TreeOnDisk | Myfsck/mkfs.c:138-254 | the raw disk holds "." and "..", then every kept host entry in place, under its name, with its contents; each directory has its link count and a size taken up to the next multiple of 512 |
| Scheduler.StepInv | RMS_Linux_Schedular/mp2.c:75-253 | every operation keeps the scheduler invariant |
| Scheduler.Exec | RMS_Linux_Schedular/mp2.c:75-253 | the invariant holds after every run from module load |
| Scheduler.DispatchInv | RMS_Linux_Schedular/mp2.c:75-123 | dispatching keeps it: one running task, current and alone real-time and awake |
| Scheduler.DemoteInv | RMS_Linux_Schedular/mp2.c:111-118 | taking the running task off the processor keeps it |
| Scheduler.PromoteInv | RMS_Linux_Schedular/mp2.c:94-103 | starting a READY task when none runs keeps it |
| Scheduler.YieldInv | RMS_Linux_Schedular/mp2.c:228-253 | so does a yield from any state |
| Scheduler.DeregisterInv | RMS_Linux_Schedular/mp2.c:203-224 | so does removing a task |
| Scheduler.TimerInv | RMS_Linux_Schedular/mp2.c:154-159 | so does a timer callback |
| Scheduler.RegisterInv | RMS_Linux_Schedular/mp2.c:162-199 | so does a registration |
| Scheduler.ReleaseTime | RMS_Linux_Schedular/mp2.c:154-159 | when a timer fires, one more whole period has passed since registration than there were releases |
| RateMonotonic.DispatchIsMemoryless | RMS_Linux_Schedular/mp2.c:75-123 | the dispatcher with its remembered task gives the least-period rule over READY and RUNNING, ties to the incumbent, then list order |
| RateMonotonic.DispatchIdempotent | RMS_Linux_Schedular/mp2.c:75-123 | a second dispatch changes nothing |
| RateMonotonic.BestReadyIsLeast | RMS_Linux_Schedular/mp2.c:88-92 | the scan finds the first READY task of least period |
| RateMonotonic.CurrentIsRunning | RMS_Linux_Schedular/mp2.c:93-104 | a current task is RUNNING when the dispatcher looks at it |
| RateMonotonic.OneRealtimeTask | RMS_Linux_Schedular/mp2.c:52-71 | in every run at most one registered task is SCHED_FIFO and awake, and it is the current one |
| RateMonotonic.AdmissionKeepsBound | RMS_Linux_Schedular/mp2.c:162-199 | an admitted registration keeps the floored sum within 693 exactly when its time is not negative |
| RateMonotonic.AdmissionExact | RMS_Linux_Schedular/mp2.c:162-199 | with a time that is not negative, admission is exactly: non-zero times, a new pid, and a floored sum within 693 |
| RateMonotonic.AdmissionBound | RMS_Linux_Schedular/mp2.c:162-199 | while no negative time is admitted, every reachable task set has floored utilisations of at most 693 per mille |
| RateMonotonic.BoundIffNonNegative | RMS_Linux_Schedular/mp2.c:162-199 | a run stays within that bound throughout exactly when it admits no negative time |
| RateMonotonic.NegativeTimesSlipThrough | RMS_Linux_Schedular/mp2.c:168-195 | a run with a negative time breaks that bound |
| RateMonotonic.UtilisationBound | RMS_Linux_Schedular/mp2.c:168-195 | true utilisation of n tasks is below (693 + n) / 1000 |
| RateMonotonic.SlackIsReal | RMS_Linux_Schedular/mp2.c:168-195 | a reachable task set exceeds 693 / 1000 |
| RateMonotonic.ReleasesSpaced | RMS_Linux_Schedular/mp2.c:238-240 | in every run the k-th release comes no earlier than k periods after registration |
| RateMonotonic.DemandBound | RMS_Linux_Schedular/mp2.c:154-245 | work released in t milliseconds by n tasks is below t * (693 + n) / 1000 |
| RateMonotonic.JobCycle | RMS_Linux_Schedular/mp2.c:154-253 | a yield blocks the task until exactly its next due time; then its timer readies it and winning a dispatch runs it |
| RateMonotonic.NextDueIs | RMS_Linux_Schedular/mp2.c:238-240 | that due time is one more whole period, in milliseconds, after registration than there were yields |
| RateMonotonic.DeregisterUndoesRegister | RMS_Linux_Schedular/mp2.c:162-224 | removing a task just registered restores the whole state |
| Isolation.OthersUntouched | RMS_Linux_Schedular/mp2.c:154-253 | registering, removing, yielding and a timer leave every other task, its place, its policy and its blocking as they are |
| Isolation.RegisterEffect | RMS_Linux_Schedular/mp2.c:168-197 | an admitted task stands last, SLEEPING, with its times and without a timer |
| Isolation.DeregisterEffect | RMS_Linux_Schedular/mp2.c:203-224 | a removal leaves exactly the other tasks, in order |
| Isolation.YieldEffect | RMS_Linux_Schedular/mp2.c:228-253 | exactly when a yield acts, and what it does to its task |
| Isolation.TimerEffect | RMS_Linux_Schedular/mp2.c:154-159 | exactly when a timer acts, and what it does to its task; nobody is woken |
| Isolation.DispatchFrame | RMS_Linux_Schedular/mp2.c:52-123 | a dispatch wakes the winner alone, makes it SCHED_FIFO, and takes SCHED_FIFO from the preempted task alone |
| Isolation.AsleepUntilDue | RMS_Linux_Schedular/mp2.c:154-253 | in every run a process that yielded is awake again only after its own timer fired, no earlier than its due time, and its task then won a dispatch |
| Mp2.SchedulerModule.Dispatcher | RMS_Linux_Schedular/mp2.c:75-123 | takes exactly the dispatch step, scanning the list in place |
| Mp2.SchedulerModule.TaskRegister | RMS_Linux_Schedular/mp2.c:162-199 | takes exactly the registration step; succeeds exactly for new pids, non-zero times and a sum within 693 |
| Mp2.SchedulerModule.Deregister | RMS_Linux_Schedular/mp2.c:203-224 | takes exactly the removal step |
| Mp2.SchedulerModule.TaskYield | RMS_Linux_Schedular/mp2.c:228-253 | takes exactly the yield step, refusing other processes' pids |
| Mp2.SchedulerModule.TimerCb | RMS_Linux_Schedular/mp2.c:154-159 | takes exactly the timer step |
| Ring.WriteSlots | Virtual_Memory_Page_Fault_Profiler/mp3.c:77-86 | a sample changes its own slot and no other |
| Ring.DrainSlots | Virtual_Memory_Page_Fault_Profiler/monitor.c:56-82 | a reader run empties the unbroken run of slots from the lowest occupied one, and no other |
| Ring.TwoDrainsEmpty | Virtual_Memory_Page_Fault_Profiler/monitor.c:56-82 | two reader runs in a row empty the buffer |
| Ring.EveryRunOk | Virtual_Memory_Page_Fault_Profiler/mp3.c:77-89 | over every interleaving: two pieces, each consecutive, upper older; each sample in the buffer, printed once, or overwritten a lap later |
| Ring.LostUnlessPrinted | Virtual_Memory_Page_Fault_Profiler/mp3.c:79-86 | over every run a sample is lost exactly when it is over 12000 samples old and unprinted; else it is printed or in the buffer |
| Ring.PrintedInOrder | Virtual_Memory_Page_Fault_Profiler/monitor.c:60-82 | a reader run prints in sampling order exactly when the pieces do not touch |
| Ring.LapPrintsOutOfOrder | Virtual_Memory_Page_Fault_Profiler/monitor.c:60-82 | after 12001 unread samples the pieces touch and a reader run prints out of order |
| FaultCounts.CollectTakes | Virtual_Memory_Page_Fault_Profiler/mp3_given.h:22-42 | what a sampling pass reads is exactly what it resets |
| FaultCounts.CollectKeepsLiving | Virtual_Memory_Page_Fault_Profiler/mp3.c:56-71 | a pass drops exactly the dead pids, and finds something exactly when one is left |
| FaultCounts.CollectResets | Virtual_Memory_Page_Fault_Profiler/mp3_given.h:22-42 | a pass resets the counters of exactly the live registered processes |
| FaultCounts.CollectReads | Virtual_Memory_Page_Fault_Profiler/mp3.c:54-72 | its totals are the counters those processes held before it |
| FaultCounts.SamplesAre | Virtual_Memory_Page_Fault_Profiler/mp3.c:49-90 | in every run the samples are those of the sampling steps that found a process, in order, with their times and the counters read |
| FaultCounts.RegisterAppends | Virtual_Memory_Page_Fault_Profiler/mp3.c:98-129 | registering keeps the list and puts a new positive pid last |
| FaultCounts.UnregisterTakesFirst | Virtual_Memory_Page_Fault_Profiler/mp3.c:136-156 | unregistering takes out the first entry of the pid and keeps the rest in order |
| FaultCounts.RegisteredOnce | Virtual_Memory_Page_Fault_Profiler/mp3.c:98-129 | in every run the registered pids are distinct and positive |
| FaultCounts.UnregisterUndoesRegister | Virtual_Memory_Page_Fault_Profiler/mp3.c:98-156 | removing a pid just registered restores the list |
| FaultCounts.CountsConserved | Virtual_Memory_Page_Fault_Profiler/mp3.c:49-90 | over every run, faults and CPU time incurred are written or still held, up to 64-bit wrap |
| Delivery.KernelKeeps | Virtual_Memory_Page_Fault_Profiler/mp3.c:49-90 | each step of processes and module keeps counts, samples and buffer in agreement |
| Delivery.AnyOrder | Virtual_Memory_Page_Fault_Profiler/monitor.c:60-82 | printing out of order changes no total |
| Delivery.Delivered | Virtual_Memory_Page_Fault_Profiler/mp3.c:49-90 | over every run with its monitor, all that was incurred is printed, overwritten, in the buffer or still held, up to 64-bit wrap |
| Delivery.PrintedSamples | Virtual_Memory_Page_Fault_Profiler/monitor.c:60-82 | every sample printed has the time, and the counters, of the sampling step that wrote it |
| Profiler.ProfilerModule.constructor | Virtual_Memory_Page_Fault_Profiler/mp3.c:271-282 | every word is -1 and the buffer is empty |
| Profiler.ProfilerModule.WriteSample | Virtual_Memory_Page_Fault_Profiler/mp3.c:77-86 | the four words written at the wrapping index add one sample to the ring |
| Profiler.ProfilerModule.GetCpuUse | Virtual_Memory_Page_Fault_Profiler/mp3_given.h:22-42 | reads and resets a live process's counters, and only those |
| Profiler.ProfilerModule.SumUp | Virtual_Memory_Page_Fault_Profiler/mp3.c:54-72 | the loop over the list computes the pass: sums, resets and pids kept |
| Profiler.ProfilerModule.WorkHandler | Virtual_Memory_Page_Fault_Profiler/mp3.c:49-90 | one sampling step; exactly when a live registered process is found, a sample is written with the current time and those processes' counters summed in 64 bits |
| Profiler.ProfilerModule.TaskRegister | Virtual_Memory_Page_Fault_Profiler/mp3.c:98-129 | appends a positive pid unless it is there already |
| Profiler.ProfilerModule.Deregister | Virtual_Memory_Page_Fault_Profiler/mp3.c:136-156 | removes the pid's entry |
| Profiler.ProfilerModule.Scan | Virtual_Memory_Page_Fault_Profiler/monitor.c:56-58 | stops at the lowest occupied slot, or at word 48000 when there is none |
| Profiler.ProfilerModule.ReadGroup | Virtual_Memory_Page_Fault_Profiler/monitor.c:62-81 | prints and clears one aligned group of four words |
| Profiler.ProfilerModule.PrintRun | Virtual_Memory_Page_Fault_Profiler/monitor.c:56-82 | terminates, stays in bounds, prints and clears exactly the run of occupied slots |
| Profiler.ProfilerModule.Monitor | Virtual_Memory_Page_Fault_Profiler/monitor.c:45-89 | a whole reader run on the shared buffer and its history |
| Profiler.ReadTest | Virtual_Memory_Page_Fault_Profiler/monitor.c:61 | the reader's sentinel test is in bounds and tells whether its run goes on |

## Left out

- All of `CPU_Usage_Tracker/`: its list and refresh logic would only repeat the profiler's in a weaker form.
- The hard-link list itself (`Myfsck/mkfs.c:53-90`): its nodes' `next` is never set; only its possible answers are modelled.
- `mkfs` without a source tree: it writes no "." or ".." into the root.
- Host directory reading, mmap, lseek, printing and exit codes; the lister's path buffer and the text of its lines.
- Mkfs.Builder.Ialloc: stops when inode number 200 would be next, where the source goes on, because it then writes inodes the superblock does not count and, from 208 on, over the bitmap and data blocks.
- Lister.Lsfs: an uncounted root directory is not followed past its header line, because nobody has checked the addresses the source then follows.
- procfs parsing, user-space copies, slab allocation, module init and exit, character device and memory mapping.
- Liveness of the dispatcher thread, races inside a step, and wrap-around of jiffies.
- A Liu and Layland schedulability theorem: the floored admission test does not enforce its hypothesis.
- Re-arming of the profiler's delayed work: when sampling happens is left to the environment.
- Test drivers, workload generators and plots.
