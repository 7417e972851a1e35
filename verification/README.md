# Machine-checked properties of the xv6-riscv kernel, mkfs, the shell parser, malloc and grep

A Dafny model of the parts of this xv6-riscv tree whose correctness is hard to see by
reading: the crash-safe file system, virtual memory, the process machinery, the virtio disk
driver, and three user-level algorithms. `dafny verify dfyconfig.toml` checks everything.

## What is modelled

**Storage.** `BufferCache` is the ring of kernel/bio.c, proved equal to a cache that is a
plain list ordered by last release. `Recovery` defines what a disk image durably stands for
and proves crash atomicity; `Log` is kernel/log.c over the cache, where every method states
the whole list of disk images it passes through, and other processes may read and release
buffers between any two steps. `GroupCommit` is the admission protocol of begin_op, log_write
and end_op under arbitrary interleavings. `FsLayout`, `FsCore` and
`FileSystem` are kernel/fs.c and the chunking of kernel/file.c: who owns which block, files as
flat byte sequences, and how many blocks a transaction logs. `Mkfs` builds the image that
establishes the invariant. `DurableFs` runs the file system on the log: after any crash in any
run, recovery finds the file system as it was after some number of whole transactions.
`Lifetimes` starts from mkfs's image and lets the machine boot, work and crash any number of times.
`LinkCount` is the directory layer of kernel/sysfile.c.

**Memory.** `PageTable` holds physical pages, Sv39 trees and the owner of every page as a
value, with one lemma for each elementary change. `VirtualMemory` is kernel/kalloc.c and
kernel/vm.c, `AddressSpace` the memory side of allocproc, freeproc, growproc and fork, `Exec`
is kernel/exec.c.

**Processes.** `SleepWakeup` interleaves sleep, wakeup, kill, yield, sched and scheduler on any
number of CPUs; `ProcTree` interleaves fork, exit and wait.

**Driver.** `Virtio` has the driver's steps and the device's steps over shared rings.

**User level.** `Umalloc` is malloc and free, `Shell` and `ShellParser` the command parser,
`Grep` the regular-expression matcher.

A `panic` in the source is an outcome of the method (`!ok`, `Panic`), not a precondition; where
a panic is unreachable the contract says so. What processes, devices, the host's files or the
user supply (data, times of crashes, results of sbrk, program headers) are parameters.

Five properties one might expect do not hold of the code, and the model says exactly when they
do. Operations within their reservations can hit the log's size test: `GroupCommit.GuardFires` has
the condition for all limits and any number of processes. With the kernel's (`KernelGuard`) they
always can, if they may log a block again after using up the reservation, since the test comes
before the search for the block; and if they may not, if and only if `nlog <= LOGSIZE`, which is
how mkfs sets it. The rounding of the root directory in mkfs leaves a hole, and an image that
does not meet the kernel's invariant, if and only if the directory's length is a multiple of the
block size (`Mkfs.Mkfs.Build`). link and create keep every link count right if and only if the
directory has not itself been unlinked (`LinkCount.FileTree.Link`, `LinkCount.FileTree.Create`).
morecore asks sbrk for the size it records if and only if the malloc request is at most
2^31 - 32 bytes (`Umalloc.SbrkArgument`, `Umalloc.Heap.Malloc`). exec keeps its argument pointers
within `ustack` unless there are exactly MAXARG strings and they fit (`Exec.PushArgs`); sys_exec
never passes that many.

## Model

| member | source | states |
|---|---|---|
| `BufferCache.Bcache.constructor` | kernel/bio.c:36-53 | binit yields a valid ring of all buffers in which buffer 0 is recycled first |
| `BufferCache.Bcache.FindVictim` | kernel/bio.c:76-86 | the walk from the back finds an unreferenced buffer whose last release is the oldest of all unreferenced ones |
| `BufferCache.Bcache.Bread` | kernel/bio.c:58-103 | for dev != 0 the ring version equals the list cache's bread; a miss recycles the least recently released free buffer; the panic happens exactly when the block is not cached and every buffer is referenced; no block gets two buffers |
| `BufferCache.Bcache.Brelse` | kernel/bio.c:116-137 | the pointer surgery equals moving the buffer to the front of the list exactly when the last reference goes; prev/next stay inverse permutations of all buffers |
| `BufferCache.Bcache.Bpin` | kernel/bio.c:139-151 | pin and unpin change one count and nothing in the ring |
| `BufferCache.MovedSucc` | kernel/bio.c:126-134 | unlink and relink at the head give exactly the successors of the list with the buffer moved to the front, for every node |
| `BufferCache.MovedPred` | kernel/bio.c:126-134 | the same for predecessors |
| `Recovery.HeadsRoundTrip` | kernel/log.c:86-114 | reading back the header block that write_head encodes gives the same list of block numbers |
| `Recovery.Area.RepresentsUnique` | kernel/log.c:68-123 | an image determines the durable contents of all home blocks |
| `Recovery.Area.RecoveryKeeps` | kernel/log.c:116-123 | recovery stopped after any number of block writes leaves the durable contents, completed it installs them and empties the log |
| `Recovery.Area.CommitPoint` | kernel/log.c:193-203 | after k block writes of commit the image stands for the old contents while k <= n and for the new ones from the header write on |
| `Recovery.Area.CrashAtomicity` | kernel/log.c:68-123 | crash commit after any k writes, crash any number of recoveries anywhere, then complete one: all home blocks are old or all are new, and new exactly when the first write_head reached the disk |
| `Log.Meaning.BreadKeeps` | kernel/bio.c:92-103 | a bread returns the newest contents of the block, cached or not, and keeps cache and disk coherent |
| `Log.Meaning.BreadFails` | kernel/bio.c:58-89 | a bread can only fail for a block that is not pinned, and only when as many blocks are pinned or held as there are buffers |
| `Log.Log.constructor` | kernel/log.c:54-65 | initlog before recovery: a cache that agrees with the disk, nothing pinned, empty log |
| `Log.Log.Bread` | kernel/bio.c:58-103 | a process's bread returns the newest contents and disturbs no buffer that a log routine holds; it fails only when every buffer is referenced |
| `Log.Log.Meanwhile` | kernel/log.c:166-170 | whatever other processes do to the cache between two steps of a commit, nothing that is pinned moves, no contents change, and the buffers the commit holds stay |
| `Log.Log.WriteLog` | kernel/log.c:178-191 | the log blocks become the newest contents of the logged blocks, image by image in order, and these stay pinned, whatever other processes bread and brelse before and inside any round |
| `Log.Log.WriteHead` | kernel/log.c:102-114 | the one write that changes the header block to the list, under the same interference |
| `Log.Log.InstallTrans` | kernel/log.c:68-83 | each logged block is copied home in order, under the same interference; outside recovery every pin is dropped |
| `Log.Log.Commit` | kernel/log.c:193-203 | while other processes read and release, the disk passes through exactly the images of CrashAtomicity; each stands for the old contents before the header write and for the new ones from it on; the home blocks end as the newest contents; undisturbed, there is no panic while one buffer more than the transaction's exists |
| `Log.Log.ReadHead` | kernel/log.c:86-97 | the in-memory header is the one on disk |
| `Log.Log.RecoverFromLog` | kernel/log.c:116-123 | every image it passes through stands for the same contents; if it completes the home blocks hold them; two buffers suffice |
| `Log.Log.LogWrite` | kernel/log.c:214-235 | both size tests come first and agree with the admission protocol; the block is pinned once, or absorbed; readers see the new data and nothing else changes |
| `Log.Log.BeginOp` | kernel/log.c:126-142 | one pass of its loop admits exactly as in the admission protocol |
| `Log.Log.EndOp` | kernel/log.c:146-175 | the last operation out commits and leaves the gate of the protocol, the others only leave; every image passed through stands for the contents before or after the transaction |
| `Log.Txn.LoggedStayCached` | kernel/log.c:68-235 | from log_write to bunpin: after any further reads, releases, logged updates, disk writes and unpins by anyone, a logged block is still in its buffer, valid, referenced and newest, and bread finds that buffer; or it has been unpinned and its newest contents are on disk |
| `Log.CommitAllOrNothing` | kernel/log.c:193-203 | every image of a commit cut short anywhere stands for all of the old or all of the new contents |
| `GroupCommit.NextInv` | kernel/log.c:126-235 | every step of any interleaving keeps: entries plus unused reservations fit in the log, committing implies nothing outstanding |
| `GroupCommit.RunInv` | kernel/log.c:126-235 | so does every run, and the "log.committing" panic is unreachable |
| `GroupCommit.WritePanics` | kernel/log.c:214-228 | with nlog > LOGSIZE log_write panics if and only if the log is full; then the block was already in the log and every operation has used up its reservation |
| `GroupCommit.RoomyLogNeverPanics` | kernel/log.c:214-228 | with nlog > LOGSIZE no run panics in which operations log, new blocks or old ones, only while part of their reservation is unused |
| `GroupCommit.PairFills` | kernel/log.c:126-228 | two operations that overlap can fill a log that holds two reservations: one keeps the log from committing while the other comes and goes; they panic on the way if nlog <= LOGSIZE |
| `GroupCommit.RunCapped` | kernel/log.c:126-228 | no run fills the log beyond what the number of processes allows, and a run that panics meets the condition of GuardFires |
| `GroupCommit.FiringRun` | kernel/log.c:214-228 | whenever the condition of GuardFires holds there is a run that panics: the log filled as far as it goes and, where that is allowed, a block logged again |
| `GroupCommit.GuardFires` | kernel/log.c:214-228 | for every LOGSIZE, nlog, MAXOPBLOCKS and number of processes: exactly when operations within their reservations can hit the size test |
| `GroupCommit.KernelGuard` | kernel/log.c:214-228 | with LOGSIZE 30, MAXOPBLOCKS 10 and two or more processes: if and only if they may log a block again after using up the reservation, or nlog <= 30 |
| `FsLayout.InodeRoundTrip` | kernel/fs.h:27-47 | an inode stored in its block reads back |
| `FsLayout.InodeOther` | kernel/fs.h:27-47 | and the other inodes of the block are untouched |
| `FsCore.Fs.ExactOwner` | kernel/fs.c:64-103 | under the invariant a bitmap bit is set if and only if the block is metadata or is in a slot of an inode, never both, and no block is in two slots |
| `FsCore.Fs.InSize` | kernel/fs.c:377-405 | below its size a file has no hole |
| `FsCore.Fs.OthersKept` | kernel/fs.c:409-437 | when one inode gives up its blocks and data blocks are not written, every other file keeps its contents |
| `FsCore.Fs.HomeOnly` | mkfs/mkfs.c:20-21 | boot block, superblock and log may change at will: the invariant and all file contents are those of the other blocks |
| `FileSystem.FileSystem.constructor` | kernel/fs.c:179-188 | an image that meets the invariant, with an empty inode table |
| `FileSystem.FileSystem.FindFree` | kernel/fs.c:64-86 | the double loop finds the lowest clear bit |
| `FileSystem.FileSystem.Balloc` | kernel/fs.c:64-86 | the lowest free block is marked, zeroed and owned by nobody else; the panic happens exactly when every bit is set |
| `FileSystem.FileSystem.Bfree` | kernel/fs.c:89-103 | the bit of a freed block was set, so the panic is unreachable, and is cleared |
| `FileSystem.FileSystem.Iupdate` | kernel/fs.c:221-237 | the inode on disk becomes the one in memory and only its block is logged |
| `FileSystem.FileSystem.Bmap` | kernel/fs.c:377-405 | the block of a file block, allocated only if missing; ownership, other slots and other files kept; which blocks are logged; it fails only for a block number too large or a full disk |
| `FileSystem.FileSystem.Itrunc` | kernel/fs.c:409-437 | every block of the inode is freed exactly once, the inode is empty on disk, data blocks are not written, and every other file keeps its contents |
| `FileSystem.FileSystem.Writei` | kernel/fs.c:486-517 | rejects exactly holes and too-large files; otherwise the file is the old one with the bytes spliced in at off, across the indirect boundary, all other files, all types and link counts and all other table entries unchanged, and the blocks logged are bounded; panics only on a full disk |
| `FileSystem.FileSystem.Readi` | kernel/fs.c:455-477 | returns exactly the bytes of the flat file cut to its size and changes nothing |
| `FileSystem.FileSystem.Iget` | kernel/fs.c:242-273 | the one entry of the inode, or an unused one; never a second entry |
| `FileSystem.FileSystem.Ilock` | kernel/fs.c:288-313 | loads the inode as it is on disk; panics exactly on a free one |
| `FileSystem.FileSystem.Ialloc` | kernel/fs.c:195-215 | the lowest free inode from 1 on; no slot, owner or byte of a file and no other table entry changes; fails only if no inode is free or the table is full |
| `FileSystem.FileSystem.SetFields` | kernel/sysfile.c:265-268 | link count and device numbers of a locked inode change in memory and on disk; all else, slots, owners and bytes, stays |
| `FileSystem.FileSystem.Iput` | kernel/fs.c:332-358 | the last reference to an unlinked inode frees all its blocks and then the inode; otherwise only the count changes; every other file and table entry is kept |
| `FileSystem.FileSystem.WriteTransaction` | kernel/file.c:155-167 | one transaction of filewrite logs at most MAXOPBLOCKS = 10 distinct blocks, even if every allocation hits another bitmap block |
| `FileSystem.FileSystem.Filewrite` | kernel/file.c:148-175 | all transactions stay within MAXOPBLOCKS; the file is the old one with the written bytes spliced in, all of them if the file may hold them and they can be copied; the result is n or -1 |
| `FileSystem.ChunkBound` | kernel/file.c:149-160 | the chunk size of three blocks keeps the bound at 10 for every offset |
| `FileSystem.FileSystem.ServeOne` | kernel/fs.c:195-517 | one call of iget, ilock, ialloc, writei, itrunc, iput or a change of fields: its effect on every inode, every file and the table |
| `FileSystem.FileSystem.Serve` | kernel/fs.c:195-517 | any sequence of calls has the effect of the calls one after another on inodes, file contents and inode table, keeps the invariant and changes no block it does not log; it stops only with a full disk, no free inode, a full table, or a free inode locked |
| `DurableFs.LogAll` | kernel/log.c:214-235 | logging every block a call has changed makes the log's contents those of the file system; it cannot fail while log and cache have room |
| `DurableFs.LinkedStands` | kernel/log.c:54-65 | between transactions the disk stands for the file system |
| `DurableFs.OpenLog` | kernel/log.c:126-142 | begin_op on an idle log succeeds if and only if the log can hold a reservation |
| `DurableFs.Act1` | kernel/fs.c:195-517 | one call inside a transaction has its effect, is logged when it is over, and leaves the disk as it was; why it can fail |
| `DurableFs.CloseLog` | kernel/log.c:146-203 | end_op of the last operation: the disk's images stand for the file system at begin_op up to some write and for the present one from then on; when it cannot fail |
| `DurableFs.Transaction` | kernel/log.c:126-203 | begin_op, any file system calls with reads and releases of others in between, end_op: the calls have their effects one after another, and the disk's images stand for the file system before, and from one write on for the one after; why it can fail |
| `DurableFs.WriteDurably` | kernel/file.c:155-167 | one chunk of filewrite on the log: a crash leaves the file as it was or with the bytes spliced in, on return they are durable, and the reservation of MAXOPBLOCKS is enough |
| `DurableFs.StoryStep` | kernel/log.c:193-203 | one more transaction extends the history of images by one state of the file system |
| `DurableFs.Work` | kernel/log.c:126-203 | over any number of transactions every image of the disk stands for the file system after some number of whole transactions, never going back; each of these is what the calls of one transaction make of the one before, and meets the invariant |
| `DurableFs.Recovered` | kernel/log.c:116-123 | crash at such an image, crash any number of recoveries, complete one: the file system on disk meets the invariant, has the same inodes and the same bytes in every file |
| `Lifetimes.Mount` | kernel/log.c:54-65 | boot: initlog with its recovery, then the file system; every image stands for the file system f the disk stood for, and f is what is mounted, with the same inodes and bytes; it cannot fail |
| `Lifetimes.Live` | kernel/log.c:54-203 | boot, work, and a crash after any block write, in recovery too: the disk stands for the file system after some number of this life's transactions, all of them if none panics and the crash comes after the last write |
| `Lifetimes.ChainMore` | kernel/log.c:54-203 | one more life extends the history of whole transactions |
| `Lifetimes.Lives` | kernel/log.c:54-203 | any number of lives: each begins with the file system the one before left, and the disk always stands for one reached by whole transactions only |
| `Lifetimes.BlankStands` | mkfs/mkfs.c:108-115 | an image whose log is zero stands for itself |
| `Lifetimes.History` | mkfs/mkfs.c:108-170 | mkfs and then any number of lives: if the build fits and the root does not end on a block boundary, the first file system has the host's files, and after all crashes the disk stands for one reached from it by whole transactions |
| `Mkfs.EmptyInv` | mkfs/mkfs.c:108-115 | the zeroed image with only metadata marked meets the invariant |
| `Mkfs.Mkfs.constructor` | mkfs/mkfs.c:108-115 | the start of the build, with the bitmap deferred |
| `Mkfs.Mkfs.Ialloc` | mkfs/mkfs.c:220-232 | the next inode number, one link, written to its place |
| `Mkfs.Mkfs.Iappend` | mkfs/mkfs.c:252-294 | the file is its old contents followed by the data, others unchanged, each block owned once, exactly the blocks the new size needs are taken, the rest of the last block is zero; it fails if and only if the file gets too large or the image too full |
| `Mkfs.Mkfs.FixRoot` | mkfs/mkfs.c:163-168 | rounding the root size keeps "no hole below size" if and only if the size was not a block multiple; all else the kernel expects is kept in both cases |
| `Mkfs.Mkfs.Balloc` | mkfs/mkfs.c:234-248 | the bitmap written last gives every block the bit the kernel expects; its assert holds if and only if fewer than 8192 blocks are used |
| `Mkfs.Mkfs.AddFiles` | mkfs/mkfs.c:130-161 | each host file becomes an inode with its bytes and the next entry of the root; it completes if and only if inodes, blocks and file sizes allow it |
| `Mkfs.Mkfs.Build` | mkfs/mkfs.c:117-170 | it completes if and only if everything fits, by an exact count of blocks; the root is its entries in order and then zeroes; the log is blank; the finished image meets the kernel's invariant if and only if the number of root entries is not a multiple of 64 |
| `Mkfs.MeetsExactly` | mkfs/mkfs.c:163-168 | an image whose blocks are allocated right meets the kernel's invariant, read in whatever way, if and only if no file has a hole |
| `Mkfs.SixtyTwoFiles` | mkfs/mkfs.c:88-115 | with mkfs's own superblock 62 empty files give a build that completes and whose image does not |
| `Mkfs.RootContents` | mkfs/mkfs.c:163-168 | after the rounding the root is its entries followed by free ones |
| `Mkfs.NeedStep` | mkfs/mkfs.c:265-283 | each round of iappend takes a block exactly at a block boundary, and the indirect block exactly when passing twelve blocks |
| `LinkCount.RootInv` | mkfs/mkfs.c:117-128 | the root that names itself twice has the right count |
| `LinkCount.LinkKeeps` | kernel/sysfile.c:141-153 | one more link and one more entry keep every count right |
| `LinkCount.CreateKeeps` | kernel/sysfile.c:261-281 | so do a new inode, its dots, the parent's extra link and the entry |
| `LinkCount.LinkBreaks` | kernel/sysfile.c:141-153 | after a new name in a directory that was itself unlinked the file's count is wrong |
| `LinkCount.CreateBreaks` | kernel/sysfile.c:261-281 | after creating a file or device there its count is wrong, and after creating a directory there that of the unlinked directory's own parent |
| `LinkCount.OrphanExample` | kernel/sysfile.c:261-281 | such a directory exists: make it, then remove it while it is held; a file created in it has a wrong count |
| `LinkCount.EmptyLinks` | kernel/sysfile.c:169-182 | an empty directory that is still linked has exactly one link and its parent at least two |
| `LinkCount.UnlinkKeeps` | kernel/sysfile.c:218-229 | erasing an entry, with the parent's link for a directory, keeps every count right |
| `LinkCount.FreeKeeps` | kernel/fs.c:337-352 | freeing an inode without links leaves no entry that names it |
| `LinkCount.FileTree.constructor` | mkfs/mkfs.c:117-161 | mkfs's root names each file once, in order, and the count invariant holds |
| `LinkCount.FileTree.DirLookup` | kernel/fs.c:529-553 | the first entry in use with that name |
| `LinkCount.FileTree.FindSlot` | kernel/fs.c:569-575 | the first empty slot, or the end |
| `LinkCount.FileTree.IsDirEmpty` | kernel/sysfile.c:169-182 | true if and only if no slot after the two dots is in use |
| `LinkCount.FileTree.Link` | kernel/sysfile.c:119-166 | links exactly one new name, or rolls back to the very state before the call, and when; every count is right if and only if the directory is still linked |
| `LinkCount.FileTree.Unlink` | kernel/sysfile.c:184-239 | removes exactly the named entry, frees the inode when it was the last link and reference; refuses only dots, missing names and directories in use; the nlink panic is unreachable |
| `LinkCount.FileTree.LastPut` | kernel/fs.c:332-358 | an inode unlinked while somebody held it is freed by the last iput, any other is left alone; every count stays right |
| `LinkCount.FileTree.Create` | kernel/sysfile.c:241-284 | a new inode with its entry, the file or device that has the name, or no change, and when; every count is right if and only if nothing is created in an unlinked directory |
| `PageTable.PxInjective` | kernel/riscv.h:352-363 | PX(2), PX(1), PX(0) together determine a page below MAXVA |
| `PageTable.Vm.HangKeeps` | kernel/vm.c:96-106 | hanging a zeroed page below an empty entry changes no translation and shares no page |
| `PageTable.Vm.SetPteAt` | kernel/vm.c:159-163 | writing one level-0 entry changes exactly one translation of one space |
| `PageTable.Vm.MapUserKeeps` | kernel/vm.c:161-163 | mapping a page in hand makes it owned by that address and nothing else changes |
| `PageTable.Vm.MapStateMore` | kernel/vm.c:155-168 | one more round of mappages extends the mapped range by one page and touches nothing else |
| `PageTable.Vm.UnmapStateMore` | kernel/vm.c:182-196 | one more round of uvmunmap extends the emptied range by one page |
| `PageTable.Vm.UnmapFreeKeeps` | kernel/vm.c:191-195 | freeing a user page and clearing its entry, in that order, loses exactly that page |
| `PageTable.Vm.PruneKeeps` | kernel/vm.c:282-286 | a childless directory page leaves its tree and is free |
| `PageTable.Vm.UserPagesCount` | kernel/vm.c:230-254 | user pages of a space are distinct pages of the pool |
| `PageTable.Vm.Room` | kernel/vm.c:230-254 | so user memory cannot reach TRAPFRAME before memory runs out |
| `VirtualMemory.Memory.constructor` | kernel/kalloc.c:26-40 | the free list holds each whole page from the kernel's end to PHYSTOP once |
| `VirtualMemory.Memory.Kalloc` | kernel/kalloc.c:68-82 | takes the head of the list, or fails exactly when it is empty; every space reads the same |
| `VirtualMemory.Memory.Kfree` | kernel/kalloc.c:46-63 | pushes the page, or panics exactly outside RAM |
| `VirtualMemory.Memory.Walk` | kernel/vm.c:90-108 | finds the entry of the page; adds at most two directory pages and changes no translation; fails only with fewer than two free pages or, without alloc, when there is no entry; panics exactly at MAXVA |
| `VirtualMemory.Memory.WalkAddr` | kernel/vm.c:113-131 | the page if mapped and open to the user, else 0 |
| `VirtualMemory.Memory.MapPages` | kernel/vm.c:147-170 | adds exactly a prefix of its range, all of it on success, each page to the next physical one, taking those it comes to own out of the caller's hand; all else untouched; when it stops and why, including 64-bit overflow of the end |
| `VirtualMemory.Memory.UvmUnmap` | kernel/vm.c:175-197 | removes exactly a prefix of its range, all of it unless it panics, and that only at a page that is not mapped; frees as many pages as it removes, or hands owned ones back to the caller |
| `VirtualMemory.Memory.UvmCreate` | kernel/vm.c:201-210 | a new space that maps nothing |
| `VirtualMemory.Memory.UvmAlloc` | kernel/vm.c:230-254 | all new pages, zeroed and open to the user, or the map as it was, which takes fewer than three free pages for each; never a panic |
| `VirtualMemory.Memory.UvmDealloc` | kernel/vm.c:260-272 | exactly the pages above the new size go, to the free list |
| `VirtualMemory.Memory.FreeWalk` | kernel/vm.c:276-292 | without mappings every page below goes to the free list, no panic, no other space notices |
| `VirtualMemory.Memory.UvmFree` | kernel/vm.c:296-302 | a space that maps exactly its size disappears completely; neither uvmunmap nor freewalk panics |
| `VirtualMemory.Memory.UvmCopy` | kernel/vm.c:310-338 | the child has the parent's contents and flags page by page, or the map as it was, which takes fewer than three free pages for each; no panic |
| `VirtualMemory.Memory.UvmClear` | kernel/vm.c:342-351 | only the user bit of that entry goes, whatever it is; panics exactly without a directory for it |
| `VirtualMemory.Memory.ProcPagetable` | kernel/proc.c:171-200 | an empty space with trampoline and trapframe, or no trace of one if fewer than five pages are free |
| `VirtualMemory.Memory.ProcFreePagetable` | kernel/proc.c:204-210 | the whole space is gone, its pages free, no panic, no other space changed |
| `AddressSpace.TablesUpdate` | kernel/proc.c:104-319 | replacing one process's space keeps: every process has exactly its own complete space and trapframe, and there are no others |
| `AddressSpace.Kernel.constructor` | kernel/proc.c:46-57 | boot: kernel tables only |
| `AddressSpace.Kernel.Allocproc` | kernel/proc.c:104-145 | a slot with an empty space, or everything as it was, if all slots are used or fewer than six pages are free |
| `AddressSpace.Kernel.Freeproc` | kernel/proc.c:150-167 | the slot is empty, its pages free, others unchanged |
| `AddressSpace.Kernel.Growproc` | kernel/proc.c:252-268 | new size, kept contents, zeroed growth; failure changes nothing and takes a shortage of memory; shrinking below zero wraps in 32 bits and is ignored with success |
| `AddressSpace.Kernel.Fork` | kernel/proc.c:272-292 | the child's memory and size equal the parent's, or everything is as it was, if all slots are used or memory is short |
| `Exec.LoadSeg` | kernel/exec.c:135-154 | every page of the segment holds its contents; the panic is unreachable |
| `Exec.LoadSegment` | kernel/exec.c:41-58 | memory up to the segment's end, zero where nothing was, the segment on top; fails only for a bad header or file or too little memory |
| `Exec.PushStrings` | kernel/exec.c:75-88 | the loop stops if and only if there are more than 32 strings or one does not fit; never more than 32 pointers are stored |
| `Exec.PushArgs` | kernel/exec.c:75-98 | strings and pointer array with its final 0 lie in the stack page, aligned, without overlap; fails if and only if there are too many or they do not fit; what is stored into ustack stays within its 32 elements if and only if there are not exactly 32 strings that fit |
| `Exec.AddStack` | kernel/exec.c:67-98 | a guard page closed to the user and a stack page above the image |
| `Exec.Build` | kernel/exec.c:38-98 | a complete space that holds the program image, or no trace of one; it succeeds if headers, arguments and memory are sufficient |
| `Exec.Exec` | kernel/exec.c:38-127 | success replaces exactly this process's space by the program image and frees the old one; failure changes nothing; no panic; no other process notices; when it must succeed |
| `Exec.Serve` | kernel/proc.c:252-319 | any of fork, exec, sbrk and exit keeps: exactly [0, PGROUNDUP(sz)) is mapped below TRAPFRAME in every space, every page free or owned once |
| `Exec.Conservation` | kernel/kalloc.c:46-82 | between calls a page is on the free list if and only if no kernel table, live process, its tables or its trapframe holds it, and no page is held twice |
| `SleepWakeup.StepInv` | kernel/proc.c:437-573 | every step of any CPU, of processes and of interrupt handlers on idle CPUs, keeps lock holders, states, CPUs and wakeup counts consistent |
| `SleepWakeup.RunInv` | kernel/proc.c:437-573 | so does every run |
| `SleepWakeup.NoLostWakeup` | kernel/proc.c:528-573 | in every reachable state no wakeup on a sleeper's channel, by a process or an interrupt handler, has finished since the sleeper tested its condition |
| `SleepWakeup.WakeupComplete` | kernel/proc.c:559-573 | when a wakeup ends nobody sleeps on its channel |
| `SleepWakeup.OneCpu` | kernel/proc.c:437-492 | each RUNNING process is on exactly one CPU |
| `ProcTree.RunInv` | kernel/proc.c:272-428 | every run of interleaved fork, exit and wait steps keeps the invariant |
| `ProcTree.TreeSafe` | kernel/proc.c:323-379 | in every reachable state a process past USED, other than init, has a parent that is neither UNUSED nor ZOMBIE |
| `ProcTree.InitLives` | kernel/proc.c:340-345 | init is always there to adopt orphans |
| `ProcTree.ReapedOnce` | kernel/proc.c:383-428 | each exit is returned by at most one successful wait, with the status it gave |
| `Virtio.Slot` | kernel/virtio_disk.c:259-265 | ring slots and counters stay right across the 16-bit wrap |
| `Virtio.Disk.constructor` | kernel/virtio_disk.c:128-141 | all descriptors free, empty rings |
| `Virtio.Disk.AllocDesc` | kernel/virtio_disk.c:144-154 | the first free descriptor, or none exactly when none is free |
| `Virtio.Disk.FreeDesc` | kernel/virtio_disk.c:157-170 | panics exactly on a bad or free descriptor |
| `Virtio.Disk.Alloc3` | kernel/virtio_disk.c:189-201 | three different free descriptors, or the table as it was if there are fewer |
| `Virtio.Disk.Prepare` | kernel/virtio_disk.c:203-261 | a formatted chain disjoint from all others with its operation, buffer and direction, its head in the ring behind all published ones, its buffer busy; or no change for want of descriptors |
| `Virtio.Disk.Publish` | kernel/virtio_disk.c:263-269 | the increment of the index, a separate step, makes that chain the last queued one |
| `Virtio.Disk.DeviceFetch` | kernel/virtio_disk.c:259-269 | the device sees exactly the published chains, in order, and in each the operation, buffer, direction and status byte that were submitted |
| `Virtio.Disk.DeviceFinish` | kernel/virtio_disk.c:282-315 | any fetched chain may finish next |
| `Virtio.Disk.IntrOne` | kernel/virtio_disk.c:300-311 | clears `disk` on exactly the buffer submitted with that head; panics exactly on a nonzero status |
| `Virtio.Disk.Intr` | kernel/virtio_disk.c:282-315 | exactly the requests in the used ring are completed and their buffers released; panics if and only if one of them failed |
| `Virtio.Disk.FreeChain` | kernel/virtio_disk.c:173-185 | frees exactly its own three descriptors, without panic |
| `Virtio.Disk.Finish` | kernel/virtio_disk.c:271-277 | the request is gone, all others and the queues untouched |
| `Umalloc.RingInsert` | user/umalloc.c:24-44 | linking a block in behind the last one below it keeps the address-ordered ring |
| `Umalloc.RingRemove` | user/umalloc.c:76-77 | unlinking keeps it too |
| `Umalloc.GapTest` | user/umalloc.c:30-32 | the two tests of free's search succeed at exactly one node |
| `Umalloc.FreedFree` | user/umalloc.c:33-42 | after both joins no two free blocks touch and the units add up |
| `Umalloc.SbrkArgument` | user/umalloc.c:46-61 | morecore asks sbrk for what it records if and only if the request is at most 2^31 - 32 bytes |
| `Umalloc.SbrkArgumentWraps` | user/umalloc.c:46-61 | for 2^31 - 1 bytes it asks sbrk to shrink the process |
| `Umalloc.BreakCovers` | user/umalloc.c:46-61 | the break sbrk leaves, moved down or not at all when the byte count wraps, is above the units recorded if and only if there are fewer than 2^27 |
| `Umalloc.Heap.FindGap` | user/umalloc.c:30-32 | free's search ends, at the last free block below |
| `Umalloc.Heap.Free` | user/umalloc.c:24-44 | exactly the block's units become free; disjointness, ring order, no touching blocks and unit count kept |
| `Umalloc.Heap.Morecore` | user/umalloc.c:46-61 | at least 4096 units join the free list, or sbrk failed and nothing changed; where sbrk leaves the break; the units are memory of the process if and only if there are fewer than 2^27 |
| `Umalloc.Heap.Take` | user/umalloc.c:74-85 | exactly n units leave the free list for the caller |
| `Umalloc.Heap.Malloc` | user/umalloc.c:63-90 | a block disjoint from all live ones, cut from free or new units; the search ends and calls morecore at most once; fails only when sbrk does; the heap stays in the process's memory if and only if morecore was not called for more than 2^31 - 32 bytes |
| `Shell.RoundTrip` | user/sh.c:327-446 | printing any command tree of words with at most 9 arguments each, with parentheses where needed, and parsing the line gives the tree back |
| `Shell.LineBack` | user/sh.c:344-359 | the same in front of a closing parenthesis |
| `Shell.ExecBack` | user/sh.c:399-446 | the same for a command or block with redirections before a separator |
| `Shell.RedirsBack` | user/sh.c:374-397 | redirections come back in order |
| `ShellParser.Parser.GetToken` | user/sh.c:265-308 | the cursor version returns the token of the specification, with a word's exact span |
| `ShellParser.Parser.PeekAt` | user/sh.c:310-320 | skips white space and tests the next character |
| `ShellParser.Parser.ReadRedirs` | user/sh.c:374-397 | the redirections of the specification, or its error |
| `ShellParser.Parser.ReadArgs` | user/sh.c:429-442 | the arguments and redirections of the specification, or its error; ten arguments are too many |
| `ShellParser.Parser.ParseExecAt` | user/sh.c:415-446 | the tree of the specification and the same rest of input, or its error |
| `ShellParser.Parser.ParseBlockAt` | user/sh.c:399-413 | the same for a parenthesised block |
| `ShellParser.Parser.ParsePipeAt` | user/sh.c:361-372 | the same for a pipe |
| `ShellParser.Parser.ParseLineAt` | user/sh.c:344-359 | the same for a line; parsing ends on every input |
| `ShellParser.Parser.ParseCmdAt` | user/sh.c:327-340 | the same for a whole line, leftovers being an error |
| `ShellParser.NulTerminate` | user/sh.c:449-493 | a NUL at the end of every word and no other change |
| `ShellParser.EndsOutside` | user/sh.c:449-493 | no NUL falls inside a word |
| `ShellParser.ParseAndTerminate` | user/sh.c:327-342 | afterwards every argument and file name of the tree is, as a C string, exactly its slice of the line |
| `Grep.HereStar` | user/grep.c:96-104 | a starred item matches nothing, or one more character and then itself |
| `Grep.Match` | user/grep.c:70-80 | true if and only if some substring (a prefix after a caret, up to the end before an unstarred dollar) is in the pattern's language; ends on every input |
| `Grep.MatchHere` | user/grep.c:82-94 | true if and only if such a prefix of the text exists |
| `Grep.MatchStar` | user/grep.c:96-104 | the same for a starred character followed by the rest |

## Left out

- Sleeplocks and blocking: a buffer or inode is held by whoever the contract says; waiting is a call that is not made yet.
- DurableFs.Transaction: calls inside a transaction run one at a time, and the blocks a call changed are logged when it is over instead of one by one; reads by others come between calls and anywhere in end_op.
- DurableFs.LogAll: the blocks of one call are logged in any order, each once.
- FileSystem.FileSystem.Writei: either_copyin is all or nothing, because a partly failed copy leaves unlogged bytes in a cached buffer.
- FileSystem.FileSystem.Iget: one device, and a full inode table stops the run.
- Mkfs.Mkfs.Build: running out of inodes or blocks stops the build, where the source would write outside the image; the superblock's bytes are a parameter.
- Path walking (namex, skipelem): `LinkCount` starts from the inodes that namei and nameiparent return.
- LinkCount.FileTree.Create: nlink is unbounded, where the source's is a 16-bit short.
- VirtualMemory.Memory.Kfree: the link word inside a free page is not modelled, the list is a sequence.
- VirtualMemory.Memory.UvmUnmap: a caller may ask to free only pages that the entries own, since freeing another's page is the caller's error.
- AddressSpace.Kernel.Fork: files, name and saved registers are not copied in the model; the process table's states are those of `ProcTree`.
- Exec.LoadSegment: the contents of a partly filled last page are given as a whole page; copyout of the arguments is one page write.
- The kernel's own page table (kvmmake) is not built; `kern` marks tables that own no pages.
- SleepWakeup: one lock per channel, held around test and wakeup; allocation and exit of processes are in `ProcTree`; weak memory is not modelled, lock operations are atomic.
- ProcTree: RUNNABLE, RUNNING and SLEEPING are one state; pids do not overflow.
- Virtio.Disk.Prepare: the notification register, and the order of the writes before the first barrier.
- Umalloc.Heap.Morecore: calls after one whose byte count wrapped, when sbrk's memory can lie below the last recorded block, are excluded.
- Umalloc.Heap.Malloc: likewise.
- ShellParser.Parser.ReadRedirs: returns the redirections instead of wrapping step by step, since the source's execcmd is shared and filled later.
- Running commands in the shell, and everything in grep but the matcher.
- Boot, traps, context switch assembly, UART, PLIC, PCI and VGA programming, pipes, console and message buffers, the image viewer, formatted printing and the small user commands: device code, or easier than what is here.
