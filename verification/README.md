# JOS in Dafny

JOS is a small teaching kernel with user-level libraries and a file server. This
project models the parts of it whose correctness is hardest to see from one function
at a time, and proves what they promise: page tables and reference counts,
copy-on-write `fork`, pipes, the file server's block layer and its block cache, the
K&R allocator, user-level page faults, message passing, scheduling, environment ids,
program start-up, and a few self-contained algorithms.

Code that updates objects in place is a class here, with the object's fields; the
facts its methods rest on are lemmas about immutable snapshots of those fields.
`dafny verify dfyconfig.toml` checks everything.

| file | what it covers |
|---|---|
| `Inc.dfy` | constants, error codes and environment statuses shared by all |
| `Vm.dfy`, `VmSteps.dfy` | frames, two-level page tables, `pp_ref` and the free list as one state, and what each elementary step keeps |
| `Pmap.dfy` | class `Kernel`: `kern/pmap.c`, `env_setup_vm`, `env_free`, the page system calls, `user_mem_check` |
| `Cow.dfy`, `Fork.dfy`, `ForkRuns.dfy` | copy-on-write against eager copying; `pgfault`, `duppage`, `fork`, and `dumbfork`'s `duppage` over `Kernel`; `fork` among other environments |
| `PipeClose.dfy`, `PipeFifo.dfy` | end-of-pipe detection by reference counts; the ring buffer |
| `Fs.dfy`, `FsFaults.dfy`, `FsOps.dfy` | blocks, slots and bytes of files; when the block layer panics; class `FileSystem` |
| `BlockCache.dfy` | class `Cache`: `fs/bc.c`, `fs_sync`, `file_flush` |
| `Alloc.dfy` | class `Allocator`: `kern/alloc.c` |
| `PageFault.dfy` | the kernel's frame push and the upcall's epilogue, nested to any depth |
| `EnvTable.dfy`, `Sched.dfy`, `Ipc.dfy` | environment ids and free list; round-robin scheduling; message passing |
| `Spawn.dfy` | a new program's stack page and segments |
| `StabSearch.dfy`, `NumFmt.dfy` | `stab_binsearch`; number printing against `strtol`, and `vsnprintf` |

## What the proofs turned up

Places where the code does not do what its comments or callers expect. The model
follows the code; the members named say exactly when it goes wrong.

- `user_mem_check` rounds the end of the range up with 32-bit arithmetic. A range that
  ends in the top page of memory, such as `[0xfffff000, 0xfffff010)`, or wraps past it
  is passed without a look at all of its pages (`Pmap.RangeCheckedIff`,
  `Pmap.TopRangeUnchecked`, `Pmap.WrappingRangeUnchecked`); an empty range that does
  not start on a page boundary still has its page checked (`Pmap.EmptyRangeChecked`).
- `duppage` ignores the result of mapping a read-only page, so the child can miss it
  (`Fork.DupPage`). If nothing else runs meanwhile, `fork` then fails for lack of memory
  at the child's exception stack (`Fork.Fork`); but if another environment exits in
  between, `fork` returns a child without the page (`ForkRuns.LostUnnoticed`,
  `ForkRuns.ForkGoesOn`). That is the only way to such a child
  (`ForkRuns.InterruptedFork`).
- `sys_page_alloc` accepts an unaligned address, and `sys_ipc_try_send` rejects of the
  unaligned addresses only the odd ones (`Pmap.Kernel.SysPageAlloc`,
  `Ipc.System.SysIpcTrySend`).
- `dup` never checks its second argument, and computes the two pages it maps from it
  modulo 2^32. `PipeClose.DupSafeIff` says which numbers do no harm to close detection,
  by what is mapped there. The others: a number from 32 to 63 maps the descriptor over
  a data page (`PipeClose.OutOfRangeDupMisleads`) or where one belongs
  (`PipeClose.DataPlaceLeavesShort`); one from -32 to -1 maps the data page over a
  descriptor (`PipeClose.NegativeLeavesShort`), unless it is the very one duplicated; one
  that wraps around to an open end of another pipe, or lies where such an end was put
  before, takes that end's data page away (`PipeClose.AliasLeavesShort`); and `fork`
  does not copy the pages just below UTOP (`PipeClose.ForkLeavesData`). An open end can
  then be reported closed. A number whose two pages both lie above UTOP only makes `dup` fail.
- `bc_pgfault` passes the faulting address, not its page, to `sys_page_map`, so a block
  that is not in memory can only be touched first at its first byte; reading or writing
  the middle of it panics although the disk is not full (`FsFaults.UnalignedPanics`,
  `BlockCache.Cache.UnalignedFirstTouch`). `file_flush` of a struct File that is not in
  memory always panics (`BlockCache.Cache.FileFlush`).
- `flush_block` reads the page-table entry before asking whether the page is mapped. On
  a disk of more than 1024 blocks `alloc_block`, `fs_sync` and `file_flush` panic when
  no block near the one they flush was ever in memory (`BlockCache.Cache.LargeDisk`,
  `FsOps.FileSystem.AllocBlock`).
- `file_get_block` never returns -E_NO_DISK: `alloc_block`'s error code is stored as a
  block number, and `diskaddr` panics on it. Reads of a hole allocate a block.
- `test_free`'s branch for a free block directly above changes only the freed block's
  header; its units are lost for good, exactly then (`Alloc.Allocator.TestFree`).
- The upcall's `pushl` runs on the trap-time stack with `esp` already switched. If it
  faults, the new frame overwrites the one being unwound, and the interrupted code
  resumes with the wrong registers (`PageFault.PushFaultLosesRegisters`). With a
  trap-time `esp` less than four bytes above the exception stack the pushed `eip` is
  partly overwritten, and the upcall returns to a mixture of two words
  (`PageFault.TopOfStackMisreturns`).
- `env_alloc` never returns -E_NO_FREE_ENV: `env_init` links the list in a circle, so
  with all slots in use slot 0 is handed out again (`EnvTable.Table.EnvAlloc`).
- `env_destroy` of the environment on the CPU restarts the round at slot 0. Two
  environments that start each other and exit before they are preempted keep a third
  from ever running (`Sched.ExitsStarve`).
- `sys_env_set_status` accepts ENV_FREE, and can wake an environment that waits for a
  message; its `ipc_recv` then returns a message nobody sent (`Ipc.ForcedWakeupBreaks`).
- `init_stack`'s size test is made modulo 2^32, and passes arguments that do not fit when
  the lowest address comes out below zero and wraps to above the page
  (`Spawn.TestIsRightIff`), as for a string of more than four megabytes
  (`Spawn.TestMissesHugeStrings`).
- `stab_binsearch` looks for one address more after an exact match. It can be wrong when
  an entry follows at the very next address (`StabSearch.AdjacentMisleads`): exactly when
  that entry is still in the range searched when the match comes
  (`StabSearch.AdjacentFoundIff`). With entries further apart it is wrong exactly for an
  entry at the last address (`StabSearch.SpacedFoundIff`).

## Model

| member | source | states |
|---|---|---|
| Pmap.Kernel.constructor | kern/pmap.c:279-316 | the free list first holds exactly the frames outside page 0 and the hole, and all counting invariants hold |
| Pmap.Kernel.PageFree | kern/pmap.c:351-361 | freeing a frame still referenced or already linked panics and changes nothing; otherwise the frame heads the free list |
| Pmap.Kernel.PgdirWalk | kern/pmap.c:399-429 | finds the table of a page, makes it only when asked, fails only when no frame is left, and changes no mapping and no byte of anyone; a new entry is present, writable and user |
| Pmap.Kernel.PageLookup | kern/pmap.c:516-525 | reads the plain map from page number to frame that the two-level table stands for |
| Pmap.Kernel.PageInsert | kern/pmap.c:484-500 | maps exactly one page, also over an occupied or identical mapping; fails exactly when no page table can be made, and then changes nothing; all counts stay right |
| Pmap.Kernel.PageRemove | kern/pmap.c:545-559 | removes exactly one mapping; a frame is freed when that was its last, and nothing else moves |
| Pmap.Kernel.EnvSetupVm | kern/env.c:173-206 | a new environment maps no user page; its directory is kern_pgdir above UTOP, but for the entry of UVPT, which is the directory itself, user-readable; everyone else's mappings are untouched |
| Pmap.SameAboveUtop | kern/env.c:183-203 | every kernel call keeps each directory's upper half that of kern_pgdir, so that above UTOP all address spaces are the same, except at UVPT |
| Pmap.Kernel.UvptShowsEntries | kern/env.c:201-203 | so word v of uvpt, as pgfault and fork read it, is the entry of page v |
| Pmap.Kernel.EnvFree | kern/env.c:484-534 | keeps all invariants, frees the directory, and changes no other environment's directory, tables or bytes |
| Pmap.Kernel.SysPageAlloc | kern/syscall.c:194-227 | error cases in the code's order; success installs a zeroed frame nobody mapped; failure leaves everything but the contents of a free frame |
| Pmap.Kernel.SysPageMap | kern/syscall.c:246-278 | exact error conditions, no write permission the source lacks, exactly one mapping changed on success and nothing on failure |
| Pmap.Kernel.SysPageUnmap | kern/syscall.c:288-303 | removes at most the one mapping, errors change nothing |
| Pmap.Kernel.UserMemCheck | kern/pmap.c:629-647 | succeeds exactly when every page it looks at is below ULIM and has the permissions, and otherwise names the first bad address of the range; then every page of the range has each flag asked for |
| Pmap.IncludesIff | kern/pmap.c:637 | the permission test, on the bits of the entry and of the request |
| Pmap.SyscallPermIff | kern/syscall.c:211-215 | the permissions a system call accepts, on their bits |
| Pmap.RangeCheckedIff | kern/pmap.c:632-635 | the pages of a non-empty range are all looked at exactly when the range ends below the top page of memory |
| Pmap.CheckedPagesCoverRange | kern/pmap.c:632-635 | below the top page, the pages looked at are exactly those that hold an address of the range |
| Pmap.TopRangeUnchecked | kern/pmap.c:632-635 | a range ending in the top page is not looked at at all |
| Pmap.WrappingRangeUnchecked | kern/pmap.c:632-635 | nor is one that wraps and ends below the page it starts in |
| Pmap.EmptyRangeChecked | kern/pmap.c:632-635 | an empty range has its page looked at unless it starts on a page boundary |
| VmSteps.InitialInv | kern/pmap.c:279-316 | a linked free list with no environment satisfies every invariant of frames, tables and counts |
| VmSteps.PopKeepsInv | kern/pmap.c:331-344 | taking a frame off the list keeps the list, the counts, and every mapping and mapped byte |
| VmSteps.PushKeepsInv | kern/pmap.c:351-361 | and so does giving an unreferenced one back |
| VmSteps.WalkKeepsInv | kern/pmap.c:399-429 | making a page table keeps every invariant and every mapping |
| VmSteps.RemoveKeepsInv | kern/pmap.c:545-559 | dropping one mapping keeps counts exact for every frame, and all other mappings |
| VmSteps.MapKeepsInv | kern/pmap.c:484-500 | counting first, removing the old mapping and then writing the entry keeps counts exact and adds exactly that mapping |
| VmSteps.StillCounted | kern/pmap.c:484-500 | a page inserted where it already is is not freed on the way |
| VmSteps.NewDirKeepsInv | kern/env.c:173-206 | adding a page directory keeps counts exact and all mappings |
| VmSteps.DropTableKeepsInv | kern/env.c:503-525 | giving back an emptied page table keeps counts exact and every mapping outside it |
| VmSteps.DropDirKeepsInv | kern/env.c:526-534 | giving back an emptied directory keeps counts exact and all other environments' mappings |
| VmSteps.ReleasingKeepsOthers | kern/env.c:484-534 | while an environment is torn down every other one's mappings stay |
| VmSteps.FreedExactly | kern/env.c:484-534 | env_free gives back exactly the directory, the tables, and the data frames no other environment maps |
| VmSteps.DataIsMapped | kern/pmap.c:484-559 | no frame leaks: every data frame in use is mapped by someone |
| VmSteps.RefCountsMappings | kern/pmap.c:484-559 | pp_ref of a data frame is the number of page-table entries, over all environments, that map it |
| Cow.StepKeepsInv | lib/fork.c:14-80 | every step keeps a writable, not shared mapping the only mapping of its frame, and shared frames shared by all |
| Cow.MapKeepsInvIff | kern/syscall.c:246-278 | mapping a page once more keeps that exactly when all who map the frame agree on sharing it or none may write it |
| Cow.FaultAgrees | lib/fork.c:15-51 | resolving a write fault changes nothing an eager copy would show |
| Cow.DupAgrees | lib/fork.c:65-80 | duppage's lazy sharing looks like an eager copy to both sides |
| Cow.DupPermBits | lib/fork.c:69-79 | the bits duppage gives the child and leaves the parent, for every entry |
| Cow.StepRefines | lib/fork.c:14-128 | whatever a copy-on-write step does or reads, eager copying allows, and both still agree on every page |
| Cow.RunRefines | lib/fork.c:14-128 | over any run of any environments every load returns what eager copying would give |
| Fork.KernelRunRefines | kern/syscall.c:194-303 | the same over runs of the kernel's own states: loads, stores, faults, forks, page calls that keep sharing consistent, and exits |
| Fork.KernelStepIsStep | kern/syscall.c:194-303 | each kernel call, or pgfault's and duppage's sequence of them, as the methods promise them, is the step the refinement is about |
| Fork.ExitStep | kern/env.c:484-534 | tearing down an address space removes that environment's pages from view and nothing else |
| Fork.PgFault | lib/fork.c:15-51 | handles a fault exactly when it is a write to a copy-on-write page and memory suffices; then the page is writable in a frame of its own with the same bytes, and no one else sees a change |
| Fork.DupPage | lib/fork.c:65-80 | one page shared lazily as Dup; the exact conditions of failure and of an unnoticed loss |
| Fork.CopyPages | lib/fork.c:114-117 | with memory left, the loop has copied exactly the pages below address 0xee7fe000 that the parent maps with PTE_U |
| Fork.Fork | lib/fork.c:99-128 | with nothing else running: on success the child maps below 0xee7fe000 what the parent maps there with PTE_U, reads the parent's bytes from it, and above it has only a writable page of zeros at 0xee7ff000; it is the eager copy, and no one else's memory changed; failure only with fewer than two free frames |
| ForkRuns.InterruptedFork | lib/fork.c:99-128 | among any calls of other environments: the child has what copying each page in its round would give exactly when no round met a read-only page with neither a free frame nor a page table of the child's |
| ForkRuns.BothGo | lib/fork.c:65-80 | a machine that copies eagerly and loses nothing can do whatever the kernel does, and has all its pages |
| ForkRuns.LostUnnoticed | lib/fork.c:65-80 | a run in which that happens, another environment exits, and fork's last call succeeds |
| ForkRuns.ForkGoesOn | lib/fork.c:114-120 | and the calls do go that way, from any such state |
| Fork.DumbDupPage | user/dumbfork.c:26-38 | the eager copy: a frame of the child's own with the parent's bytes |
| Fork.EagerIsDup | user/dumbfork.c:26-38 | which is, in the abstract state, the step copy-on-write takes |
| Fork.RefIsUsers | lib/pageref.c:4-14 | what pageref returns is the number of pages, of all processes, that map the frame |
| PipeClose.NextKeepsInv | lib/fd.c:101-200 | close and dup, at any interleaving of their system calls, keep the data page mapped next to every mapped end |
| PipeClose.EndsBounded | lib/pipe.c:76-89 | references to the pipe's data page are at least those to both its ends together |
| PipeClose.ClosedIsClosed | lib/pipe.c:76-89 | when _pipeisclosed returns true no process maps the other end |
| PipeClose.StaysClosed | lib/fd.c:174-200 | and no step can map it again |
| PipeClose.CloseDetectionIsSound | lib/pipe.c:76-89 | in any run, from the moment _pipeisclosed says so, nobody ever maps the other end |
| PipeClose.CheckIsExact | lib/pipe.c:76-89 | with no close or dup half done it says so exactly when the other end is gone |
| PipeClose.RunKeepsPaired | lib/fd.c:101-200 | a data page is mapped only next to an end, but for the one call in progress |
| PipeClose.DupSafeIff | lib/fd.c:174-200 | dup onto a number that is no descriptor's keeps the data page mapped next to every mapped end, whether its calls fail or not, exactly when the slot is safe |
| PipeClose.SlotAddress | lib/fd.c:13-16 | where the macros' 32-bit arithmetic puts any number, and which places system calls and fork reach |
| PipeClose.AliasLeavesShort | lib/fd.c:174-200 | a number that wraps to another pipe's open end leaves that pipe a data page short |
| PipeClose.NegativeLeavesShort | lib/fd.c:174-200 | so does one from -32 to -1, once the descriptor it overwrote is closed |
| PipeClose.DataPlaceLeavesShort | lib/fd.c:174-200 | and one from 32 to 63 over no data page, once the descriptor below is duplicated |
| PipeClose.ForkLeavesData | lib/fork.c:114-117 | an end just below USTACKTOP is copied by fork without its data page |
| PipeClose.ShortMisleads | lib/pipe.c:76-89 | in a pipe a data page short an end is reported closed exactly when it is mapped once |
| PipeClose.OutOfRangeDupMisleads | lib/fd.c:174-200 | a run in which dup to 32 + j makes an open end look closed, for every j that is an end |
| PipeFifo.ReaderKeepsInv | lib/pipe.c:105-137 | each load and store of the reader keeps the buffer's unread bytes and their order |
| PipeFifo.WriterKeepsInv | lib/pipe.c:140-172 | and each of the writer's |
| PipeFifo.DeliversInOrder | lib/pipe.c:105-172 | under any interleaving the bytes delivered are a prefix of those sent, at most 32 behind |
| PipeFifo.NeverOverwrites | lib/pipe.c:140-172 | no store lands on a byte sent and not yet delivered |
| PipeFifo.WaitsIff | lib/pipe.c:105-172 | a side goes back to waiting exactly when the buffer was full, or empty, by what its test loaded |
| PipeFifo.WriterRound | lib/pipe.c:140-172 | with the reader at rest one round of the writer's loop sends its byte when there is room, and otherwise changes nothing |
| PipeFifo.ReaderRound | lib/pipe.c:105-137 | and one of the reader's delivers the oldest byte when there is one |
| PipeFifo.Pipe.Read | lib/pipe.c:105-137 | returns the oldest waiting bytes, as many as asked for or there are, and leaves the rest |
| PipeFifo.Pipe.Write | lib/pipe.c:140-172 | appends as much as fits behind the waiting bytes |
| Fs.TakeKeeps | fs/fs.c:58-76 | a free block moving into an empty slot keeps each block in one place and loses none |
| Fs.GiveKeeps | fs/fs.c:411-423 | and so does giving it back |
| Fs.GaveBlockGrows | fs/fs.c:177-191 | filling a slot changes no backed byte of any file |
| Fs.GaveIndirectGrows | fs/fs.c:144-166 | nor does adding an indirect block |
| Fs.GrownTails | fs/fs.c:177-191 | slots past every file's block count stay empty |
| Fs.PatchedContent | fs/fs.c:385-406 | bytes stored in a file's block show up at that place of the file, and nowhere else in it |
| Fs.PatchedOthers | fs/fs.c:385-406 | nor in any other file |
| Fs.WroteMore | fs/fs.c:395-403 | a further block's worth of written bytes extends what the file is known to hold |
| Fs.TruncatedFrom | fs/fs.c:435-450 | after truncation the file's content is its old content below the new end |
| Fs.TruncatedResized | fs/fs.c:454-461 | and the tail past the new size is empty |
| Fs.HoldsOne | fs/fs.c:356-406 | reading a range after writing it gives exactly what was written |
| FsFaults.BackedPanics | fs/fs.c:356-406 | on a range that has all its blocks, reading or writing panics exactly when a block not in memory is entered past its first byte or finds no memory |
| FsFaults.ReadyPanics | fs/fs.c:356-406 | with everything else in place it panics exactly when the blocks the range lacks outnumber the free ones |
| FsFaults.UnalignedPanics | fs/bc.c:54-61 | reading one byte inside a block not in memory panics |
| FsOps.FileSystem.Touch | fs/bc.c:30-68 | the exact condition under which an access to a block panics |
| FsOps.FileSystem.AllocBlock | fs/fs.c:58-76 | takes exactly the lowest free block, and panics exactly when that is block 0 or its page table is missing |
| FsOps.FileSystem.FileBlockWalk | fs/fs.c:144-166 | finds the slot of a block, adding an indirect block only when asked; exact errors and panics |
| FsOps.FileSystem.FileGetBlock | fs/fs.c:177-191 | backs any block of a file; exact panic condition; never -E_NO_DISK |
| FsOps.FileSystem.FileRead | fs/fs.c:356-377 | returns what the file holds, clipped to its size, keeps every backed byte of every file, and panics exactly as RangePanics says |
| FsOps.FileSystem.FileWrite | fs/fs.c:385-406 | then holds exactly the bytes written, has the larger size, and changed no other backed byte of any file; the same exact panic condition |
| FsOps.FileSystem.FileFreeBlock | fs/fs.c:411-423 | gives back exactly one block |
| FsOps.FileSystem.FileTruncateBlocks | fs/fs.c:435-450 | gives back exactly the blocks past the new size, and the indirect block when it has no more use; panics exactly when it cannot read its first slot there |
| FsOps.FileSystem.FileSetSize | fs/fs.c:454-461 | content is cut at the new size or kept; free plus owned blocks stay the same set |
| BlockCache.Cache.constructor | fs/fs.c:106-124 | after start-up the super-block and the first bitmap block are in memory, clean, and nothing else |
| BlockCache.Cache.BcPgfault | fs/bc.c:30-68 | reads a block in without changing any block's logical content; the exact panic condition |
| BlockCache.Cache.Store | fs/bc.c:30-68 | a store changes the logical content of one byte of one block |
| BlockCache.Cache.FlushBlock | fs/bc.c:78-94 | writes a dirty block back and marks it clean, changes no other block and no logical content, and panics exactly without a page table |
| BlockCache.Cache.FsSync | fs/fs.c:487-492 | every block from 1 on is then on disk, and none in memory is dirty; panics exactly when some block's page table is missing |
| BlockCache.Cache.TouchReaches | fs/bc.c:30-68 | an access panics by the very condition the file operations are stated with |
| BlockCache.Cache.FileFlush | fs/fs.c:468-482 | every block the bytes of the struct File and its indirect block name, the indirect block and the struct File's own block are on disk; exact panic condition |
| BlockCache.Cache.FlushedFile | fs/fs.c:468-482 | these are all blocks of the file those bytes spell out |
| BlockCache.Cache.FieldsAre | inc/fs.h:29-42 | the fields are read where struct File, laid out field by field, has them |
| BlockCache.Cache.UnalignedFirstTouch | fs/bc.c:54-61 | right after start-up no block past the first bitmap block can be entered past its first byte |
| BlockCache.Cache.LargeDisk | fs/bc.c:78-94 | nor can a disk of more than 1024 blocks be synced |
| BlockCache.Cache.SmallDisk | fs/bc.c:78-94 | while with up to 1024 blocks one block in memory is enough |
| Alloc.UnitsSuffice | kern/alloc.c:39 | a block has room for the request behind its header, and not a unit more than needed |
| Alloc.TookWholeKeepsInv | kern/alloc.c:53-55 | unlinking a block keeps the list cyclic, doubly linked and in address order, and blocks disjoint |
| Alloc.TookTailKeepsInv | kern/alloc.c:56-59 | so does carving off a tail |
| Alloc.InsertedKeepsInv | kern/alloc.c:88-93 | so does linking a freed block in |
| Alloc.JoinedLowerKeepsInv | kern/alloc.c:86-87 | so does joining it to the block below |
| Alloc.LostKeepsInv | kern/alloc.c:82-85 | and so does the branch that loses the block |
| Alloc.PayloadWriteKeepsInv | kern/alloc.c:33-69 | callers may write anything behind the header of a block they hold |
| Alloc.Allocator.CheckList | kern/alloc.c:16-29 | never finds the list corrupted, and ends |
| Alloc.Allocator.TestAlloc | kern/alloc.c:33-69 | returns NULL exactly when no free block is large enough; otherwise hands out the units at the end of the first one after freep that is, no others change hands, and free blocks stay joined |
| Alloc.Allocator.TestFree | kern/alloc.c:73-98 | the block's units become free and are joined to those next to them, except that they are lost exactly when the block directly above is free |
| Alloc.Allocator.FindPredecessor | kern/alloc.c:79-81 | the search ends, at the last list member below the block |
| PageFault.EpilogueRestores | lib/pfentry.S:68-91 | the epilogue restores every register, eip, eflags and esp, and writes only two words |
| PageFault.SlotOutsideIff | kern/trap.c:371-374 | the frame overlaps the reserved word only for an esp within four bytes above the exception stack |
| PageFault.KeepsAbove | kern/trap.c:368-388 | nested to any depth, no frame overlaps another or a reserved word |
| PageFault.KeepsOutside | lib/pfentry.S:33-91 | outside the exception stack only the handlers' own stores change memory |
| PageFault.HandlerSees | kern/trap.c:371-387 | the handler starts with the address of the frame as its argument, and finds in it, at the offsets of struct UTrapframe, the faulting address, the error code and every register |
| PageFault.FaultReturnIsIdentity | lib/pfentry.S:33-91 | fault and return are the identity on the processor state, however deeply the handler faults |
| PageFault.PushFaultLosesRegisters | lib/pfentry.S:68-72 | unless the push itself faults: then two registers and the flags are wrong |
| PageFault.TopOfStackMisreturns | lib/pfentry.S:68-91 | with esp less than four bytes above the exception stack all but the return address is restored, which becomes a mixture of two words |
| EnvTable.NextIdIs | kern/env.c:232-236 | the id arithmetic steps the generation and wraps after 2^19 - 1 |
| EnvTable.SameIdIff | kern/env.c:232-236 | two allocations of a slot give the same id exactly when 2^19 - 1 divides their distance |
| EnvTable.Table.constructor | kern/env.c:126-139 | all slots are free, in order |
| EnvTable.Table.EnvAlloc | kern/env.c:217-292 | hands out the head of the free slots while there is one, with the slot's next id, and slot 0 in use once there is none; no other slot and not curenv changes |
| EnvTable.Table.EnvFree | kern/env.c:531-533 | the slot heads the free list |
| EnvTable.Table.Envid2env | kern/env.c:84-117 | resolves exactly 0 and the current id of a slot in use, and with checkperm only the caller's own and its children's |
| EnvTable.Table.StaleIdRejected | kern/env.c:98-104 | an old id of a slot is rejected until the slot has been allocated a multiple of 2^19 - 1 times more |
| EnvTable.Table.LiveIdsDistinct | kern/env.c:232-236 | live ids are positive, distinct and carry their slot |
| Sched.Cpu.EnvRun | kern/env.c:638-671 | the environment run is the only one RUNNING |
| Sched.Cpu.SchedYield | kern/sched.c:12-43 | runs the first runnable environment after the current one, else the current one, else halts; the one preempted is runnable again, and no other status changes |
| Sched.Cpu.YieldUntil | kern/sched.c:12-43 | called again and again, it is back at the environment it preempted within NENV calls, at any other that can run within as many calls as it is slots ahead |
| Sched.Cpu.EnvDestroy | kern/env.c:542-561 | a destroyed environment never runs on, another one runs if it had the CPU, and no other status changes |
| Sched.Cpu.BlockCaller | kern/syscall.c:389-404 | the caller is not runnable, another one runs, and no other status changes |
| Sched.CloserToItsTurn | kern/sched.c:12-43 | an environment that can go on and is passed over is strictly closer to its turn, and can still go on |
| Sched.RunsInTurn | kern/sched.c:12-43 | one that can go on, and that nobody stops meanwhile, is run within NENV calls, the one preempted by the first call included |
| Sched.ExitsStarve | kern/env.c:542-561 | environments that start each other and exit in turn are scheduled for ever while a third one waits |
| Ipc.SendKeepsStep | kern/syscall.c:344-376 | a successful send adds one message, sender, value and permission, the next to be received |
| Ipc.RecvKeepsStep | kern/syscall.c:389-404 | a blocked receiver has no message pending and cannot run |
| Ipc.FinishKeepsStep | lib/ipc.c:23-36 | a receive returns the oldest message not yet received |
| Ipc.StatusKeepsStepIff | kern/syscall.c:107-128 | a change of status keeps that exactly when it does not make a blocked receiver runnable |
| Ipc.ForcedWakeupBreaks | kern/syscall.c:107-128 | a receiver woken that way returns a message nobody sent |
| Ipc.System.SysIpcTrySend | kern/syscall.c:344-376 | the exact condition of each error; else the receiver is runnable and holds sender, value and the page's permission, or none, and has the page; failure leaves the receiver and all memory untouched |
| Ipc.System.SysIpcRecv | kern/syscall.c:389-404 | blocks the caller with the address to map at, or UTOP for none; or rejects an unaligned address and changes nothing |
| Ipc.System.FinishRecv | lib/ipc.c:23-36 | the i-th completed receive returns sender, value and permission of the i-th successful send |
| Ipc.System.SysEnvSetStatus | kern/syscall.c:107-128 | keeps deliveries in step exactly unless it makes a blocked receiver runnable |
| Spawn.InitStack | lib/spawn.c:186-260 | fails without touching the page exactly when the layout does not fit or no page is left; otherwise the child, with the page at 0xee7fd000, reads back argc and every argument string |
| Spawn.TestIsRightIff | lib/spawn.c:211-212 | for any arguments the size test is right exactly when the lowest address is not negative, or wraps to below the page |
| Spawn.CutToWord | lib/spawn.c:192-212 | cutting every sum to 32 bits changes neither the test nor the addresses of arguments that fit |
| Spawn.TestMissesHugeStrings | lib/spawn.c:211-212 | one string of more than four megabytes passes it |
| Spawn.ReadsBack | lib/spawn.c:235-246 | strings, pointers and the three last words do not overlap |
| Spawn.Child.MapSegment | lib/spawn.c:263-296 | every byte of the segment is the file's up to filesz and zero up to memsz, also for unaligned segments; other pages stay; it takes one page for each it spans, and fails exactly when there are fewer |
| StabSearch.StabBinsearch | kern/kdebug.c:60-103 | ends on every input, finds the last entry at or below the address in a findable table, and reports an empty region when there is no entry of the type |
| StabSearch.SearchFinds | kern/kdebug.c:60-103 | the region is that entry up to just before the next one of the type, whatever else is mixed in |
| StabSearch.SpacedFoundIff | kern/kdebug.c:60-103 | with entries two apart it is right exactly unless the entry is at the last address |
| StabSearch.AdjacentFoundIff | kern/kdebug.c:60-103 | an entry followed by one at the next address is found exactly when that one is out of the range when the match comes |
| StabSearch.AdjacentMisleads | kern/kdebug.c:60-103 | with entries one apart it can end at the wrong one |
| NumFmt.Printnum | lib/printfmt.c:45-59 | prints the digits right-aligned, as many characters as the larger of width and digits |
| NumFmt.PrintThenParse | lib/string.c:238-282 | strtol reads back any number a long holds, whole, for base 8, 10 or 16, any width, blanks or zeros |
| NumFmt.SignedThenParse | lib/string.c:238-282 | it reads back any number after blanks, with either sign or none, in the base given or told by a 0x or 0 prefix, and stops at its end |
| NumFmt.Strtol | lib/string.c:238-282 | reads a number printed in its base whole, and parses any string as blanks, sign, prefix and digits |
| NumFmt.Vsnprintf | lib/printfmt.c:279-293 | stores the first n - 1 characters and a terminator, touches nothing past it, and returns the full length |

## Left out

- Frames are indices and a page's table entries and user bytes are two sequences; that
  both are views of one frame's memory is kept by typing every frame, not by aliasing.
- Pmap.Kernel.PageInsert: the caller keeps a frame below 2^16 - 1 mappings; the wrap of the
  16-bit `pp_ref` beyond that is not followed further.
- Pmap.IncludesIff: the bits outside PTE_SYSCALL are one flag here; a request with several of them, which
  no caller makes, is not told apart by bit.
- The TLB, `cr3`, and the accessed and dirty bits of entries in the kernel's tables.
- env_runs counts without wrap-around.
- Pmap.Kernel.EnvSetupVm: a slot that still has a page directory, which `env_alloc` hands out once
  all slots are in use; the old directory is then lost.
- Fork.Fork: environments are slots already resolved by `envid2env`; setting the upcall,
  copying the trap frame and making the child runnable are not steps of it. It takes its
  calls together; ForkRuns lets others in between.
- ForkRuns.InterruptedFork: the one or two calls of a duppage and the four of a write fault
  are taken together, as one event; a round reads the page table at its call.
- Fork.KernelRunRefines: mappings that would make a private page writable to two are no events
  (Cow.MapKeepsInvIff), and page transfer by message passing is a mapping like any other.
- PipeClose.CloseDetectionIsSound: `pipe`, `fork` and descriptor opening are single steps, as is
  process exit; runs with a `dup` onto an unsafe number are excluded, as are numbers that
  hit the process's own code, data or stack.
- PipeFifo.DeliversInOrder: positions stay below 2^31.
- FsOps.FileSystem: `files` are regular files whose struct Files are in memory, as are the
  bitmap blocks, of which `fs_init` reads the first (32768 blocks); sizes and offsets are
  not negative; disks have fewer than 2^17 blocks, so the bound in `alloc_block` does not
  wrap.
- What a hole reads as, and the durability of the bitmap before `fs_sync`: the code promises
  nothing about either.
- FsOps keeps logical contents and which blocks are in memory; the cached bytes are
  `BlockCache.Cache`'s.
- BlockCache.Cache.constructor: a bitmap that marks a reserved block free fails the assertions of
  `check_bitmap`, and fewer than three blocks those of `diskaddr`.
- The spin lock in `kern/alloc.c`, and multiple processors.
- Alloc.Allocator.TestAlloc: units lost by `test_free` stay lost, so free and allocated units together can
  fall below the arena.
- PageFault.FaultReturnIsIdentity: an esp below 4, whose word below wraps into the kernel's
  memory, and one at most three bytes above the exception stack
  (`PageFault.TopOfStackMisreturns`); whether memory above that stack may be written at
  all. Handlers are trees of stores, register changes and faults that return with the
  stack as they found it; the check of that stack's mapping is not a step.
- Sched.RunsInTurn: the environment on the processor is not destroyed between the calls
  (Sched.ExitsStarve).
- `sched_halt`'s loop, interrupts, and the monitor.
- Ipc: the retry loop of `ipc_send`; environments are slots.
- Spawn.InitStack: mapping the finished page into the child; arguments on which the size test is wrong
  (Spawn.TestRight) would be written outside the page.
- Spawn.Child.MapSegment: the page calls are a budget of pages; a file offset smaller than the address's offset
  in its page, for which `seek` gets a negative position, is not considered.
- `spawn`'s reading of the ELF headers and `copy_shared_pages`.
- NumFmt.Vsnprintf: what `vprintfmt` makes of a format is a parameter.
- Directories and path names, the file server's request loop, the remaining library calls.
- Devices, ports, boot, segment and interrupt tables, the console.
