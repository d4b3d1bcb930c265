# Kernel data structures

A Dafny model of the data-structure layers of a small aarch64 kernel, with proofs of what
those layers promise each other: the buddy page allocator, the slab caches inside its pages,
path resolution with mounts over tmpfs, tmpfs file contents, the scheduler queues, the timer
list, and the two walkers that read a flattened device tree and a cpio archive.

`dafny verify dfyconfig.toml` checks everything.

## How it is built

Code that updates state in place is modelled in place: classes whose methods follow the
branches and loops of the C functions (`Allocator`, `KmemCaches`, `Vfs`, `Node` and `Handle`,
`Scheduler`, `TimerList`), and methods with loops for the walkers.  Each method is proved to
compute a function on an abstract value (a tiling of the pages, a table of vnodes, a state
machine, a list, a byte sequence), and the laws of the system are lemmas about those values,
over every run.

| file | contents |
|---|---|
| `Bits.dfy`, `Sequences.dfy` | powers of two, shifts, `&` and `^` on unsigned numbers, aligned windows; sequences without repetition |
| `Tiles.dfy`, `Carving.dfy`, `PageRuns.dfy` | the buddy allocator as a tiling: alloc, free, reserve, and whole runs |
| `FreeLists.dfy`, `PageTable.dfy`, `PageAllocator.dfy` | the free lists and the page table updated in place, and their agreement with the tiling |
| `Slab.dfy` | four chunk classes inside buddy pages, and the dispatch of `free` |
| `Paths.dfy`, `Namespace.dfy`, `Visible.dfy` | the tokenizer, one step of a walk, walks, and the law of `..` |
| `FsUpdates.dfy`, `Mounting.dfy`, `FsRuns.dfy` | create, mkdir and mount, what they do to every path, and runs from boot |
| `VirtualFileSystem.dfy` | the operations on a mutable vnode table |
| `TmpfsFile.dfy` | file contents that grow by doubling, and handles |
| `SchedMachine.dfy`, `ThreadFates.dfy`, `Waiting.dfy` | the scheduler as a state machine, what becomes of each thread, and the exact bound on waiting |
| `Scheduler.dfy` | the linked queues that implement it |
| `Timers.dfy` | the sorted timer list and one pass of the interrupt handler |
| `Words.dfy`, `FlattenedTree.dfy`, `Cpio.dfy` | byte order, rounding, hexadecimal fields, and the two binary formats |

## What the code does that a reader may not expect

- A block that reaches the top order in `_free` ends on no list (`src/mm.c:230`, `277-286`).
  The model has a kind `OffList` for it; the alloc/free round trip holds exactly when the block
  taken had an order below the top (`Tiles.AllocFreeRoundTrip`), so the first block taken after
  `mm_init` does not come back (`Tiles.FirstBlockLost`), in no continuation
  (`PageRuns.WindowLost`).
- `memory_start` is 0, so the block at page 0 has the address that means failure.  `_alloc`
  answers null if and only if, before the call, no aligned window of the size is free or page 0
  is the first block of the lowest non-empty list (`PageAllocator.NullIff`); an instance is
  `PageAllocator.PageZeroLooksLikeFailure`, and the reservation of page 0 in `src/main.c:489`
  removes the clash for good (`PageAllocator.NullMeansNoWindow`).
- `_free` cannot tell a reserved block from an allocated one, and gives it back.
- `request_page` cuts one chunk fewer from its page than `kmem_cache_init` does
  (`src/alloc.c:90`, `114`); the count of created chunks follows the code.
- A mount on a path that passes through a child of its own target, such as `/a/b/..`, succeeds,
  and the same path is then ENOENT (`Mounting.MountedPathResolves`, `Mounting.MountThroughChild`;
  a reachable instance is `FsRuns.MountThroughChildIsLost`).
- A thread whose current directory is covered by a later mount, or lies below the mount, keeps it:
  it finds no names in the covered directory any more, and `..` from below leads to the covered
  vnode and not to the new root (`Mounting.MountHidesAndIsolates`).  What is created from a
  covered directory is not found by its own path (`FsUpdates.NewPathResolves`).
- The doubling loop of `tmpfs_write` ends exactly when the 64-bit requirement is at most 2^63
  (`TmpfsFile.DoublingEndsIff`).  For a position plus length above 2^63 and below 2^64 it never
  ends; from 2^64 on the sum wraps below the position, the growing part is skipped and the copy
  runs past the buffer.  So a write is right exactly when position plus length is at most 2^63
  (`TmpfsFile.WriteSafeIff`).  `alloc` takes 32 bits, and a capacity that would be cut is cut to
  0, so no buffer is smaller than its capacity (`TmpfsFile.CapacityNotCut`).  A read stays inside
  the file exactly when position plus length does not wrap at 2^64 (`TmpfsFile.ReadFitsIff`).
- A program launched by `_exec` becomes current while it is still in the ready queue.  A ready
  thread that is not current is bounded in its waiting if and only if the current thread is not
  queued ahead of it, and then the least bound is its position plus one calls of `schedule`
  (`Waiting.BoundedWaitingIff`); a launch, a creation and a kill reach the other case
  (`Waiting.LaunchedGetsAhead`).
- A launch loses the launching thread for good unless that thread is itself in the ready queue
  (`SchedMachine.LaunchAccountsIff`, `SchedMachine.LostForever`); the first launch after
  `sched_init` loses the idle task (`SchedMachine.FirstLaunchLoses`).
- `core_timer_handler` sets the interrupt again only if a timer fired: a call that comes before
  the first timer is due leaves the interrupt disabled with timers waiting.  After a pass the
  interrupt is set for the head of the list exactly when something fired or the list is empty
  (`Timers.TimerList.Handle`).
- A re-armed timer is due again in the same pass exactly when its period is zero, which for
  `keep_schedule` means a counter below 256 Hz, and the counter stood still
  (`Timers.RearmedDueIff`).  While it stands still, a pass with such a timer due never ends, and
  any other ends after as many rounds as timers are due (`Timers.StillPass`).  Below 256 Hz, with a
  counter that advances between readings, a pass ends and fires as it does above
  (`Timers.TimerList.Handle`).

## Model

| member | source | states |
|---|---|---|
| Bits.MaskLow | src/mm.c:340 | `idx & ((1 << k) - 1)` is the distance of `idx` from the start of its aligned window |
| Bits.MaskHigh | src/utils.c:100 | `p & ~((1 << k) - 1)` in a w-bit register is the start of the order-k window of `p` |
| Bits.XorBit | src/mm.c:26-28 | `p ^ (1 << k)` adds or subtracts 2^k according to bit k of `p`, for all `p` and `k` |
| Bits.WindowsNest | src/mm.c:303-321 | two aligned windows that share a page are nested |
| Tiles.InitialInv | src/mm.c:146-170 | after `mm_init` the aligned top-order blocks tile the page array, all are free, and no two free buddies exist |
| Tiles.SplitTiled | src/mm.c:303-321 | halving a block keeps the tiling: blocks stay aligned, in range, and cover exactly their own pages |
| Tiles.WindowCovered | src/mm.c:172-212 | with no two free buddies, an aligned window of 2^k free pages lies inside one free block of order at least k |
| Tiles.FreeBlocksCanonical | src/mm.c:214-287 | under the coalescing invariant the free blocks are determined by the free pages alone |
| Tiles.TakeEffect | src/mm.c:172-212 | `_alloc` takes exactly the 2^k pages of the returned block from the free pages, changes no other block, and keeps tiling and coalescing |
| Tiles.XorIsBuddy | src/mm.c:26-28 | for an aligned index the XOR is the other half of the window one order up |
| Tiles.BuddyHalves | src/mm.c:26-28 | below the top order the buddy is inside the page array, aligned, and the buddy of the buddy is the block itself |
| Tiles.UnmergedIsBlocked | src/mm.c:230-287 | when the merging loop stops below the top, some page of the surrounding top-order window is not free |
| Tiles.MergeEffect | src/mm.c:214-287 | `_free` frees exactly the pages of the block, or takes the whole top-order window off the lists when the rest of it was free; held blocks are untouched and the coalescing invariant holds |
| Tiles.AllocFreeRoundTrip | src/mm.c:184-286 | `_alloc` then `_free` of the same block restores every block if and only if the block taken had an order below the top |
| Tiles.FirstBlockLost | src/mm.c:146-286 | so right after `mm_init`, for any number of blocks and any request, it does not |
| Carving.CutEffect | src/mm.c:303-321 | one test of the splitting loop leaves the page in a smaller block, moves no page to another holder, and leaves free buddies only around the ends of the interval |
| Carving.CarveEffect | src/mm.c:339-381 | the loop ends with both ends of the interval in blocks of one page |
| Carving.SameSide | src/mm.c:384-393 | then no block straddles an end of the interval |
| Carving.MarkInv | src/mm.c:384-393 | taking the blocks of the interval restores the coalescing invariant that the splitting loop broke |
| Carving.ReserveExact | src/mm.c:323-396 | `reserve` removes exactly the pages of its interval from the free pages, leaves every held block as it was, and keeps tiling and coalescing |
| PageRuns.StepInv | src/mm.c:172-396 | every `_alloc`, refusal, `_free` and `reserve` keeps the tiling and the coalescing invariant |
| PageRuns.Reached | src/mm.c:146-396 | in every run from `mm_init` the pages are tiled by aligned blocks without free buddies below the top |
| PageRuns.NoFitIffNoWindow | src/mm.c:172-212 | under the invariant, a free block of order at least k exists if and only if some aligned window of 2^k pages is entirely free |
| PageRuns.RefusedIffNoWindow | src/mm.c:172-212 | so in every run a request of order k is refused if and only if no aligned window of 2^k pages is entirely free |
| PageRuns.StepFrame | src/mm.c:172-396 | no step changes a reserved or off-list page or another live block, and an allocated block consists of pages that were free |
| PageRuns.GoneForever | src/mm.c:172-396 | a page that was reserved or went off the lists keeps its block through every continuation of the run |
| PageRuns.AllocAvoidsGone | src/mm.c:172-212 | no later `_alloc` returns a block that touches such a page |
| PageRuns.WindowLost | src/mm.c:230-287 | a top-order window whose last held block is given back is off the lists in every continuation |
| PageRuns.PagesConserved | src/mm.c:3-4 | free, live, reserved and off-list pages add up to all pages |
| PageRuns.AllocMovesPages | src/mm.c:172-212 | in every run `_alloc` moves exactly 2^k pages from free to live and changes no other total |
| PageRuns.ReserveMovesPages | src/mm.c:323-396 | in every run `reserve` moves exactly the pages of its interval from free to reserved |
| PageRuns.FreeMovesPages | src/mm.c:214-287 | in every run `_free` moves 2^k pages from live to free, or 2^top - 2^k further pages from free off the lists when the window becomes whole |
| FreeLists.ShapePush | src/mm.c:109-124 | linking in front keeps every list doubly linked, acyclic and disjoint from the others |
| FreeLists.ShapeRemove | src/mm.c:126-144 | unlinking an element anywhere does too, and the list is the old one without it |
| PageTable.MembersPush | src/mm.c:190-203 | after a listing, each list again holds exactly the heads of free blocks of its order |
| PageTable.MembersRemove | src/mm.c:126-144 | after an unlisting likewise |
| PageTable.AgreeSplit | src/mm.c:190-198 | after a split the table describes the new tiling, and pages inside blocks have no entry |
| PageTable.AgreeMerge | src/mm.c:251-273 | after a merge likewise, whatever the absorbed head held before |
| PageAllocator.Round | src/mm.c:9-14 | the least multiple of the page size that is not below the size |
| PageAllocator.GetOrder | src/mm.c:17-24 | the least order whose blocks hold the size |
| PageAllocator.Allocator.constructor | src/mm.c:146-170 | lists, table and tags describe the initial tiling, and the top list runs from the last block to the first |
| PageAllocator.Allocator.AddToFreeList | src/mm.c:109-124 | the list gets the page in front; bad arguments change nothing |
| PageAllocator.Allocator.RmFromFreeList | src/mm.c:126-144 | the list loses exactly that page and only links change |
| PageAllocator.Allocator.TakeFrom | src/mm.c:185-208 | unlisting and splitting the first block of a list is the step `Take` on the tiling, with lists and table in agreement; each lower list gets one upper half in front |
| PageAllocator.Allocator.AllocPages | src/mm.c:172-212 | for every size: refused sizes change nothing, others take a best-fitting block, the first on its list, or nothing; every list keeps its order; null if and only if, before the call, no window of the size is free or page 0 is first in line |
| PageAllocator.Allocator.FreePages | src/mm.c:214-301 | null, out-of-range pointers, free blocks and blocks off the lists: nothing changes, not even the table; a live block is given back as the step of the run model says, and a reserved one as if it were live; every list keeps its order, but for one block gone or one new in front |
| PageAllocator.Allocator.CoalesceFrom | src/mm.c:225-287 | the climbing loop computes `Merge` and ends with all invariants of lists and table; a block off the lists is left as it is |
| PageAllocator.Allocator.FindBuddy | src/mm.c:26-28 | the XOR computes the buddy |
| PageAllocator.Allocator.SplitBlock | src/mm.c:303-321 | `split` replaces a free block by its two free halves in front of the next lower list, the upper one first |
| PageAllocator.Allocator.CarveEnds | src/mm.c:339-381 | the loop over orders computes `Carve`, also when both ends share a window |
| PageAllocator.Allocator.ReservePages | src/mm.c:323-396 | `reserve` of an address range of free pages is the reserving step of the run model |
| PageAllocator.BuddyTest | src/mm.c:242 | the merge test succeeds if and only if the buddy is a free block of the same order, whatever stale orders the table holds |
| PageAllocator.BestFromFirstList | src/mm.c:184-186 | the head of the lowest non-empty list is a best fit among all free blocks |
| PageAllocator.NullIff | src/mm.c:184-211 | the answer is null if and only if, before the call, no aligned window of the size is free or the lowest non-empty list from that order up starts with page 0 |
| PageAllocator.NullMeansNoWindow | src/main.c:488-492 | once page 0 is reserved, null means that no aligned window of the size is free, in every continuation |
| PageAllocator.PageZeroLooksLikeFailure | src/mm.c:153 | with one free page and nothing reserved, a request for one byte succeeds and answers null |
| Slab.RegionsDisjoint | src/alloc.c:140-237 | all live blocks and all chunks with their headers, free or live, are pairwise disjoint in memory |
| Slab.ChunksDisjoint | src/alloc.c:85-94 | two chunks never overlap, across classes and pages |
| Slab.ChunkOutsideBlock | src/alloc.c:82-83 | no chunk overlaps a live block of the page allocator |
| Slab.OwnedAfter | src/alloc.c:100-119 | every page-allocator step keeps all chunks in tagged live pages and all blocks untagged |
| Slab.KernelReservedAfter | src/alloc.c:176 | the kernel's own heap stays reserved through every step |
| Slab.SlotOffset | src/alloc.c:85-94 | every slot that the cutting loop makes lies inside its page on a multiple of the stride |
| Slab.ChainPush | src/alloc.c:33-40 | pushing a header keeps the list doubly linked through the header words |
| Slab.ChainPop | src/alloc.c:42-50 | popping keeps the rest of the list linked |
| Slab.GetChunkOrder | src/alloc.c:122-128 | the least order of at least 4 that holds the size |
| Slab.ClassInRange | src/alloc.c:141-149 | a size is refused if and only if it is above 128, and otherwise gets the least class that holds it |
| Slab.ChunkPointerFacts | src/alloc.c:178-185 | the tag of the page under a chunk pointer is the class of that chunk, and of no other |
| Slab.PointerFacts | src/alloc.c:217-235 | the tag is -1 if and only if the pointer is a live block; so `free` goes to the layer the pointer came from |
| Slab.KmemCaches.constructor | src/alloc.c:69-98 | each class gets a full page of free chunks, the highest address first; if some stay empty, all later ones do, and a page request had come back null |
| Slab.KmemCaches.TagPage | src/alloc.c:76-83 | exactly one page request is served; the page it answers carries the tag of the class and no chunk yet |
| Slab.KmemCaches.CarvePage | src/alloc.c:85-94 | the slots of the page go in front of the list of the class, the highest address first, and no other list changes |
| Slab.KmemCaches.RequestPage | src/alloc.c:100-119 | the page allocator serves exactly one request of a page; null changes no list; otherwise the slots of the page but the last go in front of the list of the class, the highest address first |
| Slab.KmemCaches.Kmalloc | src/alloc.c:140-172 | the first free chunk of the least fitting class becomes live, without touching pages when there is one; an empty class makes exactly one page request and hands out the highest slot of that page; null if and only if the class is empty and the page request is answered with null |
| Slab.KmemCaches.Kfree | src/alloc.c:174-196 | the chunk goes back in front of the list of the class it came from, and free plus live still equals created; null, kernel-heap and untagged pointers change nothing |
| Slab.KmemCaches.Alloc | src/alloc.c:198-215 | small sizes get one chunk, large sizes one fresh block that is big enough; the pages change by no step, or by exactly one step of the page allocator whose answer is that block or the page of that chunk; for every size, null exactly when the state before the call says so |
| Slab.KmemCaches.Free | src/alloc.c:217-237 | a chunk goes back to its class without touching pages, a block to the page allocator without touching chunks; null, kernel-heap and out-of-range pointers and blocks nobody holds change nothing |
| Paths.ComponentsAreNames | src/fs_vfs.c:347-375 | components are non-empty and contain no slash |
| Paths.ComponentsJoin | src/fs_vfs.c:347-375 | the components of `p/q` are those of `p` followed by those of `q`, for all strings |
| Paths.FirstComponent | src/fs_vfs.c:353-373 | after leading slashes, the first component ends at the next slash or at the end |
| Paths.GetNextComponent | src/fs_vfs.c:347-375 | the in-place tokenizer terminates and hands out exactly the first component, leaving the rest of the buffer untouched |
| Namespace.FoundIsChild | src/fs_tmpfs.c:99-106 | the search finds a child of that name if there is one |
| Namespace.WalkConcat | src/fs_vfs.c:426-487 | walking a concatenation is walking the parts one after the other, errors included |
| Namespace.ResolveJoin | src/fs_vfs.c:377-492 | resolving `p/q` is resolving the components of `q` from the result of `p` |
| Visible.Placement | src/fs_vfs.c:340 | the root of a mount hangs under the vnode it covers, which is an ordinary entry of a directory |
| Visible.UpIsDir | src/fs_vfs.c:430-461 | from an uncovered vnode `..` leads to its directory, through a mount point if need be |
| Visible.NameStep | src/fs_vfs.c:463-486 | going down by a name leads to an uncovered vnode whose directory is where the step began |
| Visible.AbsolutePathShown | src/fs_vfs.c:377-492 | whatever an absolute path reaches is uncovered all the way up to the root |
| Visible.DownAndUp | src/fs_vfs.c:430-486 | for every vnode and every name in it, seen by a path or not, the name and then `..` lead to the vnode, or the root mounted on it; so they lead back if and only if it is not covered |
| Visible.DotDotUndoesDescent | src/fs_vfs.c:430-486 | for a directory reached by an absolute path and any name in it, `name/..` leads back, mount point or not |
| Visible.UpsLead | src/fs_vfs.c:430-461 | from an uncovered vnode with n directories above it, m times `..` lead to the root if and only if m is at least n, and stay there |
| FsUpdates.AddChildInv | src/fs_tmpfs.c:149-156 | a new child keeps the invariant: names unique, mounts on covered vnodes, parents that list their children |
| FsUpdates.CoverInv | src/fs_vfs.c:312-340 | a mount keeps it too |
| FsUpdates.FindChildFrame | src/fs_tmpfs.c:99-106 | appending a child changes the search for no other name |
| FsUpdates.WalkFramed | src/fs_tmpfs.c:110-160 | every walk that succeeded before a creation ends at the same vnode after it |
| FsUpdates.WalkOnlyNew | src/fs_tmpfs.c:110-160 | every walk that succeeds afterwards without visiting the new vnode succeeded before, with the same end |
| FsUpdates.PathSplit | src/fs_vfs.c:169-213 | cutting at the last slash separates the last component from the others |
| FsUpdates.ParentOfAbsolute | src/fs_vfs.c:183-213 | the parent of an absolute path is what its directory part resolves to, and it is uncovered |
| FsUpdates.NewNameIff | src/fs_tmpfs.c:149-156 | a new name leads to its vnode if and only if its directory is not covered by a mount |
| FsUpdates.NewPathResolves | src/fs_vfs.c:169-226 | after a successful creation, from any current directory, the path resolves to the new vnode if and only if the directory above it is not covered |
| FsUpdates.CreateIffs | src/fs_tmpfs.c:110-160 | when a creation in a directory succeeds, and when it answers EACCES, EINVAL and EEXIST, from the directory and the name alone |
| FsUpdates.MkdirIff | src/fs_vfs.c:153-244 | `mkdir` succeeds if and only if the directory of its path resolves and the name can be created there; a missing directory gives its own error |
| FsUpdates.OpenCreateIff | src/fs_vfs.c:39-96 | the same for `open` with the create flag on a path that does not resolve, with the root for a bare name without a current directory |
| FsUpdates.CreateMakes | src/fs_tmpfs.c:137-159 | a creation makes one vnode: of the given name and kind, without children, last child of its directory; nothing else changes |
| FsUpdates.CreatedLooks | src/fs_tmpfs.c:95-106 | any name looked up below a path just made, in a directory that is not covered, is EACCES after `open` and ENOENT after `mkdir` |
| FsUpdates.MountIff | src/fs_vfs.c:293-340 | a tmpfs mount succeeds if and only if its path resolves to a vnode that is neither covered nor the root of a mount and memory is left; EBUSY tells the first reason |
| FsUpdates.MountMakes | src/fs_tmpfs.c:57-85 | a mount makes one empty directory below its target, in which every name of at most 63 characters can be created; nothing else changes but that the target is covered |
| FsUpdates.MkdirFramed | src/fs_vfs.c:153-244 | `mkdir` makes one empty directory of the base name below the parent directory of the path, or changes nothing; it keeps every resolution from every start, and its path resolves to the new directory exactly when the directory above is not covered, as for every absolute path |
| FsUpdates.OpenCreateFramed | src/fs_vfs.c:27-96 | opening with the create flag does the same with a file, and leaves the tree alone when the path already resolves; a bare name without a current directory makes a file in the root, where the path does not look |
| Mounting.StepCovered | src/fs_vfs.c:426-487 | after a mount on `t`, a step from any vnode that does not look for a name in `t` goes where it went, or to the new root when it came to `t` by a name |
| Mounting.WalkCovered | src/fs_vfs.c:426-487 | so do whole walks from any vnode, the covered one and those below it included; and a walk that looks for a name in `t` is ENOENT |
| Mounting.UnseenWalk | src/fs_vfs.c:426-487 | only a walk that comes to `t` is affected |
| Mounting.MountHidesAndIsolates | src/fs_vfs.c:273-343 | after a successful tmpfs mount, every path from every current directory is accounted for: hidden, at the fresh root, or unchanged; and unchanged whenever its walk never comes to the covered vnode |
| Mounting.MountSeenFromRoot | src/fs_vfs.c:273-343 | an absolute path that resolved to the covered vnode resolves to the fresh root, unless it looked for a name in it |
| Mounting.MountedPathResolves | src/fs_vfs.c:273-343 | the mounted path is ENOENT if its walk looked for a name in its own target, the fresh root if it came there from above, and the covered vnode otherwise; for an absolute path there is no third case |
| Mounting.SecondMountRefused | src/fs_vfs.c:305-310 | a second mount on the same path, absolute or not, changes nothing and answers EBUSY, or ENOENT if the path is lost |
| Mounting.MountThroughChild | src/fs_vfs.c:293-340 | for every directory and entry, the path into the entry and back up resolves to the directory, or the root mounted on it, and a mount by that path makes the path ENOENT |
| FsRuns.BootInv | src/fs_vfs.c:494-512 | the tree that `vfs_init` sets up satisfies the invariant |
| FsRuns.AfterInv | src/fs_vfs.c:27-343 | every mkdir, creating open and tmpfs mount keeps it, from any current directory |
| FsRuns.Reached | src/fs_vfs.c:494-518 | it holds at the end of every run from boot |
| FsRuns.DotDotInEveryRun | src/fs_vfs.c:430-486 | so the law of `..` holds in every reachable file system |
| FsRuns.UpAtRootInEveryRun | src/fs_vfs.c:430-433 | in every reachable file system an absolute path whose components are all `..` resolves to the root |
| FsRuns.BootRoot | src/fs_vfs.c:496-512 | after boot `initramfs` leads from the root to the mounted read-only root, and no other name leads anywhere |
| FsRuns.BootFiles | src/fs_initramfs.c:56-135 | below it a name leads to the first file of the archive with that name, and to nothing else |
| FsRuns.BootReadOnly | src/fs_initramfs.c:113-142 | its files have nothing below them, and nothing can be created in it |
| FsRuns.MountThroughChildIsLost | src/fs_vfs.c:293-340 | a reachable instance: after `mkdir` of `/a` and `/a/b` from boot, the mount on `/a/b/..` succeeds and `/a/b/..` no longer resolves |
| VirtualFileSystem.SpecialPaths | src/fs_vfs.c:413-424 | the special cases for "", "." and "/" agree with the general walk |
| VirtualFileSystem.WalkErrors | src/fs_vfs.c:476-479 | a failed walk returns a negative code, never 0 |
| VirtualFileSystem.FindLastSlash | src/fs_vfs.c:169-176 | the backward scan finds the last slash or answers -1 |
| VirtualFileSystem.Vfs.LookupIn | src/fs_tmpfs.c:87-107 | first child of the name, ENOENT when there is none, EACCES on a file |
| VirtualFileSystem.Vfs.GoUp | src/fs_vfs.c:430-461 | the `..` branch computes the upward step, errors included |
| VirtualFileSystem.Vfs.GoDown | src/fs_vfs.c:463-486 | the name branch computes the downward step across both mount tests |
| VirtualFileSystem.Vfs.Lookup | src/fs_vfs.c:377-492 | for every path and current directory, tokenizer and loop compute the fold of one step function over the components |
| VirtualFileSystem.Vfs.CreateInDir | src/fs_tmpfs.c:110-160 | a new last child or the first error that applies, in the order of the code |
| VirtualFileSystem.Vfs.VfsMkdir | src/fs_vfs.c:153-244 | computes `Mkdir` on the vnode table and keeps the invariant |
| VirtualFileSystem.Vfs.VfsOpenCreate | src/fs_vfs.c:27-96 | computes `OpenCreate` and keeps the invariant |
| VirtualFileSystem.Vfs.VfsMount | src/fs_vfs.c:273-343 | computes `MountTmpfs` and keeps the invariant; an unknown file system is ENODEV and changes nothing |
| TmpfsFile.DoubledIsPower | src/fs_tmpfs.c:207-210 | repeated doubling in 64 bits runs through 4096 times powers of two and then wraps to 0 for good |
| TmpfsFile.DoublingEndsIff | src/fs_tmpfs.c:206-210 | the doubling loop reaches its 64-bit requirement if and only if that is at most 2^63 |
| TmpfsFile.WriteSafeIff | src/fs_tmpfs.c:205-210 | the computed end of a write is the true one and the loop ends if and only if position plus length is at most 2^63; from 2^64 on the computed end lies below the position |
| TmpfsFile.CapacityNotCut | src/fs_tmpfs.c:212-219 | a successful allocation is never smaller than the capacity it is recorded as |
| TmpfsFile.WrittenIsSplice | src/fs_tmpfs.c:223-227 | not past the end, a write is exactly a splice of the byte sequence |
| TmpfsFile.ReadAfterWrite | src/fs_tmpfs.c:193-254 | through any handle, a read of the written range gives the written bytes and a read beside it the old ones |
| TmpfsFile.ReadFitsIff | src/fs_tmpfs.c:246-249 | the clipped length stays inside the file if and only if position plus length does not wrap |
| TmpfsFile.Memcpy | src/string.c:59-65 | exactly the target range changes, to the source bytes |
| TmpfsFile.NewCapacity | src/fs_tmpfs.c:207-210 | the least doubling that suffices, still 4096 times a power of two |
| TmpfsFile.Handle.Write | src/fs_tmpfs.c:193-229 | success splices the buffer into the shared contents and advances this handle; the buffer grows only when needed and to less than twice the need; a non-empty write succeeds if and only if it goes to a file and fits the capacity or, with memory left, the largest block; failure changes nothing |
| TmpfsFile.Handle.Read | src/fs_tmpfs.c:231-254 | the slice of the contents from the position, clipped at the end, and the position advanced by as much |
| TmpfsFile.SeekSum | src/fs_tmpfs.c:270-275 | the 64-bit sum, read back as signed, is the true sum or is negative |
| TmpfsFile.Handle.Lseek | src/fs_tmpfs.c:256-286 | the position becomes the true sum exactly when that lies in 0 to 2^63 - 1; otherwise EINVAL and no change |
| SchedMachine.RemoveSpec | src/sched.c:49-69 | removal takes out exactly that thread and keeps the queue duplicate-free |
| SchedMachine.StepInv | src/sched.c:89-262 | create, fork, launch, schedule, exit, kill and reap keep the queues duplicate-free and disjoint; current is in the ready queue if and only if READY, and in no other |
| SchedMachine.InitialInv | src/sched.c:71-87 | so does the state after `sched_init` |
| SchedMachine.RunInv | src/sched.c:22-262 | in every run a zombie is later still a zombie or freed, what is freed is freed once, and never while current |
| SchedMachine.ZombiesKept | src/sched.c:254-262 | no step loses a zombie or a freed thread: a zombie stays one until it is freed |
| SchedMachine.EnabledStepsRun | src/sched.c:22-262 | every sequence of possible steps is such a run |
| SchedMachine.StepAccounts | src/sched.c:89-262 | every step but a launch keeps every thread ever created current, queued or freed |
| SchedMachine.RunAccounts | src/sched.c:22-262 | so no run without launches loses a thread |
| SchedMachine.LaunchAccountsIff | src/exec.c:26-39 | a launch does so if and only if the launching thread is in the ready queue; otherwise that thread is lost |
| SchedMachine.LostForever | src/sched.c:22-262 | a lost thread is never current, queued or freed again, whatever happens |
| SchedMachine.FirstLaunchLoses | src/exec.c:26-39 | the first launch after `sched_init` loses the idle task |
| ThreadFates.RoundRobin | src/sched.c:201-247 | with a running current thread and n ready ones, n + 1 calls of `schedule` give back the same state |
| ThreadFates.Fates | src/sched.c:89-262 | no step moves a thread between runnable, blocked and exited, other than the exit or kill of that thread; only a created or launched thread is new; only reaping frees |
| ThreadFates.ExitedForever | src/sched.c:168-247 | in every run an exited thread stays exited, and does not run again once it is not current |
| ThreadFates.WhereExitLeads | src/sched.c:168-199 | a thread that exits or kills itself goes to the zombies and the next ready thread runs, unless no other thread is ready |
| ThreadFates.WhereKillLeads | src/sched.c:180-199 | any other killed thread leaves its queue, the order of the rest unchanged, and is a zombie at once |
| ThreadFates.ReapingFrees | src/sched.c:254-262 | reaping frees exactly the zombies and changes no other thread |
| ThreadFates.ReapedInRun | src/sched.c:254-262 | whoever is a zombie before a reaping of a run is freed at its end |
| Waiting.ScheduleMoves | src/sched.c:201-247 | one `schedule` makes the head current and moves everybody else up by one |
| Waiting.StepMoves | src/sched.c:22-262 | no step but its own kill moves a waiting thread back or lets the current thread get ahead of it, launches included |
| Waiting.BoundedWaiting | src/sched.c:201-247 | with the current thread not queued ahead, position k becomes current within k + 1 calls of `schedule`, under any creation, fork, launch, exit, reaping and kill of others |
| Waiting.StillWaiting | src/sched.c:201-247 | k calls need not be enough, for every k |
| Waiting.NeverReached | src/sched.c:205-217 | with the current thread queued ahead, for every n some run enters `schedule` n times and never reaches the thread |
| Waiting.BoundedWaitingIff | src/sched.c:201-247 | n calls are always enough if and only if the thread is current, or the current thread is not queued ahead of it and n is at least k + 1 |
| Waiting.LaunchedGetsAhead | src/exec.c:26-39 | a launch, a creation and the kill of the idle thread after `sched_init` reach a state in which no number of calls is enough |
| Scheduler.AddThreadTask | src/sched.c:22-37 | the chain is the old queue with the thread at the end; the other queues are unaffected |
| Scheduler.PopThreadTask | src/sched.c:40-47 | the first thread and the chain of the rest, or null |
| Scheduler.RmThreadTask | src/sched.c:49-69 | the chain without that thread, wherever it was; nothing when absent |
| Scheduler.Scheduler.constructor | src/sched.c:71-87 | the queues after `sched_init` |
| Scheduler.Scheduler.ThreadCreate | src/sched.c:89-146 | a fresh READY thread with the next id at the end of the ready queue; after a failed allocation the queues are as before, and the id is used up if only a stack failed |
| Scheduler.Scheduler.Launch | src/exec.c:26-39 | the new thread becomes current and is still queued |
| Scheduler.Scheduler.Schedule | src/sched.c:201-252 | the linked queues after `schedule` are those of the state machine, in all four states of the old thread |
| Scheduler.Scheduler.Exit | src/sched.c:168-178 | the exiting step of the state machine |
| Scheduler.Scheduler.GetThreadTaskById | src/sched.c:148-166 | the first thread with that id in the ready queue, else in the wait queue, else null |
| Scheduler.Scheduler.Kill | src/sched.c:180-199 | an unknown id changes nothing; otherwise the killing step of the state machine |
| Scheduler.Scheduler.KillZombies | src/sched.c:254-262 | exactly the zombies are freed, once each, the zombie queue is empty and nothing else changes |
| Timers.InsertSorted | src/timer.c:172-196 | insertion keeps the list sorted |
| Timers.InsertDistinct | src/timer.c:172-196 | and without repetition |
| Timers.InsertBehindDue | src/timer.c:185-196 | a timer that expires after the sampled tick does not change which timers are due |
| Timers.DueIsAll | src/timer.c:103 | in a sorted list the due front is everything that is due |
| Timers.RearmedDueIff | src/timer.c:50-64 | a re-armed timer of either kind is due again in the same pass if and only if its period is zero and the counter did not move; the period is zero below 256 Hz for one kind and at 0 Hz for the other |
| Timers.PeriodsInSeconds | src/timer.c:50-64 | one kind fires every two seconds, the other 256 times a second, rounded down to whole ticks |
| Timers.StillPass | src/timer.c:103-111 | at a counter that stands still, a pass with a due timer of zero period has its head due after any number of rounds, and any other makes exactly as many rounds as timers were due |
| Timers.ProgressStep | src/timer.c:103-111 | each round fires the next due timer and accounts for its successor |
| Timers.TimerList.AddTimer | src/timer.c:155-203 | the list with the timer in its place, before equal expirations; the interrupt is set anew if and only if the timer comes first, so it stays set for the head of the list; nothing changes when the timer cannot be allocated |
| Timers.TimerList.Handle | src/timer.c:90-126 | one pass ends, fires exactly the timers due at the sampled tick, once each and in order, keeps all others, and re-arms each repeating one a period after a moment of the pass; afterwards the interrupt is set for the head exactly when something fired or nothing is listed, so it stays set if the call did not come too early |
| Words.BigEndianValue | src/utils.c:95-97 | swapping a loaded big-endian word gives its value |
| Words.SwapTwice | src/utils.c:95-97 | swapping twice gives the word back |
| Words.ReadsBack | src/devicetree.c:51 | a word written big-endian is read back as written |
| Words.AlignIsLeast | src/utils.c:99-101 | as long as nothing wraps, `align` is the least multiple of the power of two that is not below n |
| Words.AlignFour | src/utils.c:99-101 | for 4, rounding up in quotient form |
| Words.HexToUint | src/utils.c:12-28 | the value of the hexadecimal string modulo 2^32 |
| Words.HexRoundTrip | src/utils.c:12-28 | reading inverts writing, for every number that fits the digits, in either case |
| Words.EightDigits | src/utils.c:12-28 | eight digits carry every 32-bit value |
| Words.JunkIsZero | src/utils.c:12-28 | a character that is not a hexadecimal digit in either case counts as 0 |
| FlattenedTree.EncodingAt | src/devicetree.c:47-100 | every token's bytes sit where the lengths of the tokens before it say |
| FlattenedTree.EventsOfTree | src/devicetree.c:47-100 | the tokens of a flattened tree tell its pre-order traversal |
| FlattenedTree.NopsAreSilent | src/devicetree.c:87-89 | dropping NOPs changes no event |
| FlattenedTree.SerializedEvents | src/devicetree.c:47-100 | so any serialization of a tree tells its traversal and ends at its first end token |
| FlattenedTree.NameRead | src/devicetree.c:54-56 | a node's name and the padded length after it, from the bytes |
| FlattenedTree.PropRead | src/devicetree.c:70-79 | a property's length, name offset and value, and the padded length, from the bytes |
| FlattenedTree.ReadToken | src/devicetree.c:51-79 | the token, what the callback is told, and the cursor just past its padded bytes |
| FlattenedTree.ParseNode | src/devicetree.c:47-100 | for any token stream and callback: the events told are those of the tokens consumed; a rejection stops just past that token, a bad token fails, the end token succeeds |
| FlattenedTree.WalkTree | src/devicetree.c:47-100 | for every serialized tree with NOPs anywhere, an accepting callback hears exactly the pre-order events and the cursor ends just past FDT_END |
| FlattenedTree.EventsDetermineTree | src/devicetree.c:47-100 | the events determine the tree |
| FlattenedTree.SampleBlock | src/devicetree.c:47-100 | the bytes of a structure block with a property, a subnode and a NOP, as section 5.4 of the Devicetree Specification lays them out |
| Cpio.HeaderFields | src/cpio.c:90-94 | where the magic and the two size fields lie in a header |
| Cpio.EntryLayout | src/cpio.c:108-119 | name, contents and next header lie at the padded sums the code computes |
| Cpio.TrailerBytes | src/cpio.c:97 | the trailer of an archive, field by field |
| Cpio.FormatTexts | src/cpio.c:7 | the magic and the name of the trailer as text |
| Cpio.FrontOfArchive | src/cpio.c:91-102 | the magic test and the trailer test tell the next file from the end of the archive |
| Cpio.ReadHeader | src/cpio.c:92-95 | name, name size and file size of the entry, from the bytes |
| Cpio.Find | src/cpio.c:86-128 | the loop ends and finds the first entry with the name if and only if there is one |
| Cpio.GetFileSize | src/cpio.c:131-166 | the size of that entry, or 0 |
| Cpio.GetExec | src/cpio.c:86-128 | an address at which exactly that entry's contents lie, and the same bytes copied |
| Cpio.LoadFile | src/cpio.c:86-166 | the two lookups agree: the bytes at the address for that size are the first matching entry's contents |

## Left out

- Hardware and its drivers (UART, mailbox, framebuffer, interrupts, exception vectors, context switch, bootloader), the shell and the self-tests: no data structure of their own.
- Machine integers in the page allocator: sizes and page numbers are unbounded; the kernel's 30 blocks of order 13 are an instance of `blocks` and `top`, and nothing there exceeds 32 bits.
- PageAllocator.Allocator.FreePages: asks for a pointer into the first page of a block, null, or a pointer out of range; a pointer into the rest of a block is not detected by the code and breaks its table.
- PageAllocator.Allocator.SplitBlock: asks for a free block of the given order above 0, which is what `reserve` gives it; the code splits whatever it is given.
- PageAllocator.Allocator.ReservePages: asks for a non-empty range of free pages inside memory, because `split` looks at orders only and would hand out pages that somebody holds.
- Page pointers are indices into the table with -1 as null; addresses are numbers with 0 as null.
- Slab.KmemCaches.Free: asks that a pointer into memory be live, in the kernel heap, or into a block nobody holds; freeing a chunk twice corrupts its list.
- Slab chunk contents: only the two header words are memory; `simple_alloc` is a bump pointer and adds an easy member.
- Slab.GetChunkOrder: sizes are unbounded, so a shift past 31 bits, for sizes above 2^31, does not happen in the model.
- Allocation failure in the file system is one flag per call at the point where nodes are allocated; failure of `strdup` is not modelled.
- VirtualFileSystem.Vfs.Lookup: the out-parameter on failure is not stated; `sys_chdir` passes the current directory itself as out-parameter and is not part of this model.
- VirtualFileSystem.Vfs.VfsOpenCreate: ends before the file is opened; the code opens without testing the result of the creation, so nothing is claimed after a failed one.
- VirtualFileSystem.Vfs.VfsMount: covers tmpfs and unknown names; a later mount of the initramfs, whose root is not initialised, is not part of this model.
- FsRuns.Boot: the initramfs is a read-only directory with a fixed list of at most 16 files; null paths, file descriptors and device nodes are not part of this model.
- TmpfsFile.Handle.Write: asks for position plus length of at most 2^63; above that the loop of the code does not end, and from 2^64 on it is skipped and the buffer is overrun; bytes between an old end and a position beyond it may have any value.
- TmpfsFile.Handle.Read: asks for position plus length below 2^64, which is exactly when the clipped length is right.
- Scheduler.Scheduler.Schedule: has a current thread; the branch for none, before `sched_init`, is not part of this model.
- Signals, file descriptors, stacks and register frames of threads; fork is the creation step, and `_exec` does not test whether its thread was created.
- SchedMachine.StepInv: threads are identities, so memory that was freed and handed out again is a new thread.
- Timers: the `prev` links (never read for control, not maintained in the middle), messages, 64-bit wrap of the counter, interrupt nesting, the ticks between a reading of the counter and the programming of the interrupt, failure to allocate a re-armed timer inside a callback, and the task list in `src/tasks.c`, which repeats the same insertion.
- Timers.TimerList.Handle: asks that no timer on the list re-arm with a zero period unless the counter advances between readings, which is when the loop is sure to end.
- FlattenedTree.ParseNode: the name of a property is its offset into the strings block; a callback is a function of everything it was told; `fdt_init` and the header are not part of this model.
- Cpio.GetExec: claims the found case only; when the name is missing the code returns no value.
- Cpio.Find: compares the six bytes of the magic; the code compares C strings in buffers without a terminator. Names are shorter than 256 bytes, the size of the code's buffer.
