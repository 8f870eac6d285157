# A verified model of an xv6-derived teaching kernel

This project models the core of an xv6-derived teaching kernel. The kernel adds a Unix V5 file-system format, lazy copy-on-fork page sharing with per-frame reference counters, several CPU scheduling policies, signal masks, a second IDE driver, a PS/2 mouse and a pair of user programs (`ls`, `ml`). Each core source file becomes one or more Dafny modules:

- `kernel/proc.c`:
  - `ProcModel` holds the process table as a sequence of `Proc` records, with one function per operation.
  - `SchedRules` holds the scheduling rules and the load average.
  - `Proc` is the class `ProcTable`. Its methods scan and update the `array<Proc>` in loops, and each is proved to produce what the `ProcModel` or `SchedRules` function says.
- `kernel/kalloc.c`:
  - `Kalloc` holds the free list and the 8-bit reference counters as functions on a `Phys` state.
  - The class `Kmem` has the `kfree`, `kalloc`, `freerange`, `kinit1`/`kinit2` and counter methods.
- `kernel/vm.c` (two-level paging as in section 4.3 of the Intel 64 and IA-32 Architectures Software Developer's Manual, Volume 3A) is split into six modules:
  - `PageTable`: index arithmetic, `walkpgdir`, `mappages`.
  - `AddressSpace`: `allocuvm`, `deallocuvm`.
  - `KernelSpace`: `setupkvm`, the kmap table, `freevm`.
  - `UserMem`: `clearpteu`, `uva2ka`, `copyout`, `inituvm`.
  - `CopyUvm`: the reference copy of `copyuvm` and the share loop of `fork`.
  - `DeepCopy`: the deep copy of `copyuvm`, and `pgfaultintr`.
- `kernel/fs.c` and `kernel/ufs.h` are split into nine modules:
  - `Ufs`: Unix V5 mode bits, the `unix_dinode` layout and its codec, `U_IPB`, `U_IBLOCK`.
  - `FsBitmap`: `balloc`, `bfree`.
  - `FsInode`: `ilock` and `iupdate`, with the xv6 and Unix V5 on-disk formats.
  - `FsCache`: `iget`, `idup`, `iput`, `ialloc`.
  - `FsBmap`: `bmap`, `itrunc`.
  - `FsIo`: `readi`, `writei`.
  - `FsDir`: `namecmp`, `dirlookup`, `dirlink`.
  - `FsPath`: `skipelem`, `namex`.
  - `FsState`: the class `FileSystem`. It holds the disk, the superblocks and the inode cache array. Its methods carry the loops of `fs.c`, and each is proved equal to the function that specifies it.
- `kernel/ide2.c` is modelled in `Ide2`: the request queue and the task-file register writes.
- `kernel/mouse.c` is modelled in `Mouse` (the ring buffer and the packet filter) and in `MousePacket` (the `mflags_t` bit-fields).
- `kernel/kbd.c` is modelled in `Kbd`: the scan-code state machine, with the `kbd.h` tables as parameters.
- `user/ls.c` is modelled in `Ls`: `fmtname` and the child paths of `ls`.
- `user/ml.c` is modelled in `Ml`: the movement and button decode.
- Shared helpers:
  - `Param` holds the constants of the headers that are not part of this model (`param.h`, `fs.h`, `mmu.h`, `memlayout.h`, `buf.h`) and C `uint` arithmetic.
  - `Bits`, `Bytes`, `CStrings`, `Dirent` and `Wrappers` hold bit lists, little-endian bytes, C strings, directory entries and the `Option`/`Outcome` datatypes.

The constants are the usual xv6 values: NPROC 64, NCPU 8, NINODE 50, NDIRECT 12, NINDIRECT 128, BSIZE 512, BPB 4096, DIRSIZ 14, PGSIZE 4096, KERNBASE 0x80000000 and PHYSTOP 0xE000000. C integer widths are written out: `uint` arithmetic wraps modulo 2^32, the page counters are `bv8`-like values modulo 256, and the `int` product of the load average wraps as a 32-bit two's-complement value. A kernel panic is modelled as an `Outcome` value `Panic` (with nothing changed where the code stops), not as a precondition, wherever the code can reach it from valid state.

## Model

| member | source | states |
|---|---|---|
| Param.AddU | kernel/vm.c:98 | `a + b` on a C `uint`: the sum modulo 2^32. |
| Param.SubU | kernel/vm.c:483 | `a - b` on a C `uint`: the difference modulo 2^32. |
| Param.PgRoundDown | kernel/vm.c:84 | PGROUNDDOWN: the largest page boundary at or below the address, within one page of it. |
| Param.PgRoundUp | kernel/vm.c:260 | PGROUNDUP on a `uint`: the smallest page boundary at or above the address, or 0 when that wraps past 2^32. |
| Ufs.AllocMode | kernel/fs.c:224-226 | The mode ialloc writes, `type \| IALLOC`, is allocated and keeps every other bit of the type. |
| Ufs.AllocModeKeepsTypeBits | kernel/ufs.h:10-15 | Setting IALLOC changes neither the directory bit nor the large-file bit. |
| Ufs.DirTestByTypeField | kernel/ufs.h:12-14 | Both the directory and the block-special type fields pass the directory test, because IFBLK contains IFDIR; regular files and character devices fail it. |
| Ufs.UDinodeOffsets | kernel/ufs.h:26-39 | The members of `unix_dinode` sit at their natural offsets, with `i_addr` at 8, `i_flag` at 24 and `i_lastr` at 30. |
| Ufs.UDinodeLayout | kernel/ufs.h:26-60 | `unix_dinode` is 32 bytes with no padding, so U_IPB = 512 / 32 = 16. |
| Ufs.Encode | kernel/ufs.h:26-39 | A `unix_dinode` as its 32 little-endian bytes. |
| Ufs.DecodeEncode | kernel/ufs.h:26-39 | Decoding the bytes of a stored dinode gives the dinode back. |
| Ufs.USlot | kernel/fs.c:222-223 | The index of inode i within its sector is (i-1) % U_IPB. |
| Ufs.UInodeLocation | kernel/ufs.h:56-63 | Numbering starts at 1: inodes 1..16 fill sector 2. The pair (sector, slot) determines the inode number. |
| Ufs.UInodeSlotsDistinct | kernel/fs.c:222-223 | Distinct inode numbers occupy distinct 32-byte slots on disk. |
| Ml.ToInt32 | user/ml.c:34-35 | A `uint` assigned to an `int` reads as its two's-complement value. |
| Ml.Movement | user/ml.c:34-35 | `sign ? (0xFFFFFF00 \| m) : m` is m - 256 when the sign bit is set and m otherwise, so it lies in [-256, 255]. |
| Ml.Decode | user/ml.c:26-37 | Left, right and middle clicks come from flag bits 0, 1 and 2. The x and y signs come from bits 4 and 5. A move is reported exactly when a movement byte is non-zero. |
| MousePacket.UnpackPack | kernel/mouse.h:24-31 | Packing the bit-fields and unpacking them give the same flags. |
| MousePacket.PackUnpack | kernel/mouse.h:24-31 | Unpacking a byte and packing it again gives the same byte. |
| MousePacket.NoOverflow | kernel/mouse.c:146-149 | Neither overflow bit (6 or 7) is set exactly when the byte is below 64. |
| Mouse.SlotsDistinct | kernel/mouse.c:27-55 | Distinct queue positions of a buffer not over-full use distinct slots of `circlebuf`. |
| Mouse.RingBuffer.WriteBuffer | kernel/mouse.c:35-43 | Below BUFLEN entries the byte is stored at `write` and appended to the queued contents. `write` advances modulo BUFLEN and `size` grows. When full, nothing changes. The invariant `write == (read + size) % BUFLEN` is kept. |
| Mouse.RingBuffer.ReadBuffer | kernel/mouse.c:45-55 | The oldest queued value is returned and removed, and `read` advances modulo BUFLEN. An empty buffer returns -1 and nothing changes. |
| Mouse.RingBuffer.MouseIntr | kernel/mouse.c:130-157 | With data ready, a packet is accepted exactly when both overflow bits are clear and the always-1 bit is set. An accepted packet is appended as flags, x, y, in that order, as far as the buffer has room. A dropped packet leaves the queue unchanged. |
| Mouse.RingBuffer.ReadMouse | kernel/mouse.c:169-177 | With at least three values queued, exactly the three oldest are removed, in FIFO order, and returned truncated to a byte each. |
| Kbd.CapsAdjust | kernel/kbd.c:57-61 | Under CAPSLOCK, lower-case letters become the matching upper-case letter and the reverse; every other byte is unchanged. |
| Kbd.CapsAdjustInvolutive | kernel/kbd.c:57-61 | Swapping case twice gives the original byte. |
| Kbd.MapIndex | kernel/kbd.c:56 | `shift & (CTL \| SHIFT)` selects one of the four maps: odd exactly with SHIFT, at least 2 exactly with CTL. |
| Kbd.Getc | kernel/kbd.c:25-64 | One kbdgetc step on the modifier word, the buffered code and the tables. It returns -1 exactly when nothing is buffered, and then `shift` is unchanged. Otherwise `data_buf` ends at 0 and the result is a byte. 0xE0 adds E0ESC and returns 0; a release returns 0 and leaves E0ESC clear. |
| Kbd.ReleaseClearsModifiers | kernel/kbd.c:41-46 | A release clears that key's modifier bits and E0ESC, keeps every other bit, and returns 0. |
| Kbd.EscapedPress | kernel/kbd.c:47-51 | A press after E0 is looked up at `code \| 0x80`, and the escape is consumed. |
| Kbd.E0ThenPress | kernel/kbd.c:37-51 | 0xE0 sets the escape, clears `data_buf` and returns 0; the next press consumes the escape. |
| Kbd.PlainPress | kernel/kbd.c:53-61 | A plain press of a non-modifier key keeps `shift` and returns the current map's entry, case-swapped under CAPSLOCK. |
| Kbd.ToggleTwice | kernel/kbd.c:53-55 | Pressing a toggle key twice restores the modifier word. |
| Kbd.Keyboard.Kbdgetc | kernel/kbd.c:25-64 | The static `shift` and the global `data_buf` change as the kbdgetc step says, and the character it names is returned. |
| Ide2.Completed | kernel/ide2.c:138-139 | The completed flags have B_VALID set, B_DIRTY cleared and every other bit kept. |
| Ide2.StartWrites | kernel/ide2.c:90-116 | Panics exactly as ide2start does when `blockno >= 4000`; what it writes otherwise is stated by StartWritesMeaning. |
| Ide2.StartWritesMeaning | kernel/ide2.c:96-115 | Seven writes, eight for a dirty buffer. The LBA bytes put back together give `blockno * (BSIZE/512)` and the drive bit `dev & 1`. With one sector per block the command is a write (0x30) followed by the data exactly when the buffer is dirty, else a read (0x20). |
| Ide2.Driver.Start | kernel/ide2.c:90-116 | Appends the writes StartWrites lists to the recorded port writes and returns its outcome. |
| Ide2.Driver.Rw | kernel/ide2.c:155-189 | Panics, changing nothing, when the buffer is not locked, is VALID without DIRTY, or names an absent disk 2. Otherwise the buffer is appended at the tail of the queue, and the disk is started on it exactly when it became the head. |
| Ide2.Driver.Intr | kernel/ide2.c:120-148 | An empty queue changes nothing. Otherwise the head is removed. It gets the disk's data when it was a read and the controller reported no error. Its flags get B_VALID and lose B_DIRTY, and the new head is started. |
| Ls.NameStart | user/ls.c:14-16 | The index just past the last '/', or 0 when the path has none. |
| Ls.FormattedShape | user/ls.c:14-23 | A name of at least DIRSIZ bytes is returned as it is. A shorter name is returned as exactly DIRSIZ bytes: the name, then blanks. No result holds a '/'. |
| Ls.TrailingSlashIsBlank | user/ls.c:14-23 | A path ending in '/' formats as DIRSIZ blanks. |
| Ls.NoSlashKeepsWholePath | user/ls.c:14-23 | A path without '/' formats as itself, padded when short. |
| Ls.FindName | user/ls.c:14-16 | The backwards pointer loop stops just past the last '/', or at the start. |
| Ls.FmtBuffer.FmtName | user/ls.c:8-24 | The returned C string is the formatted name. A short name fills the static buffer, whose last byte stays NUL. |
| Ls.FmtBuffer.Fill | user/ls.c:21-23 | memmove of the name, then memset of blanks up to DIRSIZ; the byte at DIRSIZ is kept. |
| Ls.ChildPathsAreChildren | user/ls.c:52-64 | Every path ls stats is the directory's path, a '/', and at most DIRSIZ name bytes. |
| Ls.ChildPathsCount | user/ls.c:52-64 | There is one child path per used entry. |
| Ls.ListChildren | user/ls.c:52-64 | Refuses when `strlen(path) + 1 + DIRSIZ + 1 > 512`. Otherwise the buffer loop produces exactly ChildPaths. |
| Kalloc.KallocNonZero | kernel/kalloc.c:89-106 | On a list whose pages all passed kfree's checks, kalloc never returns a page at address 0. |
| Kalloc.KallocAfterKfree | kernel/kalloc.c:65-106 | kalloc right after kfree(v) returns v and restores the free list. |
| Kalloc.KfreeThreads | kernel/kalloc.c:74-79 | kfree of a page not on the list keeps the list threaded through its pages: each listed page's first word is the next listed page, and the last one's is 0. |
| Kalloc.KallocThreads | kernel/kalloc.c:97-102 | On a threaded list, the new head kalloc takes from `r->next` is the popped page's first word, and the list stays threaded. |
| Kalloc.KfreeKeepsInvariants | kernel/kalloc.c:60-82 | kfree keeps every listed page valid. The list stays free of repeats unless the page was already on it: kfree has no double-free check. |
| Kalloc.Run | kernel/kalloc.c:52-58 | The pages freerange visits: PGROUNDUP(vstart) + k*PGSIZE while the whole page lies below vend. |
| Kalloc.FreeLoopDone | kernel/kalloc.c:52-58 | freerange completes exactly when every page of its run passes kfree's checks. |
| Kalloc.FreeLoopState | kernel/kalloc.c:52-58 | A completed freerange pushed the pages of its run in visit order. Each page is filled with byte 1 except its first word, which holds the head of the list when it was freed (little-endian; 0 for an empty list). |
| Kalloc.RefIndex | kernel/kalloc.c:108-118 | The counter index is `(va - KERNBASE) >> 12` on a `uint`. |
| Kalloc.RefcountArithmetic | kernel/kalloc.c:108-132 | Adding d changes only that counter, by d modulo 256. Before the lock is on nothing changes and getpgrefc panics. |
| Kalloc.RefcountIncDec | kernel/kalloc.c:108-118 | Adding 1 then `(uint)-1` restores the counter, also across the wrap at 255. |
| Kalloc.RefIndexOfKernelPage | kernel/kalloc.c:27 | The counter of a kernel address is its frame number, and frames below PHYSTOP fit `pgrefcounter[]`. |
| Kalloc.Kmem.Kfree | kernel/kalloc.c:65-82 | kfree panics on a page that is not page-aligned, lies below `end`, or whose V2P is not below PHYSTOP (on a `uint`). Otherwise the page is filled with byte 1, its first word (`r->next`) is set to the old head in little-endian order (0 for an empty list), and it is pushed on the head of the free list. The state becomes what `FreePage` gives. |
| Kalloc.Kmem.Kalloc | kernel/kalloc.c:89-106 | kalloc pops and returns the head of the free list, or returns 0 with nothing changed when the list is empty, as `AllocPage` says. |
| Kalloc.Kmem.FreeRange | kernel/kalloc.c:52-58 | The loop frees the pages of Run one by one, as the functional freerange does. It stops at the first panic. |
| Kalloc.Kmem.Kinit1 | kernel/kalloc.c:36-42 | freerange with the lock still off. |
| Kalloc.Kmem.Kinit2 | kernel/kalloc.c:45-49 | freerange, then use_lock is set, which turns the counters on. |
| Kalloc.Kmem.ChgPgRefc | kernel/kalloc.c:108-118 | Once use_lock is set, the 8-bit counter at `(va - KERNBASE) >> 12` gains `dif` modulo 256; before that nothing changes. The counters become what `AddRef` gives. |
| Kalloc.Kmem.GetPgRefc | kernel/kalloc.c:120-132 | Returns the counter, or a panic before kinit2 has set use_lock, as `RefOf` says, without changing the state. |
| PageTable.Pdx | kernel/vm.c:50 | PDX: bits 31:22, below 1024. |
| PageTable.Ptx | kernel/vm.c:72 | PTX: bits 21:12, below 1024. |
| PageTable.AddressSplit | kernel/vm.c:42-73 | An address is its directory index, table index and page offset put back together. |
| PageTable.PteAddr | kernel/vm.c:55 | PTE_ADDR: the entry with its low 12 bits cleared, page-aligned. |
| PageTable.MakePte | kernel/vm.c:95 | `pa \| perm \| PTE_P` is present, names frame pa, and keeps perm's W and U bits. |
| PageTable.ClearW | kernel/vm.c:441 | `e & ~PTE_W` keeps the frame and the P and U bits and clears W. |
| PageTable.ClearU | kernel/vm.c:368 | `e & ~PTE_U` keeps the frame and the P and W bits and clears U. |
| PageTable.WalkOutcomes | kernel/vm.c:42-73 | walkpgdir returns the entry's slot and changes nothing when the directory entry is present. It returns null and changes nothing when alloc is 0 or the free list is empty. Otherwise the popped page becomes a zeroed table, installed in the directory as present, writable and user. |
| PageTable.WalkMapping | kernel/vm.c:50-72 | walkpgdir changes no address's translation: a new table is all zeros. |
| PageTable.StoreKeeps | kernel/vm.c:95 | Writing the entry of an address changes that page's mapping and no other. |
| PageTable.MapOne | kernel/vm.c:87-99 | One round of mappages' loop: -1 when the walk fails, a panic on a present entry ("remap"), else the entry is stored. |
| PageTable.MapOneMapping | kernel/vm.c:87-95 | A completed round maps the page, which was unmapped, to pa, and leaves every other page as it was. |
| PageTable.MapLoopMapping | kernel/vm.c:84-101 | A completed loop maps the k-th page of the range to `(pa + k*PGSIZE) \| perm \| P` and leaves every other page alone. |
| PageTable.MapLoopPanic | kernel/vm.c:91-94 | A loop that panics met an already present entry in its range. |
| PageTable.MapLoopFresh | kernel/vm.c:91-94 | A completed loop found every page of its range unmapped. |
| PageTable.MappagesMeaning | kernel/vm.c:79-102 | mappages covers PGROUNDDOWN(va) through PGROUNDDOWN(va+size-1). On success the k-th page maps `(pa + k*PGSIZE) \| perm \| P` and nothing else changes. A panic means some page of the range was mapped. |
| AddressSpace.DeallocNextIs | kernel/vm.c:297-302 | After an address deallocuvm moves to the next page, or to the next 4 MiB boundary when the directory entry is absent. |
| AddressSpace.DeallocLoopRefc | kernel/vm.c:297-333 | The loop drops one reference, never below zero, of each mapped page of the range, when no two of those pages share a frame. |
| AddressSpace.DeallocLoopMapping | kernel/vm.c:297-333 | A page of the range whose counter reaches 0 is freed and unmapped; the others keep their mapping. |
| AddressSpace.DeallocLoopFrame | kernel/vm.c:287-335 | The loop leaves the directory alone, only adds pages to the free list, and moves no counter that no page of the range uses. |
| AddressSpace.DeallocuvmMeaning | kernel/vm.c:287-335 | newsz >= oldsz returns oldsz and changes nothing. Otherwise the return is newsz. Each mapped page in [PGROUNDUP(newsz), oldsz) loses a reference and is freed and unmapped when its counter reaches 0. Every other page keeps its mapping. |
| AddressSpace.AllocOne | kernel/vm.c:261-277 | One round of allocuvm: `allocpages` is counted before kalloc is checked. It then takes a free page, zeroes it, maps it W\|U and takes a reference to it. |
| AddressSpace.AllocOneMapping | kernel/vm.c:262-277 | A completed round maps the page to the frame that headed the free list. |
| AddressSpace.AllocOneBytes | kernel/vm.c:262-277 | A completed round zeroes the new frame, adds one to its counter, and touches no other page's bytes or counter. |
| AddressSpace.AllocLoopMeaning | kernel/vm.c:260-278 | A completed loop maps every page of [PGROUNDUP(oldsz), newsz) to a frame taken from the free list and zeroed, with its counter up by one. No other page changes. |
| AddressSpace.AllocuvmMeaning | kernel/vm.c:250-280 | Returns 0 when newsz >= KERNBASE, and oldsz when newsz < oldsz, with nothing changed. On success every page of the range gets a fresh zeroed frame with W\|U, and every page that was not free keeps its bytes. |
| KernelSpace.FreevmMeaning | kernel/vm.c:340-356 | freevm panics on a null directory and changes nothing. After deallocuvm(pgdir, KERNBASE, 0), it completes exactly when every present table and the directory pass kfree's checks. The tables are then pushed in directory order and the directory last. |
| KernelSpace.Kmap | kernel/vm.c:127-137 | The four rows of kmap: I/O space, kernel text, kernel data and memory, device space, each with its permissions. |
| KernelSpace.SetupkvmMeaning | kernel/vm.c:142-163 | With no free page setupkvm returns 0. Otherwise it returns a zeroed directory taken from the free list, in which the rows have been mapped in order, or it gives up with 0 after freevm. |
| KernelSpace.KmapMeaning | kernel/vm.c:127-137 | Mapped in order, the four rows give exactly the kernel mapping KernelPte names. |
| KernelSpace.KmapDisjoint | kernel/vm.c:127-137 | No page lies in two rows of kmap. |
| KernelSpace.KmapLoopSafe | kernel/vm.c:156-161 | On a fresh directory the loop over the rows never panics ("remap"). |
| KernelSpace.SetupkvmKernelMap | kernel/vm.c:142-163 | When setupkvm returns a directory, it maps every page as KernelPte says. |
| UserMem.ClearpteuMeaning | kernel/vm.c:361-369 | clearpteu panics, changing nothing, exactly when uva's directory entry is absent. Otherwise only the U bit of uva's translation changes; every other translation stays. |
| UserMem.Uva2kaMeaning | kernel/vm.c:456-466 | The result is P2V(frame) exactly for a present user page, and 0 otherwise. |
| UserMem.Uva2kaAsWrittenAgrees | kernel/vm.c:456-466 | The code as written agrees with the corrected Uva2ka whenever the directory entry is present, and faults otherwise. |
| UserMem.ChunksCover | kernel/vm.c:478-490 | copyout's chunks cover exactly len bytes in order. Each is non-empty and stays within one page. |
| UserMem.CopyLoopOutcome | kernel/vm.c:478-491 | copyout's loop returns 0 exactly when every chunk lies on a page with a frame, else -1. |
| UserMem.CopyoutMeaning | kernel/vm.c:472-492 | copyout returns 0 exactly when every page of [va, va+len) is a present user page with a frame, else -1. |
| UserMem.CopyoutReads | kernel/vm.c:472-492 | After a successful copyout into distinct frames, reading user address va+i through the page tables gives p[i]. |
| UserMem.InituvmBytes | kernel/vm.c:210-221 | inituvm panics on `sz >= PGSIZE`. Otherwise the page it takes holds init's bytes and then zeros, and no other page's bytes change. |
| UserMem.InituvmMapping | kernel/vm.c:210-221 | The page at address 0 maps the new frame with W\|U, and no other mapping changes. |
| CopyUvm.LookupIsWalk | kernel/vm.c:434 | `walkpgdir(pgdir, a, 0)` allocates nothing and changes nothing. |
| CopyUvm.ShareOneOutcome | kernel/vm.c:434-439 | One round panics exactly when the page's table is absent or its entry is not present, and then changes nothing. |
| CopyUvm.ShareOneMapping | kernel/vm.c:441 | One round clears PTE_W on the page's entry and changes no other mapping. |
| CopyUvm.ShareOneRefc | kernel/vm.c:442 | One round adds one reference to the entry's frame (after kinit2) and to no other counter. |
| CopyUvm.ShareLoopDone | kernel/vm.c:433-443 | The loop completes exactly when every page below sz has a present entry. |
| CopyUvm.ShareLoopMapping | kernel/vm.c:433-443 | A completed loop leaves each page below sz mapping its frame with PTE_W cleared, and every other page alone. |
| CopyUvm.ShareLoopRefc | kernel/vm.c:433-443 | Each frame gains one reference per page below sz that names it, modulo 256. |
| CopyUvm.RefCopyMeaning | kernel/vm.c:375-451 | The reference copy returns the same directory. Each page below sz keeps its frame, loses PTE_W and adds a reference. It panics exactly when a page below sz has no present entry. |
| CopyUvm.ForkShareMeaning | kernel/proc.c:231-242 | fork's share loop, which has no present check, panics exactly when a page below sz has no table. Otherwise every entry below sz loses PTE_W, every other page keeps its mapping, and each counter gains one per entry below sz naming its frame, modulo 256. |
| DeepCopy.DeepOnePanics | kernel/vm.c:392-397 | A round of the deep loop panics exactly when the parent lacks the page's table or its entry is not present. |
| DeepCopy.DeepLoopMapping | kernel/vm.c:387-429 | A completed loop maps each page below sz in the new directory to a fresh frame with the parent's flags plus PTE_W. The new frame holds a copy of the parent's frame. |
| DeepCopy.DeepLoopRefc | kernel/vm.c:415 | A completed loop took one reference on each new frame and moved no other counter. |
| DeepCopy.DeepLoopPanics | kernel/vm.c:387-429 | A loop that panics found a page below sz with no table or no present entry in the parent. |
| DeepCopy.DeepLoopCount | kernel/vm.c:417 | `allocpages` grew by one per page, modulo 2^32. |
| DeepCopy.DeepCopyKeeps | kernel/vm.c:375-451 | A deep copy that returns a directory keeps the parent's directory and tables and every page that was not free. |
| DeepCopy.DeepCopyPages | kernel/vm.c:375-451 | In the returned directory each page below sz has a private copy of the parent's page with one reference, and `allocpages` counts every page. |
| DeepCopy.DeepCopyMeaning | kernel/vm.c:375-451 | The two halves together. |
| DeepCopy.Pgfault | kernel/vm.c:494-508 | pgfaultintr as intended: panic with no process; otherwise the deep copy replaces the directory, and the old one is released only when the copy succeeded. |
| DeepCopy.PgfaultKeepsOnFailure | kernel/vm.c:501-506 | A deep copy that fails for want of a free page leaves the process and every page it maps as they were. |
| ProcModel.First | kernel/proc.c:98-102 | The lowest slot satisfying a test, the shape of each first-match scan. |
| ProcModel.FirstIs | kernel/proc.c:98-102 | A scan that stops at slot i found the first matching slot. |
| ProcModel.AllocClaimsLowest | kernel/proc.c:98-128 | The lowest UNUSED slot becomes EMBRYO with pid = old nextpid, and nextpid grows by one. The fresh slot has zero masks, 32 handlers of -1, zero eticks and zero counters except `pt_real = ticks`. When kalloc fails the slot is UNUSED again. No other slot changes. |
| ProcModel.AllocFull | kernel/proc.c:98-106 | With no UNUSED slot allocproc returns null and changes nothing. |
| ProcModel.AllocKeepsPids | kernel/proc.c:108-111 | allocproc hands out a pid no slot holds, so pids stay unique. |
| ProcModel.ReapMeaning | kernel/proc.c:320-364 | One wait scan reaps the first ZOMBIE child: its slot becomes UNUSED with pid 0, no parent and killed 0, and its pid is returned. It returns -1 with nothing changed when there is no child or the caller was killed. |
| ProcModel.ReapKeepsPids | kernel/proc.c:338-346 | Reaping keeps pids unique. |
| ProcModel.Wakeup | kernel/proc.c:751-758 | wakeup1 over the table. |
| ProcModel.WakeupMeaning | kernel/proc.c:755-757 | Exactly the SLEEPING slots on the channel become RUNNABLE; nothing else changes. |
| ProcModel.WakeupIdempotent | kernel/proc.c:751-758 | Waking twice on one channel is waking once. |
| ProcModel.ExitOrphansGoToInit | kernel/proc.c:275-315 | exit reparents every child of the caller to init and leaves the caller ZOMBIE. Every other slot sleeping on the parent's channel becomes RUNNABLE; when a child of the caller is a zombie, so does every slot sleeping on init's channel. No pid, use or other field of another slot changes. |
| ProcModel.ExitInitPanics | kernel/proc.c:281-282 | exit by init panics and changes nothing. |
| ProcModel.ExitKeepsPids | kernel/proc.c:275-315 | exit keeps pids unique. |
| ProcModel.KillMeaning | kernel/proc.c:778-789 | For any pid, including 0 (which matches the first UNUSED slot): the first slot with the pid gets `killed`, and becomes RUNNABLE if it was SLEEPING; no other slot changes and 0 is returned. Without such a slot it returns -1 and nothing changes. |
| ProcModel.KillUniquePid | kernel/proc.c:778-789 | With unique pids, kill of a positive pid kills whichever slot holds it. |
| ProcModel.MaskRoundTrip | kernel/proc.c:945-955 | An `int` mask stored in the `uint` field reads back as the same `int`, and a stored field survives the trip through `int`. So sigsetmask then siggetmask returns the mask set. |
| ProcModel.SetHandlerMeaning | kernel/proc.c:917-924 | SetHandler writes the three-way choice as the source orders it, with the `-2` branch adding the signal to the blocked mask. It stores -1 for `hand <= 0`, which includes -2, so the `-2` branch is never taken and the mask never changes; any positive handler is stored as it is. |
| ProcModel.AdjustTicks | kernel/proc.c:1006-1025 | adjustallpticks over the table. |
| ProcModel.AdjustTicksMeaning | kernel/proc.c:1006-1025 | Every slot in use gains one `pt_real`. A SLEEPING slot gains one `pt_sleep`; otherwise slot `ind` gains one `pt_cpu`; otherwise a RUNNABLE slot gains one `pt_wait`. No slot gains more than one of the three, and nothing but the counters changes. |
| ProcModel.ForkMeaning | kernel/proc.c:211-269 | fork returns -1 exactly when no slot is UNUSED or the kernel stack allocation fails. Otherwise it returns the old nextpid, which no slot held. Pids stay unique. |
| ProcModel.ForkChildSlot | kernel/proc.c:218-266 | The child takes the lowest UNUSED slot. It gets the returned pid, the caller as parent, the caller's page directory and size, state RUNNABLE and kernelmode 0. No other slot changes. |
| SchedRules.RRPick | kernel/proc.c:523-537 | roundrobin's choice: the first RUNNABLE slot probing from rrindex+1 cyclically, ending at rrindex itself. |
| SchedRules.RRScanMeaning | kernel/proc.c:527-536 | The scan from a probe returns the RUNNABLE slot with the fewest probes at or beyond it, or None when every RUNNABLE slot lies before it. |
| SchedRules.RRPickMeaning | kernel/proc.c:527-536 | The pick is RUNNABLE and no RUNNABLE slot is probed before it. The pick is None exactly when no slot is RUNNABLE. |
| SchedRules.RoundsRunnable | kernel/proc.c:523-537 | With k RUNNABLE slots fixed, each of k consecutive calls picks a RUNNABLE slot. |
| SchedRules.RoundsDistinct | kernel/proc.c:523-537 | Those k calls pick k different slots. |
| SchedRules.RoundRobinFair | kernel/proc.c:523-537 | Every RUNNABLE slot is picked by one of k consecutive calls: the one numbered by how many RUNNABLE slots precede it in probe order. |
| SchedRules.ShortestUnique | kernel/proc.c:577-605 | The rule leaves no choice: at most one slot satisfies it. |
| SchedRules.CountActiveIsCard | kernel/proc.c:437-442 | `runnables` is the number of RUNNABLE or RUNNING slots. |
| SchedRules.LoadAvgAgrees | kernel/proc.c:445-446 | Below an average of 430 and 28 competing processes the code computes the intended value. |
| SchedRules.LoadAvgBounded | kernel/proc.c:445-446 | An average at most n, updated with at most n competing processes, stays at most n. |
| SchedRules.LoadAvgMonotone | kernel/proc.c:445-446 | More competing processes never lower the intended average. |
| Proc.ProcTable.FindFirst | kernel/proc.c:98-102 | The scan loop returns the lowest slot satisfying its test, or NPROC. |
| Proc.ProcTable.AllocProc | kernel/proc.c:92-146 | The table, nextpid and result become what ProcModel.Alloc gives: the lowest UNUSED slot claimed, or none. |
| Proc.ProcTable.UserInit | kernel/proc.c:151-184 | allocproc's slot becomes the init process, RUNNABLE, and the table keeps its invariants. |
| Proc.ProcTable.Fork | kernel/proc.c:211-269 | The table, nextpid and result become what ProcModel.Fork gives. |
| Proc.ProcTable.Exit | kernel/proc.c:275-315 | The reparenting loop leaves the table as ProcModel.Exit gives, or panics for init. |
| Proc.ProcTable.Wait | kernel/proc.c:320-364 | One scan of wait leaves the table and result as ProcModel.Reap gives. |
| Proc.ProcTable.Wakeup1 | kernel/proc.c:751-758 | The table becomes ProcModel.Wakeup of the old table. |
| Proc.ProcTable.WakeupAll | kernel/proc.c:762-767 | wakeup: the same table change as wakeup1. |
| Proc.ProcTable.Kill | kernel/proc.c:773-790 | The table and result become what ProcModel.Kill gives: 0 with the first slot holding the pid killed, or -1 with nothing changed. |
| Proc.ProcTable.SigSetHandler | kernel/proc.c:912-926 | A killed caller gets -1 and nothing changes. Otherwise the handler and blocked mask become what SetHandler gives, 0 is returned, and nothing else changes. So the handler is -1 for `hand <= 0` and `hand` otherwise, and the mask is kept. |
| Proc.ProcTable.SigGetMask | kernel/proc.c:940-946 | A killed caller gets -1. Otherwise the blocked mask is returned as an `int`, which is -1 too when every bit is set. |
| Proc.ProcTable.SigSetMask | kernel/proc.c:948-957 | A killed caller gets -1 and nothing changes. Otherwise the blocked mask becomes `*maskp`, `*maskp` receives the old mask, and no other slot or field changes. |
| Proc.ProcTable.AdjustAllPticks | kernel/proc.c:1006-1025 | The table becomes ProcModel.AdjustTicks of the old table. |
| Proc.ProcTable.RoundRobin | kernel/proc.c:523-537 | Returns RRPick, and rrindex becomes that slot, or stays when none is RUNNABLE. Each slot's ticks are charged for the pick. |
| Proc.ProcTable.ShortestProcessNext | kernel/proc.c:539-575 | A pinned slot that is still RUNNABLE is returned first. Otherwise the scan's choice is pinned in `running[NCPU-1]` and returned. |
| Proc.ProcTable.ShortestRemainingTime | kernel/proc.c:577-605 | Returns the unique slot the shortest-time rule picks, with `eticks - pt_cpu` as the measure, or none when no slot is eligible. The rule: the lowest eligible slot with negative eticks if any; otherwise the one that beats every eligible slot under the comparison and tie-break. |
| Proc.ProcTable.CountRunnables | kernel/proc.c:437-442 | The loop counts the RUNNABLE or RUNNING slots. |
| Proc.ProcTable.UpdateLoad | kernel/proc.c:437-446 | `runnables` becomes the count of competing processes, and `loadavg` (a `uint`) becomes LoadAvgAsWritten of the old average: the `uint` product wraps and the `int` product overflows. Below an average of 430 and 28 competing processes this is the intended LoadAvg. |
| Proc.ProcTable.Choose | kernel/proc.c:466-489 | A RUNNABLE slot with `kernelmode != 0` is chosen first (the lowest), without consulting the policy. Otherwise the policy's pick is chosen; under shortest-process-next a pinned slot that is still RUNNABLE is that pick. |
| Proc.ProcTable.Sched | kernel/proc.c:422-514 | sched's bookkeeping: the load update as written, then the choice, and the chosen slot becomes RUNNING. Under the shortest-process-next policy, with no kernel-mode slot ready, a pinned slot that is still RUNNABLE is the one chosen. |
| FsBitmap.MarkMeaning | kernel/fs.c:75 | Setting or clearing a block's bit changes that bit only, and only in its bitmap block. |
| FsBitmap.BallocMeaning | kernel/fs.c:65-79 | The returned block is below sb.size and was free, with every lower block in use. It becomes in use and all zeros, and only its bitmap block and itself are written. It panics exactly when every block below sb.size is in use, and then changes nothing. |
| FsBitmap.BfreeMeaning | kernel/fs.c:90-97 | bfree succeeds exactly on a block in use. It clears that bit only and writes only that bitmap block. |
| FsBitmap.BfreeBalloc | kernel/fs.c:59-98 | bfree(balloc()) restores the bitmap block byte for byte. |
| FsBitmap.BallocReserved | kernel/fs.c:59-80 | On a file system whose boot and bitmap blocks are marked in use, balloc never hands out block 0 or a bitmap block, and keeps that property. |
| FsInode.UnixOf | kernel/fs.c:264-272 | iupdate's Unix V5 fields: mode and link count, `size0 = (size >> 16) & 0xff`, `size1 = size & 0xffff`, the first 8 addresses cut to 16 bits. |
| FsInode.SizeSplit | kernel/fs.c:264-266 | The two size fields put back together are the size's low 24 bits. |
| FsInode.UnixRoundTrip | kernel/fs.c:264-272 | iupdate then ilock reproduces exactly the narrowed fields. |
| FsInode.NarrowedFits | kernel/fs.c:355-367 | Narrowing changes nothing exactly when the size is below 2^24 and the addresses below 2^16. |
| FsInode.UnixBack | kernel/fs.c:355-367 | ilock then iupdate gives back the same unix_dinode. |
| FsInode.IupdateIlock | kernel/fs.c:243-374 | iupdate followed by ilock gives the inode back with its fields narrowed to the dinode's widths. |
| FsInode.IlockIupdate | kernel/fs.c:243-374 | ilock followed by iupdate writes back what ilock read: every block and every dinode reads as before. |
| FsCache.IgetMeaning | kernel/fs.c:290-311 | A live match gains a reference and nothing else changes. Otherwise the first slot with ref 0 is taken. A panic means no live match and no empty slot, and then nothing changes. No other slot changes. |
| FsCache.IgetUnique | kernel/fs.c:281-312 | iget keeps at most one live slot per (dev, inum). |
| FsCache.IdupUnique | kernel/fs.c:316-323 | idup keeps at most one live slot per (dev, inum), and an iput of a slot that keeps a reference undoes it. |
| FsCache.IputSlots | kernel/fs.c:396-413 | Only the slot changes. When the free path is not taken, only its reference drops, and nothing on disk changes. |
| FsCache.IputFrees | kernel/fs.c:396-413 | On the free path the inode is truncated, its type zeroed on disk, and the copy left not valid. |
| FsCache.IputUnique | kernel/fs.c:393-414 | iput keeps at most one live slot per (dev, inum). |
| FsCache.IgetRefs | kernel/fs.c:281-312 | iget, unless it panics, takes exactly one reference. |
| FsCache.IdupRefs | kernel/fs.c:316-323 | idup takes exactly one reference. |
| FsCache.IputRefs | kernel/fs.c:393-414 | iput, unless it panics, drops exactly one reference. |
| FsCache.IallocX | kernel/fs.c:205-216 | On an xv6 device the first dinode from 1 with type 0 is zeroed, given the type, and igot. With none it panics and changes nothing. |
| FsCache.IallocU | kernel/fs.c:217-233 | On the Unix V5 device the first listed inode that is not allocated gets mode `type \| IALLOC` and is igot. With none it panics and changes nothing. |
| FsCache.IallocOther | kernel/fs.c:235-236 | ialloc on any device above 3 panics and changes nothing. |
| FsCache.IallocIlock | kernel/fs.c:197-374 | The inode ialloc returns, once ilocked, has the requested type, no links, size 0 and no blocks. |
| FsBmap.BmapMapped | kernel/fs.c:444-465 | A mapped block is returned as it is, with nothing allocated. |
| FsBmap.BmapAddr | kernel/fs.c:444-465 | What bmap returns is the block the map now holds for the file block. |
| FsBmap.BmapAgain | kernel/fs.c:444-465 | A second bmap of the same block returns the same non-zero block and allocates nothing. |
| FsBmap.BmapKeeps | kernel/fs.c:438-466 | bmap keeps the map sound: owned blocks, pairwise distinct. It changes no other file block's address, and the file reads the same bytes as before. |
| FsBmap.BmapInode | kernel/fs.c:438-466 | bmap changes no field of the inode but its addresses. |
| FsBmap.FreeDirectMeaning | kernel/fs.c:480-485 | The first loop frees each non-zero direct block, clears its entry, and writes no block but bitmap blocks. |
| FsBmap.FreeIndirectMeaning | kernel/fs.c:487-496 | The second loop frees each non-zero entry of the indirect block, then the indirect block itself. |
| FsBmap.ItruncBits | kernel/fs.c:473-501 | After itrunc on a sound map, every block the map named is free and every other bit is kept. |
| FsBmap.ItruncMeaning | kernel/fs.c:473-501 | itrunc leaves every address and the size 0. It frees exactly the blocks the map named, and writes nothing but bitmap blocks and the inode's own dinode sector. |
| FsIo.ReadLoopMeaning | kernel/fs.c:554-560 | The chunk loop over mapped blocks returns the file's bytes [off, off+n) and changes nothing. |
| FsIo.ReadiMeaning | kernel/fs.c:532-560 | readi returns -1 with no effect when off > size or off+n wraps. Otherwise it returns min(n, size-off) bytes, exactly the file's bytes from off. |
| FsIo.ChunkWrite | kernel/fs.c:585-588 | One chunk stays within one block. It writes the chunk's bytes at their file offsets, keeps every other byte and keeps the map sound. |
| FsIo.WriteLoopMeaning | kernel/fs.c:579-590 | The loop writes src at [off, off+n), keeps every other file byte, and keeps the map sound. |
| FsIo.WriteiMeaning | kernel/fs.c:567-601 | writei rejects the three bad ranges with no effect. Otherwise the file holds src at [off, off+n) and every other byte as before, and the size becomes max(size, off+n). |
| FsIo.WriteThenRead | kernel/fs.c:521-601 | A write followed by a read of the same range returns the bytes written, and the read changes nothing. |
| FsDir.Namecmp | kernel/fs.c:606-610 | `namecmp(s, t) == 0` exactly when the two names agree as C strings cut to DIRSIZ bytes. |
| FsDir.Strncpy | kernel/fs.c:658 | strncpy into DIRSIZ bytes: the C string cut to DIRSIZ and padded with NULs. |
| FsDir.Scan | kernel/fs.c:623-639 | The directory scan from an offset, one entry per readi. A short read panics. |
| FsDir.ScanMeaning | kernel/fs.c:623-639 | The scan stops at the first wanted entry at or after its start and reports its offset, or finds none. It keeps the map and the directory's bytes. |
| FsDir.DirlookupMeaning | kernel/fs.c:623-639 | A found entry is the first used entry whose name matches on DIRSIZ bytes. Its inode is igot and its offset reported. Without such an entry nothing is found. The directory's bytes are kept. |
| FsDir.DirlookupRefs | kernel/fs.c:614-640 | dirlookup takes one reference when it finds the name and none otherwise. |
| FsDir.DirlinkMeaning | kernel/fs.c:651-669 | dirlink returns -1 exactly when the name is already present, after putting back the reference that lookup took. Otherwise the new entry sits at the first free offset or at the end, and every other byte is kept. |
| FsDir.StrncpyName | kernel/fs.c:658 | The name strncpy stores compares equal to the name it copied. |
| FsDir.DirlinkThenLookup | kernel/fs.c:643-670 | After a successful dirlink, dirlookup of the same name finds the linked inode number. |
| FsPath.RunEndMeaning | kernel/fs.c:693-708 | A run of '/' and '%', or of name bytes, ends at the first byte outside it, and every byte before that is inside it. |
| FsPath.SkipElem | kernel/fs.c:687-710 | skipelem: None for a path with no element left. Otherwise the path after the element and the separators that follow it, and the element's name. |
| FsPath.SkipElemLoops | kernel/fs.c:687-710 | skipelem's three while loops compute exactly SkipElem. |
| FsPath.SkipElemSplits | kernel/fs.c:687-710 | Whatever skipelem returns, the path splits as leading separators, the element, further separators and the rest. |
| FsPath.SplitsSkipElem | kernel/fs.c:687-710 | Every such split of the path names the element skipelem returns. |
| FsPath.SkipElemNone | kernel/fs.c:693-696 | skipelem finds no element exactly when the C string in the path holds only '/' and '%' bytes. |
| FsPath.SkipElemExample1 | kernel/fs.c:681-685 | "a/bb/c" gives "bb/c" and the name "a". |
| FsPath.SkipElemExample2 | kernel/fs.c:681-685 | "///a//bb" gives "bb" and the name "a". |
| FsPath.SkipElemExample3 | kernel/fs.c:681-685 | "a" gives "" and "a"; "" and "////" give nothing. |
| FsPath.SkipElemLong | kernel/fs.c:700-706 | An element of at least DIRSIZ bytes is cut to its first DIRSIZ bytes with no NUL among them. |
| FsPath.Start | kernel/fs.c:722-727 | namex starts at the root for a leading '/', at inode 1 of device 2 for a leading '%', and at the cwd otherwise. |
| FsPath.Next | kernel/fs.c:728-748 | One round: ilock, then 0 for a non-directory, the directory itself in parent mode at the last element, or else the dirlookup result. |
| FsPath.Walk | kernel/fs.c:728-754 | The loop of namex over the remaining path. |
| FsPath.Namex | kernel/fs.c:716-755 | namex(path, nameiparent, name): namei is parent false (kernel/fs.c:757-762) and nameiparent is parent true (kernel/fs.c:764-768). |
| FsPath.NamexNoElems | kernel/fs.c:749-754 | A path with no element: namei returns the start inode holding its reference, and nameiparent returns 0 holding no new reference. |
| FsPath.WalkSome | kernel/fs.c:728-748 | An element left means one round: a non-directory or missing entry ends the walk with 0, and parent mode stops before the last element. |
| FsPath.WalkRefs | kernel/fs.c:728-754 | The walk ends holding exactly one reference, on its result, or none when it returns 0. Every intermediate directory is released. |
| FsPath.NamexRefs | kernel/fs.c:716-755 | namex holds one new reference on what it returns, and none when it returns 0. |
| FsPath.NamexThroughParent | kernel/fs.c:757-768 | When nameiparent returns a directory and a name, namei of the same path is the lookup of that name in that directory. |
| FsState.FileSystem.Balloc | kernel/fs.c:59-80 | The nested bitmap loops give what FsBitmap.Balloc gives on the old disk: the lowest free block below sb.size, marked in use and zeroed, or a panic. |
| FsState.FileSystem.Bfree | kernel/fs.c:83-98 | The disk becomes FsBitmap.Bfree of the old disk: the block's bit cleared, or a panic when it was already clear. |
| FsState.FileSystem.Ialloc | kernel/fs.c:197-237 | The scan loops of both formats give what FsCache.Ialloc gives on the old disk and cache. |
| FsState.FileSystem.Iget | kernel/fs.c:281-312 | The cache scan gives what FsCache.Iget gives on the old cache: the live slot with one more reference, else the first empty slot claimed, else a panic. |
| FsState.FileSystem.Idup | kernel/fs.c:316-323 | The slot gains one reference, as FsCache specifies. |
| FsState.FileSystem.Itrunc | kernel/fs.c:473-501 | The two free loops give what FsBmap.Itrunc gives on the old disk and inode: every named block freed, size 0, iupdate. |
| FsState.FileSystem.Iput | kernel/fs.c:393-414 | The disk and cache become what FsCache.Iput gives. |
| FsState.FileSystem.Bmap | kernel/fs.c:438-466 | The disk, inode and block become what FsBmap.Bmap gives. |
| FsState.FileSystem.Readi | kernel/fs.c:521-562 | The checks and the chunk loop give what FsIo.Readi gives: -1 when off > size or off+n wraps, otherwise n clamped to the end of the file and the bytes read chunk by chunk. |
| FsState.FileSystem.Writei | kernel/fs.c:567-601 | The checks, the chunk loop and the size update give what FsIo.Writei gives. |
| FsState.FileSystem.ScanDir | kernel/fs.c:623-639 | The directory loop gives what FsDir.Scan gives from offset 0. |
| FsState.FileSystem.Dirlookup | kernel/fs.c:614-640 | The disk, cache and result become what FsDir.Dirlookup gives. |
| FsState.FileSystem.Dirlink | kernel/fs.c:643-670 | The disk, cache and result become what FsDir.Dirlink gives. |
| FsState.FileSystem.Namex | kernel/fs.c:716-755 | The element loop gives what FsPath.Namex gives on the old disk and cache. |

## Left out

- Locks, sleeping and context switching are not modelled. This covers spinlocks and sleeplocks, `sleep`, `swtch`, the `idle` loop, the switching half of `sched`, the `iput` race and the lock hand-over in `namex`. Each operation is one atomic step on the state.
- Proc.ProcTable.Sched: models sched's counting, load update, kernel-mode pre-check, policy choice and RUNNING state. It does not model the switch to the chosen process or the return from it.
- ProcModel.Alloc: the trap frame and context that allocproc writes at raw kernel-stack offsets are not modelled. They are pointer-level layout.
- ProcModel.Reap: freeing the child's kernel stack and page directory, and the timing-data assignment to a local pointer in wait, are not modelled. The assignment has no effect.
- ProcModel.ForkMeaning: open files, the cwd reference and the name copy are not modelled. The file table is not part of this model.
- Proc.ProcTable.UserInit: requires a free slot and a kernel stack. The source dereferences the null result of allocproc without checking it.
- Proc.ProcTable.SigSetHandler: requires a signal number below 32, as the handler array does; the source does not check it.
- The highest-response-ratio policy is left out. It computes in floating point and divides by zero when `eticks == pt_cpu`.
- `sigsend` and `sigpause` are left out. One takes a sleeplock; the other blocks in a loop.
- `growproc` is left out. It is a thin wrapper around allocuvm and deallocuvm, which are modelled.
- Tick counters are unbounded integers; their 32-bit overflow after 2^31 ticks is not modelled.
- kernel/vm.c is modelled on values: each operation is a function from a `Phys` state to a new one, and its loop is a recursive function with per-step lemmas. Update in place through `pte_t *` pointers, and aliasing between the page-table view and the byte view of a page, are therefore not captured.
- Kalloc.Kmem.Kfree: updates only the byte view of a freed page, not the page-table view of the same frame.
- The `lcr3`, `switchuvm`, `switchkvm`, `seginit` and `kvmalloc` calls are left out. They load CPU registers.
- `loaduvm` is left out. It reads a real file.
- AddressSpace.AllocuvmMeaning: on a failed allocation the model returns 0 after the rollback deallocuvm, but no state-level meaning is proved for the rollback.
- KernelSpace.SetupkvmKernelMap: it is not proved that the freevm of a partially built directory, on the give-up path, cannot panic.
- UserMem.InituvmBytes: a kalloc that returns 0 is modelled as a panic, because the source's memset through the null pointer faults.
- DeepCopy.DeepCopyMeaning: covers a copy that returns a directory. The failure path's rollback (freevm of the partial copy) is stated only as the `Outcome` it returns.
- PageTable.Walk: kalloc failure is a kalloc on an empty free list; no other cause of failure is modelled.
- The superblock (`readsb`) and the Unix V5 superblock are parameters of the file-system model. They are read from disk by I/O.
- The log and the buffer cache are not modelled. `bread`, `bwrite` and `log_write` are direct reads and writes of a map from block number to 512 bytes, with no crash atomicity.
- The `devsw` paths of readi and writei are not modelled. They call device drivers through function pointers.
- FsIo.Readi: the ILARG (large-file) read path is left out. It reads every chunk from one block and has no coherent contract. The model returns a `LargeFile` count there, and dirlookup, dirlink and namex pass it on as `LargeDir`, `NotModelled` and `LargePath`.
- FsState.FileSystem.Ialloc: requires `usb.ninode <= |usb.inode|`. The Unix V5 superblock's free-inode count must not exceed its array.
- FsCache.Ialloc: the type is stored as it is given; its truncation to the 16-bit `type` field is not modelled.
- FsCache.Iput: when itrunc panics the model stops there and does not drop the reference. In the source the panic stops the kernel.
- FsBmap.BmapAddr: requires block 0 and the bitmap blocks to be marked in use, as mkfs leaves the disk. Otherwise balloc could hand out block 0 as an indirect block.
- FsBmap.BmapAgain: requires the same reserved-block property as BmapAddr.
- FsBmap.BmapKeeps: proved for one inode's map. Two inodes naming the same block are excluded by the soundness predicate rather than proved impossible.
- FsDir.DirlookupMeaning: requires the directory's size to be at most MAXFILE*BSIZE and its block map to be sound. The source assumes a well-formed directory.
- FsDir.DirlinkThenLookup: requires a directory not in ILARG mode and an inode number whose low 16 bits are not 0. The entry stores only 16 bits of the number, so a zero would read as a free entry.
- FsDir.DirlookupRefs: requires the directory's slot to hold a reference. dirlookup is only called on a held inode.
- FsPath.NamexRefs: requires the cwd's slot to hold a reference. The calling process always holds one.
- FsPath.SkipElem: the name buffer is modelled as the bytes skipelem writes into it. Bytes beyond those keep whatever the caller had there.
- namei and nameiparent are FsPath.Namex with parent false and true; they have no members of their own.
- ilock and iupdate are modelled as functions (FsInode.Ilock, FsInode.Iupdate) that the FileSystem methods call. They have no loops of their own.
- Ide2.Driver.Rw: modelled up to the wait on the buffer's semaphore. Port I/O (`ide2wait`, `outb`, `insl`) is a list of recorded writes, and the data the disk returns is a parameter.
- Mouse.RingBuffer.ReadMouse: with fewer than three values queued, the source sleeps. The model returns `false` and changes nothing.
- The mouse and keyboard port I/O, `mouseinit` and `kbdintr` are not modelled. The byte kbdintr reads is the `data_buf` parameter, and the four `kbd.h` maps and the shiftcode/togglecode tables are parameters.
- `kernel/trap.c`, `kernel/semaphore.c`, `kernel/sysproc.c`, `kernel/ufs.c`, `kernel/helper.c` and the user test programs are not part of this model.

## Findings

| source | as written | input that shows it | evidently intended | confidence | as-written member | corrected member |
|---|---|---|---|---|---|---|
| kernel/proc.c:445-446 | `9992328*loadavg` is computed on an `unsigned int` and `7672*runnables*10000` on an `int` | loadavg 430 wraps the product and gives 0 instead of 429; 28 competing processes overflow the `int` and lower the average by 214 | the average decays by 0.9992328 and gains 0.0007672 per competing process | not executed | SchedRules.LoadAvgWraps | SchedRules.LoadAvgBounded |
| kernel/vm.c:456-466 | uva2ka reads `*pte` without checking that walkpgdir returned a non-null slot | copyout to any address of a fresh directory, whose directory entries are all absent | return 0 when the page's table is absent | not executed | UserMem.Uva2kaNullRead | UserMem.Uva2kaMeaning |
| kernel/vm.c:494-508 | pgfaultintr calls deallocuvm on the old directory even when copyuvm failed and the process kept it | a fault when the free list cannot hold a copy of the process's pages | release the old directory only when the copy replaced it | not executed | DeepCopy.PgfaultAsWrittenLosesPages | DeepCopy.PgfaultKeepsOnFailure |
