# Madar OS: verified models of the kernel, loader, file systems, IPC, network and window manager

Dafny models of the self-contained state machines of Madar OS, a 64-bit kernel written in C, and
proofs of what they promise. Code that changes state in place is modelled in place: a class or an
array with the fields of the source, each method proved against a function of the old state. What
callers rely on is then proved about those functions, over all inputs or over every run. Machine
arithmetic is explicit: 32- and 64-bit sums are cut with `U32` and `U64`, words in memory are
little-endian bytes.

`dafny verify dfyconfig.toml` checks the whole project. Modules follow the source:

- `HeapSpec`, `HeapRuns`, `KernelHeap`: the first-fit bitmap allocator with in-band headers.
- `Mutex`, `StressTest`, `StressProgress`: the recursive mutex on its spinlock as interleaved atomic
  steps, and the counter client of the stress test.
- `RoundRobin`, `Scheduler`: round-robin scheduling, and the intrusive doubly linked ready queue.
- `PeImage`, `PeReloc`, `PeLoader`: validating, mapping, translating and relocating PE images.
- `Fat32`, `FatLayout`, `FatDir`: slices of cluster chains, the layout of table and clusters on the
  disk, and three directory walkers that should agree.
- `VfsTree`, `Vfs`: path resolution, the linked inodes and the table of open files.
- `Windows`: the window table, z-order compaction in place, painting and hit-testing.
- `RingBuffer`, `Pipes`, `Messages`: pipes and message queues over circular buffers.
- `Checksum`, `IpHeader`: the Internet checksum (RFC 1071, section 1) and IPv4 headers (RFC 791,
  section 3.1).
- `Shell`, `Itoa`: the in-place tokeniser, integer printing and dotted-quad parsing.
- `Options`, `Words`, `Bits`: an option type, bytes, machine words and bit operations.

Where the natural statement is false of the code, the model keeps the code. One lemma gives inputs
on which it fails, and, where it can hold, another says exactly when it does. Findings of this kind:

- An allocation of 2^32 blocks or more is not given back by its free, because the header keeps 32 bits of the block count.
- The stress test can report an inconsistency although no increment was lost.
- A section with more raw data than its aligned virtual size passes validation and overwrites its
  neighbour; one whose rva and raw size wrap 32 bits passes every check and is copied outside the image.
- A section whose rva and virtual size reach 2^32 passes validation on top of another section, because
  its end is cut to 32 bits.
- HIGH relocations drop a carry.
- `fat32_lookup` finds volume labels, which the other two walkers skip.
- Nested 2^32+1 deep, one unlock gives up a mutex that is still held.
- Making a directory over a name in use, or a file over a name that is no regular file, hides what was
  there; a regular file is replaced in place.
- With 63 windows open a click can miss what is seen: a raised window on place 65 is hit but not
  painted, and of two windows on place 64 the lower one is hit.
- Descriptor -1 answers for every closed pipe end.
- A file or directory whose name has more than 127 characters is not found under its path.
- `vfs_mkdir` makes directories inside regular files.
- Maximizing a window a second time does not bring it back to where it was.
- The last quantum before the tick counter wraps has six ticks instead of ten.
- A blocked thread is made to run when no other is queued.
- The IP checksum is stored in host order, so a standard receiver accepts it only by chance.
- `scheduler_remove_thread` on a queued thread lets it run again.

Terms used below: an *extent* is an allocation with its header; a *site* is one relocation entry; a
*place* is a window's z-index; *visible* entries are neither deleted, long-name parts nor labels.

## Model

| member | source | states |
|---|---|---|
| HeapSpec.FirstFitExact | kernel/heap.c:63-122 | For every nonzero 64-bit size kmalloc succeeds exactly when a run of ceil((size+16)/16) free blocks exists; it takes the lowest run, leaves room for the payload, and otherwise leaves bitmap, memory and counts alone |
| HeapSpec.HeaderBytes | kernel/heap.c:14-20 | In front of every payload stand the magic number 0xC0DEC0DE, the block count modulo 2^32 and the size asked for, in sixteen bytes, and no other byte of the heap changes |
| KernelHeap.RoundingWraps | kernel/heap.c:67-74 | The 64-bit rounding agrees with unbounded arithmetic or wraps, and when it wraps the true block count fits no heap |
| KernelHeap.FindRun | kernel/heap.c:81-117 | The bit-by-bit scan of the byte bitmap returns the lowest run of clear bits, or none if there is none |
| KernelHeap.MarkBlocks | kernel/heap.c:93-98 | Setting the bits one by one fills exactly the run |
| KernelHeap.ClearBlocks | kernel/heap.c:152-164 | Clearing the bits one by one clears exactly the range inside the heap and takes each set bit, and no other, off the count, which never underflows |
| KernelHeap.KernelHeap.Kmalloc | kernel/heap.c:63-122 | The in-place allocator does what the allocation function says: bits, header bytes, peak and counters |
| KernelHeap.KernelHeap.Kfree | kernel/heap.c:127-171 | The in-place free does what the free function says on every 64-bit pointer, including null, out-of-range and unmarked ones |
| KernelHeap.KernelHeap.Ksize | kernel/heap.c:176-188 | Reads the requested size out of the header; null and unmarked pointers give 0 |
| HeapRuns.StepKeepsInv | kernel/heap.c:63-171 | Every legal call keeps the heap invariant: extents, headers and counters |
| HeapRuns.HeapSafety | kernel/heap.c:63-171 | Over every run, live extents are in range, large enough and pairwise disjoint, and the set bits are exactly their union |
| HeapRuns.HeapAccounting | kernel/heap.c:100-104 | Over every run, used_blocks is the number of set bits, the peak bounds it, and alloc_count is free_count plus the live extents modulo 2^64 |
| HeapRuns.CountersTally | kernel/heap.c:63-171 | Over every run each request for at least one byte is counted once, as granted or failed, each free of a non-null pointer once, as carried out or invalid, and the peak is the most blocks ever in use |
| HeapRuns.FreeIsHarmlessIff | kernel/heap.c:127-171 | For every 64-bit pointer, aligned or not, a free changes neither bits nor memory if and only if the pointer is null, outside the heap or without a header in front |
| HeapRuns.FreeDeadIsHarmless | kernel/heap.c:127-171 | Freeing a dead, null or out-of-range pointer changes no bit and no byte; only the invalid counter moves |
| HeapRuns.SizeOfLive | kernel/heap.c:176-188 | ksize of a live pointer is the size that was asked for |
| HeapRuns.SizeAfterFree | kernel/heap.c:127-188 | ksize of a pointer that was just freed is 0 |
| HeapRuns.PayloadKept | kernel/heap.c:63-171 | Allocating and freeing others changes no byte of a live payload |
| HeapRuns.PayloadKeptOverRun | kernel/heap.c:63-171 | Over a whole run, the payload of an extent that stays live and is not stored to keeps every byte |
| HeapRuns.TruncatedBlocks | kernel/heap.c:14-20 | Freeing what was just allocated restores the bitmap if and only if the block count fits the 32-bit header field |
| HeapRuns.WholeHeapLeaks | kernel/heap.c:14-20 | A heap of 2^32 blocks, allocated at once and freed, stays fully used |
| Mutex.StepKeepsInv | kernel/sync.c:30-106 | The invariant tying owner and recursion_count to the clients own nesting survives a step if and only if the step does not take a caller more than 2^32 levels deep |
| Mutex.RunKeepsInv | kernel/sync.c:30-106 | Every interleaving of lock, try-lock and unlock steps keeps the invariant |
| Mutex.MutualExclusion | kernel/sync.c:30-106 | Over every run at most one thread is inside; whenever the spinlock is free the owner is that thread and recursion_count its nesting depth modulo 2^32; nesting up to 2^32 levels |
| Mutex.LockAlone | kernel/sync.c:30-106 | Undisturbed, lock and try-lock take a free mutex in seven steps and nest on an own one in five; of a mutex that another thread holds, try-lock returns in five steps without a change, and lock goes on waiting |
| Mutex.TryLockBusy | kernel/sync.c:82-87 | A try-lock that finds the spinlock held returns in two steps without a change |
| Mutex.TryLockReturns | kernel/sync.c:82-106 | A try-lock never waits: under any interleaving it has returned after six of its own steps behind the first |
| Mutex.UnlockAlone | kernel/sync.c:60-77 | Undisturbed, an unlock gives up one level in six steps, and the mutex with the last level; by a thread that is not inside it changes nothing |
| Mutex.ExclusionLostBeyond | kernel/sync.c:30-77 | A run that never nests more than 2^32+1 levels deep, unlocks once there, and lets a second thread in |
| Mutex.ExclusionIff | kernel/sync.c:30-106 | For n threads and any bound: every run that nests within the bound keeps at most one thread inside if and only if n <= 1 or the bound is at most 2^32 |
| Mutex.NonOwnerUnlockIsHarmless | kernel/sync.c:60-77 | An unlock by a thread that is not inside changes neither owner nor counter at any of its steps |
| Mutex.SpinlockOk | kernel/spinlock.c:21-50 | Every step keeps: the lock byte is set exactly while some thread is between its exchange and its store, and one thread at most is |
| Mutex.OneInside | kernel/sync.c:30-106 | Two threads with positive nesting depth are the same thread |
| StressTest.StepKeepsInv | kernel/stress_test.c:75-79 | A step of a client keeps the invariant that relates the shared counter, the stores made and every client |
| StressTest.FinalCounter | kernel/stress_test.c:69-89 | For any number n of threads of K rounds, every finished interleaving leaves the counter at n*K modulo 2^32 |
| StressTest.OneInCriticalSection | kernel/stress_test.c:75-79 | At most one thread is between its lock and its unlock |
| StressTest.ComparePassesIff | kernel/stress_test.c:80-84 | The comparison after the unlock passes if and only if the stores of others since are a multiple of 2^32 |
| StressProgress.EveryRunCanFinish | kernel/stress_test.c:69-89 | No deadlock: every run can be continued to one where all threads have finished and the counter is exact |
| StressProgress.FalseAlarm | kernel/stress_test.c:80-84 | For two or more threads some correct run prints the inconsistency message |
| RoundRobin.StepInv | kernel/scheduler.c:56-112 | Every event keeps the queue duplicate-free and READY, and at most the current thread RUNNING |
| RoundRobin.BoundedWait | kernel/scheduler.c:56-98 | A thread at position p becomes current after at most p+1 calls of schedule, whatever else arrives, yields, exits or is destroyed |
| RoundRobin.BoundedTicks | kernel/scheduler.c:103-112 | In timer ticks at most 10*(p+1), wherever the 64-bit counter stands and even when it wraps |
| RoundRobin.TickIs | kernel/scheduler.c:103-112 | A tick calls schedule if and only if the counter after it is a multiple of ten, and otherwise only counts |
| RoundRobin.QuantumIsExact | kernel/scheduler.c:103-112 | Behind a tick that called schedule the tenth tick is the next to call it, whatever happens in between; the sixth if the 64-bit counter wraps |
| RoundRobin.FullCircle | kernel/scheduler.c:56-98 | With n queued threads and one running, n+1 calls restore the whole state |
| RoundRobin.RunKeepsInv | kernel/scheduler.c:56-112 | So does every legal run |
| RoundRobin.ArrivedIsLast | kernel/process.c:31-135 | A new thread is READY and not queued, and stands behind all others when it is added |
| RoundRobin.ExitIs | kernel/process.c:196-207 | The running thread that exits is forgotten, and the head of the queue runs |
| RoundRobin.KilledIsGone | kernel/process.c:168-190 | A destroyed thread is forgotten, and those behind it move up |
| RoundRobin.BlockedStaysOffIff | kernel/scheduler.c:76-97 | A blocked current thread stays off the CPU if and only if another one is queued; otherwise it is made to run |
| RoundRobin.BlockedThreadRuns | kernel/scheduler.c:89-93 | A blocked thread that is alone is made to run |
| RoundRobin.RemovedRunsAgainIff | kernel/scheduler.c:128-135 | In every run that does not destroy it, a thread marked exited is given the CPU again if and only if it stood in the ready queue: from place p within p+1 calls of schedule, otherwise by no call |
| RoundRobin.RemovedThreadRuns | kernel/scheduler.c:128-135 | A queued thread is removed, and the next call of schedule runs it |
| Scheduler.Scheduler.RemoveThread | kernel/scheduler.c:128-135 | Only the state changes; the thread stays where it is queued |
| Scheduler.Scheduler.Create | kernel/process.c:31-95 | A new thread is known, READY and not queued, and the counts follow |
| Scheduler.Scheduler.Enqueue | kernel/process.c:112-135 | Appends to the linked queue exactly when the thread is neither exited nor queued |
| Scheduler.Scheduler.Remove | kernel/process.c:140-163 | Unlinks from anywhere; the sequence loses exactly that thread |
| Scheduler.Scheduler.GetNextReady | kernel/process.c:233-241 | Pops the head of the sequence |
| Scheduler.Scheduler.Destroy | kernel/process.c:168-190 | The thread leaves queue and table, and the counts follow |
| Scheduler.Scheduler.Exit | kernel/process.c:196-207 | The current thread is destroyed and the next one runs |
| Scheduler.Scheduler.Schedule | kernel/scheduler.c:56-98 | The linked structure and the states change as one round-robin step |
| Scheduler.Scheduler.Tick | kernel/scheduler.c:103-112 | One schedule call for every tenth tick |
| Scheduler.Scheduler.ReadyQueueIsASequence | kernel/process.c:112-207 | Links are mutually inverse, head and tail are the ends, the queued flag is membership, at most the current thread runs, and live = created - destroyed |
| PeImage.ValidateImage | compat/pe_parser.c:133-165 | Accepts exactly the images whose sections are aligned, inside image and file, and do not overlap pairwise, with every end rva + virtual size cut to 32 bits |
| PeImage.AcceptedIff | compat/pe_parser.c:133-165 | Where no end reaches 2^32 and the alignment is a power of two, that is: sizes, alignment, places and raw data fit in unbounded arithmetic |
| PeImage.PlacedAsTestedIff | compat/pe_parser.c:144-162 | The true extents of a validated table lie inside the image and apart from each other if and only if no rva + virtual size reaches 2^32 |
| PeImage.OverlapIsAccepted | compat/pe_parser.c:144-162 | Two sections on the same place, one longer than the image, that are validated and loaded |
| PeImage.RvaToOffset | compat/pe_parser.c:12-29 | Translates an address as the translation function does: headers first, then the first section that holds it |
| PeImage.TranslateIs | compat/pe_parser.c:12-29 | Header addresses are offsets; another address has the offset of the first section with raw data that reaches over it, modulo 2^32, and none if there is none |
| Bits.MaskIsRemainder | compat/pe_parser.c:144-150 | Masking with a power of two less one is the remainder |
| PeImage.LoadImage | compat/pe_loader.c:7-44 | For every table: the image is zeros, then the headers, then the raw data in table order, later copies on top; refusal, and a copy that leaves file or image, are told apart exactly |
| PeImage.LoadedIff | compat/pe_loader.c:7-34 | Loading completes if and only if the image has at most sixteen megabytes and every copy fits file and image in unbounded arithmetic |
| PeImage.ImageIs | compat/pe_loader.c:17-35 | Every byte of the image is the raw data of the last section copied over it, else the byte of the header, else zero |
| PeImage.CopiesStayInsideIff | compat/pe_loader.c:26-34 | For a validated table that passes the loader's checks, every copy stays inside file and image if and only if no section's rva + raw size reaches 2^32 |
| PeImage.WrappedSectionEscapes | compat/pe_loader.c:26-34 | A validated table for a file of 1024 bytes that passes every check and whose copy lies outside the image |
| PeImage.AgreesAtEdgesIff | compat/pe_loader.c:19-35 | For every validated table, memory agrees with address translation on every file if and only if the last copy agrees with the translation at the addresses where the headers or some raw data start or stop |
| PeImage.LoadAgreesIff | compat/pe_loader.c:19-35 | For validated tables with raw data apart in the file, that is so if and only if no raw data is copied over the headers or over the file bytes of an earlier section |
| PeImage.TidyImagesAgree | compat/pe_loader.c:19-35 | For validated images with power-of-two alignment, sections past the headers and raw data within the aligned size, mem[rva] == file[offset] for every translated rva |
| PeImage.OversizedRawDataBreaksIt | compat/pe_parser.c:144-162 | A validated, loadable table with raw data larger than the aligned size, and some file whose memory does not agree |
| PeReloc.ApplyBlocks | compat/pe_loader.c:65-107 | The nested in-place patch loops apply every entry of every block once, in table order, and terminate |
| PeReloc.SitesOfTable | compat/pe_loader.c:65-83 | The bytes of any list of blocks, each a page, a size and 16-bit words of four bits kind and twelve bits offset, are read back as the sites page + offset, in order |
| PeReloc.TableMovesWords | compat/pe_loader.c:65-107 | Applying such a table moves eight bytes at entries of kind 10, four at 3 and two at 1 and 2 by the delta, cut or shifted, and no other byte |
| PeReloc.RelocateWords | compat/pe_loader.c:85-103 | Each site moves by its increment modulo its width, and no other byte changes |
| PeReloc.RelocationComposes | compat/pe_loader.c:59-107 | Relocating by d1 then d2 is relocating by d1+d2 modulo 2^64 if and only if no HIGH site drops a carry |
| PeReloc.HighDropsCarry | compat/pe_loader.c:94-96 | A HIGH site on which two moves and their sum differ |
| PeReloc.RelocationUndone | compat/pe_loader.c:59-107 | Relocating back restores the image if and only if there is no HIGH site or the delta is a multiple of 2^16 |
| PeReloc.ZeroDelta | compat/pe_loader.c:59-63 | A zero delta changes nothing, so the early return agrees with the loop |
| PeLoader.ApplyRelocations | compat/pe_loader.c:46-108 | Finds the table through the translation, tells absent, broken and applied apart, and relocates by the 64-bit difference of the bases |
| PeLoader.FoundIff | compat/pe_loader.c:49-57 | The table is found if and only if its directory entry is not empty, its address translates and all of it lies in the file |
| PeLoader.RebaseThrough | compat/pe_loader.c:46-108 | Moving an image through an intermediate base is moving it directly if and only if no HIGH site drops a carry |
| Fat32.ReadCluster | services/fat32.c:77-84 | Fills the buffer with the bytes of the cluster, sector by sector |
| Fat32.ReadFile | services/fat32.c:86-124 | Copies exactly the requested slice of the cluster chain, as far as it exists, and leaves the rest of the buffer alone; terminates on cyclic tables |
| FatLayout.NextClusterIs | services/fat32.c:58-75 | With the table a sequence of little-endian words from fat_start, the next cluster is the low 28 bits of the word, and none from 0x0FFFFFF8 on |
| FatLayout.ClusterIs | services/fat32.c:77-84 | With the data area a sequence of bytes from data_start, cluster c is its stretch number c-2 |
| FatLayout.FileIsContents | services/fat32.c:86-124 | A file is the bytes of the clusters that the table strings together: a read succeeds if and only if the offset lies inside, and brings the bytes from there, as many as asked for or as there are |
| Fat32.AvailableIsUnique | services/fat32.c:86-124 | The number of bytes copied is determined |
| Fat32.AvailableCount | services/fat32.c:86-124 | On a chain of m clusters it is the smaller of the request and what is left behind the offset |
| Fat32.CyclicChainGivesAll | services/fat32.c:58-75 | On a chain that never ends it is the whole request |
| FatDir.ReadDir | services/fat_dir.c:13-53 | Returns the idx-th listed entry of the chain, or fails, whenever the walk ends: by the chain, an end marker or the entry itself |
| FatDir.ListRoot | services/fat32.c:140-181 | Writes at most max trimmed names into disjoint 13-byte slots and touches nothing behind them, whenever the walk ends |
| FatDir.Lookup | services/fat_dir.c:56-107 | Returns the first comparable entry whose printed name is the name asked for, whenever the walk ends |
| FatDir.TrimName | services/fat32.c:126-138 | Writes the trimmed name and its terminator and nothing else |
| FatDir.TrimOfPadded | services/fat32.c:126-138 | A base of up to eight bytes and an extension of up to three, space-padded, print with a dot in between, or without it if there is no extension |
| FatDir.EntriesAreBytes | services/fat_dir.c:23-50 | The entries walked over, one behind the other, are the bytes of the clusters of the chain |
| FatDir.ShownEntry | services/fat_dir.c:32-38 | An entry is shown if and only if no name before it or its own starts with 0, its own does not start with 0xE5, and its attributes are not 0x0F and have bit 0x08 clear |
| FatDir.ComparedEntry | services/fat_dir.c:74-100 | lookup answers with the first entry that is neither deleted nor part of a long name and prints as the name, before an end marker; labels count |
| FatDir.NthIsVisible | services/fat_dir.c:13-53 | readdir numbers exactly the entries that are not deleted, long-name or labels, up to the end marker |
| FatDir.ListingIsReadDir | services/fat32.c:140-181 | The k-th listed name is the trimmed name of readdir k, and there are min(max, visible) of them |
| FatDir.LookupAgreesIff | services/fat_dir.c:56-107 | lookup agrees with the visible entries if and only if no volume label of that name stands before the end marker and every visible entry of that name |
| FatDir.LabelIsFound | services/fat_dir.c:78-95 | A label and a file of the same name: readdir shows the file, lookup gives the label |
| FatDir.LookupWithoutLabels | services/fat_dir.c:56-107 | Without labels lookup succeeds exactly when a visible entry prints as the name, and returns the first |
| FatDir.TrimIsInjective | services/fat32.c:126-138 | Space-padded names without inner spaces or dots print alike only if they are alike |
| VfsTree.ResolveJoin | services/vfs.c:41-81 | Resolving a joined path is resolving its first part and then the second from there |
| VfsTree.LookupByParent | services/vfs.c:277-292 | Within the length limits a path resolves through its parent path and last name |
| VfsTree.PathsKeptIff | services/vfs.c:297-303 | A new inode keeps every path that resolved before if and only if its name cannot be spelled or was unused in its directory |
| VfsTree.CreatedIsFound | services/vfs.c:271-304 | The path of a new inode with a plain, unused name resolves to it |
| VfsTree.UpInvertsDown | services/vfs.c:61-64 | Going down by a name and up by ".." leads back |
| VfsTree.DropDot | services/vfs.c:57-60 | Dropping a "." component or doubling a slash anywhere in a path changes no lookup |
| VfsTree.DotDotIsParent | services/vfs.c:61-64 | ".." leads to the directory an inode hangs in, and from the root to the root |
| VfsTree.LongNameIsSplit | services/vfs.c:50-56 | A component of more than 127 characters is walked as if a slash stood behind the 127th |
| VfsTree.LongPathIsCut | services/vfs.c:277-292 | Of a path of more than 511 characters only the first 511 say what is created where |
| VfsTree.CreatedIsFoundIff | services/vfs.c:271-304 | What is created under a plain, unused name is found under its path if and only if the name has at most 127 characters, or a single dot behind the 127th |
| VfsTree.LongNameIsLost | services/vfs.c:277-292 | A name of 128 letters in an empty root directory is created, but not found |
| VfsTree.AddChildKeepsTree | services/vfs.c:299-303 | Linking keeps a tree: every inode but the root hangs under its parent, once |
| VfsTree.AddChildKeepsRank | services/vfs.c:299-303 | Linking keeps parents acyclic |
| VfsTree.ResolveInTree | services/vfs.c:41-81 | Every path that resolves leads to an inode of the tree |
| Vfs.Vfs.LookupPath | services/vfs.c:41-81 | The walk over parent, first-child and sibling links finds what resolution in the tree finds |
| Vfs.NextComponent | services/vfs.c:50-56 | Cuts off the next component, at most 127 characters, and the slashes behind it |
| Vfs.Vfs.Open | services/vfs.c:154-194 | Takes the lowest free descriptor for the inode found, counts it, truncates on request; fails exactly when path, permission or descriptor is missing, changing nothing |
| Vfs.Vfs.Close | services/vfs.c:94-101 | Clears the descriptor and drops exactly its count; every inode keeps count 1 + open descriptors, so none is freed |
| Vfs.Vfs.OpenIsHeld | services/vfs.c:178-190 | An open descriptor holds an inode of the tree with count at least 2 |
| Vfs.Vfs.Mkdir | services/vfs.c:271-304 | Hangs a new directory under the inode of the parent path, or changes nothing |
| Vfs.Vfs.CreateFile | services/vfs.c:306-362 | Replaces an existing file in place or hangs a new one with the data into the tree; succeeds exactly under the stated conditions |
| Vfs.CreatedPaths | services/vfs.c:306-362 | What was created is found, every older path keeps its inode, and ".." leads from it to its directory |
| Vfs.ShadowedPaths | services/vfs.c:294-303 | A new inode under a name in use makes some path resolve differently |
| Vfs.FilesHoldNothingIff | services/vfs.c:294-303 | Creating keeps regular files without children if and only if the parent is a directory, which vfs_create_file ensures |
| Vfs.DirectoryInFile | services/vfs.c:294-303 | vfs_mkdir makes a directory inside a regular file |
| Windows.CompactZ | gui/window_list.c:3-13 | On every table, distinct places or not, the in-place passes compute the pass function |
| Windows.CompactIsRanks | gui/window_list.c:3-13 | Unless two windows share a place below the number of passes, that function gives every used window below the last pass its rank and leaves all else, although passes read what earlier ones wrote |
| Windows.EveryRunStacks | gui/wm_core.c:55-160 | Over every run of calls from an empty screen, with any number of windows, no two share a place that the passes reach, so compaction gives ranks |
| Windows.CompactionCompleteIff | gui/window_list.c:3-13 | On such tables every used window gets its rank if and only if none lies at or above the number of passes |
| Windows.CompactionKeepsOrder | gui/window_list.c:3-13 | On such tables compaction changes places only, keeps the order of all windows, and puts those it reaches below the count |
| Windows.StepKeepsInv | gui/wm_core.c:55-160 | With at most 62 windows open every call keeps places distinct and at most the count |
| Windows.RunKeepsInv | gui/wm_core.c:55-160 | So does every run |
| Windows.RaiseOnTop | gui/wm_core.c:149-160 | The raised window is above all others, whose order stays, however many windows are open |
| Windows.CloseKeepsOrder | gui/wm_core.c:140-147 | The closed window is gone and the others keep their order, however many there are |
| Windows.RaiseIsRankedIff | gui/wm_core.c:149-160 | The raised window gets a rank below the count if and only if no window stood at 63 or above |
| Windows.CreatedOnTop | gui/wm_core.c:55-77 | A window is made if and only if it has 80 by 50 points and a slot is unused: in the lowest one, above all others, over exactly the points asked for |
| Windows.CoveredAfter | gui/wm_core.c:92-138 | Which points a window covers after a move, resize, minimize or maximize, in terms of those before; its place and all other windows stay |
| Windows.MaximizedTwiceIff | gui/wm_core.c:120-138 | Maximizing twice brings a normal window back if and only if it had 400 by 300 points at (12, 100) |
| Windows.NumbersAreApart | gui/wm_core.c:55-160 | Over every run of at most 2^32 - 2 calls from an empty screen no two windows have the same number |
| Windows.HitIsLastPaintedIff | gui/wm_core.c:162-180 | The window hit, the first slot of the highest place over the point, is the last one painted there if and only if painting reaches its place and no later slot over the point shares it |
| Windows.ClicksHitWhatIsSeen | gui/wm_core.c:255-264 | In every state of a run with at most 62 windows, hit-testing and painting agree at every point |
| Windows.HiddenWindowIsHit | gui/wm_core.c:255-264 | With 63 windows, two raises give a window that is hit but not painted |
| Windows.LowerWindowIsHit | gui/wm_core.c:162-180 | With 63 windows, raising one and opening another puts both on place 64, and a click hits the one painted underneath |
| Windows.WindowManager.Create | gui/wm_core.c:55-77 | Fills the lowest free slot on top of the others, or fails without a change |
| Windows.WindowManager.Close | gui/wm_core.c:140-147 | The table after closing and compacting in place |
| Windows.WindowManager.Raise | gui/wm_core.c:149-160 | The table after raising and compacting in place |
| Windows.WindowManager.WindowAt | gui/wm_core.c:162-180 | Returns the first slot of the highest place over the point, or none; it is the last one painted there exactly when painting reaches the place and no later slot over the point shares it |
| Windows.WindowManager.DrawAll | gui/wm_core.c:255-264 | Paints the slots in order of place, then slot |
| RingBuffers.RingBuffer.Write | services/ring_buffer.c:19-38 | Appends all the bytes to the contents or none |
| RingBuffers.RingBuffer.Read | services/ring_buffer.c:40-57 | Takes the oldest bytes, up to the length asked for, off the contents |
| RingBuffers.RingPut | services/ring_buffer.c:30-33 | Writing the head cell appends, also round the end |
| RingBuffers.RingTake | services/ring_buffer.c:49-52 | The tail cell is the first of the contents, also round the end |
| Pipes.StepKeepsInv | services/ipc.c:22-79 | Every call keeps: sent equals received plus buffered, at most 4096 bytes, own descriptors, one open end |
| Pipes.Streams | services/ipc.c:51-65 | Over every run the bytes read are a prefix of the bytes written since creation, the rest is in the buffer |
| Pipes.NamesOneEndIff | services/ipc.c:42-49 | A descriptor names at most one pipe end in every reachable table if and only if it is not -1 |
| Pipes.ClosedIsDeadIff | services/ipc.c:67-79 | After a close no pipe answers to the descriptor, if and only if it is not -1 or no pipe is half closed |
| Pipes.SlotsAreReusedEmpty | services/ipc.c:22-40 | A slot leaves use only with its last open end and comes back empty |
| Pipes.WriteIsTakenIff | services/ipc.c:51-57 | A write through 200+i is taken, whole, if and only if pipe i is in use with that end open and the bytes not yet read leave room in 4096 |
| Pipes.ReadBringsNext | services/ipc.c:59-65 | A read through 100+i brings the bytes written next, as many as there are up to the length, if and only if pipe i is in use with that end open |
| Pipes.CreateTakesLowest | services/ipc.c:22-40 | A pipe is made in the lowest of the 32 slots that is out of use, with both ends open, or not at all |
| Pipes.PipeTable.Create | services/ipc.c:22-40 | One step of the runs above: the lowest unused slot becomes an empty pipe with its two descriptors |
| Pipes.PipeTable.Write | services/ipc.c:51-57 | One step of the runs above: writes all bytes to the pipe whose write end is the descriptor, or fails |
| Pipes.PipeTable.Read | services/ipc.c:59-65 | One step of the runs above, with the bytes it takes in the buffer: reads from the pipe whose read end is the descriptor, or fails |
| Pipes.PipeTable.Close | services/ipc.c:67-79 | One step of the runs above: closes the end, and frees the slot with the second one |
| Messages.QueuesAreApart | services/ipc.c:82-147 | Over every run of calls on the table, each queue goes through exactly the calls made at it |
| Messages.FirstInFirstOut | services/ipc.c:98-141 | Over every run, in each of the sixteen queues, the k-th message received is the k-th sent, cut to the length asked for, and the rest is queued in order |
| Messages.SendIsTakenIff | services/ipc.c:98-118 | A message is taken if and only if the queue is in use, it has 1 to 256 bytes and fewer than 16 messages wait |
| Messages.ReceiveBringsNext | services/ipc.c:120-141 | A receive brings the message sent next, cut to the length, if and only if the queue is in use, one waits and the length is not zero |
| Messages.OpenTakesLowest | services/ipc.c:82-96 | A queue is made in the lowest of the sixteen slots that is out of use, empty, or not at all |
| Messages.DestroyedIsDead | services/ipc.c:143-147 | Nothing is sent to or received from a destroyed queue until it is made anew |
| Messages.MsgQueue.Send | services/ipc.c:98-118 | Appends the message exactly when the queue is in use, not full and the length is legal |
| Messages.MsgQueue.Receive | services/ipc.c:120-141 | Takes the oldest message, cut to the length asked for |
| Messages.MsgTable.Create | services/ipc.c:82-96 | One step of the runs above: the first unused queue starts empty under the key, and its index is returned; or the table is full |
| Messages.MsgTable.Send | services/ipc.c:98-118 | One step of the runs above: appends to the queue of that index exactly when the index is in range and the queue takes it; no other queue changes |
| Messages.MsgTable.Receive | services/ipc.c:120-141 | One step of the runs above, with the message in the buffer: takes the oldest message of the queue of that index, or fails; no other queue changes |
| Messages.MsgTable.Destroy | services/ipc.c:143-147 | One step of the runs above: marks the queue of that index unused |
| Checksum.NetChecksum | services/net_utils.c:29-48 | The 32-bit sum never overflows, folding ends, and the result is the complement of the one's complement sum |
| Checksum.ByteWeight | services/net_utils.c:33-41 | A byte counts 256 times at an even place and once at an odd one, in messages of even and odd length |
| Checksum.OnesIsModulo | services/net_utils.c:43-45 | Folding carries is reducing modulo 65535, with 65535 for nonzero multiples |
| Checksum.SumIsMinus | services/net_utils.c:29-48 | The checksum is minus the word sum modulo 65535, and 65535 only for all zeros |
| Checksum.SumsToZeroIff | services/net_utils.c:29-48 | With a field inserted big-endian the whole sums to zero if and only if the field is the checksum, up to the two zeros |
| Checksum.OneWordIff | services/net_utils.c:29-48 | Changing one word keeps the checksum if and only if it swaps 0x0000 and 0xFFFF |
| IpHeader.ShiftsSwap | services/net_utils.c:10-27 | The shifts and masks reverse the bytes of every 16-bit and 32-bit word |
| IpHeader.ConvertedTwice | services/net_utils.c:10-27 | Network order and back is the identity |
| IpHeader.BuildIp | services/net_utils.c:58-72 | Writes the twenty bytes of the header with its checksum and nothing behind them |
| IpHeader.Receive | services/ip.c:53-93 | Decides on version, checksum and destination, and clears the checksum field in place |
| IpHeader.DeliveredIff | services/ip.c:53-82 | Any packet is delivered if and only if its length is at least 20, its version 4, its destination the receiver or all, and the checksum of its header with a zero field is the word stored, low byte first |
| IpHeader.StampedIsDelivered | services/ip.c:53-90 | A header of 5 to 15 words with its checksum stored is delivered to its destination, ICMP to its handler with the header taken off and the sender named; a length shorter than the header wraps at 16 bits |
| IpHeader.BuiltIsAccepted | services/ip.c:53-93 | A built header passes the tests with addresses, length and protocol recovered; it is delivered if and only if it is for us or for all, and if it carries ICMP to the handler, with offset 20, length - 20 and the sender |
| IpHeader.TamperedIff | services/ip.c:65-70 | Changing one word other than the checksum of an accepted header passes if and only if it swaps 0x0000 and 0xFFFF |
| IpHeader.ChecksumFieldIff | services/ip.c:65-70 | Changing the checksum field alone is always noticed |
| IpHeader.StandardReceiverIff | services/net_utils.c:67-70 | A receiver that sums the whole header accepts a built one if and only if both checksum bytes are equal, for the field is stored in host order |
| IpHeader.StandardReceiverRefuses | services/net_utils.c:67-70 | A built header that the own receiver accepts and a standard one does not |
| Shell.ParseLine | apps/shell.c:77-103 | argv points at the first 31 maximal runs without separators, as terminated strings in the buffer, and is null behind them |
| Shell.SplitOfJoin | apps/shell.c:83-100 | Words joined by spaces are split into the same words |
| Shell.SplitOfSeparated | apps/shell.c:83-100 | Words with any of the six separators in front, between and behind, as many as one likes, are split into the same words |
| Itoa.ItoaBase | kernel/kprintf.c:19-45 | Leaves the numeral of the value, most significant digit first, and its terminator |
| Itoa.EvalOfDigits | kernel/kprintf.c:31-35 | The digits evaluate back to the value, with no leading zero |
| Itoa.DigitLetters | kernel/kprintf.c:31-35 | The sixteen digits in upper and lower case |
| Itoa.LengthIff | kernel/kprintf.c:31-35 | A value has at most n digits if and only if it is below the n-th power of the base |
| Itoa.BufferFitsIff | kernel/kprintf.c:77-112 | The 32-byte buffer holds every 64-bit value if and only if the base is at least 5; base 10 uses at most 20 digits and base 16 at most 16 |
| Itoa.ParseIpv4 | services/tcp.c:20-34 | The loop computes the scan function with its 32-bit wrap-around and its rejections |
| Itoa.ParseOfDotted | services/tcp.c:20-34 | Parsing four printed octets joined by dots gives the address made of them |
| Itoa.BadIff | services/tcp.c:20-34 | A string is rejected if and only if a character that is neither digit nor dot stands before the fourth dot |
| Itoa.ParseIs | services/tcp.c:20-34 | Any other string gives its runs of digits, each modulo 2^32, missing ones zero, shifted and or-ed; what follows a fourth dot is not read |
| Itoa.IpIsSum | services/net_stack.h:74-76 | The shifted bytes do not overlap |

## Left out

- HeapRuns.FreeDeadIsHarmless: pointers into the heap that are not 16-byte aligned are excluded, because a client's payload may look like a header there; clients write only their own payloads and forge no header.
- HeapRuns.HeapSafety: heaps of 2^32 blocks or more are excluded; HeapRuns.TruncatedBlocks shows what goes wrong there.
- HeapRuns.HeapAccounting: the same heaps are excluded.
- KernelHeap.KernelHeap.constructor: takes a bitmap with a bit for every block; `heap_init` itself provides a single page and clears 8192 bytes.
- KernelHeap.KernelHeap.Kmalloc: runs as one step; the spinlock around the scan is not shown here.
- Mutex.MutualExclusion: thread ids are never null, and nesting stays at or below 2^32; Mutex.ExclusionIff says that this bound is exact.
- Mutex statistics (`mutex_stats`) are updated without protection and are not modelled; nor is fairness of the spinlock.
- Scheduler.Scheduler.Schedule: switching context is assigning the current thread; stacks and registers are not modelled.
- Scheduler.Scheduler.Destroy: not of the current thread, whose freed block the scheduler would go on using.
- KernelHeap.KernelHeap.Ksize: pointers outside the heap are excluded; the code reads whatever lies in front of them.
- Scheduler.Scheduler.Create: memory exhaustion while creating a thread is not modelled.
- PeImage.LoadImage: what a copy does once it has left the image or the file is not modelled; the method stops there and says so.
- PeImage.LoadAgreesIff: tables in which two sections share bytes of the file, or one shares bytes with the headers, are excluded; PeImage.AgreesAtEdgesIff covers them.
- PeImage.TidyImagesAgree: sections whose rva plus size reaches 2^32 are excluded.
- PeReloc.ApplyBlocks: the relocation table lies in the file and its sites in the image; the code reads and patches without checking.
- PeLoader.ApplyRelocations: the relocation table lies in the file and its sites in the image; the code patches without checking the latter.
- PeReloc.RelocationComposes: sites share no byte. In PeReloc.TableMovesWords neither.
- PeReloc.SitesOfTable: block sizes are 8 plus twice the number of entries; PeReloc.ApplyBlocks covers odd ones too.
- `pe_parse_image`, imports, entry points and TLS are not part of this model; the sections are given.
- Fat32.ReadFile: the disk is a total function, so device errors do not occur, and a cluster has at least one sector.
- FatLayout.FileIsContents: table and data area lie in sectors below 2^32, and the table has at most 2^30 words, so that no 32-bit sum wraps.
- FatDir.ReadDir: the walk ends, by the chain, an end marker or the entry asked for; otherwise the code does not terminate, and the same goes for the other two walkers.
- Reading the boot sector and mounting are not part of this model.
- Vfs.Vfs.Open: the permission check is a parameter; descriptor flags are kept but not enforced.
- Vfs.Vfs.CreateFile: the answers of the allocator are parameters, and paths are strings without NUL.
- `vfs_read`, `vfs_write`, `vfs_seek`, mounting and registered file systems: the code assumes 4096-byte buffers and subtracts unsigned past the end, so the natural statements do not hold.
- Windows.StepKeepsInv: 63 or more windows are excluded; Windows.HiddenWindowIsHit and Windows.LowerWindowIsHit show what happens with 63.
- Windows.RunKeepsInv: as Windows.StepKeepsInv.
- Windows.ClicksHitWhatIsSeen: as Windows.StepKeepsInv.
- Windows.WindowManager.Create: titles, opacity, glass and corner radius are drawing data and left out; ids are the 32-bit counter, not its signed cast.
- Windows.WindowManager.WindowAt: coordinates are unbounded, so signed overflow of position plus size is not modelled.
- Pipes.PipeTable.Read: null buffers, the locks and the debug output are left out.
- VfsTree.CreatedIsFoundIff: paths have at most 511 characters; VfsTree.LongPathIsCut says what happens to longer ones.
- IpHeader.Receive: the packet buffer has at least 60 bytes, because the code reads a header as long as its length field says; the ICMP handler is a verdict.
- Routing, sending, UDP, TCP and Ethernet framing are not part of this model.
- Shell.ParseLine: the pipe, redirection and background flags are left out; a separator right after a word is consumed without setting them.
- Itoa.ItoaBase: format dispatch, padding and output of `kprintf` are left out.
- Hardware drivers, interrupts, paging, rendering, themes and the system call layer are not part of this model.
