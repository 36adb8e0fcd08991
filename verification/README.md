# PeachOS: a verified model of the kernel's memory, file reading and text routines

PeachOS is a small 32-bit x86 kernel. This project models, in Dafny, the code of the kernel and of its
user library whose correctness spans several functions, and proves what that code keeps, what one call
undoes, and what it means for its callers. Where the code does not keep a property that one would expect,
the property is stated with the exact condition under which the code keeps it.

Physical memory is one array of 2^20 pages of 4096 bytes (`Memory.dfy`), read and written by bytes and
little-endian words. The kernel heap hands out blocks of that memory, page tables live in heap blocks, and
processes, path lists and argument vectors live in heap blocks too. That two structures do not overlap is
therefore never assumed: it follows from the heap's invariant.

## The layers

* **Heap** (`Heap.dfy`, `Kheap.dfy`). The entry table is at all times the encoding of a set of disjoint
  runs; malloc adds one run at the least fitting place, free removes exactly its own run, also next to
  neighbours, over every sequence of calls. A free tail that is shorter than the request is handed out all
  the same; `MarksStayInTableIff` says exactly when the marks stay inside the table, and requests of one block
  need no condition at all.
* **Paging** (`Paging.dfy`, `PagingRuns.dfy`). An address space is a chunk, a directory and 1024 tables, each a
  one-block run of its own. Mapping is characterised by what every page translates to, including ranges that
  wrap round the end of the address space. What a program may reach is what the processor lets it: `Access` asks
  the words of directory and table, bit by bit. Over every interleaving of creating, mapping, setting, freeing and
  other uses of the heap, a space that no call works on keeps all its translations and rights; creating takes 1026
  blocks and freeing gives back exactly those.
* **Process memory** (`Process.dfy`, `ProcessRuns.dfy`, `ProcessPages.dfy`). The non-null allocation slots are the process's live
  runs, over every run of process_malloc and process_free, whatever the kernel and other processes allocate,
  free and write meanwhile. What a program may reach after such a run is known too: every byte of every
  allocation that it holds, to read and to write; nothing of a page that was freed and is in no live slot. An
  address that was not writeable at the start of the run, as none is in a new space before a program is mapped,
  is writeable at its end exactly when a live slot has it.
* **Program mapping** (`Loader.dfy`, `ElfBounds.dfy`, `ProgramRuns.dfy`). A program's access to any address of any ELF segment reaches its byte of
  the image, to write exactly when the segment has PF_W, if and only if the segments' virtual addresses are congruent to their file offsets modulo the page
  size. The bounds that the loader computes are the greatest end and, under an exact condition, the least base.
  Which segments still reach their image after any run of process_malloc and process_free is known exactly; those
  outside the heap's pages, and the stack, always do.
* **Tasks** (`Tasks.dfy`, `CopyString.dfy`). The task ring is a doubly linked sequence; advancing n times
  visits all n tasks. Copying a string from a task borrows a page of the task's address space and leaves every
  mapping, the heap table, and every byte but the buffer's and the page's as they were; when the right string
  arrives is known exactly.
* **Reading** (`Streamer.dfy`, `Fat16.dfy`, `FatArithmetic.dfy`, `FatLayout.dfy`). The sector-splitting recursive read is a read of the flat disk.
  The cluster-splitting recursive read delivers the file's bytes if and only if the read is aligned in a sense
  the caller can check. The file's bytes are those of its clusters, which are the pieces of the disk behind the
  root directory.
* **Text and queues** (`Strings.dfy`, `Strtok.dfy`, `Command.dfy`, `Arguments.dfy`, `ProgramArguments.dfy`,
  `PathParser.dfy`, `Terminal.dfy`, `Keyboard.dfy`, `Itoa.dfy`). In-place routines proved against functions on sequences: strtok
  finds the maximal runs of non-delimiters; a command line, whose list takes blocks of the same heap, arrives in
  the new process as argc and argv exactly when there are blocks and slots for both, and the program finds the
  words there through its own page tables; a path is cut into its components and given back; the line editor
  folds its keys; the keyboard ring is a queue; itoa writes the one text that reads back as the number.

## Where the code departs from what one would expect

* `heap_get_start_block` returns a free tail that is too short (`src/memory/heap/heap.c:81`):
  `Heaps.ShortTailIsHandedOut`, `Heaps.MarksStayInTableIff`.
* A free of a pointer inside a run leaves a table that encodes no runs (`src/memory/heap/heap.c:133-145`):
  `Heaps.FreeKeepsEncodingIff`.
* `process_malloc` maps heap pages to themselves over whatever was mapped there, and `process_free` leaves them
  without any flag (`src/task/process.c:58`, `src/task/process.c:85`): a segment placed there is lost,
  `ProgramRuns.ProgramLastsIff`.
* `process_inject_arguments` keeps what it allocated before it fails (`src/task/process.c:338-352`): how much,
  `Arguments.InjectArguments`.
* `process_free(NULL)` finds the first empty slot and unmaps the low pages up to that slot's stale size
  (`src/task/process.c:82-94`): `ProcessRuns.FreeNullIsHarmlessIff`, `ProcessRuns.FreeNullKeepsIff`, and a
  program that loses page 0 in `ProcessPages.LosePageZero`.
* `elf_process_phdr_pt_load` takes a base of zero for "not set" (`src/loader/formats/elfloader.c:97`):
  `ElfBounds.BaseIsLeastIff`.
* `copy_string_from_task` reads the user string while one word of the task's tables is changed, and every page
  of a task can be read by the task (`src/task/task.c:80-114`). A string clear of the temporary page arrives
  right if and only if its bytes in that word are the same before and after the change:
  `CopyStrings.CopyStringFromTask`; `CopyStrings.CopyOfEditedWord` has an input for which another character arrives.
* `fat16_get_fat_entry` multiplies the table's position by the cluster number instead of adding
  (`src/fs/fat/fat16.c:328-329`); the Microsoft FAT specification, section "FAT Type Determination", adds.
  `Fat16.EntryPositionIsNeverTheSpecified`: for 16-bit clusters and numbers of reserved sectors the two never
  agree, also where the product wraps. The read theorems are about the link function that the code computes.
* The values that end the walk are 12-bit ones (0xFF8 and so on), so a 16-bit end mark is followed as a link, and
  the ordinary clusters 0xFF0, 0xFF6, 0xFF7, 0xFF8 and 0xFFF end the walk with an error
  (`src/fs/fat/fat16.c:356-380`): `Fat16.MarkIsFollowed`; for which links the walk is the specified one,
  `Fat16.StopsAgreeIff` and `Fat16.WalkAgreesIff`.
* The size of the root directory is rounded down to whole sectors (`src/fs/fat/fat16.c:222`): the data begins where
  it should if and only if the number of root entries is a multiple of 16, `FatLayout.DataSectorIsSpecifiedIff`.
* A piece of a file read is capped at the cluster size without regard to the offset in the cluster
  (`src/fs/fat/fat16.c:402`): `Fat16.InPlaceIffAligned`, `Fat16.ItemsInPlaceIffAligned`. `fat16_read` does not move the file position.
* `keyboard_backspace` on an empty buffer hides the next character, and a push on a full one overwrites the
  oldest (`src/keyboard/keyboard.c:39-57`): `Keyboards.StepRefinesIff` and the two lemmas behind it.

## Model

The first 63 rows are the main results, layer by layer; the others are the steps to them and the single calls,
in the same order.

| member | source | states |
|---|---|---|
| Heaps.TraceEncodes | src/memory/heap/heap.c:106-145 | over every sequence of malloc and free calls from the empty heap, in which only what is held is freed, the table encodes what the caller holds |
| Heaps.MallocThenFreeRestores | src/memory/heap/heap.c:106-145 | allocating and freeing again gives the same table, entry for entry |
| Heaps.Heap.GetStartBlock | src/memory/heap/heap.c:64-82 | the least start of enough free blocks; with no such run, failure when the last block is taken, else the start of the free tail |
| Heaps.MarksStayInTableIff | src/memory/heap/heap.c:81-120 | the marks of an allocation stay inside the table if and only if a long enough run exists or the last block is taken; then success and a long enough run are the same |
| Heaps.OneBlockFailsOnlyWhenFull | src/memory/heap/heap.c:64-82 | a one-block request needs no condition and fails exactly when no block is free |
| Heaps.FreeKeepsEncodingIff | src/memory/heap/heap.c:133-145 | freeing from a block leaves a table that encodes any runs at all if and only if the block is not inside a run; then they are the runs without the one that starts there |
| PagingRuns.TraceIsolates | src/memory/paging/paging.c:12-129 | over every run of paging calls and other uses of the heap, a space that no call works on keeps the word of every page |
| PagingRuns.TraceKeepsAccess | src/memory/paging/paging.c:12-129 | nor do the words of its directory change, nor what a program may reach in it, to read or to write |
| PagingRuns.TraceKeepsInv | src/memory/paging/paging.c:12-129 | over every run of paging calls and other uses of the heap, the live spaces stay linked, own their one-block runs and share none |
| Paging.NewThenFree | src/memory/paging/paging.c:12-44 | freeing a new space gives the runs from before, and the blocks are exactly 1026 |
| Paging.PagingNew4gb | src/memory/paging/paging.c:12-29 | a space of 1026 fresh one-block runs in which every page maps to itself, its rights given by Paging.NewDirectoryFlags and Paging.NewSpaceAccess; nothing else in memory changes |
| Paging.NewSpaceIsIdentity | src/memory/paging/paging.c:12-29 | in a new space every address translates to itself, with the given flags |
| Paging.NewDirectoryFlags | src/memory/paging/paging.c:22 | every directory word of a new space has the write bit, and the present and the user bit as the flags have them |
| Paging.NewSpaceAccess | src/memory/paging/paging.c:12-29 | in a new space a program reaches every address at itself, to read and to write as the flags say, by the bits of both levels |
| Paging.PagingMapTo | src/memory/paging/paging.c:91-111 | succeeds exactly on aligned, ordered bounds; otherwise an error that changes nothing |
| Paging.MapToTranslates | src/memory/paging/paging.c:91-111 | after success every address of the range translates to the same distance into the physical range, with the flags; every other page keeps its word |
| ProcessRuns.RunKeeps | src/task/process.c:47-94 | over every run of process_malloc and process_free, interleaved with any other use of the heap and of memory: the slots are the live runs that are not others', and their pages are mapped present, writeable, for the user |
| ProcessPages.RunPages | src/task/process.c:47-94 | over every run the word of every page is known: of a live slot, mapped to itself for the user, writeable; freed and in no live slot, without any flag; otherwise as at the start |
| ProcessPages.RunAccess | src/task/process.c:47-94 | over every run what a program may reach is known by the bits of both levels: a page of a live slot, at itself, to read and to write; of a page freed and in no live slot nothing; of any other what it could at the start |
| ProcessPages.AllocationsAreUsable | src/task/process.c:47-94 | after every run a program may read and write every byte of every allocation it holds, at the address it was given |
| ProcessPages.MallocGivesZeros | src/task/process.c:47-70 | a program may write to the bytes that process_malloc gives it, and reads zeros there |
| ProcessPages.WriteableIffLive | src/task/process.c:47-94 | over every run an address that a program could not write to at the start, it can write to at the end exactly when a live slot has its page: the right of directory and table together |
| ProcessRuns.FreeNullIsHarmlessIff | src/task/process.c:82-94 | process_free(NULL) keeps the mappings if and only if the pages up to the stale size of the first null slot already lead to themselves without a flag |
| ProcessPages.LosePageZero | src/task/process.c:47-94 | a new process whose program allocates a byte, frees it and frees NULL: the images before, between and after these three calls; a program could read page 0 before, and faults there after |
| Loader.ElfTranslatesIff | src/task/process.c:167-192 | every access to any segment goes to its byte of the image, and a write does so exactly when bit 1 of p_flags is set and else faults, if and only if every non-empty segment is congruent modulo the page size |
| Loader.ElfBinaryMapsNothing | src/task/process.c:157-197 | the flat mapping that comes first maps no page for an ELF process |
| Loader.ProgramTranslates | src/task/process.c:157-217 | after process_map_memory accesses to a segment that lies clear of the stack still go to the image, with the rights of its flags |
| ProgramRuns.ProgramLastsIff | src/task/process.c:47-217 | after any run of process_malloc and process_free, a segment clear of the stack is still reached as its flags say if and only if no page of it in no live slot was freed and those in live slots were writeable and mapped to themselves; always when it lies outside the heap |
| ElfBounds.BaseIsLeastIff | src/loader/formats/elfloader.c:97-100 | the base is the least virtual address if and only if no segment starts at zero or the last one does |
| Tasks.GoRound | src/task/task.c:22-63 | as many advances as there are members make each of them current once, in order from the current one on, and come back to it |
| Tasks.TaskList.Append | src/task/task.c:165-197 | a task with null links becomes the last member; the first one becomes current |
| Tasks.TaskList.Remove | src/task/task.c:30-57 | the order of the others stays; a removed current task is followed by its successor |
| CopyStrings.CopyStringFromTask | src/task/task.c:80-114 | heap table, mappings and all other memory are as before; for a string clear of the temporary page the right string, cut to max - 1 characters, arrives if and only if its bytes in the edited word agree; the error cases |
| CopyStrings.CopyOfEditedWord | src/task/task.c:80-114 | a new task passes the address of the word that maps the first free page of the heap and asks for one character: of the memory that results, the buffer holds another character than the one that the task reads there |
| Streamers.DiskStream.Read | src/disk/streamer.c:28-56 | delivers exactly the flat bytes from the position on, for every length and position, and moves behind them |
| Fat16.InPlaceIffAligned | src/fs/fat/fat16.c:402 | all bytes come from their places if and only if the read is aligned |
| Fat16.AlignedReadIsSlice | src/fs/fat/fat16.c:387-421 | an aligned read delivers exactly the slice of the concatenated clusters; where these lie is FatLayout.ClustersFollow |
| Fat16.Fat16Read | src/fs/fat/fat16.c:596-617 | the items one behind the other, their number, or an error exactly when one of them fails |
| Fat16.ItemsAreSlice | src/fs/fat/fat16.c:596-617 | the items of a read whose items are all aligned are one slice of the file from the position on |
| Fat16.ItemsInPlaceIffAligned | src/fs/fat/fat16.c:596-617 | every byte of every item comes from its place in the file if and only if every item is aligned |
| FatLayout.ReadAligned | src/fs/fat/fat16.c:596-617 | fat16_read of aligned items returns their number and delivers the slice of the data of the file's clusters from the position on, and writes nothing behind it |
| FatLayout.AlignedReadIsContent | src/fs/fat/fat16.c:387-421 | an aligned read delivers the slice of the clusters' data, the clusters being the pieces of the disk from the data area on |
| FatLayout.ClustersFollow | src/fs/fat/fat16.c:311-313 | cluster 2 begins where the data area does, and every cluster where the one before it ends |
| FatLayout.DataSectorIsSpecifiedIff | src/fs/fat/fat16.c:182-222 | the data area begins behind the sectors that the root entries need if and only if they fill whole sectors |
| Fat16.EntryPositionIsNeverTheSpecified | src/fs/fat/fat16.c:328-329 | for every 16-bit number of reserved sectors and every 16-bit cluster but 0, the computed entry position, wrapped or not, is not the specified one |
| Fat16.WalkAgreesIff | src/fs/fat/fat16.c:346-385 | for any number of steps, the walk over 16-bit links goes where a FAT16 walk is specified to go if and only if no link on the way is from 0xFFF7 on or one of 0xFF0, 0xFF6, 0xFF7, 0xFF8 and 0xFFF |
| Strtok.AllTokens | programs/stdlib/src/string.c:106-152 | calls until NULL return exactly the words in order, and only delimiters behind words have become NULs |
| Strtok.SpansAreMaximalRuns | programs/stdlib/src/string.c:106-152 | the words are exactly the maximal runs of non-delimiters, in order, apart from each other |
| Commands.ParseCommand | programs/stdlib/src/peachos.c:4-44 | the list of the words among the first 1023 characters, as far as the heap has free blocks and the calling process free slots; each node takes one of both, and of the pages in live runs only the process's own tables change; no list for a larger max |
| Commands.JoinedWordsAreFound | programs/stdlib/src/peachos.c:4-44 | words that are not empty and hold no byte 32 and no NUL, written with one byte 32 between them in at most 1023 characters, are the words of the command line |
| Arguments.InjectArguments | src/task/process.c:331-357 | the result says exactly whether there were arguments and room for them; on success argc is the number of nodes, argv[i] the i-th argument cut to 511 characters, and nothing is written behind the slots; a failure keeps the old argc and argv; in both cases the free blocks and slots that are left are known exactly, and of the pages in runs outside the process only its own tables change |
| Arguments.SystemRun | programs/stdlib/src/peachos.c:82-92 | from command line to process: with m the least of the numbers of words, of free blocks and of the caller's free slots, -1 exactly when m is 0, success exactly when more than 2m blocks and more than m slots of the new process are free; then argc is m and argv[i] is word i cut to 511 characters; the caller has m slots fewer, and the memories of both processes are sound in the end |
| ProgramArguments.ArgumentsAreSeen | src/task/process.c:331-357 | a program that was given arguments and reads through its own tables finds, for every argument, a pointer in argv, and where it points the word, cut to 511 characters, and a NUL |
| PathParser.ReadsBack | src/fs/pparser.c:8-117 | a path written from a digit and non-empty components is accepted and read as the same digit and components |
| PathParser.AcceptedIsPathText | src/fs/pparser.c:8-23 | only such paths are accepted: an accepted path is a digit, ":/" and pieces with slashes between them |
| PathParser.Parse | src/fs/pparser.c:84-117 | accepts exactly paths of at most 108 characters with a drive; the list holds exactly the components, in 2n + 1 fresh blocks, and no page in use changes |
| PathParser.ParseThenFree | src/fs/pparser.c:72-117 | freeing a parsed path gives the heap's runs from before |
| Terminal.ReadLine | programs/stdlib/src/peachos.c:55-80 | returns exactly when max - 1 characters are held or a carriage return, 13, comes while fewer are, at the first such key; the line is the folded keys up to there, NUL-terminated, inside the buffer |
| Terminal.ReadTyped | programs/stdlib/src/peachos.c:55-80 | a text without NUL, backspace and carriage return, of at most max - 1 characters, typed with a carriage return behind it: the call returns and the buffer holds the text and a NUL |
| Keyboards.StepRefinesIff | src/keyboard/keyboard.c:35-76 | a call does what the queue does if and only if it is no push on a full ring and no backspace on an empty one |
| Keyboards.RunRefinesQueue | src/keyboard/keyboard.c:35-76 | over every run without a push on a full ring or a backspace on an empty one, however often it wraps round, pops answer as the queue does, and the ring in the end holds what the queue holds |
| Itoa.ToText | programs/stdlib/src/stdlib.c:4-29 | for every 32-bit number, the least included, the text reads back as the number, and the buffer before it is untouched |
| Itoa.TextIsUnique | programs/stdlib/src/stdlib.c:4-29 | a number has one decimal text, so that reading back pins the text down |
| Memory.MaskAndOrAreArithmetic | src/memory/paging/paging.c:113-129 | masking with 0xFFFFF000 and setting flags by `or` are the subtraction and addition of the model |
| Memory.FlagIsBit | src/memory/paging/paging.h:10-12 | the flags of the model are bits 0, 1 and 2 of a 32-bit word |
| Memory.AddressBitsAreArithmetic | src/memory/paging/paging.c:54-66 | directory index, table index and offset are bits 22 to 31, 12 to 21 and 0 to 11 of the address, as the processor takes them |
| Memory.WordIsLittleEndian | src/memory/paging/paging.c:124-126 | a word of memory is its four bytes, lowest first |
| Memory.WriteBackRestores | src/task/task.c:80-114 | overwriting a word and putting the old word back restores the page byte for byte |
| Heaps.EncodesIffBlocks | src/memory/heap/heap.c:88-104 | a table encodes a set of runs exactly when every block's entry says whether it is first in its run and whether the run goes on, and no other entry is marked |
| Heaps.RunsOfTableAreUnique | src/memory/heap/heap.c:88-104 | the table determines the runs: two sets of runs with the same encoding are equal |
| Heaps.TableBits | src/memory/heap/heap.h:8-12 | the low half of an entry says whether its block is in a run, bit 6 whether a run starts there, bit 7 whether it goes on |
| Heaps.Heap.Create | src/memory/heap/heap.c:25-48 | refuses misaligned bounds and a table of another size than the unsigned distance of the bounds has; otherwise everything is free and no run is live |
| Heaps.StartBlockIsUnique | src/memory/heap/heap.c:64-82 | the description of the search result leaves one value |
| Heaps.ShortTailIsHandedOut | src/memory/heap/heap.c:81 | a concrete table on which two blocks are asked for and a tail of one is returned |
| Heaps.Heap.MarkBlocksTaken | src/memory/heap/heap.c:88-104 | writes the first, middle and last marks of a run and leaves every other entry |
| Heaps.MarkTakenAddsRun | src/memory/heap/heap.c:88-104 | marking free blocks turns the encoding of the runs into that of the runs and one fresh run |
| Heaps.Heap.MarkBlocksFree | src/memory/heap/heap.c:133-141 | frees along the chain of HAS_NEXT marks; a block index outside the table changes nothing |
| Heaps.FreeChainFreesRest | src/memory/heap/heap.c:133-141 | the chain stops at the run's last block: exactly the blocks from there on are freed |
| Heaps.FreeChainRemovesRun | src/memory/heap/heap.c:133-141 | freeing a run's first block removes exactly that run, whatever lies next to it |
| Heaps.MarkTakenUsesBlocks | src/memory/heap/heap.c:88-104 | marking n blocks leaves exactly n fewer free blocks, namely those |
| Heaps.FreeChainReturnsBlocks | src/memory/heap/heap.c:133-141 | freeing a run gives back as many free blocks as the run is long |
| Heaps.StepEncodes | src/memory/heap/heap.c:106-145 | one malloc or free of a live run: the table encodes what the caller then holds; a malloc returns a run not held, and succeeds exactly when a gap is long enough |
| Heaps.AlignUpCounts | src/memory/heap/heap.c:50-57 | rounding up does not wrap for the sizes allowed and counts the blocks that cover the size |
| Heaps.BlocksCover | src/memory/heap/heap.c:50-57 | the blocks of a request are as few as cover its size |
| Heaps.BlockIndexInside | src/memory/heap/heap.c:129-131 | for an address in the heap the signed division gives the distance in blocks |
| Heaps.NullIsNoBlock | src/memory/heap/heap.c:129-131 | for NULL the index wraps past the end of every table |
| Heaps.Heap.Malloc | src/memory/heap/heap.c:106-127 | a heap step with the blocks that cover the size: the address is that of a run not live before, or 0 |
| Heaps.Heap.Free | src/memory/heap/heap.c:143-145 | for any pointer: frees along the chain from its block; the table goes on to encode the live runs if and only if the block is not inside a run; a free block, one past the table, and NULL change nothing |
| Heaps.InsideBreaks | src/memory/heap/heap.c:133-145 | after a free inside a run no set of runs has the table as its encoding |
| Kheap.Kernel.Init | src/memory/heap/kheap.c:10-22 | 25600 free blocks at 16 MB |
| Kheap.Kernel.Kmalloc | src/memory/heap/kheap.c:24-26 | fails exactly when no gap fits, changing nothing; else the least fitting run, not live before |
| Kheap.Kernel.Kzalloc | src/memory/heap/kheap.c:28-36 | as kmalloc, with the bytes asked for cleared and no other byte of memory changed |
| Kheap.Kernel.Kfree | src/memory/heap/kheap.c:38-40 | removes the run of the pointer; NULL changes nothing |
| Kheap.Kernel.Clear | src/memory/heap/kheap.c:28-36 | clears exactly the given bytes |
| Kheap.ClearedOutside | src/memory/heap/kheap.c:28-36 | clearing the bytes of a run leaves every page outside the run |
| Kheap.OnePage | src/memory/heap/heap.c:64-82 | a request of at most a page can be served exactly when a block is free |
| Paging.SetEntryEffect | src/memory/paging/paging.c:113-129 | changes the word of one page, of no other page of the space, and no frame but that of its table; directory words stay |
| Paging.MapPagesKeeps | src/memory/paging/paging.c:76-89 | mapping a range writes tables only and keeps the directory |
| Paging.MapPagesEffect | src/memory/paging/paging.c:76-89 | after mapping n pages, each page of the range, counted round the end of the address space, has its physical page with the flags, every other page its old word |
| Paging.MaskGivesTable | src/memory/paging/paging.c:113-141 | masking a directory word gives the table's address, because blocks are page-aligned |
| Paging.GetIndexes | src/memory/paging/paging.c:54-66 | refuses misaligned addresses; else directory and table index of the page |
| Paging.PagingGetIsPageEntry | src/memory/paging/paging.c:131-141 | the word read through directory and table is the one of the page; a misaligned address reads that of page 0 |
| Paging.GetPhysicalAddressTranslates | src/memory/paging/paging.c:150-162 | the physical address computed for any virtual address is its translation |
| Paging.AccessByPage | src/memory/paging/paging.c:12-29 | where the directory grants everything, the word of the page decides |
| Paging.PagingSet | src/memory/paging/paging.c:113-129 | sets the word of an aligned page; a misaligned address is an error that changes nothing |
| Paging.PagingMap | src/memory/paging/paging.c:68-74 | maps one page; misaligned arguments are an error that changes nothing |
| Paging.PagingMapRange | src/memory/paging/paging.c:76-89 | maps consecutive pages, with wrap-around of the virtual address; misaligned addresses are an error at the first page and change nothing |
| Paging.FillTable | src/memory/paging/paging.c:17-20 | fills one table with an identity map and writes no other frame |
| Paging.AddTable | src/memory/paging/paging.c:16-23 | one more table: a fresh one-block run, filled and entered in the directory |
| Paging.NewDirectory | src/memory/paging/paging.c:13-23 | 1025 distinct fresh one-block runs, the directory linked to its 1024 identity tables |
| Paging.OrIsWriteable | src/memory/paging/paging.c:22 | setting the write bit by `or` sets bit 1 and keeps the others |
| Paging.NewTable | src/memory/paging/paging.c:17-20 | a fresh one-block run filled with the identity map of its 4 MB |
| Paging.PagingFree4gb | src/memory/paging/paging.c:36-44 | frees exactly the space's blocks, found again through the masked directory words |
| Paging.UntouchedKeeps | src/memory/paging/paging.c:131-162 | a space none of whose pages changed keeps its links and the word of every page |
| Paging.AllocatedElsewhere | src/memory/heap/kheap.c:28-36 | a heap allocation touches no page of a space that owns its blocks |
| PagingRuns.OthersUntouched | src/memory/paging/paging.c:12-129 | one call on a space, or any other use of the heap, changes no page of another live space |
| PagingRuns.StepKeepsInv | src/memory/paging/paging.c:12-129 | every call keeps: live spaces are linked, own their blocks as one-block runs, and share none |
| Processes.SlotAdded | src/task/process.c:47-70 | a fresh run in a null slot keeps "the live runs are the kernel's and one for each slot" |
| Processes.SlotRemoved | src/task/process.c:82-94 | clearing a live slot and freeing its run keeps "the live runs are the kernel's and one for each slot" |
| Processes.EndOfRun | src/task/process.c:47-70 | the end the code computes from pointer and size is the end of the run's last block |
| Processes.MappedToSelfEffect | src/task/process.c:47-94 | mapping an allocation changes the words of its pages and of no other page |
| Processes.MallocGrows | src/task/process.c:47-70 | an allocation of at most a page takes one fresh block when it succeeds and none when it fails; of the pages in live runs only the process's tables change |
| Processes.GrownBoth | src/task/process.c:47-70 | allocations one after the other take the blocks of each, all distinct, and leave what each leaves |
| Processes.Process.FindFreeIndex | src/task/process.c:35-45 | the first null slot, or an error when there is none |
| Processes.FirstNullSlot | src/task/process.c:35-45 | the search finds a null slot exactly when there is one |
| Processes.Process.Install | src/task/process.c:58-65 | maps the run's pages to themselves for the user and records it in the slot |
| Processes.Process.Malloc | src/task/process.c:47-70 | succeeds exactly when a gap and a null slot exist, and then uses up the blocks and one slot; failing, it leaves the heap table and the slots as they were |
| Processes.Process.FreeSlot | src/task/process.c:84-91 | unmaps the slot's pages, clears its pointer and frees the run; bounds that the mapping refuses change nothing |
| Processes.Process.Release | src/task/process.c:89-90 | clears the slot's pointer and frees the run, and keeps the process's memory sound |
| Processes.Process.Free | src/task/process.c:82-94 | works on the first slot that holds the pointer and does nothing without one |
| ProcessRuns.MallocKeeps | src/task/process.c:47-70 | process_malloc keeps: slots are live runs, their pages mapped present, writeable, for the user |
| ProcessRuns.HeldPointersAreRuns | src/task/process.c:82-94 | a pointer that a slot holds is the start of a live run that is no page table |
| ProcessRuns.MallocEffect | src/task/process.c:47-70 | success adds one run, one slot and the mapping of exactly its pages |
| ProcessRuns.FreeKeeps | src/task/process.c:82-94 | freeing a held pointer removes its run and unmaps exactly its pages; an unknown pointer changes nothing |
| ProcessRuns.OtherAllocKeeps | src/memory/heap/kheap.c:28-36 | an allocation by the kernel or another process keeps the invariant, and its run joins those outside the process |
| ProcessRuns.OtherFreeKeeps | src/memory/heap/kheap.c:38-40 | freeing a run outside the process that is none of its tables keeps the invariant |
| ProcessRuns.GrownElsewhere | src/task/process.c:47-70 | what another process allocates, with tables of its own, keeps the invariant, and its blocks join those outside the process |
| ProcessRuns.MallocThenFree | src/task/process.c:47-94 | the runs are those from before, the slot is null again, and only the allocation's pages are unmapped |
| ProcessRuns.AllocationsAreDisjoint | src/task/process.c:47-70 | two live allocations share no page |
| ProcessRuns.FreeNullEffect | src/task/process.c:82-94 | process_free(NULL) keeps runs and slots and unmaps the first pages, as many as the stale size of the first null slot covers |
| ProcessRuns.FreeNullKeepsIff | src/task/process.c:82-94 | process_free(NULL) keeps the invariant if and only if no live slot has one of the pages up to that stale size |
| ProcessRuns.MallocFreeFreeNull | src/task/process.c:47-94 | allocating, freeing and then freeing NULL unmaps the first pages of the address space, as many as the allocation had |
| ProcessPages.EveryPageStep | src/task/process.c:47-94 | a call changes the word of a page only by putting it into a live slot or freeing it |
| ProcessPages.FailedMallocKeepsPages | src/task/process.c:67-69 | an allocation that fails changes no mapping |
| ProcessPages.NewProcess | src/task/task.c:146-163 | task_init gives a space in which a program may read every address, at itself, and write none, and whose directory grants everything; all slots are null, and the invariant holds |
| ProcessPages.MallocFreeFreeNullOf | src/task/process.c:47-94 | the three calls on any process that has a free block and slot and page 0 present: a program faults on page 0 after them |
| Loader.MapElf | src/task/process.c:167-192 | maps the segments in order up to the first one that the mapping refuses |
| Loader.MapSegment | src/task/process.c:174-188 | maps one segment, or refuses it and changes nothing |
| Loader.AfterSegmentsKeeps | src/task/process.c:167-192 | mapping segments writes page tables only and keeps the directory |
| Loader.MapBinary | src/task/process.c:157-165 | maps the program's pages at the program address |
| Loader.MapMemory | src/task/process.c:194-217 | flat mapping, program by type, and the stack unless a segment was refused |
| Loader.CoveredPage | src/task/process.c:167-192 | with page-disjoint segments, a segment's page has the word that segment gave it |
| Loader.UncoveredPage | src/task/process.c:167-192 | pages of no segment keep their word |
| Loader.SegmentAccess | src/task/process.c:178-181 | a page that has a segment's word may be read, and written to exactly when bit 1 of p_flags is set |
| Loader.SegmentTranslates | src/task/process.c:167-192 | accesses to a congruent segment go to their bytes of the image; a write does so exactly when bit 1 of p_flags is set, and else faults |
| Loader.SegmentAstray | src/task/process.c:167-192 | the first address of a non-empty segment that is not congruent does not reach its byte of the image |
| Loader.StackTranslates | src/task/process.c:194-217 | accesses to the addresses from 0x3FB000 to 0x3FF000, to read and to write, go to the stack's memory; all other pages keep their word and their rights |
| Loader.BinaryTranslates | src/task/process.c:157-217 | accesses to a flat program's addresses, from 0x400000 on, to read and to write, go to its bytes |
| ProgramRuns.SegmentKeptIff | src/task/process.c:47-94 | a segment that is reached as its flags say before a run of process_malloc and process_free is so after it if and only if its addresses are spared: in no live slot at the end and in none that was freed, or in a live slot and from the start writeable at themselves |
| ProgramRuns.PageKeptIff | src/task/process.c:47-94 | a page with a flag keeps its word over a run if and only if it is spared: in no allocation at the end and never freed, or mapped to itself for the user from the start |
| ProgramRuns.OutsideHeapKept | src/task/process.c:47-94 | over every run a page outside the heap keeps its word, is in no live slot and in none that is freed |
| ProgramRuns.StackLasts | src/task/process.c:194-217 | the stack is reached, to read and to write, after every run |
| ElfBounds.ElfFile.ProcessLoad | src/loader/formats/elfloader.c:94-110 | widens the bounds by one segment |
| ElfBounds.ElfFile.ProcessHeaders | src/loader/formats/elfloader.c:112-144 | stops at the first segment that is not loadable; otherwise the bounds of all segments |
| ElfBounds.EndIsGreatest | src/loader/formats/elfloader.c:94-110 | the virtual end is the greatest end of a segment, and the physical end belongs to the last segment with it |
| ElfBounds.EndCoversAddresses | src/loader/formats/elfloader.c:102-106 | every address of the file part of a segment that does not wrap lies below the virtual end; when none wraps, one of them ends there |
| ElfBounds.BaseIsOfSegment | src/loader/formats/elfloader.c:94-110 | virtual and physical base belong to one and the same segment, and the segments behind it all start higher |
| ElfBounds.ZeroSegmentIsForgotten | src/loader/formats/elfloader.c:97-100 | two segments for which the base is not the least |
| Tasks.TaskList.GetNext | src/task/task.c:22-28 | the member after the current one, going round at the end |
| Tasks.TaskList.Unlink | src/task/task.c:30-37 | the neighbours of a member are linked to each other, and the member keeps its own links |
| Tasks.Switch | src/task/task.c:59-63 | a member becomes current and the list stays valid |
| Tasks.Advance | src/task/task.c:22-63 | switching to what task_get_next gives makes the next member current, going round at the end |
| Tasks.AfterNextIs | src/task/task.c:22-28 | where k steps round the ring lead |
| Tasks.RoundVisitsAll | src/task/task.c:22-28 | the indices that n steps visit are all of them, once each, and the last step returns to the first |
| CopyStrings.CopyThroughTask | src/task/task.c:97-99 | the copy through the task's tables changes only the borrowed page, which receives a string that agrees with what is read and a NUL, and keeps its bytes behind them |
| CopyStrings.RemapUndone | src/task/task.c:94-105 | putting the old word back leaves memory as it was but for the borrowed page |
| CopyStrings.StringSeen | src/task/task.c:94-98 | while the temporary mapping stands, a string clear of the temporary page reads as it was but for its bytes in the edited word, which are those of the new word |
| CopyStrings.EditedWordIsSeen | src/task/task.c:94-98 | a byte of the string that lies in the edited word reads as a byte of the new word |
| CopyStrings.SeenIffAgrees | src/task/task.c:94-98 | a byte reads as it was if and only if it lies outside the edited word or is the same in the old and the new word |
| CopyStrings.RightIffSame | src/string/string.c:40-52 | a copy gives the right string if and only if the bytes it reads, up to the NUL or as many as fit, are the right ones |
| CopyStrings.BorrowPage | src/task/task.c:93-105 | the whole use of the task's tables changes nothing but the page, which holds the string that the seen bytes make |
| CopyStrings.BorrowedPageIsReached | src/task/task.c:96-98 | while the temporary page is mapped, its bytes are reached through the task's tables, to read and to write, by the bits of both levels |
| CopyStrings.CopyOut | src/task/task.c:107 | the kernel buffer receives the string and a NUL, and nothing else is written |
| CopyStrings.PutBytesAt | src/string/string.c:40-52 | what a byte-wise store leaves at every address |
| CopyStrings.CopyKeepsMappings | src/task/task.c:80-114 | writing the borrowed page and a buffer outside the tables and the free blocks leaves every mapping |
| CopyStrings.FirstByteDiffers | src/task/task.c:94-98 | in a new task's space the word of the page of any heap block outside the space says "present, for the user" in its first byte, is clear of that page and does not agree |
| CopyStrings.CopyOneByte | src/task/task.c:80-114 | the copy in such a space: a string of at most one character arrives at address 0 by way of the first free block, and is not what was there |
| Streamers.SectorBytes | src/disk/streamer.c:28-46 | flat bytes that do not cross a sector boundary are a piece of one sector |
| Streamers.SectorIsThere | src/disk/streamer.c:28-46 | sector n is bytes 512 n to 512 n + 511 of the flat disk |
| Streamers.DiskBytesConcat | src/disk/streamer.c:28-56 | reading a and then b bytes is reading a + b |
| Streamers.ReadsJoin | src/disk/streamer.c:44-52 | the first sector's part and the rest, stored one behind the other, are the whole read |
| Streamers.DiskStream.ReadInSector | src/disk/streamer.c:28-48 | delivers the flat bytes that lie in the current sector and moves the position behind them |
| Fat16.GetFatEntry | src/fs/fat/fat16.c:319-344 | the two bytes at the position the code computes, reserved sectors times 512 times the cluster times 2, wrapped, lowest first |
| Fat16.HalfIsTwoBytes | src/fs/fat/fat16.c:334-340 | the 16-bit number at a position is its two bytes, lowest first |
| Fat16.ChainGoesOn | src/fs/fat/fat16.c:346-385 | the walk goes on to the number those bytes hold, unless it is 0, 0xFF0, 0xFF6, 0xFF7, 0xFF8 or 0xFFF |
| Fat16.EntryPositionIsPast | src/fs/fat/fat16.c:328-329 | as long as the product does not wrap, the computed position is past the specified one |
| Fat16.MarkIsFollowed | src/fs/fat/fat16.c:356-380 | none of the 16-bit marks from 0xFFF7 on ends the walk: the code takes the mark for the next cluster |
| Fat16.GetClusterForOffset | src/fs/fat/fat16.c:346-385 | the cluster of the offset along the chain, or an error exactly when the walk stops earlier |
| Fat16.ChainStaysBroken | src/fs/fat/fat16.c:346-385 | a chain that stops has no later cluster |
| Fat16.DivisionFindsPlace | src/fs/fat/fat16.c:352-396 | quotient and remainder by the cluster size are the cluster number and the place in it |
| Fat16.ReadFirstPiece | src/fs/fat/fat16.c:387-411 | one piece from the cluster of the offset, or an error, with nothing written outside its part |
| Fat16.ReadsJoin | src/fs/fat/fat16.c:387-421 | a whole first piece and the read of the rest are the whole read |
| Fat16.ReadInternal | src/fs/fat/fat16.c:387-421 | terminates; fails exactly when the chain is too short; else delivers the pieces; writes nothing outside its part |
| Fat16.PieceBytesAt | src/fs/fat/fat16.c:387-421 | which disk byte each byte of a read is |
| Fat16.AlignedIsInPlace | src/fs/fat/fat16.c:402 | every byte of an aligned read comes from its place in the file |
| Fat16.MisalignedGoesAstray | src/fs/fat/fat16.c:402 | a read that is not aligned has a byte from elsewhere |
| Fat16.ExampleGoesAstray | src/fs/fat/fat16.c:402 | a volume and a file for which a read of 512 bytes from offset 1 delivers a byte of another cluster |
| Fat16.FileReaches | src/fs/fat/fat16.c:346-421 | a chain long enough for the file lets the read succeed |
| Fat16.ReadItem | src/fs/fat/fat16.c:604-612 | one turn of the loop: the item behind those read so far, or an error exactly when it cannot be reached |
| FatLayout.ClusterIsPiece | src/fs/fat/fat16.c:311-313 | the data of cluster c is piece c - 2 of the disk, cut into clusters from the data area on |
| FatLayout.FileBytesAreContent | src/fs/fat/fat16.c:387-421 | the bytes of the file are a slice of the data of its clusters, one after the other |
| FatLayout.BootVolume | src/boot/boot.asm:13-19 | on the repository's own volume cluster 2 is at sector 716 and cluster 3 is 128 sectors further |
| FatArithmetic.NoAgreement | src/fs/fat/fat16.c:328-329 | the two positions do not agree modulo 2^32 |
| Strings.Strncpy | src/string/string.c:40-52 | the string cut to count - 1 characters and a NUL, and nothing behind it |
| Strings.Strnlen | src/string/string.c:17-26 | the string's length, at most the bound |
| Strings.Strlen | src/string/string.c:11-15 | the string's length |
| Strings.CStringHasNoNul | src/string/string.c:11-15 | a C string is the prefix before the first NUL |
| Strtok.SpansAfterDelimiter | programs/stdlib/src/string.c:137-149 | going on from the delimiter or from behind it finds the same words |
| Strtok.Tokenizer.SkipDelimiters | programs/stdlib/src/string.c:117-130 | the first place from the cursor that holds no delimiter |
| Strtok.Tokenizer.CutWord | programs/stdlib/src/string.c:137-149 | a NUL over the delimiter that ends the word, and no other write |
| Strtok.Tokenizer.First | programs/stdlib/src/string.c:106-152 | the call with a buffer |
| Strtok.Tokenizer.Next | programs/stdlib/src/string.c:106-152 | the next word in order and the cursor before those left, or NULL, then and ever after |
| Strtok.FoundText | programs/stdlib/src/string.c:106-152 | the string at the returned place is the word |
| Strtok.NoEndInside | programs/stdlib/src/string.c:137-149 | no NUL that ends a word falls inside a word |
| Strtok.CutWordsRead | programs/stdlib/src/string.c:106-152 | when all words are cut off, each still reads as itself |
| Strtok.FewWords | programs/stdlib/src/string.c:106-152 | a string has no more words than characters |
| Commands.NewNode | programs/stdlib/src/peachos.c:18-24 | a node with the token cut to 511 characters, exactly when a block and a slot of the calling process are free, which it takes |
| Commands.AllocateNode | src/isr80h/heap.c:5-9 | the system call behind peachos_malloc: process_malloc in the calling process, for the size of a node |
| Commands.AddNode | programs/stdlib/src/peachos.c:28-35 | a node for the next word, or NULL when no block or no slot is left; the list stays as it was |
| Commands.LinkNode | programs/stdlib/src/peachos.c:36-37 | a further node, linked behind the last |
| Commands.AddWord | programs/stdlib/src/peachos.c:27-40 | one turn of the loop: the list grown by the next word, or unchanged when no block or no slot is left |
| Commands.ParseRest | programs/stdlib/src/peachos.c:26-40 | a list of the words as far as blocks and slots go |
| Commands.ParseTokens | programs/stdlib/src/peachos.c:18-43 | the list from the first token on, or none when no block or no slot is free |
| Arguments.CountArguments | src/task/process.c:319-329 | the number of list nodes |
| Arguments.StrncpyToPage | src/string/string.c:40-52 | the string, cut, and a NUL at the start of an allocation's page; the page's bytes behind them and other pages untouched |
| Arguments.MallocConfined | src/task/process.c:47-70 | an allocation of any size, successful or not, changes of the pages in runs outside the process only its own tables |
| Arguments.MallocKeepsFilled | src/task/process.c:343-347 | a further allocation disturbs none of the slots and strings already there |
| Arguments.SlotAdded | src/task/process.c:349 | setting the next slot extends the vector and writes nothing behind its slots |
| Arguments.FreshTailKept | src/task/process.c:338-341 | taking the vector writes nothing behind its slots |
| Arguments.NewVector | src/task/process.c:338-341 | argv's run, exactly when it fits and a slot is free |
| Arguments.NewString | src/task/process.c:344-347 | a block for one string, exactly when a block and a slot are free; nothing already there is disturbed |
| Arguments.AddArgument | src/task/process.c:343-351 | one turn of the loop, which succeeds exactly when a block and a slot are free, and takes nothing otherwise |
| Arguments.FillVector | src/task/process.c:343-351 | the loop makes strings as far as blocks and slots go, and succeeds exactly when that is one for every argument; then every slot of argv points to its own allocation with its argument |
| Arguments.RoomForOnePage | src/task/process.c:338-347 | for an argv of one page the room is n + 1 free blocks and n + 1 free slots |
| Arguments.StringsDecide | src/task/process.c:338-352 | with argv's run taken, success is a matter of blocks and slots for the strings; what is left free in either case |
| Arguments.ParseFor | programs/stdlib/src/peachos.c:82-92 | the parse leaves the memory of the process loaded for the command consistent, with the nodes' blocks outside it, and its slots and arguments as they were |
| Arguments.RunBeside | programs/stdlib/src/peachos.c:82-92 | -1 without a list; giving the arguments to one process leaves the memory of the other sound and its slots alone |
| Arguments.RunWith | programs/stdlib/src/peachos.c:82-92 | peachos_system with a list of words: argc and argv, or -ENOMEM |
| PathParser.JoinSplit | src/fs/pparser.c:33-53 | the pieces between slashes have no slash and make up the path |
| PathParser.SplitJoin | src/fs/pparser.c:33-53 | pieces without slashes are found again |
| PathParser.BeforeEmptyIsPrefix | src/fs/pparser.c:47-60 | the components are the pieces before the first empty one |
| PathParser.FirstComponent | src/fs/pparser.c:33-53 | one component and its slash taken off leave the components that follow |
| PathParser.DriveByPath | src/fs/pparser.c:8-23 | the drive digit, or an error exactly when the path does not start with a drive |
| PathParser.AcceptedIff | src/fs/pparser.c:8-23 | a path is accepted if and only if it has at most 108 characters and begins with a digit, a colon and a slash |
| PathParser.CreateRoot | src/fs/pparser.c:25-30 | the root with its drive in a fresh block |
| PathParser.CopyPart | src/fs/pparser.c:33-40 | the loop copies exactly the component into the cleared block, within its 108 bytes: the bytes of the block from the component's end on stay as they were; of an empty component nothing is copied, not even to NULL |
| PathParser.GetPathPart | src/fs/pparser.c:33-53 | a fresh block with the component; for an empty one NULL, and the block, if there was one, is given back |
| PathParser.ListGrows | src/fs/pparser.c:61-68 | a filled node behind the last one extends the list and disturbs no other part |
| PathParser.ParsePathPart | src/fs/pparser.c:55-70 | the list grown by the component, or unchanged and NULL when it is empty |
| PathParser.ParseRest | src/fs/pparser.c:109-113 | the loop: all components before the first empty one |
| PathParser.ParseComponents | src/fs/pparser.c:103-113 | the list behind a root in place, linked to the root by its first node |
| PathParser.Free | src/fs/pparser.c:72-82 | gives back exactly the path's blocks |
| PathParser.PathBlocksCount | src/fs/pparser.c:72-82 | a path of n components has 2n + 1 blocks |
| Terminal.GetKeyBlock | programs/stdlib/src/peachos.c:46-53 | the first key that is not zero, or still waiting |
| Terminal.ZerosHoldLine | programs/stdlib/src/peachos.c:46-53 | polling in vain changes neither the line nor whether it is finished |
| Terminal.KeyTyped | programs/stdlib/src/peachos.c:66-76 | the index and the buffer after a key hold the edited line |
| Terminal.TextIsHeld | programs/stdlib/src/peachos.c:66-76 | of keys that are no backspace and no NUL every one is held |
| Terminal.BackspaceTakesBack | programs/stdlib/src/peachos.c:66-71 | a character and a backspace behind it leave what is held, and all that follows, as without them |
| Terminal.BackspaceAtStart | programs/stdlib/src/peachos.c:66-67 | a backspace on an empty line changes nothing |
| Keyboards.PlaceOfUnsigned | src/keyboard/keyboard.c:35-37 | the unsigned remainder of a counter is the same place as for the counter itself |
| Keyboards.PushKeeps | src/keyboard/keyboard.c:46-57 | a push on a ring that is not full appends to the queue |
| Keyboards.PopKeeps | src/keyboard/keyboard.c:59-76 | pop returns and removes the oldest character, and zero exactly when there is none |
| Keyboards.BackspaceKeeps | src/keyboard/keyboard.c:39-44 | backspace removes the newest character |
| Keyboards.BackspaceOnEmptyHidesNext | src/keyboard/keyboard.c:39-44 | after a backspace on the empty ring the next character is not found |
| Keyboards.PushOnFullReplacesOldest | src/keyboard/keyboard.c:46-57 | a push on the full ring takes the place of the oldest character |
| Keyboards.KeyboardBuffer.Push | src/keyboard/keyboard.c:46-57 | the ring after a push |
| Keyboards.KeyboardBuffer.Pop | src/keyboard/keyboard.c:59-76 | the character at head, and the ring after a pop |
| Keyboards.KeyboardBuffer.Backspace | src/keyboard/keyboard.c:39-44 | the ring after a backspace |
| Itoa.DecimalDenotes | programs/stdlib/src/stdlib.c:15-19 | the digits of a positive number denote it and have no leading zero |
| Itoa.DigitsAreDecimal | programs/stdlib/src/stdlib.c:15-19 | digits without a leading zero are the digits of the number they denote |
| Itoa.AtMostTenDigits | programs/stdlib/src/stdlib.c:5-6 | the magnitude of a 32-bit number has at most ten digits |
| Itoa.DigitWritten | programs/stdlib/src/stdlib.c:15-19 | one turn of the loop moves the last digit from the number to the text |
| Itoa.ParsesDigitByDigit | programs/stdlib/src/stdlib.c:15-19 | reading a text with a further digit, byte 48 + d, gives ten times the number and d |
| Itoa.ParsesSign | programs/stdlib/src/stdlib.c:24-26 | a minus sign, byte 45, before the text of a positive number makes it negative |
| Itoa.WriteDigits | programs/stdlib/src/stdlib.c:15-19 | the digits of the magnitude before the NUL, computed on a number that is not positive |

## Left out

* Assembly, boot code, interrupt entry, register switching and CR3 loads: `paging_switch` only decides which
  directory translates, so a routine that runs under a task's tables takes that directory as an argument.
* Port I/O: the disk is a total function from sector number to 512 bytes, there is one disk, and reads
  succeed; for the file system this leaves chain errors as the only errors of a read.
* FAT directory handling, 8.3 names and `fat16_resolve` (`src/fs/fat/fat16.c:139-305`): they rely on bytes behind
  fixed-size name fields and on counts that skip deleted entries.
* The file descriptor table, and `process_load` with its slot table and error paths
  (`src/task/process.c:219-304`): resource cleanup is unfinished there.
* ELF file input, header validation and section accessors. The bytes behind p_filesz are not cleared by the
  code, so only translation is claimed for them.
* Terminal output, the shell, IDT, GDT and system-call dispatch: wrappers and user interface.
* Overflow of signed ints: sizes, positions and counters are bounded or unbounded integers. Unsigned
  wrap-around is modelled where the code runs into it: block indices, page-table offsets, address sums,
  segment ends and the position of a FAT entry.
* The heap's entry table is an array of its own and no part of physical memory; heap sizes are at least 1
  and at most 0xFFFFF000, above which rounding up wraps to zero.
* Requests of more than one block need a long enough gap or a taken last block (`CanServe`), because of
  the short tail; one-block requests need nothing.
* The nodes of the command list, the tasks and the process record are objects, not bytes of memory (the blocks
  and slots that the nodes take are counted); the path list, the argument vector, the page tables and all strings behind pointers are bytes of memory.
* `task_new` and `task_init` clear as many bytes as a pointer has (`src/task/task.c:147`, `src/task/task.c:168`);
  null links of a fresh task are taken as given.
- Heaps.Heap.Malloc: takes no request that a shorter free tail would serve, on which the code marks blocks past its table; Heaps.MarksStayInTableIff is the exact guard.
- Kheap.Kernel.Kmalloc: takes the same requests as Heaps.Heap.Malloc.
- Kheap.Kernel.Kzalloc: takes the same requests as Heaps.Heap.Malloc.
- Processes.Process.Malloc: takes the same requests as Heaps.Heap.Malloc.
- Kheap.Kernel.Kfree: takes NULL and starts of live runs; what other pointers do to the table is said by Heaps.Heap.Free.
- Paging.PagingNew4gb: takes a heap with at least 1026 free blocks; with fewer the code writes through NULL, which is not modelled.
- Paging.PagingMapRange: the physical range does not wrap; paging_map_to, its one caller, passes no other.
- PathParser.Parse: takes a heap with at least the 2n + 1 free blocks that the path needs; with fewer the code writes through NULL, which is not modelled.
- Terminal.ReadLine: the int that peachos_getkey returns is taken to be a character, and the echo is not modelled.
- Keyboards.RunRefinesQueue: the counters are unbounded, so nothing is said about their overflow.
- Arguments.SystemRun: the new process is taken as loaded when the command is parsed, so that the numbers of free blocks and slots are those behind process_load, whose own allocations are not modelled.
- Loader.ElfTranslatesIff: only for segments on separate pages that do not wrap; what overlapping segments map is given by the order of the mappings alone.
- Fat16.ReadInternal: the positions of the entries that the walk reads and of the pieces that are read are required to fit a signed int; nothing is required of the rest of the chain.
- CopyStrings.CopyStringFromTask: the user string is read as if all its pages were present, since page faults are not modelled; the kernel buffer lies outside the heap or in live runs, and not in the task's tables; of a string that is read through the temporary page it says only that some string arrives.
