# dalek: proofs about the boot loader and its runtime

The repository is a two-stage boot loader for the x86: an installer in Python, a first stage in
16-bit assembly, and a second stage in C that brings its own runtime: a heap, a text screen, a keyboard, a
timer, a floppy driver, number and string conversion, and formatted output. This project
models the parts of it that compute with state and proves what they keep, what they undo, and what they
promise over whole runs. Where a promise fails, the exact condition under which it holds is a theorem.

`dafny verify dfyconfig.toml` checks everything.

## How it is built

Code that changes state in place is a class or a method over arrays here too, and each such method is proved
equal to a specification function on values; the lemmas are about those functions.

* **Heap** (`HeapModel`, `HeapInvariant`, `HeapRuns`, `Heap`). The list nodes live in the memory that is handed
  out. Memory is a map from addresses to node records, and writing a record destroys every record that shares
  a byte with it, so the methods verify only because the nodes are proved to be apart. On values, the heap is two
  lists of blocks; conservation is proved for every additive measure of byte intervals, of which the number
  of bytes and the number of blocks covering a byte are instances. A run is a sequence of
  requests, releases and stores by a client that releases and writes only what it owns.
* **Install and boot** (`Installer`, `Division`, `Stage1`, `BootChain`). The installer's splitter and packer, the
  first stage's registers and variables with their widths, and the theorem that joins them.
* **Keyboard** (`Keyboard`). The decoder, and the queue as a transition system in which an interrupt may come
  between any two loads, stores and halts of the reader.
* **Screen** (`Copy`, `Screen`, `Sequences`, `Console`, `LogEntry`). The screen is a window on a tape of cells that
  only grows. The class holds 32K of video memory, the cursor and the attributes, and is proved to show that window
  after every byte.
* **Conversions** (`Bytes`, `Numbers`, `Parsing`, `Printf`, `Directives`, `Split`). What a specification function
  computes is told once more over texts: `Parsing` over the texts of numbers in their bases, `Directives` over
  formats, `Sequences` over escape sequences.
* **Timer and floppy** (`Timer`, `Motor`, `Floppy`). Motors are stopped by a timer task, so the two are proved
  together; the controller is an oracle for data, error and timeout.

## Where the code and its words differ

The model follows the code.

* `mm_initialize` says it takes the first pool entry above 1 MB; the loop keeps the last one
  (`bootloader/stage2/memory.c:49-56`). It reserves 256 bytes, 16 whole structs, where one
  struct is meant, and its size is the length less an absolute address; see `InitInsidePoolIff`.
* The free list's `prev` is always NULL, and stays NULL when a node is put in front of another
  (`bootloader/stage2/memory.c:197-202`): only the used list is doubly linked.
* The test `size < 0` in `malloc` is on an unsigned number (`bootloader/stage2/memory.c:128`); the branch
  is never taken, and a used-up free block stays on its list with size 0.
* The installer respects the file system's header and the mark, and no more (`bootloader/install.py:225-231`): the
  table is written over the end of the first stage's own program. By the lengths of its instructions and strings the
  program ends its last jump before byte 343 of the sector and its last message before byte 452, and the table ends
  at byte 510; see `ProgramSurvivesIff`.
* `kb_getc` compares the indices and then halts (`bootloader/stage2/devices/keyboard/keyboard.c:128-129`); a key that
  comes between the two does not wake it. See `SleepsOnQueuedKey`.
* "No one running over a 64k boundary" (`bootloader/install.py:78`) holds for one range; see `SplitCrossesIff`.
* A screen row takes 81 characters, of which the last is overwritten; see `PlainText`.
* Escape sequences end at bytes 0x41 to 0x7D here, at 0x40 to 0x7E in section 5.4 of ECMA-48.
* `itoa_s` writes the minus sign behind the number; see `ItoaShape`, `RoundTripIff` and `DecimalIff`.
* A zero digit in a width without flag is taken for the flag '0' (`bootloader/stage2/stdio.c:108-117`); see `WidthReadsIff`.
* "3 seconds" (`bootloader/stage2/devices/floppy/floppy.c:358`) are 300 ticks of a millisecond; see `KilledInTime`.
* `fd_seek` returns the offset asked for when there is nothing to do; see `SeekReturnsIff`.

## Model

| member | source | states |
|---|---|---|
| `HeapModel.MallocConserves` | bootloader/stage2/memory.c:87-143 | malloc only moves bytes between the lists: every additive measure of the blocks is the same before and after, for any request, also one that wraps |
| `HeapModel.MergeConserves` | bootloader/stage2/memory.c:181-191 | merging a block with either neighbour adds exactly the block's measure, on both sides |
| `HeapModel.AddNodeConserves` | bootloader/stage2/memory.c:197-202 | the fallback that allocates inside free adds exactly the freed block's measure when a free block can hold the node |
| `HeapModel.FreeConserves` | bootloader/stage2/memory.c:148-204 | free keeps every additive measure through both merges and the fallback |
| `HeapRuns.InvSeparates` | bootloader/stage2/memory.c:87-204 | in a heap that keeps the invariant any two blocks, of one list or of both, are separate intervals |
| `HeapRuns.RunSeparates` | bootloader/stage2/memory.c:42-204 | so are they after every legal run, also one in which an inner malloc has failed |
| `HeapInvariant.UsedArea` | bootloader/stage2/memory.c:113-121 | 16 bytes inside a used block overlap no other used node, and no free-list node but the one it hosts |
| `HeapInvariant.FreeArea` | bootloader/stage2/memory.c:113-121 | 16 bytes inside a free block overlap no list node at all, so a node may be written there |
| `HeapInvariant.NodesApart` | bootloader/stage2/memory.c:62-79 | all list nodes of a heap that keeps the invariant are apart from each other, within and across the lists |
| `HeapInvariant.MallocInv` | bootloader/stage2/memory.c:87-143 | malloc keeps the invariant: blocks disjoint, nodes in bytes of their own, for every request whose header does not wrap |
| `HeapInvariant.UnlinkInv` | bootloader/stage2/memory.c:167-174 | taking a block off the used list keeps the invariant and leaves its bytes in no block |
| `HeapInvariant.MergeInv` | bootloader/stage2/memory.c:179-195 | merging a detached block keeps the invariant |
| `HeapInvariant.StrandedInv` | bootloader/stage2/memory.c:197-202 | losing the whole free list, when the inner malloc fails, still keeps the invariant |
| `HeapInvariant.AddNodeInv` | bootloader/stage2/memory.c:197-202 | describing a block by a freshly allocated node keeps the invariant |
| `HeapInvariant.FreeInv` | bootloader/stage2/memory.c:148-204 | free keeps the invariant for every pointer that carries no list node, also for addresses that malloc never gave and also when the inner malloc fails |
| `HeapRuns.MallocSucceedsIff` | bootloader/stage2/memory.c:95-142 | malloc succeeds exactly when n + 16 is at most the biggest free block, and then the new used block is cut from the front of the first free block in list order that is large enough |
| `HeapRuns.HeaderFitsIff` | bootloader/stage2/memory.c:90 | the carved block has room for its own header exactly when n + 16 does not wrap |
| `HeapRuns.FreeConservesIff` | bootloader/stage2/memory.c:197-202 | free keeps the total of both reports exactly when a neighbour exists or a free block of 32 bytes can hold the new node (or the pointer is unknown) |
| `HeapRuns.MallocThenFree` | bootloader/stage2/memory.c:113-192 | releasing what was just allocated never needs a new node, restores the used list, the set of free bytes and both totals |
| `HeapRuns.FreeReleases` | bootloader/stage2/memory.c:163-203 | every byte of the released block becomes free and the other used blocks stay; one free and one used block more, the node's, exactly when the block had no free neighbour |
| `HeapRuns.OneSidedMerge` | bootloader/stage2/memory.c:176-195 | a block released between two free blocks joins the first in list order, and the two stay separate although they touch |
| `HeapRuns.RunNeverMerges` | bootloader/stage2/memory.c:87-204 | so over every such run the number of free blocks never falls |
| `HeapRuns.InitInv` | bootloader/stage2/memory.c:62-79 | the initial lists keep the invariant and cover exactly the pool's bytes, each once |
| `HeapRuns.InitInsidePoolIff` | bootloader/stage2/memory.c:77-78 | the initial free block ends inside its pool entry exactly when the entry's length reaches the block's start address |
| `HeapRuns.StepKeepsClientInv` | bootloader/stage2/memory.c:87-204 | every client call keeps the invariant and the ownership of all its live pointers |
| `HeapRuns.RunKeepsClientInv` | bootloader/stage2/memory.c:87-204 | so does every run |
| `HeapRuns.RunConservesIff` | bootloader/stage2/memory.c:87-273 | no legal run gains bytes; it keeps every byte, and equally the sum of the two totals, exactly when none of its releases needs a node that cannot be allocated |
| `HeapRuns.StrandedRunLoses` | bootloader/stage2/memory.c:197-202 | a legal run in which the inner malloc fails once ends with fewer bytes on the lists, whatever follows |
| `HeapRuns.StrandingIsReachable` | bootloader/stage2/memory.c:148-204 | from initialisation, two requests and one release reach such a failure, and the free list is empty afterwards |
| `HeapRuns.PayloadSafe` | bootloader/stage2/memory.c:141-142 | a byte of a payload is in one block only and in no list node |
| `HeapRuns.RunSafe` | bootloader/stage2/memory.c:87-204 | after every legal run from initialisation every byte of every live payload is in one block only and in no list node |
| `HeapRuns.AllocationLasts` | bootloader/stage2/memory.c:87-204 | the n bytes malloc returned stay one undisturbed block until released, whatever runs before and after |
| `HeapRuns.RunTilesPoolIff` | bootloader/stage2/memory.c:62-79 | after a legal run the blocks tile exactly the pool, and equally free total plus used total is the pool's size, exactly when no inner malloc has failed; otherwise less |
| `Heap.Heap.constructor` | bootloader/stage2/memory.c:62-79 | the two first nodes in memory form the two lists of the initial state |
| `Heap.Heap.FindFit` | bootloader/stage2/memory.c:93-100 | following next finds the first block that is large enough, or NULL when there is none |
| `Heap.Heap.Carve` | bootloader/stage2/memory.c:110-125 | the stores that cut a block off a free node, as one change of memory |
| `Heap.Heap.Malloc` | bootloader/stage2/memory.c:87-143 | the lists in memory afterwards and the pointer are those of the value-level malloc, and no intact record outside the nodes and the new header is destroyed |
| `Heap.Heap.Search` | bootloader/stage2/memory.c:153-161 | the search finds the used block that starts 16 bytes before the pointer, or NULL exactly when there is none |
| `Heap.Heap.Unlink` | bootloader/stage2/memory.c:167-174 | the block leaves the doubly linked list, both directions are repaired, and its record stays intact outside every block |
| `Heap.Heap.Merge` | bootloader/stage2/memory.c:179-195 | the block joins the first adjacent free block in list order; nothing is written when there is none |
| `Heap.Heap.AddNode` | bootloader/stage2/memory.c:197-202 | after the inner malloc the block is at the head of the free list, or that list is lost when the malloc failed |
| `Heap.Heap.Free` | bootloader/stage2/memory.c:148-204 | the lists in memory afterwards are those of the value-level free, on every path |
| `Heap.Heap.ClientWrite` | bootloader/stage2/memory.c:141-142 | a store into an owned payload destroys no list node |
| `Heap.IntactIff` | bootloader/stage2/memory.c:113-125 | writing a record keeps it and exactly the other records that share no byte with it, unchanged; writing a byte destroys exactly the records it is in |
| `Heap.Heap.AllocatableFree` | bootloader/stage2/memory.c:244-257 | the sum and the maximum of the free sizes; the 32-bit sum never wraps |
| `Heap.Heap.AllocatableUsed` | bootloader/stage2/memory.c:262-273 | the sum of the used sizes, without wrap |
| `Heap.ChainsEnd` | bootloader/stage2/memory.c:93-100 | both chains of next pointers end in NULL and never come back to a node |
| `Heap.Perform` | bootloader/stage2/memory.c:87-204 | one client call in memory has the effect of the value-level step |
| `Heap.Drive` | bootloader/stage2/memory.c:42-204 | every legal run in memory, with stores of the client in between, ends in the state of the value-level run |
| `Installer.Avoid64kBoundary` | bootloader/install.py:76-97 | the loops compute the list of chunks of the specification, for every list of ranges |
| `Installer.SplitKeepsSectors` | bootloader/install.py:76-97 | the chunks name the same sectors in the same order |
| `Installer.SplitChunked` | bootloader/install.py:80-95 | from counts of at least 1 every chunk has a count of 1 to 128, which the first stage's byte counter can hold |
| `Installer.PageOf` | bootloader/install.py:85-93 | up to 128 sectors stay in one 64K page exactly when they start on a boundary or end before the next one |
| `Installer.SplitOneCrossesIff` | bootloader/install.py:83-95 | a range loaded at sector offset o is free of crossings exactly when it ends before the next boundary, the boundary is 65 sectors away, or it starts on one and has at most 128 sectors |
| `Installer.SplitCrossesIff` | bootloader/install.py:76-97 | a whole table is free of crossings exactly when each range passes that check where it is loaded |
| `Installer.SingleRangeNeverCrosses` | bootloader/install.py:76-97 | the docstring's promise holds for one contiguous file of any length |
| `Installer.TwoRangesCanCross` | bootloader/install.py:83-88 | it fails for two ranges of 60 sectors |
| `Installer.PackWords` | bootloader/install.py:112-116 | packing succeeds exactly on 16-bit values, and every word reads back from its place |
| `Installer.AssembleIff` | bootloader/install.py:220-231 | the new boot sector has 512 bytes exactly when the payload has at most 448; header, code, payload and mark are then in their places |
| `Division.DivisionOperators` | bootloader/stage1/fat1x.s:98-106 | quotient and remainder by repeated subtraction, which the geometry proofs use, are those of division |
| `Stage1.Loader.GetParams` | bootloader/stage1/fat1x.s:163-182 | the head count becomes that of the BIOS, the track size only in its low byte: the geometry is right exactly when the disk's header has nothing in the high byte |
| `Stage1.Loader.Locate` | bootloader/stage1/fat1x.s:98-113 | the packed registers decode to the sector's coordinates, with the cylinder cut to ten bits |
| `Stage1.Loader.ReadOne` | bootloader/stage1/fat1x.s:115-130 | up to three attempts; memory changes only by the sector read at the located place |
| `Stage1.AttemptIff` | bootloader/stage1/fat1x.s:115-130 | n attempts succeed exactly when the disk does not fail at one of the next n |
| `Stage1.AttemptSucceeds` | bootloader/stage1/fat1x.s:115-130 | the first attempt at which the disk does not fail ends them, and is the last one made |
| `Stage1.AttemptFails` | bootloader/stage1/fat1x.s:115-130 | when the disk fails at the next n, all n are made and fail |
| `Stage1.Loader.ReadSectors` | bootloader/stage1/fat1x.s:91-145 | the loop reads consecutive sectors to consecutive 512-byte places; a count byte of 0 means 256; failure exactly when three attempts fail |
| `Stage1.Loader.LoadLoop` | bootloader/stage1/fat1x.s:214-246 | the table loop has the outcome of the specification, including the check of the final pointer |
| `Stage1.Loader.Load` | bootloader/stage1/fat1x.s:197-253 | so has the whole loader from the disk parameters on |
| `Stage1.Cylinder` | bootloader/stage1/fat1x.s:101-113 | packing the cylinder's two high bits above a 6-bit sector loses nothing below cylinder 1024 and sector 64 |
| `Stage1.TargetIff` | bootloader/stage1/fat1x.s:98-113 | the sector read is the one asked for exactly when its cylinder is below 1024 |
| `Stage1.SelfCheckPanicsIffEmpty` | bootloader/stage1/fat1x.s:201-246 | the self-check fails for an empty table and for no other, over every count of 16 bits |
| `BootChain.ReadNDeposits` | bootloader/stage1/fat1x.s:91-141 | a successful read puts the sectors down in turn and leaves memory below the load address, with the table, as it was |
| `BootChain.LoadTableDeposits` | bootloader/stage1/fat1x.s:214-241 | from any table behind the first stage's variables, of any total, every sector is put down in turn |
| `BootChain.DepositHits` | bootloader/stage1/fat1x.s:132 | an area holds the last sector that was put there, with the 16-bit offset wrapping after 128 |
| `BootChain.InPlaceIff` | bootloader/stage1/fat1x.s:132-141 | different sectors are all in their places exactly when there are at most 128 |
| `BootChain.PayloadExists` | bootloader/install.py:107-116 | for sectors that 16 bits can number the table can be packed, in 4 bytes a chunk and 2 for the count |
| `BootChain.PatientLoads` | bootloader/stage1/fat1x.s:115-145 | on a disk that never fails three times in a row, told from the disk alone, loading never panics over a sector |
| `BootChain.BootFindsTable` | bootloader/stage1/fat1x.s:200-208 | on an installed sector the first stage computes the address where the installer put the table, and reads its entries |
| `BootChain.KeptIff` | bootloader/install.py:230-231 | a payload leaves the first stage up to a given byte alone, for every disk and every first stage, exactly when it fits behind that byte |
| `BootChain.ProgramSurvivesIff` | bootloader/install.py:99-118 | over all first stages of these lengths, the installed table leaves the program up to its jump alone exactly when it has at most 41 chunks, and all messages exactly when it has at most 14 |
| `BootChain.ProgramKeptIff` | bootloader/stage1/fat1x.s:243-249 | for every first stage that ends its program with that jump, and every disk: it is left alone exactly with at most 41 chunks, or with 42 of which the first has 7 sectors from 0xE000, which spells the bytes it covers |
| `BootChain.FragmentedFileDestroysLoader` | bootloader/install.py:216-236 | a file of 42 separate sectors in the data area of a floppy disk meets every other condition, and its table overwrites the jump of every such first stage |
| `BootChain.LoadTableSparesLow` | bootloader/stage1/fat1x.s:214-241 | no sector that is loaded overwrites the boot sector, whatever the table holds |
| `BootChain.BootDeposits` | bootloader/stage1/fat1x.s:189-253 | booting an installed sector whose table leaves the program alone passes the self-check, puts all sectors of the file down in order, and at the jump every byte of the boot sector that the program does not store to is what it was |
| `BootChain.InstallStage1` | bootloader/install.py:99-118 | the split, packed and assembled sector, or the packing error |
| `BootChain.InstallAndBoot` | bootloader/install.py:216-236 | end to end: for up to 128 sectors and a table that leaves the program alone, the boot sector is one sector with the disk's header, the loading program and the mark, it is in memory at the jump but for the bytes the program stores to, the self-check passes, and sector k of the file is at 0x7e00 + 512 k |
| `Keyboard.CapsIsParity` | bootloader/stage2/devices/keyboard/keyboard.c:81-83 | caps lock is the parity of the presses of its key over every stream of bytes |
| `Keyboard.ShiftIsLastEvent` | bootloader/stage2/devices/keyboard/keyboard.c:64-68 | the shift state is that of the last event of either shift key |
| `Keyboard.ModifierIsLastEvent` | bootloader/stage2/devices/keyboard/keyboard.c:55-80 | Control and Alt, left and right, are held exactly as the last event of their key says, counting only those with, or without, the escape byte |
| `Keyboard.SwapCaseIs` | bootloader/stage2/devices/keyboard/keyboard.c:88-93 | caps exchanges the letters of the two alphabets, place by place, and leaves every other key |
| `Keyboard.KeysFromHistory` | bootloader/stage2/devices/keyboard/keyboard.c:40-95 | the keys of every stream of bytes, told from tables and bytes: each press types the entry of the escaped, shift, AltGr or plain table that the bytes before it have chosen, case swapped exactly after an odd number of caps presses; releases, modifiers and empty entries type nothing |
| `Keyboard.PlainTyping` | bootloader/stage2/devices/keyboard/keyboard.c:55-95 | presses without modifiers type the entries of the plain table in order |
| `Keyboard.PushIff` | bootloader/stage2/devices/keyboard/keyboard.c:96-102 | a key is queued exactly when fewer than 31 keys are in slots not given up; otherwise nothing changes |
| `Keyboard.PushSparesSlot` | bootloader/stage2/devices/keyboard/keyboard.c:131-136 | no push changes the slot of a key that was not handed out yet, although pop_index may be past it |
| `Keyboard.NextKeepsInv` | bootloader/stage2/devices/keyboard/keyboard.c:34-137 | interrupts and every single load, store and halt of kb_getc keep the queue's invariant |
| `Keyboard.RunKeepsInv` | bootloader/stage2/devices/keyboard/keyboard.c:34-137 | so does every interleaving |
| `Keyboard.KeysInOrder` | bootloader/stage2/devices/keyboard/keyboard.c:96-137 | under every interleaving the keys handed out are a prefix of those accepted, and at most 31 are queued |
| `Keyboard.QueuedIff` | bootloader/stage2/devices/keyboard/keyboard.c:34-117 | under every interleaving the queue takes exactly the keys that the bytes type, in order, if and only if none comes while it is full; otherwise fewer |
| `Keyboard.QueuedFromHistory` | bootloader/stage2/devices/keyboard/keyboard.c:34-137 | from the start, so told from tables and bytes; and what kb_getc hands out is a prefix of what the queue has taken |
| `Keyboard.ReadIsStable` | bootloader/stage2/devices/keyboard/keyboard.c:131-136 | when kb_getc is about to read, its slot holds the next key in order and no interrupt changes it |
| `Keyboard.RankFalls` | bootloader/stage2/devices/keyboard/keyboard.c:127-136 | with a key queued every step of kb_getc, or the interrupt that wakes it, brings it one step nearer to its return, and nothing sets it back |
| `Keyboard.GetcReturnsIff` | bootloader/stage2/devices/keyboard/keyboard.c:123-137 | with a key queued kb_getc returns exactly when it gets the steps it still needs, at most nine, of which one is an interrupt if it has halted |
| `Keyboard.SleepsOnQueuedKey` | bootloader/stage2/devices/keyboard/keyboard.c:128-129 | behind the comparison a key does not stop the halt, and kb_getc sleeps on it until another interrupt |
| `Keyboard.WakeUpCanBeLost` | bootloader/stage2/devices/keyboard/keyboard.c:128-129 | from the start, a key between the comparison and the halt leads there |
| `Keyboard.Driver.constructor` | bootloader/stage2/devices/keyboard/keyboard.c:28-32 | the queue starts empty and with no modifier held |
| `Keyboard.Driver.DecodeByte` | bootloader/stage2/devices/keyboard/keyboard.c:40-95 | the branches of the handler change the flags and yield the key as specified, which `KeysFromHistory` tells from tables and bytes |
| `Keyboard.Driver.Handler` | bootloader/stage2/devices/keyboard/keyboard.c:34-117 | the handler's effect on flags, slots and push_index is the one specified |
| `Keyboard.Driver.Interrupted` | bootloader/stage2/devices/keyboard/keyboard.c:34-117 | the handler and the return from it are one interrupt of the transition system |
| `Keyboard.Driver.Step` | bootloader/stage2/devices/keyboard/keyboard.c:123-137 | each load, store or halt of kb_getc is one step of the transition system, and the key returned is the next in the history |
| `Copy.Memcpy` | bootloader/stage2/memory.c:225-238 | the upward byte loop, also for overlapping areas of one memory |
| `Copy.CopyUpMoves` | bootloader/stage2/memory.c:225-238 | when the destination is not behind the source's start inside the source, the result is a block move and nothing else changes |
| `Copy.CopyUpRepeats` | bootloader/stage2/memory.c:225-238 | otherwise the bytes before the destination are repeated with the distance as period |
| `Copy.MovesIff` | bootloader/stage2/memory.c:222-238 | memcpy moves every content exactly when the destination does not start inside the source |
| `Screen.PutAllValid` | bootloader/stage2/devices/screen/screen.c:92-139 | for every byte stream the cursor stays within columns 0 to 80 and rows 0 to 24, and what has scrolled off never changes |
| `Screen.PlainText` | bootloader/stage2/devices/screen/screen.c:121-134 | where every character of a text ends up: a row takes 81, and exactly each 81st is overwritten by its successor |
| `Screen.LineFeeds` | bootloader/stage2/devices/screen/screen.c:96-100 | what n line feeds leave of a screen: rows move up and out only from the last row on, and blank ones come in |
| `Screen.EraseBlanks` | bootloader/stage2/devices/screen/screen.c:190-219 | a complete erase sequence with any parameters leaves 2000 blank cells in the current attribute and the cursor on the first |
| `Screen.Tabs` | bootloader/stage2/devices/screen/screen.c:111-120 | where n tabs lead: there are 21 stops in a row, column 80 among them |
| `Screen.ForegroundKeepsBackground` | bootloader/stage2/devices/screen/screen.c:158-182 | any number of foreground colours and bold in one sequence leaves the background as it was |
| `Screen.WritePlain` | bootloader/stage2/devices/screen/screen.c:224-241 | without escapes, writing a buffer is putting its bytes one by one |
| `Screen.WriteValid` | bootloader/stage2/devices/screen/screen.c:190-241 | every buffer, with complete, broken or unknown escape sequences, keeps the cursor on the screen and only grows the tape |
| `Screen.SgrEffect` | bootloader/stage2/devices/screen/screen.c:144-219 | a complete set-graphics sequence changes only the two attributes and keeps the former one |
| `Screen.ResetSwaps` | bootloader/stage2/devices/screen/screen.c:161-164 | the sequence without parameters swaps the attribute with the kept one |
| `Screen.ColouredTextRestores` | bootloader/stage2/devices/screen/screen.c:144-219 | any set-graphics sequence, any text without escapes, and the empty sequence restore the attribute |
| `Screen.Screen.constructor` | bootloader/stage2/devices/screen/screen.c:246-255 | the screen starts blank |
| `Screen.Screen.Wipe` | bootloader/stage2/devices/screen/screen.c:54-60 | the blanking loop leaves everything before the given cell as it was |
| `Screen.Screen.UpdateCursor` | bootloader/stage2/devices/screen/screen.c:71-85 | the two bytes sent to the adapter are the cursor's cell number |
| `Screen.Screen.ClearScreen` | bootloader/stage2/devices/screen/screen.c:23-35 | video memory shows the tape moved on by a whole window |
| `Screen.Screen.Scroll` | bootloader/stage2/devices/screen/screen.c:41-65 | the overlapping memcpy and the wiping show the tape moved on by n rows; n is clipped to 25 and 0 does nothing |
| `Screen.ScrolledWindow` | bootloader/stage2/devices/screen/screen.c:41-65 | scrolling by n moves every cell up by n rows, blanks the last n in the current attribute, and puts the cursor at the start of the first of them |
| `Screen.Screen.Store` | bootloader/stage2/devices/screen/screen.c:122-126 | character and attribute are written as the two bytes of the cell at the cursor, which may be the one behind the last, and no other byte |
| `Screen.Screen.NewRow` | bootloader/stage2/devices/screen/screen.c:128-133 | the cursor goes to the next row, scrolling only from the last |
| `Screen.Screen.Putc` | bootloader/stage2/devices/screen/screen.c:92-139 | for every byte, the 2000 cells stay the window of the tape, through the recursive backspace and scrolling; nothing beyond cell 2000 is written and the adapter's cursor follows |
| `Screen.Screen.SetAttribute` | bootloader/stage2/devices/screen/screen.c:161-178 | the bit operations on the attribute are the specified arithmetic on its halves |
| `Screen.Screen.SetGraphics` | bootloader/stage2/devices/screen/screen.c:144-185 | the parameter loop applies the parameters in order, including strtol's NULL and its 16 bits |
| `Screen.Screen.HandleAnsi` | bootloader/stage2/devices/screen/screen.c:190-219 | effect and continuation of an escape, complete or not |
| `Screen.Screen.Write` | bootloader/stage2/devices/screen/screen.c:224-241 | writing any buffer shows the specified terminal, and no byte of video memory beyond cell 2000 changes |
| `Sequences.ControlCharacters` | bootloader/stage2/devices/screen/screen.c:92-120 | line feed, carriage return, tab, backspace, escape, '[', 'J' and 'm' are the characters the driver compares with |
| `Sequences.ColorBits` | bootloader/stage2/devices/screen/screen.c:146-148 | the colour table exchanges the bits of red and blue of a colour number and keeps green's |
| `Sequences.CodeMeans` | bootloader/stage2/devices/screen/screen.c:161-178 | the effect of every code: 0 the kept attribute, 1 the bold bit, 30-37 and 40-47 that colour in one half, all others nothing |
| `Sequences.GraphicsAppliesCodes` | bootloader/stage2/devices/screen/screen.c:155-182 | the loop over the parameters applies the codes found in the sequence, in order |
| `Sequences.SgrApplies` | bootloader/stage2/devices/screen/screen.c:144-219 | a sequence written from any list of codes in decimal applies those codes, in order and modulo 2^16, and keeps the attribute from before |
| `Sequences.CompleteSequence` | bootloader/stage2/devices/screen/screen.c:190-219 | a complete sequence has the effect of its last character, none but for 'J' and 'm', and writing goes on behind it |
| `Sequences.CutSequence` | bootloader/stage2/devices/screen/screen.c:196-204 | one that the buffer or a NUL cuts off has no effect, and writing goes on there |
| `Sequences.LoneEscape` | bootloader/stage2/devices/screen/screen.c:192-195 | an escape that no '[' follows is dropped, and what follows is text |
| `Sequences.RowText` | bootloader/stage2/devices/screen/screen.c:121-134 | text that stays in its row overwrites it from the cursor on, in the current attribute, and nothing else |
| `Sequences.BackspaceErases` | bootloader/stage2/devices/screen/screen.c:104-110 | a backspace goes back by one cell and blanks that one only; in the first column it does nothing |
| `Sequences.ReturnOverwrites` | bootloader/stage2/devices/screen/screen.c:101-103 | after a carriage return the next text is written over the row, and the end of a longer one stays |
| `Console.EchoShowsLine` | bootloader/stage2/stdio.c:36-58 | after every keystroke in the row, the cells from the start column hold exactly the line typed so far and the cursor is behind it |
| `Console.RubOut` | bootloader/stage2/stdio.c:44-49 | typing a text and n backspaces leaves the text without its last n characters |
| `Console.EditKey` | bootloader/stage2/stdio.c:43-57 | one key changes the buffer as a stack and echoes exactly when it should |
| `Console.EditLine` | bootloader/stage2/stdio.c:36-58 | the loop stops at the first Enter or negative character; the buffer is the fold of the keys before it |
| `Console.EchoValid` | bootloader/stage2/stdio.c:36-58 | whatever is typed, tabs and escape sequences included, the echo keeps the cursor on the screen and never changes what has scrolled off |
| `Console.Gets` | bootloader/stage2/stdio.c:29-62 | the string returned is that fold, NUL-terminated, and the screen shows the echo and a line feed; NULL exactly at a negative character; what had scrolled off is not changed |
| `Console.LevelSets` | bootloader/stage2/stdio.c:179-191 | the opening sequence of each level sets that level's colour on the current background and keeps the attribute before it |
| `Console.LevelColours` | bootloader/stage2/stdio.c:179-191 | those are light red, yellow, cyan and light grey by the adapter's numbers, on an unchanged background |
| `Console.PiecesKeepAttr` | bootloader/stage2/stdio.c:193-198 | text without escapes written in any pieces changes neither attribute |
| `Console.Log` | bootloader/stage2/stdio.c:176-201 | a log entry of any level writes bracketed name, message and line feed in the level's colour and restores the attribute it found |
| `LogEntry.RenderEscFree` | bootloader/stage2/stdio.c:80-171 | a format without escape bytes writes none, unless a string or a character argument brings one in |
| `LogEntry.PiecesAreOneText` | bootloader/stage2/devices/screen/screen.c:224-241 | how text without escapes is cut into writes makes no difference to the screen |
| `LogEntry.LogFormat` | bootloader/stage2/stdio.c:176-201 | from format and arguments to the screen: a log entry is the rendered text in the level's colour, and the attribute is restored |
| `Numbers.ParseNumber` | bootloader/stage2/strings.c:150-198 | the loop with its 16-bit accumulator, base detection and end pointer compute the value and the pointer of the specification, for every string and base |
| `Numbers.LowIsValue` | bootloader/stage2/strings.c:175-188 | that accumulator holds the number the digits denote, modulo 2^16 |
| `Parsing.IsDigitIff` | bootloader/stage2/strings.c:14-29 | the digits of base 2, 8, 10 and 16 are exactly the first characters of "0123456789abcdef" and "0123456789ABCDEF"; no other base has any |
| `Parsing.DigitMeans` | bootloader/stage2/strings.c:178-185 | each stands for its place in either string, and itoa_s writes those of the first |
| `Parsing.TextDenotes` | bootloader/stage2/strings.c:175-188 | the text of a number in any of the four bases consists of digits that denote it |
| `Parsing.DigitsAreText` | bootloader/stage2/strings.c:83-95 | what itoa_last writes, reversed, is that text in its two bases |
| `Parsing.ParseText` | bootloader/stage2/strings.c:150-198 | in a given base the text of a number, at the end or before a character that is no digit, is read modulo 2^16, and the pointer is NULL or behind it |
| `Parsing.ParsePrefixed` | bootloader/stage2/strings.c:154-173 | with base 0 the same after "0x" in base 16, "0b" in base 2 and "0" in base 8, and without prefix in base 10 for every positive number |
| `Parsing.ParseZero` | bootloader/stage2/strings.c:154-173 | "0" alone is zero |
| `Parsing.ParseNothing` | bootloader/stage2/strings.c:175-195 | without digits the value is zero and the pointer stays, or is NULL at the end |
| `Parsing.ParseDecimal` | bootloader/stage2/strings.c:150-198 | the usual decimal text of a positive number is read with base 0, modulo 2^16 |
| `Numbers.StrReverse` | bootloader/stage2/strings.c:44-56 | the swap loop reverses the part and leaves the rest |
| `Numbers.PutDigits` | bootloader/stage2/strings.c:83-87 | the division loop appends the digits, least significant first |
| `Numbers.ItoaLast` | bootloader/stage2/strings.c:68-97 | sign first, then the digits of the number's low 32 bits |
| `Numbers.ItoaS` | bootloader/stage2/strings.c:106-121 | the buffer holds the string of the specification and its NUL |
| `Numbers.UpDenotes` | bootloader/stage2/strings.c:83-95 | the digits written denote the number, in both bases |
| `Numbers.BodyLength` | bootloader/stage2/strings.c:71-87 | at most 8 hexadecimal digits, or 10 decimal ones and a sign |
| `Numbers.ItoaShape` | bootloader/stage2/strings.c:106-121 | itoa_s yields padding, digits most significant first, and the sign at the end |
| `Numbers.PrintedReads` | bootloader/stage2/strings.c:106-198 | strtol on what itoa_s printed, zero-padded to any width, yields the magnitude modulo 2^16 and stops behind the digits |
| `Numbers.RoundTripIff` | bootloader/stage2/strings.c:106-198 | a number comes back modulo 2^16 exactly in base 16, when not negative, or when 2^15 divides it |
| `Numbers.DigitsDiffer` | bootloader/stage2/strings.c:83-95 | different numbers print differently |
| `Numbers.DecimalIff` | bootloader/stage2/strings.c:106-121 | itoa_s prints the usual decimal text exactly of the numbers 0 to 2^32 - 1 |
| `Printf.VPrintf` | bootloader/stage2/stdio.c:80-171 | the scan with its jumps writes exactly the recursive rendering of format and arguments, on every format |
| `Printf.WriteNumber` | bootloader/stage2/stdio.c:126-145 | a number goes through the 64-byte buffer, or does not fit it |
| `Printf.WriteConversion` | bootloader/stage2/stdio.c:121-165 | each conversion fetches its type and writes its text |
| `Printf.OverrunIff` | bootloader/stage2/stdio.c:103-166 | with matching arguments the scan of a string runs past the terminator exactly when the format ends inside a directive |
| `Printf.EscapePrintsBack` | bootloader/stage2/stdio.c:88-165 | any text with every '%' doubled is printed as it is |
| `Printf.WidthPrintsIff` | bootloader/stage2/stdio.c:114-117 | a width without '0' pads with NUL, so a number is printed exactly when it fills the width by itself, and nothing is otherwise |
| `Printf.DecimalDirectiveIff` | bootloader/stage2/stdio.c:126-133 | "%d" prints the usual text of an int exactly when it is not negative |
| `Printf.StringDirective` | bootloader/stage2/stdio.c:155-162 | "%s" prints the string |
| `Printf.HexDirectiveReads` | bootloader/stage2/stdio.c:134-141 | "%08x" prints eight digits that strtol reads back modulo 2^16, for every int |
| `Directives.RenderOne` | bootloader/stage2/stdio.c:103-166 | a directive anywhere in a format prints the conversion of its argument under its modifiers, and the rest of the format follows |
| `Directives.WidthReadsIff` | bootloader/stage2/stdio.c:108-117 | a width is read as the number it denotes exactly when it has no zero digit: "%10d" is "%01d" |
| `Directives.ZeroWidthReads` | bootloader/stage2/stdio.c:108-117 | behind the flag '0' every width is read |
| `Directives.PaddedDirective` | bootloader/stage2/stdio.c:126-141 | "%0<w>d", "i", "x" and "X": the decimal text of a number that is not negative, or the hexadecimal text of its 32 bits in lower case, with zeros in front up to the width |
| `Directives.PlainDirective` | bootloader/stage2/stdio.c:126-141 | the same without modifiers and without padding |
| `Directives.NegativeDirective` | bootloader/stage2/stdio.c:126-133 | "%d" and "%i" print a negative number with its sign behind |
| `Directives.LongDirective` | bootloader/stage2/stdio.c:126-141 | "%lld", "i", "x" and "X" print the text of the low 32 bits |
| `Directives.ShortDirective` | bootloader/stage2/stdio.c:118-141 | one "l" changes nothing, the argument is an int |
| `Directives.LimitedNumber` | bootloader/stage2/stdio.c:126-162 | "%.<n>d", "i", "x" and "X" print exactly n bytes: the text with NULs in front, or its first n digits |
| `Directives.OtherDirective` | bootloader/stage2/stdio.c:163-165 | any other character is printed, whatever the modifiers, and takes no argument |
| `Directives.SizeDirective` | bootloader/stage2/stdio.c:142-145 | "%z" prints the decimal text of a size |
| `Directives.PointerDirective` | bootloader/stage2/stdio.c:146-150 | "%p" prints a pointer in eight hexadecimal digits |
| `Directives.CharacterDirective` | bootloader/stage2/stdio.c:121-125 | "%c" prints the low byte of its argument |
| `Directives.LimitedString` | bootloader/stage2/stdio.c:155-162 | "%.<n>s" prints exactly the first n bytes, also past a NUL, when n has no zero digit |
| `Directives.DirectoryLine` | bootloader/stage2/filesystems/fat/fat.c:118 | "%.8s.%.3s" and a line feed print the unterminated name and extension of a directory entry in full |
| `Split.StrContains` | bootloader/stage2/strings.c:261-271 | the first index of the character, or -1 exactly when it does not occur |
| `Split.FindSeparator` | bootloader/stage2/strings.c:290-292 | the search stops at the first separator or the end |
| `Split.CopyPiece` | bootloader/stage2/strings.c:293-302 | one round puts the next piece into its slot and leaves all others |
| `Split.StrSplit` | bootloader/stage2/strings.c:281-310 | slot after slot holds the pieces, the slot after them is the empty string, and the result is their number |
| `Split.PieceEndIs` | bootloader/stage2/strings.c:290-292 | a piece ends at the first separator behind its start, or at the end of the string, and nowhere else |
| `Split.PiecesHaveNoSeparator` | bootloader/stage2/strings.c:290-302 | no piece contains a separator |
| `Split.PiecesRebuild` | bootloader/stage2/strings.c:281-303 | pieces and separators in turn are the string |
| `Split.PieceCount` | bootloader/stage2/strings.c:287-309 | one piece more than separators exactly when the string is not empty and does not end in a separator |
| `Timer.NextOnSchedule` | bootloader/stage2/timer.c:23-37 | a tick calls the task exactly when a period has passed since its last call |
| `Timer.StaysOnSchedule` | bootloader/stage2/timer.c:23-37 | over every run of ticks and other registrations the calls come at exact multiples, without drift |
| `Timer.RegisteredIsPeriodic` | bootloader/stage2/timer.c:71-87 | a task registered at count t is called at t + p, t + 2p, ... and at no other count while the counter fits 32 bits |
| `Timer.RegisteredIsPeriodicIff` | bootloader/stage2/timer.c:23-87 | at any count, over every run: the calls are exactly the schedule if and only if the period is at most 1, or no count of the schedule has more than 32 bits and lies before the last tick |
| `Timer.EveryTick` | bootloader/stage2/timer.c:23-37 | a task with a period of 0 or 1 is called at every tick, also beyond 32 bits |
| `Timer.DueForEverAfter` | bootloader/stage2/timer.c:30-34 | a call recorded beyond 32 bits makes the task due at the next tick, whatever its period |
| `Timer.CalledAtEveryTick` | bootloader/stage2/timer.c:14-34 | from then on every tick calls it |
| `Timer.Driver.Handler` | bootloader/stage2/timer.c:23-37 | the loop updates every slot as specified and calls each task that is due once, in the order of the slots, and no other |
| `Timer.FiredIff` | bootloader/stage2/timer.c:23-37 | the calls of one tick are those of the due tasks, in ascending slots, so none is called twice |
| `Timer.Driver.RegisterTask` | bootloader/stage2/timer.c:71-86 | the first free slot is taken, also for NULL, which leaves it free; -1 and no change exactly when there is none |
| `Timer.Driver.UnregisterTask` | bootloader/stage2/timer.c:89-92 | the slot holds NULL and every other slot is what it was |
| `Timer.UnregisteredIsNeverCalled` | bootloader/stage2/timer.c:23-92 | an unregistered task is never called, over every run in which its slot is not taken again |
| `Timer.UnregisterSparesOthers` | bootloader/stage2/timer.c:23-92 | over every run of ticks and other registrations the other tasks are called as without it |
| `Timer.UnregisterFreesSlot` | bootloader/stage2/timer.c:71-92 | the next task gets its slot, or a lower one exactly when one is free: a full table takes a task again |
| `Motor.RunAgrees` | bootloader/stage2/devices/floppy/floppy.c:61-74 | over every run of operations, timer calls and resets, register and states agree on all drives but those stalled by a reset or by releasing a motor that is off |
| `Motor.MotorMatchesState` | bootloader/stage2/devices/floppy/floppy.c:340-371 | Off implies the motor bit is clear in every run; a drive not Off spins exactly when it has not been stalled; in runs without resets and without releases of motors that are off, the two are equivalent |
| `Motor.OnButStill` | bootloader/stage2/devices/floppy/floppy.c:276-360 | two runs, one with a reset and one without, after which a motor is On and does not spin |
| `Motor.SpinsAfterReadIff` | bootloader/stage2/devices/floppy/floppy.c:552-652 | after a read the motor spins exactly when no timeout has reset the controller and it spun before or was Off; the other drive's motor spins as before, or not at all after a reset |
| `Motor.NextReadSpinsIff` | bootloader/stage2/devices/floppy/floppy.c:340-361 | after a read that timed out, whatever happens to the other drive, the next read of this one has its motor on by the state, and spinning exactly when the timer task has run at least six times between |
| `Motor.ApplyInv` | bootloader/stage2/devices/floppy/floppy.c:61-74 | a waiting motor always has a positive multiple of 50 ticks left, so the unsigned subtraction never wraps |
| `Motor.NextWaiting` | bootloader/stage2/devices/floppy/floppy.c:61-74 | each call of the timer task takes 50 ticks from a waiting motor and the sixth stops it, whatever else happens |
| `Motor.KilledInTime` | bootloader/stage2/devices/floppy/floppy.c:354-371 | a motor released at tick t and not touched again is waiting at t + 250 and off by t + 300 |
| `Motor.Controller.MotorSwitch` | bootloader/stage2/devices/floppy/floppy.c:340-361 | switching on touches the register only from Off; switching off only starts the wait |
| `Motor.Controller.MotorKill` | bootloader/stage2/devices/floppy/floppy.c:364-371 | only this drive's bit is cleared |
| `Motor.Controller.TimerTask` | bootloader/stage2/devices/floppy/floppy.c:61-74 | the loop over both drives, with 16-bit ticks |
| `Motor.Controller.SelectDrive` | bootloader/stage2/devices/floppy/floppy.c:585-589 | selecting a drive keeps the motor bits |
| `Motor.ActivatedRegister` | bootloader/stage2/devices/floppy/floppy.c:583-609 | after activation the register's two low bits are the drive's number, its motor bit is set if it was off by its state and otherwise as before, and all others are as before |
| `Motor.KilledRegister` | bootloader/stage2/devices/floppy/floppy.c:364-371 | stopping a motor clears its bit and no other; after a reset both are off |
| `Floppy.SameAsStage1` | bootloader/stage2/devices/floppy/floppy.c:374-380 | for every geometry the coordinates are those of the first stage's two divisions, and give the block back |
| `Floppy.OnDiskIff` | bootloader/stage2/devices/floppy/floppy.c:374-380 | the coordinates are on the disk exactly when the block number is below the number of blocks |
| `Floppy.HcsOfBlock` | bootloader/stage2/devices/floppy/floppy.c:374-380 | every position on the disk is that of exactly its own block: with the former two, a bijection |
| `Floppy.SeekMovesIff` | bootloader/stage2/devices/floppy/floppy.c:383-423 | a seek reaches its target in ordinary arithmetic exactly when it is aligned and on the disk or already there; otherwise it returns -1 and the position stays, also for negative targets that wrap |
| `Floppy.SeekReturnsIff` | bootloader/stage2/devices/floppy/floppy.c:411-422 | what a seek returns is the new position exactly when it moved or the position was the offset all along |
| `Floppy.ReadBlockIff` | bootloader/stage2/devices/floppy/floppy.c:526-578 | a block ends with data, or with a timeout, exactly when it is on the disk and one of ten attempts does so after nothing but errors |
| `Floppy.PositionReadIff` | bootloader/stage2/devices/floppy/floppy.c:526-578 | told from the medium alone: so does the block of every position on the disk, exactly when an attempt at that head, track and sector does |
| `Floppy.ReadsImage` | bootloader/stage2/devices/floppy/floppy.c:620-652 | on a disk that holds an image, reading n blocks from b yields sectors b to b + n - 1 of the image, in order |
| `Floppy.ReadsCompose` | bootloader/stage2/devices/floppy/floppy.c:633-647 | reading n blocks and then m is reading n + m |
| `Floppy.ReadSucceedsIff` | bootloader/stage2/devices/floppy/floppy.c:633-651 | a read succeeds exactly when all its blocks are readable, and yields their contents in order; a failed one stops at the first that is not |
| `Floppy.PositionBounded` | bootloader/stage2/devices/floppy/floppy.c:383-652 | over every run of seeks and reads the position never passes the end |
| `Floppy.Device.SeekTo` | bootloader/stage2/devices/floppy/floppy.c:383-423 | result and position of the specification |
| `Floppy.Device.Activate` | bootloader/stage2/devices/floppy/floppy.c:583-609 | the drive is selected and its motor on, and it waits when recalibration fails; the other drive's state is not touched |
| `Floppy.Device.Read` | bootloader/stage2/devices/floppy/floppy.c:620-652 | past the alignment check the motor waits with 300 ticks on every path, the register is reset exactly after a timeout, and the other drive's state is what it was; the buffer holds the blocks read in front of its old contents |
| `Floppy.Device.RwBlock` | bootloader/stage2/devices/floppy/floppy.c:538-577 | the loop makes up to ten attempts, and only a timeout, which ends it, resets the controller |
| `Floppy.Device.ReadLoop` | bootloader/stage2/devices/floppy/floppy.c:639-647 | the loop reads as the specification does, -1 comes back exactly on failure, and the controller is reset exactly by a timeout |

## Left out

- Heap.Heap.Malloc: requests whose header wraps are only covered on values (`HeaderFitsIff`, `MallocConserves`); in memory the used record would then be written outside its block.
- Heap.Heap.constructor: pool entries whose length does not reach the first free address; their free block would lie outside the entry, as `InitInsidePoolIff` says.
- Heap.Heap.Free: a client may not release a block that the allocator took for a list node of its own; a double release of such an address is not part of this model.
- BootChain.InstallAndBoot: the first stage's bytes are not interpreted: its program is the model, and what is proved about the bytes is that those it does not store to survive. The values of the others at the jump (the low byte of the track size, the head count and the drive number in the header, and the variables at 0xdb to 0xe1) are not stated.
- Stage1.Loader.Load: the header of the disk gives 512-byte sectors and fewer than 256 sectors a track; with another sector size the first stage steps through memory by that size.
- Motor.KilledInTime: sleeps inside fd_motor and fd_reset and interrupts during them; each operation is one step.
- Floppy.Device.Read: the controller's status bytes and errno are one answer of the oracle at each attempt: data, error, or timeout.
- Console.EchoShowsLine: tabs, carriage returns and escapes among the keys, and lines that leave their row.
- Console.Gets: the source has no bound on the line; the model takes an array that the keys fit, and fewer keys than the 16-bit index can count.
- Split.StrSplit: strings whose indices do not fit the source's 16-bit counters, and slots that are too short.
- Printf.VPrintf: '%f' (floating point), a width that overflows an int, failing writes, and the returned count, which is always 0.
- Screen.Screen.Write: a NUL must follow the buffer, which the model supplies; sequences other than set-graphics and erase only move on, as in the source.
- Timer.Driver.Handler: callbacks that change the task table during the tick, and the wrap of the 64-bit counter.
- mm_initialize's choice of a pool entry from the BIOS memory map; base and length are parameters.
- The first stage's variables are fields of the model and not bytes of the boot sector, so a table that reaches over them (more than 70 chunks) is not part of it; drive number, stack, messages and the BIOS calls for them are left out.
- get_sector_ranges, the FAT parameters, mshowfat and mcopy, files and logging of the installer; bootloader/stage1/fat32.s, which repeats the fat1x loader behind a longer header.
- The contents of the keymaps are parameters, and kb_read, which cuts keys to a byte.
- fd_write, fd_recalibrate, DMA and interrupt setup; port I/O, panics and mode switches.
- ftoa_s, strcmp, strncmp, strlcpy, atoi, memset, sleep.
- fat.c, fs.c, io.c, cli.c, modules.c and the commands: field arithmetic, list prepends and dispatch.
