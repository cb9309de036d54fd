# ShedKernel: a verified model

A Dafny model of the parts of ShedKernel, a small i686 kernel, that keep real
invariants, with proofs about every input and every run:

- **Kernel heap** (`HeapLayout.dfy`, `Heap.dfy`). `HeapLayout` treats the node
  list as a value: best fit, splitting, coalescing, `realloc`. Its main results
  are that every run keeps the array tiled with no two free neighbours, and that
  such a list is *determined by its live blocks* (`Canonical`); from this follow
  that `malloc` and `mem_free` undo each other exactly and that freeing
  everything in any order gives the boot-time heap back. `Heap` is the C code
  over one byte array: 16-byte headers stored unaligned between the payloads,
  read and written field by field, proved to follow the layout and to leave live
  payload bytes alone.
- **EasyFS** (`EasyFsModel.dfy`, `EasyFs.dfy`). The model relates directory,
  bitmap and free counter, shows by pigeonhole that the disk never runs out
  before the directory does, and that a volume refines a map from names to byte
  strings. `EasyFs` is the byte-level code in one 4 MiB array.
- **Editor** (`EditorModel.dfy`, `EditorKeys.dfy`, `Editor.dfy`). The row operations are
  splices of one flat text at the cursor's offset; `EditorKeys` says what every key and
  every typed command does; whole key sessions keep the cursor on
  the text and the unsaved-changes flag honest, except for exactly the keys
  named below; a session changes no file but its own; saving and reopening goes
  through the EasyFS model. `Editor` is the code over row buffers with terminating
  NULs. Its buffers are sequences replaced on update: where the code calls
  `memmove`, it applies the function that `Bytes.MemMove` computes in place.
- **Keyboard ring** (`KeyboardRing.dfy`). Interrupts interleaved with the
  consumer's separate test, read and update steps; scancode decoding.
- **Paging** (`Paging.dfy`). `map_user_page`, the boot tables and the framebuffer
  loop over modelled physical memory, in the 32-bit paging format of section 4.3
  of the Intel SDM, Volume 3A.
- **Shell** (`Shell.dfy`) and **string routines** (`Bytes.dfy`). `strtok` with its
  hidden pointer, the tokeniser, the line reader, `memmove`, `strcmp`.

`Common.dfy` holds the optional values and special key codes that several parts share.

Where a class is proved against a function of the same name, the class holds the
C code's steps and the function says what they amount to; the lemmas about the
function are the results. Pointers into the heap array are addresses with 0 for
NULL in `Heap`, payload offsets with 0 for NULL in `HeapLayout`.

## Where the code does not do what one would expect

- **`p` below the last line** moves the cursor to a line that does not exist
  (`fs/ed.c:177-182`). `EditorModel.KeyKeeps` and `SessionSound` show this is the
  only key that breaks the cursor invariant, and exactly when; `PasteBelowHappens`
  gives a run of six keys that gets there.
- **`o`, `O` and `p`** insert a row without setting the unsaved-changes flag
  (`fs/ed.c:391-400`, `fs/ed.c:417`). `EditorModel.FlagKeeps` and `SessionFlag` show
  these are the only keys that make the flag wrong, and exactly when;
  `ForgottenRowHappens` gives a run that `:q` then leaves without warning.
- **Names longer than 15 characters** are cut when stored but compared in full
  (`fs/easyfs.c:94`, `fs/easyfs.c:116`). `EasyFsModel.LongNameTwice` shows that every
  such file is lost as soon as it is created and can be created again;
  `CreateDistinct` and `EditorModel.EnsuredFound` give the exact conditions under
  which names stay distinct and a save succeeds.
- **A file owns one block**, but `fs_write_file` copies as many as the size asks
  for (`fs/easyfs.c:173-175`). The map refinement is therefore stated for writes
  below 4096 bytes. `EasyFsModel.OtherFileKept` says exactly when a write of any size
  keeps another file of any size; `LongWriteHappens` gives a long write that changes
  another file, and `ShortWriteHappens` a one-byte write that then changes the long one.
- **`map_user_page` does not clear a new table** (`kernel/kernel.c:255-258`), so
  other pages of that 4 MiB region may appear mapped. `Paging.StaysUnmapped` says
  exactly which unmapped pages stay unmapped; `LeftoverHappens` shows one that does not.
- **It writes a table at the virtual address equal to the physical one**
  (`kernel/kernel.c:260-261`), with only the first 8 MiB mapped to themselves.
  `Paging.ReachExact` says exactly when a table is in reach, `FarTableFaults` gives the
  calls that fault, and `LowRun` shows that all goes well while memory below 8 MiB
  lasts. The run theorems are about the stores as they are translated. The
  framebuffer loop has the same limit (`kernel/kernel.c:566-571`).
- **Nobody tests for a missing frame.** Once physical memory is used up every
  allocation answers 0 (`kernel/mm.c:40-41`), for tables and for user pages
  (`kernel/kernel.c:585-606`). `Paging.TablesApart` and `SpareExact` say exactly when
  tables and user frames stay apart; in `SharedTableHappens` mapping one page remaps
  another, and in `OwnTableHappens` a user is given the table that maps the page.
- **The framebuffer loop** steps from a base that need not be page-aligned
  (`kernel/kernel.c:560-561`). `Paging.LastByteMapped` says exactly when it maps the page
  of the last byte; `LastByteMissed` gives a framebuffer whose last byte stays unmapped.

## Model

| member | source | states |
|---|---|---|
| Bytes.CompareZero | kernel/string.h:51-55 | `strcmp` gives 0 exactly for equal strings |
| Bytes.CompareDiffers | kernel/string.h:51-55 | otherwise the result is the difference of the first bytes that differ, a missing byte counting as 0 |
| Bytes.StrCmp | kernel/string.h:51-55 | the scanning loop returns the difference of the first bytes that differ |
| Bytes.MemMove | kernel/string.h:164-175 | both copy directions leave the target range equal to the old source range, overlap or not, and nothing else changed |
| Bytes.MovedAt | kernel/string.h:164-175 | every element after a move: from the source inside the target range, untouched outside |
| Bytes.MemCpy | kernel/string.h:156-162 | copies the bytes and changes nothing else |
| HeapLayout.BestFit | kernel/mm.c:84-98 | the chosen node is free, large enough, smallest, and the highest-addressed among equals; none is chosen exactly when none fits |
| HeapLayout.TilesOrdered | kernel/mm.c:100-129 | nodes are in strictly increasing address order and do not overlap |
| HeapLayout.AllocateKeeps | kernel/mm.c:100-129 | allocation keeps the heap tiled and coalesced, adds one live block of n to n+15 bytes at the end of the chosen one, and keeps all others |
| HeapLayout.MergeNextCoalesces | kernel/mm.c:186-196 | after merging forward the next node is in use and no other free neighbours appear |
| HeapLayout.MergePreviousCoalesces | kernel/mm.c:198-208 | after merging backward no two neighbours are free |
| HeapLayout.ReleaseKeeps | kernel/mm.c:131-146 | freeing removes exactly that live block and leaves a tiled heap with no two free neighbours |
| HeapLayout.LiveDisjoint | kernel/mm.c:100-146 | different blocks share no byte, header or payload |
| HeapLayout.Canonical | kernel/mm.c:100-146 | two coalesced heaps with the same live blocks are the same node list |
| HeapLayout.NothingLive | kernel/mm.c:75-82 | with nothing live the heap is the single node built by init |
| HeapLayout.MallocKeeps | kernel/mm.c:100-129 | malloc returns NULL exactly when no free node is large enough and then changes nothing; otherwise one new live block appears |
| HeapLayout.MallocBest | kernel/mm.c:100-129 | malloc takes the end of a smallest sufficient free node, the highest-addressed among equals: n bytes if a header fits in front, else all of it |
| HeapLayout.FreeKeeps | kernel/mm.c:131-146 | mem_free of a live pointer removes its block only |
| HeapLayout.FreeNull | kernel/mm.c:133-134 | mem_free(NULL) changes nothing |
| HeapLayout.ReallocKeeps | kernel/mm.c:148-179 | what becomes of every live block in each outcome of realloc; NULL for n > 0 exactly when the block is empty at the array end or nothing fits |
| HeapLayout.ReallocNull | kernel/mm.c:150-151 | realloc(NULL, n) fails exactly when nothing fits, and then changes nothing; otherwise one block from the best fit joins the live ones |
| HeapLayout.ReallocBest | kernel/mm.c:162-167 | a block that is large enough is answered unchanged; a growing one moves to the best fit, or stays when nothing fits |
| HeapLayout.MallocThenFree | kernel/mm.c:100-146 | malloc followed at once by mem_free restores the identical node list |
| HeapLayout.RunKeeps | kernel/mm.c:75-208 | every sequence of calls, each with NULL or a pointer live when it is made, is a run, and ends tiled, coalesced, with headers plus payloads totalling 1048576 bytes |
| HeapLayout.RunKeepsOthers | kernel/mm.c:100-208 | over every run a live block stays in place until a call takes its pointer |
| HeapLayout.FreeAllInAnyOrder | kernel/mm.c:131-208 | freeing all live blocks in any order is a legal run that ends in the initial single node |
| HeapLayout.FailureBound | kernel/mm.c:84-129 | when malloc(n) fails with U live blocks, at most (U+1)*(n-1) payload bytes are free |
| Heap.CarveLinks | kernel/mm.c:107-122 | the header writes of a split give every node its size, flag, next and prev |
| Heap.MergeLinks | kernel/mm.c:186-208 | the header writes of a merge give every node its size, flag, next and prev |
| Heap.Allocator.constructor | kernel/mm.c:75-82 | the header bytes denote one free node over the whole array |
| Heap.Allocator.FindBest | kernel/mm.c:84-98 | the walk over next pointers returns the best-fitting node or NULL |
| Heap.Allocator.Carve | kernel/mm.c:107-124 | memory denotes the split layout and no block's payload changed |
| Heap.Allocator.Malloc | kernel/mm.c:100-129 | memory denotes the layout after malloc; every live payload keeps its bytes; no 32-bit wrap in the size test |
| Heap.Allocator.MergeNextIntoCurrent | kernel/mm.c:186-196 | memory denotes the merged layout; payloads keep their bytes |
| Heap.Allocator.MergeCurrentIntoPrevious | kernel/mm.c:198-208 | memory denotes the merged layout; payloads keep their bytes |
| Heap.Allocator.MemFree | kernel/mm.c:131-146 | memory denotes the layout after mem_free; every block still live keeps its bytes |
| Heap.Allocator.CopyBytes | kernel/mm.c:172-175 | the copy loop, bounded by the old header in every round, copies the old payload |
| Heap.Allocator.Realloc | kernel/mm.c:148-179 | memory denotes the layout after realloc; the old bytes are a prefix of the result, and all other live payloads keep theirs |
| EasyFsModel.Find | fs/easyfs.c:91-98 | the first used slot whose name is equal, or none |
| EasyFsModel.Stored | fs/easyfs.c:116-118 | a name of up to 15 bytes is stored whole, a longer one as its first 15 bytes |
| EasyFsModel.CreateWhich | fs/easyfs.c:100-129 | the file gets the first free slot and the lowest free block, its name cut to 15 bytes; nothing else changes |
| EasyFsModel.DeleteWhich | fs/easyfs.c:131-142 | the first slot with the name is freed, with its block; nothing else changes |
| EasyFsModel.Pigeonhole | fs/easyfs.c:79-87 | with fewer than 64 set bits the first clear bit exists and is below 64 |
| EasyFsModel.CreateKeeps | fs/easyfs.c:100-129 | create fails exactly when the name exists or 64 entries are used (the no-free-blocks branch is never taken); bitmap, directory and counter stay in agreement |
| EasyFsModel.DeleteKeeps | fs/easyfs.c:131-142 | delete frees one entry and its block and keeps the agreement |
| EasyFsModel.WriteKeeps | fs/easyfs.c:170-178 | a write of any size keeps bitmap, counter and the agreement |
| EasyFsModel.RunAccounts | fs/easyfs.c:60-178 | every sequence of calls, names and sizes unrestricted, ends with set bits the distinct blocks of used entries, all in 3..66, and the counter equal to the clear bits and to 1021 minus used entries |
| EasyFsModel.NameCount | fs/easyfs.c:91-129 | with distinct names there are as many files as used slots |
| EasyFsModel.OverlayInside | fs/easyfs.c:173-175 | a write that ends on the disk stores exactly its bytes |
| EasyFsModel.OverlayOutside | fs/easyfs.c:39-49 | a write of any size leaves every block outside its range as it was |
| EasyFsModel.OverlayCovers | fs/easyfs.c:173-175 | it fills every block of its range that is on the disk with the incoming bytes |
| EasyFsModel.OtherFileKept | fs/easyfs.c:170-178 | a write of any size keeps another file of any size, lying on the disk, if and only if every byte it copies over one of that file's bytes is the byte stored there |
| EasyFsModel.LongWriteHappens | fs/easyfs.c:170-178 | on a volume with two files, writing 4096 bytes to the first changes the byte stored in the second |
| EasyFsModel.ShortWriteHappens | fs/easyfs.c:170-178 | after 4097 bytes were written to the first, a one-byte write to the second changes the first |
| EasyFsModel.ReadBack | fs/easyfs.c:158-178 | after a write of any size that ends on the disk, the file is found with that size and exactly those bytes |
| EasyFsModel.CreateDistinct | fs/easyfs.c:114-118 | creation keeps names distinct exactly when the cut name was not there |
| EasyFsModel.LongNameTwice | fs/easyfs.c:91-129 | every name of 16 characters or more is created, not found afterwards, and created again, so that two entries have one name |
| EasyFsModel.EmptyTidy | fs/easyfs.c:13-35 | a formatted volume denotes the empty map, the start of the runs below |
| EasyFsModel.StepRefines | fs/easyfs.c:91-178 | one call answers and changes contents as the map does |
| EasyFsModel.RunRefines | fs/easyfs.c:91-178 | every run of create, delete, write and read with names up to 15 characters and writes below 4096 bytes gives the answers of a map from names to byte strings |
| EasyFs.BitAfterPut | fs/easyfs.c:65-77 | setting or clearing one bit changes that bit only |
| EasyFs.BitsAfter | fs/easyfs.c:65-77 | changing one bitmap byte changes one block's bit |
| EasyFs.SlotChanged | fs/easyfs.c:114-122 | writing inside one directory slot changes that entry and nothing else on the volume |
| EasyFs.FileSystem.constructor | fs/easyfs.c:13-35 | a formatted volume in agreement that denotes the empty map |
| EasyFs.FileSystem.BlockIsFree | fs/easyfs.c:60-63 | tests the block's bit, false out of range |
| EasyFs.FileSystem.MarkBlock | fs/easyfs.c:65-77 | sets or clears the bit and counts in 32 bits, and nothing else |
| EasyFs.FileSystem.AllocBlock | fs/easyfs.c:79-87 | takes the lowest free block, -1 if there is none |
| EasyFs.FileSystem.FindFile | fs/easyfs.c:91-98 | finds the first used entry whose stored C string equals the name |
| EasyFs.FileSystem.CopyName | fs/easyfs.c:114-118 | stores at most 15 bytes and a NUL |
| EasyFs.FileSystem.CreateFile | fs/easyfs.c:100-129 | volume and return code are those of the model, for names of any length |
| EasyFs.FileSystem.DeleteFile | fs/easyfs.c:131-142 | volume and return code are those of the model |
| EasyFs.FileSystem.WriteBlock | fs/easyfs.c:39-49 | replaces one block; for a block out of range or a NULL buffer it changes nothing |
| EasyFs.FileSystem.ReadBlock | fs/easyfs.c:51-56 | delivers the block and changes nothing else of the buffer |
| EasyFs.FileSystem.WriteFile | fs/easyfs.c:170-178 | volume and return code are those of the model for any size; superblock and bitmap keep every byte |
| EasyFs.FileSystem.ReadFile | fs/easyfs.c:158-168 | delivers as many whole blocks as both request and file start, and the file size |
| EditorModel.TextIs | fs/ed.c:58-64 | the text is every line followed by byte 10 |
| EditorModel.TextReplace | fs/ed.c:79-126 | rewriting some lines rewrites just their stretch of the text |
| EditorModel.InsertCharSplices | fs/ed.c:132-137 | on a line, one byte goes in at the cursor's offset and the offset advances by one |
| EditorModel.InsertCharAppends | fs/ed.c:132-137 | past the last line, the character and a newline are appended |
| EditorModel.InsertNewlineSplices | fs/ed.c:139-151 | a newline goes in at the offset, which advances by one, wherever the cursor is |
| EditorModel.DelCharSplices | fs/ed.c:153-167 | the byte before the offset goes, joining lines if it is a newline; at the start and past the last line nothing happens |
| EditorModel.DelRowSplices | fs/ed.c:96-102 | the line's stretch and its newline leave the text |
| EditorModel.MoveLeftOffset | fs/ed.c:291-311 | left moves the offset back by one, across line ends |
| EditorModel.MoveRightOffset | fs/ed.c:291-311 | right moves it forward by one within the line |
| EditorModel.MoveVertical | fs/ed.c:291-311 | up and down keep the column or clip it to the line |
| EditorModel.CutSplices | fs/ed.c:401-406 | `x` removes the byte under the cursor |
| EditorModel.DeleteLineSplices | fs/ed.c:184-190 | `dd` removes the line from the text and yanks it |
| EditorModel.PasteSplices | fs/ed.c:177-182 | `p` splices the yanked line in below and puts the cursor on it |
| EditorModel.OpenLineSplices | fs/ed.c:391-400 | `o` and `O` splice in a newline at the line's end or start |
| EditorKeys.LeftKey | fs/ed.c:381-385 | `h` and left move the offset back by one, across line ends, and change nothing else |
| EditorKeys.RightKey | fs/ed.c:381-385 | `l` and right move it forward by one within the line, and change nothing else |
| EditorKeys.VerticalKey | fs/ed.c:381-385 | `j`, `k`, down and up go to the neighbouring line if there is one, in the same column or at its end, and change nothing else |
| EditorKeys.InsertModeKey | fs/ed.c:386-390 | `i` enters INSERT mode at the cursor, `a` one past it within the line |
| EditorKeys.OpenBelowKey | fs/ed.c:391-395 | `o` splices in a newline at the line's end and enters INSERT mode after it, the flag unchanged, also below the last line |
| EditorKeys.OpenAboveKey | fs/ed.c:396-400 | `O` splices in a newline at the line's start and enters INSERT mode on the empty line, the flag unchanged |
| EditorKeys.CutKey | fs/ed.c:401-406 | `x` removes the byte under the cursor, which steps back at the line's end; elsewhere nothing |
| EditorKeys.DeleteKey | fs/ed.c:407-411 | `dd` removes the line and yanks its first 4095 bytes; below the last line it moves up; `d` and another key do nothing |
| EditorKeys.YankKey | fs/ed.c:412-416 | `yy` changes only the yank buffer, to the line's first 4095 bytes; `y` and another key do nothing |
| EditorKeys.PasteKey | fs/ed.c:417 | `p` splices the yanked line in below and goes there; below the last line only the cursor moves |
| EditorKeys.OtherNormalKey | fs/ed.c:418-424 | `:` starts a command; any other key does nothing |
| EditorKeys.TypedKey | fs/ed.c:345-347 | a printable key splices its byte in at the offset, or appends it with a newline below the last line |
| EditorKeys.EnterKey | fs/ed.c:343 | Enter splices in a newline at the offset |
| EditorKeys.BackspaceKey | fs/ed.c:344 | Backspace removes the byte before the offset; at the start and below the last line nothing |
| EditorKeys.EscapeKey | fs/ed.c:339-342 | Escape leaves INSERT mode and steps back within the line; any other key does nothing |
| EditorKeys.CommandEditKey | fs/ed.c:353-375 | printable keys extend the command up to 78 bytes, Backspace takes the last, Escape drops it |
| EditorKeys.CommandEnterKey | fs/ed.c:313-332 | what Enter does after `q`, `q!`, `w`, `wq` and anything else |
| EditorKeys.CommandTyped | fs/ed.c:353-375 | `:` and up to 78 printable keys change only mode and command |
| EditorKeys.WriteCommands | fs/ed.c:54-73 | typed `:w` and `:wq` put the text's pieces in the file and clear the flag if the save can succeed; `:wq` leaves |
| EditorKeys.QuitCommands | fs/ed.c:313-321 | typed `:q!` leaves with the volume untouched, and so does `:q` unless the flag is set |
| EditorKeys.UnknownCommand | fs/ed.c:325-331 | any other typed command changes nothing |
| EditorModel.KeyKeeps | fs/ed.c:334-425 | every key keeps cursor bounds, NUL- and newline-free lines and buffer bounds, if and only if it is not a paste below the last line |
| EditorModel.PasteBelowHappens | fs/ed.c:177-182 | `i a ESC d d p` in an empty file puts the cursor on a line that does not exist |
| EditorModel.FlagKeeps | fs/ed.c:334-425 | a clear flag keeps meaning "lines as last opened or saved", if and only if the key is not one of the row-inserting keys pressed with the flag clear |
| EditorModel.ForgottenRowHappens | fs/ed.c:391-395 | the keys `o ESC : q` and a newline leave with an unsaved row |
| EditorModel.AfterKeeps | fs/ed.c:334-425 | one key, its save included, keeps editor and volume in order if and only if it is not a paste below the last line |
| EditorModel.SessionSound | fs/ed.c:334-425 | over every key sequence, all states are in order, volume included, if and only if no key pastes below the last line |
| EditorModel.SessionFlag | fs/ed.c:54-73 | over every key sequence, a clear flag means "nothing unsaved" in all states if and only if no row-inserting key comes while the flag is clear |
| EditorModel.PlainQuit | fs/ed.c:313-321 | after such a session `:q` leaves exactly when the flag is clear, and the lines left behind are then those last opened or saved |
| EditorModel.SessionFiles | fs/ed.c:54-73 | on a tidy volume a session changes no file but its own, which ends up holding the lines last saved, cut at 4095 bytes; without a save that can succeed no file changes |
| EditorModel.SavedIsStored | fs/ed.c:54-73 | whatever block a save writes, the volume is that of a session's save |
| EditorModel.OpenedSound | fs/ed.c:14-52 | every session starts sound, at the first column of the first line, in NORMAL mode, with nothing unsaved and the name's first 63 bytes |
| EditorModel.OpensAs | fs/ed.c:36-50 | a file of any size opens as the pieces of its first 4095 bytes, an empty one as no lines |
| EditorModel.SplitNext | fs/ed.c:44-50 | byte by byte, 10 and 0 end the line and any other byte extends it |
| EditorModel.SplitText | fs/ed.c:44-50 | splitting the text of clean lines gives them back and one empty line |
| EditorModel.SplitClean | fs/ed.c:44-50 | opened lines hold no newline and no NUL |
| EditorModel.Bounded | fs/ed.c:58-64 | a save keeps the first min(4095, length) bytes |
| EditorModel.BoundedNext | fs/ed.c:58-64 | one round of the save loop extends the bounded text by one line |
| EditorModel.EnsuredFound | fs/ed.c:67-69 | after the lookup, creation and second lookup the file is there exactly when it existed or its name is short and a slot is free |
| EditorModel.SaveThenOpen | fs/ed.c:29-73 | the file exists after a save exactly when it can, and opening it gives the text's pieces, cut at 4095 bytes |
| EditorModel.SplitLength | fs/ed.c:44-50 | the pieces of any string, each followed by a newline, are one byte longer than the string |
| EditorModel.SaveReopen | fs/ed.c:29-73 | after a save, reopening gives the lines followed by exactly one empty line if and only if there are lines and their text fits |
| EditorModel.SaveUpdatesMap | fs/ed.c:54-73 | a save is one update of the map from names to byte strings |
| Editor.RowInsertChar | fs/ed.c:104-111 | one byte inserted, out-of-range positions meaning the end; still NUL-terminated at its size |
| Editor.RowDelChar | fs/ed.c:113-118 | one byte removed, out of range nothing; still NUL-terminated |
| Editor.RowAppendString | fs/ed.c:120-126 | the string appended; still NUL-terminated |
| Editor.LinesAfterInsert | fs/ed.c:81-87 | shifting the rows up with memmove inserts one line |
| Editor.LinesAfterDelete | fs/ed.c:98-100 | shifting the rows down removes one line |
| Editor.TextEditor.InsertRow | fs/ed.c:79-88 | the row buffers hold the lines of the model; out of range nothing |
| Editor.TextEditor.DelRow | fs/ed.c:96-102 | as in the model |
| Editor.TextEditor.InsertChar | fs/ed.c:132-137 | as in the model |
| Editor.TextEditor.InsertNewline | fs/ed.c:139-151 | as in the model |
| Editor.TextEditor.DelChar | fs/ed.c:153-167 | as in the model |
| Editor.TextEditor.YankLine | fs/ed.c:169-175 | as in the model, cut at 4095 bytes |
| Editor.TextEditor.PasteLine | fs/ed.c:177-182 | as in the model, refused insert included |
| Editor.TextEditor.DeleteLine | fs/ed.c:184-190 | as in the model |
| Editor.TextEditor.MoveCursor | fs/ed.c:291-311 | as in the model |
| Editor.TextEditor.FillText | fs/ed.c:56-65 | the buffer holds exactly the first min(4095, length) bytes of the text |
| Editor.TextEditor.Save | fs/ed.c:54-73 | the volume is that of the model's save, and the flag is cleared exactly when the save can succeed |
| Editor.TextEditor.LoadRows | fs/ed.c:44-50 | the loop appends the pieces between newlines and NULs |
| Editor.TextEditor.Open | fs/ed.c:29-52 | the rows are those of the stored file, cut at 4095 bytes; a missing or empty file adds none |
| Editor.TextEditor.ExecCommand | fs/ed.c:313-332 | leaves, saves or does nothing, as the command says |
| Editor.TextEditor.ProcessKeypress | fs/ed.c:334-425 | every key in every mode acts as in the model, on rows, cursor, flag and volume |
| KeyboardRing.KeyRows | drivers/keyboard_map.h:2-77 | the key of every scancode in the keyboard's four rows, plain and shifted |
| KeyboardRing.OtherKeys | drivers/kbd_driver.c:83-115 | the key of every other scancode: Escape, Backspace, Tab, Enter, Space, keypad, arrows and the rest; releases and unused codes offer nothing |
| KeyboardRing.MapsAgree | drivers/keyboard_map.h:2-77 | the two maps name the same keys in 7 bits, and shift capitalises letters |
| KeyboardRing.ShiftIsHeld | drivers/kbd_driver.c:83-96 | over every stream shift is held exactly when a 0x2A or 0x36 has no 0xAA or 0xB6 after it, or shift was held at the start and no release came |
| KeyboardRing.LetterDecodes | drivers/kbd_driver.c:83-115 | a letter's key decodes to the capital exactly then |
| KeyboardRing.OfferedRange | drivers/kbd_driver.c:83-115 | only 7-bit characters and the nine special codes reach the ring, never 0 or EOF |
| KeyboardRing.DecodedRange | drivers/kbd_driver.c:83-115 | the same for every stream of scancodes |
| KeyboardRing.DecodedNext | drivers/kbd_driver.c:83-115 | decoding is incremental: one more scancode adds what the handler offers in the current shift state |
| KeyboardRing.PushAppends | drivers/kbd_driver.c:34-38 | a push appends in order unless exactly 255 keys wait, and touches no waiting slot |
| KeyboardRing.AdvanceDrops | drivers/kbd_driver.c:40-45 | reading and advancing removes the oldest key |
| KeyboardRing.StepKeeps | drivers/kbd_driver.c:34-116 | every step keeps the invariant; only an interrupt with 255 keys waiting drops; the slot being read is never overwritten before the index moves |
| KeyboardRing.RunDelivers | drivers/kbd_driver.c:34-116 | under every interleaving the received keys are a prefix in order of the accepted ones, at most 255 wait, and the accepted keys are the decoded scancodes in order with exactly the dropped ones missing |
| KeyboardRing.Keyboard.PushKey | drivers/kbd_driver.c:34-38 | the ring after a push is that of the model |
| KeyboardRing.Keyboard.Await | drivers/kbd_driver.c:41 | polling ends with the first interrupt that brings a key, and all of them reach shift state and ring |
| KeyboardRing.Keyboard.GetChar | drivers/kbd_driver.c:40-45 | returns the oldest waiting key or, if none waits, the first key to arrive, and removes it |
| KeyboardRing.Keyboard.HandleInterrupt | drivers/kbd_driver.c:83-115 | shift state and ring after a scancode are those of the model |
| Paging.PageWritten | kernel/kernel.c:260-261 | one table entry changes the translation of its page and of no other |
| Paging.TableInstalled | kernel/kernel.c:255-258 | a new table changes only what its directory slot translates |
| Paging.MapUserWalks | kernel/kernel.c:250-262 | the translation of every page after one map_user_page |
| Paging.MapUserKeepsOthers | kernel/kernel.c:250-262 | every other mapped page keeps its translation |
| Paging.StaysUnmapped | kernel/kernel.c:255-258 | an unmapped page stays unmapped exactly when the new table's frame holds no present entry for it |
| Paging.LeftoverHappens | kernel/kernel.c:255-258 | after boot, a present word left in the new table's frame makes page 2049 appear when page 2048 is mapped |
| Paging.TablesApart | kernel/kernel.c:255-258 | page tables keep frames of their own if and only if a new one is not needed, a frame is left, or frame 0 holds no table |
| Paging.MapUserWrites | kernel/kernel.c:250-262 | only the directory and table frames are written |
| Paging.MapUserAccess | kernel/kernel.c:257-261 | after map_user_page user mode may write the page if and only if its table is new or its region was open; no other page of a region with a table changes |
| Paging.RunProtects | kernel/kernel.c:585-609 | over every run a region closed to user mode stays closed, and a page not mapped again stays open or closed |
| Paging.InitialClosed | kernel/kernel.c:230-237 | no boot mapping is open to user mode |
| Paging.FramebufferClosed | kernel/kernel.c:566-571 | the framebuffer loop opens no page, unless its region was open |
| Paging.ThroughIs | kernel/kernel.c:250-262 | when the table is in reach, the translated stores of `map_user_page` have the intended effect |
| Paging.ReachExact | kernel/kernel.c:260-261 | an existing table is in reach; a new one is if and only if its page was mapped to itself, and if it was not mapped the code faults |
| Paging.FarTableFaults | kernel/kernel.c:255-261 | after boot, every call that needs a new table at or above 8 MiB faults, unless it maps the table's own region |
| Paging.LowRun | kernel/kernel.c:585-609 | after boot, every sequence of fresh mappings of pages above 8 MiB is a run while memory below 8 MiB lasts |
| Paging.SpareExact | kernel/kernel.c:585-606 | user frames stay distinct and apart from tables if and only if no frame is missing, or one is and frame 0 is unused |
| Paging.SharedTableHappens | kernel/kernel.c:255-261 | without a frame left, mapping page 2048 and then page 3072 makes both translate to the second frame |
| Paging.OwnTableHappens | kernel/kernel.c:585-606 | without a frame left, a fresh mapping gives the user the page table it is entered in |
| Paging.RunKeeps | kernel/kernel.c:585-609 | over every run of fresh mappings that reach their tables and find a spare frame, and of user stores, each user page walks to its own frame, frames are distinct, none is a page table, and all tables stay in reach |
| Paging.RunTranslates | kernel/kernel.c:250-262 | over every run each page mapped before, kernel and framebuffer pages included, keeps its translation until it is mapped again |
| Paging.UserDataKept | kernel/kernel.c:250-262 | a user's word changes only by a store to it or a remapping of its page |
| Paging.RunKeepsData | kernel/kernel.c:250-262 | over every run a user's word keeps its value until stored to or its page is mapped again |
| Paging.InitialWalks | kernel/kernel.c:230-239 | after boot the first 8 MiB map to themselves and nothing else is mapped |
| Paging.MapIdentityWalks | kernel/kernel.c:561-572 | one round of the framebuffer loop maps its page to itself and changes no other page, mapped or not |
| Paging.KernelPaging.constructor | kernel/kernel.c:230-239 | the loop writes the two identity tables and the directory; the first free frame is the page-aligned kernel end |
| Paging.KernelPaging.AllocFrame | kernel/mm.c:38-45 | the next frame, or 0 once 128 MiB are used |
| Paging.KernelPaging.MapUserPage | kernel/kernel.c:250-262 | memory, next frame and fault are those of the translated model, for any addresses and with or without a frame left |
| Paging.KernelPaging.ZeroFrame | kernel/kernel.c:568 | the inner loop, through the translation, clears the frame and nothing else, or faults exactly when the frame's page is not mapped |
| Paging.RoundThrough | kernel/kernel.c:566-572 | a round that does not fault has the intended effect through the translation |
| Paging.LastByteMapped | kernel/kernel.c:560-571 | the finished loop maps the page of the last byte if the base's offset leaves room in the last step, and otherwise leaves it as it was |
| Paging.LastByteMissed | kernel/kernel.c:560-571 | a page-sized framebuffer one byte into a page leaves its last byte unmapped |
| Paging.KernelPaging.MapFramebuffer | kernel/kernel.c:558-573 | for any base, the pages done translate to themselves and every other page is as it was, unmapped ones included; it falls short only by a page fault on a new table's frame, and never while frames below 8 MiB last |
| Shell.TokensAreRuns | kernel/string.h:143-154 | every token is a maximal delimiter-free run |
| Shell.RunsAreTokens | kernel/string.h:143-154 | every maximal delimiter-free run is a token |
| Shell.TokensOrdered | kernel/string.h:143-154 | tokens come in order and never touch |
| Shell.TokenReads | kernel/string.h:151 | a token cut out in place reads as a C string |
| Shell.DelimsAre | kernel/Shell.c:20 | space, tab, carriage return, newline and bell separate tokens, and nothing else |
| Shell.StrChr | kernel/string.h:68-75 | the first occurrence, or NULL exactly when there is none |
| Shell.Tokeniser.StrTok | kernel/string.h:143-154 | skips delimiters, returns the next run, writes one NUL after it and moves the hidden pointer past it |
| Shell.Tokeniser.NextToken | kernel/string.h:143-154 | each call delivers the next token and keeps the earlier ones readable |
| Shell.StoreToken | kernel/Shell.c:206-217 | the index stays inside the array, which grows by 64 slots when full |
| Shell.SplitLine | kernel/Shell.c:192-224 | the array lists exactly the tokens in order, NULL after them, each readable as a C string; NULL is returned exactly when an allocation it needs fails |
| Shell.PlainKeysTyped | kernel/Shell.c:148-184 | keys other than backspace, up to a newline or the end of input, become the line byte for byte: each its own code, or the code modulo 256 |
| Shell.BackspaceAtStart | kernel/Shell.c:151-161 | at the start of a line backspace does nothing |
| Shell.PeakIs | kernel/Shell.c:172-183 | the peak that decides the allocations is the greatest length the line ever has |
| Shell.BackspaceUndoes | kernel/Shell.c:151-161 | a character and a backspace leave no trace, wherever they are typed |
| Shell.PutChar | kernel/Shell.c:172-183 | the byte is stored and the buffer grows by 1024 when full |
| Shell.ReadLine | kernel/Shell.c:136-185 | the buffer holds the typed line and its NUL; NULL exactly when an allocation it needs fails |
| Shell.TypedNoNul | kernel/Shell.c:148-184 | a line typed with the keyboard's keys holds no NUL |
| Shell.ReadCommand | kernel/Shell.c:107-122 | read and split together list exactly the tokens of the typed line, for all keys the keyboard delivers |

## Left out

- Port I/O, PIC, PIT, IDT and GDT setup, serial output, assembly and userspace jumps: hardware effects.
- Screen output (`kernel/kprintf.c`, `drivers/vga13.c`, the editor's drawing and scrolling code, the shell's echo).
- `kernel/time.c`, `map_kernel_page`, the sbrk system call and the user programs.
- Heap calls with pointers that are not live: `mem_free` and `realloc` require NULL or a live pointer.
- TLB effects: every access is translated by the tables as they are. The page directory itself is read and written at its physical address, which `Paging.KernelPaging.MapUserPage` requires to be its virtual one.
- The keyboard's enable flag and status port: an interrupt here is one whose scancode was read.
- Heap.Allocator.Malloc: the heap array's address is a constant with room before 2^32; the linker's choice of it is not part of this model.
- EasyFs.FileSystem.ReadFile: requires the blocks it reads to be on the disk and the buffer to hold them, which the code does not check.
- Paging.KernelPaging.MapFramebuffer: requires frames for the tables it needs, a range that does not wrap at 2^32, and a size up to 0xFFFFF000, beyond which the loop's 32-bit offset wraps and it never ends; the code checks none of this.
- EasyFs.FileSystem.FindFile: a name argument is a byte string without NUL; names in user memory are not modelled.
- Editor.TextEditor.ExecCommand: the message text it puts in the command buffer is not modelled; the buffer keeps the typed command.
- Editor.TextEditor.Open: requires a file size below 2^31; the code converts it to `int` and would index its buffer with a negative number.
- Editor.TextEditor.InsertRow: rows and row buffers are sequences replaced on update, so aliasing between them is not captured; allocation is assumed to succeed, as the code does not test it.
- KeyboardRing.Keyboard.GetChar: interrupts come while the call polls; those between its read and its index update are covered by the step machine.
- Shell.SplitLine: how many allocations succeed is a parameter; the tokeniser is not connected to the heap model.
