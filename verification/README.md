# A Dafny model of a small teaching kernel

This project models the parts of a 32-bit x86 teaching kernel that are algorithms and state machines, and proves what
they promise. The kernel has three virtual terminals on one text screen, a scheduler that runs one process of each
terminal in turn, a pool of six processes, a read-only file system, a line editor with a command history, a real-time
clock shared by the terminals, and a buddy allocator over ten 4 MB regions.

Code that changes globals, arrays and device memory step by step is a class whose methods update fields and arrays in
place. Each method is proved equal to a step of a functional model, and the theorems are about that model: what every
step keeps, what holds over whole runs, what one call undoes.

| file | what it covers |
|---|---|
| `BuddyTree.dfy`, `Malloc.dfy`, `MallocArena.dfy`, `MallocMemory.dfy` | the buddy tree as a value, the heap of ten regions and its runs, the flat in-place array, and where the blocks lie in memory |
| `Screen.dfy`, `Terminals.dfy`, `SafeText.dfy`, `Console.dfy` | one text screen, the refinement of three multiplexed terminals, the text that keeps it and text that breaks it, and the code on globals and video memory |
| `FdTable.dfy`, `Processes.dfy`, `Scheduler.dfy` | descriptor tables, process stacks, and the code on PCBs and scheduler arrays |
| `FileSystem.dfy`, `FileReads.dfy`, `Directory.dfy`, `ImageLayout.dfy` | reading a file image through byte addresses, runs of reads, the directory, and the round trip through an image laid out from files and entries |
| `Rtc.dfy` | the divided clock over every interleaving of interrupts and device operations |
| `History.dfy`, `Recall.dfy`, `Prompt.dfy`, `Keyboard.dfy`, `Editors.dfy` | the line editor and its history ring, what Up and Down bring back, what they leave on the screen, the code in place, and three editors on the multiplexed machine |
| `Numerals.dfy` | `itoa`, `strrev` and the numeric conversions of `printf` |
| `Arithmetic.dfy`, `Strings.dfy` | arithmetic, bytes and strings shared by the others |

Each section that the kernel brackets with `cli` and `restore_flags` is one atomic step. `memcpy`, `memmove` and
`memset` are bytewise. `dafny verify dfyconfig.toml` checks the whole project.

## Where the code does not do what its text promises

Each of these is stated as a theorem that says exactly when the code does.

- A block is smaller than the request whenever the request is over 4096 bytes and not 4096*2^k
  (`Malloc.CoversRequestExactly`, `Malloc.RequestedBytesCanOverlap`).
- All ten malloc regions map the same 4 MB of memory, which also holds the screen and the backing pages: blocks that
  are disjoint in address share memory as soon as a request is served outside region 0
  (`MallocMemory.RunMemorySafeExactly`, `MallocMemory.TwoBigRequests`, `MallocMemory.OverlapsScreensExactly`).
- `clear` keeps `terminal_x`, and long output without line breaks outlives the screen, so that a backspace can leave
  the screen (`Screen.BackspaceAfterClear`, `Screen.RoomKeptExactly`, `Screen.BurstFallsOffExactly`).
- The terminals are not isolated from such backspaces: a hidden terminal's backspaces above its own screen blank cells
  of the hidden terminal whose page lies below (`Terminals.SpillsExactly`, `Terminals.OutputRefinesExactly`,
  `Terminals.FirstSpillBreaks`, `SafeText.BurstFromBoot`). Nor are they from programs that store through their malloc
  blocks (`MallocMemory.HeapStoreExactly`).
- The hint that a descriptor table is full goes stale, and a failing open can reset the RTC
  (`FdTable.HintGoesStale`, `FdTable.FailedOpenResetsRtcExactly`).
- When no base shell can be started where one is needed, the scheduler's state fits no process stacks
  (`Processes.StepAgreesExactly`), and from boot six opens by a base shell and its exit get there
  (`Processes.SixOpensThenExit`).
- The loop of `read_data` may look one entry past the table (`FileSystem.LooksPastTableExactly`, `FileSystem.EntryPastTable`).
- A frequency of 1024 Hz is accepted and practically never fires; 0 divides by zero (`Rtc.FrequencyMetExactly`,
  `Rtc.Driver.RtcWrite`).
- A line of 127 bytes is read and run, but not remembered (`Recall.RemembersExactly`).
- A line entered before the program reads is lost, and the read then returns nothing (`Recall.EnteredAheadReadsNothing`).
- Backspace over a tab leaves one of its spaces in the buffer (`Recall.BackspaceTakesBackExactly`).
- Down misses the draft's slot after exactly 31 commands, and Up cannot reach the command 32 back
  (`History.DownMeetsIntentionExactly`, `Recall.UpThenDown`, `Recall.UpLosesTheOldest`).

## Model

| member | source | states |
|---|---|---|
| `BuddyTree.InvIsAntichain` | student-distrib/paging.c:125-159 | The node-by-node invariant is the whole-tree one: unavailable nodes form an antichain, and a node is split exactly when a proper descendant is unavailable |
| `BuddyTree.AllocKeepsInv` | student-distrib/paging.c:127-157 | A successful search keeps that invariant and touches the root |
| `BuddyTree.AllocComplete` | student-distrib/paging.c:127-157 | The search fails exactly when no aligned run of 2^order wholly free pages exists in the tree |
| `BuddyTree.AllocLowest` | student-distrib/paging.c:127-155 | A successful search hands out a free run, and the lowest one |
| `BuddyTree.AllocMarksRun` | student-distrib/paging.c:135-155 | The pages occupied afterwards are those occupied before and those of the run |
| `BuddyTree.AllocConserves` | student-distrib/paging.c:135-155 | Occupied pages grow by exactly 2^order |
| `BuddyTree.SlotInRegion` | student-distrib/paging.c:135-145 | Slot q of order k covers pages q*2^k to (q+1)*2^k, inside the region |
| `BuddyTree.TouchedExactly` | student-distrib/paging.c:127-157 | The root of a region is marked, unavailable or split, exactly when some page of the region is occupied |
| `Malloc.OrderBrackets` | student-distrib/syscall.c:454-456 | The chosen order k has 4096*2^k <= size < 4096*2^(k+1) from 4096 bytes on, and is 0 below |
| `Malloc.CoversRequestExactly` | student-distrib/syscall.c:454-456 | The block covers the request exactly for sizes up to 4096 and for 4096*2^k: the order is rounded down |
| `Malloc.RegionPlaces` | student-distrib/syscall.c:463-471 | In one region: refusal means no free run there; success means the first free run from there on, marked and nothing else changed |
| `Malloc.FirstFitPlaces` | student-distrib/syscall.c:461-475 | The region loop answers NULL only if no later region has a free run, and otherwise places the first free block |
| `Malloc.RefusedIffNoFreeRun` | student-distrib/syscall.c:445-475 | A valid request is refused exactly when none of the ten regions has a free aligned run of its order |
| `Malloc.AnswersExactly` | student-distrib/syscall.c:445-476 | The same with the bounds written out, for every heap and every size: 0 and the heap unchanged for size <= 0 or above 4194304; any other size has an order k with 4096*2^k <= size < 4096*2^(k+1), 0 below one page, and is answered 0 exactly when no region has a free aligned run of 2^k pages |
| `Malloc.BlockInRegion` | student-distrib/syscall.c:470 | A block lies in the 4 MB of its region, at the address of its first page |
| `Malloc.BlockAligned` | student-distrib/syscall.c:470 | The address is a multiple of the block's own size |
| `Malloc.LowestAddress` | student-distrib/syscall.c:461-470 | The block returned is the lowest-addressed free aligned run of its order over all regions, aligned and inside its region |
| `Malloc.RunKeepsBlocks` | student-distrib/syscall.c:445-476 | Over any run of requests every block ever given stays occupied |
| `Malloc.RunBlocksDisjoint` | student-distrib/syscall.c:445-476 | Over any run of requests any two blocks given are disjoint in address |
| `Malloc.RunConserves` | student-distrib/syscall.c:445-476 | Over any run there are as many occupied pages in all ten regions as pages given |
| `Malloc.RunOccupiedExactly` | student-distrib/syscall.c:445-476 | Page by page and region by region, over any run: a page is occupied exactly when some block given covers it |
| `Malloc.RunConservesRegion` | student-distrib/syscall.c:445-476 | Per region, over any run: the occupied pages are as many as the pages given there, at most 1024 |
| `Malloc.FirstRequest` | student-distrib/syscall.c:445-476 | From boot any valid request gets the first slot of its order in the first region |
| `Malloc.RequestedBytesCanOverlap` | student-distrib/syscall.c:454-456 | Two requests of more than one page and less than two from boot get one page each: the second block begins inside the bytes the first asked for |
| `MallocMemory.ApartExactly` | student-distrib/paging.c:70-77 | The region base is stored unshifted in 20 bits, so all regions map the same 4 MB: any two blocks share no byte of memory exactly when their page ranges within their regions are disjoint |
| `MallocMemory.RegionsShareMemory` | student-distrib/paging.c:70-77 | Blocks of different regions are disjoint in address, and in memory exactly when those page ranges are |
| `MallocMemory.OverlapsScreensExactly` | student-distrib/paging.c:70-77 | A block of any region overlaps the screen page or a backing page exactly when it has page 184, 186, 187 or 188 of its region |
| `MallocMemory.HeapStoreExactly` | student-distrib/paging.c:70-77 | A store into a block changes a terminal's screen exactly when its byte is one of the page that holds that screen and held another value |
| `MallocMemory.InRegionZeroExactly` | student-distrib/syscall.c:461-475 | A granted request gets its block in region 0 exactly when region 0 still has a free aligned run of its order |
| `MallocMemory.OutsideRegionZeroShares` | student-distrib/paging.c:70-77 | Over any run a block outside region 0 always shares memory with an earlier block of region 0 |
| `MallocMemory.RunMemorySafeExactly` | student-distrib/syscall.c:445-476 | Over any run from boot the blocks given share no byte of memory exactly when region 0 could serve every request that was granted |
| `MallocMemory.TwoBigRequests` | student-distrib/syscall.c:445-476 | A failing run: of two requests of 4 MB the second gets region 1 and all the memory of the first |
| `MallocArena.NextFirstPage` | student-distrib/paging.c:135-145 | The walk to the leftmost leaf keeps the first page of the subtree |
| `MallocArena.FirstPageInRegion` | student-distrib/paging.c:135-145 | The first page of a node of the array is a page of the region |
| `MallocArena.TreeAtFrame` | student-distrib/paging.c:125-159 | Marks outside a node's subtree of the array do not matter to it |
| `MallocArena.ZeroRowIsBlank` | student-distrib/paging.c:125-159 | Zeroed metadata is the blank tree |
| `MallocArena.Pow` | student-distrib/lib.c:45-51 | pow by repeated multiplication, wrapping at 32 bits each time, is the power wrapped once, and the power itself for 2^0 to 2^30; for a negative exponent it is the base |
| `MallocArena.ChooseOrder` | student-distrib/syscall.c:453-456 | The order loop ends with the order that brackets the size |
| `MallocArena.MallocState.constructor` | student-distrib/paging.c:70-77 | Boot: blank trees, and directory entries absent with the bases paging_init stores |
| `MallocArena.MallocState.MallocTree` | student-distrib/paging.c:125-159 | The recursion on the flat array, in place: page number and marks are those of the tree search, other regions and other nodes unchanged |
| `MallocArena.MallocState.SearchRegion` | student-distrib/syscall.c:463-464 | From the root: -1 and nothing changed, or the page q*2^k and the marked tree |
| `MallocArena.MallocState.SyscallMalloc` | student-distrib/syscall.c:445-476 | NULL with nothing changed for size <= 0 or above 4194304; otherwise, for the order k with 4096*2^k <= size < 4096*2^(k+1) (0 below one page), NULL exactly when no region has a free aligned run of 2^k pages, and else the address (40 + region)*4 MB + page*4096 of the lowest one, whose pages and no others become occupied; entry 40 + r is present exactly when region r has an occupied page |
| `Screen.StaysOnScreenExactly` | student-distrib/lib.c:196-250 | putc keeps the cursor on the 80x25 screen except for a backspace in the first cell with characters to take back; then the row becomes -1 |
| `Screen.PutcExactly` | student-distrib/lib.c:196-250 | putc by the value of the byte, in addresses: 10 and 13 go to column 0 of the next row, or scroll and stay in row 24, set terminal_x to 0 and store nothing; 8 goes one cell back and stores NUL and 0x0C there if terminal_x is not 0; any other byte is stored at base + 2*(80*y + x), the position and terminal_x grow by one and the next cell gets 0x0C, with a scroll after the last cell |
| `Screen.TapeRules` | student-distrib/lib.c:196-250 | The tape by the same values: 10 and 13 to place 80*(p/80 + 1), 8 one place back over a NUL if there is something to take back, any other byte written and one place on; blanks are 32 in the first 2000 places |
| `Screen.DrawIsLocal` | student-distrib/lib.c:196-250 | A putc that stays on the screen reads and writes its own page only, wherever the page is |
| `Screen.ClearIsLocal` | student-distrib/lib.c:25-38 | clear writes its own page only |
| `Screen.RoomKeptExactly` | student-distrib/lib.c:200-247 | terminal_x <= 80*screen_y + screen_x is kept by every putc except a character that scrolls after 1920 others |
| `Screen.BackspaceErasesPreceding` | student-distrib/lib.c:216-220 | With that room a backspace blanks exactly the preceding cell, across row ends too |
| `Screen.BackspaceAfterClear` | student-distrib/lib.c:25-38 | clear leaves terminal_x, so a backspace after it stays on the screen exactly when terminal_x is 0 |
| `Screen.BackspaceSafe` | student-distrib/lib.c:196-250 | putc alone, from a cleared screen: over any text with at most 1920 characters since each line break, every backspace stays on the screen and has room |
| `Screen.BurstFallsOffExactly` | student-distrib/lib.c:196-250 | Of m <= n backspaces after n plain characters one falls off exactly when n >= 2000 and m > 1920 + n mod 80 |
| `Screen.TapeTop` | student-distrib/lib.c:196-250 | After each character that stays on the screen, backspaces included, the cursor is where the tape ends, and the top row of the window has moved down by one exactly when putc scrolled |
| `Screen.DrawCells` | student-distrib/lib.c:621-650 | What a character or a line break does to each cell: shifted up a row when it scrolls, the new character in its cell |
| `Screen.EraseCells` | student-distrib/lib.c:216-220 | What a backspace that stays on the screen does to each cell: the one before the cursor becomes NUL, if there is something to take back |
| `Screen.WindowStep` | student-distrib/lib.c:196-250 | One putc that stays on the screen keeps the screen a window on the tape |
| `Screen.Window` | student-distrib/lib.c:196-250 | After any text whose characters stay on the screen, backspaces included, from a cleared screen and any terminal_x, the cursor is at the end of an unbounded 80-column tape and the cells are its 25 rows from the top row on; a backspace goes one back on the tape and leaves a NUL there |
| `Screen.PlainTextTop` | student-distrib/lib.c:196-250 | A text without backspaces stays on the screen, and the rows shown are the last 25 |
| `Terminals.ApplyRefines` | student-distrib/lib.c:196-250 | Every operation, wherever the cursor is, keeps the machine coherent and does to the loaded logical terminal what the specification says, and changes no other one exactly when it does not store into another terminal's page |
| `Terminals.SpillsExactly` | student-distrib/lib.c:196-250 | From a cursor on the screen, putc stores into another terminal's page exactly when it is a backspace in the first cell of a hidden terminal whose page lies just above that of another hidden terminal, and the two bytes there do not hold what it stores |
| `Terminals.FaultsExactly` | student-distrib/lib.c:196-250 | From a cursor on the screen, putc stores where no page is present exactly when it is such a backspace of the shown terminal or of terminal 0 |
| `Terminals.SwitchRefines` | student-distrib/lib.c:578-611 | switch_screen changes no logical terminal |
| `Terminals.SavedStoreIsLost` | student-distrib/kboard.c:463-474 | The store to the saved terminal_x when the line is cleared is lost at the switch back |
| `Terminals.TradePages` | student-distrib/paging.c:96-106 | Copying the shown page out and the target page in keeps every terminal's screen contents |
| `Terminals.ShowRefines` | student-distrib/scheduler.c:64-83 | terminal_switch changes which terminal is shown and no logical terminal |
| `Terminals.TickRefines` | student-distrib/scheduler.c:18-57 | A tick advances the active terminal and changes no logical terminal |
| `Terminals.KeyRefines` | student-distrib/x86_inter.c:77-176 | A keyboard interrupt whose operations neither fault nor store into another terminal's page, with or without a switch in the middle, acts on the shown terminal only |
| `Terminals.OutputRefinesExactly` | student-distrib/lib.c:196-250 | Output keeps the machine coherent, and acts on the active terminal only exactly when it does not store into another terminal's page |
| `Terminals.UserStoreRefines` | student-distrib/paging.c:112-117 | A store through the vidmap page writes the active terminal's own page |
| `Terminals.EventRefines` | student-distrib/x86_inter.c:77-176 | One clean event (no fault, no store into another terminal's page) of the multiplexed machine is that event of three independent terminals |
| `Terminals.RunRefines` | student-distrib/scheduler.c:18-83 | Under any interleaving of ticks, key interrupts, switches and clean output the machine stays coherent and simulates three independent terminals |
| `Terminals.FirstSpillBreaks` | student-distrib/scheduler.c:18-83 | After a clean run one more output keeps the simulation exactly when it does not store into another terminal's page |
| `Terminals.FirstTick` | student-distrib/scheduler.c:7-57 | The first tick after boot and the shell's clear make the machine coherent, whatever was in the registers and whichever terminal a switch has shown before |
| `Terminals.SpecIsolation` | student-distrib/scheduler.c:18-83 | In the specification a terminal that gets no output and no keystrokes does not change |
| `Terminals.Isolation` | student-distrib/scheduler.c:18-83 | In the machine, over any clean run, a terminal that gets no output and no keystrokes keeps its cursor, history indices and screen |
| `SafeText.TameStaysOnScreen` | student-distrib/lib.c:196-250 | Backspace safety from any cursor with room: operations that clear only with terminal_x at 0 and print at most 1920 characters from one line break or terminal_x reset to the next stay on the screen throughout and leave room |
| `SafeText.EnabledRunIsClean` | student-distrib/lib.c:196-250 | A run in which every character stays on its screen is clean |
| `SafeText.TameRunEnabled` | student-distrib/scheduler.c:18-83 | If what each terminal receives over a run keeps to those rules, every character stays on its screen |
| `SafeText.TameRunRefines` | student-distrib/scheduler.c:18-83 | So the machine is three independent terminals, from a condition on what is typed and printed alone |
| `SafeText.BurstBlanksNeighbour` | student-distrib/lib.c:196-250 | A failing run: 2000 characters and 1969 backspaces of hidden terminal 2 blank the last cell of hidden terminal 1, which gets no output and no keystrokes, and nothing faults |
| `SafeText.BootExposes` | student-distrib/scheduler.c:7-57 | Boot reaches the state the failing run starts from: three ticks, each with a shell's clear |
| `SafeText.BurstFromBoot` | student-distrib/lib.c:196-250 | The failing run from boot |
| `Console.Console.constructor` | student-distrib/scheduler.c:7-13 | Boot: terminal 0 shown, terminal 2 nominally active |
| `Console.Console.UpdateCursor` | student-distrib/lib.c:554-565 | For any x and y the display cursor is moved to y*80+x in 16 bits when cursor_change is set, and else not at all |
| `Console.Console.Clear` | student-distrib/lib.c:25-38 | The clearing loop is the Clear operation: 2000 cells of 32 and 0x0C, the cursor at 0, 0, terminal_x left alone |
| `Console.Console.CurrentRow` | student-distrib/lib.c:660-674 | The row buffer holds the row's 160 bytes |
| `Console.Console.ScrollUp` | student-distrib/lib.c:621-650 | The row-by-row copy shifts the screen up one row and blanks the last |
| `Console.Console.NextLine` | student-distrib/lib.c:200-212 | The line step, scrolling on the last row |
| `Console.Console.Putc` | student-distrib/lib.c:196-250 | putc, step by step, is the Put operation of the machine; on the screen it does to memory, cursor and terminal_x what PutcExactly says for the value of the byte, and the display cursor follows at 80*y + x when it is to |
| `Console.Console.PutCell` | student-distrib/lib.c:216-226 | The store of the character or of the erasing NUL |
| `Console.Console.WrapCursor` | student-distrib/lib.c:230-241 | The bounds check, scrolling at the right margin of the last row |
| `Console.Console.FinishMove` | student-distrib/lib.c:244-247 | The final remainders, with C's sign, and the display cursor |
| `Console.Console.SwitchScreen` | student-distrib/lib.c:578-611 | Register by register, the save and load of a terminal, with output to 0xB8000 or to its page 0xBA000 + 0x1000*t |
| `Console.Console.CopyTermVmem` | student-distrib/paging.c:96-101 | The 4096 bytes at 0xBA000 + 0x1000*t copied to 0xB8000 or back, nothing else changed |
| `Console.Console.ChangeVidmap` | student-distrib/paging.c:112-117 | The vidmap entry points at 0xB8000 or at the backing page 0xBA000 + 0x1000*t |
| `Console.Console.TerminalSwitch` | student-distrib/scheduler.c:64-83 | The switch of the shown terminal |
| `Console.Console.Schedule` | student-distrib/scheduler.c:18-57 | The screen part of a tick |
| `Console.Console.KeyboardHandler` | student-distrib/x86_inter.c:77-176 | The handler's bracket around any operations on the shown terminal |
| `Console.Console.TerminalWrite` | student-distrib/terminal.c:164-190 | NULs are skipped but counted, other fds refused, terminal_x ends at 0 |
| `Console.WritesEveryByte` | student-distrib/terminal.c:175-187 | A buffer without NULs is printed byte by byte in order, and then terminal_x is reset |
| `Console.NulPrintsNothing` | student-distrib/terminal.c:178-182 | A NUL anywhere in the buffer changes nothing of what is printed |
| `FdTable.OpenTakesLeastFree` | student-distrib/syscall.c:297-340 | Open of an existing name takes the least free slot from 2 on and fails exactly when there is none, whatever the hint says; the slot then holds the RTC for type 0, the directory with inode 0 for type 1, the file of its own inode for type 2, at position 0 and in use; other slots unchanged |
| `FdTable.OpenResetsRtcExactly` | student-distrib/syscall.c:304-318 | Any open, successful or not, opens the RTC exactly for a name of type 0 while the hint is clear |
| `FdTable.FreshSlots` | student-distrib/terminal.c:38-72 | A new process has standard input in slot 0 and standard output in slot 1, in use at position 0, and nothing else |
| `FdTable.CloseKeepsTidy` | student-distrib/syscall.c:348-366 | Close succeeds exactly on a used slot from 2 on, zeroes it and clears the hint; otherwise nothing changes |
| `FdTable.CloseUndoesOpen` | student-distrib/syscall.c:297-366 | Closing what open returned restores the table to the last bit |
| `FdTable.HintGoesStale` | student-distrib/syscall.c:333-362 | Closing a slot of a full table and opening again leaves the hint clear unless the slot was 7 |
| `FdTable.FailedOpenResetsRtcExactly` | student-distrib/syscall.c:304-339 | A failing open still opens the RTC exactly when the table is full with the hint clear and the name is the RTC's |
| `Processes.MemoryMap` | student-distrib/pid.c:58-84 | In bytes: PID p has the 8 KB from 0x80_0000 - 8192*(p+1) on, inside the kernel's 4 MB, its stack starts at their last byte, and its program has the 4 MB from 0x80_0000 + p*0x40_0000 on, above the first 8 MB |
| `Processes.PidBlocksDisjoint` | student-distrib/paging.c:85-89 | Different PIDs share no byte of their 8 KB in the kernel and none of their programs' 4 MB |
| `Processes.ExecuteDecides` | student-distrib/syscall.c:83-172 | execute answers -1 for a name that is no program, with no slot from 2 on free, or for an unsound image; 1 with all six PIDs in use or when loading fails; and otherwise switches |
| `Processes.StartedProcess` | student-distrib/syscall.c:174-247 | The process it starts has the least free PID, runs in its own memory on the active terminal, and is the terminal's base shell without a parent, or a child of the caller, which keeps the program's descriptor; nothing else of other processes changes |
| `Processes.ParentChain` | student-distrib/syscall.c:178-248 | Following parent_pid from a started terminal's active process visits different in-use processes of that terminal and ends at its base |
| `Processes.ChainsPartition` | student-distrib/pid.c:94-127 | A PID is in use exactly when it is on some terminal's chain, and it is on one only |
| `Processes.FailedExecuteChangesNothing` | student-distrib/syscall.c:122-172 | execute starts a process exactly when the command is launchable; otherwise it returns -1 or 1 with the whole kernel unchanged |
| `Processes.ChildAgrees` | student-distrib/syscall.c:213-248 | A started child goes on top of its terminal's stack, over its parent |
| `Processes.BaseAgrees` | student-distrib/syscall.c:178-212 | A base shell becomes the whole stack of its terminal, whoever was current |
| `Processes.ExecuteAgrees` | student-distrib/syscall.c:83-251 | execute is a push, or nothing |
| `Processes.HaltAgrees` | student-distrib/syscall.c:16-75 | halt of a process with a parent is a pop, and the parent's descriptor table is the one it left |
| `Processes.HaltBaseAgrees` | student-distrib/syscall.c:16-32 | halt of a base shell starts a new base shell, or leaves the terminal without processes |
| `Processes.TickAgrees` | student-distrib/scheduler.c:18-57 | A tick switches to the next terminal's top process, or starts its base shell |
| `Processes.StepAgreesExactly` | student-distrib/syscall.c:16-251 | Every event keeps the three stacks exactly when a base shell can be started whenever one is needed; otherwise no stacks agree afterwards |
| `Processes.RunAgrees` | student-distrib/syscall.c:16-251 | Over every run in which a base shell can be started whenever one is needed, the kernel is three stacks of processes with the current process, page frame and kernel stack of the active one |
| `Processes.RunInOwnMemory` | student-distrib/scheduler.c:18-57 | Over every run the current process is in use on the active terminal, and the mapped program page and the kernel stack are its own, apart from those of every other PID |
| `Processes.RunKeepsTables` | student-distrib/syscall.c:297-366 | Over every such run each process in use, suspended or not, has stdin and stdout, zeroed unused slots, and the full hint only with slots 2..7 used |
| `Processes.FullBaseCannotExit` | student-distrib/syscall.c:16-32 | A base shell that exits with slots 2..7 all used leaves a state that fits no process stacks |
| `Processes.FullPoolCannotTick` | student-distrib/scheduler.c:18-57 | So does a tick to a terminal without processes when all six PIDs are in use |
| `Processes.SixOpensThenExit` | student-distrib/syscall.c:16-32 | It happens: from boot, the first tick, six opens by the shell and its exit |
| `Processes.FirstTick` | student-distrib/scheduler.c:7-57 | The first tick after boot starts the shell of terminal 0 as process 0 and establishes the agreement |
| `Processes.StepKeepsBelow` | student-distrib/syscall.c:16-251 | One event does not touch the suspended processes below a height the stack stays above |
| `Processes.RunKeepsBelow` | student-distrib/syscall.c:16-251 | A run does not touch the suspended processes below a height the stack stays above |
| `Processes.Bracket` | student-distrib/syscall.c:33-248 | Whatever a child, its children and other terminals do, the child's halt gives its parent back its descriptors, map, hint, page frame and kernel stack |
| `Processes.PoolBound` | student-distrib/pid.c:94-105 | The three stacks hold exactly the PIDs in use, at most six |
| `Scheduler.ProcessTable.constructor` | student-distrib/pid.c:36-48 | Boot: no PID in use, no base process |
| `Scheduler.ProcessTable.GetAvailPid` | student-distrib/pid.c:94-105 | The least free PID, or -1 |
| `Scheduler.ProcessTable.ClearPcb` | student-distrib/pid.c:138-147 | One PCB and its descriptor table zeroed, the others unchanged |
| `Scheduler.ProcessTable.TerminalOpen` | student-distrib/terminal.c:19-74 | stdin and stdout in slots 0 and 1, refused if either is taken |
| `Scheduler.ProcessTable.InitPcb` | student-distrib/pid.c:115-127 | A cleared PCB with stdin and stdout becomes current |
| `Scheduler.ProcessTable.SyscallOpen` | student-distrib/syscall.c:297-340 | The slot search with its hint is the table's open; the slot holds the RTC, the directory or the file of the inode by type 0, 1 or 2, and the RTC is opened exactly for type 0 with the hint clear |
| `Scheduler.ProcessTable.SyscallClose` | student-distrib/syscall.c:348-366 | The table's close |
| `Scheduler.ProcessTable.PageUserProgram` | student-distrib/paging.c:85-89 | The program page of PID p is mapped to 0x80_0000 + p*0x40_0000 |
| `Scheduler.ProcessTable.SyscallExecute` | student-distrib/syscall.c:83-251 | execute, check by check, is the model's step; it returns -1 or 1, or switches |
| `Scheduler.ProcessTable.LaunchBase` | student-distrib/syscall.c:178-212 | The base-shell branch |
| `Scheduler.ProcessTable.LaunchChild` | student-distrib/syscall.c:213-248 | The branch for a process with a parent |
| `Scheduler.ProcessTable.SyscallHalt` | student-distrib/syscall.c:16-75 | halt is the model's step |
| `Scheduler.ProcessTable.ReturnToParent` | student-distrib/syscall.c:33-71 | The parent made current, the program's descriptor closed, its page mapped |
| `Scheduler.ProcessTable.Schedule` | student-distrib/scheduler.c:18-57 | The process part of a tick; the process of a started terminal gets its page at 0x80_0000 + p*0x40_0000 and its stack at 0x80_0000 - 8192*p - 1 |
| `FileSystem.StaysInTable` | student-distrib/filesystem.c:333-335 | The last entry a read that does not fail looks at is one of 0..1022 exactly when the read ends within 1023 blocks |
| `FileSystem.LooksPastTableExactly` | student-distrib/filesystem.c:333-338 | Failing reads included: a read looks at entry 1023 exactly when it ends after 1023 blocks and the 1023 entries are all good |
| `FileSystem.EntryPastTable` | student-distrib/filesystem.c:333-335 | Entry 1023, which the loop guard allows, is the length word of the next inode |
| `FileSystem.FileByteIsContent` | student-distrib/filesystem.c:335-362 | The byte a read finds is that byte of the concatenation of the data blocks |
| `FileSystem.GoodRead` | student-distrib/filesystem.c:316-372 | Inside a good file a read does not fail, delivers all it was asked for and stays in the table |
| `FileSystem.ReadIsSlice` | student-distrib/filesystem.c:316-372 | What a read delivers is the slice of the file |
| `FileSystem.Reader.LookUp` | student-distrib/filesystem.c:334-341 | With n inodes, d data blocks and entry e as stored in the image's bytes: -1 exactly when e >= d, and otherwise the block at 4096*(n + e + 1) |
| `FileSystem.Reader.CopyPiece` | student-distrib/filesystem.c:347-362 | One copy step stores bytes of the file and nothing else |
| `FileSystem.Reader.ReadBlock` | student-distrib/filesystem.c:334-362 | One round of the block loop: a bad entry, a block passed over, or a piece stored |
| `FileSystem.Reader.ReadBlocks` | student-distrib/filesystem.c:333-371 | The block loop with its skipping offset stores exactly the bytes of the file from the offset on |
| `FileSystem.Reader.ReadData` | student-distrib/filesystem.c:316-372 | -1 exactly for a bad inode or a bad entry among those visited, skipped ones included; the last entry looked at; the bytes stored and no other buffer byte changed, also on failure |
| `FileSystem.Reader.ReadSlice` | student-distrib/filesystem.c:316-372 | In a good file: length, the slice of the file, and no other byte |
| `FileSystem.Reader.FileReadNopos` | student-distrib/filesystem.c:88-102 | The start of the file, up to the count |
| `FileSystem.Reader.FileRead` | student-distrib/filesystem.c:48-75 | The next chunk and the position moved past it, min(count, what is left) bytes for a count that is not negative; on failure -1 and the position unchanged |
| `FileSystem.Reader.Cat` | syscalls/ece391cat.c:21-28 | The cat loop ends and prints the rest of the file |
| `FileReads.ZeroExactlyAtEnd` | student-distrib/filesystem.c:58-74 | 0 comes back exactly for 0 bytes asked or at the end of the file; otherwise what is left shrinks |
| `FileReads.ReadsAreConsecutive` | student-distrib/filesystem.c:48-75 | Over any interleaving of reads on several descriptors each delivers consecutive bytes, as many as were asked for on it, up to the end |
| `FileReads.ReadToTheEnd` | student-distrib/filesystem.c:48-75 | Reads from the start have delivered the whole file exactly when the next one answers 0 |
| `FileReads.OpenedFileReads` | student-distrib/syscall.c:297-340 | Open and read together: the descriptor open returns for a name of type 2 delivers the file of its inode from its first byte on, as many bytes as the counts add up to or all of it, however reads of other descriptors interleave |
| `FileSystem.CountDelivers` | student-distrib/filesystem.c:58-74 | A count of n >= 0 delivers min(n, length - position) bytes, a negative count all that is left |
| `ImageLayout.PartsWellFormed` | student-distrib/filesystem.c:201-207 | An image of a boot block holding n and d in bytes 4 to 11, n inode blocks and d data blocks has those counts |
| `ImageLayout.LengthInBytes` | student-distrib/filesystem.h:52-56 | A file's length is the first number of its inode block |
| `ImageLayout.BlockInBytes` | student-distrib/filesystem.c:332-341 | The number e after it in place j + 1 is good exactly when e < d, and then byte o of block j of the file is byte 4096*e + o of the data |
| `ImageLayout.StoredFileReadsBack` | student-distrib/filesystem.c:316-372 | Any image that stores a file in blocks of any numbers named by its inode in order reads back as the file |
| `ImageLayout.FileReadsBack` | student-distrib/filesystem.c:316-372 | Round trip: in the image laid out from any files of up to 1023 blocks and any directory entries, every inode reads back as its file |
| `ImageLayout.DirectoryReadsBack` | student-distrib/filesystem.c:201-218 | Round trip: its directory reads back as those entries, names of 32 bytes included |
| `Directory.StrNCmp` | student-distrib/lib.c:486-500 | 0 exactly for equal texts; otherwise the signed difference at the first place where they differ |
| `Directory.StrCpy` | student-distrib/lib.c:507-515 | The string with its NUL, and nothing after it |
| `Directory.StrNCpy` | student-distrib/lib.c:523-534 | At most n bytes of the text, NULs after it up to n |
| `Directory.CopyDentry` | student-distrib/filesystem.c:297-302 | strcpy and two stores leave an entry of the same name, type and inode, even when a 32-byte name runs over the type |
| `Directory.BootData.constructor` | student-distrib/filesystem.c:201-218 | The loaded directory is the directory of the image |
| `Directory.BootData.ReadDentryByName` | student-distrib/filesystem.c:262-281 | 0 and the first entry with the name, for names up to 32 bytes; otherwise -1 and nothing stored |
| `Directory.BootData.ReadDentryByIndex` | student-distrib/filesystem.c:291-303 | 0 and that entry, or -1 past the last |
| `Directory.BootData.DirectoryRead` | student-distrib/filesystem.c:158-178 | The string at that entry's name with NULs after it up to the count, the length of the name, and the next position; 0 past the last |
| `Directory.BootData.Ls` | syscalls/ece391ls.c:18-26 | Reading the directory in a loop prints the names in order, up to one that is empty |
| `Rtc.AcceptsPowersOfTwo` | student-distrib/rtc.c:165-170 | rtc_write accepts 0 and the powers of two up to 1024, and nothing else |
| `Rtc.RateInRange` | student-distrib/rtc.c:175 | The divider is 512/f, and 0 exactly for 1024 |
| `Rtc.CountAgrees` | student-distrib/x86_inter.c:49-59 | One interrupt keeps counter = ticks mod period and flag = fires not yet read |
| `Rtc.RunAgrees` | student-distrib/x86_inter.c:49-59 | Over every run from any agreeing state, each terminal's counter and flag are those of its own interrupts, settings and reads |
| `Rtc.Conservation` | student-distrib/rtc.c:107-181 | From boot, in any interleaving: counter = N mod r and flag + reads = N div r since the last open or write, and no read without a fire |
| `Rtc.OthersDoNotMatter` | student-distrib/rtc.c:107-181 | A terminal's clock is the one it would have if the other terminals did nothing |
| `Rtc.FrequencyMetExactly` | student-distrib/rtc.c:162-181 | Of the accepted nonzero frequencies exactly those up to 512 are met: n*f/512 fires after n interrupts |
| `Rtc.CalculateRate` | student-distrib/rtc.c:69-81 | For powers of two up to 32768: 32768 >> (rate - 1) is the frequency |
| `Rtc.Driver.Handler` | student-distrib/x86_inter.c:49-59 | The loop over terminals is one Interrupt |
| `Rtc.Driver.RtcOpen` | student-distrib/rtc.c:107-117 | A fire every 256 interrupts (2 Hz) and zeroed counters for the active terminal only |
| `Rtc.Driver.RtcClose` | student-distrib/rtc.c:126-136 | Rate -1 and zeroed counters for the active terminal only |
| `Rtc.Driver.RtcRead` | student-distrib/rtc.c:142-154 | One fire taken |
| `Rtc.Driver.RtcWrite` | student-distrib/rtc.c:162-181 | -1 for a rejected frequency, a division by zero for 0, otherwise a divider with divider*frequency = 512 (0 for 1024) and zeroed counters |
| `History.UpFinds` | student-distrib/kboard.c:422-433 | Up ends at a visible command exactly when there is one, and otherwise one slot back |
| `History.DownFinds` | student-distrib/kboard.c:435-447 | In a good ring Down ends on a slot within 32 looks, never at -1 |
| `History.DownNeedsTheInvariant` | student-distrib/kboard.c:441-446 | Without the invariant Down can end at -1 |
| `History.StepKeepsGood` | student-distrib/kboard.c:269-457 | Every key and read keeps both ring indices on slots, the buffer index in 0..128, and the invariant that some command is visible or the top is 0 |
| `History.SearchesStayInTheRing` | student-distrib/kboard.c:412-457 | Over every run the searches of Up and Down terminate on slots 0..31 |
| `History.DownMeetsIntentionExactly` | student-distrib/kboard.c:435-447 | Down stops at the next visible command or at the top, as meant, except past an unused top slot 31 with nothing visible before it |
| `History.DownAtTop` | student-distrib/kboard.c:412-449 | At the top Down only saves what is in the buffer as the draft |
| `Recall.TypingFills` | student-distrib/kboard.c:298-363 | Typing a line, tabs included, into an empty buffer leaves it there, and its bytes are echoed, a tab as a space |
| `Recall.RemembersExactly` | student-distrib/kboard.c:327-404 | Enter ends every line of up to 127 bytes with its newline, and remembers it exactly when it has 1 to 126: the empty and the longest line leave the ring as it was |
| `Recall.EnteredAllHolds` | student-distrib/kboard.c:327-349 | After any number of entered lines of up to 127 bytes the ring holds the last 32 of those that are remembered, command i in slot i mod 32 |
| `Recall.ArrowsRecall` | student-distrib/kboard.c:412-457 | After any lines and a draft, any presses of Up and Down, in any order, are a walk described by how many commands back one is and by the draft kept in the top slot; the buffer holds the line there |
| `Recall.NothingToRecall` | student-distrib/kboard.c:412-457 | With nothing remembered, the first Up loses the draft |
| `Recall.UpRecalls` | student-distrib/kboard.c:412-457 | j presses of Up bring back the j-th last command, for j up to 31; beyond that they go round the commands, from 32 on past the draft |
| `Recall.ArrowReplacesTheLine` | student-distrib/kboard.c:422-474 | The bytes each press of Up or Down echoes, after any others: one backspace for each byte of the line shown, then the line it leads to; nothing for Down at the top |
| `Recall.BackspaceTakesBackExactly` | student-distrib/kboard.c:269-289 | Backspace takes back the last key of a typed line exactly when that is not the tab key, of whose four bytes it leaves the first in the buffer |
| `Recall.UpLosesTheOldest` | student-distrib/kboard.c:418-433 | With 32 commands or more every 32nd press brings back the draft in place of the command 32 back, which is the same line only if it is equal |
| `Recall.UpThenDown` | student-distrib/kboard.c:412-457 | Up then Down returns to the draft's slot exactly when the number of commands is not 31; what the buffer then holds in each case |
| `Recall.ReenteringMoves` | student-distrib/kboard.c:327-349 | After any walk through the ring, entering a recalled command moves it to the top slot and hides its old one |
| `Recall.ReadReturnsTheLine` | student-distrib/terminal.c:105-159 | After a typed line of up to 127 bytes and Enter the read copies the line and its newline, cut to the count asked for, and leaves the editor empty |
| `Recall.ReadStartDropsInput` | student-distrib/terminal.c:116 | A read that starts zeroes the buffer, with one backspace echoed for each byte that was not NUL, and leaves the ring and the flag of Enter |
| `Recall.TypedAheadIsLost` | student-distrib/terminal.c:116 | A line typed before the read starts is lost, and as many backspaces as it has bytes are echoed |
| `Recall.EnteredAheadReadsNothing` | student-distrib/terminal.c:105-159 | A line typed and entered before the read starts is lost too, and the read returns no byte at once |
| `Recall.TabFitsExactly` | student-distrib/kboard.c:304-320 | A tab is typed exactly when its four bytes leave one of the first 127 free; otherwise it does nothing |
| `Recall.CharFitsExactly` | student-distrib/kboard.c:391-405 | A character is typed exactly when fewer than 127 bytes are in the buffer |
| `Recall.SecondEnter` | student-distrib/kboard.c:327-330 | A second Enter before the read changes nothing |
| `Prompt.ReplaceLine` | student-distrib/kboard.c:422-474 | On the screen, with room to erase: the backspaces and the text of one press put the other line in place of the line after the prompt |
| `Prompt.BackspaceEatsPromptExactly` | student-distrib/lib.c:216-220 | A backspace on an empty line takes the last character of the prompt exactly when terminal_x is not 0 |
| `Prompt.StaysInStep` | student-distrib/kboard.c:269-457 | Editor and screen together: from an empty line after a prompt with terminal_x at 0, over every run of characters, backspaces, Up and Down, the cells after the prompt hold the editor's line and terminal_x is its length |
| `Prompt.LineOnScreen` | student-distrib/kboard.c:269-457 | The same after boot and any printable lines |
| `Prompt.UpShowsOnScreen` | student-distrib/kboard.c:412-457 | A draft typed and j presses of Up: the cells from the prompt on hold the j-th last command, for j up to 31 |
| `Editors.OtherKeeps` | student-distrib/scheduler.c:18-83 | Ticks, switches, output and keys that are not the editor's leave every terminal its history indices, whatever is printed |
| `Editors.StepIsLocal` | student-distrib/x86_inter.c:77-176 | A key or a read steps the editor of its terminal, through the shared registers, and no other |
| `Editors.PressDraws` | student-distrib/x86_inter.c:77-176 | A key draws exactly what its editor echoes on the screen of the terminal it is for, leaves its indices in that terminal's registers, and changes no other terminal |
| `Editors.ReadingDraws` | student-distrib/terminal.c:116 | So does the clearing where a read of the active terminal starts or ends, on its screen |
| `Editors.ThreeEditors` | student-distrib/x86_inter.c:77-176 | Over any interleaving of keys, reads, switches, ticks and output, each terminal's editor is one that gets its own keys and reads alone |
| `Editors.BootIsSound` | student-distrib/scheduler.c:7-57 | From the first shell on this holds of three new editors |
| `Keyboard.LineEditor.constructor` | student-distrib/terminal.h:14-26 | Boot: an empty buffer and an empty ring |
| `Keyboard.LineEditor.ClearKeyboardBuf` | student-distrib/kboard.c:463-474 | The buffer zeroed, one backspace echoed for each byte that was not NUL |
| `Keyboard.LineEditor.SearchUp` | student-distrib/kboard.c:425-432 | The wrap-around search for Up |
| `Keyboard.LineEditor.SearchDown` | student-distrib/kboard.c:438-446 | The wrap-around search for Down |
| `Keyboard.LineEditor.TypeLine` | student-distrib/kboard.c:451-456 | The saved text typed into the buffer and echoed, up to its NUL |
| `Keyboard.LineEditor.TypeCommand` | student-distrib/kboard.c:412-457 | Up and Down as the model has them, in place |
| `Keyboard.LineEditor.BackspacePressed` | student-distrib/kboard.c:269-289 | One byte taken back, or three for a tab |
| `Keyboard.LineEditor.CheckBufferOverflow` | student-distrib/kboard.c:391-405 | A full buffer takes a newline in its last byte and nothing else |
| `Keyboard.LineEditor.AddEnter` | student-distrib/kboard.c:327-350 | The ENTER case |
| `Keyboard.LineEditor.AddTab` | student-distrib/kboard.c:304-320 | The TAB case |
| `Keyboard.LineEditor.AddToBuffer` | student-distrib/kboard.c:298-363 | add_to_buffer for a decoded key |
| `Keyboard.LineEditor.HandleKey` | student-distrib/x86_inter.c:119-171 | The handler's order: history keys, backspace, overflow check, buffer |
| `Keyboard.LineEditor.StartRead` | student-distrib/terminal.c:105-116 | Refused for any descriptor but 0 and for a null buffer; otherwise what was typed ahead is dropped |
| `Keyboard.LineEditor.FinishRead` | student-distrib/terminal.c:122-158 | The line copied out up to the count, NULs after it, the buffer cleared and the flag dropped |
| `Numerals.NumeralIsNumeral` | student-distrib/lib.c:258-288 | The numeral of v is digits below the radix with no leading zero, except "0" |
| `Numerals.NumeralValue` | student-distrib/lib.c:258-288 | Its value is v |
| `Numerals.NumeralUnique` | student-distrib/lib.c:258-288 | It is the only numeral with that value |
| `Numerals.LookupGlyph` | student-distrib/lib.c:258-262 | The digits in order are 0 to 9 and A to Z, each with its place as its value |
| `Numerals.WordLengths` | student-distrib/lib.c:110-152 | A 32-bit number has at most 32 digits, 10 in decimal, 8 in hexadecimal |
| `Numerals.DivisionBySubtraction` | student-distrib/lib.c:278-282 | The model's quotient and remainder are div and mod |
| `Numerals.LowFirstReversed` | student-distrib/lib.c:278-287 | The digits found lowest first, reversed, are the numeral |
| `Numerals.StrLen` | student-distrib/lib.c:313-318 | The place of the first NUL |
| `Numerals.StrRev` | student-distrib/lib.c:294-307 | The string reversed in place, the rest of the buffer unchanged |
| `Numerals.PutDigits` | student-distrib/lib.c:278-282 | The digit loop writes the digits lowest first |
| `Numerals.Itoa` | student-distrib/lib.c:258-288 | The numeral and a NUL at the place given, the rest of the buffer unchanged, for every radix 2..36 |
| `Numerals.LeadingZeros` | student-distrib/lib.c:110-120 | Zeros in front do not change the value |
| `Numerals.PrintHex` | student-distrib/lib.c:110-120 | %#x prints exactly 8 hexadecimal digits with the value of every 32-bit number |
| `Numerals.PrintSigned` | student-distrib/lib.c:135-149 | %d prints the decimal numeral, with a minus sign for negative numbers, -2^31 included |

## Left out

- Scheduler.ProcessTable.SyscallExecute: the argument string, saved registers and the vidmap flag of a PCB are not modelled, and whether an image is a valid executable is a set of flags of the command.
- Scheduler.ProcessTable.SyscallHalt: the status handed to the parent and the clearing of the vidmap page are not modelled.
- Scheduler.ProcessTable.ReturnToParent: neither are the parent's saved registers, through which the status reaches it.
- Scheduler.ProcessTable.SyscallOpen: opening the RTC's name also resets the terminal's clock; the clock is in `Rtc.dfy`, and the two are not combined beyond the flag that says it happened. Nothing in `syscall_close` calls a descriptor's own close.
- Console.Console.KeyboardHandler: the scancode tables and modifier keys are left out; the decoded key is any sequence of operations before and after an optional switch.
- Console.Console.TerminalWrite: the null pointer check is left out, and no tick comes between two characters; runs with ticks between any two are in `Terminals.dfy`.
- Keyboard.LineEditor.HandleKey: the key is already decoded, Ctrl+L and the Alt switches are operations of `Console.Console.KeyboardHandler`, and the bytes echoed are recorded rather than drawn; `Prompt.dfy` says what drawing them does.
- Keyboard.LineEditor.FinishRead: starts where the wait for Enter ends; `StartRead` is the part before the wait.
- Rtc.Driver.RtcRead: starts where the busy wait ends, so that the test and the decrement are one step; signed overflow of the counter is taken to wrap around.
- Rtc.Driver.RtcWrite: what the exception handler does after the division by zero is not part of this model.
- FileSystem.Reader.FileRead: assumes that the length word of the descriptor's inode is in the image and that the user's buffer is large enough; the null pointer check is left out.
- Directory.BootData.constructor: assumes at most 63 entries and a NUL within the 40 bytes of each, which every type below 2^24 gives.
- Terminals.Isolation: the only stores of programs among the events go through the vidmap page; `MallocMemory.HeapStoreExactly` says when one through a malloc region reaches a screen.
- Prompt.StaysInStep: the tab key is not among the keys, because Backspace after it leaves a byte in the buffer that is not on the screen (`Recall.BackspaceTakesBackExactly`).
- Screen.DrawElsewhere: a store outside the modelled memory, which a backspace off the screen can make, leaves that memory alone.
- Terminals.RunRefines: starts after the first tick; what the kernel does after a store where no page is present, an exception, is not part of this model.
- `syscall_read` and `syscall_write` as such, which check the descriptor and call what its operations table holds; the operations themselves are modelled.
- `syscall_free` does nothing, so freed blocks are not modelled.
- A descriptor type other than RTC, directory or file: the source leaves the new descriptor uninitialised.
- Copying of process images, the ELF header and entry point, and user page contents.
- Port I/O, the interrupt controller and timer setup, segment and interrupt tables, TLB contents, and assembly.
- The present bit of the vidmap page, which `syscall_halt` clears by looking at active processes only.
- Exception printing, signal stubs and the user programs other than the loops of cat and ls.
