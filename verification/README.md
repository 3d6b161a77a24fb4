# bozOS in Dafny

A model of the parts of bozOS (a small IA-32 kernel with three virtual terminals, plus its user
programs) that are state machines or loops with hard invariants, and proofs about them. Dafny 4.11 checks
the whole project with `dafny verify dfyconfig.toml`.

| files | what they model |
|---|---|
| `Layout`, `Descriptors` | address constants and the slot layout; file descriptors |
| `ProcessSpec` | six process slots shared by three terminals, as a value: execute, halt, task_switch, and runs of them |
| `ProcessForest` | the invariant of those runs: chains, slots in use, address space |
| `ProcessStart` | the outcomes of execute, and what a started process starts with |
| `ProcessRuns` | saved contexts, execute/halt bracketing, the scheduler's rotation |
| `Kernel` | the same system in the kernel's own form: linked control blocks, usage table, chain heads, page entry, esp0 |
| `Screen`, `Canvas` | one screen as a value, and the unbounded wrapped canvas it is a window of |
| `Line`, `World`, `Typing` | key buffers and echo; three terminals together; the line discipline |
| `Session` | a whole terminal session: what the screen shows of prints, edited lines, Enter and CTRL+L |
| `Interference` | runs from start-up in which one terminal gets in the way of another |
| `Terminals` | the same terminals in the kernel's own form: one video memory, back buffers, key buffers, release flags |
| `FileSystem`, `Reads`, `Cat` | block-mapped reads, descriptors and chunked reading, and cat from file to screen |
| `GrepSpec`, `GrepPass`, `Grep` | the line-by-line meaning of grep, one pass over its 1024-byte window, and the loop around it |
| `GrepPadding`, `GrepKernel` | grep over this kernel's padded reads, from file to output |
| `BlinkSpec`, `Blink` | the blink list as a value, and as a pool of linked nodes |
| `Memory`, `Itoa` | memcpy and memset by words; number printing |

Where the C or assembly code updates state in place there is a class or an array method, proved to do
what a function on values says; the properties are then proved about that function, for all inputs or
all runs.

## Hypotheses

- Each interrupt handler and each system call is one atomic step. `execute` and `halt` disable
  interrupts; for the others this is an assumption.
- PCB memory holds null children at boot. `execute` never clears `child_pcb`, so everything about the
  chains rests on free slots keeping a null child; this is part of what every method of
  `Kernel.ProcessTable` keeps.
- `shell` exists and loads. Another file handed to `execute` may be missing, unreadable or fine. An
  image whose `read_data` fails (`student-distrib/syscalls.c:209`) is found out after its slot was
  taken: `LeakBreaksAgreement` says exactly when that happens and what it breaks.
- A process slot is free when a tick enters an empty terminal. Otherwise the scheduler stops there for
  good (`TickIntoEmpty`, `StallIsForever`). The interrupted process then runs on while the active
  terminal has no process; if it calls `halt`, the kernel reads the pid of its control block through a
  null pointer (`student-distrib/syscalls.c:42-45`). That call is not a step of the model.
- The saved ESP/EBP pairs are opaque values that are stored and loaded.
- For grep: no NUL in text or pattern, and lines under 1024 bytes. `DoOneFile` reads from a reader that
  fills each request or reaches the end of the file, `GrepFile` from this kernel's `fread`.
- For cat and for grep over `fread`: a text file without NULs whose last block is zero behind its length,
  and an inode number below 256.

## Where the code does not do what one would expect

- **Leaked slot.** A program image that cannot be loaded leaves its slot taken and the page entry
  pointing at it. Once a process runs, the invariant holds all along a run exactly when no step of it does
  that (`LeakBreaksAgreement`, `RunKeepsInvIff`).
- **Echo behind the screen.** `add_char_to_buf` writes at `80*y + x + length` without a bound. All
  sequences of edit keys on an empty line stay on the screen exactly when the cursor row is at most 22
  or the column at most 33 (`TypingIsSafeIffRoom`). From cell 2048 on the echo lands in the first 78
  cells of the first terminal's back buffer (`SpillBound`); `KeyIsLocalIff` says exactly when that shows.
  The other two terminals are never interfered with (`UpperTerminalsAreTheirOwn`), the first one only in
  its cells (`OnlyCellsAreSpilled`). All along a run it is its own exactly when nothing of a spill is to be
  seen (`OwnAlongIff`). That is so whenever programs on the other two terminals print between lines only
  (`LinesNeverSpill`): a line that starts in the last row scrolls up before its echo gets that far. When a
  program prints in mid-line, the next key can spill (`SpillHappens`).
- **Enter on a long line.** Enter breaks the line once or twice. A line that reaches its third row would need
  three breaks: the cursor stays on its last row, and what is printed next overwrites it. For every line with
  a visible character, the screen shows the canvas of the transcript after Enter exactly when the line ends
  before its third row (`EnterDisplaysIff`). After a line that ends in column 78 of the last row, Enter
  scrolls once too often and leaves a blank row at the bottom (`EnterShowsIff`). Lines that start in the first
  33 columns are never too long: then whole sessions are shown as they should be (`SessionShowsTranscript`,
  `TidySessionsAreOrderly`).
- **One line for all readers.** The intermediate buffer is shared by the three terminals. A reader gets the
  line entered last, wherever it was typed (`ReaderGetsLastLine`); in `LineIsReadElsewhere` terminal 0 reads
  what was typed on terminal 1.
- **read_data counts.** Short reads near the end can run past the length, up to the end of the last
  block. `offset + length` is compared as a signed 32-bit number, so a huge request can look small
  (`HugeRequestRunsOver`). The count is the ideal one exactly in three cases (`CountIsIdealIff`). The
  guards let the inode and block numbers one past the counts through; that is in the model.
- **Inode numbers.** `fread` keeps eight bits of the inode number: a descriptor reads its own file exactly
  when the number is below 256 (`InodeIsOwnIff`).
- **grep's pattern and its first window.** The first pattern byte is compared as a signed char, so one of
  128 or more never matches: a match is containment for every line exactly when the pattern starts with an
  ASCII byte (`HitIsContainsIff`). The byte behind the window is never set; if it happens to be a newline,
  the first line that reaches it is searched in two pieces. For each pattern, grep is right for all texts
  exactly when neither is the case (`GrepIsMatchingIff`), and `DoOneFile` gives the exact output in all.
- **grep over padded reads.** When `fread` pads the last read, the unfinished last line is searched once
  more together with bytes that earlier lines left behind it, and is printed when the pattern is found
  there. `GrepFile` gives the exact output, `KernelGrepIsMatchingIff` says when it is right, and
  `FalseHitHappens` is a file for which it is not.
- **memcpy.** Reading and writing words, it is byte-by-byte copying exactly unless dest lies one to
  three bytes above src and at least one word is moved (`MemcpyIsByteCopyIff`).
- **Blink location 0.** It is accepted, but such a node still looks free. A call or a run keeps the list
  well formed exactly when it adds nothing there (`StepKeepsProperIff`, `RunKeepsProperIff`, `Add`);
  after such an add, the next one on the screen makes its node its own successor (`AddAfterZeroLoops`). Lengths of 0 and above 32768 last a single
  tick.

## Model

| member | source | states |
|---|---|---|
| Layout.SlotsNeverOverlap | student-distrib/multi_term.c:240-247 | the 4 MiB frames, 8 KiB stack regions, page entries and stack pointers of two different slots never overlap, and a stack lies above its own control block |
| ProcessSpec.FirstFree | student-distrib/multi_term.c:203-208 | the result is the lowest free slot, and there is none only when every slot is in use |
| ProcessForest.BootIsSound | student-distrib/multi_term.c:23-32 | the state multi_term_init leaves satisfies the whole invariant, whatever PCB memory holds |
| ProcessForest.OnePlace | student-distrib/multi_term.c:180-230 | in a forest no slot stands at two positions, in one chain or in two, and every slot on a chain is in use |
| ProcessForest.GiveBackKeepsForest | student-distrib/syscalls.c:39-59 | leaving a chain and clearing the usage entry named by the pid keeps the forest, and frees just the caller's slot |
| ProcessForest.StepKeepsForest | student-distrib/syscalls.c:187-227 | every execute, halt, tick and descriptor edit that does not leak a slot keeps chains free of repetition, disjoint, and equal to the slots in use, with pids matching slots |
| ProcessForest.RunKeepsForest | student-distrib/multi_term.c:180-230 | the same after every run without a leaked slot |
| ProcessForest.StepKeepsInv | student-distrib/scheduling.c:79-80 | every such step also keeps page and stack of each process those of its slot, and the user page entry and esp0 those of the running process |
| ProcessForest.LeakBreaksAgreement | student-distrib/syscalls.c:187-215 | while a process runs, a step keeps the address space in agreement with it if and only if it does not leak a slot |
| ProcessForest.RunKeepsInv | student-distrib/syscalls.c:62-87 | the whole invariant after every run without a leaked slot |
| ProcessForest.RunsFromBootAreSafe | student-distrib/syscalls.c:187-215 | from boot, after any run, the invariant holds and two processes in use share neither user memory nor kernel stack |
| ProcessForest.AllocationFailsOnlyWhenFull | student-distrib/multi_term.c:201-209 | the three chains hold at most six processes, and allocation fails if and only if they hold six |
| ProcessStart.ExecuteOutcomes | student-distrib/syscalls.c:187-295 | each of the four outcomes has its exact condition and changes nothing else: a started process sits in the lowest free slot at the end of the chain, with page, stack, pid and contexts of its own, stdin at descriptor 0, stdout at 1 and nothing else open, whatever its block held before |
| ProcessStart.HaltStartsShell | student-distrib/syscalls.c:44-53 | a base shell that halts is replaced by a process started in this way, alone on the terminal, in its own slot or a lower one |
| ProcessStart.TickStartsShell | student-distrib/scheduling.c:60-74 | so is the shell that a tick starts on an empty terminal when a slot is free |
| ProcessStart.RunKeepsStdio | student-distrib/syscalls.c:221-266 | over every run from boot without a leaked slot, until files are opened or closed, every process has stdin and stdout and nothing else |
| ProcessStart.HaltClosesFiles | student-distrib/syscalls.c:75-83 | the block a halt leaves has no descriptor in use; its unused entries stay as they were |
| ProcessRuns.SuspendedTailIsKept | student-distrib/multi_term.c:201-230 | while a terminal is not the active one, no run changes its chain or its tail's control block |
| ProcessRuns.ContextIsPreserved | student-distrib/scheduling.c:43-108 | the ESP/EBP a tick loads for a terminal are those saved when it was last switched out, whatever ran in between |
| ProcessRuns.RunKeepsAncestors | student-distrib/syscalls.c:187-227 | while a chain stays longer than some depth, the processes below that depth keep their places and their whole control blocks |
| ProcessRuns.HaltReturns | student-distrib/syscalls.c:55-97 | a halt with a parent drops just the last process, leaves the blocks below untouched, and loads the parent's page and stack and the context of the execute call |
| ProcessRuns.ExecuteExtends | student-distrib/syscalls.c:187-235 | a successful execute adds one process behind the chain and leaves the blocks on it alone |
| ProcessRuns.ExecuteHaltBracket | student-distrib/syscalls.c:47-97 | from an execute to its matching halt, over any run in between, the chain, every block on it, the page entry, esp0 and the context of the call come back |
| ProcessRuns.StepKeepsOccupied | student-distrib/syscalls.c:48-53 | no step empties a terminal: a base shell that halts is replaced |
| ProcessRuns.RunKeepsOccupied | student-distrib/syscalls.c:48-53 | no run empties a terminal |
| ProcessRuns.TurnsFollowRotation | student-distrib/scheduling.c:43-58 | with three live terminals, the turns each gets in a run are those of plain rotation over the ticks in it |
| ProcessRuns.SchedulerIsFair | student-distrib/scheduling.c:43-74 | any run with 3k ticks makes each terminal active exactly k times, and all three stay alive |
| ProcessRuns.TickStaysLive | student-distrib/scheduling.c:47-74 | a tick leads to a live terminal if and only if the next one has a process or a slot is free |
| ProcessRuns.RunKeepsInvIff | student-distrib/syscalls.c:187-215 | once a process runs, the whole invariant holds at every point of a run if and only if no step of the run leaks a slot |
| ProcessRuns.StallIsForever | student-distrib/scheduling.c:52-55 | on an empty terminal with a full table, no run of ticks and calls changes anything any more |
| ProcessRuns.TickIntoEmpty | student-distrib/scheduling.c:60-74 | a tick into an empty terminal, and any calls after it, populate that terminal if and only if a slot was free, and touch no other chain |
| ProcessRuns.StartUp | student-distrib/scheduling.c:43-74 | two ticks after the first shell all three terminals are alive if and only if each tick found a free slot |
| ProcessRuns.FirstShell | student-distrib/kernel.c:176-180 | from boot, the first shell is alone on terminal 0 until the first tick |
| Kernel.ProcessTable.constructor | student-distrib/multi_term.c:23-36 | six blocks with null children represent the boot state |
| Kernel.InitFds | student-distrib/syscalls.c:221-266 | afterwards descriptor 0 is stdin, 1 is stdout, both in use at position 0, and the other six are closed |
| Kernel.ReleaseAll | student-distrib/syscalls.c:75-83 | afterwards no descriptor is in use, and those that were not stay as they were |
| Kernel.FindParent | student-distrib/syscalls.c:55-58 | the walk along child links ends at the last block but one |
| Kernel.ProcessTable.GetPcbTail | student-distrib/multi_term.c:180-190 | the walk terminates at the last block of the terminal's chain; null exactly for an empty chain or a number beyond the terminals |
| Kernel.ProcessTable.FindFree | student-distrib/multi_term.c:203-209 | the scan finds the lowest slot that no chain holds, or none |
| Kernel.ProcessTable.Append | student-distrib/multi_term.c:210-230 | linking a block in represents the longer chain; all other links and blocks stay |
| Kernel.ProcessTable.AddPcb | student-distrib/multi_term.c:201-230 | add_PCB puts the lowest free slot at the end of the chain, or changes nothing when there is none |
| Kernel.ProcessTable.Execute | student-distrib/syscalls.c:187-295 | execute on the linked form does to the value what ProcessSpec.Execute says, in all four outcomes; a started process is as ExecuteOutcomes says, descriptors included |
| Kernel.ProcessTable.FindSelf | student-distrib/syscalls.c:39-58 | the caller of halt is the last block, and its parent is found exactly when it has one |
| Kernel.ProcessTable.GiveBackSlot | student-distrib/syscalls.c:44-59 | after the writes of halt the links represent the chain without its last process, and the free slots have null children again |
| Kernel.ProcessTable.Halt | student-distrib/syscalls.c:27-97 | halt on the linked form does to the value what ProcessSpec.Halt says |
| Kernel.ProcessTable.TaskSwitch | student-distrib/scheduling.c:43-108 | task_switch on the linked form does to the value what ProcessSpec.Tick says |
| Screen.PutAllAppends | student-distrib/lib.c:155-160 | printing two texts one after the other is printing their concatenation |
| Canvas.WrapExtend | student-distrib/lib.c:168-201 | one more character on a line extends only its last row, and opens a new one exactly when that is full |
| Canvas.RowsExtend | student-distrib/lib.c:168-201 | one more character, line breaks included, extends only the last row of the canvas |
| Canvas.PutcExtends | student-distrib/lib.c:168-201 | if a screen is the window on a canvas, after putc it is the window on the canvas with one more character, scrolling included |
| Canvas.ScreenShowsCanvas | student-distrib/lib.c:588-601 | from a cleared screen, after any text, the screen is the window of the last 25 rows of the wrapped canvas and the cursor is where the next character goes |
| Line.FirstNewline | student-distrib/keyboard.c:420-431 | the first newline below a limit, or the limit |
| World.StepIsLocal | student-distrib/lib.c:632-643 | an event changes the terminal it is aimed at as replay says, and no other; only the cells of the first terminal can differ, and they do if and only if a spill from behind is to be seen in them |
| World.NonInterference | student-distrib/multi_term.c:73-115 | after any interleaving, a terminal's screen, cursor, key buffer and flag are what the events aimed at it alone produce; for the first terminal, if nothing is to be seen of spills into its buffer |
| World.OwnAlongIff | student-distrib/keyboard.c:302-326 | at every step of a run a terminal is what the event aimed at it makes of it, if and only if it is not the first terminal or nothing is to be seen of spills along the run |
| Interference.SpillHappens | student-distrib/keyboard.c:319-322 | a run from start-up (49 keys, then the process moves the cursor to the last cell) after which the next key changes the first cell of the first terminal's buffer |
| World.UpperTerminalsAreTheirOwn | student-distrib/multi_term.c:73-115 | for the other two terminals this holds of every run |
| World.OnlyCellsAreSpilled | student-distrib/keyboard.c:302-326 | in every run, every terminal's cursor, key buffer and flag are its own, whatever spills |
| World.FocusAfterRun | student-distrib/multi_term.c:73-115 | after a run the foreground terminal is the target of the last valid switch, and the active task that of the last dispatch |
| World.SpillBound | student-distrib/keyboard.c:319-322 | a spill reaches the first 78 cells of the first terminal's buffer at most |
| World.KeyIsLocalIff | student-distrib/keyboard.c:302-361 | a key leaves every other terminal alone if and only if it does not spill behind the screen, or the one cell it would reach already looks like its echo |
| World.KeyBehindScreen | student-distrib/keyboard.c:319-358 | for a key on another terminal: the one cell of the first terminal's buffer it writes or blanks, counted from cell 2048, and no other changes |
| World.OutputShowsCanvas | student-distrib/lib.c:168-201 | a terminal that starts cleared and only receives output shows the window on its own canvas, whatever is in the foreground meanwhile (the first one, if nothing is to be seen of spills into its buffer) |
| World.ShownAll | student-distrib/terminal.c:100-105 | without a NUL, or for other files, terminal_write prints the whole buffer |
| World.ShownToNul | student-distrib/terminal.c:100-105 | for a text file it prints up to and including the first NUL |
| Typing.KeyKeepsEcho | student-distrib/keyboard.c:302-361 | on a line that started with room, an edit key keeps every typed character at its cell, through the bottom-right scroll too, and writes on the screen only |
| Typing.EchoAgrees | student-distrib/keyboard.c:302-361 | the same after any sequence of edit keys |
| Typing.TypingIsSafeIffRoom | student-distrib/keyboard.c:302-361 | all sequences of edit keys on an empty line stay on the screen if and only if the cursor row is at most 22 or its column at most 33 |
| Typing.EchoAgreesAmongOthers | student-distrib/keyboard.c:302-361 | the echo agrees with the buffer whatever the other terminals do meanwhile (on the first one, if nothing is to be seen of spills into its buffer) |
| Typing.LinesNeverSpill | student-distrib/keyboard.c:302-361 | if programs on the other two terminals print between lines only, nothing is ever spilled into the first terminal's buffer, wherever lines start |
| Typing.LinesKeepTerminalsApart | student-distrib/multi_term.c:73-115 | then every terminal, the first included, shows what the events aimed at it alone produce |
| Typing.LineIsEdited | student-distrib/keyboard.c:302-361 | through terminal switches and any activity, a terminal's buffer holds its own edited line |
| Typing.EnterHandsOver | student-distrib/keyboard.c:420-431 | Enter puts the line and its newline at the front of the intermediate buffer, empties the key buffer and releases the reader; the rest of both buffers stays |
| Typing.FullLineHandsOver | student-distrib/keyboard.c:420-431 | a line of 127 characters is handed over whole, without a newline, and the key buffer empties |
| Typing.ReaderWaitsForEnter | student-distrib/terminal.c:55 | a terminal's reader may go on if and only if Enter was pressed there since its last read |
| Typing.ReaderGetsLastLine | student-distrib/keyboard.c:420-431 | whichever terminal's reader goes on first gets the line entered last, wherever it was typed |
| Interference.LineIsReadElsewhere | student-distrib/keyboard.c:420-431 | a run from start-up after which terminal 0's reader gets a line typed on terminal 1 |
| Typing.LineWaits | student-distrib/terminal.c:54-63 | until the next Enter or read, the handed-over line and the flag stay |
| Typing.ReadReturnsLine | student-distrib/terminal.c:43-75 | a request above the line's length returns the line and its newline, reports the line's length, puts a newline in the last byte asked for, and changes no other byte of the reader's buffer |
| Typing.ReadCutsLine | student-distrib/terminal.c:52-62 | a shorter request of n bytes returns the first n - 1 characters of the line and a newline, and reports n |
| Typing.RestMovesUp | student-distrib/terminal.c:64-73 | what is left of the intermediate buffer after a read: the characters behind the point where it stopped, at the front |
| Typing.TypedLineRoundTrip | student-distrib/keyboard.c:196-212 | a line of at most 126 characters, typed with any edits and switches, then Enter, reaches the next terminal_read intact, and the key buffer is empty |
| Session.BackspaceErases | student-distrib/keyboard.c:347-361 | backspace blanks the cell of the last typed character, keeps its colour, and changes no other cell and not the cursor |
| Session.CharAppears | student-distrib/keyboard.c:302-331 | a character appears behind the line and no other cell changes; in column 79 of the last row everything moves up one row, the start of the line included |
| Session.EnterBreaks | student-distrib/keyboard.c:302-336 | Enter does to the screen what printing one line break does, or two for a line of 80 columns or more, full buffers included; after column 78 of the last row one more scroll, with the cursor moved up |
| Session.EditKeepsEcho | student-distrib/keyboard.c:302-361 | through every edit key that echoes on the screen, the screen shows the canvas with the typed line wrapped behind it and blanks behind that: no deleted character stays |
| Session.EnterDisplays | student-distrib/keyboard.c:302-336 | after Enter on a line that ends before its third row, the screen shows the canvas with the line and a line break |
| Session.EnterDisplaysIff | student-distrib/keyboard.c:302-336 | for every line with a visible character, if and only if it ends before its third row |
| Session.EnterShowsIff | student-distrib/keyboard.c:327-330 | the window is then the last 25 rows exactly unless the line ended in column 78 of the last row |
| Session.WipeClears | student-distrib/lib.c:12-23 | CTRL+L blanks all 2000 cells in the terminal's colour, puts the cursor in the corner and empties the line |
| Session.SessionOnPage | student-distrib/keyboard.c:302-361 | after any sequence of prints, edit keys, Enters, CTRL+L and reads with its stated conditions, the terminal shows the transcript since the last CTRL+L and the line being typed |
| Session.SessionShowsTranscript | student-distrib/multi_term.c:73-115 | the same in every run of the three terminals (on the first one, if nothing is to be seen of spills into its buffer) |
| Session.BootOnPage | student-distrib/multi_term.c:33-64 | at start-up every terminal shows the empty page, in its own colour |
| Session.TidySessionsAreOrderly | student-distrib/keyboard.c:302-361 | the conditions hold whenever programs print between lines and lines start in the first 33 columns |
| Session.OutputAfterWipe | student-distrib/keyboard.c:245-248 | whatever happened before, after CTRL+L the screen shows the canvas of what is printed from then on |
| Terminals.Scroll | student-distrib/lib.c:588-601 | in place, every row moves up by one and the last is blanked |
| Terminals.PutChar | student-distrib/lib.c:168-201 | putc on memory and cursor fields does what Screen.Putc says |
| Terminals.AddCharTo | student-distrib/keyboard.c:302-334 | add_char_to_buf on the arrays does what Line.AddChar says, and to the memory behind the video page what World.Behind says |
| Terminals.DelCharFrom | student-distrib/keyboard.c:347-361 | the same for backspace |
| Terminals.HandOverBuffer | student-distrib/keyboard.c:420-431 | up to and including the newline the key buffer moves to the intermediate buffer and becomes NUL; the rest of both stays |
| Terminals.TakeLine | student-distrib/terminal.c:51-74 | terminal_read's loops deliver the line, count it, and close up the intermediate buffer |
| Terminals.Terminals.constructor | student-distrib/multi_term.c:33-64 | after start-up the three logical terminals are cleared, empty and unreleased |
| Terminals.Terminals.PutOut | student-distrib/lib.c:632-643 | putc of the active process changes its own logical terminal only, in video memory or in the back buffer |
| Terminals.Terminals.TerminalWrite | student-distrib/terminal.c:87-107 | the active process's terminal receives exactly what World.Shown says, and the count matches; -1 and no change without a buffer or for a negative count |
| Terminals.Terminals.ClearScreen | student-distrib/keyboard.c:245-248 | CTRL+L clears the foreground terminal and empties its line, and no other |
| Terminals.Terminals.SwitchTerminal | student-distrib/multi_term.c:73-115 | switching leaves all three logical screens, cursors and key buffers as they are |
| Terminals.Terminals.TerminalRead | student-distrib/terminal.c:43-75 | the reader's buffer, the count, the intermediate buffer and the flag are as Line and World say, and no screen or key buffer changes; -1 and no change without a buffer or for a negative count |
| Terminals.Terminals.HandleKey | student-distrib/keyboard.c:196-212 | a key does to the three logical terminals what World.Step says, spill included |
| FileSystem.FlatSlice | student-distrib/filesystem.c:222-234 | a piece of block i is the piece of the flat file at 4096*i |
| FileSystem.BadBlockIff | student-distrib/filesystem.c:226-232 | a request meets a bad block if and only if the byte at its offset, or another byte of it, lies in a block whose number is beyond the count |
| FileSystem.CopyBlocks | student-distrib/filesystem.c:222-240 | the block loop delivers one contiguous piece of the flat file and leaves the rest of the buffer; -1 exactly when the piece goes through a block number beyond the image |
| FileSystem.ReadData | student-distrib/filesystem.c:201-241 | read_data returns the slice of the flat file at offset, or -1 exactly for the requests it turns down or that meet a bad block |
| Reads.CountCases | student-distrib/filesystem.c:212-220 | for every offset within the file and 32-bit size, the count is the rest of the file, the request or, when the signed sum wraps, as much as the blocks hold |
| Reads.CountIsIdealIff | student-distrib/filesystem.c:212-220 | for every 32-bit size, the count is min(size, length - offset) if and only if offset is 0, or the request ends within the file, or the signed sum passes the last block |
| Reads.HugeRequestRunsOver | student-distrib/filesystem.c:218-220 | a request past the last block whose signed sum wraps: 100 bytes are counted where 95 are left |
| Reads.CountMakesProgress | student-distrib/filesystem.c:226-239 | below the end a read delivers at least one byte and at most what was asked for |
| Reads.FRead | student-distrib/filesystem.c:57-70 | fread delivers the piece at the descriptor's position, advances that descriptor by its length and no other; negative counts and inode numbers beyond the image included |
| Reads.ReadStatus | student-distrib/filesystem.c:57-70 | fread returns 0 exactly from the end of the file on, and -1 exactly for an inode beyond the image, an empty request or a bad block; then the descriptor stays, else only its position moves |
| Reads.InodeIsOwnIff | student-distrib/filesystem.c:60-65 | in all images, at all positions and for all sizes a descriptor reads the file of its own inode number, if and only if that number is below 256 |
| Reads.ReadOfFile | student-distrib/filesystem.c:57-70 | on a file, fread returns 0 exactly from the end on, and otherwise the next non-empty piece of the contents |
| Reads.ChunksAreGapFree | student-distrib/filesystem.c:57-70 | one descriptor's reads, in any sizes and between any other reads, put end to end are a gap-free piece of the contents; until the end each that asks for something brings at least a byte |
| Reads.WholeFileArrives | student-distrib/filesystem.c:57-70 | after as many reads as the file has bytes, all of the file has arrived and the next fread returns 0 |
| Reads.PositionFollowsStream | student-distrib/filesystem.c:67 | a descriptor's position is where its stream ends |
| Reads.SingleBytesStopAtTheEnd | student-distrib/filesystem.c:57-70 | byte by byte, exactly the file arrives and nothing behind it |
| Cat.RoundCount | syscalls/ece391cat.c:21 | from each stop below the end, cat's read delivers everything up to the next stop |
| Cat.RoundText | syscalls/ece391cat.c:26 | what terminal_write shows of each piece extends the text printed so far, by one NUL at most at the end |
| Cat.CatFile | syscalls/ece391cat.c:21-30 | for a text file of any length cat prints exactly its bytes and at most one NUL, then stops with status 0 |
| GrepSpec.LineEnd | syscalls/ece391grep.c:30-32 | the first newline, or the end of the text |
| GrepSpec.StaleNewlineLosesALine | syscalls/ece391grep.c:33-39 | a text whose only matching line is lost when a newline lies behind the window |
| GrepSpec.HitIsContainsIff | syscalls/ece391grep.c:43-44 | what the search takes for a match is containment, for every line, if and only if the pattern starts with an ASCII byte |
| GrepSpec.SearchIsMatching | syscalls/ece391grep.c:42-51 | then the report of every line is the list of matching lines |
| GrepSpec.GrepIsMatchingIff | syscalls/ece391grep.c:20-60 | for every pattern a line can contain, grep prints exactly the matching lines of every admissible text if and only if the pattern starts with an ASCII byte and no newline lies behind the window |
| GrepPass.LineReported | syscalls/ece391grep.c:40-51 | one line is reported exactly if it is a hit, and what remains to be printed is what remains of the text |
| GrepPass.LineKept | syscalls/ece391grep.c:33-39 | the unfinished line moves to the front and the window is again the text before the read position |
| GrepPass.PassOverText | syscalls/ece391grep.c:28-57 | a pass over a window of text prints the reports of the whole lines in it and keeps the unfinished one |
| Grep.CopyDown | syscalls/ece391support.c:14-17 | the overlapping strcpy moves everything up to the next NUL to the front and leaves the bytes behind it |
| Grep.Strncmp | syscalls/ece391support.c:35-46 | zero exactly when the pattern stands at the position |
| Grep.SearchLine | syscalls/ece391grep.c:42-44 | true exactly for a hit: for a pattern that starts with an ASCII byte, exactly when the bytes contain it |
| Grep.DrainWindow | syscalls/ece391grep.c:28-57 | the inner loop in place does to the window's bytes, whatever they are, what GrepPass.PassFrom says |
| Grep.DoOneFile | syscalls/ece391grep.c:20-60 | do_one_file terminates and, for a pattern that starts with an ASCII byte and no newline behind the window, prints exactly the lines that contain the pattern, once each and in order; its exact output otherwise |
| GrepPadding.PassOverPadding | syscalls/ece391grep.c:28-57 | a pass over a padded window reports the whole lines and leaves the unfinished one together with exactly these bytes of earlier lines |
| GrepPadding.PassOverLeftover | syscalls/ece391grep.c:40-55 | the pass after the last read searches those bytes and prints the unfinished line on a hit |
| GrepPadding.KernelGrepIsMatchingIff | syscalls/ece391grep.c:20-60 | over padded reads grep prints exactly the matching lines if and only if the text, the pattern and the window make no false hit |
| GrepPadding.FalseHitHappens | syscalls/ece391grep.c:33-51 | a text of short lines for which they do |
| GrepKernel.ReadForWindow | student-distrib/filesystem.c:57-70 | fread for the rest of the window fills it, reaches the end of the text, or pads it, as the last block decides |
| GrepKernel.GrepFile | syscalls/ece391grep.c:20-60 | on a text file read through fread, do_one_file prints its output on the text and, after a false hit, the last line; for an ASCII pattern and no newline behind the window these are exactly the matching lines if and only if there is no false hit |
| BlinkSpec.StepKeepsProperIff | fish/blink.S:105-300 | a call keeps slots distinct and locations on the screen and not zero if and only if it is not an add at location 0 that finds a node |
| BlinkSpec.RunKeepsProperIff | fish/blink.S:105-300 | a run keeps them so all along if and only if none of its calls is one |
| BlinkSpec.AddStores | fish/blink.S:105-184 | an add puts the caller's location, characters and lengths in front, switched on for a whole on-length, and leaves the rest of the list alone |
| BlinkSpec.SyncCopies | fish/blink.S:267-275 | a sync gives the target the source's two lengths, countdown and status; its location and characters, and every other item, stay |
| BlinkSpec.PhaseAfter | fish/blink.S:49-99 | after n ticks an item is n modulo its period into its period |
| BlinkSpec.OnAfter | fish/blink.S:49-99 | n ticks after its add an item is on if and only if n modulo (on + off) is below its on-length |
| BlinkSpec.UndisturbedItemTicks | fish/blink.S:49-99 | through any run that neither removes nor re-synchronises it, an item just ticks |
| BlinkSpec.BlinksPeriodically | fish/blink.S:49-99 | in any such run an added item is on exactly as its own timer says |
| BlinkSpec.SyncedItemsStayInStep | fish/blink.S:240-300 | two synchronised items have the source's lengths and equal countdown and status until one is removed or synchronised again |
| Blink.BlinkList.Malloc | fish/fish.c:160-170 | the lowest node with location 0, or none when all are taken |
| Blink.BlinkList.OnListIffLocated | fish/fish.c:160-175 | the list holds exactly the pool nodes with a location |
| Blink.BlinkList.AddNode | fish/blink.S:105-184 | the new node is the head and started, and nothing else is written; -1 exactly for a location off the screen or a full pool |
| Blink.BlinkList.AddAfterZeroLoops | fish/blink.S:105-184 | after an add at location 0 that found a node, an add at any location on the screen leaves a list whose head is its own successor |
| Blink.BlinkList.Add | fish/blink.S:105-184 | the nodes store a list afterwards, the one with a started item in front, if and only if no node was taken for location 0; then the new head still looks free |
| Blink.BlinkList.FindNode | fish/blink.S:351-379 | the first node at a location, or none |
| Blink.BlinkList.FindLink | fish/blink.S:200-215 | the search for the link that points to a node terminates and finds it |
| Blink.BlinkList.Remove | fish/blink.S:187-237 | the nodes store the list without the first item at the location, and the node is free again |
| Blink.BlinkList.Sync | fish/blink.S:240-300 | the timing fields of the first item at one location become those of the other's, and nothing else changes |
| Blink.BlinkList.Tasklet | fish/blink.S:49-99 | every item on the list ticks once, and no link changes |
| Memory.Memcpy | student-distrib/lib.c:360-397 | memcpy's head, words and tail do what Memory.Copied says |
| Memory.WordsAreBytes | student-distrib/lib.c:376-384 | copying words is copying bytes, unless dest lies one to three bytes above src |
| Memory.CopiedByteByByte | student-distrib/lib.c:360-397 | outside the smearing regions memcpy is byte-by-byte copying for every memory |
| Memory.SmearingCopyDiffers | student-distrib/lib.c:360-397 | for every pair of smearing regions, a memory on which it is not |
| Memory.MemcpyIsByteCopyIff | student-distrib/lib.c:360-397 | memcpy is byte-by-byte copying for every memory if and only if its regions do not smear |
| Memory.MemcpyMoves | student-distrib/lib.c:593 | for disjoint regions, or dest at or below src, the bytes arrive as they were and nothing else changes |
| Memory.Memset | student-distrib/lib.c:277-311 | every byte of the region, and no other, becomes the low byte of the value, for every alignment and length |
| Itoa.StrRev | student-distrib/lib.c:245-258 | the string is reversed in place and nothing else is written |
| Itoa.Itoa | student-distrib/lib.c:209-238 | the buffer holds the text of the value and its NUL, and nothing else is written |
| Itoa.ItoaRoundTrip | student-distrib/lib.c:209-238 | for every value and radix 2 to 36 the digits are below the radix, have no leading zero but in "0", and evaluate to the value |
| Itoa.NumeralIsText | syscalls/ece391support.c:49-80 | every such string of digits is the one itoa writes for its value |
| Itoa.LengthBound | student-distrib/lib.c:229-234 | n digits suffice if and only if the value is below the n-th power of the radix |
| Itoa.PrintHex | student-distrib/lib.c:82-91 | the %#x form of a 32-bit word has exactly eight digits and evaluates to it |

## Left out

- Kernel.ProcessTable.Execute: argument parsing, the ELF check and the copy of the image are represented by three kinds of program (missing, corrupt, runnable); the argument buffer and the text-file flag of descriptors are not part of the state.
- Kernel.ProcessTable.Halt: the status value handed to the parent is not modelled. Blocks in use have to carry their slot's pid, which every run without a leaked slot keeps.
- Kernel.ProcessTable.GiveBackSlot: the same condition on pids.
- Kernel.ProcessTable.UnsetUsage: a pid of 6 would write behind the table; the model leaves the table alone, and no block in use carries such a pid.
- Layout.PageEntry: the flag bits are added instead of or-ed, which is the same for aligned frames.
- ProcessSpec.EditFds: open, close and the position kept by read appear in process runs as an arbitrary edit of the caller's descriptor array; their dispatch tables and argument checks are left out.
- Terminals.Terminals.TerminalRead: requests of zero bytes, and a full buffer of 127 characters without a newline, index outside the buffers in the original and are excluded; the wait for Enter is the condition that the flag is set.
- Terminals.Scroll: works cell by cell where the original calls memcpy; Memory.MemcpyMoves shows that call moves its bytes intact.
- Terminals.AddCharTo: writes to cells 2000 to 2047, an unused part of the video page, are dropped.
- ProcessRuns.StallIsForever: a halt on a terminal without a process, which reads through a null pointer, is not a step.
- Reads.FRead: an inode number has to lie within the modelled memory behind the inode table, and the delivered bytes within the caller's buffer.
- Grep.DoOneFile: the opening, closing and failure messages are left out, and so is main's loop over the directory; output is collected in one sequence.
- GrepKernel.GrepFile: a read that fails on a bad block number, after which do_one_file prints a message and gives up, is excluded.
- Cat.CatFile: getargs, open and their messages are left out; the text-file flag of the output descriptor is taken to be set.
- Blink.BlinkList.Sync: the display write behind the copy, and every other write of a character to video memory by the blink code, is left out.
- Itoa.Itoa: radix 0, 1 and above 36 would divide by zero, not terminate or leave the digit table, and are excluded; the other conversions of printf are left out.
- Interrupt masking, TLB flushes, the IRET frame, cursor ports and the RTC: hardware effects.
- Scan codes and modifier keys: the model starts from decoded keys.
- vidmap, getargs, directory reads, signal stubs, memmove, memset_word, mp1_ioctl_find: easy or separate from the properties above.
- Descriptor and boot set-up (IDT, GDT, paging_init), and the other user programs.
