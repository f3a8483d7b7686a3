# Verified model of a small x86 kernel and its programs

This project models the logic of a teaching kernel (three text terminals, six processes, a read-only
block file system, round-robin scheduling) and of three of its user programs (`cat`, `grep`, `fish`),
and proves what that logic keeps over whole runs.

| part | files |
|---|---|
| processes, terminals, scheduler | `KernelModel.dfy` (state and steps as values), `Kernel.dfy` (the tables updated in place), `ProcessForest.dfy`, `ProcessLaws.dfy`, `SingleTerminal.dfy`, `Scheduling.dfy`, `Commands.dfy`, `Programs.dfy` (which names are programs), `OpenedFiles.dfy` (open, then read) |
| consoles on one screen | `Console.dfy`, `Paper.dfy`, `Messages.dfy`, `Terminals.dfy`, `Video.dfy` (byte stores), `WholeSystem.dfy` (screen and processes together) |
| files and directories | `FileSystem.dfy`, `Directory.dfy`, `Grep.dfy` |
| blink list of `fish` | `BlinkModel.dfy`, `Blink.dfy` |
| keyboard line, memory, numbers | `Keyboard.dfy`, `Memory.dfy`, `Numbers.dfy`, `Arithmetic.dfy` |

How it is built: where the source changes globals, buffers or linked cells in place, a class or an
array method does the same and its `ensures` ties the new state to a function of the old one; the
properties of a run are then lemmas about those functions. Hardware memory is an array of bytes.
Each system call and each interrupt handler is one atomic step. Pids, terminals and descriptors are
6, 3 and 8 as in the source; the fairness results hold for any number of terminals.

Starting state: the kernel after `init_terminal`, `init_PIT` and the first `execute("shell")`, with
the memory of the control blocks zeroed, and "shell" an executable file.

## Properties that the code meets only under a condition

Each is proved for all states and inputs, in both directions where "exactly when" is said.

* Opening a terminal keeps the process forest exactly when `jammer` is clear or `hotjam` is set
  (`ProcessForest.OpenKeepsIff`). Opening terminal 1, returning to terminal 0 and opening terminal 2
  fails it (`ProcessLaws.JamBreaksForest`).
* A base shell that exits restarts correctly exactly when every lower pid is occupied
  (`ProcessForest.RestartKeepsIff`, `ProcessLaws.LowRestartBreaksForest`).
* `file_read` and `directory_read` look up the control block of `get_current_pid()`. That is the
  running program exactly when every lower pid is occupied and the next one is free
  (`ProcessLaws.GuessedPidIff`). It holds while only terminal 0 is used
  (`SingleTerminal.SoloRunFromBoot`), where a file that is opened and read gives its contents
  (`OpenedFiles.OpenAndRead`), and fails in `ProcessLaws.GuessedPidDiffers`.
* A backspace printed by a hidden program blanks a cell of the visible screen instead of its own, and
  goes unnoticed exactly when both are blank already (`Terminals.HiddenBackspaceIff`).
* Ctrl-L homes the wrong cursor unless the visible terminal executes or both cursors are home already
  (`Terminals.ClearIff`).
* The message of a failing `execute` appears on the visible screen, whoever executes. It reaches the
  terminal of its program only, exactly when nothing is printed, that terminal is visible, or both
  screens are full of the message already (`WholeSystem.ExecuteIsPrivateIff`).
  `WholeSystem.ConsolesLeak` reaches a state in which these three fail.
* A file reads to its end exactly when blocks 0..length/4096 exist, one more than its contents need
  when the length is a multiple of 4096 (`FileSystem.ReadableIff`, `FileSystem.Cat`; a file that fails
  is in `FileSystem.WholeFileUnreadable`).
* `grep` prints the matching lines exactly when the pattern occurs in no line of more than 1024
  characters (`Grep.WindowIsFilterIff`). So it does for every pattern exactly when there is no longer
  line (`Grep.EveryPatternIff`), and for every pattern that a command line can hold exactly when each
  longer line is blank (`Grep.EveryArgumentIff`). `Grep.LongLineLost` has a text and a pattern for
  which it does not. The empty pattern matches nothing.
* A read from the keyboard delivers the edited line exactly when it is shorter than the size asked
  for, has at most 127 characters and not 126: a count of 127 is reported as 128
  (`Keyboard.DeliveredIff`, `Keyboard.CountTooHigh`).
* An add to the blink list leaves a list, finite and without a cycle, exactly when the slot that
  `mp1_malloc` hands out is not listed (`Blink.AddIsListIff`). It never is while the listed slots are
  those of nonzero location, and an add keeps this invariant exactly when its location is not 0
  (`BlinkModel.AddMeaning`). One add with location 0 still leaves a list, but any add after it makes
  the head its own successor (`Blink.ZeroLocationCycles`, `Blink.ZeroLocationSpoils`,
  `Blink.AddTwice`).
* `execute` copies the name of the command into 32 bytes; name and terminator fit exactly when the
  name has at most 31 characters (`Programs.NameFitsIff`; a command that overruns the array is in
  `Programs.LongNameOverruns`).

## Model

| member | source | states |
|---|---|---|
| Kernel.Machine.constructor | student-distrib/terminal.c:245-307 | the tables as they are before the first program is started |
| Kernel.Machine.GetPid | student-distrib/system_call.c:666-682 | the lowest free pid is taken and nothing else changes; -1 exactly when all are taken |
| Kernel.Machine.GetCurrentPid | student-distrib/system_call.c:689-711 | the pid below the lowest free one (0 if pid 0 is free, 5 if none is) |
| Kernel.Machine.MapPhysicalMemory | student-distrib/system_call.c:731-749 | the program window maps the 4 MB page of the pid |
| Kernel.Machine.RemainedProcesses | student-distrib/system_call.c:239-244 | the number of free pids |
| Kernel.Machine.LaunchImage | student-distrib/system_call.c:239-316 | reservation check, pid, control block, descriptors 0 and 1, page and stack pointer: the whole new state, or failure with nothing changed and its message printed |
| Kernel.Machine.ExecuteText | student-distrib/system_call.c:116-337 | dropped while jammed; null or over-long commands fail unchanged; otherwise, for a name that fits its array, the outcome and the message for the one name the command line has, as the volume knows it |
| Kernel.Machine.ExecuteShell | student-distrib/system_call.c:62 | the same for the command "shell" |
| Kernel.Machine.ClearFds | student-distrib/system_call.c:78-86 | all eight descriptors of the pid closed, no other control block touched |
| Kernel.Machine.HaltCall | student-distrib/system_call.c:30-108 | the whole state after halt, both for a base shell and for other programs |
| Kernel.Machine.LeaveToParent | student-distrib/system_call.c:65-93 | the part of halt that gives the terminal back to the parent |
| Kernel.Machine.SwitchTerminal | student-distrib/terminal.c:316-357 | the whole process state after the key that shows a terminal |
| Kernel.Machine.ChooseNext | student-distrib/scheduling.c:42-50 | the round-robin loop finds the next active terminal |
| Kernel.Machine.PitHandler | student-distrib/scheduling.c:37-81 | the next active terminal executes, with its page and kernel stack |
| Kernel.Machine.OpenFile | student-distrib/system_call.c:421-503 | descriptor table after open, with type and inode of the first entry of that name; -1 and no change for null or an unknown name |
| Kernel.Machine.FileReadCall | student-distrib/file_system.c:190-207 | file_read through the control block of the guessed pid: bytes of the flat file, its count, and the position of that descriptor moved by it |
| Kernel.Machine.CloseFile | student-distrib/system_call.c:515-555 | descriptor table after close; -1 and no change for a bad or closed descriptor |
| ProcessForest.LaunchPushes | student-distrib/system_call.c:274-296 | a started program becomes the new top of its terminal's parent chain |
| ProcessForest.ReturnPops | student-distrib/system_call.c:65-75 | an ended program leaves the chain and its parent is the new top |
| ProcessForest.LaunchOutcome | student-distrib/system_call.c:239-260 | execute finds a pid exactly when more pids are free than terminals are unopened |
| ProcessForest.ExecuteOutcome | student-distrib/system_call.c:121-260 | only a program is started, and only if enough pids are free; a call that starts nothing changes nothing; which message it prints |
| ProcessForest.ExecuteKeeps | student-distrib/system_call.c:215-296 | execute, successful or not, keeps the forest, the reservation, the address space and the descriptor tables |
| ProcessForest.HaltProgramKeeps | student-distrib/system_call.c:65-93 | so does the end of a program that is not a base shell |
| ProcessForest.RestartState | student-distrib/system_call.c:50-62 | restarting a base shell never runs out of pids |
| ProcessForest.RestartPid | student-distrib/system_call.c:50-62 | a restarted base shell takes its own pid or the lowest free one below it |
| ProcessForest.RestartKeepsIff | student-distrib/system_call.c:50-62 | a base shell restarts into a good state exactly when every lower pid is occupied |
| ProcessForest.PredictedPid | student-distrib/terminal.c:346-355 | opening a terminal never runs out of pids, and the pid written down beforehand is the one handed out |
| ProcessForest.OpenPlaces | student-distrib/terminal.c:346-355 | the new shell is a one-element chain of its terminal |
| ProcessForest.OpenKeepsIff | student-distrib/terminal.c:346-355 | opening a terminal gives a good state exactly when execute is not turned away by the flags |
| ProcessForest.SwitchKeeps | student-distrib/terminal.c:316-357 | showing any terminal keeps the invariant under that condition |
| ProcessForest.TickSelects | student-distrib/scheduling.c:42-50 | a tick always picks an active terminal |
| ProcessForest.TickKeeps | student-distrib/scheduling.c:53-70 | a tick keeps the invariant; page and kernel stack follow the new terminal |
| ProcessForest.StepKeeps | student-distrib/system_call.c:30-337 | every allowed event keeps the invariant |
| ProcessForest.RunKeeps | student-distrib/system_call.c:30-337 | every allowed run of any length keeps it |
| ProcessForest.BootEstablishes | student-distrib/kernel.c:165-178 | the state after boot satisfies it, with the first shell at pid 0 |
| ProcessLaws.ParentChains | student-distrib/system_call.c:65-70 | parent links lead from each running program to its self-parented base shell without repetition, and every occupied pid lies on one such path |
| ProcessLaws.ForestIsUnique | student-distrib/system_call.c:274-296 | the tables alone determine which terminal owns which pid, at which depth |
| ProcessLaws.HaltUndoesExecute | student-distrib/system_call.c:65-93 | ending a just started program restores the kernel except for the freed slot |
| ProcessLaws.LayoutDisjoint | student-distrib/system_call.c:719-749 | different pids have disjoint kernel slots and disjoint user pages, and a stack pointer lies in its own slot |
| ProcessLaws.RunAddressSpace | student-distrib/scheduling.c:62-70 | after every run from boot the mapped page and kernel stack are those of the executing program and of no other pid |
| ProcessLaws.FreshDescriptors | student-distrib/system_call.c:284-294 | a program started by another one sees only standard input and output |
| ProcessLaws.OpenedDescriptor | student-distrib/system_call.c:465-490 | an RTC, directory or other entry gives a descriptor of that kind, at position 0, with the inode for a file |
| ProcessLaws.CloseUndoesOpen | student-distrib/system_call.c:454-468 | open takes the lowest closed descriptor from 2 up, fails only if all are open, and close restores the state |
| ProcessLaws.CloseIff | student-distrib/system_call.c:515-555 | close succeeds exactly for an open descriptor from 2 to 7, closes that one, and else changes nothing |
| ProcessLaws.BlocksArePrivate | student-distrib/system_call.c:30-555 | no event changes the control block of an occupied pid, except that the running program ends, opens or closes |
| ProcessLaws.TerminalsArePrivate | student-distrib/system_call.c:30-555 | no event changes the entry of a terminal that does not execute, except the key that opens it |
| ProcessLaws.FlagsUsedUp | student-distrib/terminal.c:183-194 | a write uses up one flag, `jammer` first, and reading a line clears `jammer`; nothing else changes |
| ProcessLaws.JamBreaksForest | student-distrib/system_call.c:121-124 | a reachable state in which opening a terminal leaves it without a process |
| ProcessLaws.LowRestartBreaksForest | student-distrib/system_call.c:50-62 | a reachable state in which a restarted base shell breaks the forest |
| ProcessLaws.GuessIs | student-distrib/system_call.c:689-711 | the guessed pid is the last of the occupied ones from 0 on, or 0 |
| ProcessLaws.GuessedPidIff | student-distrib/file_system.c:197-199 | get_current_pid is the running program exactly when every lower pid is occupied and the next one is free |
| ProcessLaws.GuessedPidDiffers | student-distrib/file_system.c:197-199 | a reachable state in which get_current_pid is not the running program |
| SingleTerminal.SoloRunFromBoot | student-distrib/system_call.c:666-711 | every run that stays on terminal 0 is allowed, uses pids 0..k-1 as a stack, and get_current_pid names its top |
| OpenedFiles.ReadOpened | student-distrib/file_system.c:197-207 | any sequence of reads through the guessed control block gives consecutive pieces of the file and moves that position only |
| OpenedFiles.OpenAndRead | student-distrib/system_call.c:443-494 | while one terminal is used, a file opened by name and read in pieces of any sizes gives its contents from the beginning |
| Scheduling.PicksAreWindow | student-distrib/scheduling.c:42-50 | consecutive ticks visit the active terminals of a turn in cyclic order, none skipped |
| Scheduling.NextIsFirst | student-distrib/scheduling.c:42-50 | a tick chooses the first active terminal after the last choice, upwards and round |
| Scheduling.TurnIsFair | student-distrib/scheduling.c:42-50 | for any number of terminals, as many ticks as active terminals choose each exactly once |
| Scheduling.StepLeavesActives | student-distrib/scheduling.c:42-63 | only opening a terminal changes who is active, only a tick moves the scheduler |
| Scheduling.RoundRobinIsFair | student-distrib/scheduling.c:42-63 | any stretch of a run with that many ticks and no terminal opened gives each active terminal the processor once |
| Commands.Split | student-distrib/system_call.c:163-214 | the command line is blanks, name, blanks, argument, each as long as possible |
| Commands.SplitIsUnique | student-distrib/system_call.c:163-214 | there is only one such name and argument |
| Commands.BlanksSeparate | student-distrib/system_call.c:163-214 | blanks and tabs both separate name and argument; the argument goes to the end of the line |
| Commands.ArgumentFits | student-distrib/system_call.c:282 | the argument and its terminator fit the 128-byte field |
| Commands.ArgumentIff | student-distrib/system_call.c:135-210 | a program can be given exactly the arguments that start with no blank and fit the command line after its name |
| Programs.ReadHead | student-distrib/system_call.c:228 | the four bytes looked at: the first ones of the file, or what the array held if the file has fewer or its block is missing |
| Programs.CheckImage | student-distrib/system_call.c:219-234 | missing, program or other file, by the first entry of the name and the four bytes |
| Programs.ProgramIff | student-distrib/system_call.c:228-229 | a readable file of four bytes or more is a program exactly when it starts with the magic number, whatever the array held |
| Programs.ShortProgramIff | student-distrib/system_call.c:228-229 | of a shorter file the missing bytes are what the array held |
| Programs.MagicIsElf | student-distrib/system_call.c:229 | the magic number is 127 and "ELF" |
| Programs.NameFitsIff | student-distrib/system_call.c:134 | the 32-byte array holds a name as a string exactly when it has at most 31 characters |
| Programs.LongNameOverruns | student-distrib/system_call.c:189-192 | a command of 32 letters that is accepted and whose name does not fit |
| Console.FeedAllConcat | student-distrib/lib.c:323-369 | printing two texts one after the other is printing their concatenation |
| Console.PlainTextFeeds | student-distrib/lib.c:323-369 | text without a backspace can be printed from any cursor |
| Console.BackspaceErases | student-distrib/lib.c:324-332 | a backspace undoes the glyph before it, one row higher if that glyph scrolled the screen |
| Paper.LayoutType | student-distrib/lib.c:333-366 | the wrapped layout of a text grows by one typed character at a time |
| Paper.NewLineShows | student-distrib/lib.c:54-68 | scrolling keeps the screen the last 25 rows of the page |
| Paper.PutGlyphShows | student-distrib/lib.c:348-366 | so does a glyph, with eager wrap in column 80 |
| Paper.ScrollingRefinesPaper | student-distrib/lib.c:323-369 | from a cleared screen, after any text without a backspace, the screen is the last 25 rows of the unbounded layout and the cursor is at its end |
| Paper.PlaySinceCleared | student-distrib/lib.c:39-47 | what a console shows depends only on what was printed since it was cleared last |
| Messages.LineUnmovedIff | student-distrib/lib.c:323-369 | a line and its newline leave a screen as it was exactly when the screen is full of that line |
| Messages.MessageUnmovedIff | student-distrib/system_call.c:231-257 | the same for the messages of execute; "too many processes" always moves the cursor |
| Terminals.PutcIsPrivate | student-distrib/lib.c:323-369 | putc changes the visible terminal's console as a console of its own, and no other |
| Terminals.HiddenOutputIsPrivate | student-distrib/lib.c:234-296 | k_putc does the same for a hidden terminal, except for a backspace |
| Terminals.HiddenBackspaceIff | student-distrib/lib.c:255-264 | a backspace of a hidden program is private exactly when the cell it should erase and the one it does erase are both blank already |
| Terminals.SwitchKeepsConsoles | student-distrib/terminal.c:325-343 | the two 4 KB copies lose no terminal's screen |
| Terminals.ClearIff | student-distrib/lib.c:39-47 | clear concerns the visible terminal only, exactly when that terminal executes or both cursors are home |
| Terminals.ClearedAfterClear | student-distrib/lib.c:39-47 | after clear every cell is blank |
| Terminals.MessageIff | student-distrib/lib.c:90-214 | a kernel message reaches only the executing terminal exactly when that is visible, nothing is printed, or both consoles stay as they are |
| Terminals.EmitAllIsPrivate | student-distrib/terminal.c:197-215 | a whole write goes to the writer's console only |
| Terminals.SwallowedWrite | student-distrib/terminal.c:183-194 | a swallowed write clears one flag, `jammer` first, and does nothing else |
| Terminals.AllWritesAppear | student-distrib/terminal.c:197-215 | with no flag set every write of a sequence appears in order, on the writer's console only |
| Terminals.FirstWritesSwallowed | student-distrib/terminal.c:183-215 | of any sequence of writes exactly as many are swallowed as flags were set, the first ones |
| Terminals.StepIsPrivate | student-distrib/terminal.c:174-218 | each event feeds each console exactly what was accepted for it |
| Terminals.PrivateConsoles | student-distrib/terminal.c:174-218 | after every run of writes, echo, Ctrl-L, messages, switches and ticks each terminal shows a private console given exactly what was accepted for it |
| Terminals.TerminalShowsItsPaper | student-distrib/terminal.c:174-218 | hence the last 25 rows of everything accepted for it since it was cleared last, if that holds no backspace |
| WholeSystem.StepCouples | student-distrib/terminal.c:329-356 | processes and screen agree on the shared globals after every event |
| WholeSystem.CallFlags | student-distrib/system_call.c:59-62 | what each kernel call does to the shared globals |
| WholeSystem.RestartsAreSilent | student-distrib/system_call.c:50-62 | the execute calls inside halt and switch_terminal never print a message |
| WholeSystem.ExecuteIsPrivateIff | student-distrib/system_call.c:231-257 | the message of a failing execute concerns its own terminal only, exactly when there is none, the terminal is visible, or both screens are full of it |
| WholeSystem.HiddenProgram | student-distrib/terminal.c:345-355 | from every boot display a state is reached in which the first program executes hidden, with a letter in front of its cursor |
| WholeSystem.ConsolesLeak | student-distrib/lib.c:255-264 | in that state a backspace, Ctrl-L and a failing execute each change a wrong console |
| WholeSystem.KernelRunsArePrivate | student-distrib/terminal.c:174-218 | consoles stay private in every run of the kernel with all its scheduling, starting and ending of programs |
| Video.Driver.Draw | student-distrib/lib.c:349-350 | two byte stores change one cell of one page |
| Video.Driver.ScrollScreen | student-distrib/lib.c:54-68 | the nested loops of scroll move the screen up and leave the other three pages alone |
| Video.Driver.KernelScroll | student-distrib/lib.c:302-316 | those of kernel_scroll do the same to the buffer of the executing terminal |
| Video.Driver.PutcNewline | student-distrib/lib.c:333-341 | the newline case of putc |
| Video.Driver.PutcGlyph | student-distrib/lib.c:348-366 | the glyph case of putc with wrap and scroll |
| Video.Driver.KPutcNewline | student-distrib/lib.c:265-273 | the newline case of k_putc |
| Video.Driver.KPutcGlyph | student-distrib/lib.c:274-295 | the glyph case of k_putc, on copies of the cursor fields, agrees with a glyph on a console |
| Video.Driver.EraseBack | student-distrib/lib.c:324-332 | the backspace case; the blanked cell is on page 0 for both output routines |
| Video.PutcTab | student-distrib/lib.c:342-347 | four blanks through putc are the tab of a console |
| Video.KPutcTab | student-distrib/lib.c:249-254 | four blanks through k_putc are, too |
| Video.Driver.PutcOnScreen | student-distrib/lib.c:323-369 | the whole display after putc |
| Video.Driver.KPutcHidden | student-distrib/lib.c:234-296 | the whole display after k_putc |
| Video.Driver.Printf | student-distrib/lib.c:90-214 | a text without conversions goes through putc character by character |
| Video.Driver.WriteTerminal | student-distrib/terminal.c:174-218 | the whole display after a write, and its count; a set flag swallows the call |
| Video.Driver.SwitchScreens | student-distrib/terminal.c:325-343 | the visible page is saved and the other one shown |
| Video.Driver.CopyPage | student-distrib/terminal.c:325-334 | one page becomes a copy of another |
| Video.Driver.ClearScreen | student-distrib/lib.c:39-47 | the whole display after clear |
| Video.Driver.ClearKey | student-distrib/keyboard.c:90-98 | Ctrl-L clears twice, which is clearing once |
| FileSystem.ReadData | student-distrib/file_system.c:70-129 | succeeds exactly when all examined blocks exist; then it stores exactly the bytes of the flat file and returns their number |
| FileSystem.ReadableIff | student-distrib/file_system.c:92-109 | no read inside a file fails exactly when its blocks 0..length/4096 exist |
| FileSystem.ContentsByte | student-distrib/file_system.c:97-115 | byte k of block b of a file is byte k of the data block its table names at b |
| FileSystem.ExaminedBlocks | student-distrib/file_system.c:85-109 | a read succeeds exactly when all block numbers from its first to its last examined position are in range |
| FileSystem.BeyondTheEnd | student-distrib/file_system.c:105-109 | a read that starts behind the end of the file does not stop there |
| FileSystem.WholeFileUnreadable | student-distrib/file_system.c:92-109 | a file of 4096 bytes whose only block exists, and that cannot be read to its end |
| FileSystem.OpenFile.FileRead | student-distrib/file_system.c:151-208 | the same from the current position, which moves by the number returned and stays on failure; inside a file a nonempty request returns 0 exactly at the end |
| FileSystem.GoodRead | student-distrib/file_system.c:70-129 | a read inside a readable file returns the next bytes of its contents |
| FileSystem.ReadText | student-distrib/file_system.c:199-207 | file_read inside any file, byte by byte, with the rest of the buffer untouched; -1 and no move on a missing block |
| FileSystem.TextIsContents | student-distrib/file_system.c:92-115 | the text of a readable file is its contents |
| FileSystem.ReadPiece | student-distrib/file_system.c:199-207 | one file_read inside a readable file returns the contents between the old and the new position |
| FileSystem.ReadPieces | student-distrib/file_system.c:199-207 | for any sequence of file_read sizes the pieces join up to the file from where reading started, as far as the sum of the sizes leads, and after a short piece all are empty |
| FileSystem.Cat | syscalls/ece391cat.c:21-30 | ends well, having written the file exactly once, exactly when the file is readable; otherwise it has written a beginning of it |
| Directory.Strncmp | student-distrib/lib.c:606-620 | the signed difference at the first mismatch, or 0 |
| Directory.Strlen | student-distrib/lib.c:433-438 | the number of characters before the terminator |
| Directory.Strncpy | student-distrib/lib.c:643-654 | the string padded with NULs to n bytes, the rest unchanged |
| Directory.MatchIff | student-distrib/file_system.c:26 | a name matches a 32-byte field exactly when the strings are equal, terminated or not |
| Directory.ReadDentryByName | student-distrib/file_system.c:22-39 | the first entry of that name with its type and inode, or none |
| Directory.ReadDentryByIndex | student-distrib/file_system.c:47-59 | the entry's name padded to 32 bytes with its type and inode, or none |
| Directory.NameLength | student-distrib/file_system.c:280-284 | the length of the name, also when the field is not terminated |
| Directory.OpenDirectory.DirectoryRead | student-distrib/file_system.c:227-290 | the next name and its length; 0 and no change at the end |
| Directory.ListDirectory | syscalls/ece391grep.c:84-94 | the names in index order up to the first empty one |
| Directory.ListingIsComplete | student-distrib/file_system.c:276-289 | with nonempty names that is every name once |
| Directory.RoundTripIff | student-distrib/file_system.c:22-39 | looking up a listed name finds the same entry exactly when no earlier entry bears the name |
| Directory.DirectoryRoundTrip | student-distrib/file_system.c:22-59 | with distinct nonempty names every name is listed once in index order, and looking up a listed name gives its entry's inode and type |
| Directory.ReturnedName | student-distrib/file_system.c:280-286 | a returned name, terminated by the caller, is the entry's string |
| Grep.StartsWith | syscalls/ece391support.c:35-46 | the pattern occurs at the position, for terminated text |
| Grep.CarryDown | syscalls/ece391support.c:14-17 | the overlapping copy moves the unfinished line to the front |
| Grep.SearchLine | syscalls/ece391grep.c:42-51 | found exactly when the line contains the pattern |
| Grep.TakeLine | syscalls/ece391grep.c:40-51 | a line is printed once, exactly when it contains the pattern |
| Grep.MatchingIsFilter | syscalls/ece391grep.c:28-57 | what should be printed are the lines of the text that contain the pattern, each once and in order |
| Grep.LinesMakeText | syscalls/ece391grep.c:30-32 | the lines, each with a newline behind it, make up the text with a newline at its end |
| Grep.LinesHoldNoNewline | syscalls/ece391grep.c:30-32 | no line contains a newline |
| Grep.ScanWindow | syscalls/ece391grep.c:28-57 | printed and still to be printed pieces together stay the same, and the unfinished line is at the front |
| Grep.ScanFile | syscalls/ece391grep.c:20-60 | the outer loop keeps the account of what is printed, and ends well exactly when the file is readable |
| Grep.DoOneFile | syscalls/ece391grep.c:9-66 | for every file without NULs: terminates, well exactly when the file is readable, and has printed the matching pieces of the text in order, wherever reads end; after a failed read it has printed a beginning of them |
| Grep.WindowFilters | syscalls/ece391grep.c:28-57 | for a pattern in no line longer than the window exactly the matching lines are printed |
| Grep.WindowIsFilterIff | syscalls/ece391grep.c:6-60 | for each text and pattern the output is the matching lines exactly when the pattern occurs in no line longer than the buffer |
| Grep.EveryPatternIff | syscalls/ece391grep.c:6-60 | so it is for all patterns up to any size exactly when no line is longer |
| Grep.ArgumentMeaning | syscalls/ece391grep.c:75-78 | grep can be given the patterns of 1 to 123 characters that start with no blank |
| Grep.EveryArgumentIff | syscalls/ece391grep.c:75-78 | for all of these the output is the matching lines exactly when each longer line is blank |
| Grep.LongLineLost | syscalls/ece391grep.c:20-60 | for a line of 1025 letters and that letter as pattern the filter prints the line and the window does not |
| Blink.BlinkList.constructor | fish/fish.c:28 | an empty list over a zeroed arena |
| Blink.BlinkList.Malloc | fish/fish.c:160-170 | the lowest slot with location 0, or none |
| Blink.BlinkList.Insert | fish/blink.S:105-184 | whatever the links are: fails exactly on a bad location or a full arena; otherwise the started node goes into the first free slot and in front; a list stays a list for a nonzero location |
| Blink.BlinkList.FindHelper | fish/blink.S:351-379 | the first node with the location, or none |
| Blink.BlinkList.Find | fish/blink.S:302-349 | a copy of that node |
| Blink.BlinkList.FindPrev | fish/blink.S:206-212 | the pointer that leads to the node |
| Blink.BlinkList.Bypass | fish/blink.S:214-222 | the pointer is led past the slot, and the slot zeroed |
| Blink.CutMeaning | fish/blink.S:214-222 | this cuts the slot out of the list and leaves the order of the others |
| Blink.BlinkList.Unlink | fish/blink.S:187-237 | the first match is cut out and its slot zeroed; -1 and no change if there is none |
| Blink.BlinkList.Synchronise | fish/blink.S:240-300 | the timing of the first match of the high half is copied to that of the low half |
| Blink.BlinkList.Tasklet | fish/blink.S:49-99 | every listed node is ticked once, links unchanged |
| Blink.AddIsListIff | fish/blink.S:131-162 | an add leaves the links a list exactly when the slot handed out is not listed |
| Blink.ZeroLocationCycles | fish/fish.c:160-170 | two adds after a location of 0 link a cell to itself |
| Blink.ZeroLocationSpoils | fish/fish.c:160-170 | an add with location 0 leaves a list to which nothing can be added without a cycle |
| Blink.AddTwice | fish/blink.S:105-184 | two calls of the insertion do so: the head is its own successor |
| BlinkModel.AddMeaning | fish/blink.S:131-162 | push-front of the caller's node, switched on with its whole on length to go; the result is a list exactly when the location is not 0 |
| BlinkModel.FullIff | fish/fish.c:160-170 | no slot is free exactly when 2000 nodes are listed |
| BlinkModel.CanAddIff | fish/blink.S:121-145 | an add succeeds exactly for a location on the screen while fewer than 2000 nodes are listed |
| BlinkModel.RemoveMeaning | fish/blink.S:206-223 | only the first match leaves, the others keep their order |
| BlinkModel.SyncMeaning | fish/blink.S:267-275 | one node gets the other's lengths, countdown and status, keeps its location and characters, and nothing else changes |
| BlinkModel.TickMeaning | fish/blink.S:58-90 | each node of the list moves on by one tick in place |
| BlinkModel.StepKeeps | fish/blink.S:105-300 | every operation keeps the listed slots distinct and equal to the slots of nonzero location |
| BlinkModel.BlinkAutomaton | fish/blink.S:64-86 | t ticks after an add the node is at its place in the period, for all 16-bit lengths: on exactly in the first part, with the matching countdown |
| BlinkModel.PositionIsRemainder | fish/blink.S:64-86 | that place is t modulo the sum of the two lengths |
| BlinkModel.UntouchedAges | fish/blink.S:58-90 | in any run a node that is not removed or synchronised has aged by the ticks of the run |
| BlinkModel.SyncedStayInStep | fish/blink.S:267-275 | after a sync two nodes have the same timing until one is touched again |
| BlinkModel.AddedBlinksOnSchedule | fish/blink.S:135-138 | an added node keeps the caller's fields and blinks with the caller's on and off lengths until touched, whatever else is added, found, removed or synchronised |
| Keyboard.Terminal.GetChar | student-distrib/terminal.c:10-36 | one key on the 128-byte buffer and its unbounded count |
| Keyboard.Terminal.ReadTerminal | student-distrib/terminal.c:88-146 | the caller's buffer and count for every line and size; the keyboard buffer is empty again |
| Keyboard.BufferFollowsLine | student-distrib/terminal.c:10-36 | for every key sequence the buffer holds as much of the edited line as fits, also after passing 128 keys |
| Keyboard.BufferIsPadded | student-distrib/terminal.c:17-24 | while the line never fills the buffer there are zeros behind it |
| Keyboard.ReadMeaning | student-distrib/terminal.c:97-143 | for every line and size: the whole line with its newline, or as much as the size allows and then a newline; the count; and the rest of the caller's buffer unchanged |
| Keyboard.DeliveredIff | student-distrib/terminal.c:97-143 | the read delivers exactly the edited line and a newline if and only if it is shorter than the size, at most 127 characters, and not 126 |
| Keyboard.CountTooHigh | student-distrib/terminal.c:97-143 | a line of 126 letters is stored with its newline and counted as 128 |
| Memory.MoveWords | student-distrib/lib.c:545-549 | the word run copies four bytes at a time |
| Memory.Memcpy | student-distrib/lib.c:529-566 | for every alignment the destination is the old source and nothing else changes, also for overlap with a lower destination |
| Memory.Memset | student-distrib/lib.c:446-480 | for every alignment exactly the n bytes become the low byte |
| Memory.Memmove | student-distrib/lib.c:575-593 | the destination is the old source for every overlap |
| Memory.CharacterCodes | student-distrib/lib.c:249-265 | the byte values of the characters the kernel treats specially |
| Numbers.Strrev | student-distrib/lib.c:414-427 | the string is reversed in place, the rest unchanged |
| Numbers.WriteLow | student-distrib/lib.c:396-401 | the digits, lowest first, stand for the value; at most 32 of them |
| Numbers.DigitTable | student-distrib/lib.c:379 | the digits are 0 to 9 and then the capital letters |
| Numbers.Itoa | student-distrib/lib.c:378-408 | for every 32-bit value and radix 2..36: digits without a leading zero that evaluate back to the value, terminated |
| Numbers.PrintedIsUnique | syscalls/ece391support.c:49-103 | no other string prints the value, so printing and reading back are inverse |
| Numbers.HexAligned | student-distrib/lib.c:146-156 | exactly eight hexadecimal digits that evaluate to the value |

## Left out

- Boot, descriptor tables, port I/O, the PIC and RTC, the hardware cursor and the stack-switch assembly: a context switch is a change of executing terminal, mapped page and `esp0`.
- `close(fd)` with an uninitialised `fd` inside `halt`, which has no defined meaning.
- `read` and `getargs`, which use the visible terminal's control block, and `vidmap`: file claims are about `file_read` and `directory_read` called directly.
- Kernel.Machine.LaunchImage: loading the image, the entry point, saved `esp` and `ebp`, and the copy of the argument into the control block are not modelled.
- Kernel.Machine.ExecuteText: promises nothing for a name of 32 characters or more, which the source writes beyond its array.
- Kernel.Machine.HaltCall: the stack registers restored and the status handed to the parent are not modelled.
- Kernel.Machine.PitHandler: saving and loading `esp` and `ebp` is not modelled.
- FileSystem.Cat: a failing write, with which cat would also end, is not modelled; writing to descriptor 1 never fails.
- Descriptor inheritance when a base shell restarts: `ProcessLaws.FreshDescriptors` is about programs started by `execute`.
- Directory.ReadDentryByName: the name that is copied into the caller's entry is not modelled, only type, inode and which entry is found.
- Directory.Strncpy: the source reads one byte beyond n before it tests the count; that read is left out.
- Grep.DoOneFile: assumes a file without NUL bytes and `data[1024]` not initially a newline, as the source leaves that byte unset; the file name printed before each line, and a failing open or close, are left out.
- Keyboard.Terminal.ReadTerminal: a step enabled when Enter has been pressed; the wait until the terminal executes and the clearing of `jammer` are in `KernelModel.ReadLine`. For a cut line the source writes one byte behind the size asked for, and the caller's buffer must have it.
- The reset of the keyboard line by Ctrl-L (`open_terminal`): only its clearing of the screen is an event.
- `keyboard_handler`'s own cursor and key counter and its scan-code tables: only its calls of `putc`, `getChar` and `clear` are events.
- Characters painted on the screen by the blink list, and the RTC-driven loop of `fish`.
- Video.Driver.Printf: formats with conversions; `Numbers.HexAligned` has the `%#x` case.
- Memory.Memmove: the direction flag, which the source leaves set after a downward move.
- The other user programs, the emulation layer, the exception handlers and paging's table fill.
