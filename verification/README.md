# A verified model of 114514OS

114514OS is a small teaching kernel: three virtual terminals share one video page, six process slots are
scheduled round robin over them, programs come from a read-only filesystem, and a user library and a fish
animation run on top. This project models its stateful cores in Dafny and proves properties of whole runs
of them. Code that updates things in place is modelled by classes and loops; each method is proved equal to
a step on values, and the theorems about all runs are lemmas about those steps.

A step is one system call, one scan code taken from the keyboard, or one timer tick. Runs of the kernel
start when the first shell exists, with zeroed process control blocks and `shell` a valid executable.

| files | what they hold |
|---|---|
| `Bytes`, `Arithmetic` | bytes, C strings, options, facts about remainders |
| `Memory` | `memset`, `memcpy`, `memmove` on one array of bytes |
| `Screen` (modules `Screen`, `Tape`), `Echo` | one terminal on its own, and the tape its screen is a window on |
| `Console` | three terminals on four pages of video memory |
| `Tty`, `Keyboard`, `Scancodes`, `Keys` | the terminal protocol on values, the driver that follows it, the key tables, the modifier keys over runs |
| `Descriptors`, `Paging`, `Processes` | descriptor tables, page tables, the kernel's steps on values |
| `ProcessStacks`, `RoundRobin` | whole-run theorems about processes and about ticks |
| `ControlBlock`, `Machine` | control blocks as words in memory, and the process code as it runs, refining `Processes` |
| `Whole`, `Integrated` | terminals and processes in one run, as a model and as the two drivers side by side |
| `Blinkers`, `BlinkPool` | blinking records as a list of values, and as a linked list inside a pool |
| `FileSystem` | directory lookup, block-chain reads, sequential reading |
| `Numbers` | `itoa`, `strrev`, `%#x` |
| `Arguments`, `Executable` | splitting and joining in the user library; command parsing in the kernel |
| `ArgumentRuns` | the one argument buffer that all processes share, over whole runs |

## Main results

- **Three independent terminals.** However program output, key echo, backspace, Ctrl-L, reads, scheduler
  switches and display switches interleave, each terminal's screen, cursor, edited line and buffers are what
  its own acts alone would make of them on a terminal with nothing beside it (`Tty.Independence`), and the
  driver over the swapped pages does exactly that (`Keyboard.Keyboard.Serve`). The cursor never leaves the
  page and a backspace always has a cell to erase.
- **Keys by their presses and releases.** After any run a key is held exactly when it was pressed and not
  released since, or held before and never released; Caps Lock follows the number of its presses
  (`Keys.HeldIff`, `Keys.CapsIff`). What the next key does is told by that alone (`Keys.NextKey`).
- **The line editor end to end.** After any run, Enter on a terminal and any further run that leaves that
  terminal's line alone, a read returns the fold of its own keys, up to the first NUL
  (`Tty.SubmittedRun`, `Keyboard.Keyboard.TypeEnterRead`); which keys type a NUL is `Scancodes.TypesNulIff`.
- **Every process has its terminal to itself.** In one run of keys, ticks, system calls and output, the
  terminal protocol and the process model keep the same displayed and active terminal, and after any sound
  run each terminal is what its keys and its own stack of processes make of it (`Whole.RunAgrees`,
  `Whole.OwnTerminal`, `Integrated.System.Serve`).
- **Scrolling loses nothing.** With the scrolled-off rows kept in a log, the screen is a window on a tape;
  any mix of output, typing, erasing and submitting writes on it as on an endless tape
  (`Echo.LiveRunRefinesTape`), and what stands between the start of the line and the cursor is the edited
  line (`Echo.EchoShowsLine`).
- **Processes are three stacks, exactly as long as the steps are sound.** The respawn of a halted root does
  not reset `t_curr` to -1, so the structure survives it if and only if no pid lower than the root's is
  free; closing descriptor 8 breaks a descriptor table if and only if descriptor 6 is open. All other steps
  always keep the structure (`ProcessStacks.StepKeepsIffSound`). Both failures are reachable from boot
  (`ProcessStacks.UnsoundRespawnReachable`, `ProcessStacks.UnsoundCloseReachable`), and what closing
  descriptor 8 writes follows from the layout of the block (`ControlBlock.CloseWords`). Along sound runs user accesses never reach another process or
  the kernel (`ProcessStacks.SoundRunSafety`), the video window is the monitor exactly for a displayed
  terminal as of the last tick (`ProcessStacks.WindowSteps`), and ticks are fair (`RoundRobin.FairTicks`).
- **The blinker pool is a push-front, first-match list**, with a closed-form blink period for every 16-bit
  length (`BlinkPool.Pool.Serve`, `Blinkers.AddedBlinks`). Location 0, which `add` accepts and the
  allocator reads as free, is the one argument that breaks it (`BlinkPool.AddKeepsIff`). A sync can leave a
  wrong character on the screen; `Blinkers.SyncedCellIff` says exactly when and for how long.
- **Sequential reads.** What is read is a slice of the file's blocks in chain order
  (`FileSystem.SpanIsChain`). The end-of-file test of `read_data` compares the count, not the position; draining a
  file delivers it and then less than one chunk more, and nothing more exactly when the chunk holds the file
  or divides its length (`FileSystem.Drain`; through open, read and close on a descriptor,
  `Machine.Machine.OpenReadClose`). The same loop with the position compared delivers exactly the file for
  every chunk (`FileSystem.ReadDataFixed`, `FileSystem.DrainFixed`).
- **Arguments are not the process's own.** A process is handed the arguments it was started with if and only
  if no command was checked since its start, on any terminal, or the last one checked has the same text
  (`ArgumentRuns.OwnArgsIff`); losing them takes one Alt-F2 (`ArgumentRuns.ArgsLostReachable`).
- **Round trips** for number printing (`Numbers.ReadBack`, `Numbers.PrintBack`) and for splitting and
  joining arguments (`Arguments.SplitJoin`, `Arguments.Resplit`).

## Where the code and its comments differ

- `read_data` is described as reading up to `length` bytes of the file; past the first chunk it can deliver
  bytes beyond the end (student-distrib/filesys_read.c:97-137). The model follows the code.
- `getargs` is described as returning the arguments of `execute`; the buffer it returns has all spaces
  deleted, so it is the arguments separated by single spaces if and only if there is at most one
  (student-distrib/syscall.c:323-334, `Executable.ArgTextJoinedIff`). It also clears the caller's old string
  up to its NUL, wherever that lies, and never looks at `nbytes` (`Executable.GetargsStaysIff`).
- The sync call of the blinkers means to redraw the target in its new phase; its conditional move tests a
  sign bit that is never set, so the off character is always drawn (fish/blink.S:277-285). The redraw is
  right exactly when the source is off or the target draws both phases alike (`Blinkers.SyncShowsIff`).
- The argument joiner of the user library writes an argument's NUL before it checks the space left, so byte
  `nbytes`, one past the callers' buffers, is cleared exactly when some arguments from the front fill
  `nbytes` bytes (syscalls/ece391emulate.c:139-142, `Arguments.GetArgs`). No command that the tokeniser
  accepts does that with the callers' 1024 bytes (`Arguments.TokenisedFit`).
- Shift with a key that has no shifted character types a NUL byte, the space bar for one
  (student-distrib/keyboard.c:67-69, `Scancodes.TypesNulIff`, `Scancodes.ShiftSpaceTypesNul`), so a submitted
  line can be longer than what a read returns; `Keyboard.Keyboard.ReadLine` says exactly when.
- `getargs` is described as returning the arguments of the process; the buffer is shared, and every check of a
  command overwrites it (student-distrib/syscall.c:29-30, `ArgumentRuns.OwnArgsIff`).

## Model

| member | source | states |
|---|---|---|
| `Memory.Memset` | student-distrib/lib.c:489-523 | For every alignment and length the byte, word, byte split fills exactly the n bytes and nothing else |
| `Memory.Memcpy` | student-distrib/lib.c:572-609 | For every alignment and length, whenever the destination does not start inside the source, the result is a snapshot copy and nothing else changes |
| `Memory.Memmove` | student-distrib/lib.c:618-636 | Under any overlap the result is a copy of a snapshot of the source and nothing else changes |
| `Memory.SplatBytes` | student-distrib/lib.c:519-519 | The replicated word stores the same byte four times |
| `Screen.PutAllOffset` | student-distrib/lib.c:106-139 | Output of any length never moves the cursor below a floor of at most 24 rows that it started above, scrolling included |
| `Screen.PutKeeps` | student-distrib/lib.c:106-235 | Characters and scrolls keep every visible attribute byte at 7 and touch no byte behind the visible cells |
| `Screen.DeleteKeeps` | student-distrib/lib.c:61-71 | So do backspaces |
| `Screen.ClearBlanks` | student-distrib/lib.c:78-88 | A cleared screen is blank with the cursor at the origin, and the bytes behind the cells stay |
| `Tape.PutRefinesTape` | student-distrib/lib.c:164-210 | One character on the screen is one write on the tape of logged rows and screen: a glyph lands at the position and advances it by one, a newline goes to the next row start and is absorbed when a wrap is pending |
| `Tape.PutAllRefinesTape` | student-distrib/lib.c:145-156 | The same for any string: scrolling loses nothing |
| `Tape.DeleteRefinesTape` | student-distrib/lib.c:61-71 | A backspace blanks the tape cell before the position and steps back onto it |
| `Tape.TypeThenErase` | student-distrib/lib.c:61-71 | k glyphs and then k backspaces, k up to 24 rows, return to the same tape position, blank those cells and touch no other, whatever scrolled in between |
| `Echo.LiveRunRefinesTape` | student-distrib/keyboard.c:147-205 | Any mix of output, typing, erasing, submitting and reading leaves screen and scrolled-off rows as the acts write on an endless tape |
| `Echo.EchoShowsLine` | student-distrib/keyboard.c:147-179 | While a line is edited the tape cells from its start to the cursor show exactly the edited line and everything before is untouched |
| `Console.Console.ShiftPage` | student-distrib/lib.c:188-206 | One page scrolls by a row with a blank last row; the other three pages keep every byte |
| `Console.Console.ShiftUp` | student-distrib/lib.c:218-235 | The running, not displayed terminal scrolls and the other two screens stay |
| `Console.Console.ShiftUpDisplay` | student-distrib/lib.c:188-210 | The displayed terminal scrolls and the other two screens stay |
| `Console.Console.ScrollActive` | student-distrib/lib.c:111-123 | The scroll loop ends and runs at most once per character |
| `Console.Console.PutcScroll` | student-distrib/lib.c:106-139 | A character of program output changes the active terminal's logical screen as on a standalone terminal, on whichever page it lives, and no other screen |
| `Console.Console.PutsScroll` | student-distrib/lib.c:145-156 | The same for a string of given length, or of its C string length when the length is -1, and all of it is written |
| `Console.Console.PutcScrollDisplay` | student-distrib/lib.c:164-180 | An echoed character changes the displayed terminal's screen only |
| `Console.Console.DeleteC` | student-distrib/lib.c:61-71 | A backspace away from the origin writes inside the page and changes the displayed screen only |
| `Console.Console.ClearDisplay` | student-distrib/lib.c:78-88 | The displayed screen becomes blank with the cursor at the origin and no other screen changes |
| `Console.Console.SetDisplayTerminal` | student-distrib/lib.c:47-54 | The page swap changes which page each terminal lives on and no terminal's screen |
| `Console.Console.SetActiveTerminal` | student-distrib/lib.c:36-41 | Switching the running terminal changes no screen |
| `Console.Console.MonitorShows` | student-distrib/lib.c:47-54 | The video page holds the displayed terminal's screen, and every other terminal is on its own back page |
| `Tty.CharMatch` | student-distrib/keyboard.c:54-72 | Enter always yields a newline, whatever the modifiers |
| `Tty.TtyStep` | student-distrib/keyboard.c:147-205 | Every act on a terminal keeps the cursor on the page, the line within 128 bytes and the cursor at least a line's length from the origin |
| `Tty.Step` | student-distrib/keyboard.c:82-205 | Every step of the three terminals keeps that for all of them |
| `Tty.Independence` | student-distrib/lib.c:47-235 | After any run each terminal equals the replay of its own acts alone, and which acts are its own depends on no terminal's contents |
| `Tty.RunStaysOnScreen` | student-distrib/keyboard.c:104-179 | In every state of every run the cursor, the line length and the cell a backspace writes are in range |
| `Tty.LineIsEdit` | student-distrib/keyboard.c:149-179 | The edited line is the fold of the terminal's own keys; program output and reads never change it |
| `Tty.SubmittedLineWaits` | student-distrib/keyboard.c:163-170 | After Enter the line waits unchanged through further typing until the terminal prints or submits again; the newline is part of it exactly when Enter was echoed and fewer than 128 bytes were held |
| `Tty.ReadYieldsLine` | student-distrib/keyboard.c:218-228 | The copied bytes of a zero-padded line, more than it holds, read as the line up to its first NUL |
| `Tty.SubmittedRun` | student-distrib/keyboard.c:82-205 | Over whole runs of all terminals: after Enter what waits is the fold of the terminal's own keys, as long as it neither prints, submits nor reads, with the newline exactly when Alt was up and there was room |
| `Tty.ReadyIff` | student-distrib/keyboard.c:163-227 | A terminal is ready exactly when a line was submitted and not read since, or it was ready before and never read |
| `Tty.ReadyRun` | student-distrib/keyboard.c:82-228 | The same over whole runs of all terminals |
| `Tty.TypingAppends` | student-distrib/keyboard.c:149-159 | Typing appends up to 128 bytes and drops the rest |
| `Tty.ErasingTakes` | student-distrib/keyboard.c:172-179 | k backspaces take the last k bytes, or all there are |
| `Tty.TypeEraseEnter` | student-distrib/keyboard.c:147-179 | From an empty line, typing, erasing and Enter hand over exactly what is left, a newline and a NUL |
| `Tty.OutputLeft` | student-distrib/keyboard.c:192-205 | A write leaves its text as a C string in the print buffer and the rest of that buffer alone |
| `Tty.ResetShows` | student-distrib/keyboard.c:104-115 | After Ctrl-L the screen shows "391OS> " and blanks, the cursor behind it, and the line is empty |
| `Keyboard.KeyDownThenLine` | student-distrib/keyboard.c:94-179 | The handler's separate tests for character, Enter and Backspace amount to one act of the protocol |
| `Keyboard.Keyboard.EchoKey` | student-distrib/keyboard.c:147-160 | A character key appends and echoes while there is room; a full line only echoes Enter |
| `Keyboard.Keyboard.SubmitLine` | student-distrib/keyboard.c:163-170 | Enter hands the zero-padded line to the print buffer, empties the edit buffer and marks the terminal ready |
| `Keyboard.Keyboard.EraseChar` | student-distrib/keyboard.c:172-179 | Backspace removes the last byte of a non-empty line and its cell, and does nothing on an empty one |
| `Keyboard.Keyboard.ResetLine` | student-distrib/keyboard.c:104-115 | Ctrl-L leaves the prompt on a blank screen and an empty line |
| `Keyboard.Keyboard.HandleKey` | student-distrib/keyboard.c:82-186 | One scan code is one step of the protocol, edit buffers staying zero padded to 129 bytes |
| `Keyboard.Keyboard.TerminalWrite` | student-distrib/keyboard.c:192-205 | A write is one step of the protocol on the active terminal and reports its whole count |
| `Keyboard.Keyboard.TerminalRead` | student-distrib/keyboard.c:218-228 | A read of a ready line copies the print buffer, clears the ready flag and returns the length of the C string now in the caller's buffer |
| `Keyboard.Keyboard.ReadLine` | student-distrib/keyboard.c:218-228 | A read of more bytes than the waiting line holds returns the line up to its first NUL whatever the caller's buffer held, the whole line exactly when it has none |
| `Keyboard.Keyboard.TypeEnterRead` | student-distrib/keyboard.c:82-228 | The driver through a run, Enter, a further run and a read: the caller gets what the terminal's own keys made, up to the first NUL |
| `Keyboard.Keyboard.Serve` | student-distrib/keyboard.c:82-228 | The driver through any run of events leaves each terminal as its own acts alone would |
| `Scancodes.Standard` | student-distrib/scan_code.c:105-235 | The tables give Enter a newline and Backspace no character, which is what the protocol needs of them |
| `Scancodes.LettersShift` | student-distrib/scan_code.c:105-235 | The two tables agree: a letter key's shifted character is its capital |
| `Scancodes.LetterCase` | student-distrib/keyboard.c:54-72 | A letter key types a capital exactly when one of Caps Lock and Shift is on and the other is not; on other keys Caps Lock makes no difference |
| `Scancodes.TypesNulIff` | student-distrib/keyboard.c:54-72 | A key with a character types a NUL exactly when Shift is down, it is not Enter and the shift table has nothing for it |
| `Scancodes.ShiftSpaceTypesNul` | student-distrib/scan_code.c:105-235 | Shift with the space bar types a NUL, and the bar alone a space |
| `Keys.HeldIff` | student-distrib/keyboard.c:94-101 | After any run a key is held exactly when it was pressed and not released since, or held before and never released |
| `Keys.CapsIff` | student-distrib/keyboard.c:103-103 | Caps Lock is on exactly when it was on before or its key was pressed an odd number of times, but not both |
| `Keys.CharTyped` | student-distrib/keyboard.c:54-72 | A letter follows Caps Lock and Shift together, Enter neither, any other key Shift alone |
| `Keys.NextKey` | student-distrib/keyboard.c:94-179 | After any run, what each of the 256 codes does next, told by the presses and releases of the run |
| `Keys.NextShown` | student-distrib/keyboard.c:116-146 | With Alt down F1 to F3 show terminals 0 to 2 and nothing else changes what is shown |
| `Keys.CtrlL` | student-distrib/keyboard.c:104-115 | L empties the line exactly when Ctrl is down, and otherwise types an L unless Alt is down or the line is full |
| `Keys.ShiftUpAgain` | student-distrib/keyboard.c:94-101 | Shift down, Shift up, A: a small letter |
| `Descriptors.OpenTakesLeast` | student-distrib/syscall.c:439-493 | Opening takes the least free descriptor from 2 on at position 0 with the handlers of its type, fails exactly when all six are taken, keeps flag and bitmap in agreement and leaves every other descriptor alone |
| `Descriptors.CloseAgreesIff` | student-distrib/syscall.c:503-518 | Closing keeps flag and bitmap in agreement if and only if it is not descriptor 8 with 6 open; otherwise it succeeds exactly on open descriptors 2 to 7 and touches no other |
| `Descriptors.OpenThenClose` | student-distrib/syscall.c:453-515 | Closing undoes opening and the same number is handed out again |
| `Descriptors.HaltThenReuse` | student-distrib/syscall.c:51-148 | Halting sweeps both records, so a reused block starts with exactly 0 and 1 open although the bitmap is never initialised |
| `Paging.PagingInit` | student-distrib/paging.c:104-162 | The loops build exactly the boot tables |
| `Paging.MapPidOk` | student-distrib/paging.c:216-225 | Mapping a pid points the program slot at that pid's frame and keeps the rest of the boot tables |
| `Paging.MapVideoOk` | student-distrib/paging.c:239-271 | Mapping the video window keeps the rest of the tables; what it shows is `Paging.WindowShows` |
| `Paging.UserReach` | student-distrib/paging.c:216-271 | A user access reaches only the running pid's frame, the monitor page or physical page 0, and the program window is that frame byte for byte |
| `Paging.KernelViewFixed` | student-distrib/paging.c:121-162 | The supervisor's view of the first 8 MB is the one of boot |
| `Paging.BootView` | student-distrib/paging.c:104-162 | At boot a supervisor access to 4 to 8 MB and the five video pages goes to the address itself, nothing else below 8 MB is there, and a user access reaches none of it |
| `Paging.KernelIdentity` | student-distrib/paging.c:104-271 | The same after any sound run |
| `Paging.WindowShows` | student-distrib/paging.c:239-271 | The page at 132 MB is the monitor page for the displayed terminal and physical page 0 for another |
| `Processes.GetPid` | student-distrib/syscall.c:108-120 | The least pid not in use, or -1 exactly when all six are |
| `ProcessStacks.ExecuteKeeps` | student-distrib/syscall.c:214-258 | Executing appends the least free pid to the running terminal's stack, or leaves all stacks when the command is invalid or the table full |
| `ProcessStacks.SpawnKeeps` | student-distrib/keyboard.c:120-145 | The first Alt-Fn on a terminal makes its stack the least free pid alone, later ones and a full table leave all stacks |
| `ProcessStacks.TickKeeps` | student-distrib/timer.c:72-90 | A tick makes the top of another stack the running context and changes no stack |
| `ProcessStacks.HaltPops` | student-distrib/syscall.c:130-160 | Halting a process that is not a root removes exactly the last element of its stack, which had at least two, and resumes its parent's context |
| `ProcessStacks.RootRespawnKeeps` | student-distrib/syscall.c:150-157 | A root halting with every lower pid taken gets its own pid back and nothing moves |
| `ProcessStacks.RootRespawnOrphans` | student-distrib/syscall.c:77-93 | A root halting with a lower pid free is replaced by a process whose parent is dead |
| `ProcessStacks.OrphanBreaks` | student-distrib/syscall.c:135-152 | A running process with a dead parent fits no arrangement in stacks |
| `ProcessStacks.StepKeepsIffSound` | student-distrib/syscall.c:43-518 | Any step keeps the whole structure if and only if it is sound |
| `ProcessStacks.RunKeeps` | student-distrib/syscall.c:43-518 | Every sound run keeps the live pids three disjoint parent chains with the running process on top of its terminal |
| `ProcessStacks.BootStructured` | student-distrib/kernel.c:171-172 | The state after the first shell is one process on terminal 0 |
| `ProcessStacks.FirstTerminalAlwaysSound` | student-distrib/syscall.c:154-157 | The root of terminal 0 is pid 0, so its respawn is always sound |
| `ProcessStacks.NewProcessFds` | student-distrib/syscall.c:51-73 | A process started in a structured state has exactly descriptors 0 and 1 open in both records, the keyboard and the screen |
| `ProcessStacks.SoundRunSafety` | student-distrib/paging.c:216-271 | After any sound run from boot the program slot maps the running pid's frame, slots 0 and 1 are as at boot, the active terminal is the running one's, live descriptor tables agree and no user access reaches another pid's or the kernel's frame |
| `ProcessStacks.WindowSteps` | student-distrib/timer.c:82-83 | A tick gives the chosen process the monitor page exactly when its terminal is displayed and page 0 otherwise, `vidmap` the monitor page, and no other step moves the window |
| `ProcessStacks.WindowOfRun` | student-distrib/paging.c:239-271 | After a sound run the window is the one of the last tick or `vidmap` |
| `ProcessStacks.UnsoundRespawnReachable` | student-distrib/syscall.c:150-157 | A sound five-step run from boot ends where the next root halt destroys the stack structure |
| `ProcessStacks.UnsoundCloseReachable` | student-distrib/syscall.c:503-515 | From boot, five opens of any file are a sound run after which closing descriptor 8 destroys the agreement of the records |
| `RoundRobin.QuietStep` | student-distrib/timer.c:72-90 | Sound steps that spawn nothing keep the occupied terminals, and only a tick changes the running one |
| `RoundRobin.ChosenFollows` | student-distrib/timer.c:74-78 | Through such a run every tick chooses the cyclic successor of the last choice among the occupied terminals |
| `RoundRobin.FairTicks` | student-distrib/timer.c:72-90 | In any n consecutive ticks, n the number of occupied terminals, each of them is chosen exactly once |
| `RoundRobin.TickPassesEmpty` | student-distrib/timer.c:74-78 | A tick goes upwards round the ring to an occupied terminal and passes only empty ones |
| `Machine.Machine.GetFreePid` | student-distrib/syscall.c:108-120 | The scan returns the least free pid |
| `ControlBlock.EntryEightOverlaps` | student-distrib/syscall.h:24-41 | In the block's layout the flag word of entry 8 is word 6 of the bitmap, and bitmap word 8 is the first word behind the block |
| `ControlBlock.CloseWords` | student-distrib/syscall.c:503-518 | Two word writes addressed by the entry stride, with no case for 8, are the specified close on the table; the word behind the block is cleared exactly by a successful close of 8 and no other word outside the table changes |
| `ControlBlock.OpenWords` | student-distrib/syscall.c:453-493 | The bitmap scan and the word writes are the specified open, and no word outside the table changes |
| `ControlBlock.InitWords` | student-distrib/syscall.c:51-73 | The word writes and the loop initialise the table as specified, bitmap words 2 to 7 untouched |
| `Machine.Machine.PcbInitAt` | student-distrib/syscall.c:43-95 | The word updates, through a possibly aliased parent block, are the specified initialisation, and the saved stack pointers are the new stack top and the parent's, or the new top where the blocks are one |
| `Machine.Machine.ExecuteWithTerminalNum` | student-distrib/syscall.c:214-258 | Given the verdict on the command, the call is the specified push, and no change on an invalid command or a full table |
| `Machine.Machine.ExecuteCommand` | student-distrib/syscall.c:214-262 | A command line is parsed, checked, started as specified and loaded: the program image is the whole file or its first 4 MB; a name that does not resolve and a file without the magic number start nothing and load nothing |
| `ControlBlock.CloseAll` | student-distrib/syscall.c:141-148 | The loop over all descriptors is the specified sweep, and no word outside the table changes |
| `Machine.Machine.HaltProcess` | student-distrib/syscall.c:130-160 | The call is the specified halt with its respawn |
| `Machine.Machine.PitIntHandler` | student-distrib/timer.c:72-90 | The search for the next terminal ends and the switch is the specified tick |
| `Machine.Machine.FindNextTerminal` | student-distrib/timer.c:74-78 | The search over occupied terminals ends at the cyclic successor |
| `Machine.Machine.ShowTerminal` | student-distrib/keyboard.c:120-145 | Alt-F2 and Alt-F3 are the specified spawn |
| `Machine.Machine.OpenFd` | student-distrib/syscall.c:449-493 | With the looked-up entry the call is the specified open and returns its descriptor; opening a directory rewinds the directory index, nothing else does |
| `Machine.Machine.Open` | student-distrib/syscall.c:439-493 | The same by name: the entry is the one of least index with that name |
| `Machine.Machine.CloseFd` | student-distrib/syscall.c:503-518 | The call is the specified close, descriptor 8 included |
| `Machine.Machine.ReadFd` | student-distrib/syscall.c:366-391 | Around a handler that delivered a count, a successful read moves that descriptor's position by it and nothing else changes |
| `Machine.Machine.Read` | student-distrib/syscall.c:366-391 | With the handlers: a regular file delivers its block chain at the position, a directory its next name, and the position moves by what was delivered |
| `Machine.Machine.ReadStandard` | student-distrib/keyboard.c:231-239 | Descriptor 0 delivers what the keyboard answers and reading descriptor 1 fails |
| `Machine.Machine.OpenDirThenRead` | student-distrib/syscall.c:366-481 | Opening a directory and reading it delivers the first name of the image |
| `Machine.Machine.OpenRtcThenRead` | student-distrib/syscall.c:366-472 | Opening the clock and reading it delivers what the clock answers |
| `Machine.Machine.Write` | student-distrib/syscall.c:404-428 | Decided by the bitmap: closed descriptors, the keyboard, files and directories refuse, the screen takes the whole count, and the kernel state stays |
| `Machine.Machine.DrainFd` | student-distrib/syscall.c:366-391 | Reading a regular file's descriptor until 0 delivers the chain from its position to where the drain ends, leaves the position there and touches no other descriptor |
| `Machine.Machine.OpenReadClose` | student-distrib/syscall.c:366-518 | Opening by name, reading to 0 and closing fails exactly when the name is missing or no descriptor is free; otherwise its output begins with the file, is the file exactly when the chunk holds it or divides its length, and every descriptor is as before |
| `Machine.Machine.Serve` | student-distrib/syscall.c:43-518 | The kernel through any run of events follows the steps, and a sound run keeps the stack structure |
| `Whole.Projections` | student-distrib/keyboard.c:82-228 | A run of the whole is a run of the terminals and a run of the processes |
| `Whole.EffectAgrees` | student-distrib/lib.c:36-41 | A call changes the active terminal exactly where it calls `set_active_terminal`, to that value |
| `Whole.RunAgrees` | student-distrib/lib.c:18-19 | The displayed and active terminal of the two models are equal in every state of every run |
| `Whole.RunCoherent` | student-distrib/syscall.c:43-518 | A sound run keeps that and the stack structure together |
| `Whole.SameOwn` | student-distrib/keyboard.c:192-228 | In a sound run what the globals direct to a terminal is what its own processes and keys do |
| `Whole.OwnTerminal` | student-distrib/lib.c:47-235 | After any sound run each terminal is the replay of its keys and of the output and reads of its own processes |
| `Whole.BootCoherent` | student-distrib/kernel.c:171-172 | The state in which the first shell starts satisfies the assumptions of these runs |
| `Integrated.System.MakeCall` | student-distrib/syscall.c:214-258 | A system call or tick on the two drivers is the modelled step with its effect on the terminals |
| `Integrated.System.ServeScan` | student-distrib/keyboard.c:82-186 | A scan code, with the shell start of Alt-F2 and Alt-F3 |
| `Integrated.System.Serve` | student-distrib/keyboard.c:82-228 | The two drivers through any run follow the model, and a sound run leaves each terminal as its own processes and keys would |
| `Blinkers.TickEff` | fish/blink.S:64-86 | With the 16-bit wrap and the signed test, a record expires exactly when one effective tick is left |
| `Blinkers.Period` | fish/blink.S:49-99 | For every pair of lengths a record started on is on after k ticks exactly when k modulo the period is below its on-length |
| `Blinkers.InStepForever` | fish/blink.S:267-275 | Records with equal lengths, countdown and status stay equal at every later tick |
| `Blinkers.RunLookup` | fish/blink.S:351-379 | Through any run that does not touch a location, the record found there only ages by the ticks |
| `Blinkers.RemoveEffect` | fish/blink.S:187-237 | A remove takes exactly the record found at the location, moves no cell, and the location then finds the next one there, none if it was unique |
| `Blinkers.AddThenRemove` | fish/blink.S:105-237 | An accepted add is found at once in front of older records, and a remove takes it back |
| `Blinkers.FullTakesAgain` | fish/fish.c:160-175 | A full list takes a record again exactly after a remove that found one |
| `Blinkers.RunCell` | fish/blink.S:68-82 | and the cell of a unique location keeps showing its phase |
| `Blinkers.AddedBlinks` | fish/blink.S:105-170 | A record added at a free location shows its on and off characters with its own period through any run on other locations |
| `Blinkers.SyncedStayInStep` | fish/blink.S:240-286 | After a sync both records stay in step for ever, and the target's cell shows its off character |
| `Blinkers.SyncShowsIff` | fish/blink.S:277-285 | The redraw of a sync shows the target's new phase exactly when the source is off or the target draws both phases alike |
| `Blinkers.CellHealsIff` | fish/blink.S:64-86 | Through any run that leaves a unique location alone, its cell shows its phase if and only if it did at the start or the countdown has run out |
| `Blinkers.SyncedCellIff` | fish/blink.S:240-286 | After a sync the target's cell shows its phase exactly when the redraw did or the source's countdown has passed |
| `BlinkPool.FullIff` | fish/fish.c:160-170 | No slot is free exactly when 2000 records are live |
| `BlinkPool.AddKeepsIff` | fish/blink.S:131-162 | An add keeps the list well formed if and only if its location is not 0 or no slot is free, that is, 2000 records are live |
| `BlinkPool.ZeroThenAnyCycles` | fish/blink.S:159-162 | After an add at location 0 the next accepted add, at any location, makes the list point at itself |
| `BlinkPool.UnlinkedChain` | fish/blink.S:206-221 | Unlinking and zeroing a record leaves an acyclic list of exactly the slots in use |
| `BlinkPool.Pool.FindHelper` | fish/blink.S:351-379 | The traversal ends and returns the first record at the location, or NULL |
| `BlinkPool.Pool.Malloc` | fish/fish.c:160-170 | The first free slot, or NULL |
| `BlinkPool.Pool.Add` | fish/blink.S:105-184 | On memory it is the modelled add for every location; for a location other than 0 it is a push-front, failing exactly off the screen or with 2000 live records |
| `BlinkPool.Pool.FindPrevious` | fish/blink.S:206-212 | The search for the link ends at the record's predecessor or the head |
| `BlinkPool.Pool.Remove` | fish/blink.S:187-237 | Removes the first match and no other, keeping the order of the rest, and fails exactly when there is none; on success one slot is freed, exactly that record is gone and no cell changes |
| `BlinkPool.Pool.Find` | fish/blink.S:302-349 | Returns the first match |
| `BlinkPool.Pool.Sync` | fish/blink.S:240-300 | Copies lengths, countdown and status of the first match of one location to that of the other |
| `BlinkPool.Pool.RtcTasklet` | fish/blink.S:49-99 | One pass ticks every record once, in list order, and draws exactly those that change phase |
| `BlinkPool.Pool.Serve` | fish/blink.S:49-379 | Through any run without adds at location 0 the pool is the push-front, first-match list |
| `FileSystem.Strncmp` | student-distrib/lib.c:649-663 | Zero exactly when the strings agree up to NUL or n bytes, otherwise the signed difference at the first byte where they part |
| `FileSystem.ReadDentryByName` | student-distrib/filesys_read.c:43-66 | Lookup by name is lookup by index at the least matching index |
| `FileSystem.ReadData` | student-distrib/filesys_read.c:107-137 | Byte i delivered is the block-chain byte at (offset + i) / 4096, (offset + i) % 4096, and together they are a slice of the blocks in chain order; the rest of the buffer is untouched; invalid inodes give -1 |
| `FileSystem.SpanOfBlock` | student-distrib/filesys_read.c:131-131 | A whole block of a file is that block of the image |
| `FileSystem.SpanIsChain` | student-distrib/filesys_read.c:116-134 | Any bytes of a file are the slice of its blocks in chain order that starts where the first byte lies |
| `FileSystem.ContentsIsChain` | student-distrib/filesys_read.c:116-134 | The contents of a file are its blocks in chain order, cut at its length |
| `FileSystem.CountExactIff` | student-distrib/filesys_read.c:115-123 | A read delivers only bytes of the file exactly when offset plus the lesser of count and length stays within the length |
| `FileSystem.ReadDataFixed` | student-distrib/filesys_read.c:119-136 | The read loop with the position in its end-of-file test delivers the bytes from the offset to the end of the file at most, and leaves the rest of the buffer |
| `FileSystem.DrainFixed` | student-distrib/filesys_read.c:119-136 | Draining through that loop delivers exactly the file, for every chunk, touching no block beyond it |
| `FileSystem.DrainOvershoot` | student-distrib/filesys_read.c:115-136 | Draining delivers at least the file and less than one chunk more, nothing more exactly when the chunk holds the file or divides its length |
| `FileSystem.Drain` | syscalls/ece391cat.c:21-28 | The reading loop ends, its first bytes are the file, and it delivers exactly the file under that same condition |
| `FileSystem.LoadF` | student-distrib/filesys_read.c:174-187 | A whole-file load is exact; a missing name and an inode that is 0 or past the table give -1 and no write |
| `FileSystem.ReadF` | student-distrib/filesys_read.c:197-201 | The program loader delivers the whole file, or its first 4 MB |
| `FileSystem.Directory.ReadDir` | student-distrib/filesys_read.c:273-286 | The next name and an advanced index, or 0 and the same index at the end |
| `FileSystem.Directory.List` | student-distrib/filesys_read.c:249-286 | After `open_dir` the reads list every entry once in order and return 0 from then on |
| `Numbers.ReadBack` | student-distrib/lib.c:439-444 | Reading a printed number gives the number, and there is no leading zero |
| `Numbers.PrintBack` | student-distrib/lib.c:421-451 | Printing a numeral's value gives the numeral, so the printed form is the only one without leading zeros |
| `Numbers.PrintedShortest` | student-distrib/lib.c:421-451 | No numeral of the same value is shorter than the printed one |
| `Numbers.Strlen` | student-distrib/lib.c:476-481 | The length of the C string at the address |
| `Numbers.Strrev` | student-distrib/lib.c:457-470 | The string is reversed in place and no other byte changes |
| `Numbers.Itoa` | student-distrib/lib.c:421-451 | The buffer holds the numeral and a NUL, and no other byte changes |
| `Numbers.AlternateHex` | student-distrib/lib.c:316-324 | `%#x` prints exactly eight digits of the same value |
| `Arguments.SplitJoin` | syscalls/ece391emulate.c:138-152 | Splitting a joined list of words gives the words |
| `Arguments.Resplit` | syscalls/ece391emulate.c:87-98 | Joining what was split and splitting again gives the same arguments, for any text |
| `Arguments.SplitConserves` | syscalls/ece391emulate.c:81-98 | On text without newlines the arguments together are the text without its spaces |
| `Arguments.TokensOfCommand` | syscalls/ece391emulate.c:76-98 | A command put together from a name and words splits into "./" and the name, then the words |
| `Arguments.SplitArgs` | syscalls/ece391emulate.c:87-98 | The addresses recorded by the in-place argument loop hold the arguments as C strings |
| `Arguments.Tokenise` | syscalls/ece391emulate.c:76-100 | The recorded addresses hold "./", the name and the arguments; commands over 1023 bytes are refused |
| `Arguments.FlattenIsJoinIff` | syscalls/ece391emulate.c:138-152 | Words run together equal the words joined exactly when there is at most one |
| `Arguments.TokenisedFit` | syscalls/ece391emulate.c:76-98 | The arguments of every accepted command fit the callers' 1024 bytes, and no prefix of them fills these exactly |
| `Arguments.GetArgs` | syscalls/ece391emulate.c:131-157 | The joined arguments are delivered exactly when they and a NUL fit; byte `nbytes` is cleared exactly when some arguments from the front fill `nbytes`, and nothing behind it changes |
| `Executable.NameAndArgs` | student-distrib/syscall.c:315-334 | File name followed by argument buffer is the command without its spaces |
| `Executable.ShortCommandFits` | student-distrib/syscall.c:315-334 | Commands of at most 128 bytes, not counting spaces, stay inside both buffers |
| `Executable.ParseCommand` | student-distrib/syscall.c:315-334 | Both buffers hold those parts, zero padded, for every command whose parts fit them |
| `Executable.ArgTextJoinedIff` | student-distrib/syscall.c:323-334 | The argument buffer is the arguments separated by single spaces exactly when there is at most one |
| `Executable.ScannedTextIff` | student-distrib/syscall.c:537-537 | A scan of the argument buffer finds the text exactly when the text leaves room for a NUL or a NUL follows the buffer |
| `Executable.Getargs` | student-distrib/syscall.c:529-541 | -1 and no change when the size word is 0; otherwise memory is the old string cleared and the string found in the argument buffer with a NUL written, all else unchanged |
| `Executable.ParseThenGetargs` | student-distrib/syscall.c:315-541 | After a command is parsed the caller gets its argument text as a C string, or -1 when there is none |
| `Executable.GetargsStaysIff` | student-distrib/syscall.c:536-538 | A caller's buffer with room for the arguments is all that changes exactly when the string it held ended inside it or right behind it |
| `Executable.CheckFile` | student-distrib/syscall.c:336-349 | A name that does not resolve is refused; a file of 28 bytes or more is accepted exactly when its first four bytes are 7F "ELF", with the word of its bytes 24 to 27, lowest first |
| `Executable.VerdictRight` | student-distrib/syscall.c:336-349 | The specification of the verdict meets that, whatever the buffers held |
| `Executable.ProperFile` | student-distrib/syscall.c:340-347 | For a valid nonzero inode of at least 28 bytes those bytes are the file's own, whatever the buffers held |
| `Executable.SearchedName` | student-distrib/syscall.c:315-338 | The name looked up is the file name cut at 32 bytes |
| `Executable.VerifyFile` | student-distrib/syscall.c:309-350 | Parsing and checking together |
| `ArgumentRuns.TextOfRun` | student-distrib/syscall.c:322-334 | After any run the argument buffer holds the text of the last command checked |
| `ArgumentRuns.OwnArgsIff` | student-distrib/syscall.c:322-541 | Until its pid is started again, a process is handed the arguments it was started with if and only if no command was checked since or the last one has the same text |
| `ArgumentRuns.ArgsLostReachable` | student-distrib/keyboard.c:120-131 | From boot, a program started with arguments finds the buffer empty after the first Alt-F2 and one tick |
| `ArgumentRuns.ArgsLostByRefused` | student-distrib/syscall.c:322-344 | A refused command starts nothing and still replaces the running program's arguments |
| `ArgumentRuns.NewShellEmpties` | student-distrib/syscall.c:322-334 | Every shell the kernel starts on its own empties the buffer |
| `ArgumentRuns.Session.Serve` | student-distrib/syscall.c:130-350 | The process code with the two globals follows these steps through any run, respawns and spawned shells included |
| `ArgumentRuns.Session.Getargs` | student-distrib/syscall.c:529-541 | The running process is handed the text of the last check, whoever made it |
| `ArgumentRuns.Session.StartServeGetargs` | student-distrib/syscall.c:214-541 | Starting a program, any run, and `getargs`: its own arguments come back exactly under that condition |

## Left out

- Keyboard.Keyboard.TerminalRead: models the read once a line is ready; the busy wait before it is not a step.
- Keyboard.Keyboard.TerminalWrite: counts from 0 to 2049 only; a larger one writes past the print buffer.
- Keyboard.Keyboard.HandleKey: the terminals' half of a scan code; the shell start of Alt-F2 and Alt-F3 is added by `Integrated.System.ServeScan`.
- Scancodes.Standard: its contract fixes two entries; the letters are stated by `Scancodes.LettersShift`, the rest of the table by none.
- Tty.CharMatch: its contract fixes Enter; what Caps Lock and Shift do is stated by `Scancodes.LetterCase`.
- Machine.Machine.ExecuteWithTerminalNum: the verdict is a parameter, as in `ExecuteCommand`, which ties it to the file; the stack pointers it saves are not kept, and its refusal message is in `Whole.Effects`.
- Machine.Machine.HaltProcess: the restored stack pointers and the status value.
- Machine.Machine.PitIntHandler: the stack switch, and the start of a shell when `t_curr[0]` is -1, which no step after boot makes it.
- Machine.Machine.ReadFd: the handler's count is a parameter; `Machine.Machine.Read` supplies it for files and directories and leaves that of terminals and clock as a parameter.
- Paging.PagingInit: the writable and cache bits of the entries.
- Executable.ParseCommand: commands whose name or arguments overflow the 129-byte buffers.
- Executable.VerifyFile: the same commands.
- Executable.Getargs: memory without any NUL behind the caller's address or in the argument buffer and behind it, where `strlen` would not end.
- ArgumentRuns.Session.Serve: commands whose name or arguments overflow the 129-byte buffers; the verdict on a command is a parameter, tied to the file by `Machine.Machine.ExecuteCommand`.
- Arguments.GetArgs: a buffer of exactly `nbytes` in the overrun case, where the source writes behind it.
- FileSystem.ReadData: the blocks touched lie inside the image and the buffer holds what is delivered.
- BlinkPool.Pool.Serve: no add at location 0; `BlinkPool.AddKeepsIff` and `BlinkPool.ZeroThenAnyCycles` say what that does.
- Boot: `clear` during boot does not reset the line index.
- What the word behind the block, which closing descriptor 8 clears, means to the kernel stack above it.
- Raw stack switching, `iret`, interrupt wrappers, the TSS and GDT: they need a machine model; their effect on the globals is kept.
- Port input and output, PIC, RTC and PIT programming, the hardware cursor: effects outside memory.
- Writes by user programs through the video window, and the kernel's own `printf` and `putc`: they bypass the terminal protocol.
- Small 32-bit wrap-arounds of file positions and lengths: files are at most 1023 blocks of 4 KB.
- `add_frames`, `grep`, the other user programs, the signal stubs and the Linux calls of the emulation layer: they would only add easy members.
