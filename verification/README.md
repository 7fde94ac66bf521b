# A teaching kernel and its programs, in Dafny

The modelled system is a small 32-bit teaching kernel with three text terminals, at most six
processes, a read-only file system image and a round-robin timer, together with two of its
programs: `grep`, and the `fish` program with its blinking-character device.

Code that changes state in place is modelled as classes and array methods with the source's
loops and branches. Each is proved against a specification function, and the theorems about
that function say what the code is for.

| module | what it holds |
|---|---|
| `Text`, `Strings`, `Counting`, `Terminals` | byte strings, lines and fixed-width pieces; NUL-terminated strings; sizes of sets of pids; the number of terminals |
| `Processes`, `Kernel` | an abstract machine of three process stacks with theorems over all its runs; the pid bitmap, control blocks and processor settings, proved to refine it |
| `FileSystem`, `FdTable` | block-indexed files as flat byte strings, name lookup, directory reading; descriptor tables |
| `Grep` | the sliding-window line search against "cut into lines and keep the matches" |
| `LineEditor`, `Screen`, `Video` | the keyboard buffer as a line editor; the window as the tail of a wrapped log; three terminals sharing one screen |
| `Blink` | the linked list in its static pool, the countdown automaton, and the screen cells it draws |
| `Numerals`, `Command` | number printing; command splitting and argument passing |

## Where the code does less than it promises

Each of these is kept as the code has it, and proved with the exact condition under which the
promise holds.

- A line longer than 1024 bytes reaches grep's search in pieces: the output is line by line if and
  only if every *matching* line fits (`Grep.WindowedIsLinewise`).
- Execute takes the displayed terminal for the caller's. The tables it leaves represent a machine if
  and only if the two are the same, or nothing was started (`Kernel.ExecuteRefines`).
- Exception and keyboard halts do not test for a shell without a parent: they leave a machine if and
  only if there is a parent (`Kernel.ForcedHaltRefines`, `Kernel.KeyboardHaltRefines`).
- Ctrl-C takes the step of halt if and only if the displayed terminal is also the running one. Elsewhere
  it saves nothing of the process it interrupts, which later goes on at an older context
  (`Kernel.KeyboardHaltRefines`, `Kernel.StrayHaltLosesContext`).
- The timer counter wraps at 2^32, which is not a multiple of three, so once per wrap-around terminal 0
  runs twice in a row (`Processes.EveryTerminalHasATurn`).
- Tab tests for room once and inserts four times: the buffer stays sound if and only if four cells are
  free (`LineEditor.KeyBuffer.TabKey`). A key that types a NUL breaks it (`LineEditor.InsertionHolds`).
- The end-of-file clamp of `read_data` adds in 32 bits (`FileSystem.ClampStaysInside`), so a negative
  read size returns the rest of the file or fails, depending on the position
  (`FileSystem.FileDescriptor.FileRead`).
- A 33-byte name can match a 32-byte entry whose type byte continues it (`FileSystem.AcceptsIsEquality`).
- Blink lengths outside 1..0x8000 last one tick, because the countdown test is signed
  (`Blink.BlinksAsAsked`). A node at location 0 is linked into a slot that still looks free
  (`Blink.Device.Add`). Sync draws the off character always, although its code means to choose: the
  conditional move at `fish/blink.S:281-282` follows a test that never sets its flags (`Blink.SyncDisplay`).
- Open with an entry of unknown type claims a descriptor and then fails (`FdTable.OpenIsSound`).
- Execute copies arguments without a bound. With exactly 128 bytes getargs returns them if and only if
  the terminal number stored behind them is 0, and a 129th byte replaces that number
  (`Command.StoredIsArguments`, `Command.StoredTerminal`).
- Execute's comment says that it returns 0; the code returns -1 for a file that is not executable and
  2 when six processes are live, and the model follows the code.

## Model

| member | source | states |
|---|---|---|
| Processes.Step | student-distrib/system_call.c:14-128 | Whatever tick, execute or halt its guard allows leaves a running machine that keeps the whole invariant: live pids distinct and below six, terminal 0 and the running terminal never empty, every process but the running one stopped at a saved context |
| Processes.FreePidExists | student-distrib/task.c:17-30 | Whenever fewer than six processes live on the three stacks, there is a free pid below six |
| Processes.PushIsSound | student-distrib/system_call.c:92-128 | A process put on a stack with a pid that is not live adds exactly that pid and keeps the invariant |
| Processes.PopIsSound | student-distrib/system_call.c:26-35 | The pid of a halted process was live once only, so removing it leaves a set smaller by one and keeps the invariant |
| Processes.OnlyHere | student-distrib/task.c:17-35 | No two positions of the three parent chains hold the same pid |
| Processes.RunIsSafe | student-distrib/scheduler.c:63-123 | After any run whose steps only pass their guards, from power-on or from any sound machine: at most six processes, pids distinct and below six, everything not running has a saved context |
| Processes.AwayIsUntouched | student-distrib/scheduler.c:63-123 | Over any run in which a terminal is never scheduled, its whole chain and all its saved contexts are unchanged |
| Processes.PreemptedIsResumed | student-distrib/scheduler.c:65-120 | A terminal preempted at a context is resumed exactly there by the next tick that picks it, whatever events came between |
| Processes.HaltElsewhere | student-distrib/system_call.c:371-404 | A child that halts on another terminal leaves a preempted process to go on exactly where it was preempted |
| Processes.WaitingIsUntouched | student-distrib/system_call.c:115-128 | While a child lives, nothing below it in its terminal's chain changes, over any run |
| Processes.StepFollows | student-distrib/system_call.c:14-128 | A step leaves a terminal's chain alone, replaces its last process's context, adds one process or removes the last one, and nothing else |
| Processes.ChildReturnsToItsCall | student-distrib/system_call.c:115-128 | Execute and halt are matched over any run between them: the halt unwinds to the very call that made the child, with its status, on the chain that call left |
| Processes.PatientCanRun | student-distrib/system_call.c:297-323 | If execute waits until all three shells exist, then from any young sound machine every step of any run passes its guard: no shell finds the table full |
| Processes.BootedCanRun | student-distrib/scheduler.c:65-97 | The same from power-on, with nothing assumed of the states in between |
| Processes.EveryTerminalHasATurn | student-distrib/scheduler.c:43-54 | Each terminal runs in any four consecutive ticks, and in any three if and only if the 32-bit counter does not wrap among them |
| Kernel.LayoutIsSound | student-distrib/pcb.c:81-100 | Masking any stack pointer inside a process's kernel stack yields its own control block; stacks and 4MB frames of different pids are disjoint |
| Kernel.MaskIsSubtraction | student-distrib/pcb.c:81-89 | The 32-bit mask equals the rounding down that the layout facts are stated with |
| Kernel.LayoutIs | student-distrib/task.c:30 | The control block of a pid is at 0x7FE000 less 0x2000 for each lower pid, its stack top is the last word of that 8KB area, and its user frame is page 2048 + 1024 pid, above all of these |
| Kernel.SettingsFollowActive | student-distrib/scheduler.c:101-110 | Whenever the tables represent a machine, page entry 2048 + 1024 pid is mapped and esp0 is 0x7FFFFC - 0x2000 pid for the active pid, so no user frame reaches below 8MB |
| Kernel.BitAfter | student-distrib/task.c:17-62 | Or-ing a pid's bit sets it and only it; xor-ing flips it and only it |
| Kernel.BitsAfter | student-distrib/task.c:17-62 | As sets of pids: task_init's or adds one, task_halt's xor removes one, provided its bit was set |
| Kernel.CountIsBits | student-distrib/task.c:17-62 | Whenever the tables represent a machine, process_cnt is the number of set bits among the low six and no other bit is set |
| Kernel.ParentLinks | student-distrib/pcb.c:51-60 | Every live process's parent pointer leads to the live process below it in its chain, and is null exactly for the shell at the bottom |
| Kernel.SwitchAgrees | student-distrib/scheduler.c:65-120 | Storing the context, then loading the next process's pid, page and stack top, leaves tables that represent the machine after the tick, and resumes the context that machine has saved |
| Kernel.ShellAgrees | student-distrib/scheduler.c:95-97 | Starting a shell on an empty terminal leaves tables that represent the machine after the tick |
| Kernel.NextProcess | student-distrib/scheduler.c:66-107 | The pid stored for a terminal that does not run belongs to another process than the active one, whose block holds the context it was preempted at |
| Kernel.ExecuteAgrees | student-distrib/system_call.c:92-128 | Creating a child for the caller's terminal leaves tables that represent the machine after execute |
| Kernel.HaltAgrees | student-distrib/system_call.c:26-39 | Removing a child and activating its parent leaves tables that represent the machine after halt |
| Kernel.MisplacedChildAgreesWithNothing | student-distrib/system_call.c:103-107 | A child created for another terminal than its parent's leaves tables that represent no machine |
| Kernel.TickRefines | student-distrib/scheduler.c:63-123 | A timer tick on tables that represent a machine is possible exactly as guarded, takes that machine's step and has its outcome |
| Kernel.ExecuteRefines | student-distrib/system_call.c:90-128 | Execute has the machine's outcome; what it leaves represents some machine if and only if nothing was started or the displayed terminal is the caller's, and then it is the stepped machine |
| Kernel.HaltingHasParent | student-distrib/system_call.c:16-27 | The null test of halt succeeds exactly for a bottom shell; otherwise the parent's block is usable |
| Kernel.HaltRefines | student-distrib/system_call.c:14-53 | Halt takes the machine's step with its outcome: the shell again, or the parent's saved call with the status |
| Kernel.RemovedShellAgreesWithNothing | student-distrib/system_call.c:331-404 | Removing the last process of a terminal that only has its shell leaves tables that represent no machine, for every number that may be taken for the terminal of the missing parent |
| Kernel.ForcedHaltRefines | student-distrib/system_call.c:331-363 | The exception halt leaves tables that represent a machine if and only if the process has a parent, whatever block is read through a null pointer; with one it takes the step of halt with value 256 |
| Kernel.KeyboardHaltRefines | student-distrib/system_call.c:371-404 | Ctrl-C on any started terminal leaves a machine if and only if the terminal's last process is not its shell; it is the halt of the running process if and only if, besides, that terminal runs; otherwise it is that halt on the machine whose running process was preempted where it stopped the last time |
| Kernel.StrayHaltLosesContext | student-distrib/system_call.c:371-404 | A process interrupted at a context by a Ctrl-C on another terminal goes on there if and only if that is where it had been stopped the time before; a tick in the place of the Ctrl-C would have saved it |
| Kernel.BootRefines | student-distrib/scheduler.c:65 | The first tick, for any next terminal, starts the first shell on terminal 0 with pid 0 |
| Kernel.ServeRefines | student-distrib/system_call.c:14-404 | One guarded call of any kind can be served and takes its machine step with its outcome |
| Kernel.KernelRunRefines | student-distrib/scheduler.c:43-123 | Every run of timer ticks, executes, halts and interrupts whose calls each pass their guard is a run of the abstract machine, and the tables represent it at the end |
| Kernel.BootedKernelRuns | student-distrib/scheduler.c:65-97 | From empty tables, after a first tick, any calls that execute nothing before the three shells exist, execute from the displayed terminal and interrupt only a running child can all be served, and the tables represent the machine of that run |
| Kernel.System.TaskInit | student-distrib/task.c:17-35 | Refused and unchanged at six processes; otherwise adds exactly the least free pid, counts it and maps page entry 2048 + 1024 pid |
| Kernel.System.InitPcb | student-distrib/pcb.c:15-72 | Replaces one control block by one with the parent's id and address (or none) and empty contexts, whatever the slot held |
| Kernel.System.ExecuteShell | student-distrib/system_call.c:297-323 | Tables of a shell start, which enters the pid it makes active and maps page entry and stack of that pid, given as numbers; terminal 0 forgets the other terminals |
| Kernel.System.SwitchProcess | student-distrib/scheduler.c:63-123 | New tables and outcome of a tick, in all three cases: the context given is stored for the process that ran, the stored pid and its stored context are taken up, and page entry and stack, given as numbers, are the new active pid's |
| Kernel.System.PitHandler | student-distrib/scheduler.c:43-54 | Serves the terminal the counter names and advances the counter modulo 2^32 |
| Kernel.System.GetPcb | student-distrib/pcb.c:81-89 | From any stack pointer in the active process's stack it finds the active process |
| Kernel.System.SysExecute | student-distrib/system_call.c:61-130 | -1 without a command or an executable file, whatever the number of processes, then 2 at six processes, both changing nothing; otherwise the least free pid is entered, made active and last of the displayed terminal, with the caller as parent, the caller's frame stored, and page entry and stack of the new pid |
| Kernel.System.TaskHalt | student-distrib/task.c:44-62 | Removes exactly the given pid from the set of live ones and maps page entry 2048 + 1024 times the parent's pid |
| Kernel.System.SysHalt | student-distrib/system_call.c:14-53 | A shell is entered again under its own pid with nothing changed; a child returns its status at the frame stored for its parent, which becomes active with its page entry and stack |
| Kernel.System.ExceptionHalt | student-distrib/system_call.c:331-363 | New tables and outcome for the running process, with or without a parent; for a child those of halt with value 256, though the updates come in another order |
| Kernel.System.KeyboardHalt | student-distrib/system_call.c:371-404 | New tables and outcome for the last process of the displayed terminal, running or not, with or without a parent |
| Grep.PartIsContained | syscalls/ece391grep.c:42-45 | Every line of the form a + pattern + b, with either part possibly empty, contains the non-empty pattern |
| Grep.ContainedIsPart | syscalls/ece391grep.c:42-45 | And every line that contains a pattern has that form, with a non-empty pattern |
| Grep.ContainsIs | syscalls/ece391grep.c:42-45 | A line contains a pattern if and only if the pattern, not empty, is a prefix of one of the line's tails |
| Grep.MatchingParts | syscalls/ece391grep.c:42-51 | Selection goes line by line: a line in the middle is kept, once and in its place, exactly if it contains the pattern |
| Grep.ReportParts | syscalls/ece391grep.c:45-48 | Printing goes line by line: name, byte 58, line, byte 10 |
| Grep.PrintedLineShows | syscalls/ece391grep.c:42-51 | What is printed for one line: name, colon, line and newline if the pattern starts anywhere in it, the first and last place included, and nothing otherwise |
| Grep.WindowedIsLinewise | syscalls/ece391grep.c:20-60 | The pieces that grep selects are the matching lines of the text, in order and once each, if and only if every matching line is at most 1024 bytes long |
| Grep.LineTaken | syscalls/ece391grep.c:30-56 | Splitting off the first line a window shows, ended by a newline, by a full window or by the end of the file, splits the expected output the same way |
| Grep.WindowRefilled | syscalls/ece391grep.c:22-27 | A refill keeps window plus unread file equal to the unsearched text, and a short window means nothing is unread |
| Grep.UserStrNCmp | syscalls/ece391support.c:35-46 | Zero exactly when the two strings agree on their first n bytes, otherwise the unsigned difference of the first two bytes that differ |
| Grep.StrCpyDown | syscalls/ece391support.c:14-17 | The overlapping copy towards the front moves the old string and its NUL and leaves every later cell alone |
| Grep.Output.Puts | syscalls/ece391support.c:19-22 | Appends exactly the NUL-terminated string at an address |
| Grep.FindLineEnd | syscalls/ece391grep.c:30-32 | The first newline at or after the line's start, or the end of the valid bytes |
| Grep.MatchesAt | syscalls/ece391grep.c:43-44 | True exactly when a non-empty pattern starts at that place of the line |
| Grep.PrintLine | syscalls/ece391grep.c:45-48 | Appends file name, colon, the NUL-ended line and a newline, in that order |
| Grep.SearchLine | syscalls/ece391grep.c:42-51 | Prints the line with its file name once if it contains the pattern anywhere, else nothing |
| Grep.CarryDown | syscalls/ece391grep.c:33-38 | The unfinished line arrives at the front unchanged, and the cell behind the window is no newline afterwards |
| Grep.SearchNext | syscalls/ece391grep.c:40-52 | Output so far plus output still expected of the unsearched text is the same before and after one line |
| Grep.SearchWindow | syscalls/ece391grep.c:28-57 | The same over the inner loop, which ends with a kept part shorter than the window, empty at the end of the file |
| Grep.Refill | syscalls/ece391grep.c:22-27 | Unless the read fails, kept bytes plus read bytes plus unread file are the text kept bytes plus unread file were |
| Grep.SearchFile | syscalls/ece391grep.c:20-60 | Terminates on every file; on a well-formed NUL-free one the output is that of the matching pieces of its content in order |
| Grep.DoOneFile | syscalls/ece391grep.c:10-66 | On a well-formed NUL-free file it prints exactly the matching pieces, whatever stale bytes the buffer held, and if every matching line is at most 1024 bytes long exactly the matching lines; a failed open prints its message |
| FileSystem.JoinedAt | student-distrib/file_sys_driver.c:84-101 | Byte k of the concatenated blocks is byte k mod 4096 of block k div 4096 |
| FileSystem.ContentAt | student-distrib/file_sys_driver.c:84-101 | On a well-formed inode the block-indexed lookup is the flat file's byte |
| FileSystem.ClampStaysInside | student-distrib/file_sys_driver.c:91 | The clamped request stays inside the file if and only if offset plus length does not wrap around 2^32 |
| FileSystem.ReadData | student-distrib/file_sys_driver.c:84-101 | For every 32-bit offset and length: -1 for a null buffer, an offset past the end or a block number the image cannot have, else the clamped count; the bytes copied before that are the file's from the offset on, and no other cell is written |
| FileSystem.ClampOfSigned | student-distrib/file_sys_driver.c:91 | A non-negative size is cut at the end of the file; a negative one becomes the whole rest of the file if it is larger than the position and passes unclamped otherwise |
| FileSystem.ReadIsSlice | student-distrib/file_sys_driver.c:93-100 | A clamped copy on a well-formed inode is complete and is a slice of the flat file |
| FileSystem.FileDescriptor.FileRead | student-distrib/file_sys_driver.c:137-148 | Returns a slice of the flat file and advances the position by exactly the bytes returned; a failure moves nothing. A negative size returns the rest of the file if its magnitude exceeds the position and fails otherwise |
| FileSystem.ReadRunIsSlice | student-distrib/file_sys_driver.c:137-148 | Reads of any sizes, one after the other, concatenate to one contiguous slice: nothing skipped, nothing repeated |
| FileSystem.ReadRunAt | student-distrib/file_sys_driver.c:137-148 | The k-th read starts where the sizes before it add up to, capped at the end of the file |
| FileSystem.EmptyReadMeansEnd | student-distrib/file_sys_driver.c:137-148 | A read returns nothing if and only if it asked for nothing or everything has been returned |
| FileSystem.ComparedNames | student-distrib/file_sys_driver.c:60-67 | The length computation and bounded comparison of lookup amount to the acceptance relation, with the type byte behind a full name taken into account |
| FileSystem.ReadDentryByIndex | student-distrib/file_sys_driver.c:40-44 | The entry at an index below the entry count, else failure |
| FileSystem.Compare | student-distrib/file_sys_driver.c:61-66 | One comparison accepts exactly the accepted entries |
| FileSystem.ReadDentryByName | student-distrib/file_sys_driver.c:56-70 | Succeeds exactly when some entry below both counts is accepted, and returns the first accepted one |
| FileSystem.AcceptsIsEquality | student-distrib/file_sys_driver.c:56-70 | Acceptance is name equality on all entries if and only if the name is not a full entry's 32 bytes followed by its type byte |
| FileSystem.CompareStart | student-distrib/file_sys_driver.c:167-172 | The comparison of dir_open accepts exactly the entries whose 32 name bytes, followed by the type byte, begin with the given name |
| FileSystem.LookupOpens | student-distrib/file_sys_driver.c:167-172 | Whenever lookup succeeds, dir_open of that name ends, at that entry or before it |
| FileSystem.Directory.DirOpen | student-distrib/file_sys_driver.c:167-172 | Ends at the first entry in memory that starts with the name, listed or not |
| FileSystem.NameCopied | student-distrib/file_sys_driver.c:119-122 | The NUL stored at offset 32 makes every request of 32 bytes or more yield exactly the name; a shorter one of a longer name runs on into what the buffer held |
| FileSystem.Directory.DirRead | student-distrib/file_sys_driver.c:113-125 | For any request size: the next entry's name as a string and its length, -1 but an advanced position for a null buffer, and 0 without effect at the end |
| FileSystem.Directory.DirClose | student-distrib/file_sys_driver.c:157-160 | Rewinds the shared position |
| FileSystem.DirRunLists | student-distrib/file_sys_driver.c:113-125 | Of any number of reads the i-th returns the i-th later name, so every entry comes once and in order, and behind the last one nothing for ever |
| Strings.StrNCmp | student-distrib/lib.c:477-491 | Zero exactly when the two strings agree on their first n bytes, otherwise the signed difference of the first two bytes that differ |
| Strings.StrNCpy | student-distrib/lib.c:514-525 | The first n bytes of the string, NULs up to n, and every later cell as it was |
| Strings.CStringOfConcat | student-distrib/lib.c:304-309 | A string whose NUL is missing runs on into the string stored behind it |
| Strings.StrLen | student-distrib/lib.c:304-309 | The length of the stored string, for memory that holds a NUL anywhere |
| FdTable.OpenIsSound | student-distrib/system_call.c:176-213 | Open keeps the descriptor table sound if and only if it is refused, the entry's type is known, or the slot's stale table pointer was a full one |
| FdTable.NoMissingOperation | student-distrib/file_sys_driver.c:280-302 | In a sound table every accepted read, write or close finds its operation present |
| FdTable.ServedIsSound | student-distrib/system_call.c:176-228 | Any sequence of opens and closes over known entry types keeps descriptors 0 and 1 open and every open slot fully equipped |
| FdTable.Descriptors.constructor | student-distrib/pcb.c:20-33 | A new process has descriptor 0 on the input table and 1 on the output table, both open, and no other in use; that table is sound |
| FdTable.Descriptors.SysOpen | student-distrib/system_call.c:176-213 | Takes the least free descriptor above 1 and fills it by type: 2 gets the file table at position 0, 1 the directory table, 0 the RTC table with 170, each with the entry's inode; every other slot stays. Fails exactly when all six are used, the name is unknown or the type is |
| FdTable.Descriptors.SysClose | student-distrib/system_call.c:220-228 | Refuses 0, 1, bad and unused descriptors unchanged; otherwise clears that slot's flag exactly when the driver's close returns 0, and nothing else |
| FdTable.Descriptors.CloseFds | student-distrib/pcb.c:120-127 | Afterwards no descriptor is in use, 0 and 1 included, and tables and positions are as before |
| FdTable.Descriptors.SysRead | student-distrib/system_call.c:140-148 | The exact refusals, and for a sound table the jump is through a present read |
| FdTable.Descriptors.SysWrite | student-distrib/system_call.c:158-166 | The exact refusals, and for a sound table the jump is through a present write |
| LineEditor.EditingIsValid | student-distrib/keyboard.c:219-264 | Over any sequence of keys the line stays within 127 non-NUL bytes with the cursor inside it |
| LineEditor.KeyLaws | student-distrib/keyboard.c:219-264 | What each key does to a line that is a before and b behind the cursor: insertion of the byte or of four spaces at that place, removal of the byte before it, one step left or right of the cursor alone, and where each of them does nothing |
| LineEditor.GoingBackInserts | student-distrib/keyboard.c:320-343 | After a text, as many Lefts as its tail has bytes and one more byte, the line has that byte in front of that tail and the cursor behind it |
| LineEditor.TypingInserts | student-distrib/keyboard.c:352-401 | Typing a text key by key inserts it as a whole at the cursor, in the middle of a line too |
| LineEditor.BackspacesUndo | student-distrib/keyboard.c:410-443 | As many backspaces restore line and cursor exactly |
| LineEditor.FullTest | student-distrib/keyboard.c:291-309 | The single-cell tests for full, empty and end of line are right for every represented line |
| LineEditor.InsertionHolds | student-distrib/keyboard.c:369-394 | One insertion at the cursor represents the line with the byte inserted when the byte is not NUL and the line not full; otherwise the buffer represents no line at all |
| LineEditor.TypedIsHeld | student-distrib/keyboard.c:374-388 | Moving everything from the cursor up to the first NUL by one cell is insertion into the line |
| LineEditor.TypedOnFull | student-distrib/keyboard.c:374-388 | On a full line it fills the last cell, so that no NUL is left |
| LineEditor.CrowdedStays | student-distrib/keyboard.c:374-388 | Without a NUL left, further insertions at any cursor, beyond the end too, leave none |
| LineEditor.TypedBehind | student-distrib/keyboard.c:374-388 | Behind the buffer an insertion writes only the cell at the cursor, and only if that is NUL |
| LineEditor.SpacedOnce | student-distrib/keyboard.c:250-254 | After any number of spaces typed without a test in between: one insertion if they fit, no free cell if not, and behind the buffer exactly the NUL cells the cursor has passed are written |
| LineEditor.ErasureHolds | student-distrib/keyboard.c:424-436 | The buffer shifted back represents the line without the byte before the cursor |
| LineEditor.KeyBuffer.Clear | student-distrib/keyboard.c:93-99 | The buffer represents the empty line |
| LineEditor.KeyBuffer.Shift | student-distrib/keyboard.c:374-388 | For every buffer content and cursor, inside the buffer or behind it, the loop inserts as specified and writes nothing else |
| LineEditor.KeyBuffer.AddAtCursor | student-distrib/keyboard.c:352-401 | Inserts into the line, opening a closed buffer first, if and only if the byte is not NUL and there is room; otherwise the buffer is broken |
| LineEditor.KeyBuffer.DeleteBeforeCursor | student-distrib/keyboard.c:410-443 | Removes the byte before the cursor; nothing at the start of the line |
| LineEditor.KeyBuffer.MoveCursor | student-distrib/keyboard.c:320-343 | The line stays; left lowers the position by one down to 0, right raises it by one up to the end of the line and to 126 |
| LineEditor.KeyBuffer.TabKey | student-distrib/keyboard.c:250-254 | For every open line that is not full: four spaces as one insertion if and only if four cells are free, otherwise the buffer is broken; memory behind it is written exactly where the cursor, standing at 125 or 126, passes a NUL cell |
| LineEditor.KeyBuffer.Press | student-distrib/keyboard.c:219-264 | A key acts on the buffer as on the abstract editor if it is one the editor takes (no NUL, no Tab that fits only in part), and otherwise breaks it |
| LineEditor.KeyBuffer.Enter | student-distrib/keyboard.c:234-243 | The line with one newline behind it, for the full 127-byte line too, and the buffer is closed |
| LineEditor.KeyBuffer.OpenForRead | student-distrib/terminal_driver.c:202-208 | An open buffer is kept as it is; a closed line that nobody read is dropped |
| LineEditor.KeyBuffer.CopyLine | student-distrib/terminal_driver.c:210-222 | The loop stops at the NUL behind the newline, or at the request's end; only for a full line it goes on, writing NULs |
| LineEditor.KeyBuffer.FinishRead | student-distrib/terminal_driver.c:209-225 | Delivers min(length, line + 1) bytes of line and newline, the last one forced to newline, and names every other cell it writes: for a length of 0 that is the one before the buffer |
| LineEditor.KeyBuffer.TerminalRead | student-distrib/terminal_driver.c:195-226 | Any keys the editor takes, pressed on the open buffer and ended by Enter, and a read of any length: the program receives the line that those keys edit, with its newline, cut and newline-ended when the length is shorter |
| LineEditor.TypedLineIsRead | student-distrib/terminal_driver.c:195-226 | In particular a text of up to 127 bytes typed on an empty line comes back as it is |
| Screen.PictureOfNewRow | student-distrib/terminal_driver.c:129-140 | Beginning a row changes nothing shown while the window has room, and afterwards scrolls it by one blank row |
| Screen.PictureOfLongerRow | student-distrib/lib.c:216-217 | Lengthening the last row changes one cell, and that cell is inside the window |
| Screen.CursorOfNewRow | student-distrib/lib.c:222-225 | The scroll test holds exactly when the window is full, also after the row number has wrapped to 0 |
| Screen.RowsConserve | student-distrib/lib.c:210-226 | The rows contain every printed byte but the line breaks, in order, at most 80 to a row |
| Screen.GlyphIsShown | student-distrib/lib.c:210-226 | Bytes 10 and 13 begin a row; any other is found at the cursor's old place, or a row higher if it scrolled the window, and moves the cursor by one column or to the next row |
| Screen.Display.Clear | student-distrib/lib.c:47-57 | All 2000 cells are blank with attribute 7, the cursor is at the origin, and that is the window of the empty log |
| Screen.Display.ScrollUp | student-distrib/terminal_driver.c:129-140 | Every row moves up by one and the last is blank, although source and target overlap |
| Screen.Display.PutGlyph | student-distrib/lib.c:215-221 | One more byte in the last row is shown at the cursor, which wraps at column 80 |
| Screen.Display.Settle | student-distrib/lib.c:222-225 | Window and cursor fit the rows again, scrolled or not |
| Screen.Display.PutByte | student-distrib/lib.c:210-226 | On any rows: the window and cursor of the rows with that byte appended |
| Screen.Display.Putc | student-distrib/lib.c:210-226 | After clear and any number of putc calls the window is the last 25 rows of everything printed, wrapped at 80 columns and blank-padded, with the cursor behind the last byte; each call's cursor movement and the cell of its glyph are given as numbers |
| Video.TerminalsAreSeparate | student-distrib/terminal_driver.c:259-278 | Over any steady run of switches, ticks and writes, each terminal's screen, cursor and print position are what its own processes made of them |
| Video.SwitchingKeepsScreens | student-distrib/terminal_driver.c:259-306 | Any sequence of display switches and ticks without writes leaves all three terminals unchanged |
| Video.Screens.CopyPage | student-distrib/lib.c:400-440 | One page becomes a copy of another and no other page changes |
| Video.Screens.SwapPages | student-distrib/terminal_driver.c:263-271 | The shown page goes to the backup page of the terminal that was displayed and the next one's backup page to the screen, so for every terminal the page it owns after the switch holds what the page it owned before held |
| Video.Screens.SwapCursors | student-distrib/terminal_driver.c:269-272 | The register is saved for the terminal that was displayed and loaded from the next one's saved position, so every terminal keeps its cursor |
| Video.Screens.SwitchVideo | student-distrib/terminal_driver.c:259-278 | Every terminal's screen, cursor and position are kept; the kernel's video mapping is right afterwards unless the running terminal is the one displayed; when vidmap's entry stays right |
| Video.Screens.SwitchProcessCursor | student-distrib/terminal_driver.c:290-306 | Column and row are saved for the terminal that ran and loaded for the next one, so every terminal keeps its print position |
| Video.Screens.SwitchProcess | student-distrib/scheduler.c:83-94 | Afterwards both video entries lead to the next terminal's own page, and no terminal's screen, cursor or position has changed |
| Video.Screens.Poke | student-distrib/lib.c:216-217 | Exactly the byte at that offset of the mapped page is replaced; it changes the running terminal's screen if the mapping is right, and nobody's otherwise |
| Video.Screens.StaleWrite | student-distrib/terminal_driver.c:275 | A switch followed by a store, before any tick: if it brought the running terminal to the front no terminal shows the byte, otherwise exactly the running one does |
| Video.Screens.UpdateCursorTer | student-distrib/terminal_driver.c:89-96 | Stores the position for the running terminal and no other, and in the register exactly if that terminal is displayed |
| Video.Screens.UpdateXY | student-distrib/lib.c:21-24 | Sets the running terminal's print position and no other's |
| Blink.TickIs | fish/blink.S:60-92 | The three cases of a tick on the stored numbers: the 16-bit count goes down, or it is due and status bit and count change over |
| Blink.TickAdvances | fish/blink.S:60-92 | One tick moves a character from any phase of its on-off period to the next |
| Blink.PhaseAfter | fish/blink.S:49-99 | After n ticks since it was added a character is n modulo its period into it, for all 16-bit lengths |
| Blink.OnAfter | fish/blink.S:49-99 | It is on if and only if that remainder is below its effective on-length |
| Blink.BlinksAsAsked | fish/blink.S:60-92 | It blinks with the lengths its user asked for, for ever, if and only if both are between 1 and 0x8000 |
| Blink.DrawAllElsewhere | fish/blink.S:60-92 | A tick changes no cell that is no listed location |
| Blink.TickKeepsAgreement | fish/blink.S:60-92 | Wherever one character is listed at a location and shown there, it is shown there after the tick, whatever happens at other locations |
| Blink.TickKeepsDisplay | fish/blink.S:60-92 | With distinct locations, a tick keeps every listed character displayed |
| Blink.AddKeepsAgreement | fish/blink.S:135-169 | An added character is shown, and agrees with the screen exactly if nothing else was listed at its location |
| Blink.RemoveKeepsAgreement | fish/blink.S:207-223 | Removing a node disturbs no other character's agreement with the screen |
| Blink.SyncKeepsAgreement | fish/blink.S:267-284 | A sync keeps agreement everywhere, except at its target when it copied an on status and the target's characters differ |
| Blink.AgreedIsDisplayed | fish/blink.S:49-99 | Agreement at every listed location is the same as distinct locations with every character displayed |
| Blink.AgreedIsPeriodic | fish/blink.S:49-99 | At an agreed location whose node no sync wrote to, the cell shows the on character exactly in the first part of the period since the node was added |
| Blink.SyncDisplay | fish/blink.S:267-284 | Sync keeps that agreement if and only if it copied an off status or the target's characters are equal |
| Blink.RecordedAfterTick | fish/blink.S:49-99 | Every node that no sync wrote to stays the ticked image of what was added, one tick older |
| Blink.RecordedIsPeriodic | fish/blink.S:49-99 | On any reachable device such a node is on exactly in the first part of its period since it was added |
| Blink.BypassedIsThreaded | fish/blink.S:207-223 | Redirecting one link around a node and clearing its slot leaves an acyclic list of exactly the other nodes, with every other slot free |
| Blink.FullPool | fish/fish.c:160-170 | The pool has no free slot if and only if the list is as long as the pool |
| Blink.Device.Malloc | fish/fish.c:160-170 | The first slot with location 0, or failure when there is none |
| Blink.Device.Link | fish/blink.S:135-162 | The node becomes the new head of the list; at location 0 the pool holds no list any more |
| Blink.Device.Add | fish/blink.S:105-184 | Fails if and only if the location is 2000 or more or the list holds 2000 nodes; else the character heads the list, on and with a full countdown, is drawn, and agrees with the screen if its location was not listed; at location 0 the list is broken |
| Blink.Device.FindHelper | fish/blink.S:351-379 | Every traversal ends, at the newest node with that location or with none |
| Blink.Device.Find | fish/blink.S:302-349 | Returns that node's character, or fails exactly when there is none |
| Blink.Device.FindLink | fish/blink.S:207-213 | The search for the link before a listed node ends at its predecessor |
| Blink.Device.Unlink | fish/blink.S:207-223 | The list and its characters lose exactly position k and the slot is free |
| Blink.Device.Remove | fish/blink.S:187-237 | Unlinks exactly the newest match and returns its slot to the pool, or fails without effect when there is none; agreement with the screen is kept everywhere |
| Blink.Device.CopyTiming | fish/blink.S:267-284 | The target alone changes, in its timing and status, and one cell is drawn |
| Blink.Device.Sync | fish/blink.S:240-300 | Copies both lengths, countdown and status from newest match to newest match and leaves the target's location and characters, changes no other node and no other screen cell, and fails without effect when either is missing |
| Blink.Device.TickNode | fish/blink.S:60-92 | One node ticks and, if it flips, its new character is drawn |
| Blink.Device.TickList | fish/blink.S:60-92 | The loop ticks every listed node once, in list order, and draws the ones that flip |
| Blink.Device.Tasklet | fish/blink.S:49-99 | Every listed node ticks exactly once and the ones that flip are drawn; the list keeps its order, and agreement with the screen is kept everywhere |
| Numerals.DigitIs | student-distrib/lib.c:250 | The digit characters are those of the lookup string, one by one |
| Numerals.NumeralIsDigits | student-distrib/lib.c:265-273 | A numeral consists of the first figures and capital letters of its radix, which together with its value determines it |
| Numerals.NumeralDenotes | student-distrib/lib.c:249-279 | Evaluating the printed digits gives the value back, for every value and radix 2 to 36, with a leading zero only for 0 |
| Numerals.EvalPadded | student-distrib/lib.c:129-132 | Leading zeros do not change what a numeral denotes |
| Numerals.HexLength | student-distrib/lib.c:124-134 | A number below 16 to the k takes at most k hexadecimal digits |
| Numerals.EightDigits | student-distrib/lib.c:124-134 | Every 32-bit value fits eight digits, and padded to eight they are hexadecimal figures or letters and still denote it |
| Numerals.StrRev | student-distrib/lib.c:285-298 | The string is reversed in place and nothing around it changes |
| Numerals.PutDigits | student-distrib/lib.c:265-273 | The buffer holds the numeral in reverse, and everything around it is unchanged |
| Numerals.TurnAround | student-distrib/lib.c:277-278 | The digits come to stand highest first, and nothing around them changes |
| Numerals.StoreNumeral | student-distrib/lib.c:249-279 | The buffer holds the numeral and a NUL, and no other cell changes |
| Numerals.Itoa | student-distrib/lib.c:249-279 | What is stored consists of figures and letters of the radix, denotes the value, starts with a zero only for 0 and is ended by a NUL |
| Numerals.HexPadded | student-distrib/lib.c:118-137 | Prints exactly eight characters, all 0 to 9 or A to F, that denote the value |
| Command.SplitIsUnique | student-distrib/system_call.c:66-88 | However a command is composed of blanks, a word, blanks and a remainder, that word is the program and that remainder the arguments |
| Command.Decomposed | student-distrib/system_call.c:66-88 | Conversely every NUL-free command is composed so of its program name and its arguments |
| Command.SplitName | student-distrib/system_call.c:66-79 | The first loop stores exactly the first word and stops behind it |
| Command.SplitArguments | student-distrib/system_call.c:80-88 | The second loop stores exactly the remainder without its leading blanks |
| Command.ArgumentBlock.StoreParts | student-distrib/system_call.c:66-109 | Both loops and the copy leave the first word as file name and the remainder in the control block |
| Command.StoredIsArguments | student-distrib/x86_desc.h:268-269 | The stored string is the arguments if there are at most 127 bytes of them, for exactly 128 if and only if the terminal number behind them is 0, and in general the arguments followed by whatever string stands behind |
| Command.StoredTerminal | student-distrib/system_call.c:105-109 | The copy, which comes after the store of the terminal number, leaves that number alone if and only if the arguments fit their field or repeat it in their 129th byte |
| Command.ArgumentBlock.Store | student-distrib/system_call.c:66-109 | For any command whose arguments stay inside the block's memory: name and arguments as specified, and the exact condition for the terminal number to survive |
| Command.ArgumentBlock.Getargs | student-distrib/system_call.c:237-246 | Fails if and only if the buffer is null, the stored string is empty or it does not fit with its NUL; else the buffer's string is exactly the stored one, which for at most 127 argument bytes is the arguments; a failure writes nothing |
| Text.PiecesSnoc | student-distrib/lib.c:210-226 | How one more byte changes a text wrapped at a width: a new row at a break, a longer last row, or a closed one |
| Text.PiecesAtSeparator | syscalls/ece391grep.c:30-52 | A short line and its newline come off the front of a text as one piece |
| Text.PiecesAtWidth | syscalls/ece391grep.c:30-52 | A full window without a newline comes off the front as one piece |
| Text.PiecesConserve | student-distrib/lib.c:210-226 | Cutting a text conserves it: the pieces hold its non-separators once each and in order, none wider than the width |

## Left out

- DoOneFile: a file that contains NUL bytes, and a buffer whose 1025th, never initialised byte happens to be a newline, are outside the printed-output clause; for those only termination and memory bounds are claimed. The driver's close always succeeds, so the message for a failed close is not modelled.
- ReadData: the image is taken to have fewer than 2^20 data blocks, which is what 32-bit memory can hold.
- DirRead: a negative size, which strncpy would take for a huge one.
- DirOpen: a name that starts no entry in memory would make its loop run on; `LookupOpens` shows that it is only called with a name that starts a listed one.
- KeyBuffer: refinement is claimed while the buffer is open; keys typed between Enter and the end of terminal_read are not modelled.
- TerminalRead: the wait is the sequence of keys that arrive in it; further terminal output and the other terminals' keys do not appear.
- Enter: a buffer that Tab has filled to its last cell gets no newline; what terminal_read then returns is not modelled.
- DeleteBeforeCursor: its drawing and its page remapping are not modelled.
- InitPcb: the descriptors and the argument field of a new control block are in modules FdTable and Command.
- SysHalt: clearing the terminal is not modelled, and closing the descriptors is `FdTable.Descriptors.CloseFds`, apart from these tables.
- KeyboardHalt: a terminal that has not started. The code closes the descriptors of the process that was interrupted, which need not be the one that is halted.
- ExceptionHalt: what is read through a null parent pointer is a parameter. A terminal number of three or more is stored outside the table, which is modelled as leaving the table alone. Address 0 is not mapped by `student-distrib/paging_init.c`, and the page fault that this causes is not modelled.
- PitHandler: a shell that starts with the process table full is excluded by `CanTick`, because execute_shell does not test for it; `BootedKernelRuns` says when this cannot happen.
- SysExecute: the null test of the command, the executable test and the loading of the program are two boolean parameters; parsing is in module Command.
- Store: arguments longer than the memory that holds the control block.
- Getargs: memory behind the field without any NUL.
- System: stack pointers are saved and restored as tokens; each entry point is one atomic step, without interrupt flags, TLB flushes or real stack contents; video mapping is in module Video.
- System: `par_pcb` is modelled as the block with the parent's id; `ParentLinks` states that pointer and id agree.
- SwitchVideo: the cursor register is a variable; the drawing that keyboard and terminal code do on other terminals' pages, and `clear_terminal_scheduling`, are not modelled.
- TerminalsAreSeparate: runs that write between bringing the running terminal to the front and the next tick are excluded; `StaleWrite` says what becomes of such a write.
- Sync: pool addresses are slot numbers, the user-memory copies of the calls always succeed, and the byte drawn is the one the code always draws.
- SysOpen: what the drivers' own operations do is not modelled here, only through which table they are reached.
- Signals and everything compiled only with TEST_EXTRA.
- RTC frequency virtualisation, port I/O and device set-up: straight-line register writes.
- The other printf conversions and the directory walk of grep's main.
- The vidmap call itself, the remaining user programs and the host emulation files.
