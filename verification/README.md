# Verified model of a teaching kernel

A Dafny 4.11 model of the hard parts of a small x86 teaching kernel and of two of its user
programs. Code that updates memory in place is modelled as classes and methods over arrays. Each
method is proved to compute a function on values, and the promises are proved about those
functions and about whole runs of them.

| module | models |
|---|---|
| `Bytes`, `Limits` | bytes, 32-bit wrap-around, NUL-terminated strings, division facts; shared sizes |
| `Screens`, `Terminals`, `Papers`, `Sessions`, `Console` | `lib.c`, `terminal.c`, `keyboard.c`: one physical screen and keyboard shared by three terminals |
| `Paging`, `Processes`, `ProcessRuns`, `Kernel` | `paging.c`, `syscalls.c`, `scheduler.c`, `terminal.c`: processes, scheduler, address map |
| `Joint` | kernel and console as one machine |
| `FileSystem`, `Directory`, `Descriptors`, `Images`, `NamedFiles` | `filesys.c` and the descriptor calls of `syscalls.c`, images built from files, and the way from a name to the bytes read |
| `Grep` | the grep program and its string routines |
| `Blinks`, `BlinkPool` | the blink list of the fish program, its pool allocator and its timing |
| `Formats`, `Numbers`, `Memory` | the format strings of printf, number printing and the word-wise memory routines of `lib.c` |

## Main results

- **Console.** Every run of the multiplexed console (`Console.Console.PerformAll`) is a run of three
  separate terminals, each driven only by its own keys, writes and reads
  (`Terminals.TerminalsAreIndependent`). Both print paths compute the same function. A terminal
  that gets writes and keys other than backspace shows the last 25 rows of the unbounded layout of
  its writes and echoes since the last Ctrl-L, whatever happened to the others
  (`Terminals.MultiplexedTranscript`). With backspaces it shows the edited text from its first row
  in view on, as long as each backspace finds its character erasable
  (`Terminals.MultiplexedScreen`), a condition that is exact (`Terminals.EraseExact`).
- **Paper.** Without any condition, after every run each terminal shows a page of the unbounded
  paper its own inputs make (`Papers.MultiplexedPaper`). A character on the screen stays, whatever
  is typed, written and read up to the next Ctrl-L, until it is scrolled out, if and only if at
  least as many cells lie between it and the cursor as characters are buffered
  (`Papers.MultiplexedCellExact`). So with an empty line the prompt and everything else before the
  cursor is safe (`Papers.PromptStays`).
- **Reads.** Over every run the lines read from a terminal are those of a plain line discipline on
  its own keys (`Sessions.MultiplexedReads`). This needs the reader's terminal to be displayed,
  because `terminal_read` takes the displayed terminal's buffer: a read leaves the other terminals
  alone if and only if its own is displayed or the displayed line is empty
  (`Sessions.ReadGuardExact`), and soon after boot the kernel can reach a state in which a read takes
  another terminal's line (`Joint.LineIsLost`). The newline of a line of 127 characters is never delivered
  (`Sessions.FullLineLosesNewline`). A terminal's flag is set exactly if an ENTER is among its own
  inputs since its last read, so no read returns before one (`Sessions.MultiplexedFlag`,
  `Sessions.ReadNeedsEnter`).
- **Format strings.** `terminal_write` uses the written buffer as a format. The scan stops at the
  string's terminator if and only if the string does not end inside a conversion
  (`Formats.StopsAtTerminator`), and printing undoes the doubling of percent signs
  (`Formats.EscapedPrints`). Each specifier prints what denotes its argument
  (`Formats.SpecifierPrints`, `Formats.OneConversion`).
- **Typed line.** After any sequence of edit keys the screen shows prompt and buffered line
  (`Terminals.TypedLineCoupled`), also when it is switched away and back and others print
  (`Terminals.MultiplexedTyping`). Backspace does not scroll back, so the statement is about a
  25-row window at some row of the layout, not always the last 25 rows. Ctrl-L clears the screen
  but not the buffer, so the coupling survives it exactly when nothing was typed
  (`Terminals.ClearDecouples`).
- **Processes.** Every guarded run from the first shell on keeps the process forest, the stack
  placement and the address map (`Kernel.Kernel.Serve`). Three guards are needed: `execute` and the
  halt of a root shell use the displayed terminal for what should be the executing one, and
  launching a terminal needs a free number. Each is shown exact: the call keeps the invariant if
  and only if the guard holds (`ProcessRuns.ExecuteGuardExact`, `ProcessRuns.RelaunchGuardExact`,
  `ProcessRuns.LaunchGuardExact`), and each can fail after a short guarded run from boot
  (`ProcessRuns.ShellBehindDisplayed`, `ProcessRuns.FullTable`).
  Halting an executed process returns terminal, page and stack to its caller whatever happened
  meanwhile, including executes and halts of further processes in the same terminal
  (`ProcessRuns.HaltReturnsToCaller`). Three calls allow interrupts before they are done. A tick
  there keeps the invariant in a halt and in a program's execute if and only if it does not switch
  (`ProcessRuns.HaltWindow`, `ProcessRuns.NestedExecuteWindow`). In a launch it always does
  (`ProcessRuns.LaunchWindow`), but a switching tick, and no other, replaces the stack pointer saved
  for the caller by its own (`ProcessRuns.LaunchKeepsPointer`).
- **Preemption.** A process that was preempted, or over which another terminal was launched, goes on
  where it was: over every guarded run in which its terminal does not execute, the tick that picks
  it again restores its stack pointer and its page (`ProcessRuns.PreemptedResumes`,
  `ProcessRuns.LaunchedOverResumes`). vidmap always maps video memory, which is the program's own
  screen if and only if its terminal is displayed (`ProcessRuns.VidmapExact`).
- **Kernel and console together.** Over every joint run from boot the process invariant and the
  console's hold, both sides agree on the displayed and the executing terminal, terminals without a
  shell stay blank, and the real objects follow the run on values (`Joint.Serve`,
  `Joint.RunMatches`). The process side is a guarded run, and it determines the console's switches
  (`Joint.RunProjects`), so the results above apply to both sides. Only live processes of a
  terminal write to it (`Joint.WriterIsLive`).
- **Scheduler.** With k active terminals any k consecutive ticks run each one exactly once,
  whatever system calls fall between them (`ProcessRuns.SchedulerIsFair`).
- **Files.** `read_data` agrees with slicing the flat contents, and returns -1 exactly for a bad
  inode or a bad block number in the range it needs (`FileSystem.ReadData`). On a well-formed file
  its result is right if and only if the 32-bit sum of offset and length does not wrap to inside
  the file (`FileSystem.ReadResultExact`). A request for 2^32 - 4097 bytes from offset 4097 of a file
  of 4098 bytes returns -1 (`FileSystem.WrappedReadFails`). If the sum wraps to inside the block of
  the offset, the request passes for one block and the copy runs over the end of the image
  (`FileSystem.WrapIntoBlock`). From boot on, every run of descriptor calls on the six real
  tables is a run on values, in which interleaved reads through all descriptors of all processes do
  not interfere (`Descriptors.PerformAll`, `Descriptors.ReadsDoNotInterfere`).
- **From files to bytes.** An image built from given files and entries holds exactly these
  (`Images.ImageHoldsFiles`, `Images.ImageHoldsEntries`), and opening a file's name and reading
  gives the file's first bytes (`NamedFiles.NamedFileIsRead`). Over all runs every open descriptor
  delivers the file its name denotes, if and only if the image does not have entries both of a file
  and of an unknown type (`NamedFiles.NamedReadsExact`): opening an unknown type keeps the
  operations and the inode of the descriptor's last use (`NamedFiles.UnknownReadsFile`).
- **Grep.** The plain line filter reports a line exactly if it contains the pattern. On every
  NUL-free file with no line over 1024 bytes grep prints that filter, for non-empty patterns that
  start with an ASCII character (`Grep.GrepFilters`, `Grep.DoOneFile`). Both conditions are exact.
  A pattern works on all such files if and only if it starts so or no line can contain it, because
  the pattern is signed and the buffer is not, and an empty pattern is never found
  (`Grep.GrepPatternsExact`). An ASCII file works for all non-empty patterns if and only if its
  lines fit the buffer (`Grep.GrepIsLineFilter`).
- **Memory.** The word-wise memcpy copies right on every memory if and only if the destination is
  not inside the rest of the source, or a single move does it all, as for an aligned word
  (`Memory.MemcpyExact`).
- **Blink list.** The list threaded through the pool implements a plain sequence, all traversals
  end, and `add` keeps list and pool in agreement if and only if the location is not 0, the marker
  of a free slot (`BlinkPool.BlinkList.Add`, `BlinkPool.AddOfZeroBreaks`). The on/off timing has a
  closed form over every run (`Blinks.BlinkTiming`). A sync puts the destination in the source's
  phase, and ticks keep it there (`Blinks.SyncExact`, `Blinks.SyncLasts`), but right after it the destination shows
  what its status asks for exactly if the source is off or its own two characters are equal
  (`Blinks.SyncShowsDueExact`).

Where code and comments disagree the code is modelled: `terminal_write` ignores its byte count and
stops at the NUL (student-distrib/terminal.c:203-204 says otherwise), `FD_OCCUP` is 0 and marks a
free descriptor, and `mp1_ioctl_sync` always shows `off_char`, because the conditional move at
fish/blink.S:282 tests flags that `testb` never sets that way.

## Model

| member | source | states |
|---|---|---|
| Bytes.Strlen | student-distrib/lib.c:634-641 | the length of a NUL-terminated string, as in the user library |
| Screens.TranscriptWindow | student-distrib/lib.c:489-521 | after a text of any length, a cleared screen shows the last 25 rows of its unbounded layout, cursor included |
| Screens.PutAllShows | student-distrib/lib.c:106-213 | printing from any state that shows a layout shows the extended layout, and the window moves only down |
| Screens.PutShows | student-distrib/lib.c:506-521 | one character extends the layout, with eager wrap at column 80 and a new row for newline or carriage return |
| Screens.NewlineCharacters | student-distrib/lib.c:506-508 | exactly the characters 10 and 13 start a new row, every other one takes a cell |
| Screens.EraseShows | student-distrib/lib.c:168-184 | backspace undoes the last printed character, across wraps, while the row it wrapped from is in view |
| Screens.LayoutKeepsText | student-distrib/lib.c:489-521 | the rows of a layout, joined, are the text without its newlines |
| Terminals.TerminalsAreIndependent | student-distrib/terminal.c:75-230 | over every run, each terminal ends as it would on a console of its own fed only its keys and writes |
| Terminals.MultiplexedTranscript | student-distrib/keyboard.c:199-230 | a terminal that gets writes and any keys but backspace shows the last 25 rows of its writes and echoes since the last Ctrl-L, over every interleaving with the others |
| Terminals.MultiplexedScreen | student-distrib/keyboard.c:199-230 | a terminal that gets any writes, keys and backspaces shows the edited text from its first row in view on, as long as each backspace finds its character erasable, over every interleaving with the others |
| Terminals.EraseExact | student-distrib/lib.c:168-184 | backspace takes exactly the last character off the screen if and only if that is no newline, or one behind 79 characters, and its row is in view |
| Papers.MultiplexedPaper | student-distrib/lib.c:106-213 | over every run and for all inputs, each terminal shows a page of the paper that its own inputs make |
| Papers.MultiplexedCellExact | student-distrib/lib.c:168-184 | over all runs without Ctrl-L in its terminal a character on the screen stays, one row up for every scroll, until it is scrolled out, if and only if at least as many cells lie between it and the cursor as characters are buffered |
| Papers.CellSafeExact | student-distrib/keyboard.c:212-218 | the same of the paper: a character survives all inputs up to Ctrl-L if and only if it has left the view or is that far before the cursor |
| Papers.PromptStays | student-distrib/keyboard.c:212-218 | with nothing typed on the line, every cell before the cursor keeps its character until it is scrolled out |
| Papers.EraseOnPaper | student-distrib/lib.c:168-184 | backspace blanks the cell before the cursor, and at the first cell in view moves on to a new last row |
| Papers.PutOnPaper | student-distrib/lib.c:506-521 | a printed character goes to the cursor's cell, a newline to the start of the next row, and the view follows |
| Terminals.TypedLineCoupled | student-distrib/keyboard.c:199-243 | every sequence of edit keys leaves the screen showing prompt and buffered line, at most 127 characters, with the prompt's end in view |
| Terminals.MultiplexedTyping | student-distrib/keyboard.c:199-243 | a terminal that gets only edit keys shows its prompt and exactly the edited line, whatever the other terminals do |
| Terminals.EraseOne | student-distrib/keyboard.c:212-218 | backspace with something typed drops the last character from line and screen and never touches the prompt |
| Terminals.TypeOne | student-distrib/keyboard.c:224-228 | a typed character is appended to line and screen together, across wraps and scrolls |
| Terminals.ClearDecouples | student-distrib/keyboard.c:206-209 | after Ctrl-L screen and buffered line agree exactly when nothing was typed |
| Terminals.BackspaceAfterClear | student-distrib/lib.c:168-184 | backspace at the origin wraps to row 2^32 - 1, which scrolls: the screen stays clear, the cursor is in the last row and the line loses its last character |
| Terminals.LayoutConserves | student-distrib/lib.c:506-521 | printable text takes exactly one cell per character, so 127 characters add at most two rows |
| Terminals.ColoursStay | student-distrib/lib.c:506-521 | over every run each terminal's characters keep its own colour |
| Console.Console.constructor | student-distrib/terminal.c:22-66 | three blank terminals with empty buffers, the first displayed |
| Console.Console.SetScreenPos | student-distrib/lib.c:106-122 | for all 32-bit x and y the mutually recursive cursor code ends with the cursor in range, and as the one-step description says |
| Console.Console.Enter | student-distrib/lib.c:150-152 | moves to the next row, scrolling in the last one |
| Console.Console.SetScreenX | student-distrib/lib.c:74-76 | moves the column, keeping the row |
| Console.Console.ScrollUp | student-distrib/lib.c:192-213 | every row takes the characters of the one below, the last is blank, attributes stay, the column becomes 0 |
| Console.MoveRowsUp | student-distrib/lib.c:199-211 | the two loops in place compute the scrolled memory |
| Console.Console.Backspace | student-distrib/lib.c:168-184 | steps the cursor back, over a row boundary if needed, and blanks the cell |
| Console.Console.Putc | student-distrib/lib.c:506-521 | prints one character on the displayed screen |
| Console.Console.Clear | student-distrib/lib.c:34-38 | blanks the screen in the displayed terminal's attribute |
| Console.Console.SetScreenPosTermExec | student-distrib/lib.c:128-142 | the same function as SetScreenPos, on the executing terminal's saved cursor and page |
| Console.Console.EnterTermExec | student-distrib/lib.c:158-160 | the same function as Enter, on the executing terminal |
| Console.Console.ScrollUpTermExec | student-distrib/lib.c:219-240 | the same function as ScrollUp, on the executing terminal's page |
| Console.Console.PutcTerminalActive | student-distrib/lib.c:546-561 | the same function as Putc on the hidden terminal; the attribute write to the displayed screen changes nothing |
| Console.Console.Printf | student-distrib/lib.c:260-368 | for every format that comes to an end, prints what the format and the words on the stack say and returns where it stopped |
| Formats.StopsAtTerminator | student-distrib/lib.c:268-368 | the scan stops at the terminator if and only if the string does not end inside a conversion |
| Formats.PlainText | student-distrib/lib.c:359-363 | text without percent signs is printed as it is, up to its NUL |
| Formats.EscapedPrints | student-distrib/lib.c:279-281 | a text with its percent signs doubled prints as the text, whatever is on the stack |
| Formats.NextText | student-distrib/lib.c:268-365 | one round of the loop prints the next part of the output and goes on behind its specifier |
| Formats.Convert | student-distrib/lib.c:290-352 | each specifier gives its numeral, character or string, %#x eight hexadecimal digits |
| Formats.SpecifierPrints | student-distrib/lib.c:290-352 | %x prints a hexadecimal and %u a decimal numeral of the word, %#x eight hexadecimal digits, %d the signed number, %c the low byte, %s the string |
| Formats.OneConversion | student-distrib/lib.c:268-368 | a conversion between plain texts prints the first text, its argument and the second |
| Console.Console.PrintfTerminalActive | student-distrib/lib.c:373-481 | the same text for the same format, on the executing terminal's page, with the displayed screen unchanged |
| Console.Console.TerminalWrite | student-distrib/terminal.c:211-230 | changes only the executing terminal, by the formatted text, identically on both print paths |
| Console.Console.TerminalRead | student-distrib/terminal.c:184-199 | copies from the displayed terminal's buffer and clears it, after ENTER in the executing one |
| Console.Console.ClearBuf | student-distrib/keyboard.c:252-258 | empties the displayed terminal's line and keeps the buffer's last byte |
| Sessions.MultiplexedReads | student-distrib/terminal.c:184-199 | over every run, a terminal's reads return its lines as a plain line discipline makes them of its own keys |
| Sessions.MultiplexedFlag | student-distrib/keyboard.c:219-223 | over every run a terminal's flag is set if and only if an ENTER is among its own inputs since its last read, or it was set and nothing has been read |
| Sessions.ReadNeedsEnter | student-distrib/terminal.c:187-188 | no read returns before an ENTER in its own terminal, and each ENTER serves one read |
| Sessions.ReadGuardExact | student-distrib/terminal.c:187-197 | a read leaves the other terminals alone if and only if its own is displayed or the displayed line is empty |
| Sessions.LineTakenByOther | student-distrib/terminal.c:184-199 | terminal 1 is launched and left, a line is entered in terminal 0 and one begun in terminal 1: terminal 0's read returns and clears the latter |
| Sessions.EnteredLineIsRead | student-distrib/keyboard.c:199-243 | edit keys, ENTER and a read return the edited line with its newline, cut and padded to what was asked for |
| Sessions.WholeLineExact | student-distrib/terminal.c:193-195 | a read returns all of a line exactly if it asks for more bytes than the line has and the line has at most 127 |
| Sessions.FullLineLosesNewline | student-distrib/terminal.c:193-195 | the newline of a line of 127 characters is never returned |
| Console.Console.Save | student-distrib/terminal.c:141-146 | the terminal's saved copy becomes the live screen, cursor and index |
| Console.Console.Restore | student-distrib/terminal.c:147-151 | the live screen, cursor and index become the terminal's saved copy |
| Console.Console.SwitchHelper | student-distrib/terminal.c:139-171 | saves the live screen, cursor and index to one terminal and restores another's |
| Console.Console.SwitchTerminal | student-distrib/terminal.c:75-128 | changes which terminal is displayed and the contents of none; -1 for a number above 2 |
| Console.Console.HandleKeyPress | student-distrib/keyboard.c:199-230 | changes only the displayed terminal, by the key's effect on screen and line |
| Console.Console.TypeKey | student-distrib/keyboard.c:205-229 | each case of the key switch computes the key's effect on the displayed terminal |
| Console.Console.AddKeyBuff | student-distrib/keyboard.c:239-243 | appends to the buffer up to 127 characters |
| Console.Console.PerformAll | student-distrib/terminal.c:75-230 | every run of keys, writes, reads, switches and ticks on the shared screen and buffer is that run on three separate terminals, and its reads return their lines |
| Joint.Serve | student-distrib/terminal.c:75-128 | from boot on, every run of possible acts on the real kernel and the real console is the joint run, ends with both invariants, and hands out what its reads return |
| Joint.RunMatches | student-distrib/syscalls.c:417-458 | over every joint run both invariants hold, displayed and executing terminal are the same on both sides, and terminals without a shell are blank |
| Joint.RunProjects | student-distrib/scheduler.c:72-119 | a joint run is a guarded run of the processes and a legal run of the console with the switches the processes determine |
| Joint.WriterIsLive | student-distrib/terminal.c:211-230 | whoever writes or reads is a live process of the terminal it writes to or reads from |
| Joint.LaunchFindsBlank | student-distrib/terminal.c:104-127 | a launched shell finds a clear screen and an empty line, in a terminal that is displayed and executing |
| Joint.LineIsLost | student-distrib/terminal.c:184-199 | after boot the kernel reaches, by possible acts, a state in which a read takes another terminal's line |
| Paging.FixedPartIsIdentity | student-distrib/paging.c:29-59 | by two-level translation the kernel page, the video page and the three backing pages map to themselves |
| Paging.UserPageMapped | student-distrib/paging.c:93-103 | 128MB maps to the 4MB frame of the process last remapped |
| Paging.FramesDisjoint | student-distrib/syscalls.c:403 | frames of different processes share no address |
| Paging.FramesTile | student-distrib/syscalls.c:403 | the six frames begin where the kernel's page ends and cover 24MB without a gap |
| Paging.ScreensDisjoint | student-distrib/terminal.c:42-43 | the backing pages share no address with each other, the kernel, video memory or any frame |
| Paging.UsersReachTheirPage | student-distrib/paging.c:93-103 | programs may read and write all of the page at 128MB, and nothing of the kernel's page and of the video page at its own address |
| Paging.UsersReachTheirScreen | student-distrib/paging.c:114-151 | programs may read and write the page at 136MB, whether their terminal is displayed or not |
| Paging.VideoWindowMapped | student-distrib/scheduler.c:77-97 | 136MB maps to video memory or to the backing page, although the user page table is also used for 100MB |
| Paging.PageTables.PagingInit | student-distrib/paging.c:29-59 | exactly four low pages and the kernel page are marked present |
| Paging.PageTables.Boot | student-distrib/terminal.c:42 | after boot the fixed part of the address map is in place |
| Paging.PageTables.PageRemap | student-distrib/paging.c:93-103 | exactly one directory entry becomes a present 4MB page |
| Paging.PageTables.TableRemap | student-distrib/paging.c:114-127 | one directory entry and entry 0 of the user table change |
| Paging.PageTables.VidmemRemap | student-distrib/paging.c:138-151 | one directory entry and entry 0 of the video table change |
| Paging.PageTables.TableToPageMapping | student-distrib/paging.c:162-175 | one directory entry and one user table entry change |
| Processes.MaskFindsPcb | student-distrib/syscalls.c:596-619 | rounding a stack pointer down to 8KB gives a process's PCB exactly when it is in that process's stack |
| Processes.MaskIsMaskedPcb | student-distrib/syscalls.c:596-604 | masking a 32-bit word with 0xFFFFE000 rounds its value down to a multiple of 8KB |
| Processes.FreePid | student-distrib/syscalls.c:572-587 | the lowest free process number, or -1 exactly when none is free |
| Processes.StackTop | student-distrib/syscalls.c:463 | the stack pointer loaded for a process lies in its own stack |
| Processes.StackTopIsLast | student-distrib/syscalls.c:463 | it is the last aligned word before the next process's stack or 8MB, and no two stacks share an address |
| Processes.ExecuteKeepsInv | student-distrib/syscalls.c:291-494 | a successful execute appends the new process to its terminal's parent chain and keeps the invariant |
| Processes.HaltKeepsInv | student-distrib/syscalls.c:215-279 | halt removes the last process of the chain, or replaces a root by a new one, and keeps the invariant |
| Processes.RootIffAlone | student-distrib/syscalls.c:247 | a process is its own parent exactly when it is the only one of its terminal |
| Processes.SchedulerPicksLive | student-distrib/scheduler.c:130-147 | whenever the timer switches, the chosen terminal is another active one with a live process |
| Processes.TickKeepsInv | student-distrib/scheduler.c:50-119 | a context switch keeps forest, stacks and address map |
| Processes.SwitchKeepsInv | student-distrib/terminal.c:75-128 | showing or launching a terminal keeps the invariant |
| ProcessRuns.RunKeepsInv | student-distrib/syscalls.c:215-494 | every guarded run of execute, halt, ticks, switches and vidmap keeps the invariant |
| ProcessRuns.StepIsDefined | student-distrib/scheduler.c:84-92 | no guarded call ever looks up process number -1 |
| ProcessRuns.BootReachesInv | student-distrib/terminal.c:59-64 | the first shell establishes the invariant with process 0 in terminal 0 |
| ProcessRuns.ForestOfParents | student-distrib/syscalls.c:417-428 | a terminal's live processes are exactly its active one and its ancestors, without repeats, up to a root that is its own parent |
| ProcessRuns.LiveMeansActive | student-distrib/syscalls.c:457-458 | a live process belongs to an active terminal |
| ProcessRuns.LookupsAgree | student-distrib/syscalls.c:150-152 | in every reachable state the masked lookup and the terminal's process number name the same PCB, and esp0 lies in its stack |
| ProcessRuns.AddressMap | student-distrib/paging.c:93-175 | in every reachable state the fixed pages map to themselves and 128MB to the running process's frame |
| ProcessRuns.VideoFollowsTerminal | student-distrib/scheduler.c:77-97 | right after a context switch or a switch between active terminals 136MB is the executing terminal's screen |
| ProcessRuns.ExecuteGuardExact | student-distrib/syscalls.c:417-458 | a successful execute keeps the invariant if and only if the displayed terminal is the executing one |
| ProcessRuns.RelaunchGuardExact | student-distrib/syscalls.c:247-252 | halting a root shell keeps the invariant if and only if its terminal is displayed |
| ProcessRuns.LaunchGuardExact | student-distrib/terminal.c:104-127 | launching a terminal keeps the invariant if and only if a process number is free |
| ProcessRuns.ShellBehindDisplayed | student-distrib/terminal.c:104-127 | after boot, a launch and a tick reach a consistent state in which an execute and the halt of the root shell both break the invariant |
| ProcessRuns.FullTable | student-distrib/syscalls.c:572-587 | after boot, five nested executes reach a consistent state in which a launch breaks the invariant |
| ProcessRuns.HaltWindow | student-distrib/syscalls.c:257-272 | a tick between enabling interrupts and leaving the halted stack keeps the invariant if and only if it does not switch |
| ProcessRuns.ExecuteWindow | student-distrib/syscalls.c:460-472 | a switching tick between enabling interrupts and entering the new process keeps the invariant if and only if the stack pointer it saves is in the new process's own stack |
| ProcessRuns.NestedExecuteWindow | student-distrib/syscalls.c:460-472 | when a program executes another, a tick in that window keeps the invariant if and only if it does not switch |
| ProcessRuns.LaunchWindow | student-distrib/terminal.c:104-127 | after any ticks between recording a new terminal and executing its shell, the execute ends in a state with the invariant |
| ProcessRuns.LaunchKeepsPointer | student-distrib/terminal.c:112-126 | the launch leaves the caller the stack pointer recorded for it if and only if no tick in that window switched; otherwise it leaves one that a tick saved |
| ProcessRuns.HaltUndoesExecute | student-distrib/syscalls.c:215-279 | halting a just-executed process restores process table, terminals, page tables and the caller's stack pointer |
| ProcessRuns.HaltReturnsToCaller | student-distrib/syscalls.c:215-279 | whatever guarded calls come in between, nested executes and halts included, halting an executed process gives terminal, page and stack back to its caller and frees exactly its number |
| ProcessRuns.CallerWaits | student-distrib/syscalls.c:417-428 | a process that executed a live one is never its terminal's active process |
| ProcessRuns.RunKeepsChild | student-distrib/syscalls.c:410-458 | until it halts itself, no guarded run changes who executed a process or where its caller's stack was left |
| ProcessRuns.FailedExecuteChangesNothing | student-distrib/syscalls.c:359-386 | execute fails exactly for a missing file, a non-executable or a full table, and then changes nothing of the process state |
| ProcessRuns.RelaunchFindsSlot | student-distrib/syscalls.c:247-252 | a halting root always finds a number for the new shell |
| ProcessRuns.SchedulerIsFair | student-distrib/scheduler.c:130-147 | any k consecutive ticks run each of k active terminals exactly once, over every guarded run without launches |
| ProcessRuns.SlotsRotate | student-distrib/scheduler.c:130-147 | the terminals that ticks choose follow each other in cyclic order of the active ones |
| ProcessRuns.PreemptedResumes | student-distrib/scheduler.c:72-119 | a process preempted with its stack pointer at sp resumes at sp, in its own page and with its whole stack for interrupts, whatever guarded calls other terminals make until the timer picks it |
| ProcessRuns.LaunchedOverResumes | student-distrib/terminal.c:104-127 | so does the process during which another terminal was launched |
| ProcessRuns.VidmapExact | student-distrib/syscalls.c:527-540 | vidmap fails without change exactly for the addresses 0 and 4MB; otherwise 136MB is video memory, which is the program's screen if and only if its terminal is displayed |
| ProcessRuns.NewProcessStarts | student-distrib/syscalls.c:460-472 | a new process starts with its whole stack, in its own page, as its terminal's active one |
| Kernel.Kernel.GetProcNum | student-distrib/syscalls.c:572-587 | the loop takes the lowest free number and marks only it |
| Kernel.Kernel.constructor | student-distrib/terminal.c:27-43 | no process, no active terminal and the fixed address map, as before the first shell |
| Kernel.Kernel.Execute | student-distrib/syscalls.c:357-466 | computes the execute operation on all of the kernel state |
| Kernel.Kernel.SetUpPcb | student-distrib/syscalls.c:414-458 | fills in number, parent, terminal and saved stack of one PCB and its terminal |
| Kernel.Kernel.Halt | student-distrib/syscalls.c:215-260 | computes the halt operation on all of the kernel state |
| Kernel.Kernel.GetNextScheduled | student-distrib/scheduler.c:130-147 | the scanning loop finds the next active terminal in cyclic order |
| Kernel.Kernel.ProcessContextSwitch | student-distrib/scheduler.c:72-119 | saves the old stack pointer, loads the next process's and remaps both windows |
| Kernel.Kernel.PitScheduling | student-distrib/scheduler.c:50-63 | switches only if terminal 1 or 2 is active |
| Kernel.Kernel.SwitchTerminal | student-distrib/terminal.c:75-128 | the process side of showing or launching a terminal |
| Kernel.Kernel.VidmapCall | student-distrib/syscalls.c:527-540 | maps 136MB to video memory through the user page table, or fails without change for the addresses 0 and 4MB |
| Kernel.Kernel.Serve | student-distrib/syscalls.c:215-494 | from boot on, every guarded run of the kernel is the run on values and ends in a consistent state |
| FileSystem.ReadData | student-distrib/filesys.c:211-278 | for every length whose memory exists, copies exactly the requested part of the file cut at its end; for a bad inode or block number returns -1 with just the bytes before the bad block copied; never reaches the last return |
| FileSystem.ReadRest | student-distrib/filesys.c:255-276 | the block loop consults only the blocks the length requires and stops at the first bad one |
| FileSystem.ReadResultExact | student-distrib/filesys.c:211-278 | the result for a well-formed file is right if and only if offset plus length does not wrap to inside the file |
| FileSystem.WrappedReadFails | student-distrib/filesys.c:229-230 | a concrete image on which offset 4097 and length 2^32 - 4097 give -1, with a page as buffer, although a byte is there |
| FileSystem.WrapIntoBlock | student-distrib/filesys.c:229-247 | a wrapping sum passes the 32-bit one-block test exactly if it is not before the block of the offset, and then the copy leaves the image for every buffer |
| FileSystem.CopiedIsSlice | student-distrib/filesys.c:211-278 | on a well-formed file the copy is a slice of the flat contents and the rest of the buffer is untouched |
| FileSystem.ClampExact | student-distrib/filesys.c:229-230 | the 32-bit length clamp is right exactly when offset plus length does not wrap to inside the file |
| Directory.ReadDentryByName | student-distrib/filesys.c:143-178 | finds the first entry with the given name by comparing lengths and bytes |
| Directory.ReadDentryByIndex | student-distrib/filesys.c:186-203 | the entry at an index, or failure past the end |
| Directory.LookupIsExact | student-distrib/filesys.c:143-178 | a name is found exactly when some entry has it, at the least such index |
| Directory.LookupInvertsIndex | student-distrib/filesys.c:143-203 | name lookup inverts index lookup exactly for entries whose name does not occur earlier |
| Directory.Strncpy | student-distrib/lib.c:876-890 | copies up to the NUL or n bytes, pads with NULs |
| Directory.Strncmp | student-distrib/lib.c:830-847 | zero exactly if the strings agree in n bytes or up to their ends, else the signed difference at the first mismatch |
| Images.ImageHoldsFiles | student-distrib/filesys.c:211-278 | an image with a boot block, inode blocks and padded data blocks built from files has their contents by the code's own look-ups |
| Images.ImageHoldsEntries | student-distrib/filesys.c:143-203 | and the entries it was built from, with name, type and inode number |
| NamedFiles.NamedFileIsRead | student-distrib/syscalls.c:56-139 | on a built image, opening the name of a file and reading gives the first bytes of that file |
| Descriptors.FileTable.InitFds | student-distrib/syscalls.c:435-453 | a new process has standard input and output open and the rest free |
| Descriptors.FileTable.SysOpen | student-distrib/syscalls.c:56-112 | takes the lowest free slot and sets it up by file type, or fails without change |
| Descriptors.FileTable.FileRead | student-distrib/filesys.c:41-58 | reads at the position with the count taken as unsigned and moves the position by the result, on any image whose memory suffices |
| Descriptors.FileTable.SysRead | student-distrib/syscalls.c:123-139 | -1 for a bad, free or write-only descriptor, otherwise the read of its type |
| Descriptors.FileTable.SysClose | student-distrib/syscalls.c:177-201 | frees a used slot from 2 to 7, otherwise -1 |
| Descriptors.FileTable.CloseAll | student-distrib/syscalls.c:232-239 | halt leaves every descriptor free and without operations |
| Descriptors.NegativeCountExact | student-distrib/filesys.c:41-58 | a read of a negative count is right exactly when the count reaches back beyond the start of the file, or at its end |
| Descriptors.PerformAll | student-distrib/syscalls.c:56-201 | from boot on, every allowed run of calls on the six real tables and the callers' buffers is the run on values, and what it delivered is the log |
| Descriptors.ReadsDoNotInterfere | student-distrib/syscalls.c:56-201 | over every interleaving in all processes, what a descriptor delivered since its open is the file up to its position; 0 and 1 stay open |
| Descriptors.ReadExtends | student-distrib/filesys.c:41-58 | appending a read's result keeps the delivered bytes a prefix of the file |
| Descriptors.OpenFailsExactly | student-distrib/syscalls.c:66-79 | open fails exactly when the name is missing or slots 2 to 7 are taken, otherwise it takes the lowest free one |
| NamedFiles.OpenedByKind | student-distrib/syscalls.c:83-109 | the new descriptor is of the first matching entry's type, a file's with the entry's inode, and keeps the old operations for an unknown type |
| NamedFiles.NamedReadsExact | student-distrib/syscalls.c:56-201 | over all runs every open file descriptor has delivered the start of the file its name denotes, if and only if the image has no entries both of a file and of an unknown type |
| NamedFiles.UnknownReadsFile | student-distrib/syscalls.c:83-109 | opening and closing a file and then opening an entry of unknown type gives a descriptor of the file |
| NamedFiles.CloseFrees | student-distrib/syscalls.c:177-201 | close succeeds exactly on a used descriptor from 2 to 7 with operations; the descriptor can then no longer be read and is free for the next open |
| NamedFiles.CloseUndoesOpen | student-distrib/syscalls.c:56-201 | closing what was just opened makes the same descriptors usable as before |
| NamedFiles.NewProcess | student-distrib/syscalls.c:435-453 | a new process reads from 0, cannot read 1, and its first open gets 2 |
| NamedFiles.StoppedHasNone | student-distrib/syscalls.c:232-239 | a stopped process has no usable descriptor and no operations |
| Grep.DoOneFile | syscalls/ece391grep.c:9-66 | prints one report per matching piece of the file, in order, wherever the chunk boundaries fall; with lines that fit and an ASCII start of the pattern, exactly the lines that contain it |
| Grep.ScanBuffer | syscalls/ece391grep.c:28-57 | reports the complete lines in the buffer and carries the rest down to its start |
| Grep.ScanStep | syscalls/ece391grep.c:29-57 | one step of the scan reports exactly the next piece of what is left of the file |
| Grep.FindLineEnd | syscalls/ece391grep.c:30-32 | the end of the first line in the buffer |
| Grep.ReportLine | syscalls/ece391grep.c:40-51 | terminates and reports one line and leaves the rest of the buffer alone |
| Grep.SearchLine | syscalls/ece391grep.c:41-51 | reports the line once if the pattern occurs in it |
| Grep.CopyDown | syscalls/ece391support.c:14-17 | the overlapping string copy moves the text down intact |
| Grep.Strncmp | syscalls/ece391support.c:35-46 | zero exactly if the strings agree in n bytes or up to their ends |
| Grep.GrepFilters | syscalls/ece391grep.c:9-66 | with lines that fit the buffer and a non-empty pattern with an ASCII start, the output is the plain line filter |
| Grep.GrepPatternsExact | syscalls/ece391grep.c:41-51 | a pattern gives the plain line filter on every file whose lines fit if and only if it starts with an ASCII character or no such line can contain it |
| Grep.GrepIsLineFilter | syscalls/ece391grep.c:9-66 | on an ASCII file the output is the plain line filter for every non-empty pattern if and only if no line is longer than 1024 bytes |
| Grep.OutputLines | syscalls/ece391grep.c:41-51 | line by line, the output is the matching lines in order, each behind the file name and a colon |
| Grep.ShortLinesArePieces | syscalls/ece391grep.c:22-57 | with lines that fit the buffer, cutting the file into pieces changes nothing of what the program's own test reports |
| Blinks.BlinkTiming | fish/blink.S:49-99 | over every run of adds at new locations, removes, finds and ticks, a cell shows on_char exactly when its age modulo on + off is below on |
| Blinks.TimingClosedForm | fish/blink.S:64-86 | status and countdown t ticks after an add, in closed form |
| Blinks.ScreenAfterAt | fish/blink.S:58-90 | ticking the list changes each cell only through its own blink |
| Blinks.StepKeepsTimed | fish/blink.S:49-237 | each add, remove and tick keeps the closed form for every blink on the list |
| Blinks.FindFirst | fish/blink.S:351-379 | the newest blink at a location, or none |
| BlinkPool.BlinkList.Malloc | fish/fish.c:160-170 | a slot whose location is 0, or none exactly when every slot is in use |
| BlinkPool.BlinkList.constructor | fish/fish.c:28 | a cleared pool holds the empty list |
| BlinkPool.BlinkList.FindHelper | fish/blink.S:351-379 | the traversal ends and yields the most recently added match |
| BlinkPool.BlinkList.Add | fish/blink.S:105-184 | links a started blink in front for every location below 2000, fails only when all 2000 slots are used; agreement of list and pool survives exactly unless the location is 0 |
| BlinkPool.BlinkList.Remove | fish/blink.S:187-237 | removes the newest match from list and pool, or fails without change |
| BlinkPool.BlinkList.FindLink | fish/blink.S:206-212 | the predecessor search ends at the link that leads to the node |
| BlinkPool.BlinkList.Sync | fish/blink.S:240-300 | copies lengths, countdown and status between two blinks, and shows off_char |
| Blinks.SyncExact | fish/blink.S:240-300 | sync succeeds exactly if both locations are listed; the destination takes over the source's lengths, countdown and status, and nothing else changes but its cell |
| Blinks.SyncLasts | fish/blink.S:49-99 | after a sync both stay in the same phase for any number of ticks |
| Blinks.SyncShowsDueExact | fish/blink.S:277-285 | right after a sync the destination's cell agrees with its status if and only if the source is off or the destination's characters are equal |
| Blinks.RemoveExact | fish/blink.S:187-237 | remove succeeds exactly if the location is listed, takes the newest blink there and leaves all others in order |
| Blinks.RemoveUndoesAdd | fish/blink.S:105-237 | removing what was just added gives the list back |
| BlinkPool.BlinkList.Find | fish/blink.S:302-349 | copies out the newest match and changes nothing |
| BlinkPool.BlinkList.Tasklet | fish/blink.S:49-99 | one pass ticks every blink of the list once, in order |
| BlinkPool.BlinkList.TickNode | fish/blink.S:64-89 | one node's countdown, toggle and screen write, keeping list and pool in agreement |
| BlinkPool.AddOfZeroBreaks | fish/blink.S:130-162 | linking a free slot keeps list and pool in agreement if and only if the location is not 0 |
| BlinkPool.AgreeIsOk | fish/fish.c:160-170 | the list has at most 2000 elements, and exactly 2000 when no slot is free |
| BlinkPool.RemoveThreaded | fish/blink.S:214-222 | unlinking and clearing a node leaves the links threading the shorter list |
| BlinkPool.PerformAll | fish/blink.S:49-379 | every run of adds with non-zero locations, removes, finds, syncs and ticks on the pool is that run on a plain list, with the list acyclic and exactly the slots in use |
| Numbers.Itoa | student-distrib/lib.c:571-603 | leaves the numeral of the value in the buffer for every 32-bit value and radix 2 to 36 |
| Numbers.Strrev | student-distrib/lib.c:611-626 | reverses a string in place |
| Numbers.NumeralValue | student-distrib/lib.c:571-603 | what is printed is a numeral without leading zeros whose value is the input |
| Numbers.NumeralUnique | student-distrib/lib.c:571-603 | a digit string without leading zeros is the numeral of its value |
| Numbers.Hex8 | student-distrib/lib.c:300-310 | %#x always gives eight hexadecimal digits with the given value |
| Numbers.SignedDecimal | student-distrib/lib.c:326-338 | %d prints a minus sign and the magnitude, also for the least number |
| Numbers.SignedTextValue | student-distrib/lib.c:326-338 | the text has a minus sign exactly for negative numbers and denotes the number |
| Numbers.Unsigned | student-distrib/lib.c:294-323 | %u and %x print the numeral of the value |
| Memory.Memset | student-distrib/lib.c:651-687 | byte, word and tail phases set exactly n bytes |
| Memory.Memcpy | student-distrib/lib.c:745-784 | byte, word and tail phases make their moves one after the other for any overlap, and copy exactly n bytes whenever that is right |
| Memory.MemcpyExact | student-distrib/lib.c:745-784 | on every memory it copies right if and only if the destination is not inside the rest of the source or one move does it all |
| Memory.Memmove | student-distrib/lib.c:795-815 | the destination receives the original source bytes under any overlap, nothing else changes |

## Left out

- Device ports: the hardware cursor, PIC, RTC and PIT programming have no state the results depend on.
- Interrupt, descriptor-table and boot setup, exception handlers, and the register-level stack swap: a context switch is a change of the stack pointer in use.
- Command parsing in execute, with its exit and term_num special cases: execute starts from the result of looking the name up.
- "shell" is taken to be present and executable when a terminal is launched or a root shell restarted.
- Processes.SwitchKeepsInv: a launch is one step here; `ProcessRuns.LaunchWindow` and `ProcessRuns.LaunchKeepsPointer` cover ticks while interrupts are enabled at student-distrib/terminal.c:123, not key presses or calls of other terminals' processes there.
- ProcessRuns.RunKeepsInv: calls are atomic in a run; ticks after the sti at student-distrib/syscalls.c:260 and student-distrib/syscalls.c:465 can break the invariant, which `ProcessRuns.HaltWindow` and `ProcessRuns.ExecuteWindow` state exactly.
- Kernel.Kernel.Serve: the same atomic calls; a run with a switching tick inside a halt, an execute or a launch is not among its runs.
- Kernel.Kernel.Execute: the loaded program image, the arguments and the entry point are not part of the state, and descriptor set-up is `Descriptors.FileTable.InitFds`.
- Kernel.Kernel.SetUpPcb: the argument buffer and the descriptor loop of the same lines are not part of it.
- Kernel.Kernel.Halt: the descriptor loop is `Descriptors.FileTable.CloseAll`, modelled by itself.
- Kernel.Kernel.VidmapCall: the store of 136MB through the caller's pointer is not modelled beyond the result.
- ProcessRuns.FailedExecuteChangesNothing: speaks of processes, terminals and page tables; the message printed when the table is full is not part of them.
- Console.Console.TerminalRead: starts when ENTER has been pressed, so waiting is not modelled, and no key is pressed while it copies.
- Console.Console.HandleKeyPress: an ENTER with 128 characters buffered, which the source stores past its buffer, is excluded.
- Console.Console.TypeKey: excludes the same ENTER.
- Console.Console.Printf: the words on the stack and the strings they point to are parameters, and formats that never come to an end in memory are excluded.
- Console.Console.PrintfTerminalActive: has the same parameters.
- Console.Console.TerminalWrite: has the same parameters, which nobody passes: a conversion in written text prints what happens to be on the stack.
- Console.Console.PerformAll: no ENTER comes with 128 characters buffered, and reads come from the displayed terminal; `Sessions.ReadGuardExact` shows what others do.
- Console.Console.SwitchTerminal: the shell launched on an inactive terminal is the kernel's part; `Joint` puts both together.
- Sessions.MultiplexedReads: reads while another terminal is displayed are excluded, for the reason `Sessions.ReadGuardExact` gives.
- Joint.Serve: the descriptor tables are not part of it, and what processes write is up to them.
- Terminals.MultiplexedTranscript: backspaces are in `Terminals.MultiplexedScreen`.
- Terminals.MultiplexedScreen: runs in which a backspace finds its character not erasable are in `Papers.MultiplexedPaper`.
- Keyboard scan codes and modifier keys: the model starts at the decoded key.
- Mapped addresses: the console reads and writes video memory and backing pages as arrays, which the identity mapping proved in `ProcessRuns` justifies; user writes through vidmap are not modelled.
- ProcessRuns.VideoFollowsTerminal: says nothing about 136MB after an execute, a launch or a vidmap call, which do not follow the executing terminal in the source either.
- FileSystem.ReadData: the image has the size its boot block announces, and the memory the code touches before it stops exists; `FileSystem.WrapIntoBlock` gives the requests for which it cannot.
- The memcpy from image to buffer is modelled byte by byte; its word-wise form is `Memory.Memcpy`.
- Descriptors.FileTable.FileRead: the same memory must exist as for `FileSystem.ReadData`, which excludes counts such as -1 at position 1.
- Descriptors.FileTable.SysRead: the same memory must exist, and reads of the terminal, the RTC and directories return a parameter.
- Descriptors.ReadsDoNotInterfere: runs exclude the negative counts for which `Descriptors.NegativeCountExact` shows that a read goes wrong.
- Grep.DoOneFile: open, read and close failures are not modelled, reads are short only at the end of the file, files hold no NUL, and the byte behind the uninitialised buffer is not a newline at the start.
- BlinkPool.PerformAll: runs exclude adds at location 0, after which no list agrees with the pool.
- Blinks.BlinkTiming: runs with sync, and a second blink at a location that is already listed, are excluded.
- The Linux emulation layer, the kernel's self tests and the remaining small user programs.
