# Illinix kernel: a verified model

Illinix is a small 32-bit x86 teaching kernel with three virtual terminals, a read-only file system,
six process slots and a handful of user programs. This project models the parts of it that carry real
state and proves what they are for. Everything is in `src/`, one module per component;
`dafny verify dfyconfig.toml` checks the whole project.

| modules | part of the system |
|---|---|
| `Config`, `Bytes`, `CStrings`, `Memory`, `Numbers` | bytes and C strings, `memcpy`/`memmove`, `itoa`/`strrev`/`%#x` |
| `FileSystem`, `Images`, `Descriptors`, `DescriptorRuns`, `Loader` | the image as flat bytes, images built from files, the descriptor table, `load_file` |
| `GrepSpec`, `GrepScan`, `GrepMachine`, `Grep`, `GrepProgram` | the grep program on top of the descriptors |
| `Screen`, `VideoConsole`, `Paper` | the console, three terminals on one screen, the screen as a window on paper |
| `LineBuffer`, `Terminal`, `TerminalRuns`, `TypedLine` | keyboard line buffers, the terminal driver and its echo |
| `Processes`, `ProcessRuns`, `ProcessCode`, `Programs`, `TerminalSwitch` | execute, halt and terminal switches, with memory and screens |
| `Paging` | page directory and page table, user-mode translation |
| `Blinkers`, `BlinkList`, `BlinkCode`, `Frames` | the blink list of the fish program, its clock tick, and the frame files that fill it |

Most components come in three layers: the values and step functions that say what is meant, the
kernel's code on arrays and fields (classes and methods whose postconditions tie the new state to the
step function), and lemmas about every run.

Main results:

* **grep.** For every directory of files with whatever bytes, every pattern and every content of its
  1025-byte buffer, the code prints exactly what a machine on that buffer prints and leaves exactly the
  buffer that machine leaves (`Pass`, `GrepOpen`, `DoOneFile`, `GrepMain`). That output is a function of
  the file alone and of two facts about the buffer found: whether byte 1024 is a newline, and whether a
  short file ends right before one (`GrepFileScans`, `BufferMatters`). For every file, pattern and buffer
  it is the lines that contain the pattern, in order and once each and nothing else, if and only if no
  such line is torn, cut at a NUL or unsearchable and no row that was clipped by the carry-down hits
  (`GrepIsExpected`). The same condition, entry by entry, decides the whole report (`ChunkIsWanted`,
  `WholeReportIsWanted`). Files without NUL are never clipped, and with a clean byte 1024 they print the
  same whatever the other entries hold (`TextCarriesClean`, `CleanChunkIsWanted`).
* **Consoles.** Screen, cursor and save areas refine three independent consoles
  over every run of the real calls (`Play`, `ConsolesAreIndependent`), and the screen is a window on an
  unbounded sheet exactly as long as no tab arrives while a scroll is put off (`ScreenIsAWindow`).
* **Processes.** After boot and every admissible run the live slots of each open terminal are one
  acyclic parent chain, the running process is the top of the active one, and slot 0 is terminal 0's
  root; halting and switching keep this exactly under the stated conditions. Balanced nesting restores
  the table, the control blocks of live slots, the tops, the running process, its page and its stack;
  `curr_process` is restored exactly when it was the running process. After every run `curr_process` is
  the top of the terminal that last executed or halted (`CurrentAfterEveryRun`). A switch touches no
  process, and going to another open terminal and back gives back the whole state (`SwitchAndBack`).
* **Memory isolation.** For every 32-bit address the user-mode walk through the tables reaches exactly
  what `UserView` says, and the tables are the ones `execute`, `halt` and `switch_to_tty` write: in every
  sound state a user access stays in the running process's frame or the video page (`System.Access`).
* **Line buffers.** From every state a key or a read does what it means for all three terminals if and
  only if it clobbers neither neighbour (`KeyRefines`, `ReadRefines`); over every run memory behaves as
  three separate buffers throughout if and only if no act clobbers (`RunRefines`), and delivered and
  pending bytes are the typed text throughout if and only if every key is stored
  (`NothingLostNothingInvented`). `TerminalRuns.Play` carries both to the driver's own calls.
* **Programs.** After `execute` the file is in the new process's physical frame, readable at the load
  address through its tables, and no other frame has changed (`ExecuteProgram`).
* **File system.** For every set of files, their blocks scattered in any way over an image laid out at
  literal offsets, what was put in under a name is what lookup, open and read give back
  (`ContentsRoundTrip`, `OpenAndReadRoundTrip`), and what grep reports under that name (`GrepOnDisk`).
* **Echo.** After any number of keyboard writes on one row, the row shows exactly the line that a read would
  deliver, with the cursor behind it (`TypedLineShows`).
* **Descriptors, blink list, number printing, byte moving**: see the table.

Findings, kept as the code has them:

* grep never writes the byte behind its buffer before reading it. If it happens to hold a newline, a
  matching line across offset 1024 is torn (`StaleNewlineTears`). A pattern whose first byte is 128 or
  more is never found, because it is compared as a signed char (`HighPatternIsNeverFound`).
* grep's search runs over NULs, its output stops at the first one (`Visible`), and its carry-down copies
  a string: a row that is carried down with a NUL inside it continues with older bytes of the buffer. That
  loses matches (`NulLosesAMatch`) and invents rows: in the file `AB`, newline, NUL, `AA` a search for `B`
  also prints an empty row, unless the uninitialised buffer holds a newline right behind the file
  (`NulInventsARow`). So old newlines in the buffer matter at byte 1024 and right behind a short file, and
  nowhere else. An empty pattern finds exactly the rows with a NUL (`EmptyPatternFindsNul`).
* A tab that arrives in the put-off row loses its four columns; 24 newlines, 80 letters and a tab get
  there (`LateTabHappens`).
* `terminal_write` lets index 1025 through. On terminals 0 and 1 that is the first byte of the next
  terminal's buffer: the 1026th key overwrites its first pending character (`ClobberingHappens`), and once
  a terminal holds 1026 characters, the first key of the next terminal, or a read there that leaves
  characters behind, overwrites the last of them (`ClobberingHappensBackwards`, `ReadClobbers`). On
  terminal 2 it is a write out of bounds, behind `terminal_buffer` (`KeySpills`).
* `switch_to_tty` does not update `curr_process` when the terminal is open (`SwitchLeavesCurrent`).
  Entering an unopened terminal with all slots taken, which five programs are enough for
  (`FullTableBreaksSwitch`), or halting a root without a usable shell, breaks the process invariant
  (`SwitchExact`, `HaltExact`).
* `read` of a file takes a negative count as a huge one and delivers the rest of the file; a directory
  read with one delivers an empty name and still advances (`NegativeCountIs`).
* With 63 directory entries, a listing runs on into inode 0 (`ListingEnds`, `FullListingRunsOn`).
* Adding a blink cell at location 0 leaves no list (`AddedIsAList`), and makes it circular at the next add
  (`ZeroLocationMakesACircle`). `add_frames` stores locations in 16 bits, so a character in row 818,
  column 56 of a frame file does it (`DeepFrameBreaksTheList`).
* Blink lengths of 0 and above 32768 last one tick (`OscillatesForever`).
* The video page is also reachable at 124 MB + 0x21000, through directory entry 31 (`UserView`). The
  comment in `set_vidmap` speaks of 132 MB; the address handed out is 0x21000.

## Model

| member | source | states |
|---|---|---|
| Bytes.CStringIsUnique | student-distrib/lib.c:346-351 | a C string is determined by its start: the NUL-free run up to the first NUL or the bound |
| CStrings.Strlen | student-distrib/lib.c:346-351 | the distance to the first NUL, with no NUL before it |
| CStrings.Strncmp | student-distrib/lib.c:519-533 | 0 exactly when the two strings agree up to the bound, for strings with and without terminator; otherwise the signed difference at the first place where they differ |
| CStrings.Strncpy | student-distrib/lib.c:556-567 | the bounded string followed by NULs to the full width of the field, for every source that ends before the end of memory or is read within it |
| Memory.Memcpy | student-distrib/lib.c:442-479 | byte prefix, aligned words and byte tail together copy the old source, for every alignment and length, when the destination does not start inside the source |
| Memory.Memmove | student-distrib/lib.c:488-506 | the destination becomes the old source and nothing else changes, for every overlap |
| Memory.CopiedIsThePlainCopy | student-distrib/lib.c:442-506 | the copy predicate holds of the plain byte copy and of nothing else |
| Numbers.NumeralReadsBack | student-distrib/lib.c:291-321 | reading the digits back gives the number, for every radix 2..36, without leading zero except for 0 |
| Numbers.DigitsBound | student-distrib/lib.c:309-314 | a number below radix^k has at most k digits |
| Numbers.WriteDigits | student-distrib/lib.c:309-317 | the digit loop stores the digits lowest first, terminated, and touches nothing else |
| Numbers.Strrev | student-distrib/lib.c:327-340 | the string is reversed in place and nothing else changes |
| Numbers.Itoa | student-distrib/lib.c:291-321 | the buffer holds the numeral of the value and only its bytes were written |
| Numbers.PrintHexAligned | student-distrib/lib.c:148-158 | exactly eight hexadecimal digits that denote the value |
| FileSystem.JoinedAt | student-distrib/filesys.c:98-110 | division and remainder by 4096 find byte k of the blocks joined in listed order, however scattered they are |
| FileSystem.FetchByte | student-distrib/filesys.c:100-110 | one byte of the file's contents |
| FileSystem.ReadData | student-distrib/filesys.c:82-120 | the slice of the file from the offset, cut at its end, lands in the buffer and nothing else changes; an inode number above the count is refused |
| FileSystem.ReadDentryByIndex | student-distrib/filesys.c:61-75 | entry and failure condition, index 63 included |
| FileSystem.SameName | student-distrib/filesys.c:31-45 | the bounded comparison decides equality of names, also for 32-byte names without terminator |
| FileSystem.ReadDentryByName | student-distrib/filesys.c:14-53 | succeeds exactly when an entry has the name and returns that entry |
| FileSystem.NamesAnEntry | student-distrib/filesys.c:29-50 | looking up the name of entry i finds entry i |
| Images.ContentsRoundTrip | student-distrib/filesys.c:82-120 | every file of an image built at literal offsets has the contents that were put in, however its blocks are scattered |
| Images.EntryRoundTrip | student-distrib/filesys.c:14-75 | every entry has the name, type and inode number that were put in |
| Images.BuiltWellFormed | student-distrib/filesys.c:14-75 | such images are well formed |
| Images.LookupRoundTrip | student-distrib/filesys.c:14-53 | looking a name up finds the entry put in under it, and only names put in are found |
| Images.OpenByKind | student-distrib/system.c:444-503 | what opening an entry gives for types 0, 1, 2 and any other |
| Images.OpenAndReadRoundTrip | student-distrib/system.c:369-503 | opening a file by name and reading twice gives its first bytes and then those that follow |
| Images.DirectoryRoundTrip | student-distrib/filesys.c:190-227 | reading the directory at position k gives the name put in as entry k; reading the clock gives nothing |
| Descriptors.Pcb.constructor | student-distrib/pcb.c:27-55 | a new process has the terminal on 0 and 1 and six closed descriptors |
| Descriptors.Pcb.Open | student-distrib/system.c:444-503 | the table and the result are those of `OpenStep`: lowest free descriptor, position 0, by entry type |
| Descriptors.Pcb.Close | student-distrib/system.c:509-528 | the table and the result are those of `CloseStep`; descriptors 0 and 1 stay open |
| Descriptors.Pcb.FileRead | student-distrib/filesys.c:128-147 | delivers the next bytes of the file and advances by as many; a negative count delivers the rest of the file |
| Descriptors.Pcb.DirRead | student-distrib/filesys.c:190-227 | delivers the next name, NUL-padded to 32 bytes whatever the count, and advances by one; a negative count delivers an empty name |
| Descriptors.Pcb.Read | student-distrib/system.c:369-404 | the table and the delivery are those of `ReadStep` for every descriptor and every 32-bit count |
| DescriptorRuns.Run | student-distrib/system.c:369-528 | after every run of calls each open file descriptor has returned exactly the file's bytes up to its position |
| DescriptorRuns.EveryReadContinuesTheFile | student-distrib/filesys.c:128-147 | after every run a read returns exactly what follows the bytes already returned; it is empty exactly at the end or for count 0 |
| DescriptorRuns.OpenTakesLowestFree | student-distrib/system.c:457-502 | when open succeeds, which index it returns, and that it touches nothing else |
| DescriptorRuns.FreshTableIs | student-distrib/pcb.c:27-55 | in a new process 0 reads the keyboard and no other descriptor can be read |
| DescriptorRuns.CloseIs | student-distrib/system.c:509-528 | close succeeds exactly on an open descriptor 2..7, clears its flag and touches nothing else |
| DescriptorRuns.UnopenedReadFails | student-distrib/system.c:369-404 | reading fails and changes nothing on every descriptor that is out of range, not open, or 1 |
| DescriptorRuns.ClosedIsClosed | student-distrib/system.c:369-528 | what has been closed can be neither read nor closed again |
| DescriptorRuns.NegativeCountIs | student-distrib/filesys.c:128-227 | a negative count delivers the rest of a file, and an empty name of the directory, which still advances |
| DescriptorRuns.ListingIsTheDirectory | student-distrib/filesys.c:190-227 | repeated 32-byte reads list every name once in order |
| DescriptorRuns.ListingEnds | student-distrib/filesys.c:61-75 | the read after the last name returns 0 exactly when the byte behind the last entry is NUL |
| DescriptorRuns.FullListingRunsOn | student-distrib/filesys.c:61-75 | a well-formed image with 63 entries whose listing goes on with a name read from inode 0 |
| Loader.LoadFile | student-distrib/system.c:337-360 | terminates with the whole file at the load address and everything else but the scratch buffer unchanged |
| Programs.LoadAddressIsInFrame | student-distrib/system.c:337-360 | the load address leads, byte by byte, to the frame of the mapped process |
| Programs.ExecuteProgram | student-distrib/system.c:107-221 | after a successful execute the program is readable at the load address through the tables, and outside the new process's frame only kernel memory has changed |
| Programs.OtherFramesUntouched | student-distrib/system.c:107-221 | then the memory of every other slot is as it was |
| Loader.ChunkLoaded | student-distrib/system.c:350-357 | one 100-byte read followed by the copy extends the loaded part |
| GrepSpec.PrintedIsExpected | syscalls/ece391grep.c:20-60 | for files with any bytes, the printed rows are the matching lines in order and once each if and only if no matching line is torn, holds a NUL or cannot be searched for |
| GrepSpec.CleanBufferIsExpected | syscalls/ece391grep.c:20-60 | with a clean buffer the condition is: matching lines of at most 1024 bytes without NUL, searchable pattern |
| GrepSpec.ExpectedAreLines | syscalls/ece391grep.c:40-51 | the expected output is exactly the lines of the file that contain the pattern |
| GrepSpec.LinesJoin | syscalls/ece391grep.c:28-32 | the lines of a file are its text cut at the newlines |
| GrepSpec.StaleNewlineTears | syscalls/ece391grep.c:31-39 | a newline left behind the buffer tears every matching line across the cut |
| Grep.Strcpy | syscalls/ece391support.c:14-17 | the overlapping forward copy moves the string and its terminator down to any destination and touches nothing else |
| Grep.Strncmp | syscalls/ece391support.c:35-46 | 0 exactly when the text at the position equals the whole pattern, otherwise the difference at the first byte that differs |
| Grep.SearchRow | syscalls/ece391grep.c:42-51 | stops exactly when the row, with whatever bytes, contains a searchable pattern, or holds a NUL and the pattern is empty |
| Grep.PutRow | syscalls/ece391support.c:19-22 | prints the row up to its first NUL |
| Grep.CloseRow | syscalls/ece391grep.c:40-51 | the terminated row is shown as `Shown` says and only its end byte changes |
| GrepScan.RowAtNewline | syscalls/ece391grep.c:41-56 | a row ended by its newline accounts for the first row of the rest |
| GrepScan.LastRow | syscalls/ece391grep.c:52-56 | the row that ends a pass, at a newline, at the buffer's end or at the end of the file |
| GrepScan.CarriedRow | syscalls/ece391grep.c:33-39 | carrying an unfinished row down does not change what is still to be printed |
| GrepScan.ScanStep | syscalls/ece391grep.c:28-57 | rows shown in one round and rows of what follows add up to the rows of the file, whether or not a carried row holds a NUL |
| GrepScan.ScannedIsExpected | syscalls/ece391grep.c:20-60 | for every file: the scan prints the matching lines and nothing else if and only if no matching line is torn, cut or unsearchable and no clipped row hits |
| GrepScan.CleanIsPrinted | syscalls/ece391grep.c:33-38 | a file whose carried rows hold no inner NUL prints exactly its rows |
| GrepScan.TextCarriesClean | syscalls/ece391grep.c:33-38 | files without NUL always qualify |
| GrepScan.CleanIsQuiet | syscalls/ece391grep.c:33-38 | such files have no clipped rows |
| GrepMachine.PassShape | syscalls/ece391grep.c:28-57 | what a pass keeps is exactly the unfinished row behind the last newline, or nothing; a cut at the buffer's end clears the byte behind it |
| GrepMachine.PassRows | syscalls/ece391grep.c:28-57 | a pass prints the rows of the buffer up to the part it keeps, for any bytes |
| GrepMachine.PassForms | syscalls/ece391grep.c:33-38 | the kept bytes are the carried row up to its first NUL and older bytes of the buffer behind it; no newline is left |
| GrepMachine.MachineScans | syscalls/ece391grep.c:20-60 | over all passes the machine prints what the scan of the file says |
| GrepMachine.GrepFileScans | syscalls/ece391grep.c:9-66 | what is printed for every file from every buffer, in terms of the file and two facts about the buffer |
| GrepMachine.BufferMatters | syscalls/ece391grep.c:9-66 | buffers that agree on these two facts give the same output |
| GrepMachine.GrepIsExpected | syscalls/ece391grep.c:9-66 | for every file, pattern and buffer, the output is right if and only if no matching line is torn, cut or unsearchable and no clipped row hits |
| GrepMachine.GrepPrints | syscalls/ece391grep.c:20-60 | a file whose carried rows hold no inner NUL prints exactly its rows, from every buffer |
| GrepMachine.NulInventsARow | syscalls/ece391grep.c:33-38 | a file for which a row is printed that no line accounts for, and the buffers for which it is not |
| GrepMachine.NulLosesAMatch | syscalls/ece391grep.c:33-38 | a file whose matching row is not printed |
| GrepMachine.VisibleIs | syscalls/ece391support.c:19-22 | what is visible of a row is everything before its first NUL |
| GrepMachine.HighPatternIsNeverFound | syscalls/ece391grep.c:43 | a pattern whose first byte is 128 or more is found in no file |
| GrepMachine.EmptyPatternFindsNul | syscalls/ece391grep.c:42-51 | an empty pattern finds a row exactly when it holds a NUL, and prints what is before it |
| Grep.CarryDown | syscalls/ece391grep.c:35-37 | the unfinished row, with whatever bytes, is at the start of the buffer up to its first NUL; everything behind is as it was |
| Grep.Pass | syscalls/ece391grep.c:28-57 | for every content of the buffer: the rows printed, the buffer left and the bytes kept are those of the machine |
| GrepProgram.Refill | syscalls/ece391grep.c:22-27 | the next bytes of the file are behind the kept ones and no other byte changes |
| GrepProgram.GrepOpen | syscalls/ece391grep.c:20-60 | terminates for files with any bytes, having printed the rows of the machine and left its buffer; no other descriptor changes |
| GrepProgram.DoOneFile | syscalls/ece391grep.c:9-66 | when it succeeds, what it prints and the buffer it leaves for files with any bytes, and that no descriptor is left changed |
| GrepProgram.NextName | syscalls/ece391grep.c:84-91 | the next directory name as a C string, empty behind the last |
| GrepProgram.GrepMain | syscalls/ece391grep.c:68-97 | for files and buffers with any bytes: the report and the buffer after all entries in directory order, or code 2 exactly when there is no directory entry |
| GrepProgram.ChunkIsWanted | syscalls/ece391grep.c:84-94 | for every image, pattern and buffer, an entry prints what it is meant to if and only if no matching line of it is torn, cut or unsearchable and no clipped row hits |
| GrepProgram.CleanChunkIsWanted | syscalls/ece391grep.c:84-94 | an entry without inner NULs in carried rows prints the rows of its file whatever the other entries hold, and these are the wanted lines if and only if its matching lines fit |
| GrepProgram.TextEntryIsClean | syscalls/ece391grep.c:33-38 | an entry without NUL bytes qualifies |
| GrepProgram.ReportIsWanted | syscalls/ece391grep.c:84-94 | the report is the wanted one if and only if every entry's part is, for every image and buffer |
| GrepProgram.WholeReportIsWanted | syscalls/ece391grep.c:84-94 | for every image, pattern and buffer, the whole report is the wanted one if and only if that condition holds for every entry |
| GrepProgram.ReportTexts | syscalls/ece391grep.c:40-52 | read back under the name of an entry, the report is what grep prints for that file, row by row in order; nothing under a dotted name |
| GrepProgram.BuiltText | syscalls/ece391grep.c:22-27 | on an image built from files, what grep reads for an entry is what was put in |
| GrepProgram.GrepOnDisk | syscalls/ece391grep.c:68-97 | on an image built from files, the lines reported under a text file's name are exactly its lines with the pattern, in order, whatever the other files hold |
| Screen.Put | student-distrib/lib.c:234-274 | the cursor stays in 0..79 by 0..25, and in column 0 of row 25, so every cell written is on the screen |
| Screen.Backspaced | student-distrib/lib.c:73-89 | the same bounds for backspace |
| Screen.BackspaceUndoesPut | student-distrib/lib.c:73-89 | a character that neither wraps nor scrolls is undone up to a blank |
| Screen.BackspaceUndoesNewline | student-distrib/lib.c:75-84 | a newline behind the last character of a row is undone |
| Screen.BackspaceUndoesWrap | student-distrib/lib.c:73-89 | a character in column 79, that of the last row included, is undone exactly when column 78 is not blank |
| Screen.BackspaceIntoPreviousRow | student-distrib/lib.c:75-84 | from the start of a row, the put-off one included, where a backspace goes and that only that cell is blanked |
| Screen.BackspaceAtOrigin | student-distrib/lib.c:75-84 | in the first cell a backspace stays and blanks it |
| Screen.PutDraws | student-distrib/lib.c:261-274 | which two bytes a character writes and where the cursor goes |
| Screen.ClearedIs | student-distrib/lib.c:57-67 | blanks, attribute 7, cursor in the first cell |
| Screen.CarriageReturnIsNewline | student-distrib/lib.c:236-239 | 13 does what 10 does: the next row, with a scroll at once in the last one |
| Screen.ConsolesAreIndependent | student-distrib/task_switch.c:9-19 | each terminal ends as if it alone had received the events issued while it was active |
| VideoConsole.Display.ScrollUp | student-distrib/lib.c:249-260 | all rows move up by one and the bottom row is blank |
| VideoConsole.Display.PutPhysical | student-distrib/lib.c:234-274 | video memory and cursor become those of `Put` |
| VideoConsole.Display.BackspacePhysical | student-distrib/lib.c:73-89 | video memory and cursor become those of `Backspaced` |
| VideoConsole.Display.Putc | student-distrib/lib.c:234-274 | the view of all three terminals makes the step of the active one |
| VideoConsole.Display.Bksp | student-distrib/lib.c:73-89 | the same for backspace |
| VideoConsole.Display.Clear | student-distrib/lib.c:57-67 | the same for clear |
| VideoConsole.Display.SaveScreen | student-distrib/lib.c:31-33 | the save area of the active terminal holds screen and cursor, char slots included; the others are unchanged |
| VideoConsole.Display.SwitchTo | student-distrib/lib.c:30-39 | only which terminal is active changes in the view |
| VideoConsole.Display.Play | student-distrib/lib.c:30-274 | over every run of these calls, video memory, cursor and save areas hold for each terminal what its own console shows after the events issued while it was active |
| Paper.ScrollMovesWindow | student-distrib/lib.c:249-260 | scrolling moves the window down one row, onto blank paper |
| Paper.PutKeepsWindow | student-distrib/lib.c:234-274 | a character keeps screen and sheet together exactly when it is not a tab in the put-off row |
| Paper.ScreenIsAWindow | student-distrib/lib.c:234-274 | after clear and S scrolls screen row r is sheet row S + r, after every prefix, if and only if no tab comes late |
| Paper.TabFreeIsNoLateTab | student-distrib/lib.c:242-244 | texts without tabs always qualify |
| Paper.PrintedIsRun | student-distrib/lib.c:234-274 | the text on the screen here is the run of its characters on a cleared console |
| Paper.LateTabHappens | student-distrib/lib.c:242-274 | a text of 24 newlines, a full row and a tab does not |
| LineBuffer.KeyRefines | student-distrib/dev/terminal.c:42-75 | from every state a key does what it means for all three terminals if and only if it overwrites neither the next one's first nor the previous one's last pending character |
| LineBuffer.KeySpills | student-distrib/dev/terminal.c:68-69 | from every state the byte behind all three buffers is overwritten exactly by the 1026th pending key of the last terminal |
| TerminalRuns.ClobberingHappens | student-distrib/dev/terminal.c:68-69 | a run of keys after which the next one overwrites a character of the next terminal |
| TerminalRuns.ClobberingHappensBackwards | student-distrib/dev/terminal.c:68-69 | a run of keys after which the first key of the next terminal overwrites a character of the previous one |
| LineBuffer.ReadRefines | student-distrib/dev/terminal.c:25-34 | from every state a read does what it means for all three terminals if and only if what it leaves does not overwrite the previous one's last character |
| LineBuffer.HandedIs | student-distrib/dev/terminal.c:25-34 | a read hands over the first pending characters, the count or all there are |
| Terminal.Driver.Write | student-distrib/dev/terminal.c:42-75 | keyboard bytes act up to the first backspace or newline, with the result that goes with it; standard output is drawn and leaves the buffers alone |
| TypedLine.EchoIs | student-distrib/dev/terminal.c:52-71 | every key before the first backspace or newline is drawn as itself, and so is a newline; a backspace is drawn exactly when a character is pending then |
| TypedLine.ReturnedIs | student-distrib/dev/terminal.c:52-74 | 0 when a backspace comes first, 1 when a newline does, the count otherwise |
| TypedLine.EchoShowsLine | student-distrib/dev/terminal.c:52-71 | what a keyboard write draws keeps the pending line on the screen |
| TypedLine.EnterKeepsLine | student-distrib/dev/terminal.c:63-66 | Enter leaves the line and goes to the start of the next row |
| TypedLine.TypedLineShows | student-distrib/dev/terminal.c:42-75 | after any number of writes on one row, the row shows exactly the pending line with the cursor behind it |
| Terminal.Driver.Read | student-distrib/dev/terminal.c:16-35 | delivers the first pending characters and a terminator, leaves the rest of the caller's buffer alone, and moves the remaining characters down |
| TerminalRuns.StepBalances | student-distrib/dev/terminal.c:16-75 | one key or read keeps delivered ++ pending = text if and only if its key is stored |
| TerminalRuns.NothingLostNothingInvented | student-distrib/dev/terminal.c:16-75 | over every run, delivered ++ pending is the typed text with backspaces applied at every point if and only if every key is stored; delivered bytes are never taken back |
| TerminalRuns.RunRefines | student-distrib/dev/terminal.c:16-75 | over every run the adjoining buffers behave as three separate ones throughout if and only if no act clobbers a neighbour |
| TerminalRuns.RoomyIsSafe | student-distrib/dev/terminal.c:68-69 | while every key finds room in its own 1025 bytes, nothing is clobbered and every key is stored |
| TerminalRuns.Play | student-distrib/dev/terminal.c:16-75 | over every run of keyboard writes, standard output and reads without clobbering, delivered and pending bytes are those of three separate buffers, and together the typed text if every key is stored |
| Processes.MaskFindsOwner | student-distrib/pcb.c:64-72 | anywhere on a process's kernel stack the mask finds its control block |
| Processes.StackFillsItsSlot | student-distrib/system.c:188-221 | control block and stack fill the 8 KB of a process, the slots going down from 8 MB without a gap |
| Processes.BootInv | student-distrib/kernel.c:199-205 | boot establishes the process invariant |
| Processes.ExecuteKeepsInv | student-distrib/system.c:137-193 | a successful execute makes a free slot, never slot 0, the child of the running process; a failing one changes nothing |
| Processes.HaltExact | student-distrib/system.c:31-85 | halt keeps the invariant exactly when the process is no root or a shell can be executed |
| Processes.SwitchExact | student-distrib/task_switch.c:9-41 | a switch keeps the invariant exactly when the terminal is open or a root shell can be started |
| Processes.Step | student-distrib/system.c:31-193 | every admissible step keeps the invariant |
| ProcessRuns.TerminalIsAChain | student-distrib/system.c:175-193 | the live slots of an open terminal are one chain without repetition from a self-parent root to the top |
| ProcessRuns.EveryRunIsSound | student-distrib/kernel.c:199-205 | after boot and every admissible run: running process, page, stack, slot 0, and the processes of every open terminal are one chain |
| ProcessRuns.RunningSeesOnlyItself | student-distrib/paging.c:78-90 | in every such state a user access stays in the running process's frame or the video page |
| ProcessRuns.OtherTerminalsUntouched | student-distrib/system.c:31-193 | no execute, halt or switch touches the processes of another terminal |
| ProcessRuns.RootIsReplaced | student-distrib/system.c:44-50 | after a root halts its terminal has exactly one process, a self-parent shell on top |
| ProcessRuns.RunNest | student-distrib/system.c:31-221 | balanced nesting restores table, tops, running process, page and stack; `curr_process` exactly when it was the running process |
| ProcessRuns.SwitchLeavesCurrent | student-distrib/task_switch.c:21-40 | after an admissible switch `curr_process` is the running process if and only if the terminal is new or `curr_process` is its top |
| ProcessRuns.CurrentAfterEveryRun | student-distrib/task_switch.c:21-40 | after every admissible run `curr_process` is the top of the terminal of the last event that executed or halted, so it is the running process if and only if that terminal is active |
| ProcessRuns.FullTableBreaksSwitch | student-distrib/task_switch.c:14-19 | five programs from the first shell fill the table, and entering a new terminal then breaks the invariant |
| ProcessRuns.FreeAfterBoot | student-distrib/kernel.c:146-205 | after boot slot 0 alone is live, on terminal 0, and the other terminals are unopened |
| ProcessRuns.SwitchTouchesNoProcess | student-distrib/task_switch.c:9-41 | a switch to an open terminal leaves slots, links, tops and `curr_process` of all terminals alone; one to a new terminal takes one free slot and touches nothing else |
| ProcessRuns.SwitchAndBack | student-distrib/task_switch.c:21-40 | going to another open terminal and back gives back the whole state |
| ProcessCode.System.constructor | student-distrib/kernel.c:146-205 | boot state, with the tables mapping the first shell |
| ProcessCode.System.Execute | student-distrib/system.c:107-221 | the globals become those of `Processes.Execute`, and the tables map the new process |
| ProcessCode.System.Halt | student-distrib/system.c:31-85 | the globals become those of `Processes.Halt`, and the tables map the process that takes over |
| ProcessCode.System.SwitchToTty | student-distrib/task_switch.c:9-41 | the globals become those of `Processes.SwitchTty`, and the tables map the process switched to |
| TerminalSwitch.Terminals.SwitchToTty | student-distrib/task_switch.c:9-41 | screens and processes make their steps and agree on the active terminal; a new terminal is cleared, every other console is unchanged; the process invariant survives exactly under the condition of `SwitchExact` |
| ProcessCode.System.Access | student-distrib/paging.c:78-90 | in a sound state every 32-bit user access through the tables in memory reaches the running process's frame, the video page if handed out, or nothing |
| Paging.WalkIsUserView | student-distrib/paging.c:21-105 | for every 32-bit address the user-mode walk reaches exactly the process's own 4 MB and the video page through entry 33 |
| Paging.PrivateMemoryIsDisjoint | student-distrib/paging.c:78-83 | private memory of different processes never overlaps and lies above kernel and video memory |
| Paging.KernelIsOutOfReach | student-distrib/paging.c:38-41 | no user access reaches the kernel's page |
| Paging.KernelReachesItself | student-distrib/paging.c:36-41 | in supervisor mode the kernel's page and video memory are where they are, the rest of the first 4 MB faults, and the process is at 128 MB |
| Paging.UserEntryIs | student-distrib/paging.c:80-82 | the directory entry of a process is a present user 4 MB page at its frame |
| Paging.Mmu.constructor | student-distrib/paging.c:21-43 | the tables map nothing for users |
| Paging.Mmu.CreatePage | student-distrib/paging.c:78-90 | the tables represent the process's space |
| Paging.Mmu.SetVidmap | student-distrib/paging.c:97-105 | the tables also hand out the video page at the returned address |
| Blinkers.OscillatesForever | fish/blink.S:49-99 | after k ticks a fresh cell is on exactly when k mod (on + off) < on, with the matching countdown, for all 16-bit lengths |
| Blinkers.InPhaseAfter | fish/blink.S:49-99 | after k ticks a fresh cell is at position k of its on/off cycle, with status and countdown to match |
| Blinkers.PhaseIsRemainder | fish/blink.S:49-99 | that position is k mod (on + off) |
| Blinkers.NominalCycle | fish/blink.S:64-66 | the lengths as given describe the cycle at every tick if and only if both are in 1..32768 |
| Blinkers.SyncedForever | fish/blink.S:267-275 | synchronised cells agree at every later tick |
| Blinkers.SyncedCellsBlinkTogether | fish/blink.S:240-275 | the same for two cells of any list |
| Blinkers.RedrawMatchesPhase | fish/blink.S:68-86 | a cell that changes phase is redrawn with the character of its new phase |
| Blinkers.RedrawnExactly | fish/blink.S:62-90 | what a tick draws: a drawing for every cell that expires, and none for the others |
| Blinkers.RedrawnInOrder | fish/blink.S:49-99 | drawings come in list order |
| Blinkers.ExpiryIs | fish/blink.S:62-86 | which countdowns expire; an expiring cell changes phase, any other only counts down |
| Blinkers.RemovedIs | fish/blink.S:187-237 | exactly the first cell at the location goes |
| Blinkers.SyncedIs | fish/blink.S:240-300 | the second cell takes the four timing fields and keeps the rest; every other cell stays |
| BlinkList.LinkedFront | fish/blink.S:159-162 | linking a free slot at the front keeps the list acyclic and equal to the taken slots |
| BlinkList.UnlinkedOk | fish/blink.S:206-223 | so does unlinking any node and zeroing its slot |
| BlinkList.FullPool | fish/fish.c:160-170 | the pool is full exactly when the list has 2000 nodes |
| BlinkList.AddedIsAList | fish/blink.S:140-162 | from whatever pool, an add leaves a well-formed list if and only if it found one and the location is not 0 |
| BlinkList.AddAllIsAList | fish/blink.S:105-184 | a run of adds on a list leaves a list if and only if no cell at location 0 finds a free slot |
| BlinkList.ZeroLocationMakesACircle | fish/blink.S:140-162 | the next add reuses the slot and the node points to itself |
| BlinkCode.Pool.Malloc | fish/fish.c:160-170 | the lowest slot with location 0, or NULL |
| BlinkCode.Pool.Add | fish/blink.S:105-184 | pool and head become those of `AddStep` from any state; on a list it fails exactly for a location out of range or a full pool, puts the armed cell first, and leaves a list exactly when the location is not 0 |
| BlinkCode.Pool.Find | fish/blink.S:351-379 | the first node at the location, or NULL |
| BlinkCode.Pool.Remove | fish/blink.S:187-237 | deletes the first match, fails exactly when there is none |
| BlinkCode.Pool.Sync | fish/blink.S:240-300 | the second cell takes the timing of the first; the cell drawn is always the off character |
| BlinkCode.Pool.Tasklet | fish/blink.S:49-99 | every cell of the list ticks once, and exactly the expired ones are redrawn in list order |
| BlinkCode.Pool.Play | fish/blink.S:49-379 | any run of adds, removes, syncs and ticks is the run on a plain list of cells, drawings included |
| BlinkCode.ArmedIsFresh | fish/blink.S:135-138 | what add stores is on, with the whole on-length before it, and otherwise what was handed over |
| BlinkCode.AddedCellBlinks | fish/blink.S:49-184 | k ticks after a successful add the first cell is the added one and is on exactly when k mod (on + off) < on; the others have ticked k times |
| Frames.AddRow | fish/fish.c:100-130 | one row of both files: an add for every column where one of them is not blank, each file left behind its newline |
| Frames.AddFrames | fish/fish.c:78-148 | terminates with exactly one add for every spot of the two texts laid over each other, in reading order |
| Frames.SpotsAre | fish/fish.c:98-130 | the spots are exactly the places where one of the texts is not blank, with both characters |
| Frames.FramesLeaveAList | fish/fish.c:121-127 | the list is well formed afterwards if and only if every visible place with row * 80 + column + 40 divisible by 65536 comes after 2000 places in range |
| Frames.SmallFramesLeaveAList | fish/fish.c:121-127 | with at most 2000 visible places: if and only if no visible place has row * 80 + column + 40 divisible by 65536 |
| Frames.DeepFrameBreaksTheList | fish/fish.c:125 | a character in row 818, column 56 breaks the list |
| Frames.RowsJoin | fish/fish.c:98-148 | the rows of a file are its text cut at the newlines |
| Frames.LocationIsOnScreen | fish/fish.c:125 | a spot of the left 40 columns is drawn in the right half of its screen row |
| Frames.SpotBlinks | fish/fish.c:87-126 | a spot shows the first text in ticks 0..14 of every 30 and the second in the rest |

## Left out

- Scheduling (`get_next_process`, `switch_process`): the code computes the next terminal and returns the current one, so no round-robin statement is true of it.
- Saved stack pointers, IRET frames and `ret_from_child`: control transfer is the slot that runs.
- Interrupt controller, timer, clock and descriptor-table programming, keyboard scan codes and the hardware cursor: device I/O.
- Busy waiting in `terminal_read` and `rtc_read`: a read is a step that is enabled once Enter has been seen; no claim that it ever is.
- `parse_args`, `getargs` and the check for the executable magic: whether a command is a valid program is a parameter of `execute`.
- GrepProgram.DoOneFile: an entry of the name is a file or the clock; an undotted directory entry or an unknown file type is not covered.
- GrepProgram.GrepMain: the same for the entries, "." is the directory and the byte behind the last entry is NUL. The buffers are handed in as one stack frame that all calls reuse and nothing else writes between them.
- Memory.Memcpy: a destination that starts inside the source is not covered; the code does not claim to handle it.
- Descriptors.Pcb.Read: on descriptor 0 the keyboard side is a parameter; the terminator it stores behind its bytes is in `Terminal.Driver.Read`.
- Terminal.Driver.Read: negative counts are not covered; they index before the buffer.
- VideoConsole.Display.SaveScreen: the save areas are one flat array and the cursor slots hold signed chars; the copy is written as a byte loop rather than as a call of `Memory.Memcpy`.
- ProcessCode.System.Execute: filling the descriptors of the control block is a separate component here (`Descriptors`), and so is loading (`Programs.ExecuteProgram`).
- Programs.ExecuteProgram: a program that does not fit the 4 MB page is not covered; the code would fault.
- ProcessCode.System.Halt: closing the descriptors of the control block is not part of it.
- BlinkCode.Pool.Play: adds at location 0 are left out; `AddedIsAList` says what they do, and the walks do not end on a circle.
- Frames.AddFrames: the contents of the two files are parameters, opening and closing them is left out, and row and column are unbounded integers.
- Paging.Mmu.CreatePage: TLB flushing and the enabling of paging are not modelled; the table is always the one in memory.
- The Linux emulation layer, the other user programs, boot code and build files.
