# A verified model of a small multi-terminal kernel and its programs

The repository is a teaching kernel for x86 with three text terminals sharing one screen, a read-only block filesystem,
six processes, and user programs on top. The project models the parts whose correctness is not evident from any one
function, and proves what they are for.

* **Terminals** (`Console`, `Paper`, `Terminal`, `Keyboard`, `System`, `Kernel`). `Kernel.Multiplexer` is the kernel's own
  state: four 4096-byte frames in one array of physical memory, one page-table entry, per-terminal cursors and buffers, one
  static line buffer. `System` is what it is meant to be: three terminals that know nothing of each other. Every handler is
  proved to be one step of `System`, so every run of the kernel is a run of three independent terminals; what such a run
  means (paper, lines, no leaks) is proved of `System`, `Terminal` and `Paper`. The constructor leaves the state before
  the first tick or key, whose handlers need no more than that; from then on the mapping invariant holds between
  handlers. `RunFromBoot` is the whole of it.
* **Files** (`FileSystem`, `Directory`, `Descriptors`, `Streams`, `Lines`, `Grep`). The image is one flat sequence of bytes.
  What a disk is to hold is stated byte by byte (`Laid`, `EntryLaid`, `OnDisk`), and whatever is laid there is what is
  found and read: the block walk is a slice of a flat file, descriptor reads compose to prefixes of it, `cat` copies it,
  and the carry-over search of `grep` is a search of its lines.
* **Processes** (`CommandLine`, `Loader`, `Forest`, `Processes`). `Forest` is three chains of processes; `Processes` is the
  kernel's tables, control blocks, page directory entry and stack pointer, proved to stand for the chains after every
  execute, halt and tick. Stack discipline is proved over all runs of `Forest`.
* **Blinking characters** (`Blink`, `BlinkScreen`, `BlinkEngine`). `Blink` is a list of entries and the closed form of
  their blinking; `BlinkScreen` says what the user should see and which operations keep it so; `BlinkEngine` is the linked
  list through a pool of 2000 slots, proved to keep that list and to draw that screen.
* **Printing and parsing** (`Numbers`, `Emulator`). Numerals read back, command lines cut and joined.

One interrupt handler, and one output character, is one atomic step.

Where the code and its comments disagree the model follows the code: `terminal_read` and `fs_read` return counts
(student-distrib/terminal.c:91 and student-distrib/filesystem.c:73 say 0), `itoa` returns its buffer
(student-distrib/lib.c:425 says a byte count), `execute` returns a field of the child's control block that the
child's own `halt` never sets (student-distrib/sys_call.c:536 sets the parent's), so what it returns is the last status a
grandchild passed, and a sync draws the off character always, because the conditional move at fish/blink.S:282 never
moves.

## Model

| member | source | states |
|---|---|---|
| `Kernel.Multiplexer.InitGlobalScheduler` | student-distrib/scheduler.c:19-53 | boot: terminal 0 on display, terminal 2 nominally scheduled, all cursors home, no line begun or entered, 0xB8000 mapped to real video |
| `Kernel.Multiplexer.SetWriteToVideomem` | student-distrib/paging.c:182-190 | virtual 0xB8000 reaches real video |
| `Kernel.Multiplexer.SetWriteToBuffer` | student-distrib/paging.c:201-227 | virtual 0xB8000 reaches the numbered terminal's own frame, the first one's for any other number |
| `Kernel.Multiplexer.ScrollAt` | student-distrib/lib.c:125-190 | every row moves up one and the bottom row is blank, in the mapped frame only; the cursor is at the start of the bottom row; no other frame or cursor changes |
| `Kernel.Multiplexer.Putc` | student-distrib/lib.c:336-373 | on the mapped frame and the visible terminal's cursor it is exactly a stand-alone terminal's output of one character, wrapping and scrolling included; every other frame and cursor is kept |
| `Kernel.Multiplexer.PutcModified` | student-distrib/lib.c:380-416 | the same transformation, at the scheduled terminal's cursor |
| `Kernel.Multiplexer.HandleBackspace` | student-distrib/lib.c:94-114 | the cell before the cursor is blanked and becomes the cursor's, across row ends; at the top left the cell itself; nothing else changes |
| `Kernel.Multiplexer.Clear` | student-distrib/lib.c:41-47 | every cell of the mapped frame is blank, every other frame is kept |
| `Kernel.Multiplexer.SwitchTerminals` | student-distrib/scheduler.c:62-94 | a switch changes which terminal is visible and no terminal's logical screen, line or entered line; the scheduled terminal's mapping is right again afterwards |
| `Kernel.Multiplexer.SetLineBuffer` | student-distrib/scheduler.c:247-250 | the shared static buffer starts with the visible terminal's own line |
| `Kernel.Multiplexer.SetGlobalBuffer` | student-distrib/scheduler.c:259-263 | the visible terminal's line becomes the start of the shared buffer; the other terminals' lines are kept |
| `Kernel.Multiplexer.SetTerminalBuffer` | student-distrib/terminal.c:159-171 | the entered line goes to the visible terminal and to no other |
| `Kernel.Multiplexer.Backspace` | student-distrib/keyboard.c:46-55 | backspace shortens the visible terminal's line and erases its last character on screen, and does nothing on an empty line |
| `Kernel.Multiplexer.EnterLine` | student-distrib/keyboard.c:57-69 | Enter prints a newline, hands the line over as entered and begins an empty one |
| `Kernel.Multiplexer.ClearVisible` | student-distrib/keyboard.c:107-115 | Ctrl-L clears the visible screen and its line |
| `Kernel.Multiplexer.OtherKey` | student-distrib/keyboard.c:80-171 | every other key: a switch with Alt, or the character the modifiers give, typed unless 127 are there already |
| `Kernel.Multiplexer.CheckInput` | student-distrib/keyboard.c:28-181 | one keyboard interrupt is one step of three independent terminals, whatever is scheduled and visible |
| `Kernel.Multiplexer.SchedulerNext` | student-distrib/scheduler.c:288-310 | a tick changes only which terminal is scheduled: the next of 0, 1, 2 in turn; the mapping follows it, to 0xB8000 or the terminal's own page |
| `Kernel.Multiplexer.WhereScreensAre` | student-distrib/scheduler.c:62-94 | the 4096 bytes at 0xB8000 are the visible terminal's screen, and terminal t's are at 0xB9000 + 0x1000 t while it is not visible |
| `Kernel.Multiplexer.EmitCharacter` | student-distrib/terminal.c:79-81 | one output character of the scheduled program is one step of three independent terminals |
| `Kernel.Multiplexer.TerminalWrite` | student-distrib/terminal.c:75-85 | writing a buffer is the run of its characters, all to the scheduled terminal |
| `Kernel.Multiplexer.TerminalRead` | student-distrib/terminal.c:94-124 | a read by terminal t's program returns t's last entered line and one newline, and its length; the rest of the buffer is zero up to nbytes |
| `Kernel.Multiplexer.Run` | student-distrib/bug_log.txt:22-34 | refinement: any run of ticks, keys, output characters and reads leaves the multiplexed kernel's four frames, one mapping and shared line buffer showing exactly what three independent terminals would show |
| `Kernel.RunFromBoot` | student-distrib/scheduler.c:19-53 | the same from boot: constructing the kernel, then a first tick or key, then any run is a run of three independent terminals from their boot state |
| `System.TerminalsAreIndependent` | student-distrib/scheduler.c:62-94 | over every interleaving each terminal is what a stand-alone terminal fed its own history is; the history is read off the schedule and the keys alone |
| `System.NoLeak` | student-distrib/bug_log.txt:29-34 | two systems that agree on terminal t and on the schedule agree on t after any run: no text leaks in from another terminal |
| `System.EachLineIsItsOwnKeys` | student-distrib/keyboard.c:28-181 | a terminal's line is the edited text of the keys it got while visible, and what its program can read is the line last entered there |
| `System.EachTerminalShowsItsOwnPaper` | student-distrib/lib.c:336-416 | a terminal showing its own sheet of paper goes on doing so whatever the other terminals and the user do |
| `System.PrintingIsPutAll` | student-distrib/terminal.c:75-85 | a string printed by the scheduled program changes its terminal's screen as putc on each character would, and nothing else |
| `System.NothingToFetch` | student-distrib/terminal.c:99-101 | a program that waits for a line changes nothing |
| `System.ScheduleRotates` | student-distrib/scheduler.c:296 | over every run the terminal scheduled is the first one plus the number of ticks, modulo 3 |
| `System.EveryoneHasATurn` | student-distrib/scheduler.c:296 | among any three consecutive ticks, whatever happens between them, each terminal is scheduled once |
| `System.ModifiersFollowKeys` | student-distrib/keyboard.c:36-78 | over every run the modifiers in force are those the scancodes alone give |
| `System.DisplayFollowsKeys` | student-distrib/keyboard.c:80-90 | the terminal on display changes only by Alt with F1, F2 or F3, to 0, 1 or 2 |
| `System.OnlyAddressedChanges` | student-distrib/scheduler.c:247-263 | a key changes at most the terminal on display, output and reads at most the scheduled one |
| `System.TypingIsSeen` | student-distrib/keyboard.c:94-169 | a key that types a character appends it to the line on display and shows it there, unless 127 are there already |
| `System.ReadOnce` | student-distrib/terminal.c:94-124 | a line is read once: the read takes it and changes nothing else |
| `Keyboard.FunctionKeysTypeNothing` | student-distrib/keyboard.c:80-94 | the key that switches terminals types nothing into the terminal it arrives at |
| `Keyboard.NumberRow` | student-distrib/keyboard.c:94-169 | the number row types 1234567890-= plain and !@#$%^&*()_+ with either shift key |
| `Keyboard.TopRow` | student-distrib/keyboard.c:94-169 | the top row types qwertyuiop[] and QWERTYUIOP{} |
| `Keyboard.MiddleRow` | student-distrib/keyboard.c:94-169 | the middle row types asdfghjkl;'` and ASDFGHJKL:"~ |
| `Keyboard.BottomRow` | student-distrib/keyboard.c:94-169 | the bottom row types \zxcvbnm,./ and the capitals and signs above them |
| `Keyboard.OtherKeys` | student-distrib/keyboard.c:46-169 | backspace, Enter, the space bar and the keys that type nothing, under all modifiers |
| `Keyboard.LetterKeys` | student-distrib/keyboard.c:94-101 | a letter key types its capital if and only if exactly one of caps lock and shift is in force |
| `Keyboard.ClearingKey` | student-distrib/keyboard.c:102-110 | the screen is cleared by L with control and exactly one of caps lock and shift, and by no other key |
| `Keyboard.SwitchingKeys` | student-distrib/keyboard.c:80-90 | Alt with F1, F2, F3 shows terminal 0, 1, 2, and nothing else shows one |
| `Keyboard.HeldModifiers` | student-distrib/keyboard.c:37-78 | over any history of scancodes shift, control and alt are in force exactly while their key is held, caps lock after an odd number of presses |
| `Terminal.LineIsEditedText` | student-distrib/keyboard.c:46-169 | for every history the line is the edited text and the entered line the last one entered, computed from the history without screen or buffer |
| `Terminal.TypedIsLine` | student-distrib/keyboard.c:57-169 | what is typed after an Enter or a clearing is the line, cut at 127 characters; what can be read is the line there was at the Enter |
| `Terminal.TypedAndRubbedOut` | student-distrib/keyboard.c:46-55 | typing a character and rubbing it out leaves the line as it was if and only if there was room for it |
| `Terminal.PrintedIsSafe` | student-distrib/keyboard.c:46-48 | with nothing typed, backspace changes nothing on the screen either |
| `Terminal.OutputNeverReachesTheLine` | student-distrib/keyboard.c:46-169 | program output never changes the line or what a read returns |
| `Terminal.LineIsOnScreen` | student-distrib/lib.c:94-114 | over every history the cells before the cursor spell the end of the line that was typed since the screen was last written by anything else |
| `Terminal.UndisturbedLineIsOnScreen` | student-distrib/keyboard.c:94-169 | when programs print only while nothing is typed, the cells before the cursor spell the whole line, through wrapping, scrolling and backspace |
| `Terminal.TerminalIsPaper` | student-distrib/lib.c:336-416 | once a terminal shows a sheet it goes on showing it through output, editing, wrapping and scrolling |
| `Terminal.OnceCleared` | student-distrib/lib.c:41-47 | once a screen has been cleared every cell keeps attribute 7 through every history |
| `Paper.ScreenIsBottomOfLayout` | student-distrib/lib.c:336-416 | after any string of any length a cleared 25x80 screen shows the bottom 25 rows of the string laid out with 80-column wrap, blanks after the cursor |
| `Paper.PutShows` | student-distrib/lib.c:336-373 | one character on the screen is one character on the paper; scrolling is the window moving down |
| `Paper.EraseShows` | student-distrib/lib.c:94-114 | rubbing out on the screen is rubbing out on the paper, and never moves the window up |
| `Console.PutAt` | student-distrib/lib.c:336-373 | by rows and columns of 80 by 25: a character is stored with attribute 7 at the cursor, which moves right, on to the next row, or to the bottom row with the page up one; 10 and 13 only move it |
| `Console.EraseAt` | student-distrib/lib.c:94-114 | the cell before the cursor becomes a blank with attribute 7, and the cursor's |
| `Console.ScrolledCell` | student-distrib/lib.c:125-190 | each cell takes the character of the one below it, the last row blanks; clearing blanks them all |
| `FileSystem.ReadData` | student-distrib/filesystem.c:273-441 | with 32-bit wrap-around in every bound: for a file whose size, block list and bytes are written on the disk the count is min(length, size - offset) or -1, exactly that many buffer bytes become the file's from the offset on, the rest are untouched |
| `FileSystem.CopyBlocks` | student-distrib/filesystem.c:340-441 | the block walk copies exactly one slice of the flat file, requests that end on a block boundary included; the error return for bytes left over is never reached |
| `FileSystem.CopyFromBlock` | student-distrib/filesystem.c:356-425 | one memcpy from a listed block is a slice of the flat file |
| `FileSystem.BlockIsSlice` | student-distrib/filesystem.c:340-425 | inside one listed block the image and the flat file agree byte for byte |
| `FileSystem.WordIsWritten` | student-distrib/filesystem.c:158-163 | a word reads as v if and only if its four bytes are v's, the least first |
| `FileSystem.LaidIsRead` | student-distrib/filesystem.c:340-425 | a file laid out on the disk, byte by byte at the addresses its block list gives, is the file that is read |
| `FileSystem.ReadIsLaid` | student-distrib/filesystem.c:340-425 | every file that can be read at all is laid out so |
| `Directory.ReadDentryByName` | student-distrib/filesystem.c:142-214 | lookup by name finds the first entry of that very name, and its type and inode as the source reads them, through one signed byte |
| `Directory.SameName` | student-distrib/filesystem.c:185-192 | the length and byte tests hold exactly when the entry's name, cut at 32 bytes, is the name looked up |
| `Directory.LookupAgreesWithIndex` | student-distrib/filesystem.c:142-261 | with distinct names, looking up the name an index gives finds that entry, 32-character names included, and the same inode if and only if one signed byte can hold it |
| `Directory.OnlyExactNames` | student-distrib/bug_log.txt:10-20 | a name is not found if and only if no entry has exactly that name: no prefix, no extension |
| `Directory.EntryIsLaid` | student-distrib/filesystem.c:225-261 | an entry has a name, type and inode if and only if its 64 bytes hold them |
| `Directory.FoundAsLaid` | student-distrib/filesystem.c:180-211 | the first entry laid under a name is found, its type and inode read through one signed byte each |
| `Directory.FoundItself` | student-distrib/filesystem.c:168-177 | "." is the directory, type 1 |
| `Directory.OnDiskIsFound` | student-distrib/filesystem.c:142-214 | a regular file laid on the disk under a name is found there, with the bytes that were laid |
| `Directory.NotTheDirectory` | student-distrib/filesystem.c:168-177 | the prefix test for the directory itself succeeds for "." and for the empty name only |
| `Directory.ReadDentryByIndex` | student-distrib/filesystem.c:225-261 | succeeds exactly for indices below both the entry count and 63, with the entry's name padded with NULs, its inode, and its type with the low byte cleared by the name's terminator |
| `Directory.DirRead` | student-distrib/filesystem.c:452-500 | one whole name a call, cut at nbytes, and the position moves on by one until the end |
| `Descriptors.Process.constructor` | student-distrib/sys_call.c:30-53 | a new process has standard input and output open and nothing else |
| `Descriptors.Process.Open` | student-distrib/sys_call.c:211-241 | a found name gets the lowest free descriptor of 2 to 7 and position 0; no name, an unknown name, an unknown type or a full table changes nothing and is -1 |
| `Descriptors.Process.HandleOpen` | student-distrib/sys_call.c:116-163 | the descriptor taken is the lowest free one of 2 to 7, with the clock's operations for type 0, the directory's for 1, the files' for 2 |
| `Descriptors.Process.Read` | student-distrib/sys_call.c:295-325 | a read delivers the file's bytes, or the directory's next name, from the descriptor's own position and moves only that position |
| `Descriptors.Process.FsRead` | student-distrib/filesystem.c:77-113 | never past the end of the file: 0 there, and the position never exceeds the size |
| `Descriptors.Process.Close` | student-distrib/sys_call.c:254-281 | frees an open descriptor of 2 to 7 and no other |
| `Descriptors.OpenIsSound` | student-distrib/sys_call.c:211-241 | opening keeps every descriptor's position within its file |
| `Descriptors.ReadIsSound` | student-distrib/filesystem.c:104-112 | so does reading |
| `Descriptors.OpenFails` | student-distrib/sys_call.c:211-241 | an open fails if and only if the name is empty or nobody's, or descriptors 2 to 7 are all in use |
| `Descriptors.SixOpens` | student-distrib/sys_call.c:116-163 | a new process gets descriptors 2 to 7 in order, and then no more |
| `Descriptors.ClosedIsFree` | student-distrib/sys_call.c:254-281 | a close succeeds exactly on an open descriptor of 2 to 7, and the next open can have it |
| `Descriptors.ReadFails` | student-distrib/sys_call.c:295-325 | a read of a non-negative length fails exactly on what is no open descriptor and on standard output |
| `Descriptors.FileIsOpened` | student-distrib/sys_call.c:142-163 | opening a regular file laid on the disk gives a descriptor on that very file, at its start |
| `Streams.ReadsCompose` | student-distrib/filesystem.c:77-113 | under any interleaving of opens, reads and closes, the bytes returned on each regular file since it was opened are a prefix of that file, as long as its position |
| `Streams.EndMeansWholeFile` | student-distrib/filesystem.c:104-105 | a read that asks for something returns 0 if and only if the whole file has been returned |
| `Streams.OthersUntouched` | student-distrib/sys_call.c:116-200 | a call leaves every other descriptor and its bytes alone, and open passes over no free slot |
| `Streams.MakeCalls` | student-distrib/sys_call.c:211-325 | any list of opens, reads and closes: the bytes the buffers held, descriptor by descriptor, are those the theorems here speak of |
| `Streams.ListedInOrder` | student-distrib/filesystem.c:452-500 | n 32-byte reads of an opened directory return its first n names in order, each whole, and from the last on 0 for ever |
| `Streams.DirectoryIsListed` | student-distrib/sys_call.c:211-325 | from the name to the bytes: opening "." and reading it n times gives the first n names |
| `Streams.FileIsRead` | student-distrib/sys_call.c:211-325 | opening a regular file laid on the disk and reading it in portions of any sizes gives as many of its bytes as were asked for, in order |
| `Streams.DeviceGivesNothing` | student-distrib/sys_call.c:116-141 | the name of a type 0 entry gives a descriptor whose reads return 0 |
| `Streams.AllNames` | student-distrib/filesystem.c:452-500 | a directory without empty names is listed whole |
| `Streams.Cat` | syscalls/ece391cat.c:11-30 | cat of a file laid on the disk writes exactly that file, cat of "." the directory's names; it writes its message and fails with 2 if the open fails |
| `Lines.StreamingIsWholeFile` | syscalls/ece391grep.c:20-60 | what the 1024-byte buffer can search prints the same lines as a search of the whole file if and only if no line longer than 1024 bytes contains the pattern |
| `Lines.LongLineSplit` | syscalls/ece391grep.c:20-60 | a file where they differ: one line of 1025 characters |
| `Lines.LinesRejoined` | syscalls/ece391grep.c:29-30 | the lines hold no newline, and each followed by one they are the file, but for a missing last newline |
| `Lines.HitIs` | syscalls/ece391grep.c:42-44 | a line matches if and only if it is the pattern, not empty, with something before and after it |
| `Lines.MatchingConcat` | syscalls/ece391grep.c:40-51 | matches come in the order of their lines, each once |
| `Lines.MatchingMember` | syscalls/ece391grep.c:40-51 | a line is among those printed if and only if it is a line of the file and contains the pattern |
| `Lines.LineByPieces` | syscalls/ece391grep.c:29-57 | a line that fits is searched whole; one that does not, and does not contain the pattern, prints nothing by pieces either |
| `Grep.SearchLine` | syscalls/ece391grep.c:42-51 | the check loop prints a line once, up to its first NUL, if it contains the pattern and otherwise not at all, whatever bytes it has |
| `Grep.PrintedWhole` | syscalls/ece391grep.c:42-51 | for a line that matches, that is the line itself if and only if it has no NUL |
| `Grep.NulLine` | syscalls/ece391grep.c:42-51 | a line where it is not: a, NUL, b matches b and is printed as a |
| `Grep.CarryKeeps` | syscalls/ece391grep.c:33-38 | the carry keeps an unfinished line if and only if whatever follows its first NUL is what lay there already; with no NUL, always |
| `Grep.CarrySpoils` | syscalls/ece391grep.c:33-38 | a buffer where it does not: the carried a, NUL, b becomes a, NUL, a |
| `Grep.CarryOver` | syscalls/ece391grep.c:33-38 | for every buffer the carry leaves the unfinished line up to its first NUL, a terminator, and behind them what lay there |
| `Grep.NulFreeCarries` | syscalls/ece391grep.c:17-38 | a file without NULs carries none over |
| `Grep.ScanBuffer` | syscalls/ece391grep.c:28-57 | the inner loop prints the matches of every finished line in the buffer and carries the unfinished one over, none of it lost |
| `Grep.FillBuffer` | syscalls/ece391grep.c:22-27 | a read extends the carried bytes by the file's next ones, and is short only at the end of the file |
| `Grep.DoOneFile` | syscalls/ece391grep.c:10-66 | for every file whose carried unfinished lines hold no NUL the search ends and the output is the report on the whole file's pieces; where no line longer than 1024 bytes contains the pattern, exactly the matching lines of the file, in order, once each, each up to its first NUL; whole where they have none; for a file laid on the disk, the report on what was laid |
| `Loader.Parse` | student-distrib/sys_call.c:390-421 | for every command that is not too long: the name, cut at 127 characters, the copied line, and what the copying leaves in the two bytes behind its array |
| `Loader.StoresInside` | student-distrib/sys_call.c:396-405 | the stores stay inside the array if and only if the line has at most 126 characters |
| `Loader.CommandIs` | student-distrib/sys_call.c:390-421 | blanks, a word, a blank and the rest: the word is the program and the rest its arguments |
| `Loader.FullLineSpills` | student-distrib/sys_call.c:396-405 | a line of 127 characters, which a terminal can deliver, clears the byte behind it |
| `Loader.SetUpArgs` | student-distrib/sys_call.c:84-105 | the process's argument array holds the kept arguments and then NULs |
| `Loader.KeptArgsAreTyped` | student-distrib/sys_call.c:405-421 | the arguments kept are the arguments typed if and only if no space precedes the name, or there is nothing to keep |
| `Loader.SpaceCat` | student-distrib/sys_call.c:405-421 | a command where they differ |
| `Loader.GetArgs` | student-distrib/sys_call.c:653-667 | succeeds if and only if the buffer is longer than the whole command line, and then holds the kept arguments, padded with NULs |
| `Loader.CheckFile` | student-distrib/sys_call.c:429-442 | accepts exactly the files of at least 40 bytes that start with 7F, E, L, F, and takes the entry point from bytes 24 to 27 |
| `Loader.Load` | student-distrib/sys_call.c:371-442 | execute goes on exactly when the command is at most 128 bytes and names such a file; for one laid on the disk, with the entry point that was laid; any longer command is refused before anything is copied |
| `Loader.DiskLoads` | student-distrib/sys_call.c:423-442 | a program laid on the disk can be run if and only if the command is at most 128 bytes and it has 40 bytes and an ELF file's first four |
| `Forest.BootRunSound` | student-distrib/scheduler.c:19-53 | every run from boot keeps the forest sound, as RunSound says of every sound state |
| `Forest.RunSound` | student-distrib/sys_call.c:444-481 | over every run of ticks, executes and halts, each process number is one process of one chain, terminal t's chain starts with t + 1, and only base shells have the numbers 1 to 3 |
| `Forest.ExecuteSound` | student-distrib/scheduler.c:312-318 | an execute keeps that if and only if it fails or all three shells are up |
| `Forest.EarlyExecute` | student-distrib/scheduler.c:312-318 | a run in which a program starts too early: the second terminal's shell gets number 3 and the third's 4 |
| `Forest.NextPid` | student-distrib/sys_call.c:445-460 | the next number is above 3 once the shells are up and the next shell's own before that |
| `Forest.TurnsRotate` | student-distrib/scheduler.c:296 | over every run the current terminal is the first one plus the number of ticks, modulo 3 |
| `Forest.AtMostSix` | student-distrib/sys_call.c:445-460 | no process number is free if and only if six processes live; there are never more |
| `Forest.BaseShellReturns` | student-distrib/sys_call.c:517-523 | a base shell that halts is executed again under the same number |
| `Forest.HaltRestoresParent` | student-distrib/sys_call.c:526-544 | last in, first out: after any run in which the child lives, halting it gives the parent's chain and the very registers of the matching execute |
| `Forest.TickResumes` | student-distrib/scheduler.c:320-333 | a terminal interrupted by the clock comes back, after any run elsewhere, with its processes and registers as they were |
| `Forest.RunKeepsBottom` | student-distrib/sys_call.c:526-544 | a run changes nothing of a chain below its lowest point |
| `Processes.MaskIsArithmetic` | student-distrib/pcb.c:11-26 | masking with 0xFFE000 on 32-bit words is the division form the model uses |
| `Processes.OrIsSum` | student-distrib/paging.c:114 | the model's page directory entry is the source's word, address or flags, for all six processes |
| `Processes.EntryBits` | student-distrib/paging.c:114 | the entry's base is 8 MB + 4 MB (pid - 1), and its low twelve bits are 0x87: present, writable, the user's, one 4 MB page |
| `Processes.ProcessTable.InstalledIs` | student-distrib/sys_call.c:493-495 | whatever process a call leaves installed, the entry is that one and esp0 is 8 MB - 8 KB pid |
| `Processes.MaskKeepsMiddle` | student-distrib/pcb.c:11-26 | the mask keeps bits 13 to 23 of an address |
| `Processes.StackFindsProcess` | student-distrib/pcb.c:11-26 | every address on a process's kernel stack, the 8 KB below 8 MB - 8 KB pid, masks to its control block, and the division in execute inverts the control block's address |
| `Processes.ProcessesAreApart` | student-distrib/paging.c:106-120 | kernel stacks of different processes are disjoint, so are user pages, and no user page meets kernel memory |
| `Processes.RunPlaced` | student-distrib/linkage.S:57-109 | over every run, a saved stack pointer lies on the kernel stack of the process it will be restored for |
| `Processes.BootRunPlaced` | student-distrib/linkage.S:57-109 | and so over every run from boot |
| `Processes.ProcessTable.constructor` | student-distrib/scheduler.c:34-53 | boot: no process, terminal t expecting process t + 1, process 1's page mapped, in tables of its own |
| `Processes.ProcessTable.TakeSlot` | student-distrib/sys_call.c:445-460 | takes the smallest free process number, or none |
| `Processes.ProcessTable.ChangeProcess` | student-distrib/paging.c:106-120 | for a process 1 to 6 installs the entry with base 8 MB + 4 MB (pid - 1) and low bits 0x87, and ignores any other number |
| `Processes.ProcessTable.WriteBlock` | student-distrib/sys_call.c:473-489 | the new control block names its process, its parent as found from the running stack, its caller's registers and its arguments |
| `Processes.ProcessTable.Execute` | student-distrib/sys_call.c:371-499 | fails, changing nothing, exactly when the command cannot be loaded or no number is free; otherwise the tables stand for the chain with the new process on top and its page and stack are installed |
| `Processes.ProcessTable.ExecuteCall` | student-distrib/sys_call.c:371-499 | as a system call, in every state that can be reached: the tables go on standing for the forest |
| `Processes.ProcessTable.HaltCall` | student-distrib/sys_call.c:511-553 | the tables go on standing for the forest; the registers installed are those of the matching execute, page directory entry and esp0 the parent's; the status goes to the parent's control block while execute returns the child's own field |
| `Processes.ProcessTable.Unwind` | student-distrib/sys_call.c:525-544 | the same for a process that is not a base shell |
| `Processes.ProcessTable.RestartShell` | student-distrib/sys_call.c:517-523 | the same for a base shell, which is back under its number |
| `Processes.ProcessTable.SchedulerNext` | student-distrib/scheduler.c:288-335 | the tables go on standing for the forest; page and esp0 are the next terminal's process's, and the registers installed are those it was interrupted with |
| `Processes.ProcessTable.RunCalls` | student-distrib/scheduler.c:288-335 | any run of ticks, executes and halts on the tables is a run of the forest; tables, page directory entry, stack and saved stack pointers stay in step |
| `Processes.RunFromBoot` | student-distrib/scheduler.c:19-53 | the same from boot: the tables after constructing them and any guarded run stand for that run of the forest, and the page and stack installed are, as numbers, those of the process on top |
| `Processes.ProcessTable.LifeOfChild` | student-distrib/sys_call.c:491-544 | on the tables: execute, any run in which the child lives, and its halt give the parent back the registers, page directory entry and esp0 it had at that execute; execute delivers the last status one of the child's own children passed on, or else what the slot held at the execute, never the child's own status |
| `Processes.StatusIsLastPassed` | student-distrib/sys_call.c:536 | over every run in which a process lives, its status field is what its last child to halt passed on, or what it was at first |
| `Blink.PhaseLaw` | fish/blink.S:49-90 | for all lengths: n ticks after it was added an entry is on exactly in the first part of its period, with the countdown in closed form; lengths 0 and above 32768 last one tick |
| `Blink.BlinkingOverRuns` | fish/blink.S:49-90 | the law, status and countdown, over every run of adds, removes, syncs and ticks that leaves the entry alone |
| `Blink.AddedAndRemoved` | fish/blink.S:105-237 | removing takes away the entry added last at a location, and nothing else |
| `Blink.StepSpares` | fish/blink.S:105-285 | no operation on another location changes an entry |
| `Blink.SyncLasts` | fish/blink.S:267-275 | after a sync two entries blink alike through every run until one is added again, removed or synchronised onto |
| `BlinkScreen.PaintedCell` | fish/blink.S:56-90 | a tick writes the cells of the entries whose time is up, with their new characters, and no other byte of the screen |
| `BlinkScreen.TickDrawn` | fish/blink.S:49-99 | if every entry shows the character its status calls for, it does so after a tick |
| `BlinkScreen.AddDrawn` | fish/blink.S:105-180 | an add keeps that, with no two entries in one cell, if and only if it fails or the cell is nobody else's |
| `BlinkScreen.SyncDrawn` | fish/blink.S:246-300 | a sync keeps it if and only if it fails, the entry copied from is off, or the two characters of the entry copied to are equal |
| `BlinkScreen.SyncMisdraws` | fish/blink.S:277-285 | two entries that are on: after a sync the second is still on and shows its off character |
| `BlinkScreen.StepDrawn` | fish/blink.S:105-300 | any operation keeps it if and only if the condition above for its kind holds; a remove and a tick always do |
| `BlinkScreen.RunDrawn` | fish/blink.S:49-300 | over every run of such operations each entry shows the character its status calls for |
| `BlinkEngine.Engine.FindHelper` | fish/blink.S:351-379 | the walk ends, at the first entry of that location or at NULL if there is none |
| `BlinkEngine.Engine.Malloc` | fish/fish.c:160-170 | the first free slot, or NULL exactly when all 2000 are in use |
| `BlinkEngine.Engine.Add` | fish/blink.S:105-180 | fails exactly for a location off the screen or a full pool, changing nothing; otherwise the entry is first on the list and its character on the screen; the list is sound afterwards if and only if the location is not 0 |
| `BlinkEngine.Engine.Remove` | fish/blink.S:191-237 | unlinks exactly the entry found and clears its slot, changing nothing else; the list stays sound |
| `BlinkEngine.Engine.Sync` | fish/blink.S:246-300 | the second entry takes the first one's timing, and its off character is drawn in its cell whatever the status |
| `BlinkEngine.Engine.RtcTasklet` | fish/blink.S:49-99 | one tick of every entry, each visited once, and the walk ends; if every entry showed the character its status calls for, it still does |
| `BlinkEngine.Engine.Run` | fish/blink.S:49-300 | any run of adds off location 0, removes, syncs and ticks on the pool is that run of the list, and the screen shows every entry's character if each operation keeps the picture |
| `BlinkEngine.FullPool` | fish/fish.c:160-170 | the pool is full if and only if the list has 2000 entries |
| `BlinkEngine.ZeroLocationBreaks` | fish/fish.c:164 | with location 0 added, no sound list starts at the head |
| `BlinkEngine.ZeroLocationCycles` | fish/fish.c:160-170 | and the next add takes the same slot and links it to itself |
| `BlinkEngine.InsertKeeps` | fish/blink.S:152-159 | linking a live entry into a free slot keeps the list acyclic and exactly the slots in use |
| `BlinkEngine.RemoveKeeps` | fish/blink.S:207-227 | so does unlinking and freeing one |
| `Numbers.Itoa` | student-distrib/lib.c:427-455 | for every 32-bit value and radix 2 to 36, writes exactly its numeral and a terminator, and nothing else |
| `Numbers.Strrev` | student-distrib/lib.c:463-476 | reverses the string in place |
| `Numbers.ReadsBack` | student-distrib/lib.c:427-455 | the numeral read back is the value, with no leading zero but for 0 |
| `Numbers.OnlyNumeral` | student-distrib/lib.c:427-455 | and it is the only such numeral |
| `Numbers.DigitsAre` | student-distrib/lib.c:427-429 | the digits are 0 to 9 and A to Z in order |
| `Numbers.FirstDigitWeighs` | student-distrib/lib.c:427-455 | the first digit of a numeral weighs the most |
| `Numbers.PrintHex` | student-distrib/lib.c:249-260 | %#x prints exactly eight hexadecimal digits of the value |
| `Numbers.PrintSigned` | student-distrib/lib.c:275-287 | %d prints the magnitude's numeral, after a minus sign if and only if the value is negative, for every 32-bit value, the least included |
| `Emulator.Tokenise` | syscalls/ece391emulate.c:68-101 | accepts exactly commands of at most 1023 characters, and then every pointer leads to its argument, NULL follows the last, and all indices are in bounds |
| `Emulator.CutArgs` | syscalls/ece391emulate.c:86-99 | the loop cuts off exactly the remaining arguments |
| `Emulator.GetArgs` | syscalls/ece391emulate.c:132-157 | joins the arguments with single spaces; succeeds if and only if the joined length is less than nbytes; writes past nbytes one byte, a terminator, if and only if the first few arguments joined fill nbytes exactly, and asks for memory there in that case only |
| `Emulator.SpillsOnlyInFailure` | syscalls/ece391emulate.c:138-156 | a call that succeeds has not written past nbytes |
| `Emulator.AbcSpills` | syscalls/ece391emulate.c:138-156 | an input that does: the argument abc with nbytes 3 |
| `Emulator.CutJoined` | syscalls/ece391emulate.c:84-157 | cutting a joined list gives the list back |
| `Emulator.ArgvOfTyped` | syscalls/ece391emulate.c:68-101 | a name and words typed with a blank between each two give ./name and those words |
| `Emulator.JoinLength` | syscalls/ece391emulate.c:132-157 | there is one blank between each two joined words, and nothing else is added |
| `Emulator.Newlines` | syscalls/ece391emulate.c:84-99 | a newline right after a word only ends the word; any other ends the command |
| `Emulator.CutAgain` | syscalls/ece391emulate.c:84-157 | cutting, joining and cutting again gives the same arguments |
| `Emulator.NothingLost` | syscalls/ece391emulate.c:84-100 | nothing but spaces is lost from a command without newlines |

## Left out

- Hardware: port I/O, interrupt controllers, the clock's rate, descriptor tables, cursor registers (`update_cursor`), TLB flushes and `iret`. Registers are opaque numbers, but for the stack pointer's place.
- Preemption inside a handler or inside one output character: the source does not protect against it.
- `vidmap` and the second page table that user programs see the screen through; it maps real video whatever is scheduled.
- `printf` from system calls and exception handlers: it writes at the visible cursor through the scheduled terminal's mapping. Where execute and halt print, nothing is modelled.
- NULL pointers given to system calls and filesystem functions.
- The terminals' hidden frames hold whatever memory held at boot until they are cleared; so does real video.
- Kernel.Multiplexer.PutAt: `putc` and `putc_modified` have the same text over two sets of cursor accessors, and share one body here.
- Kernel.Multiplexer.CheckInput: scancode 255 is excluded, since the source's table has 255 entries; the unassigned byte that shift with the space bar types is a parameter.
- Kernel.Multiplexer.TerminalRead: the wait for a line is not modelled; the caller's buffer must have room for the whole line, which the source copies whatever nbytes says.
- FileSystem.ReadData: inodes up to 64 must be sound if they are read at all, since the source checks against 64 and not against the image's own count.
- Descriptors.Process.Read: standard input (see Kernel.Multiplexer.TerminalRead) and the real-time clock's waiting are not modelled; a clock read returns 0.
- Grep.DoOneFile: a line that is carried over unfinished must hold no NUL, since it is copied only up to its first one and what follows is what an earlier line left there (Grep.CarryKeeps, Grep.CarrySpoils); NULs anywhere else are modelled. The byte past the buffer, which the source leaves uninitialised, must not be a newline when the program starts.
- Loader.Load: what execute's frame keeps in the two bytes behind its argument array, and so what becomes of the kernel once a line of 127 or 128 characters has overwritten one; the contracts say what the rest of the code does.
- Processes.ProcessTable.Execute: the program's image is not copied to its page; the closing of descriptors in halt is left to the next execute, which resets them.
- Processes.ProcessTable.HaltCall: asks for a forest in the form every guarded run keeps; what a program started too early breaks is shown by Forest.EarlyExecute.
- Processes.ProcessTable.SchedulerNext: the shell is assumed to be on the disk; the mapping of the screen is Kernel.Multiplexer.SchedulerNext.
- Emulator.Tokenise: fork, exec and wait; the other emulated calls are thin wrappers of the host's.
- `mp1_ioctl_find`, the shell, fish's frames, ping-pong, counter and the other fixed programs: easy members or I/O scripts.
