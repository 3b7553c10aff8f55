# A verified model of a small x86-64 kernel's terminal, input paths, RAM filesystem and shell

The kernel draws on an 80x25 VGA text buffer through a `Writer`. Besides the grid of
(byte, colour) cells, the `Writer` keeps:

- a column and a signed logical *write row*;
- an echo buffer of the bytes typed on the current line (100 bytes at most);
- two histories of rows that scrolled off the top and the bottom (100 rows each).

Keyboard and PS/2 mouse interrupts drive the `Writer`:

- typed characters are written and echoed;
- Enter and the arrow keys raise flags for the shell;
- the mouse wheel scrolls through the histories.

A `write` system call sends a user buffer to the same terminal. The shell reads the echoed line, splits it into words and runs commands. These commands act on an in-memory filesystem of shared directory and file nodes, and on a stack of the directories entered.

The project has these modules:

- **Terminal** (`terminal.dfy`): the `Writer`'s state as a value (`WriterState`). Each `Writer` operation is a function from old state to new state. The lemmas say what the terminal promises: bounds, clamping, scroll round trips, what `write_byte` stores and echoes, and what `backspace` and `clear_screen` erase.
- **VgaBuffer** (`vga_buffer.dfy`): the source's own objects, updated in place:
  - `InputBuffer`, over a 100-byte array and a length;
  - `RowHistory`, for `UpBuffer` and `DownBuffer`, whose code is identical;
  - the `Writer` class, over an `array2` of cells.
  Every method is proved to change the state exactly as the matching Terminal function says.
- **Interrupts** (`interrupts.dfy`): the interrupt vector numbers, the keyboard handler from a decoded key on, and the mouse handler. The mouse handler is a packet-assembling state machine over a 4-byte array, with resynchronisation on bit 3.
- **Syscalls** (`syscalls.dfy`):
  - the dispatcher;
  - `sys_write` as a byte loop over the caller's buffer;
  - the STAR/FMASK values `init_syscall` programs.
- **Ramfs** (`ramfs.dfy`): nodes are objects of class `NodeRef`, so that aliasing works as with `Rc<RefCell<Node>>`. Each node operation has a function on node values and a method that performs it in place.
- **Shell** (`shell.dfy`):
  - command-line parsing (`trim`, `split_whitespace`, first word);
  - `get_path` over the directory stack;
  - the filesystem arms of `execute_command` (`mkdir`, `touch`, `cd`, `rm`, `rmdir`, `write`) and `clear`;
  - the command-history cursor of `shell_loop`.
- **Text** (`text.dfy`): `trim`, `split_whitespace`, `join` and the order of `String` keys, with their lemmas.
- **Utf8** (`utf8.dfy`): UTF-8 validity (for `InputBuffer::as_str`) and encoding (for `str::as_bytes`).
- **Wrappers** (`wrappers.dfy`): `Option` and `Result`.

## Model

| member | source | states |
|---|---|---|
| Terminal.Color.Value | src/vga_buffer.rs:9-26 | each colour's palette number fits in 4 bits |
| Terminal.ColorCodeOf | src/vga_buffer.rs:36-40 | the low nibble of the code is the foreground, the high nibble the background |
| Terminal.Glyph | src/vga_buffer.rs:203-241 | the stored glyph is printable ASCII or 0xfe; a byte is stored as itself exactly when it is printable (or already 0xfe) |
| Terminal.StringByte | src/vga_buffer.rs:307-314 | `write_string` passes a byte unchanged exactly when it is printable, a newline or 0xfe; the glyph finally stored is the same either way |
| Terminal.AsUsize | src/vga_buffer.rs:189-196 | the `isize as usize` cast: non-negative rows unchanged, negative rows wrapped by 2^64 |
| Terminal.PushByte | src/vga_buffer.rs:133-138 | the byte is appended while fewer than 100 are stored; otherwise the buffer is unchanged |
| Terminal.PushBytesKeepsPrefix | src/vga_buffer.rs:133-138 | pushing several bytes keeps the first 100 of old contents followed by the new bytes |
| Terminal.PushLine | src/vga_buffer.rs:77-82 | the pushed row is last; below capacity the history grows by it, at capacity the oldest row is evicted and the size stays within the cap |
| Terminal.PopAfterPush | src/vga_buffer.rs:77-86 | `pop_line` after `push_line` returns the pushed row and leaves the old history, minus its oldest row if it was full |
| Terminal.ScrollUp | src/vga_buffer.rs:243-261 | the column, colour, echo and write row are unchanged and the state stays well formed |
| Terminal.ScrollUpEffect | src/vga_buffer.rs:243-261 | the bottom row goes onto the up history, rows 0..23 move down one, and row 0 becomes the last down-history row or a blank one |
| Terminal.ScrollDown | src/vga_buffer.rs:263-279 | the column, colour, echo and write row are unchanged and the state stays well formed |
| Terminal.ScrollDownEffect | src/vga_buffer.rs:263-279 | the top row goes onto the down history, rows 1..24 move up one, and row 24 becomes the last up-history row or a blank one |
| Terminal.ScrollUpThenDown | src/vga_buffer.rs:243-279 | scrolling up then down restores the grid; the up history is restored unless it was full, and the down history unless it was empty |
| Terminal.ScrollDownThenUp | src/vga_buffer.rs:243-279 | scrolling down then up restores the grid, a non-full down history and a non-empty up history |
| Terminal.ScrollUpAndAdvance | src/interrupts.rs:189-193 | one scroll up plus `write_row += 1`: the row advances by exactly one |
| Terminal.ScrollDownAndRetract | src/interrupts.rs:194-197 | one scroll down plus `write_row -= 1`: the row retracts by exactly one |
| Terminal.ScrollUpSteps | src/vga_buffer.rs:190-193 | n turns of the raising loop advance the write row by n and keep the cursor, colour and echo |
| Terminal.ScrollDownSteps | src/vga_buffer.rs:196-199 | n turns of the lowering loop retract the write row by n and keep the cursor, colour and echo |
| Terminal.RaiseWriteRow | src/vga_buffer.rs:189-194 | after the first loop the write row is the larger of the old row and 2 |
| Terminal.LowerWriteRow | src/vga_buffer.rs:195-200 | after the second loop the write row is the smaller of the old row and 24 |
| Terminal.CheckWriteRow | src/vga_buffer.rs:188-201 | afterwards 2 <= write row <= 24; column, colour and echo are unchanged |
| Terminal.CheckWriteRowLow | src/vga_buffer.rs:189-194 | from a row <= 1 the clamp is exactly 2 - row scroll-ups, each advancing the row |
| Terminal.CheckWriteRowHigh | src/vga_buffer.rs:195-200 | from a row >= 25 the clamp is exactly row - 24 scroll-downs, each retracting the row |
| Terminal.CheckWriteRowInRange | src/vga_buffer.rs:188-201 | a row already in 2..24 is left alone, with nothing scrolled |
| Terminal.RaiseWriteRowIdle | src/vga_buffer.rs:189-194 | the raising loop does nothing from a row >= 2 |
| Terminal.LowerWriteRowHigh | src/vga_buffer.rs:195-200 | from a row >= 25 the lowering loop is exactly row - 24 scroll-downs |
| Terminal.NewLine | src/vga_buffer.rs:281-295 | grid row 0 is always pushed onto the down history and the column goes to 0; the row advances if it stays in 0..24, and otherwise (also below zero through the cast) the grid shifts up, row 24 is blanked and the row is pinned to 24 |
| Terminal.WriteByte | src/vga_buffer.rs:203-241 | a newline echoes `\n` and resets the column; any other byte stores its glyph in the current colour at a row in 2..24 and a column below 80, advances the column and echoes the glyph |
| Terminal.WrapColumn | src/vga_buffer.rs:211-214 | after the clamp, a full line starts a new one, so the column is below 80 and the row in 2..24 |
| Terminal.PutGlyph | src/vga_buffer.rs:215-223 | exactly the cell at the cursor changes, to the glyph in the current colour; the column advances and the glyph is echoed |
| Terminal.WriteGlyphIsWriteByte | src/vga_buffer.rs:225-239 | filtering is idempotent, and writing a byte's glyph is the same as writing the byte |
| Terminal.WriteString | src/vga_buffer.rs:307-314 | the bytes of the string one by one through `write_byte`: the result is well formed and keeps the colour |
| Terminal.WriteStringIsWriteBytes | src/vga_buffer.rs:307-314 | `write_string` equals `write_byte` on each byte in turn: its own 0xfe filter changes nothing |
| Terminal.Backspace | src/vga_buffer.rs:329-350 | after the clamp, the cursor steps back one column, or from column 0 to column 79 of the row above (never above row 1); only that cell changes, to a blank in the current colour, and the last echoed byte is dropped if there is one; the histories, row position and colour stay as the clamp left them |
| Terminal.ClearScreen | src/vga_buffer.rs:316-327 | every cell is blank in the current colour, the histories and the echo are empty, the column and row position are 0 and the write row is 1 |
| Terminal.ClearScreenForgets | src/vga_buffer.rs:316-327 | the state after `clear_screen` depends only on the colour |
| Terminal.PrintColored | src/vga_buffer.rs:411-420 | the colour is white on black again afterwards |
| VgaBuffer.InputBuffer.constructor | src/vga_buffer.rs:126-131 | a fresh 100-byte array with nothing stored |
| VgaBuffer.InputBuffer.PushByte | src/vga_buffer.rs:133-138 | the stored bytes become `PushByte` of the old ones, so the length never exceeds 100 |
| VgaBuffer.InputBuffer.Clear | src/vga_buffer.rs:140-142 | the stored bytes become empty |
| VgaBuffer.InputBuffer.AsStr | src/vga_buffer.rs:144-146 | the contents when they are valid UTF-8, the empty string otherwise |
| VgaBuffer.RowHistory.constructor | src/vga_buffer.rs:70-75 | an empty history with the given capacity |
| VgaBuffer.RowHistory.PushLine | src/vga_buffer.rs:77-82 | the rows become `PushLine` of the old rows |
| VgaBuffer.RowHistory.PopLine | src/vga_buffer.rs:84-86 | None on an empty history; otherwise the last row, removed |
| VgaBuffer.RowHistory.Clear | src/vga_buffer.rs:92-94 | the history becomes empty |
| VgaBuffer.Writer.constructor | src/vga_buffer.rs:167-178 | cursor at 0, write row 0, white on black, empty echo and histories, over the given text buffer |
| VgaBuffer.Writer.SetColor | src/vga_buffer.rs:161-163 | only the colour changes, to `ColorCode::new(fg, bg)` |
| VgaBuffer.Writer.PlusWriteRow | src/vga_buffer.rs:180-182 | only the write row changes, by +1 |
| VgaBuffer.Writer.MinusWriteRow | src/vga_buffer.rs:184-186 | only the write row changes, by -1 |
| VgaBuffer.Writer.ClearRow | src/vga_buffer.rs:297-305 | exactly the given row becomes blank in the current colour |
| VgaBuffer.Writer.SetRow | src/vga_buffer.rs:257 | `self.buffer.chars[row] = line`: exactly that row becomes the line |
| VgaBuffer.Writer.SaveAndShiftDown | src/vga_buffer.rs:243-251 | the bottom row goes onto the up history, rows 0..23 move down one and row 0 is blank; nothing else changes |
| VgaBuffer.Writer.SaveAndShiftUp | src/vga_buffer.rs:263-271 | the top row goes onto the down history, rows 1..24 move up one and row 24 is blank; nothing else changes |
| VgaBuffer.Writer.ShiftRowsDown | src/vga_buffer.rs:245-249 | each row 0..23 is copied one row lower and row 0 keeps its cells |
| VgaBuffer.Writer.ShiftRowsUp | src/vga_buffer.rs:265-269 | each row 1..24 is copied one row higher and row 24 keeps its cells |
| VgaBuffer.Writer.ScrollUp | src/vga_buffer.rs:243-261 | the state becomes `Terminal.ScrollUp` of the old one |
| VgaBuffer.Writer.ScrollDown | src/vga_buffer.rs:263-279 | the state becomes `Terminal.ScrollDown` of the old one |
| VgaBuffer.Writer.ScrollUpAndAdvance | src/vga_buffer.rs:190-193 | one turn of the raising loop: the state becomes `Terminal.ScrollUpAndAdvance` of the old one |
| VgaBuffer.Writer.ScrollDownAndRetract | src/vga_buffer.rs:196-199 | one turn of the lowering loop: the state becomes `Terminal.ScrollDownAndRetract` of the old one |
| VgaBuffer.Writer.RaiseWriteRow | src/vga_buffer.rs:189-194 | the first half of `check_write_row`: the state becomes `Terminal.RaiseWriteRow` of the old one |
| VgaBuffer.Writer.LowerWriteRow | src/vga_buffer.rs:195-200 | the second half, from a row of at least 2: the state becomes `Terminal.LowerWriteRow` of the old one |
| VgaBuffer.Writer.ScrollUpWhileLow | src/vga_buffer.rs:190-193 | the loop ends at a row in 2..max(old, 2), after some number of steps of the raising loop |
| VgaBuffer.Writer.ScrollDownWhileHigh | src/vga_buffer.rs:196-199 | the loop ends at a row in min(old, 24)..24, after some number of steps of the lowering loop |
| VgaBuffer.Writer.CheckWriteRow | src/vga_buffer.rs:188-201 | the state becomes `Terminal.CheckWriteRow` of the old one |
| VgaBuffer.Writer.NewLine | src/vga_buffer.rs:281-295 | the state becomes `Terminal.NewLine` of the old one |
| VgaBuffer.Writer.WriteByte | src/vga_buffer.rs:203-241 | the state becomes `Terminal.WriteByte` of the old one |
| VgaBuffer.Writer.WrapColumn | src/vga_buffer.rs:212-214 | the wrap of a full line: the state becomes `Terminal.WrapColumn` of the old one |
| VgaBuffer.Writer.PutGlyph | src/vga_buffer.rs:215-223 | the store, advance and echo: the state becomes `Terminal.PutGlyph` of the old one |
| VgaBuffer.Writer.WriteString | src/vga_buffer.rs:307-314 | the state becomes `Terminal.WriteString` of the old one |
| VgaBuffer.Writer.ClearScreen | src/vga_buffer.rs:316-327 | the state becomes `Terminal.ClearScreen` of the old one |
| VgaBuffer.Writer.Backspace | src/vga_buffer.rs:329-350 | the state becomes `Terminal.Backspace` of the old one |
| VgaBuffer.Writer.ClearAllRows | src/vga_buffer.rs:318-320 | every row is blank in the current colour |
| VgaBuffer.Writer.EraseBefore | src/vga_buffer.rs:334-349 | the cursor steps back one cell (to the end of the row above from column 0), that cell becomes a blank in the current colour, and the last echoed byte is dropped |
| VgaBuffer.Writer.GetBuffer | src/vga_buffer.rs:352-354 | the echoed line, or the empty string when it holds a 0xfe glyph |
| VgaBuffer.Writer.BufferCopy | src/vga_buffer.rs:357-363 | copies min(destination length, line length) bytes of the echoed line, leaves the rest of the destination alone, and returns that count |
| VgaBuffer.Writer.BufferClear | src/vga_buffer.rs:365-368 | only the echo buffer changes, to empty |
| VgaBuffer.Writer.PrintColored | src/vga_buffer.rs:411-420 | the state becomes `Terminal.PrintColored` of the old one |
| Utf8.SequenceLength | src/vga_buffer.rs:144-146 | the length of the well-formed UTF-8 sequence at the start: 1 exactly for ASCII, 0 for bytes that never start one |
| Utf8.AsciiOrFeValidity | src/vga_buffer.rs:144-146 | text of ASCII bytes and 0xfe glyphs is valid UTF-8 exactly when no 0xfe is present |
| Utf8.EncodeChar | src/shell.rs:305 | one to four bytes; a single byte equal to the code point exactly for ASCII |
| Utf8.Encode | src/shell.rs:305 | at least one byte per character, exactly one each for ASCII text |
| Utf8.EncodeIsValid | src/shell.rs:305 | the bytes `write` stores for its text are always valid UTF-8 |
| Interrupts.InterruptIndex.AsU8 | src/interrupts.rs:68-71 | every vector fits in a byte |
| Interrupts.InterruptIndex.AsUsize | src/interrupts.rs:73-75 | the same number as `as_u8` |
| Interrupts.VectorOfIrq | src/interrupts.rs:12-13 | the chained PICs map lines 0-15 to vectors 32..47 |
| Interrupts.VectorLayout | src/interrupts.rs:60-66 | timer 32, keyboard 33, mouse 44; each is its device's PIC vector, none is a CPU exception vector, and no two are equal |
| Interrupts.ChainedPics.NotifyEndOfInterrupt | src/interrupts.rs:84-85 | the acknowledged vector is appended to the log |
| Interrupts.InputFlags.constructor | src/interrupts.rs:15-19 | all five key flags start lowered |
| Interrupts.TimerInterrupt | src/interrupts.rs:78-87 | exactly one acknowledgement, of vector 32 |
| Interrupts.CharByte | src/interrupts.rs:118 | `c as u8` turns a character below 0x100 into the byte of the same value |
| Interrupts.KeyWriter | src/interrupts.rs:108-131 | no key leaves the terminal alone; every key keeps it well formed and keeps the colour |
| Interrupts.KeyFlagsAfter | src/interrupts.rs:108-131 | `\n` or `\r` raises `enter`, ArrowUp raises `up`, ArrowDown raises `down`; no key leaves the flags alone; a raised flag stays raised; the left and right flags never change |
| Interrupts.KeyFlagsRaised | src/interrupts.rs:108-131 | each key raises at most its own flag: `enter` only by `\n` or `\r`, `up` only by ArrowUp, `down` only by ArrowDown |
| Interrupts.KeyWriterCases | src/interrupts.rs:108-131 | `\x08` and raw Backspace are both `backspace`, `\n` is `write_byte(b'\n')` and `\r` acts as `\n`, echoing a newline; other raw keys leave the terminal unchanged |
| Interrupts.TypedCharacterEchoed | src/interrupts.rs:117-119 | a printable character is stored at the cursor in the current colour and echoed |
| Interrupts.KeyboardInterrupt | src/interrupts.rs:108-139 | the terminal and flags change as the decoded key says, and the keyboard vector is acknowledged exactly once |
| Interrupts.HandleKey | src/interrupts.rs:108-131 | the terminal becomes `KeyWriter` of the key and the flags `KeyFlagsAfter` of the key |
| Interrupts.TypeCharacter | src/interrupts.rs:109-121 | the Unicode arm: backspace, newline with the enter flag, or the character's low byte written |
| Interrupts.PressEnter | src/interrupts.rs:113-116 | a newline through `write_byte`, and only the `enter` flag raised |
| Interrupts.PressRawKey | src/interrupts.rs:122-131 | the raw-key arm: ArrowUp and ArrowDown raise their flags, Backspace erases, nothing else happens |
| Interrupts.MouseStep | src/interrupts.rs:167-202 | the packet index stays in 0..3 between interrupts |
| Interrupts.MouseSteps | src/interrupts.rs:160-207 | over any stream of bytes, the packet index stays in 0..3 |
| Interrupts.MouseDriver.constructor | src/interrupts.rs:155-158 | the packet starts as four zero bytes at index 0 |
| Interrupts.MouseStepIndex | src/interrupts.rs:167-202 | a byte is dropped exactly when it arrives at index 0 with bit 3 clear; otherwise it is stored at the index, which moves on by one modulo 4 |
| Interrupts.MouseResync | src/interrupts.rs:167-175 | bytes without bit 3 at the start of a packet are all discarded |
| Interrupts.MousePacketAssembled | src/interrupts.rs:177-201 | four bytes whose first has bit 3 set become the packet, and the index returns to 0 |
| Interrupts.AsI8 | src/interrupts.rs:186 | two's-complement reading of the wheel byte |
| Interrupts.WheelScroll | src/interrupts.rs:186-199 | wheel -1 advances the write row by one, wheel 1 retracts it by one, any other value changes nothing; column, colour and echo are kept |
| Interrupts.WheelBytes | src/interrupts.rs:186-199 | 0xff scrolls up and advances one row, 0x01 scrolls down and retracts one row, any other byte changes nothing |
| Interrupts.MouseDriver.Interrupt | src/interrupts.rs:160-207 | the packet state moves by `MouseStep`; only a completed packet scrolls, by its wheel byte; every path acknowledges vector 44 exactly once |
| Interrupts.Scroll | src/interrupts.rs:189-199 | the terminal becomes `WheelScroll` of the wheel value |
| Syscalls.SysWriteByte | src/syscalls.rs:58-69 | every byte leaves a well-formed terminal in the same colour |
| Syscalls.SysWrite | src/syscalls.rs:58-69 | the bytes in order through `SysWriteByte`: the terminal stays well formed and keeps its colour |
| Syscalls.EchoedGlyphs | src/syscalls.rs:58-69 | at most one echoed glyph per byte, each printable or 0xfe |
| Syscalls.SysWriteIsWriteString | src/syscalls.rs:58-69 | without newlines `sys_write` has the same effect as `write_string` |
| Syscalls.SysWriteNewline | src/syscalls.rs:62-63 | a newline goes to `new_line`: nothing is echoed and the row is not clamped, unlike in `write_string` |
| Syscalls.SysWriteEcho | src/syscalls.rs:58-69 | the echo buffer ends as the old contents followed by every non-newline byte's glyph, cut at 100 bytes |
| Syscalls.PushOntoCapped | src/vga_buffer.rs:133-138 | pushing onto a capped buffer is capping the longer sequence |
| Syscalls.SysWriteCall | src/syscalls.rs:53-71 | the terminal becomes `SysWrite` of the `len` bytes in order, and `len` is returned |
| Syscalls.WriteOneByte | src/syscalls.rs:59-68 | exactly one `Writer` call for the byte, as `SysWriteByte` says |
| Syscalls.SyscallDispatcher | src/syscalls.rs:26-39 | number 1 runs `sys_write` and returns its result; every other number returns 0 and leaves the terminal unchanged |
| Syscalls.StarLayout | src/syscalls.rs:76 | STAR selects kernel CS 0x08 and SS 0x10 for `syscall`, and base 0x10 (user CS 0x20, SS 0x18) for `sysret` |
| Syscalls.StarValue | src/syscalls.rs:76 | the STAR value is 0x0010_0008_0000_0000 |
| Syscalls.ModelSpecificRegisters.Write | src/syscalls.rs:74-78 | only the given register takes the value |
| Syscalls.InitSyscall | src/syscalls.rs:73-79 | LSTAR is the entry point, STAR `(0x08 << 32) \| (0x10 << 48)`, FMASK 0 |
| Ramfs.NodeRef.constructor | src/ramfs.rs:22-32 | a node holding the given value |
| Ramfs.NewDir | src/ramfs.rs:22-26 | a fresh node holding an empty directory |
| Ramfs.NewFile | src/ramfs.rs:28-32 | a fresh node holding an empty file |
| Ramfs.NodeRef.AddEntry | src/ramfs.rs:34-46 | the node and result become `WithEntry` of the old node |
| Ramfs.NodeRef.RemoveEntry | src/ramfs.rs:84-96 | the node and result become `WithoutEntry` of the old node |
| Ramfs.NodeRef.WriteFile | src/ramfs.rs:56-66 | the node and result become `WithContent` of the old node |
| Ramfs.AddEntryOutcome | src/ramfs.rs:34-46 | Ok exactly on a directory without the name; then the name leads to the child and all other names are unchanged; "Entry already exists" or "Not a directory" otherwise, with nothing changed |
| Ramfs.GetEntry | src/ramfs.rs:48-54 | found exactly on a directory holding the name, and then the very node stored there |
| Ramfs.ReadFile | src/ramfs.rs:68-74 | Ok exactly on a file, with its whole content; "Not a file" otherwise |
| Ramfs.WithEntry | src/ramfs.rs:34-46 | Ok exactly on a directory without the name, which then gains that name and no other; on an error the node is unchanged |
| Ramfs.WithoutEntry | src/ramfs.rs:84-96 | Ok exactly on a directory holding the name, which then loses that name and no other; on an error the node is unchanged |
| Ramfs.WithContent | src/ramfs.rs:56-66 | Ok exactly on a file; on an error the node is unchanged; a file stays a file and a directory a directory |
| Ramfs.RemoveEntryOutcome | src/ramfs.rs:84-96 | Ok exactly on a directory holding the name; afterwards the name is absent and other names are unchanged; "Entry not found" or "Not a directory" otherwise, with nothing changed |
| Ramfs.RemoveUndoesAdd | src/ramfs.rs:34-96 | removing a name just added restores the directory |
| Ramfs.WriteThenRead | src/ramfs.rs:56-74 | on a file, `read_file` after `write_file` returns exactly the data; on a directory both fail with "Not a file" and nothing changes |
| Ramfs.WriteTwice | src/ramfs.rs:56-66 | only the second of two writes is kept |
| Ramfs.FileSystem.constructor | src/ramfs.rs:76-82 | both slots start empty |
| Ramfs.FileSystem.InitFs | src/ramfs.rs:76-82 | `ROOT_DIR` and `CURRENT_DIR` are fresh empty directories, and distinct nodes |
| Text.TrimStart | src/shell.rs:105 | a suffix of the text that does not start with whitespace; only whitespace was removed |
| Text.TrimEnd | src/shell.rs:105 | a prefix of the text that does not end with whitespace; only whitespace was removed |
| Text.Trim | src/shell.rs:105 | a slice of the text with only whitespace on either side, starting where `TrimStart` does, and neither starting nor ending with whitespace |
| Text.WordLength | src/shell.rs:105-106 | a word has at least one character |
| Text.Words | src/shell.rs:105-106 | at most one word per character; a text that starts with a non-whitespace character starts with the word running up to the first whitespace |
| Text.WordLengthIsRun | src/shell.rs:105-106 | a word is a maximal run of non-whitespace |
| Text.WordsAreWords | src/shell.rs:105-106 | every word is non-empty and contains no whitespace |
| Text.WordsAppendSpace | src/shell.rs:105-106 | trailing whitespace adds no word |
| Text.WordsOfTrim | src/shell.rs:105-106 | trimming first does not change the words |
| Text.WordsEmpty | src/shell.rs:105-106 | a text has no words exactly when it is all whitespace |
| Text.JoinAppend | src/shell.rs:298 | one more part adds the separator and the part |
| Text.Join | src/shell.rs:298 | nothing joins to the empty text; otherwise the result starts with the first part |
| Text.WordsOfJoin | src/shell.rs:298 | splitting words joined by single spaces gives the words back |
| Text.JoinEmpty | src/shell.rs:298-299 | joining non-empty words gives the empty text exactly when there are none |
| Text.LexTotal | src/shell.rs:398-405 | any two keys are ordered one way or the other |
| Text.LexTransitive | src/shell.rs:398-405 | the key order is transitive |
| Text.LexAntisymmetric | src/shell.rs:398-405 | keys ordered both ways are equal |
| Text.LeastExists | src/shell.rs:398-405 | every non-empty set of keys has a least one |
| Shell.Parse | src/shell.rs:105-106 | the command is selected from the line's whitespace-separated words; trimming first changes nothing |
| Shell.Select | src/shell.rs:106-118 | blank on no word; each keyword selects its own command and only it; an unknown first word is kept; a command's name is the second word exactly when there is one; `write`'s text is the remaining words |
| Shell.ParseBlank | src/shell.rs:105-119 | a line is the empty command exactly when it is all whitespace |
| Shell.ParseIgnoresPadding | src/shell.rs:105-106 | whitespace around a line never changes the command |
| Shell.WriteTextRoundTrip | src/shell.rs:296-302 | the text `write` stores is empty exactly when no word follows the name, and splitting it gives those words back |
| Shell.ComponentUnique | src/shell.rs:395-415 | a path component is uniquely determined |
| Shell.Component | src/shell.rs:395-415 | the least name under which the parent holds that very child node; "<unknown>" if none; "<not a directory>" under a file |
| Shell.ComponentOfOnlyName | src/shell.rs:398-407 | a child held under a single name gets that name |
| Shell.Components | src/shell.rs:389-416 | one component per stack entry after the first |
| Shell.PathOfPush | src/shell.rs:384-418 | entering a directory adds its component to the path, after a "/" unless only the root was on the stack |
| Shell.Path | src/shell.rs:384-418 | a path always starts with "/" and is "/" for a stack of fewer than two entries |
| Shell.GetPath | src/shell.rs:384-418 | "/" followed by the stack's components joined by "/" ("/" for an empty or one-entry stack) |
| Shell.FirstName | src/shell.rs:398-405 | None exactly when no name holds the child; otherwise the least name that holds it |
| Shell.CdStack | src/shell.rs:210-241 | `cd` keeps the bottom of the stack; it grows only by the directory the current one holds under the name, shrinks only by one on "..", and otherwise stays as it was |
| Shell.AfterRm | src/shell.rs:242-266 | the current directory is either unchanged or loses exactly the named entry, and stays a directory if it was one |
| Shell.AfterRmdir | src/shell.rs:267-295 | the current directory is either unchanged or loses exactly the named entry, and stays a directory if it was one |
| Shell.WriteTarget | src/shell.rs:296-314 | a node is written exactly when a name and some text were given and the current directory holds the name, and it is the node stored there |
| Shell.CdThenBack | src/shell.rs:212-237 | `cd ..` right after entering a directory restores the stack |
| Shell.CdAtRoot | src/shell.rs:212-220 | `cd ..` at the root keeps the stack |
| Shell.RemoveOnlyMatching | src/shell.rs:242-295 | `rm` removes the entry exactly when it names a file, and `rmdir` exactly when it names an empty directory; no other name is touched |
| Shell.ShellState.constructor | src/shell.rs:11-21 | an empty directory stack over the given filesystem |
| Shell.ShellState.Start | src/shell.rs:12-21 | a root is made if missing; the current directory and the stack are reset to it |
| Shell.ShellState.ExecuteCommand | src/shell.rs:104-353 | with no current directory, nothing happens; otherwise the parsed command has exactly its effect on the terminal, the stack and the nodes, and the stack invariant is kept |
| Shell.ShellState.ClearCommand | src/shell.rs:149 | the terminal is cleared and nothing else changes |
| Shell.ShellState.Idle | src/shell.rs:119-174 | the empty command and the output-only commands change neither the filesystem nor the stack; their printed messages are left out, so the terminal is stated unchanged |
| Shell.ShellState.MakeEntry | src/shell.rs:175-194 | with a name, a fresh empty directory or file is added under it if the name is free; without one, the filesystem and stack are unchanged; printed usage and error messages are left out |
| Shell.ShellState.ChangeDirectory | src/shell.rs:210-241 | the stack becomes `CdStack`, and the current directory follows the new top; printed error and usage messages are left out |
| Shell.ShellState.RemoveFile | src/shell.rs:242-266 | the current directory becomes `AfterRm` of itself, and no other node or the stack changes; printed error and usage messages are left out |
| Shell.ShellState.RemoveDirectory | src/shell.rs:267-295 | the current directory becomes `AfterRmdir` of itself, and no other node or the stack changes; printed error and usage messages are left out |
| Shell.ShellState.WriteText | src/shell.rs:296-314 | with text, the named file's content becomes the UTF-8 of the words joined by spaces; no other node changes; printed error and usage messages are left out |
| Shell.HistoryCursor.constructor | src/shell.rs:25-26 | the counter and the history size start at 0 |
| Shell.HistoryCursor.Enter | src/shell.rs:38-41 | below 10 the history size grows by one and the counter moves to its end; at 10 neither changes; 0 <= counter <= size <= 10 is kept |
| Shell.HistoryCursor.Up | src/shell.rs:53-55 | the counter moves back one, stopping at 0 |
| Shell.HistoryCursor.Down | src/shell.rs:76-78 | the counter moves forward one, stopping at the history size |

## Left out

- PS/2 controller bring-up and port polling (`init_mouse`, `send_mouse_command`, the wait loops): these are busy-waits on hardware ports. The port reads that fetch the scancode or mouse byte become handler parameters.
- The IDT, the breakpoint, double-fault and page-fault handlers, and PIC programming: these are hardware tables and calls into the `x86_64` and `pic8259` crates. End-of-interrupt notifications are kept as a log (`ChainedPics`).
- Scancode decoding by `pc_keyboard`: the keyboard handler starts from the decoded key, or from none.
- The syscall entry trampoline, the `syscall` instruction wrapper and the actual MSR writes (inline assembly). MSRs are a map of written values. The caller's buffer is a byte sequence, and `len <= |buffer|` stands for the safety demand of `slice::from_raw_parts`.
- Locking, `lazy_static`, `without_interrupts` and interrupt interleaving: every operation runs alone on one `Writer`.
- `core::fmt` and the print macros: output is `write_string` on bytes. The messages the shell commands print (usage lines, errors, `ls`, `help`, `open`, `time`, greetings) are not written to the terminal in the model: their screen effect (the cells, the echo, and the colour reset of `print_colored`) is dropped, and only the fact that they leave the filesystem and the stack alone is modelled (`Idle`).
- `off`, `restart` and `time` use port I/O and assembly. `ls`, `open` and `help` only print. These commands all map to `Other`, with no effect on the model.
- `shell_loop`'s infinite `hlt` loop and its Enter branch plumbing are not modelled: the 256-byte copy, `from_utf8` and the prompt printing. The counter and history-size updates are modelled (`HistoryCursor`).
- `HistoryBuffer`, `get_write_row` and `write_col_null` are not modelled, so the UP/DOWN history redraw in `shell_loop` is left out; only its counter updates are modelled (`HistoryCursor`).
- Boot wiring, heap and memory initialisation in `src/main.rs` and `src/lib.rs`.
- `RowHistory.IsEmpty` (`is_empty`) is modelled but has no contract: the source never calls it.
- Terminal.CheckWriteRow: the clamp leaves the write row in 2..24. The code's loop runs while the row is `<= 1`.
- Terminal.Backspace: the early return at column 0 of row 0 is unreachable after the clamp, so the model has no branch for it.
- Terminal.NewLine: `isize` overflow of the write row (at 2^63) is not modelled. The row is an unbounded integer; only the `as usize` cast is modelled, as reduction modulo 2^64.
- Terminal.WriteString: its own contract states well-formedness and the colour; what it writes is stated by `WriteStringIsWriteBytes`.
- Terminal.PushLine: requires a capacity above 0. With capacity 0 the source's `remove(0)` panics on the empty vector; the terminal only uses capacity 100, so that panic is not modelled.
- Shell.FirstName: `BTreeMap` iterates in byte order of the UTF-8 keys, which is code-point order. The model visits the entries in any order and keeps the least match, which gives the same name.
- Shell.ShellState.ExecuteCommand: the messages the commands print (usage lines, errors, `help`, `time`, unknown words) are not modelled, and neither is `print_colored` (behind `println_colored!`) setting the colour back to white on black; the contract states the terminal unchanged on every path but `clear`.
- Shell.ShellState.Idle: the help text, the `time` output, the greetings and the unknown-word line (src/shell.rs:121-147, 172-173, 343-350) are not modelled; the contract states the terminal unchanged.
- Shell.ShellState.MakeEntry: the usage and error lines of `mkdir` and `touch` (src/shell.rs:182, 192) are not modelled; the contract states the terminal unchanged.
- Shell.ShellState.ChangeDirectory: the "Already at root", "not a directory", "No such directory" and usage lines of `cd` are not modelled; the contract states the terminal unchanged.
- Shell.ShellState.RemoveFile: the error and usage lines of `rm` (src/shell.rs:250-264) are not modelled; the contract states the terminal unchanged.
- Shell.ShellState.RemoveDirectory: the error and usage lines of `rmdir` (src/shell.rs:276-293) are not modelled; the contract states the terminal unchanged.
- Shell.ShellState.WriteText: the usage and error lines of `write` are not modelled; the contract states the terminal unchanged.
- Shell.ShellState.ExecuteCommand: `created` is a ghost result naming the node `mkdir` or `touch` built, so the contract can speak of it.
- Shell.ShellState.ExecuteCommand: the directory-stack invariant (root at the bottom, current directory on top, every entry a directory) is kept as long as it held before. It is not proved for a stack that already broke it.
