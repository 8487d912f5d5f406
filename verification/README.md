# Console firmware of the KS10 FPGA: a verified model

The KS10 FPGA project puts a microcontroller beside the processor as its console. This project models the
algorithmic parts of that console's firmware in Dafny and proves what they are for. To verify it, run in this
directory

    dafny verify --resource-limit 2000000 --verification-time-limit 0 --warn-contradictory-assumptions dfyconfig.toml

which no proof should exhaust; plain `dafny verify dfyconfig.toml`, with Dafny's own time limit, checks the same.

**The interactive command line** is the core.

- `HistoryRing` is the 128-byte ring of variable-length records behind the up and down keys. The class keeps the
  bytes, the three indices and a ghost list of lines; `Represents` says that the records of the list tile the ring
  from `head` to `tail` with a zero length byte after the newest. Over every interleaving of saves and recalls the
  history is the longest run of newest lines that fits.
- `Editing` says what the editor is for without buffers: a line split at the cursor, a history, and the commands
  executed; the bytes left over behind the line are part of the picture, because ^T can bring one back.
  `CommandLine` is the in-place editor with its escape-sequence states. Every key does to the 80-byte buffer exactly
  what `Editing.Press` says, and `Editing` says byte by byte what that is (`LeftKeys` to `OtherSequences`).
- `Terminal` is a VT100 fed one byte at a time, including the parsing of control sequences (ECMA-48, sections 8.3.18
  CUB, 8.3.20 CUF and 8.3.41 EL, and the private CSI s and CSI u). `CursorControl` sends those bytes. `Display`
  says when the row shows prompt and line (`Shows`), and what the editor keeps up over every key (`Tracks`): the row
  begins with prompt and line as far as the line's first NUL, and shows the whole of a printable line. Though each
  edit sends only incremental output, the row hence shows the line after every run of keys exactly when the line is
  printable, and is right again by itself when a NUL has gone from it. The PF1 dump and the console's own echoes spoil
  the row; the next return makes it right again whatever it showed before.

**Codecs and parsers.** `EthernetFifo` is the packing of frames into the controller's word FIFOs, for all lengths and
buffer sizes. `Numerals`, `Formatter` and `FormatPieces` are number printing, octal parsing and the `sprintf` engine,
and `Disassembler` the PDP-10 disassembler built on it. `SavLoader` is the `.SAV` image loader, `Tokenizer` the
in-place command tokenizer.

**Arithmetic and protocols.** `ClockDivider` is the search for the serial clock divider, `RegisterTest` the walking-ones
test, `CtyMailbox` the console terminal mailbox as a state machine over bus transactions.

Memory that the source changes in place is an array or a field here and is changed in place. Bytes are integers below
256 (`char` is unsigned on this target); 8-, 32- and 64-bit wrap-around is written out where it can occur. In
`RegisterTest` a word is the set of its one bits, so that one proof serves 32 and 64 bits.

Results where the code and its documentation, or what one would expect of it, differ:

- ^T has no bounds check. With the cursor at position 0 it reads and writes before the buffer; this is the only key
  that `Process` asks not to be pressed (`InBounds`; `TransposeOutOfBounds` has it at a fresh prompt and after `A`,
  ^A). With the cursor at the end of the line it exchanges the last character with the byte left over behind the line,
  which is NUL or part of an earlier, longer line, and everything here covers that. Line and history stay printable
  exactly when that byte is printable (`PressKeepsValid`, over runs `CleanRuns`); the screen shows the line exactly
  while the line is printable (`Process`, `TaskConsole`); and line, history and command agree exactly when it is
  (`HistoryMatchesCommands`, `NewestEntryIsLastCommand`, `EnteredLineIsNewest`). The failing input is `A`, ^T, return
  at a fresh prompt (`NulIsNotShown`, `NulIsStored`): the history stores a line of one NUL, while the command executed
  is empty. A backspace in place of the return removes the NUL, and the row is right again (`NulIsRubbedOut`).
- The comment on `inschar` says that the rest of the line is redrawn only when inserting in its middle. The condition
  compares the old cursor position with the new length and always holds; the model redraws always.
- A receive into a buffer said to hold one byte stores two; the bytes stored stay within the length given exactly
  when that is at least two (`StoredFits`), and the contract asks for an array that has two.
- A transmit of fewer bytes than a 14-byte header has a negative payload length, whose upper half hides the first two
  bytes of the frame (`FirstWord`, `SentStartsWithFrame`).
- `vsnprintf` terminates the text exactly when no conversion reached is cut off by the end of the format
  (`EndedWhenComplete`; `"%"` fails), and what C reads back is as long as the count returned exactly when no `%s` asks
  for more than its string has and no `%c` prints a NUL (`TextIsCString`; `"%3s"` of two characters fails). Every `%d`
  goes through a printer that has no decimal and says so (`SignedText`).
- The disassembler's static buffer has 32 bytes. A text fits exactly when name and operand have at most 11 characters
  (`TextFits`); `MOVE 1,1000(17)` does not (`MoveDoesNotFit`).
- `parseOctal` reads at most 22 digits and keeps 61 bits, because it shifts once too often and then back.
- Walking ones is complete for a linear register. For an affine one (stuck or inverted bits) it is exactly the
  reading of zero that has to be added; `WalkingOnes` states the equivalence, and `AffineRegisterPasses` is a
  register that passes and fails on zero.
- The serial clock found is never slower than the one asked for; `Accuracy` bounds how much faster it is.

## Model

| member | source | states |
|---|---|---|
| HistoryRing.History.constructor | code/cmdlinelib/hist.cpp:46-51 | a new ring is a valid representation of the empty history |
| HistoryRing.History.FindFree | code/cmdlinelib/hist.cpp:126-153 | the ring is left representing what remains after dropping oldest entries until the size fits; it terminates on the number of entries |
| HistoryRing.EvictIsLeast | code/cmdlinelib/hist.cpp:138-151 | what is dropped is the least number of oldest entries that makes room |
| HistoryRing.History.Save | code/cmdlinelib/hist.cpp:166-202 | for every line and every ring position, the decoded history is the surviving entries and the new line, the recall index restarts, and no byte of a surviving record is touched; an empty line or one beyond 126 bytes changes nothing at all |
| HistoryRing.UnstorableSaveInRun | code/cmdlinelib/hist.cpp:168-174 | saving such a line anywhere in a run of saves and recalls makes no difference, so recall goes on from where it was |
| HistoryRing.EncodeTotal | code/cmdlinelib/hist.cpp:126-153 | a history fits when its lines, a length byte each and one byte more take no more than 128 |
| HistoryRing.History.Entries | code/cmdlinelib/hist.cpp:212-219 | the walk counts exactly the entries |
| HistoryRing.History.Find | code/cmdlinelib/hist.cpp:238-247 | the walk stops at the entry where the 32-bit difference is the index, or at the terminator, including when `num - 1` wraps on an empty ring |
| HistoryRing.History.CopyBuffer | code/cmdlinelib/hist.cpp:263-270 | the record's text is copied around the end of the buffer; the rest of the destination is untouched |
| HistoryRing.History.Recall | code/cmdlinelib/hist.cpp:288-311 | returns -1 and changes nothing exactly at the oldest entry; otherwise the destination holds the line now on display, the empty one below the newest |
| HistoryRing.DecodingIsUnique | code/cmdlinelib/hist.cpp:212-219 | no two histories share the same bytes |
| HistoryRing.HeadByte | code/cmdlinelib/hist.cpp:130-136 | the length byte at `head` is zero, and `head` equals `tail`, exactly when the history is empty; a zero stands at `tail` |
| HistoryRing.DropOldest | code/cmdlinelib/hist.cpp:151 | stepping over a record leaves a ring that represents the remaining entries, and the bytes stepped over were the oldest line |
| HistoryRing.NewestIsLongest | code/cmdlinelib/hist.cpp:117-120 | the run of newest lines kept is the longest that fits |
| HistoryRing.HistoryIsNewestThatFits | code/cmdlinelib/hist.cpp:126-202 | over every interleaving of saves and recalls, the history is the longest run of newest storable lines that fits, and the index never exceeds the entry count |
| HistoryRing.SavedRun | code/cmdlinelib/hist.cpp:166-202 | after any run ending in a save, the history is the longest fitting tail of all lines ever saved and the index is zero |
| HistoryRing.RecallsMove | code/cmdlinelib/hist.cpp:288-311 | k steps in one direction move the index by k, held between zero and the entry count |
| HistoryRing.RecallShowsNewest | code/cmdlinelib/hist.cpp:273-311 | after k ups and j downs the line on display is the one counting predicts, for all k and j |
| Terminal.ControlReceived | code/cmdlinelib/cursor.hpp:53-64 | a control sequence with a printed decimal parameter is parsed back to that parameter and acts as its final byte with it |
| Terminal.FinalCharacters | code/cmdlinelib/cursor.hpp:53-80 | the five control sequences the cursor sends move, erase, save and restore as ECMA-48 and the private sequences say, by their final characters |
| Terminal.SingleCharacters | code/cmdlinelib/cursor.hpp:81-89 | carriage return, backspace, newline and graphic characters act on the row as on a VT100, other control characters not at all |
| CursorControl.Cursor.Fwd | code/cmdlinelib/cursor.hpp:53-58 | tracked and physical column both move right; an offset of zero sends nothing |
| CursorControl.Cursor.Back | code/cmdlinelib/cursor.hpp:59-64 | tracked and physical column both move left |
| CursorControl.Cursor.Move | code/cmdlinelib/cursor.hpp:65-69 | for every 8-bit position, the tracked position is set and the terminal goes to the left margin and then over the prompt, in 8-bit arithmetic |
| CursorControl.Cursor.Save | code/cmdlinelib/cursor.hpp:73-76 | both positions are saved |
| CursorControl.Cursor.Restore | code/cmdlinelib/cursor.hpp:77-80 | both positions return to what was saved |
| CursorControl.Cursor.PutChar | code/cmdlinelib/cursor.hpp:81-89 | every character reaches the terminal, a newline as carriage return and line feed, and the tracked position follows |
| CursorControl.Uart.PutChar | code/stdio.cpp:95-101 | a newline is sent as carriage return and line feed |
| Display.MoveTracks | code/cmdlinelib/cursor.hpp:65-69 | from any position of a tracked line the move reaches any other, without disturbing the row |
| Display.RedrawnTracks | code/cmdlinelib/cmdline.cpp:87-94 | once the part before the cursor is right, redrawing from the cursor makes the row right as far as the line's first NUL, and wholly when the line is printable |
| Display.TrackedIsShown | code/cmdlinelib/cmdline.cpp:87-94 | a tracked line is shown exactly when it is printable |
| Display.ErasedTracks | code/cmdlinelib/cursor.hpp:70-72 | erasing from the cursor leaves the row right for the line before it |
| Display.FreshPromptShows | code/commands.cpp:3236 | carriage return, line feed and the prompt make a faithful empty line of any screen |
| Display.ShownCells | code/prompt.hpp:43 | a shown row is `KS10> `, the line and blanks, with the terminal's cursor behind the prompt by the editor's position |
| CommandLine.Cmdline.constructor | code/cmdlinelib/cmdline.cpp:66-74 | a new editor has an empty line and the boot command in its history |
| CommandLine.Cmdline.Update | code/cmdlinelib/cmdline.cpp:87-94 | the row from the cursor on becomes the rest of the line and blanks, and the cursor returns |
| CommandLine.Cmdline.GetHist | code/cmdlinelib/cmdline.cpp:104-112 | the recalled line replaces line and display with the cursor at its end, the old bytes behind it staying, or nothing changes |
| CommandLine.Cmdline.InsChar | code/cmdlinelib/cmdline.cpp:128-139 | the character is inserted between the two halves of the line unless it is full, by an overlapping copy; the screen follows |
| CommandLine.Cmdline.DelChar | code/cmdlinelib/cmdline.cpp:146-154 | the first character after the cursor goes; the screen follows |
| CommandLine.Cmdline.DoBackspace | code/cmdlinelib/cmdline.cpp:161-170 | the last character before the cursor goes; the screen follows |
| CommandLine.Cmdline.DoTranspose | code/cmdlinelib/cmdline.cpp:178-186 | the character before the cursor and the byte under it change places, at the end of the line too; the screen follows exactly unless that byte is unprintable |
| CommandLine.Cmdline.Newline | code/cmdlinelib/cmdline.cpp:197-205 | the line is saved as it is and executed up to its first NUL, the buffer is cleared, and the screen is faithful whatever it showed before |
| CommandLine.Cmdline.KillToEnd | code/cmdlinelib/cmdline.cpp:307-310 | the text after the cursor goes; the screen follows |
| CommandLine.Cmdline.Clear | code/cmdlinelib/cmdline.cpp:355-359 | the line is emptied; the screen follows |
| CommandLine.Cmdline.RedrawLine | code/cmdlinelib/cmdline.cpp:317-321 | the line is printed again and the cursor is at its end |
| CommandLine.Cmdline.ProcessNone | code/cmdlinelib/cmdline.cpp:224-390 | each key outside escape sequences does what the abstract editor says |
| CommandLine.Cmdline.ProcessEscBrk | code/cmdlinelib/cmdline.cpp:431-533 | so does each third byte of a cursor-key sequence |
| CommandLine.Cmdline.ProcessKeypad | code/cmdlinelib/cmdline.cpp:540-646 | and each byte of the keypad sequences; the PF1 dump makes the screen unfaithful |
| CommandLine.Cmdline.Process | code/cmdlinelib/cmdline.cpp:215-648 | every byte, from every escape state, refines the abstract editor on all 80 bytes; a screen that tracks the line goes on tracking it, hence shows it exactly when it is printable, return restoring it from any state |
| CommandLine.TaskConsole | code/console.cpp:234-268 | over every run of keys inside the buffer the byte buffer refines the abstract editor, and while nothing else has written to the row since the last return, the row begins with prompt and line as far as the first NUL and shows the line exactly when the line is printable |
| CommandLine.Echo | code/console.cpp:248-262 | ^C is echoed and leaves a fresh prompt, ^Q and ^S are echoed, no other key is |
| CommandLine.NulIsNotShown | code/cmdlinelib/cmdline.cpp:178-186 | after one character and ^T with a NUL behind the line, the row is undisturbed but the line unprintable, so that no row shows it |
| CommandLine.NulIsRubbedOut | code/cmdlinelib/cmdline.cpp:161-186 | a backspace later the line is empty again on an undisturbed row, which hence shows it |
| Editing.LeftKeys | code/cmdlinelib/cmdline.cpp:254-258 | ^B and the left arrow move one to the left, unless at the start |
| Editing.RightKeys | code/cmdlinelib/cmdline.cpp:287-291 | ^F and the right arrow move one to the right, unless at the end |
| Editing.StartKeys | code/cmdlinelib/cmdline.cpp:242-248 | ^A and Home move to the start |
| Editing.EndKeys | code/cmdlinelib/cmdline.cpp:276-281 | ^E and End move to the end, and so does the redraw of ^L |
| Editing.KillKeys | code/cmdlinelib/cmdline.cpp:307-359 | ^K takes the text after the cursor and ^U the whole line, their bytes staying in the buffer |
| Editing.DeleteKeys | code/cmdlinelib/cmdline.cpp:146-154 | ^D and DEL take the character under the cursor, if any |
| Editing.BackspaceKeys | code/cmdlinelib/cmdline.cpp:161-170 | ^H and ^C take the character before the cursor, if any |
| Editing.TransposeKey | code/cmdlinelib/cmdline.cpp:178-186 | ^T exchanges the two bytes of the buffer around the cursor and nothing else |
| Editing.CharacterKey | code/cmdlinelib/cmdline.cpp:128-139 | a printable character goes in before the cursor while the line has fewer than 79 |
| Editing.UpKeys | code/cmdlinelib/cmdline.cpp:104-112 | ^P and the up arrow show the next older entry, and do nothing at the oldest |
| Editing.DownKeys | code/cmdlinelib/cmdline.cpp:104-112 | ^N and the down arrow show the next newer entry, and below the newest the empty line |
| Editing.ReturnKey | code/cmdlinelib/cmdline.cpp:197-205 | return saves, executes and clears the line, an empty one leaving the history and the recall as they were |
| Editing.OtherKeys | code/cmdlinelib/cmdline.cpp:220-390 | every other byte outside escape sequences does nothing |
| Editing.OtherSequences | code/cmdlinelib/cmdline.cpp:396-646 | escape sequences with an unknown or idle byte do nothing but end |
| Editing.SpecialKeys | code/cmdlinelib/cmdline.cpp:548-556 | only return outside escape sequences ends a line, and only PF1 dumps the history |
| Editing.OutOfBounds | code/cmdlinelib/cmdline.cpp:178-182 | the only byte that can reach outside the buffer is ^T with the cursor at the start |
| Editing.PressKeepsValid | code/cmdlinelib/cmdline.cpp:128-186 | for every key inside the buffer, line and cursor stay within 79, every byte is printable or NUL, and stored lines fit the buffer they are recalled into; line and history stay printable exactly unless ^T at the end of the line takes in a NUL |
| Editing.HistoryMatchesLines | code/cmdlinelib/cmdline.cpp:66-205 | over every run of keys inside the buffer the history is the longest fitting run of newest non-empty lines, starting from the boot command, and each command is its line up to the first NUL |
| Editing.HistoryMatchesCommands | code/cmdlinelib/cmdline.cpp:197-205 | over every such run, commands and lines are the same exactly when all lines were printable, and then the history is that of the commands |
| Editing.CleanRuns | code/cmdlinelib/cmdline.cpp:178-186 | line and history stay printable throughout a run exactly when no ^T in it takes in a NUL |
| Editing.CleanRunsAgree | code/cmdlinelib/cmdline.cpp:178-205 | in such a run every line ended with return is printable |
| Editing.NewestEntryIsLastCommand | code/cmdlinelib/cmdline.cpp:197-205 | over every run of keys inside the buffer the newest entry is the last non-empty line, and the last non-empty command exactly when it is printable |
| Editing.EnterKeepsAgreement | code/cmdlinelib/cmdline.cpp:197-205 | return keeps the agreement of history, lines and commands |
| Editing.EnteredLineIsNewest | code/cmdlinelib/cmdline.cpp:197-205 | a non-empty line ended with return is the newest entry, and the command executed exactly when it is printable |
| Editing.TransposeAfterOneCharacter | code/cmdlinelib/cmdline.cpp:178-186 | one character and ^T on an empty line leave the second byte of the buffer as the line |
| Editing.TransposeOutOfBounds | code/cmdlinelib/cmdline.cpp:178-182 | ^T is out of bounds at a fresh prompt, and after a character and ^A, which are in bounds |
| Editing.NulIsStored | code/cmdlinelib/cmdline.cpp:178-205 | `A`, ^T and return at a fresh prompt store a line of one NUL and execute the empty command |
| Editing.TypedLineIsExecuted | code/cmdlinelib/cmdline.cpp:128-205 | up to 79 printable characters typed and ended with return are executed as typed |
| Editing.UpRecallsLastCommand | code/cmdlinelib/cmdline.cpp:104-112 | up after return brings back the line just ended |
| Editing.ArrowIsControlKey | code/cmdlinelib/cmdline.cpp:431-476 | the arrow sequences do exactly what ^P, ^N, ^F and ^B do |
| Editing.BackspaceUndoesInsert | code/cmdlinelib/cmdline.cpp:128-170 | backspace takes back a typed character exactly when there was room for it, or nothing to take back |
| Editing.TransposeTwice | code/cmdlinelib/cmdline.cpp:178-186 | transposing twice in place restores line and buffer, at the end of the line too |
| EthernetFifo.PacketGetInternal | code/driverlib/ethernet.c:541-617 | for every frame length and buffer size, exactly the frame's words are consumed, the bytes of those words from the third on are stored in order, least significant first, as far as they fit, nothing else in the buffer changes, and a frame that does not fit gives its negated length |
| EthernetFifo.WordBytes | code/driverlib/ethernet.c:556-566 | the byte stream of the FIFO is its words, least significant byte first |
| EthernetFifo.StoredFits | code/driverlib/ethernet.c:555-562 | the bytes stored stay within the length given exactly when that is at least two |
| EthernetFifo.FillBuffer | code/driverlib/ethernet.c:562-593 | whole words and a tail of one to three bytes make up exactly the part that fits |
| EthernetFifo.DrainFrame | code/driverlib/ethernet.c:598-602 | the rest of the frame's words are consumed and no more |
| EthernetFifo.FrameLengthIsLowHalf | code/driverlib/ethernet.c:555 | the length field is the low half of the first word |
| EthernetFifo.FrameReceived | code/driverlib/ethernet.c:541-617 | a frame at the front of the FIFO is received whole or cut to the buffer, and what is behind it is left alone |
| EthernetFifo.PacketsReceivedInOrder | code/driverlib/ethernet.c:541-617 | any series of receives over queued packets returns them in order, whichever are truncated |
| EthernetFifo.GetPackets | code/driverlib/ethernet.c:541-617 | a series of calls on queued packets returns them in order and leaves what is behind them |
| EthernetFifo.PacketPutInternal | code/driverlib/ethernet.c:769-838 | for every length, the words written hold the length field, the frame's bytes in order, least significant first, and zeros; a frame above 2046 bytes is refused with nothing written |
| EthernetFifo.SentStartsWithFrame | code/driverlib/ethernet.c:790-793 | what is written starts with the frame's first two bytes exactly when it has a whole header, or they are all ones |
| EthernetFifo.TransmitReceive | code/driverlib/ethernet.c:541-838 | for every frame of 14 to 2046 bytes, what is put is on the wire, and received back it is the identical bytes |
| Numerals.Ultoa | code/stdio.cpp:158-165 | exactly the numeral and a NUL are stored; the result points at the NUL |
| Numerals.Ulltoa | code/stdio.cpp:204-223 | the same for 64 bits in octal and hexadecimal, and the message for any other radix |
| Numerals.NumeralReadsBack | code/stdio.cpp:158-165 | the digits printed denote the number, in any radix from 2 to 36 |
| Numerals.DigitsAre | code/stdio.cpp:158-165 | the digits printed are the usual sixteen, in lower and in upper case |
| Numerals.NoLeadingZero | code/stdio.cpp:158-165 | no superfluous leading zero is printed |
| Numerals.NumeralLength | code/stdio.cpp:158-165 | at most n digits are printed exactly for numbers below the n-th power of the radix |
| Numerals.ParseOctal | code/commands.cpp:344-362 | the result is the value of the longest octal prefix of at most 22 digits, modulo 2^61 |
| Numerals.PrintedOctalParses | code/commands.cpp:344-362 | for every 64-bit value, printing in octal with any zero padding up to 22 and parsing gives the value modulo 2^61 |
| Numerals.WordRoundTrip | code/commands.cpp:344-362 | a 36-bit word printed as `%012llo` has twelve characters and parses back to itself |
| Formatter.StrOut | code/stdio.cpp:382-407 | the field written is the text padded on the left to the width, and its length is returned |
| Formatter.ParseConversion | code/stdio.cpp:665-723 | flags, width, precision, modifiers and conversion character are read as the grammar says, a width beyond 2^31 padding nothing |
| Formatter.OctalField | code/stdio.cpp:754-767 | `%o` prints the number's octal numeral, padded in front to the width with the padding asked for |
| Formatter.HexField | code/stdio.cpp:768-781 | `%x` prints the hexadecimal one in lower case |
| Formatter.UpperHexField | code/stdio.cpp:782-795 | `%X` prints it in upper case |
| Formatter.UnsignedField | code/stdio.cpp:726-739 | `%u` and `%lu` print the decimal numeral |
| Formatter.DecimalLongField | code/stdio.cpp:740-753 | `%llu` and every `%d` print no number, a minus sign at most |
| Formatter.TextFields | code/stdio.cpp:796-802 | `%c` prints the low byte, `%s` the string behind as many NULs as the width asks for |
| Formatter.OtherConversion | code/stdio.cpp:803-809 | `%%` prints a percent sign, any other character nothing, and neither takes an argument |
| Formatter.MinusIgnored | code/stdio.cpp:676-679 | a minus sign makes no difference |
| Formatter.WideField | code/stdio.cpp:689-692 | a width from 2^31 on pads nothing |
| Formatter.PutArgument | code/stdio.cpp:723-802 | each conversion writes the text it stands for |
| Formatter.Vsnprintf | code/stdio.cpp:650-814 | the text rendered from the format is written, its length returned, and terminated exactly when no conversion reached is cut off |
| Formatter.EndedWhenComplete | code/stdio.cpp:724-725 | rendering reaches the end of a format exactly when no conversion reached in it is cut off |
| Formatter.PercentIsIncomplete | code/stdio.cpp:724-725 | a single percent sign is such a format |
| Formatter.RenderHasNul | code/stdio.cpp:723-802 | the text holds no NUL exactly when no `%s` asks for more than its string has and no `%c` prints one |
| Formatter.TextIsCString | code/stdio.cpp:382-407 | read as a C string the text is as long as the count returned exactly in that case |
| Formatter.PaddedStringIsCut | code/stdio.cpp:800-802 | `%3s` of a string of two is not such a case |
| FormatPieces.FieldReadsBack | code/stdio.cpp:665-723 | a field written with any padding flag, width and modifiers is read as the conversion it stands for |
| FormatPieces.PrecisionIgnored | code/stdio.cpp:698-704 | a precision makes no difference |
| FormatPieces.PiecesRender | code/stdio.cpp:650-814 | rendering a format written from any list of literals and fields puts out exactly their texts in order |
| Disassembler.OpStd | code/dasm.cpp:57-118 | the chain of `sprintf` calls writes header, name and operand as one terminated text |
| Disassembler.OpTable | code/dasm.cpp:189-235 | the same for the instructions whose name comes from a table |
| Disassembler.Dasm | code/dasm.cpp:919-920 | every instruction is dispatched to the form its opcode calls for, never reading outside a table |
| Disassembler.JrstText | code/dasm.cpp:189-235 | opcode 254 gets the name its accumulator selects, and the unsigned operand |
| Disassembler.IotText | code/dasm.cpp:197-209 | opcodes 700 to 702 get the name that opcode and accumulator select, and the unsigned operand |
| Disassembler.OrdinaryText | code/dasm.cpp:57-118 | every other opcode gets its own name, and the operand with accumulator and signed address |
| Disassembler.MoveText | code/dasm.cpp:57-118 | the whole text of `MOVE 1,1000(17)`, character by character |
| Disassembler.MarkAndSign | code/dasm.cpp:92-107 | the operands `@-1` and `-0` |
| Disassembler.AddressReadsAsSigned | code/dasm.cpp:100-107 | an address from 400000 on is printed with a minus sign as what is missing to 1000000, 400000 itself as minus zero |
| Disassembler.TextFits | code/dasm.cpp:335 | the text fits the static buffer of 32 bytes exactly when name and operand have at most 11 characters |
| Disassembler.MoveDoesNotFit | code/dasm.cpp:335 | `MOVE 1,1000(17)` does not fit |
| Disassembler.IotIndexInTable | code/dasm.cpp:197-209 | the index is inside the table exactly when the opcode is not the last of four, hence for 700 to 702 |
| Disassembler.HeaderFormat | code/dasm.cpp:72 | the pieces of the header are the format string of the source |
| Disassembler.HeaderReadsBack | code/dasm.cpp:62-72 | the five octal fields reparse to all 36 bits, whatever follows them |
| Disassembler.OperandReadsBack | code/dasm.cpp:84-115 | the operand text alone determines accumulator, indirect bit, index register and address, minus zero being 400000 |
| Disassembler.PlainOperandReadsBack | code/dasm.cpp:215-233 | the operand of a table instruction determines indirect bit, index register and address |
| Disassembler.TextLength | code/dasm.cpp:57-118 | beyond its name an instruction's text takes at most 35 characters |
| Disassembler.NegatedAddress | code/dasm.cpp:102-103 | the 32-bit complement and mask give the magnitude of a negative address |
| Disassembler.DasmIsInjective | code/dasm.cpp:333-922 | words that differ in 36 bits have different texts |
| SavLoader.GroupRoundTrip | code/commands.cpp:403-430 | every word is read back from its group of five bytes |
| SavLoader.WordRoundTrip | code/commands.cpp:403-430 | every canonical group is the group of the word read from it |
| SavLoader.RecordsParse | code/commands.cpp:489-537 | every list of segments written as `-n,,a-1` records and ended by a word with a clear sign bit is read as that list |
| SavLoader.ImageFileParses | code/commands.cpp:453-538 | the same from the bytes of the file |
| SavLoader.ReadRecord | code/commands.cpp:527-536 | one record stores its words from the address after the one in its header on, around the end of the 18-bit address space, changes no other word and reads no more than them |
| SavLoader.RecordHeader | code/commands.cpp:491-493 | a record's header is minus its count and the address before its first word, in halves of 18 bits |
| SavLoader.HighBitsIgnored | code/commands.cpp:423-430 | the top bits of the first four bytes of a group are not looked at |
| SavLoader.LoadCode | code/commands.cpp:480-538 | memory becomes the segments overlaid in order, and the instruction register gets the final word exactly when it is a JRST |
| SavLoader.OverlayAt | code/commands.cpp:527-536 | each address holds the word of the last segment that covers it, around the end of the address space |
| SavLoader.OverlayElsewhere | code/commands.cpp:527-536 | an address that no segment covers is unchanged |
| Tokenizer.FormArguments | code/commands.cpp:3197-3207 | the argument pointers are the starts of the first sixteen words, and only the piece's spaces are overwritten |
| Tokenizer.NextArguments | code/commands.cpp:3189-3233 | the argument strings are the first sixteen words of the piece, and everything behind its terminator is untouched |
| Tokenizer.TaskCommand | code/commands.cpp:3185-3234 | for every line, the argument lists executed are those of the pieces between semicolons, blank ones passed over, reading nothing beyond the final NUL |
| Tokenizer.Separators | code/commands.cpp:3185-3207 | commands are separated by semicolons and arguments by spaces, and there are at most sixteen |
| Tokenizer.ExecutedAppend | code/commands.cpp:3187-3234 | several commands execute as each does, in order |
| Tokenizer.ExecutedOne | code/commands.cpp:3208-3230 | a blank command executes nothing, any other one with its first sixteen words |
| Tokenizer.OneWord | code/commands.cpp:3197-3207 | a text without spaces is one word, none when empty |
| Tokenizer.StartsAreWords | code/commands.cpp:3197-3210 | through their pointers, the strings in the cut buffer are the words of the piece |
| Tokenizer.CommandsOfJoined | code/commands.cpp:3187-3234 | splitting undoes joining with semicolons |
| Tokenizer.JoinedCommands | code/commands.cpp:3187-3234 | joining the pieces gives back every line |
| Tokenizer.CommandsAreSeparated | code/commands.cpp:3187-3234 | no piece contains a semicolon |
| Tokenizer.WordsOfJoined | code/commands.cpp:3197-3207 | words joined with spaces are found again |
| Tokenizer.WordsApart | code/commands.cpp:3197-3207 | a space anywhere in any text only separates, so extra ones, in front, between words or at the end, make no difference |
| RegisterTest.TestReg | code/ks10.cpp:1152-1185 | the test succeeds exactly when every probe reads back under the mask, and the register is written back what was read first |
| RegisterTest.WalkingOnes | code/ks10.cpp:1152-1246 | for an affine read-back, passing and reading zero for zero is equivalent to every word of the width reading back, under the mask |
| RegisterTest.LinearRegister | code/ks10.cpp:1130-1134 | for a linear read-back, passing alone is |
| RegisterTest.AffineRegisterPasses | code/ks10.cpp:1152-1185 | a register of any width with inverting bits passes the test and does not read back zero |
| RegisterTest.ContentsRestored | code/ks10.cpp:1178-1182 | after a test that passes, the masked contents are as before |
| ClockDivider.Search | code/driverlib/ssi.c:214-245 | the search ends with the least even prescaler up to 254 whose rate fits eight bits; prescaler times rate plus one, at the bit rate asked for, is within the clock, and one more step would not be; the subtraction never wraps |
| ClockDivider.SmallerPrescalerIsTooSmall | code/driverlib/ssi.c:231-236 | the multiple compared is the loop condition on the quotient |
| ClockDivider.Accuracy | code/driverlib/ssi.c:229-245 | the product is within the prescaler of the quotient, never asks for a slower clock, and beyond a prescaler of two is within two parts in 257 |
| CtyMailbox.MailboxIsSafe | code/ks10.cpp:1341-1365 | over every interleaving of bus transactions no accepted character is lost, doubled or reordered in either direction |
| CtyMailbox.RefusedOnlyWhenFull | code/ks10.cpp:1341-1347 | over every interleaving, each character handed over was refused exactly when the slot was full at the transaction with which that call looked at it, and the calls are answered in order |
| CtyMailbox.EveryCallAnswered | code/ks10.cpp:1341-1347 | every call that has looked at the slot has its answer, or is still between its two transactions |
| CtyMailbox.FullMeansOccupied | code/ks10.cpp:1341-1347 | the slot is full exactly while an accepted character waits in it or is being taken |
| CtyMailbox.InStep | code/ks10.cpp:1341-1347 | every transaction keeps the input side safe: a character is stored only into an empty slot |
| CtyMailbox.OutStep | code/ks10.cpp:1357-1365 | every transaction keeps the output side safe |
| CtyMailbox.Transactions | code/ks10.cpp:1341-1365 | what each transaction of `putchar`, `getchar` and the KS10 reads, stores, clears and returns |
| CtyMailbox.Memory.PutChar | code/ks10.cpp:1341-1347 | the call is its two transactions in a row, with an interrupt exactly when the character is stored |
| CtyMailbox.Memory.GetChar | code/ks10.cpp:1357-1365 | the call is its two transactions in a row, returning -1 exactly when there is nothing |

## Left out

- Process: asks that ^T is not pressed with the cursor at position 0, where the source reads and writes outside its buffer; so do ProcessNone and TaskConsole.
- ProcessKeypad: prints only the first line of the PF1 dump, which is enough to spoil the row; the dump's tables are not modelled.
- TaskConsole: takes the keys one after the other while no program runs on the KS10; deleting, suspending and resuming the command task, and output of a command while the next line is typed, are not modelled.
- TaskExecute: a command prints nothing but the prompt at its end, and the next row of the screen is blank.
- PacketGetInternal: asks that the FIFO holds the whole frame, as the controller's packet count promises.
- Vsnprintf: ignores the size argument, as the source does, and asks for a buffer that holds the text.
- StrOut: does not model the message that a tab inside a string sends to the console.
- Dasm: asks for a buffer that holds the text, which the static one of 32 bytes does exactly as `TextFits` says; the opcode names are a parameter, the two small tables are not.
- ReadRecord: asks for a record that is not cut off; read errors and the end of the file are not modelled.
- LoadCode: asks for an image that is not cut off; read errors and the end of the file are not modelled.
- TaskCommand: records argument lists in place of looking up and calling the command.
- MailboxIsSafe: takes each read or write of KS10 memory as one step; that the KS10 clears a slot only after reading it and fills one only when clear is an assumption about its software, which is not part of this model.
- `printf` to the console: it is the same engine writing to the serial port, without a return count.
- `ltoa` for signed numbers in radices other than ten, and the decimal `ulltoa` it would need.
- The SPI mode, frame format and data width fields of the SSI registers, which are plain field assembly.
- SD card, RH11, DZ11, LP20, FPGA loading, interrupts and task set-up, which are hardware access without an algorithm.
- The console commands themselves, which are user interface over register access.
