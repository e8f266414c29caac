# STM32F3 Discovery console code: a verification model

This project models the stateful parts of the board's console code and of its image signer,
and proves what they keep over every input and every run.

- `Machine.dfy`, `CString.dfy`: bytes, words, the C bit operators written as arithmetic on
  natural numbers, and NUL-terminated text.
- `ByteFifo.dfy`: the ring FIFO with one unused slot, as a value and in memory.
- `UsartProtocol.dfy`: the console protocol between the main program and the USART interrupt
  handler, as a state machine. The handler runs to completion. The main program is cut at every
  access to shared data, and interrupts may fall between any two steps. The buffer size is a
  parameter.
- `MicroStdio.dfy`: the console routines over two FIFOs in memory. The handler is proved equal
  to the step of the protocol machine; the put routines poll while the hardware delivers a
  given list of pending interrupts.
- `CommandRegistry.dfy`: the circular doubly linked command list in the heap, registration and
  lookup.
- `MicroUtil.dfy`, `Format.dfy`: character classes, number parsing and number formatting.
- `Tokenizer.dfy`: the tokenizer that cuts a line up while it is reading it.
- `Probe.dfy`: the pass-through slot and the memory probe that takes it.
- `Shell.dfy`: line editor, dispatcher, three-q exit and pass-through. The specification is a
  step function on the edit stack; the class refines it on the 128-byte buffer.
- `TraceLog.dfy`: the rolling trace log and its two dump walks.
- `PackageSigner.dfy`: block-size check, round-up, padding, checksum and signature placement.

Code that updates state in place is a class or a method over arrays, proved against functions
on values; the laws over whole runs are lemmas about those functions.

## What the code does not keep

Five promises fail on some inputs. The code is modelled as it is, and each has its exact
condition.

- Transmit order. In `bf_write` the head equals the buffer size for a moment, and C leaves open
  whether the byte is stored before or after the head is incremented (code/byte_fifo.c:77-78).
  Two kinds of interrupt send a stale byte: one that comes when everything has been sent and
  the head is still to be wrapped, and one that comes to the slot of the new byte while it
  still holds another. `TxConservation` holds exactly for the runs without either, over both orders.
  `StrayIsReachable` and `EarlyIsReachable` give such runs for any ring of two slots or more; in
  the second the first interrupt after the increment is already too many. `OnePerWindowIsClean` gives a
  sufficient condition: at most one interrupt before the byte is stored and the head wrapped,
  and none at all if the byte still to be stored has no other ahead of it. If the store always
  comes first, the second half is empty (`StoreFirstIsInTime`).
- Wake-up. `bf_data_avail` is one short when the queue wraps (code/byte_fifo.c:56), so a byte
  alone in the top slot with the head at 0 is not seen. Left alone, the handler sends everything
  written exactly if the head does not stand at 0 with something queued (`QueueDrains`).
  `HiddenIsReachable` gives a run for any ring of two slots or more that ends with a byte unsent;
  with three or more it leaves after the next put (`HiddenByteLeaves`). Received bytes have the same gap: `GetFindsNothing` says when a get
  returns 0, `HiddenReceivedIsReachable` gives a run, and with three slots or more the byte comes
  out after one more is accepted (`HiddenReceivedLeaves`), with two never
  (`HiddenReceivedSticks`). With three slots or more a waiting put is always freed; with one or two
  some run leaves it waiting for ever (`SmallRingSticks`).
- Dumps. The forward walk wraps one record late and the backward walk wraps to the spare record
  and starts from an unwrapped index (code/dbt.c:178, code/dbt.c:190, code/dbt.c:195).
  `ForwardDumpExact` and `BackwardDumpExact` say exactly when the dumps are right,
  `ForwardDumpWrapped` and `BackwardDumpWrapped` what they show otherwise, and
  `MeantDumpsAreRight` that walks with these three corrected are always right. The count comes
  unchecked from the command line; `ForwardDumpInBuffer` and `BackwardDumpInBuffer` say for which
  counts the dumps stay in the buffer.
- Decimal text. The loop in code/format.c:84 uses `<`, so 10, 100, ... come out as a colon and
  zeros, and `power * 10` overflows above 10^9. `FormatD`, `FormatIsDecimal` and
  `DecimalRoundTrip` are stated with both conditions.
- Image bytes. If fewer than 32 bytes are free behind the image in the rounded-up length, the
  signature is written over the end of the image (`ImagePreservedIff`).

The comment at code/shell.c:438 says that three q's count "without a command". The count is
reset only by a processed line with at least one word, not by blank lines; `ExitOnThirdQ`
follows the code. The probe keeps pending digits over a close (code/probe.c:60-66), so they
count in the next session; `ProbeSeesItsCharacters` follows the code.

## Model

The rows marked **Main** are the main results; the others lead up to them or tie the methods to
the functions they are about.

| member | source | states |
|---|---|---|
| ByteFifo.ByteFifo.Space | code/byte_fifo.c:39-47 | the space guard is the number of free slots, one slot being reserved |
| ByteFifo.ByteFifo.Data | code/byte_fifo.c:49-57 | the data guard is the queue length, or one less when the queue wraps; it is zero exactly on an empty queue and in one position of a single byte |
| ByteFifo.SpaceIsExact | code/byte_fifo.c:39-47 | the space guard is exact also while the tail stands at the buffer size |
| ByteFifo.ByteFifo.IsEmpty | code/byte_fifo.c:59-63 | true exactly when nothing is queued |
| ByteFifo.ByteFifo.IsFull | code/byte_fifo.c:65-71 | true exactly when count - 1 bytes are queued |
| ByteFifo.ByteFifo.Write | code/byte_fifo.c:75-79 | with room, appends the byte to the queue |
| ByteFifo.ByteFifo.Read | code/byte_fifo.c:83-89 | with data, takes and returns the oldest byte |
| ByteFifo.BumpAppends | code/byte_fifo.c:77-78 | the byte is queued from the increment of the head on, before the wrap |
| ByteFifo.BumpTakes | code/byte_fifo.c:86-87 | the oldest byte leaves at the increment of the tail, before the wrap |
| ByteFifo.FifoRoundTrip | code/byte_fifo.c:75-89 | a burst of at most count - 1 bytes comes back in order wherever the ring stands |
| UsartProtocol.SpaceReadIsSound | code/byte_fifo.c:41-46 | a space guard read off a tail that moves between its reads, 16-bit wrap-around included, is non-zero only if there is room |
| UsartProtocol.TxConservation | code/micro_stdio.c:85-94 | **Main.** sent bytes followed by queued bytes are the bytes written, after every prefix of a run and for either order of store and increment, if and only if no transmit interrupt meets a drained ring before the head is wrapped or comes to the slot of an outstanding store while it holds another byte |
| UsartProtocol.PutOrder | code/micro_stdio.c:77-96 | all bytes given to put calls are, in order, those sent, those queued and the one still being put |
| UsartProtocol.TxAccessesAreSound | code/micro_stdio.c:85-87 | a put starts on a slot only when it is free, and the handler, unless it is in one of the two harmful positions, sends the oldest queued byte |
| UsartProtocol.StrayBreaks | code/micro_stdio.c:196-202 | an interrupt in the stray position always breaks conservation |
| UsartProtocol.EarlyBreaks | code/micro_stdio.c:196-202 | so does one that comes to the slot of an outstanding store holding another byte |
| UsartProtocol.StrayIsReachable | code/byte_fifo.c:75-79 | for any ring of two slots or more, a run with the store done first whose next interrupt breaks the order |
| UsartProtocol.EarlyIsReachable | code/byte_fifo.c:77 | **Main.** with the increment done first, a run with no interrupt in any window whose next interrupt, the only one in its window, breaks the order |
| UsartProtocol.OnePerWindowIsClean | code/byte_fifo.c:77-78 | **Main.** at most one interrupt between the increment and the end of store and wrap, and none on a lone byte not yet stored, rules both out |
| UsartProtocol.StoreFirstIsInTime | code/byte_fifo.c:77 | if every put stores before it increments, no interrupt ever finds a byte not yet stored |
| UsartProtocol.NoLostWakeup | code/micro_stdio.c:196-206 | with the transmit interrupt off and no put about to enable it, the queue is empty or holds one byte at the top of the ring with the head at 0 |
| UsartProtocol.FullMeansAwake | code/micro_stdio.c:196-206 | with three slots or more, a full ring always has the transmit interrupt on, and one interrupt makes room |
| UsartProtocol.QueueDrains | code/micro_stdio.c:196-206 | left alone, as many interrupts as there are queued bytes send everything written, exactly if the head does not stand at 0 with something queued; what is left is one hidden byte |
| UsartProtocol.HiddenIsReachable | code/byte_fifo.c:49-57 | for any ring of two slots or more, a run with no interrupt in any window that ends with a byte unsent and the interrupt off; without another put it stays so |
| UsartProtocol.HiddenByteLeaves | code/micro_stdio.c:196-206 | **Main.** with three slots or more, once one more put is done, under any interleaving without a harmful interrupt, two interrupts have sent the hidden byte and then the new one |
| UsartProtocol.OneInterruptFreesAPut | code/micro_stdio.c:85-94 | **Main.** with three slots or more, one transmit interrupt and six further steps end any wait, under every interleaving |
| UsartProtocol.PutCompletes | code/micro_stdio.c:85-94 | once there is room, a put enters its byte within six of its own steps, whatever interrupts fall between |
| UsartProtocol.SmallRingSticks | code/micro_stdio.c:196-206 | **Main.** with one or two slots, a clean run after which a put waits for ever |
| UsartProtocol.RxConservation | code/micro_stdio.c:121-131 | **Main.** over every run, returned bytes, the byte in flight and the queue are the accepted bytes in order, with interrupts anywhere inside a read |
| UsartProtocol.ReceivedAreOffered | code/micro_stdio.c:182-192 | **Main.** over every run each byte of an error-free receive interrupt, raised since the receive interrupt was enabled, is accepted or dropped once, and no other; if none is dropped they are accepted in order |
| UsartProtocol.DisabledReceivesNothing | code/micro_stdio.c:185 | until the receive interrupt is enabled nothing is accepted, dropped or returned, and the ring stands still |
| UsartProtocol.DropExactlyWhenFull | code/micro_stdio.c:182-192 | **Main.** an error-free byte is dropped exactly when count - 1 bytes are queued; with an error flag nothing moves |
| UsartProtocol.GetReturnsOldest | code/micro_stdio.c:128-130 | a get fetches only when an accepted byte is outstanding, and fetches the oldest |
| UsartProtocol.GetFindsNothing | code/micro_stdio.c:121-131 | wherever interrupts fall, a get comes to return 0 exactly if the queue was empty at its first read of the head, or its one byte was hidden at the last |
| UsartProtocol.GetTakesVisible | code/micro_stdio.c:128-130 | a get that begins with a byte the data guard sees returns the oldest, whatever interrupts fall before, inside and after it |
| UsartProtocol.HiddenReceivedLeaves | code/micro_stdio.c:121-131 | **Main.** with three slots or more, once one more byte is accepted the next two gets return the hidden byte and then the new one, under any interrupts |
| UsartProtocol.HiddenReceivedIsReachable | code/byte_fifo.c:49-57 | for any ring of two slots or more, a run that leaves an accepted byte where no get finds it |
| UsartProtocol.HiddenReceivedSticks | code/micro_stdio.c:182-192 | with two slots such a byte is never returned and none is accepted any more, over every continuation |
| UsartProtocol.PollReaches | code/micro_stdio.c:85-94 | an undisturbed put goes through in one reading of the space guard if there is room, and otherwise changes nothing |
| MicroStdio.Usart1.constructor | code/micro_stdio.c:36-52 | both FIFOs start empty with the interrupts off |
| MicroStdio.Usart1.IrqHandler | code/micro_stdio.c:152-208 | is the handler step of the protocol machine and keeps its invariant |
| MicroStdio.Usart1.ReceiveInterruptEnable | code/micro_stdio.c:146-149 | is the enabling event of the protocol machine |
| MicroStdio.Usart1.Putc | code/micro_stdio.c:77-96 | is a run of the protocol machine with this one put and the interrupts it takes, done or left polling; with three slots or more it takes at most one transmit interrupt |
| MicroStdio.Usart1.Puts | code/micro_stdio.c:98-119 | **Main.** is a run that puts the text up to its NUL in order, nothing for a null pointer, and ends if there is an interrupt for every byte |
| MicroStdio.Usart1.Write | code/micro_stdio.c:54-75 | is a run that puts the first count bytes in order, returns count, and ends if there is an interrupt for every byte |
| MicroStdio.Usart1.Getc | code/micro_stdio.c:121-131 | returns the oldest byte, or 0 exactly when the queue is empty or its one byte is hidden |
| CommandRegistry.ListHead.LinkBetween | code/list.h:24-32 | links a node between two others in both directions |
| CommandRegistry.Registry.constructor | code/list.h:18-22 | an initialised head is an empty ring |
| CommandRegistry.Registry.ListAdd | code/list.h:34-37 | the ring through head and nodes stays circular both ways with the node first |
| CommandRegistry.Registry.FindCmd | code/shell.c:74-83 | returns the first registered command with that name or abbreviation, or null when there is none |
| CommandRegistry.Registry.ValidateCmd | code/shell.c:130-150 | the validation code of the structure it is given |
| CommandRegistry.ValidateReportsFirst | code/shell.c:92-103 | that code is the lowest-numbered complaint about the structure, or 0 when there is none |
| CommandRegistry.Registry.AddCmd | code/shell.c:152-172 | **Main.** keeps ring and uniqueness; on success the command is added once, otherwise nothing in the heap changes; a linked structure is refused |
| CommandRegistry.AddCodeIsZero | code/shell.c:130-164 | a call succeeds exactly for a non-null, unlinked, complete command neither of whose strings is the name or abbreviation of another; -9 exactly if only that fails |
| CommandRegistry.RegistryInvariant | code/shell.c:152-172 | **Main.** over any calls no string names two commands, every entry is valid, and the list only grows at the front |
| CommandRegistry.BindingsAreStable | code/shell.c:74-83 | **Main.** a string once bound keeps its command over any further calls |
| CommandRegistry.RegisteredIffAccepted | code/shell.c:152-172 | a command is registered exactly if some call with it was accepted |
| CommandRegistry.FindIff | code/shell.c:74-83 | lookup finds a command exactly when the string equals its name field or its abbreviation field |
| MicroUtil.Parser.Strtol | code/micro_util.c:31-67 | the value of the text: hex after a leading 0, restarting at x, else decimal, else 0, as a wrapped 32-bit value |
| MicroUtil.CharacterCodes | code/micro_util.c:69-94 | digits, letters and digits, spaces and lower case by ASCII code |
| MicroUtil.SpuriousReadsAsZero | code/micro_util.c:43-62 | behind the first character, one that is no digit of the base (nor x in hex) reads as a zero |
| MicroUtil.HexToAfterX | code/micro_util.c:47 | only what follows an x counts |
| MicroUtil.ShiftInDigit | code/micro_util.c:43-45 | shift and or add a digit modulo 2^32 |
| Format.FormatX | code/format.c:41-55 | the NUL-terminated hex text right-aligned before byte 8, other bytes unchanged; only the NUL for a bad length |
| Format.HexCharIs | code/format.c:32 | the digits are those of the source's table |
| Format.HexTextIsOnly | code/format.c:49-52 | **Main.** the text is the only one of its length in the characters 0-9 and a-f that is worth the value modulo 16^len |
| Format.HexRoundTrip | code/format.c:41-55 | **Main.** micro_strtol of the text behind "0x" or a lone "0" gives back the value modulo 16^len, and for eight digits the 32-bit pattern |
| Format.FormatD | code/format.c:64-102 | no int32_t overflow exactly when the absolute value is at most 10^9, and then the text with its NUL is in the buffer, which needs no more room than that |
| Format.TextIsCString | code/format.c:99-101 | the buffer filled, read up to its NUL, is the text |
| Format.FormatIsDecimal | code/format.c:84-97 | **Main.** the text is the canonical decimal exactly when the absolute value is not 10, 100, ... |
| Format.MinusSign | code/format.c:77-80 | a negative value is its absolute value behind ASCII 45, and no other text has it |
| Format.FirstCharacterDecides | code/micro_util.c:39-63 | behind characters below the digits a number counts, modulo 2^32; a text that starts above them is worth 0 |
| Format.PowersOfTenGoWrong | code/format.c:84-93 | the wrong text of a power of ten: a colon and zeros, one character short |
| Format.DecimalRoundTrip | code/format.c:64-102 | **Main.** micro_strtol of the text is the absolute value, exactly off the powers of ten from 10 up |
| Tokenizer.WordsAreMaximalRuns | code/shell.c:319-337 | the words are exactly the maximal runs of underscores, number signs, digits and letters, by ASCII code |
| Tokenizer.WordsAreOrdered | code/shell.c:319-337 | they come left to right and separated |
| Tokenizer.ConvertCmdBufToSubstr | code/shell.c:299-341 | **Main.** the pointers are the starts of the words, up to the vector size; only the separators right after words are overwritten; it stays inside the line and ends |
| Tokenizer.ArgumentsAreWords | code/shell.c:319-340 | after the scan each pointer is at the C string of its word, the last one allowed running to the end of the line |
| Tokenizer.TokenizerRoundTrip | code/shell.c:299-341 | **Main.** joining words with separators and tokenizing gives the words back, exactly when they leave room or fill the vector with nothing trailing |
| Probe.PassSlot.SetPassTo | code/shell.c:398-405 | takes a free slot, refuses a held one |
| Probe.PassSlot.ClearPassTo | code/shell.c:422-425 | frees the slot |
| Probe.Probe.SetFuncs | code/probe.c:109-118 | succeeds exactly with a table and a free slot; table and slot stay set together |
| Probe.Probe.Proc | code/probe.c:35-106 | follows the edit of pending digits, makes exactly the callbacks of that key, and gives table and slot up together on a close |
| Probe.ShiftIn | code/probe.c:79-92 | a digit moves the 32-bit window over the digits by one, at most eight wide |
| Probe.ShiftOut | code/probe.c:68-76 | an erase narrows the window by one, so a digit lost at the top stays lost |
| Probe.WriteIsExact | code/probe.c:51-56 | a write passes on the number typed exactly when every digit outside the window is 0 |
| Probe.WindowOverRuns | code/probe.c:35-106 | **Main.** over any characters, if never more than eight digits were pending the window holds them all |
| Probe.PendingValue | code/probe.c:35-106 | **Main.** over any characters, the pending digits are worth what the characters typed and not erased spell in hex |
| Probe.TypedHexIsWritten | code/probe.c:49-92 | any hex digits typed with nothing pending, then newline or return: the callbacks are the write of the number they spell (of their last eight), prompt and print |
| Probe.KeysByCode | code/probe.c:40-104 | the callbacks of every key by ASCII code |
| Shell.StepKeeps | code/shell.c:448-537 | every character keeps: the line fits, an unset data flag means a blank line, table set iff the probe holds the slot, line empty while anyone does |
| Shell.SkippedLinesAreBlank | code/shell.c:469-471 | the early newline return skips only lines of spaces |
| Shell.EraseUndoes | code/shell.c:359-372 | an erase undoes the character before it |
| Shell.ExitOnThirdQ | code/shell.c:472-487 | **Main.** over whole runs the shell returns a negative value exactly on the third counting q since the start or the last line with a word |
| Shell.QCountIsHistory | code/shell.c:472-528 | the counter is the number of counting q's in that history |
| Shell.PassThroughFreezesEditor | code/shell.c:460-463 | while the slot is held, line, data flag and q count stand still |
| Shell.ProbeSeesItsCharacters | code/shell.c:456-463 | the pending digits depend only on the characters that reached the probe, over all sessions |
| Shell.ProbeWritesTypedNumber | code/probe.c:49-58 | over a whole shell run, newline or return writes the number that the unerased characters given to the probe spell, if never more than eight digits were pending |
| Shell.SessionEnds | code/probe.c:60-66 | a period or q of either case, and nothing else, frees the slot and asks for the prompt |
| Shell.OthersAnswer | code/shell.c:460-463 | any other function on the slot decides the return value |
| Shell.FirstTakerWins | code/shell.c:398-405 | the first call of a command that may have the slot gets it, later ones change nothing |
| Shell.EditorByCode | code/shell.c:448-492 | line, data flag, q count and return value for every key by ASCII code, a character that does not complete the line |
| Shell.LineIsAnswered | code/shell.c:494-532 | **Main.** a newline, or the 127th character, has the line answered: 0 without a word, 1 for a comment, an unknown word or a wrong argument count, and otherwise the call of the command registered under the first word, exactly if the number of words is in its range; only a called command can change the slot |
| Shell.TypingFillsTheLine | code/shell.c:368-372 | plain characters typed on an empty line are the line, in lower case |
| Shell.TypedWordsReachTheCommand | code/shell.c:448-537 | **Main.** words typed with separators, or none, and a newline are answered in that way as exactly those words in lower case |
| Shell.Shell.AddToCmdlineBuffer | code/shell.c:351-380 | push, erase or close the line inside the 128 bytes; a line passed on ends in NUL |
| Shell.Shell.ProcessBuffer | code/shell.c:494-532 | the effect of a completed line, through the in-place tokenizer and the heap registry |
| Shell.Shell.ProcessInput | code/shell.c:448-537 | **Main.** refines the step on the edit stack and keeps the invariant |
| TraceLog.TraceLog.constructor | code/dbt.c:251-257 | an initialised log holds the empty history and the stop record |
| TraceLog.TraceLog.DbtWrite | code/dbt.c:52-63 | appends to the history: the last 63 records at their homes, the stop record next, the spare words untouched |
| TraceLog.TraceLog.DbtPrint | code/dbt.c:154-200 | which word index is printed under which label |
| TraceLog.ForwardDumpExact | code/dbt.c:166-180 | **Main.** the forward dump is the last records in time order exactly when it does not wrap or the insertion point is at the beginning; otherwise it prints the spare record |
| TraceLog.ForwardDumpWrapped | code/dbt.c:166-180 | **Main.** a wrapped forward dump, visit by visit: the time order with the spare record put in, the newest lost |
| TraceLog.BackwardDumpWrapped | code/dbt.c:185-197 | **Main.** a wrapped backward dump, visit by visit: the reverse order with the spare record put in, the oldest lost; from index 0 also one visit before the buffer |
| TraceLog.ForwardCycle | code/dbt.c:175-179 | for any count, the forward walk goes round 65 records, the ring and the spare one |
| TraceLog.BackwardCycle | code/dbt.c:192-196 | so does the backward walk, the other way |
| TraceLog.BackwardDumpExact | code/dbt.c:185-197 | **Main.** the backward dump is the exact reverse exactly when it does not wrap |
| TraceLog.ForwardDumpInBuffer | code/dbt.c:166-180 | for any positive count, every record printed forward lies in the buffer exactly if twice the count is at most the index plus 128 |
| TraceLog.BackwardDumpInBuffer | code/dbt.c:185-197 | for any positive count, every record printed backward does exactly if the index is not 0 |
| TraceLog.MeantDumpsAreRight | code/dbt.c:166-197 | the walks with both wraps and the backward start corrected are right for any number of records up to 63 |
| TraceLog.TraceLog.DumpAgreement | code/dbt.c:154-200 | **Main.** without a wrap both dumps show the last records of the history, each record under the same label |
| PackageSigner.CheckBlockSize | code/tools/package_signer.c:93-115 | **Main.** ends for non-zero input; keeps exactly the powers of two, else 4096 |
| PackageSigner.RoundUpIsLeast | code/tools/package_signer.c:353-354 | the masked length is the least multiple of the block size that holds the image |
| PackageSigner.ImageCksum | code/tools/package_signer.c:227-237 | the byte sum modulo 2^32 |
| PackageSigner.DataBlockCksum | code/tools/package_signer.c:239-249 | the byte sum modulo 2^16 |
| PackageSigner.Sign | code/tools/package_signer.c:351-400 | the buffer written is the padded image with the signature over its last 32 bytes |
| PackageSigner.SignedImageLayout | code/package_signer.h:56-70 | **Main.** every field at its place in the bytes written: version, image size as length, load address, entry point, zero flags, magic number 8 bytes from the end, progression bits set, and the stored image checksum is the one recomputed |
| PackageSigner.OwnChecksum | code/tools/package_signer.c:394-395 | the signature's checksum is the 16-bit sum of its first 28 bytes and the low byte that stood in its own place |
| PackageSigner.GapIsErased | code/tools/package_signer.c:377-391 | with room for the signature the image is unchanged, the gap is 0xff, and the checksum is the image's sum plus 255 for every byte of the gap |
| PackageSigner.ImagePreservedIff | code/tools/package_signer.c:398-400 | **Main.** every image of a size survives signing exactly when the signature fits behind it |
| PackageSigner.OneByteChangeDetected | code/tools/package_signer.c:391 | **Main.** a change of any one byte before the signature fails the checksum |
| PackageSigner.ProgBitsAreFree | code/package_signer.h:38-39 | rewriting the progression bits changes neither sum |

## Left out

- Compiler orders beyond those of the store or load against the increment and the wrap; nothing
  in `Byte_fifo` is volatile.
- USART error branches and flag clearing (code/micro_stdio.c:223-261): only that nothing moves.
- code/stm32f3xx_it.c: an older copy of the handler.
- The desktop build: `isspace` and `strtol` of the C library, curses, terminal setup.
- Echo output, prompts, help text, `shell_set_bypass_func` and `shell_func`.
- Command functions are an outcome per call: a return value and the calls they make on the
  pass-through slot. The probe callbacks are recorded, not modelled.
- The command list does not change while the shell runs; registration is modelled on its own.
- A `struct list_head` and the Shell_cmd that starts with it are one object; the bare list head
  has no command fields.
- `q_count` and `getting_value` are unbounded; their C types overflow after 2^31 characters.
- MicroUtil.Parser.Strtol: wraps in the decimal loop, where C leaves signed overflow undefined.
- TraceLog.TraceLog.DbtPrint: gives word indices and labels; the printed text of a record is not
  modelled, and record counts are below 2^30 so that the index arithmetic does not wrap.
- PackageSigner.Sign: requires a rounded-up length of at least 32 bytes, without which the C
  code writes before its buffer (an empty image, or a block size under 32), and one below 2^31,
  where the int loops count.
- PackageSigner.CheckBlockSize: excludes 0, on which the C loop does not end; a size such as
  4194304k wraps to 0 before the call.
- The signature's own 16-bit checksum sums 29 bytes including one byte of its own unset field;
  what the unset fields held is a parameter.
- Files, options, pad blocks and the version and address parsing of the signer.
- code/lsm303_driver.c, code/l3gd20_driver.c, code/i2c_reg.c, code/spi_reg.c, code/mem_db.c:
  device access and table lookups.
