# Verified model of the PicoMite host runtime

PicoMite is a BASIC interpreter for small boards. This project models the parts of its repository
that have the most state and branching and proves what they promise:

* the PSRAM march test and the bank of RAM program slots (`shared/cmd_psram.c`);
* the interrupt dispatcher of BASIC programs (`runtime/runtime_interrupt.c`);
* console input: escape-sequence decoder, key source and line editor
  (`runtime/runtime_console_escdecode.c`, `runtime/runtime_console.c`, `runtime/runtime_getline.c`);
* the program source reader (`runtime/runtime_program.c`);
* the display stream: the browser's replay (`web/app.js`) and the one-pixel tracer
  (`porttools/esp32_web_console_smoke.py`);
* the wire codecs of the port tools: two telnet parsers, TFTP, MQTT framing and UF2 images.

Code that works step by step is modelled by classes and methods with loops. Every method is proved
against a function of its inputs or of the old state, and the properties are lemmas about that function.

## Modules

| module | contents |
|---|---|
| `MarchBits` | one or two bits of a faulty memory under the march test; which faults it finds |
| `PsramMarch` | memories with a fault, the test as a list of word visits, the test in place |
| `MarchDecoder` | healthy memories and address decoder faults |
| `MarchCoverage` | from a faulty word memory to its one or two faulty bits; the coverage theorems |
| `MarchPattern` | the firmware's address-dependent pattern and which coupling faults it hides |
| `RamSlots`, `RamBank` | the RAM command on values, and in place on the PSRAM block and the flash |
| `Interrupts`, `InterruptRuntime` | dispatch as a state machine with its runs, and in place |
| `EscapeKeys`, `ConsoleInput` | the decoder and its grammar; the key source with its two rings |
| `LineEditor` | the line editor, in place, and a terminal that shows its echo |
| `ProgramSource`, `ProgramReader` | reading and packing program text, as functions and as loops |
| `CmdsStream`, `CmdsPlayers` | the display stream, its replay and its tracer |
| `Telnet`, `TelnetStrip`, `TelnetParsers` | the incremental parser, the batch stripper, both in place |
| `Tftp`, `Mqtt`, `Uf2Image` | block transfer, packet framing, sparse flash image |
| `Wrappers`, `Bytes` | `Option`, `Result`, constant sequences and the byte type of the wire formats |

## What the proofs found

The code is modelled as it is. Where it does less than one would expect, the exact condition is proved.

* The march test finds every stuck bit, transition fault and inversion coupling between words,
  whatever the pattern. Couplings that force a bit escape it under an exact condition on the pattern
  at both bits; it finds all of them if and only if the pattern is zero everywhere. The firmware's
  pattern therefore always misses one.
* `RAM OVERWRITE` of the slot the running program lies in fills that slot with zeros.
* `RAM LIST n` with a bad second argument leaves the program pointer at slot n exactly when its error
  is skipped (`ON ERROR SKIP` or `IGNORE`) and until the prompt or another program resets the pointer;
  a `RAM SAVE` in between stores slot n instead of the program. An error that is not skipped ends at
  the prompt, which resets the pointer.
* `RAM SAVE` looks at the first byte of a slot only, `RAM LIST` at all of them.
* `RAM LOAD` restores a slot if and only if its first byte is not 0xFF.
* A negative error-skip count (`ON ERROR IGNORE`) is zero after a handler.
* With the GOSUB stack full, an interrupt with a SUB handler is lost, and the error that ends the
  program cannot be skipped, because the skip count has been saved and cleared before.
* `IRETURN` restores the interrupted program if and only if the handler has left all its GOSUB levels;
  inside a SUB handler it leaves the trampoline on the GOSUB stack.
* Every typed character that is neither printed nor handled leaves the terminal's cursor one column
  short for the rest of the line, even after it has been erased.
* The macro of a function key is copied behind the line without a check. It overruns the caller's
  buffer if and only if line and macro together are longer than `MAXSTRLEN`: F2 ("RUN") does so from
  253 typed letters on.
* A logical line of 256 characters is one too long for the tokeniser's input buffer.
* The first pair of zeros in program memory marks its end if and only if every line after the first
  begins with a byte other than zero.
* A blit without pixels and a run-length image stop the browser's replay but not the tracer, which then
  may report a colour that is not shown. The tracer is sound if and only if there is neither.
* The batch telnet stripper treats the second 0xFF of a doubled pair followed by 0xF0 as the end of a
  subnegotiation. It agrees with the incremental parser if and only if only zeros follow such a pair.
  A reader that strips each chunk by itself also loses a doubled 0xFF that is cut in two, and takes the
  last byte of a subnegotiation that is cut off for data.
* The TFTP client reads at most 1024 bytes of a datagram, so a transfer with blocks of more than 1020
  bytes succeeds only for payloads of at most 1020 bytes; 65535 blocks is the other limit.
  (`porttools/network_conformance.py` takes the block size from the server without a check.)
* MQTT packets come back if and only if the body has at most 268435455 bytes, although the encoder
  produces longer lengths.

## Model

| member | source | states |
|---|---|---|
| MarchBits.BitRunAppend | shared/cmd_psram.c:58-105 | visiting a list of steps and then another is visiting both in order, where a mismatch ends the test |
| MarchBits.BitCellFaultsFail | shared/cmd_psram.c:58-105 | a bit stuck at 0 or 1, or unable to rise or to fall, fails the six passes from any start and any pattern bit |
| MarchBits.BitInversionFails | shared/cmd_psram.c:58-105 | a rising or falling bit that flips another one fails the six passes, for both orders of the two words and all pattern bits |
| MarchBits.BitForce | shared/cmd_psram.c:58-105 | a change that forces another bit escapes exactly under `ForceEscapes`, a condition on edge, forced value, order, first content and both pattern bits |
| PsramMarch.Psram.constructor | shared/cmd_psram.c:58-60 | the memory under test is the given words with the given fault |
| PsramMarch.Psram.Read | shared/cmd_psram.c:68-68 | a read returns what the faulty memory shows at the word |
| PsramMarch.Psram.Write | shared/cmd_psram.c:70-70 | a write changes the cells as the fault dictates and nothing else |
| PsramMarch.Psram.Visit | shared/cmd_psram.c:68-70 | one loop body: compare, stop with the phase, word, expected and actual value on a mismatch, else write |
| PsramMarch.Psram.UpPass | shared/cmd_psram.c:63-80 | an ascending loop does the visits of its phase in order and stops at the first mismatch, leaving the cells as they are then |
| PsramMarch.Psram.DownPass | shared/cmd_psram.c:82-98 | the same for a loop that descends to word 0 |
| PsramMarch.Psram.MarchTest | shared/cmd_psram.c:58-105 | the six passes over the whole words of a byte count: verdict, failure report and all cells, those behind the last word included |
| PsramMarch.RunAppend | shared/cmd_psram.c:58-105 | a run over two lists of visits is the second run from where the first ends, unless the first fails |
| PsramMarch.UpFails | shared/cmd_psram.c:67-80 | a mismatch in the first words of an ascending pass is the outcome of the pass |
| PsramMarch.DownFails | shared/cmd_psram.c:83-97 | a mismatch in the last words of a descending pass is the outcome of the pass |
| PsramMarch.PassAt | shared/cmd_psram.c:63-104 | visit k of a phase goes to word k, in phases 3 and 4 to word n - 1 - k, with what the phase expects and writes there |
| PsramMarch.RunReport | shared/cmd_psram.c:67-71 | a failing run reports its first visit that reads something else than it expects, and has changed nothing at it |
| PsramMarch.FailureReport | shared/cmd_psram.c:28-104 | a failing test reports phase 1 to 5, the first bad word in the order of that phase, what the phase before wrote there (zeros, ones, pattern, complement, zeros) and what the memory shows |
| MarchDecoder.FaithfulMemoryPasses | shared/cmd_psram.c:58-105 | if tested words go to distinct cells the test passes and every word reads zero afterwards, for any size, content and pattern |
| MarchDecoder.HealthyMemoryPasses | shared/cmd_psram.c:58-105 | a healthy memory passes, ends all zero in the tested words, and keeps everything behind them |
| MarchDecoder.AliasedWordsFail | shared/cmd_psram.c:66-71 | two words that share a cell fail the test |
| MarchDecoder.DecoderPassesIffInjective | shared/cmd_psram.c:58-105 | with an arbitrary address decoder the test passes if and only if the decoder is injective on the tested words |
| MarchCoverage.VerdictIsLocal | shared/cmd_psram.c:58-105 | the verdict on a memory with a fault of one or two bits is the verdict of the six passes on these bits alone |
| MarchCoverage.CellFaultsAreFound | shared/cmd_psram.c:58-105 | no memory with one stuck or transition-faulty bit passes, at any word and bit, from any content, with any pattern |
| MarchCoverage.InversionCouplingIsFound | shared/cmd_psram.c:58-105 | no memory passes in which a rising or falling bit of one word flips a bit of another word, in either order |
| MarchCoverage.ForcedCouplingVerdict | shared/cmd_psram.c:58-105 | a memory in which a change forces a bit of another word passes if and only if `ForceEscapes` holds of its pattern bits and first content |
| MarchPattern.RamTest | shared/cmd_psram.c:36-42 | RAM TEST is the march with the multiplicative, xor-shifted pattern of address and index modulo 2^32 |
| MarchPattern.PatternValues | shared/cmd_psram.c:36-42 | the pattern words of two memories, number by number |
| MarchPattern.PatternBitHidesFault | shared/cmd_psram.c:78-96 | wherever the pattern has a bit set, a concrete forced coupling passes the test |
| MarchPattern.ForcedCouplingCoverage | shared/cmd_psram.c:58-105 | the test finds all forced couplings if and only if the pattern is zero at every tested word |
| MarchPattern.MixIsInjective | shared/cmd_psram.c:38-41 | the mixing steps of the pattern lose nothing: equal results come from equal inputs |
| MarchPattern.FirmwarePatternMissesAFault | shared/cmd_psram.c:36-42 | for every base address and every two or more words the firmware's pattern misses a forced coupling |
| RamSlots.SlotOfSetSlot | shared/cmd_psram.c:155-162 | slots are disjoint windows: writing one changes it and no other |
| RamSlots.ExecKeepsOtherSlots | shared/cmd_psram.c:151-292 | no RAM command changes a slot it does not name |
| RamSlots.RunKeepsSlot | shared/cmd_psram.c:151-292 | over any run of RAM commands, other statements, errors (skipped or not) and returns to the prompt, a slot that no command writes keeps its bytes |
| RamSlots.SaveStoresProgram | shared/cmd_psram.c:236-241 | SAVE succeeds exactly on a slot whose first byte is zero, then stores the program, and otherwise changes nothing |
| RamSlots.EraseEmptiesSlot | shared/cmd_psram.c:153-156 | ERASE leaves every byte of the slot zero, changes nothing else but the block, and SAVE then stores the program |
| RamSlots.EraseAllEmptiesSlots | shared/cmd_psram.c:151-152 | ERASE ALL leaves every byte of the block zero, and SAVE then stores the program in any slot |
| RamSlots.FileLoadFillsSlot | shared/cmd_psram.c:217-235 | FILE LOAD leaves exactly the loaded bytes if and only if the first byte was zero or overwriting was asked for; otherwise nothing changes |
| RamSlots.BadSlotChangesNothing | shared/cmd_psram.c:154-283 | a slot number outside 1 to 5 is an error that changes nothing; RUN and CHAIN also take 0 |
| RamSlots.LaunchSelectsProgram | shared/cmd_psram.c:272-292 | RUN, and CHAIN inside a program, make the slot the current program and keep all memory; 0 is the flash program |
| RamSlots.ListKeepsMemory | shared/cmd_psram.c:163-216 | LIST changes no byte of memory, and when it is an error |
| RamSlots.OverwriteStoresProgram | shared/cmd_psram.c:157-162 | OVERWRITE stores the program if and only if it does not run from that slot or is all zero; otherwise the slot becomes zero |
| RamSlots.LoadCopiesSlot | shared/cmd_psram.c:242-271 | LOAD makes the flash area equal to the slot if and only if the slot's first byte is not 0xFF, and reports an error otherwise |
| RamSlots.LoadOfErasedSlot | shared/cmd_psram.c:243-265 | LOAD of a slot that starts with 0xFF leaves three zero bytes and 0xFF in flash, and an error; in a program LOAD changes nothing |
| RamSlots.SavedProgramComesBack | shared/cmd_psram.c:157-271 | SAVE or OVERWRITE from flash, any such run that leaves the slot alone, and LOAD give back the program byte for byte if and only if its first byte is not 0xFF |
| RamSlots.DoMovesPointer | core/mmbasic/MMBasic_REPL.c:146-154 | one step leaves the program pointer at slot n if and only if it is RUN n, CHAIN n or a bad LIST n whose error is skipped, or the pointer was there and neither the prompt nor another program took it away |
| RamSlots.SkipLastsForStatements | core/mmbasic/Commands.c:3305-3309 | after ON ERROR SKIP n exactly the next n failing statements are skipped; the one after them ends at the prompt |
| RamSlots.PointerIsAtSlotIff | core/mmbasic/MMBasic.c:3275-3275 | over every run from the flash program: the pointer is at slot n if and only if some step pointed it there and no later step, return to the prompt or unskipped error moved it |
| RamSlots.PointerStaysIff | core/mmbasic/MMBasic.c:3275-3396 | over a run without steps that point at slot n, the pointer ends there if and only if it started there and nothing moved it |
| RamSlots.SaveAfterBadList | shared/cmd_psram.c:166-241 | after a bad LIST j and any statements that do not write the two slots, the pointer is at slot j, and SAVE i stores slot j, if and only if the error of the LIST was skipped and nothing moved the pointer since; otherwise SAVE stores what the pointer shows |
| RamSlots.SkippedBadListMisleadsSave | shared/cmd_psram.c:168-241 | an input: ON ERROR SKIP, a bad LIST j and SAVE i in a program store slot j |
| RamSlots.PromptRecoversFromBadList | core/mmbasic/MMBasic_REPL.c:146-154 | the same LIST and SAVE typed at the prompt without ON ERROR store the flash program |
| RamSlots.SaveAcceptsMoreThanListSays | shared/cmd_psram.c:183-239 | SAVE accepts every slot LIST calls available and also overwrites some that LIST calls in use |
| RamBank.ProgrammedOverErased | hal/hal_flash.h:52-54 | AND-programming an erased byte stores the byte |
| RamBank.PsramBank.constructor | shared/cmd_psram.c:151-292 | the bank starts with the program pointer at the flash |
| RamBank.PsramBank.MemSet | shared/cmd_psram.c:156-156 | memset fills exactly one slot |
| RamBank.PsramBank.CopyProgram | shared/cmd_psram.c:161-162 | memcpy stores the program the pointer shows, also when it is the slot itself |
| RamBank.PsramBank.FlashErase | shared/cmd_psram.c:246-246 | the program area becomes 0xFF |
| RamBank.PsramBank.FlashProgramPage | hal/hal_flash.h:45-56 | programming ANDs the data into its range and keeps every other byte |
| RamBank.PsramBank.CheckErased | shared/cmd_psram.c:248-252 | the check accepts exactly an erased area |
| RamBank.PsramBank.WriteEmptyProgram | core/mmbasic/FileIO.c:3883-3943 | three zero bytes, padded to a page with 0xFF, in an erased area |
| RamBank.PsramBank.ReadPage | shared/cmd_psram.c:267-267 | the write buffer holds one page of the slot |
| RamBank.PsramBank.ProgramErasedPage | shared/cmd_psram.c:268-268 | programming a page that is still erased stores it and keeps the pages before it |
| RamBank.PsramBank.ProgramSlot | shared/cmd_psram.c:266-269 | page by page the whole slot is in flash |
| RamBank.PsramBank.LoadSlot | shared/cmd_psram.c:242-271 | LOAD: refused in a program, erase, check, empty slot, copy; bank and error as in `Exec` |
| RamBank.PsramBank.Launched | shared/cmd_psram.c:272-292 | CHAIN and RUN set the program pointer and the loaded slot, and check the slot number |
| RamBank.PsramBank.EraseAllSlots | shared/cmd_psram.c:151-152 | ERASE ALL clears the block and nothing else |
| RamBank.PsramBank.OverwriteSlot | shared/cmd_psram.c:157-162 | OVERWRITE clears the slot before it copies the program |
| RamBank.PsramBank.LoadFile | shared/cmd_psram.c:217-235 | FILE LOAD fills the slot unless it is in use and no overwrite was asked for |
| RamBank.PsramBank.Execute | shared/cmd_psram.c:151-292 | every arm of the command leaves block, flash, pointer and error as `Exec` says |
| RamBank.PsramBank.SlotInUse | shared/cmd_psram.c:185-209 | the word scan finds a slot in use exactly when it is not all zero |
| RamBank.PsramBank.SlotsInUse | shared/cmd_psram.c:183-215 | LIST without arguments tells this of every slot |
| Interrupts.PickIsHighestPriority | runtime/runtime_interrupt.c:91-110 | the event taken is armed and no armed event has a higher priority; none is taken only if none is armed |
| Interrupts.CheckConservesEvents | runtime/runtime_interrupt.c:87-134 | a call that dispatches nothing changes nothing; one that dispatches clears exactly the highest armed latch; when each happens |
| Interrupts.ArmedSources | runtime/runtime_interrupt.c:92-108 | when each source is armed: handler and flag or pending level, I2C by its flag alone |
| Interrupts.DispatchStartsHandler | runtime/runtime_interrupt.c:112-134 | a dispatch goes on at the address of the armed source of highest priority, or, for a SUB, at the first zero behind it with a trampoline and the current line on the GOSUB stack; the interrupted statement is kept |
| Interrupts.RegisteredHandlerRuns | runtime/runtime_interrupt.c:84-155 | a run: a handler is registered, its event arrives, the next poll goes on at the handler, and IRETURN, behind END SUB for a SUB, goes back |
| Interrupts.LeaveUndoesEnter | core/mmbasic/Commands.c:2488-2588 | a SUB or GOSUB that is entered and left again goes on where it was called from, with stack, line and local level as before |
| Interrupts.FullStackLosesEvent | runtime/runtime_interrupt.c:112-123 | with MAXGOSUB levels in use a SUB handler's event is gone, the handler never runs, and the error meets a cleared skip count |
| Interrupts.ErrorStateSurvives | runtime/runtime_interrupt.c:16-53 | what comes back of the error state: the error number always, the message if and only if it fits, the skip count (after the statement countdown) if and only if it is not negative |
| Interrupts.StepKeepsInv | runtime/runtime_interrupt.c:84-191 | every legal step keeps the runtime tied to the interrupted program, and END SUB and IRETURN never fail |
| Interrupts.RunKeepsInv | runtime/runtime_interrupt.c:84-191 | the same over whole runs |
| Interrupts.HandlersNeverNest | runtime/runtime_interrupt.c:89-130 | after any legal run from a state with the invariant: inside a handler nothing is dispatched, and the GOSUB stack holds one trampoline exactly while a SUB handler runs |
| Interrupts.ReachableStatesAreSafe | runtime/runtime_interrupt.c:84-191 | the same, and the invariant, in every state reachable from the start, with handlers registered and removed on the way |
| Interrupts.IreturnRestoresProgram | runtime/runtime_interrupt.c:55-155 | after any run, IRETURN brings back next statement, GOSUB stack, local level, error number, message if it fits, and the skip count of the interrupted program |
| Interrupts.IreturnRestoresIff | runtime/runtime_interrupt.c:55-155 | in every reachable state of a handler, IRETURN gives the interrupted program back everything if and only if the handler has left all its GOSUB levels; it leaves a trampoline on the stack exactly inside a SUB handler |
| Interrupts.LatchStaysUntilDispatched | runtime/runtime_interrupt.c:91-110 | a set latch is cleared by a step if and only if that step dispatches this very event, or registers or removes its handler |
| Interrupts.BodyKeepsEvents | runtime/runtime_interrupt.c:84-155 | a handler body and its IRETURN, without arrivals, keep latches, handlers and GOSUB stack |
| Interrupts.RoundTakesOneEvent | runtime/runtime_interrupt.c:84-155 | a round of dispatch, body and return takes exactly the highest armed event |
| Interrupts.EventsAreDrained | runtime/runtime_interrupt.c:84-155 | with GOSUB room and no arrivals, n rounds leave n fewer armed events, and nothing is dispatched exactly after as many rounds as there were armed events |
| InterruptRuntime.Runtime.constructor | runtime/runtime_interrupt.c:84-135 | a runtime starts without handlers, events or an interrupt |
| InterruptRuntime.Runtime.SaveErrorState | runtime/runtime_interrupt.c:16-37 | saving keeps skip, message and number as `Saved` and clears the live ones |
| InterruptRuntime.Runtime.RestoreErrorState | runtime/runtime_interrupt.c:39-53 | restoring adds one to a positive skip count |
| InterruptRuntime.Runtime.I2cSlavePending | drivers/i2c_bus/I2C.c:99-121 | the first pending slave event in the fixed order is taken and no other |
| InterruptRuntime.Runtime.AudioPending | shared/audio/audio_runtime.c:72-77 | an audio event is taken exactly when it is set and has a handler |
| InterruptRuntime.Runtime.TakeEvent | runtime/runtime_interrupt.c:91-110 | the chain of tests takes the event `Pick` names and clears its latch only |
| InterruptRuntime.Runtime.SkipToZero | runtime/runtime_interrupt.c:189-189 | the scan stops at the first zero at or behind the address |
| InterruptRuntime.Runtime.PrepareSubReturn | runtime/runtime_interrupt.c:157-191 | the trampoline and the current line are pushed, one local level opened, and the SUB line skipped |
| InterruptRuntime.Runtime.CheckInterrupt | runtime/runtime_interrupt.c:84-135 | the whole new state and the verdict, the error path included, as `Check` says |
| InterruptRuntime.Runtime.CmdIreturn | runtime/runtime_interrupt.c:137-155 | the whole new state of IRETURN; outside a handler nothing changes |
| InterruptRuntime.Runtime.CmdReturn | core/mmbasic/Commands.c:2582-2589 | END SUB pops one GOSUB level and one local level; on an empty stack nothing changes |
| EscapeKeys.DecodeConsumesOrPushesBack | runtime/runtime_console_escdecode.c:66-222 | the decoder reads a prefix of the events; it pushes back exactly the bytes it read if and only if it found no key and no numeric form, at most three |
| EscapeKeys.NumericSequence | runtime/runtime_console_escdecode.c:133-220 | `ESC [ digits`, an optional `;` modifier and a final byte give the key of number and final byte, whatever the modifier, and read exactly the sequence |
| EscapeKeys.LeadingZeros | runtime/runtime_console_escdecode.c:139-143 | leading zeros do not change the parameter |
| EscapeKeys.ValueOfDecimal | runtime/runtime_console_escdecode.c:139-143 | the digits of a number are read as that number |
| EscapeKeys.EveryKeyDecodes | runtime/runtime_console_escdecode.c:116-219 | the sequence of every key decodes to that key and exactly the sequence is read |
| EscapeKeys.Ss3KeysDecode | runtime/runtime_console_escdecode.c:73-102 | ESC O P to T are F1 to F5 and ESC O 2 R is shift F3 |
| EscapeKeys.LetterKeysDecode | runtime/runtime_console_escdecode.c:116-163 | the letters A, B, C, D, H and F name their keys directly behind ESC [ and behind any number and modifier |
| EscapeKeys.DecodedKeysHaveSequences | runtime/runtime_console_escdecode.c:66-222 | the decoder yields no other key than those and ESC |
| ConsoleInput.RingNeverDrops | runtime/runtime_console_escdecode.c:41-58 | over every run of key calls and arrivals, a decode starts with an empty ring and all it pushes is kept |
| ConsoleInput.PushedBytesComeFirst | runtime/runtime_console.c:108-113 | pushed-back bytes are the next keys, in order, before any other source |
| ConsoleInput.RejectedBytesAreReturned | runtime/runtime_console.c:105-146 | after a rejected sequence that is not numeric, the next calls return exactly the bytes read behind ESC |
| ConsoleInput.NormalisedBytes | runtime/runtime_console_escdecode.c:60-64 | delete becomes backspace, line feed becomes enter, every other byte stays |
| ConsoleInput.KeysComeInOrder | runtime/runtime_console.c:108-129 | pushed back bytes, received bytes, the scripted key and the simulated key come in this order, and each leaves the later sources alone |
| ConsoleInput.LastSources | runtime/runtime_console.c:131-159 | what the raw source gives for no byte, Ctrl-D, ESC, delete, line feed and other bytes, and what standard input gives |
| ConsoleInput.Console.constructor | runtime/runtime_console_escdecode.c:41-44 | both rings start empty |
| ConsoleInput.Console.PushBack | runtime/runtime_console_escdecode.c:46-51 | a byte is added behind the waiting ones unless three wait already |
| ConsoleInput.Console.PopPushback | runtime/runtime_console_escdecode.c:53-58 | the oldest waiting byte is taken, or -1 if there is none |
| ConsoleInput.Console.ReadByte | runtime/runtime_console.c:131-133 | the next event is taken; -1 stands for a timeout |
| ConsoleInput.Console.ReadDigits | runtime/runtime_console_escdecode.c:139-148 | the digits up to the first other event are read as a number, and that event with them |
| ConsoleInput.Console.DecodeSs3Keys | runtime/runtime_console_escdecode.c:73-102 | the ESC O form: key, events left and bytes pushed back |
| ConsoleInput.Console.DecodeCsiKeys | runtime/runtime_console_escdecode.c:110-138 | the ESC [ form, the same |
| ConsoleInput.Console.NumericKey | runtime/runtime_console_escdecode.c:139-221 | the numeric form behind its first digit; nothing is pushed back |
| ConsoleInput.Console.EscDecodeRun | runtime/runtime_console_escdecode.c:66-222 | the decoder on the real ring agrees with `Decode` |
| ConsoleInput.Console.PopReceived | runtime/runtime_console.c:115-118 | the oldest received byte is taken |
| ConsoleInput.Console.RawKey | runtime/runtime_console.c:131-146 | a raw byte: none, Ctrl-D, an escape sequence or a normalised byte |
| ConsoleInput.Console.MMInkey | runtime/runtime_console.c:105-160 | the key and the whole state of all queues as `Inkey` says, in the source's order of sources |
| LineEditor.TabWidth | runtime/runtime_getline.c:51-58 | a tab is one to four blanks wide and ends at a multiple of four |
| LineEditor.Editor.constructor | runtime/runtime_getline.c:16-18 | nothing collected, nothing written |
| LineEditor.Editor.Put | runtime/runtime_getline.c:43-46 | text is written to the console only if it echoes |
| LineEditor.Editor.ExpandTab | runtime/runtime_getline.c:51-58 | blanks to the next stop, or to MAXSTRLEN and the error |
| LineEditor.Editor.CopyMacro | runtime/runtime_getline.c:42-42 | the macro and a zero are put behind the line, unless they do not fit the buffer |
| LineEditor.Editor.MMgetline | runtime/runtime_getline.c:16-88 | outcome, contents of a 256-character buffer, terminating zero and everything written, as `GetLine` says, the overrun of a macro included |
| LineEditor.EditGoesOn | runtime/runtime_getline.c:20-86 | characters that finish nothing are collected, whatever follows them; the line stays within MAXSTRLEN |
| LineEditor.MacroOverrunsIff | runtime/runtime_getline.c:26-49 | lines are at most MAXSTRLEN characters; a macro overruns the buffer if and only if its key is the first finishing key, the line before it was not too long, and both together exceed MAXSTRLEN |
| LineEditor.DiskLineFits | runtime/runtime_getline.c:22-86 | lines read from a file are at most MAXSTRLEN characters |
| LineEditor.OrdinaryTextIsCollected | runtime/runtime_getline.c:81-85 | ordinary characters are collected as they are and, on an echoing console, the printable ones echoed |
| LineEditor.OrdinaryTextIsTooLong | runtime/runtime_getline.c:84-85 | more than MAXSTRLEN of them are an error, with the first MAXSTRLEN collected |
| LineEditor.FileLineIsRead | runtime/runtime_getline.c:69-87 | a line of a file or serial port up to LF, with or without CR, comes back as it is |
| LineEditor.RunKeyOverruns | runtime/runtime_getline.c:29-42 | an input: letters and then F2 ("RUN") overrun the buffer if and only if there are at least 253 letters |
| LineEditor.CursorLag | runtime/runtime_getline.c:60-85 | the terminal's cursor is behind the line by exactly the number of unseen characters ever typed |
| LineEditor.DisplayFollows | runtime/runtime_getline.c:51-85 | without unseen characters the terminal keeps showing the line, cursor at its end |
| LineEditor.TerminalShowsLine | runtime/runtime_getline.c:51-85 | while typing, the terminal shows exactly the line if and only if nothing unseen was typed |
| LineEditor.LineEndsAtKey | runtime/runtime_getline.c:20-86 | with echo on or off, the outcome is what the first finishing key makes of what was typed before it, or that text itself if it is too long or no such key comes |
| LineEditor.TerminalShowsFinishedLine | runtime/runtime_getline.c:26-85 | before the closing line break the terminal shows exactly the finished line, macro included, if and only if nothing unseen was typed |
| LineEditor.TabsLandOnMultiplesOfFour | runtime/runtime_getline.c:51-58 | a tab takes line and echo to the next multiple of four |
| LineEditor.BackspaceUndoesKey | runtime/runtime_getline.c:60-67 | a printable key and a backspace leave the line as it was |
| ProgramSource.LongLineIsCut | runtime/runtime_program.c:58-74 | a physical line that does not fit behind what is joined already is cut at 256 characters; the cut text decides whether the next line is joined |
| ProgramSource.FileOverrunsIff | runtime/runtime_program.c:134-137 | reading a file of broken lines writes past the tokeniser's input buffer if and only if a logical line has 256 characters |
| ProgramSource.PhysicalLineOverrunsIff | runtime/runtime_program.c:82-137 | in batch reading a physical line does so if and only if it has 256 characters or more |
| ProgramSource.JoinUndoesBreaking | runtime/runtime_program.c:50-80 | a line broken anywhere with blank, mark and any line end is read back whole |
| ProgramSource.ReadingUndoesBreaking | runtime/runtime_program.c:22-80 | a file of broken lines is read back as its lines in order, with continuation switched by the lines themselves |
| ProgramSource.SettingFollowsOption | runtime/runtime_program.c:22-37 | behind blanks, a line number and blanks, ON and ENABLE in any case of letters give the mark, OFF and DISABLE none, whatever follows, and every other statement keeps the setting |
| ProgramSource.OnLineJoins | runtime/runtime_program.c:30-74 | behind OPTION CONTINUATION LINES ON a marked line is joined with the next one |
| ProgramSource.OffLineKeepsLinesApart | runtime/runtime_program.c:33-74 | behind OPTION CONTINUATION LINES OFF the same two lines stay two |
| ProgramSource.BatchReadsPhysicalLines | runtime/runtime_program.c:82-95 | batch reading returns the physical lines, whatever the continuation setting |
| ProgramSource.BodyIsClean | runtime/runtime_program.c:97-103 | what is copied of the token buffer ends before its first pair of zeros and holds no pair |
| ProgramSource.BodyOfLine | runtime/runtime_program.c:134-139 | a line leaves its tokens up to the first pair of zeros, and an empty line nothing |
| ProgramSource.BodiesInOrder | runtime/runtime_program.c:121-140 | the tokens of lines come in the order of the lines |
| ProgramSource.FlatHasNoPair | runtime/runtime_program.c:97-143 | packed lines hold no pair of zeros if and only if each further line starts with another byte |
| ProgramSource.FlatSize | runtime/runtime_program.c:97-103 | the packed size is the sum of the line sizes with their zeros |
| ProgramSource.PackedProgramEnd | runtime/runtime_program.c:142-144 | PSize is that sum plus 2, and the first pair of zeros follows the last line if and only if each further line starts with a byte other than zero |
| ProgramReader.FindLineEnd | runtime/runtime_program.c:39-42 | the end of the physical line |
| ProgramReader.SkipLineEnd | runtime/runtime_program.c:44-48 | CR, LF or CR LF is skipped, once |
| ProgramReader.UpdateContinuationSetting | runtime/runtime_program.c:22-37 | the setting after a line, found behind blanks and a line number, in any case of letters |
| ProgramReader.TakeLine | runtime/runtime_program.c:58-66 | one physical line is appended as far as it fits |
| ProgramReader.ReadLogicalLine | runtime/runtime_program.c:50-80 | the logical line, where reading goes on, and the setting behind it |
| ProgramReader.ReadBatchLine | runtime/runtime_program.c:82-95 | the physical line and where reading goes on |
| ProgramReader.AppendTokenisedLine | runtime/runtime_program.c:97-103 | the line up to its pair of zeros and one zero are appended |
| ProgramReader.TokeniseSource | runtime/runtime_program.c:105-147 | program memory is the packed tokens of all lines that are not empty, for any tokeniser; whether some line overran the input buffer is reported exactly |
| CmdsStream.NextOpReadsBack | porttools/esp32_web_console_smoke.py:115-164 | the bytes of every operation, written from the format, are read back as that operation, wherever they stand and whatever follows: opcode, signed x and y, unsigned sizes, colour order and payload |
| CmdsStream.CutOpIsNone | porttools/esp32_web_console_smoke.py:118-161 | an operation that is cut off anywhere is none |
| CmdsStream.UnknownOpIsNone | porttools/esp32_web_console_smoke.py:179-180 | other opcodes than 1 to 6 are none |
| CmdsStream.BlitShowsRows | web/app.js:121-133 | pixel dx of row dy of an image appears dx to the right and dy below its corner, whatever its alpha |
| CmdsStream.RleShowsRows | porttools/esp32_web_console_smoke.py:159-178 | the same is traced for a run-length image whose runs expand to rows |
| CmdsStream.RectMessageIsRead | web/app.js:85-95 | an input: a message with a rectangle of one pixel at column 2 and row 5 is traced and painted there, and not at column 5 and row 2 |
| CmdsStream.ScrolledPixel | web/app.js:105-120 | after a scroll by n rows a pixel shows the one n rows below it, or the background where there is none |
| CmdsStream.Rgb332IsNearest | porttools/esp32_web_console_smoke.py:100-104 | each channel is the nearest 8-bit value to the 3- or 2-bit one |
| CmdsStream.PaintAgrees | web/app.js:77-133 | one operation on a canvas gives a pixel the colour that the tracer notes |
| CmdsStream.TraceAgrees | porttools/esp32_web_console_smoke.py:115-181 | from any position on, a traced colour is the replayed one |
| CmdsStream.TracerIsSound | porttools/esp32_web_console_smoke.py:107-181 | on any bytes, cut off or unknown tails included, a colour the tracer reports is in the replayed canvas, unless an operation stops the replay alone |
| CmdsStream.TracerIsSoundIff | web/app.js:121-138 | behind any complete operations, run-length images included, a clear screen is traced truly if and only if none of them stops the replay alone |
| CmdsStream.RunsAreExpanded | porttools/esp32_web_console_smoke.py:168-176 | reading runs picks the wanted byte of the expanded image and ends behind the last run |
| CmdsStream.RleImageIsTraced | porttools/esp32_web_console_smoke.py:159-178 | a well-formed run-length image is traced as if it were fully expanded |
| CmdsPlayers.ReadRuns | porttools/esp32_web_console_smoke.py:168-176 | position, pixels seen and colour after the loop over the runs |
| CmdsPlayers.TraceOne | porttools/esp32_web_console_smoke.py:115-180 | one operation of the tracer keeps the result, or ends it |
| CmdsPlayers.TraceRle | porttools/esp32_web_console_smoke.py:159-178 | the same for a run-length image |
| CmdsPlayers.CmdsPixelRgbAt | porttools/esp32_web_console_smoke.py:87-181 | the tracer's answer, with short frames, other frames and points outside told apart |
| CmdsPlayers.MagicIsCmds | porttools/esp32_web_console_smoke.py:87-109 | a frame is a command frame if and only if its first four bytes spell CMDS |
| CmdsPlayers.Display.constructor | web/app.js:47-57 | there is no pixel before the first message |
| CmdsPlayers.Display.EnsureCanvas | web/app.js:47-57 | the canvas has the message's size; it is kept if it had it already and blank otherwise |
| CmdsStream.CoveringRectIsClear | web/app.js:78-95 | a rectangle over the whole canvas is a clear screen |
| CmdsStream.ScrollBackKeepsTheRest | web/app.js:105-120 | scrolling up n rows and back down keeps every row but the first n, which have the second background |
| CmdsStream.UniformImageIsRect | web/app.js:85-133 | an image of one colour paints what a rectangle of that colour paints, wherever it lies |
| CmdsPlayers.Display.ScrollBy | web/app.js:105-120 | scrolling both ways, with the gap filled |
| CmdsPlayers.Display.ReplayOne | web/app.js:75-139 | one operation on the canvas keeps the result of the replay, or ends it |
| CmdsPlayers.Display.ReplayCmds | web/app.js:65-150 | the canvas after a message is the replay of its operations on the canvas before, or on a blank one if the size changed |
| Telnet.ChunksDoNotMatter | porttools/telnet_smoke.py:247-295 | feeding chunks is feeding their bytes at once, however they are cut |
| Telnet.FeedItems | porttools/telnet_smoke.py:247-295 | the encoded items are taken one by one |
| Telnet.TakeAllCollects | porttools/telnet_smoke.py:247-311 | the data bytes are collected in order and each option command gets one policy reply |
| Telnet.FeedYieldsData | porttools/telnet_smoke.py:247-311 | for any items, cut anywhere: exactly the data bytes in order, one reply per option command, and the parser at rest |
| Telnet.RepliesFollowPolicy | porttools/telnet_smoke.py:208-311 | the k-th reply answers the k-th option command: same option; DO or DONT to WILL and WONT, WILL or WONT to DO and DONT; DO exactly to WILL of option 1 or 3, WILL exactly to DO of option 3 |
| Telnet.GreetingIsAnswered | porttools/telnet_smoke.py:297-302 | an input: WILL ECHO is answered with DO ECHO, WILL of option 99 with DONT |
| Telnet.StrayCommandIsDropped | porttools/telnet_smoke.py:284-295 | inside a subnegotiation 0xFF and a byte that is neither 0xF0 nor 0xFF are dropped |
| Telnet.LogStaysConsistent | porttools/telnet_smoke.py:179-184 | on any bytes, will and wont as well as do and dont stay disjoint |
| Telnet.LogKeepsLastWord | porttools/telnet_smoke.py:179-184 | an option is in will or wont, and in do or dont, exactly by the last word on it |
| Telnet.SendableText | porttools/telnet_smoke.py:232-244 | text can be sent if and only if every character is below 256 |
| Telnet.SentTextArrives | porttools/telnet_smoke.py:232-244 | sent text is received as it is, with CR LF for each newline |
| TelnetStrip.StripSubnegotiation | porttools/basic_telnet.py:74-83 | a subnegotiation yields exactly the bytes of its body behind a 0xFF 0xF0 |
| TelnetStrip.StripItemsBefore | porttools/basic_telnet.py:46-90 | encoded items, whatever follows them, yield the data without zeros and what bodies leak |
| TelnetStrip.CutCommandIsDropped | porttools/basic_telnet.py:63-87 | a lone 0xFF, and an option command without its option, at the end of a chunk are dropped |
| TelnetStrip.OpenSubnegotiationLeaksLastByte | porttools/basic_telnet.py:74-83 | a subnegotiation that does not end in its chunk is dropped but for its last byte, which is read as data |
| TelnetStrip.SafeBodyDoesNotLeak | porttools/basic_telnet.py:74-83 | a body leaks nothing if and only if only zeros follow a 0xFF 0xF0 in it |
| TelnetStrip.LeaksOnlyAddBytes | porttools/basic_telnet.py:46-90 | leaks never hide data, and lengths agree only if nothing leaks |
| TelnetStrip.StripAgreesWithFeed | porttools/basic_telnet.py:46-90 | the batch stripper gives the incremental parser's data without zeros if and only if no body leaks |
| TelnetStrip.StripUndoesWrite | porttools/basic_telnet.py:129-134 | stripping what `write` sends gives back the data if and only if it has no zero byte |
| TelnetStrip.ReadTakesPrefix | porttools/basic_telnet.py:105-127 | a read and what is left are the stream; a short read leaves nothing pending |
| TelnetStrip.ReadStopsWhenDry | porttools/basic_telnet.py:105-127 | a read receives only while it has too little and stops short only at a timeout, an empty chunk or the end of the connection |
| TelnetStrip.ReadsReturnStream | porttools/basic_telnet.py:105-127 | reads of any sizes return the chunks stripped one by one, nothing lost or repeated, over timeouts and empty chunks |
| TelnetStrip.AlignedReadsAgreeWithFeed | porttools/basic_telnet.py:105-127 | for chunks cut between items this is the incremental parser's data without zeros if and only if no body leaks |
| TelnetStrip.CutPairIsLost | porttools/basic_telnet.py:64-68 | an input: a doubled 0xFF cut in two is read as nothing, while the incremental parser yields one 0xFF |
| TelnetParsers.TelnetClient.constructor | porttools/telnet_smoke.py:211-220 | a client at rest with nothing received |
| TelnetParsers.TelnetClient.RecordRx | porttools/telnet_smoke.py:179-184 | the log after an option command |
| TelnetParsers.TelnetClient.RespondTo | porttools/telnet_smoke.py:297-311 | the policy's reply and no other is sent |
| TelnetParsers.TelnetClient.FeedByte | porttools/telnet_smoke.py:249-295 | state, body, data, replies and log after one byte |
| TelnetParsers.TelnetClient.Feed | porttools/telnet_smoke.py:247-295 | the same after a chunk |
| TelnetParsers.FindSubnegotiationEnd | porttools/basic_telnet.py:76-82 | the scan ends behind the first 0xFF 0xF0 or at the last byte |
| TelnetParsers.StripIac | porttools/basic_telnet.py:46-90 | the index loop computes `Strip` |
| TelnetParsers.SocketAsSerial.constructor | porttools/basic_telnet.py:99-103 | nothing pending, nothing written |
| TelnetParsers.SocketAsSerial.ReadBytes | porttools/basic_telnet.py:105-127 | the bytes returned, those pending and what is left in the socket |
| TelnetParsers.SocketAsSerial.Write | porttools/basic_telnet.py:129-134 | every 0xFF is sent twice, and the length sent is returned |
| Tftp.TftpWrite | porttools/network_conformance.py:773-787 | the datagrams sent and the outcome against any answers |
| Tftp.TftpRead | porttools/network_conformance.py:792-822 | the payload or the error for any datagrams arriving |
| Tftp.BlocksAreNumbered | porttools/network_conformance.py:773-783 | blocks are numbered upward from the first, len / bs + 1 of them, all full but the last, which is shorter |
| Tftp.UploadSendsBlocks | porttools/network_conformance.py:773-787 | with every block acknowledged the sender sends exactly these blocks |
| Tftp.AcksAreNumbered | porttools/network_conformance.py:778-785 | the expected answers are 0, 4 and the block number, high byte first |
| Tftp.UploadStopsAt | porttools/network_conformance.py:774-787 | at the first missing or wrong answer the sender stops, having sent exactly the blocks up to it |
| Tftp.DownloadStopsAt | porttools/network_conformance.py:809-821 | at the first datagram that is no data, has the wrong number or is missing, the receiver stops with that error |
| Tftp.TooManyBlocksFail | porttools/network_conformance.py:776-778 | with a block number above 65535 the upload never succeeds |
| Tftp.DownloadReadsBlocks | porttools/network_conformance.py:809-822 | the receiver stops exactly at the short block with the payload |
| Tftp.TransferRoundTrip | porttools/network_conformance.py:773-822 | upload and download give the payload back if and only if there are at most 65535 blocks and the datagrams fit the receive buffer |
| Mqtt.MqttEncodeRemainingLength | porttools/network_conformance.py:389-398 | the loop gives the base-128 digits with continuation bits |
| Mqtt.Connection.constructor | porttools/network_conformance.py:401-404 | the bytes the peer sent are still to be received |
| Mqtt.Connection.Recv | porttools/network_conformance.py:421-421 | a receive takes a prefix, empty only at the end of the stream |
| Mqtt.Connection.ReadLength | porttools/network_conformance.py:405-417 | length, end of stream or the error after four bytes, and what is left |
| Mqtt.Connection.ReadPayload | porttools/network_conformance.py:419-424 | the payload loop returns exactly the announced bytes under any fragmentation, or nothing if the stream ends first |
| Mqtt.Connection.MqttReadPacket | porttools/network_conformance.py:401-425 | header, body and rest of the stream under any fragmentation |
| Mqtt.LengthIsMinimal | porttools/network_conformance.py:389-398 | no shorter base-128 form exists |
| Mqtt.LengthDigits | porttools/network_conformance.py:389-398 | the bytes are the base-128 digits of the length, least significant first, and exactly the last is below 128 |
| Mqtt.PacketExamples | porttools/network_conformance.py:438-439 | two packets byte by byte: an empty body, and one of 321 bytes |
| Mqtt.LengthFitsIff | porttools/network_conformance.py:389-398 | one to four bytes if and only if the length is at most 268435455 |
| Mqtt.ParseUndoesEncode | porttools/network_conformance.py:405-417 | reading a length gives it back if it has no more bytes than may be read, and is invalid otherwise |
| Mqtt.PacketRoundTrip | porttools/network_conformance.py:401-439 | a packet is read back with the rest untouched if its body fits, and is invalid otherwise |
| Mqtt.CutPacketIsCut | porttools/network_conformance.py:401-425 | every proper prefix of a packet reads as the end of the stream |
| Mqtt.PacketsRoundTrip | porttools/network_conformance.py:401-439 | a stream of packets is read back as the same headers and bodies in order |
| Uf2Image.LayoutIsAligned | tools/build_lfs.py:42-65 | the file system begins at 0x1A9000 or 0x1B1000 and covers whole blocks, 3671 of them in the first case |
| Uf2Image.LjustPage | tools/build_lfs.py:144-145 | the page is padded with 0xFF |
| Uf2Image.EmitUf2 | tools/build_lfs.py:135-164 | exactly the pages that are not erased are emitted, unless an address does not fit 32 bits |
| Uf2Image.LoadedBlock | tools/build_lfs.py:153-161 | a loader reads back address, size, number, total and page of a block |
| Uf2Image.BlockLayout | tools/build_lfs.py:66-161 | magic numbers, flags, payload size, family, page and padding of every block, byte by byte |
| Uf2Image.BlockAt | tools/build_lfs.py:149-163 | the j-th block is the j-th page that is not erased, with number j and the total |
| Uf2Image.BlocksAreInOrder | tools/build_lfs.py:149-163 | numbers are 0, 1, and so on, totals equal, addresses ascending, on page boundaries and inside the region |
| Uf2Image.WrittenPages | tools/build_lfs.py:135-164 | after k blocks exactly their pages hold the image and all else is erased |
| Uf2Image.FlashHoldsImage | tools/build_lfs.py:135-164 | writing the file to erased flash gives the image padded with 0xFF, although erased pages are skipped |

## Left out

- Intra-word coupling, linked faults and timing faults of memories; the march test is not meant for them.
- The up to three bytes behind the last whole word of a memory under test: the model has whole words, and the test does not touch those bytes.
- Progress messages, cache synchronisation, barriers, uncached aliases, flash timing and the PSRAM-enabled check of the RAM command.
- Other commands that move the program pointer (FLASH, NEW, LOAD, the editor): a run's other statements leave it alone.
- `MM.ENDLINE$` and `MM.PROMPT`, which run BASIC text at the return to the prompt.
- What happens after a write behind the end of a buffer: the line editor's model ends there, the tokeniser's reports it.
- Number parsing of command arguments: slot numbers arrive as integers, and out-of-range numbers are an error as in the code.
- The contents that FILE LOAD puts into a slot (`MemLoadProgram`): a parameter.
- `PrepareProgram`, `ExecuteProgram` and the clearing of variables in RUN and CHAIN.
- The name of the running interrupt, the temporary-memory flag and adapters with missing slots in the interrupt dispatcher.
- The storage of flags and handlers: the runtime class keeps the event latches as a set and the handlers as a map, where the source has one variable each, and the GOSUB and error stacks as one sequence.
- Wrap-around of the escape parameter and of the error-skip count beyond the range of int.
- The program's own effect while it runs: a step may set next statement, line and error state freely; handlers are assumed balanced, as the dispatcher assumes them.
- Hooks that run at Ctrl-D, console polling intervals and the echo of the console driver.
- Line wrap of the terminal and control characters inside macro texts.
- The tokeniser: any function whose output holds a pair of zeros. Also the clearing of flash and the bounds of program memory.
- Zero characters inside program text; the source ends at the first one.
- `FRMB` frames, canvas scaling and transparency, the console log of the browser, canvases of zero size.
- `cmds_contains_blit` and `mqtt_utf8`: they would only add easy members.
- Sockets, threads, timeouts, prompts and regular expressions of the port tools; what arrives is a parameter.
- Option negotiation and retries of TFTP: the block size is a parameter, zero included for the upload; negative sizes are not modelled.
- Reading the file system image and writing the UF2 file. The closing progress line, which divides by the page count, is not modelled for empty images.
