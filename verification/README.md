# A verified model of the Z80 GDB stub

This project models a GDB stub for a Z80 machine (Amstrad PCW under CP/M Plus)
and proves what it promises to the program under debug and to the debugger.
The stub shares one 64K memory with the program it debugs. It stops the
program by writing RST 08 (`CFh`) over instructions, in two layers: a table of
eight breakpoints, and one temporary breakpoint on top for steps, for stepping
off a breakpoint before it is put back, and for Ctrl-C. GDB talks to it over a
serial line. `dafny verify dfyconfig.toml` checks everything.

Code that changes state step by step is modelled as classes and loops whose
contracts tie them to functions on values; the theorems are about those
functions. The files, from the bottom up:

| file | part of the program | content |
|---|---|---|
| `Machine`, `GdbState` | `src/state.h` | bytes, words, memory, registers, breakpoints |
| `Z80Decode` | `src/z80_decode.c` | the three value/mask tables, their scans and the pseudo-evaluators |
| `Z80Manual` | none | an independent successor function by opcode fields, after the instruction set chapter of the Zilog Z80 CPU User Manual (UM0080) |
| `Z80Patched` | none | what becomes of an instruction when RST 08 stands on it |
| `Z80Agreement` | `src/z80_decode.c` | the decoder against the manual |
| `Rst8`, `TableProofs` | `src/pcw_rst8.c`, `src/pcw_rst8.asm` | class `TrapHandler`: the trap before and after the GDB loop, Ctrl-C |
| `Commands` | `src/server.c` | what each GDB command does to the state |
| `Session`, `Transparency` | `src/pcw_rst8.c` | every order of stores, traps, Ctrl-C and commands; one invariant; what follows on all runs |
| `SingleStep`, `StepLimits` | `src/pcw_rst8.c`, `src/z80_decode.c` | `s` and `c` end to end, and the registers they resume with; where a step is not one instruction |
| `Limits`, `Examples` | all of these | where an assumption fails: exact conditions, and concrete inputs that GDB can send |
| `Texts` | none | characters as bytes; hexadecimal digits by their place among the digits |
| `Hex`, `Framing`, `Link` | `src/utils.c`, `src/server.c` | hexadecimal text, packets, class `Port`: reader and writer |
| `Parsing`, `CommandProofs` | `src/server.c` | command packets and replies as text |
| `Conversation`, `Server` | `src/server.c`, `src/pcw_rst8.c` | class `Server`: `process_packet`, `server_read_data` and the whole of `rst8_c_trap`, as a conversation that is a function of the input |
| `HostPackets`, `HostView` | `src/server.c`, `src/pcw_rst8.c`, `src/state.h` | each packet as the host writes it and what comes of it; what GDB sees of the CPU at a stop and does to it |
| `Banks` | `src/server.c` | class `BankedMemory`: which 16K page each slot shows |
| `Prl` | `tools/makeprl.c`, `src/loader.asm` | page-relocatable files, built and loaded |

## The main results

* **Transparency.** Beside the real memory stands a *logical* memory that
  receives only what the program, GDB's `M` and the return addresses on the
  program's stack put there. On every run the two are equal whenever GDB is
  served. While the program runs, they differ by RST 08 exactly at the planted
  entries the program has not overwritten and at the armed temporary
  breakpoint (`Transparency.MemoryIsTransparent`).
* **Breakpoints work.** Whenever the program runs, each entry is in memory,
  overwritten by the program, or the one that waits at the PC with a temporary
  breakpoint armed. Reaching an entry traps there and GDB is told, at once or,
  after a silent step, at the very next trap at the same address. Stepping off
  a breakpoint puts it back.
* **A step is one instruction**, unless the instruction goes to itself. After
  `s` the CPU goes to the architectural successor, traps there, GDB is told,
  and memory is what the instruction made of it. So it is after `c` off a
  breakpoint, but GDB is not told. The exact condition is that the temporary
  breakpoint does not change the instruction (`StepLimits.StepGoesExactly`).
  On `DJNZ $` and the like it stands in the instruction's place: `s` stops
  where it was before anything has run, and `c` never leaves a breakpoint
  there.
* **The decoder is right** on every documented instruction, for every memory
  and register file, except JP (IX) and JP (IY), where it is right if and only
  if the jump goes to the following instruction.
* **The reader** accepts at the first position of the input that ends a frame
  with the right checksum. The conversation of one stop is a function
  (`Conversation.Converse`) of the state at the trap, the mapped pages, the
  old contents of the buffer and the bytes the host sends, and `Server.HandleTrap` computes it.
* **What GDB sees and says.** At a stop GDB is told the PC and, by `g`, the
  registers of the CPU that trapped, in the order of the target description;
  each packet, written in digits of either case, does what its letter says
  (`HostPackets`, `HostView`).
* **Build and load.** `PageReloc` on the output of makeprl yields the program
  linked at the load page.
* **Bank probing** leaves memory and mapping unchanged if and only if no page
  below a mapped one ends in the fingerprint.

## What the session assumes

The code relies on its surroundings in ways it does not check.
`Session.Assumed` lists them, and `Limits`, `StepLimits` and `Examples` say what
happens otherwise.

* **The trap vector.** `_rst8_install` puts JP `rst8_entry` at 0008h
  (`src/pcw_rst8.asm:66-130`), and a trap enters the stub only through it.
  Nothing keeps breakpoints off it: a `Z` may put one there, and the target of
  a step is 0008h itself whenever the opcode at the PC is a RST 08 of the
  program. The session assumes that no entry and no target lies on 0008h-000Ah
  and that the program's stores, `M` and the return words leave these bytes
  alone. `Limits.VectorSurvivesExactly` gives the exact condition and
  `Examples.StepOnTrapLosesVector` an input.
* A store by the program does not hit the armed temporary breakpoint, and does
  not put RST 08 where the saved bytes would show another byte. The same goes
  for the bytes of the return word that a trap and the stub write under the
  program's stack pointer; that word may lie on a breakpoint otherwise.
* While a temporary breakpoint is armed, the next trap is the one there, and
  no Ctrl-C comes. Ctrl-C does not interrupt at address 0 or on the vector. For
  `s`, and for `c` off a breakpoint, the first half follows from what the CPU
  does (`SingleStep`); for `i` it fails when the callee hits a breakpoint
  (`Examples.StepOverCanLeak`).
* The target of a step is not 0, because 0 means "no breakpoint", nor in the
  return word. `SingleStep.StepIsAssumed` reduces this to the architectural
  successor.
* A single step of a return that is taken goes by the SP that GDB sees, while
  the program resumes with the SP it had. `SingleStep` asks that they be the
  same, for such instructions only; `SingleStep.ResumedGoesExactly` and
  `Examples.MovedStackIsMissed` say what happens otherwise.
* When an entry has waited, no entry before it at the same address has saved a
  stale byte. If GDB sets no breakpoint where one is, this holds
  (`Transparency.FreshRunIsRun`); `Z` does not look for duplicates, and
  `Limits.DuplicatesAtPc` gives the exact condition.
* The program's memory and the stub's own variables are disjoint.
* The assembly entries use the program's stack before they switch to their
  own: `handleInterruptState` pushes below the return word
  (`src/pcw_rst8.asm:164-196`), and so does the interrupt entry
  (`src/pcw_rst8.asm:233-303`). These writes count as stores of the program
  just before the trap or the interrupt, with what is assumed of those.

## Where the code differs from what it says

* `page = page | 0x80` (`src/server.c:505`) stands before the first `case` and
  is never executed. Ports hold a 7-bit page in the model.
* GDB may set SP, but the trap does not write it back to the program
  (`src/pcw_rst8.c:195-201`); the program resumes with the SP it had.
* `P` reads its value high byte first (`src/server.c:276`), while `g` and `G`
  send words low byte first (`src/server.c:246-253`), as the protocol has it
  for all three on a little-endian target (`HostView.SetRegisterSwaps`).
* `to_hex` converts four bytes for the stop report (`src/pcw_rst8.c:186`), of
  which only the two of the PC are sent.
* The comparison at `src/pcw_rst8.c:97` reads back the byte stored three lines
  before, so its `else` branch (lines 102-107) is dead and not modelled. So is
  the branch for a page that is not found (`src/server.c:561-565`): with 7-bit
  pages the search ends at the mapped page at the latest.
* With a `#` in byte 125 of the buffer, `write_error` stores its `$` one byte
  behind the buffer (`src/server.c:153-156`), in the first byte of the transmit
  buffer, which is about to become `$` anyway.
* The sign of a jump displacement depends on how the compiler treats plain
  `char`; the model takes it as signed, as the comments at
  `src/z80_decode.c:263` and `src/z80_decode.c:312` say.

## Model

| member | source | states |
|---|---|---|
| `Transparency.MemoryIsTransparent` | src/pcw_rst8.c:65-273 | on every run, physical memory is logical memory at each stop, and logical memory overlaid by RST 08 exactly at live entries and the armed temporary breakpoint while the program runs |
| `Transparency.BreakpointsAreComplete` | src/pcw_rst8.c:204-249 | on every run, an entry is in memory, overwritten, or at the address that waits, which is the resume PC, with a temporary breakpoint armed |
| `Transparency.FlagsAreConsistent` | src/pcw_rst8.c:79-121 | on every run a temporary breakpoint is armed iff STEP or RESTORE is set, FORCE_ADDRESS is clear, and RESTORE names a non-empty entry at the resume PC, the last one there |
| `Transparency.SilentTrapsDoNotRepeat` | src/pcw_rst8.c:82-125 | from any state, without assumptions, a trap not shown to GDB is followed by one that is, whatever stores and Ctrl-C come between |
| `Transparency.BreakpointIsHit` | src/pcw_rst8.c:133-160 | reaching a planted entry traps through the vector; the trap is reported with the entry kept and the program's byte back, or execution resumes at the same address with RST 08 still there and nothing armed |
| `Transparency.WaitingEntryIsPlanted` | src/pcw_rst8.c:91-109 | the trap that ends a temporary breakpoint plants the entry that waited, with the byte it covers now, and clears RESTORE; if the trap is reported an entry at its address stays in the table |
| `Transparency.DialogueResumes` | src/pcw_rst8.c:189-273 | the commands of one stop, obeyed one by one, resume the program in the state the second half of the trap computes |
| `Transparency.InitialInv` | src/pcw_rst8.c:79-162 | a program that has not trapped yet satisfies the session invariant |
| `Transparency.RunKeeps` | src/pcw_rst8.c:65-273 | the invariant holds after any run |
| `Transparency.NextKeepsDistinct` | src/server.c:347-399 | from any state, no step makes two entries equal unless GDB sets a breakpoint where one is |
| `Transparency.FreshRunIsRun` | src/server.c:368-396 | a run in which GDB sets no breakpoint twice needs no assumption on saved bytes |
| `Session.StepKeeps` | src/pcw_rst8.c:65-273 | each store, trap, Ctrl-C and command keeps the invariant: memory below the temporary breakpoint can be uncovered to the logical memory, the flags match what is armed and waiting, and the trap vector is whole |
| `Session.VectorHolds` | src/pcw_rst8.asm:66-130 | under the invariant JP to the stub's entry stands at 0008h in the memory the program runs on |
| `Session.TrapKeeps` | src/pcw_rst8.c:79-162 | a trap, shown to GDB or silent, keeps it |
| `Session.TrapSees` | src/pcw_rst8.c:79-162 | a trap's whole effect without the assumption on saved bytes: what is uncovered, now or at the next stop, is the logical memory with the stale byte of the waiting address, if any, in it |
| `Session.ResumeKeeps` | src/pcw_rst8.c:204-269 | `c`, `s` and `i` keep it, with any table, PC and pending flags |
| `Session.InterruptKeeps` | src/pcw_rst8.asm:258-289 | Ctrl-C keeps it |
| `Session.ReportedTrap` | src/pcw_rst8.c:131-162 | when the loop is entered, memory is the logical memory, a stale byte at the waiting address apart, and nothing is armed or pending |
| `Session.SilentTrap` | src/pcw_rst8.c:82-121 | the end of a silent step resumes at the trap address with the table overlaid and nothing armed |
| `Session.RestoreUnder` | src/pcw_rst8.c:91-109 | planting the entry that waited lays it over the others' overlay and makes its address show the first byte other than RST 08 saved there, else the current one |
| `Session.RetireTemporaryUnder` | src/pcw_rst8.c:82-120 | undoing the temporary breakpoint leaves exactly the table's overlay, whether or not it coincided with an entry |
| `Session.PlantedUnder` | src/pcw_rst8.c:204-229 | planting overlays the logical memory at every entry but those at PC, of which the last waits |
| `TableProofs.RetireUncovers` | src/pcw_rst8.c:133-161 | retiring an overlaid table yields the logical memory iff the bytes it saved show that memory wherever RST 08 stands |
| `TableProofs.RetireShows` | src/pcw_rst8.c:133-161 | for any memory and table, duplicates included: where RST 08 stands each address gets the first byte other than RST 08 saved for it, and an entry is dropped iff it finds anything else |
| `TableProofs.PlantPrefix` | src/pcw_rst8.c:205-228 | after `n` entries RST 08 stands exactly at their addresses except PC, and each has saved the byte it found |
| `TableProofs.PlantedShows` | src/pcw_rst8.c:205-228 | what has just been planted would be retired to the byte it covers, however many entries share the address |
| `SingleStep.StepStopsAtSuccessor` | src/pcw_rst8.c:232-249 | after `s` on a `Steppable` instruction (documented and not JP (IX)/(IY); resumed at; successor neither 0 nor on the vector nor in the return word nor a byte of the instruction; breakpoints and return word clear of its bytes; GDB's SP the program's own if a return is taken), whatever harmless stores it makes, the program reaches the architectural successor, traps, is reported there with that PC, and memory is the program's own |
| `SingleStep.ContinueStepsOff` | src/pcw_rst8.c:91-125 | after `c` off a breakpoint on a `Steppable` instruction the program reaches the architectural successor and traps there; GDB hears nothing, the breakpoint is back in memory with the byte it covers, nothing is armed or pending, and execution goes on at the successor |
| `SingleStep.StepGoesToSuccessor` | src/pcw_rst8.c:231-242 | for a `Steppable` instruction the temporary breakpoint is planted where the CPU goes on the unpatched and on the patched memory alike |
| `StepLimits.StepGoesExactly` | src/pcw_rst8.c:232-260 | wherever the stub finds the successor, and GDB has not moved SP under a return, the CPU goes there iff the temporary breakpoint does not change a byte that decides where the instruction goes |
| `SingleStep.PatchesSpareExactly` | src/pcw_rst8.c:240-242 | planting and arming leave the bytes that decide where the instruction goes alone iff the successor is none of them or is RST 08 already |
| `SingleStep.ResumedGoesExactly` | src/pcw_rst8.c:195-201 | with SP moved by GDB the CPU goes where the temporary breakpoint is iff the instruction is no return that is taken or both stacks hold the same word |
| `StepLimits.ReturnTargetExactly` | src/z80_decode.c:389-415 | the decoder's target is that of a CPU with another SP iff the instruction is no return that is taken or the words at the two addresses agree |
| `StepLimits.ResumesOnPatchExactly` | src/pcw_rst8.c:240-260 | execution resumes on RST 08 iff the target of the step is the instruction itself |
| `StepLimits.SelfStepRepeats` | src/pcw_rst8.c:232-269 | `s` on an instruction that goes to itself: a trap at once, at the same PC with the same registers, before the instruction has run |
| `StepLimits.SelfContinueRepeats` | src/pcw_rst8.c:91-125 | `c` off a breakpoint on such an instruction: a silent trap and a second one at once, which stops at the same breakpoint with the same registers |
| `Examples.LoopNeverLeaves` | src/pcw_rst8.c:240-260 | concrete: `c` never gets off a breakpoint on DJNZ to itself |
| `Examples.MovedStackIsMissed` | src/z80_decode.c:389-394 | concrete: `P` sets SP, `s` on RET plants its breakpoint where that stack leads and the CPU goes elsewhere |
| `Z80Patched.PatchedGoesElsewhere` | src/pcw_rst8.c:240-242 | an instruction that goes to one of its own bytes goes elsewhere once RST 08 stands there, whatever the instruction |
| `SingleStep.StepTargetIsSuccessor` | src/pcw_rst8.c:204-235 | planting the table first does not disturb what the decoder reads, for `s` and for `c` off a breakpoint, also if the instruction goes to itself or GDB has moved SP |
| `SingleStep.StepIsAssumed` | src/pcw_rst8.c:231-242 | for a documented instruction clear of the breakpoints, the vector and the return word (`Placeable`), what the session assumes of the resumption holds |
| `Examples.StepExample` | src/server.c:189-194 | concrete: with NOPs everywhere and a breakpoint at 0100h where the program stands, `s` stops at 0101h with the logical memory visible |
| `Examples.ContinueExample` | src/pcw_rst8.c:91-125 | concrete: from the same breakpoint `c` passes 0101h unnoticed and the breakpoint is back at 0100h |
| `SingleStep.StepOverGoesTo` | src/server.c:195-202 | `i` arms a reported stop at PC plus the offset |
| `SingleStep.StepTrap` | src/pcw_rst8.c:82-118 | the trap at an armed step is reported with the logical memory visible |
| `SingleStep.FrameSurvives` | src/pcw_rst8.c:166-269 | after any dialogue execution resumes at the PC GDB set last, else at the trap address after a breakpoint or step, else behind the hard-coded RST 08; if no command changed a CPU register, the six pushed words come back |
| `Limits.StoreIsSafeExactly` | src/pcw_rst8.c:138-152 | a store keeps memory uncoverable iff it is not RST 08 over an entry hiding another byte |
| `Limits.InterruptIsHeardOnce` | src/pcw_rst8.asm:242-289 | after every resumption and every silent trap a Ctrl-C is heard, and a second one before the next stop is not |
| `Limits.InterruptIsSafeExactly` | src/pcw_rst8.asm:267-289 | Ctrl-C keeps the invariant iff the PC is neither 0 nor on the vector and no armed temporary breakpoint hides a byte other than RST 08 |
| `Limits.InterruptedStopExactly` | src/pcw_rst8.asm:258-289 | the stop that Ctrl-C brings shows the logical memory iff the entries' saved bytes show the byte under the temporary breakpoint it forgot and none before a waiting entry is stale |
| `Limits.ZeroTargetLeaks` | src/pcw_rst8.c:235-242 | arming keeps the invariant iff the target is not 0; at 0 its RST 08 stays in the program's memory |
| `Limits.TrapOpcodeTargetsVector` | src/z80_decode.c:200-211 | a resumption that has to step a RST 08 of the program aims at 0008h, whatever the registers, the table and the memory |
| `Limits.VectorSurvivesExactly` | src/pcw_rst8.c:204-249 | planting and arming leave the three bytes of the vector alone iff none of them that is not RST 08 is held by an entry away from the PC or is the target |
| `Examples.StepOnTrapLosesVector` | src/pcw_rst8.c:235-242 | concrete: `P` sets PC to a RST 08 of the program, `s` overwrites the vector, and no trap is possible any more |
| `Examples.ContinueOnTrapLosesVector` | src/pcw_rst8.c:208-242 | concrete: so do `Z` on a RST 08 of the program where it stands, and `c` |
| `Limits.MissedTemporary` | src/pcw_rst8.c:82-125 | a stop elsewhere than at the armed breakpoint shows the logical memory iff the entries' saved bytes show the byte it hides, and do not spoil a RST 08 of the program at the waiting address |
| `Limits.MissedWaiting` | src/pcw_rst8.c:133-152 | such a stop drops the entry that waited iff it does not find RST 08 |
| `Limits.DuplicatesAtPc` | src/pcw_rst8.c:82-229 | any number of entries at the PC, `c`, the silent trap and the next stop, stores between: memory is right iff the first byte other than RST 08 saved by the entries before the last is still the program's byte; otherwise GDB sees that byte |
| `Limits.FirstDecides` | src/pcw_rst8.c:133-152 | that byte is the first entry's own, unless it is RST 08 |
| `Limits.StaleExactly` | src/pcw_rst8.c:91-109 | the end of a temporary breakpoint keeps the session's invariant iff no entry before the waiting one has saved a stale byte |
| `Examples.StepOverCanLeak` | src/server.c:195-202 | concrete: at CALL 0200h, `Z` at 0200h and `i`; the call pushes its return address, the callee's breakpoint stops the program, and RST 08 is still behind the call |
| `Examples.InterruptCanLeak` | src/pcw_rst8.asm:276-282 | concrete: Ctrl-C during that call leaves it behind as well, and breaks the invariant |
| `Examples.DuplicateCanCorrupt` | src/server.c:368-396 | concrete: two `Z` at the PC over INC A, `c`, a silent trap, and the next stop shows NOP there |
| `Z80Agreement.StepIsArchitectural` | src/z80_decode.c:169-415 | for every memory and register file and every documented instruction, the decoder yields the architectural next PC iff the instruction is not JP (IX)/(IY) or that jump goes to PC+2 |
| `Z80Agreement.JumpIndexIsMissed` | src/z80_decode.c:163 | JP (IX)/(IY): the decoder says PC+2, the CPU goes to IX/IY |
| `Z80Agreement.MainScan` | src/z80_decode.c:182-183 | the scan of the main table stops at the row the opcode's fields name, never at the sentinel |
| `Z80Agreement.MainEntryAgrees` | src/z80_decode.c:36-96 | that row has the evaluator, mask and length the fields call for, overlaps such as HALT included |
| `Z80Agreement.EdScan` | src/z80_decode.c:247-249 | the scan of the ED table finds the right length or a return for every documented ED opcode |
| `Z80Agreement.IndexScan` | src/z80_decode.c:227-231 | the scan of the index table finds the right length for every opcode an index prefix affects |
| `Z80Agreement.ConditionAgrees` | src/z80_decode.c:329-367 | the eight conditions test the manual's flags, for both masks that cut them out |
| `Z80Agreement.RstAgrees` | src/z80_decode.c:200-211 | RST goes to the opcode's middle bits |
| `Z80Agreement.DjnzAgrees` | src/z80_decode.c:254-267 | DJNZ jumps unless B is 1, so also for B = 0 |
| `Z80Agreement.RelativeAgrees` | src/z80_decode.c:308-387 | JR and JR cc, taken or not, signed and wrapping |
| `Z80Agreement.ConditionalAgrees` | src/z80_decode.c:277-299 | RET cc, JP cc and CALL cc, taken or not |
| `Z80Agreement.EdAgrees` | src/z80_decode.c:241-250 | the ED page: RETN and RETI from the stack word, the others by length |
| `Z80Agreement.IndexAgrees` | src/z80_decode.c:221-232 | the DD and FD pages by length |
| `Z80Manual.SuccessorDependsOnFootprint` | src/z80_decode.c:179-273 | where the CPU goes depends only on the instruction's own bytes and, for a return taken, on the two stack bytes |
| `Z80Decode.FirstIsFirstMatch` | src/z80_decode.c:182-183 | the scan finds a matching row that no earlier row anticipates |
| `Z80Decode.Scan` | src/z80_decode.c:182-183 | the pointer loop returns that row |
| `Z80Decode.CalculateStep` | src/z80_decode.c:169-191 | the table-driven evaluation returns the function all agreement lemmas are about |
| `Z80Decode.PrefIndStep` | src/z80_decode.c:221-232 | the same for a DD or FD prefix |
| `Z80Decode.PrefEdStep` | src/z80_decode.c:241-250 | the same for an ED prefix |
| `Rst8.TrapHandler.ArriveFromTrap` | src/pcw_rst8.c:65-175 | the whole state GDB finds, and whether the trap is reported |
| `Rst8.TrapHandler.LeaveToDebuggee` | src/pcw_rst8.c:195-273 | the whole state the program resumes in |
| `Rst8.TrapHandler.RetireBreakpoint` | src/pcw_rst8.c:135-160 | one entry leaves memory or, its RST 08 gone, the table; a hit is flagged |
| `Rst8.TrapHandler.RetireBreakpoints` | src/pcw_rst8.c:133-161 | the loop: all entries in order, and BREAK_HIT iff an entry left holds the trap address |
| `Rst8.TrapHandler.UndoTemporary` | src/pcw_rst8.c:82-121 | the temporary byte comes back before the waiting entry reads its own |
| `Rst8.TrapHandler.RestoreDeferred` | src/pcw_rst8.c:91-109 | the waiting entry is planted with the byte found now |
| `Rst8.TrapHandler.EndStep` | src/pcw_rst8.c:112-120 | STEP decides whether GDB is told; both it and the temporary address are cleared |
| `Rst8.FlagBits` | src/state.h:50-53 | the four flags are the bits 01h, 02h, 04h and 08h |
| `Rst8.TrapHandler.Latch` | src/pcw_rst8.c:166-175 | PC, SP and the six pushed words reach the register file |
| `Rst8.TrapHandler.PlantBreakpoint` | src/pcw_rst8.c:207-227 | one entry goes into memory or is left to wait |
| `Rst8.TrapHandler.PlantBreakpoints` | src/pcw_rst8.c:204-229 | the loop: all entries in order, RESTORE iff one holds PC, the last such one waiting |
| `Rst8.TrapHandler.PlantTemporary` | src/pcw_rst8.c:231-249 | armed at the forced or computed address, over a planted entry if need be, and FORCE_ADDRESS is cleared |
| `Rst8.TrapHandler.SaveFrame` | src/pcw_rst8.c:195-201 | the six words go back in the order they came |
| `Rst8.TrapHandler.SetResume` | src/pcw_rst8.c:252-271 | the return address, and Ctrl-C is listened to again |
| `Rst8.TrapHandler.Interrupt` | src/pcw_rst8.asm:258-289 | Ctrl-C plants a temporary breakpoint at the interrupted PC and asks for a step |
| `CommandProofs.InsertRefines` | src/server.c:368-399 | `Z` adds one occurrence to a bounded multiset of addresses, or is refused iff eight are held; saved bytes are untouched |
| `CommandProofs.RemoveRefines` | src/server.c:347-367 | `z` removes one occurrence, or is refused iff there is none; for address 0 it changes nothing and is refused iff eight are held |
| `CommandProofs.InsertThenRemove` | src/server.c:347-399 | `Z` then `z` gives the same multiset back |
| `CommandProofs.WriteBytesAt` | src/server.c:323-324 | `M` changes exactly the addressed bytes, wrapping at the top of memory |
| `CommandProofs.WriteThenRead` | src/server.c:282-327 | `m` of what `M` wrote answers with the same bytes in a packet that fits, and nothing else of the state changes |
| `CommandProofs.WritePacketParses` | src/server.c:305-327 | the text of an `M` packet means the address and data it was composed from |
| `CommandProofs.ReadPacketParses` | src/server.c:282-304 | the same for `m`, up to 62 bytes |
| `CommandProofs.BreakpointPacketParses` | src/server.c:328-347 | the same for `Z` and `z`, whatever the type digit |
| `CommandProofs.SetRegisterPacketParses` | src/server.c:257-281 | the same for `P` with one or two digits of number and four of value |
| `CommandProofs.RegistersComeBack` | src/server.c:242-256 | sending the text of `g` back with `G` is the identity on the state |
| `Parsing.WordsRoundTrip` | src/server.c:246-253 | any register file survives the text of its bytes |
| `Hex.NibbleIsPlace` | src/utils.c:6-11 | a character counts for its place in "0123456789ABCDEF" or in "0123456789abcdef", and for 0 if it is in neither |
| `Hex.HexByteValue` | src/utils.c:13-18 | two characters denote sixteen times the one place plus the other |
| `Hex.DigitsAreUpper` | src/utils.c:20-25 | a byte is written as the capital digits at its two places |
| `Hex.DigitsOfByte` | src/utils.c:6-25 | two digits denote the byte they were made of |
| `Hex.HexDataIs` | src/utils.c:28-36 | `from_hex` of digits in either case yields the bytes that they denote by their places |
| `Hex.HexTextDenotes` | src/utils.c:38-45 | the text of `to_hex` denotes the data |
| `Hex.HexRoundTrip` | src/utils.c:28-45 | `from_hex` inverts `to_hex`, wherever the text stands |
| `Hex.HexTextIsDigits` | src/utils.c:20-25 | `to_hex` emits hexadecimal digits only |
| `Hex.FromHexStrValue` | src/utils.c:64-79 | the padded, byte-swapped conversion yields the number that up to four digits, in either case, denote by their places |
| `Hex.FromHex` | src/utils.c:28-36 | decoding in place, source and destination overlapping, never overwrites unread digits |
| `Hex.ToHex` | src/utils.c:38-45 | the digits of all bytes, and nothing else of the buffer changes |
| `Framing.CompletesByShape` | src/server.c:431-486 | an input ending in `$`, a payload without `$` or `#`, `#` and two bytes completes a frame with that payload |
| `Framing.ShapeOfCompletes` | src/server.c:431-486 | and only such an input does |
| `Framing.OverflowsByShape` | src/server.c:431-493 | 127 payload bytes without an end overflow |
| `Framing.ShapeOfOverflows` | src/server.c:431-493 | and only those |
| `Framing.OutcomeIsFirst` | src/server.c:431-493 | the outcome is the first acceptance or overflow in the input, with no earlier one |
| `Framing.WrittenIsRead` | src/server.c:92-116 | a payload of at most 126 bytes, framed with checksum digits in either case, is delivered after any bytes without `$`, with no refusal on the way |
| `Framing.FrameFrames` | src/server.c:92-116 | what the writer sends is such a frame |
| `Framing.BadFrameIsRefused` | src/server.c:474-484 | a frame whose two last characters do not denote its sum is refused with one `-` and passed over |
| `Framing.LongOverruns` | src/server.c:431-493 | 127 bytes behind a `$`, before any mark, overflow before anything else happens |
| `Framing.SumIsTotal` | src/server.c:451-451 | the checksum is the sum of the bytes modulo 256 |
| `Framing.MarksAre` | src/server.c:434-481 | the special characters are `$`, `#`, `+` and `-` |
| `Framing.AcceptedFits` | src/server.c:431-493 | whatever is accepted has at most 126 bytes |
| `Framing.ReceivedHolds` | src/server.c:446-473 | the bytes stored one by one make the payload, with a NUL behind it |
| `Link.Port.ReadPacket` | src/server.c:422-494 | the byte-at-a-time reader returns that first outcome, consumes the input up to it, leaves the buffer that the input determines, and sends one `-` per bad checksum and `+` on acceptance |
| `Link.Port.Turn` | src/server.c:431-489 | one byte moves the scan one position on |
| `Link.Port.Receive` | src/server.c:434-488 | each state of the machine tracks the last `$`, the payload, its sum and the first digit |
| `Link.Port.WritePacketBytes` | src/server.c:92-116 | sends the frame of the data, or of the error reply if it does not fit |
| `Link.Port.FillFrame` | src/server.c:103-113 | the transmit buffer holds `$`, data, `#` and the digits of the sum |
| `Link.Port.Checksum` | src/server.c:110-112 | the sum of the bytes modulo 256 |
| `Link.Port.WriteRaw` | src/server.c:30-35 | sends the bytes in order |
| `Link.Port.WriteError` | src/server.c:139-162 | sends the error reply and puts a `$` behind the digits after the first `#`, or in the last byte |
| `Conversation.FramedIsHeard` | src/server.c:422-474 | a framed packet of at most 126 bytes is the next one acknowledged, with `+`, and its text stands in the buffer |
| `Conversation.FramedIsObeyed` | src/server.c:422-474 | and the conversation ends there if it resumes, and else goes on from the state in which it has been obeyed and answered |
| `Conversation.ConversationObeys` | src/server.c:422-494 | the conversation, a function of the state, the buffer and the input, leaves the state its commands make, of which only the last resumes; it reads forward and takes back nothing it sent |
| `Conversation.MemoryConversation` | src/server.c:282-327 | a host that sends `M` and then `m` of the same range, in digits of either case, is told OK and then exactly its bytes in capital hex |
| `HostPackets.ContinueEnds` | src/server.c:176-180 | a framed `c` ends the stop, and asks for nothing |
| `HostPackets.StepEnds` | src/server.c:189-194 | a framed `s` ends it with STEP set, and changes nothing else |
| `HostPackets.StepOverEnds` | src/server.c:195-202 | a framed `i` and a digit end it with STEP and FORCE_ADDRESS set and the temporary address that far behind the PC |
| `HostPackets.KillGoesOn` | src/server.c:181-188 | `k` is told OK, changes nothing and does not end the stop |
| `HostPackets.WhyGoesOn` | src/server.c:236-241 | `?` is told "T05thread:p01.01;" |
| `HostPackets.SupportedGoesOn` | src/server.c:225-232 | `qSupported` is told the packet size and the two transfers |
| `HostPackets.DescribeGoesOn` | src/server.c:205-223 | `qXfer:features:read` with anything behind it is told the target description |
| `HostPackets.LongGoesOn` | src/server.c:490-493 | a payload of 127 bytes is told E01 and changes nothing |
| `HostPackets.ErrorMarks` | src/server.c:144-156 | an error changes one byte of the buffer at most: to `$`, three behind the first `#`, or in the last byte if there is none or it comes too late for its digits |
| `HostPackets.BreakpointGoesOn` | src/server.c:328-402 | a framed `Z` adds one occurrence of its address and is told OK, or E01 if eight are held; `z` removes one, or is told E01 if there is none; nothing else changes |
| `HostPackets.QueryParses` | src/server.c:203-235 | which queries are answered, and that any other is an error |
| `HostPackets.OtherParses` | src/server.c:403-413 | any letter but the thirteen is an error |
| `HostPackets.ReadObeyedExactly` | src/server.c:287-298 | `m` is obeyed iff it has a comma and a count of at most 62 |
| `HostPackets.WriteObeyedExactly` | src/server.c:310-319 | `M` is obeyed iff it has a comma and a colon behind it |
| `HostPackets.BreakpointObeyedExactly` | src/server.c:333-345 | `Z` and `z` are obeyed iff there is a comma behind the type and another behind the address |
| `HostPackets.SetRegisterObeyedExactly` | src/server.c:257-272 | `P` is obeyed iff `=` stands behind one or two digits that denote at most 11 |
| `HostPackets.PacketTexts` | src/server.c:257-347 | the letters and separators of `M`, `m`, `Z`, `z`, `P` and `G` |
| `HostPackets.ReplyTexts` | src/server.c:139-167 | the replies are "OK", "E01" and the stop texts |
| `HostView.StopShowsCpu` | src/pcw_rst8.c:166-175 | at every reported stop GDB sees the CPU that trapped: SP two above the return address, PC on the RST 08, and HL, DE, BC, AF, IX and IY as pushed, each at its number on the wire |
| `HostView.NamesInOrder` | src/state.h:8-22 | `g` sends the registers in the order in which the target description names them |
| `HostView.StopReportTells` | src/pcw_rst8.c:183-187 | the stop report is "T05thread:p01.01;01:" and the digits of the PC, low byte first, the same as in `g` |
| `HostView.SpIsOwn` | src/pcw_rst8.c:167 | after a stop and any dialogue that leaves the registers alone SP is the program's own, so that a step needs no assumption on it |
| `HostView.WordsAsText` | src/server.c:246-247 | word by word, the text of `g` denotes the register file, low byte first |
| `HostView.GetGoesOn` | src/server.c:242-249 | a framed `g` is told the CPU's eight registers, the three mapped pages and 7 |
| `HostView.SetGoesOn` | src/server.c:257-281 | a framed `P` is told OK and sets the register it names, and nothing else |
| `HostView.SetRegisterShows` | src/server.c:276-280 | `g` then shows the value there and the old ones elsewhere |
| `HostView.SetRegistersShows` | src/server.c:250-256 | `G` sets all twelve words to what its digits denote, and `g` shows them |
| `HostView.ResumesWith` | src/pcw_rst8.c:195-201 | the program resumes with the registers GDB sees, SP apart, each popped from its place |
| `HostView.SetThenContinue` | src/pcw_rst8.c:195-201 | after `P` and `c` the program has the value in the register named, and the old ones in the others |
| `HostView.SetRegisterSwaps` | src/server.c:274-277 | `P` takes its digits high byte first: given the digits that `g` sends it exchanges the bytes, so it sets the same value iff they are equal |
| `Server.Server.HandleTrap` | src/pcw_rst8.c:65-273 | the trap reports the stop with its PC, and memory, registers, buffer, pages and output afterwards are exactly those of the conversation that the input determines, up to the resumption or to where the input ends; a silent trap says and hears nothing |
| `Server.Server.ServeUntilResume` | src/pcw_rst8.c:189-192 | the loop holds exactly that conversation |
| `Server.Server.TellGdb` | src/pcw_rst8.c:181-192 | the stop report comes first |
| `Server.Server.ServerReadData` | src/server.c:422-494 | the next packet of the input is obeyed and answered, a payload too long is refused with the state unchanged, or the input ends with the state unchanged |
| `Server.Server.ProcessPacket` | src/server.c:169-413 | the packet in the buffer is carried out as the command it parses to, with the reply that belongs to it and the buffer it leaves, and the result tells whether to resume |
| `Server.Server.ProcessQuery` | src/server.c:203-235 | `q`: the target description, the supported features if that is the whole packet, or an error |
| `Server.Server.ProcessSimple` | src/server.c:176-202 | `c`, `k`, `s`, `i`, `?` and unknown commands |
| `Server.Server.GetRegisters` | src/server.c:242-249 | `g` sends the register file after probing, which changes the slot registers only |
| `Server.Server.PutRegisters` | src/server.c:250-256 | `G` sets all twelve words |
| `Server.Server.PutRegister` | src/server.c:257-281 | `P` sets one word, or is refused without `=`, with a number of none or more than two digits, or above 11 |
| `Server.Server.ProcessReadMemory` | src/server.c:282-304 | `m` answers with memory, or is refused without a comma or above 62 bytes |
| `Server.Server.ProcessWriteMemory` | src/server.c:305-327 | `M` stores the decoded data through the receive buffer, the packet's own text if the count is 80h, or is refused without comma or colon |
| `Server.Server.WriteMemory` | src/server.c:323-325 | decoding onto the packet, with the number of digits modulo 256, and copying out |
| `Server.Server.ProcessBreakpoint` | src/server.c:328-402 | `Z` and `z` dispatch, or are refused without their commas |
| `Server.Server.AddBreakpoint` | src/server.c:370-398 | the first empty entry takes the address, or an error is sent |
| `Server.Server.DropBreakpoint` | src/server.c:349-367 | the first entry with the address is emptied, or an error is sent |
| `Banks.ProbeIsIdentityExactly` | src/server.c:521-571 | memory and all mappings are as before iff no page below a mapped one ends in the fingerprint, slots sharing a page included |
| `Banks.IdentityUpTo` | src/server.c:529-566 | the same after each slot |
| `Banks.FingerprintIs` | src/server.c:519-524 | the fingerprint is ">ZDBGF?<" at offset 3FE8h of a page |
| `Banks.BankedMemory.UpdateMappedPages` | src/server.c:521-571 | the slot registers name the pages mapped afterwards, the others are untouched, and memory and ports are the probed ones |
| `Banks.BankedMemory.ProbeSlot` | src/server.c:529-566 | fingerprint, search and write-back of one slot |
| `Banks.BankedMemory.FindPage` | src/server.c:541-560 | the search ends at the lowest page that shows the fingerprint, the mapped one at the latest |
| `Banks.BankedMemory.Matches` | src/server.c:546-549 | the eight bytes compared one by one |
| `Prl.PrlRoundTrip` | src/loader.asm:400-440 | from any two images that differ by one wherever they differ, building and loading yields the image with the load page added at exactly those bytes; the rest of memory is untouched |
| `Prl.LoadedIsLinked` | src/loader.asm:400-440 | loading what was built from a program linked at pages 0 and 1 yields it linked at the load page |
| `Prl.MakePrl` | tools/makeprl.c:119-161 | the file: padded header with the length in bytes 1 and 2, image, and a bitmap whose bit is set iff the images differ, zero-padded to a byte |
| `Prl.FileIs` | tools/makeprl.c:119-161 | such a file has 256 bytes of header, which tell the length low byte first, the image, and one bit per byte |
| `Prl.BitmapIs` | tools/makeprl.c:141-155 | the bit of byte `i` is the one of weight 128, 64, ... 1 in byte `i/8` of the bitmap, set iff the images differ there |
| `Prl.MostSignificantFirst` | tools/makeprl.c:52-57 | the bits of a byte of the bitmap go from 128 down to 1 |
| `Prl.WriteBitmap` | tools/makeprl.c:141-155 | one bit per byte compared, then seven zeros |
| `Prl.PadHeader` | tools/makeprl.c:119-126 | the header padded with zeros to 256 bytes |
| `Prl.PrlFile.AddBit` | tools/makeprl.c:50-66 | the bits handed in so far are in the file, eight to a byte from the most significant down, but for fewer than eight kept in hand |
| `Prl.PacksOneMore` | tools/makeprl.c:56-65 | eight bits packed through the moving mask land at bit 7 down to bit 0 |
| `Prl.RotatedShowsBit` | src/loader.asm:426-430 | rotating the map byte brings up its bits in that order |
| `Prl.BitCounter` | src/loader.asm:418-420 | the low bits of the code pointer count the bits of a map byte |
| `Prl.PageReloc` | src/loader.asm:400-440 | every marked byte of the copy has page minus 1 added, every other is copied, and nothing else changes, also where the load area overlaps the file from below |
| `Prl.NextMapByte` | src/loader.asm:418-425 | a new map byte is fetched just when the last is used up |
| `Prl.RelocateByte` | src/loader.asm:426-433 | one byte is relocated iff its bit is set |
| `Prl.Ldir` | src/loader.asm:470-479 | copies a block upwards, onto itself if the target begins below it |

## Left out

- Packets with a number field of more than four digits: the code writes outside its own variables. An `M` whose digits or whose data run past the receive buffer: the writes stay inside the buffer, because the number of digits is taken modulo 256, but what lies behind it is read and, for counts above 80h, copied (`Parsing.FieldsFit`). `Server` stops at such a packet (`OutsideModel`).
- Console output through BDOS, debug logging, and the serial device: the line is an input and an output byte sequence, and a read from an exhausted input is where the stub would block.
- Stack switching, interrupt enabling and the interrupt epilogue in src/pcw_rst8.asm; the rest of src/loader.asm; the RSX, Spectranet and module-call code.
- Flat memory and banked memory are separate models: `g` probes the banks, and leaves the 64K of the session alone, which `Banks.ProbeIsIdentityExactly` justifies when no lower page ends in the fingerprint.
- The bit that enables a memory bank is abstracted; a port holds a 7-bit page.
- What Z80 instructions compute: only where they go, and arbitrary stores. Block instructions that repeat count as run to completion and HALT as resumed. Interrupts, undocumented aliases of RETN and NEG, and redundant prefixes are outside the agreement theorem.
- SingleStep.StepStopsAtSuccessor: the instruction's stores are harmless in the sense of the session, and so are the writes of the return words.
- `from_hex` of an odd number of digits, which no caller asks for.
- Prl.PageReloc: the load area does not begin inside the image or the bitmap, where the upward copy would destroy what it still has to read, and the two words on the stack are outside both areas.
- Prl.LoadedIsLinked: images of 64K and more, whose length does not fit the header's two bytes, are built (`Prl.MakePrl`) but cannot be loaded.
- Limits.DuplicatesAtPc: the program stores nothing at the PC between the two stops, and no return word covers it.
- Limits.StaleExactly: the trap's return word does not cover the waiting address.
- Limits.InterruptedStopExactly: the trap's return word covers neither the forgotten temporary breakpoint nor the waiting address.
- Transparency.BreakpointIsHit: the trap's return word does not cover the breakpoint it comes from.
- With RST 08 at 0008h each trap executes itself from then on; the model says only that the stub is not entered (`Session.Possible`).
