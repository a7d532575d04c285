# Verification of the PRG32 console emulator's core

A Dafny model of the deterministic core of a console emulator: its RV32IMAC interpreter and the two ways of running
a frame, the tile, playfield and platform engine, the framed device protocol with its uploads, the performance
broker, and four smaller machines (PCM queue, multiplayer pacing, clock conversion, DNS names). `dafny verify
dfyconfig.toml` checks everything.

## How it is organised

Objects that update their fields are classes (`Cpu.Rv32Cpu`, `Trace.InstructionTrace`, `Console.Runtime`,
`IoStream.Connection`, `Upload.IoProtocolServer`, `Actors.Actor`, `Framebuffers.Framebuffer`, `Tiles.TileEngine`,
`Performance.PerformanceBroker`, `AudioQueue.AudioPort`, `AudioQueue.FirmwareAudio`, `Dns.PacketWriter`,
`Multiplayer.MultiplayerService`). Their methods follow the source statement by statement, and their postconditions
equate the new state with a specification function of the old one. The properties are lemmas about those functions.

- `Words`, `Isa`, `Clock`, `Semantics`: machine words, the instruction set as an assembler sees it, and what each
  instruction means. Words are bounded integers; wrap-around is written out.
- `Quotients`, `Division`, `Bitwise`, `Memory`: what that meaning amounts to: the laws of division, of every bit of the
  shifts and the logic, of comparison, and of loads after stores.
- `Rvc`, `Compression`, `Stepping`, `Programs`: the ISA's listing of compressed instructions (section 16.8 of the RISC-V
  Unprivileged ISA, version 20191213) and its inverse, the two decoders, one step, traps, confinement, and what a step
  does with an assembled instruction in memory.
- `Rows`, `Trace`, `Cpu`: the interpreter object and the field arithmetic that ties it to the semantics.
- `Frames`, `VirtualTime`, `LrSc`: whole frames against single steps, virtual time, and load-reserved and
  store-conditional over whole runs.
- `Cartridges`, `Console`, `Dispatch`: package validation, the runtime object, and the path from a package to a host
  call.
- `Crc`, `IoStream`, `Upload`: the checksum, the stream parser and encoder, the retransmitting upload.
- `Actors`, `Framebuffers`, `Tiles`, `CollisionMap`: collision, drawing, the dirty-cell cache, the wrapped playfield, and
  that actors collide with what is drawn.
- `Statistics`, `Performance`: nearest ranks and the broker's life cycle.
- `AudioQueue`, `Dns`, `Multiplayer`: the smaller machines.

Host calls are an arbitrary deterministic function of the machine that acts on the guest only through register writes
and bounded stores. Clocks, random jitter, parsed JSON, the mixer's output and what a C++ compiler makes of a shift by
32 or more are parameters.

## Behaviour that may surprise

Departures from the instruction set or from the repository's own documentation:

- C.JALR with x1 as its target register writes the link before it reads the target (`Stepping.LinkClobberExact`,
  `Stepping.LinkClobberDiffers`).
- A faulting C.LW or C.LWSP has already written its destination (`Stepping.TrapIsPrecise`,
  `Stepping.FaultingLoadLosesDestination`).
- `debugStep` is documented to advance exactly one instruction; a step that lands on a host call retires none
  (`VirtualTime.DebugStepRetires`).
- The loader is meant to refuse packages that wrap the address space, but its check leaves out the two pages behind
  guest memory, so it accepts packages whose ABI table the guest cannot read (`Dispatch.LoadedWithoutTable`,
  `Dispatch.TableWorksExactly`).
- Neither the loader nor the runtime keeps guest memory clear of the addresses of the host calls: the code of a package
  loaded there is taken for host calls (`Dispatch.CodeTakenForHostCalls`, `Dispatch.HostRangeApart`).
- The suite summary reports a least frame of 0 when the real one is the largest 32-bit value
  (`Performance.LeastFrameLost`).

## Model

| member | source | states |
|---|---|---|
| Isa.DecodeEncode | src/core/Rv32Cpu.cpp:133-493 | the decoder inverts the ISA's 32-bit encoding: every instruction an assembler can write decodes back to itself |
| Rvc.ListingEncodable | src/core/Rv32Cpu.cpp:502-645 | whatever 16 bits the interpreter meets, the listing gives an encodable 32-bit instruction, an illegal one, or a shift by 32 or more |
| Compression.CompressLists | src/core/Rv32Cpu.cpp:502-645 | compressing is undone by the decoder: the short form an assembler picks for an instruction is a 16-bit parcel that the interpreter takes for exactly that instruction |
| Compression.CompressExactly | src/core/Rv32Cpu.cpp:502-645 | the instructions with a short form are exactly those that some parcel stands for, apart from the reserved shifts |
| Programs.EncodedRuns | src/core/Rv32Cpu.cpp:96-133 | an encoded instruction in guest memory at the current address is the instruction that a step executes, four bytes long: fetch, length, byte order and decoder together |
| Programs.ParcelRuns | src/core/Rv32Cpu.cpp:96-122 | a parcel in guest memory at the current address is what a step executes |
| Programs.CompressedRuns | src/core/Rv32Cpu.cpp:96-122 | the short form of an instruction in memory does in two bytes what the instruction does, or traps where it traps, C.JALR x1 apart |
| Programs.StepCharges | src/core/Rv32Cpu.cpp:494-499 | a completed guest step advances the clock by the profile's cost of its instruction, compressed or not, in accurate mode, and by one cycle in the other modes |
| Programs.HostStepCharges | src/core/Rv32Cpu.cpp:85-105 | a host call charges for the arguments it was called with, in accurate mode only, and retires nothing |
| Programs.CounterReads | src/core/Rv32Cpu.cpp:456-493 | the two halves of a counter CSR make the whole counter: cycles, saturated nanoseconds or retired instructions, by counter and timing mode |
| Bitwise.ShiftBits | src/core/Rv32Cpu.cpp:283-353 | bit by bit: SLL, SRL and SRA move every bit by the low five bits of the second operand; zeros come in, or for SRA the sign |
| Bitwise.LogicBits | src/core/Rv32Cpu.cpp:275-359 | AND, OR and XOR, of the base set and atomic, work on each bit alone |
| Bitwise.SignedOrder | src/core/Rv32Cpu.cpp:266-271 | signed comparison is unsigned comparison with both sign bits flipped |
| Bitwise.BranchConditions | src/core/Rv32Cpu.cpp:178-211 | the six branch conditions are what set-less-than and subtraction say, and subtraction undoes addition |
| Bitwise.AtomicChoices | src/core/Rv32Cpu.cpp:398-441 | the atomic swap, sum, minima and maxima: each minimum and maximum picks one of its operands, in the order its name says |
| Memory.LoadAfterStore | src/core/Rv32Cpu.cpp:27-71 | a load gets back the low bytes stored at its address, zero- or sign-extended, and every other byte is as it was |
| Stepping.ExpansionPreservesMeaning | src/core/Rv32Cpu.cpp:502-652 | a compressed instruction has exactly the effect of the 32-bit path on its expansion, two bytes long: registers, memory, reservation, retired count, cycles, link and branch targets; when that path traps so does it, and only the destination of a faulting load differs |
| Stepping.LinkClobberExact | src/core/Rv32Cpu.cpp:628-631 | C.JALR x1 agrees with JALR if and only if the old x1 and the link address differ at most in bit 0, because the link is written before the target is read |
| Stepping.LinkClobberDiffers | src/core/Rv32Cpu.cpp:628-631 | a concrete machine, loaded at the usual address, on which the step of C.JALR x1 goes somewhere else than its expansion |
| Stepping.ReadableIsWritable | src/core/Rv32Cpu.cpp:32-71 | a word that can be loaded can be stored, so the store of an atomic never fails after its load, for any base but 0 and any memory under 2^32 bytes, hence for every loaded package |
| Stepping.ReadableIsWritableExactly | src/core/Rv32Cpu.cpp:32-71 | for memory up to the size of the address space that condition is exact |
| Stepping.StoredConfined | src/core/Rv32Cpu.cpp:44-71 | a store changes only the bytes of its width and the reservation |
| Stepping.ExecuteConfined | src/core/Rv32Cpu.cpp:133-500 | any instruction either completes, retiring once and changing at most the four bytes it addresses, or leaves the whole machine as it was |
| Stepping.TrapIsPrecise | src/core/Rv32Cpu.cpp:96-123 | a failing step of any kind leaves registers, memory, pc, reservation, retired count and clock exactly as they were, except that a faulting compressed load has already written its destination; precise if and only if there is no such load or its write makes no difference |
| Stepping.FaultingLoadLosesDestination | src/core/Rv32Cpu.cpp:521-526 | a concrete C.LW that faults and leaves its destination register changed |
| Stepping.GuestStepConfined | src/core/Rv32Cpu.cpp:96-123 | a completed guest instruction retires exactly one instruction, keeps settings and memory size, and changes at most the four addressed bytes |
| LrSc.MoveReservation | src/core/Rv32Cpu.cpp:364-452 | what each step or resumption does to the reservation: LR.W takes it, stores, SC.W and host stores drop it, everything else keeps it and memory; between steps the host side may change its own state |
| LrSc.RunIsHistory | src/core/Rv32Cpu.cpp:364-452 | every run of instructions, host calls and resumptions from a reset, whatever the host side does with its own state in between, is such a history of links, breaks and neutral moves |
| LrSc.ReservationIsHistory | src/core/Rv32Cpu.cpp:378-397 | over any history from a reset, the reservation is held for an address if and only if an LR.W at it ran, is the most recent one, and no store or SC.W ran since; memory is unchanged since then |
| LrSc.StoreConditional | src/core/Rv32Cpu.cpp:388-397 | in any run SC.W stores and returns 0 exactly when its LR.W is still linked, and then the word is what that LR.W read; otherwise it returns 1 and stores nothing; no reservation survives it; this covers every loaded package |
| Frames.StepKeepsSettings | src/core/Rv32Cpu.cpp:96-123 | no step changes the base, the memory size, the timing mode or the input word |
| Frames.InterpreterKeepsInput | src/core/Rv32Cpu.cpp:96-123 | the interpreter meets the one condition the run loop's theorems put on a step |
| Frames.DebugStepOnTrack | src/core/Runtime.cpp:218-243 | one debugger step along a frame moves to the next point of the same frame, or ends it with the same outcome |
| Frames.ResumeOnTrack | src/core/Runtime.cpp:189-201 | resuming from any point along a frame reaches the frame's outcome within the resume budget |
| Frames.StepwiseIsWholeFrame | src/core/Runtime.cpp:186-243 | any number of debugger steps that leave a frame unfinished, then the rest of it, ends in the same session as the whole frame, or in the same trap in the same machine; after a trap only the phase differs, idle for the whole frame and not for the stepped one |
| VirtualTime.CallRetiresWithinBudget | src/core/Rv32Cpu.cpp:72-84 | a call retires at most its budget of instructions, whether it returns, traps or exhausts that budget, and keeps the machine's settings |
| VirtualTime.TrapRetiresNothing | src/core/Rv32Cpu.cpp:96-123 | a trapped step retires nothing |
| VirtualTime.DebugStepRetires | src/core/Runtime.cpp:218-243 | a completed debugger step retires one instruction if and only if it does not land on a host call, which retires none |
| VirtualTime.CyclesAreRetired | src/core/Rv32Cpu.cpp:494-498 | outside accurate mode virtual cycles equal retired instructions after any sequence of calls, frames and single steps, failed ones included, with any change of the host side's own state in between |
| VirtualTime.FrameAdvances | src/core/Runtime.cpp:210-215 | a frame in accurate mode ends at its boundary or at the end of its work, whichever is later, and counts itself late exactly in the second case |
| VirtualTime.FramesKeepTime | src/core/Runtime.cpp:210-215 | after n frames from a load, with any change of the host side's own state between them, the clock is at or past n periods, the next boundary is n + 1 periods, and the late counter equals the number of frames whose work passed their boundary |
| Clock.NanosecondsExact | src/core/PerformanceTiming.cpp:8-18 | nanoseconds are floor(cycles * 25 / 4) saturated at the largest 64-bit value |
| Clock.NanosecondsMonotone | src/core/PerformanceTiming.cpp:8-18 | virtual time never runs backward |
| Clock.ChargesByArea | src/core/PerformanceTiming.cpp:52-90 | drawing calls are charged by area: clears, tiles and tile screens like rectangles of their size, blits by area at their own rate |
| Clock.ChargesBounded | src/core/PerformanceTiming.cpp:52-94 | every call costs at least the base charge and less than a frame, and only drawing and audio cost more than the base |
| Division.DivRemLaw | src/core/Rv32Cpu.cpp:314-327 | DIV and REM satisfy the ISA's law of section 7.2: quotient rounded toward zero, remainder with the dividend's sign, with both exceptional cases |
| Division.DivuRemuLaw | src/core/Rv32Cpu.cpp:320-330 | DIVU and REMU satisfy the unsigned law, division by zero included |
| Division.MulhLaw | src/core/Rv32Cpu.cpp:302-307 | MUL and MULH together are the signed 64-bit product |
| Division.MulhsuLaw | src/core/Rv32Cpu.cpp:302-310 | MUL and MULHSU together are the signed-by-unsigned product |
| Division.MulhuLaw | src/core/Rv32Cpu.cpp:302-313 | MUL and MULHU together are the unsigned product |
| Rows.RawAddi4spnIs | src/core/Rv32Cpu.cpp:514-515 | the interpreter's shifts and masks for the C.ADDI4SPN immediate equal the ISA's bit table, for every 16-bit word |
| Rows.RawLwIs | src/core/Rv32Cpu.cpp:523-529 | the interpreter's shifts and masks for the C.LW and C.SW immediate equal the ISA's bit table, for every 16-bit word |
| Rows.Raw6Is | src/core/Rv32Cpu.cpp:540-540 | the interpreter's shifts and masks for the six-bit immediate equal the ISA's bit table, for every 16-bit word |
| Rows.RawJumpIs | src/core/Rv32Cpu.cpp:544-549 | the interpreter's shifts and masks for the C.J and C.JAL immediate equal the ISA's bit table, for every 16-bit word |
| Rows.RawLuiIs | src/core/Rv32Cpu.cpp:554-560 | the interpreter's shifts and masks for the C.LUI immediate equal the ISA's bit table, for every 16-bit word |
| Rows.RawAddi16spIs | src/core/Rv32Cpu.cpp:556-558 | the interpreter's shifts and masks for the C.ADDI16SP immediate equal the ISA's bit table, for every 16-bit word |
| Rows.RawBranchIs | src/core/Rv32Cpu.cpp:591-596 | the interpreter's shifts and masks for the C.BEQZ and C.BNEZ immediate equal the ISA's bit table, for every 16-bit word |
| Rows.RawLwspIs | src/core/Rv32Cpu.cpp:611-611 | the interpreter's shifts and masks for the C.LWSP immediate equal the ISA's bit table, for every 16-bit word |
| Rows.RawSwspIs | src/core/Rv32Cpu.cpp:637-637 | the interpreter's shifts and masks for the C.SWSP immediate equal the ISA's bit table, for every 16-bit word |
| Cpu.Rv32Cpu.Load8 | src/core/Rv32Cpu.cpp:27-31 | reads the byte the specification reads, and reports whether the address is mapped |
| Cpu.Rv32Cpu.Load16 | src/core/Rv32Cpu.cpp:32-37 | two byte loads make the halfword, also where the address wraps |
| Cpu.Rv32Cpu.Load32 | src/core/Rv32Cpu.cpp:38-43 | two halfword loads make the word, also where the address wraps |
| Cpu.Rv32Cpu.Store8 | src/core/Rv32Cpu.cpp:44-51 | stores the low byte and drops the reservation, or changes nothing |
| Cpu.Rv32Cpu.Store16 | src/core/Rv32Cpu.cpp:52-60 | stores both bytes or neither |
| Cpu.Rv32Cpu.Store32 | src/core/Rv32Cpu.cpp:61-71 | stores all four bytes or none |
| Cpu.Rv32Cpu.SetReg | src/core/Rv32Cpu.h:47-50 | a register write that leaves x0 zero |
| Cpu.Rv32Cpu.Retire | src/core/Rv32Cpu.cpp:494-499 | the common end of both decoders: next address, one more retired, the charge of the timing class |
| Cpu.Rv32Cpu.Exec16Quadrant0 | src/core/Rv32Cpu.cpp:511-536 | the first quadrant, in the source's statements, has exactly the effect the specification gives |
| Cpu.Rv32Cpu.Exec16Quadrant1 | src/core/Rv32Cpu.cpp:537-602 | the second quadrant likewise |
| Cpu.Rv32Cpu.Exec16Arithmetic | src/core/Rv32Cpu.cpp:561-589 | the arithmetic group of the second quadrant likewise |
| Cpu.Rv32Cpu.Exec16Quadrant2 | src/core/Rv32Cpu.cpp:603-645 | the third quadrant likewise, C.JALR x1 and the early write of C.LWSP included |
| Cpu.Rv32Cpu.Exec16 | src/core/Rv32Cpu.cpp:502-652 | the compressed decoder leaves exactly the machine or trap the specification gives |
| Cpu.Rv32Cpu.ExecBranch | src/core/Rv32Cpu.cpp:174-213 | the branch cases choose the specified next address and timing class |
| Cpu.Rv32Cpu.ExecLoad | src/core/Rv32Cpu.cpp:214-239 | the load cases load, extend and write what is specified |
| Cpu.Rv32Cpu.ExecStore | src/core/Rv32Cpu.cpp:240-260 | the store cases store what is specified |
| Cpu.Rv32Cpu.ExecOpImm | src/core/Rv32Cpu.cpp:261-296 | the immediate cases compute what is specified |
| Cpu.Rv32Cpu.ExecMulDiv | src/core/Rv32Cpu.cpp:299-331 | the M-extension cases compute what is specified |
| Cpu.Rv32Cpu.ExecOp | src/core/Rv32Cpu.cpp:297-363 | the register cases compute what is specified |
| Cpu.Rv32Cpu.ExecAtomic | src/core/Rv32Cpu.cpp:364-452 | the atomic cases load, check, store and write in the source's order with the specified effect |
| Cpu.Rv32Cpu.ExecSc | src/core/Rv32Cpu.cpp:388-397 | SC.W stores if the reservation is held, reports, and drops the reservation either way |
| Cpu.Rv32Cpu.ExecSystem | src/core/Rv32Cpu.cpp:456-489 | ECALL returns from the call; the counter CSRs read the specified counter halves |
| Cpu.Rv32Cpu.CounterFor | src/core/Rv32Cpu.cpp:467-474 | only accurate mode has a cycle and a nanosecond clock; otherwise all counters are retired instructions |
| Cpu.Rv32Cpu.Exec32 | src/core/Rv32Cpu.cpp:133-500 | the 32-bit decoder leaves exactly the machine or trap the specification gives |
| Cpu.Rv32Cpu.HostCall | src/core/Rv32Cpu.cpp:97-104 | a host call applies the callback's register writes and stores in order, then charges its time |
| Cpu.Rv32Cpu.ChargeAbi | src/core/Rv32Cpu.cpp:19-22 | the charge of a host call, in accurate mode only |
| Cpu.Rv32Cpu.Step | src/core/Rv32Cpu.cpp:96-123 | one step of the object is one step of the specification, and records exactly the addresses it fetches from |
| Cpu.Rv32Cpu.Reset | src/core/Rv32Cpu.cpp:7-18 | a reset attaches memory by reference, clears registers, counters, reservation flag and trace, and keeps the timing mode |
| Cpu.Rv32Cpu.BeginCall | src/core/Rv32Cpu.cpp:85-95 | prepares entry, return sentinel, argument and a 16-byte aligned stack top |
| Cpu.Rv32Cpu.Call | src/core/Rv32Cpu.cpp:72-84 | the budgeted loop ends as the specification's run of a call ends |
| Cpu.Rv32Cpu.AdvanceClockTo | src/core/Rv32Cpu.h:96-99 | the clock moves forward to a boundary, never back, and only in accurate mode |
| Trace.InstructionTrace.Record | src/core/Rv32Cpu.cpp:107-110 | the ring holds the newest 64 addresses of everything recorded |
| Trace.InstructionTrace.Recent | src/core/Rv32Cpu.cpp:124-132 | reading the ring gives the last min(64, n) recorded addresses, oldest first |
| Cartridges.Parse | src/core/Cartridge.cpp:32-93 | a package is accepted if and only if every header check, the payload CRC and the audio block checks hold, with fields, payload and block at their offsets; each refusal names exactly the first check that fails |
| Cartridges.PlacedExactly | src/core/Cartridge.cpp:53-58 | the loader's address-space check does not count the table and scratch pages: an accepted package fits whole exactly when the check with those pages added holds |
| Cartridges.PackReadsBack | src/core/Cartridge.cpp:32-92 | packing a cartridge and reading the package gives back every field, the extension, the payload and the audio block, and the checksum test says what it should |
| Cartridges.HeaderReadsBack | src/core/Cartridge.cpp:32-38 | the fixed header is read back field by field, whatever follows it |
| Cartridges.LayoutExactly | src/core/Runtime.cpp:146-151 | the layout in bytes: guest area, ABI page and scratch page of every package |
| Console.WriteAbiTable | src/core/Runtime.cpp:171-182 | the table is written byte by byte at its offset and nothing else changes |
| Console.NewImage | src/core/Runtime.cpp:146-157 | guest memory after a load is the payload, the table on its page and zeros |
| Console.Runtime.Load | src/core/Runtime.cpp:123-170 | a load succeeds exactly for portable packages with a known hash and provided features, and leaves a reset machine over the image, an idle frame and the first boundary one period away |
| Console.Runtime.Init | src/core/Runtime.cpp:183-185 | initialisation runs the init entry with the table's address |
| Console.Runtime.DebugStep | src/core/Runtime.cpp:218-243 | the object's debugger step is the specified one, with the phase, boundary and late count it leaves behind, traps included |
| Console.Runtime.Frame | src/core/Runtime.cpp:186-217 | the object's frame, whole or resumed, is the specified one, with the run-loop state it leaves behind, traps and exhausted budgets included |
| Console.Runtime.EndFrame | src/core/Runtime.cpp:210-215 | the end of a frame counts lateness and moves the clock to the boundary |
| Console.Runtime.SetPerformanceMode | src/core/Runtime.h:169-173 | a mode change restarts the frame grid at the current cycle count |
| Dispatch.RegionsDisjoint | src/core/Runtime.cpp:146-170 | payload, ABI table and scratch page lie apart in order, hold what a load puts there, and the rest is zero |
| Dispatch.StackTopsScratch | src/core/Runtime.cpp:149-151 | every call starts with its stack pointer at the end of the scratch page, so the stack shares that page |
| Dispatch.LoadedIsSized | src/core/Runtime.cpp:146-147 | every loaded package meets the condition of precise traps and exact store-conditionals, as its base is never 0 |
| Dispatch.EntriesPlayable | src/core/Cartridge.cpp:53-63 | every entry point of an accepted package lies in its payload, never at the return sentinel |
| Dispatch.SteppingIsPlaying | src/core/Runtime.cpp:186-243 | for every accepted package, single-stepping part of a frame and then finishing it is the whole frame |
| Dispatch.TableWorksExactly | src/core/Runtime.cpp:171-182 | the guest can read every table word, word k being the address of host call k, if and only if the table ends within the address space |
| Dispatch.LoadedWithoutTable | src/core/Cartridge.cpp:53-58 | a package that the loader accepts and the runtime loads, on whose machine the guest can never read its whole table |
| Dispatch.LoadableExactly | src/core/Runtime.cpp:123-142 | the runtime takes a package if and only if it is flagged portable, imports by ABI table, names one of five known ABIs and asks only for the seven provided features |
| Dispatch.LoadedMemory | src/core/Runtime.cpp:146-170 | a load leaves the ABI table intact, and each entry point the runtime calls at the payload byte that the header names |
| Dispatch.GuestFindsTable | src/core/Runtime.cpp:171-209 | whenever a call begins while the table is intact and inside the address space, a0 holds the address at which the guest reads its magic, version, size, length, hash and features, and every host address in order |
| Dispatch.LoadedGuestFindsTable | src/core/Runtime.cpp:144-209 | so it is for every call right after a load, initialisation, update and draw |
| Dispatch.UpdateBegins | src/core/Runtime.cpp:203-226 | a frame, whole or stepped, starts with the call of the update entry with the table's address |
| Dispatch.DrawBegins | src/core/Runtime.cpp:227-243 | the debugger step that returns from the update leaves the machine at the start of the draw call with the table's address |
| Dispatch.LoadedFramesKeepTime | src/core/Runtime.cpp:146-215 | from the load of any package in accurate mode the frames keep time: clock, boundary and late counter after n frames are what the grid says |
| Dispatch.LoadedCyclesAreRetired | src/core/Runtime.cpp:146-170 | in the other modes virtual cycles are retired instructions from the load of any package on, whatever is run |
| Dispatch.HostRangeApart | src/core/Rv32Cpu.cpp:96-105 | no address of guest memory is taken for a host call if and only if that memory is clear of the host addresses |
| Dispatch.UnalignedHostFaults | src/core/Rv32Cpu.cpp:96-108 | an unaligned address in the host range is no host call: outside guest memory the fetch from it faults |
| Stepping.HostAddressesExactly | src/core/Rv32Cpu.cpp:96-105 | the host range is exactly the addresses four bytes apart from its base up to its end, and each names its own call |
| Dispatch.CodeTakenForHostCalls | src/core/Rv32Cpu.cpp:96-105 | a package that the loader accepts and the runtime loads, whose three entries run host calls 0, 1 and 2 instead of its code |
| Dispatch.TableWordDispatches | src/core/Rv32Cpu.cpp:96-105 | whenever the table lies within the address space, jumping through table word k runs host call k once, resumes at ra and retires no instruction |
| Crc.CartridgeCrc32 | src/core/Cartridge.cpp:11-19 | the loader's nested loops compute the CRC-32 of RFC 1952 |
| Crc.ProtocolCrc32 | src/qt/IoProtocolServer.cpp:40-48 | the protocol server's variant computes the same function |
| Crc.MaskedBit | src/core/Cartridge.cpp:15-16 | subtracting the low bit from zero makes the feedback mask |
| Crc.NegatedBit | src/qt/IoProtocolServer.cpp:44-45 | negating the low bit as a signed number makes the same mask |
| Crc.DigitsAreBits | src/core/Cartridge.cpp:11-22 | the eight binary digits of a byte, as the model feeds them, are the byte |
| Crc.CheckValue | src/core/Cartridge.cpp:11-22 | the checksum of the digits 1 to 9 is 0xcbf43926, as the standard and the repository's tests say |
| Crc.Residue | src/core/Cartridge.cpp:11-22 | anything followed by its own checksum has the residue of the standard as its checksum |
| Crc.BitStepsInjective | src/core/Cartridge.cpp:15-16 | no number of bit steps maps two registers to one |
| Crc.RegisterIsBits | src/core/Cartridge.cpp:13-17 | the register depends only on the bits sent, least significant first in each byte |
| Crc.BurstIsOneXor | src/core/Cartridge.cpp:13-17 | up to 32 bits fed in one by one are one 32-bit exclusive or followed by plain bit steps |
| Crc.BurstDetected | src/core/Cartridge.cpp:11-19 | byte strings that differ only within 32 consecutive bits have different CRCs, wherever the burst starts and whatever bytes it straddles |
| Crc.LocalDamageDetected | src/core/Cartridge.cpp:11-19 | in particular strings of equal length that differ only inside four consecutive bytes |
| IoStream.Connection.Process | src/qt/IoProtocolServer.cpp:131-164 | the buffer-eating loop delivers and keeps exactly what the specification parses |
| IoStream.Connection.Receive | src/qt/IoProtocolServer.cpp:131-164 | so does each arriving packet, appended to what was kept |
| IoStream.SplitAnywhere | src/qt/IoProtocolServer.cpp:131-164 | parsing what one packet left together with the next is parsing both at once, wherever the cut falls |
| IoStream.PacketBoundariesDoNotMatter | src/qt/IoProtocolServer.cpp:131-164 | any two ways of cutting the same bytes into packets deliver the same messages and keep the same bytes |
| IoStream.RestIsShort | src/qt/IoProtocolServer.cpp:131-164 | the bytes kept are always fewer than a maximal frame |
| IoStream.Send | src/qt/IoProtocolServer.cpp:400-413 | the encoder fills a fresh buffer with the specified frame |
| IoStream.DecodeEncodedAll | src/qt/IoProtocolServer.cpp:400-413 | encoding any list of messages and parsing the bytes gives exactly that list and no rest |
| IoStream.RoundTrip | src/qt/IoProtocolServer.cpp:131-164 | the same after any noise without the magic, in any packets |
| IoStream.RoundTripPastFalseHeaders | src/qt/IoProtocolServer.cpp:131-168 | the same after noise that does contain the magic, as long as each such header names another version or too long a payload: resynchronisation skips no byte too many |
| IoStream.DamageIsRefused | src/qt/IoProtocolServer.cpp:158-161 | a payload damaged by any burst of up to 32 bits is refused and the frames after it are still parsed |
| IoStream.WindowIsDamage | src/qt/IoProtocolServer.cpp:158-161 | damage inside any window of four bytes is such a burst |
| Upload.IoProtocolServer.HandleBegin | src/qt/IoProtocolServer.cpp:185-215 | UPLOAD_BEGIN starts an upload exactly for valid metadata |
| Upload.IoProtocolServer.HandleData | src/qt/IoProtocolServer.cpp:216-250 | UPLOAD_DATA appends, acknowledges a resend, or refuses |
| Upload.IoProtocolServer.HandleEnd | src/qt/IoProtocolServer.cpp:251-295 | UPLOAD_END ends the upload, stores exactly when length, checksum and controller agree, and reports failure also when the stored slot then cannot be started as asked |
| Upload.IoProtocolServer.AbandonUpload | src/qt/IoProtocolServer.cpp:114-127 | a disconnection or ten silent seconds drop an upload that is under way and keep the slots |
| Upload.BufferStaysBounded | src/qt/IoProtocolServer.cpp:216-238 | whatever a sender does, the buffer never exceeds the declared size |
| Upload.BeginExactly | src/qt/IoProtocolServer.cpp:185-215 | UPLOAD_BEGIN is accepted if and only if its numbers are whole and in range, and then starts an empty upload of exactly those |
| Upload.DataExactly | src/qt/IoProtocolServer.cpp:216-250 | for any server and payload: the buffer changes only if the chunk starts at its end and then grows by exactly its data; each refusal holds exactly under its condition |
| Upload.AppendedChunksStay | src/qt/IoProtocolServer.cpp:216-250 | every appended chunk is found in the buffer at its own offset, whatever arrives, until the next accepted UPLOAD_BEGIN or an abandonment |
| Upload.ChunkAcknowledged | src/qt/IoProtocolServer.cpp:228-250 | the pending chunk is always acknowledged with the same total, and a resend changes nothing |
| Upload.BeginMakesConsistent | src/qt/IoProtocolServer.cpp:185-215 | an UPLOAD_BEGIN makes sender and server consistent whatever the server held: the file of an earlier upload, or another upload under way |
| Upload.ExchangeKeepsConsistent | src/qt/IoProtocolServer.cpp:185-295 | from then on every event, with request or reply lost, a sender that gives up and starts over, UPLOAD_END or an abandonment, keeps them consistent; all but the last two also keep the upload on its way |
| Upload.AbandonmentLeavesTransit | src/qt/IoProtocolServer.cpp:389-398 | an abandonment while a chunk is pending takes the upload off its way: the resend is refused |
| Upload.ReceivedIsPrefix | src/qt/IoProtocolServer.cpp:185-295 | over any run with any losses, restarts and abandonments, on a server in any state: once an UPLOAD_BEGIN was handled the server holds a prefix of the file, before that the slots are untouched; the slots hold what they held or the file, and a sender told of success is right |
| Upload.StoredStaysStored | src/qt/IoProtocolServer.cpp:251-265 | over any such run, once the file is stored it stays stored |
| Upload.TransitLasts | src/qt/IoProtocolServer.cpp:216-250 | over any such run, from a handled UPLOAD_BEGIN to an abandonment or a handled UPLOAD_END every chunk, first sent or resent, is acknowledged with the sender's own position, and no slot changes |
| Upload.OnlyBeginRevives | src/qt/IoProtocolServer.cpp:185-255 | over any such run, after an abandonment every resend is refused and nothing changes until an UPLOAD_BEGIN reaches the server |
| Upload.EndStoresFile | src/qt/IoProtocolServer.cpp:251-265 | in transit UPLOAD_END stores the whole file, and reports success unless its slot cannot be started as asked |
| Upload.EndCannotBeResent | src/qt/IoProtocolServer.cpp:251-295 | a second UPLOAD_END after a lost reply is refused although the file is stored |
| Actors.SamplingIsExact | src/core/Runtime.cpp:531-545 | sampling a box every eight pixels and at both far edges sees a flag if and only if some pixel of the box lies on it |
| Actors.ActorFlagsOverlapping | src/core/Runtime.cpp:531-545 | the loops compute the union of the flags of all samples |
| Actors.ActorHitsPlatformFloor | src/core/Runtime.cpp:546-559 | true exactly when the bottom edge has just crossed from above into a platform tile |
| Actors.Actor.MoveX | src/core/Runtime.cpp:572-582 | the horizontal loop walks to the first blocked pixel, with the specified hit and pickup bits |
| Actors.Actor.MoveY | src/core/Runtime.cpp:583-593 | the vertical loop likewise, one-way floors included |
| Actors.Actor.Move | src/core/Runtime.cpp:568-598 | the whole move: both walks, velocities, and the state word as a set of events |
| Actors.WalkIsMaximal | src/core/Runtime.cpp:568-598 | a walk stops early exactly because the very next position is blocked, and passes no blocked position |
| Actors.MotionIsSafe | src/core/Runtime.cpp:568-598 | from a box free of SOLID pixels the actor ends in one, moves at most the requested distance in the requested direction, and stops short exactly where the next pixel is refused |
| Actors.NeverFallsThroughPlatform | src/core/Runtime.cpp:546-598 | however fast it falls, an actor never brings its bottom edge to a platform row that was below it |
| Actors.LandsOnTileTops | src/core/Runtime.cpp:546-559 | falling by a pixel is stopped by a platform if and only if the bottom edge reaches the top row of a platform tile, or any row above the map |
| Actors.OnlySolidsStopRising | src/core/Runtime.cpp:568-593 | nothing but solid tiles stops a walk to the side or up |
| CollisionMap.CollidesWithWhatIsDrawn | src/core/Runtime.cpp:112-119 | the map that actors meet is the map that the playfield draws, and tile 0 outside it |
| CollisionMap.PutChangesItsCell | src/core/Runtime.cpp:112-119 | putting a tile changes what actors meet at exactly the 64 pixels of its cell, on its layer |
| Framebuffers.Framebuffer.FindNearest | src/core/Framebuffer.cpp:16-30 | the scan finds the first palette entry at the least squared distance, early exit included |
| Framebuffers.NearestUnique | src/core/Framebuffer.cpp:16-30 | there is only one such entry |
| Framebuffers.DistanceOfChannels | src/core/Framebuffer.cpp:16-21 | the distance of two colours is the sum of the squared differences of their three channels |
| Framebuffers.DefaultPaletteScales | src/core/Framebuffer.cpp:8-15 | the default palette's channels are those of the RGB332 index on the longer scales, rounded down |
| Framebuffers.NearestIsExact | src/core/Framebuffer.cpp:16-31 | every colour of the default palette is nearest to its own entry |
| Framebuffers.RowShows | src/core/Framebuffer.cpp:86-95 | a byte of a bitmap shows the eight pixels it was made from, left to right |
| Framebuffers.ScreenIsTheBuffer | src/core/Framebuffer.cpp:7-7 | the pixels that the drawing contracts speak of are all 320 by 200 of the buffer |
| Framebuffers.Framebuffer.RectIndexed | src/core/Framebuffer.cpp:47-60 | a clipped rectangle fills exactly its on-screen pixels |
| Framebuffers.Framebuffer.PixelIndexed | src/core/Framebuffer.cpp:40-43 | a pixel outside the screen changes nothing |
| Framebuffers.Framebuffer.Draw1BPP | src/core/Framebuffer.cpp:82-96 | a bitmap of any size draws its set bits, and its clear bits where there is a background, clipped to the screen and ending where the bitmap is too short |
| Tiles.TileEngine.DrawTile | src/core/Runtime.cpp:82-90 | a tile shows its foreground or background at each of its on-screen pixels |
| Tiles.TileEngine.TileClear | src/core/Runtime.cpp:1117-1123 | keeps the dirty-cell cache coherent while every cell becomes tile 0 |
| Tiles.TileEngine.TileDefine | src/core/Runtime.cpp:1124-1138 | keeps it coherent while a tile's picture changes under the cells that show it |
| Tiles.TileEngine.TilePut | src/core/Runtime.cpp:1139-1147 | keeps it coherent, marking exactly a changed cell |
| Tiles.TileEngine.TilePresent | src/core/Runtime.cpp:1148-1158 | repainting only dirty cells leaves the screen that repainting all 1000 cells would |
| Tiles.TileEngine.constructor | src/core/Runtime.h:220-228 | a fresh runtime's black screen is coherent with its blank tiles |
| Tiles.WrapIsModulo | src/core/Runtime.cpp:100-108 | the C++ remainder with its correction is the mathematical modulus |
| Tiles.FloorByEight | src/core/Runtime.cpp:96-97 | the hand-written division rounds down |
| Tiles.OriginIsTruncated | src/core/Runtime.cpp:94-95 | the camera's share of a layer's origin is rounded toward its scroll, whole at 256, nothing at 0, and the same to both sides |
| Tiles.MapRepeats | src/core/Runtime.cpp:100-107 | the drawn map repeats every 512 pixels across and 256 down, on both sides of its origin |
| Tiles.TileEngine.DrawPlayfield | src/core/Runtime.cpp:91-111 | the scrolling tile loops draw, at every pixel, the wrapped map's tile under it, partly clipped edge tiles included |
| Tiles.TileEngine.DrawPlayfields | src/core/Runtime.cpp:1221-1224 | after drawing both layers every pixel shows the front layer's tile where it is not 0 and the back layer's otherwise |
| Statistics.PercentileIsNearestRank | src/core/Runtime.cpp:726-728 | each percentile is the nearest rank: at least n percent of the samples are at most it, fewer than n percent below it |
| Statistics.StatisticsOrdered | src/core/Runtime.cpp:733-738 | least <= p50 <= p95 <= p99 <= greatest, and the mean lies between least and greatest |
| Performance.PerformanceBroker.BeginSuite | src/core/Runtime.cpp:662-677 | starts a suite exactly when none is running |
| Performance.PerformanceBroker.BeginCase | src/core/Runtime.cpp:678-694 | opens a case exactly when a suite runs, none is open, fewer than 12 exist and the limit is in range |
| Performance.PerformanceBroker.Record | src/core/Runtime.cpp:695-714 | adds one sample to the open case, its total defaulting to the 32-bit sum |
| Performance.PerformanceBroker.EndCase | src/core/Runtime.cpp:715-745 | closes a case with the statistics of exactly its samples, or drops an empty one |
| Performance.PerformanceBroker.Close | src/core/Runtime.cpp:724-742 | computes those statistics from the sorted samples |
| Performance.PerformanceBroker.EndSuite | src/core/Runtime.cpp:746-752 | completes a suite with no open case |
| Performance.PerformanceBroker.Abort | src/core/Runtime.cpp:753-760 | aborts a running suite |
| Performance.PerformanceBroker.Summarise | src/core/Runtime.cpp:771-812 | the loop over the cases computes the totals, least, greatest, means, rate and screen count over all samples of the suite |
| Performance.FinishedCase | src/core/Runtime.cpp:715-745 | every finished case is ordered, has exact nearest ranks, and starts where the one before it ended |
| Performance.SummaryMeanInRange | src/core/Runtime.cpp:785-810 | the suite's mean lies between its least and greatest sample |
| Performance.RateExactly | src/core/Runtime.cpp:803-803 | the rate is the quotient it should be while it fits 32 bits, and that of equally long frames does not depend on their number |
| Performance.LeastFrameLost | src/core/Runtime.cpp:804-804 | a suite whose one frame took 2^32 - 1 microseconds reports a least frame of 0 |
| AudioQueue.AudioPort.Push | src/core/firmware_audio/audio_port.c:45-58 | the queue holds the newest frames since the last clear, in order, and pushed = queued + dropped + cleared |
| AudioQueue.AudioPort.Step | src/core/firmware_audio/audio_port.c:61-81 | one step pushes exactly one 20 ms mix |
| AudioQueue.AudioPort.AdvanceMs | src/core/firmware_audio/audio_port.c:83-95 | time advances by whole 20 ms steps and keeps the remainder, at most a minute a call; while the engine is shut down nothing is mixed and the time is skipped |
| AudioQueue.AudioPort.DelayMs | src/core/firmware_audio/audio_port.c:98-105 | a wait between notes is rendered, unless it happens inside another one |
| AudioQueue.AudioPort.Take | src/core/FirmwareAudio.cpp:71-77 | the player gets exactly what was queued, once |
| AudioQueue.FirmwareAudio.CatchUp | src/core/FirmwareAudio.cpp:60-69 | the engine is advanced by the whole milliseconds it lags behind the frame count |
| AudioQueue.FirmwareAudio.FrameDone | src/core/FirmwareAudio.cpp:55-58 | engine time stays exactly 33 ms a frame plus the waits between notes, without drift, if and only if the frame periods fit 64 bits of nanoseconds; while the engine was never shut down exactly the full 20 ms of it are mixed and the rest is pending |
| AudioQueue.FirmwareAudio.Before | src/core/FirmwareAudio.cpp:83-89 | an audio call renders nothing early, as the engine already stands at the start of the frame, and its argument registers are kept |
| AudioQueue.FirmwareAudio.After | src/core/FirmwareAudio.cpp:91-157 | starting the engine, shutting it down and the waits of a note list keep engine time in step with the frames; every other call renders nothing |
| Dns.PacketWriter.AppendName | src/qt/MdnsAdvertiser_udp.cpp:27-35 | a printed name is its non-empty labels with one-byte lengths and a terminator |
| Dns.SplitJoin | src/qt/MdnsAdvertiser_udp.cpp:28-28 | splitting a joined name gives its labels back |
| Dns.ReadName | src/qt/MdnsAdvertiser_udp.cpp:44-80 | the cursor loop with bounded recursion computes the specified reading |
| Dns.ReadAdvances | src/qt/MdnsAdvertiser_udp.cpp:44-80 | a successful read moves forward and stays inside the packet |
| Dns.PrintedNameReadsBack | src/qt/MdnsAdvertiser_udp.cpp:27-80 | a name printed anywhere in a packet reads back, up to just past its terminator |
| Dns.PointerReadsTarget | src/qt/MdnsAdvertiser_udp.cpp:56-71 | labels that end in a pointer read as the labels joined to the target's name, up to just past the pointer |
| Dns.PointerOfOffset | src/qt/MdnsAdvertiser_udp.cpp:55-62 | two set bits and the fourteen bits of an offset point to that offset |
| Dns.CompressedNameReadsBack | src/qt/MdnsAdvertiser_udp.cpp:44-80 | labels that end in a pointer to a printed name are read as all the labels together |
| Dns.CyclesRefused | src/qt/MdnsAdvertiser_udp.cpp:44-66 | names whose pointers go round and round are refused, however long the cycle |
| Multiplayer.LagUnderPeriod | src/qt/QtMultiplayerService.cpp:171-177 | after any tick of an admitted player the wrapped lag behind the send slot is under 50 ms |
| Multiplayer.PromptTick | src/qt/QtMultiplayerService.cpp:167-179 | one prompt tick sends exactly when a full period has passed, and moves the slot by exactly one period |
| Multiplayer.NoDrift | src/qt/QtMultiplayerService.cpp:167-179 | prompt ticks send exactly floor(elapsed / 50) snapshots over any run, across 32-bit wrap-around |
| Multiplayer.NotOlderIsAhead | src/qt/QtMultiplayerService.cpp:300-308 | a frame number counts as not older if and only if less than half the circle leads to it from the one held |
| Multiplayer.FramesInOrder | src/qt/QtMultiplayerService.cpp:300-308 | frames that go up are always taken and their predecessors never, across the 32-bit wrap |
| Multiplayer.NewestIsHeld | src/qt/QtMultiplayerService.cpp:285-316 | whatever arrives, reordered, repeated or late, among any other messages and with a full table, a held peer that does not leave stays held with the newest frame number received |
| Multiplayer.HeardForThreeSeconds | src/qt/QtMultiplayerService.cpp:203-215 | a peer counts as heard from for exactly three seconds, across the wrap of the clock |
| Multiplayer.MultiplayerService.Join | src/qt/QtMultiplayerService.cpp:107-122 | joining starts a membership from a clean state, leaving any previous one |
| Multiplayer.MultiplayerService.Leave | src/qt/QtMultiplayerService.cpp:124-137 | leaving drops admission, peers and both timers |
| Multiplayer.MultiplayerService.Prune | src/qt/QtMultiplayerService.cpp:203-215 | exactly the peers silent for more than three seconds are forgotten |
| Multiplayer.MultiplayerService.Tick | src/qt/QtMultiplayerService.cpp:167-179 | a tick prunes, then sends by the pacing rule if admitted |
| Multiplayer.MultiplayerService.HandleMessage | src/qt/QtMultiplayerService.cpp:265-316 | messages admit, remove or update peers as specified; at most 8 are held and admission is non-zero only after a welcome |
| Multiplayer.MultiplayerService.HoldSnapshot | src/qt/QtMultiplayerService.cpp:285-316 | an update is kept unless malformed, older than the one held, or one peer too many |
| Multiplayer.MultiplayerService.HandleError | src/qt/QtMultiplayerService.cpp:253-263 | what each refusal of the server changes |
| Multiplayer.MultiplayerService.HandleDisconnected | src/qt/QtMultiplayerService.cpp:235-251 | a lost connection forgets admission and peers; the reconnection delay doubles within 1 to 30 seconds |

## Left out

- Frames.StepwiseIsWholeFrame: says nothing about a frame that exhausts a call budget, because the resumed path has one budget of twice the size for both calls and may get further; and between the steps nothing outside may change the runtime's state, as a whole frame has no such points.
- VirtualTime.FramesKeepTime: counts frames while the boundary fits 64 bits (more than three trillion frames); beyond that the source's counter wraps.
- AudioQueue.FirmwareAudio.After: what the engine itself does when it is started, shut down or played on is a parameter, as its source is not part of the repository; `skipped` counts the time that passes while it is shut down.
- Upload.ReceivedIsPrefix: one sender at a time; another host's messages in the middle of a run, which may replace the upload, are not modelled.
- Actors.Actor.Move: coordinates are unbounded integers; the source's behaviour on signed overflow is undefined and not modelled, and likewise in the playfield's scroll and camera arithmetic.
- Framebuffers.Framebuffer: the framebuffer is a two-dimensional array, and the drawing calls that tiles do not use are left out.
- Cartridges.Parse: the audio block's own parser is a parameter, and the metadata trailer, which changes neither acceptance nor layout, is left out.
- Console.Runtime.Load: takes a parsed package, so the payload always fits; scores, audio and drawing state that a load leaves alone or resets are not part of the session.
- Console.Runtime.Frame: leaves out the floating-point audio advance and the wall clock outside accurate mode.
- Performance.PerformanceBroker.BeginCase: the vector's capacity after reserve is a parameter, assumed under 2^28 entries; names, goals and time stamps are not modelled.
- Performance.PerformanceBroker.Close: std::sort is a sorting function proved to be a permutation in order, not an algorithm.
- Upload.IoProtocolServer.HandleBegin: the JSON object arrives already read into fields; the progress display and the timer itself are left out, a timeout being an event that may come at any time.
- Multiplayer.MultiplayerService.HandleMessage: messages arrive already read into fields; sockets, settings and the local player's own state are left out, and peers are a map without an order.
- Dns.ReadName: names are byte strings; records, addresses and the socket around them are left out.
- AudioQueue.AudioPort.Step: the mixer, tracker and voices are parameters, as their sources are not part of the repository; the running hash over the samples is left out.
- Trap messages are an enumeration in place of strings, and the setters that install the callback and the host range are constructor arguments.
- The remaining host calls (scores, logs, Wi-Fi stubs, sprites, animation, camera, input) are mostly one branch each and are left to the arbitrary host function.
- The disassembler, the stick axis conversion, QtAudioEngine, the web API, the store client and the user interface would add only easy members or input and output.
